/** Calls end: in every interleaving each call takes only so many steps that do anything, and from
    every state that can be reached some continuation finishes all of them. */
module CallProgress {
  import opened Bytes
  import opened CircularBuffers
  import opened DeviceSpec
  import opened KernelHeaps
  import opened Interleaving
  import opened Linearizability
  import opened LockOrder

  /** A bound on the steps a call has still to take.  A read takes three for each entry it
      touches, and it touches at most one for each byte it still wants. */
  function StepsLeft(c: Call, pc: Pc): nat {
    match pc
    case Start =>
      (match c
       case Write(_, _, _, _, _, _) => 13
       case Read(_, count, _, _) => 3 * count + 7
       case Llseek(_, _, _) => N + 5
       case Ioctl(_, _, _, _, _) => c.writeCmd + 7)
    case WCopyIn(_) => 12
    case WWant(_) => 11
    case WAbort(_, _) => 1
    case WLocked(_) => 10
    case WResized(_, _) => 9
    case WMerged(_, _) => 8
    case WOwns(_, _) => 7
    case WAdded => 6
    case WCleared => 5
    case WSaved(_) => 5
    case RWant => if c.Read? then 3 * c.count + 6 else 1
    case RLoop(_, remaining) => 3 * remaining + 5
    case RFound(_, remaining, _) => 3 * remaining + 4
    case RCopied(_, remaining, _) => 3 * remaining + 3
    case SSum(index, _) => Max(0, N - index) + 3
    case IWant => if c.Ioctl? then c.writeCmd + 6 else 1
    case ICheck => if c.Ioctl? then c.writeCmd + 5 else 1
    case ISum(index, _) => if c.Ioctl? then Max(0, c.writeCmd - index) + 3 else 1
    case Unlock(_, _) => 2
    case WLate(_, _) => 1
    case Done(_) => 0
  }

  // ---------------------------------------------------------------------------------------
  // Every step that does anything leaves fewer

  lemma WriteStepCounts(m: Mem, e: Event, c: Call, pc: Pc)
    requires Shape(m.ring) && c.Write? && c.h in m.pos && Fits(c, pc) && !Wants(c, pc) && !pc.Unlock?
    requires !Local(m, e, c, pc).0.broken
    ensures Local(m, e, c, pc) == (m, pc) || StepsLeft(c, Local(m, e, c, pc).1) < StepsLeft(c, pc)
  {
  }

  lemma ReadStepCounts(m: Mem, e: Event, c: Call, pc: Pc)
    requires Shape(m.ring) && c.Read? && c.h in m.pos && Fits(c, pc) && !Wants(c, pc) && !pc.Unlock?
    requires !Local(m, e, c, pc).0.broken && (pc.RCopied? ==> pc.piece != [])
    ensures Local(m, e, c, pc) == (m, pc) || StepsLeft(c, Local(m, e, c, pc).1) < StepsLeft(c, pc)
  {
    match pc {
      case RLoop(got, remaining) => ReadLoopCounts(m, c, got, remaining);
      case RFound(got, remaining, hit) => ReadFoundCounts(m, c, got, remaining, hit);
      case RCopied(got, remaining, piece) => ReadCopiedCounts(m, c, got, remaining, piece);
      case _ =>
    }
  }

  lemma ReadLoopCounts(m: Mem, c: Call, got: seq<Text>, remaining: nat)
    requires c.Read? && Shape(m.ring) && c.h in m.pos
    ensures StepsLeft(c, ReadLoop(m, c, got, remaining).1) < 3 * remaining + 5
  {
    var finished := Unlock(Outcome(|Flatten(got)|, Flatten(got)), NULL);
    assert StepsLeft(c, finished) == 2;
    if remaining > 0 && m.pos[c.h] >= 0 {
      match Search(m.ring, m.pos[c.h]) {
        case None =>
        case Some(hit) => assert StepsLeft(c, RFound(got, remaining, hit)) == 3 * remaining + 4;
      }
    }
  }

  lemma ReadFoundCounts(m: Mem, c: Call, got: seq<Text>, remaining: nat, hit: Hit)
    requires c.Read? && Shape(m.ring) && !ReadFound(m, c, got, remaining, hit).0.broken
    ensures StepsLeft(c, ReadFound(m, c, got, remaining, hit).1) < StepsLeft(c, RFound(got, remaining, hit))
  {
  }

  lemma ReadCopiedCounts(m: Mem, c: Call, got: seq<Text>, remaining: nat, piece: Text)
    requires c.Read? && c.h in m.pos && piece != [] && !ReadCopied(m, c, got, remaining, piece).0.broken
    ensures StepsLeft(c, ReadCopied(m, c, got, remaining, piece).1) < StepsLeft(c, RCopied(got, remaining, piece))
  {
  }

  lemma SeekStepCounts(m: Mem, e: Event, c: Call, pc: Pc)
    requires Shape(m.ring) && (c.Llseek? || c.Ioctl?) && c.h in m.pos && Fits(c, pc) && !Wants(c, pc) && !pc.Unlock?
    requires (pc.SSum? ==> pc.index <= N) && (pc.ISum? ==> c.Ioctl? && pc.index <= c.writeCmd)
    ensures Local(m, e, c, pc) == (m, pc) || StepsLeft(c, Local(m, e, c, pc).1) < StepsLeft(c, pc)
  {
  }

  /** What the code around the lock knows of a thread's place. */
  ghost predicate Placed(w: World, t: Tid)
    requires Typed(w)
  {
    t in w.pc && Ctx(w.mem, t, w.calls[t], w.pc[t])
    && (InCs(w.pc[t]) ==> CsAt(w.mem, w.abs, w.calls[t], w.pc[t]))
  }

  lemma IsPlaced(w: World, t: Tid, init: Sys)
    requires Inv(w, init) && t in w.pc
    ensures Placed(w, t) && (InCs(w.pc[t]) <==> w.lock == Some(t))
  {
    OwnContext(w, t);
  }

  lemma LocalCounts(m: Mem, e: Event, c: Call, pc: Pc, s: Sys)
    requires Ctx(m, e.t, c, pc) && c.h in s.pos && (InCs(pc) ==> CsAt(m, s, c, pc)) && !Wants(c, pc) && !pc.Unlock?
    requires !Local(m, e, c, pc).0.broken
    ensures Local(m, e, c, pc) == (m, pc) || StepsLeft(c, Local(m, e, c, pc).1) < StepsLeft(c, pc)
  {
    if c.Write? {
      WriteStepCounts(m, e, c, pc);
    } else if c.Read? {
      ReadStepCounts(m, e, c, pc);
    } else {
      SeekStepCounts(m, e, c, pc);
    }
  }

  lemma SetSame(pcs: map<Tid, Pc>, t: Tid)
    requires t in pcs
    ensures pcs[t := pcs[t]] == pcs
  {
  }

  lemma SetTwice(pcs: map<Tid, Pc>, t: Tid, a: Pc, b: Pc)
    ensures pcs[t := a][t := b] == pcs[t := b]
  {
  }

  lemma EnterCounts(c: Call, pc: Pc)
    requires Wants(c, pc)
    ensures StepsLeft(c, Enter(c, pc)) < StepsLeft(c, pc)
  {
  }

  lemma LocalStepCounts(w: World, e: Event, init: Sys)
    requires Inv(w, init) && e.t in w.pc && !Wants(w.calls[e.t], w.pc[e.t]) && !w.pc[e.t].Unlock?
    ensures var (c, pc) := (w.calls[e.t], w.pc[e.t]);
            Local(w.mem, e, c, pc) == (w.mem, pc) || StepsLeft(c, Local(w.mem, e, c, pc).1) < StepsLeft(c, pc)
  {
    StepKeeps(w, e, init);
    assert Step(w, e).mem == Local(w.mem, e, w.calls[e.t], w.pc[e.t]).0;
    IsPlaced(w, e.t, init);
    LocalCounts(w.mem, e, w.calls[e.t], w.pc[e.t], w.abs);
  }

  lemma StepIsOwn(w: World, e: Event)
    requires Typed(w) && e.t in w.pc
    ensures Step(w, e).calls == w.calls && Step(w, e).pc == w.pc[e.t := Step(w, e).pc[e.t]]
    ensures Step(w, e).lock in {None, Some(e.t), w.lock}
  {
    SetSame(w.pc, e.t);
  }

  lemma LocalIsStep(w: World, e: Event)
    requires Typed(w) && e.t in w.pc && !Wants(w.calls[e.t], w.pc[e.t]) && !w.pc[e.t].Unlock?
    ensures Step(w, e).pc[e.t] == Local(w.mem, e, w.calls[e.t], w.pc[e.t]).1
    ensures Local(w.mem, e, w.calls[e.t], w.pc[e.t]) == (w.mem, w.pc[e.t]) ==> Step(w, e) == w
  {
    SetSame(w.pc, e.t);
  }

  lemma LockStepCounts(w: World, e: Event)
    requires Typed(w) && e.t in w.pc && (Wants(w.calls[e.t], w.pc[e.t]) || w.pc[e.t].Unlock?)
    ensures Step(w, e) == w || StepsLeft(w.calls[e.t], Step(w, e).pc[e.t]) < StepsLeft(w.calls[e.t], w.pc[e.t])
  {
    if Wants(w.calls[e.t], w.pc[e.t]) {
      EnterCounts(w.calls[e.t], w.pc[e.t]);
    }
  }

  lemma StepCounts(w: World, e: Event, init: Sys)
    requires Inv(w, init) && e.t in w.pc
    ensures Step(w, e) == w || StepsLeft(w.calls[e.t], Step(w, e).pc[e.t]) < StepsLeft(w.calls[e.t], w.pc[e.t])
  {
    if Wants(w.calls[e.t], w.pc[e.t]) || w.pc[e.t].Unlock? {
      LockStepCounts(w, e);
    } else {
      LocalIsStep(w, e);
      LocalStepCounts(w, e, init);
    }
  }

  /** How many of the events are steps of thread t that change something. */
  ghost function Effective(w: World, events: seq<Event>, t: Tid): nat
    requires Typed(w)
  {
    if events == [] then 0
    else
      var k := |events| - 1;
      var before := RunEvents(w, events[..k]);
      Effective(w, events[..k], t) + if events[k].t == t && Step(before, events[k]) != before then 1 else 0
  }

  /** In any interleaving whatever, a call takes at most as many steps as the bound says; a step
      that changes nothing is one that waits for the lock or the allocator. */
  lemma {:induction false} CallIsBounded(calls: map<Tid, Call>, handles: set<Handle>, events: seq<Event>, t: Tid)
    requires (forall u :: u in calls ==> calls[u].h in handles) && t in calls
    ensures var w := RunEvents(Initial(calls, handles), events);
            t in w.pc && Effective(Initial(calls, handles), events, t) + StepsLeft(calls[t], w.pc[t]) <= StepsLeft(calls[t], Start)
  {
    var w0 := Initial(calls, handles);
    if events != [] {
      var k := |events| - 1;
      var w := RunEvents(w0, events[..k]);
      CallIsBounded(calls, handles, events[..k], t);
      RunKeeps(calls, handles, events[..k]);
      CallsNeverChange(w0, events[..k]);
      StepIsPaidFor(w, events[k], t, w0.abs);
    }
  }

  lemma StepIsPaidFor(w: World, e: Event, t: Tid, init: Sys)
    requires Inv(w, init) && t in w.pc
    ensures t in Step(w, e).pc
    ensures (if e.t == t && Step(w, e) != w then 1 else 0) + StepsLeft(w.calls[t], Step(w, e).pc[t]) <= StepsLeft(w.calls[t], w.pc[t])
  {
    if e.t in w.pc {
      StepIsOwn(w, e);
      StepCounts(w, e, init);
    }
  }

  // ---------------------------------------------------------------------------------------
  // Some step does something

  lemma WriteCanStep(m: Mem, s: Sys, t: Tid, c: Call, pc: Pc) returns (e: Event)
    requires Ctx(m, t, c, pc) && c.h in s.pos && (InCs(pc) ==> CsAt(m, s, c, pc)) && c.Write?
    requires !Wants(c, pc) && !pc.Unlock? && !pc.Done?
    ensures e.t == t && Local(m, e, c, pc) != (m, pc)
  {
    var zeros: Text := seq(|c.data|, _ => 0);
    if pc.WLocked? {
      e := Event(t, m.partialWrite, zeros);
    } else {
      var p := SomeAddressIsFree(m.heap.Keys);
      e := Event(t, p, zeros);
    }
  }

  lemma ReadCanStep(m: Mem, t: Tid, c: Call, pc: Pc) returns (e: Event)
    requires Shape(m.ring) && c.h in m.pos && Fits(c, pc) && !m.broken && c.Read?
    requires !Wants(c, pc) && !pc.Unlock? && !pc.Done?
    ensures e.t == t && Local(m, e, c, pc) != (m, pc)
  {
    e := Event(t, NULL, []);
  }

  lemma SeekCanStep(m: Mem, t: Tid, c: Call, pc: Pc) returns (e: Event)
    requires Shape(m.ring) && c.h in m.pos && Fits(c, pc) && (c.Llseek? || c.Ioctl?)
    requires pc.ISum? ==> c.Ioctl? && c.writeCmd <= N
    requires !Wants(c, pc) && !pc.Unlock? && !pc.Done?
    ensures e.t == t && Local(m, e, c, pc) != (m, pc)
  {
    e := Event(t, NULL, []);
  }

  lemma OtherCanStep(m: Mem, s: Sys, t: Tid, c: Call, pc: Pc) returns (e: Event)
    requires Ctx(m, t, c, pc) && c.h in s.pos && (InCs(pc) ==> CsAt(m, s, c, pc)) && !c.Write?
    requires !Wants(c, pc) && !pc.Unlock? && !pc.Done?
    ensures e.t == t && Local(m, e, c, pc) != (m, pc)
  {
    if c.Read? {
      e := ReadCanStep(m, t, c, pc);
    } else {
      if pc.ISum? {
        SeekPosIs(Stored(s.log), c.writeCmd, c.writeCmdOffset);
      }
      e := SeekCanStep(m, t, c, pc);
    }
  }

  /** A thread that has not finished can step, unless it waits for the lock that another holds. */
  lemma CanStep(w: World, t: Tid, init: Sys) returns (e: Event)
    requires Inv(w, init) && t in w.pc && !w.pc[t].Done? && (w.lock == None || w.lock == Some(t))
    ensures e.t == t && Step(w, e) != w
  {
    var c, pc := w.calls[t], w.pc[t];
    IsPlaced(w, t, init);
    if Wants(c, pc) || pc.Unlock? {
      e := Event(t, NULL, []);
      assert Wants(c, pc) ==> w.lock == None;
      assert Step(w, e).lock != w.lock;
    } else {
      if c.Write? {
        e := WriteCanStep(w.mem, w.abs, t, c, pc);
      } else {
        e := OtherCanStep(w.mem, w.abs, t, c, pc);
      }
      assert Step(w, e).mem == Local(w.mem, e, c, pc).0 && Step(w, e).pc[t] == Local(w.mem, e, c, pc).1;
    }
  }

  // ---------------------------------------------------------------------------------------
  // Some continuation finishes

  lemma RunSnoc(calls: map<Tid, Call>, handles: set<Handle>, events: seq<Event>, e: Event)
    requires forall t :: t in calls ==> calls[t].h in handles
    ensures var w0 := Initial(calls, handles);
            RunEvents(w0, events + [e]) == Step(RunEvents(w0, events), e)
  {
    assert (events + [e])[..|events|] == events;
  }

  /** The lock is free, or t has it. */
  ghost predicate LockFor(w: World, t: Tid) {
    w.lock == None || w.lock == Some(t)
  }

  /** One more step of thread t, which has not finished and need not wait. */
  lemma Advance(calls: map<Tid, Call>, handles: set<Handle>, events: seq<Event>, t: Tid) returns (more: seq<Event>)
    requires (forall u :: u in calls ==> calls[u].h in handles) && t in calls
    requires var w := RunEvents(Initial(calls, handles), events);
             LockFor(w, t) && t in w.pc && !w.pc[t].Done?
    ensures var (w, w') := (RunEvents(Initial(calls, handles), events), RunEvents(Initial(calls, handles), more));
            && events <= more && LockFor(w', t) && t in w'.pc && w'.pc == w.pc[t := w'.pc[t]]
            && StepsLeft(calls[t], w'.pc[t]) < StepsLeft(calls[t], w.pc[t])
  {
    var w0 := Initial(calls, handles);
    var w := RunEvents(w0, events);
    RunKeeps(calls, handles, events);
    CallsNeverChange(w0, events);
    var e := CanStep(w, t, w0.abs);
    RunSnoc(calls, handles, events, e);
    StepIsOwn(w, e);
    StepCounts(w, e, w0.abs);
    more := events + [e];
  }

  lemma DoneUnlocked(w: World, t: Tid, init: Sys)
    requires Inv(w, init) && t in w.pc && w.pc[t].Done? && LockFor(w, t)
    ensures w.lock == None
  {
    IsPlaced(w, t, init);
  }

  /** Let thread t alone run until its call has ended. */
  lemma {:induction false} FinishOne(calls: map<Tid, Call>, handles: set<Handle>, events: seq<Event>, t: Tid)
      returns (more: seq<Event>)
    requires (forall u :: u in calls ==> calls[u].h in handles) && t in calls
    requires LockFor(RunEvents(Initial(calls, handles), events), t)
    ensures var (w, w') := (RunEvents(Initial(calls, handles), events), RunEvents(Initial(calls, handles), more));
            && events <= more && w'.lock == None
            && t in w'.pc && w'.pc[t].Done? && t in w.pc && w'.pc == w.pc[t := w'.pc[t]]
    decreases var w := RunEvents(Initial(calls, handles), events); if t in w.pc then StepsLeft(calls[t], w.pc[t]) else 0
  {
    var w0 := Initial(calls, handles);
    var w := RunEvents(w0, events);
    more := events;
    CallsNeverChange(w0, events);
    if w.pc[t].Done? {
      RunKeeps(calls, handles, events);
      DoneUnlocked(w, t, w0.abs);
      SetSame(w.pc, t);
    } else {
      more := Advance(calls, handles, events, t);
      ghost var pc1 := RunEvents(w0, more).pc[t];
      more := FinishOne(calls, handles, more, t);
      SetTwice(w.pc, t, pc1, RunEvents(w0, more).pc[t]);
    }
  }

  ghost function Unfinished(w: World): set<Tid> {
    set t | t in w.pc && !w.pc[t].Done?
  }

  lemma OneFewer(w: World, w': World, t: Tid)
    requires t in Unfinished(w) && t in w'.pc && w'.pc[t].Done? && w'.pc == w.pc[t := w'.pc[t]]
    ensures |Unfinished(w')| < |Unfinished(w)|
  {
    assert Unfinished(w') == Unfinished(w) - {t};
  }

  lemma HolderUnfinished(w: World)
    requires Typed(w) && LockOk(w) && w.lock.Some?
    ensures w.lock.value in w.pc && !w.pc[w.lock.value].Done?
  {
  }

  lemma Next(w: World, init: Sys) returns (t: Tid)
    requires Inv(w, init) && Unfinished(w) != {}
    ensures t in Unfinished(w) && LockFor(w, t)
  {
    if w.lock.Some? {
      t := w.lock.value;
      HolderUnfinished(w);
    } else {
      t :| t in Unfinished(w);
    }
  }

  /** From whatever state an interleaving has reached, all calls can still end: nothing the code
      does leaves a call, or the lock, stuck. */
  lemma {:induction false} AllCanFinish(calls: map<Tid, Call>, handles: set<Handle>, events: seq<Event>)
      returns (more: seq<Event>)
    requires forall t :: t in calls ==> calls[t].h in handles
    ensures events <= more && AllDone(RunEvents(Initial(calls, handles), more))
    ensures RunEvents(Initial(calls, handles), more).lock == None
    decreases |Unfinished(RunEvents(Initial(calls, handles), events))|
  {
    var w0 := Initial(calls, handles);
    var w := RunEvents(w0, events);
    RunKeeps(calls, handles, events);
    CallsNeverChange(w0, events);
    if Unfinished(w) == {} {
      more := events;
      NoneUnfinished(w);
      AllDoneUnlocked(w);
    } else {
      var t := Next(w, w0.abs);
      var ended := FinishOne(calls, handles, events, t);
      OneFewer(w, RunEvents(w0, ended), t);
      more := AllCanFinish(calls, handles, ended);
    }
  }

  lemma NoneUnfinished(w: World)
    requires Unfinished(w) == {}
    ensures AllDone(w)
  {
    forall t | t in w.pc
      ensures w.pc[t].Done?
    {
      assert t !in Unfinished(w);
    }
  }
}