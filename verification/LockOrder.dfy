/** Whole runs of the step machine: the order in which calls take the lock is a sequential run
    with the same outcomes and the same final device, no step ever touches freed memory, and
    every allocation is accounted for. */
module LockOrder {
  import opened Bytes
  import opened CircularBuffers
  import opened DeviceSpec
  import opened DeviceRuns
  import opened Driver
  import opened Interleaving
  import opened Linearizability

  ghost predicate EndedWith(w: World, t: Tid, o: Outcome) {
    exists i :: 0 <= i < |w.ended| && i < |w.outs| && w.ended[i] == t && w.outs[i] == o
  }

  /** A thread that has its result got it from its critical section, or never entered one. */
  ghost predicate ResultOk(w: World, t: Tid, c: Call, pc: Pc) {
    match pc
    case WLate(_, o) => EndedWith(w, t, o)
    case Done(o) => Early(c) == Some(o) || EndedWith(w, t, o)
    case _ => true
  }

  ghost predicate ThreadOk(w: World, t: Tid)
    requires t in w.pc && t in w.calls
  {
    Fits(w.calls[t], w.pc[t]) && Holds(w.mem, t, w.calls[t], w.pc[t]) && ResultOk(w, t, w.calls[t], w.pc[t])
  }

  /** Every temporary or growing block belongs to a thread that can name it. */
  ghost predicate Accounted(w: World) {
    forall p :: p in w.mem.owner ==>
      match w.mem.owner[p]
      case Tmp(t) => t in w.pc && TmpOf(w.pc[t]) == p
      case Growing(t) => t in w.pc && GrowOf(w.pc[t]) == p
      case _ => true
  }

  ghost predicate LockOk(w: World)
    requires Typed(w)
  {
    && |w.ended| == |w.outs|
    && (forall i :: 0 <= i < |w.ended| ==> w.ended[i] in w.calls)
    && (forall t :: t in w.pc && InCs(w.pc[t]) ==> w.lock == Some(t))
    && match w.lock
       case None => Rep(w.mem, w.abs) && w.order == w.ended
       case Some(t) =>
         && t in w.pc && InCs(w.pc[t]) && Fits(w.calls[t], w.pc[t])
         && CsAt(w.mem, w.abs, w.calls[t], w.pc[t])
         && w.order == w.ended + [t]
  }

  function CallsOf(calls: map<Tid, Call>, ts: seq<Tid>): (cs: seq<Call>)
    requires forall i :: 0 <= i < |ts| ==> ts[i] in calls
    ensures |cs| == |ts|
  {
    if ts == [] then [] else CallsOf(calls, ts[..|ts| - 1]) + [calls[ts[|ts| - 1]]]
  }

  /** The finished critical sections, one call after another, give this state and outcomes. */
  ghost predicate TraceOk(w: World, init: Sys)
    requires forall i :: 0 <= i < |w.ended| ==> w.ended[i] in w.calls
  {
    && Known(init, CallsOf(w.calls, w.ended))
    && Run(init, CallsOf(w.calls, w.ended)) == (w.abs, w.outs)
  }

  ghost predicate Inv(w: World, init: Sys) {
    && Typed(w) && MemOk(w.mem) && Accounted(w)
    && (forall t :: t in w.pc ==> ThreadOk(w, t))
    && LockOk(w) && TraceOk(w, init)
    && (forall h :: h in w.abs.pos ==> 0 <= w.abs.pos[h])
    && init.pos.Keys == w.abs.pos.Keys
  }

  lemma OwnContext(w: World, t: Tid)
    requires Typed(w) && MemOk(w.mem) && Accounted(w) && t in w.pc && ThreadOk(w, t)
    ensures Ctx(w.mem, t, w.calls[t], w.pc[t])
  {
  }

  // ---------------------------------------------------------------------------------------
  // A local step, seen from the whole world

  function Moved(w: World, t: Tid, mp: (Mem, Pc)): World {
    w.(mem := mp.0, pc := w.pc[t := mp.1])
  }

  lemma MovedAccounted(w: World, t: Tid, mp: (Mem, Pc))
    requires Accounted(w) && t in w.pc && t in w.calls && After(w.mem, mp.0, t, w.calls[t], mp.1)
    ensures Accounted(Moved(w, t, mp))
  {
  }

  lemma MovedThreads(w: World, t: Tid, mp: (Mem, Pc))
    requires w.pc.Keys == w.calls.Keys && t in w.pc && After(w.mem, mp.0, t, w.calls[t], mp.1)
    requires forall u :: u in w.pc ==> ThreadOk(w, u)
    requires ResultOk(w, t, w.calls[t], mp.1)
    ensures forall u :: u in w.pc ==> ThreadOk(Moved(w, t, mp), u)
  {
    var w' := Moved(w, t, mp);
    forall u | u in w.pc
      ensures ThreadOk(w', u)
    {
      SameResults(w, w', u, w.calls[u], w'.pc[u]);
      if u != t {
        assert TmpOf(w.pc[u]) != NULL ==> Kept(w.mem, w'.mem, TmpOf(w.pc[u]));
        assert GrowOf(w.pc[u]) != NULL ==> Kept(w.mem, w'.mem, GrowOf(w.pc[u]));
      }
    }
  }

  lemma SameResults(w: World, w': World, t: Tid, c: Call, pc: Pc)
    requires ResultOk(w, t, c, pc) && w.ended <= w'.ended && w.outs <= w'.outs
    ensures ResultOk(w', t, c, pc)
  {
    if (pc.WLate? || pc.Done?) && EndedWith(w, t, pc.o) {
      var i :| 0 <= i < |w.ended| && i < |w.outs| && w.ended[i] == t && w.outs[i] == pc.o;
      assert w'.ended[i] == t && w'.outs[i] == pc.o;
    }
  }

  lemma OutsideHolder(w: World, t: Tid, mp: (Mem, Pc), u: Tid)
    requires Typed(w) && MemOk(w.mem) && Private(w.mem, mp.0, t) && u != t && u in w.pc && ThreadOk(w, u)
    requires InCs(w.pc[u]) && CsAt(w.mem, w.abs, w.calls[u], w.pc[u])
    ensures CsAt(mp.0, w.abs, w.calls[u], w.pc[u])
  {
    PrivateKeepsCs(w.mem, mp.0, t, u, w.abs, w.calls[u], w.pc[u]);
  }

  lemma OutsideLock(w: World, t: Tid, mp: (Mem, Pc))
    requires Typed(w) && MemOk(w.mem) && LockOk(w) && t in w.pc && !InCs(w.pc[t]) && !InCs(mp.1)
    requires w.lock.Some? ==> ThreadOk(w, w.lock.value)
    requires PrivateTo(w.mem, t, w.calls[t], mp)
    ensures Typed(Moved(w, t, mp)) && LockOk(Moved(w, t, mp))
  {
    match w.lock {
      case None => OutsideFree(w, t, mp);
      case Some(u) => OutsideHeld(w, t, mp, u);
    }
  }

  lemma OutsideFree(w: World, t: Tid, mp: (Mem, Pc))
    requires Typed(w) && MemOk(w.mem) && LockOk(w) && t in w.pc && !InCs(w.pc[t]) && !InCs(mp.1) && w.lock == None
    requires Private(w.mem, mp.0, t) && Typed(Moved(w, t, mp))
    ensures LockOk(Moved(w, t, mp))
  {
    PrivateKeepsRep(w.mem, mp.0, t, w.abs);
  }

  lemma OutsideHeld(w: World, t: Tid, mp: (Mem, Pc), u: Tid)
    requires Typed(w) && MemOk(w.mem) && LockOk(w) && t in w.pc && !InCs(w.pc[t]) && !InCs(mp.1) && w.lock == Some(u)
    requires ThreadOk(w, u) && Private(w.mem, mp.0, t) && Typed(Moved(w, t, mp))
    ensures LockOk(Moved(w, t, mp))
  {
    OutsideHolder(w, t, mp, u);
  }

  lemma InsideLock(w: World, t: Tid, mp: (Mem, Pc))
    requires Typed(w) && LockOk(w) && w.lock == Some(t)
    requires InsideTo(w.mem, w.abs, t, w.calls[t], mp)
    ensures Typed(Moved(w, t, mp)) && LockOk(Moved(w, t, mp))
  {
  }

  lemma LocalResult(w: World, e: Event)
    requires Typed(w) && e.t in w.pc && ThreadOk(w, e.t) && !Wants(w.calls[e.t], w.pc[e.t]) && !w.pc[e.t].Unlock?
    requires MemOk(w.mem)
    ensures ResultOk(w, e.t, w.calls[e.t], Local(w.mem, e, w.calls[e.t], w.pc[e.t]).1)
  {
  }

  lemma OutsideNotIn(m: Mem, e: Event, c: Call, pc: Pc)
    requires Shape(m.ring) && c.h in m.pos && !InCs(pc) && !Wants(c, pc) && Fits(c, pc)
    ensures !InCs(Local(m, e, c, pc).1)
  {
  }

  lemma LocalKeeps(w: World, e: Event, init: Sys)
    requires Inv(w, init) && e.t in w.pc && !Wants(w.calls[e.t], w.pc[e.t]) && !w.pc[e.t].Unlock?
    ensures Inv(Moved(w, e.t, Local(w.mem, e, w.calls[e.t], w.pc[e.t])), init)
  {
    var c, pc := w.calls[e.t], w.pc[e.t];
    var mp := Local(w.mem, e, c, pc);
    OwnContext(w, e.t);
    if InCs(pc) {
      LocalInside(w.mem, w.abs, e, c, pc);
      InsideLock(w, e.t, mp);
    } else {
      OutsideIsPrivate(w.mem, e, c, pc);
      OutsideNotIn(w.mem, e, c, pc);
      OutsideLock(w, e.t, mp);
    }
    LocalResult(w, e);
    MovedAccounted(w, e.t, mp);
    MovedThreads(w, e.t, mp);
  }

  // ---------------------------------------------------------------------------------------
  // Taking and releasing the lock

  lemma AcquireInside(w: World, t: Tid)
    requires Typed(w) && MemOk(w.mem) && Accounted(w) && LockOk(w) && w.lock == None
    requires t in w.pc && ThreadOk(w, t) && Wants(w.calls[t], w.pc[t])
    ensures InsideTo(w.mem, w.abs, t, w.calls[t], (w.mem, Enter(w.calls[t], w.pc[t])))
  {
    OwnContext(w, t);
    EnterInside(w.mem, w.abs, t, w.calls[t], w.pc[t]);
  }

  lemma AcquireKeeps(w: World, t: Tid, init: Sys)
    requires Inv(w, init) && t in w.pc && Wants(w.calls[t], w.pc[t]) && w.lock == None
    ensures Inv(Acquire(w, t), init)
  {
    AcquireOwners(w, t);
    AcquireThreads(w, t);
  }

  lemma AcquireOwners(w: World, t: Tid)
    requires Typed(w) && MemOk(w.mem) && Accounted(w) && LockOk(w) && w.lock == None
    requires t in w.pc && ThreadOk(w, t) && Wants(w.calls[t], w.pc[t])
    ensures Accounted(Acquire(w, t)) && LockOk(Acquire(w, t))
  {
    AcquireInside(w, t);
    AcquireLock(w, t);
    MovedAccounted(w, t, (w.mem, Enter(w.calls[t], w.pc[t])));
  }

  lemma AcquireThreads(w: World, t: Tid)
    requires Typed(w) && MemOk(w.mem) && Accounted(w) && LockOk(w) && w.lock == None
    requires t in w.pc && Wants(w.calls[t], w.pc[t]) && forall u :: u in w.pc ==> ThreadOk(w, u)
    ensures forall u :: u in w.pc ==> ThreadOk(Acquire(w, t), u)
  {
    AcquireInside(w, t);
    var w1 := Moved(w, t, (w.mem, Enter(w.calls[t], w.pc[t])));
    MovedThreads(w, t, (w.mem, Enter(w.calls[t], w.pc[t])));
    forall u | u in w.pc
      ensures ThreadOk(Acquire(w, t), u)
    {
      SameResults(w1, Acquire(w, t), u, w.calls[u], w1.pc[u]);
    }
  }

  lemma AcquireLock(w: World, t: Tid)
    requires Typed(w) && LockOk(w) && t in w.pc && Wants(w.calls[t], w.pc[t]) && w.lock == None
    requires Typed(Acquire(w, t))
    requires InsideTo(w.mem, w.abs, t, w.calls[t], (w.mem, Enter(w.calls[t], w.pc[t])))
    ensures LockOk(Acquire(w, t))
  {
  }

  lemma UnlockOutcome(w: World, t: Tid)
    requires Typed(w) && LockOk(w) && t in w.pc && w.pc[t].Unlock?
    ensures Rep(w.mem, Do(w.abs, w.calls[t]).0) && Do(w.abs, w.calls[t]).1 == w.pc[t].o
  {
  }

  lemma ReleaseTrace(w: World, t: Tid, init: Sys)
    requires Typed(w) && t in w.pc && w.pc[t].Unlock? && Do(w.abs, w.calls[t]).1 == w.pc[t].o
    requires (forall i :: 0 <= i < |w.ended| ==> w.ended[i] in w.calls)
    requires TraceOk(w, init) && w.calls[t].h in init.pos
    ensures forall i :: 0 <= i < |Release(w, t).ended| ==> Release(w, t).ended[i] in w.calls
    ensures TraceOk(Release(w, t), init)
  {
    var ended', cs, cs' := w.ended + [t], CallsOf(w.calls, w.ended), CallsOf(w.calls, w.ended + [t]);
    assert ended'[..|w.ended|] == w.ended;
    assert cs' == cs + [w.calls[t]] && cs'[..|cs|] == cs;
    assert Release(w, t).ended == ended';
  }

  lemma ReleaseOwn(w: World, t: Tid)
    requires Typed(w) && |w.ended| == |w.outs| && t in w.pc && w.pc[t].Unlock? && ThreadOk(w, t)
    ensures ThreadOk(Release(w, t), t)
  {
    var w', o := Release(w, t), w.pc[t].o;
    assert w'.ended[|w.ended|] == t && w'.outs[|w.outs|] == o;
    assert EndedWith(w', t, o);
  }

  lemma ReleaseThreads(w: World, t: Tid)
    requires Typed(w) && |w.ended| == |w.outs|
    requires t in w.pc && w.pc[t].Unlock? && forall u :: u in w.pc ==> ThreadOk(w, u)
    ensures forall u :: u in w.pc ==> ThreadOk(Release(w, t), u)
  {
    ReleaseOwn(w, t);
    forall u | u in w.pc && u != t
      ensures ThreadOk(Release(w, t), u)
    {
      SameResults(w, Release(w, t), u, w.calls[u], w.pc[u]);
    }
  }

  lemma ReleaseLock(w: World, t: Tid)
    requires Typed(w) && LockOk(w) && t in w.pc && w.pc[t].Unlock?
    ensures Typed(Release(w, t)) && LockOk(Release(w, t))
  {
  }

  lemma ReleaseRest(w: World, t: Tid)
    requires Typed(w) && Accounted(w) && LockOk(w) && t in w.pc && w.pc[t].Unlock?
    ensures Accounted(Release(w, t)) && Release(w, t).mem == w.mem && Release(w, t).abs.pos == w.mem.pos
  {
    UnlockOutcome(w, t);
  }

  lemma ReleaseKeeps(w: World, t: Tid, init: Sys)
    requires Inv(w, init) && t in w.pc && w.pc[t].Unlock?
    ensures Inv(Release(w, t), init)
  {
    var w' := Release(w, t);
    assert Accounted(w') && w'.mem == w.mem && w'.abs.pos == w.mem.pos by {
      ReleaseRest(w, t);
    }
    assert forall u :: u in w.pc ==> ThreadOk(w', u) by {
      ReleaseThreads(w, t);
    }
    assert LockOk(w') by {
      ReleaseLock(w, t);
    }
    assert TraceOk(w', init) by {
      UnlockOutcome(w, t);
      ReleaseTrace(w, t, init);
    }
  }

  /** Every step of every thread keeps the invariant. */
  lemma {:induction false} StepKeeps(w: World, e: Event, init: Sys)
    requires Inv(w, init)
    ensures Inv(Step(w, e), init)
  {
    if e.t in w.pc {
      if Wants(w.calls[e.t], w.pc[e.t]) {
        if w.lock == None {
          AcquireKeeps(w, e.t, init);
        }
      } else if w.pc[e.t].Unlock? {
        ReleaseKeeps(w, e.t, init);
      } else {
        LocalKeeps(w, e, init);
      }
    }
  }

  lemma InitialOk(calls: map<Tid, Call>, handles: set<Handle>)
    requires forall t :: t in calls ==> calls[t].h in handles
    ensures Inv(Initial(calls, handles), Initial(calls, handles).abs)
    ensures Fresh(Initial(calls, handles).abs)
  {
    SlotFacts(0);
  }

  lemma {:induction false} RunKeeps(calls: map<Tid, Call>, handles: set<Handle>, events: seq<Event>)
    requires forall t :: t in calls ==> calls[t].h in handles
    ensures Inv(RunEvents(Initial(calls, handles), events), Initial(calls, handles).abs)
  {
    if events == [] {
      InitialOk(calls, handles);
    } else {
      RunKeeps(calls, handles, events[..|events| - 1]);
      StepKeeps(RunEvents(Initial(calls, handles), events[..|events| - 1]), events[|events| - 1],
                Initial(calls, handles).abs);
    }
  }

  // ---------------------------------------------------------------------------------------
  // The theorems

  lemma {:induction false} CallsNeverChange(w: World, events: seq<Event>)
    requires Typed(w)
    ensures RunEvents(w, events).calls == w.calls && RunEvents(w, events).pc.Keys == w.pc.Keys
  {
    if events != [] {
      CallsNeverChange(w, events[..|events| - 1]);
    }
  }

  /** w's finished calls, in lock order, are a sequential run from init that explains w. */
  ghost predicate Sequential(w: World, init: Sys) {
    && !w.mem.broken
    && w.order == w.ended + (if w.lock.Some? then [w.lock.value] else [])
    && (forall i :: 0 <= i < |w.ended| ==> w.ended[i] in w.calls)
    && Known(init, CallsOf(w.calls, w.ended))
    && Run(init, CallsOf(w.calls, w.ended)) == (w.abs, w.outs)
    && (w.lock == None ==>
          && Represents(w.mem.heap, w.mem.ring, w.mem.partialWrite, w.mem.partialSize, w.mem.hist, w.abs.log)
          && w.mem.pos == w.abs.pos)
  }

  lemma InvIsSequential(w: World, init: Sys)
    requires Inv(w, init) && Fresh(init)
    ensures Sequential(w, init)
  {
    PartialHasNoNewline(init, CallsOf(w.calls, w.ended));
    OrderIs(w);
    if w.lock == None {
      FreeLockRepresents(w);
    }
  }

  lemma PartialHasNoNewline(init: Sys, calls: seq<Call>)
    requires Known(init, calls) && Fresh(init)
    ensures !HasNewline(Run(init, calls).0.log.partial)
  {
    StreamConservation(init, calls);
  }

  lemma OrderIs(w: World)
    requires Typed(w) && LockOk(w)
    ensures w.order == w.ended + (if w.lock.Some? then [w.lock.value] else [])
    ensures w.lock == None ==> w.mem.pos == w.abs.pos
  {
  }

  /** Whatever the threads do and in whatever order they are scheduled, no step touches memory
      that is not live; the finished calls, taken in the order in which they acquired the lock,
      form a sequential run with exactly their outcomes; and whenever the lock is free, ring,
      partial write, heap and file positions represent the state that run ends in. */
  lemma Linearizable(calls: map<Tid, Call>, handles: set<Handle>, events: seq<Event>)
    requires forall t :: t in calls ==> calls[t].h in handles
    ensures var w0 := Initial(calls, handles);
            var w := RunEvents(w0, events);
            w.calls == calls && Fresh(w0.abs) && Sequential(w, w0.abs)
  {
    var w0 := Initial(calls, handles);
    RunKeeps(calls, handles, events);
    CallsNeverChange(w0, events);
    InitialOk(calls, handles);
    InvIsSequential(RunEvents(w0, events), w0.abs);
  }

  lemma FreeLockRepresents(w: World)
    requires Typed(w) && MemOk(w.mem) && LockOk(w) && w.lock == None && !HasNewline(w.abs.log.partial)
    ensures Represents(w.mem.heap, w.mem.ring, w.mem.partialWrite, w.mem.partialSize, w.mem.hist, w.abs.log)
  {
  }

  /** A finished call that took the lock returned what it returns at its place of that
      sequential run; one that never took it returned what it returns when run alone. */
  lemma {:induction false} ResultsAreSequential(calls: map<Tid, Call>, handles: set<Handle>, events: seq<Event>, t: Tid)
    requires forall u :: u in calls ==> calls[u].h in handles
    requires var w := RunEvents(Initial(calls, handles), events);
             t in calls && t in w.pc && w.pc[t].Done?
    ensures var w := RunEvents(Initial(calls, handles), events);
            var o := w.pc[t].o;
            || EndedWith(w, t, o)
            || (forall s: Sys :: calls[t].h in s.pos && 0 <= s.pos[calls[t].h] ==> Do(s, calls[t]) == (s, o))
  {
    var w := RunEvents(Initial(calls, handles), events);
    RunKeeps(calls, handles, events);
    CallsNeverChange(Initial(calls, handles), events);
    assert ThreadOk(w, t);
    if !EndedWith(w, t, w.pc[t].o) {
      forall s: Sys | calls[t].h in s.pos && 0 <= s.pos[calls[t].h]
        ensures Do(s, calls[t]) == (s, w.pc[t].o)
      {
        EarlyIsNoEffect(s, calls[t]);
      }
    }
  }

  predicate BeforeLock(pc: Pc) {
    pc.Start? || pc.WCopyIn? || pc.WWant? || pc.WAbort? || pc.RWant? || pc.IWant?
  }

  ghost predicate LockedOnce(w: World) {
    && (forall i, j :: 0 <= i < j < |w.order| ==> w.order[i] != w.order[j])
    && (forall t :: t in w.pc && BeforeLock(w.pc[t]) ==> t !in w.order)
  }

  /** No call takes the lock twice. */
  lemma {:induction false} EachCallLocksOnce(calls: map<Tid, Call>, handles: set<Handle>, events: seq<Event>)
    requires forall t :: t in calls ==> calls[t].h in handles
    ensures LockedOnce(RunEvents(Initial(calls, handles), events))
  {
    if events != [] {
      var k := |events| - 1;
      EachCallLocksOnce(calls, handles, events[..k]);
      StepLocksOnce(RunEvents(Initial(calls, handles), events[..k]), events[k]);
    }
  }

  lemma StepLocksOnce(w: World, e: Event)
    requires Typed(w) && LockedOnce(w)
    ensures LockedOnce(Step(w, e))
  {
    var w' := Step(w, e);
    if e.t in w.pc {
      var c, pc := w.calls[e.t], w.pc[e.t];
      if Wants(c, pc) {
        assert BeforeLock(pc) && !BeforeLock(Enter(c, pc));
      } else if !pc.Unlock? {
        NeverBack(w.mem, e, c, pc);
        assert w'.order == w.order;
      }
    }
  }

  lemma NeverBack(m: Mem, e: Event, c: Call, pc: Pc)
    requires Shape(m.ring) && c.h in m.pos
    ensures BeforeLock(Local(m, e, c, pc).1) ==> BeforeLock(pc)
  {
  }

  lemma {:induction false} OrderGrows(w: World, events: seq<Event>, k: nat)
    requires Typed(w) && k <= |events|
    ensures RunEvents(w, events[..k]).order <= RunEvents(w, events).order
  {
    if k < |events| {
      OrderGrows(w, events[..|events| - 1], k);
      assert events[..|events| - 1][..k] == events[..k];
    } else {
      assert events[..k] == events;
    }
  }

  /** Lock order respects time: a call that has had the lock before another one gets to it, in
      particular one that has ended before the other starts, comes first. */
  lemma RealTimeOrder(calls: map<Tid, Call>, handles: set<Handle>, events: seq<Event>, k: nat, i: nat, j: nat)
    requires forall t :: t in calls ==> calls[t].h in handles
    requires k <= |events| && i < |RunEvents(Initial(calls, handles), events).order|
    requires j < |RunEvents(Initial(calls, handles), events).order|
    requires var (w, w') := (RunEvents(Initial(calls, handles), events[..k]), RunEvents(Initial(calls, handles), events));
             && w'.order[i] in w.order
             && w'.order[j] in w.pc && BeforeLock(w.pc[w'.order[j]])
    ensures i < j
  {
    var (w, w') := (RunEvents(Initial(calls, handles), events[..k]), RunEvents(Initial(calls, handles), events));
    OrderGrows(Initial(calls, handles), events, k);
    EachCallLocksOnce(calls, handles, events[..k]);
    EachCallLocksOnce(calls, handles, events);
    var a :| 0 <= a < |w.order| && w.order[a] == w'.order[i];
    assert w'.order[a] == w'.order[i];
    assert forall q :: 0 <= q < |w.order| ==> w'.order[q] == w.order[q];
  }

  ghost predicate AllDone(w: World) {
    forall t :: t in w.pc ==> w.pc[t].Done?
  }

  lemma AllDoneOwners(w: World)
    requires MemOk(w.mem) && Accounted(w) && AllDone(w)
    ensures w.mem.heap.Keys <= Pointers(w.mem.hist) + {w.mem.partialWrite}
  {
    var m := w.mem;
    forall p | p in m.heap
      ensures p in Pointers(m.hist) + {m.partialWrite}
    {
      assert p in m.owner;
      if m.owner[p].Committed? {
        assert m.hist[m.owner[p].k].buffptr == p;
      }
    }
  }

  lemma RepresentedAreLive(m: Mem, log: Log)
    requires Represents(m.heap, m.ring, m.partialWrite, m.partialSize, m.hist, log)
    ensures Pointers(m.hist) + {m.partialWrite} - {NULL} <= m.heap.Keys
  {
  }

  lemma QuietHeap(w: World, init: Sys)
    requires Inv(w, init) && Fresh(init) && AllDone(w)
    ensures OnlyDeviceBlocks(w.mem)
  {
    QuietRepresents(w, init);
    AllDoneOwners(w);
    RepresentedAreLive(w.mem, w.abs.log);
    EvictedAreLeft(w.mem, w.abs.log);
  }

  lemma QuietRepresents(w: World, init: Sys)
    requires Inv(w, init) && Fresh(init) && AllDone(w)
    ensures Represents(w.mem.heap, w.mem.ring, w.mem.partialWrite, w.mem.partialSize, w.mem.hist, w.abs.log)
  {
    AllDoneUnlocked(w);
    InvIsSequential(w, init);
  }

  lemma EvictedAreLeft(m: Mem, log: Log)
    requires Represents(m.heap, m.ring, m.partialWrite, m.partialSize, m.hist, log)
    requires m.heap.Keys <= Pointers(m.hist) + {m.partialWrite}
    ensures m.heap.Keys - Pointers(m.ring.entry) - {m.partialWrite} == Pointers(m.hist[..Oldest(|m.hist|)])
  {
    LeftAfterCleanup(m.heap, m.ring, m.partialWrite, m.partialSize, m.hist, log);
    assert m.heap.Keys - Pointers(m.hist) - {m.partialWrite} == {};
    assert m.heap.Keys - Pointers(m.ring.entry) - {m.partialWrite}
        == m.heap.Keys - {m.partialWrite} - Pointers(m.ring.entry);
  }

  /** The live blocks are the ring's, the partial write and the evicted ones. */
  ghost predicate OnlyDeviceBlocks(m: Mem) {
    && m.heap.Keys == Pointers(m.hist) + {m.partialWrite} - {NULL}
    && m.heap.Keys - Pointers(m.ring.entry) - {m.partialWrite} == Pointers(m.hist[..Oldest(|m.hist|)])
  }

  /** Once every call has ended, nothing but these is left: every other allocation was freed. */
  lemma NothingElseAllocated(calls: map<Tid, Call>, handles: set<Handle>, events: seq<Event>)
    requires forall t :: t in calls ==> calls[t].h in handles
    requires AllDone(RunEvents(Initial(calls, handles), events))
    ensures OnlyDeviceBlocks(RunEvents(Initial(calls, handles), events).mem)
  {
    var w := RunEvents(Initial(calls, handles), events);
    var init := Initial(calls, handles).abs;
    assert Inv(w, init) by {
      RunKeeps(calls, handles, events);
    }
    assert Fresh(init) by {
      InitialOk(calls, handles);
    }
    QuietHeap(w, init);
  }

  /** Of those, the ring and the partial write are all, exactly while no more messages have been
      committed than the ring holds. */
  lemma NothingLeakedIff(calls: map<Tid, Call>, handles: set<Handle>, events: seq<Event>)
    requires forall t :: t in calls ==> calls[t].h in handles
    requires AllDone(RunEvents(Initial(calls, handles), events))
    ensures var w := RunEvents(Initial(calls, handles), events);
            w.mem.heap.Keys <= Pointers(w.mem.ring.entry) + {w.mem.partialWrite} <==> |w.abs.log.messages| <= N
  {
    var w := RunEvents(Initial(calls, handles), events);
    NothingElseAllocated(calls, handles, events);
    Linearizable(calls, handles, events);
    assert w.lock == None by {
      RunKeeps(calls, handles, events);
      AllDoneUnlocked(w);
    }
    LeakedIff(w.mem, w.abs.log);
  }

  lemma AllDoneUnlocked(w: World)
    requires Typed(w) && LockOk(w) && AllDone(w)
    ensures w.lock == None
  {
  }

  lemma LeakedIff(m: Mem, log: Log)
    requires Represents(m.heap, m.ring, m.partialWrite, m.partialSize, m.hist, log) && OnlyDeviceBlocks(m)
    ensures m.heap.Keys <= Pointers(m.ring.entry) + {m.partialWrite} <==> |log.messages| <= N
  {
    NoneEvictedIff(m.heap, m.ring, m.partialWrite, m.partialSize, m.hist, log);
  }

  /** Inside the critical section this really breaks: once krealloc has moved the block, the
      partial pointer names no live block, and memory represents no state at all. */
  lemma StaleInside(m: Mem, s: Sys, t: Tid, c: Call, tmp: Ptr, q: Ptr, junk: Text)
    requires c.Write? && Ctx(m, t, c, WLocked(tmp)) && Rep(m, s) && s.log.partial != []
    requires ReallocAnswer(m, c, q, junk) && q != m.partialWrite
    ensures var m' := Realloc(m, t, q, junk);
            && m'.partialWrite !in m'.heap
            && forall s': Sys :: !Rep(m', s')
  {
  }
}