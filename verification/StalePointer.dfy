/** Inside its critical section a write leaves the device in a state that represents nothing: the
    partial pointer still names the block that krealloc took away. */
module StalePointer {
  import opened Bytes
  import opened CircularBuffers
  import opened DeviceSpec
  import opened Interleaving
  import opened Linearizability
  import opened LockOrder

  /** In every run, from krealloc until the partial pointer is stored again, memory represents no
      state at all. */
  lemma NothingRepresentedInside(calls: map<Tid, Call>, handles: set<Handle>, events: seq<Event>, t: Tid, s: Sys)
    requires forall u :: u in calls ==> calls[u].h in handles
    requires var w := RunEvents(Initial(calls, handles), events);
             t in w.pc && (w.pc[t].WResized? || w.pc[t].WMerged?)
    ensures !Rep(RunEvents(Initial(calls, handles), events).mem, s)
  {
    var w := RunEvents(Initial(calls, handles), events);
    RunKeeps(calls, handles, events);
    HolderKnows(w, t);
  }

  lemma HolderKnows(w: World, t: Tid)
    requires Typed(w) && LockOk(w) && t in w.pc && InCs(w.pc[t])
    ensures Fits(w.calls[t], w.pc[t]) && CsAt(w.mem, w.abs, w.calls[t], w.pc[t])
  {
  }

  // ---------------------------------------------------------------------------------------
  // Such a run

  function Scribble(data: Text): Call {
    Write(0, data, true, true, true, true)
  }

  function DataOf(t: Tid): Text {
    if t == 0 then [97] else [98]
  }

  /** Threads 0 and 1 write one byte each, neither a newline. */
  function TwoWrites(): map<Tid, Call> {
    map[0 := Scribble(DataOf(0)), 1 := Scribble(DataOf(1))]
  }

  ghost function After(events: seq<Event>): World {
    RunEvents(Initial(TwoWrites(), {0}), events)
  }

  ghost predicate At(events: seq<Event>, m: Mem, lock: Option<Tid>, a: Pc, b: Pc) {
    var w := After(events);
    && w.mem == m && w.lock == lock && w.calls == TwoWrites()
    && 0 in w.pc && w.pc[0] == a && 1 in w.pc && w.pc[1] == b
  }

  lemma Snoc(events: seq<Event>, e: Event)
    ensures After(events + [e]) == Step(After(events), e)
  {
    assert (events + [e])[..|events|] == events;
  }

  lemma StepIsLocal(w: World, e: Event, m': Mem, pc': Pc)
    requires Typed(w) && e.t in w.pc && !Wants(w.calls[e.t], w.pc[e.t]) && !w.pc[e.t].Unlock?
    requires Local(w.mem, e, w.calls[e.t], w.pc[e.t]) == (m', pc')
    ensures Step(w, e) == w.(mem := m', pc := w.pc[e.t := pc'])
  {
  }

  lemma LocalStep(events: seq<Event>, e: Event, m: Mem, lock: Option<Tid>, a: Pc, b: Pc, m': Mem, pc': Pc)
      returns (more: seq<Event>)
    requires At(events, m, lock, a, b) && e.t <= 1 && Shape(m.ring) && 0 in m.pos
    requires var pc := if e.t == 0 then a else b;
             && !pc.WWant? && !pc.Unlock? && Local(m, e, Scribble(DataOf(e.t)), pc) == (m', pc')
    ensures At(more, m', lock, if e.t == 0 then pc' else a, if e.t == 0 then b else pc')
  {
    var w := After(events);
    assert w.pc[e.t] == (if e.t == 0 then a else b) && w.calls[e.t] == Scribble(DataOf(e.t));
    StepIsLocal(w, e, m', pc');
    Snoc(events, e);
    more := events + [e];
  }

  lemma TakeLock(events: seq<Event>, t: Tid, m: Mem, a: Pc, b: Pc) returns (more: seq<Event>)
    requires At(events, m, None, a, b) && t <= 1
    requires (if t == 0 then a else b).WWant?
    ensures var pc' := WLocked((if t == 0 then a else b).tmp);
            At(more, m, Some(t), if t == 0 then pc' else a, if t == 0 then b else pc')
  {
    Snoc(events, Event(t, NULL, []));
    more := events + [Event(t, NULL, [])];
  }

  lemma DropLock(events: seq<Event>, m: Mem, o: Outcome, b: Pc) returns (more: seq<Event>)
    requires At(events, m, Some(0), Unlock(o, NULL), b)
    ensures At(more, m, None, Done(o), b)
  {
    Snoc(events, Event(0, NULL, []));
    more := events + [Event(0, NULL, [])];
  }

  /** The steps of a write up to the lock, and what they do to memory. */
  function Filled(m: Mem, t: Tid, p: Ptr, data: Text): Mem {
    var m1 := Alloc(m, p, seq(|data|, _ => 0), Owner.Tmp(t));
    m1.(heap := m1.heap[p := data])
  }

  lemma Allocates(m: Mem, t: Tid, p: Ptr, data: Text)
    requires Shape(m.ring) && 0 in m.pos && 0 <= m.pos[0] && data != [] && p != NULL && p !in m.heap
    ensures Local(m, Event(t, p, seq(|data|, _ => 0)), Scribble(data), Start)
            == (Alloc(m, p, seq(|data|, _ => 0), Owner.Tmp(t)), WCopyIn(p))
  {
  }

  lemma CopiesIn(m: Mem, t: Tid, p: Ptr, data: Text)
    requires Shape(m.ring) && 0 in m.pos
    ensures Local(Alloc(m, p, seq(|data|, _ => 0), Owner.Tmp(t)), Event(t, NULL, []), Scribble(data), WCopyIn(p))
            == (Filled(m, t, p, data), WWant(p))
  {
  }

  lemma GetsBlock(events: seq<Event>, t: Tid, m: Mem, a: Pc, b: Pc, p: Ptr) returns (more: seq<Event>)
    requires At(events, m, None, a, b) && t <= 1 && (if t == 0 then a else b) == Start
    requires Shape(m.ring) && 0 in m.pos && 0 <= m.pos[0] && p != NULL && p !in m.heap
    ensures At(more, Filled(m, t, p, DataOf(t)), None, if t == 0 then WWant(p) else a, if t == 0 then b else WWant(p))
  {
    var junk := seq(|DataOf(t)|, _ => 0);
    Allocates(m, t, p, DataOf(t));
    CopiesIn(m, t, p, DataOf(t));
    var m1 := Alloc(m, p, junk, Owner.Tmp(t));
    more := LocalStep(events, Event(t, p, junk), m, None, a, b, m1, WCopyIn(p));
    var a1, b1 := if t == 0 then WCopyIn(p) else a, if t == 0 then b else WCopyIn(p);
    more := LocalStep(more, Event(t, NULL, []), m1, None, a1, b1, Filled(m, t, p, DataOf(t)), WWant(p));
  }

  lemma GetsLock(events: seq<Event>, t: Tid, m: Mem, a: Pc, b: Pc, p: Ptr) returns (more: seq<Event>)
    requires At(events, m, None, a, b) && t <= 1 && (if t == 0 then a else b) == Start
    requires Shape(m.ring) && 0 in m.pos && 0 <= m.pos[0] && p != NULL && p !in m.heap
    ensures At(more, Filled(m, t, p, DataOf(t)), Some(t), if t == 0 then WLocked(p) else a, if t == 0 then b else WLocked(p))
  {
    more := GetsBlock(events, t, m, a, b, p);
    more := TakeLock(more, t, Filled(m, t, p, DataOf(t)), if t == 0 then WWant(p) else a, if t == 0 then b else WWant(p));
  }

  /** A first write without a newline: its block is kept as the partial write. */
  lemma KeepsBlock(m: Mem, p: Ptr)
    requires Shape(m.ring) && 0 in m.pos && m.partialWrite == NULL && p in m.heap && m.heap[p] == [97]
    ensures var m1 := m.(owner := m.owner[p := Growing(0)]);
            var m2 := m1.(partialWrite := p, owner := m1.owner[p := PartialBlock]);
            && Local(m, Event(0, NULL, []), Scribble([97]), WLocked(p)) == (m1, WOwns(p, 1))
            && Local(m1, Event(0, NULL, []), Scribble([97]), WOwns(p, 1)) == (m2, WSaved(1))
            && Local(m2, Event(0, NULL, []), Scribble([97]), WSaved(1))
               == (m2.(partialSize := 1), Unlock(Outcome(1, []), NULL))
  {
  }

  ghost predicate OneByteKept(m: Mem) {
    && Shape(m.ring) && 0 in m.pos && 0 <= m.pos[0] && !m.broken
    && m.partialWrite == 1 && m.partialSize == 1 && m.heap == map[1 := [97]]
  }

  lemma FirstWrite() returns (events: seq<Event>, m: Mem)
    ensures OneByteKept(m) && At(events, m, None, Done(Outcome(1, [])), Start)
  {
    var m0 := Initial(TwoWrites(), {0}).mem;
    events := GetsLock([], 0, m0, Start, Start, 1);
    events, m := KeepFirst(events, Filled(m0, 0, 1, [97]));
  }

  lemma KeepFirst(before: seq<Event>, m1: Mem) returns (events: seq<Event>, m: Mem)
    requires At(before, m1, Some(0), WLocked(1), Start)
    requires Shape(m1.ring) && 0 in m1.pos && 0 <= m1.pos[0] && !m1.broken
    requires m1.partialWrite == NULL && m1.heap == map[1 := [97]]
    ensures OneByteKept(m) && At(events, m, None, Done(Outcome(1, [])), Start)
  {
    KeepsBlock(m1, 1);
    var m2 := m1.(owner := m1.owner[1 := Growing(0)]);
    var m3 := m2.(partialWrite := 1, owner := m2.owner[1 := PartialBlock]);
    m := m3.(partialSize := 1);
    events := LocalStep(before, Event(0, NULL, []), m1, Some(0), WLocked(1), Start, m2, WOwns(1, 1));
    events := LocalStep(events, Event(0, NULL, []), m2, Some(0), WOwns(1, 1), Start, m3, WSaved(1));
    events := SaveFirst(events, m3, m);
  }

  lemma SaveFirst(before: seq<Event>, m3: Mem, m: Mem) returns (events: seq<Event>)
    requires At(before, m3, Some(0), WSaved(1), Start) && Shape(m3.ring) && 0 in m3.pos
    requires Local(m3, Event(0, NULL, []), Scribble(DataOf(0)), WSaved(1)) == (m, Unlock(Outcome(1, []), NULL))
    ensures At(events, m, None, Done(Outcome(1, [])), Start)
  {
    events := LocalStep(before, Event(0, NULL, []), m3, Some(0), WSaved(1), Start, m, Unlock(Outcome(1, []), NULL));
    events := DropLock(events, m, Outcome(1, []), Start);
  }

  lemma MovesBlock(m: Mem, p: Ptr, q: Ptr)
    requires Shape(m.ring) && 0 in m.pos && m.partialWrite in m.heap && m.partialWrite != NULL
    requires m.partialSize == 1 && m.heap[m.partialWrite] == [97] && q != NULL && q !in m.heap
    ensures Local(m, Event(1, q, [0]), Scribble([98]), WLocked(p)) == (Realloc(m, 1, q, [0]), WResized(p, q))
  {
  }

  /** The second write's krealloc moves the block: the partial pointer is left naming no live
      block, while the lock is held. */
  lemma StaleReached() returns (events: seq<Event>)
    ensures var w := After(events);
            && w.lock == Some(1) && 1 in w.pc && w.pc[1] == WResized(2, 3) && !w.mem.broken
            && w.mem.partialWrite != NULL && w.mem.partialWrite !in w.mem.heap
            && forall s: Sys :: !Rep(w.mem, s)
  {
    var m;
    events, m := FirstWrite();
    var d := Done(Outcome(1, []));
    events := GetsLock(events, 1, m, d, Start, 2);
    var m1 := Filled(m, 1, 2, [98]);
    MovesBlock(m1, 2, 3);
    events := LocalStep(events, Event(1, 3, [0]), m1, Some(1), d, WLocked(2), Realloc(m1, 1, 3, [0]), WResized(2, 3));
    forall s: Sys
      ensures !Rep(After(events).mem, s)
    {
      NothingRepresentedInside(TwoWrites(), {0}, events, 1, s);
    }
  }
}
