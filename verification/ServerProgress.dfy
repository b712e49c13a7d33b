/** The server gets on: as long as its calls succeed, connections are replied to and end, main
    accepts the next, and after a signal it leaves its loop. */
module ServerProgress {
  import opened Bytes
  import opened AcceptLoop

  /** Every call the step makes succeeds: no lock is refused, no join fails.  Only a read of the
      device may find that nothing is left. */
  predicate Succeeds(s: State, e: Event) {
    match e
    case MainStep(ok, exit, _) => ok && !exit
    case WorkerStep(t, ok) => t < |s.workers| && (ok || s.workers[t].pc.HaveRead?)
  }

  /** All steps from event number k on are of that kind. */
  ghost predicate SucceedsFrom(flag: bool, events: seq<Event>, k: nat) {
    forall i :: k <= i < |events| ==> Succeeds(Run(Initial(flag), events[..i]), events[i])
  }

  /** more is a run that continues events with such steps. */
  ghost predicate Continues(flag: bool, events: seq<Event>, more: seq<Event>) {
    events <= more && SucceedsFrom(flag, more, |events|)
  }

  lemma Stay(flag: bool, events: seq<Event>)
    ensures Continues(flag, events, events)
  {
  }

  lemma Then(flag: bool, events: seq<Event>, more: seq<Event>, e: Event) returns (next: seq<Event>)
    requires Continues(flag, events, more) && Succeeds(Run(Initial(flag), more), e)
    ensures Continues(flag, events, next)
    ensures Run(Initial(flag), next) == Step(Run(Initial(flag), more), e)
  {
    next := more + [e];
    RunSnoc(Initial(flag), more, e);
    forall i | |events| <= i < |next|
      ensures Succeeds(Run(Initial(flag), next[..i]), next[i])
    {
      assert i < |more| ==> next[..i] == more[..i];
      assert i == |more| ==> next[..i] == more;
    }
  }

  // ---------------------------------------------------------------------------------------
  // Workers end

  /** A bound on the steps a worker has still to take, from when its reads find nothing. */
  function StepsLeft(pc: WorkerPc): nat {
    match pc
    case Opening => 13
    case WantRw => 12
    case HaveRw => 11
    case WantDriver => 10
    case HaveDriver => 9
    case SetFlag => 8
    case FlagSet => 7
    case WantRwAgain => 6
    case ReadFlag => 5
    case ClearFlag => 4
    case WantRead => 3
    case HaveRead => 2
    case DropRw => 1
    case Dead => 0
  }

  /** A read that returned something is followed by the next read; the driver's lock is free in
      between and everything is as it was. */
  lemma ReadsGoOn(h: Shared, t: Tid, w: Worker)
    requires w.pc.WantRead? && h.driver == None
    ensures var (h1, w1) := Move(h, t, w, true);
            w1.pc.HaveRead? && Move(h1, t, w1, true) == (h, w)
  {
  }

  /** A step that depends on a call. */
  predicate Calls(pc: WorkerPc) {
    || pc.Opening? || pc.HaveRw? || pc.WantDriver? || pc.HaveDriver? || pc.FlagSet?
    || pc.ReadFlag? || pc.WantRead? || pc.HaveRead?
  }

  /** A worker whose call fails, or whose read returns nothing, is dead two of its own steps later,
      whatever the others hold; it leaves the flag alone, and holds nothing any more. */
  lemma FailedCallEnds(h: Shared, t: Tid, w: Worker, ok: bool)
    requires Calls(w.pc) && LockedBy(h, t, w.pc)
    ensures var (h1, w1) := Move(h, t, w, false);
            var (h2, w2) := Move(h1, t, w1, ok);
            && w2.pc.Dead? && h2 == Shared(if h.rw == Some(t) then None else h.rw, if h.driver == Some(t) then None else h.driver, h.flag)
  {
  }

  function TotalLeft(ws: seq<Worker>): nat {
    if ws == [] then 0 else StepsLeft(ws[0].pc) + TotalLeft(ws[1..])
  }

  lemma {:induction false} TotalDrops(ws: seq<Worker>, t: Tid, w: Worker)
    requires t < |ws| && StepsLeft(w.pc) < StepsLeft(ws[t].pc)
    ensures TotalLeft(ws[t := w]) < TotalLeft(ws)
  {
    if t == 0 {
      assert ws[t := w][1..] == ws[1..];
    } else {
      assert ws[t := w][1..] == ws[1..][t - 1 := w];
      TotalDrops(ws[1..], t - 1, w);
    }
  }

  /** The worker's reply is still to come, or has been made. */
  predicate WillReply(w: Worker) {
    w.seen.Some? || StepsLeft(w.pc) >= 5
  }

  /** The worker has still to clear the flag. */
  predicate WillClear(w: Worker) {
    StepsLeft(w.pc) >= 4
  }

  /** If the flag is up, somebody will take it down. */
  ghost predicate FlagOwed(s: State) {
    s.shared.flag ==> exists t: Tid :: t < |s.workers| && WillClear(s.workers[t])
  }

  predicate Waits(h: Shared, pc: WorkerPc) {
    || ((pc.WantRw? || pc.WantRwAgain?) && h.rw.Some?)
    || ((pc.WantDriver? || pc.WantRead?) && h.driver.Some?)
  }

  lemma MoveCounts(h: Shared, t: Tid, w: Worker)
    requires !w.pc.Dead? && !Waits(h, w.pc)
    ensures var (h', w') := Move(h, t, w, !w.pc.HaveRead?);
            && StepsLeft(w'.pc) < StepsLeft(w.pc) && (WillReply(w) ==> WillReply(w'))
            && w'.seek == w.seek && (w.seen.Some? ==> w'.seen.Some?)
            && (h'.flag ==> (h.flag && !WillClear(w)) || WillClear(w'))
  {
  }

  /** While a worker lives, one of them need not wait. */
  lemma SomeoneIsFree(s: State, t: Tid) returns (u: Tid)
    requires LocksOk(s) && Running(s, t)
    ensures Running(s, u) && !Waits(s.shared, s.workers[u].pc)
  {
    u := t;
    if (s.workers[u].pc.WantRw? || s.workers[u].pc.WantRwAgain?) && s.shared.rw.Some? {
      u := s.shared.rw.value;
    }
    if (s.workers[u].pc.WantDriver? || s.workers[u].pc.WantRead?) && s.shared.driver.Some? {
      u := s.shared.driver.value;
    }
  }

  ghost predicate AllDead(s: State) {
    forall t: Tid :: !Running(s, t)
  }

  lemma SameWorkers(s: State, s': State)
    requires AllDead(s) && s'.workers == s.workers
    ensures AllDead(s')
  {
    forall t: Tid
      ensures !Running(s', t)
    {
      assert !Running(s, t);
    }
  }

  /** s' is s with its workers further on, those that still owed a reply owing it or having made it. */
  ghost predicate WorkersWentOn(s: State, s': State) {
    && s' == s.(shared := s'.shared, workers := s'.workers) && |s'.workers| == |s.workers|
    && (FlagOwed(s) ==> FlagOwed(s'))
    && forall t: Tid :: t < |s.workers| ==>
         && s'.workers[t].seek == s.workers[t].seek
         && (WillReply(s.workers[t]) ==> WillReply(s'.workers[t]))
  }

  lemma OneGoesOn(s: State, u: Tid)
    requires Running(s, u) && !Waits(s.shared, s.workers[u].pc)
    ensures var s' := Step(s, WorkerStep(u, !s.workers[u].pc.HaveRead?));
            WorkersWentOn(s, s') && StepsLeft(s'.workers[u].pc) < StepsLeft(s.workers[u].pc)
  {
    var s' := Step(s, WorkerStep(u, !s.workers[u].pc.HaveRead?));
    MoveCounts(s.shared, u, s.workers[u]);
    if FlagOwed(s) && s'.shared.flag && !WillClear(s'.workers[u]) {
      var t: Tid :| t < |s.workers| && WillClear(s.workers[t]);
      assert WillClear(s'.workers[t]);
    }
  }

  /** All workers come to their end. */
  lemma {:induction false} WorkersFinish(flag: bool, events: seq<Event>, more: seq<Event>) returns (last: seq<Event>)
    requires Continues(flag, events, more)
    ensures Continues(flag, events, last)
    ensures AllDead(Run(Initial(flag), last)) && WorkersWentOn(Run(Initial(flag), more), Run(Initial(flag), last))
    decreases TotalLeft(Run(Initial(flag), more).workers)
  {
    var s := Run(Initial(flag), more);
    last := more;
    if t: Tid :| Running(s, t) {
      RunKeeps(flag, more);
      var u := SomeoneIsFree(s, t);
      var e := WorkerStep(u, !s.workers[u].pc.HaveRead?);
      var next := Then(flag, events, more, e);
      OneGoesOn(s, u);
      TotalDrops(s.workers, u, Step(s, e).workers[u]);
      last := WorkersFinish(flag, events, next);
    }
  }

  // ---------------------------------------------------------------------------------------
  // Main gets back to accept, or leaves

  /** Main has seen the signal. */
  predicate ExitOk(s: State) {
    if s.exiting then s.main.WantPass? || s.main.Passing? || s.main.Exited? else !s.main.Exited?
  }

  lemma {:induction false} RunKeepsExit(flag: bool, events: seq<Event>)
    ensures ExitOk(Run(Initial(flag), events))
  {
    if events != [] {
      RunKeepsExit(flag, events[..|events| - 1]);
    }
  }

  function MainLeft(s: State): nat {
    match s.main
    case AtAccept => 0
    case NewNode(_) => |s.list| + 6
    case WantInsert(_) => |s.list| + 5
    case Inserting(_) => |s.list| + 4
    case WantPass => |s.list| + 2
    case Passing(rest) => |rest| + 1
    case Exited => 0
  }

  const GO := MainStep(true, false, false)

  lemma MainCounts(s: State)
    requires MainOk(s) && ExitOk(s) && AllDead(s) && !s.main.AtAccept? && !s.main.Exited?
    ensures var s' := Step(s, GO);
            && MainLeft(s') < MainLeft(s) && s'.workers == s.workers && s'.exiting == s.exiting && s'.shared == s.shared
            && s'.lucky == s.lucky
  {
  }

  lemma {:induction false} MainFinishes(flag: bool, events: seq<Event>, more: seq<Event>) returns (last: seq<Event>)
    requires Continues(flag, events, more) && AllDead(Run(Initial(flag), more))
    ensures Continues(flag, events, last)
    ensures var (s, s') := (Run(Initial(flag), more), Run(Initial(flag), last));
            && s'.workers == s.workers && s'.shared == s.shared && s'.exiting == s.exiting && s'.lucky == s.lucky
            && (if s.exiting then s'.main.Exited? else s'.main.AtAccept?)
    decreases MainLeft(Run(Initial(flag), more))
  {
    var s := Run(Initial(flag), more);
    RunKeepsExit(flag, more);
    last := more;
    if !s.main.AtAccept? && !s.main.Exited? {
      RunKeeps(flag, more);
      MainCounts(s);
      var next := Then(flag, events, more, GO);
      SameWorkers(s, Run(Initial(flag), next));
      last := MainFinishes(flag, events, next);
    }
  }

  /** From every state that can be reached, whatever has failed before, calls that succeed lead
      to one in which all workers have ended, everyone who had not got past replying has replied,
      the flag is down if anyone was to take it down, and main is at accept again, or has left if it saw the signal. */
  lemma ServerGetsThrough(flag: bool, events: seq<Event>) returns (more: seq<Event>)
    ensures Continues(flag, events, more)
    ensures var (s, s') := (Run(Initial(flag), events), Run(Initial(flag), more));
            && AllDead(s') && |s'.workers| == |s.workers| && s'.exiting == s.exiting && s'.lucky == s.lucky
            && (if s.exiting then s'.main.Exited? else s'.main.AtAccept?)
            && (FlagOwed(s) ==> !s'.shared.flag)
            && forall t: Tid :: t < |s.workers| ==>
                 && s'.workers[t].seek == s.workers[t].seek
                 && (WillReply(s.workers[t]) ==> s'.workers[t].seen.Some?)
  {
    Stay(flag, events);
    var ended := WorkersFinish(flag, events, events);
    more := MainFinishes(flag, events, ended);
    DeadHaveReplied(Run(Initial(flag), ended));
    SameWorkers(Run(Initial(flag), ended), Run(Initial(flag), more));
  }

  lemma DeadHaveReplied(s: State)
    requires AllDead(s)
    ensures FlagOwed(s) ==> !s.shared.flag
    ensures forall t: Tid :: t < |s.workers| && WillReply(s.workers[t]) ==> s.workers[t].seen.Some?
  {
    forall t: Tid | t < |s.workers|
      ensures !WillClear(s.workers[t]) && (WillReply(s.workers[t]) ==> s.workers[t].seen.Some?)
    {
      assert !Running(s, t);
    }
  }

  // ---------------------------------------------------------------------------------------
  // Any number of connections

  /** Main is at accept, every connection has been replied to, by its own flag, and has ended; it
      left the flag down and the list empty. */
  ghost predicate AllServed(s: State, seeks: seq<bool>) {
    && s.main.AtAccept? && !s.exiting && s.lucky && AllDead(s) && |s.workers| == |seeks|
    && s.list == [] && (seeks != [] ==> !s.shared.flag)
    && forall t: Tid :: t < |seeks| ==> s.workers[t] == Worker(Dead, seeks[t], Some(seeks[t]))
  }

  /** Any number of connections, seeks and stores in any order, are served one after another. */
  lemma {:induction false} EveryoneIsServed(flag: bool, seeks: seq<bool>) returns (events: seq<Event>)
    ensures Continues(flag, [], events) && AllServed(Run(Initial(flag), events), seeks)
  {
    events := [];
    if seeks != [] {
      var n := |seeks| - 1;
      var before := EveryoneIsServed(flag, seeks[..n]);
      var s := Run(Initial(flag), before);
      var accepted := Then(flag, [], before, MainStep(true, false, seeks[n]));
      var s1 := Run(Initial(flag), accepted);
      assert s1.workers == s.workers + [Worker(Opening, seeks[n], None)];
      Stay(flag, accepted);
      assert WillClear(s1.workers[n]);
      events := ServerGetsThrough(flag, accepted);
      Append(flag, [], accepted, events);
      ServedOneAtATime(flag, events);
      ServedOneMore(s, s1, Run(Initial(flag), events), seeks);
    }
  }

  lemma ServedOneMore(s: State, s1: State, s': State, seeks: seq<bool>)
    requires seeks != [] && AllServed(s, seeks[..|seeks| - 1])
    requires s1.workers == s.workers + [Worker(Opening, seeks[|seeks| - 1], None)] && |s'.workers| == |s1.workers|
    requires s'.main.AtAccept? && !s'.exiting && s'.lucky && AllDead(s') && RepliesRight(s')
    requires s'.list == [] && !s'.shared.flag
    requires forall t: Tid :: t < |s1.workers| ==>
               s'.workers[t].seek == s1.workers[t].seek && (WillReply(s1.workers[t]) ==> s'.workers[t].seen.Some?)
    ensures AllServed(s', seeks)
  {
    forall t: Tid | t < |seeks|
      ensures s'.workers[t] == Worker(Dead, seeks[t], Some(seeks[t]))
    {
      assert !Running(s', t) && s1.workers[t].seek == seeks[t] && WillReply(s1.workers[t]);
    }
  }

  lemma Append(flag: bool, a: seq<Event>, b: seq<Event>, c: seq<Event>)
    requires Continues(flag, a, b) && Continues(flag, b, c)
    ensures Continues(flag, a, c)
  {
    forall i | |a| <= i < |c|
      ensures Succeeds(Run(Initial(flag), c[..i]), c[i])
    {
      if i < |b| {
        assert c[..i] == b[..i] && c[i] == b[i];
      }
    }
  }

  // ---------------------------------------------------------------------------------------
  // After the signal

  /** Once main has seen the signal it starts no other worker, ever. */
  lemma {:induction false} NoneAfterExit(flag: bool, events: seq<Event>, i: nat)
    requires i <= |events| && Run(Initial(flag), events[..i]).exiting
    ensures var (s, s') := (Run(Initial(flag), events[..i]), Run(Initial(flag), events));
            s'.exiting && |s'.workers| == |s.workers|
  {
    if i < |events| {
      var k := |events| - 1;
      assert events[..k][..i] == events[..i];
      NoneAfterExit(flag, events[..k], i);
      RunKeepsExit(flag, events[..k]);
    } else {
      assert events[..i] == events;
    }
  }
}
