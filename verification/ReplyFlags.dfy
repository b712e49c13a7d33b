/** Exactly when the flag ioctl_just_performed is safe: the environment decides beforehand which
    list-node allocations and which joins succeed, and the condition is on those decisions. */
module ReplyFlags {
  import opened Bytes
  import opened AcceptLoop

  /** Whether the list node of a thread can be allocated, and how the join of a thread turns out
      after so many joins of it have failed. */
  datatype Schedule = Schedule(nodeOk: Tid -> bool, joinOk: (Tid, nat) -> bool)

  predicate Joining(s: State, t: Tid) {
    s.main.Passing? && s.main.rest != [] && s.main.rest[0] == t
  }

  ghost function FailedJoins(flag: bool, events: seq<Event>, t: Tid): nat {
    if events == [] then 0
    else
      var k := |events| - 1;
      FailedJoins(flag, events[..k], t)
      + if Joining(Run(Initial(flag), events[..k]), t) && events[k].MainStep? && !events[k].ok then 1 else 0
  }

  ghost predicate Obeys(flag: bool, before: seq<Event>, e: Event, env: Schedule) {
    var main := Run(Initial(flag), before).main;
    e.MainStep? ==>
      && (main.NewNode? ==> (e.ok <==> env.nodeOk(main.t)))
      && (main.Passing? && main.rest != [] ==>
            (e.ok <==> env.joinOk(main.rest[0], FailedJoins(flag, before, main.rest[0]))))
  }

  /** A run in which allocations and joins turn out as scheduled.  Everything else, the order of
      steps included, is free. */
  ghost predicate Follows(flag: bool, events: seq<Event>, env: Schedule) {
    forall k :: 0 <= k < |events| ==> Obeys(flag, events[..k], events[k], env)
  }

  predicate Joined(env: Schedule, t: Tid) {
    env.nodeOk(t) && env.joinOk(t, 0)
  }

  // ---------------------------------------------------------------------------------------
  // Enough

  lemma LuckyStep(s: State, e: Event)
    requires Step(s, e).lucky
    ensures s.lucky && (e.MainStep? && s.main.Passing? && s.main.rest != [] ==> e.ok)
  {
  }

  lemma {:induction false} LuckyNeverFailed(flag: bool, events: seq<Event>, t: Tid)
    requires Run(Initial(flag), events).lucky
    ensures FailedJoins(flag, events, t) == 0
  {
    if events != [] {
      var k := |events| - 1;
      LuckyStep(Run(Initial(flag), events[..k]), events[k]);
      LuckyNeverFailed(flag, events[..k], t);
    }
  }

  /** With at most n connections: only the last of them may have gone without a join. */
  ghost predicate LastAlone(s: State, n: nat) {
    && MainOk(s) && SerialOk(s) && |s.workers| <= n
    && (!s.lucky ==> |s.workers| == n && forall t: Tid :: Running(s, t) ==> t + 1 == n)
    && (forall t: Tid :: t < |s.workers| ==> FlagOk(s.shared, s.workers[t]))
  }

  lemma MainKeepsAlone(s: State, e: Event, n: nat)
    requires LastAlone(s, n) && e.MainStep? && |MainNext(s, e).workers| <= n
    requires s.main.NewNode? && !e.ok ==> s.main.t + 1 >= n
    requires s.lucky && s.main.Passing? && s.main.rest != [] && !e.ok ==> s.main.rest[0] + 1 >= n
    ensures LastAlone(MainNext(s, e), n)
  {
    MainKeepsMain(s, e);
    MainKeepsSerial(s, e);
    var s' := MainNext(s, e);
    if !s'.lucky {
      forall t: Tid | Running(s', t)
        ensures t + 1 == n
      {
        assert Running(s, t);
      }
    }
  }

  lemma WorkerKeepsAlone(s: State, t: Tid, ok: bool, n: nat)
    requires LastAlone(s, n) && t < |s.workers|
    ensures LastAlone(WorkerNext(s, t, ok), n)
  {
    WorkerKeepsSerial(s, t, ok);
    MoveFlag(s.shared, t, s.workers[t], ok);
    var s' := WorkerNext(s, t, ok);
    forall u: Tid | u < |s'.workers|
      ensures FlagOk(s'.shared, s'.workers[u])
      ensures Running(s', u) ==> Running(s, u)
    {
      assert !s.lucky && u != t && Running(s, t) ==> !Running(s, u);
    }
  }

  lemma FollowsInit(flag: bool, events: seq<Event>, env: Schedule)
    requires Follows(flag, events, env) && events != []
    ensures var k := |events| - 1;
            Follows(flag, events[..k], env) && Obeys(flag, events[..k], events[k], env)
  {
    var before := events[..|events| - 1];
    forall i | 0 <= i < |before|
      ensures Obeys(flag, before[..i], before[i], env)
    {
      assert before[..i] == events[..i];
    }
  }

  lemma StepKeepsAlone(flag: bool, before: seq<Event>, s: State, e: Event, env: Schedule, n: nat)
    requires s == Run(Initial(flag), before) && Obeys(flag, before, e, env) && |Step(s, e).workers| <= n
    requires LastAlone(s, n) && forall t: Tid :: t + 1 < n ==> Joined(env, t)
    ensures LastAlone(Step(s, e), n)
  {
    match e {
      case MainStep(_, _, _) =>
        if s.lucky && s.main.Passing? && s.main.rest != [] {
          LuckyNeverFailed(flag, before, s.main.rest[0]);
        }
        assert s.main.NewNode? && !e.ok ==> !Joined(env, s.main.t);
        assert s.lucky && s.main.Passing? && s.main.rest != [] && !e.ok ==> !Joined(env, s.main.rest[0]);
        MainKeepsAlone(s, e, n);
      case WorkerStep(t, ok) =>
        if t < |s.workers| {
          WorkerKeepsAlone(s, t, ok, n);
        }
    }
  }

  lemma NoneLeaves(s: State, e: Event)
    ensures |s.workers| <= |Step(s, e).workers|
  {
  }

  lemma {:induction false} AllJoinedKeeps(flag: bool, events: seq<Event>, env: Schedule, n: nat)
    requires Follows(flag, events, env) && |Run(Initial(flag), events).workers| <= n
    requires forall t: Tid :: t + 1 < n ==> Joined(env, t)
    ensures LastAlone(Run(Initial(flag), events), n)
  {
    if events == [] {
      InitialOk(flag);
    } else {
      var before, e := events[..|events| - 1], events[|events| - 1];
      var s := Run(Initial(flag), before);
      FollowsInit(flag, events, env);
      NoneLeaves(s, e);
      AllJoinedKeeps(flag, before, env, n);
      StepKeepsAlone(flag, before, s, e, env, n);
    }
  }

  // ---------------------------------------------------------------------------------------
  // Needed

  /** A step of a run without failures so far, as far as the schedule has a say. */
  ghost predicate Fits(s: State, e: Event, env: Schedule) {
    e.MainStep? ==>
      && (s.main.NewNode? ==> (e.ok <==> env.nodeOk(s.main.t)))
      && (s.main.Passing? && s.main.rest != [] ==> s.lucky && (e.ok <==> env.joinOk(s.main.rest[0], 0)))
  }

  ghost function Repeat(s: State, t: Tid, n: nat): State {
    if n == 0 then s else Step(Repeat(s, t, n - 1), WorkerStep(t, true))
  }

  lemma FollowsSnoc(flag: bool, events: seq<Event>, e: Event, env: Schedule)
    requires Follows(flag, events, env) && Obeys(flag, events, e, env)
    ensures Follows(flag, events + [e], env)
  {
    var more := events + [e];
    forall k | 0 <= k < |more|
      ensures Obeys(flag, more[..k], more[k], env)
    {
      assert k < |events| ==> more[..k] == events[..k];
      assert k == |events| ==> more[..k] == events;
    }
  }

  lemma Go(flag: bool, env: Schedule, events: seq<Event>, e: Event, before: State, after: State) returns (more: seq<Event>)
    requires Follows(flag, events, env) && Run(Initial(flag), events) == before
    requires Fits(before, e, env) && Step(before, e) == after
    ensures Follows(flag, more, env) && Run(Initial(flag), more) == after
  {
    more := events + [e];
    RunSnoc(Initial(flag), events, e);
    if before.lucky && before.main.Passing? && before.main.rest != [] {
      LuckyNeverFailed(flag, events, before.main.rest[0]);
    }
    assert Obeys(flag, events, e, env);
    FollowsSnoc(flag, events, e, env);
  }

  lemma {:induction false} GoOn(flag: bool, env: Schedule, events: seq<Event>, t: Tid, n: nat) returns (more: seq<Event>)
    requires Follows(flag, events, env)
    ensures Follows(flag, more, env) && Run(Initial(flag), more) == Repeat(Run(Initial(flag), events), t, n)
  {
    more := events;
    if n > 0 {
      more := GoOn(flag, env, events, t, n - 1);
      more := Go(flag, env, more, WorkerStep(t, true), Repeat(Run(Initial(flag), events), t, n - 1),
                 Repeat(Run(Initial(flag), events), t, n));
    }
  }

  /** Main is at accept, t connections have come, been joined and gone. */
  ghost predicate Idle(s: State, t: Tid) {
    && s == State(AtAccept, [], false, Shared(None, None, s.shared.flag), s.workers, false, true)
    && |s.workers| == t
  }

  /** Main lists thread t and is about to join it. */
  lemma Listed(flag: bool, env: Schedule, events: seq<Event>, s: State, t: Tid) returns (more: seq<Event>)
    requires Follows(flag, events, env) && Run(Initial(flag), events) == s && env.nodeOk(t)
    requires s.main == NewNode(t) && s.list == [] && !s.listLocked
    ensures Follows(flag, more, env)
    ensures Run(Initial(flag), more) == s.(main := Passing([t]), list := [t], listLocked := true)
  {
    var s1 := s.(main := WantInsert(t));
    var s2 := s.(main := Inserting(t), listLocked := true);
    var s3 := s.(main := WantPass, list := [t]);
    var s4 := s3.(main := Passing([t]), listLocked := true);
    var go := MainStep(true, false, false);
    more := Go(flag, env, events, go, s, s1);
    more := Go(flag, env, more, go, s1, s2);
    more := Go(flag, env, more, go, s2, s3);
    more := Go(flag, env, more, go, s3, s4);
  }

  lemma JoinWorks(s: State, t: Tid)
    requires s.main == Passing([t]) && s.list == [t] && !Running(s, t)
    ensures Step(s, MainStep(true, false, false)) == s.(main := Passing([]), list := [])
  {
    assert s.main.rest[0] == t && s.main.rest[1..] == [];
  }

  /** A connection whose worker fails to open the device, and is joined. */
  lemma ServeOne(flag: bool, env: Schedule, events: seq<Event>, t: Tid) returns (more: seq<Event>)
    requires Follows(flag, events, env) && Idle(Run(Initial(flag), events), t) && Joined(env, t)
    ensures Follows(flag, more, env) && Idle(Run(Initial(flag), more), t + 1)
  {
    var s0 := Run(Initial(flag), events);
    var w := Worker(Dead, false, None);
    var s1 := s0.(main := NewNode(t), workers := s0.workers + [w.(pc := Opening)]);
    var s2 := s0.(main := NewNode(t), workers := s0.workers + [w]);
    var s3 := s2.(main := Passing([t]), list := [t], listLocked := true);
    var s4 := s3.(main := Passing([]), list := []);
    var s5 := s4.(main := AtAccept, listLocked := false);
    var go := MainStep(true, false, false);
    more := Go(flag, env, events, go, s0, s1);
    assert s1.workers[t := w] == s2.workers;
    more := Go(flag, env, more, WorkerStep(t, false), s1, s2);
    more := Listed(flag, env, more, s2, t);
    JoinWorks(s3, t);
    more := Go(flag, env, more, go, s3, s4);
    more := Go(flag, env, more, go, s4, s5);
  }

  lemma {:induction false} ServeFirst(flag: bool, env: Schedule, t: Tid) returns (events: seq<Event>)
    requires forall u: Tid :: u < t ==> Joined(env, u)
    ensures Follows(flag, events, env) && Idle(Run(Initial(flag), events), t)
  {
    events := [];
    if t > 0 {
      events := ServeFirst(flag, env, t - 1);
      events := ServeOne(flag, env, events, t - 1);
    }
  }

  /** Main is back at accept while the seek connection t is still on its way. */
  ghost predicate LeftBehind(s: State, t: Tid) {
    && s == State(AtAccept, s.list, false, Shared(None, None, s.shared.flag), s.workers, false, false)
    && |s.workers| == t + 1 && s.workers[t] == Worker(Opening, true, None)
  }

  lemma LeaveUnlisted(flag: bool, env: Schedule, events: seq<Event>, t: Tid) returns (more: seq<Event>)
    requires Follows(flag, events, env) && Idle(Run(Initial(flag), events), t) && !env.nodeOk(t)
    ensures Follows(flag, more, env) && LeftBehind(Run(Initial(flag), more), t)
  {
    var s0 := Run(Initial(flag), events);
    var s1 := s0.(main := NewNode(t), workers := s0.workers + [Worker(Opening, true, None)]);
    var s2 := s1.(main := WantPass, lucky := false);
    var s3 := s2.(main := Passing([]), listLocked := true);
    var s4 := s3.(main := AtAccept, listLocked := false);
    more := Go(flag, env, events, MainStep(true, false, true), s0, s1);
    more := Go(flag, env, more, MainStep(false, false, false), s1, s2);
    more := Go(flag, env, more, MainStep(true, false, false), s2, s3);
    more := Go(flag, env, more, MainStep(true, false, false), s3, s4);
  }

  lemma JoinFails(s: State, t: Tid)
    requires s.main == Passing([t])
    ensures Step(s, MainStep(false, false, false)) == s.(main := Passing([]), lucky := false)
  {
    assert s.main.rest[0] == t && s.main.rest[1..] == [];
  }

  lemma LeaveUnjoined(flag: bool, env: Schedule, events: seq<Event>, t: Tid) returns (more: seq<Event>)
    requires Follows(flag, events, env) && Idle(Run(Initial(flag), events), t) && env.nodeOk(t) && !env.joinOk(t, 0)
    ensures Follows(flag, more, env) && LeftBehind(Run(Initial(flag), more), t)
  {
    var s0 := Run(Initial(flag), events);
    var s1 := s0.(main := NewNode(t), workers := s0.workers + [Worker(Opening, true, None)]);
    var s2 := s1.(main := Passing([t]), list := [t], listLocked := true);
    var s3 := s2.(main := Passing([]), lucky := false);
    var s4 := s3.(main := AtAccept, listLocked := false);
    more := Go(flag, env, events, MainStep(true, false, true), s0, s1);
    more := Listed(flag, env, more, s1, t);
    JoinFails(s2, t);
    more := Go(flag, env, more, MainStep(false, false, false), s2, s3);
    more := Go(flag, env, more, MainStep(true, false, false), s3, s4);
  }

  lemma LastTwoSteps(s: State, t: Tid)
    requires t < |s.workers| && s.workers[t].pc.WantRwAgain? && s.shared.rw == None
    ensures var s' := Repeat(s, t, 2);
            && s'.lucky == s.lucky && |s'.workers| == |s.workers|
            && s'.workers[t] == Worker(ClearFlag, s.workers[t].seek, Some(s.shared.flag))
  {
    var w := s.workers[t];
    assert Repeat(s, t, 0) == s;
    assert Repeat(s, t, 1) == s.(shared := s.shared.(rw := Some(t)), workers := s.workers[t := w.(pc := ReadFlag)]);
  }

  lemma FourSteps(s: State, t: Tid)
    requires t < |s.workers| && s.workers[t].pc.Opening? && s.shared.rw == None && s.shared.driver == None
    ensures Repeat(s, t, 4) == s.(shared := s.shared.(rw := Some(t), driver := Some(t)),
                                  workers := s.workers[t := s.workers[t].(pc := HaveDriver)])
  {
    var w := s.workers[t];
    assert Repeat(s, t, 0) == s;
    assert Repeat(s, t, 1) == s.(workers := s.workers[t := w.(pc := WantRw)]);
    assert Repeat(s, t, 2) == s.(shared := s.shared.(rw := Some(t)), workers := s.workers[t := w.(pc := HaveRw)]);
    assert Repeat(s, t, 3) == s.(shared := s.shared.(rw := Some(t)), workers := s.workers[t := w.(pc := WantDriver)]);
  }

  /** A worker that meets no resistance has set the flag and released the mutex in seven steps. */
  lemma SevenSteps(s: State, t: Tid)
    requires t < |s.workers| && s.workers[t].pc.Opening? && s.shared.rw == None && s.shared.driver == None
    ensures Repeat(s, t, 7) == s.(shared := s.shared.(flag := s.workers[t].seek),
                                  workers := s.workers[t := s.workers[t].(pc := WantRwAgain)])
  {
    var w := s.workers[t];
    FourSteps(s, t);
    assert Repeat(s, t, 5) == s.(shared := s.shared.(rw := Some(t)), workers := s.workers[t := w.(pc := SetFlag)]);
    assert Repeat(s, t, 6) == s.(shared := s.shared.(rw := Some(t), flag := w.seek),
                                 workers := s.workers[t := w.(pc := FlagSet)]);
  }

  /** The next connection stores a message, and so clears the flag, between the seek and its reply. */
  lemma Overtake(flag: bool, env: Schedule, events: seq<Event>, t: Tid) returns (more: seq<Event>)
    requires Follows(flag, events, env) && LeftBehind(Run(Initial(flag), events), t)
    ensures Follows(flag, more, env) && Stolen(Run(Initial(flag), more), t)
  {
    var s0 := Run(Initial(flag), events);
    var s1 := s0.(main := NewNode(t + 1), workers := s0.workers + [Worker(Opening, false, None)]);
    more := Go(flag, env, events, MainStep(true, false, false), s0, s1);
    SevenSteps(s1, t);
    more := GoOn(flag, env, more, t, 7);
    SevenSteps(Run(Initial(flag), more), t + 1);
    more := GoOn(flag, env, more, t + 1, 7);
    LastTwoSteps(Run(Initial(flag), more), t);
    more := GoOn(flag, env, more, t, 2);
  }

  ghost predicate Stolen(s: State, t: Tid) {
    |s.workers| == t + 2 && s.workers[t].seek && s.workers[t].seen == Some(false)
  }

  /** The first connection that is not joined at once, for either reason: there is a run in which
      it is a seek whose reply finds the flag cleared by the connection after it. */
  lemma FlagCanBeStolen(flag: bool, env: Schedule, t: Tid) returns (events: seq<Event>)
    requires !Joined(env, t) && forall u: Tid :: u < t ==> Joined(env, u)
    ensures Follows(flag, events, env) && Stolen(Run(Initial(flag), events), t)
  {
    events := ServeFirst(flag, env, t);
    if env.nodeOk(t) {
      events := LeaveUnjoined(flag, env, events, t);
    } else {
      events := LeaveUnlisted(flag, env, events, t);
    }
    events := Overtake(flag, env, events, t);
  }

  lemma {:induction false} FirstUnjoined(env: Schedule, t: Tid) returns (first: Tid)
    requires !Joined(env, t)
    ensures first <= t && !Joined(env, first) && forall u: Tid :: u < first ==> Joined(env, u)
  {
    first := t;
    if u: Tid :| u < t && !Joined(env, u) {
      first := FirstUnjoined(env, u);
    }
  }

  // ---------------------------------------------------------------------------------------
  // Exactly when

  /** In every run with at most n connections every reply goes by the flag its own connection
      set, if and only if each connection before the last gets its list node and is joined at the
      first attempt. */
  lemma {:induction false} FlagsRightIff(flag: bool, env: Schedule, n: nat)
    ensures (forall events :: Follows(flag, events, env) && |Run(Initial(flag), events).workers| <= n ==>
               RepliesRight(Run(Initial(flag), events)))
            <==> (forall t: Tid :: t + 1 < n ==> Joined(env, t))
  {
    if forall t: Tid :: t + 1 < n ==> Joined(env, t) {
      forall events | Follows(flag, events, env) && |Run(Initial(flag), events).workers| <= n
        ensures RepliesRight(Run(Initial(flag), events))
      {
        AllJoinedKeeps(flag, events, env, n);
      }
    } else {
      var t: Tid :| t + 1 < n && !Joined(env, t);
      t := FirstUnjoined(env, t);
      var events := FlagCanBeStolen(flag, env, t);
      assert Run(Initial(flag), events).workers[t].seen.value != Run(Initial(flag), events).workers[t].seek;
    }
  }

  lemma {:induction false} FollowsBefore(flag: bool, events: seq<Event>, env: Schedule, i: nat)
    requires Follows(flag, events, env) && i <= |events|
    ensures Follows(flag, events[..i], env)
    ensures |Run(Initial(flag), events[..i]).workers| <= |Run(Initial(flag), events).workers|
  {
    if i < |events| {
      var k := |events| - 1;
      FollowsInit(flag, events, env);
      NoneLeaves(Run(Initial(flag), events[..k]), events[k]);
      FollowsBefore(flag, events[..k], env, i);
      assert events[..k][..i] == events[..i];
    } else {
      assert events[..i] == events;
    }
  }

  /** Under the same condition the workers act strictly one after another, in the order of their
      connections: each takes all its steps before the next takes its first. */
  lemma ServedInTurn(flag: bool, env: Schedule, n: nat, events: seq<Event>, i: nat, j: nat, t: Tid, u: Tid)
    requires Follows(flag, events, env) && |Run(Initial(flag), events).workers| <= n
    requires forall v: Tid :: v + 1 < n ==> Joined(env, v)
    requires i < j < |events| && Acts(Initial(flag), events, i, t) && Acts(Initial(flag), events, j, u)
    ensures t <= u
  {
    FollowsBefore(flag, events, env, i);
    AllJoinedKeeps(flag, events[..i], env, n);
    InTurn(flag, events, i, j, t, u);
  }

  /** With no bound on the connections: if and only if none ever goes without. */
  lemma {:induction false} FlagsAlwaysRightIff(flag: bool, env: Schedule)
    ensures (forall events :: Follows(flag, events, env) ==> RepliesRight(Run(Initial(flag), events)))
            <==> (forall t: Tid :: Joined(env, t))
  {
    if forall t: Tid :: Joined(env, t) {
      forall events | Follows(flag, events, env)
        ensures RepliesRight(Run(Initial(flag), events))
      {
        AllJoinedKeeps(flag, events, env, |Run(Initial(flag), events).workers|);
      }
    } else {
      var t: Tid :| !Joined(env, t);
      t := FirstUnjoined(env, t);
      var events := FlagCanBeStolen(flag, env, t);
      assert Run(Initial(flag), events).workers[t].seen.value != Run(Initial(flag), events).workers[t].seek;
    }
  }
}
