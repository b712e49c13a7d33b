/** main and its worker threads as steps over the server's two mutexes, the driver's lock, the
    thread list and the flag ioctl_just_performed.

    Every connection gets a thread, but main joins it before the next accept.  That, and nothing
    else, keeps the flag a connection set from being read by another one. */
module AcceptLoop {
  import opened Bytes

  type Tid = nat

  /** Where a worker is. */
  datatype WorkerPc =
    | Opening      // opens the device and receives its message
    | WantRw       // waits for the read/write mutex
    | HaveRw       // holds it, message parsed
    | WantDriver   // waits for the driver's lock inside write or ioctl
    | HaveDriver
    | SetFlag      // the device call succeeded
    | FlagSet      // about to release the read/write mutex
    | WantRwAgain  // waits for it to reply
    | ReadFlag
    | ClearFlag
    | WantRead     // waits for the driver's lock inside read
    | HaveRead
    | DropRw       // about to release the read/write mutex for the last time
    | Dead

  /** seek says whether its message is a seek command; seen is the flag its reply went by. */
  datatype Worker = Worker(pc: WorkerPc, seek: bool, seen: Option<bool>)

  datatype MainPc =
    | AtAccept
    | NewNode(t: Tid)         // thread t runs; its list node is about to be allocated
    | WantInsert(t: Tid)
    | Inserting(t: Tid)       // holds the list mutex
    | WantPass
    | Passing(rest: seq<Tid>) // holds the list mutex; about to join the first of rest
    | Exited

  /** The two mutexes the workers contend for, and the flag. */
  datatype Shared = Shared(rw: Option<Tid>, driver: Option<Tid>, flag: bool)

  datatype State = State(
    main: MainPc,
    list: seq<Tid>,
    listLocked: bool,
    shared: Shared,
    workers: seq<Worker>,     // by thread
    exiting: bool,
    lucky: bool               // so far no node allocation and no join has failed
  )

  /** Main or a worker takes its next step; ok is how a call it makes turns out.  An accept
      starts a worker whose message is, or is not, a seek command; exit stands for a signal. */
  datatype Event = MainStep(ok: bool, exit: bool, seek: bool) | WorkerStep(t: Tid, ok: bool)

  function Initial(flag: bool): State {
    State(AtAccept, [], false, Shared(None, None, flag), [], false, true)
  }

  function Remove(list: seq<Tid>, t: Tid): seq<Tid> {
    if list == [] then []
    else if list[0] == t then list[1..]
    else [list[0]] + Remove(list[1..], t)
  }

  predicate Running(s: State, t: Tid) {
    t < |s.workers| && s.workers[t].pc != Dead
  }

  function Accept(s: State, e: Event): State
    requires e.MainStep?
  {
    if e.exit then s.(main := WantPass, exiting := true)
    else if !e.ok then s
    else
      s.(main := NewNode(|s.workers|), workers := s.workers + [Worker(Opening, e.seek, None)])
  }

  function MainNext(s: State, e: Event): State
    requires e.MainStep?
  {
    match s.main
    case AtAccept => Accept(s, e)
    case NewNode(t) => if e.ok then s.(main := WantInsert(t)) else s.(main := WantPass, lucky := false)
    case WantInsert(t) => if s.listLocked then s else s.(main := Inserting(t), listLocked := true)
    case Inserting(t) => s.(main := WantPass, list := [t] + s.list, listLocked := false)
    case WantPass => if s.listLocked then s else s.(main := Passing(s.list), listLocked := true)
    case Passing(rest) =>
      if rest == [] then s.(main := if s.exiting then Exited else AtAccept, listLocked := false)
      else if !e.ok then s.(main := Passing(rest[1..]), lucky := false)
      else if Running(s, rest[0]) then s
      else s.(main := Passing(rest[1..]), list := Remove(s.list, rest[0]))
    case Exited => s
  }

  /** One step of thread t; a step that has to wait changes nothing. */
  function Move(h: Shared, t: Tid, w: Worker, ok: bool): (Shared, Worker) {
    match w.pc
    case Opening => (h, w.(pc := if ok then WantRw else Dead))
    case WantRw => if h.rw == None then (h.(rw := Some(t)), w.(pc := HaveRw)) else (h, w)
    case HaveRw => (h, w.(pc := if ok then WantDriver else DropRw))
    case WantDriver =>
      if !ok then (h, w.(pc := DropRw))
      else if h.driver == None then (h.(driver := Some(t)), w.(pc := HaveDriver))
      else (h, w)
    case HaveDriver => (h.(driver := None), w.(pc := if ok then SetFlag else DropRw))
    case SetFlag => (h.(flag := w.seek), w.(pc := FlagSet))
    case FlagSet => (h.(rw := None), w.(pc := if ok then WantRwAgain else Dead))
    case WantRwAgain => if h.rw == None then (h.(rw := Some(t)), w.(pc := ReadFlag)) else (h, w)
    case ReadFlag => (h, w.(seen := Some(h.flag), pc := if ok then ClearFlag else DropRw))
    case ClearFlag => (h.(flag := false), w.(pc := WantRead))
    case WantRead =>
      if !ok then (h, w.(pc := DropRw))
      else if h.driver == None then (h.(driver := Some(t)), w.(pc := HaveRead))
      else (h, w)
    case HaveRead => (h.(driver := None), w.(pc := if ok then WantRead else DropRw))
    case DropRw => (h.(rw := None), w.(pc := Dead))
    case Dead => (h, w)
  }

  function WorkerNext(s: State, t: Tid, ok: bool): State
    requires t < |s.workers|
  {
    var (h, w) := Move(s.shared, t, s.workers[t], ok);
    s.(shared := h, workers := s.workers[t := w])
  }

  function Step(s: State, e: Event): State {
    match e
    case MainStep(_, _, _) => MainNext(s, e)
    case WorkerStep(t, ok) => if t < |s.workers| then WorkerNext(s, t, ok) else s
  }

  function Run(s: State, events: seq<Event>): State {
    if events == [] then s else Step(Run(s, events[..|events| - 1]), events[|events| - 1])
  }

  // ---------------------------------------------------------------------------------------
  // Who holds what

  predicate HoldsRw(pc: WorkerPc) {
    !(pc.Opening? || pc.WantRw? || pc.WantRwAgain? || pc.Dead?)
  }

  predicate HoldsDriver(pc: WorkerPc) {
    pc.HaveDriver? || pc.HaveRead?
  }

  predicate LockedBy(h: Shared, t: Tid, pc: WorkerPc) {
    && (HoldsRw(pc) <==> h.rw == Some(t))
    && (HoldsDriver(pc) <==> h.driver == Some(t))
  }

  ghost predicate LocksOk(s: State) {
    && (forall t :: 0 <= t < |s.workers| ==> LockedBy(s.shared, t, s.workers[t].pc))
    && (s.shared.rw.Some? ==> s.shared.rw.value < |s.workers|)
    && (s.shared.driver.Some? ==> s.shared.driver.value < |s.workers|)
  }

  ghost predicate MainOk(s: State) {
    && (s.listLocked <==> s.main.Inserting? || s.main.Passing?)
    && (s.main.Passing? ==> forall i :: 0 <= i < |s.main.rest| ==> s.main.rest[i] < |s.workers|)
    && (forall i :: 0 <= i < |s.list| ==> s.list[i] < |s.workers|)
    && (s.main.NewNode? || s.main.WantInsert? || s.main.Inserting? ==> s.main.t < |s.workers|)
  }

  // ---------------------------------------------------------------------------------------
  // One worker at a time

  /** The one thread main has started and not yet joined. */
  function Current(s: State): Option<Tid> {
    match s.main
    case NewNode(t) => Some(t)
    case WantInsert(t) => Some(t)
    case Inserting(t) => Some(t)
    case WantPass => if s.list == [] then None else Some(s.list[0])
    case Passing(rest) => if rest == [] then None else Some(rest[0])
    case _ => None
  }

  predicate FlagMatters(pc: WorkerPc) {
    pc.FlagSet? || pc.WantRwAgain? || pc.ReadFlag?
  }

  predicate FlagOk(h: Shared, w: Worker) {
    && (FlagMatters(w.pc) ==> h.flag == w.seek)
    && (w.seen.Some? ==> w.seen == Some(w.seek))
  }

  ghost predicate SerialOk(s: State) {
    s.lucky ==>
      && |s.list| <= 1
      && (s.main.Passing? ==> s.list == s.main.rest)
      && (s.main.AtAccept? || s.main.NewNode? || s.main.WantInsert? || s.main.Inserting? || s.main.Exited? ==> s.list == [])
      && (forall t: Tid :: Running(s, t) ==> Current(s) == Some(t))
      && (forall t: Tid :: t < |s.workers| ==>
            FlagOk(s.shared, s.workers[t]))
  }

  lemma InitialOk(flag: bool)
    ensures LocksOk(Initial(flag)) && MainOk(Initial(flag)) && SerialOk(Initial(flag))
  {
  }

  lemma {:induction false} RemoveSubset(list: seq<Tid>, t: Tid)
    ensures forall i :: 0 <= i < |Remove(list, t)| ==> Remove(list, t)[i] in list
  {
    if list != [] && list[0] != t {
      RemoveSubset(list[1..], t);
    }
  }

  lemma MainKeepsMain(s: State, e: Event)
    requires MainOk(s) && e.MainStep?
    ensures MainOk(MainNext(s, e))
  {
    if s.main.Passing? && s.main.rest != [] {
      RemoveSubset(s.list, s.main.rest[0]);
    }
  }

  lemma MoveLocks(h: Shared, t: Tid, w: Worker, ok: bool, u: Tid, pc: WorkerPc)
    requires LockedBy(h, t, w.pc)
    ensures var (h', w') := Move(h, t, w, ok);
            && LockedBy(h', t, w'.pc)
            && (u != t && LockedBy(h, u, pc) ==> LockedBy(h', u, pc))
            && (h'.rw in {None, Some(t), h.rw}) && (h'.driver in {None, Some(t), h.driver})
  {
  }

  lemma WorkerKeepsLocks(s: State, t: Tid, ok: bool)
    requires LocksOk(s) && t < |s.workers|
    ensures LocksOk(WorkerNext(s, t, ok))
  {
    var s' := WorkerNext(s, t, ok);
    MoveLocks(s.shared, t, s.workers[t], ok, t, Dead);
    forall u | 0 <= u < |s'.workers|
      ensures LockedBy(s'.shared, u, s'.workers[u].pc)
    {
      MoveLocks(s.shared, t, s.workers[t], ok, u, s.workers[u].pc);
    }
  }

  lemma AcceptKeepsLocks(s: State, e: Event)
    requires LocksOk(s) && e.MainStep?
    ensures LocksOk(MainNext(s, e))
  {
    var s' := MainNext(s, e);
    assert s'.shared == s.shared && s.workers <= s'.workers;
    assert forall t :: |s.workers| <= t < |s'.workers| ==> s'.workers[t].pc == Opening;
  }

  lemma StepKeepsLocks(s: State, e: Event)
    requires LocksOk(s) && MainOk(s)
    ensures LocksOk(Step(s, e)) && MainOk(Step(s, e))
  {
    match e {
      case MainStep(_, _, _) =>
        MainKeepsMain(s, e);
        AcceptKeepsLocks(s, e);
      case WorkerStep(t, ok) =>
        if t < |s.workers| {
          WorkerKeepsLocks(s, t, ok);
        }
    }
  }

  lemma MainKeepsSerial(s: State, e: Event)
    requires SerialOk(s) && e.MainStep?
    ensures SerialOk(MainNext(s, e))
  {
  }

  /** A step keeps its own thread's view of the flag right, and that of dead threads. */
  lemma MoveFlag(h: Shared, t: Tid, w: Worker, ok: bool)
    requires FlagOk(h, w)
    ensures FlagOk(Move(h, t, w, ok).0, Move(h, t, w, ok).1)
    ensures w.pc.Dead? ==> Move(h, t, w, ok) == (h, w)
  {
  }

  lemma WorkerKeepsSerial(s: State, t: Tid, ok: bool)
    requires SerialOk(s) && t < |s.workers|
    ensures SerialOk(WorkerNext(s, t, ok))
  {
    if s.lucky {
      var s' := WorkerNext(s, t, ok);
      MoveFlag(s.shared, t, s.workers[t], ok);
      assert Running(s, t) || s' == s;
      forall u: Tid | u < |s'.workers|
        ensures FlagOk(s'.shared, s'.workers[u])
        ensures Running(s', u) ==> Current(s') == Some(u)
      {
        assert u != t && Running(s, t) ==> !Running(s, u);
        assert Running(s', u) ==> Running(s, u);
      }
    }
  }

  lemma StepKeepsSerial(s: State, e: Event)
    requires SerialOk(s)
    ensures SerialOk(Step(s, e))
  {
    match e {
      case MainStep(_, _, _) => MainKeepsSerial(s, e);
      case WorkerStep(t, ok) =>
        if t < |s.workers| {
          WorkerKeepsSerial(s, t, ok);
        }
    }
  }

  lemma {:induction false} RunKeeps(flag: bool, events: seq<Event>)
    ensures var s := Run(Initial(flag), events);
            LocksOk(s) && MainOk(s) && SerialOk(s)
  {
    if events == [] {
      InitialOk(flag);
    } else {
      var k := |events| - 1;
      RunKeeps(flag, events[..k]);
      StepKeepsLocks(Run(Initial(flag), events[..k]), events[k]);
      StepKeepsSerial(Run(Initial(flag), events[..k]), events[k]);
    }
  }

  /** Every reply so far went by the flag of its own connection. */
  ghost predicate RepliesRight(s: State) {
    forall t: Tid :: t < |s.workers| && s.workers[t].seen.Some? ==> s.workers[t].seen.value == s.workers[t].seek
  }

  /** Whenever main is at accept, every worker it ever started is dead and the list is empty,
      provided no node allocation and no join has failed; and then every reply went by the flag
      its own connection had set, whatever the flag was before and however connections failed. */
  lemma ServedOneAtATime(flag: bool, events: seq<Event>)
    ensures var s := Run(Initial(flag), events);
            s.lucky ==>
              && (s.main.AtAccept? || s.main.Exited? ==> s.list == [] && forall t: Tid :: !Running(s, t))
              && (forall t: Tid, u: Tid :: Running(s, t) && Running(s, u) ==> t == u)
              && RepliesRight(s)
  {
    RunKeeps(flag, events);
  }

  lemma {:induction false} LuckyBefore(s: State, events: seq<Event>, k: nat)
    requires k <= |events| && Run(s, events).lucky
    ensures Run(s, events[..k]).lucky
  {
    if k < |events| {
      LuckyBefore(s, events[..|events| - 1], k);
      assert events[..|events| - 1][..k] == events[..k];
    } else {
      assert events[..k] == events;
    }
  }

  lemma DeadStep(s: State, e: Event, t: Tid)
    requires t < |s.workers|
    ensures t < |Step(s, e).workers| && (Running(Step(s, e), t) ==> Running(s, t))
  {
  }

  /** A dead worker stays dead, and none is removed. */
  lemma {:induction false} StillDead(s: State, events: seq<Event>, i: nat, j: nat, t: Tid)
    requires i <= j <= |events| && t < |Run(s, events[..i]).workers|
    ensures t < |Run(s, events[..j]).workers|
    ensures Running(Run(s, events[..j]), t) ==> Running(Run(s, events[..i]), t)
  {
    if i < j {
      StillDead(s, events, i, j - 1, t);
      DeadStep(Run(s, events[..j - 1]), events[j - 1], t);
      assert events[..j][..j - 1] == events[..j - 1];
      assert events[..j][j - 1] == events[j - 1];
    }
  }

  /** Event number k is a step of worker t that changes something. */
  ghost predicate Acts(s: State, events: seq<Event>, k: nat, t: Tid)
    requires k < |events|
  {
    events[k].WorkerStep? && events[k].t == t && Step(Run(s, events[..k]), events[k]) != Run(s, events[..k])
  }

  lemma ActsIsRunning(s: State, events: seq<Event>, k: nat, t: Tid)
    requires k < |events| && Acts(s, events, k, t)
    ensures Running(Run(s, events[..k]), t)
  {
    var now := Run(s, events[..k]);
    assert now.workers[t := now.workers[t]] == now.workers;
  }

  lemma InTurn(flag: bool, events: seq<Event>, i: nat, j: nat, t: Tid, u: Tid)
    requires i < j < |events| && Acts(Initial(flag), events, i, t) && Acts(Initial(flag), events, j, u)
    requires OneRuns(Run(Initial(flag), events[..i]))
    ensures t <= u
  {
    var s := Initial(flag);
    ActsIsRunning(s, events, i, t);
    ActsIsRunning(s, events, j, u);
    if u < t {
      StillDead(s, events, i, j, u);
    }
  }

  ghost predicate OneRuns(s: State) {
    forall t: Tid, u: Tid :: Running(s, t) && Running(s, u) ==> t == u
  }

  /** While no node allocation and no join has failed, the workers act strictly one after another,
      in the order in which their connections were accepted: each takes all of its steps before
      the next takes its first. */
  lemma WorkersTakeTurns(flag: bool, events: seq<Event>, i: nat, j: nat, t: Tid, u: Tid)
    requires Run(Initial(flag), events).lucky && i < j < |events|
    requires Acts(Initial(flag), events, i, t) && Acts(Initial(flag), events, j, u)
    ensures t <= u
  {
    LuckyBefore(Initial(flag), events, i);
    RunKeeps(flag, events[..i]);
    InTurn(flag, events, i, j, t, u);
  }

  lemma RunSnoc(s: State, events: seq<Event>, e: Event)
    ensures Run(s, events + [e]) == Step(Run(s, events), e)
  {
    assert (events + [e])[..|events|] == events;
  }

  // ---------------------------------------------------------------------------------------
  // The list

  predicate ListsAt(s: State, e: Event, t: Tid) {
    e.MainStep? && s.main == Inserting(t)
  }

  predicate JoinsAt(s: State, e: Event, t: Tid) {
    e.MainStep? && e.ok && s.main.Passing? && s.main.rest != [] && s.main.rest[0] == t && !Running(s, t)
  }

  /** Thread t has been put into the list. */
  ghost predicate EverListed(flag: bool, events: seq<Event>, t: Tid) {
    events != [] &&
    var k := |events| - 1;
    EverListed(flag, events[..k], t) || ListsAt(Run(Initial(flag), events[..k]), events[k], t)
  }

  /** A join of thread t has succeeded. */
  ghost predicate EverJoined(flag: bool, events: seq<Event>, t: Tid) {
    events != [] &&
    var k := |events| - 1;
    EverJoined(flag, events[..k], t) || JoinsAt(Run(Initial(flag), events[..k]), events[k], t)
  }

  ghost predicate NoTwice(list: seq<Tid>) {
    forall i, j :: 0 <= i < j < |list| ==> list[i] != list[j]
  }

  predicate Starting(main: MainPc) {
    main.NewNode? || main.WantInsert? || main.Inserting?
  }

  ghost predicate ListOk(s: State) {
    && NoTwice(s.list)
    && (s.main.Passing? ==> NoTwice(s.main.rest) && forall t :: t in s.main.rest ==> t in s.list)
    && (Starting(s.main) ==> s.main.t !in s.list && s.main.t + 1 == |s.workers|)
    && (forall t :: t in s.list ==> t < |s.workers|)
  }

  lemma {:induction false} RemoveExact(list: seq<Tid>, t: Tid)
    requires NoTwice(list)
    ensures forall u :: u in Remove(list, t) <==> u in list && u != t
    ensures NoTwice(Remove(list, t))
  {
    if list != [] {
      assert list == [list[0]] + list[1..];
      assert list[0] !in list[1..];
      if list[0] != t {
        RemoveExact(list[1..], t);
        ConsNoTwice(list[0], Remove(list[1..], t));
      }
    }
  }

  lemma ConsNoTwice(t: Tid, list: seq<Tid>)
    requires NoTwice(list) && t !in list
    ensures NoTwice([t] + list)
  {
  }

  lemma JoinKeepsList(s: State)
    requires ListOk(s) && s.main.Passing? && s.main.rest != [] && !Running(s, s.main.rest[0])
    ensures ListOk(s.(main := Passing(s.main.rest[1..]), list := Remove(s.list, s.main.rest[0])))
  {
    var rest := s.main.rest;
    RemoveExact(s.list, rest[0]);
    assert rest == [rest[0]] + rest[1..];
  }

  lemma InsertKeepsList(s: State)
    requires ListOk(s) && s.main.Inserting?
    ensures ListOk(s.(main := WantPass, list := [s.main.t] + s.list, listLocked := false))
  {
    ConsNoTwice(s.main.t, s.list);
  }

  lemma FailKeepsList(s: State)
    requires ListOk(s) && s.main.Passing? && s.main.rest != []
    ensures ListOk(s.(main := Passing(s.main.rest[1..]), lucky := false))
  {
    assert s.main.rest == [s.main.rest[0]] + s.main.rest[1..];
  }

  /** What a step of main does to the list. */
  lemma MainKeepsList(s: State, e: Event)
    requires ListOk(s) && e.MainStep?
    ensures forall t :: t in MainNext(s, e).list <==> (t in s.list || ListsAt(s, e, t)) && !JoinsAt(s, e, t)
  {
    if s.main.Passing? && s.main.rest != [] {
      RemoveExact(s.list, s.main.rest[0]);
    }
  }

  lemma MainKeepsListOk(s: State, e: Event)
    requires ListOk(s) && e.MainStep?
    ensures ListOk(MainNext(s, e))
  {
    if s.main.Inserting? {
      InsertKeepsList(s);
    } else if s.main.Passing? && s.main.rest != [] {
      if !e.ok {
        FailKeepsList(s);
      } else if !Running(s, s.main.rest[0]) {
        JoinKeepsList(s);
      }
    }
  }

  ghost predicate HistoryOk(flag: bool, events: seq<Event>, t: Tid) {
    var s := Run(Initial(flag), events);
    && (t in s.list <==> EverListed(flag, events, t) && !EverJoined(flag, events, t))
    && (EverJoined(flag, events, t) ==> EverListed(flag, events, t))
    && (EverListed(flag, events, t) ==> t < |s.workers| && !(Starting(s.main) && s.main.t == t))
  }

  lemma HistoryStep(flag: bool, events: seq<Event>, t: Tid)
    requires events != []
    requires var before := events[..|events| - 1]; ListOk(Run(Initial(flag), before)) && HistoryOk(flag, before, t)
    ensures HistoryOk(flag, events, t)
  {
    var s, e := Run(Initial(flag), events[..|events| - 1]), events[|events| - 1];
    if e.MainStep? {
      MainKeepsList(s, e);
      MainKeepsListOk(s, e);
      assert ListsAt(s, e, t) ==> t < |s.workers|;
    }
  }

  lemma {:induction false} RunKeepsList(flag: bool, events: seq<Event>)
    ensures ListOk(Run(Initial(flag), events))
  {
    if events != [] {
      var k := |events| - 1;
      RunKeepsList(flag, events[..k]);
      if events[k].MainStep? {
        MainKeepsListOk(Run(Initial(flag), events[..k]), events[k]);
      }
    }
  }

  /** In every run, failures included, the list holds exactly the threads that were put into it
      and have not been joined: none is forgotten, none is joined twice. */
  lemma {:induction false} ListIsUnjoined(flag: bool, events: seq<Event>, t: Tid)
    ensures HistoryOk(flag, events, t)
  {
    if events != [] {
      ListIsUnjoined(flag, events[..|events| - 1], t);
      RunKeepsList(flag, events[..|events| - 1]);
      HistoryStep(flag, events, t);
    }
  }

  // ---------------------------------------------------------------------------------------
  // No deadlock

  datatype Actor = Main | Thread(t: Tid)

  /** a cannot take its next step before b has done something. */
  predicate WaitsFor(s: State, a: Actor, b: Actor) {
    match a
    case Main =>
      s.main.Passing? && s.main.rest != [] && b == Thread(s.main.rest[0]) && Running(s, s.main.rest[0])
    case Thread(t) =>
      && t < |s.workers| && b.Thread?
      && (|| ((s.workers[t].pc.WantRw? || s.workers[t].pc.WantRwAgain?) && s.shared.rw == Some(b.t))
          || ((s.workers[t].pc.WantDriver? || s.workers[t].pc.WantRead?) && s.shared.driver == Some(b.t)))
  }

  /** Main joins threads, threads take the read/write mutex, and inside it the driver's lock. */
  function Rank(s: State, a: Actor): nat {
    match a
    case Main => 0
    case Thread(t) =>
      if t < |s.workers| && (s.workers[t].pc.WantRw? || s.workers[t].pc.WantRwAgain?) then 1
      else if t < |s.workers| && (s.workers[t].pc.WantDriver? || s.workers[t].pc.WantRead?) then 2
      else 3
  }

  lemma WaitsClimb(s: State, a: Actor, b: Actor)
    requires LocksOk(s) && WaitsFor(s, a, b)
    ensures Rank(s, a) < Rank(s, b)
  {
  }

  lemma {:induction false} WaitPathClimbs(s: State, path: seq<Actor>)
    requires LocksOk(s) && 2 <= |path| && forall i :: 0 <= i < |path| - 1 ==> WaitsFor(s, path[i], path[i + 1])
    ensures Rank(s, path[0]) < Rank(s, path[|path| - 1])
  {
    WaitsClimb(s, path[0], path[1]);
    if 2 < |path| {
      forall i | 0 <= i < |path[1..]| - 1
        ensures WaitsFor(s, path[1..][i], path[1..][i + 1])
      {
        assert WaitsFor(s, path[i + 1], path[i + 2]);
      }
      WaitPathClimbs(s, path[1..]);
    }
  }

  /** In every run, failures of every kind included, no chain of waits comes back to its start. */
  lemma NoWaitCycle(flag: bool, events: seq<Event>, path: seq<Actor>)
    requires 2 <= |path|
    requires forall i :: 0 <= i < |path| - 1 ==> WaitsFor(Run(Initial(flag), events), path[i], path[i + 1])
    ensures path[0] != path[|path| - 1]
  {
    RunKeeps(flag, events);
    WaitPathClimbs(Run(Initial(flag), events), path);
  }

  /** And as long as a thread is alive, some thread can take a step. */
  lemma SomeoneMoves(flag: bool, events: seq<Event>, t: Tid) returns (e: Event)
    requires Running(Run(Initial(flag), events), t)
    ensures e.WorkerStep? && Step(Run(Initial(flag), events), e) != Run(Initial(flag), events)
  {
    var s := Run(Initial(flag), events);
    RunKeeps(flag, events);
    var u := t;
    if (s.workers[u].pc.WantRw? || s.workers[u].pc.WantRwAgain?) && s.shared.rw.Some? {
      u := s.shared.rw.value;
    }
    if (s.workers[u].pc.WantDriver? || s.workers[u].pc.WantRead?) && s.shared.driver.Some? {
      u := s.shared.driver.value;
    }
    e := WorkerStep(u, true);
    FreeMoves(s, u);
  }

  /** The whole server: until main has left its loop and the last worker is dead, some step
      changes the state; with no worker alive it is one of main's. */
  lemma ServerMoves(flag: bool, events: seq<Event>) returns (e: Event)
    requires !Run(Initial(flag), events).main.Exited? || exists t: Tid :: Running(Run(Initial(flag), events), t)
    ensures Step(Run(Initial(flag), events), e) != Run(Initial(flag), events)
    ensures e.WorkerStep? <==> exists t: Tid :: Running(Run(Initial(flag), events), t)
  {
    var s := Run(Initial(flag), events);
    if t: Tid :| Running(s, t) {
      e := SomeoneMoves(flag, events, t);
    } else {
      e := MainStep(true, false, false);
      RunKeeps(flag, events);
      MainMoves(s, e);
    }
  }

  lemma MainMoves(s: State, e: Event)
    requires MainOk(s) && !s.main.Exited? && e == MainStep(true, false, false)
    requires s.main.Passing? && s.main.rest != [] ==> !Running(s, s.main.rest[0])
    ensures Step(s, e) != s
  {
    assert s.main.Passing? && s.main.rest != [] ==> |s.main.rest[1..]| < |s.main.rest|;
  }

  lemma FreeMoves(s: State, u: Tid)
    requires u < |s.workers| && !s.workers[u].pc.Dead?
    requires s.workers[u].pc.WantRw? || s.workers[u].pc.WantRwAgain? ==> s.shared.rw == None
    requires s.workers[u].pc.WantDriver? || s.workers[u].pc.WantRead? ==> s.shared.driver == None
    ensures Step(s, WorkerStep(u, true)) != s
  {
    assert Step(s, WorkerStep(u, true)).workers[u].pc != s.workers[u].pc;
  }
}
