/** Any number of system calls running at once, as fine-grained steps over one shared device.

    Each thread runs one Call, in which the environment's choices are already recorded.  An event
    lets one thread take its next step.  Every list of events is a run, and the theorems in
    Linearizability.dfy quantify over all of them. */
module Interleaving {
  import opened Bytes
  import opened CircularBuffers
  import opened DeviceSpec

  type Tid = nat

  /** Where a thread is: the step it takes next, with its local variables. */
  datatype Pc =
    | Start
    // aesd_write, before the lock
    | WCopyIn(tmp: Ptr)
    | WWant(tmp: Ptr)
    | WAbort(tmp: Ptr, ret: int)
    // aesd_write, holding the lock
    | WLocked(tmp: Ptr)
    | WResized(tmp: Ptr, combined: Ptr)
    | WMerged(tmp: Ptr, combined: Ptr)
    | WOwns(combined: Ptr, size: nat)
    | WAdded
    | WCleared
    | WSaved(size: nat)
    // aesd_read
    | RWant
    | RLoop(got: seq<Text>, remaining: nat)
    | RFound(got: seq<Text>, remaining: nat, hit: Hit)
    | RCopied(got: seq<Text>, remaining: nat, piece: Text)
    // aesd_llseek
    | SSum(index: nat, total: nat)
    // aesd_unlocked_ioctl
    | IWant
    | ICheck
    | ISum(index: nat, total: nat)
    // all four
    | Unlock(o: Outcome, tmp: Ptr)
    | WLate(tmp: Ptr, o: Outcome)
    | Done(o: Outcome)

  predicate WritesOutside(pc: Pc) {
    pc.WCopyIn? || pc.WWant? || pc.WAbort? || pc.WLate?
  }

  predicate WritesHolding(pc: Pc) {
    pc.WResized? || pc.WMerged? || pc.WOwns? || pc.WAdded? || pc.WCleared? || pc.WSaved?
  }

  predicate InCs(pc: Pc) {
    || pc.WLocked? || WritesHolding(pc)
    || pc.RLoop? || pc.RFound? || pc.RCopied? || pc.SSum? || pc.ICheck? || pc.ISum? || pc.Unlock?
  }

  /** Who answers for a live block. */
  datatype Owner = Tmp(t: Tid) | Growing(t: Tid) | PartialBlock | Committed(k: nat)

  /** The memory all threads share.  Below the line are history variables, which no step of the
      code reads: whether a step ever touched memory that was not live or went outside a block,
      the entries ever added, and the owner of each live block. */
  datatype Mem = Mem(
    heap: map<Ptr, Text>,
    ring: Ring,
    partialWrite: Ptr,
    partialSize: nat,
    pos: map<Handle, int>,
    // ------
    broken: bool,
    hist: seq<Entry>,
    owner: map<Ptr, Owner>
  )

  /** Memory, lock and threads; below the line the lock acquisitions, the finished critical
      sections with their outcomes, and the state that the finished calls lead to when they are
      run one after another. */
  datatype World = World(
    mem: Mem,
    lock: Option<Tid>,
    calls: map<Tid, Call>,
    pc: map<Tid, Pc>,
    // ------
    order: seq<Tid>,
    ended: seq<Tid>,
    outs: seq<Outcome>,
    abs: Sys
  )

  /** Thread t takes its next step; ptr and junk are what the allocator answers if asked. */
  datatype Event = Event(t: Tid, ptr: Ptr, junk: Text)

  function Break(m: Mem): Mem {
    m.(broken := true)
  }

  function Free(m: Mem, p: Ptr): Mem {
    if p in m.heap then m.(heap := m.heap - {p}, owner := m.owner - {p}) else Break(m)
  }

  function Alloc(m: Mem, p: Ptr, bytes: Text, o: Owner): Mem {
    m.(heap := m.heap[p := bytes], owner := m.owner[p := o])
  }

  /** aesd_circular_buffer_add_entry. */
  function AddBlock(m: Mem, p: Ptr, size: nat): Mem
    requires Shape(m.ring)
  {
    m.(ring := Add(m.ring, Entry(p, size)),
       hist := m.hist + [Entry(p, size)],
       owner := m.owner[p := Committed(|m.hist|)])
  }

  // ---------------------------------------------------------------------------------------
  // aesd_write

  function WriteBegin(m: Mem, e: Event, c: Call): (Mem, Pc)
    requires c.Write? && c.h in m.pos
  {
    if m.pos[c.h] < 0 || c.data == [] then (m, Done(Outcome(-EINVAL, [])))
    else if !c.kmallocOk then (m, Done(Outcome(-ENOMEM, [])))
    else if e.ptr == NULL || e.ptr in m.heap || |e.junk| != |c.data| then (m, Start)
    else (Alloc(m, e.ptr, e.junk, Tmp(e.t)), WCopyIn(e.ptr))
  }

  function WriteOutside(m: Mem, c: Call, pc: Pc): (Mem, Pc)
    requires c.Write? && WritesOutside(pc)
  {
    match pc
    case WCopyIn(tmp) =>
      if !c.copyOk then (m, WAbort(tmp, -EFAULT))
      else if tmp !in m.heap || |m.heap[tmp]| != |c.data| then (Break(m), pc)
      else (m.(heap := m.heap[tmp := c.data]), WWant(tmp))
    case WWant(tmp) => (m, WAbort(tmp, -ERESTARTSYS))  // only when the lock is refused
    case WAbort(tmp, ret) => (Free(m, tmp), Done(Outcome(ret, [])))
    case WLate(tmp, o) => (Free(m, tmp), Done(o))
  }

  function WriteLocked(m: Mem, e: Event, c: Call, tmp: Ptr): (Mem, Pc)
    requires c.Write? && Shape(m.ring)
  {
    if m.partialWrite == NULL then
      if tmp !in m.heap then (Break(m), WLocked(tmp))
      else if HasNewline(m.heap[tmp]) then (AddBlock(m, tmp, |c.data|), Unlock(Outcome(|c.data|, []), NULL))
      else (m.(owner := m.owner[tmp := Growing(e.t)]), WOwns(tmp, |c.data|))
    else if !c.kreallocOk then (m, Unlock(Outcome(-ENOMEM, []), tmp))
    else if m.partialWrite !in m.heap then (Break(m), WLocked(tmp))
    else if e.ptr == NULL || (e.ptr != m.partialWrite && e.ptr in m.heap) then (m, WLocked(tmp))
    else if |m.heap[m.partialWrite] + e.junk| != m.partialSize + |c.data| then (m, WLocked(tmp))
    else
      (Alloc(Free(m, m.partialWrite), e.ptr, m.heap[m.partialWrite] + e.junk, Growing(e.t)), WResized(tmp, e.ptr))
  }

  /** memcpy of the whole block src to offset off of block dst. */
  function Memcpy(m: Mem, dst: Ptr, off: nat, src: Ptr): Mem {
    if src !in m.heap || dst !in m.heap || |m.heap[dst]| < off + |m.heap[src]| then Break(m)
    else
      m.(heap := m.heap[dst := m.heap[dst][..off] + m.heap[src] + m.heap[dst][off + |m.heap[src]|..]])
  }

  function WriteHolding(m: Mem, c: Call, pc: Pc): (Mem, Pc)
    requires c.Write? && Shape(m.ring) && WritesHolding(pc)
  {
    match pc
    case WResized(tmp, combined) => (Memcpy(m, combined, m.partialSize, tmp), WMerged(tmp, combined))
    case WMerged(tmp, combined) => (Free(m, tmp), WOwns(combined, m.partialSize + |c.data|))
    case WOwns(combined, size) =>
      if HasNewline(c.data) then (AddBlock(m, combined, size), WAdded)
      else (m.(partialWrite := combined, owner := m.owner[combined := PartialBlock]), WSaved(size))
    case WAdded => (m.(partialWrite := NULL), WCleared)
    case WCleared => (m.(partialSize := 0), Unlock(Outcome(|c.data|, []), NULL))
    case WSaved(size) => (m.(partialSize := size), Unlock(Outcome(|c.data|, []), NULL))
  }

  // ---------------------------------------------------------------------------------------
  // aesd_read, aesd_llseek, aesd_unlocked_ioctl

  function ReadOutside(m: Mem, c: Call, pc: Pc): (Mem, Pc)
    requires c.Read? && c.h in m.pos && (pc.Start? || pc.RWant?)
  {
    if pc.RWant? then (m, Done(Outcome(-ERESTARTSYS, [])))  // only when the lock is refused
    else if m.pos[c.h] < 0 || c.count == 0 then (m, Done(Outcome(-EINVAL, [])))
    else (m, RWant)
  }

  function ReadLoop(m: Mem, c: Call, got: seq<Text>, remaining: nat): (Mem, Pc)
    requires c.Read? && Shape(m.ring) && c.h in m.pos
  {
    var finished := Unlock(Outcome(|Flatten(got)|, Flatten(got)), NULL);
    if remaining == 0 || m.pos[c.h] < 0 then (m, finished)
    else
      match Search(m.ring, m.pos[c.h])
      case None => (m, finished)
      case Some(hit) =>
        if hit.slot < N && m.ring.entry[hit.slot].buffptr == NULL then (m, finished)
        else (m, RFound(got, remaining, hit))
  }

  function ReadFound(m: Mem, c: Call, got: seq<Text>, remaining: nat, hit: Hit): (Mem, Pc)
    requires c.Read? && Shape(m.ring)
  {
    if c.faultAt == Some(|got|) then (m, Unlock(Outcome(-EFAULT, Flatten(got)), NULL))
    else if N <= hit.slot || m.ring.entry[hit.slot].buffptr !in m.heap then
      (Break(m), RFound(got, remaining, hit))
    else
      var block, size := m.heap[m.ring.entry[hit.slot].buffptr], m.ring.entry[hit.slot].size;
      if |block| < size || size < hit.offset then (Break(m), RFound(got, remaining, hit))
      else (m, RCopied(got, remaining, block[hit.offset..hit.offset + Min(remaining, size - hit.offset)]))
  }

  function ReadCopied(m: Mem, c: Call, got: seq<Text>, remaining: nat, piece: Text): (Mem, Pc)
    requires c.h in m.pos
  {
    if remaining < |piece| then (Break(m), RCopied(got, remaining, piece))
    else (m.(pos := m.pos[c.h := m.pos[c.h] + |piece|]), RLoop(got + [piece], remaining - |piece|))
  }

  function SeekSum(m: Mem, c: Call, index: nat, total: nat): (Mem, Pc)
    requires c.Llseek? && Shape(m.ring) && c.h in m.pos
  {
    if index < N then (m, SSum(index + 1, total + m.ring.entry[index].size))
    else
      match SeekTarget(total, m.pos[c.h], c.offset, c.whence)
      case None => (m, Unlock(Outcome(-EINVAL, []), NULL))
      case Some(target) => (m.(pos := m.pos[c.h := target]), Unlock(Outcome(target, []), NULL))
  }

  function IoctlBegin(m: Mem, c: Call): (Mem, Pc)
    requires c.Ioctl?
  {
    if !c.known then (m, Done(Outcome(-ENOTTY, [])))
    else if !c.copyOk then (m, Done(Outcome(-EFAULT, [])))
    else (m, IWant)
  }

  function IoctlCheck(m: Mem, c: Call): (Mem, Pc)
    requires c.Ioctl? && Shape(m.ring)
  {
    var totalCommands: nat := if m.ring.full then N else m.ring.inOffs;
    if totalCommands <= c.writeCmd then (m, Unlock(Outcome(-EINVAL, []), NULL))
    else
      var entry := m.ring.entry[Wrap(m.ring.outOffs + c.writeCmd)];
      if entry.buffptr == NULL || entry.size <= c.writeCmdOffset then (m, Unlock(Outcome(-EINVAL, []), NULL))
      else (m, ISum(0, 0))
  }

  function IoctlSum(m: Mem, c: Call, index: nat, total: nat): (Mem, Pc)
    requires c.Ioctl? && Shape(m.ring) && c.h in m.pos && c.writeCmd <= N
  {
    if index < c.writeCmd then (m, ISum(index + 1, total + m.ring.entry[Wrap(m.ring.outOffs + index)].size))
    else (m.(pos := m.pos[c.h := total + c.writeCmdOffset]), Unlock(Outcome(0, []), NULL))
  }

  // ---------------------------------------------------------------------------------------
  // One step

  /** The thread is about to take the lock. */
  predicate Wants(c: Call, pc: Pc) {
    || (c.Write? && pc.WWant? && c.lockOk)
    || (c.Read? && pc.RWant? && c.lockOk)
    || (c.Llseek? && pc.Start?)
    || (c.Ioctl? && pc.IWant?)
  }

  function Enter(c: Call, pc: Pc): Pc
    requires Wants(c, pc)
  {
    match c
    case Write(_, _, _, _, _, _) => WLocked(pc.tmp)
    case Read(_, count, _, _) => RLoop([], count)
    case Llseek(_, _, _) => SSum(0, 0)
    case Ioctl(_, _, _, _, _) => ICheck
  }

  /** Every step but taking and releasing the lock. */
  function Local(m: Mem, e: Event, c: Call, pc: Pc): (mp: (Mem, Pc))
    requires Shape(m.ring) && c.h in m.pos
    ensures Shape(mp.0.ring) && mp.0.pos.Keys == m.pos.Keys
  {
    if c.Write? && pc.Start? then WriteBegin(m, e, c)
    else if c.Write? && WritesOutside(pc) then WriteOutside(m, c, pc)
    else if c.Write? && pc.WLocked? then WriteLocked(m, e, c, pc.tmp)
    else if c.Write? && WritesHolding(pc) then WriteHolding(m, c, pc)
    else if c.Read? && (pc.Start? || pc.RWant?) then ReadOutside(m, c, pc)
    else if c.Read? && pc.RLoop? then ReadLoop(m, c, pc.got, pc.remaining)
    else if c.Read? && pc.RFound? then ReadFound(m, c, pc.got, pc.remaining, pc.hit)
    else if c.Read? && pc.RCopied? then ReadCopied(m, c, pc.got, pc.remaining, pc.piece)
    else if c.Llseek? && pc.SSum? then SeekSum(m, c, pc.index, pc.total)
    else if c.Ioctl? && pc.Start? then IoctlBegin(m, c)
    else if c.Ioctl? && pc.ICheck? then IoctlCheck(m, c)
    else if c.Ioctl? && pc.ISum? && c.writeCmd <= N then IoctlSum(m, c, pc.index, pc.total)
    else (m, pc)
  }

  predicate Typed(w: World) {
    && Shape(w.mem.ring)
    && w.pc.Keys == w.calls.Keys
    && w.abs.pos.Keys == w.mem.pos.Keys
    && (forall t :: t in w.calls ==> w.calls[t].h in w.mem.pos)
  }

  function Acquire(w: World, t: Tid): World
    requires t in w.pc && t in w.calls && Wants(w.calls[t], w.pc[t])
  {
    w.(lock := Some(t), order := w.order + [t], pc := w.pc[t := Enter(w.calls[t], w.pc[t])])
  }

  /** Releasing the lock is where a call takes its place in the sequential order. */
  function Release(w: World, t: Tid): World
    requires t in w.pc && t in w.calls && w.pc[t].Unlock? && w.calls[t].h in w.abs.pos
  {
    var o, tmp := w.pc[t].o, w.pc[t].tmp;
    w.(lock := None, ended := w.ended + [t], outs := w.outs + [o], abs := Do(w.abs, w.calls[t]).0,
       pc := w.pc[t := if tmp == NULL then Done(o) else WLate(tmp, o)])
  }

  function Step(w: World, e: Event): (w': World)
    requires Typed(w)
    ensures Typed(w')
  {
    if e.t !in w.pc then w
    else
      var c, pc := w.calls[e.t], w.pc[e.t];
      if Wants(c, pc) then if w.lock == None then Acquire(w, e.t) else w
      else if pc.Unlock? then Release(w, e.t)
      else
        var (m, pc') := Local(w.mem, e, c, pc);
        w.(mem := m, pc := w.pc[e.t := pc'])
  }

  /** A whole run. */
  function RunEvents(w: World, events: seq<Event>): (w': World)
    requires Typed(w)
    ensures Typed(w')
  {
    if events == [] then w else Step(RunEvents(w, events[..|events| - 1]), events[|events| - 1])
  }

  /** A device just loaded, with calls about to be made on files open at position 0. */
  function Initial(calls: map<Tid, Call>, handles: set<Handle>): (w: World)
    requires forall t :: t in calls ==> calls[t].h in handles
    ensures Typed(w)
  {
    var pos := map h | h in handles :: 0;
    World(Mem(map[], EmptyRing(), NULL, 0, pos, false, [], map[]),
          None, calls, map t | t in calls :: Start, [], [], [], Sys(Log([], []), pos))
  }
}
