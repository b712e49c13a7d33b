/** What holds at every step of Interleaving.dfy, and that each step keeps it.

    Between acquiring and releasing the lock the device does not represent any Log: the partial
    pointer may name a block that krealloc already released, or a block the ring already owns.
    CsAt says, step by step, what still holds then; no other thread is in a position to look. */
module Linearizability {
  import opened Bytes
  import opened CircularBuffers
  import opened DeviceSpec
  import opened Driver
  import opened Interleaving

  // ---------------------------------------------------------------------------------------
  // What a thread holds and knows

  function TmpOf(pc: Pc): Ptr {
    match pc
    case WCopyIn(tmp) => tmp
    case WWant(tmp) => tmp
    case WAbort(tmp, _) => tmp
    case WLocked(tmp) => tmp
    case WResized(tmp, _) => tmp
    case WMerged(tmp, _) => tmp
    case Unlock(_, tmp) => tmp
    case WLate(tmp, _) => tmp
    case _ => NULL
  }

  function GrowOf(pc: Pc): Ptr {
    match pc
    case WResized(_, combined) => combined
    case WMerged(_, combined) => combined
    case WOwns(combined, _) => combined
    case _ => NULL
  }

  /** The temporary block already holds the user's bytes. */
  predicate Filled(pc: Pc) {
    pc.WWant? || pc.WLocked? || pc.WResized? || pc.WMerged?
  }

  /** How a call ends that never gets the lock. */
  function Early(c: Call): Option<Outcome> {
    match c
    case Write(_, data, kmallocOk, copyOk, lockOk, _) =>
      if data == [] then Some(Outcome(-EINVAL, []))
      else if !kmallocOk then Some(Outcome(-ENOMEM, []))
      else if !copyOk then Some(Outcome(-EFAULT, []))
      else if !lockOk then Some(Outcome(-ERESTARTSYS, []))
      else None
    case Read(_, count, lockOk, _) =>
      if count == 0 then Some(Outcome(-EINVAL, []))
      else if !lockOk then Some(Outcome(-ERESTARTSYS, []))
      else None
    case Llseek(_, _, _) => None
    case Ioctl(_, known, copyOk, _, _) =>
      if !known then Some(Outcome(-ENOTTY, []))
      else if !copyOk then Some(Outcome(-EFAULT, []))
      else None
  }

  /** Such a call, run alone, does nothing and ends the same way, whatever state it meets. */
  lemma EarlyIsNoEffect(s: Sys, c: Call)
    requires c.h in s.pos && 0 <= s.pos[c.h] && Early(c).Some?
    ensures Do(s, c) == (s, Early(c).value)
  {
    assert s.pos[c.h := s.pos[c.h]] == s.pos;
  }

  /** The step a thread is at belongs to its call, and its checks so far passed. */
  predicate Fits(c: Call, pc: Pc) {
    match pc
    case Start => true
    case WCopyIn(tmp) => c.Write? && tmp != NULL && c.data != [] && c.kmallocOk
    case WWant(tmp) => c.Write? && tmp != NULL && c.data != [] && c.kmallocOk && c.copyOk
    case WAbort(tmp, ret) => c.Write? && tmp != NULL && Early(c) == Some(Outcome(ret, []))
    case WLate(tmp, o) => c.Write? && tmp != NULL
    case RWant => c.Read? && c.count != 0
    case IWant => c.Ioctl? && Early(c) == None
    case Done(o) => true
    case Unlock(o, tmp) => Early(c) == None && (tmp != NULL ==> c.Write?)
    case WLocked(tmp) => c.Write? && Early(c) == None && tmp != NULL
    case WResized(tmp, combined) => c.Write? && Early(c) == None && tmp != NULL && combined != NULL
    case WMerged(tmp, combined) => c.Write? && Early(c) == None && tmp != NULL && combined != NULL
    case WOwns(combined, _) => c.Write? && Early(c) == None && combined != NULL
    case WAdded => c.Write? && Early(c) == None
    case WCleared => c.Write? && Early(c) == None
    case WSaved(_) => c.Write? && Early(c) == None
    case RLoop(_, _) => c.Read? && Early(c) == None
    case RFound(_, _, _) => c.Read? && Early(c) == None
    case RCopied(_, _, _) => c.Read? && Early(c) == None
    case SSum(_, _) => c.Llseek?
    case ICheck => c.Ioctl? && Early(c) == None
    case ISum(_, _) => c.Ioctl? && Early(c) == None
  }

  ghost predicate Holds(m: Mem, t: Tid, c: Call, pc: Pc) {
    && (TmpOf(pc) != NULL ==>
          && TmpOf(pc) in m.owner && m.owner[TmpOf(pc)] == Tmp(t)
          && TmpOf(pc) in m.heap && c.Write? && |m.heap[TmpOf(pc)]| == |c.data|
          && (Filled(pc) ==> m.heap[TmpOf(pc)] == c.data))
    && (GrowOf(pc) != NULL ==> GrowOf(pc) in m.owner && m.owner[GrowOf(pc)] == Growing(t))
  }

  /** The thread can name every block it answers for. */
  ghost predicate Mine(m: Mem, t: Tid, pc: Pc) {
    forall p :: p in m.owner ==>
      (m.owner[p] == Tmp(t) ==> TmpOf(pc) == p) && (m.owner[p] == Growing(t) ==> GrowOf(pc) == p)
  }

  /** The ring's closed form, and who owns which block. */
  ghost predicate MemOk(m: Mem) {
    && RingOf(m.ring, m.hist) && !m.broken
    && m.heap.Keys == m.owner.Keys && NULL !in m.heap
    && (forall k :: 0 <= k < |m.hist| ==>
          m.hist[k].buffptr in m.owner && m.owner[m.hist[k].buffptr] == Committed(k))
    && (forall p :: p in m.owner && m.owner[p] == PartialBlock ==> m.partialWrite == p)
    && (forall p :: p in m.owner && m.owner[p].Committed? ==>
          m.owner[p].k < |m.hist| && m.hist[m.owner[p].k].buffptr == p)
    && (forall h :: h in m.pos ==> 0 <= m.pos[h])
  }

  ghost predicate Ctx(m: Mem, t: Tid, c: Call, pc: Pc) {
    MemOk(m) && c.h in m.pos && Fits(c, pc) && Holds(m, t, c, pc) && Mine(m, t, pc)
  }

  // ---------------------------------------------------------------------------------------
  // What memory represents

  ghost predicate PartialRep(m: Mem, partial: Text) {
    && PartialHolds(m.heap, m.partialWrite, m.partialSize, partial)
    && (m.partialWrite != NULL ==> m.partialWrite in m.owner && m.owner[m.partialWrite] == PartialBlock)
  }

  /** Memory represents s.  True whenever the lock is free. */
  ghost predicate Rep(m: Mem, s: Sys) {
    BlocksHold(m.heap, m.hist, s.log.messages) && PartialRep(m, s.log.partial) && m.pos == s.pos
  }

  ghost predicate NoPartialBlock(m: Mem) {
    forall p :: p in m.owner ==> m.owner[p] != PartialBlock
  }

  /** Memory represents all of s but its partial write, which is in the thread's hands. */
  ghost predicate MidWrite(m: Mem, s: Sys) {
    BlocksHold(m.heap, m.hist, s.log.messages) && m.pos == s.pos && NoPartialBlock(m)
  }

  /** A read in progress: got is copied out, and the rest of the pieces is still to come. */
  ghost predicate MidRead(m: Mem, s: Sys, c: Call, got: seq<Text>, remaining: nat)
    requires c.Read? && c.h in m.pos
  {
    && BlocksHold(m.heap, m.hist, s.log.messages)
    && PartialRep(m, s.log.partial)
    && c.h in s.pos && 0 <= s.pos[c.h] <= m.pos[c.h] == s.pos[c.h] + |Flatten(got)|
    && m.pos == s.pos[c.h := m.pos[c.h]]
    && Pieces(Stored(s.log), s.pos[c.h], c.count) == got + Pieces(Stored(s.log), m.pos[c.h], remaining)
    && (c.faultAt.Some? ==> |got| <= c.faultAt.value)
  }

  /** What holds inside the critical section, step by step; s is what memory represented when
      the lock was taken. */
  ghost predicate CsAt(m: Mem, s: Sys, c: Call, pc: Pc)
    requires Shape(m.ring) && c.h in m.pos && c.h in s.pos && Fits(c, pc)
  {
    match pc
    case WLocked(tmp) => Rep(m, s)
    case WResized(tmp, combined) =>
      && MidWrite(m, s) && s.log.partial != [] && c.kreallocOk && m.partialSize == |s.log.partial|
      && combined in m.heap && |m.heap[combined]| == m.partialSize + |c.data|
      && m.heap[combined][..m.partialSize] == s.log.partial
    case WMerged(tmp, combined) =>
      && MidWrite(m, s) && s.log.partial != [] && c.kreallocOk && m.partialSize == |s.log.partial|
      && combined in m.heap && m.heap[combined] == s.log.partial + c.data
    case WOwns(combined, size) =>
      && MidWrite(m, s) && (s.log.partial != [] ==> c.kreallocOk)
      && combined in m.heap && m.heap[combined] == s.log.partial + c.data && size == |s.log.partial + c.data|
    case WAdded =>
      && HasNewline(c.data) && (s.log.partial != [] ==> c.kreallocOk)
      && MidWrite(m, s.(log := Accept(s.log, c.data)))
    case WCleared =>
      && HasNewline(c.data) && (s.log.partial != [] ==> c.kreallocOk)
      && MidWrite(m, s.(log := Accept(s.log, c.data))) && m.partialWrite == NULL
    case WSaved(size) =>
      && !HasNewline(c.data) && (s.log.partial != [] ==> c.kreallocOk)
      && BlocksHold(m.heap, m.hist, s.log.messages) && m.pos == s.pos
      && m.partialWrite != NULL && m.partialWrite in m.owner && m.owner[m.partialWrite] == PartialBlock
      && m.partialWrite in m.heap && m.heap[m.partialWrite] == s.log.partial + c.data
      && size == |s.log.partial + c.data|
    case RLoop(got, remaining) => MidRead(m, s, c, got, remaining)
    case RFound(got, remaining, hit) =>
      MidRead(m, s, c, got, remaining) && 0 < remaining && Search(m.ring, m.pos[c.h]) == Some(hit)
    case RCopied(got, remaining, piece) =>
      && MidRead(m, s, c, got, remaining) && NextPieceIs(Stored(s.log), m.pos[c.h], remaining, piece)
      && c.faultAt != Some(|got|)
    case SSum(index, total) => Rep(m, s) && index <= N && total == SizeSum(m.ring.entry[..index])
    case ICheck => Rep(m, s)
    case ISum(index, total) =>
      && Rep(m, s) && SeekPos(Stored(s.log), c.writeCmd, c.writeCmdOffset).Some?
      && index <= c.writeCmd && total == |Flatten(Stored(s.log)[..index])|
    case Unlock(o, tmp) => Rep(m, Do(s, c).0) && o == Do(s, c).1
    case _ => false
  }

  // ---------------------------------------------------------------------------------------
  // What a step of one thread leaves alone

  ghost predicate Kept(m: Mem, m': Mem, p: Ptr) {
    && p in m.owner && p in m.heap
    && p in m'.owner && m'.owner[p] == m.owner[p]
    && p in m'.heap && m'.heap[p] == m.heap[p]
  }

  predicate HeldByOther(o: Owner, t: Tid) {
    match o
    case Tmp(u) => u != t
    case Growing(u) => u != t
    case PartialBlock => false
    case Committed(_) => false
  }

  /** A step of t from m to m', arriving at pc: t is in order, and no one else is touched. */
  ghost predicate After(m: Mem, m': Mem, t: Tid, c: Call, pc: Pc) {
    && Ctx(m', t, c, pc) && m'.pos.Keys == m.pos.Keys
    && (forall p :: p in m.owner && HeldByOther(m.owner[p], t) ==> Kept(m, m', p))
    && (forall p :: p in m'.owner && HeldByOther(m'.owner[p], t) ==> p in m.owner && m'.owner[p] == m.owner[p])
  }

  lemma StayAfter(m: Mem, t: Tid, c: Call, pc: Pc, pc': Pc)
    requires Ctx(m, t, c, pc) && Fits(c, pc')
    requires TmpOf(pc') == TmpOf(pc) && GrowOf(pc') == GrowOf(pc) && (Filled(pc') ==> Filled(pc))
    ensures After(m, m, t, c, pc')
  {
  }

  lemma QuietAfter(m: Mem, m': Mem, t: Tid, c: Call, pc: Pc, pc': Pc)
    requires Ctx(m, t, c, pc) && Fits(c, pc')
    requires m' == m.(pos := m'.pos, partialSize := m'.partialSize)
    requires m'.pos.Keys == m.pos.Keys && forall h :: h in m'.pos ==> 0 <= m'.pos[h]
    requires TmpOf(pc') == TmpOf(pc) && GrowOf(pc') == GrowOf(pc) && !Filled(pc')
    ensures After(m, m', t, c, pc')
  {
    QuietMemOk(m, m');
    QuietHolds(m, m', t, c, pc, pc');
  }

  lemma QuietHolds(m: Mem, m': Mem, t: Tid, c: Call, pc: Pc, pc': Pc)
    requires Holds(m, t, c, pc) && Mine(m, t, pc) && m'.heap == m.heap && m'.owner == m.owner
    requires TmpOf(pc') == TmpOf(pc) && GrowOf(pc') == GrowOf(pc) && !Filled(pc')
    ensures Holds(m', t, c, pc') && Mine(m', t, pc')
  {
  }

  lemma QuietMemOk(m: Mem, m': Mem)
    requires MemOk(m) && m' == m.(pos := m'.pos, partialSize := m'.partialSize)
    requires forall h :: h in m'.pos ==> 0 <= m'.pos[h]
    ensures MemOk(m')
  {
  }

  // ---------------------------------------------------------------------------------------
  // Steps outside the critical section

  /** A step that touches nothing but the thread's own temporary block. */
  ghost predicate Private(m: Mem, m': Mem, t: Tid) {
    && m' == m.(heap := m'.heap, owner := m'.owner)
    && (forall p :: p in m.owner && m.owner[p] != Tmp(t) ==> Kept(m, m', p))
    && (forall p :: p in m'.owner && m'.owner[p] != Tmp(t) ==> p in m.owner && m'.owner[p] == m.owner[p])
  }

  ghost predicate PrivateTo(m: Mem, t: Tid, c: Call, mp: (Mem, Pc)) {
    Private(m, mp.0, t) && After(m, mp.0, t, c, mp.1)
  }

  lemma StayIsPrivate(m: Mem, t: Tid, c: Call, pc: Pc, pc': Pc)
    requires Ctx(m, t, c, pc) && Fits(c, pc')
    requires TmpOf(pc') == TmpOf(pc) && GrowOf(pc') == GrowOf(pc) && (Filled(pc') ==> Filled(pc))
    ensures PrivateTo(m, t, c, (m, pc'))
  {
    StayAfter(m, t, c, pc, pc');
  }

  lemma AllocMemOk(m: Mem, t: Tid, p: Ptr, junk: Text)
    requires MemOk(m) && p != NULL && p !in m.heap
    ensures MemOk(Alloc(m, p, junk, Tmp(t))) && Private(m, Alloc(m, p, junk, Tmp(t)), t)
  {
  }

  lemma AllocIsPrivate(m: Mem, t: Tid, c: Call, p: Ptr, junk: Text)
    requires Ctx(m, t, c, Start) && c.Write? && c.data != [] && c.kmallocOk
    requires p != NULL && p !in m.heap && |junk| == |c.data|
    ensures PrivateTo(m, t, c, (Alloc(m, p, junk, Tmp(t)), WCopyIn(p)))
  {
    AllocMemOk(m, t, p, junk);
  }

  lemma WriteBeginIsPrivate(m: Mem, e: Event, c: Call)
    requires Ctx(m, e.t, c, Start) && c.Write?
    ensures PrivateTo(m, e.t, c, WriteBegin(m, e, c))
  {
    var (m', pc') := WriteBegin(m, e, c);
    if pc'.WCopyIn? {
      AllocIsPrivate(m, e.t, c, e.ptr, e.junk);
    } else {
      StayIsPrivate(m, e.t, c, Start, pc');
    }
  }

  lemma CopyInIsPrivate(m: Mem, t: Tid, c: Call, tmp: Ptr)
    requires Ctx(m, t, c, WCopyIn(tmp)) && c.Write? && c.copyOk
    ensures PrivateTo(m, t, c, WriteOutside(m, c, WCopyIn(tmp)))
  {
  }

  lemma FreeMemOk(m: Mem, t: Tid, p: Ptr)
    requires MemOk(m) && p in m.owner && m.owner[p] == Tmp(t)
    ensures MemOk(Free(m, p)) && Private(m, Free(m, p), t)
  {
  }

  lemma FreeIsPrivate(m: Mem, t: Tid, c: Call, pc: Pc, o: Outcome)
    requires Ctx(m, t, c, pc) && (pc.WAbort? || pc.WLate?)
    ensures PrivateTo(m, t, c, (Free(m, pc.tmp), Done(o)))
  {
    FreeMemOk(m, t, pc.tmp);
  }

  lemma WriteOutsideIsPrivate(m: Mem, t: Tid, c: Call, pc: Pc)
    requires Ctx(m, t, c, pc) && c.Write? && WritesOutside(pc) && !Wants(c, pc)
    ensures PrivateTo(m, t, c, WriteOutside(m, c, pc))
  {
    match pc {
      case WCopyIn(tmp) =>
        if c.copyOk {
          CopyInIsPrivate(m, t, c, tmp);
        } else {
          StayIsPrivate(m, t, c, pc, WAbort(tmp, -EFAULT));
        }
      case WWant(tmp) => StayIsPrivate(m, t, c, pc, WAbort(tmp, -ERESTARTSYS));
      case WAbort(tmp, ret) => FreeIsPrivate(m, t, c, pc, Outcome(ret, []));
      case WLate(tmp, o) => FreeIsPrivate(m, t, c, pc, o);
    }
  }

  lemma {:induction false} OutsideIsPrivate(m: Mem, e: Event, c: Call, pc: Pc)
    requires Ctx(m, e.t, c, pc) && !InCs(pc) && !Wants(c, pc)
    ensures PrivateTo(m, e.t, c, Local(m, e, c, pc))
  {
    if c.Write? && WritesOutside(pc) {
      WriteOutsideIsPrivate(m, e.t, c, pc);
    } else if c.Write? && pc.Start? {
      WriteBeginIsPrivate(m, e, c);
    } else {
      StayIsPrivate(m, e.t, c, pc, Local(m, e, c, pc).1);
    }
  }

  /** The critical section of another thread does not notice a private step. */
  lemma PrivateKeepsBlocks(m: Mem, m': Mem, t: Tid, texts: seq<Text>)
    requires MemOk(m) && Private(m, m', t) && BlocksHold(m.heap, m.hist, texts)
    ensures BlocksHold(m'.heap, m'.hist, texts)
  {
    assert forall k :: 0 <= k < |m.hist| ==> Kept(m, m', m.hist[k].buffptr);
  }

  lemma PrivateKeepsRep(m: Mem, m': Mem, t: Tid, s: Sys)
    requires MemOk(m) && Private(m, m', t) && Rep(m, s)
    ensures Rep(m', s)
  {
    PrivateKeepsBlocks(m, m', t, s.log.messages);
    assert m.partialWrite != NULL ==> Kept(m, m', m.partialWrite);
  }

  lemma PrivateKeepsReader(m: Mem, m': Mem, t: Tid, s: Sys, c: Call, got: seq<Text>, remaining: nat)
    requires MemOk(m) && Private(m, m', t) && c.Read? && c.h in m.pos && MidRead(m, s, c, got, remaining)
    ensures MidRead(m', s, c, got, remaining)
  {
    PrivateKeepsBlocks(m, m', t, s.log.messages);
    assert m.partialWrite != NULL ==> Kept(m, m', m.partialWrite);
  }

  lemma PrivateKeepsWriter(m: Mem, m': Mem, t: Tid, u: Tid, s: Sys, c: Call, pc: Pc)
    requires MemOk(m) && Private(m, m', t) && u != t
    requires c.h in m.pos && c.h in s.pos && Fits(c, pc) && Holds(m, u, c, pc) && WritesHolding(pc) && CsAt(m, s, c, pc)
    ensures CsAt(m', s, c, pc)
  {
    assert GrowOf(pc) != NULL ==> Kept(m, m', GrowOf(pc));
    if pc.WAdded? || pc.WCleared? {
      PrivateKeepsBlocks(m, m', t, Accept(s.log, c.data).messages);
    } else {
      PrivateKeepsBlocks(m, m', t, s.log.messages);
      assert pc.WSaved? ==> Kept(m, m', m.partialWrite);
    }
  }

  lemma {:induction false} PrivateKeepsCs(m: Mem, m': Mem, t: Tid, u: Tid, s: Sys, c: Call, pc: Pc)
    requires MemOk(m) && Private(m, m', t) && u != t
    requires c.h in m.pos && c.h in s.pos && Fits(c, pc) && Holds(m, u, c, pc) && InCs(pc) && CsAt(m, s, c, pc)
    ensures CsAt(m', s, c, pc)
  {
    if WritesHolding(pc) {
      PrivateKeepsWriter(m, m', t, u, s, c, pc);
    } else if pc.RLoop? || pc.RFound? || pc.RCopied? {
      PrivateKeepsReader(m, m', t, s, c, pc.got, pc.remaining);
    } else {
      PrivateKeepsRep(m, m', t, if pc.Unlock? then Do(s, c).0 else s);
    }
  }

  // ---------------------------------------------------------------------------------------
  // Steps inside the critical section

  ghost predicate InsideTo(m: Mem, s: Sys, t: Tid, c: Call, mp: (Mem, Pc)) {
    After(m, mp.0, t, c, mp.1) && InCs(mp.1) && c.h in s.pos && CsAt(mp.0, s, c, mp.1)
  }

  // --- aesd_read

  lemma ReadEnds(s: Sys, c: Call, got: seq<Text>)
    requires c.Read? && c.h in s.pos && 0 <= s.pos[c.h] && Early(c) == None
    requires Pieces(Stored(s.log), s.pos[c.h], c.count) == got
    requires c.faultAt.Some? ==> |got| <= c.faultAt.value
    ensures Do(s, c) == (s.(pos := s.pos[c.h := s.pos[c.h] + |Flatten(got)|]), Outcome(|Flatten(got)|, Flatten(got)))
  {
  }

  lemma ReadFaults(s: Sys, c: Call, got: seq<Text>, rest: seq<Text>)
    requires c.Read? && c.h in s.pos && 0 <= s.pos[c.h] && Early(c) == None
    requires Pieces(Stored(s.log), s.pos[c.h], c.count) == got + rest && rest != []
    requires c.faultAt == Some(|got|)
    ensures Do(s, c) == (s.(pos := s.pos[c.h := s.pos[c.h] + |Flatten(got)|]), Outcome(-EFAULT, Flatten(got)))
  {
    assert (got + rest)[..|got|] == got;
  }

  /** If the read stopped here, memory would represent s with the position moved on. */
  lemma MidReadRep(m: Mem, s: Sys, c: Call, got: seq<Text>, remaining: nat)
    requires c.Read? && c.h in m.pos && MidRead(m, s, c, got, remaining)
    ensures Rep(m, s.(pos := s.pos[c.h := s.pos[c.h] + |Flatten(got)|]))
  {
  }

  lemma ReadLoopEnds(m: Mem, s: Sys, c: Call, got: seq<Text>, remaining: nat)
    requires RingOf(m.ring, m.hist) && c.Read? && c.h in m.pos && Early(c) == None && MidRead(m, s, c, got, remaining)
    requires remaining == 0 || Search(m.ring, m.pos[c.h]) == None
    ensures ReadLoop(m, c, got, remaining) == (m, Unlock(Outcome(|Flatten(got)|, Flatten(got)), NULL))
    ensures Rep(m, Do(s, c).0) && Do(s, c).1 == Outcome(|Flatten(got)|, Flatten(got))
  {
    if remaining > 0 {
      var _ := ReadTurn(m.ring, m.hist, m.heap, s.log, m.pos[c.h], remaining);
    }
    assert got + Pieces(Stored(s.log), m.pos[c.h], remaining) == got;
    ReadEnds(s, c, got);
    MidReadRep(m, s, c, got, remaining);
  }

  lemma ReadLoopStops(m: Mem, s: Sys, t: Tid, c: Call, got: seq<Text>, remaining: nat)
    requires Ctx(m, t, c, RLoop(got, remaining)) && c.h in s.pos && CsAt(m, s, c, RLoop(got, remaining))
    requires remaining == 0 || Search(m.ring, m.pos[c.h]) == None
    ensures InsideTo(m, s, t, c, ReadLoop(m, c, got, remaining))
  {
    ReadLoopEnds(m, s, c, got, remaining);
    StayAfter(m, t, c, RLoop(got, remaining), Unlock(Outcome(|Flatten(got)|, Flatten(got)), NULL));
  }

  lemma ReadLoopHit(m: Mem, s: Sys, c: Call, got: seq<Text>, remaining: nat, hit: Hit)
    requires RingOf(m.ring, m.hist) && BlocksHold(m.heap, m.hist, s.log.messages)
    requires c.Read? && c.h in m.pos && 0 <= m.pos[c.h] && 0 < remaining && Search(m.ring, m.pos[c.h]) == Some(hit)
    ensures ReadLoop(m, c, got, remaining) == (m, RFound(got, remaining, hit))
  {
    var _ := ReadTurn(m.ring, m.hist, m.heap, s.log, m.pos[c.h], remaining);
  }

  lemma ReadLoopInside(m: Mem, s: Sys, t: Tid, c: Call, got: seq<Text>, remaining: nat)
    requires Ctx(m, t, c, RLoop(got, remaining)) && c.h in s.pos && CsAt(m, s, c, RLoop(got, remaining))
    ensures InsideTo(m, s, t, c, ReadLoop(m, c, got, remaining))
  {
    if remaining == 0 || Search(m.ring, m.pos[c.h]) == None {
      ReadLoopStops(m, s, t, c, got, remaining);
    } else {
      var hit := Search(m.ring, m.pos[c.h]).value;
      ReadLoopHit(m, s, c, got, remaining, hit);
      StayAfter(m, t, c, RLoop(got, remaining), RFound(got, remaining, hit));
    }
  }

  lemma ReadFoundHit(m: Mem, c: Call, got: seq<Text>, remaining: nat, hit: Hit, block: Text)
    requires c.Read? && Shape(m.ring) && HitBlock(m.ring, m.heap, hit, block) && c.faultAt != Some(|got|)
    ensures ReadFound(m, c, got, remaining, hit) == (m, RCopied(got, remaining, PieceOf(block, hit.offset, remaining)))
  {
  }

  lemma ReadFoundCopies(m: Mem, s: Sys, c: Call, got: seq<Text>, remaining: nat, hit: Hit) returns (piece: Text)
    requires RingOf(m.ring, m.hist) && BlocksHold(m.heap, m.hist, s.log.messages)
    requires c.Read? && c.h in m.pos && 0 <= m.pos[c.h] && 0 < remaining && Search(m.ring, m.pos[c.h]) == Some(hit)
    ensures NextPieceIs(Stored(s.log), m.pos[c.h], remaining, piece)
    ensures c.faultAt != Some(|got|) ==> ReadFound(m, c, got, remaining, hit) == (m, RCopied(got, remaining, piece))
  {
    var block := ReadTurn(m.ring, m.hist, m.heap, s.log, m.pos[c.h], remaining);
    piece := PieceOf(block, hit.offset, remaining);
    if c.faultAt != Some(|got|) {
      ReadFoundHit(m, c, got, remaining, hit, block);
    }
  }

  lemma ReadFoundFaults(m: Mem, s: Sys, c: Call, got: seq<Text>, remaining: nat, rest: seq<Text>)
    requires c.Read? && c.h in m.pos && Early(c) == None && MidRead(m, s, c, got, remaining)
    requires rest == Pieces(Stored(s.log), m.pos[c.h], remaining) && rest != [] && c.faultAt == Some(|got|)
    ensures Rep(m, Do(s, c).0) && Do(s, c).1 == Outcome(-EFAULT, Flatten(got))
  {
    ReadFaults(s, c, got, rest);
    MidReadRep(m, s, c, got, remaining);
  }

  lemma ReadFoundStops(m: Mem, s: Sys, t: Tid, c: Call, got: seq<Text>, remaining: nat, hit: Hit)
    requires Ctx(m, t, c, RFound(got, remaining, hit)) && c.h in s.pos && CsAt(m, s, c, RFound(got, remaining, hit))
    requires Pieces(Stored(s.log), m.pos[c.h], remaining) != [] && c.faultAt == Some(|got|)
    ensures InsideTo(m, s, t, c, ReadFound(m, c, got, remaining, hit))
  {
    ReadFoundFaults(m, s, c, got, remaining, Pieces(Stored(s.log), m.pos[c.h], remaining));
    StayAfter(m, t, c, RFound(got, remaining, hit), Unlock(Outcome(-EFAULT, Flatten(got)), NULL));
  }

  lemma ReadFoundGoesOn(m: Mem, s: Sys, t: Tid, c: Call, got: seq<Text>, remaining: nat, hit: Hit, piece: Text)
    requires Ctx(m, t, c, RFound(got, remaining, hit)) && c.h in s.pos && CsAt(m, s, c, RFound(got, remaining, hit))
    requires ReadFound(m, c, got, remaining, hit) == (m, RCopied(got, remaining, piece)) && c.faultAt != Some(|got|)
    requires NextPieceIs(Stored(s.log), m.pos[c.h], remaining, piece)
    ensures InsideTo(m, s, t, c, ReadFound(m, c, got, remaining, hit))
  {
    StayAfter(m, t, c, RFound(got, remaining, hit), RCopied(got, remaining, piece));
  }

  lemma ReadFoundInside(m: Mem, s: Sys, t: Tid, c: Call, got: seq<Text>, remaining: nat, hit: Hit)
    requires Ctx(m, t, c, RFound(got, remaining, hit)) && c.h in s.pos && CsAt(m, s, c, RFound(got, remaining, hit))
    ensures InsideTo(m, s, t, c, ReadFound(m, c, got, remaining, hit))
  {
    var piece := ReadFoundCopies(m, s, c, got, remaining, hit);
    if c.faultAt == Some(|got|) {
      ReadFoundStops(m, s, t, c, got, remaining, hit);
    } else {
      ReadFoundGoesOn(m, s, t, c, got, remaining, hit, piece);
    }
  }

  lemma ReadCopiedMoves(m: Mem, s: Sys, c: Call, got: seq<Text>, remaining: nat, piece: Text)
    requires c.Read? && c.h in m.pos && MidRead(m, s, c, got, remaining)
    requires NextPieceIs(Stored(s.log), m.pos[c.h], remaining, piece) && c.faultAt != Some(|got|)
    ensures MidRead(m.(pos := m.pos[c.h := m.pos[c.h] + |piece|]), s, c, got + [piece], remaining - |piece|)
  {
    FlattenSnoc(got, piece);
    MovePiece(Pieces(Stored(s.log), s.pos[c.h], c.count), got, piece,
              Pieces(Stored(s.log), m.pos[c.h] + |piece|, remaining - |piece|));
  }

  lemma ReadCopiedInside(m: Mem, s: Sys, t: Tid, c: Call, got: seq<Text>, remaining: nat, piece: Text)
    requires Ctx(m, t, c, RCopied(got, remaining, piece)) && c.h in s.pos && CsAt(m, s, c, RCopied(got, remaining, piece))
    ensures InsideTo(m, s, t, c, ReadCopied(m, c, got, remaining, piece))
  {
    var m', pc' := m.(pos := m.pos[c.h := m.pos[c.h] + |piece|]), RLoop(got + [piece], remaining - |piece|);
    assert ReadCopied(m, c, got, remaining, piece) == (m', pc');
    ReadCopiedMoves(m, s, c, got, remaining, piece);
    QuietAfter(m, m', t, c, RCopied(got, remaining, piece), pc');
  }

  // --- aesd_llseek and the ioctl

  lemma SeekTotal(m: Mem, s: Sys, total: nat)
    requires RingOf(m.ring, m.hist) && Rep(m, s) && total == SizeSum(m.ring.entry)
    ensures total == |Contents(s.log)|
  {
    PhysicalSumIsLogicalSum(m.ring, m.hist);
    LiveHoldsStored(m.ring, m.hist, m.heap, s.log);
  }

  lemma SeekSumInside(m: Mem, s: Sys, t: Tid, c: Call, index: nat, total: nat)
    requires Ctx(m, t, c, SSum(index, total)) && c.h in s.pos && CsAt(m, s, c, SSum(index, total))
    ensures InsideTo(m, s, t, c, SeekSum(m, c, index, total))
  {
    if index < N {
      SizeSumStep(m.ring.entry, index);
      StayAfter(m, t, c, SSum(index, total), SSum(index + 1, total + m.ring.entry[index].size));
    } else {
      assert m.ring.entry[..index] == m.ring.entry;
      SeekTotal(m, s, total);
      SeekDecides(m, s, t, c, total);
    }
  }

  lemma SeekDecides(m: Mem, s: Sys, t: Tid, c: Call, total: nat)
    requires Ctx(m, t, c, SSum(N, total)) && c.h in s.pos && Rep(m, s) && total == |Contents(s.log)|
    ensures InsideTo(m, s, t, c, SeekSum(m, c, N, total))
  {
    match SeekTarget(total, m.pos[c.h], c.offset, c.whence) {
      case None =>
        StayAfter(m, t, c, SSum(N, total), Unlock(Outcome(-EINVAL, []), NULL));
      case Some(target) =>
        var m', pc' := m.(pos := m.pos[c.h := target]), Unlock(Outcome(target, []), NULL);
        assert SeekSum(m, c, N, total) == (m', pc');
        QuietAfter(m, m', t, c, SSum(N, total), pc');
        MovedRep(m, s, c.h, target);
        assert Do(s, c) == (s.(pos := s.pos[c.h := target]), Outcome(target, []));
    }
  }

  lemma IoctlCheckDecides(m: Mem, s: Sys, c: Call)
    requires RingOf(m.ring, m.hist) && c.Ioctl? && BlocksHold(m.heap, m.hist, s.log.messages)
    ensures IoctlCheck(m, c) == (m, if SeekPos(Stored(s.log), c.writeCmd, c.writeCmdOffset) == None
                                    then Unlock(Outcome(-EINVAL, []), NULL) else ISum(0, 0))
  {
    IoctlChecks(m.ring, m.hist, m.heap, s.log, c.writeCmd);
  }

  lemma IoctlCheckInside(m: Mem, s: Sys, t: Tid, c: Call)
    requires Ctx(m, t, c, ICheck) && c.h in s.pos && CsAt(m, s, c, ICheck)
    ensures InsideTo(m, s, t, c, IoctlCheck(m, c))
  {
    var pc' := IoctlCheck(m, c).1;
    IoctlCheckDecides(m, s, c);
    StayAfter(m, t, c, ICheck, pc');
    assert Stored(s.log)[..0] == [];
  }

  lemma IoctlAddsNext(m: Mem, s: Sys, c: Call, index: nat, total: nat)
    requires RingOf(m.ring, m.hist) && BlocksHold(m.heap, m.hist, s.log.messages) && c.Ioctl? && c.h in m.pos
    requires index < c.writeCmd < |Stored(s.log)| <= N && total == |Flatten(Stored(s.log)[..index])|
    ensures IoctlSum(m, c, index, total) == (m, ISum(index + 1, |Flatten(Stored(s.log)[..index + 1])|))
  {
    OffsetStep(m.ring, m.hist, m.heap, s.log, index);
  }

  lemma IoctlAddsInside(m: Mem, s: Sys, t: Tid, c: Call, index: nat, total: nat)
    requires Ctx(m, t, c, ISum(index, total)) && c.h in s.pos && CsAt(m, s, c, ISum(index, total))
    requires index < c.writeCmd < |Stored(s.log)| <= N
    ensures InsideTo(m, s, t, c, IoctlSum(m, c, index, total))
  {
    IoctlAddsNext(m, s, c, index, total);
    StayAfter(m, t, c, ISum(index, total), ISum(index + 1, |Flatten(Stored(s.log)[..index + 1])|));
  }

  lemma MovedRep(m: Mem, s: Sys, h: Handle, p: nat)
    requires Rep(m, s) && h in m.pos
    ensures Rep(m.(pos := m.pos[h := p]), s.(pos := s.pos[h := p]))
  {
  }

  lemma IoctlDoes(m: Mem, s: Sys, c: Call, total: nat)
    requires c.Ioctl? && Early(c) == None && Shape(m.ring) && c.h in m.pos && c.h in s.pos && c.writeCmd < N
    requires SeekPos(Stored(s.log), c.writeCmd, c.writeCmdOffset) == Some(total + c.writeCmdOffset)
    ensures var p := total + c.writeCmdOffset;
            && IoctlSum(m, c, c.writeCmd, total) == (m.(pos := m.pos[c.h := p]), Unlock(Outcome(0, []), NULL))
            && Do(s, c) == (s.(pos := s.pos[c.h := p]), Outcome(0, []))
  {
  }

  lemma IoctlMovesInside(m: Mem, s: Sys, t: Tid, c: Call, total: nat)
    requires c.Ioctl? && Ctx(m, t, c, ISum(c.writeCmd, total)) && c.h in s.pos && Rep(m, s)
    requires SeekPos(Stored(s.log), c.writeCmd, c.writeCmdOffset) == Some(total + c.writeCmdOffset) && c.writeCmd < N
    ensures InsideTo(m, s, t, c, IoctlSum(m, c, c.writeCmd, total))
  {
    var p := total + c.writeCmdOffset;
    var m', pc' := m.(pos := m.pos[c.h := p]), Unlock(Outcome(0, []), NULL);
    IoctlDoes(m, s, c, total);
    QuietAfter(m, m', t, c, ISum(c.writeCmd, total), pc');
    MovedRep(m, s, c.h, p);
  }

  lemma IoctlSumInside(m: Mem, s: Sys, t: Tid, c: Call, index: nat, total: nat)
    requires Ctx(m, t, c, ISum(index, total)) && c.h in s.pos && CsAt(m, s, c, ISum(index, total))
    ensures c.writeCmd < N && InsideTo(m, s, t, c, IoctlSum(m, c, index, total))
  {
    SeekPosIs(Stored(s.log), c.writeCmd, c.writeCmdOffset);
    assert |Stored(s.log)| <= N;
    assert index == c.writeCmd ==> total == |Flatten(Stored(s.log)[..c.writeCmd])|;
    if index < c.writeCmd {
      IoctlAddsInside(m, s, t, c, index, total);
    } else {
      IoctlMovesInside(m, s, t, c, total);
    }
  }

  // --- aesd_write

  lemma AddBlockMemOk(m: Mem, p: Ptr, size: nat)
    requires MemOk(m) && p in m.owner && (m.owner[p].Tmp? || m.owner[p].Growing?)
    ensures MemOk(AddBlock(m, p, size))
  {
    AddKeepsClosedForm(m.ring, m.hist, Entry(p, size));
  }

  lemma AddBlockAfter(m: Mem, t: Tid, c: Call, pc: Pc, p: Ptr, size: nat, pc': Pc)
    requires Ctx(m, t, c, pc) && Fits(c, pc') && TmpOf(pc') == GrowOf(pc') == NULL
    requires p != NULL && {TmpOf(pc), GrowOf(pc)} == {p, NULL}
    ensures After(m, AddBlock(m, p, size), t, c, pc')
  {
    AddBlockMemOk(m, p, size);
  }

  /** A block that was not yet the ring's becomes the newest message. */
  lemma AddBlockHolds(m: Mem, p: Ptr, texts: seq<Text>)
    requires MemOk(m) && BlocksHold(m.heap, m.hist, texts) && p in m.heap && m.heap[p] != []
    ensures BlocksHold(m.heap, AddBlock(m, p, |m.heap[p]|).hist, texts + [m.heap[p]])
  {
  }

  lemma CommitDirectly(m: Mem, s: Sys, t: Tid, c: Call, tmp: Ptr)
    requires Ctx(m, t, c, WLocked(tmp)) && c.h in s.pos && Rep(m, s) && m.partialWrite == NULL && HasNewline(c.data)
    ensures InsideTo(m, s, t, c, (AddBlock(m, tmp, |c.data|), Unlock(Outcome(|c.data|, []), NULL)))
  {
    AddBlockAfter(m, t, c, WLocked(tmp), tmp, |c.data|, Unlock(Outcome(|c.data|, []), NULL));
    AddBlockHolds(m, tmp, s.log.messages);
    assert s.log.partial + c.data == c.data;
    assert Rep(AddBlock(m, tmp, |c.data|), DoWrite(s, c).0);
  }

  lemma KeepTmp(m: Mem, s: Sys, t: Tid, c: Call, tmp: Ptr)
    requires Ctx(m, t, c, WLocked(tmp)) && c.h in s.pos && Rep(m, s) && m.partialWrite == NULL
    ensures InsideTo(m, s, t, c, (m.(owner := m.owner[tmp := Growing(t)]), WOwns(tmp, |c.data|)))
  {
    assert s.log.partial + c.data == c.data;
  }

  lemma ReallocFails(m: Mem, s: Sys, t: Tid, c: Call, tmp: Ptr)
    requires Ctx(m, t, c, WLocked(tmp)) && c.h in s.pos && Rep(m, s) && m.partialWrite != NULL && !c.kreallocOk
    ensures InsideTo(m, s, t, c, (m, Unlock(Outcome(-ENOMEM, []), tmp)))
  {
    StayAfter(m, t, c, WLocked(tmp), Unlock(Outcome(-ENOMEM, []), tmp));
    assert Do(s, c) == (s, Outcome(-ENOMEM, []));
  }

  /** What krealloc may answer: the block grown in place, or a fresh one. */
  ghost predicate ReallocAnswer(m: Mem, c: Call, q: Ptr, junk: Text)
    requires c.Write?
  {
    && m.partialWrite in m.heap && q != NULL && (q == m.partialWrite || q !in m.heap)
    && |m.heap[m.partialWrite] + junk| == m.partialSize + |c.data|
  }

  function Realloc(m: Mem, t: Tid, q: Ptr, junk: Text): Mem
    requires m.partialWrite in m.heap
  {
    Alloc(Free(m, m.partialWrite), q, m.heap[m.partialWrite] + junk, Growing(t))
  }

  lemma ReallocMemOk(m: Mem, t: Tid, q: Ptr, junk: Text)
    requires MemOk(m) && m.partialWrite in m.owner && m.owner[m.partialWrite] == PartialBlock
    requires q != NULL && (q == m.partialWrite || q !in m.heap)
    ensures MemOk(Realloc(m, t, q, junk))
  {
  }

  lemma ReallocAfter(m: Mem, s: Sys, t: Tid, c: Call, tmp: Ptr, q: Ptr, junk: Text)
    requires c.Write? && Ctx(m, t, c, WLocked(tmp)) && Rep(m, s) && m.partialWrite != NULL
    requires ReallocAnswer(m, c, q, junk)
    ensures After(m, Realloc(m, t, q, junk), t, c, WResized(tmp, q))
  {
    ReallocMemOk(m, t, q, junk);
  }

  lemma ReallocRep(m: Mem, s: Sys, t: Tid, c: Call, q: Ptr, junk: Text)
    requires c.Write? && MemOk(m) && Rep(m, s) && m.partialWrite != NULL && ReallocAnswer(m, c, q, junk)
    requires forall p :: p in m.owner && m.owner[p] == PartialBlock ==> p == m.partialWrite
    ensures var m' := Realloc(m, t, q, junk);
            && MidWrite(m', s) && s.log.partial != [] && m'.partialSize == |s.log.partial|
            && q in m'.heap && |m'.heap[q]| == m'.partialSize + |c.data| && m'.heap[q][..m'.partialSize] == s.log.partial
  {
    assert forall k :: 0 <= k < |m.hist| ==> m.hist[k].buffptr != m.partialWrite && m.hist[k].buffptr != q;
  }

  lemma ReallocMoves(m: Mem, s: Sys, t: Tid, c: Call, tmp: Ptr, q: Ptr, junk: Text)
    requires c.Write? && Ctx(m, t, c, WLocked(tmp)) && c.h in s.pos && Rep(m, s) && m.partialWrite != NULL && c.kreallocOk
    requires ReallocAnswer(m, c, q, junk)
    ensures InsideTo(m, s, t, c, (Realloc(m, t, q, junk), WResized(tmp, q)))
  {
    ReallocAfter(m, s, t, c, tmp, q, junk);
    ReallocRep(m, s, t, c, q, junk);
  }

  lemma {:induction false} WriteLockedInside(m: Mem, s: Sys, e: Event, c: Call, tmp: Ptr)
    requires c.Write? && Ctx(m, e.t, c, WLocked(tmp)) && c.h in s.pos && Rep(m, s)
    ensures InsideTo(m, s, e.t, c, WriteLocked(m, e, c, tmp))
  {
    if m.partialWrite == NULL {
      if HasNewline(c.data) {
        CommitDirectly(m, s, e.t, c, tmp);
      } else {
        KeepTmp(m, s, e.t, c, tmp);
      }
    } else if !c.kreallocOk {
      ReallocFails(m, s, e.t, c, tmp);
    } else if ReallocAnswer(m, c, e.ptr, e.junk) {
      ReallocMoves(m, s, e.t, c, tmp, e.ptr, e.junk);
    } else {
      StayAfter(m, e.t, c, WLocked(tmp), WLocked(tmp));
    }
  }

  lemma MemcpyWhole(m: Mem, dst: Ptr, src: Ptr, first: Text, data: Text)
    requires src in m.heap && m.heap[src] == data && dst in m.heap
    requires |m.heap[dst]| == |first| + |data| && m.heap[dst][..|first|] == first
    ensures Memcpy(m, dst, |first|, src) == m.(heap := m.heap[dst := first + data])
  {
    assert m.heap[dst][|first| + |data|..] == [];
    assert first + data + [] == first + data;
  }

  lemma MemcpyAfter(m: Mem, t: Tid, c: Call, tmp: Ptr, combined: Ptr, bytes: Text)
    requires c.Write? && Ctx(m, t, c, WResized(tmp, combined))
    ensures After(m, m.(heap := m.heap[combined := bytes]), t, c, WMerged(tmp, combined))
  {
  }

  lemma MemcpyInside(m: Mem, s: Sys, t: Tid, c: Call, tmp: Ptr, combined: Ptr)
    requires c.Write? && Ctx(m, t, c, WResized(tmp, combined)) && c.h in s.pos && CsAt(m, s, c, WResized(tmp, combined))
    ensures InsideTo(m, s, t, c, WriteHolding(m, c, WResized(tmp, combined)))
  {
    MemcpyWhole(m, combined, tmp, s.log.partial, c.data);
    MemcpyAfter(m, t, c, tmp, combined, s.log.partial + c.data);
    assert forall k :: 0 <= k < |m.hist| ==> m.hist[k].buffptr != combined;
  }

  lemma FreeTmpAfter(m: Mem, t: Tid, c: Call, tmp: Ptr, combined: Ptr, size: nat)
    requires c.Write? && Ctx(m, t, c, WMerged(tmp, combined))
    ensures After(m, Free(m, tmp), t, c, WOwns(combined, size))
  {
    FreeMemOk(m, t, tmp);
  }

  lemma FreeTmpInside(m: Mem, s: Sys, t: Tid, c: Call, tmp: Ptr, combined: Ptr)
    requires c.Write? && Ctx(m, t, c, WMerged(tmp, combined)) && c.h in s.pos && CsAt(m, s, c, WMerged(tmp, combined))
    ensures InsideTo(m, s, t, c, WriteHolding(m, c, WMerged(tmp, combined)))
  {
    FreeTmpAfter(m, t, c, tmp, combined, m.partialSize + |c.data|);
  }

  lemma CommitInside(m: Mem, s: Sys, t: Tid, c: Call, combined: Ptr, size: nat)
    requires c.Write? && Ctx(m, t, c, WOwns(combined, size)) && c.h in s.pos && CsAt(m, s, c, WOwns(combined, size))
    requires HasNewline(c.data)
    ensures InsideTo(m, s, t, c, (AddBlock(m, combined, size), WAdded))
  {
    AddBlockAfter(m, t, c, WOwns(combined, size), combined, size, WAdded);
    AddBlockHolds(m, combined, s.log.messages);
  }

  lemma SaveAfter(m: Mem, s: Sys, t: Tid, c: Call, combined: Ptr, size: nat)
    requires c.Write? && Ctx(m, t, c, WOwns(combined, size)) && MidWrite(m, s)
    ensures After(m, m.(partialWrite := combined, owner := m.owner[combined := PartialBlock]), t, c, WSaved(size))
  {
  }

  lemma SaveInside(m: Mem, s: Sys, t: Tid, c: Call, combined: Ptr, size: nat)
    requires c.Write? && Ctx(m, t, c, WOwns(combined, size)) && c.h in s.pos && CsAt(m, s, c, WOwns(combined, size))
    requires !HasNewline(c.data)
    ensures InsideTo(m, s, t, c, WriteHolding(m, c, WOwns(combined, size)))
  {
    SaveAfter(m, s, t, c, combined, size);
  }

  lemma ResetInside(m: Mem, s: Sys, t: Tid, c: Call)
    requires c.Write? && Ctx(m, t, c, WAdded) && c.h in s.pos && CsAt(m, s, c, WAdded)
    ensures InsideTo(m, s, t, c, WriteHolding(m, c, WAdded))
  {
    var m' := m.(partialWrite := NULL);
    assert After(m, m', t, c, WCleared);
  }

  lemma WonInside(m: Mem, s: Sys, t: Tid, c: Call, pc: Pc)
    requires c.Write? && Ctx(m, t, c, pc) && c.h in s.pos && (pc.WCleared? || pc.WSaved?) && CsAt(m, s, c, pc)
    ensures InsideTo(m, s, t, c, WriteHolding(m, c, pc))
  {
    var m' := m.(partialSize := if pc.WCleared? then 0 else pc.size);
    QuietAfter(m, m', t, c, pc, Unlock(Outcome(|c.data|, []), NULL));
    assert Rep(m', DoWrite(s, c).0);
  }

  lemma {:induction false} WriteHoldingInside(m: Mem, s: Sys, t: Tid, c: Call, pc: Pc)
    requires c.Write? && Ctx(m, t, c, pc) && c.h in s.pos && WritesHolding(pc) && CsAt(m, s, c, pc)
    ensures InsideTo(m, s, t, c, WriteHolding(m, c, pc))
  {
    match pc {
      case WResized(tmp, combined) => MemcpyInside(m, s, t, c, tmp, combined);
      case WMerged(tmp, combined) => FreeTmpInside(m, s, t, c, tmp, combined);
      case WOwns(combined, size) =>
        if HasNewline(c.data) {
          CommitInside(m, s, t, c, combined, size);
        } else {
          SaveInside(m, s, t, c, combined, size);
        }
      case WAdded => ResetInside(m, s, t, c);
      case WCleared => WonInside(m, s, t, c, pc);
      case WSaved(size) => WonInside(m, s, t, c, pc);
    }
  }

  lemma LocalReadInside(m: Mem, s: Sys, e: Event, c: Call, pc: Pc)
    requires Ctx(m, e.t, c, pc) && c.h in s.pos && (pc.RLoop? || pc.RFound? || pc.RCopied?) && CsAt(m, s, c, pc)
    ensures InsideTo(m, s, e.t, c, Local(m, e, c, pc))
  {
    match pc {
      case RLoop(got, remaining) => ReadLoopInside(m, s, e.t, c, got, remaining);
      case RFound(got, remaining, hit) => ReadFoundInside(m, s, e.t, c, got, remaining, hit);
      case RCopied(got, remaining, piece) => ReadCopiedInside(m, s, e.t, c, got, remaining, piece);
    }
  }

  lemma LocalSeekInside(m: Mem, s: Sys, e: Event, c: Call, pc: Pc)
    requires Ctx(m, e.t, c, pc) && c.h in s.pos && (pc.SSum? || pc.ICheck? || pc.ISum?) && CsAt(m, s, c, pc)
    ensures InsideTo(m, s, e.t, c, Local(m, e, c, pc))
  {
    match pc {
      case SSum(index, total) => SeekSumInside(m, s, e.t, c, index, total);
      case ICheck => IoctlCheckInside(m, s, e.t, c);
      case ISum(index, total) => IoctlSumInside(m, s, e.t, c, index, total);
    }
  }

  lemma LocalWriteInside(m: Mem, s: Sys, e: Event, c: Call, pc: Pc)
    requires Ctx(m, e.t, c, pc) && c.h in s.pos && (pc.WLocked? || WritesHolding(pc)) && CsAt(m, s, c, pc)
    ensures InsideTo(m, s, e.t, c, Local(m, e, c, pc))
  {
    if pc.WLocked? {
      WriteLockedInside(m, s, e, c, pc.tmp);
    } else {
      WriteHoldingInside(m, s, e.t, c, pc);
    }
  }

  /** Every step of the lock holder short of releasing the lock. */
  lemma {:induction false} LocalInside(m: Mem, s: Sys, e: Event, c: Call, pc: Pc)
    requires Ctx(m, e.t, c, pc) && c.h in s.pos && InCs(pc) && !pc.Unlock? && CsAt(m, s, c, pc)
    ensures InsideTo(m, s, e.t, c, Local(m, e, c, pc))
  {
    if c.Write? {
      LocalWriteInside(m, s, e, c, pc);
    } else if c.Read? {
      LocalReadInside(m, s, e, c, pc);
    } else {
      LocalSeekInside(m, s, e, c, pc);
    }
  }

  /** What the thread finds when it has just taken the lock. */
  lemma EnterInside(m: Mem, s: Sys, t: Tid, c: Call, pc: Pc)
    requires Ctx(m, t, c, pc) && c.h in s.pos && Wants(c, pc) && Rep(m, s)
    ensures InsideTo(m, s, t, c, (m, Enter(c, pc)))
  {
    StayAfter(m, t, c, pc, Enter(c, pc));
    assert m.ring.entry[..0] == [];
    if c.Read? {
      assert m.pos[c.h := m.pos[c.h]] == m.pos;
      var pieces := Pieces(Stored(s.log), m.pos[c.h], c.count);
      assert [] + pieces == pieces;
    }
  }
}