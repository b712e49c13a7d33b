/** What the device does, call by call, on byte strings alone: no ring, no heap, no lock.

    A Log is the whole accepted history of the device: every message ever committed, and the
    partial write.  The ring shows the last N messages of it.  Do is one system call; the class
    in Driver.dfy and the step machine in Interleaving.dfy are both proved against it. */
module DeviceSpec {
  import opened Bytes
  import opened CircularBuffers

  const EINVAL := 22
  const ENOMEM := 12
  const EFAULT := 14
  const ENOTTY := 25
  const ERESTARTSYS := 512

  datatype Log = Log(messages: seq<Text>, partial: Text)

  /** Messages the ring still holds, oldest first. */
  function Stored(log: Log): seq<Text> {
    LastN(log.messages, N)
  }

  function Contents(log: Log): Text {
    Flatten(Stored(log))
  }

  /** Messages the ring has overwritten, oldest first. */
  function Evicted(log: Log): seq<Text> {
    log.messages[..Oldest(|log.messages|)]
  }

  /** A write with a newline anywhere commits everything accumulated, itself included. */
  function Accept(log: Log, data: Text): Log {
    if HasNewline(data) then Log(log.messages + [log.partial + data], [])
    else Log(log.messages, log.partial + data)
  }

  /** The pieces a read copies out, one for each entry it touches. */
  function Pieces(texts: seq<Text>, p: nat, count: nat): (pieces: seq<Text>)
    decreases |texts|
  {
    if texts == [] || count == 0 then []
    else if |texts[0]| <= p then Pieces(texts[1..], p - |texts[0]|, count)
    else
      var piece := texts[0][p..Min(p + count, |texts[0]|)];
      [piece] + Pieces(texts[1..], 0, count - |piece|)
  }

  /** Position of byte off of message cmd, when there is such a byte. */
  function SeekPos(texts: seq<Text>, cmd: nat, off: nat): (p: Option<nat>)
    ensures p.Some? ==> p.value < |Flatten(texts)|
  {
    if cmd < |texts| && off < |texts[cmd]| then
      FlattenSplitAt(texts, cmd);
      Some(|Flatten(texts[..cmd])| + off)
    else None
  }

  // ---------------------------------------------------------------------------------------
  // System calls

  type Handle = nat

  datatype Whence = SeekSet | SeekCur | SeekEnd | OtherWhence

  /** A call with what the environment decides during it: which of the kernel's services fail,
      and which copy to the user, if any, faults. */
  datatype Call =
    | Write(h: Handle, data: Text, kmallocOk: bool, copyOk: bool, lockOk: bool, kreallocOk: bool)
    | Read(h: Handle, count: nat, lockOk: bool, faultAt: Option<nat>)
    | Llseek(h: Handle, offset: int, whence: Whence)
    | Ioctl(h: Handle, known: bool, copyOk: bool, writeCmd: nat, writeCmdOffset: nat)

  /** The returned number (negative for an error) and the bytes placed in the user's buffer. */
  datatype Outcome = Outcome(ret: int, bytes: Text)

  datatype Sys = Sys(log: Log, pos: map<Handle, int>)

  function WriteRet(log: Log, pos: int, c: Call): (ret: int)
    requires c.Write?
    ensures ret == |c.data| || ret < 0
  {
    if pos < 0 || c.data == [] then -EINVAL
    else if !c.kmallocOk then -ENOMEM
    else if !c.copyOk then -EFAULT
    else if !c.lockOk then -ERESTARTSYS
    else if log.partial != [] && !c.kreallocOk then -ENOMEM
    else |c.data|
  }

  function ReadPieces(texts: seq<Text>, pos: nat, count: nat, faultAt: Option<nat>): (got: seq<Text>) {
    var all := Pieces(texts, pos, count);
    if faultAt.Some? && faultAt.value < |all| then all[..faultAt.value] else all
  }

  function ReadOutcome(texts: seq<Text>, pos: int, c: Call): (o: Outcome)
    requires c.Read?
  {
    if pos < 0 || c.count == 0 then Outcome(-EINVAL, [])
    else if !c.lockOk then Outcome(-ERESTARTSYS, [])
    else
      var all := Pieces(texts, pos, c.count);
      var got := Flatten(ReadPieces(texts, pos, c.count, c.faultAt));
      Outcome(if c.faultAt.Some? && c.faultAt.value < |all| then -EFAULT else |got|, got)
  }

  function SeekTarget(total: nat, pos: int, offset: int, whence: Whence): Option<nat> {
    if whence == OtherWhence then None
    else
      var target := match whence
                    case SeekSet => offset
                    case SeekCur => pos + offset
                    case _ => total + offset;
      if 0 <= target <= total then Some(target) else None
  }

  function DoWrite(s: Sys, c: Call): (so: (Sys, Outcome))
    requires c.Write? && c.h in s.pos
    ensures so.0.pos == s.pos
  {
    var ret := WriteRet(s.log, s.pos[c.h], c);
    (if ret < 0 then s else s.(log := Accept(s.log, c.data)), Outcome(ret, []))
  }

  function DoRead(s: Sys, c: Call): (so: (Sys, Outcome))
    requires c.Read? && c.h in s.pos
    ensures so.0.log == s.log && so.0.pos.Keys == s.pos.Keys
  {
    var o := ReadOutcome(Stored(s.log), s.pos[c.h], c);
    (s.(pos := s.pos[c.h := s.pos[c.h] + |o.bytes|]), o)
  }

  function DoLlseek(s: Sys, c: Call): (so: (Sys, Outcome))
    requires c.Llseek? && c.h in s.pos
    ensures so.0.log == s.log && so.0.pos.Keys == s.pos.Keys
  {
    match SeekTarget(|Contents(s.log)|, s.pos[c.h], c.offset, c.whence)
    case None => (s, Outcome(-EINVAL, []))
    case Some(target) => (s.(pos := s.pos[c.h := target]), Outcome(target, []))
  }

  function DoIoctl(s: Sys, c: Call): (so: (Sys, Outcome))
    requires c.Ioctl? && c.h in s.pos
    ensures so.0.log == s.log && so.0.pos.Keys == s.pos.Keys
  {
    if !c.known then (s, Outcome(-ENOTTY, []))
    else if !c.copyOk then (s, Outcome(-EFAULT, []))
    else
      match SeekPos(Stored(s.log), c.writeCmd, c.writeCmdOffset)
      case None => (s, Outcome(-EINVAL, []))
      case Some(target) => (s.(pos := s.pos[c.h := target]), Outcome(0, []))
  }

  function Do(s: Sys, c: Call): (so: (Sys, Outcome))
    requires c.h in s.pos
    ensures so.0.pos.Keys == s.pos.Keys
  {
    match c
    case Write(_, _, _, _, _, _) => DoWrite(s, c)
    case Read(_, _, _, _) => DoRead(s, c)
    case Llseek(_, _, _) => DoLlseek(s, c)
    case Ioctl(_, _, _, _, _) => DoIoctl(s, c)
  }

  // ---------------------------------------------------------------------------------------
  // Reading is slicing

  lemma {:induction false} PiecesAreTheSlice(texts: seq<Text>, p: nat, count: nat)
    ensures Flatten(Pieces(texts, p, count)) == Slice(Flatten(texts), p, count)
    ensures forall i :: 0 <= i < |Pieces(texts, p, count)| ==> Pieces(texts, p, count)[i] != []
    ensures Pieces(texts, p, count) == [] <==> Slice(Flatten(texts), p, count) == []
  {
    if texts == [] || count == 0 {
    } else if |texts[0]| <= p {
      PiecesAreTheSlice(texts[1..], p - |texts[0]|, count);
      SliceOfConcat(texts[0], Flatten(texts[1..]), p, count);
    } else {
      var piece := texts[0][p..Min(p + count, |texts[0]|)];
      var rest := Pieces(texts[1..], 0, count - |piece|);
      PiecesAreTheSlice(texts[1..], 0, count - |piece|);
      assert ([piece] + rest)[1..] == rest;
      SliceOfConcat(texts[0], Flatten(texts[1..]), p, count);
    }
  }

  lemma SliceOfConcat(a: Text, b: Text, p: nat, count: nat)
    ensures |a| <= p ==> Slice(a + b, p, count) == Slice(b, p - |a|, count)
    ensures p < |a| ==>
              Slice(a + b, p, count) == a[p..Min(p + count, |a|)] + Slice(b, 0, count - (Min(p + count, |a|) - p))
  {
  }

  /** One turn of the read loop: with the position at byte o of entry i, the next piece is the
      rest of that entry or what is left of the count, whichever is shorter. */
  lemma {:induction false} PieceStep(texts: seq<Text>, i: nat, o: nat, count: nat)
    requires i < |texts| && o < |texts[i]| && 0 < count
    ensures var p, n := |Flatten(texts[..i])| + o, Min(count, |texts[i]| - o);
            Pieces(texts, p, count) == [texts[i][o..o + n]] + Pieces(texts, p + n, count - n)
  {
    var n := Min(count, |texts[i]| - o);
    if i == 0 {
      assert texts[..0] == [];
      if n < count {
        assert n == |texts[0]| - o;
      }
    } else {
      assert texts[..i][0] == texts[0] && texts[..i][1..] == texts[1..][..i - 1];
      PieceStep(texts[1..], i - 1, o, count);
    }
  }

  /** piece is what the next turn of a read at p copies, and the rest is still to come. */
  ghost predicate NextPieceIs(texts: seq<Text>, p: int, remaining: nat, piece: Text) {
    && 0 <= p && 0 < |piece| <= remaining
    && Pieces(texts, p, remaining) == [piece] + Pieces(texts, p + |piece|, remaining - |piece|)
  }

  lemma MovePiece<T>(all: seq<T>, done: seq<T>, piece: T, rest: seq<T>)
    requires all == done + ([piece] + rest)
    ensures all == (done + [piece]) + rest && |done| < |all| && all[..|done|] == done
  {
  }

  lemma PiecesAtEnd(texts: seq<Text>, p: nat, count: nat)
    requires |Flatten(texts)| <= p
    ensures Pieces(texts, p, count) == []
  {
    PiecesAreTheSlice(texts, p, count);
  }

  /** A read that meets no fault returns the slice of the contents at its position, as long as
      the contents allow, and moves the position by what it returned; a faulting read has moved
      past the pieces before the fault, which are a proper prefix of that slice. */
  lemma ReadIsSlice(s: Sys, c: Call)
    requires c.Read? && c.h in s.pos && 0 <= s.pos[c.h] && 0 < c.count && c.lockOk
    ensures var p, total := s.pos[c.h], |Contents(s.log)|;
            var (s', o) := Do(s, c);
            var whole := Slice(Contents(s.log), p, c.count);
            && s'.log == s.log && s'.pos == s.pos[c.h := p + |o.bytes|]
            && |whole| == Min(c.count, Max(0, total - p))
            && (o.ret != -EFAULT ==> o.bytes == whole && o.ret == |whole|)
            && (o.ret == -EFAULT ==> o.bytes < whole)
            && (o.ret == -EFAULT <==> c.faultAt.Some? && c.faultAt.value < |Pieces(Stored(s.log), p, c.count)|)
            && (o.ret == -EFAULT ==> o.bytes == Flatten(Pieces(Stored(s.log), p, c.count)[..c.faultAt.value]))
  {
    var texts, p := Stored(s.log), s.pos[c.h];
    var all := Pieces(texts, p, c.count);
    PiecesAreTheSlice(texts, p, c.count);
    if c.faultAt.Some? && c.faultAt.value < |all| {
      FlattenSplitAt(all, c.faultAt.value);
    }
  }

  lemma PlainRead(s: Sys, h: Handle, count: nat)
    requires h in s.pos && 0 <= s.pos[h] && 0 < count
    ensures var (s', o) := Do(s, Read(h, count, true, None));
            var whole := Slice(Contents(s.log), s.pos[h], count);
            s' == Sys(s.log, s.pos[h := s.pos[h] + |whole|]) && o.bytes == whole
  {
    ReadIsSlice(s, Read(h, count, true, None));
  }

  /** Reading a bytes and then b bytes, with no write in between, is reading a + b bytes. */
  lemma ChunkedRead(s: Sys, h: Handle, a: nat, b: nat)
    requires h in s.pos && 0 <= s.pos[h] && 0 < a && 0 < b
    ensures var (s1, o1) := Do(s, Read(h, a, true, None));
            var (s2, o2) := Do(s1, Read(h, b, true, None));
            var (s3, o3) := Do(s, Read(h, a + b, true, None));
            s2 == s3 && o1.bytes + o2.bytes == o3.bytes
  {
    var (s1, o1) := Do(s, Read(h, a, true, None));
    PlainRead(s, h, a);
    PlainRead(s1, h, b);
    PlainRead(s, h, a + b);
    SliceSplit(Contents(s.log), s.pos[h], a, b);
  }

  /** Reading a chunk at a time until a read returns nothing. */
  function Drain(s: Sys, h: Handle, chunk: nat): Text
    requires h in s.pos && 0 <= s.pos[h] && 0 < chunk
    decreases Max(0, |Contents(s.log)| - s.pos[h])
  {
    var (s', o) := Do(s, Read(h, chunk, true, None));
    ReadIsSlice(s, Read(h, chunk, true, None));
    if o.ret <= 0 then [] else o.bytes + Drain(s', h, chunk)
  }

  /** However the contents are cut into entries, and whatever the chunk, that is everything from
      the position on. */
  lemma {:induction false} DrainIsSuffix(s: Sys, h: Handle, chunk: nat)
    requires h in s.pos && 0 <= s.pos[h] && 0 < chunk
    ensures Drain(s, h, chunk) == if s.pos[h] <= |Contents(s.log)| then Contents(s.log)[s.pos[h]..] else []
    decreases Max(0, |Contents(s.log)| - s.pos[h])
  {
    var (s', o) := Do(s, Read(h, chunk, true, None));
    ReadIsSlice(s, Read(h, chunk, true, None));
    if o.ret > 0 {
      DrainIsSuffix(s', h, chunk);
      DropTwice(Contents(s.log), s.pos[h], o.ret);
    }
  }

  lemma DropTwice(t: Text, p: nat, n: nat)
    requires p + n <= |t|
    ensures t[p..] == t[p..p + n] + t[p + n..]
  {
  }

  // ---------------------------------------------------------------------------------------
  // The ioctl and the search

  lemma {:induction false} SeekPosTotal(texts: seq<Text>, p: nat) returns (cmd: nat, off: nat)
    requires p < |Flatten(texts)|
    ensures SeekPos(texts, cmd, off) == Some(p)
  {
    if p < |texts[0]| {
      cmd, off := 0, p;
      assert texts[..0] == [];
    } else {
      cmd, off := SeekPosTotal(texts[1..], p - |texts[0]|);
      cmd := cmd + 1;
      assert texts[..cmd][0] == texts[0] && texts[..cmd][1..] == texts[1..][..cmd - 1];
    }
  }

  lemma SeekPosIs(texts: seq<Text>, cmd: nat, off: nat)
    requires SeekPos(texts, cmd, off).Some?
    ensures cmd < |texts| && SeekPos(texts, cmd, off) == Some(|Flatten(texts[..cmd])| + off)
  {
  }

  lemma SuffixFromSeekPos(texts: seq<Text>, cmd: nat, off: nat)
    requires SeekPos(texts, cmd, off).Some?
    ensures Flatten(texts)[SeekPos(texts, cmd, off).value..] == texts[cmd][off..] + Flatten(texts[cmd + 1..])
  {
    FlattenSplitAt(texts, cmd);
  }

  lemma SeekPosBefore(texts: seq<Text>, cmd: nat, off: nat, later: nat)
    requires SeekPos(texts, cmd, off).Some? && cmd < later <= |texts|
    ensures SeekPos(texts, cmd, off).value < |Flatten(texts[..later])|
  {
    FlattenSplitAt(texts[..later], cmd);
    assert texts[..later][..cmd] == texts[..cmd];
  }

  lemma SeekPosInjective(texts: seq<Text>, cmd: nat, off: nat, cmd': nat, off': nat)
    requires SeekPos(texts, cmd, off).Some? && SeekPos(texts, cmd, off) == SeekPos(texts, cmd', off')
    ensures cmd == cmd' && off == off'
  {
    if cmd < cmd' {
      SeekPosBefore(texts, cmd, off, cmd');
    } else if cmd' < cmd {
      SeekPosBefore(texts, cmd', off', cmd);
    }
  }

  /** The entries hold these texts. */
  ghost predicate SizesOf(es: seq<Entry>, texts: seq<Text>) {
    |es| == |texts| && forall i :: 0 <= i < |es| ==> es[i].size == |texts[i]|
  }

  lemma {:induction false} SizeSumIsLength(es: seq<Entry>, texts: seq<Text>)
    requires SizesOf(es, texts)
    ensures SizeSum(es) == |Flatten(texts)|
  {
    if es != [] {
      SizeSumIsLength(es[1..], texts[1..]);
    }
  }

  lemma SeekPosAddresses(es: seq<Entry>, texts: seq<Text>, cmd: nat, off: nat)
    requires SizesOf(es, texts) && SeekPos(texts, cmd, off).Some?
    ensures Addresses(es, SeekPos(texts, cmd, off).value, cmd, off) && SeekPos(texts, cmd, off).value < SizeSum(es)
  {
    SizeSumIsLength(es[..cmd], texts[..cmd]);
    SizeSumIsLength(es, texts);
  }

  /** Seek and search are inverse on every reachable ring: searching at the position the ioctl
      stores finds the slot and the offset it was given, and every position below the total is
      stored for exactly one accepted pair. */
  lemma SeekThenSearch(r: Ring, h: seq<Entry>, texts: seq<Text>, cmd: nat, off: nat)
    requires RingOf(r, h) && SizesOf(Live(r), texts) && SeekPos(texts, cmd, off).Some?
    ensures cmd < |Live(r)| <= N
    ensures Search(r, SeekPos(texts, cmd, off).value) == Some(Hit((r.outOffs + cmd) % N, off))
  {
    LiveLength(r, h);
    SeekPosAddresses(Live(r), texts, cmd, off);
    SearchIsFlatIndexing(r, h, SeekPos(texts, cmd, off).value);
    WrapIsMod(r.outOffs + cmd);
  }

  lemma EveryPositionHasOneSeek(texts: seq<Text>, p: nat)
    ensures p < |Flatten(texts)| <==> exists cmd: nat, off: nat :: SeekPos(texts, cmd, off) == Some(p)
    ensures forall cmd: nat, off: nat, cmd': nat, off': nat ::
              SeekPos(texts, cmd, off) == Some(p) && SeekPos(texts, cmd', off') == Some(p)
              ==> cmd == cmd' && off == off'
  {
    if p < |Flatten(texts)| {
      var cmd, off := SeekPosTotal(texts, p);
    }
    forall cmd: nat, off: nat | SeekPos(texts, cmd, off) == Some(p)
      ensures p < |Flatten(texts)|
    {
    }
    forall cmd: nat, off: nat, cmd': nat, off': nat |
      SeekPos(texts, cmd, off) == Some(p) && SeekPos(texts, cmd', off') == Some(p)
      ensures cmd == cmd' && off == off'
    {
      SeekPosInjective(texts, cmd, off, cmd', off');
    }
  }

  /** SEEK_END with offset 0 lands where the search finds nothing and a read returns 0. */
  lemma SeekEndIsTheEnd(s: Sys, h: Handle, r: Ring, hist: seq<Entry>, count: nat)
    requires h in s.pos && 0 < count
    requires RingOf(r, hist) && SizesOf(Live(r), Stored(s.log))
    ensures var (s', o) := Do(s, Llseek(h, 0, SeekEnd));
            && o.ret == SizeSum(r.entry) == |Contents(s.log)| == s'.pos[h]
            && Search(r, o.ret) == None
            && (forall p: nat :: Search(r, p) == None ==> o.ret <= p)
            && Do(s', Read(h, count, true, None)) == (s', Outcome(0, []))
  {
    PhysicalSumIsLogicalSum(r, hist);
    SizeSumIsLength(Live(r), Stored(s.log));
    forall p: nat
      ensures Search(r, p) == None <==> |Contents(s.log)| <= p
    {
      SearchIsFlatIndexing(r, hist, p);
    }
    var (s', o) := Do(s, Llseek(h, 0, SeekEnd));
    ReadIsSlice(s', Read(h, count, true, None));
    assert s'.pos[h := s'.pos[h]] == s'.pos;
  }

  // ---------------------------------------------------------------------------------------
  // llseek

  /** Each whence has its own base, and just the targets from 0 to the total are accepted; any
      other call changes nothing. */
  lemma SeekBases(s: Sys, h: Handle, offset: int)
    requires h in s.pos
    ensures SeekTo(s, h, Llseek(h, offset, SeekSet), offset)
    ensures SeekTo(s, h, Llseek(h, offset, SeekCur), s.pos[h] + offset)
    ensures SeekTo(s, h, Llseek(h, offset, SeekEnd), |Contents(s.log)| + offset)
    ensures Do(s, Llseek(h, offset, OtherWhence)) == (s, Outcome(-EINVAL, []))
  {
  }

  ghost predicate SeekTo(s: Sys, h: Handle, c: Call, target: int)
    requires h in s.pos && c.h == h
  {
    Do(s, c) == if 0 <= target <= |Contents(s.log)| then (Sys(s.log, s.pos[h := target]), Outcome(target, []))
                else (s, Outcome(-EINVAL, []))
  }

  /** After SEEK_SET p, reading until nothing comes gives the contents from byte p on. */
  lemma SeekSetThenDrain(s: Sys, h: Handle, p: nat, chunk: nat)
    requires h in s.pos && p <= |Contents(s.log)| && 0 < chunk
    ensures var (s', o) := Do(s, Llseek(h, p, SeekSet));
            o.ret == p == s'.pos[h] && Drain(s', h, chunk) == Contents(s.log)[p..]
  {
    DrainIsSuffix(Do(s, Llseek(h, p, SeekSet)).0, h, chunk);
  }

  /** SEEK_CUR with offset 0 tells the position and changes nothing. */
  lemma SeekCurTells(s: Sys, h: Handle)
    requires h in s.pos && 0 <= s.pos[h] <= |Contents(s.log)|
    ensures Do(s, Llseek(h, 0, SeekCur)) == (s, Outcome(s.pos[h], []))
  {
    assert s.pos[h := s.pos[h]] == s.pos;
  }

  /** SEEK_CUR is relative: after SEEK_SET p, it does what SEEK_SET does with the sum, and where
      the sum is refused it leaves the position at p. */
  lemma SeekSetThenCur(s: Sys, h: Handle, p: nat, d: int)
    requires h in s.pos && p <= |Contents(s.log)|
    ensures var s1 := Do(s, Llseek(h, p, SeekSet)).0;
            var (s2, o2) := Do(s1, Llseek(h, d, SeekCur));
            && o2 == Do(s, Llseek(h, p + d, SeekSet)).1
            && (0 <= p + d <= |Contents(s.log)| ==> s2 == Do(s, Llseek(h, p + d, SeekSet)).0 && o2.ret == p + d)
            && (!(0 <= p + d <= |Contents(s.log)|) ==> s2 == s1 && o2.ret == -EINVAL)
  {
    assert s.pos[h := p][h := p + d] == s.pos[h := p + d];
  }

  /** SEEK_END -k leaves exactly the last k bytes to read. */
  lemma SeekEndThenDrain(s: Sys, h: Handle, k: nat, chunk: nat)
    requires h in s.pos && k <= |Contents(s.log)| && 0 < chunk
    ensures var (s', o) := Do(s, Llseek(h, -(k as int), SeekEnd));
            o.ret == |Contents(s.log)| - k && Drain(s', h, chunk) == LastN(Contents(s.log), k)
  {
    DrainIsSuffix(Do(s, Llseek(h, -(k as int), SeekEnd)).0, h, chunk);
  }

  // ---------------------------------------------------------------------------------------
  // Failing calls

  /** A write is accepted exactly when nothing it needs fails, where memory for growing is needed
      only after a partial write; it then takes all its data, and otherwise nothing happens. */
  lemma WriteAcceptedIff(s: Sys, c: Call)
    requires c.Write? && c.h in s.pos
    ensures var (s', o) := Do(s, c);
            var ok := 0 <= s.pos[c.h] && c.data != [] && c.kmallocOk && c.copyOk && c.lockOk && (s.log.partial == [] || c.kreallocOk);
            && (0 <= o.ret <==> ok) && (ok ==> o.ret == |c.data| && s'.pos == s.pos)
            && (!ok ==> s' == s)
            && (!ok && 0 <= s.pos[c.h] && c.data != [] ==>
                  o.ret == if !c.kmallocOk then -ENOMEM else if !c.copyOk then -EFAULT
                           else if !c.lockOk then -ERESTARTSYS else -ENOMEM)
  {
  }

  /** A read is refused exactly for a negative position, an empty count or an interrupted lock. */
  lemma ReadRefusedIff(s: Sys, c: Call)
    requires c.Read? && c.h in s.pos
    ensures var (s', o) := Do(s, c);
            var bad := s.pos[c.h] < 0 || c.count == 0;
            && (bad || !c.lockOk ==> (s', o) == (s, Outcome(if bad then -EINVAL else -ERESTARTSYS, [])))
            && (!bad && c.lockOk ==> 0 <= o.ret || (o.ret == -EFAULT && c.faultAt.Some?))
  {
    assert s.pos[c.h := s.pos[c.h]] == s.pos;
  }

  /** A seek to byte off of message cmd is accepted exactly when the ring holds that byte, and the
      position is then the number of bytes before it. */
  lemma IoctlAcceptedIff(s: Sys, c: Call)
    requires c.Ioctl? && c.h in s.pos
    ensures var (s', o) := Do(s, c);
            var (texts, cmd, off) := (Stored(s.log), c.writeCmd, c.writeCmdOffset);
            var ok := c.known && c.copyOk && cmd < |texts| && off < |texts[cmd]|;
            && (ok ==> o == Outcome(0, []) && s' == Sys(s.log, s.pos[c.h := |Flatten(texts[..cmd])| + off]))
            && (!ok ==> (s', o) == (s, Outcome(if !c.known then -ENOTTY else if !c.copyOk then -EFAULT else -EINVAL, [])))
  {
  }
}
