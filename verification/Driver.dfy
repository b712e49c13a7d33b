/** The character device of aesd-char-driver/main.c, updated in place: ring, partial write and
    heap, with each file operation proved to be the call of DeviceSpec it stands for. */
module Driver {
  import opened Bytes
  import opened CircularBuffers
  import opened DeviceSpec
  import opened KernelHeaps

  // ---------------------------------------------------------------------------------------
  // What the memory of the device means

  /** Every committed message, evicted or not, is a live block of exactly its bytes. */
  ghost predicate BlocksHold(blocks: map<Ptr, Text>, hist: seq<Entry>, messages: seq<Text>) {
    && |hist| == |messages|
    && forall k :: 0 <= k < |hist| ==>
         && hist[k].buffptr != NULL && hist[k].buffptr in blocks
         && blocks[hist[k].buffptr] == messages[k]
         && hist[k].size == |messages[k]| && messages[k] != []
  }

  ghost predicate PartialHolds(blocks: map<Ptr, Text>, partialWrite: Ptr, partialSize: nat, partial: Text) {
    if partial == [] then partialWrite == NULL && partialSize == 0
    else
      && partialWrite != NULL && partialWrite in blocks
      && blocks[partialWrite] == partial && partialSize == |partial|
  }

  ghost predicate AllDistinct(hist: seq<Entry>, partialWrite: Ptr) {
    && (forall i, j :: 0 <= i < j < |hist| ==> hist[i].buffptr != hist[j].buffptr)
    && (forall k :: 0 <= k < |hist| ==> hist[k].buffptr != partialWrite)
  }

  function Pointers(hist: seq<Entry>): set<Ptr> {
    set k | 0 <= k < |hist| :: hist[k].buffptr
  }

  lemma PointersConcat(a: seq<Entry>, b: seq<Entry>)
    ensures Pointers(a + b) == Pointers(a) + Pointers(b)
  {
    forall p | p in Pointers(a) + Pointers(b)
      ensures p in Pointers(a + b)
    {
      if p in Pointers(a) {
        var k :| 0 <= k < |a| && a[k].buffptr == p;
        assert (a + b)[k].buffptr == p;
      } else {
        var k :| 0 <= k < |b| && b[k].buffptr == p;
        assert (a + b)[|a| + k].buffptr == p;
      }
    }
  }

  /** Ring, partial write and heap together represent the log. */
  ghost predicate Represents(blocks: map<Ptr, Text>, r: Ring, partialWrite: Ptr, partialSize: nat,
                             hist: seq<Entry>, log: Log) {
    && RingOf(r, hist)
    && BlocksHold(blocks, hist, log.messages)
    && PartialHolds(blocks, partialWrite, partialSize, log.partial)
    && AllDistinct(hist, partialWrite)
    && NULL !in blocks
    && !HasNewline(log.partial)
  }

  /** The device after p, holding the accumulated text, became the newest entry or the partial
      write, in a heap that still has every older message. */
  lemma AppendRepresents(blocks: map<Ptr, Text>, r: Ring, partialWrite: Ptr, partialSize: nat,
                         hist: seq<Entry>, log: Log,
                         blocks': map<Ptr, Text>, tmp: Ptr, p: Ptr, data: Text)
    requires Represents(blocks, r, partialWrite, partialSize, hist, log) && data != []
    requires p != NULL && p !in Pointers(hist) && tmp !in Pointers(hist)
    requires blocks' == (blocks - {tmp, partialWrite})[p := log.partial + data]
    ensures HasNewline(data) ==>
              var e := Entry(p, |log.partial + data|);
              Represents(blocks', Add(r, e), NULL, 0, hist + [e], Accept(log, data))
    ensures !HasNewline(data) ==>
              Represents(blocks', r, p, |log.partial + data|, hist, Accept(log, data))
  {
    var e := Entry(p, |log.partial + data|);
    assert forall k :: 0 <= k < |hist| ==> hist[k].buffptr in Pointers(hist);
    assert BlocksHold(blocks', hist, log.messages);
    if HasNewline(data) {
      AddKeepsClosedForm(r, hist, e);
      CommittedHolds(blocks', hist, log.messages, p, log.partial + data);
    }
  }

  lemma CommittedHolds(blocks: map<Ptr, Text>, hist: seq<Entry>, messages: seq<Text>, p: Ptr, text: Text)
    requires BlocksHold(blocks, hist, messages) && p != NULL && p in blocks && blocks[p] == text && text != []
    ensures BlocksHold(blocks, hist + [Entry(p, |text|)], messages + [text])
  {
  }

  /** The live entries of the ring are the stored messages. */
  lemma LiveHoldsStored(r: Ring, hist: seq<Entry>, blocks: map<Ptr, Text>, log: Log)
    requires RingOf(r, hist) && BlocksHold(blocks, hist, log.messages)
    ensures Live(r) == LastN(hist, N)
    ensures BlocksHold(blocks, Live(r), Stored(log))
    ensures SizesOf(Live(r), Stored(log))
    ensures SizeSum(Live(r)) == |Contents(log)|
  {
    LiveIsLastAdds(r, hist);
    SizeSumIsLength(Live(r), Stored(log));
  }

  /** What a hit of the search means in bytes. */
  lemma HitMeaning(r: Ring, hist: seq<Entry>, blocks: map<Ptr, Text>, log: Log, p: nat) returns (i: nat)
    requires RingOf(r, hist) && BlocksHold(blocks, hist, log.messages)
    ensures var texts := Stored(log);
            match Search(r, p)
            case None => |Flatten(texts)| <= p
            case Some(hit) =>
              && i < |texts| && hit.slot < N && r.entry[hit.slot].buffptr in blocks
              && r.entry[hit.slot].buffptr != NULL
              && blocks[r.entry[hit.slot].buffptr] == texts[i] && r.entry[hit.slot].size == |texts[i]|
              && hit.offset < |texts[i]| && p == |Flatten(texts[..i])| + hit.offset
  {
    var texts := Stored(log);
    LiveHoldsStored(r, hist, blocks, log);
    SearchIsFlatIndexing(r, hist, p);
    i := 0;
    if p < |Flatten(texts)| {
      var i', o :| Addresses(Live(r), p, i', o);
      i := i';
      EntryHolds(r, hist, blocks, log, i);
    }
  }

  /** The i-th oldest slot holds the i-th stored message. */
  lemma EntryHolds(r: Ring, hist: seq<Entry>, blocks: map<Ptr, Text>, log: Log, i: nat)
    requires RingOf(r, hist) && BlocksHold(blocks, hist, log.messages) && i < |Stored(log)|
    ensures |Stored(log)| == |Live(r)| <= N && SizeSum(Live(r)[..i]) == |Flatten(Stored(log)[..i])|
    ensures var e := r.entry[Wrap(r.outOffs + i)];
            && e == Live(r)[i] && e.buffptr != NULL && e.buffptr in blocks
            && blocks[e.buffptr] == Stored(log)[i] && e.size == |Stored(log)[i]|
  {
    LiveHoldsStored(r, hist, blocks, log);
    LiveLength(r, hist);
    LiveAt(r, hist, i);
    SizeSumIsLength(Live(r)[..i], Stored(log)[..i]);
  }

  /** What one turn of the read loop copies from a block. */
  function PieceOf(block: Text, offset: nat, remaining: nat): Text
    requires offset <= |block|
  {
    block[offset..offset + Min(remaining, |block| - offset)]
  }

  lemma NextOfText(texts: seq<Text>, i: nat, o: nat, p: nat, remaining: nat, block: Text)
    requires i < |texts| && block == texts[i] && o < |block| && p == |Flatten(texts[..i])| + o && 0 < remaining
    ensures NextPieceIs(texts, p, remaining, PieceOf(block, o, remaining))
  {
    PieceStep(texts, i, o, remaining);
  }

  /** The search hit a byte of this live block, which is as long as the ring says. */
  ghost predicate HitBlock(r: Ring, blocks: map<Ptr, Text>, hit: Hit, block: Text)
    requires Shape(r)
  {
    && hit.slot < N && r.entry[hit.slot].buffptr != NULL
    && r.entry[hit.slot].buffptr in blocks && blocks[r.entry[hit.slot].buffptr] == block
    && hit.offset < r.entry[hit.slot].size == |block|
  }

  /** One turn of the read loop, on the memory it reads: the next piece, or nothing left. */
  lemma ReadTurn(r: Ring, hist: seq<Entry>, blocks: map<Ptr, Text>, log: Log, p: nat, remaining: nat) returns (block: Text)
    requires RingOf(r, hist) && BlocksHold(blocks, hist, log.messages) && 0 < remaining
    ensures match Search(r, p)
            case None => Pieces(Stored(log), p, remaining) == []
            case Some(hit) =>
              && HitBlock(r, blocks, hit, block)
              && NextPieceIs(Stored(log), p, remaining, PieceOf(block, hit.offset, remaining))
  {
    var i := HitMeaning(r, hist, blocks, log, p);
    block := [];
    match Search(r, p) {
      case None => PiecesAtEnd(Stored(log), p, remaining);
      case Some(hit) =>
        block := blocks[r.entry[hit.slot].buffptr];
        NextOfText(Stored(log), i, hit.offset, p, remaining, block);
    }
  }

  /** What the two checks of the ioctl compare with. */
  lemma IoctlChecks(r: Ring, hist: seq<Entry>, blocks: map<Ptr, Text>, log: Log, cmd: nat)
    requires RingOf(r, hist) && BlocksHold(blocks, hist, log.messages)
    ensures (if r.full then N as nat else r.inOffs) == |Stored(log)| <= N
    ensures cmd < |Stored(log)| ==>
              var e := r.entry[Wrap(r.outOffs + cmd)];
              e.buffptr != NULL && e.size == |Stored(log)[cmd]|
  {
    LiveHoldsStored(r, hist, blocks, log);
    LiveIsLastAdds(r, hist);
    if cmd < |Stored(log)| {
      LiveAt(r, hist, cmd);
    }
  }

  /** One turn of the ioctl's loop over the entries before a message. */
  lemma OffsetStep(r: Ring, hist: seq<Entry>, blocks: map<Ptr, Text>, log: Log, i: nat)
    requires RingOf(r, hist) && BlocksHold(blocks, hist, log.messages) && i < |Stored(log)|
    ensures |Flatten(Stored(log)[..i])| + r.entry[Wrap(r.outOffs + i)].size == |Flatten(Stored(log)[..i + 1])|
  {
    IoctlChecks(r, hist, blocks, log, i);
    FlattenSnoc(Stored(log)[..i], Stored(log)[i]);
    assert Stored(log)[..i + 1] == Stored(log)[..i] + [Stored(log)[i]];
  }

  lemma {:induction false} PointersSnoc(es: seq<Entry>, i: nat)
    requires i < |es|
    ensures Pointers(es[..i + 1]) == Pointers(es[..i]) + {es[i].buffptr}
  {
    assert es[..i + 1] == es[..i] + [es[i]];
    PointersConcat(es[..i], [es[i]]);
    assert Pointers([es[i]]) == {es[i].buffptr} by {
      assert [es[i]][0].buffptr in Pointers([es[i]]);
    }
  }

  ghost predicate Named(hist: seq<Entry>) {
    && (forall k :: 0 <= k < |hist| ==> hist[k].buffptr != NULL)
    && (forall i, j :: 0 <= i < j < |hist| ==> hist[i].buffptr != hist[j].buffptr)
  }

  /** No two physical slots name the same block. */
  lemma SlotsDistinct(r: Ring, hist: seq<Entry>, i: nat, j: nat)
    requires RingOf(r, hist) && Named(hist)
    requires i < j < N && r.entry[j].buffptr != NULL
    ensures r.entry[i].buffptr != r.entry[j].buffptr
  {
    LiveIsLastAdds(r, hist);
    var a := SlotHoldsLiveOrNull(r, hist, i);
    var b := SlotHoldsLiveOrNull(r, hist, j);
  }

  /** The physical slots name exactly the blocks of the live entries. */
  lemma SlotPointers(r: Ring, hist: seq<Entry>)
    requires RingOf(r, hist) && Named(hist)
    ensures Pointers(r.entry) - {NULL} == Pointers(LastN(hist, N))
    ensures forall j :: 0 <= j < N && r.entry[j].buffptr != NULL ==> r.entry[j].buffptr in Pointers(hist)
  {
    var live := Live(r);
    LiveIsLastAdds(r, hist);
    assert hist == hist[..Oldest(|hist|)] + live;
    PointersConcat(hist[..Oldest(|hist|)], live);
    forall j | 0 <= j < N && r.entry[j].buffptr != NULL
      ensures r.entry[j].buffptr in Pointers(live)
    {
      var a := SlotHoldsLiveOrNull(r, hist, j);
      assert live[a].buffptr == r.entry[j].buffptr;
    }
    forall i | 0 <= i < |live|
      ensures live[i].buffptr in Pointers(r.entry)
    {
      LiveLength(r, hist);
      LiveAt(r, hist, i);
      assert r.entry[Wrap(r.outOffs + i)].buffptr == live[i].buffptr;
    }
  }

  /** The precondition of every kfree of the cleanup: each slot names a live block that is
      neither the partial write nor named by another slot. */
  lemma SlotsFreeable(blocks: map<Ptr, Text>, r: Ring, partialWrite: Ptr, partialSize: nat,
                      hist: seq<Entry>, log: Log)
    requires Represents(blocks, r, partialWrite, partialSize, hist, log)
    ensures forall j :: 0 <= j < N && r.entry[j].buffptr != NULL ==>
              r.entry[j].buffptr in blocks && r.entry[j].buffptr != partialWrite
    ensures forall i, j :: 0 <= i < j < N && r.entry[j].buffptr != NULL ==>
              r.entry[i].buffptr != r.entry[j].buffptr
  {
    SlotPointers(r, hist);
    forall i, j | 0 <= i < j < N && r.entry[j].buffptr != NULL
      ensures r.entry[i].buffptr != r.entry[j].buffptr
    {
      SlotsDistinct(r, hist, i, j);
    }
  }

  /** Without the slots and the partial write, of the device's blocks the evicted ones remain. */
  lemma LeftAfterCleanup(blocks: map<Ptr, Text>, r: Ring, partialWrite: Ptr, partialSize: nat,
                         hist: seq<Entry>, log: Log)
    requires Represents(blocks, r, partialWrite, partialSize, hist, log)
    ensures var left := blocks.Keys - {partialWrite} - Pointers(r.entry);
            && left == blocks.Keys - {partialWrite} - Pointers(LastN(hist, N))
            && left == (blocks.Keys - Pointers(hist) - {partialWrite}) + Pointers(hist[..Oldest(|hist|)])
  {
    var old', live := hist[..Oldest(|hist|)], LastN(hist, N);
    SlotPointers(r, hist);
    EvictedAreLive(blocks, r, partialWrite, partialSize, hist, log);
    assert blocks.Keys - {partialWrite} - Pointers(r.entry) == blocks.Keys - {partialWrite} - Pointers(live);
  }

  lemma EvictedAreLive(blocks: map<Ptr, Text>, r: Ring, partialWrite: Ptr, partialSize: nat,
                       hist: seq<Entry>, log: Log)
    requires Represents(blocks, r, partialWrite, partialSize, hist, log)
    ensures var old', live := hist[..Oldest(|hist|)], LastN(hist, N);
            && Pointers(hist) == Pointers(old') + Pointers(live) && Pointers(old') !! Pointers(live)
            && partialWrite !in Pointers(old') && Pointers(old') <= blocks.Keys
  {
    assert hist == hist[..Oldest(|hist|)] + LastN(hist, N);
    PointersConcat(hist[..Oldest(|hist|)], LastN(hist, N));
  }

  /** Nothing has been evicted exactly while all messages fit the ring. */
  lemma NoneEvictedIff(blocks: map<Ptr, Text>, r: Ring, partialWrite: Ptr, partialSize: nat,
                       hist: seq<Entry>, log: Log)
    requires Represents(blocks, r, partialWrite, partialSize, hist, log)
    ensures Pointers(hist[..Oldest(|hist|)]) == {} <==> |log.messages| <= N
    ensures Pointers(hist[..Oldest(|hist|)]) <= Pointers(hist) - {partialWrite, NULL}
  {
    EvictedAreLive(blocks, r, partialWrite, partialSize, hist, log);
    if |log.messages| > N {
      assert hist[..Oldest(|hist|)][0].buffptr in Pointers(hist[..Oldest(|hist|)]);
    }
  }

  lemma AfterCleanup(blocks: map<Ptr, Text>, r: Ring, partialWrite: Ptr, partialSize: nat,
                     hist: seq<Entry>, log: Log)
    requires Represents(blocks, r, partialWrite, partialSize, hist, log)
    ensures var left, owned := blocks - {partialWrite} - Pointers(r.entry), Pointers(hist) + {partialWrite} - {NULL};
            && left == blocks - (Pointers(LastN(hist, N)) + {partialWrite})
            && left.Keys == (blocks.Keys - owned) + Pointers(hist[..Oldest(|hist|)])
            && (left.Keys == blocks.Keys - owned <==> |log.messages| <= N)
  {
    LeftAfterCleanup(blocks, r, partialWrite, partialSize, hist, log);
    NoneEvictedIff(blocks, r, partialWrite, partialSize, hist, log);
    assert blocks.Keys - (Pointers(hist) + {partialWrite} - {NULL}) == blocks.Keys - Pointers(hist) - {partialWrite};
    var left := blocks - {partialWrite} - Pointers(r.entry);
    assert left.Keys == blocks.Keys - {partialWrite} - Pointers(r.entry);
    assert left == map p | p in left.Keys :: blocks[p];
  }

  /** s with data laid over it from position at on. */
  function Overwrite(s: Text, at: nat, data: Text): (r: Text)
    requires at + |data| <= |s|
    ensures |r| == |s|
  {
    s[..at] + data + s[at + |data|..]
  }

  lemma OverwriteTwice(s: Text, a: Text, b: Text)
    requires |a| + |b| <= |s|
    ensures Overwrite(Overwrite(s, 0, a), |a|, b) == Overwrite(s, 0, a + b)
  {
  }

  /** Midway through a read of count bytes at start: the pieces done have been copied over what
      was in the user buffer, and the rest is what a read from here on gives. */
  ghost predicate Copying(texts: seq<Text>, start: nat, count: nat, done: seq<Text>, copied: nat, was: Text, now: Text) {
    && copied == |Flatten(done)| <= count <= |was|
    && Pieces(texts, start, count) == done + Pieces(texts, start + copied, count - copied)
    && now == Overwrite(was, 0, Flatten(done))
  }

  lemma CopyStarts(texts: seq<Text>, start: nat, count: nat, was: Text)
    requires count <= |was|
    ensures Copying(texts, start, count, [], 0, was, was)
  {
    assert Overwrite(was, 0, []) == was;
  }

  /** A copy that faults leaves the pieces before it, which are not all. */
  lemma CopyFaults(texts: seq<Text>, start: nat, count: nat, done: seq<Text>, copied: nat, was: Text, now: Text, piece: Text)
    requires Copying(texts, start, count, done, copied, was, now)
    requires NextPieceIs(texts, start + copied, count - copied, piece)
    ensures var all := Pieces(texts, start, count); |done| < |all| && all[..|done|] == done
  {
    MovePiece(Pieces(texts, start, count), done, piece, Pieces(texts, start + copied + |piece|, count - copied - |piece|));
  }

  lemma CopyTurn(texts: seq<Text>, start: nat, count: nat, done: seq<Text>, copied: nat, was: Text, now: Text, piece: Text,
                 copied': nat, now': Text)
    requires Copying(texts, start, count, done, copied, was, now)
    requires NextPieceIs(texts, start + copied, count - copied, piece)
    requires copied' == copied + |piece| && now' == Overwrite(now, copied, piece)
    ensures Copying(texts, start, count, done + [piece], copied', was, now')
  {
    FlattenSnoc(done, piece);
    OverwriteTwice(was, Flatten(done), piece);
    MovePiece(Pieces(texts, start, count), done, piece, Pieces(texts, start + copied', count - copied'));
  }

  lemma CopyEnds(texts: seq<Text>, start: nat, count: nat, done: seq<Text>, copied: nat, was: Text, now: Text)
    requires Copying(texts, start, count, done, copied, was, now) && Pieces(texts, start + copied, count - copied) == []
    ensures Pieces(texts, start, count) == done
  {
  }

  // ---------------------------------------------------------------------------------------
  // The device

  /** struct file, as far as the driver uses it. */
  class OpenFile {
    var pos: int

    constructor ()
      ensures pos == 0
    {
      pos := 0;
    }
  }

  /** The answer to a seek to target: accepted from 0 to the total, otherwise without effect. */
  predicate Moved(was: int, now: int, ret: int, target: int, total: nat) {
    if 0 <= target <= total then ret == now == target else ret == -EINVAL && now == was
  }

  class AesdDevice {
    const buffer: CircularBuffer
    const heap: KernelHeap
    var partialWrite: Ptr
    var partialSize: nat
    ghost var hist: seq<Entry>  // every entry ever added, oldest first
    ghost var log: Log

    ghost predicate Valid()
      reads this, buffer, buffer.entry, heap
    {
      Represents(heap.blocks, buffer.State(), partialWrite, partialSize, hist, log)
    }

    /** The blocks that belong to the device: ring, evicted and partial. */
    ghost function Owned(): set<Ptr>
      reads this
    {
      Pointers(hist) + {partialWrite} - {NULL}
    }

    constructor (heap: KernelHeap)
      requires NULL !in heap.blocks
      ensures this.heap == heap && fresh(buffer) && fresh(buffer.entry)
      ensures Valid() && log == Log([], []) && Owned() == {}
    {
      this.heap := heap;
      buffer := new CircularBuffer();
      partialWrite, partialSize := NULL, 0;
      hist, log := [], Log([], []);
    }

    /** aesd_write.  The two pointers are what kmalloc and krealloc return if called. */
    method Write(file: OpenFile, data: Text, kmalloc: Ptr, copyOk: bool, lockOk: bool, krealloc: Ptr)
      returns (ret: int)
      requires Valid()
      requires kmalloc == NULL || kmalloc !in heap.blocks
      requires krealloc in {NULL, partialWrite} || (krealloc !in heap.blocks && krealloc != kmalloc)
      modifies this, heap, buffer, buffer.entry
      ensures Valid()
      ensures ret == WriteRet(old(log), file.pos, Call.Write(0, data, kmalloc != NULL, copyOk, lockOk, krealloc != NULL))
      ensures ret < 0 ==>
                && log == old(log) && hist == old(hist) && heap.blocks == old(heap.blocks)
                && buffer.State() == old(buffer.State()) && unchanged(`partialWrite, `partialSize)
      ensures 0 <= ret ==> log == Accept(old(log), data)
      ensures old(hist) <= hist
      ensures heap.blocks.Keys - Owned() == old(heap.blocks.Keys - Owned())
    {
      if file.pos < 0 || data == [] {
        return -EINVAL;
      }
      var tmp := heap.Kmalloc(|data|, kmalloc);
      if tmp == NULL {
        return -ENOMEM;
      }
      if !copyOk {
        heap.Kfree(tmp);
        assert heap.blocks == old(heap.blocks);
        return -EFAULT;
      }
      heap.Store(tmp, 0, data);
      assert heap.blocks[tmp] == data;
      assert heap.blocks == old(heap.blocks)[tmp := data];
      if !lockOk {
        heap.Kfree(tmp);
        assert heap.blocks == old(heap.blocks);
        return -ERESTARTSYS;
      }
      ret := Append(tmp, data, krealloc);
      assert ret < 0 ==> heap.blocks == old(heap.blocks);
    }

    /** The critical section of aesd_write, after which tmp belongs to the device or is freed. */
    method Append(tmp: Ptr, data: Text, krealloc: Ptr) returns (ret: int)
      requires Valid() && tmp != NULL && tmp in heap.blocks && tmp !in Owned()
      requires data != [] && heap.blocks[tmp] == data
      requires krealloc in {NULL, partialWrite} || krealloc !in heap.blocks
      modifies this, heap, buffer, buffer.entry
      ensures Valid()
      ensures ret == if old(log).partial != [] && krealloc == NULL then -ENOMEM else |data|
      ensures ret < 0 ==>
                && log == old(log) && hist == old(hist) && heap.blocks == old(heap.blocks) - {tmp}
                && buffer.State() == old(buffer.State()) && unchanged(`partialWrite, `partialSize)
      ensures 0 <= ret ==> log == Accept(old(log), data)
      ensures old(hist) <= hist
      ensures heap.blocks.Keys - Owned() == old(heap.blocks.Keys - Owned()) - {tmp}
    {
      var combined, size := tmp, |data|;
      if partialWrite == NULL {
        assert log.partial + data == data;
      } else {
        size := partialSize + |data|;
        combined := Combine(tmp, data, krealloc);
        if combined == NULL {
          return -ENOMEM;
        }
      }
      Keep(combined, size, data, old(heap.blocks), tmp);
      return |data|;
    }

    /** Grow the partial write by the new data; tmp is freed either way. */
    method Combine(tmp: Ptr, data: Text, krealloc: Ptr) returns (combined: Ptr)
      requires Valid() && partialWrite != NULL
      requires tmp in heap.blocks && tmp != partialWrite && heap.blocks[tmp] == data
      requires krealloc in {NULL, partialWrite} || krealloc !in heap.blocks
      modifies heap
      ensures combined == krealloc
      ensures heap.blocks == if combined == NULL then old(heap.blocks) - {tmp}
                             else (old(heap.blocks) - {tmp, partialWrite})[combined := log.partial + data]
    {
      combined := heap.Krealloc(partialWrite, partialSize + |data|, krealloc);
      if combined != NULL {
        heap.Store(combined, partialSize, heap.blocks[tmp]);
        assert heap.blocks[combined] == log.partial + data;
      }
      heap.Kfree(tmp);
    }

    /** Hand the accumulated block p to the ring, or keep it as the partial write. */
    method Keep(p: Ptr, size: nat, data: Text, ghost before: map<Ptr, Text>, ghost tmp: Ptr)
      requires Represents(before, buffer.State(), partialWrite, partialSize, hist, log) && data != []
      requires p != NULL && p !in Pointers(hist) && size == |log.partial + data|
      requires tmp !in Pointers(hist) && heap.blocks == (before - {tmp, partialWrite})[p := log.partial + data]
      modifies this, buffer, buffer.entry
      ensures Valid()
      ensures log == Accept(old(log), data)
      ensures old(hist) <= hist && Owned() == Pointers(old(hist)) + {p}
    {
      AppendRepresents(before, buffer.State(), partialWrite, partialSize, hist, log, heap.blocks, tmp, p, data);
      if HasNewline(data) {
        var _ := buffer.AddEntry(Entry(p, size), hist);
        partialWrite, partialSize := NULL, 0;
        Commit(p, log.partial + data);
      } else {
        partialWrite, partialSize := p, size;
        log := Log(log.messages, log.partial + data);
      }
    }

    ghost method Commit(p: Ptr, text: Text)
      modifies `hist, `log
      ensures hist == old(hist) + [Entry(p, |text|)]
      ensures log == Log(old(log).messages + [text], [])
      ensures Pointers(hist) == Pointers(old(hist)) + {p}
    {
      hist := hist + [Entry(p, |text|)];
      log := Log(log.messages + [text], []);
      PointersSnoc(hist, |hist| - 1);
      assert hist[..|hist| - 1] == old(hist) && hist[..|hist|] == hist;
    }

    /** aesd_read.  Each turn copies from one entry; faultAt says which copy, if any, faults. */
    method Read(file: OpenFile, ubuf: array<byte>, count: nat, lockOk: bool, faultAt: Option<nat>)
      returns (ret: int)
      requires Valid() && count <= ubuf.Length
      modifies file, ubuf
      ensures var o := ReadOutcome(Stored(log), old(file.pos), Call.Read(0, count, lockOk, faultAt));
              && ret == o.ret
              && |o.bytes| <= ubuf.Length
              && ubuf[..|o.bytes|] == o.bytes
              && (ret != -EFAULT ==> ubuf[..] == Overwrite(old(ubuf[..]), 0, o.bytes))
              && file.pos == old(file.pos) + |o.bytes|
    {
      if file.pos < 0 || count == 0 {
        return -EINVAL;
      }
      if !lockOk {
        return -ERESTARTSYS;
      }
      ghost var texts, start, was, done := Stored(log), file.pos, ubuf[..], [];
      CopyStarts(texts, start, count, was);
      var copied, remaining, copies := 0, count, 0;
      while remaining > 0
        invariant 0 <= copied <= count && remaining == count - copied && file.pos == start + copied
        invariant Copying(texts, start, count, done, copied, was, ubuf[..])
        invariant |done| == copies && (faultAt.Some? ==> copies <= faultAt.value)
        decreases remaining
      {
        var next := CopyPiece(ubuf, file.pos, remaining, copied, faultAt == Some(copies), texts, start, count, done, was);
        if next == None {
          break;
        }
        if faultAt == Some(copies) {
          return -EFAULT;
        }
        done := done + [next.value];
        ghost var now := ubuf[..];
        file.pos := file.pos + |next.value|;
        assert ubuf[..] == now;
        copied, remaining, copies := copied + |next.value|, remaining - |next.value|, copies + 1;
      }
      CopyEnds(texts, start, count, done, copied, was, ubuf[..]);
      return copied;
    }

    /** One turn of that loop: the next piece, and its copy unless that faults. */
    method CopyPiece(ubuf: array<byte>, pos: nat, remaining: nat, copied: nat, faults: bool, ghost texts: seq<Text>,
                     ghost start: nat, ghost count: nat, ghost done: seq<Text>, ghost was: Text)
      returns (next: Option<Text>)
      requires Valid() && texts == Stored(log) && pos == start + copied && remaining == count - copied && 0 < remaining
      requires Copying(texts, start, count, done, copied, was, ubuf[..])
      modifies ubuf
      ensures match next
              case None => Pieces(texts, pos, remaining) == [] && ubuf[..] == old(ubuf[..])
              case Some(piece) =>
                && 0 < |piece| <= remaining
                && if faults then
                     var all := Pieces(texts, start, count);
                     |done| < |all| && all[..|done|] == done && ubuf[..] == old(ubuf[..])
                   else Copying(texts, start, count, done + [piece], copied + |piece|, was, ubuf[..])
    {
      ghost var now := ubuf[..];
      next := NextPiece(pos, remaining);
      if next == None {
        return;
      }
      var piece := next.value;
      if faults {
        CopyFaults(texts, start, count, done, copied, was, now, piece);
      } else {
        CopyToUser(ubuf, copied, piece);
        CopyTurn(texts, start, count, done, copied, was, now, piece, copied + |piece|, ubuf[..]);
      }
    }

    /** The head of the turn: search, and pick the bytes of the entry found. */
    method NextPiece(pos: nat, remaining: nat) returns (piece: Option<Text>)
      requires Valid() && 0 < remaining
      ensures match piece
              case None => Pieces(Stored(log), pos, remaining) == []
              case Some(bytes) => NextPieceIs(Stored(log), pos, remaining, bytes)
    {
      var hit, _ := buffer.FindEntryOffsetForFpos(pos);
      ghost var r := buffer.State();
      ghost var block := ReadTurn(r, hist, heap.blocks, log, pos, remaining);
      if hit == None || buffer.entry[hit.value.slot].buffptr == NULL {
        return None;
      }
      var entry, offset := buffer.entry[hit.value.slot], hit.value.offset;
      assert entry == r.entry[hit.value.slot] && HitBlock(r, heap.blocks, hit.value, block);
      var n := entry.size - offset;
      if n > remaining {
        n := remaining;
      }
      var bytes := heap.blocks[entry.buffptr][offset..offset + n];
      assert bytes == PieceOf(block, offset, remaining);
      return Some(bytes);
    }

    static method CopyToUser(ubuf: array<byte>, at: nat, data: Text)
      requires at + |data| <= ubuf.Length
      modifies ubuf
      ensures ubuf[..] == Overwrite(old(ubuf[..]), at, data)
    {
      forall j | 0 <= j < |data| {
        ubuf[at + j] := data[j];
      }
    }

    /** The loop of aesd_llseek over all slots, live or not, in physical order. */
    method TotalSize() returns (total: nat)
      requires Valid()
      ensures total == |Contents(log)|
    {
      total := 0;
      for index := 0 to N
        invariant total == SizeSum(buffer.State().entry[..index])
      {
        SizeSumStep(buffer.State().entry, index);
        total := total + buffer.entry[index].size;
      }
      assert buffer.State().entry[..N] == buffer.State().entry;
      PhysicalSumIsLogicalSum(buffer.State(), hist);
      LiveHoldsStored(buffer.State(), hist, heap.blocks, log);
    }

    /** aesd_llseek: the total is summed over the physical slots. */
    method Llseek(file: OpenFile, offset: int, whence: Whence) returns (ret: int)
      requires Valid()
      modifies file
      ensures Valid()
      ensures match SeekTarget(|Contents(log)|, old(file.pos), offset, whence)
              case None => ret == -EINVAL && file.pos == old(file.pos)
              case Some(target) => ret == target && file.pos == target
      ensures whence == SeekSet ==> Moved(old(file.pos), file.pos, ret, offset, |Contents(log)|)
      ensures whence == SeekCur ==> Moved(old(file.pos), file.pos, ret, old(file.pos) + offset, |Contents(log)|)
      ensures whence == SeekEnd ==> Moved(old(file.pos), file.pos, ret, |Contents(log)| + offset, |Contents(log)|)
      ensures whence == OtherWhence ==> ret == -EINVAL && file.pos == old(file.pos)
    {
      var total := TotalSize();
      var target;
      match whence {
        case SeekSet => target := offset;
        case SeekCur => target := file.pos + offset;
        case SeekEnd => target := total + offset;
        case OtherWhence => return -EINVAL;
      }
      if target < 0 || target > total {
        return -EINVAL;
      }
      file.pos := target;
      return target;
    }

    /** The loop of the ioctl over the entries before writeCmd, in logical order. */
    method OffsetOf(writeCmd: nat) returns (pos: nat)
      requires Valid() && writeCmd < |Stored(log)|
      ensures pos == |Flatten(Stored(log)[..writeCmd])|
    {
      pos := 0;
      for i := 0 to writeCmd
        invariant pos == |Flatten(Stored(log)[..i])|
      {
        OffsetStep(buffer.State(), hist, heap.blocks, log, i);
        pos := pos + buffer.entry[Wrap(buffer.outOffs + i)].size;
      }
    }

    /** The checks of the ioctl: such a command is in the ring, and it has such a byte. */
    method SeekAccepted(writeCmd: nat, writeCmdOffset: nat) returns (ok: bool)
      requires Valid()
      ensures ok <==> SeekPos(Stored(log), writeCmd, writeCmdOffset).Some?
    {
      IoctlChecks(buffer.State(), hist, heap.blocks, log, writeCmd);
      var totalCommands: nat := if buffer.full then N else buffer.inOffs;
      if writeCmd >= totalCommands {
        return false;
      }
      var index := Wrap(buffer.outOffs + writeCmd);
      return buffer.entry[index].buffptr != NULL && writeCmdOffset < buffer.entry[index].size;
    }

    /** aesd_unlocked_ioctl: known says the command is AESDCHAR_IOCSEEKTO. */
    method Ioctl(file: OpenFile, known: bool, copyOk: bool, writeCmd: nat, writeCmdOffset: nat) returns (ret: int)
      requires Valid()
      modifies file
      ensures !known ==> ret == -ENOTTY
      ensures known && !copyOk ==> ret == -EFAULT
      ensures known && copyOk ==>
                match SeekPos(Stored(log), writeCmd, writeCmdOffset)
                case None => ret == -EINVAL
                case Some(p) => ret == 0 && file.pos == p
      ensures ret < 0 ==> file.pos == old(file.pos)
    {
      if !known {
        return -ENOTTY;
      }
      if !copyOk {
        return -EFAULT;
      }
      var accepted := SeekAccepted(writeCmd, writeCmdOffset);
      if !accepted {
        return -EINVAL;
      }
      var pos := OffsetOf(writeCmd);
      file.pos := pos + writeCmdOffset;
      return 0;
    }

    /** The memory part of aesd_cleanup_module.  Every free is of a live block, and what is left
        of the device's blocks is exactly the evicted ones: none, if and only if at most N
        messages were ever committed. */
    method Cleanup()
      requires Valid()
      modifies this, heap, buffer.entry
      ensures heap.blocks == old(heap.blocks) - (Pointers(LastN(hist, N)) + {old(partialWrite)})
      ensures heap.blocks.Keys ==
              old(heap.blocks.Keys - Owned()) + Pointers(hist[..Oldest(|hist|)])
      ensures heap.blocks.Keys == old(heap.blocks.Keys - Owned()) <==> |log.messages| <= N
      ensures partialWrite == NULL && forall j :: 0 <= j < N ==> buffer.entry[j].buffptr == NULL
      ensures hist == old(hist) && log == old(log)
    {
      SlotsFreeable(heap.blocks, buffer.State(), partialWrite, partialSize, hist, log);
      AfterCleanup(heap.blocks, buffer.State(), partialWrite, partialSize, hist, log);
      if partialWrite != NULL {
        heap.Kfree(partialWrite);
        partialWrite := NULL;
      }
      assert heap.blocks == old(heap.blocks) - {old(partialWrite)};
      FreeSlots();
    }

    /** The loop of the cleanup over all slots. */
    method FreeSlots()
      requires buffer.entry.Length == N && NULL !in heap.blocks
      requires forall j :: 0 <= j < N && buffer.entry[j].buffptr != NULL ==> buffer.entry[j].buffptr in heap.blocks
      requires forall i, j :: 0 <= i < j < N && buffer.entry[j].buffptr != NULL ==>
                 buffer.entry[i].buffptr != buffer.entry[j].buffptr
      modifies heap, buffer.entry
      ensures heap.blocks == old(heap.blocks) - Pointers(old(buffer.entry[..]))
      ensures forall j :: 0 <= j < N ==> buffer.entry[j].buffptr == NULL
    {
      ghost var slots := buffer.entry[..];
      for index := 0 to N
        invariant heap.blocks == old(heap.blocks) - Pointers(slots[..index])
        invariant forall j :: index <= j < N ==> buffer.entry[j] == slots[j]
        invariant forall j :: 0 <= j < index ==> buffer.entry[j].buffptr == NULL
      {
        PointersSnoc(slots, index);
        var p := buffer.entry[index].buffptr;
        if p != NULL {
          heap.Kfree(p);
          buffer.entry[index] := buffer.entry[index].(buffptr := NULL);
        }
      }
      assert slots[..N] == slots;
    }
  }

  /** The module is loaded, n one-line messages are written, and it is unloaded: the allocator
      has everything back if and only if n <= N. */
  method LoadWriteUnload(n: nat) returns (heap: KernelHeap)
    ensures heap.blocks == map[] <==> n <= N
  {
    heap := new KernelHeap();
    var dev := new AesdDevice(heap);
    var file := new OpenFile();
    for i := 0 to n
      invariant fresh(heap) && fresh(dev) && fresh(dev.buffer) && fresh(dev.buffer.entry) && dev.heap == heap
      invariant dev.Valid() && file.pos == 0 && heap.blocks.Keys - dev.Owned() == {}
      invariant |dev.log.messages| == i && dev.log.partial == []
    {
      var p := heap.FreeAddress();
      var ret := dev.Write(file, [NEWLINE], p, true, true, NULL);
    }
    dev.Cleanup();
  }
}
