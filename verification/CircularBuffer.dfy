/** The ring of (pointer, size) entries of aesd-circular-buffer.c and .h.

    Ring is the struct as a value and Add and Search are what the two C functions compute;
    the class at the end is the struct updated in place, each method proved against the
    value-level function.  RingOf says in closed form which struct results from a list of adds. */
module CircularBuffers {
  import opened Bytes

  type Ptr = nat

  const NULL: Ptr := 0

  datatype Entry = Entry(buffptr: Ptr, size: nat)

  const NULL_ENTRY := Entry(NULL, 0)

  /** AESDCHAR_MAX_WRITE_OPERATIONS_SUPPORTED.  The source sets 10; everything here holds for
      every capacity whose indices fit a uint8_t. */
  type Capacity = n: nat | 1 <= n <= 255 witness 10

  const N: Capacity

  /** x % N for the sums the code forms: an index plus one, or an index plus a command number. */
  function Wrap(x: nat): (j: nat)
    requires x < 2 * N
    ensures j < N
  {
    if x < N then x else x - N
  }

  lemma WrapIsMod(x: nat)
    requires x < 2 * N
    ensures Wrap(x) == x % N
  {
    ModBelowTwice(x, N);
  }

  lemma MulMonotone(a: nat, b: nat, n: nat)
    requires a <= b
    ensures a * n <= b * n
  {
  }

  lemma ModBelowTwice(x: nat, n: nat)
    requires 0 < n && x < 2 * n
    ensures x % n == if x < n then x else x - n
  {
    var q := x / n;
    assert x == q * n + x % n;
    if q >= 2 {
      MulMonotone(2, q, n);
    } else if q == 1 {
    } else {
    }
  }

  lemma ModShift(x: nat, n: nat)
    requires 0 < n
    ensures (x + n) % n == x % n
  {
    var q, q' := x / n, (x + n) / n;
    assert x + n == (q + 1) * n + x % n;
    assert x + n == q' * n + (x + n) % n;
    if q + 1 < q' {
      MulMonotone(q + 2, q', n);
    } else if q' < q + 1 {
      MulMonotone(q' + 1, q + 1, n);
    }
  }

  /** The slot written by the k-th add: in_offs stepped k times. */
  function SlotOf(k: nat): (j: nat)
    ensures j < N
  {
    if k == 0 then 0 else Wrap(SlotOf(k - 1) + 1)
  }

  lemma {:induction false} SlotShift(k: nat, d: nat)
    requires d <= N
    ensures SlotOf(k + d) == Wrap(SlotOf(k) + d)
  {
    if d > 0 {
      SlotShift(k, d - 1);
    }
  }

  lemma {:induction false} SlotIsMod(k: nat)
    ensures SlotOf(k) == k % N
  {
    if k < N {
      SlotShift(0, k);
      ModBelowTwice(k, N);
    } else {
      SlotIsMod(k - N);
      SlotShift(k - N, N);
      ModShift(k - N, N);
    }
  }

  // ---------------------------------------------------------------------------------------
  // The struct as a value

  datatype Ring = Ring(entry: seq<Entry>, inOffs: nat, outOffs: nat, full: bool)

  predicate Shape(r: Ring) {
    |r.entry| == N && r.inOffs < N && r.outOffs < N
  }

  function EmptyRing(): Ring {
    Ring(seq(N, _ => NULL_ENTRY), 0, 0, false)
  }

  function Add(r: Ring, e: Entry): Ring
    requires Shape(r)
  {
    var in' := Wrap(r.inOffs + 1);
    var out' := if r.full then Wrap(r.outOffs + 1) else r.outOffs;
    Ring(r.entry[r.inOffs := e], in', out', r.full || in' == out')
  }

  datatype Hit = Hit(slot: nat, offset: nat)

  function Search(r: Ring, charOffset: nat): Option<Hit>
    requires Shape(r)
  {
    if !r.full && r.inOffs == r.outOffs then None
    else Scan(r, charOffset, r.outOffs, 0, 0)
  }

  function Scan(r: Ring, charOffset: nat, index: nat, accumulated: nat, checked: nat): Option<Hit>
    requires Shape(r) && index < N && checked <= N && accumulated <= charOffset
    decreases N - checked
  {
    if checked == N then None
    else if charOffset < accumulated + r.entry[index].size then Some(Hit(index, charOffset - accumulated))
    else
      var index' := Wrap(index + 1);
      if r.full && checked + 1 >= N then None
      else if !r.full && index' == r.inOffs then None
      else Scan(r, charOffset, index', accumulated + r.entry[index].size, checked + 1)
  }

  // ---------------------------------------------------------------------------------------
  // Closed form in the list of adds

  /** Index of the oldest add still held after n adds. */
  function Oldest(n: nat): nat {
    if n < N then 0 else n - N
  }

  ghost predicate RingOf(r: Ring, h: seq<Entry>) {
    && Shape(r)
    && r.inOffs == SlotOf(|h|)
    && r.full == (N <= |h|)
    && r.outOffs == SlotOf(Oldest(|h|))
    && (forall k :: Oldest(|h|) <= k < |h| ==> r.entry[SlotOf(k)] == h[k])
    && (forall j :: |h| <= j < N ==> r.entry[j] == NULL_ENTRY)
  }

  function AddAll(h: seq<Entry>): (r: Ring)
    ensures Shape(r)
  {
    if h == [] then EmptyRing() else Add(AddAll(h[..|h| - 1]), h[|h| - 1])
  }

  lemma SlotFacts(n: nat)
    ensures SlotOf(n + 1) == Wrap(SlotOf(n) + 1)
    ensures n < N ==> SlotOf(n) == n
    ensures N <= n ==> SlotOf(n) == SlotOf(n - N)
  {
    if n < N {
      SlotShift(0, n);
    } else {
      SlotShift(n - N, N);
    }
  }

  lemma SlotDistinct(k: nat, n: nat)
    requires k < n < k + N
    ensures SlotOf(k) != SlotOf(n)
  {
    SlotShift(k, n - k);
  }

  lemma AddOffsets(r: Ring, h: seq<Entry>, e: Entry)
    requires RingOf(r, h)
    ensures var r' := Add(r, e);
            && r'.inOffs == SlotOf(|h| + 1)
            && r'.full == (N <= |h| + 1)
            && r'.outOffs == SlotOf(Oldest(|h| + 1))
  {
    SlotFacts(|h|);
    SlotFacts(|h| + 1);
  }

  /** One add keeps the closed form. */
  lemma AddKeepsClosedForm(r: Ring, h: seq<Entry>, e: Entry)
    requires RingOf(r, h)
    ensures RingOf(Add(r, e), h + [e])
  {
    var n := |h|;
    AddOffsets(r, h, e);
    if n < N {
      SlotFacts(n);
    }
    forall k | Oldest(n + 1) <= k < n + 1
      ensures Add(r, e).entry[SlotOf(k)] == (h + [e])[k]
    {
      if k < n {
        SlotDistinct(k, n);
      }
    }
  }

  /** After any list of adds to an initialised ring: in_offs and full are functions of the
      number of adds, out_offs is 0 until the ring is full and equals in_offs from then on, each
      slot holds the latest add congruent to it, and untouched slots are still zero. */
  lemma {:induction false} ClosedForm(h: seq<Entry>)
    ensures RingOf(AddAll(h), h)
    ensures AddAll(h).inOffs == |h| % N
    ensures AddAll(h).full <==> N <= |h|
    ensures AddAll(h).outOffs == if AddAll(h).full then AddAll(h).inOffs else 0
    ensures forall k :: 0 <= k < |h| <= k + N ==> k % N < N && AddAll(h).entry[k % N] == h[k]
    ensures forall j :: |h| <= j < N ==> AddAll(h).entry[j] == NULL_ENTRY
  {
    AddAllIsRingOf(h);
    SlotIsMod(|h|);
    SlotFacts(|h|);
    forall k | 0 <= k < |h| <= k + N
      ensures k % N < N && AddAll(h).entry[k % N] == h[k]
    {
      SlotIsMod(k);
    }
  }

  lemma {:induction false} AddAllIsRingOf(h: seq<Entry>)
    ensures RingOf(AddAll(h), h)
  {
    if h != [] {
      var k := |h| - 1;
      AddAllIsRingOf(h[..k]);
      AddKeepsClosedForm(AddAll(h[..k]), h[..k], h[k]);
      assert h[..k] + [h[k]] == h;
    }
  }

  /** The entries oldest to newest, read off the struct. */
  function Live(r: Ring): (live: seq<Entry>)
    requires Shape(r)
  {
    if r.full then r.entry[r.outOffs..] + r.entry[..r.outOffs]
    else if r.outOffs <= r.inOffs then r.entry[r.outOffs..r.inOffs]
    else []
  }

  lemma LiveLength(r: Ring, h: seq<Entry>)
    requires RingOf(r, h)
    ensures |Live(r)| == Min(N, |h|)
    ensures !r.full ==> r.outOffs == 0 && r.inOffs == |h|
    ensures r.full ==> r.outOffs == r.inOffs
  {
    SlotFacts(|h|);
  }

  /** The i-th oldest entry sits i slots after out_offs. */
  lemma LiveAt(r: Ring, h: seq<Entry>, i: nat)
    requires RingOf(r, h) && i < Min(N, |h|)
    ensures |Live(r)| == Min(N, |h|)
    ensures Live(r)[i] == r.entry[Wrap(r.outOffs + i)]
  {
    LiveLength(r, h);
  }

  lemma HeldAt(r: Ring, h: seq<Entry>, i: nat)
    requires RingOf(r, h) && i < Min(N, |h|)
    ensures r.entry[Wrap(r.outOffs + i)] == h[Oldest(|h|) + i]
  {
    SlotShift(Oldest(|h|), i);
  }

  /** The logical order of the struct is the order of the adds, and the command count that the
      ioctl reads off the struct is the number of live entries. */
  lemma LiveIsLastAdds(r: Ring, h: seq<Entry>)
    requires RingOf(r, h)
    ensures Live(r) == LastN(h, N)
    ensures (if r.full then N as nat else r.inOffs) == |Live(r)|
  {
    LiveLength(r, h);
    forall i | 0 <= i < |Live(r)|
      ensures Live(r)[i] == LastN(h, N)[i]
    {
      LiveAt(r, h, i);
      HeldAt(r, h, i);
    }
  }

  // ---------------------------------------------------------------------------------------
  // Search is flat indexing

  function SizeSum(es: seq<Entry>): nat {
    if es == [] then 0 else es[0].size + SizeSum(es[1..])
  }

  lemma {:induction false} SizeSumConcat(a: seq<Entry>, b: seq<Entry>)
    ensures SizeSum(a + b) == SizeSum(a) + SizeSum(b)
  {
    if a == [] {
      assert a + b == b;
    } else {
      assert (a + b)[1..] == a[1..] + b;
      SizeSumConcat(a[1..], b);
    }
  }

  lemma SizeSumStep(es: seq<Entry>, i: nat)
    requires i < |es|
    ensures SizeSum(es[..i + 1]) == SizeSum(es[..i]) + es[i].size
    ensures SizeSum(es[..i + 1]) <= SizeSum(es)
  {
    assert es[..i + 1] == es[..i] + [es[i]];
    assert es == es[..i + 1] + es[i + 1..];
    SizeSumConcat(es[..i], [es[i]]);
    SizeSumConcat(es[..i + 1], es[i + 1..]);
    assert [es[i]][1..] == [];
  }

  /** Byte o of entry i is byte off of the entries laid end to end. */
  ghost predicate Addresses(es: seq<Entry>, off: nat, i: nat, o: nat) {
    i < |es| && o < es[i].size && off == SizeSum(es[..i]) + o
  }

  /** The facts about a reachable struct that the search loop relies on. */
  ghost predicate Placed(r: Ring, live: seq<Entry>) {
    && Shape(r)
    && (if r.full then |live| == N else r.outOffs == 0 && r.inOffs == |live| < N)
    && (forall i :: 0 <= i < |live| ==> live[i] == r.entry[Wrap(r.outOffs + i)])
  }

  lemma LiveIsPlaced(r: Ring, h: seq<Entry>)
    requires RingOf(r, h)
    ensures Placed(r, Live(r))
  {
    LiveLength(r, h);
    forall i | 0 <= i < |Live(r)|
      ensures Live(r)[i] == r.entry[Wrap(r.outOffs + i)]
    {
      LiveAt(r, h, i);
    }
  }

  /** The loop at the head of its turn number checked. */
  ghost function ScanFrom(r: Ring, live: seq<Entry>, off: nat, checked: nat): Option<Hit>
    requires Placed(r, live) && checked < |live| && SizeSum(live[..checked]) <= off
  {
    Scan(r, off, Wrap(r.outOffs + checked), SizeSum(live[..checked]), checked)
  }

  lemma ScanUnfold(r: Ring, off: nat, index: nat, acc: nat, checked: nat)
    requires Shape(r) && index < N && checked < N && acc <= off
    ensures var acc' := acc + r.entry[index].size;
            Scan(r, off, index, acc, checked) ==
            if off < acc' then Some(Hit(index, off - acc))
            else if (r.full && checked + 1 >= N) || (!r.full && Wrap(index + 1) == r.inOffs) then None
            else Scan(r, off, Wrap(index + 1), acc', checked + 1)
  {
  }

  /** The loop stops after the last live slot, and not before. */
  lemma NextIndex(r: Ring, live: seq<Entry>, checked: nat)
    requires Placed(r, live) && checked < |live|
    ensures (r.full && checked + 1 >= N) || (!r.full && Wrap(Wrap(r.outOffs + checked) + 1) == r.inOffs)
            <==> checked + 1 == |live|
    ensures checked + 1 < |live| ==> Wrap(Wrap(r.outOffs + checked) + 1) == Wrap(r.outOffs + (checked + 1))
  {
  }

  lemma ScanTurn(r: Ring, live: seq<Entry>, off: nat, checked: nat)
    requires Placed(r, live) && checked < |live| && SizeSum(live[..checked]) <= off
    ensures SizeSum(live[..checked + 1]) == SizeSum(live[..checked]) + live[checked].size
    ensures ScanFrom(r, live, off, checked) ==
            if off < SizeSum(live[..checked + 1]) then
              Some(Hit(Wrap(r.outOffs + checked), off - SizeSum(live[..checked])))
            else if checked + 1 == |live| then None
            else ScanFrom(r, live, off, checked + 1)
  {
    var index, acc := Wrap(r.outOffs + checked), SizeSum(live[..checked]);
    SizeSumStep(live, checked);
    assert r.entry[index] == live[checked];
    ScanUnfold(r, off, index, acc, checked);
    NextIndex(r, live, checked);
  }

  /** What the loop returns from its turn number checked on. */
  lemma {:induction false} ScanAddresses(r: Ring, live: seq<Entry>, off: nat, checked: nat)
      returns (i: nat, o: nat)
    requires Placed(r, live) && checked < |live| && SizeSum(live[..checked]) <= off
    ensures if off < SizeSum(live)
            then Addresses(live, off, i, o) && ScanFrom(r, live, off, checked) == Some(Hit(Wrap(r.outOffs + i), o))
            else ScanFrom(r, live, off, checked) == None
    decreases |live| - checked
  {
    ScanTurn(r, live, off, checked);
    i, o := checked, 0;
    if off < SizeSum(live[..checked + 1]) {
      o := off - SizeSum(live[..checked]);
      SizeSumStep(live, checked);
    } else if checked + 1 == |live| {
      assert live[..checked + 1] == live;
    } else {
      i, o := ScanAddresses(r, live, off, checked + 1);
    }
  }

  lemma SizeSumMonotone(es: seq<Entry>, i: nat, j: nat)
    requires i < j <= |es|
    ensures SizeSum(es[..i]) + es[i].size <= SizeSum(es[..j])
  {
    SizeSumStep(es[..j], i);
    assert es[..j][..i + 1] == es[..i + 1];
    assert es[..j][..i] == es[..i];
  }

  lemma AddressUnique(es: seq<Entry>, off: nat, i: nat, o: nat, i': nat, o': nat)
    requires Addresses(es, off, i, o) && Addresses(es, off, i', o')
    ensures i == i' && o == o'
  {
    if i < i' {
      SizeSumMonotone(es, i, i');
    } else if i' < i {
      SizeSumMonotone(es, i', i);
    }
  }

  /** The search returns null exactly for offsets at or past the end; otherwise the slot and
      the offset of the one byte at that place of the concatenation. */
  lemma SearchIsFlatIndexing(r: Ring, h: seq<Entry>, off: nat)
    requires RingOf(r, h)
    ensures Search(r, off) == None <==> SizeSum(Live(r)) <= off
    ensures forall i, o ::
              Addresses(Live(r), off, i, o) ==> Search(r, off) == Some(Hit(Wrap(r.outOffs + i), o))
    ensures off < SizeSum(Live(r)) ==> exists i, o :: Addresses(Live(r), off, i, o)
  {
    LiveLength(r, h);
    LiveIsPlaced(r, h);
    if Live(r) != [] {
      assert Live(r)[..0] == [];
      var i, o := ScanAddresses(r, Live(r), off, 0);
      forall i', o' | Addresses(Live(r), off, i', o')
        ensures off < SizeSum(Live(r)) && i' == i && o' == o
      {
        SizeSumStep(Live(r), i');
        AddressUnique(Live(r), off, i, o, i', o');
      }
    }
  }

  /** The total over the physical slots, in physical order, is the total over the logical
      order: the two walks of the ring agree. */
  lemma PhysicalSumIsLogicalSum(r: Ring, h: seq<Entry>)
    requires RingOf(r, h)
    ensures SizeSum(r.entry) == SizeSum(Live(r))
  {
    LiveIsLastAdds(r, h);
    SlotFacts(|h|);
    if r.full {
      SizeSumConcat(r.entry[r.outOffs..], r.entry[..r.outOffs]);
      SizeSumConcat(r.entry[..r.outOffs], r.entry[r.outOffs..]);
      assert r.entry == r.entry[..r.outOffs] + r.entry[r.outOffs..];
    } else {
      assert r.entry == Live(r) + r.entry[r.inOffs..];
      SizeSumConcat(Live(r), r.entry[r.inOffs..]);
      NullEntriesAreEmpty(r.entry[r.inOffs..]);
    }
  }

  lemma {:induction false} NullEntriesAreEmpty(es: seq<Entry>)
    requires forall j :: 0 <= j < |es| ==> es[j] == NULL_ENTRY
    ensures SizeSum(es) == 0
  {
    if es != [] {
      NullEntriesAreEmpty(es[1..]);
    }
  }

  /** Every physical slot holds either a live entry, named by its place in the logical order,
      or nothing at all. */
  lemma SlotHoldsLiveOrNull(r: Ring, h: seq<Entry>, j: nat) returns (i: nat)
    requires RingOf(r, h) && j < N
    ensures || (i < |Live(r)| && Wrap(r.outOffs + i) == j && r.entry[j] == Live(r)[i])
            || (r.entry[j] == NULL_ENTRY && |h| <= j)
  {
    LiveIsLastAdds(r, h);
    SlotFacts(|h|);
    i := if r.outOffs <= j then j - r.outOffs else j + N - r.outOffs;
  }

  // ---------------------------------------------------------------------------------------
  // The struct updated in place

  class CircularBuffer {
    const entry: array<Entry>
    var inOffs: nat
    var outOffs: nat
    var full: bool

    function State(): Ring
      reads this, entry
    {
      Ring(entry[..], inOffs, outOffs, full)
    }

    /** memset of the whole struct to zero. */
    constructor ()
      ensures fresh(entry) && State() == EmptyRing()
      ensures RingOf(State(), [])
    {
      entry := new Entry[N](_ => NULL_ENTRY);
      inOffs, outOffs, full := 0, 0, false;
      new;
      assert entry[..] == EmptyRing().entry;
      SlotFacts(0);
    }

    /** The while loop of the search, with the slots it visits. */
    method FindEntryOffsetForFpos(charOffset: nat) returns (hit: Option<Hit>, visited: seq<nat>)
      requires Shape(State())
      ensures hit == Search(State(), charOffset)
      ensures |visited| <= N
      ensures forall k :: 0 <= k < |visited| ==> visited[k] == Wrap(outOffs + k)
      ensures !full && outOffs == 0 ==> |visited| <= inOffs
      ensures hit.Some? ==> visited != [] && visited[|visited| - 1] == hit.value.slot
    {
      visited := [];
      if !full && inOffs == outOffs {
        return None, [];
      }
      var accumulated, index, checked := 0, outOffs, 0;
      while checked < N
        invariant checked <= N && index == Wrap(outOffs + checked) && 0 <= accumulated <= charOffset
        invariant |visited| == checked
        invariant !full && outOffs == 0 ==> checked < inOffs
        invariant forall k :: 0 <= k < |visited| ==> visited[k] == Wrap(outOffs + k)
        invariant Scan(State(), charOffset, index, accumulated, checked) == Search(State(), charOffset)
      {
        visited := visited + [index];
        ScanUnfold(State(), charOffset, index, accumulated, checked);
        if charOffset < accumulated + entry[index].size {
          return Some(Hit(index, charOffset - accumulated)), visited;
        }
        accumulated := accumulated + entry[index].size;
        index := Wrap(index + 1);
        checked := checked + 1;
        if full && checked >= N {
          break;
        }
        if !full && index == inOffs {
          break;
        }
      }
      return None, visited;
    }

    /** The add; the returned pointer is always null, whatever was overwritten. */
    method AddEntry(e: Entry, ghost h: seq<Entry>) returns (replaced: Ptr)
      requires RingOf(State(), h)
      modifies this, entry
      ensures State() == Add(old(State()), e)
      ensures RingOf(State(), h + [e])
      ensures replaced == NULL
    {
      AddKeepsClosedForm(State(), h, e);
      replaced := NULL;
      if !full {
        entry[inOffs] := e;
        inOffs := Wrap(inOffs + 1);
      } else {
        entry[inOffs] := e;
        inOffs := Wrap(inOffs + 1);
        outOffs := Wrap(outOffs + 1);
      }
      if inOffs == outOffs && !full {
        full := true;
      }
    }
  }
}
