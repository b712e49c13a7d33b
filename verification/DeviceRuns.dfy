/** Runs of system calls: what the device has kept of everything that was ever written. */
module DeviceRuns {
  import opened Bytes
  import opened CircularBuffers
  import opened DeviceSpec

  predicate Known(s: Sys, calls: seq<Call>) {
    forall i :: 0 <= i < |calls| ==> calls[i].h in s.pos
  }

  /** A run, call after call, with the outcome of each. */
  function Run(s: Sys, calls: seq<Call>): (so: (Sys, seq<Outcome>))
    requires Known(s, calls)
    ensures so.0.pos.Keys == s.pos.Keys && |so.1| == |calls|
  {
    if calls == [] then (s, [])
    else
      var (s1, os) := Run(s, calls[..|calls| - 1]);
      var (s2, o) := Do(s1, calls[|calls| - 1]);
      (s2, os + [o])
  }

  /** A device just loaded, with some files open at position 0. */
  predicate Fresh(s: Sys) {
    s.log == Log([], []) && forall h :: h in s.pos ==> s.pos[h] == 0
  }

  /** The data of the writes that succeeded, in order. */
  function Accepted(calls: seq<Call>, os: seq<Outcome>): seq<Text>
    requires |calls| == |os|
  {
    if calls == [] then []
    else
      var k := |calls| - 1;
      Accepted(calls[..k], os[..k]) + if calls[k].Write? && 0 <= os[k].ret then [calls[k].data] else []
  }

  // ---------------------------------------------------------------------------------------
  // Segmentation

  function FirstNewline(writes: seq<Text>): (i: nat)
    ensures i <= |writes|
    ensures forall k :: 0 <= k < i ==> !HasNewline(writes[k])
    ensures i < |writes| ==> HasNewline(writes[i])
  {
    if writes == [] || HasNewline(writes[0]) then 0 else 1 + FirstNewline(writes[1..])
  }

  /** The list of writes cut after each one that contains a newline, independently of any
      device: each group is one message, what is left over is the partial write. */
  function Split(writes: seq<Text>): Log
    decreases |writes|
  {
    var i := FirstNewline(writes);
    if i == |writes| then Log([], Flatten(writes))
    else
      var rest := Split(writes[i + 1..]);
      Log([Flatten(writes[..i + 1])] + rest.messages, rest.partial)
  }

  lemma {:induction false} FirstNewlineSnoc(writes: seq<Text>, w: Text)
    ensures FirstNewline(writes + [w]) ==
            if FirstNewline(writes) < |writes| || HasNewline(w) then FirstNewline(writes) else |writes| + 1
  {
    if writes != [] && !HasNewline(writes[0]) {
      assert (writes + [w])[1..] == writes[1..] + [w];
      FirstNewlineSnoc(writes[1..], w);
    } else if writes == [] {
      assert (writes + [w])[1..] == [];
    }
  }

  lemma {:induction false} SplitSnoc(writes: seq<Text>, w: Text)
    ensures Split(writes + [w]) == Accept(Split(writes), w)
    decreases |writes|
  {
    var i, all := FirstNewline(writes), writes + [w];
    FirstNewlineSnoc(writes, w);
    if i < |writes| {
      assert all[i + 1..] == writes[i + 1..] + [w] && all[..i + 1] == writes[..i + 1];
      SplitSnoc(writes[i + 1..], w);
    } else {
      FlattenSnoc(writes, w);
      if HasNewline(w) {
        assert all[..i + 1] == all && all[i + 1..] == [];
        assert Split([]) == Log([], []);
      }
    }
  }

  lemma {:induction false} SplitConserves(writes: seq<Text>)
    ensures Flatten(Split(writes).messages) + Split(writes).partial == Flatten(writes)
    ensures !HasNewline(Split(writes).partial)
    decreases |writes|
  {
    var i := FirstNewline(writes);
    if i == |writes| {
      NoNewlineFlatten(writes);
    } else {
      var rest := Split(writes[i + 1..]);
      SplitConserves(writes[i + 1..]);
      FlattenCut(writes, i + 1);
      FlattenConcat([Flatten(writes[..i + 1])], rest.messages);
      FlattenOne(Flatten(writes[..i + 1]));
    }
  }

  lemma {:induction false} NoNewlineFlatten(writes: seq<Text>)
    requires forall k :: 0 <= k < |writes| ==> !HasNewline(writes[k])
    ensures !HasNewline(Flatten(writes))
  {
    if writes != [] {
      NoNewlineFlatten(writes[1..]);
    }
  }

  lemma {:induction false} AcceptedSnoc(calls: seq<Call>, os: seq<Outcome>, c: Call, o: Outcome)
    requires |calls| == |os|
    ensures Accepted(calls + [c], os + [o]) ==
            Accepted(calls, os) + if c.Write? && 0 <= o.ret then [c.data] else []
  {
    assert (calls + [c])[..|calls|] == calls && (os + [o])[..|os|] == os;
  }

  /** After any run, the log is the accepted writes cut after each newline-containing one. */
  lemma {:induction false} RunSegments(s: Sys, calls: seq<Call>)
    requires Known(s, calls) && Fresh(s)
    ensures var (s', os) := Run(s, calls);
            s'.log == Split(Accepted(calls, os))
  {
    if calls == [] {
      assert Split([]) == Log([], []);
    } else {
      var k := |calls| - 1;
      var (s1, os) := Run(s, calls[..k]);
      var (s2, o) := Do(s1, calls[k]);
      RunSegments(s, calls[..k]);
      assert calls[..k] + [calls[k]] == calls;
      AcceptedSnoc(calls[..k], os, calls[k], o);
      if calls[k].Write? && 0 <= o.ret {
        SplitSnoc(Accepted(calls[..k], os), calls[k].data);
      } else {
        assert Accepted(calls, os + [o]) == Accepted(calls[..k], os);
      }
    }
  }

  /** Nothing is lost and nothing is invented: evicted messages, ring, and partial write are,
      in this order, exactly what the successful writes wrote; the ring is the last min(n, N)
      groups of that list; and the partial write never contains a newline. */
  lemma {:induction false} StreamConservation(s: Sys, calls: seq<Call>)
    requires Known(s, calls) && Fresh(s)
    ensures var (s', os) := Run(s, calls);
            var writes := Accepted(calls, os);
            && Flatten(Evicted(s'.log)) + Contents(s'.log) + s'.log.partial == Flatten(writes)
            && Stored(s'.log) == LastN(Split(writes).messages, N)
            && s'.log.partial == Split(writes).partial
            && !HasNewline(s'.log.partial)
  {
    var (s', os) := Run(s, calls);
    RunSegments(s, calls);
    SplitConserves(Accepted(calls, os));
    HistoryIsEvictedThenRing(s'.log);
  }

  lemma HistoryIsEvictedThenRing(log: Log)
    ensures log.messages == Evicted(log) + Stored(log)
    ensures Flatten(log.messages) == Flatten(Evicted(log)) + Contents(log)
  {
    assert log.messages == Evicted(log) + Stored(log);
    FlattenConcat(Evicted(log), Stored(log));
  }

  lemma {:induction false} PositionsStayNonNegative(s: Sys, calls: seq<Call>)
    requires Known(s, calls) && forall h :: h in s.pos ==> 0 <= s.pos[h]
    ensures forall h :: h in s.pos ==> 0 <= Run(s, calls).0.pos[h]
  {
    if calls != [] {
      PositionsStayNonNegative(s, calls[..|calls| - 1]);
    }
  }

  lemma MiddleSlice(a: Text, b: Text, c: Text, p: nat, count: nat)
    ensures var k := Min(count, Max(0, |b| - p));
            0 < k ==> |a| + p + k <= |a + b + c| && (a + b + c)[|a| + p..|a| + p + k] == Slice(b, p, count)
  {
  }

  /** The outcome of a read at p, of at most count bytes: as many as the total leaves, and they
      are the bytes of history from dropped + p on, where history is everything ever accepted. */
  ghost predicate ReadFromHistory(history: Text, dropped: nat, p: nat, total: nat, count: nat, o: Outcome) {
    var k := Min(count, Max(0, total - p));
    && o.ret == k
    && |o.bytes| == k
    && (0 < k ==> dropped + p + k <= |history| && o.bytes == history[dropped + p..dropped + p + k])
  }

  lemma ReadRefinesLog(s: Sys, h: Handle, count: nat)
    requires h in s.pos && 0 <= s.pos[h] && 0 < count
    ensures ReadFromHistory(Flatten(Evicted(s.log)) + Contents(s.log) + s.log.partial, |Flatten(Evicted(s.log))|,
                            s.pos[h], |Contents(s.log)|, count, Do(s, Read(h, count, true, None)).1)
  {
    ReadIsSlice(s, Read(h, count, true, None));
    MiddleSlice(Flatten(Evicted(s.log)), Contents(s.log), s.log.partial, s.pos[h], count);
  }

  /** In any run, a read that does not fault returns a contiguous slice of everything ever
      accepted, starting as many bytes in as have been evicted by then plus the reader's
      position: evictions between reads silently move the reader forward by what they drop. */
  lemma ReadsRefineHistory(s: Sys, calls: seq<Call>, h: Handle, count: nat)
    requires Known(s, calls) && Fresh(s) && h in s.pos && 0 < count
    ensures var (s', os) := Run(s, calls);
            && 0 <= s'.pos[h]
            && ReadFromHistory(Flatten(Accepted(calls, os)), |Flatten(Evicted(s'.log))|,
                               s'.pos[h], |Contents(s'.log)|, count, Do(s', Read(h, count, true, None)).1)
  {
    var (s', os) := Run(s, calls);
    StreamConservation(s, calls);
    PositionsStayNonNegative(s, calls);
    ReadRefinesLog(s', h, count);
  }
}
