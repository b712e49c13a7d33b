/** Byte strings, lists of byte strings, and the few facts about them that every layer uses. */
module Bytes {

  newtype byte = x: int | 0 <= x < 256

  type Text = seq<byte>

  const NEWLINE: byte := 10

  datatype Option<+T> = None | Some(value: T)

  predicate HasNewline(s: Text) {
    NEWLINE in s
  }

  function Min(a: int, b: int): (m: int) {
    if a < b then a else b
  }

  function Max(a: int, b: int): (m: int) {
    if a < b then b else a
  }

  /** The last min(n, |s|) elements of s. */
  function LastN<T>(s: seq<T>, n: nat): (r: seq<T>)
    ensures |r| == Min(n, |s|)
  {
    s[Max(0, |s| - n)..]
  }

  /** At most count bytes of s from position p on; nothing when p is at or past the end. */
  function Slice(s: Text, p: nat, count: nat): (r: Text)
    ensures |r| == Min(count, Max(0, |s| - p))
  {
    if |s| <= p then [] else s[p..Min(p + count, |s|)]
  }

  function Flatten(ts: seq<Text>): Text {
    if ts == [] then [] else ts[0] + Flatten(ts[1..])
  }

  lemma {:induction false} FlattenConcat(a: seq<Text>, b: seq<Text>)
    ensures Flatten(a + b) == Flatten(a) + Flatten(b)
  {
    if a == [] {
      assert a + b == b;
    } else {
      assert (a + b)[1..] == a[1..] + b;
      FlattenConcat(a[1..], b);
    }
  }

  lemma FlattenOne(t: Text)
    ensures Flatten([t]) == t
  {
    assert [t][1..] == [];
  }

  lemma FlattenSnoc(a: seq<Text>, t: Text)
    ensures Flatten(a + [t]) == Flatten(a) + t
  {
    FlattenConcat(a, [t]);
    FlattenOne(t);
  }

  /** Flattening a list that is cut in two. */
  lemma FlattenCut(a: seq<Text>, i: nat)
    requires i <= |a|
    ensures Flatten(a) == Flatten(a[..i]) + Flatten(a[i..])
  {
    assert a == a[..i] + a[i..];
    FlattenConcat(a[..i], a[i..]);
  }

  /** Element i of a list starts, in the flattened list, after everything before it. */
  lemma FlattenSplitAt(a: seq<Text>, i: nat)
    requires i < |a|
    ensures Flatten(a) == Flatten(a[..i]) + a[i] + Flatten(a[i + 1..])
  {
    FlattenCut(a, i);
    assert a[i..][1..] == a[i + 1..];
  }

  /** Reading a bytes and then b bytes is reading a + b bytes. */
  lemma SliceSplit(s: Text, p: nat, a: nat, b: nat)
    ensures Slice(s, p, a) + Slice(s, p + |Slice(s, p, a)|, b) == Slice(s, p, a + b)
  {
  }

  lemma SliceOfRest(s: Text, n: nat, p: nat, count: nat)
    requires n <= |s|
    ensures Slice(s, n + p, count) == Slice(s[n..], p, count)
  {
  }
}
