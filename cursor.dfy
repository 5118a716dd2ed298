/**
 * The storage engine's raw cursor, reduced to what the iterator layer relies
 * on: a position over the store's entries in ascending key order, with one
 * distinguished invalid position, and the engine's seek and step operations.
 */
module Cursor {
  import opened ByteOrder

  /** One key/value pair of the store. */
  datatype Entry = Entry(key: Bytes, value: Bytes)

  /** The engine presents its keyspace in strictly ascending key order. */
  ghost predicate Sorted(s: seq<Entry>) {
    forall i, j :: 0 <= i < j < |s| ==> Less(s[i].key, s[j].key)
  }

  /** On the entry at index `i`, or the engine's single invalid position. */
  datatype Pos = At(i: nat) | Off

  /** A position the engine can hold over `s`. */
  predicate InRange(s: seq<Entry>, p: Pos) {
    p.At? ==> p.i < |s|
  }

  /** `leveldb_iter_valid`. */
  predicate CursorValid(p: Pos) {
    p.At?
  }

  /** `leveldb_iter_seek_to_first`. */
  function SeekToFirstPos(s: seq<Entry>): (p: Pos)
    ensures InRange(s, p) && (p.At? <==> |s| != 0)
  {
    if |s| == 0 then Off else At(0)
  }

  /** `leveldb_iter_seek_to_last`. */
  function SeekToLastPos(s: seq<Entry>): (p: Pos)
    ensures InRange(s, p) && (p.At? <==> |s| != 0)
  {
    if |s| == 0 then Off else At(|s| - 1)
  }

  /** The first index at or after `lo` whose key is at least `k`, or `|s|`. */
  function LowerBoundFrom(s: seq<Entry>, k: Bytes, lo: nat): (i: nat)
    requires lo <= |s|
    ensures lo <= i <= |s|
    ensures forall j :: lo <= j < i ==> Less(s[j].key, k)
    ensures i < |s| ==> LessEq(k, s[i].key)
    decreases |s| - lo
  {
    if lo == |s| || LessEq(k, s[lo].key) then lo else LowerBoundFrom(s, k, lo + 1)
  }

  /** The first index whose key is at least `k`, or `|s|` when there is none. */
  function LowerBound(s: seq<Entry>, k: Bytes): (i: nat)
    ensures i <= |s|
  {
    LowerBoundFrom(s, k, 0)
  }

  /** In a sorted store every key from the lower bound on is at least `k`, and none before it is. */
  lemma LowerBoundSplits(s: seq<Entry>, k: Bytes)
    requires Sorted(s)
    ensures forall j :: 0 <= j < LowerBound(s, k) ==> Less(s[j].key, k)
    ensures forall j :: LowerBound(s, k) <= j < |s| ==> LessEq(k, s[j].key)
  {
    var i := LowerBound(s, k);
    forall j | i < j < |s|
      ensures LessEq(k, s[j].key)
    {
      LessEqLessTransitive(k, s[i].key, s[j].key);
      LessIsStrict(k, s[j].key);
    }
  }

  /** `leveldb_iter_seek(k)`: the first key at least `k`, or invalid when there is none. */
  function SeekPos(s: seq<Entry>, k: Bytes): (p: Pos)
    ensures InRange(s, p)
    ensures p.At? <==> exists j :: 0 <= j < |s| && LessEq(k, s[j].key)
  {
    var i := LowerBound(s, k);
    assert i < |s| ==> LessEq(k, s[i].key);
    if i < |s| then At(i) else Off
  }

  /** `leveldb_iter_next`; the engine requires a valid cursor. */
  function NextPos(s: seq<Entry>, p: Pos): (q: Pos)
    requires p.At? && InRange(s, p)
    ensures InRange(s, q)
  {
    if p.i + 1 < |s| then At(p.i + 1) else Off
  }

  /** `leveldb_iter_prev`; the engine requires a valid cursor. */
  function PrevPos(s: seq<Entry>, p: Pos): (q: Pos)
    requires p.At? && InRange(s, p)
    ensures InRange(s, q)
  {
    if p.i > 0 then At(p.i - 1) else Off
  }
}
