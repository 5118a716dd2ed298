/**
 * The bounds an iterator carries and the set of entries they admit: the
 * bound test of `valid` and, as a reference for what a traversal must
 * yield, the admitted entries of the store in store order.
 */
module Range {
  import opened Wrappers
  import opened ByteOrder
  import opened Cursor

  /** Which of the two iterator kinds: `Iterator` (ascending) or `RevIterator` (descending). */
  datatype Direction = Forward | Reverse

  /** The `from`, `to` and `prefix` fields of an iterator. */
  datatype Bounds = Bounds(from: Option<Bytes>, to: Option<Bytes>, prefix: Option<Bytes>)

  const Unbounded := Bounds(None, None, None)

  /**
   * The bound part of `valid(reverse)`: a prefix bound, when set, decides
   * alone; otherwise `from` and `to` are inclusive, and in reverse `from` is
   * an upper and `to` a lower bound.
   */
  predicate InBounds(b: Bounds, reverse: bool, k: Bytes) {
    match b.prefix
    case Some(p) => HasPrefix(k, p)
    case None =>
      (match b.from
       case None => true
       case Some(f) => if reverse then LessEq(k, f) else LessEq(f, k)) &&
      (match b.to
       case None => true
       case Some(t) => if reverse then LessEq(t, k) else LessEq(k, t))
  }

  /** The entries of `x` that the bounds admit, in the order of `x`. */
  function Select(x: seq<Entry>, b: Bounds, reverse: bool): (r: seq<Entry>)
    ensures |r| <= |x|
    ensures forall e :: e in r <==> e in x && InBounds(b, reverse, e.key)
  {
    if |x| == 0 then []
    else (if InBounds(b, reverse, x[0].key) then [x[0]] else []) + Select(x[1..], b, reverse)
  }

  /** `x` read backwards. */
  function Reversed<T>(x: seq<T>): (r: seq<T>)
    ensures |r| == |x|
  {
    if |x| == 0 then [] else [x[|x| - 1]] + Reversed(x[..|x| - 1])
  }

  lemma {:induction false} ReversedAt<T>(x: seq<T>, k: nat)
    requires k < |x|
    ensures Reversed(x)[k] == x[|x| - 1 - k]
    decreases |x|
  {
    if k > 0 {
      ReversedAt(x[..|x| - 1], k - 1);
    }
  }

  lemma ReversedSnoc<T>(x: seq<T>, e: T)
    ensures Reversed(x + [e]) == [e] + Reversed(x)
  {
    assert (x + [e])[..|x|] == x;
  }

  /** Extending the input by one entry extends the selection by that entry when it is admitted. */
  lemma SelectSnoc(x: seq<Entry>, e: Entry, b: Bounds, reverse: bool)
    ensures Select(x + [e], b, reverse) ==
            Select(x, b, reverse) + if InBounds(b, reverse, e.key) then [e] else []
  {
    SelectAppend(x, [e], b, reverse);
  }

  lemma {:induction false} SelectAppend(x: seq<Entry>, y: seq<Entry>, b: Bounds, reverse: bool)
    ensures Select(x + y, b, reverse) == Select(x, b, reverse) + Select(y, b, reverse)
    decreases |x|
  {
    if |x| != 0 {
      assert (x + y)[1..] == x[1..] + y;
      SelectAppend(x[1..], y, b, reverse);
    } else {
      assert x + y == y;
    }
  }

  lemma {:induction false} SelectNone(x: seq<Entry>, b: Bounds, reverse: bool)
    requires forall j :: 0 <= j < |x| ==> !InBounds(b, reverse, x[j].key)
    ensures Select(x, b, reverse) == []
    decreases |x|
  {
    if |x| != 0 {
      SelectNone(x[1..], b, reverse);
    }
  }

  lemma {:induction false} SelectAll(x: seq<Entry>, b: Bounds, reverse: bool)
    requires forall j :: 0 <= j < |x| ==> InBounds(b, reverse, x[j].key)
    ensures Select(x, b, reverse) == x
    decreases |x|
  {
    if |x| != 0 {
      SelectAll(x[1..], b, reverse);
      assert x == [x[0]] + x[1..];
    }
  }

  /** A non-empty prefix of `s` is the shorter prefix followed by its last element. */
  lemma PrefixSnoc<T>(s: seq<T>, m: nat)
    requires 0 < m <= |s|
    ensures s[..m] == s[..m - 1] + [s[m - 1]]
  {
  }

  lemma SplitThree<T>(s: seq<T>, lo: nat, hi: nat)
    requires lo <= hi <= |s|
    ensures s == s[..lo] + s[lo..hi] + s[hi..]
  {
    assert s[..hi] == s[..lo] + s[lo..hi];
    assert s == s[..hi] + s[hi..];
  }

  /** When the bounds admit exactly the entries in `lo..hi`, the selection is that slice. */
  lemma SelectWindow(s: seq<Entry>, b: Bounds, reverse: bool, lo: nat, hi: nat)
    requires lo <= hi <= |s|
    requires forall j :: 0 <= j < lo ==> !InBounds(b, reverse, s[j].key)
    requires forall j :: lo <= j < hi ==> InBounds(b, reverse, s[j].key)
    requires forall j :: hi <= j < |s| ==> !InBounds(b, reverse, s[j].key)
    ensures Select(s, b, reverse) == s[lo..hi]
  {
    var before, window, after := s[..lo], s[lo..hi], s[hi..];
    SplitThree(s, lo, hi);
    forall j | 0 <= j < |before|
      ensures !InBounds(b, reverse, before[j].key)
    {
      assert before[j] == s[j];
    }
    forall j | 0 <= j < |window|
      ensures InBounds(b, reverse, window[j].key)
    {
      assert window[j] == s[lo + j];
    }
    forall j | 0 <= j < |after|
      ensures !InBounds(b, reverse, after[j].key)
    {
      assert after[j] == s[hi + j];
    }
    SelectNone(before, b, reverse);
    SelectAll(window, b, reverse);
    SelectNone(after, b, reverse);
    SelectAppend(before, window, b, reverse);
    SelectAppend(before + window, after, b, reverse);
    assert [] + window + [] == window;
  }

  /** The bounds admit every key. */
  lemma UnboundedAdmitsAll(reverse: bool, k: Bytes)
    ensures InBounds(Unbounded, reverse, k)
  {
  }

  /**
   * Forward, the admitted keys are those past the lower side (`Entered`)
   * and not beyond the upper side (`NotPassed`); a prefix bound is the range
   * from the prefix up to the last key that starts with it.
   */
  ghost predicate Entered(b: Bounds, k: Bytes) {
    match b.prefix
    case Some(p) => LessEq(p, k)
    case None => b.from.None? || LessEq(b.from.value, k)
  }

  ghost predicate NotPassed(b: Bounds, k: Bytes) {
    match b.prefix
    case Some(p) => HasPrefix(k, p) || Less(k, p)
    case None => b.to.None? || LessEq(k, b.to.value)
  }

  lemma ForwardSplit(b: Bounds, k: Bytes)
    ensures InBounds(b, false, k) <==> Entered(b, k) && NotPassed(b, k)
  {
    if b.prefix.Some? && HasPrefix(k, b.prefix.value) {
      PrefixIsLeast(k, b.prefix.value);
    }
  }

  lemma EnteredUpward(b: Bounds, k1: Bytes, k2: Bytes)
    requires Entered(b, k1) && LessEq(k1, k2)
    ensures Entered(b, k2)
  {
    match b.prefix
    case Some(p) => LessEqTransitive(p, k1, k2);
    case None => if b.from.Some? { LessEqTransitive(b.from.value, k1, k2); }
  }

  lemma NotPassedDownward(b: Bounds, k1: Bytes, k2: Bytes)
    requires NotPassed(b, k2) && LessEq(k1, k2)
    ensures NotPassed(b, k1)
  {
    match b.prefix
    case Some(p) =>
      if Less(k2, p) {
        LessEqLessTransitive(k1, k2, p);
      } else if LessEq(p, k1) {
        PrefixBetween(p, k1, k2);
      }
    case None => if b.to.Some? { LessEqTransitive(k1, k2, b.to.value); }
  }

  /**
   * Reverse, the admitted keys are those on the lower side of the upper
   * end (`RevEntered`: at most `from`, or below the end of the block of
   * keys starting with the prefix) and not below the lower end
   * (`RevNotPassed`: at least `to`, or at least the prefix).
   */
  ghost predicate RevEntered(b: Bounds, k: Bytes) {
    match b.prefix
    case Some(p) => HasPrefix(k, p) || Less(k, p)
    case None => b.from.None? || LessEq(k, b.from.value)
  }

  ghost predicate RevNotPassed(b: Bounds, k: Bytes) {
    match b.prefix
    case Some(p) => LessEq(p, k)
    case None => b.to.None? || LessEq(b.to.value, k)
  }

  lemma ReverseSplit(b: Bounds, k: Bytes)
    ensures InBounds(b, true, k) <==> RevEntered(b, k) && RevNotPassed(b, k)
  {
    if b.prefix.Some? && HasPrefix(k, b.prefix.value) {
      PrefixIsLeast(k, b.prefix.value);
    }
  }

  lemma RevNotPassedUpward(b: Bounds, k1: Bytes, k2: Bytes)
    requires RevNotPassed(b, k1) && LessEq(k1, k2)
    ensures RevNotPassed(b, k2)
  {
    match b.prefix
    case Some(p) => LessEqTransitive(p, k1, k2);
    case None => if b.to.Some? { LessEqTransitive(b.to.value, k1, k2); }
  }

  lemma RevEnteredDownward(b: Bounds, k1: Bytes, k2: Bytes)
    requires RevEntered(b, k2) && LessEq(k1, k2)
    ensures RevEntered(b, k1)
  {
    match b.prefix
    case Some(p) => NotPassedDownward(b, k1, k2);
    case None => if b.from.Some? { LessEqTransitive(k1, k2, b.from.value); }
  }

  /**
   * The comparison flips with the direction: reverse with `from`/`to`
   * admits what forward admits with the two swapped.
   */
  lemma ReverseSwapsFromAndTo(f: Option<Bytes>, t: Option<Bytes>, k: Bytes)
    ensures InBounds(Bounds(f, t, None), true, k) == InBounds(Bounds(t, f, None), false, k)
  {
  }
}
