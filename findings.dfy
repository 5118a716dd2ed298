/**
 * Five places where the iterator layer does not do what its own structure
 * evidently means, each stated twice: a concrete store on which the
 * behaviour as written shows the discrepancy, and a corrected definition
 * with the intended property proved for every sorted store.
 */
module Findings {
  import opened Wrappers
  import opened ByteOrder
  import opened Cursor
  import opened Range
  import opened Traversal
  import opened Yields
  import opened Projections

  // ---------------------------------------------------------------------
  // Where a descending walk should begin.

  /** The first index at or after `lo` whose key is above `k`, or `|s|`. */
  function UpperBoundFrom(s: seq<Entry>, k: Bytes, lo: nat): (i: nat)
    requires lo <= |s|
    ensures lo <= i <= |s|
    ensures forall j :: lo <= j < i ==> LessEq(s[j].key, k)
    ensures i < |s| ==> Less(k, s[i].key)
    decreases |s| - lo
  {
    if lo == |s| || Less(k, s[lo].key) then lo else UpperBoundFrom(s, k, lo + 1)
  }

  /** In a sorted store the keys at most `k` are exactly those before the upper bound. */
  lemma UpperBoundSplits(s: seq<Entry>, k: Bytes)
    requires Sorted(s)
    ensures forall j :: 0 <= j < UpperBoundFrom(s, k, 0) ==> LessEq(s[j].key, k)
    ensures forall j :: UpperBoundFrom(s, k, 0) <= j < |s| ==> Less(k, s[j].key)
  {
    var i := UpperBoundFrom(s, k, 0);
    forall j | i < j < |s|
      ensures Less(k, s[j].key)
    {
      LessIsStrict(s[i].key, s[j].key);
      LessLessEqTransitive(k, s[i].key, s[j].key);
    }
  }

  /** The first index at or after `lo` whose key does not start with `p`, or `|s|`. */
  function PrefixEndFrom(s: seq<Entry>, p: Bytes, lo: nat): (i: nat)
    requires lo <= |s|
    ensures lo <= i <= |s|
    ensures forall j :: lo <= j < i ==> HasPrefix(s[j].key, p)
    ensures i < |s| ==> !HasPrefix(s[i].key, p)
    decreases |s| - lo
  {
    if lo == |s| || !HasPrefix(s[lo].key, p) then lo else PrefixEndFrom(s, p, lo + 1)
  }

  /**
   * One past the highest entry a descending iterator with bounds `b` may
   * yield: the end of the block of keys starting with the prefix, or the
   * number of keys at most `from`, or the whole store.
   */
  function IntendedReverseEnd(s: seq<Entry>, b: Bounds): (m: nat)
    ensures m <= |s|
  {
    match b.prefix
    case Some(p) => PrefixEndFrom(s, p, LowerBound(s, p))
    case None =>
      match b.from
      case Some(f) => UpperBoundFrom(s, f, 0)
      case None => |s|
  }

  /** Where the first descending advance should leave the cursor: on the entry below that end. */
  function IntendedReverseStart(s: seq<Entry>, b: Bounds): (p: Pos)
    ensures InRange(s, p)
  {
    var m := IntendedReverseEnd(s, b);
    if m > 0 then At(m - 1) else Off
  }

  /** Below the intended end every key is on the low side of the upper end; from it on nothing is admitted. */
  lemma IntendedReverseEndSplits(s: seq<Entry>, b: Bounds)
    requires Sorted(s)
    ensures forall j :: 0 <= j < IntendedReverseEnd(s, b) ==> RevEntered(b, s[j].key)
    ensures forall j :: IntendedReverseEnd(s, b) <= j < |s| ==> !InBounds(b, true, s[j].key)
  {
    var m := IntendedReverseEnd(s, b);
    match b.prefix
    case Some(p) =>
      LowerBoundSplits(s, p);
      forall j | m < j < |s|
        ensures !HasPrefix(s[j].key, p)
      {
        if HasPrefix(s[j].key, p) {
          LessIsStrict(s[m].key, s[j].key);
          PrefixBetween(p, s[m].key, s[j].key);
        }
      }
    case None =>
      if b.from.Some? {
        UpperBoundSplits(s, b.from.value);
      }
  }

  /**
   * Started from the intended landing, the descending iterator yields
   * exactly the admitted entries in descending order, for every bound
   * combination, prefix included and `from` beyond the last key included.
   */
  lemma IntendedReverseTraversal(s: seq<Entry>, b: Bounds)
    requires Sorted(s)
    ensures Drain(s, IterState(IntendedReverseStart(s, b), false, Reverse, b)) == Reversed(Select(s, b, true))
  {
    var m := IntendedReverseEnd(s, b);
    var st := IterState(IntendedReverseStart(s, b), false, Reverse, b);
    IntendedReverseEndSplits(s, b);
    ReverseFromLanding(s, st, m);
    var below := Select(s[..m], b, true);
    JoinSelect(s, m, b, true);
    SelectNone(s[m..], b, true);
    assert below + [] == below;
    assert Select(s, b, true) == below;
  }

  /**
   * Where the first descending advance as written is defined and there is
   * no prefix, it yields what the intended landing yields.
   */
  lemma IntendedAgreesWhereDefined(s: seq<Entry>, st: IterState)
    requires Sorted(s) && InRange(s, st.pos) && st.start && st.dir == Reverse
    requires st.bounds.prefix.None?
    requires st.pos == SeekToLastPos(s) || st.bounds.from.Some?
    requires AdvanceDefined(s, st, true)
    ensures Collect(s, st) == Drain(s, IterState(IntendedReverseStart(s, st.bounds), false, Reverse, st.bounds))
  {
    ReverseTraversal(s, st);
    IntendedReverseTraversal(s, st.bounds);
  }

  /** `prefix([2]).reverse()` over the keys `[2]` and `[2, 1]`. */
  function PrefixStore(): (s: seq<Entry>) {
    [Entry([2], [10]), Entry([2, 1], [11])]
  }

  /**
   * As written, the reversed prefix iterator seeks to the prefix and steps
   * down, so it yields only `[2]`, where the admitted entries descending
   * are `[2, 1]` then `[2]`.
   */
  lemma ReversePrefixMissesLongerMatch()
    ensures var s := PrefixStore();
            var b := Bounds(None, None, Some([2]));
            var st := AfterReverse(s, Fresh(s).(bounds := b));
            AdvanceDefined(s, st, true) &&
            Collect(s, st) == [s[0]] &&
            Reversed(Select(s, b, true)) == [s[1], s[0]]
  {
    var s := PrefixStore();
    var b := Bounds(None, None, Some([2]));
    var st := AfterReverse(s, Fresh(s).(bounds := b));
    assert Less(s[0].key, s[1].key);
    assert LowerBound(s, [2]) == 0;
    ReversePrefixYieldsSmallestMatch(s, st);
    assert HasPrefix(s[0].key, [2]) && HasPrefix(s[1].key, [2]);
    SelectAll(s, b, true);
    assert s == [s[0]] + [s[1]];
    ReversedSnoc([s[0]], s[1]);
    assert Reversed([s[0]]) == [s[0]];
  }

  /**
   * As written, a `from` above every key leaves the sought cursor invalid,
   * and the first descending advance then steps it back, which the engine
   * does not allow (over the keys `[1]` and `[2]` with `from([5])`, say).
   * The intended landing is the last entry, and from there the walk yields
   * the whole store, descending.
   */
  lemma ReverseFromPastEndStepsInvalidCursor(s: seq<Entry>, f: Bytes)
    requires Sorted(s) && |s| > 0
    requires forall j :: 0 <= j < |s| ==> Less(s[j].key, f)
    ensures var b := Bounds(Some(f), None, None);
            var st := AfterReverse(s, Fresh(s).(bounds := b));
            !AdvanceDefined(s, st, true) &&
            IntendedReverseStart(s, b) == At(|s| - 1) &&
            Drain(s, IterState(IntendedReverseStart(s, b), false, Reverse, b)) == Reversed(s)
  {
    var b := Bounds(Some(f), None, None);
    forall j | 0 <= j < |s|
      ensures LessEq(s[j].key, f)
    {
      LessIsStrict(s[j].key, f);
    }
    var st := AfterReverse(s, Fresh(s).(bounds := b));
    assert SeekPos(s, f) == Off;
    assert !AdvanceDefined(s, st, true);
    assert UpperBoundFrom(s, f, 0) == |s|;
    var start := IterState(IntendedReverseStart(s, b), false, Reverse, b);
    IntendedReverseTraversal(s, b);
    SelectAll(s, b, true);
    assert Drain(s, start) == Reversed(s);
  }

  // ---------------------------------------------------------------------
  // What `last()` should return under the iterator's bounds.

  /**
   * One past the highest entry an ascending iterator with bounds `b` may
   * yield: the end of the block of keys starting with the prefix, or the
   * number of keys at most `to`, or the whole store.
   */
  function IntendedForwardEnd(s: seq<Entry>, b: Bounds): (m: nat)
    ensures m <= |s|
  {
    match b.prefix
    case Some(p) => PrefixEndFrom(s, p, LowerBound(s, p))
    case None =>
      match b.to
      case Some(t) => UpperBoundFrom(s, t, 0)
      case None => |s|
  }

  /** Below the intended end no key is beyond the upper side; from it on nothing is admitted. */
  lemma IntendedForwardEndSplits(s: seq<Entry>, b: Bounds)
    requires Sorted(s)
    ensures forall j :: 0 <= j < IntendedForwardEnd(s, b) ==> NotPassed(b, s[j].key)
    ensures forall j :: IntendedForwardEnd(s, b) <= j < |s| ==> !InBounds(b, false, s[j].key)
  {
    var m := IntendedForwardEnd(s, b);
    match b.prefix
    case Some(p) =>
      LowerBoundSplits(s, p);
      forall j | m < j < |s|
        ensures !HasPrefix(s[j].key, p)
      {
        if HasPrefix(s[j].key, p) {
          LessIsStrict(s[m].key, s[j].key);
          PrefixBetween(p, s[m].key, s[j].key);
        }
      }
    case None =>
      if b.to.Some? {
        UpperBoundSplits(s, b.to.value);
      }
  }

  /**
   * The entry `last()` should return: the entry just below the intended
   * end, when the bounds admit it, else `None` (then the iterator yields
   * nothing).
   */
  function IntendedLast(s: seq<Entry>, b: Bounds): (r: Option<Entry>)
    ensures r.Some? ==> r.value in s && InBounds(b, false, r.value.key)
  {
    var m := IntendedForwardEnd(s, b);
    if m > 0 && InBounds(b, false, s[m - 1].key) then Some(s[m - 1]) else None
  }

  /**
   * Ascending, when the bounds reject the entry just below the intended
   * end, that entry is below the lower side, and so is every earlier one:
   * nothing below the end is admitted.
   */
  lemma RejectedBelowEnd(s: seq<Entry>, b: Bounds)
    requires Sorted(s) && IntendedForwardEnd(s, b) > 0
    requires !InBounds(b, false, s[IntendedForwardEnd(s, b) - 1].key)
    ensures Select(s[..IntendedForwardEnd(s, b)], b, false) == []
  {
    var m := IntendedForwardEnd(s, b);
    var top := s[m - 1].key;
    IntendedForwardEndSplits(s, b);
    ForwardSplit(b, top);
    forall j | 0 <= j < m
      ensures !InBounds(b, false, s[..m][j].key)
    {
      ForwardSplit(b, s[j].key);
      if j < m - 1 {
        LessIsStrict(s[j].key, top);
        if Entered(b, s[j].key) {
          EnteredUpward(b, s[j].key, top);
        }
      }
    }
    SelectNone(s[..m], b, false);
  }

  /** Appending an admitted entry makes it the last of the selection. */
  lemma LastOfSelectSnoc(x: seq<Entry>, e: Entry, b: Bounds)
    requires InBounds(b, false, e.key)
    ensures var r := Select(x + [e], b, false); r != [] && r[|r| - 1] == e
  {
    SelectSnoc(x, e, b, false);
  }

  /** The intended `last()` is the last admitted entry of the store, or `None` when none is admitted. */
  lemma IntendedLastIsLastSelected(s: seq<Entry>, b: Bounds)
    requires Sorted(s)
    ensures var sel := Select(s, b, false);
            IntendedLast(s, b) == if sel == [] then None else Some(sel[|sel| - 1])
  {
    var m := IntendedForwardEnd(s, b);
    var upto := Select(s[..m], b, false);
    assert Select(s, b, false) == upto by {
      IntendedForwardEndSplits(s, b);
      JoinSelect(s, m, b, false);
      SelectNone(s[m..], b, false);
      assert upto + [] == upto;
    }
    if m == 0 {
      assert upto == [] by { assert s[..m] == []; }
    } else {
      var e, below := s[m - 1], s[..m - 1];
      if InBounds(b, false, e.key) {
        PrefixSnoc(s, m);
        LastOfSelectSnoc(below, e, b);
      } else {
        RejectedBelowEnd(s, b);
      }
    }
  }

  /**
   * The intended `last()` is the last element of the iterator: the last
   * entry a fresh ascending iterator with bounds `b` yields, or `None` when
   * it yields nothing, for every bound combination.
   */
  lemma IntendedLastIsLastAdmitted(s: seq<Entry>, b: Bounds)
    requires Sorted(s)
    ensures var yielded := Collect(s, Fresh(s).(bounds := b));
            IntendedLast(s, b) == if yielded == [] then None else Some(yielded[|yielded| - 1])
  {
    ForwardTraversal(s, Fresh(s).(bounds := b));
    IntendedLastIsLastSelected(s, b);
  }

  /**
   * As written, the inherent `last()` (through `(&it).last()`, or a key or
   * value view's `last()`) consults only `to`: with `prefix([2])` over the
   * keys `[2]` and `[3]` it returns `[3]`, which the prefix excludes, and
   * the intended answer is `[2]`; with `from([5])` over `[1]` and `[2]` it
   * returns `[2]`, though the iterator yields nothing.
   */
  lemma LastIgnoresPrefixAndFrom(s: seq<Entry>, t: seq<Entry>)
    requires s == [Entry([2], [20]), Entry([3], [30])]
    requires t == [Entry([1], [10]), Entry([2], [20])]
    ensures var b := Bounds(None, None, Some([2]));
            BoundedLastPos(s, b.to).At? &&
            LastEntry(s, b.to) == s[1] &&
            !InBounds(b, false, LastEntry(s, b.to).key) &&
            IntendedLast(s, b) == Some(s[0])
    ensures var b := Bounds(Some([5]), None, None);
            BoundedLastPos(t, b.to).At? &&
            LastEntry(t, b.to) == t[1] &&
            Collect(t, Fresh(t).(bounds := b)) == [] &&
            IntendedLast(t, b) == None
  {
    var p: Bytes := [2];
    assert LowerBound(s, p) == 0;
    assert PrefixEndFrom(s, p, 0) == 1;
    var b := Bounds(Some([5]), None, None);
    assert Less([1], [5]) && Less([2], [5]);
    assert !InBounds(b, false, t[0].key) && !InBounds(b, false, t[1].key);
    IntendedLastIsLastAdmitted(t, b);
  }

  /**
   * As written, the inherent `last()` under `to([2, 5])` over the keys `[1]`, `[2]`,
   * `[3]` seeks to the first key at least `[2, 5]` and returns `[3]`,
   * which the bound excludes; the intended answer is `[2]`.
   */
  lemma LastOvershootsAbsentTo()
    ensures var s := [Entry([1], [10]), Entry([2], [20]), Entry([3], [30])];
            var to := Some([2, 5]);
            BoundedLastPos(s, to).At? &&
            LastEntry(s, to) == s[2] &&
            !InBounds(Bounds(None, to, None), false, LastEntry(s, to).key) &&
            IntendedLast(s, Bounds(None, to, None)) == Some(s[1])
  {
    var s := [Entry([1], [10]), Entry([2], [20]), Entry([3], [30])];
    var t: Bytes := [2, 5];
    assert LowerBound(s, t) == 2;
    assert UpperBoundFrom(s, t, 0) == 2;
  }

  /**
   * With no prefix or `from` bound, and `to` unset or a key of the store,
   * `last()` as written returns the intended entry.
   */
  lemma LastAgreesWhenToPresent(s: seq<Entry>, to: Option<Bytes>)
    requires Sorted(s) && |s| > 0
    requires to.Some? ==> exists j :: 0 <= j < |s| && s[j].key == to.value
    ensures BoundedLastPos(s, to).At? && IntendedLast(s, Bounds(None, to, None)) == Some(LastEntry(s, to))
  {
    if to.Some? {
      var t := to.value;
      var j :| 0 <= j < |s| && s[j].key == t;
      LowerBoundSplits(s, t);
      UpperBoundSplits(s, t);
      LessEqReflexive(t);
      var lb := LowerBound(s, t);
      var ub := UpperBoundFrom(s, t, 0);
      assert lb <= j < ub;
    }
  }

  // ---------------------------------------------------------------------
  // What the descending value view should yield.

  /** Each view yields its own half of the entry, whatever the direction. */
  function IntendedProject(kind: Kind, e: Entry): (r: Bytes)
    ensures r == if kind == Keys then e.key else e.value
  {
    match kind
    case Keys => e.key
    case Values => e.value
  }

  function IntendedProjectAll(kind: Kind, es: seq<Entry>): (r: seq<Bytes>)
    ensures |r| == |es|
    ensures forall i :: 0 <= i < |es| ==> r[i] == IntendedProject(kind, es[i])
  {
    seq(|es|, i requires 0 <= i < |es| => IntendedProject(kind, es[i]))
  }

  /** Projecting commutes with reading backwards. */
  lemma ProjectReversed(kind: Kind, es: seq<Entry>)
    ensures IntendedProjectAll(kind, Reversed(es)) == Reversed(IntendedProjectAll(kind, es))
  {
    var xs := IntendedProjectAll(kind, es);
    forall k | 0 <= k < |es|
      ensures IntendedProjectAll(kind, Reversed(es))[k] == Reversed(xs)[k]
    {
      ReversedAt(es, k);
      ReversedAt(xs, k);
    }
  }

  /**
   * As written, the descending value view over a one-entry store yields
   * the key `[1]`, where the ascending value view yields the value `[7]`.
   */
  lemma RevValueYieldsKeys()
    ensures var s := [Entry([1], [7])];
            ProjectAll(Values, Forward, Collect(s, Fresh(s))) == [[7]] &&
            ProjectAll(Values, Reverse, Collect(s, AfterReverse(s, Fresh(s)))) == [[1]]
  {
    var s := [Entry([1], [7])];
    FreshVisitsAll(s);
    ReversedFreshMirrorsForward(s);
    assert Reversed(s) == [s[0]];
  }

  /**
   * With the intended projection, reversing an unbounded view of either
   * kind yields what the ascending view yields, read backwards.
   */
  lemma IntendedViewsMirror(s: seq<Entry>, kind: Kind)
    requires Sorted(s)
    ensures AdvanceDefined(s, AfterReverse(s, Fresh(s)), true)
    ensures IntendedProjectAll(kind, Collect(s, AfterReverse(s, Fresh(s)))) ==
            Reversed(IntendedProjectAll(kind, Collect(s, Fresh(s))))
  {
    ReversedFreshMirrorsForward(s);
    ProjectReversed(kind, Collect(s, Fresh(s)));
  }
}
