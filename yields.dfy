/**
 * What an iterator yields from its first `next` to its first `None`,
 * stated against the entries its bounds admit.
 */
module Yields {
  import opened Wrappers
  import opened ByteOrder
  import opened Cursor
  import opened Range
  import opened Traversal

  /**
   * Where the first ascending advance lands: index `l` (`Off` when `l` is
   * `|s|`), with no admitted entry before it and every key from it on past
   * the lower bound.
   */
  lemma ForwardLanding(s: seq<Entry>, st: IterState) returns (l: nat)
    requires Sorted(s) && InRange(s, st.pos) && st.start
    requires st.pos == SeekToFirstPos(s) || st.bounds.prefix.Some? || st.bounds.from.Some?
    ensures AdvanceDefined(s, st, false) && l <= |s|
    ensures AdvancePos(s, st, false) == if l < |s| then At(l) else Off
    ensures forall j :: 0 <= j < l ==> !InBounds(st.bounds, false, s[j].key)
    ensures forall j :: l <= j < |s| ==> Entered(st.bounds, s[j].key)
  {
    var b := st.bounds;
    if b.prefix.Some? || b.from.Some? {
      var k := if b.prefix.Some? then b.prefix.value else b.from.value;
      l := LowerBound(s, k);
      LowerBoundSplits(s, k);
      forall j | 0 <= j < l
        ensures !InBounds(b, false, s[j].key)
      {
        ForwardSplit(b, s[j].key);
      }
    } else {
      l := 0;
    }
  }

  /**
   * An ascending iterator that has not started yields exactly the admitted
   * entries in ascending order, whatever its bounds, provided it sits on the
   * first entry or has a `from` or `prefix` bound to seek to. This covers
   * `from`, `to`, `from`+`to` and `prefix`.
   */
  lemma ForwardTraversal(s: seq<Entry>, st: IterState)
    requires Sorted(s) && InRange(s, st.pos) && st.start && st.dir == Forward
    requires st.pos == SeekToFirstPos(s) || st.bounds.prefix.Some? || st.bounds.from.Some?
    ensures AdvanceDefined(s, st, false)
    ensures Collect(s, st) == Select(s, st.bounds, false)
  {
    var b := st.bounds;
    var l := ForwardLanding(s, st);
    var next := Advanced(s, st, false);
    CollectIsDrainOfAdvanced(s, st);
    ForwardFromLanding(s, next, l);
    var rest := Select(s[l..], b, false);
    assert Collect(s, st) == rest;
    JoinSelect(s, l, b, false);
    SelectNone(s[..l], b, false);
    assert [] + rest == rest;
  }

  lemma JoinSelect(s: seq<Entry>, l: nat, b: Bounds, reverse: bool)
    requires l <= |s|
    ensures Select(s, b, reverse) == Select(s[..l], b, reverse) + Select(s[l..], b, reverse)
  {
    assert s == s[..l] + s[l..];
    SelectAppend(s[..l], s[l..], b, reverse);
  }

  /**
   * Where the first descending advance lands when there is no prefix bound:
   * index `m - 1` (`Off` when `m` is 0), with every key below `m` at most
   * `from` and no admitted entry from `m` on.
   */
  lemma ReverseLanding(s: seq<Entry>, st: IterState) returns (m: nat)
    requires Sorted(s) && InRange(s, st.pos) && st.start && st.dir == Reverse
    requires st.bounds.prefix.None?
    requires st.pos == SeekToLastPos(s) || st.bounds.from.Some?
    requires AdvanceDefined(s, st, true)
    ensures m <= |s|
    ensures AdvancePos(s, st, true) == if m > 0 then At(m - 1) else Off
    ensures forall j :: 0 <= j < m ==> RevEntered(st.bounds, s[j].key)
    ensures forall j :: m <= j < |s| ==> !InBounds(st.bounds, true, s[j].key)
  {
    var b := st.bounds;
    if b.from.Some? {
      var f := b.from.value;
      var lb := LowerBound(s, f);
      LowerBoundSplits(s, f);
      m := if ValidAt(s, SeekPos(s, f), b, true) then lb + 1 else lb;
      forall j | m <= j < |s|
        ensures !InBounds(b, true, s[j].key)
      {
        if j > lb {
          LessEqLessTransitive(f, s[lb].key, s[j].key);
        }
      }
      forall j | 0 <= j < m
        ensures RevEntered(b, s[j].key)
      {
        if j < lb {
          LessIsStrict(s[j].key, f);
        }
      }
    } else {
      m := |s|;
    }
  }

  /**
   * A descending iterator (no prefix bound) that has not started yields
   * exactly the admitted entries in descending order, provided it sits on
   * the last entry or has a `from` bound, and the first advance does not
   * step an invalid cursor back. In reverse `from` is the upper and `to`
   * the lower end.
   */
  lemma ReverseTraversal(s: seq<Entry>, st: IterState)
    requires Sorted(s) && InRange(s, st.pos) && st.start && st.dir == Reverse
    requires st.bounds.prefix.None?
    requires st.pos == SeekToLastPos(s) || st.bounds.from.Some?
    requires AdvanceDefined(s, st, true)
    ensures Collect(s, st) == Reversed(Select(s, st.bounds, true))
  {
    var m := ReverseLanding(s, st);
    var next := Advanced(s, st, true);
    CollectIsDrainOfAdvanced(s, st);
    ReverseFromLanding(s, next, m);
    var below := Select(s[..m], st.bounds, true);
    JoinSelect(s, m, st.bounds, true);
    SelectNone(s[m..], st.bounds, true);
    assert below + [] == below;
    assert Select(s, st.bounds, true) == below;
    assert Collect(s, st) == Reversed(below);
  }

  /**
   * The first reverse advance with a `from` bound steps an invalid cursor
   * back exactly when every key of the store is below `from`.
   */
  lemma ReverseDefinedUnlessFromPastEnd(s: seq<Entry>, st: IterState)
    requires Sorted(s) && InRange(s, st.pos) && st.start
    requires st.bounds.prefix.None? && st.bounds.from.Some?
    ensures AdvanceDefined(s, st, true) <==>
            exists j :: 0 <= j < |s| && LessEq(st.bounds.from.value, s[j].key)
  {
  }

  /**
   * Without a `to` bound, the first reverse advance from `from` lands on
   * the largest key at most `from`; `Off` means every key is above it.
   */
  lemma ReverseFromLandsAtOrBelow(s: seq<Entry>, st: IterState)
    requires Sorted(s) && InRange(s, st.pos) && st.start && st.dir == Reverse
    requires st.bounds == Bounds(st.bounds.from, None, None) && st.bounds.from.Some?
    requires AdvanceDefined(s, st, true)
    ensures var p := AdvancePos(s, st, true);
            var f := st.bounds.from.value;
            (p.At? ==> LessEq(s[p.i].key, f)) &&
            forall j :: (if p.At? then p.i + 1 else 0) <= j < |s| ==> Less(f, s[j].key)
  {
    var f := st.bounds.from.value;
    var lb := LowerBound(s, f);
    LowerBoundSplits(s, f);
    if lb < |s| && !LessEq(s[lb].key, f) {
      if lb > 0 {
        LessIsStrict(s[lb - 1].key, f);
      }
      forall j | lb < j < |s|
        ensures Less(f, s[j].key)
      {
        LessIsStrict(s[lb].key, s[j].key);
        LessLessEqTransitive(f, s[lb].key, s[j].key);
      }
    } else if lb < |s| {
      forall j | lb < j < |s|
        ensures Less(f, s[j].key)
      {
        LessEqLessTransitive(f, s[lb].key, s[j].key);
      }
    }
  }

  /**
   * The first ascending advance from `from` lands on the smallest key at
   * least `from`; `Off` means every key is below it.
   */
  lemma ForwardFromLandsAtOrAbove(s: seq<Entry>, st: IterState)
    requires Sorted(s) && InRange(s, st.pos) && st.start
    requires st.bounds.prefix.None? && st.bounds.from.Some?
    ensures AdvanceDefined(s, st, false)
    ensures var p := AdvancePos(s, st, false);
            var f := st.bounds.from.value;
            (p.At? ==> LessEq(f, s[p.i].key)) &&
            forall j :: 0 <= j < (if p.At? then p.i else |s|) ==> Less(s[j].key, f)
  {
  }

  /**
   * A reversed iterator with a prefix bound seeks to the prefix itself and
   * then steps down, so it yields at most the smallest key that starts with
   * the prefix, whatever `from` and `to` say.
   */
  lemma ReversePrefixYieldsSmallestMatch(s: seq<Entry>, st: IterState)
    requires Sorted(s) && InRange(s, st.pos) && st.start && st.dir == Reverse
    requires st.bounds.prefix.Some?
    ensures var p := st.bounds.prefix.value;
            var l := LowerBound(s, p);
            Collect(s, st) == if l < |s| && HasPrefix(s[l].key, p) then [s[l]] else []
  {
    var p := st.bounds.prefix.value;
    var l := LowerBound(s, p);
    var next := Advanced(s, st, true);
    CollectIsDrainOfAdvanced(s, st);
    if l < |s| && HasPrefix(s[l].key, p) {
      var after := Advanced(s, next, true);
      CollectIsDrainOfAdvanced(s, next);
      if l > 0 {
        assert after.pos == At(l - 1);
        if HasPrefix(s[l - 1].key, p) {
          PrefixIsLeast(s[l - 1].key, p);
        }
      }
    }
  }

  /**
   * Without bounds the first advance does not move the cursor, so after an
   * explicit `seek(k)` the iterator yields every entry from the first key at
   * least `k` on.
   */
  lemma SeekThenTraverse(s: seq<Entry>, st: IterState, k: Bytes)
    requires Sorted(s) && st == IterState(SeekPos(s, k), true, Forward, Unbounded)
    ensures Collect(s, st) == s[LowerBound(s, k)..]
  {
    var l := LowerBound(s, k);
    var next := Advanced(s, st, false);
    CollectIsDrainOfAdvanced(s, st);
    ForwardFromLanding(s, next, l);
    SelectAll(s[l..], Unbounded, false);
  }

  /** An unbounded fresh iterator visits every entry once, in ascending key order. */
  lemma FreshVisitsAll(s: seq<Entry>)
    requires Sorted(s)
    ensures Collect(s, Fresh(s)) == s
  {
    ForwardTraversal(s, Fresh(s));
    SelectAll(s, Unbounded, false);
  }

  /** `reverse()` on an unbounded fresh iterator yields the forward sequence backwards. */
  lemma ReversedFreshMirrorsForward(s: seq<Entry>)
    requires Sorted(s)
    ensures AdvanceDefined(s, AfterReverse(s, Fresh(s)), true)
    ensures Collect(s, AfterReverse(s, Fresh(s))) == Reversed(Collect(s, Fresh(s)))
  {
    FreshVisitsAll(s);
    ReverseTraversal(s, AfterReverse(s, Fresh(s)));
    SelectAll(s, Unbounded, true);
  }

  /**
   * A prefix bound takes precedence: the sequence does not depend on `from`
   * or `to` once `prefix` is set, in either direction.
   */
  lemma {:induction false} PrefixOverridesFromTo(s: seq<Entry>, st: IterState)
    requires InRange(s, st.pos) && st.bounds.prefix.Some?
    requires AdvanceDefined(s, st, st.dir == Reverse)
    ensures var only := st.(bounds := Bounds(None, None, st.bounds.prefix));
            AdvanceDefined(s, only, st.dir == Reverse) && Collect(s, st) == Collect(s, only)
    decreases Measure(s, st)
  {
    var only := st.(bounds := Bounds(None, None, st.bounds.prefix));
    var next := Advanced(s, st, st.dir == Reverse);
    var nextOnly := Advanced(s, only, st.dir == Reverse);
    assert nextOnly == next.(bounds := only.bounds);
    CollectIsDrainOfAdvanced(s, st);
    CollectIsDrainOfAdvanced(s, only);
    if ValidAt(s, next.pos, next.bounds, st.dir == Reverse) {
      PrefixOverridesFromTo(s, next);
    }
  }

  /**
   * Every advance after the first is one raw step in the iterator's own
   * direction: the `reverse` argument does not influence where it goes.
   */
  lemma LaterAdvanceIsOneStep(s: seq<Entry>, st: IterState)
    requires InRange(s, st.pos) && !st.start && CursorValid(st.pos)
    ensures AdvancePos(s, st, true) == AdvancePos(s, st, false)
    ensures var p := AdvancePos(s, st, false);
            if st.dir == Forward then (p.At? <==> st.pos.i + 1 < |s|) && (p.At? ==> p.i == st.pos.i + 1)
            else (p.At? <==> st.pos.i > 0) && (p.At? ==> p.i + 1 == st.pos.i)
  {
  }

  /** Without bounds the first advance leaves the cursor where it is. */
  lemma UnboundedFirstAdvanceStays(s: seq<Entry>, st: IterState, reverse: bool)
    requires InRange(s, st.pos) && st.start && st.bounds.prefix.None? && st.bounds.from.None?
    ensures AdvanceDefined(s, st, reverse)
    ensures Advanced(s, st, reverse) == st.(start := false)
  {
  }

  /**
   * Reversing twice after the first advance restores the state; before it,
   * a forward iterator reversed twice ends on the first entry.
   */
  lemma ReverseTwice(s: seq<Entry>, st: IterState)
    requires InRange(s, st.pos)
    ensures var r := AfterReverse(s, AfterReverse(s, st));
            r.dir == st.dir && r.start == st.start && r.bounds == st.bounds &&
            (!st.start ==> r == st) &&
            (st.start && st.dir == Forward ==> r.pos == SeekToFirstPos(s))
  {
  }

  /**
   * With no bound set, the inherent `last()` returns the final entry a
   * fresh iterator yields, so it agrees with the standard library's
   * draining `last`.
   */
  lemma LastIsFinalYield(s: seq<Entry>)
    requires Sorted(s) && |s| > 0
    ensures BoundedLastPos(s, None).At?
    ensures Collect(s, Fresh(s)) == s[..|s| - 1] + [LastEntry(s, None)]
  {
    var last := |s| - 1;
    assert LastEntry(s, None) == s[last];
    FreshVisitsAll(s);
    PrefixSnoc(s, |s|);
    assert s[..|s|] == s;
  }
}
