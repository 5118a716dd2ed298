/**
 * The traversal state machine of the bounded iterator, as functions of the
 * store and the iterator's state: the bound-aware first `advance`, the
 * single raw step of every later one, `reverse`, and the sequence of entries
 * that pulling until exhaustion yields.
 */
module Traversal {
  import opened Wrappers
  import opened ByteOrder
  import opened Cursor
  import opened Range

  /** Everything an iterator value holds besides the store: cursor, `start` flag, direction, bounds. */
  datatype IterState = IterState(pos: Pos, start: bool, dir: Direction, bounds: Bounds)

  /** `valid(reverse)`: the cursor is on an entry and the bounds admit its key. */
  predicate ValidAt(s: seq<Entry>, p: Pos, b: Bounds, reverse: bool)
    requires InRange(s, p)
  {
    CursorValid(p) && InBounds(b, reverse, s[p.i].key)
  }

  /** `advance_raw`: `leveldb_iter_next` for an ascending iterator, `leveldb_iter_prev` for a descending one. */
  function RawStep(s: seq<Entry>, p: Pos, d: Direction): (q: Pos)
    requires p.At? && InRange(s, p)
    ensures InRange(s, q)
  {
    if d == Forward then NextPos(s, p) else PrevPos(s, p)
  }

  /**
   * The engine steps only a valid cursor. `advance` steps in two places: on
   * every call after the first, and on the first when it seeks to `from` in
   * reverse and the cursor then fails `valid`.
   */
  predicate AdvanceDefined(s: seq<Entry>, st: IterState, reverse: bool)
    requires InRange(s, st.pos)
  {
    if !st.start then CursorValid(st.pos)
    else
      st.bounds.prefix.Some? || st.bounds.from.None? || !reverse ||
      CursorValid(SeekPos(s, st.bounds.from.value))
  }

  /** Where `advance(reverse)` leaves the cursor. */
  function AdvancePos(s: seq<Entry>, st: IterState, reverse: bool): (p: Pos)
    requires InRange(s, st.pos) && AdvanceDefined(s, st, reverse)
    ensures InRange(s, p)
  {
    if !st.start then RawStep(s, st.pos, st.dir)
    else if st.bounds.prefix.Some? then SeekPos(s, st.bounds.prefix.value)
    else if st.bounds.from.Some? then
      var q := SeekPos(s, st.bounds.from.value);
      if !ValidAt(s, q, st.bounds, reverse) && reverse then RawStep(s, q, st.dir) else q
    else st.pos
  }

  /** The state after `advance(reverse)`: the new cursor, `start` cleared, direction and bounds kept. */
  function Advanced(s: seq<Entry>, st: IterState, reverse: bool): (r: IterState)
    requires InRange(s, st.pos) && AdvanceDefined(s, st, reverse)
    ensures InRange(s, r.pos)
    ensures !r.start && r.dir == st.dir && r.bounds == st.bounds
  {
    st.(pos := AdvancePos(s, st, reverse), start := false)
  }

  function Flip(d: Direction): (r: Direction)
    ensures r != d
  {
    if d == Forward then Reverse else Forward
  }

  /**
   * `reverse()`: before the first `advance` the cursor moves to the other
   * edge of the store (raw seek, so `to` is not consulted); afterwards it
   * stays. The flag and the bounds carry over.
   */
  function AfterReverse(s: seq<Entry>, st: IterState): (r: IterState)
    requires InRange(s, st.pos)
    ensures InRange(s, r.pos)
  {
    var p := if !st.start then st.pos
             else if st.dir == Forward then SeekToLastPos(s) else SeekToFirstPos(s);
    st.(pos := p, dir := Flip(st.dir))
  }

  /** `seek_to_last()`: to `to` when it is set (raw seek), else to the engine's last entry. */
  function BoundedLastPos(s: seq<Entry>, to: Option<Bytes>): (p: Pos)
    ensures InRange(s, p)
  {
    match to
    case Some(t) => SeekPos(s, t)
    case None => SeekToLastPos(s)
  }

  /** What the inherent `last()` of the iterator and its views returns: the entry `seek_to_last` lands on. */
  function LastEntry(s: seq<Entry>, to: Option<Bytes>): (e: Entry)
    requires BoundedLastPos(s, to).At?
    ensures e in s
  {
    s[BoundedLastPos(s, to).i]
  }

  /** `Iterator::new`: on the first entry, not started, no bounds. */
  function Fresh(s: seq<Entry>): (st: IterState)
    ensures InRange(s, st.pos)
  {
    IterState(SeekToFirstPos(s), true, Forward, Unbounded)
  }

  /** An upper bound on the number of `next` calls still to come. */
  function Measure(s: seq<Entry>, st: IterState): (n: nat)
    requires InRange(s, st.pos)
  {
    (if st.start then |s| + 1 else 0) +
    (match st.pos
     case Off => 0
     case At(i) => if st.dir == Forward then |s| - i else i + 1)
  }

  /**
   * The entries that calling `next` until it first returns `None` yields:
   * each call advances in the iterator's own direction and yields the entry
   * under the cursor while `valid` holds. Every yielded entry is an entry of
   * the store that the bounds admit in that direction.
   */
  function Collect(s: seq<Entry>, st: IterState): (r: seq<Entry>)
    requires InRange(s, st.pos) && AdvanceDefined(s, st, st.dir == Reverse)
    ensures forall e :: e in r ==> e in s && InBounds(st.bounds, st.dir == Reverse, e.key)
    decreases Measure(s, st)
  {
    var next := Advanced(s, st, st.dir == Reverse);
    if ValidAt(s, next.pos, next.bounds, st.dir == Reverse) then
      [s[next.pos.i]] + Collect(s, next)
    else []
  }

  // ---------------------------------------------------------------------
  // After the first advance: one raw step per call.

  /** One `next` call: the entry it yields, if any, heads the sequence, and the rest follows from the new state. */
  lemma CollectUnfold(s: seq<Entry>, st: IterState)
    requires InRange(s, st.pos) && AdvanceDefined(s, st, st.dir == Reverse)
    ensures var next := Advanced(s, st, st.dir == Reverse);
      Collect(s, st) ==
      if ValidAt(s, next.pos, next.bounds, st.dir == Reverse) then [s[next.pos.i]] + Collect(s, next) else []
  {
  }

  /**
   * Ascending from an entry, when every later key is on the upper side of
   * the lower bound, the iterator yields exactly the admitted later entries.
   */
  lemma {:induction false} ForwardTail(s: seq<Entry>, st: IterState)
    requires Sorted(s) && st.pos.At? && InRange(s, st.pos)
    requires !st.start && st.dir == Forward
    requires forall j :: st.pos.i < j < |s| ==> Entered(st.bounds, s[j].key)
    ensures Collect(s, st) == Select(s[st.pos.i + 1..], st.bounds, false)
    decreases |s| - st.pos.i
  {
    var i := st.pos.i;
    if i + 1 < |s| && InBounds(st.bounds, false, s[i + 1].key) {
      var next := st.(pos := At(i + 1));
      ForwardTail(s, next);
      ForwardYields(s, st, next);
    } else {
      ForwardEnds(s, st);
      if i + 1 < |s| {
        ForwardStops(s, st.bounds, i + 1);
      } else {
        assert s[i + 1..] == [];
      }
    }
  }

  /**
   * One ascending `next` after the first advance that finds an admitted
   * entry yields it; when the iterator yields the admitted entries above
   * it from there, it yields the admitted entries from it on.
   */
  lemma ForwardYields(s: seq<Entry>, st: IterState, next: IterState)
    requires st.pos.At? && InRange(s, st.pos) && !st.start && st.dir == Forward
    requires st.pos.i + 1 < |s| && InBounds(st.bounds, false, s[st.pos.i + 1].key)
    requires next == st.(pos := At(st.pos.i + 1)) && InRange(s, next.pos)
    requires Collect(s, next) == Select(s[next.pos.i + 1..], next.bounds, false)
    ensures Collect(s, st) == Select(s[st.pos.i + 1..], st.bounds, false)
  {
    var k := next.pos.i;
    assert k == st.pos.i + 1 && next.bounds == st.bounds;
    calc {
      Collect(s, st);
      { ForwardNext(s, st); }
      [s[k]] + Collect(s, next);
      [s[k]] + Select(s[k + 1..], st.bounds, false);
      { SelectFrom(s, k, st.bounds); }
      Select(s[k..], st.bounds, false);
    }
  }

  /** After the first advance, an ascending `next` that lands on an admitted entry yields it and goes on from there. */
  lemma ForwardNext(s: seq<Entry>, st: IterState)
    requires st.pos.At? && InRange(s, st.pos) && !st.start && st.dir == Forward
    requires st.pos.i + 1 < |s| && InBounds(st.bounds, false, s[st.pos.i + 1].key)
    ensures Collect(s, st) == [s[st.pos.i + 1]] + Collect(s, st.(pos := At(st.pos.i + 1)))
  {
    var next := st.(pos := At(st.pos.i + 1));
    assert ValidAt(s, next.pos, next.bounds, false);
    ForwardAdvanced(s, st);
    CollectUnfold(s, st);
  }

  /** After the first advance, an ascending `advance` is one `leveldb_iter_next` and changes nothing else. */
  lemma ForwardAdvanced(s: seq<Entry>, st: IterState)
    requires st.pos.At? && InRange(s, st.pos) && !st.start && st.dir == Forward
    ensures Advanced(s, st, false) == st.(pos := NextPos(s, st.pos))
  {
  }

  /** One ascending `next` after the first advance that runs off the store or out of the bounds ends the iteration. */
  lemma ForwardEnds(s: seq<Entry>, st: IterState)
    requires st.pos.At? && InRange(s, st.pos) && !st.start && st.dir == Forward
    requires !(st.pos.i + 1 < |s| && InBounds(st.bounds, false, s[st.pos.i + 1].key))
    ensures Collect(s, st) == []
  {
    var next := st.(pos := NextPos(s, st.pos));
    assert !ValidAt(s, next.pos, next.bounds, false);
    ForwardAdvanced(s, st);
    CollectUnfold(s, st);
  }

  /** Ascending, an admitted entry is yielded before the admitted entries above it. */
  lemma SelectFrom(s: seq<Entry>, k: nat, b: Bounds)
    requires k < |s| && InBounds(b, false, s[k].key)
    ensures Select(s[k..], b, false) == [s[k]] + Select(s[k + 1..], b, false)
  {
    assert s[k..][1..] == s[k + 1..];
  }

  /** Ascending, once an entry past the lower bound fails the bounds, no later entry passes them. */
  lemma ForwardStops(s: seq<Entry>, b: Bounds, i: nat)
    requires Sorted(s) && i < |s|
    requires forall j :: i <= j < |s| ==> Entered(b, s[j].key)
    requires !InBounds(b, false, s[i].key)
    ensures Select(s[i..], b, false) == []
  {
    ForwardSplit(b, s[i].key);
    forall j | 0 <= j < |s[i..]|
      ensures !InBounds(b, false, s[i..][j].key)
    {
      if j > 0 {
        LessIsStrict(s[i].key, s[i + j].key);
        ForwardSplit(b, s[i + j].key);
        if NotPassed(b, s[i + j].key) {
          NotPassedDownward(b, s[i].key, s[i + j].key);
        }
      }
    }
    SelectNone(s[i..], b, false);
  }

  /**
   * Descending from an entry, when every earlier key is on the lower side
   * of the upper end, the iterator yields exactly the admitted
   * earlier entries, in descending order.
   */
  lemma {:induction false} ReverseTail(s: seq<Entry>, st: IterState)
    requires Sorted(s) && st.pos.At? && InRange(s, st.pos)
    requires !st.start && st.dir == Reverse
    requires forall j :: 0 <= j < st.pos.i ==> RevEntered(st.bounds, s[j].key)
    ensures Collect(s, st) == Reversed(Select(s[..st.pos.i], st.bounds, true))
    decreases st.pos.i
  {
    var i := st.pos.i;
    var next := st.(pos := if i > 0 then At(i - 1) else Off);
    assert Advanced(s, st, true) == next;
    CollectUnfold(s, st);
    var yielded := Collect(s, st);
    if i > 0 {
      var e, below := s[i - 1], s[..i - 1];
      assert s[..i] == below + [e];
      if InBounds(st.bounds, true, e.key) {
        assert yielded == [e] + Collect(s, next);
        ReverseTail(s, next);
        ReversedSelectSnoc(below, e, st.bounds);
        assert yielded == [e] + Reversed(Select(below, st.bounds, true));
      } else {
        assert yielded == [];
        ReverseStops(s, st.bounds, i - 1);
      }
    } else {
      assert yielded == [] && s[..i] == [];
    }
  }

  /** Descending, an admitted entry above the rest is yielded before the admitted rest. */
  lemma ReversedSelectSnoc(below: seq<Entry>, e: Entry, b: Bounds)
    requires InBounds(b, true, e.key)
    ensures Reversed(Select(below + [e], b, true)) == [e] + Reversed(Select(below, b, true))
  {
    SelectSnoc(below, e, b, true);
    ReversedSnoc(Select(below, b, true), e);
  }

  /** Descending, once an entry below the upper end fails the bounds, no earlier entry passes them. */
  lemma ReverseStops(s: seq<Entry>, b: Bounds, i: nat)
    requires Sorted(s) && i < |s|
    requires forall j :: 0 <= j <= i ==> RevEntered(b, s[j].key)
    requires !InBounds(b, true, s[i].key)
    ensures Select(s[..i + 1], b, true) == []
  {
    ReverseSplit(b, s[i].key);
    forall j | 0 <= j <= i
      ensures !InBounds(b, true, s[j].key)
    {
      ReverseSplit(b, s[j].key);
      if j < i {
        LessIsStrict(s[j].key, s[i].key);
        if RevNotPassed(b, s[j].key) {
          RevNotPassedUpward(b, s[j].key, s[i].key);
        }
      }
    }
    SelectNone(s[..i + 1], b, true);
  }

  // ---------------------------------------------------------------------
  // The first advance: where it lands decides the whole sequence.

  /**
   * What pulling yields from a state the first advance has just produced:
   * the entry under the cursor if it is valid, then the rest.
   */
  function Drain(s: seq<Entry>, st: IterState): (r: seq<Entry>)
    requires InRange(s, st.pos) && !st.start
    ensures forall e :: e in r ==> e in s && InBounds(st.bounds, st.dir == Reverse, e.key)
  {
    if ValidAt(s, st.pos, st.bounds, st.dir == Reverse) then [s[st.pos.i]] + Collect(s, st) else []
  }

  lemma CollectIsDrainOfAdvanced(s: seq<Entry>, st: IterState)
    requires InRange(s, st.pos) && AdvanceDefined(s, st, st.dir == Reverse)
    ensures Collect(s, st) == Drain(s, Advanced(s, st, st.dir == Reverse))
  {
  }

  /**
   * Ascending from index `l` (`Off` when `l` is `|s|`), when every key from
   * `l` on is past the lower bound, the iterator yields the admitted entries
   * from `l` on.
   */
  lemma ForwardFromLanding(s: seq<Entry>, st: IterState, l: nat)
    requires Sorted(s) && !st.start && st.dir == Forward && l <= |s|
    requires st.pos == if l < |s| then At(l) else Off
    requires forall j :: l <= j < |s| ==> Entered(st.bounds, s[j].key)
    ensures Drain(s, st) == Select(s[l..], st.bounds, false)
  {
    if l < |s| {
      if InBounds(st.bounds, false, s[l].key) {
        ForwardTail(s, st);
        assert s[l..][1..] == s[l + 1..];
      } else {
        ForwardStops(s, st.bounds, l);
      }
    }
  }

  /**
   * Descending from index `m - 1` (`Off` when `m` is 0), when every key
   * below `m` is below the upper end, the iterator yields the
   * admitted entries below `m`, descending.
   */
  lemma ReverseFromLanding(s: seq<Entry>, st: IterState, m: nat)
    requires Sorted(s) && !st.start && st.dir == Reverse && m <= |s|
    requires st.pos == if m > 0 then At(m - 1) else Off
    requires forall j :: 0 <= j < m ==> RevEntered(st.bounds, s[j].key)
    ensures Drain(s, st) == Reversed(Select(s[..m], st.bounds, true))
  {
    if m > 0 {
      var l := m - 1;
      var e := s[l];
      var below := s[..l];
      assert s[..m] == below + [e];
      if InBounds(st.bounds, true, e.key) {
        assert Drain(s, st) == [e] + Collect(s, st);
        ReverseTail(s, st);
        SelectSnoc(below, e, st.bounds, true);
        assert Select(s[..m], st.bounds, true) == Select(below, st.bounds, true) + [e];
        ReversedSnoc(Select(below, st.bounds, true), e);
      } else {
        assert Drain(s, st) == [];
        ReverseStops(s, st.bounds, l);
        assert Select(s[..m], st.bounds, true) == [];
      }
    } else {
      assert Drain(s, st) == [];
      assert s[..m] == [];
    }
  }
}
