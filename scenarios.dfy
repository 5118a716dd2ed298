/**
 * The behaviours the repository's iterator tests exercise, on the same
 * stores, derived from the general traversal theorems.
 */
module Scenarios {
  import opened Wrappers
  import opened ByteOrder
  import opened Cursor
  import opened Range
  import opened Traversal
  import opened Yields
  import opened Projections
  import opened Iterators

  /** An entry whose key and value are the same single byte, as the tests write them. */
  function E(k: Byte): (e: Entry) {
    Entry([k], [k])
  }

  /** A store whose keys increase from each entry to the next is sorted. */
  lemma {:induction false} SortedFromAdjacent(s: seq<Entry>)
    requires forall i :: 0 <= i < |s| - 1 ==> Less(s[i].key, s[i + 1].key)
    ensures Sorted(s)
    decreases |s|
  {
    if |s| > 1 {
      var t := s[1..];
      SortedFromAdjacent(t);
      forall j | 1 <= j < |s|
        ensures Less(s[0].key, s[j].key)
      {
        if j > 1 {
          assert Less(t[0].key, t[j - 1].key);
          LessIsStrict(s[0].key, s[1].key);
          LessEqLessTransitive(s[0].key, s[1].key, s[j].key);
        }
      }
    }
  }

  /** On one-byte keys the byte order is the order of the bytes. */
  lemma SingleByteOrder(a: Byte, b: Byte)
    ensures LessEq([a], [b]) <==> a <= b
  {
    assert [a][1..] == [] && [b][1..] == [];
  }

  /** The store `[1]` .. `[5]` that most of the tests fill. */
  function OneToFive(): (s: seq<Entry>)
    ensures |s| == 5 && forall j :: 0 <= j < 5 ==> s[j] == E((j + 1) as Byte)
  {
    seq(5, j requires 0 <= j < 5 => E((j + 1) as Byte))
  }

  lemma OneToFiveSorted()
    ensures Sorted(OneToFive())
  {
    var s := OneToFive();
    forall i | 0 <= i < |s| - 1
      ensures Less(s[i].key, s[i + 1].key)
    {
      SingleByteOrder((i + 2) as Byte, (i + 1) as Byte);
    }
    SortedFromAdjacent(s);
  }

  /** Over the keys `[1]` and `[2]`, `seek_to_last` lands on `([2], [2])`, the entry `iter.last()` is expected to return. */
  lemma LastOfTwo()
    ensures BoundedLastPos([E(1), E(2)], None).At?
    ensures LastEntry([E(1), E(2)], None) == E(2)
  {
  }

  /** After `seek(&[2])` the first two entries yielded are `[2]` then `[3]`. */
  lemma SeekScenario()
    ensures var s := OneToFive();
            var c := Collect(s, IterState(SeekPos(s, [2]), true, Forward, Unbounded));
            |c| >= 2 && c[0] == E(2) && c[1] == E(3)
  {
    var s := OneToFive();
    OneToFiveSorted();
    SeekThenTraverse(s, IterState(SeekPos(s, [2]), true, Forward, Unbounded), [2]);
    assert LowerBound(s, [2]) == 1;
  }

  /** Under `from(&[3])` the entries `[3]` .. `[5]` of `OneToFive()` are the admitted ones. */
  lemma FromThreeSelect(s: seq<Entry>)
    requires s == OneToFive()
    ensures Select(s, Bounds(Some([3]), None, None), false) == s[2..5]
  {
    var b := Bounds(Some([3]), None, None);
    forall j | 0 <= j < |s|
      ensures InBounds(b, false, s[j].key) <==> 2 <= j < 5
    {
      SingleByteOrder(3, (j + 1) as Byte);
    }
    SelectWindow(s, b, false, 2, 5);
  }

  /** `from(&[3])` yields `[3]`, `[4]`, `[5]`. */
  lemma FromScenario(s: seq<Entry>)
    requires s == OneToFive()
    ensures Collect(s, Fresh(s).(bounds := Bounds(Some([3]), None, None))) == [E(3), E(4), E(5)]
  {
    var b := Bounds(Some([3]), None, None);
    var st := Fresh(s).(bounds := b);
    FromThreeSelect(s);
    assert s[2..5] == [E(3), E(4), E(5)] by {
      assert s[2] == E(3) && s[3] == E(4) && s[4] == E(5);
    }
    OneToFiveSorted();
    ForwardTraversal(s, st);
  }

  /** Three entries read backwards. */
  lemma ReversedThree(x: seq<Entry>)
    requires |x| == 3
    ensures Reversed(x) == [x[2], x[1], x[0]]
  {
    forall k | 0 <= k < 3
      ensures Reversed(x)[k] == x[2 - k]
    {
      ReversedAt(x, k);
    }
  }

  /**
   * Two entries in key order: the fresh iterator yields them ascending,
   * and after `reverse()` descending (the tests `test_iterator` and
   * `test_iterator_reverse`).
   */
  lemma TwoEntryScenario(s: seq<Entry>)
    requires Sorted(s) && |s| == 2
    ensures Collect(s, Fresh(s)) == [s[0], s[1]]
    ensures AdvanceDefined(s, AfterReverse(s, Fresh(s)), true)
    ensures Collect(s, AfterReverse(s, Fresh(s))) == [s[1], s[0]]
  {
    FreshVisitsAll(s);
    ReversedFreshMirrorsForward(s);
    assert s == [s[0]] + [s[1]];
    ReversedSnoc([s[0]], s[1]);
    assert Reversed([s[0]]) == [s[0]];
  }

  /** `from(&[3]).reverse()` yields `[3]`, `[2]`, `[1]`. */
  lemma FromReverseScenario(s: seq<Entry>)
    requires s == OneToFive()
    ensures AdvanceDefined(s, AfterReverse(s, Fresh(s).(bounds := Bounds(Some([3]), None, None))), true)
    ensures Collect(s, AfterReverse(s, Fresh(s).(bounds := Bounds(Some([3]), None, None)))) == [E(3), E(2), E(1)]
  {
    var b := Bounds(Some([3]), None, None);
    var st := AfterReverse(s, Fresh(s).(bounds := b));
    assert Select(s, b, true) == s[0..3] by {
      forall j | 0 <= j < |s|
        ensures InBounds(b, true, s[j].key) <==> 0 <= j < 3
      {
        SingleByteOrder((j + 1) as Byte, 3);
      }
      SelectWindow(s, b, true, 0, 3);
    }
    assert Reversed(s[0..3]) == [E(3), E(2), E(1)] by {
      ReversedThree(s[0..3]);
      assert s[0] == E(1) && s[1] == E(2) && s[2] == E(3);
    }
    assert CursorValid(SeekPos(s, [3])) by {
      SingleByteOrder(3, 5);
      assert LessEq([3], s[4].key);
    }
    OneToFiveSorted();
    ReverseTraversal(s, st);
    assert Collect(s, st) == Reversed(Select(s, b, true));
  }

  /** `to(&[3]).reverse()` yields `[5]`, `[4]`, `[3]`. */
  lemma ToReverseScenario(s: seq<Entry>)
    requires s == OneToFive()
    ensures AdvanceDefined(s, AfterReverse(s, Fresh(s).(bounds := Bounds(None, Some([3]), None))), true)
    ensures Collect(s, AfterReverse(s, Fresh(s).(bounds := Bounds(None, Some([3]), None)))) == [E(5), E(4), E(3)]
  {
    var b := Bounds(None, Some([3]), None);
    var st := AfterReverse(s, Fresh(s).(bounds := b));
    assert Select(s, b, true) == s[2..5] by {
      forall j | 0 <= j < |s|
        ensures InBounds(b, true, s[j].key) <==> 2 <= j < 5
      {
        SingleByteOrder(3, (j + 1) as Byte);
      }
      SelectWindow(s, b, true, 2, 5);
    }
    assert Reversed(s[2..5]) == [E(5), E(4), E(3)] by {
      ReversedThree(s[2..5]);
      assert s[2] == E(3) && s[3] == E(4) && s[4] == E(5);
    }
    OneToFiveSorted();
    ReverseTraversal(s, st);
    assert Collect(s, st) == Reversed(Select(s, b, true));
  }

  /**
   * `to(&[3]).reverse()` over the keys `[1]` and `[2]` yields nothing: in
   * reverse `to` is the lower end, and every key is below it.
   */
  lemma ToReverseBelowAllKeys(s: seq<Entry>)
    requires s == [E(1), E(2)]
    ensures AdvanceDefined(s, AfterReverse(s, Fresh(s).(bounds := Bounds(None, Some([3]), None))), true)
    ensures Collect(s, AfterReverse(s, Fresh(s).(bounds := Bounds(None, Some([3]), None)))) == []
  {
    var b := Bounds(None, Some([3]), None);
    var st := AfterReverse(s, Fresh(s).(bounds := b));
    assert Select(s, b, true) == [] by {
      SingleByteOrder(3, 1);
      SingleByteOrder(3, 2);
      SelectNone(s, b, true);
    }
    assert Sorted(s) by {
      SingleByteOrder(2, 1);
    }
    ReverseTraversal(s, st);
    assert Collect(s, st) == Reversed(Select(s, b, true));
  }

  /** The store `[2]` .. `[5]` of `test_iterator_from_to`. */
  function TwoToFive(): (s: seq<Entry>)
    ensures |s| == 4 && forall j :: 0 <= j < 4 ==> s[j] == E((j + 2) as Byte)
  {
    seq(4, j requires 0 <= j < 4 => E((j + 2) as Byte))
  }

  /** `from(&[1]).to(&[4])` over `[2]` .. `[5]` yields `[2]`, `[3]`, `[4]`. */
  lemma FromToScenario(s: seq<Entry>)
    requires s == TwoToFive()
    ensures Collect(s, Fresh(s).(bounds := Bounds(Some([1]), Some([4]), None))) == [E(2), E(3), E(4)]
  {
    var b := Bounds(Some([1]), Some([4]), None);
    var st := Fresh(s).(bounds := b);
    assert Select(s, b, false) == s[0..3] by {
      forall j | 0 <= j < |s|
        ensures InBounds(b, false, s[j].key) <==> 0 <= j < 3
      {
        SingleByteOrder(1, (j + 2) as Byte);
        SingleByteOrder((j + 2) as Byte, 4);
      }
      SelectWindow(s, b, false, 0, 3);
    }
    assert s[0..3] == [E(2), E(3), E(4)] by {
      assert s[0] == E(2) && s[1] == E(3) && s[2] == E(4);
    }
    assert Sorted(s) by {
      forall i | 0 <= i < |s| - 1
        ensures Less(s[i].key, s[i + 1].key)
      {
        SingleByteOrder((i + 3) as Byte, (i + 2) as Byte);
      }
      SortedFromAdjacent(s);
    }
    ForwardTraversal(s, st);
    assert Collect(s, st) == Select(s, b, false);
  }

  /** The store `[1]` .. `[4]`, `[10]` of `test_iterator_from_to_reverse`. */
  function FromToReverseStore(): (s: seq<Entry>)
    ensures |s| == 5 && forall j :: 0 <= j < 5 ==> s[j] == E(if j < 4 then (j + 1) as Byte else 10)
  {
    seq(5, j requires 0 <= j < 5 => E(if j < 4 then (j + 1) as Byte else 10))
  }

  /** `from(&[5]).to(&[2]).reverse()` over `[1]` .. `[4]`, `[10]` yields `[4]`, `[3]`, `[2]`. */
  lemma FromToReverseScenario(s: seq<Entry>)
    requires s == FromToReverseStore()
    ensures AdvanceDefined(s, AfterReverse(s, Fresh(s).(bounds := Bounds(Some([5]), Some([2]), None))), true)
    ensures Collect(s, AfterReverse(s, Fresh(s).(bounds := Bounds(Some([5]), Some([2]), None)))) == [E(4), E(3), E(2)]
  {
    var b := Bounds(Some([5]), Some([2]), None);
    var st := AfterReverse(s, Fresh(s).(bounds := b));
    assert Select(s, b, true) == s[1..4] by {
      forall j | 0 <= j < |s|
        ensures InBounds(b, true, s[j].key) <==> 1 <= j < 4
      {
        SingleByteOrder(s[j].key[0], 5);
        SingleByteOrder(2, s[j].key[0]);
      }
      SelectWindow(s, b, true, 1, 4);
    }
    assert Reversed(s[1..4]) == [E(4), E(3), E(2)] by {
      ReversedThree(s[1..4]);
      assert s[1] == E(2) && s[2] == E(3) && s[3] == E(4);
    }
    assert CursorValid(SeekPos(s, [5])) by {
      SingleByteOrder(5, 10);
      assert LessEq([5], s[4].key);
    }
    assert Sorted(s) by {
      forall i | 0 <= i < |s| - 1
        ensures Less(s[i].key, s[i + 1].key)
      {
        SingleByteOrder(s[i + 1].key[0], s[i].key[0]);
      }
      SortedFromAdjacent(s);
    }
    ReverseTraversal(s, st);
    assert Collect(s, st) == Reversed(Select(s, b, true));
  }

  /** The store of `test_iterator_prefix`, entry by entry. */
  predicate IsPrefixTestStore(s: seq<Entry>) {
    |s| == 8 &&
    s[0] == Entry([1], [1]) && s[1] == Entry([2], [2]) && s[2] == Entry([2, 1], [3]) &&
    s[3] == Entry([2, 1, 1], [4]) && s[4] == Entry([2, 2], [5]) && s[5] == Entry([2, 3], [6]) &&
    s[6] == Entry([3, 1], [7]) && s[7] == Entry([3, 2], [8])
  }

  lemma PrefixTestStoreSorted(s: seq<Entry>)
    requires IsPrefixTestStore(s)
    ensures Sorted(s)
  {
    forall i | 0 <= i < |s| - 1
      ensures Less(s[i].key, s[i + 1].key)
    {
      var a, b := s[i].key, s[i + 1].key;
      assert a[1..] == [] || b[1..] == [] || a[1..][1..] == [] || b[1..][1..] == [];
    }
    SortedFromAdjacent(s);
  }

  /** The prefix test's selection under `prefix(&[2])`: the entries at indices 1 to 5. */
  lemma PrefixTestSelect(s: seq<Entry>)
    requires IsPrefixTestStore(s)
    ensures Select(s, Bounds(None, None, Some([2])), false) == s[1..6]
  {
    var b := Bounds(None, None, Some([2]));
    forall j | 0 <= j < |s|
      ensures InBounds(b, false, s[j].key) <==> 1 <= j < 6
    {
      assert s[j].key[..1] == [s[j].key[0]];
    }
    SelectWindow(s, b, false, 1, 6);
  }

  /**
   * `prefix(&[2])` yields the five entries whose keys start with `[2]`
   * (indices 1 to 5: `[2]`, `[2, 1]`, `[2, 1, 1]`, `[2, 2]`, `[2, 3]`), ascending.
   */
  lemma PrefixScenario(s: seq<Entry>)
    requires IsPrefixTestStore(s)
    ensures Collect(s, Fresh(s).(bounds := Bounds(None, None, Some([2])))) == s[1..6]
  {
    var st := Fresh(s).(bounds := Bounds(None, None, Some([2])));
    PrefixTestStoreSorted(s);
    PrefixTestSelect(s);
    ForwardTraversal(s, st);
  }

  /** The first key of `keys_iter` and the first value of `value_iter` over `[1]`, `[2]` are both `[1]`. */
  lemma KeyAndValueViewsScenario(s: seq<Entry>)
    requires s == [E(1), E(2)]
    ensures ProjectAll(Keys, Forward, Collect(s, Fresh(s))) == [[1], [2]]
    ensures ProjectAll(Values, Forward, Collect(s, Fresh(s))) == [[1], [2]]
  {
    assert Sorted(s) by {
      SingleByteOrder(2, 1);
    }
    FreshVisitsAll(s);
  }

  /**
   * `test_iterator_from_reverse` driven through the iterator object:
   * three entries, descending, then the end.
   */
  method FromReverseThroughIterator() returns (a: Option<Entry>, b: Option<Entry>, c: Option<Entry>, d: Option<Entry>)
    ensures a == Some(E(3)) && b == Some(E(2)) && c == Some(E(1)) && d == None
  {
    var s := OneToFive();
    OneToFiveSorted();
    var it := new EntryIterator(s);
    it.From([3]);
    it.Reverse();
    FromReverseScenario(s);
    assert it.Remaining() == [E(3), E(2), E(1)];
    a := it.Next();
    assert [E(3), E(2), E(1)] == [a.value] + it.Remaining();
    assert it.Remaining() == [E(2), E(1)];
    assert ([a.value] + it.Remaining())[0] == a.value;
    assert a == Some(E(3));
    b := it.Next();
    assert [E(2), E(1)] == [b.value] + it.Remaining();
    assert it.Remaining() == [E(1)];
    assert ([b.value] + it.Remaining())[0] == b.value;
    assert b == Some(E(2));
    c := it.Next();
    assert [E(1)] == [c.value] + it.Remaining();
    assert it.Remaining() == [];
    assert ([c.value] + it.Remaining())[0] == c.value;
    assert c == Some(E(1));
    d := it.Next();
  }
}
