/**
 * The bounded iterator itself: `Iterator` and `RevIterator` of
 * src/database/iterator.rs as one class whose `dir` field says which of the
 * two it currently is. It owns the engine cursor (a position over the
 * store), the `start` flag and the three optional bounds; every operation
 * that moves the cursor or clears the flag is a method, and each method's
 * new state is the corresponding function of Traversal applied to the old.
 */
module Iterators {
  import opened Wrappers
  import opened ByteOrder
  import opened Cursor
  import opened Range
  import opened Traversal

  class EntryIterator {
    /** The entries the engine iterates over (a snapshot or the live store, unchanged while iterating). */
    const store: seq<Entry>
    /** The engine cursor. */
    var pos: Pos
    /** True until the first `advance`. */
    var start: bool
    /** `Forward` for an `Iterator`, `Reverse` for a `RevIterator`. */
    var dir: Direction
    var from: Option<Bytes>
    var to: Option<Bytes>
    var prefix: Option<Bytes>

    ghost predicate Valid()
      reads this
    {
      Sorted(store) && InRange(store, pos)
    }

    /** The three bound fields as one value. */
    function Bound(): (b: Bounds)
      reads this
    {
      Bounds(from, to, prefix)
    }

    /** The fields as the state the traversal functions work on. */
    function State(): (st: IterState)
      reads this
    {
      IterState(pos, start, dir, Bound())
    }

    /** The entries that pulling until the first `None` yields from now on. */
    ghost function Remaining(): (r: seq<Entry>)
      reads this
      requires Valid() && AdvanceDefined(store, State(), dir.Reverse?)
    {
      Collect(store, State())
    }

    /** `Iterator::new`: a cursor on the first entry, not started, no bounds. */
    constructor (entries: seq<Entry>)
      requires Sorted(entries)
      ensures Valid() && store == entries
      ensures State() == Fresh(entries)
    {
      store := entries;
      pos := SeekToFirstPos(entries);
      start := true;
      dir := Forward;
      from, to, prefix := None, None, None;
    }

    /**
     * `valid(reverse)`: the cursor is on an entry and, if a prefix bound is
     * set, the key starts with it; otherwise the key lies within the
     * inclusive `from`/`to` bounds, compared the other way round in reverse.
     */
    function IsValid(reverse: bool): (ok: bool)
      reads this
      requires Valid()
      ensures ok == ValidAt(store, pos, Bound(), reverse)
    {
      if CursorValid(pos) then
        match prefix
        case Some(p) => HasPrefix(store[pos.i].key, p)
        case None =>
          var fromOk := match from
            case Some(f) => if reverse then LessEq(store[pos.i].key, f) else LessEq(f, store[pos.i].key)
            case None => true;
          var toOk := match to
            case Some(t) => if reverse then LessEq(t, store[pos.i].key) else LessEq(store[pos.i].key, t)
            case None => true;
          fromOk && toOk
      else false
    }

    /** `key()`: the key under the cursor; the engine requires a valid cursor. */
    function Key(): (k: Bytes)
      reads this
      requires Valid() && pos.At?
      ensures exists e :: e in store && e.key == k
    {
      assert store[pos.i] in store;
      store[pos.i].key
    }

    /** `value()`: the value under the cursor; the engine requires a valid cursor. */
    function Value(): (v: Bytes)
      reads this
      requires Valid() && pos.At?
      ensures Entry(Key(), v) in store
    {
      store[pos.i].value
    }

    /** `entry()`: key and value under the cursor. */
    function CurrentEntry(): (e: Entry)
      reads this
      requires Valid() && pos.At?
      ensures e in store && e == Entry(Key(), Value())
    {
      Entry(Key(), Value())
    }

    /** `seek(key)`: the engine's raw seek, bounds not consulted. */
    method Seek(k: Bytes)
      requires Valid()
      modifies this
      ensures Valid() && pos == SeekPos(store, k)
      ensures start == old(start) && dir == old(dir) && Bound() == old(Bound())
    {
      pos := SeekPos(store, k);
    }

    /** `seek_to_first()`: the engine's raw seek to the first entry. */
    method SeekToFirst()
      requires Valid()
      modifies this
      ensures Valid() && pos == SeekToFirstPos(store)
      ensures start == old(start) && dir == old(dir) && Bound() == old(Bound())
    {
      pos := SeekToFirstPos(store);
    }

    /** `seek_to_last()`: seek to `to` when it is set, else the engine's last entry. */
    method SeekToLast()
      requires Valid()
      modifies this
      ensures Valid() && pos == BoundedLastPos(store, to)
      ensures start == old(start) && dir == old(dir) && Bound() == old(Bound())
    {
      if to.Some? {
        Seek(to.value);
      } else {
        pos := SeekToLastPos(store);
      }
    }

    /** `advance_raw()`: one engine step in the iterator's own direction; the engine requires a valid cursor. */
    method AdvanceRaw()
      requires Valid() && pos.At?
      modifies this
      ensures Valid() && pos == RawStep(store, old(pos), dir)
      ensures start == old(start) && dir == old(dir) && Bound() == old(Bound())
    {
      if dir == Forward {
        pos := NextPos(store, pos);
      } else {
        pos := PrevPos(store, pos);
      }
    }

    /** `started()`: clears the `start` flag. */
    method Started()
      modifies this
      ensures !start && pos == old(pos) && dir == old(dir) && Bound() == old(Bound())
    {
      start := false;
    }

    /**
     * `advance(reverse)`: the first call seeks to `prefix`, or to `from`
     * (stepping back once when that fails `valid` in reverse), and clears
     * `start`; every later call is one raw step. Returns `valid(reverse)`.
     */
    method Advance(reverse: bool) returns (ok: bool)
      requires Valid() && AdvanceDefined(store, State(), reverse)
      modifies this
      ensures Valid() && State() == Advanced(store, old(State()), reverse)
      ensures ok == ValidAt(store, pos, Bound(), reverse)
    {
      if !start {
        AdvanceRaw();
      } else {
        if prefix.Some? {
          Seek(prefix.value);
        } else if from.Some? {
          Seek(from.value);
          var here := IsValid(reverse);
          if !here && reverse {
            AdvanceRaw();
          } else {
            Seek(from.value);
          }
        }
        Started();
      }
      ok := IsValid(reverse);
    }

    /**
     * `next()`: advance in the iterator's own direction and yield the entry
     * under the cursor while it is valid. The entry yielded is the head of
     * what remains, and what remains afterwards is the rest.
     */
    method Next() returns (item: Option<Entry>)
      requires Valid() && AdvanceDefined(store, State(), dir.Reverse?)
      modifies this
      ensures Valid() && State() == Advanced(store, old(State()), old(dir).Reverse?)
      ensures item.None? <==> old(Remaining()) == []
      ensures item.Some? ==> AdvanceDefined(store, State(), dir.Reverse?) &&
                             old(Remaining()) == [item.value] + Remaining()
    {
      CollectIsDrainOfAdvanced(store, State());
      var ok := Advance(dir.Reverse?);
      if ok {
        item := Some(CurrentEntry());
      } else {
        item := None;
      }
    }

    /**
     * `reverse()`: turn an `Iterator` into a `RevIterator` or back. Before
     * the first advance the cursor moves to the opposite edge with the raw
     * engine seek; afterwards it stays where it is.
     */
    method Reverse()
      requires Valid()
      modifies this
      ensures Valid() && State() == AfterReverse(store, old(State()))
    {
      if start {
        if dir == Forward {
          pos := SeekToLastPos(store);
        } else {
          pos := SeekToFirstPos(store);
        }
      }
      dir := Flip(dir);
    }

    /** `from(key)`: sets the `from` bound and nothing else. */
    method From(k: Bytes)
      modifies this
      ensures State() == old(State()).(bounds := old(Bound()).(from := Some(k)))
    {
      from := Some(k);
    }

    /** `to(key)`: sets the `to` bound and nothing else. */
    method To(k: Bytes)
      modifies this
      ensures State() == old(State()).(bounds := old(Bound()).(to := Some(k)))
    {
      to := Some(k);
    }

    /** `prefix(key)`: sets the `prefix` bound and nothing else. */
    method Prefix(k: Bytes)
      modifies this
      ensures State() == old(State()).(bounds := old(Bound()).(prefix := Some(k)))
    {
      prefix := Some(k);
    }

    /**
     * The inherent `Iterator::last(&self)`, reached through `(&it).last()`
     * (on an owned iterator `it.last()` is the standard library's draining
     * `last`): `seek_to_last` and the entry there, without consulting
     * `valid` or `start`; the engine requires the seek to land on an entry.
     */
    method Last() returns (r: Option<Entry>)
      requires Valid() && dir == Forward && BoundedLastPos(store, to).At?
      modifies this
      ensures Valid() && pos == BoundedLastPos(store, to)
      ensures start == old(start) && dir == old(dir) && Bound() == old(Bound())
      ensures r == Some(LastEntry(store, to))
    {
      SeekToLast();
      r := Some(CurrentEntry());
    }
  }
}
