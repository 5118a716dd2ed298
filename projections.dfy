/**
 * The key-only and value-only views (`KeyIterator`, `RevKeyIterator`,
 * `ValueIterator`, `RevValueIterator`): a wrapped bounded iterator to which
 * every operation is forwarded, and a choice of which half of each entry
 * `next` yields. The view's direction is the wrapped iterator's.
 */
module Projections {
  import opened Wrappers
  import opened ByteOrder
  import opened Cursor
  import opened Range
  import opened Traversal
  import opened Iterators

  /** A key view (`KeyIterator`, `RevKeyIterator`) or a value view (`ValueIterator`, `RevValueIterator`). */
  datatype Kind = Keys | Values

  /**
   * The half of an entry that `next` yields, as the four iterator types
   * are declared: key views yield the key, `ValueIterator` yields the value,
   * and `RevValueIterator` yields the key.
   */
  function Project(kind: Kind, dir: Direction, e: Entry): (r: Bytes)
    ensures kind == Keys ==> r == e.key
    ensures kind == Values && dir == Forward ==> r == e.value
    ensures kind == Values && dir == Reverse ==> r == e.key
  {
    match kind
    case Keys => e.key
    case Values => if dir == Forward then e.value else e.key
  }

  /** What a view yields for a sequence of entries. */
  function ProjectAll(kind: Kind, dir: Direction, es: seq<Entry>): (r: seq<Bytes>)
    ensures |r| == |es|
    ensures forall i :: 0 <= i < |es| ==> r[i] == Project(kind, dir, es[i])
  {
    seq(|es|, i requires 0 <= i < |es| => Project(kind, dir, es[i]))
  }

  class Projection {
    const inner: EntryIterator
    const kind: Kind

    ghost predicate Valid()
      reads this, inner
    {
      inner.Valid()
    }

    /** What the view yields from now until its first `None`. */
    ghost function Remaining(): (r: seq<Bytes>)
      reads this, inner
      requires Valid() && AdvanceDefined(inner.store, inner.State(), inner.dir.Reverse?)
    {
      ProjectAll(kind, inner.dir, inner.Remaining())
    }

    /** `KeyIterator::new` / `ValueIterator::new`: a view over a fresh ascending iterator. */
    constructor (entries: seq<Entry>, k: Kind)
      requires Sorted(entries)
      ensures Valid() && fresh(inner) && kind == k
      ensures inner.store == entries && inner.State() == Fresh(entries)
    {
      inner := new EntryIterator(entries);
      kind := k;
    }

    /** `valid(reverse)`, forwarded. */
    function IsValid(reverse: bool): (ok: bool)
      reads this, inner
      requires Valid()
      ensures ok == ValidAt(inner.store, inner.pos, inner.Bound(), reverse)
    {
      inner.IsValid(reverse)
    }

    /** `advance(reverse)`: the default method over the forwarded cursor, flag and bounds. */
    method Advance(reverse: bool) returns (ok: bool)
      requires Valid() && AdvanceDefined(inner.store, inner.State(), reverse)
      modifies inner
      ensures Valid() && inner.State() == Advanced(inner.store, old(inner.State()), reverse)
      ensures ok == ValidAt(inner.store, inner.pos, inner.Bound(), reverse)
    {
      ok := inner.Advance(reverse);
    }

    /**
     * `next()`: advance in the view's direction and yield this view's half
     * of the entry under the cursor while it is valid.
     */
    method Next() returns (item: Option<Bytes>)
      requires Valid() && AdvanceDefined(inner.store, inner.State(), inner.dir.Reverse?)
      modifies inner
      ensures Valid() && inner.State() == Advanced(inner.store, old(inner.State()), old(inner.dir).Reverse?)
      ensures item.None? <==> old(Remaining()) == []
      ensures item.Some? ==> AdvanceDefined(inner.store, inner.State(), inner.dir.Reverse?) &&
                             old(Remaining()) == [item.value] + Remaining()
    {
      var entry := inner.Next();
      if entry.Some? {
        item := Some(Project(kind, inner.dir, entry.value));
        assert ProjectAll(kind, inner.dir, [entry.value] + inner.Remaining()) ==
               [item.value] + ProjectAll(kind, inner.dir, inner.Remaining());
      } else {
        item := None;
      }
    }

    /** `reverse()`: the same kind of view over the reversed wrapped iterator. */
    method Reverse()
      requires Valid()
      modifies inner
      ensures Valid() && inner.State() == AfterReverse(inner.store, old(inner.State()))
    {
      inner.Reverse();
    }

    /** `from(key)`: sets the wrapped iterator's `from` bound. */
    method From(k: Bytes)
      modifies inner
      ensures inner.State() == old(inner.State()).(bounds := old(inner.Bound()).(from := Some(k)))
    {
      inner.From(k);
    }

    /** `to(key)`: sets the wrapped iterator's `to` bound. */
    method To(k: Bytes)
      modifies inner
      ensures inner.State() == old(inner.State()).(bounds := old(inner.Bound()).(to := Some(k)))
    {
      inner.To(k);
    }

    /** `prefix(key)`: sets the wrapped iterator's `prefix` bound. */
    method Prefix(k: Bytes)
      modifies inner
      ensures inner.State() == old(inner.State()).(bounds := old(inner.Bound()).(prefix := Some(k)))
    {
      inner.Prefix(k);
    }

    /** `seek(key)` on the shared cursor. */
    method Seek(k: Bytes)
      requires Valid()
      modifies inner
      ensures Valid() && inner.pos == SeekPos(inner.store, k)
      ensures inner.start == old(inner.start) && inner.dir == old(inner.dir) && inner.Bound() == old(inner.Bound())
    {
      inner.Seek(k);
    }

    /** `seek_to_first()` on the shared cursor. */
    method SeekToFirst()
      requires Valid()
      modifies inner
      ensures Valid() && inner.pos == SeekToFirstPos(inner.store)
      ensures inner.start == old(inner.start) && inner.dir == old(inner.dir) && inner.Bound() == old(inner.Bound())
    {
      inner.SeekToFirst();
    }

    /** `seek_to_last()`, honouring the wrapped iterator's `to`. */
    method SeekToLast()
      requires Valid()
      modifies inner
      ensures Valid() && inner.pos == BoundedLastPos(inner.store, inner.to)
      ensures inner.start == old(inner.start) && inner.dir == old(inner.dir) && inner.Bound() == old(inner.Bound())
    {
      inner.SeekToLast();
    }

    /**
     * `KeyIterator::last()` / `ValueIterator::last()` (the ascending views
     * only): `seek_to_last` and this view's half of the entry there.
     */
    method Last() returns (r: Option<Bytes>)
      requires Valid() && inner.dir == Forward && BoundedLastPos(inner.store, inner.to).At?
      modifies inner
      ensures Valid() && inner.pos == BoundedLastPos(inner.store, inner.to)
      ensures inner.start == old(inner.start) && inner.dir == old(inner.dir) && inner.Bound() == old(inner.Bound())
      ensures r == Some(Project(kind, Forward, LastEntry(inner.store, inner.to)))
    {
      inner.SeekToLast();
      r := Some(if kind == Keys then inner.Key() else inner.Value());
    }
  }
}
