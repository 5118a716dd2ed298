# Bounded, direction-aware LevelDB iterators

This project models the iterator layer of the LevelDB bindings in
`src/database/iterator.rs` and proves properties of it. The layer wraps one
engine cursor over the store's sorted keyspace and adds four things on top:

- inclusive `from`/`to` bounds and a byte-prefix bound, checked by `valid`;
- a two-phase `advance`: the first call seeks to the bound, later calls take
  one raw step;
- `reverse`, which swaps `Iterator` and `RevIterator`;
- the key-only and value-only views (`KeyIterator`, `RevKeyIterator`,
  `ValueIterator`, `RevValueIterator`).

The engine is modelled as a strictly ascending sequence of entries. The
cursor is an index into it, or `Off` when it is not on an entry. The engine
operations map onto the model like this:

- `leveldb_iter_seek` goes to the first key at least the target.
- `seek_to_first` and `seek_to_last` go to the two ends.
- `next` and `prev` move by one.
- Stepping or reading an invalid cursor is a precondition violation.

Keys are compared in Rust slice order (`<=` on `&[u8]`), and the prefix test
is `starts_with`.

Layout:

- `byte_order.dfy`: slice order and the prefix test, with the order laws.
- `cursor.dfy`: the engine cursor (seek, first, last, next, prev).
- `range.dfy`: the bound test of `valid` and `Select`, the reference filter.
  `Select` lists the entries the bounds admit.
- `traversal.dfy`: the iterator state machine as functions of the state.
  `Collect` is the sequence that calling `next` until the first `None` yields.
- `yields.dfy`: the main theorems, and where each first `advance` lands.
  An unstarted ascending iterator yields exactly `Select(store)`. This holds
  when it sits on the first entry or has a `from` or `prefix` bound to seek
  to. An unstarted descending iterator yields the reverse of the admitted
  entries, under three conditions. It sits on the last entry, as `reverse()`
  leaves it, or has a `from` bound to seek to; after an explicit `seek` it
  starts from wherever that seek landed. It has no prefix bound, since with
  one it yields at most the smallest match. Its step back after
  `seek(from)` must also be defined, which fails when `from` is above every
  key.
- `iterators.dfy`: the class `EntryIterator`. It stands for `Iterator` and
  `RevIterator`, with a `dir` field for the direction. Each method's new
  state is the corresponding `Traversal` function of the old one.
- `projections.dfy`: the key and value views, as a class that forwards to an
  `EntryIterator`.
- `findings.dfy`: five discrepancies in the source. Each has a counterexample
  and a corrected definition with its property proved.
- `scenarios.dfy`: the stores and expected outputs of `tests/iterator.rs`,
  derived from the general theorems.

In reverse, `to` is the lower end: the code checks `key >= to` (src/database/iterator.rs:144-152).
So `to([3]).reverse()` over the keys `[1]`, `[2]` yields nothing (`Scenarios.ToReverseBelowAllKeys`).

`Iterator` has two methods named `last`. On an owned `Iterator`, `it.last()`
resolves to the standard library's `Iterator::last(self)`, which drains
`next`. The inherent `last(&self)` (src/database/iterator.rs:265-269) is
reached through `(&it).last()` or a `&Iterator`. The key and value views
define their own `last(self)` (lines 420-423 and 438-441), and `view.last()`
reaches it. Wherever this model says `last()`, it means these inherent
methods, all of which go through `seek_to_last`. With no bound set, they
agree with the draining `last` (`Yields.LastIsFinalYield`). The test at
tests/iterator.rs:58-68 calls the draining one on such a store.

## Model

| member | source | states |
|---|---|---|
| ByteOrder.LessEqReflexive | src/database/iterator.rs:136-148 | every key is `<=` itself |
| ByteOrder.LessEqAntisymmetric | src/database/iterator.rs:136-148 | two keys each `<=` the other are equal |
| ByteOrder.LessEqTransitive | src/database/iterator.rs:136-148 | slice `<=` is transitive |
| ByteOrder.LessEqTotal | src/database/iterator.rs:136-148 | any two keys are comparable |
| ByteOrder.LessIsStrict | src/database/iterator.rs:136-148 | `a < b` implies `a <= b` and `a != b` |
| ByteOrder.LessEqLessTransitive | src/database/iterator.rs:136-148 | `a <= b < c` implies `a < c` |
| ByteOrder.LessLessEqTransitive | src/database/iterator.rs:136-148 | `a < b <= c` implies `a < c` |
| ByteOrder.PrefixIsLeast | src/database/iterator.rs:130 | a key that starts with `p` is at least `p` |
| ByteOrder.PrefixBetween | src/database/iterator.rs:130 | a key between `p` and a key starting with `p` starts with `p`, so the prefix block is contiguous |
| Cursor.LowerBoundFrom | src/database/iterator.rs:225-233 | every key before the index found is below `k`; the key at the index is at least `k` |
| Cursor.LowerBoundSplits | src/database/iterator.rs:225-233 | in a sorted store, exactly the keys from the lower bound on are at least `k` |
| Cursor.SeekPos | src/database/iterator.rs:225-233 | the seek lands on an entry iff some key is at least `k` |
| Range.Select | src/database/iterator.rs:126-160 | an entry is selected iff it is in the input and the bounds admit its key in that direction |
| Range.UnboundedAdmitsAll | src/database/iterator.rs:126-160 | with no bound set, every key is admitted in both directions |
| Range.ForwardSplit | src/database/iterator.rs:136-156 | ascending, a key is admitted iff it is past the lower end and not past the upper end |
| Range.EnteredUpward | src/database/iterator.rs:136-156 | ascending, being past the lower end is kept by larger keys |
| Range.NotPassedDownward | src/database/iterator.rs:136-156 | ascending, being within the upper end is kept by smaller keys |
| Range.ReverseSplit | src/database/iterator.rs:126-160 | descending, a key is admitted iff it is below the upper end (`from` or the prefix block) and not below the lower end (`to` or the prefix) |
| Range.RevNotPassedUpward | src/database/iterator.rs:126-160 | descending, being above the lower end is kept by larger keys |
| Range.RevEnteredDownward | src/database/iterator.rs:126-160 | descending, being below the upper end is kept by smaller keys |
| Range.ReverseSwapsFromAndTo | src/database/iterator.rs:136-156 | without a prefix, reverse with `from`/`to` admits what forward admits with the two swapped |
| Traversal.Advanced | src/database/iterator.rs:164-187 | `advance` clears `start` and keeps the direction and bounds |
| Traversal.LastEntry | src/database/iterator.rs:266-269 | the entry `last()` returns is an entry of the store |
| Traversal.Collect | src/database/iterator.rs:516-524 | every entry `next` yields before its first `None` is in the store, and the bounds admit it in the iterator's direction |
| Traversal.ForwardTail | src/database/iterator.rs:164-168 | after the first advance, ascending raw steps yield exactly the admitted later entries, provided every later key is past the lower end |
| Traversal.ForwardStops | src/database/iterator.rs:136-156 | ascending, once an entry past the lower end fails the bounds, no later entry passes them |
| Traversal.ReverseTail | src/database/iterator.rs:164-168 | after the first advance, descending raw steps yield exactly the admitted earlier entries, descending, provided every earlier key is below the upper end |
| Traversal.ReverseStops | src/database/iterator.rs:126-160 | descending, once an entry below the upper end fails the bounds, no earlier entry passes them |
| Traversal.ForwardFromLanding | src/database/iterator.rs:164-187 | ascending from index `l`, the iterator yields the admitted entries from `l` on |
| Traversal.ReverseFromLanding | src/database/iterator.rs:164-187 | descending from index `m - 1`, the iterator yields the admitted entries below `m`, descending |
| Yields.ForwardLanding | src/database/iterator.rs:169-183 | the first ascending advance lands after every rejected entry and before every entry past the lower end |
| Yields.ForwardTraversal | src/database/iterator.rs:164-187 | an unstarted ascending iterator with `from`, `to`, both, or `prefix` yields exactly the admitted entries, ascending |
| Yields.ReverseLanding | src/database/iterator.rs:172-178 | for an unstarted descending iterator on the last entry or with a `from` bound, and no prefix, the first advance lands just below an index `m`: every key below `m` is on the low side of the upper end, and nothing from `m` on is admitted |
| Yields.ReverseTraversal | src/database/iterator.rs:164-187 | an unstarted descending iterator on the last entry or with a `from` bound, without a prefix, and whose step back is defined, yields exactly the admitted entries, descending |
| Yields.ReverseDefinedUnlessFromPastEnd | src/database/iterator.rs:172-178 | the reverse step-back after `seek(from)` is on a valid cursor iff some key is at least `from` |
| Yields.ReverseFromLandsAtOrBelow | src/database/iterator.rs:172-178 | with `from` alone, the first reverse advance lands on a key at most `from`, and every later key is above `from` |
| Yields.ForwardFromLandsAtOrAbove | src/database/iterator.rs:172-182 | the first ascending advance from `from` lands on the smallest key at least `from` |
| Yields.ReversePrefixYieldsSmallestMatch | src/database/iterator.rs:170-171 | a reversed prefix iterator yields at most the smallest key that starts with the prefix |
| Yields.SeekThenTraverse | src/database/iterator.rs:164-187 | without bounds, an explicit `seek(k)` before the first `next` makes the iterator yield every entry from the first key at least `k` |
| Yields.FreshVisitsAll | src/database/iterator.rs:237-263 | a new iterator with no bounds yields every entry once, in ascending order |
| Yields.ReversedFreshMirrorsForward | src/database/iterator.rs:296-310 | `reverse()` on a new unbounded iterator yields the forward sequence backwards |
| Yields.PrefixOverridesFromTo | src/database/iterator.rs:128-133 | with a prefix set, the sequence does not depend on `from` or `to`, in either direction |
| Yields.LaterAdvanceIsOneStep | src/database/iterator.rs:165-168 | each advance after the first is one step in the iterator's own direction, whatever the `reverse` argument |
| Yields.UnboundedFirstAdvanceStays | src/database/iterator.rs:169-183 | without `from` or `prefix`, the first advance does not move the cursor |
| Yields.ReverseTwice | src/database/iterator.rs:296-310 | reversing twice after the first advance restores the state; before it, a forward iterator ends on the first entry |
| Yields.LastIsFinalYield | src/database/iterator.rs:266-269 | with no bound set, the inherent `last()` returns the final entry of a full forward traversal, which is what the standard library's draining `last` returns |
| Iterators.EntryIterator.constructor | src/database/iterator.rs:237-263 | the cursor is on the first entry, `start` is set, the direction is forward and no bound is set |
| Iterators.EntryIterator.IsValid | src/database/iterator.rs:126-160 | true iff the cursor is on an entry whose key the bounds admit in the given direction |
| Iterators.EntryIterator.Key | src/database/iterator.rs:189-195 | the key returned is the key of an entry of the store |
| Iterators.EntryIterator.Value | src/database/iterator.rs:197-203 | the value returned is paired with `key()` in the store |
| Iterators.EntryIterator.CurrentEntry | src/database/iterator.rs:205-207 | the pair is `(key(), value())` and is an entry of the store |
| Iterators.EntryIterator.Seek | src/database/iterator.rs:225-233 | moves only the cursor, to the first key at least `k` |
| Iterators.EntryIterator.SeekToFirst | src/database/iterator.rs:209-213 | moves only the cursor, to the first entry |
| Iterators.EntryIterator.SeekToLast | src/database/iterator.rs:215-223 | moves only the cursor, to `seek(to)` when `to` is set, else to the last entry |
| Iterators.EntryIterator.AdvanceRaw | src/database/iterator.rs:291-293 | one engine step: `next` for an `Iterator`, `prev` for a `RevIterator` (lines 359-361) |
| Iterators.EntryIterator.Started | src/database/iterator.rs:286-288 | clears `start` and changes nothing else |
| Iterators.EntryIterator.Advance | src/database/iterator.rs:164-187 | the new state is `Advanced` of the old, and the result is `valid(reverse)` at the new cursor |
| Iterators.EntryIterator.Next | src/database/iterator.rs:516-524 | `None` iff nothing remains; otherwise the item is the head of what remained and the rest remains |
| Iterators.EntryIterator.Reverse | src/database/iterator.rs:296-310 | flips the direction; before the first advance moves to the opposite edge (last, or first for lines 364-378); keeps `start` and bounds |
| Iterators.EntryIterator.From | src/database/iterator.rs:312-315 | sets `from` and nothing else |
| Iterators.EntryIterator.To | src/database/iterator.rs:317-320 | sets `to` and nothing else |
| Iterators.EntryIterator.Prefix | src/database/iterator.rs:322-325 | sets `prefix` and nothing else |
| Iterators.EntryIterator.Last | src/database/iterator.rs:266-269 | returns `Some` of the entry `seek_to_last` lands on, without consulting `valid` or `start` |
| Projections.Project | src/database/iterator.rs:527-532 | key views yield the key, `ValueIterator` the value, `RevValueIterator` the key |
| Projections.ProjectAll | src/database/iterator.rs:527-532 | a view yields its half of each entry, one for one |
| Projections.Projection.constructor | src/database/iterator.rs:409-418 | a view over a new ascending iterator |
| Projections.Projection.IsValid | src/database/iterator.rs:444-504 | `valid` on the wrapped iterator's cursor and bounds |
| Projections.Projection.Advance | src/database/iterator.rs:164-187 | the wrapped iterator's state advances as `Advanced` |
| Projections.Projection.Next | src/database/iterator.rs:516-524 | `None` iff nothing remains; otherwise the view's half of the next entry heads what remained |
| Projections.Projection.Reverse | src/database/iterator.rs:470-474 | the wrapped iterator is reversed |
| Projections.Projection.From | src/database/iterator.rs:476-479 | sets the wrapped iterator's `from` and nothing else |
| Projections.Projection.To | src/database/iterator.rs:481-484 | sets the wrapped iterator's `to` and nothing else |
| Projections.Projection.Prefix | src/database/iterator.rs:486-489 | sets the wrapped iterator's `prefix` and nothing else |
| Projections.Projection.Seek | src/database/iterator.rs:225-233 | seeks the shared cursor |
| Projections.Projection.SeekToFirst | src/database/iterator.rs:209-213 | moves the shared cursor to the first entry |
| Projections.Projection.SeekToLast | src/database/iterator.rs:215-223 | moves the shared cursor as `seek_to_last` does |
| Projections.Projection.Last | src/database/iterator.rs:420-423 | the key (or, lines 438-441, the value) of the entry `seek_to_last` lands on |
| Findings.UpperBoundFrom | src/database/iterator.rs:172-178 | every key before the index found is at most `k`; the key at the index is above `k` |
| Findings.UpperBoundSplits | src/database/iterator.rs:172-178 | in a sorted store, exactly the keys before the upper bound are at most `k` |
| Findings.PrefixEndFrom | src/database/iterator.rs:170-171 | the keys from `lo` up to the index found start with `p`; the key at the index does not |
| Findings.IntendedReverseStart | src/database/iterator.rs:169-183 | the corrected first reverse landing stays within the store |
| Findings.IntendedReverseEndSplits | src/database/iterator.rs:169-183 | below the corrected end every key is below the upper end, and from it on nothing is admitted |
| Findings.IntendedReverseTraversal | src/database/iterator.rs:169-183 | from the corrected landing, a descending iterator yields exactly the admitted entries, descending, for every bound combination |
| Findings.IntendedAgreesWhereDefined | src/database/iterator.rs:172-178 | without a prefix, where the code's first reverse advance is defined, it yields what the corrected landing yields |
| Findings.ReversePrefixMissesLongerMatch | src/database/iterator.rs:170-171 | over the keys `[2]` and `[2, 1]`, `prefix([2]).reverse()` yields only `[2]`, but two entries are admitted |
| Findings.ReverseFromPastEndStepsInvalidCursor | src/database/iterator.rs:172-178 | with `from` above every key, the reverse step-back is on an invalid cursor; the corrected landing yields the whole store descending |
| Findings.IntendedForwardEndSplits | src/database/iterator.rs:126-160 | below the corrected ascending end no key is beyond the upper side (`to` or the prefix block); from it on nothing is admitted |
| Findings.IntendedLast | src/database/iterator.rs:265-269 | the corrected `last()` is `None` or an entry of the store that the bounds admit |
| Findings.RejectedBelowEnd | src/database/iterator.rs:126-160 | when the bounds reject the entry just below the corrected end, they admit nothing below that end |
| Findings.IntendedLastIsLastSelected | src/database/iterator.rs:265-269 | the corrected `last()` is the last admitted entry of the store, or `None` when none is admitted, for every bound combination |
| Findings.IntendedLastIsLastAdmitted | src/database/iterator.rs:265-269 | the corrected `last()` is the last entry a fresh iterator with the same bounds yields, or `None` when it yields nothing |
| Findings.LastIgnoresPrefixAndFrom | src/database/iterator.rs:215-223 | through `(&it).last()` or a key view's `last()`: with `prefix([2])` over `[2]`, `[3]` the entry returned is `[3]`, which the prefix rejects; with `from([5])` over `[1]`, `[2]` it is `[2]`, though the iterator yields nothing |
| Findings.LastOvershootsAbsentTo | src/database/iterator.rs:215-223 | through `(&it).last()` or a key view's `last()`, with `to([2, 5])` over `[1]`, `[2]`, `[3]`, the entry returned is `[3]`, which the bound excludes |
| Findings.LastAgreesWhenToPresent | src/database/iterator.rs:266-269 | with no prefix or `from`, and `to` unset or a key of the store, the code's `last()` equals the corrected one |
| Findings.IntendedProject | src/database/iterator.rs:532 | each view yields its own half of the entry in either direction |
| Findings.IntendedProjectAll | src/database/iterator.rs:527-532 | the corrected views yield one item per entry |
| Findings.ProjectReversed | src/database/iterator.rs:527-532 | projecting commutes with reading backwards |
| Findings.RevValueYieldsKeys | src/database/iterator.rs:532 | over one entry `[1] -> [7]`, the value view yields `[7]` and the reversed value view yields `[1]` |
| Findings.IntendedViewsMirror | src/database/iterator.rs:527-532 | with the corrected projection, a reversed view yields the forward view's items backwards |
| Scenarios.TwoEntryScenario | tests/iterator.rs:8-55 | two entries are yielded ascending, and after `reverse()` descending, then `None` |
| Scenarios.LastOfTwo | tests/iterator.rs:58-68 | the entry `seek_to_last` lands on over `[1]`, `[2]` is `([2], [2])`, the value the test expects from `last()` |
| Scenarios.SeekScenario | tests/iterator.rs:71-87 | after `seek([2])`, `next` yields `[2]` then `[3]` |
| Scenarios.FromScenario | tests/iterator.rs:90-103 | `from([3])` yields `[3]`, `[4]`, `[5]` |
| Scenarios.FromReverseScenario | tests/iterator.rs:106-121 | `from([3]).reverse()` yields `[3]`, `[2]`, `[1]`, then `None` |
| Scenarios.FromReverseThroughIterator | tests/iterator.rs:106-121 | the same through the iterator object's `next` calls |
| Scenarios.ToReverseScenario | tests/iterator.rs:124-139 | `to([3]).reverse()` yields `[5]`, `[4]`, `[3]`, then `None` |
| Scenarios.ToReverseBelowAllKeys | src/database/iterator.rs:144-152 | `to([3]).reverse()` over `[1]`, `[2]` yields nothing |
| Scenarios.FromToScenario | tests/iterator.rs:142-156 | `from([1]).to([4])` over `[2]`..`[5]` yields `[2]`, `[3]`, `[4]`, then `None` |
| Scenarios.FromToReverseScenario | tests/iterator.rs:159-174 | `from([5]).to([2]).reverse()` yields `[4]`, `[3]`, `[2]`, then `None` |
| Scenarios.PrefixScenario | tests/iterator.rs:177-197 | `prefix([2])` yields the five keys starting with `[2]`, ascending, then `None` |
| Scenarios.KeyAndValueViewsScenario | tests/iterator.rs:200-224 | the key view and the value view over `[1]`, `[2]` both yield `[1]` first |

## Left out

- Every call into the C library is replaced by the sequence cursor above. That covers `leveldb_create_iterator`, `leveldb_iter_*` and `leveldb_readoptions_*`. The engine's comparator is taken to be bytewise, which is LevelDB's default.
- The engine requires a valid cursor for `next`, `prev`, `key` and `value`. The model states this as preconditions and invents no recovery. Three uses are affected:
  - the reverse step-back after `seek(from)` (`Traversal.AdvanceDefined`);
  - `last()` when `seek_to_last` lands off the store;
  - pulling again after `None`.
- `Iterator::new` takes `ReadOptions` and an optional `Snapshot`, and the model leaves both out. The store stands for whatever the snapshot shows. It is assumed strictly ascending, as the engine guarantees.
- The `Iterable` entry points (`iter`, `keys_iter`, `value_iter`) are left out; they only call the constructors.
- Resource release is left out. It consists of `RawIterator`'s `Drop` calling `leveldb_iter_destroy`, `PhantomData` lifetimes and zero-copy key access.
- `src/database/options.rs` only copies fields into C handles and is not part of this model.
- In Rust, the builders `from`/`to`/`prefix` and `reverse` move the iterator value and return a new one. The model updates one object in place instead. The moved-from value cannot be used again, so this loses nothing observable.
- `from_key`, `to_key`, `prefix_key`, `start` and `raw_iterator` are read as the fields themselves.
- `Iterators.EntryIterator.Last`: models the inherent `Iterator::last(&self)` only. That method is reached through `(&it).last()` or a `&Iterator`. On an owned `Iterator`, `it.last()` resolves to the standard library's exhaustive `last`, which drains `next`. So do the descending types, which have no `last` of their own. That draining `last` is not a separate member: it is the final element of `Traversal.Collect`.
- `Yields.ReverseTraversal`: requires no prefix bound. With a prefix the code behaves differently, as `Yields.ReversePrefixYieldsSmallestMatch` states. It also requires the cursor on the last entry unless a `from` bound is set. After an explicit `seek` before the first `next`, the walk starts from that seek's landing instead: over `[1]`, `[2]`, `[3]`, `reverse()` then `seek(&[2])` yields `[2]`, `[1]`.
- `Yields.ForwardTraversal`: requires the cursor on the first entry unless a `from` or `prefix` bound is set. Otherwise the first advance does not move the cursor; `Yields.SeekThenTraverse` covers an explicit seek.
- Concurrent use of one store from several iterators is left out; the bindings give each iterator its own cursor.

## Findings

| source | as written | input that shows it | evidently intended | confidence | as-written member | corrected member |
|---|---|---|---|---|---|---|
| src/database/iterator.rs:532 | `RevValueIterator` yields `key` | one entry `[1] -> [7]`; `value_iter().reverse()` yields `[1]` | yield `value`, as `ValueIterator` does | not executed | Findings.RevValueYieldsKeys | Findings.IntendedViewsMirror |
| src/database/iterator.rs:170-171 | a reversed prefix iterator seeks to the prefix itself and steps down | keys `[2]`, `[2, 1]`; `prefix([2]).reverse()` yields only `[2]` | start at the last key with the prefix and yield every match, descending | not executed | Findings.ReversePrefixMissesLongerMatch | Findings.IntendedReverseTraversal |
| src/database/iterator.rs:172-178 | when `seek(from)` runs off the end, the reverse step-back calls `prev` on an invalid cursor | keys `[1]`, `[2]`; `from([5]).reverse()` | land on the last entry | not executed | Findings.ReverseFromPastEndStepsInvalidCursor | Findings.IntendedReverseTraversal |
| src/database/iterator.rs:266-269 | the inherent `last()` seeks to `to` and returns the entry there, which is the next larger key when `to` is absent | keys `[1]`, `[2]`, `[3]`; `(&it).last()` on `it = iter(..).to(&[2, 5])` returns `[3]`, and so does `keys_iter(..).to(&[2, 5]).last()` | the largest key at most `to` | not executed | Findings.LastOvershootsAbsentTo | Findings.IntendedLastIsLastAdmitted |
| src/database/iterator.rs:215-223 | `seek_to_last`, and so the inherent `last()`, consults only `to` and ignores `prefix` and `from` | keys `[2]`, `[3]`; `keys_iter(..).prefix(&[2]).last()` returns `[3]`. Keys `[1]`, `[2]`; `keys_iter(..).from(&[5]).last()` returns `[2]` | the last entry the iterator yields, as the doc comment at line 265 says, or `None` | not executed | Findings.LastIgnoresPrefixAndFrom | Findings.IntendedLastIsLastAdmitted |
