# Lazy k-way set-union merge (`src/merge.rs` of iter-set-ops)

This project models the merge at the heart of iter-set-ops. `merge_iters` and
`merge_iters_by` build a `MergeIterator` over many sorted, deduplicated
sources. It yields their union, sorted and deduplicated, one value per `next`.
`merge_iters_detailed` and `merge_iters_detailed_by` build a
`DetailedMergeIterator`. It yields, for each distinct value, the group of
`(source index, value)` entries of every source that holds the value.

Both iterators share one frontier: a heap with at most one pending
`(source index, value)` entry per source that is not yet exhausted. The
constructor seeds it with the first value of every source. Each `next` does
three things:

1. It takes the top entry, the minimum under the comparator.
2. It refills that entry in place from its source, or pops it if the source is
   exhausted.
3. It keeps using further top entries while they compare `Equal` to the value
   taken.

The model is imperative, like the source:

- Each source `i` is the finite sequence `srcs[i]` of the values its iterator
  still had to yield when the merge was built. Its iterator is the cursor
  `pos[i]` in an `array<nat>`: pulling from it yields `srcs[i][pos[i]]` and
  moves the cursor.
- The heap is its backing vector, a field `heap: seq<Entry>` that the methods
  reassign. Peeking is `Frontier.Top`. Swapping a new value into the top entry
  is a slot update, and `PeekMut::pop` removes the slot.
- Each iterator is a class whose `Next` method runs the tie-consuming `while`
  loop with its invariants. Both `Next` methods share that loop through
  `Frontier.TakeGroup`.
- A ghost history, `emitted`, records what `Next` has returned so far. The
  class invariant `Valid` ties that history to the cursors and the frontier.
- The comparator is `Comparator.Order`: either the natural order of `int`
  (`T::cmp`, as used by `merge_iters` and `merge_iters_detailed`) or its
  reverse (the closure `|x, y| y.cmp(x)` from the documentation).
- Draining an iterator with `.collect()`, as the documentation and the tests
  do, is modelled by `Merge.Merge` and `DetailedMerge.MergeDetailed`. Each
  builds a fresh iterator and calls `Next` until it returns `None`.

Files:

- `wrappers.dfy`: the `Option` that `next` returns.
- `comparator.dfy`: the comparator, strict ordering of sequences, and the
  uniqueness of a strictly increasing sequence with given elements.
- `frontier.dfy`: entries, the frontier invariant, seeding, one use of the top
  entry, the tie-consuming loop, and how one `next` keeps the emitted history
  consistent.
- `merge.dfy`: `MergeIterator`, its drain, and the documented examples.
- `detailed_merge.dfy`: `DetailedMergeIterator`, the group invariants,
  conservation of every source, its drain, and the documented examples.

## Model

| member | source | states |
|---|---|---|
| Comparator.Compare | src/merge.rs:30 | `cmp` is a total order: `Equal` exactly on equal values, `Less` exactly when the first comes before the second, `Greater` exactly when the second comes first. |
| Comparator.ReverseFlipsOrder | src/merge.rs:40-42 | Reversing an ascending source gives a source that is strictly increasing under the reversed comparator, with the same values. |
| Frontier.MinPos | src/merge.rs:58-60 | The heap built on the flipped comparator exposes an entry whose value nothing in the frontier comes before, i.e. a minimum under `cmp`. |
| Frontier.Top | src/merge.rs:84 | `peek_mut` yields an entry of the frontier that is minimal under the comparator. |
| Frontier.Seed | src/merge.rs:52-57 | Seeding pulls one value from every source. The frontier then holds exactly one entry `(i, first value of source i)` per non-empty source and none for an empty one. Each non-empty source's cursor is 1, an empty source's is 0, and the frontier invariant holds. |
| Frontier.AdvanceEntry | src/merge.rs:84-91 | Using the top entry returns it as it was. If its source has another value, the cursor moves on by one and that value is swapped into the same slot. Otherwise the slot is popped and the cursors stay. The frontier invariant is preserved, and exactly that source gives up one value, the next one in its order. |
| Frontier.FirstTake | src/merge.rs:83-92 | After the top entry is used, the tie loop's invariant holds: only that source has given up a value, nothing pending comes before it, and that source's new entry comes strictly after it. |
| Frontier.ConsumeTie | src/merge.rs:93-104 | Using an entry that compares `Equal` to the value taken adds a source not consumed before. It keeps the tie loop's invariant and strictly shrinks the set of pending ties, so the loop terminates. |
| Frontier.TakeGroup | src/merge.rs:83-104 | One `next` on a non-empty frontier takes the top entry and then every entry tied with it. Afterwards the frontier invariant holds, and exactly the sources in `S` have each given up one value, the value taken. No entry left behind compares `Equal` to that value or comes before it. The tied entries are recorded with distinct sources, all holding the value. |
| Frontier.StepKeepsConsistent | src/merge.rs:81-109 | Appending the value taken keeps the history strictly increasing, drawn from the sources, covering every value that has left the merge, and before everything still pending. The sources that gave up a value are exactly those whose sequences hold it. |
| Frontier.DrainedCoversAll | src/merge.rs:229-237 | Once the frontier is empty, every source is exhausted and the history holds exactly the values of all sources. |
| Comparator.IncreasingUnique | src/merge.rs:18-20 | Two strictly increasing sequences with the same values are equal, so the documented result is the only possible union. |
| Merge.MergeIterator.constructor | src/merge.rs:48-62 | `merge_iters_by` seeds the frontier as `Frontier.Seed` does, with an empty history and the class invariant established. |
| Merge.MergeIterator.Next | src/merge.rs:81-109 | Returns `None` exactly when the frontier is empty, changing nothing, so every later call returns `None` as well. Otherwise it returns the top value and appends it to the history. The returned value compares `Less` than every remaining entry, so every pending value comes strictly after it and no tie is left behind. Each source holding the value gives up exactly one value and every other source gives up none. The class invariant is preserved, so the history stays strictly increasing. |
| Merge.Merge | src/merge.rs:229-237 | Draining a fresh iterator yields a strictly increasing sequence whose values are exactly the union of the sources, and leaves every source exhausted. |
| Merge.DocumentedUnion | src/merge.rs:14-20 | The union of `1..=5`, `3..=7` and `2..=4` under the natural order is `[1, 2, 3, 4, 5, 6, 7]`. |
| Merge.DocumentedReversedUnion | src/merge.rs:40-46 | The union of the reversed ranges under `y.cmp(x)` is `[7, 6, 5, 4, 3, 2, 1]`. |
| Merge.MergeExamples | src/merge.rs:229-250 | Draining the model on the inputs of `test_merge` and `test_merge_by` gives the asserted vectors, and `iters[1]` is exhausted afterwards. |
| Merge.ReversedComparator | src/merge.rs:40-46 | Merging the reversed sources under the reversed comparator gives exactly the reverse of the natural-order merge. |
| Merge.NoSources | src/merge.rs:52-62 | With no sources, the merge is empty. |
| Merge.EmptySourceIsInert | src/merge.rs:53-56 | Inserting an empty source anywhere among the sources leaves the merged output unchanged. |
| DetailedMerge.GroupFormed | src/merge.rs:202-216 | The recorded tied entries followed by the selected entry form a well-formed group. It is non-empty, every entry holds the group's value, sources are distinct, and the sources present are exactly those holding the value. |
| DetailedMerge.ProjectGroup | src/merge.rs:207-216 | In such a group, source `i` contributes `[value]` if present and nothing otherwise. |
| DetailedMerge.GroupConserves | src/merge.rs:202-216 | Appending the group keeps, for every source `k`, the history's entries of source `k` equal to the prefix of source `k` that has left the merge. |
| DetailedMerge.EmitGroup | src/merge.rs:189-221 | One detailed `next` keeps the whole detailed invariant: frontier invariant, consistent history, well-formed groups, and conservation of every source. |
| DetailedMerge.DetailedMergeIterator.constructor | src/merge.rs:151-170 | `merge_iters_detailed_by` seeds the frontier as `Frontier.Seed` does, with an empty history and the class invariant established. |
| DetailedMerge.DetailedMergeIterator.Next | src/merge.rs:189-221 | Returns `None` exactly when the frontier is empty, changing nothing. Otherwise the group is well formed and its last entry is the top entry selected first. The group is appended to the history, and the group's value compares `Less` than every remaining entry, so every pending value comes strictly after it and no tie is left behind. The class invariant is preserved, so values stay strictly increasing and every source is conserved. |
| DetailedMerge.MergeDetailed | src/merge.rs:253-261 | Draining yields well-formed groups whose values are strictly increasing and are exactly the union of the sources. Keeping the entries of source `k` reproduces source `k` in order, and every source ends exhausted. |
| DetailedMerge.DocumentedDetailed | src/merge.rs:119-124 | For `1..=2` and `2..=3` the groups are `[(0, 1)]`, then `(1, 2)` and `(0, 2)`, then `[(1, 3)]`. |
| DetailedMerge.DocumentedDetailedReversed | src/merge.rs:144-149 | For the reversed ranges under `y.cmp(x)` the groups are `[(1, 3)]`, then `(0, 2)` and `(1, 2)`, then `[(0, 1)]`. |
| DetailedMerge.DetailedExamples | src/merge.rs:253-271 | Draining the model on the inputs of `test_merge_detailed` and `test_merge_detailed_by` gives the asserted groups, and `iters[1]` is exhausted afterwards. |

## Left out

- The internals of `binary_heap_plus::BinaryHeap` and `PeekMut` (sift order, the tree layout) are not modelled. The heap is its backing vector, and peeking returns the first minimal slot (`Frontier.MinPos`). Two contracts fix that choice: `Frontier.TakeGroup` (`sel == Top(ord, h)`) and `DetailedMerge.DetailedMergeIterator.Next` (the group's last entry is `Top(ord, old(heap))`). They would not hold if the heap exposed a different minimal entry. `Merge.MergeIterator.Next` also names `Top`, but only its value, which is the same for every minimal entry. Every other contract holds whichever minimal entry is exposed.
- DetailedMerge.DocumentedDetailed: fixes the tied group `[(1, 2), (0, 2)]` only as a two-element set, because the order of tied entries depends on the heap's sift order. Only "the selected entry comes last" is stated, in `DetailedMergeIterator.Next`.
- DetailedMerge.DocumentedDetailedReversed: fixes the tied group `[(0, 2), (1, 2)]` only as a two-element set, for the same reason. On this input the model's own `DetailedMergeIterator.Next` computes the other order, `[(1, 2), (0, 2)]`. After the first group the frontier is `[(0, 2), (1, 2)]`, and the model's peek selects source 0 first, so source 0's entry comes last. The program's heap selects source 1 first there.
- DetailedMerge.DetailedExamples: states the tied middle group as a set, for the same reason.
- The generic item type `T`, generic `Iterator` sources, the generic comparator closure and the `compare::Compare` plumbing are not modelled. Values are unbounded integers (the `u8` of the examples does not matter). The comparator is the natural order or its reverse.
- Laziness over possibly infinite iterators, and the borrow `&'a mut [I]`, are not modelled. Sources are finite sequences of the values still to come, with a cursor each, and the cursors are the iterators' state afterwards.
- Behaviour on sources that are not sorted and deduplicated under the comparator is not modelled. The constructors require it, as the documentation demands of callers. Outside that precondition the tie loop of src/merge.rs:93-104 behaves differently. A source that repeats the value just taken keeps being pulled, so `next` never returns on an endless repeat. In detailed mode a finite repeat puts the same source index into one group twice.
- The O(log N) cost per step is not modelled.
