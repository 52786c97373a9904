# SorterTemplate in Dafny

A model of cglib's `SorterTemplate`, the sorting engine that Spring repackages in
`org.springframework.cglib.util`. The engine sorts a range of positions of a
collection it never sees. It uses only two primitives that the subclass supplies:
`compare(i, j)` and `swap(i, j)`. It offers two entry points:

- `quickSort(lo, hi)`: a hybrid quicksort over the inclusive range `[lo..hi]`. It uses a
  median-of-three pivot, recurses on the smaller side and loops on the larger one.
  Ranges with `hi - lo` at most 7 (up to 8 elements) are left alone, and one final insertion-sort pass finishes the
  job. It is not stable.
- `mergeSort(lo, hi)`: a stable, in-place merge sort over the inclusive range
  `[lo..hi]`. Ranges with `hi - lo` at most 12 (up to 13 elements) go to insertion sort. The merge uses no buffer: it
  cuts the runs by binary search (`lower`, `upper`), exchanges blocks with a
  three-reversal `rotate`, and recurses.

The files:

- `sort_spec.dfy` (module `SortSpec`): the vocabulary on sequences and the lemmas the
  routines are proved with.
  - `Sorted` states ascending key order.
  - `SameOutside` is the frame: nothing outside a range changes.
  - `Filter` and `SameKeyOrder` state stability. For every key, the subsequence of
    elements with that key is the same before and after.
- `sorter_template.dfy` (module `SorterTemplate`): the class `Sorter<T>`. It holds the
  caller's storage as an `array<T>` and the order as an integer key function, and it
  carries a ghost counter of swaps. Every routine of the engine is a method on it.
- `scenarios.dfy` (module `Scenarios`): two client scenarios.
  - Merge-sorting `[5, 3a, 3b, 1, 4]` yields exactly `[1, 3a, 3b, 4, 5]`.
  - Merge-sorting a range of equal keys changes nothing.

Every routine reaches the array only through `Compare` and `Swap`. `Lower` and
`Upper` have no `modifies` clause, so they provably perform no swap.

Some stretches of a Java method are separate Dafny methods. Each keeps the same
statements in the same order:

- `MedianOfThree` and `Partition`, with its two sentinel scans `ScanUp` and
  `ScanDown`, come from `quickSortHelper`.
- `InsertLast` is the inner loop of `insertionSort`.
- `MergeCut` is the rotate-and-recurse tail of `merge`.
- `Reverse` is each of the three loops of `rotate`.

## Range conventions

The code sorts the **inclusive** range `[lo..hi]` in both `mergeSort` and
`quickSort`. `mergeSort`'s base case calls `insertionSort(lo, hi)`, which runs
`i <= hi`. Its halves `[lo..mid]` and `[mid..hi]` overlap at `mid`, and the final
`merge` covers only the half-open `[lo, hi)`. That is enough because the second
half-sort carries the largest key of the whole range to `hi`
(`OverlappingSortsPutMaximumLast`).

A caller holding a half-open range `[lo, n)` must therefore pass `mergeSort(lo, n - 1)`:
`mergeSort(lo, n)` would compare position `n`. The model follows the code:
`MergeSort(lo, hi)` requires `hi < a.Length`. The scenario sorts five elements with
`MergeSort(0, 4)`.

## Model

| member | source | states |
|---|---|---|
| SorterTemplate.Sorter.Compare | spring-core/src/main/java/org/springframework/cglib/util/SorterTemplate.java:24 | the result is negative, zero or positive exactly when the key at i is below, equal to or above the key at j |
| SorterTemplate.Sorter.Swap | spring-core/src/main/java/org/springframework/cglib/util/SorterTemplate.java:23 | exchanges positions i and j, leaves every other position as it was, and counts one swap |
| SorterTemplate.Sorter.QuickSort | spring-core/src/main/java/org/springframework/cglib/util/SorterTemplate.java:26-29 | leaves the inclusive range a[lo..hi] sorted as a permutation of its old contents, with every position outside it unchanged |
| SorterTemplate.Sorter.QuickSortHelper | spring-core/src/main/java/org/springframework/cglib/util/SorterTemplate.java:31-72 | keeps every index it uses in bounds, terminates, and only rearranges the inclusive range [lo..hi] |
| SorterTemplate.Sorter.MedianOfThree | spring-core/src/main/java/org/springframework/cglib/util/SorterTemplate.java:38-46 | with at most three swaps, key(a[lo]) <= key(a[mid]) <= key(a[hi]); no other position changes |
| SorterTemplate.Sorter.Partition | spring-core/src/main/java/org/springframework/cglib/util/SorterTemplate.java:49-63 | with the pivot parked at hi - 1 and a[lo] <= pivot <= a[hi], returns lo <= j < i <= hi - 1; the pivot element itself ends at i, every key left of i is at most the pivot's and every key right of it at least the pivot's; only [lo..hi] is rearranged |
| SorterTemplate.Sorter.ScanUp | spring-core/src/main/java/org/springframework/cglib/util/SorterTemplate.java:52-54 | the rightward scan stops at the first position after i whose key is not below the pivot's, at hi - 1 at the latest |
| SorterTemplate.Sorter.ScanDown | spring-core/src/main/java/org/springframework/cglib/util/SorterTemplate.java:55-57 | the leftward scan stops at the first position before j whose key is not above the pivot's, at lo at the latest |
| SorterTemplate.Sorter.InsertionSort | spring-core/src/main/java/org/springframework/cglib/util/SorterTemplate.java:74-84 | sorts the inclusive range stably, as a permutation, touching nothing outside it; an already sorted range costs no swap and is left as it was |
| SorterTemplate.Sorter.InsertLast | spring-core/src/main/java/org/springframework/cglib/util/SorterTemplate.java:76-82 | with a[lo..i) sorted, leaves a[lo..i] sorted, stably and only within [lo..i]; when a[i-1] <= a[i] it swaps nothing |
| SorterTemplate.Sorter.MergeSort | spring-core/src/main/java/org/springframework/cglib/util/SorterTemplate.java:86-96 | sorts the inclusive range a[lo..hi] stably, as a permutation, touching nothing outside it; an already sorted range is left exactly as it was |
| SorterTemplate.Sorter.Merge | spring-core/src/main/java/org/springframework/cglib/util/SorterTemplate.java:98-122 | given sorted runs [lo, pivot) and [pivot, hi), leaves [lo, hi) sorted, stably (on ties the first run's elements stay ahead), as a permutation, with nothing outside changed; an empty run means no change and no swap; two single elements change places exactly when the second key is strictly smaller; recursion ends because len1 + len2 decreases |
| SorterTemplate.Sorter.MergeCut | spring-core/src/main/java/org/springframework/cglib/util/SorterTemplate.java:123-126 | with the runs cut around a key v, rotating the middle blocks and merging both halves leaves [lo, hi) sorted and stable, and changes nothing outside it |
| SorterTemplate.Sorter.Lower | spring-core/src/main/java/org/springframework/cglib/util/SorterTemplate.java:145-158 | returns lo <= r <= hi; on a sorted range every key in [lo, r) is below that of a[val] and every key in [r, hi) is at least that; it changes nothing |
| SorterTemplate.Sorter.Upper | spring-core/src/main/java/org/springframework/cglib/util/SorterTemplate.java:160-173 | returns lo <= r <= hi; on a sorted range every key in [lo, r) is at most that of a[val] and every key in [r, hi) is above it; it changes nothing |
| SorterTemplate.Sorter.Reverse | spring-core/src/main/java/org/springframework/cglib/util/SorterTemplate.java:130-134 | swapping inwards from both ends reverses a[lo..hi) and changes nothing outside it |
| SorterTemplate.Sorter.Rotate | spring-core/src/main/java/org/springframework/cglib/util/SorterTemplate.java:129-143 | turns a[lo..hi) into old a[mid..hi) followed by old a[lo..mid) and changes nothing outside [lo, hi) |
| SortSpec.ThreeReversalsRotate | spring-core/src/main/java/org/springframework/cglib/util/SorterTemplate.java:129-143 | reversing [lo, mid), then [mid, hi), then [lo, hi) exchanges the two blocks |
| SortSpec.SwapAdjacentKeepsKeyOrder | spring-core/src/main/java/org/springframework/cglib/util/SorterTemplate.java:77-78 | exchanging neighbours only when the right one's key is strictly smaller keeps the order of every key's elements, which is why insertion sort is stable |
| SortSpec.RotateKeepsKeyOrder | spring-core/src/main/java/org/springframework/cglib/util/SorterTemplate.java:123 | exchanging adjacent blocks keeps every key's order when every key of the second block is strictly below every key of the first |
| SortSpec.CutByFirstRun | spring-core/src/main/java/org/springframework/cglib/util/SorterTemplate.java:112-116 | cutting the longer first run at its middle and the second run at lower() gives blocks at most / at least the cut key, with the moved block strictly below the block it passes |
| SortSpec.CutBySecondRun | spring-core/src/main/java/org/springframework/cglib/util/SorterTemplate.java:117-122 | cutting the second run at its middle and the first run at upper() gives the same four-block split around the cut key |
| SortSpec.RotatedCut | spring-core/src/main/java/org/springframework/cglib/util/SorterTemplate.java:123-126 | after the rotation the two new merge problems are pairs of sorted runs, all keys of the first at most and all of the second at least the cut key |
| SortSpec.MergeStep | spring-core/src/main/java/org/springframework/cglib/util/SorterTemplate.java:123-126 | rotating and then stably merging the two halves merges [lo, hi) stably |
| SortSpec.OverlappingSortsPutMaximumLast | spring-core/src/main/java/org/springframework/cglib/util/SorterTemplate.java:93-94 | after sorting [lo..mid] and then [mid..hi], position hi holds a largest key of the whole range |
| SortSpec.MergeSortStep | spring-core/src/main/java/org/springframework/cglib/util/SorterTemplate.java:93-95 | the two overlapping half-sorts followed by merging [lo, mid) with [mid, hi) stably sort [lo..hi], and leave a sorted range as it was |
| SortSpec.StableIsPermutation | spring-core/src/main/java/org/springframework/cglib/util/SorterTemplate.java:86-96 | a stable rearrangement is a permutation |
| SortSpec.SortedStableUnique | spring-core/src/main/java/org/springframework/cglib/util/SorterTemplate.java:86-96 | two sorted sequences that keep every key's elements in the same order are equal: a stable sort's result is unique |
| SortSpec.StableSortKeepsSorted | spring-core/src/main/java/org/springframework/cglib/util/SorterTemplate.java:86-96 | a stable sort of a range that is already sorted changes nothing |
| Scenarios.OnlyStableSortOfInput | spring-core/src/main/java/org/springframework/cglib/util/SorterTemplate.java:86-96 | the only sorted, stable rearrangement of [5, 3a, 3b, 1, 4] is [1, 3a, 3b, 4, 5] |
| Scenarios.MergeSortTagged | spring-core/src/main/java/org/springframework/cglib/util/SorterTemplate.java:86-96 | merge-sorting [5, 3a, 3b, 1, 4] yields [1, 3a, 3b, 4, 5], with 3a still ahead of 3b |
| Scenarios.MergeSortAllEqual | spring-core/src/main/java/org/springframework/cglib/util/SorterTemplate.java:86-96 | merge-sorting a range of equal keys leaves the array exactly as it was |

## Left out

- `compare` and `swap` are abstract in the source, and their implementations in subclasses are not part of this model. The storage is an array, and `compare` orders positions by an integer key of their elements. That makes it a total preorder by construction, so inconsistent comparators are not modelled.
- Java `int` arithmetic is modelled with unbounded integers. The overflow of `(hi + lo) / 2` on ranges near `Integer.MAX_VALUE` (:37) is not modelled. Indices are bounded by the array length instead.
- Ranges with `hi < lo - 1` are left out: every routine requires `0 <= lo <= hi + 1 <= a.Length`. In the source such a range is a no-op for all three sorts.
- QuickSortHelper: its contract states only that it keeps indices in bounds, terminates and permutes the range. It does not say how close to sorted it leaves the range. The final insertion pass of `quickSort` sorts whatever is left.
- QuickSort: that it is not stable is not stated, since nothing in the source promises a particular reordering of equal keys.
- Cost is not modelled: the logarithmic stack depth that comes from recursing on the smaller side (:64-70), and the near-linear cost of the final insertion pass.
