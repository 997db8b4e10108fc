# Parallel long sort and loop helpers, modelled in Dafny

This project models two files from the JSR-166 performance tests.

**`ScalarLongSort`** is a fork/join merge sort over an array of Java `long`s.
- A `Sorter` sorts a range. A short range goes to `Arrays.sort`. A longer range is cut into four quarters: the upper two are sorted and merged into the scratch array `w` by a `SubSorter`, the lower two likewise, and the two halves of `w` are merged back into `a`.
- A `Merger` merges two sorted runs by left-spine decomposition. While the left run is longer than `THRESHOLD`, it halves it, binary-searches the right run for the left run's middle element, and links a sibling merger for the two upper parts in front of a `next` list. It then merges what is left with a two-pointer loop (ties take the left element) and runs the siblings in `collectRights`.
- `checkSorted` throws at the first neighbouring pair that is out of order.
- `RandomFiller` splits its range at `(lo + hi) >>> 1`.
- `main` chooses `THRESHOLD`, then fills and sorts the array in each replication, and checks it after the first one.

**`LoopHelpers`** holds the filler computations the benchmarks run between synchronisations:
- `compute1`, one step of the Park–Miller generator computed with 32-bit arithmetic;
- `compute2`, a linear congruential step repeated `(x >>> 4) & 7` times;
- `rightJustify`, which places a number in a nine-character field;
- `BarrierTimer`, which records a start time and an end time.

Module layout:
- `JavaNumerics` (java_numerics.dfy): Java `int` and `long` as bounded integer newtypes, with explicit wrap-around (`Wrap32`, `Wrap64`), the unsigned reading of an `int` (`Unsigned32`), Java's truncating remainder (`Rem`) and `Long.toString` (`LongToString`).
- `Sorting` (sorting.dfy): the specification side of sorting.
  - `Merged` is the stable merge of two sequences, which the code must produce.
  - `Sort` is insertion sort, the reference for "the ascending permutation".
- `Slices` (slices.dfy): sequence slicing facts.
- `MergeLoops` (merge_loops.dfy): the three loops of `Merger.merge`.
- `ScalarLongSort` (scalar_long_sort.dfy): the sorter's tasks. `Merger` is a class, because `collectRights` updates its `next` field. `Sorter`, `SubSorter` and `RandomFiller` are datatypes over shared arrays, because all their fields are final.
- `LoopHelpers` (loop_helpers.dfy): the helpers, with `StringBuilder` and `BarrierTimer` as classes.

The model runs every forked task to completion at the point where it is forked, before the code after the `fork`:
- In `Sorter.compute`, the upper `SubSorter` `rs` runs first, then `rl`, then the first quarter.
- In `SubSorter.compute`, `right` runs before `left`.
- In `RandomFiller.compute`, the upper half is filled before the lower half.

The spine siblings of `Merger.compute` are the exception. They run later, in `collectRights`, where the source runs or joins them. The tasks write disjoint ranges, so the order does not change the result.

`THRESHOLD` is a parameter of every task. `ChooseThreshold` proves that the value `main` gives it is at least 1.

The bit operations of `compute1`, `compute2` and the midpoint computations are written as arithmetic on the unsigned 32-bit reading of an `int`:
- a mask of the low `k` bits is `% 2^k`;
- `>>> k` is `/ 2^k`;
- a set sign bit is a negative value;
- every `int` sum and product is wrapped with `Wrap32`.

## Model

| member | source | states |
|---|---|---|
| ScalarLongSort.Merger.Merge | src/test/loops/ScalarLongSort.java:179-196 | The destination range `w[wo..wo+nleft+nright]` becomes the stable merge of the two run prefixes. Every other element of `w` is unchanged, and `a` is not written. |
| MergeLoops.MergeRuns | src/test/loops/ScalarLongSort.java:179-196 | The three merge loops in sequence leave the destination range equal to `Merged(xs, ys)` and the rest of `w` unchanged. |
| MergeLoops.MergeHeads | src/test/loops/ScalarLongSort.java:185-191 | The first loop stops when one run is exhausted. The filled prefix of the destination is a prefix of the merge, and nothing outside the range is written. |
| MergeLoops.DrainLeft | src/test/loops/ScalarLongSort.java:192-193 | Copying the rest of the left run exhausts it. The filled prefix stays a prefix of the merge. |
| MergeLoops.DrainRight | src/test/loops/ScalarLongSort.java:194-195 | Copying the rest of the right run fills the whole destination range with the merge. |
| MergeLoops.Advance | src/test/loops/ScalarLongSort.java:189 | At each step, the element the loop moves (the left head when `al <= ar`, otherwise the right head) is the next element of the merge. |
| MergeLoops.ReachedRest | src/test/loops/ScalarLongSort.java:185-195 | Once the loop has consumed `i` left and `j` right elements, the rest of the merge is the merge of the rest of the runs. |
| Sorting.MergedSorted | src/test/loops/ScalarLongSort.java:179-196 | The merge of two sorted runs is sorted. |
| Sorting.MergedPermutes | src/test/loops/ScalarLongSort.java:179-196 | The merge's multiset of elements is the union of the two runs' multisets. |
| Sorting.MergedTakesLeft | src/test/loops/ScalarLongSort.java:189 | Stability: when the left head is at most the right head, including a tie, the merge takes the left head first. |
| Sorting.MergedTakesRight | src/test/loops/ScalarLongSort.java:189 | Only a right head strictly below the left head is taken first. |
| Sorting.MergedSplit | src/test/loops/ScalarLongSort.java:155-172 | Cutting both runs at a pivot (the left pieces at most the pivot, the right lower piece strictly below it) cuts the merge there: the merge is the merge of the lower pieces followed by the merge of the upper pieces. |
| ScalarLongSort.Merger.SplitPoint | src/test/loops/ScalarLongSort.java:159-167 | The binary search returns `rh <= nright`. Every element of the right run before `rh` is below `split`, and every element from `rh` on is at least `split`. |
| ScalarLongSort.Merger.SpawnStep | src/test/loops/ScalarLongSort.java:156-171 | One spine step gives `lh < nleft` (the spine terminates). It links a fresh sibling for the upper parts in front of the list. The merge of the lower parts followed by the siblings' outputs is unchanged by the step. |
| ScalarLongSort.Merger.SpawnSiblings | src/test/loops/ScalarLongSort.java:152-172 | The spine loop ends with `nleft <= THRESHOLD`. The siblings' destination ranges tile `w` from the end of the remaining merge to the end of the merger's range. The remaining merge followed by the siblings' outputs equals the merge of the two full runs. |
| ScalarLongSort.LinkTiles | src/test/loops/ScalarLongSort.java:156-169 | The sibling built from the upper parts reads its runs, and its destination `wo+lh+rh` extends the tiling downwards. The lower parts are still in place and sorted. |
| ScalarLongSort.CutRuns | src/test/loops/ScalarLongSort.java:156-169 | Cutting the left run at `lh` and the right run at the binary-search point `rh` splits the merge of the runs into the lower merge followed by the upper merge. All four parts stay sorted. |
| ScalarLongSort.Merger.Compute | src/test/loops/ScalarLongSort.java:151-177 | After the spine, the base merge and the siblings have run, `w` over the merger's range holds the single direct merge of its two full runs. Nothing else in `w` changes. |
| ScalarLongSort.Merger.MergeAndCollect | src/test/loops/ScalarLongSort.java:174-176 | Merging what is left and then collecting the siblings gives the remaining merge followed by the siblings' outputs. |
| ScalarLongSort.Merger.CollectRights | src/test/loops/ScalarLongSort.java:198-205 | Running the linked siblings in list order appends each sibling's output after the part already written, over the tiled range, and leaves the rest of `w` alone. |
| ScalarLongSort.Merger.RunOne | src/test/loops/ScalarLongSort.java:200-203 | Each step of `collectRights` unlinks the sibling (`next == null` afterwards), returns the sibling that followed it, and writes exactly that sibling's merge into its own range. |
| ScalarLongSort.Merger.OutputSortedPermutation | src/test/loops/ScalarLongSort.java:151-177 | A merger's output is sorted and is a permutation of its two runs. |
| ScalarLongSort.ArraysSort | src/test/loops/ScalarLongSort.java:96 | `Arrays.sort(a, l, l+n)` leaves the range holding `Sort` of its old contents, and the rest of `a` unchanged. |
| Sorting.SortSorts | src/test/loops/ScalarLongSort.java:96 | `Sort` of a sequence is sorted and is a permutation of it. |
| Sorting.SortedPermutationIsSort | src/test/loops/ScalarLongSort.java:61 | Any sorted permutation of a sequence equals `Sort` of it, so "the range is sorted" is one well-defined result. |
| Sorting.MergedHalves | src/test/loops/ScalarLongSort.java:110-112 | Merging the sorted forms of the two pieces of a sequence, cut anywhere, gives `Sort` of the whole sequence. |
| ScalarLongSort.Sorter.Quarters | src/test/loops/ScalarLongSort.java:98-108 | With `h = n>>>1`, `q = n>>>2` and `u = h+q`, the four quarters tile `[origin, origin+n)` in order. The upper two make up the upper half, which starts at `origin + n/2`. Every quarter is shorter than `n` once `n >= 2`. |
| ScalarLongSort.Sorter.Compute | src/test/loops/ScalarLongSort.java:93-114 | `a[origin..origin+n]` becomes the ascending permutation (`Sort`) of its old contents. The rest of `a` is unchanged, and `w` is changed only inside the range. |
| ScalarLongSort.Sorter.SortQuarters | src/test/loops/ScalarLongSort.java:97-113 | For `n > THRESHOLD`, the divide step gives the same result as `Compute`. |
| ScalarLongSort.Sorter.SortUpperHalf | src/test/loops/ScalarLongSort.java:101-105 | The forked `SubSorter` leaves `w` over the upper half holding `Sort` of the upper half of `a`. The lower half of `a` and the rest of `w` are unchanged. |
| ScalarLongSort.Sorter.SortLowerHalf | src/test/loops/ScalarLongSort.java:106-110 | Sorting the first two quarters and merging them leaves `w` over the lower half holding `Sort` of the lower half of `a`. The upper half of `a` is untouched. |
| ScalarLongSort.Sorter.SortLowerAndMerge | src/test/loops/ScalarLongSort.java:106-112 | Once `w` holds the sorted upper half and `a`'s lower half is unchanged, sorting the lower half and merging back leaves the range holding `Sort` of its original contents. `a` and `w` outside the range are unchanged. |
| ScalarLongSort.Sorter.MergeBack | src/test/loops/ScalarLongSort.java:112 | Merging the two sorted halves of `w` back into `a` leaves the range holding `Sort` of its original contents. |
| ScalarLongSort.Sorter.MergeHalves | src/test/loops/ScalarLongSort.java:112 | When `w` over the range holds the sorted lower half followed by the sorted upper half, the merger from `w` into `a` leaves `a` over the range holding `Sort` of the original contents. Everything outside the range is unchanged. |
| ScalarLongSort.SubSorter.Compute | src/test/loops/ScalarLongSort.java:124-129 | After sorting the right part, then the left part, then merging, `w` over the two adjacent ranges holds `Sort` of their old contents in `a`. `a` and `w` outside them are unchanged. |
| ScalarLongSort.SubSorter.SortLeftAndMerge | src/test/loops/ScalarLongSort.java:126-128 | Once `right` is sorted in place, sorting `left` and running the merger leaves `w` over both ranges holding `Sort` of their original contents, with `a` and `w` unchanged outside them. |
| ScalarLongSort.SubSorter.RunMerger | src/test/loops/ScalarLongSort.java:128 | With both ranges sorted in place, running the merger leaves `w` over them holding `Sort` of their original contents, with `w` unchanged outside them. |
| ScalarLongSort.NewMerger | src/test/loops/ScalarLongSort.java:112 | A new merger over the two sorted halves of a range of `whole` (`new Merger(...).compute()`) writes `Sort(whole)` into its destination range and leaves the rest of the destination unchanged. |
| ScalarLongSort.MergeSorted | src/test/loops/ScalarLongSort.java:110-112 | A merger whose two runs hold the sorted halves of a sequence writes `Sort` of that sequence into its range. |
| ScalarLongSort.AdjacentSorted | src/test/loops/ScalarLongSort.java:209-217 | Every neighbouring pair is in order if and only if the sequence is sorted. |
| ScalarLongSort.CheckSorted | src/test/loops/ScalarLongSort.java:209-217 | `checkSorted` returns normally if and only if `a` is sorted. When it throws, it names an index `i` with `a[i] > a[i+1]`, and every earlier pair is in order. |
| ScalarLongSort.Midpoint | src/test/loops/ScalarLongSort.java:239 | `(lo + hi) >>> 1` with a wrapping `int` sum is exactly `(lo+hi)/2` for all array indices. It lies strictly between `lo` and `hi` once they are two apart. |
| ScalarLongSort.RandomFiller.Compute | src/test/loops/ScalarLongSort.java:231-245 | Every index in `[lo, hi)` gets its drawn value, and every other index keeps its old value. |
| ScalarLongSort.RandomFiller.FillLeaf | src/test/loops/ScalarLongSort.java:232-236 | The leaf loop stores the drawn value at every index of the range and nothing else. |
| ScalarLongSort.ChooseThreshold | src/test/loops/ScalarLongSort.java:52-55 | The threshold is always at least 1. It is `st` when `st > 0`, otherwise `1 + ceil(n/8) / parallelism`, with no `int` overflow. |
| ScalarLongSort.SortArray | src/test/loops/ScalarLongSort.java:61 | Sorting the whole array with a fresh scratch array leaves it sorted, a permutation of its old contents, and equal to `Sort` of them. |
| ScalarLongSort.Replication | src/test/loops/ScalarLongSort.java:58-66 | The first replication (`i == 0`, the one that runs `checkSorted`) leaves `Sort` of the drawn values in the array, and the check never throws. Later replications are fill and sort only, which `RandomFiller.Compute` and `SortArray` state. |
| LoopHelpers.Compute1 | src/test/jtreg/util/concurrent/ConcurrentHashMap/LoopHelpers.java:18-32 | The result is never 0 or negative. It equals `16807 * x mod (2^31 - 1)` (with `x` read unsigned) whenever that residue is nonzero. Otherwise it is 1 or `2^31 - 1`, and it is 1 for `x == 0`. |
| LoopHelpers.Invertible | src/test/jtreg/util/concurrent/ConcurrentHashMap/LoopHelpers.java:18-32 | `16807 * u` is a multiple of `2^31 - 1` only if `u` is, so the generator never lands on 0 from a nonzero residue. |
| LoopHelpers.Rounds | src/test/jtreg/util/concurrent/ConcurrentHashMap/LoopHelpers.java:39 | `(x >>> 4) & 7` is at most 7. |
| LoopHelpers.Round | src/test/jtreg/util/concurrent/ConcurrentHashMap/LoopHelpers.java:41 | One round `(x * 2147483647) % 16807`, with `int` wrap-around and Java's truncating `%`, is below 16807 in magnitude. |
| LoopHelpers.Compute2 | src/test/jtreg/util/concurrent/ConcurrentHashMap/LoopHelpers.java:38-44 | The loop runs exactly `Rounds(x)` rounds: the result is `Iterate(x, Rounds(x))`, `Round` applied that many times to `x`. It returns `x` itself when that is 0, and otherwise a value below 16807 in magnitude. |
| LoopHelpers.StringBuilder.Replace | src/test/jtreg/util/concurrent/ConcurrentHashMap/LoopHelpers.java:72 | `replace(start, end, str)` replaces the characters from `start` up to `end`, clamped to the length, by `str`. |
| LoopHelpers.RightJustify | src/test/jtreg/util/concurrent/ConcurrentHashMap/LoopHelpers.java:65-74 | A decimal form of nine or more characters comes back as it is. A shorter one comes back with length 9, ending with the decimal form, padded on the left with spaces. |
| LoopHelpers.FillsField | src/test/jtreg/util/concurrent/ConcurrentHashMap/LoopHelpers.java:69-70 | `Long.toString(n)` fills the field if and only if `n >= 10^8` or `n <= -10^7`. |
| JavaNumerics.LongToString | src/test/jtreg/util/concurrent/ConcurrentHashMap/LoopHelpers.java:68 | `Long.toString(n)` is non-empty. It starts with `-` exactly when `n` is negative, and every other character is a decimal digit. |
| JavaNumerics.LongToStringRoundTrip | src/test/jtreg/util/concurrent/ConcurrentHashMap/LoopHelpers.java:68 | The decimal form of `n` reads back as `n`: its digits are `n` itself, or `-n` after the sign. |
| JavaNumerics.DigitsLength | src/test/jtreg/util/concurrent/ConcurrentHashMap/LoopHelpers.java:68-69 | A natural number has at most `k` digits if and only if it is below `10^k`. |
| JavaNumerics.Rem | src/test/jtreg/util/concurrent/ConcurrentHashMap/LoopHelpers.java:41 | Java's `%` by a positive divisor is what division truncated toward zero (`Quot`) leaves over: `a == Quot(a, m) * m + r`. It has the sign of the dividend and is below the divisor in magnitude. |
| JavaNumerics.Wrap32 | src/test/jtreg/util/concurrent/ConcurrentHashMap/LoopHelpers.java:19-20 | `int` arithmetic: a value in range is kept, and a value up to `2^32` above `INT_MAX` wraps to negative. |
| JavaNumerics.Wrap64 | src/test/jtreg/util/concurrent/ConcurrentHashMap/LoopHelpers.java:61 | `long` arithmetic: a value in range is kept, and one overflowing by less than `2^64` wraps by `2^64`. |
| LoopHelpers.BarrierTimer.Run | src/test/jtreg/util/concurrent/ConcurrentHashMap/LoopHelpers.java:49-55 | The first run after a clear records the clock reading as the start time. A later run records it as the end time and keeps the start time. |
| LoopHelpers.BarrierTimer.Clear | src/test/jtreg/util/concurrent/ConcurrentHashMap/LoopHelpers.java:56-59 | Both readings become 0. |
| LoopHelpers.BarrierTimer.GetTime | src/test/jtreg/util/concurrent/ConcurrentHashMap/LoopHelpers.java:60-62 | The result is 0 on a cleared timer, and the exact elapsed time whenever that fits in a `long`. It always agrees with the exact difference modulo `2^64`. |

## Left out

- Fork/join scheduling: a forked task runs to completion where it is forked, and a spine sibling runs where `collectRights` reaches it. `join` and `tryUnfork` have no effect. Parallel interleavings, work stealing and the `ForkJoinPool` are not modelled. The tasks write disjoint ranges, so this choice does not change the results.
- `ThreadLocalRandom.nextLong()`: the values `RandomFiller` draws are a parameter `values`, with `values[i]` stored at index `i`.
- `seqRandomFill` and the warm-up and `sreps` passes of `main` are not modelled. They call the library's `Arrays.sort` and `checkSorted`, which are modelled on their own. Argument parsing, the pool's creation and parallelism, printing and `System.nanoTime()` timing are also left out. `pool.getParallelism()` is a parameter of `ChooseThreshold`.
- ScalarLongSort.ArraysSort: specifies `java.util.Arrays.sort` by its result (`Sort`, insertion sort as the reference). The library's dual-pivot quicksort is not modelled.
- ScalarLongSort.CheckSorted: returns an `Unsorted(at, x, y)` outcome instead of throwing `java.lang.Error`. The message text is not built.
- ScalarLongSort.Merger.CollectRights: does not state that every sibling's `next` is `null` afterwards. `RunOne` states it for each sibling when it runs.
- ScalarLongSort.Merger.SplitPoint: computes the midpoint `(rl + rh) >>> 1` as `(rl + rh) / 2`. `Midpoint` proves the two agree for all `int` indices.
- Java `int` index arithmetic in the sorter (`lo + lh`, `l + u` and the like) uses unbounded naturals. For arrays of at most `INT_MAX` elements these never overflow.
- `THRESHOLD` is a static field in the source. Here it is a parameter of each task, required to be at least 1, which is what `ChooseThreshold` guarantees.
- `BarrierTimer`'s fields are `volatile`, and the barrier that runs the timer is not modelled. `System.nanoTime()` is the parameter `t` of `Run`.
- `StringBuilder` and `Long.toString` are modelled only as far as `rightJustify` uses them. The other `StringBuilder` operations are not modelled.
