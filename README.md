# Running statistics engine, modelled in Dafny

This project models the `RunningStatistics` class of `calculate_statistics.py`.
The class ingests numbers one at a time and can report three values at any
point: the running mean, the running standard deviation and the running
median.

- **Median.** The values are kept in two heaps. The lower half sits in
  `low_partition`, stored negated so that a min-heap serves as a max-heap.
  The upper half sits in `high_partition`. After every insertion one
  rebalancing step keeps the two sizes within one of each other. The median
  is then read from the heap tops.
- **Mean and variance.** Welford's recurrence updates four accumulators
  (`old_m`, `old_s`, `new_m`, `new_s`) with every value.
- **Flush.** `flush` zeroes the counter.

The files:

- `heapq.dfy` (module `Heapq`) models Python's `heappush` and `heappop` by
  their public guarantee. Index 0 holds the smallest item, and the items are
  conserved as a multiset.
- `order_statistics.dfy` (module `OrderStatistics`) holds:
  - the negated encoding of the low partition;
  - the invariants kept between the partitions (both are heaps, low ≤ high,
    balanced, the high partition is non-empty whenever a value is held, and
    together they hold exactly the values added);
  - the lemmas showing that placing a value and one rebalancing step keep
    those invariants;
  - the proof that the median read from the heap tops is the middle of the
    sorted values.
- `welford.dfy` (module `Welford`) defines the mean and the sum of squared
  deviations (M2) of a stream in closed form. It proves that Welford's
  update computes both exactly over exact reals.
- `running_statistics.dfy` (module `RunningStats`) is the class itself. The
  fields are those of the Python object. The methods `AddNumber`,
  `Rebalance` and `Flush` update them in place. `Median`, `Mean` and
  `StdSquared` are functions of the state. A ghost `history` holds every
  value added, which is what the partitions hold. A ghost `window` holds the
  values added since construction or the last flush, which is what the
  accumulators summarise. `Valid()` ties the fields to both.
- `wrappers.dfy` holds `Option` and `Result`. They model the `IndexError`
  of a median on an empty engine, and the `ZeroDivisionError` and
  `ValueError` that the standard deviation can raise.

`add_number` is split into two methods, `InsertIntoPartitions` and
`UpdateMoments`, one for each half of the Python body. `AddNumber` calls them
in the source's order. The two halves touch disjoint fields.

The driver's comment at calculate_statistics.py:121 says that typing
flush, reset or clear clears the current running statistics. The `flush` it
calls (line 90) zeroes only `num_values`. `Flush` follows the code. The
consequence is recorded under "Findings", with a corrected `Reset` beside it.

## Model

| member | source | states |
|---|---|---|
| Heapq.Push | calculate_statistics.py:39 | heappush leaves a heap (smallest item first), one item longer, holding the old items plus exactly one copy of `x` |
| Heapq.Pop | calculate_statistics.py:58 | heappop on a non-empty heap returns its smallest item and leaves a heap of the remaining items (that item removed once), one shorter |
| Heapq.MinIndex | calculate_statistics.py:58 | finds the position of a smallest item of a non-empty list, which the next heap top comes from |
| Heapq.MinToFront | calculate_statistics.py:58 | moving a smallest item to the front of the remaining items makes a heap of the same multiset |
| OrderStatistics.NegatedCount | calculate_statistics.py:41 | a value occurs among the low partition's logical values exactly as often as its negation is stored |
| OrderStatistics.NegatedPermutation | calculate_statistics.py:58 | two stored low partitions with the same items stand for the same values, whatever their heap layout |
| OrderStatistics.NegatedAdd | calculate_statistics.py:41 | pushing `-x` onto the low partition adds exactly one copy of `x` to the values it stands for |
| OrderStatistics.NegatedTopIsMax | calculate_statistics.py:68 | `-low_partition[0]` is one of the low values and no low value exceeds it |
| OrderStatistics.PlaceHighKeepsOrder | calculate_statistics.py:38-39 | when the high partition is empty or `x` exceeds its top, pushing `x` there keeps low ≤ high, adds `x` to the values held, leaves the high partition non-empty and the size difference within 2 |
| OrderStatistics.PlaceLowKeepsOrder | calculate_statistics.py:40-41 | when `x` is at most the high top, pushing `-x` onto the low partition keeps low ≤ high, adds `x` to the values held, leaves the size difference within 2 |
| OrderStatistics.InsertKeepsInvariant | calculate_statistics.py:37-42 | a placement that adds `x` and leaves the high partition non-empty, followed by a rebalancing that restores the shape and keeps the values, re-establishes the partition invariant for the history with `x` appended and grows the partitions by one item |
| OrderStatistics.MoveLowTop | calculate_statistics.py:57-58 | moving the low partition's largest value to the high partition, when low has two more items, makes the partitions heaps, ordered and balanced, with the same values, high non-empty and one item moved |
| OrderStatistics.MoveHighTop | calculate_statistics.py:59-60 | moving the high partition's smallest value to the low partition, when high has two more items, makes the partitions heaps, ordered and balanced, with the same values, high non-empty and one item moved |
| OrderStatistics.MedianOf | calculate_statistics.py:62-72 | the median is absent (IndexError) exactly when both partitions are empty |
| OrderStatistics.Insert | calculate_statistics.py:62-72 | inserting into a sorted list yields a sorted arrangement of its items plus `x` (the reference sort for the median) |
| OrderStatistics.Sort | calculate_statistics.py:62-72 | every list has a sorted arrangement of the same multiset (reference definition of "the sorted values") |
| OrderStatistics.SortedUnique | calculate_statistics.py:62-72 | two sorted lists with the same multiset are equal, so "the middle of the sorted values" is well defined |
| OrderStatistics.FirstIsTop | calculate_statistics.py:71 | the first of the sorted high values is `high_partition[0]` |
| OrderStatistics.LastIsNegatedTop | calculate_statistics.py:68 | the last of the sorted low values is `-low_partition[0]` |
| OrderStatistics.SortedConcat | calculate_statistics.py:62-72 | two sorted lists, every item of the first at most every item of the second, concatenate to a sorted list |
| OrderStatistics.SortedHalves | calculate_statistics.py:62-72 | the sorted low values followed by the sorted high values are the sorted list of all values held |
| OrderStatistics.MedianOfSorting | calculate_statistics.py:62-72 | for ordered, balanced heaps, the three-way read of the tops equals the middle element (odd count) or the mean of the two middle elements (even count) of the sorted values |
| OrderStatistics.MedianIsMiddle | calculate_statistics.py:62-72 | under the partition invariants, the median from the tops equals the middle of every sorting of the values held |
| Welford.SumAppend | calculate_statistics.py:51 | the sum of a stream grows by the appended value |
| Welford.AverageAppend | calculate_statistics.py:51 | the mean of `s + [x]` is `(sum(s) + x) / (n + 1)` |
| Welford.SquaresAboutAppend | calculate_statistics.py:52 | squared deviations about a fixed centre grow by `(x - c)^2` |
| Welford.Shift | calculate_statistics.py:52 | moving the centre of squared deviations from `mu` to `c` adds `ShiftTerm`, that is `(mu - c)(2 sum - n (c + mu))` |
| Welford.CountTimesAverage | calculate_statistics.py:51 | the count times the mean is the sum |
| Welford.ShiftFromMean | calculate_statistics.py:52 | squared deviations about any `c` exceed M2 by `Spread`, that is `n (c - mean)^2` |
| Welford.SquaresAboutNonNegative | calculate_statistics.py:84 | a sum of squared deviations is never negative, so the radicand is not negative when `ddof < num_values` |
| Welford.Seed | calculate_statistics.py:47-49 | a one-value stream has mean `x` and M2 0, which the reseed branch assigns |
| Welford.MeanUpdate | calculate_statistics.py:51 | over sum `a` and count `k`, `m + (x - m)/(k + 1)` is the mean of the `k + 1` values |
| Welford.MeanStep | calculate_statistics.py:51 | the update `new_m = old_m + (x - old_m)/n` yields exactly the mean of the stream with `x` appended; equivalently `(n + 1)(mean' - mean) == x - mean` |
| Welford.SquaresAlgebra | calculate_statistics.py:52 | when the mean moves from `m` to `m'` with `(k + 1)(m' - m) == x - m`, M2 about `m'` plus `(x - m')^2` is the old M2 plus `(x - m)(x - m')` |
| Welford.SquaresStep | calculate_statistics.py:52 | the update `new_s = old_s + (x - old_m)(x - new_m)` yields exactly M2 of the stream with `x` appended |
| Welford.WelfordStep | calculate_statistics.py:50-54 | both updates together are exact: mean and M2 of `s` turn into mean and M2 of `s + [x]` |
| Welford.TracksSeed | calculate_statistics.py:47-49 | after the reseed for a first value, the accumulators hold that stream's mean and M2 (`new_s` left as it was) |
| Welford.TracksAdd | calculate_statistics.py:50-54 | if the accumulators hold mean and M2 of `s`, after the update they hold mean and M2 of `s + [x]` |
| RunningStats.RunningStatistics.constructor | calculate_statistics.py:25-33 | a new engine has count 0, ddof 0, all accumulators 0, both partitions empty, and satisfies the invariant |
| RunningStats.RunningStatistics.AddNumber | calculate_statistics.py:36-54 | keeps the invariant (partitions ordered, balanced and holding every value ever added, accumulators holding mean and M2 of the values since the last flush); the values held gain exactly `x`; count +1; ddof unchanged; count equals the total partition size when it did before |
| RunningStats.SuffixAppend | calculate_statistics.py:45 | a window that is a suffix of the history stays one when both gain the same value |
| RunningStats.RunningStatistics.InsertIntoPartitions | calculate_statistics.py:37-42 | placement then rebalancing keeps the partition invariant, adds exactly `x` to the values held and grows the partitions by one item |
| RunningStats.RunningStatistics.UpdateMoments | calculate_statistics.py:44-54 | count +1; first value: `old_m = new_m = x`, `old_s = 0`, `new_s` untouched; later values: Welford's two updates with `old_*` copied from `new_*`; the accumulators keep tracking mean and M2 of the window |
| RunningStats.RunningStatistics.Rebalance | calculate_statistics.py:56-60 | from heaps that are ordered and at most 2 apart, moves one top across exactly when the sizes differ by more than one, ending balanced, ordered, with the same values and high still non-empty |
| RunningStats.RunningStatistics.Median | calculate_statistics.py:62-72 | IndexError exactly when no value was ever added; otherwise the middle of the sorted values added (mean of the two middle ones for an even count) |
| RunningStats.RunningStatistics.Mean | calculate_statistics.py:74-79 | 0 with no values since the last flush, else exactly the mean of those values |
| RunningStats.RunningStatistics.StdSquared | calculate_statistics.py:81-87 | 0 for at most one value; otherwise M2 / (n - ddof) of the values since the last flush, ZeroDivisionError when n == ddof, ValueError when that is negative; never an error and never negative when `ddof < n` |
| RunningStats.RunningStatistics.Flush | calculate_statistics.py:89-90 | zeroes the count and empties the window; partitions and accumulators keep their values; the invariant holds |
| RunningStats.RunningStatistics.Reset | calculate_statistics.py:121-123 | clears count, accumulators, partitions, history and window, keeping ddof: the state of a fresh engine |
| RunningStats.AddOneTwoThenFlush | calculate_statistics.py:89-90 | a fresh engine fed 1 and 2 and then flushed holds history [1, 2] with count 0 |
| RunningStats.StaleMedianAfterFlush | calculate_statistics.py:89-90 | after 1, 2, flush, 5 the mean is 5 but the median is 2 |
| RunningStats.FreshAfterReset | calculate_statistics.py:121-123 | after 1, 2, full reset, 5 the mean and the median are both 5 |

## Left out

- The command-line driver (`calculate_statistics.py:109-152`) is not modelled: reading stdin, the quit/flush/precision commands, splitting lines and printing. It is I/O around the engine.
- `is_number` (`calculate_statistics.py:93-106`) is not modelled. It only tests whether Python's `float()` accepts a string.
- `sqrt` in `std` and `round` in the driver are not modelled. `StdSquared` returns the radicand passed to `sqrt`, or the error that the division or `sqrt` raises.
- IEEE-754 floating point is not modelled. All arithmetic is over exact reals, so Welford's exactness is proved for exact arithmetic and rounding error is not modelled. Python's mixing of the integer `0` with floats in `mean`, `std` and the initial accumulators is represented by the real `0.0`.
- Heapq.Push: does not model heapq's sift-up layout. It keeps the same guarantee (a heap with the smallest item at index 0, and the same multiset), but the order of the items after index 0 may differ from Python's.
- Heapq.Pop: does not model heapq's sift-down layout, for the same reason as `Push`.
- `ddof` is a public attribute that clients may set. No method of the model changes it, and `StdSquared` is specified for every value it may hold.
- RunningStats.RunningStatistics.AddNumber: does not restate the accumulator update formulas in its own contract. It states them through `Valid()`: mean and M2 of the window. The exact formulas, and the fact that `new_s` keeps its old value on a reseed, are stated on `UpdateMoments`, which `AddNumber` calls.

## Findings

| source | as written | input that shows it | evidently intended | confidence | as-written member | corrected member |
|---|---|---|---|---|---|---|
| calculate_statistics.py:89-90 | `flush` zeroes only `num_values`; both partitions and the accumulators keep their contents, so `median` still counts values added before the flush while `mean` and `std` restart | add 1, add 2, flush, add 5: mean 5, median 2 | the driver comment at calculate_statistics.py:121 says flush clears the running statistics, so every statistic restarts: after the same input, median 5 | not executed; high | RunningStats.StaleMedianAfterFlush | RunningStats.RunningStatistics.Reset (with RunningStats.FreshAfterReset) |
