/**
 * The streaming statistics engine: one object that ingests values one at a
 * time and answers the running mean, the running standard deviation (as its
 * radicand) and the running median.
 */
module RunningStats {
  import opened Wrappers
  import opened Heapq
  import opened OrderStatistics
  import opened Welford

  /** The Python exceptions the standard-deviation query can raise. */
  datatype MathError =
    | ZeroDivisionError  // num_values - ddof == 0
    | ValueError         // sqrt of a negative radicand: "math domain error"

  /** If `w` is a suffix of `h`, then `w + [x]` is a suffix of `h + [x]`. */
  lemma SuffixAppend(w: seq<real>, h: seq<real>, x: real)
    requires |w| <= |h| && w == h[|h| - |w|..]
    ensures |w + [x]| <= |h + [x]| && w + [x] == (h + [x])[|h + [x]| - |w + [x]|..]
  {
    assert (h + [x])[|h| - |w|..] == h[|h| - |w|..] + [x];
  }

  class RunningStatistics {
    /** The count of values added since construction or the last flush. */
    var numValues: nat
    /** Delta degrees of freedom of the standard deviation; 0 unless a client sets it. */
    var ddof: int
    /** Welford's accumulators: the running mean and sum of squared deviations. */
    var oldM: real
    var oldS: real
    var newM: real
    var newS: real
    /** The lower half of the values, negated, as a min-heap (so a max-heap of the values). */
    var lowPartition: seq<real>
    /** The upper half of the values, as a min-heap. */
    var highPartition: seq<real>

    /** Every value ever added: what the partitions hold. */
    ghost var history: seq<real>
    /** The values added since construction or the last flush: what the accumulators summarise. */
    ghost var window: seq<real>

    ghost predicate Valid()
      reads this
    {
      && PartitionInvariant(lowPartition, highPartition, history)
      && numValues == |window| <= |history|
      && window == history[|history| - |window|..]
      && Tracks(window, oldM, oldS, newM, newS)
    }

    constructor ()
      ensures Valid()
      ensures numValues == 0 && ddof == 0
      ensures oldM == 0.0 && oldS == 0.0 && newM == 0.0 && newS == 0.0
      ensures lowPartition == [] && highPartition == []
      ensures history == [] && window == []
    {
      numValues := 0;
      ddof := 0;
      oldM, oldS, newM, newS := 0.0, 0.0, 0.0, 0.0;
      lowPartition := [];
      highPartition := [];
      history := [];
      window := [];
      assert Negated([]) == [];
      assert PartitionInvariant([], [], []);
      assert Tracks([], 0.0, 0.0, 0.0, 0.0);
    }

    /**
     * Adds one value: places it by comparison with the high partition's top,
     * rebalances, then advances Welford's recurrence (reseeding it on the
     * first value after construction or a flush).
     */
    method AddNumber(x: real)
      requires Valid()
      modifies this
      ensures Valid()
      ensures history == old(history) + [x] && window == old(window) + [x]
      ensures Values(lowPartition, highPartition)
              == Values(old(lowPartition), old(highPartition)) + multiset{x}
      ensures numValues == old(numValues) + 1 && ddof == old(ddof)
      ensures old(numValues) == |old(lowPartition)| + |old(highPartition)|
              ==> numValues == |lowPartition| + |highPartition|
    {
      SuffixAppend(window, history, x);
      ghost var h := history;
      InsertIntoPartitions(x);
      ghost var low, high := lowPartition, highPartition;
      UpdateMoments(x);
      assert lowPartition == low && highPartition == high && history == h + [x];
    }

    /** The first half of add_number: heap placement, then rebalancing. */
    method InsertIntoPartitions(x: real)
      requires PartitionInvariant(lowPartition, highPartition, history)
      modifies this`lowPartition, this`highPartition, this`history
      ensures PartitionInvariant(lowPartition, highPartition, history)
      ensures history == old(history) + [x]
      ensures Values(lowPartition, highPartition)
              == Values(old(lowPartition), old(highPartition)) + multiset{x}
      ensures |lowPartition| + |highPartition| == |old(lowPartition)| + |old(highPartition)| + 1
    {
      ghost var low0, high0 := lowPartition, highPartition;
      if |highPartition| == 0 || x > highPartition[0] {
        var high := Push(highPartition, x);
        PlaceHighKeepsOrder(lowPartition, highPartition, x, high);
        highPartition := high;
      } else {
        var low := Push(lowPartition, -x);
        PlaceLowKeepsOrder(lowPartition, highPartition, x, low);
        lowPartition := low;
      }
      ghost var low1, high1 := lowPartition, highPartition;
      Rebalance();
      history := history + [x];
      InsertKeepsInvariant(low0, high0, old(history), x, low1, high1, lowPartition, highPartition, history);
    }

    /** The second half of add_number: count the value and advance (or reseed) Welford's recurrence. */
    method UpdateMoments(x: real)
      requires numValues == |window| && Tracks(window, oldM, oldS, newM, newS)
      modifies this`numValues, this`window, this`oldM, this`oldS, this`newM, this`newS
      ensures numValues == |window| && Tracks(window, oldM, oldS, newM, newS)
      ensures window == old(window) + [x] && numValues == old(numValues) + 1
      ensures numValues == 1 ==> oldM == x && newM == x && oldS == 0.0 && newS == old(newS)
      ensures numValues > 1 ==>
                && newM == old(oldM) + (x - old(oldM)) / (numValues as real)
                && newS == old(oldS) + (x - old(oldM)) * (x - newM)
                && oldM == newM && oldS == newS
    {
      ghost var w := window;
      window := window + [x];
      numValues := numValues + 1;
      if numValues == 1 {
        oldM := x;
        newM := x;
        oldS := 0.0;
        assert window == [x];
        TracksSeed(x, newS);
      } else {
        newM := oldM + (x - oldM) / (numValues as real);
        newS := oldS + (x - oldM) * (x - newM);
        TracksAdd(w, x, oldM, oldS, old(newM), old(newS), newM, newS);
        oldM := newM;
        oldS := newS;
      }
    }

    /**
     * Moves one item across when the partition sizes differ by more than
     * one: the low partition's largest value, or the high partition's
     * smallest. After one placement this restores the balance and keeps the
     * order and the values held, and it never empties the high partition.
     */
    method Rebalance()
      requires IsHeap(lowPartition) && IsHeap(highPartition) && Ordered(lowPartition, highPartition)
      requires -2 <= |lowPartition| - |highPartition| <= 2
      modifies this`lowPartition, this`highPartition
      ensures Partitioned(lowPartition, highPartition)
      ensures Values(lowPartition, highPartition) == Values(old(lowPartition), old(highPartition))
      ensures RebalanceMove(old(lowPartition), old(highPartition), lowPartition, highPartition)
      ensures |old(highPartition)| > 0 ==> |highPartition| > 0
    {
      if |lowPartition| - |highPartition| > 1 {
        var top, rest := Pop(lowPartition);
        var high := Push(highPartition, -top);
        MoveLowTop(lowPartition, highPartition, rest, high);
        lowPartition, highPartition := rest, high;
      } else if |highPartition| - |lowPartition| > 1 {
        var top, rest := Pop(highPartition);
        var low := Push(lowPartition, -top);
        MoveHighTop(lowPartition, highPartition, rest, low);
        lowPartition, highPartition := low, rest;
      }
    }

    /** The median of the values the partitions hold; None (IndexError) when they hold none. */
    function Median(): (r: Option<real>)
      reads this
      requires Valid()
      ensures r.None? <==> |history| == 0
      ensures forall t :: IsSortingOf(t, multiset(history)) ==> r == Middle(t)
    {
      MedianIsMiddle(lowPartition, highPartition);
      MedianOf(lowPartition, highPartition)
    }

    /** The running mean; 0 when no value was added since construction or the last flush. */
    function Mean(): (r: real)
      reads this
      requires Valid()
      ensures numValues == 0 ==> r == 0.0
      ensures numValues >= 1 ==> r == Average(window)
    {
      if numValues >= 1 then newM else 0.0
    }

    /**
     * The square of the running standard deviation: the radicand
     * new_s / (num_values - ddof) that is passed to sqrt, or the error that
     * the division or sqrt raises; 0 for fewer than two values.
     */
    function StdSquared(): (r: Result<real, MathError>)
      reads this
      requires Valid()
      ensures numValues <= 1 ==> r == Ok(0.0)
      ensures numValues > 1 && numValues == ddof ==> r == Err(ZeroDivisionError)
      ensures numValues > 1 && numValues != ddof ==>
                var radicand := SquaredDeviations(window) / ((numValues - ddof) as real);
                r == if radicand < 0.0 then Err(ValueError) else Ok(radicand)
      ensures numValues > 1 && ddof == 0 ==> r == Ok(SquaredDeviations(window) / (numValues as real))
      ensures numValues > 1 && ddof < numValues ==> r.Ok? && r.value >= 0.0
    {
      if numValues > 1 then
        SquaresAboutNonNegative(window, Average(window));
        if numValues - ddof == 0 then Err(ZeroDivisionError)
        else
          var radicand := newS / ((numValues - ddof) as real);
          if radicand < 0.0 then Err(ValueError) else Ok(radicand)
      else Ok(0.0)
    }

    /** Zeroes the counter only: the partitions and the accumulators keep their values. */
    method Flush()
      requires Valid()
      modifies this`numValues, this`window
      ensures Valid()
      ensures numValues == 0 && window == []
    {
      numValues := 0;
      window := [];
    }

    /**
     * What flush evidently means to do: return the engine to the state a
     * fresh constructor leaves, clearing the partitions and the accumulators
     * along with the counter. `ddof` is configuration and is kept.
     */
    method Reset()
      modifies this
      ensures Valid()
      ensures numValues == 0 && ddof == old(ddof)
      ensures oldM == 0.0 && oldS == 0.0 && newM == 0.0 && newS == 0.0
      ensures lowPartition == [] && highPartition == []
      ensures history == [] && window == []
    {
      numValues, oldM, oldS, newM, newS := 0, 0.0, 0.0, 0.0, 0.0;
      lowPartition, highPartition := [], [];
      history, window := [], [];
      assert Negated([]) == [];
      assert PartitionInvariant([], [], []);
      assert Tracks([], 0.0, 0.0, 0.0, 0.0);
    }
  }

  /** A fresh engine fed 1 and 2, then flushed. */
  method AddOneTwoThenFlush() returns (stats: RunningStatistics)
    ensures fresh(stats) && stats.Valid()
    ensures stats.history == [1.0, 2.0] && stats.numValues == 0
  {
    stats := new RunningStatistics();
    stats.AddNumber(1.0);
    stats.AddNumber(2.0);
    stats.Flush();
  }

  /**
   * Flush as written: after adding 1 and 2, flushing and adding 5, the mean
   * restarts at 5 while the median still counts the values added before
   * the flush.
   */
  method StaleMedianAfterFlush() returns (mean: real, median: Option<real>)
    ensures mean == 5.0 && median == Some(2.0)
  {
    var stats := AddOneTwoThenFlush();
    stats.AddNumber(5.0);
    assert stats.window == [5.0];
    Seed(5.0);
    mean := stats.Mean();
    assert stats.history == [1.0, 2.0, 5.0];
    assert IsSortingOf([1.0, 2.0, 5.0], multiset(stats.history));
    median := stats.Median();
  }

  /** With a full reset, the same inputs leave every statistic describing only the value added after it. */
  method FreshAfterReset() returns (mean: real, median: Option<real>)
    ensures mean == 5.0 && median == Some(5.0)
  {
    var stats := new RunningStatistics();
    stats.AddNumber(1.0);
    stats.AddNumber(2.0);
    stats.Reset();
    stats.AddNumber(5.0);
    Seed(5.0);
    mean := stats.Mean();
    assert IsSortingOf([5.0], multiset(stats.history));
    median := stats.Median();
  }
}
