/**
 * The running median over two partitions: the lower half of the values in a
 * max-heap, kept as a min-heap of negated values, and the upper half in a
 * min-heap. This module holds the pure part: the negated encoding, the
 * invariants the engine keeps between the partitions, the median read from
 * the two heap tops, and its specification as the middle of the sorted values.
 */
module OrderStatistics {
  import opened Wrappers
  import opened Heapq

  // ---------------------------------------------------------------------
  // The negated encoding of the low partition
  // ---------------------------------------------------------------------

  /** The values a negated heap stands for. */
  function Negated(s: seq<real>): seq<real>
  {
    seq(|s|, i requires 0 <= i < |s| => -s[i])
  }

  lemma NegatedMember(s: seq<real>, v: real)
    ensures v in Negated(s) <==> -v in s
  {
    if v in Negated(s) {
      var i :| 0 <= i < |s| && Negated(s)[i] == v;
      assert s[i] == -v;
    }
    if -v in s {
      var i :| 0 <= i < |s| && s[i] == -v;
      assert Negated(s)[i] == v;
    }
  }

  /** Each value occurs in the negated heap as often as its negation in the stored one. */
  lemma {:induction false} NegatedCount(s: seq<real>, v: real)
    ensures multiset(Negated(s))[v] == multiset(s)[-v]
  {
    if s != [] {
      var p := s[..|s| - 1];
      assert s == p + [s[|s| - 1]];
      assert Negated(s) == Negated(p) + [-s[|s| - 1]];
      NegatedCount(p, v);
    }
  }

  /** Negation does not depend on the order in which a heap keeps its items. */
  lemma NegatedPermutation(a: seq<real>, b: seq<real>)
    requires multiset(a) == multiset(b)
    ensures multiset(Negated(a)) == multiset(Negated(b))
  {
    forall v ensures multiset(Negated(a))[v] == multiset(Negated(b))[v] {
      NegatedCount(a, v);
      NegatedCount(b, v);
    }
  }

  /** Negating a stored item adds one copy of the value it stands for. */
  lemma NegatedAdd(a: seq<real>, b: seq<real>, y: real)
    requires multiset(b) == multiset(a) + multiset{y}
    ensures multiset(Negated(b)) == multiset(Negated(a)) + multiset{-y}
  {
    NegatedPermutation(b, a + [y]);
    assert Negated(a + [y]) == Negated(a) + [-y];
  }

  /**
   * The top of the negated min-heap, negated, is the largest value the low
   * partition stands for: -min(stored) == max(logical).
   */
  lemma NegatedTopIsMax(low: seq<real>)
    requires IsHeap(low) && |low| > 0
    ensures -low[0] in Negated(low)
    ensures forall v :: v in Negated(low) ==> v <= -low[0]
  {
    assert Negated(low)[0] == -low[0];
    forall v | v in Negated(low) ensures v <= -low[0] {
      NegatedMember(low, v);
    }
  }

  // ---------------------------------------------------------------------
  // The partition invariants
  // ---------------------------------------------------------------------

  /** Every value of the low partition (stored negated) is at most every value of the high one. */
  ghost predicate Ordered(low: seq<real>, high: seq<real>)
  {
    forall a, b :: a in low && b in high ==> -a <= b
  }

  /** The partition sizes differ by at most one. */
  ghost predicate Balanced(low: seq<real>, high: seq<real>)
  {
    -1 <= |low| - |high| <= 1
  }

  /** The shape the two partitions keep between calls: heaps, ordered and balanced. */
  ghost predicate Partitioned(low: seq<real>, high: seq<real>)
  {
    IsHeap(low) && IsHeap(high) && Ordered(low, high) && Balanced(low, high)
  }

  /**
   * The size change of one rebalancing step: one item moves from the larger
   * partition when the sizes differ by more than one, else nothing moves.
   */
  ghost predicate RebalanceMove(low: seq<real>, high: seq<real>, low': seq<real>, high': seq<real>)
  {
    if |low| - |high| > 1 then |low'| == |low| - 1 && |high'| == |high| + 1
    else if |high| - |low| > 1 then |low'| == |low| + 1 && |high'| == |high| - 1
    else low' == low && high' == high
  }

  /** All values held by the two partitions. */
  ghost function Values(low: seq<real>, high: seq<real>): (m: multiset<real>)
    ensures |m| == |low| + |high|
  {
    multiset(Negated(low)) + multiset(high)
  }

  /**
   * The invariant the engine keeps over its two partitions for the values
   * `added` so far: the shape above, the high partition non-empty whenever
   * any value is held (the first value goes there and rebalancing never
   * empties it), and together holding exactly the values added.
   */
  ghost predicate PartitionInvariant(low: seq<real>, high: seq<real>, added: seq<real>)
  {
    && Partitioned(low, high)
    && (|low| > 0 ==> |high| > 0)
    && Values(low, high) == multiset(added)
  }

  /**
   * Placement into the high partition, when it is empty (and so, then, is
   * the low one) or `x` exceeds its top: the order is kept, the value is
   * added, and the sizes stay within reach of one rebalancing step.
   */
  lemma PlaceHighKeepsOrder(low: seq<real>, high: seq<real>, x: real, high': seq<real>)
    requires Partitioned(low, high) && (|low| > 0 ==> |high| > 0)
    requires |high| == 0 || x > high[0]
    requires multiset(high') == multiset(high) + multiset{x} && |high'| == |high| + 1
    ensures Ordered(low, high') && -2 <= |low| - |high'| <= 2 && |high'| > 0
    ensures Values(low, high') == Values(low, high) + multiset{x}
  {
    forall a, b | a in low && b in high' ensures -a <= b {
      assert b in multiset(high');
      if b != x {
        assert b in high;
      } else {
        assert high[0] in high;
      }
    }
  }

  /**
   * Placement into the low partition (negated), when `x` is at most the high
   * partition's top: the order is kept, the value is added, and the sizes
   * stay within reach of one rebalancing step.
   */
  lemma PlaceLowKeepsOrder(low: seq<real>, high: seq<real>, x: real, low': seq<real>)
    requires Partitioned(low, high)
    requires |high| > 0 && x <= high[0]
    requires multiset(low') == multiset(low) + multiset{-x} && |low'| == |low| + 1
    ensures Ordered(low', high) && -2 <= |low'| - |high| <= 2
    ensures Values(low', high) == Values(low, high) + multiset{x}
  {
    NegatedAdd(low, low', -x);
    forall a, b | a in low' && b in high ensures -a <= b {
      assert a in multiset(low');
      if a != -x {
        assert a in low;
      }
    }
  }

  /**
   * One insertion end to end: if placing `x` adds it to the values held and
   * leaves the high partition non-empty, and rebalancing then restores the
   * shape and keeps the values, the invariant holds for `added + [x]` and
   * the partitions hold one more item.
   */
  lemma InsertKeepsInvariant(low: seq<real>, high: seq<real>, added: seq<real>, x: real,
                             low1: seq<real>, high1: seq<real>, low2: seq<real>, high2: seq<real>,
                             added': seq<real>)
    requires PartitionInvariant(low, high, added) && added' == added + [x]
    requires Values(low1, high1) == Values(low, high) + multiset{x} && |high1| > 0
    requires Partitioned(low2, high2) && Values(low2, high2) == Values(low1, high1) && |high2| > 0
    ensures PartitionInvariant(low2, high2, added')
    ensures |low2| + |high2| == |low| + |high| + 1
  {
    assert multiset(added + [x]) == multiset(added) + multiset{x};
  }

  /**
   * Moving the low partition's top (its largest value, stored negated) to
   * the high partition keeps the order and the values held.
   */
  lemma MoveLowTop(low: seq<real>, high: seq<real>, rest: seq<real>, high': seq<real>)
    requires Ordered(low, high) && IsHeap(low) && |low| - |high| == 2
    requires IsHeap(rest) && multiset(rest) == multiset(low) - multiset{low[0]}
    requires IsHeap(high') && multiset(high') == multiset(high) + multiset{-low[0]}
    ensures Partitioned(rest, high') && |high'| > 0
    ensures Values(rest, high') == Values(low, high)
    ensures RebalanceMove(low, high, rest, high')
  {
    assert low[0] in multiset(low);
    assert multiset(low) == multiset(rest) + multiset{low[0]};
    NegatedAdd(rest, low, low[0]);
    forall a, b | a in rest && b in high' ensures -a <= b {
      assert a in multiset(rest);
      assert a in low;
      assert b in multiset(high');
      if b != -low[0] {
        assert b in high;
      }
    }
  }

  /** Moving the high partition's top (its smallest value) to the low partition keeps the order and the values held. */
  lemma MoveHighTop(low: seq<real>, high: seq<real>, rest: seq<real>, low': seq<real>)
    requires Ordered(low, high) && IsHeap(high) && |high| - |low| == 2
    requires IsHeap(rest) && multiset(rest) == multiset(high) - multiset{high[0]}
    requires IsHeap(low') && multiset(low') == multiset(low) + multiset{-high[0]}
    ensures Partitioned(low', rest) && |rest| > 0
    ensures Values(low', rest) == Values(low, high)
    ensures RebalanceMove(low, high, low', rest)
  {
    assert high[0] in multiset(high);
    assert multiset(high) == multiset(rest) + multiset{high[0]};
    NegatedAdd(low, low', -high[0]);
    forall a, b | a in low' && b in rest ensures -a <= b {
      assert b in multiset(rest);
      assert b in high;
      assert a in multiset(low');
      if a != -high[0] {
        assert a in low;
        assert high[0] in high;
      }
    }
  }

  // ---------------------------------------------------------------------
  // The median read from the heap tops
  // ---------------------------------------------------------------------

  /**
   * The median as the engine reads it from the two heap tops: the mean of
   * both tops when the sizes are equal, else the top of the larger side.
   * With both partitions empty the tops do not exist (IndexError).
   */
  function MedianOf(low: seq<real>, high: seq<real>): (r: Option<real>)
    ensures r.None? <==> |low| == 0 && |high| == 0
  {
    if |low| == |high| then
      if |low| == 0 then None else Some((-low[0] + high[0]) / 2.0)
    else if |low| > |high| then Some(-low[0])
    else Some(high[0])
  }

  // ---------------------------------------------------------------------
  // The median of a multiset of values, by sorting
  // ---------------------------------------------------------------------

  predicate Sorted(s: seq<real>)
  {
    forall i, j :: 0 <= i < j < |s| ==> s[i] <= s[j]
  }

  /** `t` lists the values `m` in ascending order. */
  ghost predicate IsSortingOf(t: seq<real>, m: multiset<real>)
  {
    Sorted(t) && multiset(t) == m
  }

  /** The middle element of an odd-length sorted list, or the mean of the two middle ones. */
  function Middle(t: seq<real>): Option<real>
  {
    if |t| == 0 then None
    else if |t| % 2 == 1 then Some(t[|t| / 2])
    else Some((t[|t| / 2 - 1] + t[|t| / 2]) / 2.0)
  }

  /** Putting the head of a sorted list before a sorting of its tail and `x > head` sorts all of them. */
  lemma HeadBeforeInsertion(x: real, s: seq<real>, rest: seq<real>)
    requires Sorted(s) && |s| > 0 && s[0] < x
    requires IsSortingOf(rest, multiset(s[1..]) + multiset{x})
    ensures IsSortingOf([s[0]] + rest, multiset(s) + multiset{x})
  {
    assert s == [s[0]] + s[1..];
    forall j | 0 <= j < |rest| ensures s[0] <= rest[j] {
      assert rest[j] in multiset(s[1..]) + multiset{x};
      if rest[j] != x {
        assert rest[j] in s[1..];
      }
    }
  }

  function Insert(x: real, s: seq<real>): (r: seq<real>)
    requires Sorted(s)
    ensures IsSortingOf(r, multiset(s) + multiset{x})
  {
    if s == [] || x <= s[0] then [x] + s
    else
      var rest := Insert(x, s[1..]);
      HeadBeforeInsertion(x, s, rest);
      [s[0]] + rest
  }

  /** Insertion sort: every multiset of values has a sorted arrangement. */
  function Sort(s: seq<real>): (r: seq<real>)
    ensures IsSortingOf(r, multiset(s))
  {
    if s == [] then []
    else
      assert s == [s[0]] + s[1..];
      Insert(s[0], Sort(s[1..]))
  }

  /** Two sortings of the same non-empty multiset start with the same item, its least. */
  lemma SortedHeads(s: seq<real>, t: seq<real>)
    requires Sorted(s) && Sorted(t) && multiset(s) == multiset(t) && s != []
    ensures t != [] && s[0] == t[0]
  {
    assert s[0] in multiset(t);
    var i :| 0 <= i < |t| && t[i] == s[0];
    assert t[0] in multiset(s);
    var j :| 0 <= j < |s| && s[j] == t[0];
    assert t[0] <= t[i] by { if i > 0 { assert Sorted(t); } }
    assert s[0] <= s[j] by { if j > 0 { assert Sorted(s); } }
  }

  /** A multiset has only one sorted arrangement. */
  lemma {:induction false} SortedUnique(s: seq<real>, t: seq<real>)
    requires Sorted(s) && Sorted(t) && multiset(s) == multiset(t)
    ensures s == t
  {
    if s != [] {
      SortedHeads(s, t);
      assert s == [s[0]] + s[1..];
      assert t == [t[0]] + t[1..];
      assert multiset(s[1..]) == multiset(s) - multiset{s[0]};
      assert multiset(t[1..]) == multiset(t) - multiset{t[0]};
      SortedUnique(s[1..], t[1..]);
    }
  }

  /** The first of a sorting of a heap's items is the heap's top. */
  lemma FirstIsTop(t: seq<real>, h: seq<real>)
    requires Sorted(t) && IsHeap(h) && |h| > 0 && multiset(t) == multiset(h)
    ensures |t| > 0 && t[0] == h[0]
  {
    assert h[0] in multiset(t);
    var i :| 0 <= i < |t| && t[i] == h[0];
    assert t[0] <= t[i];
    assert t[0] in multiset(h);
    assert t[0] in h;
  }

  /** The last of a sorting of the values of a negated heap is its top, negated. */
  lemma LastIsNegatedTop(t: seq<real>, low: seq<real>)
    requires Sorted(t) && IsHeap(low) && |low| > 0 && multiset(t) == multiset(Negated(low))
    ensures |t| > 0 && t[|t| - 1] == -low[0]
  {
    NegatedTopIsMax(low);
    assert -low[0] in multiset(t);
    var i :| 0 <= i < |t| && t[i] == -low[0];
    assert t[i] <= t[|t| - 1];
    assert t[|t| - 1] in multiset(Negated(low));
    assert t[|t| - 1] in Negated(low);
  }

  lemma SortedConcat(a: seq<real>, b: seq<real>)
    requires Sorted(a) && Sorted(b)
    requires forall x, y :: x in a && y in b ==> x <= y
    ensures Sorted(a + b)
  {
    forall i, j | 0 <= i < j < |a + b| ensures (a + b)[i] <= (a + b)[j] {
      if i < |a| && j >= |a| {
        assert (a + b)[i] in a && (a + b)[j] in b;
      }
    }
  }

  /** The sorted low values followed by the sorted high values are a sorting of all values held. */
  lemma SortedHalves(low: seq<real>, high: seq<real>, sL: seq<real>, sH: seq<real>)
    requires Ordered(low, high)
    requires IsSortingOf(sL, multiset(Negated(low))) && IsSortingOf(sH, multiset(high))
    ensures IsSortingOf(sL + sH, Values(low, high))
  {
    forall x, y | x in sL && y in sH ensures x <= y {
      assert x in multiset(Negated(low));
      NegatedMember(low, x);
      assert -x in low;
      assert y in multiset(high);
      assert y in high;
      assert -(-x) <= y;
    }
    SortedConcat(sL, sH);
    assert multiset(sL + sH) == multiset(sL) + multiset(sH);
  }

  lemma MedianOfSorting(low: seq<real>, high: seq<real>, sL: seq<real>, sH: seq<real>, t: seq<real>)
    requires IsHeap(low) && IsHeap(high) && Ordered(low, high) && Balanced(low, high)
    requires IsSortingOf(sL, multiset(Negated(low))) && IsSortingOf(sH, multiset(high))
    requires IsSortingOf(t, Values(low, high))
    ensures MedianOf(low, high) == Middle(t)
  {
    SortedHalves(low, high, sL, sH);
    SortedUnique(t, sL + sH);
    var k, h := |low|, |high|;
    assert |sL| == |multiset(Negated(low))| == k;
    assert |sH| == |multiset(high)| == h;
    if k > 0 { LastIsNegatedTop(sL, low); }
    if h > 0 { FirstIsTop(sH, high); }
    if k == h && k > 0 {
      assert t[|t| / 2 - 1] == sL[k - 1] && t[|t| / 2] == sH[0];
    } else if k == h + 1 {
      assert t[|t| / 2] == sL[k - 1];
    } else if h == k + 1 {
      assert t[|t| / 2] == sH[0];
    }
  }

  /**
   * Under the partition invariants, the median read from the heap tops is
   * the middle of the sorted values held (the mean of the two middle ones
   * for an even count), and there is none when nothing is held.
   */
  lemma MedianIsMiddle(low: seq<real>, high: seq<real>)
    requires IsHeap(low) && IsHeap(high) && Ordered(low, high) && Balanced(low, high)
    ensures forall t :: IsSortingOf(t, Values(low, high)) ==> MedianOf(low, high) == Middle(t)
  {
    forall t | IsSortingOf(t, Values(low, high)) ensures MedianOf(low, high) == Middle(t) {
      MedianOfSorting(low, high, Sort(Negated(low)), Sort(high), t);
    }
  }
}
