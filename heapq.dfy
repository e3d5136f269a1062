/**
 * The part of Python's `heapq` module the statistics engine relies on.
 *
 * Only heapq's public guarantee is modelled: a heap is a list whose item at
 * index 0 is its smallest; `heappush` adds one item and `heappop` removes and
 * returns the smallest, and both leave a heap behind. The sift algorithms
 * that heapq uses to keep its full binary-heap layout are not modelled, so the
 * order of the items after index 0 may differ from heapq's.
 */
module Heapq {

  /** heap[0] is the smallest item of a non-empty heap. */
  predicate IsHeap(h: seq<real>)
  {
    forall i :: 0 <= i < |h| ==> h[0] <= h[i]
  }

  /** The position of a smallest item of a non-empty list. */
  function MinIndex(s: seq<real>): (k: nat)
    requires |s| > 0
    ensures k < |s|
    ensures forall i :: 0 <= i < |s| ==> s[k] <= s[i]
  {
    if |s| == 1 then 0
    else
      var k := MinIndex(s[1..]);
      if s[0] <= s[k + 1] then 0 else k + 1
  }

  /** heappush: the heap gains exactly one copy of `x` and stays a heap. */
  method Push(h: seq<real>, x: real) returns (r: seq<real>)
    requires IsHeap(h)
    ensures IsHeap(r) && |r| == |h| + 1
    ensures multiset(r) == multiset(h) + multiset{x}
  {
    if |h| == 0 || x < h[0] {
      r := [x] + h;
    } else {
      r := h + [x];
    }
  }

  /** Bringing a smallest item to the front of a list makes a heap of the same items. */
  lemma MinToFront(s: seq<real>, k: nat)
    requires k < |s| && forall i :: 0 <= i < |s| ==> s[k] <= s[i]
    ensures IsHeap([s[k]] + s[..k] + s[k + 1..])
    ensures multiset([s[k]] + s[..k] + s[k + 1..]) == multiset(s)
  {
    var t := [s[k]] + s[..k] + s[k + 1..];
    forall i | 0 <= i < |t| ensures t[0] <= t[i] {
      if 0 < i <= k {
        assert t[i] == s[i - 1];
      } else if k < i {
        assert t[i] == s[i];
      }
    }
    assert s == s[..k] + [s[k]] + s[k + 1..];
  }

  /**
   * heappop: returns the smallest item of a non-empty heap and the heap with
   * one copy of that item removed.
   */
  method Pop(h: seq<real>) returns (top: real, rest: seq<real>)
    requires IsHeap(h) && |h| > 0
    ensures top == h[0] && forall i :: 0 <= i < |h| ==> top <= h[i]
    ensures IsHeap(rest) && |rest| == |h| - 1
    ensures multiset(rest) == multiset(h) - multiset{top}
  {
    top := h[0];
    var tail := h[1..];
    assert h == [h[0]] + tail;
    if |tail| == 0 {
      rest := [];
    } else {
      var k := MinIndex(tail);
      MinToFront(tail, k);
      rest := [tail[k]] + tail[..k] + tail[k + 1..];
    }
  }
}
