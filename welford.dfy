/**
 * Closed-form definitions of the running mean and the sum of squared
 * deviations, and the proof that Welford's recurrence computes them exactly
 * when the arithmetic is exact.
 */
module Welford {

  /** The sum of the values. */
  function Sum(s: seq<real>): real
  {
    if s == [] then 0.0 else Sum(s[..|s| - 1]) + s[|s| - 1]
  }

  /** The arithmetic mean of a non-empty stream. */
  function Average(s: seq<real>): real
    requires |s| > 0
  {
    Sum(s) / (|s| as real)
  }

  /** The square of a deviation. */
  function Square(d: real): real
  {
    d * d
  }

  /** The sum of the squared deviations of the values from `m`. */
  function SquaresAbout(s: seq<real>, m: real): real
  {
    if s == [] then 0.0 else SquaresAbout(s[..|s| - 1], m) + Square(s[|s| - 1] - m)
  }

  /** Welford's M2: the sum of the squared deviations from the stream's own mean. */
  function SquaredDeviations(s: seq<real>): real
    requires |s| > 0
  {
    SquaresAbout(s, Average(s))
  }

  /**
   * What the engine's four accumulators hold for the values `s` seen since
   * the last reseed: the mean in old_m and new_m, M2 in old_s, and M2 in new_s
   * too once a second value has arrived (the first value reseeds old_s only).
   */
  ghost predicate Tracks(s: seq<real>, oldM: real, oldS: real, newM: real, newS: real)
  {
    |s| >= 1 ==>
      && oldM == Average(s) && newM == oldM
      && oldS == SquaredDeviations(s)
      && (|s| >= 2 ==> newS == oldS)
  }

  lemma {:induction false} SumAppend(s: seq<real>, x: real)
    ensures Sum(s + [x]) == Sum(s) + x
  {
    assert (s + [x])[..|s|] == s;
  }

  lemma {:induction false} AverageAppend(s: seq<real>, x: real)
    ensures Average(s + [x]) == (Sum(s) + x) / (|s| as real + 1.0)
  {
    SumAppend(s, x);
  }

  lemma {:induction false} SquaresAboutAppend(s: seq<real>, m: real, x: real)
    ensures SquaresAbout(s + [x], m) == SquaresAbout(s, m) + Square(x - m)
  {
    assert (s + [x])[..|s|] == s;
  }

  /**
   * How much M2 about `c` exceeds M2 about `mu`, for values whose sum is `a`
   * and whose count is `k`.
   */
  function ShiftTerm(a: real, k: real, c: real, mu: real): real
  {
    (mu - c) * (2.0 * a - k * (c + mu))
  }

  /** One step of the shift formula below, as algebra. */
  lemma ShiftStep(dc: real, dmu: real, a: real, k: real, y: real, c: real, mu: real, a': real, k': real)
    requires dc == dmu + ShiftTerm(a, k, c, mu)
    requires a' == a + y && k' == k + 1.0
    ensures dc + Square(y - c) == dmu + Square(y - mu) + ShiftTerm(a', k', c, mu)
  {
  }

  /**
   * Moving the centre of M2 from `mu` to `c` adds a term that depends only on
   * the sum and the count of the values.
   */
  lemma {:induction false} Shift(s: seq<real>, c: real, mu: real)
    ensures SquaresAbout(s, c) == SquaresAbout(s, mu) + ShiftTerm(Sum(s), |s| as real, c, mu)
  {
    if s != [] {
      var p, y := s[..|s| - 1], s[|s| - 1];
      Shift(p, c, mu);
      ShiftStep(SquaresAbout(p, c), SquaresAbout(p, mu), Sum(p), |p| as real, y, c, mu, Sum(s), |s| as real);
    }
  }

  /** A sum of squares is never negative. */
  lemma {:induction false} SquaresAboutNonNegative(s: seq<real>, m: real)
    ensures SquaresAbout(s, m) >= 0.0
  {
    if s != [] {
      var d := s[|s| - 1] - m;
      SquaresAboutNonNegative(s[..|s| - 1], m);
      assert d * d >= 0.0 by {
        if d < 0.0 { assert d * d == (-d) * (-d); }
      }
    }
  }

  /** The first value of a stream is its own mean and has no spread. */
  lemma Seed(x: real)
    ensures Average([x]) == x && SquaredDeviations([x]) == 0.0
  {
    assert [x][..0] == [];
    assert Sum([x]) == x;
    assert SquaresAbout([x], x) == 0.0;
  }

  /** The mean update, as algebra over the sum `a` and count `k` of earlier values. */
  lemma MeanUpdate(a: real, k: real, x: real, m: real, m2: real)
    requires k >= 1.0 && m == a / k && m2 == (a + x) / (k + 1.0)
    ensures a == k * m
    ensures m2 == m + (x - m) / (k + 1.0)
    ensures (k + 1.0) * (m2 - m) == x - m
  {
  }

  /**
   * The mean of `s + [x]` moves from the mean of `s` by `(x - mean) / (n + 1)`;
   * scaled by the new count, that step is the deviation of `x` from the old mean.
   */
  lemma {:induction false} MeanStep(s: seq<real>, x: real)
    requires |s| >= 1
    ensures Average(s) + (x - Average(s)) / (|s| as real + 1.0) == Average(s + [x])
    ensures (|s| as real + 1.0) * (Average(s + [x]) - Average(s)) == x - Average(s)
  {
    AverageAppend(s, x);
    MeanUpdate(Sum(s), |s| as real, x, Average(s), Average(s + [x]));
  }

  /** What `k` values contribute to M2 about `c` beyond their M2 about their mean `m`. */
  function Spread(k: real, c: real, m: real): real
  {
    k * (c - m) * (c - m)
  }

  /** M2 about any centre `c` exceeds M2 about the mean by `n * (c - mean)^2`. */
  lemma {:induction false} ShiftFromMean(s: seq<real>, c: real)
    requires |s| >= 1
    ensures SquaresAbout(s, c) == SquaredDeviations(s) + Spread(|s| as real, c, Average(s))
  {
    var a, k, m := Sum(s), |s| as real, Average(s);
    var dev, devC := SquaredDeviations(s), SquaresAbout(s, c);
    CountTimesAverage(s);
    assert a == k * m;
    Shift(s, c, m);
    assert devC == dev + ShiftTerm(a, k, c, m);
    ShiftAlgebra(a, k, m, c, dev, devC);
  }

  /** The count times the mean gives back the sum. */
  lemma CountTimesAverage(s: seq<real>)
    requires |s| > 0
    ensures (|s| as real) * Average(s) == Sum(s)
  {
  }

  lemma ShiftAlgebra(a: real, k: real, m: real, c: real, dev: real, devC: real)
    requires a == k * m
    requires devC == dev + ShiftTerm(a, k, c, m)
    ensures devC == dev + Spread(k, c, m)
  {
  }

  /**
   * The algebra of the M2 update: with the mean moving from `m` to `m2`,
   * M2 about the new mean, plus `x`'s own term, is the old M2 plus
   * `(x - m) * (x - m2)`.
   */
  lemma SquaresAlgebra(k: real, m: real, m2: real, x: real, sd: real, dev: real, sd2: real)
    requires (k + 1.0) * (m2 - m) == x - m
    requires dev == sd + Spread(k, m2, m)
    requires sd2 == dev + Square(x - m2)
    ensures sd + (x - m) * (x - m2) == sd2
  {
    assert x - m2 == k * (m2 - m);
  }

  /** Welford's M2 update is exact: it yields the sum of squared deviations of `s + [x]`. */
  lemma {:induction false} SquaresStep(s: seq<real>, x: real)
    requires |s| >= 1
    ensures SquaredDeviations(s) + (x - Average(s)) * (x - Average(s + [x]))
            == SquaredDeviations(s + [x])
  {
    var m, m2 := Average(s), Average(s + [x]);
    var sd, dev, sd2 := SquaredDeviations(s), SquaresAbout(s, m2), SquaredDeviations(s + [x]);
    MeanStep(s, x);
    ShiftFromMean(s, m2);
    SquaresAboutAppend(s, m2, x);
    SquaresAlgebra(|s| as real, m, m2, x, sd, dev, sd2);
  }

  /**
   * Welford's recurrence is exact: from the mean and M2 of `s`, the update
   * for one more value `x` yields the mean and M2 of `s + [x]`.
   */
  lemma {:induction false} WelfordStep(s: seq<real>, x: real)
    requires |s| >= 1
    ensures Average(s) + (x - Average(s)) / (|s| as real + 1.0) == Average(s + [x])
    ensures SquaredDeviations(s) + (x - Average(s)) * (x - Average(s + [x]))
            == SquaredDeviations(s + [x])
  {
    MeanStep(s, x);
    SquaresStep(s, x);
  }

  /** The first value after construction or a flush reseeds the accumulators (new_s is left as it was). */
  lemma TracksSeed(x: real, newS: real)
    ensures Tracks([x], x, 0.0, x, newS)
  {
    Seed(x);
  }

  /** One more value, folded in by Welford's update, keeps the accumulators tracking the values seen. */
  lemma {:induction false} TracksAdd(s: seq<real>, x: real, oldM: real, oldS: real, newM: real, newS: real, m': real, s': real)
    requires |s| >= 1 && Tracks(s, oldM, oldS, newM, newS)
    requires m' == oldM + (x - oldM) / (|s| as real + 1.0)
    requires s' == oldS + (x - oldM) * (x - m')
    ensures Tracks(s + [x], m', s', m', s')
  {
    WelfordStep(s, x);
  }
}
