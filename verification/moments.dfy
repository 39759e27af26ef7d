/** The moments `updateStats` (lib/genetical.js) reports: the mean and the
    population variance, with the algebra that relates them. */
module Moments {
  import opened Numbers

  /** Sum of squared deviations from `m`. */
  function SquaredDiffs(m: real, xs: seq<real>): real
  {
    if |xs| == 0 then 0.0 else (m - xs[0]) * (m - xs[0]) + SquaredDiffs(m, xs[1..])
  }

  function SumSquares(xs: seq<real>): real
  {
    if |xs| == 0 then 0.0 else xs[0] * xs[0] + SumSquares(xs[1..])
  }

  /** The arithmetic mean: N times it is the total. */
  function Mean(xs: seq<real>): (m: real)
    requires |xs| > 0
    ensures m * (|xs| as real) == Sum(xs)
  {
    DivThenMul(Sum(xs), |xs| as real);
    Sum(xs) / (|xs| as real)
  }

  /** The population variance (divisor N, not N - 1): N times it is the sum
      of squared deviations from the mean. */
  function Variance(xs: seq<real>): (v: real)
    requires |xs| > 0
    ensures v * (|xs| as real) == SquaredDiffs(Mean(xs), xs)
  {
    DivThenMul(SquaredDiffs(Mean(xs), xs), |xs| as real);
    SquaredDiffs(Mean(xs), xs) / (|xs| as real)
  }

  /** `ss - 2 m sum + n m^2`: the sum of squared deviations from `m` of `n`
      values with total `sum` and sum of squares `ss`. */
  function Expanded(ss: real, m: real, sum: real, n: real): real
  {
    ss - 2.0 * m * sum + n * (m * m)
  }

  /** One step of expanding the squares, on plain reals. */
  lemma ExpandStep(m: real, x: real, s: real, ss: real, n: real)
    ensures (m - x) * (m - x) + (ss - 2.0 * m * s + n * (m * m))
         == (x * x + ss) - 2.0 * m * (x + s) + (n + 1.0) * (m * m)
  {
  }

  lemma ExpandAlgebra(m: real, x: real, s: real, ss: real, n: real, sdRest: real, sd: real, sumSq: real, sum: real, len: real)
    requires sdRest == Expanded(ss, m, s, n)
    requires sd == (m - x) * (m - x) + sdRest
    requires sumSq == x * x + ss && sum == x + s && len == n + 1.0
    ensures sd == Expanded(sumSq, m, sum, len)
  {
    ExpandStep(m, x, s, ss, n);
  }

  /** Expanding the squares: the sum of squared deviations from any `m`. */
  lemma {:induction false} SquaredDiffsExpand(m: real, xs: seq<real>)
    ensures SquaredDiffs(m, xs) == Expanded(SumSquares(xs), m, Sum(xs), |xs| as real)
  {
    if |xs| > 0 {
      var rest := xs[1..];
      SquaredDiffsExpand(m, rest);
      ExpandAlgebra(m, xs[0], Sum(rest), SumSquares(rest), |rest| as real,
        SquaredDiffs(m, rest), SquaredDiffs(m, xs), SumSquares(xs), Sum(xs), |xs| as real);
    }
  }

  lemma VarianceAlgebra(v: real, ss: real, m: real, n: real, sd: real, sum: real)
    requires n != 0.0
    requires sd == Expanded(ss, m, sum, n)
    requires m * n == sum && v * n == sd
    ensures v == ss / n - m * m
  {
    assert v * n == ss - n * (m * m);
    assert (ss / n) * n == ss;
    assert (v - (ss / n - m * m)) * n == 0.0;
  }

  /** The population variance is the mean of the squares minus the square of
      the mean, for any pair meeting the two defining equations. */
  lemma VarianceFromMoments(xs: seq<real>, m: real, v: real)
    requires |xs| > 0
    requires m * (|xs| as real) == Sum(xs)
    requires v * (|xs| as real) == SquaredDiffs(m, xs)
    ensures v == SumSquares(xs) / (|xs| as real) - m * m
  {
    SquaredDiffsExpand(m, xs);
    VarianceAlgebra(v, SumSquares(xs), m, |xs| as real, SquaredDiffs(m, xs), Sum(xs));
  }

  lemma MulCancels(a: real, b: real, n: real)
    requires n != 0.0 && a * n == b * n
    ensures a == b
  {
    assert (a - b) * n == 0.0;
  }

  lemma SquareZero(d: real)
    ensures 0.0 <= d * d
    ensures d == 0.0 ==> d * d == 0.0
  {
    if d < 0.0 {
      var e := -d;
      assert 0.0 < e * e;
      assert d * d == e * e;
    }
  }

  lemma {:induction false} UniformSquaredDiffsZero(m: real, xs: seq<real>)
    requires forall i :: 0 <= i < |xs| ==> xs[i] == m
    ensures SquaredDiffs(m, xs) == 0.0
  {
    if |xs| > 0 {
      var rest := xs[1..];
      assert forall i :: 0 <= i < |rest| ==> rest[i] == xs[i + 1];
      UniformSquaredDiffsZero(m, rest);
      SquareZero(m - xs[0]);
    }
  }

  lemma {:induction false} SquaredDiffsNonNegative(m: real, xs: seq<real>)
    ensures 0.0 <= SquaredDiffs(m, xs)
  {
    if |xs| > 0 {
      SquaredDiffsNonNegative(m, xs[1..]);
      SquareZero(m - xs[0]);
    }
  }

  lemma NonNegativeQuotient(v: real, n: real, q: real)
    requires 0.0 < n && 0.0 <= q && v * n == q
    ensures 0.0 <= v
  {
  }

  /** The population variance is never negative. */
  lemma VarianceNonNegative(xs: seq<real>)
    requires |xs| > 0
    ensures 0.0 <= Variance(xs)
  {
    SquaredDiffsNonNegative(Mean(xs), xs);
    NonNegativeQuotient(Variance(xs), |xs| as real, SquaredDiffs(Mean(xs), xs));
  }

  /** When all scores are equal the mean is that score and the variance
      is zero. */
  lemma UniformMoments(xs: seq<real>)
    requires |xs| > 0
    requires forall i :: 0 <= i < |xs| ==> xs[i] == xs[0]
    ensures Mean(xs) == xs[0]
    ensures Variance(xs) == 0.0
  {
    var n := |xs| as real;
    SumOfUniform(xs);
    MulCancels(Mean(xs), xs[0], n);
    UniformSquaredDiffsZero(Mean(xs), xs);
    ZeroQuotient(Variance(xs), n);
  }

  lemma ZeroQuotient(v: real, n: real)
    requires n != 0.0 && v * n == 0.0
    ensures v == 0.0
  {
    if v != 0.0 {
      MulZero(v, n);
    }
  }

  lemma MulZero(a: real, n: real)
    requires a != 0.0 && n != 0.0
    ensures a * n != 0.0
  {
  }

  lemma {:induction false} SumOfUniform(xs: seq<real>)
    requires |xs| > 0 && forall i :: 0 <= i < |xs| ==> xs[i] == xs[0]
    ensures Sum(xs) == xs[0] * (|xs| as real)
  {
    if |xs| > 1 {
      assert forall i :: 0 <= i < |xs[1..]| ==> xs[1..][i] == xs[1..][0];
      SumOfUniform(xs[1..]);
      DistributeOne(xs[0], |xs[1..]| as real);
    }
  }

  lemma DistributeOne(a: real, n: real)
    ensures a * n + a == a * (n + 1.0)
  {
  }

  lemma {:induction false} SumBounds(xs: seq<real>, lo: real, hi: real)
    requires forall i :: 0 <= i < |xs| ==> lo <= xs[i] <= hi
    ensures lo * (|xs| as real) <= Sum(xs) <= hi * (|xs| as real)
  {
    if |xs| > 0 {
      SumBounds(xs[1..], lo, hi);
      DistributeOne(lo, |xs[1..]| as real);
      DistributeOne(hi, |xs[1..]| as real);
    }
  }

  lemma ScaleBounds(lo: real, m: real, hi: real, n: real, sum: real)
    requires 0.0 < n && lo * n <= sum <= hi * n && m * n == sum
    ensures lo <= m <= hi
  {
    assert (m - lo) * n >= 0.0;
    assert (hi - m) * n >= 0.0;
  }

  /** The mean of values within [lo, hi] is within [lo, hi]. */
  lemma MeanWithin(xs: seq<real>, lo: real, hi: real)
    requires |xs| > 0
    requires forall i :: 0 <= i < |xs| ==> lo <= xs[i] <= hi
    ensures lo <= Mean(xs) <= hi
  {
    SumBounds(xs, lo, hi);
    ScaleBounds(lo, Mean(xs), hi, |xs| as real, Sum(xs));
  }

}
