// Sums, means and population variances over exact reals, with the inequalities that
// decide when a windowed detector can fire.
module Statistics {

  function Square(x: real): real { x * x }

  ghost function Sum(s: seq<real>): real {
    if s == [] then 0.0 else Sum(s[..|s| - 1]) + s[|s| - 1]
  }

  ghost function SumSquares(s: seq<real>): real {
    if s == [] then 0.0 else SumSquares(s[..|s| - 1]) + Square(s[|s| - 1])
  }

  /** Sum of squared deviations from `mu`. */
  ghost function Deviation(s: seq<real>, mu: real): real {
    if s == [] then 0.0
    else Deviation(s[..|s| - 1], mu) + Square(s[|s| - 1] - mu)
  }

  function Ratio(x: real, n: real): real
    requires n > 0.0
  {
    x / n
  }

  ghost function Mean(s: seq<real>): real
    requires s != []
  {
    Ratio(Sum(s), |s| as real)
  }

  ghost function Variance(s: seq<real>): real
    requires s != []
  {
    Ratio(Deviation(s, Mean(s)), |s| as real)
  }

  /** Mean of squares minus square of mean. */
  function OnePass(n: real, sum: real, squares: real): real
    requires n > 0.0
  {
    Ratio(squares, n) - Ratio(sum, n) * Ratio(sum, n)
  }

  ghost function Expanded(n: real, mu: real, sum: real, squares: real): real {
    squares - 2.0 * mu * sum + n * (mu * mu)
  }

  lemma {:induction false} DeviationExpands(s: seq<real>, mu: real)
    ensures Deviation(s, mu) == Expanded(|s| as real, mu, Sum(s), SumSquares(s))
  {
    if s != [] {
      hide Expanded, Square;
      var rest, x := s[..|s| - 1], s[|s| - 1];
      DeviationExpands(rest, mu);
      ExpandStep(|rest| as real, mu, Sum(rest), SumSquares(rest), x);
    }
  }

  lemma ExpandStep(n: real, mu: real, sum: real, squares: real, x: real)
    ensures Expanded(n + 1.0, mu, sum + x, squares + Square(x)) == Expanded(n, mu, sum, squares) + Square(x - mu)
  {
  }

  /** The one-pass formula computes the variance. */
  lemma OnePassVariance(s: seq<real>)
    requires s != []
    ensures OnePass(|s| as real, Sum(s), SumSquares(s)) == Variance(s)
  {
    DeviationExpands(s, Mean(s));
    DivideOut(|s| as real, Sum(s), SumSquares(s));
  }

  lemma DivideOut(n: real, sum: real, squares: real)
    requires n > 0.0
    ensures OnePass(n, sum, squares) == Ratio(Expanded(n, Ratio(sum, n), sum, squares), n)
  {
    var mu := sum / n;
    assert sum == n * mu;
    assert 2.0 * mu * sum == 2.0 * (n * (mu * mu));
    assert Expanded(n, mu, sum, squares) == squares - n * (mu * mu);
    assert (n * (mu * mu)) / n == mu * mu;
  }

  lemma {:induction false} DeviationNonNegative(s: seq<real>, mu: real)
    ensures Deviation(s, mu) >= 0.0
  {
    if s != [] {
      hide Square;
      DeviationNonNegative(s[..|s| - 1], mu);
      SquareNonNegative(s[|s| - 1] - mu);
    }
  }

  lemma SquareNonNegative(x: real)
    ensures Square(x) >= 0.0
  {
  }

  // ----- Bhatia-Davis and Popoviciu -----

  ghost predicate Within(s: seq<real>, low: real, high: real) {
    forall i | 0 <= i < |s| :: low <= s[i] <= high
  }

  ghost function Chord(n: real, sum: real, low: real, high: real): real {
    (high + low) * sum - n * (high * low)
  }

  lemma {:induction false} SquaresBelowChord(s: seq<real>, low: real, high: real)
    requires Within(s, low, high)
    ensures SumSquares(s) <= Chord(|s| as real, Sum(s), low, high)
  {
    if s != [] {
      hide Chord, Square;
      SquaresBelowChord(s[..|s| - 1], low, high);
      ChordStep(s[|s| - 1], low, high);
      ChordGrows(|s| as real - 1.0, Sum(s[..|s| - 1]), s[|s| - 1], low, high);
    }
  }

  lemma ChordStep(x: real, low: real, high: real)
    requires low <= x <= high
    ensures Square(x) <= Chord(1.0, x, low, high)
  {
    assert (high - x) * (x - low) >= 0.0;
  }

  lemma ChordGrows(n: real, sum: real, x: real, low: real, high: real)
    ensures Chord(n + 1.0, sum + x, low, high) == Chord(n, sum, low, high) + Chord(1.0, x, low, high)
  {
  }

  lemma VarianceNonNegative(s: seq<real>)
    requires s != []
    ensures Variance(s) >= 0.0
  {
    DeviationNonNegative(s, Mean(s));
  }

  lemma MeanIs(s: seq<real>)
    requires s != []
    ensures Mean(s) == Ratio(Sum(s), |s| as real)
  {
  }

  ghost function Spread(mu: real, low: real, high: real): real {
    (high - mu) * (mu - low)
  }

  /** Bhatia-Davis: variance is at most (high - mean) * (mean - low). */
  lemma VarianceBelowSpread(s: seq<real>, low: real, high: real)
    requires s != [] && Within(s, low, high)
    ensures 0.0 <= Variance(s) <= Spread(Mean(s), low, high)
  {
    hide *;
    MeanIs(s);
    VarianceNonNegative(s);
    SquaresBelowChord(s, low, high);
    OnePassVariance(s);
    RangeStep(|s| as real, Sum(s), SumSquares(s), low, high);
  }

  /** Popoviciu: variance is at most a quarter of the squared range. */
  lemma VarianceBelowRange(s: seq<real>, low: real, high: real)
    requires s != [] && Within(s, low, high)
    ensures 4.0 * Variance(s) <= Square(high - low)
  {
    hide *;
    VarianceBelowSpread(s, low, high);
    QuarterStep(Mean(s), low, high);
  }

  lemma RangeStep(n: real, sum: real, squares: real, low: real, high: real)
    requires n > 0.0 && squares <= Chord(n, sum, low, high)
    ensures OnePass(n, sum, squares) <= Spread(Ratio(sum, n), low, high)
  {
    var mu := sum / n;
    assert sum == n * mu;
    assert Chord(n, sum, low, high) / n == (high + low) * mu - high * low;
    DivideInequality(squares, Chord(n, sum, low, high), n);
  }

  lemma DivideInequality(x: real, y: real, n: real)
    requires x <= y && n > 0.0
    ensures x / n <= y / n
  {
  }

  lemma QuarterStep(mu: real, low: real, high: real)
    ensures 4.0 * Spread(mu, low, high) <= Square(high - low)
  {
    var x, y := high - mu, mu - low;
    assert (x - y) * (x - y) >= 0.0;
    assert (x + y) * (x + y) == (x - y) * (x - y) + 4.0 * (x * y);
  }

  // ----- Samuelson -----

  /** Sum of deviations from `mu`. */
  ghost function Drift(s: seq<real>, mu: real): real {
    if s == [] then 0.0 else Drift(s[..|s| - 1], mu) + (s[|s| - 1] - mu)
  }

  lemma {:induction false} DriftIs(s: seq<real>, mu: real)
    ensures Drift(s, mu) == Sum(s) - |s| as real * mu
  {
    if s != [] {
      DriftIs(s[..|s| - 1], mu);
      assert |s| as real * mu == (|s| - 1) as real * mu + mu;
    }
  }

  /** Cauchy-Schwarz against the all-ones vector: (sum of deviations)^2 <= n * sum of squared deviations. */
  lemma {:induction false} DriftSquared(s: seq<real>, mu: real)
    ensures CauchyBound(|s| as real, Drift(s, mu), Deviation(s, mu))
  {
    if s != [] {
      hide CauchyBound, Square;
      var rest, y := s[..|s| - 1], s[|s| - 1] - mu;
      DriftSquared(rest, mu);
      DeviationNonNegative(rest, mu);
      CauchyStep(|rest| as real, Drift(rest, mu), Deviation(rest, mu), y);
    }
  }

  ghost predicate CauchyBound(n: real, x: real, q: real) {
    (n == 0.0 ==> x == 0.0) && x * x <= n * q
  }

  lemma CauchyStep(n: real, x: real, q: real, y: real)
    requires n >= 0.0 && q >= 0.0 && CauchyBound(n, x, q)
    ensures CauchyBound(n + 1.0, x + y, q + Square(y))
  {
    if n > 0.0 {
      SquareNonNegative(x - n * y);
      assert (x - n * y) * (x - n * y) == x * x - 2.0 * (n * (x * y)) + n * n * (y * y);
      assert 2.0 * (n * (x * y)) <= n * q + n * n * (y * y);
      CancelFactor(n, 2.0 * (x * y), q + n * (y * y));
      assert (x + y) * (x + y) == x * x + 2.0 * (x * y) + y * y;
    }
  }

  lemma CancelFactor(n: real, x: real, y: real)
    requires n > 0.0 && n * x <= n * y
    ensures x <= y
  {
  }

  /** The newest sample is at most sqrt(n - 1) standard deviations from the mean. */
  lemma Samuelson(s: seq<real>)
    requires s != []
    ensures Square(s[|s| - 1] - Mean(s)) <= (|s| as real - 1.0) * Variance(s)
  {
    hide CauchyBound, Square, Ratio;
    var mu, rest := Mean(s), s[..|s| - 1];
    DriftIs(s, mu);
    MeanBalances(|s| as real, Sum(s));
    DriftSquared(rest, mu);
    assert Drift(rest, mu) == -(s[|s| - 1] - mu);
    SamuelsonStep(|s| as real, s[|s| - 1] - mu, Deviation(rest, mu));
    assert Deviation(s, mu) == Deviation(rest, mu) + Square(s[|s| - 1] - mu);
  }

  lemma MeanBalances(n: real, sum: real)
    requires n > 0.0
    ensures sum - n * Ratio(sum, n) == 0.0
  {
  }

  lemma SamuelsonStep(n: real, d: real, rest: real)
    requires n >= 1.0 && CauchyBound(n - 1.0, -d, rest)
    ensures Square(d) <= (n - 1.0) * Ratio(rest + Square(d), n)
  {
    var v := Ratio(rest + Square(d), n);
    assert rest + d * d == n * v;
    assert n * (d * d) <= (n - 1.0) * (rest + d * d);
    CancelFactor(n, d * d, (n - 1.0) * v);
  }

  // ----- Small and extreme windows -----

  /** Two samples: the mean lies half-way, and the deviation is half their distance. */
  lemma TwoSamples(x: real, y: real)
    ensures Mean([x, y]) == (x + y) / 2.0
    ensures Variance([x, y]) == (x - y) / 2.0 * ((x - y) / 2.0)
  {
    var mu := (x + y) / 2.0;
    assert [x, y][..1] == [x] && [x][..0] == [];
    assert Sum([x]) == x && Deviation([x], mu) == Square(x - mu);
    assert Sum([x, y]) == x + y;
    assert Deviation([x, y], mu) == Square(x - mu) + Square(y - mu);
  }

  lemma {:induction false} ConstantSums(s: seq<real>, u: real, mu: real)
    requires forall i | 0 <= i < |s| :: s[i] == u
    ensures Sum(s) == |s| as real * u && Deviation(s, mu) == |s| as real * Square(u - mu)
  {
    if s != [] {
      hide Square;
      ConstantSums(s[..|s| - 1], u, mu);
      DistributeOne(|s| as real, u);
      DistributeOne(|s| as real, Square(u - mu));
    }
  }

  lemma DistributeOne(n: real, x: real)
    ensures n * x == (n - 1.0) * x + x
  {
  }

  /** Samuelson's bound is attained when all samples but the newest are equal. */
  lemma OutlierWindow(s: seq<real>, u: real)
    requires |s| >= 2 && s[|s| - 1] != u && forall i | 0 <= i < |s| - 1 :: s[i] == u
    ensures Variance(s) > 0.0
    ensures Square(s[|s| - 1] - Mean(s)) == (|s| as real - 1.0) * Variance(s)
  {
    var rest := s[..|s| - 1];
    ConstantSums(rest, u, Mean(s));
    hide Square, Ratio;
    OutlierStep(|s| as real, u, s[|s| - 1], Mean(s), Variance(s));
  }

  lemma OutlierStep(n: real, u: real, x: real, mu: real, v: real)
    requires n >= 2.0 && x != u
    requires mu == Ratio((n - 1.0) * u + x, n)
    requires v == Ratio((n - 1.0) * Square(u - mu) + Square(x - mu), n)
    ensures v > 0.0 && Square(x - mu) == (n - 1.0) * v
  {
    var d, k := u - mu, n - 1.0;
    assert n * mu == k * u + x;
    assert x - mu == -(k * d) by { assert k * d == k * u - k * mu; }
    OutlierSquares(n, k, d, x - mu, v);
  }

  lemma OutlierSquares(n: real, k: real, d: real, f: real, v: real)
    requires n >= 2.0 && k == n - 1.0 && f == -(k * d) && v == Ratio(k * Square(d) + Square(f), n)
    requires d != 0.0
    ensures v > 0.0 && Square(f) == k * v
  {
    var q := d * d;
    assert f * f == k * (k * q);
    assert n * v == k * q + k * (k * q);
    assert k * q + k * (k * q) == n * (k * q);
    CancelEquals(n, v, k * q);
    assert q > 0.0;
    assert k * q > 0.0;
  }

  lemma CancelEquals(n: real, x: real, y: real)
    requires n > 0.0 && n * x == n * y
    ensures x == y
  {
  }
}
