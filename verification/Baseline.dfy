// The exponential moving average behind the baseline, one feature at a time.
module Baseline {

  /** Multiplication under a name, so that proofs can hide it. */
  function Mul(x: real, y: real): real { x * y }

  ghost predicate IsRate(alpha: real) { 0.0 <= alpha <= 1.0 }

  function Blend(baseline: real, observed: real, alpha: real): real {
    Mul(baseline, 1.0 - alpha) + Mul(observed, alpha)
  }

  /** The first sample is copied, later ones are blended in. */
  ghost function Average(xs: seq<real>, alpha: real): real
    requires xs != []
  {
    var n := |xs| - 1;
    if n == 0 then xs[0] else Blend(Average(xs[..n], alpha), xs[n], alpha)
  }

  ghost function Power(x: real, n: nat): real {
    if n == 0 then 1.0 else Mul(Power(x, n - 1), x)
  }

  /** Share of sample k in the average of n samples. */
  ghost function Weight(alpha: real, n: nat, k: nat): real
    requires k < n
  {
    if k == 0 then Power(1.0 - alpha, n - 1) else Mul(alpha, Power(1.0 - alpha, n - 1 - k))
  }

  /** Sum of the first m of the n weights. */
  ghost function WeightSum(alpha: real, n: nat, m: nat): real
    requires m <= n
  {
    if m == 0 then 0.0 else WeightSum(alpha, n, m - 1) + Weight(alpha, n, m - 1)
  }

  /** Weighted sum of the first m of n samples. */
  ghost function WeightedSum(xs: seq<real>, alpha: real, n: nat, m: nat): real
    requires m <= n && m <= |xs|
  {
    if m == 0 then 0.0 else WeightedSum(xs, alpha, n, m - 1) + Mul(Weight(alpha, n, m - 1), xs[m - 1])
  }

  // ----- Arithmetic -----

  lemma MulUnits(x: real, y: real)
    requires 0.0 <= x <= 1.0 && 0.0 <= y <= 1.0
    ensures 0.0 <= Mul(x, y) <= 1.0
  {
    MulMonotone(y, 0.0, x);
    MulMonotone(y, x, 1.0);
  }

  lemma MulMonotone(s: real, x: real, y: real)
    requires s >= 0.0 && x <= y
    ensures Mul(x, s) <= Mul(y, s)
  {
    assert (y - x) * s >= 0.0;
  }

  lemma MulAdds(x: real, y: real, r: real)
    ensures Mul(x + y, r) == Mul(x, r) + Mul(y, r)
    ensures Mul(x - y, r) == Mul(x, r) - Mul(y, r)
  {
  }

  lemma MulAssociates(x: real, y: real, z: real)
    ensures Mul(Mul(x, y), z) == Mul(x, Mul(y, z)) == Mul(Mul(x, z), y)
    ensures Mul(x, y) == Mul(y, x)
  {
  }

  lemma MulByConstants(x: real)
    ensures Mul(x, 1.0) == x == Mul(1.0, x) && Mul(x, 0.0) == 0.0 == Mul(0.0, x)
  {
  }

  lemma MulComplement(x: real, alpha: real)
    ensures Mul(x, 1.0 - alpha) + Mul(x, alpha) == x
  {
  }

  // ----- Closed form -----

  lemma {:induction false} PowerUnit(x: real, n: nat)
    requires 0.0 <= x <= 1.0
    ensures 0.0 <= Power(x, n) <= 1.0
  {
    hide Mul;
    if n > 0 {
      PowerUnit(x, n - 1);
      MulUnits(Power(x, n - 1), x);
    }
  }

  lemma WeightShrinks(alpha: real, n: nat, k: nat)
    requires k < n
    ensures Weight(alpha, n + 1, k) == Mul(Weight(alpha, n, k), 1.0 - alpha)
  {
    hide Mul;
    MulAssociates(alpha, Power(1.0 - alpha, n - 1 - k), 1.0 - alpha);
  }

  lemma {:induction false} WeightedSumShrinks(xs: seq<real>, alpha: real, n: nat, m: nat)
    requires m <= n && m <= |xs|
    ensures WeightedSum(xs, alpha, n + 1, m) == Mul(WeightedSum(xs, alpha, n, m), 1.0 - alpha)
    ensures WeightSum(alpha, n + 1, m) == Mul(WeightSum(alpha, n, m), 1.0 - alpha)
  {
    hide Mul, Weight;
    MulByConstants(1.0 - alpha);
    if m > 0 {
      var w := Weight(alpha, n, m - 1);
      WeightedSumShrinks(xs, alpha, n, m - 1);
      WeightShrinks(alpha, n, m - 1);
      MulAdds(WeightedSum(xs, alpha, n, m - 1), Mul(w, xs[m - 1]), 1.0 - alpha);
      MulAdds(WeightSum(alpha, n, m - 1), w, 1.0 - alpha);
      MulAssociates(w, xs[m - 1], 1.0 - alpha);
    }
  }

  lemma {:induction false} WeightedSumPrefix(xs: seq<real>, ys: seq<real>, alpha: real, n: nat, m: nat)
    requires m <= n && m <= |xs| && m <= |ys| && xs[..m] == ys[..m]
    ensures WeightedSum(xs, alpha, n, m) == WeightedSum(ys, alpha, n, m)
  {
    hide Mul, Weight;
    if m > 0 {
      assert xs[..m - 1] == xs[..m][..m - 1] && ys[..m - 1] == ys[..m][..m - 1];
      assert xs[m - 1] == xs[..m][m - 1] && ys[m - 1] == ys[..m][m - 1];
      WeightedSumPrefix(xs, ys, alpha, n, m - 1);
    }
  }

  lemma WeightsNonNegative(alpha: real, n: nat, k: nat)
    requires IsRate(alpha) && k < n
    ensures Weight(alpha, n, k) >= 0.0
  {
    hide Mul;
    PowerUnit(1.0 - alpha, n - 1);
    PowerUnit(1.0 - alpha, n - 1 - k);
    MulUnits(alpha, Power(1.0 - alpha, n - 1 - k));
  }

  /**
   * The average is the weighted sum of all samples.  The weights add up to one, and for a rate in
   * the unit interval none is negative: it is a convex combination.
   */
  lemma {:induction false} AverageClosedForm(xs: seq<real>, alpha: real)
    requires xs != []
    ensures Average(xs, alpha) == WeightedSum(xs, alpha, |xs|, |xs|)
    ensures WeightSum(alpha, |xs|, |xs|) == 1.0
    ensures IsRate(alpha) ==> forall k | 0 <= k < |xs| :: Weight(alpha, |xs|, k) >= 0.0
  {
    hide Mul;
    forall k | 0 <= k < |xs| && IsRate(alpha) ensures Weight(alpha, |xs|, k) >= 0.0 {
      WeightsNonNegative(alpha, |xs|, k);
    }
    var n := |xs| - 1;
    NewestWeight(alpha, n);
    if n == 0 {
      MulByConstants(xs[0]);
      assert WeightedSum(xs, alpha, 1, 0) == 0.0 && WeightSum(alpha, 1, 0) == 0.0;
    } else {
      hide Weight;
      AverageClosedForm(xs[..n], alpha);
      WeightedSumShrinks(xs[..n], alpha, n, n);
      WeightedSumPrefix(xs, xs[..n], alpha, n + 1, n);
      MulByConstants(1.0 - alpha);
      MulAssociates(alpha, xs[n], 1.0);
    }
  }

  lemma NewestWeight(alpha: real, n: nat)
    ensures Weight(alpha, n + 1, n) == if n == 0 then 1.0 else alpha
  {
    hide Mul;
    MulByConstants(alpha);
  }

  /** Two and three samples: the newest counts alpha, and every later one discounts the earlier ones. */
  lemma AverageOfFew(x: real, y: real, z: real, alpha: real)
    ensures Average([x], alpha) == x
    ensures Average([x, y], alpha) == (1.0 - alpha) * x + alpha * y
    ensures Average([x, y, z], alpha) == (1.0 - alpha) * ((1.0 - alpha) * x + alpha * y) + alpha * z
  {
    assert [x, y][..1] == [x] && [x, y, z][..2] == [x, y];
  }

  /** A convex combination stays between the bounds of its samples. */
  lemma {:induction false} AverageWithin(xs: seq<real>, alpha: real, low: real, high: real)
    requires xs != [] && IsRate(alpha) && forall k | 0 <= k < |xs| :: low <= xs[k] <= high
    ensures low <= Average(xs, alpha) <= high
  {
    hide Mul, Blend;
    var n := |xs| - 1;
    if n > 0 {
      AverageWithin(xs[..n], alpha, low, high);
      BlendWithin(Average(xs[..n], alpha), xs[n], alpha, low, high);
    }
  }

  lemma BlendWithin(x: real, y: real, alpha: real, low: real, high: real)
    requires IsRate(alpha) && low <= x <= high && low <= y <= high
    ensures low <= Blend(x, y, alpha) <= high
  {
    hide Mul;
    MulMonotone(1.0 - alpha, low, x);
    MulMonotone(1.0 - alpha, x, high);
    MulMonotone(alpha, low, y);
    MulMonotone(alpha, y, high);
    MulComplement(low, alpha);
    MulComplement(high, alpha);
  }

  /** Two averages fed the same further samples: their difference shrinks by exactly 1 - alpha a sample. */
  lemma {:induction false} AveragesConverge(xs: seq<real>, ys: seq<real>, more: seq<real>, alpha: real)
    requires xs != [] && ys != []
    ensures Average(xs + more, alpha) - Average(ys + more, alpha)
      == Mul(Average(xs, alpha) - Average(ys, alpha), Power(1.0 - alpha, |more|))
  {
    hide Mul;
    var d := Average(xs, alpha) - Average(ys, alpha);
    if more == [] {
      assert xs + more == xs && ys + more == ys;
      MulByConstants(d);
    } else {
      var n := |more| - 1;
      AveragesConverge(xs, ys, more[..n], alpha);
      assert (xs + more)[..|xs| + n] == xs + more[..n] && (ys + more)[..|ys| + n] == ys + more[..n];
      MulAdds(Average(xs + more[..n], alpha), Average(ys + more[..n], alpha), 1.0 - alpha);
      MulAssociates(d, Power(1.0 - alpha, n), 1.0 - alpha);
    }
  }

  /** A sample is 1 - alpha times as far from the updated baseline as from the old one. */
  lemma DistanceShrinks(baseline: real, observed: real, alpha: real)
    ensures observed - Blend(baseline, observed, alpha) == Mul(1.0 - alpha, observed - baseline)
  {
  }
}
