// The binary entropy of an error rate.  The logarithm is a parameter; what is proved of the
// entropy needs its functional equation and one tangent bound only.
module Entropy {

  type Logarithm = real -> real

  /** Logarithm to base 2; `slope` is that of its tangent at 1. */
  ghost predicate IsLog2(log2: Logarithm, slope: real) {
    && slope > 0.0
    && log2(1.0) == 0.0 && log2(2.0) == 1.0
    && (forall x, y | x > 0.0 && y > 0.0 :: log2(x * y) == log2(x) + log2(y))
    && (forall x | x > 0.0 :: log2(x) <= slope * (x - 1.0))
  }

  /** Contribution of one outcome to the entropy. */
  function Surprise(rate: real, log2: Logarithm): real {
    if rate > 0.0 then -(rate * log2(rate)) else 0.0
  }

  /** Entropy of a window in which this share of the samples are errors. */
  function ErrorEntropy(rate: real, log2: Logarithm): real {
    Surprise(rate, log2) + Surprise(1.0 - rate, log2)
  }

  /** The accumulation of the native code, which skips outcomes of rate zero. */
  method ComputeEntropy(errorRate: real, log2: Logarithm) returns (entropy: real)
    ensures entropy == ErrorEntropy(errorRate, log2)
  {
    entropy := 0.0;
    if errorRate > 0.0 {
      entropy := entropy - errorRate * log2(errorRate);
    }
    var normalRate := 1.0 - errorRate;
    if normalRate > 0.0 {
      entropy := entropy - normalRate * log2(normalRate);
    }
  }

  lemma LogBelowOne(x: real, log2: Logarithm, slope: real)
    requires IsLog2(log2, slope) && 0.0 < x <= 1.0
    ensures log2(x) <= 0.0 && (x < 1.0 ==> log2(x) < 0.0)
  {
    ProductSign(slope, 1.0 - x);
  }

  lemma ProductSign(x: real, y: real)
    requires x > 0.0 && y >= 0.0
    ensures x * y >= 0.0 && (y > 0.0 ==> x * y > 0.0)
  {
  }

  /** A contribution is never negative, and vanishes for impossible and certain outcomes only. */
  lemma SurpriseSign(x: real, log2: Logarithm, slope: real)
    requires IsLog2(log2, slope) && 0.0 <= x <= 1.0
    ensures Surprise(x, log2) >= 0.0
    ensures Surprise(x, log2) == 0.0 <==> x == 0.0 || x == 1.0
  {
    if x > 0.0 {
      LogBelowOne(x, log2, slope);
      ProductSign(x, -log2(x));
    }
  }

  /** A line that lies above the contribution of an outcome. */
  ghost function Line(x: real, slope: real): real { x + slope * (0.5 - x) }

  lemma SurpriseBound(x: real, log2: Logarithm, slope: real)
    requires IsLog2(log2, slope) && 0.0 <= x <= 1.0
    ensures Surprise(x, log2) <= Line(x, slope)
  {
    if x > 0.0 {
      var y := 1.0 / (2.0 * x);
      LogOfHalfReciprocal(x, y, log2, slope);
      TangentTimes(x, y, log2(x), slope);
    } else {
      ProductSign(slope, 0.5);
    }
  }

  lemma LogOfHalfReciprocal(x: real, y: real, log2: Logarithm, slope: real)
    requires IsLog2(log2, slope) && x > 0.0 && y > 0.0 && y * (2.0 * x) == 1.0
    ensures -1.0 - log2(x) <= slope * (y - 1.0)
  {
    assert log2(y * (2.0 * x)) == log2(y) + log2(2.0 * x);
    assert log2(2.0 * x) == log2(2.0) + log2(x);
  }

  lemma TangentTimes(x: real, y: real, log: real, slope: real)
    requires x > 0.0 && y * (2.0 * x) == 1.0 && -1.0 - log <= slope * (y - 1.0)
    ensures -(x * log) <= Line(x, slope)
  {
    var gap := slope * (y - 1.0) + 1.0 + log;
    assert x * gap >= 0.0;
    assert x * y == 0.5;
    assert x * gap == slope * (x * y - x) + x + x * log;
  }

  lemma SurpriseOfHalf(log2: Logarithm, slope: real)
    requires IsLog2(log2, slope)
    ensures Surprise(0.5, log2) == 0.5
  {
    assert log2(0.5 * 2.0) == log2(0.5) + log2(2.0);
  }

  lemma LinesCancel(rate: real, slope: real)
    ensures Line(rate, slope) + Line(1.0 - rate, slope) == 1.0
  {
  }

  /**
   * The entropy lies between 0 and 1.  It vanishes exactly when all samples are of one kind, and
   * reaches 1 when half of them are errors.
   */
  lemma EntropyIsUnit(rate: real, log2: Logarithm, slope: real)
    requires IsLog2(log2, slope) && 0.0 <= rate <= 1.0
    ensures 0.0 <= ErrorEntropy(rate, log2) <= 1.0
    ensures ErrorEntropy(rate, log2) == 0.0 <==> rate == 0.0 || rate == 1.0
    ensures ErrorEntropy(0.5, log2) == 1.0
  {
    hide IsLog2, Surprise, Line;
    SurpriseSign(rate, log2, slope);
    SurpriseSign(1.0 - rate, log2, slope);
    SurpriseBound(rate, log2, slope);
    SurpriseBound(1.0 - rate, log2, slope);
    SurpriseOfHalf(log2, slope);
    LinesCancel(rate, slope);
  }
}
