// The rolling length/error window and the z-score analysis of its newest sample.
// A z-score is represented by its square, so comparisons with a threshold t > 0 are
// comparisons with t squared.
module Analytics {
  import opened Statistics
  import opened Windows
  import opened Entropy

  const INT32_MAX: int := 0x7FFF_FFFF

  /** `zscoreSquared` is the squared z-score. */
  datatype Analysis = Analysis(zscoreSquared: real, errorEntropy: real, anomaly: bool)

  function Reals(s: seq<int>): (r: seq<real>)
    ensures |r| == |s|
    ensures forall i | 0 <= i < |s| :: r[i] == s[i] as real
  {
    seq(|s|, i requires 0 <= i < |s| => s[i] as real)
  }

  /** sqrt(squared) >= threshold. */
  predicate Reaches(squared: real, threshold: real) {
    threshold <= 0.0 || squared >= Square(threshold)
  }

  /** Squared distance of the newest length from the mean, in variances; 0 for a constant window. */
  ghost function ZSquared(lengths: seq<int>): real
    requires lengths != []
  {
    var s := Reals(lengths);
    if Variance(s) > 0.0 then Ratio(Square(s[|s| - 1] - Mean(s)), Variance(s)) else 0.0
  }

  lemma PrefixSums(s: seq<int>, i: nat)
    requires i < |s|
    ensures Sum(Reals(s[..i + 1])) == Sum(Reals(s[..i])) + s[i] as real
    ensures forall mu: real ::
      Deviation(Reals(s[..i + 1]), mu) == Deviation(Reals(s[..i]), mu) + Square(s[i] as real - mu)
  {
    assert Reals(s[..i + 1])[..i] == Reals(s[..i]);
  }

  /** The first pass: both means. */
  method Means(lengths: seq<int>, errors: seq<int>) returns (mean: real, errorRate: real)
    requires |errors| == |lengths| > 0
    ensures mean == Mean(Reals(lengths)) && errorRate == Mean(Reals(errors))
  {
    hide Ratio;
    var count := |lengths|;
    mean, errorRate := 0.0, 0.0;
    for i := 0 to count
      invariant mean == Sum(Reals(lengths[..i])) && errorRate == Sum(Reals(errors[..i]))
    {
      PrefixSums(lengths, i);
      PrefixSums(errors, i);
      mean := mean + lengths[i] as real;
      errorRate := errorRate + errors[i] as real;
    }
    assert lengths[..count] == lengths && errors[..count] == errors;
    mean := Ratio(mean, count as real);
    errorRate := Ratio(errorRate, count as real);
  }

  /** The second pass: the mean squared deviation. */
  method MeanDeviation(lengths: seq<int>, mean: real) returns (variance: real)
    requires lengths != []
    ensures variance == Ratio(Deviation(Reals(lengths), mean), |lengths| as real)
  {
    hide Square, Ratio;
    var count := |lengths|;
    variance := 0.0;
    for i := 0 to count
      invariant variance == Deviation(Reals(lengths[..i]), mean)
    {
      PrefixSums(lengths, i);
      var delta := lengths[i] as real - mean;
      variance := variance + Square(delta);
    }
    assert lengths[..count] == lengths;
    variance := Ratio(variance, count as real);
  }

  method AnalyzeMetrics(lengths: seq<int>, errors: seq<int>, threshold: real, log2: Logarithm) returns (r: Analysis)
    requires |errors| == |lengths|
    ensures lengths == [] ==> r == Analysis(0.0, 0.0, false)
    ensures lengths != [] ==>
      && r.zscoreSquared == ZSquared(lengths)
      && r.errorEntropy == ErrorEntropy(Mean(Reals(errors)), log2)
      && (r.anomaly <==> Reaches(r.zscoreSquared, threshold) || Mean(Reals(errors)) >= 0.5)
  {
    var count := |lengths|;
    if count == 0 {
      return Analysis(0.0, 0.0, false);
    }
    hide Square, Ratio, ErrorEntropy, Mean;
    var mean, errorRate := Means(lengths, errors);
    var variance := MeanDeviation(lengths, mean);
    var distance := lengths[count - 1] as real - mean;
    var zscoreSquared := if variance > 0.0 then Ratio(Square(distance), variance) else 0.0;
    var entropy := ComputeEntropy(errorRate, log2);
    r := Analysis(zscoreSquared, entropy, Reaches(zscoreSquared, threshold) || errorRate >= 0.5);
  }

  /** The newest of n samples is never more than sqrt(n - 1) deviations out. */
  lemma ZScoreBound(lengths: seq<int>)
    requires lengths != []
    ensures 0.0 <= ZSquared(lengths) <= |lengths| as real - 1.0
  {
    var s := Reals(lengths);
    Samuelson(s);
    if Variance(s) > 0.0 {
      QuotientBound(Square(s[|s| - 1] - Mean(s)), |s| as real - 1.0, Variance(s));
    }
  }

  lemma QuotientBound(x: real, n: real, v: real)
    requires 0.0 <= x <= n * v && v > 0.0
    ensures 0.0 <= Ratio(x, v) <= n
  {
    var q := x / v;
    assert q * v == x;
  }

  /**
   * Which thresholds the length test can ever reach in a window of n samples: exactly those
   * with t <= 0 or t^2 <= n - 1.  With the default 3.5 that needs 14 samples.
   */
  lemma ReachableThresholds(n: nat, threshold: real)
    requires n >= 1
    ensures (exists lengths: seq<int> :: |lengths| == n && Reaches(ZSquared(lengths), threshold))
      <==> (threshold <= 0.0 || Square(threshold) <= n as real - 1.0)
  {
    hide Square, Ratio, ZSquared;
    forall lengths: seq<int> | |lengths| == n && Reaches(ZSquared(lengths), threshold)
      ensures threshold <= 0.0 || Square(threshold) <= n as real - 1.0
    {
      ZScoreBound(lengths);
    }
    var spike := seq(n - 1, _ => 0) + [1];
    if n >= 2 {
      OutlierScore(spike, 0);
    }
    if threshold <= 0.0 || Square(threshold) <= n as real - 1.0 {
      if threshold > 0.0 { PositiveSquare(threshold); }
      assert |spike| == n && Reaches(ZSquared(spike), threshold);
    }
  }

  /** With all other lengths equal, a different newest one scores the most a window of its size allows. */
  lemma OutlierScore(lengths: seq<int>, usual: int)
    requires |lengths| >= 2 && lengths[|lengths| - 1] != usual
    requires forall i | 0 <= i < |lengths| - 1 :: lengths[i] == usual
    ensures ZSquared(lengths) == |lengths| as real - 1.0
  {
    var s := Reals(lengths);
    OutlierWindow(s, usual as real);
    hide Square, Ratio, Variance, Mean;
    QuotientExact(Square(s[|s| - 1] - Mean(s)), |s| as real - 1.0, Variance(s));
  }

  lemma PositiveSquare(x: real)
    requires x > 0.0
    ensures Square(x) > 0.0
  {
    var s := Square(x);
    assert s / x == x;
  }

  lemma QuotientExact(x: real, n: real, v: real)
    requires v > 0.0 && x == n * v
    ensures Ratio(x, v) == n
  {
  }

  lemma DefaultThresholdNeedsFourteen(lengths: seq<int>)
    requires lengths != [] && Reaches(ZSquared(lengths), 3.5)
    ensures |lengths| >= 14
  {
    ZScoreBound(lengths);
  }

  // ----- The rolling window -----

  /** A length as the native code receives it. */
  function Saturated(length: nat): (r: int)
    ensures 0 <= r <= 2147483647 && r <= length && (r < 2147483647 ==> r == length)
  {
    if length <= INT32_MAX then length else INT32_MAX
  }

  function Lengths(samples: seq<(nat, bool)>): (r: seq<int>)
    ensures |r| == |samples| && forall i | 0 <= i < |r| :: r[i] == Saturated(samples[i].0)
  {
    seq(|samples|, i requires 0 <= i < |samples| => Saturated(samples[i].0))
  }

  function Flags(samples: seq<(nat, bool)>): (r: seq<int>)
    ensures |r| == |samples| && forall i | 0 <= i < |r| :: r[i] == if samples[i].1 then 1 else 0
  {
    seq(|samples|, i requires 0 <= i < |samples| => if samples[i].1 then 1 else 0)
  }

  ghost function ErrorCount(samples: seq<(nat, bool)>): nat {
    if samples == [] then 0
    else ErrorCount(samples[..|samples| - 1]) + if samples[|samples| - 1].1 then 1 else 0
  }

  lemma {:induction false} FlagsSum(samples: seq<(nat, bool)>)
    ensures Sum(Reals(Flags(samples))) == ErrorCount(samples) as real
  {
    if samples != [] {
      var rest := samples[..|samples| - 1];
      FlagsSum(rest);
      assert Reals(Flags(samples))[..|rest|] == Reals(Flags(rest));
    }
  }

  /** The error count is the number of samples flagged as errors. */
  lemma {:induction false} ErrorCountIs(samples: seq<(nat, bool)>)
    ensures ErrorCount(samples) == |set i | 0 <= i < |samples| && samples[i].1|
  {
    var flagged := set i | 0 <= i < |samples| && samples[i].1;
    if samples != [] {
      var n := |samples| - 1;
      var earlier := set i | 0 <= i < n && samples[..n][i].1;
      ErrorCountIs(samples[..n]);
      assert earlier == flagged - {n};
    }
  }

  /** The error test fires when at least half of the samples are errors. */
  lemma ErrorArm(samples: seq<(nat, bool)>)
    requires samples != []
    ensures Mean(Reals(Flags(samples))) == Ratio(ErrorCount(samples) as real, |samples| as real)
    ensures Mean(Reals(Flags(samples))) >= 0.5 <==> 2 * ErrorCount(samples) >= |samples|
  {
    FlagsSum(samples);
    HalfRatio(ErrorCount(samples), |samples|);
  }

  lemma HalfRatio(k: nat, n: nat)
    requires n > 0
    ensures Ratio(k as real, n as real) >= 0.5 <==> 2 * k >= n
  {
    var q := Ratio(k as real, n as real);
    assert q * n as real == k as real;
    if q >= 0.5 {
      assert q * n as real >= 0.5 * n as real;
    } else {
      assert q * n as real < 0.5 * n as real;
    }
  }

  /** The verdict on a window of samples. */
  ghost function AnalysisOf(samples: seq<(nat, bool)>, threshold: real, log2: Logarithm): Analysis
    requires samples != []
  {
    var z := ZSquared(Lengths(samples));
    Analysis(z, ErrorEntropy(Ratio(ErrorCount(samples) as real, |samples| as real), log2),
      Reaches(z, threshold) || 2 * ErrorCount(samples) >= |samples|)
  }

  /**
   * What is scored are the sample lengths themselves; a length beyond 32 bits counts as 0x7FFF_FFFF.
   * The verdict is the score against the threshold, or half of the samples being errors.
   */
  lemma VerdictOf(samples: seq<(nat, bool)>, lengths: seq<int>, threshold: real, log2: Logarithm)
    requires samples != [] && |lengths| == |samples|
    requires forall i | 0 <= i < |samples| ::
      lengths[i] == if samples[i].0 <= 0x7FFF_FFFF then samples[i].0 else 0x7FFF_FFFF
    ensures var a := AnalysisOf(samples, threshold, log2);
      && a.zscoreSquared == ZSquared(lengths)
      && (a.anomaly <==>
            || threshold <= 0.0
            || ZSquared(lengths) >= threshold * threshold
            || 2 * |set i | 0 <= i < |samples| && samples[i].1| >= |samples|)
  {
    assert Lengths(samples) == lengths;
    ErrorCountIs(samples);
  }

  /** A line whose length differs from those of all others in the window scores n - 1. */
  lemma OutlierIsScored(samples: seq<(nat, bool)>, usual: nat, threshold: real, log2: Logarithm)
    requires |samples| >= 2 && forall i | 0 <= i < |samples| :: samples[i].0 <= 0x7FFF_FFFF
    requires samples[|samples| - 1].0 != usual && forall i | 0 <= i < |samples| - 1 :: samples[i].0 == usual
    ensures AnalysisOf(samples, threshold, log2).zscoreSquared == |samples| as real - 1.0
  {
    var lengths := seq(|samples|, i requires 0 <= i < |samples| => samples[i].0);
    hide ZSquared;
    VerdictOf(samples, lengths, threshold, log2);
    OutlierScore(lengths, usual);
  }

  lemma {:induction false} ErrorsAmongSamples(samples: seq<(nat, bool)>)
    ensures ErrorCount(samples) <= |samples|
    ensures ErrorCount(samples) == 0 <==> forall i | 0 <= i < |samples| :: !samples[i].1
    ensures ErrorCount(samples) == |samples| <==> forall i | 0 <= i < |samples| :: samples[i].1
  {
    if samples != [] {
      ErrorsAmongSamples(samples[..|samples| - 1]);
    }
  }

  /** The reported entropy is in the unit interval, and 0 exactly when the window has one kind of sample. */
  lemma ReportedEntropy(samples: seq<(nat, bool)>, threshold: real, log2: Logarithm, slope: real)
    requires samples != [] && IsLog2(log2, slope)
    ensures var entropy := AnalysisOf(samples, threshold, log2).errorEntropy;
      && 0.0 <= entropy <= 1.0
      && (entropy == 0.0 <==> forall i, j | 0 <= i < |samples| && 0 <= j < |samples| :: samples[i].1 == samples[j].1)
  {
    hide ZSquared, IsLog2, ErrorEntropy, ErrorCount, Ratio;
    ErrorsAmongSamples(samples);
    RatioIsUnit(ErrorCount(samples), |samples|);
    EntropyIsUnit(Ratio(ErrorCount(samples) as real, |samples| as real), log2, slope);
    assert samples[0].1 == samples[0].1;
  }

  lemma RatioIsUnit(k: nat, n: nat)
    requires k <= n && n > 0
    ensures var q := Ratio(k as real, n as real); 0.0 <= q <= 1.0 && (q == 0.0 <==> k == 0) && (q == 1.0 <==> k == n)
  {
    var q := Ratio(k as real, n as real);
    assert q * n as real == k as real;
    QuotientBound(k as real, 1.0, n as real);
    if q == 1.0 { assert q * n as real == n as real; }
    if k == n { QuotientExact(k as real, 1.0, n as real); }
  }

  class AnalyticsWindow {
    var capacity: nat
    var threshold: real
    const log2: Logarithm
    var lengths: seq<int>
    var errors: seq<int>
    var lengthBatch: seq<int>
    var errorBatch: seq<int>
    /** Every sample ever pushed. */
    ghost var pushed: seq<(nat, bool)>

    ghost function Samples(): seq<(nat, bool)>
      reads this
    {
      LastN(pushed, capacity)
    }

    ghost predicate Valid()
      reads this
    {
      capacity >= 2 && lengths == Lengths(Samples()) && errors == Flags(Samples())
    }

    constructor (capacity: nat, threshold: real, log2: Logarithm)
      ensures Valid() && pushed == [] && this.threshold == threshold && this.log2 == log2
      ensures this.capacity == if capacity < 2 then 2 else capacity
    {
      this.capacity := if capacity < 2 then 2 else capacity;
      this.threshold := threshold;
      this.log2 := log2;
      lengths, errors, lengthBatch, errorBatch := [], [], [], [];
      pushed := [];
    }

    /**
     * The verdict concerns exactly the last `capacity` samples: an anomaly means that the newest
     * length reaches the threshold, or that at least half of them are errors.
     */
    method Push(length: nat, isError: bool) returns (r: Analysis)
      requires Valid()
      modifies this
      ensures Valid() && capacity == old(capacity) && threshold == old(threshold)
      ensures pushed == old(pushed) + [(length, isError)]
      ensures Samples() != [] && |Samples()| <= capacity
      ensures r == AnalysisOf(Samples(), threshold, log2)
      ensures threshold > 0.0 && Square(threshold) > capacity as real - 1.0 ==>
        (r.anomaly <==> 2 * ErrorCount(Samples()) >= |Samples()|)
    {
      hide Square, Ratio, ErrorCount, ZSquared, LastN, Lengths, Flags, Sum, Mean, ErrorEntropy;
      WindowStep(pushed, (length, isError), capacity);
      pushed := pushed + [(length, isError)];
      if |lengths| == capacity {
        lengths := lengths[1..];
        errors := errors[1..];
      }
      lengths := lengths + [Saturated(length)];
      errors := errors + [if isError then 1 else 0];
      lengthBatch := lengths;
      errorBatch := errors;
      r := AnalyzeMetrics(lengthBatch, errorBatch, threshold, log2);
      ErrorArm(Samples());
      ZScoreBound(lengths);
    }
  }

  /** Popping both deques when full and pushing on both keeps them the images of one window. */
  lemma WindowStep(pushed: seq<(nat, bool)>, x: (nat, bool), n: nat)
    requires n > 0
    ensures var before, after := LastN(pushed, n), LastN(pushed + [x], n);
      && Lengths(after) == (if |before| == n then Lengths(before)[1..] else Lengths(before)) + [Saturated(x.0)]
      && Flags(after) == (if |before| == n then Flags(before)[1..] else Flags(before)) + [if x.1 then 1 else 0]
  {
    LastNPush(pushed, x, n);
  }
}
