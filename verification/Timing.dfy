// Microsecond jitter windows: interval extraction, one-pass statistics in 64-bit
// arithmetic, signature matching and the configurable detector.
// Standard deviations are represented by variances; a negative computed variance stands
// for the not-a-number deviation its square root would be, which exceeds no threshold.
module Timing {
  import opened Statistics
  import opened Windows

  const TWO_64: int := 0x1_0000_0000_0000_0000
  type U64 = x: int | 0 <= x < TWO_64

  const NANOS_PER_MICRO: int := 1000
  const JITTER_THRESHOLD: int := 200

  /** The longest distance of two 64-bit nanosecond timestamps, in microseconds. */
  const MAX_INTERVAL: int := 18446744073709551

  /** Windows up to this many intervals cannot overflow the plain sum. */
  const SAFE_CAPACITY: nat := 1000

  const SPECTRE_V1: seq<U64> := [50, 100, 150, 80, 120, 180]
  const MELTDOWN: seq<U64> := [100, 200, 250, 150, 300, 120]
  const SPECTRE_V2: seq<U64> := [30, 80, 120, 60, 100, 140]

  datatype AttackType = NoAttack | SpectreV1 | SpectreV2 | Meltdown | CacheTiming

  datatype JitterAnalysis = JitterAnalysis(
    mean: real, variance: real, max: U64, min: U64, anomaly: bool, attack: AttackType, confidenceSquared: real)

  /** Distance of two nanosecond timestamps in whole microseconds. */
  function DiffMicros(x: U64, y: U64): (d: U64)
    ensures d <= MAX_INTERVAL
    ensures x >= y ==> 1000 * (d as int) <= x - y < 1000 * (d as int + 1)
    ensures x <= y ==> 1000 * (d as int) <= y as int - x < 1000 * (d as int + 1)
  {
    if x >= y then (x - y) / NANOS_PER_MICRO else (y - x) / NANOS_PER_MICRO
  }

  /** Distances of consecutive timestamps. */
  function Intervals(t: seq<U64>): (r: seq<U64>)
    ensures |r| == if t == [] then 0 else |t| - 1
  {
    if |t| <= 1 then []
    else Intervals(t[..|t| - 1]) + [DiffMicros(t[|t| - 1], t[|t| - 2])]
  }

  lemma IntervalsPush(t: seq<U64>, x: U64)
    ensures Intervals(t + [x]) == if t == [] then [] else Intervals(t) + [DiffMicros(x, t[|t| - 1])]
  {
    assert (t + [x])[..|t|] == t;
  }

  lemma {:induction false} IntervalAt(t: seq<U64>, i: nat)
    requires i + 1 < |t|
    ensures Intervals(t)[i] == DiffMicros(t[i + 1], t[i])
  {
    if i + 2 < |t| { IntervalAt(t[..|t| - 1], i); }
  }

  /** Each interval is the time between two neighbouring timestamps, in whole microseconds, rounded down. */
  ghost predicate Separates(t: seq<U64>, intervals: seq<U64>) {
    && |intervals| == (if t == [] then 0 else |t| - 1)
    && forall i | 0 <= i < |intervals| ::
        var nanos := if t[i] <= t[i + 1] then t[i + 1] - t[i] else t[i] - t[i + 1];
        1000 * (intervals[i] as int) <= nanos < 1000 * (intervals[i] as int + 1)
  }

  lemma IntervalsSeparate(t: seq<U64>)
    ensures Separates(t, Intervals(t))
  {
    hide Intervals;
    forall i | 0 <= i < |Intervals(t)|
      ensures
        var nanos := if t[i] <= t[i + 1] then t[i + 1] - t[i] else t[i] - t[i + 1];
        1000 * (Intervals(t)[i] as int) <= nanos < 1000 * (Intervals(t)[i] as int + 1)
    {
      IntervalAt(t, i);
    }
  }

  lemma IntervalsBounded(t: seq<U64>)
    ensures forall i | 0 <= i < |Intervals(t)| :: Intervals(t)[i] <= MAX_INTERVAL
  {
    hide DiffMicros, Intervals;
    forall i | 0 <= i < |Intervals(t)| ensures Intervals(t)[i] <= MAX_INTERVAL {
      IntervalAt(t, i);
    }
  }

  /** A window of timestamps and the window of intervals one shorter stay in step. */
  lemma WindowsInStep(t: seq<U64>, capacity: nat)
    ensures Intervals(LastN(t, capacity + 1)) == LastN(Intervals(t), capacity)
  {
    hide DiffMicros;
    var tail, r := LastN(t, capacity + 1), LastN(Intervals(t), capacity);
    forall i | 0 <= i < |r| ensures Intervals(tail)[i] == r[i] {
      IntervalAt(tail, i);
      IntervalAt(t, |t| - |tail| + i);
    }
  }

  // ----- Sums of 64-bit samples -----

  /** Wrapping 64-bit arithmetic. */
  function Wrap(x: nat): U64 {
    x % TWO_64
  }

  /** 64 bits: the largest value stays, the next one is zero. */
  lemma WrapsAtSixtyFourBits(x: nat)
    ensures 0 <= Wrap(x) <= 18446744073709551615
    ensures x <= 18446744073709551615 ==> Wrap(x) == x && Wrap(x + 18446744073709551616) == x
  {
  }

  lemma WrapIsIdentity(x: nat)
    ensures Wrap(x) == x <==> x < TWO_64
  {
  }

  lemma WrapAdds(x: nat, y: nat)
    ensures Wrap(Wrap(x) + y) == Wrap(x + y) == Wrap(Wrap(x) + Wrap(y))
  {
    WrapPeriodic(Wrap(x) + y, x / TWO_64);
    WrapPeriodic(Wrap(x) + Wrap(y), y / TWO_64);
  }

  lemma {:induction false} WrapPeriodic(x: nat, turns: nat)
    ensures Wrap(x + TWO_64 * turns) == Wrap(x)
  {
    if turns > 0 { WrapPeriodic(x, turns - 1); }
  }

  ghost function Total(s: seq<U64>): nat {
    if s == [] then 0 else Total(s[..|s| - 1]) + s[|s| - 1]
  }

  ghost function TotalSquares(s: seq<U64>): nat {
    if s == [] then 0 else TotalSquares(s[..|s| - 1]) + SquareInt(s[|s| - 1])
  }

  function SquareInt(x: int): (y: int)
    ensures y >= 0 && y >= x
  {
    x * x
  }

  function Reals(s: seq<U64>): (r: seq<real>)
    ensures |r| == |s| && forall i | 0 <= i < |r| :: r[i] == s[i] as real
  {
    seq(|s|, i requires 0 <= i < |s| => s[i] as real)
  }

  lemma {:induction false} TotalsAreSums(s: seq<U64>)
    ensures Sum(Reals(s)) == Total(s) as real
    ensures SumSquares(Reals(s)) == TotalSquares(s) as real
  {
    if s != [] {
      hide Square, SquareInt;
      var rest, x := s[..|s| - 1], s[|s| - 1];
      TotalsAreSums(rest);
      assert Reals(s)[..|rest|] == Reals(rest);
      SquareOfInteger(x);
    }
  }

  lemma SquareOfInteger(x: int)
    ensures Square(x as real) == SquareInt(x) as real
  {
  }

  /** Squares of whole numbers dominate them, so it is the sum of squares that overflows first. */
  lemma {:induction false} SquaresDominate(s: seq<U64>)
    ensures Total(s) <= TotalSquares(s)
  {
    if s != [] { SquaresDominate(s[..|s| - 1]); }
  }

  /** The variance the window computes: 64-bit wrapping sums, then mean of squares minus squared mean. */
  ghost function ComputedVariance(s: seq<U64>): real {
    if |s| <= 1 then 0.0
    else OnePass(|s| as real, Wrap(Total(s)) as real, Wrap(TotalSquares(s)) as real)
  }

  /** The sum of squares fits; for a single interval it is not used. */
  ghost predicate NoOverflow(s: seq<U64>) {
    |s| <= 1 || TotalSquares(s) < TWO_64
  }

  lemma {:induction false} TotalBound(s: seq<U64>)
    requires forall i | 0 <= i < |s| :: s[i] <= MAX_INTERVAL
    ensures Total(s) <= |s| * MAX_INTERVAL
  {
    if s != [] { TotalBound(s[..|s| - 1]); }
  }

  lemma SafeTotal(s: seq<U64>)
    requires |s| <= SAFE_CAPACITY && forall i | 0 <= i < |s| :: s[i] <= MAX_INTERVAL
    ensures Total(s) < TWO_64
  {
    TotalBound(s);
  }

  lemma SingleVariance(s: seq<real>)
    requires |s| == 1
    ensures Variance(s) == 0.0
  {
    assert s[..0] == [];
    assert Sum(s) == s[0];
    assert Mean(s) == s[0];
    assert Deviation(s, s[0]) == 0.0;
  }

  lemma VarianceOfTotals(s: seq<U64>)
    requires s != []
    ensures OnePass(|s| as real, Total(s) as real, TotalSquares(s) as real) == Variance(Reals(s))
  {
    hide OnePass, Variance, Sum, SumSquares, Total, TotalSquares;
    TotalsAreSums(s);
    OnePassVariance(Reals(s));
  }

  /** Without overflow the one-pass computation yields the population variance. */
  lemma ComputedVarianceExact(s: seq<U64>)
    requires s != [] && NoOverflow(s)
    ensures ComputedVariance(s) == Variance(Reals(s))
  {
    if |s| == 1 {
      SingleVariance(Reals(s));
    } else {
      hide OnePass, Variance, Total, TotalSquares, Wrap;
      SquaresDominate(s);
      VarianceOfTotals(s);
      WrapIsIdentity(Total(s));
      WrapIsIdentity(TotalSquares(s));
    }
  }

  lemma ComputedMeanExact(s: seq<U64>)
    requires s != [] && NoOverflow(s)
    ensures Ratio(Wrap(Total(s)) as real, |s| as real) == Mean(Reals(s))
  {
    hide Wrap, Ratio;
    TotalsAreSums(s);
    WrapIsIdentity(Total(s));
    SquaresDominate(s);
    if |s| == 1 { assert Total(s[..0]) == 0; }
  }

  /**
   * In a window of at most a thousand intervals the computed variance is right exactly when the
   * squares fit: distances of 64-bit timestamps are too short to overflow the plain sum there.
   */
  lemma ComputedVarianceIff(s: seq<U64>)
    requires 1 <= |s| <= SAFE_CAPACITY && forall i | 0 <= i < |s| :: s[i] <= MAX_INTERVAL
    ensures ComputedVariance(s) == Variance(Reals(s)) <==> NoOverflow(s)
  {
    if NoOverflow(s) {
      ComputedVarianceExact(s);
    } else {
      hide OnePass, Variance, Total, TotalSquares, Wrap;
      SafeTotal(s);
      VarianceOfTotals(s);
      WrapIsIdentity(Total(s));
      WrapIsIdentity(TotalSquares(s));
      OnePassInjective(|s| as real, Total(s) as real, TotalSquares(s) as real, Wrap(TotalSquares(s)) as real);
    }
  }

  lemma {:induction false} ConstantTotals(s: seq<U64>, x: U64)
    requires forall i | 0 <= i < |s| :: s[i] == x
    ensures Total(s) == |s| * x && TotalSquares(s) == |s| * SquareInt(x)
  {
    if s != [] { ConstantTotals(s[..|s| - 1], x); }
  }

  lemma OnePassScaled(n: real, sum: real, squares: real)
    requires n > 0.0
    ensures OnePass(n, sum, squares) * Square(n) == n * squares - Square(sum)
  {
    var p, q := Ratio(squares, n), Ratio(sum, n);
    assert p * n == squares && q * n == sum;
    assert (p - q * q) * (n * n) == n * (p * n) - (q * n) * (q * n);
  }

  lemma SameOnePass(n: nat, sum: int, squares: int, wrappedSum: int, wrappedSquares: int)
    requires n > 0
    ensures OnePass(n as real, sum as real, squares as real)
         == OnePass(n as real, wrappedSum as real, wrappedSquares as real)
      <==> n * (squares - wrappedSquares) == SquareInt(sum) - SquareInt(wrappedSum)
  {
    hide OnePass, Square, SquareInt;
    var x := OnePass(n as real, sum as real, squares as real);
    var y := OnePass(n as real, wrappedSum as real, wrappedSquares as real);
    OnePassScaled(n as real, sum as real, squares as real);
    OnePassScaled(n as real, wrappedSum as real, wrappedSquares as real);
    SquareOfInteger(sum);
    SquareOfInteger(wrappedSum);
    WholeProduct(n, squares);
    WholeProduct(n, wrappedSquares);
    PositiveSquareOf(n);
    CancelPositive(x, y, Square(n as real));
    assert n * (squares - wrappedSquares) == n * squares - n * wrappedSquares;
  }

  lemma WholeProduct(n: nat, x: int)
    ensures n as real * x as real == (n * x) as real
  {
  }

  lemma PositiveSquareOf(n: nat)
    requires n > 0
    ensures Square(n as real) > 0.0
  {
  }

  lemma CancelPositive(x: real, y: real, z: real)
    requires z > 0.0
    ensures x == y <==> x * z == y * z
  {
  }

  /** In a window of any length the variance is right exactly when what the two sums lose cancels out. */
  lemma ComputedVarianceIffLossesCancel(s: seq<U64>)
    requires |s| >= 2
    ensures ComputedVariance(s) == Variance(Reals(s)) <==>
      |s| * (TotalSquares(s) - Wrap(TotalSquares(s))) == SquareInt(Total(s)) - SquareInt(Wrap(Total(s)))
  {
    hide OnePass, Variance, Total, TotalSquares, Wrap, SquareInt;
    VarianceOfTotals(s);
    SameOnePass(|s|, Total(s), TotalSquares(s), Wrap(Total(s)), Wrap(TotalSquares(s)));
  }

  /**
   * Longer windows escape that equivalence: 2048 gaps of 2^53 microseconds wrap both sums to zero,
   * and the computed variance is still right.
   */
  lemma BothSumsCanWrap(s: seq<U64>)
    requires |s| == 2048 && forall i | 0 <= i < |s| :: s[i] == 0x20_0000_0000_0000
    ensures s[0] <= MAX_INTERVAL && !NoOverflow(s)
    ensures ComputedVariance(s) == Variance(Reals(s)) == 0.0
  {
    ConstantTotals(s, 0x20_0000_0000_0000);
    VarianceOfTotals(s);
    assert OnePass(2048.0, Total(s) as real, TotalSquares(s) as real) == 0.0;
    assert Wrap(Total(s)) == 0 && Wrap(TotalSquares(s)) == 0;
  }

  lemma OnePassInjective(n: real, sum: real, x: real, y: real)
    requires n > 0.0 && x != y
    ensures OnePass(n, sum, x) != OnePass(n, sum, y)
  {
    var p, q := Ratio(x, n), Ratio(y, n);
    assert p * n == x && q * n == y;
  }

  /** Two log lines 2^32 microseconds (72 minutes) apart: the sum of squares wraps to zero. */
  lemma OverflowHidesJitter()
    ensures var s: seq<U64> := [0, 0x1_0000_0000];
      && Intervals([0, 0, 4294967296000]) == s
      && !NoOverflow(s)
      && ComputedVariance(s) < 0.0
      && Variance(Reals(s)) == 4611686018427387904.0
  {
    var s: seq<U64> := [0, 0x1_0000_0000];
    assert Total(s[..1]) == 0 && TotalSquares(s[..1]) == 0;
    assert Total(s) == 0x1_0000_0000 && TotalSquares(s) == TWO_64;
    TotalsAreSums(s);
    OnePassVariance(Reals(s));
  }

  // ----- What an anomaly implies -----

  ghost predicate Bounds(s: seq<U64>, low: U64, high: U64) {
    forall i | 0 <= i < |s| :: low <= s[i] <= high
  }

  /** A variance above t squared needs samples more than 2t apart. */
  lemma DeviationNeedsRange(s: seq<U64>, low: U64, high: U64, t: real)
    requires s != [] && NoOverflow(s) && Bounds(s, low, high) && t > 0.0
    requires ComputedVariance(s) > Square(t)
    ensures (high - low) as real > 2.0 * t
  {
    assert low <= s[0] <= high;
    assert Within(Reals(s), low as real, high as real);
    var range := high as real - low as real;
    assert Square(2.0 * t) < Square(range) by {
      SquareDoubles(t);
      hide Square, Variance, ComputedVariance;
      ComputedVarianceExact(s);
      VarianceBelowRange(Reals(s), low as real, high as real);
    }
    SquareOrder(range, 2.0 * t);
  }

  lemma SquareDoubles(t: real)
    ensures Square(2.0 * t) == 4.0 * Square(t)
  {
  }

  lemma SquareOrder(x: real, y: real)
    requires x >= 0.0 && y >= 0.0 && Square(y) < Square(x)
    ensures y < x
  {
    if x <= y { SquareMonotone(x, y); }
  }

  lemma SquareMonotone(x: real, y: real)
    requires 0.0 <= x <= y
    ensures Square(x) <= Square(y)
  {
    assert x * x <= x * y <= y * y;
  }

  // ----- Signature matching -----

  /** Within 20 percent of the signature value, in whole microseconds. */
  predicate Near(interval: U64, signature: U64): (r: bool)
    ensures r <==> 5 * (interval - signature) <= signature && 5 * (signature - interval) <= signature
  {
    signature - signature / 5 <= interval <= signature + signature / 5
  }

  ghost function Matches(intervals: seq<U64>, signature: seq<U64>): nat
    requires |intervals| == |signature|
  {
    if intervals == [] then 0
    else
      var n := |intervals| - 1;
      Matches(intervals[..n], signature[..n]) + if Near(intervals[n], signature[n]) then 1 else 0
  }

  method CompareSignature(intervals: seq<U64>, signature: seq<U64>) returns (score: real)
    requires signature != []
    ensures |intervals| != |signature| ==> score == 0.0
    ensures |intervals| == |signature| ==>
      score == Matches(intervals, signature) as real / |signature| as real
  {
    if |intervals| != |signature| {
      return 0.0;
    }
    var matches, total := 0, 0.0;
    for i := 0 to |intervals|
      invariant matches == Matches(intervals[..i], signature[..i]) && total == i as real
    {
      assert intervals[..i + 1][..i] == intervals[..i] && signature[..i + 1][..i] == signature[..i];
      var tolerance := signature[i] / 5;
      var lower, upper: int := signature[i] as int - tolerance, signature[i] as int + tolerance;
      if intervals[i] >= lower && intervals[i] <= upper {
        matches := matches + 1;
      }
      total := total + 1.0;
    }
    assert intervals[..|intervals|] == intervals && signature[..|signature|] == signature;
    score := matches as real / total;
  }

  /** Signatures have six values: five or six matches name the attack, three or four are generic. */
  ghost function AttackOf(s: seq<U64>): AttackType {
    if |s| != 6 then NoAttack
    else if Matches(s, MELTDOWN) >= 5 then Meltdown
    else if Matches(s, SPECTRE_V1) >= 5 then SpectreV1
    else if Matches(s, SPECTRE_V2) >= 5 then SpectreV2
    else if Matches(s, SPECTRE_V1) >= 3 || Matches(s, SPECTRE_V2) >= 3 || Matches(s, MELTDOWN) >= 3 then CacheTiming
    else NoAttack
  }

  ghost function Hit(s: seq<U64>, signature: seq<U64>, i: nat): nat
    requires i < |s| == |signature|
  {
    if Near(s[i], signature[i]) then 1 else 0
  }

  lemma {:induction false} MatchesPrefix(s: seq<U64>, signature: seq<U64>, n: nat)
    requires |s| == |signature| && 0 < n <= |s|
    ensures Matches(s[..n], signature[..n]) == Matches(s[..n - 1], signature[..n - 1]) + Hit(s, signature, n - 1)
  {
    assert s[..n][..n - 1] == s[..n - 1] && signature[..n][..n - 1] == signature[..n - 1];
  }

  lemma MatchesOfSix(s: seq<U64>, signature: seq<U64>)
    requires |s| == |signature| == 6
    ensures Matches(s, signature) == Hit(s, signature, 0) + Hit(s, signature, 1) + Hit(s, signature, 2)
      + Hit(s, signature, 3) + Hit(s, signature, 4) + Hit(s, signature, 5)
  {
    hide Near;
    MatchesPrefix(s, signature, 1);
    MatchesPrefix(s, signature, 2);
    MatchesPrefix(s, signature, 3);
    MatchesPrefix(s, signature, 4);
    MatchesPrefix(s, signature, 5);
    MatchesPrefix(s, signature, 6);
    assert s[..6] == s && signature[..6] == signature;
  }

  /** How many of the intervals lie between the bounds given for their places. */
  ghost function HitsWithin(s: seq<U64>, low: seq<int>, high: seq<int>): nat
    requires |s| == |low| == |high|
  {
    if s == [] then 0
    else
      var n := |s| - 1;
      HitsWithin(s[..n], low[..n], high[..n]) + if low[n] <= s[n] <= high[n] then 1 else 0
  }

  lemma {:induction false} MatchesWithin(s: seq<U64>, signature: seq<U64>, low: seq<int>, high: seq<int>)
    requires |s| == |signature| == |low| == |high|
    requires forall i | 0 <= i < |s| ::
      low[i] == signature[i] as int - signature[i] / 5 && high[i] == signature[i] as int + signature[i] / 5
    ensures Matches(s, signature) == HitsWithin(s, low, high)
  {
    if s != [] {
      var n := |s| - 1;
      MatchesWithin(s[..n], signature[..n], low[..n], high[..n]);
    }
  }

  /** Every name by the numbers: how many intervals, in order, lie in the ranges of each attack. */
  lemma AttackByRanges(s: seq<U64>)
    requires |s| == 6
    ensures
      var meltdown := HitsWithin(s, [80, 160, 200, 120, 240, 96], [120, 240, 300, 180, 360, 144]);
      var first := HitsWithin(s, [40, 80, 120, 64, 96, 144], [60, 120, 180, 96, 144, 216]);
      var second := HitsWithin(s, [24, 64, 96, 48, 80, 112], [36, 96, 144, 72, 120, 168]);
      && (AttackOf(s) == Meltdown <==> meltdown >= 5)
      && (AttackOf(s) == SpectreV1 <==> meltdown < 5 && first >= 5)
      && (AttackOf(s) == SpectreV2 <==> meltdown < 5 && first < 5 && second >= 5)
      && (AttackOf(s) == CacheTiming <==>
            meltdown < 5 && first < 5 && second < 5 && (meltdown >= 3 || first >= 3 || second >= 3))
  {
    hide Matches, HitsWithin;
    MatchesWithin(s, MELTDOWN, [80, 160, 200, 120, 240, 96], [120, 240, 300, 180, 360, 144]);
    MatchesWithin(s, SPECTRE_V1, [40, 80, 120, 64, 96, 144], [60, 120, 180, 96, 144, 216]);
    MatchesWithin(s, SPECTRE_V2, [24, 64, 96, 48, 80, 112], [36, 96, 144, 72, 120, 168]);
  }

  /** Five hits on the Meltdown signature leave no room for either Spectre variant. */
  lemma MeltdownIsUnambiguous(s: seq<U64>)
    requires |s| == 6 && Matches(s, MELTDOWN) >= 5
    ensures AttackOf(s) == Meltdown
    ensures Matches(s, SPECTRE_V1) <= 2 && Matches(s, SPECTRE_V2) <= 2
  {
    MatchesOfSix(s, MELTDOWN);
    MatchesOfSix(s, SPECTRE_V1);
    MatchesOfSix(s, SPECTRE_V2);
  }

  /**
   * When a window that matches the second Spectre variant is named after it: exactly while fewer
   * than five intervals also match the first.  With all six values matched, those five are the ones
   * in the upper parts of their ranges.
   */
  lemma SpectreV2NamedIff(s: seq<U64>)
    requires |s| == 6 && Matches(s, SPECTRE_V2) >= 5
    ensures AttackOf(s) == SpectreV1 || AttackOf(s) == SpectreV2
    ensures AttackOf(s) == SpectreV2 <==> Matches(s, SPECTRE_V1) <= 4
    ensures Matches(s, SPECTRE_V2) == 6 ==>
      (AttackOf(s) == SpectreV2 <==> !(s[1] >= 80 && s[2] >= 120 && s[3] >= 64 && s[4] >= 96 && s[5] >= 144))
  {
    MatchesOfSix(s, MELTDOWN);
    MatchesOfSix(s, SPECTRE_V1);
    MatchesOfSix(s, SPECTRE_V2);
  }

  /** A window on all six values of the second Spectre variant that is named after the first. */
  lemma SpectreV2CanBeShadowed()
    ensures var s: seq<U64> := [30, 80, 120, 64, 96, 144];
      Matches(s, SPECTRE_V2) == 6 && AttackOf(s) == SpectreV1
    ensures AttackOf(SPECTRE_V1) == SpectreV1 && AttackOf(SPECTRE_V2) == SpectreV2
  {
    var s: seq<U64> := [30, 80, 120, 64, 96, 144];
    MatchesOfSix(s, MELTDOWN);
    MatchesOfSix(s, SPECTRE_V1);
    MatchesOfSix(s, SPECTRE_V2);
    MatchesOfSix(SPECTRE_V1, MELTDOWN);
    MatchesOfSix(SPECTRE_V1, SPECTRE_V1);
    MatchesOfSix(SPECTRE_V2, MELTDOWN);
    MatchesOfSix(SPECTRE_V2, SPECTRE_V1);
    MatchesOfSix(SPECTRE_V2, SPECTRE_V2);
  }

  method MatchSignature(s: seq<U64>) returns (attack: AttackType)
    ensures attack == AttackOf(s)
  {
    if |s| < 6 {
      return NoAttack;
    }
    var v1 := CompareSignature(s, SPECTRE_V1);
    var v2 := CompareSignature(s, SPECTRE_V2);
    var melt := CompareSignature(s, MELTDOWN);
    if melt >= 0.7 { return Meltdown; }
    if v1 >= 0.7 { return SpectreV1; }
    if v2 >= 0.7 { return SpectreV2; }
    if v1 >= 0.5 || v2 >= 0.5 || melt >= 0.5 { return CacheTiming; }
    return NoAttack;
  }

  // ----- The window -----

  /** min(deviation / 200, 1) squared; the minimum with a not-a-number deviation is 1. */
  function Confidence(variance: real): (r: real)
    ensures 0.0 <= r <= 1.0
    ensures r < 1.0 ==> r * 40000.0 == variance
    ensures 0.0 <= variance <= 40000.0 ==> r * 40000.0 == variance
  {
    if variance < 0.0 || variance / 40000.0 > 1.0 then 1.0 else variance / 40000.0
  }

  /** What an analysis says about the intervals it was computed from. */
  ghost predicate Describes(r: JitterAnalysis, s: seq<U64>) {
    && r.attack == AttackOf(s)
    && (s == [] ==> r == JitterAnalysis(0.0, 0.0, 0, 0, false, NoAttack, 0.0))
    && (s != [] ==>
      && r.mean == Ratio(Wrap(Total(s)) as real, |s| as real)
      && r.variance == ComputedVariance(s)
      && Bounds(s, r.min, r.max) && r.min in s && r.max in s
      && (r.anomaly <==> r.variance > 40000.0 || r.max > 600)
      && r.confidenceSquared == if r.anomaly then Confidence(r.variance) else 0.0)
  }

  class JitterWindow {
    var capacity: nat
    var timestamps: seq<U64>
    var intervals: seq<U64>
    /** Every timestamp ever pushed. */
    ghost var history: seq<U64>

    /** Both deques are the tails of one history, the intervals one element shorter. */
    ghost predicate Valid()
      reads this
    {
      && timestamps == LastN(history, capacity + 1)
      && intervals == LastN(Intervals(history), capacity)
    }

    constructor (capacity: nat)
      ensures Valid() && history == [] && this.capacity == capacity
    {
      this.capacity := capacity;
      timestamps, intervals, history := [], [], [];
    }

    /** Moves both deques on by one timestamp. */
    method Slide(timestamp: U64)
      requires Valid()
      modifies this
      ensures Valid() && capacity == old(capacity) && history == old(history) + [timestamp]
      ensures intervals == Intervals(timestamps)
    {
      hide LastN, Intervals, DiffMicros;
      ghost var before := history;
      history := history + [timestamp];
      IntervalsPush(before, timestamp);
      LastNAppend(before, timestamp, capacity + 1);
      WindowsInStep(history, capacity);
      if |timestamps| > 0 {
        var previous := timestamps[|timestamps| - 1];
        assert previous == before[|before| - 1];
        LastNAppend(Intervals(before), DiffMicros(timestamp, previous), capacity);
        intervals := intervals + [DiffMicros(timestamp, previous)];
        if |intervals| > capacity {
          intervals := intervals[1..];
        }
      }
      timestamps := timestamps + [timestamp];
      if |timestamps| > capacity + 1 {
        timestamps := timestamps[1..];
      }
    }

    method Push(timestamp: U64) returns (r: JitterAnalysis)
      requires Valid()
      modifies this
      ensures Valid() && capacity == old(capacity) && history == old(history) + [timestamp]
      ensures |timestamps| == if |history| <= capacity + 1 then |history| else capacity + 1
      ensures |intervals| == if |history| - 1 <= capacity then |history| - 1 else capacity
      ensures timestamps == LastN(history, capacity + 1)
      ensures intervals == Intervals(timestamps) && Separates(timestamps, intervals)
      ensures Describes(r, intervals)
      ensures r.attack != NoAttack ==> capacity >= 6 && |history| >= 7 && (capacity > 6 ==> |history| == 7)
      ensures intervals != [] && NoOverflow(intervals) ==> r.variance == Variance(Reals(intervals))
      ensures intervals != [] && capacity <= SAFE_CAPACITY ==>
        (r.variance == Variance(Reals(intervals)) <==> NoOverflow(intervals))
    {
      hide Describes, AttackOf, LastN, Intervals, NoOverflow, Variance, Mean, Separates, Reals;
      Slide(timestamp);
      r := Analyze();
      AttackNeedsSix(r, intervals);
      IntervalsBounded(timestamps);
      IntervalsSeparate(timestamps);
      if intervals != [] {
        ReportedAnalysis(r, intervals);
      }
    }

    method Analyze() returns (r: JitterAnalysis)
      ensures Describes(r, intervals)
    {
      if |intervals| == 0 {
        return JitterAnalysis(0.0, 0.0, 0, 0, false, NoAttack, 0.0);
      }
      hide Ratio, OnePass, Wrap, Confidence, AttackOf, Total, TotalSquares;
      var sum, sumSquares, max, min := Accumulate();
      var count := |intervals| as real;
      var mean := Ratio(sum as real, count);
      var variance := if count > 1.0 then OnePass(count, sum as real, sumSquares as real) else 0.0;
      var anomaly := variance > 40000.0 || max > JITTER_THRESHOLD * 3;
      var attack := MatchSignature(intervals);
      var confidenceSquared := if anomaly then Confidence(variance) else 0.0;
      r := JitterAnalysis(mean, variance, max, min, anomaly, attack, confidenceSquared);
    }

    /** The accumulation loop of the analysis. */
    method Accumulate() returns (sum: U64, sumSquares: U64, max: U64, min: U64)
      requires intervals != []
      ensures sum == Wrap(Total(intervals)) && sumSquares == Wrap(TotalSquares(intervals))
      ensures Bounds(intervals, min, max) && max in intervals && min in intervals
    {
      hide SquareInt, Wrap;
      sum, sumSquares, max, min := 0, 0, 0, TWO_64 - 1;
      WrapIsIdentity(0);
      for i := 0 to |intervals|
        invariant sum == Wrap(Total(intervals[..i])) && sumSquares == Wrap(TotalSquares(intervals[..i]))
        invariant forall j | 0 <= j < i :: min <= intervals[j] <= max
        invariant i > 0 ==> max in intervals && min in intervals
        invariant i == 0 ==> max == 0 && min == TWO_64 - 1
      {
        var interval := intervals[i];
        assert intervals[..i + 1][..i] == intervals[..i];
        WrapAdds(Total(intervals[..i]), interval);
        WrapAdds(TotalSquares(intervals[..i]), SquareInt(interval));
        sum := Wrap(sum + interval);
        sumSquares := Wrap(sumSquares + Wrap(SquareInt(interval)));
        max := if interval > max then interval else max;
        min := if interval < min then interval else min;
      }
      assert intervals[..|intervals|] == intervals;
    }
  }

  lemma AttackNeedsSix(r: JitterAnalysis, s: seq<U64>)
    requires Describes(r, s)
    ensures r.attack != NoAttack ==> |s| == 6
  {
  }

  /** The reported extremes are the least and the greatest interval. */
  lemma ReportedExtremes(r: JitterAnalysis, s: seq<U64>, i: nat)
    requires Describes(r, s) && i < |s|
    ensures r.min <= s[i] <= r.max && r.min in s && r.max in s
    ensures r.confidenceSquared == (
      if !r.anomaly then 0.0
      else if 0.0 <= r.variance <= 200.0 * 200.0 then r.variance / (200.0 * 200.0)
      else 1.0)
  {
    hide ComputedVariance, Ratio, AttackOf;
  }

  /**
   * Mean and variance are those of the window when the squares fit, and the anomaly is a deviation
   * above 200 or an interval above 600; in short windows the variance is right only then.
   */
  lemma ReportedAnalysis(r: JitterAnalysis, s: seq<U64>)
    requires Describes(r, s) && s != [] && forall i | 0 <= i < |s| :: s[i] <= MAX_INTERVAL
    ensures NoOverflow(s) ==> r.mean == Mean(Reals(s)) && r.variance == Variance(Reals(s))
    ensures NoOverflow(s) ==>
      (r.anomaly <==> Variance(Reals(s)) > 200.0 * 200.0 || exists i | 0 <= i < |s| :: s[i] > 600)
    ensures |s| <= SAFE_CAPACITY ==> (r.variance == Variance(Reals(s)) <==> NoOverflow(s))
  {
    hide NoOverflow, ComputedVariance, Variance, Reals, Mean, Wrap, Total;
    if NoOverflow(s) {
      ComputedVarianceExact(s);
      ComputedMeanExact(s);
    }
    if |s| <= SAFE_CAPACITY { ComputedVarianceIff(s); }
  }

  /** Without overflow a flagged window holds an interval above 400 microseconds. */
  lemma AnomalyNeedsLongInterval(r: JitterAnalysis, s: seq<U64>)
    requires Describes(r, s) && NoOverflow(s) && r.anomaly
    ensures r.max > 400
  {
    if r.max <= 600 {
      assert Square(200.0) == 40000.0;
      DeviationNeedsRange(s, r.min, r.max, 200.0);
    }
  }

  class JitterDetector {
    const window: JitterWindow
    const threshold: real

    constructor (windowSize: nat, threshold: real)
      ensures window.Valid() && window.history == [] && window.capacity == windowSize && fresh(window)
      ensures this.threshold == threshold
    {
      window := new JitterWindow(windowSize);
      this.threshold := threshold;
    }

    /** A positive threshold replaces the built-in anomaly rule and changes nothing else of the analysis. */
    method Record(timestamp: U64) returns (r: JitterAnalysis, ghost analysis: JitterAnalysis)
      requires window.Valid()
      modifies window
      ensures window.Valid() && window.capacity == old(window.capacity)
      ensures window.history == old(window.history) + [timestamp]
      ensures Describes(analysis, window.intervals)
      ensures r == if threshold > 0.0 then analysis.(anomaly := analysis.variance > Square(threshold)) else analysis
      ensures threshold > 0.0 && window.intervals != [] && NoOverflow(window.intervals) ==>
        (r.anomaly <==> Variance(Reals(window.intervals)) > Square(threshold))
      ensures threshold > 0.0 && window.intervals == [] ==> !r.anomaly
      ensures threshold > 0.0 && NoOverflow(window.intervals) && r.anomaly ==>
        (r.max - r.min) as real > 2.0 * threshold
    {
      hide Square, ComputedVariance, NoOverflow, Confidence, Ratio, Variance;
      r := window.Push(timestamp);
      analysis := r;
      if threshold > 0.0 {
        r := r.(anomaly := r.variance > Square(threshold));
        if r.anomaly {
          EmptyIsCalm(window.intervals, r, threshold);
        }
        if NoOverflow(window.intervals) && r.anomaly {
          DeviationNeedsRange(window.intervals, r.min, r.max, threshold);
        }
      }
    }
  }

  lemma EmptyIsCalm(s: seq<U64>, r: JitterAnalysis, threshold: real)
    requires threshold > 0.0 && r.variance > Square(threshold) && (s == [] ==> r.variance == 0.0)
    ensures s != []
  {
    SquareNonNegative(threshold);
  }
}
