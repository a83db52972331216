// Metric vectors: normalization of log metrics, the rolling baseline and the anomaly test.
// Reals stand for doubles; distances are squared, so the 0.75 threshold is 9/16.
module Encoder {
  import opened SeverityModel
  import opened Protocol
  import opened Vectors
  import opened Baseline

  const INT32_MAX: int := 0x7FFF_FFFF
  const UINT32_MAX: int := 0xFFFF_FFFF
  const MAX_PID: int := 4194304

  type Features = Vector<real>

  function Min(x: real, y: real): real { if x <= y then x else y }

  function Max(x: real, y: real): real { if x >= y then x else y }

  /** Remainder of a non-negative real, as the floating-point % of the source. */
  function Remainder(x: real, y: real): (r: real)
    requires x >= 0.0 && y > 0.0
  {
    x - y * ((x / y).Floor as real)
  }

  lemma RemainderRange(x: real, y: real)
    requires x >= 0.0 && y > 0.0
    ensures 0.0 <= Remainder(x, y) < y
    ensures x < y ==> Remainder(x, y) == x
  {
    var q := x / y;
    assert q * y == x;
    FloorScales(x, y, q, q.Floor as real);
    if x < y { QuotientBelowOne(q, x, y); }
  }

  ghost predicate Leaves(x: real, y: real, times: nat, r: real) { x == y * times as real + r }

  /** r is what is left of x after as many whole y as it holds. */
  ghost predicate IsRest(x: real, y: real, r: real) {
    0.0 <= r < y && exists times: nat :: Leaves(x, y, times, r)
  }

  lemma RemainderIs(x: real, y: real)
    requires x >= 0.0 && y > 0.0
    ensures IsRest(x, y, Remainder(x, y))
  {
    RemainderRange(x, y);
    var q := x / y;
    assert q * y == x;
    if q < 0.0 { StrictProduct(-q, y); }
    assert Leaves(x, y, q.Floor, Remainder(x, y));
  }

  lemma FloorScales(x: real, y: real, q: real, k: real)
    requires y > 0.0 && x == q * y && k <= q < k + 1.0
    ensures 0.0 <= x - y * k < y
  {
    var d, e := q - k, k + 1.0 - q;
    StrictProduct(e, y);
    WeakProduct(d, y);
    assert d * y == q * y - y * k;
    assert e * y == y * k + y - q * y;
  }

  lemma WeakProduct(x: real, y: real)
    requires x >= 0.0 && y > 0.0
    ensures x * y >= 0.0
  {
  }

  lemma StrictProduct(x: real, y: real)
    requires x > 0.0 && y > 0.0
    ensures x * y > 0.0
  {
  }

  lemma QuotientBelowOne(q: real, x: real, y: real)
    requires x == q * y && 0.0 <= x < y
    ensures q.Floor == 0
  {
    if q >= 1.0 { WeakProduct(q - 1.0, y); }
    if q < 0.0 { StrictProduct(-q, y); }
  }

  predicate IsUnit(x: real) { 0.0 <= x <= 1.0 }

  ghost predicate AllUnit(s: seq<real>) { forall i | 0 <= i < |s| :: IsUnit(s[i]) }

  /**
   * Overwrites the eight slots with the normalized metrics.  All of them lie in the unit interval
   * exactly when the timestamp does and no other metric but the z-score is negative.
   */
  method ComputeStateVector(length: int, severity: int, frequency: real, timestamp: real, processId: int,
      entropy: real, zscore: real, protocolPhase: int, vector: array<real>)
    requires vector.Length == VEC_DIM && processId >= 0
    modifies vector
    ensures vector[..] == Normalized(length, severity, frequency, timestamp, processId, entropy, zscore, protocolPhase)
    ensures AllUnit(vector[..]) <==>
      && length >= 0 && severity >= 0 && frequency >= 0.0 && IsUnit(timestamp)
      && entropy >= 0.0 && protocolPhase >= 0
  {
    NormalizedIsUnit(length, severity, frequency, timestamp, processId, entropy, zscore, protocolPhase);
    hide AllUnit;
    vector[0] := Min(1.0, length as real / 1024.0);
    vector[1] := Min(1.0, severity as real / 5.0);
    vector[2] := Min(1.0, frequency / 1000.0);
    vector[3] := timestamp;
    vector[4] := Remainder(processId as real, MAX_PID as real) / MAX_PID as real;
    vector[5] := Min(1.0, entropy);
    vector[6] := Min(1.0, Max(0.0, zscore / 10.0));
    vector[7] := Min(1.0, protocolPhase as real / 4.0);
  }

  function Normalized(length: int, severity: int, frequency: real, timestamp: real, processId: int,
      entropy: real, zscore: real, protocolPhase: int): (r: seq<real>)
    requires processId >= 0
    ensures |r| == VEC_DIM
  {
    [Min(1.0, length as real / 1024.0), Min(1.0, severity as real / 5.0), Min(1.0, frequency / 1000.0), timestamp,
     Remainder(processId as real, MAX_PID as real) / MAX_PID as real, Min(1.0, entropy),
     Min(1.0, Max(0.0, zscore / 10.0)), Min(1.0, protocolPhase as real / 4.0)]
  }

  lemma CappedIsUnit(x: real)
    ensures IsUnit(Min(1.0, x)) <==> x >= 0.0
  {
  }

  lemma NormalizedIsUnit(length: int, severity: int, frequency: real, timestamp: real, processId: int,
      entropy: real, zscore: real, protocolPhase: int)
    requires processId >= 0
    ensures AllUnit(Normalized(length, severity, frequency, timestamp, processId, entropy, zscore, protocolPhase))
      <==> (
        && length >= 0 && severity >= 0 && frequency >= 0.0 && IsUnit(timestamp)
        && entropy >= 0.0 && protocolPhase >= 0)
  {
    hide Remainder, Min, Max, IsUnit;
    var r := Normalized(length, severity, frequency, timestamp, processId, entropy, zscore, protocolPhase);
    CappedIsUnit(length as real / 1024.0);
    CappedIsUnit(severity as real / 5.0);
    CappedIsUnit(frequency / 1000.0);
    CappedIsUnit(entropy);
    CappedIsUnit(Max(0.0, zscore / 10.0));
    CappedIsUnit(protocolPhase as real / 4.0);
    MaxNonNegative(zscore / 10.0);
    ProcessSlotIsUnit(processId);
    AllUnitOfEight(r);
  }

  lemma MaxNonNegative(x: real)
    ensures Max(0.0, x) >= 0.0
  {
  }

  lemma ProcessSlotIsUnit(processId: nat)
    ensures IsUnit(Remainder(processId as real, MAX_PID as real) / MAX_PID as real)
  {
    hide Remainder;
    RemainderRange(processId as real, MAX_PID as real);
  }

  lemma AllUnitOfEight(r: seq<real>)
    requires |r| == VEC_DIM
    ensures AllUnit(r) <==>
      && IsUnit(r[0]) && IsUnit(r[1]) && IsUnit(r[2]) && IsUnit(r[3])
      && IsUnit(r[4]) && IsUnit(r[5]) && IsUnit(r[6]) && IsUnit(r[7])
  {
    hide IsUnit;
  }

  /** Metrics of one log line; the elapsed time and the analysis are inputs. */
  datatype Metrics = Metrics(
    length: nat, severity: Severity, entropy: real, zscore: real, phase: Phase, pid: nat, elapsed: real)

  ghost predicate IsMetrics(m: Metrics) {
    m.entropy >= 0.0 && m.elapsed >= 0.0 && m.pid <= UINT32_MAX
  }

  /** Average number of lines a second up to the `lineCount`-th; the count saturates at 32 bits. */
  function LinesPerSecond(elapsed: real, lineCount: nat): (r: real)
    requires elapsed >= 0.0
    ensures r >= 0.0
  {
    var lines := if lineCount <= UINT32_MAX then lineCount else UINT32_MAX;
    if elapsed > 0.0 then (QuotientNonNegative(lines as real, elapsed); lines as real / elapsed) else 0.0
  }

  /** The rate times the time is the number of lines, as far as 32 bits count them. */
  lemma RateIs(elapsed: real, lineCount: nat)
    requires elapsed >= 0.0
    ensures elapsed > 0.0 ==>
      LinesPerSecond(elapsed, lineCount) * elapsed
        == (if lineCount <= 4294967295 then lineCount else 4294967295) as real
    ensures elapsed == 0.0 ==> LinesPerSecond(elapsed, lineCount) == 0.0
  {
  }

  lemma QuotientNonNegative(x: real, y: real)
    requires x >= 0.0 && y > 0.0
    ensures x / y >= 0.0
  {
  }

  /** Features of the `lineCount`-th line. */
  function FeaturesOf(m: Metrics, lineCount: nat): (r: seq<real>)
    requires m.elapsed >= 0.0
    ensures |r| == VEC_DIM
  {
    Normalized(
      if m.length <= INT32_MAX then m.length else INT32_MAX, Code(m.severity), LinesPerSecond(m.elapsed, lineCount),
      Remainder(m.elapsed, 60.0) / 60.0, m.pid % MAX_PID, m.entropy, m.zscore, PhaseCode(m.phase))
  }

  /** Every built vector is normalized. */
  lemma FeaturesAreUnit(m: Metrics, lineCount: nat)
    requires IsMetrics(m)
    ensures AllUnit(FeaturesOf(m, lineCount))
  {
    hide AllUnit, Normalized, Remainder;
    RemainderRange(m.elapsed, 60.0);
    NormalizedIsUnit(
      if m.length <= INT32_MAX then m.length else INT32_MAX, Code(m.severity), LinesPerSecond(m.elapsed, lineCount),
      Remainder(m.elapsed, 60.0) / 60.0, m.pid % MAX_PID, m.entropy, m.zscore, PhaseCode(m.phase));
  }

  // ----- Reading metrics back -----

  /** The severity bucket the decoder prints: the one whose fifth of the scale is nearest. */
  function SeverityOfFeature(x: real): (r: Severity)
    ensures x < 0.1 <==> Code(r) == 0
    ensures 0.1 <= x < 1.0 ==> Code(r) as real - 0.5 <= 5.0 * x < Code(r) as real + 0.5
    ensures x >= 1.0 ==> Code(r) == 5
  {
    if x < 0.1 then Trace
    else if x < 0.3 then Debug
    else if x < 0.5 then Info
    else if x < 0.7 then Warn
    else if x < 0.9 then Error
    else Fatal
  }

  /**
   * What the decoder recovers: the severity and phase, the process id modulo 4194304, the length
   * up to 1024, up to 1000 lines a second, the entropy up to 1, the z-score clamped to 0..10, and
   * the second within the minute.
   */
  lemma MetricsReadBack(m: Metrics, lineCount: nat)
    requires IsMetrics(m)
    ensures var f := FromComponents(FeaturesOf(m, lineCount));
      && SeverityOfFeature(f.severity) == m.severity
      && f.protocol * 4.0 == PhaseCode(m.phase) as real
      && f.processId * 4194304.0 == (m.pid % 4194304) as real
      && f.length * 1024.0 == (if m.length <= 1024 then m.length else 1024) as real
      && (f.frequency < 1.0 && m.elapsed > 0.0 ==>
            f.frequency * 1000.0 * m.elapsed == (if lineCount <= 4294967295 then lineCount else 4294967295) as real)
      && (m.elapsed == 0.0 ==> f.frequency == 0.0)
      && f.entropy == (if m.entropy <= 1.0 then m.entropy else 1.0)
      && f.zscore * 10.0 == (if m.zscore < 0.0 then 0.0 else if m.zscore <= 10.0 then m.zscore else 10.0)
      && IsRest(m.elapsed, 60.0, f.timestamp * 60.0)
  {
    hide Remainder, LinesPerSecond;
    hide IsRest;
    RemainderIs(m.elapsed, 60.0);
    RateIs(m.elapsed, lineCount);
    RemainderRange((m.pid % MAX_PID) as real, MAX_PID as real);
  }

  // ----- The baseline -----

  /** Feature j of a sequence of observed vectors. */
  ghost function Column(vs: seq<seq<real>>, j: nat): (r: seq<real>)
    requires j < VEC_DIM && forall k | 0 <= k < |vs| :: |vs[k]| == VEC_DIM
    ensures |r| == |vs| && forall k | 0 <= k < |r| :: r[k] == vs[k][j]
  {
    seq(|vs|, k requires 0 <= k < |vs| => vs[k][j])
  }

  /** The baseline after these vectors, in closed weighted form; all zeros before the first. */
  ghost predicate IsBaseline(b: seq<real>, vs: seq<seq<real>>, alpha: real)
    requires |b| == VEC_DIM && forall k | 0 <= k < |vs| :: |vs[k]| == VEC_DIM
  {
    forall j | 0 <= j < VEC_DIM ::
      b[j] == if vs == [] then 0.0 else WeightedSum(Column(vs, j), alpha, |vs|, |vs|)
  }

  /** First vector copied, later ones blended in place. */
  method UpdateBaseline(baseline: array<real>, observed: array<real>, alpha: real, count: int)
    requires baseline.Length == observed.Length == VEC_DIM && baseline != observed
    modifies baseline
    ensures forall j | 0 <= j < VEC_DIM ::
      baseline[j] == if count <= 1 then observed[j] else Blend(old(baseline[j]), observed[j], alpha)
  {
    hide Blend;
    if count <= 1 {
      for i := 0 to VEC_DIM
        invariant forall j | 0 <= j < i :: baseline[j] == observed[j]
      {
        baseline[i] := observed[i];
      }
      return;
    }
    for i := 0 to VEC_DIM
      invariant forall j | 0 <= j < i :: baseline[j] == Blend(old(baseline[j]), observed[j], alpha)
      invariant forall j | i <= j < VEC_DIM :: baseline[j] == old(baseline[j])
    {
      baseline[i] := Blend(baseline[i], observed[i], alpha);
    }
  }

  /** Squared distance over the first n features. */
  function SquaredDistance(v: seq<real>, w: seq<real>, n: nat): real
    requires n <= |v| && n <= |w|
  {
    if n == 0 then 0.0 else SquaredDistance(v, w, n - 1) + Mul(v[n - 1] - w[n - 1], v[n - 1] - w[n - 1])
  }

  /** All eight features count, each by the square of its difference. */
  lemma DistanceOfEight(v: seq<real>, w: seq<real>)
    requires |v| == |w| == 8
    ensures SquaredDistance(v, w, 8)
      == Mul(v[0] - w[0], v[0] - w[0]) + Mul(v[1] - w[1], v[1] - w[1]) + Mul(v[2] - w[2], v[2] - w[2])
       + Mul(v[3] - w[3], v[3] - w[3]) + Mul(v[4] - w[4], v[4] - w[4]) + Mul(v[5] - w[5], v[5] - w[5])
       + Mul(v[6] - w[6], v[6] - w[6]) + Mul(v[7] - w[7], v[7] - w[7])
  {
    hide Mul, SquaredDistance;
    DistanceStep(v, w, 0);
    DistanceStep(v, w, 1);
    DistanceStep(v, w, 2);
    DistanceStep(v, w, 3);
    DistanceStep(v, w, 4);
    DistanceStep(v, w, 5);
    DistanceStep(v, w, 6);
    DistanceStep(v, w, 7);
  }

  lemma DistanceStep(v: seq<real>, w: seq<real>, n: nat)
    requires n < |v| && n < |w|
    ensures SquaredDistance(v, w, 0) == 0.0
    ensures SquaredDistance(v, w, n + 1) == SquaredDistance(v, w, n) + Mul(v[n] - w[n], v[n] - w[n])
  {
  }

  /** Vectors that differ in one feature only are as far apart as that feature, whichever it is. */
  lemma {:induction false} DistanceOfOne(v: seq<real>, w: seq<real>, j: nat, n: nat)
    requires |v| == |w| && n <= |v| && j < |v| && forall i | 0 <= i < n && i != j :: v[i] == w[i]
    ensures SquaredDistance(v, w, n) == if j < n then (v[j] - w[j]) * (v[j] - w[j]) else 0.0
  {
    if n > 0 {
      DistanceOfOne(v, w, j, n - 1);
      if n - 1 != j { MulByConstants(v[n - 1] - w[n - 1]); }
    }
  }

  /** Distance at least 0.75, compared squared. */
  method IsAnomaly(observed: seq<real>, baseline: seq<real>) returns (r: bool)
    requires |observed| == |baseline| == VEC_DIM
    ensures r <==> SquaredDistance(observed, baseline, VEC_DIM) >= 9.0 / 16.0
    ensures forall j | 0 <= j < 8 && (forall i | 0 <= i < 8 && i != j :: observed[i] == baseline[i]) ::
      r <==> (observed[j] - baseline[j]) * (observed[j] - baseline[j]) >= 9.0 / 16.0
  {
    var sum := 0.0;
    for i := 0 to VEC_DIM
      invariant sum == SquaredDistance(observed, baseline, i)
    {
      var diff := observed[i] - baseline[i];
      sum := sum + Mul(diff, diff);
    }
    r := sum >= 0.5625;
    forall j | 0 <= j < 8 && (forall i | 0 <= i < 8 && i != j :: observed[i] == baseline[i])
      ensures r <==> (observed[j] - baseline[j]) * (observed[j] - baseline[j]) >= 9.0 / 16.0
    {
      DistanceOfOne(observed, baseline, j, 8);
    }
  }

  lemma SquareScales(r: real, d: real)
    ensures Mul(Mul(r, d), Mul(r, d)) == Mul(Mul(r, r), Mul(d, d))
  {
    assert (r * d) * (r * d) == (r * r) * (d * d);
  }

  /** The test runs after the update, so distances to the old baseline count (1 - alpha) times. */
  lemma {:induction false} DistanceAfterUpdate(x: seq<real>, before: seq<real>, after: seq<real>, alpha: real, n: nat)
    requires |x| == |before| == |after| && n <= |x|
    requires forall j | 0 <= j < |x| :: after[j] == Blend(before[j], x[j], alpha)
    ensures SquaredDistance(x, after, n) == Mul(Mul(1.0 - alpha, 1.0 - alpha), SquaredDistance(x, before, n))
  {
    hide Mul, Blend;
    var r := Mul(1.0 - alpha, 1.0 - alpha);
    MulByConstants(r);
    if n > 0 {
      DistanceAfterUpdate(x, before, after, alpha, n - 1);
      var d := x[n - 1] - before[n - 1];
      DistanceShrinks(before[n - 1], x[n - 1], alpha);
      SquareScales(1.0 - alpha, d);
      MulAssociates(r, SquaredDistance(x, before, n - 1), 1.0);
      MulAssociates(r, Mul(d, d), 1.0);
      MulAssociates(r, SquaredDistance(x, before, n), 1.0);
      MulAdds(SquaredDistance(x, before, n - 1), Mul(d, d), r);
    }
  }

  lemma {:induction false} NoDistance(x: seq<real>, n: nat)
    requires n <= |x|
    ensures SquaredDistance(x, x, n) == 0.0
  {
    if n > 0 {
      NoDistance(x, n - 1);
      hide Mul;
      MulByConstants(0.0);
      assert x[n - 1] - x[n - 1] == 0.0;
    }
  }

  lemma ColumnGrows(vs: seq<seq<real>>, v: seq<real>, j: nat)
    requires j < VEC_DIM && (forall k | 0 <= k < |vs| :: |vs[k]| == VEC_DIM) && |v| == VEC_DIM
    ensures Column(vs + [v], j) == Column(vs, j) + [v[j]]
  {
  }

  lemma BaselineStep(b: seq<real>, vs: seq<seq<real>>, v: seq<real>, c: seq<real>, alpha: real)
    requires |b| == |v| == |c| == VEC_DIM && (forall k | 0 <= k < |vs| :: |vs[k]| == VEC_DIM)
    requires IsBaseline(b, vs, alpha)
    requires forall j | 0 <= j < VEC_DIM :: c[j] == if vs == [] then v[j] else Blend(b[j], v[j], alpha)
    ensures IsBaseline(c, vs + [v], alpha)
  {
    hide Blend, WeightedSum;
    forall j | 0 <= j < VEC_DIM
      ensures c[j] == WeightedSum(Column(vs + [v], j), alpha, |vs| + 1, |vs| + 1)
    {
      ColumnGrows(vs, v, j);
      FeatureStep(b[j], Column(vs, j), v[j], c[j], alpha);
    }
  }

  lemma FeatureStep(b: real, xs: seq<real>, x: real, c: real, alpha: real)
    requires xs != [] ==> b == WeightedSum(xs, alpha, |xs|, |xs|)
    requires c == if xs == [] then x else Blend(b, x, alpha)
    ensures c == WeightedSum(xs + [x], alpha, |xs| + 1, |xs| + 1)
  {
    hide Blend, WeightedSum;
    assert (xs + [x])[..|xs|] == xs;
    AverageClosedForm(xs + [x], alpha);
    if xs != [] { AverageClosedForm(xs, alpha); }
  }

  /** The baseline of normalized vectors is normalized. */
  lemma BaselineIsUnit(b: seq<real>, vs: seq<seq<real>>, alpha: real)
    requires |b| == VEC_DIM && IsRate(alpha)
    requires forall k | 0 <= k < |vs| :: |vs[k]| == VEC_DIM && AllUnit(vs[k])
    requires IsBaseline(b, vs, alpha)
    ensures AllUnit(b)
  {
    hide WeightedSum, Average;
    if vs != [] {
      forall j | 0 <= j < VEC_DIM ensures IsUnit(b[j]) {
        var xs := Column(vs, j);
        forall k | 0 <= k < |xs| ensures 0.0 <= xs[k] <= 1.0 {
          assert IsUnit(vs[k][j]);
        }
        AverageClosedForm(xs, alpha);
        AverageWithin(xs, alpha, 0.0, 1.0);
      }
    }
  }

  /** Encoders that see the same further vectors converge at the rate 1 - alpha, feature by feature. */
  lemma BaselinesConverge(b: seq<real>, c: seq<real>, b2: seq<real>, c2: seq<real>,
      vs: seq<seq<real>>, ws: seq<seq<real>>, more: seq<seq<real>>, alpha: real, j: nat)
    requires |b| == |c| == |b2| == |c2| == VEC_DIM && j < VEC_DIM && vs != [] && ws != []
    requires forall k | 0 <= k < |vs| :: |vs[k]| == VEC_DIM
    requires forall k | 0 <= k < |ws| :: |ws[k]| == VEC_DIM
    requires forall k | 0 <= k < |more| :: |more[k]| == VEC_DIM
    requires IsBaseline(b, vs, alpha) && IsBaseline(c, ws, alpha)
    requires IsBaseline(b2, vs + more, alpha) && IsBaseline(c2, ws + more, alpha)
    ensures b2[j] - c2[j] == Mul(b[j] - c[j], Power(1.0 - alpha, |more|))
  {
    hide WeightedSum, Average, Mul, Power;
    var xs, ys, zs := Column(vs, j), Column(ws, j), Column(more, j);
    assert Column(vs + more, j) == xs + zs && Column(ws + more, j) == ys + zs;
    AverageClosedForm(xs, alpha);
    AverageClosedForm(ys, alpha);
    AverageClosedForm(xs + zs, alpha);
    AverageClosedForm(ys + zs, alpha);
    AveragesConverge(xs, ys, zs, alpha);
  }

  // ----- The encoder object -----

  /** The learning rate a builder accepts, clamped to the unit interval. */
  function ClampRate(alpha: real): (r: real)
    ensures 0.0 <= r <= 1.0 && (0.0 <= alpha <= 1.0 ==> r == alpha)
    ensures (alpha < 0.0 ==> r == 0.0) && (alpha > 1.0 ==> r == 1.0)
  {
    if alpha < 0.0 then 0.0 else if alpha > 1.0 then 1.0 else alpha
  }

  class VectorBuilder {
    var lineCount: nat
    var lastPid: nat
    var baselineAlpha: real

    constructor ()
      ensures lineCount == 0 && lastPid == 0 && baselineAlpha == 0.01
    {
      lineCount, lastPid, baselineAlpha := 0, 0, 0.01;
    }

    constructor WithAlpha(alpha: real)
      ensures lineCount == 0 && lastPid == 0 && baselineAlpha == ClampRate(alpha)
    {
      lineCount, lastPid, baselineAlpha := 0, 0, ClampRate(alpha);
    }

    method Build(m: Metrics) returns (vector: Features)
      requires IsMetrics(m)
      modifies this
      ensures lineCount == old(lineCount) + 1 && lastPid == m.pid && baselineAlpha == old(baselineAlpha)
      ensures Components(vector) == FeaturesOf(m, lineCount) && AllUnit(Components(vector))
    {
      hide Normalized, Remainder, Code, PhaseCode;
      lineCount := lineCount + 1;
      lastPid := m.pid;
      var lines := if lineCount <= UINT32_MAX then lineCount else UINT32_MAX;
      var frequency := if m.elapsed > 0.0 then lines as real / m.elapsed else 0.0;
      var timestamp := Remainder(m.elapsed, 60.0) / 60.0;
      var components := new real[VEC_DIM](_ => 0.0);
      var length := if m.length <= INT32_MAX then m.length else INT32_MAX;
      ComputeStateVector(length, Code(m.severity), frequency, timestamp, m.pid % MAX_PID, m.entropy, m.zscore,
        PhaseCode(m.phase), components);
      vector := FromComponents(components[..]);
      FeaturesAreUnit(m, lineCount);
    }
  }

  class VectorEncoder {
    var baseline: Features
    var vectorCount: nat
    const builder: VectorBuilder
    /** Every vector built so far. */
    ghost var observed: seq<seq<real>>

    ghost predicate Valid()
      reads this, builder
    {
      && vectorCount == |observed| && builder.lineCount == |observed|
      && IsRate(builder.baselineAlpha)
      && (forall k | 0 <= k < |observed| :: |observed[k]| == VEC_DIM && AllUnit(observed[k]))
      && IsBaseline(Components(baseline), observed, builder.baselineAlpha)
    }

    constructor ()
      ensures Valid() && observed == [] && fresh(builder) && builder.baselineAlpha == 0.01
    {
      baseline := Vector(0.0, 0.0, 0.0, 0.0, 0.0, 0.0, 0.0, 0.0);
      vectorCount := 0;
      observed := [];
      builder := new VectorBuilder();
    }

    /** Builds a vector, folds it into the baseline and only then compares the two. */
    method Encode(m: Metrics) returns (vector: Features, anomaly: bool)
      requires Valid() && IsMetrics(m)
      modifies this, builder
      ensures Valid() && builder.baselineAlpha == old(builder.baselineAlpha)
      ensures observed == old(observed) + [Components(vector)]
      ensures Components(vector) == FeaturesOf(m, |observed|)
      ensures AllUnit(Components(vector)) && AllUnit(Components(baseline))
      ensures |observed| == 1 ==> !anomaly && baseline == vector
      ensures |observed| > 1 ==>
        (anomaly <==>
          Mul(Mul(1.0 - builder.baselineAlpha, 1.0 - builder.baselineAlpha),
            SquaredDistance(Components(vector), old(Components(baseline)), VEC_DIM)) >= 9.0 / 16.0)
    {
      hide Blend, Mul, IsBaseline, FeaturesOf, AllUnit, SquaredDistance;
      ghost var vs, b := observed, Components(baseline);
      vector := builder.Build(m);
      vectorCount := vectorCount + 1;
      var slots := NewArray(Components(baseline));
      var values := NewArray(Components(vector));
      var count := if vectorCount <= INT32_MAX then vectorCount else INT32_MAX;
      UpdateBaseline(slots, values, builder.baselineAlpha, count);
      ghost var x, c := Components(vector), slots[..];
      BaselineStep(b, vs, x, c, builder.baselineAlpha);
      baseline := FromComponents(slots[..]);
      observed := observed + [x];
      BaselineIsUnit(c, observed, builder.baselineAlpha);
      anomaly := IsAnomaly(Components(vector), Components(baseline));
      if vs == [] {
        assert c == x;
        ComponentsInjective(baseline, vector);
        NoDistance(x, VEC_DIM);
      } else {
        DistanceAfterUpdate(x, b, c, builder.baselineAlpha, VEC_DIM);
      }
    }
  }

  method NewArray(s: seq<real>) returns (a: array<real>)
    ensures fresh(a) && a[..] == s && a.Length == |s|
  {
    a := new real[|s|](i requires 0 <= i < |s| => s[i]);
  }
}
