// Core loads produced by an assignment of processes to cores, and the makespan bounds
// that hold for the greedy strategy of the scheduler.
//
// Process indices are visited in some `order`; `w[i]` is the weight of process `i` and
// `a[i]` its core.  A prefix of the order is the set of processes placed so far.
module CoreLoads {
  ghost predicate Covers(order: seq<nat>, n: nat) {
    forall k | 0 <= k < |order| :: order[k] < n
  }

  ghost predicate InRange(a: seq<nat>, m: nat) {
    forall i | 0 <= i < |a| :: a[i] < m
  }

  ghost predicate NonNegative(w: seq<real>) {
    forall i | 0 <= i < |w| :: w[i] >= 0.0
  }

  ghost predicate Descending(order: seq<nat>, w: seq<real>)
    requires Covers(order, |w|)
  {
    forall j, k | 0 <= j < k < |order| :: w[order[j]] >= w[order[k]]
  }

  /** Weight placed on core `c` by the processes listed in `order`. */
  ghost function Load(order: seq<nat>, w: seq<real>, a: seq<nat>, c: nat): real
    requires |a| == |w| && Covers(order, |w|)
  {
    if order == [] then 0.0
    else
      var i := order[|order| - 1];
      Load(order[..|order| - 1], w, a, c) + if a[i] == c then w[i] else 0.0
  }

  ghost function Total(order: seq<nat>, w: seq<real>): real
    requires Covers(order, |w|)
  {
    if order == [] then 0.0 else Total(order[..|order| - 1], w) + w[order[|order| - 1]]
  }

  /** Sum of the loads of cores 0 .. m-1. */
  ghost function LoadSum(order: seq<nat>, w: seq<real>, a: seq<nat>, m: nat): real
    requires |a| == |w| && Covers(order, |w|)
  {
    if m == 0 then 0.0 else LoadSum(order, w, a, m - 1) + Load(order, w, a, m - 1)
  }

  /** x added to itself m times: keeps the proofs below linear. */
  ghost function Times(m: nat, x: real): real {
    if m == 0 then 0.0 else Times(m - 1, x) + x
  }

  lemma {:induction false} TimesIsProduct(m: nat, x: real)
    ensures Times(m, x) == m as real * x
  {
    if m > 0 { TimesIsProduct(m - 1, x); }
  }

  lemma {:induction false} TimesAdds(m: nat, x: real, y: real)
    ensures Times(m, x + y) == Times(m, x) + Times(m, y)
  {
    if m > 0 { TimesAdds(m - 1, x, y); }
  }

  lemma {:induction false} TimesMonotone(m: nat, x: real, y: real)
    requires x <= y
    ensures Times(m, x) <= Times(m, y)
  {
    if m > 0 { TimesMonotone(m - 1, x, y); }
  }

  lemma {:induction false} TimesOfZero(m: nat)
    ensures Times(m, 0.0) == 0.0
  {
    if m > 0 { TimesOfZero(m - 1); }
  }

  lemma {:induction false} LoadSumStep(order: seq<nat>, w: seq<real>, a: seq<nat>, m: nat)
    requires |a| == |w| && Covers(order, |w|) && order != []
    ensures var i := order[|order| - 1];
      LoadSum(order, w, a, m) == LoadSum(order[..|order| - 1], w, a, m) + if a[i] < m then w[i] else 0.0
  {
    if m > 0 { LoadSumStep(order, w, a, m - 1); }
  }

  /** Every process is on exactly one core, so the loads add up to the total weight. */
  lemma {:induction false} LoadsPartitionTotal(order: seq<nat>, w: seq<real>, a: seq<nat>, m: nat)
    requires |a| == |w| && Covers(order, |w|) && InRange(a, m)
    ensures LoadSum(order, w, a, m) == Total(order, w)
  {
    if order == [] {
      LoadSumOfNothing(w, a, m);
    } else {
      LoadSumStep(order, w, a, m);
      LoadsPartitionTotal(order[..|order| - 1], w, a, m);
    }
  }

  lemma LoadSumOfNothing(w: seq<real>, a: seq<nat>, m: nat)
    requires |a| == |w|
    ensures LoadSum([], w, a, m) == 0.0
  {
  }

  lemma {:induction false} LoadSumAtLeast(order: seq<nat>, w: seq<real>, a: seq<nat>, m: nat, low: real)
    requires |a| == |w| && Covers(order, |w|)
    requires forall c: nat | c < m :: Load(order, w, a, c) >= low
    ensures LoadSum(order, w, a, m) >= Times(m, low)
  {
    if m > 0 { LoadSumAtLeast(order, w, a, m - 1, low); }
  }

  lemma {:induction false} LoadSumAtMost(order: seq<nat>, w: seq<real>, a: seq<nat>, m: nat, high: real)
    requires |a| == |w| && Covers(order, |w|)
    requires forall c: nat | c < m :: Load(order, w, a, c) <= high
    ensures LoadSum(order, w, a, m) <= Times(m, high)
  {
    if m > 0 { LoadSumAtMost(order, w, a, m - 1, high); }
  }

  lemma LoadsBoundTotal(order: seq<nat>, w: seq<real>, a: seq<nat>, m: nat, high: real)
    requires |a| == |w| && Covers(order, |w|) && InRange(a, m)
    requires forall c: nat | c < m :: Load(order, w, a, c) <= high
    ensures Total(order, w) <= Times(m, high)
  {
    LoadSumAtMost(order, w, a, m, high);
    LoadsPartitionTotal(order, w, a, m);
  }

  /** Placing further processes never lightens a core. */
  lemma {:induction false} LoadGrows(order: seq<nat>, w: seq<real>, a: seq<nat>, c: nat, k: nat)
    requires |a| == |w| && Covers(order, |w|) && NonNegative(w) && k <= |order|
    ensures 0.0 <= Load(order[..k], w, a, c) <= Load(order, w, a, c)
    decreases |order|
  {
    if k < |order| {
      LoadGrows(order[..|order| - 1], w, a, c, k);
      assert order[..|order| - 1][..k] == order[..k];
    } else {
      assert order[..k] == order;
      if k > 0 { LoadGrows(order[..k - 1], w, a, c, k - 1); }
    }
  }

  /** A load depends on the assignment of the listed processes alone. */
  lemma {:induction false} LoadFrame(order: seq<nat>, w: seq<real>, a: seq<nat>, b: seq<nat>, c: nat)
    requires |a| == |b| == |w| && Covers(order, |w|)
    requires forall k | 0 <= k < |order| :: a[order[k]] == b[order[k]]
    ensures Load(order, w, a, c) == Load(order, w, b, c)
  {
    if order != [] { LoadFrame(order[..|order| - 1], w, a, b, c); }
  }

  lemma {:induction false} LoadDropAt(order: seq<nat>, w: seq<real>, a: seq<nat>, c: nat, j: nat)
    requires |a| == |w| && Covers(order, |w|) && j < |order|
    ensures var i := order[j];
      Load(order, w, a, c) == Load(order[..j] + order[j+1..], w, a, c) + if a[i] == c then w[i] else 0.0
  {
    var n := |order| - 1;
    if j == n {
      assert order[..j] + order[j+1..] == order[..n];
    } else {
      LoadDropAt(order[..n], w, a, c, j);
      var rest := order[..j] + order[j+1..];
      assert rest[..|rest| - 1] == order[..n][..j] + order[..n][j+1..];
      assert rest[|rest| - 1] == order[n];
    }
  }

  lemma MultisetDropAt(s: seq<nat>, j: nat)
    requires j < |s|
    ensures multiset(s[..j] + s[j+1..]) == multiset(s) - multiset{s[j]}
  {
    assert s == s[..j] + [s[j]] + s[j+1..];
  }

  /** The order in which processes are listed does not matter to a load. */
  lemma {:induction false} LoadPermutation(p: seq<nat>, q: seq<nat>, w: seq<real>, a: seq<nat>, c: nat)
    requires |a| == |w| && Covers(p, |w|) && Covers(q, |w|) && multiset(p) == multiset(q)
    ensures Load(p, w, a, c) == Load(q, w, a, c)
    decreases |p|
  {
    assert |multiset(p)| == |multiset(q)|;
    if p != [] {
      var last := p[|p| - 1];
      assert last in multiset(q);
      var j :| 0 <= j < |q| && q[j] == last;
      LoadDropAt(q, w, a, c, j);
      var rest := q[..j] + q[j+1..];
      assert multiset(p[..|p| - 1]) == multiset(rest) by {
        MultisetDropAt(p, |p| - 1);
        MultisetDropAt(q, j);
        assert p[..|p| - 1] + p[|p|..] == p[..|p| - 1];
      }
      LoadPermutation(p[..|p| - 1], rest, w, a, c);
    }
  }

  // ----- The greedy run -----

  /** The k-th placement goes to a core of least load, and to the lowest-numbered such core. */
  ghost predicate GreedyChoice(order: seq<nat>, w: seq<real>, m: nat, a: seq<nat>, k: nat)
    requires |a| == |w| && Covers(order, |w|) && k < |order|
  {
    var core := a[order[k]];
    && core < m
    && (forall c: nat | c < m :: Load(order[..k], w, a, core) <= Load(order[..k], w, a, c))
    && (forall c: nat | c < core :: Load(order[..k], w, a, core) < Load(order[..k], w, a, c))
  }

  ghost predicate IsGreedyRun(order: seq<nat>, w: seq<real>, m: nat, a: seq<nat>)
    requires |a| == |w| && Covers(order, |w|)
  {
    forall k | 0 <= k < |order| :: GreedyChoice(order, w, m, a, k)
  }

  /** The greedy rule leaves no freedom: two greedy runs place every process alike. */
  lemma {:induction false} GreedyRunUnique(order: seq<nat>, w: seq<real>, m: nat, a: seq<nat>, b: seq<nat>, n: nat)
    requires |a| == |b| == |w| && Covers(order, |w|) && n <= |order|
    requires IsGreedyRun(order, w, m, a) && IsGreedyRun(order, w, m, b)
    ensures forall k | 0 <= k < n :: a[order[k]] == b[order[k]]
  {
    if n > 0 {
      GreedyRunUnique(order, w, m, a, b, n - 1);
      var k := n - 1;
      assert GreedyChoice(order, w, m, a, k) && GreedyChoice(order, w, m, b, k);
      var ca, cb := a[order[k]], b[order[k]];
      LoadFrame(order[..k], w, a, b, ca);
      LoadFrame(order[..k], w, a, b, cb);
    }
  }

  /** While there are untouched cores the k-th process starts a fresh one: core k. */
  lemma {:induction false} FirstProcessesSpread(order: seq<nat>, w: seq<real>, m: nat, a: seq<nat>, k: nat)
    requires |a| == |w| && Covers(order, |w|) && IsGreedyRun(order, w, m, a)
    requires forall i | 0 <= i < |w| :: w[i] > 0.0
    requires k < |order| && k < m
    ensures a[order[k]] == k
    ensures forall c: nat | c < m :: Load(order[..k], w, a, c) > 0.0 <==> c < k
    ensures forall c: nat | k <= c < m :: Load(order[..k], w, a, c) == 0.0
  {
    if k > 0 {
      FirstProcessesSpread(order, w, m, a, k - 1);
      assert order[..k][..k - 1] == order[..k - 1];
    }
    assert GreedyChoice(order, w, m, a, k);
    assert Load(order[..k], w, a, k) == 0.0;
    assert Load(order[..k], w, a, a[order[k]]) <= 0.0;
  }

  /** The least-loaded core carries at most the average of what has been placed. */
  lemma GreedyBelowAverage(order: seq<nat>, w: seq<real>, m: nat, a: seq<nat>, k: nat)
    requires |a| == |w| && Covers(order, |w|) && InRange(a, m) && k < |order|
    requires GreedyChoice(order, w, m, a, k)
    ensures Times(m, Load(order[..k], w, a, a[order[k]])) <= Total(order[..k], w)
  {
    LoadSumAtLeast(order[..k], w, a, m, Load(order[..k], w, a, a[order[k]]));
    LoadsPartitionTotal(order[..k], w, a, m);
  }

  /** What has been placed is at most m times any load bound another assignment meets. */
  lemma OtherAboveAverage(order: seq<nat>, w: seq<real>, m: nat, other: seq<nat>, bound: real, k: nat)
    requires |other| == |w| && Covers(order, |w|) && InRange(other, m) && NonNegative(w) && k <= |order|
    requires forall c: nat | c < m :: Load(order, w, other, c) <= bound
    ensures Total(order[..k], w) <= Times(m, bound)
  {
    var placed := order[..k];
    forall c: nat | c < m ensures Load(placed, w, other, c) <= bound {
      LoadGrows(order, w, other, c, k);
    }
    LoadsBoundTotal(placed, w, other, m, bound);
  }

  /** load <= (4/3 - 1/(3m)) * bound, cleared of denominators. */
  ghost predicate WithinRatio(m: nat, load: real, bound: real) {
    3.0 * Times(m, load) <= 4.0 * Times(m, bound) - bound
  }

  lemma LightStep(m: nat, low: real, wk: real, total: real, bound: real)
    requires m >= 1 && Times(m, low) <= total && total + wk <= Times(m, bound) && 3.0 * wk <= bound
    ensures WithinRatio(m, low + wk, bound)
  {
    TimesAdds(m, low, wk);
    TimesAdds(m - 1, wk, wk);
    TimesAdds(m - 1, wk + wk, wk);
    TimesMonotone(m - 1, wk + wk + wk, bound);
  }

  lemma HeavyStep(m: nat, load: real, bound: real)
    requires m >= 1 && 0.0 <= bound && load <= bound
    ensures WithinRatio(m, load, bound)
  {
    TimesMonotone(m, load, bound);
    TimesOfZero(m - 1);
    TimesMonotone(m - 1, 0.0, bound);
  }

  /** List-scheduling bound: m * makespan <= total + (m - 1) * heaviest process. */
  lemma {:induction false} GreedyListBound(
      order: seq<nat>, w: seq<real>, m: nat, a: seq<nat>, heaviest: real, n: nat, c: nat)
    requires |a| == |w| && Covers(order, |w|) && IsGreedyRun(order, w, m, a) && InRange(a, m)
    requires NonNegative(w) && forall i | 0 <= i < |w| :: w[i] <= heaviest
    requires heaviest >= 0.0 && n <= |order| && c < m
    ensures Times(m, Load(order[..n], w, a, c)) <= Total(order[..n], w) + Times(m, heaviest) - heaviest
  {
    if n == 0 {
      TimesOfZero(m);
      TimesMonotone(m - 1, 0.0, heaviest);
      TimesOfZero(m - 1);
    } else {
      var placed, i := order[..n - 1], order[n - 1];
      GreedyListBound(order, w, m, a, heaviest, n - 1, c);
      assert order[..n][..n - 1] == placed;
      if a[i] == c {
        assert GreedyChoice(order, w, m, a, n - 1);
        GreedyBelowAverage(order, w, m, a, n - 1);
        TimesAdds(m, Load(placed, w, a, c), w[i]);
        TimesMonotone(m - 1, w[i], heaviest);
      }
    }
  }

  // ----- Longest processing time first -----

  /** Counts 2 for a process that shares no core with one of weight `wk` within `bound`, else 1. */
  ghost function Occupancy(w: seq<real>, wk: real, bound: real): (h: seq<real>)
    ensures |h| == |w|
  {
    seq(|w|, i requires 0 <= i < |w| => if w[i] + wk > bound then 2.0 else 1.0)
  }

  /** A core too full for a further weight `wk` has occupancy at least 2. */
  lemma {:induction false} FullCoreOccupancy(order: seq<nat>, w: seq<real>, a: seq<nat>, c: nat, wk: real, bound: real)
    requires |a| == |w| && Covers(order, |w|) && NonNegative(w) && wk <= bound
    ensures var h := Load(order, Occupancy(w, wk, bound), a, c);
      && (h == 0.0 ==> Load(order, w, a, c) == 0.0)
      && (h == 0.0 || h >= 1.0)
      && (h < 2.0 ==> Load(order, w, a, c) + wk <= bound)
  {
    if order != [] {
      FullCoreOccupancy(order[..|order| - 1], w, a, c, wk, bound);
    }
  }

  /** If every process weighs at least `wk > bound/3`, a core within `bound` has occupancy at most 2. */
  lemma {:induction false} WithinBoundOccupancy(
      order: seq<nat>, w: seq<real>, a: seq<nat>, c: nat, wk: real, bound: real)
    requires |a| == |w| && Covers(order, |w|)
    requires 3.0 * wk > bound && wk > 0.0
    requires forall k | 0 <= k < |order| :: w[order[k]] >= wk
    requires Load(order, w, a, c) <= bound
    ensures var h := Load(order, Occupancy(w, wk, bound), a, c);
      && (h == 0.0 || h == 1.0 || h == 2.0)
      && (h == 0.0 ==> Load(order, w, a, c) == 0.0)
      && (h == 1.0 ==> Load(order, w, a, c) >= wk)
      && (h == 2.0 ==> Load(order, w, a, c) + wk > bound)
  {
    if order != [] {
      WithinBoundOccupancy(order[..|order| - 1], w, a, c, wk, bound);
    }
  }

  /** Each core of the other schedule has occupancy at most 2 among the first k+1 processes. */
  lemma OtherCoreOccupancy(order: seq<nat>, w: seq<real>, other: seq<nat>, bound: real, k: nat, c: nat)
    requires |other| == |w| && Covers(order, |w|) && NonNegative(w) && Descending(order, w)
    requires Load(order, w, other, c) <= bound
    requires k < |order| && 3.0 * w[order[k]] > bound && w[order[k]] > 0.0
    ensures Load(order[..k + 1], Occupancy(w, w[order[k]], bound), other, c) <= 2.0
  {
    LoadGrows(order, w, other, c, k + 1);
    WithinBoundOccupancy(order[..k + 1], w, other, c, w[order[k]], bound);
  }

  /** The first k+1 processes have total occupancy at most 2m, since the other schedule holds them. */
  lemma OccupancyCapacity(order: seq<nat>, w: seq<real>, m: nat, other: seq<nat>, bound: real, k: nat)
    requires |other| == |w| && Covers(order, |w|) && NonNegative(w)
    requires Descending(order, w) && InRange(other, m)
    requires forall c: nat | c < m :: Load(order, w, other, c) <= bound
    requires k < |order| && 3.0 * w[order[k]] > bound && w[order[k]] > 0.0
    ensures Total(order[..k + 1], Occupancy(w, w[order[k]], bound)) <= Times(m, 2.0)
  {
    var h := Occupancy(w, w[order[k]], bound);
    var placed := order[..k + 1];
    forall c: nat | c < m ensures Load(placed, h, other, c) <= 2.0 {
      OtherCoreOccupancy(order, w, other, bound, k, c);
    }
    LoadsBoundTotal(placed, h, other, m, 2.0);
  }

  /** If no core can take a further `wk`, what is placed has total occupancy at least 2m. */
  lemma FullCoresOccupancy(placed: seq<nat>, w: seq<real>, m: nat, a: seq<nat>, wk: real, bound: real)
    requires |a| == |w| && Covers(placed, |w|) && NonNegative(w) && InRange(a, m) && wk <= bound
    requires forall c: nat | c < m :: Load(placed, w, a, c) + wk > bound
    ensures Total(placed, Occupancy(w, wk, bound)) >= Times(m, 2.0)
  {
    var h := Occupancy(w, wk, bound);
    forall c: nat | c < m ensures Load(placed, h, a, c) >= 2.0 {
      FullCoreOccupancy(placed, w, a, c, wk, bound);
    }
    LoadSumAtLeast(placed, h, a, m, 2.0);
    LoadsPartitionTotal(placed, h, a, m);
  }

  /** Any schedule within `bound` shows that each single process is. */
  lemma ProcessWithinBound(order: seq<nat>, w: seq<real>, other: seq<nat>, bound: real, k: nat)
    requires |other| == |w| && Covers(order, |w|) && NonNegative(w) && k < |order|
    requires Load(order, w, other, other[order[k]]) <= bound
    ensures w[order[k]] <= bound
  {
    var c := other[order[k]];
    LoadGrows(order, w, other, c, k + 1);
    assert order[..k + 1][..k] == order[..k];
    LoadGrows(order[..k], w, other, c, 0);
  }

  /** A heavy process still fits: some core can take it within the bound the other schedule meets. */
  lemma HeavyProcessFits(order: seq<nat>, w: seq<real>, m: nat, a: seq<nat>, other: seq<nat>, bound: real, k: nat)
    requires |a| == |other| == |w| && Covers(order, |w|) && NonNegative(w) && Descending(order, w)
    requires k < |order| && GreedyChoice(order, w, m, a, k) && InRange(a, m) && InRange(other, m)
    requires forall c: nat | c < m :: Load(order, w, other, c) <= bound
    requires 3.0 * w[order[k]] > bound && w[order[k]] > 0.0
    ensures Load(order[..k], w, a, a[order[k]]) + w[order[k]] <= bound
  {
    var wk, placed := w[order[k]], order[..k];
    var h := Occupancy(w, wk, bound);
    if Load(placed, w, a, a[order[k]]) + wk > bound {
      assert h[order[k]] >= 1.0;
      assert order[..k + 1][..k] == placed;
      assert Total(order[..k + 1], h) == Total(placed, h) + h[order[k]];
      ProcessWithinBound(order, w, other, bound, k);
      FullCoresOccupancy(placed, w, m, a, wk, bound);
      OccupancyCapacity(order, w, m, other, bound, k);
    }
  }

  /** A light process adds at most a third of the bound, scaled by (1 - 1/m). */
  lemma LightProcessFits(order: seq<nat>, w: seq<real>, m: nat, a: seq<nat>, other: seq<nat>, bound: real, k: nat)
    requires |a| == |other| == |w| && Covers(order, |w|) && NonNegative(w)
    requires k < |order| && GreedyChoice(order, w, m, a, k) && InRange(a, m) && InRange(other, m)
    requires forall c: nat | c < m :: Load(order, w, other, c) <= bound
    requires 3.0 * w[order[k]] <= bound
    ensures WithinRatio(m, Load(order[..k], w, a, a[order[k]]) + w[order[k]], bound)
  {
    var low, wk, total := Load(order[..k], w, a, a[order[k]]), w[order[k]], Total(order[..k], w);
    assert WithinRatio(m, low + wk, bound) by {
      GreedyBelowAverage(order, w, m, a, k);
      OtherAboveAverage(order, w, m, other, bound, k + 1);
      assert order[..k + 1][..k] == order[..k];
      LightStep(m, low, wk, total, bound);
    }
  }

  /** The core that receives the k-th process ends within the ratio. */
  lemma LongestFirstStep(order: seq<nat>, w: seq<real>, m: nat, a: seq<nat>, other: seq<nat>, bound: real, k: nat)
    requires |a| == |other| == |w| && Covers(order, |w|) && NonNegative(w) && Descending(order, w)
    requires k < |order| && GreedyChoice(order, w, m, a, k) && InRange(a, m) && InRange(other, m)
    requires forall c: nat | c < m :: Load(order, w, other, c) <= bound
    requires 0.0 <= bound
    ensures WithinRatio(m, Load(order[..k], w, a, a[order[k]]) + w[order[k]], bound)
  {
    hide Load, Times, WithinRatio, GreedyChoice;
    var placed, i := order[..k], order[k];
    var low := Load(placed, w, a, a[i]);
    if 3.0 * w[i] > bound {
      HeavyProcessFits(order, w, m, a, other, bound, k);
      HeavyStep(m, low + w[i], bound);
    } else {
      LightProcessFits(order, w, m, a, other, bound, k);
    }
  }

  /**
   * Graham's ratio for longest-processing-time-first scheduling: whatever load bound
   * another assignment to the same m cores achieves, the greedy one stays within
   * (4/3 - 1/(3m)) of it on every core.
   */
  lemma {:induction false} LongestFirstBound(
      order: seq<nat>, w: seq<real>, m: nat, a: seq<nat>, other: seq<nat>, bound: real, n: nat, c: nat)
    requires |a| == |other| == |w| && Covers(order, |w|) && NonNegative(w)
    requires Descending(order, w) && IsGreedyRun(order, w, m, a) && InRange(a, m) && InRange(other, m)
    requires forall d: nat | d < m :: Load(order, w, other, d) <= bound
    requires n <= |order| && c < m
    ensures WithinRatio(m, Load(order[..n], w, a, c), bound)
  {
    LoadGrows(order, w, other, c, 0);
    if n == 0 {
      HeavyStep(m, 0.0, bound);
    } else {
      LongestFirstBound(order, w, m, a, other, bound, n - 1, c);
      assert order[..n][..n - 1] == order[..n - 1];
      assert GreedyChoice(order, w, m, a, n - 1);
      LongestFirstStep(order, w, m, a, other, bound, n - 1);
    }
  }
}
