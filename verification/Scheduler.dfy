// The Ising scheduler: placement strategies, the energy of a placement and the process table.
// Entropies are reals; a placement assigns each process index a core.
module Scheduler {
  import opened StableSort
  import opened CoreLoads
  import opened RoundRobin
  import opened CoreEnergy
  import opened Options

  const USIZE_MAX: nat := 0xFFFF_FFFF_FFFF_FFFF

  datatype Strategy = Greedy | RoundRobin | Balanced

  datatype CoreAdjacency = CoreAdjacency(coreCount: nat, adjacency: seq<seq<bool>>)

  datatype ProcessInfo = ProcessInfo(
    pid: nat, name: string, entropy: real, currentCore: Option<nat>, cpuBound: bool, memoryBound: bool)

  datatype SchedulerResult = SchedulerResult(
    assignments: seq<nat>, energy: real, magnetization: real, reassigned: nat)

  // ----- Core topologies -----

  ghost predicate IsSquare(adjacency: seq<seq<bool>>, n: nat) {
    |adjacency| == n && forall i | 0 <= i < n :: |adjacency[i]| == n
  }

  method Linear(coreCount: nat) returns (r: CoreAdjacency)
    ensures r.coreCount == coreCount && IsSquare(r.adjacency, coreCount)
    ensures forall i, j | 0 <= i < coreCount && 0 <= j < coreCount ::
      r.adjacency[i][j] <==> -1 <= i - j <= 1
  {
    var adjacency := new bool[coreCount, coreCount]((_, _) => false);
    for i := 0 to coreCount
      invariant forall x, y | 0 <= x < coreCount && 0 <= y < coreCount ::
        adjacency[x, y] <==> x < i && y < i && -1 <= x - y <= 1
    {
      adjacency[i, i] := true;
      if i > 0 {
        adjacency[i, i - 1] := true;
        adjacency[i - 1, i] := true;
      }
    }
    r := CoreAdjacency(coreCount, Rows(adjacency));
  }

  method FullyConnected(coreCount: nat) returns (r: CoreAdjacency)
    ensures r.coreCount == coreCount && IsSquare(r.adjacency, coreCount)
    ensures forall i, j | 0 <= i < coreCount && 0 <= j < coreCount :: r.adjacency[i][j]
  {
    r := CoreAdjacency(coreCount, seq(coreCount, _ => seq(coreCount, _ => true)));
  }

  method Isolated(coreCount: nat) returns (r: CoreAdjacency)
    ensures r.coreCount == coreCount && IsSquare(r.adjacency, coreCount)
    ensures forall i, j | 0 <= i < coreCount && 0 <= j < coreCount :: r.adjacency[i][j] <==> i == j
  {
    var adjacency := new bool[coreCount, coreCount]((_, _) => false);
    for i := 0 to coreCount
      invariant forall x, y | 0 <= x < coreCount && 0 <= y < coreCount ::
        adjacency[x, y] <==> x < i && x == y
    {
      adjacency[i, i] := true;
    }
    r := CoreAdjacency(coreCount, Rows(adjacency));
  }

  function Rows(a: array2<bool>): (rows: seq<seq<bool>>)
    reads a
    ensures |rows| == a.Length0
    ensures forall i | 0 <= i < a.Length0 :: |rows[i]| == a.Length1
    ensures forall i, j | 0 <= i < a.Length0 && 0 <= j < a.Length1 :: rows[i][j] == a[i, j]
  {
    seq(a.Length0, i requires 0 <= i < a.Length0 reads a =>
      seq(a.Length1, j requires 0 <= j < a.Length1 reads a => a[i, j]))
  }

  /** Topologies that make every core adjacent to itself give one energy to a placement. */
  lemma TopologyIrrelevant(one: seq<seq<bool>>, two: seq<seq<bool>>, p: seq<Placement>, m: nat)
    requires IsSquare(one, m) && IsSquare(two, m) && OnCores(p, m)
    requires forall c | 0 <= c < m :: one[c][c] && two[c][c]
    ensures PairEnergy(one, p) == PairEnergy(two, p)
  {
    EnergyInvariance(one, two, p, p, m);
  }

  // ----- Sorting processes -----

  function EntropyKey(e: seq<real>): nat -> real {
    (i: nat) => if i < |e| then e[i] else 0.0
  }

  function Indices(n: nat): (r: seq<nat>)
    ensures |r| == n && forall i | 0 <= i < n :: r[i] == i
  {
    seq(n, i => i)
  }

  /** Process indices by descending entropy, ties in index order. */
  function EntropyOrder(e: seq<real>): seq<nat> {
    SortDescending(Indices(|e|), EntropyKey(e))
  }

  ghost predicate Enumerates(order: seq<nat>, n: nat) {
    |order| == n && Covers(order, n) && Distinct(order) && multiset(order) == multiset(Indices(n))
  }

  lemma EntropyOrderSorts(e: seq<real>)
    ensures Enumerates(EntropyOrder(e), |e|)
    ensures Descending(EntropyOrder(e), e)
  {
    var indices, order := Indices(|e|), EntropyOrder(e);
    SortIsStable(indices, EntropyKey(e));
    assert |multiset(order)| == |multiset(indices)|;
    forall k | 0 <= k < |order| ensures order[k] < |e| {
      assert order[k] in multiset(order);
      assert order[k] in indices;
    }
    PermutationKeepsDistinct(indices, order);
    forall j, k | 0 <= j < k < |order| ensures e[order[j]] >= e[order[k]] {
      assert EntropyKey(e)(order[j]) >= EntropyKey(e)(order[k]);
    }
  }

  /** Processes of equal entropy are visited in index order. */
  lemma TiesInIndexOrder(e: seq<real>, j: nat, k: nat)
    requires j < k < |e|
    ensures var order := EntropyOrder(e);
      Enumerates(order, |e|) && (e[order[j]] == e[order[k]] ==> order[j] < order[k])
  {
    var order := EntropyOrder(e);
    EntropyOrderSorts(e);
    SortIsStable(Indices(|e|), EntropyKey(e));
    if e[order[j]] == e[order[k]] { SameKeyRises(e, order, j, k); }
  }

  lemma SameKeyRises(e: seq<real>, order: seq<nat>, j: nat, k: nat)
    requires Covers(order, |e|) && IsStableSort(Indices(|e|), order, EntropyKey(e))
    requires j < k < |order| && e[order[j]] == e[order[k]]
    ensures order[j] < order[k]
  {
    var key, x := EntropyKey(e), e[order[j]];
    assert WithKey(Indices(|e|), key, x) == WithKey(order, key, x);
    var p, q := WithKeyPair(order, key, j, k);
    Rises(Indices(|e|), key, x);
  }

  lemma {:induction false} Rises(s: seq<nat>, key: nat -> real, x: real)
    requires forall i, j | 0 <= i < j < |s| :: s[i] < s[j]
    ensures var t := WithKey(s, key, x);
      && (forall i, j | 0 <= i < j < |t| :: t[i] < t[j])
      && (forall i | 0 <= i < |t| :: s != [] && s[0] <= t[i])
  {
    if s != [] {
      hide WithKey;
      var rest := WithKey(s[1..], key, x);
      Rises(s[1..], key, x);
      WithKeyHead(s, key, x);
      forall i | 0 <= i < |rest| ensures s[0] < rest[i] {
        assert s[0] < s[1];
      }
    }
  }

  // ----- Greedy strategy -----

  /** Each process weighs one unit of load plus its entropy. */
  function Weights(e: seq<real>): (w: seq<real>)
    ensures |w| == |e|
  {
    seq(|e|, i requires 0 <= i < |e| => 1.0 + e[i])
  }

  /** Entropies for which a process weighs more than nothing; the documented range is 0 to 1. */
  ghost predicate PositiveWeights(e: seq<real>) {
    forall i | 0 <= i < |e| :: e[i] > -1.0
  }

  /** The load that greedy placement assigns core `c`, process by process in index order. */
  ghost function CoreWeight(e: seq<real>, a: seq<nat>, c: nat): real
    requires |a| == |e|
  {
    Load(Indices(|e|), Weights(e), a, c)
  }

  ghost function TotalWeight(e: seq<real>): real {
    Total(Indices(|e|), Weights(e))
  }

  ghost predicate GreedyPlacement(e: seq<real>, m: nat, a: seq<nat>) {
    && |a| == |e| && InRange(a, m)
    && Covers(EntropyOrder(e), |e|)
    && IsGreedyRun(EntropyOrder(e), Weights(e), m, a)
  }

  lemma GreedyFacts(e: seq<real>, m: nat, a: seq<nat>)
    requires GreedyPlacement(e, m, a) && PositiveWeights(e)
    ensures Enumerates(EntropyOrder(e), |e|) && Descending(EntropyOrder(e), Weights(e))
    ensures NonNegative(Weights(e))
    ensures forall b: seq<nat>, c: nat | |b| == |e| ::
      Load(EntropyOrder(e), Weights(e), b, c) == CoreWeight(e, b, c)
  {
    EntropyOrderSorts(e);
    forall b: seq<nat>, c: nat | |b| == |e|
      ensures Load(EntropyOrder(e), Weights(e), b, c) == CoreWeight(e, b, c)
    {
      LoadPermutation(EntropyOrder(e), Indices(|e|), Weights(e), b, c);
    }
  }

  /** The greedy placement is determined by the entropies and the number of cores. */
  lemma GreedyPlacementUnique(e: seq<real>, m: nat, a: seq<nat>, b: seq<nat>)
    requires GreedyPlacement(e, m, a) && GreedyPlacement(e, m, b)
    ensures a == b
  {
    EntropyOrderSorts(e);
    var order := EntropyOrder(e);
    GreedyRunUnique(order, Weights(e), m, a, b, |order|);
    forall i | 0 <= i < |e| ensures a[i] == b[i] {
      assert Indices(|e|)[i] == i;
      assert i in multiset(Indices(|e|));
      assert i in order;
    }
  }

  /** The k busiest processes (k <= m) get cores 0 .. k-1 in order. */
  lemma GreedySpreadsBusiest(e: seq<real>, m: nat, a: seq<nat>, k: nat)
    requires GreedyPlacement(e, m, a) && PositiveWeights(e) && k < |e| && k < m
    ensures Enumerates(EntropyOrder(e), |e|)
    ensures a[EntropyOrder(e)[k]] == k
  {
    GreedyFacts(e, m, a);
    FirstProcessesSpread(EntropyOrder(e), Weights(e), m, a, k);
  }

  /** m * makespan <= total weight + (m - 1) * heaviest weight. */
  lemma GreedyMakespan(e: seq<real>, m: nat, a: seq<nat>, heaviest: real, c: nat)
    requires GreedyPlacement(e, m, a) && PositiveWeights(e) && c < m
    requires heaviest >= 0.0 && forall i | 0 <= i < |e| :: 1.0 + e[i] <= heaviest
    ensures m as real * CoreWeight(e, a, c) <= TotalWeight(e) + (m as real - 1.0) * heaviest
  {
    GreedyMakespanSum(e, m, a, heaviest, c);
    ProductForm(m, CoreWeight(e, a, c), TotalWeight(e), heaviest);
  }

  lemma GreedyMakespanSum(e: seq<real>, m: nat, a: seq<nat>, heaviest: real, c: nat)
    requires GreedyPlacement(e, m, a) && PositiveWeights(e) && c < m
    requires heaviest >= 0.0 && forall i | 0 <= i < |e| :: 1.0 + e[i] <= heaviest
    ensures Times(m, CoreWeight(e, a, c)) <= TotalWeight(e) + Times(m, heaviest) - heaviest
  {
    GreedyFacts(e, m, a);
    var order, w := EntropyOrder(e), Weights(e);
    GreedyListBound(order, w, m, a, heaviest, |order|, c);
    assert order[..|order|] == order;
    LoadsPartitionTotal(order, w, a, m);
    LoadsPartitionTotal(Indices(|e|), w, a, m);
    LoadSumsAgree(order, Indices(|e|), w, a, m);
  }

  lemma ProductForm(m: nat, load: real, total: real, heaviest: real)
    requires Times(m, load) <= total + Times(m, heaviest) - heaviest
    ensures m as real * load <= total + (m as real - 1.0) * heaviest
  {
    TimesIsProduct(m, load);
    TimesIsProduct(m, heaviest);
  }

  lemma {:induction false} LoadSumsAgree(p: seq<nat>, q: seq<nat>, w: seq<real>, a: seq<nat>, m: nat)
    requires |a| == |w| && Covers(p, |w|) && Covers(q, |w|) && multiset(p) == multiset(q)
    ensures LoadSum(p, w, a, m) == LoadSum(q, w, a, m)
  {
    if m > 0 {
      LoadSumsAgree(p, q, w, a, m - 1);
      LoadPermutation(p, q, w, a, m - 1);
    }
  }

  /**
   * The greedy makespan is within 4/3 - 1/(3m) of every placement of the same processes:
   * if `other` keeps all cores at or below `bound`, greedy keeps them below that multiple of it.
   */
  lemma GreedyCompetitive(e: seq<real>, m: nat, a: seq<nat>, other: seq<nat>, bound: real, c: nat)
    requires GreedyPlacement(e, m, a) && PositiveWeights(e) && c < m
    requires |other| == |e| && InRange(other, m)
    requires forall d: nat | d < m :: CoreWeight(e, other, d) <= bound
    ensures CoreWeight(e, a, c) <= (4.0 / 3.0 - 1.0 / (3.0 * m as real)) * bound
  {
    hide Times, WithinRatio, Load;
    GreedyFacts(e, m, a);
    var order, w := EntropyOrder(e), Weights(e);
    forall d: nat | d < m ensures Load(order, w, other, d) <= bound {
      assert Load(order, w, other, d) == CoreWeight(e, other, d);
    }
    LongestFirstBound(order, w, m, a, other, bound, |order|, c);
    assert order[..|order|] == order;
    RatioFromSums(m, CoreWeight(e, a, c), bound);
  }

  lemma RatioFromSums(m: nat, load: real, bound: real)
    requires m >= 1 && WithinRatio(m, load, bound)
    ensures load <= (4.0 / 3.0 - 1.0 / (3.0 * m as real)) * bound
  {
    TimesIsProduct(m, load);
    TimesIsProduct(m, bound);
    RatioDivides(m as real, load, bound);
  }

  lemma AlreadySorted(e: seq<real>)
    requires forall i, j | 0 <= i < j < |e| :: e[i] >= e[j]
    ensures EntropyOrder(e) == Indices(|e|)
  {
    SortIsStable(Indices(|e|), EntropyKey(e));
    StableSortOfSorted(Indices(|e|), EntropyOrder(e), EntropyKey(e));
  }

  /** Load of core c after the first k processes of a list that is already sorted. */
  ghost function LoadAfter(e: seq<real>, a: seq<nat>, k: nat, c: nat): real
    requires |a| == |e| && k <= |e|
  {
    Load(Indices(|e|)[..k], Weights(e), a, c)
  }

  /** Placing process k adds 1 plus its entropy to its core. */
  lemma WeightIsOnePlusEntropy(e: seq<real>, a: seq<nat>, k: nat, c: nat)
    requires |a| == |e| && k < |e|
    ensures LoadAfter(e, a, 0, c) == 0.0
    ensures LoadAfter(e, a, k + 1, c) == LoadAfter(e, a, k, c) + if a[k] == c then 1.0 + e[k] else 0.0
  {
    assert Indices(|e|)[..k + 1][..k] == Indices(|e|)[..k];
  }

  lemma ChoiceOfTwo(e: seq<real>, a: seq<nat>, k: nat)
    requires GreedyPlacement(e, 2, a) && k < |e| && forall i, j | 0 <= i < j < |e| :: e[i] >= e[j]
    ensures a[k] == if LoadAfter(e, a, k, 0) <= LoadAfter(e, a, k, 1) then 0 else 1
  {
    AlreadySorted(e);
    assert GreedyChoice(Indices(|e|), Weights(e), 2, a, k);
  }

  /**
   * Four processes on two cores: the second and third share a core, and the fourth joins the first
   * unless that one alone outweighs both, which entropies between 0 and 1 never do.
   */
  lemma GreedyOnTwoCores(x: real, y: real, z: real, u: real, a: seq<nat>)
    requires x > y >= z >= u > -1.0 && GreedyPlacement([x, y, z, u], 2, a)
    ensures a == [0, 1, 1, if x <= 1.0 + y + z then 0 else 1]
  {
    var e := [x, y, z, u];
    hide LoadAfter, GreedyPlacement;
    GreedyLength(e, a);
    WeightIsOnePlusEntropy(e, a, 0, 0);
    WeightIsOnePlusEntropy(e, a, 0, 1);
    WeightIsOnePlusEntropy(e, a, 1, 0);
    WeightIsOnePlusEntropy(e, a, 1, 1);
    WeightIsOnePlusEntropy(e, a, 2, 0);
    WeightIsOnePlusEntropy(e, a, 2, 1);
    ChoiceOfTwo(e, a, 0);
    ChoiceOfTwo(e, a, 1);
    ChoiceOfTwo(e, a, 2);
    ChoiceOfTwo(e, a, 3);
    assert LoadAfter(e, a, 1, 0) == 1.0 + x && LoadAfter(e, a, 1, 1) == 0.0;
    assert LoadAfter(e, a, 2, 0) == 1.0 + x && LoadAfter(e, a, 2, 1) == 1.0 + y;
    assert LoadAfter(e, a, 3, 0) == 1.0 + x && LoadAfter(e, a, 3, 1) == 2.0 + y + z;
  }

  lemma GreedyLength(e: seq<real>, a: seq<nat>)
    requires GreedyPlacement(e, 2, a)
    ensures |a| == |e|
  {
  }

  lemma RatioDivides(m: real, load: real, bound: real)
    requires m >= 1.0 && 3.0 * (m * load) <= 4.0 * (m * bound) - bound
    ensures load <= (4.0 / 3.0 - 1.0 / (3.0 * m)) * bound
  {
    var third := 1.0 / (3.0 * m);
    assert third * (3.0 * m) == 1.0;
    assert third * (3.0 * (m * load)) == load;
    assert third * (4.0 * (m * bound) - bound) == (4.0 / 3.0) * bound - third * bound;
    ScaleInequality(third, 3.0 * (m * load), 4.0 * (m * bound) - bound);
  }

  lemma ScaleInequality(x: real, y: real, z: real)
    requires x >= 0.0 && y <= z
    ensures x * y <= x * z
  {
  }

  lemma ReciprocalOrder(x: real, y: real)
    requires x > 0.0 && y > 0.0
    ensures 1.0 / x > 1.0 / y <==> x < y
    ensures 1.0 / x > 0.0
  {
    var p, q := 1.0 / x, 1.0 / y;
    assert p * x == 1.0 && q * y == 1.0;
  }

  // ----- Round-robin strategy -----

  ghost predicate RoundRobinPlacement(e: seq<real>, m: nat, a: seq<nat>) {
    && |a| == |e| && InRange(a, m) && m > 0
    && Covers(EntropyOrder(e), |e|)
    && TakesTurns(EntropyOrder(e), e, m, a)
  }

  /**
   * With h entropies above 0.5, the k-th process of the descending order goes to core k mod m if its
   * own is above 0.5, and to core h mod m otherwise; while cores last, the former are kept apart.
   */
  lemma RoundRobinByEntropy(e: seq<real>, m: nat, a: seq<nat>, k: nat)
    requires RoundRobinPlacement(e, m, a) && k < |e|
    ensures var h := |set i: nat | i < |e| && e[i] > 0.5|;
      var order := EntropyOrder(e);
      && Enumerates(order, |e|)
      && (e[order[k]] > 0.5 ==> a[order[k]] == k % m)
      && (e[order[k]] <= 0.5 ==> a[order[k]] == h % m)
      && forall j | 0 <= j < k < m && e[order[j]] > 0.5 && e[order[k]] > 0.5 :: a[order[j]] != a[order[k]]
  {
    EntropyOrderSorts(e);
    var order := EntropyOrder(e);
    forall i | 0 <= i < |e| ensures i in order {
      assert Indices(|e|)[i] == i;
      assert i in multiset(Indices(|e|));
    }
    HighsIs(order, e);
    HighsComeFirst(order, e, |order|);
    assert order[..|order|] == order;
    forall j | 0 <= j < k < m ensures j % m == j && k % m == k {
      DivModUnique(j, m, 0, j);
      DivModUnique(k, m, 0, k);
    }
  }

  /** With no process above 0.5 the round-robin strategy puts everything on core 0. */
  lemma AllLowPilesUp(e: seq<real>, m: nat, a: seq<nat>, i: nat)
    requires RoundRobinPlacement(e, m, a) && i < |e|
    requires forall j | 0 <= j < |e| :: e[j] <= 0.5
    ensures a[i] == 0
  {
    EntropyOrderSorts(e);
    var order := EntropyOrder(e);
    NoHighs(order, e);
    assert Indices(|e|)[i] == i;
    assert i in multiset(Indices(|e|));
    assert i in order;
    DivModUnique(0, m, 0, 0);
  }

  lemma {:induction false} NoHighs(order: seq<nat>, e: seq<real>)
    requires Covers(order, |e|) && forall j | 0 <= j < |e| :: !High(e[j])
    ensures Highs(order, e) == 0
  {
    if order != [] { NoHighs(order[..|order| - 1], e); }
  }

  // ----- Steps of the strategies, as facts about sequences -----

  ghost predicate GreedyUpTo(order: seq<nat>, w: seq<real>, m: nat, a: seq<nat>, k: nat)
    requires |a| == |w| && Covers(order, |w|) && k <= |order|
  {
    forall j | 0 <= j < k :: GreedyChoice(order, w, m, a, j)
  }

  lemma ChoiceFrame(order: seq<nat>, w: seq<real>, m: nat, a: seq<nat>, b: seq<nat>, k: nat)
    requires |a| == |b| == |w| && Covers(order, |w|) && k < |order|
    requires forall j | 0 <= j <= k :: a[order[j]] == b[order[j]]
    requires GreedyChoice(order, w, m, a, k)
    ensures GreedyChoice(order, w, m, b, k)
  {
    var placed := order[..k];
    forall c: nat ensures Load(placed, w, a, c) == Load(placed, w, b, c) {
      LoadFrame(placed, w, a, b, c);
    }
  }

  /** Placing the next process on a first least-loaded core extends a greedy run. */
  lemma PlaceNext(order: seq<nat>, w: seq<real>, m: nat, a: seq<nat>, k: nat, core: nat)
    requires |a| == |w| && Covers(order, |w|) && Distinct(order) && k < |order| && core < m
    requires GreedyUpTo(order, w, m, a, k)
    requires forall c: nat | c < m :: Load(order[..k], w, a, core) <= Load(order[..k], w, a, c)
    requires forall c: nat | c < core :: Load(order[..k], w, a, core) < Load(order[..k], w, a, c)
    ensures GreedyUpTo(order, w, m, a[order[k] := core], k + 1)
  {
    var b := a[order[k] := core];
    forall j | 0 <= j < k ensures GreedyChoice(order, w, m, b, j) {
      ChoiceFrame(order, w, m, a, b, j);
    }
    var placed := order[..k];
    forall c: nat ensures Load(placed, w, a, c) == Load(placed, w, b, c) {
      LoadFrame(placed, w, a, b, c);
    }
    assert GreedyChoice(order, w, m, b, k);
  }

  /** Placing a process adds its weight to its core and leaves the other loads as they were. */
  lemma LoadAfterPlacing(order: seq<nat>, w: seq<real>, a: seq<nat>, k: nat, core: nat, c: nat)
    requires |a| == |w| && Covers(order, |w|) && Distinct(order) && k < |order|
    ensures Load(order[..k + 1], w, a[order[k] := core], c)
         == Load(order[..k], w, a, c) + if c == core then w[order[k]] else 0.0
  {
    LoadFrame(order[..k], w, a, a[order[k] := core], c);
    assert order[..k + 1][..k] == order[..k];
  }

  ghost function CoreTotals(coreLoad: seq<real>, coreEntropy: seq<real>): (r: seq<real>)
    requires |coreLoad| == |coreEntropy|
    ensures |r| == |coreLoad| && forall c | 0 <= c < |r| :: r[c] == coreLoad[c] + coreEntropy[c]
  {
    seq(|coreLoad|, c requires 0 <= c < |coreLoad| => coreLoad[c] + coreEntropy[c])
  }

  lemma LeastTotal(coreLoad: seq<real>, coreEntropy: seq<real>, best: nat)
    requires |coreLoad| == |coreEntropy| && best < |coreLoad|
    requires forall c | 0 <= c < |coreLoad| :: coreLoad[best] + coreEntropy[best] <= coreLoad[c] + coreEntropy[c]
    requires forall c | 0 <= c < best :: coreLoad[best] + coreEntropy[best] < coreLoad[c] + coreEntropy[c]
    ensures var loads := CoreTotals(coreLoad, coreEntropy);
      && (forall c: nat | c < |coreLoad| :: loads[best] <= loads[c])
      && (forall c: nat | c < best :: loads[best] < loads[c])
  {
  }

  lemma ZeroTotals(coreLoad: seq<real>, coreEntropy: seq<real>)
    requires |coreLoad| == |coreEntropy| && forall c | 0 <= c < |coreLoad| :: coreLoad[c] == coreEntropy[c] == 0.0
    ensures forall c | 0 <= c < |coreLoad| :: CoreTotals(coreLoad, coreEntropy)[c] == 0.0
  {
  }

  lemma TotalsAfterPlacing(coreLoad: seq<real>, coreEntropy: seq<real>, best: nat, entropy: real)
    requires |coreLoad| == |coreEntropy| && best < |coreLoad|
    ensures var loads := CoreTotals(coreLoad, coreEntropy);
      CoreTotals(coreLoad[best := coreLoad[best] + 1.0], coreEntropy[best := coreEntropy[best] + entropy])
        == loads[best := loads[best] + (1.0 + entropy)]
  {
  }

  /** A greedy run of k placements, with the loads it has led to. */
  ghost predicate GreedyState(order: seq<nat>, w: seq<real>, m: nat, a: seq<nat>, k: nat, loads: seq<real>)
    requires |a| == |w| && Covers(order, |w|) && k <= |order|
  {
    && |loads| == m && InRange(a, m)
    && GreedyUpTo(order, w, m, a, k)
    && forall c: nat | c < m :: Load(order[..k], w, a, c) == loads[c]
  }

  lemma GreedyStart(order: seq<nat>, w: seq<real>, m: nat, a: seq<nat>, loads: seq<real>)
    requires |a| == |w| && Covers(order, |w|) && InRange(a, m)
    requires |loads| == m && forall c | 0 <= c < m :: loads[c] == 0.0
    ensures GreedyState(order, w, m, a, 0, loads)
  {
  }

  lemma GreedyEnd(order: seq<nat>, w: seq<real>, m: nat, a: seq<nat>, loads: seq<real>)
    requires |a| == |w| && Covers(order, |w|) && GreedyState(order, w, m, a, |order|, loads)
    ensures InRange(a, m) && IsGreedyRun(order, w, m, a)
  {
  }

  /** The same step for a scheduler that keeps the current loads. */
  lemma PlaceNextByLoads(order: seq<nat>, w: seq<real>, m: nat, a: seq<nat>, k: nat, core: nat, loads: seq<real>)
    requires |a| == |w| && Covers(order, |w|) && Distinct(order) && k < |order| && core < m == |loads|
    requires GreedyState(order, w, m, a, k, loads)
    requires forall c: nat | c < m :: loads[core] <= loads[c]
    requires forall c: nat | c < core :: loads[core] < loads[c]
    ensures GreedyState(order, w, m, a[order[k] := core], k + 1, loads[core := loads[core] + w[order[k]]])
  {
    hide GreedyUpTo;
    var placed, b := order[..k], a[order[k] := core];
    forall c: nat | c < m
      ensures Load(placed, w, a, core) <= Load(placed, w, a, c)
      ensures c < core ==> Load(placed, w, a, core) < Load(placed, w, a, c)
    {
      assert Load(placed, w, a, c) == loads[c] && Load(placed, w, a, core) == loads[core];
    }
    PlaceNext(order, w, m, a, k, core);
    var next := order[..k + 1];
    forall c: nat | c < m ensures Load(next, w, b, c) == loads[c] + if c == core then w[order[k]] else 0.0 {
      LoadAfterPlacing(order, w, a, k, core, c);
    }
  }

  // ----- The scheduler object -----

  function Placements(assignments: seq<nat>, entropy: seq<real>): (p: seq<Placement>)
    requires |assignments| == |entropy|
    ensures |p| == |entropy|
    ensures forall i | 0 <= i < |p| :: p[i] == Placement(assignments[i], High(entropy[i]))
  {
    seq(|entropy|, i requires 0 <= i < |entropy| => Placement(assignments[i], High(entropy[i])))
  }

  function Entropies(processes: seq<ProcessInfo>): (e: seq<real>)
    ensures |e| == |processes|
    ensures forall i | 0 <= i < |e| :: e[i] == processes[i].entropy
  {
    seq(|processes|, i requires 0 <= i < |processes| => processes[i].entropy)
  }

  function CoreSum(assignments: seq<nat>): nat {
    if assignments == [] then 0 else CoreSum(assignments[..|assignments| - 1]) + assignments[|assignments| - 1]
  }

  /** Core numbers add up, whatever the grouping. */
  lemma {:induction false} CoreSumAdds(a: seq<nat>, b: seq<nat>, c: nat)
    ensures CoreSum([c]) == c && CoreSum(a + b) == CoreSum(a) + CoreSum(b)
  {
    assert [c][..0] == [];
    if b == [] {
      assert a + b == a;
    } else {
      CoreSumAdds(a, b[..|b| - 1], c);
      assert (a + b)[..|a + b| - 1] == a + b[..|b| - 1];
    }
  }

  /** Processes whose recorded core is missing or differs from the new one. */
  function Moved(processes: seq<ProcessInfo>, assignments: seq<nat>): set<nat>
    requires |assignments| == |processes|
  {
    set i: nat | i < |processes| && processes[i].currentCore != Some(assignments[i])
  }

  predicate DistinctPids(processes: seq<ProcessInfo>) {
    forall i, j | 0 <= i < j < |processes| :: processes[i].pid != processes[j].pid
  }

  predicate HasPid(processes: seq<ProcessInfo>, pid: nat) {
    exists i | 0 <= i < |processes| :: processes[i].pid == pid
  }

  lemma PidTable(processes: seq<ProcessInfo>, pid: nat)
    ensures HasPid(processes, pid) <==> exists p :: p in processes && p.pid == pid
    ensures DistinctPids(processes) <==> forall i, j | 0 <= i < |processes| && 0 <= j < |processes| ::
      processes[i].pid == processes[j].pid ==> i == j
  {
    if HasPid(processes, pid) {
      var i :| 0 <= i < |processes| && processes[i].pid == pid;
      assert processes[i] in processes;
    }
  }

  class IsingScheduler {
    var coreCount: nat
    var adjacency: CoreAdjacency
    var strategy: Strategy
    var processes: seq<ProcessInfo>
    var lastResult: Option<SchedulerResult>

    constructor (coreCount: nat)
      ensures this.coreCount == coreCount && strategy == Greedy
      ensures processes == [] && lastResult == None
      ensures adjacency.coreCount == coreCount && IsSquare(adjacency.adjacency, coreCount)
      ensures forall i, j | 0 <= i < coreCount && 0 <= j < coreCount ::
        adjacency.adjacency[i][j] <==> -1 <= i - j <= 1
    {
      var linear := Linear(coreCount);
      this.coreCount := coreCount;
      this.adjacency := linear;
      this.strategy := Greedy;
      this.processes := [];
      this.lastResult := None;
    }

    /** Overwrites the entry with this pid in place, or appends one; the table stays a map from pids. */
    method UpdateProcess(info: ProcessInfo)
      requires DistinctPids(processes)
      modifies `processes
      ensures DistinctPids(processes)
      ensures HasPid(old(processes), info.pid) ==>
        && |processes| == |old(processes)|
        && forall i | 0 <= i < |processes| ::
          processes[i] == if old(processes)[i].pid == info.pid then info else old(processes)[i]
      ensures !HasPid(old(processes), info.pid) ==> processes == old(processes) + [info]
    {
      var i := 0;
      while i < |processes| && processes[i].pid != info.pid
        invariant 0 <= i <= |processes|
        invariant forall j | 0 <= j < i :: processes[j].pid != info.pid
      {
        i := i + 1;
      }
      if i < |processes| {
        processes := processes[i := info];
      } else {
        processes := processes + [info];
      }
    }

    method RemoveProcess(pid: nat) returns (removed: bool)
      requires DistinctPids(processes)
      modifies `processes
      ensures DistinctPids(processes) && !HasPid(processes, pid)
      ensures removed == HasPid(old(processes), pid)
      ensures !removed ==> processes == old(processes)
      ensures removed ==> exists i | 0 <= i < |old(processes)| ::
        old(processes)[i].pid == pid && processes == old(processes)[..i] + old(processes)[i + 1..]
    {
      var i := 0;
      while i < |processes| && processes[i].pid != pid
        invariant 0 <= i <= |processes|
        invariant forall j | 0 <= j < i :: processes[j].pid != pid
      {
        i := i + 1;
      }
      removed := i < |processes|;
      if removed {
        processes := processes[..i] + processes[i + 1..];
      }
    }

    /** Scans the cores for the best score 1/(1 + load): the first core of least load. */
    static method BestCore(coreLoad: array<real>, coreEntropy: array<real>, entropy: real) returns (best: nat)
      requires coreLoad.Length == coreEntropy.Length > 0 && entropy > -1.0
      requires forall c | 0 <= c < coreLoad.Length :: coreLoad[c] + coreEntropy[c] >= 0.0
      ensures best < coreLoad.Length
      ensures forall c | 0 <= c < coreLoad.Length ::
        coreLoad[best] + coreEntropy[best] <= coreLoad[c] + coreEntropy[c]
      ensures forall c | 0 <= c < best ::
        coreLoad[best] + coreEntropy[best] < coreLoad[c] + coreEntropy[c]
    {
      var bestScore := -1.0;
      best := 0;
      for core := 0 to coreLoad.Length
        invariant core == 0 ==> bestScore == -1.0 && best == 0
        invariant core > 0 ==>
          && best < core
          && bestScore == 1.0 / (1.0 + (coreEntropy[best] + entropy) + coreLoad[best])
        invariant forall c | 0 <= c < core ::
          coreLoad[best] + coreEntropy[best] <= coreLoad[c] + coreEntropy[c]
        invariant forall c | 0 <= c < best ::
          coreLoad[best] + coreEntropy[best] < coreLoad[c] + coreEntropy[c]
      {
        var totalEntropy := coreEntropy[core] + entropy;
        var score := 1.0 / (1.0 + totalEntropy + coreLoad[core]);
        ReciprocalOrder(1.0 + totalEntropy + coreLoad[core], 1.0 + (coreEntropy[best] + entropy) + coreLoad[best]);
        if score > bestScore {
          bestScore := score;
          best := core;
        }
      }
    }

    method OptimizeGreedy(entropy: seq<real>) returns (r: seq<nat>)
      requires coreCount > 0 && PositiveWeights(entropy)
      ensures GreedyPlacement(entropy, coreCount, r)
    {
      var n, m := |entropy|, coreCount;
      var assignments := new nat[n](_ => 0);
      var indices := EntropyOrder(entropy);
      EntropyOrderSorts(entropy);
      var coreLoad := new real[m](_ => 0.0);
      var coreEntropy := new real[m](_ => 0.0);
      ghost var w := Weights(entropy);
      hide GreedyState, GreedyChoice, Descending, Load, CoreTotals;
      ZeroTotals(coreLoad[..], coreEntropy[..]);
      GreedyStart(indices, w, m, assignments[..], CoreTotals(coreLoad[..], coreEntropy[..]));
      for k := 0 to n
        invariant GreedyState(indices, w, m, assignments[..], k, CoreTotals(coreLoad[..], coreEntropy[..]))
        invariant forall c | 0 <= c < m :: coreLoad[c] + coreEntropy[c] >= 0.0
      {
        PlaceOnBestCore(indices, k, entropy, assignments, coreLoad, coreEntropy);
      }
      r := assignments[..];
      GreedyEnd(indices, w, m, r, CoreTotals(coreLoad[..], coreEntropy[..]));
    }

    /** The body of the greedy loop: the k-th process goes to the best core and adds to its load. */
    method PlaceOnBestCore(indices: seq<nat>, k: nat, entropy: seq<real>,
        assignments: array<nat>, coreLoad: array<real>, coreEntropy: array<real>)
      requires Covers(indices, |entropy|) && Distinct(indices) && k < |indices| && PositiveWeights(entropy)
      requires assignments.Length == |entropy| && coreLoad.Length == coreEntropy.Length == coreCount > 0
      requires coreLoad != coreEntropy
      requires GreedyState(
        indices, Weights(entropy), coreCount, assignments[..], k, CoreTotals(coreLoad[..], coreEntropy[..]))
      requires forall c | 0 <= c < coreCount :: coreLoad[c] + coreEntropy[c] >= 0.0
      modifies assignments, coreLoad, coreEntropy
      ensures GreedyState(
        indices, Weights(entropy), coreCount, assignments[..], k + 1, CoreTotals(coreLoad[..], coreEntropy[..]))
      ensures forall c | 0 <= c < coreCount :: coreLoad[c] + coreEntropy[c] >= 0.0
    {
      hide GreedyState, CoreTotals;
      var i := indices[k];
      ghost var before, loads := assignments[..], CoreTotals(coreLoad[..], coreEntropy[..]);
      ghost var load, entropies := coreLoad[..], coreEntropy[..];
      var best := BestCore(coreLoad, coreEntropy, entropy[i]);
      LeastTotal(load, entropies, best);
      PlaceNextByLoads(indices, Weights(entropy), coreCount, before, k, best, loads);
      TotalsAfterPlacing(load, entropies, best, entropy[i]);
      assignments[i] := best;
      coreLoad[best] := coreLoad[best] + 1.0;
      coreEntropy[best] := coreEntropy[best] + entropy[i];
      assert assignments[..] == before[i := best];
      assert coreLoad[..] == load[best := load[best] + 1.0];
      assert coreEntropy[..] == entropies[best := entropies[best] + entropy[i]];
    }

    method OptimizeRoundRobin(entropy: seq<real>) returns (r: seq<nat>)
      requires coreCount > 0 && |entropy| < USIZE_MAX
      ensures RoundRobinPlacement(entropy, coreCount, r)
    {
      var n, m := |entropy|, coreCount;
      var assignments := new nat[n](_ => 0);
      var indices := EntropyOrder(entropy);
      EntropyOrderSorts(entropy);
      ghost var highs := Highs(indices, entropy);
      HighsComeFirst(indices, entropy, n);
      assert indices[..n] == indices;
      hide Highs, HighsOn, Descending;
      var coreIndex := 0;
      for k := 0 to n
        invariant InRange(assignments[..], m)
        invariant coreIndex == if k < highs then k else highs
        invariant forall j | 0 <= j < k :: assignments[indices[j]] == Turn(j, highs, m)
      {
        var i := indices[k];
        if High(entropy[i]) {
          assignments[i] := coreIndex % m;
          coreIndex := coreIndex + 1;
        } else {
          var core := FewestHighsCore(indices, entropy, assignments[..]);
          assignments[i] := core;
        }
      }
      r := assignments[..];
    }

    /** Counts the high-entropy processes of each core and takes the first core with the fewest. */
    method FewestHighsCore(indices: seq<nat>, entropy: seq<real>, assignments: seq<nat>) returns (minCore: nat)
      requires coreCount > 0 && |assignments| == |entropy| < USIZE_MAX
      requires Enumerates(indices, |entropy|) && Descending(indices, entropy)
      requires InRange(assignments, coreCount)
      requires forall j | 0 <= j < Highs(indices, entropy) :: assignments[indices[j]] == j % coreCount
      ensures minCore == Highs(indices, entropy) % coreCount
    {
      var n, m := |entropy|, coreCount;
      ghost var highs := Highs(indices, entropy);
      var coreCounts := new nat[m](_ => 0);
      for t := 0 to n
        invariant forall c: nat | c < m :: coreCounts[c] == HighsOn(indices[..t], entropy, assignments, c) <= t
      {
        var placed := indices[t];
        assert indices[..t + 1][..t] == indices[..t];
        if High(entropy[placed]) {
          coreCounts[assignments[placed]] := coreCounts[assignments[placed]] + 1;
        }
      }
      forall c: nat | c < m ensures coreCounts[c] == Residues(highs, m, c) {
        TurnCounts(indices, entropy, m, assignments, n, c);
      }
      minCore := 0;
      var minCount := USIZE_MAX;
      for core := 0 to m
        invariant core == 0 ==> minCore == 0 && minCount == USIZE_MAX
        invariant core > 0 ==> minCore < core && minCount == coreCounts[minCore]
        invariant forall c | 0 <= c < core :: minCount <= coreCounts[c]
        invariant forall c | 0 <= c < minCore :: minCount < coreCounts[c]
      {
        if coreCounts[core] < minCount {
          minCount := coreCounts[core];
          minCore := core;
        }
      }
      FewestHighs(highs, m, minCore);
    }

    function CalculateAssignmentCost(assignments: seq<nat>, process: nat): real {
      0.0
    }

    /** Local search from the round-robin placement; with a constant cost it never moves anything. */
    method OptimizeBalanced(entropy: seq<real>) returns (r: seq<nat>)
      requires coreCount > 0 && |entropy| < USIZE_MAX
      ensures RoundRobinPlacement(entropy, coreCount, r)
    {
      var start := OptimizeRoundRobin(entropy);
      var n, m := |entropy|, coreCount;
      var assignments := new nat[n](i requires 0 <= i < n => start[i]);
      var improved := true;
      while improved
        invariant assignments[..] == start
        decreases improved
      {
        improved := false;
        for process := 0 to n
          invariant assignments[..] == start && !improved
        {
          var currentCore := assignments[process];
          for core := 0 to m
            invariant assignments[..] == start && !improved
          {
            if core != currentCore {
              var currentCost := CalculateAssignmentCost(assignments[..], process);
              assignments[process] := core;
              var newCost := CalculateAssignmentCost(assignments[..], process);
              if newCost < currentCost {
                improved := true;
              } else {
                assignments[process] := currentCore;
              }
            }
          }
        }
      }
      r := assignments[..];
    }

    method CalculateEnergy(assignments: seq<nat>, entropy: seq<real>) returns (energy: real)
      requires |assignments| == |entropy|
      ensures energy == PairEnergy(adjacency.adjacency, Placements(assignments, entropy))
    {
      ghost var p, matrix := Placements(assignments, entropy), adjacency.adjacency;
      energy := 0.0;
      var n := |assignments|;
      for i := 0 to n
        invariant energy + PairEnergy(matrix, p[i..]) == PairEnergy(matrix, p)
      {
        ghost var start := energy;
        assert p[i..][0] == p[i] && p[i..][1..] == p[i + 1..];
        for j := i + 1 to n
          invariant energy + RowEnergy(matrix, p[i], p[j..]) == start + RowEnergy(matrix, p[i], p[i + 1..])
        {
          assert p[j..][0] == p[j] && p[j..][1..] == p[j + 1..];
          if assignments[i] == assignments[j] {
            var spinI := if entropy[i] > 0.5 then 1.0 else -1.0;
            var spinJ := if entropy[j] > 0.5 then 1.0 else -1.0;
            var strength := Coupling(adjacency.adjacency, assignments[i]);
            energy := energy - spinI * spinJ * strength;
          }
        }
      }
    }

    method CalculateMagnetization(assignments: seq<nat>) returns (r: real)
      ensures r == if assignments == [] then 0.0 else CoreSum(assignments) as real / |assignments| as real
    {
      var sum := 0.0;
      for i := 0 to |assignments|
        invariant sum == CoreSum(assignments[..i]) as real
      {
        assert assignments[..i + 1][..i] == assignments[..i];
        sum := sum + assignments[i] as real;
      }
      assert assignments[..|assignments|] == assignments;
      r := if |assignments| == 0 then 0.0 else sum / |assignments| as real;
    }

    /** An empty problem answers zeros and, unlike every other call, is not remembered. */
    method Optimize() returns (r: SchedulerResult)
      requires strategy == Greedy ==> PositiveWeights(Entropies(processes))
      requires |processes| < USIZE_MAX
      modifies `lastResult
      ensures processes == [] || coreCount == 0 ==>
        && r == SchedulerResult(seq(|processes|, _ => 0), 0.0, 0.0, 0)
        && lastResult == old(lastResult)
      ensures processes != [] && coreCount > 0 ==>
        && lastResult == Some(r)
        && (strategy == Greedy ==> GreedyPlacement(Entropies(processes), coreCount, r.assignments))
        && (strategy != Greedy ==> RoundRobinPlacement(Entropies(processes), coreCount, r.assignments))
        && |r.assignments| == |processes|
        && r.energy == -CoreTerms(adjacency.adjacency, Placements(r.assignments, Entropies(processes)), coreCount)
        && r.magnetization == CoreSum(r.assignments) as real / |processes| as real
        && r.reassigned == |set i: nat | i < |processes| && processes[i].currentCore != Some(r.assignments[i])|
    {
      if |processes| == 0 || coreCount == 0 {
        r := SchedulerResult(seq(|processes|, _ => 0), 0.0, 0.0, 0);
        return;
      }
      var entropy := Entropies(processes);
      var assignments;
      match strategy {
        case Greedy => assignments := OptimizeGreedy(entropy);
        case RoundRobin => assignments := OptimizeRoundRobin(entropy);
        case Balanced => assignments := OptimizeBalanced(entropy);
      }
      var energy := CalculateEnergy(assignments, entropy);
      EnergyClosedForm(adjacency.adjacency, Placements(assignments, entropy), coreCount);
      var magnetization := CalculateMagnetization(assignments);
      r := SchedulerResult(assignments, energy, magnetization, |Moved(processes, assignments)|);
      lastResult := Some(r);
    }
  }
}
