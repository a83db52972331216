// The greedy ratio 4/3 - 1/(3m) cannot be improved for any number m of cores.
//
// The instance has two processes of weight k/m for each k from 2m-1 down to m+1, then three of
// weight 1.  Greedy pairs the processes up to 3m-1 parts on every core before it places the last
// one; another placement fills every core with exactly 3m parts.
module Tightness {
  import opened CoreLoads
  import opened Scheduler

  /** k parts, m of which weigh one unit. */
  ghost function Share(k: int, m: nat): real
    requires m > 0
  {
    k as real / m as real
  }

  lemma ShareAdds(j: int, k: int, m: nat)
    requires m > 0
    ensures Share(j, m) + Share(k, m) == Share(j + k, m)
  {
  }

  lemma ShareOrder(j: int, k: int, m: nat)
    requires m > 0
    ensures j <= k <==> Share(j, m) <= Share(k, m)
  {
    var x, y := Share(j, m), Share(k, m);
    assert x * m as real == j as real && y * m as real == k as real;
  }

  lemma ShareOfMultiple(n: nat, m: nat)
    requires m > 0
    ensures Share(n * m, m) == n as real
  {
  }

  // ----- The instance, in parts -----

  /** Weight of process k: twice 2m-1, twice 2m-2, ..., twice m+1, and three times m. */
  function Parts(m: nat, k: nat): int {
    if k < 2 * m then 2 * m - 1 - k / 2 else m
  }

  ghost function WorstEntropies(m: nat): (e: seq<real>)
    requires m > 0
    ensures |e| == 2 * m + 1
  {
    seq(2 * m + 1, k requires 0 <= k < 2 * m + 1 => Share(Parts(m, k) - m, m))
  }

  lemma WorstWeights(m: nat, k: nat)
    requires m > 0 && k <= 2 * m
    ensures Weights(WorstEntropies(m))[k] == Share(Parts(m, k), m)
    ensures 0.0 <= WorstEntropies(m)[k] <= 1.0
  {
    hide Share;
    ShareOfMultiple(1, m);
    ShareOfMultiple(0, m);
    ShareAdds(m, Parts(m, k) - m, m);
    ShareOrder(0, Parts(m, k) - m, m);
    ShareOrder(Parts(m, k) - m, m, m);
  }

  // ----- Where greedy puts them -----

  /** The core that greedy pairs process k with, and the process that it pairs core c with. */
  function Partner(m: nat, k: nat): int {
    if m % 2 == 1 && k == m then m - 1 else 2 * (m - 1 - k / 2) + k % 2
  }

  function Filler(m: nat, c: nat): int {
    if m % 2 == 1 && c == m - 1 then m else 2 * (m - 1 - c / 2) + c % 2
  }

  lemma PartnerFiller(m: nat, k: nat, c: nat)
    requires m <= k < 2 * m && c < m
    ensures 0 <= Partner(m, k) < m <= Filler(m, c) < 2 * m
    ensures Partner(m, k) == c <==> Filler(m, c) == k
    ensures Parts(m, c) + Parts(m, Filler(m, c)) == 3 * m - 1
  {
  }

  function GreedyCore(m: nat, k: nat): (c: nat)
    requires k <= 2 * m && m > 0
    ensures c < m
  {
    if k < m then k
    else if k < 2 * m then
      PartnerFiller(m, k, 0);
      Partner(m, k)
    else 0
  }

  function GreedyCores(m: nat): (a: seq<nat>)
    requires m > 0
    ensures |a| == 2 * m + 1 && forall k | 0 <= k < |a| :: a[k] == GreedyCore(m, k) < m
  {
    seq(2 * m + 1, k requires 0 <= k < 2 * m + 1 => GreedyCore(m, k))
  }

  /** What greedy has put on core c after n processes. */
  function GreedyParts(m: nat, n: nat, c: nat): int
    requires c < m && n <= 2 * m + 1
  {
    (if c < n then Parts(m, c) else 0)
    + (if Filler(m, c) < n then 3 * m - 1 - Parts(m, c) else 0)
    + (if c == 0 && n == 2 * m + 1 then m else 0)
  }

  lemma GreedyPartsStep(m: nat, k: nat, c: nat)
    requires c < m && k <= 2 * m
    ensures GreedyParts(m, k + 1, c) == GreedyParts(m, k, c) + if GreedyCore(m, k) == c then Parts(m, k) else 0
  {
    if m <= k < 2 * m { PartnerFiller(m, k, c); } else { PartnerFiller(m, m, c); }
  }

  /** The next process goes to the first core that holds the fewest parts. */
  lemma GreedyPartsChoice(m: nat, k: nat, c: nat)
    requires c < m && k <= 2 * m
    ensures GreedyParts(m, k, GreedyCore(m, k)) <= GreedyParts(m, k, c)
    ensures c < GreedyCore(m, k) ==> GreedyParts(m, k, GreedyCore(m, k)) < GreedyParts(m, k, c)
  {
    var g := GreedyCore(m, k);
    PartnerFiller(m, if m <= k < 2 * m then k else m, c);
    PartnerFiller(m, if m <= k < 2 * m then k else m, g);
  }

  /** After n processes in index order, core c carries so many parts. */
  ghost predicate Loaded(m: nat, a: seq<nat>, n: nat, c: nat, parts: int)
    requires m > 0 && |a| == 2 * m + 1 && n <= 2 * m + 1
  {
    Load(Indices(2 * m + 1)[..n], Weights(WorstEntropies(m)), a, c) == Share(parts, m)
  }

  lemma LoadedNothing(m: nat, a: seq<nat>, c: nat)
    requires m > 0 && |a| == 2 * m + 1
    ensures Loaded(m, a, 0, c, 0)
  {
  }

  lemma LoadedStep(m: nat, a: seq<nat>, n: nat, c: nat, parts: int)
    requires m > 0 && |a| == 2 * m + 1 && n <= 2 * m && Loaded(m, a, n, c, parts)
    ensures Loaded(m, a, n + 1, c, parts + if a[n] == c then Parts(m, n) else 0)
  {
    hide Share;
    var order := Indices(2 * m + 1);
    assert order[..n + 1][..n] == order[..n];
    WorstWeights(m, n);
    ShareAdds(parts, Parts(m, n), m);
  }

  lemma {:induction false} GreedyLoads(m: nat, n: nat, c: nat)
    requires c < m && n <= 2 * m + 1
    ensures Loaded(m, GreedyCores(m), n, c, GreedyParts(m, n, c))
  {
    hide Loaded, GreedyParts;
    if n == 0 {
      LoadedNothing(m, GreedyCores(m), c);
      GreedyPartsNone(m, c);
    } else {
      GreedyLoads(m, n - 1, c);
      GreedyPartsStep(m, n - 1, c);
      LoadedStep(m, GreedyCores(m), n - 1, c, GreedyParts(m, n - 1, c));
    }
  }

  lemma GreedyPartsNone(m: nat, c: nat)
    requires c < m
    ensures GreedyParts(m, 0, c) == 0
  {
  }

  // ----- The better placement -----

  function BetterCore(m: nat, k: nat): (c: nat)
    requires m > 0
    ensures c < m
  {
    if k >= 2 * m - 2 then m - 1 else if k < m - 1 then k else 2 * m - 3 - k
  }

  function BetterCores(m: nat): (a: seq<nat>)
    requires m > 0
    ensures |a| == 2 * m + 1 && forall k | 0 <= k < |a| :: a[k] == BetterCore(m, k) < m
  {
    seq(2 * m + 1, k requires 0 <= k < 2 * m + 1 => BetterCore(m, k))
  }

  function BetterParts(m: nat, n: nat, c: nat): int
    requires c < m
  {
    if c == m - 1 then
      (if n > 2 * m - 2 then m else 0) + (if n > 2 * m - 1 then m else 0) + (if n > 2 * m then m else 0)
    else
      (if n > c then Parts(m, c) else 0) + (if n > 2 * m - 3 - c then Parts(m, 2 * m - 3 - c) else 0)
  }

  lemma BetterPartsStep(m: nat, k: nat, c: nat)
    requires c < m && k <= 2 * m
    ensures BetterParts(m, 0, c) == 0 && BetterParts(m, 2 * m + 1, c) == 3 * m
    ensures BetterParts(m, k + 1, c) == BetterParts(m, k, c) + if BetterCore(m, k) == c then Parts(m, k) else 0
  {
  }

  lemma {:induction false} BetterLoads(m: nat, n: nat, c: nat)
    requires c < m && n <= 2 * m + 1
    ensures Loaded(m, BetterCores(m), n, c, BetterParts(m, n, c))
  {
    hide Loaded, BetterParts;
    BetterPartsStep(m, 0, c);
    if n == 0 {
      LoadedNothing(m, BetterCores(m), c);
    } else {
      BetterLoads(m, n - 1, c);
      BetterPartsStep(m, n - 1, c);
      LoadedStep(m, BetterCores(m), n - 1, c, BetterParts(m, n - 1, c));
    }
  }

  // ----- The theorem -----

  lemma WorstOrder(m: nat)
    requires m > 0
    ensures EntropyOrder(WorstEntropies(m)) == Indices(2 * m + 1)
  {
    hide Share;
    var e := WorstEntropies(m);
    forall i, j | 0 <= i < j < |e| ensures e[i] >= e[j] {
      ShareOrder(Parts(m, j) - m, Parts(m, i) - m, m);
    }
    AlreadySorted(e);
  }

  lemma WorstChoice(m: nat, k: nat)
    requires m > 0 && k <= 2 * m
    ensures GreedyChoice(Indices(2 * m + 1), Weights(WorstEntropies(m)), m, GreedyCores(m), k)
  {
    hide Share, GreedyParts, GreedyCore;
    var a, placed, w := GreedyCores(m), Indices(2 * m + 1)[..k], Weights(WorstEntropies(m));
    var g := a[k];
    GreedyLoads(m, k, g);
    forall c: nat | c < m
      ensures Load(placed, w, a, g) <= Load(placed, w, a, c)
      ensures c < g ==> Load(placed, w, a, g) < Load(placed, w, a, c)
    {
      GreedyLoads(m, k, c);
      GreedyPartsChoice(m, k, c);
      ShareOrder(GreedyParts(m, k, g), GreedyParts(m, k, c), m);
      ShareOrder(GreedyParts(m, k, c), GreedyParts(m, k, g), m);
    }
  }

  /**
   * For every number of cores some processes, with entropies in the documented range, fit on the
   * cores with a makespan of 3, while greedy's makespan is 4/3 - 1/(3m) times that.
   */
  lemma GreedyRatioAttained(m: nat)
    requires m > 0
    ensures var e, greedy, better := WorstEntropies(m), GreedyCores(m), BetterCores(m);
      && (forall i | 0 <= i < |e| :: 0.0 <= e[i] <= 1.0)
      && GreedyPlacement(e, m, greedy)
      && |better| == |e| && InRange(better, m)
      && (forall c: nat | c < m :: CoreWeight(e, better, c) == 3.0)
      && CoreWeight(e, greedy, 0) == (4.0 / 3.0 - 1.0 / (3.0 * m as real)) * 3.0
  {
    var e, n := WorstEntropies(m), 2 * m + 1;
    forall i | 0 <= i < n ensures 0.0 <= e[i] <= 1.0 {
      WorstWeights(m, i);
    }
    WorstOrder(m);
    assert Indices(n)[..n] == Indices(n);
    forall k | 0 <= k < n ensures GreedyChoice(Indices(n), Weights(e), m, GreedyCores(m), k) {
      WorstChoice(m, k);
    }
    forall c: nat | c < m ensures CoreWeight(e, BetterCores(m), c) == 3.0 {
      BetterLoads(m, n, c);
      BetterPartsStep(m, 0, c);
      ShareOfMultiple(3, m);
    }
    GreedyLoads(m, n, 0);
    PartnerFiller(m, m, 0);
    RatioOfShare(m);
  }

  lemma RatioOfShare(m: nat)
    requires m > 0
    ensures Share(4 * m - 1, m) == (4.0 / 3.0 - 1.0 / (3.0 * m as real)) * 3.0
  {
    var x := m as real;
    var third := 1.0 / (3.0 * x);
    assert third * (3.0 * x) == 1.0;
    assert (4.0 * x - 1.0) / x == 4.0 - 1.0 / x;
    assert 3.0 * third == 1.0 / x;
  }
}
