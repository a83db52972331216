// Round-robin placement: process k of the sorted order, counted over residues modulo m.
module RoundRobin {
  import opened CoreLoads

  predicate High(entropy: real) { entropy > 0.5 }

  /** Number of high-entropy processes among those listed. */
  ghost function Highs(order: seq<nat>, e: seq<real>): (h: nat)
    requires Covers(order, |e|)
    ensures h <= |order|
  {
    if order == [] then 0
    else Highs(order[..|order| - 1], e) + if High(e[order[|order| - 1]]) then 1 else 0
  }

  /** Number of high-entropy processes among those listed that sit on core `c`. */
  ghost function HighsOn(order: seq<nat>, e: seq<real>, a: seq<nat>, c: nat): nat
    requires |a| == |e| && Covers(order, |e|)
  {
    if order == [] then 0
    else
      var i := order[|order| - 1];
      HighsOn(order[..|order| - 1], e, a, c) + if High(e[i]) && a[i] == c then 1 else 0
  }

  /** How many of 0 .. h-1 are congruent to `c` modulo `m`. */
  ghost function Residues(h: nat, m: nat, c: nat): nat
    requires m > 0
  {
    if h == 0 then 0 else Residues(h - 1, m, c) + if (h - 1) % m == c then 1 else 0
  }

  /** A descending order lists every high-entropy process before every low-entropy one. */
  lemma {:induction false} HighsComeFirst(order: seq<nat>, e: seq<real>, n: nat)
    requires Covers(order, |e|) && Descending(order, e) && n <= |order|
    ensures Highs(order[..n], e) <= Highs(order, e)
    ensures forall k | 0 <= k < n :: High(e[order[k]]) <==> k < Highs(order[..n], e)
  {
    if n > 0 {
      HighsComeFirst(order, e, n - 1);
      assert order[..n][..n - 1] == order[..n - 1];
    }
    HighsGrow(order, e, n);
  }

  lemma {:induction false} HighsGrow(order: seq<nat>, e: seq<real>, n: nat)
    requires Covers(order, |e|) && n <= |order|
    ensures Highs(order[..n], e) <= Highs(order, e)
    decreases |order|
  {
    if n < |order| {
      HighsGrow(order[..|order| - 1], e, n);
      assert order[..|order| - 1][..n] == order[..n];
    } else {
      assert order[..n] == order;
    }
  }

  /** High-entropy processes take the cores in turn; every low-entropy one goes to core H mod m. */
  ghost predicate TakesTurns(order: seq<nat>, e: seq<real>, m: nat, a: seq<nat>)
    requires |a| == |e| && Covers(order, |e|) && m > 0
  {
    forall k | 0 <= k < |order| :: a[order[k]] == Turn(k, Highs(order, e), m)
  }

  function Turn(k: nat, highs: nat, m: nat): (c: nat)
    requires m > 0
    ensures c < m
  {
    if k < highs then k % m else highs % m
  }

  lemma SuccessorModulo(h: nat, m: nat)
    requires m > 0
    ensures (h + 1) % m == if h % m + 1 == m then 0 else h % m + 1
    ensures (h + 1) / m == if h % m + 1 == m then h / m + 1 else h / m
  {
    var q, r := h / m, h % m;
    if r + 1 == m {
      DivModUnique(h + 1, m, q + 1, 0);
    } else {
      DivModUnique(h + 1, m, q, r + 1);
    }
  }

  lemma DivModUnique(x: nat, m: nat, q: nat, r: nat)
    requires r < m && x == q * m + r
    ensures x / m == q && x % m == r
  {
    SmallMultiple(m, x / m - q);
  }

  lemma SmallMultiple(m: nat, d: int)
    ensures -1 * m < d * m < m ==> d == 0
  {
    if d >= 1 {
      AtLeastOnce(m, d);
    } else if d <= -1 {
      AtLeastOnce(m, -d);
    }
  }

  lemma AtLeastOnce(m: nat, d: int)
    requires d >= 1
    ensures d * m >= m
  {
  }

  lemma {:induction false} ResiduesClosedForm(h: nat, m: nat, c: nat)
    requires c < m
    ensures Residues(h, m, c) == h / m + if c < h % m then 1 else 0
  {
    if h == 0 {
      DivModUnique(0, m, 0, 0);
    } else {
      ResiduesClosedForm(h - 1, m, c);
      SuccessorModulo(h - 1, m);
    }
  }

  /** The first core holding the fewest high-entropy processes is core h mod m. */
  lemma FewestHighs(h: nat, m: nat, best: nat)
    requires best < m
    requires forall c: nat | c < m :: Residues(h, m, best) <= Residues(h, m, c)
    requires forall c: nat | c < best :: Residues(h, m, best) < Residues(h, m, c)
    ensures best == h % m
  {
    var turn := h % m;
    ResiduesClosedForm(h, m, best);
    ResiduesClosedForm(h, m, turn);
    assert Residues(h, m, best) <= Residues(h, m, turn);
  }

  lemma {:induction false} TurnCounts(order: seq<nat>, e: seq<real>, m: nat, a: seq<nat>, n: nat, c: nat)
    requires |a| == |e| && Covers(order, |e|) && m > 0 && n <= |order| && Descending(order, e)
    requires forall k | 0 <= k < n && k < Highs(order, e) :: a[order[k]] == k % m
    ensures HighsOn(order[..n], e, a, c) == Residues(if n < Highs(order, e) then n else Highs(order, e), m, c)
  {
    if n > 0 {
      TurnCounts(order, e, m, a, n - 1, c);
      assert order[..n][..n - 1] == order[..n - 1];
      HighsComeFirst(order, e, |order|);
      assert order[..|order|] == order;
    }
  }

  /** The high count of an enumeration is the number of entropies above one half. */
  lemma HighsIs(order: seq<nat>, e: seq<real>)
    requires |order| == |e| && Covers(order, |e|)
    requires forall i: nat | i < |e| :: i in order
    requires forall j, k | 0 <= j < k < |order| :: order[j] != order[k]
    ensures Highs(order, e) == |set i: nat | i < |e| && e[i] > 0.5|
  {
    HighsListed(order, e, |order|);
    assert order[..|order|] == order;
    ListedIsAbove(order, e);
  }

  lemma ListedIsAbove(order: seq<nat>, e: seq<real>)
    requires |order| == |e| && Covers(order, |e|)
    requires forall i: nat | i < |e| :: i in order
    ensures (set i: nat | i < |e| && e[i] > 0.5) == set k | 0 <= k < |order| && e[order[k]] > 0.5 :: order[k]
  {
    var above := set i: nat | i < |e| && e[i] > 0.5;
    var listed := set k | 0 <= k < |order| && e[order[k]] > 0.5 :: order[k];
    forall i | i in above ensures i in listed {
      assert i in order;
      var k :| 0 <= k < |order| && order[k] == i;
    }
  }

  lemma {:induction false} HighsListed(order: seq<nat>, e: seq<real>, n: nat)
    requires Covers(order, |e|) && n <= |order|
    requires forall j, k | 0 <= j < k < |order| :: order[j] != order[k]
    ensures Highs(order[..n], e) == |set k | 0 <= k < n && e[order[k]] > 0.5 :: order[k]|
  {
    var listed := set k | 0 <= k < n && e[order[k]] > 0.5 :: order[k];
    if n == 0 {
      assert listed == {};
    } else {
      HighsListed(order, e, n - 1);
      assert order[..n][..n - 1] == order[..n - 1];
      ListedStep(order, e, n - 1);
    }
  }

  lemma ListedStep(order: seq<nat>, e: seq<real>, n: nat)
    requires Covers(order, |e|) && n < |order|
    requires forall j, k | 0 <= j < k < |order| :: order[j] != order[k]
    ensures var earlier := set k | 0 <= k < n && e[order[k]] > 0.5 :: order[k];
      && order[n] !in earlier
      && (set k | 0 <= k < n + 1 && e[order[k]] > 0.5 :: order[k])
         == if e[order[n]] > 0.5 then earlier + {order[n]} else earlier
  {
  }

  /** Round-robin spreads high-entropy processes evenly: per-core counts differ by at most one. */
  lemma HighsAreBalanced(order: seq<nat>, e: seq<real>, m: nat, a: seq<nat>, c: nat, d: nat)
    requires |a| == |e| && Covers(order, |e|) && m > 0 && Descending(order, e)
    requires TakesTurns(order, e, m, a) && c < m && d < m
    ensures HighsOn(order, e, a, c) <= HighsOn(order, e, a, d) + 1
    ensures HighsOn(order, e, a, c) == Highs(order, e) / m + if c < Highs(order, e) % m then 1 else 0
  {
    var h := Highs(order, e);
    assert order[..|order|] == order;
    TurnCounts(order, e, m, a, |order|, c);
    TurnCounts(order, e, m, a, |order|, d);
    ResiduesClosedForm(h, m, c);
    ResiduesClosedForm(h, m, d);
  }

  /** ... but it does not spread the others: all low-entropy processes share one core. */
  lemma LowsShareOneCore(order: seq<nat>, e: seq<real>, m: nat, a: seq<nat>, j: nat, k: nat)
    requires |a| == |e| && Covers(order, |e|) && m > 0 && Descending(order, e)
    requires TakesTurns(order, e, m, a) && j < |order| && k < |order|
    requires !High(e[order[j]]) && !High(e[order[k]])
    ensures a[order[j]] == a[order[k]] == Highs(order, e) % m
  {
    HighsComeFirst(order, e, |order|);
    assert order[..|order|] == order;
  }
}
