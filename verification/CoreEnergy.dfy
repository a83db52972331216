// Ising energy of an assignment: the pairwise double loop and its per-core closed form.
module CoreEnergy {

  /** One process as the energy sees it: its core and whether its entropy exceeds 0.5. */
  datatype Placement = Placement(core: nat, high: bool)

  function Spin(high: bool): real {
    if high then 1.0 else -1.0
  }

  /** Interaction strength of a core with itself; rows or columns out of range read as not adjacent. */
  function Coupling(adjacency: seq<seq<bool>>, c: nat): real {
    if c < |adjacency| && c < |adjacency[c]| && adjacency[c][c] then 1.0 else 0.5
  }

  /** Energy between process `x` and each later process on its core. */
  function RowEnergy(adjacency: seq<seq<bool>>, x: Placement, rest: seq<Placement>): real {
    if rest == [] then 0.0
    else
      (if x.core == rest[0].core then -(Spin(x.high) * Spin(rest[0].high) * Coupling(adjacency, x.core)) else 0.0)
      + RowEnergy(adjacency, x, rest[1..])
  }

  /** Sum over all unordered pairs of processes that share a core. */
  function PairEnergy(adjacency: seq<seq<bool>>, p: seq<Placement>): real {
    if p == [] then 0.0 else RowEnergy(adjacency, p[0], p[1..]) + PairEnergy(adjacency, p[1..])
  }

  ghost function HighOn(p: seq<Placement>, c: nat): nat { multiset(p)[Placement(c, true)] }

  ghost function LowOn(p: seq<Placement>, c: nat): nat { multiset(p)[Placement(c, false)] }

  /** Excess of high-entropy over low-entropy processes on core `c`. */
  ghost function Excess(p: seq<Placement>, c: nat): real { HighOn(p, c) as real - LowOn(p, c) as real }

  ghost function Term(coupling: real, excess: real, count: nat): real {
    coupling * (excess * excess - count as real) / 2.0
  }

  ghost function CoreTerm(adjacency: seq<seq<bool>>, p: seq<Placement>, c: nat): real {
    Term(Coupling(adjacency, c), Excess(p, c), HighOn(p, c) + LowOn(p, c))
  }

  ghost function CoreTerms(adjacency: seq<seq<bool>>, p: seq<Placement>, m: nat): real {
    if m == 0 then 0.0 else CoreTerms(adjacency, p, m - 1) + CoreTerm(adjacency, p, m - 1)
  }

  ghost predicate OnCores(p: seq<Placement>, m: nat) {
    forall i | 0 <= i < |p| :: p[i].core < m
  }

  lemma CountStep(p: seq<Placement>, c: nat)
    requires p != []
    ensures HighOn(p, c) == HighOn(p[1..], c) + if p[0] == Placement(c, true) then 1 else 0
    ensures LowOn(p, c) == LowOn(p[1..], c) + if p[0] == Placement(c, false) then 1 else 0
  {
    assert p == [p[0]] + p[1..];
  }

  lemma {:induction false} RowClosedForm(adjacency: seq<seq<bool>>, x: Placement, rest: seq<Placement>)
    ensures RowEnergy(adjacency, x, rest) == -(Spin(x.high) * Coupling(adjacency, x.core) * Excess(rest, x.core))
  {
    if rest != [] {
      CountStep(rest, x.core);
      RowClosedForm(adjacency, x, rest[1..]);
    }
  }

  lemma TermStep(coupling: real, excess: real, spin: real, count: nat)
    requires spin == 1.0 || spin == -1.0
    ensures Term(coupling, excess + spin, count + 1) == Term(coupling, excess, count) + spin * coupling * excess
  {
    assert (excess + spin) * (excess + spin) == excess * excess + 2.0 * (spin * excess) + 1.0;
  }

  lemma CoreTermStep(adjacency: seq<seq<bool>>, p: seq<Placement>, c: nat)
    requires p != []
    ensures CoreTerm(adjacency, p, c) == CoreTerm(adjacency, p[1..], c)
      - if p[0].core == c then RowEnergy(adjacency, p[0], p[1..]) else 0.0
  {
    hide Term, HighOn, LowOn;
    CountStep(p, c);
    if p[0].core == c {
      RowClosedForm(adjacency, p[0], p[1..]);
      TermStep(Coupling(adjacency, c), Excess(p[1..], c), Spin(p[0].high), HighOn(p[1..], c) + LowOn(p[1..], c));
    }
  }

  lemma {:induction false} CoreTermsStep(adjacency: seq<seq<bool>>, p: seq<Placement>, m: nat)
    requires p != []
    ensures CoreTerms(adjacency, p, m) == CoreTerms(adjacency, p[1..], m)
      - if p[0].core < m then RowEnergy(adjacency, p[0], p[1..]) else 0.0
  {
    if m > 0 {
      CoreTermsStep(adjacency, p, m - 1);
      CoreTermStep(adjacency, p, m - 1);
    }
  }

  lemma {:induction false} CoreTermsOfNothing(adjacency: seq<seq<bool>>, m: nat)
    ensures CoreTerms(adjacency, [], m) == 0.0
  {
    if m > 0 { CoreTermsOfNothing(adjacency, m - 1); }
  }

  /** The double loop equals -sum over cores of coupling * ((high - low)^2 - n) / 2. */
  lemma {:induction false} EnergyClosedForm(adjacency: seq<seq<bool>>, p: seq<Placement>, m: nat)
    requires OnCores(p, m)
    ensures PairEnergy(adjacency, p) == -CoreTerms(adjacency, p, m)
  {
    if p == [] {
      CoreTermsOfNothing(adjacency, m);
    } else {
      EnergyClosedForm(adjacency, p[1..], m);
      CoreTermsStep(adjacency, p, m);
    }
  }

  /**
   * Two processes attract each other by 1 on a core adjacent to itself and by 1/2 on any other when
   * they are of one kind, repel each other as much when they are not, and ignore each other elsewhere.
   */
  lemma PairOf(adjacency: seq<seq<bool>>, x: Placement, y: Placement)
    ensures var adjacent := x.core < |adjacency| && x.core < |adjacency[x.core]| && adjacency[x.core][x.core];
      PairEnergy(adjacency, [x, y]) ==
        if x.core != y.core then 0.0
        else if x.high == y.high then (if adjacent then -1.0 else -0.5)
        else (if adjacent then 1.0 else 0.5)
  {
    TwoProcesses(adjacency, x, y);
  }

  lemma TwoProcesses(adjacency: seq<seq<bool>>, x: Placement, y: Placement)
    ensures PairEnergy(adjacency, [x, y]) == RowEnergy(adjacency, x, [y])
    ensures RowEnergy(adjacency, x, [y]) ==
      if x.core == y.core then -(Spin(x.high) * Spin(y.high) * Coupling(adjacency, x.core)) else 0.0
  {
    assert [x, y][1..] == [y] && [y][1..] == [];
    assert PairEnergy(adjacency, [y]) == 0.0;
    assert RowEnergy(adjacency, x, []) == 0.0;
  }

  /** A further process, put first, adds the energies it has with each of the others. */
  lemma {:induction false} EnergyAdds(adjacency: seq<seq<bool>>, x: Placement, p: seq<Placement>, y: Placement)
    ensures RowEnergy(adjacency, x, [y] + p) == PairEnergy(adjacency, [x, y]) + RowEnergy(adjacency, x, p)
    ensures PairEnergy(adjacency, [x] + p) == RowEnergy(adjacency, x, p) + PairEnergy(adjacency, p)
  {
    assert ([y] + p)[1..] == p && ([x] + p)[1..] == p;
    TwoProcesses(adjacency, x, y);
  }

  ghost predicate SameCoupling(one: seq<seq<bool>>, two: seq<seq<bool>>, m: nat) {
    forall c | 0 <= c < m :: Coupling(one, c) == Coupling(two, c)
  }

  lemma {:induction false} CoreTermsDependOnCounts(
      one: seq<seq<bool>>, two: seq<seq<bool>>, p: seq<Placement>, q: seq<Placement>, m: nat)
    requires SameCoupling(one, two, m) && multiset(p) == multiset(q)
    ensures CoreTerms(one, p, m) == CoreTerms(two, q, m)
  {
    if m > 0 {
      CoreTermsDependOnCounts(one, two, p, q, m - 1);
      assert Coupling(one, m - 1) == Coupling(two, m - 1);
    }
  }

  /**
   * Only the diagonal of the adjacency matrix and the multiset of placements matter:
   * reordering processes, or swapping in any topology with the same diagonal, changes nothing.
   */
  lemma EnergyInvariance(one: seq<seq<bool>>, two: seq<seq<bool>>, p: seq<Placement>, q: seq<Placement>, m: nat)
    requires OnCores(p, m) && SameCoupling(one, two, m) && multiset(p) == multiset(q)
    ensures PairEnergy(one, p) == PairEnergy(two, q)
  {
    forall i | 0 <= i < |q| ensures q[i].core < m {
      assert q[i] in multiset(q);
      assert q[i] in p;
    }
    EnergyClosedForm(one, p, m);
    EnergyClosedForm(two, q, m);
    CoreTermsDependOnCounts(one, two, p, q, m);
  }
}
