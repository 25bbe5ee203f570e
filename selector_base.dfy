/**
 * Shared pieces of landmark selection: the strategy the configured method
 * name selects, the s-degree of a hyperedge read off the neighbour maps,
 * the s value of a component from its position in the flat per-component
 * arrays, and the distance from a hyperedge to a set of landmarks.
 */
module SelectorBasics {
  import opened Wrappers
  import opened HyperGraphs
  import opened LandmarkAssignment
  import Text
  import Utils

  /*
   * Strategy names
   */

  /** The strategy a method name selects, compared without case; any other name selects Random. */
  function StrategyNamed(name: string): (r: Strategy)
    ensures r == Degree <==> Text.EqualsIgnoreCase(name, "degree")
    ensures r == Farthest <==> Text.EqualsIgnoreCase(name, "farthest")
    ensures r == BestCover <==> Text.EqualsIgnoreCase(name, "bestcover")
    ensures r == Between <==> Text.EqualsIgnoreCase(name, "between")
  {
    if Text.EqualsIgnoreCase(name, "degree") then Degree
    else if Text.EqualsIgnoreCase(name, "farthest") then Farthest
    else if Text.EqualsIgnoreCase(name, "bestcover") then BestCover
    else if Text.EqualsIgnoreCase(name, "between") then Between
    else Random
  }

  /** No name matches two of the strategy names, so every strategy is reachable by its own name only. */
  lemma NamesDistinct(name: string)
    ensures StrategyNamed("Degree") == Degree && StrategyNamed("FARTHEST") == Farthest
    ensures StrategyNamed(name) == Random <==>
      !Text.EqualsIgnoreCase(name, "degree") && !Text.EqualsIgnoreCase(name, "farthest") &&
      !Text.EqualsIgnoreCase(name, "bestcover") && !Text.EqualsIgnoreCase(name, "between")
  {
    assert Text.EqualsIgnoreCase("Degree", "degree");
    assert Text.EqualsIgnoreCase("FARTHEST", "farthest");
  }

  /*
   * Degrees
   */

  /** The s-degree of e: how many neighbours record an overlap of at least s with it (0 for a non-edge). */
  function Deg(nb: seq<map<int, int>>, e: int, s: int): nat
  {
    if 0 <= e < |nb| then |set n | n in nb[e] && nb[e][n] >= s| else 0
  }

  /** Every member of xs is a hyperedge id. */
  predicate AllEdges(g: HyperGraph, xs: set<int>)
  {
    forall x | x in xs :: g.IsEdge(x)
  }

  /** `graph.getNumSNeighborsOf(e, s)`: the s-degree of e. */
  method SDegree(g: HyperGraph, e: int, s: int) returns (d: nat)
    requires g.IsEdge(e)
    ensures d == Deg(g.Nb(), e, s)
  {
    d := g.GetEdgeDegree(e, s);
    assert g.GetSNeighborsOf(e, s) == set n | n in g.Nb()[e] && g.Nb()[e][n] >= s;
  }

  /**
   * A top-k choice by degree among cands: k of them (all when there are
   * fewer), and no candidate left out has a larger degree than one chosen.
   */
  ghost predicate TopDegree(nb: seq<map<int, int>>, s: int, sel: set<int>, cands: set<int>, k: int)
  {
    sel <= cands && |sel| == Min(k, |cands|) &&
    forall x, y | x in sel && y in cands && y !in sel :: Deg(nb, y, s) <= Deg(nb, x, s)
  }

  /** A member of xs of least degree (the head of the source's priority queue). */
  method LeastDegree(g: HyperGraph, xs: set<int>, s: int) returns (m: int)
    requires xs != {} && AllEdges(g, xs)
    ensures m in xs && forall x | x in xs :: Deg(g.Nb(), m, s) <= Deg(g.Nb(), x, s)
  {
    m := Pick(xs);
    var dm := SDegree(g, m, s);
    var rest := xs - {m};
    while rest != {}
      invariant rest <= xs && m in xs && dm == Deg(g.Nb(), m, s)
      invariant forall x | x in xs && x !in rest :: dm <= Deg(g.Nb(), x, s)
      decreases |rest|
    {
      var x := Pick(rest);
      var dx := SDegree(g, x, s);
      if dx < dm {
        m, dm := x, dx;
      }
      rest := rest - {x};
    }
  }

  /** A member of xs of largest degree (the head of a list sorted by decreasing degree). */
  method MostDegree(g: HyperGraph, xs: set<int>, s: int) returns (m: int)
    requires xs != {} && AllEdges(g, xs)
    ensures m in xs && forall x | x in xs :: Deg(g.Nb(), x, s) <= Deg(g.Nb(), m, s)
  {
    m := Pick(xs);
    var dm := SDegree(g, m, s);
    var rest := xs - {m};
    while rest != {}
      invariant rest <= xs && m in xs && dm == Deg(g.Nb(), m, s)
      invariant forall x | x in xs && x !in rest :: Deg(g.Nb(), x, s) <= dm
      decreases |rest|
    {
      var x := Pick(rest);
      var dx := SDegree(g, x, s);
      if dx > dm {
        m, dm := x, dx;
      }
      rest := rest - {x};
    }
  }

  /*
   * Component positions
   */

  /** One more than the first index from i on whose cumulative count exceeds pos, or -1. */
  function SFrom(cumSum: seq<int>, pos: int, i: nat): int
    decreases |cumSum| - i
  {
    if i >= |cumSum| then -1
    else if pos < cumSum[i] then i + 1
    else SFrom(cumSum, pos, i + 1)
  }

  /** The s of the component at position pos of the flat arrays. */
  function SOf(cumSum: seq<int>, pos: int): int
  {
    SFrom(cumSum, pos, 0)
  }

  /** `getSFromPos(cumSum, pos)`: scans the cumulative counts for the first one above pos. */
  method GetSFromPos(cumSum: seq<int>, pos: int) returns (s: int)
    ensures s == SOf(cumSum, pos)
  {
    var i := 0;
    while i < |cumSum|
      invariant 0 <= i <= |cumSum|
      invariant SFrom(cumSum, pos, i) == SOf(cumSum, pos)
    {
      if pos < cumSum[i] {
        return i + 1;
      }
      i := i + 1;
    }
    return -1;
  }

  /** SFrom finds the first index from i on whose count exceeds pos. */
  lemma {:induction false} SFromFirst(cumSum: seq<int>, pos: int, i: nat)
    ensures SFrom(cumSum, pos, i) == -1 <==> forall j | i <= j < |cumSum| :: cumSum[j] <= pos
    ensures SFrom(cumSum, pos, i) != -1 ==>
      i + 1 <= SFrom(cumSum, pos, i) <= |cumSum| && pos < cumSum[SFrom(cumSum, pos, i) - 1] &&
      forall j | i <= j < SFrom(cumSum, pos, i) - 1 :: cumSum[j] <= pos
    decreases |cumSum| - i
  {
    if i < |cumSum| && cumSum[i] <= pos {
      SFromFirst(cumSum, pos, i + 1);
    }
  }

  /**
   * The s of position pos is one more than the first index whose
   * cumulative count exceeds pos, and -1 when no count does.
   */
  lemma SOfFirst(cumSum: seq<int>, pos: int)
    ensures SOf(cumSum, pos) == -1 <==> forall j | 0 <= j < |cumSum| :: cumSum[j] <= pos
    ensures SOf(cumSum, pos) != -1 ==>
      1 <= SOf(cumSum, pos) <= |cumSum| && pos < cumSum[SOf(cumSum, pos) - 1] &&
      forall j | 0 <= j < SOf(cumSum, pos) - 1 :: cumSum[j] <= pos
  {
    SFromFirst(cumSum, pos, 0);
  }

  /** Where the components of level s start in the flat arrays: the count of all levels below s. */
  function Drift(cumSum: seq<int>, s: int): int
    requires 1 <= s <= |cumSum|
  {
    if s > 1 then cumSum[s - 2] else 0
  }

  /**
   * Over the cumulative counts of non-negative per-level component counts
   * (without overflow), every position below the total lies in its
   * level's block: pos - Drift is a valid component index of level SOf.
   */
  lemma {:induction false} SOfInBlock(counts: seq<int>, pos: int)
    requires forall k | 0 <= k < |counts| :: counts[k] >= 0
    requires Utils.SumTo(counts, |counts|) <= IntMax
    requires 0 <= pos < Utils.SumTo(counts, |counts|)
    ensures 1 <= SOf(Utils.PrefixSums(counts), pos) <= |counts|
    ensures 0 <= pos - Drift(Utils.PrefixSums(counts), SOf(Utils.PrefixSums(counts), pos)) <
      counts[SOf(Utils.PrefixSums(counts), pos) - 1]
  {
    var cs := Utils.PrefixSums(counts);
    forall k | 0 <= k < |counts|
      ensures cs[k] == Utils.SumTo(counts, k + 1)
    {
      Utils.SumToMonotone(counts, 0, k + 1);
      Utils.SumToMonotone(counts, k + 1, |counts|);
      WrapInRange(Utils.SumTo(counts, k + 1));
    }
    SOfFirst(cs, pos);
    assert cs[|counts| - 1] == Utils.SumTo(counts, |counts|);
    var s := SOf(cs, pos);
    assert cs[s - 1] == Utils.SumTo(counts, s - 1) + counts[s - 1];
    assert Drift(cs, s) == Utils.SumTo(counts, s - 1);
  }

  /*
   * Distances to the landmarks
   */

  /** d's entry for e, Integer.MAX_VALUE when e is missing (`getOrDefault(e, MAX_VALUE)`). */
  function DistOr(d: map<int, int>, e: int): int
  {
    if e in d then d[e] else IntMax
  }

  /** The smallest distance from the landmarks of dists to e, Integer.MAX_VALUE when none reaches it. */
  ghost function MinDist(dists: map<int, map<int, int>>, e: int): int
  {
    MinOf({IntMax} + set l | l in dists :: DistOr(dists[l], e))
  }

  /** The loop over the landmarks' distance maps keeping the least entry for e. */
  method MinDistTo(dists: map<int, map<int, int>>, e: int) returns (minD: int)
    ensures minD == MinDist(dists, e)
  {
    minD := IntMax;
    var rest := dists.Keys;
    ghost var done: set<int> := {};
    while rest != {}
      invariant rest + done == dists.Keys && rest !! done
      invariant minD == MinOf({IntMax} + set l | l in done :: DistOr(dists[l], e))
      decreases |rest|
    {
      var l := Pick(rest);
      ghost var before := {IntMax} + set l' | l' in done :: DistOr(dists[l'], e);
      MinOfAdd(before, DistOr(dists[l], e));
      assert {IntMax} + (set l' | l' in done + {l} :: DistOr(dists[l'], e)) == before + {DistOr(dists[l], e)};
      minD := Min(minD, DistOr(dists[l], e));
      rest := rest - {l};
      done := done + {l};
    }
    assert done == dists.Keys;
  }

  /** The least distance is one of the landmarks' entries for e, or Integer.MAX_VALUE, and no entry is smaller. */
  lemma MinDistIs(dists: map<int, map<int, int>>, e: int)
    ensures MinDist(dists, e) <= IntMax
    ensures forall l | l in dists :: MinDist(dists, e) <= DistOr(dists[l], e)
    ensures MinDist(dists, e) == IntMax || exists l | l in dists :: e in dists[l] && MinDist(dists, e) == dists[l][e]
  {
    var xs := {IntMax} + set l | l in dists :: DistOr(dists[l], e);
    forall l | l in dists
      ensures MinDist(dists, e) <= DistOr(dists[l], e)
    {
      assert DistOr(dists[l], e) in xs;
    }
  }
}
