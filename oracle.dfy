/**
 * The s-distance oracle of one value of s: for each hyperedge, its
 * s-distance to every landmark that s-reaches it, found by a breadth-first
 * search from each landmark.
 */
module SOracles {
  import opened Wrappers
  import opened Walks
  import opened HyperGraphs
  import Distances

  /** Landmark l has a stored distance to hyperedge e. */
  predicate Has(labels: map<int, map<int, int>>, e: int, l: int)
  {
    e in labels && l in labels[e]
  }

  /** The labels of e, or no labels when e has none. */
  function LabelsOf(labels: map<int, map<int, int>>, e: int): (r: map<int, int>)
    ensures forall l :: l in r <==> Has(labels, e, l)
    ensures forall l | l in r :: Has(labels, e, l) && r[l] == labels[e][l]
  {
    if e in labels then labels[e] else map[]
  }

  /** The labels after the search results dist of landmark l are written in. */
  function Put(labels: map<int, map<int, int>>, l: int, dist: map<int, int>): (r: map<int, map<int, int>>)
  {
    map e | e in labels.Keys + dist.Keys :: if e in dist then LabelsOf(labels, e)[l := dist[e]] else labels[e]
  }

  /** Writing the results of l changes exactly the pairs (e, l) with e in dist. */
  lemma PutPairs(labels: map<int, map<int, int>>, l: int, dist: map<int, int>, e: int, l': int)
    ensures e in Put(labels, l, dist) <==> e in labels || e in dist
    ensures Has(Put(labels, l, dist), e, l') <==> Has(labels, e, l') || (l' == l && e in dist)
    ensures l' == l && e in dist ==> Put(labels, l, dist)[e][l'] == dist[e]
    ensures Has(labels, e, l') && !(l' == l && e in dist) ==> Put(labels, l, dist)[e][l'] == labels[e][l']
  {
  }

  /** The entries of dist for the keys in ks. */
  function Restrict(dist: map<int, int>, ks: set<int>): map<int, int>
  {
    map e | e in dist.Keys * ks :: dist[e]
  }

  /** Writing one more search result is one more update of the labels of e. */
  lemma PutStep(labels: map<int, map<int, int>>, l: int, dist: map<int, int>, seen: set<int>, e: int)
    requires e in dist
    ensures Put(labels, l, Restrict(dist, seen + {e})) ==
      Put(labels, l, Restrict(dist, seen))[e := LabelsOf(Put(labels, l, Restrict(dist, seen)), e)[l := dist[e]]]
  {
    var before := Put(labels, l, Restrict(dist, seen));
    var after := Put(labels, l, Restrict(dist, seen + {e}));
    var step := before[e := LabelsOf(before, e)[l := dist[e]]];
    assert after.Keys == step.Keys;
    forall x | x in after
      ensures after[x] == step[x]
    {
      if x != e && x in dist.Keys * seen {
        assert after[x] == LabelsOf(labels, x)[l := dist[x]];
      }
    }
  }

  /**
   * labels is old with the search results of the landmarks in done written
   * in: a pair (e, l) with l in done and e s-reachable from l holds their
   * s-distance, every other pair is as before, and a hyperedge has labels
   * exactly when it had some or some landmark in done reaches it.
   */
  ghost predicate Labelled(labels: map<int, map<int, int>>, old0: map<int, map<int, int>>, nb: seq<map<int, int>>, s: int, done: set<int>)
  {
    (forall e, l :: Has(labels, e, l) <==> Has(old0, e, l) || (l in done && Reachable(nb, s, l, e))) &&
    (forall e, l | l in done && Reachable(nb, s, l, e) :: Has(labels, e, l) && IsDistance(nb, s, l, e, labels[e][l])) &&
    (forall e, l | Has(old0, e, l) && !(l in done && Reachable(nb, s, l, e)) :: Has(labels, e, l) && labels[e][l] == old0[e][l]) &&
    (forall e :: e in labels <==> e in old0 || exists l :: l in done && Reachable(nb, s, l, e))
  }

  /** Writing in the results of one more landmark extends the written set. */
  lemma PutLabelled(labels: map<int, map<int, int>>, old0: map<int, map<int, int>>, nb: seq<map<int, int>>, s: int, done: set<int>, l: int, dist: map<int, int>)
    requires Labelled(labels, old0, nb, s, done) && l !in done
    requires forall x :: x in dist <==> Reachable(nb, s, l, x)
    requires forall x :: x in dist ==> IsDistance(nb, s, l, x, dist[x])
    ensures Labelled(Put(labels, l, dist), old0, nb, s, done + {l})
  {
    var next := Put(labels, l, dist);
    forall e, l' {
      PutPairs(labels, l, dist, e, l');
    }
    forall e | e in dist
      ensures e in next
    {
      PutPairs(labels, l, dist, e, l);
    }
  }

  /** Labels written from nothing are exact s-distances. */
  lemma LabelledExact(labels: map<int, map<int, int>>, nb: seq<map<int, int>>, s: int, done: set<int>, e: int, l: int)
    requires Labelled(labels, map[], nb, s, done) && Has(labels, e, l)
    ensures l in done && IsDistance(nb, s, l, e, labels[e][l])
  {
    assert !Has(map[], e, l);
  }

  /** A landmark that was searched from is at distance 0 from itself. */
  lemma LandmarkAtZero(labels: map<int, map<int, int>>, old0: map<int, map<int, int>>, nb: seq<map<int, int>>, s: int, done: set<int>, l: int)
    requires Labelled(labels, old0, nb, s, done) && l in done && 0 <= l < |nb|
    ensures Has(labels, l, l) && labels[l][l] == 0
  {
    assert WalkTo(nb, s, l, l, [l]);
    DistanceZero(nb, s, l, l);
    DistanceUnique(nb, s, l, l, 0, labels[l][l]);
  }

  /** The pairs (hyperedge, landmark) stored. */
  ghost function Pairs(labels: map<int, map<int, int>>): set<(int, int)>
  {
    set e, l | e in labels && l in labels[e] :: (e, l)
  }

  class SDistanceOracle {
    /** Every landmark the oracle has been populated with. */
    var landmarks: set<int>
    /** For each hyperedge, its s-distance to each landmark that reaches it. */
    var labels: map<int, map<int, int>>
    /** The size of the latest batch of landmarks. */
    var numLandmarks: int

    constructor ()
      ensures landmarks == {} && labels == map[] && numLandmarks == 0
    {
      landmarks := {};
      labels := map[];
      numLandmarks := 0;
    }

    /** Writes in the distance from l to every hyperedge in dist; all other pairs are unchanged. */
    method RecordDistances(l: int, dist: map<int, int>)
      modifies this
      ensures labels == Put(old(labels), l, dist)
      ensures landmarks == old(landmarks) && numLandmarks == old(numLandmarks)
    {
      ghost var L := labels;
      var rest := dist.Keys;
      ghost var seen: set<int> := {};
      assert Restrict(dist, seen) == map[];
      assert Put(L, l, map[]) == L;
      while rest != {}
        invariant seen + rest == dist.Keys && seen !! rest
        invariant labels == Put(L, l, Restrict(dist, seen))
        invariant landmarks == old(landmarks) && numLandmarks == old(numLandmarks)
        decreases rest
      {
        rest, seen := RecordLabel(l, dist, rest, L, seen);
      }
      assert Restrict(dist, seen) == dist;
    }

    /** One iteration of RecordDistances: the distance to one more hyperedge e of dist is written in. */
    method RecordLabel(l: int, dist: map<int, int>, rest: set<int>, ghost L: map<int, map<int, int>>, ghost seen: set<int>)
      returns (rest': set<int>, ghost seen': set<int>)
      requires rest != {} && seen + rest == dist.Keys && seen !! rest
      requires labels == Put(L, l, Restrict(dist, seen))
      modifies this`labels
      ensures rest' < rest && seen' + rest' == dist.Keys && seen' !! rest'
      ensures labels == Put(L, l, Restrict(dist, seen'))
    {
      var e := Pick(rest);
      PutStep(L, l, dist, seen, e);
      var tmpDist := if e in labels then labels[e] else map[];
      labels := labels[e := tmpDist[l := dist[e]]];
      rest' := rest - {e};
      seen' := seen + {e};
    }

    /** The s-distances from each landmark in lands to every hyperedge it reaches, written into the labels. */
    method FindDistances(g: HyperGraph, lands: set<int>, s: int)
      requires g.ConsistentMaps(g.Nb()) && forall l | l in lands :: g.IsEdge(l)
      modifies this
      ensures Labelled(labels, old(labels), g.Nb(), s, lands)
      ensures landmarks == old(landmarks) && numLandmarks == old(numLandmarks)
    {
      ghost var nb := g.Nb();
      ghost var done: set<int> := {};
      var rest := lands;
      while rest != {}
        invariant done + rest == lands && done * rest == {}
        invariant Labelled(labels, old(labels), nb, s, done)
        invariant landmarks == old(landmarks) && numLandmarks == old(numLandmarks)
        decreases rest
      {
        var l := Pick(rest);
        var dist := Distances.FindDistancesFrom(g, l, s);
        PutLabelled(labels, old(labels), nb, s, done, l, dist);
        RecordDistances(l, dist);
        rest := rest - {l};
        done := done + {l};
      }
    }

    /** Adds the landmarks, records the size of this batch (not of the union), and searches from them. */
    method PopulateOracle(g: HyperGraph, lands: set<int>, s: int)
      requires g.ConsistentMaps(g.Nb()) && forall l | l in lands :: g.IsEdge(l)
      modifies this
      ensures landmarks == old(landmarks) + lands
      ensures numLandmarks == |lands|
      ensures Labelled(labels, old(labels), g.Nb(), s, lands)
    {
      landmarks := landmarks + lands;
      numLandmarks := |lands|;
      FindDistances(g, lands, s);
    }

    /** The labels of e: empty when the oracle has none for e. */
    function GetLabel(e: int): (r: map<int, int>)
      reads this
      ensures forall l :: l in r <==> Has(labels, e, l)
      ensures forall l | l in r :: Has(labels, e, l) && r[l] == labels[e][l]
    {
      LabelsOf(labels, e)
    }

    /** Whether the oracle stores distances from e. */
    predicate HasLabel(e: int)
      reads this
    {
      e in labels
    }

    /** The number of (hyperedge, landmark) pairs stored. */
    method GetOracleSize() returns (size: int)
      ensures size == |Pairs(labels)|
    {
      size := CountPairs(labels);
    }
  }

  /** The number of pairs of a map of maps: the sum of the inner map sizes. */
  method CountPairs(labels: map<int, map<int, int>>) returns (size: int)
    ensures size == |Pairs(labels)|
  {
    size := 0;
    var rest := labels.Keys;
    ghost var seen: set<int> := {};
    while rest != {}
      invariant seen + rest == labels.Keys && seen * rest == {}
      invariant size == |PairsIn(labels, seen)|
      decreases rest
    {
      var e := Pick(rest);
      PairsInStep(labels, seen, e);
      size := size + |labels[e]|;
      rest := rest - {e};
      seen := seen + {e};
    }
    assert PairsIn(labels, seen) == Pairs(labels);
  }

  /** The pairs stored for the hyperedges in es. */
  ghost function PairsIn(labels: map<int, map<int, int>>, es: set<int>): set<(int, int)>
  {
    set e, l | e in labels && e in es && l in labels[e] :: (e, l)
  }

  /** The pairs of one more hyperedge are as many as its labels. */
  lemma PairsInStep(labels: map<int, map<int, int>>, es: set<int>, e: int)
    requires e in labels && e !in es
    ensures |PairsIn(labels, es + {e})| == |PairsIn(labels, es)| + |labels[e]|
  {
    var row := set l | l in labels[e] :: (e, l);
    assert PairsIn(labels, es + {e}) == PairsIn(labels, es) + row;
    assert PairsIn(labels, es) * row == {};
    RowCard(e, labels[e].Keys);
    assert |labels[e]| == |labels[e].Keys|;
  }

  /** The pairs (e, l) for l in ks are as many as ks. */
  lemma {:induction false} RowCard(e: int, ks: set<int>)
    ensures |set l | l in ks :: (e, l)| == |ks|
    decreases |ks|
  {
    if ks != {} {
      var x := Member(ks);
      RowCard(e, ks - {x});
      assert (set l | l in ks :: (e, l)) == (set l | l in ks - {x} :: (e, l)) + {(e, x)};
    }
  }
}
