/**
 * The incremental landmark strategies: each call moves one more hyperedge
 * of a component into its landmarks and out of its candidates. The
 * path-based ones keep, per hyperedge, the ids of the sampled paths that
 * hold it, and sample afresh when that index has run dry.
 */
module IncrementalSelection {
  import opened Wrappers
  import opened Walks
  import opened HyperGraphs
  import opened SelectorBasics
  import Utils
  import Distances
  import PathSample

  /**
   * The sets an incremental selector updates in place: the candidates
   * left in a component, the landmarks chosen in it, and for each
   * hyperedge the ids of the sampled paths that hold it (`pathsInSample`).
   */
  datatype Pool = Pool(cands: set<int>, landmarks: set<int>, pathsOf: map<int, set<int>>)

  /** q is p with x moved from the candidates to the landmarks (`currLandmarks.add(x); candidates.remove(x)`). */
  predicate MovedTo(p: Pool, q: Pool, x: int)
  {
    q.cands == p.cands - {x} && q.landmarks == p.landmarks + {x}
  }

  /** The graph's neighbour maps are consistent and symmetric, so its searches can run. */
  ghost predicate Searchable(g: HyperGraph)
    reads g.hyperedges
  {
    g.ConsistentMaps(g.Nb()) && Symmetric(g.Nb())
  }

  /*
   * Random and degree
   */

  /**
   * `randomSelection(candidates, currLandmarks)`: a candidate drawn at
   * random; with no candidate the draw fails (`nextInt(0)`), None.
   */
  method RandomOne(p: Pool) returns (r: Option<Pool>, x: int)
    ensures r.None? <==> p.cands == {}
    ensures r.Some? ==> x in p.cands && MovedTo(p, r.value, x) && r.value.pathsOf == p.pathsOf
  {
    if p.cands == {} {
      return None, 0;
    }
    x := Pick(p.cands);
    r := Some(p.(cands := p.cands - {x}, landmarks := p.landmarks + {x}));
  }

  /**
   * `degreeSelection(candidates, currLandmarks, s)`: the head of the
   * candidates sorted by decreasing s-degree; with no candidate the head
   * does not exist (an index past the end), None.
   */
  method DegreeOne(g: HyperGraph, p: Pool, s: int) returns (r: Option<Pool>, x: int)
    requires AllEdges(g, p.cands)
    ensures r.None? <==> p.cands == {}
    ensures r.Some? ==> x in p.cands && MovedTo(p, r.value, x) && r.value.pathsOf == p.pathsOf
    ensures r.Some? ==> forall c | c in p.cands :: Deg(g.Nb(), c, s) <= Deg(g.Nb(), x, s)
  {
    if p.cands == {} {
      return None, 0;
    }
    x := MostDegree(g, p.cands, s);
    r := Some(p.(cands := p.cands - {x}, landmarks := p.landmarks + {x}));
  }

  /*
   * Farthest
   */

  /**
   * ldist holds, for each candidate a landmark reaches, the s-distance
   * from each landmark that reaches it: keyed by candidate first, then by
   * landmark, as the source builds `Ldist`.
   */
  ghost predicate Gathered(nb: seq<map<int, int>>, s: int, ldist: map<int, map<int, int>>, cands: set<int>, landmarks: set<int>)
  {
    (forall c, l | c in ldist && l in ldist[c] :: l in landmarks && IsDistance(nb, s, l, c, ldist[c][l])) &&
    (forall c | c in ldist :: c in cands) &&
    forall c, l | c in cands && l in landmarks && Reachable(nb, s, l, c) :: c in ldist && l in ldist[c]
  }

  /** The landmarks in done are gathered into ldist. */
  ghost predicate GatheredFrom(nb: seq<map<int, int>>, s: int, ldist: map<int, map<int, int>>, cands: set<int>, done: set<int>)
  {
    (forall c, l | c in ldist && l in ldist[c] :: l in done && IsDistance(nb, s, l, c, ldist[c][l])) &&
    (forall c | c in ldist :: c in cands) &&
    forall c, l | c in cands && l in done && Reachable(nb, s, l, c) :: c in ldist && l in ldist[c]
  }

  /**
   * The first loop of `farthestSelection(candidates, currLandmarks, s)`:
   * one s-BFS per landmark, each candidate it reaches recorded under that
   * candidate with the landmark's distance.
   */
  method GatherDistances(g: HyperGraph, cands: set<int>, landmarks: set<int>, s: int)
    returns (ldist: map<int, map<int, int>>)
    requires g.ConsistentMaps(g.Nb()) && AllEdges(g, landmarks)
    ensures Gathered(g.Nb(), s, ldist, cands, landmarks)
  {
    ghost var nb := g.Nb();
    ldist := map[];
    var rest := landmarks;
    ghost var done: set<int> := {};
    while rest != {}
      invariant rest + done == landmarks && rest !! done
      invariant GatheredFrom(nb, s, ldist, cands, done)
      decreases |rest|
    {
      var l := Pick(rest);
      var d := Distances.FindDistancesFrom(g, l, s);
      ldist := RecordFrom(nb, s, ldist, cands, done, l, d);
      rest := rest - {l};
      done := done + {l};
    }
  }

  /**
   * Part way through the inner loop: the landmarks in done are gathered,
   * and so is l for every candidate its BFS reached outside rest.
   */
  ghost predicate Recording(nb: seq<map<int, int>>, s: int, ldist: map<int, map<int, int>>, cands: set<int>,
                            done: set<int>, l: int, d: map<int, int>, rest: set<int>)
  {
    (forall c, m | c in ldist && m in ldist[c] :: (m in done || m == l) && IsDistance(nb, s, m, c, ldist[c][m])) &&
    (forall c | c in ldist :: c in cands) &&
    (forall c, m | c in cands && m in done && Reachable(nb, s, m, c) :: c in ldist && m in ldist[c]) &&
    (forall c | c in cands && c in d && c !in rest :: c in ldist && l in ldist[c])
  }

  /** Records the distance from l of one reached element e, when e is a candidate. */
  method RecordOne(ghost nb: seq<map<int, int>>, s: int, ldist0: map<int, map<int, int>>, cands: set<int>,
                   ghost done: set<int>, l: int, d: map<int, int>, ghost rest: set<int>, e: int)
    returns (ldist: map<int, map<int, int>>)
    requires Recording(nb, s, ldist0, cands, done, l, d, rest) && e in rest && rest <= d.Keys
    requires forall x | x in d :: IsDistance(nb, s, l, x, d[x])
    ensures Recording(nb, s, ldist, cands, done, l, d, rest - {e})
  {
    ldist := ldist0;
    if e in cands {
      var tmp := if e in ldist then ldist[e] else map[];
      ldist := ldist[e := tmp[l := d[e]]];
    }
  }

  /** Once every reached element is visited, the landmarks in done and l are gathered. */
  lemma RecordingDone(nb: seq<map<int, int>>, s: int, ldist: map<int, map<int, int>>, cands: set<int>,
                      done: set<int>, l: int, d: map<int, int>)
    requires Recording(nb, s, ldist, cands, done, l, d, {})
    requires forall x :: x in d <==> Reachable(nb, s, l, x)
    ensures GatheredFrom(nb, s, ldist, cands, done + {l})
  {
    forall c, m | c in ldist && m in ldist[c]
      ensures m in done + {l} && IsDistance(nb, s, m, c, ldist[c][m])
    {
    }
    forall c, m | c in cands && m in done + {l} && Reachable(nb, s, m, c)
      ensures c in ldist && m in ldist[c]
    {
      if m == l {
        assert c in d;
      }
    }
  }

  /** The inner loop: every candidate l's BFS reaches gets the entry l -> distance. */
  method RecordFrom(ghost nb: seq<map<int, int>>, s: int, ldist0: map<int, map<int, int>>, cands: set<int>,
                    ghost done: set<int>, l: int, d: map<int, int>)
    returns (ldist: map<int, map<int, int>>)
    requires GatheredFrom(nb, s, ldist0, cands, done) && l !in done
    requires forall x :: x in d <==> Reachable(nb, s, l, x)
    requires forall x | x in d :: IsDistance(nb, s, l, x, d[x])
    ensures GatheredFrom(nb, s, ldist, cands, done + {l})
  {
    ldist := ldist0;
    var rest := d.Keys;
    assert Recording(nb, s, ldist, cands, done, l, d, rest);
    while rest != {}
      invariant rest <= d.Keys
      invariant Recording(nb, s, ldist, cands, done, l, d, rest)
      decreases |rest|
    {
      var e := Pick(rest);
      ldist := RecordOne(nb, s, ldist, cands, done, l, d, rest, e);
      rest := rest - {e};
    }
    RecordingDone(nb, s, ldist, cands, done, l, d);
  }

  /**
   * The least distance recorded for c, over the landmarks that reach it
   * (Integer.MAX_VALUE when none does): how far c is from the landmarks.
   */
  ghost function RowMin(ldist: map<int, map<int, int>>, c: int): int
  {
    if c in ldist then MinOf({IntMax} + set l | l in ldist[c] :: ldist[c][l]) else IntMax
  }

  /** The intended inner loop: the least of the distances recorded for c. */
  method RowMinOf(ldist: map<int, map<int, int>>, c: int) returns (minD: int)
    ensures minD == RowMin(ldist, c)
  {
    minD := IntMax;
    if c !in ldist {
      return;
    }
    var row := ldist[c];
    var rest := row.Keys;
    ghost var done: set<int> := {};
    while rest != {}
      invariant rest + done == row.Keys && rest !! done
      invariant minD == MinOf({IntMax} + set l | l in done :: row[l])
      decreases |rest|
    {
      var l := Pick(rest);
      ghost var before := {IntMax} + set l' | l' in done :: row[l'];
      MinOfAdd(before, row[l]);
      assert {IntMax} + (set l' | l' in done + {l} :: row[l']) == before + {row[l]};
      minD := Min(minD, row[l]);
      rest := rest - {l};
      done := done + {l};
    }
    assert done == row.Keys;
  }

  /**
   * How far a candidate is from the landmarks: the least distance is some
   * landmark's s-distance to it, no landmark reaching it is closer, and a
   * candidate that is not a landmark is at least one step away.
   */
  lemma RowMinIs(nb: seq<map<int, int>>, s: int, ldist: map<int, map<int, int>>, cands: set<int>, landmarks: set<int>, c: int)
    requires Gathered(nb, s, ldist, cands, landmarks) && c in cands && c !in landmarks && 0 <= c < |nb|
    ensures RowMin(ldist, c) > 0
    ensures forall l, d | l in landmarks && IsDistance(nb, s, l, c, d) :: RowMin(ldist, c) <= d
    ensures RowMin(ldist, c) == IntMax || exists l | l in landmarks :: IsDistance(nb, s, l, c, RowMin(ldist, c))
  {
    forall l, d | l in landmarks && IsDistance(nb, s, l, c, d)
      ensures c in ldist && l in ldist[c] && ldist[c][l] == d
    {
      assert Reachable(nb, s, l, c);
      DistanceUnique(nb, s, l, c, d, ldist[c][l]);
    }
    if c in ldist {
      var xs := {IntMax} + set l | l in ldist[c] :: ldist[c][l];
      forall l | l in ldist[c]
        ensures ldist[c][l] > 0
      {
        var d := ldist[c][l];
        assert l in landmarks && IsDistance(nb, s, l, c, d);
        DistanceZero(nb, s, l, c);
      }
      forall y | y in xs
        ensures y > 0
      {
        if y != IntMax {
          var l :| l in ldist[c] && ldist[c][l] == y;
        }
      }
      assert RowMin(ldist, c) == MinOf(xs) && MinOf(xs) in xs;
      if RowMin(ldist, c) != IntMax {
        var l :| l in ldist[c] && ldist[c][l] == RowMin(ldist, c);
        assert l in landmarks && IsDistance(nb, s, l, c, RowMin(ldist, c));
      }
      forall l, d | l in landmarks && IsDistance(nb, s, l, c, d)
        ensures RowMin(ldist, c) <= d
      {
        assert ldist[c][l] in xs;
      }
    }
  }

  /**
   * The scan of the intended `farthestSelection(candidates, currLandmarks, s)`:
   * each candidate's least distance read from its own row of ldist, the
   * first candidate beating the mark 0 kept, then any strictly farther
   * one; -1 when there is no candidate.
   */
  method FarthestScan(ldist: map<int, map<int, int>>, cands: set<int>) returns (x: int)
    requires forall c | c in cands :: c >= 0
    ensures cands == {} ==> x == -1
    ensures x != -1 ==> x in cands && RowMin(ldist, x) > 0 && forall c | c in cands :: RowMin(ldist, c) <= RowMin(ldist, x)
    ensures (forall c | c in cands :: RowMin(ldist, c) > 0) ==> (x == -1 <==> cands == {})
  {
    var max := 0;
    x := -1;
    var rest := cands;
    while rest != {}
      invariant rest <= cands
      invariant x == -1 ==> max == 0 && forall c | c in cands && c !in rest :: RowMin(ldist, c) <= 0
      invariant x != -1 ==> x in cands && max == RowMin(ldist, x) > 0
      invariant forall c | c in cands && c !in rest :: RowMin(ldist, c) <= max
      decreases |rest|
    {
      var c := Pick(rest);
      var minD := RowMinOf(ldist, c);
      if minD > max {
        x, max := c, minD;
      }
      rest := rest - {c};
    }
    if x == -1 && cands != {} {
      var c := Member(cands);
      assert RowMin(ldist, c) <= 0;
    }
  }

  /**
   * The scan as the source writes it: for each candidate c it looks c up
   * in every row of ldist (`Ldist.values()`), but the rows are keyed by
   * landmark, so the least distance it computes is MinDist(ldist, c).
   */
  method FarthestScanAsWritten(ldist: map<int, map<int, int>>, cands: set<int>) returns (x: int)
    requires forall c | c in cands :: c >= 0
    ensures cands == {} ==> x == -1
    ensures x != -1 ==> x in cands && MinDist(ldist, x) > 0 && forall c | c in cands :: MinDist(ldist, c) <= MinDist(ldist, x)
  {
    var max := 0;
    x := -1;
    var rest := cands;
    while rest != {}
      invariant rest <= cands
      invariant x == -1 ==> max == 0
      invariant x != -1 ==> x in cands && max == MinDist(ldist, x) > 0
      invariant forall c | c in cands && c !in rest :: MinDist(ldist, c) <= max
      decreases |rest|
    {
      var c := Pick(rest);
      var minD := MinDistTo(ldist, c);
      if minD > max {
        x, max := c, minD;
      }
      rest := rest - {c};
    }
  }

  /**
   * What the source's scan sees: every row of ldist is keyed by landmark,
   * so a candidate that is not a landmark is found in none of them and its
   * least distance is Integer.MAX_VALUE whatever the distances are. Every
   * candidate ties, and the scan keeps the first one it meets.
   */
  lemma {:induction false} ByCandidateBlind(nb: seq<map<int, int>>, s: int, ldist: map<int, map<int, int>>,
                                            cands: set<int>, landmarks: set<int>)
    requires Gathered(nb, s, ldist, cands, landmarks)
    ensures forall c | c in cands && c !in landmarks :: MinDist(ldist, c) == IntMax
  {
    forall c | c in cands && c !in landmarks
      ensures MinDist(ldist, c) == IntMax
    {
      var xs := set l | l in ldist :: DistOr(ldist[l], c);
      forall y | y in xs
        ensures y == IntMax
      {
        var l :| l in ldist && DistOr(ldist[l], c) == y;
        assert c !in ldist[l];
      }
      assert {IntMax} + xs == {IntMax};
      MinOfOne(IntMax);
    }
  }

  /**
   * Landmark 0, candidates 1 and 2 at distances 1 and 2: the source's
   * reading gives both Integer.MAX_VALUE, so candidate 1 may be chosen;
   * the intended reading ranks 2 strictly farther.
   */
  lemma FarthestTies()
    ensures MinDist(map[1 := map[0 := 1], 2 := map[0 := 2]], 1) == IntMax
    ensures MinDist(map[1 := map[0 := 1], 2 := map[0 := 2]], 2) == IntMax
    ensures RowMin(map[1 := map[0 := 1], 2 := map[0 := 2]], 1) == 1
    ensures RowMin(map[1 := map[0 := 1], 2 := map[0 := 2]], 2) == 2
  {
    var ldist := map[1 := map[0 := 1], 2 := map[0 := 2]];
    assert ldist.Keys == {1, 2} && ldist[1].Keys == {0} && ldist[2].Keys == {0};
    assert ByCandidateRow(ldist, 1) == {IntMax} by {
      assert DistOr(ldist[1], 1) == IntMax;
    }
    assert ByCandidateRow(ldist, 2) == {IntMax} by {
      assert DistOr(ldist[2], 2) == IntMax;
    }
    assert (set l | l in ldist[1] :: ldist[1][l]) == {1} by {
      assert ldist[1][0] == 1;
    }
    assert (set l | l in ldist[2] :: ldist[2][l]) == {2} by {
      assert ldist[2][0] == 2;
    }
    MinOfPair(IntMax, 1);
    MinOfPair(IntMax, 2);
    assert {IntMax} + {IntMax} == {IntMax};
    MinOfOne(IntMax);
  }

  /** The entries the source's scan compares for c: c looked up in every row of ldist. */
  function ByCandidateRow(ldist: map<int, map<int, int>>, c: int): set<int>
  {
    set l | l in ldist :: DistOr(ldist[l], c)
  }

  /** The least of {a, b}. */
  lemma MinOfPair(a: int, b: int)
    ensures MinOf({a, b}) == Min(a, b)
  {
    MinOfOne(a);
    MinOfAdd({a}, b);
  }

  /** The least of {a} is a. */
  lemma MinOfOne(a: int)
    ensures MinOf({a}) == a
  {
  }

  /**
   * The intended `farthestSelection(candidates, currLandmarks, s)`: the
   * candidate farthest from the landmarks (unreached candidates count as
   * Integer.MAX_VALUE away); with no candidate the source's -1 is added.
   * ldist is what the BFS runs gathered.
   */
  method FarthestOne(g: HyperGraph, p: Pool, s: int) returns (r: Pool, x: int, ghost ldist: map<int, map<int, int>>)
    requires g.ConsistentMaps(g.Nb()) && AllEdges(g, p.cands) && AllEdges(g, p.landmarks) && p.cands !! p.landmarks
    ensures MovedTo(p, r, x) && r.pathsOf == p.pathsOf && Gathered(g.Nb(), s, ldist, p.cands, p.landmarks)
    ensures p.cands == {} <==> x == -1
    ensures x != -1 ==> x in p.cands && forall c | c in p.cands :: RowMin(ldist, c) <= RowMin(ldist, x)
  {
    var gathered := GatherDistances(g, p.cands, p.landmarks, s);
    forall c | c in p.cands
      ensures RowMin(gathered, c) > 0
    {
      RowMinIs(g.Nb(), s, gathered, p.cands, p.landmarks, c);
    }
    x := FarthestScan(gathered, p.cands);
    ldist := gathered;
    r := p.(cands := p.cands - {x}, landmarks := p.landmarks + {x});
  }

  /*
   * Path index
   */

  /** idx is base with path i of paths recorded under each hyperedge it holds, for the first n paths. */
  ghost predicate IndexOf(idx: map<int, set<int>>, base: map<int, set<int>>, paths: seq<set<int>>, n: nat)
    requires n <= |paths|
  {
    (forall h :: h in idx <==> h in base || exists i | 0 <= i < n :: h in paths[i]) &&
    forall h, i | h in idx :: i in idx[h] <==> (h in base && i in base[h]) || (0 <= i < n && h in paths[i])
  }

  /**
   * The loop that indexes freshly sampled paths:
   * `pathsInSample.getOrDefault(h, new).add(i)` for each member h of path i.
   */
  method IndexPaths(base: map<int, set<int>>, paths: seq<set<int>>) returns (idx: map<int, set<int>>)
    ensures IndexOf(idx, base, paths, |paths|)
  {
    idx := base;
    var i := 0;
    while i < |paths|
      invariant 0 <= i <= |paths| && IndexOf(idx, base, paths, i)
    {
      idx := IndexPath(idx, base, paths, i);
      i := i + 1;
    }
  }

  /** idx is idx0 with i added under each member of path that is not in rest. */
  ghost predicate AddedUnder(idx: map<int, set<int>>, idx0: map<int, set<int>>, path: set<int>, i: int, rest: set<int>)
  {
    (forall h :: h in idx <==> h in idx0 || (h in path && h !in rest)) &&
    (forall h, j | h in idx :: j in idx[h] <==> (h in idx0 && j in idx0[h]) || (j == i && h in path && h !in rest))
  }

  /** Records path i under each of its members. */
  method IndexPath(idx0: map<int, set<int>>, ghost base: map<int, set<int>>, paths: seq<set<int>>, i: nat)
    returns (idx: map<int, set<int>>)
    requires i < |paths| && IndexOf(idx0, base, paths, i)
    ensures IndexOf(idx, base, paths, i + 1)
  {
    idx := AddUnderAll(idx0, paths[i], i);
    IndexedOneMore(idx0, idx, base, paths, i);
  }

  /** Adds i under every member of path. */
  method AddUnderAll(idx0: map<int, set<int>>, path: set<int>, i: int) returns (idx: map<int, set<int>>)
    ensures AddedUnder(idx, idx0, path, i, {})
  {
    idx := idx0;
    var rest := path;
    while rest != {}
      invariant rest <= path
      invariant AddedUnder(idx, idx0, path, i, rest)
      decreases |rest|
    {
      var h := Pick(rest);
      var tmp := if h in idx then idx[h] else {};
      idx := idx[h := tmp + {i}];
      rest := rest - {h};
    }
  }

  /** Adding path i to an index of the first i paths indexes the first i + 1. */
  lemma IndexedOneMore(idx0: map<int, set<int>>, idx: map<int, set<int>>, base: map<int, set<int>>, paths: seq<set<int>>, i: nat)
    requires i < |paths| && IndexOf(idx0, base, paths, i) && AddedUnder(idx, idx0, paths[i], i, {})
    ensures IndexOf(idx, base, paths, i + 1)
  {
    forall h
      ensures h in idx <==> h in base || exists k | 0 <= k < i + 1 :: h in paths[k]
    {
      if h in paths[i] {
        assert exists k | 0 <= k < i + 1 :: h in paths[k];
      }
      if h in idx0 && h !in base {
        var k :| 0 <= k < i && h in paths[k];
        assert 0 <= k < i + 1 && h in paths[k];
      }
      if exists k | 0 <= k < i + 1 :: h in paths[k] {
        var k :| 0 <= k < i + 1 && h in paths[k];
        if k < i {
          assert h in idx0;
        }
      }
    }
    forall h, j | h in idx
      ensures j in idx[h] <==> (h in base && j in base[h]) || (0 <= j < i + 1 && h in paths[j])
    {
      assert j in idx[h] <==> (h in idx0 && j in idx0[h]) || (j == i && h in paths[i] && h !in {});
      if h !in idx0 {
        IndexOfKey(idx0, base, paths, i, h, j);
      } else {
        IndexOfAt(idx0, base, paths, i, h, j);
      }
    }
  }

  /** An index of the first n paths has a key for every hyperedge of the base or of those paths. */
  lemma IndexOfKey(idx: map<int, set<int>>, base: map<int, set<int>>, paths: seq<set<int>>, n: nat, h: int, j: int)
    requires n <= |paths| && IndexOf(idx, base, paths, n)
    ensures (h in base || (0 <= j < n && h in paths[j])) ==> h in idx
  {
  }

  /** What an index of the first n paths records under h. */
  lemma IndexOfAt(idx: map<int, set<int>>, base: map<int, set<int>>, paths: seq<set<int>>, n: nat, h: int, j: int)
    requires n <= |paths| && IndexOf(idx, base, paths, n) && h in idx
    ensures j in idx[h] <==> (h in base && j in base[h]) || (0 <= j < n && h in paths[j])
  {
  }

  /** Indexing keeps every hyperedge of the base. */
  lemma KeepsBase(idx: map<int, set<int>>, base: map<int, set<int>>, paths: seq<set<int>>)
    requires idx == base || IndexOf(idx, base, paths, |paths|)
    ensures base.Keys <= idx.Keys
  {
    if idx != base {
      forall h | h in base
        ensures h in idx
      {
      }
    }
  }

  /** Indexing no path into an empty base gives an empty index. */
  lemma EmptyIndex(idx: map<int, set<int>>, paths: seq<set<int>>)
    requires idx == map[] || (IndexOf(idx, map[], paths, |paths|) && paths == [])
    ensures idx == map[]
  {
    if idx != map[] {
      var h := Member(idx.Keys);
    }
  }

  /** Every hyperedge's path set is empty (`allMatch(e -> e.getValue().isEmpty())`). */
  predicate NoPaths(pathsOf: map<int, set<int>>)
  {
    forall h | h in pathsOf :: pathsOf[h] == {}
  }

  /** A hyperedge of the index on the most paths: the head of its entries sorted by decreasing path count. */
  method MostPaths(idx: map<int, set<int>>) returns (x: int)
    requires idx != map[]
    ensures x in idx && forall h | h in idx :: |idx[h]| <= |idx[x]|
  {
    x := Pick(idx.Keys);
    var rest := idx.Keys - {x};
    while rest != {}
      invariant rest <= idx.Keys && x in idx
      invariant forall h | h in idx && h !in rest :: |idx[h]| <= |idx[x]|
      decreases |rest|
    {
      var h := Pick(rest);
      if |idx[h]| > |idx[x]| {
        x := h;
      }
      rest := rest - {h};
    }
  }

  /** The index after x is chosen: x dropped, and the paths x lies on dropped from every other hyperedge. */
  function Covered(idx: map<int, set<int>>, x: int): (r: map<int, set<int>>)
    requires x in idx
    ensures r.Keys == idx.Keys - {x}
    ensures forall h | h in r :: r[h] !! idx[x] && r[h] <= idx[h]
  {
    map h | h in idx && h != x :: idx[h] - idx[x]
  }

  /**
   * The intended removal of the paths the new landmark covers: every
   * hyperedge loses the paths of `toRemove`, a copy taken before the loop,
   * and the landmark's own entry is dropped.
   */
  method DropCovered(idx: map<int, set<int>>, x: int) returns (r: map<int, set<int>>)
    requires x in idx
    ensures r == Covered(idx, x)
  {
    var toRemove := idx[x];
    r := idx;
    var rest := idx.Keys;
    while rest != {}
      invariant rest <= idx.Keys && r.Keys == idx.Keys
      invariant forall h | h in idx :: r[h] == if h in rest then idx[h] else idx[h] - toRemove
      decreases |rest|
    {
      var h := Pick(rest);
      r := r[h := r[h] - toRemove];
      rest := rest - {h};
    }
    r := r - {x};
  }

  /** The index after x is chosen when only the hyperedges in before lose the paths x lies on. */
  function CoveredBefore(idx: map<int, set<int>>, x: int, before: set<int>): (r: map<int, set<int>>)
    requires x in idx
    ensures r.Keys == idx.Keys - {x}
  {
    map h | h in idx && h != x :: if h in before then idx[h] - idx[x] else idx[h]
  }

  /**
   * The removal as the source writes it: `toRemove` is the landmark's own
   * path set, not a copy, so when the loop reaches the landmark it empties
   * `toRemove` itself, and every hyperedge the loop visits afterwards
   * keeps its paths. before is the set of hyperedges visited first.
   */
  method DropCoveredAsWritten(idx: map<int, set<int>>, x: int) returns (r: map<int, set<int>>, ghost before: set<int>)
    requires x in idx
    ensures x !in before && r == CoveredBefore(idx, x, before)
  {
    r := idx;
    var rest := idx.Keys;
    before := {};
    while rest != {}
      invariant Dropping(idx, x, r, rest, before)
      decreases |rest|
    {
      r, rest, before := DropOne(idx, x, r, rest, before);
    }
    r := r - {x};
  }

  /**
   * The state of the written removal loop: rest is still to visit; before
   * the landmark is reached, the visited hyperedges lose the landmark's
   * paths; once it is reached, the landmark's own set is empty.
   */
  ghost predicate Dropping(idx: map<int, set<int>>, x: int, r: map<int, set<int>>, rest: set<int>, before: set<int>)
  {
    x in idx && rest <= idx.Keys && r.Keys == idx.Keys && x !in before &&
    before <= idx.Keys - rest &&
    (x in rest ==> before == idx.Keys - rest) &&
    r[x] == (if x in rest then idx[x] else {}) &&
    forall h | h in idx && h != x :: r[h] == if h in before then idx[h] - idx[x] else idx[h]
  }

  /** One visit of the written removal loop: `paths.removeAll(toRemove)` for one hyperedge. */
  method DropOne(idx: map<int, set<int>>, x: int, r: map<int, set<int>>, rest: set<int>, ghost before: set<int>)
    returns (r': map<int, set<int>>, rest': set<int>, ghost before': set<int>)
    requires rest != {} && Dropping(idx, x, r, rest, before)
    ensures |rest'| < |rest| && Dropping(idx, x, r', rest', before')
  {
    var h := Pick(rest);
    before' := if x in rest && h != x then before + {h} else before;
    r' := r[h := r[h] - r[x]];
    rest' := rest - {h};
    forall k | k in idx && k != x
      ensures r'[k] == if k in before' then idx[k] - idx[x] else idx[k]
    {
      if k != h {
        assert r'[k] == r[k];
      }
    }
  }

  /**
   * Two hyperedges on the same path 0, landmark 1 visited first: with the
   * source's aliasing hyperedge 2 keeps path 0, so the covered path still
   * counts for it; the intended removal leaves it none.
   */
  lemma AliasedRemoval()
    ensures CoveredBefore(map[1 := {0}, 2 := {0}], 1, {}) == map[2 := {0}]
    ensures Covered(map[1 := {0}, 2 := {0}], 1) == map[2 := {}]
  {
    var idx := map[1 := {0}, 2 := {0}];
    assert CoveredBefore(idx, 1, {}).Keys == {2};
    assert Covered(idx, 1).Keys == {2};
    assert Covered(idx, 1)[2] == {0} - {0} == {};
  }

  /*
   * Best cover and betweenness
   */

  /** The sampled paths answer pairs of candidates, as PathSample.Answered says, with no empty path. */
  ghost predicate Sampled(g: HyperGraph, cands: set<int>, s: int, paths: seq<set<int>>)
    reads g.hyperedges
  {
    exists sample: set<(int, int)>, origin: seq<(int, int)> ::
      (forall q | q in sample :: q.0 in cands && q.1 in cands) &&
      PathSample.Answered(g.Nb(), s, sample, sample, paths, origin)
  }

  /**
   * The index the pick reads: the one given, or, when resample holds, the
   * one given with the freshly sampled paths added.
   */
  method Resample(g: HyperGraph, p: Pool, s: int, allPaths: bool, resample: bool)
    returns (idx: map<int, set<int>>, ghost paths: seq<set<int>>)
    requires Searchable(g) && AllEdges(g, p.cands)
    ensures !resample ==> idx == p.pathsOf
    ensures resample ==> IndexOf(idx, p.pathsOf, paths, |paths|) && Sampled(g, p.cands, s, paths)
    ensures resample && |p.cands| < 2 ==> paths == []
  {
    idx, paths := p.pathsOf, [];
    if resample {
      var found, sample;
      ghost var origin;
      found, sample, origin := PathSample.FindPathsInSample(g, p.cands, -1, s, allPaths);
      idx := IndexPaths(p.pathsOf, found);
      paths := found;
    }
  }

  /**
   * `bestCoverSelection(pathsInSample, candidates, currLandmarks, s)`, with
   * the intended removal: a single candidate is taken at once; otherwise
   * paths are sampled when the index is empty or holds no path, the
   * hyperedge on most paths is chosen (degree decides when the index is
   * still empty, and with no candidate that fails, None), and the paths
   * it covers are dropped. idx is the index the choice read.
   */
  method BestCoverOne(g: HyperGraph, p: Pool, s: int) returns (r: Option<Pool>, x: int, ghost idx: map<int, set<int>>)
    requires Searchable(g) && AllEdges(g, p.cands)
    ensures r.None? <==> p.cands == {} && p.pathsOf == map[]
    ensures |p.cands| == 1 ==> r == Some(Pool({}, p.landmarks + p.cands, p.pathsOf)) && {x} == p.cands
    ensures r.Some? ==> MovedTo(p, r.value, x)
    ensures |p.cands| != 1 && !NoPaths(p.pathsOf) ==> idx == p.pathsOf
    ensures |p.cands| != 1 && idx != map[] && r.Some? ==>
      x in idx && (forall h | h in idx :: |idx[h]| <= |idx[x]|) && r.value.pathsOf == Covered(idx, x)
    ensures |p.cands| != 1 && idx == map[] && r.Some? ==>
      x in p.cands && r.value.pathsOf == p.pathsOf && forall c | c in p.cands :: Deg(g.Nb(), c, s) <= Deg(g.Nb(), x, s)
  {
    idx := p.pathsOf;
    if |p.cands| == 1 {
      x := Pick(p.cands);
      assert p.cands == {x} by {
        assert |p.cands - {x}| == 0;
      }
      return Some(p.(cands := p.cands - {x}, landmarks := p.landmarks + {x})), x, idx;
    }
    ghost var paths;
    var index;
    index, paths := Resample(g, p, s, false, p.pathsOf == map[] || NoPaths(p.pathsOf));
    idx := index;
    KeepsBase(index, p.pathsOf, paths);
    if p.cands == {} && p.pathsOf == map[] {
      EmptyIndex(index, paths);
    }
    if index == map[] {
      r, x := DegreeOne(g, p, s);
      return;
    }
    x := MostPaths(index);
    var rest := DropCovered(index, x);
    r := Some(Pool(p.cands - {x}, p.landmarks + {x}, rest));
  }

  /**
   * `betweennessSelection(pathsInSample, candidates, currLandmarks, s)`: a
   * single candidate is taken at once; otherwise all shortest paths are
   * sampled when the index is empty, the hyperedge on most paths is
   * chosen and only its own entry dropped (degree decides when the index
   * is still empty, and with no candidate that fails, None).
   */
  method BetweennessOne(g: HyperGraph, p: Pool, s: int) returns (r: Option<Pool>, x: int, ghost idx: map<int, set<int>>)
    requires Searchable(g) && AllEdges(g, p.cands)
    ensures r.None? <==> p.cands == {} && p.pathsOf == map[]
    ensures |p.cands| == 1 ==> r == Some(Pool({}, p.landmarks + p.cands, p.pathsOf)) && {x} == p.cands
    ensures r.Some? ==> MovedTo(p, r.value, x)
    ensures |p.cands| != 1 && p.pathsOf != map[] ==> idx == p.pathsOf
    ensures |p.cands| != 1 && idx != map[] && r.Some? ==>
      x in idx && (forall h | h in idx :: |idx[h]| <= |idx[x]|) && r.value.pathsOf == idx - {x}
    ensures |p.cands| != 1 && idx == map[] && r.Some? ==>
      x in p.cands && r.value.pathsOf == p.pathsOf && forall c | c in p.cands :: Deg(g.Nb(), c, s) <= Deg(g.Nb(), x, s)
  {
    idx := p.pathsOf;
    if |p.cands| == 1 {
      x := Pick(p.cands);
      assert p.cands == {x} by {
        assert |p.cands - {x}| == 0;
      }
      return Some(p.(cands := p.cands - {x}, landmarks := p.landmarks + {x})), x, idx;
    }
    ghost var paths;
    var index;
    index, paths := Resample(g, p, s, true, p.pathsOf == map[]);
    idx := index;
    KeepsBase(index, p.pathsOf, paths);
    if p.cands == {} && p.pathsOf == map[] {
      EmptyIndex(index, paths);
    }
    if index == map[] {
      r, x := DegreeOne(g, p, s);
      return;
    }
    x := MostPaths(index);
    r := Some(Pool(p.cands - {x}, p.landmarks + {x}, index - {x}));
  }
}
