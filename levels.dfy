/**
 * The descending sweep of HyperGraph.findConnectedComponents: the
 * s-connected components of every level s from maxS down to 1, each
 * level seeded with the components of the level above and with the
 * overlaps recorded so far. The hypergraph is only read, and is taken
 * as a parameter.
 */
module LevelSweep {
  import opened Wrappers
  import opened HyperGraphs
  import opened SConnectivity
  import opened UnionFind
  import opened Components
  import opened ComponentSweep
  import Utils

  /*
   * Levels and their hyperedge lists.
   */

  /** Two hyperedges share no more vertices than the first one has. */
  lemma OverlapAtMostSize(g: HyperGraph, a: int, b: int)
    requires g.IsEdge(a) && g.IsEdge(b)
    ensures g.Overlap(a, b) <= g.hyperedges[a].size && g.Overlap(a, b) <= g.hyperedges[b].size
  {
    SubsetCard(g.V(a) * g.V(b), g.V(a));
    SubsetCard(g.V(a) * g.V(b), g.V(b));
  }

  /** Every hyperedge kept at level s + 1 is kept at level s. */
  lemma ViewsNest(g: HyperGraph, s: int)
    requires g.WellIndexed() && s >= 1
    ensures forall x :: x in g.GetEdgesWithMinSize(s + 1) ==> x in g.GetEdgesWithMinSize(s)
  {
    forall x | x in g.GetEdgesWithMinSize(s + 1)
      ensures x in g.GetEdgesWithMinSize(s)
    {
      assert g.IsEdge(x) && g.InView(x, s);
    }
  }

  /** The list holds each id once. */
  lemma IncreasingDistinct(l: seq<int>)
    requires Increasing(l)
    ensures Utils.Distinct(l)
  {
  }

  /** invMap sends each hyperedge of the list to its position. */
  ghost predicate Positions(view: seq<int>, invMap: map<int, int>)
  {
    (forall x :: x in invMap <==> x in view) &&
    (forall p :: 0 <= p < |view| ==> invMap[view[p]] == p)
  }

  /** The position map of a list without repetitions: `invMap.put(sEdgeView.get(i), i)` for each i. */
  method BuildInvMap(view: seq<int>) returns (invMap: map<int, int>)
    requires Increasing(view)
    ensures Positions(view, invMap)
  {
    invMap := map[];
    for i := 0 to |view|
      invariant forall x :: x in invMap <==> x in view[..i]
      invariant forall p :: 0 <= p < i ==> view[p] in invMap && invMap[view[p]] == p
    {
      assert view[..i + 1] == view[..i] + [view[i]];
      invMap := invMap[view[i] := i];
    }
    assert view[..|view|] == view;
  }

  /** Through the position map, a listed hyperedge is written at its first (and only) position. */
  lemma PositionIsIdx(view: seq<int>, invMap: map<int, int>, x: int)
    requires Increasing(view) && Positions(view, invMap) && x in view
    ensures 0 <= invMap[x] < |view| && view[invMap[x]] == x && Idx(view, x) == invMap[x]
  {
    var k :| 0 <= k < |view| && view[k] == x;
    IncreasingDistinct(view);
    IdxOf(view, k);
  }

  /**
   * What a finished level t has stored: the membership map gives every
   * hyperedge kept at level t a component id, two of them share an id
   * exactly when they are t-connected, and the component list, when
   * stored, lists each component's members under its id.
   */
  ghost predicate LevelDone(g: HyperGraph, ccs: map<int, seq<seq<int>>>, memb: map<int, map<int, int>>, t: int)
    requires g.WellIndexed()
  {
    t in memb &&
    (forall e :: e in memb[t] <==> g.IsEdge(e) && g.InView(e, t)) &&
    (forall a, b :: a in memb[t] && b in memb[t] ==>
      (memb[t][a] == memb[t][b] <==> SConnected(g, t, g.GetEdgesWithMinSize(t), a, b))) &&
    (t in ccs ==>
      (forall c :: 0 <= c < |ccs[t]| ==> |ccs[t][c]| > 0) &&
      (forall c, x :: 0 <= c < |ccs[t]| && x in ccs[t][c] ==> x in memb[t] && memb[t][x] == c))
  }

  /**
   * Nesting: hyperedges in one component of level t + 1 are in one
   * component of level t.
   */
  lemma Nesting(g: HyperGraph, ccs: map<int, seq<seq<int>>>, memb: map<int, map<int, int>>, t: int, a: int, b: int)
    requires g.WellIndexed() && t >= 1
    requires LevelDone(g, ccs, memb, t) && LevelDone(g, ccs, memb, t + 1)
    requires a in memb[t + 1] && b in memb[t + 1] && memb[t + 1][a] == memb[t + 1][b]
    ensures a in memb[t] && b in memb[t] && memb[t][a] == memb[t][b]
  {
    ConnectedDown(g, t, a, b);
    assert g.InView(a, t) && g.InView(b, t);
  }

  /** Two hyperedges (s+1)-connected at level s + 1 are s-connected at level s. */
  lemma ConnectedDown(g: HyperGraph, s: int, a: int, b: int)
    requires g.WellIndexed() && s >= 1
    requires SConnected(g, s + 1, g.GetEdgesWithMinSize(s + 1), a, b)
    ensures SConnected(g, s, g.GetEdgesWithMinSize(s), a, b)
  {
    ViewsNest(g, s);
    ConnectedMono(g, s + 1, s, g.GetEdgesWithMinSize(s + 1), g.GetEdgesWithMinSize(s), a, b);
  }

  /*
   * Seeding a level with the components of the level above.
   */

  /** The positions of the listed hyperedges (`cc.stream().map(invMap::get)`). */
  function MapThrough(l: seq<int>, invMap: map<int, int>): (r: seq<int>)
    requires forall k :: 0 <= k < |l| ==> l[k] in invMap
    ensures |r| == |l| && forall k :: 0 <= k < |l| ==> r[k] == invMap[l[k]]
  {
    seq(|l|, k requires 0 <= k < |l| => invMap[l[k]])
  }

  /**
   * Hanging a new component under its first element, when its elements
   * are still singletons outside the seeded ones, keeps the partition
   * sound provided the component is s-connected.
   */
  lemma SeedStep(g: HyperGraph, s: int, view: seq<int>, root: seq<int>, root': seq<int>, cc: seq<int>, seeded: set<int>)
    requires AllEdges(g, view) && |root| == |view| && |root'| == |view| && |cc| > 0
    requires Sound(g, s, view, root)
    requires forall x :: x in cc ==> 0 <= x < |view| && x !in seeded
    requires forall j :: 0 <= j < |view| && j !in seeded ==> root[j] == j
    requires forall j :: j in seeded ==> 0 <= j < |view| && root[j] in seeded
    requires forall j :: 0 <= j < |view| ==> root'[j] == if root[j] in cc then cc[0] else root[j]
    requires forall x, y :: x in cc && y in cc ==> SConnected(g, s, view, view[x], view[y])
    ensures Sound(g, s, view, root')
  {
    assert cc[0] in cc;
    forall i, j | 0 <= i < |view| && 0 <= j < |view| && root'[i] == root'[j]
      ensures SConnected(g, s, view, view[i], view[j])
    {
      if root[i] in cc && root[j] in cc {
        assert i !in seeded && j !in seeded;
      } else if root[i] !in cc && root[j] !in cc {
        assert root[i] == root[j];
      }
    }
  }

  /** The members of a level-(s+1) component, at their level-s positions, are s-connected. */
  lemma SeedConnected(g: HyperGraph, s: int, view: seq<int>, invMap: map<int, int>, comp: seq<int>, m1: map<int, int>, c: int)
    requires g.WellIndexed() && s >= 1 && view == g.GetEdgesWithMinSize(s) && Positions(view, invMap)
    requires forall x :: x in comp ==> x in m1 && m1[x] == c
    requires forall x :: x in m1 ==> g.IsEdge(x) && g.InView(x, s + 1)
    requires forall a, b :: a in m1 && b in m1 && m1[a] == m1[b] ==> SConnected(g, s + 1, g.GetEdgesWithMinSize(s + 1), a, b)
    ensures forall k :: 0 <= k < |comp| ==> comp[k] in invMap
    ensures forall x, y :: x in MapThrough(comp, invMap) && y in MapThrough(comp, invMap) ==>
      0 <= x < |view| && 0 <= y < |view| && SConnected(g, s, view, view[x], view[y])
  {
    forall k | 0 <= k < |comp|
      ensures comp[k] in invMap
    {
      var x := comp[k];
      assert x in comp;
      assert g.IsEdge(x) && g.InView(x, s);
    }
    var cc := MapThrough(comp, invMap);
    forall x, y | x in cc && y in cc
      ensures 0 <= x < |view| && 0 <= y < |view| && SConnected(g, s, view, view[x], view[y])
    {
      var a :| 0 <= a < |cc| && cc[a] == x;
      var b :| 0 <= b < |cc| && cc[b] == y;
      var ea, eb := comp[a], comp[b];
      assert ea in comp && eb in comp;
      PositionIsIdx(view, invMap, ea);
      PositionIsIdx(view, invMap, eb);
      assert ea in m1 && eb in m1 && m1[ea] == m1[eb];
      ConnectedDown(g, s, ea, eb);
    }
  }

  /**
   * After the components below k have been seeded: each seeded position
   * comes from one of them and has a seeded representative; every other
   * position is still a singleton root.
   */
  ghost predicate SeededUpTo(view: seq<int>, m1: map<int, int>, root: seq<int>, par: seq<int>, seeded: set<int>, k: int)
  {
    |root| == |view| && |par| == |view| &&
    (forall j :: j in seeded ==> 0 <= j < |view| && view[j] in m1 && m1[view[j]] < k && root[j] in seeded) &&
    (forall j :: 0 <= j < |view| && j !in seeded ==> root[j] == j && par[j] == j)
  }

  /**
   * Seeds a fresh forest of level s with the components of level s + 1
   * (`initializeFromCC` on each, at the level-s positions). m1 is the
   * membership map of level s + 1.
   */
  method SeedComponents(g: HyperGraph, s: int, view: seq<int>, invMap: map<int, int>, uf: WQUFPC,
                        comps: seq<seq<int>>, ghost m1: map<int, int>)
    requires g.WellIndexed() && s >= 1 && view == g.GetEdgesWithMinSize(s) && Positions(view, invMap)
    requires uf.Valid() && uf.parent.Length == |view|
    requires forall j :: 0 <= j < |view| ==> uf.root[j] == j && uf.parent[j] == j
    requires forall c :: 0 <= c < |comps| ==> |comps[c]| > 0
    requires forall c, x :: 0 <= c < |comps| && x in comps[c] ==> x in m1 && m1[x] == c
    requires forall x :: x in m1 ==> g.IsEdge(x) && g.InView(x, s + 1)
    requires forall a, b :: a in m1 && b in m1 && m1[a] == m1[b] ==> SConnected(g, s + 1, g.GetEdgesWithMinSize(s + 1), a, b)
    modifies uf, uf.parent, uf.rank
    ensures uf.Valid() && uf.parent == old(uf.parent) && uf.rank == old(uf.rank)
    ensures Sound(g, s, view, uf.root)
  {
    ghost var seeded: set<int> := {};
    forall i, j | 0 <= i < |view| && 0 <= j < |view| && uf.root[i] == uf.root[j]
      ensures SConnected(g, s, view, view[i], view[j])
    {
      ConnectedRefl(g, s, view, view[i]);
    }
    for k := 0 to |comps|
      invariant uf.Valid() && uf.parent == old(uf.parent) && uf.rank == old(uf.rank)
      invariant Sound(g, s, view, uf.root)
      invariant SeededUpTo(view, m1, uf.root, uf.parent[..], seeded, k)
    {
      seeded := SeedOne(g, s, view, invMap, uf, comps[k], m1, k, seeded);
    }
  }

  /** Seeds the forest with component k of level s + 1. */
  method SeedOne(g: HyperGraph, s: int, view: seq<int>, invMap: map<int, int>, uf: WQUFPC,
                 comp: seq<int>, ghost m1: map<int, int>, ghost k: int, ghost seeded: set<int>)
    returns (ghost seeded': set<int>)
    requires g.WellIndexed() && s >= 1 && view == g.GetEdgesWithMinSize(s) && Positions(view, invMap)
    requires uf.Valid() && uf.parent.Length == |view| && Sound(g, s, view, uf.root)
    requires SeededUpTo(view, m1, uf.root, uf.parent[..], seeded, k)
    requires |comp| > 0 && forall x :: x in comp ==> x in m1 && m1[x] == k
    requires forall x :: x in m1 ==> g.IsEdge(x) && g.InView(x, s + 1)
    requires forall a, b :: a in m1 && b in m1 && m1[a] == m1[b] ==> SConnected(g, s + 1, g.GetEdgesWithMinSize(s + 1), a, b)
    modifies uf, uf.parent, uf.rank
    ensures uf.Valid() && uf.parent == old(uf.parent) && uf.rank == old(uf.rank)
    ensures Sound(g, s, view, uf.root)
    ensures SeededUpTo(view, m1, uf.root, uf.parent[..], seeded', k + 1)
  {
    SeedConnected(g, s, view, invMap, comp, m1, k);
    var cc := MapThrough(comp, invMap);
    SeedFresh(view, invMap, uf.root, uf.parent[..], comp, m1, k, seeded);
    ghost var r0, p0 := uf.root, uf.parent[..];
    uf.InitializeFromCC(cc);
    SeedStep(g, s, view, r0, uf.root, cc, seeded);
    seeded' := seeded + set x | x in cc;
    SeedAdvance(view, m1, r0, p0, uf.root, uf.parent[..], cc, seeded, k);
  }

  /** The positions of component k are still unseeded singletons. */
  lemma SeedFresh(view: seq<int>, invMap: map<int, int>, root: seq<int>, par: seq<int>,
                  comp: seq<int>, m1: map<int, int>, k: int, seeded: set<int>)
    requires Increasing(view) && Positions(view, invMap)
    requires SeededUpTo(view, m1, root, par, seeded, k)
    requires forall x :: x in comp ==> x in m1 && m1[x] == k && x in view
    ensures forall j :: 0 <= j < |comp| ==> comp[j] in invMap
    ensures forall j :: 0 <= j < |comp| ==> 0 <= MapThrough(comp, invMap)[j] < |view|
    ensures forall x :: x in MapThrough(comp, invMap) ==>
      0 <= x < |view| && x !in seeded && view[x] in m1 && m1[view[x]] == k && par[x] == x
  {
    forall j | 0 <= j < |comp|
      ensures comp[j] in invMap
    {
      var x := comp[j];
      assert x in comp;
    }
    var cc := MapThrough(comp, invMap);
    forall j | 0 <= j < |comp|
      ensures 0 <= cc[j] < |view|
    {
      var x := comp[j];
      assert x in comp;
      PositionIsIdx(view, invMap, x);
    }
    forall x | x in cc
      ensures 0 <= x < |view| && x !in seeded && view[x] in m1 && m1[view[x]] == k && par[x] == x
    {
      var a :| 0 <= a < |cc| && cc[a] == x;
      assert comp[a] in comp;
      PositionIsIdx(view, invMap, comp[a]);
    }
  }

  /** Seeding one more component keeps the seeded positions described. */
  lemma SeedAdvance(view: seq<int>, m1: map<int, int>, root: seq<int>, par: seq<int>,
                    root': seq<int>, par': seq<int>, cc: seq<int>, seeded: set<int>, k: int)
    requires SeededUpTo(view, m1, root, par, seeded, k)
    requires |cc| > 0 && forall x :: x in cc ==> 0 <= x < |view| && x !in seeded && view[x] in m1 && m1[view[x]] == k
    requires |root'| == |view| && |par'| == |view|
    requires forall j :: 0 <= j < |view| ==> par'[j] == if j in cc then cc[0] else par[j]
    requires forall j :: 0 <= j < |view| ==> root'[j] == if root[j] in cc then cc[0] else root[j]
    ensures SeededUpTo(view, m1, root', par', seeded + (set x | x in cc), k + 1)
  {
    var seeded' := seeded + set x | x in cc;
    assert cc[0] in cc;
    forall j | j in seeded'
      ensures 0 <= j < |view| && view[j] in m1 && m1[view[j]] < k + 1 && root'[j] in seeded'
    {
      if j in seeded {
        var r := root[j];
        assert r in seeded;
        assert r !in cc;
      } else {
        assert j in cc && root[j] == j;
      }
    }
    forall j | 0 <= j < |view| && j !in seeded'
      ensures root'[j] == j && par'[j] == j
    {
      assert j !in cc && root[j] == j;
    }
  }

  /*
   * The overlaps recorded at the levels above.
   */

  /** Every recorded overlap joins two hyperedges sharing at least its value, itself at least lo. */
  ghost predicate OverlapsAbove(g: HyperGraph, po: map<(int, int), int>, lo: int)
  {
    forall p :: p in po ==> g.IsEdge(p.0) && g.IsEdge(p.1) && lo <= po[p] <= g.Overlap(p.0, p.1)
  }

  /**
   * Unions, at level s, the two hyperedges of every recorded pair; each
   * was recorded at a level above s, so they share more than s vertices.
   */
  method UnionRecorded(g: HyperGraph, s: int, view: seq<int>, invMap: map<int, int>, uf: WQUFPC,
                       pairs: set<(int, int)>, ghost po: map<(int, int), int>)
    requires g.WellIndexed() && s >= 1 && view == g.GetEdgesWithMinSize(s) && Positions(view, invMap)
    requires uf.Valid() && uf.parent.Length == |view| && Sound(g, s, view, uf.root)
    requires OverlapsAbove(g, po, s + 1) && forall p :: p in pairs ==> p in po
    modifies uf, uf.parent, uf.rank
    ensures uf.Valid() && uf.parent == old(uf.parent) && uf.rank == old(uf.rank)
    ensures Sound(g, s, view, uf.root) && Coarsens(uf.root, old(uf.root))
    ensures Joined(pairs, invMap, uf.root)
  {
    var todo := pairs;
    ghost var done: set<(int, int)> := {};
    while todo != {}
      invariant todo <= pairs && forall p :: p in pairs ==> p in todo || p in done
      invariant uf.Valid() && uf.parent == old(uf.parent) && uf.rank == old(uf.rank)
      invariant Sound(g, s, view, uf.root) && Coarsens(uf.root, old(uf.root))
      invariant Joined(done, invMap, uf.root)
      decreases todo
    {
      var p := Pick(todo);
      OverlapAtMostSize(g, p.0, p.1);
      assert g.InView(p.0, s) && g.InView(p.1, s);
      PositionIsIdx(view, invMap, p.0);
      PositionIsIdx(view, invMap, p.1);
      ghost var r0 := uf.root;
      UnionAdjacent(g, s, view, uf, invMap[p.0], invMap[p.1]);
      CoarsensTrans(uf.root, r0, old(uf.root));
      JoinedCoarsen(done, invMap, r0, uf.root);
      done := done + {p};
      todo := todo - {p};
    }
  }

  /** Both hyperedges of every pair have positions, and these share a representative. */
  ghost predicate Joined(pairs: set<(int, int)>, invMap: map<int, int>, root: seq<int>)
  {
    forall p :: p in pairs ==>
      p.0 in invMap && p.1 in invMap && 0 <= invMap[p.0] < |root| && 0 <= invMap[p.1] < |root| &&
      root[invMap[p.0]] == root[invMap[p.1]]
  }

  /** Pairs in one set stay in one set under a coarser partition. */
  lemma JoinedCoarsen(pairs: set<(int, int)>, invMap: map<int, int>, root: seq<int>, root': seq<int>)
    requires Joined(pairs, invMap, root) && Coarsens(root', root)
    ensures Joined(pairs, invMap, root')
  {
  }
}
