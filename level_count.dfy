/**
 * The counting phase of one level of findConnectedComponents. It is the
 * counting of findSConnectedComponents over the hyperedge ids of the
 * level, which also records, in the component store, the pairs found to
 * share s vertices (`addOverlap`) and the pairs met inside one set
 * (`addCandidateNeighbourPair`).
 */
module LevelCount {
  import opened Wrappers
  import opened HyperGraphs
  import opened SConnectivity
  import opened UnionFind
  import opened Components
  import opened ComponentSweep
  import opened LevelSweep
  import opened LevelIndex
  import Utils

  /*
   * What the counting records.
   */

  /**
   * The candidate lists of level s: every listed hyperedge is kept at
   * level s, and every listed pair is two distinct hyperedges sharing a
   * vertex whose positions are in one set.
   */
  ghost predicate CandidatesJoined(g: HyperGraph, s: int, invMap: map<int, int>, root: seq<int>,
                                   cn: map<int, map<int, seq<int>>>)
  {
    s in cn ==> RowJoined(g, s, invMap, root, cn[s])
  }

  /** The candidate lists of one level, as CandidatesJoined describes them. */
  ghost predicate RowJoined(g: HyperGraph, s: int, invMap: map<int, int>, root: seq<int>, row: map<int, seq<int>>)
  {
    (forall e :: e in row ==> g.IsEdge(e) && g.InView(e, s)) &&
    (forall e, c :: e in row && c in row[e] ==>
      g.IsEdge(c) && g.InView(c, s) && e != c && g.V(e) * g.V(c) != {} &&
      e in invMap && c in invMap && 0 <= invMap[e] < |root| && 0 <= invMap[c] < |root| &&
      root[invMap[e]] == root[invMap[c]])
  }

  /** A coarser partition keeps the candidate pairs in one set. */
  lemma CandidatesCoarsen(g: HyperGraph, s: int, invMap: map<int, int>, root: seq<int>, root': seq<int>,
                          cn: map<int, map<int, seq<int>>>)
    requires CandidatesJoined(g, s, invMap, root, cn) && Coarsens(root', root)
    ensures CandidatesJoined(g, s, invMap, root', cn)
  {
  }

  /** Appending c to the list of e at level s, both in one set, keeps the lists joined. */
  lemma CandidateAdded(g: HyperGraph, s: int, invMap: map<int, int>, root: seq<int>,
                       cn: map<int, map<int, seq<int>>>, e: int, c: int)
    requires CandidatesJoined(g, s, invMap, root, cn)
    requires g.IsEdge(e) && g.InView(e, s) && g.IsEdge(c) && g.InView(c, s) && e != c && g.V(e) * g.V(c) != {}
    requires e in invMap && c in invMap && 0 <= invMap[e] < |root| && 0 <= invMap[c] < |root|
    requires root[invMap[e]] == root[invMap[c]]
    ensures var old_ := if s in cn && e in cn[s] then cn[s][e] else [];
      CandidatesJoined(g, s, invMap, root, cn[s := LevelOf(cn, s)[e := old_ + [c]]])
  {
    var old_ := if s in cn && e in cn[s] then cn[s][e] else [];
    var row := LevelOf(cn, s)[e := old_ + [c]];
    forall x | x in row
      ensures g.IsEdge(x) && g.InView(x, s)
    {
      if x != e {
        assert x in cn[s];
      }
    }
    forall x, y | x in row && y in row[x]
      ensures g.IsEdge(y) && g.InView(y, s) && x != y && g.V(x) * g.V(y) != {} &&
        x in invMap && y in invMap && 0 <= invMap[x] < |root| && 0 <= invMap[y] < |root| &&
        root[invMap[x]] == root[invMap[y]]
    {
      if x == e {
        if y != c {
          assert y in old_;
          assert s in cn && e in cn[s] && y in cn[s][e];
        }
      } else {
        assert x in cn[s] && y in cn[s][x];
      }
    }
  }

  /** Adding a candidate pair at level s changes no other level. */
  lemma CandidateKeeps(s: int, ccs: map<int, seq<seq<int>>>, memb: map<int, map<int, int>>,
                       cn: map<int, map<int, seq<int>>>, row: map<int, seq<int>>)
    ensures KeptBut(s, ccs, memb, cn, ccs, memb, cn[s := row])
  {
  }

  /** The store's other levels, components and memberships are as they were. */
  ghost predicate KeptBut(s: int, ccs0: map<int, seq<seq<int>>>, memb0: map<int, map<int, int>>,
                          cn0: map<int, map<int, seq<int>>>, ccs: map<int, seq<seq<int>>>,
                          memb: map<int, map<int, int>>, cn: map<int, map<int, seq<int>>>)
  {
    ccs == ccs0 && memb == memb0 &&
    (forall t :: t in cn0 && t != s ==> t in cn && cn[t] == cn0[t]) &&
    (forall t :: t in cn ==> t in cn0 || t == s)
  }

  lemma KeptTrans(s: int, ccs0: map<int, seq<seq<int>>>, memb0: map<int, map<int, int>>, cn0: map<int, map<int, seq<int>>>,
                  ccs1: map<int, seq<seq<int>>>, memb1: map<int, map<int, int>>, cn1: map<int, map<int, seq<int>>>,
                  ccs2: map<int, seq<seq<int>>>, memb2: map<int, map<int, int>>, cn2: map<int, map<int, seq<int>>>)
    requires KeptBut(s, ccs0, memb0, cn0, ccs1, memb1, cn1) && KeptBut(s, ccs1, memb1, cn1, ccs2, memb2, cn2)
    ensures KeptBut(s, ccs0, memb0, cn0, ccs2, memb2, cn2)
  {
  }

  /** What the store holds for level s while it is being counted. */
  ghost predicate Recording(g: HyperGraph, s: int, invMap: map<int, int>, root: seq<int>, CCS: ConnectedComponents)
    reads CCS
  {
    CCS.Valid() && OverlapsAbove(g, CCS.partialOverlaps, s) && CandidatesJoined(g, s, invMap, root, CCS.candsNeigh)
  }

  /*
   * The counting chain: a pair, a row, a vertex list, every vertex.
   */

  /**
   * Visits the pair (i, j) of the list of vertex v. In different sets: the
   * counter gains one and, once it reaches s, the overlap is recorded and
   * the sets merged. In one set: the pair is recorded as candidate
   * neighbours at level s.
   */
  method CountPairC(ghost g: HyperGraph, s: int, ghost view: seq<int>, invMap: map<int, int>, uf: WQUFPC,
                    CCS: ConnectedComponents, L: seq<int>, i: int, j: int,
                    ghost E: map<int, map<int, int>>, tmpI: map<int, int>, ghost P: set<int>, ghost v: int)
    returns (tmpI': map<int, int>)
    requires g.WellIndexed() && s >= 1 && view == g.GetEdgesWithMinSize(s) && Positions(view, invMap)
    requires uf.Valid() && uf.parent.Length == |view| && Sound(g, s, view, uf.root)
    requires ListFor(g, view, view, v, L) && v !in P && 0 <= i < j < |L| && L[i] in invMap
    requires CountsAt(g, view, view, s, E[invMap[L[i]] := tmpI], uf.root, P, L, i, j)
    requires Recording(g, s, invMap, uf.root, CCS)
    modifies uf, uf.parent, uf.rank, CCS
    ensures uf.Valid() && uf.parent == old(uf.parent) && uf.rank == old(uf.rank)
    ensures Sound(g, s, view, uf.root) && Coarsens(uf.root, old(uf.root))
    ensures CountsAt(g, view, view, s, E[invMap[L[i]] := tmpI'], uf.root, P, L, i, j + 1)
    ensures Recording(g, s, invMap, uf.root, CCS)
    ensures KeptBut(s, old(CCS.ccs), old(CCS.ccPerHyperedge), old(CCS.candsNeigh), CCS.ccs, CCS.ccPerHyperedge, CCS.candsNeigh)
  {
    assert L[j] in view;
    PositionIsIdx(view, invMap, L[i]);
    PositionIsIdx(view, invMap, L[j]);
    var v1, v2 := invMap[L[i]], invMap[L[j]];
    var same := uf.SameCC(v1, v2);
    if !same {
      tmpI' := BumpPairC(g, s, view, invMap, uf, CCS, L, i, j, E, tmpI, P, v);
    } else {
      tmpI' := tmpI;
      SamePairC(g, s, view, invMap, uf, CCS, L, i, j, E[v1 := tmpI], P, v);
    }
  }

  /** The pair (i, j) of the list of v, its positions in one set: no counter changes, the pair is a candidate. */
  method SamePairC(ghost g: HyperGraph, s: int, ghost view: seq<int>, ghost invMap: map<int, int>, uf: WQUFPC,
                   CCS: ConnectedComponents, L: seq<int>, i: int, j: int,
                   ghost E: map<int, map<int, int>>, ghost P: set<int>, ghost v: int)
    requires g.WellIndexed() && s >= 1 && view == g.GetEdgesWithMinSize(s) && Positions(view, invMap)
    requires |uf.root| == |view| && ListFor(g, view, view, v, L) && 0 <= i < j < |L|
    requires L[i] in invMap && L[j] in invMap && 0 <= invMap[L[i]] < |view| && 0 <= invMap[L[j]] < |view|
    requires Idx(view, L[i]) == invMap[L[i]] && Idx(view, L[j]) == invMap[L[j]]
    requires uf.root[invMap[L[i]]] == uf.root[invMap[L[j]]]
    requires CountsAt(g, view, view, s, E, uf.root, P, L, i, j)
    requires Recording(g, s, invMap, uf.root, CCS)
    modifies CCS
    ensures CountsAt(g, view, view, s, E, uf.root, P, L, i, j + 1) && Coarsens(uf.root, uf.root)
    ensures Recording(g, s, invMap, uf.root, CCS)
    ensures KeptBut(s, old(CCS.ccs), old(CCS.ccPerHyperedge), old(CCS.candsNeigh), CCS.ccs, CCS.ccPerHyperedge, CCS.candsNeigh)
  {
    IncreasingDistinct(view);
    CoarsensRefl(uf.root);
    PairSame(g, view, view, s, E, uf.root, P, v, L, i, j);
    CandidatePair(g, s, view, invMap, uf, CCS, L, i, j, v);
  }

  /** Records the pair (i, j) of the list of v, its positions in one set, as candidate neighbours. */
  method CandidatePair(ghost g: HyperGraph, s: int, ghost view: seq<int>, ghost invMap: map<int, int>, uf: WQUFPC,
                       CCS: ConnectedComponents, L: seq<int>, i: int, j: int, ghost v: int)
    requires g.WellIndexed() && s >= 1 && view == g.GetEdgesWithMinSize(s) && Positions(view, invMap)
    requires |uf.root| == |view| && ListFor(g, view, view, v, L) && 0 <= i < j < |L|
    requires L[i] in invMap && L[j] in invMap && uf.root[invMap[L[i]]] == uf.root[invMap[L[j]]]
    requires Recording(g, s, invMap, uf.root, CCS)
    modifies CCS
    ensures Recording(g, s, invMap, uf.root, CCS)
    ensures KeptBut(s, old(CCS.ccs), old(CCS.ccPerHyperedge), old(CCS.candsNeigh), CCS.ccs, CCS.ccPerHyperedge, CCS.candsNeigh)
  {
    PairFacts(g, s, view, invMap, L, i, j, v);
    AddCandidate(g, s, invMap, uf.root, CCS, L[i], L[j]);
  }

  /** The two hyperedges of a pair of the list of v: distinct hyperedges of the level, both holding v. */
  lemma PairFacts(g: HyperGraph, s: int, view: seq<int>, invMap: map<int, int>, L: seq<int>, i: int, j: int, v: int)
    requires g.WellIndexed() && s >= 1 && view == g.GetEdgesWithMinSize(s) && Positions(view, invMap)
    requires ListFor(g, view, view, v, L) && 0 <= i < j < |L|
    ensures g.IsEdge(L[i]) && g.InView(L[i], s) && g.IsEdge(L[j]) && g.InView(L[j], s)
    ensures L[i] != L[j] && v in g.V(L[i]) * g.V(L[j])
    ensures L[i] in invMap && L[j] in invMap && 0 <= invMap[L[i]] < |view| && 0 <= invMap[L[j]] < |view|
  {
    assert L[i] in view && L[j] in view;
    PositionIsIdx(view, invMap, L[i]);
    PositionIsIdx(view, invMap, L[j]);
    ListDistinct(g, view, view, v, L);
  }

  /** `addCandidateNeighbourPair(e, c, s)` for two hyperedges of level s sharing a vertex, in one set. */
  method AddCandidate(ghost g: HyperGraph, s: int, ghost invMap: map<int, int>, ghost root: seq<int>,
                      CCS: ConnectedComponents, e: int, c: int)
    requires g.IsEdge(e) && g.InView(e, s) && g.IsEdge(c) && g.InView(c, s) && e != c && g.V(e) * g.V(c) != {}
    requires e in invMap && c in invMap && 0 <= invMap[e] < |root| && 0 <= invMap[c] < |root|
    requires root[invMap[e]] == root[invMap[c]]
    requires Recording(g, s, invMap, root, CCS)
    modifies CCS
    ensures Recording(g, s, invMap, root, CCS)
    ensures KeptBut(s, old(CCS.ccs), old(CCS.ccPerHyperedge), old(CCS.candsNeigh), CCS.ccs, CCS.ccPerHyperedge, CCS.candsNeigh)
  {
    CandidateAdded(g, s, invMap, root, CCS.candsNeigh, e, c);
    CandidateKeeps(s, CCS.ccs, CCS.ccPerHyperedge, CCS.candsNeigh, LevelOf(CCS.candsNeigh, s)[e := CCS.CandidatesOf(s, e) + [c]]);
    CCS.AddCandidateNeighbourPair(e, c, s);
  }

  /**
   * The pair (i, j) of the list of v, its positions in different sets:
   * the counter gains one; once it reaches s the overlap s is recorded
   * and the sets are merged.
   */
  method BumpPairC(ghost g: HyperGraph, s: int, ghost view: seq<int>, invMap: map<int, int>, uf: WQUFPC,
                   CCS: ConnectedComponents, L: seq<int>, i: int, j: int,
                   ghost E: map<int, map<int, int>>, tmpI: map<int, int>, ghost P: set<int>, ghost v: int)
    returns (tmpI': map<int, int>)
    requires g.WellIndexed() && s >= 1 && view == g.GetEdgesWithMinSize(s) && Positions(view, invMap)
    requires uf.Valid() && uf.parent.Length == |view| && Sound(g, s, view, uf.root)
    requires ListFor(g, view, view, v, L) && v !in P && 0 <= i < j < |L|
    requires L[i] in invMap && L[j] in invMap && 0 <= invMap[L[i]] < |view| && 0 <= invMap[L[j]] < |view|
    requires Idx(view, L[i]) == invMap[L[i]] && Idx(view, L[j]) == invMap[L[j]]
    requires uf.root[invMap[L[i]]] != uf.root[invMap[L[j]]]
    requires CountsAt(g, view, view, s, E[invMap[L[i]] := tmpI], uf.root, P, L, i, j)
    requires Recording(g, s, invMap, uf.root, CCS)
    modifies uf, uf.parent, uf.rank, CCS
    ensures uf.Valid() && uf.parent == old(uf.parent) && uf.rank == old(uf.rank)
    ensures Sound(g, s, view, uf.root) && Coarsens(uf.root, old(uf.root))
    ensures CountsAt(g, view, view, s, E[invMap[L[i]] := tmpI'], uf.root, P, L, i, j + 1)
    ensures Recording(g, s, invMap, uf.root, CCS)
    ensures KeptBut(s, old(CCS.ccs), old(CCS.ccPerHyperedge), old(CCS.candsNeigh), CCS.ccs, CCS.ccPerHyperedge, CCS.candsNeigh)
  {
    IncreasingDistinct(view);
    var v1, v2 := invMap[L[i]], invMap[L[j]];
    ghost var r0, E0 := uf.root, E[v1 := tmpI];
    PairFresh(g, view, view, s, E0, r0, P, v, L, i, j);
    var c := (if v2 in tmpI then tmpI[v2] else 0) + 1;
    tmpI' := tmpI[v2 := c];
    CntBump(E, v1, tmpI, v2, c);
    if c >= s {
      SharedBound(g, view, P, v, v1, v2);
      MergeRecorded(g, s, view, invMap, uf, CCS, L[i], L[j]);
    } else {
      KeptNothing(s, CCS.ccs, CCS.ccPerHyperedge, CCS.candsNeigh);
    }
    PairCounted(g, view, view, s, E0, E[v1 := tmpI'], r0, uf.root, P, v, L, i, j);
  }

  /** A pair found to share s vertices: `addOverlap(e1, e2, s)`, then the union of their sets. */
  method MergeRecorded(ghost g: HyperGraph, s: int, ghost view: seq<int>, invMap: map<int, int>, uf: WQUFPC,
                       CCS: ConnectedComponents, e1: int, e2: int)
    requires e1 in invMap && e2 in invMap && 0 <= invMap[e1] < |view| && 0 <= invMap[e2] < |view|
    requires view[invMap[e1]] == e1 && view[invMap[e2]] == e2
    requires g.IsEdge(e1) && g.IsEdge(e2) && s <= g.Overlap(e1, e2)
    requires uf.Valid() && uf.parent.Length == |view| && Sound(g, s, view, uf.root)
    requires Recording(g, s, invMap, uf.root, CCS)
    modifies uf, uf.parent, uf.rank, CCS
    ensures uf.Valid() && uf.parent == old(uf.parent) && uf.rank == old(uf.rank)
    ensures Sound(g, s, view, uf.root) && Coarsens(uf.root, old(uf.root))
    ensures uf.root[invMap[e1]] == uf.root[invMap[e2]]
    ensures Recording(g, s, invMap, uf.root, CCS)
    ensures KeptBut(s, old(CCS.ccs), old(CCS.ccPerHyperedge), old(CCS.candsNeigh), CCS.ccs, CCS.ccPerHyperedge, CCS.candsNeigh)
  {
    ghost var r0 := uf.root;
    OverlapRecorded(g, s, view, invMap, uf.root, CCS, e1, e2);
    UnionAdjacent(g, s, view, uf, invMap[e1], invMap[e2]);
    CandidatesCoarsen(g, s, invMap, r0, uf.root, CCS.candsNeigh);
  }

  lemma KeptNothing(s: int, ccs: map<int, seq<seq<int>>>, memb: map<int, map<int, int>>, cn: map<int, map<int, seq<int>>>)
    ensures KeptBut(s, ccs, memb, cn, ccs, memb, cn)
  {
  }

  /** Records the overlap s of a pair sharing at least s vertices (`addOverlap`). */
  method OverlapRecorded(ghost g: HyperGraph, s: int, ghost view: seq<int>, ghost invMap: map<int, int>,
                         ghost root: seq<int>, CCS: ConnectedComponents, e1: int, e2: int)
    requires g.IsEdge(e1) && g.IsEdge(e2) && s <= g.Overlap(e1, e2)
    requires Recording(g, s, invMap, root, CCS)
    modifies CCS
    ensures Recording(g, s, invMap, root, CCS)
    ensures KeptBut(s, old(CCS.ccs), old(CCS.ccPerHyperedge), old(CCS.candsNeigh), CCS.ccs, CCS.ccPerHyperedge, CCS.candsNeigh)
    ensures CCS.partialOverlaps == old(CCS.partialOverlaps)[(e1, e2) := s]
  {
    CCS.AddOverlap(e1, e2, s);
  }

  /**
   * Row i of the list of vertex v: every later hyperedge of the list is
   * visited as the pair (i, j); the row of counters is stored back
   * (`eIndex.put(v1, tmpI)`).
   */
  method CountRowC(ghost g: HyperGraph, s: int, ghost view: seq<int>, invMap: map<int, int>, uf: WQUFPC,
                   CCS: ConnectedComponents, L: seq<int>, i: int,
                   E: map<int, map<int, int>>, ghost P: set<int>, ghost v: int)
    returns (E': map<int, map<int, int>>)
    requires g.WellIndexed() && s >= 1 && view == g.GetEdgesWithMinSize(s) && Positions(view, invMap)
    requires uf.Valid() && uf.parent.Length == |view| && Sound(g, s, view, uf.root)
    requires ListFor(g, view, view, v, L) && v !in P && 0 <= i < |L| && L[i] in invMap
    requires CountsAt(g, view, view, s, E, uf.root, P, L, i, i + 1)
    requires Recording(g, s, invMap, uf.root, CCS)
    modifies uf, uf.parent, uf.rank, CCS
    ensures uf.Valid() && uf.parent == old(uf.parent) && uf.rank == old(uf.rank)
    ensures Sound(g, s, view, uf.root) && Coarsens(uf.root, old(uf.root))
    ensures CountsAt(g, view, view, s, E', uf.root, P, L, i, |L|)
    ensures Recording(g, s, invMap, uf.root, CCS)
    ensures KeptBut(s, old(CCS.ccs), old(CCS.ccPerHyperedge), old(CCS.candsNeigh), CCS.ccs, CCS.ccPerHyperedge, CCS.candsNeigh)
  {
    var v1 := invMap[L[i]];
    var tmpI := if v1 in E then E[v1] else map[];
    CntSame(E, v1);
    CoarsensRefl(uf.root);
    KeptNothing(s, CCS.ccs, CCS.ccPerHyperedge, CCS.candsNeigh);
    assert PairsAt(g, s, view, invMap, uf, CCS, L, i, i + 1, E, tmpI, P, uf.parent, uf.rank, uf.root, CCS.ccs, CCS.ccPerHyperedge, CCS.candsNeigh);
    var j;
    tmpI, j := VisitPairsC(g, s, view, invMap, uf, CCS, L, i, E, tmpI, P, v, uf.parent, uf.rank, uf.root, CCS.ccs, CCS.ccPerHyperedge, CCS.candsNeigh);
    E' := E[v1 := tmpI];
  }

  /**
   * Before pair (i, j) of a vertex list: the partition is sound and
   * coarser than root0, row i of the counts is tmpI, and the store keeps
   * what it held outside level s.
   */
  ghost predicate PairsAt(g: HyperGraph, s: int, view: seq<int>, invMap: map<int, int>, uf: WQUFPC,
                          CCS: ConnectedComponents, L: seq<int>, i: int, j: int, E: map<int, map<int, int>>,
                          tmpI: map<int, int>, P: set<int>,
                          parent0: array<int>, rank0: array<int>, root0: seq<int>, ccs0: map<int, seq<seq<int>>>,
                          memb0: map<int, map<int, int>>, cn0: map<int, map<int, seq<int>>>)
    reads uf, uf.parent, CCS
  {
    0 <= i < j <= |L| && L[i] in invMap &&
    uf.Valid() && uf.parent == parent0 && uf.rank == rank0 && uf.parent.Length == |view| &&
    AllEdges(g, view) && |uf.root| == |view| &&
    Sound(g, s, view, uf.root) && Coarsens(uf.root, root0) &&
    CountsAt(g, view, view, s, E[invMap[L[i]] := tmpI], uf.root, P, L, i, j) &&
    Recording(g, s, invMap, uf.root, CCS) &&
    KeptBut(s, ccs0, memb0, cn0, CCS.ccs, CCS.ccPerHyperedge, CCS.candsNeigh)
  }

  /** The pairs (i, j) of row i, for every later j. */
  method VisitPairsC(ghost g: HyperGraph, s: int, ghost view: seq<int>, invMap: map<int, int>, uf: WQUFPC,
                     CCS: ConnectedComponents, L: seq<int>, i: int, ghost E: map<int, map<int, int>>, tmpI0: map<int, int>,
                     ghost P: set<int>, ghost v: int,
                     ghost parent0: array<int>, ghost rank0: array<int>, ghost root0: seq<int>, ghost ccs0: map<int, seq<seq<int>>>,
                     ghost memb0: map<int, map<int, int>>, ghost cn0: map<int, map<int, seq<int>>>)
    returns (tmpI: map<int, int>, j: int)
    requires g.WellIndexed() && s >= 1 && view == g.GetEdgesWithMinSize(s) && Positions(view, invMap)
    requires ListFor(g, view, view, v, L) && v !in P
    requires uf.parent == parent0 && uf.rank == rank0
    requires PairsAt(g, s, view, invMap, uf, CCS, L, i, i + 1, E, tmpI0, P, parent0, rank0, root0, ccs0, memb0, cn0)
    modifies uf, uf.parent, uf.rank, CCS
    ensures j == |L|
    ensures PairsAt(g, s, view, invMap, uf, CCS, L, i, j, E, tmpI, P, parent0, rank0, root0, ccs0, memb0, cn0)
  {
    tmpI := tmpI0;
    j := i + 1;
    while j < |L|
      invariant uf.parent == parent0 && uf.rank == rank0
      invariant PairsAt(g, s, view, invMap, uf, CCS, L, i, j, E, tmpI, P, parent0, rank0, root0, ccs0, memb0, cn0)
    {
      tmpI, j := VisitPairC(g, s, view, invMap, uf, CCS, L, i, j, E, tmpI, P, v, parent0, rank0, root0, ccs0, memb0, cn0);
    }
  }

  /** Pair (i, j) of row i, after which pair (i, j + 1) comes. */
  method VisitPairC(ghost g: HyperGraph, s: int, ghost view: seq<int>, invMap: map<int, int>, uf: WQUFPC,
                    CCS: ConnectedComponents, L: seq<int>, i: int, j: int, ghost E: map<int, map<int, int>>, tmpI: map<int, int>,
                    ghost P: set<int>, ghost v: int,
                    ghost parent0: array<int>, ghost rank0: array<int>, ghost root0: seq<int>, ghost ccs0: map<int, seq<seq<int>>>,
                    ghost memb0: map<int, map<int, int>>, ghost cn0: map<int, map<int, seq<int>>>)
    returns (tmpI': map<int, int>, j': int)
    requires g.WellIndexed() && s >= 1 && view == g.GetEdgesWithMinSize(s) && Positions(view, invMap)
    requires ListFor(g, view, view, v, L) && v !in P && j < |L|
    requires PairsAt(g, s, view, invMap, uf, CCS, L, i, j, E, tmpI, P, parent0, rank0, root0, ccs0, memb0, cn0)
    modifies uf, parent0, rank0, CCS
    ensures j' == j + 1
    ensures PairsAt(g, s, view, invMap, uf, CCS, L, i, j', E, tmpI', P, parent0, rank0, root0, ccs0, memb0, cn0)
  {
    j' := j + 1;
    ghost var r1, ccs1, memb1, cn1 := uf.root, CCS.ccs, CCS.ccPerHyperedge, CCS.candsNeigh;
    tmpI' := CountPairC(g, s, view, invMap, uf, CCS, L, i, j, E, tmpI, P, v);
    CoarsensTrans(uf.root, r1, root0);
    KeptTrans(s, ccs0, memb0, cn0, ccs1, memb1, cn1, CCS.ccs, CCS.ccPerHyperedge, CCS.candsNeigh);
  }

  /**
   * Row i of the list of vertex v, after which row i + 1 starts; the
   * partition stays coarser than root0 and the store keeps what it held
   * outside level s.
   */
  method VisitRowC(ghost g: HyperGraph, s: int, ghost view: seq<int>, invMap: map<int, int>, uf: WQUFPC,
                   CCS: ConnectedComponents, L: seq<int>, i: int,
                   E: map<int, map<int, int>>, ghost P: set<int>, ghost v: int,
                   ghost parent0: array<int>, ghost rank0: array<int>, ghost root0: seq<int>, ghost ccs0: map<int, seq<seq<int>>>, ghost memb0: map<int, map<int, int>>,
                   ghost cn0: map<int, map<int, seq<int>>>)
    returns (E': map<int, map<int, int>>)
    requires g.WellIndexed() && s >= 1 && view == g.GetEdgesWithMinSize(s) && Positions(view, invMap)
    requires ListFor(g, view, view, v, L) && v !in P && i < |L| - 1
    requires RowsAt(g, s, view, invMap, uf, CCS, L, E, P, i, parent0, rank0, root0, ccs0, memb0, cn0)
    modifies uf, uf.parent, uf.rank, CCS
    ensures RowsAt(g, s, view, invMap, uf, CCS, L, E', P, i + 1, parent0, rank0, root0, ccs0, memb0, cn0)
  {
    assert L[i] in view;
    ghost var r1, ccs1, memb1, cn1 := uf.root, CCS.ccs, CCS.ccPerHyperedge, CCS.candsNeigh;
    E' := CountRowC(g, s, view, invMap, uf, CCS, L, i, E, P, v);
    CoarsensTrans(uf.root, r1, root0);
    KeptTrans(s, ccs0, memb0, cn0, ccs1, memb1, cn1, CCS.ccs, CCS.ccPerHyperedge, CCS.candsNeigh);
    IncreasingDistinct(view);
    RowDone(g, view, view, s, E', uf.root, P, v, L, i);
  }

  /** Every pair of the list of vertex v, row by row (`for i < numHEdges - 1`). */
  method CountVertexC(ghost g: HyperGraph, s: int, ghost view: seq<int>, invMap: map<int, int>, uf: WQUFPC,
                      CCS: ConnectedComponents, L: seq<int>,
                      E: map<int, map<int, int>>, ghost P: set<int>, ghost v: int)
    returns (E': map<int, map<int, int>>)
    requires g.WellIndexed() && s >= 1 && view == g.GetEdgesWithMinSize(s) && Positions(view, invMap)
    requires uf.Valid() && uf.parent.Length == |view| && Sound(g, s, view, uf.root)
    requires ListFor(g, view, view, v, L) && v !in P
    requires CountsAt(g, view, view, s, E, uf.root, P, [], 0, 0)
    requires Recording(g, s, invMap, uf.root, CCS)
    modifies uf, uf.parent, uf.rank, CCS
    ensures uf.Valid() && uf.parent == old(uf.parent) && uf.rank == old(uf.rank)
    ensures Sound(g, s, view, uf.root) && Coarsens(uf.root, old(uf.root))
    ensures CountsAt(g, view, view, s, E', uf.root, P + {v}, [], 0, 0)
    ensures Recording(g, s, invMap, uf.root, CCS)
    ensures KeptBut(s, old(CCS.ccs), old(CCS.ccPerHyperedge), old(CCS.candsNeigh), CCS.ccs, CCS.ccPerHyperedge, CCS.candsNeigh)
  {
    IncreasingDistinct(view);
    VertexStart(g, view, view, s, E, uf.root, P, v, L);
    CoarsensRefl(uf.root);
    KeptNothing(s, CCS.ccs, CCS.ccPerHyperedge, CCS.candsNeigh);
    var i;
    E', i := CountRowsC(g, s, view, invMap, uf, CCS, L, E, P, v);
    VertexDone(g, view, view, s, E', uf.root, P, v, L, i);
  }

  /** The rows of the list of vertex v, from the first to the last but one. */
  method CountRowsC(ghost g: HyperGraph, s: int, ghost view: seq<int>, invMap: map<int, int>, uf: WQUFPC,
                    CCS: ConnectedComponents, L: seq<int>,
                    E: map<int, map<int, int>>, ghost P: set<int>, ghost v: int)
    returns (E': map<int, map<int, int>>, i: int)
    requires g.WellIndexed() && s >= 1 && view == g.GetEdgesWithMinSize(s) && Positions(view, invMap)
    requires uf.Valid() && uf.parent.Length == |view| && Sound(g, s, view, uf.root)
    requires ListFor(g, view, view, v, L) && v !in P
    requires CountsAt(g, view, view, s, E, uf.root, P, L, 0, 1)
    requires Recording(g, s, invMap, uf.root, CCS)
    modifies uf, uf.parent, uf.rank, CCS
    ensures i >= |L| - 1
    ensures uf.Valid() && uf.parent == old(uf.parent) && uf.rank == old(uf.rank)
    ensures Sound(g, s, view, uf.root) && Coarsens(uf.root, old(uf.root))
    ensures CountsAt(g, view, view, s, E', uf.root, P, L, i, i + 1)
    ensures Recording(g, s, invMap, uf.root, CCS)
    ensures KeptBut(s, old(CCS.ccs), old(CCS.ccPerHyperedge), old(CCS.candsNeigh), CCS.ccs, CCS.ccPerHyperedge, CCS.candsNeigh)
  {
    CoarsensRefl(uf.root);
    KeptNothing(s, CCS.ccs, CCS.ccPerHyperedge, CCS.candsNeigh);
    assert RowsAt(g, s, view, invMap, uf, CCS, L, E, P, 0, uf.parent, uf.rank, uf.root, CCS.ccs, CCS.ccPerHyperedge, CCS.candsNeigh);
    E', i := VisitRowsC(g, s, view, invMap, uf, CCS, L, E, P, v, uf.parent, uf.rank, uf.root, CCS.ccs, CCS.ccPerHyperedge, CCS.candsNeigh);
  }

  /** The loop over the rows, from row 0 to the last but one. */
  method VisitRowsC(ghost g: HyperGraph, s: int, ghost view: seq<int>, invMap: map<int, int>, uf: WQUFPC,
                    CCS: ConnectedComponents, L: seq<int>, E: map<int, map<int, int>>, ghost P: set<int>, ghost v: int,
                    ghost parent0: array<int>, ghost rank0: array<int>, ghost root0: seq<int>, ghost ccs0: map<int, seq<seq<int>>>,
                    ghost memb0: map<int, map<int, int>>, ghost cn0: map<int, map<int, seq<int>>>)
    returns (E': map<int, map<int, int>>, i: int)
    requires g.WellIndexed() && s >= 1 && view == g.GetEdgesWithMinSize(s) && Positions(view, invMap)
    requires ListFor(g, view, view, v, L) && v !in P
    requires RowsAt(g, s, view, invMap, uf, CCS, L, E, P, 0, parent0, rank0, root0, ccs0, memb0, cn0)
    modifies uf, uf.parent, uf.rank, CCS
    ensures i >= |L| - 1
    ensures RowsAt(g, s, view, invMap, uf, CCS, L, E', P, i, parent0, rank0, root0, ccs0, memb0, cn0)
  {
    E' := E;
    i := 0;
    while i < |L| - 1
      invariant RowsAt(g, s, view, invMap, uf, CCS, L, E', P, i, parent0, rank0, root0, ccs0, memb0, cn0)
    {
      E' := VisitRowC(g, s, view, invMap, uf, CCS, L, i, E', P, v, parent0, rank0, root0, ccs0, memb0, cn0);
      i := i + 1;
    }
  }

  /**
   * Before row i of a vertex list: the partition is sound and coarser
   * than root0, the counts are those of the rows before i, and the store
   * keeps what it held outside level s.
   */
  ghost predicate RowsAt(g: HyperGraph, s: int, view: seq<int>, invMap: map<int, int>, uf: WQUFPC,
                         CCS: ConnectedComponents, L: seq<int>, E: map<int, map<int, int>>, P: set<int>, i: int,
                         parent0: array<int>, rank0: array<int>, root0: seq<int>, ccs0: map<int, seq<seq<int>>>,
                         memb0: map<int, map<int, int>>, cn0: map<int, map<int, seq<int>>>)
    reads uf, uf.parent, CCS
  {
    0 <= i && (i < |L| || i == 0) &&
    uf.Valid() && uf.parent == parent0 && uf.rank == rank0 && AllEdges(g, view) && |uf.root| == |view| &&
    Sound(g, s, view, uf.root) && Coarsens(uf.root, root0) &&
    CountsAt(g, view, view, s, E, uf.root, P, L, i, i + 1) &&
    Recording(g, s, invMap, uf.root, CCS) &&
    KeptBut(s, ccs0, memb0, cn0, CCS.ccs, CCS.ccPerHyperedge, CCS.candsNeigh)
  }

  /**
   * Counts the pairs of the sorted list of vertex v; the store keeps what
   * it held outside level s.
   */
  method CountSortedC(ghost g: HyperGraph, s: int, ghost view: seq<int>, invMap: map<int, int>, uf: WQUFPC,
                      CCS: ConnectedComponents, vIndex: map<int, seq<int>>, ghost mask: set<int>, v: int,
                      E: map<int, map<int, int>>, ghost P: set<int>,
                      ghost ccs0: map<int, seq<seq<int>>>, ghost memb0: map<int, map<int, int>>,
                      ghost cn0: map<int, map<int, seq<int>>>)
    returns (E': map<int, map<int, int>>)
    requires g.WellIndexed() && s >= 1 && view == g.GetEdgesWithMinSize(s) && Positions(view, invMap)
    requires IndexOf(g, vIndex, mask) && (forall e :: e in mask <==> g.IsEdge(e) && g.InView(e, s))
    requires v in vIndex && SortedByKey(vIndex[v], SizeKey(g)) && v !in P
    requires uf.Valid() && uf.parent.Length == |view| && Sound(g, s, view, uf.root)
    requires CountsAt(g, view, view, s, E, uf.root, P, [], 0, 0)
    requires Recording(g, s, invMap, uf.root, CCS)
    requires KeptBut(s, ccs0, memb0, cn0, CCS.ccs, CCS.ccPerHyperedge, CCS.candsNeigh)
    modifies uf, uf.parent, uf.rank, CCS
    ensures uf.Valid() && uf.parent == old(uf.parent) && uf.rank == old(uf.rank)
    ensures Sound(g, s, view, uf.root)
    ensures CountsAt(g, view, view, s, E', uf.root, P + {v}, [], 0, 0)
    ensures Recording(g, s, invMap, uf.root, CCS)
    ensures KeptBut(s, ccs0, memb0, cn0, CCS.ccs, CCS.ccPerHyperedge, CCS.candsNeigh)
  {
    EdgeListFor(g, s, view, vIndex, mask, v);
    ghost var ccs1, memb1, cn1 := CCS.ccs, CCS.ccPerHyperedge, CCS.candsNeigh;
    E' := CountVertexC(g, s, view, invMap, uf, CCS, vIndex[v], E, P, v);
    KeptTrans(s, ccs0, memb0, cn0, ccs1, memb1, cn1, CCS.ccs, CCS.ccPerHyperedge, CCS.candsNeigh);
  }

  /**
   * The counting phase of level s (`vIndex.keySet().forEach`): every
   * vertex list is visited once, after which any two hyperedges of the
   * level sharing at least s vertices are in one set, every set is
   * s-connected, the overlaps recorded at s are overlaps of at least s
   * and the candidate pairs of level s share a vertex within one set.
   */
  method CountAllC(g: HyperGraph, s: int, view: seq<int>, invMap: map<int, int>, uf: WQUFPC,
                   CCS: ConnectedComponents, vIndex: map<int, seq<int>>, ghost mask: set<int>)
    requires g.WellIndexed() && s >= 1 && view == g.GetEdgesWithMinSize(s) && Positions(view, invMap)
    requires IndexOf(g, vIndex, mask) && (forall e :: e in mask <==> g.IsEdge(e) && g.InView(e, s))
    requires forall v :: v in vIndex ==> SortedByKey(vIndex[v], SizeKey(g))
    requires uf.Valid() && uf.parent.Length == |view| && Sound(g, s, view, uf.root)
    requires Recording(g, s, invMap, uf.root, CCS)
    modifies uf, uf.parent, uf.rank, CCS
    ensures uf.Valid() && uf.parent == old(uf.parent) && uf.rank == old(uf.rank)
    ensures Sound(g, s, view, uf.root) && Closed(g, s, view, uf.root)
    ensures Recording(g, s, invMap, uf.root, CCS)
    ensures KeptBut(s, old(CCS.ccs), old(CCS.ccPerHyperedge), old(CCS.candsNeigh), CCS.ccs, CCS.ccPerHyperedge, CCS.candsNeigh)
  {
    var E: map<int, map<int, int>> := map[];
    ghost var P: set<int> := {};
    CountsStart(g, view, view, s, uf.root);
    KeptNothing(s, CCS.ccs, CCS.ccPerHyperedge, CCS.candsNeigh);
    var todo := vIndex.Keys;
    while todo != {}
      invariant todo <= vIndex.Keys && P == vIndex.Keys - todo
      invariant uf.Valid() && uf.parent == old(uf.parent) && uf.rank == old(uf.rank)
      invariant Sound(g, s, view, uf.root)
      invariant CountsAt(g, view, view, s, E, uf.root, P, [], 0, 0)
      invariant Recording(g, s, invMap, uf.root, CCS)
      invariant KeptBut(s, old(CCS.ccs), old(CCS.ccPerHyperedge), old(CCS.candsNeigh), CCS.ccs, CCS.ccPerHyperedge, CCS.candsNeigh)
      decreases todo
    {
      var v := Pick(todo);
      E := CountSortedC(g, s, view, invMap, uf, CCS, vIndex, mask, v, E, P,
                        old(CCS.ccs), old(CCS.ccPerHyperedge), old(CCS.candsNeigh));
      P := P + {v};
      todo := todo - {v};
    }
    AllVerticesSeen(g, s, view, vIndex, mask, P);
    CountsClosed(g, view, view, s, E, uf.root, P);
  }

  /** After every vertex list, P holds every vertex of every hyperedge of the level. */
  lemma AllVerticesSeen(g: HyperGraph, s: int, view: seq<int>, vIndex: map<int, seq<int>>, mask: set<int>, P: set<int>)
    requires g.WellIndexed() && view == g.GetEdgesWithMinSize(s)
    requires IndexOf(g, vIndex, mask) && (forall e :: e in mask <==> g.IsEdge(e) && g.InView(e, s))
    requires P == vIndex.Keys
    ensures AllEdges(g, view) && forall p :: 0 <= p < |view| ==> g.V(view[p]) <= P
  {
    forall p | 0 <= p < |view|
      ensures g.V(view[p]) <= P
    {
      var e := view[p];
      assert e in mask;
      forall x | x in g.V(e)
        ensures x in P
      {
        assert x in vIndex;
      }
    }
  }
}
