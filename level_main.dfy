/**
 * HyperGraph.findConnectedComponents: the levels from maxS down to 1,
 * each one seeded from the level above, counted, grouped and stored.
 */
module LevelComponents {
  import opened Wrappers
  import opened HyperGraphs
  import opened SConnectivity
  import opened UnionFind
  import opened Components
  import opened ComponentSweep
  import opened LevelSweep
  import opened LevelIndex
  import opened LevelCount
  import Utils

  /*
   * What a finished level leaves in the store.
   */

  /**
   * The candidate lists of level t: listed hyperedges are kept at level
   * t, and each listed pair is two distinct hyperedges sharing a vertex
   * and t-connected.
   */
  ghost predicate CandidatesShare(g: HyperGraph, t: int, cn: map<int, map<int, seq<int>>>)
    requires g.WellIndexed()
  {
    t in cn ==>
      (forall e :: e in cn[t] ==> g.IsEdge(e) && g.InView(e, t)) &&
      (forall e, c :: e in cn[t] && c in cn[t][e] ==>
        g.IsEdge(c) && g.InView(c, t) && e != c && g.V(e) * g.V(c) != {} &&
        SConnected(g, t, g.GetEdgesWithMinSize(t), e, c))
  }

  /** Candidate pairs in one set of a sound partition are connected. */
  lemma CandidatesConnected(g: HyperGraph, s: int, view: seq<int>, invMap: map<int, int>, root: seq<int>,
                            cn: map<int, map<int, seq<int>>>)
    requires g.WellIndexed() && view == g.GetEdgesWithMinSize(s) && Positions(view, invMap)
    requires Sound(g, s, view, root) && CandidatesJoined(g, s, invMap, root, cn)
    ensures CandidatesShare(g, s, cn)
  {
    if s in cn {
      forall e, c | e in cn[s] && c in cn[s][e]
        ensures SConnected(g, s, view, e, c)
      {
        var p, q := invMap[e], invMap[c];
        assert view[p] == e && view[q] == c;
      }
    }
  }

  /** The groups of GroupByRoot: gid[p] the group of position p, at[c] the positions of group c. */
  ghost predicate Grouping(view: seq<int>, root: seq<int>, groups: seq<seq<int>>, gid: seq<int>, at: seq<seq<int>>)
  {
    |gid| == |view| && |at| == |groups| && |root| == |view| &&
    (forall p :: 0 <= p < |view| ==> 0 <= gid[p] < |groups| && p in at[gid[p]]) &&
    (forall c :: 0 <= c < |groups| ==> |groups[c]| == |at[c]| > 0 && Increasing(at[c])) &&
    (forall c, m :: 0 <= c < |groups| && 0 <= m < |at[c]| ==>
      0 <= at[c][m] < |view| && groups[c][m] == view[at[c][m]] && gid[at[c][m]] == c) &&
    (forall p, q :: 0 <= p < |view| && 0 <= q < |view| ==> (gid[p] == gid[q] <==> root[p] == root[q]))
  }

  /** A member of group c sits at a position of group c. */
  lemma MemberPosition(view: seq<int>, root: seq<int>, groups: seq<seq<int>>, gid: seq<int>, at: seq<seq<int>>,
                       c: int, x: int) returns (p: int)
    requires Grouping(view, root, groups, gid, at) && 0 <= c < |groups| && x in groups[c]
    ensures 0 <= p < |view| && view[p] == x && gid[p] == c
  {
    var m :| 0 <= m < |groups[c]| && groups[c][m] == x;
    p := at[c][m];
  }

  /** The hyperedge at position p is a member of group gid[p]. */
  lemma PositionMember(view: seq<int>, root: seq<int>, groups: seq<seq<int>>, gid: seq<int>, at: seq<seq<int>>, p: int)
    requires Grouping(view, root, groups, gid, at) && 0 <= p < |view|
    ensures view[p] in groups[gid[p]]
  {
    var c := gid[p];
    var m :| 0 <= m < |at[c]| && at[c][m] == p;
    assert groups[c][m] == view[p];
  }

  /** Over a list without repetitions, the groups are disjoint and repeat no member. */
  lemma GroupsPartition(view: seq<int>, root: seq<int>, groups: seq<seq<int>>, gid: seq<int>, at: seq<seq<int>>)
    requires Grouping(view, root, groups, gid, at) && Utils.Distinct(view)
    ensures NoDuplicates(groups)
    ensures forall a, b :: 0 <= a < b < |groups| ==> forall x :: x in groups[a] ==> x !in groups[b]
  {
    forall c, a, b | 0 <= c < |groups| && 0 <= a < b < |groups[c]|
      ensures groups[c][a] != groups[c][b]
    {
      assert at[c][a] < at[c][b];
    }
    forall a, b, x | 0 <= a < b < |groups| && x in groups[a]
      ensures x !in groups[b]
    {
      var pa := MemberPosition(view, root, groups, gid, at, a, x);
      forall m | 0 <= m < |groups[b]|
        ensures groups[b][m] != x
      {
        assert gid[at[b][m]] == b != gid[pa];
      }
    }
  }

  /**
   * Storing the groups of a sound and closed partition of level s as its
   * components and memberships finishes level s.
   */
  lemma GroupsFinishLevel(g: HyperGraph, s: int, view: seq<int>, root: seq<int>,
                          groups: seq<seq<int>>, gid: seq<int>, at: seq<seq<int>>,
                          ccs: map<int, seq<seq<int>>>, memb: map<int, map<int, int>>)
    requires g.WellIndexed() && s >= 1 && view == g.GetEdgesWithMinSize(s)
    requires Sound(g, s, view, root) && Closed(g, s, view, root)
    requires Grouping(view, root, groups, gid, at)
    requires s in memb && memb[s] == Membership(groups)
    requires s in ccs ==> ccs[s] == groups
    ensures LevelDone(g, ccs, memb, s)
  {
    IncreasingDistinct(view);
    GroupsPartition(view, root, groups, gid, at);
    var m := Membership(groups);
    forall e
      ensures e in m <==> g.IsEdge(e) && g.InView(e, s)
    {
      MembershipLast(groups, e);
      if g.IsEdge(e) && g.InView(e, s) {
        var p :| 0 <= p < |view| && view[p] == e;
        PositionMember(view, root, groups, gid, at, p);
      }
      if e in m {
        var c :| 0 <= c < |groups| && e in groups[c];
        var p := MemberPosition(view, root, groups, gid, at, c, e);
      }
    }
    forall a, b | a in m && b in m
      ensures m[a] == m[b] <==> SConnected(g, s, view, a, b)
    {
      MembershipLast(groups, a);
      MembershipLast(groups, b);
      var pa := MemberPosition(view, root, groups, gid, at, m[a], a);
      var pb := MemberPosition(view, root, groups, gid, at, m[b], b);
      ExactComponents(g, s, view, root, pa, pb);
    }
    forall c, x | 0 <= c < |groups| && x in groups[c]
      ensures x in m && m[x] == c
    {
      MembershipOfPartition(groups, x, c);
    }
  }

  /** The candidate lists of level t are unaffected when level t is. */
  lemma CandidatesShareFrame(g: HyperGraph, t: int, cn: map<int, map<int, seq<int>>>, cn': map<int, map<int, seq<int>>>)
    requires g.WellIndexed() && CandidatesShare(g, t, cn)
    requires (t in cn' <==> t in cn) && (t in cn ==> cn'[t] == cn[t])
    ensures CandidatesShare(g, t, cn')
  {
  }

  /** A finished level t stays finished when level t of the store is unaffected. */
  lemma LevelDoneFrame(g: HyperGraph, t: int, ccs: map<int, seq<seq<int>>>, memb: map<int, map<int, int>>,
                       ccs': map<int, seq<seq<int>>>, memb': map<int, map<int, int>>)
    requires g.WellIndexed() && LevelDone(g, ccs, memb, t)
    requires t in memb' && memb'[t] == memb[t]
    requires (t in ccs' <==> t in ccs) && (t in ccs ==> ccs'[t] == ccs[t])
    ensures LevelDone(g, ccs', memb', t)
  {
  }

  /*
   * One level of the sweep.
   */

  /**
   * The store after the levels above s, up to top, are done: every level
   * in (s, top] is finished, with its candidate pairs connected; nothing
   * is stored for any other level; every recorded overlap was found at
   * some level above s.
   */
  ghost predicate SweptAbove(g: HyperGraph, s: int, top: int, ccs: map<int, seq<seq<int>>>,
                             memb: map<int, map<int, int>>, cn: map<int, map<int, seq<int>>>,
                             po: map<(int, int), int>)
    requires g.WellIndexed()
  {
    OverlapsAbove(g, po, s + 1) &&
    (forall t :: t in ccs ==> s < t <= top) &&
    (forall t :: t in memb ==> s < t <= top) &&
    (forall t :: t in cn ==> s < t <= top) &&
    (forall t :: s < t <= top ==> LevelDone(g, ccs, memb, t) && CandidatesShare(g, t, cn))
  }

  /** Nothing is stored before the first level. */
  lemma SweptNothing(g: HyperGraph, top: int)
    requires g.WellIndexed()
    ensures SweptAbove(g, top, top, map[], map[], map[], map[])
  {
  }

  /**
   * What the components of level s + 1 give the seeding of level s:
   * m1 is its membership map (empty above the top level).
   */
  lemma SeedsFromAbove(g: HyperGraph, s: int, top: int, ccs: map<int, seq<seq<int>>>,
                       memb: map<int, map<int, int>>, cn: map<int, map<int, seq<int>>>,
                       po: map<(int, int), int>, comps: seq<seq<int>>, m1: map<int, int>)
    requires g.WellIndexed() && SweptAbove(g, s, top, ccs, memb, cn, po)
    requires comps == (if s + 1 in ccs then ccs[s + 1] else [])
    requires m1 == (if s + 1 in memb then memb[s + 1] else map[])
    ensures forall c :: 0 <= c < |comps| ==> |comps[c]| > 0
    ensures forall c, x :: 0 <= c < |comps| && x in comps[c] ==> x in m1 && m1[x] == c
    ensures forall x :: x in m1 ==> g.IsEdge(x) && g.InView(x, s + 1)
    ensures forall a, b :: a in m1 && b in m1 && m1[a] == m1[b] ==> SConnected(g, s + 1, g.GetEdgesWithMinSize(s + 1), a, b)
  {
    if s + 1 <= top {
      assert LevelDone(g, ccs, memb, s + 1);
    }
  }

  /**
   * Builds the forest of level s: the position map of the hyperedges kept
   * at s, a fresh forest seeded with the components of level s + 1, and
   * the recorded overlapping pairs joined.
   */
  /** Each position its own representative: only equal positions share one. */
  lemma Singletons(g: HyperGraph, s: int, view: seq<int>, root: seq<int>)
    requires |root| == |view| && forall i :: 0 <= i < |view| ==> root[i] == i
    ensures Sound(g, s, view, root)
  {
    forall i, j | 0 <= i < |view| && 0 <= j < |view| && root[i] == root[j]
      ensures SConnected(g, s, view, view[i], view[j])
    {
      ConnectedRefl(g, s, view, view[i]);
    }
  }

  method SeedLevel(g: HyperGraph, s: int, top: int, CCS: ConnectedComponents)
    returns (view: seq<int>, invMap: map<int, int>, uf: WQUFPC)
    requires g.WellIndexed() && s >= 1
    requires SweptAbove(g, s, top, CCS.ccs, CCS.ccPerHyperedge, CCS.candsNeigh, CCS.partialOverlaps)
    ensures view == g.GetEdgesWithMinSize(s) && Positions(view, invMap)
    ensures fresh(uf) && fresh(uf.parent) && fresh(uf.rank)
    ensures uf.Valid() && uf.parent.Length == |view| && Sound(g, s, view, uf.root)
    ensures Joined(CCS.partialOverlaps.Keys, invMap, uf.root)
  {
    view := g.GetEdgesWithMinSize(s);
    invMap := BuildInvMap(view);
    uf := new WQUFPC(|view|);
    Singletons(g, s, view, uf.root);
    var comps := CCS.GetSCCs(s + 1);
    ghost var m1 := if s + 1 in CCS.ccPerHyperedge then CCS.ccPerHyperedge[s + 1] else map[];
    SeedsFromAbove(g, s, top, CCS.ccs, CCS.ccPerHyperedge, CCS.candsNeigh, CCS.partialOverlaps, comps, m1);
    SeedComponents(g, s, view, invMap, uf, comps, m1);
    var pairs := CCS.GetOverlappingPairs();
    UnionRecorded(g, s, view, invMap, uf, pairs, CCS.partialOverlaps);
  }

  /**
   * Counts level s: adds the hyperedges new at s to the vertex index,
   * sorts every list by decreasing size, and counts the shared vertices of
   * every pair, merging, recording overlaps and candidate pairs.
   */
  method CountLevel(g: HyperGraph, s: int, top: int, view: seq<int>, invMap: map<int, int>, uf: WQUFPC,
                    CCS: ConnectedComponents, vIndex: map<int, seq<int>>, mask: set<int>)
    returns (vIndex': map<int, seq<int>>, mask': set<int>)
    requires g.WellIndexed() && 1 <= s <= top && view == g.GetEdgesWithMinSize(s) && Positions(view, invMap)
    requires MaskAt(g, mask, s, top) && IndexOf(g, vIndex, mask)
    requires uf.Valid() && uf.parent.Length == |view| && Sound(g, s, view, uf.root)
    requires CCS.Valid() && OverlapsAbove(g, CCS.partialOverlaps, s + 1) && s !in CCS.candsNeigh
    modifies uf, uf.parent, uf.rank, CCS
    ensures uf.Valid() && uf.parent == old(uf.parent) && uf.rank == old(uf.rank)
    ensures Sound(g, s, view, uf.root) && Closed(g, s, view, uf.root)
    ensures Recording(g, s, invMap, uf.root, CCS)
    ensures KeptBut(s, old(CCS.ccs), old(CCS.ccPerHyperedge), old(CCS.candsNeigh), CCS.ccs, CCS.ccPerHyperedge, CCS.candsNeigh)
    ensures MaskAt(g, mask', s - 1, top) && IndexOf(g, vIndex', mask')
  {
    vIndex', mask' := IndexLevel(g, s, top, view, vIndex, mask);
    OverlapsLower(g, CCS.partialOverlaps, s + 1, s);
    CountAllC(g, s, view, invMap, uf, CCS, vIndex', mask');
  }

  /** Adds the hyperedges new at level s to the vertex index and sorts every list by decreasing size. */
  method IndexLevel(g: HyperGraph, s: int, top: int, view: seq<int>, vIndex: map<int, seq<int>>, mask: set<int>)
    returns (vIndex': map<int, seq<int>>, mask': set<int>)
    requires g.WellIndexed() && s >= 1 && view == g.GetEdgesWithMinSize(s)
    requires MaskAt(g, mask, s, top) && IndexOf(g, vIndex, mask)
    ensures IndexOf(g, vIndex', mask') && forall e :: e in mask' <==> g.IsEdge(e) && g.InView(e, s)
    ensures forall v :: v in vIndex' ==> SortedByKey(vIndex'[v], SizeKey(g))
  {
    vIndex', mask' := AddToIndex(g, s, top, view, vIndex, mask);
    vIndex' := SortIndex(g, vIndex', mask');
  }

  /** Overlaps recorded above a bound are recorded above any lower one. */
  lemma OverlapsLower(g: HyperGraph, po: map<(int, int), int>, lo: int, lo': int)
    requires OverlapsAbove(g, po, lo) && lo' <= lo
    ensures OverlapsAbove(g, po, lo')
  {
  }

  /**
   * Groups the positions of level s by representative and stores the
   * groups as the components (when not all singletons) and memberships of
   * level s.
   */
  method StoreLevel(g: HyperGraph, s: int, view: seq<int>, uf: WQUFPC, CCS: ConnectedComponents)
    requires g.WellIndexed() && s >= 1 && view == g.GetEdgesWithMinSize(s)
    requires uf.Valid() && uf.parent.Length == |view|
    requires Sound(g, s, view, uf.root) && Closed(g, s, view, uf.root) && CCS.Valid() && s !in CCS.ccs
    modifies uf.parent, CCS
    ensures uf.Valid() && uf.root == old(uf.root) && CCS.Valid()
    ensures LevelDone(g, CCS.ccs, CCS.ccPerHyperedge, s)
    ensures CCS.ccPerHyperedge == old(CCS.ccPerHyperedge)[s := CCS.ccPerHyperedge[s]]
    ensures CCS.ccs == old(CCS.ccs) || (s in CCS.ccs && CCS.ccs == old(CCS.ccs)[s := CCS.ccs[s]])
    ensures CCS.partialOverlaps == old(CCS.partialOverlaps) && CCS.candsNeigh == old(CCS.candsNeigh)
  {
    var groups, gid, at := GroupByRoot(uf, view);
    IncreasingDistinct(view);
    GroupsPartition(view, uf.root, groups, gid, at);
    var stored := CCS.AddSCCs(groups, s);
    CCS.AddMemberships(groups, s);
    GroupsFinishLevel(g, s, view, uf.root, groups, gid, at, CCS.ccs, CCS.ccPerHyperedge);
  }

  /**
   * Finishing level s, leaving the levels above as they were, extends the
   * finished levels down to s.
   */
  lemma SweptStep(g: HyperGraph, s: int, top: int, ccs0: map<int, seq<seq<int>>>, memb0: map<int, map<int, int>>,
                  cn0: map<int, map<int, seq<int>>>, po0: map<(int, int), int>, ccs: map<int, seq<seq<int>>>,
                  memb: map<int, map<int, int>>, cn: map<int, map<int, seq<int>>>, po: map<(int, int), int>)
    requires g.WellIndexed() && 1 <= s <= top && SweptAbove(g, s, top, ccs0, memb0, cn0, po0)
    requires KeptBut(s, ccs0, memb0, cn0, ccs0, memb0, cn)
    requires s in memb && memb == memb0[s := memb[s]]
    requires ccs == ccs0 || (s in ccs && ccs == ccs0[s := ccs[s]])
    requires OverlapsAbove(g, po, s) && LevelDone(g, ccs, memb, s) && CandidatesShare(g, s, cn)
    ensures SweptAbove(g, s - 1, top, ccs, memb, cn, po)
  {
    forall t | s < t <= top
      ensures LevelDone(g, ccs, memb, t) && CandidatesShare(g, t, cn)
    {
      LevelDoneFrame(g, t, ccs0, memb0, ccs, memb);
      CandidatesShareFrame(g, t, cn0, cn);
    }
  }

  /**
   * One pass of the level loop: seeds the forest of level s, counts the
   * level, and stores its components and memberships.
   */
  method ProcessLevel(g: HyperGraph, s: int, top: int, CCS: ConnectedComponents, vIndex: map<int, seq<int>>, mask: set<int>)
    returns (vIndex': map<int, seq<int>>, mask': set<int>)
    requires g.WellIndexed() && 1 <= s <= top && CCS.Valid()
    requires SweptAbove(g, s, top, CCS.ccs, CCS.ccPerHyperedge, CCS.candsNeigh, CCS.partialOverlaps)
    requires MaskAt(g, mask, s, top) && IndexOf(g, vIndex, mask)
    modifies CCS
    ensures CCS.Valid() && SweptAbove(g, s - 1, top, CCS.ccs, CCS.ccPerHyperedge, CCS.candsNeigh, CCS.partialOverlaps)
    ensures MaskAt(g, mask', s - 1, top) && IndexOf(g, vIndex', mask')
  {
    ghost var ccs0, memb0, cn0, po0 := CCS.ccs, CCS.ccPerHyperedge, CCS.candsNeigh, CCS.partialOverlaps;
    var view, invMap, uf := SeedLevel(g, s, top, CCS);
    vIndex', mask' := CountLevel(g, s, top, view, invMap, uf, CCS, vIndex, mask);
    CandidatesConnected(g, s, view, invMap, uf.root, CCS.candsNeigh);
    StoreLevel(g, s, view, uf, CCS);
    SweptStep(g, s, top, ccs0, memb0, cn0, po0, CCS.ccs, CCS.ccPerHyperedge, CCS.candsNeigh, CCS.partialOverlaps);
  }

  /**
   * The components of every level from maxS down to 1, each level seeded
   * from the one above. Every level in [1, maxS] is finished and nothing
   * else is stored; every candidate pair is connected at its level; every
   * recorded overlap is a true lower bound of at least 1.
   */
  method FindConnectedComponents(g: HyperGraph, maxS: int) returns (CCS: ConnectedComponents)
    requires g.WellIndexed()
    ensures fresh(CCS) && CCS.Valid()
    ensures forall t :: 1 <= t <= maxS ==> LevelDone(g, CCS.ccs, CCS.ccPerHyperedge, t) && CandidatesShare(g, t, CCS.candsNeigh)
    ensures forall t :: t in CCS.ccs ==> 1 <= t <= maxS
    ensures forall t :: t in CCS.ccPerHyperedge ==> 1 <= t <= maxS
    ensures forall t :: t in CCS.candsNeigh ==> 1 <= t <= maxS
    ensures OverlapsAbove(g, CCS.partialOverlaps, 1)
  {
    CCS := new ConnectedComponents();
    var vIndex: map<int, seq<int>> := map[];
    var mask: set<int> := {};
    var s := maxS;
    SweptNothing(g, maxS);
    while s > 0
      invariant s <= maxS && (s >= 0 || s == maxS)
      invariant s == maxS ==> CCS.partialOverlaps == map[]
      invariant CCS.Valid() && SweptAbove(g, s, maxS, CCS.ccs, CCS.ccPerHyperedge, CCS.candsNeigh, CCS.partialOverlaps)
      invariant MaskAt(g, mask, s, maxS) && IndexOf(g, vIndex, mask)
    {
      vIndex, mask := ProcessLevel(g, s, maxS, CCS, vIndex, mask);
      s := s - 1;
    }
  }

  /**
   * What the sweep leaves is what completing the neighbour maps from the
   * candidates needs: recorded overlaps are true lower bounds, candidates
   * are hyperedges, and every hyperedge with candidates has a 1-component.
   */
  lemma ReadyForNeighbours(g: HyperGraph, maxS: int, CCS: ConnectedComponents)
    requires g.WellIndexed() && maxS >= 1 && CCS.Valid()
    requires forall t :: 1 <= t <= maxS ==> LevelDone(g, CCS.ccs, CCS.ccPerHyperedge, t) && CandidatesShare(g, t, CCS.candsNeigh)
    requires forall t :: t in CCS.candsNeigh ==> 1 <= t <= maxS
    requires OverlapsAbove(g, CCS.partialOverlaps, 1)
    ensures forall p :: p in CCS.partialOverlaps ==>
      g.IsEdge(p.0) && g.IsEdge(p.1) && CCS.partialOverlaps[p] <= g.Overlap(p.0, p.1)
    ensures g.CandidatesAreEdges(CCS.candsNeigh)
    ensures forall s, e :: s in CCS.candsNeigh && e in CCS.candsNeigh[s] ==> CCS.GetIdOfSCC(e, 1) >= 0
  {
    assert LevelDone(g, CCS.ccs, CCS.ccPerHyperedge, 1);
    forall s, e | s in CCS.candsNeigh && e in CCS.candsNeigh[s]
      ensures g.IsEdge(e) && (forall c :: c in CCS.candsNeigh[s][e] ==> g.IsEdge(c)) && CCS.GetIdOfSCC(e, 1) >= 0
    {
      assert CandidatesShare(g, s, CCS.candsNeigh);
      assert g.InView(e, 1);
    }
  }
}
