/**
 * The s-connected component searches of the hypergraph
 * (HyperGraph.findSConnectedComponents and findConnectedComponents).
 * They only read the hypergraph, which they take as a parameter.
 */
module ComponentSweep {
  import opened Wrappers
  import opened HyperGraphs
  import opened SConnectivity
  import opened UnionFind
  import Components
  import Utils

  /*
   * Shared steps.
   */

  /**
   * Union of two positions whose hyperedges share at least s vertices:
   * the partition stays sound and the two end up in one set.
   */
  method UnionAdjacent(ghost g: HyperGraph, ghost s: int, ghost view: seq<int>, uf: WQUFPC, p: int, q: int)
    requires uf.Valid() && uf.parent.Length == |view| && 0 <= p < |view| && 0 <= q < |view|
    requires Sound(g, s, view, uf.root) && Adjacent(g, s, view[p], view[q])
    modifies uf, uf.parent, uf.rank
    ensures uf.Valid() && uf.parent == old(uf.parent) && uf.rank == old(uf.rank)
    ensures Sound(g, s, view, uf.root) && uf.root[p] == uf.root[q]
    ensures Coarsens(uf.root, old(uf.root))
  {
    ghost var r0, rk := uf.root, uf.rank[..];
    uf.Union(p, q);
    if r0[p] != r0[q] {
      SoundMerge(g, s, view, r0, p, q, Loser(rk, r0[p], r0[q]), Winner(rk, r0[p], r0[q]));
    }
  }

  /**
   * Groups the positions by the representative `find` gives them
   * (`groupingBy(find)`), listing the hyperedge at each position. A group
   * keeps the positions in increasing order; the groups come in the order
   * of their first position. `gid[p]` is the group of position p and
   * `at[c]` the positions of group c.
   */
  method GroupByRoot(uf: WQUFPC, view: seq<int>) returns (groups: seq<seq<int>>, ghost gid: seq<int>, ghost at: seq<seq<int>>)
    requires uf.Valid() && uf.parent.Length == |view|
    modifies uf.parent
    ensures uf.Valid() && uf.root == old(uf.root)
    ensures |gid| == |view| && |at| == |groups|
    ensures forall p :: 0 <= p < |view| ==> 0 <= gid[p] < |groups| && p in at[gid[p]]
    ensures forall c :: 0 <= c < |groups| ==> |groups[c]| == |at[c]| > 0 && Increasing(at[c])
    ensures forall c, m :: 0 <= c < |groups| && 0 <= m < |at[c]| ==>
      0 <= at[c][m] < |view| && groups[c][m] == view[at[c][m]] && gid[at[c][m]] == c
    ensures forall p, q :: 0 <= p < |view| && 0 <= q < |view| ==> (gid[p] == gid[q] <==> uf.root[p] == uf.root[q])
  {
    groups, gid, at := [], [], [];
    var slot: map<int, int> := map[];
    ghost var owner: seq<int> := [];
    for p := 0 to |view|
      invariant uf.Valid() && uf.root == old(uf.root) && uf.parent.Length == |view|
      invariant Grouped(view, uf.root, p, groups, gid, at, slot, owner)
    {
      var r := uf.Find(p);
      if r in slot {
        var c := slot[r];
        GroupJoin(view, uf.root, p, groups, gid, at, slot, owner);
        groups := groups[c := groups[c] + [view[p]]];
        at := at[c := at[c] + [p]];
        gid := gid + [c];
      } else {
        GroupOpen(view, uf.root, p, groups, gid, at, slot, owner);
        slot := slot[r := |groups|];
        owner := owner + [r];
        gid := gid + [|groups|];
        groups := groups + [[view[p]]];
        at := at + [[p]];
      }
    }
    GroupedDone(view, uf.root, groups, gid, at, slot, owner);
  }

  /**
   * The grouping after the positions below p: `slot` gives the group of
   * each representative met so far and `owner` the representative of each
   * group.
   */
  ghost predicate Grouped(view: seq<int>, root: seq<int>, p: int, groups: seq<seq<int>>, gid: seq<int>,
                          at: seq<seq<int>>, slot: map<int, int>, owner: seq<int>)
  {
    0 <= p <= |view| == |root| &&
    |gid| == p && |at| == |groups| && |owner| == |groups| &&
    (forall r :: r in slot ==> 0 <= slot[r] < |groups| && owner[slot[r]] == r) &&
    (forall c :: 0 <= c < |groups| ==> owner[c] in slot && slot[owner[c]] == c) &&
    (forall q :: 0 <= q < p ==> root[q] in slot && gid[q] == slot[root[q]] && q in at[gid[q]]) &&
    (forall c :: 0 <= c < |groups| ==> |groups[c]| == |at[c]| > 0 && Increasing(at[c])) &&
    (forall c, m :: 0 <= c < |groups| && 0 <= m < |at[c]| ==>
      0 <= at[c][m] < p && groups[c][m] == view[at[c][m]] && gid[at[c][m]] == c)
  }

  /** Position p joins the group of its representative. */
  lemma GroupJoin(view: seq<int>, root: seq<int>, p: int, groups: seq<seq<int>>, gid: seq<int>,
                  at: seq<seq<int>>, slot: map<int, int>, owner: seq<int>)
    requires Grouped(view, root, p, groups, gid, at, slot, owner) && p < |view| && root[p] in slot
    ensures 0 <= slot[root[p]] < |groups|
    ensures var c := slot[root[p]];
      Grouped(view, root, p + 1, groups[c := groups[c] + [view[p]]], gid + [c], at[c := at[c] + [p]], slot, owner)
  {
    var r := root[p];
    assert r in slot;
    var c := slot[r];
    forall m | 0 <= m < |at[c]|
      ensures at[c][m] < p
    {
    }
    AppendIncreasing(at[c], p);
    var groups', gid', at' := groups[c := groups[c] + [view[p]]], gid + [c], at[c := at[c] + [p]];
    forall q | 0 <= q < p
      ensures 0 <= gid[q] < |groups|
    {
      var r := root[q];
      assert r in slot;
    }
    forall q | 0 <= q < p + 1
      ensures root[q] in slot && gid'[q] == slot[root[q]] && q in at'[gid'[q]]
    {
      if q < p {
        var d := gid[q];
        assert q in at[d];
      }
    }
    forall d, m | 0 <= d < |groups'| && 0 <= m < |at'[d]|
      ensures 0 <= at'[d][m] < p + 1 && groups'[d][m] == view[at'[d][m]] && gid'[at'[d][m]] == d
    {
      if d != c || m < |at[c]| {
        assert at'[d][m] == at[d][m];
      }
    }
  }

  /** Position p opens a new group for its representative. */
  lemma GroupOpen(view: seq<int>, root: seq<int>, p: int, groups: seq<seq<int>>, gid: seq<int>,
                  at: seq<seq<int>>, slot: map<int, int>, owner: seq<int>)
    requires Grouped(view, root, p, groups, gid, at, slot, owner) && p < |view| && root[p] !in slot
    ensures Grouped(view, root, p + 1, groups + [[view[p]]], gid + [|groups|], at + [[p]],
                    slot[root[p] := |groups|], owner + [root[p]])
  {
    var n := |groups|;
    var groups', gid', at' := groups + [[view[p]]], gid + [n], at + [[p]];
    var slot', owner' := slot[root[p] := n], owner + [root[p]];
    forall q | 0 <= q < p
      ensures 0 <= gid[q] < |groups|
    {
      var r := root[q];
      assert r in slot;
    }
    forall q | 0 <= q < p + 1
      ensures root[q] in slot' && gid'[q] == slot'[root[q]] && q in at'[gid'[q]]
    {
      if q < p {
        var r, d := root[q], gid[q];
        assert r in slot && q in at[d];
      }
    }
    forall d | 0 <= d < |groups'|
      ensures owner'[d] in slot' && slot'[owner'[d]] == d
    {
      if d < n {
        var r := owner[d];
        assert r in slot;
      }
    }
  }

  /** Once every position is placed, two positions share a group exactly when they share a representative. */
  lemma GroupedDone(view: seq<int>, root: seq<int>, groups: seq<seq<int>>, gid: seq<int>,
                    at: seq<seq<int>>, slot: map<int, int>, owner: seq<int>)
    requires Grouped(view, root, |view|, groups, gid, at, slot, owner)
    ensures forall p :: 0 <= p < |view| ==> 0 <= gid[p] < |groups| && p in at[gid[p]]
    ensures forall p, q :: 0 <= p < |view| && 0 <= q < |view| ==> (gid[p] == gid[q] <==> root[p] == root[q])
  {
    forall p | 0 <= p < |view|
      ensures 0 <= gid[p] < |groups| && p in at[gid[p]]
    {
      var r := root[p];
      assert r in slot;
    }
  }

  /*
   * findSConnectedComponents: one level, over the positions of a given list.
   */

  /** The positions 0..n-1, each written as itself in the vertex lists. */
  ghost function Identity(n: nat): (r: seq<int>)
    ensures |r| == n
  {
    seq(n, p => p)
  }

  lemma IdentityIdx(n: nat, x: int)
    ensures Utils.Distinct(Identity(n))
    ensures x in Identity(n) <==> 0 <= x < n
    ensures 0 <= x < n ==> Idx(Identity(n), x) == x
  {
    if 0 <= x < n {
      IdxOf(Identity(n), x);
    }
  }

  /** Position p of the list holds a hyperedge with vertex v. */
  ghost predicate Holds(g: HyperGraph, view: seq<int>, p: int, v: int)
  {
    0 <= p < |view| && g.IsEdge(view[p]) && v in g.V(view[p])
  }

  /**
   * The vertex index over positions after the positions below i and the
   * vertices extra of position i: each list holds, in increasing order,
   * exactly the positions that have the vertex.
   */
  ghost predicate PositionsUpTo(g: HyperGraph, view: seq<int>, vI: map<int, seq<int>>, i: int, extra: set<int>)
  {
    (forall v, p :: v in vI && p in vI[v] ==> (p < i && Holds(g, view, p, v)) || (p == i && v in extra)) &&
    (forall v, p :: p < i && Holds(g, view, p, v) ==> v in vI && p in vI[v]) &&
    (forall v :: v in extra ==> v in vI && i in vI[v]) &&
    (forall v :: v in vI ==> Increasing(vI[v]))
  }

  /** Builds, for every vertex, the increasing list of the positions whose hyperedge holds it. */
  method IndexPositions(g: HyperGraph, view: seq<int>) returns (vI: map<int, seq<int>>)
    requires AllEdges(g, view)
    ensures PositionsUpTo(g, view, vI, |view|, {})
  {
    vI := map[];
    for i := 0 to |view|
      invariant PositionsUpTo(g, view, vI, i, {})
    {
      var rest := g.hyperedges[view[i]].vertices;
      while rest != {}
        invariant rest <= g.V(view[i])
        invariant PositionsUpTo(g, view, vI, i, g.V(view[i]) - rest)
        decreases rest
      {
        var v := Pick(rest);
        var tmpList := if v in vI then vI[v] else [];
        AppendIncreasing(tmpList, i);
        vI := vI[v := tmpList + [i]];
        rest := rest - {v};
      }
      assert g.V(view[i]) - rest == g.V(view[i]);
    }
  }

  /** The sort key of a position: the size of its hyperedge. */
  function PosKey(g: HyperGraph, view: seq<int>): int -> int
  {
    o => if 0 <= o < |view| && g.IsEdge(view[o]) then g.hyperedges[view[o]].size else 0
  }

  /** A sorted position list lists the holders of its vertex in visiting order. */
  lemma PositionListFor(g: HyperGraph, view: seq<int>, vI: map<int, seq<int>>, v: int)
    requires AllEdges(g, view) && PositionsUpTo(g, view, vI, |view|, {}) && v in vI
    ensures ListFor(g, view, Identity(|view|), v, SortByKeyDesc(vI[v], PosKey(g, view)))
  {
    PositionListMembers(g, view, vI, v);
    forall k | 0 <= k < |vI[v]|
      ensures 0 <= vI[v][k] < |view|
    {
      assert vI[v][k] in vI[v];
    }
    PositionListOrder(g, view, v, vI[v]);
  }

  /** The sorted list holds exactly the positions whose hyperedge has the vertex. */
  lemma PositionListMembers(g: HyperGraph, view: seq<int>, vI: map<int, seq<int>>, v: int)
    requires AllEdges(g, view) && PositionsUpTo(g, view, vI, |view|, {}) && v in vI
    ensures var L := SortByKeyDesc(vI[v], PosKey(g, view));
      (forall k :: 0 <= k < |L| ==> L[k] in Identity(|view|) && 0 <= L[k] < |view|) &&
      (forall p :: 0 <= p < |view| ==> (Identity(|view|)[p] in L <==> v in g.V(view[p])))
  {
    var n, key := |view|, PosKey(g, view);
    var l := vI[v];
    var L := SortByKeyDesc(l, key);
    var lab := Identity(n);
    forall k | 0 <= k < |L|
      ensures L[k] in lab && 0 <= L[k] < n
    {
      var x := L[k];
      assert x in multiset(L);
      assert x in l;
      IdentityIdx(n, x);
    }
    forall p | 0 <= p < n
      ensures lab[p] in L <==> v in g.V(view[p])
    {
      assert lab[p] == p;
      if v in g.V(view[p]) {
        assert Holds(g, view, p, v);
        assert p in multiset(l);
      }
      if p in L {
        assert p in multiset(L);
        assert p in l;
      }
    }
  }

  /** Sorting an increasing position list by hyperedge size gives the visiting order. */
  lemma PositionListOrder(g: HyperGraph, view: seq<int>, v: int, l: seq<int>)
    requires AllEdges(g, view) && Increasing(l) && forall k :: 0 <= k < |l| ==> 0 <= l[k] < |view|
    ensures var L := SortByKeyDesc(l, PosKey(g, view));
      (forall k :: 0 <= k < |L| ==> L[k] in Identity(|view|)) &&
      (forall a, b :: 0 <= a < b < |L| ==> BeforeAt(g, view, Idx(Identity(|view|), L[a]), Idx(Identity(|view|), L[b])))
  {
    var n, key := |view|, PosKey(g, view);
    var L := SortByKeyDesc(l, key);
    SortedInOrder(l, key, n);
    PositionsOrdered(g, view, L);
  }

  /** A list of positions sorted by hyperedge size is in visiting order. */
  lemma PositionsOrdered(g: HyperGraph, view: seq<int>, L: seq<int>)
    requires AllEdges(g, view) && SortedByKey(L, PosKey(g, view))
    requires forall x | x in L :: x in Identity(|view|) && Idx(Identity(|view|), x) == x
    ensures forall a, b :: 0 <= a < b < |L| ==>
        BeforeAt(g, view, Idx(Identity(|view|), L[a]), Idx(Identity(|view|), L[b]))
  {
    forall a, b | 0 <= a < b < |L|
      ensures BeforeAt(g, view, Idx(Identity(|view|), L[a]), Idx(Identity(|view|), L[b]))
    {
      PositionPairOrder(g, view, L, a, b);
    }
  }

  /** Sorting an increasing list of positions below n gives a key-sorted list of labels of those positions. */
  lemma SortedInOrder(l: seq<int>, key: int -> int, n: nat)
    requires Increasing(l) && forall k :: 0 <= k < |l| ==> 0 <= l[k] < n
    ensures SortedByKey(SortByKeyDesc(l, key), key)
    ensures forall x | x in SortByKeyDesc(l, key) :: x in Identity(n) && Idx(Identity(n), x) == x
    ensures var L := SortByKeyDesc(l, key); forall k :: 0 <= k < |L| ==> L[k] in Identity(n)
  {
    IncreasingTies(l, key);
    SortSorted(l, key);
    SortedPositions(l, SortByKeyDesc(l, key), n);
  }

  /** An increasing list keeps ties under any key in order. */
  lemma IncreasingTies(l: seq<int>, key: int -> int)
    requires Increasing(l)
    ensures TiesInOrder(l, key)
  {
  }

  /** A permutation of positions below n holds positions below n, each its own label. */
  lemma SortedPositions(l: seq<int>, L: seq<int>, n: nat)
    requires multiset(L) == multiset(l) && forall k :: 0 <= k < |l| ==> 0 <= l[k] < n
    ensures forall x | x in L :: x in Identity(n) && Idx(Identity(n), x) == x
    ensures forall k :: 0 <= k < |L| ==> L[k] in Identity(n)
  {
    forall x | x in L
      ensures x in Identity(n) && Idx(Identity(n), x) == x
    {
      assert x in multiset(L);
      assert x in l;
      IdentityIdx(n, x);
    }
    forall k | 0 <= k < |L|
      ensures L[k] in Identity(n)
    {
      var x := L[k];
      assert x in multiset(L);
      assert x in l;
      IdentityIdx(n, x);
    }
  }

  /** Two positions of a list sorted by hyperedge size come in visiting order. */
  lemma PositionPairOrder(g: HyperGraph, view: seq<int>, L: seq<int>, a: int, b: int)
    requires AllEdges(g, view) && SortedByKey(L, PosKey(g, view)) && 0 <= a < b < |L|
    requires forall x | x in L :: x in Identity(|view|) && Idx(Identity(|view|), x) == x
    ensures L[a] in Identity(|view|) && L[b] in Identity(|view|) &&
      BeforeAt(g, view, Idx(Identity(|view|), L[a]), Idx(Identity(|view|), L[b]))
  {
    var x, y := L[a], L[b];
    assert x in L && y in L;
    IdentityIdx(|view|, x);
    IdentityIdx(|view|, y);
    assert KeyBefore(PosKey(g, view), x, y);
  }

  /**
   * Visits the pair (i, j) of a vertex list (findSConnectedComponents):
   * if the two positions are in different sets, their counter in row
   * tmpI gains one, and the sets are merged once it reaches s.
   */
  method CountPairS(ghost g: HyperGraph, ghost view: seq<int>, s: int, uf: WQUFPC, L: seq<int>, i: int, j: int,
                    ghost E: map<int, map<int, int>>, tmpI: map<int, int>, ghost P: set<int>, ghost v: int, ghost root0: seq<int>)
    returns (tmpI': map<int, int>)
    requires AllEdges(g, view) && uf.Valid() && uf.parent.Length == |view|
    requires ListFor(g, view, Identity(|view|), v, L) && v !in P && 0 <= i < j < |L|
    requires Sound(g, s, view, uf.root) && Coarsens(uf.root, root0)
    requires CountsAt(g, view, Identity(|view|), s, E[L[i] := tmpI], uf.root, P, L, i, j)
    modifies uf, uf.parent, uf.rank
    ensures uf.Valid() && uf.parent == old(uf.parent) && uf.rank == old(uf.rank)
    ensures Sound(g, s, view, uf.root) && Coarsens(uf.root, root0)
    ensures CountsAt(g, view, Identity(|view|), s, E[L[i] := tmpI'], uf.root, P, L, i, j + 1)
  {
    ghost var lab := Identity(|view|);
    var v1, v2 := L[i], L[j];
    IdentityIdx(|view|, v1);
    IdentityIdx(|view|, v2);
    var same := uf.SameCC(v1, v2);
    ghost var r1 := uf.root;
    if !same {
      tmpI' := BumpPairS(g, view, s, uf, L, i, j, E, tmpI, P, v);
      CoarsensTrans(uf.root, r1, root0);
    } else {
      tmpI' := tmpI;
      PairSame(g, view, lab, s, E[v1 := tmpI], uf.root, P, v, L, i, j);
    }
  }

  /**
   * The pair (i, j) of a vertex list, its positions in different sets:
   * its counter gains one, and the sets are merged once it reaches s.
   */
  method BumpPairS(ghost g: HyperGraph, ghost view: seq<int>, s: int, uf: WQUFPC, L: seq<int>, i: int, j: int,
                   ghost E: map<int, map<int, int>>, tmpI: map<int, int>, ghost P: set<int>, ghost v: int)
    returns (tmpI': map<int, int>)
    requires AllEdges(g, view) && uf.Valid() && uf.parent.Length == |view|
    requires ListFor(g, view, Identity(|view|), v, L) && v !in P && 0 <= i < j < |L|
    requires L[i] in Identity(|view|) && L[j] in Identity(|view|) && uf.root[L[i]] != uf.root[L[j]]
    requires Sound(g, s, view, uf.root)
    requires CountsAt(g, view, Identity(|view|), s, E[L[i] := tmpI], uf.root, P, L, i, j)
    modifies uf, uf.parent, uf.rank
    ensures uf.Valid() && uf.parent == old(uf.parent) && uf.rank == old(uf.rank)
    ensures Sound(g, s, view, uf.root) && Coarsens(uf.root, old(uf.root))
    ensures CountsAt(g, view, Identity(|view|), s, E[L[i] := tmpI'], uf.root, P, L, i, j + 1)
  {
    ghost var lab := Identity(|view|);
    var v1, v2 := L[i], L[j];
    IdentityIdx(|view|, v1);
    IdentityIdx(|view|, v2);
    ghost var r0, E0 := uf.root, E[v1 := tmpI];
    PairFresh(g, view, lab, s, E0, r0, P, v, L, i, j);
    var c := (if v2 in tmpI then tmpI[v2] else 0) + 1;
    tmpI' := tmpI[v2 := c];
    CntBump(E, v1, tmpI, v2, c);
    if c >= s {
      SharedBound(g, view, P, v, v1, v2);
      UnionAdjacent(g, s, view, uf, v1, v2);
    }
    PairCounted(g, view, lab, s, E0, E[v1 := tmpI'], r0, uf.root, P, v, L, i, j);
  }

  /**
   * Row i of the pairs of a vertex list (findSConnectedComponents): each
   * later position in a different set gets one more shared vertex, and
   * the two sets are merged once that count reaches s.
   */
  method CountRowS(ghost g: HyperGraph, ghost view: seq<int>, s: int, uf: WQUFPC, L: seq<int>, i: int,
                   E: map<int, map<int, int>>, ghost P: set<int>, ghost v: int) returns (E': map<int, map<int, int>>)
    requires AllEdges(g, view) && uf.Valid() && uf.parent.Length == |view|
    requires ListFor(g, view, Identity(|view|), v, L) && v !in P && 0 <= i < |L|
    requires Sound(g, s, view, uf.root)
    requires CountsAt(g, view, Identity(|view|), s, E, uf.root, P, L, i, i + 1)
    modifies uf, uf.parent, uf.rank
    ensures uf.Valid() && uf.parent == old(uf.parent) && uf.rank == old(uf.rank)
    ensures Sound(g, s, view, uf.root) && Coarsens(uf.root, old(uf.root))
    ensures CountsAt(g, view, Identity(|view|), s, E', uf.root, P, L, i, |L|)
  {
    var v1 := L[i];
    var tmpI := if v1 in E then E[v1] else map[];
    CntSame(E, v1);
    CoarsensRefl(uf.root);
    var j := i + 1;
    while j < |L|
      invariant i < j <= |L|
      invariant uf.Valid() && uf.parent == old(uf.parent) && uf.rank == old(uf.rank)
      invariant Sound(g, s, view, uf.root) && Coarsens(uf.root, old(uf.root))
      invariant CountsAt(g, view, Identity(|view|), s, E[v1 := tmpI], uf.root, P, L, i, j)
    {
      tmpI := CountPairS(g, view, s, uf, L, i, j, E, tmpI, P, v, old(uf.root));
      j := j + 1;
    }
    E' := E[v1 := tmpI];
  }

  /** Row i of a vertex list, after which row i + 1 starts. */
  method VisitRowS(ghost g: HyperGraph, ghost view: seq<int>, s: int, uf: WQUFPC, L: seq<int>, i: int,
                   E: map<int, map<int, int>>, ghost P: set<int>, ghost v: int, ghost root0: seq<int>)
    returns (E': map<int, map<int, int>>)
    requires AllEdges(g, view) && uf.Valid() && uf.parent.Length == |view|
    requires ListFor(g, view, Identity(|view|), v, L) && v !in P && 0 <= i < |L|
    requires Sound(g, s, view, uf.root) && Coarsens(uf.root, root0)
    requires CountsAt(g, view, Identity(|view|), s, E, uf.root, P, L, i, i + 1)
    modifies uf, uf.parent, uf.rank
    ensures uf.Valid() && uf.parent == old(uf.parent) && uf.rank == old(uf.rank)
    ensures Sound(g, s, view, uf.root) && Coarsens(uf.root, root0)
    ensures CountsAt(g, view, Identity(|view|), s, E', uf.root, P, L, i + 1, i + 2)
  {
    ghost var r1 := uf.root;
    E' := CountRowS(g, view, s, uf, L, i, E, P, v);
    CoarsensTrans(uf.root, r1, root0);
    IdentityIdx(|view|, 0);
    RowDone(g, view, Identity(|view|), s, E', uf.root, P, v, L, i);
  }

  /** All the pairs of one vertex list (findSConnectedComponents): rows 0..|L|-1. */
  method CountVertexS(ghost g: HyperGraph, ghost view: seq<int>, s: int, uf: WQUFPC, L: seq<int>,
                      E: map<int, map<int, int>>, ghost P: set<int>, ghost v: int) returns (E': map<int, map<int, int>>)
    requires AllEdges(g, view) && uf.Valid() && uf.parent.Length == |view|
    requires ListFor(g, view, Identity(|view|), v, L) && v !in P
    requires Sound(g, s, view, uf.root)
    requires CountsAt(g, view, Identity(|view|), s, E, uf.root, P, [], 0, 0)
    modifies uf, uf.parent, uf.rank
    ensures uf.Valid() && uf.parent == old(uf.parent) && uf.rank == old(uf.rank)
    ensures Sound(g, s, view, uf.root) && Coarsens(uf.root, old(uf.root))
    ensures CountsAt(g, view, Identity(|view|), s, E', uf.root, P + {v}, [], 0, 0)
  {
    ghost var lab := Identity(|view|);
    IdentityIdx(|view|, 0);
    VertexStart(g, view, lab, s, E, uf.root, P, v, L);
    CoarsensRefl(uf.root);
    E' := E;
    var i := 0;
    while i < |L| - 1
      invariant 0 <= i && (i < |L| || i == 0)
      invariant uf.Valid() && uf.parent == old(uf.parent) && uf.rank == old(uf.rank)
      invariant Sound(g, s, view, uf.root) && Coarsens(uf.root, old(uf.root))
      invariant CountsAt(g, view, lab, s, E', uf.root, P, L, i, i + 1)
    {
      E' := VisitRowS(g, view, s, uf, L, i, E', P, v, old(uf.root));
      i := i + 1;
    }
    VertexDone(g, view, lab, s, E', uf.root, P, v, L, i);
  }

  /** Counts the pairs of the sorted list of vertex v. */
  method CountSortedS(ghost g: HyperGraph, ghost view: seq<int>, s: int, uf: WQUFPC, ghost vIndex: map<int, seq<int>>,
                      ghost v: int, L: seq<int>, E: map<int, map<int, int>>, ghost P: set<int>)
    returns (E': map<int, map<int, int>>)
    requires AllEdges(g, view) && PositionsUpTo(g, view, vIndex, |view|, {}) && v in vIndex && v !in P
    requires L == SortByKeyDesc(vIndex[v], PosKey(g, view))
    requires uf.Valid() && uf.parent.Length == |view| && Sound(g, s, view, uf.root)
    requires CountsAt(g, view, Identity(|view|), s, E, uf.root, P, [], 0, 0)
    modifies uf, uf.parent, uf.rank
    ensures uf.Valid() && uf.parent == old(uf.parent) && uf.rank == old(uf.rank)
    ensures Sound(g, s, view, uf.root)
    ensures CountsAt(g, view, Identity(|view|), s, E', uf.root, P + {v}, [], 0, 0)
  {
    PositionListFor(g, view, vIndex, v);
    E' := CountVertexS(g, view, s, uf, L, E, P, v);
  }

  /**
   * The counting phase of findSConnectedComponents: every vertex list is
   * visited once, after which any two positions whose hyperedges share at
   * least s vertices are in one set, and every set is s-connected.
   */
  method CountAllS(g: HyperGraph, view: seq<int>, s: int, uf: WQUFPC, vIndex: map<int, seq<int>>)
    requires AllEdges(g, view) && s >= 1 && PositionsUpTo(g, view, vIndex, |view|, {})
    requires uf.Valid() && uf.parent.Length == |view| && Sound(g, s, view, uf.root)
    modifies uf, uf.parent, uf.rank
    ensures uf.Valid() && uf.parent == old(uf.parent) && uf.rank == old(uf.rank)
    ensures Sound(g, s, view, uf.root) && Closed(g, s, view, uf.root)
  {
    var key := PosKey(g, view);
    var sorted := map v | v in vIndex :: SortByKeyDesc(vIndex[v], key);
    var E, P := CountLists(g, view, s, uf, vIndex, sorted);
    PositionsCovered(g, view, vIndex, P);
    CountsClosed(g, view, Identity(|view|), s, E, uf.root, P);
  }

  /** Visits every sorted vertex list once, counting its pairs. */
  method CountLists(g: HyperGraph, view: seq<int>, s: int, uf: WQUFPC, vIndex: map<int, seq<int>>, sorted: map<int, seq<int>>)
    returns (E: map<int, map<int, int>>, ghost P: set<int>)
    requires AllEdges(g, view) && s >= 1 && PositionsUpTo(g, view, vIndex, |view|, {})
    requires sorted.Keys == vIndex.Keys && forall v | v in sorted :: sorted[v] == SortByKeyDesc(vIndex[v], PosKey(g, view))
    requires uf.Valid() && uf.parent.Length == |view| && Sound(g, s, view, uf.root)
    modifies uf, uf.parent, uf.rank
    ensures uf.Valid() && uf.parent == old(uf.parent) && uf.rank == old(uf.rank)
    ensures Sound(g, s, view, uf.root) && P == vIndex.Keys
    ensures CountsAt(g, view, Identity(|view|), s, E, uf.root, P, [], 0, 0)
  {
    IdentityIdx(|view|, 0);
    E := map[];
    P := {};
    CountsStart(g, view, Identity(|view|), s, uf.root);
    var todo := sorted.Keys;
    while todo != {}
      invariant todo <= sorted.Keys && P == sorted.Keys - todo
      invariant uf.Valid() && uf.parent == old(uf.parent) && uf.rank == old(uf.rank)
      invariant Sound(g, s, view, uf.root)
      invariant CountsAt(g, view, Identity(|view|), s, E, uf.root, P, [], 0, 0)
      decreases todo
    {
      var v := Pick(todo);
      E := CountSortedS(g, view, s, uf, vIndex, v, sorted[v], E, P);
      P := P + {v};
      todo := todo - {v};
    }
  }

  /** Every vertex of a listed hyperedge has a position list. */
  lemma PositionsCovered(g: HyperGraph, view: seq<int>, vIndex: map<int, seq<int>>, P: set<int>)
    requires AllEdges(g, view) && PositionsUpTo(g, view, vIndex, |view|, {}) && P == vIndex.Keys
    ensures forall p | 0 <= p < |view| :: g.V(view[p]) <= P
  {
    forall p | 0 <= p < |view|
      ensures g.V(view[p]) <= P
    {
      forall x | x in g.V(view[p])
        ensures x in P
      {
        assert Holds(g, view, p, x);
      }
    }
  }

  /**
   * Returns the s-connected components of the listed hyperedges: the
   * positions grouped so that two positions share a group exactly when
   * their hyperedges are joined by a chain of listed hyperedges, each
   * sharing at least s vertices with the next.
   */
  method FindSConnectedComponents(g: HyperGraph, sHyperEdges: seq<int>, s: int)
    returns (ccs: seq<seq<int>>, ghost gid: seq<int>, ghost at: seq<seq<int>>)
    requires AllEdges(g, sHyperEdges) && s >= 1
    ensures |gid| == |sHyperEdges| && |at| == |ccs|
    ensures forall p :: 0 <= p < |sHyperEdges| ==> 0 <= gid[p] < |ccs| && p in at[gid[p]]
    ensures forall c :: 0 <= c < |ccs| ==> |ccs[c]| == |at[c]| > 0 && Increasing(at[c])
    ensures forall c, m :: 0 <= c < |ccs| && 0 <= m < |at[c]| ==>
      0 <= at[c][m] < |sHyperEdges| && ccs[c][m] == sHyperEdges[at[c][m]] && gid[at[c][m]] == c
    ensures forall p, q :: 0 <= p < |sHyperEdges| && 0 <= q < |sHyperEdges| && gid[p] == gid[q] ==>
      SConnected(g, s, sHyperEdges, sHyperEdges[p], sHyperEdges[q])
    ensures forall p, q :: 0 <= p < |sHyperEdges| && 0 <= q < |sHyperEdges| && Adjacent(g, s, sHyperEdges[p], sHyperEdges[q]) ==>
      gid[p] == gid[q]
  {
    var view := sHyperEdges;
    var uf := new WQUFPC(|view|);
    forall i, j | 0 <= i < |view| && 0 <= j < |view| && uf.root[i] == uf.root[j]
      ensures SConnected(g, s, view, view[i], view[j])
    {
      ConnectedRefl(g, s, view, view[i]);
    }
    var vIndex := IndexPositions(g, view);
    CountAllS(g, view, s, uf, vIndex);
    ccs, gid, at := GroupByRoot(uf, view);
  }
}
