/**
 * The line graph of a hypergraph (hypeq/structures/LineGraph.java): one node
 * per hyperedge, labelled with its size, and one weighted edge per pair of
 * hyperedges that share vertices, the weight being the number shared.
 *
 * The graph is built with a dynamic inverted index (vertex -> ids of the
 * hyperedges seen so far that contain it). Lists in the index and in the
 * adjacency map are modelled as fresh per-key lists; the lists the source
 * actually shares between keys are modelled separately (WrittenIndex,
 * WrittenAdjacency) and compared with the intended ones.
 */
module LineGraphs {
  import opened Wrappers
  import opened HyperEdges
  import opened Labels

  /** The id and the vertex set of a hyperedge: all the line graph reads of it. */
  datatype Shape = Shape(id: int, vertices: set<int>)

  function ShapeOf(h: HyperEdge): Shape
  {
    Shape(h.id, h.vertices)
  }

  function Shapes(hs: seq<HyperEdge>): seq<Shape>
  {
    seq(|hs|, i requires 0 <= i < |hs| => ShapeOf(hs[i]))
  }

  /** The list stored under k, or the empty list when k is absent. */
  function Get<T>(m: map<int, seq<T>>, k: int): seq<T>
  {
    if k in m then m[k] else []
  }

  // ---------------------------------------------------------------------
  // The inverted index

  /** The index after the hyperedge h is added: its id is appended under each of its vertices. */
  function IndexAdd(index: map<int, seq<int>>, h: Shape): map<int, seq<int>>
  {
    map v | v in index.Keys + h.vertices :: Get(index, v) + (if v in h.vertices then [h.id] else [])
  }

  /** The index once the hyperedges hs have been added in order. */
  function IndexOf(hs: seq<Shape>): map<int, seq<int>>
  {
    if hs == [] then map[] else IndexAdd(IndexOf(hs[..|hs| - 1]), hs[|hs| - 1])
  }

  /**
   * The intended weight: the overlap of W with every hyperedge among hs whose
   * id is o, added up.
   */
  function Shared(hs: seq<Shape>, o: int, W: set<int>): nat
  {
    if hs == [] then 0
    else Shared(hs[..|hs| - 1], o, W) + (if hs[|hs| - 1].id == o then |W * hs[|hs| - 1].vertices| else 0)
  }

  /** The elements of `order` are distinct and are exactly S. */
  ghost predicate Enumerates(order: seq<int>, S: set<int>)
  {
    (forall i, j :: 0 <= i < j < |order| ==> order[i] != order[j]) && (set x | x in order) == S
  }

  /** The index lists of the vertices in `order`, one after the other. */
  function Flatten(index: map<int, seq<int>>, order: seq<int>): seq<int>
  {
    if order == [] then [] else Flatten(index, order[..|order| - 1]) + Get(index, order[|order| - 1])
  }

  /** The counter map of findEdges: how often each id other than `self` occurs in `flat`. */
  function Counts(self: int, flat: seq<int>): map<int, int>
  {
    map o | o in flat && o != self :: multiset(flat)[o]
  }

  /** The endpoints `dst` of a list of edges. */
  function Dsts(edges: seq<LabeledEdge>): set<int>
  {
    set k | 0 <= k < |edges| :: edges[k].dst
  }

  /** `edges` lists (self, o, cnt[o]) once for every key o of cnt, and nothing else. */
  ghost predicate Found(self: int, cnt: map<int, int>, edges: seq<LabeledEdge>)
  {
    |edges| == |cnt| && Dsts(edges) == cnt.Keys &&
    forall k :: 0 <= k < |edges| ==> edges[k].src == self && edges[k].dst in cnt && edges[k].weight == cnt[edges[k].dst]
  }

  /** Adding one more occurrence of x to `flat` bumps x's counter (default 0), unless x is `self`. */
  lemma CountStep(self: int, flat: seq<int>, x: int)
    ensures var c := Counts(self, flat);
      Counts(self, flat + [x]) == if x == self then c else c[x := (if x in c then c[x] else 0) + 1]
  {
    var c, c' := Counts(self, flat), Counts(self, flat + [x]);
    assert multiset(flat + [x]) == multiset(flat) + multiset{x};
    if x == self {
      assert c'.Keys == c.Keys;
    } else {
      assert c'.Keys == c.Keys + {x};
    }
  }

  /** Adding the index list of one more vertex to the counter map (the inner loop of findEdges). */
  method CountVertex(self: int, l: seq<int>, ngb: map<int, int>, ghost flat: seq<int>) returns (ngb': map<int, int>)
    requires ngb == Counts(self, flat)
    ensures ngb' == Counts(self, flat + l)
  {
    ngb' := ngb;
    for j := 0 to |l|
      invariant ngb' == Counts(self, flat + l[..j])
    {
      CountStep(self, flat + l[..j], l[j]);
      assert flat + l[..j + 1] == flat + l[..j] + [l[j]];
      if l[j] != self {
        ngb' := ngb'[l[j] := (if l[j] in ngb' then ngb'[l[j]] else 0) + 1];
      }
    }
    assert l[..|l|] == l;
  }

  /** One labelled edge per entry of the counter map, in the map's iteration order. */
  method EmitEdges(self: int, ngb: map<int, int>) returns (edges: seq<LabeledEdge>)
    ensures Found(self, ngb, edges)
  {
    edges := [];
    ghost var done: set<int> := {};
    var rest := ngb.Keys;
    while rest != {}
      invariant rest + done == ngb.Keys && rest !! done
      invariant Emitted(self, ngb, done, edges)
      decreases |rest|
    {
      var o := Pick(rest);
      var e := LabeledEdge(self, o, ngb[o]);
      EmittedStep(self, ngb, done, edges, o);
      edges := edges + [e];
      done := done + {o};
      rest := rest - {o};
    }
  }

  /** The edges emitted so far are one per key in done, weighted by the counter map. */
  ghost predicate Emitted(self: int, ngb: map<int, int>, done: set<int>, edges: seq<LabeledEdge>)
  {
    Dsts(edges) == done && |edges| == |done| &&
    forall k :: 0 <= k < |edges| ==> edges[k].src == self && edges[k].dst in ngb && edges[k].weight == ngb[edges[k].dst]
  }

  lemma EmittedStep(self: int, ngb: map<int, int>, done: set<int>, edges: seq<LabeledEdge>, o: int)
    requires Emitted(self, ngb, done, edges) && o in ngb && o !in done
    ensures Emitted(self, ngb, done + {o}, edges + [LabeledEdge(self, o, ngb[o])])
  {
    DstsAppend(edges, LabeledEdge(self, o, ngb[o]));
  }

  lemma DstsAppend(edges: seq<LabeledEdge>, e: LabeledEdge)
    ensures Dsts(edges + [e]) == Dsts(edges) + {e.dst}
  {
    assert forall k :: 0 <= k < |edges| ==> (edges + [e])[k] == edges[k];
    assert (edges + [e])[|edges|] == e;
  }

  /**
   * findEdges: counts, for every id in the index lists of the edge's vertices
   * other than the edge's own, how many of those lists hold it, and emits one
   * labelled edge per id with that count. The vertices are visited in some
   * order `order`; the counts do not depend on it (IndexWeights).
   */
  method FindEdges(edge: HyperEdge, index: map<int, seq<int>>) returns (edges: seq<LabeledEdge>, ghost order: seq<int>)
    ensures Enumerates(order, edge.vertices)
    ensures Found(edge.id, Counts(edge.id, Flatten(index, order)), edges)
  {
    var ngb: map<int, int> := map[];
    order := [];
    var rest := edge.vertices;
    while rest != {}
      invariant rest <= edge.vertices && Enumerates(order, edge.vertices - rest)
      invariant ngb == Counts(edge.id, Flatten(index, order))
      decreases rest
    {
      ngb, order, rest := VisitVertex(edge.id, edge.vertices, index, ngb, order, rest);
    }
    edges := EmitEdges(edge.id, ngb);
  }

  /** One iteration of findEdges: the list of one more vertex of the edge is counted. */
  method VisitVertex(self: int, vs: set<int>, index: map<int, seq<int>>, ngb: map<int, int>, ghost order: seq<int>, rest: set<int>)
    returns (ngb': map<int, int>, ghost order': seq<int>, rest': set<int>)
    requires rest != {} && rest <= vs && Enumerates(order, vs - rest)
    requires ngb == Counts(self, Flatten(index, order))
    ensures rest' < rest && rest' <= vs && Enumerates(order', vs - rest')
    ensures ngb' == Counts(self, Flatten(index, order'))
  {
    var v := Pick(rest);
    ngb' := CountVertex(self, Get(index, v), ngb, Flatten(index, order));
    FlattenLast(index, order, v);
    EnumeratesStep(order, vs - rest, v);
    order' := order + [v];
    rest' := rest - {v};
    assert vs - rest' == (vs - rest) + {v};
  }

  /** Flattening one more vertex appends its list. */
  lemma FlattenLast(index: map<int, seq<int>>, order: seq<int>, v: int)
    ensures Flatten(index, order + [v]) == Flatten(index, order) + Get(index, v)
  {
    assert (order + [v])[..|order|] == order;
  }

  /** Appending a vertex not yet enumerated enumerates one more. */
  lemma EnumeratesStep(order: seq<int>, S: set<int>, v: int)
    requires Enumerates(order, S) && v !in S
    ensures Enumerates(order + [v], S + {v})
  {
    assert (set x | x in order + [v]) == (set x | x in order) + {v};
  }

  /** Adding the edge h to the dynamic index, one vertex at a time. */
  method IndexHyperEdge(index: map<int, seq<int>>, h: HyperEdge) returns (index': map<int, seq<int>>)
    ensures index' == IndexAdd(index, ShapeOf(h))
  {
    index' := IndexVertices(index, h.id, h.vertices);
  }

  /** The loop of IndexHyperEdge over the vertex set vs. */
  method IndexVertices(index: map<int, seq<int>>, id: int, vs: set<int>) returns (index': map<int, seq<int>>)
    ensures index' == IndexAdd(index, Shape(id, vs))
  {
    index' := index;
    ghost var done: set<int> := {};
    var rest := vs;
    while rest != {}
      invariant rest + done == vs && rest !! done
      invariant IndexedAs(index', index, id, done)
      decreases |rest|
    {
      var v := Pick(rest);
      IndexedStep(index', index, id, done, v);
      index' := index'[v := Get(index', v) + [id]];
      done := done + {v};
      rest := rest - {v};
    }
    IndexedAsAdd(index', index, id, vs);
  }

  /** Appending id under one more vertex v extends the pointwise description to v. */
  lemma IndexedStep(m: map<int, seq<int>>, index: map<int, seq<int>>, id: int, D: set<int>, v: int)
    requires IndexedAs(m, index, id, D) && v !in D
    ensures IndexedAs(m[v := Get(m, v) + [id]], index, id, D + {v})
  {
  }

  /** m holds index's lists, with id appended under each vertex of D: IndexAdd, stated pointwise. */
  ghost predicate IndexedAs(m: map<int, seq<int>>, index: map<int, seq<int>>, id: int, D: set<int>)
  {
    (forall v :: v in m <==> v in index || v in D) &&
    forall v :: v in m ==> m[v] == Get(index, v) + (if v in D then [id] else [])
  }

  lemma IndexedAsAdd(m: map<int, seq<int>>, index: map<int, seq<int>>, id: int, D: set<int>)
    requires IndexedAs(m, index, id, D)
    ensures m == IndexAdd(index, Shape(id, D))
  {
    assert IndexAdd(index, Shape(id, D)).Keys == index.Keys + D;
    assert forall v :: v in m.Keys <==> v in index.Keys + D;
  }

  /** The list stored under v after adding h: the old one, plus h's id when h contains v. */
  lemma GetIndexAdd(index: map<int, seq<int>>, h: Shape, v: int)
    ensures Get(IndexAdd(index, h), v) == Get(index, v) + (if v in h.vertices then [h.id] else [])
  {
  }

  /** How often o is listed under v: the number of hyperedges with id o that contain v. */
  lemma {:induction false} IndexCount(hs: seq<Shape>, v: int, o: int)
    ensures multiset(Get(IndexOf(hs), v))[o] == Shared(hs, o, {v})
  {
    if hs != [] {
      var init, h := hs[..|hs| - 1], hs[|hs| - 1];
      IndexCount(init, v, o);
      GetIndexAdd(IndexOf(init), h, v);
      if v in h.vertices {
        assert {v} * h.vertices == {v};
      } else {
        assert {v} * h.vertices == {};
      }
    }
  }

  /** Shared is additive in its vertex set. */
  lemma {:induction false} SharedSplit(hs: seq<Shape>, o: int, W: set<int>, v: int)
    requires v !in W
    ensures Shared(hs, o, W + {v}) == Shared(hs, o, W) + Shared(hs, o, {v})
  {
    if hs != [] {
      var h := hs[|hs| - 1];
      SharedSplit(hs[..|hs| - 1], o, W, v);
      assert (W + {v}) * h.vertices == W * h.vertices + {v} * h.vertices;
      assert W * h.vertices !! {v} * h.vertices;
    }
  }

  /** The counts of findEdges over the index of hs add up the overlaps with the visited vertices. */
  lemma {:induction false} FlattenCount(hs: seq<Shape>, order: seq<int>, W: set<int>, o: int)
    requires Enumerates(order, W)
    ensures multiset(Flatten(IndexOf(hs), order))[o] == Shared(hs, o, W)
  {
    if order == [] {
      assert W == {};
      SharedEmpty(hs, o);
    } else {
      var init, v := order[..|order| - 1], order[|order| - 1];
      var W0 := set x | x in init;
      assert W == W0 + {v} && v !in W0 by {
        assert forall x :: x in init ==> x in order;
        assert forall i :: 0 <= i < |init| ==> init[i] == order[i];
      }
      FlattenCount(hs, init, W0, o);
      IndexCount(hs, v, o);
      SharedSplit(hs, o, W0, v);
    }
  }

  lemma {:induction false} SharedEmpty(hs: seq<Shape>, o: int)
    ensures Shared(hs, o, {}) == 0
  {
    if hs != [] {
      SharedEmpty(hs[..|hs| - 1], o);
    }
  }

  /** The ids of the hyperedges. */
  function Ids(hs: seq<Shape>): set<int>
  {
    set i | 0 <= i < |hs| :: hs[i].id
  }

  /** The hyperedges have distinct ids. */
  ghost predicate DistinctIds(hs: seq<Shape>)
  {
    forall i, j :: 0 <= i < j < |hs| ==> hs[i].id != hs[j].id
  }

  /** With distinct ids, the weight for the id of hs[i] is its overlap with W. */
  lemma {:induction false} SharedOfId(hs: seq<Shape>, i: int, W: set<int>)
    requires DistinctIds(hs) && 0 <= i < |hs|
    ensures Shared(hs, hs[i].id, W) == |W * hs[i].vertices|
  {
    var init := hs[..|hs| - 1];
    if i == |hs| - 1 {
      SharedAbsent(init, hs[i].id, W);
    } else {
      SharedOfId(init, i, W);
    }
  }

  /** A positive weight for o comes from some hyperedge with id o. */
  lemma {:induction false} SharedCarrier(hs: seq<Shape>, o: int, W: set<int>) returns (i: int)
    requires Shared(hs, o, W) > 0
    ensures 0 <= i < |hs| && hs[i].id == o
  {
    var init := hs[..|hs| - 1];
    if Shared(init, o, W) > 0 {
      i := SharedCarrier(init, o, W);
    } else {
      i := |hs| - 1;
    }
  }

  /** An id that no hyperedge carries has weight 0. */
  lemma {:induction false} SharedAbsent(hs: seq<Shape>, o: int, W: set<int>)
    requires forall i :: 0 <= i < |hs| ==> hs[i].id != o
    ensures Shared(hs, o, W) == 0
  {
    if hs != [] {
      SharedAbsent(hs[..|hs| - 1], o, W);
    }
  }

  /**
   * What findEdges finds for the hyperedge e against the index of the
   * hyperedges hs added before it (ids distinct): one edge (e, o, k) per
   * hyperedge o other than e that shares k > 0 vertices with e, and no other.
   */
  lemma IndexWeights(hs: seq<Shape>, e: Shape, order: seq<int>, edges: seq<LabeledEdge>)
    requires DistinctIds(hs) && Enumerates(order, e.vertices)
    requires Found(e.id, Counts(e.id, Flatten(IndexOf(hs), order)), edges)
    ensures forall k :: 0 <= k < |edges| ==> edges[k].src == e.id && edges[k].dst != e.id && edges[k].weight > 0
    ensures forall k, i :: 0 <= k < |edges| && 0 <= i < |hs| && hs[i].id == edges[k].dst ==>
      edges[k].weight == |e.vertices * hs[i].vertices|
    ensures forall k :: 0 <= k < |edges| ==> edges[k].dst in Ids(hs)
    ensures forall i :: 0 <= i < |hs| && hs[i].id != e.id && e.vertices * hs[i].vertices != {} ==> hs[i].id in Dsts(edges)
  {
    forall k, i | 0 <= k < |edges| && 0 <= i < |hs| && hs[i].id == edges[k].dst
      ensures edges[k].weight == |e.vertices * hs[i].vertices|
    {
      EdgeWeight(hs, e, order, edges, k, i);
    }
    forall k | 0 <= k < |edges|
      ensures edges[k].dst in Ids(hs)
    {
      EdgeTarget(hs, e, order, edges, k);
    }
    forall i | 0 <= i < |hs| && hs[i].id != e.id && e.vertices * hs[i].vertices != {}
      ensures hs[i].id in Dsts(edges)
    {
      OverlapFound(hs, e, order, edges, i);
    }
  }

  /** The weight of a found edge is the overlap with the hyperedge it leads to. */
  lemma EdgeWeight(hs: seq<Shape>, e: Shape, order: seq<int>, edges: seq<LabeledEdge>, k: int, i: int)
    requires DistinctIds(hs) && Enumerates(order, e.vertices)
    requires Found(e.id, Counts(e.id, Flatten(IndexOf(hs), order)), edges)
    requires 0 <= k < |edges| && 0 <= i < |hs| && hs[i].id == edges[k].dst
    ensures edges[k].weight == |e.vertices * hs[i].vertices|
  {
    FlattenCount(hs, order, e.vertices, edges[k].dst);
    SharedOfId(hs, i, e.vertices);
  }

  /** A found edge leads to an indexed hyperedge. */
  lemma EdgeTarget(hs: seq<Shape>, e: Shape, order: seq<int>, edges: seq<LabeledEdge>, k: int)
    requires Enumerates(order, e.vertices)
    requires Found(e.id, Counts(e.id, Flatten(IndexOf(hs), order)), edges)
    requires 0 <= k < |edges|
    ensures edges[k].dst in Ids(hs)
  {
    var o := edges[k].dst;
    FlattenCount(hs, order, e.vertices, o);
    assert o in Flatten(IndexOf(hs), order);
    var i := SharedCarrier(hs, o, e.vertices);
  }

  /** Every indexed hyperedge other than e that meets e is found. */
  lemma OverlapFound(hs: seq<Shape>, e: Shape, order: seq<int>, edges: seq<LabeledEdge>, i: int)
    requires DistinctIds(hs) && Enumerates(order, e.vertices)
    requires Found(e.id, Counts(e.id, Flatten(IndexOf(hs), order)), edges)
    requires 0 <= i < |hs| && hs[i].id != e.id && e.vertices * hs[i].vertices != {}
    ensures hs[i].id in Dsts(edges)
  {
    var flat := Flatten(IndexOf(hs), order);
    FlattenCount(hs, order, e.vertices, hs[i].id);
    SharedOfId(hs, i, e.vertices);
    assert |e.vertices * hs[i].vertices| > 0;
    assert hs[i].id in multiset(flat);
  }

  // ---------------------------------------------------------------------
  // The adjacency map

  /** The adjacency after the entry x is appended to k's list. */
  function Append(adj: map<int, seq<(int, int)>>, k: int, x: (int, int)): map<int, seq<(int, int)>>
  {
    adj[k := Get(adj, k) + [x]]
  }

  /** The adjacency after the edge e is recorded at both of its endpoints. */
  function AddEdge(adj: map<int, seq<(int, int)>>, e: LabeledEdge): map<int, seq<(int, int)>>
  {
    Append(Append(adj, e.src, (e.dst, e.weight)), e.dst, (e.src, e.weight))
  }

  /** The adjacency after the edges have been recorded in order. */
  function VMap(adj: map<int, seq<(int, int)>>, edges: seq<LabeledEdge>): map<int, seq<(int, int)>>
  {
    if edges == [] then adj else AddEdge(VMap(adj, edges[..|edges| - 1]), edges[|edges| - 1])
  }

  /** Recording more edges only appends to each list. */
  lemma {:induction false} VMapGrows(adj: map<int, seq<(int, int)>>, edges: seq<LabeledEdge>, n: nat, k: int)
    requires n <= |edges|
    ensures Get(VMap(adj, edges[..n]), k) <= Get(VMap(adj, edges), k)
    decreases |edges| - n
  {
    if n < |edges| {
      var m, m' := VMap(adj, edges[..n]), VMap(adj, edges[..n + 1]);
      VMapGrows(adj, edges, n + 1, k);
      VMapLast(adj, edges, n);
      AddEdgeGrows(m, edges[n], k);
      PrefixTrans(Get(m, k), Get(m', k), Get(VMap(adj, edges), k));
    } else {
      assert edges[..n] == edges;
    }
  }

  /** Being a prefix is transitive. */
  lemma PrefixTrans<T>(a: seq<T>, b: seq<T>, c: seq<T>)
    requires a <= b && b <= c
    ensures a <= c
  {
    assert a == b[..|a|] && b == c[..|b|];
    assert c[..|b|][..|a|] == c[..|a|];
  }

  /** Recording the edges up to n + 1 is recording those up to n, then edge n. */
  lemma VMapLast(adj: map<int, seq<(int, int)>>, edges: seq<LabeledEdge>, n: nat)
    requires n < |edges|
    ensures VMap(adj, edges[..n + 1]) == AddEdge(VMap(adj, edges[..n]), edges[n])
  {
    assert edges[..n + 1][..n] == edges[..n];
  }

  /** Recording one edge only appends to each list. */
  lemma AddEdgeGrows(adj: map<int, seq<(int, int)>>, e: LabeledEdge, k: int)
    ensures Get(adj, k) <= Get(AddEdge(adj, e), k)
  {
  }

  /** initializeVMap records every edge in both endpoints' lists, with its weight. */
  lemma VMapRecordsBothEnds(adj: map<int, seq<(int, int)>>, edges: seq<LabeledEdge>, i: int)
    requires 0 <= i < |edges|
    ensures (edges[i].dst, edges[i].weight) in Get(VMap(adj, edges), edges[i].src)
    ensures (edges[i].src, edges[i].weight) in Get(VMap(adj, edges), edges[i].dst)
  {
    var e := edges[i];
    assert edges[..i + 1][..i] == edges[..i];
    VMapGrows(adj, edges, i + 1, e.src);
    VMapGrows(adj, edges, i + 1, e.dst);
  }

  /** Every entry of a list built from the empty map comes from one of the edges, seen from that endpoint. */
  lemma {:induction false} VMapSource(edges: seq<LabeledEdge>, k: int, x: (int, int)) returns (i: int)
    requires x in Get(VMap(map[], edges), k)
    ensures 0 <= i < |edges|
    ensures (edges[i].src == k && x == (edges[i].dst, edges[i].weight)) || (edges[i].dst == k && x == (edges[i].src, edges[i].weight))
  {
    var init, e := edges[..|edges| - 1], edges[|edges| - 1];
    var m := VMap(map[], init);
    var m1 := Append(m, e.src, (e.dst, e.weight));
    if k == e.dst && x == (e.src, e.weight) {
      i := |edges| - 1;
    } else if k == e.src && x == (e.dst, e.weight) {
      i := |edges| - 1;
    } else {
      assert x in Get(m1, k);
      assert x in Get(m, k);
      i := VMapSource(init, k, x);
    }
  }

  /** The adjacency built from a list of edges is symmetric: every entry is mirrored at the other end. */
  lemma VMapSymmetric(edges: seq<LabeledEdge>, k: int, x: (int, int))
    requires x in Get(VMap(map[], edges), k)
    ensures (k, x.1) in Get(VMap(map[], edges), x.0)
  {
    var i := VMapSource(edges, k, x);
    VMapRecordsBothEnds(map[], edges, i);
  }

  /** The edges in `parts`, one list after the other. */
  function Concat(parts: seq<seq<LabeledEdge>>): seq<LabeledEdge>
  {
    if parts == [] then [] else Concat(parts[..|parts| - 1]) + parts[|parts| - 1]
  }

  /** The unordered endpoint pair of an adjacency entry, as (smaller, larger). */
  function Unordered(a: int, b: int): (int, int)
  {
    (Min(a, b), Max(a, b))
  }

  /** The distinct unordered pairs (key, neighbour) over all adjacency entries (getNumEdges). */
  function PairsOf(adj: map<int, seq<(int, int)>>): set<(int, int)>
  {
    set k, j | k in adj.Keys && 0 <= j < |adj[k]| :: Unordered(k, adj[k][j].0)
  }

  lemma PairsAppend(adj: map<int, seq<(int, int)>>, k: int, x: (int, int))
    ensures PairsOf(Append(adj, k, x)) == PairsOf(adj) + {Unordered(k, x.0)}
  {
    var adj' := Append(adj, k, x);
    forall p | p in PairsOf(adj')
      ensures p in PairsOf(adj) + {Unordered(k, x.0)}
    {
      var k', j :| k' in adj'.Keys && 0 <= j < |adj'[k']| && p == Unordered(k', adj'[k'][j].0);
      if k' == k && j == |Get(adj, k)| {
      } else if k' == k {
        assert adj'[k'][j] == adj[k][j];
      } else {
        assert adj'[k'] == adj[k'];
      }
    }
    forall p | p in PairsOf(adj) + {Unordered(k, x.0)}
      ensures p in PairsOf(adj')
    {
      if p == Unordered(k, x.0) {
        var j := |Get(adj, k)|;
        assert adj'[k][j] == x;
      } else {
        var k', j :| k' in adj.Keys && 0 <= j < |adj[k']| && p == Unordered(k', adj[k'][j].0);
        assert adj'[k'][j] == adj[k'][j];
      }
    }
  }

  /** getNumEdges over an adjacency built from edges counts their distinct unordered endpoint pairs. */
  lemma {:induction false} PairsOfVMap(edges: seq<LabeledEdge>)
    ensures PairsOf(VMap(map[], edges)) == set i | 0 <= i < |edges| :: Unordered(edges[i].src, edges[i].dst)
  {
    if edges == [] {
    } else {
      var init, e := edges[..|edges| - 1], edges[|edges| - 1];
      PairsOfVMap(init);
      var m := VMap(map[], init);
      PairsAppend(m, e.src, (e.dst, e.weight));
      PairsAppend(Append(m, e.src, (e.dst, e.weight)), e.dst, (e.src, e.weight));
      assert Unordered(e.dst, e.src) == Unordered(e.src, e.dst);
      PairsLast(edges, init, e);
    }
  }

  /** The endpoint pairs of a list are those of all but its last edge, plus the last edge's. */
  lemma PairsLast(edges: seq<LabeledEdge>, init: seq<LabeledEdge>, e: LabeledEdge)
    requires edges == init + [e]
    ensures (set i | 0 <= i < |edges| :: Unordered(edges[i].src, edges[i].dst)) ==
            (set i | 0 <= i < |init| :: Unordered(init[i].src, init[i].dst)) + {Unordered(e.src, e.dst)}
  {
    var S := set i | 0 <= i < |edges| :: Unordered(edges[i].src, edges[i].dst);
    var S0 := set i | 0 <= i < |init| :: Unordered(init[i].src, init[i].dst);
    forall p | p in S ensures p in S0 + {Unordered(e.src, e.dst)} {
      var i :| 0 <= i < |edges| && p == Unordered(edges[i].src, edges[i].dst);
      if i < |init| {
        assert init[i] == edges[i];
      }
    }
    forall p | p in S0 ensures p in S {
      var i :| 0 <= i < |init| && p == Unordered(init[i].src, init[i].dst);
      assert init[i] == edges[i];
    }
    assert Unordered(edges[|edges| - 1].src, edges[|edges| - 1].dst) in S;
  }

  // ---------------------------------------------------------------------
  // Nodes

  /** The nodes whose label (size) is at least s, in their order. */
  function Kept(ns: seq<LabeledNode>, s: int): (r: seq<LabeledNode>)
    reads ns
    ensures |r| <= |ns|
    ensures forall i :: 0 <= i < |r| ==> r[i] in ns && r[i].size >= s
    ensures forall i :: 0 <= i < |ns| && ns[i].size >= s ==> ns[i] in r
  {
    if ns == [] then []
    else Kept(ns[..|ns| - 1], s) + (if ns[|ns| - 1].size >= s then [ns[|ns| - 1]] else [])
  }

  /** The indices of the nodes, in order. */
  function Indices(ns: seq<LabeledNode>): (r: seq<int>)
    reads ns
  {
    seq(|ns|, i reads ns requires 0 <= i < |ns| => ns[i].index)
  }

  /** The adjacency entries of weight at least s. */
  function Heavy(l: seq<(int, int)>, s: int): seq<(int, int)>
  {
    Filter(l, (x: (int, int)) => x.1 >= s)
  }

  /** The nodes are labelled after the hyperedges, position by position: index = id, size = number of vertices. */
  ghost predicate Labelled(ns: seq<LabeledNode>, hs: seq<HyperEdge>)
    reads ns
  {
    |ns| == |hs| && forall i :: 0 <= i < |ns| ==> ns[i].index == hs[i].id && ns[i].size == |hs[i].vertices|
  }

  /** After k rounds of initialize: the index of the first k hyperedges, and what was found for each. */
  ghost predicate Scanned(hyperedges: seq<HyperEdge>, k: int, index: map<int, seq<int>>,
                          found: seq<seq<LabeledEdge>>, used: seq<seq<int>>, edges: seq<LabeledEdge>)
  {
    0 <= k <= |hyperedges| && index == IndexOf(Shapes(hyperedges)[..k]) &&
    BuiltUpTo(Shapes(hyperedges), found, used, k) && edges == Concat(found)
  }

  lemma ScannedStart(hyperedges: seq<HyperEdge>)
    ensures Scanned(hyperedges, 0, map[], [], [], [])
  {
    assert Shapes(hyperedges)[..0] == [];
  }

  lemma ScannedEnd(hyperedges: seq<HyperEdge>, index: map<int, seq<int>>,
                   found: seq<seq<LabeledEdge>>, used: seq<seq<int>>, edges: seq<LabeledEdge>)
    requires Scanned(hyperedges, |hyperedges|, index, found, used, edges)
    ensures Built(Shapes(hyperedges), found, used) && edges == Concat(found)
  {
  }

  lemma ScannedStep(hyperedges: seq<HyperEdge>, k: int, index: map<int, seq<int>>,
                    found: seq<seq<LabeledEdge>>, used: seq<seq<int>>, edges: seq<LabeledEdge>,
                    part: seq<LabeledEdge>, order: seq<int>)
    requires Scanned(hyperedges, k, index, found, used, edges) && k < |hyperedges|
    requires Enumerates(order, hyperedges[k].vertices)
    requires Found(hyperedges[k].id, Counts(hyperedges[k].id, Flatten(index, order)), part)
    ensures Scanned(hyperedges, k + 1, IndexAdd(index, ShapeOf(hyperedges[k])), found + [part], used + [order], edges + part)
  {
    var hs := Shapes(hyperedges);
    assert hs[..k + 1][..k] == hs[..k] && hs[k] == ShapeOf(hyperedges[k]);
    assert (found + [part])[..|found|] == found;
    BuiltStep(hs, found, used, k, part, order);
  }

  /**
   * The rest of one round of initialize's loop for hyperedges[k]: its edges
   * are found against the index of the earlier hyperedges, and it is indexed.
   */
  method ScanHyperEdge(hyperedges: seq<HyperEdge>, k: int, index: map<int, seq<int>>, edges: seq<LabeledEdge>,
                       ghost found: seq<seq<LabeledEdge>>, ghost used: seq<seq<int>>)
    returns (index': map<int, seq<int>>, edges': seq<LabeledEdge>, ghost found': seq<seq<LabeledEdge>>, ghost used': seq<seq<int>>)
    requires k < |hyperedges| && Scanned(hyperedges, k, index, found, used, edges)
    ensures Scanned(hyperedges, k + 1, index', found', used', edges')
  {
    var h := hyperedges[k];
    var part;
    ghost var order;
    part, order := FindEdges(h, index);
    index' := IndexHyperEdge(index, h);
    ScannedStep(hyperedges, k, index, found, used, edges, part, order);
    edges', found', used' := edges + part, found + [part], used + [order];
  }

  /** The first k nodes are labelled after the first k hyperedges. */
  ghost predicate LabelledUpTo(ns: seq<LabeledNode>, hs: seq<HyperEdge>, k: int)
    reads ns
  {
    |ns| == k <= |hs| && forall i :: 0 <= i < k ==> ns[i].index == hs[i].id && ns[i].size == |hs[i].vertices|
  }

  lemma LabelledStep(ns: seq<LabeledNode>, node: LabeledNode, hs: seq<HyperEdge>, k: int)
    requires LabelledUpTo(ns, hs, k) && k < |hs|
    requires node.index == hs[k].id && node.size == |hs[k].vertices|
    ensures LabelledUpTo(ns + [node], hs, k + 1)
  {
  }

  /** The projected adjacency: for each listed key, its entries of weight at least s. */
  method ProjectAdj(adj: map<int, seq<(int, int)>>, ks: seq<int>, s: int) returns (m: map<int, seq<(int, int)>>)
    ensures m.Keys == set x | x in ks
    ensures forall k :: k in m ==> m[k] == Heavy(Get(adj, k), s)
  {
    m := map[];
    for i := 0 to |ks|
      invariant m.Keys == set x | x in ks[..i]
      invariant forall k :: k in m ==> m[k] == Heavy(Get(adj, k), s)
    {
      assert ks[..i + 1] == ks[..i] + [ks[i]];
      m := m[ks[i] := Heavy(Get(adj, ks[i]), s)];
    }
    assert ks[..|ks|] == ks;
  }

  class LineGraph {
    var nodes: seq<LabeledNode>
    /** Node index -> (neighbour index, weight) entries. */
    var adj: map<int, seq<(int, int)>>
    /** The cached number of edges, -1 until computed. */
    var numEdges: int
    /** The edges found for each hyperedge while the graph was built, and the vertex orders used. */
    ghost var parts: seq<seq<LabeledEdge>>
    ghost var orders: seq<seq<int>>

    /**
     * Builds the line graph of the hyperedges: one node per hyperedge in
     * input order, and the adjacency of the edges found by Initialize.
     */
    constructor (hyperedges: seq<HyperEdge>)
      ensures numEdges == -1
      ensures Labelled(nodes, hyperedges)
      ensures Built(Shapes(hyperedges), parts, orders) && adj == VMap(map[], Concat(parts))
    {
      nodes := [];
      adj := map[];
      numEdges := -1;
      new;
      ghost var added, ps, os := Initialize(hyperedges);
      parts, orders := ps, os;
      assert nodes == added;
    }

    /** A line graph with the given nodes and adjacency, edge count not yet computed. */
    constructor FromParts(nodes: seq<LabeledNode>, adj: map<int, seq<(int, int)>>)
      ensures this.nodes == nodes && this.adj == adj && numEdges == -1
    {
      this.nodes := nodes;
      this.adj := adj;
      numEdges := -1;
    }

    /**
     * initialize: for each hyperedge in order, adds its node, finds its
     * edges against the index of the hyperedges before it, and indexes it;
     * then records all edges found in the adjacency.
     */
    method Initialize(hyperedges: seq<HyperEdge>) returns (ghost added: seq<LabeledNode>, ghost found: seq<seq<LabeledEdge>>, ghost used: seq<seq<int>>)
      modifies this`nodes, this`adj
      ensures nodes == old(nodes) + added && Labelled(added, hyperedges)
      ensures Built(Shapes(hyperedges), found, used)
      ensures adj == VMap(old(adj), Concat(found))
    {
      var edges;
      edges, added, found, used := AddNodesAndFindEdges(hyperedges);
      InitializeVMap(edges);
    }

    /** The loop of initialize: nodes appended, edges found, index grown, hyperedge by hyperedge. */
    method AddNodesAndFindEdges(hyperedges: seq<HyperEdge>)
      returns (edges: seq<LabeledEdge>, ghost made: seq<LabeledNode>, ghost found: seq<seq<LabeledEdge>>, ghost used: seq<seq<int>>)
      modifies this`nodes
      ensures nodes == old(nodes) + made && Labelled(made, hyperedges)
      ensures Built(Shapes(hyperedges), found, used) && edges == Concat(found)
    {
      made := [];
      var index: map<int, seq<int>> := map[];
      edges, found, used := [], [], [];
      ScannedStart(hyperedges);
      for k := 0 to |hyperedges|
        invariant nodes == old(nodes) + made && LabelledUpTo(made, hyperedges, k)
        invariant Scanned(hyperedges, k, index, found, used, edges)
      {
        index, edges, found, used, made := Round(hyperedges, k, index, edges, found, used, old(nodes), made);
      }
      ScannedEnd(hyperedges, index, found, used, edges);
    }

    /** One round of initialize's loop: the node of hyperedges[k], then its edges and its indexing. */
    method Round(hyperedges: seq<HyperEdge>, k: int, index: map<int, seq<int>>, edges: seq<LabeledEdge>,
                 ghost found: seq<seq<LabeledEdge>>, ghost used: seq<seq<int>>, ghost base: seq<LabeledNode>, ghost made: seq<LabeledNode>)
      returns (index': map<int, seq<int>>, edges': seq<LabeledEdge>, ghost found': seq<seq<LabeledEdge>>, ghost used': seq<seq<int>>, ghost made': seq<LabeledNode>)
      modifies this`nodes
      requires k < |hyperedges| && Scanned(hyperedges, k, index, found, used, edges)
      requires nodes == base + made && LabelledUpTo(made, hyperedges, k)
      ensures Scanned(hyperedges, k + 1, index', found', used', edges')
      ensures nodes == base + made' && LabelledUpTo(made', hyperedges, k + 1)
    {
      index', edges', found', used' := ScanHyperEdge(hyperedges, k, index, edges, found, used);
      var node := AddNode(hyperedges[k]);
      made' := made + [node];
      LabelledStep(made, node, hyperedges, k);
    }

    /** Appends the node of hyperedge h: index its id, size its number of vertices. */
    method AddNode(h: HyperEdge) returns (node: LabeledNode)
      modifies this`nodes
      ensures nodes == old(nodes) + [node] && node.index == h.id && node.size == |h.vertices|
    {
      node := new LabeledNode(h.id, h.GetNumVertices());
      nodes := nodes + [node];
    }

    /** initializeVMap: records every edge at both endpoints, in list order. */
    method InitializeVMap(edges: seq<LabeledEdge>)
      modifies this`adj
      ensures adj == VMap(old(adj), edges)
    {
      for i := 0 to |edges|
        invariant adj == VMap(old(adj), edges[..i])
      {
        var e := edges[i];
        assert edges[..i + 1][..i] == edges[..i];
        adj := adj[e.src := Get(adj, e.src) + [(e.dst, e.weight)]];
        adj := adj[e.dst := Get(adj, e.dst) + [(e.src, e.weight)]];
      }
      assert edges[..|edges|] == edges;
    }

    /** setNodes: new nodes and an empty adjacency; the cached edge count is kept. */
    method SetNodes(ns: seq<LabeledNode>)
      modifies this
      ensures nodes == ns && adj == map[] && numEdges == old(numEdges)
    {
      nodes := ns;
      adj := map[];
    }

    /** The cached edge count is either unset or the count of the current adjacency. */
    ghost predicate CacheSound()
      reads this
    {
      numEdges == -1 || numEdges == |PairsOf(adj)|
    }

    /**
     * getNumEdges: the number of distinct unordered pairs over all adjacency
     * entries, computed on the first call and cached.
     */
    method GetNumEdges() returns (r: int)
      modifies this`numEdges
      ensures old(numEdges) != -1 ==> r == old(numEdges) && numEdges == old(numEdges)
      ensures old(numEdges) == -1 ==> r == |PairsOf(adj)| && numEdges == r
      ensures CacheSound() ==> r == |PairsOf(adj)|
    {
      if numEdges == -1 {
        numEdges := |PairsOf(adj)|;
      }
      r := numEdges;
    }

    function NumberOfNodes(): nat
      reads this
    {
      |nodes|
    }

    /** getNodeLabel: the size label of the node at a position of the list. */
    function GetNodeLabel(node: int): int
      reads this, nodes
      requires 0 <= node < |nodes|
    {
      nodes[node].size
    }

    /** getNeighbours: the entries stored for a node, empty for an unknown node. */
    function GetNeighbours(node: int): seq<(int, int)>
      reads this
    {
      Get(adj, node)
    }

    /** getNodeIDs: the indices of all nodes. */
    function GetNodeIDs(): (r: set<int>)
      reads this, nodes
      ensures forall i :: 0 <= i < |nodes| ==> nodes[i].index in r
      ensures forall x :: x in r ==> exists i :: 0 <= i < |nodes| && nodes[i].index == x
    {
      set n | n in nodes :: n.index
    }

    /**
     * getProjection: a new line graph holding the same node objects of label
     * at least s, and for each of them its adjacency entries of weight at least s.
     */
    method GetProjection(s: int) returns (g: LineGraph)
      ensures fresh(g) && g.numEdges == -1
      ensures g.nodes == Kept(nodes, s)
      ensures g.adj.Keys == set x | x in Indices(Kept(nodes, s))
      ensures forall k :: k in g.adj ==> g.adj[k] == Heavy(Get(adj, k), s)
    {
      var sNodes := Kept(nodes, s);
      var ks := Indices(sNodes);
      var sEdges := ProjectAdj(adj, ks, s);
      g := new LineGraph.FromParts(sNodes, sEdges);
      assert Kept(nodes, s) == sNodes && Indices(sNodes) == ks;
    }
  }

  /** For every k < n, parts[k] is what findEdges finds for hs[k] against the index of hs[..k]. */
  ghost predicate BuiltUpTo(hs: seq<Shape>, parts: seq<seq<LabeledEdge>>, orders: seq<seq<int>>, n: int)
  {
    0 <= n <= |hs| && |parts| == n && |orders| == n &&
    forall k :: 0 <= k < n ==> FoundAt(hs, k, orders[k], parts[k])
  }

  /** `part` is what findEdges finds for hs[k], visiting its vertices in `order`, against the index of hs[..k]. */
  ghost predicate FoundAt(hs: seq<Shape>, k: int, order: seq<int>, part: seq<LabeledEdge>)
    requires 0 <= k < |hs|
  {
    Enumerates(order, hs[k].vertices) &&
    Found(hs[k].id, Counts(hs[k].id, Flatten(IndexOf(hs[..k]), order)), part)
  }

  ghost predicate Built(hs: seq<Shape>, parts: seq<seq<LabeledEdge>>, orders: seq<seq<int>>)
  {
    BuiltUpTo(hs, parts, orders, |hs|)
  }

  lemma BuiltStep(hs: seq<Shape>, parts: seq<seq<LabeledEdge>>, orders: seq<seq<int>>, k: int,
                  found: seq<LabeledEdge>, order: seq<int>)
    requires BuiltUpTo(hs, parts, orders, k) && k < |hs|
    requires Enumerates(order, hs[k].vertices)
    requires Found(hs[k].id, Counts(hs[k].id, Flatten(IndexOf(hs[..k]), order)), found)
    ensures BuiltUpTo(hs, parts + [found], orders + [order], k + 1)
  {
  }

  /**
   * The edges a line graph is built from: with distinct ids, the part found
   * for hyperedge k holds one edge (k's id, i's id, |V_k ∩ V_i|) for every
   * earlier hyperedge i that shares a vertex with it, and no other edge.
   */
  lemma BuiltEdgesAreOverlaps(hs: seq<Shape>, parts: seq<seq<LabeledEdge>>, orders: seq<seq<int>>, k: int)
    requires Built(hs, parts, orders) && DistinctIds(hs) && 0 <= k < |hs|
    ensures forall j :: 0 <= j < |parts[k]| ==>
      parts[k][j].src == hs[k].id && parts[k][j].weight > 0 &&
      exists i :: 0 <= i < k && hs[i].id == parts[k][j].dst && parts[k][j].weight == |hs[k].vertices * hs[i].vertices|
    ensures forall i :: 0 <= i < k && hs[k].vertices * hs[i].vertices != {} ==> hs[i].id in Dsts(parts[k])
  {
    var pre := hs[..k];
    assert DistinctIds(pre);
    IndexWeights(pre, hs[k], orders[k], parts[k]);
    forall j | 0 <= j < |parts[k]|
      ensures exists i :: 0 <= i < k && hs[i].id == parts[k][j].dst && parts[k][j].weight == |hs[k].vertices * hs[i].vertices|
    {
      assert parts[k][j].dst in Ids(pre);
      var i :| 0 <= i < |pre| && pre[i].id == parts[k][j].dst;
      assert pre[i] == hs[i];
    }
    forall i | 0 <= i < k && hs[k].vertices * hs[i].vertices != {}
      ensures hs[i].id in Dsts(parts[k])
    {
      assert pre[i] == hs[i] && hs[i].id != hs[k].id;
    }
  }

  // ---------------------------------------------------------------------
  // The lists as the source shares them

  /**
   * The dynamic index as written: the map's default value is one mutable
   * list, which `get` returns for a missing key and which is then stored
   * under it, so every key holds that same list. The state is the set of
   * keys and the contents of the shared list.
   */
  datatype SharedLists<T> = SharedLists(keys: set<int>, shared: seq<T>)

  /** Appending x to the list "of" k: the shared list grows and k becomes a key. */
  function SharedAppend<T>(m: SharedLists<T>, k: int, x: T): SharedLists<T>
  {
    SharedLists(m.keys + {k}, m.shared + [x])
  }

  /** getOrDefault(v, new empty list) on the written index. */
  function SharedGetOrEmpty<T>(m: SharedLists<T>, k: int): seq<T>
  {
    if k in m.keys then m.shared else []
  }

  /** The written index after hyperedges with the given ids and vertex lists are added. */
  function WrittenIndex(hs: seq<(int, seq<int>)>): SharedLists<int>
  {
    if hs == [] then SharedLists({}, [])
    else WrittenAdd(WrittenIndex(hs[..|hs| - 1]), hs[|hs| - 1].0, hs[|hs| - 1].1)
  }

  function WrittenAdd(m: SharedLists<int>, id: int, vs: seq<int>): SharedLists<int>
  {
    if vs == [] then m else SharedAppend(WrittenAdd(m, id, vs[..|vs| - 1]), vs[|vs| - 1], id)
  }

  /**
   * Hyperedge 0 = {1} and hyperedge 1 = {2} share no vertex, yet in the
   * written index vertex 1 lists both, so findEdges for a later hyperedge
   * {1} counts an overlap with hyperedge 1 as well. The intended index lists
   * only hyperedge 0 under vertex 1.
   */
  lemma WrittenIndexAliases()
    ensures SharedGetOrEmpty(WrittenIndex([(0, [1]), (1, [2])]), 1) == [0, 1]
    ensures Get(IndexOf([Shape(0, {1}), Shape(1, {2})]), 1) == [0]
    ensures Counts(2, SharedGetOrEmpty(WrittenIndex([(0, [1]), (1, [2])]), 1)) == map[0 := 1, 1 := 1]
    ensures Counts(2, Get(IndexOf([Shape(0, {1}), Shape(1, {2})]), 1)) == map[0 := 1]
  {
    WrittenTwo();
    IntendedTwo();
    CountsOfTwo();
    CountsOfOne();
  }

  /** The written index of hyperedges 0 = {1} and 1 = {2}: vertex 1 sees the shared list [0, 1]. */
  lemma WrittenTwo()
    ensures SharedGetOrEmpty(WrittenIndex([(0, [1]), (1, [2])]), 1) == [0, 1]
  {
    var w := [(0, [1]), (1, [2])];
    assert w[..1] == [(0, [1])];
    assert WrittenIndex(w[..1]) == SharedLists({1}, [0]);
  }

  /** The intended index of hyperedges 0 = {1} and 1 = {2}: vertex 1 lists hyperedge 0 alone. */
  lemma IntendedTwo()
    ensures Get(IndexOf([Shape(0, {1}), Shape(1, {2})]), 1) == [0]
  {
    var hs := [Shape(0, {1}), Shape(1, {2})];
    assert hs[..1] == [Shape(0, {1})];
    GetIndexAdd(map[], hs[0], 1);
    GetIndexAdd(IndexOf(hs[..1]), hs[1], 1);
  }

  /** Hyperedge 1 meeting hyperedge 0 once. */
  lemma CountsOfOne()
    ensures Counts(2, [0]) == map[0 := 1]
  {
    var c := Counts(2, [0]);
    assert c.Keys == {0};
  }

  /** Hyperedge 2 meeting hyperedges 0 and 1 once each. */
  lemma CountsOfTwo()
    ensures Counts(2, [0, 1]) == map[0 := 1, 1 := 1]
  {
    var c := Counts(2, [0, 1]);
    var m := multiset([0, 1]);
    assert m == multiset{0} + multiset{1};
    assert m[0] == 1 && m[1] == 1;
    assert c.Keys == {0, 1};
    assert c[0] == 1 && c[1] == 1;
  }

  /** `get` on a written map: the shared list, whether or not k is a key. */
  function SharedGet<T>(m: SharedLists<T>, k: int): seq<T>
  {
    m.shared
  }

  /** The written adjacency after initializeVMap records the edges in order. */
  function WrittenVMap(edges: seq<LabeledEdge>): SharedLists<(int, int)>
  {
    if edges == [] then SharedLists({}, [])
    else
      var e := edges[|edges| - 1];
      SharedAppend(SharedAppend(WrittenVMap(edges[..|edges| - 1]), e.src, (e.dst, e.weight)), e.dst, (e.src, e.weight))
  }

  /**
   * The adjacency as written (the constructor installs one shared default
   * list): after the single edge (0, 1, 1), node 0 lists itself as a
   * neighbour, and the unrelated node 7 lists both endpoints; intended,
   * node 0 has the one neighbour 1 and node 7 none.
   */
  lemma WrittenAdjacencyAliases()
    ensures SharedGet(WrittenVMap([LabeledEdge(0, 1, 1)]), 0) == [(1, 1), (0, 1)]
    ensures SharedGet(WrittenVMap([LabeledEdge(0, 1, 1)]), 7) == [(1, 1), (0, 1)]
    ensures Get(VMap(map[], [LabeledEdge(0, 1, 1)]), 0) == [(1, 1)]
    ensures Get(VMap(map[], [LabeledEdge(0, 1, 1)]), 7) == []
  {
    assert [LabeledEdge(0, 1, 1)][..0] == [];
  }
}
