/**
 * The vertex index that findConnectedComponents keeps across its levels:
 * for every vertex, the hyperedges holding it among those already added
 * (the `mask`), re-sorted by decreasing size at every level.
 */
module LevelIndex {
  import opened Wrappers
  import opened HyperGraphs
  import opened SConnectivity

  /** The sort key of a hyperedge id: its number of vertices (`getNumVerticesOf`). */
  function SizeKey(g: HyperGraph): int -> int
  {
    e => if g.IsEdge(e) then g.hyperedges[e].size else 0
  }

  /**
   * The mask at the start of level s of a sweep that began at level top:
   * the hyperedges added at the levels above, those kept at level s + 1.
   */
  ghost predicate MaskAt(g: HyperGraph, mask: set<int>, s: int, top: int)
  {
    forall e :: e in mask <==> g.IsEdge(e) && s < top && g.InView(e, s + 1)
  }

  /**
   * The index lists, for every vertex, exactly the masked hyperedges
   * holding it, hyperedges of equal size in increasing id order.
   */
  ghost predicate IndexOf(g: HyperGraph, vIndex: map<int, seq<int>>, mask: set<int>)
  {
    (forall v, e :: v in vIndex && e in vIndex[v] ==> e in mask && g.IsEdge(e) && v in g.V(e)) &&
    (forall e, v :: e in mask && g.IsEdge(e) && v in g.V(e) ==> v in vIndex && e in vIndex[v]) &&
    (forall v :: v in vIndex ==> TiesInOrder(vIndex[v], SizeKey(g)))
  }

  /** While hyperedge e is being added: its vertices in extra already list it. */
  ghost predicate IndexingEdge(g: HyperGraph, vIndex: map<int, seq<int>>, mask: set<int>, e: int, extra: set<int>)
  {
    (forall v, x :: v in vIndex && x in vIndex[v] ==>
      g.IsEdge(x) && v in g.V(x) && (x in mask || (x == e && v in extra))) &&
    (forall x, v :: x in mask && g.IsEdge(x) && v in g.V(x) ==> v in vIndex && x in vIndex[v]) &&
    (forall v :: v in extra ==> v in vIndex && e in vIndex[v]) &&
    (forall v :: v in vIndex ==> TiesInOrder(vIndex[v], SizeKey(g)))
  }

  /** Appending x keeps ties in order when no earlier entry of x's key is above x. */
  lemma AppendTies(l: seq<int>, x: int, key: int -> int)
    requires TiesInOrder(l, key)
    requires forall y :: y in l && key(y) == key(x) ==> y < x
    ensures TiesInOrder(l + [x], key)
  {
    var m := l + [x];
    forall a, b | 0 <= a < b < |m| && key(m[a]) == key(m[b])
      ensures m[a] < m[b]
    {
      if b == |l| {
        assert m[a] == l[a] && l[a] in l;
      } else {
        assert m[a] == l[a] && m[b] == l[b];
      }
    }
  }

  /**
   * Adds the unmasked hyperedge e to the list of each of its vertices
   * (`tmpList.add(e)` for every vertex) and masks it (`mask.set(e)`).
   */
  method AddEdge(g: HyperGraph, vIndex: map<int, seq<int>>, mask: set<int>, e: int)
    returns (vIndex': map<int, seq<int>>, mask': set<int>)
    requires g.IsEdge(e) && e !in mask && IndexOf(g, vIndex, mask)
    requires forall x :: x in mask && SizeKey(g)(x) == SizeKey(g)(e) ==> x < e
    ensures mask' == mask + {e} && IndexOf(g, vIndex', mask')
  {
    vIndex' := vIndex;
    var rest := g.hyperedges[e].vertices;
    ghost var added: set<int> := {};
    IndexingStart(g, vIndex, mask, e);
    while rest != {}
      invariant added + rest == g.V(e) && added !! rest
      invariant IndexingEdge(g, vIndex', mask, e, added)
      decreases rest
    {
      var v := Pick(rest);
      var tmpList := if v in vIndex' then vIndex'[v] else [];
      IndexingStep(g, vIndex', mask, e, added, v);
      vIndex' := vIndex'[v := tmpList + [e]];
      rest := rest - {v};
      added := added + {v};
    }
    mask' := mask + {e};
    IndexingDone(g, vIndex', mask, e);
  }

  lemma IndexingStart(g: HyperGraph, vIndex: map<int, seq<int>>, mask: set<int>, e: int)
    requires e !in mask && IndexOf(g, vIndex, mask)
    ensures IndexingEdge(g, vIndex, mask, e, {})
  {
  }

  /** Once every vertex of e lists it, e is masked. */
  lemma IndexingDone(g: HyperGraph, vIndex: map<int, seq<int>>, mask: set<int>, e: int)
    requires g.IsEdge(e) && IndexingEdge(g, vIndex, mask, e, g.V(e))
    ensures IndexOf(g, vIndex, mask + {e})
  {
  }

  /** Appending e to the list of one more of its vertices. */
  lemma IndexingStep(g: HyperGraph, vIndex: map<int, seq<int>>, mask: set<int>, e: int, extra: set<int>, v: int)
    requires g.IsEdge(e) && e !in mask && v in g.V(e) && v !in extra
    requires forall x :: x in mask && SizeKey(g)(x) == SizeKey(g)(e) ==> x < e
    requires IndexingEdge(g, vIndex, mask, e, extra)
    ensures IndexingEdge(g, vIndex[v := (if v in vIndex then vIndex[v] else []) + [e]], mask, e, extra + {v})
  {
    var tmpList := if v in vIndex then vIndex[v] else [];
    forall y | y in tmpList && SizeKey(g)(y) == SizeKey(g)(e)
      ensures y < e
    {
    }
    AppendTies(tmpList, e, SizeKey(g));
  }

  /**
   * The index update of level s (`sEdgeView.stream().filter(!mask.get(e))`):
   * every hyperedge of the level not yet masked is added, in list order.
   * Afterwards the mask holds exactly the hyperedges kept at level s.
   */
  method AddToIndex(g: HyperGraph, s: int, top: int, view: seq<int>, vIndex: map<int, seq<int>>, mask: set<int>)
    returns (vIndex': map<int, seq<int>>, mask': set<int>)
    requires g.WellIndexed() && s >= 1 && view == g.GetEdgesWithMinSize(s)
    requires MaskAt(g, mask, s, top) && IndexOf(g, vIndex, mask)
    ensures IndexOf(g, vIndex', mask')
    ensures forall e :: e in mask' <==> g.IsEdge(e) && g.InView(e, s)
  {
    vIndex', mask' := vIndex, mask;
    var i := 0;
    while i < |view|
      invariant i <= |view| && Adding(g, view, mask, vIndex', mask', i)
    {
      vIndex', mask', i := AddAt(g, s, top, view, vIndex, mask, vIndex', mask', i);
    }
    forall e | g.IsEdge(e) && g.InView(e, s)
      ensures e in mask'
    {
      var k :| 0 <= k < |view| && view[k] == e;
    }
  }

  /** The state of AddToIndex after the first i hyperedges of the view. */
  ghost predicate Adding(g: HyperGraph, view: seq<int>, mask: set<int>, vIndex': map<int, seq<int>>, mask': set<int>, i: int)
  {
    && IndexOf(g, vIndex', mask') && mask <= mask'
    && (forall e :: e in mask' ==> e in mask || (e in view && (0 <= i < |view| ==> e < view[i])))
    && (forall k :: 0 <= k < i <= |view| ==> view[k] in mask')
  }

  /** One step of AddToIndex: the i-th hyperedge of the view is added unless already masked. */
  method AddAt(g: HyperGraph, s: int, top: int, view: seq<int>, ghost vIndex: map<int, seq<int>>, ghost mask: set<int>,
               vIndex0: map<int, seq<int>>, mask0: set<int>, i: int)
    returns (vIndex': map<int, seq<int>>, mask': set<int>, i': int)
    requires g.WellIndexed() && s >= 1 && view == g.GetEdgesWithMinSize(s)
    requires MaskAt(g, mask, s, top) && 0 <= i < |view| && Adding(g, view, mask, vIndex0, mask0, i)
    ensures i' == i + 1 && Adding(g, view, mask, vIndex', mask', i')
  {
    i' := i + 1;
    var e := view[i];
    if e !in mask0 {
      TiesBefore(g, s, top, mask, mask0, e);
      vIndex', mask' := AddEdge(g, vIndex0, mask0, e);
    } else {
      vIndex', mask' := vIndex0, mask0;
    }
    AddingNext(g, view, mask, mask0, vIndex', mask', i);
  }

  /** The hyperedges of equal size added before e all have smaller ids. */
  lemma TiesBefore(g: HyperGraph, s: int, top: int, mask: set<int>, mask0: set<int>, e: int)
    requires s >= 1 && MaskAt(g, mask, s, top) && g.IsEdge(e) && e !in mask0 && mask <= mask0
    requires forall x :: x in mask0 ==> x in mask || x < e
    ensures forall x :: x in mask0 && SizeKey(g)(x) == SizeKey(g)(e) ==> x < e
  {
    forall x | x in mask0
      ensures SizeKey(g)(x) == SizeKey(g)(e) ==> x < e
    {
      if x in mask {
        MaskedLarger(g, mask, s, top, x, e);
      }
    }
  }

  /** Adding view[i] (or finding it masked already) moves the AddToIndex state from i to i + 1. */
  lemma AddingNext(g: HyperGraph, view: seq<int>, mask: set<int>, mask0: set<int>,
                   vIndex': map<int, seq<int>>, mask': set<int>, i: int)
    requires 0 <= i < |view| && (forall a, b :: 0 <= a < b < |view| ==> view[a] < view[b])
    requires mask <= mask0 && mask' == mask0 + {view[i]} && IndexOf(g, vIndex', mask')
    requires forall e :: e in mask0 ==> e in mask || (e in view && e < view[i])
    requires forall k :: 0 <= k < i ==> view[k] in mask0
    ensures Adding(g, view, mask, vIndex', mask', i + 1)
  {
    forall e | e in mask'
      ensures e in mask || (e in view && (i + 1 < |view| ==> e < view[i + 1]))
    {
    }
  }

  /** A masked hyperedge is larger than an unmasked one of level s. */
  lemma MaskedLarger(g: HyperGraph, mask: set<int>, s: int, top: int, x: int, e: int)
    requires MaskAt(g, mask, s, top) && s >= 1 && x in mask && g.IsEdge(e) && e !in mask
    ensures SizeKey(g)(x) > SizeKey(g)(e)
  {
  }

  /** Sorting keeps a list's entries. */
  lemma SortedEntry(l: seq<int>, key: int -> int, e: int)
    ensures e in SortByKeyDesc(l, key) <==> e in l
  {
    var m := SortByKeyDesc(l, key);
    assert e in m <==> e in multiset(m);
    assert e in l <==> e in multiset(l);
  }

  /** Every list of the index sorted by decreasing size (`Collections.sort` on each value). */
  function SortAll(vIndex: map<int, seq<int>>, key: int -> int): (r: map<int, seq<int>>)
    ensures r.Keys == vIndex.Keys
    ensures forall v :: v in r ==> r[v] == SortByKeyDesc(vIndex[v], key)
  {
    map v | v in vIndex :: SortByKeyDesc(vIndex[v], key)
  }

  /**
   * Sorts every list of the index by decreasing size (`Collections.sort`
   * on each value, a stable sort): each list keeps its members and is now
   * in the sweep's order, which determines it.
   */
  method SortIndex(g: HyperGraph, vIndex: map<int, seq<int>>, ghost mask: set<int>) returns (sorted: map<int, seq<int>>)
    requires IndexOf(g, vIndex, mask)
    ensures SameMembers(vIndex, sorted) && IndexOf(g, sorted, mask)
    ensures forall v :: v in sorted ==> SortedByKey(sorted[v], SizeKey(g))
  {
    sorted := SortAll(vIndex, SizeKey(g));
    SortOrders(vIndex, SizeKey(g));
    SortedSameMembers(vIndex, SizeKey(g));
    SortKeepsIndex(g, vIndex, sorted, mask);
  }

  /** Lists sorted into the sweep's order, with the same members, keep the index. */
  lemma SortKeepsIndex(g: HyperGraph, vIndex: map<int, seq<int>>, sorted: map<int, seq<int>>, mask: set<int>)
    requires IndexOf(g, vIndex, mask) && SameMembers(vIndex, sorted)
    requires forall v :: v in sorted ==> SortedByKey(sorted[v], SizeKey(g))
    ensures IndexOf(g, sorted, mask)
  {
    MembersTransfer(g, vIndex, sorted, mask);
  }

  /** Each sorted list is in the sweep's order, provided its ties were in id order. */
  lemma SortOrders(vIndex: map<int, seq<int>>, key: int -> int)
    requires forall v :: v in vIndex ==> TiesInOrder(vIndex[v], key)
    ensures forall v :: v in vIndex ==> SortedByKey(SortAll(vIndex, key)[v], key)
    ensures forall v :: v in vIndex ==> TiesInOrder(SortAll(vIndex, key)[v], key)
  {
    forall v | v in vIndex
      ensures SortedByKey(SortAll(vIndex, key)[v], key) && TiesInOrder(SortAll(vIndex, key)[v], key)
    {
      SortSorted(vIndex[v], key);
    }
  }

  /** Two indexes over the same vertices whose lists have the same members. */
  ghost predicate SameMembers(a: map<int, seq<int>>, b: map<int, seq<int>>)
  {
    a.Keys == b.Keys && forall v, e :: v in a ==> (e in a[v] <==> e in b[v])
  }

  lemma SortedSameMembers(vIndex: map<int, seq<int>>, key: int -> int)
    ensures SameMembers(vIndex, SortAll(vIndex, key))
  {
    var sorted := SortAll(vIndex, key);
    forall v, e | v in vIndex
      ensures e in vIndex[v] <==> e in sorted[v]
    {
      SortedEntry(vIndex[v], key, e);
    }
  }

  /** Lists with the same members index the same hyperedges. */
  lemma MembersTransfer(g: HyperGraph, vIndex: map<int, seq<int>>, sorted: map<int, seq<int>>, mask: set<int>)
    requires SameMembers(vIndex, sorted)
    requires forall v, e :: v in vIndex && e in vIndex[v] ==> e in mask && g.IsEdge(e) && v in g.V(e)
    requires forall e, v :: e in mask && g.IsEdge(e) && v in g.V(e) ==> v in vIndex && e in vIndex[v]
    ensures forall v, e :: v in sorted && e in sorted[v] ==> e in mask && g.IsEdge(e) && v in g.V(e)
    ensures forall e, v :: e in mask && g.IsEdge(e) && v in g.V(e) ==> v in sorted && e in sorted[v]
  {
  }

  /**
   * At level s, once the mask holds the level's hyperedges, the sorted
   * list of vertex v is the sweep's list for v over the level's hyperedges
   * (each written as its id).
   */
  lemma EdgeListFor(g: HyperGraph, s: int, view: seq<int>, vIndex: map<int, seq<int>>, mask: set<int>, v: int)
    requires g.WellIndexed() && s >= 1 && view == g.GetEdgesWithMinSize(s)
    requires IndexOf(g, vIndex, mask) && (forall e :: e in mask <==> g.IsEdge(e) && g.InView(e, s))
    requires v in vIndex && SortedByKey(vIndex[v], SizeKey(g))
    ensures AllEdges(g, view) && ListFor(g, view, view, v, vIndex[v])
  {
    EdgeListMembers(g, s, view, vIndex, mask, v);
    EdgeListOrder(g, view, vIndex[v]);
  }

  /** The list of v holds exactly the level's hyperedges that have v. */
  lemma EdgeListMembers(g: HyperGraph, s: int, view: seq<int>, vIndex: map<int, seq<int>>, mask: set<int>, v: int)
    requires g.WellIndexed() && s >= 1 && view == g.GetEdgesWithMinSize(s)
    requires IndexOf(g, vIndex, mask) && (forall e :: e in mask <==> g.IsEdge(e) && g.InView(e, s))
    requires v in vIndex
    ensures AllEdges(g, view)
    ensures forall k :: 0 <= k < |vIndex[v]| ==> vIndex[v][k] in view
    ensures forall p :: 0 <= p < |view| ==> (view[p] in vIndex[v] <==> v in g.V(view[p]))
  {
    var L := vIndex[v];
    forall k | 0 <= k < |L|
      ensures L[k] in view
    {
      var e := L[k];
      assert e in L;
    }
    forall p | 0 <= p < |view|
      ensures view[p] in L <==> v in g.V(view[p])
    {
      var e := view[p];
      assert e in mask;
    }
  }

  /** A list sorted by decreasing size, ties by id, visits the level's positions in the sweep's order. */
  lemma EdgeListOrder(g: HyperGraph, view: seq<int>, L: seq<int>)
    requires AllEdges(g, view) && Increasing(view) && SortedByKey(L, SizeKey(g))
    requires forall k :: 0 <= k < |L| ==> L[k] in view
    ensures forall a, b :: 0 <= a < b < |L| ==> BeforeAt(g, view, Idx(view, L[a]), Idx(view, L[b]))
  {
    forall a, b | 0 <= a < b < |L|
      ensures BeforeAt(g, view, Idx(view, L[a]), Idx(view, L[b]))
    {
      var pa, pb := Idx(view, L[a]), Idx(view, L[b]);
      assert KeyBefore(SizeKey(g), L[a], L[b]);
      assert g.IsEdge(view[pa]) && g.IsEdge(view[pb]);
      if pa >= pb && pa != pb {
        assert view[pb] < view[pa];
      }
    }
  }
}
