/**
 * What the s-connected component sweeps compute and how they get there:
 * walks of hyperedges that share at least s vertices, the stable sort of
 * a vertex's hyperedges by decreasing size, and the bookkeeping that
 * ties the shared-vertex counters to the union-find partition.
 */
module SConnectivity {
  import opened Wrappers
  import opened HyperGraphs
  import UnionFind

  /** Every entry of the list is a hyperedge id. */
  ghost predicate AllEdges(g: HyperGraph, l: seq<int>)
  {
    forall k :: 0 <= k < |l| ==> g.IsEdge(l[k])
  }

  /** One step of an s-walk: two hyperedges sharing at least s vertices. */
  ghost predicate Adjacent(g: HyperGraph, s: int, a: int, b: int)
  {
    g.IsEdge(a) && g.IsEdge(b) && g.Overlap(a, b) >= s
  }

  /** A walk through hyperedges listed in l, each sharing at least s vertices with the next. */
  ghost predicate Walk(g: HyperGraph, s: int, l: seq<int>, w: seq<int>)
  {
    |w| > 0 &&
    (forall k :: 0 <= k < |w| ==> w[k] in l) &&
    (forall k :: 0 <= k < |w| - 1 ==> Adjacent(g, s, w[k], w[k + 1]))
  }

  /** a and b are s-connected within l: some s-walk through l leads from a to b. */
  ghost predicate SConnected(g: HyperGraph, s: int, l: seq<int>, a: int, b: int)
  {
    exists w :: Walk(g, s, l, w) && w[0] == a && w[|w| - 1] == b
  }

  lemma ConnectedRefl(g: HyperGraph, s: int, l: seq<int>, a: int)
    requires a in l
    ensures SConnected(g, s, l, a, a)
  {
    assert Walk(g, s, l, [a]);
  }

  lemma ConnectedStep(g: HyperGraph, s: int, l: seq<int>, a: int, b: int)
    requires a in l && b in l && Adjacent(g, s, a, b)
    ensures SConnected(g, s, l, a, b)
  {
    var w := [a, b];
    assert Walk(g, s, l, w);
  }

  lemma ConnectedTrans(g: HyperGraph, s: int, l: seq<int>, a: int, b: int, c: int)
    requires SConnected(g, s, l, a, b) && SConnected(g, s, l, b, c)
    ensures SConnected(g, s, l, a, c)
  {
    var w1 :| Walk(g, s, l, w1) && w1[0] == a && w1[|w1| - 1] == b;
    var w2 :| Walk(g, s, l, w2) && w2[0] == b && w2[|w2| - 1] == c;
    var w := w1 + w2[1..];
    forall k | 0 <= k < |w| - 1
      ensures Adjacent(g, s, w[k], w[k + 1])
    {
      if k < |w1| - 1 {
        assert w[k] == w1[k] && w[k + 1] == w1[k + 1];
      } else {
        var m := k - |w1| + 1;
        assert w[k] == w2[m] && w[k + 1] == w2[m + 1];
      }
    }
    assert Walk(g, s, l, w);
  }

  /** Reversing a walk: s-connectedness is symmetric. */
  lemma ConnectedSym(g: HyperGraph, s: int, l: seq<int>, a: int, b: int)
    requires SConnected(g, s, l, a, b)
    ensures SConnected(g, s, l, b, a)
  {
    var w :| Walk(g, s, l, w) && w[0] == a && w[|w| - 1] == b;
    var n := |w|;
    var r := seq(n, k requires 0 <= k < n => w[n - 1 - k]);
    forall k | 0 <= k < n - 1
      ensures Adjacent(g, s, r[k], r[k + 1])
    {
      assert Adjacent(g, s, w[n - 2 - k], w[n - 1 - k]);
      g.OverlapSym(w[n - 2 - k], w[n - 1 - k]);
    }
    assert Walk(g, s, l, r);
  }

  /**
   * A walk at level s through l is also a walk at any lower level
   * through any list holding every hyperedge of l.
   */
  lemma ConnectedMono(g: HyperGraph, s: int, t: int, l: seq<int>, m: seq<int>, a: int, b: int)
    requires t <= s && (forall x :: x in l ==> x in m)
    requires SConnected(g, s, l, a, b)
    ensures SConnected(g, t, m, a, b)
  {
    var w :| Walk(g, s, l, w) && w[0] == a && w[|w| - 1] == b;
    forall k | 0 <= k < |w|
      ensures w[k] in m
    {
      var x := w[k];
      assert x in l;
    }
    assert Walk(g, t, m, w);
  }

  /** The first position of x in l. */
  ghost function Idx(l: seq<int>, x: int): (r: nat)
    requires x in l
    ensures r < |l| && l[r] == x
    ensures forall k :: 0 <= k < r ==> l[k] != x
  {
    if l[0] == x then 0 else 1 + Idx(l[1..], x)
  }

  lemma IdxOf(l: seq<int>, k: int)
    requires Utils.Distinct(l) && 0 <= k < |l|
    ensures Idx(l, l[k]) == k
  {
  }

  /*
   * The partition kept by a union-find forest, given by the
   * representative `root[i]` of each position i of the list l.
   */

  /** Positions with one representative hold s-connected hyperedges. */
  ghost predicate Sound(g: HyperGraph, s: int, l: seq<int>, root: seq<int>)
  {
    |root| == |l| &&
    forall i, j :: 0 <= i < |l| && 0 <= j < |l| && root[i] == root[j] ==> SConnected(g, s, l, l[i], l[j])
  }

  /** Positions holding hyperedges that share at least s vertices have one representative. */
  ghost predicate Closed(g: HyperGraph, s: int, l: seq<int>, root: seq<int>)
  {
    |root| == |l| &&
    forall i, j :: 0 <= i < |l| && 0 <= j < |l| && Adjacent(g, s, l[i], l[j]) ==> root[i] == root[j]
  }

  /** Merging the sets of two positions whose hyperedges share at least s vertices keeps the partition sound. */
  lemma SoundMerge(g: HyperGraph, s: int, l: seq<int>, root: seq<int>, p: int, q: int, from: int, to: int)
    requires Sound(g, s, l, root) && 0 <= p < |l| && 0 <= q < |l|
    requires (from == root[p] && to == root[q]) || (from == root[q] && to == root[p])
    requires Adjacent(g, s, l[p], l[q])
    ensures Sound(g, s, l, UnionFind.Merge(root, from, to))
  {
    var root' := UnionFind.Merge(root, from, to);
    ConnectedStep(g, s, l, l[p], l[q]);
    ConnectedSym(g, s, l, l[p], l[q]);
    forall i, j | 0 <= i < |l| && 0 <= j < |l| && root'[i] == root'[j]
      ensures SConnected(g, s, l, l[i], l[j])
    {
      if root[i] != root[j] {
        var (x, y) := if root[i] == root[p] then (p, q) else (q, p);
        assert root[i] == root[x] && root[j] == root[y];
        ConnectedTrans(g, s, l, l[i], l[x], l[y]);
        ConnectedTrans(g, s, l, l[i], l[y], l[j]);
      }
    }
  }

  /** With a closed partition, the two ends of any walk through l have one representative. */
  lemma {:induction false} WalkSameRoot(g: HyperGraph, s: int, l: seq<int>, root: seq<int>, w: seq<int>)
    requires Closed(g, s, l, root) && Walk(g, s, l, w)
    ensures root[Idx(l, w[0])] == root[Idx(l, w[|w| - 1])]
    decreases |w|
  {
    if |w| > 1 {
      var w' := w[1..];
      assert Walk(g, s, l, w');
      WalkSameRoot(g, s, l, root, w');
      assert Adjacent(g, s, l[Idx(l, w[0])], l[Idx(l, w[1])]);
    }
  }

  /**
   * A sound and closed partition of a list without repetitions is
   * exactly the s-connectedness relation.
   */
  lemma ExactComponents(g: HyperGraph, s: int, l: seq<int>, root: seq<int>, i: int, j: int)
    requires Sound(g, s, l, root) && Closed(g, s, l, root) && Utils.Distinct(l)
    requires 0 <= i < |l| && 0 <= j < |l|
    ensures root[i] == root[j] <==> SConnected(g, s, l, l[i], l[j])
  {
    if SConnected(g, s, l, l[i], l[j]) {
      var w :| Walk(g, s, l, w) && w[0] == l[i] && w[|w| - 1] == l[j];
      WalkSameRoot(g, s, l, root, w);
      IdxOf(l, i);
      IdxOf(l, j);
    }
  }

  /*
   * The order in which a vertex's hyperedges are visited.
   */

  /** x comes before y: a larger key first, equal keys by increasing value. */
  predicate KeyBefore(key: int -> int, x: int, y: int)
  {
    key(x) > key(y) || (key(x) == key(y) && x < y)
  }

  ghost predicate SortedByKey(l: seq<int>, key: int -> int)
  {
    forall a, b :: 0 <= a < b < |l| ==> KeyBefore(key, l[a], l[b])
  }

  /** Entries with equal keys appear in increasing order. */
  ghost predicate TiesInOrder(l: seq<int>, key: int -> int)
  {
    forall a, b :: 0 <= a < b < |l| && key(l[a]) == key(l[b]) ==> l[a] < l[b]
  }

  /**
   * The list sorted by decreasing key, entries with equal keys keeping
   * their relative order, as the stable sort of `Collections.sort` with
   * a comparator on the key does.
   */
  function SortByKeyDesc(l: seq<int>, key: int -> int): (r: seq<int>)
    ensures multiset(r) == multiset(l) && |r| == |l|
  {
    if l == [] then []
    else
      assert l == l[..|l| - 1] + [l[|l| - 1]];
      InsertByKey(SortByKeyDesc(l[..|l| - 1], key), l[|l| - 1], key)
  }

  /** Places x after the last entry whose key is at least x's. */
  function InsertByKey(l: seq<int>, x: int, key: int -> int): (r: seq<int>)
    ensures multiset(r) == multiset(l) + multiset{x} && |r| == |l| + 1
  {
    if l == [] || key(l[|l| - 1]) >= key(x) then l + [x]
    else
      assert l == l[..|l| - 1] + [l[|l| - 1]];
      InsertByKey(l[..|l| - 1], x, key) + [l[|l| - 1]]
  }

  lemma {:induction false} InsertSorted(l: seq<int>, x: int, key: int -> int)
    requires SortedByKey(l, key)
    requires forall y :: y in l && key(y) == key(x) ==> y < x
    ensures SortedByKey(InsertByKey(l, x, key), key)
    decreases |l|
  {
    if l == [] || key(l[|l| - 1]) >= key(x) {
      forall a | 0 <= a < |l|
        ensures KeyBefore(key, l[a], x)
      {
        if a < |l| - 1 {
          assert KeyBefore(key, l[a], l[|l| - 1]);
        }
        assert l[a] in l;
      }
    } else {
      var init, last := l[..|l| - 1], l[|l| - 1];
      assert forall y :: y in init ==> y in l;
      InsertSorted(init, x, key);
      var m := InsertByKey(init, x, key);
      forall a | 0 <= a < |m|
        ensures KeyBefore(key, m[a], last)
      {
        assert m[a] in multiset(m);
        if m[a] != x {
          assert m[a] in multiset(init);
          var k :| 0 <= k < |init| && init[k] == m[a];
          assert KeyBefore(key, l[k], l[|l| - 1]);
        }
      }
    }
  }

  /** Sorting a list whose ties are already in increasing order orders it strictly by KeyBefore. */
  lemma {:induction false} SortSorted(l: seq<int>, key: int -> int)
    requires TiesInOrder(l, key)
    ensures SortedByKey(SortByKeyDesc(l, key), key)
    decreases |l|
  {
    if l != [] {
      var init, x := l[..|l| - 1], l[|l| - 1];
      assert TiesInOrder(init, key);
      SortSorted(init, key);
      var m := SortByKeyDesc(init, key);
      forall y | y in m && key(y) == key(x)
        ensures y < x
      {
        assert y in multiset(init);
        var k :| 0 <= k < |init| && init[k] == y;
        assert l[k] == y;
      }
      InsertSorted(m, x, key);
    }
  }

  /*
   * The shared-vertex counters. The sweep visits the vertices one at a
   * time; for each, it walks the pairs (i, j), i < j, of the list L of
   * the hyperedges holding it. Positions p of the list `view` are the
   * union-find elements; `lab[p]` is how position p is written in the
   * vertex lists (the hyperedge id, or the position itself).
   */

  /** The sweep's visiting order on positions: the larger hyperedge first, then the lower position. */
  ghost predicate BeforeAt(g: HyperGraph, view: seq<int>, p: int, q: int)
    requires AllEdges(g, view) && 0 <= p < |view| && 0 <= q < |view|
  {
    var sp, sq := g.hyperedges[view[p]].size, g.hyperedges[view[q]].size;
    sp > sq || (sp == sq && p < q)
  }

  /** L lists, in visiting order, the labels of exactly the positions whose hyperedge holds v. */
  ghost predicate ListFor(g: HyperGraph, view: seq<int>, lab: seq<int>, v: int, L: seq<int>)
    requires AllEdges(g, view) && |lab| == |view|
  {
    (forall k :: 0 <= k < |L| ==> L[k] in lab) &&
    (forall p :: 0 <= p < |view| ==> (lab[p] in L <==> v in g.V(view[p]))) &&
    (forall a, b :: 0 <= a < b < |L| ==> BeforeAt(g, view, Idx(lab, L[a]), Idx(lab, L[b])))
  }

  /** The counter of the ordered pair (p, q), 0 when absent (`getOrDefault(.., 0)`). */
  function Cnt(E: map<int, map<int, int>>, p: int, q: int): int
  {
    if p in E && q in E[p] then E[p][q] else 0
  }

  /** The number of vertices of P held by the hyperedges at positions p and q. */
  ghost function Shared(g: HyperGraph, view: seq<int>, P: set<int>, p: int, q: int): nat
    requires AllEdges(g, view) && 0 <= p < |view| && 0 <= q < |view|
  {
    |P * g.V(view[p]) * g.V(view[q])|
  }

  /** The pair (x, y) of L has been visited once the visit has reached pair (i, j). */
  ghost predicate DonePair(L: seq<int>, i: int, j: int, x: int, y: int)
  {
    x in L && y in L && (Idx(L, x) < i || (Idx(L, x) == i && Idx(L, y) < j))
  }

  /**
   * The counting invariant: once the vertices of P have been visited,
   * and the pairs of L before (i, j), every ordered pair of positions in
   * different sets has counted each of its shared vertices seen so far,
   * and fewer than s of them.
   */
  ghost predicate CountsAt(g: HyperGraph, view: seq<int>, lab: seq<int>, s: int, E: map<int, map<int, int>>,
                           root: seq<int>, P: set<int>, L: seq<int>, i: int, j: int)
    requires AllEdges(g, view) && |lab| == |view| && |root| == |view|
  {
    forall p, q :: 0 <= p < |view| && 0 <= q < |view| && BeforeAt(g, view, p, q) && root[p] != root[q] ==>
      Cnt(E, p, q) == Shared(g, view, P, p, q) + (if DonePair(L, i, j, lab[p], lab[q]) then 1 else 0) &&
      Cnt(E, p, q) < s
  }

  /** Before any vertex, with no counter: the invariant holds for any s >= 1. */
  lemma CountsStart(g: HyperGraph, view: seq<int>, lab: seq<int>, s: int, root: seq<int>)
    requires AllEdges(g, view) && |lab| == |view| && |root| == |view| && s >= 1
    ensures CountsAt(g, view, lab, s, map[], root, {}, [], 0, 0)
  {
  }

  /** Two visited positions of L appear in L in visiting order. */
  lemma ListOrder(g: HyperGraph, view: seq<int>, lab: seq<int>, v: int, L: seq<int>, p: int, q: int)
    requires AllEdges(g, view) && |lab| == |view| && Utils.Distinct(lab)
    requires ListFor(g, view, lab, v, L)
    requires 0 <= p < |view| && 0 <= q < |view| && lab[p] in L && lab[q] in L
    requires BeforeAt(g, view, p, q)
    ensures Idx(L, lab[p]) < Idx(L, lab[q])
  {
    var a, b := Idx(L, lab[p]), Idx(L, lab[q]);
    IdxOf(lab, p);
    IdxOf(lab, q);
    if a != b {
      var lo, hi := Min(a, b), Max(a, b);
      assert BeforeAt(g, view, Idx(lab, L[lo]), Idx(lab, L[hi]));
    }
  }

  /** L holds no label twice. */
  lemma ListDistinct(g: HyperGraph, view: seq<int>, lab: seq<int>, v: int, L: seq<int>)
    requires AllEdges(g, view) && |lab| == |view|
    requires ListFor(g, view, lab, v, L)
    ensures Utils.Distinct(L)
  {
    forall a, b | 0 <= a < b < |L|
      ensures L[a] != L[b]
    {
      assert BeforeAt(g, view, Idx(lab, L[a]), Idx(lab, L[b]));
    }
  }

  /** Writing back the row of p unchanged changes no counter. */
  lemma CntSame(E: map<int, map<int, int>>, p: int)
    ensures forall x, y :: Cnt(E[p := if p in E then E[p] else map[]], x, y) == Cnt(E, x, y)
  {
  }

  /** Setting the counter of (p, q) in row p to c changes that counter only. */
  lemma CntBump(E: map<int, map<int, int>>, p: int, row: map<int, int>, q: int, c: int)
    ensures Cnt(E[p := row[q := c]], p, q) == c
    ensures Cnt(E[p := row], p, q) == if q in row then row[q] else 0
    ensures forall x, y :: (x, y) != (p, q) ==> Cnt(E[p := row[q := c]], x, y) == Cnt(E[p := row], x, y)
  {
  }

  /** A coarsening of a coarsening is a coarsening. */
  lemma CoarsensRefl(root: seq<int>)
    ensures UnionFind.Coarsens(root, root)
  {
  }

  lemma CoarsensTrans(a: seq<int>, b: seq<int>, c: seq<int>)
    requires UnionFind.Coarsens(a, b) && UnionFind.Coarsens(b, c)
    ensures UnionFind.Coarsens(a, c)
  {
  }

  /** A vertex list starts with no pair visited. */
  lemma VertexStart(g: HyperGraph, view: seq<int>, lab: seq<int>, s: int, E: map<int, map<int, int>>,
                    root: seq<int>, P: set<int>, v: int, L: seq<int>)
    requires AllEdges(g, view) && |lab| == |view| && |root| == |view| && Utils.Distinct(lab)
    requires CountsAt(g, view, lab, s, E, root, P, [], 0, 0)
    ensures CountsAt(g, view, lab, s, E, root, P, L, 0, 1)
  {
    forall p, q | 0 <= p < |view| && 0 <= q < |view| && BeforeAt(g, view, p, q) && root[p] != root[q]
      ensures !DonePair(L, 0, 1, lab[p], lab[q])
    {
      IdxOf(lab, p);
      IdxOf(lab, q);
    }
  }

  /**
   * The pair (i, j) of L, in different sets, has not been visited yet:
   * its counter holds exactly the shared vertices of P, and both of its
   * hyperedges hold v.
   */
  lemma PairFresh(g: HyperGraph, view: seq<int>, lab: seq<int>, s: int, E: map<int, map<int, int>>,
                  root: seq<int>, P: set<int>, v: int, L: seq<int>, i: int, j: int)
    requires AllEdges(g, view) && |lab| == |view| && |root| == |view| && Utils.Distinct(lab)
    requires ListFor(g, view, lab, v, L) && 0 <= i < j < |L|
    requires root[Idx(lab, L[i])] != root[Idx(lab, L[j])]
    requires CountsAt(g, view, lab, s, E, root, P, L, i, j)
    ensures var p, q := Idx(lab, L[i]), Idx(lab, L[j]);
      Cnt(E, p, q) == Shared(g, view, P, p, q) && v in g.V(view[p]) && v in g.V(view[q])
  {
    var p, q := Idx(lab, L[i]), Idx(lab, L[j]);
    ListDistinct(g, view, lab, v, L);
    IdxOf(L, i);
    IdxOf(L, j);
    assert BeforeAt(g, view, p, q);
    assert lab[p] == L[i] && lab[q] == L[j];
  }

  /** Visiting a pair whose positions are already in one set changes no counter. */
  lemma PairSame(g: HyperGraph, view: seq<int>, lab: seq<int>, s: int, E: map<int, map<int, int>>,
                 root: seq<int>, P: set<int>, v: int, L: seq<int>, i: int, j: int)
    requires AllEdges(g, view) && |lab| == |view| && |root| == |view| && Utils.Distinct(lab)
    requires ListFor(g, view, lab, v, L) && 0 <= i < j < |L|
    requires root[Idx(lab, L[i])] == root[Idx(lab, L[j])]
    requires CountsAt(g, view, lab, s, E, root, P, L, i, j)
    ensures CountsAt(g, view, lab, s, E, root, P, L, i, j + 1)
  {
    ListDistinct(g, view, lab, v, L);
    forall p, q | 0 <= p < |view| && 0 <= q < |view| && BeforeAt(g, view, p, q) && root[p] != root[q]
      ensures DonePair(L, i, j + 1, lab[p], lab[q]) == DonePair(L, i, j, lab[p], lab[q])
    {
      if lab[p] in L && lab[q] in L && Idx(L, lab[p]) == i && Idx(L, lab[q]) == j {
        IdxOf(lab, p);
        IdxOf(lab, q);
      }
    }
  }

  /**
   * Visiting a pair in different sets adds one to its counter; if the
   * sets are then merged (the new partition is coarser), the invariant
   * moves on to the next pair. The counter then holds the shared
   * vertices seen so far, the current one included.
   */
  lemma PairCounted(g: HyperGraph, view: seq<int>, lab: seq<int>, s: int, E: map<int, map<int, int>>,
                    E': map<int, map<int, int>>, root: seq<int>, root': seq<int>, P: set<int>,
                    v: int, L: seq<int>, i: int, j: int)
    requires AllEdges(g, view) && |lab| == |view| && |root| == |view| && Utils.Distinct(lab)
    requires ListFor(g, view, lab, v, L) && 0 <= i < j < |L|
    requires UnionFind.Coarsens(root', root)
    requires var p, q := Idx(lab, L[i]), Idx(lab, L[j]);
      root[p] != root[q] &&
      Cnt(E', p, q) == Cnt(E, p, q) + 1 &&
      (forall p', q' :: (p', q') != (p, q) ==> Cnt(E', p', q') == Cnt(E, p', q')) &&
      (Cnt(E', p, q) < s || root'[p] == root'[q])
    requires CountsAt(g, view, lab, s, E, root, P, L, i, j)
    ensures CountsAt(g, view, lab, s, E', root', P, L, i, j + 1)
    ensures Cnt(E', Idx(lab, L[i]), Idx(lab, L[j])) == Shared(g, view, P, Idx(lab, L[i]), Idx(lab, L[j])) + 1
  {
    var p0, q0 := Idx(lab, L[i]), Idx(lab, L[j]);
    ListDistinct(g, view, lab, v, L);
    IdxOf(L, i);
    IdxOf(L, j);
    assert BeforeAt(g, view, p0, q0);
    assert lab[p0] == L[i] && lab[q0] == L[j];
    forall p, q | 0 <= p < |view| && 0 <= q < |view| && BeforeAt(g, view, p, q) && root'[p] != root'[q]
      ensures Cnt(E', p, q) == Shared(g, view, P, p, q) + (if DonePair(L, i, j + 1, lab[p], lab[q]) then 1 else 0)
      ensures Cnt(E', p, q) < s
    {
      assert root[p] != root[q];
      if (p, q) != (p0, q0) {
        if lab[p] in L && lab[q] in L && Idx(L, lab[p]) == i && Idx(L, lab[q]) == j {
          IdxOf(lab, p);
          IdxOf(lab, q);
        }
      }
    }
  }

  /** Once row i of L is done, the next row starts. */
  lemma RowDone(g: HyperGraph, view: seq<int>, lab: seq<int>, s: int, E: map<int, map<int, int>>,
                root: seq<int>, P: set<int>, v: int, L: seq<int>, i: int)
    requires AllEdges(g, view) && |lab| == |view| && |root| == |view| && Utils.Distinct(lab)
    requires ListFor(g, view, lab, v, L) && 0 <= i
    requires CountsAt(g, view, lab, s, E, root, P, L, i, |L|)
    ensures CountsAt(g, view, lab, s, E, root, P, L, i + 1, i + 2)
  {
    forall p, q | 0 <= p < |view| && 0 <= q < |view| && BeforeAt(g, view, p, q) && root[p] != root[q]
      ensures DonePair(L, i + 1, i + 2, lab[p], lab[q]) == DonePair(L, i, |L|, lab[p], lab[q])
    {
      if lab[p] in L && lab[q] in L {
        ListOrder(g, view, lab, v, L, p, q);
      }
    }
  }

  /** One more vertex in P adds one to the count of the pairs holding it. */
  lemma SharedAdd(P: set<int>, A: set<int>, B: set<int>, v: int)
    requires v !in P
    ensures |(P + {v}) * A * B| == |P * A * B| + (if v in A && v in B then 1 else 0)
  {
    if v in A && v in B {
      assert (P + {v}) * A * B == P * A * B + {v};
    } else {
      assert (P + {v}) * A * B == P * A * B;
    }
  }

  /** Once every pair of L has been visited, v joins the visited vertices. */
  lemma VertexDone(g: HyperGraph, view: seq<int>, lab: seq<int>, s: int, E: map<int, map<int, int>>,
                   root: seq<int>, P: set<int>, v: int, L: seq<int>, i: int)
    requires AllEdges(g, view) && |lab| == |view| && |root| == |view| && Utils.Distinct(lab)
    requires ListFor(g, view, lab, v, L) && v !in P && i >= |L| - 1
    requires CountsAt(g, view, lab, s, E, root, P, L, i, i + 1)
    ensures CountsAt(g, view, lab, s, E, root, P + {v}, [], 0, 0)
  {
    forall p, q | 0 <= p < |view| && 0 <= q < |view| && BeforeAt(g, view, p, q) && root[p] != root[q]
      ensures Shared(g, view, P + {v}, p, q) ==
        Shared(g, view, P, p, q) + (if DonePair(L, i, i + 1, lab[p], lab[q]) then 1 else 0)
    {
      SharedAdd(P, g.V(view[p]), g.V(view[q]), v);
      if lab[p] in L && lab[q] in L {
        ListOrder(g, view, lab, v, L, p, q);
      }
    }
  }

  /** The counter of a pair never exceeds the vertices its hyperedges share. */
  lemma SharedBound(g: HyperGraph, view: seq<int>, P: set<int>, v: int, p: int, q: int)
    requires AllEdges(g, view) && 0 <= p < |view| && 0 <= q < |view|
    requires v !in P && v in g.V(view[p]) && v in g.V(view[q])
    ensures Shared(g, view, P, p, q) + 1 <= g.Overlap(view[p], view[q])
  {
    var A, B := g.V(view[p]), g.V(view[q]);
    assert P * A * B + {v} <= A * B;
    SubsetCard(P * A * B + {v}, A * B);
  }

  /**
   * When every vertex of every listed hyperedge has been visited, no pair
   * in different sets shares s vertices: the partition is closed.
   */
  lemma CountsClosed(g: HyperGraph, view: seq<int>, lab: seq<int>, s: int, E: map<int, map<int, int>>,
                     root: seq<int>, P: set<int>)
    requires AllEdges(g, view) && |lab| == |view| && |root| == |view|
    requires forall p :: 0 <= p < |view| ==> g.V(view[p]) <= P
    requires CountsAt(g, view, lab, s, E, root, P, [], 0, 0)
    ensures Closed(g, s, view, root)
  {
    forall i, j | 0 <= i < |view| && 0 <= j < |view| && Adjacent(g, s, view[i], view[j])
      ensures root[i] == root[j]
    {
      g.OverlapSym(view[i], view[j]);
      assert P * g.V(view[i]) * g.V(view[j]) == g.V(view[i]) * g.V(view[j]);
      assert P * g.V(view[j]) * g.V(view[i]) == g.V(view[j]) * g.V(view[i]);
      assert Shared(g, view, P, i, j) == g.Overlap(view[i], view[j]) >= s;
      assert Shared(g, view, P, j, i) == g.Overlap(view[j], view[i]) >= s;
      ghost var c1, c2 := Cnt(E, i, j), Cnt(E, j, i);
      assert i != j ==> BeforeAt(g, view, i, j) || BeforeAt(g, view, j, i);
    }
  }
}
