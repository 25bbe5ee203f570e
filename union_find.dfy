/**
 * Weighted quick-union with full path compression over the elements 0..n-1
 * (hyped/cc/WQUFPC.java).
 *
 * The abstract state is a ghost `root` sequence naming the representative of
 * every element; a ghost `depth` sequence, in which a parent is always
 * strictly shallower than its child and every root has depth 0, shows that
 * walking up parent links terminates.
 */
module UnionFind {
  import opened Wrappers
  import Labels
  import LineGraphs

  /**
   * Element i is well placed: it has its parent's representative, its
   * representative is a root, a root represents itself at depth 0, and a
   * non-root is deeper than its parent.
   */
  ghost predicate Linked(par: seq<int>, root: seq<int>, depth: seq<nat>, i: int)
    requires |par| == |root| == |depth| && 0 <= i < |par|
    requires 0 <= par[i] < |par| && 0 <= root[i] < |par|
  {
    root[par[i]] == root[i] && par[root[i]] == root[i] &&
    (par[i] == i ==> root[i] == i && depth[i] == 0) &&
    (par[i] != i ==> depth[par[i]] < depth[i])
  }

  /** Parents and representatives are elements. */
  ghost predicate InRange(par: seq<int>, root: seq<int>, depth: seq<nat>)
  {
    |par| == |root| == |depth| &&
    (forall i :: 0 <= i < |par| ==> 0 <= par[i] < |par|) &&
    (forall i :: 0 <= i < |root| ==> 0 <= root[i] < |par|)
  }

  /** The parent/root/depth triple describes a forest whose roots are the representatives. */
  ghost predicate Forest(par: seq<int>, root: seq<int>, depth: seq<nat>)
  {
    InRange(par, root, depth) &&
    forall i :: 0 <= i < |par| ==> Linked(par, root, depth, i)
  }

  /** The forest facts about one element. */
  lemma LinkedAt(par: seq<int>, root: seq<int>, depth: seq<nat>, i: int)
    requires Forest(par, root, depth) && 0 <= i < |par|
    ensures 0 <= par[i] < |par| && 0 <= root[i] < |par|
    ensures root[par[i]] == root[i] && par[root[i]] == root[i] && root[root[i]] == root[i]
    ensures par[i] == i ==> root[i] == i && depth[i] == 0
    ensures par[i] != i ==> depth[par[i]] < depth[i]
  {
    assert Linked(par, root, depth, i);
    assert Linked(par, root, depth, root[i]);
  }

  /** The elements strictly below the root on the way up from `p`. */
  ghost function Path(par: seq<int>, root: seq<int>, depth: seq<nat>, p: int): set<int>
    requires Forest(par, root, depth) && 0 <= p < |par|
    decreases depth[p]
  {
    assert Linked(par, root, depth, p);
    if par[p] == p then {} else {p} + Path(par, root, depth, par[p])
  }

  /** Every element on the way up from `p` is a non-root of p's tree, no deeper than `p`. */
  lemma {:induction false} PathBelow(par: seq<int>, root: seq<int>, depth: seq<nat>, p: int, y: int)
    requires Forest(par, root, depth) && 0 <= p < |par|
    requires y in Path(par, root, depth, p)
    ensures 0 <= y < |par| && par[y] != y && root[y] == root[p] && depth[y] <= depth[p]
    decreases depth[p]
  {
    LinkedAt(par, root, depth, p);
    if y != p {
      PathBelow(par, root, depth, par[p], y);
    }
  }

  /** Pointing a non-root directly at its root keeps the forest and its partition. */
  lemma ForestRedirect(par: seq<int>, root: seq<int>, depth: seq<nat>, x: int)
    requires Forest(par, root, depth) && 0 <= x < |par| && par[x] != x
    ensures Forest(par[x := root[x]], root, depth)
  {
    var par' := par[x := root[x]];
    LinkedAt(par, root, depth, x);
    LinkedAt(par, root, depth, root[x]);
    forall i | 0 <= i < |par'|
      ensures Linked(par', root, depth, i)
    {
      LinkedAt(par, root, depth, i);
    }
  }

  /** The representative sequence after the root `from` is linked under the root `to`. */
  ghost function Merge(root: seq<int>, from: int, to: int): (r: seq<int>)
    ensures |r| == |root|
    ensures forall i :: 0 <= i < |root| ==> r[i] == (if root[i] == from then to else root[i])
  {
    seq(|root|, i requires 0 <= i < |root| => if root[i] == from then to else root[i])
  }

  /** Depths after the tree of `from` has been hung one level below a root. */
  ghost function Deepen(root: seq<int>, depth: seq<nat>, from: int): (r: seq<nat>)
    requires |root| == |depth|
    ensures |r| == |depth|
    ensures forall i :: 0 <= i < |depth| ==> r[i] == (if root[i] == from then depth[i] + 1 else depth[i])
  {
    seq(|depth|, i requires 0 <= i < |depth| => if root[i] == from then depth[i] + 1 else depth[i])
  }

  /** Every set of `root` lies inside one set of `root'`. */
  ghost predicate Coarsens(root': seq<int>, root: seq<int>)
  {
    |root'| == |root| &&
    forall i, j :: 0 <= i < |root| && 0 <= j < |root| && root[i] == root[j] ==> root'[i] == root'[j]
  }

  lemma CoarsensChain(a: seq<int>, b: seq<int>, c: seq<int>)
    requires Coarsens(a, b) && Coarsens(b, c)
    ensures Coarsens(a, c)
  {
  }

  /** Linking one root under another gives a forest whose sets are the old ones with the two merged. */
  lemma ForestLink(par: seq<int>, root: seq<int>, depth: seq<nat>, a: int, b: int)
    requires Forest(par, root, depth)
    requires 0 <= a < |par| && 0 <= b < |par| && par[a] == a && par[b] == b && a != b
    ensures Forest(par[a := b], Merge(root, a, b), Deepen(root, depth, a))
    ensures Coarsens(Merge(root, a, b), root)
  {
    var par', root', depth' := par[a := b], Merge(root, a, b), Deepen(root, depth, a);
    forall i | 0 <= i < |par'|
      ensures 0 <= root'[i] < |par'| && Linked(par', root', depth', i)
    {
      LinkedAfterLink(par, root, depth, a, b, i);
    }
  }

  /** ForestLink for one element i. */
  lemma LinkedAfterLink(par: seq<int>, root: seq<int>, depth: seq<nat>, a: int, b: int, i: int)
    requires Forest(par, root, depth)
    requires 0 <= a < |par| && 0 <= b < |par| && par[a] == a && par[b] == b && a != b && 0 <= i < |par|
    ensures 0 <= Merge(root, a, b)[i] < |par| && 0 <= par[a := b][i] < |par|
    ensures Linked(par[a := b], Merge(root, a, b), Deepen(root, depth, a), i)
  {
    LinkedAt(par, root, depth, a);
    LinkedAt(par, root, depth, b);
    LinkedAt(par, root, depth, i);
  }

  /** The root that union by rank hangs under the other: the one of lower rank, p's root on a tie. */
  function Loser(rank: seq<int>, rP: int, rQ: int): int
    requires 0 <= rP < |rank| && 0 <= rQ < |rank|
  {
    if rank[rP] < rank[rQ] then rP else if rank[rP] > rank[rQ] then rQ else rP
  }

  /** The root that stays a root after union by rank. */
  function Winner(rank: seq<int>, rP: int, rQ: int): int
    requires 0 <= rP < |rank| && 0 <= rQ < |rank|
  {
    if rank[rP] < rank[rQ] then rQ else if rank[rP] > rank[rQ] then rP else rQ
  }

  /** The roots of a parent sequence. */
  ghost function Roots(par: seq<int>): set<int>
  {
    set i | 0 <= i < |par| && par[i] == i
  }

  /** Representative of `j` once every element of `cc` points at `c0`. */
  ghost function RootAfterSeed(par: seq<int>, root: seq<int>, depth: seq<nat>, cc: set<int>, c0: int, j: int): int
    requires Forest(par, root, depth) && 0 <= j < |par|
    decreases depth[j]
  {
    assert Linked(par, root, depth, j);
    if j in cc then c0
    else if par[j] == j then j
    else RootAfterSeed(par, root, depth, cc, c0, par[j])
  }

  /** Depth of `j` once every element of `cc` points at `c0`. */
  ghost function DepthAfterSeed(par: seq<int>, root: seq<int>, depth: seq<nat>, cc: set<int>, c0: int, j: int): nat
    requires Forest(par, root, depth) && 0 <= j < |par|
    decreases depth[j]
  {
    assert Linked(par, root, depth, j);
    if j in cc then (if j == c0 then 0 else 1)
    else if par[j] == j then 0
    else DepthAfterSeed(par, root, depth, cc, c0, par[j]) + 1
  }

  /** The new representative is `c0` or an untouched old root. */
  lemma {:induction false} RootAfterSeedIsRoot(par: seq<int>, root: seq<int>, depth: seq<nat>, cc: set<int>, c0: int, j: int)
    requires Forest(par, root, depth) && 0 <= j < |par|
    ensures var r := RootAfterSeed(par, root, depth, cc, c0, j);
      r == c0 || (0 <= r < |par| && r !in cc && par[r] == r)
    decreases depth[j]
  {
    LinkedAt(par, root, depth, j);
    if j !in cc && par[j] != j {
      RootAfterSeedIsRoot(par, root, depth, cc, c0, par[j]);
    }
  }

  /** When every seeded element was a root, seeding merges whole sets into the set of `c0`. */
  lemma {:induction false} RootAfterSeedOfRoots(par: seq<int>, root: seq<int>, depth: seq<nat>, cc: set<int>, c0: int, j: int)
    requires Forest(par, root, depth) && 0 <= j < |par|
    requires forall k :: k in cc ==> 0 <= k < |par| && par[k] == k
    ensures RootAfterSeed(par, root, depth, cc, c0, j) == (if root[j] in cc then c0 else root[j])
    decreases depth[j]
  {
    LinkedAt(par, root, depth, j);
    if j in cc {
      LinkedAt(par, root, depth, j);
    } else if par[j] != j {
      RootAfterSeedOfRoots(par, root, depth, cc, c0, par[j]);
    }
  }

  /** Seeding a component keeps a forest. */
  lemma ForestSeed(par: seq<int>, root: seq<int>, depth: seq<nat>, cc: set<int>, c0: int)
    requires Forest(par, root, depth)
    requires c0 in cc && forall k :: k in cc ==> 0 <= k < |par|
    ensures
      var par' := seq(|par|, j requires 0 <= j < |par| => if j in cc then c0 else par[j]);
      var root' := seq(|par|, j requires 0 <= j < |par| => RootAfterSeed(par, root, depth, cc, c0, j));
      var depth' := seq(|par|, j requires 0 <= j < |par| => DepthAfterSeed(par, root, depth, cc, c0, j));
      Forest(par', root', depth')
  {
    var par' := seq(|par|, j requires 0 <= j < |par| => if j in cc then c0 else par[j]);
    var root' := seq(|par|, j requires 0 <= j < |par| => RootAfterSeed(par, root, depth, cc, c0, j));
    var depth' := seq(|par|, j requires 0 <= j < |par| => DepthAfterSeed(par, root, depth, cc, c0, j));
    forall i | 0 <= i < |par'|
      ensures 0 <= par'[i] < |par'| && 0 <= root'[i] < |par'|
    {
      LinkedAt(par, root, depth, i);
      RootAfterSeedIsRoot(par, root, depth, cc, c0, i);
    }
    assert InRange(par', root', depth');
    forall i | 0 <= i < |par'|
      ensures Linked(par', root', depth', i)
    {
      LinkedAt(par, root, depth, i);
      RootAfterSeedIsRoot(par, root, depth, cc, c0, i);
    }
  }

  /**
   * The vMap of findCCsLineGraph over the node indices in node order: each
   * index is mapped to its position, a later position overwriting an earlier
   * one for a repeated index.
   */
  function PosMap(ids: seq<int>): map<int, int>
  {
    if ids == [] then map[] else PosMap(ids[..|ids| - 1])[ids[|ids| - 1] := |ids| - 1]
  }

  /** Exactly the listed indices have a position, and it is the last place the index occurs. */
  lemma {:induction false} PosMapLast(ids: seq<int>, k: int)
    ensures k in PosMap(ids) <==> k in ids
    ensures k in PosMap(ids) ==>
      0 <= PosMap(ids)[k] < |ids| && ids[PosMap(ids)[k]] == k &&
      forall i :: PosMap(ids)[k] < i < |ids| ==> ids[i] != k
  {
    if ids != [] {
      var init, last := ids[..|ids| - 1], ids[|ids| - 1];
      PosMapLast(init, k);
      assert ids == init + [last];
      assert k in ids <==> k in init || k == last;
    }
  }

  /** Every key of adj and every neighbour it lists is one of the node indices. */
  ghost predicate Covers(adj: map<int, seq<(int, int)>>, ids: seq<int>)
  {
    forall k :: k in adj ==> k in ids && forall j :: 0 <= j < |adj[k]| ==> adj[k][j].0 in ids
  }

  /** Every key of adj and every neighbour it lists has a position below n. */
  ghost predicate Placed(pos: map<int, int>, adj: map<int, seq<(int, int)>>, n: int)
  {
    forall k :: k in adj ==>
      k in pos && 0 <= pos[k] < n &&
      (forall j :: 0 <= j < |adj[k]| ==> adj[k][j].0 in pos && 0 <= pos[adj[k][j].0] < n)
  }

  lemma CoversPlaced(adj: map<int, seq<(int, int)>>, ids: seq<int>, n: int)
    requires Covers(adj, ids) && |ids| <= n
    ensures Placed(PosMap(ids), adj, n)
  {
    forall k | k in adj
      ensures k in PosMap(ids) && 0 <= PosMap(ids)[k] < n
      ensures forall j :: 0 <= j < |adj[k]| ==> adj[k][j].0 in PosMap(ids) && 0 <= PosMap(ids)[adj[k][j].0] < n
    {
      PosMapLast(ids, k);
      forall j | 0 <= j < |adj[k]|
        ensures adj[k][j].0 in PosMap(ids) && 0 <= PosMap(ids)[adj[k][j].0] < n
      {
        PosMapLast(ids, adj[k][j].0);
      }
    }
  }

  /** The elements p and q are in one set of root. */
  ghost predicate Together(root: seq<int>, p: int, q: int)
  {
    0 <= p < |root| && 0 <= q < |root| && root[p] == root[q]
  }

  /** The first n entries of row k that point forward (pos[k] < pos[neighbour]) join their two positions. */
  ghost predicate RowJoined(root: seq<int>, pos: map<int, int>, k: int, row: seq<(int, int)>, n: int)
  {
    forall j :: 0 <= j < n && j < |row| && k in pos && row[j].0 in pos && pos[k] < pos[row[j].0] ==>
      Together(root, pos[k], pos[row[j].0])
  }

  /** The rows of adj under the keys in K are joined. */
  ghost predicate RowsJoined(root: seq<int>, pos: map<int, int>, adj: map<int, seq<(int, int)>>, K: set<int>)
  {
    forall k :: k in K && k in adj ==> RowJoined(root, pos, k, adj[k], |adj[k]|)
  }

  lemma RowJoinedCoarsens(root': seq<int>, root: seq<int>, pos: map<int, int>, k: int, row: seq<(int, int)>, n: int)
    requires RowJoined(root, pos, k, row, n) && Coarsens(root', root)
    ensures RowJoined(root', pos, k, row, n)
  {
  }

  lemma RowsJoinedCoarsens(root': seq<int>, root: seq<int>, pos: map<int, int>, adj: map<int, seq<(int, int)>>, K: set<int>)
    requires RowsJoined(root, pos, adj, K) && Coarsens(root', root)
    ensures RowsJoined(root', pos, adj, K)
  {
    forall k | k in K && k in adj
      ensures RowJoined(root', pos, k, adj[k], |adj[k]|)
    {
      RowJoinedCoarsens(root', root, pos, k, adj[k], |adj[k]|);
    }
  }

  /** Every entry (x, w) of row k is mirrored by an entry (k, w) of row x. */
  ghost predicate Symmetric(adj: map<int, seq<(int, int)>>)
  {
    forall k, x :: k in adj && x in adj[k] ==> x.0 in adj && (k, x.1) in adj[x.0]
  }

  /** The adjacency that initializeVMap builds from an empty map is symmetric. */
  lemma BuiltSymmetric(edges: seq<Labels.LabeledEdge>)
    ensures Symmetric(LineGraphs.VMap(map[], edges))
  {
    var adj := LineGraphs.VMap(map[], edges);
    forall k, x: (int, int) | k in adj && x in adj[k]
      ensures x.0 in adj && (k, x.1) in adj[x.0]
    {
      assert x in LineGraphs.Get(adj, k);
      LineGraphs.VMapSymmetric(edges, k, x);
    }
  }

  /**
   * On a symmetric adjacency the forward entries are enough: every entry
   * joins its two positions, whichever way it points.
   */
  lemma SymmetricJoined(root: seq<int>, pos: map<int, int>, adj: map<int, seq<(int, int)>>, k: int, x: (int, int))
    requires RowsJoined(root, pos, adj, adj.Keys) && Symmetric(adj) && Placed(pos, adj, |root|)
    requires k in adj && x in adj[k]
    ensures Together(root, pos[k], pos[x.0])
  {
    var j :| 0 <= j < |adj[k]| && adj[k][j] == x;
    assert RowJoined(root, pos, k, adj[k], |adj[k]|);
    if pos[x.0] < pos[k] {
      var i :| 0 <= i < |adj[x.0]| && adj[x.0][i] == (k, x.1);
      assert RowJoined(root, pos, x.0, adj[x.0], |adj[x.0]|);
    }
  }

  /** vMap of findCCsLineGraph: the position of every node index. */
  method NodePositions(ns: seq<Labels.LabeledNode>) returns (pos: map<int, int>)
    ensures pos == PosMap(LineGraphs.Indices(ns))
  {
    ghost var ids := LineGraphs.Indices(ns);
    pos := map[];
    for i := 0 to |ns|
      invariant pos == PosMap(ids[..i])
    {
      assert ids[..i + 1][..i] == ids[..i];
      pos := pos[ns[i].index := i];
    }
    assert ids[..|ns|] == ids;
  }

  class WQUFPC {
    var parent: array<int>
    var rank: array<int>
    /** Number of components, as maintained by the source (see InitializeFromCC). */
    var count: int
    ghost var root: seq<int>
    ghost var depth: seq<nat>

    ghost predicate Valid()
      reads this, parent
    {
      parent != rank && parent.Length == rank.Length &&
      Forest(parent[..], root, depth)
    }

    /** p and q are in the same set. */
    ghost predicate SameSet(p: int, q: int)
      reads this
      requires 0 <= p < |root| && 0 <= q < |root|
    {
      root[p] == root[q]
    }

    constructor (n: nat)
      ensures Valid() && fresh(parent) && fresh(rank)
      ensures parent.Length == n && count == n
      ensures forall i :: 0 <= i < n ==> parent[i] == i && rank[i] == 0 && root[i] == i
      ensures forall i :: i in Roots(parent[..]) <==> 0 <= i < n
    {
      count := n;
      parent := new int[n](i => i);
      rank := new int[n](i => 0);
      root := seq(n, i => i);
      depth := seq(n, i => 0);
      new;
      assert forall j :: 0 <= j < n ==> parent[..][j] == root[j] == j && depth[j] == 0;
    }

    /** The number of components the structure reports (`count()`). */
    function Count(): int
      reads this
    {
      count
    }

    /**
     * Returns the representative of p, then points every element met on the way
     * up straight at it; the partition does not change.
     */
    method Find(p: int) returns (r: int)
      requires Valid() && 0 <= p < parent.Length
      modifies parent
      ensures Valid() && root == old(root) && depth == old(depth)
      ensures r == root[p] && parent[r] == r
      ensures forall i :: 0 <= i < parent.Length ==>
        parent[i] == (if i in Path(old(parent[..]), root, depth, p) then r else old(parent[i]))
      ensures Roots(parent[..]) == Roots(old(parent[..]))
    {
      ghost var op := parent[..];
      ghost var n := parent.Length;
      r := p;
      while parent[r] != r
        invariant 0 <= r < n && root[r] == root[p] && parent[..] == op
        decreases depth[r]
      {
        LinkedAt(op, root, depth, r);
        r := parent[r];
      }
      LinkedAt(op, root, depth, r);
      var x := p;
      ghost var done: set<int> := {};
      while x != r
        invariant 0 <= x < n && root[x] == r && parent[r] == r
        invariant Forest(parent[..], root, depth)
        invariant done + Path(op, root, depth, x) == Path(op, root, depth, p)
        invariant done !! Path(op, root, depth, x)
        invariant forall i :: 0 <= i < n ==> parent[i] == (if i in done then r else op[i])
        decreases depth[x]
      {
        LinkedAt(op, root, depth, x);
        assert op[x] != x && x in Path(op, root, depth, x);
        var nx := parent[x];
        assert nx == op[x];
        assert Path(op, root, depth, x) == {x} + Path(op, root, depth, nx);
        if x in Path(op, root, depth, nx) {
          PathBelow(op, root, depth, nx, x);
        }
        ghost var cur := parent[..];
        ForestRedirect(cur, root, depth, x);
        parent[x] := r;
        assert parent[..] == cur[x := root[x]];
        done := done + {x};
        x := nx;
      }
      forall i | 0 <= i < n
        ensures parent[i] == i <==> op[i] == i
      {
        if i in done {
          PathBelow(op, root, depth, p, i);
        }
      }
    }

    /**
     * Merges the sets of p and q by rank: the root of lower rank goes under the
     * other (Loser/Winner), and on a tie q's root also gains one rank.
     */
    method Union(p: int, q: int)
      requires Valid() && 0 <= p < parent.Length && 0 <= q < parent.Length
      modifies this, parent, rank
      ensures Valid() && parent == old(parent) && rank == old(rank)
      ensures SameSet(p, q) && Coarsens(root, old(root))
      ensures count - |Roots(parent[..])| == old(count - |Roots(parent[..])|)
      ensures old(root[p]) == old(root[q]) ==>
        root == old(root) && count == old(count) && rank[..] == old(rank[..]) &&
        Roots(parent[..]) == old(Roots(parent[..]))
      ensures var rP, rQ := old(root[p]), old(root[q]);
        var loser, winner := Loser(old(rank[..]), rP, rQ), Winner(old(rank[..]), rP, rQ);
        rP != rQ ==>
          count == old(count) - 1 && parent[loser] == winner &&
          root == Merge(old(root), loser, winner) &&
          Roots(parent[..]) == old(Roots(parent[..])) - {loser} &&
          rank[..] == if old(rank[rP]) == old(rank[rQ]) then old(rank[..])[rQ := old(rank[rQ]) + 1] else old(rank[..])
    {
      var rootP := Find(p);
      assert rootP in Roots(parent[..]);
      var rootQ := Find(q);
      assert rootP in Roots(parent[..]);
      assert rank[..] == old(rank[..]);
      if rootP == rootQ {
        return;
      }
      var loser, winner := rootP, rootQ;
      if rank[rootP] > rank[rootQ] {
        loser, winner := rootQ, rootP;
      }
      Link(loser, winner);
      if rank[rootP] == rank[rootQ] {
        ghost var rk := rank[..];
        rank[rootQ] := rank[rootQ] + 1;
        assert rank[..] == rk[rootQ := rk[rootQ] + 1];
      }
      ghost var par := parent[..];
      assert Forest(par, root, depth);
      count := count - 1;
      assert parent[..] == par;
    }

    /** Hangs the root a under the root b, updating the abstract state. */
    method Link(a: int, b: int)
      requires Valid() && 0 <= a < parent.Length && 0 <= b < parent.Length
      requires parent[a] == a && parent[b] == b && a != b
      modifies this`root, this`depth, parent
      ensures Valid()
      ensures parent[..] == old(parent[..])[a := b]
      ensures root == Merge(old(root), a, b)
      ensures Roots(parent[..]) == Roots(old(parent[..])) - {a}
      ensures |Roots(parent[..])| == |Roots(old(parent[..]))| - 1
      ensures Coarsens(root, old(root))
    {
      assert a in Roots(parent[..]);
      ForestLink(parent[..], root, depth, a, b);
      parent[a] := b;
      root := Merge(root, a, b);
      depth := Deepen(old(root), depth, a);
      assert parent[..] == old(parent[..])[a := b];
    }

    /** Whether p and q are in the same set; compresses both paths. */
    method SameCC(p: int, q: int) returns (b: bool)
      requires Valid() && 0 <= p < parent.Length && 0 <= q < parent.Length
      modifies parent
      ensures Valid() && root == old(root) && depth == old(depth)
      ensures b <==> SameSet(p, q)
    {
      var rp := Find(p);
      var rq := Find(q);
      b := rp == rq;
    }

    /**
     * Seeds a known component: rank[cc[0]] becomes |cc| and every listed element
     * points at cc[0]. The component count is left as it was.
     */
    method InitializeFromCC(cc: seq<int>)
      requires Valid() && |cc| > 0
      requires forall k :: 0 <= k < |cc| ==> 0 <= cc[k] < parent.Length
      modifies this`root, this`depth, parent, rank
      ensures Valid() && count == old(count)
      ensures rank[..] == old(rank[..])[cc[0] := |cc|]
      ensures forall j :: 0 <= j < parent.Length ==> parent[j] == if j in cc then cc[0] else old(parent[j])
      ensures forall j :: j in cc ==> root[j] == cc[0]
      ensures (forall k :: k in cc ==> old(parent[k]) == k) ==>
        forall j :: 0 <= j < parent.Length ==> root[j] == if old(root[j]) in cc then cc[0] else old(root[j])
    {
      ghost var par, n := parent[..], parent.Length;
      rank[cc[0]] := |cc|;
      var k := 0;
      while k < |cc|
        invariant 0 <= k <= |cc|
        invariant root == old(root) && depth == old(depth)
        invariant rank[..] == old(rank[..])[cc[0] := |cc|]
        invariant forall j :: 0 <= j < n ==> parent[j] == if j in cc[..k] then cc[0] else par[j]
      {
        parent[cc[k]] := cc[0];
        k := k + 1;
      }
      assert cc[..k] == cc;
      ghost var s := set j | j in cc;
      ForestSeed(par, root, depth, s, cc[0]);
      assert parent[..] == seq(n, j requires 0 <= j < n => if j in s then cc[0] else par[j]);
      ghost var r0, d0 := root, depth;
      ghost var root' := seq(n, j requires 0 <= j < n => RootAfterSeed(par, r0, d0, s, cc[0], j));
      ghost var depth' := seq(n, j requires 0 <= j < n => DepthAfterSeed(par, r0, d0, s, cc[0], j));
      if forall k :: k in cc ==> par[k] == k {
        forall j | 0 <= j < n
          ensures root'[j] == if root[j] in cc then cc[0] else root[j]
        {
          RootAfterSeedOfRoots(par, root, depth, s, cc[0], j);
        }
      }
      root, depth := root', depth';
    }

    /** Unions p and q unless find already puts them in one set (the body of both findCCs loops). */
    method Join(p: int, q: int)
      requires Valid() && 0 <= p < parent.Length && 0 <= q < parent.Length
      modifies this, parent, rank
      ensures Valid() && parent == old(parent) && rank == old(rank)
      ensures SameSet(p, q) && Coarsens(root, old(root))
      ensures count - |Roots(parent[..])| == old(count - |Roots(parent[..])|)
    {
      var rp := Find(p);
      var rq := Find(q);
      if rp != rq {
        Union(p, q);
      }
    }

    /** One entry of a row: joins pos[k] and the neighbour's position when pos[k] is the smaller. */
    method JoinEntry(pos: map<int, int>, k: int, row: seq<(int, int)>, j: int, ghost r0: seq<int>, ghost d0: int)
      requires Valid() && k in pos && 0 <= pos[k] < parent.Length && 0 <= j < |row|
      requires row[j].0 in pos && 0 <= pos[row[j].0] < parent.Length
      requires RowJoined(root, pos, k, row, j) && Coarsens(root, r0) && count - |Roots(parent[..])| == d0
      modifies this, parent, rank
      ensures Valid() && parent == old(parent) && rank == old(rank)
      ensures RowJoined(root, pos, k, row, j + 1) && Coarsens(root, r0) && count - |Roots(parent[..])| == d0
    {
      var p, q := pos[k], pos[row[j].0];
      if p < q {
        ghost var r1 := root;
        Join(p, q);
        RowJoinedCoarsens(root, r1, pos, k, row, j);
      }
    }

    /** The inner loop of findCCsLineGraph over the entries of row k. */
    method JoinRow(pos: map<int, int>, k: int, row: seq<(int, int)>, ghost r0: seq<int>, ghost d0: int)
      requires Valid() && k in pos && 0 <= pos[k] < parent.Length
      requires forall j :: 0 <= j < |row| ==> row[j].0 in pos && 0 <= pos[row[j].0] < parent.Length
      requires Coarsens(root, r0) && count - |Roots(parent[..])| == d0
      modifies this, parent, rank
      ensures Valid() && parent == old(parent) && rank == old(rank)
      ensures RowJoined(root, pos, k, row, |row|) && Coarsens(root, r0) && count - |Roots(parent[..])| == d0
    {
      for j := 0 to |row|
        invariant Valid() && parent == old(parent) && rank == old(rank)
        invariant RowJoined(root, pos, k, row, j) && Coarsens(root, r0) && count - |Roots(parent[..])| == d0
      {
        JoinEntry(pos, k, row, j, r0, d0);
      }
    }

    /** One round of findCCsLineGraph's outer loop: the row of key k joined, earlier rows kept joined. */
    method JoinKey(pos: map<int, int>, adj: map<int, seq<(int, int)>>, k: int, ghost done: set<int>,
                   ghost r0: seq<int>, ghost d0: int)
      requires Valid() && k in adj && Placed(pos, adj, parent.Length)
      requires RowsJoined(root, pos, adj, done) && Coarsens(root, r0) && count - |Roots(parent[..])| == d0
      modifies this, parent, rank
      ensures Valid() && parent == old(parent) && rank == old(rank)
      ensures RowsJoined(root, pos, adj, done + {k}) && Coarsens(root, r0) && count - |Roots(parent[..])| == d0
    {
      ghost var r1 := root;
      JoinRow(pos, k, adj[k], r1, d0);
      RowsJoinedCoarsens(root, r1, pos, adj, done);
      CoarsensChain(root, r1, r0);
    }

    /**
     * findCCsLineGraph: numbers the nodes by position (vMap), then for every
     * adjacency entry whose key's position p is smaller than its neighbour's
     * position q, unions p and q unless they are already in one set. The rows
     * are visited in an arbitrary order (the hash map's).
     */
    method FindCCsLineGraph(graph: LineGraphs.LineGraph)
      requires Valid()
      requires Covers(graph.adj, LineGraphs.Indices(graph.nodes)) && |graph.nodes| <= parent.Length
      modifies this, parent, rank
      ensures Valid() && parent == old(parent) && rank == old(rank)
      ensures RowsJoined(root, PosMap(LineGraphs.Indices(graph.nodes)), graph.adj, graph.adj.Keys)
      ensures Coarsens(root, old(root))
      ensures count - |Roots(parent[..])| == old(count - |Roots(parent[..])|)
    {
      var pos := NodePositions(graph.nodes);
      CoversPlaced(graph.adj, LineGraphs.Indices(graph.nodes), parent.Length);
      JoinRows(pos, graph.adj);
    }

    /** The outer loop of findCCsLineGraph: every row joined, in the map's order. */
    method JoinRows(pos: map<int, int>, adj: map<int, seq<(int, int)>>)
      requires Valid() && Placed(pos, adj, parent.Length)
      modifies this, parent, rank
      ensures Valid() && parent == old(parent) && rank == old(rank)
      ensures RowsJoined(root, pos, adj, adj.Keys) && Coarsens(root, old(root))
      ensures count - |Roots(parent[..])| == old(count - |Roots(parent[..])|)
    {
      ghost var r0, d0 := root, count - |Roots(parent[..])|;
      ghost var done: set<int> := {};
      var rest := adj.Keys;
      while rest != {}
        invariant rest + done == adj.Keys && rest !! done
        invariant Valid() && parent == old(parent) && rank == old(rank)
        invariant RowsJoined(root, pos, adj, done) && Coarsens(root, r0) && count - |Roots(parent[..])| == d0
        decreases |rest|
      {
        var k := Pick(rest);
        JoinKey(pos, adj, k, done, r0, d0);
        done := done + {k};
        rest := rest - {k};
      }
    }

    /** Unions every listed pair that is not already in one set; afterwards every pair is in one set. */
    method FindCCsHyperEdges(overlaps: seq<(int, int)>)
      requires Valid()
      requires forall k :: 0 <= k < |overlaps| ==> 0 <= overlaps[k].0 < parent.Length && 0 <= overlaps[k].1 < parent.Length
      modifies this, parent, rank
      ensures Valid() && parent == old(parent) && rank == old(rank)
      ensures forall k :: 0 <= k < |overlaps| ==> SameSet(overlaps[k].0, overlaps[k].1)
      ensures Coarsens(root, old(root))
      ensures count - |Roots(parent[..])| == old(count - |Roots(parent[..])|)
    {
      ghost var root0, gap := root, count - |Roots(parent[..])|;
      var k := 0;
      while k < |overlaps|
        invariant 0 <= k <= |overlaps|
        invariant Valid() && parent == old(parent) && rank == old(rank)
        invariant forall m :: 0 <= m < k ==> SameSet(overlaps[m].0, overlaps[m].1)
        invariant Coarsens(root, root0)
        invariant count - |Roots(parent[..])| == gap
      {
        k := UnionAt(overlaps, k, root0, gap);
      }
    }

    /** One iteration of FindCCsHyperEdges: pair k is united unless already in one set. */
    method UnionAt(overlaps: seq<(int, int)>, k: int, ghost root0: seq<int>, ghost gap: int) returns (k': int)
      requires Valid() && 0 <= k < |overlaps|
      requires forall k :: 0 <= k < |overlaps| ==> 0 <= overlaps[k].0 < parent.Length && 0 <= overlaps[k].1 < parent.Length
      requires forall m :: 0 <= m < k ==> SameSet(overlaps[m].0, overlaps[m].1)
      requires Coarsens(root, root0) && count - |Roots(parent[..])| == gap
      modifies this, parent, rank
      ensures k' == k + 1 && Valid() && parent == old(parent) && rank == old(rank)
      ensures forall m :: 0 <= m < k' ==> SameSet(overlaps[m].0, overlaps[m].1)
      ensures Coarsens(root, root0) && count - |Roots(parent[..])| == gap
    {
      k' := k + 1;
      var p, q := overlaps[k].0, overlaps[k].1;
      var rp := Find(p);
      var rq := Find(q);
      if rp != rq {
        ghost var r0 := root;
        Union(p, q);
        assert Coarsens(root, r0);
        CoarsensChain(root, r0, root0);
        forall m | 0 <= m < k
          ensures SameSet(overlaps[m].0, overlaps[m].1)
        {
          assert r0[overlaps[m].0] == r0[overlaps[m].1];
        }
      }
    }
  }
}
