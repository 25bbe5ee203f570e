/**
 * The bidirectional breadth-first search between two hyperedges: one
 * search tree grown from each end, one level at a time on each side in
 * turn, until some hyperedge is in both trees. The result is the set of
 * hyperedges on the two root paths through a shared hyperedge.
 */
module PathSearch {
  import opened Wrappers
  import opened Walks
  import opened HyperGraphs
  import opened SearchTrees
  import Utils
  import opened Distances
  import AllPathsState

  /** With exact neighbour maps, the s-neighbour relation is symmetric. */
  lemma ExactSymmetric(g: HyperGraph)
    requires g.ExactNeighbours()
    ensures Symmetric(g.Nb())
  {
    var nb := g.Nb();
    forall a, b | 0 <= a < |nb| && b in nb[a]
      ensures 0 <= b < |nb|
    {
      assert b in g.OverlapsBelow(a, |g.hyperedges|);
    }
    forall a, b | 0 <= a < |nb| && 0 <= b < |nb| && b in nb[a]
      ensures a in nb[b] && nb[b][a] == nb[a][b]
    {
      g.OverlapSym(a, b);
    }
  }

  /** The s-neighbours of the hyperedges in xs. */
  ghost function NextTo(nb: seq<map<int, int>>, s: int, xs: set<int>): set<int>
  {
    set x, y | x in xs && 0 <= x < |nb| && y in nb[x] && nb[x][y] >= s :: y
  }

  /** The s-neighbours of one hyperedge are those the hyperedge reports. */
  lemma NextToOne(g: HyperGraph, nb: seq<map<int, int>>, s: int, x: int)
    requires nb == g.Nb() && g.IsEdge(x)
    ensures NextTo(nb, s, {x}) == g.GetSNeighborsOf(x, s)
  {
    forall y | y in g.GetSNeighborsOf(x, s)
      ensures y in NextTo(nb, s, {x})
    {
      assert Linked(nb, s, x, y);
    }
  }

  /** The s-neighbours of a union are the union of the s-neighbours. */
  lemma NextToUnion(nb: seq<map<int, int>>, s: int, xs: set<int>, x: int)
    ensures NextTo(nb, s, xs + {x}) == NextTo(nb, s, xs) + NextTo(nb, s, {x})
  {
    forall y | y in NextTo(nb, s, xs + {x})
      ensures y in NextTo(nb, s, xs) + NextTo(nb, s, {x})
    {
      var z :| z in xs + {x} && 0 <= z < |nb| && y in nb[z] && nb[z][y] >= s;
      if z == x {
        assert y in NextTo(nb, s, {x});
      } else {
        assert y in NextTo(nb, s, xs);
      }
    }
    forall y | y in NextTo(nb, s, xs)
      ensures y in NextTo(nb, s, xs + {x})
    {
      var z :| z in xs && 0 <= z < |nb| && y in nb[z] && nb[z][y] >= s;
      assert z in xs + {x};
    }
    forall y | y in NextTo(nb, s, {x})
      ensures y in NextTo(nb, s, xs + {x})
    {
      assert Linked(nb, s, x, y);
      assert x in xs + {x};
    }
  }

  /** The hyperedges of a queue with one more entry. */
  lemma NodesAppend(q: seq<(int, int)>, r: seq<(int, int)>)
    ensures Nodes(q + r) == Nodes(q) + Nodes(r)
  {
    var qr := q + r;
    forall x | x in Nodes(qr)
      ensures x in Nodes(q) + Nodes(r)
    {
      var i :| 0 <= i < |qr| && qr[i].0 == x;
      if i < |q| {
        assert q[i] == qr[i];
      } else {
        assert r[i - |q|] == qr[i];
      }
    }
    forall x | x in Nodes(q)
      ensures x in Nodes(qr)
    {
      var i :| 0 <= i < |q| && q[i].0 == x;
      assert qr[i] == q[i];
    }
    forall x | x in Nodes(r)
      ensures x in Nodes(qr)
    {
      var i :| 0 <= i < |r| && r[i].0 == x;
      assert qr[|q| + i] == r[i];
    }
  }

  /** A queue of one entry holds its hyperedge. */
  lemma NodesOne(e: (int, int))
    ensures Nodes([e]) == {e.0}
  {
    assert [e][0] == e;
  }

  /*
   * The search trees.
   */

  /**
   * A tree grown from root along s-neighbours: its nodes are hyperedges,
   * root is its only root at depth 0, and every other node is an
   * s-neighbour of its parent, one deeper.
   */
  ghost predicate Grown(nb: seq<map<int, int>>, s: int, root: int, t: Tree)
    reads t
  {
    t.Valid() && root in t.nodes &&
    (forall x :: x in t.nodes ==> 0 <= x < |nb| && (t.nodes[x].parent == -1 <==> x == root)) &&
    (forall x :: x in t.nodes && t.nodes[x].parent != -1 ==> Linked(nb, s, t.nodes[x].parent, x)) &&
    (forall x :: x in t.nodes ==>
      t.depth[x] == if t.nodes[x].parent == -1 then 0 else t.depth[t.nodes[x].parent] + 1)
  }

  /** The chain to a node of a grown tree is one longer than the node's depth. */
  lemma {:induction false} ChainDepth(nb: seq<map<int, int>>, s: int, root: int, t: Tree, k: int)
    requires Grown(nb, s, root, t) && k in t.nodes
    ensures |t.ChainTo(k)| == t.depth[k] + 1
    decreases t.depth[k]
  {
    var q := t.nodes[k].parent;
    if q != -1 {
      ChainDepth(nb, s, root, t, q);
    }
  }

  /** The chain to a node of a grown tree is a walk from the root, through the node's root path. */
  lemma GrownWalk(nb: seq<map<int, int>>, s: int, root: int, t: Tree, k: int)
    requires Grown(nb, s, root, t) && k in t.nodes
    ensures WalkTo(nb, s, root, k, t.ChainTo(k)) && Utils.Elements(t.ChainTo(k)) == t.PathTo(k)
  {
    t.ChainToPath(k);
    var c := t.ChainTo(k);
    forall j | 0 <= j < |c| - 1
      ensures Linked(nb, s, c[j], c[j + 1])
    {
      var x := c[j + 1];
      assert x in t.nodes && t.nodes[x].parent == c[j];
      assert c[j] in t.nodes;
    }
  }

  /**
   * Every hyperedge at s-distance at most level from root has a depth, and
   * that depth is at most the length of any s-walk from root to it.
   */
  ghost predicate Ball(nb: seq<map<int, int>>, s: int, root: int, depth: map<int, nat>, level: int)
  {
    forall y, w :: WalkTo(nb, s, root, y, w) && |w| <= level + 1 ==> y in depth && depth[y] <= |w| - 1
  }

  /**
   * One side of the search between two levels: a grown tree no deeper
   * than the level that holds every hyperedge within the level at its
   * s-distance, a queue of tree nodes all at the given level, and every
   * node that is not queued has all its s-neighbours in the tree.
   */
  ghost predicate Side(nb: seq<map<int, int>>, s: int, root: int, t: Tree, queue: seq<(int, int)>, level: int)
    reads t
  {
    Grown(nb, s, root, t) && level >= 0 &&
    (forall x :: x in t.depth ==> t.depth[x] <= level) && Ball(nb, s, root, t.depth, level) &&
    (forall i :: 0 <= i < |queue| ==> queue[i].0 in t.nodes && queue[i].1 == level) &&
    (forall x, y :: x in t.nodes && x !in Nodes(queue) && Linked(nb, s, x, y) ==> y in t.nodes)
  }

  /** The depths d0 are kept in d, and no depth in d exceeds bound. */
  ghost predicate DepthsKept(d0: map<int, nat>, d: map<int, nat>, bound: int)
  {
    (forall x :: x in d0 ==> x in d && d[x] == d0[x]) && (forall x :: x in d ==> d[x] <= bound)
  }

  /**
   * Expanding a level whose queue q0 holds every node whose s-neighbours
   * may be missing, and adding them no deeper than level + 1, extends the
   * ball by one level.
   */
  lemma BallStep(nb: seq<map<int, int>>, s: int, root: int, q0: seq<(int, int)>, level: int,
                 n0: set<int>, d0: map<int, nat>, d: map<int, nat>)
    requires level >= 0 && Ball(nb, s, root, d0, level) && d0.Keys == n0
    requires forall x, y :: x in n0 && x !in Nodes(q0) && Linked(nb, s, x, y) ==> y in n0
    requires NextTo(nb, s, Nodes(q0)) <= d.Keys && DepthsKept(d0, d, level + 1)
    ensures Ball(nb, s, root, d, level + 1)
  {
    forall y, w | WalkTo(nb, s, root, y, w) && |w| <= level + 2
      ensures y in d && d[y] <= |w| - 1
    {
      if |w| <= level + 1 {
        assert y in d0 && d0[y] <= |w| - 1;
      } else {
        WalkPrefix(nb, s, root, y, w, |w| - 1);
        var x := w[|w| - 2];
        assert x in d0;
        assert Linked(nb, s, x, y);
        if x in Nodes(q0) {
          assert y in NextTo(nb, s, {x});
          assert y in NextTo(nb, s, Nodes(q0));
        }
      }
    }
  }

  /**
   * Two disjoint balls, of radii la around a and lb around b: every
   * s-walk from a to b is longer than la + lb + 1 hyperedges.
   */
  lemma Apart(nb: seq<map<int, int>>, s: int, a: int, b: int, da: map<int, nat>, la: int, db: map<int, nat>, lb: int)
    requires Symmetric(nb) && Ball(nb, s, a, da, la) && Ball(nb, s, b, db, lb)
    requires da.Keys !! db.Keys && la >= 0 && lb >= 0
    ensures NoShorter(nb, s, a, b, la + lb + 1)
  {
    forall w | WalkTo(nb, s, a, b, w)
      ensures |w| >= la + lb + 2
    {
      if |w| < la + lb + 2 {
        var j := if la < |w| - 1 then la else |w| - 1;
        WalkPrefix(nb, s, a, b, w, j + 1);
        assert w[j] in da;
        if |w| > 1 {
          assert Linked(nb, s, w[|w| - 2], b);
        }
        WalkSuffix(nb, s, a, b, w, j);
        WalkReverse(nb, s, w[j], b, w[j..]);
        assert false;
      }
    }
  }

  /** A side whose queue is empty holds every hyperedge reachable from its root. */
  lemma SideClosed(nb: seq<map<int, int>>, s: int, root: int, t: Tree, level: int, b: int)
    requires Side(nb, s, root, t, [], level)
    ensures Reachable(nb, s, root, b) ==> b in t.nodes
  {
    assert Nodes([]) == {};
    if Reachable(nb, s, root, b) {
      ClosedReach(nb, s, root, t.nodes.Keys, b);
    }
  }

  /**
   * While one level is expanded: m entries of the level's queue q0 are
   * polled, the rest followed by the entries added so far (later, one
   * level further); the tree's nodes are the former ones plus those
   * added, which are s-neighbours of the polled hyperedges, all of which
   * are in the tree; the flag says whether any of those neighbours is
   * reported by the other side's filter.
   */
  ghost predicate Forward(nb: seq<map<int, int>>, s: int, q0: seq<(int, int)>, level: int, n0: set<int>,
                          filter: set<int>, m: int, later: seq<(int, int)>, queue: seq<(int, int)>,
                          added: set<int>, intersect: bool, keys: set<int>)
  {
    0 <= m <= |q0| && queue == q0[m..] + later &&
    keys == n0 + added && added !! n0 &&
    AtStep(later, level + 1) && Nodes(later) == added &&
    added <= NextTo(nb, s, Nodes(q0[..m])) && NextTo(nb, s, Nodes(q0[..m])) <= keys &&
    (intersect <==> NextTo(nb, s, Nodes(q0[..m])) * filter != {})
  }

  /** Before the first poll. */
  lemma ForwardStart(nb: seq<map<int, int>>, s: int, q0: seq<(int, int)>, level: int, n0: set<int>, filter: set<int>)
    ensures Forward(nb, s, q0, level, n0, filter, 0, [], q0, {}, false, n0)
  {
    assert q0[0..] + [] == q0;
    assert Nodes(q0[..0]) == {};
    assert Nodes([]) == {};
    assert NextTo(nb, s, {}) == {};
  }

  /** After the next entry of the level is polled and its s-neighbours visited. */
  lemma ForwardStep(nb: seq<map<int, int>>, s: int, q0: seq<(int, int)>, level: int, n0: set<int>,
                    filter: set<int>, m: int, later: seq<(int, int)>, queue: seq<(int, int)>,
                    added: set<int>, intersect: bool, keys: set<int>,
                    more: seq<(int, int)>, ngbs: set<int>, queue': seq<(int, int)>,
                    added': set<int>, intersect': bool, keys': set<int>)
    requires Forward(nb, s, q0, level, n0, filter, m, later, queue, added, intersect, keys)
    requires m < |q0| && ngbs == NextTo(nb, s, {q0[m].0})
    requires queue' == queue[1..] + more && AtStep(more, level + 1)
    requires keys' == n0 + added' && added' == added + Nodes(more) && Nodes(more) !! keys
    requires Nodes(more) <= ngbs && ngbs <= keys'
    requires intersect' <==> intersect || ngbs * filter != {}
    ensures Forward(nb, s, q0, level, n0, filter, m + 1, later + more, queue', added', intersect', keys')
  {
    assert queue[1..] == q0[m + 1..] + later;
    assert queue' == q0[m + 1..] + (later + more);
    NodesAppend(later, more);
    assert q0[..m + 1] == q0[..m] + [q0[m]];
    NodesAppend(q0[..m], [q0[m]]);
    NodesOne(q0[m]);
    NextToUnion(nb, s, Nodes(q0[..m]), q0[m].0);
  }

  /** When the polling stops, the whole level is expanded: the next side and the tree's growth. */
  lemma ForwardDone(nb: seq<map<int, int>>, s: int, root: int, t: Tree, q0: seq<(int, int)>, level: int,
                    n0: set<int>, d0: map<int, nat>, filter: set<int>, m: int, later: seq<(int, int)>,
                    queue: seq<(int, int)>, added: set<int>, intersect: bool)
    requires Grown(nb, s, root, t)
    requires level >= 0 && Ball(nb, s, root, d0, level) && d0.Keys == n0 && DepthsKept(d0, t.depth, level + 1)
    requires forall i :: 0 <= i < |q0| ==> q0[i].0 in n0 && q0[i].1 == level
    requires forall x, y :: x in n0 && x !in Nodes(q0) && Linked(nb, s, x, y) ==> y in n0
    requires Forward(nb, s, q0, level, n0, filter, m, later, queue, added, intersect, t.nodes.Keys)
    requires queue == [] || queue[0].1 > level
    ensures Side(nb, s, root, t, queue, level + 1)
    ensures t.nodes.Keys == n0 + NextTo(nb, s, Nodes(q0))
    ensures Nodes(queue) == t.nodes.Keys - n0
    ensures intersect <==> NextTo(nb, s, Nodes(q0)) * filter != {}
  {
    assert m == |q0|;
    assert q0[..m] == q0 && queue == later;
    BallStep(nb, s, root, q0, level, n0, d0, t.depth);
    forall x, y | x in t.nodes && x !in Nodes(queue) && Linked(nb, s, x, y)
      ensures y in t.nodes
    {
      assert y in NextTo(nb, s, {x});
      if x in Nodes(q0) {
        assert y in NextTo(nb, s, Nodes(q0));
      }
    }
  }

  /*
   * The search.
   */

  /**
   * `stepForward`: polls every entry of the current level and adds each
   * s-neighbour of its hyperedge not yet in the tree, queued one level
   * further; answers whether any s-neighbour examined is reported by the
   * other side's filter.
   */
  method StepForward(g: HyperGraph, ghost nb: seq<map<int, int>>, s: int, ghost root: int,
                     queue: seq<(int, int)>, src: Tree, dst: Tree, frontier: int)
    returns (queue': seq<(int, int)>, intersect: bool)
    requires nb == g.Nb() && InRange(nb) && src != dst && dst.Valid()
    requires Side(nb, s, root, src, queue, frontier)
    modifies src
    ensures Side(nb, s, root, src, queue', frontier + 1)
    ensures src.nodes.Keys == old(src.nodes.Keys) + NextTo(nb, s, Nodes(queue))
    ensures Nodes(queue') == src.nodes.Keys - old(src.nodes.Keys)
    ensures intersect <==> NextTo(nb, s, Nodes(queue)) * dst.filter != {}
  {
    ghost var n0, q0, d0 := src.nodes.Keys, queue, src.depth;
    ghost var m, later, added := 0, [], {};
    queue' := queue;
    intersect := false;
    ForwardStart(nb, s, q0, frontier, n0, dst.filter);
    while queue' != []
      invariant Grown(nb, s, root, src) && DepthsKept(d0, src.depth, frontier + 1)
      invariant Forward(nb, s, q0, frontier, n0, dst.filter, m, later, queue', added, intersect, src.nodes.Keys)
      decreases |q0| - m
    {
      if queue'[0].1 > frontier {
        break;
      }
      assert m < |q0| && queue'[0] == q0[m];
      var p := queue'[0];
      ghost var keys := src.nodes.Keys;
      queue' := queue'[1..];
      var ngbs := g.GetSNeighborsOf(p.0, s);
      NextToOne(g, nb, s, p.0);
      ghost var more, added';
      ghost var intersect0 := intersect;
      queue', intersect, more, added' := ExpandEntry(g, nb, s, root, src, dst, p.0, p.1, queue', intersect, added, n0, d0, frontier + 1);
      ForwardStep(nb, s, q0, frontier, n0, dst.filter, m, later, q0[m..] + later, added, intersect0, keys,
                  more, ngbs, queue', added', intersect, src.nodes.Keys);
      m, later, added := m + 1, later + more, added';
    }
    ForwardDone(nb, s, root, src, q0, frontier, n0, d0, dst.filter, m, later, queue', added, intersect);
  }

  /**
   * The s-neighbours of the polled hyperedge cur, in the order the set
   * gives them: each not yet in the tree is added under cur and queued at
   * step + 1; the flag is raised by any reported by the other filter.
   */
  method ExpandEntry(g: HyperGraph, ghost nb: seq<map<int, int>>, s: int, ghost root: int, src: Tree, dst: Tree,
                     cur: int, step: int, queue: seq<(int, int)>, intersect: bool, ghost added: set<int>,
                     ghost n0: set<int>, ghost d0: map<int, nat>, ghost bound: int)
    returns (queue': seq<(int, int)>, intersect': bool, ghost more: seq<(int, int)>, ghost added': set<int>)
    requires nb == g.Nb() && InRange(nb) && src != dst && dst.Valid()
    requires Grown(nb, s, root, src) && cur in src.nodes
    requires src.nodes.Keys == n0 + added
    requires DepthsKept(d0, src.depth, bound) && cur in d0 && d0[cur] < bound
    modifies src
    ensures Grown(nb, s, root, src) && DepthsKept(d0, src.depth, bound)
    ensures queue' == queue + more && AtStep(more, step + 1)
    ensures src.nodes.Keys == n0 + added' && added' == added + Nodes(more) && Nodes(more) !! old(src.nodes.Keys)
    ensures Nodes(more) <= g.GetSNeighborsOf(cur, s) && g.GetSNeighborsOf(cur, s) <= src.nodes.Keys
    ensures intersect' <==> intersect || g.GetSNeighborsOf(cur, s) * dst.filter != {}
  {
    var ngbs := g.GetSNeighborsOf(cur, s);
    ghost var keys0 := src.nodes.Keys;
    queue', intersect', more, added' := queue, intersect, [], added;
    var rest := ngbs;
    VisitingStart(queue, step, n0, added, keys0, ngbs, intersect, dst.filter);
    while rest != {}
      invariant Grown(nb, s, root, src) && DepthsKept(d0, src.depth, bound)
      invariant Visiting(queue, step, n0, added, keys0, ngbs, intersect, dst.filter,
                         queue', more, added', src.nodes.Keys, rest, intersect')
      decreases rest
    {
      var ngb := Pick(rest);
      ghost var q1, keys1, rest1, intersect1 := queue', src.nodes.Keys, rest, intersect';
      rest := rest - {ngb};
      ghost var one;
      queue', one := VisitNeighbour(g, nb, s, root, src, cur, step, ngb, queue', d0, bound);
      if dst.HasBeenVisited(ngb, false) {
        intersect' := true;
      }
      VisitingStep(queue, step, n0, added, keys0, ngbs, intersect, dst.filter,
                   q1, more, added', keys1, rest1, intersect1, ngb, one, queue', src.nodes.Keys, intersect');
      more, added' := more + one, added' + Nodes(one);
    }
  }

  /**
   * While the s-neighbours ngbs of one hyperedge are visited, rest still
   * to go: the entries added (more) are queued at step, their hyperedges
   * are new to the tree and are its only new nodes, every neighbour
   * visited is in the tree, and the flag records whether the other
   * filter reported one of them.
   */
  ghost predicate Visiting(queue: seq<(int, int)>, step: int, n0: set<int>, added: set<int>, keys0: set<int>,
                           ngbs: set<int>, intersect: bool, filter: set<int>,
                           queue': seq<(int, int)>, more: seq<(int, int)>, added': set<int>, keys: set<int>,
                           rest: set<int>, intersect': bool)
  {
    rest <= ngbs && keys0 == n0 + added &&
    queue' == queue + more && AtStep(more, step + 1) &&
    keys == n0 + added' && added' == added + Nodes(more) && Nodes(more) !! keys0 &&
    Nodes(more) <= ngbs - rest && ngbs - rest <= keys &&
    (intersect' <==> intersect || (ngbs - rest) * filter != {})
  }

  lemma VisitingStart(queue: seq<(int, int)>, step: int, n0: set<int>, added: set<int>, keys0: set<int>,
                      ngbs: set<int>, intersect: bool, filter: set<int>)
    requires keys0 == n0 + added
    ensures Visiting(queue, step, n0, added, keys0, ngbs, intersect, filter, queue, [], added, keys0, ngbs, intersect)
  {
    assert Nodes([]) == {};
    assert queue + [] == queue;
  }

  /** One more neighbour visited. */
  lemma VisitingStep(queue: seq<(int, int)>, step: int, n0: set<int>, added: set<int>, keys0: set<int>,
                     ngbs: set<int>, intersect: bool, filter: set<int>,
                     queue': seq<(int, int)>, more: seq<(int, int)>, added': set<int>, keys: set<int>,
                     rest: set<int>, intersect': bool,
                     ngb: int, one: seq<(int, int)>, queue'': seq<(int, int)>, keys': set<int>, intersect'': bool)
    requires Visiting(queue, step, n0, added, keys0, ngbs, intersect, filter, queue', more, added', keys, rest, intersect')
    requires ngb in rest
    requires queue'' == queue' + one && AtStep(one, step + 1)
    requires Nodes(one) !! keys && keys' == keys + Nodes(one) && ngb in keys' && Nodes(one) <= {ngb}
    requires intersect'' <==> intersect' || ngb in filter
    ensures Visiting(queue, step, n0, added, keys0, ngbs, intersect, filter,
                     queue'', more + one, added' + Nodes(one), keys', rest - {ngb}, intersect'')
  {
    NodesAppend(more, one);
    AtStepAppend(more, one, step + 1);
    assert queue'' == queue + (more + one);
    var done, done' := ngbs - rest, ngbs - (rest - {ngb});
    assert done' == done + {ngb};
    if intersect'' {
      if intersect' && !intersect {
        var x := Member(done * filter);
        assert x in done' * filter;
      } else if !intersect {
        assert ngb in done' * filter;
      }
    }
    if done' * filter != {} {
      var x := Member(done' * filter);
      if x != ngb {
        assert x in done * filter;
      }
    }
  }

  /** Every entry of q is at step st. */
  ghost predicate AtStep(q: seq<(int, int)>, st: int)
  {
    forall i :: 0 <= i < |q| ==> q[i].1 == st
  }

  lemma AtStepAppend(q: seq<(int, int)>, r: seq<(int, int)>, st: int)
    requires AtStep(q, st) && AtStep(r, st)
    ensures AtStep(q + r, st)
  {
  }

  /** One s-neighbour ngb of cur: added under cur and queued at step + 1 unless already in the tree. */
  method VisitNeighbour(g: HyperGraph, ghost nb: seq<map<int, int>>, s: int, ghost root: int, src: Tree,
                        cur: int, step: int, ngb: int, queue: seq<(int, int)>, ghost d0: map<int, nat>, ghost bound: int)
    returns (queue': seq<(int, int)>, ghost one: seq<(int, int)>)
    requires nb == g.Nb() && InRange(nb) && Grown(nb, s, root, src) && cur in src.nodes && Linked(nb, s, cur, ngb)
    requires DepthsKept(d0, src.depth, bound) && cur in d0 && d0[cur] < bound
    modifies src
    ensures Grown(nb, s, root, src) && src.filter >= old(src.filter) && DepthsKept(d0, src.depth, bound)
    ensures queue' == queue + one && AtStep(one, step + 1)
    ensures ngb in old(src.nodes) ==> one == [] && src.nodes == old(src.nodes)
    ensures ngb !in old(src.nodes) ==> one == [(ngb, step + 1)] && src.nodes.Keys == old(src.nodes.Keys) + {ngb}
    ensures Nodes(one) !! old(src.nodes.Keys) && src.nodes.Keys == old(src.nodes.Keys) + Nodes(one)
    ensures Nodes(one) <= {ngb} && ngb in src.nodes
    ensures src.depth == if ngb in old(src.nodes) then old(src.depth) else old(src.depth)[ngb := old(src.depth)[cur] + 1]
  {
    queue', one := queue, [];
    assert Nodes([]) == {};
    if !src.HasBeenVisited(ngb, true) {
      src.AddNode(ngb, cur);
      queue' := queue' + [(ngb, step + 1)];
      one := [(ngb, step + 1)];
      NodesOne((ngb, step + 1));
    }
  }

  /** The hyperedges outside a set shrink as the set grows. */
  lemma Fewer(n: int, xs: set<int>, ys: set<int>)
    requires xs <= ys
    ensures |Ids(n) - ys| <= |Ids(n) - xs|
    ensures xs < ys && ys <= Ids(n) ==> |Ids(n) - ys| < |Ids(n) - xs|
  {
    SubsetCard(Ids(n) - ys, Ids(n) - xs);
    if xs < ys && ys <= Ids(n) {
      var x := Member(ys - xs);
      SubsetCard(Ids(n) - ys, Ids(n) - xs - {x});
    }
  }

  /**
   * The root paths through a shared node k, joined, are the hyperedges of
   * an s-walk from a to b as long as k's two depths together; when no
   * s-walk from a to b is shorter than that, it is a shortest one.
   */
  lemma Joined(nb: seq<map<int, int>>, s: int, a: int, b: int, ta: Tree, tb: Tree, k: int, len: int, path: set<int>)
    requires Symmetric(nb) && Grown(nb, s, a, ta) && Grown(nb, s, b, tb) && k in ta.nodes && k in tb.nodes
    requires ta.depth[k] + tb.depth[k] <= len && NoShorter(nb, s, a, b, len)
    requires path == ta.PathTo(k) + tb.PathTo(k) || path == tb.PathTo(k) + ta.PathTo(k)
    ensures AllPathsState.ShortestPathSet(nb, s, a, b, path) && Reachable(nb, s, a, b) && a in path
  {
    GrownWalk(nb, s, a, ta, k);
    GrownWalk(nb, s, b, tb, k);
    ChainDepth(nb, s, a, ta, k);
    ChainDepth(nb, s, b, tb, k);
    var wa, wb := ta.ChainTo(k), tb.ChainTo(k);
    WalkReverse(nb, s, b, k, wb);
    WalkJoin(nb, s, a, k, b, wa, Reverse(wb));
    var w := wa + Reverse(wb)[1..];
    assert IsDistance(nb, s, a, b, |w| - 1);
    JoinElements(wa, wb);
    assert w[0] == a;
  }

  /** Two walks ending at the same node, the second reversed and joined on to the first, visit the nodes of both. */
  lemma JoinElements(wa: seq<int>, wb: seq<int>)
    requires wa != [] && wb != [] && wa[|wa| - 1] == wb[|wb| - 1]
    ensures Utils.Elements(wa + Reverse(wb)[1..]) == Utils.Elements(wa) + Utils.Elements(wb)
  {
    var rb := Reverse(wb);
    AllPathsState.ElementsReverse(wb);
    assert rb == [rb[0]] + rb[1..];
    assert Utils.Elements(rb) == {rb[0]} + Utils.Elements(rb[1..]);
  }

  /** A queue has hyperedges exactly when it has entries. */
  lemma NodesEmpty(q: seq<(int, int)>)
    ensures Nodes(q) == {} <==> q == []
  {
    if q != [] {
      assert q[0].0 in Nodes(q);
    }
  }

  /**
   * A round either adds a node to some tree or, adding none, leaves both
   * queues empty.
   */
  lemma Progress(n: int, kA0: set<int>, kA1: set<int>, kB0: set<int>, kB1: set<int>,
                 qA: seq<(int, int)>, qA': seq<(int, int)>, qB: seq<(int, int)>, qB': seq<(int, int)>)
    requires qA != [] && qB != [] && kA0 <= kA1 && kB0 <= kB1
    requires forall x :: x in kA1 ==> 0 <= x < n
    requires forall x :: x in kB1 ==> 0 <= x < n
    requires Nodes(qA') == kA1 - kA0 && Nodes(qB') == kB1 - kB0
    ensures |Ids(n) - kA1| + |Ids(n) - kB1| < |Ids(n) - kA0| + |Ids(n) - kB0| ||
      (|Ids(n) - kA1| + |Ids(n) - kB1| == |Ids(n) - kA0| + |Ids(n) - kB0| && |qA'| + |qB'| < |qA| + |qB|)
  {
    Fewer(n, kA0, kA1);
    Fewer(n, kB0, kB1);
    NodesEmpty(qA');
    NodesEmpty(qB');
  }

  /** When one queue runs out before the trees share a node, b is not s-reachable from a. */
  lemma NotMet(nb: seq<map<int, int>>, s: int, a: int, b: int, ta: Tree, tb: Tree,
               qA: seq<(int, int)>, qB: seq<(int, int)>, level: int)
    requires Symmetric(nb) && Side(nb, s, a, ta, qA, level) && Side(nb, s, b, tb, qB, level)
    requires ta.nodes.Keys !! tb.nodes.Keys && (qA == [] || qB == [])
    ensures !Reachable(nb, s, a, b)
  {
    if qA == [] {
      SideClosed(nb, s, a, ta, level, b);
    } else {
      SideClosed(nb, s, b, tb, level, a);
      if Reachable(nb, s, a, b) {
        ReachableSymmetric(nb, s, a, b);
      }
    }
  }

  /**
   * One side's turn of a round: expand its current level and, if the
   * other side's filter reported one of the s-neighbours examined,
   * intersect the trees; the result is empty exactly when the trees
   * share no node, and otherwise joins the root paths through one.
   */
  method HalfRound(g: HyperGraph, ghost nb: seq<map<int, int>>, s: int, ghost root: int,
                   queue: seq<(int, int)>, src: Tree, dst: Tree, frontier: int)
    returns (queue': seq<(int, int)>, path: set<int>, ghost k: int)
    requires nb == g.Nb() && InRange(nb) && src != dst && dst.Valid()
    requires Side(nb, s, root, src, queue, frontier) && src.nodes.Keys !! dst.nodes.Keys
    modifies src
    ensures Side(nb, s, root, src, queue', frontier + 1)
    ensures old(src.nodes.Keys) <= src.nodes.Keys && Nodes(queue') == src.nodes.Keys - old(src.nodes.Keys)
    ensures path == {} <==> src.nodes.Keys !! dst.nodes.Keys
    ensures path != {} ==> k in src.nodes && k in dst.nodes && path == src.PathTo(k) + dst.PathTo(k)
    ensures path != {} ==> forall k' :: k' in src.nodes && k' in dst.nodes ==> |path| <= |src.JoinAt(dst, k')|
  {
    ghost var keys0, q0 := src.nodes.Keys, queue;
    var hit;
    queue', hit := StepForward(g, nb, s, root, queue, src, dst, frontier);
    path := {};
    k := root;
    if hit {
      path := src.TreeIntersect(dst);
      if path != {} {
        k :| k in src.nodes && k in dst.nodes && path == src.JoinAt(dst, k) &&
          forall k' :: k' in src.nodes && k' in dst.nodes ==> |path| <= |src.JoinAt(dst, k')|;
      }
    } else {
      NoHit(keys0, NextTo(nb, s, Nodes(q0)), src.nodes.Keys, dst.nodes.Keys, dst.filter);
    }
  }

  /** New nodes none of which the other filter reports are none of the other tree's nodes. */
  lemma NoHit(keys0: set<int>, next: set<int>, keys: set<int>, other: set<int>, filter: set<int>)
    requires keys == keys0 + next && keys0 !! other && other <= filter && next * filter == {}
    ensures keys !! other
  {
    forall x | x in other
      ensures x !in keys
    {
      assert x in filter && x !in next * filter;
    }
  }

  /**
   * `bidirectionalSPSearch`: for a == b the set {a}; otherwise the root
   * paths of the two trees joined at a shared node, which exist exactly
   * when b is s-reachable from a and are then the hyperedges of a
   * shortest s-walk from a to b, and the empty set when it is not. The
   * trees' filters report the given false positives besides their nodes.
   */
  method BidirectionalSPSearch(g: HyperGraph, a: int, b: int, s: int, estSize: int,
                               falsePositivesA: set<int>, falsePositivesB: set<int>)
    returns (path: set<int>)
    requires Symmetric(g.Nb()) && |g.Nb()| == |g.hyperedges| && g.IsEdge(a) && g.IsEdge(b)
    ensures a == b ==> path == {a}
    ensures a != b ==> (path != {} <==> Reachable(g.Nb(), s, a, b))
    ensures a != b && path != {} ==> AllPathsState.ShortestPathSet(g.Nb(), s, a, b, path)
  {
    ghost var nb := g.Nb();
    path := {};
    if a == b {
      path := path + {a};
      return;
    }
    var treeA, queueA := NewSide(nb, s, a, estSize, falsePositivesA);
    var treeB, queueB := NewSide(nb, s, b, estSize, falsePositivesB);
    path := Meet(g, nb, s, a, b, treeA, treeB, queueA, queueB);
  }

  /** A new tree holding only root, whose filter also reports the false positives, and root queued at step 0. */
  method NewSide(ghost nb: seq<map<int, int>>, s: int, root: int, estSize: int, falsePositives: set<int>)
    returns (t: Tree, queue: seq<(int, int)>)
    requires 0 <= root < |nb|
    ensures fresh(t) && Side(nb, s, root, t, queue, 0) && t.nodes.Keys == {root}
    ensures t.filter == falsePositives + {root}
  {
    t := new Tree(estSize, falsePositives);
    queue := [(root, 0)];
    t.AddNode(root, -1);
    SideStart(nb, s, root, t);
  }

  /** A tree holding only its root, at depth 0, with the root queued at step 0. */
  lemma SideStart(nb: seq<map<int, int>>, s: int, root: int, t: Tree)
    requires t.Valid() && t.nodes == map[root := TreeNode(root, -1)] && t.depth[root] == 0 && 0 <= root < |nb|
    ensures Side(nb, s, root, t, [(root, 0)], 0)
  {
    NodesOne((root, 0));
    forall y, w | WalkTo(nb, s, root, y, w) && |w| <= 1
      ensures y in t.depth && t.depth[y] <= |w| - 1
    {
      assert y == w[0] == root;
    }
  }

  /**
   * The rounds of the search (`while (!queueA.isEmpty() && !queueB.isEmpty())`):
   * each side in turn expands one level, until the trees share a node or
   * a queue runs out.
   */
  method Meet(g: HyperGraph, ghost nb: seq<map<int, int>>, s: int, a: int, b: int, treeA: Tree, treeB: Tree,
              queueA: seq<(int, int)>, queueB: seq<(int, int)>)
    returns (path: set<int>)
    requires nb == g.Nb() && Symmetric(nb) && treeA != treeB
    requires Side(nb, s, a, treeA, queueA, 0) && Side(nb, s, b, treeB, queueB, 0)
    requires treeA.nodes.Keys !! treeB.nodes.Keys
    modifies treeA, treeB
    ensures path != {} <==> Reachable(nb, s, a, b)
    ensures path != {} ==> AllPathsState.ShortestPathSet(nb, s, a, b, path)
  {
    var qA, qB := queueA, queueB;
    var frontier := 0;
    path := {};
    while qA != [] && qB != []
      invariant Side(nb, s, a, treeA, qA, frontier) && Side(nb, s, b, treeB, qB, frontier)
      invariant treeA.nodes.Keys !! treeB.nodes.Keys && path == {}
      decreases |Ids(|nb|) - treeA.nodes.Keys| + |Ids(|nb|) - treeB.nodes.Keys|, |qA| + |qB|
    {
      qA, qB, path := Round(g, nb, s, a, b, treeA, treeB, qA, qB, frontier);
      if path != {} {
        return;
      }
      frontier := frontier + 1;
    }
    NotMet(nb, s, a, b, treeA, treeB, qA, qB, frontier);
  }

  /** One round of the search: side A expands a level, then, unless the trees met, side B. */
  method Round(g: HyperGraph, ghost nb: seq<map<int, int>>, s: int, a: int, b: int, treeA: Tree, treeB: Tree,
               qA: seq<(int, int)>, qB: seq<(int, int)>, frontier: int)
    returns (qA': seq<(int, int)>, qB': seq<(int, int)>, path: set<int>)
    requires nb == g.Nb() && Symmetric(nb) && treeA != treeB && qA != [] && qB != []
    requires Side(nb, s, a, treeA, qA, frontier) && Side(nb, s, b, treeB, qB, frontier)
    requires treeA.nodes.Keys !! treeB.nodes.Keys
    modifies treeA, treeB
    ensures path != {} ==> AllPathsState.ShortestPathSet(nb, s, a, b, path) && Reachable(nb, s, a, b)
    ensures path == {} ==> Side(nb, s, a, treeA, qA', frontier + 1) && Side(nb, s, b, treeB, qB', frontier + 1)
    ensures path == {} ==> treeA.nodes.Keys !! treeB.nodes.Keys
    ensures path == {} ==>
      |Ids(|nb|) - treeA.nodes.Keys| + |Ids(|nb|) - treeB.nodes.Keys| <
        |Ids(|nb|) - old(treeA.nodes.Keys)| + |Ids(|nb|) - old(treeB.nodes.Keys)| ||
      (|Ids(|nb|) - treeA.nodes.Keys| + |Ids(|nb|) - treeB.nodes.Keys| ==
        |Ids(|nb|) - old(treeA.nodes.Keys)| + |Ids(|nb|) - old(treeB.nodes.Keys)| && |qA'| + |qB'| < |qA| + |qB|)
  {
    ghost var keysA, keysB := treeA.nodes.Keys, treeB.nodes.Keys;
    ghost var k;
    qB' := qB;
    Apart(nb, s, a, b, treeA.depth, frontier, treeB.depth, frontier);
    qA', path, k := HalfRound(g, nb, s, a, qA, treeA, treeB, frontier);
    if path != {} {
      Joined(nb, s, a, b, treeA, treeB, k, frontier + frontier + 1, path);
      return;
    }
    Apart(nb, s, a, b, treeA.depth, frontier + 1, treeB.depth, frontier);
    qB', path, k := HalfRound(g, nb, s, b, qB, treeB, treeA, frontier);
    if path != {} {
      Joined(nb, s, a, b, treeA, treeB, k, frontier + frontier + 2, path);
      return;
    }
    Progress(|nb|, keysA, treeA.nodes.Keys, keysB, treeB.nodes.Keys, qA, qA', qB, qB');
  }
}
