/**
 * `findAllPathsBetween`: a breadth-first search from e1 that records, in
 * a lattice, every hyperedge it reaches on a shortest walk together with
 * every hyperedge it was reached from at the level just below; the paths
 * to e2 are then read back along the parent chains. visited holds the
 * level of each reached hyperedge, e1 being on level 1; e2 itself is
 * never queued, so nothing is reached through it.
 */
module AllPaths {
  import opened Wrappers
  import opened Walks
  import opened HyperGraphs
  import opened Lattices
  import opened AllPathsState
  import Distances
  import Utils

  /*
   * The search.
   */

  /**
   * One s-neighbour ngb of cur: a new one is reached on level step + 1
   * with cur as its parent and queued unless it is e2; one already on
   * level step + 1 gets cur as a further parent; any other is left alone.
   */
  method VisitNeighbour(e2: int, cur: int, step: int, rest: set<int>, visited: map<int, int>, queue: seq<(int, int)>,
                        lattice: Lattice)
    returns (ngb: int, visited': map<int, int>, queue': seq<(int, int)>)
    requires rest != {} && lattice.Valid() && lattice.nodes.Keys == visited.Keys && step >= 1
    requires cur in visited && cur in lattice.level && lattice.level[cur] == step
    requires forall x :: x in rest && x in visited && visited[x] == step + 1 ==> x in lattice.level && lattice.level[x] == step + 1
    modifies lattice, lattice.Repr
    ensures ngb in rest && lattice.Valid() && fresh(lattice.Repr - old(lattice.Repr))
    ensures ngb !in visited ==>
      visited' == visited[ngb := step + 1] && queue' == (if ngb != e2 then queue + [(ngb, step + 1)] else queue) &&
      lattice.Parents() == old(lattice.Parents())[ngb := [cur]] && lattice.level == old(lattice.level)[ngb := step + 1]
    ensures ngb in visited && visited[ngb] == step + 1 ==>
      visited' == visited && queue' == queue &&
      lattice.Parents() == old(lattice.Parents())[ngb := old(lattice.Parents())[ngb] + [cur]] &&
      lattice.level == old(lattice.level)
    ensures ngb in visited && visited[ngb] != step + 1 ==>
      visited' == visited && queue' == queue && lattice.Parents() == old(lattice.Parents()) &&
      lattice.level == old(lattice.level)
  {
    ngb := Pick(rest);
    if !(ngb in visited) {
      visited', queue' := VisitNew(e2, cur, step, ngb, visited, queue, lattice);
    } else {
      visited', queue' := visited, queue;
      if visited[ngb] == step + 1 {
        lattice.AddNode(ngb, cur, 0);
      }
    }
  }

  /** VisitNeighbour for an s-neighbour not yet visited: it joins the lattice and the visited map on level step + 1. */
  method VisitNew(e2: int, cur: int, step: int, ngb: int, visited: map<int, int>, queue: seq<(int, int)>, lattice: Lattice)
    returns (visited': map<int, int>, queue': seq<(int, int)>)
    requires lattice.Valid() && lattice.nodes.Keys == visited.Keys && step >= 1 && ngb !in visited
    requires cur in visited && cur in lattice.level && lattice.level[cur] == step
    modifies lattice, lattice.Repr
    ensures lattice.Valid() && fresh(lattice.Repr - old(lattice.Repr))
    ensures visited' == visited[ngb := step + 1] && queue' == (if ngb != e2 then queue + [(ngb, step + 1)] else queue)
    ensures lattice.Parents() == old(lattice.Parents())[ngb := [cur]] && lattice.level == old(lattice.level)[ngb := step + 1]
  {
    visited', queue' := visited[ngb := step + 1], queue;
    lattice.AddNode(ngb, cur, step + 1);
    if ngb != e2 {
      queue' := queue + [(ngb, step + 1)];
    }
    assert [] + [cur] == [cur];
  }

  /**
   * The body of the search loop after the poll: every s-neighbour of cur
   * is visited; added holds those reached for the first time. ps and
   * level follow the lattice's parent lists and levels.
   */
  method ExpandEntry(g: HyperGraph, ghost nb: seq<map<int, int>>, s: int, ghost e1: int, e2: int, cur: int, step: int,
                     visited: map<int, int>, queue: seq<(int, int)>, lattice: Lattice,
                     ghost ps: map<int, seq<int>>, ghost level: map<int, nat>)
    returns (visited': map<int, int>, queue': seq<(int, int)>, ghost added: set<int>,
             ghost ps': map<int, seq<int>>, ghost level': map<int, nat>)
    requires nb == g.Nb() && InRange(nb) && lattice.Valid() && ps == lattice.Parents() && level == lattice.level
    requires Expanding(nb, s, e1, e2, cur, step, visited, queue, ps, level)
    modifies lattice, lattice.Repr
    ensures lattice.Valid() && fresh(lattice.Repr - old(lattice.Repr))
    ensures ps' == lattice.Parents() && level' == lattice.level
    ensures Between(nb, s, e1, e2, visited', queue', ps', level')
    ensures Grew(visited, queue, visited', queue', added)
  {
    var ngbs := g.GetSNeighborsOf(cur, s);
    visited', queue', added, ps', level' := ScanNeighbours(nb, s, e1, e2, cur, step, ngbs, visited, queue, lattice, ps, level);
    Expanded(nb, s, e1, e2, cur, step, visited', queue', ps', level');
  }

  /** The loop over the s-neighbours ngbs of cur: each of them is visited once. */
  method ScanNeighbours(ghost nb: seq<map<int, int>>, s: int, ghost e1: int, e2: int, cur: int, step: int, ngbs: set<int>,
                        visited: map<int, int>, queue: seq<(int, int)>, lattice: Lattice,
                        ghost ps: map<int, seq<int>>, ghost level: map<int, nat>)
    returns (visited': map<int, int>, queue': seq<(int, int)>, ghost added: set<int>,
             ghost ps': map<int, seq<int>>, ghost level': map<int, nat>)
    requires InRange(nb) && lattice.Valid() && ps == lattice.Parents() && level == lattice.level
    requires Scanning(nb, s, e1, e2, cur, step, ngbs, ngbs, visited, queue, visited, queue, {}, ps, level)
    modifies lattice, lattice.Repr
    ensures lattice.Valid() && fresh(lattice.Repr - old(lattice.Repr))
    ensures ps' == lattice.Parents() && level' == lattice.level
    ensures Scanning(nb, s, e1, e2, cur, step, ngbs, {}, visited, queue, visited', queue', added, ps', level')
  {
    visited', queue', added, ps', level' := visited, queue, {}, ps, level;
    var rest := ngbs;
    while rest != {}
      invariant lattice.Valid() && fresh(lattice.Repr - old(lattice.Repr))
      invariant ps' == lattice.Parents() && level' == lattice.level
      invariant Scanning(nb, s, e1, e2, cur, step, ngbs, rest, visited, queue, visited', queue', added, ps', level')
      decreases rest
    {
      rest, visited', queue', added, ps', level' :=
        ScanOne(nb, s, e1, e2, cur, step, ngbs, rest, visited, queue, visited', queue', added, lattice, ps', level');
    }
  }

  /** One more s-neighbour of cur, taken from rest, is visited. */
  method ScanOne(ghost nb: seq<map<int, int>>, s: int, ghost e1: int, e2: int, cur: int, step: int,
                 ghost ngbs: set<int>, rest: set<int>, ghost visited0: map<int, int>, ghost queue0: seq<(int, int)>,
                 visited: map<int, int>, queue: seq<(int, int)>, ghost added: set<int>, lattice: Lattice,
                 ghost ps: map<int, seq<int>>, ghost level: map<int, nat>)
    returns (rest': set<int>, visited': map<int, int>, queue': seq<(int, int)>, ghost added': set<int>,
             ghost ps': map<int, seq<int>>, ghost level': map<int, nat>)
    requires InRange(nb) && lattice.Valid() && rest != {} && ps == lattice.Parents() && level == lattice.level
    requires Scanning(nb, s, e1, e2, cur, step, ngbs, rest, visited0, queue0, visited, queue, added, ps, level)
    modifies lattice, lattice.Repr
    ensures lattice.Valid() && fresh(lattice.Repr - old(lattice.Repr)) && rest' < rest
    ensures ps' == lattice.Parents() && level' == lattice.level
    ensures Scanning(nb, s, e1, e2, cur, step, ngbs, rest', visited0, queue0, visited', queue', added', ps', level')
  {
    assert cur in visited && visited[cur] == step && level[cur] == step && step >= 1;
    assert forall x :: x in visited ==> level[x] == visited[x];
    var ngb;
    ngb, visited', queue' := VisitNeighbour(e2, cur, step, rest, visited, queue, lattice);
    rest' := rest - {ngb};
    ps', level' := lattice.Parents(), lattice.level;
    ScanStep(nb, s, e1, e2, cur, step, ngbs, rest, visited0, queue0, visited, queue, added, ps, level,
             ngb, visited', queue', ps', level');
    added' := if ngb in visited then added else added + {ngb};
  }

  /** One turn of the search loop: poll the head of the queue and visit the s-neighbours of its hyperedge. */
  method SearchStep(g: HyperGraph, ghost nb: seq<map<int, int>>, s: int, ghost e1: int, e2: int,
                    visited: map<int, int>, queue: seq<(int, int)>, lattice: Lattice,
                    ghost ps: map<int, seq<int>>, ghost level: map<int, nat>)
    returns (visited': map<int, int>, queue': seq<(int, int)>, ghost ps': map<int, seq<int>>, ghost level': map<int, nat>)
    requires nb == g.Nb() && InRange(nb) && lattice.Valid() && queue != []
    requires ps == lattice.Parents() && level == lattice.level
    requires Between(nb, s, e1, e2, visited, queue, ps, level)
    modifies lattice, lattice.Repr
    ensures lattice.Valid() && fresh(lattice.Repr - old(lattice.Repr))
    ensures ps' == lattice.Parents() && level' == lattice.level
    ensures Between(nb, s, e1, e2, visited', queue', ps', level')
    ensures Distances.Ids(|nb|) - visited'.Keys < Distances.Ids(|nb|) - visited.Keys ||
      (visited'.Keys == visited.Keys && |queue'| < |queue|)
  {
    var eID, step := queue[0].0, queue[0].1;
    Polled(nb, s, e1, e2, visited, queue, ps, level);
    ghost var added;
    visited', queue', added, ps', level' := ExpandEntry(g, nb, s, e1, e2, eID, step, visited, queue[1..], lattice, ps, level);
    assert Grew(visited, queue[1..], visited', queue', added);
    if added != {} {
      assert forall x :: x in added ==> x in visited';
      Distances.Shrinks(|nb|, visited.Keys, added);
    }
  }

  /**
   * `findAllPathsBetween(e1, e2, s, estSize)`: for e1 == e2 the one path
   * {e1}; otherwise one path per parent chain of e2 in the lattice, each
   * the hyperedges of a shortest s-walk from e1 to e2, the hyperedges of
   * every shortest s-walk among them, and some path exactly when e2 is
   * s-reachable from e1. The lattice's filter reports
   * the given false positives besides its nodes.
   */
  method FindAllPathsBetween(g: HyperGraph, e1: int, e2: int, s: int, estSize: int, falsePositives: set<int>)
    returns (paths: seq<set<int>>)
    requires g.ConsistentMaps(g.Nb()) && g.IsEdge(e1)
    ensures e1 == e2 ==> paths == [{e1}]
    ensures e1 != e2 ==> (paths != [] <==> Reachable(g.Nb(), s, e1, e2))
    ensures e1 != e2 ==> forall i :: 0 <= i < |paths| ==> ShortestPathSet(g.Nb(), s, e1, e2, paths[i])
    ensures e1 != e2 ==> forall w :: WalkTo(g.Nb(), s, e1, e2, w) && IsDistance(g.Nb(), s, e1, e2, |w| - 1) ==>
      Utils.Elements(w) in paths
  {
    if e1 == e2 {
      return [{e1}];
    }
    ghost var nb := g.Nb();
    Distances.ConsistentInRange(g);
    paths := Search(g, nb, e1, e2, s, estSize, falsePositives);
  }

  /** The search for e1 != e2, with the neighbour maps of g as nb. */
  method Search(g: HyperGraph, ghost nb: seq<map<int, int>>, e1: int, e2: int, s: int, estSize: int,
                falsePositives: set<int>)
    returns (paths: seq<set<int>>)
    requires nb == g.Nb() && InRange(nb) && 0 <= e1 < |nb| && e1 != e2
    ensures paths != [] <==> Reachable(nb, s, e1, e2)
    ensures forall i :: 0 <= i < |paths| ==> ShortestPathSet(nb, s, e1, e2, paths[i])
    ensures forall w :: WalkTo(nb, s, e1, e2, w) && IsDistance(nb, s, e1, e2, |w| - 1) ==> Utils.Elements(w) in paths
  {
    var tree := new Lattice(estSize, falsePositives);
    var visited := map[e1 := 1];
    var queue := [(e1, 1)];
    tree.AddNode(e1, -1, 1);
    assert [] + [-1] == [-1];
    ghost var ps, level := tree.Parents(), tree.level;
    assert ps == map[e1 := [-1]] && level == map[e1 := 1];
    Started(nb, s, e1, e2);
    visited, ps, level := Explore(g, nb, s, e1, e2, visited, queue, tree, ps, level);
    ParentedLayered(nb, s, e1, e2, visited, ps, level);
    paths := tree.GetPathsToId(e2);
    Finished(nb, s, e1, e2, visited, ps, level, paths);
  }

  /** The search loop: turns are taken until the queue is empty. */
  method Explore(g: HyperGraph, ghost nb: seq<map<int, int>>, s: int, ghost e1: int, e2: int,
                 visited: map<int, int>, queue: seq<(int, int)>, lattice: Lattice,
                 ghost ps: map<int, seq<int>>, ghost level: map<int, nat>)
    returns (visited': map<int, int>, ghost ps': map<int, seq<int>>, ghost level': map<int, nat>)
    requires nb == g.Nb() && InRange(nb) && lattice.Valid() && ps == lattice.Parents() && level == lattice.level
    requires Between(nb, s, e1, e2, visited, queue, ps, level)
    modifies lattice, lattice.Repr
    ensures lattice.Valid() && fresh(lattice.Repr - old(lattice.Repr))
    ensures ps' == lattice.Parents() && level' == lattice.level
    ensures Between(nb, s, e1, e2, visited', [], ps', level')
  {
    visited', ps', level' := visited, ps, level;
    var queue' := queue;
    while queue' != []
      invariant lattice.Valid() && fresh(lattice.Repr - old(lattice.Repr))
      invariant ps' == lattice.Parents() && level' == lattice.level
      invariant Between(nb, s, e1, e2, visited', queue', ps', level')
      decreases Distances.Ids(|nb|) - visited'.Keys, |queue'|
    {
      visited', queue', ps', level' := SearchStep(g, nb, s, e1, e2, visited', queue', lattice, ps', level');
    }
  }

  /** What the paths read back from the finished lattice are. */
  lemma Finished(nb: seq<map<int, int>>, s: int, e1: int, e2: int, visited: map<int, int>,
                 ps: map<int, seq<int>>, level: map<int, nat>, paths: seq<set<int>>)
    requires Between(nb, s, e1, e2, visited, [], ps, level) && Layered(ps, level)
    requires e2 !in ps ==> paths == []
    requires e2 in ps ==> |paths| == |Chains(ps, level, e2)|
    requires e2 in ps ==> forall i :: 0 <= i < |paths| ==>
      paths[i] == Utils.Elements(Chains(ps, level, e2)[i]) && (e2 != -1 ==> IsChain(ps, e2, Chains(ps, level, e2)[i]))
    ensures paths != [] <==> Reachable(nb, s, e1, e2)
    ensures forall i :: 0 <= i < |paths| ==> ShortestPathSet(nb, s, e1, e2, paths[i])
    ensures forall w :: WalkTo(nb, s, e1, e2, w) && IsDistance(nb, s, e1, e2, |w| - 1) ==> Utils.Elements(w) in paths
  {
    Closed(nb, s, e1, e2, visited);
    forall w | WalkTo(nb, s, e1, e2, w) && IsDistance(nb, s, e1, e2, |w| - 1)
      ensures Utils.Elements(w) in paths
    {
      ShortestWalkChain(nb, s, e1, e2, visited, ps, level, w);
      var c := Reverse(w);
      ChainsComplete(ps, level, e2, c);
      var i :| 0 <= i < |Chains(ps, level, e2)| && Chains(ps, level, e2)[i] == c;
      ElementsReverse(w);
      assert paths[i] == Utils.Elements(w);
    }
    if e2 in ps {
      ChainsNonEmpty(ps, level, e2);
      forall i | 0 <= i < |paths|
        ensures ShortestPathSet(nb, s, e1, e2, paths[i])
      {
        ChainShortest(nb, s, e1, e2, visited, ps, level, Chains(ps, level, e2)[i]);
      }
      var c := Chains(ps, level, e2)[0];
      ChainWalk(nb, s, e1, e2, visited, ps, level, e2, c);
    }
  }
}
