/**
 * The search tree of one side of the bidirectional search: each visited
 * hyperedge with the hyperedge it was reached from, and a Bloom filter
 * over the visited ids. The filter is modelled by the set of ids it
 * reports: every added id, plus the false positives it was created with.
 */
module SearchTrees {
  import opened Wrappers
  import Text
  import Utils

  /** A visited hyperedge and the one it was reached from; -1 marks the root. */
  datatype TreeNode = TreeNode(id: int, parent: int)
  {
    /** `toString`: the decimal id. */
    function ToString(): (r: string)
      ensures Text.ParseInt(r) == Some(id)
    {
      Text.IntToStringRoundTrip(id);
      Text.IntToString(id)
    }
  }

  class Tree {
    var nodes: map<int, TreeNode>
    /** The ids the Bloom filter reports as possibly present. */
    var filter: set<int>
    /** A depth per node, above its parent's: following parents reaches -1. */
    ghost var depth: map<int, nat>

    ghost predicate Valid()
      reads this
    {
      nodes.Keys <= filter && depth.Keys == nodes.Keys &&
      (forall k :: k in nodes ==> nodes[k].id == k) &&
      (forall k :: k in nodes ==> nodes[k].parent == -1 || (nodes[k].parent in nodes && depth[nodes[k].parent] < depth[k]))
    }

    /** An empty tree whose filter reports exactly the ids falsePositives. */
    constructor (estSize: int, falsePositives: set<int>)
      ensures Valid() && nodes == map[] && filter == falsePositives
    {
      nodes := map[];
      filter := falsePositives;
      depth := map[];
    }

    /**
     * Adds id with the given parent and puts id in the filter. The parent
     * is the root marker or a node already in the tree.
     */
    method AddNode(id: int, parent: int)
      requires Valid() && id !in nodes && (parent == -1 || parent in nodes)
      modifies this
      ensures Valid()
      ensures nodes == old(nodes)[id := TreeNode(id, parent)] && filter == old(filter) + {id}
      ensures depth == old(depth)[id := if parent == -1 then 0 else old(depth)[parent] + 1]
    {
      depth := depth[id := if parent == -1 then 0 else depth[parent] + 1];
      nodes := nodes[id := TreeNode(id, parent)];
      filter := filter + {id};
    }

    /** id and each of its ancestors, up to the root. */
    ghost function PathTo(id: int): set<int>
      requires Valid() && id in nodes
      reads this
      decreases depth[id]
    {
      {id} + (if nodes[id].parent == -1 then {} else PathTo(nodes[id].parent))
    }

    /** The path from id holds only nodes, reaches a root, and is closed under parents. */
    lemma {:induction false} PathToRoot(id: int)
      requires Valid() && id in nodes
      ensures id in PathTo(id) && PathTo(id) <= nodes.Keys
      ensures exists r :: r in PathTo(id) && nodes[r].parent == -1
      ensures forall x :: x in PathTo(id) ==> nodes[x].parent == -1 || nodes[x].parent in PathTo(id)
      decreases depth[id]
    {
      if nodes[id].parent != -1 {
        PathToRoot(nodes[id].parent);
      }
    }

    /** The nodes from a root down to id, each the parent of the next. */
    ghost function ChainTo(id: int): seq<int>
      requires Valid() && id in nodes
      reads this
      decreases depth[id]
    {
      (if nodes[id].parent == -1 then [] else ChainTo(nodes[id].parent)) + [id]
    }

    /** The chain to id starts at a root, steps from parent to child, ends at id and holds the path to id. */
    lemma {:induction false} ChainToPath(id: int)
      requires Valid() && id in nodes
      ensures var c := ChainTo(id);
        |c| > 0 && c[|c| - 1] == id &&
        (forall j :: 0 <= j < |c| ==> c[j] in nodes) && nodes[c[0]].parent == -1 &&
        (forall j :: 0 <= j < |c| - 1 ==> nodes[c[j + 1]].parent == c[j]) &&
        Utils.Elements(c) == PathTo(id)
      decreases depth[id]
    {
      var p := nodes[id].parent;
      if p != -1 {
        ChainToPath(p);
        var c := ChainTo(id);
        var c' := ChainTo(p);
        assert c == c' + [id];
        assert forall j :: 0 <= j < |c'| ==> c[j] == c'[j];
        assert Utils.Elements(c) == Utils.Elements(c') + {id};
      } else {
        assert ChainTo(id) == [id];
        assert Utils.Elements([id]) == {id};
      }
    }

    /** `getPathToId`: follows the parents of id until the root marker. */
    method GetPathToId(id: int) returns (path: set<int>)
      requires Valid() && id in nodes
      ensures path == PathTo(id)
    {
      path := {id};
      var p := nodes[id].parent;
      while p != -1
        invariant p == -1 || p in nodes
        invariant path + (if p == -1 then {} else PathTo(p)) == PathTo(id)
        decreases if p == -1 then 0 else depth[p] + 1
      {
        path := path + {p};
        p := nodes[p].parent;
      }
    }

    /** `mightContain`: the filter's answer, never false for an added id. */
    function MightContain(element: int): (r: bool)
      requires Valid()
      reads this
      ensures element in nodes ==> r
    {
      element in filter
    }

    /** `hasBeenVisited`: the exact answer when asked, otherwise the filter's. */
    function HasBeenVisited(v: int, exact: bool): (r: bool)
      requires Valid()
      reads this
      ensures exact ==> (r <==> v in nodes)
      ensures v in nodes ==> r
    {
      if exact then v in nodes else MightContain(v)
    }

    /** `getNodes`: the visited ids, every one of them reported by the filter. */
    function GetNodes(): (r: set<int>)
      requires Valid()
      reads this
      ensures r == nodes.Keys && r <= filter
    {
      nodes.Keys
    }

    /** The union of the two root paths through a node k common to this tree and t. */
    ghost function JoinAt(t: Tree, k: int): set<int>
      requires Valid() && t.Valid() && k in nodes && k in t.nodes
      reads this, t
    {
      PathTo(k) + t.PathTo(k)
    }

    /**
     * `treeIntersect`: among the nodes this tree shares with t, one whose
     * joined root paths are smallest, and those paths joined; empty when
     * the trees share no node. The filter only pre-selects candidates, so
     * its false positives do not change the result.
     */
    method TreeIntersect(t: Tree) returns (path: set<int>)
      requires Valid() && t.Valid()
      ensures path == {} <==> forall k :: k in nodes ==> k !in t.nodes
      ensures (exists k :: k in nodes && k in t.nodes) ==>
        exists k :: k in nodes && k in t.nodes && path == JoinAt(t, k) &&
          forall k' :: k' in nodes && k' in t.nodes ==> |path| <= |JoinAt(t, k')|
    {
      var cands := FilterCandidates(t);
      if cands == [] {
        return {};
      }
      path := SmallestJoin(t, cands);
    }

    /**
     * The nodes of this tree that t's filter reports, in the (unspecified)
     * order of the node map; every node common to both is among them.
     */
    method FilterCandidates(t: Tree) returns (cands: seq<int>)
      requires Valid() && t.Valid()
      ensures forall i :: 0 <= i < |cands| ==> cands[i] in nodes
      ensures forall k :: k in nodes && k in t.nodes ==> k in cands
    {
      cands := [];
      var rest := nodes.Keys;
      while rest != {}
        invariant rest <= nodes.Keys
        invariant forall i :: 0 <= i < |cands| ==> cands[i] in nodes
        invariant forall k :: k in nodes && k in t.nodes ==> k in rest || k in cands
        decreases rest
      {
        var k := Pick(rest);
        if t.MightContain(k) {
          cands := cands + [k];
        }
        rest := rest - {k};
      }
    }

    /**
     * Among the candidates that t holds, the first with the smallest joined
     * root paths, and those paths joined; empty when t holds none.
     */
    method SmallestJoin(t: Tree, cands: seq<int>) returns (path: set<int>)
      requires Valid() && t.Valid() && forall i :: 0 <= i < |cands| ==> cands[i] in nodes
      ensures (forall k :: k in cands ==> k !in t.nodes) ==> path == {}
      ensures (exists k :: k in cands && k in t.nodes) ==>
        exists k :: k in cands && k in t.nodes && path == JoinAt(t, k) &&
          forall k' :: k' in cands && k' in t.nodes ==> |path| <= |JoinAt(t, k')|
    {
      path := {};
      var found := false;
      ghost var best := 0;
      for i := 0 to |cands|
        invariant SmallestSoFar(t, cands[..i], path, found, best)
      {
        path, found, best := Consider(t, cands[i], path, found, best, cands[..i]);
        assert cands[..i + 1] == cands[..i] + [cands[i]];
      }
      assert cands[..|cands|] == cands;
      SmallestDone(t, cands, path, found, best);
    }

    /** Once every candidate is seen, the minimum found is the one promised. */
    lemma SmallestDone(t: Tree, cands: seq<int>, path: set<int>, found: bool, best: int)
      requires Valid() && t.Valid() && forall i :: 0 <= i < |cands| ==> cands[i] in nodes
      requires SmallestSoFar(t, cands, path, found, best)
      ensures (forall k :: k in cands ==> k !in t.nodes) ==> path == {}
      ensures (exists k :: k in cands && k in t.nodes) ==>
        exists k :: k in cands && k in t.nodes && path == JoinAt(t, k) &&
          forall k' :: k' in cands && k' in t.nodes ==> |path| <= |JoinAt(t, k')|
    {
    }

    /** After the candidates seen: found, the first smallest join among those t holds; not found, t holds none. */
    ghost predicate SmallestSoFar(t: Tree, seen: seq<int>, path: set<int>, found: bool, best: int)
      requires Valid() && t.Valid()
      reads this, t
    {
      (!found ==> path == {} && forall k :: k in seen && k in nodes ==> k !in t.nodes) &&
      (found ==>
        best in seen && best in nodes && best in t.nodes && path == JoinAt(t, best) &&
        forall k :: k in seen && k in nodes && k in t.nodes ==> |path| <= |JoinAt(t, k)|)
    }

    /** One candidate of the minimum: kept only if t holds it and its join is strictly smaller. */
    method Consider(t: Tree, k: int, path: set<int>, found: bool, ghost best: int, ghost seen: seq<int>)
      returns (path': set<int>, found': bool, ghost best': int)
      requires Valid() && t.Valid() && k in nodes
      requires SmallestSoFar(t, seen, path, found, best)
      ensures SmallestSoFar(t, seen + [k], path', found', best')
    {
      path', found', best' := path, found, best;
      if t.HasBeenVisited(k, true) {
        var first := GetPathToId(k);
        var second := t.GetPathToId(k);
        var joined := first + second;
        if !found || |joined| < |path| {
          path', found', best' := joined, true, k;
        }
      }
      ConsiderStep(t, k, path, found, best, seen, path', found', best');
    }

    /** The minimum after one more candidate. */
    lemma ConsiderStep(t: Tree, k: int, path: set<int>, found: bool, best: int, seen: seq<int>,
                       path': set<int>, found': bool, best': int)
      requires Valid() && t.Valid() && k in nodes
      requires SmallestSoFar(t, seen, path, found, best)
      requires k !in t.nodes ==> path' == path && found' == found && best' == best
      requires k in t.nodes && (!found || |JoinAt(t, k)| < |path|) ==> path' == JoinAt(t, k) && found' && best' == k
      requires k in t.nodes && found && |JoinAt(t, k)| >= |path| ==> path' == path && found' == found && best' == best
      ensures SmallestSoFar(t, seen + [k], path', found', best')
    {
    }
  }
}
