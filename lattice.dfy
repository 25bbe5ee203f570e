/**
 * The search lattice of the all-shortest-paths search: each visited
 * hyperedge with every hyperedge it was reached from on a shortest path,
 * a Bloom filter over the visited ids (modelled by the set of ids it
 * reports), and the enumeration of the parent chains back to the root.
 */
module Lattices {
  import opened Wrappers
  import Text
  import Utils

  /** A visited hyperedge and the list of its parents, -1 marking the root. */
  class LatticeNode {
    const id: int
    var parents: seq<int>

    constructor (id: int, parent: int)
      ensures this.id == id && parents == [parent]
    {
      this.id := id;
      parents := [parent];
    }

    /** `getParents`: the parents, in the order they were added. */
    function GetParents(): (r: seq<int>)
      reads this
      ensures r == parents
    {
      parents
    }

    /** Appends p, keeping any earlier occurrence. */
    method AddParent(p: int)
      modifies this
      ensures parents == old(parents) + [p]
      ensures |parents| == |old(parents)| + 1 && parents[|parents| - 1] == p
    {
      parents := parents + [p];
    }

    /** `toString`: "id: " and then the parent list. */
    function ToString(): (r: string)
      reads this
      ensures r == Text.IntToString(id) + ": " + Text.ListToString(parents)
    {
      Text.IntToString(id) + ": " + Text.ListToString(parents)
    }
  }

  /*
   * The parent chains of a layered parent map.
   */

  /**
   * Every node has parents, each -1 or a node on a lower level, and
   * every level is at least 1.
   */
  ghost predicate Layered(ps: map<int, seq<int>>, level: map<int, nat>)
  {
    level.Keys == ps.Keys &&
    (forall k :: k in ps ==> |ps[k]| > 0 && level[k] >= 1) &&
    (forall k, i :: k in ps && 0 <= i < |ps[k]| ==> ps[k][i] == -1 || (ps[k][i] in ps && level[ps[k][i]] < level[k]))
  }

  /** The level of a node, 0 for the root marker. */
  function Rank(level: map<int, nat>, x: int): nat
  {
    if x != -1 && x in level then level[x] else 0
  }

  /** The parents in qs are -1 or nodes below the given rank. */
  ghost predicate Below(ps: map<int, seq<int>>, level: map<int, nat>, qs: seq<int>, r: nat)
  {
    r >= 1 &&
    forall i :: 0 <= i < |qs| ==> qs[i] == -1 || (qs[i] in ps && qs[i] in level && level[qs[i]] < r)
  }

  /**
   * `stepBack`: the paths from id back to the root marker, each the
   * partial path plus the nodes on one parent chain; one path per chain,
   * parents taken in list order.
   */
  function StepBack(ps: map<int, seq<int>>, ghost level: map<int, nat>, partial: set<int>, id: int): seq<set<int>>
    requires Layered(ps, level) && (id == -1 || id in ps)
    decreases Rank(level, id), 1 + (if id in ps then |ps[id]| else 0)
  {
    if id == -1 then [partial]
    else StepBackAll(ps, level, partial + {id}, ps[id], Rank(level, id))
  }

  /** The paths through each parent of qs in turn, concatenated. */
  function StepBackAll(ps: map<int, seq<int>>, ghost level: map<int, nat>, partial: set<int>, qs: seq<int>, ghost r: nat)
    : seq<set<int>>
    requires Layered(ps, level) && Below(ps, level, qs, r)
    decreases r, |qs|
  {
    if qs == [] then []
    else StepBack(ps, level, partial, qs[0]) + StepBackAll(ps, level, partial, qs[1..], r)
  }

  /** The parent chains from id: sequences of nodes, each followed by one of its parents, ending at a root. */
  ghost function Chains(ps: map<int, seq<int>>, level: map<int, nat>, id: int): seq<seq<int>>
    requires Layered(ps, level) && (id == -1 || id in ps)
    decreases Rank(level, id), 1 + (if id in ps then |ps[id]| else 0)
  {
    if id == -1 then [[]]
    else Prefixed(id, ChainsAll(ps, level, ps[id], Rank(level, id)))
  }

  ghost function ChainsAll(ps: map<int, seq<int>>, level: map<int, nat>, qs: seq<int>, r: nat): seq<seq<int>>
    requires Layered(ps, level) && Below(ps, level, qs, r)
    decreases r, |qs|
  {
    if qs == [] then []
    else Chains(ps, level, qs[0]) + ChainsAll(ps, level, qs[1..], r)
  }

  /** Each chain with x put in front. */
  ghost function Prefixed(x: int, cs: seq<seq<int>>): (r: seq<seq<int>>)
    ensures |r| == |cs| && forall i :: 0 <= i < |cs| ==> r[i] == [x] + cs[i]
  {
    seq(|cs|, i requires 0 <= i < |cs| => [x] + cs[i])
  }

  /** The path of each chain: the partial path plus the chain's nodes. */
  ghost function PathsOf(partial: set<int>, cs: seq<seq<int>>): (r: seq<set<int>>)
    ensures |r| == |cs| && forall i :: 0 <= i < |cs| ==> r[i] == partial + Utils.Elements(cs[i])
  {
    seq(|cs|, i requires 0 <= i < |cs| => partial + Utils.Elements(cs[i]))
  }

  /** A parent chain from id: starts at id, each node followed by one of its parents, the last a root. */
  ghost predicate IsChain(ps: map<int, seq<int>>, id: int, c: seq<int>)
  {
    |c| > 0 && c[0] == id &&
    (forall j :: 0 <= j < |c| ==> c[j] in ps) &&
    (forall j :: 0 <= j < |c| - 1 ==> c[j + 1] in ps[c[j]]) &&
    -1 in ps[c[|c| - 1]]
  }

  /** The paths stepBack returns are those of the parent chains, one for one and in order. */
  lemma {:induction false} StepBackChains(ps: map<int, seq<int>>, level: map<int, nat>, partial: set<int>, id: int)
    requires Layered(ps, level) && (id == -1 || id in ps)
    ensures StepBack(ps, level, partial, id) == PathsOf(partial, Chains(ps, level, id))
    decreases Rank(level, id), 1 + (if id in ps then |ps[id]| else 0)
  {
    if id != -1 {
      var cs := ChainsAll(ps, level, ps[id], Rank(level, id));
      StepBackAllChains(ps, level, partial + {id}, ps[id], Rank(level, id));
      var lhs := PathsOf(partial + {id}, cs);
      var rhs := PathsOf(partial, Prefixed(id, cs));
      forall i | 0 <= i < |cs|
        ensures lhs[i] == rhs[i]
      {
        assert Utils.Elements([id] + cs[i]) == {id} + Utils.Elements(cs[i]);
      }
      assert lhs == rhs;
    } else {
      assert PathsOf(partial, [[]])[0] == partial;
    }
  }

  lemma {:induction false} StepBackAllChains(ps: map<int, seq<int>>, level: map<int, nat>, partial: set<int>, qs: seq<int>, r: nat)
    requires Layered(ps, level) && Below(ps, level, qs, r)
    ensures StepBackAll(ps, level, partial, qs, r) == PathsOf(partial, ChainsAll(ps, level, qs, r))
    decreases r, |qs|
  {
    if qs != [] {
      StepBackChains(ps, level, partial, qs[0]);
      StepBackAllChains(ps, level, partial, qs[1..], r);
      PathsOfConcat(partial, Chains(ps, level, qs[0]), ChainsAll(ps, level, qs[1..], r));
    }
  }

  /** The paths of two lists of chains, concatenated, are the paths of the concatenation. */
  lemma PathsOfConcat(partial: set<int>, a: seq<seq<int>>, b: seq<seq<int>>)
    ensures PathsOf(partial, a + b) == PathsOf(partial, a) + PathsOf(partial, b)
  {
  }

  /** Every node has at least one parent chain. */
  lemma {:induction false} ChainsNonEmpty(ps: map<int, seq<int>>, level: map<int, nat>, id: int)
    requires Layered(ps, level) && (id == -1 || id in ps)
    ensures |Chains(ps, level, id)| > 0
    decreases Rank(level, id)
  {
    if id != -1 {
      var qs := ps[id];
      assert Below(ps, level, qs, Rank(level, id));
      ChainsNonEmpty(ps, level, qs[0]);
      assert ChainsAll(ps, level, qs, Rank(level, id)) ==
        Chains(ps, level, qs[0]) + ChainsAll(ps, level, qs[1..], Rank(level, id));
    }
  }

  /** Every chain Chains enumerates from a node is a parent chain from it. */
  lemma {:induction false} ChainsAreChains(ps: map<int, seq<int>>, level: map<int, nat>, id: int)
    requires Layered(ps, level) && id in ps
    ensures id != -1 ==> forall c :: c in Chains(ps, level, id) ==> IsChain(ps, id, c)
    decreases Rank(level, id), 1 + |ps[id]|
  {
    if id != -1 {
      ChainsAllAreChains(ps, level, id, ps[id], Rank(level, id));
    }
  }

  lemma {:induction false} ChainsAllAreChains(ps: map<int, seq<int>>, level: map<int, nat>, id: int, qs: seq<int>, r: nat)
    requires Layered(ps, level) && id in ps && id != -1 && Below(ps, level, qs, r) && r == Rank(level, id)
    requires forall i :: 0 <= i < |qs| ==> qs[i] in ps[id]
    ensures forall c :: c in Prefixed(id, ChainsAll(ps, level, qs, r)) ==> IsChain(ps, id, c)
    decreases r, |qs|
  {
    if qs != [] {
      var q := qs[0];
      if q != -1 {
        assert q in ps;
        ChainsAreChains(ps, level, q);
      }
      ChainsAllAreChains(ps, level, id, qs[1..], r);
      var first := Chains(ps, level, q);
      var rest := ChainsAll(ps, level, qs[1..], r);
      forall c | c in Prefixed(id, first + rest)
        ensures IsChain(ps, id, c)
      {
        var i :| 0 <= i < |first + rest| && c == [id] + (first + rest)[i];
        if i >= |first| {
          assert c in Prefixed(id, rest) by {
            assert c == Prefixed(id, rest)[i - |first|];
          }
        } else if q == -1 {
          assert c == [id];
        } else {
          var d := first[i];
          assert IsChain(ps, q, d);
          assert c[1..] == d;
        }
      }
    }
  }

  /** Chains enumerates every parent chain from a node: no chain is missed. */
  lemma {:induction false} ChainsComplete(ps: map<int, seq<int>>, level: map<int, nat>, id: int, c: seq<int>)
    requires Layered(ps, level) && -1 !in ps && IsChain(ps, id, c)
    ensures c in Chains(ps, level, id)
    decreases |c|
  {
    var qs := ps[id];
    assert Below(ps, level, qs, Rank(level, id));
    var i: int;
    if |c| == 1 {
      i :| 0 <= i < |qs| && qs[i] == -1;
      assert c[1..] == [] && Chains(ps, level, -1) == [[]];
    } else {
      i :| 0 <= i < |qs| && qs[i] == c[1];
      assert IsChain(ps, c[1], c[1..]);
      ChainsComplete(ps, level, c[1], c[1..]);
    }
    ChainsAllHas(ps, level, qs, Rank(level, id), i, c[1..]);
    var k :| 0 <= k < |ChainsAll(ps, level, qs, Rank(level, id))| && ChainsAll(ps, level, qs, Rank(level, id))[k] == c[1..];
    assert c == Chains(ps, level, id)[k];
  }

  /** A chain from any parent in qs is among the chains ChainsAll enumerates for qs. */
  lemma {:induction false} ChainsAllHas(ps: map<int, seq<int>>, level: map<int, nat>, qs: seq<int>, r: nat, i: int,
                                        d: seq<int>)
    requires Layered(ps, level) && Below(ps, level, qs, r) && 0 <= i < |qs|
    requires d in Chains(ps, level, qs[i])
    ensures d in ChainsAll(ps, level, qs, r)
    decreases i
  {
    assert ChainsAll(ps, level, qs, r) == Chains(ps, level, qs[0]) + ChainsAll(ps, level, qs[1..], r);
    if i > 0 {
      ChainsAllHas(ps, level, qs[1..], r, i - 1, d);
    }
  }

  /** Each node is stored under its own id, so no node is stored under two ids. */
  ghost predicate Named(nodes: map<int, LatticeNode>)
  {
    forall k :: k in nodes ==> nodes[k].id == k
  }

  lemma NamedInsert(nodes: map<int, LatticeNode>, id: int, node: LatticeNode)
    requires Named(nodes) && id !in nodes && node.id == id && forall k :: k in nodes ==> nodes[k] != node
    ensures Named(nodes[id := node])
  {
  }

  class Lattice {
    var nodes: map<int, LatticeNode>
    /** The ids the Bloom filter reports as possibly present. */
    var filter: set<int>
    /** The level of each node: each parent is the root marker or on a lower level. */
    ghost var level: map<int, nat>
    /** Every node object the lattice has created. */
    ghost var Repr: set<LatticeNode>

    /** The parent list of every node. */
    function Parents(): map<int, seq<int>>
      reads this, nodes.Values
    {
      map k | k in nodes :: nodes[k].parents
    }

    ghost predicate Valid()
      reads this, nodes.Values
    {
      nodes.Keys <= filter && level.Keys == nodes.Keys && (forall k :: k in nodes ==> nodes[k] in Repr) && Named(nodes)
    }

    /** The parent map is layered: the lattice's levels order every chain. */
    ghost predicate Ordered()
      reads this, nodes.Values
    {
      Layered(Parents(), level)
    }

    /** An empty lattice whose filter reports exactly the ids falsePositives. */
    constructor (estSize: int, falsePositives: set<int>)
      ensures Valid() && Ordered() && nodes == map[] && filter == falsePositives && Repr == {}
    {
      nodes := map[];
      filter := falsePositives;
      level := map[];
      Repr := {};
    }

    /**
     * `addNode`: a new id becomes a node with the one parent given and
     * enters the filter; a known id gets the parent appended. The parent
     * is the root marker or a node on a lower level (lv for a new id).
     */
    method AddNode(id: int, parent: int, ghost lv: nat)
      requires Valid()
      requires id in nodes ==> parent == -1 || (parent in nodes && level[parent] < level[id])
      requires id !in nodes ==> lv >= 1 && (parent == -1 || (parent in nodes && level[parent] < lv))
      modifies this, if id in nodes then {nodes[id]} else {}
      ensures Valid() && nodes.Keys == old(nodes.Keys) + {id}
      ensures Parents() == old(Parents())[id := (if id in old(nodes) then old(Parents())[id] else []) + [parent]]
      ensures filter == if id in old(nodes) then old(filter) else old(filter) + {id}
      ensures level == if id in old(nodes) then old(level) else old(level)[id := lv]
      ensures old(Ordered()) ==> Ordered()
      ensures old(Repr) <= Repr && fresh(Repr - old(Repr))
    {
      ghost var ps, levels := Parents(), level;
      if id in nodes {
        AppendParent(id, parent);
        if Layered(ps, levels) {
          LayeredExtend(ps, levels, id, parent);
        }
      } else {
        InsertNode(id, parent, lv);
        assert [] + [parent] == [parent];
        if Layered(ps, levels) {
          LayeredInsert(ps, levels, id, parent, lv);
        }
      }
    }

    /** A known id gets the parent appended; nothing else changes. */
    method AppendParent(id: int, parent: int)
      requires Valid() && id in nodes
      requires parent == -1 || (parent in nodes && level[parent] < level[id])
      modifies nodes[id]
      ensures Valid() && unchanged(this)
      ensures Parents() == old(Parents())[id := old(Parents())[id] + [parent]]
    {
      nodes[id].AddParent(parent);
      forall k | k in Parents()
        ensures Parents()[k] == old(Parents())[id := old(Parents())[id] + [parent]][k]
      {
        if k != id {
          assert old(nodes[k]) != old(nodes[id]);
        }
      }
    }

    /** A new id becomes a node on level lv with the one parent given, and enters the filter. */
    method InsertNode(id: int, parent: int, ghost lv: nat)
      requires Valid() && id !in nodes
      requires lv >= 1 && (parent == -1 || (parent in nodes && level[parent] < lv))
      modifies this
      ensures Valid() && nodes.Keys == old(nodes.Keys) + {id}
      ensures Parents() == old(Parents())[id := [parent]]
      ensures filter == old(filter) + {id} && level == old(level)[id := lv]
      ensures old(Repr) <= Repr && fresh(Repr - old(Repr))
    {
      ghost var ps := Parents();
      var node := new LatticeNode(id, parent);
      assert forall k :: k in nodes ==> nodes[k] != node && nodes[k].parents == ps[k];
      NamedInsert(nodes, id, node);
      nodes := nodes[id := node];
      filter := filter + {id};
      level := level[id := lv];
      Repr := Repr + {node};

      ghost var ps' := Parents();
      assert ps'.Keys == nodes.Keys;
      assert forall k :: k in nodes ==> ps'[k] == nodes[k].parents == ps[id := [parent]][k];
      assert ps' == ps[id := [parent]];
    }

    /** `getNodes`: the visited ids, every one of them reported by the filter. */
    function GetNodes(): (r: set<int>)
      requires Valid()
      reads this, nodes.Values
      ensures r == nodes.Keys && r <= filter
    {
      nodes.Keys
    }

    /**
     * `getPathsToId`: none for an id the lattice does not hold; otherwise
     * one path per parent chain from id, each the set of the chain's nodes.
     */
    function GetPathsToId(id: int): (paths: seq<set<int>>)
      requires Valid() && Ordered()
      reads this, nodes.Values
      ensures id !in nodes ==> paths == []
      ensures id in nodes ==> |paths| == |Chains(Parents(), level, id)|
      ensures id in nodes ==> forall i :: 0 <= i < |paths| ==>
        paths[i] == Utils.Elements(Chains(Parents(), level, id)[i]) && (id != -1 ==> IsChain(Parents(), id, Chains(Parents(), level, id)[i]))
    {
      if !(id in filter) || !(id in nodes) then []
      else
        StepBackChains(Parents(), level, {}, id);
        ChainsAreChains(Parents(), level, id);
        StepBack(Parents(), level, {}, id)
    }
  }

  /** Appending to a node's parents a parent below its level keeps the map layered. */
  lemma LayeredExtend(ps: map<int, seq<int>>, level: map<int, nat>, id: int, parent: int)
    requires Layered(ps, level) && id in ps
    requires parent == -1 || (parent in ps && level[parent] < level[id])
    ensures Layered(ps[id := ps[id] + [parent]], level)
  {
  }

  /** A new node on a level above its one parent keeps the map layered. */
  lemma LayeredInsert(ps: map<int, seq<int>>, level: map<int, nat>, id: int, parent: int, lv: nat)
    requires Layered(ps, level) && id !in ps && lv >= 1
    requires parent == -1 || (parent in ps && level[parent] < lv)
    ensures Layered(ps[id := [parent]], level[id := lv])
  {
  }

  /** A root added with the root marker as its only parent has the single path holding itself. */
  lemma RootPaths(ps: map<int, seq<int>>, level: map<int, nat>, root: int)
    requires Layered(ps, level) && root in ps && root != -1 && ps[root] == [-1]
    ensures StepBack(ps, level, {}, root) == [{root}]
  {
    var r := Rank(level, root);
    assert {} + {root} == {root};
    assert StepBack(ps, level, {}, root) == StepBackAll(ps, level, {root}, [-1], r);
    assert [-1][1..] == [];
    assert StepBackAll(ps, level, {root}, [], r) == [];
  }
}
