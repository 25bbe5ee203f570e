/**
 * The store of s-connected components filled level by level by the
 * component sweep: the components of every level that is not all
 * singletons, the membership map of every level, the overlaps recorded
 * between pairs of hyperedges, and the candidate neighbour lists.
 */
module Components {

  /** Largest component size, 0 for no components (`max().orElse(0)`). */
  function MaxSize(comps: seq<seq<int>>): (r: nat)
    ensures forall i :: 0 <= i < |comps| ==> |comps[i]| <= r
    ensures comps == [] ==> r == 0
    ensures comps != [] ==> exists i :: 0 <= i < |comps| && |comps[i]| == r
  {
    if comps == [] then 0
    else
      var rest := MaxSize(comps[1..]);
      if |comps[0]| >= rest then |comps[0]| else rest
  }

  /** True when some component has more than one member. */
  lemma MaxSizeAboveOne(comps: seq<seq<int>>)
    ensures MaxSize(comps) > 1 <==> exists i :: 0 <= i < |comps| && |comps[i]| > 1
  {
  }

  /** The members of one component, each mapped to the component's index. */
  function ComponentMap(comp: seq<int>, id: int): (r: map<int, int>)
    ensures r.Keys == set e | e in comp
    ensures forall e :: e in r ==> r[e] == id
  {
    map e | e in comp :: id
  }

  /**
   * The membership map of a list of components: later components
   * overwrite earlier ones, as successive `putAll` calls do.
   */
  function Membership(comps: seq<seq<int>>): map<int, int>
  {
    if comps == [] then map[]
    else Membership(comps[..|comps| - 1]) + ComponentMap(comps[|comps| - 1], |comps| - 1)
  }

  /**
   * Membership, independently characterised: an element is a key iff it
   * belongs to some component, and it maps to the last component that
   * holds it.
   */
  lemma {:induction false} MembershipLast(comps: seq<seq<int>>, e: int)
    ensures e in Membership(comps) <==> exists i :: 0 <= i < |comps| && e in comps[i]
    ensures e in Membership(comps) ==>
      var id := Membership(comps)[e];
      0 <= id < |comps| && e in comps[id] &&
      forall j :: id < j < |comps| ==> e !in comps[j]
  {
    if comps != [] {
      var n := |comps| - 1;
      var front := comps[..n];
      MembershipLast(front, e);
      if e !in comps[n] {
        assert forall i :: 0 <= i < n ==> front[i] == comps[i];
      }
    }
  }

  /** With pairwise disjoint components, e maps to i exactly when e is in component i. */
  lemma MembershipOfPartition(comps: seq<seq<int>>, e: int, i: int)
    requires forall a, b :: 0 <= a < b < |comps| ==> forall x :: x in comps[a] ==> x !in comps[b]
    requires 0 <= i < |comps|
    ensures e in Membership(comps) && Membership(comps)[e] == i <==> e in comps[i]
  {
    MembershipLast(comps, e);
  }

  /** No component lists the same hyperedge twice. */
  predicate NoDuplicates(comps: seq<seq<int>>)
  {
    forall i, a, b :: 0 <= i < |comps| && 0 <= a < b < |comps[i]| ==> comps[i][a] != comps[i][b]
  }

  /** The candidate lists of level s, empty when there are none (`getOrDefault(s, new HashMap)`). */
  function LevelOf(candsNeigh: map<int, map<int, seq<int>>>, s: int): map<int, seq<int>>
  {
    if s in candsNeigh then candsNeigh[s] else map[]
  }

  class ConnectedComponents {
    /** For each s, the s-connected components (stored only if not all singletons). */
    var ccs: map<int, seq<seq<int>>>
    /** Partial overlaps recorded between ordered pairs of hyperedges. */
    var partialOverlaps: map<(int, int), int>
    /** For each s and hyperedge e1, the hyperedges found in e1's s-component while counting. */
    var candsNeigh: map<int, map<int, seq<int>>>
    /** For each s and hyperedge e, the index of e's s-component. */
    var ccPerHyperedge: map<int, map<int, int>>

    /** Every stored component index is non-negative. */
    predicate Valid()
      reads this
    {
      forall s, e :: s in ccPerHyperedge && e in ccPerHyperedge[s] ==> ccPerHyperedge[s][e] >= 0
    }

    constructor ()
      ensures Valid()
      ensures ccs == map[] && partialOverlaps == map[] && candsNeigh == map[] && ccPerHyperedge == map[]
    {
      ccs := map[];
      partialOverlaps := map[];
      candsNeigh := map[];
      ccPerHyperedge := map[];
    }

    /** Empties the temporary maps; the components and memberships stay. */
    method ClearStructures()
      requires Valid()
      modifies this
      ensures Valid()
      ensures partialOverlaps == map[] && candsNeigh == map[]
      ensures ccs == old(ccs) && ccPerHyperedge == old(ccPerHyperedge)
    {
      partialOverlaps := map[];
      candsNeigh := map[];
    }

    /** The recorded overlap of (e1, e2), -1 when none was recorded. */
    function GetOverlap(e1: int, e2: int): (r: int)
      reads this
      ensures (e1, e2) in partialOverlaps ==> r == partialOverlaps[(e1, e2)]
      ensures (e1, e2) !in partialOverlaps ==> r == -1
    {
      if (e1, e2) in partialOverlaps then partialOverlaps[(e1, e2)] else -1
    }

    /** Records (or overwrites) the overlap of the ordered pair (e1, e2). */
    method AddOverlap(e1: int, e2: int, o: int)
      requires Valid()
      modifies this
      ensures Valid()
      ensures partialOverlaps == old(partialOverlaps)[(e1, e2) := o]
      ensures GetOverlap(e1, e2) == o
      ensures forall a, b :: (a, b) != (e1, e2) ==> GetOverlap(a, b) == old(GetOverlap(a, b))
      ensures ccs == old(ccs) && candsNeigh == old(candsNeigh) && ccPerHyperedge == old(ccPerHyperedge)
    {
      partialOverlaps := partialOverlaps[(e1, e2) := o];
    }

    /** The pairs with a recorded overlap. */
    function GetOverlappingPairs(): (r: set<(int, int)>)
      reads this
      ensures r == partialOverlaps.Keys
      ensures forall p :: p in r <==> GetOverlap(p.0, p.1) != -1 || (p in partialOverlaps && partialOverlaps[p] == -1)
    {
      partialOverlaps.Keys
    }

    /** The candidate neighbours listed for (s, e1), empty when there are none. */
    function CandidatesOf(s: int, e1: int): seq<int>
      reads this
    {
      if s in candsNeigh && e1 in candsNeigh[s] then candsNeigh[s][e1] else []
    }

    /** Appends e2 to the candidate list of (s, e1), creating the entries as needed. */
    method AddCandidateNeighbourPair(e1: int, e2: int, s: int)
      requires Valid()
      modifies this
      ensures Valid()
      ensures candsNeigh == old(candsNeigh)[s := LevelOf(old(candsNeigh), s)[e1 := old(CandidatesOf(s, e1)) + [e2]]]
      ensures CandidatesOf(s, e1) == old(CandidatesOf(s, e1)) + [e2]
      ensures forall t, e :: (t, e) != (s, e1) ==> CandidatesOf(t, e) == old(CandidatesOf(t, e))
      ensures candsNeigh.Keys == old(candsNeigh.Keys) + {s}
      ensures s in candsNeigh && candsNeigh[s].Keys == old(if s in candsNeigh then candsNeigh[s].Keys else {}) + {e1}
      ensures forall t :: t in old(candsNeigh) && t != s ==> candsNeigh[t] == old(candsNeigh[t])
      ensures ccs == old(ccs) && partialOverlaps == old(partialOverlaps) && ccPerHyperedge == old(ccPerHyperedge)
    {
      var tmp := if s in candsNeigh then candsNeigh[s] else map[];
      var tmpList := if e1 in tmp then tmp[e1] else [];
      tmpList := tmpList + [e2];
      tmp := tmp[e1 := tmpList];
      candsNeigh := candsNeigh[s := tmp];
    }

    /**
     * Stores the components of level s if some component has more than
     * one member, and says whether it did.
     */
    method AddSCCs(thisCCs: seq<seq<int>>, s: int) returns (stored: bool)
      requires Valid()
      modifies this
      ensures Valid()
      ensures stored <==> exists i :: 0 <= i < |thisCCs| && |thisCCs[i]| > 1
      ensures stored ==> ccs == old(ccs)[s := thisCCs]
      ensures !stored ==> ccs == old(ccs)
      ensures partialOverlaps == old(partialOverlaps) && candsNeigh == old(candsNeigh) && ccPerHyperedge == old(ccPerHyperedge)
    {
      var maxSize := MaxSize(thisCCs);
      MaxSizeAboveOne(thisCCs);
      if maxSize > 1 {
        ccs := ccs[s := thisCCs];
        return true;
      }
      return false;
    }

    /**
     * Replaces the membership map of level s: every member of component i
     * maps to i, a later component winning over an earlier one. A
     * component listing a hyperedge twice makes the source's collector
     * throw, hence the precondition.
     */
    method AddMemberships(thisCCs: seq<seq<int>>, s: int)
      requires Valid()
      requires NoDuplicates(thisCCs)
      modifies this
      ensures Valid()
      ensures ccPerHyperedge == old(ccPerHyperedge)[s := Membership(thisCCs)]
      ensures ccs == old(ccs) && partialOverlaps == old(partialOverlaps) && candsNeigh == old(candsNeigh)
    {
      var tmp: map<int, int> := map[];
      var i := 0;
      while i < |thisCCs|
        invariant 0 <= i <= |thisCCs|
        invariant tmp == Membership(thisCCs[..i])
        invariant forall e :: e in tmp ==> tmp[e] >= 0
      {
        assert thisCCs[..i + 1][..i] == thisCCs[..i];
        tmp := tmp + ComponentMap(thisCCs[i], i);
        i := i + 1;
      }
      assert thisCCs[..i] == thisCCs;
      ccPerHyperedge := ccPerHyperedge[s := tmp];
    }

    /** The index of e's s-component, -1 when s or e is unknown. */
    function GetIdOfSCC(e: int, s: int): (r: int)
      requires Valid()
      reads this
      ensures r >= 0 <==> s in ccPerHyperedge && e in ccPerHyperedge[s]
      ensures r >= 0 ==> r == ccPerHyperedge[s][e]
      ensures r < 0 ==> r == -1
    {
      if s in ccPerHyperedge && e in ccPerHyperedge[s] then ccPerHyperedge[s][e] else -1
    }

    /** The stored components of level s, empty when none are stored. */
    function GetSCCs(s: int): (r: seq<seq<int>>)
      reads this
      ensures s in ccs ==> r == ccs[s]
      ensures s !in ccs ==> r == []
    {
      if s in ccs then ccs[s] else []
    }

    /**
     * The size of component cc_id of level s, 0 when there is no such
     * component. A negative index makes the source's list lookup throw.
     */
    function GetSizeOf(s: int, cc_id: int): (r: nat)
      requires cc_id >= 0
      reads this
      ensures cc_id >= |GetSCCs(s)| ==> r == 0
      ensures cc_id < |GetSCCs(s)| ==> r == |ccs[s][cc_id]|
    {
      var tmp := GetSCCs(s);
      if |tmp| <= cc_id then 0 else |tmp[cc_id]|
    }

    /** Whether the components of level s are stored. */
    function Contains(s: int): (r: bool)
      reads this
      ensures r <==> s in ccs
      ensures r <==> GetSCCs(s) != [] || s in ccs
    {
      s in ccs
    }

    /** Whether no level has stored components. */
    function IsEmpty(): (r: bool)
      reads this
      ensures r ==> forall s :: !Contains(s)
      ensures !r ==> |ccs.Keys| > 0
    {
      |ccs| == 0
    }

    /** The number of levels with stored components. */
    function Size(): (r: nat)
      reads this
      ensures r == |ccs.Keys|
      ensures r == 0 <==> IsEmpty()
    {
      |ccs|
    }
  }
}
