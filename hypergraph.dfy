/**
 * The hypergraph: the list of hyperedges (the id of each is its position
 * in the list), the index from each vertex to the hyperedges holding it,
 * the dimension (largest hyperedge size), and the neighbour maps that
 * record, for each pair of overlapping hyperedges, their overlap.
 */
module HyperGraphs {
  import opened Wrappers
  import opened HyperEdges
  import Utils
  import Components

  class HyperGraph {
    const hyperedges: seq<HyperEdge>
    /** For each vertex, the ids of the hyperedges that contain it. */
    var vertexMap: map<int, set<int>>
    /** Size of the largest hyperedge. */
    var dimension: int

    /** Edge ids are list positions; the source looks edges up by id in the list. */
    predicate WellIndexed()
    {
      forall i :: 0 <= i < |hyperedges| ==> hyperedges[i].id == i
    }

    /** A valid hyperedge id. */
    predicate IsEdge(e: int)
    {
      0 <= e < |hyperedges|
    }

    /** The vertices of hyperedge e. */
    function V(e: int): set<int>
      requires IsEdge(e)
    {
      hyperedges[e].vertices
    }

    /** Whether e is a hyperedge holding vertex v. */
    predicate Has(e: int, v: int)
    {
      IsEdge(e) && v in V(e)
    }

    /** The number of vertices two hyperedges share. */
    function Overlap(a: int, b: int): nat
      requires IsEdge(a) && IsEdge(b)
    {
      |V(a) * V(b)|
    }

    /** The vertex map lists, for every vertex, exactly the hyperedges holding it. */
    ghost predicate IndexesVertices()
      reads this
    {
      (forall v, e :: v in vertexMap && e in vertexMap[v] <==> Has(e, v)) &&
      (forall v :: v in vertexMap ==> vertexMap[v] != {})
    }

    /** The dimension is the largest hyperedge size (0 for no hyperedges). */
    ghost predicate DimensionIsMax()
      reads this
    {
      (forall e :: IsEdge(e) ==> hyperedges[e].size <= dimension) &&
      (dimension == 0 || exists e :: IsEdge(e) && hyperedges[e].size == dimension)
    }

    ghost predicate Valid()
      reads this
    {
      WellIndexed() && IndexesVertices() && DimensionIsMax()
    }

    /** Two distinct positions hold two distinct hyperedge objects. */
    lemma DistinctEdges(a: int, b: int)
      requires WellIndexed() && IsEdge(a) && IsEdge(b) && a != b
      ensures hyperedges[a] != hyperedges[b]
    {
    }

    /**
     * Builds the vertex map and, when asked, the neighbour maps of the
     * hyperedges (which then hold exactly the overlaps with the others).
     */
    constructor (edges: seq<HyperEdge>, initializeOverlaps: bool)
      requires forall i :: 0 <= i < |edges| ==> edges[i].id == i
      requires initializeOverlaps ==> forall i :: 0 <= i < |edges| ==> edges[i].neighbours == map[]
      modifies edges
      ensures Valid() && hyperedges == edges
      ensures !initializeOverlaps ==> forall i :: 0 <= i < |edges| ==> edges[i].neighbours == old(edges[i].neighbours)
      ensures initializeOverlaps ==> ExactNeighbours()
    {
      hyperedges := edges;
      vertexMap := map[];
      dimension := 0;
      new;
      InitializeVertexMap();
      if initializeOverlaps {
        InitializeNeighbours();
      }
    }

    /**
     * The vertex map after the hyperedges below i and the vertices extra of
     * hyperedge i: each entry holds exactly the ids of those that have the vertex.
     */
    ghost predicate VertexMapUpTo(vm: map<int, set<int>>, i: int, extra: set<int>)
    {
      (forall v, e :: v in vm && e in vm[v] ==> (e < i && Has(e, v)) || (e == i && v in extra)) &&
      (forall v, e :: e < i && Has(e, v) ==> v in vm && e in vm[v]) &&
      (forall v :: v in extra ==> v in vm && i in vm[v]) &&
      (forall v :: v in vm ==> vm[v] != {})
    }

    /** Scans the hyperedges, adding each to the entries of its vertices and raising the dimension. */
    method InitializeVertexMap()
      requires WellIndexed() && vertexMap == map[] && dimension == 0
      modifies this
      ensures Valid()
    {
      var i := 0;
      ghost var widest := -1;
      while i < |hyperedges|
        invariant 0 <= i <= |hyperedges|
        invariant VertexMapUpTo(vertexMap, i, {})
        invariant forall e :: 0 <= e < i ==> hyperedges[e].size <= dimension
        invariant dimension == 0 || (0 <= widest < i && hyperedges[widest].size == dimension)
      {
        var edge := hyperedges[i];
        if edge.GetNumVertices() > dimension {
          widest := i;
        }
        dimension := Max(dimension, edge.GetNumVertices());
        ghost var d := dimension;
        var rest := edge.vertices;
        while rest != {}
          invariant rest <= V(i)
          invariant VertexMapUpTo(vertexMap, i, V(i) - rest)
          invariant dimension == d
          decreases rest
        {
          var v := Pick(rest);
          var memb := if v in vertexMap then vertexMap[v] else {};
          memb := memb + {edge.id};
          VertexMapStep(vertexMap, i, V(i) - rest, v);
          vertexMap := vertexMap[v := memb];
          assert V(i) - (rest - {v}) == (V(i) - rest) + {v};
          rest := rest - {v};
        }
        VertexMapNext(vertexMap, i);
        i := i + 1;
      }
      VertexMapDone(vertexMap);
    }

    /** Entering hyperedge i under vertex v extends the map by that one membership. */
    lemma VertexMapStep(vm: map<int, set<int>>, i: int, extra: set<int>, v: int)
      requires VertexMapUpTo(vm, i, extra)
      ensures VertexMapUpTo(vm[v := (if v in vm then vm[v] else {}) + {i}], i, extra + {v})
    {
    }

    /** A hyperedge whose vertices are all entered counts as one below the next index. */
    lemma VertexMapNext(vm: map<int, set<int>>, i: int)
      requires IsEdge(i) && VertexMapUpTo(vm, i, V(i) - {})
      ensures VertexMapUpTo(vm, i + 1, {})
    {
    }

    /** After every hyperedge, the map indexes all vertices. */
    lemma VertexMapDone(vm: map<int, set<int>>)
      requires VertexMapUpTo(vm, |hyperedges|, {})
      ensures forall v, e :: v in vm && e in vm[v] <==> Has(e, v)
    {
    }

    /** Edges with an index below i that overlap a, each with its overlap size. */
    ghost function OverlapsBelow(a: int, i: int): map<int, int>
      requires IsEdge(a) && i <= |hyperedges|
    {
      map b | 0 <= b < i && b != a && Overlap(a, b) > 0 :: Overlap(a, b)
    }

    /** Every hyperedge's neighbours are exactly the others it overlaps, with their overlap sizes. */
    ghost predicate ExactNeighbours()
      reads hyperedges
    {
      forall a :: IsEdge(a) ==> hyperedges[a].neighbours == OverlapsBelow(a, |hyperedges|)
    }

    /** The vertices of e that are in done. */
    ghost function Shared(done: set<int>, e: int): nat
      requires IsEdge(e)
    {
      |done * V(e)|
    }

    /**
     * The dynamic vertex index after the hyperedges below i and the vertices
     * extra of hyperedge i: each list holds, in increasing order, exactly the
     * ids of those that have the vertex.
     */
    ghost predicate IndexUpTo(vI: map<int, seq<int>>, i: int, extra: set<int>)
    {
      (forall v, n :: v in vI && n in vI[v] ==> (n < i && Has(n, v)) || (n == i && v in extra)) &&
      (forall v, n :: n < i && Has(n, v) ==> v in vI && n in vI[v]) &&
      (forall v :: v in extra ==> v in vI && i in vI[v]) &&
      (forall v :: v in vI ==> Increasing(vI[v]))
    }

    /** The dynamic vertex index after the hyperedges below i. */
    ghost predicate IndexBelow(vI: map<int, seq<int>>, i: int)
    {
      IndexUpTo(vI, i, {})
    }

    /**
     * The counts after the vertices done of a hyperedge with index i, and
     * the ids in extra of the list being read: every earlier edge that
     * shares a vertex is a key, with the number of shared vertices.
     */
    ghost predicate Counts(curr: map<int, int>, i: int, done: set<int>, extra: seq<int>)
      requires i <= |hyperedges|
    {
      (forall n :: n in curr ==> 0 <= n < i && curr[n] == Shared(done, n) + (if n in extra then 1 else 0) > 0) &&
      (forall n :: 0 <= n < i && (Shared(done, n) > 0 || n in extra) ==> n in curr)
    }

    /**
     * Fills every neighbour map with the exact overlaps: each hyperedge in
     * turn counts, through the index of the earlier ones, how many vertices it
     * shares with each of them, and the counts are written on both sides.
     */
    method InitializeNeighbours()
      requires WellIndexed()
      requires forall a :: IsEdge(a) ==> hyperedges[a].neighbours == map[]
      modifies hyperedges
      ensures ExactNeighbours()
    {
      var vIndex: map<int, seq<int>> := map[];
      var i := 0;
      while i < |hyperedges|
        invariant 0 <= i <= |hyperedges|
        invariant IndexBelow(vIndex, i)
        invariant forall a :: IsEdge(a) ==> hyperedges[a].neighbours == (if a < i then OverlapsBelow(a, i) else map[])
      {
        var curr := FindNeighbours(i, vIndex);
        RecordNeighbours(i, curr);
        ExactBelowNext(i, curr);
        vIndex := IndexEdge(vIndex, i);
        i := i + 1;
      }
    }

    /**
     * Once the overlaps of hyperedge i with the earlier ones are written on
     * both sides, every map holds the exact overlaps below i + 1.
     */
    lemma ExactBelowNext(i: int, curr: map<int, int>)
      requires IsEdge(i) && curr == OverlapsBelow(i, i)
      requires hyperedges[i].neighbours == map[] + curr
      requires forall a :: IsEdge(a) && a != i ==>
        hyperedges[a].neighbours == (if a in curr then OverlapsBelow(a, i)[i := curr[a]] else if a < i then OverlapsBelow(a, i) else map[])
      ensures forall a :: IsEdge(a) ==> hyperedges[a].neighbours == (if a < i + 1 then OverlapsBelow(a, i + 1) else map[])
    {
      forall a | IsEdge(a)
        ensures hyperedges[a].neighbours == (if a < i + 1 then OverlapsBelow(a, i + 1) else map[])
      {
        if a <= i {
          OverlapsBelowStep(a, i);
          OverlapSym(a, i);
        }
      }
    }

    /**
     * Writes the overlaps curr found for hyperedge e on both sides: into e's
     * own map, and e with its value into the map of each edge in curr.
     */
    method RecordNeighbours(e: int, curr: map<int, int>)
      requires WellIndexed() && IsEdge(e)
      requires forall n :: n in curr ==> IsEdge(n)
      modifies hyperedges
      ensures hyperedges[e].neighbours == old(hyperedges[e].neighbours) + curr
      ensures forall a :: IsEdge(a) && a != e ==>
        hyperedges[a].neighbours == (if a in curr then old(hyperedges[a].neighbours)[e := curr[a]] else old(hyperedges[a].neighbours))
      ensures Nb() == Recorded(old(Nb()), e, curr)
    {
      var edge := hyperedges[e];
      edge.UpdateNeighbourData(curr);
      var pending := curr.Keys;
      while pending != {}
        invariant pending <= curr.Keys
        invariant hyperedges[e].neighbours == old(hyperedges[e].neighbours) + curr
        invariant forall a :: IsEdge(a) && a != e ==>
          hyperedges[a].neighbours == (if a in curr.Keys - pending then old(hyperedges[a].neighbours)[e := curr[a]] else old(hyperedges[a].neighbours))
        decreases pending
      {
        var n := Pick(pending);
        hyperedges[n].AddNeighbour(edge.id, curr[n]);
        if n == e {
          assert hyperedges[e].neighbours == old(hyperedges[e].neighbours) + curr;
        }
        pending := pending - {n};
      }
    }

    /** The neighbour maps of all hyperedges, by position. */
    ghost function Nb(): (r: seq<map<int, int>>)
      reads hyperedges
      ensures |r| == |hyperedges|
      ensures forall a :: 0 <= a < |r| ==> r[a] == hyperedges[a].neighbours
    {
      seq(|hyperedges|, a requires 0 <= a < |hyperedges| reads hyperedges => hyperedges[a].neighbours)
    }

    /** The neighbour maps after the overlaps curr of hyperedge e are written on both sides. */
    ghost function Recorded(nbs: seq<map<int, int>>, e: int, curr: map<int, int>): (r: seq<map<int, int>>)
      ensures |r| == |nbs|
    {
      seq(|nbs|, a requires 0 <= a < |nbs| =>
        if a == e then nbs[a] + curr else if a in curr then nbs[a][e := curr[a]] else nbs[a])
    }

    /**
     * Neighbour maps that are symmetric in their keys, name only hyperedges,
     * and never record more than the true overlap.
     */
    ghost predicate ConsistentMaps(nbs: seq<map<int, int>>)
    {
      |nbs| == |hyperedges| &&
      forall a, b :: 0 <= a < |nbs| && b in nbs[a] ==> IsEdge(b) && a in nbs[b] && nbs[a][b] <= Overlap(a, b)
    }

    /** Every neighbour of the first maps is kept by the second. */
    ghost predicate KeysGrow(before: seq<map<int, int>>, after: seq<map<int, int>>)
    {
      |before| == |after| && forall a, b :: 0 <= a < |before| && b in before[a] ==> b in after[a]
    }

    /** Exact neighbour maps are consistent. */
    lemma ExactIsConsistent()
      requires ExactNeighbours()
      ensures ConsistentMaps(Nb())
    {
      forall a, b | 0 <= a < |hyperedges| && b in hyperedges[a].neighbours
        ensures a in hyperedges[b].neighbours
      {
        OverlapSym(a, b);
      }
    }

    /**
     * Writing overlaps that do not exceed the true ones keeps the maps
     * consistent, keeps every neighbour, and links e with each edge of curr.
     */
    lemma RecordedConsistent(nbs: seq<map<int, int>>, e: int, curr: map<int, int>)
      requires ConsistentMaps(nbs) && IsEdge(e)
      requires forall c :: c in curr ==> IsEdge(c) && curr[c] <= Overlap(e, c)
      ensures ConsistentMaps(Recorded(nbs, e, curr))
      ensures KeysGrow(nbs, Recorded(nbs, e, curr))
      ensures forall c :: c in curr ==> c in Recorded(nbs, e, curr)[e] && e in Recorded(nbs, e, curr)[c]
    {
      var r := Recorded(nbs, e, curr);
      forall a, b | 0 <= a < |r| && b in r[a]
        ensures IsEdge(b) && a in r[b] && r[a][b] <= Overlap(a, b)
      {
        if a == e {
          OverlapSym(a, b);
        } else if a in curr && b == e {
          OverlapSym(a, b);
        }
      }
    }

    /** Growth of the neighbour keys is transitive. */
    lemma KeysGrowTrans(x: seq<map<int, int>>, y: seq<map<int, int>>, z: seq<map<int, int>>)
      requires KeysGrow(x, y) && KeysGrow(y, z)
      ensures KeysGrow(x, z)
    {
    }

    /** The overlaps found for every candidate, each capped at maxS (and at least at 1). */
    method FindNeighboursAmongCands(edge: int, cands: set<int>, maxS: int) returns (curr: map<int, int>)
      requires IsEdge(edge) && forall c :: c in cands ==> IsEdge(c)
      ensures curr.Keys == cands
      ensures forall c :: c in curr ==> curr[c] == Min(Overlap(edge, c), Max(maxS, 1))
    {
      curr := map[];
      var rest := cands;
      while rest != {}
        invariant rest <= cands
        invariant curr.Keys == cands - rest
        invariant forall c :: c in curr ==> curr[c] == Min(Overlap(edge, c), Max(maxS, 1))
        decreases rest
      {
        var cand := Pick(rest);
        var o := Utils.CappedIntersectionSize(hyperedges[edge].vertices, hyperedges[cand].vertices, maxS);
        curr := curr[cand := o];
        rest := rest - {cand};
      }
    }

    /** For each hyperedge, every candidate neighbour listed for it at any level. */
    function CandidateUnion(candsNeigh: map<int, map<int, seq<int>>>): (r: map<int, set<int>>)
      ensures forall e :: e in r <==> exists s :: s in candsNeigh && e in candsNeigh[s]
      ensures forall e, c :: e in r && c in r[e] <==> exists s :: s in candsNeigh && e in candsNeigh[s] && c in candsNeigh[s][e]
    {
      var keys := set s, e | s in candsNeigh && e in candsNeigh[s] :: e;
      map e | e in keys :: set s, c | s in candsNeigh && e in candsNeigh[s] && c in candsNeigh[s][e] :: c
    }

    /** Hyperedges a and b are neighbours of each other in the maps nbs. */
    ghost predicate LinkedIn(nbs: seq<map<int, int>>, a: int, b: int)
    {
      0 <= a < |nbs| && 0 <= b < |nbs| && b in nbs[a] && a in nbs[b]
    }

    /**
     * Completes neighbour maps left empty at construction with what the
     * component sweep found: every recorded partial overlap is written on
     * both sides, then every hyperedge whose 1-component is larger than lb
     * gets, for each candidate found for it at any level and not yet a
     * neighbour, its overlap capped at maxS, again on both sides.
     */
    method InitializeNeighboursFromCandidates(CCS: Components.ConnectedComponents, maxS: int, lb: int)
      requires WellIndexed() && CCS.Valid()
      requires ConsistentMaps(Nb())
      requires forall p :: p in CCS.partialOverlaps ==>
        IsEdge(p.0) && IsEdge(p.1) && CCS.partialOverlaps[p] <= Overlap(p.0, p.1)
      requires CandidatesAreEdges(CCS.candsNeigh)
      requires forall s, e :: s in CCS.candsNeigh && e in CCS.candsNeigh[s] ==> CCS.GetIdOfSCC(e, 1) >= 0
      modifies hyperedges
      ensures ConsistentMaps(Nb())
      ensures KeysGrow(old(Nb()), Nb())
      ensures forall p :: p in CCS.partialOverlaps ==> LinkedIn(Nb(), p.0, p.1)
      ensures forall e, c ::
        (e in CandidateUnion(CCS.candsNeigh) && c in CandidateUnion(CCS.candsNeigh)[e] &&
         CCS.GetSizeOf(1, CCS.GetIdOfSCC(e, 1)) > lb) ==> LinkedIn(Nb(), e, c)
      ensures NeighboursWritten(old(Nb()), Nb(), CCS.partialOverlaps, CandidateUnion(CCS.candsNeigh),
                                Eligible(CCS, CandidateUnion(CCS.candsNeigh), lb), Max(maxS, 1))
    {
      ghost var start := Nb();
      RecordPartialOverlaps(CCS);
      ghost var mid := Nb();
      RecordCandidates(CCS, maxS, lb);
      KeysGrowTrans(start, mid, Nb());
      forall p | p in CCS.partialOverlaps
        ensures LinkedIn(Nb(), p.0, p.1)
      {
        assert LinkedIn(mid, p.0, p.1);
      }
      WrittenBoth(start, mid, Nb(), CCS.partialOverlaps, CandidateUnion(CCS.candsNeigh),
                  Eligible(CCS, CandidateUnion(CCS.candsNeigh), lb), Max(maxS, 1));
    }

    /** The hyperedges of the union whose 1-component is larger than lb: those whose candidates are examined. */
    ghost function Eligible(CCS: Components.ConnectedComponents, union: map<int, set<int>>, lb: int): set<int>
      requires CCS.Valid()
      reads CCS
    {
      set e | e in union && CCS.GetIdOfSCC(e, 1) >= 0 && CCS.GetSizeOf(1, CCS.GetIdOfSCC(e, 1)) > lb
    }

    /**
     * The value v of the entry for b in the map of a after the partial
     * overlaps of done are written: the overlap recorded for (a, b) or for
     * (b, a) when either is in done (whichever was written last), else the
     * value a already had for b.
     */
    ghost predicate PartialValue(start: seq<map<int, int>>, partial: map<(int, int), int>, done: set<(int, int)>,
                                 a: int, b: int, v: int)
    {
      if (a, b) in done || (b, a) in done then
        ((a, b) in done && (a, b) in partial && v == partial[(a, b)]) ||
        ((b, a) in done && (b, a) in partial && v == partial[(b, a)])
      else
        0 <= a < |start| && b in start[a] && v == start[a][b]
    }

    /**
     * nbs is start with the partial overlaps of done written on both sides:
     * a pair is linked exactly when it was before or is in done either way
     * round, and each entry holds its PartialValue.
     */
    ghost predicate PartialsWritten(start: seq<map<int, int>>, nbs: seq<map<int, int>>, partial: map<(int, int), int>,
                                    done: set<(int, int)>)
    {
      |nbs| == |start| &&
      forall a, b :: 0 <= a < |nbs| ==>
        (b in nbs[a] <==> b in start[a] || (a, b) in done || (b, a) in done) &&
        (b in nbs[a] ==> PartialValue(start, partial, done, a, b, nbs[a][b]))
    }

    /**
     * nbs is mid with candidate overlaps added for the hyperedges of done:
     * every entry of mid keeps its value, and every new entry links a
     * hyperedge of done with one of its candidates, holding their overlap
     * capped at cap.
     */
    ghost predicate CandidatesWritten(mid: seq<map<int, int>>, nbs: seq<map<int, int>>, union: map<int, set<int>>,
                                      done: set<int>, cap: int)
    {
      |nbs| == |mid| &&
      (forall a, b :: 0 <= a < |nbs| && b in mid[a] ==> b in nbs[a] && nbs[a][b] == mid[a][b]) &&
      (forall a, b :: 0 <= a < |nbs| && b in nbs[a] && b !in mid[a] ==>
        Candidate(union, done, a, b) && CappedOverlap(a, b, nbs[a][b], cap))
    }

    /** v is the overlap of hyperedges a and b capped at cap. */
    ghost predicate CappedOverlap(a: int, b: int, v: int, cap: int)
    {
      IsEdge(a) && IsEdge(b) && v == Min(Overlap(a, b), cap)
    }

    /** a is a hyperedge of done with candidate b, or the other way round. */
    ghost predicate Candidate(union: map<int, set<int>>, done: set<int>, a: int, b: int)
    {
      (a in done && a in union && b in union[a]) || (b in done && b in union && a in union[b])
    }

    /**
     * The neighbour maps nbs after both steps from start: a pair linked
     * before or holding a partial overlap has its PartialValue; any other
     * entry links an eligible hyperedge with one of its candidates and
     * holds their overlap capped at cap. No other pair is linked.
     */
    ghost predicate NeighboursWritten(start: seq<map<int, int>>, nbs: seq<map<int, int>>, partial: map<(int, int), int>,
                                      union: map<int, set<int>>, eligible: set<int>, cap: int)
    {
      forall a, b :: 0 <= a < |nbs| && b in nbs[a] ==>
        if (0 <= a < |start| && b in start[a]) || (a, b) in partial || (b, a) in partial then
          PartialValue(start, partial, partial.Keys, a, b, nbs[a][b])
        else
          Candidate(union, eligible, a, b) && CappedOverlap(a, b, nbs[a][b], cap)
    }

    /** The two steps together. */
    lemma WrittenBoth(start: seq<map<int, int>>, mid: seq<map<int, int>>, nbs: seq<map<int, int>>,
                      partial: map<(int, int), int>, union: map<int, set<int>>, eligible: set<int>, cap: int)
      requires PartialsWritten(start, mid, partial, partial.Keys)
      requires CandidatesWritten(mid, nbs, union, eligible, cap)
      ensures NeighboursWritten(start, nbs, partial, union, eligible, cap)
    {
    }

    /** The first step: every recorded partial overlap, written on both sides. */
    method RecordPartialOverlaps(CCS: Components.ConnectedComponents)
      requires WellIndexed()
      requires ConsistentMaps(Nb())
      requires forall p :: p in CCS.partialOverlaps ==>
        IsEdge(p.0) && IsEdge(p.1) && CCS.partialOverlaps[p] <= Overlap(p.0, p.1)
      modifies hyperedges
      ensures ConsistentMaps(Nb())
      ensures KeysGrow(old(Nb()), Nb())
      ensures forall p :: p in CCS.partialOverlaps ==> LinkedIn(Nb(), p.0, p.1)
      ensures PartialsWritten(old(Nb()), Nb(), CCS.partialOverlaps, CCS.partialOverlaps.Keys)
    {
      ghost var start := Nb();
      ghost var nbs := start;
      var pairs := CCS.partialOverlaps.Keys;
      ghost var done: set<(int, int)> := {};
      while pairs != {}
        invariant nbs == Nb() && PairsState(start, nbs, CCS.partialOverlaps, pairs, done)
        decreases pairs
      {
        nbs, pairs, done := RecordOnePair(CCS.partialOverlaps, start, nbs, pairs, done);
      }
      assert done == CCS.partialOverlaps.Keys;
    }

    /** One recorded partial overlap, written on both sides. */
    method RecordOnePair(partial: map<(int, int), int>, ghost start: seq<map<int, int>>, ghost nbs: seq<map<int, int>>,
                         pairs: set<(int, int)>, ghost done: set<(int, int)>)
      returns (ghost nbs': seq<map<int, int>>, pairs': set<(int, int)>, ghost done': set<(int, int)>)
      requires WellIndexed() && pairs != {}
      requires forall p :: p in partial ==> IsEdge(p.0) && IsEdge(p.1) && partial[p] <= Overlap(p.0, p.1)
      requires nbs == Nb() && PairsState(start, nbs, partial, pairs, done)
      modifies hyperedges
      ensures pairs' < pairs
      ensures nbs' == Nb() && PairsState(start, nbs', partial, pairs', done')
    {
      var pair := Pick(pairs);
      var o := partial[pair];
      // adding the pair on both sides writes the one-entry map {pair.1: o} for pair.0
      RecordNeighbours(pair.0, map[pair.1 := o]);
      nbs' := Recorded(nbs, pair.0, map[pair.1 := o]);
      PairsStateStep(start, nbs, partial, pairs, done, pair);
      done' := done + {pair};
      pairs' := pairs - {pair};
    }

    /** The state of the first step: the pairs of done are written, those of pairs are not yet. */
    ghost predicate PairsState(start: seq<map<int, int>>, nbs: seq<map<int, int>>, partial: map<(int, int), int>,
                               pairs: set<(int, int)>, done: set<(int, int)>)
    {
      pairs <= partial.Keys && done <= partial.Keys && pairs !! done &&
      (forall p :: p in partial ==> p in pairs || p in done) &&
      ConsistentMaps(nbs) && KeysGrow(start, nbs) && PairsLinked(nbs, done) &&
      PartialsWritten(start, nbs, partial, done)
    }

    /** Writing one more pair moves it from pairs to done. */
    lemma PairsStateStep(start: seq<map<int, int>>, nbs: seq<map<int, int>>, partial: map<(int, int), int>,
                         pairs: set<(int, int)>, done: set<(int, int)>, pair: (int, int))
      requires PairsState(start, nbs, partial, pairs, done) && pair in pairs
      requires IsEdge(pair.0) && IsEdge(pair.1) && partial[pair] <= Overlap(pair.0, pair.1)
      ensures PairsState(start, Recorded(nbs, pair.0, map[pair.1 := partial[pair]]), partial, pairs - {pair}, done + {pair})
    {
      PairLinked(start, nbs, done, pair.0, pair.1, partial[pair]);
      PartialStep(start, nbs, partial, done, pair);
    }

    /** Both members of every pair of done are neighbours of each other. */
    ghost predicate PairsLinked(nbs: seq<map<int, int>>, done: set<(int, int)>)
    {
      forall p :: p in done ==> LinkedIn(nbs, p.0, p.1)
    }

    /** Writing one more pair of partial overlaps on both sides. */
    lemma PartialStep(start: seq<map<int, int>>, nbs: seq<map<int, int>>, partial: map<(int, int), int>,
                      done: set<(int, int)>, pair: (int, int))
      requires PartialsWritten(start, nbs, partial, done) && pair in partial
      requires 0 <= pair.0 < |nbs| && 0 <= pair.1 < |nbs|
      ensures PartialsWritten(start, Recorded(nbs, pair.0, map[pair.1 := partial[pair]]), partial, done + {pair})
    {
      var r := Recorded(nbs, pair.0, map[pair.1 := partial[pair]]);
      var done' := done + {pair};
      forall a, b | 0 <= a < |r|
        ensures b in r[a] <==> b in start[a] || (a, b) in done' || (b, a) in done'
        ensures b in r[a] ==> PartialValue(start, partial, done', a, b, r[a][b])
      {
        if (a, b) == pair || (b, a) == pair {
          assert b in r[a] && r[a][b] == partial[pair];
        } else {
          assert b in r[a] <==> b in nbs[a];
          assert b in r[a] ==> r[a][b] == nbs[a][b];
        }
      }
    }

    /** Writing one pair keeps the maps consistent and growing, and links the pair. */
    lemma PairLinked(start: seq<map<int, int>>, nbs: seq<map<int, int>>, done: set<(int, int)>, a: int, b: int, o: int)
      requires ConsistentMaps(nbs) && KeysGrow(start, nbs) && PairsLinked(nbs, done)
      requires IsEdge(a) && IsEdge(b) && o <= Overlap(a, b)
      ensures ConsistentMaps(Recorded(nbs, a, map[b := o]))
      ensures KeysGrow(start, Recorded(nbs, a, map[b := o]))
      ensures PairsLinked(Recorded(nbs, a, map[b := o]), done + {(a, b)})
    {
      RecordedConsistent(nbs, a, map[b := o]);
      KeysGrowTrans(start, nbs, Recorded(nbs, a, map[b := o]));
    }

    /**
     * The second step: each hyperedge whose 1-component is larger than lb
     * takes the capped overlaps of its candidates that are not yet neighbours.
     */
    method RecordCandidates(CCS: Components.ConnectedComponents, maxS: int, lb: int)
      requires WellIndexed() && CCS.Valid()
      requires ConsistentMaps(Nb())
      requires CandidatesAreEdges(CCS.candsNeigh)
      requires forall s, e :: s in CCS.candsNeigh && e in CCS.candsNeigh[s] ==> CCS.GetIdOfSCC(e, 1) >= 0
      modifies hyperedges
      ensures ConsistentMaps(Nb())
      ensures KeysGrow(old(Nb()), Nb())
      ensures forall e, c ::
        (e in CandidateUnion(CCS.candsNeigh) && c in CandidateUnion(CCS.candsNeigh)[e] &&
         CCS.GetSizeOf(1, CCS.GetIdOfSCC(e, 1)) > lb) ==> LinkedIn(Nb(), e, c)
      ensures CandidatesWritten(old(Nb()), Nb(), CandidateUnion(CCS.candsNeigh),
                                Eligible(CCS, CandidateUnion(CCS.candsNeigh), lb), Max(maxS, 1))
    {
      var union := CandidateUnion(CCS.candsNeigh);
      UnionOfEdges(CCS.candsNeigh);
      var pending := set e | e in union && CCS.GetSizeOf(1, CCS.GetIdOfSCC(e, 1)) > lb;
      assert pending == Eligible(CCS, union, lb);
      UpdateAll(union, pending, maxS);
    }

    /** The loop of the second step: each hyperedge of todo, in any order, takes its candidates. */
    method UpdateAll(union: map<int, set<int>>, todo: set<int>, maxS: int)
      requires WellIndexed() && ConsistentMaps(Nb()) && UnionIsEdges(union) && todo <= union.Keys
      modifies hyperedges
      ensures ConsistentMaps(Nb()) && KeysGrow(old(Nb()), Nb())
      ensures AllLinked(Nb(), union, todo)
      ensures CandidatesWritten(old(Nb()), Nb(), union, todo, Max(maxS, 1))
    {
      ghost var start := Nb();
      ghost var nbs := start;
      var pending := todo;
      ghost var done: set<int> := {};
      while pending != {}
        invariant nbs == Nb() && CandState(start, nbs, union, todo, pending, done, Max(maxS, 1))
        decreases pending
      {
        var e1 := Pick(pending);
        UpdateFromCandidates(e1, union[e1], maxS);
        ghost var nbs' := Nb();
        CandStateStep(start, nbs, nbs', union, todo, pending, done, e1, Max(maxS, 1));
        nbs := nbs';
        done := done + {e1};
        pending := pending - {e1};
      }
      assert forall e :: e in todo ==> e in done;
      assert done == todo;
    }

    /** The state of the second step: the hyperedges of done are handled, those of pending are not yet. */
    ghost predicate CandState(start: seq<map<int, int>>, nbs: seq<map<int, int>>, union: map<int, set<int>>,
                              todo: set<int>, pending: set<int>, done: set<int>, cap: int)
    {
      pending <= todo <= union.Keys && done <= todo && pending !! done &&
      (forall e :: e in todo ==> e in pending || e in done) &&
      UnionIsEdges(union) && ConsistentMaps(nbs) && KeysGrow(start, nbs) &&
      AllLinked(nbs, union, done) && CandidatesWritten(start, nbs, union, done, cap)
    }

    /** Handling e1 moves it from pending to done. */
    lemma CandStateStep(start: seq<map<int, int>>, nbs: seq<map<int, int>>, nbs': seq<map<int, int>>,
                        union: map<int, set<int>>, todo: set<int>, pending: set<int>, done: set<int>, e1: int, cap: int)
      requires CandState(start, nbs, union, todo, pending, done, cap) && e1 in pending
      requires Updated(nbs, nbs', e1, union[e1], cap)
      ensures CandState(start, nbs', union, todo, pending - {e1}, done + {e1}, cap)
    {
      KeysGrowTrans(start, nbs, nbs');
      AllLinkedStep(nbs, nbs', union, done, e1);
      CandidatesStep(start, nbs, nbs', union, done, e1, cap);
    }

    /**
     * nbs' is nbs after the candidates cands of e1 are handled: consistent,
     * every link and entry of nbs kept, e1 linked with every candidate, and
     * each new entry a capped overlap between e1 and one of its candidates.
     */
    ghost predicate Updated(nbs: seq<map<int, int>>, nbs': seq<map<int, int>>, e1: int, cands: set<int>, cap: int)
    {
      ConsistentMaps(nbs') && KeysGrow(nbs, nbs') &&
      (forall c :: c in cands ==> LinkedIn(nbs', e1, c)) &&
      (forall a, b :: LinkedIn(nbs, a, b) ==> LinkedIn(nbs', a, b)) &&
      (forall a, b :: 0 <= a < |nbs'| && b in nbs[a] ==> b in nbs'[a] && nbs'[a][b] == nbs[a][b]) &&
      (forall a, b :: 0 <= a < |nbs'| && b in nbs'[a] && b !in nbs[a] ==>
        CappedOverlap(a, b, nbs'[a][b], cap) &&
        Touches(e1, cands, a, b))
    }

    /** Every hyperedge of the union, and each of its candidates, is a hyperedge. */
    ghost predicate UnionIsEdges(union: map<int, set<int>>)
    {
      forall e :: e in union ==> IsEdge(e) && forall c :: c in union[e] ==> IsEdge(c)
    }

    /** Each hyperedge of done is linked with all its candidates. */
    ghost predicate AllLinked(nbs: seq<map<int, int>>, union: map<int, set<int>>, done: set<int>)
    {
      forall e, c :: e in done && e in union && c in union[e] ==> LinkedIn(nbs, e, c)
    }

    /** The pair a, b joins e1 with one of its candidates cands, either way round. */
    ghost predicate Touches(e1: int, cands: set<int>, a: int, b: int)
    {
      (a == e1 && b in cands) || (b == e1 && a in cands)
    }

    /** Handling e1 keeps the entries already there and adds only capped overlaps with its candidates. */
    lemma CandidatesStep(mid: seq<map<int, int>>, nbs: seq<map<int, int>>, nbs': seq<map<int, int>>,
                         union: map<int, set<int>>, done: set<int>, e1: int, cap: int)
      requires CandidatesWritten(mid, nbs, union, done, cap) && e1 in union && |nbs'| == |nbs|
      requires forall a, b :: 0 <= a < |nbs'| && b in nbs[a] ==> b in nbs'[a] && nbs'[a][b] == nbs[a][b]
      requires forall a, b :: 0 <= a < |nbs'| && b in nbs'[a] && b !in nbs[a] ==>
        CappedOverlap(a, b, nbs'[a][b], cap) && Touches(e1, union[e1], a, b)
      ensures CandidatesWritten(mid, nbs', union, done + {e1}, cap)
    {
      forall a, b | 0 <= a < |nbs'| && b in nbs'[a] && b !in mid[a]
        ensures Candidate(union, done + {e1}, a, b) && CappedOverlap(a, b, nbs'[a][b], cap)
      {
        if b in nbs[a] {
          assert Candidate(union, done, a, b) && nbs'[a][b] == nbs[a][b];
        }
      }
    }

    /** Links survive growth, and handling e1 adds its own. */
    lemma AllLinkedStep(nbs: seq<map<int, int>>, nbs': seq<map<int, int>>, union: map<int, set<int>>, done: set<int>, e1: int)
      requires AllLinked(nbs, union, done) && e1 in union
      requires forall a, b :: LinkedIn(nbs, a, b) ==> LinkedIn(nbs', a, b)
      requires forall c :: c in union[e1] ==> LinkedIn(nbs', e1, c)
      ensures AllLinked(nbs', union, done + {e1})
    {
    }

    /**
     * One hyperedge of the second step: the candidates that are not yet
     * neighbours get their capped overlaps, written on both sides.
     */
    method UpdateFromCandidates(e1: int, cands: set<int>, maxS: int)
      requires WellIndexed() && IsEdge(e1) && forall c :: c in cands ==> IsEdge(c)
      requires ConsistentMaps(Nb())
      modifies hyperedges
      ensures Updated(old(Nb()), Nb(), e1, cands, Max(maxS, 1))
    {
      ghost var nbs := Nb();
      var candidates := cands - GetNeighborsOf(e1);
      var curr := FindNeighboursAmongCands(e1, candidates, maxS);
      CandidatesLinked(nbs, e1, cands, curr);
      CandidatesKept(nbs, e1, cands, curr, Max(maxS, 1));
      RecordNeighbours(e1, curr);
    }

    /** Writing the capped overlaps of new candidates overwrites no entry. */
    lemma CandidatesKept(nbs: seq<map<int, int>>, e1: int, cands: set<int>, curr: map<int, int>, cap: int)
      requires ConsistentMaps(nbs) && IsEdge(e1)
      requires forall c :: c in cands ==> IsEdge(c)
      requires curr.Keys == cands - nbs[e1].Keys
      requires forall c :: c in curr ==> curr[c] == Min(Overlap(e1, c), cap)
      ensures forall a, b :: 0 <= a < |nbs| && b in nbs[a] ==>
        b in Recorded(nbs, e1, curr)[a] && Recorded(nbs, e1, curr)[a][b] == nbs[a][b]
      ensures forall a, b :: 0 <= a < |nbs| && b in Recorded(nbs, e1, curr)[a] && b !in nbs[a] ==>
        CappedOverlap(a, b, Recorded(nbs, e1, curr)[a][b], cap) && Touches(e1, cands, a, b)
    {
      var r := Recorded(nbs, e1, curr);
      forall a, b | 0 <= a < |nbs| && b in r[a] && b !in nbs[a]
        ensures CappedOverlap(a, b, r[a][b], cap)
        ensures Touches(e1, cands, a, b)
      {
        if a != e1 {
          OverlapSym(a, e1);
        }
      }
    }

    /** Every hyperedge with candidates, and every candidate, at every level, is a hyperedge. */
    ghost predicate CandidatesAreEdges(candsNeigh: map<int, map<int, seq<int>>>)
    {
      forall s, e :: s in candsNeigh && e in candsNeigh[s] ==>
        IsEdge(e) && forall c :: c in candsNeigh[s][e] ==> IsEdge(c)
    }

    /** The candidates of hyperedges are hyperedges. */
    lemma UnionOfEdges(candsNeigh: map<int, map<int, seq<int>>>)
      requires CandidatesAreEdges(candsNeigh)
      ensures UnionIsEdges(CandidateUnion(candsNeigh))
    {
    }

    /**
     * Writing the capped overlaps of the candidates of e1 that were not yet
     * neighbours keeps the maps consistent and growing, and links e1 with
     * every candidate.
     */
    lemma CandidatesLinked(nbs: seq<map<int, int>>, e1: int, cands: set<int>, curr: map<int, int>)
      requires ConsistentMaps(nbs) && IsEdge(e1)
      requires forall c :: c in cands ==> IsEdge(c)
      requires curr.Keys == cands - nbs[e1].Keys
      requires forall c :: c in curr ==> curr[c] <= Overlap(e1, c)
      ensures ConsistentMaps(Recorded(nbs, e1, curr))
      ensures KeysGrow(nbs, Recorded(nbs, e1, curr))
      ensures forall c :: c in cands ==> LinkedIn(Recorded(nbs, e1, curr), e1, c)
      ensures forall a, b :: LinkedIn(nbs, a, b) ==> LinkedIn(Recorded(nbs, e1, curr), a, b)
    {
      RecordedConsistent(nbs, e1, curr);
    }

    /** Appends hyperedge i to the index list of each of its vertices. */
    method IndexEdge(vI: map<int, seq<int>>, i: int) returns (r: map<int, seq<int>>)
      requires WellIndexed() && IsEdge(i) && IndexBelow(vI, i)
      ensures IndexBelow(r, i + 1)
    {
      r := vI;
      var rest := hyperedges[i].vertices;
      while rest != {}
        invariant rest <= V(i)
        invariant IndexUpTo(r, i, V(i) - rest)
        decreases rest
      {
        var v := Pick(rest);
        var tmpList := if v in r then r[v] else [];
        AppendIncreasing(tmpList, hyperedges[i].id);
        tmpList := tmpList + [hyperedges[i].id];
        r := r[v := tmpList];
        rest := rest - {v};
      }
      assert V(i) - rest == V(i);
    }

    /** Counts, for every earlier hyperedge, how many vertices it shares with hyperedge i. */
    method FindNeighbours(i: int, vI: map<int, seq<int>>) returns (curr: map<int, int>)
      requires WellIndexed() && IsEdge(i) && IndexBelow(vI, i)
      ensures curr == OverlapsBelow(i, i)
    {
      var edge := hyperedges[i];
      curr := map[];
      var rest := edge.vertices;
      ghost var done: set<int> := {};
      while rest != {}
        invariant rest <= V(i) && done == V(i) - rest
        invariant Counts(curr, i, done, [])
        decreases rest
      {
        var v := Pick(rest);
        var list := if v in vI then vI[v] else [];
        curr := CountList(i, done, v, list, curr);
        CountVertex(curr, i, done, v, list);
        done := done + {v};
        rest := rest - {v};
      }
      assert done == V(i);
      forall n | 0 <= n < i
        ensures Shared(done, n) == Overlap(i, n)
      {
      }
    }

    /** Counts the hyperedges listed under vertex v of hyperedge i, one each. */
    method CountList(i: int, ghost done: set<int>, ghost v: int, list: seq<int>, curr0: map<int, int>) returns (curr: map<int, int>)
      requires WellIndexed() && IsEdge(i) && Increasing(list)
      requires forall n :: n in list <==> n < i && Has(n, v)
      requires Counts(curr0, i, done, [])
      ensures Counts(curr, i, done, list)
    {
      curr := curr0;
      var k := 0;
      while k < |list|
        invariant 0 <= k <= |list|
        invariant Counts(curr, i, done, list[..k])
      {
        var n := list[k];
        assert n in list;
        if n != hyperedges[i].id {
          var c := if n in curr then curr[n] else 0;
          CountStep(curr, i, done, list, k);
          curr := curr[n := c + 1];
        } else {
          assert false;
        }
        k := k + 1;
      }
      assert list[..k] == list;
    }

    /** Counting one more listed edge keeps the counts in step. */
    lemma CountStep(curr: map<int, int>, i: int, done: set<int>, list: seq<int>, k: int)
      requires IsEdge(i) && 0 <= k < |list| && Increasing(list)
      requires 0 <= list[k] < i
      requires Counts(curr, i, done, list[..k])
      ensures Counts(curr[list[k] := (if list[k] in curr then curr[list[k]] else 0) + 1], i, done, list[..k + 1])
    {
      var n := list[k];
      assert list[..k + 1] == list[..k] + [n];
      assert n !in list[..k];
    }

    /** Once the whole list of vertex v is counted, v joins the done vertices. */
    lemma CountVertex(curr: map<int, int>, i: int, done: set<int>, v: int, list: seq<int>)
      requires IsEdge(i) && v !in done
      requires forall n :: n in list <==> n < i && Has(n, v)
      requires Counts(curr, i, done, list)
      ensures Counts(curr, i, done + {v}, [])
    {
      forall n | 0 <= n < i
        ensures Shared(done + {v}, n) == Shared(done, n) + (if n in list then 1 else 0)
      {
        SharedStep(done, v, n);
      }
    }

    /** Adding a vertex outside done raises the count of exactly the edges holding it. */
    lemma SharedStep(done: set<int>, v: int, e: int)
      requires IsEdge(e) && v !in done
      ensures Shared(done + {v}, e) == Shared(done, e) + (if v in V(e) then 1 else 0)
    {
      if v in V(e) {
        assert (done + {v}) * V(e) == done * V(e) + {v};
      } else {
        assert (done + {v}) * V(e) == done * V(e);
      }
    }

    /** Overlap does not depend on the order of the two edges. */
    lemma OverlapSym(a: int, b: int)
      requires IsEdge(a) && IsEdge(b)
      ensures Overlap(a, b) == Overlap(b, a)
    {
      assert V(a) * V(b) == V(b) * V(a);
    }

    /** Taking in one more index adds that edge when it overlaps a. */
    lemma OverlapsBelowStep(a: int, i: int)
      requires IsEdge(a) && 0 <= i < |hyperedges|
      ensures OverlapsBelow(a, i + 1) ==
        if a != i && Overlap(a, i) > 0 then OverlapsBelow(a, i)[i := Overlap(a, i)] else OverlapsBelow(a, i)
    {
    }

    /**
     * With exact neighbours, the s-neighbours of e (for s at least 1) are
     * exactly the other hyperedges sharing at least s vertices with it, and
     * the relation is symmetric.
     */
    lemma SNeighboursAreOverlaps(e: int, s: int)
      requires ExactNeighbours() && IsEdge(e) && s >= 1
      ensures forall b :: b in GetSNeighborsOf(e, s) <==> IsEdge(b) && b != e && Overlap(e, b) >= s
      ensures forall b :: b in GetSNeighborsOf(e, s) ==> e in GetSNeighborsOf(b, s)
    {
      forall b | b in GetSNeighborsOf(e, s)
        ensures e in GetSNeighborsOf(b, s)
      {
        OverlapSym(e, b);
      }
    }

    /** The ids of the neighbours of e. */
    function GetNeighborsOf(e: int): (r: set<int>)
      requires IsEdge(e)
      reads hyperedges[e]
      ensures r == hyperedges[e].neighbours.Keys
    {
      hyperedges[e].GetNeighbours()
    }

    /** The neighbours of e whose recorded overlap is at least s. */
    function GetSNeighborsOf(e: int, s: int): (r: set<int>)
      requires IsEdge(e)
      reads hyperedges[e]
      ensures forall n :: n in r <==> n in hyperedges[e].neighbours && hyperedges[e].neighbours[n] >= s
    {
      hyperedges[e].GetSNeighbours(s)
    }

    /** The s-degree of e: how many neighbours overlap it in at least s vertices. */
    function GetEdgeDegree(e: int, s: int): (r: nat)
      requires IsEdge(e)
      reads hyperedges[e]
      ensures r == |GetSNeighborsOf(e, s)|
    {
      hyperedges[e].GetNumSNeighbours(s)
    }

    /** The hyperedges of size at least s that contain v; v must be a known vertex. */
    function GetSHyperEdgesOf(v: int, s: int): (r: set<int>)
      requires Valid() && v in vertexMap
      reads this
      ensures forall e :: e in r <==> IsEdge(e) && v in V(e) && hyperedges[e].size >= s
    {
      set e | e in vertexMap[v] && IsEdge(e) && hyperedges[e].GetNumVertices() >= s
    }

    /** Whether hyperedge e is kept at level s: every edge at level 1, otherwise those of size at least s. */
    predicate InView(e: int, s: int)
      requires IsEdge(e)
    {
      s == 1 || hyperedges[e].size >= s
    }

    /** The ids of the hyperedges kept at level s, in list order. */
    function GetEdgesWithMinSize(s: int): (r: seq<int>)
      requires WellIndexed()
      ensures forall k :: 0 <= k < |r| ==> IsEdge(r[k]) && InView(r[k], s)
      ensures forall e :: IsEdge(e) && InView(e, s) ==> e in r
      ensures forall a, b :: 0 <= a < b < |r| ==> r[a] < r[b]
    {
      EdgesFrom(0, s)
    }

    /** The ids at positions from i onwards kept at level s. */
    function EdgesFrom(i: nat, s: int): (r: seq<int>)
      requires WellIndexed() && i <= |hyperedges|
      ensures forall k :: 0 <= k < |r| ==> i <= r[k] < |hyperedges| && InView(r[k], s)
      ensures forall e :: i <= e < |hyperedges| && InView(e, s) ==> e in r
      ensures forall a, b :: 0 <= a < b < |r| ==> r[a] < r[b]
      decreases |hyperedges| - i
    {
      if i == |hyperedges| then []
      else (if InView(i, s) then [hyperedges[i].id] else []) + EdgesFrom(i + 1, s)
    }

    /**
     * The number of hyperedges of size at least s; for every level but 1
     * it is the length of the list of edges kept at that level.
     */
    function GetNumEdgesWithMinSize(s: int): (r: nat)
      requires WellIndexed()
      ensures r <= |hyperedges|
      ensures r == |set e | 0 <= e < |hyperedges| && hyperedges[e].GetNumVertices() >= s|
      ensures s != 1 ==> r == |GetEdgesWithMinSize(s)|
    {
      CountSized(0, s);
      assert SizedFrom(0, s) == set e | 0 <= e < |hyperedges| && hyperedges[e].GetNumVertices() >= s;
      CountFrom(0, s)
    }

    /** The positions from i onwards whose hyperedge has at least s vertices. */
    ghost function SizedFrom(i: nat, s: int): set<int>
    {
      set e | i <= e < |hyperedges| && hyperedges[e].GetNumVertices() >= s
    }

    /** CountFrom counts the positions from i onwards whose hyperedge has at least s vertices. */
    lemma {:induction false} CountSized(i: nat, s: int)
      requires WellIndexed() && i <= |hyperedges|
      ensures CountFrom(i, s) == |SizedFrom(i, s)|
      decreases |hyperedges| - i
    {
      if i < |hyperedges| {
        CountSized(i + 1, s);
        if hyperedges[i].GetNumVertices() >= s {
          assert SizedFrom(i, s) == {i} + SizedFrom(i + 1, s);
        } else {
          assert SizedFrom(i, s) == SizedFrom(i + 1, s);
        }
      } else {
        assert SizedFrom(i, s) == {};
      }
    }

    /** The number of hyperedges at positions from i onwards with size at least s. */
    function CountFrom(i: nat, s: int): (r: nat)
      requires WellIndexed() && i <= |hyperedges|
      ensures r <= |hyperedges| - i
      ensures s != 1 ==> r == |EdgesFrom(i, s)|
      decreases |hyperedges| - i
    {
      if i == |hyperedges| then 0
      else (if hyperedges[i].GetNumVertices() >= s then 1 else 0) + CountFrom(i + 1, s)
    }

    /** The number of distinct vertices. */
    function GetNumVertices(): (r: nat)
      reads this
      ensures r == |vertexMap.Keys|
    {
      |vertexMap|
    }

    /** The dimension: no hyperedge is larger. */
    function GetDimension(): (r: int)
      requires Valid()
      reads this
      ensures forall e :: IsEdge(e) ==> hyperedges[e].size <= r
    {
      dimension
    }
  }

  /** The list is strictly increasing, so it holds no id twice. */
  ghost predicate Increasing(l: seq<int>)
  {
    forall a, b :: 0 <= a < b < |l| ==> l[a] < l[b]
  }

  /** Appending an id above every element keeps a list increasing. */
  lemma AppendIncreasing(l: seq<int>, x: int)
    requires Increasing(l) && forall n :: n in l ==> n < x
    ensures Increasing(l + [x])
  {
    forall a | 0 <= a < |l|
      ensures l[a] < x
    {
      assert l[a] in l;
    }
  }

}
