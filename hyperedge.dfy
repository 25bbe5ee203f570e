/**
 * A hyperedge: a fixed id and vertex set, and a mutable map from
 * neighbouring hyperedge ids to their overlap (or s-distance) value.
 */
module HyperEdges {
  import opened Wrappers

  /**
   * `hashCode` of a hyperedge with the given id whose vertex set hashes
   * to setHash (Java's set hash, the wrapped sum of its elements), in
   * 32-bit arithmetic.
   */
  function EdgeHash(id: int, setHash: int): (r: int)
    ensures IntMin <= r <= IntMax
  {
    Wrap32(17 * Wrap32(17 * 3 + id) + setHash)
  }

  /** Integers less than 2^32 apart have different 32-bit wrap-arounds. */
  lemma WrapDistinct(x: int, y: int)
    requires 0 < y - x < 0x1_0000_0000
    ensures Wrap32(x) != Wrap32(y)
  {
    var k := 0x1_0000_0000;
    assert (Wrap32(x) - x) % k == 0 && (Wrap32(y) - y) % k == 0;
  }

  /**
   * Hashing mixes in the id while equality ignores it: two hyperedges
   * with the same vertex set and ids 0 and 1 are equal but hash differently.
   */
  lemma EqualEdgesHashDifferently(setHash: int)
    requires IntMin <= setHash <= IntMax
    ensures EdgeHash(0, setHash) != EdgeHash(1, setHash)
  {
    assert Wrap32(17 * 3 + 0) == 51 && Wrap32(17 * 3 + 1) == 52;
    WrapDistinct(17 * 51 + setHash, 17 * 52 + setHash);
  }

  /** Java's hash of a set of integers: the sum of its elements, in 32-bit arithmetic. */
  ghost function SetHash(s: set<int>): (r: int)
    ensures IntMin <= r <= IntMax
  {
    if s == {} then 0
    else
      assert exists x :: x in s by { var e := Member(s); }
      var x :| x in s; Wrap32(x + SetHash(s - {x}))
  }

  /**
   * The hash that agrees with equality: the mixing of `hashCode` without
   * the id, so that it depends on the vertex set alone.
   */
  ghost function VertexHash(e: HyperEdge): (r: int)
    ensures IntMin <= r <= IntMax
  {
    Wrap32(17 * 51 + SetHash(e.vertices))
  }

  /** Equal hyperedges have equal vertex hashes. */
  lemma VertexHashConsistent(a: HyperEdge, b: HyperEdge)
    requires a.Equals(b)
    ensures VertexHash(a) == VertexHash(b)
  {
  }

  class HyperEdge {
    const id: int
    const vertices: set<int>
    /** Number of vertices, fixed at construction. */
    const size: nat := |vertices|
    /** Neighbour id -> overlap size (or s-distance). */
    var neighbours: map<int, int>

    constructor (id: int, vertices: set<int>)
      ensures this.id == id && this.vertices == vertices
      ensures size == |vertices|
      ensures neighbours == map[]
    {
      this.id := id;
      this.vertices := vertices;
      this.neighbours := map[];
    }

    /** The number of vertices, as counted when the edge was built. */
    function GetNumVertices(): (r: nat)
      ensures r == |vertices|
    {
      size
    }

    /** Whether v is one of the vertices. */
    predicate Contains(v: int)
    {
      v in vertices
    }

    /** Whether this hyperedge subsumes the vertex set vs. */
    predicate ContainsAll(vs: set<int>)
    {
      vs <= vertices
    }

    /** The ids of all neighbours. */
    function GetNeighbours(): set<int>
      reads this
    {
      neighbours.Keys
    }

    /** The neighbours whose value is at least s. */
    function GetSNeighbours(s: int): (r: set<int>)
      reads this
      ensures r <= neighbours.Keys
      ensures forall n :: n in r <==> n in neighbours && neighbours[n] >= s
    {
      set n | n in neighbours && neighbours[n] >= s
    }

    /** Raising s can only drop neighbours. */
    lemma SNeighboursAntitone(s: int, t: int)
      requires s <= t
      ensures GetSNeighbours(t) <= GetSNeighbours(s)
      ensures |GetSNeighbours(t)| <= |GetSNeighbours(s)|
    {
      SubsetCard(GetSNeighbours(t), GetSNeighbours(s));
    }

    /** The neighbours with value at least s that lie in cands. */
    function GetRestrSNeighbours(s: int, cands: set<int>): (r: set<int>)
      reads this
      ensures r == GetSNeighbours(s) * cands
    {
      set n | n in neighbours && neighbours[n] >= s && n in cands
    }

    /** How many neighbours have value at least s. */
    function GetNumSNeighbours(s: int): (r: nat)
      reads this
      ensures r == |GetSNeighbours(s)|
      ensures r <= |neighbours|
    {
      SubsetCard(GetSNeighbours(s), neighbours.Keys);
      |GetSNeighbours(s)|
    }

    /** Adds every entry of data, overwriting the keys it gives. */
    method UpdateNeighbourData(data: map<int, int>)
      modifies this
      ensures neighbours == old(neighbours) + data
      ensures forall n :: n !in data ==> (n in neighbours <==> n in old(neighbours))
      ensures forall n :: n in old(neighbours) && n !in data ==> neighbours[n] == old(neighbours)[n]
    {
      neighbours := neighbours + data;
    }

    /** Sets the value of neighbour n to w. */
    method AddNeighbour(n: int, w: int)
      modifies this
      ensures neighbours == old(neighbours)[n := w]
      ensures forall s ::
        GetSNeighbours(s) == (if w >= s then old(GetSNeighbours(s)) + {n} else old(GetSNeighbours(s)) - {n})
    {
      neighbours := neighbours[n := w];
    }

    /** Equality compares vertex sets only. */
    predicate Equals(that: HyperEdge)
    {
      vertices == that.vertices
    }

    /** A new hyperedge with the same id and vertices and no neighbours. */
    method Copy() returns (c: HyperEdge)
      ensures fresh(c)
      ensures c.id == id && c.vertices == vertices && c.size == size
      ensures c.neighbours == map[]
      ensures c.Equals(this)
    {
      c := new HyperEdge(id, vertices);
    }
  }
}
