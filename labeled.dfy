/**
 * The labelled nodes and edges of a line graph: a node is a hyperedge
 * id labelled with the hyperedge's size, an edge joins two hyperedge ids
 * and is labelled with their overlap (its weight).
 */
module Labels {
  import opened Wrappers
  import Text

  /**
   * `Objects.hash` of two and three int fields: starting from 1, each
   * field is added to 31 times the running hash, in 32-bit arithmetic.
   */
  function Hash2(a: int, b: int): (r: int)
    ensures IntMin <= r <= IntMax
  {
    Wrap32(31 * Wrap32(31 + a) + b)
  }

  function Hash3(a: int, b: int, c: int): (r: int)
    ensures IntMin <= r <= IntMax
  {
    Wrap32(31 * Hash2(a, b) + c)
  }

  /** An undirected edge of the line graph between src and dst with its weight. */
  datatype LabeledEdge = LabeledEdge(src: int, dst: int, weight: int)
  {
    /** `equals`: the same weight and the same endpoints, in either orientation. */
    predicate Equals(that: LabeledEdge)
    {
      ((src == that.src && dst == that.dst) || (src == that.dst && dst == that.src)) && weight == that.weight
    }

    /** `hashCode`, as written: the hash of the fields in their stored order. */
    function HashCode(): (r: int)
      ensures IntMin <= r <= IntMax
    {
      Hash3(src, dst, weight)
    }

    /** A hash code that, like Equals, ignores the orientation. */
    function UnorientedHashCode(): (r: int)
      ensures IntMin <= r <= IntMax
    {
      Hash3(Min(src, dst), Max(src, dst), weight)
    }

    /** `toString`: "[src-dst, weight]". */
    function ToString(): string
    {
      "[" + Text.IntToString(src) + "-" + Text.IntToString(dst) + ", " + Text.IntToString(weight) + "]"
    }

    /** `toSimpleString`: src, dst and weight separated by a tab, a tab and a blank. */
    function ToSimpleString(): string
    {
      Text.IntToString(src) + "\t" + Text.IntToString(dst) + "\t " + Text.IntToString(weight)
    }
  }

  /**
   * Equals says exactly that the two edges have the same weight and the
   * same pair of endpoints, regardless of order.
   */
  lemma EqualsAsEndpointBags(a: LabeledEdge, b: LabeledEdge)
    ensures a.Equals(b) <==> multiset{a.src, a.dst} == multiset{b.src, b.dst} && a.weight == b.weight
  {
    if multiset{a.src, a.dst} == multiset{b.src, b.dst} {
      assert a.src in multiset{b.src, b.dst};
      if a.src == b.src {
        assert multiset{a.dst} == multiset{a.src, a.dst} - multiset{a.src};
        assert multiset{b.dst} == multiset{b.src, b.dst} - multiset{b.src};
      } else {
        assert a.src == b.dst;
        assert multiset{a.dst} == multiset{a.src, a.dst} - multiset{a.src};
        assert multiset{b.src} == multiset{b.src, b.dst} - multiset{b.dst};
      }
    }
  }

  /** Equals is an equivalence: reflexive, symmetric and transitive. */
  lemma EqualsEquivalence(a: LabeledEdge, b: LabeledEdge, c: LabeledEdge)
    ensures a.Equals(a)
    ensures a.Equals(b) ==> b.Equals(a)
    ensures a.Equals(b) && b.Equals(c) ==> a.Equals(c)
  {
    EqualsAsEndpointBags(a, b);
    EqualsAsEndpointBags(b, c);
    EqualsAsEndpointBags(a, c);
  }

  /**
   * The stored hash depends on the orientation: an edge and its reverse
   * are equal but hash differently.
   */
  lemma ReversedEdgeHashesDifferently()
    ensures LabeledEdge(0, 1, 0).Equals(LabeledEdge(1, 0, 0))
    ensures LabeledEdge(0, 1, 0).HashCode() != LabeledEdge(1, 0, 0).HashCode()
  {
    assert Hash2(0, 1) == 962 && Hash2(1, 0) == 992;
    assert LabeledEdge(0, 1, 0).HashCode() == 29822;
    assert LabeledEdge(1, 0, 0).HashCode() == 30752;
  }

  /** The text of an edge determines the edge. */
  lemma EdgeTextInjective(a: LabeledEdge, b: LabeledEdge)
    requires a.ToString() == b.ToString()
    ensures a == b
  {
    var wa, wb := Text.IntToString(a.weight) + [']'] + [], Text.IntToString(b.weight) + [']'] + [];
    var ra, rb := Text.IntToString(a.dst) + [','] + ([' '] + wa), Text.IntToString(b.dst) + [','] + ([' '] + wb);
    var ta, tb := Text.IntToString(a.src) + ['-'] + ra, Text.IntToString(b.src) + ['-'] + rb;
    TextShape(a);
    TextShape(b);
    DropHead('[', ta, tb);
    Text.IntTextSplit(a.src, b.src, '-', ra, rb);
    Text.IntTextSplit(a.dst, b.dst, ',', [' '] + wa, [' '] + wb);
    DropHead(' ', wa, wb);
    Text.IntTextSplit(a.weight, b.weight, ']', [], []);
  }

  /** The text of an edge, bracketed as the injectivity proof splits it. */
  lemma TextShape(e: LabeledEdge)
    ensures e.ToString() == ['['] + (Text.IntToString(e.src) + ['-'] + (Text.IntToString(e.dst) + [','] + ([' '] + (Text.IntToString(e.weight) + [']'] + []))))
  {
  }

  /** A common first character can be cancelled. */
  lemma DropHead(c: char, x: string, y: string)
    requires [c] + x == [c] + y
    ensures x == y
  {
    assert x == ([c] + x)[1..];
  }

  /** The tab-separated text of an edge determines the edge. */
  lemma EdgeSimpleTextInjective(a: LabeledEdge, b: LabeledEdge)
    requires a.ToSimpleString() == b.ToSimpleString()
    ensures a == b
  {
    var wa, wb := Text.IntToString(a.weight), Text.IntToString(b.weight);
    var ra, rb := Text.IntToString(a.dst) + ['\t'] + ([' '] + wa), Text.IntToString(b.dst) + ['\t'] + ([' '] + wb);
    SimpleTextShape(a);
    SimpleTextShape(b);
    Text.IntTextSplit(a.src, b.src, '\t', ra, rb);
    Text.IntTextSplit(a.dst, b.dst, '\t', [' '] + wa, [' '] + wb);
    DropHead(' ', wa, wb);
    Text.IntToStringInjective(a.weight, b.weight);
  }

  /** The tab-separated text of an edge, bracketed as the injectivity proof splits it. */
  lemma SimpleTextShape(e: LabeledEdge)
    ensures e.ToSimpleString() == Text.IntToString(e.src) + ['\t'] + (Text.IntToString(e.dst) + ['\t'] + ([' '] + Text.IntToString(e.weight)))
  {
  }

  /** The unoriented hash agrees with Equals: equal edges hash alike. */
  lemma UnorientedHashConsistent(a: LabeledEdge, b: LabeledEdge)
    requires a.Equals(b)
    ensures a.UnorientedHashCode() == b.UnorientedHashCode()
  {
    EqualsAsEndpointBags(a, b);
    if a.src != b.src {
      assert a.src == b.dst && a.dst == b.src;
    }
  }

  /** A node of the line graph: the id of a hyperedge and its label, the size; both settable. */
  class LabeledNode {
    var index: int
    var size: int

    constructor (index: int, size: int)
      ensures this.index == index && this.size == size
    {
      this.index := index;
      this.size := size;
    }

    /** `equals`: the same index and the same size. */
    predicate Equals(that: LabeledNode)
      reads this, that
    {
      index == that.index && size == that.size
    }

    /** `hashCode`: the hash of index and size. */
    function HashCode(): (r: int)
      reads this
      ensures IntMin <= r <= IntMax
    {
      Hash2(index, size)
    }

    /** `setIndex`: changes the index only. */
    method SetIndex(index: int)
      modifies this
      ensures this.index == index && size == old(size)
    {
      this.index := index;
    }

    /** `setLabel`: changes the size only. */
    method SetLabel(size: int)
      modifies this
      ensures this.size == size && index == old(index)
    {
      this.size := size;
    }

    /** `toString`: "(index,size)". */
    function ToString(): string
      reads this
    {
      "(" + Text.IntToString(index) + "," + Text.IntToString(size) + ")"
    }
  }

  /** Equals on nodes is an equivalence, and equal nodes hash alike. */
  lemma NodeEqualsConsistent(a: LabeledNode, b: LabeledNode, c: LabeledNode)
    ensures a.Equals(a)
    ensures a.Equals(b) ==> b.Equals(a) && a.HashCode() == b.HashCode()
    ensures a.Equals(b) && b.Equals(c) ==> a.Equals(c)
  {
  }

  /** Two nodes with the same text have the same index and size. */
  lemma NodeTextInjective(a: LabeledNode, b: LabeledNode)
    requires a.ToString() == b.ToString()
    ensures a.index == b.index && a.size == b.size
  {
    var ra, rb := Text.IntToString(a.size) + [')'] + [], Text.IntToString(b.size) + [')'] + [];
    NodeTextShape(a);
    NodeTextShape(b);
    DropHead('(', Text.IntToString(a.index) + [','] + ra, Text.IntToString(b.index) + [','] + rb);
    Text.IntTextSplit(a.index, b.index, ',', ra, rb);
    Text.IntTextSplit(a.size, b.size, ')', [], []);
  }

  /** The text of a node, bracketed as the injectivity proof splits it. */
  lemma NodeTextShape(n: LabeledNode)
    ensures n.ToString() == ['('] + (Text.IntToString(n.index) + [','] + (Text.IntToString(n.size) + [')'] + []))
  {
  }

  /** Nodes with different indices, or different labels, are not equal. */
  lemma NodeEqualsDiscriminates(a: LabeledNode, b: LabeledNode)
    ensures a.index != b.index ==> !a.Equals(b)
    ensures a.size != b.size ==> !a.Equals(b)
  {
  }
}
