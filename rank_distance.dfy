/**
 * The generalised Kendall-tau distance of a bucket ranking to a set of
 * rankings, given their cost matrix: the sum, over all pairs of elements,
 * of the cost of the relation the ranking puts them in. Here it is summed
 * over ordered pairs, which counts each unordered pair twice (`Dist2`).
 * Also: how the distance changes when one element is moved, and how the
 * source computes it at the start of BioConsert's `bioConsert`.
 */
module RankDistance {
  import opened RankCosts

  /** The cost of the relation of i to j in ranking r. */
  function PairCost(M: Matrix, r: seq<int>, i: int, j: int): int
    requires Square(M, |r|) && 0 <= i < |r| && 0 <= j < |r|
  {
    Cost(M[i][j], Order(r[i], r[j]))
  }

  /** The costs of i against the first J elements. */
  function RowCost(M: Matrix, r: seq<int>, i: int, J: nat): int
    requires Square(M, |r|) && 0 <= i < |r| && J <= |r|
  {
    if J == 0 then 0 else RowCost(M, r, i, J - 1) + PairCost(M, r, i, J - 1)
  }

  /** The costs of the first I elements against all elements. */
  function DistUpTo(M: Matrix, r: seq<int>, I: nat): int
    requires Square(M, |r|) && I <= |r|
  {
    if I == 0 then 0 else DistUpTo(M, r, I - 1) + RowCost(M, r, I - 1, |r|)
  }

  /** Twice the distance of r: the cost of every ordered pair. */
  function Dist2(M: Matrix, r: seq<int>): int
    requires Square(M, |r|)
  {
    DistUpTo(M, r, |r|)
  }

  /** The move of one element: to an existing bucket, or into a new bucket inserted before bucket `at`. */
  datatype Move = Change(to: int) | Insert(at: int)

  /** The relation of the moved element to an element in bucket t, after the move. */
  function Place(mv: Move, t: int): Relation
  {
    match mv
    case Change(b) => Order(b, t)
    case Insert(b) => if t >= b then Before else After
  }

  /** How much the cost of el against j changes with the move. */
  function Term(M: Matrix, r: seq<int>, el: int, mv: Move, j: int): int
    requires Square(M, |r|) && 0 <= el < |r| && 0 <= j < |r|
  {
    Cost(M[el][j], Place(mv, r[j])) - Cost(M[el][j], Order(r[el], r[j]))
  }

  /** How much the costs of el against the first J elements change with the move. */
  function Shift(M: Matrix, r: seq<int>, el: int, mv: Move, J: nat): int
    requires Square(M, |r|) && 0 <= el < |r| && J <= |r|
  {
    if J == 0 then 0 else Shift(M, r, el, mv, J - 1) + Term(M, r, el, mv, J - 1)
  }

  /** r2 is r with el moved by mv: every other pair keeps its relation. */
  ghost predicate MovedBy(r: seq<int>, r2: seq<int>, el: int, mv: Move)
  {
    |r2| == |r| && 0 <= el < |r| &&
    (forall i, j | 0 <= i < |r| && 0 <= j < |r| && i != el && j != el :: Order(r2[i], r2[j]) == Order(r[i], r[j])) &&
    (forall j | 0 <= j < |r| && j != el :: Order(r2[el], r2[j]) == Place(mv, r[j]))
  }

  /** A row other than el's changes only in its entry against el, by el's term. */
  lemma {:induction false} RowOther(M: Matrix, r: seq<int>, r2: seq<int>, el: int, mv: Move, i: int, J: nat)
    requires Consistent(M) && |M| == |r| && MovedBy(r, r2, el, mv)
    requires 0 <= i < |r| && i != el && J <= |r|
    ensures RowCost(M, r2, i, J) == RowCost(M, r, i, J) + (if el < J then Term(M, r, el, mv, i) else 0)
  {
    if J > 0 {
      RowOther(M, r, r2, el, mv, i, J - 1);
      var j := J - 1;
      if j == el {
        OrderFlip(r2[el], r2[i]);
        OrderFlip(r[el], r[i]);
        SwapCost(M[el][i], Place(mv, r[i]));
        SwapCost(M[el][i], Order(r[el], r[i]));
      }
    }
  }

  /** el's own row changes by the shift of the move. */
  lemma {:induction false} RowMoved(M: Matrix, r: seq<int>, r2: seq<int>, el: int, mv: Move, J: nat)
    requires Consistent(M) && |M| == |r| && MovedBy(r, r2, el, mv) && J <= |r|
    ensures RowCost(M, r2, el, J) == RowCost(M, r, el, J) + Shift(M, r, el, mv, J)
  {
    if J > 0 {
      RowMoved(M, r, r2, el, mv, J - 1);
    }
  }

  lemma {:induction false} DistUpToMoved(M: Matrix, r: seq<int>, r2: seq<int>, el: int, mv: Move, I: nat)
    requires Consistent(M) && |M| == |r| && MovedBy(r, r2, el, mv) && I <= |r|
    ensures DistUpTo(M, r2, I) == DistUpTo(M, r, I) + Shift(M, r, el, mv, I) + (if el < I then Shift(M, r, el, mv, |r|) else 0)
  {
    if I > 0 {
      DistUpToMoved(M, r, r2, el, mv, I - 1);
      var i := I - 1;
      if i == el {
        RowMoved(M, r, r2, el, mv, |r|);
        assert Term(M, r, el, mv, el) == 0;
      } else {
        RowOther(M, r, r2, el, mv, i, |r|);
      }
    }
  }

  /**
   * Moving one element changes the distance (counted over ordered pairs)
   * by twice the change of its own costs: every other pair keeps its cost.
   */
  lemma DistChange(M: Matrix, r: seq<int>, r2: seq<int>, el: int, mv: Move)
    requires Consistent(M) && |M| == |r| && MovedBy(r, r2, el, mv)
    ensures Dist2(M, r2) == Dist2(M, r) + 2 * Shift(M, r, el, mv, |r|)
  {
    DistUpToMoved(M, r, r2, el, mv, |r|);
  }

  /** The cost of i against j when they stand in relation rel, and 0 otherwise. */
  function Part(M: Matrix, r: seq<int>, rel: Relation, i: int, j: int): int
    requires Square(M, |r|) && 0 <= i < |r| && 0 <= j < |r|
  {
    if Order(r[i], r[j]) == rel then Cost(M[i][j], rel) else 0
  }

  function PartRow(M: Matrix, r: seq<int>, rel: Relation, i: int, J: nat): int
    requires Square(M, |r|) && 0 <= i < |r| && J <= |r|
  {
    if J == 0 then 0 else PartRow(M, r, rel, i, J - 1) + Part(M, r, rel, i, J - 1)
  }

  function PartCol(M: Matrix, r: seq<int>, rel: Relation, j: int, I: nat): int
    requires Square(M, |r|) && 0 <= j < |r| && I <= |r|
  {
    if I == 0 then 0 else PartCol(M, r, rel, j, I - 1) + Part(M, r, rel, I - 1, j)
  }

  function PartRows(M: Matrix, r: seq<int>, rel: Relation, I: nat, J: nat): int
    requires Square(M, |r|) && I <= |r| && J <= |r|
  {
    if I == 0 then 0 else PartRows(M, r, rel, I - 1, J) + PartRow(M, r, rel, I - 1, J)
  }

  lemma {:induction false} PartRowsStep(M: Matrix, r: seq<int>, rel: Relation, I: nat, J: nat)
    requires Square(M, |r|) && I <= |r| && J < |r|
    ensures PartRows(M, r, rel, I, J + 1) == PartRows(M, r, rel, I, J) + PartCol(M, r, rel, J, I)
  {
    if I > 0 {
      PartRowsStep(M, r, rel, I - 1, J);
    }
  }

  /** A row of "before" costs is the matching column of "after" costs. */
  lemma {:induction false} RowIsCol(M: Matrix, r: seq<int>, k: int, J: nat)
    requires Consistent(M) && |M| == |r| && 0 <= k < |r| && J <= |r|
    ensures PartRow(M, r, Before, k, J) == PartCol(M, r, After, k, J)
    ensures PartCol(M, r, Before, k, J) == PartRow(M, r, After, k, J)
  {
    if J > 0 {
      RowIsCol(M, r, k, J - 1);
    }
  }

  /** Over all ordered pairs, the "before" costs paid equal the "after" costs paid. */
  lemma {:induction false} BeforeIsAfter(M: Matrix, r: seq<int>, K: nat)
    requires Consistent(M) && |M| == |r| && K <= |r|
    ensures PartRows(M, r, Before, K, K) == PartRows(M, r, After, K, K)
  {
    if K > 0 {
      var k := K - 1;
      BeforeIsAfter(M, r, k);
      PartRowsStep(M, r, Before, k, k);
      PartRowsStep(M, r, After, k, k);
      RowIsCol(M, r, k, k);
      RowIsCol(M, r, k, K);
    }
  }

  lemma {:induction false} RowSplit(M: Matrix, r: seq<int>, i: int, J: nat)
    requires Square(M, |r|) && 0 <= i < |r| && J <= |r|
    ensures RowCost(M, r, i, J) == PartRow(M, r, Before, i, J) + PartRow(M, r, After, i, J) + PartRow(M, r, Tied, i, J)
  {
    if J > 0 {
      RowSplit(M, r, i, J - 1);
    }
  }

  lemma {:induction false} DistSplit(M: Matrix, r: seq<int>, I: nat)
    requires Square(M, |r|) && I <= |r|
    ensures DistUpTo(M, r, I) == PartRows(M, r, Before, I, |r|) + PartRows(M, r, After, I, |r|) + PartRows(M, r, Tied, I, |r|)
  {
    if I > 0 {
      DistSplit(M, r, I - 1);
      RowSplit(M, r, I - 1, |r|);
    }
  }

  /**
   * The distance counts each unordered pair twice: twice the "after" costs
   * paid plus the "tied" costs paid, over all ordered pairs.
   */
  lemma DistByParts(M: Matrix, r: seq<int>)
    requires Consistent(M) && |M| == |r|
    ensures Dist2(M, r) == 2 * PartRows(M, r, After, |r|, |r|) + PartRows(M, r, Tied, |r|, |r|)
  {
    DistSplit(M, r, |r|);
    BeforeIsAfter(M, r, |r|);
  }

  /**
   * The distance of a ranking as bioConsert first computes it: the cost of
   * every ordered pair where the first element comes after the second, plus
   * half the cost of every ordered tied pair.
   */
  method InitialDistance(ranking: seq<int>, M: Matrix) returns (dst: real)
    requires Consistent(M) && |M| == |ranking|
    ensures dst == Dist2(M, ranking) as real / 2.0
  {
    var n := |ranking|;
    var sumBefore, sumTied := 0, 0;
    var el1 := 0;
    while el1 < n
      invariant 0 <= el1 <= n
      invariant sumBefore == PartRows(M, ranking, After, el1, n)
      invariant sumTied == PartRows(M, ranking, Tied, el1, n)
    {
      var el2 := 0;
      while el2 < n
        invariant 0 <= el2 <= n
        invariant sumBefore == PartRows(M, ranking, After, el1, n) + PartRow(M, ranking, After, el1, el2)
        invariant sumTied == PartRows(M, ranking, Tied, el1, n) + PartRow(M, ranking, Tied, el1, el2)
      {
        if ranking[el2] < ranking[el1] {
          sumBefore := sumBefore + M[el1][el2].after;
        } else if ranking[el2] == ranking[el1] {
          sumTied := sumTied + M[el1][el2].tied;
        }
        el2 := el2 + 1;
      }
      el1 := el1 + 1;
    }
    DistByParts(M, ranking);
    dst := sumBefore as real + sumTied as real / 2.0;
  }

  /** The cheapest relation of a pair. */
  function Least(c: Costs): int
  {
    if c.before <= c.after && c.before <= c.tied then c.before
    else if c.after <= c.tied then c.after
    else c.tied
  }

  function LeastRow(M: Matrix, i: int, J: nat): int
    requires 0 <= i < |M| && J <= |M[i]|
  {
    if J == 0 then 0 else LeastRow(M, i, J - 1) + Least(M[i][J - 1])
  }

  function LeastUpTo(M: Matrix, I: nat): int
    requires Square(M, |M|) && I <= |M|
  {
    if I == 0 then 0 else LeastUpTo(M, I - 1) + LeastRow(M, I - 1, |M|)
  }

  /** The distance of no ranking falls below the sum of the cheapest relation of every pair. */
  lemma {:induction false} DistAtLeast(M: Matrix, r: seq<int>, I: nat)
    requires Square(M, |r|) && I <= |r|
    ensures DistUpTo(M, r, I) >= LeastUpTo(M, I)
  {
    if I > 0 {
      DistAtLeast(M, r, I - 1);
      RowAtLeast(M, r, I - 1, |r|);
    }
  }

  lemma {:induction false} RowAtLeast(M: Matrix, r: seq<int>, i: int, J: nat)
    requires Square(M, |r|) && 0 <= i < |r| && J <= |r|
    ensures RowCost(M, r, i, J) >= LeastRow(M, i, J)
  {
    if J > 0 {
      RowAtLeast(M, r, i, J - 1);
    }
  }
}
