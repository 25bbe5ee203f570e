/**
 * The pairwise cost matrix of a set of bucket rankings (BioConsert's
 * `costMatrix`): for each pair of elements, what it costs to place the
 * first before, after, or tied with the second, counted over the rankings
 * that disagree with that placement.
 */
module RankCosts {
  import LandmarkAssignment

  /** The costs of putting element i before, after, or tied with element j. */
  datatype Costs = Costs(before: int, after: int, tied: int)

  /** Where one element stands relative to another. */
  datatype Relation = Before | After | Tied

  /** A square matrix of costs, one row per element. */
  type Matrix = seq<seq<Costs>>

  const Zero: Costs := Costs(0, 0, 0)

  /** The relation of an element in bucket a to one in bucket b (lower buckets come first). */
  function Order(a: int, b: int): (r: Relation)
    ensures r == Before <==> a < b
    ensures r == After <==> a > b
  {
    if a < b then Before else if a > b then After else Tied
  }

  /** The relation seen from the other element. */
  function Flip(rel: Relation): Relation
  {
    match rel
    case Before => After
    case After => Before
    case Tied => Tied
  }

  /** The cost of one relation. */
  function Cost(c: Costs, rel: Relation): int
  {
    match rel
    case Before => c.before
    case After => c.after
    case Tied => c.tied
  }

  /** The costs seen from the other element: before and after trade places. */
  function Swap(c: Costs): Costs
  {
    Costs(c.after, c.before, c.tied)
  }

  lemma SwapCost(c: Costs, rel: Relation)
    ensures Cost(Swap(c), Flip(rel)) == Cost(c, rel)
  {
  }

  /** Swapping the operands of Order flips the relation. */
  lemma OrderFlip(a: int, b: int)
    ensures Order(b, a) == Flip(Order(a, b))
  {
  }

  /** An n by n matrix. */
  ghost predicate Square(M: Matrix, n: int)
  {
    |M| == n && forall i | 0 <= i < n :: |M[i]| == n
  }

  /** The costs of (j, i) are those of (i, j) seen from j, and an element costs nothing against itself. */
  ghost predicate Consistent(M: Matrix)
  {
    Square(M, |M|) &&
    (forall i, j | 0 <= i < |M| && 0 <= j < |M| :: M[j][i] == Swap(M[i][j])) &&
    (forall i | 0 <= i < |M| :: M[i][i] == Zero)
  }

  /** Every ranking has n entries. */
  ghost predicate Rectangular(dep: seq<seq<int>>, n: int)
  {
    forall k | 0 <= k < |dep| :: |dep[k]| == n
  }

  /** The weighted votes of the rankings on a pair: e1 earlier than e2, tied with it, later than it. */
  datatype Votes = Votes(earlier: int, level: int, later: int)

  /** One weighted vote added to an int accumulator: the sum is truncated back to int, as Java's `+=`. */
  function AddWeight(acc: int, w: real): int
  {
    LandmarkAssignment.Truncate(acc as real + w)
  }

  /** The votes of the first m rankings on the pair (e1, e2). */
  function Tally(dep: seq<seq<int>>, rel: seq<real>, e1: int, e2: int, m: nat): Votes
    requires m <= |dep| && m <= |rel|
    requires 0 <= e1 && 0 <= e2 && forall k | 0 <= k < m :: e1 < |dep[k]| && e2 < |dep[k]|
  {
    if m == 0 then Votes(0, 0, 0)
    else
      var v := Tally(dep, rel, e1, e2, m - 1);
      var a, b, w := dep[m - 1][e1], dep[m - 1][e2], rel[m - 1];
      Votes(if a < b then AddWeight(v.earlier, w) else v.earlier,
            if a == b then AddWeight(v.level, w) else v.level,
            if a > b then AddWeight(v.later, w) else v.later)
  }

  /** The costs of a pair from its votes: each placement costs the votes against it. */
  function PairCosts(v: Votes): Costs
  {
    Costs(v.later + v.level, v.earlier + v.level, v.earlier + v.later)
  }

  /** The entry (i, j) of the cost matrix: computed for i < j, mirrored for i > j, zero on the diagonal. */
  function Entry(dep: seq<seq<int>>, rel: seq<real>, n: int, i: int, j: int): Costs
    requires Rectangular(dep, n) && |dep| <= |rel| && 0 <= i < n && 0 <= j < n
  {
    if i < j then PairCosts(Tally(dep, rel, i, j, |dep|))
    else if i > j then Swap(PairCosts(Tally(dep, rel, j, i, |dep|)))
    else Zero
  }

  /** The whole cost matrix of the rankings. */
  function MatrixOf(dep: seq<seq<int>>, rel: seq<real>, n: nat): (M: Matrix)
    requires Rectangular(dep, n) && |dep| <= |rel|
    ensures Square(M, n)
  {
    seq(n, i requires 0 <= i < n => seq(n, j requires 0 <= j < n => Entry(dep, rel, n, i, j)))
  }

  /** The votes on (e2, e1) are those on (e1, e2) with earlier and later exchanged. */
  lemma {:induction false} TallySwap(dep: seq<seq<int>>, rel: seq<real>, e1: int, e2: int, m: nat)
    requires m <= |dep| && m <= |rel|
    requires 0 <= e1 && 0 <= e2 && forall k | 0 <= k < m :: e1 < |dep[k]| && e2 < |dep[k]|
    ensures var t := Tally(dep, rel, e1, e2, m);
      Tally(dep, rel, e2, e1, m) == Votes(t.later, t.level, t.earlier)
  {
    if m > 0 {
      TallySwap(dep, rel, e1, e2, m - 1);
    }
  }

  /** The cost matrix is transpose-consistent and zero on its diagonal. */
  lemma MatrixConsistent(dep: seq<seq<int>>, rel: seq<real>, n: nat)
    requires Rectangular(dep, n) && |dep| <= |rel|
    ensures Consistent(MatrixOf(dep, rel, n))
  {
    var M := MatrixOf(dep, rel, n);
    forall i, j | 0 <= i < n && 0 <= j < n
      ensures M[j][i] == Swap(M[i][j])
    {
      if i < j {
        TallySwap(dep, rel, i, j, |dep|);
      } else if i > j {
        TallySwap(dep, rel, j, i, |dep|);
      }
    }
  }

  /** Every weight is a whole number. */
  ghost predicate Integral(rel: seq<real>)
  {
    forall k | 0 <= k < |rel| :: rel[k] == rel[k].Floor as real
  }

  /** The total weight of the first m rankings that place e1 in relation o to e2. */
  function Weight(dep: seq<seq<int>>, rel: seq<real>, e1: int, e2: int, o: Relation, m: nat): int
    requires m <= |dep| && m <= |rel|
    requires 0 <= e1 && 0 <= e2 && forall k | 0 <= k < m :: e1 < |dep[k]| && e2 < |dep[k]|
  {
    if m == 0 then 0
    else
      var w := if Order(dep[m - 1][e1], dep[m - 1][e2]) == o then rel[m - 1].Floor else 0;
      Weight(dep, rel, e1, e2, o, m - 1) + w
  }

  /** The total weight of the first m rankings. */
  function TotalWeight(rel: seq<real>, m: nat): int
    requires m <= |rel|
  {
    if m == 0 then 0 else TotalWeight(rel, m - 1) + rel[m - 1].Floor
  }

  /** With whole weights no truncation happens: each vote is the weight of the rankings voting for it. */
  lemma {:induction false} TallyIntegral(dep: seq<seq<int>>, rel: seq<real>, e1: int, e2: int, m: nat)
    requires m <= |dep| && m <= |rel| && Integral(rel)
    requires 0 <= e1 && 0 <= e2 && forall k | 0 <= k < m :: e1 < |dep[k]| && e2 < |dep[k]|
    ensures Tally(dep, rel, e1, e2, m) ==
      Votes(Weight(dep, rel, e1, e2, Before, m), Weight(dep, rel, e1, e2, Tied, m), Weight(dep, rel, e1, e2, After, m))
    ensures Weight(dep, rel, e1, e2, Before, m) + Weight(dep, rel, e1, e2, Tied, m) + Weight(dep, rel, e1, e2, After, m)
      == TotalWeight(rel, m)
  {
    if m > 0 {
      TallyIntegral(dep, rel, e1, e2, m - 1);
      var w := rel[m - 1];
      assert w == w.Floor as real;
      var t := Tally(dep, rel, e1, e2, m - 1);
      assert AddWeight(t.earlier, w) == t.earlier + w.Floor;
      assert AddWeight(t.level, w) == t.level + w.Floor;
      assert AddWeight(t.later, w) == t.later + w.Floor;
    }
  }

  /** Exchanging the pair turns the weight of one relation into that of the flipped one. */
  lemma {:induction false} WeightFlip(dep: seq<seq<int>>, rel: seq<real>, e1: int, e2: int, o: Relation, m: nat)
    requires m <= |dep| && m <= |rel|
    requires 0 <= e1 && 0 <= e2 && forall k | 0 <= k < m :: e1 < |dep[k]| && e2 < |dep[k]|
    ensures Weight(dep, rel, e2, e1, Flip(o), m) == Weight(dep, rel, e1, e2, o, m)
  {
    if m > 0 {
      WeightFlip(dep, rel, e1, e2, o, m - 1);
    }
  }

  /**
   * With whole weights, each placement of i against j costs the weight of
   * the rankings that place them otherwise, and the three costs of a pair
   * add up to twice the total weight.
   */
  lemma EntryCountsDisagreements(dep: seq<seq<int>>, rel: seq<real>, n: nat, i: int, j: int)
    requires Rectangular(dep, n) && |dep| <= |rel| && Integral(rel) && 0 <= i < n && 0 <= j < n && i != j
    ensures var c := Entry(dep, rel, n, i, j);
      c.before == Weight(dep, rel, i, j, After, |dep|) + Weight(dep, rel, i, j, Tied, |dep|) &&
      c.after == Weight(dep, rel, i, j, Before, |dep|) + Weight(dep, rel, i, j, Tied, |dep|) &&
      c.tied == Weight(dep, rel, i, j, Before, |dep|) + Weight(dep, rel, i, j, After, |dep|)
    ensures var c := Entry(dep, rel, n, i, j);
      c.before + c.after + c.tied == 2 * TotalWeight(rel, |dep|)
  {
    var m := |dep|;
    if i < j {
      TallyIntegral(dep, rel, i, j, m);
    } else {
      TallyIntegral(dep, rel, j, i, m);
      WeightFlip(dep, rel, j, i, Before, m);
      WeightFlip(dep, rel, j, i, After, m);
      WeightFlip(dep, rel, j, i, Tied, m);
    }
  }

  /** The votes on one pair, accumulated over the rankings as in the source's innermost loop. */
  method TallyPair(dep: seq<seq<int>>, rel: seq<real>, e1: int, e2: int) returns (v: Votes)
    requires |dep| <= |rel|
    requires 0 <= e1 && 0 <= e2 && forall k | 0 <= k < |dep| :: e1 < |dep[k]| && e2 < |dep[k]|
    ensures v == Tally(dep, rel, e1, e2, |dep|)
  {
    var f, b, e := 0, 0, 0;
    var i := 0;
    while i < |dep|
      invariant 0 <= i <= |dep|
      invariant Votes(e, b, f) == Tally(dep, rel, e1, e2, i)
    {
      if dep[i][e1] == dep[i][e2] {
        b := AddWeight(b, rel[i]);
      }
      if dep[i][e1] < dep[i][e2] {
        e := AddWeight(e, rel[i]);
      }
      if dep[i][e1] > dep[i][e2] {
        f := AddWeight(f, rel[i]);
      }
      i := i + 1;
    }
    v := Votes(e, b, f);
  }

  /** The pairs (i, j) whose entries the nested loops have written when they stand at (e1, e2). */
  predicate Written(i: int, j: int, e1: int, e2: int)
  {
    var lo := if i < j then i else j;
    var hi := if i < j then j else i;
    lo < e1 || (lo == e1 && hi < e2)
  }

  /** The matrix holds the entries of the written pairs and zeros elsewhere. */
  ghost predicate FilledTo(M: Matrix, dep: seq<seq<int>>, rel: seq<real>, n: nat, e1: int, e2: int)
    requires Rectangular(dep, n) && |dep| <= |rel|
  {
    Square(M, n) &&
    forall i, j | 0 <= i < n && 0 <= j < n :: M[i][j] == if Written(i, j, e1, e2) then Entry(dep, rel, n, i, j) else Zero
  }

  /** Writes the entries (e1, e2) and (e2, e1) for every e2 after e1. */
  method FillRow(dep: seq<seq<int>>, rel: seq<real>, n: nat, M0: Matrix, e1: nat) returns (M: Matrix)
    requires Rectangular(dep, n) && |dep| <= |rel| && e1 < n
    requires FilledTo(M0, dep, rel, n, e1, e1 + 1)
    ensures FilledTo(M, dep, rel, n, e1 + 1, e1 + 2)
  {
    M := M0;
    var e2 := e1 + 1;
    while e2 < n
      invariant e1 + 1 <= e2 <= n
      invariant FilledTo(M, dep, rel, n, e1, e2)
    {
      M, e2 := FillPair(dep, rel, n, M, e1, e2);
    }
    RowFilled(M, dep, rel, n, e1);
  }

  /** Writes the entries (e1, e2) and (e2, e1), after which pair (e1, e2 + 1) comes. */
  method FillPair(dep: seq<seq<int>>, rel: seq<real>, n: nat, M0: Matrix, e1: nat, e2: nat) returns (M: Matrix, e2': nat)
    requires Rectangular(dep, n) && |dep| <= |rel| && e1 < e2 < n
    requires FilledTo(M0, dep, rel, n, e1, e2)
    ensures e2' == e2 + 1 && FilledTo(M, dep, rel, n, e1, e2')
  {
    var v := TallyPair(dep, rel, e1, e2);
    var c := PairCosts(v);
    M := M0[e1 := M0[e1][e2 := c]];
    M := M[e2 := M[e2][e1 := Swap(c)]];
    e2' := e2 + 1;
    forall i, j | 0 <= i < n && 0 <= j < n
      ensures M[i][j] == if Written(i, j, e1, e2') then Entry(dep, rel, n, i, j) else Zero
    {
      if (i, j) != (e1, e2) && (i, j) != (e2, e1) {
        assert M[i][j] == M0[i][j];
      }
    }
  }

  /** Once a row is written to its end, the next row starts. */
  lemma RowFilled(M: Matrix, dep: seq<seq<int>>, rel: seq<real>, n: nat, e1: nat)
    requires Rectangular(dep, n) && |dep| <= |rel| && e1 < n
    requires FilledTo(M, dep, rel, n, e1, n)
    ensures FilledTo(M, dep, rel, n, e1 + 1, e1 + 2)
  {
    forall i, j | 0 <= i < n && 0 <= j < n
      ensures M[i][j] == if Written(i, j, e1 + 1, e1 + 2) then Entry(dep, rel, n, i, j) else Zero
    {
      assert Written(i, j, e1 + 1, e1 + 2) <==> Written(i, j, e1, n) || i == j == e1 + 1;
    }
  }

  /**
   * The cost matrix of the rankings in `departures` (one row per ranking,
   * one column per element), with the weight of each ranking in
   * `relevance`; the source reads the number of elements from the first
   * ranking.
   */
  method CostMatrix(departures: seq<seq<int>>, relevance: seq<real>) returns (M: Matrix)
    requires |departures| > 0 && Rectangular(departures, |departures[0]|) && |departures| <= |relevance|
    ensures M == MatrixOf(departures, relevance, |departures[0]|)
    ensures Consistent(M)
  {
    var n := |departures[0]|;
    M := seq(n, _ => seq(n, _ => Zero));
    var e1 := 0;
    while e1 < n
      invariant 0 <= e1 <= n
      invariant FilledTo(M, departures, relevance, n, e1, e1 + 1)
    {
      M := FillRow(departures, relevance, n, M, e1);
      e1 := e1 + 1;
    }
    var R := MatrixOf(departures, relevance, n);
    forall i | 0 <= i < n
      ensures M[i] == R[i]
    {
      assert forall j | 0 <= j < n :: M[i][j] == R[i][j];
    }
    MatrixConsistent(departures, relevance, n);
  }
}
