/**
 * How many landmarks, and how many sample hyperedges, each s-connected
 * component receives under a budget on the number of stored distance pairs.
 * Components are drawn at random, in the source with probabilities that
 * grow with their size, s and vertex count; here the draw is any component
 * that can still be drawn, so every property below holds whatever the
 * random stream.
 */
module LandmarkAssignment {
  import opened Wrappers

  /** How landmarks are chosen inside a component; any unrecognised configured name means Random. */
  datatype Strategy = Random | Degree | Farthest | BestCover | Between
  {
    /** Whether sample sizes are drawn: best cover and betweenness sample within each component instead. */
    predicate Samples()
    {
      this != BestCover && this != Between
    }
  }

  /** The largest element of a non-empty sequence (Guava's Ints.max). */
  function Largest(xs: seq<int>): (r: int)
    requires |xs| > 0
    ensures forall i :: 0 <= i < |xs| ==> xs[i] <= r
    ensures exists i :: 0 <= i < |xs| && xs[i] == r
  {
    if |xs| == 1 then xs[0]
    else
      var m := Largest(xs[1..]);
      assert exists i :: 1 <= i < |xs| && xs[i] == m by {
        var j :| 0 <= j < |xs[1..]| && xs[1..][j] == m;
        assert xs[j + 1] == m;
      }
      Max(xs[0], m)
  }

  /** The sum of the squares of the first n sizes. */
  function SquaresTo(xs: seq<nat>, n: nat): nat
    requires n <= |xs|
  {
    if n == 0 then 0 else SquaresTo(xs, n - 1) + xs[n - 1] * xs[n - 1]
  }

  /** The sum of the squared sizes: the number of pairs an oracle with every hyperedge as landmark would store. */
  function SumSq(xs: seq<nat>): nat
  {
    SquaresTo(xs, |xs|)
  }

  /** A prefix of the squares, and any one square in it, is no more than the whole. */
  lemma SquaresGrow(xs: seq<nat>, j: nat, n: nat)
    requires j < n <= |xs|
    ensures xs[j] * xs[j] <= SquaresTo(xs, n) <= SumSq(xs)
  {
    SquaresAbove(xs, j, n);
    SquaresPrefix(xs, n);
  }

  /** One square is no more than any prefix of the squares that holds it. */
  lemma {:induction false} SquaresAbove(xs: seq<nat>, j: nat, n: nat)
    requires j < n <= |xs|
    ensures xs[j] * xs[j] <= SquaresTo(xs, n)
    decreases n
  {
    if j < n - 1 {
      SquaresAbove(xs, j, n - 1);
    }
  }

  /** A prefix of the squares is no more than the whole. */
  lemma {:induction false} SquaresPrefix(xs: seq<nat>, n: nat)
    requires n <= |xs|
    ensures SquaresTo(xs, n) <= SumSq(xs)
    decreases |xs| - n
  {
    if n < |xs| {
      SquaresPrefix(xs, n + 1);
    }
  }

  /**
   * The size the oracle could reach, summed in arbitrary precision and cut
   * off once it exceeds the budget: it is within the budget exactly when the
   * sum of the squared sizes is.
   */
  method ReachableSize(sizes: seq<nat>, budget: int) returns (m: int)
    ensures m <= budget <==> SumSq(sizes) <= budget
  {
    m := 0;
    var k := 0;
    while k < |sizes|
      invariant 0 <= k <= |sizes|
      invariant m == SquaresTo(sizes, k)
    {
      var sx := sizes[k];
      if sx > budget {
        m := sx;
        SquaresGrow(sizes, k, k + 1);
        return;
      }
      m := m + sx * sx;
      if m > budget {
        SquaresPrefix(sizes, k + 1);
        return;
      }
      k := k + 1;
    }
  }

  /** The estimated number of stored pairs: each landmark of a component costs one pair per hyperedge of it. */
  function Cost(counts: seq<int>, sizes: seq<nat>): int
    requires |counts| == |sizes|
  {
    if counts == [] then 0 else counts[0] * sizes[0] + Cost(counts[1..], sizes[1..])
  }

  /** One more landmark in component i costs its size. */
  lemma {:induction false} CostBump(counts: seq<int>, sizes: seq<nat>, i: int)
    requires |counts| == |sizes| && 0 <= i < |counts|
    ensures Cost(counts[i := counts[i] + 1], sizes) == Cost(counts, sizes) + sizes[i]
  {
    var next := counts[i := counts[i] + 1];
    if i == 0 {
      assert next[1..] == counts[1..];
    } else {
      assert next[1..] == counts[1..][i - 1 := counts[i] + 1];
      CostBump(counts[1..], sizes[1..], i - 1);
    }
  }

  /** One more item in position i adds one to the total. */
  lemma {:induction false} SumBump(xs: seq<int>, i: int)
    requires 0 <= i < |xs|
    ensures Sum(xs[i := xs[i] + 1]) == Sum(xs) + 1
  {
    var next := xs[i := xs[i] + 1];
    if i == 0 {
      assert next[1..] == xs[1..];
    } else {
      assert next[1..] == xs[1..][i - 1 := xs[i] + 1];
      SumBump(xs[1..], i - 1);
    }
  }

  /** Entry by entry no larger means no larger in total. */
  lemma {:induction false} SumBelow(xs: seq<int>, ys: seq<int>)
    requires |xs| == |ys| && forall i :: 0 <= i < |xs| ==> xs[i] <= ys[i]
    ensures Sum(xs) <= Sum(ys)
  {
    if xs != [] {
      SumBelow(xs[1..], ys[1..]);
    }
  }

  /** Nothing drawn yet costs nothing and totals nothing. */
  lemma {:induction false} NoneDrawn(counts: seq<int>, sizes: seq<nat>)
    requires |counts| == |sizes| && forall i :: 0 <= i < |counts| ==> counts[i] == 0
    ensures Cost(counts, sizes) == 0 && Sum(counts) == 0 && Sum(counts) <= Sum(sizes)
  {
    if counts != [] {
      NoneDrawn(counts[1..], sizes[1..]);
    }
    SumBelow(counts, sizes);
  }

  /** counts gives nothing outside sel, and never more than a component's size. */
  ghost predicate Bounded(counts: seq<int>, sizes: seq<nat>, sel: set<int>)
  {
    |counts| == |sizes| &&
    forall i :: 0 <= i < |sizes| ==> 0 <= counts[i] <= sizes[i] && (i !in sel ==> counts[i] == 0)
  }

  /** Every component of sel has received its whole size. */
  ghost predicate Saturated(counts: seq<int>, sizes: seq<nat>, sel: set<int>)
    requires |counts| == |sizes|
  {
    forall i | i in sel && 0 <= i < |sizes| :: counts[i] == sizes[i]
  }

  /**
   * A landmark draw under the budget: bounded, and stopped either once the
   * estimated size reached the budget, overshooting by less than one
   * component, or once every drawable component was full.
   */
  ghost predicate Drawn(counts: seq<int>, sizes: seq<nat>, sel: set<int>, budget: int)
  {
    Bounded(counts, sizes, sel) &&
    (Cost(counts, sizes) >= budget || Saturated(counts, sizes, sel)) &&
    (|sizes| > 0 ==> Cost(counts, sizes) <= Max(0, budget - 1 + Largest(sizes)))
  }

  /** The state of a landmark draw: est is the cost so far, and the components of sel outside zeros are full. */
  ghost predicate Drawing(counts: seq<int>, sizes: seq<nat>, sel: set<int>, zeros: set<int>, est: int, budget: int)
  {
    Bounded(counts, sizes, sel) &&
    (forall i | i in sel - zeros && 0 <= i < |counts| :: counts[i] == sizes[i]) &&
    est == Cost(counts, sizes) && Sum(counts) <= Sum(sizes) &&
    (|sizes| > 0 ==> est <= Max(0, budget - 1 + Largest(sizes)))
  }

  /** One more landmark for a component below its size, while under the budget, keeps the draw in shape. */
  lemma DrawStep(counts: seq<int>, sizes: seq<nat>, sel: set<int>, zeros: set<int>, est: int, budget: int, i: int)
    requires Drawing(counts, sizes, sel, zeros, est, budget) && est < budget
    requires i in zeros && zeros <= sel && 0 <= i < |counts| && counts[i] < sizes[i]
    ensures Drawing(counts[i := counts[i] + 1], sizes, sel, zeros, est + sizes[i], budget)
    ensures Sum(counts[i := counts[i] + 1]) == Sum(counts) + 1
  {
    CostBump(counts, sizes, i);
    SumBump(counts, i);
    SumBelow(counts[i := counts[i] + 1], sizes);
  }

  /** Draws one landmark at a time for a component of sel until the budget is reached or every component is full. */
  method DrawLandmarks(sizes: seq<nat>, sel: set<int>, budget: int) returns (counts: seq<nat>)
    requires forall i | i in sel :: 0 <= i < |sizes|
    ensures Drawn(counts, sizes, sel, budget)
  {
    var numItems := new nat[|sizes|](_ => 0);
    var est := 0;
    var zeros := sel;
    NoneDrawn(numItems[..], sizes);
    while est < budget && zeros != {}
      invariant numItems.Length == |sizes| && zeros <= sel
      invariant Drawing(numItems[..], sizes, sel, zeros, est, budget)
      decreases Sum(sizes) - Sum(numItems[..]), |zeros|
    {
      var i := Pick(zeros);
      if numItems[i] == sizes[i] {
        zeros := zeros - {i};
      } else {
        ghost var before := numItems[..];
        DrawStep(before, sizes, sel, zeros, est, budget, i);
        numItems[i] := numItems[i] + 1;
        assert numItems[..] == before[i := before[i] + 1];
        est := est + sizes[i];
      }
    }
    counts := numItems[..];
  }

  /** Whether component i can be drawn: the source's floating-point weight of it is a number above zero. */
  ghost predicate Positive(alpha: real, beta: real, sizes: seq<nat>, ss: seq<int>, vs: seq<nat>, i: int)
    requires 0 <= i < |sizes| && i < |ss| && i < |vs|
  {
    Sum(sizes) > 0 && Sum(vs) > 0 &&
    Weight(alpha, beta, sizes[i], ss[i], vs[i], Sum(sizes), Max(Sum(ss), 1), Sum(vs)) > 0.0
  }

  /**
   * The weight of a component of the given size, s and vertex count, as
   * shares of the sums sumSizes, sumS and sumV (each above zero).
   */
  function Weight(alpha: real, beta: real, size: nat, s: int, v: nat, sumSizes: int, sumS: int, sumV: int): real
    requires sumSizes > 0 && sumS > 0 && sumV > 0
  {
    alpha * size as real / sumSizes as real
      + beta * s as real / sumS as real
      + (1.0 - alpha - beta) * v as real / sumV as real
  }

  /** The components that can be drawn. */
  ghost function Selectable(alpha: real, beta: real, sizes: seq<nat>, ss: seq<int>, vs: seq<nat>): set<int>
  {
    set i | 0 <= i < |sizes| && i < |ss| && i < |vs| && Positive(alpha, beta, sizes, ss, vs, i)
  }

  /** The components whose weight is above zero, found one index at a time. */
  method PositiveWeights(alpha: real, beta: real, sizes: seq<nat>, ss: seq<int>, vs: seq<nat>) returns (sel: set<int>)
    requires |ss| >= |sizes| && |vs| >= |sizes|
    ensures sel == Selectable(alpha, beta, sizes, ss, vs)
    ensures forall i | i in sel :: 0 <= i < |sizes|
  {
    var sumSizes := Sum(sizes);
    var sumS := Max(Sum(ss), 1);
    var sumV := Sum(vs);
    sel := {};
    var i := 0;
    while i < |sizes|
      invariant 0 <= i <= |sizes|
      invariant sel == set j | 0 <= j < i && Positive(alpha, beta, sizes, ss, vs, j)
    {
      ghost var next := set j | 0 <= j < i + 1 && Positive(alpha, beta, sizes, ss, vs, j);
      assert next == sel + (if Positive(alpha, beta, sizes, ss, vs, i) then {i} else {});
      if sumSizes > 0 && sumV > 0 {
        var p := Weight(alpha, beta, sizes[i], ss[i], vs[i], sumSizes, sumS, sumV);
        if p > 0.0 {
          sel := sel + {i};
        }
      }
      i := i + 1;
    }
  }

  /** The landmark counts of the three outcomes, by the largest size and the sum of squared sizes. */
  ghost predicate LandmarkCounts(r: seq<nat>, sizes: seq<nat>, ss: seq<int>, vs: seq<nat>, budget: int, alpha: real, beta: real)
    requires |sizes| > 0
  {
    |r| == |sizes| && (forall i :: 0 <= i < |sizes| ==> r[i] <= sizes[i]) &&
    (Largest(sizes) <= 2 ==> forall i :: 0 <= i < |sizes| ==> r[i] == 0) &&
    (Largest(sizes) > 2 && SumSq(sizes) <= budget ==> r == sizes) &&
    (Largest(sizes) > 2 && SumSq(sizes) > budget ==> Drawn(r, sizes, Selectable(alpha, beta, sizes, ss, vs), budget))
  }

  /**
   * The number of landmarks for each component. Fails when alpha + beta
   * exceeds 1, when there are no components (no largest size), and when the
   * weights read past the end of ss or vs.
   */
  method SelectNumLandmarks(sizes: seq<nat>, ss: seq<int>, vs: seq<nat>, budget: int, alpha: real, beta: real)
    returns (r: Option<seq<nat>>)
    ensures r.None? <==> (alpha + beta > 1.0 || |sizes| == 0 ||
      (Largest(sizes) > 2 && SumSq(sizes) > budget && (|ss| < |sizes| || |vs| < |sizes|)))
    ensures r.Some? ==> LandmarkCounts(r.value, sizes, ss, vs, budget, alpha, beta)
  {
    if alpha + beta > 1.0 || |sizes| == 0 {
      return None;
    }
    var numItems := seq(|sizes|, _ => 0);
    var maxSize := Largest(sizes);
    if maxSize <= 2 {
      return Some(numItems);
    }
    var reach := ReachableSize(sizes, budget);
    if reach <= budget {
      return Some(sizes);
    }
    if |ss| < |sizes| || |vs| < |sizes| {
      return None;
    }
    var sel := PositiveWeights(alpha, beta, sizes, ss, vs);
    var counts := DrawLandmarks(sizes, sel, budget);
    return Some(counts);
  }

  /** Raises each positive count to at least 2: a sample needs a pair of hyperedges. */
  function AtLeastPair(c: nat): nat
  {
    if c > 0 then Max(c, 2) else c
  }

  /** The counts with every positive one raised to at least 2. */
  function AtLeastPairs(counts: seq<nat>): (r: seq<nat>)
    ensures |r| == |counts|
  {
    seq(|counts|, i requires 0 <= i < |counts| => AtLeastPair(counts[i]))
  }

  /** Raising keeps zeros, never lowers a count, changes only counts of 1, and leaves no count of 1. */
  lemma AtLeastPairsSpec(counts: seq<nat>, i: int)
    requires 0 <= i < |counts|
    ensures AtLeastPairs(counts)[i] == 0 <==> counts[i] == 0
    ensures AtLeastPairs(counts)[i] >= counts[i] && AtLeastPairs(counts)[i] != 1
    ensures AtLeastPairs(counts)[i] != counts[i] ==> counts[i] == 1 && AtLeastPairs(counts)[i] == 2
  {
  }

  /** The components with landmarks. */
  function WithLandmarks(landmarks: seq<int>, n: nat): (r: set<int>)
    requires n <= |landmarks|
    ensures forall i :: i in r <==> 0 <= i < n && landmarks[i] > 0
  {
    set i | 0 <= i < n && landmarks[i] > 0
  }

  /**
   * A sample draw: drawn gives at most a component's size, only to
   * components with landmarks; either every one of them was full before
   * totalItems were drawn, and the counts are returned as drawn, or
   * totalItems were drawn and every positive count is raised to 2.
   */
  ghost predicate Sampled(r: seq<nat>, drawn: seq<nat>, sizes: seq<nat>, sel: set<int>, totalItems: int)
  {
    Bounded(drawn, sizes, sel) &&
    ((Sum(drawn) < totalItems && Saturated(drawn, sizes, sel) && r == drawn) ||
     (Sum(drawn) >= totalItems && r == AtLeastPairs(drawn)))
  }

  /** Draws one sample item at a time for a component of sel until totalItems are drawn or every component is full. */
  method DrawSamples(sizes: seq<nat>, sel: set<int>, totalItems: int) returns (numItems: array<nat>, exhausted: bool)
    requires forall i | i in sel :: 0 <= i < |sizes|
    ensures fresh(numItems)
    ensures Bounded(numItems[..], sizes, sel)
    ensures exhausted ==> Sum(numItems[..]) < totalItems && Saturated(numItems[..], sizes, sel)
    ensures !exhausted ==> Sum(numItems[..]) >= totalItems
  {
    numItems := new nat[|sizes|](_ => 0);
    var numAssigned := 0;
    var zeros := sel;
    NoneDrawn(numItems[..], sizes);
    while numAssigned < totalItems && zeros != {}
      invariant numItems.Length == |sizes| && zeros <= sel
      invariant Bounded(numItems[..], sizes, sel)
      invariant forall i | i in sel - zeros :: numItems[i] == sizes[i]
      invariant numAssigned == Sum(numItems[..]) <= Sum(sizes)
      decreases Sum(sizes) - Sum(numItems[..]), |zeros|
    {
      var i := Pick(zeros);
      if numItems[i] == sizes[i] {
        zeros := zeros - {i};
      } else {
        ghost var before := numItems[..];
        SumBump(before, i);
        numItems[i] := numItems[i] + 1;
        assert numItems[..] == before[i := before[i] + 1];
        numAssigned := numAssigned + 1;
        SumBelow(numItems[..], sizes);
      }
    }
    exhausted := numAssigned < totalItems;
  }

  /** Raises every positive count of the array to at least 2, in place. */
  method RaiseToPairs(numItems: array<nat>)
    modifies numItems
    ensures numItems[..] == AtLeastPairs(old(numItems[..]))
  {
    var i := 0;
    while i < numItems.Length
      invariant 0 <= i <= numItems.Length
      invariant forall k :: 0 <= k < i ==> numItems[k] == AtLeastPair(old(numItems[k]))
      invariant forall k :: i <= k < numItems.Length ==> numItems[k] == old(numItems[k])
    {
      if numItems[i] > 0 {
        numItems[i] := Max(numItems[i], 2);
      }
      i := i + 1;
    }
  }

  /** The sample sizes of the three outcomes. */
  ghost predicate SampleCounts(r: seq<nat>, drawn: seq<nat>, sizes: seq<nat>, landmarks: seq<int>, totalItems: int)
    requires |sizes| > 0 && (Largest(sizes) > 2 ==> |landmarks| >= |sizes|)
  {
    |r| == |sizes| &&
    (Largest(sizes) <= 2 ==> forall i :: 0 <= i < |sizes| ==> r[i] == 0) &&
    (Largest(sizes) > 2 ==> Sampled(r, drawn, sizes, WithLandmarks(landmarks, |sizes|), totalItems))
  }

  /**
   * The number of hyperedges to sample in each component, only for
   * components with landmarks. Fails when there are no components and when
   * the landmark counts are fewer than the components.
   */
  method SelectSampleSizes(sizes: seq<nat>, landmarks: seq<int>, totalItems: int)
    returns (r: Option<seq<nat>>, ghost drawn: seq<nat>)
    ensures r.None? <==> |sizes| == 0 || (Largest(sizes) > 2 && |landmarks| < |sizes|)
    ensures r.Some? ==> SampleCounts(r.value, drawn, sizes, landmarks, totalItems)
  {
    drawn := [];
    if |sizes| == 0 {
      return None, drawn;
    }
    var maxSize := Largest(sizes);
    if maxSize <= 2 {
      return Some(seq(|sizes|, _ => 0)), drawn;
    }
    if |landmarks| < |sizes| {
      return None, drawn;
    }
    var sel := {};
    var i := 0;
    while i < |sizes|
      invariant 0 <= i <= |sizes|
      invariant sel == WithLandmarks(landmarks, i)
    {
      if landmarks[i] > 0 {
        sel := sel + {i};
      }
      i := i + 1;
    }
    var numItems, exhausted := DrawSamples(sizes, sel, totalItems);
    drawn := numItems[..];
    if exhausted {
      return Some(numItems[..]), drawn;
    }
    RaiseToPairs(numItems);
    r := Some(numItems[..]);
  }

  /** Components without landmarks are given no sample. */
  lemma NoLandmarksNoSample(r: seq<nat>, drawn: seq<nat>, sizes: seq<nat>, landmarks: seq<int>, totalItems: int, i: int)
    requires |sizes| > 0 && (Largest(sizes) > 2 ==> |landmarks| >= |sizes|)
    requires SampleCounts(r, drawn, sizes, landmarks, totalItems)
    requires 0 <= i < |sizes| && (i < |landmarks| ==> landmarks[i] <= 0)
    ensures r[i] == 0
  {
    if Largest(sizes) > 2 {
      assert i !in WithLandmarks(landmarks, |sizes|);
      if r != drawn {
        AtLeastPairsSpec(drawn, i);
      }
    }
  }

  /** A real number truncated toward zero, as Java's cast from double to int. */
  function Truncate(x: real): (r: int)
    ensures x >= 0.0 ==> r as real <= x < r as real + 1.0
    ensures x < 0.0 ==> r as real - 1.0 < x <= r as real
  {
    if x >= 0.0 then x.Floor else -((-x).Floor)
  }

  /** The number of hyperedges to sample: a fraction samplePerc of all hyperedges, truncated. */
  function SampleTotal(sizes: seq<nat>, samplePerc: real): int
  {
    Truncate(Sum(sizes) as real * samplePerc)
  }

  /** The s-values, zeroed for the components to skip (those of size 0). */
  function Masked(sizes: seq<nat>, ss: seq<int>): (r: seq<int>)
    requires |sizes| >= |ss|
    ensures |r| == |ss| && forall i :: 0 <= i < |ss| ==> r[i] == if sizes[i] != 0 then ss[i] else 0
  {
    seq(|ss|, i requires 0 <= i < |ss| => if sizes[i] != 0 then ss[i] else 0)
  }

  /**
   * Sample sizes and landmark counts for all components. The s-value of a
   * skipped component is zeroed before the landmarks are drawn; sample sizes
   * are drawn, from a fraction samplePerc of all hyperedges, only for the
   * strategies other than best cover and betweenness.
   */
  method AssignLandmarksAndSizes(allCCs: seq<nat>, allSs: seq<int>, allVs: seq<nat>, budget: int,
                                 alpha: real, beta: real, strategy: Strategy, samplePerc: real)
    returns (r: Option<(seq<nat>, seq<nat>)>, ghost drawn: seq<nat>)
    ensures r.None? <==> (|allCCs| < |allSs| || alpha + beta > 1.0 || |allCCs| == 0 ||
      (Largest(allCCs) > 2 && SumSq(allCCs) > budget && (|allSs| < |allCCs| || |allVs| < |allCCs|)))
    ensures r.Some? ==> (|allCCs| > 0 && |allCCs| >= |allSs| &&
      LandmarkCounts(r.value.1, allCCs, Masked(allCCs, allSs), allVs, budget, alpha, beta))
    ensures r.Some? && !strategy.Samples() ==> r.value.0 == seq(|allCCs|, _ => 0)
    ensures r.Some? && strategy.Samples() ==>
      SampleCounts(r.value.0, drawn, allCCs, r.value.1, SampleTotal(allCCs, samplePerc))
  {
    drawn := [];
    if |allCCs| < |allSs| {
      return None, drawn;
    }
    var dummyS := Masked(allCCs, allSs);
    var landmarks := SelectNumLandmarks(allCCs, dummyS, allVs, budget, alpha, beta);
    if landmarks.None? {
      return None, drawn;
    }
    if !strategy.Samples() {
      return Some((seq(|landmarks.value|, _ => 0), landmarks.value)), drawn;
    }
    var sampleSize := SampleTotal(allCCs, samplePerc);
    var sampled;
    sampled, drawn := SelectSampleSizes(allCCs, landmarks.value, sampleSize);
    var sampleSizes := sampled.value;
    r := Some((sampleSizes, landmarks.value));
  }
}
