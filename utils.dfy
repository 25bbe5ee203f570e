/**
 * Integer and set helpers used across the oracle: intersections of
 * vertex sets, prefix sums, extremal positions, dot products in Java's
 * 32-bit arithmetic, and the pair sampling used to estimate distances.
 */
module Utils {
  import opened Wrappers

  /** Whether two sets share an element; the loop stops at the first common one. */
  method Intersect(s1: set<int>, s2: set<int>) returns (r: bool)
    ensures r <==> s1 * s2 != {}
  {
    var rest := s1;
    while rest != {}
      invariant rest <= s1
      invariant (s1 - rest) * s2 == {}
      decreases rest
    {
      var e := Pick(rest);
      if e in s2 {
        assert e in s1 * s2;
        return true;
      }
      rest := rest - {e};
    }
    assert s1 == s1 - rest;
    return false;
  }

  /** A new set of the common values; the arguments are values and stay as they were. */
  function Intersection(s1: set<int>, s2: set<int>): (r: set<int>)
    ensures forall e :: e in r <==> e in s1 && e in s2
  {
    set e | e in s1 && e in s2
  }

  /** The number of common values. */
  function IntersectionSize(s1: set<int>, s2: set<int>): (r: nat)
    ensures r == |Intersection(s1, s2)|
    ensures r <= |s1| && r <= |s2|
  {
    SubsetCard(Intersection(s1, s2), s1);
    SubsetCard(Intersection(s1, s2), s2);
    |Intersection(s1, s2)|
  }

  /**
   * The number of common values, the scan stopping as soon as the count
   * reaches maxI. A cap below 1 still counts the first common value.
   */
  method CappedIntersectionSize(s1: set<int>, s2: set<int>, maxI: int) returns (count: int)
    ensures count == Min(|s1 * s2|, Max(maxI, 1))
    ensures maxI >= 1 ==> count == Min(|s1 * s2|, maxI)
  {
    count := 0;
    var rest := s1;
    ghost var common: set<int> := {};
    while rest != {}
      invariant Capped(s1, s2, maxI, rest, common, count)
      decreases rest
    {
      var stop;
      count, rest, common, stop := CapStep(s1, s2, maxI, count, rest, common);
      if stop {
        return count;
      }
    }
    assert common == s1 * s2;
  }

  /** The state of CappedIntersectionSize's scan: count is the number of common values met outside rest, below the cap. */
  ghost predicate Capped(s1: set<int>, s2: set<int>, maxI: int, rest: set<int>, common: set<int>, count: int)
  {
    rest <= s1 && common == (s1 - rest) * s2 && count == |common| && (count == 0 || count < maxI)
  }

  /** One iteration of CappedIntersectionSize; stop reports that the cap was reached. */
  method CapStep(s1: set<int>, s2: set<int>, maxI: int, count: int, rest: set<int>, ghost common: set<int>)
    returns (count': int, rest': set<int>, ghost common': set<int>, stop: bool)
    requires rest != {} && Capped(s1, s2, maxI, rest, common, count)
    ensures rest' < rest
    ensures !stop ==> Capped(s1, s2, maxI, rest', common', count')
    ensures stop ==> count' == Max(maxI, 1) <= |s1 * s2|
  {
    var e := Pick(rest);
    common' := CommonStep(s1, s2, rest, common, e);
    rest' := rest - {e};
    count', stop := count, false;
    if e in s2 {
      count' := count + 1;
      if count' >= maxI {
        SubsetCard(common', s1 * s2);
        stop := true;
      }
    }
  }

  /**
   * One step of the scan: e moves from the unvisited rest to the visited
   * part, and the common values seen so far grow by e when s2 holds it.
   */
  lemma CommonStep(s1: set<int>, s2: set<int>, rest: set<int>, common: set<int>, e: int)
    returns (common': set<int>)
    requires e in rest && rest <= s1
    requires common == (s1 - rest) * s2
    ensures rest - {e} <= s1
    ensures common' == (s1 - (rest - {e})) * s2
    ensures |common'| == |common| + (if e in s2 then 1 else 0)
  {
    common' := if e in s2 then common + {e} else common;
    assert common' == (s1 - (rest - {e})) * s2;
  }

  /** The 32-bit prefix sums of s: entry i is the wrapped sum of s[..i+1]. */
  function PrefixSums(s: seq<int>): (r: seq<int>)
    ensures |r| == |s|
    ensures forall i :: 0 <= i < |s| ==> r[i] == Wrap32(SumTo(s, i + 1))
  {
    seq(|s|, i requires 0 <= i < |s| => Wrap32(SumTo(s, i + 1)))
  }

  /** Sum of the first n elements. */
  function SumTo(s: seq<int>, n: nat): int
    requires n <= |s|
  {
    if n == 0 then 0 else SumTo(s, n - 1) + s[n - 1]
  }

  /** With non-negative entries and no overflow, prefix sums never decrease. */
  lemma {:induction false} SumToMonotone(s: seq<int>, i: nat, j: nat)
    requires i <= j <= |s|
    requires forall k :: 0 <= k < |s| ==> s[k] >= 0
    ensures SumTo(s, i) <= SumTo(s, j)
    decreases j
  {
    if i < j {
      SumToMonotone(s, i, j - 1);
    }
  }

  /** Overwrites the array with its running sums in Java's int arithmetic and returns it. */
  method CumSum(numbers: array<int>) returns (r: array<int>)
    modifies numbers
    ensures r == numbers
    ensures numbers[..] == PrefixSums(old(numbers[..]))
  {
    ghost var orig := numbers[..];
    var sum := 0;
    var i := 0;
    while i < numbers.Length
      invariant 0 <= i <= numbers.Length
      invariant sum == Wrap32(SumTo(orig, i))
      invariant forall k :: 0 <= k < i ==> numbers[k] == Wrap32(SumTo(orig, k + 1))
      invariant forall k :: i <= k < numbers.Length ==> numbers[k] == orig[k]
    {
      WrapCongruent(sum + numbers[i], SumTo(orig, i) + orig[i]);
      sum := Wrap32(sum + numbers[i]);
      numbers[i] := sum;
      i := i + 1;
    }
    return numbers;
  }

  /** Java `int` array contents. */
  predicate IntArray(a: array<int>)
    reads a
  {
    forall k :: 0 <= k < a.Length ==> IntMin <= a[k] <= IntMax
  }

  /** Position of the first maximum, 0 for an empty array. */
  method ArgMax(a: array<int>) returns (id: int)
    requires IntArray(a)
    ensures a.Length == 0 ==> id == 0
    ensures a.Length > 0 ==> 0 <= id < a.Length
    ensures a.Length > 0 ==> forall k :: 0 <= k < a.Length ==> a[k] <= a[id]
    ensures a.Length > 0 ==> forall k :: 0 <= k < id ==> a[k] < a[id]
  {
    var max := IntMin;
    id := 0;
    var i := 0;
    while i < a.Length
      invariant 0 <= i <= a.Length
      invariant i == 0 ==> id == 0 && max == IntMin
      invariant i > 0 ==> 0 <= id < i && a[id] == max
      invariant forall k :: 0 <= k < i ==> a[k] <= max
      invariant forall k :: 0 <= k < id ==> a[k] < max
    {
      if a[i] > max {
        max := a[i];
        id := i;
      }
      i := i + 1;
    }
  }

  /** Position of the first minimum, 0 for an empty array. */
  method ArgMin(a: array<int>) returns (id: int)
    requires IntArray(a)
    ensures a.Length == 0 ==> id == 0
    ensures a.Length > 0 ==> 0 <= id < a.Length
    ensures a.Length > 0 ==> forall k :: 0 <= k < a.Length ==> a[id] <= a[k]
    ensures a.Length > 0 ==> forall k :: 0 <= k < id ==> a[id] < a[k]
  {
    var min := IntMax;
    id := 0;
    var i := 0;
    while i < a.Length
      invariant 0 <= i <= a.Length
      invariant i == 0 ==> id == 0 && min == IntMax
      invariant i > 0 ==> 0 <= id < i && a[id] == min
      invariant forall k :: 0 <= k < i ==> min <= a[k]
      invariant forall k :: 0 <= k < id ==> min < a[k]
    {
      if a[i] < min {
        min := a[i];
        id := i;
      }
      i := i + 1;
    }
  }

  /** The exact (unbounded) dot product of the first n entries. */
  function DotTo(a: seq<int>, b: seq<int>, n: nat): int
    requires n <= |a| && n <= |b|
  {
    if n == 0 then 0 else DotTo(a, b, n - 1) + a[n - 1] * b[n - 1]
  }

  /** The dot product does not depend on the order of its arguments. */
  lemma {:induction false} DotToSymmetric(a: seq<int>, b: seq<int>, n: nat)
    requires n <= |a| && n <= |b|
    ensures DotTo(a, b, n) == DotTo(b, a, n)
  {
    if n > 0 {
      DotToSymmetric(a, b, n - 1);
    }
  }

  /** Accumulates a[i]*b[i] for i < n in 32-bit arithmetic into the running sum. */
  method DotLoop(a: array<int>, b: array<int>, n: int) returns (sum: int)
    requires 0 <= n <= a.Length && n <= b.Length
    ensures sum == Wrap32(DotTo(a[..], b[..], n))
  {
    sum := 0;
    var i := 0;
    while i < n
      invariant 0 <= i <= n
      invariant sum == Wrap32(DotTo(a[..], b[..], i))
    {
      WrapCongruent(sum + Wrap32(a[i] * b[i]), DotTo(a[..], b[..], i) + a[i] * b[i]);
      sum := Wrap32(sum + Wrap32(a[i] * b[i]));
      i := i + 1;
    }
  }

  /**
   * Dot product of two int arrays, None where the source throws
   * IllegalArgumentException on a length mismatch.
   */
  method VDot(a: array<int>, b: array<int>) returns (r: Option<int>)
    ensures a.Length != b.Length ==> r == None
    ensures a.Length == b.Length ==> r == Some(Wrap32(DotTo(a[..], b[..], a.Length)))
  {
    if a.Length != b.Length {
      return None;
    }
    var sum := DotLoop(a, b, a.Length);
    return Some(sum);
  }

  /**
   * Matrix-vector product, None where the source throws on a first row
   * whose length differs from b's. Reading a[0] and rows longer than b
   * fail in the source, hence the preconditions.
   */
  method Dot(a: array<array<int>>, b: array<int>) returns (r: Option<seq<int>>)
    requires a.Length > 0
    requires a[0].Length == b.Length ==> forall i :: 0 <= i < a.Length ==> a[i].Length <= b.Length
    ensures a[0].Length != b.Length ==> r == None
    ensures a[0].Length == b.Length ==>
      r.Some? && |r.value| == a.Length &&
      forall i :: 0 <= i < a.Length ==> r.value[i] == Wrap32(DotTo(a[i][..], b[..], a[i].Length))
  {
    if a[0].Length != b.Length {
      return None;
    }
    var sum := new int[a.Length];
    var i := 0;
    while i < a.Length
      invariant 0 <= i <= a.Length
      invariant forall k :: 0 <= k < i ==> sum[k] == Wrap32(DotTo(a[k][..], b[..], a[k].Length))
    {
      var row := DotLoop(a[i], b, a[i].Length);
      sum[i] := row;
      i := i + 1;
    }
    return Some(sum[..]);
  }

  /** Math.abs on a 32-bit value: the minimum int is its own absolute value. */
  function Abs32(x: int): (r: int)
    requires IntMin <= x <= IntMax
    ensures x == IntMin ==> r == IntMin
    ensures x != IntMin ==> r >= 0 && (r == x || r == -x)
  {
    if x < 0 then Wrap32(-x) else x
  }

  /** Elementwise absolute differences, None on a length mismatch. */
  method Abs(a: array<int>, b: array<int>) returns (r: Option<seq<int>>)
    ensures a.Length != b.Length ==> r == None
    ensures a.Length == b.Length ==>
      r.Some? && |r.value| == a.Length &&
      forall i :: 0 <= i < a.Length ==> r.value[i] == Abs32(Wrap32(a[i] - b[i]))
  {
    if a.Length != b.Length {
      return None;
    }
    var c := new int[a.Length];
    var i := 0;
    while i < a.Length
      invariant 0 <= i <= a.Length
      invariant forall k :: 0 <= k < i ==> c[k] == Abs32(Wrap32(a[k] - b[k]))
    {
      c[i] := Abs32(Wrap32(a[i] - b[i]));
      i := i + 1;
    }
    return Some(c[..]);
  }

  /** Sum of an int array in 32-bit arithmetic. */
  method Sum32(a: array<int>) returns (sum: int)
    ensures sum == Wrap32(SumTo(a[..], a.Length))
    ensures IntMin <= SumTo(a[..], a.Length) <= IntMax ==> sum == SumTo(a[..], a.Length)
  {
    sum := 0;
    var i := 0;
    while i < a.Length
      invariant 0 <= i <= a.Length
      invariant sum == Wrap32(SumTo(a[..], i))
    {
      WrapCongruent(sum + a[i], SumTo(a[..], i) + a[i]);
      sum := Wrap32(sum + a[i]);
      i := i + 1;
    }
    if IntMin <= SumTo(a[..], a.Length) <= IntMax {
      WrapInRange(SumTo(a[..], a.Length));
    }
  }

  /** The distinct values of a sequence. */
  function Elements(s: seq<int>): set<int>
  {
    set x | x in s
  }

  /** A sequence without repeated values. */
  predicate Distinct(s: seq<int>)
  {
    forall i, j :: 0 <= i < j < |s| ==> s[i] != s[j]
  }

  /**
   * Draws numItems distinct candidates. The random draw is a choice among
   * the candidates not drawn yet: a draw that repeats an earlier one
   * changes nothing in the source. With fewer distinct candidates than
   * numItems the source never stops drawing, hence the precondition.
   */
  method SelectItems(numItems: int, candidates: seq<int>) returns (items: seq<int>)
    requires |candidates| >= 2 && numItems != 0 && |candidates| != numItems ==>
      numItems <= |Elements(candidates)|
    ensures forall x :: x in items ==> x in candidates
    ensures |candidates| < 2 || numItems == 0 ==> items == []
    ensures |candidates| >= 2 && numItems != 0 && |candidates| == numItems ==> items == candidates
    ensures |candidates| >= 2 && numItems != 0 && |candidates| != numItems ==>
      |items| == Max(numItems, 0) && Distinct(items) && Elements(items) <= Elements(candidates)
  {
    if |candidates| < 2 || numItems == 0 {
      return [];
    }
    if |candidates| == numItems {
      return candidates;
    }
    items := [];
    while |items| < numItems
      invariant Distinct(items) && Elements(items) <= Elements(candidates)
      invariant forall x :: x in items ==> x in candidates
      invariant |Elements(items)| == |items|
      invariant |items| <= Max(numItems, 0)
      decreases numItems - |items|
    {
      items := DrawNew(candidates, items);
    }
  }

  /** One draw of SelectItems: a candidate not drawn yet is appended. */
  method DrawNew(candidates: seq<int>, items: seq<int>) returns (items': seq<int>)
    requires Distinct(items) && Elements(items) <= Elements(candidates)
    requires |Elements(items)| == |items| < |Elements(candidates)|
    requires forall x :: x in items ==> x in candidates
    ensures |items'| == |items| + 1 && items'[..|items|] == items
    ensures Distinct(items') && Elements(items') <= Elements(candidates) && |Elements(items')| == |items'|
    ensures forall x :: x in items' ==> x in candidates
  {
    DiffCard(Elements(candidates), Elements(items));
    var c := Pick(Elements(candidates) - Elements(items));
    items' := items + [c];
    AppendFresh(items, c);
    assert items'[..|items|] == items;
  }

  /** Appending a value not yet listed keeps a list distinct and adds it to the elements. */
  lemma AppendFresh(items: seq<int>, c: int)
    requires Distinct(items) && c !in Elements(items)
    ensures Distinct(items + [c]) && Elements(items + [c]) == Elements(items) + {c}
  {
    assert Elements(items + [c]) == Elements(items) + {c};
    forall i, j | 0 <= i < j < |items| + 1
      ensures (items + [c])[i] != (items + [c])[j]
    {
      if j == |items| {
        assert items[i] in Elements(items);
      }
    }
  }

  /** The pair of the items at positions i and i + 1. */
  function Adjacent(items: seq<int>, i: int): (int, int)
    requires 0 <= i < |items| - 1
  {
    (items[i], items[i + 1])
  }

  /** Consecutive items paired up, plus (first, last) when the count is odd. */
  function PairsOf(items: seq<int>): (r: set<(int, int)>)
    ensures forall p :: p in r ==> p.0 in items && p.1 in items
  {
    (set i | 0 <= i < |items| - 1 && i % 2 == 0 :: Adjacent(items, i)) +
    (if |items| % 2 != 0 then {(items[0], items[|items| - 1])} else {})
  }

  /** Samples items and pairs them up as PairsOf describes. */
  method SamplePairs(candidates: seq<int>, sampleSize: int) returns (sample: set<(int, int)>, items: seq<int>)
    requires |candidates| >= 2 && sampleSize != 0 && |candidates| != sampleSize ==>
      sampleSize <= |Elements(candidates)|
    ensures sample == PairsOf(items)
    ensures forall p :: p in sample ==> p.0 in candidates && p.1 in candidates
    ensures |candidates| < 2 || sampleSize == 0 ==> sample == {}
  {
    items := SelectItems(sampleSize, candidates);
    sample := {};
    var i := 0;
    while i < |items| - 1
      invariant 0 <= i && i % 2 == 0
      invariant i <= |items| || |items| == 0
      invariant sample == set k | 0 <= k < i && k < |items| - 1 && k % 2 == 0 :: Adjacent(items, k)
    {
      sample := sample + {Adjacent(items, i)};
      i := i + 2;
    }
    if |items| % 2 != 0 {
      sample := sample + {(items[0], items[|items| - 1])};
    }
  }

  /** The ordered pair (smaller, larger) of two values. */
  function Ordered(x: int, y: int): (r: (int, int))
    ensures r.0 <= r.1 && {r.0, r.1} == {x, y}
  {
    if x < y then (x, y) else (y, x)
  }

  /** Indices of the lists with more than two elements. */
  function Selectable(lists: seq<seq<int>>): (r: seq<nat>)
    ensures forall k :: 0 <= k < |r| ==> r[k] < |lists| && |lists[r[k]]| > 2
    ensures forall i :: 0 <= i < |lists| && |lists[i]| > 2 ==> i in r
  {
    SelectableFrom(lists, 0)
  }

  function SelectableFrom(lists: seq<seq<int>>, i: nat): (r: seq<nat>)
    requires i <= |lists|
    ensures forall k :: 0 <= k < |r| ==> i <= r[k] < |lists| && |lists[r[k]]| > 2
    ensures forall j :: i <= j < |lists| && |lists[j]| > 2 ==> j in r
    decreases |lists| - i
  {
    if i == |lists| then []
    else (if |lists[i]| > 2 then [i] else []) + SelectableFrom(lists, i + 1)
  }

  /** Every ordered pair of two positions of one list. */
  function ListPairs(l: seq<int>): set<(int, int)>
  {
    set a, b | 0 <= a < b < |l| :: Ordered(l[a], l[b])
  }

  /** Every ordered pair of the selectable lists. */
  function AllPairs(lists: seq<seq<int>>, sel: seq<nat>): set<(int, int)>
    requires forall k :: 0 <= k < |sel| ==> sel[k] < |lists|
  {
    if sel == [] then {} else AllPairs(lists, sel[..|sel| - 1]) + ListPairs(lists[sel[|sel| - 1]])
  }

  /** Pairs of distinct values drawn from one of the selectable lists. */
  predicate Drawable(lists: seq<seq<int>>, p: (int, int))
  {
    exists i, a, b :: 0 <= i < |lists| && |lists[i]| > 2 && 0 <= a < |lists[i]| && 0 <= b < |lists[i]| &&
      lists[i][a] != lists[i][b] && p == Ordered(lists[i][a], lists[i][b])
  }

  /**
   * The capped count of candidate pairs: it stops at the first list longer
   * than B (returning its length) or once the running count of pairs
   * exceeds B.
   */
  method CountCandidatePairs(lists: seq<seq<int>>, sel: seq<nat>, B: int) returns (num: int)
    requires forall k :: 0 <= k < |sel| ==> sel[k] < |lists| && |lists[sel[k]]| > 2
    ensures num <= B ==> forall k :: 0 <= k < |sel| ==> |lists[sel[k]]| <= B
    ensures num <= B ==> num == PairCount(lists, sel, |sel|)
    ensures num <= B <==> PairCount(lists, sel, |sel|) <= B
  {
    num := 0;
    var k := 0;
    while k < |sel|
      invariant 0 <= k <= |sel|
      invariant num == PairCount(lists, sel, k)
      invariant forall j :: 0 <= j < k ==> |lists[sel[j]]| <= B
      invariant k > 0 ==> num <= B
    {
      var size := |lists[sel[k]]|;
      PairCountGrows(lists, sel, k + 1, |sel|);
      if size > B {
        ManyPairs(size);
        num := size;
        return;
      }
      num := num + size * (size - 1) / 2;
      if num > B {
        return;
      }
      k := k + 1;
    }
  }

  /** A list of more than two values has at least as many position pairs as values. */
  lemma ManyPairs(n: int)
    requires n > 2
    ensures n * (n - 1) / 2 >= n
  {
    assert n * (n - 1) == n * (n - 3) + 2 * n;
    assert n * (n - 3) >= 0;
  }

  /** The number of position pairs in the first k selected lists. */
  function PairCount(lists: seq<seq<int>>, sel: seq<nat>, k: nat): nat
    requires k <= |sel|
    requires forall j :: 0 <= j < |sel| ==> sel[j] < |lists|
  {
    if k == 0 then 0 else PairCount(lists, sel, k - 1) + |lists[sel[k - 1]]| * (|lists[sel[k - 1]]| - 1) / 2
  }

  lemma {:induction false} PairCountGrows(lists: seq<seq<int>>, sel: seq<nat>, k: nat, n: nat)
    requires k <= n <= |sel|
    requires forall j :: 0 <= j < |sel| ==> sel[j] < |lists| && |lists[sel[j]]| > 2
    ensures PairCount(lists, sel, k) <= PairCount(lists, sel, n)
    decreases n
  {
    if k < n {
      PairCountGrows(lists, sel, k, n - 1);
      ManyPairs(|lists[sel[n - 1]]|);
    }
  }

  /**
   * Adds pairs to sample: every pair of the selectable lists when their
   * count fits in the remaining budget, otherwise random drawn pairs until
   * the sample holds budget pairs. A draw that repeats a pair changes
   * nothing, so the draw is a choice among the pairs not sampled yet; the
   * source never stops when too few of those exist, hence the precondition
   * on that branch.
   */
  method SampleInLists(lists: seq<seq<int>>, sample: set<(int, int)>, budget: int)
    returns (result: set<(int, int)>)
    requires PairCount(lists, Selectable(lists), |Selectable(lists)|) > budget - |sample| ==>
      |set p | p in AllPairs(lists, Selectable(lists)) && p.0 != p.1 && p !in sample| >= budget - |sample|
    ensures sample <= result
    ensures forall p :: p in result - sample ==> p.0 <= p.1 && p in AllPairs(lists, Selectable(lists))
    ensures PairCount(lists, Selectable(lists), |Selectable(lists)|) <= budget - |sample| ==>
      result == sample + AllPairs(lists, Selectable(lists))
    ensures PairCount(lists, Selectable(lists), |Selectable(lists)|) > budget - |sample| ==> |result| == Max(budget, |sample|)
  {
    var selectable := Selectable(lists);
    var numCandPairs := CountCandidatePairs(lists, selectable, budget - |sample|);
    if numCandPairs <= budget - |sample| {
      result := sample + AllPairs(lists, selectable);
      AllPairsOrdered(lists, selectable);
      return;
    }
    result := sample;
    var all := AllPairs(lists, selectable);
    AllPairsOrdered(lists, selectable);
    while |result| < budget
      invariant sample <= result <= sample + all
      invariant |result| <= Max(budget, |sample|)
      decreases budget - |result|
    {
      var unseen := set p | p in all && p.0 != p.1 && p !in sample;
      var taken := result - sample;
      assert |result| == |sample| + |taken| by {
        assert result == sample + taken;
      }
      DiffCard(unseen, taken);
      var p := Pick(unseen - taken);
      result := result + {p};
    }
  }

  /** The pairs of the selectable lists are listed smaller first. */
  lemma {:induction false} AllPairsOrdered(lists: seq<seq<int>>, sel: seq<nat>)
    requires forall k :: 0 <= k < |sel| ==> sel[k] < |lists|
    ensures forall p :: p in AllPairs(lists, sel) ==> p.0 <= p.1
  {
    if sel != [] {
      AllPairsOrdered(lists, sel[..|sel| - 1]);
    }
  }
}
