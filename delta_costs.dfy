/**
 * The delta costs of BioConsert: for one element of a bucket ranking, how
 * much its distance to the input rankings changes when it moves into
 * bucket b (`change[b]`) or into a new bucket inserted before bucket b
 * (`add[b]`). Each other element adds at most two point contributions to
 * a raw array, and a range sum of the raw array is the change of a move.
 */
module DeltaCosts {
  import opened RankCosts
  import opened RankDistance
  import BucketMoves

  /** Buckets of r lie in 0..maxId. */
  ghost predicate InRange(r: seq<int>, maxId: int)
  {
    forall i | 0 <= i < |r| :: 0 <= r[i] <= maxId
  }

  /** At most two point contributions: dp at position p and dq at position q. */
  datatype Spikes = Spikes(p: int, dp: int, q: int, dq: int)

  function At(s: Spikes, x: int): int
  {
    (if x == s.p then s.dp else 0) + (if x == s.q then s.dq else 0)
  }

  /** The contributions of s to positions lo..hi-1. */
  function Over(s: Spikes, lo: int, hi: int): int
    requires lo <= hi
    decreases hi - lo
  {
    if lo == hi then 0 else Over(s, lo, hi - 1) + At(s, hi - 1)
  }

  lemma {:induction false} OverValue(s: Spikes, lo: int, hi: int)
    requires lo <= hi
    ensures Over(s, lo, hi) == (if lo <= s.p < hi then s.dp else 0) + (if lo <= s.q < hi then s.dq else 0)
    decreases hi - lo
  {
    if lo < hi {
      OverValue(s, lo, hi - 1);
    }
  }

  /** The slot written for the bucket left of t: t - 1, and for bucket 0 the last slot of the change array. */
  function LeftOf(t: int, maxId: int): int
  {
    if t == 0 then maxId + 1 else t - 1
  }

  /** Component-wise sum of costs. */
  function Plus(a: Costs, b: Costs): Costs
  {
    Costs(a.before + b.before, a.after + b.after, a.tied + b.tied)
  }

  /** The contribution of costs L against elements sharing the moved element's bucket cur. */
  function LeaveSpike(adding: bool, cur: int, maxId: int, L: Costs): Spikes
  {
    if adding then Spikes(cur, L.before - L.tied, cur + 1, L.after - L.tied)
    else Spikes(LeftOf(cur, maxId), L.before - L.tied, cur + 1, L.after - L.tied)
  }

  lemma LeavePlus(adding: bool, cur: int, maxId: int, L: Costs, c: Costs, x: int)
    ensures At(LeaveSpike(adding, cur, maxId, Plus(L, c)), x)
         == At(LeaveSpike(adding, cur, maxId, L), x) + At(LeaveSpike(adding, cur, maxId, c), x)
  {
  }

  /** What element j contributes to the raw change array (adding false) or the raw insertion array (adding true) of element el. */
  function Spike(M: Matrix, r: seq<int>, el: int, maxId: int, adding: bool, j: int): Spikes
    requires Square(M, |r|) && 0 <= el < |r| && 0 <= j < |r|
  {
    var t, cur, c := r[j], r[el], M[el][j];
    if t == cur then LeaveSpike(adding, cur, maxId, c)
    else if adding then
      (if t < cur then Spikes(t, c.before - c.after, -1, 0)
       else Spikes(t + 1, c.after - c.before, -1, 0))
    else
      (if t < cur then Spikes(t, c.tied - c.after, LeftOf(t, maxId), c.before - c.tied)
       else Spikes(t, c.tied - c.before, t + 1, c.after - c.tied))
  }

  /** Raw array entry x after elements 0..J-1. */
  function Raw(M: Matrix, r: seq<int>, el: int, maxId: int, adding: bool, x: int, J: nat): int
    requires Square(M, |r|) && 0 <= el < |r| && J <= |r|
  {
    if J == 0 then 0 else Raw(M, r, el, maxId, adding, x, J - 1) + At(Spike(M, r, el, maxId, adding, J - 1), x)
  }

  /** Raw array entry x after the elements 0..J-1 that are not in el's bucket. */
  function RawApart(M: Matrix, r: seq<int>, el: int, maxId: int, adding: bool, x: int, J: nat): int
    requires Square(M, |r|) && 0 <= el < |r| && J <= |r|
  {
    if J == 0 then 0
    else
      var own := if r[J - 1] == r[el] then 0 else At(Spike(M, r, el, maxId, adding, J - 1), x);
      RawApart(M, r, el, maxId, adding, x, J - 1) + own
  }

  /** The elements 0..J-1 in bucket cur, in increasing order. */
  function SameUpTo(r: seq<int>, cur: int, J: nat): (s: seq<int>)
    requires J <= |r|
    ensures forall k | 0 <= k < |s| :: 0 <= s[k] < J && r[s[k]] == cur
  {
    if J == 0 then [] else SameUpTo(r, cur, J - 1) + (if r[J - 1] == cur then [J - 1] else [])
  }

  /** The summed costs of el against the elements listed in s. */
  function LeaveOf(M: Matrix, el: int, s: seq<int>): Costs
    requires 0 <= el < |M| && forall k | 0 <= k < |s| :: 0 <= s[k] < |M[el]|
  {
    if s == [] then Zero else Plus(LeaveOf(M, el, s[..|s| - 1]), M[el][s[|s| - 1]])
  }

  /** The raw arrays are the contributions of the other buckets plus those of the summed costs against el's own bucket. */
  lemma {:induction false} RawSplit(M: Matrix, r: seq<int>, el: int, maxId: int, adding: bool, x: int, J: nat)
    requires Square(M, |r|) && 0 <= el < |r| && J <= |r|
    ensures Raw(M, r, el, maxId, adding, x, J)
         == RawApart(M, r, el, maxId, adding, x, J) + At(LeaveSpike(adding, r[el], maxId, LeaveOf(M, el, SameUpTo(r, r[el], J))), x)
  {
    if J > 0 {
      RawSplit(M, r, el, maxId, adding, x, J - 1);
      var s := SameUpTo(r, r[el], J - 1);
      if r[J - 1] == r[el] {
        var c := M[el][J - 1];
        assert SameUpTo(r, r[el], J) == s + [J - 1];
        assert (s + [J - 1])[..|s|] == s;
        assert LeaveOf(M, el, s + [J - 1]) == Plus(LeaveOf(M, el, s), c);
        assert Spike(M, r, el, maxId, adding, J - 1) == LeaveSpike(adding, r[el], maxId, c);
        LeavePlus(adding, r[el], maxId, LeaveOf(M, el, s), c, x);
      } else {
        assert SameUpTo(r, r[el], J) == s + [] == s;
      }
    }
  }

  /** The sum of the raw entries lo..hi-1 after elements 0..J-1. */
  function Col(M: Matrix, r: seq<int>, el: int, maxId: int, adding: bool, lo: int, hi: int, J: nat): int
    requires Square(M, |r|) && 0 <= el < |r| && J <= |r| && lo <= hi
    decreases hi - lo
  {
    if lo == hi then 0 else Col(M, r, el, maxId, adding, lo, hi - 1, J) + Raw(M, r, el, maxId, adding, hi - 1, J)
  }

  lemma {:induction false} ColStep(M: Matrix, r: seq<int>, el: int, maxId: int, adding: bool, lo: int, hi: int, J: nat)
    requires Square(M, |r|) && 0 <= el < |r| && 0 < J <= |r| && lo <= hi
    ensures Col(M, r, el, maxId, adding, lo, hi, J)
         == Col(M, r, el, maxId, adding, lo, hi, J - 1) + Over(Spike(M, r, el, maxId, adding, J - 1), lo, hi)
    decreases hi - lo
  {
    if lo < hi {
      ColStep(M, r, el, maxId, adding, lo, hi - 1, J);
    }
  }

  /** The move a delta-cost entry b prices. */
  function MoveOf(adding: bool, b: int): Move
  {
    if adding then Insert(b) else Change(b)
  }

  /** The raw positions whose sum is entry b: the run between b and el's bucket cur. */
  function WinLo(adding: bool, cur: int, b: int): int
  {
    if adding then (if b <= cur then b else cur + 1)
    else (if b < cur then b else cur)
  }

  function WinHi(adding: bool, cur: int, b: int): int
  {
    if adding then (if b <= cur then cur + 1 else b + 1)
    else (if b < cur then cur else b + 1)
  }

  /** One element's contributions over the window of b are its share of the change of the move. */
  lemma SpikeTerm(M: Matrix, r: seq<int>, el: int, maxId: int, adding: bool, b: int, j: int)
    requires Square(M, |r|) && 0 <= el < |r| && 0 <= j < |r| && InRange(r, maxId)
    requires 0 <= b <= (if adding then maxId + 1 else maxId)
    ensures Over(Spike(M, r, el, maxId, adding, j), WinLo(adding, r[el], b), WinHi(adding, r[el], b))
         == Term(M, r, el, MoveOf(adding, b), j)
  {
    OverValue(Spike(M, r, el, maxId, adding, j), WinLo(adding, r[el], b), WinHi(adding, r[el], b));
  }

  lemma {:induction false} ColShift(M: Matrix, r: seq<int>, el: int, maxId: int, adding: bool, b: int, J: nat)
    requires Square(M, |r|) && 0 <= el < |r| && J <= |r| && InRange(r, maxId)
    requires 0 <= b <= (if adding then maxId + 1 else maxId)
    ensures Col(M, r, el, maxId, adding, WinLo(adding, r[el], b), WinHi(adding, r[el], b), J)
         == Shift(M, r, el, MoveOf(adding, b), J)
  {
    if J > 0 {
      ColShift(M, r, el, maxId, adding, b, J - 1);
      ColStep(M, r, el, maxId, adding, WinLo(adding, r[el], b), WinHi(adding, r[el], b), J);
      SpikeTerm(M, r, el, maxId, adding, b, J - 1);
    } else {
      ColNone(M, r, el, maxId, adding, WinLo(adding, r[el], b), WinHi(adding, r[el], b));
    }
  }

  lemma {:induction false} ColNone(M: Matrix, r: seq<int>, el: int, maxId: int, adding: bool, lo: int, hi: int)
    requires Square(M, |r|) && 0 <= el < |r| && lo <= hi
    ensures Col(M, r, el, maxId, adding, lo, hi, 0) == 0
    decreases hi - lo
  {
    if lo < hi {
      ColNone(M, r, el, maxId, adding, lo, hi - 1);
    }
  }

  /** Sum of s[lo..hi). */
  function RangeSum(s: seq<int>, lo: int, hi: int): int
    requires 0 <= lo <= hi <= |s|
    decreases hi - lo
  {
    if lo == hi then 0 else RangeSum(s, lo, hi - 1) + s[hi - 1]
  }

  lemma {:induction false} RangeSumFront(s: seq<int>, lo: int, hi: int)
    requires 0 <= lo < hi <= |s|
    ensures RangeSum(s, lo, hi) == s[lo] + RangeSum(s, lo + 1, hi)
    decreases hi - lo
  {
    if lo + 1 < hi {
      RangeSumFront(s, lo, hi - 1);
    }
  }

  lemma {:induction false} RangeSame(s: seq<int>, t: seq<int>, lo: int, hi: int)
    requires 0 <= lo <= hi <= |s| && hi <= |t| && forall x | lo <= x < hi :: s[x] == t[x]
    ensures RangeSum(s, lo, hi) == RangeSum(t, lo, hi)
    decreases hi - lo
  {
    if lo < hi {
      RangeSame(s, t, lo, hi - 1);
    }
  }

  /** A range sum of an array holding the raw entries is the corresponding Col. */
  lemma {:induction false} RangeCol(M: Matrix, r: seq<int>, el: int, maxId: int, adding: bool, s: seq<int>, lo: int, hi: int)
    requires Square(M, |r|) && 0 <= el < |r| && 0 <= lo <= hi <= |s|
    requires forall x | 0 <= x < |s| :: s[x] == Raw(M, r, el, maxId, adding, x, |r|)
    ensures RangeSum(s, lo, hi) == Col(M, r, el, maxId, adding, lo, hi, |r|)
    decreases hi - lo
  {
    if lo < hi {
      RangeCol(M, r, el, maxId, adding, s, lo, hi - 1);
    }
  }

  /** Replaces a[lo..hi) by its running sums, as the source's cumulative sum over a copied range does. */
  method RunningSums(a: array<int>, lo: int, hi: int)
    requires 0 <= lo <= hi <= a.Length
    modifies a
    ensures forall k | lo <= k < hi :: a[k] == RangeSum(old(a[..]), lo, k + 1)
    ensures forall k | 0 <= k < a.Length && !(lo <= k < hi) :: a[k] == old(a[k])
  {
    ghost var orig := a[..];
    var sum := 0;
    var i := lo;
    while i < hi
      invariant lo <= i <= hi
      invariant sum == RangeSum(orig, lo, i)
      invariant forall k | lo <= k < i :: a[k] == RangeSum(orig, lo, k + 1)
      invariant forall k | 0 <= k < a.Length && !(lo <= k < i) :: a[k] == orig[k]
    {
      sum := sum + a[i];
      a[i] := sum;
      i := i + 1;
    }
  }

  /** Replaces a[lo..hi) by its sums up to hi, running right to left. */
  method TrailingSums(a: array<int>, lo: int, hi: int)
    requires 0 <= lo <= hi <= a.Length
    modifies a
    ensures forall k | lo <= k < hi :: a[k] == RangeSum(old(a[..]), k, hi)
    ensures forall k | 0 <= k < a.Length && !(lo <= k < hi) :: a[k] == old(a[k])
  {
    ghost var orig := a[..];
    var sum := 0;
    var i := hi;
    while i > lo
      invariant lo <= i <= hi
      invariant sum == RangeSum(orig, i, hi)
      invariant forall k | i <= k < hi :: a[k] == RangeSum(orig, k, hi)
      invariant forall k | 0 <= k < a.Length && !(i <= k < hi) :: a[k] == orig[k]
    {
      i := i - 1;
      RangeSumFront(orig, i, hi);
      sum := sum + a[i];
      a[i] := sum;
    }
  }

  /** Adds the contribution of one element in another bucket to both raw arrays. */
  method AddApart(dc: array<int>, da: array<int>, ranking: seq<int>, element: int, M: Matrix, maxId: int, el: int)
    requires Square(M, |ranking|) && 0 <= element < |ranking| && 0 <= el < |ranking| && InRange(ranking, maxId)
    requires ranking[el] != ranking[element] && dc != da && dc.Length == maxId + 2 && da.Length == maxId + 3
    modifies dc, da
    ensures forall x | 0 <= x < dc.Length :: dc[x] == old(dc[x]) + At(Spike(M, ranking, element, maxId, false, el), x)
    ensures forall x | 0 <= x < da.Length :: da[x] == old(da[x]) + At(Spike(M, ranking, element, maxId, true, el), x)
  {
    var bucket, c := ranking[el], M[element][el];
    if bucket < ranking[element] {
      dc[bucket] := dc[bucket] + (c.tied - c.after);
      var id := bucket;
      if bucket == 0 {
        id := dc.Length;
      }
      dc[id - 1] := dc[id - 1] + (c.before - c.tied);
      da[bucket] := da[bucket] + (c.before - c.after);
    } else {
      dc[bucket] := dc[bucket] + (c.tied - c.before);
      dc[bucket + 1] := dc[bucket + 1] + (c.after - c.tied);
      da[bucket + 1] := da[bucket + 1] + (c.after - c.before);
    }
  }

  /** The raw arrays of element over the elements in other buckets, and the elements sharing its bucket. */
  method ApartDeltas(ranking: seq<int>, element: int, M: Matrix, maxId: int) returns (dc: array<int>, da: array<int>, same: seq<int>)
    requires Square(M, |ranking|) && 0 <= element < |ranking| && InRange(ranking, maxId)
    ensures fresh(dc) && fresh(da) && dc.Length == maxId + 2 && da.Length == maxId + 3
    ensures same == SameUpTo(ranking, ranking[element], |ranking|)
    ensures forall x | 0 <= x < dc.Length :: dc[x] == RawApart(M, ranking, element, maxId, false, x, |ranking|)
    ensures forall x | 0 <= x < da.Length :: da[x] == RawApart(M, ranking, element, maxId, true, x, |ranking|)
  {
    dc := new int[maxId + 2](_ => 0);
    da := new int[maxId + 3](_ => 0);
    var cur := ranking[element];
    same := [];
    var el := 0;
    while el < |ranking|
      invariant 0 <= el <= |ranking|
      invariant same == SameUpTo(ranking, cur, el)
      invariant forall x | 0 <= x < dc.Length :: dc[x] == RawApart(M, ranking, element, maxId, false, x, el)
      invariant forall x | 0 <= x < da.Length :: da[x] == RawApart(M, ranking, element, maxId, true, x, el)
    {
      if ranking[el] == cur {
        same := same + [el];
      } else {
        AddApart(dc, da, ranking, element, M, maxId, el);
      }
      el := el + 1;
    }
  }

  /** The summed costs of element against the elements listed in same. */
  method LeaveCosts(M: Matrix, element: int, same: seq<int>) returns (leave: Costs)
    requires 0 <= element < |M| && forall k | 0 <= k < |same| :: 0 <= same[k] < |M[element]|
    ensures leave == LeaveOf(M, element, same)
  {
    leave := Zero;
    var k := 0;
    while k < |same|
      invariant 0 <= k <= |same|
      invariant leave == LeaveOf(M, element, same[..k])
    {
      assert same[..k + 1][..k] == same[..k];
      leave := Plus(leave, M[element][same[k]]);
      k := k + 1;
    }
    assert same[..|same|] == same;
  }

  /** Adds the contribution of el's own bucket, with summed costs leave, to both raw arrays. */
  method AddLeave(dc: array<int>, da: array<int>, cur: int, maxId: int, leave: Costs)
    requires 0 <= cur <= maxId && dc != da && dc.Length == maxId + 2 && da.Length == maxId + 3
    modifies dc, da
    ensures forall x | 0 <= x < dc.Length :: dc[x] == old(dc[x]) + At(LeaveSpike(false, cur, maxId, leave), x)
    ensures forall x | 0 <= x < da.Length :: da[x] == old(da[x]) + At(LeaveSpike(true, cur, maxId, leave), x)
  {
    var id := cur;
    if cur == 0 {
      id := dc.Length;
    }
    dc[id - 1] := dc[id - 1] + (leave.before - leave.tied);
    dc[cur + 1] := dc[cur + 1] + (leave.after - leave.tied);
    da[cur] := da[cur] + (leave.before - leave.tied);
    da[cur + 1] := da[cur + 1] + (leave.after - leave.tied);
  }

  /** The raw arrays of element and the elements sharing its bucket. */
  method RawDeltas(ranking: seq<int>, element: int, M: Matrix, maxId: int) returns (dc: array<int>, da: array<int>, same: seq<int>)
    requires Square(M, |ranking|) && 0 <= element < |ranking| && InRange(ranking, maxId)
    ensures fresh(dc) && fresh(da) && dc.Length == maxId + 2 && da.Length == maxId + 3
    ensures same == SameUpTo(ranking, ranking[element], |ranking|)
    ensures forall x | 0 <= x < dc.Length :: dc[x] == Raw(M, ranking, element, maxId, false, x, |ranking|)
    ensures forall x | 0 <= x < da.Length :: da[x] == Raw(M, ranking, element, maxId, true, x, |ranking|)
  {
    dc, da, same := ApartDeltas(ranking, element, M, maxId);
    var leave := LeaveCosts(M, element, same);
    AddLeave(dc, da, ranking[element], maxId, leave);
    forall x | 0 <= x < dc.Length
      ensures dc[x] == Raw(M, ranking, element, maxId, false, x, |ranking|)
    {
      RawSplit(M, ranking, element, maxId, false, x, |ranking|);
    }
    forall x | 0 <= x < da.Length
      ensures da[x] == Raw(M, ranking, element, maxId, true, x, |ranking|)
    {
      RawSplit(M, ranking, element, maxId, true, x, |ranking|);
    }
  }

  /** There is one element in bucket cur exactly when el is alone in it. */
  lemma SameAlone(r: seq<int>, el: int)
    requires 0 <= el < |r|
    ensures |SameUpTo(r, r[el], |r|)| == 1 <==> BucketMoves.Alone(r, el)
  {
    var s := SameUpTo(r, r[el], |r|);
    SameMembers(r, r[el], |r|, el);
    if BucketMoves.Alone(r, el) {
      if |s| >= 2 {
        SameMembers(r, r[el], |r|, s[0]);
        assert s[0] != s[1] by { SameIncreasing(r, r[el], |r|); }
      }
    } else {
      var j :| 0 <= j < |r| && j != el && r[j] == r[el];
      SameMembers(r, r[el], |r|, j);
    }
  }

  lemma {:induction false} SameMembers(r: seq<int>, cur: int, J: nat, j: int)
    requires J <= |r|
    ensures (0 <= j < J && r[j] == cur) <==> j in SameUpTo(r, cur, J)
  {
    if J > 0 {
      SameMembers(r, cur, J - 1, j);
    }
  }

  lemma {:induction false} SameIncreasing(r: seq<int>, cur: int, J: nat)
    requires J <= |r| && |SameUpTo(r, cur, J)| >= 2
    ensures SameUpTo(r, cur, J)[0] < SameUpTo(r, cur, J)[1]
  {
    var s := SameUpTo(r, cur, J - 1);
    if |s| >= 2 {
      SameIncreasing(r, cur, J - 1);
    } else {
      assert |s| == 1 && SameUpTo(r, cur, J) == s + [J - 1];
    }
  }

  /**
   * The delta costs of element: change[b] is what moving element into
   * bucket b adds to its costs (b <= maxId), add[b] what moving it into a
   * new bucket before bucket b adds (b <= maxId + 1); the last slot of each
   * holds the -1 the insertion search relies on. alone says whether element
   * is alone in its bucket. This is the intended pricing: the source sums
   * the entries left of the element's bucket from bucket 0 instead of from
   * the target bucket (ChangeAsWritten, ForwardSumsMisprice).
   */
  method ComputeDeltaCosts(ranking: seq<int>, element: int, M: Matrix, maxId: int)
    returns (change: seq<int>, add: seq<int>, alone: bool)
    requires Square(M, |ranking|) && 0 <= element < |ranking| && InRange(ranking, maxId)
    ensures 0 <= maxId && |change| == maxId + 2 && change[maxId + 1] == -1
    ensures forall b | 0 <= b <= maxId :: change[b] == Shift(M, ranking, element, Change(b), |ranking|)
    ensures |add| == maxId + 3 && add[maxId + 2] == -1
    ensures forall b | 0 <= b <= maxId + 1 :: add[b] == Shift(M, ranking, element, Insert(b), |ranking|)
    ensures alone == BucketMoves.Alone(ranking, element)
  {
    var cur := ranking[element];
    var dc, da, same := RawDeltas(ranking, element, M, maxId);
    ghost var rawC, rawA := dc[..], da[..];
    TrailingSums(dc, 0, cur);
    ghost var c1 := dc[..];
    RunningSums(dc, cur, maxId + 1);
    TrailingSums(da, 0, cur + 1);
    ghost var a1 := da[..];
    RunningSums(da, cur + 1, maxId + 2);
    dc[dc.Length - 1] := -1;
    da[da.Length - 1] := -1;
    change, add, alone := dc[..], da[..], |same| == 1;
    forall b | 0 <= b <= maxId
      ensures change[b] == Shift(M, ranking, element, Change(b), |ranking|)
    {
      if b < cur {
        assert change[b] == c1[b] == RangeSum(rawC, b, cur);
      } else {
        assert change[b] == RangeSum(c1, cur, b + 1);
        assert RangeSum(c1, cur, b + 1) == RangeSum(rawC, cur, b + 1) by { RangeSame(c1, rawC, cur, b + 1); }
      }
      RangeCol(M, ranking, element, maxId, false, rawC, WinLo(false, cur, b), WinHi(false, cur, b));
      ColShift(M, ranking, element, maxId, false, b, |ranking|);
    }
    forall b | 0 <= b <= maxId + 1
      ensures add[b] == Shift(M, ranking, element, Insert(b), |ranking|)
    {
      if b <= cur {
        assert add[b] == a1[b] == RangeSum(rawA, b, cur + 1);
      } else {
        assert add[b] == RangeSum(a1, cur + 1, b + 1);
        assert RangeSum(a1, cur + 1, b + 1) == RangeSum(rawA, cur + 1, b + 1) by { RangeSame(a1, rawA, cur + 1, b + 1); }
      }
      RangeCol(M, ranking, element, maxId, true, rawA, WinLo(true, cur, b), WinHi(true, cur, b));
      ColShift(M, ranking, element, maxId, true, b, |ranking|);
    }
    SameAlone(ranking, element);
  }
  /**
   * The change costs as BioConsert.java:288-289 compute them: the entries left
   * of el's bucket cur are running sums from bucket 0, where the move to
   * bucket b < cur crosses the buckets b..cur-1.
   */
  function ChangeAsWritten(M: Matrix, r: seq<int>, el: int, maxId: int): (change: seq<int>)
    requires Square(M, |r|) && 0 <= el < |r|
    ensures |change| == maxId + 2 || (maxId < -1 && change == [])
  {
    seq(if maxId < -1 then 0 else maxId + 2, b requires 0 <= b =>
      if b < r[el] then Col(M, r, el, maxId, false, 0, b + 1, |r|)
      else if b <= maxId then Col(M, r, el, maxId, false, r[el], b + 1, |r|)
      else -1)
  }

  /** The insertion costs as BioConsert.java:290-291 compute them, with the same running sums from bucket 0. */
  function AddAsWritten(M: Matrix, r: seq<int>, el: int, maxId: int): (add: seq<int>)
    requires Square(M, |r|) && 0 <= el < |r|
    ensures |add| == maxId + 3 || (maxId < -2 && add == [])
  {
    seq(if maxId < -2 then 0 else maxId + 3, b requires 0 <= b =>
      if b <= r[el] then Col(M, r, el, maxId, true, 0, b + 1, |r|)
      else if b <= maxId + 1 then Col(M, r, el, maxId, true, r[el] + 1, b + 1, |r|)
      else -1)
  }

  /** The source's entries from el's bucket on are the changes of their moves: only the entries before it are wrong. */
  lemma AsWrittenFromCur(M: Matrix, r: seq<int>, el: int, maxId: int, b: int)
    requires Square(M, |r|) && 0 <= el < |r| && InRange(r, maxId)
    ensures r[el] <= b <= maxId ==> ChangeAsWritten(M, r, el, maxId)[b] == Shift(M, r, el, Change(b), |r|)
    ensures r[el] < b <= maxId + 1 ==> AddAsWritten(M, r, el, maxId)[b] == Shift(M, r, el, Insert(b), |r|)
  {
    if r[el] <= b <= maxId {
      ColShift(M, r, el, maxId, false, b, |r|);
    }
    if r[el] < b <= maxId + 1 {
      ColShift(M, r, el, maxId, true, b, |r|);
    }
  }

  /** Three elements in buckets 0, 1, 2, and costs of element 2 that make moving it into bucket 0 look cheaper than it is. */
  function Example(): Matrix
  {
    [[Zero, Costs(3, 1, 2), Costs(3, 0, 3)],
     [Costs(1, 3, 2), Zero, Costs(1, 2, 3)],
     [Costs(0, 3, 3), Costs(2, 1, 3), Zero]]
  }

  /**
   * With the source's running sums, moving element 2 of [0, 1, 2] into
   * bucket 0 is priced at -1, so the change search takes it; the move
   * actually adds 1 to the element's costs and 2 to the doubled distance.
   */
  lemma ForwardSumsMisprice()
    ensures Consistent(Example())
    ensures ChangeAsWritten(Example(), [0, 1, 2], 2, 2)[0] == -1
    ensures Shift(Example(), [0, 1, 2], 2, Change(0), 3) == 1
    ensures Dist2(Example(), [0, 1, 0]) == Dist2(Example(), [0, 1, 2]) + 2
  {
    ExampleConsistent();
    ExampleAsWritten();
    ExampleShift();
    ExampleDistances();
  }

  lemma ExampleAsWritten()
    ensures ChangeAsWritten(Example(), [0, 1, 2], 2, 2)[0] == -1
  {
    var M, r := Example(), [0, 1, 2];
    assert Raw(M, r, 2, 2, false, 0, 1) == 0;
    assert Raw(M, r, 2, 2, false, 0, 2) == -1;
    assert Raw(M, r, 2, 2, false, 0, 3) == -1;
    assert Col(M, r, 2, 2, false, 0, 1, 3) == -1;
    assert ChangeAsWritten(M, r, 2, 2)[0] == Col(M, r, 2, 2, false, 0, 1, 3);
  }

  lemma ExampleShift()
    ensures Square(Example(), 3)
    ensures Shift(Example(), [0, 1, 2], 2, Change(0), 3) == 1
  {
    var M, r := Example(), [0, 1, 2];
    assert Shift(M, r, 2, Change(0), 1) == 0;
    assert Shift(M, r, 2, Change(0), 2) == 1;
  }

  lemma ExampleConsistent()
    ensures Consistent(Example())
  {
    var M := Example();
    assert Square(M, |M|);
    forall i, j | 0 <= i < |M| && 0 <= j < |M|
      ensures M[j][i] == Swap(M[i][j])
    {
      assert i == 0 || i == 1 || i == 2;
      assert j == 0 || j == 1 || j == 2;
    }
  }

  lemma ExampleDistances()
    ensures Square(Example(), 3)
    ensures Dist2(Example(), [0, 1, 2]) == 14
    ensures Dist2(Example(), [0, 1, 0]) == 16
  {
    var M, r, r2 := Example(), [0, 1, 2], [0, 1, 0];
    assert Square(M, 3);
    assert RowCost(M, r, 0, 3) == 6;
    assert RowCost(M, r, 1, 3) == 4;
    assert RowCost(M, r, 2, 3) == 4;
    assert DistUpTo(M, r, 3) == 14;
    assert RowCost(M, r2, 0, 3) == 6;
    assert RowCost(M, r2, 1, 3) == 5;
    assert RowCost(M, r2, 2, 3) == 5;
    assert DistUpTo(M, r2, 3) == 16;
  }
}
