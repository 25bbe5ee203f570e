/**
 * The improvement loop of BioConsert: starting from one ranking, every
 * element in turn moves to the existing bucket, and then into the new
 * bucket, whose delta cost is most negative, until a whole pass moves
 * nothing or a ranking repeats one seen before.
 */
module BioConsertSearch {
  import opened RankCosts
  import opened RankDistance
  import opened BucketMoves
  import opened DeltaCosts

  /** Every bucket below a used bucket is used. */
  ghost predicate Gapless(r: seq<int>)
  {
    forall i | 0 <= i < |r| :: 0 <= r[i] && forall b | 0 <= b < r[i] :: Used(r, b)
  }

  lemma ContiguousGapless(r: seq<int>, top: int)
    requires Contiguous(r, top)
    ensures Gapless(r)
  {
  }

  lemma GaplessContiguous(r: seq<int>, top: int)
    requires Gapless(r) && Used(r, top) && forall i | 0 <= i < |r| :: r[i] <= top
    ensures Contiguous(r, top)
  {
    var k :| 0 <= k < |r| && r[k] == top;
    assert forall b | 0 <= b < top :: Used(r, b) by {
      assert forall b | 0 <= b < r[k] :: Used(r, b);
    }
  }

  /** Every ranking in memo is an n-element ranking at doubled distance at least d. */
  ghost predicate NoCloser(M: Matrix, memo: set<seq<int>>, d: int)
  {
    forall s | s in memo :: Square(M, |s|) && Dist2(M, s) >= d
  }

  /** The largest bucket of a nonempty ranking. */
  method MaxBucket(ranking: array<int>) returns (m: int)
    requires ranking.Length > 0
    ensures Used(ranking[..], m) && forall i | 0 <= i < ranking.Length :: ranking[i] <= m
  {
    m := ranking[0];
    var i := 1;
    while i < ranking.Length
      invariant 1 <= i <= ranking.Length
      invariant Used(ranking[..], m) && forall k | 0 <= k < i :: ranking[k] <= m
    {
      if ranking[i] > m {
        m := ranking[i];
      }
      i := i + 1;
    }
  }

  /** Moving an element into its own bucket changes nothing. */
  lemma {:induction false} ShiftStay(M: Matrix, r: seq<int>, el: int, J: nat)
    requires Square(M, |r|) && 0 <= el < |r| && J <= |r|
    ensures Shift(M, r, el, Change(r[el]), J) == 0
  {
    if J > 0 {
      ShiftStay(M, r, el, J - 1);
    }
  }

  /**
   * No move of el to another existing bucket lowers the distance, and no
   * new bucket for it does better than both staying put and a new bucket
   * just before its own (the one position the insertion search skips).
   */
  ghost predicate Settled(M: Matrix, r: seq<int>, el: int, top: int)
    requires Square(M, |r|) && 0 <= el < |r|
  {
    (forall b | 0 <= b <= top :: Shift(M, r, el, Change(b), |r|) >= 0) &&
    ((forall b | 0 <= b <= top + 1 :: Shift(M, r, el, Insert(b), |r|) >= 0) ||
     (forall b | 0 <= b <= top + 1 :: Shift(M, r, el, Insert(b), |r|) >= Shift(M, r, el, Insert(r[el]), |r|)))
  }

  /**
   * The first half of one step for element el: the best change of bucket,
   * if one lowers the distance. It also returns the insertion delta costs
   * of the ranking it leaves, and whether el is alone in its bucket there.
   */
  method ChangeStep(ranking: array<int>, el: int, M: Matrix, maxId: int, memo: set<seq<int>>)
    returns (maxId2: int, memo2: set<seq<int>>, diff: int, moved: bool, seen: bool, add: seq<int>, alone: bool)
    requires Consistent(M) && |M| == ranking.Length && 0 <= el < ranking.Length && Contiguous(ranking[..], maxId)
    modifies ranking
    ensures Contiguous(ranking[..], maxId2) && memo <= memo2
    ensures Dist2(M, ranking[..]) == Dist2(M, old(ranking[..])) + 2 * diff
    ensures NoCloser(M, memo2 - memo, Dist2(M, ranking[..]))
    ensures moved ==> diff < 0 && ranking[..] in memo2 && !alone
    ensures !moved ==> diff == 0 && !seen && ranking[..] == old(ranking[..]) && maxId2 == maxId && memo2 == memo
    ensures !moved ==> forall b | 0 <= b <= maxId :: Shift(M, ranking[..], el, Change(b), |M|) >= 0
    ensures !seen ==> alone == Alone(ranking[..], el) && |add| == maxId2 + 3 && add[maxId2 + 2] == -1
    ensures !seen ==> forall b | 0 <= b <= maxId2 + 1 :: add[b] == Shift(M, ranking[..], el, Insert(b), |M|)
  {
    var bucketElem := ranking[el];
    ghost var r0 := ranking[..];
    var cha;
    cha, add, alone := ComputeDeltaCosts(ranking[..], el, M, maxId);
    var to, costDiff := SearchToChangeBucket(bucketElem, cha, maxId);
    maxId2, memo2, diff, moved, seen := maxId, memo, 0, false, false;
    if to >= 0 {
      moved := true;
      diff := costDiff;
      maxId2, memo2, seen, add, alone := MoveToBucket(ranking, el, M, maxId, memo, to, alone);
    } else {
      ShiftStay(M, r0, el, |r0|);
      NothingFound(cha, bucketElem, maxId);
    }
  }

  /**
   * The move of ChangeStep: el goes to the existing bucket to; the
   * ranking left is recorded unless it was met before, and its insertion
   * delta costs are computed.
   */
  method MoveToBucket(ranking: array<int>, el: int, M: Matrix, maxId: int, memo: set<seq<int>>, to: int, alone: bool)
    returns (maxId2: int, memo2: set<seq<int>>, seen: bool, add: seq<int>, alone2: bool)
    requires Consistent(M) && |M| == ranking.Length && 0 <= el < ranking.Length && Contiguous(ranking[..], maxId)
    requires 0 <= to <= maxId && to != ranking[el] && alone == Alone(ranking[..], el)
    modifies ranking
    ensures Contiguous(ranking[..], maxId2) && memo <= memo2
    ensures Dist2(M, ranking[..]) == Dist2(M, old(ranking[..])) + 2 * Shift(M, old(ranking[..]), el, Change(to), |M|)
    ensures NoCloser(M, memo2 - memo, Dist2(M, ranking[..]))
    ensures ranking[..] in memo2 && !alone2
    ensures !seen ==> alone2 == Alone(ranking[..], el) && |add| == maxId2 + 3 && add[maxId2 + 2] == -1
    ensures !seen ==> forall b | 0 <= b <= maxId2 + 1 :: add[b] == Shift(M, ranking[..], el, Insert(b), |M|)
  {
    ghost var r0 := ranking[..];
    ChangeBucket(ranking, el, ranking[el], to, alone);
    ChangedMoves(r0, el, to, alone);
    DistChange(M, r0, ranking[..], el, Change(to));
    ChangedContiguous(r0, maxId, el, to, alone);
    maxId2 := if alone then maxId - 1 else maxId;
    var _, add', alone' := ComputeDeltaCosts(ranking[..], el, M, maxId2);
    add, alone2 := add', alone';
    var encoding := ranking[..];
    seen := encoding in memo;
    memo2 := memo + {encoding};
  }

  /**
   * One step of the loop for element el: the best change of bucket, if
   * one lowers the distance, then the best new bucket, if one does. The
   * insertion search still compares against el's bucket before the change.
   * diff is what the two moves add to el's costs, and seen reports that a
   * ranking the moves produced had been met before.
   */
  method ImproveAt(ranking: array<int>, el: int, M: Matrix, maxId: int, memo: set<seq<int>>)
    returns (maxId2: int, memo2: set<seq<int>>, diff: int, moved: bool, seen: bool)
    requires Consistent(M) && |M| == ranking.Length && 0 <= el < ranking.Length && Contiguous(ranking[..], maxId)
    modifies ranking
    ensures Contiguous(ranking[..], maxId2) && memo <= memo2
    ensures Dist2(M, ranking[..]) == Dist2(M, old(ranking[..])) + 2 * diff
    ensures NoCloser(M, memo2 - memo, Dist2(M, ranking[..]))
    ensures moved ==> diff < 0 && ranking[..] in memo2
    ensures !moved ==> diff == 0 && !seen && ranking[..] == old(ranking[..]) && maxId2 == maxId && memo2 == memo
    ensures !moved ==> Settled(M, ranking[..], el, maxId)
  {
    var bucketElem := ranking[el];
    var add, alone;
    maxId2, memo2, diff, moved, seen, add, alone := ChangeStep(ranking, el, M, maxId, memo);
    if seen {
      return;
    }
    ghost var r1 := ranking[..];
    var at, addDiff := SearchToAddBucket(bucketElem, add, maxId2);
    if at >= 0 {
      moved := true;
      diff := diff + addDiff;
      AddBucket(ranking, el, bucketElem, at, alone);
      AddedMoves(r1, el, bucketElem, at, alone);
      DistChange(M, r1, ranking[..], el, Insert(at));
      AddedContiguous(r1, maxId2, el, bucketElem, at, alone);
      var encoding := ranking[..];
      if !alone {
        maxId2 := maxId2 + 1;
      }
      if encoding in memo2 {
        seen := true;
        return;
      }
      memo2 := memo2 + {encoding};
    } else if !moved {
      NothingFound(add, bucketElem, maxId + 1);
    }
  }

  /**
   * Improves ranking in place and returns its distance to the input
   * rankings (half the cost of all ordered pairs). The distance never
   * grows; when the loop ends because a whole pass moved nothing
   * (converged), every element is settled in the final ranking.
   */
  method BioConsert(ranking: array<int>, M: Matrix, memo: set<seq<int>>)
    returns (dst: real, memo2: set<seq<int>>, converged: bool, ghost top: int)
    requires Consistent(M) && |M| == ranking.Length && ranking.Length > 0 && Gapless(ranking[..])
    modifies ranking
    ensures dst == Dist2(M, ranking[..]) as real / 2.0
    ensures Dist2(M, ranking[..]) <= Dist2(M, old(ranking[..]))
    ensures Contiguous(ranking[..], top) && memo <= memo2
    ensures NoCloser(M, memo2 - memo, Dist2(M, ranking[..]))
    ensures converged ==> forall e | 0 <= e < ranking.Length :: Settled(M, ranking[..], e, top)
  {
    var maxId := MaxBucket(ranking);
    GaplessContiguous(ranking[..], maxId);
    top := maxId;
    dst := InitialDistance(ranking[..], M);
    memo2, converged := memo, false;
    ghost var orig := ranking[..];
    ghost var least := LeastUpTo(M, |M|);
    DistAtLeast(M, ranking[..], |M|);
    var improvement := true;
    while improvement
      invariant Contiguous(ranking[..], maxId) && top == maxId && memo <= memo2
      invariant NoCloser(M, memo2 - memo, Dist2(M, ranking[..]))
      invariant dst == Dist2(M, ranking[..]) as real / 2.0
      invariant Dist2(M, ranking[..]) <= Dist2(M, orig)
      invariant Dist2(M, ranking[..]) >= least
      invariant !improvement ==> forall e | 0 <= e < ranking.Length :: Settled(M, ranking[..], e, maxId)
      decreases Dist2(M, ranking[..]) - least + (if improvement then 1 else 0)
    {
      var seen;
      maxId, memo2, dst, improvement, seen := Pass(ranking, M, maxId, memo, memo2, dst, orig);
      top := maxId;
      if seen {
        return;
      }
      DistAtLeast(M, ranking[..], |M|);
    }
    converged := true;
  }

  /**
   * One pass of BioConsert's outer loop: ImproveAt for every element in
   * turn, stopping early when a ranking met before comes back (seen).
   * improvement reports that some element moved.
   */
  method Pass(ranking: array<int>, M: Matrix, maxId: int, ghost memo: set<seq<int>>, memo2: set<seq<int>>, dst: real,
              ghost orig: seq<int>)
    returns (maxId': int, memo2': set<seq<int>>, dst': real, improvement: bool, seen: bool)
    requires Consistent(M) && |M| == ranking.Length
    requires Contiguous(ranking[..], maxId) && memo <= memo2
    requires NoCloser(M, memo2 - memo, Dist2(M, ranking[..]))
    requires dst == Dist2(M, ranking[..]) as real / 2.0
    requires |orig| == ranking.Length && Dist2(M, ranking[..]) <= Dist2(M, orig)
    modifies ranking
    ensures Contiguous(ranking[..], maxId') && memo <= memo2'
    ensures NoCloser(M, memo2' - memo, Dist2(M, ranking[..]))
    ensures dst' == Dist2(M, ranking[..]) as real / 2.0
    ensures Dist2(M, ranking[..]) <= Dist2(M, orig)
    ensures improvement ==> Dist2(M, ranking[..]) <= Dist2(M, old(ranking[..])) - 2
    ensures !improvement ==> ranking[..] == old(ranking[..]) && maxId' == maxId
    ensures !improvement && !seen ==> forall e | 0 <= e < ranking.Length :: Settled(M, ranking[..], e, maxId')
  {
    maxId', memo2', dst', improvement, seen := maxId, memo2, dst, false, false;
    ghost var start := ranking[..];
    var el := 0;
    while el < ranking.Length
      invariant 0 <= el <= ranking.Length
      invariant Contiguous(ranking[..], maxId') && memo <= memo2'
      invariant NoCloser(M, memo2' - memo, Dist2(M, ranking[..]))
      invariant dst' == Dist2(M, ranking[..]) as real / 2.0
      invariant Dist2(M, ranking[..]) <= Dist2(M, orig)
      invariant improvement ==> Dist2(M, ranking[..]) <= Dist2(M, start) - 2
      invariant !improvement ==> ranking[..] == start && maxId' == maxId
      invariant !improvement ==> forall e | 0 <= e < el :: Settled(M, ranking[..], e, maxId')
    {
      var diff, moved;
      maxId', memo2', diff, moved, seen := ImproveAt(ranking, el, M, maxId', memo2');
      dst' := dst' + diff as real;
      if moved {
        improvement := true;
      }
      if seen {
        return;
      }
      el := el + 1;
    }
  }
}
