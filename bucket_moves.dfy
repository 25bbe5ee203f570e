/**
 * The two moves of BioConsert on a bucket ranking held in an int array
 * (entry i is the bucket of element i, bucket 0 first): `changeBucket`
 * moves an element into another existing bucket, `addBucket` moves it into
 * a new bucket of its own; and the searches that pick the move.
 */
module BucketMoves {
  import opened RankCosts
  import opened RankDistance

  /** The buckets used are exactly 0..top. */
  ghost predicate Contiguous(r: seq<int>, top: int)
  {
    (forall i | 0 <= i < |r| :: 0 <= r[i] <= top) &&
    (forall b | 0 <= b <= top :: Used(r, b))
  }

  /** Some element sits in bucket b. */
  ghost predicate Used(r: seq<int>, b: int)
  {
    exists i :: 0 <= i < |r| && r[i] == b
  }

  /** No other element shares el's bucket. */
  ghost predicate Alone(r: seq<int>, el: int)
    requires 0 <= el < |r|
  {
    forall j | 0 <= j < |r| && j != el :: r[j] != r[el]
  }

  /** The ranking after el moves to bucket newPos; if el was alone, the buckets after oldPos close the gap. */
  function Changed(r: seq<int>, el: int, oldPos: int, newPos: int, alone: bool): (r2: seq<int>)
    ensures |r2| == |r|
  {
    seq(|r|, i requires 0 <= i < |r| =>
      var v := if i == el then newPos else r[i];
      if alone && v > oldPos then v - 1 else v)
  }

  /** Moves element into bucket newPos, closing the gap its old bucket leaves when it was alone there. */
  method ChangeBucket(ranking: array<int>, element: int, oldPos: int, newPos: int, alone: bool)
    requires 0 <= element < ranking.Length
    modifies ranking
    ensures ranking[..] == Changed(old(ranking[..]), element, oldPos, newPos, alone)
  {
    ranking[element] := newPos;
    if alone {
      ghost var before := ranking[..];
      var i := 0;
      while i < ranking.Length
        invariant 0 <= i <= ranking.Length
        invariant forall k | 0 <= k < ranking.Length ::
          ranking[k] == if k < i && before[k] > oldPos then before[k] - 1 else before[k]
      {
        if ranking[i] > oldPos {
          ranking[i] := ranking[i] - 1;
        }
        i := i + 1;
      }
    }
  }

  /** The ranking after el moves into a new bucket inserted before bucket newPos. */
  function Added(r: seq<int>, el: int, oldPos: int, newPos: int, alone: bool): (r2: seq<int>)
    ensures |r2| == |r|
  {
    seq(|r|, i requires 0 <= i < |r| =>
      if !alone then
        (if i == el then newPos else if r[i] >= newPos then r[i] + 1 else r[i])
      else if oldPos < newPos then
        (if i == el then newPos - 1 else if oldPos < r[i] < newPos then r[i] - 1 else r[i])
      else
        (if i == el then newPos else if newPos <= r[i] < oldPos then r[i] + 1 else r[i]))
  }

  /**
   * Moves element into a new bucket before bucket newPos: the buckets from
   * newPos on shift up; if element was alone, only the buckets between its
   * old and new place shift, towards the gap it leaves.
   */
  method AddBucket(ranking: array<int>, element: int, oldPos: int, newPos: int, alone: bool)
    requires 0 <= element < ranking.Length
    modifies ranking
    ensures ranking[..] == Added(old(ranking[..]), element, oldPos, newPos, alone)
  {
    ghost var before := ranking[..];
    if !alone {
      var j := 0;
      while j < ranking.Length
        invariant 0 <= j <= ranking.Length
        invariant forall k | 0 <= k < ranking.Length ::
          ranking[k] == if k < j && before[k] >= newPos then before[k] + 1 else before[k]
      {
        if ranking[j] >= newPos {
          ranking[j] := ranking[j] + 1;
        }
        j := j + 1;
      }
      ranking[element] := newPos;
      return;
    }
    if oldPos < newPos {
      var j := 0;
      while j < ranking.Length
        invariant 0 <= j <= ranking.Length
        invariant forall k | 0 <= k < ranking.Length ::
          ranking[k] == if k < j && oldPos < before[k] < newPos then before[k] - 1 else before[k]
      {
        if ranking[j] > oldPos && ranking[j] < newPos {
          ranking[j] := ranking[j] - 1;
        }
        j := j + 1;
      }
      ranking[element] := newPos - 1;
    } else {
      var j := 0;
      while j < ranking.Length
        invariant 0 <= j <= ranking.Length
        invariant forall k | 0 <= k < ranking.Length ::
          ranking[k] == if k < j && newPos <= before[k] < oldPos then before[k] + 1 else before[k]
      {
        if ranking[j] >= newPos && ranking[j] < oldPos {
          ranking[j] := ranking[j] + 1;
        }
        j := j + 1;
      }
      ranking[element] := newPos;
    }
  }

  /** Changing el's bucket is a move: el now stands against every other element as bucket newPos does, and nothing else changes. */
  lemma ChangedMoves(r: seq<int>, el: int, newPos: int, alone: bool)
    requires 0 <= el < |r| && alone == Alone(r, el) && newPos != r[el]
    ensures MovedBy(r, Changed(r, el, r[el], newPos, alone), el, Change(newPos))
  {
  }

  /** Changing el's bucket to an existing one keeps the buckets contiguous, one fewer when el was alone, and el is then not alone. */
  lemma ChangedContiguous(r: seq<int>, top: int, el: int, newPos: int, alone: bool)
    requires 0 <= el < |r| && Contiguous(r, top) && alone == Alone(r, el)
    requires 0 <= newPos <= top && newPos != r[el]
    ensures Contiguous(Changed(r, el, r[el], newPos, alone), if alone then top - 1 else top)
    ensures !Alone(Changed(r, el, r[el], newPos, alone), el)
  {
    var was := r[el];
    var r2 := Changed(r, el, was, newPos, alone);
    var top2 := if alone then top - 1 else top;
    forall b | 0 <= b <= top2
      ensures Used(r2, b)
    {
      var b0 := if alone && b >= was then b + 1 else b;
      assert Used(r, b0);
      var i :| 0 <= i < |r| && r[i] == b0;
      if i == el {
        assert !alone;
        var k :| 0 <= k < |r| && k != el && r[k] == r[el];
        assert r2[k] == b;
      } else {
        assert r2[i] == b;
      }
    }
    assert Used(r, newPos);
    var j :| 0 <= j < |r| && r[j] == newPos;
    assert j != el && r2[j] == r2[el];
  }

  /** Inserting a bucket for el is a move: el now comes before exactly the elements in buckets from newPos on. */
  lemma AddedMoves(r: seq<int>, el: int, oldPos: int, newPos: int, alone: bool)
    requires 0 <= el < |r| && alone == Alone(r, el) && (alone ==> oldPos == r[el])
    ensures MovedBy(r, Added(r, el, oldPos, newPos, alone), el, Insert(newPos))
  {
  }

  /** Inserting a bucket keeps the buckets contiguous, one more unless el was alone. */
  lemma AddedContiguous(r: seq<int>, top: int, el: int, oldPos: int, newPos: int, alone: bool)
    requires 0 <= el < |r| && Contiguous(r, top) && alone == Alone(r, el) && (alone ==> oldPos == r[el])
    requires 0 <= newPos <= top + 1
    ensures Contiguous(Added(r, el, oldPos, newPos, alone), if alone then top else top + 1)
  {
    var r2 := Added(r, el, oldPos, newPos, alone);
    var top2 := if alone then top else top + 1;
    forall b | 0 <= b <= top2
      ensures Used(r2, b)
    {
      if (alone && oldPos < newPos && b == newPos - 1) || (!(alone && oldPos < newPos) && b == newPos) {
        assert r2[el] == b;
      } else {
        var b0 :=
          if !alone then (if b > newPos then b - 1 else b)
          else if oldPos < newPos then (if oldPos <= b < newPos - 1 then b + 1 else b)
          else (if newPos < b <= oldPos then b - 1 else b);
        assert Used(r, b0);
        var i :| 0 <= i < |r| && r[i] == b0;
        if i == el {
          assert !alone;
          var k :| 0 <= k < |r| && k != el && r[k] == r[el];
          assert r2[k] == b;
        } else {
          assert r2[i] == b;
        }
      }
    }
  }

  /** p is the first position of the smallest cost, and that cost is negative. */
  ghost predicate FirstLeast(costs: seq<int>, p: int)
  {
    0 <= p < |costs| && costs[p] < 0 &&
    (forall i | 0 <= i < |costs| :: costs[p] <= costs[i]) &&
    (forall i | 0 <= i < p :: costs[p] < costs[i])
  }

  lemma FirstLeastUnique(costs: seq<int>, p: int, q: int)
    requires FirstLeast(costs, p) && FirstLeast(costs, q)
    ensures p == q
  {
  }

  /** p is the first position of the smallest cost. */
  ghost predicate FirstSmallest(costs: seq<int>, p: int)
  {
    0 <= p < |costs| &&
    (forall i | 0 <= i < |costs| :: costs[p] <= costs[i]) &&
    (forall i | 0 <= i < p :: costs[p] < costs[i])
  }

  /** A nonempty cost array has a first smallest position. */
  lemma {:induction false} FirstSmallestExists(costs: seq<int>) returns (p: int)
    requires |costs| > 0
    ensures FirstSmallest(costs, p)
  {
    if |costs| == 1 {
      return 0;
    }
    var init := costs[..|costs| - 1];
    var q := FirstSmallestExists(init);
    var last := |costs| - 1;
    assert forall i | 0 <= i < last :: init[i] == costs[i];
    p := if costs[last] < costs[q] then last else q;
  }

  /**
   * When a search finds nothing in costs whose last slot top + 1 is the
   * -1 sentinel, no entry up to top is negative, or the first smallest entry
   * is the element's own bucket.
   */
  lemma NothingFound(costs: seq<int>, buck: int, top: int)
    requires -1 <= top && top + 2 == |costs| && costs[top + 1] == -1
    requires forall p | FirstLeast(costs, p) :: p == buck || p > top
    ensures (forall b | 0 <= b <= top :: costs[b] >= 0) || FirstLeast(costs, buck)
  {
    var p := FirstSmallestExists(costs);
    assert FirstLeast(costs, p);
    if p != buck {
      assert p == top + 1;
    }
  }

  /** The first smallest cost of the array, if any cost is negative (the scan both searches share). */
  method LeastNegative(costs: seq<int>) returns (found: bool, pos: int)
    ensures found ==> FirstLeast(costs, pos)
    ensures !found ==> forall i | 0 <= i < |costs| :: costs[i] >= 0
  {
    var maxCost := 0;
    found, pos := false, 0;
    var i := 0;
    while i < |costs|
      invariant 0 <= i <= |costs|
      invariant !found ==> maxCost == 0 && forall k | 0 <= k < i :: costs[k] >= 0
      invariant found ==> 0 <= pos < i && maxCost == costs[pos] < 0
      invariant found ==> (forall k | 0 <= k < i :: costs[pos] <= costs[k]) && (forall k | 0 <= k < pos :: costs[pos] < costs[k])
    {
      if costs[i] < 0 && costs[i] < maxCost {
        maxCost := costs[i];
        found, pos := true, i;
      }
      i := i + 1;
    }
  }

  /**
   * The bucket to move an element to: the first position of the most
   * negative change cost, unless it is the element's own bucket or beyond
   * the last bucket; (-1, 0) when there is none.
   */
  method SearchToChangeBucket(buck: int, costs: seq<int>, maxId: int) returns (to: int, diff: int)
    ensures (to == -1 && diff == 0) || (0 <= to <= maxId && to != buck && FirstLeast(costs, to) && diff == costs[to])
    ensures to == -1 ==> forall p | FirstLeast(costs, p) :: p == buck || p > maxId
  {
    var found, pos := LeastNegative(costs);
    var newPos := if found then pos else maxId + 1;
    if newPos != buck && newPos <= maxId {
      return newPos, costs[newPos];
    }
    forall p | FirstLeast(costs, p)
      ensures p == buck || p > maxId
    {
      FirstLeastUnique(costs, p, pos);
    }
    return -1, 0;
  }

  /**
   * The position of the new bucket to move an element into: the first
   * position of the most negative insertion cost, unless it is the
   * element's own bucket or beyond one past the last bucket; (-1, 0) when
   * there is none. The source reads `costs[-1]` when no cost is negative,
   * so a caller passes costs whose last entry is negative.
   */
  method SearchToAddBucket(buck: int, costs: seq<int>, maxId: int) returns (to: int, diff: int)
    requires |costs| > 0 && costs[|costs| - 1] < 0
    ensures (to == -1 && diff == 0) || (0 <= to <= maxId + 1 && to != buck && FirstLeast(costs, to) && diff == costs[to])
    ensures to == -1 ==> forall p | FirstLeast(costs, p) :: p == buck || p > maxId + 1
  {
    var found, pos := LeastNegative(costs);
    assert found;
    if pos != buck && pos <= maxId + 1 {
      return pos, costs[pos];
    }
    forall p | FirstLeast(costs, p)
      ensures p == buck || p > maxId + 1
    {
      FirstLeastUnique(costs, p, pos);
    }
    return -1, 0;
  }
}
