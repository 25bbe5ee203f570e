/**
 * The inputs of the median ranking: score maps (score to the elements
 * with that score) turned into bucket rankings, canonical ids 0..n-1 for
 * the elements, and one departure ranking per input ranking: an int row
 * giving each element's bucket, with elements a ranking lacks placed in a
 * last bucket of their own.
 */
module Departures {
  import opened Wrappers
  import BucketMoves
  import BioConsertSearch

  /** A score map or a bucket ranking: key to the set of elements it holds. */
  type Buckets = map<int, set<int>>

  ghost predicate Increasing(ks: seq<int>)
  {
    forall i, j | 0 <= i < j < |ks| :: ks[i] < ks[j]
  }

  /** x sits in some bucket of R. */
  ghost predicate Listed(R: Buckets, x: int)
  {
    exists k :: k in R && x in R[k]
  }

  /** No element sits in two buckets. */
  ghost predicate Disjoint(R: Buckets)
  {
    forall a, b, x | a in R && b in R && x in R[a] && x in R[b] :: a == b
  }

  lemma SameBucket(R: Buckets, a: int, b: int, x: int)
    requires Disjoint(R) && a in R && b in R && x in R[a] && x in R[b]
    ensures a == b
  {
  }

  /** No bucket is empty. */
  ghost predicate NoEmpty(R: Buckets)
  {
    forall k | k in R :: R[k] != {}
  }

  /** The largest element of a nonempty set (the source's Collections.max). */
  method Largest(s: set<int>) returns (m: int)
    requires s != {}
    ensures m in s && forall y | y in s :: y <= m
  {
    m := Pick(s);
    var rest := s - {m};
    while rest != {}
      invariant rest <= s && m in s
      invariant forall y | y in s && y !in rest :: y <= m
      decreases |rest|
    {
      var x := Pick(rest);
      if x > m {
        m := x;
      }
      rest := rest - {x};
    }
  }

  /** The keys in increasing order (the source sorts an array of them). */
  method SortedKeys(keys: set<int>) returns (ks: seq<int>)
    ensures Increasing(ks) && |ks| == |keys|
    ensures forall k :: k in keys <==> k in ks
    ensures forall j | 0 <= j < |ks| :: ks[j] in keys
  {
    ks := [];
    var rest := keys;
    while rest != {}
      invariant rest <= keys && Increasing(ks) && |ks| + |rest| == |keys|
      invariant forall k :: k in keys <==> k in rest || k in ks
      invariant forall k, i | k in rest && 0 <= i < |ks| :: k < ks[i]
      invariant forall j | 0 <= j < |ks| :: ks[j] in keys
      decreases |rest|
    {
      var m := Largest(rest);
      ks := [m] + ks;
      rest := rest - {m};
    }
  }

  /**
   * R is the ranking of scores: bucket i holds the elements with the i-th
   * score of ks, counted from the highest when reverse and from the lowest
   * otherwise.
   */
  ghost predicate Ranked(R: Buckets, scores: Buckets, ks: seq<int>, reverse: bool)
  {
    (forall k :: k in scores <==> k in ks) &&
    (forall i :: i in R <==> 0 <= i < |ks|) &&
    (forall i | 0 <= i < |ks| :: R[i] == scores[ks[if reverse then |ks| - 1 - i else i]])
  }

  /**
   * The ranking of a score map as the source builds it: both branches put
   * the i-th lowest score into bucket i, so reverse changes only the order
   * in which the buckets are written.
   */
  method FromScoreToRankAsWritten(scores: Buckets, reverse: bool) returns (R: Buckets, ks: seq<int>)
    ensures Increasing(ks) && Ranked(R, scores, ks, false)
  {
    ks := SortedKeys(scores.Keys);
    R := map[];
    if reverse {
      var i := |ks| - 1;
      while i >= 0
        invariant -1 <= i < |ks|
        invariant forall j :: j in R <==> i < j < |ks|
        invariant forall j | i < j < |ks| :: R[j] == scores[ks[j]]
      {
        R := R[i := scores[ks[i]]];
        i := i - 1;
      }
      return;
    }
    var i := 0;
    while i < |ks|
      invariant 0 <= i <= |ks|
      invariant forall j :: j in R <==> 0 <= j < i
      invariant forall j | 0 <= j < i :: R[j] == scores[ks[j]]
    {
      R := R[i := scores[ks[i]]];
      i := i + 1;
    }
  }

  /** The ranking of a score map: the highest score first when reverse, the lowest first otherwise. */
  method FromScoreToRank(scores: Buckets, reverse: bool) returns (R: Buckets, ks: seq<int>)
    ensures Increasing(ks) && Ranked(R, scores, ks, reverse)
  {
    ks := SortedKeys(scores.Keys);
    R := map[];
    if reverse {
      var i := |ks| - 1;
      while i >= 0
        invariant -1 <= i < |ks|
        invariant forall j :: j in R <==> 0 <= j < |ks| - 1 - i
        invariant forall j | 0 <= j < |ks| - 1 - i :: R[j] == scores[ks[|ks| - 1 - j]]
      {
        R := R[|ks| - 1 - i := scores[ks[i]]];
        i := i - 1;
      }
      return;
    }
    var i := 0;
    while i < |ks|
      invariant 0 <= i <= |ks|
      invariant forall j :: j in R <==> 0 <= j < i
      invariant forall j | 0 <= j < i :: R[j] == scores[ks[j]]
    {
      R := R[i := scores[ks[i]]];
      i := i + 1;
    }
  }

  /**
   * In a ranking of scores whose elements each have one score, an element
   * in an earlier bucket has the higher score when reverse and the lower
   * score otherwise.
   */
  lemma RankedOrder(R: Buckets, scores: Buckets, ks: seq<int>, reverse: bool, i: int, j: int, x: int, y: int, sx: int, sy: int)
    requires Increasing(ks) && Ranked(R, scores, ks, reverse) && Disjoint(scores)
    requires 0 <= i < j < |ks| && x in R[i] && y in R[j]
    requires sx in scores && x in scores[sx] && sy in scores && y in scores[sy]
    ensures if reverse then sx > sy else sx < sy
  {
    var n := |ks|;
    if reverse {
      assert x in scores[ks[n - 1 - i]] && y in scores[ks[n - 1 - j]];
      assert sx == ks[n - 1 - i] && sy == ks[n - 1 - j];
    } else {
      assert x in scores[ks[i]] && y in scores[ks[j]];
      assert sx == ks[i] && sy == ks[j];
    }
  }

  /**
   * The ranking as the source builds it for reverse = true: with scores
   * 1 for element 7 and 2 for element 8, bucket 0 holds 7, the lower
   * score, where reverse asks for 8 first.
   */
  lemma ReverseIgnored(R: Buckets, R': Buckets, ks: seq<int>)
    requires Increasing(ks) && Ranked(R, map[1 := {7}, 2 := {8}], ks, false)
    requires Ranked(R', map[1 := {7}, 2 := {8}], ks, true)
    ensures 0 in R && R[0] == {7} && 0 in R' && R'[0] == {8}
  {
    var scores := map[1 := {7}, 2 := {8}];
    assert scores.Keys == {1, 2};
    DistinctCount(ks, scores.Keys);
    assert ks[0] < ks[1];
    assert ks[0] in scores && ks[1] in scores;
    assert ks == [1, 2];
  }

  /** A ranking of scores keeps the buckets' contents: nonempty and disjoint buckets, the same elements. */
  lemma RankedKeeps(R: Buckets, scores: Buckets, ks: seq<int>, reverse: bool)
    requires Increasing(ks) && Ranked(R, scores, ks, reverse)
    ensures NoEmpty(scores) ==> NoEmpty(R)
    ensures Disjoint(scores) ==> Disjoint(R)
    ensures forall x :: Listed(R, x) <==> Listed(scores, x)
  {
    var n := |ks|;
    if Disjoint(scores) {
      forall a, b, x | a in R && b in R && x in R[a] && x in R[b]
        ensures a == b
      {
        var ia := if reverse then n - 1 - a else a;
        var ib := if reverse then n - 1 - b else b;
        assert x in scores[ks[ia]] && x in scores[ks[ib]];
        assert ks[ia] == ks[ib];
      }
    }
    forall x
      ensures Listed(R, x) <==> Listed(scores, x)
    {
      if Listed(R, x) {
        var i :| i in R && x in R[i];
        var s := ks[if reverse then n - 1 - i else i];
        assert s in scores && x in scores[s];
      }
      if Listed(scores, x) {
        var s :| s in scores && x in scores[s];
        var p :| 0 <= p < n && ks[p] == s;
        var i := if reverse then n - 1 - p else p;
        assert i in R && R[i] == scores[s];
      }
    }
  }

  lemma RankedKey(R: Buckets, scores: Buckets, ks: seq<int>, reverse: bool, k: int)
    requires Ranked(R, scores, ks, reverse)
    ensures k in scores <==> k in ks
  {
  }

  /** A ranking of scores numbers its buckets from 0, and is empty exactly when the score map is. */
  lemma RankedShape(R: Buckets, scores: Buckets, ks: seq<int>, reverse: bool)
    requires Ranked(R, scores, ks, reverse)
    ensures Dense(R) && (R == map[] <==> scores == map[])
  {
    if scores != map[] {
      var k := Member(scores.Keys);
      RankedKey(R, scores, ks, reverse, k);
      assert 0 in R;
    }
    if R != map[] {
      var i := Member(R.Keys);
      assert i in R;
      RankedKey(R, scores, ks, reverse, ks[0]);
    }
  }

  /** An increasing sequence has as many entries as the set of its entries. */
  lemma {:induction false} DistinctCount(ks: seq<int>, s: set<int>)
    requires Increasing(ks) && forall k :: k in s <==> k in ks
    ensures |s| == |ks|
  {
    if |ks| > 0 {
      var last := ks[|ks| - 1];
      var init := ks[..|ks| - 1];
      assert forall i | 0 <= i < |init| :: init[i] < last;
      assert last !in init;
      assert forall k :: k in s - {last} <==> k in init by {
        assert ks == init + [last];
      }
      DistinctCount(init, s - {last});
    } else {
      assert forall k :: k !in s;
      assert s == {};
    }
  }

  /** The elements of all buckets (the source walks them, skipping repeats). */
  method Elements(R: Buckets) returns (u: set<int>)
    ensures forall x :: x in u <==> Listed(R, x)
  {
    u := {};
    var rest := R.Keys;
    while rest != {}
      invariant rest <= R.Keys
      invariant forall x :: x in u <==> exists k :: k in R && k !in rest && x in R[k]
      decreases |rest|
    {
      var k := Pick(rest);
      u := u + R[k];
      rest := rest - {k};
    }
  }

  /** elemId and idElem are inverse: ids 0..n-1 for n elements. */
  ghost predicate Canonical(elemId: map<int, int>, idElem: seq<int>)
  {
    (forall j | 0 <= j < |idElem| :: idElem[j] in elemId && elemId[idElem[j]] == j) &&
    (forall x | x in elemId :: 0 <= elemId[x] < |idElem| && idElem[elemId[x]] == x)
  }

  /** Canonical ids for the elements of u, in the order they are met. */
  method Enumerate(u: set<int>) returns (elemId: map<int, int>, idElem: seq<int>)
    ensures Canonical(elemId, idElem) && |idElem| == |u|
    ensures forall x :: x in elemId <==> x in u
  {
    elemId, idElem := map[], [];
    var rest := u;
    while rest != {}
      invariant rest <= u && Canonical(elemId, idElem) && |idElem| + |rest| == |u|
      invariant forall x :: x in elemId <==> x in u && x !in rest
      decreases |rest|
    {
      var v := Pick(rest);
      elemId := elemId[v := |idElem|];
      idElem := idElem + [v];
      rest := rest - {v};
    }
  }

  /**
   * row is the departure ranking of R: each element sits in its bucket of
   * R, and elements R lacks sit in bucket 1 + the largest key of R.
   */
  ghost predicate DepartureOf(R: Buckets, idElem: seq<int>, row: seq<int>)
  {
    R != map[] && |row| == |idElem| &&
    (forall j, k | 0 <= j < |row| && k in R && idElem[j] in R[k] :: row[j] == k) &&
    (forall j | 0 <= j < |row| :: row[j] == MaxOf(R.Keys) + 1 || (row[j] in R && idElem[j] in R[row[j]]))
  }

  /** Writes bucket k for every element of bucket into row. */
  method PlaceBucket(row: array<int>, k: int, bucket: set<int>, elemId: map<int, int>, idElem: seq<int>)
    requires Canonical(elemId, idElem) && row.Length == |idElem| && forall x | x in bucket :: x in elemId
    modifies row
    ensures forall j | 0 <= j < row.Length :: row[j] == if idElem[j] in bucket then k else old(row[j])
  {
    var rest := bucket;
    while rest != {}
      invariant rest <= bucket
      invariant forall j | 0 <= j < row.Length :: row[j] == if idElem[j] in bucket && idElem[j] !in rest then k else old(row[j])
      decreases |rest|
    {
      var x := Pick(rest);
      row[elemId[x]] := k;
      rest := rest - {x};
    }
  }

  /** The departure ranking of one nonempty ranking. */
  method DepartureRow(R: Buckets, elemId: map<int, int>, idElem: seq<int>) returns (row: seq<int>)
    requires R != map[] && Canonical(elemId, idElem) && Disjoint(R)
    requires forall x | Listed(R, x) :: x in elemId
    ensures DepartureOf(R, idElem, row)
  {
    var maxRank := Largest(R.Keys);
    maxRank := maxRank + 1;
    assert maxRank == MaxOf(R.Keys) + 1;
    var a := new int[|idElem|](_ => maxRank);
    var rest := R.Keys;
    while rest != {}
      invariant rest <= R.Keys && a.Length == |idElem|
      invariant forall j, k | 0 <= j < a.Length && k in R && k !in rest && idElem[j] in R[k] :: a[j] == k
      invariant forall j | 0 <= j < a.Length :: a[j] == maxRank || (a[j] in R && a[j] !in rest && idElem[j] in R[a[j]])
      decreases |rest|
    {
      var k := Pick(rest);
      ghost var before := a[..];
      assert forall j, k | 0 <= j < a.Length && k in R && k !in rest && idElem[j] in R[k] :: before[j] == k;
      PlaceBucket(a, k, R[k], elemId, idElem);
      forall j, k' | 0 <= j < a.Length && k' in R && k' !in rest - {k} && idElem[j] in R[k']
        ensures a[j] == k'
      {
        if idElem[j] in R[k] {
          SameBucket(R, k, k', idElem[j]);
        } else {
          assert k' != k && a[j] == before[j];
        }
      }
      rest := rest - {k};
    }
    row := a[..];
  }

  /** The departure rankings of nonempty rankings, one row each. */
  method DepartureRankings(rankings: seq<Buckets>, elemId: map<int, int>, idElem: seq<int>) returns (dep: seq<seq<int>>)
    requires Canonical(elemId, idElem)
    requires forall i | 0 <= i < |rankings| :: rankings[i] != map[] && Disjoint(rankings[i])
    requires forall i, x | 0 <= i < |rankings| && Listed(rankings[i], x) :: x in elemId
    ensures |dep| == |rankings| && forall i | 0 <= i < |rankings| :: DepartureOf(rankings[i], idElem, dep[i])
  {
    dep := [];
    var id := 0;
    while id < |rankings|
      invariant 0 <= id <= |rankings| && |dep| == id
      invariant forall i | 0 <= i < id :: DepartureOf(rankings[i], idElem, dep[i])
    {
      var row := DepartureRow(rankings[id], elemId, idElem);
      dep := dep + [row];
      id := id + 1;
    }
  }

  /** The buckets are numbered from 0 without gaps. */
  ghost predicate Dense(R: Buckets)
  {
    forall i | i in R :: 0 <= i && forall j | 0 <= j < i :: j in R
  }

  /**
   * A departure ranking of buckets 0..K-1, none empty, over elements that
   * all have ids uses every bucket up to its largest: the form the
   * improvement loop starts from.
   */
  lemma DepartureGapless(R: Buckets, idElem: seq<int>, elemId: map<int, int>, row: seq<int>)
    requires DepartureOf(R, idElem, row) && Canonical(elemId, idElem) && NoEmpty(R) && Dense(R)
    requires forall x | Listed(R, x) :: x in elemId
    ensures BioConsertSearch.Gapless(row)
  {
    var K := MaxOf(R.Keys) + 1;
    forall b | 0 <= b < K
      ensures BucketMoves.Used(row, b)
    {
      assert b in R;
      var x := Member(R[b]);
      assert Listed(R, x);
      var j := elemId[x];
      assert row[j] == b;
    }
  }
}
