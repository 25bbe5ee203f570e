/**
 * The median ranking of the connected components: four score maps (size,
 * vertices, s and landmarks per component) become rankings, then
 * departure rankings over canonical ids; each distinct departure ranking
 * is improved by BioConsert, and the closest result, regrouped into
 * buckets of component ids, is the median.
 */
module MedianRanking {
  import opened Wrappers
  import opened RankCosts
  import opened RankDistance
  import opened BucketMoves
  import opened BioConsertSearch
  import opened Departures

  /** The elements (idElem[el]) of the first n entries of row whose bucket is b, in id order. */
  function MembersOf(row: seq<int>, idElem: seq<int>, b: int, n: nat): (s: seq<int>)
    requires n <= |row| <= |idElem|
    ensures |s| <= n
  {
    if n == 0 then [] else MembersOf(row, idElem, b, n - 1) + (if row[n - 1] == b then [idElem[n - 1]] else [])
  }

  lemma {:induction false} MembersIn(row: seq<int>, idElem: seq<int>, b: int, n: nat, x: int)
    requires n <= |row| <= |idElem|
    ensures x in MembersOf(row, idElem, b, n) <==> exists el :: 0 <= el < n && row[el] == b && idElem[el] == x
  {
    if n > 0 {
      MembersIn(row, idElem, b, n - 1, x);
    }
  }

  /** Bucket b holds some element of row exactly when b is used. */
  lemma MembersUsed(row: seq<int>, idElem: seq<int>, b: int)
    requires |row| == |idElem|
    ensures MembersOf(row, idElem, b, |row|) != [] <==> Used(row, b)
  {
    var s := MembersOf(row, idElem, b, |row|);
    if s != [] {
      MembersIn(row, idElem, b, |row|, s[0]);
    }
    if Used(row, b) {
      var el :| 0 <= el < |row| && row[el] == b;
      MembersIn(row, idElem, b, |row|, idElem[el]);
    }
  }

  /** out lists the buckets of row in increasing order, each as the elements it holds. */
  ghost predicate Groups(out: seq<seq<int>>, row: seq<int>, idElem: seq<int>, ks: seq<int>)
    requires |row| == |idElem|
  {
    Increasing(ks) && |out| == |ks| &&
    (forall b :: b in ks <==> Used(row, b)) &&
    (forall i | 0 <= i < |ks| :: out[i] == MembersOf(row, idElem, ks[i], |row|))
  }

  /** dict maps each bucket used by the first n entries of row to its elements. */
  ghost predicate BucketsUpTo(dict: map<int, seq<int>>, row: seq<int>, idElem: seq<int>, n: nat)
    requires n <= |row| <= |idElem|
  {
    (forall b :: b in dict <==> MembersOf(row, idElem, b, n) != []) &&
    (forall b | b in dict :: dict[b] == MembersOf(row, idElem, b, n))
  }

  /** Appends element el to its bucket, extending the grouping by one entry. */
  method AddToBucket(dict0: map<int, seq<int>>, row: seq<int>, idElem: seq<int>, el: nat) returns (dict: map<int, seq<int>>)
    requires el < |row| <= |idElem| && BucketsUpTo(dict0, row, idElem, el)
    ensures BucketsUpTo(dict, row, idElem, el + 1)
  {
    var b := row[el];
    var tmp := if b in dict0 then dict0[b] else [];
    dict := dict0[b := tmp + [idElem[el]]];
    forall c
      ensures c in dict <==> MembersOf(row, idElem, c, el + 1) != []
      ensures c in dict ==> dict[c] == MembersOf(row, idElem, c, el + 1)
    {
      assert MembersOf(row, idElem, c, el + 1) == MembersOf(row, idElem, c, el) + (if b == c then [idElem[el]] else []);
    }
  }

  /** No entry, no bucket. */
  lemma BucketsEmpty(row: seq<int>, idElem: seq<int>)
    requires |row| <= |idElem|
    ensures BucketsUpTo(map[], row, idElem, 0)
  {
  }

  /** The ranking_dict of the source: bucket -> the elements it holds, in id order. */
  method BucketDict(row: seq<int>, idElem: seq<int>) returns (dict: map<int, seq<int>>)
    requires |row| == |idElem|
    ensures BucketsUpTo(dict, row, idElem, |row|)
  {
    dict := map[];
    var el := 0;
    BucketsEmpty(row, idElem);
    while el < |row|
      invariant 0 <= el <= |row|
      invariant BucketsUpTo(dict, row, idElem, el)
    {
      dict := AddToBucket(dict, row, idElem, el);
      el := el + 1;
    }
  }

  /** The ranking as a list of buckets of elements (the source's ranking_dict, keys sorted). */
  method GroupByBucket(row: seq<int>, idElem: seq<int>) returns (out: seq<seq<int>>, ghost keys: seq<int>)
    requires |row| == |idElem|
    ensures Groups(out, row, idElem, keys)
  {
    var dict := BucketDict(row, idElem);
    var ks := SortedKeys(dict.Keys);
    out := seq(|ks|, i requires 0 <= i < |ks| => dict[ks[i]]);
    keys := ks;
    forall b
      ensures b in ks <==> Used(row, b)
    {
      MembersUsed(row, idElem, b);
    }
  }

  /**
   * Every element lies in exactly one bucket of the grouping: the one
   * whose key is the element's bucket in row.
   */
  lemma GroupOf(out: seq<seq<int>>, row: seq<int>, idElem: seq<int>, ks: seq<int>, elemId: map<int, int>, el: int)
    returns (i: int)
    requires |row| == |idElem| && Groups(out, row, idElem, ks) && Canonical(elemId, idElem) && 0 <= el < |row|
    ensures 0 <= i < |ks| && ks[i] == row[el] && idElem[el] in out[i]
    ensures forall i' | 0 <= i' < |ks| && idElem[el] in out[i'] :: i' == i
  {
    assert Used(row, row[el]);
    i :| 0 <= i < |ks| && ks[i] == row[el];
    MembersIn(row, idElem, ks[i], |row|, idElem[el]);
    forall i' | 0 <= i' < |ks| && idElem[el] in out[i']
      ensures i' == i
    {
      MembersIn(row, idElem, ks[i'], |row|, idElem[el]);
      var el' :| 0 <= el' < |row| && row[el'] == ks[i'] && idElem[el'] == idElem[el];
      assert elemId[idElem[el']] == el';
      assert ks[i'] == ks[i];
    }
  }

  /** Every entry of a grouping is an element of the row. */
  lemma GroupMember(out: seq<seq<int>>, row: seq<int>, idElem: seq<int>, ks: seq<int>, i: int, x: int)
    returns (el: int)
    requires |row| == |idElem| && Groups(out, row, idElem, ks) && 0 <= i < |ks| && x in out[i]
    ensures 0 <= el < |row| && idElem[el] == x && row[el] == ks[i]
  {
    MembersIn(row, idElem, ks[i], |row|, x);
    el :| 0 <= el < |row| && row[el] == ks[i] && idElem[el] == x;
  }

  /**
   * Improves every departure ranking not met before (by the memo of
   * rankings seen) and returns the index of the first one whose improved
   * form is closest to the input rankings, with all rows as left. Rows met
   * before are skipped and stay as they were.
   */
  method BestRanking(departure: seq<seq<int>>, M: Matrix) returns (best: int, finals: seq<seq<int>>)
    requires Consistent(M) && |M| > 0 && |departure| > 0
    requires forall i | 0 <= i < |departure| :: |departure[i]| == |M| && Gapless(departure[i])
    ensures |finals| == |departure| && 0 <= best < |departure|
    ensures forall i | 0 <= i < |finals| :: |finals[i]| == |M|
    ensures forall i | 0 <= i < |finals| :: Dist2(M, finals[best]) <= Dist2(M, finals[i]) <= Dist2(M, departure[i])
  {
    var memo: set<seq<int>> := {};
    finals := departure;
    best := 0;
    var found := false;
    var dstMin: real := 0.0;
    var id := 0;
    while id < |departure|
      invariant 0 <= id <= |departure| && |finals| == |departure| && 0 <= best < |departure|
      invariant forall i | 0 <= i < |finals| :: |finals[i]| == |M|
      invariant forall i | id <= i < |departure| :: finals[i] == departure[i]
      invariant forall i | 0 <= i < id :: Dist2(M, finals[i]) <= Dist2(M, departure[i]) && departure[i] in memo
      invariant found <==> id > 0
      invariant !found ==> memo == {}
      invariant found ==> best < id && dstMin == Dist2(M, finals[best]) as real / 2.0
      invariant found ==> NoCloser(M, memo, Dist2(M, finals[best]))
      invariant found ==> forall i | 0 <= i < id :: Dist2(M, finals[best]) <= Dist2(M, finals[i])
    {
      var row := departure[id];
      if row !in memo {
        memo := memo + {row};
        var a := new int[|row|](i requires 0 <= i < |row| => row[i]);
        assert a[..] == row;
        var dst, memo', converged;
        ghost var top;
        dst, memo', converged, top := BioConsert(a, M, memo);
        memo := memo' + {a[..]};
        finals := finals[id := a[..]];
        if !found || dst < dstMin {
          best, dstMin, found := id, dst, true;
        }
      }
      id := id + 1;
    }
  }

  /** A nonempty ranking of disjoint, nonempty buckets numbered from 0, over elements with ids. */
  ghost predicate ReadyOne(R: Buckets, elemId: map<int, int>)
  {
    R != map[] && Disjoint(R) && NoEmpty(R) && Dense(R) && forall x | Listed(R, x) :: x in elemId
  }

  ghost predicate Ready(ranks: seq<Buckets>, elemId: map<int, int>)
  {
    forall k | 0 <= k < |ranks| :: ReadyOne(ranks[k], elemId)
  }

  /**
   * The median of nonempty rankings over the elements idElem (at least
   * two): their departure rankings, the cost matrix, the best improved
   * ranking and its buckets.
   */
  method MedianOf(ranks: seq<Buckets>, elemId: map<int, int>, idElem: seq<int>, importance: seq<real>)
    returns (out: seq<seq<int>>, ghost dep: seq<seq<int>>, ghost row: seq<int>, ghost ks: seq<int>)
    requires 0 < |ranks| <= |importance| && |idElem| >= 2 && Canonical(elemId, idElem) && Ready(ranks, elemId)
    ensures |dep| == |ranks| && forall k | 0 <= k < |ranks| :: DepartureOf(ranks[k], idElem, dep[k])
    ensures Rectangular(dep, |idElem|) && |row| == |idElem| && Groups(out, row, idElem, ks) && out != []
    ensures forall k | 0 <= k < |dep| ::
      Dist2(MatrixOf(dep, importance, |idElem|), row) <= Dist2(MatrixOf(dep, importance, |idElem|), dep[k])
  {
    var departure := DepartureRankings(ranks, elemId, idElem);
    dep := departure;
    forall k | 0 <= k < |ranks|
      ensures Gapless(departure[k])
    {
      DepartureGapless(ranks[k], idElem, elemId, departure[k]);
    }
    var M := CostMatrix(departure, importance);
    var best, finals := BestRanking(departure, M);
    var bestRow := finals[best];
    out, ks := GroupByBucket(bestRow, idElem);
    row := bestRow;
    assert Used(row, row[0]);
  }

  /** x is the only element of R. */
  ghost predicate Only(R: Buckets, x: int)
  {
    Listed(R, x) && forall y | Listed(R, y) :: y == x
  }

  /** R holds two different elements. */
  ghost predicate Many(R: Buckets)
  {
    exists x, y | Listed(R, x) && Listed(R, y) :: x != y
  }

  /** R ranks the elements of scores: highest first when reverse, lowest first otherwise. */
  ghost predicate RankingOf(R: Buckets, scores: Buckets, reverse: bool)
  {
    exists ks :: Increasing(ks) && Ranked(R, scores, ks, reverse)
  }

  /** row is the departure ranking of a ranking of scores. */
  ghost predicate DepartsFrom(row: seq<int>, scores: Buckets, reverse: bool, idElem: seq<int>)
  {
    exists R :: RankingOf(R, scores, reverse) && DepartureOf(R, idElem, row)
  }

  /**
   * out is a median of the four score maps: the departure rankings dep of
   * their rankings (size, vertices and s highest first, landmarks lowest
   * first) over the distinct elements idElem of the size map, and out
   * groups into buckets a ranking no farther from dep than any of them.
   */
  ghost predicate Median(out: seq<seq<int>>, scores: seq<Buckets>, rel: seq<real>, idElem: seq<int>, dep: seq<seq<int>>)
    requires |scores| == 4
  {
    |dep| == 4 && |rel| >= 4 && Rectangular(dep, |idElem|) &&
    (forall x :: x in idElem <==> Listed(scores[0], x)) &&
    (forall i, j | 0 <= i < j < |idElem| :: idElem[i] != idElem[j]) &&
    (forall k | 0 <= k < 4 :: DepartsFrom(dep[k], scores[k], k < 3, idElem)) &&
    exists row, ks :: |row| == |idElem| && Groups(out, row, idElem, ks) &&
      forall k | 0 <= k < 4 :: Dist2(MatrixOf(dep, rel, |idElem|), row) <= Dist2(MatrixOf(dep, rel, |idElem|), dep[k])
  }

  /** The size map is empty, has one element or has many, as its element set has 0, 1 or more members. */
  lemma ElementCount(R: Buckets, u: set<int>)
    requires NoEmpty(R) && forall x :: x in u <==> Listed(R, x)
    ensures R == map[] <==> |u| == 0
    ensures |u| == 1 ==> exists x :: u == {x} && Only(R, x)
    ensures Many(R) <==> |u| >= 2
  {
    if R != map[] {
      var k := Member(R.Keys);
      var x := Member(R[k]);
      assert x in u;
    }
    if |u| == 1 {
      var x := Member(u);
      assert |u - {x}| == 0;
      assert u == {x};
    }
    if Many(R) {
      var x, y :| Listed(R, x) && Listed(R, y) && x != y;
      assert {x, y} <= u;
      assert |{x, y}| == 2;
    }
    if |u| >= 2 {
      var x := Member(u);
      var y := Member(u - {x});
      assert Listed(R, x) && Listed(R, y) && x != y;
    }
  }

  /**
   * The median ranking of the connected components from their four score
   * maps and the importance of each ranking: no components give no
   * buckets, one component gives one bucket, and otherwise the median of
   * the four rankings. A score map without scores beside a nonempty size
   * map, or fewer than four importance factors, fails (None). The four
   * rankings are built with the intended FromScoreToRank, which honours
   * reverse; the source ignores it (FromScoreToRankAsWritten), and BioConsert
   * prices moves with the intended ComputeDeltaCosts.
   */
  method ComputeMedianRanking(sizeScores: Buckets, vertexScores: Buckets, sScores: Buckets, landsScores: Buckets, importance: seq<real>)
    returns (med: Option<seq<seq<int>>>, ghost idElem: seq<int>, ghost dep: seq<seq<int>>)
    requires Disjoint(sizeScores) && Disjoint(vertexScores) && Disjoint(sScores) && Disjoint(landsScores)
    requires NoEmpty(sizeScores) && NoEmpty(vertexScores) && NoEmpty(sScores) && NoEmpty(landsScores)
    requires forall x | Listed(vertexScores, x) || Listed(sScores, x) || Listed(landsScores, x) :: Listed(sizeScores, x)
    ensures sizeScores == map[] <==> med == Some([])
    ensures forall x | Only(sizeScores, x) :: med == Some([[x]])
    ensures med.None? <==> Many(sizeScores) && (vertexScores == map[] || sScores == map[] || landsScores == map[] || |importance| < 4)
    ensures med.Some? && Many(sizeScores) ==> Median(med.value, [sizeScores, vertexScores, sScores, landsScores], importance, idElem, dep)
  {
    var rankBySize, ks0 := RankOf(sizeScores, true);
    var rankByVSize, ks1 := RankOf(vertexScores, true);
    var rankByS, ks2 := RankOf(sScores, true);
    var rankByLands, ks3 := RankOf(landsScores, false);
    var ranks := [rankBySize, rankByVSize, rankByS, rankByLands];
    var u := Elements(rankBySize);
    var elemId, ids := Enumerate(u);
    idElem, dep := ids, [];
    ElementCount(sizeScores, u);
    if |ids| == 0 {
      return Some([]), idElem, dep;
    }
    if |ids| == 1 {
      assert ids[0] in u;
      return Some([[ids[0]]]), idElem, dep;
    }
    if rankByVSize == map[] || rankByS == map[] || rankByLands == map[] || |importance| < 4 {
      return None, idElem, dep;
    }
    assert ReadyOne(rankBySize, elemId) && ReadyOne(rankByVSize, elemId);
    assert ReadyOne(rankByS, elemId) && ReadyOne(rankByLands, elemId);
    assert Ready(ranks, elemId);
    var out;
    ghost var row, ks;
    out, dep, row, ks := MedianOf(ranks, elemId, ids, importance);
    med := Some(out);
    MedianHolds(out, sizeScores, vertexScores, sScores, landsScores, rankBySize, rankByVSize, rankByS, rankByLands,
                ks0, ks1, ks2, ks3, importance, elemId, idElem, dep, row, ks);
  }

  /** FromScoreToRank, with what the median needs to know of the ranking it builds. */
  method RankOf(scores: Buckets, reverse: bool) returns (R: Buckets, ks: seq<int>)
    requires Disjoint(scores) && NoEmpty(scores)
    ensures Increasing(ks) && Ranked(R, scores, ks, reverse)
    ensures Disjoint(R) && NoEmpty(R) && Dense(R) && (R == map[] <==> scores == map[])
    ensures forall x :: Listed(R, x) <==> Listed(scores, x)
  {
    R, ks := FromScoreToRank(scores, reverse);
    RankedKeeps(R, scores, ks, reverse);
    RankedShape(R, scores, ks, reverse);
  }

  /** The facts MedianOf and the four rankings establish make up a median. */
  lemma MedianHolds(out: seq<seq<int>>, s0: Buckets, s1: Buckets, s2: Buckets, s3: Buckets,
                    r0: Buckets, r1: Buckets, r2: Buckets, r3: Buckets,
                    k0: seq<int>, k1: seq<int>, k2: seq<int>, k3: seq<int>, rel: seq<real>,
                    elemId: map<int, int>, idElem: seq<int>, dep: seq<seq<int>>, row: seq<int>, ks: seq<int>)
    requires |rel| >= 4 && |dep| == 4
    requires Increasing(k0) && Ranked(r0, s0, k0, true) && Increasing(k1) && Ranked(r1, s1, k1, true)
    requires Increasing(k2) && Ranked(r2, s2, k2, true) && Increasing(k3) && Ranked(r3, s3, k3, false)
    requires forall k | 0 <= k < 4 :: DepartureOf([r0, r1, r2, r3][k], idElem, dep[k])
    requires forall x :: Listed(r0, x) <==> Listed(s0, x)
    requires Canonical(elemId, idElem) && forall x :: x in elemId <==> Listed(r0, x)
    requires Rectangular(dep, |idElem|) && |row| == |idElem| && Groups(out, row, idElem, ks)
    requires forall k | 0 <= k < 4 :: Dist2(MatrixOf(dep, rel, |idElem|), row) <= Dist2(MatrixOf(dep, rel, |idElem|), dep[k])
    ensures Median(out, [s0, s1, s2, s3], rel, idElem, dep)
  {
    var scores, ranks := [s0, s1, s2, s3], [r0, r1, r2, r3];
    assert RankingOf(r0, s0, true) && RankingOf(r1, s1, true) && RankingOf(r2, s2, true) && RankingOf(r3, s3, false);
    forall k | 0 <= k < 4
      ensures DepartsFrom(dep[k], scores[k], k < 3, idElem)
    {
      assert RankingOf(ranks[k], scores[k], k < 3) && DepartureOf(ranks[k], idElem, dep[k]);
    }
    forall x
      ensures x in idElem <==> Listed(scores[0], x)
    {
      if x in elemId {
        assert idElem[elemId[x]] == x;
      }
    }
    forall i, j | 0 <= i < j < |idElem|
      ensures idElem[i] != idElem[j]
    {
      assert elemId[idElem[i]] == i && elemId[idElem[j]] == j;
    }
  }

  /**
   * The first bucket of the median of a size map with several elements
   * holds at least one element, and only elements of the size map: the
   * bucket a caller draws the next component from.
   */
  lemma HeadListed(out: seq<seq<int>>, scores: seq<Buckets>, rel: seq<real>, idElem: seq<int>, dep: seq<seq<int>>)
    requires |scores| == 4 && Median(out, scores, rel, idElem, dep) && Many(scores[0])
    ensures out != [] && out[0] != []
    ensures forall x | x in out[0] :: Listed(scores[0], x)
  {
    var row, ks :| |row| == |idElem| && Groups(out, row, idElem, ks) &&
      forall k | 0 <= k < 4 :: Dist2(MatrixOf(dep, rel, |idElem|), row) <= Dist2(MatrixOf(dep, rel, |idElem|), dep[k]);
    var x, y :| Listed(scores[0], x) && Listed(scores[0], y) && x != y;
    assert x in idElem;
    assert Used(row, row[0]);
    assert row[0] in ks;
    MembersUsed(row, idElem, ks[0]);
    forall z | z in out[0]
      ensures Listed(scores[0], z)
    {
      var el := GroupMember(out, row, idElem, ks, 0, z);
      assert idElem[el] in idElem;
    }
  }
}
