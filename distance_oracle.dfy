/**
 * The distance oracle over all values of s: one s-distance oracle per s,
 * the s-connected component of each hyperedge, and the component sizes.
 * Queries combine the landmark labels of two hyperedges into a lower bound,
 * an upper bound and an estimate of their s-distance.
 */
module Oracles {
  import opened Wrappers
  import opened Walks
  import opened Profiles
  import opened SOracles
  import opened Best
  import Utils
  import ReachBounds

  /** The landmarks among ks with a label for both hyperedges. */
  ghost function Shared(m1: map<int, int>, m2: map<int, int>, ks: set<int>): set<int>
  {
    set l | l in ks && l in m1 && l in m2
  }

  /** The lower bounds |d1 - d2| the shared landmarks among ks give. */
  ghost function GapsIn(m1: map<int, int>, m2: map<int, int>, ks: set<int>): set<int>
  {
    set l | l in Shared(m1, m2, ks) :: Abs(m1[l] - m2[l])
  }

  /** The upper bounds d1 + d2 the shared landmarks among ks give. */
  ghost function SumsIn(m1: map<int, int>, m2: map<int, int>, ks: set<int>): set<int>
  {
    set l | l in Shared(m1, m2, ks) :: m1[l] + m2[l]
  }

  /**
   * The lower and upper bound after the landmarks in ks are scanned: the
   * largest gap and the smallest sum (capped at Integer.MAX_VALUE), or -1
   * and Integer.MAX_VALUE while no shared landmark has been seen.
   */
  ghost function BoundsIn(m1: map<int, int>, m2: map<int, int>, ks: set<int>): (int, int)
  {
    if GapsIn(m1, m2, ks) == {} || SumsIn(m1, m2, ks) == {} then (-1, IntMax)
    else (MaxOf(GapsIn(m1, m2, ks)), Min(IntMax, MinOf(SumsIn(m1, m2, ks))))
  }

  /** Scanning one more landmark folds its gap into the maximum and its sum into the minimum. */
  lemma BoundsStep(m1: map<int, int>, m2: map<int, int>, ks: set<int>, l: int)
    requires l !in ks
    ensures l in m1 && l in m2 ==>
      BoundsIn(m1, m2, ks + {l}) == (Max(BoundsIn(m1, m2, ks).0, Abs(m1[l] - m2[l])), Min(BoundsIn(m1, m2, ks).1, m1[l] + m2[l]))
    ensures !(l in m1 && l in m2) ==> BoundsIn(m1, m2, ks + {l}) == BoundsIn(m1, m2, ks)
  {
    if l in m1 && l in m2 {
      assert Shared(m1, m2, ks + {l}) == Shared(m1, m2, ks) + {l};
      assert GapsIn(m1, m2, ks + {l}) == GapsIn(m1, m2, ks) + {Abs(m1[l] - m2[l])};
      assert SumsIn(m1, m2, ks + {l}) == SumsIn(m1, m2, ks) + {m1[l] + m2[l]};
      if Shared(m1, m2, ks) != {} {
        var x := Member(Shared(m1, m2, ks));
        assert Abs(m1[x] - m2[x]) in GapsIn(m1, m2, ks) && m1[x] + m2[x] in SumsIn(m1, m2, ks);
        MaxOfAdd(GapsIn(m1, m2, ks), Abs(m1[l] - m2[l]));
        MinOfAdd(SumsIn(m1, m2, ks), m1[l] + m2[l]);
      } else {
        assert GapsIn(m1, m2, ks) == {} && SumsIn(m1, m2, ks) == {};
        assert GapsIn(m1, m2, ks + {l}) == {Abs(m1[l] - m2[l])};
        assert SumsIn(m1, m2, ks + {l}) == {m1[l] + m2[l]};
      }
    } else {
      assert Shared(m1, m2, ks + {l}) == Shared(m1, m2, ks);
      assert GapsIn(m1, m2, ks + {l}) == GapsIn(m1, m2, ks);
      assert SumsIn(m1, m2, ks + {l}) == SumsIn(m1, m2, ks);
    }
  }

  /** The lower and upper bound the landmarks shared by two label maps give (the source's pLo and pUp). */
  method LandmarkBounds(m1: map<int, int>, m2: map<int, int>) returns (lo: int, up: int)
    ensures (lo, up) == BoundsIn(m1, m2, m2.Keys)
  {
    lo, up := -1, IntMax;
    var rest := m2.Keys;
    ghost var seen: set<int> := {};
    while rest != {}
      invariant seen + rest == m2.Keys && seen !! rest
      invariant (lo, up) == BoundsIn(m1, m2, seen)
      decreases rest
    {
      lo, up, rest, seen := ScanLandmark(m1, m2, lo, up, rest, seen);
    }
  }

  /** One iteration of LandmarkBounds: landmark l of m2 is scanned and, when m1 labels it too, folded in. */
  method ScanLandmark(m1: map<int, int>, m2: map<int, int>, lo: int, up: int, rest: set<int>, ghost seen: set<int>)
    returns (lo': int, up': int, rest': set<int>, ghost seen': set<int>)
    requires rest != {} && seen + rest == m2.Keys && seen !! rest
    requires (lo, up) == BoundsIn(m1, m2, seen)
    ensures rest' < rest && seen' + rest' == m2.Keys && seen' !! rest'
    ensures (lo', up') == BoundsIn(m1, m2, seen')
  {
    var l := Pick(rest);
    BoundsStep(m1, m2, seen, l);
    lo', up' := lo, up;
    if l in m1 {
      var thisUpper := m1[l] + m2[l];
      var thisLower := Abs(m1[l] - m2[l]);
      up' := Min(up, thisUpper);
      lo' := Max(lo, thisLower);
    }
    rest' := rest - {l};
    seen' := seen + {l};
  }

  /**
   * The answer the landmark labels m1 and m2 give: the sentinel when either
   * bound is -1, otherwise the lower bound, the upper bound and their
   * midpoint (in floating-point division).
   */
  ghost function LandmarkTriple(m1: map<int, int>, m2: map<int, int>): Triple
  {
    var (lo, up) := BoundsIn(m1, m2, m2.Keys);
    if up == -1 || lo == -1 then Unknown
    else Triple(lo as real, up as real, lo as real + (up - lo) as real / 2.0)
  }

  /** With non-negative labels, the landmark answer is the sentinel exactly when no landmark is shared. */
  lemma LandmarkUnknown(m1: map<int, int>, m2: map<int, int>)
    requires forall l | l in m1 :: m1[l] >= 0
    requires forall l | l in m2 :: m2[l] >= 0
    ensures LandmarkTriple(m1, m2) == Unknown <==> m1.Keys * m2.Keys == {}
    ensures LandmarkTriple(m1, m2) != Unknown ==> 0.0 <= LandmarkTriple(m1, m2).lo
  {
    if m1.Keys * m2.Keys != {} {
      var l := Member(m1.Keys * m2.Keys);
      assert l in Shared(m1, m2, m2.Keys);
      var (lo, up) := BoundsIn(m1, m2, m2.Keys);
      assert Abs(m1[l] - m2[l]) in GapsIn(m1, m2, m2.Keys) && m1[l] + m2[l] in SumsIn(m1, m2, m2.Keys);
      assert lo >= 0;
      assert up >= 0 by {
        var x := MinOf(SumsIn(m1, m2, m2.Keys));
        assert x in SumsIn(m1, m2, m2.Keys);
      }
    } else {
      assert Shared(m1, m2, m2.Keys) == {};
      assert GapsIn(m1, m2, m2.Keys) == {};
    }
  }

  /** Labels that are exact s-distances from the landmarks. */
  ghost predicate ExactLabels(nb: seq<map<int, int>>, s: int, m: map<int, int>, e: int)
  {
    forall l | l in m :: IsDistance(nb, s, l, e, m[l])
  }

  /**
   * When the labels are exact s-distances and some landmark is shared, the
   * answer is no sentinel and lower <= true s-distance <= upper, with the
   * estimate in between.
   */
  lemma LandmarkSound(nb: seq<map<int, int>>, s: int, e1: int, e2: int, m1: map<int, int>, m2: map<int, int>, dist: int)
    requires Symmetric(nb) && ExactLabels(nb, s, m1, e1) && ExactLabels(nb, s, m2, e2)
    requires IsDistance(nb, s, e1, e2, dist) && dist <= IntMax
    requires m1.Keys * m2.Keys != {}
    ensures LandmarkTriple(m1, m2) != Unknown
    ensures LandmarkTriple(m1, m2).lo <= dist as real <= LandmarkTriple(m1, m2).up
    ensures LandmarkTriple(m1, m2).lo <= LandmarkTriple(m1, m2).est <= LandmarkTriple(m1, m2).up
  {
    var sh := Shared(m1, m2, m2.Keys);
    forall l | l in sh
      ensures Abs(m1[l] - m2[l]) <= dist <= m1[l] + m2[l]
    {
      PairBounds(nb, s, l, e1, e2, m1[l], m2[l], dist);
    }
    SharedBracket(m1, m2, dist);
  }

  /** When every shared landmark brackets dist, so do the largest gap and the smallest sum. */
  lemma SharedBracket(m1: map<int, int>, m2: map<int, int>, dist: int)
    requires m1.Keys * m2.Keys != {}
    requires forall l | l in Shared(m1, m2, m2.Keys) :: Abs(m1[l] - m2[l]) <= dist <= m1[l] + m2[l]
    ensures GapsIn(m1, m2, m2.Keys) != {} && SumsIn(m1, m2, m2.Keys) != {}
    ensures 0 <= MaxOf(GapsIn(m1, m2, m2.Keys)) <= dist <= MinOf(SumsIn(m1, m2, m2.Keys))
  {
    var sh := Shared(m1, m2, m2.Keys);
    var x := Member(m1.Keys * m2.Keys);
    assert x in sh;
    assert Abs(m1[x] - m2[x]) in GapsIn(m1, m2, m2.Keys) && m1[x] + m2[x] in SumsIn(m1, m2, m2.Keys);
    var gap := MaxOf(GapsIn(m1, m2, m2.Keys));
    var sum := MinOf(SumsIn(m1, m2, m2.Keys));
    var lg :| lg in sh && gap == Abs(m1[lg] - m2[lg]);
    var ls :| ls in sh && sum == m1[ls] + m2[ls];
  }

  /** The hyperedges that contain vertex v. */
  function EdgesOf(vMap: map<int, set<int>>, v: int): set<int>
  {
    if v in vMap then vMap[v] else {}
  }

  /** The pairs with first element in A and second in B. */
  function Grid(A: set<int>, B: set<int>): set<(int, int)>
  {
    set a, b | a in A && b in B :: (a, b)
  }

  /** The pairs (a, b) for b in B. */
  function Row(a: int, B: set<int>): set<(int, int)>
  {
    set b | b in B :: (a, b)
  }

  /** The pairs (a, e) for a in A. */
  function Column(A: set<int>, e: int): set<(int, int)>
  {
    set a | a in A :: (a, e)
  }

  lemma GridStep(A: set<int>, B: set<int>, a: int)
    ensures Grid(A + {a}, B) == Grid(A, B) + Row(a, B)
  {
  }

  lemma GridSub(A: set<int>, A': set<int>, B: set<int>)
    requires A <= A'
    ensures Grid(A, B) <= Grid(A', B)
  {
  }

  /**
   * The state an s-distance query for one s reads: the component of each
   * hyperedge for each s, the component sizes for each s, and the labels
   * of the oracle of s (None when there is no oracle of s).
   */
  datatype View = View(ccPerHyperedge: map<int, map<int, int>>, ccsSizes: map<int, seq<int>>, labels: Option<map<int, map<int, int>>>)

  /** The id of the s-connected component of e, or -1 when e is in none. */
  function SccId(ccPerHyperedge: map<int, map<int, int>>, e: int, s: int): (r: int)
    ensures s in ccPerHyperedge && e in ccPerHyperedge[s] ==> r == ccPerHyperedge[s][e]
    ensures !(s in ccPerHyperedge && e in ccPerHyperedge[s]) ==> r == -1
  {
    if s in ccPerHyperedge && e in ccPerHyperedge[s] then ccPerHyperedge[s][e] else -1
  }

  /**
   * The size of s-connected component ccId: 0 when the id is past the
   * stored sizes, None (an index exception) when the id is negative.
   */
  function SizeIn(ccsSizes: map<int, seq<int>>, s: int, ccId: int): (r: Option<int>)
    ensures r.None? <==> ccId < 0
    ensures r.Some? && (s !in ccsSizes || |ccsSizes[s]| <= ccId) ==> r.value == 0
    ensures 0 <= ccId && s in ccsSizes && ccId < |ccsSizes[s]| ==> r == Some(ccsSizes[s][ccId])
  {
    var tmp := if s in ccsSizes then ccsSizes[s] else [];
    if |tmp| <= ccId then Some(0)
    else if ccId < 0 then None
    else Some(tmp[ccId])
  }

  /**
   * The answer to an s-distance query between hyperedges e1 and e2:
   * the sentinel when components are stored and s is unknown or the edges
   * lie in different or no components; (1, size, approx(size)) in a
   * component of at most lb hyperedges where e1 has no label; otherwise
   * the landmark bounds. None stands for the exceptions the source raises
   * (a negative component id, an s without oracle); approx stands for the
   * estimate of a small component from its size.
   */
  ghost function Approx(w: View, e1: int, e2: int, s: int, lb: int, approx: int -> real): Option<Triple>
  {
    var known := w.ccPerHyperedge != map[];
    var cc := SccId(w.ccPerHyperedge, e1, s);
    if known && s !in w.ccPerHyperedge then Some(Unknown)
    else if known && (cc != SccId(w.ccPerHyperedge, e2, s) || cc == -1) then Some(Unknown)
    else if known && SizeIn(w.ccsSizes, s, cc).None? then None
    else if known && SizeIn(w.ccsSizes, s, cc).value <= lb && w.labels.None? then None
    else if known && SizeIn(w.ccsSizes, s, cc).value <= lb && e1 !in w.labels.value then
      var size := SizeIn(w.ccsSizes, s, cc).value;
      Some(Triple(1.0, size as real, approx(size)))
    else if w.labels.None? then None
    else Some(LandmarkTriple(LabelsOf(w.labels.value, e1), LabelsOf(w.labels.value, e2)))
  }

  /** The query between two hyperedges, on the state w of the oracle. */
  method ApproxQuery(w: View, e1: int, e2: int, s: int, lb: int, approx: int -> real) returns (r: Option<Triple>)
    ensures r == Approx(w, e1, e2, s, lb, approx)
  {
    if w.ccPerHyperedge != map[] {
      if s !in w.ccPerHyperedge {
        return Some(Unknown);
      }
      var cc1 := SccId(w.ccPerHyperedge, e1, s);
      var cc2 := SccId(w.ccPerHyperedge, e2, s);
      if cc1 != cc2 || cc1 == -1 || cc2 == -1 {
        return Some(Unknown);
      }
      var size := SizeIn(w.ccsSizes, s, cc1);
      if size.None? {
        return None;
      }
      if size.value <= lb {
        if w.labels.None? {
          return None;
        }
        if e1 !in w.labels.value {
          return Some(Triple(1.0, size.value as real, approx(size.value)));
        }
      }
    }
    if w.labels.None? {
      return None;
    }
    var otMap1 := LabelsOf(w.labels.value, e1);
    var otMap2 := LabelsOf(w.labels.value, e2);
    var pLo, pUp := LandmarkBounds(otMap1, otMap2);
    if pUp == -1 || pLo == -1 {
      return Some(Unknown);
    }
    return Some(Triple(pLo as real, pUp as real, pLo as real + (pUp - pLo) as real / 2.0));
  }

  /**
   * The query is sound on labels searched from nothing: when e1 and e2 lie
   * in the same component (or no components are stored) and the
   * small-component shortcut does not apply, the answer is the sentinel
   * exactly when no landmark labels both, and otherwise it brackets the
   * true s-distance with the estimate in between.
   */
  lemma ApproxSound(w: View, e1: int, e2: int, s: int, lb: int, approx: int -> real, nb: seq<map<int, int>>, done: set<int>, dist: int)
    requires w.labels.Some? && Labelled(w.labels.value, map[], nb, s, done) && Symmetric(nb)
    requires IsDistance(nb, s, e1, e2, dist) && dist <= IntMax
    requires w.ccPerHyperedge == map[] ||
      (s in w.ccPerHyperedge && SccId(w.ccPerHyperedge, e1, s) == SccId(w.ccPerHyperedge, e2, s) >= 0 &&
       (SizeIn(w.ccsSizes, s, SccId(w.ccPerHyperedge, e1, s)).value > lb || e1 in w.labels.value))
    ensures Approx(w, e1, e2, s, lb, approx).Some?
    ensures var t := Approx(w, e1, e2, s, lb, approx).value;
      (t == Unknown <==> LabelsOf(w.labels.value, e1).Keys * LabelsOf(w.labels.value, e2).Keys == {}) &&
      (t != Unknown ==> t.lo <= dist as real <= t.up && t.lo <= t.est <= t.up)
  {
    var L := w.labels.value;
    var m1, m2 := LabelsOf(L, e1), LabelsOf(L, e2);
    forall l | l in m1
      ensures IsDistance(nb, s, l, e1, m1[l]) && m1[l] >= 0
    {
      LabelledExact(L, nb, s, done, e1, l);
    }
    forall l | l in m2
      ensures IsDistance(nb, s, l, e2, m2[l]) && m2[l] >= 0
    {
      LabelledExact(L, nb, s, done, e2, l);
    }
    LandmarkUnknown(m1, m2);
    if m1.Keys * m2.Keys != {} {
      LandmarkSound(nb, s, e1, e2, m1, m2, dist);
    }
  }

  /** The answers to the queries between the pairs of hyperedges in ps. */
  ghost function PairAnswers(w: View, ps: set<(int, int)>, s: int, lb: int, approx: int -> real): set<Option<Triple>>
  {
    set p | p in ps :: Approx(w, p.0, p.1, s, lb, approx)
  }

  /** The answers of a union of pair sets are the union of their answers. */
  lemma PairAnswersUnion(w: View, ps: set<(int, int)>, qs: set<(int, int)>, s: int, lb: int, approx: int -> real)
    ensures PairAnswers(w, ps + qs, s, lb, approx) == PairAnswers(w, ps, s, lb, approx) + PairAnswers(w, qs, s, lb, approx)
  {
  }

  /** More pairs give more answers. */
  lemma PairAnswersSub(w: View, ps: set<(int, int)>, qs: set<(int, int)>, s: int, lb: int, approx: int -> real)
    requires ps <= qs
    ensures PairAnswers(w, ps, s, lb, approx) <= PairAnswers(w, qs, s, lb, approx)
  {
  }

  /** The answer to the query of each pair of ps. */
  ghost function AnswerMap(w: View, ps: set<(int, int)>, s: int, lb: int, approx: int -> real): map<(int, int), Option<Triple>>
  {
    map p | p in ps :: Approx(w, p.0, p.1, s, lb, approx)
  }

  /** The values T holds for the keys in ps. */
  ghost function Image(T: map<(int, int), Option<Triple>>, ps: set<(int, int)>): set<Option<Triple>>
  {
    set p | p in ps && p in T :: T[p]
  }

  /** One more key adds its value. */
  lemma ImageStep(T: map<(int, int), Option<Triple>>, ps: set<(int, int)>, p: (int, int))
    requires p in T
    ensures Image(T, ps + {p}) == Image(T, ps) + {T[p]}
  {
  }

  /** The answer map of ps gives the answers of ps. */
  lemma AnswerMapImage(w: View, ps: set<(int, int)>, s: int, lb: int, approx: int -> real)
    ensures Image(AnswerMap(w, ps, s, lb, approx), ps) == PairAnswers(w, ps, s, lb, approx)
  {
  }

  /** The query of one pair p: its answer is the entry of p in the answer map T. */
  method QueryPair(w: View, p: (int, int), s: int, lb: int, approx: int -> real, ghost T: map<(int, int), Option<Triple>>)
    returns (answer: Option<Triple>)
    requires p in T && T[p] == Approx(w, p.0, p.1, s, lb, approx)
    ensures answer == T[p]
  {
    answer := ApproxQuery(w, p.0, p.1, s, lb, approx);
  }

  /** More keys give more values. */
  lemma ImageSub(T: map<(int, int), Option<Triple>>, ps: set<(int, int)>, qs: set<(int, int)>)
    requires ps <= qs
    ensures Image(T, ps) <= Image(T, qs)
  {
  }

  /** Queries pair p of ps and offers its answer to the best answer kept so far. */
  method ScanOne(w: View, ps: set<(int, int)>, p: (int, int), s: int, lb: int, approx: int -> real, best0: Option<Triple>,
    ghost A0: set<Option<Triple>>, ghost T: map<(int, int), Option<Triple>>, ghost seen: set<(int, int)>)
    returns (failed: bool, best: Option<Triple>)
    requires T == AnswerMap(w, ps, s, lb, approx) && p in ps
    requires None !in Image(T, seen) && BestAmong(best0, A0 + Image(T, seen))
    ensures failed <==> None in Image(T, seen + {p})
    ensures !failed ==> BestAmong(best, A0 + Image(T, seen + {p}))
  {
    var answer := QueryPair(w, p, s, lb, approx, T);
    ImageStep(T, seen, p);
    if answer.None? {
      return true, best0;
    }
    ScanStep(best0, A0, Image(T, seen), Image(T, seen + {p}), answer.value);
    return false, Prefer(best0, answer.value);
  }

  /** Queries every pair of ps, keeping the best answer; failed when some query raises. */
  method ScanPairs(w: View, ps: set<(int, int)>, s: int, lb: int, approx: int -> real, best0: Option<Triple>, ghost A0: set<Option<Triple>>,
    ghost T: map<(int, int), Option<Triple>>)
    returns (failed: bool, best: Option<Triple>)
    requires BestAmong(best0, A0) && T == AnswerMap(w, ps, s, lb, approx)
    ensures failed <==> None in Image(T, ps)
    ensures !failed ==> BestAmong(best, A0 + Image(T, ps))
  {
    best := best0;
    var rest := ps;
    ghost var seen: set<(int, int)> := {};
    assert A0 + Image(T, seen) == A0;
    while rest != {}
      invariant seen + rest == ps && seen * rest == {}
      invariant None !in Image(T, seen) && BestAmong(best, A0 + Image(T, seen))
      decreases rest
    {
      var p := Pick(rest);
      failed, best := ScanOne(w, ps, p, s, lb, approx, best, A0, T, seen);
      if failed {
        ImageSub(T, seen + {p}, ps);
        return;
      }
      rest := rest - {p};
      seen := seen + {p};
    }
    assert seen == ps;
    failed := false;
  }

  /** Queries every pair of E1 x E2, row by row. */
  method ScanGrid(w: View, E1: set<int>, E2: set<int>, s: int, lb: int, approx: int -> real)
    returns (failed: bool, best: Option<Triple>)
    ensures failed <==> None in PairAnswers(w, Grid(E1, E2), s, lb, approx)
    ensures !failed ==> BestAmong(best, PairAnswers(w, Grid(E1, E2), s, lb, approx))
  {
    best := None;
    var rest := E1;
    ghost var seen: set<int> := {};
    assert Grid(seen, E2) == {};
    while rest != {}
      invariant seen + rest == E1 && seen * rest == {}
      invariant None !in PairAnswers(w, Grid(seen, E2), s, lb, approx)
      invariant BestAmong(best, PairAnswers(w, Grid(seen, E2), s, lb, approx))
      decreases rest
    {
      var e1 := Pick(rest);
      ghost var A := PairAnswers(w, Grid(seen, E2), s, lb, approx);
      failed, best := ScanPairs(w, Row(e1, E2), s, lb, approx, best, A, AnswerMap(w, Row(e1, E2), s, lb, approx));
      AnswerMapImage(w, Row(e1, E2), s, lb, approx);
      GridStep(seen, E2, e1);
      PairAnswersUnion(w, Grid(seen, E2), Row(e1, E2), s, lb, approx);
      if failed {
        GridSub(seen + {e1}, E1, E2);
        PairAnswersSub(w, Grid(seen + {e1}, E2), Grid(E1, E2), s, lb, approx);
        return;
      }
      rest := rest - {e1};
      seen := seen + {e1};
    }
    failed := false;
  }

  /** The hyperedges of vertex v that lie in some s-connected component. */
  function SEdgesOf(ccPerHyperedge: map<int, map<int, int>>, vMap: map<int, set<int>>, v: int, s: int): set<int>
  {
    set e | e in EdgesOf(vMap, v) && s in ccPerHyperedge && e in ccPerHyperedge[s]
  }

  class DistanceOracle {
    /** The s-distance oracle of s + 1 at position s. */
    var oracles: seq<SDistanceOracle>
    /** For each s, the size of each s-connected component, by component id. */
    var ccsSizes: map<int, seq<int>>
    /** For each s, the id of the s-connected component of each hyperedge. */
    var ccPerHyperedge: map<int, map<int, int>>

    constructor ()
      ensures oracles == [] && ccsSizes == map[] && ccPerHyperedge == map[]
    {
      oracles := [];
      ccsSizes := map[];
      ccPerHyperedge := map[];
    }

    /** The state a query for s reads. */
    function At(s: int): (w: View)
      reads this, if 1 <= s <= |oracles| then {oracles[s - 1]} else {}
      ensures w.ccPerHyperedge == ccPerHyperedge && w.ccsSizes == ccsSizes
      ensures w.labels == if 1 <= s <= |oracles| then Some(oracles[s - 1].labels) else None
    {
      View(ccPerHyperedge, ccsSizes, if 1 <= s <= |oracles| then Some(oracles[s - 1].labels) else None)
    }

    /** The id of the s-connected component of e, or -1. */
    function GetIdOfSCC(e: int, s: int): (r: int)
      reads this
      ensures r == SccId(ccPerHyperedge, e, s)
    {
      SccId(ccPerHyperedge, e, s)
    }

    /** The size of s-connected component ccId. */
    function GetSizeOf(s: int, ccId: int): (r: Option<int>)
      reads this
      ensures r == SizeIn(ccsSizes, s, ccId)
    {
      SizeIn(ccsSizes, s, ccId)
    }

    /** The query between two hyperedges. */
    method GetApproxSDistanceBetween(e1: int, e2: int, s: int, lb: int, approx: int -> real) returns (r: Option<Triple>)
      ensures r == Approx(At(s), e1, e2, s, lb, approx)
    {
      r := ApproxQuery(At(s), e1, e2, s, lb, approx);
    }

    /**
     * The query between two vertices: (1, 1, 1) when they share a
     * hyperedge; otherwise the non-sentinel answer with the smallest
     * estimate over all pairs of their s-hyperedges, or the sentinel when
     * there is none. None when some query raises.
     */
    method GetApproxSDistanceBetweenVertices(vMap: map<int, set<int>>, v1: int, v2: int, s: int, lb: int, approx: int -> real)
      returns (r: Option<Triple>)
      ensures EdgesOf(vMap, v1) * EdgesOf(vMap, v2) != {} ==> r == Some(Triple(1.0, 1.0, 1.0))
      ensures EdgesOf(vMap, v1) * EdgesOf(vMap, v2) == {} ==>
        var A := PairAnswers(At(s), Grid(SEdgesOf(ccPerHyperedge, vMap, v1, s), SEdgesOf(ccPerHyperedge, vMap, v2, s)), s, lb, approx);
        (r.None? <==> None in A) && (r.Some? ==> BestAnswer(r.value, A))
    {
      var common := Utils.Intersect(EdgesOf(vMap, v1), EdgesOf(vMap, v2));
      if common {
        return Some(Triple(1.0, 1.0, 1.0));
      }
      var E1 := SEdgesOf(ccPerHyperedge, vMap, v1, s);
      var E2 := SEdgesOf(ccPerHyperedge, vMap, v2, s);
      var failed, best := ScanGrid(At(s), E1, E2, s, lb, approx);
      r := if failed then None else Some(if best.Some? then best.value else Unknown);
    }

    /**
     * The query between vertex v and hyperedge e: the non-sentinel answer
     * with the smallest estimate over the s-hyperedges of v, or the
     * sentinel when there is none. None when some query raises.
     */
    method GetApproxSDistanceBetweenVE(vMap: map<int, set<int>>, v: int, e: int, s: int, lb: int, approx: int -> real)
      returns (r: Option<Triple>)
      ensures var A := PairAnswers(At(s), Column(SEdgesOf(ccPerHyperedge, vMap, v, s), e), s, lb, approx);
        (r.None? <==> None in A) && (r.Some? ==> BestAnswer(r.value, A))
    {
      var ps := Column(SEdgesOf(ccPerHyperedge, vMap, v, s), e);
      var failed, best := ScanPairs(At(s), ps, s, lb, approx, None, {}, AnswerMap(At(s), ps, s, lb, approx));
      AnswerMapImage(At(s), ps, s, lb, approx);
      assert {} + PairAnswers(At(s), Column(SEdgesOf(ccPerHyperedge, vMap, v, s), e), s, lb, approx)
        == PairAnswers(At(s), Column(SEdgesOf(ccPerHyperedge, vMap, v, s), e), s, lb, approx);
      r := if failed then None else Some(if best.Some? then best.value else Unknown);
    }

    /**
     * The largest s whose component memberships contain e, or 1 when
     * none does.
     */
    method GetMaxHEsMembership(e: int) returns (r: int)
      ensures (exists k :: k in ccPerHyperedge && e in ccPerHyperedge[k]) ==>
        r in ccPerHyperedge && e in ccPerHyperedge[r] && forall k | k in ccPerHyperedge && e in ccPerHyperedge[k] :: k <= r
      ensures (forall k | k in ccPerHyperedge :: e !in ccPerHyperedge[k]) ==> r == 1
    {
      var found := false;
      r := 1;
      var rest := ccPerHyperedge.Keys;
      ghost var seen: set<int> := {};
      while rest != {}
        invariant seen + rest == ccPerHyperedge.Keys && seen * rest == {}
        invariant found <==> exists k :: k in seen && e in ccPerHyperedge[k]
        invariant found ==> r in seen && e in ccPerHyperedge[r] && forall k | k in seen && e in ccPerHyperedge[k] :: k <= r
        invariant !found ==> r == 1
        decreases rest
      {
        var k := Pick(rest);
        if e in ccPerHyperedge[k] && (!found || k > r) {
          r := k;
          found := true;
        }
        rest := rest - {k};
        seen := seen + {k};
      }
    }

    /** The number of (hyperedge, landmark) pairs stored over all the s-distance oracles. */
    method GetOracleSize() returns (size: int)
      ensures size == TotalPairs(oracles)
    {
      size := 0;
      var i := 0;
      while i < |oracles|
        invariant 0 <= i <= |oracles|
        invariant size == TotalPairs(oracles[..i])
      {
        var n := oracles[i].GetOracleSize();
        assert oracles[..i + 1][..i] == oracles[..i];
        size := size + n;
        i := i + 1;
      }
      assert oracles[..i] == oracles;
    }

    /** The number of integers stored about components: every size slot plus every membership entry. */
    method GetCCStrucSize() returns (size: int)
      ensures size == |Slots(ccsSizes)| + |Pairs(ccPerHyperedge)|
    {
      var sizes := CountSlots(ccsSizes);
      var membs := CountPairs(ccPerHyperedge);
      size := sizes + membs;
    }

    /**
     * The reachable profile of v: for each s in turn, the elements bounded
     * through the landmarks of the s-oracle from the sources of v, with their
     * estimated s-distances; None when the vertex kind meets a bounded
     * hyperedge that no vertex contains. tag is None for an untagged element.
     */
    method CreateReachableProfile(vMap: map<int, set<int>>, v: int, tag: Option<string>, setting: ReachBounds.Kind, kind: ReachBounds.Kind)
      returns (r: Option<ReachableProfile>)
      ensures r.None? <==> (kind == ReachBounds.Vertex &&
        exists i :: 0 <= i < |oracles| && ReachBounds.VertexFails(oracles[i].labels, vMap, v, setting))
      ensures r.Some? ==> fresh(r.value) && r.value.p == v && r.value.tag == tag
      ensures r.Some? ==> ReachBounds.Profiled(r.value.reachables, AllLabels(oracles), vMap, v, setting, kind, |oracles|)
    {
      ghost var L := AllLabels(oracles);
      var sp: ReachableProfile;
      if tag.Some? {
        sp := new ReachableProfile.Labelled(v, tag.value);
      } else {
        sp := new ReachableProfile(v);
      }
      var s := 1;
      while s <= |oracles|
        invariant 1 <= s <= |oracles| + 1
        invariant fresh(sp) && sp.p == v && sp.tag == tag
        invariant |L| == |oracles| && forall i :: 0 <= i < |oracles| ==> oracles[i].labels == L[i]
        invariant ReachBounds.Profiled(sp.reachables, L, vMap, v, setting, kind, s - 1)
        invariant ReachBounds.NoneFails(L, vMap, v, setting, kind, s - 1)
      {
        var labels := oracles[s - 1].labels;
        var entries := ReachBounds.NextEntries(sp.reachables, L, labels, vMap, v, setting, kind, s - 1);
        if entries.None? {
          return None;
        }
        sp.AddReachables(entries.value);
        s := s + 1;
      }
      assert L == AllLabels(oracles);
      r := Some(sp);
    }
  }

  /** The labels of each s-distance oracle in os, in order. */
  ghost function AllLabels(os: seq<SDistanceOracle>): (r: seq<map<int, map<int, int>>>)
    reads set o | o in os
    ensures |r| == |os| && forall i :: 0 <= i < |os| ==> r[i] == os[i].labels
  {
    seq(|os|, i requires 0 <= i < |os| reads os => os[i].labels)
  }

  /** The pairs stored by the s-distance oracles os, summed. */
  ghost function TotalPairs(os: seq<SDistanceOracle>): int
    reads set o | o in os
  {
    if os == [] then 0 else TotalPairs(os[..|os| - 1]) + |Pairs(os[|os| - 1].labels)|
  }

  /** The slots (s, position) of the component-size arrays. */
  ghost function Slots(m: map<int, seq<int>>): set<(int, int)>
  {
    set k, i | k in m && 0 <= i < |m[k]| :: (k, i)
  }

  /** The slots of the arrays stored under the keys in ks. */
  ghost function SlotsIn(m: map<int, seq<int>>, ks: set<int>): set<(int, int)>
  {
    set k, i | k in m && k in ks && 0 <= i < |m[k]| :: (k, i)
  }

  /** The slots of one more array are as many as its length. */
  lemma SlotsInStep(m: map<int, seq<int>>, ks: set<int>, k: int)
    requires k in m && k !in ks
    ensures |SlotsIn(m, ks + {k})| == |SlotsIn(m, ks)| + |m[k]|
  {
    var column := set i | 0 <= i < |m[k]| :: (k, i);
    assert SlotsIn(m, ks + {k}) == SlotsIn(m, ks) + column;
    assert SlotsIn(m, ks) * column == {};
    ColumnCard(k, |m[k]|);
  }

  /** The pairs (k, i) for 0 <= i < n are n. */
  lemma {:induction false} ColumnCard(k: int, n: nat)
    ensures |set i | 0 <= i < n :: (k, i)| == n
  {
    if n > 0 {
      ColumnCard(k, n - 1);
      assert (set i | 0 <= i < n :: (k, i)) == (set i | 0 <= i < n - 1 :: (k, i)) + {(k, n - 1)};
    }
  }

  /** The total length of the arrays of m. */
  method CountSlots(m: map<int, seq<int>>) returns (size: int)
    ensures size == |Slots(m)|
  {
    size := 0;
    var rest := m.Keys;
    ghost var seen: set<int> := {};
    while rest != {}
      invariant seen + rest == m.Keys && seen * rest == {}
      invariant size == |SlotsIn(m, seen)|
      decreases rest
    {
      var k := Pick(rest);
      SlotsInStep(m, seen, k);
      size := size + |m[k]|;
      rest := rest - {k};
      seen := seen + {k};
    }
    assert SlotsIn(m, seen) == Slots(m);
  }
}
