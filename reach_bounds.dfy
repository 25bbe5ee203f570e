/**
 * The bounds a reachable profile is built from. For one s, each source
 * hyperedge offers candidate bounds: its own label distances (to the
 * landmarks themselves) and, through every landmark it shares with another
 * labelled hyperedge, the triangle-inequality bounds on their s-distance.
 * The candidates are folded per element with Math.max for the lower bound
 * (starting from -1) and Math.min for the upper bound (starting from
 * Integer.MAX_VALUE); the estimate is the integer midpoint.
 */
module ReachBounds {
  import opened Wrappers
  import opened Walks
  import opened SOracles
  import opened Profiles

  /** One candidate bound: (element, lower bound, upper bound). */
  type Bound = (int, int, int)

  /** The elements the candidates in C bound. */
  ghost function KeysOf(C: set<Bound>): set<int>
  {
    set c | c in C :: c.0
  }

  /** The lower bounds C offers for k. */
  ghost function Lows(C: set<Bound>, k: int): set<int>
  {
    set c | c in C && c.0 == k :: c.1
  }

  /** The upper bounds C offers for k. */
  ghost function Ups(C: set<Bound>, k: int): set<int>
  {
    set c | c in C && c.0 == k :: c.2
  }

  /** The folded lower bound of k: the largest offered, and never below the fold's start -1. */
  ghost function LowAt(C: set<Bound>, k: int): int
  {
    if Lows(C, k) == {} then -1 else Max(-1, MaxOf(Lows(C, k)))
  }

  /** The folded upper bound of k: the smallest offered, and never above the fold's start IntMax. */
  ghost function UpAt(C: set<Bound>, k: int): int
  {
    if Ups(C, k) == {} then IntMax else Min(IntMax, MinOf(Ups(C, k)))
  }

  /** The lower bounds after folding every candidate of C into empty maps. */
  ghost function FoldLows(C: set<Bound>): map<int, int>
  {
    map k | k in KeysOf(C) :: LowAt(C, k)
  }

  /** The upper bounds after folding every candidate of C into empty maps. */
  ghost function FoldUps(C: set<Bound>): map<int, int>
  {
    map k | k in KeysOf(C) :: UpAt(C, k)
  }

  /** The lower-bound map after one candidate: Math.max with the stored value, -1 when none. */
  function OfferLow(lbs: map<int, int>, c: Bound): (r: map<int, int>)
    ensures r.Keys == lbs.Keys + {c.0}
    ensures c.0 in lbs ==> r[c.0] == Max(lbs[c.0], c.1)
    ensures c.0 !in lbs ==> r[c.0] == Max(-1, c.1)
    ensures forall k | k in lbs && k != c.0 :: r[k] == lbs[k]
  {
    lbs[c.0 := Max(if c.0 in lbs then lbs[c.0] else -1, c.1)]
  }

  /** The upper-bound map after one candidate: Math.min with the stored value, IntMax when none. */
  function OfferUp(ubs: map<int, int>, c: Bound): (r: map<int, int>)
    ensures r.Keys == ubs.Keys + {c.0}
    ensures c.0 in ubs ==> r[c.0] == Min(ubs[c.0], c.2)
    ensures c.0 !in ubs ==> r[c.0] == Min(IntMax, c.2)
    ensures forall k | k in ubs && k != c.0 :: r[k] == ubs[k]
  {
    ubs[c.0 := Min(if c.0 in ubs then ubs[c.0] else IntMax, c.2)]
  }

  /** An element has candidates exactly when it has lower (and upper) candidates. */
  lemma KeysStep(C: set<Bound>, c: Bound)
    ensures KeysOf(C + {c}) == KeysOf(C) + {c.0}
    ensures c.0 in KeysOf(C) ==> Lows(C, c.0) != {} && Ups(C, c.0) != {}
    ensures c.0 !in KeysOf(C) ==> Lows(C, c.0) == {} && Ups(C, c.0) == {}
  {
    if c.0 in KeysOf(C) {
      var x :| x in C && x.0 == c.0;
      assert x.1 in Lows(C, c.0) && x.2 in Ups(C, c.0);
    } else {
      forall x | x in C
        ensures x.0 != c.0
      {
        assert x.0 in KeysOf(C);
      }
    }
  }

  /** One more candidate raises the folded lower bound of its element only. */
  lemma LowAtStep(C: set<Bound>, c: Bound, j: int)
    ensures j != c.0 ==> LowAt(C + {c}, j) == LowAt(C, j)
    ensures j == c.0 ==> LowAt(C + {c}, j) == Max(LowAt(C, j), c.1)
  {
    if j != c.0 {
      assert Lows(C + {c}, j) == Lows(C, j);
    } else {
      assert Lows(C + {c}, j) == Lows(C, j) + {c.1};
      if Lows(C, j) != {} {
        MaxOfAdd(Lows(C, j), c.1);
      } else {
        assert MaxOf({c.1}) in {c.1};
      }
    }
  }

  /** One more candidate lowers the folded upper bound of its element only. */
  lemma UpAtStep(C: set<Bound>, c: Bound, j: int)
    ensures j != c.0 ==> UpAt(C + {c}, j) == UpAt(C, j)
    ensures j == c.0 ==> UpAt(C + {c}, j) == Min(UpAt(C, j), c.2)
  {
    if j != c.0 {
      assert Ups(C + {c}, j) == Ups(C, j);
    } else {
      assert Ups(C + {c}, j) == Ups(C, j) + {c.2};
      if Ups(C, j) != {} {
        MinOfAdd(Ups(C, j), c.2);
      } else {
        assert MinOf({c.2}) in {c.2};
      }
    }
  }

  /** Folding candidates one at a time gives the fold of all of them, in any order. */
  lemma FoldStep(C: set<Bound>, c: Bound)
    ensures FoldLows(C + {c}) == OfferLow(FoldLows(C), c)
    ensures FoldUps(C + {c}) == OfferUp(FoldUps(C), c)
  {
    KeysStep(C, c);
    forall j | j in KeysOf(C + {c})
      ensures FoldLows(C + {c})[j] == OfferLow(FoldLows(C), c)[j]
      ensures FoldUps(C + {c})[j] == OfferUp(FoldUps(C), c)[j]
    {
      LowAtStep(C, c, j);
      UpAtStep(C, c, j);
    }
  }

  /** The candidates from the source's own labels among ks: landmark l lies at the labelled distance. */
  ghost function SelfBounds(m1: map<int, int>, ks: set<int>): set<Bound>
  {
    set l | l in m1 && l in ks :: (l, m1[l], m1[l])
  }

  /** The candidates for e2 through the landmarks in ks that label both the source (m1) and e2 (m2). */
  ghost function ViaBounds(m1: map<int, int>, e2: int, m2: map<int, int>, ks: set<int>): set<Bound>
  {
    set l | l in m2 && l in m1 && l in ks :: (e2, Abs(m1[l] - m2[l]), m1[l] + m2[l])
  }

  /** The candidates source e1 offers while visiting labelled hyperedge e2. */
  ghost function EntryBounds(labels: map<int, map<int, int>>, e1: int, e2: int): set<Bound>
  {
    var m1 := LabelsOf(labels, e1);
    if e1 == e2 then SelfBounds(m1, m1.Keys) else ViaBounds(m1, e2, LabelsOf(labels, e2), LabelsOf(labels, e2).Keys)
  }

  /** The candidates source e1 offers while visiting the labelled hyperedges in es. */
  ghost function RowBounds(labels: map<int, map<int, int>>, e1: int, es: set<int>): set<Bound>
  {
    set e2, c | e2 in es && e2 in labels && c in EntryBounds(labels, e1, e2) :: c
  }

  /** The candidates every source in srcs offers. */
  ghost function SourceBounds(labels: map<int, map<int, int>>, srcs: set<int>): set<Bound>
  {
    set e1, c | e1 in srcs && c in RowBounds(labels, e1, labels.Keys) :: c
  }

  /** One more landmark of the source's labels adds its candidate. */
  lemma SelfStep(m1: map<int, int>, seen: set<int>, l: int, C: set<Bound>)
    requires l in m1
    ensures C + SelfBounds(m1, seen + {l}) == (C + SelfBounds(m1, seen)) + {(l, m1[l], m1[l])}
  {
    assert SelfBounds(m1, seen + {l}) == SelfBounds(m1, seen) + {(l, m1[l], m1[l])};
  }

  /** One more landmark of e2's labels adds its candidate when the source shares it. */
  lemma ViaStep(m1: map<int, int>, e2: int, m2: map<int, int>, seen: set<int>, l: int, C: set<Bound>)
    requires l in m2
    ensures l in m1 ==> C + ViaBounds(m1, e2, m2, seen + {l}) == (C + ViaBounds(m1, e2, m2, seen)) + {(e2, Abs(m1[l] - m2[l]), m1[l] + m2[l])}
    ensures l !in m1 ==> C + ViaBounds(m1, e2, m2, seen + {l}) == C + ViaBounds(m1, e2, m2, seen)
  {
    if l in m1 {
      assert ViaBounds(m1, e2, m2, seen + {l}) == ViaBounds(m1, e2, m2, seen) + {(e2, Abs(m1[l] - m2[l]), m1[l] + m2[l])};
    } else {
      assert ViaBounds(m1, e2, m2, seen + {l}) == ViaBounds(m1, e2, m2, seen);
    }
  }

  /** Offers the candidate of landmark l of the source's labels. */
  method OfferSelfAt(m1: map<int, int>, l: int, lbs0: map<int, int>, ubs0: map<int, int>, ghost C: set<Bound>, ghost seen: set<int>)
    returns (lbs: map<int, int>, ubs: map<int, int>)
    requires l in m1
    requires lbs0 == FoldLows(C + SelfBounds(m1, seen)) && ubs0 == FoldUps(C + SelfBounds(m1, seen))
    ensures lbs == FoldLows(C + SelfBounds(m1, seen + {l})) && ubs == FoldUps(C + SelfBounds(m1, seen + {l}))
  {
    SelfStep(m1, seen, l, C);
    lbs, ubs := OfferBoth(lbs0, ubs0, C + SelfBounds(m1, seen), (l, m1[l], m1[l]));
  }

  /** Offers the candidates of the source's own labels (the branch e1 == e2). */
  method OfferSelf(m1: map<int, int>, lbs0: map<int, int>, ubs0: map<int, int>, ghost C: set<Bound>)
    returns (lbs: map<int, int>, ubs: map<int, int>)
    requires lbs0 == FoldLows(C) && ubs0 == FoldUps(C)
    ensures lbs == FoldLows(C + SelfBounds(m1, m1.Keys)) && ubs == FoldUps(C + SelfBounds(m1, m1.Keys))
  {
    lbs, ubs := lbs0, ubs0;
    var rest := m1.Keys;
    ghost var seen: set<int> := {};
    assert C + SelfBounds(m1, seen) == C;
    while rest != {}
      invariant seen + rest == m1.Keys && seen * rest == {}
      invariant lbs == FoldLows(C + SelfBounds(m1, seen)) && ubs == FoldUps(C + SelfBounds(m1, seen))
      decreases rest
    {
      var l := Pick(rest);
      lbs, ubs := OfferSelfAt(m1, l, lbs, ubs, C, seen);
      rest := rest - {l};
      seen := seen + {l};
    }
  }

  /** Offers the candidate for e2 through landmark l, when the source shares l. */
  method OfferViaAt(m1: map<int, int>, e2: int, m2: map<int, int>, l: int, lbs0: map<int, int>, ubs0: map<int, int>,
    ghost C: set<Bound>, ghost seen: set<int>)
    returns (lbs: map<int, int>, ubs: map<int, int>)
    requires l in m2
    requires lbs0 == FoldLows(C + ViaBounds(m1, e2, m2, seen)) && ubs0 == FoldUps(C + ViaBounds(m1, e2, m2, seen))
    ensures lbs == FoldLows(C + ViaBounds(m1, e2, m2, seen + {l})) && ubs == FoldUps(C + ViaBounds(m1, e2, m2, seen + {l}))
  {
    ViaStep(m1, e2, m2, seen, l, C);
    lbs, ubs := lbs0, ubs0;
    if l in m1 {
      var thisUpper := m1[l] + m2[l];
      var thisLower := Abs(m1[l] - m2[l]);
      lbs, ubs := OfferBoth(lbs, ubs, C + ViaBounds(m1, e2, m2, seen), (e2, thisLower, thisUpper));
    }
  }

  /** Offers candidate c to both maps of the fold of D. */
  method OfferBoth(lbs0: map<int, int>, ubs0: map<int, int>, ghost D: set<Bound>, c: Bound)
    returns (lbs: map<int, int>, ubs: map<int, int>)
    requires lbs0 == FoldLows(D) && ubs0 == FoldUps(D)
    ensures lbs == FoldLows(D + {c}) && ubs == FoldUps(D + {c})
  {
    FoldStep(D, c);
    lbs := OfferLow(lbs0, c);
    ubs := OfferUp(ubs0, c);
  }

  /** Offers the candidates for e2 through the landmarks its labels m2 share with the source's m1. */
  method OfferVia(m1: map<int, int>, e2: int, m2: map<int, int>, lbs0: map<int, int>, ubs0: map<int, int>, ghost C: set<Bound>)
    returns (lbs: map<int, int>, ubs: map<int, int>)
    requires lbs0 == FoldLows(C) && ubs0 == FoldUps(C)
    ensures lbs == FoldLows(C + ViaBounds(m1, e2, m2, m2.Keys)) && ubs == FoldUps(C + ViaBounds(m1, e2, m2, m2.Keys))
  {
    lbs, ubs := lbs0, ubs0;
    var rest := m2.Keys;
    ghost var seen: set<int> := {};
    assert C + ViaBounds(m1, e2, m2, seen) == C;
    while rest != {}
      invariant seen + rest == m2.Keys && seen * rest == {}
      invariant lbs == FoldLows(C + ViaBounds(m1, e2, m2, seen)) && ubs == FoldUps(C + ViaBounds(m1, e2, m2, seen))
      decreases rest
    {
      var l := Pick(rest);
      lbs, ubs := OfferViaAt(m1, e2, m2, l, lbs, ubs, C, seen);
      rest := rest - {l};
      seen := seen + {l};
    }
  }

  /** One more visited hyperedge adds its candidates. */
  lemma RowStep(labels: map<int, map<int, int>>, e1: int, es: set<int>, e2: int)
    requires e2 in labels
    ensures RowBounds(labels, e1, es + {e2}) == RowBounds(labels, e1, es) + EntryBounds(labels, e1, e2)
  {
  }

  /** Offers the candidates source e1 (with labels map1) offers at labelled hyperedge e2. */
  method OfferEntry(labels: map<int, map<int, int>>, e1: int, map1: map<int, int>, e2: int, lbs0: map<int, int>, ubs0: map<int, int>,
    ghost C: set<Bound>, ghost seen: set<int>)
    returns (lbs: map<int, int>, ubs: map<int, int>)
    requires e2 in labels && map1 == LabelsOf(labels, e1)
    requires lbs0 == FoldLows(C + RowBounds(labels, e1, seen)) && ubs0 == FoldUps(C + RowBounds(labels, e1, seen))
    ensures lbs == FoldLows(C + RowBounds(labels, e1, seen + {e2})) && ubs == FoldUps(C + RowBounds(labels, e1, seen + {e2}))
  {
    RowStep(labels, e1, seen, e2);
    assert C + RowBounds(labels, e1, seen + {e2}) == (C + RowBounds(labels, e1, seen)) + EntryBounds(labels, e1, e2);
    if e1 == e2 {
      lbs, ubs := OfferSelf(map1, lbs0, ubs0, C + RowBounds(labels, e1, seen));
    } else {
      lbs, ubs := OfferVia(map1, e2, labels[e2], lbs0, ubs0, C + RowBounds(labels, e1, seen));
    }
  }

  /** Offers the candidates of source e1, visiting every labelled hyperedge. */
  method OfferRow(labels: map<int, map<int, int>>, e1: int, lbs0: map<int, int>, ubs0: map<int, int>, ghost C: set<Bound>)
    returns (lbs: map<int, int>, ubs: map<int, int>)
    requires lbs0 == FoldLows(C) && ubs0 == FoldUps(C)
    ensures lbs == FoldLows(C + RowBounds(labels, e1, labels.Keys)) && ubs == FoldUps(C + RowBounds(labels, e1, labels.Keys))
  {
    lbs, ubs := lbs0, ubs0;
    var map1 := LabelsOf(labels, e1);
    var rest := labels.Keys;
    ghost var seen: set<int> := {};
    assert C + RowBounds(labels, e1, seen) == C;
    while rest != {}
      invariant seen + rest == labels.Keys && seen * rest == {}
      invariant lbs == FoldLows(C + RowBounds(labels, e1, seen)) && ubs == FoldUps(C + RowBounds(labels, e1, seen))
      decreases rest
    {
      var e2 := Pick(rest);
      lbs, ubs := OfferEntry(labels, e1, map1, e2, lbs, ubs, C, seen);
      rest := rest - {e2};
      seen := seen + {e2};
    }
  }

  /** One more source adds its candidates. */
  lemma SourceStep(labels: map<int, map<int, int>>, srcs: set<int>, e1: int)
    ensures SourceBounds(labels, srcs + {e1}) == SourceBounds(labels, srcs) + RowBounds(labels, e1, labels.Keys)
  {
  }

  /**
   * The bounds from the sources srcs: for each element some source's
   * candidates bound, the folded lower and upper bound.
   */
  method FoldBounds(labels: map<int, map<int, int>>, srcs: set<int>) returns (lbs: map<int, int>, ubs: map<int, int>)
    ensures lbs == FoldLows(SourceBounds(labels, srcs)) && ubs == FoldUps(SourceBounds(labels, srcs))
  {
    lbs, ubs := map[], map[];
    var rest := srcs;
    ghost var seen: set<int> := {};
    assert FoldLows({}) == map[] && FoldUps({}) == map[];
    while rest != {}
      invariant seen + rest == srcs && seen * rest == {}
      invariant lbs == FoldLows(SourceBounds(labels, seen)) && ubs == FoldUps(SourceBounds(labels, seen))
      decreases rest
    {
      var e1 := Pick(rest);
      SourceStep(labels, seen, e1);
      lbs, ubs := OfferRow(labels, e1, lbs, ubs, SourceBounds(labels, seen));
      rest := rest - {e1};
      seen := seen + {e1};
    }
  }

  /** Java's x / 2 on int: the quotient truncated toward zero. */
  function Half(x: int): (r: int)
    ensures x >= 0 ==> 0 <= 2 * r <= x && x <= 2 * r + 1
    ensures x < 0 ==> x <= 2 * r <= 0 && 2 * r - 1 <= x
  {
    if x >= 0 then x / 2 else -((-x) / 2)
  }

  /** The estimate of a profile entry: lo + (up - lo) / 2 in int arithmetic, between the two bounds. */
  function Midpoint(lo: int, up: int): (r: int)
    ensures lo <= up ==> lo <= r <= up && up - lo <= 2 * (r - lo) + 1
    ensures up < lo ==> up <= r <= lo
  {
    lo + Half(up - lo)
  }

  /*
   * Soundness for a single source (the edge kind): over labels searched
   * from nothing, every candidate brackets the true s-distance, so the
   * folded bounds do too and the estimate lies between them.
   */

  /** A candidate from v's own labels: landmark l lies at exactly its labelled distance from v. */
  lemma SelfSound(labels: map<int, map<int, int>>, nb: seq<map<int, int>>, s: int, done: set<int>, v: int, c: Bound, dist: int)
    requires Labelled(labels, map[], nb, s, done) && Symmetric(nb)
    requires c in SelfBounds(LabelsOf(labels, v), LabelsOf(labels, v).Keys) && IsDistance(nb, s, v, c.0, dist)
    ensures c.1 == dist == c.2
  {
    var m1 := LabelsOf(labels, v);
    var l :| l in m1 && c == (l, m1[l], m1[l]);
    LabelledExact(labels, nb, s, done, v, l);
    DistanceSymmetric(nb, s, l, v, m1[l]);
    DistanceUnique(nb, s, v, l, dist, m1[l]);
  }

  /** A candidate through a shared landmark: the triangle inequality brackets the s-distance from v to e2. */
  lemma ViaSound(labels: map<int, map<int, int>>, nb: seq<map<int, int>>, s: int, done: set<int>, v: int, e2: int, c: Bound, dist: int)
    requires Labelled(labels, map[], nb, s, done) && Symmetric(nb)
    requires c in ViaBounds(LabelsOf(labels, v), e2, LabelsOf(labels, e2), LabelsOf(labels, e2).Keys)
    requires IsDistance(nb, s, v, c.0, dist)
    ensures c.1 <= dist <= c.2
  {
    var m1, m2 := LabelsOf(labels, v), LabelsOf(labels, e2);
    var l :| l in m2 && l in m1 && c == (e2, Abs(m1[l] - m2[l]), m1[l] + m2[l]);
    LabelledExact(labels, nb, s, done, v, l);
    LabelledExact(labels, nb, s, done, e2, l);
    PairBounds(nb, s, l, v, e2, m1[l], m2[l], dist);
  }

  /** A candidate of source v comes from v's own labels or from one labelled hyperedge e2 != v. */
  lemma CandidateOrigin(labels: map<int, map<int, int>>, v: int, c: Bound) returns (e2: int)
    requires c in SourceBounds(labels, {v})
    ensures e2 in labels
    ensures e2 == v ==> c in SelfBounds(LabelsOf(labels, v), LabelsOf(labels, v).Keys)
    ensures e2 != v ==> c in ViaBounds(LabelsOf(labels, v), e2, LabelsOf(labels, e2), LabelsOf(labels, e2).Keys)
  {
    assert c in RowBounds(labels, v, labels.Keys);
    e2 :| e2 in labels && c in EntryBounds(labels, v, e2);
  }

  /** Every candidate bound offered by source v brackets the s-distance from v to its element. */
  lemma CandidateSound(labels: map<int, map<int, int>>, nb: seq<map<int, int>>, s: int, done: set<int>, v: int, c: Bound, dist: int)
    requires Labelled(labels, map[], nb, s, done) && Symmetric(nb)
    requires c in SourceBounds(labels, {v}) && IsDistance(nb, s, v, c.0, dist)
    ensures c.1 <= dist <= c.2
  {
    var e2 := CandidateOrigin(labels, v, c);
    if e2 == v {
      SelfSound(labels, nb, s, done, v, c, dist);
    } else {
      ViaSound(labels, nb, s, done, v, e2, c, dist);
    }
  }

  /** Bounds that each bracket a value keep it bracketed once folded. */
  lemma FoldBracket(C: set<Bound>, k: int, dist: int)
    requires k in KeysOf(C) && -1 <= dist <= IntMax
    requires forall c | c in C && c.0 == k :: c.1 <= dist <= c.2
    ensures LowAt(C, k) <= dist <= UpAt(C, k)
  {
    var x :| x in C && x.0 == k;
    assert x.1 in Lows(C, k) && x.2 in Ups(C, k);
    var lo := MaxOf(Lows(C, k));
    var up := MinOf(Ups(C, k));
    var cl :| cl in C && cl.0 == k && cl.1 == lo;
    var cu :| cu in C && cu.0 == k && cu.2 == up;
  }

  /**
   * For the single source v, over labels searched from nothing: the
   * profile's lower bound, estimate and upper bound of every element it
   * lists bracket the true s-distance from v.
   */
  lemma ReachSound(labels: map<int, map<int, int>>, nb: seq<map<int, int>>, s: int, done: set<int>, v: int, k: int, dist: int)
    requires Labelled(labels, map[], nb, s, done) && Symmetric(nb)
    requires k in FoldLows(SourceBounds(labels, {v})) && IsDistance(nb, s, v, k, dist) && dist <= IntMax
    ensures var lo, up := FoldLows(SourceBounds(labels, {v}))[k], FoldUps(SourceBounds(labels, {v}))[k];
      lo <= dist <= up && lo <= Midpoint(lo, up) <= up
  {
    var C := SourceBounds(labels, {v});
    forall c | c in C && c.0 == k
      ensures c.1 <= dist <= c.2
    {
      CandidateSound(labels, nb, s, done, v, c, dist);
    }
    FoldBracket(C, k, dist);
  }

  /*
   * The vertex kind: the bounds of a vertex u fold the bounds of every
   * listed hyperedge that contains u.
   */

  /** The vertices among ws whose hyperedges include he. */
  ghost function HoldersIn(vMap: map<int, set<int>>, he: int, ws: set<int>): set<int>
  {
    set w | w in vMap && w in ws && he in vMap[w]
  }

  /** inv lists, for each hyperedge of ks contained by some vertex of ws, those vertices. */
  ghost predicate Inverted(inv: map<int, set<int>>, vMap: map<int, set<int>>, ks: set<int>, ws: set<int>)
  {
    (forall he :: he in inv <==> he in ks && HoldersIn(vMap, he, ws) != {}) &&
    (forall he | he in inv :: inv[he] == HoldersIn(vMap, he, ws))
  }

  /** One more vertex holds exactly its own hyperedges. */
  lemma HoldersStep(vMap: map<int, set<int>>, he: int, ws: set<int>, w: int)
    requires w in vMap
    ensures HoldersIn(vMap, he, ws + {w}) == HoldersIn(vMap, he, ws) + (if he in vMap[w] then {w} else {})
  {
  }

  /** inv lists the holders among ws, plus w for the hyperedges in hs. */
  ghost predicate InvertedPart(inv: map<int, set<int>>, vMap: map<int, set<int>>, ks: set<int>, ws: set<int>, w: int, hs: set<int>)
  {
    (forall he :: he in inv <==> he in ks && (HoldersIn(vMap, he, ws) != {} || he in hs)) &&
    (forall he | he in inv :: inv[he] == HoldersIn(vMap, he, ws) + (if he in hs then {w} else {}))
  }

  /** Records w under hyperedge he when he is in ks. */
  method InvertOne(ks: set<int>, w: int, he: int, inv0: map<int, set<int>>, ghost vMap: map<int, set<int>>, ghost ws: set<int>, ghost hs: set<int>)
    returns (inv: map<int, set<int>>)
    requires InvertedPart(inv0, vMap, ks, ws, w, hs)
    ensures InvertedPart(inv, vMap, ks, ws, w, hs + {he})
  {
    inv := inv0;
    if he in ks {
      var tmp := if he in inv then inv[he] else {};
      inv := inv[he := tmp + {w}];
    }
  }

  /** Records vertex w under each of its hyperedges in ks. */
  method InvertAt(vMap: map<int, set<int>>, ks: set<int>, w: int, inv0: map<int, set<int>>, ghost ws: set<int>)
    returns (inv: map<int, set<int>>)
    requires w in vMap && Inverted(inv0, vMap, ks, ws)
    ensures Inverted(inv, vMap, ks, ws + {w})
  {
    inv := inv0;
    var rest := vMap[w];
    ghost var hs: set<int> := {};
    while rest != {}
      invariant hs + rest == vMap[w] && hs * rest == {}
      invariant InvertedPart(inv, vMap, ks, ws, w, hs)
      decreases rest
    {
      var he := Pick(rest);
      inv := InvertOne(ks, w, he, inv, vMap, ws, hs);
      rest := rest - {he};
      hs := hs + {he};
    }
    InvertedDone(inv, vMap, ks, ws, w);
  }

  /** Once w is recorded under all its hyperedges, inv inverts vMap over ws + {w}. */
  lemma InvertedDone(inv: map<int, set<int>>, vMap: map<int, set<int>>, ks: set<int>, ws: set<int>, w: int)
    requires w in vMap && InvertedPart(inv, vMap, ks, ws, w, vMap[w])
    ensures Inverted(inv, vMap, ks, ws + {w})
  {
    forall he
      ensures HoldersIn(vMap, he, ws + {w}) == HoldersIn(vMap, he, ws) + (if he in vMap[w] then {w} else {})
    {
      HoldersStep(vMap, he, ws, w);
    }
  }

  /** For each hyperedge of ks, the vertices that contain it (invVMap); hyperedges no vertex contains are absent. */
  method InvertVertexMap(vMap: map<int, set<int>>, ks: set<int>) returns (inv: map<int, set<int>>)
    ensures Inverted(inv, vMap, ks, vMap.Keys)
  {
    inv := map[];
    var rest := vMap.Keys;
    ghost var ws: set<int> := {};
    while rest != {}
      invariant ws + rest == vMap.Keys && ws * rest == {}
      invariant Inverted(inv, vMap, ks, ws)
      decreases rest
    {
      var w := Pick(rest);
      inv := InvertAt(vMap, ks, w, inv, ws);
      rest := rest - {w};
      ws := ws + {w};
    }
  }

  /** The candidates for vertices: each listed hyperedge offers its bounds to every vertex of us among its holders. */
  ghost function VertexBoundsIn(vMap: map<int, set<int>>, lbs: map<int, int>, ubs: map<int, int>, es: set<int>): set<Bound>
  {
    set eid, u | eid in lbs && eid in ubs && eid in es && u in vMap && eid in vMap[u] :: (u, lbs[eid], ubs[eid])
  }

  /** The candidates of one hyperedge for the vertices in us. */
  ghost function ColumnBounds(us: set<int>, lo: int, up: int): set<Bound>
  {
    set u | u in us :: (u, lo, up)
  }

  /** One more hyperedge adds its candidates for its holders. */
  lemma VertexStep(vMap: map<int, set<int>>, lbs: map<int, int>, ubs: map<int, int>, es: set<int>, eid: int)
    requires eid in lbs && eid in ubs
    ensures VertexBoundsIn(vMap, lbs, ubs, es + {eid}) ==
      VertexBoundsIn(vMap, lbs, ubs, es) + ColumnBounds(HoldersIn(vMap, eid, vMap.Keys), lbs[eid], ubs[eid])
  {
  }

  /** One more vertex adds its candidate. */
  lemma ColumnStep(us: set<int>, u: int, lo: int, up: int, C: set<Bound>)
    ensures C + ColumnBounds(us + {u}, lo, up) == (C + ColumnBounds(us, lo, up)) + {(u, lo, up)}
  {
    assert ColumnBounds(us + {u}, lo, up) == ColumnBounds(us, lo, up) + {(u, lo, up)};
  }

  /** Offers the bounds (lo, up) to vertex u. */
  method OfferColumnAt(u: int, lo: int, up: int, lbs0: map<int, int>, ubs0: map<int, int>, ghost C: set<Bound>, ghost seen: set<int>)
    returns (lbs: map<int, int>, ubs: map<int, int>)
    requires lbs0 == FoldLows(C + ColumnBounds(seen, lo, up)) && ubs0 == FoldUps(C + ColumnBounds(seen, lo, up))
    ensures lbs == FoldLows(C + ColumnBounds(seen + {u}, lo, up)) && ubs == FoldUps(C + ColumnBounds(seen + {u}, lo, up))
  {
    ColumnStep(seen, u, lo, up, C);
    FoldStep(C + ColumnBounds(seen, lo, up), (u, lo, up));
    lbs := OfferLow(lbs0, (u, lo, up));
    ubs := OfferUp(ubs0, (u, lo, up));
  }

  /** Offers the bounds (lo, up) of one hyperedge to each of the vertices us. */
  method OfferColumn(us: set<int>, lo: int, up: int, lbs0: map<int, int>, ubs0: map<int, int>, ghost C: set<Bound>)
    returns (lbs: map<int, int>, ubs: map<int, int>)
    requires lbs0 == FoldLows(C) && ubs0 == FoldUps(C)
    ensures lbs == FoldLows(C + ColumnBounds(us, lo, up)) && ubs == FoldUps(C + ColumnBounds(us, lo, up))
  {
    lbs, ubs := lbs0, ubs0;
    var rest := us;
    ghost var seen: set<int> := {};
    assert C + ColumnBounds(seen, lo, up) == C;
    while rest != {}
      invariant seen + rest == us && seen * rest == {}
      invariant lbs == FoldLows(C + ColumnBounds(seen, lo, up)) && ubs == FoldUps(C + ColumnBounds(seen, lo, up))
      decreases rest
    {
      var u := Pick(rest);
      lbs, ubs := OfferColumnAt(u, lo, up, lbs, ubs, C, seen);
      rest := rest - {u};
      seen := seen + {u};
    }
  }

  /**
   * The vertex bounds: None (the source's null dereference) when some
   * listed hyperedge is in no vertex's set; otherwise the fold of every
   * hyperedge's bounds into each vertex containing it.
   */
  method FoldVertexBounds(vMap: map<int, set<int>>, inv: map<int, set<int>>, lbs: map<int, int>, ubs: map<int, int>)
    returns (r: Option<(map<int, int>, map<int, int>)>)
    requires Inverted(inv, vMap, lbs.Keys, vMap.Keys) && lbs.Keys <= ubs.Keys
    ensures r.None? <==> exists eid :: eid in lbs && HoldersIn(vMap, eid, vMap.Keys) == {}
    ensures r.Some? ==> r.value.0 == FoldLows(VertexBoundsIn(vMap, lbs, ubs, lbs.Keys)) && r.value.1 == FoldUps(VertexBoundsIn(vMap, lbs, ubs, lbs.Keys))
  {
    var vlbs: map<int, int> := map[];
    var vubs: map<int, int> := map[];
    var rest := lbs.Keys;
    ghost var seen: set<int> := {};
    assert VertexBoundsIn(vMap, lbs, ubs, seen) == {};
    assert FoldLows({}) == map[] && FoldUps({}) == map[];
    while rest != {}
      invariant seen + rest == lbs.Keys && seen * rest == {}
      invariant forall eid | eid in seen :: HoldersIn(vMap, eid, vMap.Keys) != {}
      invariant vlbs == FoldLows(VertexBoundsIn(vMap, lbs, ubs, seen)) && vubs == FoldUps(VertexBoundsIn(vMap, lbs, ubs, seen))
      decreases rest
    {
      var eid := Pick(rest);
      if eid !in inv {
        return None;
      }
      VertexStep(vMap, lbs, ubs, seen, eid);
      vlbs, vubs := OfferColumn(inv[eid], lbs[eid], ubs[eid], vlbs, vubs, VertexBoundsIn(vMap, lbs, ubs, seen));
      rest := rest - {eid};
      seen := seen + {eid};
    }
    r := Some((vlbs, vubs));
  }

  /*
   * The entries of one s.
   */

  /** The element kinds the source distinguishes by name: "edge", "vertex" and "both". */
  datatype Kind = Edge | Vertex | Both

  /** The source hyperedges: v itself when the configured kind is edge, otherwise the hyperedges containing v. */
  function Sources(vMap: map<int, set<int>>, v: int, setting: Kind): set<int>
  {
    if setting == Edge then {v} else if v in vMap then vMap[v] else {}
  }

  /** The elements entries list. */
  function Listed(entries: seq<Reach>): set<int>
  {
    set x | x in entries :: x.v
  }

  /** Each entry is for s and an element of lbs, with the midpoint of that element's bounds as estimate. */
  ghost predicate Estimated(entries: seq<Reach>, lbs: map<int, int>, ubs: map<int, int>, s: int)
  {
    forall i | 0 <= i < |entries| ::
      (entries[i].s == s && entries[i].v in lbs && entries[i].v in ubs &&
       entries[i].d == Midpoint(lbs[entries[i].v], ubs[entries[i].v]) as real)
  }

  /** entries holds one entry (s, k, estimate) per element k of lbs. */
  ghost predicate Emitted(entries: seq<Reach>, lbs: map<int, int>, ubs: map<int, int>, s: int)
  {
    |entries| == |lbs| && Listed(entries) == lbs.Keys && Estimated(entries, lbs, ubs, s)
  }

  /** entries holds one entry per element of seen. */
  ghost predicate EmittedFor(entries: seq<Reach>, lbs: map<int, int>, ubs: map<int, int>, s: int, seen: set<int>)
  {
    |entries| == |seen| && Listed(entries) == seen && Estimated(entries, lbs, ubs, s)
  }

  /** Appends the entry of a new element k. */
  method EmitAt(entries0: seq<Reach>, lbs: map<int, int>, ubs: map<int, int>, s: int, ghost seen: set<int>, k: int)
    returns (entries: seq<Reach>)
    requires EmittedFor(entries0, lbs, ubs, s, seen)
    requires k in lbs && k in ubs && k !in seen
    ensures EmittedFor(entries, lbs, ubs, s, seen + {k})
  {
    var est := lbs[k] + Half(ubs[k] - lbs[k]);
    entries := entries0 + [Reach(s, k, est as real)];
    assert Listed(entries) == Listed(entries0) + {k};
  }

  /** One entry per element of lbs, estimated from its two bounds. */
  method EmitEntries(lbs: map<int, int>, ubs: map<int, int>, s: int) returns (entries: seq<Reach>)
    requires lbs.Keys <= ubs.Keys
    ensures Emitted(entries, lbs, ubs, s)
  {
    entries := [];
    var rest := lbs.Keys;
    ghost var seen: set<int> := {};
    while rest != {}
      invariant seen + rest == lbs.Keys && seen * rest == {}
      invariant EmittedFor(entries, lbs, ubs, s, seen)
      decreases rest
    {
      var k := Pick(rest);
      entries := EmitAt(entries, lbs, ubs, s, seen, k);
      rest := rest - {k};
      seen := seen + {k};
    }
  }

  /** The hyperedge bounds of one s. */
  ghost function EdgeLows(labels: map<int, map<int, int>>, vMap: map<int, set<int>>, v: int, setting: Kind): map<int, int>
  {
    FoldLows(SourceBounds(labels, Sources(vMap, v, setting)))
  }

  ghost function EdgeUps(labels: map<int, map<int, int>>, vMap: map<int, set<int>>, v: int, setting: Kind): map<int, int>
  {
    FoldUps(SourceBounds(labels, Sources(vMap, v, setting)))
  }

  /** The vertex bounds of one s. */
  ghost function VertexCandidates(labels: map<int, map<int, int>>, vMap: map<int, set<int>>, v: int, setting: Kind): set<Bound>
  {
    var lbs := EdgeLows(labels, vMap, v, setting);
    VertexBoundsIn(vMap, lbs, EdgeUps(labels, vMap, v, setting), lbs.Keys)
  }

  /** The vertex kind fails when some bounded hyperedge lies in no vertex's set. */
  ghost predicate VertexFails(labels: map<int, map<int, int>>, vMap: map<int, set<int>>, v: int, setting: Kind)
  {
    exists eid :: eid in EdgeLows(labels, vMap, v, setting) && HoldersIn(vMap, eid, vMap.Keys) == {}
  }

  /** The lower and upper bounds one s emits: which are folded depends on the configured and the requested kind. */
  ghost function SBounds(labels: map<int, map<int, int>>, vMap: map<int, set<int>>, v: int, setting: Kind, kind: Kind): (map<int, int>, map<int, int>)
  {
    if kind != Vertex then (EdgeLows(labels, vMap, v, setting), EdgeUps(labels, vMap, v, setting))
    else (FoldLows(VertexCandidates(labels, vMap, v, setting)), FoldUps(VertexCandidates(labels, vMap, v, setting)))
  }

  /** The entries of one s: one per bounded element, estimated from its two bounds. */
  ghost predicate SEntries(entries: seq<Reach>, labels: map<int, map<int, int>>, vMap: map<int, set<int>>, v: int, setting: Kind, kind: Kind, s: int)
  {
    var b := SBounds(labels, vMap, v, setting, kind);
    Emitted(entries, b.0, b.1, s)
  }

  /** The bounds of each s, from the labels of its oracle. */
  ghost function BoundsOf(L: seq<map<int, map<int, int>>>, vMap: map<int, set<int>>, v: int, setting: Kind, kind: Kind)
    : (r: seq<(map<int, int>, map<int, int>)>)
    ensures |r| == |L| && forall i :: 0 <= i < |L| ==> r[i] == SBounds(L[i], vMap, v, setting, kind)
  {
    seq(|L|, i requires 0 <= i < |L| => SBounds(L[i], vMap, v, setting, kind))
  }

  /** rs holds the entries of s = 1 .. n and no others, those of each s emitted from the bounds B[s - 1]. */
  ghost predicate ProfiledBy(rs: seq<Reach>, B: seq<(map<int, int>, map<int, int>)>, n: int)
  {
    n <= |B| &&
    (forall j :: 0 <= j < |rs| ==> 1 <= rs[j].s <= n) &&
    (forall t :: 1 <= t <= n ==> Emitted(WithS(rs, t), B[t - 1].0, B[t - 1].1, t))
  }

  /**
   * rs holds the entries of s = 1 .. n and no others, the entries of each s
   * being those that s adds with the labels L[s - 1].
   */
  ghost predicate Profiled(rs: seq<Reach>, L: seq<map<int, map<int, int>>>, vMap: map<int, set<int>>, v: int, setting: Kind, kind: Kind, n: int)
  {
    ProfiledBy(rs, BoundsOf(L, vMap, v, setting, kind), n)
  }

  /** With the vertex kind, none of the first n s fails. */
  ghost predicate NoneFails(L: seq<map<int, map<int, int>>>, vMap: map<int, set<int>>, v: int, setting: Kind, kind: Kind, n: int)
  {
    kind == Vertex ==> forall i :: 0 <= i < n && i < |L| ==> !VertexFails(L[i], vMap, v, setting)
  }

  /** Appending the entries of s = n + 1, emitted from B[n], extends the profile by one s. */
  lemma ProfiledStep(rs: seq<Reach>, entries: seq<Reach>, B: seq<(map<int, int>, map<int, int>)>, n: nat)
    requires ProfiledBy(rs, B, n) && n < |B|
    requires Emitted(entries, B[n].0, B[n].1, n + 1)
    ensures ProfiledBy(rs + entries, B, n + 1)
  {
    var next := rs + entries;
    forall t | 1 <= t <= n + 1
      ensures Emitted(WithS(next, t), B[t - 1].0, B[t - 1].1, t)
    {
      JoinedAt(rs, entries, n + 1, t);
    }
    assert forall j :: 0 <= j < |next| ==> 1 <= next[j].s <= n + 1;
  }

  /**
   * The entries of s = n + 1, computed from labels = L[n], for a profile rs
   * that holds those of s = 1 .. n; None when the vertex kind fails there.
   */
  method NextEntries(ghost rs: seq<Reach>, ghost L: seq<map<int, map<int, int>>>, labels: map<int, map<int, int>>,
                     vMap: map<int, set<int>>, v: int, setting: Kind, kind: Kind, n: nat)
    returns (r: Option<seq<Reach>>)
    requires Profiled(rs, L, vMap, v, setting, kind, n) && NoneFails(L, vMap, v, setting, kind, n)
    requires n < |L| && L[n] == labels
    ensures r.None? <==> kind == Vertex && VertexFails(labels, vMap, v, setting)
    ensures r.Some? ==> Profiled(rs + r.value, L, vMap, v, setting, kind, n + 1)
    ensures r.Some? ==> NoneFails(L, vMap, v, setting, kind, n + 1)
  {
    r := ReachEntries(labels, vMap, v, setting, kind, n + 1);
    if r.Some? {
      ghost var B := BoundsOf(L, vMap, v, setting, kind);
      assert B[n] == SBounds(labels, vMap, v, setting, kind);
      ProfiledStep(rs, r.value, B, n);
    }
  }

  /** The hyperedge bounds share their keys. */
  lemma FoldKeys(C: set<Bound>)
    ensures FoldLows(C).Keys == FoldUps(C).Keys
  {
  }

  /**
   * The entries one s adds to the reachable profile of v; None when the
   * vertex kind dereferences a missing vertex list.
   */
  method ReachEntries(labels: map<int, map<int, int>>, vMap: map<int, set<int>>, v: int, setting: Kind, kind: Kind, s: int)
    returns (r: Option<seq<Reach>>)
    ensures r.None? <==> kind == Vertex && VertexFails(labels, vMap, v, setting)
    ensures r.Some? ==> SEntries(r.value, labels, vMap, v, setting, kind, s)
  {
    var sources := Sources(vMap, v, setting);
    var lbs, ubs := FoldBounds(labels, sources);
    FoldKeys(SourceBounds(labels, sources));
    if kind != Vertex {
      var entries := EmitEntries(lbs, ubs, s);
      return Some(entries);
    }
    var inv := InvertVertexMap(vMap, lbs.Keys);
    var folded := FoldVertexBounds(vMap, inv, lbs, ubs);
    if folded.None? {
      return None;
    }
    FoldKeys(VertexCandidates(labels, vMap, v, setting));
    var entries := EmitEntries(folded.value.0, folded.value.1, s);
    r := Some(entries);
  }
}
