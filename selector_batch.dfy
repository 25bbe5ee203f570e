/**
 * The batch landmark strategies that need no sampled paths: k candidates
 * at random, the k of largest s-degree, and the farthest-first walk that
 * keeps adding the candidate least close to the landmarks chosen so far.
 */
module BatchSelection {
  import opened Wrappers
  import opened HyperGraphs
  import opened SelectorBasics
  import Distances

  /*
   * Random
   */

  /**
   * `randomSelection(candidates, numLandmarks)`: the first numLandmarks of
   * a shuffled copy of the candidates, which fails (an index past the end)
   * when there are fewer candidates; a negative count selects nothing.
   */
  method RandomSelection(cands: set<int>, k: int) returns (r: Option<set<int>>)
    ensures r.None? <==> k > |cands|
    ensures r.Some? ==> r.value <= cands && |r.value| == Max(k, 0)
  {
    if k > |cands| {
      return None;
    }
    var chosen: set<int> := {};
    var rest := cands;
    var i := 0;
    while i < k
      invariant 0 <= i <= Max(k, 0) && |chosen| == i
      invariant chosen + rest == cands && chosen !! rest
    {
      var x := Pick(rest);
      chosen, rest := chosen + {x}, rest - {x};
      i := i + 1;
    }
    return Some(chosen);
  }

  /*
   * Degree
   */

  /** While fewer than k are held, every candidate seen is held. */
  lemma TopDegreeAdd(nb: seq<map<int, int>>, s: int, sel: set<int>, done: set<int>, k: int, e: int)
    requires TopDegree(nb, s, sel, done, k) && |sel| < k && e !in done
    ensures TopDegree(nb, s, sel + {e}, done + {e}, k)
  {
    assert |done - sel| == |done| - |sel|;
  }

  /**
   * Once k are held, a candidate of larger degree than the least held one
   * replaces it, and any other is left out.
   */
  lemma TopDegreeOffer(nb: seq<map<int, int>>, s: int, sel: set<int>, done: set<int>, k: int, e: int, m: int)
    requires TopDegree(nb, s, sel, done, k) && |sel| >= k && e !in done && m in sel
    requires forall x | x in sel :: Deg(nb, m, s) <= Deg(nb, x, s)
    ensures Deg(nb, m, s) < Deg(nb, e, s) ==> TopDegree(nb, s, sel - {m} + {e}, done + {e}, k)
    ensures Deg(nb, e, s) <= Deg(nb, m, s) ==> TopDegree(nb, s, sel, done + {e}, k)
  {
  }

  /** The queue sel holds a top-k choice among the candidates done; rest are still to come. */
  ghost predicate Queued(nb: seq<map<int, int>>, s: int, cands: set<int>, done: set<int>, rest: set<int>, sel: set<int>, k: int)
  {
    done + rest == cands && done !! rest && TopDegree(nb, s, sel, done, k) && k > 0
  }

  /**
   * One candidate meets the queue: it joins while fewer than k are held,
   * and otherwise replaces the head (a least degree held) when its own
   * degree is strictly larger.
   */
  method Offer(g: HyperGraph, ghost nb: seq<map<int, int>>, s: int, ghost done: set<int>, k: int, sel: set<int>, e: int)
    returns (sel': set<int>)
    requires nb == g.Nb() && g.IsEdge(e) && AllEdges(g, sel)
    requires TopDegree(nb, s, sel, done, k) && k > 0 && e !in done
    ensures TopDegree(nb, s, sel', done + {e}, k)
  {
    var d := SDegree(g, e, s);
    if |sel| < k {
      TopDegreeAdd(nb, s, sel, done, k, e);
      sel' := sel + {e};
    } else {
      var m := LeastDegree(g, sel, s);
      var dm := SDegree(g, m, s);
      TopDegreeOffer(nb, s, sel, done, k, e, m);
      sel' := if d > dm then sel - {m} + {e} else sel;
    }
  }

  /**
   * `degreeSelection(candidates, numLandmarks, s)`: a bounded min-queue by
   * s-degree over the candidates, a newcomer replacing the head when its
   * degree is strictly larger. Nothing for k = 0; a negative k makes the
   * first comparison read the head of an empty queue and fail.
   */
  method DegreeSelection(g: HyperGraph, cands: set<int>, k: int, s: int) returns (r: Option<set<int>>)
    requires AllEdges(g, cands)
    ensures k == 0 ==> r == Some({})
    ensures r.None? <==> k < 0 && cands != {}
    ensures r.Some? ==> TopDegree(g.Nb(), s, r.value, cands, Max(k, 0))
  {
    if k == 0 {
      return Some({});
    }
    if k < 0 {
      // the first candidate compares with the head of the empty queue
      return if cands == {} then Some({}) else None;
    }
    ghost var nb := g.Nb();
    var sel: set<int> := {};
    ghost var done: set<int> := {};
    var rest := cands;
    while rest != {}
      invariant Queued(nb, s, cands, done, rest, sel, k)
      decreases |rest|
    {
      var e := Pick(rest);
      sel := Offer(g, nb, s, done, k, sel, e);
      done, rest := done + {e}, rest - {e};
    }
    return Some(sel);
  }

  /*
   * Farthest
   */

  /** Every candidate has s-degree 0, so none can start the walk. */
  ghost predicate Isolated(nb: seq<map<int, int>>, s: int, cands: set<int>)
  {
    forall c | c in cands :: Deg(nb, c, s) == 0
  }

  /** A reachable candidate not yet chosen. */
  ghost predicate Eligible(e: int, reachable: set<int>, landmarks: set<int>, cands: set<int>)
  {
    e in reachable && e in cands && e !in landmarks
  }

  /**
   * The scan over the reachable hyperedges: among the eligible ones, one
   * whose least distance to the landmarks (Integer.MAX_VALUE for none) is
   * largest, provided it beats the starting mark -1.
   */
  method FarthestPick(dists: map<int, map<int, int>>, reachable: set<int>, landmarks: set<int>, cands: set<int>)
    returns (pick: Option<int>)
    ensures pick.Some? ==> Eligible(pick.value, reachable, landmarks, cands) && MinDist(dists, pick.value) > -1
    ensures pick.Some? ==> forall e | Eligible(e, reachable, landmarks, cands) :: MinDist(dists, e) <= MinDist(dists, pick.value)
    ensures pick.None? ==> forall e | Eligible(e, reachable, landmarks, cands) :: MinDist(dists, e) <= -1
  {
    var max := -1;
    pick := None;
    var rest := reachable;
    while rest != {}
      invariant rest <= reachable
      invariant pick.None? ==> max == -1
      invariant pick.Some? ==> Eligible(pick.value, reachable, landmarks, cands) && max == MinDist(dists, pick.value) > -1
      invariant forall e | Eligible(e, reachable, landmarks, cands) && e !in rest :: MinDist(dists, e) <= max
      decreases |rest|
    {
      var e := Pick(rest);
      if e !in landmarks && e in cands {
        var minD := MinDistTo(dists, e);
        if minD > max {
          pick, max := Some(e), minD;
        }
      }
      rest := rest - {e};
    }
  }

  /**
   * The walk's state: the landmarks chosen so far are candidates, the
   * selectable ones (positive degree, not reached, not chosen) are
   * candidates too, and the last landmark chosen is one of them.
   */
  ghost predicate Walking(cands: set<int>, landmarks: set<int>, selectable: set<int>, nextL: int)
  {
    landmarks <= cands && selectable <= cands && selectable !! landmarks && nextL in landmarks
  }

  /**
   * One pass of the walk's loop: the distances from the last landmark are
   * recorded once (reaching a candidate makes it unselectable); then with
   * some probability, only while fewer hyperedges are reached than there
   * are candidates and some candidate is selectable, a selectable
   * candidate is chosen, otherwise the farthest eligible one. When the
   * scan finds none the source draws again; the draw can only succeed
   * when a selectable candidate is left and fewer are reached than there
   * are candidates, so the round takes that branch then, and is stuck
   * (the source loops forever) otherwise.
   */
  method FarthestRound(g: HyperGraph, cands: set<int>, s: int, landmarks: set<int>, dists: map<int, map<int, int>>,
                       reachable: set<int>, selectable: set<int>, nextL: int)
    returns (landmarks': set<int>, dists': map<int, map<int, int>>, reachable': set<int>, selectable': set<int>,
             nextL': int, stuck: bool)
    requires g.ConsistentMaps(g.Nb()) && AllEdges(g, cands) && Walking(cands, landmarks, selectable, nextL)
    ensures !stuck ==> Walking(cands, landmarks', selectable', nextL')
    ensures !stuck ==> nextL' !in landmarks && landmarks' == landmarks + {nextL'}
    ensures !stuck ==> nextL' in selectable || forall e | Eligible(e, reachable', landmarks, cands) ::
      MinDist(dists', e) <= MinDist(dists', nextL')
  {
    dists', reachable', selectable' := dists, reachable, selectable;
    if nextL !in dists {
      var d := Distances.FindDistancesFrom(g, nextL, s);
      dists' := dists[nextL := d];
      reachable' := reachable + d.Keys;
      selectable' := selectable - d.Keys;
    }
    var canDraw := |reachable'| < |cands| && selectable' != {};
    var coin := false;
    if canDraw {
      coin := Pick({true, false});
    }
    var pick := None;
    if !coin {
      pick := FarthestPick(dists', reachable', landmarks, cands);
    }
    if pick.Some? {
      nextL' := pick.value;
    } else if canDraw {
      nextL' := Pick(selectable');
    } else {
      return landmarks, dists', reachable', selectable', nextL, true;
    }
    landmarks' := landmarks + {nextL'};
    selectable' := selectable' - {nextL'};
    stuck := false;
  }

  /**
   * `farthestSelection(candidates, numLandmarks, s)`: nothing for k = 0;
   * when no candidate has a positive s-degree, a random selection;
   * otherwise a selectable candidate first, then one landmark per round
   * until k are chosen (a negative k keeps just the first). None stands
   * for the source's loop that never ends once every round is stuck,
   * which is always the case when k exceeds the candidates.
   */
  method FarthestSelection(g: HyperGraph, cands: set<int>, k: int, s: int) returns (r: Option<set<int>>)
    requires g.ConsistentMaps(g.Nb()) && AllEdges(g, cands)
    ensures k == 0 ==> r == Some({})
    ensures k != 0 && Isolated(g.Nb(), s, cands) ==>
      (r.None? <==> k > |cands|) && (r.Some? ==> r.value <= cands && |r.value| == Max(k, 0))
    ensures k < 0 && !Isolated(g.Nb(), s, cands) ==> r.Some? && |r.value| == 1 && r.value <= cands
    ensures k > 0 && r.Some? ==> r.value <= cands && |r.value| == k
    ensures k > |cands| ==> r.None?
  {
    if k == 0 {
      return Some({});
    }
    ghost var nb := g.Nb();
    var reachable, selectable := SplitByDegree(g, cands, s);
    NoneSelectable(nb, s, cands, selectable);
    if selectable == {} {
      r := RandomSelection(cands, k);
      return;
    }
    var nextL := Pick(selectable);
    var landmarks := {nextL};
    selectable := selectable - {nextL};
    var dists: map<int, map<int, int>> := map[];
    while |landmarks| < k
      invariant Walking(cands, landmarks, selectable, nextL) && (|landmarks| == 1 || |landmarks| <= k)
      decreases |cands| - |landmarks|
    {
      SubsetCard(landmarks, cands);
      var stuck;
      landmarks, dists, reachable, selectable, nextL, stuck :=
        FarthestRound(g, cands, s, landmarks, dists, reachable, selectable, nextL);
      if stuck {
        return None;
      }
    }
    SubsetCard(landmarks, cands);
    return Some(landmarks);
  }

  /**
   * The first pass over the candidates: those of positive s-degree are
   * selectable, the others count as reached from the start.
   */
  method SplitByDegree(g: HyperGraph, cands: set<int>, s: int) returns (reachable: set<int>, selectable: set<int>)
    requires AllEdges(g, cands)
    ensures reachable + selectable == cands && reachable !! selectable
    ensures forall c | c in cands :: c in selectable <==> Deg(g.Nb(), c, s) > 0
  {
    ghost var nb := g.Nb();
    reachable, selectable := {}, {};
    var rest := cands;
    while rest != {}
      invariant Splitting(nb, s, cands, rest, reachable, selectable)
      decreases |rest|
    {
      var c := Pick(rest);
      var d := SDegree(g, c, s);
      SplitStep(nb, s, cands, rest, reachable, selectable, c);
      if d > 0 {
        selectable := selectable + {c};
      } else {
        reachable := reachable + {c};
      }
      rest := rest - {c};
    }
    SplitDone(nb, s, cands, reachable, selectable);
  }

  /** The candidates not in rest are split by degree into reachable (0) and selectable (positive). */
  ghost predicate Splitting(nb: seq<map<int, int>>, s: int, cands: set<int>, rest: set<int>,
                            reachable: set<int>, selectable: set<int>)
  {
    reachable + selectable + rest == cands && reachable !! selectable && rest !! (reachable + selectable) &&
    (forall c | c in selectable :: Deg(nb, c, s) > 0) && (forall c | c in reachable :: Deg(nb, c, s) == 0)
  }

  /** Filing one more candidate by its degree keeps the split. */
  lemma SplitStep(nb: seq<map<int, int>>, s: int, cands: set<int>, rest: set<int>,
                  reachable: set<int>, selectable: set<int>, c: int)
    requires Splitting(nb, s, cands, rest, reachable, selectable) && c in rest
    ensures Deg(nb, c, s) > 0 ==> Splitting(nb, s, cands, rest - {c}, reachable, selectable + {c})
    ensures Deg(nb, c, s) == 0 ==> Splitting(nb, s, cands, rest - {c}, reachable + {c}, selectable)
  {
  }

  /** A finished split: every candidate is selectable exactly when its degree is positive. */
  lemma SplitDone(nb: seq<map<int, int>>, s: int, cands: set<int>, reachable: set<int>, selectable: set<int>)
    requires Splitting(nb, s, cands, {}, reachable, selectable)
    ensures forall c | c in cands :: c in selectable <==> Deg(nb, c, s) > 0
  {
  }

  /** No selectable candidate exactly when every candidate has s-degree 0. */
  lemma NoneSelectable(nb: seq<map<int, int>>, s: int, cands: set<int>, selectable: set<int>)
    requires selectable <= cands && forall c | c in cands :: c in selectable <==> Deg(nb, c, s) > 0
    ensures selectable == {} <==> Isolated(nb, s, cands)
  {
    if Isolated(nb, s, cands) {
      forall c | c in cands
        ensures c !in selectable
      {
        assert Deg(nb, c, s) == 0;
      }
      assert selectable == {};
    }
  }
}
