/**
 * The bookkeeping of landmark selection by rank aggregation: the four
 * rankings of the components (by size, by vertex count, by s and by
 * landmarks chosen so far) as bucket maps over the components still open,
 * the estimate of the oracle size, and the landmarks gathered per s.
 */
module RankedSelection {
  import opened Wrappers
  import opened Departures
  import opened SelectorBasics
  import opened IncrementalSelection
  import MedianRanking
  import Utils

  /** tmp1 .. tmp4 of `selectLandmarksUsingRA`: component ids bucketed by size, vertices, s and landmarks. */
  datatype Rankings = Rankings(bySize: Buckets, byVertices: Buckets, byS: Buckets, byLands: Buckets)

  /**
   * R buckets exactly the components of active, each under its key, and
   * has no empty bucket.
   */
  ghost predicate Keyed(R: Buckets, active: set<int>, key: map<int, int>)
  {
    (forall k, i | k in R && i in R[k] :: i in active && i in key && key[i] == k) &&
    (forall i | i in active :: i in key && key[i] in R && i in R[key[i]]) &&
    NoEmpty(R)
  }

  /** A keyed bucket map lists each component once, and lists exactly the active ones. */
  lemma KeyedListed(R: Buckets, active: set<int>, key: map<int, int>)
    requires Keyed(R, active, key)
    ensures Disjoint(R)
    ensures forall x :: Listed(R, x) <==> x in active
    ensures R == map[] <==> active == {}
  {
    forall x | x in active
      ensures Listed(R, x)
    {
      var k := key[x];
      assert k in R && x in R[k];
    }
    forall a, b, x | a in R && b in R && x in R[a] && x in R[b]
      ensures a == b
    {
      assert key[x] == a && key[x] == b;
    }
    if R != map[] {
      var k := Member(R.Keys);
      var x := Member(R[k]);
      assert x in active;
    }
    if active != {} {
      var x := Member(active);
      assert key[x] in R;
    }
  }

  /** Only the keys of the active components matter. */
  lemma KeyedRekey(R: Buckets, active: set<int>, key: map<int, int>, key': map<int, int>)
    requires Keyed(R, active, key)
    requires forall i | i in active :: i in key' && key'[i] == key[i]
    ensures Keyed(R, active, key')
  {
  }

  /** `R.get(k).remove(x); if (R.get(k).isEmpty()) R.remove(k)`. */
  function Without(R: Buckets, k: int, x: int): (r: Buckets)
    requires k in R
    ensures r.Keys == if R[k] <= {x} then R.Keys - {k} else R.Keys
    ensures forall j | j in r :: r[j] == if j == k then R[k] - {x} else R[j]
  {
    if R[k] - {x} == {} then R - {k} else R[k := R[k] - {x}]
  }

  /** `if (!R.containsKey(k)) R.put(k, new set); R.get(k).add(x)`. */
  function With(R: Buckets, k: int, x: int): (r: Buckets)
    ensures r.Keys == R.Keys + {k}
    ensures forall j | j in r :: r[j] == if j == k then (if k in R then R[k] else {}) + {x} else R[j]
  {
    R[k := (if k in R then R[k] else {}) + {x}]
  }

  /** Removing a component from its bucket closes it in that ranking. */
  lemma KeyedDrop(R: Buckets, active: set<int>, key: map<int, int>, x: int)
    requires Keyed(R, active, key) && x in active
    ensures key[x] in R && Keyed(Without(R, key[x], x), active - {x}, key)
  {
  }

  /** Moving a component to the bucket of its new key keeps the ranking exact. */
  lemma KeyedMove(R: Buckets, active: set<int>, key: map<int, int>, x: int, k: int)
    requires Keyed(R, active, key) && x in active
    ensures key[x] in R && Keyed(With(Without(R, key[x], x), k, x), active, key[x := k])
  {
    KeyedDrop(R, active, key, x);
    var W := Without(R, key[x], x);
    var R', key' := With(W, k, x), key[x := k];
    forall j, i | j in R' && i in R'[j]
      ensures i in active && i in key' && key'[i] == j
    {
      if i != x {
        assert i in W[j];
      }
    }
    forall i | i in active
      ensures i in key' && key'[i] in R' && i in R'[key'[i]]
    {
      if i != x {
        assert i in W[key[i]];
      }
    }
  }

  /** The size map of the first ranking lists one element or several, once it is not empty. */
  lemma OneOrMany(R: Buckets)
    requires R != map[] && NoEmpty(R)
    ensures MedianRanking.Many(R) || exists x :: MedianRanking.Only(R, x)
  {
    var k := Member(R.Keys);
    var x := Member(R[k]);
    if !MedianRanking.Many(R) {
      assert MedianRanking.Only(R, x);
    }
  }

  /**
   * What the median ranking of nonempty rankings offers the selection:
   * a first bucket with at least one component, each listed by size.
   */
  lemma HeadOfMedian(rk: Rankings, importance: seq<real>, med: seq<seq<int>>, idElem: seq<int>, dep: seq<seq<int>>)
    requires rk.bySize != map[] && NoEmpty(rk.bySize)
    requires forall x | MedianRanking.Only(rk.bySize, x) :: med == [[x]]
    requires MedianRanking.Many(rk.bySize) ==>
      MedianRanking.Median(med, [rk.bySize, rk.byVertices, rk.byS, rk.byLands], importance, idElem, dep)
    ensures med != [] && med[0] != []
    ensures forall x | x in med[0] :: Listed(rk.bySize, x)
  {
    OneOrMany(rk.bySize);
    if MedianRanking.Many(rk.bySize) {
      MedianRanking.HeadListed(med, [rk.bySize, rk.byVertices, rk.byS, rk.byLands], importance, idElem, dep);
    } else {
      var x :| MedianRanking.Only(rk.bySize, x);
      assert med == [[x]];
    }
  }

  /** Two different members make a set of at least two. */
  lemma PairCard(xs: set<int>, x: int, y: int)
    requires x in xs && y in xs && x != y
    ensures |xs| >= 2
  {
    SubsetCard({x, y}, xs);
  }

  /** The components whose size passed the bound (`allCCs[i] > 0`): the ones selection considers. */
  function Eligible(allCCs: seq<int>): set<int>
  {
    set i | 0 <= i < |allCCs| && allCCs[i] > 0
  }

  /** The flat array as a map from position to value. */
  function AsMap(xs: seq<int>): (m: map<int, int>)
    ensures forall i :: i in m <==> 0 <= i < |xs|
    ensures forall i | 0 <= i < |xs| :: m[i] == xs[i]
  {
    map i | 0 <= i < |xs| :: xs[i]
  }

  /** The components with candidates left. */
  function Active(pools: map<int, Pool>): set<int>
  {
    set i | i in pools && pools[i].cands != {}
  }

  /** The number of landmarks chosen in each component (`landmarksAssigned.get(i).size()`). */
  function LandsKey(pools: map<int, Pool>): map<int, int>
  {
    map i | i in pools :: |pools[i].landmarks|
  }

  /** The estimate of the oracle size after the picks of trace: the sizes of the picked components, summed. */
  function SumOver(xs: seq<int>, trace: seq<int>): int
    requires forall j | 0 <= j < |trace| :: 0 <= trace[j] < |xs|
  {
    if trace == [] then 0 else SumOver(xs, trace[..|trace| - 1]) + xs[trace[|trace| - 1]]
  }

  /**
   * Position pos of the flat arrays lies in the block of its level s:
   * the level exists and pos - Drift indexes one of its components.
   */
  predicate InBlock(cumSum: seq<int>, levels: seq<seq<seq<int>>>, pos: int)
  {
    var s := SOf(cumSum, pos);
    1 <= s <= |cumSum| && s <= |levels| && 0 <= pos - Drift(cumSum, s) < |levels[s - 1]|
  }

  /** `CCS.getSCCs(s).get(pos - drift)`: the hyperedges of the component at position pos. */
  function ComponentAt(cumSum: seq<int>, levels: seq<seq<seq<int>>>, pos: int): seq<int>
    requires InBlock(cumSum, levels, pos)
  {
    var s := SOf(cumSum, pos);
    levels[s - 1][pos - Drift(cumSum, s)]
  }

  /**
   * The flat arrays describe the components of levels: every eligible
   * position lies in its level's block, its component has hyperedges,
   * and allSs holds its level.
   */
  predicate Layout(allCCs: seq<int>, allSs: seq<int>, allVs: seq<int>, cumSum: seq<int>, levels: seq<seq<seq<int>>>)
  {
    |allSs| == |allCCs| && |allVs| == |allCCs| &&
    forall i | i in Eligible(allCCs) ::
      InBlock(cumSum, levels, i) && ComponentAt(cumSum, levels, i) != [] && allSs[i] == SOf(cumSum, i)
  }

  /**
   * perS gathers, for each s, the landmarks of the components of pools
   * at positions below n whose level is s, and has no other key.
   */
  ghost predicate PerSBelow(perS: map<int, set<int>>, pools: map<int, Pool>, cumSum: seq<int>, n: int)
  {
    (forall t :: t in perS <==> exists i :: i in pools && i < n && SOf(cumSum, i) == t) &&
    forall t, e | t in perS :: e in perS[t] <==> exists i :: i in pools && i < n && SOf(cumSum, i) == t && e in pools[i].landmarks
  }

  /**
   * The result loop of `selectLandmarksUsingRA`: for each eligible
   * position in order, its landmarks added to the set of its level.
   */
  method CollectPerS(pools: map<int, Pool>, cumSum: seq<int>, n: nat) returns (perS: map<int, set<int>>)
    requires forall i | i in pools :: 0 <= i < n
    ensures PerSBelow(perS, pools, cumSum, n)
  {
    perS := map[];
    var i := 0;
    while i < n
      invariant 0 <= i <= n && PerSBelow(perS, pools, cumSum, i)
    {
      if i in pools {
        var sid := GetSFromPos(cumSum, i);
        var tmpSet := if sid in perS then perS[sid] else {};
        perS := perS[sid := tmpSet + pools[i].landmarks];
      }
      i := i + 1;
    }
  }

  /** Adding a component under its key opens it in that ranking. */
  lemma KeyedAdd(R: Buckets, active: set<int>, key: map<int, int>, x: int)
    requires Keyed(R, active, key) && x !in active && x in key
    ensures Keyed(With(R, key[x], x), active + {x}, key)
  {
  }

  /** Adding x to the only bucket, 0, of a ranking. */
  lemma ZeroBucketAdd(R: Buckets, active: set<int>, x: int)
    requires R == map[0 := active]
    ensures R[0 := R[0] + {x}] == map[0 := active + {x}]
  {
  }

  /** KeyedAdd for a ranking keyed by the values of xs. */
  lemma KeyedAddAt(R: Buckets, active: set<int>, xs: seq<int>, x: int)
    requires Keyed(R, active, AsMap(xs)) && x !in active && 0 <= x < |xs|
    ensures Keyed(With(R, xs[x], x), active + {x}, AsMap(xs))
  {
    KeyedAdd(R, active, AsMap(xs), x);
  }

  /** The eligible components below position n. */
  function EligibleBelow(allCCs: seq<int>, n: int): set<int>
  {
    set i | 0 <= i < |allCCs| && i < n && allCCs[i] > 0
  }

  /**
   * The four rankings list exactly the components with candidates left:
   * by size, vertex count and s from the flat arrays, and by the number
   * of landmarks each has.
   */
  ghost predicate Open(rk: Rankings, pools: map<int, Pool>, allCCs: seq<int>, allSs: seq<int>, allVs: seq<int>)
  {
    forall k | 0 <= k < 4 :: Keyed(Nth(rk, k), Active(pools), KeyOf(k, pools, allCCs, allSs, allVs))
  }

  /** Ranking k, in the order the median reads them: size, vertices, s, landmarks. */
  function Nth(rk: Rankings, k: int): Buckets
  {
    if k == 0 then rk.bySize else if k == 1 then rk.byVertices else if k == 2 then rk.byS else rk.byLands
  }

  /** The key of each component in ranking k. */
  function KeyOf(k: int, pools: map<int, Pool>, allCCs: seq<int>, allSs: seq<int>, allVs: seq<int>): map<int, int>
  {
    if k == 0 then AsMap(allCCs) else if k == 1 then AsMap(allVs) else if k == 2 then AsMap(allSs) else LandsKey(pools)
  }

  /** Open, ranking by ranking. */
  lemma OpenIs(rk: Rankings, pools: map<int, Pool>, allCCs: seq<int>, allSs: seq<int>, allVs: seq<int>)
    ensures Open(rk, pools, allCCs, allSs, allVs) <==>
      && Keyed(rk.bySize, Active(pools), AsMap(allCCs))
      && Keyed(rk.byVertices, Active(pools), AsMap(allVs))
      && Keyed(rk.byS, Active(pools), AsMap(allSs))
      && Keyed(rk.byLands, Active(pools), LandsKey(pools))
  {
    if Open(rk, pools, allCCs, allSs, allVs) {
      assert Keyed(Nth(rk, 0), Active(pools), KeyOf(0, pools, allCCs, allSs, allVs));
      assert Keyed(Nth(rk, 1), Active(pools), KeyOf(1, pools, allCCs, allSs, allVs));
      assert Keyed(Nth(rk, 2), Active(pools), KeyOf(2, pools, allCCs, allSs, allVs));
      assert Keyed(Nth(rk, 3), Active(pools), KeyOf(3, pools, allCCs, allSs, allVs));
    }
  }


  /** rk ranks exactly the components of active, none of which has a landmark yet. */
  ghost predicate Listing(rk: Rankings, active: set<int>, allCCs: seq<int>, allSs: seq<int>, allVs: seq<int>)
  {
    Keyed(rk.bySize, active, AsMap(allCCs)) &&
    Keyed(rk.byVertices, active, AsMap(allVs)) &&
    Keyed(rk.byS, active, AsMap(allSs)) &&
    rk.byLands == map[0 := active]
  }

  /** The body of the first loop for an eligible position i: i joins the bucket of its value in each ranking. */
  method AddComponent(rk: Rankings, ghost active: set<int>, i: int, allCCs: seq<int>, allSs: seq<int>, allVs: seq<int>)
    returns (rk': Rankings)
    requires Listing(rk, active, allCCs, allSs, allVs) && i !in active && 0 <= i < |allCCs| == |allSs| == |allVs|
    ensures Listing(rk', active + {i}, allCCs, allSs, allVs)
  {
    KeyedAddAt(rk.bySize, active, allCCs, i);
    KeyedAddAt(rk.byVertices, active, allVs, i);
    KeyedAddAt(rk.byS, active, allSs, i);
    rk' := Rankings(With(rk.bySize, allCCs[i], i), With(rk.byVertices, allVs[i], i),
                    With(rk.byS, allSs[i], i), rk.byLands[0 := rk.byLands[0] + {i}]);
    ZeroBucketAdd(rk.byLands, active, i);
  }

  /** Moving past position i adds i to the eligible positions when it is eligible. */
  lemma EligibleStep(allCCs: seq<int>, i: int)
    requires 0 <= i < |allCCs|
    ensures EligibleBelow(allCCs, i + 1) == EligibleBelow(allCCs, i) + (if allCCs[i] > 0 then {i} else {})
    ensures i !in EligibleBelow(allCCs, i)
  {
  }

  /**
   * The first loop of `selectLandmarksUsingRA`: every eligible component
   * bucketed by size, vertex count and s, and all of them under 0
   * landmarks (`tmp4.put(0, new set)` first, so the bucket 0 exists even
   * when no component is eligible).
   */
  method InitialRankings(allCCs: seq<int>, allSs: seq<int>, allVs: seq<int>) returns (rk: Rankings)
    requires |allSs| == |allCCs| && |allVs| == |allCCs|
    ensures Listing(rk, Eligible(allCCs), allCCs, allSs, allVs)
  {
    rk := Rankings(map[], map[], map[], map[0 := {}]);
    var i := 0;
    assert EligibleBelow(allCCs, 0) == {};
    while i < |allCCs|
      invariant 0 <= i <= |allCCs| && Listing(rk, EligibleBelow(allCCs, i), allCCs, allSs, allVs)
    {
      EligibleStep(allCCs, i);
      if allCCs[i] > 0 {
        rk := AddComponent(rk, EligibleBelow(allCCs, i), i, allCCs, allSs, allVs);
      } else {
        assert EligibleBelow(allCCs, i + 1) == EligibleBelow(allCCs, i);
      }
      i := i + 1;
    }
    assert EligibleBelow(allCCs, i) == Eligible(allCCs);
  }

  /** Each eligible component at the start: all its hyperedges candidates, no landmark, no path. */
  ghost predicate Fresh(pools: map<int, Pool>, cumSum: seq<int>, levels: seq<seq<seq<int>>>)
  {
    forall i | i in pools :: InBlock(cumSum, levels, i) && pools[i] == Pool(Utils.Elements(ComponentAt(cumSum, levels, i)), {}, map[])
  }

  /**
   * The second loop of `selectLandmarksUsingRA` (`candsMap`): the
   * candidates of each eligible component are the hyperedges of its
   * component at level getSFromPos, offset by the drift of that level.
   */
  method InitialPools(allCCs: seq<int>, cumSum: seq<int>, levels: seq<seq<seq<int>>>) returns (pools: map<int, Pool>)
    requires forall i | i in Eligible(allCCs) :: InBlock(cumSum, levels, i)
    ensures pools.Keys == Eligible(allCCs) && Fresh(pools, cumSum, levels)
  {
    pools := map[];
    var i := 0;
    assert EligibleBelow(allCCs, 0) == {};
    while i < |allCCs|
      invariant 0 <= i <= |allCCs| && pools.Keys == EligibleBelow(allCCs, i) && Fresh(pools, cumSum, levels)
    {
      EligibleStep(allCCs, i);
      if allCCs[i] > 0 {
        assert i in Eligible(allCCs);
        var s := GetSFromPos(cumSum, i);
        var drift := if s > 1 then cumSum[s - 2] else 0;
        pools := pools[i := Pool(Utils.Elements(levels[s - 1][i - drift]), {}, map[])];
      }
      i := i + 1;
    }
    assert EligibleBelow(allCCs, i) == Eligible(allCCs);
  }

  /**
   * The ranking updates after component sel (of level s) received a
   * landmark and became q: it leaves its landmark bucket; with no
   * candidate left it leaves the size, vertex and s rankings too,
   * otherwise it joins the bucket of its new landmark count.
   */
  method Reorder(rk: Rankings, ghost pools: map<int, Pool>, sel: int, q: Pool, oldLands: int, s: int,
                 allCCs: seq<int>, allSs: seq<int>, allVs: seq<int>) returns (rk': Rankings)
    requires Open(rk, pools, allCCs, allSs, allVs) && sel in Active(pools)
    requires oldLands == |pools[sel].landmarks| && 0 <= sel < |allCCs| == |allSs| == |allVs| && allSs[sel] == s
    ensures Open(rk', pools[sel := q], allCCs, allSs, allVs)
  {
    OpenHas(rk, pools, sel, oldLands, s, allCCs, allSs, allVs);
    if q.cands == {} {
      rk' := Rankings(Without(rk.bySize, allCCs[sel], sel), Without(rk.byVertices, allVs[sel], sel),
                      Without(rk.byS, s, sel), Without(rk.byLands, oldLands, sel));
      ReorderClosed(rk, pools, sel, q, oldLands, s, allCCs, allSs, allVs);
    } else {
      rk' := rk.(byLands := With(Without(rk.byLands, oldLands, sel), |q.landmarks|, sel));
      ReorderMoved(rk, pools, sel, q, oldLands, allCCs, allSs, allVs);
    }
  }

  /** An open component sits in the bucket of its key in each ranking. */
  lemma OpenHas(rk: Rankings, pools: map<int, Pool>, sel: int, oldLands: int, s: int,
                allCCs: seq<int>, allSs: seq<int>, allVs: seq<int>)
    requires Open(rk, pools, allCCs, allSs, allVs) && sel in Active(pools)
    requires oldLands == |pools[sel].landmarks| && 0 <= sel < |allCCs| == |allSs| == |allVs| && allSs[sel] == s
    ensures allCCs[sel] in rk.bySize && allVs[sel] in rk.byVertices && s in rk.byS && oldLands in rk.byLands
  {
    OpenIs(rk, pools, allCCs, allSs, allVs);
  }

  /** Reorder when sel has no candidate left: it leaves all four rankings. */
  lemma ReorderClosed(rk: Rankings, pools: map<int, Pool>, sel: int, q: Pool, oldLands: int, s: int,
                      allCCs: seq<int>, allSs: seq<int>, allVs: seq<int>)
    requires Open(rk, pools, allCCs, allSs, allVs) && sel in Active(pools) && q.cands == {}
    requires oldLands == |pools[sel].landmarks| && 0 <= sel < |allCCs| == |allSs| == |allVs| && allSs[sel] == s
    requires allCCs[sel] in rk.bySize && allVs[sel] in rk.byVertices && s in rk.byS && oldLands in rk.byLands
    ensures Open(Rankings(Without(rk.bySize, allCCs[sel], sel), Without(rk.byVertices, allVs[sel], sel),
                          Without(rk.byS, s, sel), Without(rk.byLands, oldLands, sel)),
                 pools[sel := q], allCCs, allSs, allVs)
  {
    OpenIs(rk, pools, allCCs, allSs, allVs);
    var pools' := pools[sel := q];
    var key := LandsKey(pools);
    KeyedDrop(rk.byLands, Active(pools), key, sel);
    var lands := Without(rk.byLands, oldLands, sel);
    assert Active(pools') == Active(pools) - {sel};
    KeyedDrop(rk.bySize, Active(pools), AsMap(allCCs), sel);
    KeyedDrop(rk.byVertices, Active(pools), AsMap(allVs), sel);
    KeyedDrop(rk.byS, Active(pools), AsMap(allSs), sel);
    KeyedRekey(lands, Active(pools'), key, LandsKey(pools'));
    var rk' := Rankings(Without(rk.bySize, allCCs[sel], sel), Without(rk.byVertices, allVs[sel], sel),
                        Without(rk.byS, s, sel), lands);
    OpenIs(rk', pools', allCCs, allSs, allVs);
  }

  /** Reorder when sel keeps candidates: it moves to the bucket of its new landmark count. */
  lemma ReorderMoved(rk: Rankings, pools: map<int, Pool>, sel: int, q: Pool, oldLands: int,
                     allCCs: seq<int>, allSs: seq<int>, allVs: seq<int>)
    requires Open(rk, pools, allCCs, allSs, allVs) && sel in Active(pools) && q.cands != {}
    requires oldLands == |pools[sel].landmarks| && oldLands in rk.byLands
    ensures Open(rk.(byLands := With(Without(rk.byLands, oldLands, sel), |q.landmarks|, sel)),
                 pools[sel := q], allCCs, allSs, allVs)
  {
    OpenIs(rk, pools, allCCs, allSs, allVs);
    var pools' := pools[sel := q];
    assert Active(pools') == Active(pools);
    KeyedMove(rk.byLands, Active(pools), LandsKey(pools), sel, |q.landmarks|);
    LandsKeySet(pools, sel, q);
    OpenIs(rk.(byLands := With(Without(rk.byLands, oldLands, sel), |q.landmarks|, sel)), pools', allCCs, allSs, allVs);
  }

  /** Replacing one pool changes its landmark count and no other. */
  lemma LandsKeySet(pools: map<int, Pool>, sel: int, q: Pool)
    ensures LandsKey(pools)[sel := |q.landmarks|] == LandsKey(pools[sel := q])
  {
  }

  /** A component's hyperedges split into the candidates left and the landmarks chosen. */
  predicate Split(p: Pool, comp: set<int>)
  {
    p.cands !! p.landmarks && p.cands + p.landmarks == comp
  }

  /**
   * The picks of trace are eligible components, and each was made while
   * the estimate of the oracle size was still below the budget.
   */
  predicate Spent(allCCs: seq<int>, trace: seq<int>, budget: int)
  {
    (forall j | 0 <= j < |trace| :: 0 <= trace[j] < |allCCs| && allCCs[trace[j]] > 0) &&
    forall j | 0 <= j < |trace| :: SumOver(allCCs, trace[..j]) < budget
  }

  /** One more pick, made below the budget, extends the record. */
  lemma SpentGrow(allCCs: seq<int>, trace: seq<int>, budget: int, sel: int)
    requires Spent(allCCs, trace, budget) && 0 <= sel < |allCCs| && allCCs[sel] > 0 && SumOver(allCCs, trace) < budget
    ensures Spent(allCCs, trace + [sel], budget)
    ensures SumOver(allCCs, trace + [sel]) == SumOver(allCCs, trace) + allCCs[sel]
  {
    var t := trace + [sel];
    assert t[..|trace|] == trace;
    forall j | 0 <= j < |t|
      ensures SumOver(allCCs, t[..j]) < budget
    {
      if j < |trace| {
        assert t[..j] == trace[..j];
      }
    }
  }

  /**
   * Each eligible component has a pool whose candidates lie in its
   * component and which has at most one landmark per pick of it in trace;
   * when fixed (the strategies that always pick a candidate), the
   * candidates and landmarks split the component and every pick added a
   * landmark.
   */
  ghost predicate Progress(state: map<int, Pool>, trace: seq<int>, allCCs: seq<int>, cumSum: seq<int>,
                           levels: seq<seq<seq<int>>>, fixed: bool)
  {
    state.Keys == Eligible(allCCs) &&
    (forall i | i in state :: InBlock(cumSum, levels, i)) &&
    (forall i | i in state ::
      state[i].cands <= Utils.Elements(ComponentAt(cumSum, levels, i)) && |state[i].landmarks| <= multiset(trace)[i]) &&
    (fixed ==> forall i | i in state ::
      Split(state[i], Utils.Elements(ComponentAt(cumSum, levels, i))) && |state[i].landmarks| == multiset(trace)[i])
  }

  /** Before any pick, every eligible component is fresh. */
  lemma ProgressStart(state: map<int, Pool>, allCCs: seq<int>, cumSum: seq<int>, levels: seq<seq<seq<int>>>, fixed: bool)
    requires state.Keys == Eligible(allCCs) && Fresh(state, cumSum, levels)
    ensures Progress(state, [], allCCs, cumSum, levels, fixed)
  {
  }

  /** A pick that moves x out of the candidates of sel keeps the progress record. */
  lemma ProgressGrow(state: map<int, Pool>, trace: seq<int>, allCCs: seq<int>, cumSum: seq<int>,
                     levels: seq<seq<seq<int>>>, fixed: bool, sel: int, q: Pool, x: int)
    requires Progress(state, trace, allCCs, cumSum, levels, fixed) && sel in state && MovedTo(state[sel], q, x)
    requires fixed ==> x in state[sel].cands
    ensures Progress(state[sel := q], trace + [sel], allCCs, cumSum, levels, fixed)
  {
    var p := state[sel];
    var st, t := state[sel := q], trace + [sel];
    assert multiset(t) == multiset(trace) + multiset{sel};
    assert st.Keys == state.Keys;
    assert |q.landmarks| <= |p.landmarks| + 1 by {
      SubsetCard(q.landmarks, p.landmarks + {x});
    }
    forall i | i in st
      ensures InBlock(cumSum, levels, i)
      ensures st[i].cands <= Utils.Elements(ComponentAt(cumSum, levels, i)) && |st[i].landmarks| <= multiset(t)[i]
    {
      assert i in state;
      if i != sel {
        assert st[i] == state[i] && multiset(t)[i] == multiset(trace)[i];
      }
    }
    if fixed {
      GrowFixed(state, trace, cumSum, levels, sel, q, x);
    }
  }

  /** The fixed half of ProgressGrow: the split and the exact landmark count survive the pick. */
  lemma GrowFixed(state: map<int, Pool>, trace: seq<int>, cumSum: seq<int>, levels: seq<seq<seq<int>>>,
                  sel: int, q: Pool, x: int)
    requires sel in state && MovedTo(state[sel], q, x) && x in state[sel].cands
    requires forall i | i in state :: InBlock(cumSum, levels, i)
    requires forall i | i in state ::
      Split(state[i], Utils.Elements(ComponentAt(cumSum, levels, i))) && |state[i].landmarks| == multiset(trace)[i]
    ensures forall i | i in state[sel := q] ::
      Split(state[sel := q][i], Utils.Elements(ComponentAt(cumSum, levels, i))) &&
      |state[sel := q][i].landmarks| == multiset(trace + [sel])[i]
  {
    var st, t := state[sel := q], trace + [sel];
    assert multiset(t) == multiset(trace) + multiset{sel};
    forall i | i in st
      ensures Split(st[i], Utils.Elements(ComponentAt(cumSum, levels, i))) && |st[i].landmarks| == multiset(t)[i]
    {
      assert i in state;
      if i == sel {
        SplitMoved(state[sel], q, x, Utils.Elements(ComponentAt(cumSum, levels, i)));
      } else {
        assert st[i] == state[i] && multiset(t)[i] == multiset(trace)[i];
      }
    }
  }

  /** Moving a candidate into the landmarks keeps the split and adds one landmark. */
  lemma SplitMoved(p: Pool, q: Pool, x: int, comp: set<int>)
    requires Split(p, comp) && MovedTo(p, q, x) && x in p.cands
    ensures Split(q, comp) && |q.landmarks| == |p.landmarks| + 1
  {
    assert x !in p.landmarks;
  }

  /**
   * med is the median ranking of rk: a bucket of its own for a lone ranked
   * component, otherwise a median of the four rankings (size, vertices, s
   * and landmarks) under the importance factors.
   */
  ghost predicate MedianOf(rk: Rankings, importance: seq<real>, med: seq<seq<int>>)
  {
    (forall x | MedianRanking.Only(rk.bySize, x) :: med == [[x]]) &&
    (MedianRanking.Many(rk.bySize) ==>
      exists idElem, dep :: MedianRanking.Median(med, [rk.bySize, rk.byVertices, rk.byS, rk.byLands], importance, idElem, dep))
  }

  /**
   * `BioConsert.computeMedianRanking(tmp1, tmp2, tmp3, tmp4, importance)`
   * over rankings of the components still open: the median ranking of
   * them, whose first bucket holds open components; it fails only for two
   * or more components with fewer than four importance factors.
   */
  method HeadRanking(rk: Rankings, ghost pools: map<int, Pool>, allCCs: seq<int>, allSs: seq<int>, allVs: seq<int>,
                     importance: seq<real>) returns (m: Option<seq<seq<int>>>)
    requires Open(rk, pools, allCCs, allSs, allVs) && Active(pools) != {}
    ensures m.None? <==> |Active(pools)| >= 2 && |importance| < 4
    ensures m.Some? ==> m.value != [] && m.value[0] != [] && forall x | x in m.value[0] :: x in Active(pools)
    ensures m.Some? ==> MedianOf(rk, importance, m.value)
  {
    OpenIs(rk, pools, allCCs, allSs, allVs);
    var active := Active(pools);
    KeyedListed(rk.bySize, active, AsMap(allCCs));
    KeyedListed(rk.byVertices, active, AsMap(allVs));
    KeyedListed(rk.byS, active, AsMap(allSs));
    KeyedListed(rk.byLands, active, LandsKey(pools));
    ghost var idElem, dep;
    m, idElem, dep := MedianRanking.ComputeMedianRanking(rk.bySize, rk.byVertices, rk.byS, rk.byLands, importance);
    if MedianRanking.Many(rk.bySize) {
      var x, y :| Listed(rk.bySize, x) && Listed(rk.bySize, y) && x != y;
      PairCard(active, x, y);
    }
    if |active| >= 2 {
      var x := Member(active);
      assert |active - {x}| == |active| - 1;
      var y := Member(active - {x});
      assert Listed(rk.bySize, x) && Listed(rk.bySize, y);
    }
    if m.Some? {
      HeadOfMedian(rk, importance, m.value, idElem, dep);
      if MedianRanking.Many(rk.bySize) {
        assert MedianRanking.Median(m.value, [rk.bySize, rk.byVertices, rk.byS, rk.byLands], importance, idElem, dep);
      }
    }
  }

  /**
   * The state of the selection loop at its head: the rankings list the
   * open components, some component is open, the progress and budget
   * records hold, med is the median ranking of rk and its first bucket
   * holds open components, and a median only exists with fewer than four
   * importance factors when at most one component is eligible.
   */
  ghost predicate Running(rk: Rankings, state: map<int, Pool>, trace: seq<int>, med: seq<seq<int>>,
                          allCCs: seq<int>, allSs: seq<int>, allVs: seq<int>, cumSum: seq<int>,
                          levels: seq<seq<seq<int>>>, budget: int, importance: seq<real>, fixed: bool)
  {
    Open(rk, state, allCCs, allSs, allVs) && Active(state) != {} &&
    Progress(state, trace, allCCs, cumSum, levels, fixed) && Spent(allCCs, trace, budget) &&
    med != [] && med[0] != [] && (forall x | x in med[0] :: x in Active(state)) && MedianOf(rk, importance, med) &&
    (|importance| < 4 ==> |Eligible(allCCs)| <= 1)
  }

  /**
   * after is before with one candidate of component sel moved into its
   * landmarks; every other component keeps its pool.
   */
  ghost predicate PickedFrom(before: map<int, Pool>, sel: int, after: map<int, Pool>)
  {
    sel in before && sel in after && after == before[sel := after[sel]] &&
    exists x :: MovedTo(before[sel], after[sel], x)
  }

  /** One entry per round: the rankings, the pools, the median at its head, and the pools after its pick. */
  type Head = (Rankings, map<int, Pool>, seq<seq<int>>, map<int, Pool>)

  /**
   * The rounds of the selection loop, from the pools start to the pools
   * final: round i begins with the pools heads[i].1 (start for the first
   * round, what round i - 1 left otherwise), whose open components the
   * rankings heads[i].0 list; its pick trace[i] is in the first bucket of
   * the median heads[i].2 of those rankings, and the pick turns
   * heads[i].1 into heads[i].3; final is what the last round left.
   */
  ghost predicate DrawnFromMedians(trace: seq<int>, heads: seq<Head>, start: map<int, Pool>, final: map<int, Pool>,
                                   importance: seq<real>, allCCs: seq<int>, allSs: seq<int>, allVs: seq<int>)
  {
    |heads| == |trace| &&
    (forall i | 0 <= i < |trace| ::
      heads[i].2 != [] && trace[i] in heads[i].2[0] && MedianOf(heads[i].0, importance, heads[i].2) &&
      Open(heads[i].0, heads[i].1, allCCs, allSs, allVs) && Active(heads[i].1) != {} &&
      PickedFrom(heads[i].1, trace[i], heads[i].3)) &&
    (forall i | 0 < i < |trace| :: heads[i].1 == heads[i - 1].3) &&
    (trace != [] ==> heads[0].1 == start) &&
    final == if trace == [] then start else heads[|trace| - 1].3
  }

  /** A round that picks sel from the median of the current pools and leaves state' extends the record. */
  lemma DrawnStep(trace: seq<int>, heads: seq<Head>, start: map<int, Pool>, importance: seq<real>,
                  allCCs: seq<int>, allSs: seq<int>, allVs: seq<int>,
                  rk: Rankings, state: map<int, Pool>, med: seq<seq<int>>, sel: int, state': map<int, Pool>)
    requires DrawnFromMedians(trace, heads, start, state, importance, allCCs, allSs, allVs)
    requires med != [] && sel in med[0] && MedianOf(rk, importance, med) && Open(rk, state, allCCs, allSs, allVs)
    requires Active(state) != {} && PickedFrom(state, sel, state')
    ensures DrawnFromMedians(trace + [sel], heads + [(rk, state, med, state')], start, state', importance, allCCs, allSs, allVs)
  {
    var t, h := trace + [sel], heads + [(rk, state, med, state')];
    forall i | 0 <= i < |t|
      ensures h[i].2 != [] && t[i] in h[i].2[0] && MedianOf(h[i].0, importance, h[i].2) &&
              Open(h[i].0, h[i].1, allCCs, allSs, allVs) && Active(h[i].1) != {} && PickedFrom(h[i].1, t[i], h[i].3)
    {
      if i < |trace| {
        assert t[i] == trace[i] && h[i] == heads[i];
      }
    }
    forall i | 0 < i < |t|
      ensures h[i].1 == h[i - 1].3
    {
      if i < |trace| {
        assert h[i] == heads[i] && h[i - 1] == heads[i - 1];
      }
    }
  }

  /**
   * Under the record of rounds, every pick was a component still open
   * (with candidates left) in the pools of its round, and no round adds or
   * drops a component: every round's pools, and the final ones, have the
   * components of start.
   */
  lemma DrawnPicksOpen(trace: seq<int>, heads: seq<Head>, start: map<int, Pool>, final: map<int, Pool>,
                       importance: seq<real>, allCCs: seq<int>, allSs: seq<int>, allVs: seq<int>)
    requires DrawnFromMedians(trace, heads, start, final, importance, allCCs, allSs, allVs)
    ensures forall i | 0 <= i < |trace| :: trace[i] in Active(heads[i].1) && heads[i].1.Keys == start.Keys
    ensures final.Keys == start.Keys
  {
    forall i | 0 <= i < |trace|
      ensures trace[i] in Active(heads[i].1) && heads[i].1.Keys == start.Keys
    {
      var rk, pools, med := heads[i].0, heads[i].1, heads[i].2;
      OpenIs(rk, pools, allCCs, allSs, allVs);
      KeyedListed(rk.bySize, Active(pools), AsMap(allCCs));
      if MedianRanking.Many(rk.bySize) {
        var idElem, dep :| MedianRanking.Median(med, [rk.bySize, rk.byVertices, rk.byS, rk.byLands], importance, idElem, dep);
        HeadOfMedian(rk, importance, med, idElem, dep);
      } else {
        HeadOfMedian(rk, importance, med, [], []);
      }
      DrawnKeys(trace, heads, start, final, importance, allCCs, allSs, allVs, i);
    }
    if trace != [] {
      DrawnKeys(trace, heads, start, final, importance, allCCs, allSs, allVs, |trace| - 1);
    }
  }

  /** The rounds up to round i keep the components of start. */
  lemma {:induction false} DrawnKeys(trace: seq<int>, heads: seq<Head>, start: map<int, Pool>, final: map<int, Pool>,
                                     importance: seq<real>, allCCs: seq<int>, allSs: seq<int>, allVs: seq<int>, i: nat)
    requires DrawnFromMedians(trace, heads, start, final, importance, allCCs, allSs, allVs) && i < |trace|
    ensures heads[i].1.Keys == start.Keys && heads[i].3.Keys == start.Keys
    decreases i
  {
    if i > 0 {
      DrawnKeys(trace, heads, start, final, importance, allCCs, allSs, allVs, i - 1);
      assert heads[i].1 == heads[i - 1].3;
    }
    var before, after := heads[i].1, heads[i].3;
    assert PickedFrom(before, trace[i], after);
    assert after == before[trace[i] := after[trace[i]]];
  }

  /**
   * The set-up of `selectLandmarksUsingRA`: the initial rankings and the
   * fresh pools of the eligible components, every one of them open.
   */
  method Start(allCCs: seq<int>, allSs: seq<int>, allVs: seq<int>, cumSum: seq<int>, levels: seq<seq<seq<int>>>,
               ghost fixed: bool) returns (rk: Rankings, state: map<int, Pool>)
    requires Layout(allCCs, allSs, allVs, cumSum, levels)
    ensures Progress(state, [], allCCs, cumSum, levels, fixed) && Active(state) == Eligible(allCCs)
    ensures state.Keys == Eligible(allCCs) && Fresh(state, cumSum, levels)
    ensures rk.bySize == map[] <==> Eligible(allCCs) == {}
    ensures Eligible(allCCs) != {} ==> Open(rk, state, allCCs, allSs, allVs)
  {
    rk := InitialRankings(allCCs, allSs, allVs);
    state := InitialPools(allCCs, cumSum, levels);
    ProgressStart(state, allCCs, cumSum, levels, fixed);
    FreshActive(state, allCCs, allSs, allVs, cumSum, levels);
    KeyedListed(rk.bySize, Eligible(allCCs), AsMap(allCCs));
    if Eligible(allCCs) != {} {
      FreshLands(rk.byLands, state, Eligible(allCCs));
      OpenIs(rk, state, allCCs, allSs, allVs);
    }
  }

  /** Every fresh pool has candidates: each eligible component has hyperedges. */
  lemma FreshActive(state: map<int, Pool>, allCCs: seq<int>, allSs: seq<int>, allVs: seq<int>, cumSum: seq<int>,
                    levels: seq<seq<seq<int>>>)
    requires Layout(allCCs, allSs, allVs, cumSum, levels) && state.Keys == Eligible(allCCs) && Fresh(state, cumSum, levels)
    ensures Active(state) == Eligible(allCCs)
  {
    forall i | i in state
      ensures state[i].cands != {}
    {
      var c := ComponentAt(cumSum, levels, i);
      assert c[0] in state[i].cands;
    }
  }

  /** All open components under 0 landmarks is the landmark ranking of fresh pools. */
  lemma FreshLands(lands: Buckets, state: map<int, Pool>, active: set<int>)
    requires lands == map[0 := active] && active != {} && state.Keys == active
    requires forall i | i in state :: state[i].landmarks == {}
    ensures Keyed(lands, active, LandsKey(state))
  {
  }

}
