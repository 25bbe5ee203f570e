/**
 * The landmark selector: a hypergraph, the strategy its configured name
 * selects, and an optional cache of sampled paths per s that repeated
 * baseline runs reuse. Batch selection picks k landmarks of a component
 * at once; the per-component entry point unions the selections of all
 * components of one s, the baseline selects among all hyperedges of size
 * at least s.
 */
module LandmarkSelection {
  import opened Wrappers
  import opened Walks
  import opened HyperGraphs
  import opened LandmarkAssignment
  import opened SelectorBasics
  import Utils
  import SelectionParts
  import PathSample
  import BatchSelection
  import Inc = IncrementalSelection
  import RS = RankedSelection
  import MedianRanking

  /** The graph's neighbour maps are consistent and symmetric, so its searches can run. */
  ghost predicate Searchable(g: HyperGraph)
    reads g.hyperedges
  {
    g.ConsistentMaps(g.Nb()) && Symmetric(g.Nb())
  }

  /** Sampling n candidates with this size terminates: -1 (the default) or at most n, unless fewer than 2. */
  predicate SampleFits(sampleSize: int, n: int)
  {
    sampleSize != -1 && n >= 2 ==> sampleSize <= n
  }

  /** The union of the sets of parts. */
  function UnionOf(parts: seq<set<int>>): (r: set<int>)
    ensures forall i | 0 <= i < |parts| :: parts[i] <= r
    ensures forall x | x in r :: exists i | 0 <= i < |parts| :: x in parts[i]
  {
    if parts == [] then {} else UnionOf(parts[..|parts| - 1]) + parts[|parts| - 1]
  }

  /** One more part adds its members to the union. */
  lemma UnionGrow(parts: seq<set<int>>, part: set<int>)
    ensures UnionOf(parts + [part]) == UnionOf(parts) + part
  {
    assert (parts + [part])[..|parts|] == parts;
  }

  /** `(int) (n * samplePerc)` at least 1: the baseline's sample size over n candidates. */
  function BaselineSample(n: nat): (r: int)
    ensures 1 <= r && (n >= 1 ==> r <= n)
  {
    Max(1, (n as real * PathSample.SamplePerc).Floor)
  }

  /**
   * Each part is a selection within its component: a subset of it, of
   * the component's count of landmarks (all of it when it has fewer).
   */
  predicate PartsFit(parts: seq<set<int>>, numLandmarks: seq<int>, start: int, ccs: seq<seq<int>>)
  {
    0 <= start && |parts| <= |ccs| && start + |parts| <= |numLandmarks| &&
    forall i | 0 <= i < |parts| ::
      && parts[i] <= Utils.Elements(ccs[i])
      && (numLandmarks[start + i] >= 0 ==> |parts[i]| == Min(numLandmarks[start + i], |Utils.Elements(ccs[i])|))
  }

  /** A selection within the next component extends the parts. */
  lemma PartsGrow(parts: seq<set<int>>, part: set<int>, numLandmarks: seq<int>, start: int, ccs: seq<seq<int>>)
    requires PartsFit(parts, numLandmarks, start, ccs) && |parts| < |ccs| && start + |parts| < |numLandmarks|
    requires part <= Utils.Elements(ccs[|parts|])
    requires numLandmarks[start + |parts|] >= 0 ==>
      |part| == Min(numLandmarks[start + |parts|], |Utils.Elements(ccs[|parts|])|)
    ensures PartsFit(parts + [part], numLandmarks, start, ccs)
  {
    assert (parts + [part])[..|parts|] == parts;
  }

  /** Every component's count of landmarks lies between 0 and its size. */
  predicate AllFit(numLandmarks: seq<int>, start: int, ccs: seq<seq<int>>)
  {
    0 <= start && start + |ccs| <= |numLandmarks| &&
    forall i | 0 <= i < |ccs| :: 0 <= numLandmarks[start + i] <= |Utils.Elements(ccs[i])|
  }

  /** Under AllFit, component i's count of landmarks lies between 0 and its size. */
  lemma FitsAt(numLandmarks: seq<int>, start: int, ccs: seq<seq<int>>, i: int)
    requires 0 <= i < |ccs|
    ensures AllFit(numLandmarks, start, ccs) ==> 0 <= numLandmarks[start + i] <= |Utils.Elements(ccs[i])|
  {
  }

  class LandmarkSelector {
    const graph: HyperGraph
    const strategy: Strategy
    /** `pathsPerS`: None until the cache is initialised; then the sampled paths kept per s. */
    var pathsPerS: Option<map<int, seq<set<int>>>>

    /** `new LandMarkSelector(graph, method, seed)`; the seed is left out with the random source. */
    constructor (graph: HyperGraph, name: string)
      ensures this.graph == graph && strategy == StrategyNamed(name) && pathsPerS == None
    {
      this.graph := graph;
      strategy := StrategyNamed(name);
      pathsPerS := None;
    }

    /** `initializeCache()`: an empty path cache, which best-cover and betweenness then fill. */
    method InitializeCache()
      modifies this
      ensures pathsPerS == Some(map[])
    {
      pathsPerS := Some(map[]);
    }

    /** The cache holds a non-empty path list for s. */
    predicate Cached(s: int)
      reads this
    {
      pathsPerS.Some? && s in pathsPerS.value && pathsPerS.value[s] != []
    }

    /**
     * The paths for s: the cached ones when there are any, otherwise a
     * fresh sample over the candidates.
     */
    method PathsFor(cands: set<int>, sampleSize: int, s: int, allPaths: bool) returns (paths: seq<set<int>>)
      requires Searchable(graph) && AllEdges(graph, cands) && SampleFits(sampleSize, |cands|)
      ensures Cached(s) ==> paths == pathsPerS.value[s]
      ensures !Cached(s) ==> forall i | 0 <= i < |paths| :: paths[i] != {}
    {
      if Cached(s) {
        paths := pathsPerS.value[s];
      } else {
        var sample;
        ghost var origin;
        paths, sample, origin := PathSample.FindPathsInSample(graph, cands, sampleSize, s, allPaths);
      }
    }

    /**
     * `bestCoverSelection(candidates, numLandmarks, sampleSize, s)`: greedy
     * rounds over the sampled paths (see SelectionParts.CoverRound), the
     * paths still uncovered written back to the cache, and any shortfall
     * filled by degree among the candidates not chosen. greedy is what the
     * rounds chose, paths what they covered.
     */
    method BestCoverSelection(cands: set<int>, k: int, sampleSize: int, s: int)
      returns (r: Option<set<int>>, ghost greedy: set<int>, ghost paths: seq<set<int>>)
      modifies this
      requires Searchable(graph) && AllEdges(graph, cands) && SampleFits(sampleSize, |cands|)
      ensures k == 0 ==> r == Some({}) && pathsPerS == old(pathsPerS)
      ensures r.None? <==> k < 0 && cands != {}
      ensures r.Some? ==> r.value <= cands && |r.value| == Min(Max(k, 0), |cands|)
      ensures r.Some? && k > 0 ==>
        greedy <= r.value && |greedy| <= k && TopDegree(graph.Nb(), s, r.value - greedy, cands - greedy, k - |greedy|)
      ensures k != 0 && old(Cached(s)) ==> paths == old(pathsPerS).value[s]
      ensures k != 0 && old(pathsPerS).Some? ==>
        && pathsPerS.Some?
        && pathsPerS.value.Keys == old(pathsPerS).value.Keys + {s}
        && (forall t | t in pathsPerS.value && t != s :: pathsPerS.value[t] == old(pathsPerS).value[t])
        && (forall q | q in pathsPerS.value[s] :: q in paths)
      ensures old(pathsPerS).None? ==> pathsPerS == None
    {
      greedy, paths := {}, [];
      if k == 0 {
        return Some({}), greedy, paths;
      }
      var sampled := PathsFor(cands, sampleSize, s, false);
      var chosen, present := SelectionParts.CoverRounds(sampled, cands, k);
      var kept := SelectionParts.Compact(sampled, present);
      SelectionParts.KeptIsPresent(sampled, present);
      if pathsPerS.Some? {
        pathsPerS := Some(pathsPerS.value[s := kept]);
      }
      greedy, paths := chosen, sampled;
      r := PadByDegree(cands, chosen, k, s);
    }

    /**
     * The shortfall after the strategy's own picks: nothing when k are
     * chosen, otherwise `degreeSelection` over the candidates not chosen.
     */
    method PadByDegree(cands: set<int>, chosen: set<int>, k: int, s: int) returns (r: Option<set<int>>)
      requires AllEdges(graph, cands) && chosen <= cands && |chosen| <= Max(k, 0)
      ensures r.None? <==> k < 0 && cands != {}
      ensures r.Some? ==> chosen <= r.value <= cands && |r.value| == Min(Max(k, 0), |cands|)
      ensures r.Some? ==> TopDegree(graph.Nb(), s, r.value - chosen, cands - chosen, Max(k, 0) - |chosen|)
    {
      if k - |chosen| == 0 {
        assert cands - chosen <= cands;
        return Some(chosen);
      }
      var more := BatchSelection.DegreeSelection(graph, cands - chosen, k - |chosen|, s);
      if more.None? {
        return None;
      }
      assert more.value !! chosen && (chosen + more.value) - chosen == more.value;
      DiffCard(cands, chosen);
      SubsetCard(chosen, cands);
      return Some(chosen + more.value);
    }

    /**
     * `betweennessSelection(candidates, numLandmarks, sampleSize, s)`: the
     * candidates on the most sampled paths (all shortest paths per pair),
     * top is that prefix of the sorted counts, and any shortfall is filled
     * by degree. The paths are written to the cache unchanged.
     */
    method BetweennessSelection(cands: set<int>, k: int, sampleSize: int, s: int)
      returns (r: Option<set<int>>, ghost top: set<int>, ghost counts: map<int, int>, ghost paths: seq<set<int>>)
      modifies this
      requires Searchable(graph) && AllEdges(graph, cands) && SampleFits(sampleSize, |cands|)
      ensures k == 0 ==> r == Some({}) && pathsPerS == old(pathsPerS)
      ensures r.None? <==> k < 0 && cands != {}
      ensures r.Some? ==> r.value <= cands && |r.value| == Min(Max(k, 0), |cands|)
      ensures k != 0 ==>
        && SelectionParts.Counted(counts, paths, SelectionParts.Indices(|paths|), cands)
        && SelectionParts.TopCount(top, counts, Max(k, 0))
      ensures r.Some? && k != 0 ==> top <= r.value && TopDegree(graph.Nb(), s, r.value - top, cands - top, Max(k, 0) - |top|)
      ensures k != 0 && old(Cached(s)) ==> paths == old(pathsPerS).value[s]
      ensures k != 0 && old(pathsPerS).Some? ==> pathsPerS == Some(old(pathsPerS).value[s := paths])
      ensures old(pathsPerS).None? ==> pathsPerS == None
    {
      top, counts, paths := {}, map[], [];
      if k == 0 {
        return Some({}), top, counts, paths;
      }
      var sampled := PathsFor(cands, sampleSize, s, true);
      if pathsPerS.Some? {
        pathsPerS := Some(pathsPerS.value[s := sampled]);
      }
      var first, tally := TopByCount(sampled, cands, k);
      top, counts, paths := first, tally, sampled;
      r := PadByDegree(cands, first, k, s);
    }

    /** The candidates on the most paths: the paths are counted, sorted by count and the first k taken. */
    method TopByCount(sampled: seq<set<int>>, cands: set<int>, k: int) returns (first: set<int>, tally: map<int, int>)
      ensures SelectionParts.Counted(tally, sampled, SelectionParts.Indices(|sampled|), cands)
      ensures SelectionParts.TopCount(first, tally, Max(k, 0))
      ensures first <= cands && |first| <= Max(k, 0)
    {
      tally := SelectionParts.CountPaths(sampled, cands);
      var entries := SelectionParts.SortByCount(tally);
      first := TakeWhileShort(entries, k);
      var m := |first|;
      SelectionParts.DistinctPrefix(entries, |entries|);
      assert entries[..|entries|] == entries;
      SelectionParts.PrefixTop(entries, tally, m);
      assert first == Utils.Elements(entries[..m]);
      forall v | v in first
        ensures v in cands
      {
        assert v in tally;
      }
    }

    /**
     * `while (i < entries.size() && landmarks.size() < numLandmarks)`: the
     * first entries, as many as k allows.
     */
    method TakeWhileShort(entries: seq<int>, k: int) returns (top: set<int>)
      requires Utils.Distinct(entries)
      ensures |top| == Min(|entries|, Max(k, 0)) && top == Utils.Elements(entries[..|top|])
    {
      top := {};
      var i := 0;
      while i < |entries| && |top| < k
        invariant 0 <= i <= |entries| && i <= Max(k, 0) && top == Utils.Elements(entries[..i])
        invariant |top| == i
      {
        assert entries[..i + 1] == entries[..i] + [entries[i]];
        assert Utils.Elements(entries[..i + 1]) == top + {entries[i]};
        SelectionParts.DistinctPrefix(entries, i + 1);
        top := top + {entries[i]};
        i := i + 1;
      }
    }

    /**
     * The batch `selectionInCC(candidates, numLandmarks, sampleSize, s)`:
     * all the candidates when there are exactly numLandmarks of them,
     * otherwise the configured strategy.
     */
    method SelectionInCC(cands: set<int>, k: int, sampleSize: int, s: int) returns (r: Option<set<int>>)
      modifies this
      requires Searchable(graph) && AllEdges(graph, cands) && SampleFits(sampleSize, |cands|)
      ensures |cands| == k ==> r == Some(cands) && pathsPerS == old(pathsPerS)
      ensures r.Some? ==> r.value <= cands
      ensures r.Some? && 0 <= k ==> |r.value| == Min(k, |cands|)
      ensures 0 <= k <= |cands| && strategy != Farthest ==> r.Some?
      ensures strategy != BestCover && strategy != Between ==> pathsPerS == old(pathsPerS)
    {
      if |cands| == k {
        return Some(cands);
      }
      match strategy {
        case Degree =>
          r := BatchSelection.DegreeSelection(graph, cands, k, s);
        case Farthest =>
          r := BatchSelection.FarthestSelection(graph, cands, k, s);
        case BestCover =>
          ghost var greedy, paths;
          r, greedy, paths := BestCoverSelection(cands, k, sampleSize, s);
        case Between =>
          ghost var top, counts, paths;
          r, top, counts, paths := BetweennessSelection(cands, k, sampleSize, s);
        case Random =>
          r := BatchSelection.RandomSelection(cands, k);
      }
    }

    /**
     * `selectLandmarks(sampleSizePerCC, numLandmarksPerCC, start, ccs, s)`:
     * the union of the selections within each component, component i
     * reading its counts at start + i. parts are the per-component
     * selections.
     */
    method SelectLandmarks(sampleSizes: seq<int>, numLandmarks: seq<int>, start: int, ccs: seq<seq<int>>, s: int)
      returns (r: Option<set<int>>, ghost parts: seq<set<int>>)
      modifies this
      requires Searchable(graph) && 0 <= start && start + |ccs| <= |sampleSizes| && start + |ccs| <= |numLandmarks|
      requires forall i | 0 <= i < |ccs| ::
        AllEdges(graph, Utils.Elements(ccs[i])) && SampleFits(sampleSizes[start + i], |Utils.Elements(ccs[i])|)
      ensures ccs == [] ==> r == Some({})
      ensures r.Some? ==> |parts| == |ccs| && r.value == UnionOf(parts) && PartsFit(parts, numLandmarks, start, ccs)
      ensures strategy != Farthest && AllFit(numLandmarks, start, ccs) ==> r.Some?
    {
      parts := [];
      var all: set<int> := {};
      var i := 0;
      while i < |ccs|
        invariant 0 <= i <= |ccs| && |parts| == i && all == UnionOf(parts)
        invariant Searchable(graph)
        invariant PartsFit(parts, numLandmarks, start, ccs)
      {
        var part := SelectionInCC(Utils.Elements(ccs[i]), numLandmarks[start + i], sampleSizes[start + i], s);
        if part.None? {
          FitsAt(numLandmarks, start, ccs, i);
          return None, parts;
        }
        PartsGrow(parts, part.value, numLandmarks, start, ccs);
        UnionGrow(parts, part.value);
        parts := parts + [part.value];
        all := all + part.value;
        i := i + 1;
      }
      return Some(all), parts;
    }

    /**
     * The baseline `selectLandmarks(alreadySelected, numLandmarks, s)`:
     * the hyperedges of size at least s not already selected, at most
     * numLandmarks of them, with a sample of a share of the candidates.
     */
    method SelectLandmarksBaseline(alreadySelected: set<int>, numLandmarks: int, s: int) returns (r: Option<set<int>>)
      modifies this
      requires Searchable(graph) && graph.WellIndexed()
      ensures r.Some? ==> r.value <= Utils.Elements(graph.GetEdgesWithMinSize(s)) - alreadySelected
      ensures r.Some? && numLandmarks >= 0 ==>
        |r.value| == Min(numLandmarks, |Utils.Elements(graph.GetEdgesWithMinSize(s)) - alreadySelected|)
      ensures numLandmarks >= 0 && strategy != Farthest ==> r.Some?
    {
      var cands := Utils.Elements(graph.GetEdgesWithMinSize(s)) - alreadySelected;
      if cands == {} {
        return Some({});
      }
      var actual := Min(|cands|, numLandmarks);
      r := SelectionInCC(cands, actual, BaselineSample(|cands|), s);
    }
  

    /**
     * The incremental `selectionInCC(pathsInSample, candidates,
     * currLandmarks, s)`: one more landmark for a component by the
     * configured strategy, with the corrected farthest scan and removal of
     * covered paths. ldist and idx are what the farthest and path-based
     * picks read.
     */
    method SelectOne(p: Inc.Pool, s: int)
      returns (q: Inc.Pool, x: int, ghost ldist: map<int, map<int, int>>, ghost idx: map<int, set<int>>)
      requires Searchable(graph) && AllEdges(graph, p.cands) && p.cands != {}
      requires strategy == Farthest ==> AllEdges(graph, p.landmarks) && p.cands !! p.landmarks
      ensures Inc.MovedTo(p, q, x)
      ensures strategy != BestCover && strategy != Between ==> x in p.cands && q.pathsOf == p.pathsOf
      ensures strategy == Degree ==> forall c | c in p.cands :: Deg(graph.Nb(), c, s) <= Deg(graph.Nb(), x, s)
      ensures strategy == Farthest ==>
        Inc.Gathered(graph.Nb(), s, ldist, p.cands, p.landmarks) && forall c | c in p.cands :: Inc.RowMin(ldist, c) <= Inc.RowMin(ldist, x)
      ensures strategy == BestCover && |p.cands| != 1 && idx != map[] ==>
        x in idx && (forall h | h in idx :: |idx[h]| <= |idx[x]|) && q.pathsOf == Inc.Covered(idx, x)
      ensures strategy == Between && |p.cands| != 1 && idx != map[] ==>
        x in idx && (forall h | h in idx :: |idx[h]| <= |idx[x]|) && q.pathsOf == idx - {x}
      ensures (strategy == BestCover || strategy == Between) && (|p.cands| == 1 || idx == map[]) ==>
        x in p.cands && q.pathsOf == p.pathsOf
    {
      ldist, idx := map[], map[];
      match strategy {
        case Degree =>
          var r;
          r, x := Inc.DegreeOne(graph, p, s);
          q := r.value;
        case Farthest =>
          q, x, ldist := Inc.FarthestOne(graph, p, s);
        case BestCover =>
          var r;
          r, x, idx := Inc.BestCoverOne(graph, p, s);
          q := r.value;
        case Between =>
          var r;
          r, x, idx := Inc.BetweennessOne(graph, p, s);
          q := r.value;
        case Random =>
          var r;
          r, x := Inc.RandomOne(p);
          q := r.value;
      }
    }

    /**
     * What `selectLandmarksUsingRA` needs of its inputs: searches can run,
     * the flat arrays describe the components of levels, and every
     * eligible component consists of hyperedges of the graph.
     */
    ghost predicate Prepared(allCCs: seq<int>, allSs: seq<int>, allVs: seq<int>, cumSum: seq<int>, levels: seq<seq<seq<int>>>)
      reads graph.hyperedges
    {
      Searchable(graph) && RS.Layout(allCCs, allSs, allVs, cumSum, levels) &&
      forall i | i in RS.Eligible(allCCs) :: AllEdges(graph, Utils.Elements(RS.ComponentAt(cumSum, levels, i)))
    }

    /**
     * One iteration of `selectLandmarksUsingRA`: a component sel drawn at
     * random from the first bucket of the median receives one more
     * landmark by the configured strategy (`selectionInCC` at its level),
     * the pick is recorded, the rankings are updated, and unless no
     * component is left open (stop) the median is computed again.
     */
    method Round(rk: RS.Rankings, state: map<int, Inc.Pool>, ghost trace: seq<int>, med: seq<seq<int>>,
                 allCCs: seq<int>, allSs: seq<int>, allVs: seq<int>, cumSum: seq<int>, levels: seq<seq<seq<int>>>,
                 budget: int, importance: seq<real>)
      returns (rk': RS.Rankings, state': map<int, Inc.Pool>, ghost trace': seq<int>, med': seq<seq<int>>, sel: int, stop: bool)
      requires Prepared(allCCs, allSs, allVs, cumSum, levels)
      requires RS.Running(rk, state, trace, med, allCCs, allSs, allVs, cumSum, levels, budget, importance,
                          strategy != BestCover && strategy != Between)
      requires RS.SumOver(allCCs, trace) < budget
      ensures 0 <= sel < |allCCs| && allCCs[sel] > 0 && trace' == trace + [sel] && sel in med[0]
      ensures RS.SumOver(allCCs, trace') == RS.SumOver(allCCs, trace) + allCCs[sel]
      ensures RS.PickedFrom(state, sel, state')
      ensures RS.Spent(allCCs, trace', budget)
      ensures RS.Progress(state', trace', allCCs, cumSum, levels, strategy != BestCover && strategy != Between)
      ensures stop ==> RS.Active(state') == {}
      ensures !stop ==> RS.Running(rk', state', trace', med', allCCs, allSs, allVs, cumSum, levels, budget, importance,
                                   strategy != BestCover && strategy != Between)
    {
      assert med[0][0] in Utils.Elements(med[0]);
      sel := Pick(Utils.Elements(med[0]));
      RS.SpentGrow(allCCs, trace, budget, sel);
      var s := GetSFromPos(cumSum, sel);
      var p := state[sel];
      var oldLands := |p.landmarks|;
      var q, x;
      ghost var ldist, idx;
      q, x, ldist, idx := SelectOne(p, s);
      rk' := RS.Reorder(rk, state, sel, q, oldLands, s, allCCs, allSs, allVs);
      RS.ProgressGrow(state, trace, allCCs, cumSum, levels, strategy != BestCover && strategy != Between, sel, q, x);
      state', trace' := state[sel := q], trace + [sel];
      assert Inc.MovedTo(state[sel], state'[sel], x);
      RS.OpenIs(rk', state', allCCs, allSs, allVs);
      RS.KeyedListed(rk'.bySize, RS.Active(state'), RS.AsMap(allCCs));
      med', stop := med, rk'.bySize == map[];
      if !stop {
        SubsetCard(RS.Active(state'), RS.Eligible(allCCs));
        var m := RS.HeadRanking(rk', state', allCCs, allSs, allVs, importance);
        med' := m.value;
      }
    }

    /** Round, with the pick and the pools it leaves appended to the record of rounds since start. */
    method DrawnRound(rk: RS.Rankings, state: map<int, Inc.Pool>, ghost trace: seq<int>, ghost heads: seq<RS.Head>,
                      ghost start: map<int, Inc.Pool>, med: seq<seq<int>>,
                      allCCs: seq<int>, allSs: seq<int>, allVs: seq<int>, cumSum: seq<int>, levels: seq<seq<seq<int>>>,
                      budget: int, importance: seq<real>)
      returns (rk': RS.Rankings, state': map<int, Inc.Pool>, ghost trace': seq<int>, ghost heads': seq<RS.Head>,
               med': seq<seq<int>>, sel: int, stop: bool)
      requires Prepared(allCCs, allSs, allVs, cumSum, levels)
      requires RS.Running(rk, state, trace, med, allCCs, allSs, allVs, cumSum, levels, budget, importance,
                          strategy != BestCover && strategy != Between)
      requires RS.SumOver(allCCs, trace) < budget
      requires RS.DrawnFromMedians(trace, heads, start, state, importance, allCCs, allSs, allVs)
      ensures 0 <= sel < |allCCs| && allCCs[sel] > 0 && trace' == trace + [sel]
      ensures RS.SumOver(allCCs, trace') == RS.SumOver(allCCs, trace) + allCCs[sel]
      ensures RS.DrawnFromMedians(trace', heads', start, state', importance, allCCs, allSs, allVs)
      ensures RS.Spent(allCCs, trace', budget)
      ensures RS.Progress(state', trace', allCCs, cumSum, levels, strategy != BestCover && strategy != Between)
      ensures stop ==> RS.Active(state') == {}
      ensures !stop ==> RS.Running(rk', state', trace', med', allCCs, allSs, allVs, cumSum, levels, budget, importance,
                                   strategy != BestCover && strategy != Between)
    {
      rk', state', trace', med', sel, stop := Round(rk, state, trace, med, allCCs, allSs, allVs, cumSum, levels, budget, importance);
      RS.DrawnStep(trace, heads, start, importance, allCCs, allSs, allVs, rk, state, med, sel, state');
      heads' := heads + [(rk, state, med, state')];
    }

    /**
     * The loop of `selectLandmarksUsingRA`: rounds while the estimate of
     * the oracle size, the sizes of the components picked so far, is below
     * the budget, ending early once no component has candidates left.
     */
    method Rounds(rk: RS.Rankings, state: map<int, Inc.Pool>, med: seq<seq<int>>,
                  allCCs: seq<int>, allSs: seq<int>, allVs: seq<int>, cumSum: seq<int>, levels: seq<seq<seq<int>>>,
                  budget: int, importance: seq<real>)
      returns (state': map<int, Inc.Pool>, ghost trace: seq<int>, ghost heads: seq<RS.Head>)
      requires Prepared(allCCs, allSs, allVs, cumSum, levels)
      requires RS.Running(rk, state, [], med, allCCs, allSs, allVs, cumSum, levels, budget, importance,
                          strategy != BestCover && strategy != Between)
      ensures RS.Progress(state', trace, allCCs, cumSum, levels, strategy != BestCover && strategy != Between)
      ensures RS.Spent(allCCs, trace, budget) && (RS.SumOver(allCCs, trace) >= budget || RS.Active(state') == {})
      ensures RS.DrawnFromMedians(trace, heads, state, state', importance, allCCs, allSs, allVs)
    {
      var rk', med' := rk, med;
      state', trace, heads := state, [], [];
      var est := 0;
      while est < budget
        invariant RS.Running(rk', state', trace, med', allCCs, allSs, allVs, cumSum, levels, budget, importance,
                             strategy != BestCover && strategy != Between)
        invariant est == RS.SumOver(allCCs, trace) && RS.DrawnFromMedians(trace, heads, state, state', importance, allCCs, allSs, allVs)
        decreases budget - est
      {
        var sel, stop;
        rk', state', trace, heads, med', sel, stop :=
          DrawnRound(rk', state', trace, heads, state, med', allCCs, allSs, allVs, cumSum, levels, budget, importance);
        est := est + allCCs[sel];
        if stop {
          break;
        }
      }
    }

    /**
     * `selectLandmarksUsingRA(allCCs, allSs, allVs, cumSum, CCS, budget,
     * lb, importance)`, with levels[s - 1] the components of level s: while
     * the estimate of the oracle size is below the budget, a component of
     * the first bucket of the median ranking receives one more landmark,
     * its size is added to the estimate, and the rankings are updated; the
     * loop also stops once no component has candidates left. The result
     * gathers, for each s, the landmarks of that level's components. It
     * fails (None) when the first median has no bucket to draw from, or
     * when several components meet fewer than four importance factors.
     * pools holds each eligible component's candidates and landmarks at
     * the end, trace the components picked in order.
     */
    method SelectLandmarksUsingRA(allCCs: seq<int>, allSs: seq<int>, allVs: seq<int>, cumSum: seq<int>,
                                  levels: seq<seq<seq<int>>>, budget: int, lb: int, importance: seq<real>)
      returns (r: Option<map<int, set<int>>>, ghost pools: map<int, Inc.Pool>, ghost trace: seq<int>,
               ghost heads: seq<RS.Head>, ghost start: map<int, Inc.Pool>)
      requires Prepared(allCCs, allSs, allVs, cumSum, levels)
      ensures r.None? <==>
        (budget > 0 && RS.Eligible(allCCs) == {}) || (|importance| < 4 && |RS.Eligible(allCCs)| >= 2)
      ensures r.Some? ==> RS.PerSBelow(r.value, pools, cumSum, |allCCs|)
      ensures r.Some? ==> RS.Spent(allCCs, trace, budget) && (RS.SumOver(allCCs, trace) >= budget || RS.Active(pools) == {})
      ensures r.Some? ==> RS.Progress(pools, trace, allCCs, cumSum, levels, strategy != BestCover && strategy != Between)
      ensures start.Keys == RS.Eligible(allCCs) && RS.Fresh(start, cumSum, levels)
      ensures r.Some? ==> RS.DrawnFromMedians(trace, heads, start, pools, importance, allCCs, allSs, allVs)
    {
      var rk, state := RS.Start(allCCs, allSs, allVs, cumSum, levels, strategy != BestCover && strategy != Between);
      pools, trace, heads, start := state, [], [], state;
      if rk.bySize == map[] {
        if budget > 0 {
          return None, pools, trace, heads, start;
        }
        return Some(map[]), pools, trace, heads, start;
      }
      var m := RS.HeadRanking(rk, state, allCCs, allSs, allVs, importance);
      if m.None? {
        return None, pools, trace, heads, start;
      }
      assert RS.Spent(allCCs, [], budget);
      state, trace, heads := Rounds(rk, state, m.value, allCCs, allSs, allVs, cumSum, levels, budget, importance);
      pools := state;
      var perS := RS.CollectPerS(state, cumSum, |allCCs|);
      r := Some(perS);
    }
  }
}
