/**
 * The sampled paths the best-cover and betweenness strategies count:
 * pairs of candidates drawn at random, and for each pair either one
 * shortest s-path found by the bidirectional search or all the shortest
 * s-paths found by the lattice search, empty results dropped.
 */
module PathSample {
  import opened Wrappers
  import opened Walks
  import opened HyperGraphs
  import opened SelectorBasics
  import Utils
  import PathSearch
  import AllPaths
  import AllPathsState

  /** `Settings.samplePerc`: the share of a component sampled when no sample size is given. */
  const SamplePerc: real := 0.4

  /** The least integer not below x (`Math.ceil`). */
  function Ceil(x: real): (r: int)
    ensures x <= r as real < x + 1.0
  {
    -((-x).Floor)
  }

  /** `Math.max(2, (int) Math.ceil(samplePerc * n))`: the sample size within a component of n candidates. */
  function InComponentSample(n: nat): (r: int)
    ensures 2 <= r && (n >= 2 ==> r <= n)
  {
    Max(2, Ceil(SamplePerc * n as real))
  }

  /** The candidates as a list without repeats (`Lists.newArrayList(candidates)`), in any order. */
  method ListOf(u: set<int>) returns (xs: seq<int>)
    ensures Utils.Distinct(xs) && Utils.Elements(xs) == u && |xs| == |u|
  {
    xs := [];
    var rest := u;
    while rest != {}
      invariant rest <= u && Utils.Distinct(xs) && Utils.Elements(xs) == u - rest && |xs| + |rest| == |u|
      decreases |rest|
    {
      var x := Pick(rest);
      assert Utils.Elements(xs + [x]) == Utils.Elements(xs) + {x};
      xs := xs + [x];
      rest := rest - {x};
    }
  }

  /**
   * path answers the pair p: {a} for a pair of one hyperedge, otherwise
   * the hyperedges of a shortest s-walk from a to b, one of all such
   * walks (all-paths search) or one alone (bidirectional search).
   */
  ghost predicate Found(nb: seq<map<int, int>>, s: int, p: (int, int), path: set<int>)
  {
    if p.0 == p.1 then path == {p.0}
    else AllPathsState.ShortestPathSet(nb, s, p.0, p.1, path)
  }

  /** An answer to a pair holds its first hyperedge, so it is never dropped as empty. */
  lemma FoundNonEmpty(nb: seq<map<int, int>>, s: int, p: (int, int), path: set<int>)
    requires Found(nb, s, p, path)
    ensures p.0 in path
  {
    if p.0 != p.1 {
      var w :| WalkTo(nb, s, p.0, p.1, w) && IsDistance(nb, s, p.0, p.1, |w| - 1) && path == Utils.Elements(w);
      assert w[0] in path;
    }
  }

  /**
   * paths answer, in order, pairs of sample: origin names the pair each
   * path answers, and every pair of one hyperedge or of two connected
   * ones among done is answered at least once.
   */
  ghost predicate Answered(nb: seq<map<int, int>>, s: int, sample: set<(int, int)>,
                           done: set<(int, int)>, paths: seq<set<int>>, origin: seq<(int, int)>)
  {
    |origin| == |paths| &&
    (forall i :: 0 <= i < |paths| ==> paths[i] != {} && origin[i] in sample && Found(nb, s, origin[i], paths[i])) &&
    forall p | p in done && (p.0 == p.1 || Reachable(nb, s, p.0, p.1)) :: p in origin
  }

  /**
   * `findPathsInSample`: samples pairs among the candidates (a sample size
   * of -1 means the in-component default) and returns the non-empty
   * answers of the searches over them.
   */
  method FindPathsInSample(g: HyperGraph, cands: set<int>, sampleSize: int, s: int, allPaths: bool)
    returns (paths: seq<set<int>>, sample: set<(int, int)>, ghost origin: seq<(int, int)>)
    requires g.ConsistentMaps(g.Nb()) && Symmetric(g.Nb()) && AllEdges(g, cands)
    requires sampleSize != -1 && |cands| >= 2 ==> sampleSize <= |cands|
    ensures forall p | p in sample :: p.0 in cands && p.1 in cands
    ensures |cands| < 2 ==> sample == {} && paths == []
    ensures Answered(g.Nb(), s, sample, sample, paths, origin)
    ensures allPaths ==> AllShortest(g.Nb(), s, sample, paths)
    ensures !allPaths ==> |paths| <= |sample|
  {
    var size := if sampleSize == -1 then InComponentSample(|cands|) else sampleSize;
    var candList := ListOf(cands);
    var items;
    sample, items := Utils.SamplePairs(candList, size);
    paths, origin := CollectAll(g, sample, s, |cands|, allPaths);
  }

  /** Every sampled pair answered, in the (unspecified) order of the set. */
  method CollectAll(g: HyperGraph, sample: set<(int, int)>, s: int, estSize: int, allPaths: bool)
    returns (paths: seq<set<int>>, ghost origin: seq<(int, int)>)
    requires g.ConsistentMaps(g.Nb()) && Symmetric(g.Nb())
    requires forall p | p in sample :: g.IsEdge(p.0) && g.IsEdge(p.1)
    ensures sample == {} ==> paths == []
    ensures Collected(g.Nb(), s, allPaths, sample, sample, paths, origin)
  {
    paths, origin := [], [];
    var rest := sample;
    assert Collected(g.Nb(), s, allPaths, sample, {}, [], []);
    while rest != {}
      invariant rest <= sample && (rest == sample ==> paths == [])
      invariant Collected(g.Nb(), s, allPaths, sample, sample - rest, paths, origin)
      decreases |rest|
    {
      var p := Pick(rest);
      paths, origin := CollectPair(g, p, s, estSize, allPaths, sample, sample - rest, paths, origin);
      assert sample - (rest - {p}) == (sample - rest) + {p};
      rest := rest - {p};
    }
  }

  /**
   * The answers for the pairs done so far: as Answered says, with every
   * shortest s-path of each pair for the all-paths search and at most one
   * answer per pair for the bidirectional search.
   */
  ghost predicate Collected(nb: seq<map<int, int>>, s: int, allPaths: bool, sample: set<(int, int)>,
                            done: set<(int, int)>, paths: seq<set<int>>, origin: seq<(int, int)>)
  {
    Answered(nb, s, sample, done, paths, origin) &&
    (allPaths ==> AllShortest(nb, s, done, paths)) &&
    (!allPaths ==> |paths| <= |done|)
  }

  /** One more sampled pair answered. */
  method CollectPair(g: HyperGraph, p: (int, int), s: int, estSize: int, allPaths: bool, ghost sample: set<(int, int)>,
                     ghost done: set<(int, int)>, paths0: seq<set<int>>, ghost origin0: seq<(int, int)>)
    returns (paths: seq<set<int>>, ghost origin: seq<(int, int)>)
    requires g.ConsistentMaps(g.Nb()) && Symmetric(g.Nb()) && g.IsEdge(p.0) && g.IsEdge(p.1) && p in sample && p !in done
    requires Collected(g.Nb(), s, allPaths, sample, done, paths0, origin0)
    ensures Collected(g.Nb(), s, allPaths, sample, done + {p}, paths, origin)
  {
    paths, origin := AnswerPair(g, p, s, estSize, allPaths, sample, done, paths0, origin0);
    AllShortestStep(g.Nb(), s, done, p, paths0, paths, allPaths);
  }

  /** For every pair of two hyperedges in done, each shortest s-walk between them has its hyperedge set among paths. */
  ghost predicate AllShortest(nb: seq<map<int, int>>, s: int, done: set<(int, int)>, paths: seq<set<int>>)
  {
    forall p, w | p in done && p.0 != p.1 && WalkTo(nb, s, p.0, p.1, w) && IsDistance(nb, s, p.0, p.1, |w| - 1) ::
      Utils.Elements(w) in paths
  }

  /** Answers appended for one more pair keep the earlier ones. */
  lemma AllShortestStep(nb: seq<map<int, int>>, s: int, done: set<(int, int)>, p: (int, int),
                        paths0: seq<set<int>>, paths: seq<set<int>>, allPaths: bool)
    requires paths0 <= paths && (allPaths ==> AllShortest(nb, s, done, paths0))
    requires allPaths && p.0 != p.1 ==> forall w | WalkTo(nb, s, p.0, p.1, w) && IsDistance(nb, s, p.0, p.1, |w| - 1) ::
      Utils.Elements(w) in paths[|paths0|..]
    ensures allPaths ==> AllShortest(nb, s, done + {p}, paths)
  {
    if allPaths {
      forall q, w | q in done + {p} && q.0 != q.1 && WalkTo(nb, s, q.0, q.1, w) && IsDistance(nb, s, q.0, q.1, |w| - 1)
        ensures Utils.Elements(w) in paths
      {
        if q == p {
          var i :| 0 <= i < |paths[|paths0|..]| && paths[|paths0|..][i] == Utils.Elements(w);
          assert paths[|paths0| + i] == Utils.Elements(w);
        } else {
          var i :| 0 <= i < |paths0| && paths0[i] == Utils.Elements(w);
          assert paths[i] == Utils.Elements(w);
        }
      }
    }
  }

  /**
   * Searches one sampled pair and appends its non-empty answers: every
   * shortest s-path between the pair with the all-paths search, at most
   * one path with the bidirectional search.
   */
  method AnswerPair(g: HyperGraph, p: (int, int), s: int, estSize: int, allPaths: bool, ghost sample: set<(int, int)>,
                    ghost done: set<(int, int)>, paths0: seq<set<int>>, ghost origin0: seq<(int, int)>)
    returns (paths: seq<set<int>>, ghost origin: seq<(int, int)>)
    requires g.ConsistentMaps(g.Nb()) && Symmetric(g.Nb()) && g.IsEdge(p.0) && g.IsEdge(p.1) && p in sample
    requires Answered(g.Nb(), s, sample, done, paths0, origin0)
    ensures Answered(g.Nb(), s, sample, done + {p}, paths, origin)
    ensures paths0 <= paths && (!allPaths ==> |paths| <= |paths0| + 1)
    ensures allPaths && p.0 != p.1 ==>
      forall w | WalkTo(g.Nb(), s, p.0, p.1, w) && IsDistance(g.Nb(), s, p.0, p.1, |w| - 1) :: Utils.Elements(w) in paths[|paths0|..]
  {
    if allPaths {
      paths, origin := AnswerAll(g, p, s, estSize, sample, done, paths0, origin0);
    } else {
      paths, origin := AnswerOne(g, p, s, estSize, sample, done, paths0, origin0);
    }
  }

  /** The all-paths search for one pair: its answers, every shortest s-path between the pair, appended. */
  method AnswerAll(g: HyperGraph, p: (int, int), s: int, estSize: int, ghost sample: set<(int, int)>,
                   ghost done: set<(int, int)>, paths0: seq<set<int>>, ghost origin0: seq<(int, int)>)
    returns (paths: seq<set<int>>, ghost origin: seq<(int, int)>)
    requires g.ConsistentMaps(g.Nb()) && g.IsEdge(p.0) && p in sample
    requires Answered(g.Nb(), s, sample, done, paths0, origin0)
    ensures Answered(g.Nb(), s, sample, done + {p}, paths, origin) && paths0 <= paths
    ensures p.0 != p.1 ==>
      forall w | WalkTo(g.Nb(), s, p.0, p.1, w) && IsDistance(g.Nb(), s, p.0, p.1, |w| - 1) :: Utils.Elements(w) in paths[|paths0|..]
  {
    var found := AllPaths.FindAllPathsBetween(g, p.0, p.1, s, estSize, {});
    paths, origin := AppendFound(g.Nb(), s, p, found, sample, done, paths0, origin0);
  }

  /** Appends the answers found for p, each recorded as p's; none are found only for an unconnected pair. */
  method AppendFound(ghost nb: seq<map<int, int>>, s: int, p: (int, int), found: seq<set<int>>,
                     ghost sample: set<(int, int)>, ghost done: set<(int, int)>,
                     paths0: seq<set<int>>, ghost origin0: seq<(int, int)>)
    returns (paths: seq<set<int>>, ghost origin: seq<(int, int)>)
    requires p in sample && Answered(nb, s, sample, done, paths0, origin0)
    requires forall i :: 0 <= i < |found| ==> Found(nb, s, p, found[i])
    requires found == [] ==> p.0 != p.1 && !Reachable(nb, s, p.0, p.1)
    ensures Answered(nb, s, sample, done + {p}, paths, origin) && paths == paths0 + found
  {
    paths, origin := paths0, origin0;
    var i := 0;
    while i < |found|
      invariant 0 <= i <= |found|
      invariant Answered(nb, s, sample, done, paths, origin) && paths == paths0 + found[..i]
      invariant i > 0 ==> p in origin
    {
      FoundNonEmpty(nb, s, p, found[i]);
      paths, origin := paths + [found[i]], origin + [p];
      i := i + 1;
    }
    assert found[..i] == found;
  }

  /** The bidirectional search for one pair: its answer appended unless empty. */
  method AnswerOne(g: HyperGraph, p: (int, int), s: int, estSize: int, ghost sample: set<(int, int)>,
                   ghost done: set<(int, int)>, paths0: seq<set<int>>, ghost origin0: seq<(int, int)>)
    returns (paths: seq<set<int>>, ghost origin: seq<(int, int)>)
    requires g.ConsistentMaps(g.Nb()) && Symmetric(g.Nb()) && g.IsEdge(p.0) && g.IsEdge(p.1) && p in sample
    requires Answered(g.Nb(), s, sample, done, paths0, origin0)
    ensures Answered(g.Nb(), s, sample, done + {p}, paths, origin)
    ensures paths0 <= paths && |paths| <= |paths0| + 1
  {
    paths, origin := paths0, origin0;
    var path := PathSearch.BidirectionalSPSearch(g, p.0, p.1, s, estSize, {}, {});
    if path != {} {
      paths, origin := paths + [path], origin + [p];
    }
  }
}
