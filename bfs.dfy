/**
 * The breadth-first searches that compute s-distances from one hyperedge:
 * a priority queue of (hyperedge, step) entries ordered by step, a visited
 * set, and the distance of each hyperedge when first reached. The second
 * search stops once enough reached hyperedges carry the start's label.
 */
module Distances {
  import opened Wrappers
  import opened Walks
  import opened HyperGraphs
  import Text

  /** The positions 0 .. n-1: every hyperedge id. */
  function Ids(n: int): (r: set<int>)
    ensures forall x :: x in r <==> 0 <= x < n
  {
    if n <= 0 then {} else Ids(n - 1) + {n - 1}
  }

  /** The hyperedges with an entry in the queue. */
  function Nodes(queue: seq<(int, int)>): set<int>
  {
    set i | 0 <= i < |queue| :: queue[i].0
  }

  /** Consistent neighbour maps name only hyperedges. */
  lemma ConsistentInRange(g: HyperGraph)
    requires g.ConsistentMaps(g.Nb())
    ensures InRange(g.Nb())
  {
    var nb := g.Nb();
    forall a, b | 0 <= a < |nb| && b in nb[a]
      ensures 0 <= b < |nb|
    {
      assert g.IsEdge(b);
    }
  }

  /*
   * The search state.
   */

  /** Every reached hyperedge is a hyperedge with its s-distance from start, and a shortest walk witnessing it. */
  ghost predicate Found(nb: seq<map<int, int>>, s: int, start: int, dist: map<int, int>, wit: map<int, seq<int>>)
  {
    start in dist && dist[start] == 0 && wit.Keys == dist.Keys &&
    forall x :: x in dist ==>
      0 <= x < |nb| && WalkTo(nb, s, start, x, wit[x]) && |wit[x]| == dist[x] + 1 && NoShorter(nb, s, start, x, dist[x])
  }

  /** Each queue entry is a reached hyperedge with the distance its neighbours will get: its own plus one. */
  ghost predicate Queued(queue: seq<(int, int)>, dist: map<int, int>)
  {
    forall i :: 0 <= i < |queue| ==> queue[i].0 in dist && queue[i].1 == dist[queue[i].0] + 1
  }

  /** Every reached hyperedge no longer queued, except those in busy, has all its s-neighbours reached. */
  ghost predicate Expanded(nb: seq<map<int, int>>, s: int, dist: map<int, int>, queue: seq<(int, int)>, busy: set<int>)
  {
    forall x, y :: x in dist && x !in Nodes(queue) && x !in busy && Linked(nb, s, x, y) ==> y in dist
  }

  /** The state between two polls. */
  ghost predicate Searching(nb: seq<map<int, int>>, s: int, start: int, visited: set<int>, dist: map<int, int>,
                            queue: seq<(int, int)>, wit: map<int, seq<int>>)
  {
    visited == dist.Keys && Found(nb, s, start, dist, wit) && Queued(queue, dist) && Expanded(nb, s, dist, queue, {})
  }

  /** The state while the neighbours of cur, polled with the smallest step, are examined. */
  ghost predicate Expanding(nb: seq<map<int, int>>, s: int, start: int, cur: int, step: int, visited: set<int>,
                            dist: map<int, int>, queue: seq<(int, int)>, wit: map<int, seq<int>>)
  {
    visited == dist.Keys && Found(nb, s, start, dist, wit) && Queued(queue, dist) &&
    Expanded(nb, s, dist, queue, {cur}) && cur in dist && dist[cur] == step - 1 &&
    forall i :: 0 <= i < |queue| ==> queue[i].1 >= step
  }

  /**
   * A hyperedge not yet reached is at least step away: a walk to it leaves
   * the reached set from a queued hyperedge or from cur, both at least
   * step - 1 away.
   */
  lemma NewLower(nb: seq<map<int, int>>, s: int, start: int, cur: int, step: int, visited: set<int>,
                 dist: map<int, int>, queue: seq<(int, int)>, wit: map<int, seq<int>>, n: int)
    requires Expanding(nb, s, start, cur, step, visited, dist, queue, wit) && n !in dist
    ensures NoShorter(nb, s, start, n, step)
  {
    forall p | WalkTo(nb, s, start, n, p)
      ensures |p| >= step + 1
    {
      var j := FirstExit(p, dist.Keys);
      var x := p[j - 1];
      WalkPrefix(nb, s, start, n, p, j);
      assert Linked(nb, s, x, p[j]);
      if x != cur {
        var k :| 0 <= k < |queue| && queue[k].0 == x;
        assert queue[k].1 >= step;
      }
    }
  }

  /** The first reached hyperedge is the start, at distance 0. */
  lemma StartFound(nb: seq<map<int, int>>, s: int, start: int)
    requires 0 <= start < |nb|
    ensures Searching(nb, s, start, {start}, map[start := 0], [(start, 1)], map[start := [start]])
  {
    assert WalkTo(nb, s, start, start, [start]);
    assert Nodes([(start, 1)]) == {start} by {
      assert [(start, 1)][0].0 == start;
    }
  }

  /** Polling an entry with the smallest step starts the examination of its hyperedge. */
  lemma Polled(nb: seq<map<int, int>>, s: int, start: int, visited: set<int>, dist: map<int, int>,
               queue: seq<(int, int)>, wit: map<int, seq<int>>, i: int)
    requires Searching(nb, s, start, visited, dist, queue, wit)
    requires 0 <= i < |queue| && forall j :: 0 <= j < |queue| ==> queue[i].1 <= queue[j].1
    ensures Expanding(nb, s, start, queue[i].0, queue[i].1, visited, dist, queue[..i] + queue[i + 1..], wit)
  {
    var rest := queue[..i] + queue[i + 1..];
    assert forall j :: 0 <= j < |rest| ==> rest[j] == if j < i then queue[j] else queue[j + 1];
    forall x | x in Nodes(queue) && x != queue[i].0
      ensures x in Nodes(rest)
    {
      var j :| 0 <= j < |queue| && queue[j].0 == x;
      assert rest[if j < i then j else j - 1] == queue[j];
    }
  }

  /** Every reached hyperedge is reachable, at the distance recorded. */
  lemma Exact(nb: seq<map<int, int>>, s: int, start: int, dist: map<int, int>, wit: map<int, seq<int>>)
    requires Found(nb, s, start, dist, wit)
    ensures forall x :: x in dist ==> Reachable(nb, s, start, x) && IsDistance(nb, s, start, x, dist[x])
  {
    forall x | x in dist
      ensures Reachable(nb, s, start, x) && IsDistance(nb, s, start, x, dist[x])
    {
      assert WalkTo(nb, s, start, x, wit[x]);
    }
  }

  /** With nothing left in the queue, every reachable hyperedge has been reached. */
  lemma Complete(nb: seq<map<int, int>>, s: int, start: int, visited: set<int>, dist: map<int, int>, wit: map<int, seq<int>>)
    requires Searching(nb, s, start, visited, dist, [], wit)
    ensures forall x :: Reachable(nb, s, start, x) ==> x in dist
  {
    forall x | Reachable(nb, s, start, x)
      ensures x in dist
    {
      ClosedReach(nb, s, start, dist.Keys, x);
    }
  }

  /*
   * The search.
   */

  /** `PriorityQueue.poll` by step: the position of an entry with the smallest step, the first such. */
  method PollMin(queue: seq<(int, int)>) returns (i: int)
    requires queue != []
    ensures 0 <= i < |queue| && forall j :: 0 <= j < |queue| ==> queue[i].1 <= queue[j].1
    ensures forall j :: 0 <= j < i ==> queue[j].1 > queue[i].1
  {
    i := 0;
    for k := 1 to |queue|
      invariant 0 <= i < k
      invariant forall j :: 0 <= j < k ==> queue[i].1 <= queue[j].1
      invariant forall j :: 0 <= j < i ==> queue[j].1 > queue[i].1
    {
      if queue[k].1 < queue[i].1 {
        i := k;
      }
    }
  }

  /**
   * One neighbour ngb of cur: when not yet visited it is marked visited,
   * gets distance step and is queued with step + 1; otherwise nothing
   * changes.
   */
  method Visit(ghost nb: seq<map<int, int>>, s: int, ghost start: int, cur: int, step: int, ngb: int,
               visited: set<int>, dist: map<int, int>, queue: seq<(int, int)>, ghost wit: map<int, seq<int>>)
    returns (visited': set<int>, dist': map<int, int>, queue': seq<(int, int)>, ghost wit': map<int, seq<int>>)
    requires InRange(nb) && Linked(nb, s, cur, ngb)
    requires Expanding(nb, s, start, cur, step, visited, dist, queue, wit)
    ensures Expanding(nb, s, start, cur, step, visited', dist', queue', wit')
    ensures ngb in visited ==> visited' == visited && dist' == dist && queue' == queue
    ensures ngb !in visited ==>
      visited' == visited + {ngb} && dist' == dist[ngb := step] && queue' == queue + [(ngb, step + 1)]
  {
    visited', dist', queue', wit' := visited, dist, queue, wit;
    if ngb !in visited {
      NewLower(nb, s, start, cur, step, visited, dist, queue, wit, ngb);
      WalkExtend(nb, s, start, cur, wit[cur], ngb);
      visited' := visited + {ngb};
      dist' := dist[ngb := step];
      queue' := queue + [(ngb, step + 1)];
      wit' := wit[ngb := wit[cur] + [ngb]];
      assert Nodes(queue') == Nodes(queue) + {ngb} by {
        assert queue'[|queue|].0 == ngb;
        assert forall j :: 0 <= j < |queue| ==> queue'[j] == queue[j];
      }
    }
  }

  /**
   * The body of the search loop after the poll: every s-neighbour of cur
   * is visited; added holds those reached for the first time.
   */
  method Expand(g: HyperGraph, ghost nb: seq<map<int, int>>, s: int, ghost start: int, cur: int, step: int,
                visited: set<int>, dist: map<int, int>, queue: seq<(int, int)>, ghost wit: map<int, seq<int>>)
    returns (visited': set<int>, dist': map<int, int>, queue': seq<(int, int)>, added: set<int>, ghost wit': map<int, seq<int>>)
    requires nb == g.Nb() && InRange(nb)
    requires Expanding(nb, s, start, cur, step, visited, dist, queue, wit)
    ensures Searching(nb, s, start, visited', dist', queue', wit')
    ensures visited' == visited + added && added !! visited && |queue'| == |queue| + |added|
  {
    var ngbs := g.GetSNeighborsOf(cur, s);
    visited', dist', queue', added, wit' := visited, dist, queue, {}, wit;
    var rest := ngbs;
    while rest != {}
      invariant rest <= ngbs
      invariant Expanding(nb, s, start, cur, step, visited', dist', queue', wit')
      invariant forall y :: y in ngbs && y !in rest ==> y in visited'
      invariant visited' == visited + added && added !! visited && |queue'| == |queue| + |added|
      decreases rest
    {
      var ngb := Pick(rest);
      rest := rest - {ngb};
      var isNew := ngb !in visited';
      visited', dist', queue', wit' := Visit(nb, s, start, cur, step, ngb, visited', dist', queue', wit');
      if isNew {
        added := added + {ngb};
      }
    }
  }

  /** Reaching new hyperedges leaves fewer hyperedges unreached. */
  lemma Shrinks(n: int, visited: set<int>, added: set<int>)
    requires added !! visited && |added| > 0 && forall x :: x in added ==> 0 <= x < n
    ensures Ids(n) - (visited + added) < Ids(n) - visited
  {
    var x := Member(added);
    assert x in Ids(n) - visited;
  }

  /**
   * One turn of the search loop: poll an entry with the smallest step and
   * visit the s-neighbours of its hyperedge.
   */
  method SearchStep(g: HyperGraph, ghost nb: seq<map<int, int>>, s: int, ghost start: int,
                    visited: set<int>, dist: map<int, int>, queue: seq<(int, int)>, ghost wit: map<int, seq<int>>)
    returns (visited': set<int>, dist': map<int, int>, queue': seq<(int, int)>, added: set<int>, ghost wit': map<int, seq<int>>)
    requires nb == g.Nb() && InRange(nb) && queue != []
    requires Searching(nb, s, start, visited, dist, queue, wit)
    ensures Searching(nb, s, start, visited', dist', queue', wit')
    ensures visited' == visited + added && added !! visited && |queue'| == |queue| - 1 + |added|
    ensures added != {} ==> Ids(|nb|) - visited' < Ids(|nb|) - visited
  {
    var i := PollMin(queue);
    var eID, step := queue[i].0, queue[i].1;
    Polled(nb, s, start, visited, dist, queue, wit, i);
    visited', dist', queue', added, wit' := Expand(g, nb, s, start, eID, step, visited, dist, queue[..i] + queue[i + 1..], wit);
    if added != {} {
      assert forall x :: x in added ==> x in dist';
      Shrinks(|nb|, visited, added);
    }
  }

  /**
   * `findDistancesFrom(start, s)`: the s-distance from start to every
   * hyperedge reachable from it, and no other hyperedge.
   */
  method FindDistancesFrom(g: HyperGraph, start: int, s: int) returns (distances: map<int, int>)
    requires g.ConsistentMaps(g.Nb()) && g.IsEdge(start)
    ensures forall x :: x in distances <==> Reachable(g.Nb(), s, start, x)
    ensures forall x :: x in distances ==> IsDistance(g.Nb(), s, start, x, distances[x])
  {
    ghost var nb := g.Nb();
    ConsistentInRange(g);
    var queue := [(start, 1)];
    var visited := {start};
    distances := map[start := 0];
    ghost var wit := map[start := [start]];
    StartFound(nb, s, start);
    while queue != []
      invariant Searching(nb, s, start, visited, distances, queue, wit)
      decreases Ids(|nb|) - visited, |queue|
    {
      var added;
      visited, distances, queue, added, wit := SearchStep(g, nb, s, start, visited, distances, queue, wit);
    }
    Exact(nb, s, start, distances, wit);
    Complete(nb, s, start, visited, distances, wit);
  }

  /*
   * The search bounded by labels.
   */

  /** `labels.get(k).equalsIgnoreCase(startLabel)`; a missing start label matches nothing. */
  predicate LabelMatches(labels: map<int, string>, k: int, startLabel: Option<string>)
  {
    k in labels && startLabel.Some? && Text.EqualsIgnoreCase(labels[k], startLabel.value)
  }

  /** The start's label: the empty text without labels, absent when the start has none. */
  function StartLabel(labels: Option<map<int, string>>, start: int): (r: Option<string>)
    ensures labels.None? ==> r == Some("")
    ensures labels.Some? ==> (r.Some? <==> start in labels.value) && (r.Some? ==> r.value == labels.value[start])
  {
    if labels.None? then Some("") else if start in labels.value then Some(labels.value[start]) else None
  }

  /**
   * Whether a newly reached hyperedge counts toward maxReached: always
   * without labels; for kind "vertex" when one of its vertices carries the
   * start's label; otherwise when it carries the start's label itself.
   */
  predicate Counts(g: HyperGraph, labels: Option<map<int, string>>, kind: string, startLabel: Option<string>, x: int)
  {
    labels.None? ||
    (!Text.EqualsIgnoreCase(kind, "vertex") && LabelMatches(labels.value, x, startLabel)) ||
    (Text.EqualsIgnoreCase(kind, "vertex") && g.IsEdge(x) && exists v :: v in g.V(x) && LabelMatches(labels.value, v, startLabel))
  }

  /** The labels name every hyperedge, or for kind "vertex" every vertex, that a lookup may ask for. */
  ghost predicate LabelsCover(g: HyperGraph, labels: Option<map<int, string>>, kind: string)
  {
    labels.Some? ==>
      forall x :: g.IsEdge(x) ==>
        if Text.EqualsIgnoreCase(kind, "vertex") then g.V(x) <= labels.value.Keys else x in labels.value
  }

  /** How many hyperedges of a set count toward maxReached. */
  ghost function Matched(g: HyperGraph, labels: Option<map<int, string>>, kind: string, startLabel: Option<string>, xs: set<int>): nat
  {
    |set x | x in xs && Counts(g, labels, kind, startLabel, x)|
  }

  /** The count over newly added hyperedges adds to the count over those reached before. */
  lemma MatchedAdd(g: HyperGraph, labels: Option<map<int, string>>, kind: string, startLabel: Option<string>,
                   visited: set<int>, added: set<int>, start: int)
    requires start in visited && added !! visited
    ensures Matched(g, labels, kind, startLabel, (visited + added) - {start}) ==
      Matched(g, labels, kind, startLabel, visited - {start}) + |set x | x in added && Counts(g, labels, kind, startLabel, x)|
  {
    var a := set x | x in visited - {start} && Counts(g, labels, kind, startLabel, x);
    var b := set x | x in added && Counts(g, labels, kind, startLabel, x);
    assert (set x | x in (visited + added) - {start} && Counts(g, labels, kind, startLabel, x)) == a + b;
    assert a * b == {};
  }

  /**
   * `findDistancesFrom(start, s, labels, maxReached, kind)`: the search
   * stops once maxReached of the reached hyperedges count. Every
   * hyperedge returned is at its s-distance; when fewer than maxReached
   * of them (start aside) count, every reachable hyperedge is returned;
   * with maxReached at most 0 only the start is.
   */
  method FindDistancesWithin(g: HyperGraph, start: int, s: int, labels: Option<map<int, string>>, maxReached: int, kind: string)
    returns (distances: map<int, int>)
    requires g.ConsistentMaps(g.Nb()) && g.IsEdge(start) && LabelsCover(g, labels, kind)
    ensures forall x :: x in distances ==> IsDistance(g.Nb(), s, start, x, distances[x])
    ensures forall x :: x in distances ==> Reachable(g.Nb(), s, start, x)
    ensures Matched(g, labels, kind, StartLabel(labels, start), distances.Keys - {start}) < maxReached ==>
      forall x :: Reachable(g.Nb(), s, start, x) ==> x in distances
    ensures maxReached <= 0 ==> distances == map[start := 0]
  {
    ghost var nb := g.Nb();
    ConsistentInRange(g);
    var startLabel := StartLabel(labels, start);
    var queue := [(start, 1)];
    var visited := {start};
    distances := map[start := 0];
    ghost var wit := map[start := [start]];
    StartFound(nb, s, start);
    var reached := 0;
    assert visited - {start} == {};
    while queue != [] && reached < maxReached
      invariant Searching(nb, s, start, visited, distances, queue, wit)
      invariant reached == Matched(g, labels, kind, startLabel, visited - {start})
      invariant maxReached <= 0 ==> distances == map[start := 0]
      decreases Ids(|nb|) - visited, |queue|
    {
      visited, distances, queue, wit, reached := CountingStep(g, nb, s, start, labels, kind, startLabel,
                                                              visited, distances, queue, wit, reached);
    }
    WithinDone(g, nb, s, start, labels, kind, startLabel, maxReached, visited, distances, queue, wit, reached);
  }

  /**
   * One turn of the bounded search: a turn of the search, then one more
   * reached for each newly reached hyperedge that counts.
   */
  method CountingStep(g: HyperGraph, ghost nb: seq<map<int, int>>, s: int, ghost start: int, labels: Option<map<int, string>>,
                      kind: string, startLabel: Option<string>, visited: set<int>, dist: map<int, int>,
                      queue: seq<(int, int)>, ghost wit: map<int, seq<int>>, reached: int)
    returns (visited': set<int>, dist': map<int, int>, queue': seq<(int, int)>, ghost wit': map<int, seq<int>>, reached': int)
    requires nb == g.Nb() && InRange(nb) && queue != []
    requires Searching(nb, s, start, visited, dist, queue, wit)
    requires reached == Matched(g, labels, kind, startLabel, visited - {start})
    ensures Searching(nb, s, start, visited', dist', queue', wit')
    ensures reached' == Matched(g, labels, kind, startLabel, visited' - {start})
    ensures visited' == visited ==> |queue'| < |queue|
    ensures visited' != visited ==> Ids(|nb|) - visited' < Ids(|nb|) - visited
  {
    var added;
    visited', dist', queue', added, wit' := SearchStep(g, nb, s, start, visited, dist, queue, wit);
    MatchedAdd(g, labels, kind, startLabel, visited, added, start);
    reached' := reached + |set x | x in added && Counts(g, labels, kind, startLabel, x)|;
  }

  /** Why the bounded search returns what it promises, once its loop has stopped. */
  lemma WithinDone(g: HyperGraph, nb: seq<map<int, int>>, s: int, start: int, labels: Option<map<int, string>>, kind: string,
                   startLabel: Option<string>, maxReached: int, visited: set<int>, dist: map<int, int>,
                   queue: seq<(int, int)>, wit: map<int, seq<int>>, reached: int)
    requires Searching(nb, s, start, visited, dist, queue, wit)
    requires reached == Matched(g, labels, kind, startLabel, visited - {start})
    requires queue == [] || reached >= maxReached
    ensures forall x :: x in dist ==> IsDistance(nb, s, start, x, dist[x]) && Reachable(nb, s, start, x)
    ensures Matched(g, labels, kind, startLabel, dist.Keys - {start}) < maxReached ==>
      forall x :: Reachable(nb, s, start, x) ==> x in dist
  {
    Exact(nb, s, start, dist, wit);
    if queue == [] {
      Complete(nb, s, start, visited, dist, wit);
    }
  }
}
