/**
 * The state of the all-shortest-paths search of `findAllPathsBetween`
 * and why each step keeps it: visited holds the level of each reached
 * hyperedge, e1 being on level 1; the lattice records, for each reached
 * hyperedge, every hyperedge one level below it was reached from; e2 is
 * never queued, so nothing is reached through it.
 */
module AllPathsState {
  import opened Wrappers
  import opened Walks
  import opened HyperGraphs
  import opened Lattices
  import Distances
  import Utils

  /*
   * The search state.
   */

  /**
   * e1 is on level 1, every reached hyperedge is a hyperedge on a level
   * of at least 1, and every one not above e2's level (all of them while
   * e2 is unreached) has no walk from e1 shorter than its level.
   */
  ghost predicate Levels(nb: seq<map<int, int>>, s: int, e1: int, e2: int, visited: map<int, int>)
  {
    e1 in visited && visited[e1] == 1 &&
    forall x :: x in visited ==>
      0 <= x < |nb| && visited[x] >= 1 &&
      ((e2 in visited && visited[x] > visited[e2]) || NoShorter(nb, s, e1, x, visited[x] - 1))
  }

  /** Each queue entry is a reached hyperedge with its own level. */
  ghost predicate Waiting(queue: seq<(int, int)>, visited: map<int, int>)
  {
    forall i :: 0 <= i < |queue| ==> queue[i].0 in visited && queue[i].1 == visited[queue[i].0]
  }

  /**
   * Every reached hyperedge other than e2 that is neither queued nor in
   * busy has all its s-neighbours reached.
   */
  ghost predicate Spread(nb: seq<map<int, int>>, s: int, e2: int, visited: map<int, int>,
                         queue: seq<(int, int)>, busy: set<int>)
  {
    forall x, y :: x in visited && x !in Distances.Nodes(queue) && x !in busy && x != e2 && Linked(nb, s, x, y) ==>
      y in visited
  }

  /**
   * Every reached hyperedge x other than e2 that is neither queued nor in
   * busy is recorded as a parent of each s-neighbour one level above it,
   * and no s-neighbour of x is more than one level above it.
   */
  ghost predicate Recorded(nb: seq<map<int, int>>, s: int, e2: int, visited: map<int, int>,
                           queue: seq<(int, int)>, busy: set<int>, ps: map<int, seq<int>>)
  {
    forall x, y ::
      (x in visited && x !in Distances.Nodes(queue) && x !in busy && x != e2 && Linked(nb, s, x, y) && y in visited) ==>
      visited[y] <= visited[x] + 1 && (visited[y] == visited[x] + 1 ==> y in ps && x in ps[y])
  }

  /** The queue's levels never decrease and span at most two adjacent levels. */
  ghost predicate Fifo(queue: seq<(int, int)>)
  {
    forall i, j :: 0 <= i <= j < |queue| ==> queue[i].1 <= queue[j].1 <= queue[i].1 + 1
  }

  /**
   * The lattice holds the reached hyperedges on their levels; the root
   * marker is a parent of e1 only, and every other parent is an
   * s-neighbour one level below.
   */
  ghost predicate Parented(nb: seq<map<int, int>>, s: int, e1: int, visited: map<int, int>,
                           ps: map<int, seq<int>>, level: map<int, nat>)
  {
    ps.Keys == visited.Keys && level.Keys == visited.Keys &&
    (forall x :: x in visited ==> level[x] == visited[x] && |ps[x]| > 0) &&
    (e1 in ps ==> ps[e1][0] == -1) &&
    forall x, i :: x in ps && 0 <= i < |ps[x]| ==>
      (ps[x][i] == -1 ==> x == e1) &&
      (ps[x][i] != -1 ==> ps[x][i] in visited && Linked(nb, s, ps[x][i], x) && visited[ps[x][i]] + 1 == visited[x])
  }

  /** A parent map with levels as the search records them is layered. */
  lemma ParentedLayered(nb: seq<map<int, int>>, s: int, e1: int, e2: int, visited: map<int, int>,
                        ps: map<int, seq<int>>, level: map<int, nat>)
    requires Levels(nb, s, e1, e2, visited) && Parented(nb, s, e1, visited, ps, level)
    ensures Layered(ps, level)
  {
  }

  /** The state between two polls. */
  ghost predicate Between(nb: seq<map<int, int>>, s: int, e1: int, e2: int, visited: map<int, int>,
                          queue: seq<(int, int)>, ps: map<int, seq<int>>, level: map<int, nat>)
  {
    e1 != e2 && Levels(nb, s, e1, e2, visited) && Waiting(queue, visited) && Spread(nb, s, e2, visited, queue, {}) &&
    Recorded(nb, s, e2, visited, queue, {}, ps) && Fifo(queue) && Parented(nb, s, e1, visited, ps, level) &&
    (queue != [] ==> forall x :: x in visited ==> visited[x] <= queue[0].1 + 1)
  }

  /** The state while the s-neighbours of cur, polled on level step, are examined. */
  ghost predicate Expanding(nb: seq<map<int, int>>, s: int, e1: int, e2: int, cur: int, step: int,
                            visited: map<int, int>, queue: seq<(int, int)>, ps: map<int, seq<int>>, level: map<int, nat>)
  {
    e1 != e2 && Levels(nb, s, e1, e2, visited) && Waiting(queue, visited) && Spread(nb, s, e2, visited, queue, {cur}) &&
    Recorded(nb, s, e2, visited, queue, {cur}, ps) && Fifo(queue) && Parented(nb, s, e1, visited, ps, level) &&
    AtStep(cur, step, visited, queue)
  }

  /** cur was polled on level step: no queued hyperedge is below it and none reached is two levels above it. */
  ghost predicate AtStep(cur: int, step: int, visited: map<int, int>, queue: seq<(int, int)>)
  {
    cur in visited && visited[cur] == step &&
    (forall i :: 0 <= i < |queue| ==> step <= queue[i].1) &&
    (forall x :: x in visited ==> visited[x] <= step + 1)
  }

  /*
   * Why the state is kept.
   */

  /** The lattice and queue holding only e1, on level 1. */
  lemma Started(nb: seq<map<int, int>>, s: int, e1: int, e2: int)
    requires 0 <= e1 < |nb| && e1 != e2
    ensures Between(nb, s, e1, e2, map[e1 := 1], [(e1, 1)], map[e1 := [-1]], map[e1 := 1])
  {
    assert Distances.Nodes([(e1, 1)]) == {e1} by {
      assert [(e1, 1)][0].0 == e1;
    }
  }

  /** Polling the queue's head starts the examination of its hyperedge. */
  lemma Polled(nb: seq<map<int, int>>, s: int, e1: int, e2: int, visited: map<int, int>,
               queue: seq<(int, int)>, ps: map<int, seq<int>>, level: map<int, nat>)
    requires Between(nb, s, e1, e2, visited, queue, ps, level) && queue != []
    ensures Expanding(nb, s, e1, e2, queue[0].0, queue[0].1, visited, queue[1..], ps, level)
  {
    var rest := queue[1..];
    forall x | x in Distances.Nodes(queue) && x != queue[0].0
      ensures x in Distances.Nodes(rest)
    {
      var j :| 0 <= j < |queue| && queue[j].0 == x;
      assert rest[j - 1] == queue[j];
    }
    forall i | 0 <= i < |rest|
      ensures queue[0].1 <= rest[i].1
    {
      assert rest[i] == queue[i + 1];
    }
  }

  /**
   * A hyperedge not yet reached is at least step away when e2 is
   * unreached or not below step + 1: a walk to it leaves the reached
   * hyperedges from cur, from a queued one, or from e2, none of them
   * below level step.
   */
  lemma NewLower(nb: seq<map<int, int>>, s: int, e1: int, e2: int, cur: int, step: int,
                 visited: map<int, int>, queue: seq<(int, int)>, ps: map<int, seq<int>>, level: map<int, nat>, n: int)
    requires Expanding(nb, s, e1, e2, cur, step, visited, queue, ps, level) && n !in visited
    requires e2 !in visited || step + 1 <= visited[e2]
    ensures NoShorter(nb, s, e1, n, step)
  {
    forall p | WalkTo(nb, s, e1, n, p)
      ensures |p| >= step + 1
    {
      var j := FirstExit(p, visited.Keys);
      var x := p[j - 1];
      WalkPrefix(nb, s, e1, n, p, j);
      assert Linked(nb, s, x, p[j]);
      assert |p[..j]| >= visited[x];
      if x != cur && x != e2 {
        var k :| 0 <= k < |queue| && queue[k].0 == x;
        assert queue[k].1 >= step;
      }
    }
  }

  /** A newly reached s-neighbour of cur, on level step + 1, queued unless it is e2. */
  lemma ReachedNew(nb: seq<map<int, int>>, s: int, e1: int, e2: int, cur: int, step: int,
                   visited: map<int, int>, queue: seq<(int, int)>, ps: map<int, seq<int>>, level: map<int, nat>,
                   ngb: int, queue': seq<(int, int)>)
    requires InRange(nb) && Linked(nb, s, cur, ngb) && ngb !in visited
    requires Expanding(nb, s, e1, e2, cur, step, visited, queue, ps, level)
    requires e2 !in visited || step + 1 <= visited[e2] ==> NoShorter(nb, s, e1, ngb, step)
    requires queue' == if ngb != e2 then queue + [(ngb, step + 1)] else queue
    ensures Expanding(nb, s, e1, e2, cur, step, visited[ngb := step + 1], queue',
                      ps[ngb := [cur]], level[ngb := step + 1])
  {
    QueuedNew(visited, queue, step, ngb, ngb != e2, queue');
    LevelsNew(nb, s, e1, e2, visited, ngb, step);
    RecordedNew(nb, s, e2, cur, visited, queue, ps, ngb, step + 1, queue');
    ParentedNew(nb, s, e1, cur, visited, ps, level, ngb, step + 1);
    AtStepNew(cur, step, visited, queue, ngb, queue');
  }

  /** ngb, reached on level step + 1 with no shorter walk while e2 is not below it, keeps the levels. */
  lemma LevelsNew(nb: seq<map<int, int>>, s: int, e1: int, e2: int, visited: map<int, int>, ngb: int, step: int)
    requires Levels(nb, s, e1, e2, visited) && ngb !in visited && 0 <= ngb < |nb| && step >= 1
    requires e2 !in visited || step + 1 <= visited[e2] ==> NoShorter(nb, s, e1, ngb, step)
    ensures Levels(nb, s, e1, e2, visited[ngb := step + 1])
  {
  }

  /** Reaching ngb on level step + 1 keeps cur's step. */
  lemma AtStepNew(cur: int, step: int, visited: map<int, int>, queue: seq<(int, int)>, ngb: int, queue': seq<(int, int)>)
    requires AtStep(cur, step, visited, queue) && ngb !in visited
    requires forall i :: 0 <= i < |queue'| ==> step <= queue'[i].1
    ensures AtStep(cur, step, visited[ngb := step + 1], queue')
  {
  }

  /** Queueing ngb on level step + 1, or not, keeps the queue's order and levels. */
  lemma QueuedNew(visited: map<int, int>, queue: seq<(int, int)>, step: int, ngb: int, queued: bool,
                  queue': seq<(int, int)>)
    requires ngb !in visited && Waiting(queue, visited) && Fifo(queue)
    requires (forall i :: 0 <= i < |queue| ==> step <= queue[i].1)
    requires (forall x :: x in visited ==> visited[x] <= step + 1)
    requires queue' == if queued then queue + [(ngb, step + 1)] else queue
    ensures Distances.Nodes(queue) <= Distances.Nodes(queue')
    ensures queued ==> ngb in Distances.Nodes(queue')
    ensures Waiting(queue', visited[ngb := step + 1]) && Fifo(queue')
    ensures forall i :: 0 <= i < |queue'| ==> step <= queue'[i].1
  {
    var visited' := visited[ngb := step + 1];
    assert Distances.Nodes(queue) <= Distances.Nodes(queue') by {
      forall x | x in Distances.Nodes(queue)
        ensures x in Distances.Nodes(queue')
      {
        var j :| 0 <= j < |queue| && queue[j].0 == x;
        assert queue'[j] == queue[j];
      }
    }
    if queued {
      assert queue'[|queue|] == (ngb, step + 1);
      assert ngb in Distances.Nodes(queue');
    }
    assert Waiting(queue', visited') by {
      forall i | 0 <= i < |queue'|
        ensures queue'[i].0 in visited' && queue'[i].1 == visited'[queue'[i].0]
      {
        if i < |queue| {
          assert queue'[i] == queue[i];
        }
      }
    }
    assert Fifo(queue') by {
      forall i, j | 0 <= i <= j < |queue'|
        ensures queue'[i].1 <= queue'[j].1 <= queue'[i].1 + 1
      {
        if j < |queue| {
          assert queue'[i] == queue[i] && queue'[j] == queue[j];
        } else if i < |queue| {
          assert queue'[j] == (ngb, step + 1);
          assert queue'[i] == queue[i] && queue[i].0 in visited && queue[i].1 == visited[queue[i].0];
          var x := queue[i].0;
          assert x in visited && visited[x] <= step + 1;
        }
      }
    }
    forall i | 0 <= i < |queue'|
      ensures step <= queue'[i].1
    {
      if i < |queue| {
        assert queue'[i] == queue[i];
      }
    }
  }

  /** Recording cur as the only parent of the newly reached ngb keeps the lattice parented. */
  lemma ParentedNew(nb: seq<map<int, int>>, s: int, e1: int, cur: int, visited: map<int, int>,
                    ps: map<int, seq<int>>, level: map<int, nat>, ngb: int, l: nat)
    requires Parented(nb, s, e1, visited, ps, level) && e1 in visited
    requires Linked(nb, s, cur, ngb) && ngb !in visited && cur in visited && visited[cur] + 1 == l
    ensures Parented(nb, s, e1, visited[ngb := l], ps[ngb := [cur]], level[ngb := l])
  {
    var visited', ps' := visited[ngb := l], ps[ngb := [cur]];
    forall x, i | x in ps' && 0 <= i < |ps'[x]|
      ensures ps'[x][i] != -1 ==>
        ps'[x][i] in visited' && Linked(nb, s, ps'[x][i], x) && visited'[ps'[x][i]] + 1 == visited'[x]
      ensures ps'[x][i] == -1 ==> x == e1
    {
      if x != ngb {
        assert ps'[x][i] == ps[x][i];
      }
    }
  }

  /** Reaching ngb from cur records nothing new for the hyperedges already done. */
  lemma RecordedNew(nb: seq<map<int, int>>, s: int, e2: int, cur: int, visited: map<int, int>,
                    queue: seq<(int, int)>, ps: map<int, seq<int>>, ngb: int, l: int, queue': seq<(int, int)>)
    requires ngb !in visited && (ngb != e2 ==> ngb in Distances.Nodes(queue'))
    requires Distances.Nodes(queue) <= Distances.Nodes(queue')
    requires Spread(nb, s, e2, visited, queue, {cur}) && Recorded(nb, s, e2, visited, queue, {cur}, ps)
    ensures Spread(nb, s, e2, visited[ngb := l], queue', {cur})
    ensures Recorded(nb, s, e2, visited[ngb := l], queue', {cur}, ps[ngb := [cur]])
  {
    forall x, y | x in visited[ngb := l] && x !in Distances.Nodes(queue') && x !in {cur} && x != e2 &&
                  Linked(nb, s, x, y)
      ensures y in visited[ngb := l]
    {
      assert x != ngb;
    }
    forall x, y | x in visited[ngb := l] && x !in Distances.Nodes(queue') && x !in {cur} && x != e2 &&
                  Linked(nb, s, x, y) && y in visited[ngb := l]
      ensures visited[ngb := l][y] <= visited[ngb := l][x] + 1
      ensures visited[ngb := l][y] == visited[ngb := l][x] + 1 ==> y in ps[ngb := [cur]] && x in ps[ngb := [cur]][y]
    {
      assert x != ngb && y in visited && y != ngb;
    }
  }

  /** cur becomes one more parent of a hyperedge already reached on level step + 1. */
  lemma ReachedAgain(nb: seq<map<int, int>>, s: int, e1: int, e2: int, cur: int, step: int,
                     visited: map<int, int>, queue: seq<(int, int)>, ps: map<int, seq<int>>, level: map<int, nat>,
                     ngb: int)
    requires Linked(nb, s, cur, ngb) && ngb in visited && visited[ngb] == step + 1
    requires Expanding(nb, s, e1, e2, cur, step, visited, queue, ps, level)
    ensures Expanding(nb, s, e1, e2, cur, step, visited, queue, ps[ngb := ps[ngb] + [cur]], level)
  {
    var ps' := ps[ngb := ps[ngb] + [cur]];
    forall x, i | x in ps' && 0 <= i < |ps'[x]|
      ensures ps'[x][i] != -1 ==> ps'[x][i] in visited && Linked(nb, s, ps'[x][i], x) && visited[ps'[x][i]] + 1 == visited[x]
      ensures ps'[x][i] == -1 ==> x == e1
    {
      if x == ngb && i == |ps[ngb]| {
        assert ps'[x][i] == cur;
      } else {
        assert ps'[x][i] == ps[x][i];
      }
    }
  }

  /** With every s-neighbour of cur reached, the examination of cur is over. */
  lemma Expanded(nb: seq<map<int, int>>, s: int, e1: int, e2: int, cur: int, step: int,
                 visited: map<int, int>, queue: seq<(int, int)>, ps: map<int, seq<int>>, level: map<int, nat>)
    requires Expanding(nb, s, e1, e2, cur, step, visited, queue, ps, level)
    requires forall y :: Linked(nb, s, cur, y) ==> y in visited && (visited[y] == step + 1 ==> cur in ps[y])
    ensures Between(nb, s, e1, e2, visited, queue, ps, level)
  {
  }

  /*
   * What the finished search gives.
   */

  /** The reversed chain of a hyperedge in the lattice is a walk from e1 to it, with as many hyperedges as its level. */
  lemma {:induction false} ChainWalk(nb: seq<map<int, int>>, s: int, e1: int, e2: int, visited: map<int, int>,
                                     ps: map<int, seq<int>>, level: map<int, nat>, id: int, c: seq<int>)
    requires Levels(nb, s, e1, e2, visited) && Parented(nb, s, e1, visited, ps, level) && IsChain(ps, id, c)
    ensures WalkTo(nb, s, e1, id, Reverse(c)) && |c| == visited[id]
    decreases |c|
  {
    if |c| == 1 {
      assert -1 in ps[id];
      assert Reverse(c) == [e1];
    } else {
      var up := c[1];
      assert IsChain(ps, up, c[1..]);
      ChainWalk(nb, s, e1, e2, visited, ps, level, up, c[1..]);
      var i :| 0 <= i < |ps[id]| && ps[id][i] == up;
      assert up != -1;
      assert Linked(nb, s, up, id);
      WalkExtend(nb, s, e1, up, Reverse(c[1..]), id);
      assert Reverse(c) == Reverse(c[1..]) + [id];
    }
  }

  /** When the queue has run out, e2 is reached if it is s-reachable from e1. */
  lemma Closed(nb: seq<map<int, int>>, s: int, e1: int, e2: int, visited: map<int, int>)
    requires e1 in visited && Spread(nb, s, e2, visited, [], {})
    ensures Reachable(nb, s, e1, e2) ==> e2 in visited
  {
    if Reachable(nb, s, e1, e2) && e2 !in visited {
      assert Distances.Nodes([]) == {};
      forall x, y | x in visited && Linked(nb, s, x, y)
        ensures y in visited
      {
        assert x != e2;
      }
      ClosedReach(nb, s, e1, visited.Keys, e2);
    }
  }

  /** The same hyperedges in reverse order. */
  lemma ElementsReverse(c: seq<int>)
    ensures Utils.Elements(Reverse(c)) == Utils.Elements(c)
  {
    forall x | x in c
      ensures x in Reverse(c)
    {
      var i :| 0 <= i < |c| && c[i] == x;
      assert Reverse(c)[|c| - 1 - i] == x;
    }
  }

  /** p is the set of hyperedges on a shortest s-walk from a to b. */
  ghost predicate ShortestPathSet(nb: seq<map<int, int>>, s: int, a: int, b: int, p: set<int>)
  {
    exists w :: WalkTo(nb, s, a, b, w) && IsDistance(nb, s, a, b, |w| - 1) && p == Utils.Elements(w)
  }

  /** Each chain from e2 yields the hyperedge set of a shortest walk from e1 to e2. */
  lemma ChainShortest(nb: seq<map<int, int>>, s: int, e1: int, e2: int, visited: map<int, int>,
                      ps: map<int, seq<int>>, level: map<int, nat>, c: seq<int>)
    requires Levels(nb, s, e1, e2, visited) && Parented(nb, s, e1, visited, ps, level) && IsChain(ps, e2, c)
    ensures ShortestPathSet(nb, s, e1, e2, Utils.Elements(c))
  {
    ChainWalk(nb, s, e1, e2, visited, ps, level, e2, c);
    ElementsReverse(c);
    var w := Reverse(c);
    assert WalkTo(nb, s, e1, e2, w) && IsDistance(nb, s, e1, e2, |w| - 1);
  }

  /** Every shortest walk from e1 to e2, read backwards, is a parent chain of the finished lattice. */
  lemma ShortestWalkChain(nb: seq<map<int, int>>, s: int, e1: int, e2: int, visited: map<int, int>,
                          ps: map<int, seq<int>>, level: map<int, nat>, w: seq<int>)
    requires Between(nb, s, e1, e2, visited, [], ps, level) && Layered(ps, level)
    requires WalkTo(nb, s, e1, e2, w) && NoShorter(nb, s, e1, e2, |w| - 1)
    ensures IsChain(ps, e2, Reverse(w))
  {
    var n := |w|;
    UpperAlong(nb, s, e1, e2, visited, ps, level, w, n - 1);
    forall j | 0 <= j < n
      ensures w[j] in visited && visited[w[j]] == j + 1
    {
      UpperAlong(nb, s, e1, e2, visited, ps, level, w, j);
      LowerAlong(nb, s, e1, e2, visited, ps, level, w, j);
    }
    assert Distances.Nodes([]) == {};
    forall j | 1 <= j < n
      ensures w[j - 1] in ps[w[j]]
    {
      EarlyNotE2(nb, s, e1, e2, w, j - 1);
      assert Linked(nb, s, w[j - 1], w[j]);
    }
    var c := Reverse(w);
    assert ps[e1][0] == -1;
    forall k | 0 <= k < n - 1
      ensures c[k + 1] in ps[c[k]]
    {
      assert c[k] == w[n - 1 - k] && c[k + 1] == w[n - 1 - k - 1];
    }
  }

  /** The j-th hyperedge of a shortest walk from e1 to e2 is not e2 unless it is the last. */
  lemma EarlyNotE2(nb: seq<map<int, int>>, s: int, e1: int, e2: int, w: seq<int>, j: int)
    requires WalkTo(nb, s, e1, e2, w) && NoShorter(nb, s, e1, e2, |w| - 1) && 0 <= j < |w| - 1
    ensures w[j] != e2
  {
    if w[j] == e2 {
      WalkPrefix(nb, s, e1, e2, w, j + 1);
    }
  }

  /** The finished search reached the j-th hyperedge of a shortest walk to e2 no later than level j + 1. */
  lemma {:induction false} UpperAlong(nb: seq<map<int, int>>, s: int, e1: int, e2: int, visited: map<int, int>,
                                      ps: map<int, seq<int>>, level: map<int, nat>, w: seq<int>, j: int)
    requires Between(nb, s, e1, e2, visited, [], ps, level)
    requires WalkTo(nb, s, e1, e2, w) && NoShorter(nb, s, e1, e2, |w| - 1) && 0 <= j < |w|
    ensures w[j] in visited && visited[w[j]] <= j + 1
    decreases j
  {
    if j > 0 {
      UpperAlong(nb, s, e1, e2, visited, ps, level, w, j - 1);
      EarlyNotE2(nb, s, e1, e2, w, j - 1);
      assert Linked(nb, s, w[j - 1], w[j]);
      assert Distances.Nodes([]) == {};
    }
  }

  /** The finished search reached the j-th hyperedge of a shortest walk to e2 no earlier than level j + 1. */
  lemma LowerAlong(nb: seq<map<int, int>>, s: int, e1: int, e2: int, visited: map<int, int>,
                   ps: map<int, seq<int>>, level: map<int, nat>, w: seq<int>, j: int)
    requires Levels(nb, s, e1, e2, visited) && Parented(nb, s, e1, visited, ps, level) && Layered(ps, level)
    requires WalkTo(nb, s, e1, e2, w) && NoShorter(nb, s, e1, e2, |w| - 1) && 0 <= j < |w| && w[j] in visited
    requires e2 in visited
    ensures visited[w[j]] >= j + 1
  {
    var x := w[j];
    assert 0 <= e2 < |nb|;
    ChainsNonEmpty(ps, level, x);
    ChainsAreChains(ps, level, x);
    var c := Chains(ps, level, x)[0];
    ChainWalk(nb, s, e1, e2, visited, ps, level, x, c);
    WalkSuffix(nb, s, e1, e2, w, j);
    WalkJoin(nb, s, e1, x, e2, Reverse(c), w[j..]);
  }

  /** From visited and queue, the hyperedges in added were reached and at most as many entries queued. */
  ghost predicate Grew(visited: map<int, int>, queue: seq<(int, int)>, visited': map<int, int>, queue': seq<(int, int)>,
                       added: set<int>)
  {
    visited'.Keys == visited.Keys + added && added !! visited.Keys && |queue'| <= |queue| + |added|
  }

  lemma GrewStep(visited: map<int, int>, queue: seq<(int, int)>, v: map<int, int>, q: seq<(int, int)>, added: set<int>,
                 v': map<int, int>, q': seq<(int, int)>, ngb: int)
    requires Grew(visited, queue, v, q, added)
    requires ngb in v ==> v' == v && q' == q
    requires ngb !in v ==> v'.Keys == v.Keys + {ngb} && |q'| <= |q| + 1
    ensures Grew(visited, queue, v', q', if ngb in v then added else added + {ngb})
  {
  }

  /**
   * While the s-neighbours ngbs of cur are examined: those no longer in
   * rest are reached, and added holds the ones reached for the first time
   * since visited and queue.
   */
  ghost predicate Scanning(nb: seq<map<int, int>>, s: int, e1: int, e2: int, cur: int, step: int,
                           ngbs: set<int>, rest: set<int>, visited0: map<int, int>, queue0: seq<(int, int)>,
                           visited: map<int, int>, queue: seq<(int, int)>, added: set<int>,
                           ps: map<int, seq<int>>, level: map<int, nat>)
  {
    rest <= ngbs && (forall y :: y in ngbs ==> Linked(nb, s, cur, y)) &&
    Expanding(nb, s, e1, e2, cur, step, visited, queue, ps, level) &&
    (forall y :: y in ngbs && y !in rest ==> y in visited && (visited[y] == step + 1 ==> cur in ps[y])) &&
    Grew(visited0, queue0, visited, queue, added)
  }

  /** Why visiting one more s-neighbour keeps the state of the scan. */
  lemma ScanStep(nb: seq<map<int, int>>, s: int, e1: int, e2: int, cur: int, step: int,
                 ngbs: set<int>, rest: set<int>, visited0: map<int, int>, queue0: seq<(int, int)>,
                 visited: map<int, int>, queue: seq<(int, int)>, added: set<int>,
                 ps: map<int, seq<int>>, level: map<int, nat>,
                 ngb: int, visited': map<int, int>, queue': seq<(int, int)>, ps': map<int, seq<int>>, level': map<int, nat>)
    requires InRange(nb) && ngb in rest
    requires Scanning(nb, s, e1, e2, cur, step, ngbs, rest, visited0, queue0, visited, queue, added, ps, level)
    requires ngb !in visited ==>
      visited' == visited[ngb := step + 1] && queue' == (if ngb != e2 then queue + [(ngb, step + 1)] else queue) &&
      ps' == ps[ngb := [cur]] && level' == level[ngb := step + 1]
    requires ngb in visited && visited[ngb] == step + 1 ==>
      visited' == visited && queue' == queue && ps' == ps[ngb := ps[ngb] + [cur]] && level' == level
    requires ngb in visited && visited[ngb] != step + 1 ==>
      visited' == visited && queue' == queue && ps' == ps && level' == level
    ensures Scanning(nb, s, e1, e2, cur, step, ngbs, rest - {ngb}, visited0, queue0, visited', queue',
                     if ngb in visited then added else added + {ngb}, ps', level')
  {
    if ngb !in visited {
      ScanNew(nb, s, e1, e2, cur, step, ngbs, rest, visited0, queue0, visited, queue, added, ps, level, ngb, visited', queue', ps', level');
    } else if visited[ngb] == step + 1 {
      ScanAgain(nb, s, e1, e2, cur, step, ngbs, rest, visited0, queue0, visited, queue, added, ps, level, ngb, visited', queue', ps', level');
    } else {
      GrewStep(visited0, queue0, visited, queue, added, visited', queue', ngb);
    }
  }

  /** A new s-neighbour is reached on the next level. */
  lemma ScanNew(nb: seq<map<int, int>>, s: int, e1: int, e2: int, cur: int, step: int,
                 ngbs: set<int>, rest: set<int>, visited0: map<int, int>, queue0: seq<(int, int)>,
                 visited: map<int, int>, queue: seq<(int, int)>, added: set<int>,
                 ps: map<int, seq<int>>, level: map<int, nat>,
                 ngb: int, visited': map<int, int>, queue': seq<(int, int)>, ps': map<int, seq<int>>, level': map<int, nat>)
    requires InRange(nb) && ngb in rest
    requires Scanning(nb, s, e1, e2, cur, step, ngbs, rest, visited0, queue0, visited, queue, added, ps, level)
    requires ngb !in visited
    requires visited' == visited[ngb := step + 1] && queue' == (if ngb != e2 then queue + [(ngb, step + 1)] else queue)
    requires ps' == ps[ngb := [cur]] && level' == level[ngb := step + 1]
    ensures Scanning(nb, s, e1, e2, cur, step, ngbs, rest - {ngb}, visited0, queue0, visited', queue', added + {ngb}, ps', level')
  {
    if e2 !in visited || step + 1 <= visited[e2] {
      NewLower(nb, s, e1, e2, cur, step, visited, queue, ps, level, ngb);
    }
    ReachedNew(nb, s, e1, e2, cur, step, visited, queue, ps, level, ngb, queue');
    assert visited'.Keys == visited.Keys + {ngb};
    assert |queue'| <= |queue| + 1;
    GrewStep(visited0, queue0, visited, queue, added, visited', queue', ngb);
  }

  /** An s-neighbour already on the next level gets cur as a further parent. */
  lemma ScanAgain(nb: seq<map<int, int>>, s: int, e1: int, e2: int, cur: int, step: int,
                 ngbs: set<int>, rest: set<int>, visited0: map<int, int>, queue0: seq<(int, int)>,
                 visited: map<int, int>, queue: seq<(int, int)>, added: set<int>,
                 ps: map<int, seq<int>>, level: map<int, nat>,
                 ngb: int, visited': map<int, int>, queue': seq<(int, int)>, ps': map<int, seq<int>>, level': map<int, nat>)
    requires InRange(nb) && ngb in rest
    requires Scanning(nb, s, e1, e2, cur, step, ngbs, rest, visited0, queue0, visited, queue, added, ps, level)
    requires ngb in visited && visited[ngb] == step + 1
    requires visited' == visited && queue' == queue && ps' == ps[ngb := ps[ngb] + [cur]] && level' == level
    ensures Scanning(nb, s, e1, e2, cur, step, ngbs, rest - {ngb}, visited0, queue0, visited', queue', added, ps', level')
  {
    ReachedAgain(nb, s, e1, e2, cur, step, visited, queue, ps, level, ngb);
    GrewStep(visited0, queue0, visited, queue, added, visited', queue', ngb);
  }
}
