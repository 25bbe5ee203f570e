/**
 * Walks in the s-line graph of a hypergraph, read off the neighbour maps:
 * b follows a when a records b as a neighbour with overlap at least s.
 * The s-distance from a to b is the number of steps of a shortest walk.
 */
module Walks {

  /** b is an s-neighbour of a in the neighbour maps nb. */
  predicate Linked(nb: seq<map<int, int>>, s: int, a: int, b: int)
  {
    0 <= a < |nb| && b in nb[a] && nb[a][b] >= s
  }

  /** Neighbour maps that name only hyperedges. */
  ghost predicate InRange(nb: seq<map<int, int>>)
  {
    forall a, b :: 0 <= a < |nb| && b in nb[a] ==> 0 <= b < |nb|
  }

  /** A non-empty sequence of hyperedges, each an s-neighbour of the one before. */
  ghost predicate IsWalk(nb: seq<map<int, int>>, s: int, p: seq<int>)
  {
    |p| > 0 && 0 <= p[0] < |nb| && forall i :: 0 <= i < |p| - 1 ==> Linked(nb, s, p[i], p[i + 1])
  }

  /** A walk from a to b; it takes |p| - 1 steps. */
  ghost predicate WalkTo(nb: seq<map<int, int>>, s: int, a: int, b: int, p: seq<int>)
  {
    IsWalk(nb, s, p) && p[0] == a && p[|p| - 1] == b
  }

  ghost predicate Reachable(nb: seq<map<int, int>>, s: int, a: int, b: int)
  {
    exists p :: WalkTo(nb, s, a, b, p)
  }

  /** No walk from a to b takes fewer than d steps. */
  ghost predicate NoShorter(nb: seq<map<int, int>>, s: int, a: int, b: int, d: int)
  {
    forall p :: WalkTo(nb, s, a, b, p) ==> |p| >= d + 1
  }

  /** d is the s-distance from a to b: some walk takes d steps and none fewer. */
  ghost predicate IsDistance(nb: seq<map<int, int>>, s: int, a: int, b: int, d: int)
  {
    (exists p :: WalkTo(nb, s, a, b, p) && |p| == d + 1) && NoShorter(nb, s, a, b, d)
  }

  /** The distance is unique. */
  lemma DistanceUnique(nb: seq<map<int, int>>, s: int, a: int, b: int, d: int, d': int)
    requires IsDistance(nb, s, a, b, d) && IsDistance(nb, s, a, b, d')
    ensures d == d'
  {
  }

  /** A hyperedge is at distance 0 from itself and from nothing else. */
  lemma DistanceZero(nb: seq<map<int, int>>, s: int, a: int, b: int)
    requires 0 <= a < |nb|
    ensures IsDistance(nb, s, a, b, 0) <==> a == b
  {
    if a == b {
      assert WalkTo(nb, s, a, a, [a]);
    }
  }

  /** A walk to x followed by an s-neighbour of x is a walk one step longer. */
  lemma WalkExtend(nb: seq<map<int, int>>, s: int, a: int, x: int, p: seq<int>, y: int)
    requires WalkTo(nb, s, a, x, p) && Linked(nb, s, x, y)
    ensures WalkTo(nb, s, a, y, p + [y]) && |p + [y]| == |p| + 1
  {
    var q := p + [y];
    forall i | 0 <= i < |q| - 1
      ensures Linked(nb, s, q[i], q[i + 1])
    {
      if i < |p| - 1 {
        assert q[i] == p[i] && q[i + 1] == p[i + 1];
      }
    }
  }

  /** The first j hyperedges of a walk are a walk to the j-th. */
  lemma WalkPrefix(nb: seq<map<int, int>>, s: int, a: int, b: int, p: seq<int>, j: int)
    requires WalkTo(nb, s, a, b, p) && 1 <= j <= |p|
    ensures WalkTo(nb, s, a, p[j - 1], p[..j])
  {
    var q := p[..j];
    forall i | 0 <= i < |q| - 1
      ensures Linked(nb, s, q[i], q[i + 1])
    {
      assert q[i] == p[i] && q[i + 1] == p[i + 1];
    }
  }

  /** The hyperedges of a walk from the j-th on are a walk from it. */
  lemma WalkSuffix(nb: seq<map<int, int>>, s: int, a: int, b: int, p: seq<int>, j: int)
    requires WalkTo(nb, s, a, b, p) && 0 <= j < |p| && 0 <= b < |nb|
    ensures WalkTo(nb, s, p[j], b, p[j..])
  {
    var q := p[j..];
    if j < |p| - 1 {
      assert Linked(nb, s, p[j], p[j + 1]);
    }
    forall i | 0 <= i < |q| - 1
      ensures Linked(nb, s, q[i], q[i + 1])
    {
      assert q[i] == p[j + i] && q[i + 1] == p[j + i + 1];
    }
  }

  /** A walk that starts inside v and ends outside leaves v at some step. */
  lemma {:induction false} FirstExit(p: seq<int>, v: set<int>) returns (j: int)
    requires |p| > 0 && p[0] in v && p[|p| - 1] !in v
    ensures 1 <= j < |p| && p[j - 1] in v && p[j] !in v
    decreases |p|
  {
    if p[|p| - 2] in v {
      j := |p| - 1;
    } else {
      j := FirstExit(p[..|p| - 1], v);
    }
  }

  /** From inside a set that holds every s-neighbour of its members, every walk stays inside. */
  lemma ClosedReach(nb: seq<map<int, int>>, s: int, a: int, v: set<int>, b: int)
    requires a in v && forall x, y :: x in v && Linked(nb, s, x, y) ==> y in v
    requires Reachable(nb, s, a, b)
    ensures b in v
  {
    var p :| WalkTo(nb, s, a, b, p);
    if b !in v {
      var j := FirstExit(p, v);
    }
  }

  /** Neighbour maps that record every overlap on both sides, with the same size. */
  ghost predicate Symmetric(nb: seq<map<int, int>>)
  {
    InRange(nb) &&
    forall a, b :: 0 <= a < |nb| && 0 <= b < |nb| && b in nb[a] ==> a in nb[b] && nb[b][a] == nb[a][b]
  }

  /** The hyperedges of p in the opposite order. */
  function Reverse(p: seq<int>): (r: seq<int>)
    ensures |r| == |p| && forall i :: 0 <= i < |p| ==> r[i] == p[|p| - 1 - i]
  {
    seq(|p|, i requires 0 <= i < |p| => p[|p| - 1 - i])
  }

  /** Over symmetric maps, a walk read backwards is a walk back. */
  lemma WalkReverse(nb: seq<map<int, int>>, s: int, a: int, b: int, p: seq<int>)
    requires Symmetric(nb) && WalkTo(nb, s, a, b, p)
    ensures WalkTo(nb, s, b, a, Reverse(p))
  {
    var r := Reverse(p);
    var n := |p|;
    if n > 1 {
      assert Linked(nb, s, p[n - 2], p[n - 1]);
      var x := p[n - 2];
      assert 0 <= x < |nb| && b in nb[x];
    }
    assert r[0] == p[n - 1] && r[n - 1] == p[0];
    forall i | 0 <= i < n - 1
      ensures Linked(nb, s, r[i], r[i + 1])
    {
      assert r[i] == p[n - 1 - i] && r[i + 1] == p[n - 2 - i];
      assert Linked(nb, s, p[n - 2 - i], p[n - 1 - i]);
    }
  }

  /** Over symmetric maps, reachability goes both ways. */
  lemma ReachableSymmetric(nb: seq<map<int, int>>, s: int, a: int, b: int)
    requires Symmetric(nb) && Reachable(nb, s, a, b)
    ensures Reachable(nb, s, b, a)
  {
    var p :| WalkTo(nb, s, a, b, p);
    WalkReverse(nb, s, a, b, p);
  }

  /** A walk to k followed by a walk from k is a walk, sharing k once. */
  lemma WalkJoin(nb: seq<map<int, int>>, s: int, a: int, k: int, b: int, p: seq<int>, q: seq<int>)
    requires WalkTo(nb, s, a, k, p) && WalkTo(nb, s, k, b, q)
    ensures WalkTo(nb, s, a, b, p + q[1..]) && |p + q[1..]| == |p| + |q| - 1
  {
    var w := p + q[1..];
    forall i | 0 <= i < |w| - 1
      ensures Linked(nb, s, w[i], w[i + 1])
    {
      if i < |p| - 1 {
        assert w[i] == p[i] && w[i + 1] == p[i + 1];
      } else {
        var j := i - |p| + 1;
        assert w[i] == q[j] && w[i + 1] == q[j + 1];
      }
    }
  }

  /** The s-distance obeys the triangle inequality through any hyperedge k. */
  lemma Triangle(nb: seq<map<int, int>>, s: int, a: int, k: int, b: int, dak: int, dkb: int, dab: int)
    requires IsDistance(nb, s, a, k, dak) && IsDistance(nb, s, k, b, dkb) && IsDistance(nb, s, a, b, dab)
    ensures dab <= dak + dkb
  {
    var p :| WalkTo(nb, s, a, k, p) && |p| == dak + 1;
    var q :| WalkTo(nb, s, k, b, q) && |q| == dkb + 1;
    WalkJoin(nb, s, a, k, b, p, q);
  }

  /** Over symmetric maps, the s-distance is the same in both directions. */
  lemma DistanceSymmetric(nb: seq<map<int, int>>, s: int, a: int, b: int, d: int)
    requires Symmetric(nb) && IsDistance(nb, s, a, b, d)
    ensures IsDistance(nb, s, b, a, d)
  {
    var p :| WalkTo(nb, s, a, b, p) && |p| == d + 1;
    WalkReverse(nb, s, a, b, p);
    forall q | WalkTo(nb, s, b, a, q)
      ensures |q| >= d + 1
    {
      WalkReverse(nb, s, b, a, q);
    }
  }

  /** The absolute value of x. */
  function Abs(x: int): (r: int)
    ensures r >= 0 && (r == x || r == -x)
  {
    if x < 0 then -x else x
  }

  /** One shared landmark bounds the s-distance of two hyperedges from both sides (triangle inequality). */
  lemma PairBounds(nb: seq<map<int, int>>, s: int, l: int, e1: int, e2: int, d1: int, d2: int, dist: int)
    requires Symmetric(nb)
    requires IsDistance(nb, s, l, e1, d1) && IsDistance(nb, s, l, e2, d2) && IsDistance(nb, s, e1, e2, dist)
    ensures Abs(d1 - d2) <= dist <= d1 + d2
  {
    DistanceSymmetric(nb, s, l, e1, d1);
    Triangle(nb, s, e1, l, e2, d1, d2, dist);
    Triangle(nb, s, l, e1, e2, d1, dist, d2);
    DistanceSymmetric(nb, s, e1, e2, dist);
    DistanceSymmetric(nb, s, l, e2, d2);
    Triangle(nb, s, l, e2, e1, d2, dist, d1);
  }
}
