/**
 * Post-processing of oracle answers. Refinement tightens the bounds of a
 * distance profile using that the s-distance never decreases as s grows:
 * the upper bound for s may drop to the upper bound for s + 1, and the lower
 * bound for s may rise to the (already refined) lower bound for s - 1. The
 * top-k row lists the k closest reached ids in order of distance, then id,
 * padded with -1.
 */
module Refinement {
  import opened Wrappers
  import opened Profiles

  /*
   * Refinement of one profile, as a function of its map.
   */

  /** Every s from 1 to n has an entry. */
  predicate Complete(m: map<int, Triple>, n: int)
  {
    forall s :: 1 <= s <= n ==> s in m
  }

  /** The largest s with an entry. */
  ghost function MaxKey(m: map<int, Triple>): (r: int)
    requires m != map[]
    ensures r in m && forall s | s in m :: s <= r
  {
    assert m.Keys != {};
    MaxOf(m.Keys)
  }

  /** The upper bound for s after its step: the smaller of its own and that of s + 1, unless s + 1 has none or only -1. */
  function RefinedUp(m: map<int, Triple>, s: int): real
    requires s in m
  {
    if s + 1 !in m || m[s + 1].up == -1.0 then m[s].up
    else RMin(m[s].up, m[s + 1].up)
  }

  /** The lower bound for s after its step: for s > 1, the larger of its own and that of s - 1 (-1 when absent). */
  function RefinedLo(m: map<int, Triple>, s: int): real
    requires s in m
  {
    if s > 1 then RMax(m[s].lo, if s - 1 in m then m[s - 1].lo else -1.0)
    else m[s].lo
  }

  function RMin(a: real, b: real): (r: real)
    ensures r <= a && r <= b && (r == a || r == b)
  {
    if a <= b then a else b
  }

  function RMax(a: real, b: real): (r: real)
    ensures r >= a && r >= b && (r == a || r == b)
  {
    if a >= b then a else b
  }

  /** One step: the entry for s gets its refined bounds and keeps its estimate. */
  function Step(m: map<int, Triple>, s: int): (r: map<int, Triple>)
    requires s in m
    ensures r.Keys == m.Keys
  {
    m[s := Triple(RefinedLo(m, s), RefinedUp(m, s), m[s].est)]
  }

  /** The map after the steps for s = 1 .. n, in increasing order. */
  function RefineUpTo(m: map<int, Triple>, n: int): (r: map<int, Triple>)
    requires Complete(m, n)
    ensures r.Keys == m.Keys
    decreases n
  {
    if n < 1 then m else Step(RefineUpTo(m, n - 1), n)
  }

  /**
   * The whole refinement: None when the map is empty (no largest s) or some
   * s between 1 and the largest has no entry (the loop reaches a missing entry).
   */
  ghost function Refined(m: map<int, Triple>): Option<map<int, Triple>>
  {
    if m == map[] || !Complete(m, MaxKey(m)) then None else Some(RefineUpTo(m, MaxKey(m)))
  }

  /** The steps for s = 1 .. n leave entries outside 1 .. n untouched. */
  lemma {:induction false} UntouchedAt(m: map<int, Triple>, n: int, s: int)
    requires Complete(m, n) && s in m && (s < 1 || s > n)
    ensures RefineUpTo(m, n)[s] == m[s]
    decreases n
  {
    if n >= 1 {
      UntouchedAt(m, n - 1, s);
    }
  }

  /** Refinement never changes an estimate. */
  lemma {:induction false} EstimateKept(m: map<int, Triple>, n: int, s: int)
    requires Complete(m, n) && s in m
    ensures RefineUpTo(m, n)[s].est == m[s].est
    decreases n
  {
    if n >= 1 {
      EstimateKept(m, n - 1, s);
    }
  }

  /** The refined upper bound for s uses the unrefined entry for s + 1. */
  lemma {:induction false} UpperAt(m: map<int, Triple>, n: int, s: int)
    requires Complete(m, n) && 1 <= s <= n
    ensures RefineUpTo(m, n)[s].up == RefinedUp(m, s)
    decreases n
  {
    if s == n {
      UntouchedAt(m, n - 1, n);
      if n + 1 in m {
        UntouchedAt(m, n - 1, n + 1);
      }
    } else {
      UpperAt(m, n - 1, s);
    }
  }

  /** The refined lower bound for s > 1 is the larger of its own and the refined one for s - 1; for s = 1 it is unchanged. */
  lemma {:induction false} LowerAt(m: map<int, Triple>, n: int, s: int)
    requires Complete(m, n) && 1 <= s <= n
    ensures s > 1 ==> RefineUpTo(m, n)[s].lo == RMax(m[s].lo, RefineUpTo(m, n)[s - 1].lo)
    ensures s == 1 ==> RefineUpTo(m, n)[s].lo == m[s].lo
    decreases n
  {
    if s == n {
      UntouchedAt(m, n - 1, n);
    } else {
      LowerAt(m, n - 1, s);
    }
  }

  /** After refinement, lower bounds never decrease as s grows from 1 to n. */
  lemma {:induction false} LowerMonotone(m: map<int, Triple>, n: int, a: int, b: int)
    requires Complete(m, n) && 1 <= a <= b <= n
    ensures RefineUpTo(m, n)[a].lo <= RefineUpTo(m, n)[b].lo
    decreases b - a
  {
    if a < b {
      LowerAt(m, n, b);
      LowerMonotone(m, n, a, b - 1);
    }
  }

  /** Refinement only tightens: lower bounds rise, upper bounds drop. */
  lemma Tightens(m: map<int, Triple>, n: int, s: int)
    requires Complete(m, n) && 1 <= s <= n
    ensures RefineUpTo(m, n)[s].lo >= m[s].lo
    ensures RefineUpTo(m, n)[s].up <= m[s].up
  {
    UpperAt(m, n, s);
    LowerAt(m, n, s);
    if s > 1 {
      Tightens(m, n, s - 1);
    }
  }

  /**
   * Bounds that hold for the true s-distances D(s): the lower bound is at most
   * D(s), and the upper bound is -1 (unknown) or at least D(s).
   */
  ghost predicate Sound(m: map<int, Triple>, D: int -> int)
  {
    forall s | s in m :: m[s].lo <= D(s) as real && (m[s].up == -1.0 || D(s) as real <= m[s].up)
  }

  /** True s-distances are non-negative and never decrease as s grows. */
  ghost predicate Distances(D: int -> int)
  {
    (forall s :: D(s) >= 0) && (forall s :: D(s) <= D(s + 1))
  }

  /** Refining sound bounds keeps them sound, since the s-distance never decreases in s. */
  lemma {:induction false} RefineSound(m: map<int, Triple>, n: int, D: int -> int)
    requires Complete(m, n) && Sound(m, D) && Distances(D)
    ensures Sound(RefineUpTo(m, n), D)
  {
    forall s | s in m
      ensures RefineUpTo(m, n)[s].lo <= D(s) as real
      ensures RefineUpTo(m, n)[s].up == -1.0 || D(s) as real <= RefineUpTo(m, n)[s].up
    {
      if 1 <= s <= n {
        LowerSound(m, n, s, D);
        UpperAt(m, n, s);
        assert D(s) <= D(s + 1);
      } else {
        UntouchedAt(m, n, s);
      }
    }
  }

  /** A refined lower bound stays below the true distance. */
  lemma {:induction false} LowerSound(m: map<int, Triple>, n: int, s: int, D: int -> int)
    requires Complete(m, n) && Sound(m, D) && Distances(D) && 1 <= s <= n
    ensures RefineUpTo(m, n)[s].lo <= D(s) as real
    decreases s
  {
    LowerAt(m, n, s);
    if s > 1 {
      LowerSound(m, n, s - 1, D);
      assert D(s - 1) <= D(s);
    }
  }

  /** The whole refinement, on the profile's own map (the source updates it in place). */
  method RefineProfile(dp: DistanceProfile) returns (ok: bool)
    modifies dp
    ensures ok <==> Refined(old(dp.distances)).Some?
    ensures ok ==> dp.distances == Refined(old(dp.distances)).value
  {
    ghost var m0 := dp.distances;
    if dp.distances == map[] {
      return false;
    }
    var maxS := LargestKey(dp.distances);
    var s := 1;
    while s <= maxS
      invariant 1 <= s <= Max(maxS, 0) + 1
      invariant Complete(m0, s - 1) && dp.distances == RefineUpTo(m0, s - 1)
    {
      if s !in dp.distances {
        assert !Complete(m0, maxS);
        return false;
      }
      var entry := dp.distances[s];
      var up := entry.up;
      if s + 1 in dp.distances && dp.distances[s + 1].up != -1.0 {
        up := RMin(up, dp.distances[s + 1].up);
      }
      var lo := entry.lo;
      if s > 1 {
        var candLB := if s - 1 in dp.distances then dp.distances[s - 1].lo else -1.0;
        lo := RMax(lo, candLB);
      }
      dp.distances := dp.distances[s := Triple(lo, up, entry.est)];
      s := s + 1;
    }
    return true;
  }

  /** The largest key of a non-empty map (`Collections.max` of its key set). */
  method LargestKey(m: map<int, Triple>) returns (r: int)
    requires m != map[]
    ensures r == MaxKey(m)
  {
    var rest := m.Keys;
    r := Pick(rest);
    ghost var seen: set<int> := {};
    while rest != {}
      invariant seen + rest == m.Keys && r in m
      invariant forall t | t in seen :: t <= r
      decreases rest
    {
      var s := Pick(rest);
      r := Max(r, s);
      rest := rest - {s};
      seen := seen + {s};
    }
  }

  /**
   * Refines every profile in place, then copies each into a new profile for
   * the same pair. A profile that cannot be refined aborts the whole call.
   */
  method RefineDistanceProfiles(profiles: map<(int, int), DistanceProfile>) returns (refined: Option<map<(int, int), DistanceProfile>>)
    requires forall a, b | a in profiles && b in profiles && a != b :: profiles[a] != profiles[b]
    modifies set key | key in profiles :: profiles[key]
    ensures (forall key | key in profiles :: Refined(old(profiles[key].distances)).Some?) ==> refined.Some?
    ensures refined.Some? ==> refined.value.Keys == profiles.Keys
    ensures refined.Some? ==> forall key | key in profiles ::
      Refined(old(profiles[key].distances)) == Some(profiles[key].distances) &&
      refined.value[key].distances == profiles[key].distances &&
      refined.value[key].p == key.0 && refined.value[key].q == key.1
  {
    var out: map<(int, int), DistanceProfile> := map[];
    var rest := profiles.Keys;
    while rest != {}
      invariant rest <= profiles.Keys
      invariant out.Keys == profiles.Keys - rest
      invariant forall key | key in rest :: profiles[key].distances == old(profiles[key].distances)
      invariant forall key | key in out ::
        Refined(old(profiles[key].distances)) == Some(profiles[key].distances) &&
        out[key].distances == profiles[key].distances && out[key].p == key.0 && out[key].q == key.1
      invariant forall key | key in out :: fresh(out[key])
      decreases rest
    {
      var key := Pick(rest);
      var ok := RefineProfile(profiles[key]);
      if !ok {
        return None;
      }
      var copy := new DistanceProfile.Copy(key.0, key.1, profiles[key].distances);
      out := out[key := copy];
      rest := rest - {key};
    }
    refined := Some(out);
  }
  /*
   * The top-k row of one query.
   */

  /** Distance first, then id: the order reached entries are sorted in. */
  predicate Before(reached: map<int, int>, a: int, b: int)
    requires a in reached && b in reached
  {
    reached[a] < reached[b] || (reached[a] == reached[b] && a < b)
  }

  /**
   * row lists n reached ids, strictly in distance-then-id order, none of them
   * after an id it leaves out, and is -1 from position n on.
   */
  ghost predicate Ranked(row: seq<int>, reached: map<int, int>, n: int)
  {
    0 <= n <= |row| &&
    (forall i | 0 <= i < n :: row[i] in reached) &&
    (forall i, j | 0 <= i < j < n :: Before(reached, row[i], row[j])) &&
    (forall x, i | x in reached && x !in row[..n] && 0 <= i < n :: Before(reached, row[i], x)) &&
    (forall i | n <= i < |row| :: row[i] == -1)
  }

  /** The order is strict: no id comes before itself, and of two distinct ids exactly one comes first. */
  lemma BeforeStrict(reached: map<int, int>, a: int, b: int)
    requires a in reached && b in reached
    ensures !Before(reached, a, a)
    ensures a != b ==> (Before(reached, a, b) <==> !Before(reached, b, a))
  {
  }

  /** The ranked row is unique: two rows ranking the same reached ids agree. */
  lemma {:induction false} RankedUnique(r1: seq<int>, r2: seq<int>, reached: map<int, int>, n: int)
    requires Ranked(r1, reached, n) && Ranked(r2, reached, n) && |r1| == |r2|
    ensures r1 == r2
  {
    forall i | 0 <= i < n
      ensures r1[i] == r2[i]
    {
      RankedAgreeAt(r1, r2, reached, n, i);
    }
  }

  /** Two ranked rows agree at position i, given that they agree before it. */
  lemma {:induction false} RankedAgreeAt(r1: seq<int>, r2: seq<int>, reached: map<int, int>, n: int, i: int)
    requires Ranked(r1, reached, n) && Ranked(r2, reached, n) && 0 <= i < n
    ensures r1[i] == r2[i]
    decreases i
  {
    forall j | 0 <= j < i
      ensures r1[j] == r2[j]
    {
      RankedAgreeAt(r1, r2, reached, n, j);
    }
    var a, b := r1[i], r2[i];
    if a != b {
      assert Before(reached, b, a) by {
        if a in r2[..n] {
          var j :| 0 <= j < n && r2[j] == a;
          if j < i {
            assert r1[j] == a;
            assert Before(reached, r1[j], r1[i]);
            BeforeStrict(reached, a, a);
          }
          assert j != i;
        }
      }
      assert Before(reached, a, b) by {
        if b in r1[..n] {
          var j :| 0 <= j < n && r1[j] == b;
          if j < i {
            assert r2[j] == b;
            assert Before(reached, r2[j], r2[i]);
            BeforeStrict(reached, b, b);
          }
          assert j != i;
        }
      }
      BeforeStrict(reached, a, b);
    }
  }

  /** The closest of a non-empty set of reached ids. */
  method Closest(reached: map<int, int>, rest: set<int>) returns (x: int)
    requires rest != {} && rest <= reached.Keys
    ensures x in rest && forall y | y in rest && y != x :: Before(reached, x, y)
  {
    var todo := rest;
    x := Pick(todo);
    ghost var seen: set<int> := {x};
    todo := todo - {x};
    while todo != {}
      invariant x in rest && seen + todo == rest && x in seen
      invariant forall y | y in seen && y != x :: Before(reached, x, y)
      decreases todo
    {
      var y := Pick(todo);
      if Before(reached, y, x) {
        x := y;
      }
      todo := todo - {y};
      seen := seen + {y};
    }
  }

  /** pre holds the closest reached ids in order; rest holds the others. */
  ghost predicate Placed(pre: seq<int>, rest: set<int>, reached: map<int, int>)
  {
    rest <= reached.Keys && |rest| == |reached| - |pre| &&
    (forall x | x in reached :: x in rest <==> x !in pre) &&
    (forall j | 0 <= j < |pre| :: pre[j] in reached) &&
    (forall j, l | 0 <= j < l < |pre| :: Before(reached, pre[j], pre[l])) &&
    (forall x, j | x in rest && 0 <= j < |pre| :: Before(reached, pre[j], x))
  }

  /** Moving the closest remaining id to the end of the prefix keeps the split. */
  lemma PlacedStep(pre: seq<int>, rest: set<int>, reached: map<int, int>, x: int)
    requires Placed(pre, rest, reached) && x in rest
    requires forall y | y in rest && y != x :: Before(reached, x, y)
    ensures Placed(pre + [x], rest - {x}, reached)
  {
    var pre' := pre + [x];
    forall j, l | 0 <= j < l < |pre'|
      ensures Before(reached, pre'[j], pre'[l])
    {
      if l < |pre| {
        assert pre'[j] == pre[j] && pre'[l] == pre[l];
      }
    }
  }

  /** A full prefix followed by -1 padding is a ranked row. */
  lemma PlacedRanked(row: seq<int>, rest: set<int>, reached: map<int, int>, n: int)
    requires 0 <= n <= |row| && Placed(row[..n], rest, reached)
    requires forall i | n <= i < |row| :: row[i] == -1
    ensures Ranked(row, reached, n)
  {
    forall i, j | 0 <= i < j < n
      ensures Before(reached, row[i], row[j])
    {
      assert row[i] == row[..n][i] && row[j] == row[..n][j];
    }
    forall x, i | x in reached && x !in row[..n] && 0 <= i < n
      ensures Before(reached, row[i], x)
    {
      assert row[i] == row[..n][i];
    }
  }

  /**
   * The k closest reached ids in distance-then-id order, padded with -1 up
   * to length k.
   */
  method TopKRow(reached: map<int, int>, k: int) returns (row: array<int>)
    requires k >= 0
    ensures fresh(row) && row.Length == k
    ensures Ranked(row[..], reached, Min(k, |reached|))
  {
    row := new int[k];
    var n := Min(k, |reached|);
    var rest := reached.Keys;
    for i := 0 to n
      invariant Placed(row[..i], rest, reached)
    {
      var x := Closest(reached, rest);
      PlacedStep(row[..i], rest, reached, x);
      row[i] := x;
      assert row[..i + 1] == row[..i] + [x];
      rest := rest - {x};
    }
    ghost var head := row[..n];
    for i := n to k
      invariant row[..n] == head
      invariant forall j | n <= j < i :: row[j] == -1
    {
      row[i] := -1;
    }
    PlacedRanked(row[..], rest, reached, n);
  }
}
