/**
 * What the oracle answers. A distance profile holds, for one pair of
 * elements and each value of s, a lower bound, an upper bound and an
 * estimate of their s-distance. A reachable profile lists, for one element,
 * the elements it s-reaches with their estimated s-distances, and selects
 * the k closest of them with a bounded max-heap.
 */
module Profiles {
  import opened Wrappers
  import Text

  /** Lower bound, upper bound and estimate of one s-distance (the source's triplet of doubles). */
  datatype Triple = Triple(lo: real, up: real, est: real)

  /** The triplet that stands for "nothing known". */
  const Unknown: Triple := Triple(-1.0, -1.0, -1.0)

  class DistanceProfile {
    const p: int
    const q: int
    /** For each s, the bounds and the estimate of the s-distance between p and q. */
    var distances: map<int, Triple>

    constructor (p: int, q: int)
      ensures this.p == p && this.q == q && distances == map[]
    {
      this.p := p;
      this.q := q;
      distances := map[];
    }

    /** A profile holding a copy of every entry of the given map. */
    constructor Copy(p: int, q: int, from: map<int, Triple>)
      ensures this.p == p && this.q == q && distances == from
    {
      this.p := p;
      this.q := q;
      var copied: map<int, Triple> := map[];
      var rest := from.Keys;
      while rest != {}
        invariant rest <= from.Keys
        invariant copied.Keys == from.Keys - rest
        invariant forall s :: s in copied ==> copied[s] == from[s]
        decreases rest
      {
        var s := Pick(rest);
        copied := copied[s := Triple(from[s].lo, from[s].up, from[s].est)];
        rest := rest - {s};
      }
      assert copied.Keys == from.Keys;
      assert forall s :: s in from ==> s in copied && copied[s] == from[s];
      assert copied == from;
      distances := copied;
    }

    /** The estimate for s, or -1 when s has no entry. */
    function GetSDistance(s: int): (r: real)
      reads this
      ensures s in distances ==> r == distances[s].est
      ensures s !in distances ==> r == -1.0
    {
      if s in distances then distances[s].est else -1.0
    }

    /** The lower bound for s, or -1 when s has no entry. */
    function GetSLowBound(s: int): (r: real)
      reads this
      ensures s in distances ==> r == distances[s].lo
      ensures s !in distances ==> r == -1.0
    {
      if s in distances then distances[s].lo else -1.0
    }

    /** The upper bound for s, or -1 when s has no entry. */
    function GetSUpBound(s: int): (r: real)
      reads this
      ensures s in distances ==> r == distances[s].up
      ensures s !in distances ==> r == -1.0
    {
      if s in distances then distances[s].up else -1.0
    }

    /** An exact s-distance: all three components are d; every other s keeps its entry. */
    method AddDistance(s: int, d: real)
      modifies this
      ensures distances == old(distances)[s := Triple(d, d, d)]
      ensures GetSLowBound(s) == d && GetSUpBound(s) == d && GetSDistance(s) == d
      ensures forall t :: t != s ==> GetSLowBound(t) == old(GetSLowBound(t)) && GetSUpBound(t) == old(GetSUpBound(t)) && GetSDistance(t) == old(GetSDistance(t))
    {
      distances := distances[s := Triple(d, d, d)];
    }

    /** Bounds and estimate for s, stored as (lower, upper, estimate); every other s keeps its entry. */
    method AddBounds(s: int, lb: real, ub: real, d: real)
      modifies this
      ensures distances == old(distances)[s := Triple(lb, ub, d)]
      ensures GetSLowBound(s) == lb && GetSUpBound(s) == ub && GetSDistance(s) == d
      ensures forall t :: t != s ==> GetSLowBound(t) == old(GetSLowBound(t)) && GetSUpBound(t) == old(GetSUpBound(t)) && GetSDistance(t) == old(GetSDistance(t))
    {
      distances := distances[s := Triple(lb, ub, d)];
    }

    /** A whole triplet for s; every other s keeps its entry. */
    method AddTriple(s: int, d: Triple)
      modifies this
      ensures distances == old(distances)[s := d]
      ensures GetSLowBound(s) == d.lo && GetSUpBound(s) == d.up && GetSDistance(s) == d.est
      ensures forall t :: t != s ==> GetSLowBound(t) == old(GetSLowBound(t)) && GetSUpBound(t) == old(GetSUpBound(t)) && GetSDistance(t) == old(GetSDistance(t))
    {
      distances := distances[s := d];
    }
  }

  /*
   * Reachable profiles.
   */

  /** One reached element: the value of s, the element, its estimated s-distance. */
  datatype Reach = Reach(s: int, v: int, d: real)

  /** The label recorded for v, or "NONE" when v has none. */
  function LabelOf(labels: map<int, string>, v: int): (r: string)
    ensures v in labels ==> r == labels[v]
    ensures v !in labels ==> r == "NONE"
  {
    if v in labels then labels[v] else "NONE"
  }

  /** An entry the top-k search for s considers: its s is s and its label equals the profile's, ignoring case; no label matches nothing. */
  predicate Eligible(t: Reach, s: int, labels: map<int, string>, tag: Option<string>)
  {
    t.s == s && tag.Some? && Text.EqualsIgnoreCase(LabelOf(labels, t.v), tag.value)
  }

  /** The entries of rs the top-k search for s considers, in list order. */
  function Candidates(rs: seq<Reach>, s: int, labels: map<int, string>, tag: Option<string>): (r: seq<Reach>)
    ensures forall i :: 0 <= i < |r| ==> r[i] in rs && Eligible(r[i], s, labels, tag)
  {
    if rs == [] then []
    else
      var last := rs[|rs| - 1];
      Candidates(rs[..|rs| - 1], s, labels, tag) + (if Eligible(last, s, labels, tag) then [last] else [])
  }

  /** Every eligible entry of rs is a candidate, as often as it occurs. */
  lemma {:induction false} CandidatesComplete(rs: seq<Reach>, s: int, labels: map<int, string>, tag: Option<string>, t: Reach)
    requires Eligible(t, s, labels, tag)
    ensures multiset(Candidates(rs, s, labels, tag))[t] == multiset(rs)[t]
  {
    if rs != [] {
      var init := rs[..|rs| - 1];
      assert rs == init + [rs[|rs| - 1]];
      CandidatesComplete(init, s, labels, tag, t);
    }
  }

  /** A prefix has no more candidates than the whole list. */
  lemma {:induction false} CandidatesPrefix(rs: seq<Reach>, i: int, s: int, labels: map<int, string>, tag: Option<string>)
    requires 0 <= i <= |rs|
    ensures |Candidates(rs[..i], s, labels, tag)| <= |Candidates(rs, s, labels, tag)|
    decreases |rs|
  {
    if i < |rs| {
      var init := rs[..|rs| - 1];
      assert init[..i] == rs[..i];
      CandidatesPrefix(init, i, s, labels, tag);
    } else {
      assert rs[..i] == rs;
    }
  }

  /** The position of a largest distance in a non-empty selection: the head of the max-heap. */
  function ArgMax(sel: seq<Reach>): (m: int)
    requires |sel| > 0
    ensures 0 <= m < |sel|
    ensures forall i :: 0 <= i < |sel| ==> sel[i].d <= sel[m].d
  {
    if |sel| == 1 then 0
    else
      var m := ArgMax(sel[..|sel| - 1]);
      if sel[|sel| - 1].d > sel[m].d then |sel| - 1 else m
  }

  /** The selection without its entry at position m. */
  function Without(sel: seq<Reach>, m: int): (r: seq<Reach>)
    requires 0 <= m < |sel|
    ensures |r| == |sel| - 1
    ensures multiset(r) == multiset(sel) - multiset{sel[m]}
  {
    assert sel == sel[..m] + [sel[m]] + sel[m + 1..];
    sel[..m] + sel[m + 1..]
  }

  /**
   * sel is a top-k selection from the candidates P: it holds min(k, |P|) of
   * them, and no candidate left out is strictly closer than a selected one.
   */
  ghost predicate TopK(sel: seq<Reach>, P: seq<Reach>, k: int)
  {
    |sel| == Min(Max(k, 0), |P|) &&
    multiset(sel) <= multiset(P) &&
    forall x | x in multiset(P) - multiset(sel) :: forall y | y in sel :: y.d <= x.d
  }

  /** One candidate offered to the heap: added while it holds fewer than k; otherwise it replaces the head if strictly closer. */
  function Offer(sel: seq<Reach>, c: Reach, k: int): seq<Reach>
    requires k > 0
  {
    if |sel| < k then sel + [c]
    else if c.d < sel[ArgMax(sel)].d then Without(sel, ArgMax(sel)) + [c]
    else sel
  }

  /**
   * The loop's view of a top-k selection: the candidates seen so far split
   * into the selection and the ones left out, every one of these at least as
   * far as every selected one.
   */
  ghost predicate Split(sel: seq<Reach>, out: seq<Reach>, P: seq<Reach>, k: int)
  {
    |sel| == Min(Max(k, 0), |P|) &&
    multiset(sel) + multiset(out) == multiset(P) &&
    forall x, y | x in out && y in sel :: y.d <= x.d
  }

  /** A split is a top-k selection. */
  lemma SplitTopK(sel: seq<Reach>, out: seq<Reach>, P: seq<Reach>, k: int)
    requires Split(sel, out, P, k)
    ensures TopK(sel, P, k)
  {
    assert multiset(P) - multiset(sel) == multiset(out);
  }

  /** Offering the next candidate keeps a split of the candidates seen so far. */
  lemma OfferKeeps(sel: seq<Reach>, out: seq<Reach>, P: seq<Reach>, c: Reach, k: int) returns (out': seq<Reach>)
    requires k > 0 && Split(sel, out, P, k)
    ensures Split(Offer(sel, c, k), out', P + [c], k)
  {
    if |sel| < k {
      out' := out;
      OfferAdds(sel, out, P, c, k);
    } else if c.d < sel[ArgMax(sel)].d {
      out' := out + [sel[ArgMax(sel)]];
      OfferSwaps(sel, out, P, c, k);
    } else {
      out' := out + [c];
      OfferSkips(sel, out, P, c, k);
    }
  }

  /** Below k entries, the candidate joins the selection. */
  lemma OfferAdds(sel: seq<Reach>, out: seq<Reach>, P: seq<Reach>, c: Reach, k: int)
    requires k > 0 && Split(sel, out, P, k) && |sel| < k
    ensures Split(sel + [c], out, P + [c], k)
  {
    assert multiset(P + [c]) == multiset(P) + multiset{c};
    assert multiset(sel + [c]) == multiset(sel) + multiset{c};
  }

  /** A strictly closer candidate replaces the farthest selected entry, which is left out. */
  lemma OfferSwaps(sel: seq<Reach>, out: seq<Reach>, P: seq<Reach>, c: Reach, k: int)
    requires k > 0 && Split(sel, out, P, k) && |sel| >= k && c.d < sel[ArgMax(sel)].d
    ensures Split(Without(sel, ArgMax(sel)) + [c], out + [sel[ArgMax(sel)]], P + [c], k)
  {
    var m := ArgMax(sel);
    SwapCounts(sel, out, P, Without(sel, m), sel[m], c);
    SwapOrder(sel, out, Without(sel, m), sel[m], c);
  }

  /** Swapping keeps every candidate seen either selected or left out. */
  lemma SwapCounts(sel: seq<Reach>, out: seq<Reach>, P: seq<Reach>, rest: seq<Reach>, top: Reach, c: Reach)
    requires multiset(sel) + multiset(out) == multiset(P)
    requires multiset(sel) == multiset(rest) + multiset{top}
    ensures multiset(rest + [c]) + multiset(out + [top]) == multiset(P + [c])
  {
    assert multiset(P + [c]) == multiset(P) + multiset{c};
    assert multiset(rest + [c]) == multiset(rest) + multiset{c};
    assert multiset(out + [top]) == multiset(out) + multiset{top};
  }

  /** The entry left out by a swap is no closer than anything still selected. */
  lemma SwapOrder(sel: seq<Reach>, out: seq<Reach>, rest: seq<Reach>, top: Reach, c: Reach)
    requires forall x, y | x in out && y in sel :: y.d <= x.d
    requires multiset(sel) == multiset(rest) + multiset{top}
    requires forall i :: 0 <= i < |sel| ==> sel[i].d <= top.d
    requires c.d < top.d
    ensures forall x, y | x in out + [top] && y in rest + [c] :: y.d <= x.d
  {
    forall x, y | x in out + [top] && y in rest + [c]
      ensures y.d <= x.d
    {
      assert top in multiset(sel);
      var j :| 0 <= j < |sel| && sel[j] == top;
      if y != c {
        assert y in multiset(rest);
        assert y in multiset(sel);
        var i :| 0 <= i < |sel| && sel[i] == y;
      }
    }
  }

  /** A candidate no closer than the farthest selected entry is left out. */
  lemma OfferSkips(sel: seq<Reach>, out: seq<Reach>, P: seq<Reach>, c: Reach, k: int)
    requires k > 0 && Split(sel, out, P, k) && |sel| >= k && c.d >= sel[ArgMax(sel)].d
    ensures Split(sel, out + [c], P + [c], k)
  {
    assert multiset(P + [c]) == multiset(P) + multiset{c};
    assert multiset(out + [c]) == multiset(out) + multiset{c};
  }

  /** The first i entries of rs have been offered to the heap. */
  ghost predicate Scanned(rs: seq<Reach>, i: int, sel: seq<Reach>, out: seq<Reach>, s: int, labels: map<int, string>, tag: Option<string>, k: int)
    requires 0 <= i <= |rs|
  {
    Split(sel, out, Candidates(rs[..i], s, labels, tag), k) &&
    (k <= 0 ==> Candidates(rs[..i], s, labels, tag) == [])
  }

  /** Offers entry i to the heap if it is eligible; peeking at an empty heap (k <= 0) fails. */
  method Consider(rs: seq<Reach>, i: int, sel: seq<Reach>, ghost out: seq<Reach>, s: int, labels: map<int, string>, tag: Option<string>, k: int)
    returns (failed: bool, sel': seq<Reach>, ghost out': seq<Reach>)
    requires 0 <= i < |rs| && Scanned(rs, i, sel, out, s, labels, tag, k)
    ensures failed ==> k <= 0 && Candidates(rs, s, labels, tag) != []
    ensures !failed ==> Scanned(rs, i + 1, sel', out', s, labels, tag, k)
  {
    var t := rs[i];
    ghost var P := Candidates(rs[..i], s, labels, tag);
    assert rs[..i + 1] == rs[..i] + [t];
    sel', out' := sel, out;
    failed := false;
    if Eligible(t, s, labels, tag) {
      if k <= 0 {
        CandidatesPrefix(rs, i + 1, s, labels, tag);
        failed := true;
      } else {
        out' := OfferKeeps(sel, out, P, t, k);
        sel' := Offer(sel, t, k);
      }
    }
  }

  /** The entries of xs whose s is t, in order. */
  function WithS(xs: seq<Reach>, t: int): (r: seq<Reach>)
    ensures forall i :: 0 <= i < |r| ==> r[i].s == t
  {
    if xs == [] then []
    else WithS(xs[..|xs| - 1], t) + (if xs[|xs| - 1].s == t then [xs[|xs| - 1]] else [])
  }

  /** Selecting by s distributes over concatenation. */
  lemma {:induction false} WithSAppend(xs: seq<Reach>, ys: seq<Reach>, t: int)
    ensures WithS(xs + ys, t) == WithS(xs, t) + WithS(ys, t)
    decreases |ys|
  {
    if ys != [] {
      var init := ys[..|ys| - 1];
      assert (xs + ys)[..|xs + ys| - 1] == xs + init;
      assert (xs + ys)[|xs + ys| - 1] == ys[|ys| - 1];
      WithSAppend(xs, init, t);
    } else {
      assert xs + ys == xs;
    }
  }

  /** A block whose entries all carry s = t is its own selection for t, and contributes nothing to any other. */
  lemma {:induction false} WithSBlock(ys: seq<Reach>, t: int, u: int)
    requires forall i :: 0 <= i < |ys| ==> ys[i].s == t
    ensures WithS(ys, t) == ys
    ensures u != t ==> WithS(ys, u) == []
    decreases |ys|
  {
    if ys != [] {
      WithSBlock(ys[..|ys| - 1], t, u);
    }
  }

  /** The largest s among the entries, or 0 when there are none. */
  function MaxS(rs: seq<Reach>): (r: int)
    ensures rs != [] ==> exists i :: 0 <= i < |rs| && rs[i].s == r
    ensures forall i :: 0 <= i < |rs| ==> rs[i].s <= r
    ensures rs == [] ==> r == 0
  {
    if rs == [] then 0
    else if |rs| == 1 then rs[0].s
    else
      var m := MaxS(rs[..|rs| - 1]);
      assert forall i :: 0 <= i < |rs| - 1 ==> rs[..|rs| - 1][i] == rs[i];
      Max(m, rs[|rs| - 1].s)
  }

  /** The elements that appear with some s' <= s. */
  function ReachedBy(rs: seq<Reach>, s: int): set<int>
  {
    set i | 0 <= i < |rs| && rs[i].s <= s :: rs[i].v
  }

  /** Raising s never loses a reached element. */
  lemma ReachedByGrows(rs: seq<Reach>, s: int, s': int)
    requires s <= s'
    ensures ReachedBy(rs, s) <= ReachedBy(rs, s')
    ensures |ReachedBy(rs, s)| <= |ReachedBy(rs, s')|
  {
    SubsetCard(ReachedBy(rs, s), ReachedBy(rs, s'));
  }

  class ReachableProfile {
    /** The element the profile is about. */
    const p: int
    /** The element's label; absent when the profile was made without one. */
    const tag: Option<string>
    /** (s, element, estimated s-distance) for each element s-reachable from p. */
    var reachables: seq<Reach>

    constructor (p: int)
      ensures this.p == p && tag == None && reachables == []
    {
      this.p := p;
      tag := None;
      reachables := [];
    }

    constructor Labelled(p: int, tag: string)
      ensures this.p == p && this.tag == Some(tag) && reachables == []
    {
      this.p := p;
      this.tag := Some(tag);
      reachables := [];
    }

    /** Appends the triple (s, v, d). */
    method AddReachable(v: int, s: int, d: real)
      modifies this
      ensures reachables == old(reachables) + [Reach(s, v, d)]
    {
      reachables := reachables + [Reach(s, v, d)];
    }

    /** Appends one given triple. */
    method AddTriple(t: Reach)
      modifies this
      ensures reachables == old(reachables) + [t]
    {
      reachables := reachables + [t];
    }

    /** Appends the given triples, in the order given. */
    method AddReachables(ts: seq<Reach>)
      modifies this
      ensures reachables == old(reachables) + ts
    {
      reachables := reachables + ts;
    }

    /**
     * The k closest entries for s among those whose label matches: a bounded
     * max-heap replaces its farthest entry by a strictly closer candidate.
     * With k <= 0 and some candidate, peeking at the empty heap fails (None).
     */
    method TopKsReachable(k: int, s: int, labels: map<int, string>) returns (r: Option<seq<Reach>>)
      ensures r.None? <==> k <= 0 && Candidates(reachables, s, labels, tag) != []
      ensures r.Some? ==> TopK(r.value, Candidates(reachables, s, labels, tag), k)
    {
      var sel: seq<Reach> := [];
      ghost var out: seq<Reach> := [];
      var i := 0;
      while i < |reachables|
        invariant 0 <= i <= |reachables|
        invariant Scanned(reachables, i, sel, out, s, labels, tag, k)
      {
        var failed;
        failed, sel, out := Consider(reachables, i, sel, out, s, labels, tag, k);
        if failed {
          return None;
        }
        i := i + 1;
      }
      assert reachables[..|reachables|] == reachables;
      SplitTopK(sel, out, Candidates(reachables, s, labels, tag), k);
      r := Some(sel);
    }

    /** The top-k selections for s = 1 .. largest s present, one after the other. */
    method TopKReachable(k: int, labels: map<int, string>) returns (r: Option<seq<Reach>>)
      ensures r.None? <==> k <= 0 && SomeCandidate(MaxS(reachables), labels)
      ensures r.Some? ==> forall i :: 0 <= i < |r.value| ==> 1 <= r.value[i].s <= MaxS(reachables)
      ensures r.Some? ==> forall t :: 1 <= t <= MaxS(reachables) ==> TopK(WithS(r.value, t), Candidates(reachables, t, labels, tag), k)
    {
      var maxS := MaxS(reachables);
      var output: seq<Reach> := [];
      var s := 1;
      while s <= maxS
        invariant 1 <= s
        invariant forall i :: 0 <= i < |output| ==> output[i].s <= maxS
        invariant forall i :: 0 <= i < |output| ==> 1 <= output[i].s < s
        invariant forall t :: 1 <= t < s ==> TopK(WithS(output, t), Candidates(reachables, t, labels, tag), k)
        invariant k <= 0 ==> NoneBelow(s, labels)
      {
        var sel := TopKsReachable(k, s, labels);
        if sel.None? {
          CandidateAt(maxS, labels, s);
          return None;
        }
        if k <= 0 {
          NoneBelowStep(s, labels);
        }
        output := Joined(output, sel.value, s, k, labels);
        s := s + 1;
      }
      if k <= 0 {
        NoneAtAll(maxS, s, labels);
      }
      r := Some(output);
    }

    /** No s from 1 to below s has a candidate with the wanted label. */
    ghost predicate NoneBelow(s: int, labels: map<int, string>)
      reads this
    {
      forall t :: 1 <= t < s ==> Candidates(reachables, t, labels, tag) == []
    }

    lemma CandidateAt(maxS: int, labels: map<int, string>, s: int)
      requires 1 <= s <= maxS && Candidates(reachables, s, labels, tag) != []
      ensures SomeCandidate(maxS, labels)
    {
    }

    lemma NoneBelowStep(s: int, labels: map<int, string>)
      requires NoneBelow(s, labels) && Candidates(reachables, s, labels, tag) == []
      ensures NoneBelow(s + 1, labels)
    {
    }

    lemma NoneAtAll(maxS: int, s: int, labels: map<int, string>)
      requires NoneBelow(s, labels) && maxS < s
      ensures !SomeCandidate(maxS, labels)
    {
    }

    /** Some s from 1 to maxS has a candidate with the wanted label. */
    ghost predicate SomeCandidate(maxS: int, labels: map<int, string>)
      reads this
    {
      exists t :: 1 <= t <= maxS && Candidates(reachables, t, labels, tag) != []
    }

    /** Appends the selection for s to the selections for smaller values. */
    method Joined(output: seq<Reach>, block: seq<Reach>, s: int, k: int, labels: map<int, string>) returns (r: seq<Reach>)
      requires s >= 1
      requires forall i :: 0 <= i < |output| ==> 1 <= output[i].s < s
      requires forall t :: 1 <= t < s ==> TopK(WithS(output, t), Candidates(reachables, t, labels, tag), k)
      requires TopK(block, Candidates(reachables, s, labels, tag), k)
      ensures r == output + block
      ensures forall i :: 0 <= i < |r| ==> 1 <= r[i].s < s + 1
      ensures forall t :: 1 <= t < s + 1 ==> TopK(WithS(r, t), Candidates(reachables, t, labels, tag), k)
    {
      var cands := Candidates(reachables, s, labels, tag);
      forall i | 0 <= i < |block|
        ensures block[i].s == s
      {
        assert block[i] in multiset(block);
        assert block[i] in cands;
      }
      r := output + block;
      forall t | 1 <= t < s + 1
        ensures TopK(WithS(r, t), Candidates(reachables, t, labels, tag), k)
      {
        JoinedAt(output, block, s, t);
      }
    }

    /** Reached elements: the distinct elements listed with some s' <= s. */
    function Size(s: int): (r: nat)
      reads this
      ensures r == |ReachedBy(reachables, s)|
      ensures r <= |reachables|
      ensures forall i :: 0 <= i < |reachables| && reachables[i].s <= s ==> reachables[i].v in ReachedBy(reachables, s)
    {
      SizeBound(reachables, s);
      |ReachedBy(reachables, s)|
    }
  }

  /** After a block for s, the selection for t is the block when t is s and unchanged otherwise. */
  lemma JoinedAt(output: seq<Reach>, block: seq<Reach>, s: int, t: int)
    requires forall i :: 0 <= i < |output| ==> output[i].s < s
    requires forall i :: 0 <= i < |block| ==> block[i].s == s
    ensures WithS(output + block, t) == if t == s then block else WithS(output, t)
  {
    WithSAppend(output, block, t);
    WithSBlock(block, s, t);
    if t == s {
      OutputNone(output, s);
    } else {
      assert WithS(output, t) + [] == WithS(output, t);
    }
  }

  /** Entries with s below t contribute nothing to the selection for t. */
  lemma {:induction false} OutputNone(output: seq<Reach>, t: int)
    requires forall i :: 0 <= i < |output| ==> output[i].s < t
    ensures WithS(output, t) == []
    decreases |output|
  {
    if output != [] {
      OutputNone(output[..|output| - 1], t);
    }
  }

  /** There are no more reached elements than entries. */
  lemma {:induction false} SizeBound(rs: seq<Reach>, s: int)
    ensures |ReachedBy(rs, s)| <= |rs|
    decreases |rs|
  {
    if rs != [] {
      var init := rs[..|rs| - 1];
      SizeBound(init, s);
      var last := rs[|rs| - 1];
      assert ReachedBy(rs, s) <= ReachedBy(init, s) + {last.v} by {
        forall x | x in ReachedBy(rs, s)
          ensures x in ReachedBy(init, s) + {last.v}
        {
          var i :| 0 <= i < |rs| && rs[i].s <= s && rs[i].v == x;
          if i < |rs| - 1 {
            assert init[i] == rs[i];
          }
        }
      }
      SubsetCard(ReachedBy(rs, s), ReachedBy(init, s) + {last.v});
    }
  }
}
