/**
 * Value-level pieces of the path-based landmark strategies: how many
 * sampled paths hold each candidate, the candidates ordered by that
 * count, and the compaction of the path list after a best-cover run.
 */
module SelectionParts {
  import opened Wrappers
  import Utils

  /*
   * Path counts
   */

  /** How many of the first j paths whose index is in present hold v. */
  function CountIn(paths: seq<set<int>>, present: set<int>, j: nat, v: int): nat
    requires j <= |paths|
  {
    if j == 0 then 0
    else CountIn(paths, present, j - 1, v) + (if j - 1 in present && v in paths[j - 1] then 1 else 0)
  }

  /** How many present paths hold v. */
  function Cover(paths: seq<set<int>>, present: set<int>, v: int): nat
  {
    CountIn(paths, present, |paths|, v)
  }

  /** The indices 0 .. n - 1. */
  function Indices(n: nat): (r: set<int>)
    ensures forall i :: i in r <==> 0 <= i < n
  {
    if n == 0 then {} else Indices(n - 1) + {n - 1}
  }

  /** Dropping path p from the present ones lowers the count of exactly the elements p holds, by one. */
  lemma {:induction false} CountDrop(paths: seq<set<int>>, present: set<int>, j: nat, p: int, v: int)
    requires j <= |paths| && p in present
    ensures CountIn(paths, present - {p}, j, v) ==
      CountIn(paths, present, j, v) - (if p < j && 0 <= p && v in paths[p] then 1 else 0)
  {
    if j > 0 {
      CountDrop(paths, present, j - 1, p, v);
    }
  }

  /** The count of v over present paths is at least one exactly when some present path holds v. */
  lemma {:induction false} CountPositive(paths: seq<set<int>>, present: set<int>, j: nat, v: int)
    requires j <= |paths|
    ensures CountIn(paths, present, j, v) > 0 <==> exists i | 0 <= i < j :: i in present && v in paths[i]
  {
    if j > 0 {
      CountPositive(paths, present, j - 1, v);
    }
  }

  /** counts gives, for every candidate that some present path holds, how many present paths hold it. */
  ghost predicate Counted(counts: map<int, int>, paths: seq<set<int>>, present: set<int>, cands: set<int>)
  {
    (forall v :: v in counts <==> v in cands && Cover(paths, present, v) > 0) &&
    (forall v | v in counts :: counts[v] == Cover(paths, present, v))
  }

  /** counts tallies v over the first i paths and over the members done of path i. */
  ghost predicate Tallied(counts: map<int, int>, paths: seq<set<int>>, cands: set<int>, i: nat, done: set<int>)
    requires i < |paths|
  {
    (forall v :: v in counts <==> v in cands && CountIn(paths, Indices(|paths|), i, v) + (if v in done then 1 else 0) > 0) &&
    (forall v | v in counts :: counts[v] == CountIn(paths, Indices(|paths|), i, v) + (if v in done then 1 else 0))
  }

  /**
   * The loop over the paths and their members that adds one to the count
   * of each candidate met (`counts.getOrDefault(v, 0) + 1`).
   */
  method CountPaths(paths: seq<set<int>>, cands: set<int>) returns (counts: map<int, int>)
    ensures Counted(counts, paths, Indices(|paths|), cands)
  {
    counts := map[];
    var i := 0;
    while i < |paths|
      invariant 0 <= i <= |paths|
      invariant forall v :: v in counts <==> v in cands && CountIn(paths, Indices(|paths|), i, v) > 0
      invariant forall v | v in counts :: counts[v] == CountIn(paths, Indices(|paths|), i, v)
    {
      counts := CountPath(paths, cands, i, counts);
      i := i + 1;
    }
  }

  /** Adds path i to the tally of the first i paths. */
  method CountPath(paths: seq<set<int>>, cands: set<int>, i: int, counts0: map<int, int>) returns (counts: map<int, int>)
    requires 0 <= i < |paths|
    requires forall v :: v in counts0 <==> v in cands && CountIn(paths, Indices(|paths|), i, v) > 0
    requires forall v | v in counts0 :: counts0[v] == CountIn(paths, Indices(|paths|), i, v)
    ensures forall v :: v in counts <==> v in cands && CountIn(paths, Indices(|paths|), i + 1, v) > 0
    ensures forall v | v in counts :: counts[v] == CountIn(paths, Indices(|paths|), i + 1, v)
  {
    counts := counts0;
    var rest := paths[i];
    ghost var done: set<int> := {};
    while rest != {}
      invariant rest + done == paths[i] && rest !! done
      invariant Tallied(counts, paths, cands, i, done)
      decreases |rest|
    {
      var v := Pick(rest);
      ghost var before := counts;
      if v in cands {
        counts := counts[v := (if v in counts then counts[v] else 0) + 1];
      }
      TallyStep(before, counts, paths, cands, i, done, v);
      rest := rest - {v};
      done := done + {v};
    }
    assert done == paths[i];
  }

  /** Counting one more member v of path i keeps the tally. */
  lemma TallyStep(counts0: map<int, int>, counts: map<int, int>, paths: seq<set<int>>, cands: set<int>, i: nat, done: set<int>, v: int)
    requires i < |paths| && v in paths[i] && v !in done && Tallied(counts0, paths, cands, i, done)
    requires counts == if v in cands then counts0[v := (if v in counts0 then counts0[v] else 0) + 1] else counts0
    ensures Tallied(counts, paths, cands, i, done + {v})
  {
  }

  /*
   * Ordering by count
   */

  /** A key of counts, within xs, with the largest count (the head of the entries sorted by decreasing count). */
  method MostCounted(counts: map<int, int>, xs: set<int>) returns (x: int)
    requires xs != {} && xs <= counts.Keys
    ensures x in xs && forall y | y in xs :: counts[y] <= counts[x]
  {
    x := Pick(xs);
    var rest := xs - {x};
    while rest != {}
      invariant rest <= xs && x in xs
      invariant forall y | y in xs && y !in rest :: counts[y] <= counts[x]
      decreases |rest|
    {
      var y := Pick(rest);
      if counts[y] > counts[x] {
        x := y;
      }
      rest := rest - {y};
    }
  }

  /** entries lists every key of counts once, by non-increasing count. */
  ghost predicate ByCount(entries: seq<int>, counts: map<int, int>)
  {
    Utils.Distinct(entries) && Utils.Elements(entries) == counts.Keys &&
    forall a, b | 0 <= a < b < |entries| :: counts[entries[b]] <= counts[entries[a]]
  }

  /**
   * entries, then rest, list the keys of counts: entries without repeats
   * and by non-increasing count, each count in entries at least every
   * count in rest.
   */
  ghost predicate Sorting(entries: seq<int>, rest: set<int>, counts: map<int, int>)
  {
    rest <= counts.Keys && Utils.Distinct(entries) &&
    Utils.Elements(entries) + rest == counts.Keys && Utils.Elements(entries) !! rest &&
    (forall a, b | 0 <= a < b < |entries| :: counts[entries[b]] <= counts[entries[a]]) &&
    forall a, y | 0 <= a < |entries| && y in rest :: counts[y] <= counts[entries[a]]
  }

  /** Moving a largest count of rest to the end of entries keeps the order. */
  lemma SortingStep(entries: seq<int>, rest: set<int>, counts: map<int, int>, x: int)
    requires Sorting(entries, rest, counts) && x in rest && forall y | y in rest :: counts[y] <= counts[x]
    ensures Sorting(entries + [x], rest - {x}, counts)
  {
    assert Utils.Elements(entries + [x]) == Utils.Elements(entries) + {x};
  }

  /** The keys of counts sorted by decreasing count (`Collections.sort` on the entries); ties in any order. */
  method SortByCount(counts: map<int, int>) returns (entries: seq<int>)
    ensures ByCount(entries, counts)
  {
    entries := [];
    var rest := counts.Keys;
    while rest != {}
      invariant Sorting(entries, rest, counts)
      decreases |rest|
    {
      var x := MostCounted(counts, rest);
      SortingStep(entries, rest, counts, x);
      entries := entries + [x];
      rest := rest - {x};
    }
  }

  /**
   * A top-m choice by count: m keys of counts (all when there are fewer),
   * none of the others held by more paths than a chosen one.
   */
  ghost predicate TopCount(sel: set<int>, counts: map<int, int>, m: int)
  {
    sel <= counts.Keys && |sel| == Min(m, |counts|) &&
    forall x, y | x in sel && y in counts && y !in sel :: counts[y] <= counts[x]
  }

  /** The distinct elements of a prefix of a list without repeats are as many as the prefix is long. */
  lemma {:induction false} DistinctPrefix(l: seq<int>, i: nat)
    requires Utils.Distinct(l) && i <= |l|
    ensures |Utils.Elements(l[..i])| == i
  {
    if i > 0 {
      DistinctPrefix(l, i - 1);
      assert l[..i] == l[..i - 1] + [l[i - 1]];
      assert Utils.Elements(l[..i]) == Utils.Elements(l[..i - 1]) + {l[i - 1]};
      assert l[i - 1] !in Utils.Elements(l[..i - 1]);
    }
  }

  /** The first m entries of a list sorted by decreasing count are a top-m choice. */
  lemma PrefixTop(entries: seq<int>, counts: map<int, int>, m: nat)
    requires ByCount(entries, counts) && m <= |entries|
    ensures TopCount(Utils.Elements(entries[..m]), counts, m)
  {
    DistinctPrefix(entries, m);
    DistinctPrefix(entries, |entries|);
    assert entries[..|entries|] == entries;
    var sel := Utils.Elements(entries[..m]);
    forall x, y | x in sel && y in counts && y !in sel
      ensures counts[y] <= counts[x]
    {
      var a :| 0 <= a < m && entries[a] == x;
      var b :| 0 <= b < |entries| && entries[b] == y;
      assert b >= m;
    }
  }

  /*
   * Greedy cover rounds
   */

  /** Counting over fewer present paths never counts more. */
  lemma {:induction false} CountMono(paths: seq<set<int>>, present: set<int>, wider: set<int>, j: nat, v: int)
    requires j <= |paths| && present <= wider
    ensures CountIn(paths, present, j, v) <= CountIn(paths, wider, j, v)
  {
    if j > 0 {
      CountMono(paths, present, wider, j - 1, v);
    }
  }

  /** The indices of the present paths that hold x. */
  ghost function Hit(paths: seq<set<int>>, present: set<int>, x: int): set<int>
  {
    set p | p in present && 0 <= p < |paths| && x in paths[p]
  }

  /**
   * counts holds the candidates not yet chosen that some path holds, each
   * with the number of present paths holding it.
   */
  ghost predicate Tracked(counts: map<int, int>, paths: seq<set<int>>, present: set<int>, cands: set<int>, landmarks: set<int>)
  {
    present <= Indices(|paths|) &&
    (forall v :: v in counts <==> v in cands && v !in landmarks && Cover(paths, Indices(|paths|), v) > 0) &&
    (forall v | v in counts :: counts[v] == Cover(paths, present, v))
  }

  /**
   * The decrement over one removed path: each of its members that is a
   * candidate not yet chosen loses one from its count.
   */
  method DecrementPath(counts: map<int, int>, path: set<int>, cands: set<int>, landmarks: set<int>)
    returns (counts': map<int, int>)
    requires forall v | v in path && v in cands && v !in landmarks :: v in counts
    ensures counts'.Keys == counts.Keys
    ensures forall v | v in counts ::
      counts'[v] == if v in path && v in cands && v !in landmarks then counts[v] - 1 else counts[v]
  {
    counts' := counts;
    var rest := path;
    while rest != {}
      invariant rest <= path && counts'.Keys == counts.Keys
      invariant forall v | v in counts ::
        counts'[v] == if v in path && v !in rest && v in cands && v !in landmarks then counts[v] - 1 else counts[v]
      decreases |rest|
    {
      var v := Pick(rest);
      if v in cands && v !in landmarks {
        counts' := counts'[v := counts'[v] - 1];
      }
      rest := rest - {v};
    }
  }

  /**
   * The pass over the present paths after x is chosen: every one that
   * holds x stops being present, and the counts follow.
   */
  method DropCovering(paths: seq<set<int>>, cands: set<int>, landmarks: set<int>, x: int,
                      present: set<int>, counts: map<int, int>)
    returns (present': set<int>, counts': map<int, int>)
    requires Tracked(counts, paths, present, cands, landmarks)
    ensures Tracked(counts', paths, present', cands, landmarks) && counts'.Keys == counts.Keys
    ensures present' == present - Hit(paths, present, x)
  {
    present', counts' := present, counts;
    var todo := present;
    while todo != {}
      invariant todo <= present && counts'.Keys == counts.Keys
      invariant present' == present - Hit(paths, present - todo, x)
      invariant Tracked(counts', paths, present', cands, landmarks)
      decreases |todo|
    {
      var p := Pick(todo);
      if x in paths[p] {
        present', counts' := DropPath(paths, cands, landmarks, p, present', counts');
      }
      assert Hit(paths, present - (todo - {p}), x) == Hit(paths, present - todo, x) + (if x in paths[p] then {p} else {});
      todo := todo - {p};
    }
  }

  /** Path p, present and holding the chosen landmark, stops being present. */
  method DropPath(paths: seq<set<int>>, cands: set<int>, landmarks: set<int>, p: int, present: set<int>, counts: map<int, int>)
    returns (present': set<int>, counts': map<int, int>)
    requires Tracked(counts, paths, present, cands, landmarks) && p in present
    ensures Tracked(counts', paths, present', cands, landmarks) && counts'.Keys == counts.Keys
    ensures present' == present - {p}
  {
    forall v | v in paths[p] && v in cands && v !in landmarks
      ensures v in counts
    {
      CountPositive(paths, Indices(|paths|), |paths|, v);
    }
    counts' := DecrementPath(counts, paths[p], cands, landmarks);
    forall v | v in counts'
      ensures counts'[v] == Cover(paths, present - {p}, v)
    {
      CountDrop(paths, present, |paths|, p, v);
    }
    present' := present - {p};
  }

  /**
   * One round of the best-cover loop: a candidate of largest count is
   * chosen, and the present paths holding it are dropped. No candidate
   * not yet chosen lies on more present paths than the one chosen.
   */
  method CoverRound(paths: seq<set<int>>, cands: set<int>, landmarks: set<int>, present: set<int>, counts: map<int, int>)
    returns (x: int, present': set<int>, counts': map<int, int>)
    requires Tracked(counts, paths, present, cands, landmarks) && counts != map[]
    ensures x in counts && x in cands && x !in landmarks
    ensures forall v | v in cands && v !in landmarks :: Cover(paths, present, v) <= Cover(paths, present, x)
    ensures present' == present - Hit(paths, present, x) && counts'.Keys == counts.Keys - {x}
    ensures Tracked(counts', paths, present', cands, landmarks + {x})
  {
    x := MostCounted(counts, counts.Keys);
    forall v | v in cands && v !in landmarks && v !in counts
      ensures Cover(paths, present, v) == 0
    {
      CountMono(paths, present, Indices(|paths|), |paths|, v);
    }
    present', counts' := DropCovering(paths, cands, landmarks + {x}, x, present, counts - {x});
  }

  /**
   * `while (!present.isEmpty() && !counts.isEmpty() && landmarks.size() < numLandmarks)`:
   * greedy rounds from all paths present, stopping at k landmarks, when
   * no path is left, or when every candidate on some path is chosen.
   */
  method CoverRounds(paths: seq<set<int>>, cands: set<int>, k: int) returns (landmarks: set<int>, present: set<int>)
    ensures landmarks <= cands && |landmarks| <= Max(k, 0) && present <= Indices(|paths|)
    ensures |landmarks| < k ==>
      (present == {} || forall v | v in cands && v !in landmarks :: Cover(paths, Indices(|paths|), v) == 0)
  {
    var counts := CountPaths(paths, cands);
    present := Indices(|paths|);
    landmarks := {};
    while present != {} && counts != map[] && |landmarks| < k
      invariant Tracked(counts, paths, present, cands, landmarks)
      invariant landmarks <= cands && |landmarks| <= Max(k, 0)
      decreases |counts|
    {
      var x;
      ghost var keys := counts.Keys;
      x, present, counts := CoverRound(paths, cands, landmarks, present, counts);
      assert counts.Keys < keys;
      landmarks := landmarks + {x};
    }
  }

  /*
   * Compaction of the path list
   */

  /** The paths whose index is present, in their order. */
  function Kept(paths: seq<set<int>>, present: set<int>): (r: seq<set<int>>)
    ensures |r| <= |paths|
  {
    if paths == [] then []
    else Kept(paths[..|paths| - 1], present) + (if |paths| - 1 in present then [paths[|paths| - 1]] else [])
  }

  /**
   * The loop that drops covered paths, as the source writes it, from
   * index p on: p runs up the list while entries are removed from it, so
   * after a removal the next entry slides into position p and is never
   * looked at, and later indices no longer name the path they named in
   * present.
   */
  function CompactFrom(r: seq<set<int>>, present: set<int>, p: nat): seq<set<int>>
    decreases |r| - p
  {
    if p >= |r| then r
    else if p !in present then CompactFrom(r[..p] + r[p + 1..], present, p + 1)
    else CompactFrom(r, present, p + 1)
  }

  /** `for (p = 0; p < paths.size(); p++) if (!present.get(p)) paths.remove(p);` */
  method CompactAsWritten(paths: seq<set<int>>, present: set<int>) returns (r: seq<set<int>>)
    ensures r == CompactFrom(paths, present, 0)
  {
    r := paths;
    var p := 0;
    while p < |r|
      invariant 0 <= p
      invariant CompactFrom(r, present, p) == CompactFrom(paths, present, 0)
      decreases |r| - p
    {
      if p !in present {
        r := r[..p] + r[p + 1..];
      }
      p := p + 1;
    }
  }

  /** The intended compaction: a copy of the list holding the present paths, in order. */
  method Compact(paths: seq<set<int>>, present: set<int>) returns (r: seq<set<int>>)
    ensures r == Kept(paths, present)
  {
    r := [];
    var p := 0;
    while p < |paths|
      invariant 0 <= p <= |paths|
      invariant r == Kept(paths[..p], present)
    {
      assert paths[..p + 1][..p] == paths[..p];
      if p in present {
        r := r + [paths[p]];
      }
      p := p + 1;
    }
    assert paths[..|paths|] == paths;
  }

  /** Every kept path is a present one, and every present path is kept. */
  lemma {:induction false} KeptIsPresent(paths: seq<set<int>>, present: set<int>)
    ensures forall q | q in Kept(paths, present) :: exists i | 0 <= i < |paths| :: i in present && paths[i] == q
    ensures forall i | 0 <= i < |paths| && i in present :: paths[i] in Kept(paths, present)
  {
    if paths != [] {
      var n := |paths| - 1;
      KeptIsPresent(paths[..n], present);
      forall i | 0 <= i < n
        ensures paths[..n][i] == paths[i]
      {
      }
    }
  }

  /**
   * Two covered paths, none present: the source's loop removes the first,
   * the second slides into position 0, and the loop stops at position 1,
   * keeping a covered path; the intended compaction keeps nothing.
   */
  lemma CompactKeepsCovered()
    ensures CompactFrom([{0}, {1}], {}, 0) == [{1}]
    ensures Kept([{0}, {1}], {}) == []
  {
    assert [{0}, {1}][..0] + [{0}, {1}][1..] == [{1}];
    assert CompactFrom([{1}], {}, 1) == [{1}];
    assert Kept([{0}], {}) == [];
  }
}
