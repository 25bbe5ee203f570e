/**
 * The answer a scan over many queries keeps: the non-sentinel answer with
 * the smallest estimate.
 */
module Best {
  import opened Wrappers
  import opened Profiles

  /** The better of a kept answer and a new one: a new non-sentinel answer with a strictly smaller estimate wins. */
  function Prefer(best: Option<Triple>, t: Triple): (r: Option<Triple>)
    ensures r == best || r == Some(t)
  {
    if t.lo != -1.0 && (best.None? || t.est < best.value.est) then Some(t) else best
  }

  /**
   * best is a non-sentinel answer among A with the smallest estimate, or
   * None when A holds no non-sentinel answer.
   */
  ghost predicate BestAmong(best: Option<Triple>, A: set<Option<Triple>>)
  {
    (best.None? <==> forall a | a in A && a.Some? :: a.value.lo == -1.0) &&
    (best.Some? ==> (Some(best.value) in A && best.value.lo != -1.0 &&
      forall a | a in A && a.Some? && a.value.lo != -1.0 :: best.value.est <= a.value.est))
  }

  /** Offering one more answer keeps the best answer of the grown set. */
  lemma PreferStep(best: Option<Triple>, A: set<Option<Triple>>, t: Triple)
    requires BestAmong(best, A)
    ensures BestAmong(Prefer(best, t), A + {Some(t)})
  {
  }

  /** t is the answer the best answer among A yields: the sentinel when A holds no non-sentinel answer. */
  ghost predicate BestAnswer(t: Triple, A: set<Option<Triple>>)
  {
    BestAmong(if t == Unknown then None else Some(t), A)
  }

  /** One more non-failing answer keeps the scan's invariant. */
  lemma ScanStep(best: Option<Triple>, A0: set<Option<Triple>>, S: set<Option<Triple>>, S': set<Option<Triple>>, t: Triple)
    requires BestAmong(best, A0 + S) && None !in S && S' == S + {Some(t)}
    ensures BestAmong(Prefer(best, t), A0 + S') && None !in S'
  {
    assert A0 + S' == (A0 + S) + {Some(t)};
    PreferStep(best, A0 + S, t);
  }
}
