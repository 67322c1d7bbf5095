/** The name resolver behind `get_code` in app.py: strip the query, reject
    a blank one, answer an exact (case-sensitive) catalog hit directly, and
    otherwise fall back to the best fuzzy candidate over the catalog names,
    accepted only above a similarity of 70. */
module Resolver {
  import opened Wrappers
  import opened Text
  import C = Catalog

  /** The similarity of a query to a candidate name, as the fuzzy-matching
      library computes it. Its algorithm is not part of this model, so the
      resolver takes it as a parameter. */
  type Scorer = (string, string) -> real

  /** The library's scores lie between 0 and 100. */
  ghost predicate InRange(score: Scorer) {
    forall q, k :: 0.0 <= score(q, k) <= 100.0
  }

  /** A fuzzy candidate is accepted only when its score is strictly above this. */
  const Threshold: real := 70.0

  /** A successful resolution: the query named a catalog key exactly, or the
      best fuzzy candidate was close enough. */
  datatype Match =
    | Exact(name: string, entry: C.Entry)
    | Fuzzy(name: string, entry: C.Entry, score: real)

  /** Why a resolution failed: the stripped query was empty, no candidate
      scored above the threshold, or the catalog had no names to score
      against (where the service fails on an empty candidate set rather than
      answering not-found). */
  datatype ResolveError = InvalidQuery | NotFound | NoCandidates

  /** The library's `extractOne` over a list of names: nothing for an empty
      list, otherwise one of the names together with its score, which no
      other name's score exceeds. Which of several tied names it returns is
      not specified. */
  function Best(q: string, names: seq<string>, score: Scorer): (r: Option<(string, real)>)
    ensures r.None? <==> |names| == 0
    ensures r.Some? ==> r.value.0 in names && r.value.1 == score(q, r.value.0)
    ensures r.Some? ==> forall i :: 0 <= i < |names| ==> score(q, names[i]) <= r.value.1
  {
    if |names| == 0 then None
    else
      var s0 := score(q, names[0]);
      match Best(q, names[1..], score)
      case None => Some((names[0], s0))
      case Some(best) =>
        assert best.0 in names;
        if s0 >= best.1 then Some((names[0], s0)) else Some(best)
  }

  /** `get_code` without its JSON envelopes. */
  function Resolve(c: C.Catalog, query: string, score: Scorer): (r: Result<Match, ResolveError>)
    // A blank query is rejected before the catalog is consulted.
    ensures r == Failure(InvalidQuery) <==> AllSpace(query)
    // The exact path is taken exactly when the stripped query is a key, and
    // reports that key's own entry under that key.
    ensures r.Success? && r.value.Exact? <==> !AllSpace(query) && C.Has(c, Trim(query))
    ensures r.Success? && r.value.Exact? ==>
      r.value.name == Trim(query) && C.Lookup(c, r.value.name) == Some(r.value.entry)
    // A fuzzy answer names a catalog key, carries that key's entry, and
    // scores strictly above the threshold and no lower than any other key.
    ensures r.Success? && r.value.Fuzzy? ==>
      && !C.Has(c, Trim(query))
      && C.Lookup(c, r.value.name) == Some(r.value.entry)
      && r.value.score == score(Trim(query), r.value.name)
      && r.value.score > Threshold
      && forall i :: 0 <= i < |c| ==> score(Trim(query), c[i].0) <= r.value.score
    ensures InRange(score) && r.Success? && r.value.Fuzzy? ==> r.value.score <= 100.0
    // Not-found is the fuzzy miss: every key scores at most the threshold.
    ensures r == Failure(NotFound) <==>
      && !AllSpace(query) && !C.Has(c, Trim(query)) && |c| > 0
      && forall i :: 0 <= i < |c| ==> score(Trim(query), c[i].0) <= Threshold
    ensures r == Failure(NoCandidates) <==> !AllSpace(query) && |c| == 0
  {
    ResolveStripped(c, Trim(query), score)
  }

  /** The resolution steps after stripping. */
  function ResolveStripped(c: C.Catalog, q: string, score: Scorer): (r: Result<Match, ResolveError>)
    ensures r == Failure(InvalidQuery) <==> q == []
    ensures r.Success? && r.value.Exact? <==> q != [] && C.Has(c, q)
    ensures r.Success? && r.value.Exact? ==>
      r.value.name == q && C.Lookup(c, r.value.name) == Some(r.value.entry)
    ensures r.Success? && r.value.Fuzzy? ==>
      && !C.Has(c, q)
      && C.Lookup(c, r.value.name) == Some(r.value.entry)
      && r.value.score == score(q, r.value.name)
      && r.value.score > Threshold
      && forall i :: 0 <= i < |c| ==> score(q, c[i].0) <= r.value.score
    ensures r == Failure(NotFound) <==>
      && q != [] && !C.Has(c, q) && |c| > 0
      && forall i :: 0 <= i < |c| ==> score(q, c[i].0) <= Threshold
    ensures r == Failure(NoCandidates) <==> q != [] && |c| == 0
  {
    if q == [] then Failure(InvalidQuery)
    else
      match C.Lookup(c, q)
      case Some(e) => Success(Exact(q, e))
      case None =>
        match Best(q, C.Keys(c), score)
        case None => Failure(NoCandidates)
        case Some(best) =>
          assert forall i :: 0 <= i < |c| ==> C.Keys(c)[i] == c[i].0;
          assert C.Has(c, best.0) by {
            var i :| 0 <= i < |c| && C.Keys(c)[i] == best.0;
          }
          if best.1 > Threshold then
            Success(Fuzzy(best.0, C.Lookup(c, best.0).value, best.1))
          else
            Failure(NotFound)
  }

  /** The best candidate depends on the scorer only through the scores it
      gives the listed names. */
  lemma {:induction false} BestSeesOnlyNames(q: string, names: seq<string>, s1: Scorer, s2: Scorer)
    requires forall i :: 0 <= i < |names| ==> s1(q, names[i]) == s2(q, names[i])
    ensures Best(q, names, s1) == Best(q, names, s2)
  {
    if |names| > 0 {
      BestSeesOnlyNames(q, names[1..], s1, s2);
    }
  }

  /** Resolution consults the scorer only for the stripped query against the
      current catalog names: two scorers that agree there resolve alike. */
  lemma ScorerSeesOnlyCatalogNames(c: C.Catalog, query: string, s1: Scorer, s2: Scorer)
    requires forall i :: 0 <= i < |c| ==> s1(Trim(query), c[i].0) == s2(Trim(query), c[i].0)
    ensures Resolve(c, query, s1) == Resolve(c, query, s2)
  {
    var q := Trim(query);
    assert forall i :: 0 <= i < |c| ==> C.Keys(c)[i] == c[i].0;
    BestSeesOnlyNames(q, C.Keys(c), s1, s2);
    assert ResolveStripped(c, q, s1) == ResolveStripped(c, q, s2);
  }

  /** An exact hit never consults the scorer: any two scorers give the same
      answer. */
  lemma ExactPathIgnoresScorer(c: C.Catalog, query: string, s1: Scorer, s2: Scorer)
    requires !AllSpace(query) && C.Has(c, Trim(query))
    ensures Resolve(c, query, s1) == Resolve(c, query, s2)
    ensures Resolve(c, query, s1).Success? && Resolve(c, query, s1).value.Exact?
  {
  }

  /** Whitespace around any query does not change its resolution. */
  lemma ResolveIgnoresPadding(c: C.Catalog, a: string, query: string, b: string, score: Scorer)
    requires AllSpace(a) && AllSpace(b)
    ensures Resolve(c, a + query + b, score) == Resolve(c, query, score)
  {
    TrimIgnoresPadding(a, query, b);
  }

  /** On a query that is not a key, a fuzzy answer is given exactly when some
      catalog name scores strictly above the threshold; a best score of
      exactly the threshold is not enough. */
  lemma FuzzyIffSomeNameAboveThreshold(c: C.Catalog, query: string, score: Scorer)
    requires !AllSpace(query) && !C.Has(c, Trim(query))
    ensures (Resolve(c, query, score).Success? && Resolve(c, query, score).value.Fuzzy?)
      <==> exists i :: 0 <= i < |c| && score(Trim(query), c[i].0) > Threshold
  {
  }

  /** Once a name is deleted, no resolution reports it. */
  lemma DeletedNameNeverResolved(c: C.Catalog, name: string, query: string, score: Scorer)
    requires C.Valid(c)
    ensures var r := Resolve(C.Delete(c, name).catalog, query, score);
      r.Success? ==> r.value.name != name
  {
  }

  /** After an update, querying the updated name exactly reports the
      patched entry: supplied codes replaced, omitted codes kept. */
  lemma ExactAfterUpdate(c: C.Catalog, name: string, p: C.Patch, score: Scorer)
    requires C.Valid(c) && C.Has(c, name) && name != [] && Stripped(name)
    ensures Resolve(C.Update(c, name, p).catalog, name, score)
      == Success(Exact(name, C.Apply(C.Lookup(c, name).value, p)))
  {
  }

  /** When the stripped query is not a key and one catalog name scores
      strictly above the threshold and strictly above every other name, the
      answer is that name with its own codes and score. */
  lemma StrictBestIsReported(c: C.Catalog, query: string, score: Scorer, j: nat)
    requires C.Valid(c) && j < |c|
    requires !AllSpace(query) && !C.Has(c, Trim(query))
    requires score(Trim(query), c[j].0) > Threshold
    requires forall i :: 0 <= i < |c| && i != j ==> score(Trim(query), c[i].0) < score(Trim(query), c[j].0)
    ensures Resolve(c, query, score) == Success(Fuzzy(c[j].0, c[j].1, score(Trim(query), c[j].0)))
  {
  }
}
