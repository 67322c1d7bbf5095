/** Concrete behaviour of the service on the catalog it starts with. */
module Scenarios {
  import opened Wrappers
  import opened Text
  import C = Catalog
  import R = Resolver

  const AsthmaCodes := C.Entry("CA23", "TM2-404")

  /** The first seeded disease is found by exact lookup, even with
      surrounding blanks, whatever the scorer. */
  lemma SeedExactHit(score: R.Scorer)
    ensures R.Resolve(C.Seed(), " Asthma\t", score) == Success(R.Exact("Asthma", AsthmaCodes))
  {
    assert " Asthma\t" == " " + "Asthma" + "\t";
    TrimOfPadded(" ", "Asthma", "\t");
    C.LookupAt(C.Seed(), 0);
  }

  /** Empty and whitespace-only queries are rejected on any catalog. */
  lemma BlankQueriesRejected(c: C.Catalog, score: R.Scorer)
    ensures R.Resolve(c, "", score) == Failure(R.InvalidQuery)
    ensures R.Resolve(c, " \t\n", score) == Failure(R.InvalidQuery)
  {
  }

  /** Isolates the stripping of the literal `"asthma"` for `CaseVariantGoesFuzzy`. */
  lemma LowerAsthmaIsStripped()
    ensures Trim("asthma") == "asthma" && !AllSpace("asthma")
  {
  }

  /** Exact lookup is case-sensitive: a lower-case spelling of a seeded name
      goes through the fuzzy path, and when the scorer ranks the seeded name
      strictly first and above the threshold, that name and its codes are
      reported with its score. */
  lemma CaseVariantGoesFuzzy(score: R.Scorer)
    requires score("asthma", "Asthma") > R.Threshold
    requires score("asthma", "Asthma") > score("asthma", "Diabetes mellitus")
    requires score("asthma", "Asthma") > score("asthma", "Fever")
    ensures R.Resolve(C.Seed(), "asthma", score)
      == Success(R.Fuzzy("Asthma", AsthmaCodes, score("asthma", "Asthma")))
  {
    var c := C.Seed();
    assert c[0] == ("Asthma", AsthmaCodes) && c[1].0 == "Diabetes mellitus" && c[2].0 == "Fever";
    LowerAsthmaIsStripped();
    assert !C.Has(c, "asthma");
    forall i | 0 <= i < |c| && i != 0
      ensures score(Trim("asthma"), c[i].0) < score(Trim("asthma"), c[0].0)
    {
      assert i == 1 || i == 2;
    }
    R.StrictBestIsReported(c, "asthma", score, 0);
  }

  /** Supplying only the ICD-11 code of Asthma replaces that code, keeps its
      TM2 code, and leaves the other diseases alone. */
  lemma SeedPartialUpdate()
    ensures var r := C.Update(C.Seed(), "Asthma", C.Patch(Some("X1"), None));
      && r.status == C.Ok
      && C.Lookup(r.catalog, "Asthma") == Some(C.Entry("X1", "TM2-404"))
      && C.Lookup(r.catalog, "Fever") == Some(C.Entry("MG21", "TM2-210"))
  {
  }

  /** Deleting Fever succeeds once and then reports not-found; updating a
      disease that was never seeded reports not-found and changes nothing. */
  lemma SeedDeleteAndMissingUpdate()
    ensures var once := C.Delete(C.Seed(), "Fever");
      && once.status == C.Ok
      && C.Keys(once.catalog) == ["Asthma", "Diabetes mellitus"]
      && C.Delete(once.catalog, "Fever").status == C.NotFound
    ensures C.Update(C.Seed(), "Malaria", C.Patch(Some("1F40"), None))
      == C.Outcome(C.Seed(), C.NotFound)
  {
  }

  /** Deleting all three seeded diseases succeeds each time and leaves the
      catalog empty. */
  lemma DeleteAllSeeded()
    ensures var c1 := C.Delete(C.Seed(), "Asthma");
      var c2 := C.Delete(c1.catalog, "Diabetes mellitus");
      var c3 := C.Delete(c2.catalog, "Fever");
      && c1.status == C.Ok && c2.status == C.Ok && c3.status == C.Ok
      && c3.catalog == []
  {
    var c := C.Seed();
    var c1 := C.Delete(c, "Asthma");
    assert c1.catalog == c[1..];
    C.LookupAt(c1.catalog, 1);
    var c2 := C.Delete(c1.catalog, "Diabetes mellitus");
    assert c2.catalog == c[2..];
  }

  /** On the emptied catalog, every non-blank query misses the exact path
      and has no names to score against: the service fails there instead of
      answering not-found. */
  lemma DeleteAllThenResolve(query: string, score: R.Scorer)
    requires !AllSpace(query)
    ensures var c1 := C.Delete(C.Seed(), "Asthma");
      var c2 := C.Delete(c1.catalog, "Diabetes mellitus");
      var c3 := C.Delete(c2.catalog, "Fever");
      R.Resolve(c3.catalog, query, score) == Failure(R.NoCandidates)
  {
    DeleteAllSeeded();
  }
}
