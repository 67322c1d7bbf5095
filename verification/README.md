# Disease-code catalog and name resolver

This project models the core of a small clinical-coding service (`app.py`) in
Dafny. The service keeps a catalog that maps canonical disease names to two
codes: an ICD-11 code and a TM2 code. It resolves free-text disease names
against that catalog. It also lets callers update either code of a disease,
delete a disease, and list the whole catalog.

The model is functional. The process-wide `diseases` dictionary becomes a
catalog value: an insertion-ordered sequence of `(name, Entry)` pairs with
distinct names (`Catalog.Valid`). Python dictionaries keep insertion order.
An update keeps an entry where it is, and a delete closes the gap. Each HTTP
handler becomes a pure function over that value:

- `Catalog.Update` and `Catalog.Delete` return an `Outcome`. It holds the
  catalog after the call and whether the name was found.
- `Resolver.Resolve` returns either a `Match` or a `ResolveError`. It returns
  no catalog, so resolution cannot change the catalog.
- `Catalog.List` returns one `Row` per entry.

The fuzzy search (rapidfuzz's `process.extractOne` and the scorer it calls)
is foreign code. Resolution therefore takes a `Scorer` argument, any function
from a query and a candidate name to a score. The library's scores are floating-point
numbers from 0 to 100. The model uses `real` for them, and `Resolver.InRange`
states the range where a contract needs it. `Resolver.Best` stands in for
`extractOne`. Its contract promises only a listed name whose score no other
name exceeds. It does not say which of several tied names is returned, because
the application code does not decide that. The body returns the first tied
name in catalog order, but no contract depends on that choice.

The query is stripped the way Python's `str.strip()` strips it. `Text.IsSpace`
lists the characters that Python's `str.isspace` accepts. A query that is
absent from the request reads as the empty string (`request.args.get(…, "")`),
so it is rejected as blank.

Modules: `Wrappers` (Option/Result), `Text` (stripping), `Catalog` (the data,
lookup, update, delete, listing), `Resolver` (`get_code`), `Scenarios`
(concrete behaviour on the seeded catalog).

Two behaviours of `app.py` around the fuzzy path are worth stating plainly:

- `app.py` adds no tie-break of its own among names with equal scores. The
  winner is whichever name `extractOne` returns, and `Resolver.Best`
  promises only a listed name with a maximal score.
- On an empty catalog `extractOne` returns `None`, and the tuple unpacking at
  app.py:53 raises. The model reports this as a separate failure,
  `NoCandidates`, not as `NotFound`. The seeded catalog reaches that state
  once all three diseases are deleted (`Scenarios.DeleteAllThenResolve`).

## Model

| member | source | states |
|---|---|---|
| Catalog.Seed | app.py:8-12 | The service starts with three diseases whose names are all distinct. |
| Catalog.IndexOf | app.py:124 | The `name in diseases` test: there is no position exactly when no entry has that name. Otherwise the result is the first position whose name matches. |
| Catalog.Lookup | app.py:29-30 | Exact, case-sensitive lookup. It gives an entry exactly when the name is in the catalog, and that entry is stored under the name. |
| Catalog.LookupAt | app.py:29-30 | In a catalog with distinct names, looking up the name at any position gives that position's codes. |
| Catalog.Update | app.py:122-138 | An absent name gives not-found and leaves the catalog as it was. A present name gets each supplied code, and each omitted code keeps its old value. The names and their order stay the same, and every other entry is unchanged. |
| Catalog.UpdateLookupFrame | app.py:124-126 | After an update, every other name looks up to the same codes as before. |
| Catalog.UpdateIdempotent | app.py:124-126 | Applying the same update twice gives the same result as applying it once. |
| Catalog.EmptyPatchKeepsCatalog | app.py:125-126 | An update body that supplies neither code leaves the catalog exactly as it was. |
| Catalog.Delete | app.py:143-157 | An absent name gives not-found and leaves the catalog as it was. A present name is removed: the catalog shrinks by one entry, no longer has that name, and keeps distinct names. Every other name keeps its codes. |
| Catalog.DeleteIsWithout | app.py:144-145 | Delete removes exactly the named entry and keeps the other entries in their original relative order. It equals an independent filter over the catalog. |
| Catalog.DeleteTwice | app.py:144-157 | A first delete of a present name succeeds. A second delete of the same name reports not-found and changes nothing. |
| Catalog.List | app.py:93-115 | The listing has one row per entry, in catalog order. Each row carries the codes that lookup gives for its name. No name appears twice, and every catalog name appears. |
| Text.Trim | app.py:22 | `str.strip()`: the result is empty exactly when the query is all whitespace. Otherwise it neither starts nor ends with whitespace. |
| Text.TrimIsSlice | app.py:22 | The stripped query is a slice of the query, and only whitespace lies outside it on either side. |
| Text.TrimOfPadded | app.py:22 | Stripping removes exactly the surrounding whitespace. A string that has whitespace at neither end, wrapped in any whitespace, strips back to itself. |
| Text.TrimParts | app.py:22 | Every query is its stripped form with whitespace before and after it, and that whitespace is what stripping removed. |
| Text.TrimIgnoresPadding | app.py:22 | Adding whitespace on either side of any query does not change what it strips to. |
| Text.TrimIdempotent | app.py:22 | Stripping a stripped query changes nothing. |
| Resolver.Best | app.py:53 | `extractOne`: there is no candidate exactly when there are no names. Otherwise the result is a listed name with its own score, and no listed name scores higher. |
| Resolver.BestSeesOnlyNames | app.py:53 | The candidate depends on the scorer only through the scores of the listed names. |
| Resolver.Resolve | app.py:22-81 | A blank query is rejected. The exact path is taken exactly when the stripped query is a catalog name, and it reports that name's own codes. A fuzzy answer names a catalog name and carries that name's codes and score. Its score is strictly above 70 and not below any other name's score. Not-found happens exactly when every name scores 70 or less. An empty catalog is a separate failure. |
| Resolver.ResolveStripped | app.py:29-81 | The same guarantees, stated for a query that is already stripped. |
| Resolver.ScorerSeesOnlyCatalogNames | app.py:53-54 | Two scorers that agree on the stripped query against every current catalog name give the same resolution. |
| Resolver.ExactPathIgnoresScorer | app.py:29-50 | An exact hit gives the same answer under every scorer, so the scorer is never consulted. |
| Resolver.ResolveIgnoresPadding | app.py:22 | Whitespace added around any query, padded or not, does not change its resolution. |
| Resolver.FuzzyIffSomeNameAboveThreshold | app.py:53-54 | For a query that is not a catalog name, there is a fuzzy answer exactly when some name scores strictly above 70. A best score of exactly 70 gives no answer. |
| Resolver.StrictBestIsReported | app.py:53-55 | A name that scores above 70 and strictly above every other name is the answer, reported with its own codes and score. |
| Resolver.DeletedNameNeverResolved | app.py:144-145 | After a delete, no resolution reports the deleted name. |
| Resolver.ExactAfterUpdate | app.py:125-126 | After an update, querying the name exactly reports the patched codes. |
| Scenarios.SeedExactHit | app.py:22-30 | On the seeded catalog, `" Asthma\t"` resolves exactly to Asthma's codes under any scorer. |
| Scenarios.BlankQueriesRejected | app.py:22-27 | The empty query and a whitespace-only query are rejected on any catalog. |
| Scenarios.CaseVariantGoesFuzzy | app.py:53-55 | `"asthma"` misses the case-sensitive exact path. When the scorer ranks `Asthma` first and above 70, the answer is Asthma's codes with that score. |
| Scenarios.SeedPartialUpdate | app.py:124-126 | Supplying only the ICD-11 code of Asthma replaces that code, keeps its TM2 code, and leaves Fever unchanged. |
| Scenarios.SeedDeleteAndMissingUpdate | app.py:144-157 | Deleting Fever leaves Asthma and Diabetes mellitus in order, and a second delete reports not-found. Updating an unknown disease reports not-found and changes nothing. |
| Scenarios.DeleteAllSeeded | app.py:144-145 | Deleting Asthma, Diabetes mellitus and Fever in turn succeeds each time and leaves the catalog empty. |
| Scenarios.DeleteAllThenResolve | app.py:53 | On the emptied catalog, every non-blank query fails with `NoCandidates`, the case where `extractOne` returns `None` and the unpacking raises. |

## Left out

- Flask routing, request parsing, `jsonify`, HTTP status codes, the home page template and the 404 handler (app.py:1, 5, 15-17, 160-171). These are transport and presentation.
- Construction of the FHIR `Condition`, `Bundle` and `OperationOutcome` dictionaries, including the `cond-{name.lower()}` ids and display strings. These serialise the results the model returns. The lower-casing depends on Python's Unicode tables.
- The rapidfuzz scoring algorithm. It is foreign code that is not visible here, so it is the `Scorer` parameter.
- A missing or non-object JSON body on update. `request.json` is `None` (a JSON `null` body) or a list, and `data.get` raises, or Flask raises a request error at app.py:123, depending on its version. The model's `Patch` always has its two optional fields.
- Catalog.Update: a body field that is present but is not a string (JSON `null`, a number) is stored as-is by the service. The model only accepts string codes.
- The process-wide mutable dictionary and any concurrent access to it. The model threads one catalog value through the operations.
