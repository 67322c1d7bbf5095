/** The disease catalog of app.py: an insertion-ordered mapping from a
    canonical disease name (a case-sensitive key) to its pair of codes, with
    the two in-place mutations the service exposes (partial update and
    delete) and the enumeration behind the disease listing. */
module Catalog {
  import opened Wrappers

  /** The coding pair of one disease: its ICD-11 code and its TM2 code. */
  datatype Entry = Entry(icd11: string, tm2: string)

  /** The catalog in insertion order, as Python's `dict` keeps it. */
  type Catalog = seq<(string, Entry)>

  /** The representation invariant: no name occurs twice. */
  predicate Valid(c: Catalog) {
    forall i, j :: 0 <= i < j < |c| ==> c[i].0 != c[j].0
  }

  /** The names of the catalog, in catalog order. */
  function Keys(c: Catalog): seq<string> {
    seq(|c|, i requires 0 <= i < |c| => c[i].0)
  }

  /** Some entry of the catalog is named `name` (Python's `name in diseases`). */
  predicate Has(c: Catalog, name: string) {
    exists i :: 0 <= i < |c| && c[i].0 == name
  }

  /** The catalog the service starts with. */
  function Seed(): (c: Catalog)
    ensures Valid(c)
    ensures |c| == 3
  {
    [ ("Asthma", Entry("CA23", "TM2-404")),
      ("Diabetes mellitus", Entry("5A11", "TM2-101")),
      ("Fever", Entry("MG21", "TM2-210")) ]
  }

  /** The position of `name` in the catalog (Python's `name in diseases`):
      absent exactly when no entry carries that name, and otherwise the first
      position that does. */
  function IndexOf(c: Catalog, name: string): (r: Option<nat>)
    ensures r.None? <==> !Has(c, name)
    ensures r.Some? ==> r.value < |c| && c[r.value].0 == name
    ensures r.Some? ==> forall j :: 0 <= j < r.value ==> c[j].0 != name
  {
    if |c| == 0 then None
    else if c[0].0 == name then Some(0)
    else
      match IndexOf(c[1..], name)
      case None => None
      case Some(i) => Some(i + 1)
  }

  /** Exact, case-sensitive lookup (`diseases[name]` guarded by `name in
      diseases`): present exactly for the catalog's names, and then an entry
      the catalog stores under that name. */
  function Lookup(c: Catalog, name: string): (r: Option<Entry>)
    ensures r.Some? <==> Has(c, name)
    ensures r.Some? ==> (name, r.value) in c
  {
    match IndexOf(c, name)
    case None => None
    case Some(i) => Some(c[i].1)
  }

  /** In a valid catalog, looking up the name at any position gives that
      position's entry. */
  lemma LookupAt(c: Catalog, i: nat)
    requires Valid(c) && i < |c|
    ensures Lookup(c, c[i].0) == Some(c[i].1)
  {
  }

  /** Whether a mutation found its key. */
  datatype Status = Ok | NotFound

  /** The catalog after a mutation, and whether the key was found. */
  datatype Outcome = Outcome(catalog: Catalog, status: Status)

  /** The JSON body of an update: each code may be supplied or omitted. */
  datatype Patch = Patch(icd11: Option<string>, tm2: Option<string>)

  /** An entry with the supplied fields of `p` written over it. */
  function Apply(e: Entry, p: Patch): Entry {
    Entry(p.icd11.GetOr(e.icd11), p.tm2.GetOr(e.tm2))
  }

  /** `update_disease`: on a known name, overwrite only the supplied codes of
      that entry in place; on an unknown name, report not-found and keep the
      catalog as it was. Either way names, their order and every other entry
      stay as they were. */
  function Update(c: Catalog, name: string, p: Patch): (r: Outcome)
    requires Valid(c)
    ensures r.status == NotFound <==> !Has(c, name)
    ensures r.status == NotFound ==> r.catalog == c
    ensures Valid(r.catalog) && Keys(r.catalog) == Keys(c)
    ensures forall i :: 0 <= i < |c| && c[i].0 != name ==> r.catalog[i] == c[i]
    ensures Has(c, name) ==>
      && Lookup(r.catalog, name).Some?
      && var before, after := Lookup(c, name).value, Lookup(r.catalog, name).value;
      && (p.icd11.None? ==> after.icd11 == before.icd11)
      && (p.icd11.Some? ==> after.icd11 == p.icd11.value)
      && (p.tm2.None? ==> after.tm2 == before.tm2)
      && (p.tm2.Some? ==> after.tm2 == p.tm2.value)
  {
    match IndexOf(c, name)
    case None => Outcome(c, NotFound)
    case Some(i) =>
      var c' := c[i := (name, Apply(c[i].1, p))];
      assert Keys(c') == Keys(c);
      LookupAt(c, i);
      LookupAt(c', i);
      Outcome(c', Ok)
  }

  /** The reference meaning of deletion: the catalog with every entry named
      `name` filtered out, everything else kept in order. */
  function Without(c: Catalog, name: string): Catalog {
    if |c| == 0 then []
    else if c[0].0 == name then Without(c[1..], name)
    else [c[0]] + Without(c[1..], name)
  }

  /** `delete_disease`: on a known name, remove that one entry; on an
      unknown name, report not-found and keep the catalog as it was. Every
      other name keeps its entry. */
  function Delete(c: Catalog, name: string): (r: Outcome)
    requires Valid(c)
    ensures r.status == NotFound <==> !Has(c, name)
    ensures r.status == NotFound ==> r.catalog == c
    ensures r.status == Ok ==> |r.catalog| == |c| - 1
    ensures Valid(r.catalog) && !Has(r.catalog, name)
    ensures forall k :: k != name ==> Lookup(r.catalog, k) == Lookup(c, k)
  {
    match IndexOf(c, name)
    case None => Outcome(c, NotFound)
    case Some(i) =>
      var c' := c[..i] + c[i + 1..];
      DeleteFrame(c, i, c');
      Outcome(c', Ok)
  }

  /** Removing position `i` of a valid catalog changes no other lookup. */
  lemma DeleteFrame(c: Catalog, i: nat, c': Catalog)
    requires Valid(c) && i < |c|
    requires c' == c[..i] + c[i + 1..]
    ensures Valid(c') && !Has(c', c[i].0)
    ensures forall k :: k != c[i].0 ==> Lookup(c', k) == Lookup(c, k)
  {
    assert forall j :: 0 <= j < i ==> c'[j] == c[j];
    assert forall j :: i <= j < |c'| ==> c'[j] == c[j + 1];
    forall a, b | 0 <= a < b < |c'|
      ensures c'[a].0 != c'[b].0
    {
      var a0 := if a < i then a else a + 1;
      var b0 := if b < i then b else b + 1;
      assert c'[a] == c[a0] && c'[b] == c[b0];
    }
    forall j | 0 <= j < |c'|
      ensures c'[j].0 != c[i].0
    {
      var j0 := if j < i then j else j + 1;
      assert c'[j] == c[j0];
    }
    forall k | k != c[i].0
      ensures Lookup(c', k) == Lookup(c, k)
    {
      if Has(c, k) {
        var j :| 0 <= j < |c| && c[j].0 == k;
        LookupAt(c, j);
        var j' := if j < i then j else j - 1;
        assert c'[j'] == c[j];
        LookupAt(c', j');
      } else {
        forall j' | 0 <= j' < |c'|
          ensures c'[j'].0 != k
        {
          var j0 := if j' < i then j' else j' + 1;
          assert c'[j'] == c[j0];
        }
      }
    }
  }

  /** Deleting removes exactly the named entry and keeps the relative order
      of all others: the result is the reference filter. */
  lemma {:induction false} DeleteIsWithout(c: Catalog, name: string)
    requires Valid(c)
    ensures Delete(c, name).catalog == Without(c, name)
  {
    match IndexOf(c, name)
    case None => WithoutAbsent(c, name);
    case Some(i) => RemoveAtIsWithout(c, name, i);
  }

  lemma {:induction false} WithoutAbsent(c: Catalog, name: string)
    requires !Has(c, name)
    ensures Without(c, name) == c
  {
    if |c| > 0 {
      assert c[0].0 != name;
      assert forall j :: 0 <= j < |c| - 1 ==> c[1..][j] == c[j + 1];
      WithoutAbsent(c[1..], name);
      assert c == [c[0]] + c[1..];
    }
  }

  lemma {:induction false} RemoveAtIsWithout(c: Catalog, name: string, i: nat)
    requires Valid(c) && i < |c| && c[i].0 == name
    ensures c[..i] + c[i + 1..] == Without(c, name)
  {
    if i == 0 {
      assert forall j :: 0 <= j < |c| - 1 ==> c[1..][j] == c[j + 1];
      WithoutAbsent(c[1..], name);
    } else {
      RemoveAtIsWithout(c[1..], name, i - 1);
      assert c[..i] + c[i + 1..] == [c[0]] + (c[1..][..i - 1] + c[1..][i..]);
    }
  }

  /** Deleting a name a second time fails with not-found and changes nothing. */
  lemma DeleteTwice(c: Catalog, name: string)
    requires Valid(c) && Has(c, name)
    ensures var once := Delete(c, name);
      && once.status == Ok
      && Delete(once.catalog, name) == Outcome(once.catalog, NotFound)
  {
  }

  /** Applying the same update twice is applying it once. */
  lemma UpdateIdempotent(c: Catalog, name: string, p: Patch)
    requires Valid(c)
    ensures var once := Update(c, name, p);
      Update(once.catalog, name, p) == once
  {
  }

  /** An update that supplies neither code leaves the catalog exactly as it
      was, whether or not the name is known. */
  lemma EmptyPatchKeepsCatalog(c: Catalog, name: string)
    requires Valid(c)
    ensures Update(c, name, Patch(None, None)).catalog == c
  {
  }

  /** After an update, every name other than the updated one looks up to the
      same entry as before. */
  lemma UpdateLookupFrame(c: Catalog, name: string, p: Patch, k: string)
    requires Valid(c) && k != name
    ensures Lookup(Update(c, name, p).catalog, k) == Lookup(c, k)
  {
  }

  /** One row of the disease listing: a name with its current codes. */
  datatype Row = Row(name: string, icd11: string, tm2: string)

  /** `list_diseases`: one row per catalog entry in catalog order, each
      carrying the codes lookup gives for its name; no name is listed twice
      and every catalog name is listed. */
  function List(c: Catalog): (rows: seq<Row>)
    requires Valid(c)
    ensures |rows| == |c|
    ensures forall i :: 0 <= i < |rows| ==> rows[i].name == Keys(c)[i]
    ensures forall i :: 0 <= i < |rows| ==>
      Lookup(c, rows[i].name) == Some(Entry(rows[i].icd11, rows[i].tm2))
    ensures forall i, j :: 0 <= i < j < |rows| ==> rows[i].name != rows[j].name
    ensures forall k :: Has(c, k) ==> exists i :: 0 <= i < |rows| && rows[i].name == k
  {
    var rows := seq(|c|, i requires 0 <= i < |c| => Row(c[i].0, c[i].1.icd11, c[i].1.tm2));
    forall i | 0 <= i < |rows|
      ensures Lookup(c, rows[i].name) == Some(Entry(rows[i].icd11, rows[i].tm2))
    {
      LookupAt(c, i);
    }
    forall k | Has(c, k)
      ensures exists i :: 0 <= i < |rows| && rows[i].name == k
    {
      var j :| 0 <= j < |c| && c[j].0 == k;
      assert rows[j].name == k;
    }
    rows
  }
}
