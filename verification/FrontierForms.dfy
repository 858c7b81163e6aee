/**
 The constructors of points, kind bases and summaries on the texts and numbers themselves: which
 inputs each accepts, which error the others get, and what the canonical constructions hold.
 */
module FrontierForms {
  import opened Outcomes
  import opened Ordering
  import opened Rows
  import opened LinearPoints

  // ----- lists of texts and of rows -----

  /** No text stands before an earlier one. */
  ghost predicate InOrder(values: seq<string>) {
    forall i, j :: 0 <= i < j < |values| ==> !TextBefore(values[j], values[i])
  }

  ghost predicate HasRepeat(values: seq<string>) {
    exists i, j :: 0 <= i < j < |values| && values[i] == values[j]
  }

  lemma InOrderExact(values: seq<string>)
    ensures values == Sort(TextLess, values) <==> InOrder(values)
    ensures |values| == |Elements(values)| <==> !HasRepeat(values)
  {
    TextIsStrictTotal();
    SortFixpoint(TextLess, values);
    DistinctCounts(values);
    forall i, j | 0 <= i < j < |values| ensures TextLess(values[j], values[i]) <==> TextBefore(values[j], values[i]) {
      TextLessExact(values[j], values[i]);
    }
  }

  /** Keys ascend, and no value is zero. */
  ghost predicate RowsAscend(rows: seq<Row>) {
    && (forall i, j :: 0 <= i < j < |rows| ==> TextBefore(rows[i].0, rows[j].0))
    && forall i :: 0 <= i < |rows| ==> rows[i].1 != 0
  }

  lemma NormalExact(rows: seq<Row>)
    ensures Normal(rows) <==> RowsAscend(rows)
  {
    AscendingTexts(Keys(rows));
    if TextsAscend(Keys(rows)) {
      forall i, j | 0 <= i < j < |rows| ensures TextBefore(rows[i].0, rows[j].0) {
        assert TextBefore(Keys(rows)[i], Keys(rows)[j]);
      }
    }
  }

  /** Two rows with a value that is not zero carry the same key. */
  ghost predicate KeyRepeats(rows: seq<Row>) {
    exists i, j :: 0 <= i < j < |rows| && rows[i].0 == rows[j].0 && rows[i].1 != 0 && rows[j].1 != 0
  }

  lemma {:induction false} InNonzeroRows(rows: seq<Row>, r: Row)
    ensures r in NonzeroRows(rows) <==> r in rows && r.1 != 0
  {
    if rows != [] {
      InNonzeroRows(rows[..|rows| - 1], r);
      assert rows == rows[..|rows| - 1] + [rows[|rows| - 1]];
    }
  }

  /** Some row with a value that is not zero carries the key. */
  ghost predicate HoldsKey(rows: seq<Row>, key: string) {
    exists i :: 0 <= i < |rows| && rows[i].0 == key && rows[i].1 != 0
  }

  lemma KeyRepeatsLast(rows: seq<Row>, n: nat)
    requires n + 1 == |rows|
    ensures KeyRepeats(rows) <==> KeyRepeats(rows[..n]) || (rows[n].1 != 0 && HoldsKey(rows[..n], rows[n].0))
  {
    if KeyRepeats(rows[..n]) {
      var i, j :| 0 <= i < j < n && rows[..n][i].0 == rows[..n][j].0 && rows[..n][i].1 != 0 && rows[..n][j].1 != 0;
      assert rows[i].0 == rows[j].0;
    }
    if rows[n].1 != 0 && HoldsKey(rows[..n], rows[n].0) {
      var i :| 0 <= i < n && rows[..n][i].0 == rows[n].0 && rows[..n][i].1 != 0;
      assert rows[i].0 == rows[n].0;
    }
    if i, j :| 0 <= i < j < |rows| && rows[i].0 == rows[j].0 && rows[i].1 != 0 && rows[j].1 != 0 {
      assert rows[..n][i].0 == rows[i].0;
      if j < n { assert rows[..n][i].0 == rows[..n][j].0; }
    }
  }

  lemma KeyAmong(rows: seq<Row>, key: string)
    ensures key in Keys(NonzeroRows(rows)) <==> HoldsKey(rows, key)
  {
    var nonzero := NonzeroRows(rows);
    if i :| 0 <= i < |rows| && rows[i].0 == key && rows[i].1 != 0 {
      InNonzeroRows(rows, rows[i]);
      var k :| 0 <= k < |nonzero| && nonzero[k] == rows[i];
      assert Keys(nonzero)[k] == key;
    }
    if key in Keys(nonzero) {
      var k :| 0 <= k < |nonzero| && Keys(nonzero)[k] == key;
      InNonzeroRows(rows, nonzero[k]);
      var i :| 0 <= i < |rows| && rows[i] == nonzero[k];
    }
  }

  lemma DistinctAppended(keys: seq<string>, key: string)
    ensures Distinct(keys + [key]) <==> Distinct(keys) && key !in keys
  {
    var longer := keys + [key];
    if Distinct(longer) {
      forall i, j | 0 <= i < j < |keys| ensures keys[i] != keys[j] { assert longer[i] != longer[j]; }
      forall i | 0 <= i < |keys| ensures keys[i] != key { assert longer[i] != longer[|keys|]; }
    }
  }

  lemma {:induction false} RepeatsExact(rows: seq<Row>)
    ensures Distinct(Keys(NonzeroRows(rows))) <==> !KeyRepeats(rows)
  {
    if rows != [] {
      var n := |rows| - 1;
      RepeatsExact(rows[..n]);
      KeyRepeatsLast(rows, n);
      KeyAmong(rows[..n], rows[n].0);
      var before := NonzeroRows(rows[..n]);
      if rows[n].1 != 0 {
        assert Keys(NonzeroRows(rows)) == Keys(before) + [rows[n].0];
        DistinctAppended(Keys(before), rows[n].0);
      } else {
        assert NonzeroRows(rows) == before;
      }
    }
  }

  lemma SameKeys(a: seq<Row>, b: seq<Row>)
    requires multiset(a) == multiset(b)
    ensures Distinct(Keys(a)) <==> Distinct(Keys(b))
  {
    SameElements(a, b);
    DistinctCounts(Keys(a));
    DistinctCounts(Keys(b));
    forall key ensures key in Elements(Keys(a)) <==> key in Elements(Keys(b)) {
      forall i | 0 <= i < |a| && Keys(a)[i] == key ensures key in Elements(Keys(b)) { KeyMoves(a, b, i); }
      forall i | 0 <= i < |b| && Keys(b)[i] == key ensures key in Elements(Keys(a)) { KeyMoves(b, a, i); }
    }
    assert Elements(Keys(a)) == Elements(Keys(b));
  }

  lemma KeyMoves(a: seq<Row>, b: seq<Row>, i: nat)
    requires i < |a| && Elements(a) == Elements(b)
    ensures Keys(a)[i] in Elements(Keys(b))
  {
    assert a[i] in Elements(a);
    var k :| 0 <= k < |b| && b[k] == a[i];
    assert Keys(b)[k] == Keys(a)[i];
  }

  // ----- points -----

  /** A point is constructed from exactly the ascending rows without zeros; of the others, those that repeat a symbol say so. */
  lemma PointConstructorExact(rows: seq<Row>)
    ensures LinearPoint.Make(rows)
            == if RowsAscend(rows) then Ok(LinearPoint(rows)) else if KeyRepeats(rows) then Err(DuplicateSymbol) else Err(NotNormalized)
  {
    var nonzero := NonzeroRows(rows);
    MakeAcceptsNormal(rows);
    NormalExact(rows);
    RowIsStrictTotal();
    SortProperties(RowLess, nonzero);
    SameKeys(nonzero, Sort(RowLess, nonzero));
    DistinctCounts(Keys(Sort(RowLess, nonzero)));
    RepeatsExact(rows);
  }

  /** The rows are the dictionary's items that are not zero, in order of their keys. */
  ghost predicate HoldsItems(rows: seq<Row>, values: map<string, int>) {
    RowsAscend(rows) && forall key, value :: (key, value) in rows <==> key in values && values[key] == value != 0
  }

  lemma ItemsExact(values: map<string, int>)
    ensures HoldsItems(FromMap(values), values)
  {
    var rows := FromMap(values);
    FromMapProperties(values);
    NormalExact(rows);
    NormalTotals(rows);
    forall key, value ensures (key, value) in rows <==> key in values && values[key] == value != 0 {
      ItemAmong(rows, values, key, value);
    }
  }

  lemma ItemAmong(rows: seq<Row>, values: map<string, int>, key: string, value: int)
    requires Normal(rows) && forall k :: Total(rows, k) == Get(values, k)
    ensures (key, value) in rows <==> key in values && values[key] == value != 0
  {
    NormalTotals(rows);
    if (key, value) in rows {
      var i :| 0 <= i < |rows| && rows[i] == (key, value);
      assert Total(rows, rows[i].0) == value;
    }
    if key in values && values[key] == value != 0 {
      assert Total(rows, key) != 0;
      var i :| 0 <= i < |Keys(rows)| && Keys(rows)[i] == key;
      assert rows[i] == (key, value);
    }
  }

  /** Points and equations made from dictionaries hold exactly the items that are not zero, in order. */
  lemma FromMappingExact(values: map<string, int>, blinding: int)
    ensures HoldsItems(LinearPoint.FromMapping(values).coefficients, values)
    ensures HoldsItems(DeltaEquation.FromMapping(values, blinding).netQuantityByKind, values)
    ensures DeltaEquation.FromMapping(values, blinding).blinding == blinding
  {
    ItemsExact(values);
  }

  lemma NotBeforeItself(text: string)
    ensures !TextBefore(text, text)
  {
  }

  lemma KeysDiffer(rows: seq<Row>, i: nat, j: nat)
    requires RowsAscend(rows) && i < j < |rows|
    ensures rows[i].0 != rows[j].0
  {
    NotBeforeItself(rows[i].0);
  }

  lemma OneKeyOneRow(rows: seq<Row>, symbol: string)
    requires RowsAscend(rows) && forall i :: 0 <= i < |rows| ==> rows[i].0 == symbol
    ensures |rows| <= 1
  {
    if |rows| > 1 { KeysDiffer(rows, 0, 1); }
  }

  lemma BasisPointExact(symbol: string, coefficient: int)
    ensures LinearPoint.Basis(symbol, coefficient).coefficients == if coefficient == 0 then [] else [(symbol, coefficient)]
  {
    var values := map[symbol := coefficient];
    var rows := FromMap(values);
    ItemsExact(values);
    forall i | 0 <= i < |rows| ensures rows[i].0 == symbol && rows[i].1 == coefficient != 0 {
      assert (rows[i].0, rows[i].1) in rows;
    }
    OneKeyOneRow(rows, symbol);
    FromMapProperties(values);
    NormalHasTotal(rows);
    if coefficient != 0 {
      assert (symbol, coefficient) in rows;
      assert rows == [(symbol, coefficient)];
    }
  }

  /** The coefficient is the value filed under the symbol, and zero under any other. */
  lemma CoefficientExact(p: LinearPoint, symbol: string)
    requires RowsAscend(p.coefficients)
    ensures forall value :: (symbol, value) in p.coefficients ==> p.Coefficient(symbol) == value
    ensures (forall value :: (symbol, value) !in p.coefficients) ==> p.Coefficient(symbol) == 0
  {
    NormalExact(p.coefficients);
    NormalTotals(p.coefficients);
    forall value | (symbol, value) in p.coefficients ensures p.Coefficient(symbol) == value {
      var i :| 0 <= i < |p.coefficients| && p.coefficients[i] == (symbol, value);
      assert Total(p.coefficients, p.coefficients[i].0) == value;
    }
    if p.Coefficient(symbol) != 0 {
      var i :| 0 <= i < |Keys(p.coefficients)| && Keys(p.coefficients)[i] == symbol;
      assert p.coefficients[i] == (symbol, p.coefficients[i].1);
    }
  }

  // ----- kind bases -----

  ghost predicate KindsAscend(entries: seq<Entry>) {
    forall i, j :: 0 <= i < j < |entries| ==> TextBefore(entries[i].0, entries[j].0)
  }

  /** A basis is constructed iff its profile is named and its kinds ascend; otherwise the first failed check is reported. */
  lemma BasisConstructorExact(profileId: string, entries: seq<Entry>, authenticated: bool)
    ensures KindBasis.Make(profileId, entries, authenticated)
            == if profileId == "" then Err(EmptyProfile)
               else if !InOrder(Kinds(entries)) then Err(UnsortedKinds)
               else if HasRepeat(Kinds(entries)) then Err(DuplicateKinds)
               else Ok(KindBasis(profileId, entries, authenticated))
    ensures KindBasis.Make(profileId, entries, authenticated).Ok? <==> profileId != "" && KindsAscend(entries)
  {
    InOrderExact(Kinds(entries));
    MakeBasisAccepts(profileId, entries, authenticated);
    AscendingTexts(Kinds(entries));
    if TextsAscend(Kinds(entries)) {
      forall i, j | 0 <= i < j < |entries| ensures TextBefore(entries[i].0, entries[j].0) {
        assert TextBefore(Kinds(entries)[i], Kinds(entries)[j]);
      }
    }
  }

  /** The kinds listed once each, in order. */
  ghost predicate ListsKinds(entries: seq<Entry>, kinds: set<string>) {
    KindsAscend(entries) && forall kind :: kind in kinds <==> exists i :: 0 <= i < |entries| && entries[i].0 == kind
  }

  lemma SortedKinds(entries: seq<Entry>, kinds: set<string>)
    requires Kinds(entries) == SortedSet(kinds)
    ensures ListsKinds(entries, kinds)
  {
    var names := Kinds(entries);
    AscendingTexts(names);
    forall i, j | 0 <= i < j < |entries| ensures TextBefore(entries[i].0, entries[j].0) { assert TextBefore(names[i], names[j]); }
    forall kind ensures kind in kinds <==> exists i :: 0 <= i < |entries| && entries[i].0 == kind {
      if kind in kinds {
        assert kind in Elements(names);
        var i :| 0 <= i < |names| && names[i] == kind;
        assert entries[i].0 == kind;
      }
      if i :| 0 <= i < |entries| && entries[i].0 == kind { assert names[i] in Elements(names); }
    }
  }

  ghost predicate OwnSymbolEach(entries: seq<Entry>) {
    forall i :: 0 <= i < |entries| ==> entries[i].1.coefficients == [("K:" + entries[i].0, 1)]
  }

  /** The honest basis lists each kind with its own symbol, is authenticated, and is certified for any named proof. */
  lemma HonestExact(kinds: set<string>, profileId: string, proofId: string)
    ensures KindBasis.Honest(kinds, profileId).Ok? <==> profileId != ""
    ensures profileId != "" ==>
              var basis := KindBasis.Honest(kinds, profileId).value;
              && basis.profileId == profileId && basis.authenticated && ListsKinds(basis.entries, kinds) && OwnSymbolEach(basis.entries)
              && (proofId != "" ==> CertifyKindBasis(basis, proofId) == Ok(KindBasisCertificate(basis, profileId, proofId)))
  {
    var unique := SortedSet(kinds);
    var entries: seq<Entry> := seq(|unique|, i requires 0 <= i < |unique| => (unique[i], LinearPoint.Basis(KIND_PREFIX + unique[i], 1)));
    assert Kinds(entries) == unique;
    SortedKinds(entries, kinds);
    MakeBasisAccepts(profileId, entries, true);
    forall i | 0 <= i < |entries| ensures entries[i].1.coefficients == [("K:" + entries[i].0, 1)] && entries[i].1.Valid() {
      BasisPointExact("K:" + unique[i], 1);
      BasisCoefficient("K:" + unique[i], 1);
    }
    if profileId != "" { CertifiedEntries(KindBasis(profileId, entries, true), proofId); }
  }

  lemma OwnSymbolsExact(basis: KindBasis)
    ensures OwnSymbols(basis) <==> OwnSymbolEach(basis.entries)
  {
    forall i | 0 <= i < |basis.entries|
      ensures basis.entries[i].1 == LinearPoint.Basis(KIND_PREFIX + basis.entries[i].0, 1)
              <==> basis.entries[i].1.coefficients == [("K:" + basis.entries[i].0, 1)]
    {
      BasisPointExact("K:" + basis.entries[i].0, 1);
    }
  }

  /** Certification seals exactly the authenticated bases with own symbols, for a named proof, and says which was missing. */
  lemma CertificationExact(basis: KindBasis, proofId: string)
    requires basis.Valid()
    ensures CertifyKindBasis(basis, proofId)
            == if proofId == "" then Err(EmptyProofId)
               else if basis.authenticated && OwnSymbolEach(basis.entries) then Ok(KindBasisCertificate(basis, basis.profileId, proofId))
               else Err(NoncanonicalBasis)
  {
    CertifiedEntries(basis, proofId);
    OwnSymbolsExact(basis);
  }

  /** Under a certified basis the delta point carries the blinding on the generator and each kind's net quantity on its own symbol. */
  lemma CertifiedPointExact(eq: DeltaEquation, basis: KindBasis, proofId: string)
    requires basis.Valid() && CertifyKindBasis(basis, proofId).Ok? && eq.Covered(basis)
    ensures eq.Point(basis).Ok?
    ensures var p := eq.Point(basis).value;
            && RowsAscend(p.coefficients) && p.Coefficient("G") == eq.blinding
            && (forall k :: p.Coefficient("K:" + k) == Total(eq.netQuantityByKind, k))
            && (forall s :: s != "G" && !("K:" <= s) ==> p.Coefficient(s) == 0)
  {
    CertifiedEntries(basis, proofId);
    CertifiedCoefficients(eq, basis);
    NormalExact(eq.Point(basis).value.coefficients);
  }

  // ----- the callers' tables -----

  /** The table of known scalars and the table of one shared symbol, entry by entry; neither is authenticated. */
  lemma TablesExact(known: map<string, int>, kinds: set<string>, shared: string, profileId: string)
    requires profileId != ""
    ensures KindBasis.MaliciousKnownScalars(known, profileId).Ok? && KindBasis.MaliciousRelation(kinds, shared, profileId).Ok?
    ensures var table := KindBasis.MaliciousKnownScalars(known, profileId).value;
            && table.profileId == profileId && !table.authenticated && ListsKinds(table.entries, known.Keys)
            && forall i :: 0 <= i < |table.entries| ==>
                 var (kind, point) := table.entries[i];
                 kind in known && point.coefficients == if known[kind] == 0 then [] else [("G", known[kind])]
    ensures var table := KindBasis.MaliciousRelation(kinds, shared, profileId).value;
            && table.profileId == profileId && !table.authenticated && ListsKinds(table.entries, kinds)
            && forall i :: 0 <= i < |table.entries| ==> table.entries[i].1.coefficients == [(shared, 1)]
  {
    KnownTableExact(known, profileId);
    SharedTableExact(kinds, shared, profileId);
  }

  lemma KnownTableExact(known: map<string, int>, profileId: string)
    requires profileId != ""
    ensures KindBasis.MaliciousKnownScalars(known, profileId).Ok?
    ensures var table := KindBasis.MaliciousKnownScalars(known, profileId).value;
            && table.profileId == profileId && !table.authenticated && ListsKinds(table.entries, known.Keys)
            && forall i :: 0 <= i < |table.entries| ==>
                 var (kind, point) := table.entries[i];
                 kind in known && point.coefficients == if known[kind] == 0 then [] else [("G", known[kind])]
  {
    var unique := SortedSet(known.Keys);
    var entries := KnownEntries(unique, known);
    assert Kinds(entries) == unique;
    SortedKinds(entries, known.Keys);
    MakeBasisAccepts(profileId, entries, false);
    forall i | 0 <= i < |entries|
      ensures entries[i].0 in known && entries[i].1.coefficients == if known[entries[i].0] == 0 then [] else [("G", known[entries[i].0])]
    {
      assert unique[i] in Elements(unique);
      BasisPointExact("G", known[unique[i]]);
    }
  }

  lemma SharedTableExact(kinds: set<string>, shared: string, profileId: string)
    requires profileId != ""
    ensures KindBasis.MaliciousRelation(kinds, shared, profileId).Ok?
    ensures var table := KindBasis.MaliciousRelation(kinds, shared, profileId).value;
            && table.profileId == profileId && !table.authenticated && ListsKinds(table.entries, kinds)
            && forall i :: 0 <= i < |table.entries| ==> table.entries[i].1.coefficients == [(shared, 1)]
  {
    var unique := SortedSet(kinds);
    var entries := SharedEntries(unique, shared);
    assert Kinds(entries) == unique;
    SortedKinds(entries, kinds);
    MakeBasisAccepts(profileId, entries, false);
    BasisPointExact(shared, 1);
  }
}
