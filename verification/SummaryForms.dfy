/**
 Coverage, the summary constructor and the guards of composition on the lists themselves: which
 inputs pass, which error the others get, and what a coverage report lists.
 */
module SummaryForms {
  import opened Outcomes
  import opened Ordering
  import opened Rows
  import opened FrontierForms
  import opened Summaries

  // ----- coverage reports -----

  ghost predicate IsRepeated(tag: string, facts: seq<string>) {
    exists i, j :: 0 <= i < j < |facts| && facts[i] == tag && facts[j] == tag
  }

  ghost predicate LacksSome(required: seq<string>, facts: seq<string>) {
    exists tag :: tag in required && tag !in facts
  }

  /** The tags repeated among the facts, once each and in order. */
  ghost predicate ListsRepeated(tags: seq<string>, facts: seq<string>) {
    TextsAscend(tags) && forall tag :: tag in tags <==> IsRepeated(tag, facts)
  }

  /** The texts of `all` that `others` lacks, once each and in order. */
  ghost predicate ListsLacking(tags: seq<string>, all: seq<string>, others: seq<string>) {
    TextsAscend(tags) && forall tag :: tag in tags <==> tag in all && tag !in others
  }

  /** What a report on facts for these required tags must hold: repeated facts first, then missing tags, then extra ones. */
  ghost predicate Reports(r: CoverageResult, required: seq<string>, facts: seq<string>) {
    if HasRepeat(facts) then r.decision == Duplicate && ListsRepeated(r.duplicates, facts) && r.missing == [] && r.extra == []
    else if LacksSome(required, facts) then
      r.decision == Missing && ListsLacking(r.missing, required, facts) && r.duplicates == [] && r.extra == []
    else if LacksSome(facts, required) then
      r.decision == Extra && ListsLacking(r.extra, facts, required) && r.duplicates == [] && r.missing == []
    else r == CoverageResult(Accept, [], [], [])
  }

  lemma InElements(values: seq<string>, tag: string)
    ensures tag in Elements(values) <==> tag in values
  {
  }

  lemma SortedSetExact(tags: set<string>)
    ensures TextsAscend(SortedSet(tags)) && forall tag :: tag in SortedSet(tags) <==> tag in tags
  {
    var list := SortedSet(tags);
    AscendingTexts(list);
    forall tag ensures tag in list <==> tag in tags { InElements(list, tag); }
  }

  lemma {:induction false} CountedTwice(facts: seq<string>, tag: string)
    ensures multiset(facts)[tag] > 1 <==> IsRepeated(tag, facts)
    ensures multiset(facts)[tag] > 0 <==> tag in facts
  {
    if facts != [] {
      var n := |facts| - 1;
      CountedTwice(facts[..n], tag);
      LastMultiplicity(facts, tag);
      RepeatedLast(facts, n, tag);
    }
  }

  lemma RepeatedLast(facts: seq<string>, n: nat, tag: string)
    requires n + 1 == |facts|
    ensures IsRepeated(tag, facts) <==> IsRepeated(tag, facts[..n]) || (facts[n] == tag && tag in facts[..n])
  {
    if IsRepeated(tag, facts[..n]) {
      var i, j :| 0 <= i < j < n && facts[..n][i] == tag && facts[..n][j] == tag;
      assert facts[i] == tag && facts[j] == tag;
    }
    if i, j :| 0 <= i < j < |facts| && facts[i] == tag && facts[j] == tag {
      assert facts[..n][i] == tag;
      if j < n { assert facts[..n][j] == tag; }
    }
  }

  lemma RepeatedExact(facts: seq<string>)
    ensures forall tag :: tag in Repeated(facts) <==> IsRepeated(tag, facts)
    ensures Repeated(facts) != {} <==> HasRepeat(facts)
  {
    forall tag ensures tag in Repeated(facts) <==> IsRepeated(tag, facts) { CountedTwice(facts, tag); }
    if HasRepeat(facts) {
      var i, j :| 0 <= i < j < |facts| && facts[i] == facts[j];
      assert IsRepeated(facts[i], facts);
    }
    if Repeated(facts) != {} {
      var tag :| tag in Repeated(facts);
      assert IsRepeated(tag, facts);
    }
  }

  lemma LackingExact(all: seq<string>, others: seq<string>)
    ensures forall tag :: tag in Elements(all) - Elements(others) <==> tag in all && tag !in others
    ensures Elements(all) - Elements(others) != {} <==> LacksSome(all, others)
  {
    forall tag ensures tag in Elements(all) - Elements(others) <==> tag in all && tag !in others {
      InElements(all, tag);
      InElements(others, tag);
    }
    if tag :| tag in all && tag !in others { assert tag in Elements(all) - Elements(others); }
    if tag :| tag in Elements(all) - Elements(others) { assert tag in all && tag !in others; }
  }

  /** The report fits the facts, and is refused only to required tags that repeat. */
  lemma CoverageExact(required: seq<string>, facts: seq<string>)
    ensures if HasRepeat(required) then Coverage(required, facts) == Err(RequiredNotUnique)
            else Coverage(required, facts).Ok? && Reports(Coverage(required, facts).value, required, facts)
  {
    RepeatedExact(facts);
    LackingExact(required, facts);
    LackingExact(facts, required);
    SortedSetExact(Repeated(facts));
    SortedSetExact(Elements(required) - Elements(facts));
    SortedSetExact(Elements(facts) - Elements(required));
  }

  // ----- the constructor -----

  /** The first way a list fails to be strictly ascending. */
  ghost function ListDefect(values: seq<string>, list: ListName): Option<SummaryError> {
    if !InOrder(values) then Some(MustBeSorted(list)) else if HasRepeat(values) then Some(MustBeUnique(list)) else None
  }

  ghost predicate RowBefore(a: Row, b: Row) {
    TextBefore(a.0, b.0) || (a.0 == b.0 && a.1 < b.1)
  }

  /** No value is zero, and no row stands before an earlier one. */
  ghost predicate RowsInOrder(rows: seq<Row>) {
    (forall i :: 0 <= i < |rows| ==> rows[i].1 != 0) && forall i, j :: 0 <= i < j < |rows| ==> !RowBefore(rows[j], rows[i])
  }

  ghost predicate Shares(a: seq<string>, b: seq<string>) {
    exists x :: x in a && x in b
  }

  /** The facts name every consumed and created tag once, and nothing else. */
  ghost predicate CoversExactly(s: Summary) {
    !HasRepeat(s.factTags) && forall tag :: tag in s.factTags <==> tag in s.consumedTags || tag in s.createdTags
  }

  /** The checks on the four lists, in their order. */
  ghost function ListsDefect(s: Summary): Option<SummaryError> {
    if ListDefect(s.actionIds, ActionIds).Some? then ListDefect(s.actionIds, ActionIds)
    else if ListDefect(s.consumedTags, ConsumedTags).Some? then ListDefect(s.consumedTags, ConsumedTags)
    else if ListDefect(s.createdTags, CreatedTags).Some? then ListDefect(s.createdTags, CreatedTags)
    else ListDefect(s.factTags, FactTags)
  }

  /** The checks in their order: the first that fails gives the error. */
  ghost function SummaryDefect(s: Summary): Option<SummaryError> {
    if ListsDefect(s).Some? then ListsDefect(s)
    else if !RowsInOrder(s.deltaRows) then Some(DeltaRowsNotNormal)
    else if KeyRepeats(s.deltaRows) then Some(DuplicateDeltaRow)
    else if Shares(s.consumedTags, s.createdTags) then Some(ConsumedCreatedCollide)
    else if !CoversExactly(s) then Some(InexactCoverage)
    else if s.contextHash == "" || s.basisRoot == "" || s.profileId == "" then Some(EmptyBinding)
    else None
  }

  lemma ListCheckExact(values: seq<string>, list: ListName)
    ensures CheckList(values, list) == match ListDefect(values, list) case Some(e) => Err(e) case None => Ok(())
  {
    InOrderExact(values);
  }

  lemma RowsCheckExact(rows: seq<Row>)
    ensures rows == Sort(RowLess, NonzeroRows(rows)) <==> RowsInOrder(rows)
  {
    RowIsStrictTotal();
    NonzeroRowsFixpoint(rows);
    SortFixpoint(RowLess, rows);
    forall i, j | 0 <= i < j < |rows| ensures RowLess(rows[j], rows[i]) <==> RowBefore(rows[j], rows[i]) {
      TextLessExact(rows[j].0, rows[i].0);
    }
    if rows == Sort(RowLess, NonzeroRows(rows)) {
      SortProperties(RowLess, NonzeroRows(rows));
      SameElements(NonzeroRows(rows), rows);
      forall i | 0 <= i < |rows| ensures rows[i].1 != 0 { assert rows[i] in Elements(NonzeroRows(rows)); }
    }
    if RowsInOrder(rows) { assert forall r :: r in rows ==> r.1 != 0; }
  }

  lemma RowKeysExact(rows: seq<Row>)
    requires RowsInOrder(rows)
    ensures |Elements(Keys(rows))| == |rows| <==> !KeyRepeats(rows)
  {
    NonzeroRowsFixpoint(rows);
    assert forall r :: r in rows ==> r.1 != 0;
    RepeatsExact(rows);
    DistinctCounts(Keys(rows));
  }

  lemma SharesExact(a: seq<string>, b: seq<string>)
    ensures Elements(a) * Elements(b) != {} <==> Shares(a, b)
  {
    if x :| x in a && x in b { assert x in Elements(a) * Elements(b); }
    if x :| x in Elements(a) * Elements(b) { InElements(a, x); InElements(b, x); }
  }

  lemma RequiredApart(consumed: seq<string>, created: seq<string>)
    requires !HasRepeat(consumed) && !HasRepeat(created) && !Shares(consumed, created)
    ensures !HasRepeat(consumed + created)
  {
    var both := consumed + created;
    forall i, j | 0 <= i < j < |both| ensures both[i] != both[j] {
      if i < |consumed| <= j { assert both[i] in consumed && both[j] in created; }
    }
  }

  lemma CoverageOfSummary(s: Summary)
    requires !HasRepeat(s.consumedTags) && !HasRepeat(s.createdTags) && !Shares(s.consumedTags, s.createdTags)
    ensures Coverage(s.consumedTags + s.createdTags, s.factTags).Ok?
    ensures Coverage(s.consumedTags + s.createdTags, s.factTags).value.decision == Accept <==> CoversExactly(s)
  {
    var required := s.consumedTags + s.createdTags;
    RequiredApart(s.consumedTags, s.createdTags);
    CoverageExact(required, s.factTags);
    forall tag ensures tag in required <==> tag in s.consumedTags || tag in s.createdTags { }
  }

  lemma ListsFail(s: Summary)
    requires ListsDefect(s).Some?
    ensures Make(s) == Err(ListsDefect(s).value)
  {
    ListCheckExact(s.actionIds, ActionIds);
    ListCheckExact(s.consumedTags, ConsumedTags);
    ListCheckExact(s.createdTags, CreatedTags);
    ListCheckExact(s.factTags, FactTags);
  }

  lemma ListsPass(s: Summary)
    requires ListsDefect(s).None?
    ensures CheckList(s.actionIds, ActionIds).Ok? && CheckList(s.consumedTags, ConsumedTags).Ok?
    ensures CheckList(s.createdTags, CreatedTags).Ok? && CheckList(s.factTags, FactTags).Ok?
    ensures !HasRepeat(s.consumedTags) && !HasRepeat(s.createdTags)
  {
    ListCheckExact(s.actionIds, ActionIds);
    ListCheckExact(s.consumedTags, ConsumedTags);
    ListCheckExact(s.createdTags, CreatedTags);
    ListCheckExact(s.factTags, FactTags);
  }

  /** The constructor returns the summary unchanged, or the error of the first check that fails. */
  lemma ConstructorExact(s: Summary)
    ensures Make(s) == match SummaryDefect(s) case Some(e) => Err(e) case None => Ok(s)
  {
    if ListsDefect(s).Some? {
      ListsFail(s);
    } else {
      ListsPass(s);
      RowsCheckExact(s.deltaRows);
      if RowsInOrder(s.deltaRows) { RowKeysExact(s.deltaRows); }
      SharesExact(s.consumedTags, s.createdTags);
      if !Shares(s.consumedTags, s.createdTags) { CoverageOfSummary(s); }
    }
  }

  // ----- composition -----

  /** The guards in their order: the first that fails gives the error. */
  ghost function CompositionDefect(a: Summary, b: Summary): Option<SummaryError> {
    if a.contextHash != b.contextHash then Some(ContextMismatch)
    else if a.basisRoot != b.basisRoot then Some(KindBasisMismatch)
    else if a.profileId != b.profileId then Some(ProfileMismatch)
    else if Shares(a.actionIds, b.actionIds) then Some(DuplicateAction)
    else if Shares(a.consumedTags, b.consumedTags) then Some(DuplicateConsumption)
    else if Shares(a.createdTags, b.createdTags) then Some(DuplicateCreation)
    else if Shares(a.factTags, b.factTags) then Some(DuplicateFact)
    else None
  }

  /** The list holds the texts of both, once each and in order. */
  ghost predicate Unites(list: seq<string>, a: seq<string>, b: seq<string>) {
    TextsAscend(list) && forall x :: x in list <==> x in a || x in b
  }

  /** The joined summary, field by field. */
  ghost predicate IsJoin(s: Summary, a: Summary, b: Summary) {
    && s.contextHash == a.contextHash == b.contextHash && s.basisRoot == a.basisRoot == b.basisRoot
    && s.profileId == a.profileId == b.profileId
    && Unites(s.actionIds, a.actionIds, b.actionIds) && Unites(s.consumedTags, a.consumedTags, b.consumedTags)
    && Unites(s.createdTags, a.createdTags, b.createdTags) && Unites(s.factTags, a.factTags, b.factTags)
    && RowsAscend(s.deltaRows) && forall k :: Total(s.deltaRows, k) == Total(a.deltaRows, k) + Total(b.deltaRows, k)
  }

  lemma UnitesExact(list: seq<string>, a: seq<string>, b: seq<string>)
    requires Ascending(TextLess, list) && Elements(list) == Elements(a) + Elements(b)
    ensures Unites(list, a, b)
  {
    AscendingTexts(list);
    forall x ensures x in list <==> x in a || x in b {
      InElements(list, x);
      InElements(a, x);
      InElements(b, x);
    }
  }

  lemma JoinedExact(a: Summary, b: Summary)
    requires WellFormed(a) && WellFormed(b) && Compatible(a, b)
    ensures IsJoin(Joined(a, b), a, b)
  {
    var r := Joined(a, b);
    JoinedWellFormed(a, b);
    UnitesExact(r.actionIds, a.actionIds, b.actionIds);
    UnitesExact(r.consumedTags, a.consumedTags, b.consumedTags);
    UnitesExact(r.createdTags, a.createdTags, b.createdTags);
    UnitesExact(r.factTags, a.factTags, b.factTags);
    NormalExact(r.deltaRows);
  }

  /** Constructed summaries compose to their join, or fail with the first guard that does not hold. */
  lemma CompositionExact(a: Summary, b: Summary)
    requires SummaryDefect(a).None? && SummaryDefect(b).None?
    ensures match CompositionDefect(a, b)
            case Some(e) => Composition(a, b) == Err(e)
            case None => Composition(a, b).Ok? && IsJoin(Composition(a, b).value, a, b)
  {
    ConstructorExact(a);
    ConstructorExact(b);
    MakeAcceptsWellFormed(a);
    MakeAcceptsWellFormed(b);
    CompositionSucceeds(a, b);
    SharesExact(a.actionIds, b.actionIds);
    SharesExact(a.consumedTags, b.consumedTags);
    SharesExact(a.createdTags, b.createdTags);
    SharesExact(a.factTags, b.factTags);
    if Compatible(a, b) { JoinedExact(a, b); }
  }
}
