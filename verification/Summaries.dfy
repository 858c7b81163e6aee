/**
 Semantic summaries of resource-transition shards and their partial composition. The main result
 is that composition is insensitive to bracketing and order: any composition tree over the same
 summaries succeeds exactly when they are pairwise compatible, and then yields one summary.
 */
module Summaries {
  import opened Outcomes
  import opened Ordering
  import opened Rows

  datatype ListName = ActionIds | ConsumedTags | CreatedTags | FactTags

  datatype SummaryError =
    | RequiredNotUnique
    | MustBeSorted(list: ListName)
    | MustBeUnique(list: ListName)
    | DeltaRowsNotNormal
    | DuplicateDeltaRow
    | ConsumedCreatedCollide
    | InexactCoverage
    | EmptyBinding
    | ContextMismatch
    | KindBasisMismatch
    | ProfileMismatch
    | DuplicateAction
    | DuplicateConsumption
    | DuplicateCreation
    | DuplicateFact
    | CrossSummaryTagCollision

  // ----- logic-fact coverage -----

  datatype CoverageDecision = Accept | Duplicate | Missing | Extra

  datatype CoverageResult =
    CoverageResult(decision: CoverageDecision, missing: seq<string>, extra: seq<string>, duplicates: seq<string>)

  function Repeated(facts: seq<string>): set<string> {
    set tag | tag in facts && multiset(facts)[tag] > 1
  }

  /** The verdict that `ExactLogicCoverage` computes. */
  function Coverage(required: seq<string>, facts: seq<string>): Result<CoverageResult, SummaryError> {
    var absent := Elements(required) - Elements(facts);
    var surplus := Elements(facts) - Elements(required);
    if !Distinct(required) then Err(RequiredNotUnique)
    else if Repeated(facts) != {} then Ok(CoverageResult(Duplicate, [], [], SortedSet(Repeated(facts))))
    else if absent != {} then Ok(CoverageResult(Missing, SortedSet(absent), [], []))
    else if surplus != {} then Ok(CoverageResult(Extra, [], SortedSet(surplus), []))
    else Ok(CoverageResult(Accept, [], [], []))
  }

  method ExactLogicCoverage(required: seq<string>, facts: seq<string>) returns (r: Result<CoverageResult, SummaryError>)
    ensures r == Coverage(required, facts)
  {
    DistinctCounts(required);
    if |required| != |Elements(required)| {
      return Err(RequiredNotUnique);
    }
    var counts: map<string, nat> := map[];
    for i := 0 to |facts|
      invariant forall tag :: tag in counts <==> tag in facts[..i]
      invariant forall tag :: tag in counts ==> counts[tag] == multiset(facts[..i])[tag]
    {
      assert facts[..i + 1] == facts[..i] + [facts[i]];
      counts := counts[facts[i] := (if facts[i] in counts then counts[facts[i]] else 0) + 1];
    }
    assert facts[..|facts|] == facts;
    var repeated := set tag | tag in counts && counts[tag] > 1;
    assert repeated == Repeated(facts);
    var duplicates := SortedSet(repeated);
    NoElements(duplicates);
    if duplicates != [] {
      return Ok(CoverageResult(Duplicate, [], [], duplicates));
    }
    var missing := SortedSet(Elements(required) - Elements(facts));
    NoElements(missing);
    if missing != [] {
      return Ok(CoverageResult(Missing, missing, [], []));
    }
    var extra := SortedSet(Elements(facts) - Elements(required));
    NoElements(extra);
    if extra != [] {
      return Ok(CoverageResult(Extra, [], extra, []));
    }
    return Ok(CoverageResult(Accept, [], [], []));
  }

  /** Coverage is accepted exactly when the facts are a permutation of the required tags. */
  lemma CoverageAcceptsPermutations(required: seq<string>, facts: seq<string>)
    requires Distinct(required)
    ensures Coverage(required, facts).Ok?
    ensures Coverage(required, facts).value.decision == Accept <==> multiset(facts) == multiset(required)
  {
    DistinctCounts(required);
    DistinctCounts(facts);
    assert Repeated(facts) == {} <==> Distinct(facts) by {
      if Repeated(facts) == {} {
        forall tag | tag in facts ensures multiset(facts)[tag] == 1 { assert tag !in Repeated(facts); }
      }
    }
    if Distinct(facts) && Elements(facts) == Elements(required) {
      forall tag ensures multiset(facts)[tag] == multiset(required)[tag] {
        assert tag in facts <==> tag in Elements(facts);
        assert tag in required <==> tag in Elements(required);
      }
    }
    if multiset(facts) == multiset(required) {
      SameElements(facts, required);
      forall tag | tag in facts ensures multiset(facts)[tag] == 1 { assert tag in Elements(required); }
    }
  }

  // ----- summaries -----

  datatype Summary = Summary(
    contextHash: string,
    basisRoot: string,
    profileId: string,
    actionIds: seq<string>,
    consumedTags: seq<string>,
    createdTags: seq<string>,
    factTags: seq<string>,
    deltaRows: seq<Row>)

  function CheckList(values: seq<string>, list: ListName): Result<(), SummaryError> {
    if values != Sort(TextLess, values) then Err(MustBeSorted(list))
    else if |values| != |Elements(values)| then Err(MustBeUnique(list))
    else Ok(())
  }

  /** The constructor: the checks it makes, in its order. */
  function Make(s: Summary): Result<Summary, SummaryError> {
    var _ :- CheckList(s.actionIds, ActionIds);
    var _ :- CheckList(s.consumedTags, ConsumedTags);
    var _ :- CheckList(s.createdTags, CreatedTags);
    var _ :- CheckList(s.factTags, FactTags);
    if s.deltaRows != Sort(RowLess, NonzeroRows(s.deltaRows)) then Err(DeltaRowsNotNormal)
    else if |Elements(Keys(s.deltaRows))| != |s.deltaRows| then Err(DuplicateDeltaRow)
    else if Elements(s.consumedTags) * Elements(s.createdTags) != {} then Err(ConsumedCreatedCollide)
    else
      var coverage :- Coverage(s.consumedTags + s.createdTags, s.factTags);
      if coverage.decision != Accept then Err(InexactCoverage)
      else if s.contextHash == "" || s.basisRoot == "" || s.profileId == "" then Err(EmptyBinding)
      else Ok(s)
  }

  /** What every constructed summary satisfies. */
  ghost predicate WellFormed(s: Summary) {
    && Ascending(TextLess, s.actionIds)
    && Ascending(TextLess, s.consumedTags)
    && Ascending(TextLess, s.createdTags)
    && Ascending(TextLess, s.factTags)
    && Normal(s.deltaRows)
    && Elements(s.consumedTags) !! Elements(s.createdTags)
    && Elements(s.factTags) == Elements(s.consumedTags) + Elements(s.createdTags)
    && s.contextHash != "" && s.basisRoot != "" && s.profileId != ""
  }

  lemma CheckListAccepts(values: seq<string>, list: ListName)
    ensures CheckList(values, list).Ok? <==> Ascending(TextLess, values)
  {
    TextIsStrictTotal();
    SortFixpoint(TextLess, values);
    DistinctCounts(values);
    AscendingIsSortedDistinct(TextLess, values);
  }

  lemma CheckRowsAccepts(rows: seq<Row>)
    ensures rows == Sort(RowLess, NonzeroRows(rows)) && |Elements(Keys(rows))| == |rows| <==> Normal(rows)
  {
    DistinctCounts(Keys(rows));
    if Normal(rows) {
      NormalRowsAreSorted(rows);
    } else if rows == Sort(RowLess, NonzeroRows(rows)) && Distinct(Keys(rows)) {
      SortedRowsAreNormal(rows);
    }
  }

  lemma CheckCoverageAccepts(consumed: seq<string>, created: seq<string>, facts: seq<string>)
    requires Distinct(consumed) && Distinct(created) && Distinct(facts)
    requires Elements(consumed) !! Elements(created)
    ensures Coverage(consumed + created, facts).Ok?
    ensures Coverage(consumed + created, facts).value.decision == Accept
            <==> Elements(facts) == Elements(consumed) + Elements(created)
  {
    var required := consumed + created;
    forall i, j | 0 <= i < j < |required| ensures required[i] != required[j] {
      if i < |consumed| <= j {
        assert consumed[i] in Elements(consumed) && created[j - |consumed|] in Elements(created);
      }
    }
    assert Elements(required) == Elements(consumed) + Elements(created);
    CoverageAcceptsPermutations(required, facts);
    DistinctCounts(facts);
    assert Repeated(facts) == {};
    if multiset(facts) == multiset(required) { SameElements(facts, required); }
  }

  lemma Disjoint<T>(a: set<T>, b: set<T>)
    ensures a * b == {} <==> a !! b
  {
    if x :| x in a && x in b { assert x in a * b; }
  }

  /** The constructor accepts exactly the well-formed summaries, and changes nothing. */
  lemma MakeAcceptsWellFormed(s: Summary)
    ensures Make(s).Ok? <==> WellFormed(s)
    ensures Make(s).Ok? ==> Make(s).value == s
  {
    CheckListAccepts(s.actionIds, ActionIds);
    CheckListAccepts(s.consumedTags, ConsumedTags);
    CheckListAccepts(s.createdTags, CreatedTags);
    CheckListAccepts(s.factTags, FactTags);
    CheckRowsAccepts(s.deltaRows);
    TextIsStrictTotal();
    Disjoint(Elements(s.consumedTags), Elements(s.createdTags));
    if Ascending(TextLess, s.consumedTags) && Ascending(TextLess, s.createdTags) && Ascending(TextLess, s.factTags)
       && Elements(s.consumedTags) !! Elements(s.createdTags)
    {
      AscendingIsSortedDistinct(TextLess, s.consumedTags);
      AscendingIsSortedDistinct(TextLess, s.createdTags);
      AscendingIsSortedDistinct(TextLess, s.factTags);
      CheckCoverageAccepts(s.consumedTags, s.createdTags, s.factTags);
    }
  }

  // ----- composition -----

  function Guards(a: Summary, b: Summary): Result<(), SummaryError> {
    if a.contextHash != b.contextHash then Err(ContextMismatch)
    else if a.basisRoot != b.basisRoot then Err(KindBasisMismatch)
    else if a.profileId != b.profileId then Err(ProfileMismatch)
    else if Elements(a.actionIds) * Elements(b.actionIds) != {} then Err(DuplicateAction)
    else if Elements(a.consumedTags) * Elements(b.consumedTags) != {} then Err(DuplicateConsumption)
    else if Elements(a.createdTags) * Elements(b.createdTags) != {} then Err(DuplicateCreation)
    else if Elements(a.factTags) * Elements(b.factTags) != {} then Err(DuplicateFact)
    else if (Elements(a.consumedTags) + Elements(a.createdTags)) * (Elements(b.consumedTags) + Elements(b.createdTags)) != {}
    then Err(CrossSummaryTagCollision)
    else Ok(())
  }

  function Joined(a: Summary, b: Summary): Summary {
    Summary(
      a.contextHash,
      a.basisRoot,
      a.profileId,
      Sort(TextLess, a.actionIds + b.actionIds),
      Sort(TextLess, a.consumedTags + b.consumedTags),
      Sort(TextLess, a.createdTags + b.createdTags),
      Sort(TextLess, a.factTags + b.factTags),
      Merge(a.deltaRows, b.deltaRows))
  }

  /** The result that `Compose` computes. */
  function Composition(a: Summary, b: Summary): Result<Summary, SummaryError> {
    var _ :- Guards(a, b);
    Make(Joined(a, b))
  }

  method Compose(a: Summary, b: Summary) returns (r: Result<Summary, SummaryError>)
    ensures r == Composition(a, b)
  {
    var guards := Guards(a, b);
    if guards.Err? {
      return Err(guards.error);
    }
    var rows := ToMap(a.deltaRows);
    for i := 0 to |b.deltaRows|
      invariant rows == Accumulate(ToMap(a.deltaRows), b.deltaRows[..i])
    {
      var (kind, value) := b.deltaRows[i];
      assert b.deltaRows[..i + 1][..i] == b.deltaRows[..i];
      rows := rows[kind := Get(rows, kind) + value];
    }
    assert b.deltaRows[..|b.deltaRows|] == b.deltaRows;
    return Make(Summary(
      a.contextHash,
      a.basisRoot,
      a.profileId,
      Sort(TextLess, a.actionIds + b.actionIds),
      Sort(TextLess, a.consumedTags + b.consumedTags),
      Sort(TextLess, a.createdTags + b.createdTags),
      Sort(TextLess, a.factTags + b.factTags),
      FromMap(rows)));
  }

  /** Same authority bindings, no shared action, no shared resource tag. */
  ghost predicate Compatible(a: Summary, b: Summary) {
    && a.contextHash == b.contextHash
    && a.basisRoot == b.basisRoot
    && a.profileId == b.profileId
    && Elements(a.actionIds) !! Elements(b.actionIds)
    && Elements(a.factTags) !! Elements(b.factTags)
  }

  lemma JoinLists(a: seq<string>, b: seq<string>)
    requires Ascending(TextLess, a) && Ascending(TextLess, b) && Elements(a) !! Elements(b)
    ensures Ascending(TextLess, Sort(TextLess, a + b))
    ensures Elements(Sort(TextLess, a + b)) == Elements(a) + Elements(b)
  {
    TextIsStrictTotal();
    AscendingIsSortedDistinct(TextLess, a);
    AscendingIsSortedDistinct(TextLess, b);
    var both := a + b;
    forall i, j | 0 <= i < j < |both| ensures both[i] != both[j] {
      if i < |a| <= j { assert a[i] in Elements(a) && b[j - |a|] in Elements(b); }
    }
    SortDistinct(TextLess, both);
    assert Elements(both) == Elements(a) + Elements(b);
  }

  /** The joined summary is well formed, so once the guards pass the constructor cannot reject. */
  lemma JoinedWellFormed(a: Summary, b: Summary)
    requires WellFormed(a) && WellFormed(b) && Compatible(a, b)
    ensures WellFormed(Joined(a, b))
    ensures var r := Joined(a, b);
            && Elements(r.actionIds) == Elements(a.actionIds) + Elements(b.actionIds)
            && Elements(r.consumedTags) == Elements(a.consumedTags) + Elements(b.consumedTags)
            && Elements(r.createdTags) == Elements(a.createdTags) + Elements(b.createdTags)
            && Elements(r.factTags) == Elements(a.factTags) + Elements(b.factTags)
            && forall k :: Total(r.deltaRows, k) == Total(a.deltaRows, k) + Total(b.deltaRows, k)
  {
    JoinLists(a.actionIds, b.actionIds);
    JoinLists(a.consumedTags, b.consumedTags);
    JoinLists(a.createdTags, b.createdTags);
    JoinLists(a.factTags, b.factTags);
    MergeTotals(a.deltaRows, b.deltaRows);
  }

  lemma GuardsPass(a: Summary, b: Summary)
    requires WellFormed(a) && WellFormed(b)
    ensures Guards(a, b).Ok? <==> Compatible(a, b)
    ensures Guards(a, b).Err? ==> IsGuardError(Guards(a, b).error)
  {
    Disjoint(Elements(a.actionIds), Elements(b.actionIds));
    Disjoint(Elements(a.consumedTags), Elements(b.consumedTags));
    Disjoint(Elements(a.createdTags), Elements(b.createdTags));
    Disjoint(Elements(a.factTags), Elements(b.factTags));
    assert Elements(a.consumedTags) <= Elements(a.factTags) && Elements(b.consumedTags) <= Elements(b.factTags);
    assert Elements(a.createdTags) <= Elements(a.factTags) && Elements(b.createdTags) <= Elements(b.factTags);
  }

  predicate IsGuardError(e: SummaryError) {
    || e == ContextMismatch || e == KindBasisMismatch || e == ProfileMismatch
    || e == DuplicateAction || e == DuplicateConsumption || e == DuplicateCreation || e == DuplicateFact
  }

  /**
   Composition of constructed summaries succeeds iff they are compatible, and then is their
   join. The constructor never rejects, and the cross-summary tag guard never fires: an
   earlier duplicate-fact guard has always caught the collision.
   */
  lemma CompositionSucceeds(a: Summary, b: Summary)
    requires WellFormed(a) && WellFormed(b)
    ensures Composition(a, b).Ok? <==> Compatible(a, b)
    ensures Composition(a, b).Ok? ==> Composition(a, b).value == Joined(a, b)
    ensures Composition(a, b).Err? ==> IsGuardError(Composition(a, b).error)
  {
    GuardsPass(a, b);
    if Compatible(a, b) {
      JoinedWellFormed(a, b);
      MakeAcceptsWellFormed(Joined(a, b));
    }
  }

  // ----- composition trees -----

  datatype Tree = Leaf(summary: Summary) | Node(left: Tree, right: Tree)

  function Leaves(t: Tree): (leaves: seq<Summary>)
    ensures leaves != []
  {
    match t
    case Leaf(s) => [s]
    case Node(l, r) => Leaves(l) + Leaves(r)
  }

  function Evaluate(t: Tree): Result<Summary, SummaryError> {
    match t
    case Leaf(s) => Ok(s)
    case Node(l, r) =>
      var left :- Evaluate(l);
      var right :- Evaluate(r);
      Composition(left, right)
  }

  ghost predicate AllWellFormed(parts: seq<Summary>) {
    forall s :: s in parts ==> WellFormed(s)
  }

  ghost predicate PairwiseCompatible(parts: seq<Summary>) {
    forall i, j :: 0 <= i < j < |parts| ==> Compatible(parts[i], parts[j])
  }

  ghost function SumOfTotals(parts: seq<Summary>, kind: string): int {
    if parts == [] then 0
    else SumOfTotals(parts[..|parts| - 1], kind) + Total(parts[|parts| - 1].deltaRows, kind)
  }

  ghost predicate InSomeActions(parts: seq<Summary>, x: string) {
    exists p :: p in parts && x in p.actionIds
  }

  ghost predicate InSomeConsumed(parts: seq<Summary>, x: string) {
    exists p :: p in parts && x in p.consumedTags
  }

  ghost predicate InSomeCreated(parts: seq<Summary>, x: string) {
    exists p :: p in parts && x in p.createdTags
  }

  /** `s` is the collected content of `parts`: bindings shared, lists united, rows summed kind by kind. */
  ghost predicate Collects(s: Summary, parts: seq<Summary>) {
    && WellFormed(s)
    && (forall p :: p in parts ==> p.contextHash == s.contextHash && p.basisRoot == s.basisRoot && p.profileId == s.profileId)
    && (forall x :: x in s.actionIds <==> InSomeActions(parts, x))
    && (forall x :: x in s.consumedTags <==> InSomeConsumed(parts, x))
    && (forall x :: x in s.createdTags <==> InSomeCreated(parts, x))
    && (forall k :: Total(s.deltaRows, k) == SumOfTotals(parts, k))
  }

  lemma {:induction false} SumOfTotalsSplit(a: seq<Summary>, b: seq<Summary>, kind: string)
    ensures SumOfTotals(a + b, kind) == SumOfTotals(a, kind) + SumOfTotals(b, kind)
  {
    if b == [] {
      assert a + b == a;
    } else {
      var n := |b| - 1;
      SumOfTotalsSplit(a, b[..n], kind);
      assert (a + b)[..|a| + n] == a + b[..n];
    }
  }

  lemma CollectsOne(s: Summary)
    requires WellFormed(s)
    ensures Collects(s, [s])
  {
    assert [s][..0] == [];
    forall k ensures Total(s.deltaRows, k) == SumOfTotals([s], k) { }
    assert s in [s];
  }

  lemma CollectsJoin(a: Summary, b: Summary, left: seq<Summary>, right: seq<Summary>)
    requires Collects(a, left) && Collects(b, right) && Compatible(a, b)
    ensures Collects(Joined(a, b), left + right)
  {
    var r := Joined(a, b);
    var all := left + right;
    JoinedWellFormed(a, b);
    assert forall p :: p in all <==> p in left || p in right;
    forall x ensures x in r.actionIds <==> InSomeActions(all, x) {
      assert x in Elements(r.actionIds) <==> x in Elements(a.actionIds) || x in Elements(b.actionIds);
    }
    forall x ensures x in r.consumedTags <==> InSomeConsumed(all, x) {
      assert x in Elements(r.consumedTags) <==> x in Elements(a.consumedTags) || x in Elements(b.consumedTags);
    }
    forall x ensures x in r.createdTags <==> InSomeCreated(all, x) {
      assert x in Elements(r.createdTags) <==> x in Elements(a.createdTags) || x in Elements(b.createdTags);
    }
    forall k ensures Total(r.deltaRows, k) == SumOfTotals(all, k) { SumOfTotalsSplit(left, right, k); }
  }

  ghost predicate CrossCompatible(left: seq<Summary>, right: seq<Summary>) {
    forall p, q :: p in left && q in right ==> Compatible(p, q)
  }

  /** Two collected summaries are compatible iff all their parts are, crosswise. */
  lemma CollectedCompatible(a: Summary, b: Summary, left: seq<Summary>, right: seq<Summary>)
    requires Collects(a, left) && Collects(b, right) && left != [] && right != []
    requires AllWellFormed(left) && AllWellFormed(right)
    ensures Compatible(a, b) <==> CrossCompatible(left, right)
  {
    if Compatible(a, b) {
      forall p, q | p in left && q in right ensures Compatible(p, q) {
        PartContained(a, left, p);
        PartContained(b, right, q);
      }
    }
    if !Compatible(a, b) {
      if x :| x in a.actionIds && x in b.actionIds {
        assert InSomeActions(left, x) && InSomeActions(right, x);
        var p :| p in left && x in p.actionIds;
        var q :| q in right && x in q.actionIds;
        assert x in Elements(p.actionIds) && x in Elements(q.actionIds);
        assert !Compatible(p, q);
      } else if x :| x in a.factTags && x in b.factTags {
        var p := PartWithFact(a, left, x);
        var q := PartWithFact(b, right, x);
        assert x in Elements(p.factTags) && x in Elements(q.factTags);
        assert !Compatible(p, q);
      } else {
        assert !Compatible(left[0], right[0]);
      }
    }
  }

  lemma PartContained(s: Summary, parts: seq<Summary>, p: Summary)
    requires Collects(s, parts) && p in parts && WellFormed(p)
    ensures Elements(p.actionIds) <= Elements(s.actionIds)
    ensures Elements(p.factTags) <= Elements(s.factTags)
  {
    forall x | x in p.actionIds ensures x in s.actionIds { assert InSomeActions(parts, x); }
    forall x | x in p.factTags ensures x in s.factTags {
      assert x in Elements(p.factTags);
      assert InSomeConsumed(parts, x) || InSomeCreated(parts, x);
      assert x in Elements(s.consumedTags) + Elements(s.createdTags);
      assert x in Elements(s.factTags);
    }
  }

  lemma PartWithFact(s: Summary, parts: seq<Summary>, x: string) returns (p: Summary)
    requires Collects(s, parts) && AllWellFormed(parts) && x in s.factTags
    ensures p in parts && x in p.factTags
  {
    assert x in Elements(s.factTags);
    if x in s.consumedTags {
      assert InSomeConsumed(parts, x);
      p :| p in parts && x in p.consumedTags;
      assert x in Elements(p.consumedTags);
    } else {
      assert InSomeCreated(parts, x);
      p :| p in parts && x in p.createdTags;
      assert x in Elements(p.createdTags);
    }
    assert x in Elements(p.factTags);
  }

  lemma PairwiseOfConcat(left: seq<Summary>, right: seq<Summary>)
    ensures PairwiseCompatible(left + right)
            <==> PairwiseCompatible(left) && PairwiseCompatible(right) && CrossCompatible(left, right)
  {
    var all := left + right;
    if PairwiseCompatible(all) {
      forall i, j | 0 <= i < j < |left| ensures Compatible(left[i], left[j]) { assert Compatible(all[i], all[j]); }
      forall i, j | 0 <= i < j < |right| ensures Compatible(right[i], right[j]) {
        assert Compatible(all[|left| + i], all[|left| + j]);
      }
      forall p, q | p in left && q in right ensures Compatible(p, q) {
        var i :| 0 <= i < |left| && left[i] == p;
        var j :| 0 <= j < |right| && right[j] == q;
        assert Compatible(all[i], all[|left| + j]);
      }
    }
  }

  /** A tree succeeds iff its leaves are pairwise compatible; its value then collects the leaves. */
  lemma {:induction false} TreeSucceeds(t: Tree)
    requires AllWellFormed(Leaves(t))
    ensures Evaluate(t).Ok? <==> PairwiseCompatible(Leaves(t))
    ensures Evaluate(t).Ok? ==> Collects(Evaluate(t).value, Leaves(t))
  {
    match t
    case Leaf(s) =>
      assert s in Leaves(t);
      CollectsOne(s);
    case Node(l, r) =>
      assert forall p :: p in Leaves(l) || p in Leaves(r) ==> p in Leaves(t);
      TreeSucceeds(l);
      TreeSucceeds(r);
      PairwiseOfConcat(Leaves(l), Leaves(r));
      if Evaluate(l).Ok? && Evaluate(r).Ok? {
        var a, b := Evaluate(l).value, Evaluate(r).value;
        CollectedCompatible(a, b, Leaves(l), Leaves(r));
        CompositionSucceeds(a, b);
        if Compatible(a, b) { CollectsJoin(a, b, Leaves(l), Leaves(r)); }
      }
  }

  // ----- independence of order -----

  lemma RemoveOne<T>(s: seq<T>, i: nat)
    requires i < |s|
    ensures multiset(s[..i] + s[i + 1..]) == multiset(s) - multiset{s[i]}
  {
    assert s == s[..i] + [s[i]] + s[i + 1..];
  }

  lemma SumOfTotalsRemove(parts: seq<Summary>, i: nat, kind: string)
    requires i < |parts|
    ensures SumOfTotals(parts, kind) == SumOfTotals(parts[..i] + parts[i + 1..], kind) + Total(parts[i].deltaRows, kind)
  {
    var before, after := parts[..i], parts[i + 1..];
    assert parts == (before + [parts[i]]) + after;
    SumOfTotalsSplit(before + [parts[i]], after, kind);
    SumOfTotalsSplit(before, after, kind);
    assert (before + [parts[i]])[..i] == before;
  }

  lemma SumOfTotalsReplace(a: seq<Summary>, b: seq<Summary>, i: nat, j: nat, kind: string)
    requires i < |a| && j < |b| && a[i] == b[j]
    requires SumOfTotals(a[..i] + a[i + 1..], kind) == SumOfTotals(b[..j] + b[j + 1..], kind)
    ensures SumOfTotals(a, kind) == SumOfTotals(b, kind)
  {
    SumOfTotalsRemove(a, i, kind);
    SumOfTotalsRemove(b, j, kind);
  }

  lemma HeadPlace<T>(a: seq<T>, b: seq<T>) returns (i: nat)
    requires multiset(a) == multiset(b) && a != []
    ensures i < |b| && b[i] == a[0]
    ensures multiset(a[..0] + a[1..]) == multiset(b[..i] + b[i + 1..])
  {
    assert a[0] in multiset(b);
    i :| i < |b| && b[i] == a[0];
    RemoveOne(a, 0);
    RemoveOne(b, i);
  }

  lemma {:induction false} SumOfTotalsPermutes(a: seq<Summary>, b: seq<Summary>, kind: string)
    requires multiset(a) == multiset(b)
    ensures SumOfTotals(a, kind) == SumOfTotals(b, kind)
    decreases |a|
  {
    SameElements(a, b);
    if a != [] {
      var i := HeadPlace(a, b);
      SumOfTotalsPermutes(a[..0] + a[1..], b[..i] + b[i + 1..], kind);
      SumOfTotalsReplace(a, b, 0, i, kind);
    }
  }

  /** Pairwise compatibility, stated on the bag of parts. */
  ghost predicate CompatibleBag(bag: multiset<Summary>) {
    forall p, q :: p in bag && q in bag && (p == q ==> bag[p] >= 2) ==> Compatible(p, q)
  }

  lemma TwoPlaces<T>(s: seq<T>, x: T)
    requires multiset(s)[x] >= 2
    ensures exists i, j :: 0 <= i < j < |s| && s[i] == x && s[j] == x
  {
    assert x in multiset(s);
    var i :| 0 <= i < |s| && s[i] == x;
    var rest := s[..i] + s[i + 1..];
    RemoveOne(s, i);
    assert x in multiset(rest);
    var k :| 0 <= k < |rest| && rest[k] == x;
    var j := if k < i then k else k + 1;
    assert s[j] == x && j != i;
  }

  lemma CountedTwice<T>(s: seq<T>, i: nat, j: nat)
    requires i < j < |s| && s[i] == s[j]
    ensures multiset(s)[s[i]] >= 2
  {
    assert s == s[..j] + s[j..];
    assert s[..j][i] == s[i] && s[j..][0] == s[i];
    assert s[i] in multiset(s[..j]) && s[i] in multiset(s[j..]);
  }

  lemma PairwiseIffBag(parts: seq<Summary>)
    ensures PairwiseCompatible(parts) <==> CompatibleBag(multiset(parts))
  {
    var bag := multiset(parts);
    if PairwiseCompatible(parts) {
      forall p, q | p in bag && q in bag && (p == q ==> bag[p] >= 2) ensures Compatible(p, q) {
        if p == q {
          TwoPlaces(parts, p);
        } else {
          var i :| 0 <= i < |parts| && parts[i] == p;
          var j :| 0 <= j < |parts| && parts[j] == q;
        }
      }
    }
    if CompatibleBag(bag) {
      forall i, j | 0 <= i < j < |parts| ensures Compatible(parts[i], parts[j]) {
        assert parts[i] in bag && parts[j] in bag;
        if parts[i] == parts[j] { CountedTwice(parts, i, j); }
      }
    }
  }

  /** Collected content determines the summary. */
  lemma CollectsUnique(s: Summary, t: Summary, a: seq<Summary>, b: seq<Summary>)
    requires Collects(s, a) && Collects(t, b) && a != [] && multiset(a) == multiset(b)
    ensures s == t
  {
    SameElements(a, b);
    TextIsStrictTotal();
    assert forall p :: p in a <==> p in Elements(a);
    assert forall p :: p in b <==> p in Elements(b);
    assert a[0] in b;
    assert Elements(s.actionIds) == Elements(t.actionIds) by {
      forall x ensures x in s.actionIds <==> x in t.actionIds { assert InSomeActions(a, x) <==> InSomeActions(b, x); }
    }
    assert Elements(s.consumedTags) == Elements(t.consumedTags) by {
      forall x ensures x in s.consumedTags <==> x in t.consumedTags { assert InSomeConsumed(a, x) <==> InSomeConsumed(b, x); }
    }
    assert Elements(s.createdTags) == Elements(t.createdTags) by {
      forall x ensures x in s.createdTags <==> x in t.createdTags { assert InSomeCreated(a, x) <==> InSomeCreated(b, x); }
    }
    AscendingUnique(TextLess, s.actionIds, t.actionIds);
    AscendingUnique(TextLess, s.consumedTags, t.consumedTags);
    AscendingUnique(TextLess, s.createdTags, t.createdTags);
    AscendingUnique(TextLess, s.factTags, t.factTags);
    forall k ensures Total(s.deltaRows, k) == Total(t.deltaRows, k) { SumOfTotalsPermutes(a, b, k); }
    NormalExtensional(s.deltaRows, t.deltaRows);
  }

  /**
   Bracketing and order do not matter. Any two composition trees over the same bag of
   constructed summaries succeed together, exactly when the summaries are pairwise compatible,
   and then produce the identical summary.
   */
  lemma AnyBracketingAnyOrder(t: Tree, u: Tree)
    requires AllWellFormed(Leaves(t)) && multiset(Leaves(t)) == multiset(Leaves(u))
    ensures Evaluate(t).Ok? <==> PairwiseCompatible(Leaves(t))
    ensures Evaluate(t).Ok? <==> Evaluate(u).Ok?
    ensures Evaluate(t).Ok? ==> Evaluate(t) == Evaluate(u)
  {
    SameElements(Leaves(t), Leaves(u));
    forall p | p in Leaves(u) ensures WellFormed(p) { assert p in Elements(Leaves(t)); }
    TreeSucceeds(t);
    TreeSucceeds(u);
    PairwiseIffBag(Leaves(t));
    PairwiseIffBag(Leaves(u));
    if Evaluate(t).Ok? {
      CollectsUnique(Evaluate(t).value, Evaluate(u).value, Leaves(t), Leaves(u));
    }
  }

  /** Conservation: each kind's row is the sum over the leaves, and is absent exactly when that sum is zero. */
  lemma TreeConservesDelta(t: Tree, kind: string)
    requires AllWellFormed(Leaves(t)) && Evaluate(t).Ok?
    ensures Total(Evaluate(t).value.deltaRows, kind) == SumOfTotals(Leaves(t), kind)
    ensures kind in Keys(Evaluate(t).value.deltaRows) <==> SumOfTotals(Leaves(t), kind) != 0
  {
    TreeSucceeds(t);
    NormalTotals(Evaluate(t).value.deltaRows);
  }
}
