/**
 Formal linear combinations over independent symbols, kind bases that map resource kinds to
 them, and the transaction delta equation whose known multiple of the generator is the
 binding key.
 */
module LinearPoints {
  import opened Outcomes
  import opened Ordering
  import opened Rows

  const GENERATOR := "G"
  const KIND_PREFIX := "K:"

  datatype FrontierError =
    | DuplicateSymbol
    | NotNormalized
    | EmptyProfile
    | UnsortedKinds
    | DuplicateKinds
    | UnknownKind(kind: string)
    | EmptyProofId
    | NoncanonicalBasis

  // ----- points -----

  datatype LinearPoint = LinearPoint(coefficients: seq<Row>) {

    /** What the constructor establishes. */
    predicate Valid() {
      Normal(coefficients)
    }

    static function Make(coefficients: seq<Row>): Result<LinearPoint, FrontierError> {
      var normalized := Sort(RowLess, NonzeroRows(coefficients));
      if |Elements(Keys(normalized))| != |normalized| then Err(DuplicateSymbol)
      else if normalized != coefficients then Err(NotNormalized)
      else Ok(LinearPoint(coefficients))
    }

    static function FromMapping(values: map<string, int>): LinearPoint {
      LinearPoint(FromMap(values))
    }

    static function Basis(symbol: string, coefficient: int): LinearPoint {
      FromMapping(map[symbol := coefficient])
    }

    static function Zero(): LinearPoint {
      LinearPoint([])
    }

    function Coefficient(symbol: string): int {
      Get(ToMap(coefficients), symbol)
    }

    /** The point that `Add` computes. */
    function Plus(other: LinearPoint): LinearPoint {
      LinearPoint(Merge(coefficients, other.coefficients))
    }

    method Add(other: LinearPoint) returns (sum: LinearPoint)
      ensures sum == Plus(other)
    {
      var result := ToMap(coefficients);
      for i := 0 to |other.coefficients|
        invariant result == Accumulate(ToMap(coefficients), other.coefficients[..i])
      {
        var (symbol, coefficient) := other.coefficients[i];
        assert other.coefficients[..i + 1][..i] == other.coefficients[..i];
        result := result[symbol := Get(result, symbol) + coefficient];
      }
      assert other.coefficients[..|other.coefficients|] == other.coefficients;
      return FromMapping(result);
    }

    function Scale(scalar: int): LinearPoint {
      var m := ToMap(coefficients);
      FromMapping(map symbol | symbol in m :: m[symbol] * scalar)
    }

    predicate IsKnownGeneratorMultiple() {
      forall i :: 0 <= i < |coefficients| ==> coefficients[i].0 == GENERATOR
    }

    function KnownGeneratorScalar(): Option<int> {
      if IsKnownGeneratorMultiple() then Some(Coefficient(GENERATOR)) else None
    }
  }

  /** The constructor accepts exactly the normal coefficient lists. */
  lemma MakeAcceptsNormal(coefficients: seq<Row>)
    ensures LinearPoint.Make(coefficients).Ok? <==> Normal(coefficients)
    ensures LinearPoint.Make(coefficients).Ok? ==> LinearPoint.Make(coefficients).value.coefficients == coefficients
  {
    DistinctCounts(Keys(coefficients));
    if Normal(coefficients) {
      NormalRowsAreSorted(coefficients);
    } else if LinearPoint.Make(coefficients).Ok? {
      SortedRowsAreNormal(coefficients);
    }
  }

  lemma PointTotals(p: LinearPoint)
    requires p.Valid()
    ensures forall s :: p.Coefficient(s) == Total(p.coefficients, s)
  {
    NormalTotals(p.coefficients);
  }

  lemma FromMappingCoefficients(values: map<string, int>)
    ensures LinearPoint.FromMapping(values).Valid()
    ensures forall s :: LinearPoint.FromMapping(values).Coefficient(s) == Get(values, s)
  {
    FromMapProperties(values);
    PointTotals(LinearPoint.FromMapping(values));
  }

  lemma PlusCoefficients(p: LinearPoint, q: LinearPoint)
    requires p.Valid() && q.Valid()
    ensures p.Plus(q).Valid()
    ensures forall s :: p.Plus(q).Coefficient(s) == p.Coefficient(s) + q.Coefficient(s)
  {
    MergeTotals(p.coefficients, q.coefficients);
    PointTotals(p);
    PointTotals(q);
    PointTotals(p.Plus(q));
  }

  lemma ScaleCoefficients(p: LinearPoint, scalar: int)
    requires p.Valid()
    ensures p.Scale(scalar).Valid()
    ensures forall s :: p.Scale(scalar).Coefficient(s) == p.Coefficient(s) * scalar
  {
    var m := ToMap(p.coefficients);
    var scaled := map symbol | symbol in m :: m[symbol] * scalar;
    FromMappingCoefficients(scaled);
    forall s ensures Get(scaled, s) == p.Coefficient(s) * scalar { }
  }

  /** Equality of points is equality of coefficients. */
  lemma PointExtensional(p: LinearPoint, q: LinearPoint)
    requires p.Valid() && q.Valid()
    requires forall s :: p.Coefficient(s) == q.Coefficient(s)
    ensures p == q
  {
    PointTotals(p);
    PointTotals(q);
    forall k ensures Total(p.coefficients, k) == Total(q.coefficients, k) {
      assert p.Coefficient(k) == q.Coefficient(k);
    }
    NormalExtensional(p.coefficients, q.coefficients);
  }

  lemma PlusCommutes(p: LinearPoint, q: LinearPoint)
    requires p.Valid() && q.Valid()
    ensures p.Plus(q) == q.Plus(p)
  {
    PlusCoefficients(p, q);
    PlusCoefficients(q, p);
    PointExtensional(p.Plus(q), q.Plus(p));
  }

  lemma PlusAssociates(p: LinearPoint, q: LinearPoint, r: LinearPoint)
    requires p.Valid() && q.Valid() && r.Valid()
    ensures p.Plus(q).Plus(r) == p.Plus(q.Plus(r))
  {
    PlusCoefficients(p, q);
    PlusCoefficients(q, r);
    PlusCoefficients(p.Plus(q), r);
    PlusCoefficients(p, q.Plus(r));
    PointExtensional(p.Plus(q).Plus(r), p.Plus(q.Plus(r)));
  }

  lemma ZeroIsNeutral(p: LinearPoint)
    requires p.Valid()
    ensures LinearPoint.Zero().Valid() && p.Plus(LinearPoint.Zero()) == p
  {
    var zero := LinearPoint.Zero();
    PlusCoefficients(p, zero);
    PointExtensional(p.Plus(zero), p);
  }

  lemma NegationCancels(p: LinearPoint)
    requires p.Valid()
    ensures p.Scale(-1).Valid() && p.Plus(p.Scale(-1)) == LinearPoint.Zero()
  {
    ScaleCoefficients(p, -1);
    PlusCoefficients(p, p.Scale(-1));
    PointExtensional(p.Plus(p.Scale(-1)), LinearPoint.Zero());
  }

  /** Normalised points are a commutative group under addition, with structural equality. */
  lemma PointsFormCommutativeGroup(p: LinearPoint, q: LinearPoint, r: LinearPoint)
    requires p.Valid() && q.Valid() && r.Valid()
    ensures p.Plus(q).Valid() && LinearPoint.Zero().Valid() && p.Scale(-1).Valid()
    ensures p.Plus(q) == q.Plus(p)
    ensures p.Plus(q).Plus(r) == p.Plus(q.Plus(r))
    ensures p.Plus(LinearPoint.Zero()) == p
    ensures p.Plus(p.Scale(-1)) == LinearPoint.Zero()
  {
    PlusCoefficients(p, q);
    PlusCommutes(p, q);
    PlusAssociates(p, q, r);
    ZeroIsNeutral(p);
    NegationCancels(p);
  }

  /** Scaling distributes over both additions, composes, and has unit one. */
  lemma ScalingIsLinear(p: LinearPoint, q: LinearPoint, a: int, b: int)
    requires p.Valid() && q.Valid()
    ensures p.Plus(q).Scale(a) == p.Scale(a).Plus(q.Scale(a))
    ensures p.Scale(a + b) == p.Scale(a).Plus(p.Scale(b))
    ensures p.Scale(a).Scale(b) == p.Scale(a * b)
    ensures p.Scale(1) == p
  {
    ScalingOverPoints(p, q, a);
    ScalingOverScalars(p, a, b);
    ScalingComposes(p, a, b);
    ScaleCoefficients(p, 1);
    PointExtensional(p.Scale(1), p);
  }

  lemma PlusAt(p: LinearPoint, q: LinearPoint, s: string)
    requires p.Valid() && q.Valid()
    ensures p.Plus(q).Valid() && p.Plus(q).Coefficient(s) == p.Coefficient(s) + q.Coefficient(s)
  {
    PlusCoefficients(p, q);
  }

  lemma ScaleAt(p: LinearPoint, a: int, s: string)
    requires p.Valid()
    ensures p.Scale(a).Valid() && p.Scale(a).Coefficient(s) == p.Coefficient(s) * a
  {
    ScaleCoefficients(p, a);
  }

  lemma ScaledSumAt(p: LinearPoint, q: LinearPoint, a: int, s: string)
    requires p.Valid() && q.Valid()
    ensures p.Plus(q).Scale(a).Valid()
    ensures p.Plus(q).Scale(a).Coefficient(s) == p.Coefficient(s) * a + q.Coefficient(s) * a
  {
    PlusAt(p, q, s);
    ScaleAt(p.Plus(q), a, s);
    Distribute(p.Coefficient(s), q.Coefficient(s), a);
  }

  lemma ScaledBySumAt(p: LinearPoint, a: int, b: int, s: string)
    requires p.Valid()
    ensures p.Scale(a + b).Valid() && p.Scale(a + b).Coefficient(s) == p.Coefficient(s) * a + p.Coefficient(s) * b
  {
    ScaleAt(p, a + b, s);
    Distribute(a, b, p.Coefficient(s));
  }

  lemma SummedScalesAt(p: LinearPoint, q: LinearPoint, a: int, b: int, s: string)
    requires p.Valid() && q.Valid()
    ensures p.Scale(a).Plus(q.Scale(b)).Valid()
    ensures p.Scale(a).Plus(q.Scale(b)).Coefficient(s) == p.Coefficient(s) * a + q.Coefficient(s) * b
  {
    ScaleAt(p, a, s);
    ScaleAt(q, b, s);
    PlusAt(p.Scale(a), q.Scale(b), s);
  }

  lemma ScalingOverPoints(p: LinearPoint, q: LinearPoint, a: int)
    requires p.Valid() && q.Valid()
    ensures p.Plus(q).Scale(a) == p.Scale(a).Plus(q.Scale(a))
  {
    var left, right := p.Plus(q).Scale(a), p.Scale(a).Plus(q.Scale(a));
    ScaledSumAt(p, q, a, GENERATOR);
    SummedScalesAt(p, q, a, a, GENERATOR);
    forall s ensures left.Coefficient(s) == right.Coefficient(s) {
      ScaledSumAt(p, q, a, s);
      SummedScalesAt(p, q, a, a, s);
    }
    PointExtensional(left, right);
  }

  lemma ScalingOverScalars(p: LinearPoint, a: int, b: int)
    requires p.Valid()
    ensures p.Scale(a + b) == p.Scale(a).Plus(p.Scale(b))
  {
    var left, right := p.Scale(a + b), p.Scale(a).Plus(p.Scale(b));
    ScaledBySumAt(p, a, b, GENERATOR);
    SummedScalesAt(p, p, a, b, GENERATOR);
    forall s ensures left.Coefficient(s) == right.Coefficient(s) {
      ScaledBySumAt(p, a, b, s);
      SummedScalesAt(p, p, a, b, s);
    }
    PointExtensional(left, right);
  }

  lemma ScalingComposes(p: LinearPoint, a: int, b: int)
    requires p.Valid()
    ensures p.Scale(a).Scale(b) == p.Scale(a * b)
  {
    var left, right := p.Scale(a).Scale(b), p.Scale(a * b);
    ScaleCoefficients(p, a);
    ScaleCoefficients(p.Scale(a), b);
    ScaleCoefficients(p, a * b);
    forall s ensures left.Coefficient(s) == right.Coefficient(s) {
      MultiplyAssociates(p.Coefficient(s), a, b);
    }
    PointExtensional(left, right);
  }

  lemma Distribute(x: int, y: int, a: int)
    ensures (x + y) * a == x * a + y * a
    ensures a * (x + y) == a * x + a * y
  {
  }

  lemma MultiplyAssociates(x: int, a: int, b: int)
    ensures x * a * b == x * (a * b)
  {
  }

  // ----- kind bases -----

  type Entry = (string, LinearPoint)

  function Kinds(entries: seq<Entry>): (kinds: seq<string>)
    ensures |kinds| == |entries| && forall i :: 0 <= i < |entries| ==> kinds[i] == entries[i].0
  {
    seq(|entries|, i requires 0 <= i < |entries| => entries[i].0)
  }

  function PointFor(entries: seq<Entry>, kind: string): Result<LinearPoint, FrontierError> {
    if entries == [] then Err(UnknownKind(kind))
    else if entries[0].0 == kind then Ok(entries[0].1)
    else PointFor(entries[1..], kind)
  }

  /** Each kind with its scalar times the generator. */
  function KnownEntries(kinds: seq<string>, known: map<string, int>): seq<Entry>
    requires Elements(kinds) <= known.Keys
  {
    assert forall i :: 0 <= i < |kinds| ==> kinds[i] in Elements(kinds);
    seq(|kinds|, i requires 0 <= i < |kinds| => (kinds[i], LinearPoint.Basis(GENERATOR, known[kinds[i]])))
  }

  /** Each kind with one and the same symbol. */
  function SharedEntries(kinds: seq<string>, symbol: string): seq<Entry> {
    seq(|kinds|, i requires 0 <= i < |kinds| => (kinds[i], LinearPoint.Basis(symbol, 1)))
  }

  datatype KindBasis = KindBasis(profileId: string, entries: seq<Entry>, authenticated: bool) {

    predicate Valid() {
      && profileId != ""
      && Ascending(TextLess, Kinds(entries))
      && forall i :: 0 <= i < |entries| ==> entries[i].1.Valid()
    }

    static function Make(profileId: string, entries: seq<Entry>, authenticated: bool): Result<KindBasis, FrontierError> {
      var kinds := Kinds(entries);
      if profileId == "" then Err(EmptyProfile)
      else if kinds != Sort(TextLess, kinds) then Err(UnsortedKinds)
      else if |kinds| != |Elements(kinds)| then Err(DuplicateKinds)
      else Ok(KindBasis(profileId, entries, authenticated))
    }

    static function Honest(kinds: set<string>, profileId: string): Result<KindBasis, FrontierError> {
      var unique := SortedSet(kinds);
      Make(profileId,
           seq(|unique|, i requires 0 <= i < |unique| => (unique[i], LinearPoint.Basis(KIND_PREFIX + unique[i], 1))),
           true)
    }

    static function MaliciousKnownScalars(known: map<string, int>, profileId: string): Result<KindBasis, FrontierError> {
      Make(profileId, KnownEntries(SortedSet(known.Keys), known), false)
    }

    static function MaliciousRelation(kinds: set<string>, sharedSymbol: string, profileId: string): Result<KindBasis, FrontierError> {
      Make(profileId, SharedEntries(SortedSet(kinds), sharedSymbol), false)
    }

    function Point(kind: string): Result<LinearPoint, FrontierError> {
      PointFor(entries, kind)
    }

    predicate MatchesCanonicalHashToCurve() {
      var expected := Honest(Elements(Kinds(entries)), profileId);
      authenticated && expected.Ok? && entries == expected.value.entries
    }

    /** The coefficient that one unit of `kind` contributes to `symbol`. */
    function Exposure(symbol: string): string -> int {
      kind => if Point(kind).Ok? then Point(kind).value.Coefficient(symbol) else 0
    }
  }

  lemma MakeBasisAccepts(profileId: string, entries: seq<Entry>, authenticated: bool)
    ensures KindBasis.Make(profileId, entries, authenticated).Ok?
            <==> profileId != "" && Ascending(TextLess, Kinds(entries))
  {
    TextIsStrictTotal();
    SortFixpoint(TextLess, Kinds(entries));
    DistinctCounts(Kinds(entries));
    AscendingIsSortedDistinct(TextLess, Kinds(entries));
  }

  /** Lookup finds exactly the listed kinds, and each listed kind's own point. */
  lemma {:induction false} PointForFinds(entries: seq<Entry>, kind: string)
    requires Distinct(Kinds(entries))
    ensures PointFor(entries, kind) == Err(UnknownKind(kind)) <==> kind !in Kinds(entries)
    ensures PointFor(entries, kind).Ok? <==> kind in Kinds(entries)
    ensures forall i :: 0 <= i < |entries| && entries[i].0 == kind ==> PointFor(entries, kind) == Ok(entries[i].1)
  {
    if entries != [] {
      assert Kinds(entries) == [entries[0].0] + Kinds(entries[1..]);
      PointForFinds(entries[1..], kind);
      forall i | 0 <= i < |entries| && entries[i].0 == kind
        ensures PointFor(entries, kind) == Ok(entries[i].1)
      {
        if i > 0 {
          assert Kinds(entries)[0] != Kinds(entries)[i];
          assert entries[i] == entries[1..][i - 1];
        }
      }
    }
  }

  lemma BasisLookup(basis: KindBasis, kind: string)
    requires basis.Valid()
    ensures basis.Point(kind).Ok? <==> kind in Kinds(basis.entries)
    ensures basis.Point(kind).Err? ==> basis.Point(kind) == Err(UnknownKind(kind))
    ensures forall i :: 0 <= i < |basis.entries| && basis.entries[i].0 == kind ==> basis.Point(kind) == Ok(basis.entries[i].1)
    ensures basis.Point(kind).Ok? ==> basis.Point(kind).value.Valid()
  {
    TextIsStrictTotal();
    AscendingIsSortedDistinct(TextLess, Kinds(basis.entries));
    PointForFinds(basis.entries, kind);
  }

  lemma BasisCoefficient(symbol: string, coefficient: int)
    ensures LinearPoint.Basis(symbol, coefficient).Valid()
    ensures forall s :: LinearPoint.Basis(symbol, coefficient).Coefficient(s) == if s == symbol then coefficient else 0
  {
    FromMappingCoefficients(map[symbol := coefficient]);
  }

  // ----- delta equations -----

  datatype DeltaEquation = DeltaEquation(netQuantityByKind: seq<Row>, blinding: int) {

    static function FromMapping(quantities: map<string, int>, blinding: int): DeltaEquation {
      DeltaEquation(FromMap(quantities), blinding)
    }

    predicate IsBalanced() {
      netQuantityByKind == []
    }

    /** The point that `PointOn` computes. */
    function Point(basis: KindBasis): Result<LinearPoint, FrontierError>
      decreases |netQuantityByKind|
    {
      if netQuantityByKind == [] then Ok(LinearPoint.Basis(GENERATOR, blinding))
      else
        var (kind, quantity) := netQuantityByKind[|netQuantityByKind| - 1];
        var before :- Init().Point(basis);
        var generator :- basis.Point(kind);
        Ok(before.Plus(generator.Scale(quantity)))
    }

    function Init(): DeltaEquation
      requires netQuantityByKind != []
    {
      DeltaEquation(netQuantityByKind[..|netQuantityByKind| - 1], blinding)
    }

    predicate Covered(basis: KindBasis) {
      forall i :: 0 <= i < |netQuantityByKind| ==> netQuantityByKind[i].0 in Kinds(basis.entries)
    }

    /** The equation of the first `n` rows. */
    function Prefix(n: nat): DeltaEquation
      requires n <= |netQuantityByKind|
    {
      DeltaEquation(netQuantityByKind[..n], blinding)
    }

    lemma PrefixStep(basis: KindBasis, n: nat)
      requires n < |netQuantityByKind| && Prefix(n).Point(basis).Ok?
      ensures Prefix(n + 1).Point(basis)
              == var generator := basis.Point(netQuantityByKind[n].0);
                 if generator.Err? then Err(generator.error)
                 else Ok(Prefix(n).Point(basis).value.Plus(generator.value.Scale(netQuantityByKind[n].1)))
    {
      assert Prefix(n + 1).Init() == Prefix(n);
    }

    method PointOn(basis: KindBasis) returns (r: Result<LinearPoint, FrontierError>)
      requires basis.Valid()
      ensures r == Point(basis)
    {
      var result := LinearPoint.Basis(GENERATOR, blinding);
      for i := 0 to |netQuantityByKind|
        invariant Prefix(i).Point(basis) == Ok(result)
      {
        PrefixStep(basis, i);
        var generator := basis.Point(netQuantityByKind[i].0);
        if generator.Err? {
          FailureStays(basis, i + 1);
          return Err(generator.error);
        }
        result := result.Add(generator.value.Scale(netQuantityByKind[i].1));
      }
      assert Prefix(|netQuantityByKind|) == this;
      return Ok(result);
    }

    lemma {:induction false} FailureStays(basis: KindBasis, n: nat)
      requires n <= |netQuantityByKind|
      requires Prefix(n).Point(basis).Err?
      ensures Point(basis) == Prefix(n).Point(basis)
      decreases |netQuantityByKind|
    {
      if n < |netQuantityByKind| {
        assert Init().netQuantityByKind[..n] == netQuantityByKind[..n];
        Init().FailureStays(basis, n);
      } else {
        assert netQuantityByKind[..n] == netQuantityByKind;
      }
    }

    function KnownBindingKey(basis: KindBasis): Result<Option<int>, FrontierError> {
      var point :- Point(basis);
      Ok(point.KnownGeneratorScalar())
    }

    function AdmitsForgedBindingSignature(basis: KindBasis): Result<bool, FrontierError> {
      if IsBalanced() then Ok(false)
      else
        var key :- KnownBindingKey(basis);
        Ok(key.Some?)
    }
  }

  lemma CoveredStep(eq: DeltaEquation, basis: KindBasis)
    requires eq.netQuantityByKind != []
    ensures eq.Covered(basis)
            <==> eq.Init().Covered(basis) && eq.netQuantityByKind[|eq.netQuantityByKind| - 1].0 in Kinds(basis.entries)
  {
    var net, init := eq.netQuantityByKind, eq.Init().netQuantityByKind;
    if eq.Covered(basis) {
      forall i | 0 <= i < |init| ensures init[i].0 in Kinds(basis.entries) { assert init[i] == net[i]; }
    } else if eq.Init().Covered(basis) {
      forall i | 0 <= i < |init| ensures net[i].0 in Kinds(basis.entries) { assert init[i] == net[i]; }
    }
  }

  /** The point exists iff every kind is listed. */
  lemma {:induction false} PointExists(eq: DeltaEquation, basis: KindBasis)
    requires basis.Valid()
    ensures eq.Point(basis).Ok? <==> eq.Covered(basis)
    ensures eq.Point(basis).Ok? ==> eq.Point(basis).value.Valid()
    decreases |eq.netQuantityByKind|
  {
    var net := eq.netQuantityByKind;
    if net == [] {
      BasisCoefficient(GENERATOR, eq.blinding);
    } else {
      var (kind, quantity) := net[|net| - 1];
      PointExists(eq.Init(), basis);
      BasisLookup(basis, kind);
      CoveredStep(eq, basis);
      if eq.Covered(basis) {
        ScaleCoefficients(basis.Point(kind).value, quantity);
        PlusCoefficients(eq.Init().Point(basis).value, basis.Point(kind).value.Scale(quantity));
      }
    }
  }

  /** Its coefficients are weighted sums of exposures, plus the blinding on the generator. */
  lemma {:induction false} PointCoefficient(eq: DeltaEquation, basis: KindBasis, s: string)
    requires basis.Valid() && eq.Point(basis).Ok?
    ensures eq.Point(basis).value.Coefficient(s)
            == (if s == GENERATOR then eq.blinding else 0) + Weighted(eq.netQuantityByKind, basis.Exposure(s))
    decreases |eq.netQuantityByKind|
  {
    var net := eq.netQuantityByKind;
    if net == [] {
      BasisCoefficient(GENERATOR, eq.blinding);
    } else {
      var (kind, quantity) := net[|net| - 1];
      var generator := basis.Point(kind).value;
      PointCoefficient(eq.Init(), basis, s);
      PointExists(eq.Init(), basis);
      BasisLookup(basis, kind);
      ScaleCoefficients(generator, quantity);
      PlusCoefficients(eq.Init().Point(basis).value, generator.Scale(quantity));
      assert basis.Exposure(s)(kind) == generator.Coefficient(s);
    }
  }

  lemma PointCoefficients(eq: DeltaEquation, basis: KindBasis)
    requires basis.Valid()
    ensures eq.Point(basis).Ok? <==> eq.Covered(basis)
    ensures eq.Point(basis).Ok? ==> eq.Point(basis).value.Valid()
    ensures eq.Point(basis).Ok? ==>
              forall s :: eq.Point(basis).value.Coefficient(s)
                          == (if s == GENERATOR then eq.blinding else 0) + Weighted(eq.netQuantityByKind, basis.Exposure(s))
  {
    PointExists(eq, basis);
    if eq.Point(basis).Ok? {
      forall s ensures eq.Point(basis).value.Coefficient(s)
                       == (if s == GENERATOR then eq.blinding else 0) + Weighted(eq.netQuantityByKind, basis.Exposure(s))
      {
        PointCoefficient(eq, basis, s);
      }
    }
  }

  /** Over any basis, the point of a kind-wise sum is the sum of the points. */
  lemma DeltaPointIsHomomorphic(x: DeltaEquation, y: DeltaEquation, basis: KindBasis)
    requires basis.Valid() && x.Covered(basis) && y.Covered(basis)
    requires Normal(x.netQuantityByKind) && Normal(y.netQuantityByKind)
    ensures var sum := DeltaEquation(Merge(x.netQuantityByKind, y.netQuantityByKind), x.blinding + y.blinding);
            x.Point(basis).Ok? && y.Point(basis).Ok?
            && sum.Point(basis) == Ok(x.Point(basis).value.Plus(y.Point(basis).value))
  {
    var a, b := x.netQuantityByKind, y.netQuantityByKind;
    var sum := DeltaEquation(Merge(a, b), x.blinding + y.blinding);
    MergeTotals(a, b);
    NormalTotals(a);
    NormalTotals(b);
    NormalTotals(Merge(a, b));
    forall i | 0 <= i < |Merge(a, b)| ensures Merge(a, b)[i].0 in Kinds(basis.entries) {
      var k := Merge(a, b)[i].0;
      assert Total(Merge(a, b), k) != 0;
      assert k in Keys(a) || k in Keys(b);
    }
    PointCoefficients(x, basis);
    PointCoefficients(y, basis);
    PointCoefficients(sum, basis);
    var p, q := x.Point(basis).value, y.Point(basis).value;
    PlusCoefficients(p, q);
    forall s ensures sum.Point(basis).value.Coefficient(s) == p.Plus(q).Coefficient(s) {
      WeightedMerge(a, b, basis.Exposure(s));
    }
    PointExtensional(sum.Point(basis).value, p.Plus(q));
  }

  ghost predicate OnGenerator(p: LinearPoint) {
    forall s :: s != GENERATOR ==> p.Coefficient(s) == 0
  }

  lemma KeyKnownIff(p: LinearPoint)
    requires p.Valid()
    ensures p.KnownGeneratorScalar() == if OnGenerator(p) then Some(p.Coefficient(GENERATOR)) else None
  {
    NormalTotals(p.coefficients);
    if OnGenerator(p) {
      forall i | 0 <= i < |p.coefficients| ensures p.coefficients[i].0 == GENERATOR {
        assert p.Coefficient(p.coefficients[i].0) != 0;
      }
    } else {
      var s :| s != GENERATOR && p.Coefficient(s) != 0;
      var i :| 0 <= i < |Keys(p.coefficients)| && Keys(p.coefficients)[i] == s;
    }
  }

  // ----- certification -----

  datatype KindBasisCertificate = KindBasisCertificate(basis: KindBasis, profileId: string, derivationProofId: string)

  function CertifyKindBasis(basis: KindBasis, proofId: string): Result<KindBasisCertificate, FrontierError> {
    if proofId == "" then Err(EmptyProofId)
    else if !basis.MatchesCanonicalHashToCurve() then Err(NoncanonicalBasis)
    else Ok(KindBasisCertificate(basis, basis.profileId, proofId))
  }

  /** Every listed kind has its own symbol, with coefficient one. */
  predicate OwnSymbols(basis: KindBasis) {
    forall i :: 0 <= i < |basis.entries| ==> basis.entries[i].1 == LinearPoint.Basis(KIND_PREFIX + basis.entries[i].0, 1)
  }

  /** Certification accepts exactly the authenticated bases that give each kind its own symbol. */
  lemma CertifiedEntries(basis: KindBasis, proofId: string)
    requires basis.Valid()
    ensures CertifyKindBasis(basis, proofId).Ok? <==> proofId != "" && basis.authenticated && OwnSymbols(basis)
  {
    TextIsStrictTotal();
    var kinds := Kinds(basis.entries);
    var unique := SortedSet(Elements(kinds));
    AscendingUnique(TextLess, unique, kinds);
    var expected: seq<Entry> := seq(|unique|, i requires 0 <= i < |unique| => (unique[i], LinearPoint.Basis(KIND_PREFIX + unique[i], 1)));
    assert Kinds(expected) == unique;
    MakeBasisAccepts(basis.profileId, expected, true);
    if OwnSymbols(basis) { assert basis.entries == expected; }
  }

  lemma CertifiedExposure(basis: KindBasis, kind: string, symbol: string)
    requires basis.Valid() && OwnSymbols(basis) && kind in Kinds(basis.entries)
    ensures basis.Exposure(symbol)(kind) == if symbol == KIND_PREFIX + kind then 1 else 0
  {
    BasisLookup(basis, kind);
    BasisCoefficient(KIND_PREFIX + kind, 1);
    var i :| 0 <= i < |Kinds(basis.entries)| && Kinds(basis.entries)[i] == kind;
  }

  /** `symbol` is the own symbol of `kind`, or of no kind. */
  ghost predicate SymbolOf(symbol: string, kind: Option<string>) {
    match kind
    case None => forall k :: symbol != KIND_PREFIX + k
    case Some(k) => symbol == KIND_PREFIX + k
  }

  lemma CertifiedRow(key: string, basis: KindBasis, symbol: string, kind: Option<string>)
    requires basis.Valid() && OwnSymbols(basis) && key in Kinds(basis.entries) && SymbolOf(symbol, kind)
    ensures basis.Exposure(symbol)(key) == if kind == Some(key) then 1 else 0
  {
    CertifiedExposure(basis, key, symbol);
    if kind.Some? && symbol == KIND_PREFIX + key {
      assert kind.value == symbol[|KIND_PREFIX|..] == key;
    }
  }

  lemma {:induction false} CertifiedWeights(rows: seq<Row>, basis: KindBasis, symbol: string, kind: Option<string>)
    requires basis.Valid() && OwnSymbols(basis) && SymbolOf(symbol, kind)
    requires forall i :: 0 <= i < |rows| ==> rows[i].0 in Kinds(basis.entries)
    ensures Weighted(rows, basis.Exposure(symbol)) == if kind.Some? then Total(rows, kind.value) else 0
  {
    if rows != [] {
      var n := |rows| - 1;
      CertifiedWeights(rows[..n], basis, symbol, kind);
      CertifiedRow(rows[n].0, basis, symbol, kind);
    }
  }

  /** Each kind's net quantity is exposed on a symbol of its own; the generator carries only the blinding. */
  lemma CertifiedCoefficients(eq: DeltaEquation, basis: KindBasis)
    requires basis.Valid() && OwnSymbols(basis) && eq.Covered(basis)
    ensures eq.Point(basis).Ok? && eq.Point(basis).value.Valid()
    ensures var p := eq.Point(basis).value;
            && p.Coefficient(GENERATOR) == eq.blinding
            && (forall k :: p.Coefficient(KIND_PREFIX + k) == Total(eq.netQuantityByKind, k))
            && (forall s :: s != GENERATOR && !(KIND_PREFIX <= s) ==> p.Coefficient(s) == 0)
  {
    var net := eq.netQuantityByKind;
    PointCoefficients(eq, basis);
    var p := eq.Point(basis).value;
    forall k ensures KIND_PREFIX + k != GENERATOR { assert (KIND_PREFIX + k)[0] != GENERATOR[0]; }
    CertifiedWeights(net, basis, GENERATOR, None);
    forall k ensures p.Coefficient(KIND_PREFIX + k) == Total(net, k) {
      CertifiedWeights(net, basis, KIND_PREFIX + k, Some(k));
    }
    forall s | s != GENERATOR && !(KIND_PREFIX <= s) ensures p.Coefficient(s) == 0 {
      forall k ensures s != KIND_PREFIX + k { assert KIND_PREFIX <= KIND_PREFIX + k; }
      CertifiedWeights(net, basis, s, None);
    }
  }

  /** Every kind's quantities cancel. */
  ghost predicate NetsToZero(rows: seq<Row>) {
    forall k :: Total(rows, k) == 0
  }

  lemma ScalarFromTotals(p: LinearPoint, net: seq<Row>)
    requires p.Valid()
    requires forall k :: p.Coefficient(KIND_PREFIX + k) == Total(net, k)
    requires forall s :: s != GENERATOR && !(KIND_PREFIX <= s) ==> p.Coefficient(s) == 0
    ensures p.KnownGeneratorScalar() == if NetsToZero(net) then Some(p.Coefficient(GENERATOR)) else None
  {
    KeyKnownIff(p);
    if NetsToZero(net) {
      forall s | s != GENERATOR ensures p.Coefficient(s) == 0 {
        if KIND_PREFIX <= s { assert s == KIND_PREFIX + s[|KIND_PREFIX|..]; }
      }
      assert OnGenerator(p);
    } else {
      var k :| Total(net, k) != 0;
      assert (KIND_PREFIX + k)[0] != GENERATOR[0];
      assert p.Coefficient(KIND_PREFIX + k) != 0;
    }
  }

  lemma OwnSymbolsBindingKey(eq: DeltaEquation, basis: KindBasis)
    requires basis.Valid() && OwnSymbols(basis) && eq.Covered(basis)
    ensures eq.KnownBindingKey(basis)
            == Ok(if NetsToZero(eq.netQuantityByKind) then Some(eq.blinding) else None)
  {
    CertifiedCoefficients(eq, basis);
    ScalarFromTotals(eq.Point(basis).value, eq.netQuantityByKind);
  }

  /** Under a certified basis a binding key is known only if every kind nets to zero, and then it is the blinding. */
  lemma CertifiedBindingKey(eq: DeltaEquation, basis: KindBasis, proofId: string)
    requires basis.Valid() && CertifyKindBasis(basis, proofId).Ok? && eq.Covered(basis)
    ensures eq.KnownBindingKey(basis)
            == Ok(if NetsToZero(eq.netQuantityByKind) then Some(eq.blinding) else None)
  {
    CertifiedEntries(basis, proofId);
    OwnSymbolsBindingKey(eq, basis);
  }

  lemma NormalHasTotal(rows: seq<Row>)
    requires Normal(rows)
    ensures rows == [] <==> NetsToZero(rows)
  {
    NormalTotals(rows);
    if rows != [] { assert Total(rows, rows[0].0) != 0; }
  }

  /** For equations in normal form the known key exists iff the equation is balanced: no forgery. */
  lemma CertifiedBasisAdmitsNoForgery(eq: DeltaEquation, basis: KindBasis, proofId: string)
    requires basis.Valid() && CertifyKindBasis(basis, proofId).Ok? && eq.Covered(basis)
    requires Normal(eq.netQuantityByKind)
    ensures eq.KnownBindingKey(basis) == Ok(if eq.IsBalanced() then Some(eq.blinding) else None)
    ensures eq.AdmitsForgedBindingSignature(basis) == Ok(false)
  {
    CertifiedBindingKey(eq, basis, proofId);
    NormalHasTotal(eq.netQuantityByKind);
  }

  /** Without normal form the forgery flag is raised exactly by nonempty rows that cancel kind by kind. */
  lemma ForgeryFlagUnderCertifiedBasis(eq: DeltaEquation, basis: KindBasis, proofId: string)
    requires basis.Valid() && CertifyKindBasis(basis, proofId).Ok? && eq.Covered(basis)
    ensures eq.AdmitsForgedBindingSignature(basis)
            == Ok(eq.netQuantityByKind != [] && NetsToZero(eq.netQuantityByKind))
  {
    CertifiedBindingKey(eq, basis, proofId);
  }

  /** Such rows exist: the equation constructor does not normalise, so the flag can be raised with no imbalance. */
  lemma UnnormalizedRowsRaiseTheFlag()
    ensures exists eq: DeltaEquation, basis: KindBasis, proofId: string ::
              basis.Valid() && CertifyKindBasis(basis, proofId).Ok? && eq.Covered(basis)
              && eq.AdmitsForgedBindingSignature(basis) == Ok(true)
  {
    var entries: seq<Entry> := [("a", LinearPoint.Basis(KIND_PREFIX + "a", 1))];
    var basis := KindBasis("h2c-v1", entries, true);
    var rows: seq<Row> := [("a", 1), ("a", -1)];
    var eq := DeltaEquation(rows, 0);
    BasisCoefficient(KIND_PREFIX + "a", 1);
    assert basis.Valid();
    CertifiedEntries(basis, "p");
    assert Kinds(entries) == ["a"];
    assert eq.Covered(basis);
    forall k ensures Total(rows, k) == 0 {
      assert rows[..1] == [("a", 1)];
      assert Total(rows[..1], k) == Total(rows[..1][..0], k) + (if "a" == k then 1 else 0);
    }
    ForgeryFlagUnderCertifiedBasis(eq, basis, "p");
  }

  // ----- uncertified tables -----

  function ScalarOf(known: map<string, int>): string -> int {
    k => Get(known, k)
  }

  function OneEach(kind: string): int {
    1
  }

  /** The point is `coefficient` times one symbol. */
  ghost predicate CarriesOnly(p: LinearPoint, symbol: string, coefficient: int) {
    p.Valid() && forall s :: p.Coefficient(s) == if s == symbol then coefficient else 0
  }

  /** Every one of the kinds is listed, as `weight(kind)` times one symbol. */
  ghost predicate IsTable(basis: KindBasis, kinds: set<string>, symbol: string, weight: string -> int) {
    forall kind :: kind in kinds ==>
      basis.Point(kind).Ok? && CarriesOnly(basis.Point(kind).value, symbol, weight(kind))
  }

  /** The blinding on the generator, plus `sum` on one symbol. */
  ghost predicate BlindedSum(p: LinearPoint, blinding: int, symbol: string, sum: int) {
    p.Valid() && forall s :: p.Coefficient(s) == (if s == GENERATOR then blinding else 0) + (if s == symbol then sum else 0)
  }

  lemma BlindedSumGrows(p: LinearPoint, blinding: int, symbol: string, sum: int, q: LinearPoint, coefficient: int, quantity: int)
    requires BlindedSum(p, blinding, symbol, sum) && CarriesOnly(q, symbol, coefficient)
    ensures BlindedSum(p.Plus(q.Scale(quantity)), blinding, symbol, sum + coefficient * quantity)
  {
    ScaleCoefficients(q, quantity);
    PlusCoefficients(p, q.Scale(quantity));
  }

  /** Over a table the point of an equation is the blinding on the generator plus one weighted sum. */
  lemma {:induction false} TablePoint(eq: DeltaEquation, basis: KindBasis, kinds: set<string>, symbol: string, weight: string -> int)
    requires IsTable(basis, kinds, symbol, weight)
    requires forall i :: 0 <= i < |eq.netQuantityByKind| ==> eq.netQuantityByKind[i].0 in kinds
    ensures eq.Point(basis).Ok?
    ensures BlindedSum(eq.Point(basis).value, eq.blinding, symbol, Weighted(eq.netQuantityByKind, weight))
    decreases |eq.netQuantityByKind|
  {
    var net := eq.netQuantityByKind;
    if net == [] {
      BasisCoefficient(GENERATOR, eq.blinding);
    } else {
      var (kind, quantity) := net[|net| - 1];
      TablePoint(eq.Init(), basis, kinds, symbol, weight);
      BlindedSumGrows(eq.Init().Point(basis).value, eq.blinding, symbol, Weighted(eq.Init().netQuantityByKind, weight),
                      basis.Point(kind).value, weight(kind), quantity);
    }
  }

  lemma KnownOnGenerator(p: LinearPoint, blinding: int, sum: int)
    requires BlindedSum(p, blinding, GENERATOR, sum)
    ensures p.KnownGeneratorScalar() == Some(blinding + sum)
  {
    KeyKnownIff(p);
    assert p.Coefficient(GENERATOR) == blinding + sum;
  }

  lemma KnownOffGenerator(p: LinearPoint, blinding: int, symbol: string, sum: int)
    requires BlindedSum(p, blinding, symbol, sum) && symbol != GENERATOR
    ensures p.KnownGeneratorScalar() == if sum == 0 then Some(blinding) else None
  {
    KeyKnownIff(p);
    assert p.Coefficient(symbol) == sum && p.Coefficient(GENERATOR) == blinding;
  }

  lemma KnownOfSum(p: LinearPoint, blinding: int, symbol: string, sum: int)
    requires BlindedSum(p, blinding, symbol, sum)
    ensures p.KnownGeneratorScalar()
            == if symbol == GENERATOR then Some(blinding + sum) else if sum == 0 then Some(blinding) else None
  {
    if symbol == GENERATOR { KnownOnGenerator(p, blinding, sum); } else { KnownOffGenerator(p, blinding, symbol, sum); }
  }

  lemma KeyOfPoint(eq: DeltaEquation, basis: KindBasis, p: LinearPoint)
    requires eq.Point(basis) == Ok(p)
    ensures eq.KnownBindingKey(basis) == Ok(p.KnownGeneratorScalar())
  {
  }

  /** What a table gives away about an equation over its kinds. */
  lemma TableKey(eq: DeltaEquation, basis: KindBasis, kinds: set<string>, symbol: string, weight: string -> int)
    requires IsTable(basis, kinds, symbol, weight)
    requires forall i :: 0 <= i < |eq.netQuantityByKind| ==> eq.netQuantityByKind[i].0 in kinds
    ensures var sum := Weighted(eq.netQuantityByKind, weight);
            eq.KnownBindingKey(basis)
            == Ok(if symbol == GENERATOR then Some(eq.blinding + sum) else if sum == 0 then Some(eq.blinding) else None)
  {
    TablePoint(eq, basis, kinds, symbol, weight);
    var p := eq.Point(basis).value;
    KnownOfSum(p, eq.blinding, symbol, Weighted(eq.netQuantityByKind, weight));
    KeyOfPoint(eq, basis, p);
  }

  /** The basis that a caller's table constructor builds. */
  lemma TableFromEntries(profileId: string, entries: seq<Entry>, basis: KindBasis, symbol: string, weight: string -> int)
    requires KindBasis.Make(profileId, entries, false) == Ok(basis)
    requires forall i :: 0 <= i < |entries| ==> CarriesOnly(entries[i].1, symbol, weight(entries[i].0))
    ensures IsTable(basis, Elements(Kinds(entries)), symbol, weight) && !basis.authenticated
  {
    MakeBasisAccepts(profileId, entries, false);
    forall kind | kind in Elements(Kinds(entries))
      ensures basis.Point(kind).Ok? && CarriesOnly(basis.Point(kind).value, symbol, weight(kind))
    {
      BasisLookup(basis, kind);
      var i :| 0 <= i < |entries| && Kinds(entries)[i] == kind;
      assert CarriesOnly(entries[i].1, symbol, weight(kind));
    }
  }

  lemma KnownScalarsTable(known: map<string, int>, profileId: string, basis: KindBasis)
    requires KindBasis.MaliciousKnownScalars(known, profileId) == Ok(basis)
    ensures IsTable(basis, known.Keys, GENERATOR, ScalarOf(known)) && !basis.authenticated
  {
    var kinds := SortedSet(known.Keys);
    var entries := KnownEntries(kinds, known);
    assert Kinds(entries) == kinds;
    forall i | 0 <= i < |entries| ensures CarriesOnly(entries[i].1, GENERATOR, ScalarOf(known)(entries[i].0)) {
      assert kinds[i] in Elements(kinds);
      BasisCoefficient(GENERATOR, known[kinds[i]]);
    }
    TableFromEntries(profileId, entries, basis, GENERATOR, ScalarOf(known));
  }

  /** A table of known scalars gives away the key of every equation it covers, and is never authenticated. */
  lemma KnownScalarsGiveEveryKey(eq: DeltaEquation, known: map<string, int>, profileId: string, basis: KindBasis)
    requires KindBasis.MaliciousKnownScalars(known, profileId) == Ok(basis)
    requires forall i :: 0 <= i < |eq.netQuantityByKind| ==> eq.netQuantityByKind[i].0 in known
    ensures !basis.authenticated
    ensures eq.KnownBindingKey(basis) == Ok(Some(eq.blinding + Weighted(eq.netQuantityByKind, ScalarOf(known))))
  {
    KnownScalarsTable(known, profileId, basis);
    TableKey(eq, basis, known.Keys, GENERATOR, ScalarOf(known));
  }

  lemma SharedSymbolTable(kinds: set<string>, shared: string, profileId: string, basis: KindBasis)
    requires KindBasis.MaliciousRelation(kinds, shared, profileId) == Ok(basis)
    ensures IsTable(basis, kinds, shared, OneEach) && !basis.authenticated
  {
    var unique := SortedSet(kinds);
    var entries := SharedEntries(unique, shared);
    assert Kinds(entries) == unique;
    forall i | 0 <= i < |entries| ensures CarriesOnly(entries[i].1, shared, OneEach(entries[i].0)) {
      BasisCoefficient(shared, 1);
    }
    TableFromEntries(profileId, entries, basis, shared, OneEach);
  }

  /** A table that reuses one symbol knows the key iff the symbol is the generator or all quantities sum to zero. */
  lemma SharedSymbolKey(eq: DeltaEquation, kinds: set<string>, shared: string, profileId: string, basis: KindBasis)
    requires KindBasis.MaliciousRelation(kinds, shared, profileId) == Ok(basis)
    requires forall i :: 0 <= i < |eq.netQuantityByKind| ==> eq.netQuantityByKind[i].0 in kinds
    ensures !basis.authenticated
    ensures var sum := Weighted(eq.netQuantityByKind, OneEach);
            eq.KnownBindingKey(basis)
            == Ok(if shared == GENERATOR then Some(eq.blinding + sum) else if sum == 0 then Some(eq.blinding) else None)
  {
    SharedSymbolTable(kinds, shared, profileId, basis);
    TableKey(eq, basis, kinds, shared, OneEach);
  }
}
