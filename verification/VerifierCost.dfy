/**
 Verifier-cost quotes: 64-bit coefficients times 64-bit byte counts, accumulated in checked
 128-bit arithmetic, under two caps; and the admission reservation that bounds every later quote.
 */
module VerifierCost {
  import opened Outcomes
  import opened Bytes

  type BackendId = Nonzero32

  datatype Row = Row(
    backendFamilyId: BackendId,
    baseUnits: u64,
    artifactByteUnits: u64,
    statementByteUnits: u64,
    reservedOutputByteUnits: u64)

  datatype CostModel = CostModel(maxChargeUnits: u64)

  datatype Policy = Policy(
    backendFamilyId: BackendId,
    maxArtifactBytes: u64,
    maxPublicInputBytes: u64,
    maxPublicOutputBytes: u64,
    maxVerifierCostUnits: u64)

  datatype Request = Request(
    expectedBackendFamilyId: BackendId,
    artifactLen: u64,
    canonicalStatementLen: u64,
    maxArtifactBytes: u64,
    maxPublicInputBytes: u64,
    reservedOutputByteMaximum: u64,
    maxVerifierCostUnits: u64)

  datatype CostError =
    | BackendFamilyMismatch
    | ArtifactBytesExceeded
    | PublicInputBytesExceeded
    | ArithmeticOverflow
    | ChargeDoesNotFitU64
    | ModelChargeLimitExceeded
    | VerifierChargeLimitExceeded

  const U64_LIMIT := 0x1_0000_0000_0000_0000
  const U128_LIMIT := 0x1_0000_0000_0000_0000_0000_0000_0000_0000

  function FromPolicy(policy: Policy, artifactLen: u64, statementLen: u64): Request {
    Request(policy.backendFamilyId, artifactLen, statementLen, policy.maxArtifactBytes,
            policy.maxPublicInputBytes, policy.maxPublicOutputBytes, policy.maxVerifierCostUnits)
  }

  function ReservationRequest(policy: Policy): Request {
    FromPolicy(policy, policy.maxArtifactBytes, policy.maxPublicInputBytes)
  }

  /** 128-bit multiplication and addition that fail instead of wrapping. */
  function CheckedMultiply(coefficient: u64, amount: u64): Result<u128, CostError> {
    var product: int := coefficient * amount;
    if 0 <= product < U128_LIMIT then Ok(product) else Err(ArithmeticOverflow)
  }

  function CheckedAdd(left: u128, right: u128): Result<u128, CostError> {
    if left + right < U128_LIMIT then Ok(left + right) else Err(ArithmeticOverflow)
  }

  lemma MultiplyNeverOverflows(coefficient: u64, amount: u64)
    ensures 0 <= coefficient * amount <= (U64_LIMIT - 1) * (U64_LIMIT - 1)
    ensures CheckedMultiply(coefficient, amount) == Ok(coefficient * amount)
  {
    var m := U64_LIMIT - 1;
    MultiplyMonotone(coefficient, m, amount);
    MultiplyMonotone(amount, m, m);
    assert coefficient * amount <= m * amount == amount * m <= m * m;
  }

  lemma MultiplyMonotone(a: int, b: int, c: int)
    requires 0 <= a <= b && 0 <= c
    ensures 0 <= a * c <= b * c
  {
  }

  /** The exact charge, in unbounded arithmetic. */
  ghost function ExactTotal(row: Row, request: Request): int {
    row.baseUnits
    + row.artifactByteUnits * request.artifactLen
    + row.statementByteUnits * request.canonicalStatementLen
    + row.reservedOutputByteUnits * request.reservedOutputByteMaximum
  }

  ghost predicate WithinBounds(row: Row, request: Request) {
    && row.backendFamilyId == request.expectedBackendFamilyId
    && request.artifactLen <= request.maxArtifactBytes
    && request.canonicalStatementLen <= request.maxPublicInputBytes
  }

  /** The verdict on an exact total that passed the bounds. */
  ghost function Verdict(model: CostModel, request: Request, total: int): Result<u64, CostError>
    requires 0 <= total
  {
    if total >= U128_LIMIT then Err(ArithmeticOverflow)
    else if total >= U64_LIMIT then Err(ChargeDoesNotFitU64)
    else if total > model.maxChargeUnits then Err(ModelChargeLimitExceeded)
    else if total > request.maxVerifierCostUnits then Err(VerifierChargeLimitExceeded)
    else Ok(total)
  }

  ghost function Quote(model: CostModel, row: Row, request: Request): Result<u64, CostError> {
    if row.backendFamilyId != request.expectedBackendFamilyId then Err(BackendFamilyMismatch)
    else if request.artifactLen > request.maxArtifactBytes then Err(ArtifactBytesExceeded)
    else if request.canonicalStatementLen > request.maxPublicInputBytes then Err(PublicInputBytesExceeded)
    else
      TotalIsNatural(row, request);
      Verdict(model, request, ExactTotal(row, request))
  }

  lemma TotalIsNatural(row: Row, request: Request)
    ensures 0 <= ExactTotal(row, request)
  {
    MultiplyMonotone(0, row.artifactByteUnits, request.artifactLen);
    MultiplyMonotone(0, row.statementByteUnits, request.canonicalStatementLen);
    MultiplyMonotone(0, row.reservedOutputByteUnits, request.reservedOutputByteMaximum);
  }

  /**
   The stepwise calculation agrees with exact arithmetic: intermediate sums only grow, so an
   overflow anywhere means the total itself is too wide, whatever the order of the terms.
   */
  method ComputeQuote(model: CostModel, row: Row, request: Request) returns (r: Result<u64, CostError>)
    ensures r == Quote(model, row, request)
  {
    if row.backendFamilyId != request.expectedBackendFamilyId {
      return Err(BackendFamilyMismatch);
    }
    if request.artifactLen > request.maxArtifactBytes {
      return Err(ArtifactBytesExceeded);
    }
    if request.canonicalStatementLen > request.maxPublicInputBytes {
      return Err(PublicInputBytesExceeded);
    }
    MultiplyNeverOverflows(row.artifactByteUnits, request.artifactLen);
    MultiplyNeverOverflows(row.statementByteUnits, request.canonicalStatementLen);
    MultiplyNeverOverflows(row.reservedOutputByteUnits, request.reservedOutputByteMaximum);
    var charge: u128 := 0;
    charge := CheckedAdd(charge, row.baseUnits).value;
    var artifact := CheckedMultiply(row.artifactByteUnits, request.artifactLen).value;
    var statement := CheckedMultiply(row.statementByteUnits, request.canonicalStatementLen).value;
    var output := CheckedMultiply(row.reservedOutputByteUnits, request.reservedOutputByteMaximum).value;
    charge := CheckedAdd(charge, artifact).value;
    charge :- CheckedAdd(charge, statement);
    charge :- CheckedAdd(charge, output);
    if charge >= U64_LIMIT {
      return Err(ChargeDoesNotFitU64);
    }
    var units: u64 := charge;
    if units > model.maxChargeUnits {
      return Err(ModelChargeLimitExceeded);
    }
    if units > request.maxVerifierCostUnits {
      return Err(VerifierChargeLimitExceeded);
    }
    return Ok(units);
  }

  /** A quote succeeds iff the bounds hold and the exact total fits 64 bits and both caps; it is then that total. */
  lemma QuoteSucceedsIff(model: CostModel, row: Row, request: Request)
    ensures Quote(model, row, request).Ok? <==>
            && WithinBounds(row, request)
            && ExactTotal(row, request) < U64_LIMIT
            && ExactTotal(row, request) <= model.maxChargeUnits
            && ExactTotal(row, request) <= request.maxVerifierCostUnits
    ensures Quote(model, row, request).Ok? ==> Quote(model, row, request).value == ExactTotal(row, request)
    ensures WithinBounds(row, request) ==>
              (Quote(model, row, request) == Err(ArithmeticOverflow) <==> ExactTotal(row, request) >= U128_LIMIT)
  {
    TotalIsNatural(row, request);
  }

  /** Larger byte counts never cost less. */
  lemma TotalMonotone(row: Row, small: Request, large: Request)
    requires small.artifactLen <= large.artifactLen && small.canonicalStatementLen <= large.canonicalStatementLen
    requires small.reservedOutputByteMaximum <= large.reservedOutputByteMaximum
    ensures ExactTotal(row, small) <= ExactTotal(row, large)
  {
    MultiplyMonotone(small.artifactLen, large.artifactLen, row.artifactByteUnits);
    MultiplyMonotone(small.canonicalStatementLen, large.canonicalStatementLen, row.statementByteUnits);
    MultiplyMonotone(small.reservedOutputByteMaximum, large.reservedOutputByteMaximum, row.reservedOutputByteUnits);
  }

  /** If the reservation quote succeeds, every in-bound request under the same row, model and policy succeeds at no greater cost. */
  lemma ReservationDominates(model: CostModel, row: Row, policy: Policy, artifactLen: u64, statementLen: u64)
    requires Quote(model, row, ReservationRequest(policy)).Ok?
    requires artifactLen <= policy.maxArtifactBytes && statementLen <= policy.maxPublicInputBytes
    ensures Quote(model, row, FromPolicy(policy, artifactLen, statementLen)).Ok?
    ensures Quote(model, row, FromPolicy(policy, artifactLen, statementLen)).value
            <= Quote(model, row, ReservationRequest(policy)).value
  {
    TotalMonotone(row, FromPolicy(policy, artifactLen, statementLen), ReservationRequest(policy));
    QuoteSucceedsIff(model, row, ReservationRequest(policy));
    QuoteSucceedsIff(model, row, FromPolicy(policy, artifactLen, statementLen));
  }

  /** The reservation stands for all in-bound requests: it is the one at the policy's maxima, and succeeds iff every one does. */
  lemma ReservationIsTight(model: CostModel, row: Row, policy: Policy)
    ensures Quote(model, row, ReservationRequest(policy)).Ok? <==>
            forall a: u64, s: u64 :: a <= policy.maxArtifactBytes && s <= policy.maxPublicInputBytes ==>
              Quote(model, row, FromPolicy(policy, a, s)).Ok?
  {
    if Quote(model, row, ReservationRequest(policy)).Ok? {
      forall a: u64, s: u64 | a <= policy.maxArtifactBytes && s <= policy.maxPublicInputBytes
        ensures Quote(model, row, FromPolicy(policy, a, s)).Ok?
      {
        ReservationDominates(model, row, policy, a, s);
      }
    }
  }

  /** Overflow is reachable with admissible 64-bit inputs, so the check is not dead code. */
  lemma OverflowIsReachable(model: CostModel, backend: BackendId)
    ensures var m := U64_LIMIT - 1;
            Quote(model, Row(backend, m, m, m, m), Request(backend, m, m, m, m, m, m)) == Err(ArithmeticOverflow)
  {
    var m: u64 := U64_LIMIT - 1;
    var row, request := Row(backend, m, m, m, m), Request(backend, m, m, m, m, m, m);
    TotalIsNatural(row, request);
    assert ExactTotal(row, request) == m + 3 * (m * m);
    assert m * m == U128_LIMIT - 2 * U64_LIMIT + 1;
  }

  // ----- the quote, term by term -----

  /** With no bytes the charge is the base; each further byte of a sort adds that sort's unit price. */
  lemma UnitPrices(row: Row, request: Request)
    ensures ExactTotal(row, request.(artifactLen := 0, canonicalStatementLen := 0, reservedOutputByteMaximum := 0)) == row.baseUnits
    ensures request.artifactLen + 1 < U64_LIMIT ==>
              ExactTotal(row, request.(artifactLen := request.artifactLen + 1)) == ExactTotal(row, request) + row.artifactByteUnits
    ensures request.canonicalStatementLen + 1 < U64_LIMIT ==>
              ExactTotal(row, request.(canonicalStatementLen := request.canonicalStatementLen + 1))
              == ExactTotal(row, request) + row.statementByteUnits
    ensures request.reservedOutputByteMaximum + 1 < U64_LIMIT ==>
              ExactTotal(row, request.(reservedOutputByteMaximum := request.reservedOutputByteMaximum + 1))
              == ExactTotal(row, request) + row.reservedOutputByteUnits
  {
    OneMore(row.artifactByteUnits, request.artifactLen);
    OneMore(row.statementByteUnits, request.canonicalStatementLen);
    OneMore(row.reservedOutputByteUnits, request.reservedOutputByteMaximum);
  }

  lemma OneMore(price: int, count: int)
    ensures price * (count + 1) == price * count + price
  {
  }

  /** Each outcome with its own condition: the first bound or limit that fails is the one reported. */
  lemma QuoteExact(model: CostModel, row: Row, request: Request, total: nat)
    requires total == row.baseUnits + row.artifactByteUnits * request.artifactLen
                      + row.statementByteUnits * request.canonicalStatementLen
                      + row.reservedOutputByteUnits * request.reservedOutputByteMaximum
    ensures Quote(model, row, request)
            == if row.backendFamilyId != request.expectedBackendFamilyId then Err(BackendFamilyMismatch)
               else if request.artifactLen > request.maxArtifactBytes then Err(ArtifactBytesExceeded)
               else if request.canonicalStatementLen > request.maxPublicInputBytes then Err(PublicInputBytesExceeded)
               else if total >= 340282366920938463463374607431768211456 then Err(ArithmeticOverflow)
               else if total >= 18446744073709551616 then Err(ChargeDoesNotFitU64)
               else if total > model.maxChargeUnits then Err(ModelChargeLimitExceeded)
               else if total > request.maxVerifierCostUnits then Err(VerifierChargeLimitExceeded)
               else Ok(total)
  {
    TotalIsNatural(row, request);
  }

  /** A request under a policy takes over every bound of it; the reservation asks for the policy's own maxima. */
  lemma RequestMeans(policy: Policy, artifactLen: u64, statementLen: u64)
    ensures var r := FromPolicy(policy, artifactLen, statementLen);
            && r.expectedBackendFamilyId == policy.backendFamilyId && r.artifactLen == artifactLen
            && r.canonicalStatementLen == statementLen && r.maxArtifactBytes == policy.maxArtifactBytes
            && r.maxPublicInputBytes == policy.maxPublicInputBytes
            && r.reservedOutputByteMaximum == policy.maxPublicOutputBytes && r.maxVerifierCostUnits == policy.maxVerifierCostUnits
    ensures ReservationRequest(policy)
            == FromPolicy(policy, artifactLen, statementLen).(artifactLen := policy.maxArtifactBytes, canonicalStatementLen := policy.maxPublicInputBytes)
  {
  }
}
