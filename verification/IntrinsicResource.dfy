/** Construction of a sealed resource body from a wire candidate, and its exact recovery. */
module IntrinsicResource {
  import opened Outcomes
  import opened Bytes
  import opened ResourceWire
  import opened WireTheorems
  import opened HashFrames

  datatype Field =
    | MachineId | DomainId | ApplicationId | ResourceKindId | ResourceLogicId | LogicProfileId | ResourceKindPolicyId | UnitId
    | LabelRoot | ValueRoot | ControllerRoot | PolicyRoot | ProvenanceRoot | Nonce

  datatype IntrinsicError =
    | ZeroField(field: Field)
    | ExpiryBeforeCreation(created: u64, expiry: u64)
    | UnknownFlags(bits: u32)
    | ResourceIdDerivation(error: HashError)

  datatype Identity = Identity(
    machine: Nonzero32,
    domain: Nonzero32,
    application: Nonzero32,
    resourceKind: Nonzero32,
    resourceLogic: Nonzero32,
    logicProfile: Nonzero32,
    resourceKindPolicy: Nonzero32,
    unit: Nonzero32)

  datatype Commitments = Commitments(
    labelCommitment: Nonzero32,
    value: Nonzero32,
    controller: Nonzero32,
    policy: Nonzero32,
    provenance: Nonzero32)

  datatype Fields = Fields(
    identity: Identity,
    quantityAtoms: u128,
    commitments: Commitments,
    nonce: Nonzero32,
    createdEpoch: u64,
    expiryEpoch: Option<u64>,
    flags: u32)

  datatype Resource = Resource(resourceId: Nonzero32, fields: Fields) {

    /** The wire value rebuilt from the getters alone. */
    function Rebuild(): ResourceWire {
      ResourceWire(
        fields.identity.machine,
        fields.identity.domain,
        fields.identity.application,
        fields.identity.resourceKind,
        fields.identity.resourceLogic,
        fields.identity.logicProfile,
        fields.identity.resourceKindPolicy,
        fields.identity.unit,
        fields.quantityAtoms,
        fields.commitments.labelCommitment,
        fields.commitments.value,
        fields.commitments.controller,
        fields.commitments.policy,
        fields.commitments.provenance,
        fields.nonce,
        fields.createdEpoch,
        fields.expiryEpoch,
        fields.flags)
    }
  }

  function RequireNonzero(bytes: Bytes32, field: Field): Result<Nonzero32, IntrinsicError> {
    if AllZero(bytes) then Err(ZeroField(field)) else Ok(bytes)
  }

  function IdentityFromWire(w: ResourceWire): Result<Identity, IntrinsicError> {
    var machine :- RequireNonzero(w.machineId, MachineId);
    var domain :- RequireNonzero(w.domainId, DomainId);
    var application :- RequireNonzero(w.applicationId, ApplicationId);
    var resourceKind :- RequireNonzero(w.resourceKindId, ResourceKindId);
    var resourceLogic :- RequireNonzero(w.resourceLogicId, ResourceLogicId);
    var logicProfile :- RequireNonzero(w.logicProfileId, LogicProfileId);
    var resourceKindPolicy :- RequireNonzero(w.resourceKindPolicyId, ResourceKindPolicyId);
    var unit :- RequireNonzero(w.unitId, UnitId);
    Ok(Identity(machine, domain, application, resourceKind, resourceLogic, logicProfile, resourceKindPolicy, unit))
  }

  function CommitmentsFromWire(w: ResourceWire): Result<Commitments, IntrinsicError> {
    var labelCommitment :- RequireNonzero(w.labelRoot, LabelRoot);
    var value :- RequireNonzero(w.valueRoot, ValueRoot);
    var controller :- RequireNonzero(w.controllerRoot, ControllerRoot);
    var policy :- RequireNonzero(w.policyRoot, PolicyRoot);
    var provenance :- RequireNonzero(w.provenanceRoot, ProvenanceRoot);
    Ok(Commitments(labelCommitment, value, controller, policy, provenance))
  }

  function ValidateEpochOrder(created: u64, expiry: Option<u64>): Result<(), IntrinsicError> {
    if expiry.Some? && expiry.value < created then Err(ExpiryBeforeCreation(created, expiry.value)) else Ok(())
  }

  function FlagsFromBits(bits: u32): Result<u32, IntrinsicError> {
    if bits == 0 then Ok(0) else Err(UnknownFlags(bits))
  }

  function ValidateIntrinsicFields(w: ResourceWire): Result<Fields, IntrinsicError> {
    var identity :- IdentityFromWire(w);
    var commitments :- CommitmentsFromWire(w);
    var nonce :- RequireNonzero(w.nonce, Nonce);
    var _ :- ValidateEpochOrder(w.createdEpoch, w.expiryEpoch);
    var flags :- FlagsFromBits(w.flags);
    Ok(Fields(identity, w.quantityAtoms, commitments, nonce, w.createdEpoch, w.expiryEpoch, flags))
  }

  /** Construction over any derivation of the identifier from the complete wire value. */
  function Construct(w: ResourceWire, deriveId: ResourceWire -> Result<Nonzero32, HashError>): Result<Resource, IntrinsicError>
  {
    var fields :- ValidateIntrinsicFields(w);
    match deriveId(w)
    case Err(error) => Err(ResourceIdDerivation(error))
    case Ok(resourceId) => Ok(Resource(resourceId, fields))
  }

  // ----- what construction decides -----

  /** The sixteen things that can be wrong with a candidate, in wire order. */
  function Defect(w: ResourceWire, i: nat): Option<IntrinsicError>
    requires i < 16
  {
    if i == 0 then ZeroDefect(w.machineId, MachineId)
    else if i == 1 then ZeroDefect(w.domainId, DomainId)
    else if i == 2 then ZeroDefect(w.applicationId, ApplicationId)
    else if i == 3 then ZeroDefect(w.resourceKindId, ResourceKindId)
    else if i == 4 then ZeroDefect(w.resourceLogicId, ResourceLogicId)
    else if i == 5 then ZeroDefect(w.logicProfileId, LogicProfileId)
    else if i == 6 then ZeroDefect(w.resourceKindPolicyId, ResourceKindPolicyId)
    else if i == 7 then ZeroDefect(w.unitId, UnitId)
    else if i == 8 then ZeroDefect(w.labelRoot, LabelRoot)
    else if i == 9 then ZeroDefect(w.valueRoot, ValueRoot)
    else if i == 10 then ZeroDefect(w.controllerRoot, ControllerRoot)
    else if i == 11 then ZeroDefect(w.policyRoot, PolicyRoot)
    else if i == 12 then ZeroDefect(w.provenanceRoot, ProvenanceRoot)
    else if i == 13 then ZeroDefect(w.nonce, Nonce)
    else if i == 14 then
      if w.expiryEpoch.Some? && w.expiryEpoch.value < w.createdEpoch
      then Some(ExpiryBeforeCreation(w.createdEpoch, w.expiryEpoch.value)) else None
    else if w.flags != 0 then Some(UnknownFlags(w.flags)) else None
  }

  function ZeroDefect(bytes: Bytes32, field: Field): Option<IntrinsicError> {
    if AllZero(bytes) then Some(ZeroField(field)) else None
  }

  ghost predicate FirstDefect(w: ResourceWire, i: nat) {
    i < 16 && Defect(w, i).Some? && forall j: nat :: j < i ==> Defect(w, j) == None
  }

  function DefectIndex(e: IntrinsicError): nat {
    match e
    case ZeroField(field) =>
      (match field
       case MachineId => 0 case DomainId => 1 case ApplicationId => 2 case ResourceKindId => 3
       case ResourceLogicId => 4 case LogicProfileId => 5 case ResourceKindPolicyId => 6 case UnitId => 7
       case LabelRoot => 8 case ValueRoot => 9 case ControllerRoot => 10 case PolicyRoot => 11
       case ProvenanceRoot => 12 case Nonce => 13)
    case ExpiryBeforeCreation(_, _) => 14
    case _ => 15
  }

  /** `e` is the first defect among positions `from` up to, not including, `to`. */
  ghost predicate FirstWithin(w: ResourceWire, e: IntrinsicError, from: nat, to: nat)
    requires to <= 16
  {
    var k := DefectIndex(e);
    from <= k < to && Defect(w, k) == Some(e) && forall j: nat :: from <= j < k ==> Defect(w, j) == None
  }

  ghost predicate NoneWithin(w: ResourceWire, from: nat, to: nat)
    requires to <= 16
  {
    forall j: nat :: from <= j < to ==> Defect(w, j) == None
  }

  lemma IdentityDefects(w: ResourceWire)
    ensures match IdentityFromWire(w) case Ok(_) => NoneWithin(w, 0, 8) case Err(e) => FirstWithin(w, e, 0, 8)
  {
  }

  lemma CommitmentDefects(w: ResourceWire)
    ensures match CommitmentsFromWire(w) case Ok(_) => NoneWithin(w, 8, 13) case Err(e) => FirstWithin(w, e, 8, 13)
  {
  }

  lemma RemainingDefects(w: ResourceWire)
    ensures RequireNonzero(w.nonce, Nonce).Err? <==> Defect(w, 13).Some?
    ensures ValidateEpochOrder(w.createdEpoch, w.expiryEpoch).Err? <==> Defect(w, 14).Some?
    ensures FlagsFromBits(w.flags).Err? <==> Defect(w, 15).Some?
  {
  }

  /** A candidate is accepted iff it has none of the sixteen defects; otherwise the first one is reported. */
  lemma ReportsFirstDefect(w: ResourceWire)
    ensures ValidateIntrinsicFields(w).Ok? <==> forall i: nat :: i < 16 ==> Defect(w, i) == None
    ensures forall i: nat :: FirstDefect(w, i) ==> ValidateIntrinsicFields(w) == Err(Defect(w, i).value)
  {
    var r := ValidateIntrinsicFields(w);
    IdentityDefects(w);
    CommitmentDefects(w);
    RemainingDefects(w);
    if r.Err? {
      var k := DefectIndex(r.error);
      assert FirstWithin(w, r.error, 0, 16);
      forall i: nat | FirstDefect(w, i) ensures r == Err(Defect(w, i).value) {
        assert i == k;
      }
    } else {
      assert NoneWithin(w, 0, 16);
    }
  }

  /** Every byte is zero. */
  ghost predicate IsZero(b: Bytes32) {
    forall i :: 0 <= i < 32 ==> b[i] == 0
  }

  /** The first of the identity fields that is zero. */
  ghost function ZeroIdentity(w: ResourceWire): Option<Field> {
    if IsZero(w.machineId) then Some(MachineId)
    else if IsZero(w.domainId) then Some(DomainId)
    else if IsZero(w.applicationId) then Some(ApplicationId)
    else if IsZero(w.resourceKindId) then Some(ResourceKindId)
    else if IsZero(w.resourceLogicId) then Some(ResourceLogicId)
    else if IsZero(w.logicProfileId) then Some(LogicProfileId)
    else if IsZero(w.resourceKindPolicyId) then Some(ResourceKindPolicyId)
    else if IsZero(w.unitId) then Some(UnitId)
    else None
  }

  /** The first of the commitments that is zero, or the nonce. */
  ghost function ZeroCommitment(w: ResourceWire): Option<Field> {
    if IsZero(w.labelRoot) then Some(LabelRoot)
    else if IsZero(w.valueRoot) then Some(ValueRoot)
    else if IsZero(w.controllerRoot) then Some(ControllerRoot)
    else if IsZero(w.policyRoot) then Some(PolicyRoot)
    else if IsZero(w.provenanceRoot) then Some(ProvenanceRoot)
    else if IsZero(w.nonce) then Some(Nonce)
    else None
  }

  ghost predicate HoldsIdentity(identity: Identity, w: ResourceWire) {
    && identity.machine == w.machineId && identity.domain == w.domainId && identity.application == w.applicationId
    && identity.resourceKind == w.resourceKindId && identity.resourceLogic == w.resourceLogicId
    && identity.logicProfile == w.logicProfileId && identity.resourceKindPolicy == w.resourceKindPolicyId && identity.unit == w.unitId
  }

  ghost predicate HoldsCommitments(commitments: Commitments, w: ResourceWire) {
    && commitments.labelCommitment == w.labelRoot && commitments.value == w.valueRoot
    && commitments.controller == w.controllerRoot && commitments.policy == w.policyRoot && commitments.provenance == w.provenanceRoot
  }

  lemma IdentityExact(w: ResourceWire)
    ensures match ZeroIdentity(w)
            case Some(field) => IdentityFromWire(w) == Err(ZeroField(field))
            case None => IdentityFromWire(w).Ok? && HoldsIdentity(IdentityFromWire(w).value, w)
  {
  }

  lemma CommitmentsExact(w: ResourceWire)
    ensures match ZeroCommitment(w)
            case Some(Nonce) => CommitmentsFromWire(w).Ok? && RequireNonzero(w.nonce, Nonce) == Err(ZeroField(Nonce))
            case Some(field) => CommitmentsFromWire(w) == Err(ZeroField(field))
            case None => CommitmentsFromWire(w).Ok? && HoldsCommitments(CommitmentsFromWire(w).value, w) && RequireNonzero(w.nonce, Nonce).Ok?
  {
  }

  /** Every refusal names its first cause, and an accepted candidate's parts are its own fields. */
  lemma ValidationExact(w: ResourceWire)
    ensures var r := ValidateIntrinsicFields(w);
            if ZeroIdentity(w).Some? then r == Err(ZeroField(ZeroIdentity(w).value))
            else if ZeroCommitment(w).Some? then r == Err(ZeroField(ZeroCommitment(w).value))
            else if w.expiryEpoch.Some? && w.expiryEpoch.value < w.createdEpoch
            then r == Err(ExpiryBeforeCreation(w.createdEpoch, w.expiryEpoch.value))
            else if w.flags != 0 then r == Err(UnknownFlags(w.flags))
            else
              && r.Ok? && HoldsIdentity(r.value.identity, w) && HoldsCommitments(r.value.commitments, w)
              && r.value.quantityAtoms == w.quantityAtoms && r.value.nonce == w.nonce && r.value.createdEpoch == w.createdEpoch
              && r.value.expiryEpoch == w.expiryEpoch && r.value.flags == 0
  {
    IdentityExact(w);
    CommitmentsExact(w);
  }

  /** With a nonzero digest, construction accepts iff the fields are free of defects; the id binds the whole wire value. */
  lemma ConstructAccepts(w: ResourceWire, deriveId: ResourceWire -> Result<Nonzero32, HashError>)
    requires deriveId(w).Ok?
    ensures Construct(w, deriveId).Ok? <==> forall i: nat :: i < 16 ==> Defect(w, i) == None
    ensures Construct(w, deriveId).Ok? ==>
              Construct(w, deriveId).value.resourceId == deriveId(w).value && Construct(w, deriveId).value.Rebuild() == w
  {
    ReportsFirstDefect(w);
  }

  /** Decode, construct, rebuild, encode is the identity on accepted bytes. */
  lemma BytesSurviveConstruction(b: seq<byte>, deriveId: ResourceWire -> Result<Nonzero32, HashError>)
    requires Decoding(b).Ok? && Construct(Decoding(b).value, deriveId).Ok?
    ensures Encoding(Construct(Decoding(b).value, deriveId).value.Rebuild()) == b
  {
    var w := Decoding(b).value;
    AcceptedIsEncoding(b);
    ConstructAccepts(w, deriveId);
  }

  /** Two accepted resources with the same fields come from the same bytes. */
  lemma FieldsDetermineBytes(b: seq<byte>, c: seq<byte>, deriveId: ResourceWire -> Result<Nonzero32, HashError>)
    requires Decoding(b).Ok? && Decoding(c).Ok?
    requires Construct(Decoding(b).value, deriveId).Ok? && Construct(Decoding(c).value, deriveId).Ok?
    ensures Construct(Decoding(b).value, deriveId).value.fields == Construct(Decoding(c).value, deriveId).value.fields <==> b == c
  {
    BytesSurviveConstruction(b, deriveId);
    BytesSurviveConstruction(c, deriveId);
  }

  // ----- the identifier -----

  /** Construction as callers reach it: the identifier is derived from the wire value itself. */
  function TryFromWire(w: ResourceWire, sha256: seq<byte> -> Bytes32, allocationSucceeds: bool): Result<Resource, IntrinsicError> {
    Construct(w, v => ResourceIdOf(v, sha256, allocationSucceeds))
  }

  /** A constructed body is identified by the digest of its own preimage, and only a defect, allocation or a zero digest prevents it. */
  lemma IdIsDigestOfBody(w: ResourceWire, sha256: seq<byte> -> Bytes32, allocationSucceeds: bool)
    ensures TryFromWire(w, sha256, allocationSucceeds).Ok? <==>
            && (forall i: nat :: i < 16 ==> Defect(w, i) == None)
            && allocationSucceeds && !AllZero(sha256(ResourceIdPreimage(w)))
    ensures TryFromWire(w, sha256, allocationSucceeds).Ok? ==>
              var r := TryFromWire(w, sha256, allocationSucceeds).value;
              r.Rebuild() == w && r.resourceId == sha256(ResourceIdPreimage(r.Rebuild()))
  {
    ReportsFirstDefect(w);
    if TryFromWire(w, sha256, allocationSucceeds).Ok? {
      ConstructAccepts(w, v => ResourceIdOf(v, sha256, allocationSucceeds));
    }
  }

  /** Two bodies with one identifier are the same body, or their preimages are a collision of the hash. */
  lemma EqualIdsMeanEqualBodies(v: ResourceWire, w: ResourceWire, sha256: seq<byte> -> Bytes32)
    requires TryFromWire(v, sha256, true).Ok? && TryFromWire(w, sha256, true).Ok?
    requires TryFromWire(v, sha256, true).value.resourceId == TryFromWire(w, sha256, true).value.resourceId
    ensures TryFromWire(v, sha256, true) == TryFromWire(w, sha256, true)
            || (ResourceIdPreimage(v) != ResourceIdPreimage(w)
                && sha256(ResourceIdPreimage(v)) == sha256(ResourceIdPreimage(w)))
  {
    IdIsDigestOfBody(v, sha256, true);
    IdIsDigestOfBody(w, sha256, true);
    if ResourceIdPreimage(v) == ResourceIdPreimage(w) { ResourceIdPreimageInjective(v, w); }
  }
}
