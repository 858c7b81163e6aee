/**
 The canonical version-one resource wire form: a ten-byte header and eighteen tagged,
 length-prefixed fields. `Encoding` and `Decoding` are the pure meaning of the encoder and the
 strict decoder; the methods `Encode` and `Decode` compute them field by field.
 */
module ResourceWire {
  import opened Outcomes
  import opened Bytes
  import opened WireCursor

  const MAGIC: seq<byte> := [0x5a, 0x52, 0x4d, 0x31]  // "ZRM1"
  const SCHEMA_VERSION := 1
  const OBJECT_TAG := 1
  const FIELD_COUNT := 18
  const HEADER_BYTES := 10
  const MAX_RESOURCE_BYTES := 16384
  const ABSENT_EXPIRY_BYTES := 595
  const PRESENT_EXPIRY_BYTES := 603

  datatype ResourceWire = ResourceWire(
    machineId: Bytes32,
    domainId: Bytes32,
    applicationId: Bytes32,
    resourceKindId: Bytes32,
    resourceLogicId: Bytes32,
    logicProfileId: Bytes32,
    resourceKindPolicyId: Bytes32,
    unitId: Bytes32,
    quantityAtoms: u128,
    labelRoot: Bytes32,
    valueRoot: Bytes32,
    controllerRoot: Bytes32,
    policyRoot: Bytes32,
    provenanceRoot: Bytes32,
    nonce: Bytes32,
    createdEpoch: u64,
    expiryEpoch: Option<u64>,
    flags: u32)

  datatype EncodeError = AllocationFailed

  // ----- fields -----

  function ExpiryPayload(expiry: Option<u64>): seq<byte> {
    match expiry
    case None => [0]
    case Some(epoch) => [1] + BigEndian(epoch, 8)
  }

  function IdentityPayloads(w: ResourceWire): (ps: seq<seq<byte>>)
    ensures |ps| == 8
  {
    [ w.machineId, w.domainId, w.applicationId, w.resourceKindId,
      w.resourceLogicId, w.logicProfileId, w.resourceKindPolicyId, w.unitId ]
  }

  function ContentPayloads(w: ResourceWire): (ps: seq<seq<byte>>)
    ensures |ps| == 7
  {
    [ BigEndian(w.quantityAtoms, 16), w.labelRoot, w.valueRoot, w.controllerRoot, w.policyRoot, w.provenanceRoot, w.nonce ]
  }

  function TermPayloads(w: ResourceWire): (ps: seq<seq<byte>>)
    ensures |ps| == 3
  {
    [ BigEndian(w.createdEpoch, 8), ExpiryPayload(w.expiryEpoch), BigEndian(w.flags, 4) ]
  }

  /** The eighteen field values, in wire order. */
  function Payloads(w: ResourceWire): (ps: seq<seq<byte>>)
    ensures |ps| == FIELD_COUNT
  {
    IdentityPayloads(w) + ContentPayloads(w) + TermPayloads(w)
  }

  lemma ListPayloads(w: ResourceWire) returns (ps: seq<seq<byte>>)
    ensures |ps| == FIELD_COUNT && ps == Payloads(w)
    ensures ps[0] == w.machineId && ps[1] == w.domainId && ps[2] == w.applicationId && ps[3] == w.resourceKindId
    ensures ps[4] == w.resourceLogicId && ps[5] == w.logicProfileId && ps[6] == w.resourceKindPolicyId && ps[7] == w.unitId
    ensures ps[8] == BigEndian(w.quantityAtoms, 16) && ps[9] == w.labelRoot && ps[10] == w.valueRoot
    ensures ps[11] == w.controllerRoot && ps[12] == w.policyRoot && ps[13] == w.provenanceRoot && ps[14] == w.nonce
    ensures ps[15] == BigEndian(w.createdEpoch, 8) && ps[16] == ExpiryPayload(w.expiryEpoch) && ps[17] == BigEndian(w.flags, 4)
  {
    ps := Payloads(w);
    assert forall i :: 0 <= i < 8 ==> ps[i] == IdentityPayloads(w)[i];
    assert forall i :: 0 <= i < 7 ==> ps[8 + i] == ContentPayloads(w)[i];
    assert forall i :: 0 <= i < 3 ==> ps[15 + i] == TermPayloads(w)[i];
    assert ps[9] == ps[8 + 1] && ps[10] == ps[8 + 2] && ps[11] == ps[8 + 3] && ps[12] == ps[8 + 4] && ps[13] == ps[8 + 5];
    assert ps[14] == ps[8 + 6] && ps[16] == ps[15 + 1] && ps[17] == ps[15 + 2];
  }

  /** Position 16 holds the expiry option; every other position has one length. */
  predicate LengthAllowed(i: nat, length: nat) {
    if i == 16 then length == 1 || length == 9
    else length == (if i == 8 then 16 else if i == 15 then 8 else if i == 17 then 4 else 32)
  }

  predicate ValueAllowed(i: nat, payload: seq<byte>) {
    i == 16 ==> payload == [0] || (|payload| == 9 && payload[0] == 1)
  }

  ghost predicate WellTyped(ps: seq<seq<byte>>) {
    |ps| == FIELD_COUNT && forall i :: 0 <= i < FIELD_COUNT ==> LengthAllowed(i, |ps[i]|) && ValueAllowed(i, ps[i])
  }

  function ExpiryFrom(payload: seq<byte>): Option<u64>
    requires payload == [0] || (|payload| == 9 && payload[0] == 1)
  {
    if payload == [0] then None else Some(ToU64(payload[1..]))
  }

  function ToU128(b: seq<byte>): u128
    requires |b| == 16
  {
    Widths(); BigEndianCanonical(b); FromBigEndian(b)
  }

  function ToU64(b: seq<byte>): u64
    requires |b| == 8
  {
    Widths(); BigEndianCanonical(b); FromBigEndian(b)
  }

  function ToU32(b: seq<byte>): u32
    requires |b| == 4
  {
    Widths(); BigEndianCanonical(b); FromBigEndian(b)
  }

  function FromPayloads(ps: seq<seq<byte>>): ResourceWire
    requires WellTyped(ps)
  {
    ResourceWire(ps[0], ps[1], ps[2], ps[3], ps[4], ps[5], ps[6], ps[7], ToU128(ps[8]), ps[9], ps[10],
                 ps[11], ps[12], ps[13], ps[14], ToU64(ps[15]), ExpiryFrom(ps[16]), ToU32(ps[17]))
  }

  lemma PayloadsWellTyped(w: ResourceWire)
    ensures WellTyped(Payloads(w))
  {
    var ps := ListPayloads(w);
  }

  lemma PayloadsDetermineWire(w: ResourceWire)
    ensures WellTyped(Payloads(w)) && FromPayloads(Payloads(w)) == w
  {
    var ps := ListPayloads(w);
    PayloadsWellTyped(w);
    Widths();
    BigEndianDecodes(w.quantityAtoms, 16);
    BigEndianDecodes(w.createdEpoch, 8);
    BigEndianDecodes(w.flags, 4);
    if w.expiryEpoch.Some? {
      BigEndianDecodes(w.expiryEpoch.value, 8);
      assert ExpiryPayload(w.expiryEpoch)[1..] == BigEndian(w.expiryEpoch.value, 8);
    }
  }

  lemma WireDeterminesPayloads(ps: seq<seq<byte>>)
    requires WellTyped(ps)
    ensures Payloads(FromPayloads(ps)) == ps
  {
    var qs := ListPayloads(FromPayloads(ps));
    BigEndianCanonical(ps[8]);
    BigEndianCanonical(ps[15]);
    BigEndianCanonical(ps[17]);
    if ps[16] != [0] {
      BigEndianCanonical(ps[16][1..]);
      assert ps[16] == [1] + ps[16][1..];
    }
    assert qs == ps;
  }

  // ----- encoding -----

  function HeaderBytes(): (h: seq<byte>)
    ensures |h| == HEADER_BYTES
  {
    MAGIC + BigEndian(SCHEMA_VERSION, 2) + BigEndian(OBJECT_TAG, 2) + BigEndian(FIELD_COUNT, 2)
  }

  function Frame(tag: nat, payload: seq<byte>): (f: seq<byte>)
    ensures |f| == 6 + |payload|
  {
    BigEndian(tag, 2) + BigEndian(|payload|, 4) + payload
  }

  /** The first `k` frames. */
  function FramesUpTo(ps: seq<seq<byte>>, k: nat): seq<byte>
    requires k <= |ps|
  {
    if k == 0 then [] else FramesUpTo(ps, k - 1) + Frame(k, ps[k - 1])
  }

  /** The frames from position `i` on. */
  function FramesFrom(ps: seq<seq<byte>>, i: nat): seq<byte>
    requires i <= |ps|
    decreases |ps| - i
  {
    if i == |ps| then [] else Frame(i + 1, ps[i]) + FramesFrom(ps, i + 1)
  }

  /** The header and the first `k` frames. */
  function Written(ps: seq<seq<byte>>, k: nat): seq<byte>
    requires k <= |ps|
  {
    HeaderBytes() + FramesUpTo(ps, k)
  }

  function Encoding(w: ResourceWire): seq<byte> {
    Written(Payloads(w), FIELD_COUNT)
  }

  lemma {:induction false} FramesSplit(ps: seq<seq<byte>>, i: nat)
    requires i <= |ps|
    ensures FramesUpTo(ps, i) + FramesFrom(ps, i) == FramesUpTo(ps, |ps|)
    decreases |ps| - i
  {
    if i < |ps| {
      FramesSplit(ps, i + 1);
      assert FramesUpTo(ps, i) + (Frame(i + 1, ps[i]) + FramesFrom(ps, i + 1)) == FramesUpTo(ps, i + 1) + FramesFrom(ps, i + 1);
    }
  }

  method AppendHeader(output: ByteBuffer)
    modifies output
    ensures output.bytes == old(output.bytes) + HeaderBytes()
  {
    output.Extend(MAGIC);
    output.Extend(BigEndian(SCHEMA_VERSION, 2));
    output.Extend(BigEndian(OBJECT_TAG, 2));
    output.Extend(BigEndian(FIELD_COUNT, 2));
    assert output.bytes == old(output.bytes) + HeaderBytes();
  }

  /** One field: tag, length, value. */
  method AppendFrame(output: ByteBuffer, tag: nat, value: seq<byte>)
    modifies output
    ensures output.bytes == old(output.bytes) + Frame(tag, value)
  {
    output.Extend(BigEndian(tag, 2));
    output.Extend(BigEndian(|value|, 4));
    output.Extend(value);
    assert output.bytes == old(output.bytes) + Frame(tag, value);
  }

  /** Appends the field at position `tag - 1` of `ps` after its predecessors. */
  method AppendFixedField(output: ByteBuffer, tag: nat, value: seq<byte>, ghost ps: seq<seq<byte>>)
    requires 1 <= tag <= |ps| && value == ps[tag - 1]
    requires output.bytes == Written(ps, tag - 1)
    modifies output
    ensures output.bytes == Written(ps, tag)
  {
    ghost var before := output.bytes;
    AppendFrame(output, tag, value);
    FrameAppended(output.bytes, before, tag, ps);
  }

  lemma Regroup<T>(h: seq<T>, a: seq<T>, b: seq<T>, c: seq<T>, d: seq<T>)
    ensures h + a + b + c + d == h + (a + b + (c + d))
  {
  }

  method AppendExpiryField(output: ByteBuffer, expiry: Option<u64>, ghost ps: seq<seq<byte>>)
    requires |ps| == FIELD_COUNT && ps[16] == ExpiryPayload(expiry)
    requires output.bytes == Written(ps, 16)
    modifies output
    ensures output.bytes == Written(ps, 17)
  {
    ghost var before := output.bytes;
    output.Extend(BigEndian(0x0011, 2));
    match expiry {
      case None =>
        output.Extend(BigEndian(1, 4));
        output.Extend([0]);
        Regroup(before, BigEndian(17, 2), BigEndian(1, 4), [0], []);
      case Some(epoch) =>
        output.Extend(BigEndian(9, 4));
        output.Extend([1]);
        output.Extend(BigEndian(epoch, 8));
        Regroup(before, BigEndian(17, 2), BigEndian(9, 4), [1], BigEndian(epoch, 8));
    }
    FrameAppended(output.bytes, before, 17, ps);
  }

  lemma WrittenNext(ps: seq<seq<byte>>, k: nat)
    requires k < |ps|
    ensures Written(ps, k + 1) == Written(ps, k) + Frame(k + 1, ps[k])
  {
    assert FramesUpTo(ps, k + 1) == FramesUpTo(ps, k) + Frame(k + 1, ps[k]);
  }

  lemma FrameAppended(after: seq<byte>, before: seq<byte>, tag: nat, ps: seq<seq<byte>>)
    requires 1 <= tag <= |ps| && before == Written(ps, tag - 1)
    requires after == before + Frame(tag, ps[tag - 1])
    ensures after == Written(ps, tag)
  {
    WrittenNext(ps, tag - 1);
  }

  /** Two consecutive fields. */
  method AppendPair(output: ByteBuffer, firstTag: nat, first: seq<byte>, second: seq<byte>, ghost ps: seq<seq<byte>>)
    requires 1 <= firstTag < |ps| && first == ps[firstTag - 1] && second == ps[firstTag]
    requires output.bytes == Written(ps, firstTag - 1)
    modifies output
    ensures output.bytes == Written(ps, firstTag + 1)
  {
    WrittenTwice(ps, firstTag - 1, Frame(firstTag, first), Frame(firstTag + 1, second));
    AppendFrame(output, firstTag, first);
    AppendFrame(output, firstTag + 1, second);
  }

  lemma WrittenTwice(ps: seq<seq<byte>>, k: nat, first: seq<byte>, second: seq<byte>)
    requires k + 1 < |ps| && first == Frame(k + 1, ps[k]) && second == Frame(k + 2, ps[k + 1])
    ensures Written(ps, k + 2) == Written(ps, k) + first + second
  {
    var middle := Written(ps, k + 1);
    assert middle == Written(ps, k) + first by { WrittenNext(ps, k); }
    assert Written(ps, k + 2) == middle + second by { WrittenNext(ps, k + 1); }
  }

  /** Encodes into a buffer reserved for exactly the encoded length; fields go in wire order. */
  method Encode(w: ResourceWire, allocationSucceeds: bool) returns (r: Result<seq<byte>, EncodeError>)
    ensures r == if allocationSucceeds then Ok(Encoding(w)) else Err(AllocationFailed)
    ensures r.Ok? ==> |r.value| == if w.expiryEpoch.Some? then PRESENT_EXPIRY_BYTES else ABSENT_EXPIRY_BYTES
  {
    if !allocationSucceeds {
      return Err(AllocationFailed);
    }
    ghost var ps := ListPayloads(w);
    var output := new ByteBuffer();
    AppendHeader(output);
    AppendPair(output, 0x0001, w.machineId, w.domainId, ps);
    AppendPair(output, 0x0003, w.applicationId, w.resourceKindId, ps);
    AppendPair(output, 0x0005, w.resourceLogicId, w.logicProfileId, ps);
    AppendPair(output, 0x0007, w.resourceKindPolicyId, w.unitId, ps);
    AppendFixedField(output, 0x0009, BigEndian(w.quantityAtoms, 16), ps);
    AppendPair(output, 0x000a, w.labelRoot, w.valueRoot, ps);
    AppendPair(output, 0x000c, w.controllerRoot, w.policyRoot, ps);
    AppendPair(output, 0x000e, w.provenanceRoot, w.nonce, ps);
    AppendFixedField(output, 0x0010, BigEndian(w.createdEpoch, 8), ps);
    AppendExpiryField(output, w.expiryEpoch, ps);
    AppendFixedField(output, 0x0012, BigEndian(w.flags, 4), ps);
    EncodingLength(w);
    return Ok(output.bytes);
  }

  /** Field lengths are fixed by position, so frame boundaries are too. */
  function FrameStart(expiryPresent: bool, k: nat): nat {
    if k <= 8 then HEADER_BYTES + 38 * k
    else if k <= 15 then HEADER_BYTES + 38 * k - 16
    else if k == 16 then 578
    else if k == 17 then (if expiryPresent then 593 else 585)
    else (if expiryPresent then PRESENT_EXPIRY_BYTES else ABSENT_EXPIRY_BYTES)
  }

  lemma {:induction false} FramesUpToLength(w: ResourceWire, k: nat)
    requires k <= FIELD_COUNT
    ensures HEADER_BYTES + |FramesUpTo(Payloads(w), k)| == FrameStart(w.expiryEpoch.Some?, k)
  {
    if k > 0 {
      FramesUpToLength(w, k - 1);
      PayloadsWellTyped(w);
      assert LengthAllowed(k - 1, |Payloads(w)[k - 1]|);
      assert k == 17 ==> Payloads(w)[k - 1] == ExpiryPayload(w.expiryEpoch);
    }
  }

  lemma EncodingLength(w: ResourceWire)
    ensures |Encoding(w)| == if w.expiryEpoch.Some? then PRESENT_EXPIRY_BYTES else ABSENT_EXPIRY_BYTES
  {
    FramesUpToLength(w, FIELD_COUNT);
  }

  // ----- decoding -----

  function ParseHeader(bytes: seq<byte>): Result<seq<byte>, Reject> {
    if |bytes| > MAX_RESOURCE_BYTES then Err(WireBytes)
    else if |bytes| < HEADER_BYTES then Err(Header)
    else if bytes[..4] != MAGIC then Err(Magic)
    else if FromBigEndian(bytes[4..6]) != SCHEMA_VERSION then Err(Version)
    else if FromBigEndian(bytes[6..8]) != OBJECT_TAG then Err(Object)
    else if FromBigEndian(bytes[8..10]) != FIELD_COUNT then Err(FieldCount)
    else Ok(bytes[10..])
  }

  /** Reads the frame at position `i`: its payload and the bytes after it. */
  function ReadFrame(i: nat, b: seq<byte>): Result<(seq<byte>, seq<byte>), Reject> {
    if |b| < 6 then Err(FieldHeader)
    else if FromBigEndian(b[..2]) != i + 1 then Err(FieldTag)
    else
      var length := FromBigEndian(b[2..6]);
      if !LengthAllowed(i, length) then Err(FieldLength)
      else if |b| < 6 + length then Err(FieldValue)
      else if !ValueAllowed(i, b[6..6 + length]) then Err(OptionTag)
      else Ok((b[6..6 + length], b[6 + length..]))
  }

  function ReadFrames(i: nat, b: seq<byte>): Result<(seq<seq<byte>>, seq<byte>), Reject>
    requires i <= FIELD_COUNT
    decreases FIELD_COUNT - i, b
  {
    if i == FIELD_COUNT then Ok(([], b))
    else
      var (payload, rest) :- ReadFrame(i, b);
      var (payloads, end) :- ReadFrames(i + 1, rest);
      Ok(([payload] + payloads, end))
  }

  lemma ReadFrameTyped(i: nat, b: seq<byte>)
    ensures ReadFrame(i, b).Ok? ==> LengthAllowed(i, |ReadFrame(i, b).value.0|) && ValueAllowed(i, ReadFrame(i, b).value.0)
  {
  }

  /** The payloads fit positions `i` and up. */
  ghost predicate TypedFrom(i: nat, ps: seq<seq<byte>>) {
    forall k :: 0 <= k < |ps| ==> LengthAllowed(i + k, |ps[k]|) && ValueAllowed(i + k, ps[k])
  }

  lemma TypedCons(i: nat, p: seq<byte>, ps: seq<seq<byte>>)
    requires LengthAllowed(i, |p|) && ValueAllowed(i, p) && TypedFrom(i + 1, ps)
    ensures TypedFrom(i, [p] + ps)
  {
    var all := [p] + ps;
    forall k | 0 <= k < |all| ensures LengthAllowed(i + k, |all[k]|) && ValueAllowed(i + k, all[k]) {
      if k > 0 { assert all[k] == ps[k - 1]; assert i + k == (i + 1) + (k - 1); }
    }
  }

  lemma {:induction false} ReadFramesTyped(i: nat, b: seq<byte>)
    requires i <= FIELD_COUNT
    ensures ReadFrames(i, b).Ok? ==> |ReadFrames(i, b).value.0| == FIELD_COUNT - i && TypedFrom(i, ReadFrames(i, b).value.0)
    decreases FIELD_COUNT - i
  {
    if i < FIELD_COUNT && ReadFrame(i, b).Ok? {
      var (payload, rest) := ReadFrame(i, b).value;
      ReadFramesTyped(i + 1, rest);
      if ReadFrames(i + 1, rest).Ok? {
        ReadFrameTyped(i, b);
        TypedCons(i, payload, ReadFrames(i + 1, rest).value.0);
      }
    }
  }

  function Decoding(bytes: seq<byte>): Result<ResourceWire, Reject> {
    var body :- ParseHeader(bytes);
    var (ps, end) :- ReadFrames(0, body);
    if end != [] then Err(Trailing)
    else
      ReadFramesTyped(0, body);
      assert forall i :: 0 <= i < FIELD_COUNT ==> LengthAllowed(0 + i, |ps[i]|) && ValueAllowed(0 + i, ps[i]);
      Ok(FromPayloads(ps))
  }

  method ParseHeaderAt(cursor: Cursor, bytes: seq<byte>) returns (r: Result<(), Reject>)
    requires cursor.remaining == bytes
    modifies cursor
    ensures HEADER_BYTES <= |bytes| <= MAX_RESOURCE_BYTES ==>
            match ParseHeader(bytes)
            case Err(code) => r == Err(code)
            case Ok(body) => r == Ok(()) && cursor.remaining == body
  {
    var magic :- cursor.Take(4, Header);
    if magic != MAGIC {
      return Err(Magic);
    }
    assert |bytes| >= 6 ==> bytes[4..][..2] == bytes[4..6];
    var version :- cursor.TakeU16(Header);
    if version != SCHEMA_VERSION {
      return Err(Version);
    }
    assert |bytes| >= 6 ==> bytes[4..][2..] == bytes[6..] && (|bytes| >= 8 ==> bytes[6..][..2] == bytes[6..8]);
    var object_ :- cursor.TakeU16(Header);
    if object_ != OBJECT_TAG {
      return Err(Object);
    }
    assert bytes[6..][2..] == bytes[8..] && (|bytes| >= 10 ==> bytes[8..][..2] == bytes[8..10]);
    var count :- cursor.TakeU16(Header);
    if count != FIELD_COUNT {
      return Err(FieldCount);
    }
    assert bytes[8..][2..] == bytes[10..];
    return Ok(());
  }

  method ReadFieldHeader(cursor: Cursor, expectedTag: nat) returns (r: Result<nat, Reject>)
    modifies cursor
    ensures var b := old(cursor.remaining);
            if |b| < 6 then r == Err(FieldHeader)
            else if FromBigEndian(b[..2]) != expectedTag then r == Err(FieldTag)
            else r == Ok(FromBigEndian(b[2..6])) && cursor.remaining == b[6..]
  {
    ghost var b := cursor.remaining;
    var tag :- cursor.TakeU16(FieldHeader);
    assert |b| >= 6 ==> b[2..][..4] == b[2..6] && b[2..][4..] == b[6..];
    var length :- cursor.TakeU32(FieldHeader);
    if tag != expectedTag {
      return Err(FieldTag);
    }
    return Ok(length);
  }

  /** One field off the cursor, as `ReadFrame` says. */
  ghost predicate Follows(r: Result<seq<byte>, Reject>, i: nat, before: seq<byte>, after: seq<byte>) {
    match ReadFrame(i, before)
    case Err(code) => r == Err(code)
    case Ok(read) => r == Ok(read.0) && after == read.1
  }

  method ReadFixedField(cursor: Cursor, expectedTag: nat, length: nat) returns (r: Result<seq<byte>, Reject>)
    requires 1 <= expectedTag <= FIELD_COUNT && expectedTag != 17
    requires LengthAllowed(expectedTag - 1, length)
    modifies cursor
    ensures Follows(r, expectedTag - 1, old(cursor.remaining), cursor.remaining)
    ensures r.Ok? ==> |r.value| == length
  {
    ghost var b := cursor.remaining;
    var declared :- ReadFieldHeader(cursor, expectedTag);
    if declared != length {
      return Err(FieldLength);
    }
    assert |b| >= 6 + length ==> b[6..][..length] == b[6..6 + length] && b[6..][length..] == b[6 + length..];
    r := cursor.Take(length, FieldValue);
  }

  method ReadExpiryField(cursor: Cursor) returns (r: Result<Option<u64>, Reject>, ghost payload: seq<byte>)
    modifies cursor
    ensures Follows(if r.Ok? then Ok(payload) else Err(r.error), 16, old(cursor.remaining), cursor.remaining)
    ensures r.Ok? ==> LengthAllowed(16, |payload|) && ValueAllowed(16, payload) && r.value == ExpiryFrom(payload)
  {
    ghost var b := cursor.remaining;
    payload := [];
    var declared := ReadFieldHeader(cursor, 0x0011);
    if declared.Err? {
      return Err(declared.error), payload;
    }
    var length := declared.value;
    if length != 1 && length != 9 {
      return Err(FieldLength), payload;
    }
    assert |b| >= 6 + length ==> b[6..][..length] == b[6..6 + length] && b[6..][length..] == b[6 + length..];
    var value := cursor.Take(length, FieldValue);
    if value.Err? {
      return Err(value.error), payload;
    }
    payload := value.value;
    if value.value == [0] {
      return Ok(None), payload;
    } else if length == 9 && value.value[0] == 1 {
      return Ok(Some(ToU64(value.value[1..]))), payload;
    } else {
      return Err(OptionTag), payload;
    }
  }

  /** Fields already read, put back in front of what is still to be read. */
  function Resume(done: seq<seq<byte>>, rest: Result<(seq<seq<byte>>, seq<byte>), Reject>): Result<(seq<seq<byte>>, seq<byte>), Reject> {
    match rest
    case Err(code) => Err(code)
    case Ok(read) => Ok((done + read.0, read.1))
  }

  lemma ResumeNext(done: seq<seq<byte>>, i: nat, before: seq<byte>, r: Result<seq<byte>, Reject>, after: seq<byte>)
    requires i < FIELD_COUNT && Follows(r, i, before, after)
    ensures r.Ok? ==> Resume(done, ReadFrames(i, before)) == Resume(done + [r.value], ReadFrames(i + 1, after))
    ensures r.Err? ==> Resume(done, ReadFrames(i, before)) == Err(r.error)
  {
    if r.Ok? && ReadFrames(i + 1, after).Ok? {
      var ps := ReadFrames(i + 1, after).value.0;
      assert done + ([r.value] + ps) == (done + [r.value]) + ps;
    }
  }

  type Frames = Result<(seq<seq<byte>>, seq<byte>), Reject>

  /** Reads the next field; `goal` is what reading all eighteen frames comes to. */
  method ReadNext(cursor: Cursor, expectedTag: nat, length: nat, ghost goal: Frames, ghost done: seq<seq<byte>>)
    returns (r: Result<seq<byte>, Reject>)
    requires 1 <= expectedTag <= FIELD_COUNT && expectedTag != 17
    requires LengthAllowed(expectedTag - 1, length)
    requires goal == Resume(done, ReadFrames(expectedTag - 1, cursor.remaining))
    modifies cursor
    ensures r.Ok? ==> |r.value| == length && goal == Resume(done + [r.value], ReadFrames(expectedTag, cursor.remaining))
    ensures r.Err? ==> goal == Err(r.error)
  {
    ghost var before := cursor.remaining;
    r := ReadFixedField(cursor, expectedTag, length);
    ResumeNext(done, expectedTag - 1, before, r, cursor.remaining);
  }

  /** Two consecutive 32-byte fields. */
  method ReadPair(cursor: Cursor, firstTag: nat, ghost goal: Frames, ghost done: seq<seq<byte>>)
    returns (r: Result<(Bytes32, Bytes32), Reject>)
    requires 1 <= firstTag < FIELD_COUNT && LengthAllowed(firstTag - 1, 32) && LengthAllowed(firstTag, 32)
    requires goal == Resume(done, ReadFrames(firstTag - 1, cursor.remaining))
    modifies cursor
    ensures r.Ok? ==> goal == Resume(done + [r.value.0, r.value.1], ReadFrames(firstTag + 1, cursor.remaining))
    ensures r.Err? ==> goal == Err(r.error)
  {
    var first :- ReadNext(cursor, firstTag, 32, goal, done);
    var second :- ReadNext(cursor, firstTag + 1, 32, goal, done + [first]);
    assert done + [first] + [second] == done + [first, second];
    return Ok((first, second));
  }

  lemma ThreePairs<T>(s: seq<T>, a: T, b: T, c: T, d: T, e: T, f: T)
    ensures s + [a, b] + [c, d] + [e, f] == s + [a, b, c, d, e, f]
  {
  }

  datatype IdentityFields = IdentityFields(
    machine: Bytes32, domain: Bytes32, application: Bytes32, kind: Bytes32,
    logic: Bytes32, profile: Bytes32, kindPolicy: Bytes32, unit: Bytes32)
  {
    function Payloads(): seq<seq<byte>> {
      [machine, domain] + [application, kind, logic, profile, kindPolicy, unit]
    }
  }

  datatype ContentFields = ContentFields(
    quantity: seq<byte>, labelRoot: Bytes32, value: Bytes32, controller: Bytes32,
    policy: Bytes32, provenance: Bytes32, nonce: Bytes32)
  {
    function Payloads(): seq<seq<byte>> {
      [quantity] + [labelRoot, value, controller, policy, provenance, nonce]
    }
  }

  method ReadIdentity(cursor: Cursor, ghost goal: Frames, ghost done: seq<seq<byte>>) returns (r: Result<IdentityFields, Reject>)
    requires goal == Resume(done, ReadFrames(0, cursor.remaining))
    modifies cursor
    ensures r.Ok? ==> goal == Resume(done + r.value.Payloads(), ReadFrames(8, cursor.remaining))
    ensures r.Err? ==> goal == Err(r.error)
  {
    var authority :- ReadPair(cursor, 0x0001, goal, done);
    ghost var two := done + [authority.0, authority.1];
    var subject :- ReadPair(cursor, 0x0003, goal, two);
    ghost var four := two + [subject.0, subject.1];
    var logic :- ReadPair(cursor, 0x0005, goal, four);
    ghost var six := four + [logic.0, logic.1];
    var policy :- ReadPair(cursor, 0x0007, goal, six);
    r := Ok(IdentityFields(authority.0, authority.1, subject.0, subject.1, logic.0, logic.1, policy.0, policy.1));
    ThreePairs(two, subject.0, subject.1, logic.0, logic.1, policy.0, policy.1);
    Associate(done, [authority.0, authority.1], [subject.0, subject.1, logic.0, logic.1, policy.0, policy.1]);
  }

  method ReadContent(cursor: Cursor, ghost goal: Frames, ghost done: seq<seq<byte>>) returns (r: Result<ContentFields, Reject>)
    requires goal == Resume(done, ReadFrames(8, cursor.remaining))
    modifies cursor
    ensures r.Ok? ==> |r.value.quantity| == 16 && goal == Resume(done + r.value.Payloads(), ReadFrames(15, cursor.remaining))
    ensures r.Err? ==> goal == Err(r.error)
  {
    var quantityAtoms :- ReadNext(cursor, 0x0009, 16, goal, done);
    ghost var one := done + [quantityAtoms];
    var roots :- ReadPair(cursor, 0x000a, goal, one);
    ghost var three := one + [roots.0, roots.1];
    var control :- ReadPair(cursor, 0x000c, goal, three);
    ghost var five := three + [control.0, control.1];
    var origin :- ReadPair(cursor, 0x000e, goal, five);
    r := Ok(ContentFields(quantityAtoms, roots.0, roots.1, control.0, control.1, origin.0, origin.1));
    ThreePairs(one, roots.0, roots.1, control.0, control.1, origin.0, origin.1);
    Associate(done, [quantityAtoms], [roots.0, roots.1, control.0, control.1, origin.0, origin.1]);
  }

  lemma Associate<T>(a: seq<T>, b: seq<T>, c: seq<T>)
    ensures a + b + c == a + (b + c)
  {
  }

  method ReadTerms(cursor: Cursor, ghost goal: Frames, ghost done: seq<seq<byte>>)
    returns (r: Result<(u64, Option<u64>, u32), Reject>, ghost terms: seq<seq<byte>>)
    requires goal == Resume(done, ReadFrames(15, cursor.remaining))
    modifies cursor
    ensures r.Ok? ==> TermsMean(terms, r.value) && goal == Ok((done + terms, cursor.remaining))
    ensures r.Err? ==> goal == Err(r.error)
  {
    terms := [];
    var createdEpoch :- ReadNext(cursor, 0x0010, 8, goal, done);
    ghost var before := cursor.remaining;
    ghost var payload;
    var expiry;
    expiry, payload := ReadExpiryField(cursor);
    ResumeNext(done + [createdEpoch], 16, before, if expiry.Ok? then Ok(payload) else Err(expiry.error), cursor.remaining);
    var expiryEpoch :- expiry;
    var flags :- ReadNext(cursor, 0x0012, 4, goal, done + [createdEpoch] + [payload]);
    terms := [createdEpoch, payload, flags];
    assert done + [createdEpoch] + [payload] + [flags] + [] == done + terms;
    r := Ok((ToU64(createdEpoch), expiryEpoch, ToU32(flags)));
  }

  ghost predicate TermsMean(terms: seq<seq<byte>>, values: (u64, Option<u64>, u32)) {
    && |terms| == 3 && |terms[0]| == 8 && ValueAllowed(16, terms[1]) && |terms[2]| == 4
    && values == (ToU64(terms[0]), ExpiryFrom(terms[1]), ToU32(terms[2]))
  }

  /** The strict decoder; it reads the eighteen fields in wire order, here in three stretches. */
  method Decode(bytes: seq<byte>) returns (r: Result<ResourceWire, Reject>)
    ensures r == Decoding(bytes)
  {
    if |bytes| > MAX_RESOURCE_BYTES {
      return Err(WireBytes);
    }
    if |bytes| < HEADER_BYTES {
      return Err(Header);
    }
    var cursor := new Cursor(bytes);
    var _ :- ParseHeaderAt(cursor, bytes);
    ghost var body := cursor.remaining;
    ghost var goal := ReadFrames(0, body);
    assert goal == Resume([], goal) by {
      if goal.Ok? { assert [] + goal.value.0 == goal.value.0; }
    }
    var identity :- ReadIdentity(cursor, goal, []);
    assert [] + identity.Payloads() == identity.Payloads();
    var content :- ReadContent(cursor, goal, identity.Payloads());
    var last, terms := ReadTerms(cursor, goal, identity.Payloads() + content.Payloads());
    var ends :- last;
    var (createdEpoch, expiryEpoch, flags) := ends;
    if !cursor.IsEmpty() {
      ReadFramesTyped(0, body);
      return Err(Trailing);
    }
    Assemble(bytes, identity, content, terms, ends);
    return Ok(ResourceWire(identity.machine, identity.domain, identity.application, identity.kind,
                           identity.logic, identity.profile, identity.kindPolicy, identity.unit,
                           ToU128(content.quantity), content.labelRoot, content.value, content.controller,
                           content.policy, content.provenance, content.nonce,
                           createdEpoch, expiryEpoch, flags));
  }

  lemma Assemble(bytes: seq<byte>, identity: IdentityFields, content: ContentFields, terms: seq<seq<byte>>, ends: (u64, Option<u64>, u32))
    requires |content.quantity| == 16 && TermsMean(terms, ends)
    requires ParseHeader(bytes).Ok?
    requires ReadFrames(0, ParseHeader(bytes).value) == Ok((identity.Payloads() + content.Payloads() + terms, []))
    ensures Decoding(bytes)
            == Ok(ResourceWire(identity.machine, identity.domain, identity.application, identity.kind,
                               identity.logic, identity.profile, identity.kindPolicy, identity.unit,
                               ToU128(content.quantity), content.labelRoot, content.value, content.controller,
                               content.policy, content.provenance, content.nonce,
                               ends.0, ends.1, ends.2))
  {
    ReadFramesTyped(0, ParseHeader(bytes).value);
  }
}
