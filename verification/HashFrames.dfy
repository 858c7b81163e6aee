/**
 Length-framed hash preimages of the closed protocol operations. The digest function itself is a
 parameter: everything proved here is about what is fed to it.
 */
module HashFrames {
  import opened Outcomes
  import opened Bytes
  import opened ResourceWire
  import opened WireTheorems

  datatype HashError = LengthOverflow | AllZeroDigest | EncodeFailed(error: EncodeError)

  function Ascii(s: string): (b: seq<byte>)
    requires forall i :: 0 <= i < |s| ==> s[i] as int < 0x80
    ensures |b| == |s|
  {
    seq(|s|, i requires 0 <= i < |s| => s[i] as int)
  }

  const RESOURCE_V1_DOMAIN := Ascii("zrm.resource.v1")
  const SHA256_SUITE_DOMAIN := Ascii("zrm.crypto_suite.sha256.v1")
  const TRANSPARENT_NULLIFIER_V1_DOMAIN := Ascii("zrm.nullifier.transparent.v1")
  const TRANSPARENT_NULLIFIER_PAYLOAD_BYTES := 96
  const INNER_LENGTH_BYTES := 4

  /** Domain and payload, each behind its length. */
  function Framed(domain: seq<byte>, payload: seq<byte>): seq<byte> {
    BigEndian(|domain|, 2) + domain + BigEndian(|payload|, 4) + payload
  }

  function ResourceIdPreimage(w: ResourceWire): seq<byte> {
    Framed(RESOURCE_V1_DOMAIN, BigEndian(|Encoding(w)|, 4) + Encoding(w))
  }

  function NullifierPreimage(machine: Bytes32, domain: Bytes32, resource: Bytes32): seq<byte> {
    Framed(TRANSPARENT_NULLIFIER_V1_DOMAIN, machine + domain + resource)
  }

  function SuitePreimage(): seq<byte> {
    Framed(SHA256_SUITE_DOMAIN, [])
  }

  // ----- the operations -----

  class Hasher {
    var fed: seq<byte>

    constructor ()
      ensures fed == []
    {
      fed := [];
    }

    method Update(bytes: seq<byte>)
      modifies this
      ensures fed == old(fed) + bytes
    {
      fed := fed + bytes;
    }
  }

  function NonzeroDigest(digest: Bytes32): Result<Nonzero32, HashError> {
    if AllZero(digest) then Err(AllZeroDigest) else Ok(digest)
  }

  /** Checked widths of the resource hash frame: wire, payload and domain length. */
  function FrameLengths(wireLength: nat, domainLength: nat): Result<(u32, u32, u16), HashError> {
    if wireLength >= 0x1_0000_0000 then Err(LengthOverflow)
    else if wireLength + INNER_LENGTH_BYTES >= 0x1_0000_0000 then Err(LengthOverflow)
    else if domainLength >= 0x1_0000 then Err(LengthOverflow)
    else Ok((wireLength, wireLength + INNER_LENGTH_BYTES, domainLength))
  }

  /** The derived identifier: no width overflow is possible, so only allocation and a zero digest can fail. */
  function ResourceIdOf(w: ResourceWire, sha256: seq<byte> -> Bytes32, allocationSucceeds: bool): Result<Nonzero32, HashError> {
    if !allocationSucceeds then Err(EncodeFailed(AllocationFailed)) else NonzeroDigest(sha256(ResourceIdPreimage(w)))
  }

  lemma FedInFive<T>(a: seq<T>, b: seq<T>, c: seq<T>, d: seq<T>, e: seq<T>)
    ensures [] + a + b + c + d + e == a + b + c + (d + e)
  {
  }

  method DeriveResourceId(w: ResourceWire, sha256: seq<byte> -> Bytes32, allocationSucceeds: bool)
    returns (r: Result<Nonzero32, HashError>)
    ensures r == ResourceIdOf(w, sha256, allocationSucceeds)
  {
    var encoded := Encode(w, allocationSucceeds);
    if encoded.Err? {
      return Err(EncodeFailed(encoded.error));
    }
    var wire := encoded.value;
    var (wireLength, payloadLength, domainLength) := FrameLengths(|wire|, |RESOURCE_V1_DOMAIN|).value;  // always in range
    var hasher := new Hasher();
    hasher.Update(BigEndian(domainLength, 2));
    hasher.Update(RESOURCE_V1_DOMAIN);
    hasher.Update(BigEndian(payloadLength, 4));
    hasher.Update(BigEndian(wireLength, 4));
    hasher.Update(wire);
    FedInFive(BigEndian(domainLength, 2), RESOURCE_V1_DOMAIN, BigEndian(payloadLength, 4), BigEndian(wireLength, 4), wire);
    assert hasher.fed == ResourceIdPreimage(w);
    return NonzeroDigest(sha256(hasher.fed));
  }

  method StartFramedHash(domain: seq<byte>, payloadLength: u32) returns (r: Result<Hasher, HashError>)
    ensures r.Ok? <==> |domain| < 0x1_0000
    ensures r.Ok? ==> fresh(r.value) && r.value.fed == BigEndian(|domain|, 2) + domain + BigEndian(payloadLength, 4)
    ensures r.Err? ==> r.error == LengthOverflow
  {
    if |domain| >= 0x1_0000 {
      return Err(LengthOverflow);
    }
    var hasher := new Hasher();
    hasher.Update(BigEndian(|domain|, 2));
    hasher.Update(domain);
    hasher.Update(BigEndian(payloadLength, 4));
    assert hasher.fed == BigEndian(|domain|, 2) + domain + BigEndian(payloadLength, 4);
    return Ok(hasher);
  }

  method Sha256ReferenceSuiteId(sha256: seq<byte> -> Bytes32) returns (r: Result<Nonzero32, HashError>)
    ensures r == NonzeroDigest(sha256(SuitePreimage()))
  {
    var started := StartFramedHash(SHA256_SUITE_DOMAIN, 0);
    var hasher := started.value;  // the domain is far below the u16 bound
    assert hasher.fed == SuitePreimage();
    return NonzeroDigest(sha256(hasher.fed));
  }

  method DeriveTransparentNullifier(machine: Bytes32, domain: Bytes32, resource: Bytes32, sha256: seq<byte> -> Bytes32)
    returns (r: Result<Nonzero32, HashError>)
    ensures r == NonzeroDigest(sha256(NullifierPreimage(machine, domain, resource)))
  {
    var started := StartFramedHash(TRANSPARENT_NULLIFIER_V1_DOMAIN, TRANSPARENT_NULLIFIER_PAYLOAD_BYTES);
    var hasher := started.value;  // the domain is far below the u16 bound
    hasher.Update(machine);
    hasher.Update(domain);
    hasher.Update(resource);
    assert hasher.fed == NullifierPreimage(machine, domain, resource);
    return NonzeroDigest(sha256(hasher.fed));
  }

  // ----- separation -----

  /** Framing loses nothing: equal preimages have equal domains and equal payloads. */
  lemma FramedInjective(d: seq<byte>, p: seq<byte>, e: seq<byte>, q: seq<byte>)
    requires |d| < 0x1_0000 && |e| < 0x1_0000 && |p| < 0x1_0000_0000 && |q| < 0x1_0000_0000
    requires Framed(d, p) == Framed(e, q)
    ensures d == e && p == q
  {
    var f, g := Framed(d, p), Framed(e, q);
    Widths();
    assert f[..2] == BigEndian(|d|, 2) && g[..2] == BigEndian(|e|, 2);
    BigEndianInjective(|d|, |e|, 2);
    var n := 2 + |d|;
    assert f[2..n] == d && g[2..n] == e;
    assert f[n + 4..] == p && g[n + 4..] == q;
  }

  /** Distinct wire values have distinct resource-id preimages. */
  lemma ResourceIdPreimageInjective(v: ResourceWire, w: ResourceWire)
    requires ResourceIdPreimage(v) == ResourceIdPreimage(w)
    ensures v == w
  {
    EncodingLength(v);
    EncodingLength(w);
    var p := BigEndian(|Encoding(v)|, 4) + Encoding(v);
    var q := BigEndian(|Encoding(w)|, 4) + Encoding(w);
    FramedInjective(RESOURCE_V1_DOMAIN, p, RESOURCE_V1_DOMAIN, q);
    assert p[4..] == Encoding(v) && q[4..] == Encoding(w);
    EncodingInjective(v, w);
  }

  /** Distinct (machine, domain, resource) triples have distinct nullifier preimages. */
  lemma NullifierPreimageInjective(m: Bytes32, d: Bytes32, r: Bytes32, m': Bytes32, d': Bytes32, r': Bytes32)
    requires NullifierPreimage(m, d, r) == NullifierPreimage(m', d', r')
    ensures m == m' && d == d' && r == r'
  {
    var p, q := m + d + r, m' + d' + r';
    FramedInjective(TRANSPARENT_NULLIFIER_V1_DOMAIN, p, TRANSPARENT_NULLIFIER_V1_DOMAIN, q);
    assert p[..32] == m && p[32..64] == d && p[64..] == r;
    assert q[..32] == m' && q[32..64] == d' && q[64..] == r';
  }

  /** The three operations never hash a common preimage. */
  lemma OperationsSeparated(w: ResourceWire, m: Bytes32, d: Bytes32, r: Bytes32)
    ensures ResourceIdPreimage(w) != NullifierPreimage(m, d, r)
    ensures ResourceIdPreimage(w) != SuitePreimage()
    ensures NullifierPreimage(m, d, r) != SuitePreimage()
  {
    EncodingLength(w);
    var p := BigEndian(|Encoding(w)|, 4) + Encoding(w);
    assert |RESOURCE_V1_DOMAIN| == 15 && |TRANSPARENT_NULLIFIER_V1_DOMAIN| == 28 && |SHA256_SUITE_DOMAIN| == 26;
    if ResourceIdPreimage(w) == NullifierPreimage(m, d, r) {
      FramedInjective(RESOURCE_V1_DOMAIN, p, TRANSPARENT_NULLIFIER_V1_DOMAIN, m + d + r);
    }
    if ResourceIdPreimage(w) == SuitePreimage() {
      FramedInjective(RESOURCE_V1_DOMAIN, p, SHA256_SUITE_DOMAIN, []);
    }
    if NullifierPreimage(m, d, r) == SuitePreimage() {
      FramedInjective(TRANSPARENT_NULLIFIER_V1_DOMAIN, m + d + r, SHA256_SUITE_DOMAIN, []);
    }
  }
}
