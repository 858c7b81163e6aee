/**
 The hashed preimages byte by byte: the length of the domain, the domain's ASCII codes, the length of
 the payload, and the payload's parts in their order.
 */
module PreimageLayout {
  import opened Outcomes
  import opened Bytes
  import opened ResourceWire
  import opened HashFrames
  import opened WireLayout

  ghost predicate SpellsOut(codes: seq<byte>, text: string) {
    |codes| == |text| && forall i :: 0 <= i < |text| ==> codes[i] == text[i] as int
  }

  lemma DomainsSpelled()
    ensures SpellsOut(RESOURCE_V1_DOMAIN, "zrm.resource.v1")
    ensures SpellsOut(SHA256_SUITE_DOMAIN, "zrm.crypto_suite.sha256.v1")
    ensures SpellsOut(TRANSPARENT_NULLIFIER_V1_DOMAIN, "zrm.nullifier.transparent.v1")
  {
  }

  lemma SameSpelling(a: seq<byte>, b: seq<byte>, text: string)
    requires SpellsOut(a, text) && SpellsOut(b, text)
    ensures a == b
  {
  }

  /** The lengths of the encodings with and without expiry, and those lengths with the inner length counted in. */
  lemma LengthBytes()
    ensures BigEndian(603, 4) == [0, 0, 2, 91] && BigEndian(607, 4) == [0, 0, 2, 95]
    ensures BigEndian(595, 4) == [0, 0, 2, 83] && BigEndian(599, 4) == [0, 0, 2, 87]
  {
    SmallInTwo(0);
    assert BigEndian(2, 3) == BigEndian(0, 2) + [2];
  }

  /** The resource identifier hashes its domain and the length-prefixed encoding; the expiry decides both lengths. */
  lemma ResourceIdLayout(w: ResourceWire, domain: seq<byte>)
    requires SpellsOut(domain, "zrm.resource.v1")
    ensures ResourceIdPreimage(w)
            == [0, 15] + domain
               + (if w.expiryEpoch.Some? then [0, 0, 2, 95, 0, 0, 2, 91] else [0, 0, 2, 87, 0, 0, 2, 83])
               + Encoding(w)
  {
    DomainsSpelled();
    SameSpelling(domain, RESOURCE_V1_DOMAIN, "zrm.resource.v1");
    EncodingLength(w);
    LengthBytes();
    SmallInTwo(15);
    var n := |Encoding(w)|;
    assert BigEndian(n + 4, 4) + BigEndian(n, 4)
        == if w.expiryEpoch.Some? then [0, 0, 2, 95, 0, 0, 2, 91] else [0, 0, 2, 87, 0, 0, 2, 83];
    Regroup([0, 15], domain, BigEndian(n + 4, 4), BigEndian(n, 4), Encoding(w));
    JoinedLengths([0, 15] + domain, BigEndian(n + 4, 4), BigEndian(n, 4), Encoding(w));
  }

  lemma JoinedLengths<T>(a: seq<T>, b: seq<T>, c: seq<T>, d: seq<T>)
    ensures a + b + (c + d) == a + (b + c) + d
  {
  }

  /** The nullifier hashes its domain and 96 bytes: machine, domain, resource, in this order. */
  lemma NullifierLayout(machine: Bytes32, domainId: Bytes32, resource: Bytes32, domain: seq<byte>)
    requires SpellsOut(domain, "zrm.nullifier.transparent.v1")
    ensures NullifierPreimage(machine, domainId, resource) == [0, 28] + domain + [0, 0, 0, 96] + machine + domainId + resource
  {
    DomainsSpelled();
    SameSpelling(domain, TRANSPARENT_NULLIFIER_V1_DOMAIN, "zrm.nullifier.transparent.v1");
    SmallInTwo(28);
    SmallInFour(96);
    ThreeParts([0, 28] + domain + [0, 0, 0, 96], machine, domainId, resource);
  }

  lemma ThreeParts<T>(a: seq<T>, b: seq<T>, c: seq<T>, d: seq<T>)
    ensures a + (b + c + d) == a + b + c + d
  {
  }

  /** The suite identifier hashes its domain and an empty payload. */
  lemma SuiteLayout(domain: seq<byte>)
    requires SpellsOut(domain, "zrm.crypto_suite.sha256.v1")
    ensures SuitePreimage() == [0, 26] + domain + [0, 0, 0, 0]
  {
    DomainsSpelled();
    SameSpelling(domain, SHA256_SUITE_DOMAIN, "zrm.crypto_suite.sha256.v1");
    SmallInTwo(26);
    SmallInFour(0);
  }
}
