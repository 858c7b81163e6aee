/**
 The codec is a bijection between wire values and accepted byte strings, and its language is
 prefix free: every proper prefix and every extension of an encoding is rejected, with a code
 that only depends on where the cut falls.
 */
module WireTheorems {
  import opened Outcomes
  import opened Bytes
  import opened WireCursor
  import opened ResourceWire

  // ----- cutting and joining -----

  lemma CutWithin<T>(f: seq<T>, g: seq<T>, n: nat)
    requires n <= |f|
    ensures (f + g)[..n] == f[..n]
  {
  }

  lemma CutBeyond<T>(f: seq<T>, g: seq<T>, n: nat)
    requires |f| <= n <= |f| + |g|
    ensures (f + g)[..n] == f + g[..n - |f|]
  {
  }

  lemma SplitHead<T>(s: seq<T>, i: nat)
    requires i < |s|
    ensures s[i..] == [s[i]] + s[i + 1..]
  {
  }

  // ----- one frame -----

  lemma FrameParts(tag: nat, payload: seq<byte>)
    requires tag < 0x1_0000 && |payload| < 0x1_0000_0000
    ensures var f := Frame(tag, payload);
            FromBigEndian(f[..2]) == tag && FromBigEndian(f[2..6]) == |payload| && f[6..] == payload
  {
    var f := Frame(tag, payload);
    Widths();
    BigEndianDecodes(tag, 2);
    BigEndianDecodes(|payload|, 4);
    assert f[..2] == BigEndian(tag, 2);
    assert f[2..6] == BigEndian(|payload|, 4);
  }

  lemma ReadWrittenFrame(i: nat, payload: seq<byte>, rest: seq<byte>)
    requires i < FIELD_COUNT && LengthAllowed(i, |payload|) && ValueAllowed(i, payload)
    ensures ReadFrame(i, Frame(i + 1, payload) + rest) == Ok((payload, rest))
  {
    var f := Frame(i + 1, payload);
    var b := f + rest;
    FrameParts(i + 1, payload);
    assert b[..2] == f[..2] && b[2..6] == f[2..6];
    assert b[6..6 + |payload|] == f[6..] && b[6 + |payload|..] == rest;
  }

  lemma WrittenReadFrame(i: nat, b: seq<byte>)
    requires ReadFrame(i, b).Ok?
    ensures b == Frame(i + 1, ReadFrame(i, b).value.0) + ReadFrame(i, b).value.1
  {
    var (payload, rest) := ReadFrame(i, b).value;
    BigEndianCanonical(b[..2]);
    BigEndianCanonical(b[2..6]);
    assert b == b[..2] + b[2..6] + b[6..6 + |payload|] + b[6 + |payload|..];
  }

  /** A frame cut after `n` of its bytes. */
  function CutCode(n: nat): Reject {
    if n < 6 then FieldHeader else FieldValue
  }

  lemma CutFrame(i: nat, payload: seq<byte>, n: nat)
    requires i < FIELD_COUNT && LengthAllowed(i, |payload|) && n < 6 + |payload|
    ensures ReadFrame(i, Frame(i + 1, payload)[..n]) == Err(CutCode(n))
  {
    var f := Frame(i + 1, payload);
    if n >= 6 {
      FrameParts(i + 1, payload);
      assert f[..n][..2] == f[..2] && f[..n][2..6] == f[2..6];
    }
  }

  // ----- all frames -----

  lemma ReadFramesStep(i: nat, b: seq<byte>, payload: seq<byte>, rest: seq<byte>)
    requires i < FIELD_COUNT && ReadFrame(i, b) == Ok((payload, rest))
    ensures match ReadFrames(i + 1, rest)
            case Err(code) => ReadFrames(i, b) == Err(code)
            case Ok(read) => ReadFrames(i, b) == Ok(([payload] + read.0, read.1))
  {
  }

  lemma {:induction false} ReadWrittenFrames(ps: seq<seq<byte>>, i: nat, rest: seq<byte>)
    requires WellTyped(ps) && i <= FIELD_COUNT
    ensures ReadFrames(i, FramesFrom(ps, i) + rest) == Ok((ps[i..], rest))
    decreases FIELD_COUNT - i
  {
    if i < FIELD_COUNT {
      var tail := FramesFrom(ps, i + 1) + rest;
      Associate(Frame(i + 1, ps[i]), FramesFrom(ps, i + 1), rest);
      ReadWrittenFrame(i, ps[i], tail);
      ReadWrittenFrames(ps, i + 1, rest);
      ReadFramesStep(i, Frame(i + 1, ps[i]) + tail, ps[i], tail);
      SplitHead(ps, i);
    } else {
      assert FramesFrom(ps, i) + rest == rest && ps[i..] == [];
    }
  }

  /** `ps` are the payloads from position `i` on. */
  function FramesOf(i: nat, ps: seq<seq<byte>>): seq<byte>
    decreases |ps|
  {
    if ps == [] then [] else Frame(i + 1, ps[0]) + FramesOf(i + 1, ps[1..])
  }

  lemma {:induction false} FramesOfSuffix(ps: seq<seq<byte>>, i: nat)
    requires i <= |ps|
    ensures FramesOf(i, ps[i..]) == FramesFrom(ps, i)
    decreases |ps| - i
  {
    if i < |ps| {
      FramesOfSuffix(ps, i + 1);
      assert ps[i..][1..] == ps[i + 1..];
    }
  }

  lemma FramesOfCons(i: nat, payload: seq<byte>, ps: seq<seq<byte>>)
    ensures FramesOf(i, [payload] + ps) == Frame(i + 1, payload) + FramesOf(i + 1, ps)
  {
    assert ([payload] + ps)[1..] == ps;
  }

  lemma JoinedInThree(b: seq<byte>, front: seq<byte>, rest: seq<byte>, middle: seq<byte>, end: seq<byte>)
    requires b == front + rest && rest == middle + end
    ensures b == front + middle + end
  {
  }

  lemma {:induction false} WrittenReadFrames(i: nat, b: seq<byte>)
    requires i <= FIELD_COUNT && ReadFrames(i, b).Ok?
    ensures b == FramesOf(i, ReadFrames(i, b).value.0) + ReadFrames(i, b).value.1
    decreases FIELD_COUNT - i
  {
    if i < FIELD_COUNT {
      var (payload, rest) := ReadFrame(i, b).value;
      var (ps, end) := ReadFrames(i + 1, rest).value;
      ReadFramesStep(i, b, payload, rest);
      WrittenReadFrame(i, b);
      WrittenReadFrames(i + 1, rest);
      FramesOfCons(i, payload, ps);
      JoinedInThree(b, Frame(i + 1, payload), rest, FramesOf(i + 1, ps), end);
    }
  }

  /** Distance from the start of frame `i` to the start of frame `k`. */
  function Offset(ps: seq<seq<byte>>, i: nat, k: nat): nat
    requires i <= k <= |ps|
    decreases k - i
  {
    if i == k then 0 else 6 + |ps[i]| + Offset(ps, i + 1, k)
  }

  lemma {:induction false} OffsetIsDifference(ps: seq<seq<byte>>, i: nat, k: nat)
    requires i <= k <= |ps|
    ensures |FramesUpTo(ps, i)| + Offset(ps, i, k) == |FramesUpTo(ps, k)|
    decreases k - i
  {
    if i < k {
      OffsetIsDifference(ps, i + 1, k);
    }
  }

  /** A cut inside frame `k`, counted from the start of frame `i`. */
  lemma {:induction false} CutFrames(ps: seq<seq<byte>>, i: nat, k: nat, n: nat)
    requires WellTyped(ps) && i <= k < FIELD_COUNT
    requires Offset(ps, i, k) <= n < Offset(ps, i, k) + 6 + |ps[k]| && n <= |FramesFrom(ps, i)|
    ensures ReadFrames(i, FramesFrom(ps, i)[..n]) == Err(CutCode(n - Offset(ps, i, k)))
    decreases k - i
  {
    var frame := Frame(i + 1, ps[i]);
    if i == k {
      CutFrame(i, ps[i], n);
      CutWithin(frame, FramesFrom(ps, i + 1), n);
    } else {
      var tail := FramesFrom(ps, i + 1)[..n - |frame|];
      CutBeyond(frame, FramesFrom(ps, i + 1), n);
      ReadWrittenFrame(i, ps[i], tail);
      CutFrames(ps, i + 1, k, n - |frame|);
      ReadFramesStep(i, frame + tail, ps[i], tail);
    }
  }

  // ----- headers -----

  lemma ParseWrittenHeader(rest: seq<byte>)
    ensures ParseHeader(HeaderBytes() + rest)
            == if HEADER_BYTES + |rest| > MAX_RESOURCE_BYTES then Err(WireBytes) else Ok(rest)
  {
    var b := HeaderBytes() + rest;
    Widths();
    BigEndianDecodes(SCHEMA_VERSION, 2);
    BigEndianDecodes(OBJECT_TAG, 2);
    BigEndianDecodes(FIELD_COUNT, 2);
    assert b[..4] == MAGIC;
    assert b[4..6] == BigEndian(SCHEMA_VERSION, 2);
    assert b[6..8] == BigEndian(OBJECT_TAG, 2);
    assert b[8..10] == BigEndian(FIELD_COUNT, 2);
    assert b[10..] == rest;
  }

  lemma WrittenParsedHeader(b: seq<byte>)
    requires ParseHeader(b).Ok?
    ensures b == HeaderBytes() + ParseHeader(b).value
  {
    BigEndianCanonical(b[4..6]);
    BigEndianCanonical(b[6..8]);
    BigEndianCanonical(b[8..10]);
    assert b == b[..4] + b[4..6] + b[6..8] + b[8..10] + b[10..];
  }

  lemma EncodingParts(w: ResourceWire)
    ensures Encoding(w) == HeaderBytes() + FramesFrom(Payloads(w), 0)
  {
    FramesSplit(Payloads(w), 0);
    assert FramesUpTo(Payloads(w), 0) + FramesFrom(Payloads(w), 0) == FramesFrom(Payloads(w), 0);
  }

  // ----- round trips -----

  lemma DecodingOfParts(b: seq<byte>, body: seq<byte>, ps: seq<seq<byte>>, end: seq<byte>)
    requires ParseHeader(b) == Ok(body) && ReadFrames(0, body) == Ok((ps, end)) && WellTyped(ps)
    ensures Decoding(b) == if end != [] then Err(Trailing) else Ok(FromPayloads(ps))
  {
  }

  lemma DecodingOfBadHeader(b: seq<byte>)
    requires ParseHeader(b).Err?
    ensures Decoding(b) == Err(ParseHeader(b).error)
  {
  }

  lemma ParsedEncoding(w: ResourceWire, surplus: seq<byte>)
    ensures ParseHeader(Encoding(w) + surplus)
            == if |Encoding(w)| + |surplus| > MAX_RESOURCE_BYTES then Err(WireBytes) else Ok(FramesFrom(Payloads(w), 0) + surplus)
  {
    EncodingParts(w);
    Associate(HeaderBytes(), FramesFrom(Payloads(w), 0), surplus);
    ParseWrittenHeader(FramesFrom(Payloads(w), 0) + surplus);
  }

  lemma DecodeParsed(b: seq<byte>, w: ResourceWire, surplus: seq<byte>)
    requires ParseHeader(b) == Ok(FramesFrom(Payloads(w), 0) + surplus)
    ensures Decoding(b) == if surplus != [] then Err(Trailing) else Ok(w)
  {
    var ps := Payloads(w);
    PayloadsDetermineWire(w);
    ReadWrittenFrames(ps, 0, surplus);
    assert ps[0..] == ps;
    DecodingOfParts(b, FramesFrom(ps, 0) + surplus, ps, surplus);
  }

  /** Decoding an encoding followed by anything: the value, or a verdict on the surplus. */
  lemma DecodeWithSurplus(w: ResourceWire, surplus: seq<byte>)
    ensures Decoding(Encoding(w) + surplus)
            == if |Encoding(w)| + |surplus| > MAX_RESOURCE_BYTES then Err(WireBytes)
               else if surplus != [] then Err(Trailing)
               else Ok(w)
  {
    var b := Encoding(w) + surplus;
    ParsedEncoding(w, surplus);
    if ParseHeader(b).Ok? {
      DecodeParsed(b, w, surplus);
    } else {
      DecodingOfBadHeader(b);
    }
  }

  lemma AcceptedIsEncoding(b: seq<byte>)
    requires Decoding(b).Ok?
    ensures b == Encoding(Decoding(b).value)
  {
    var body := ParseHeader(b).value;
    var ps := ReadFrames(0, body).value.0;
    WrittenParsedHeader(b);
    WrittenReadFrames(0, body);
    ReadFramesTyped(0, body);
    assert forall i :: 0 <= i < FIELD_COUNT ==> LengthAllowed(0 + i, |ps[i]|) && ValueAllowed(0 + i, ps[i]);
    WireDeterminesPayloads(ps);
    EncodingParts(Decoding(b).value);
    FramesOfSuffix(ps, 0);
    assert ps[0..] == ps;
    assert body == FramesOf(0, ps) + [];
  }

  /** The codec is exactly bijective: decoding yields `w` on the encoding of `w` and on nothing else. */
  lemma DecodesIffEncoding(b: seq<byte>, w: ResourceWire)
    ensures Decoding(b) == Ok(w) <==> b == Encoding(w)
  {
    if Decoding(b) == Ok(w) { AcceptedIsEncoding(b); }
    if b == Encoding(w) {
      DecodeWithSurplus(w, []);
      assert Encoding(w) + [] == b;
      EncodingLength(w);
    }
  }

  lemma EncodingInjective(v: ResourceWire, w: ResourceWire)
    requires Encoding(v) == Encoding(w)
    ensures v == w
  {
    DecodesIffEncoding(Encoding(v), v);
    DecodesIffEncoding(Encoding(v), w);
  }

  /** Accepted input has one of two lengths, told apart by the expiry option. */
  lemma AcceptedLengths(b: seq<byte>)
    requires Decoding(b).Ok?
    ensures |b| == if Decoding(b).value.expiryEpoch.Some? then PRESENT_EXPIRY_BYTES else ABSENT_EXPIRY_BYTES
  {
    AcceptedIsEncoding(b);
    EncodingLength(Decoding(b).value);
  }

  // ----- truncations and extensions -----

  predicate CutIn(expiryPresent: bool, n: nat, k: nat) {
    k < FIELD_COUNT && FrameStart(expiryPresent, k) <= n < FrameStart(expiryPresent, k + 1)
  }

  lemma FrameStartsAscend(expiryPresent: bool, j: nat, k: nat)
    requires j < k <= FIELD_COUNT
    ensures FrameStart(expiryPresent, j) < FrameStart(expiryPresent, j + 1) <= FrameStart(expiryPresent, k)
  {
  }

  /** Every proper prefix of an encoding ends in the header or inside exactly one of the eighteen frames. */
  lemma CutFallsInOneFrame(expiryPresent: bool, n: nat) returns (k: nat)
    requires HEADER_BYTES <= n < FrameStart(expiryPresent, FIELD_COUNT)
    ensures CutIn(expiryPresent, n, k)
    ensures forall j: nat :: CutIn(expiryPresent, n, j) ==> j == k
  {
    k := 0;
    while FrameStart(expiryPresent, k + 1) <= n
      invariant k < FIELD_COUNT && FrameStart(expiryPresent, k) <= n
      decreases FIELD_COUNT - k
    {
      k := k + 1;
    }
    forall j: nat | CutIn(expiryPresent, n, j) ensures j == k {
      if j < k { FrameStartsAscend(expiryPresent, j, k); }
      if k < j { FrameStartsAscend(expiryPresent, k, j); }
    }
  }

  lemma CutEncoding(w: ResourceWire, n: nat, k: nat)
    requires CutIn(w.expiryEpoch.Some?, n, k) && HEADER_BYTES <= n < |Encoding(w)|
    ensures Decoding(Encoding(w)[..n]) == Err(CutCode(n - FrameStart(w.expiryEpoch.Some?, k)))
  {
    var ps := Payloads(w);
    EncodingParts(w);
    var body := FramesFrom(ps, 0)[..n - HEADER_BYTES];
    CutBeyond(HeaderBytes(), FramesFrom(ps, 0), n);
    EncodingLength(w);
    ParseWrittenHeader(body);
    FrameOffsets(w, k);
    CutFrames(ps, 0, k, n - HEADER_BYTES);
    DecodingOfBadFrames(Encoding(w)[..n], body);
  }

  lemma FrameOffsets(w: ResourceWire, k: nat)
    requires k < FIELD_COUNT
    ensures WellTyped(Payloads(w))
    ensures HEADER_BYTES + Offset(Payloads(w), 0, k) == FrameStart(w.expiryEpoch.Some?, k)
    ensures FrameStart(w.expiryEpoch.Some?, k) + 6 + |Payloads(w)[k]| == FrameStart(w.expiryEpoch.Some?, k + 1)
  {
    PayloadsWellTyped(w);
    FramesUpToLength(w, k);
    FramesUpToLength(w, k + 1);
    OffsetIsDifference(Payloads(w), 0, k);
  }

  lemma DecodingOfBadFrames(b: seq<byte>, body: seq<byte>)
    requires ParseHeader(b) == Ok(body) && ReadFrames(0, body).Err?
    ensures Decoding(b) == Err(ReadFrames(0, body).error)
  {
  }

  /** The code for each truncation: HEADER below ten bytes, then by the place inside the one frame that was cut. */
  lemma TruncationRejected(w: ResourceWire, n: nat, k: nat)
    requires n < |Encoding(w)|
    ensures n < HEADER_BYTES ==> Decoding(Encoding(w)[..n]) == Err(Header)
    ensures CutIn(w.expiryEpoch.Some?, n, k) ==>
              Decoding(Encoding(w)[..n])
              == Err(if n - FrameStart(w.expiryEpoch.Some?, k) < 6 then FieldHeader else FieldValue)
  {
    if CutIn(w.expiryEpoch.Some?, n, k) { CutEncoding(w, n, k); }
  }

  /** Anything after a complete encoding is rejected: TRAILING up to the byte bound and BYTES beyond it. */
  lemma ExtensionRejected(w: ResourceWire, surplus: seq<byte>)
    requires surplus != []
    ensures Decoding(Encoding(w) + surplus)
            == Err(if |Encoding(w)| + |surplus| <= MAX_RESOURCE_BYTES then Trailing else WireBytes)
  {
    DecodeWithSurplus(w, surplus);
  }

  /** No encoding is a prefix of another. */
  lemma EncodingsPrefixFree(v: ResourceWire, w: ResourceWire)
    requires Encoding(v) <= Encoding(w)
    ensures v == w
  {
    var surplus := Encoding(w)[|Encoding(v)|..];
    assert Encoding(w) == Encoding(v) + surplus;
    DecodeWithSurplus(v, surplus);
    DecodesIffEncoding(Encoding(w), w);
  }
}
