/**
 The wire form byte by byte: where every field of an encoding stands, and for any input at all
 which of its bytes make the decoder reject it and with which code.
 */
module WireLayout {
  import opened Outcomes
  import opened Bytes
  import opened WireCursor
  import opened ResourceWire

  // ----- big-endian numbers -----

  lemma {:induction false} MultiplyMonotone(d: nat, x: nat, y: nat)
    requires x < y
    ensures d * x + d <= d * y
    decreases y
  {
    if x < y - 1 { MultiplyMonotone(d, x, y - 1); }
    assert d * y == d * (y - 1) + d;
  }

  lemma QuotientIs(v: nat, d: nat, s: nat, r: nat)
    requires d > 0 && v == d * s + r && r < d
    ensures v / d == s
  {
    var q := v / d;
    assert d * q <= v < d * q + d;
    if q < s { MultiplyMonotone(d, q, s); }
    if s < q { MultiplyMonotone(d, s, q); }
  }

  lemma DivideTwice(v: nat, d: nat)
    requires d > 0
    ensures v / 0x100 / d == v / (0x100 * d)
  {
    var q, r := v / 0x100, v % 0x100;
    var s, t := q / d, q % d;
    assert q == d * s + t;
    assert 0x100 * (d * s) == (0x100 * d) * s;
    QuotientIs(v, 0x100 * d, s, 0x100 * t + r);
  }

  /** Each byte is its digit of the value, the most significant first. */
  lemma {:induction false} BigEndianDigits(value: nat, length: nat, i: nat)
    requires i < length
    ensures BigEndian(value, length)[i] == value / Power256(length - 1 - i) % 0x100
  {
    if i < length - 1 {
      BigEndianDigits(value / 0x100, length - 1, i);
      DivideTwice(value, Power256(length - 2 - i));
    }
  }

  lemma TwoBytes(b: seq<byte>)
    requires |b| == 2
    ensures FromBigEndian(b) == (b[0] as int) * 0x100 + b[1] as int
  {
    assert b[..1][..0] == [];
    assert FromBigEndian(b[..1]) == b[0];
  }

  lemma FourBytes(b: seq<byte>)
    requires |b| == 4
    ensures FromBigEndian(b) == (((b[0] as int) * 0x100 + b[1] as int) * 0x100 + b[2] as int) * 0x100 + b[3] as int
  {
    assert b[..3][..2] == b[..2];
    TwoBytes(b[..2]);
    assert FromBigEndian(b[..3]) == FromBigEndian(b[..2]) * 0x100 + b[2];
  }

  lemma SmallInTwo(value: byte)
    ensures BigEndian(value, 2) == [0, value]
  {
    assert BigEndian(value / 0x100, 1) == BigEndian(0, 0) + [0];
  }

  lemma SmallInFour(value: byte)
    ensures BigEndian(value, 4) == [0, 0, 0, value]
  {
    assert BigEndian(0, 3) == BigEndian(0, 2) + [0];
    SmallInTwo(0);
  }

  lemma TwoBytesAre(b: seq<byte>, value: byte)
    requires |b| == 2
    ensures FromBigEndian(b) == value <==> b == [0, value]
  {
    TwoBytes(b);
  }

  lemma FourBytesAre(b: seq<byte>, value: byte)
    requires |b| == 4
    ensures FromBigEndian(b) == value <==> b == [0, 0, 0, value]
  {
    FourBytes(b);
  }

  // ----- where the fields of an encoding stand -----

  /** The field `tag` with the bytes of `value` stands at `at`: two tag bytes, four length bytes, the value. */
  ghost predicate FieldAt(e: seq<byte>, at: nat, tag: byte, value: seq<byte>) {
    && |value| < 0x100 && at + 6 + |value| <= |e|
    && e[at..at + 6] == [0, tag, 0, 0, 0, |value|] && e[at + 6..at + 6 + |value|] == value
  }

  lemma FrameExact(tag: byte, value: seq<byte>)
    requires |value| < 0x100
    ensures Frame(tag, value) == [0, tag, 0, 0, 0, |value|] + value
  {
    SmallInTwo(tag);
    SmallInFour(|value|);
  }

  lemma {:induction false} WrittenIsPrefix(ps: seq<seq<byte>>, k: nat, n: nat)
    requires k <= n <= |ps|
    ensures Written(ps, k) <= Written(ps, n)
    decreases n
  {
    if k < n {
      WrittenIsPrefix(ps, k, n - 1);
      WrittenNext(ps, n - 1);
    }
  }

  lemma MiddleOf<T>(all: seq<T>, front: seq<T>, middle: seq<T>)
    requires front + middle <= all
    ensures |front| + |middle| <= |all| && all[|front|..|front| + |middle|] == middle
  {
    assert (front + middle)[|front|..] == middle;
  }

  lemma FieldOfSlice(e: seq<byte>, at: nat, tag: byte, value: seq<byte>)
    requires |value| < 0x100 && at + 6 + |value| <= |e| && e[at..at + 6 + |value|] == [0, tag, 0, 0, 0, |value|] + value
    ensures FieldAt(e, at, tag, value)
  {
    var f := e[at..at + 6 + |value|];
    assert f[..6] == e[at..at + 6] && f[6..] == e[at + 6..at + 6 + |value|];
  }

  lemma FieldStands(w: ResourceWire, k: nat, at: nat, value: seq<byte>)
    requires k < FIELD_COUNT && Payloads(w)[k] == value && |value| < 0x100
    requires at == FrameStart(w.expiryEpoch.Some?, k)
    ensures FieldAt(Encoding(w), at, k + 1, value)
  {
    var ps := Payloads(w);
    WrittenIsPrefix(ps, k + 1, FIELD_COUNT);
    WrittenNext(ps, k);
    FramesUpToLength(w, k);
    MiddleOf(Encoding(w), Written(ps, k), Frame(k + 1, value));
    FrameExact(k + 1, value);
    FieldOfSlice(Encoding(w), at, k + 1, value);
  }

  lemma HeaderStands(w: ResourceWire)
    ensures |Encoding(w)| >= 10 && Encoding(w)[..10] == [0x5a, 0x52, 0x4d, 0x31, 0, 1, 0, 1, 0, 18]
  {
    WrittenIsPrefix(Payloads(w), 0, FIELD_COUNT);
    SmallInTwo(1);
    SmallInTwo(18);
    assert Written(Payloads(w), 0) == HeaderBytes();
  }

  /** The fields that say which machine, domain, application and kind, at their places. */
  lemma SubjectLayout(w: ResourceWire)
    ensures var e := Encoding(w);
            && FieldAt(e, 10, 1, w.machineId) && FieldAt(e, 48, 2, w.domainId)
            && FieldAt(e, 86, 3, w.applicationId) && FieldAt(e, 124, 4, w.resourceKindId)
  {
    var ps := ListPayloads(w);
    FieldStands(w, 0, 10, w.machineId);
    FieldStands(w, 1, 48, w.domainId);
    FieldStands(w, 2, 86, w.applicationId);
    FieldStands(w, 3, 124, w.resourceKindId);
  }

  /** The fields that say which logic, profile, kind policy and unit, at their places. */
  lemma LogicLayout(w: ResourceWire)
    ensures var e := Encoding(w);
            && FieldAt(e, 162, 5, w.resourceLogicId) && FieldAt(e, 200, 6, w.logicProfileId)
            && FieldAt(e, 238, 7, w.resourceKindPolicyId) && FieldAt(e, 276, 8, w.unitId)
  {
    var ps := ListPayloads(w);
    FieldStands(w, 4, 162, w.resourceLogicId);
    FieldStands(w, 5, 200, w.logicProfileId);
    FieldStands(w, 6, 238, w.resourceKindPolicyId);
    FieldStands(w, 7, 276, w.unitId);
  }

  /** The quantity and the first roots, at their places. */
  lemma ContentLayout(w: ResourceWire)
    ensures var e := Encoding(w);
            && FieldAt(e, 314, 9, BigEndian(w.quantityAtoms, 16)) && FieldAt(e, 336, 10, w.labelRoot)
            && FieldAt(e, 374, 11, w.valueRoot) && FieldAt(e, 412, 12, w.controllerRoot)
  {
    var ps := ListPayloads(w);
    FieldStands(w, 8, 314, BigEndian(w.quantityAtoms, 16));
    FieldStands(w, 9, 336, w.labelRoot);
    FieldStands(w, 10, 374, w.valueRoot);
    FieldStands(w, 11, 412, w.controllerRoot);
  }

  /** The policy and provenance roots and the nonce, at their places. */
  lemma OriginLayout(w: ResourceWire)
    ensures var e := Encoding(w);
            FieldAt(e, 450, 13, w.policyRoot) && FieldAt(e, 488, 14, w.provenanceRoot) && FieldAt(e, 526, 15, w.nonce)
  {
    var ps := ListPayloads(w);
    FieldStands(w, 12, 450, w.policyRoot);
    FieldStands(w, 13, 488, w.provenanceRoot);
    FieldStands(w, 14, 526, w.nonce);
  }

  /** The terms of an encoding, at their places; the expiry decides where the flags and the end are. */
  lemma TermsLayout(w: ResourceWire)
    ensures var e := Encoding(w);
            && FieldAt(e, 564, 16, BigEndian(w.createdEpoch, 8))
            && match w.expiryEpoch
               case None => FieldAt(e, 578, 17, [0]) && FieldAt(e, 585, 18, BigEndian(w.flags, 4)) && |e| == 595
               case Some(epoch) => FieldAt(e, 578, 17, [1] + BigEndian(epoch, 8)) && FieldAt(e, 593, 18, BigEndian(w.flags, 4)) && |e| == 603
  {
    var ps := ListPayloads(w);
    FieldStands(w, 15, 564, BigEndian(w.createdEpoch, 8));
    FieldStands(w, 16, 578, ExpiryPayload(w.expiryEpoch));
    FieldStands(w, 17, if w.expiryEpoch.Some? then 593 else 585, BigEndian(w.flags, 4));
    EncodingLength(w);
  }

  // ----- what the decoder rejects -----

  /** What is wrong with the first ten bytes, or with the length of the whole. */
  ghost predicate HeaderFault(b: seq<byte>, code: Reject) {
    if |b| > 16384 then code == WireBytes
    else if |b| < 10 then code == Header
    else if b[..4] != [0x5a, 0x52, 0x4d, 0x31] then code == Magic
    else if b[4..6] != [0, 1] then code == Version
    else if b[6..8] != [0, 1] then code == Object
    else b[8..10] != [0, 18] && code == FieldCount
  }

  /** How many bytes the value of the field at position `k` has; position 16 holds the expiry option. */
  function Width(k: nat): byte {
    if k == 8 then 16 else if k == 15 then 8 else if k == 17 then 4 else 32
  }

  /** The length bytes at `p` are those of a field at position `k`, and give `length`. */
  ghost predicate LengthIs(b: seq<byte>, k: nat, p: nat, length: byte)
    requires p + 6 <= |b|
  {
    b[p + 2..p + 6] == [0, 0, 0, length] && if k == 16 then length == 1 || length == 9 else length == Width(k)
  }

  /** The expiry marker says absent with one byte, present with nine. */
  ghost predicate MarkerFits(b: seq<byte>, k: nat, p: nat, length: byte)
    requires p + 6 + length <= |b| && length > 0
  {
    k == 16 ==> b[p + 6] == if length == 1 then 0 else 1
  }

  /** A whole frame for position `k` stands at `p` and ends before `next`. */
  ghost predicate FrameAt(b: seq<byte>, k: nat, p: nat, next: nat) {
    && p + 6 <= |b| && b[p..p + 2] == [0, k + 1]
    && exists length: byte :: length > 0 && LengthIs(b, k, p, length) && next == p + 6 + length <= |b| && MarkerFits(b, k, p, length)
  }

  /** The first thing wrong with what stands at `p` for position `k`. */
  ghost predicate FrameFault(b: seq<byte>, k: nat, p: nat, code: Reject) {
    if p + 6 > |b| then code == FieldHeader
    else if b[p..p + 2] != [0, k + 1] then code == FieldTag
    else if !exists length: byte :: LengthIs(b, k, p, length) then code == FieldLength
    else exists length: byte :: length > 0 && LengthIs(b, k, p, length)
           && if p + 6 + length > |b| then code == FieldValue else !MarkerFits(b, k, p, length) && code == OptionTag
  }

  // ----- reading one frame -----

  lemma SliceAfter<T>(b: seq<T>, p: nat, i: nat, j: nat)
    requires i <= j && p + j <= |b|
    ensures b[p..][i..j] == b[p + i..p + j] && b[p..][j..] == b[p + j..]
  {
  }

  /** What reading a frame at `p` sees, in the bytes of the whole input. */
  lemma FrameHeaderRead(b: seq<byte>, k: nat, p: nat)
    requires k < 18 && p + 6 <= |b|
    ensures FromBigEndian(b[p..][..2]) == k + 1 <==> b[p..p + 2] == [0, k + 1]
    ensures forall length: byte :: FromBigEndian(b[p..][2..6]) == length <==> b[p + 2..p + 6] == [0, 0, 0, length]
  {
    SliceAfter(b, p, 0, 2);
    SliceAfter(b, p, 2, 6);
    TwoBytesAre(b[p..p + 2], k + 1);
    forall length: byte ensures FromBigEndian(b[p..][2..6]) == length <==> b[p + 2..p + 6] == [0, 0, 0, length] {
      FourBytesAre(b[p + 2..p + 6], length);
    }
  }

  lemma AllowedIsWidth(k: nat, length: nat)
    ensures k < 18 && LengthAllowed(k, length) ==> length < 0x100 && length > 0
    ensures k < 18 ==> (LengthAllowed(k, length) <==> if k == 16 then length == 1 || length == 9 else length == Width(k))
  {
  }

  lemma LengthRead(b: seq<byte>, k: nat, p: nat, length: nat)
    requires k < 18 && p + 6 <= |b| && FromBigEndian(b[p..][2..6]) == length
    ensures LengthAllowed(k, length) ==> 0 < length < 0x100 && LengthIs(b, k, p, length)
    ensures forall other: byte :: LengthIs(b, k, p, other) ==> other == length && LengthAllowed(k, length)
  {
    FrameHeaderRead(b, k, p);
    AllowedIsWidth(k, length);
    forall other: byte | LengthIs(b, k, p, other) ensures other == length && LengthAllowed(k, length) {
      AllowedIsWidth(k, other);
    }
  }

  lemma MarkerRead(b: seq<byte>, k: nat, p: nat, length: byte)
    requires k < 18 && p + 6 + length <= |b| && length > 0 && LengthAllowed(k, length)
    ensures ValueAllowed(k, b[p..][6..6 + length]) <==> MarkerFits(b, k, p, length)
  {
    var value := b[p..][6..6 + length];
    assert value[0] == b[p + 6];
    if k == 16 && length == 1 { assert value == [value[0]]; }
  }

  /** A frame is read iff it stands there whole, and rejected with a code iff that is its first fault. */
  lemma ReadFrameExact(b: seq<byte>, k: nat, p: nat)
    requires k < 18 && p <= |b|
    ensures match ReadFrame(k, b[p..])
            case Ok((_, rest)) => exists next: nat :: FrameAt(b, k, p, next) && rest == b[next..]
            case Err(code) => FrameFault(b, k, p, code)
  {
    if p + 6 <= |b| {
      var length := FromBigEndian(b[p..][2..6]);
      FrameHeaderRead(b, k, p);
      LengthRead(b, k, p, length);
      if LengthAllowed(k, length) && p + 6 + length <= |b| {
        MarkerRead(b, k, p, length);
        SliceAfter(b, p, 6, 6 + length);
        if ReadFrame(k, b[p..]).Ok? { assert FrameAt(b, k, p, p + 6 + length); }
      }
    }
  }

  lemma LengthUnique(b: seq<byte>, k: nat, p: nat, x: byte, y: byte)
    requires p + 6 <= |b| && LengthIs(b, k, p, x) && LengthIs(b, k, p, y)
    ensures x == y
  {
    assert [0, 0, 0, x][3] == [0, 0, 0, y][3];
  }

  lemma FrameUnique(b: seq<byte>, k: nat, p: nat, m: nat, n: nat)
    requires FrameAt(b, k, p, m) && FrameAt(b, k, p, n)
    ensures m == n
  {
    var x: byte :| x > 0 && LengthIs(b, k, p, x) && m == p + 6 + x <= |b| && MarkerFits(b, k, p, x);
    var y: byte :| y > 0 && LengthIs(b, k, p, y) && n == p + 6 + y <= |b| && MarkerFits(b, k, p, y);
    LengthUnique(b, k, p, x, y);
  }

  lemma WholeHasNoFault(b: seq<byte>, k: nat, p: nat, next: nat, code: Reject)
    requires FrameAt(b, k, p, next)
    ensures !FrameFault(b, k, p, code)
  {
    var x: byte :| x > 0 && LengthIs(b, k, p, x) && next == p + 6 + x <= |b| && MarkerFits(b, k, p, x);
    forall y: byte | LengthIs(b, k, p, y) ensures x == y { LengthUnique(b, k, p, x, y); }
  }

  lemma FaultUnique(b: seq<byte>, k: nat, p: nat, code: Reject, code': Reject)
    requires FrameFault(b, k, p, code) && FrameFault(b, k, p, code')
    ensures code == code'
  {
    if p + 6 <= |b| {
      forall x: byte, y: byte | LengthIs(b, k, p, x) && LengthIs(b, k, p, y) ensures x == y { LengthUnique(b, k, p, x, y); }
    }
  }

  // ----- reading all of them -----

  /** Whole frames for positions below `k` stand one after the other from the header on, and `p` is where they end. */
  ghost predicate Arrives(b: seq<byte>, k: nat, p: nat)
    decreases k, 0
  {
    if k == 0 then p == 10 else ArrivesAfter(b, k - 1, p)
  }

  ghost predicate ArrivesAfter(b: seq<byte>, j: nat, p: nat)
    decreases j, 1
  {
    exists q: nat :: Arrives(b, j, q) && FrameAt(b, j, q, p)
  }

  /** The frames before position `k` are whole, and the one for `k` has this fault. */
  ghost predicate FaultIn(b: seq<byte>, k: nat, code: Reject) {
    k < 18 && exists p: nat :: Arrives(b, k, p) && FrameFault(b, k, p, code)
  }

  ghost predicate FaultInSome(b: seq<byte>, code: Reject) {
    exists k: nat :: FaultIn(b, k, code)
  }

  ghost predicate HeaderStandsIn(b: seq<byte>) {
    10 <= |b| <= 16384 && b[..10] == [0x5a, 0x52, 0x4d, 0x31, 0, 1, 0, 1, 0, 18]
  }

  /** Eighteen whole frames, and something after them. */
  ghost predicate Overruns(b: seq<byte>) {
    exists p: nat :: p < |b| && Arrives(b, 18, p)
  }

  lemma {:induction false} ArrivesUnique(b: seq<byte>, k: nat, p: nat, q: nat)
    requires Arrives(b, k, p) && Arrives(b, k, q)
    ensures p == q
  {
    if k > 0 {
      var p': nat :| Arrives(b, k - 1, p') && FrameAt(b, k - 1, p', p);
      var q': nat :| Arrives(b, k - 1, q') && FrameAt(b, k - 1, q', q);
      ArrivesUnique(b, k - 1, p', q');
      FrameUnique(b, k - 1, p', p, q);
    }
  }

  /** Whoever arrives further has passed every earlier position without a fault. */
  lemma {:induction false} ArrivalHasNoFault(b: seq<byte>, k: nat, p: nat, j: nat, code: Reject)
    requires Arrives(b, k, p) && j < k
    ensures !FaultIn(b, j, code)
  {
    var q: nat :| Arrives(b, k - 1, q) && FrameAt(b, k - 1, q, p);
    if j == k - 1 {
      forall r: nat | Arrives(b, j, r) ensures !FrameFault(b, j, r, code) {
        ArrivesUnique(b, j, q, r);
        WholeHasNoFault(b, j, q, p, code);
      }
    } else {
      ArrivalHasNoFault(b, k - 1, q, j, code);
    }
  }

  lemma FaultsAgree(b: seq<byte>, j: nat, code: Reject, k: nat, code': Reject)
    requires FaultIn(b, j, code) && FaultIn(b, k, code')
    ensures code == code'
  {
    var p: nat :| Arrives(b, j, p) && FrameFault(b, j, p, code);
    var q: nat :| Arrives(b, k, q) && FrameFault(b, k, q, code');
    if j < k {
      ArrivalHasNoFault(b, k, q, j, code);
    } else if k < j {
      ArrivalHasNoFault(b, j, p, k, code');
    } else {
      ArrivesUnique(b, j, p, q);
      FaultUnique(b, j, p, code, code');
    }
  }

  /** What reading the frames from position `k` at `p` on comes to. */
  ghost predicate ReadingIs(b: seq<byte>, r: Frames) {
    match r
    case Ok((_, end)) => exists q: nat :: q <= |b| && Arrives(b, 18, q) && end == b[q..]
    case Err(code) => FaultInSome(b, code)
  }

  lemma ReadOn(b: seq<byte>, k: nat, p: nat) returns (next: nat)
    requires k < 18 && p <= |b| && Arrives(b, k, p) && ReadFrame(k, b[p..]).Ok?
    ensures next <= |b| && Arrives(b, k + 1, next) && ReadFrame(k, b[p..]).value.1 == b[next..]
  {
    ReadFrameExact(b, k, p);
    next :| FrameAt(b, k, p, next) && ReadFrame(k, b[p..]).value.1 == b[next..];
  }

  lemma ReadingRefused(b: seq<byte>, k: nat, p: nat)
    requires k < 18 && p <= |b| && Arrives(b, k, p) && ReadFrame(k, b[p..]).Err?
    ensures FaultInSome(b, ReadFrame(k, b[p..]).error)
  {
    ReadFrameExact(b, k, p);
    assert FaultIn(b, k, ReadFrame(k, b[p..]).error);
  }

  lemma {:induction false} ReadFramesExact(b: seq<byte>, k: nat, p: nat)
    requires k <= 18 && p <= |b| && Arrives(b, k, p)
    ensures ReadingIs(b, ReadFrames(k, b[p..]))
    decreases 18 - k
  {
    if k < 18 {
      if ReadFrame(k, b[p..]).Ok? {
        var next := ReadOn(b, k, p);
        ReadFramesExact(b, k + 1, next);
      } else {
        ReadingRefused(b, k, p);
      }
    }
  }

  lemma HeaderRead(b: seq<byte>)
    requires 10 <= |b| <= 16384
    ensures FromBigEndian(b[4..6]) == 1 <==> b[4..6] == [0, 1]
    ensures FromBigEndian(b[6..8]) == 1 <==> b[6..8] == [0, 1]
    ensures FromBigEndian(b[8..10]) == 18 <==> b[8..10] == [0, 18]
  {
    TwoBytesAre(b[4..6], 1);
    TwoBytesAre(b[6..8], 1);
    TwoBytesAre(b[8..10], 18);
  }

  lemma HeaderInParts(b: seq<byte>)
    requires |b| >= 10
    ensures b[..10] == [0x5a, 0x52, 0x4d, 0x31, 0, 1, 0, 1, 0, 18]
            <==> b[..4] == [0x5a, 0x52, 0x4d, 0x31] && b[4..6] == [0, 1] && b[6..8] == [0, 1] && b[8..10] == [0, 18]
  {
    assert b[..10] == b[..4] + b[4..6] + b[6..8] + b[8..10];
  }

  /** Each of the header codes is given for exactly its own fault, and a header without fault is the one of version one. */
  lemma HeaderExact(b: seq<byte>)
    ensures match ParseHeader(b)
            case Ok(body) => HeaderStandsIn(b) && body == b[10..]
            case Err(code) => HeaderFault(b, code) && !HeaderStandsIn(b)
  {
    if 10 <= |b| <= 16384 {
      HeaderRead(b);
      HeaderInParts(b);
    }
  }

  lemma ParsedBody(b: seq<byte>) returns (end: nat)
    requires HeaderStandsIn(b) && ReadFrames(0, b[10..]).Ok?
    ensures end <= |b| && Arrives(b, 18, end) && ReadFrames(0, b[10..]).value.1 == b[end..]
  {
    ReadFramesExact(b, 0, 10);
    end :| end <= |b| && Arrives(b, 18, end) && ReadFrames(0, b[10..]).value.1 == b[end..];
  }

  lemma ArrivedWithoutFault(b: seq<byte>, end: nat)
    requires Arrives(b, 18, end)
    ensures forall code :: !FaultInSome(b, code)
    ensures Overruns(b) <==> end < |b|
  {
    forall code, k: nat ensures !FaultIn(b, k, code) {
      if k < 18 { ArrivalHasNoFault(b, 18, end, k, code); }
    }
    if p: nat :| p < |b| && Arrives(b, 18, p) { ArrivesUnique(b, 18, end, p); }
  }

  lemma FaultedDoesNotArrive(b: seq<byte>, code: Reject)
    requires FaultInSome(b, code)
    ensures forall p: nat :: !Arrives(b, 18, p)
    ensures forall code' :: FaultInSome(b, code') <==> code' == code
  {
    var k: nat :| FaultIn(b, k, code);
    forall p: nat ensures !Arrives(b, 18, p) {
      if Arrives(b, 18, p) { ArrivalHasNoFault(b, 18, p, k, code); }
    }
    forall code' | FaultInSome(b, code') ensures code' == code {
      var k': nat :| FaultIn(b, k', code');
      FaultsAgree(b, k, code, k', code');
    }
  }

  lemma FaultedBody(b: seq<byte>, e: Reject, code: Reject)
    requires HeaderStandsIn(b) && ReadFrames(0, b[10..]) == Err(e) && Decoding(b) == Err(e)
    ensures Decoding(b) == Err(code) <==> FaultInSome(b, code) || (Overruns(b) && code == Trailing)
    ensures !Arrives(b, 18, |b|)
  {
    ReadFramesExact(b, 0, 10);
    FaultedDoesNotArrive(b, e);
  }

  lemma WholeBody(b: seq<byte>, code: Reject)
    requires HeaderStandsIn(b) && ReadFrames(0, b[10..]).Ok?
    requires if ReadFrames(0, b[10..]).value.1 != [] then Decoding(b) == Err(Trailing) else Decoding(b).Ok?
    ensures Decoding(b) == Err(code) <==> FaultInSome(b, code) || (Overruns(b) && code == Trailing)
    ensures Decoding(b).Ok? <==> Arrives(b, 18, |b|)
  {
    var end := ParsedBody(b);
    ArrivedWithoutFault(b, end);
    if Arrives(b, 18, |b|) { ArrivesUnique(b, 18, end, |b|); }
  }

  lemma DecodingOfBody(b: seq<byte>)
    requires |b| >= 10 && ParseHeader(b) == Ok(b[10..])
    ensures match ReadFrames(0, b[10..])
            case Err(e) => Decoding(b) == Err(e)
            case Ok((_, rest)) => if rest != [] then Decoding(b) == Err(Trailing) else Decoding(b).Ok?
  {
  }

  /** What the frames after a sound header come to. */
  lemma BodyExact(b: seq<byte>, code: Reject)
    requires HeaderStandsIn(b)
    ensures Decoding(b) == Err(code) <==> FaultInSome(b, code) || (Overruns(b) && code == Trailing)
    ensures Decoding(b).Ok? <==> Arrives(b, 18, |b|)
  {
    HeaderExact(b);
    DecodingOfBody(b);
    if ReadFrames(0, b[10..]).Ok? { WholeBody(b, code); } else { FaultedBody(b, ReadFrames(0, b[10..]).error, code); }
  }

  /**
   Any input at all is rejected with a code iff that code names the first fault of its bytes: in
   the header, in the first frame that is not whole, or in what follows the eighteenth.
   */
  lemma RejectionExact(b: seq<byte>, code: Reject)
    ensures Decoding(b) == Err(code)
            <==> HeaderFault(b, code) || (HeaderStandsIn(b) && (FaultInSome(b, code) || (Overruns(b) && code == Trailing)))
  {
    HeaderExact(b);
    if HeaderStandsIn(b) { BodyExact(b, code); HeaderInParts(b); }
  }

  /** Input is accepted iff the header of version one and eighteen whole frames are all of it. */
  lemma AcceptanceExact(b: seq<byte>)
    ensures Decoding(b).Ok? <==> HeaderStandsIn(b) && Arrives(b, 18, |b|)
  {
    HeaderExact(b);
    if HeaderStandsIn(b) { BodyExact(b, Trailing); }
  }
}
