/** Bytes and fixed-width big-endian integers. */
module Bytes {

  type byte = x: int | 0 <= x < 0x100
  type u16 = x: int | 0 <= x < 0x1_0000
  type u32 = x: int | 0 <= x < 0x1_0000_0000
  type u64 = x: int | 0 <= x < 0x1_0000_0000_0000_0000
  type u128 = x: int | 0 <= x < 0x1_0000_0000_0000_0000_0000_0000_0000_0000

  const ZERO8: seq<byte> := [0, 0, 0, 0, 0, 0, 0, 0]

  type Bytes32 = b: seq<byte> | |b| == 32 witness ZERO8 + ZERO8 + ZERO8 + ZERO8

  predicate AllZero(b: seq<byte>) {
    forall i :: 0 <= i < |b| ==> b[i] == 0
  }

  /** Identifiers and commitments: 32 bytes, not all zero. */
  type Nonzero32 = b: Bytes32 | !AllZero(b) witness OneThenZeros()

  function OneThenZeros(): (b: seq<byte>)
    ensures |b| == 32 && !AllZero(b)
  {
    var s := [1] + ZERO8[1..] + ZERO8 + ZERO8 + ZERO8;
    assert s[0] == 1;
    s
  }

  function Power256(n: nat): (p: nat)
    ensures p > 0
  {
    if n == 0 then 1 else 0x100 * Power256(n - 1)
  }

  /** The last `length` base-256 digits of `value`, most significant first. */
  function BigEndian(value: nat, length: nat): (b: seq<byte>)
    ensures |b| == length
  {
    if length == 0 then [] else BigEndian(value / 0x100, length - 1) + [value % 0x100]
  }

  function FromBigEndian(b: seq<byte>): nat {
    if b == [] then 0 else FromBigEndian(b[..|b| - 1]) * 0x100 + b[|b| - 1]
  }

  lemma {:induction false} BigEndianDecodes(value: nat, length: nat)
    requires value < Power256(length)
    ensures FromBigEndian(BigEndian(value, length)) == value
  {
    if length > 0 {
      BigEndianDecodes(value / 0x100, length - 1);
      assert BigEndian(value, length)[..length - 1] == BigEndian(value / 0x100, length - 1);
    }
  }

  lemma {:induction false} BigEndianCanonical(b: seq<byte>)
    ensures FromBigEndian(b) < Power256(|b|)
    ensures BigEndian(FromBigEndian(b), |b|) == b
  {
    if b != [] {
      var init, last := b[..|b| - 1], b[|b| - 1];
      BigEndianCanonical(init);
      assert FromBigEndian(b) / 0x100 == FromBigEndian(init) && FromBigEndian(b) % 0x100 == last;
      assert b == init + [last];
    }
  }

  /** Equal-width encodings are equal only for equal values. */
  lemma BigEndianInjective(a: nat, b: nat, length: nat)
    requires a < Power256(length) && b < Power256(length)
    requires BigEndian(a, length) == BigEndian(b, length)
    ensures a == b
  {
    BigEndianDecodes(a, length);
    BigEndianDecodes(b, length);
  }

  lemma Widths()
    ensures Power256(2) == 0x1_0000
    ensures Power256(4) == 0x1_0000_0000
    ensures Power256(8) == 0x1_0000_0000_0000_0000
    ensures Power256(16) == 0x1_0000_0000_0000_0000_0000_0000_0000_0000
  {
    assert Power256(1) == 0x100;
    assert Power256(3) == 0x100_0000;
    assert Power256(5) == 0x100 * Power256(4) && Power256(6) == 0x100 * Power256(5) && Power256(7) == 0x100 * Power256(6);
    assert Power256(9) == 0x100 * Power256(8) && Power256(10) == 0x100 * Power256(9) && Power256(11) == 0x100 * Power256(10);
    assert Power256(12) == 0x100 * Power256(11) && Power256(13) == 0x100 * Power256(12) && Power256(14) == 0x100 * Power256(13);
    assert Power256(15) == 0x100 * Power256(14);
  }
}
