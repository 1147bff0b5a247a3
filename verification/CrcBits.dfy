/**
  Messages and words as bit strings, most significant bit first, and the
  16-entry rows from which the 256-entry CRC tables are written down.
*/
module CrcBits {
  /** Entry `l` of one row of a table. */
  function Row(l: bv8, e0: bv16, e1: bv16, e2: bv16, e3: bv16, e4: bv16, e5: bv16, e6: bv16, e7: bv16,
               e8: bv16, e9: bv16, e10: bv16, e11: bv16, e12: bv16, e13: bv16, e14: bv16, e15: bv16): (e: bv16)
  {
    match l
    case 0 => e0 case 1 => e1 case 2 => e2 case 3 => e3 case 4 => e4 case 5 => e5 case 6 => e6 case 7 => e7
    case 8 => e8 case 9 => e9 case 10 => e10 case 11 => e11 case 12 => e12 case 13 => e13 case 14 => e14 case _ => e15
  }

  /** The octet whose one bit is `k` places below the top. */
  function OctetMask(k: nat): (m: bv8)
  {
    match k
    case 0 => 0x80 case 1 => 0x40 case 2 => 0x20 case 3 => 0x10
    case 4 => 0x08 case 5 => 0x04 case 6 => 0x02 case _ => 0x01
  }

  /** Bit `k` of an octet, counted from the top. */
  predicate OctetBit(x: bv8, k: nat)
  {
    x & OctetMask(k) != 0
  }

  function OctetBits(x: bv8): (bits: seq<bool>)
    ensures |bits| == 8
  {
    seq(8, k requires 0 <= k < 8 => OctetBit(x, k))
  }

  function Bits(data: seq<bv8>): (bits: seq<bool>)
    ensures |bits| == 8 * |data|
  {
    if data == [] then [] else Bits(data[..|data| - 1]) + OctetBits(data[|data| - 1])
  }

  lemma OctetBitsInjective(x: bv8, y: bv8)
    requires OctetBits(x) == OctetBits(y)
    ensures x == y
  {
    var a, b := OctetBits(x), OctetBits(y);
    assert a[0] == b[0] && a[1] == b[1] && a[2] == b[2] && a[3] == b[3];
    assert a[4] == b[4] && a[5] == b[5] && a[6] == b[6] && a[7] == b[7];
  }

  lemma OctetMasked(x: bv8, y: bv8, m: bv8)
    requires m & (m - 1) == 0
    ensures (x ^ y) & m != 0 <==> (x & m != 0) != (y & m != 0)
  {}

  lemma OctetMaskFacts(k: nat)
    ensures OctetMask(k) & (OctetMask(k) - 1) == 0
  {}

  lemma OctetXor(x: bv8, y: bv8, k: nat)
    ensures OctetBit(x ^ y, k) == (OctetBit(x, k) != OctetBit(y, k))
  {
    OctetMaskFacts(k);
    OctetMasked(x, y, OctetMask(k));
  }

  lemma BitsSnoc(data: seq<bv8>, i: nat)
    requires i < |data|
    ensures Bits(data[..i + 1]) == Bits(data[..i]) + OctetBits(data[i])
  {
    assert data[..i + 1][..i] == data[..i];
  }

  /** A message can be read back from its bits. */
  lemma {:induction false} BitsInjective(a: seq<bv8>, b: seq<bv8>)
    requires |a| == |b| && Bits(a) == Bits(b)
    ensures a == b
  {
    if a != [] {
      var n := |a| - 1;
      assert Bits(a)[..8 * n] == Bits(a[..n]) && Bits(b)[..8 * n] == Bits(b[..n]);
      assert Bits(a)[8 * n..] == OctetBits(a[n]) && Bits(b)[8 * n..] == OctetBits(b[n]);
      BitsInjective(a[..n], b[..n]);
      OctetBitsInjective(a[n], b[n]);
      assert a == a[..n] + [a[n]] && b == b[..n] + [b[n]];
    }
  }

  // ----- the coefficients of a 16-bit word

  /** The word whose one coefficient is `k` places below the top. */
  function Mask(k: nat): (m: bv16)
  {
    match k
    case 0 => 0x8000 case 1 => 0x4000 case 2 => 0x2000 case 3 => 0x1000
    case 4 => 0x0800 case 5 => 0x0400 case 6 => 0x0200 case 7 => 0x0100
    case 8 => 0x0080 case 9 => 0x0040 case 10 => 0x0020 case 11 => 0x0010
    case 12 => 0x0008 case 13 => 0x0004 case 14 => 0x0002 case _ => 0x0001
  }

  predicate Bit(c: bv16, k: nat)
  {
    c & Mask(k) != 0
  }

  lemma MaskFacts(k: nat)
    ensures Mask(k) & (Mask(k) - 1) == 0
    ensures k < 15 ==> Mask(k) == Mask(k + 1) << 1 && Mask(k + 1) & 0x8000 == 0
    ensures k >= 15 <==> Mask(k) == 1
  {}

  lemma XorMasked(c: bv16, d: bv16, m: bv16)
    requires m & (m - 1) == 0
    ensures (c ^ d) & m != 0 <==> (c & m != 0) != (d & m != 0)
  {}

  lemma XorBit(c: bv16, d: bv16, k: nat)
    ensures Bit(c ^ d, k) == (Bit(c, k) != Bit(d, k))
  {
    MaskFacts(k);
    XorMasked(c, d, Mask(k));
  }

  lemma ShiftMasked(c: bv16, m: bv16)
    requires m & 0x8000 == 0
    ensures (c << 1) & (m << 1) != 0 <==> c & m != 0
  {}

  lemma ShiftBit(c: bv16, k: nat)
    requires k < 15
    ensures Bit(c << 1, k) == Bit(c, k + 1)
  {
    MaskFacts(k);
    ShiftMasked(c, Mask(k + 1));
  }

  lemma ShiftBitLast(c: bv16)
    ensures !Bit(c << 1, 15)
  {}
}
