/**
  The table-driven CRC-16 of the firmware header: polynomial 0x1021, initial
  value 0.  It is proved to be the remainder of the image, shifted 16 places,
  divided by the generator, and to tell apart any two images that differ only
  inside 16 consecutive bits.
*/
module Crc16 {
  import opened CrcBits
  import Gf2

  function Table0(i: bv8): (e: bv16)
  {
    var l := i & 0xf;
    match i >> 4
    case 0 => Row(l, 0x0000, 0x1021, 0x2042, 0x3063, 0x4084, 0x50a5, 0x60c6, 0x70e7,
                     0x8108, 0x9129, 0xa14a, 0xb16b, 0xc18c, 0xd1ad, 0xe1ce, 0xf1ef)
    case 1 => Row(l, 0x1231, 0x0210, 0x3273, 0x2252, 0x52b5, 0x4294, 0x72f7, 0x62d6,
                     0x9339, 0x8318, 0xb37b, 0xa35a, 0xd3bd, 0xc39c, 0xf3ff, 0xe3de)
    case 2 => Row(l, 0x2462, 0x3443, 0x0420, 0x1401, 0x64e6, 0x74c7, 0x44a4, 0x5485,
                     0xa56a, 0xb54b, 0x8528, 0x9509, 0xe5ee, 0xf5cf, 0xc5ac, 0xd58d)
    case _ => Row(l, 0x3653, 0x2672, 0x1611, 0x0630, 0x76d7, 0x66f6, 0x5695, 0x46b4,
                     0xb75b, 0xa77a, 0x9719, 0x8738, 0xf7df, 0xe7fe, 0xd79d, 0xc7bc)
  }

  function Table1(i: bv8): (e: bv16)
  {
    var l := i & 0xf;
    match i >> 4
    case 4 => Row(l, 0x48c4, 0x58e5, 0x6886, 0x78a7, 0x0840, 0x1861, 0x2802, 0x3823,
                     0xc9cc, 0xd9ed, 0xe98e, 0xf9af, 0x8948, 0x9969, 0xa90a, 0xb92b)
    case 5 => Row(l, 0x5af5, 0x4ad4, 0x7ab7, 0x6a96, 0x1a71, 0x0a50, 0x3a33, 0x2a12,
                     0xdbfd, 0xcbdc, 0xfbbf, 0xeb9e, 0x9b79, 0x8b58, 0xbb3b, 0xab1a)
    case 6 => Row(l, 0x6ca6, 0x7c87, 0x4ce4, 0x5cc5, 0x2c22, 0x3c03, 0x0c60, 0x1c41,
                     0xedae, 0xfd8f, 0xcdec, 0xddcd, 0xad2a, 0xbd0b, 0x8d68, 0x9d49)
    case _ => Row(l, 0x7e97, 0x6eb6, 0x5ed5, 0x4ef4, 0x3e13, 0x2e32, 0x1e51, 0x0e70,
                     0xff9f, 0xefbe, 0xdfdd, 0xcffc, 0xbf1b, 0xaf3a, 0x9f59, 0x8f78)
  }

  function Table2(i: bv8): (e: bv16)
  {
    var l := i & 0xf;
    match i >> 4
    case 8 => Row(l, 0x9188, 0x81a9, 0xb1ca, 0xa1eb, 0xd10c, 0xc12d, 0xf14e, 0xe16f,
                     0x1080, 0x00a1, 0x30c2, 0x20e3, 0x5004, 0x4025, 0x7046, 0x6067)
    case 9 => Row(l, 0x83b9, 0x9398, 0xa3fb, 0xb3da, 0xc33d, 0xd31c, 0xe37f, 0xf35e,
                     0x02b1, 0x1290, 0x22f3, 0x32d2, 0x4235, 0x5214, 0x6277, 0x7256)
    case 10 => Row(l, 0xb5ea, 0xa5cb, 0x95a8, 0x8589, 0xf56e, 0xe54f, 0xd52c, 0xc50d,
                      0x34e2, 0x24c3, 0x14a0, 0x0481, 0x7466, 0x6447, 0x5424, 0x4405)
    case _ => Row(l, 0xa7db, 0xb7fa, 0x8799, 0x97b8, 0xe75f, 0xf77e, 0xc71d, 0xd73c,
                     0x26d3, 0x36f2, 0x0691, 0x16b0, 0x6657, 0x7676, 0x4615, 0x5634)
  }

  function Table3(i: bv8): (e: bv16)
  {
    var l := i & 0xf;
    match i >> 4
    case 12 => Row(l, 0xd94c, 0xc96d, 0xf90e, 0xe92f, 0x99c8, 0x89e9, 0xb98a, 0xa9ab,
                      0x5844, 0x4865, 0x7806, 0x6827, 0x18c0, 0x08e1, 0x3882, 0x28a3)
    case 13 => Row(l, 0xcb7d, 0xdb5c, 0xeb3f, 0xfb1e, 0x8bf9, 0x9bd8, 0xabbb, 0xbb9a,
                      0x4a75, 0x5a54, 0x6a37, 0x7a16, 0x0af1, 0x1ad0, 0x2ab3, 0x3a92)
    case 14 => Row(l, 0xfd2e, 0xed0f, 0xdd6c, 0xcd4d, 0xbdaa, 0xad8b, 0x9de8, 0x8dc9,
                      0x7c26, 0x6c07, 0x5c64, 0x4c45, 0x3ca2, 0x2c83, 0x1ce0, 0x0cc1)
    case _ => Row(l, 0xef1f, 0xff3e, 0xcf5d, 0xdf7c, 0xaf9b, 0xbfba, 0x8fd9, 0x9ff8,
                     0x6e17, 0x7e36, 0x4e55, 0x5e74, 0x2e93, 0x3eb2, 0x0ed1, 0x1ef0)
  }

  /** The constant table of the source. */
  function Table(i: bv8): (e: bv16)
  {
    if i < 0x40 then Table0(i) else if i < 0x80 then Table1(i) else if i < 0xc0 then Table2(i) else Table3(i)
  }

  // ----- the register as a 16-bit word and as a bit string

  /** Shift the remainder by one place and reduce it by the generator. */
  function Step(c: bv16): (d: bv16)
  {
    if c & 0x8000 != 0 then (c << 1) ^ 0x1021 else c << 1
  }

  function Step8(c: bv16): (d: bv16)
  {
    Step(Step(Step(Step(Step(Step(Step(Step(c))))))))
  }

  function WordBits(c: bv16): (bits: Gf2.Bits)
    ensures |bits| == 16
  {
    seq(16, k requires 0 <= k < 16 => Bit(c, k))
  }

  /** The generator x^16 + x^12 + x^5 + 1, leading term implied. */
  const G: Gf2.Bits := WordBits(0x1021)

  lemma TopBit(c: bv16)
    ensures Bit(c, 0) <==> c & 0x8000 != 0
  {}

  lemma ShiftedBit(c: bv16, k: nat)
    requires k < 16
    ensures Bit(c << 1, k) == (k < 15 && Bit(c, k + 1))
  {
    if k < 15 {
      ShiftBit(c, k);
    } else {
      ShiftBitLast(c);
    }
  }

  /** The bits of a reduced word, from those of the shifted word `d`. */
  lemma ReducedBit(d: bv16, top: bool, k: nat)
    ensures Bit(if top then d ^ 0x1021 else d, k) == (Bit(d, k) != (top && Bit(0x1021, k)))
  {
    XorBit(d, 0x1021, k);
  }

  lemma StepBit(c: bv16, k: nat)
    requires k < 16
    ensures Bit(Step(c), k) == ((k < 15 && Bit(c, k + 1)) != (Bit(c, 0) && Bit(0x1021, k)))
  {
    TopBit(c);
    ShiftedBit(c, k);
    ReducedBit(c << 1, Bit(c, 0), k);
  }

  lemma StepIsShift(c: bv16)
    ensures WordBits(Step(c)) == Gf2.Shift(G, WordBits(c), false)
  {
    var d := Step(c);
    var s := Gf2.Shift(G, WordBits(c), false);
    forall k: nat | k < 16
      ensures Bit(d, k) == s[k]
    {
      StepBit(c, k);
    }
  }

  lemma Step8IsSteps(c: bv16)
    ensures WordBits(Step8(c)) == Gf2.Steps(G, WordBits(c), 8)
  {
    var w := WordBits(c);
    var c1 := Step(c); StepIsShift(c); assert Gf2.Steps(G, w, 1) == WordBits(c1);
    var c2 := Step(c1); StepIsShift(c1); assert Gf2.Steps(G, w, 2) == WordBits(c2);
    var c3 := Step(c2); StepIsShift(c2); assert Gf2.Steps(G, w, 3) == WordBits(c3);
    var c4 := Step(c3); StepIsShift(c3); assert Gf2.Steps(G, w, 4) == WordBits(c4);
    var c5 := Step(c4); StepIsShift(c4); assert Gf2.Steps(G, w, 5) == WordBits(c5);
    var c6 := Step(c5); StepIsShift(c5); assert Gf2.Steps(G, w, 6) == WordBits(c6);
    var c7 := Step(c6); StepIsShift(c6); assert Gf2.Steps(G, w, 7) == WordBits(c7);
    StepIsShift(c7);
  }

  lemma OctetShifted(x: bv8, k: nat)
    requires k < 16
    ensures Bit((x as bv16) << 8, k) == (k < 8 && OctetBit(x, k))
  {}

  lemma OctetAtTop(x: bv8)
    ensures WordBits((x as bv16) << 8) == OctetBits(x) + Gf2.Zeros(8)
  {
    var d := (x as bv16) << 8;
    var s := OctetBits(x) + Gf2.Zeros(8);
    forall k: nat | k < 16
      ensures Bit(d, k) == s[k]
    {
      OctetShifted(x, k);
    }
  }

  /** The low octet of a word as bits. */
  function LowBits(c: bv16): (bits: Gf2.Bits)
    ensures |bits| == 8
  {
    seq(8, k requires 0 <= k < 8 => Bit(c, k + 8))
  }

  lemma LowShifted(c: bv16, k: nat)
    requires k < 16
    ensures Bit((c << 8) & 0xff00, k) == (k < 8 && Bit(c, k + 8))
  {}

  lemma HighOctet(c: bv16, k: nat)
    requires k < 8
    ensures (c >> 8) < 0x100 && OctetBit((c >> 8) as bv8, k) == Bit(c, k)
  {}

  /** The index of a lookup, bit by bit. */
  lemma IndexBit(c: bv16, x: bv8, k: nat)
    requires k < 8
    ensures (c >> 8) < 0x100 && OctetBit(((c >> 8) as bv8) ^ x, k) == (Bit(c, k) != OctetBit(x, k))
  {
    HighOctet(c, k);
    OctetXor((c >> 8) as bv8, x, k);
  }

  lemma ShiftBound(c: bv16)
    ensures (c >> 8) < 0x100
  {}

  /** Adding an octet at the top of a word leaves the index of the lookup above the low octet. */
  lemma IndexAtTop(c: bv16, x: bv8, i: bv8)
    requires forall k :: 0 <= k < 8 ==> OctetBit(i, k) == (Bit(c, k) != OctetBit(x, k))
    ensures Gf2.Xor(WordBits(c), OctetBits(x) + Gf2.Zeros(8)) == OctetBits(i) + LowBits(c)
  {
    var s, t := Gf2.Xor(WordBits(c), OctetBits(x) + Gf2.Zeros(8)), OctetBits(i) + LowBits(c);
    forall k: nat | k < 16
      ensures s[k] == t[k]
    {
      if k >= 8 { assert t[k] == LowBits(c)[k - 8]; }
    }
  }

  lemma XorWords(c: bv16, d: bv16)
    ensures WordBits(c ^ d) == Gf2.Xor(WordBits(c), WordBits(d))
  {
    var e := c ^ d;
    var s := Gf2.Xor(WordBits(c), WordBits(d));
    forall k: nat | k < 16
      ensures Bit(e, k) == s[k]
    {
      XorBit(c, d, k);
    }
  }

  lemma LowAtTop(c: bv16)
    ensures WordBits((c << 8) & 0xff00) == LowBits(c) + Gf2.Zeros(8)
  {
    var d := (c << 8) & 0xff00;
    var s := LowBits(c) + Gf2.Zeros(8);
    forall k: nat | k < 16
      ensures Bit(d, k) == s[k]
    {
      LowShifted(c, k);
    }
  }

  // ----- the table

  /** Eight steps on an octet at the top, without the steps. */
  function Unrolled(i: bv8): (d: bv16)
  {
    var x := i as bv16;
    var t := x ^ (x >> 4);
    (t << 12) ^ (t << 5) ^ t
  }

  lemma UnrolledIsStep8(i: bv8)
    ensures Step8((i as bv16) << 8) == Unrolled(i)
  {}

  lemma Table0IsUnrolled(i: bv8)
    requires i < 0x40
    ensures Table0(i) == Unrolled(i)
  {}

  lemma Table1IsUnrolled(i: bv8)
    requires 0x40 <= i < 0x80
    ensures Table1(i) == Unrolled(i)
  {}

  lemma Table2IsUnrolled(i: bv8)
    requires 0x80 <= i < 0xc0
    ensures Table2(i) == Unrolled(i)
  {}

  lemma Table3IsUnrolled(i: bv8)
    requires 0xc0 <= i
    ensures Table3(i) == Unrolled(i)
  {}

  lemma TableIsUnrolled(i: bv8)
    ensures Table(i) == Unrolled(i)
  {
    if i < 0x40 { Table0IsUnrolled(i); }
    else if i < 0x80 { Table1IsUnrolled(i); }
    else if i < 0xc0 { Table2IsUnrolled(i); }
    else { Table3IsUnrolled(i); }
  }

  /** Every one of the 256 constants is the remainder of its index. */
  lemma TableIsDivision(i: bv8)
    ensures WordBits(Table(i)) == Gf2.Steps(G, OctetBits(i) + Gf2.Zeros(8), 8)
  {
    UnrolledIsStep8(i);
    TableIsUnrolled(i);
    Step8IsSteps((i as bv16) << 8);
    OctetAtTop(i);
  }

  lemma SplitRegister(i: bv8, low: Gf2.Bits)
    requires |low| == 8
    ensures OctetBits(i) + low == Gf2.Xor(OctetBits(i) + Gf2.Zeros(8), Gf2.Zeros(8) + low)
  {
    Gf2.SplitXor(OctetBits(i), low);
  }

  lemma LowMovesUp(low: Gf2.Bits)
    requires |low| == 8
    ensures Gf2.Steps(G, Gf2.Zeros(8) + low, 8) == low + Gf2.Zeros(8)
  {
    Gf2.LowRises(G, low, 8, 8);
  }

  lemma XorShifted(c: bv16, e: bv16)
    ensures WordBits(((c << 8) & 0xff00) ^ e) == Gf2.Xor(LowBits(c) + Gf2.Zeros(8), WordBits(e))
  {
    XorWords((c << 8) & 0xff00, e);
    LowAtTop(c);
  }

  lemma StepFromIndex(c: bv16, i: bv8)
    ensures WordBits(((c << 8) & 0xff00) ^ Table(i)) == Gf2.Steps(G, OctetBits(i) + LowBits(c), 8)
  {
    var low := LowBits(c);
    XorShifted(c, Table(i));
    TableIsDivision(i);
    SplitRegister(i, low);
    LowMovesUp(low);
    Gf2.LookupSteps(G, OctetBits(i) + low, OctetBits(i) + Gf2.Zeros(8), Gf2.Zeros(8) + low, 8,
                    WordBits(Table(i)), low + Gf2.Zeros(8));
  }

  lemma StepToFeed(c: bv16, x: bv8, i: bv8)
    requires forall k :: 0 <= k < 8 ==> OctetBit(i, k) == (Bit(c, k) != OctetBit(x, k))
    ensures Gf2.Steps(G, OctetBits(i) + LowBits(c), 8) == Gf2.FeedTop(G, WordBits(c), OctetBits(x))
  {
    IndexAtTop(c, x, i);
    Gf2.FeedTopAtOnce(G, WordBits(c), OctetBits(x));
  }

  /** One pass of the loop consumes the eight bits of one octet. */
  lemma TableStep(c: bv16, x: bv8)
    ensures (c >> 8) < 0x100
    ensures WordBits(((c << 8) & 0xff00) ^ Table(((c >> 8) as bv8) ^ x))
            == Gf2.FeedTop(G, WordBits(c), OctetBits(x))
  {
    ShiftBound(c);
    var i := ((c >> 8) as bv8) ^ x;
    forall k | 0 <= k < 8
      ensures OctetBit(i, k) == (Bit(c, k) != OctetBit(x, k))
    {
      IndexBit(c, x, k);
    }
    StepToFeed(c, x, i);
    StepFromIndex(c, i);
  }

  // ----- the routine

  /** The register after dividing the bits of `data`, 16 places early. */
  function Crc(data: seq<bv8>): (r: Gf2.Bits)
  {
    Gf2.FeedTop(G, Gf2.Zeros(16), Bits(data))
  }

  lemma WordBitsZero()
    ensures WordBits(0) == Gf2.Zeros(16)
  {}

  /** The loop body: the table turns eight divisions into one lookup. */
  method Update(old_crc: bv16, x: bv8) returns (crc: bv16)
    ensures WordBits(crc) == Gf2.FeedTop(G, WordBits(old_crc), OctetBits(x))
  {
    TableStep(old_crc, x);
    var ushort := (old_crc << 8) & 0xff00;
    crc := ushort ^ Table(((old_crc >> 8) as bv8) ^ x);
  }

  method Crc16CCITCalculate(data: seq<bv8>) returns (crc: bv16)
    ensures WordBits(crc) == Crc(data)
  {
    crc := 0;
    WordBitsZero();
    for i := 0 to |data|
      invariant WordBits(crc) == Crc(data[..i])
    {
      BitsSnoc(data, i);
      Gf2.FeedTopConcat(G, Gf2.Zeros(16), Bits(data[..i]), OctetBits(data[i]));
      crc := Update(crc, data[i]);
    }
    assert data[..|data|] == data;
  }

  // ----- what the value means

  /** The value is the one remainder of the image times x^16 by the generator. */
  lemma CrcIsRemainder(data: seq<bv8>, q: Gf2.Bits, rest: Gf2.Bits)
    requires |q| == 8 * |data| + 16 && |rest| == 16
    ensures Gf2.Divides(G, Gf2.Zeros(16) + (Bits(data) + Gf2.Zeros(16)), q, rest)
            <==> rest == Crc(data) && q == Gf2.Quotient(G, Gf2.Zeros(16), Bits(data) + Gf2.Zeros(16))
  {
    Gf2.TopDividesShifted(G, Bits(data));
    Gf2.DivisionTheorem(G, Gf2.Zeros(16), Bits(data) + Gf2.Zeros(16), q, rest);
  }

  /**
    Two different images of the same length, any length, whose differing bits
    all lie among 16 consecutive ones get different CRCs.
  */
  lemma BurstDetected(a: seq<bv8>, b: seq<bv8>, p: nat)
    requires |a| == |b| && a != b
    requires forall j :: 0 <= j < 8 * |a| && Bits(a)[j] != Bits(b)[j] ==> p <= j < p + 16
    ensures Crc(a) != Crc(b)
  {
    if Bits(a) == Bits(b) { BitsInjective(a, b); }
    Gf2.BurstSeparates(G, Bits(a), Bits(b), p);
  }

  /** An image followed by its own CRC divides evenly. */
  lemma AppendedCrcVerifies(data: seq<bv8>, hi: bv8, lo: bv8)
    requires OctetBits(hi) + OctetBits(lo) == Crc(data)
    ensures Crc(data + [hi, lo]) == Gf2.Zeros(16)
  {
    BitsOfPair(data, hi, lo);
    Gf2.OwnRemainder(G, Bits(data));
  }

  lemma BitsOfPair(data: seq<bv8>, hi: bv8, lo: bv8)
    ensures Bits(data + [hi, lo]) == Bits(data) + (OctetBits(hi) + OctetBits(lo))
  {
    var whole := data + [hi, lo];
    BitsSnoc(whole, |data|);
    BitsSnoc(whole, |data| + 1);
    assert whole[..|data|] == data && whole[..|data| + 1 + 1] == whole;
  }

  lemma CrcOfOne()
    ensures Crc([0x01]) == OctetBits(0x10) + OctetBits(0x21)
  {
    WordBitsZero();
    TableStep(0, 0x01);
    assert Bits([0x01]) == OctetBits(0x01);
    assert WordBits(0x1021) == OctetBits(0x10) + OctetBits(0x21);
  }

  /** 16 is the best possible: the generator is a 17-bit pattern that goes unseen. */
  lemma SeventeenBitsCanCollide() returns (a: seq<bv8>, b: seq<bv8>)
    ensures |a| == |b| && a != b && Crc(a) == Crc(b)
    ensures forall j :: 0 <= j < 8 * |a| && Bits(a)[j] != Bits(b)[j] ==> 7 <= j < 7 + 17
  {
    a, b := [0x01] + [0x10, 0x21], [0x00, 0x00, 0x00];
    CrcOfOne();
    AppendedCrcVerifies([0x01], 0x10, 0x21);
    ZeroImage(b);
    LeadingBits(a);
    assert a[0] != b[0];
  }

  lemma LeadingBits(a: seq<bv8>)
    requires a == [0x01, 0x10, 0x21]
    ensures forall j :: 0 <= j < 24 && Bits(a)[j] ==> 7 <= j
  {
    BitsSnoc(a, 0); BitsSnoc(a, 1); BitsSnoc(a, 2);
    assert a[..3] == a && Bits(a[..0]) == [];
    forall j | 0 <= j < 7
      ensures !Bits(a)[j]
    {
      assert Bits(a)[j] == OctetBit(0x01, j);
    }
  }

  lemma ZeroImage(z: seq<bv8>)
    requires z == [0x00, 0x00, 0x00]
    ensures Crc(z) == Gf2.Zeros(16) && Bits(z) == Gf2.Zeros(24)
  {
    BitsSnoc(z, 0); BitsSnoc(z, 1); BitsSnoc(z, 2);
    assert z[..3] == z && Bits(z) == Gf2.Zeros(24);
    Gf2.FeedTopZeros(G, Gf2.Zeros(16), 24);
    Gf2.ZeroStays(G, 24);
  }
}
