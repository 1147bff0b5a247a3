/**
  The CRC-10 of ATM cells: table lookup, the run-time check of the table, and
  the meaning of the result as a polynomial remainder.
*/
module Crc10 {
  import opened CrcBits
  import Gf2

  function Table0(i: bv8): (e: bv16)
  {
    var l := i & 0xf;
    match i >> 4
    case 0 => Row(l, 0x0000, 0x0233, 0x0255, 0x0066, 0x0299, 0x00aa, 0x00cc, 0x02ff,
                     0x0301, 0x0132, 0x0154, 0x0367, 0x0198, 0x03ab, 0x03cd, 0x01fe)
    case 1 => Row(l, 0x0031, 0x0202, 0x0264, 0x0057, 0x02a8, 0x009b, 0x00fd, 0x02ce,
                     0x0330, 0x0103, 0x0165, 0x0356, 0x01a9, 0x039a, 0x03fc, 0x01cf)
    case 2 => Row(l, 0x0062, 0x0251, 0x0237, 0x0004, 0x02fb, 0x00c8, 0x00ae, 0x029d,
                     0x0363, 0x0150, 0x0136, 0x0305, 0x01fa, 0x03c9, 0x03af, 0x019c)
    case _ => Row(l, 0x0053, 0x0260, 0x0206, 0x0035, 0x02ca, 0x00f9, 0x009f, 0x02ac,
                     0x0352, 0x0161, 0x0107, 0x0334, 0x01cb, 0x03f8, 0x039e, 0x01ad)
  }

  function Table1(i: bv8): (e: bv16)
  {
    var l := i & 0xf;
    match i >> 4
    case 4 => Row(l, 0x00c4, 0x02f7, 0x0291, 0x00a2, 0x025d, 0x006e, 0x0008, 0x023b,
                     0x03c5, 0x01f6, 0x0190, 0x03a3, 0x015c, 0x036f, 0x0309, 0x013a)
    case 5 => Row(l, 0x00f5, 0x02c6, 0x02a0, 0x0093, 0x026c, 0x005f, 0x0039, 0x020a,
                     0x03f4, 0x01c7, 0x01a1, 0x0392, 0x016d, 0x035e, 0x0338, 0x010b)
    case 6 => Row(l, 0x00a6, 0x0295, 0x02f3, 0x00c0, 0x023f, 0x000c, 0x006a, 0x0259,
                     0x03a7, 0x0194, 0x01f2, 0x03c1, 0x013e, 0x030d, 0x036b, 0x0158)
    case _ => Row(l, 0x0097, 0x02a4, 0x02c2, 0x00f1, 0x020e, 0x003d, 0x005b, 0x0268,
                     0x0396, 0x01a5, 0x01c3, 0x03f0, 0x010f, 0x033c, 0x035a, 0x0169)
  }

  function Table2(i: bv8): (e: bv16)
  {
    var l := i & 0xf;
    match i >> 4
    case 8 => Row(l, 0x0188, 0x03bb, 0x03dd, 0x01ee, 0x0311, 0x0122, 0x0144, 0x0377,
                     0x0289, 0x00ba, 0x00dc, 0x02ef, 0x0010, 0x0223, 0x0245, 0x0076)
    case 9 => Row(l, 0x01b9, 0x038a, 0x03ec, 0x01df, 0x0320, 0x0113, 0x0175, 0x0346,
                     0x02b8, 0x008b, 0x00ed, 0x02de, 0x0021, 0x0212, 0x0274, 0x0047)
    case 10 => Row(l, 0x01ea, 0x03d9, 0x03bf, 0x018c, 0x0373, 0x0140, 0x0126, 0x0315,
                      0x02eb, 0x00d8, 0x00be, 0x028d, 0x0072, 0x0241, 0x0227, 0x0014)
    case _ => Row(l, 0x01db, 0x03e8, 0x038e, 0x01bd, 0x0342, 0x0171, 0x0117, 0x0324,
                     0x02da, 0x00e9, 0x008f, 0x02bc, 0x0043, 0x0270, 0x0216, 0x0025)
  }

  function Table3(i: bv8): (e: bv16)
  {
    var l := i & 0xf;
    match i >> 4
    case 12 => Row(l, 0x014c, 0x037f, 0x0319, 0x012a, 0x03d5, 0x01e6, 0x0180, 0x03b3,
                      0x024d, 0x007e, 0x0018, 0x022b, 0x00d4, 0x02e7, 0x0281, 0x00b2)
    case 13 => Row(l, 0x017d, 0x034e, 0x0328, 0x011b, 0x03e4, 0x01d7, 0x01b1, 0x0382,
                      0x027c, 0x004f, 0x0029, 0x021a, 0x00e5, 0x02d6, 0x02b0, 0x0083)
    case 14 => Row(l, 0x012e, 0x031d, 0x037b, 0x0148, 0x03b7, 0x0184, 0x01e2, 0x03d1,
                      0x022f, 0x001c, 0x007a, 0x0249, 0x00b6, 0x0285, 0x02e3, 0x00d0)
    case _ => Row(l, 0x011f, 0x032c, 0x034a, 0x0179, 0x0386, 0x01b5, 0x01d3, 0x03e0,
                     0x021e, 0x002d, 0x004b, 0x0278, 0x0087, 0x02b4, 0x02d2, 0x00e1)
  }

  /** The constant table of the source. */
  function Table(i: bv8): (e: bv16)
  {
    if i < 0x40 then Table0(i) else if i < 0x80 then Table1(i) else if i < 0xc0 then Table2(i) else Table3(i)
  }

  // ----- one division step

  function Step(c: bv16): (d: bv16)
  {
    if (c << 1) & 0x400 != 0 then (c << 1) ^ 0x633 else c << 1
  }

  function Step8(c: bv16): (d: bv16)
  {
    Step(Step(Step(Step(Step(Step(Step(Step(c))))))))
  }

  /** The low ten coefficients of a word. */
  function TenBits(c: bv16): (bits: Gf2.Bits)
    ensures |bits| == 10
  {
    seq(10, k requires 0 <= k < 10 => Bit(c, k + 6))
  }

  /** The generator x^10 + x^9 + x^5 + x^4 + x + 1, leading term implied. */
  const G: Gf2.Bits := TenBits(0x633)

  lemma StepBit(c: bv16, k: nat)
    requires k < 10
    ensures Bit(Step(c), k + 6) == ((k < 9 && Bit(c, k + 7)) != (Bit(c, 6) && Bit(0x633, k + 6)))
  {
    if k < 9 { ShiftBit(c, k + 6); } else { ShiftBitLast(c); }
    XorBit(c << 1, 0x633, k + 6);
    assert (c << 1) & 0x400 != 0 <==> c & 0x200 != 0;
  }

  lemma StepIsShift(c: bv16)
    ensures TenBits(Step(c)) == Gf2.Shift(G, TenBits(c), false)
  {
    var d := Step(c);
    var s := Gf2.Shift(G, TenBits(c), false);
    forall k: nat | k < 10
      ensures Bit(d, k + 6) == s[k]
    {
      StepBit(c, k);
    }
  }

  lemma Step8IsSteps(c: bv16)
    ensures TenBits(Step8(c)) == Gf2.Steps(G, TenBits(c), 8)
  {
    var w := TenBits(c);
    var c1 := Step(c); StepIsShift(c); assert Gf2.Steps(G, w, 1) == TenBits(c1);
    var c2 := Step(c1); StepIsShift(c1); assert Gf2.Steps(G, w, 2) == TenBits(c2);
    var c3 := Step(c2); StepIsShift(c2); assert Gf2.Steps(G, w, 3) == TenBits(c3);
    var c4 := Step(c3); StepIsShift(c3); assert Gf2.Steps(G, w, 4) == TenBits(c4);
    var c5 := Step(c4); StepIsShift(c4); assert Gf2.Steps(G, w, 5) == TenBits(c5);
    var c6 := Step(c5); StepIsShift(c5); assert Gf2.Steps(G, w, 6) == TenBits(c6);
    var c7 := Step(c6); StepIsShift(c6); assert Gf2.Steps(G, w, 7) == TenBits(c7);
    StepIsShift(c7);
  }

  // ----- the table

  /** The remainders of the eight single bits, added up. */
  function Unrolled(i: bv8): (d: bv16)
  {
    (if i & 0x01 != 0 then 0x0233 else 0) ^
    (if i & 0x02 != 0 then 0x0255 else 0) ^
    (if i & 0x04 != 0 then 0x0299 else 0) ^
    (if i & 0x08 != 0 then 0x0301 else 0) ^
    (if i & 0x10 != 0 then 0x0031 else 0) ^
    (if i & 0x20 != 0 then 0x0062 else 0) ^
    (if i & 0x40 != 0 then 0x00c4 else 0) ^
    (if i & 0x80 != 0 then 0x0188 else 0)
  }

  lemma UnrolledIsStep8(i: bv8)
    ensures Step8((i as bv16) << 2) == Unrolled(i)
  {}

  lemma Table0IsUnrolled(i: bv8)
    requires i < 0x40
    ensures Table0(i) == Unrolled(i)
  {}

  lemma Table1IsUnrolled(i: bv8)
    requires 0x40 <= i < 0x80
    ensures Table1(i) == Unrolled(i)
  {}

  lemma Table2IsUnrolled(i: bv8)
    requires 0x80 <= i < 0xc0
    ensures Table2(i) == Unrolled(i)
  {}

  lemma Table3IsUnrolled(i: bv8)
    requires 0xc0 <= i
    ensures Table3(i) == Unrolled(i)
  {}

  lemma TableIsUnrolled(i: bv8)
    ensures Table(i) == Unrolled(i)
  {
    if i < 0x40 { Table0IsUnrolled(i); }
    else if i < 0x80 { Table1IsUnrolled(i); }
    else if i < 0xc0 { Table2IsUnrolled(i); }
    else { Table3IsUnrolled(i); }
  }

  /** The low two bits of a word. */
  function LowBits(c: bv16): (bits: Gf2.Bits)
    ensures |bits| == 2
  {
    [Bit(c, 14), Bit(c, 15)]
  }

  lemma IndexBit(c: bv16, k: nat)
    requires k < 8
    ensures (c >> 2) & 0xff < 0x100 && OctetBit(((c >> 2) & 0xff) as bv8, k) == Bit(c, k + 6)
  {}

  lemma IndexBound(c: bv16)
    ensures (c >> 2) & 0xff < 0x100
  {}

  /** The remainder is the index of the lookup above two low bits. */
  lemma IndexAtTop(c: bv16, i: bv8)
    requires forall k :: 0 <= k < 8 ==> OctetBit(i, k) == Bit(c, k + 6)
    ensures TenBits(c) == OctetBits(i) + LowBits(c)
  {
    var s, t := TenBits(c), OctetBits(i) + LowBits(c);
    assert s[8] == t[8] && s[9] == t[9];
  }

  lemma OctetShifted(x: bv8, k: nat)
    requires k < 10
    ensures Bit((x as bv16) << 2, k + 6) == (k < 8 && OctetBit(x, k))
  {}

  lemma OctetAtTop(x: bv8)
    ensures TenBits((x as bv16) << 2) == OctetBits(x) + Gf2.Zeros(2)
  {
    var s, t := TenBits((x as bv16) << 2), OctetBits(x) + Gf2.Zeros(2);
    forall k: nat | k < 10
      ensures s[k] == t[k]
    {
      OctetShifted(x, k);
    }
  }

  lemma LowShifted(c: bv16, k: nat)
    requires k < 10
    ensures Bit((c << 8) & 0x3ff, k + 6) == if k == 0 then Bit(c, 14) else k == 1 && Bit(c, 15)
  {
    if k == 0 {
      assert ((c << 8) & 0x3ff) & 0x200 != 0 <==> c & 0x0002 != 0;
    } else if k == 1 {
      assert ((c << 8) & 0x3ff) & 0x100 != 0 <==> c & 0x0001 != 0;
    } else {
      assert ((c << 8) & 0x3ff) & 0xff == 0;
      LowMasks(k);
    }
  }

  lemma LowMasks(k: nat)
    requires 2 <= k < 10
    ensures Mask(k + 6) & 0xff == Mask(k + 6)
  {}

  lemma LowAtTop(c: bv16)
    ensures TenBits((c << 8) & 0x3ff) == LowBits(c) + Gf2.Zeros(8)
  {
    var s, t := TenBits((c << 8) & 0x3ff), LowBits(c) + Gf2.Zeros(8);
    forall k: nat | k < 10
      ensures s[k] == t[k]
    {
      LowShifted(c, k);
    }
  }

  lemma OctetLow(x: bv8, k: nat)
    requires k < 10
    ensures Bit(x as bv16, k + 6) == (k >= 2 && OctetBit(x, k - 2))
  {}

  lemma OctetAtBottom(x: bv8)
    ensures TenBits(x as bv16) == Gf2.Zeros(2) + OctetBits(x)
  {
    var s, t := TenBits(x as bv16), Gf2.Zeros(2) + OctetBits(x);
    forall k: nat | k < 10
      ensures s[k] == t[k]
    {
      OctetLow(x, k);
    }
  }

  lemma XorTens(c: bv16, d: bv16)
    ensures TenBits(c ^ d) == Gf2.Xor(TenBits(c), TenBits(d))
  {
    var s, t := TenBits(c ^ d), Gf2.Xor(TenBits(c), TenBits(d));
    forall k: nat | k < 10
      ensures s[k] == t[k]
    {
      XorBit(c, d, k + 6);
    }
  }

  /** Every one of the 256 constants is the remainder of its index. */
  lemma TableIsDivision(i: bv8)
    ensures TenBits(Table(i)) == Gf2.Steps(G, OctetBits(i) + Gf2.Zeros(2), 8)
  {
    UnrolledIsStep8(i);
    TableIsUnrolled(i);
    Step8IsSteps((i as bv16) << 2);
    OctetAtTop(i);
  }

  lemma SplitRegister(i: bv8, low: Gf2.Bits)
    requires |low| == 2
    ensures OctetBits(i) + low == Gf2.Xor(OctetBits(i) + Gf2.Zeros(2), Gf2.Zeros(8) + low)
  {
    Gf2.SplitXor(OctetBits(i), low);
  }

  lemma LowMovesUp(low: Gf2.Bits)
    requires |low| == 2
    ensures Gf2.Steps(G, Gf2.Zeros(8) + low, 8) == low + Gf2.Zeros(8)
  {
    Gf2.LowRises(G, low, 8, 8);
  }

  lemma XorShifted(c: bv16, e: bv16)
    ensures TenBits(((c << 8) & 0x3ff) ^ e) == Gf2.Xor(LowBits(c) + Gf2.Zeros(8), TenBits(e))
  {
    XorTens((c << 8) & 0x3ff, e);
    LowAtTop(c);
  }

  lemma StepFromIndex(c: bv16, i: bv8)
    ensures TenBits(((c << 8) & 0x3ff) ^ Table(i)) == Gf2.Steps(G, OctetBits(i) + LowBits(c), 8)
  {
    var low := LowBits(c);
    XorShifted(c, Table(i));
    TableIsDivision(i);
    SplitRegister(i, low);
    LowMovesUp(low);
    Gf2.LookupSteps(G, OctetBits(i) + low, OctetBits(i) + Gf2.Zeros(2), Gf2.Zeros(8) + low, 8,
                    TenBits(Table(i)), low + Gf2.Zeros(8));
  }

  lemma StepToFeed(c: bv16, x: bv8, i: bv8, looked: bv16)
    requires forall k :: 0 <= k < 8 ==> OctetBit(i, k) == Bit(c, k + 6)
    requires TenBits(looked) == Gf2.Steps(G, OctetBits(i) + LowBits(c), 8)
    ensures TenBits(looked ^ (x as bv16)) == Gf2.FeedLow(G, TenBits(c), OctetBits(x))
  {
    IndexAtTop(c, i);
    XorTens(looked, x as bv16);
    OctetAtBottom(x);
    Gf2.FeedLowAtOnce(G, TenBits(c), OctetBits(x));
  }

  /** One pass of the loop shifts the eight bits of one octet in at the bottom. */
  lemma TableStep(c: bv16, x: bv8)
    ensures (c >> 2) & 0xff < 0x100
    ensures TenBits(((c << 8) & 0x3ff) ^ Table(((c >> 2) & 0xff) as bv8) ^ (x as bv16))
            == Gf2.FeedLow(G, TenBits(c), OctetBits(x))
  {
    IndexBound(c);
    var i := ((c >> 2) & 0xff) as bv8;
    forall k | 0 <= k < 8
      ensures OctetBit(i, k) == Bit(c, k + 6)
    {
      IndexBit(c, k);
    }
    StepFromIndex(c, i);
    StepToFeed(c, x, i, ((c << 8) & 0x3ff) ^ Table(i));
  }

  // ----- the routines

  /**
    One table entry as the start-up check computes it: for every index it is the
    constant, so the check never fails.
  */
  method ComputeEntry(i: bv8) returns (accum: bv16)
    ensures accum == Table(i)
  {
    TableIsUnrolled(i);
    UnrolledIsStep8(i);
    accum := (i as bv16) << 2;
    ghost var start := accum;
    for j := 0 to 8
      invariant accum == Iterate(start, j)
    {
      accum := accum << 1;
      if accum & 0x400 != 0 {
        accum := accum ^ 0x633;
      }
    }
    IterateEight(start);
  }

  ghost function Iterate(c: bv16, n: nat): (d: bv16)
    decreases n
  {
    if n == 0 then c else Step(Iterate(c, n - 1))
  }

  lemma IterateEight(c: bv16)
    ensures Iterate(c, 8) == Step8(c)
  {
    assert Iterate(c, 2) == Step(Step(c));
    assert Iterate(c, 4) == Step(Step(Iterate(c, 2)));
    assert Iterate(c, 6) == Step(Step(Iterate(c, 4)));
  }

  method Update(c: bv16, x: bv8) returns (accum: bv16)
    ensures TenBits(accum) == Gf2.FeedLow(G, TenBits(c), OctetBits(x))
    ensures accum < 0x400
  {
    TableStep(c, x);
    UpdateBound(c, x);
    accum := ((c << 8) & 0x3ff) ^ Table(((c >> 2) & 0xff) as bv8) ^ (x as bv16);
  }

  lemma UpdateBound(c: bv16, x: bv8)
    ensures (c >> 2) & 0xff < 0x100
    ensures ((c << 8) & 0x3ff) ^ Table(((c >> 2) & 0xff) as bv8) ^ (x as bv16) < 0x400
  {
    TableIsUnrolled(((c >> 2) & 0xff) as bv8);
    UnrolledBound(((c >> 2) & 0xff) as bv8);
  }

  lemma UnrolledBound(i: bv8)
    ensures Unrolled(i) < 0x400
  {}

  /** For every starting value, of which only the low ten bits matter, and every message. */
  method VerifyCrc10Cksum(start: bv16, data: seq<bv8>) returns (accum: bv16)
    ensures TenBits(accum) == Gf2.FeedLow(G, TenBits(start), Bits(data))
    ensures data != [] ==> accum < 0x400
  {
    accum := start;
    for i := 0 to |data|
      invariant TenBits(accum) == Gf2.FeedLow(G, TenBits(start), Bits(data[..i]))
      invariant i > 0 ==> accum < 0x400
    {
      BitsSnoc(data, i);
      Gf2.FeedLowConcat(G, TenBits(start), Bits(data[..i]), OctetBits(data[i]));
      accum := Update(accum, data[i]);
    }
    assert data[..|data|] == data;
  }

  // ----- what the value means

  /** The only ten-bit word with no coefficients is zero. */
  lemma ZeroWord(c: bv16)
    requires c < 0x400
    ensures TenBits(c) == Gf2.Zeros(10) <==> c == 0
  {
    if TenBits(c) == Gf2.Zeros(10) {
      var t := TenBits(c);
      assert !t[0] && !t[1] && !t[2] && !t[3] && !t[4] && !t[5] && !t[6] && !t[7] && !t[8] && !t[9];
    }
  }

  lemma ZeroRegister()
    ensures TenBits(0) == Gf2.Zeros(10)
  {}

  /** The result is the one remainder of the starting value followed by the message. */
  lemma ResultIsRemainder(start: bv16, data: seq<bv8>, q: Gf2.Bits, rest: Gf2.Bits)
    requires |q| == 8 * |data| && |rest| == 10
    ensures Gf2.Divides(G, TenBits(start) + Bits(data), q, rest)
            <==> rest == Gf2.FeedLow(G, TenBits(start), Bits(data))
                 && q == Gf2.Quotient(G, TenBits(start), Bits(data))
  {
    Gf2.DivisionTheorem(G, TenBits(start), Bits(data), q, rest);
  }

  lemma DivisibleBits(bits: Gf2.Bits)
    ensures Gf2.FeedLow(G, Gf2.Zeros(10), bits) == Gf2.Zeros(10)
            <==> exists q: Gf2.Bits :: |q| == |bits| && Gf2.Times(G, q) == Gf2.Zeros(10) + bits
  {
    Gf2.ZeroRemainder(G, bits);
  }

  /** Started from 0, the result is 0 exactly when the generator divides the message. */
  lemma ZeroMeansDivisible(data: seq<bv8>, accum: bv16)
    requires accum < 0x400
    requires TenBits(accum) == Gf2.FeedLow(G, TenBits(0), Bits(data))
    ensures accum == 0
            <==> exists q: Gf2.Bits :: |q| == |Bits(data)| && Gf2.Times(G, q) == Gf2.Zeros(10) + Bits(data)
  {
    ZeroWord(accum);
    ZeroRegister();
    DivisibleBits(Bits(data));
  }
}
