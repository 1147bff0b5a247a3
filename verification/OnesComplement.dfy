/**
  The Internet checksum as sections 1 and 2 of RFC 1071 define it: pair the
  octets into 16-bit words in the byte order of the machine, pad an odd octet
  with zero, add with end-around carry, complement.

  Beside the definition stands the arithmetic the fast routine relies on: a sum
  may be kept in any form that agrees with it modulo 65535 and is zero exactly
  when it is (`Rep`), because 256 * 256 is 1 modulo 65535.
*/
module OnesComplement {
  import opened Octets

  /** Add the carry of a sum back to its low 16 bits. */
  function Fold(s: nat): (c: nat)
  {
    s % 0x1_0000 + s / 0x1_0000
  }

  /** Addition of 16-bit words with end-around carry. */
  function OcAdd(a: Word16, b: Word16): (c: Word16)
  {
    Fold(a + b)
  }

  /** The data that come before the last word, and that word. */
  function LastWord(le: bool, data: seq<Octet>): (r: (seq<Octet>, Word16))
    requires data != []
    ensures |r.0| < |data|
  {
    var n := |data|;
    if n % 2 == 1 then (data[..n - 1], Pair(le, data[n - 1], 0))
    else (data[..n - 2], Pair(le, data[n - 2], data[n - 1]))
  }

  function RfcSum(le: bool, data: seq<Octet>): (sum: Word16)
    decreases |data|
  {
    if data == [] then 0 else OcAdd(RfcSum(le, LastWord(le, data).0), LastWord(le, data).1)
  }

  function Rfc1071(le: bool, data: seq<Octet>): (checksum: Word16)
  {
    0xFFFF - RfcSum(le, data)
  }

  // ----- unreduced totals

  /** What octet `b` at stream position `i` contributes to its word. */
  function Weighed(le: bool, i: nat, b: Octet): (c: nat)
  {
    if le == (i % 2 == 0) then b else 256 * b
  }

  /** The sum of all words of the zero-padded stream, with no carry folded. */
  function Total(le: bool, data: seq<Octet>): (t: nat)
  {
    if data == [] then 0
    else Total(le, data[..|data| - 1]) + Weighed(le, |data| - 1, data[|data| - 1])
  }

  lemma {:induction false} TotalSnoc(le: bool, data: seq<Octet>, b: Octet)
    ensures Total(le, data + [b]) == Total(le, data) + Weighed(le, |data|, b)
  {
    assert (data + [b])[..|data|] == data;
  }

  /** Two octets at an even position add the word they form. */
  lemma {:induction false} TotalPair(le: bool, data: seq<Octet>, a: Octet, b: Octet)
    requires |data| % 2 == 0
    ensures Total(le, data + [a, b]) == Total(le, data) + Pair(le, a, b)
  {
    TotalSnoc(le, data, a);
    TotalSnoc(le, data + [a], b);
    assert data + [a] + [b] == data + [a, b];
  }

  /** The multiples of 65535. */
  function Wraps(k: int): (m: int)
  {
    0xFFFF * k
  }

  /** `s` stands for `t`: equal modulo 65535, and zero exactly when `t` is. */
  ghost predicate Rep(s: nat, t: nat)
  {
    (exists k: int :: s - t == Wraps(k)) && (s == 0 <==> t == 0)
  }

  lemma RepBy(s: nat, t: nat, k: int)
    requires s - t == 0xFFFF * k && (s == 0 <==> t == 0)
    ensures Rep(s, t)
  {
    assert s - t == Wraps(k);
  }

  lemma RepSame(s: nat)
    ensures Rep(s, s)
  {
    RepBy(s, s, 0);
  }

  lemma RepAdd(s: nat, t: nat, s': nat, t': nat)
    requires Rep(s, t) && Rep(s', t')
    ensures Rep(s + s', t + t')
  {
    var k: int :| s - t == Wraps(k);
    var k': int :| s' - t' == Wraps(k');
    RepBy(s + s', t + t', k + k');
  }

  lemma RepTrans(s: nat, t: nat, u: nat)
    requires Rep(s, t) && Rep(t, u)
    ensures Rep(s, u)
  {
    var k: int :| s - t == Wraps(k);
    var k': int :| t - u == Wraps(k');
    RepBy(s, u, k + k');
  }

  lemma RepShift(s: nat, t: nat)
    requires Rep(s, t)
    ensures Rep(256 * s, 256 * t)
  {
    var k: int :| s - t == Wraps(k);
    RepBy(256 * s, 256 * t, 256 * k);
  }

  /** Two byte shifts cancel: 256 * 256 is 1 modulo 65535. */
  lemma RepShiftTwice(t: nat)
    ensures Rep(256 * (256 * t), t)
  {
    RepBy(256 * (256 * t), t, t);
  }

  /** A word read one octet out of step is the in-step word shifted by a byte. */
  lemma RepSwapped(le: bool, a: Octet, b: Octet)
    ensures Rep(Pair(le, a, b), 256 * Pair(le, b, a))
  {
    RepBy(Pair(le, a, b), 256 * Pair(le, b, a), -(if le then a else b) as int);
  }

  // ----- the representative between 0 and 65535 is unique

  lemma RepUnique(a: Word16, b: Word16, t: nat)
    requires Rep(a, t) && Rep(b, t)
    ensures a == b
  {
    var k: int :| a - t == Wraps(k);
    var k': int :| b - t == Wraps(k');
    assert a - b == 0xFFFF * (k - k');
  }

  lemma FoldRep(s: nat)
    requires s < 0x2_0000
    ensures Rep(Fold(s), s)
  {
    RepBy(Fold(s), s, -(s / 0x1_0000));
  }

  lemma OcAddRep(s: Word16, t: nat, w: Word16)
    requires Rep(s, t)
    ensures Rep(OcAdd(s, w), t + w)
  {
    FoldRep(s + w);
    RepSame(w);
    RepAdd(s, t, w, w);
    RepTrans(OcAdd(s, w), s + w, t + w);
  }

  /** An odd last octet forms a word with zero. */
  lemma {:induction false} TotalOdd(le: bool, front: seq<Octet>, b: Octet)
    requires |front| % 2 == 0
    ensures Total(le, front + [b]) == Total(le, front) + Pair(le, b, 0)
  {
    TotalSnoc(le, front, b);
  }

  lemma {:induction false} TotalLastWord(le: bool, data: seq<Octet>)
    requires data != []
    ensures Total(le, data) == Total(le, LastWord(le, data).0) + LastWord(le, data).1
  {
    var n := |data|;
    if n % 2 == 1 {
      assert data == data[..n - 1] + [data[n - 1]];
      TotalOdd(le, data[..n - 1], data[n - 1]);
    } else {
      assert data == data[..n - 2] + [data[n - 2], data[n - 1]];
      TotalPair(le, data[..n - 2], data[n - 2], data[n - 1]);
    }
  }

  /** The RFC's sum is the representative of the unreduced total. */
  lemma {:induction false} RfcSumRep(le: bool, data: seq<Octet>)
    ensures Rep(RfcSum(le, data), Total(le, data))
    decreases |data|
  {
    if data == [] {
      RepSame(0);
    } else {
      var front, w := LastWord(le, data).0, LastWord(le, data).1;
      RfcSumRep(le, front);
      OcAddRep(RfcSum(le, front), Total(le, front), w);
      TotalLastWord(le, data);
    }
  }

  /** Any 16-bit value standing for the total is the RFC's sum. */
  lemma RfcSumIs(le: bool, data: seq<Octet>, s: Word16)
    requires Rep(s, Total(le, data))
    ensures s == RfcSum(le, data)
  {
    RfcSumRep(le, data);
    RepUnique(s, RfcSum(le, data), Total(le, data));
  }

  // ----- byte order independence (section 2, point B)

  /** Exchange the two octets of a word. */
  function Swap16(w: Word16): (v: Word16)
    ensures v / 256 == w % 256 && v % 256 == w / 256
  {
    w % 256 * 256 + w / 256
  }

  lemma OctetSwaps(i: nat, b: Octet)
    ensures Rep(256 * Weighed(false, i, b), Weighed(true, i, b))
  {
    if i % 2 == 0 {
      RepShiftTwice(b);
    } else {
      RepSame(256 * b as int);
    }
  }

  lemma {:induction false} TotalsSwap(data: seq<Octet>)
    ensures Rep(256 * Total(false, data), Total(true, data))
  {
    if data == [] {
      RepSame(0);
    } else {
      var n := |data| - 1;
      var b := data[n];
      TotalsSwap(data[..n]);
      OctetSwaps(n, b);
      RepAdd(256 * Total(false, data[..n]), Total(true, data[..n]),
             256 * Weighed(false, n, b), Weighed(true, n, b));
    }
  }

  lemma SwapRep(w: Word16)
    ensures Rep(Swap16(w), 256 * w as int)
  {
    RepBy(Swap16(w), 256 * w as int, -(w / 256));
  }

  lemma SwapComplement(w: Word16)
    ensures Swap16(0xFFFF - w) == 0xFFFF - Swap16(w)
  {
    assert (0xFFFF - w) / 256 == 255 - w / 256 && (0xFFFF - w) % 256 == 255 - w % 256;
  }

  lemma SumsSwap(data: seq<Octet>)
    ensures RfcSum(true, data) == Swap16(RfcSum(false, data))
  {
    var b: int := RfcSum(false, data);
    RfcSumRep(false, data);
    RepShift(b, Total(false, data));
    TotalsSwap(data);
    RepTrans(256 * b, 256 * Total(false, data), Total(true, data));
    SwapRep(b);
    RepTrans(Swap16(b), 256 * b, Total(true, data));
    RfcSumIs(true, data, Swap16(b));
  }

  /** A little-endian machine gets the big-endian checksum with its octets exchanged. */
  lemma ByteOrderIndependent(data: seq<Octet>)
    ensures Rfc1071(true, data) == Swap16(Rfc1071(false, data))
  {
    SumsSwap(data);
    SwapComplement(RfcSum(false, data));
  }
}
