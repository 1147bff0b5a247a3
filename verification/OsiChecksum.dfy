/**
  The OSI Fletcher checksum of ISO 8473-1, Appendix C, section C.3: the two
  octets that make both Fletcher sums of a PDU vanish modulo 255, computed
  with the truncating remainder of C.
*/
module OsiChecksum {
  import opened Octets

  /** The first Fletcher sum: all octets. */
  function C0(s: seq<Octet>): (c: nat)
  {
    if s == [] then 0 else C0(s[..|s| - 1]) + s[|s| - 1]
  }

  /** The second Fletcher sum: all prefixes. */
  function C1(s: seq<Octet>): (c: nat)
  {
    if s == [] then 0 else C1(s[..|s| - 1]) + C0(s)
  }

  /** A PDU is accepted when both sums are zero modulo 255. */
  predicate Verifies(s: seq<Octet>)
  {
    C0(s) % 255 == 0 && C1(s) % 255 == 0
  }

  /** `pdu` with the two octets from `offset` on replaced, as far as they exist. */
  function Install(pdu: seq<Octet>, offset: int, x: Octet, y: Octet): (s: seq<Octet>)
    ensures |s| == |pdu|
  {
    var p := if 0 <= offset < |pdu| then pdu[offset := x] else pdu;
    if 0 <= offset + 1 < |pdu| then p[offset + 1 := y] else p
  }

  function Cleared(pdu: seq<Octet>, offset: int): (s: seq<Octet>)
    ensures |s| == |pdu|
  {
    Install(pdu, offset, 0, 0)
  }

  /** The remainder of C, with the sign of the dividend. */
  function TruncMod(a: int, m: int): (r: int)
    requires m > 0
  {
    if a >= 0 then a % m else -((-a) % m)
  }

  /** Reading 32 bits as a signed number. */
  function ToInt32(u: nat): (i: int)
  {
    if u < 0x8000_0000 then u else u - TWO32
  }

  // ----- the octet the code stores for an exact value v

  function Stored(v: int): (b: Octet)
  {
    if v >= 0 then
      if v % 255 == 0 then 255 else v % 255
    else
      var k := (1 - v) % 255;
      if k == 0 then 255 else 256 - k
  }

  /** The residue that the code gets wrong. */
  predicate Missed(v: int)
  {
    v < 0 && v % 255 == 1
  }

  lemma StoredResidue(v: int)
    ensures 1 <= Stored(v)
    ensures (Stored(v) - v) % 255 == 0 <==> !Missed(v)
  {
    if v < 0 {
      var k := (1 - v) % 255;
      var q := (1 - v) / 255;
      assert 1 - v == 255 * q + k;
      if k != 0 {
        assert Stored(v) - v == 255 * (q + 1);
      } else {
        assert v == 255 * -q + 1;
      }
    }
  }

  /** The exact solutions of the congruences, `m` octets from the end, for sums c0 and c1. */
  function SolutionX(m: int, c0: int, c1: int): (x: int)
  {
    m * c0 - c0 - c1
  }

  function SolutionY(m: int, c0: int, c1: int): (y: int)
  {
    c1 - m * c0
  }

  /** The same for a PDU, from the reduced sums over the cleared PDU. */
  function ExactX(pdu: seq<Octet>, offset: int): (x: int)
  {
    SolutionX(|pdu| - offset, C0(Cleared(pdu, offset)) % 255, C1(Cleared(pdu, offset)) % 255)
  }

  function ExactY(pdu: seq<Octet>, offset: int): (y: int)
  {
    SolutionY(|pdu| - offset, C0(Cleared(pdu, offset)) % 255, C1(Cleared(pdu, offset)) % 255)
  }

  // ----- the sums stay within 32 bits for PDUs of at most 5803 octets

  const MAX_PDU := 5803

  lemma {:induction false} SumBounds(s: seq<Octet>)
    ensures C0(s) <= 255 * |s|
    ensures 2 * C1(s) <= 255 * (|s| * (|s| + 1))
  {
    if s != [] {
      var n := |s| - 1;
      SumBounds(s[..n]);
      assert |s| * (|s| + 1) == n * (n + 1) + 2 * (n + 1);
    }
  }

  lemma SumsFit(s: seq<Octet>)
    requires |s| <= MAX_PDU
    ensures C0(s) % TWO32 == C0(s) && C1(s) % TWO32 == C1(s)
  {
    SumBounds(s);
    Triangle(|s|);
  }

  lemma Triangle(n: nat)
    requires n <= MAX_PDU
    ensures 255 * (n * (n + 1)) < 2 * TWO32
  {
    MulMonotone(n + 1, n, MAX_PDU);
    assert MAX_PDU * (n + 1) <= MAX_PDU * (MAX_PDU + 1);
  }

  lemma MulMonotone(k: nat, a: nat, b: nat)
    requires a <= b
    ensures a * k <= b * k
  {}

  // ----- the effect of installing octets

  lemma OneMore(k: int, d: int)
    ensures (k + 1) * d == k * d + d
  {}

  lemma {:induction false} UpdateSums(s: seq<Octet>, k: nat, b: Octet)
    requires k < |s|
    ensures C0(s[k := b]) == C0(s) + (b - s[k])
    ensures C1(s[k := b]) == C1(s) + (|s| - k) * (b - s[k])
  {
    var n := |s| - 1;
    if k < n {
      UpdateSums(s[..n], k, b);
      assert s[k := b][..n] == s[..n][k := b];
      OneMore(n - k, b - s[k]);
    } else {
      assert s[k := b][..n] == s[..n];
    }
  }

  lemma InstallSums(pdu: seq<Octet>, offset: nat, x: Octet, y: Octet)
    requires offset + 1 < |pdu|
    ensures var s, z := Install(pdu, offset, x, y), Cleared(pdu, offset);
            && C0(s) == C0(z) + x + y
            && C1(s) == C1(z) + (|pdu| - offset) * x + (|pdu| - offset - 1) * y
  {
    var z: seq<Octet> := Cleared(pdu, offset);
    var zx: seq<Octet> := z[offset := x];
    assert Install(pdu, offset, x, y) == zx[offset + 1 := y];
    UpdateSums(z, offset, x);
    UpdateSums(zx, offset + 1, y);
  }

  lemma Multiple(a: int, k: int)
    requires a % 255 == 0
    ensures (k * a) % 255 == 0
  {
    assert k * a == 255 * (k * (a / 255));
  }

  /** If `a` and `b` are multiples of 255, so is `j * a + k * b`. */
  lemma Combination(a: int, b: int, j: int, k: int)
    requires a % 255 == 0 && b % 255 == 0
    ensures (j * a + k * b) % 255 == 0
  {
    Multiple(a, j);
    Multiple(b, k);
  }

  lemma SolutionIdentities(c0: int, c1: int, m: int, x: int, y: int)
    ensures var a, b := c0 + x + y, c1 + m * x + (m - 1) * y;
            var dx, dy := x - (m * c0 - c0 - c1), y - (c1 - m * c0);
            && dx == (1 - m) * a + 1 * b && dy == m * a + -1 * b
            && a == 1 * dx + 1 * dy && b == m * dx + (m - 1) * dy
  {}

  lemma EquivalentPairs(a: int, b: int, dx: int, dy: int, m: int)
    requires dx == (1 - m) * a + 1 * b && dy == m * a + -1 * b
    requires a == 1 * dx + 1 * dy && b == m * dx + (m - 1) * dy
    ensures a % 255 == 0 && b % 255 == 0 <==> dx % 255 == 0 && dy % 255 == 0
  {
    if a % 255 == 0 && b % 255 == 0 {
      Combination(a, b, 1 - m, 1);
      Combination(a, b, m, -1);
    }
    if dx % 255 == 0 && dy % 255 == 0 {
      Combination(dx, dy, 1, 1);
      Combination(dx, dy, m, m - 1);
    }
  }

  /** The two congruences have exactly one solution modulo 255. */
  lemma UniqueSolution(c0: int, c1: int, m: int, x: int, y: int)
    ensures (c0 + x + y) % 255 == 0 && (c1 + m * x + (m - 1) * y) % 255 == 0
            <==> (x - (m * c0 - c0 - c1)) % 255 == 0 && (y - (c1 - m * c0)) % 255 == 0
  {
    SolutionIdentities(c0, c1, m, x, y);
    EquivalentPairs(c0 + x + y, c1 + m * x + (m - 1) * y, x - (m * c0 - c0 - c1), y - (c1 - m * c0), m);
  }

  /** Only the residues of the sums matter. */
  lemma ReducedSums(c0: nat, c1: nat, m: int, x: int, y: int)
    ensures (c0 + x + y) % 255 == 0 <==> (c0 % 255 + x + y) % 255 == 0
    ensures (c1 + m * x + (m - 1) * y) % 255 == 0 <==> (c1 % 255 + m * x + (m - 1) * y) % 255 == 0
  {}

  /**
    Which octets make a PDU verify: exactly those congruent to the two exact
    solutions, whatever the field held before.
  */
  lemma VerifiesExactly(pdu: seq<Octet>, offset: nat, x: Octet, y: Octet)
    requires offset + 1 < |pdu|
    ensures Verifies(Install(pdu, offset, x, y))
            <==> (x - ExactX(pdu, offset)) % 255 == 0 && (y - ExactY(pdu, offset)) % 255 == 0
  {
    var c0, c1, m := C0(Cleared(pdu, offset)), C1(Cleared(pdu, offset)), |pdu| - offset;
    InstallSums(pdu, offset, x, y);
    ReducedSums(c0, c1, m, x, y);
    UniqueSolution(c0 % 255, c1 % 255, m, x, y);
  }

  // ----- the routine

  lemma ClearedStep(pdu: seq<Octet>, offset: int, idx: nat)
    requires idx < |pdu|
    ensures var z := Cleared(pdu, offset);
            && z[idx] == (if idx == offset || idx == offset + 1 then 0 else pdu[idx])
            && C0(z[..idx + 1]) == C0(z[..idx]) + z[idx]
            && C1(z[..idx + 1]) == C1(z[..idx]) + C0(z[..idx + 1])
  {
    var z := Cleared(pdu, offset);
    assert z[..idx + 1][..idx] == z[..idx];
  }

  lemma WrapAdd(a: nat, b: nat)
    ensures (a % TWO32 + b % TWO32) % TWO32 == (a + b) % TWO32
    ensures (a % TWO32 + b) % TWO32 == (a + b) % TWO32
  {
    var qa, qb := a / TWO32, b / TWO32;
    ModShift(a % TWO32 + b % TWO32, qa + qb);
    ModShift(a % TWO32 + b, qa);
  }

  lemma ModShift(x: int, k: int)
    ensures (x + TWO32 * k) % TWO32 == x % TWO32
  {}

  /** One pass of the loop, in 32-bit arithmetic. */
  lemma AccumulateStep(pdu: seq<Octet>, offset: int, idx: nat)
    requires idx < |pdu|
    ensures var z := Cleared(pdu, offset);
            var c0, c1 := C0(z[..idx]) % TWO32, C1(z[..idx]) % TWO32;
            var c0' := if idx == offset || idx == offset + 1 then c0 else (c0 + pdu[idx]) % TWO32;
            C0(z[..idx + 1]) % TWO32 == c0' && C1(z[..idx + 1]) % TWO32 == (c1 + c0') % TWO32
  {
    var z := Cleared(pdu, offset);
    ClearedStep(pdu, offset, idx);
    WrapAdd(C0(z[..idx]), z[idx]);
    WrapAdd(C1(z[..idx]), C0(z[..idx + 1]));
  }

  /** The accumulation loop, in 32-bit unsigned arithmetic. */
  method Accumulate(pdu: seq<Octet>, offset: int) returns (c0: nat, c1: nat)
    ensures c0 == C0(Cleared(pdu, offset)) % TWO32 && c1 == C1(Cleared(pdu, offset)) % TWO32
  {
    ghost var z := Cleared(pdu, offset);
    c0, c1 := 0, 0;
    for idx := 0 to |pdu|
      invariant c0 == C0(z[..idx]) % TWO32 && c1 == C1(z[..idx]) % TWO32
    {
      AccumulateStep(pdu, offset, idx);
      if idx == offset || idx == offset + 1 {
        c1 := (c1 + c0) % TWO32;
      } else {
        c0 := (c0 + pdu[idx]) % TWO32;
        c1 := (c1 + c0) % TWO32;
      }
    }
    assert z[..|pdu|] == z;
  }

  /** The octet stored first, adjusted step by step as the code does it. */
  method AdjustX(x0: int) returns (b: Octet)
    ensures b == Stored(x0)
  {
    var x := x0;
    if x < 0 { x := x - 1; }
    x := TruncMod(x, 255);
    if x == 0 { x := 255; }
    b := x % 256;
  }

  /** The octet stored second; the code has already taken one off the solution. */
  method AdjustY(y0: int) returns (b: Octet)
    ensures b == Stored(y0 + 1)
  {
    var y := y0;
    if y >= 0 { y := y + 1; }
    y := TruncMod(y, 255);
    if y == 0 { y := 255; }
    b := y % 256;
  }

  lemma NoSignedWrap(v: int)
    requires -0x8000_0000 <= v < 0x8000_0000
    ensures ToInt32(v % TWO32) == v
  {}

  lemma MulFits(n: nat, c0: nat)
    requires n <= MAX_PDU && c0 < 255
    ensures 0 <= n * c0 <= MAX_PDU * 255
    ensures n * c0 % TWO32 == n * c0
  {
    MulMonotone(c0, n, MAX_PDU);
  }

  /** Solving the two congruences for the field, in 32-bit arithmetic. */
  method Solve(m: int, c0: nat, c1: nat) returns (checksum: Word16)
    requires c0 < 255 && c1 < 255
    ensures 0 <= m <= MAX_PDU ==>
              checksum / 256 == Stored(SolutionX(m, c0, c1)) && checksum % 256 == Stored(SolutionY(m, c0, c1))
  {
    var mul := m * c0 % TWO32;
    if 0 <= m <= MAX_PDU {
      MulFits(m, c0);
      NoSignedWrap(mul - c0 - c1);
      NoSignedWrap(c1 - mul - 1);
    }
    var x := ToInt32((mul - c0 - c1) % TWO32);
    var y := ToInt32((c1 - mul - 1) % TWO32);
    var first: int, second: int;
    first := AdjustX(x);
    second := AdjustY(y);
    checksum := first * 256 + second;
  }

  /**
    The computed octets make the PDU verify except exactly when one of the two
    solutions is negative and congruent to 1 modulo 255.
  */
  lemma ChecksumVerifies(pdu: seq<Octet>, offset: nat)
    requires offset + 1 < |pdu|
    ensures Verifies(Install(pdu, offset, Stored(ExactX(pdu, offset)), Stored(ExactY(pdu, offset))))
            <==> !Missed(ExactX(pdu, offset)) && !Missed(ExactY(pdu, offset))
    ensures Stored(ExactX(pdu, offset)) != 0 && Stored(ExactY(pdu, offset)) != 0
  {
    StoredResidue(ExactX(pdu, offset));
    StoredResidue(ExactY(pdu, offset));
    VerifiesExactly(pdu, offset, Stored(ExactX(pdu, offset)), Stored(ExactY(pdu, offset)));
  }

  /** The result does not depend on what the field held before. */
  lemma OldFieldIgnored(pdu: seq<Octet>, offset: nat, x: Octet, y: Octet)
    requires offset + 1 < |pdu|
    ensures ExactX(Install(pdu, offset, x, y), offset) == ExactX(pdu, offset)
    ensures ExactY(Install(pdu, offset, x, y), offset) == ExactY(pdu, offset)
  {
    assert Cleared(Install(pdu, offset, x, y), offset) == Cleared(pdu, offset);
  }

  /**
    The routine: its octets are those stored for the two exact solutions, are
    never zero, and make the PDU verify unless a solution has the missed residue.
  */
  method CreateOsiCksum(pdu: seq<Octet>, offset: int) returns (checksum: Word16)
    ensures |pdu| <= 5803 && 0 <= offset && offset + 1 < |pdu| ==>
              checksum / 256 == Stored(ExactX(pdu, offset)) && checksum % 256 == Stored(ExactY(pdu, offset))
    ensures |pdu| <= 5803 && 0 <= offset && offset + 1 < |pdu| ==>
              checksum / 256 != 0 && checksum % 256 != 0
    ensures |pdu| <= 5803 && 0 <= offset && offset + 1 < |pdu| ==>
              (Verifies(Install(pdu, offset, checksum / 256, checksum % 256))
               <==> !Missed(ExactX(pdu, offset)) && !Missed(ExactY(pdu, offset)))
  {
    var c0, c1 := Accumulate(pdu, offset);
    if |pdu| <= MAX_PDU {
      SumsFit(Cleared(pdu, offset));
      assert c0 == C0(Cleared(pdu, offset)) && c1 == C1(Cleared(pdu, offset));
    }
    c0, c1 := c0 % 255, c1 % 255;
    checksum := Solve(|pdu| - offset, c0, c1);
    if |pdu| <= MAX_PDU && 0 <= offset && offset + 1 < |pdu| {
      ChecksumVerifies(pdu, offset);
    }
  }

  lemma ExampleSums(pdu: seq<Octet>)
    requires pdu == [0, 0, 127]
    ensures C0(pdu) == 127 && C1(pdu) == 127 && Cleared(pdu, 0) == pdu
  {
    var two: seq<Octet>, one: seq<Octet> := [0, 0], [0];
    assert pdu[..2] == two && two[..1] == one && one[..0] == [];
    assert C0(one) == 0 && C1(one) == 0;
    assert C0(two) == 0 && C1(two) == 0;
  }

  lemma ExampleSolution(pdu: seq<Octet>)
    requires pdu == [0, 0, 127]
    ensures ExactY(pdu, 0) == -254
  {
    ExampleSums(pdu);
  }

  /** A PDU of three octets on which the computed octets do not verify. */
  lemma MissedExample() returns (pdu: seq<Octet>)
    ensures |pdu| == 3 && ExactY(pdu, 0) == -254
    ensures !Verifies(Install(pdu, 0, Stored(ExactX(pdu, 0)), Stored(ExactY(pdu, 0))))
  {
    pdu := [0, 0, 127];
    ExampleSolution(pdu);
    MissedFails(pdu);
  }

  lemma MissedFails(pdu: seq<Octet>)
    requires |pdu| == 3 && ExactY(pdu, 0) == -254
    ensures !Verifies(Install(pdu, 0, Stored(ExactX(pdu, 0)), Stored(ExactY(pdu, 0))))
  {
    assert Missed(-254);
    ChecksumVerifies(pdu, 0);
  }
}
