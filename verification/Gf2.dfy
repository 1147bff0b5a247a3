/**
  Polynomials over the field of two elements as bit strings, highest
  coefficient first, and the shift register that divides by a generator.

  A generator of degree d is given by its d low coefficients `g`; its leading
  coefficient 1 is implied.  A register holds a polynomial of degree below d.
*/
module Gf2 {
  type Bits = seq<bool>

  function Zeros(n: nat): (z: Bits)
    ensures |z| == n
  {
    seq(n, _ => false)
  }

  function Xor(s: Bits, t: Bits): (r: Bits)
    requires |s| == |t|
    ensures |r| == |s|
    ensures forall k :: 0 <= k < |s| ==> r[k] == (s[k] != t[k])
  {
    seq(|s|, k requires 0 <= k < |s| => s[k] != t[k])
  }

  lemma XorZeros(r: Bits)
    ensures Xor(Zeros(|r|), r) == r && Xor(r, Zeros(|r|)) == r && Xor(r, r) == Zeros(|r|)
  {}

  lemma XorComm(a: Bits, b: Bits)
    requires |a| == |b|
    ensures Xor(a, b) == Xor(b, a)
  {}

  lemma XorMoves(a: Bits, b: Bits, c: Bits)
    requires |a| == |b| == |c|
    ensures a == Xor(b, c) <==> Xor(a, b) == c
  {
    if a == Xor(b, c) {
      assert Xor(a, b) == c;
    }
    if Xor(a, b) == c {
      assert a == Xor(b, c);
    }
  }

  lemma XorTail(a: Bits, b: Bits)
    requires |a| == |b| > 0
    ensures Xor(a, b)[1..] == Xor(a[1..], b[1..])
  {}

  lemma HeadAndTail(a: Bits, b: Bits)
    requires |a| == |b| > 0
    ensures a == b <==> a[0] == b[0] && a[1..] == b[1..]
  {
    assert a == [a[0]] + a[1..] && b == [b[0]] + b[1..];
  }

  ghost predicate IsGenerator(g: Bits)
  {
    |g| > 0 && g[|g| - 1]
  }

  /** Multiply the register by x, add `b`, and reduce by the generator. */
  function Shift(g: Bits, r: Bits, b: bool): (s: Bits)
    requires |g| == |r| > 0
    ensures |s| == |g|
  {
    if r[0] then Xor(r[1..] + [b], g) else r[1..] + [b]
  }

  function Steps(g: Bits, r: Bits, n: nat): (s: Bits)
    requires |g| == |r| > 0
    ensures |s| == |g|
  {
    if n == 0 then r else Shift(g, Steps(g, r, n - 1), false)
  }

  /** Divide by shifting message bits in at the bottom. */
  function FeedLow(g: Bits, r: Bits, bits: Bits): (s: Bits)
    requires |g| == |r| > 0
    ensures |s| == |g|
    decreases |bits|
  {
    if bits == [] then r else FeedLow(g, Shift(g, r, bits[0]), bits[1..])
  }

  function AddTop(r: Bits, b: bool): (s: Bits)
    requires |r| > 0
    ensures |s| == |r|
  {
    r[0 := (r[0] != b)]
  }

  /** Divide by adding message bits at the top, d places early. */
  function FeedTop(g: Bits, r: Bits, bits: Bits): (s: Bits)
    requires |g| == |r| > 0
    ensures |s| == |g|
    decreases |bits|
  {
    if bits == [] then r else FeedTop(g, Shift(g, AddTop(r, bits[0]), false), bits[1..])
  }

  lemma {:induction false} FeedLowConcat(g: Bits, r: Bits, s: Bits, t: Bits)
    requires |g| == |r| > 0
    ensures FeedLow(g, r, s + t) == FeedLow(g, FeedLow(g, r, s), t)
    decreases |s|
  {
    if s == [] {
      assert s + t == t;
    } else {
      assert (s + t)[1..] == s[1..] + t;
      FeedLowConcat(g, Shift(g, r, s[0]), s[1..], t);
    }
  }

  lemma {:induction false} FeedTopConcat(g: Bits, r: Bits, s: Bits, t: Bits)
    requires |g| == |r| > 0
    ensures FeedTop(g, r, s + t) == FeedTop(g, FeedTop(g, r, s), t)
    decreases |s|
  {
    if s == [] {
      assert s + t == t;
    } else {
      assert (s + t)[1..] == s[1..] + t;
      FeedTopConcat(g, Shift(g, AddTop(r, s[0]), false), s[1..], t);
    }
  }

  // ----- linearity

  lemma ShiftLinear(g: Bits, r: Bits, q: Bits, a: bool, b: bool)
    requires |g| == |r| == |q| > 0
    ensures Shift(g, Xor(r, q), a != b) == Xor(Shift(g, r, a), Shift(g, q, b))
  {}

  lemma {:induction false} StepsLinear(g: Bits, r: Bits, q: Bits, n: nat)
    requires |g| == |r| == |q| > 0
    ensures Steps(g, Xor(r, q), n) == Xor(Steps(g, r, n), Steps(g, q, n))
  {
    if n > 0 {
      StepsLinear(g, r, q, n - 1);
      ShiftLinear(g, Steps(g, r, n - 1), Steps(g, q, n - 1), false, false);
    }
  }

  lemma {:induction false} FeedTopLinear(g: Bits, r: Bits, q: Bits, s: Bits, t: Bits)
    requires |g| == |r| == |q| > 0 && |s| == |t|
    ensures FeedTop(g, Xor(r, q), Xor(s, t)) == Xor(FeedTop(g, r, s), FeedTop(g, q, t))
    decreases |s|
  {
    if s != [] {
      var r', q' := AddTop(r, s[0]), AddTop(q, t[0]);
      assert AddTop(Xor(r, q), s[0] != t[0]) == Xor(r', q');
      ShiftLinear(g, r', q', false, false);
      assert Xor(s, t)[1..] == Xor(s[1..], t[1..]);
      FeedTopLinear(g, Shift(g, r', false), Shift(g, q', false), s[1..], t[1..]);
    }
  }

  // ----- a shift neither creates nor destroys a remainder

  lemma ShiftInjective(g: Bits, r: Bits)
    requires IsGenerator(g) && |r| == |g|
    ensures Shift(g, r, false) == Zeros(|g|) <==> r == Zeros(|g|)
  {
    var s, d := Shift(g, r, false), |g|;
    if s == Zeros(d) {
      assert !s[d - 1];
      assert forall k :: 0 < k < d ==> r[k] == s[k - 1];
    }
  }

  lemma {:induction false} StepsInjective(g: Bits, r: Bits, n: nat)
    requires IsGenerator(g) && |r| == |g|
    ensures Steps(g, r, n) == Zeros(|g|) <==> r == Zeros(|g|)
  {
    if n > 0 {
      StepsInjective(g, r, n - 1);
      ShiftInjective(g, Steps(g, r, n - 1));
    }
  }

  lemma {:induction false} FeedTopZeros(g: Bits, r: Bits, n: nat)
    requires |g| == |r| > 0
    ensures FeedTop(g, r, Zeros(n)) == Steps(g, r, n)
    decreases n
  {
    if n > 0 {
      assert AddTop(r, false) == r;
      assert Zeros(n)[1..] == Zeros(n - 1);
      FeedTopZeros(g, Shift(g, r, false), n - 1);
      StepsFirst(g, r, n - 1);
    }
  }

  lemma {:induction false} StepsFirst(g: Bits, r: Bits, n: nat)
    requires |g| == |r| > 0
    ensures Steps(g, r, n + 1) == Steps(g, Shift(g, r, false), n)
  {
    if n > 0 { StepsFirst(g, r, n - 1); }
  }

  // ----- up to d bits may be added at once

  lemma {:induction false} FeedTopAtOnce(g: Bits, r: Bits, bits: Bits)
    requires |g| == |r| > 0 && |bits| <= |g|
    ensures FeedTop(g, r, bits) == Steps(g, Xor(r, bits + Zeros(|g| - |bits|)), |bits|)
    decreases |bits|
  {
    var d, n := |g|, |bits|;
    if n == 0 {
      assert Xor(r, bits + Zeros(d)) == r;
    } else {
      var r' := AddTop(r, bits[0]);
      var rest := bits[1..] + Zeros(d - n);
      FeedTopAtOnce(g, Shift(g, r', false), bits[1..]);
      assert Xor(r, bits + Zeros(d - n)) == Xor(r', [false] + rest);
      ShiftLinear(g, r', [false] + rest, false, false);
      assert Shift(g, [false] + rest, false) == bits[1..] + Zeros(d - n + 1);
      StepsFirst(g, Xor(r, bits + Zeros(d - n)), n - 1);
    }
  }

  lemma {:induction false} FeedLowAtOnce(g: Bits, r: Bits, bits: Bits)
    requires |g| == |r| > 0 && |bits| <= |g|
    ensures FeedLow(g, r, bits) == Xor(Steps(g, r, |bits|), Zeros(|g| - |bits|) + bits)
    decreases |bits|
  {
    var d, n := |g|, |bits|;
    if n == 0 {
      XorZeros(r);
      assert Zeros(d) + bits == Zeros(d);
    } else {
      var init, b := bits[..n - 1], bits[n - 1];
      assert bits == init + [b];
      FeedLowConcat(g, r, init, [b]);
      FeedLowAtOnce(g, r, init);
      ShiftLinear(g, Steps(g, r, n - 1), Zeros(d - n + 1) + init, false, b);
      LowShift(g, init, b);
    }
  }

  lemma LowShift(g: Bits, init: Bits, b: bool)
    requires |init| < |g|
    ensures Shift(g, Zeros(|g| - |init|) + init, b) == Zeros(|g| - |init| - 1) + (init + [b])
  {}

  /** Low bits under n zeros climb n places unreduced. */
  lemma {:induction false} LowRises(g: Bits, t: Bits, n: nat, m: nat)
    requires |g| == n + |t| && 0 < |g| && m <= n
    ensures Steps(g, Zeros(n) + t, m) == Zeros(n - m) + t + Zeros(m)
    ensures m == n ==> Steps(g, Zeros(n) + t, m) == t + Zeros(m)
    decreases m
  {
    if m == 0 {
      assert Zeros(n) + t + Zeros(0) == Zeros(n) + t;
    } else {
      LowRises(g, t, n, m - 1);
      assert Shift(g, Zeros(n - m + 1) + t + Zeros(m - 1), false) == Zeros(n - m) + t + Zeros(m);
    }
  }

  lemma SplitXor(top: Bits, low: Bits)
    ensures top + low == Xor(top + Zeros(|low|), Zeros(|top|) + low)
  {}

  /**
    A register is the sum of `x`, its top places, and `y`, its low ones.  A
    table entry for `x`, added to `y` moved up, is n steps of the register.
  */
  lemma LookupSteps(g: Bits, whole: Bits, x: Bits, y: Bits, n: nat, entry: Bits, up: Bits)
    requires |g| == |x| == |y| == |entry| == |up| > 0 && whole == Xor(x, y)
    requires Steps(g, x, n) == entry && Steps(g, y, n) == up
    ensures Steps(g, whole, n) == Xor(up, entry)
  {
    StepsLinear(g, x, y, n);
    XorComm(up, entry);
  }

  // ----- error detection

  /** A nonzero pattern of at most d bits leaves a remainder. */
  lemma WindowLeavesRemainder(g: Bits, w: Bits, k: nat)
    requires IsGenerator(g) && k < |w| <= |g| && w[k]
    ensures FeedTop(g, Zeros(|g|), w) != Zeros(|g|)
  {
    var padded := w + Zeros(|g| - |w|);
    FeedTopAtOnce(g, Zeros(|g|), w);
    XorZeros(padded);
    StepsInjective(g, padded, |w|);
    assert padded[k] && !Zeros(|g|)[k];
  }

  lemma FeedTopPadded(g: Bits, w: Bits, p: nat, n: nat)
    requires IsGenerator(g)
    requires FeedTop(g, Zeros(|g|), w) != Zeros(|g|)
    ensures FeedTop(g, Zeros(|g|), Zeros(p) + w + Zeros(n)) != Zeros(|g|)
  {
    var z := Zeros(|g|);
    FeedTopConcat(g, z, Zeros(p) + w, Zeros(n));
    FeedTopConcat(g, z, Zeros(p), w);
    FeedTopZeros(g, z, p);
    ZeroStays(g, p);
    FeedTopZeros(g, FeedTop(g, z, w), n);
    StepsInjective(g, FeedTop(g, z, w), n);
  }

  /**
    A pattern of bits that is not zero but is zero outside d consecutive
    places leaves a remainder, however long the pattern is.
  */
  lemma {:induction false} BurstLeavesRemainder(g: Bits, e: Bits, p: nat, k: nat)
    requires IsGenerator(g) && k < |e| && e[k]
    requires forall j :: 0 <= j < |e| && e[j] ==> p <= j < p + |g|
    ensures FeedTop(g, Zeros(|g|), e) != Zeros(|g|)
  {
    var w, n := ZeroOutside(e, p, |g|, k);
    WindowAnywhere(g, w, p, n, k - p);
  }

  lemma {:induction false} WindowAnywhere(g: Bits, w: Bits, p: nat, n: nat, k: nat)
    requires IsGenerator(g) && k < |w| <= |g| && w[k]
    ensures FeedTop(g, Zeros(|g|), Zeros(p) + w + Zeros(n)) != Zeros(|g|)
  {
    WindowLeavesRemainder(g, w, k);
    FeedTopPadded(g, w, p, n);
  }

  /** Cut a pattern at both ends of the window that holds its ones. */
  lemma ZeroOutside(e: Bits, p: nat, d: nat, k: nat) returns (w: Bits, n: nat)
    requires k < |e| && e[k]
    requires forall j :: 0 <= j < |e| && e[j] ==> p <= j < p + d
    ensures p <= k < p + |w| && |w| <= d && w[k - p]
    ensures e == Zeros(p) + w + Zeros(n)
  {
    var end := if p + d < |e| then p + d else |e|;
    w, n := e[p..end], |e| - end;
  }

  lemma FeedTopSelf(g: Bits, r: Bits)
    requires |g| == |r| > 0
    ensures FeedTop(g, r, r) == Zeros(|g|)
  {
    FeedTopAtOnce(g, r, r);
    assert r + Zeros(0) == r;
    XorZeros(r);
    ZeroStays(g, |g|);
  }

  /** A message followed by its own remainder leaves none. */
  lemma OwnRemainder(g: Bits, s: Bits)
    requires |g| > 0
    ensures FeedTop(g, Zeros(|g|), s + FeedTop(g, Zeros(|g|), s)) == Zeros(|g|)
  {
    FeedTopConcat(g, Zeros(|g|), s, FeedTop(g, Zeros(|g|), s));
    FeedTopSelf(g, FeedTop(g, Zeros(|g|), s));
  }

  /** Two messages that differ only inside d consecutive bits leave different remainders. */
  lemma BurstSeparates(g: Bits, s: Bits, t: Bits, p: nat)
    requires IsGenerator(g) && |s| == |t| && s != t
    requires forall j :: 0 <= j < |s| && s[j] != t[j] ==> p <= j < p + |g|
    ensures FeedTop(g, Zeros(|g|), s) != FeedTop(g, Zeros(|g|), t)
  {
    var k :| 0 <= k < |s| && s[k] != t[k];
    BurstLeavesRemainder(g, Xor(s, t), p, k);
    EqualRemainders(g, s, t);
  }

  lemma EqualRemainders(g: Bits, s: Bits, t: Bits)
    requires |g| > 0 && |s| == |t|
    ensures FeedTop(g, Zeros(|g|), s) == FeedTop(g, Zeros(|g|), t)
            <==> FeedTop(g, Zeros(|g|), Xor(s, t)) == Zeros(|g|)
  {
    var z := Zeros(|g|);
    FeedTopLinear(g, z, z, s, t);
    XorZeros(z);
    XorEqual(FeedTop(g, z, s), FeedTop(g, z, t));
  }

  lemma XorEqual(a: Bits, b: Bits)
    requires |a| == |b|
    ensures Xor(a, b) == Zeros(|a|) <==> a == b
  {
    if Xor(a, b) == Zeros(|a|) {
      assert forall k :: 0 <= k < |a| ==> !Xor(a, b)[k];
    }
  }

  // ----- division with remainder

  /** What a coefficient `b` at the head of a quotient contributes below its own place. */
  function Lead(g: Bits, b: bool, n: nat): (m: Bits)
    ensures |m| == |g| + n
  {
    if b then g + Zeros(n) else Zeros(|g| + n)
  }

  /** The product of `q` and the generator, leading 1 included. */
  function Times(g: Bits, q: Bits): (m: Bits)
    ensures |m| == |g| + |q|
    decreases |q|
  {
    if q == [] then Zeros(|g|)
    else [q[0]] + Xor(Lead(g, q[0], |q| - 1), Times(g, q[1..]))
  }

  function Quotient(g: Bits, r: Bits, bits: Bits): (q: Bits)
    requires |g| == |r| > 0
    ensures |q| == |bits|
    decreases |bits|
  {
    if bits == [] then [] else [r[0]] + Quotient(g, Shift(g, r, bits[0]), bits[1..])
  }

  /** `m` is `q` times the generator plus `rest`. */
  ghost predicate Divides(g: Bits, m: Bits, q: Bits, rest: Bits)
    requires |m| == |q| + |g| && |rest| == |g|
  {
    m == Xor(Times(g, q), Zeros(|q|) + rest)
  }

  lemma XorAssoc(a: Bits, b: Bits, c: Bits)
    requires |a| == |b| == |c|
    ensures Xor(Xor(a, b), c) == Xor(a, Xor(b, c))
  {}

  lemma EquationTail(g: Bits, q: Bits, low: Bits)
    requires |q| > 0 && |low| == |g| + |q| && !low[0]
    ensures var m := Xor(Times(g, q), low);
            m[0] == q[0] && m[1..] == Xor(Lead(g, q[0], |q| - 1), Xor(Times(g, q[1..]), low[1..]))
  {
    XorTail(Times(g, q), low);
    XorAssoc(Lead(g, q[0], |q| - 1), Times(g, q[1..]), low[1..]);
  }

  lemma ZerosTail(n: nat, rest: Bits)
    requires n > 0
    ensures (Zeros(n) + rest)[1..] == Zeros(n - 1) + rest && !(Zeros(n) + rest)[0]
  {}

  lemma ShiftTail(g: Bits, r: Bits, bits: Bits)
    requires |g| == |r| > 0 && |bits| > 0
    ensures Shift(g, r, bits[0]) + bits[1..] == Xor((r + bits)[1..], Lead(g, r[0], |bits| - 1))
  {
    assert (r + bits)[1..] == r[1..] + [bits[0]] + bits[1..];
  }

  /** What one step of long division does to dividend, quotient and remainder. */
  lemma DivideStep(g: Bits, r: Bits, bits: Bits, q: Bits, rest: Bits)
    requires |g| == |r| == |rest| > 0 && |q| == |bits| > 0
    ensures Divides(g, r + bits, q, rest)
            <==> q[0] == r[0] && Divides(g, Shift(g, r, bits[0]) + bits[1..], q[1..], rest)
  {
    var m, lead := r + bits, Lead(g, r[0], |bits| - 1);
    var rhs, rhs' := Xor(Times(g, q), Zeros(|q|) + rest), Xor(Times(g, q[1..]), Zeros(|q| - 1) + rest);
    ZerosTail(|q|, rest);
    EquationTail(g, q, Zeros(|q|) + rest);
    ShiftTail(g, r, bits);
    XorMoves(m[1..], lead, rhs');
    HeadAndTail(m, rhs);
  }

  lemma QuotientStep(g: Bits, r: Bits, bits: Bits, q: Bits)
    requires |g| == |r| > 0 && |q| == |bits| > 0
    ensures q == Quotient(g, r, bits)
            <==> q[0] == r[0] && q[1..] == Quotient(g, Shift(g, r, bits[0]), bits[1..])
  {
    HeadAndTail(q, Quotient(g, r, bits));
  }

  /**
    The register ends up with the remainder, and nothing else satisfies the
    division equation: `q` and `rest` divide `r` followed by `bits` if and only
    if `q` is the sequence of carries and `rest` the final register.
  */
  lemma {:induction false} DivisionTheorem(g: Bits, r: Bits, bits: Bits, q: Bits, rest: Bits)
    requires |g| == |r| == |rest| > 0 && |q| == |bits|
    ensures Divides(g, r + bits, q, rest)
            <==> q == Quotient(g, r, bits) && rest == FeedLow(g, r, bits)
    decreases |bits|
  {
    if bits == [] {
      assert r + bits == r;
      assert Zeros(0) + rest == rest;
      XorZeros(rest);
    } else {
      DivideStep(g, r, bits, q, rest);
      DivisionTheorem(g, Shift(g, r, bits[0]), bits[1..], q[1..], rest);
      QuotientStep(g, r, bits, q);
    }
  }

  lemma DividesEvenly(g: Bits, bits: Bits, q: Bits)
    requires |g| > 0 && |q| == |bits|
    ensures Times(g, q) == Zeros(|g|) + bits
            <==> q == Quotient(g, Zeros(|g|), bits) && FeedLow(g, Zeros(|g|), bits) == Zeros(|g|)
  {
    DivisionTheorem(g, Zeros(|g|), bits, q, Zeros(|g|));
    assert Zeros(|q|) + Zeros(|g|) == Zeros(|g| + |q|);
    XorZeros(Times(g, q));
  }

  /** From an empty register the remainder is zero exactly for multiples of the generator. */
  lemma ZeroRemainder(g: Bits, bits: Bits)
    requires |g| > 0
    ensures FeedLow(g, Zeros(|g|), bits) == Zeros(|g|)
            <==> exists q: Bits :: |q| == |bits| && Times(g, q) == Zeros(|g|) + bits
  {
    DividesEvenly(g, bits, Quotient(g, Zeros(|g|), bits));
    forall q: Bits | |q| == |bits| && Times(g, q) == Zeros(|g|) + bits
      ensures FeedLow(g, Zeros(|g|), bits) == Zeros(|g|)
    {
      DividesEvenly(g, bits, q);
    }
  }

  // ----- adding at the top divides the message shifted d places

  lemma ShiftAddsBottom(g: Bits, l: Bits, b: bool)
    requires |g| == |l| > 0
    ensures Shift(g, l, b) == Xor(Shift(g, l, false), Zeros(|g| - 1) + [b])
  {}

  lemma AddTopIsXor(r: Bits, b: bool)
    requires |r| > 0
    ensures AddTop(r, b) == Xor(r, [b] + Zeros(|r| - 1))
  {}

  /** A bit that enters at the bottom has the same effect d steps later as one added at the top. */
  lemma BottomIsTop(g: Bits, l: Bits, b: bool)
    requires |g| == |l| > 0
    ensures Steps(g, Shift(g, l, b), |g|) == Shift(g, AddTop(Steps(g, l, |g|), b), false)
  {
    var d := |g|;
    var bottom, top, up := Zeros(d - 1) + [b], [b] + Zeros(d - 1), Steps(g, l, d);
    ShiftAddsBottom(g, l, b);
    StepsLinear(g, Shift(g, l, false), bottom, d);
    StepsFirst(g, l, d);
    BottomRises(g, b, d - 1);
    ShiftLinear(g, up, top, false, false);
    AddTopIsXor(up, b);
  }

  lemma {:induction false} TopIsShiftedLow(g: Bits, bits: Bits)
    requires |g| > 0
    ensures FeedTop(g, Zeros(|g|), bits) == Steps(g, FeedLow(g, Zeros(|g|), bits), |g|)
    decreases |bits|
  {
    var z := Zeros(|g|);
    if bits == [] {
      ZeroStays(g, |g|);
    } else {
      var init, b := bits[..|bits| - 1], bits[|bits| - 1];
      assert bits == init + [b];
      TopIsShiftedLow(g, init);
      FeedTopConcat(g, z, init, [b]);
      FeedLowConcat(g, z, init, [b]);
      BottomIsTop(g, FeedLow(g, z, init), b);
    }
  }

  /** Adding bits at the top gives the remainder of the message followed by d zeros. */
  lemma TopDividesShifted(g: Bits, bits: Bits)
    requires |g| > 0
    ensures FeedTop(g, Zeros(|g|), bits) == FeedLow(g, Zeros(|g|), bits + Zeros(|g|))
  {
    TopIsShiftedLow(g, bits);
    FeedLowConcat(g, Zeros(|g|), bits, Zeros(|g|));
    FeedLowZeros(g, FeedLow(g, Zeros(|g|), bits), |g|);
  }

  lemma {:induction false} FeedLowZeros(g: Bits, r: Bits, n: nat)
    requires |g| == |r| > 0
    ensures FeedLow(g, r, Zeros(n)) == Steps(g, r, n)
    decreases n
  {
    if n > 0 {
      assert Zeros(n)[1..] == Zeros(n - 1);
      FeedLowZeros(g, Shift(g, r, false), n - 1);
      StepsFirst(g, r, n - 1);
    }
  }

  lemma {:induction false} ZeroStays(g: Bits, n: nat)
    requires |g| > 0
    ensures Steps(g, Zeros(|g|), n) == Zeros(|g|)
  {
    if n > 0 { ZeroStays(g, n - 1); }
  }

  /** A single bit climbs unreduced to the top of the register. */
  lemma {:induction false} BottomRises(g: Bits, b: bool, n: nat)
    requires n < |g|
    ensures Steps(g, Zeros(|g| - 1) + [b], n) == Zeros(|g| - 1 - n) + ([b] + Zeros(n))
    ensures n == |g| - 1 ==> Steps(g, Zeros(|g| - 1) + [b], n) == [b] + Zeros(n)
    decreases n
  {
    if n > 0 { BottomRises(g, b, n - 1); }
  }
}
