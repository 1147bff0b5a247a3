/** The texts of numbers and dotted quads, and the proof that they read back. */
module NumberText {
  import opened Octets
  import opened AddressText

  // ----- numbers as the printer writes them

  /** The text that `%x` produces. */
  function HexText(w: nat): (s: string)
    ensures |s| > 0
  {
    if w < 16 then [Digit(w)] else HexText(w / 16) + [Digit(w % 16)]
  }

  /** Text without separators or terminators. */
  ghost predicate Plain(s: string)
  {
    forall k :: 0 <= k < |s| ==> s[k] != ':' && s[k] != '.' && s[k] != '\0'
  }

  lemma PlainConcat(s: string, t: string)
    requires Plain(s) && Plain(t)
    ensures Plain(s + t)
  {}

  lemma DigitReads(d: nat)
    requires d < 16
    ensures DigitValue(Digit(d)) == Some(d)
    ensures Plain([Digit(d)])
  {}

  lemma {:induction false} HexNumber(w: nat)
    ensures Number(HexText(w), 16) == Some(w)
    ensures Plain(HexText(w))
  {
    DigitReads(w % 16);
    if w >= 16 {
      HexNumber(w / 16);
      NumberSnoc(HexText(w / 16), Digit(w % 16), 16);
      PlainConcat(HexText(w / 16), [Digit(w % 16)]);
    } else {
      NumberSnoc([], Digit(w), 16);
      assert [] + [Digit(w)] == [Digit(w)];
    }
  }

  lemma HexLength(w: nat)
    ensures w < 0x1_0000 ==> |HexText(w)| <= 4
  {
    if w >= 16 {
      var w1 := w / 16;
      assert |HexText(w)| == |HexText(w1)| + 1;
      if w1 >= 16 {
        var w2 := w1 / 16;
        assert |HexText(w1)| == |HexText(w2)| + 1;
        if w2 >= 16 {
          assert |HexText(w2)| == |HexText(w2 / 16)| + 1;
        }
      }
    }
  }

  lemma HexReads(w: Word16)
    ensures ReadHex(HexText(w)) == Some(w)
    ensures 1 <= |HexText(w)| <= 4 && Plain(HexText(w))
  {
    HexNumber(w);
    HexLength(w);
  }

  /** A decimal octet without leading zeros. */
  function DecimalText(n: Octet): (s: string)
    ensures 1 <= |s| <= 3
  {
    if n >= 100 then [Digit(n / 100)] + [Digit(n / 10 % 10)] + [Digit(n % 10)]
    else if n >= 10 then [Digit(n / 10)] + [Digit(n % 10)]
    else [Digit(n)]
  }

  lemma DecimalReads(n: Octet)
    ensures ReadDecimal(DecimalText(n)) == Some(n)
    ensures Plain(DecimalText(n))
  {
    DecimalDigits(n);
    if n >= 100 {
      DecimalThree(n / 100, n / 10 % 10, n % 10);
    } else if n >= 10 {
      DecimalNumber(n / 10, n % 10);
    } else {
      DecimalDigit(n);
    }
  }

  lemma DecimalDigits(n: Octet)
    ensures n == 100 * (n / 100) + 10 * (n / 10 % 10) + n % 10 == 10 * (n / 10) + n % 10
    ensures n / 100 < 10 && n / 10 % 10 < 10 && n % 10 < 10 && (n < 100 ==> n / 10 < 10)
  {}

  lemma DecimalThree(d: nat, e: nat, f: nat)
    requires d < 10 && e < 10 && f < 10
    ensures Number([Digit(d)] + [Digit(e)] + [Digit(f)], 10) == Some(100 * d + 10 * e + f)
    ensures Plain([Digit(d)] + [Digit(e)] + [Digit(f)])
  {
    DecimalNumber(d, e);
    DigitReads(f);
    NumberSnoc([Digit(d)] + [Digit(e)], Digit(f), 10);
    PlainConcat([Digit(d)] + [Digit(e)], [Digit(f)]);
  }

  lemma DecimalDigit(d: nat)
    requires d < 10
    ensures Number([Digit(d)], 10) == Some(d) && Plain([Digit(d)])
  {
    DigitReads(d);
    NumberSnoc([], Digit(d), 10);
    assert [] + [Digit(d)] == [Digit(d)];
  }

  lemma DecimalNumber(d: nat, e: nat)
    requires d < 10 && e < 10
    ensures Number([Digit(d)] + [Digit(e)], 10) == Some(10 * d + e)
    ensures Plain([Digit(d)] + [Digit(e)])
  {
    DecimalDigit(d);
    DigitReads(e);
    NumberSnoc([Digit(d)], Digit(e), 10);
    PlainConcat([Digit(d)], [Digit(e)]);
  }

  // ----- IPv4

  function QuadParts(a: seq<Octet>): (parts: seq<string>)
    requires |a| == 4
  {
    [DecimalText(a[0]), DecimalText(a[1]), DecimalText(a[2]), DecimalText(a[3])]
  }

  function Dotted(a: seq<Octet>): (s: string)
    requires |a| == 4
  {
    Join(QuadParts(a), '.')
  }

  lemma DottedShape(a: seq<Octet>)
    requires |a| == 4
    ensures Dotted(a) == DecimalText(a[0]) + "." + DecimalText(a[1]) + "." + DecimalText(a[2]) + "." + DecimalText(a[3])
  {
    var p := QuadParts(a);
    assert p[1..][1..][1..] == [p[3]];
    assert Join(p[1..][1..], '.') == p[2] + "." + p[3];
    assert Join(p[1..], '.') == p[1] + "." + Join(p[1..][1..], '.');
  }

  lemma DottedReads(a: seq<Octet>)
    requires |a| == 4
    ensures ReadQuad(Dotted(a)) == Some([Pair(false, a[0], a[1]), Pair(false, a[2], a[3])])
  {
    DecimalReads(a[0]); DecimalReads(a[1]); DecimalReads(a[2]); DecimalReads(a[3]);
    var p := QuadParts(a);
    assert forall k :: 0 <= k < 4 ==> Plain(p[k]);
    assert forall k :: 0 <= k < 4 ==> '.' !in p[k];
    SplitJoin(p, '.');
  }

  /** Plain text with dots in it. */
  ghost predicate PlainOrDots(s: string)
  {
    forall k :: 0 <= k < |s| ==> s[k] != ':' && s[k] != '\0'
  }

  lemma DotAppend(s: string, t: string)
    requires PlainOrDots(s) && Plain(t)
    ensures PlainOrDots(s + "." + t)
  {}

  lemma DottedChars(a: seq<Octet>)
    requires |a| == 4
    ensures 7 <= |Dotted(a)| <= 15 && PlainOrDots(Dotted(a))
    ensures '.' in Dotted(a)
  {
    var p, q, r, s := DecimalText(a[0]), DecimalText(a[1]), DecimalText(a[2]), DecimalText(a[3]);
    DecimalReads(a[0]); DecimalReads(a[1]); DecimalReads(a[2]); DecimalReads(a[3]);
    DottedShape(a);
    DotAppend(p, q);
    DotAppend(p + "." + q, r);
    DotAppend(p + "." + q + "." + r, s);
    assert Dotted(a)[|p|] == '.';
  }
}
