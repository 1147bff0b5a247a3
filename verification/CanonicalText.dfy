/**
  What the printed text of an IPv6 address looks like, beyond what it denotes:
  lower-case digits and no leading zeros (sections 4.1 and 4.3 of RFC 5952), and
  when its last 32 bits are printed as a dotted quad.
*/
module CanonicalText {
  import opened Octets
  import opened AddressText
  import opened NumberText
  import opened Ipv6Text

  predicate Separator(c: char)
  {
    c == ':' || c == '.'
  }

  /** A zero at the start of a number is all of it. */
  ghost predicate ZeroAlone(t: string, k: nat)
    requires k < |t|
  {
    t[k] == '0' && (k == 0 || Separator(t[k - 1])) ==> k + 1 == |t| || Separator(t[k + 1])
  }

  /** Lower-case digits and separators only, and no number with leading zeros. */
  ghost predicate Canonical(t: string)
  {
    forall k :: 0 <= k < |t| ==> (LowerHex(t[k]) || Separator(t[k])) && ZeroAlone(t, k)
  }

  lemma CanonicalAround(a: string, b: string, c: char)
    requires Canonical(a) && Canonical(b) && Separator(c)
    ensures Canonical(a + [c] + b)
  {
    var t, n := a + [c] + b, |a| + 1;
    forall k | 0 <= k < |t|
      ensures (LowerHex(t[k]) || Separator(t[k])) && ZeroAlone(t, k)
    {
      if k < |a| {
        assert ZeroAlone(a, k) && t[k + 1] == if k + 1 < |a| then a[k + 1] else c;
      } else if k >= n {
        assert ZeroAlone(b, k - n) && t[k] == b[k - n];
      }
    }
  }

  lemma CanonicalNumber(s: string)
    requires s != "" && (forall k :: 0 <= k < |s| ==> LowerHex(s[k])) && (s[0] == '0' ==> |s| == 1)
    ensures Canonical(s)
  {}

  lemma DigitLower(d: nat)
    requires d < 16
    ensures LowerHex(Digit(d)) && (Digit(d) == '0' <==> d == 0)
  {}

  lemma {:induction false} HexLower(w: nat)
    ensures forall k :: 0 <= k < |HexText(w)| ==> LowerHex(HexText(w)[k])
    ensures HexText(w)[0] == '0' ==> w == 0
  {
    DigitLower(w % 16);
    if w >= 16 {
      HexLower(w / 16);
    }
  }

  lemma HexCanonical(w: nat)
    ensures Canonical(HexText(w))
  {
    HexLower(w);
    CanonicalNumber(HexText(w));
  }

  lemma DecimalCanonical(n: Octet)
    ensures Canonical(DecimalText(n))
  {
    DecimalDigits(n);
    DigitLower(n / 100);
    DigitLower(n / 10 % 10);
    DigitLower(n % 10);
    CanonicalNumber(DecimalText(n));
  }

  lemma {:induction false} JoinCanonical(parts: seq<string>, sep: char)
    requires Separator(sep) && forall k :: 0 <= k < |parts| ==> Canonical(parts[k])
    ensures Canonical(Join(parts, sep))
  {
    if |parts| > 1 {
      JoinCanonical(parts[1..], sep);
      CanonicalAround(parts[0], Join(parts[1..], sep), sep);
    }
  }

  lemma HexesCanonical(w: seq<Word16>)
    ensures Canonical(Hexes(w))
  {
    forall k | 0 <= k < |w|
      ensures Canonical(HexParts(w)[k])
    {
      HexCanonical(w[k]);
    }
    JoinCanonical(HexParts(w), ':');
  }

  lemma DottedCanonical(a: seq<Octet>)
    requires |a| == 4
    ensures Canonical(Dotted(a))
  {
    forall k | 0 <= k < 4
      ensures Canonical(QuadParts(a)[k])
    {
      DecimalCanonical(a[k]);
    }
    JoinCanonical(QuadParts(a), '.');
  }

  lemma DoubleColonCanonical(a: string, b: string)
    requires Canonical(a) && Canonical(b)
    ensures Canonical(a + "::" + b)
  {
    CanonicalAround("", b, ':');
    CanonicalAround(a, "" + [':'] + b, ':');
    assert a + [':'] + ("" + [':'] + b) == a + "::" + b;
  }

  /** Every printed text is canonical. */
  lemma TextCanonical(w: Words, base: int, len: int)
    requires base == -1 || (0 <= base && 0 <= len && base + len <= 8)
    ensures Canonical(Text(w, base, len))
  {
    if base == -1 {
      HexesCanonical(w);
    } else if Embedded(w, base, len) {
      var parts := HexParts(w[len..6]) + [Dotted(Quad(w))];
      TailCanonical(w[len..6], Quad(w));
      DoubleColonCanonical("", Join(parts, ':'));
      assert "" + "::" + Join(parts, ':') == "::" + Join(parts, ':');
    } else {
      HexesCanonical(w[..base]);
      HexesCanonical(w[base + len..]);
      DoubleColonCanonical(Hexes(w[..base]), Hexes(w[base + len..]));
    }
  }

  lemma TailCanonical(w: seq<Word16>, a: seq<Octet>)
    requires |a| == 4
    ensures Canonical(Join(HexParts(w) + [Dotted(a)], ':'))
  {
    var parts := HexParts(w) + [Dotted(a)];
    forall k | 0 <= k < |parts|
      ensures Canonical(parts[k])
    {
      if k < |w| {
        HexCanonical(w[k]);
      } else {
        DottedCanonical(a);
      }
    }
    JoinCanonical(parts, ':');
  }

  // ----- the dotted quad

  lemma {:induction false} JoinNoDot(parts: seq<string>)
    requires forall k :: 0 <= k < |parts| ==> '.' !in parts[k]
    ensures '.' !in Join(parts, ':')
  {
    if |parts| > 1 {
      JoinNoDot(parts[1..]);
    }
  }

  lemma HexesNoDot(w: seq<Word16>)
    ensures '.' !in Hexes(w)
  {
    forall k | 0 <= k < |w|
      ensures '.' !in HexParts(w)[k]
    {
      HexReads(w[k]);
    }
    JoinNoDot(HexParts(w));
  }

  lemma TailHasDot(w: seq<Word16>, a: seq<Octet>)
    requires |a| == 4
    ensures '.' in Join(HexParts(w) + [Dotted(a)], ':')
  {
    DottedChars(a);
    JoinSnoc(HexParts(w), Dotted(a), ':');
  }

  lemma DotWhenEmbedded(w: Words, base: int, len: int)
    requires base == -1 || (0 <= base && 0 <= len && base + len <= 8)
    ensures '.' in Text(w, base, len) <==> base != -1 && Embedded(w, base, len)
  {
    if base == -1 {
      HexesNoDot(w);
    } else if Embedded(w, base, len) {
      TailHasDot(w[len..6], Quad(w));
    } else {
      HexesNoDot(w[..base]);
      HexesNoDot(w[base + len..]);
    }
  }

  /** The addresses printed with a dotted quad: ::ffff:a.b.c.d, and ::a.b.c.d unless a and b are both zero. */
  ghost predicate PrintsQuad(w: Words)
  {
    && (forall k :: 0 <= k < 5 ==> w[k] == 0)
    && (w[5] == 0xFFFF || (w[5] == 0 && w[6] != 0))
  }

  lemma RunFrom(w: Words, len: int)
    requires 2 <= len <= 8 && (forall k :: 0 <= k < len ==> w[k] == 0)
    ensures ZeroRun(w, 0, len)
  {}

  lemma QuadRun(w: Words, base: int, len: int)
    requires BestRun(w, base, len)
    ensures base != -1 && Embedded(w, base, len) <==> PrintsQuad(w)
  {
    if PrintsQuad(w) {
      var n := if w[5] == 0 then 6 else 5;
      RunFrom(w, n);
      assert w[n] != 0;
    } else if base == 0 && len == 6 && w[6] == 0 {
      RunFrom(w, 7);
    }
  }

  /** A text has a dot exactly for these addresses. */
  lemma DottedExactly(w: Words, base: int, len: int)
    requires BestRun(w, base, len)
    ensures '.' in Text(w, base, len) <==> PrintsQuad(w)
  {
    DotWhenEmbedded(w, base, len);
    QuadRun(w, base, len);
  }
}
