/**
  The text of an IPv6 address: which run of zero words is compressed, what is
  printed around it, and the proof that the text denotes the address.
*/
module Ipv6Text {
  import opened Octets
  import opened AddressText
  import opened NumberText

  type Words = w: seq<Word16> | |w| == 8 witness [0, 0, 0, 0, 0, 0, 0, 0]

  function WordsOf(addr: seq<Octet>): (w: Words)
    requires |addr| == 16
  {
    [Pair(false, addr[0], addr[1]), Pair(false, addr[2], addr[3]), Pair(false, addr[4], addr[5]), Pair(false, addr[6], addr[7]),
     Pair(false, addr[8], addr[9]), Pair(false, addr[10], addr[11]), Pair(false, addr[12], addr[13]), Pair(false, addr[14], addr[15])]
  }

  /** Each word is two octets, the first the more significant. */
  lemma WordsAt(addr: seq<Octet>)
    requires |addr| == 16
    ensures MadeOf(WordsOf(addr), addr)
  {}

  /** An address can be recovered from its words. */
  lemma WordsInjective(a: seq<Octet>, b: seq<Octet>)
    requires |a| == 16 && |b| == 16 && WordsOf(a) == WordsOf(b)
    ensures a == b
  {
    forall k | 0 <= k < 8
      ensures a[2 * k] == b[2 * k] && a[2 * k + 1] == b[2 * k + 1]
    {
      assert WordsOf(a)[k] == Pair(false, a[2 * k], a[2 * k + 1]);
      assert WordsOf(b)[k] == Pair(false, b[2 * k], b[2 * k + 1]);
    }
    forall k | 0 <= k < 16
      ensures a[k] == b[k]
    {
      assert k == 2 * (k / 2) || k == 2 * (k / 2) + 1;
    }
  }

  // ----- the run to compress

  ghost predicate ZeroRun(w: Words, base: int, len: int)
  {
    0 <= base && 1 <= len && base + len <= 8 && forall k :: base <= k < base + len ==> w[k] == 0
  }

  /** Run (b, l) is at least as good as (b', l'): longer, or as long and not later. */
  predicate AsGood(b: int, l: int, b': int, l': int)
  {
    l' < l || (l' == l && b <= b')
  }

  /**
    The choice of section 4.2 of RFC 5952: the first of the longest runs of two
    or more zero words, or none (base -1) when there is no such run.
  */
  ghost predicate BestRun(w: Words, base: int, len: int)
  {
    if base == -1 then forall b, l :: ZeroRun(w, b, l) ==> l < 2
    else ZeroRun(w, base, len) && len >= 2 && forall b, l :: ZeroRun(w, b, l) ==> AsGood(base, len, b, l)
  }

  /** There is one best run, so the printed form is canonical. */
  lemma BestRunUnique(w: Words, b: int, l: int, b': int, l': int)
    requires BestRun(w, b, l) && BestRun(w, b', l')
    ensures b == b' && (b != -1 ==> l == l')
  {}

  // ----- the text

  function HexParts(w: seq<Word16>): (parts: seq<string>)
    ensures |parts| == |w|
  {
    seq(|w|, k requires 0 <= k < |w| => HexText(w[k]))
  }

  function Hexes(w: seq<Word16>): (s: string)
  {
    Join(HexParts(w), ':')
  }

  /** Is the address printed with an embedded IPv4 address? */
  predicate Embedded(w: Words, base: int, len: int)
  {
    base == 0 && (len == 6 || (len == 5 && w[5] == 0xFFFF))
  }

  /** The last four octets. */
  function Quad(w: Words): (a: seq<Octet>)
    ensures |a| == 4
  {
    [w[6] / 256, w[6] % 256, w[7] / 256, w[7] % 256]
  }

  function Text(w: Words, base: int, len: int): (s: string)
    requires base == -1 || (0 <= base && 0 <= len && base + len <= 8)
  {
    if base == -1 then Hexes(w)
    else if Embedded(w, base, len) then "::" + Join(HexParts(w[len..6]) + [Dotted(Quad(w))], ':')
    else Hexes(w[..base]) + "::" + Hexes(w[base + len..])
  }

  // ----- the text reads back

  lemma {:induction false} HexPartsRead(w: seq<Word16>, quad: bool)
    ensures ReadParts(HexParts(w), quad) == Some(w)
  {
    if w != [] {
      HexReads(w[0]);
      assert HexParts(w)[1..] == HexParts(w[1..]);
      HexPartsRead(w[1..], quad);
      assert [w[0]] + w[1..] == w;
    }
  }

  lemma {:induction false} LastPartRead(w: seq<Word16>, last: string, tail: seq<Word16>)
    requires ReadParts([last], true) == Some(tail)
    ensures ReadParts(HexParts(w) + [last], true) == Some(w + tail)
  {
    var parts := HexParts(w) + [last];
    if w == [] {
      assert parts == [last] && w + tail == tail;
    } else {
      HexReads(w[0]);
      assert parts[1..] == HexParts(w[1..]) + [last] && parts[0] == HexText(w[0]);
      LastPartRead(w[1..], last, tail);
      assert [w[0]] + (w[1..] + tail) == w + tail;
    }
  }

  lemma HexPartsPlain(w: seq<Word16>)
    ensures forall k :: 0 <= k < |w| ==> HexParts(w)[k] != "" && ':' !in HexParts(w)[k]
  {
    forall k | 0 <= k < |w|
      ensures HexParts(w)[k] != "" && ':' !in HexParts(w)[k]
    {
      HexReads(w[k]);
    }
  }

  lemma HexesRead(w: seq<Word16>, quad: bool)
    ensures ReadGroups(Hexes(w), quad) == Some(w)
    ensures SingleColons(Hexes(w))
    ensures w != [] ==> Hexes(w) != "" && Hexes(w)[0] != ':'
  {
    HexPartsPlain(w);
    JoinSingle(HexParts(w));
    if w != [] {
      SplitJoin(HexParts(w), ':');
      HexPartsRead(w, quad);
    }
  }

  lemma QuadTailReads(w: seq<Word16>, a: seq<Octet>)
    requires |a| == 4
    ensures ReadGroups(Join(HexParts(w) + [Dotted(a)], ':'), true)
            == Some(w + [Pair(false, a[0], a[1]), Pair(false, a[2], a[3])])
  {
    var parts := HexParts(w) + [Dotted(a)];
    HexPartsPlain(w);
    DottedChars(a);
    JoinSingle(parts);
    SplitJoin(parts, ':');
    DottedReads(a);
    LastPartRead(w, Dotted(a), [Pair(false, a[0], a[1]), Pair(false, a[2], a[3])]);
  }

  lemma AroundDouble(left: string, right: string)
    requires SingleColons(left)
    ensures var s := left + "::" + right;
            DoubleColon(s) == |left| < |s| && s[..|left|] == left && s[|left| + 2..] == right
  {
    DoubleColonAfter(left, "::" + right);
    assert left + ("::" + right) == left + "::" + right;
  }

  lemma ZerosBetween(w: Words, base: int, len: int)
    requires ZeroRun(w, base, len)
    ensures w == w[..base] + ZeroWords(len) + w[base + len..]
  {}

  lemma QuadWords(w: Words)
    ensures var q := Quad(w); Pair(false, q[0], q[1]) == w[6] && Pair(false, q[2], q[3]) == w[7]
  {}

  /** Reading a text with a double colon. */
  lemma ReadsAround(left: string, right: string, lw: seq<Word16>, rw: seq<Word16>)
    requires SingleColons(left) && |lw| + |rw| <= 7
    requires ReadGroups(left, false) == Some(lw) && ReadGroups(right, true) == Some(rw)
    ensures ReadAddress(left + "::" + right) == Some(lw + ZeroWords(8 - |lw| - |rw|) + rw)
  {
    AroundDouble(left, right);
  }

  lemma LeadingRunReads(w: Words, len: int, right: string)
    requires ZeroRun(w, 0, len) && ReadGroups(right, true) == Some(w[len..])
    ensures ReadAddress("::" + right) == Some(w)
  {
    ReadsAround("", right, [], w[len..]);
    assert "" + "::" + right == "::" + right;
    ZerosBetween(w, 0, len);
    assert w[..0] == [];
  }

  lemma EmbeddedReads(w: Words, len: int)
    requires ZeroRun(w, 0, len) && Embedded(w, 0, len)
    ensures ReadAddress(Text(w, 0, len)) == Some(w)
  {
    QuadTailReads(w[len..6], Quad(w));
    QuadWords(w);
    assert w[len..6] + [w[6], w[7]] == w[len..];
    LeadingRunReads(w, len, Join(HexParts(w[len..6]) + [Dotted(Quad(w))], ':'));
  }

  /** The text of a compressed or plain address denotes the address. */
  lemma TextReads(w: Words, base: int, len: int)
    requires base == -1 || ZeroRun(w, base, len)
    ensures ReadAddress(Text(w, base, len)) == Some(w)
  {
    if base == -1 {
      HexesRead(w, true);
      DoubleColonAfter(Hexes(w), "");
      assert Hexes(w) + "" == Hexes(w);
    } else if Embedded(w, base, len) {
      EmbeddedReads(w, len);
    } else {
      HexesRead(w[..base], false);
      HexesRead(w[base + len..], true);
      ReadsAround(Hexes(w[..base]), Hexes(w[base + len..]), w[..base], w[base + len..]);
      ZerosBetween(w, base, len);
    }
  }

  /** Distinct addresses never print alike. */
  lemma DistinctTexts(a: seq<Octet>, b: seq<Octet>, ra: (int, int), rb: (int, int))
    requires |a| == 16 && |b| == 16
    requires BestRun(WordsOf(a), ra.0, ra.1) && BestRun(WordsOf(b), rb.0, rb.1)
    requires Text(WordsOf(a), ra.0, ra.1) == Text(WordsOf(b), rb.0, rb.1)
    ensures a == b
  {
    TextReads(WordsOf(a), ra.0, ra.1);
    TextReads(WordsOf(b), rb.0, rb.1);
    WordsInjective(a, b);
  }
}
