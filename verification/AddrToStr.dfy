/**
  Printing IPv4 and IPv6 addresses into a caller's buffer.  Positions in the
  buffer stand for the pointer `dp`; the space left is what lies beyond it.
*/
module AddrToStr {
  import opened Octets
  import opened AddressText
  import opened NumberText
  import opened Ipv6Text
  import opened CanonicalText

  // ----- the search for the run

  /** Every run of zeros that ends by `i` lies in the current run or is no better than the best. */
  ghost predicate Covered(w: Words, i: int, bestBase: int, bestLen: int, curBase: int)
  {
    forall b, l :: ZeroRun(w, b, l) && b + l <= i ==>
      (curBase != -1 && curBase <= b) || (bestBase != -1 && AsGood(bestBase, bestLen, b, l))
  }

  ghost predicate Searching(w: Words, i: int, bestBase: int, bestLen: int, curBase: int, curLen: int)
  {
    && 0 <= i <= 8
    && (bestBase == -1 || (ZeroRun(w, bestBase, bestLen) && bestBase + bestLen <= i))
    && (curBase == -1 || (ZeroRun(w, curBase, curLen) && curBase + curLen == i))
    && (curBase == -1 && i > 0 ==> w[i - 1] != 0)
    && (curBase > 0 ==> w[curBase - 1] != 0)
    && (curBase != -1 && bestBase != -1 ==> bestBase + bestLen <= curBase)
    && Covered(w, i, bestBase, bestLen, curBase)
  }

  lemma ZeroWordStep(w: Words, i: int, bb: int, bl: int, cb: int, cl: int)
    requires Searching(w, i, bb, bl, cb, cl) && i < 8 && w[i] == 0
    ensures if cb == -1 then Searching(w, i + 1, bb, bl, i, 1) else Searching(w, i + 1, bb, bl, cb, cl + 1)
  {
    var start := if cb == -1 then i else cb;
    forall b, l | ZeroRun(w, b, l) && b + l == i + 1
      ensures start <= b
    {
      if start > 0 { assert w[start - 1] != 0; }
    }
  }

  /** Closing the current run: it replaces the best one only when strictly longer. */
  lemma CloseRun(w: Words, i: int, bb: int, bl: int, cb: int, cl: int)
    requires Searching(w, i, bb, bl, cb, cl) && cb != -1
    ensures if bb == -1 || cl > bl then Covered(w, i, cb, cl, -1) else Covered(w, i, bb, bl, -1)
  {}

  lemma NonzeroWordStep(w: Words, i: int, bb: int, bl: int)
    requires 0 <= i < 8 && w[i] != 0
    requires bb == -1 || (ZeroRun(w, bb, bl) && bb + bl <= i)
    requires Covered(w, i, bb, bl, -1)
    ensures Searching(w, i + 1, bb, bl, -1, 0)
  {
    forall b, l | ZeroRun(w, b, l)
      ensures b + l != i + 1
    {
      assert w[i] != 0;
    }
  }

  method FindBestRun(w: Words) returns (base: int, len: int)
    ensures BestRun(w, base, len)
  {
    base, len := -1, 0;
    var curBase, curLen := -1, 0;
    for i := 0 to 8
      invariant Searching(w, i, base, len, curBase, curLen)
    {
      if w[i] == 0 {
        ZeroWordStep(w, i, base, len, curBase, curLen);
        if curBase == -1 {
          curBase, curLen := i, 1;
        } else {
          curLen := curLen + 1;
        }
      } else {
        if curBase != -1 {
          CloseRun(w, i, base, len, curBase, curLen);
          if base == -1 || curLen > len {
            base, len := curBase, curLen;
          }
          curBase := -1;
        }
        NonzeroWordStep(w, i, base, len);
      }
    }
    if curBase != -1 {
      CloseRun(w, 8, base, len, curBase, curLen);
      if base == -1 || curLen > len {
        base, len := curBase, curLen;
      }
    }
    if base != -1 && len < 2 {
      base := -1;
    }
  }

  // ----- writing into the buffer

  /** The `APPEND_CHAR` macro: fail when no space is left. */
  method AppendChar(dst: array<char>, dp: nat, c: char) returns (ok: bool, end: nat)
    requires dp <= dst.Length
    modifies dst
    ensures ok == (dp < dst.Length)
    ensures ok ==> end == dp + 1 && dst[..end] == old(dst[..dp]) + [c]
    ensures !ok ==> end == dp
  {
    ok, end := dp < dst.Length, dp;
    if ok {
      dst[dp] := c;
      end := dp + 1;
    }
  }

  /** Copy a text that fits. */
  method PutText(dst: array<char>, dp: nat, text: string) returns (end: nat)
    requires dp + |text| <= dst.Length
    modifies dst
    ensures end == dp + |text| && dst[..end] == old(dst[..dp]) + text
  {
    end := dp;
    for k := 0 to |text|
      invariant end == dp + k
      invariant dst[..end] == old(dst[..dp]) + text[..k]
    {
      dst[end] := text[k];
      end := end + 1;
      assert dst[..end] == dst[..end - 1] + [text[k]];
      assert text[..k + 1] == text[..k] + [text[k]];
    }
    assert text[..|text|] == text;
  }

  /** `snprintf` with `%x`: the text and its terminator must fit. */
  method PrintHex(dst: array<char>, dp: nat, w: Word16) returns (ok: bool, end: nat)
    requires dp <= dst.Length
    modifies dst
    ensures ok == (|HexText(w)| < dst.Length - dp)
    ensures ok ==> end == dp + |HexText(w)| && dst[..end] == old(dst[..dp]) + HexText(w)
  {
    ok, end := |HexText(w)| < dst.Length - dp, dp;
    if ok {
      end := PutText(dst, dp, HexText(w));
    }
  }

  /** One octet in decimal: hundreds, tens and ones, leading zeros left out. */
  method PrintOctet(dst: array<char>, dp: nat, octet: Octet) returns (end: nat)
    requires dp + 3 <= dst.Length
    modifies dst
    ensures end == dp + |DecimalText(octet)| && dst[..end] == old(dst[..dp]) + DecimalText(octet)
  {
    var n: int, nonZero := octet, false;
    end := dp;
    if nonZero || n / 100 > 0 {
      dst[end] := Digit(n / 100);
      end, n, nonZero := end + 1, n % 100, true;
    }
    if nonZero || n / 10 > 0 {
      dst[end] := Digit(n / 10);
      end, n, nonZero := end + 1, n % 10, true;
    }
    dst[end] := Digit(n);
    end := end + 1;
    assert octet / 10 % 10 == octet % 100 / 10 && octet % 100 % 10 == octet % 10;
    assert dst[dp..end] == DecimalText(octet);
    assert dst[..end] == dst[..dp] + dst[dp..end];
  }

  const INET_ADDRSTRLEN := 16

  /** One octet of a quad, followed by a dot unless it is the last. */
  function QuadPart(a: seq<Octet>, i: nat): (s: string)
    requires |a| == 4 && i < 4
    ensures |s| <= if i < 3 then 4 else 3
  {
    DecimalText(a[i]) + if i != 3 then "." else ""
  }

  method PrintQuadPart(a: seq<Octet>, i: nat, dst: array<char>, dp: nat) returns (end: nat)
    requires |a| == 4 && i < 4 && dp + 4 <= dst.Length
    modifies dst
    ensures end == dp + |QuadPart(a, i)| && dst[..end] == old(dst[..dp]) + QuadPart(a, i)
  {
    end := PrintOctet(dst, dp, a[i]);
    ghost var sofar := dst[..end];
    if i != 3 {
      dst[end] := '.';
      end := end + 1;
      assert dst[..end] == sofar + ".";
    }
    assert dst[..end] == old(dst[..dp]) + QuadPart(a, i);
  }

  /** The parts of a quad before position `i`. */
  ghost function QuadPrefix(a: seq<Octet>, i: nat): (s: string)
    requires |a| == 4 && i <= 4
    ensures |s| <= if i < 4 then 4 * i else 15
  {
    if i == 0 then "" else QuadPrefix(a, i - 1) + QuadPart(a, i - 1)
  }

  lemma QuadPrefixStep(front: string, a: seq<Octet>, i: nat)
    requires |a| == 4 && i < 4
    ensures front + QuadPrefix(a, i) + QuadPart(a, i) == front + QuadPrefix(a, i + 1)
    ensures |QuadPrefix(a, i + 1)| == |QuadPrefix(a, i)| + |QuadPart(a, i)|
  {}

  lemma Regroup(p: string, q: string, r: string, s: string)
    ensures "" + (p + ".") + (q + ".") + (r + ".") + (s + "") == p + "." + q + "." + r + "." + s
  {}

  lemma QuadPrefixWhole(a: seq<Octet>)
    requires |a| == 4
    ensures QuadPrefix(a, 4) == Dotted(a)
  {
    DottedShape(a);
    var p, q, r, s := DecimalText(a[0]), DecimalText(a[1]), DecimalText(a[2]), DecimalText(a[3]);
    assert QuadPrefix(a, 1) == "" + (p + ".");
    assert QuadPrefix(a, 2) == QuadPrefix(a, 1) + (q + ".");
    assert QuadPrefix(a, 3) == QuadPrefix(a, 2) + (r + ".");
    assert QuadPrefix(a, 4) == QuadPrefix(a, 3) + (s + "");
    Regroup(p, q, r, s);
  }

  /** The loop of the IPv4 printer. */
  method PrintQuad(a: seq<Octet>, dst: array<char>, dp: nat) returns (end: nat)
    requires |a| == 4 && dp + INET_ADDRSTRLEN <= dst.Length
    modifies dst
    ensures end == dp + |Dotted(a)| <= dp + 15 && dst[..end] == old(dst[..dp]) + Dotted(a)
  {
    end := dp;
    for i := 0 to 4
      invariant end == dp + |QuadPrefix(a, i)|
      invariant dst[..end] == old(dst[..dp]) + QuadPrefix(a, i)
    {
      end := PrintQuadPart(a, i, dst, end);
      QuadPrefixStep(old(dst[..dp]), a, i);
    }
    QuadPrefixWhole(a);
  }

  /** The IPv4 printer: it asks for 16 characters of space whatever the address. */
  method PrintIpv4(a: seq<Octet>, dst: array<char>, dp: nat) returns (ok: bool)
    requires |a| == 4 && dp <= dst.Length
    modifies dst
    ensures ok == (dst.Length - dp >= 16)
    ensures ok ==> dp + |Dotted(a)| < dst.Length && dst[..dp + |Dotted(a)| + 1] == old(dst[..dp]) + Dotted(a) + ['\0']
  {
    ok := dst.Length - dp >= INET_ADDRSTRLEN;
    if !ok {
      return;
    }
    var p := PrintQuad(a, dst, dp);
    ghost var sofar := dst[..p];
    dst[p] := '\0';
    assert dst[..p + 1] == sofar + ['\0'];
  }

  /** `strlen` from a position: the distance to the first terminator. */
  method StrLen(dst: array<char>, dp: nat, ghost text: string) returns (n: nat)
    requires dp + |text| < dst.Length && dst[dp..dp + |text| + 1] == text + ['\0']
    requires PlainOrDots(text)
    ensures n == |text|
  {
    n := 0;
    while dst[dp + n] != '\0'
      invariant n <= |text|
      decreases |text| - n
    {
      assert dst[dp + n] == (text + ['\0'])[n];
      n := n + 1;
    }
    assert dst[dp + n] == (text + ['\0'])[n];
  }

  // ----- the IPv6 printer

  ghost predicate RunOrNone(base: int, len: int)
  {
    base == -1 || (0 <= base && 1 <= len && base + len <= 8)
  }

  /** What has been written when the formatting loop reaches word `i`. */
  ghost function Prefix(w: Words, base: int, len: int, i: nat): (s: string)
    requires RunOrNone(base, len) && i <= 8
  {
    if base == -1 || i <= base then Hexes(w[..i])
    else if i <= base + len then Hexes(w[..base]) + ":"
    else Hexes(w[..base]) + "::" + Hexes(w[base + len..i])
  }

  lemma HexesSnoc(w: seq<Word16>, x: Word16)
    ensures Hexes(w + [x]) == (if w == [] then "" else Hexes(w) + ":") + HexText(x)
  {
    assert HexParts(w + [x]) == HexParts(w) + [HexText(x)];
    JoinSnoc(HexParts(w), HexText(x), ':');
  }

  lemma PrefixStep(w: Words, base: int, len: int, i: nat)
    requires RunOrNone(base, len) && i < 8
    ensures Prefix(w, base, len, i + 1) == Prefix(w, base, len, i) +
            if base != -1 && base <= i < base + len then (if i == base then ":" else "")
            else (if i != 0 then ":" else "") + HexText(w[i])
  {
    if base == -1 || i < base {
      PrefixStepBefore(w, i);
    } else if i >= base + len {
      assert w[base + len..i + 1] == w[base + len..i] + [w[i]];
      HexesSnoc(w[base + len..i], w[i]);
      if i == base + len {
        RunThenFirst(Hexes(w[..base]), HexText(w[i]));
      } else {
        RunThenMore(Hexes(w[..base]), Hexes(w[base + len..i]), HexText(w[i]));
      }
    }
  }

  lemma RunThenFirst(h: string, x: string)
    ensures h + "::" + ("" + x) == h + ":" + (":" + x)
  {}

  lemma RunThenMore(h: string, x: string, y: string)
    ensures h + "::" + (x + ":" + y) == h + "::" + x + (":" + y)
  {}

  lemma PrefixStepBefore(w: Words, i: nat)
    requires i < 8
    ensures Hexes(w[..i + 1]) == Hexes(w[..i]) + ((if i != 0 then ":" else "") + HexText(w[i]))
  {
    assert w[..i + 1] == w[..i] + [w[i]];
    HexesSnoc(w[..i], w[i]);
    assert i == 0 ==> Hexes(w[..i]) == "";
  }

  /** The run at the very end leaves one more colon to write. */
  lemma PrefixWhole(w: Words, base: int, len: int)
    requires RunOrNone(base, len) && !Embedded(w, base, len)
    ensures Text(w, base, len)
            == Prefix(w, base, len, 8) + if base != -1 && base + len == 8 then ":" else ""
  {
    assert w[..8] == w;
    if base != -1 && base + len == 8 {
      assert w[base + len..] == [] && Hexes([]) == "";
    } else if base != -1 {
      assert w[base + len..8] == w[base + len..];
    }
  }

  lemma PrefixEmbedded(w: Words, base: int, len: int)
    requires RunOrNone(base, len) && Embedded(w, base, len)
    ensures Text(w, base, len) == Prefix(w, base, len, 6) + ":" + Dotted(Quad(w))
    ensures |Prefix(w, base, len, 6)| <= 6
  {
    var q := Dotted(Quad(w));
    HexPartsJoin(w[len..6], q);
    EmptyHexes(w);
    if len == 5 {
      OneHex(w);
      assert "::" + ((Hexes(w[5..6]) + ":") + q) == "::" + Hexes(w[5..6]) + ":" + q;
      assert "" + "::" + Hexes(w[5..6]) == "::" + Hexes(w[5..6]);
    } else {
      assert "" + ":" == ":" && "::" + ("" + q) == ":" + ":" + q;
    }
  }

  lemma EmptyHexes(w: Words)
    ensures Hexes(w[..0]) == "" && w[6..6] == []
  {}

  lemma OneHex(w: Words)
    ensures w[5..6] != [] && |Hexes(w[5..6])| <= 4
  {
    assert w[5..6] == [] + [w[5]];
    HexesSnoc([], w[5]);
    HexReads(w[5]);
  }

  lemma HexPartsJoin(w: seq<Word16>, last: string)
    ensures Join(HexParts(w) + [last], ':') == (if w == [] then "" else Hexes(w) + ":") + last
  {
    JoinSnoc(HexParts(w), last, ':');
  }

  /** The buffer an address needs: the dotted quad always asks for 16 characters. */
  ghost function Needed(w: Words, base: int, len: int): (n: int)
    requires RunOrNone(base, len)
  {
    var t := Text(w, base, len);
    if Embedded(w, base, len) then |t| - |Dotted(Quad(w))| + INET_ADDRSTRLEN else |t| + 1
  }

  lemma {:induction false} PrefixGrows(w: Words, base: int, len: int, i: nat, j: nat)
    requires RunOrNone(base, len) && i <= j <= 8
    ensures |Prefix(w, base, len, i)| <= |Prefix(w, base, len, j)|
    decreases j - i
  {
    if i < j {
      PrefixStep(w, base, len, i);
      PrefixGrows(w, base, len, i + 1, j);
    }
  }

  /** Whatever the loop has written, more is needed. */
  lemma PrefixBelowNeeded(w: Words, base: int, len: int, i: nat)
    requires RunOrNone(base, len) && i <= 8 && (Embedded(w, base, len) ==> i <= 6)
    ensures |Prefix(w, base, len, i)| < Needed(w, base, len)
  {
    if Embedded(w, base, len) {
      PrefixGrows(w, base, len, i, 6);
      PrefixEmbedded(w, base, len);
    } else {
      PrefixGrows(w, base, len, i, 8);
      PrefixWhole(w, base, len);
    }
  }

  lemma {:induction false} HexesLength(w: seq<Word16>)
    ensures |Hexes(w)| <= 5 * |w|
    ensures w != [] ==> |Hexes(w)| < 5 * |w|
  {
    if w != [] {
      var n := |w| - 1;
      HexesLength(w[..n]);
      HexReads(w[n]);
      HexesSnoc(w[..n], w[n]);
      assert w == w[..n] + [w[n]];
    }
  }

  const INET6_ADDRSTRLEN := 46

  /** 46 characters are enough for every address. */
  lemma NeededBound(w: Words, base: int, len: int)
    requires BestRun(w, base, len)
    ensures Needed(w, base, len) <= INET6_ADDRSTRLEN
  {
    if base == -1 {
      HexesLength(w);
    } else if Embedded(w, base, len) {
      PrefixEmbedded(w, base, len);
    } else {
      HexesLength(w[..base]);
      HexesLength(w[base + len..]);
    }
  }

  /** A word's digits, with a colon before them unless it is the first. */
  method PrintGroup(dst: array<char>, dp: nat, first: bool, w: Word16) returns (ok: bool, end: nat)
    requires dp <= dst.Length
    modifies dst
    ensures var t := (if first then "" else ":") + HexText(w);
            && ok == (dp + |t| < dst.Length)
            && (ok ==> end == dp + |t| && dst[..end] == old(dst[..dp]) + t)
  {
    ok, end := true, dp;
    if !first {
      ok, end := AppendChar(dst, end, ':');
      if !ok {
        return;
      }
    }
    ghost var sofar := dst[..end];
    ok, end := PrintHex(dst, end, w);
    if ok {
      assert first ==> sofar + HexText(w) == old(dst[..dp]) + ("" + HexText(w));
      assert !first ==> sofar + HexText(w) == old(dst[..dp]) + (":" + HexText(w));
    }
  }

  /**
    One pass of the formatting loop for a word that is not embedded: nothing,
    a colon, or the word's digits with a colon before them.
  */
  method PrintWord(w: Words, base: int, len: int, i: nat, dst: array<char>, dp: nat) returns (ok: bool, end: nat)
    requires RunOrNone(base, len) && i < 8 && (Embedded(w, base, len) ==> i < 6)
    requires dp <= dst.Length && dst[..dp] == Prefix(w, base, len, i)
    modifies dst
    ensures ok ==> end <= dst.Length && dst[..end] == Prefix(w, base, len, i + 1)
    ensures !ok ==> dst.Length < Needed(w, base, len)
  {
    ok, end := true, dp;
    ghost var p, p' := Prefix(w, base, len, i), Prefix(w, base, len, i + 1);
    PrefixStep(w, base, len, i);
    PrefixBelowNeeded(w, base, len, i);
    PrefixBelowNeeded(w, base, len, i + 1);
    if base != -1 && i >= base && i < base + len {
      if i == base {
        ok, end := AppendChar(dst, end, ':');
        assert ok ==> dst[..end] == p';
      } else {
        assert p' == p;
      }
    } else {
      ok, end := PrintGroup(dst, end, i == 0, w[i]);
      assert ok ==> dst[..end] == p';
    }
  }

  /** The colon and the dotted quad of an embedded IPv4 address. */
  method PrintEmbedded(w: Words, base: int, len: int, dst: array<char>, dp: nat) returns (ok: bool, end: nat)
    requires RunOrNone(base, len) && Embedded(w, base, len)
    requires dp <= dst.Length && dst[..dp] == Prefix(w, base, len, 6)
    modifies dst
    ensures ok == (Needed(w, base, len) <= dst.Length)
    ensures ok ==> end < dst.Length && dst[..end] == Text(w, base, len)
  {
    PrefixEmbedded(w, base, len);
    ghost var q := Dotted(Quad(w));
    ok, end := AppendChar(dst, dp, ':');
    if !ok {
      return;
    }
    ghost var before := dst[..end];
    ok := PrintIpv4(Quad(w), dst, end);
    if !ok {
      return;
    }
    DottedChars(Quad(w));
    assert dst[end..end + |q| + 1] == dst[..end + |q| + 1][end..] == q + ['\0'];
    assert dst[..end + |q|] == dst[..end + |q| + 1][..end + |q|] == before + q;
    var added := StrLen(dst, end, q);
    end := end + added;
  }

  /** The formatting loop, up to the embedded quad if there is one. */
  method PrintWords(w: Words, base: int, len: int, dst: array<char>) returns (ok: bool, dp: nat)
    requires RunOrNone(base, len)
    modifies dst
    ensures ok ==> dp <= dst.Length && dst[..dp] == Prefix(w, base, len, if Embedded(w, base, len) then 6 else 8)
    ensures !ok ==> dst.Length < Needed(w, base, len)
  {
    ok, dp := true, 0;
    var i: nat := 0;
    assert dst[..0] == Prefix(w, base, len, 0);
    while i < 8 && !(i == 6 && Embedded(w, base, len))
      invariant i <= 8 && (Embedded(w, base, len) ==> i <= 6)
      invariant ok && dp <= dst.Length && dst[..dp] == Prefix(w, base, len, i)
    {
      ok, dp := PrintWord(w, base, len, i, dst, dp);
      if !ok {
        return;
      }
      i := i + 1;
    }
  }

  /** The end of a text without an embedded quad: a run at the very end still needs its second colon. */
  method PrintEnd(w: Words, base: int, len: int, dst: array<char>, dp: nat) returns (ok: bool, end: nat)
    requires RunOrNone(base, len) && !Embedded(w, base, len)
    requires dp <= dst.Length && dst[..dp] == Prefix(w, base, len, 8)
    modifies dst
    ensures ok ==> end <= dst.Length && dst[..end] == Text(w, base, len)
    ensures !ok ==> dst.Length < Needed(w, base, len)
  {
    PrefixWhole(w, base, len);
    ok, end := true, dp;
    if base != -1 && base + len == 8 {
      ok, end := AppendChar(dst, dp, ':');
    }
  }

  /** All of the text, without its terminator. */
  method PrintText(w: Words, base: int, len: int, dst: array<char>) returns (ok: bool, dp: nat)
    requires RunOrNone(base, len)
    modifies dst
    ensures ok ==> dp == |Text(w, base, len)| <= dst.Length && dst[..dp] == Text(w, base, len)
    ensures ok && dp < dst.Length ==> Needed(w, base, len) <= dst.Length
    ensures !ok || dp == dst.Length ==> dst.Length < Needed(w, base, len)
  {
    ok, dp := PrintWords(w, base, len, dst);
    if ok {
      if Embedded(w, base, len) {
        ok, dp := PrintEmbedded(w, base, len, dst, dp);
      } else {
        ok, dp := PrintEnd(w, base, len, dst, dp);
      }
    }
  }

  /** The addresses with a dotted quad, octet by octet. */
  ghost predicate HasQuad(addr: seq<Octet>)
    requires |addr| == 16
  {
    && (forall k :: 0 <= k < 10 ==> addr[k] == 0)
    && ((addr[10] == 255 && addr[11] == 255)
        || (addr[10] == 0 && addr[11] == 0 && !(addr[12] == 0 && addr[13] == 0)))
  }

  lemma QuadOctets(addr: seq<Octet>)
    requires |addr| == 16
    ensures PrintsQuad(WordsOf(addr)) <==> HasQuad(addr)
  {
    WordsAt(addr);
    var w := WordsOf(addr);
    assert forall k :: 0 <= k < 7 ==> (w[k] == 0 <==> addr[2 * k] == 0 && addr[2 * k + 1] == 0);
    if forall k :: 0 <= k < 5 ==> w[k] == 0 {
      forall k | 0 <= k < 10
        ensures addr[k] == 0
      {
        assert w[k / 2] == 0;
      }
    }
    assert w[5] == 0xFFFF <==> addr[10] == 255 && addr[11] == 255;
  }

  /**
    The printer.  It succeeds exactly when the buffer has room for the best
    run's text, so always with 46 characters; then the buffer holds that text
    and a terminator.  The text reads back as the 16 octets, is canonical, and
    has a dotted quad exactly for addresses that begin with 10 zero octets and
    then either two octets 255 or two zero octets and two that are not both zero.
  */
  method AddrToStr6(addr: seq<Octet>, dst: array<char>) returns (ok: bool, ghost base: int, ghost len: int)
    requires |addr| == 16
    modifies dst
    ensures BestRun(WordsOf(addr), base, len)
    ensures ok == (Needed(WordsOf(addr), base, len) <= dst.Length)
    ensures ok ==> var t := Text(WordsOf(addr), base, len);
                   |t| < dst.Length && dst[..|t| + 1] == t + ['\0']
    ensures var t := Text(WordsOf(addr), base, len);
            && Canonical(t)
            && ReadAddress(t).Some? && MadeOf(ReadAddress(t).value, addr)
            && ('.' in t <==> HasQuad(addr))
    ensures dst.Length >= 46 ==> ok
  {
    var w := WordsOf(addr);
    var b, l := FindBestRun(w);
    base, len := b, l;
    NeededBound(w, b, l);
    TextReads(w, b, l);
    TextCanonical(w, b, l);
    DottedExactly(w, b, l);
    WordsAt(addr);
    QuadOctets(addr);
    var dp;
    ok, dp := PrintText(w, b, l, dst);
    if ok {
      ok, dp := AppendChar(dst, dp, '\0');
    }
  }
}
