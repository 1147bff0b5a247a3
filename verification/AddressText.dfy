/**
  Reading the text forms of addresses: the preferred form of section 2.2 of
  RFC 4291 with `::` and a dotted-quad tail.  This is the meaning that the
  printer's output is measured against.
*/
module AddressText {
  import opened Octets

  // ----- numbers

  function Digit(d: nat): (c: char)
    requires d < 16
  {
    if d < 10 then ('0' as int + d) as char else ('a' as int + d - 10) as char
  }

  /** A digit of "0123456789abcdef". */
  predicate LowerHex(c: char)
  {
    '0' <= c <= '9' || 'a' <= c <= 'f'
  }

  function DigitValue(c: char): (v: Option<nat>)
    ensures v.Some? ==> v.value < 16
  {
    if '0' <= c <= '9' then Some(c as int - '0' as int)
    else if 'a' <= c <= 'f' then Some(c as int - 'a' as int + 10)
    else if 'A' <= c <= 'F' then Some(c as int - 'A' as int + 10)
    else None
  }

  /** The number a string of digits denotes in a base, if they are digits of that base. */
  function Number(s: string, base: nat): (v: Option<nat>)
  {
    if s == [] then Some(0)
    else
      var front, d := Number(s[..|s| - 1], base), DigitValue(s[|s| - 1]);
      if front.None? || d.None? || d.value >= base then None else Some(front.value * base + d.value)
  }

  lemma NumberSnoc(s: string, c: char, base: nat)
    ensures Number(s + [c], base) ==
            var front, d := Number(s, base), DigitValue(c);
            if front.None? || d.None? || d.value >= base then None else Some(front.value * base + d.value)
  {
    assert (s + [c])[..|s|] == s;
  }

  function ReadHex(s: string): (w: Option<Word16>)
  {
    var v := Number(s, 16);
    if 1 <= |s| <= 4 && v.Some? && v.value < 0x1_0000 then Some(v.value) else None
  }

  function ReadDecimal(s: string): (b: Option<Octet>)
  {
    var v := Number(s, 10);
    if 1 <= |s| <= 3 && v.Some? && v.value < 256 then Some(v.value) else None
  }

  // ----- separated parts

  function Split(s: string, sep: char): (parts: seq<string>)
    ensures |parts| > 0
  {
    if s == [] then [""]
    else if s[0] == sep then [""] + Split(s[1..], sep)
    else var rest := Split(s[1..], sep); [[s[0]] + rest[0]] + rest[1..]
  }

  function Join(parts: seq<string>, sep: char): (s: string)
  {
    if parts == [] then "" else if |parts| == 1 then parts[0]
    else parts[0] + [sep] + Join(parts[1..], sep)
  }

  lemma {:induction false} SplitPart(p: string, sep: char, rest: string)
    requires sep !in p
    ensures Split(p, sep) == [p]
    ensures Split(p + [sep] + rest, sep) == [p] + Split(rest, sep)
  {
    if p == [] {
      assert ([] + [sep] + rest)[1..] == rest;
    } else {
      SplitPart(p[1..], sep, rest);
      assert (p + [sep] + rest)[1..] == p[1..] + [sep] + rest;
      assert [p[0]] + p[1..] == p;
    }
  }

  /** Parts without the separator survive joining and splitting. */
  lemma {:induction false} SplitJoin(parts: seq<string>, sep: char)
    requires |parts| > 0 && forall k :: 0 <= k < |parts| ==> sep !in parts[k]
    ensures Split(Join(parts, sep), sep) == parts
  {
    SplitPart(parts[0], sep, Join(parts[1..], sep));
    if |parts| > 1 {
      SplitJoin(parts[1..], sep);
    }
  }

  lemma {:induction false} JoinSnoc(parts: seq<string>, p: string, sep: char)
    ensures Join(parts + [p], sep) == if parts == [] then p else Join(parts, sep) + [sep] + p
  {
    if |parts| > 0 {
      assert (parts + [p])[1..] == parts[1..] + [p];
      JoinSnoc(parts[1..], p, sep);
    }
  }

  // ----- addresses

  /** A dotted quad as two words. */
  function ReadQuad(s: string): (w: Option<seq<Word16>>)
  {
    var parts := Split(s, '.');
    if |parts| != 4 then None
    else
      var a, b, c, d := ReadDecimal(parts[0]), ReadDecimal(parts[1]), ReadDecimal(parts[2]), ReadDecimal(parts[3]);
      if a.None? || b.None? || c.None? || d.None? then None
      else Some([Pair(false, a.value, b.value), Pair(false, c.value, d.value)])
  }

  /** Groups of hexadecimal digits; the last may be a dotted quad when `quad`. */
  function ReadParts(parts: seq<string>, quad: bool): (w: Option<seq<Word16>>)
  {
    if parts == [] then Some([])
    else if |parts| == 1 && quad && '.' in parts[0] then ReadQuad(parts[0])
    else
      var first, rest := ReadHex(parts[0]), ReadParts(parts[1..], quad);
      if first.None? || rest.None? then None else Some([first.value] + rest.value)
  }

  function ReadGroups(s: string, quad: bool): (w: Option<seq<Word16>>)
  {
    if s == [] then Some([]) else ReadParts(Split(s, ':'), quad)
  }

  /** Where the first `::` begins, or the length of the text. */
  function DoubleColon(s: string): (i: nat)
    ensures i == |s| || i + 2 <= |s|
  {
    if |s| < 2 then |s|
    else if s[0] == ':' && s[1] == ':' then 0
    else 1 + DoubleColon(s[1..])
  }

  function ZeroWords(n: nat): (z: seq<Word16>)
    ensures |z| == n
  {
    seq(n, _ => 0)
  }

  /** The eight words a text denotes, if it is an address. */
  function ReadAddress(s: string): (w: Option<seq<Word16>>)
  {
    var i := DoubleColon(s);
    if i == |s| then
      var all := ReadGroups(s, true);
      if all.Some? && |all.value| == 8 then all else None
    else
      var left, right := ReadGroups(s[..i], false), ReadGroups(s[i + 2..], true);
      if left.None? || right.None? || |left.value| + |right.value| > 7 then None
      else Some(left.value + ZeroWords(8 - |left.value| - |right.value|) + right.value)
  }

  /** Eight words made of 16 octets, the first octet of each the more significant. */
  ghost predicate MadeOf(w: seq<Word16>, addr: seq<Octet>)
  {
    |w| == 8 && |addr| == 16 && forall k :: 0 <= k < 8 ==> w[k] / 256 == addr[2 * k] && w[k] % 256 == addr[2 * k + 1]
  }

  // ----- finding the double colon

  /** No two adjacent colons, none at the end. */
  ghost predicate SingleColons(s: string)
  {
    && (forall k :: 0 < k < |s| && s[k] == ':' ==> s[k - 1] != ':')
    && (s != [] ==> s[|s| - 1] != ':')
  }

  lemma {:induction false} DoubleColonAfter(s: string, rest: string)
    requires SingleColons(s)
    ensures DoubleColon(s + rest) == |s| + DoubleColon(rest)
  {
    if s == [] {
      assert s + rest == rest;
    } else {
      assert (s + rest)[1..] == s[1..] + rest;
      if |s| > 1 { assert !(s[0] == ':' && s[1] == ':'); }
      DoubleColonAfter(s[1..], rest);
    }
  }

  /** Joining nonempty parts without colons makes single colons only. */
  lemma {:induction false} JoinSingle(parts: seq<string>)
    requires forall k :: 0 <= k < |parts| ==> parts[k] != "" && ':' !in parts[k]
    ensures SingleColons(Join(parts, ':'))
    ensures |parts| > 0 ==> Join(parts, ':') != "" && Join(parts, ':')[0] != ':'
  {
    if |parts| > 0 {
      JoinSingle(parts[1..]);
      var p, s := parts[0], Join(parts, ':');
      assert p[0] in p && p[|p| - 1] in p;
      if |parts| > 1 {
        var rest := Join(parts[1..], ':');
        assert s == p + [':'] + rest;
        forall k | 0 < k < |s| && s[k] == ':'
          ensures s[k - 1] != ':'
        {
          if k <= |p| {
            assert s[k - 1] in p;
          } else {
            assert k != |p| + 1;
            assert s[k] == rest[k - |p| - 1] && s[k - 1] == rest[k - |p| - 2];
          }
        }
      } else {
        assert forall k :: 0 <= k < |s| ==> s[k] in p;
      }
    }
  }
}
