/**
  The link-level name tables: the keys and hash of Ethernet addresses and byte
  strings, and the two formatters that share the table of byte strings.
*/
module LinkNames {
  import opened Octets
  import opened AddressText
  import opened NameTables

  const HASHNAMESIZE := 4096

  /** Bitwise exclusive or. */
  function BitXor(a: nat, b: nat): (c: nat)
    decreases a + b
  {
    if a == 0 && b == 0 then 0
    else (if a % 2 != b % 2 then 1 else 0) + 2 * BitXor(a / 2, b / 2)
  }

  lemma {:induction false} XorBits(a: nat, b: nat, k: nat)
    ensures BitAt(BitXor(a, b), k) == (BitAt(a, k) != BitAt(b, k))
    decreases k
  {
    if a == 0 && b == 0 {
      NoBits(k);
    } else if k > 0 {
      XorBits(a / 2, b / 2, k - 1);
    }
  }

  function Power2(m: nat): (p: nat)
    ensures p > 0
  {
    if m == 0 then 1 else 2 * Power2(m - 1)
  }

  /** The low `m` bits of a number. */
  function LowBits(n: nat, m: nat): (l: nat)
    ensures l < Power2(m)
    decreases m
  {
    if m == 0 then 0 else n % 2 + 2 * LowBits(n / 2, m - 1)
  }

  lemma {:induction false} LowBitsAt(n: nat, m: nat, k: nat)
    requires k < m
    ensures BitAt(LowBits(n, m), k) == BitAt(n, k)
    decreases m
  {
    if k > 0 {
      LowBitsAt(n / 2, m - 1, k - 1);
    }
  }

  lemma Power2Of12()
    ensures Power2(12) == HASHNAMESIZE
  {
    assert Power2(4) == 16;
    assert Power2(8) == 16 * Power2(4);
    assert Power2(12) == 16 * Power2(8);
  }

  /** The bucket for the words `i` and `j`: `(i ^ j) & (HASHNAMESIZE - 1)`. */
  function Bucket(i: Word16, j: Word16): (h: nat)
    ensures h < HASHNAMESIZE
  {
    Power2Of12();
    LowBits(BitXor(i, j), 12)
  }

  /** `h` is below 4096 and each of its twelve bits says whether `i` and `j` differ there. */
  ghost predicate InBucket(h: nat, i: nat, j: nat)
  {
    h < 4096 && forall k :: 0 <= k < 12 ==> BitAt(h, k) == (BitAt(i, k) != BitAt(j, k))
  }

  lemma BucketBits(i: Word16, j: Word16)
    ensures InBucket(Bucket(i, j), i, j)
  {
    forall k | 0 <= k < 12
      ensures BitAt(Bucket(i, j), k) == (BitAt(i, k) != BitAt(j, k))
    {
      LowBitsAt(BitXor(i, j), 12, k);
      XorBits(i, j, k);
    }
  }

  // ----- Ethernet addresses

  datatype EtherKey = EtherKey(addr0: Word16, addr1: Word16, addr2: Word16)

  /** The three words a node stores, last octets first. */
  function EtherKeyOf(ep: seq<Octet>): (k: EtherKey)
    requires |ep| == 6
  {
    EtherKey(Pair(false, ep[4], ep[5]), Pair(false, ep[2], ep[3]), Pair(false, ep[0], ep[1]))
  }

  function EtherHash(k: EtherKey): (h: nat)
    ensures h < HASHNAMESIZE
  {
    Bucket(k.addr0, k.addr1)
  }

  lemma EtherKeyInjective(a: seq<Octet>, b: seq<Octet>)
    requires |a| == 6 && |b| == 6
    ensures EtherKeyOf(a) == EtherKeyOf(b) <==> a == b
  {
    WordInjective(a[0], a[1], b[0], b[1]);
    WordInjective(a[2], a[3], b[2], b[3]);
    WordInjective(a[4], a[5], b[4], b[5]);
    if EtherKeyOf(a) == EtherKeyOf(b) {
      assert a == [a[0], a[1], a[2], a[3], a[4], a[5]] && b == [b[0], b[1], b[2], b[3], b[4], b[5]];
    }
  }

  lemma WordInjective(a: Octet, b: Octet, c: Octet, d: Octet)
    ensures Pair(false, a, b) == Pair(false, c, d) <==> a == c && b == d
  {}

  /** A word made of two octets, the first the more significant. */
  ghost predicate Made(w: Word16, hi: Octet, lo: Octet)
  {
    w / 256 == hi && w % 256 == lo
  }

  /** Node `p` of an Ethernet table stores the six octets, in the bucket that the last four give. */
  ghost predicate StoresEther(nodes: seq<Node<EtherKey>>, place: map<nat, (nat, nat)>, ep: seq<Octet>, p: nat)
    requires |ep| == 6
  {
    && p < |nodes| && p in place
    && var k := nodes[p].key;
       && Made(k.addr0, ep[4], ep[5]) && Made(k.addr1, ep[2], ep[3]) && Made(k.addr2, ep[0], ep[1])
       && InBucket(place[p].0, k.addr0, k.addr1)
  }

  lemma EtherStored(nodes: seq<Node<EtherKey>>, place: map<nat, (nat, nat)>, ep: seq<Octet>, p: nat)
    requires |ep| == 6 && StoredIn(nodes, place, EtherHash(EtherKeyOf(ep)), EtherKeyOf(ep), p)
    ensures StoresEther(nodes, place, ep, p)
  {
    BucketBits(EtherKeyOf(ep).addr0, EtherKeyOf(ep).addr1);
  }

  /**
    From any table of Ethernet names: two lookups share a node exactly when
    their six octets agree, the node stores these octets in its bucket, and no
    lookup alters an occupied node.
  */
  method RunLookupEmem(t: Tables<EtherKey>, eps: seq<seq<Octet>>) returns (found: seq<nat>)
    requires t.Valid() && t.heads == HASHNAMESIZE && Homed(EtherHash, t.keys)
    requires forall i :: 0 <= i < |eps| ==> |eps[i]| == 6
    modifies t
    ensures t.Valid() && Homed(EtherHash, t.keys) && |found| == |eps|
    ensures OccupiedKept(old(t.nodes), t.nodes) && old(t.handed) <= t.handed
    ensures forall i :: 0 <= i < |eps| ==> StoresEther(t.nodes, t.place, eps[i], found[i])
    ensures forall i, j :: 0 <= i < |eps| && 0 <= j < |eps| ==> (found[i] == found[j] <==> eps[i] == eps[j])
  {
    var asks := seq(|eps|, i requires 0 <= i < |eps| => EtherKeyOf(eps[i]));
    found := t.RunLookups(EtherHash, asks);
    forall i | 0 <= i < |eps|
      ensures StoresEther(t.nodes, t.place, eps[i], found[i])
    {
      assert StoredIn(t.nodes, t.place, EtherHash(asks[i]), asks[i], found[i]);
      EtherStored(t.nodes, t.place, eps[i], found[i]);
    }
    forall i, j | 0 <= i < |eps| && 0 <= j < |eps|
      ensures found[i] == found[j] <==> eps[i] == eps[j]
    {
      EtherKeyInjective(eps[i], eps[j]);
      assert found[i] == found[j] <==> asks[i] == asks[j];
    }
  }

  // ----- byte strings

  datatype ByteKey = ByteKey(words: EtherKey, bytes: seq<Octet>)

  /** Long strings hash on their first six or four octets, short ones on nothing. */
  function ByteKeyOf(bs: seq<Octet>): (k: ByteKey)
    ensures k.bytes == bs
  {
    if |bs| >= 6 then ByteKey(EtherKeyOf(bs[..6]), bs)
    else if |bs| >= 4 then ByteKey(EtherKey(0, Pair(false, bs[2], bs[3]), Pair(false, bs[0], bs[1])), bs)
    else ByteKey(EtherKey(0, 0, 0), bs)
  }

  function ByteHash(k: ByteKey): (h: nat)
    ensures h < HASHNAMESIZE
  {
    EtherHash(k.words)
  }

  /**
    Node `p` of the table of byte strings stores the string; strings of six
    octets or more are in the bucket that octets 2 to 5 give, those of four or
    five in the one that octets 2 and 3 give, shorter ones in bucket 0.
  */
  ghost predicate StoresString(nodes: seq<Node<ByteKey>>, place: map<nat, (nat, nat)>, bs: seq<Octet>, p: nat)
  {
    && p < |nodes| && p in place && nodes[p].key.bytes == bs
    && var k := nodes[p].key.words;
       && (if |bs| >= 6 then Made(k.addr0, bs[4], bs[5]) else k.addr0 == 0)
       && (if |bs| >= 4 then Made(k.addr1, bs[2], bs[3]) && Made(k.addr2, bs[0], bs[1])
           else k.addr1 == 0 && k.addr2 == 0)
       && InBucket(place[p].0, k.addr0, k.addr1)
  }

  lemma StringStored(nodes: seq<Node<ByteKey>>, place: map<nat, (nat, nat)>, bs: seq<Octet>, p: nat)
    requires StoredIn(nodes, place, ByteHash(ByteKeyOf(bs)), ByteKeyOf(bs), p)
    ensures StoresString(nodes, place, bs, p)
  {
    BucketBits(ByteKeyOf(bs).words.addr0, ByteKeyOf(bs).words.addr1);
  }

  /** The same for byte strings of any length: shared nodes mean equal strings. */
  method RunLookupBytestring(t: Tables<ByteKey>, strings: seq<seq<Octet>>) returns (found: seq<nat>)
    requires t.Valid() && t.heads == HASHNAMESIZE && Homed(ByteHash, t.keys)
    modifies t
    ensures t.Valid() && Homed(ByteHash, t.keys) && |found| == |strings|
    ensures OccupiedKept(old(t.nodes), t.nodes) && old(t.handed) <= t.handed
    ensures forall i :: 0 <= i < |strings| ==> StoresString(t.nodes, t.place, strings[i], found[i])
    ensures forall i, j :: 0 <= i < |strings| && 0 <= j < |strings| ==>
              (found[i] == found[j] <==> strings[i] == strings[j])
  {
    var asks := seq(|strings|, i requires 0 <= i < |strings| => ByteKeyOf(strings[i]));
    found := t.RunLookups(ByteHash, asks);
    forall i | 0 <= i < |strings|
      ensures StoresString(t.nodes, t.place, strings[i], found[i])
    {
      assert StoredIn(t.nodes, t.place, ByteHash(asks[i]), asks[i], found[i]);
      StringStored(t.nodes, t.place, strings[i], found[i]);
    }
    assert forall i, j :: 0 <= i < |asks| && 0 <= j < |asks| ==>
        (found[i] == found[j] <==> asks[i] == asks[j]);
    forall i, j | 0 <= i < |strings| && 0 <= j < |strings|
      ensures found[i] == found[j] <==> strings[i] == strings[j]
    {
      assert asks[i].bytes == strings[i] && asks[j].bytes == strings[j];
    }
  }

  // ----- the two formatters

  function HexOctet(b: Octet): (s: string)
  {
    [Digit(b / 16), Digit(b % 16)]
  }

  function HexOctets(bs: seq<Octet>): (parts: seq<string>)
    ensures |parts| == |bs|
  {
    seq(|bs|, i requires 0 <= i < |bs| => HexOctet(bs[i]))
  }

  /** The octets in order, two hexadecimal digits each, with colons between. */
  function LinkText(bs: seq<Octet>): (s: string)
  {
    Join(HexOctets(bs), ':')
  }

  function Reverse(bs: seq<Octet>): (r: seq<Octet>)
    ensures |r| == |bs| && forall i :: 0 <= i < |bs| ==> r[i] == bs[|bs| - 1 - i]
  {
    seq(|bs|, i requires 0 <= i < |bs| => bs[|bs| - 1 - i])
  }

  lemma LinkTextSnoc(bs: seq<Octet>, b: Octet)
    ensures LinkText(bs + [b]) == (if bs == [] then "" else LinkText(bs) + ":") + HexOctet(b)
  {
    assert HexOctets(bs + [b]) == HexOctets(bs) + [HexOctet(b)];
    JoinSnoc(HexOctets(bs), HexOctet(b), ':');
  }

  /** `s` shows octet `b` from position `at` on: two lower-case digits that read as `b`. */
  ghost predicate ShowsOctet(s: string, at: nat, b: Octet)
  {
    at + 2 <= |s| && LowerHex(s[at]) && LowerHex(s[at + 1]) && Number(s[at..at + 2], 16) == Some(b)
  }

  /** `s` shows the octets in order: two digits each, with a colon between two octets, and nothing else. */
  ghost predicate Shows(s: string, bs: seq<Octet>)
  {
    && |s| == (if bs == [] then 0 else 3 * |bs| - 1)
    && (forall k :: 0 <= k < |bs| ==> ShowsOctet(s, 3 * k, bs[k]))
    && (forall k :: 0 <= k < |bs| - 1 ==> s[3 * k + 2] == ':')
  }

  lemma DigitIsHex(d: nat)
    requires d < 16
    ensures LowerHex(Digit(d)) && DigitValue(Digit(d)) == Some(d) && Digit(d) == "0123456789abcdef"[d]
  {}

  lemma NumberOfTwo(c: char, d: char, x: nat, y: nat)
    requires DigitValue(c) == Some(x) && DigitValue(d) == Some(y)
    ensures Number([c, d], 16) == Some(16 * x + y)
  {
    NumberSnoc([], c, 16);
    NumberSnoc([c], d, 16);
    assert [] + [c] == [c] && [c] + [d] == [c, d];
  }

  lemma HexOctetReads(b: Octet)
    ensures |HexOctet(b)| == 2 && ShowsOctet(HexOctet(b), 0, b)
  {
    var x, y := b / 16, b % 16;
    DigitIsHex(x);
    DigitIsHex(y);
    NumberOfTwo(Digit(x), Digit(y), x, y);
    assert HexOctet(b)[0..2] == [Digit(x), Digit(y)];
  }

  lemma ShowsLater(s: string, t: string, at: nat, b: Octet)
    requires ShowsOctet(s, at, b)
    ensures ShowsOctet(s + t, at, b)
  {
    assert (s + t)[at..at + 2] == s[at..at + 2];
  }

  lemma ShowsBehind(s: string, t: string, b: Octet)
    requires |t| == 2 && ShowsOctet(t, 0, b)
    ensures ShowsOctet(s + t, |s|, b)
  {
    assert (s + t)[|s|..|s| + 2] == t == t[0..2];
  }

  lemma {:induction false} LinkTextShows(bs: seq<Octet>)
    ensures Shows(LinkText(bs), bs)
  {
    if bs != [] {
      var n := |bs| - 1;
      var front, b := bs[..n], bs[n];
      LinkTextShows(front);
      LinkTextSnoc(front, b);
      assert bs == front + [b];
      HexOctetReads(b);
      ShowsSnoc(LinkText(front), front, b);
    }
  }

  lemma ShowsSnoc(s: string, bs: seq<Octet>, b: Octet)
    requires Shows(s, bs) && |HexOctet(b)| == 2 && ShowsOctet(HexOctet(b), 0, b)
    ensures Shows((if bs == [] then "" else s + ":") + HexOctet(b), bs + [b])
  {
    var front := if bs == [] then "" else s + ":";
    var t := front + HexOctet(b);
    assert |front| == 3 * |bs|;
    ShowsBehind(front, HexOctet(b), b);
    forall k | 0 <= k < |bs|
      ensures ShowsOctet(t, 3 * k, bs[k]) && t[3 * k + 2] == ':'
    {
      ShowsLater(s, ":" + HexOctet(b), 3 * k, bs[k]);
      assert s + (":" + HexOctet(b)) == t;
      if k < |bs| - 1 { assert s[3 * k + 2] == ':'; }
    }
  }

  /** The loop of `linkaddr_string`: a colon before every octet but the first. */
  method FormatLink(ep: seq<Octet>) returns (s: string)
    requires ep != []
    ensures s == LinkText(ep) && Shows(s, ep)
  {
    s := HexOctet(ep[0]);
    LinkTextSnoc([], ep[0]);
    assert ep[..1] == [] + [ep[0]];
    for i := 1 to |ep|
      invariant s == LinkText(ep[..i])
    {
      LinkTextSnoc(ep[..i], ep[i]);
      assert ep[..i + 1] == ep[..i] + [ep[i]];
      s := s + ":" + HexOctet(ep[i]);
    }
    assert ep[..|ep|] == ep;
    LinkTextShows(ep);
  }

  /** The loop of `le64addr_string`: from the last octet, a colon after each; the last colon is dropped. */
  method FormatLe64(ep: seq<Octet>) returns (s: string)
    requires ep != []
    ensures s == LinkText(Reverse(ep)) && |s| == 3 * |ep| - 1
    ensures forall k :: 0 <= k < |ep| ==> ShowsOctet(s, 3 * k, ep[|ep| - 1 - k])
    ensures forall k :: 0 <= k < |ep| - 1 ==> s[3 * k + 2] == ':'
  {
    var buf, n := "", |ep|;
    ghost var r := Reverse(ep);
    for i := n downto 0
      invariant buf == if i == n then "" else LinkText(r[..n - i]) + ":"
    {
      LinkTextSnoc(r[..n - 1 - i], ep[i]);
      assert r[..n - i] == r[..n - 1 - i] + [ep[i]];
      buf := buf + HexOctet(ep[i]) + ":";
    }
    assert r[..n] == r;
    s := buf[..|buf| - 1];
    LinkTextShows(r);
    ShowsReverse(s, ep);
  }

  lemma ShowsReverse(s: string, ep: seq<Octet>)
    requires Shows(s, Reverse(ep)) && ep != []
    ensures |s| == 3 * |ep| - 1
    ensures forall k :: 0 <= k < |ep| ==> ShowsOctet(s, 3 * k, ep[|ep| - 1 - k])
    ensures forall k :: 0 <= k < |ep| - 1 ==> s[3 * k + 2] == ':'
  {
    forall k | 0 <= k < |ep|
      ensures ShowsOctet(s, 3 * k, ep[|ep| - 1 - k])
    {
      assert Reverse(ep)[k] == ep[|ep| - 1 - k];
    }
  }

  lemma HexOctetFacts(b: Octet, c: Octet)
    ensures ':' !in HexOctet(b) && (HexOctet(b) == HexOctet(c) ==> b == c)
  {
    DigitInjective(b / 16, c / 16);
    DigitInjective(b % 16, c % 16);
  }

  lemma DigitInjective(d: nat, e: nat)
    requires d < 16 && e < 16
    ensures Digit(d) != ':' && (Digit(d) == Digit(e) ==> d == e)
  {}

  /** Different octets make different texts. */
  lemma LinkTextInjective(a: seq<Octet>, b: seq<Octet>)
    requires a != [] && b != []
    ensures LinkText(a) == LinkText(b) <==> a == b
  {
    forall x | x in a + b
      ensures ':' !in HexOctet(x)
    {
      HexOctetFacts(x, x);
    }
    SplitJoin(HexOctets(a), ':');
    SplitJoin(HexOctets(b), ':');
    if LinkText(a) == LinkText(b) {
      assert HexOctets(a) == HexOctets(b);
      forall i | 0 <= i < |a|
        ensures a[i] == b[i]
      {
        assert HexOctets(a)[i] == HexOctets(b)[i];
        HexOctetFacts(a[i], b[i]);
      }
    }
  }

  // ----- calls of both formatters on one table

  /** A call of `le64addr_string`, always on eight octets, or of `linkaddr_string`. */
  datatype Call = Le64(ep: seq<Octet>) | Link(ep: seq<Octet>)

  /** The text that the call would format by itself. */
  function Fresh(c: Call): (s: string)
  {
    if c.ep == [] then "<empty>" else if c.Le64? then LinkText(Reverse(c.ep)) else LinkText(c.ep)
  }

  /** `s` shows the octets of a call in the order of its formatter. */
  ghost predicate ShownAs(s: string, c: Call)
  {
    if c.ep == [] then s == "<empty>"
    else if c.Le64? then Shows(s, Reverse(c.ep))
    else Shows(s, c.ep)
  }

  lemma FreshShows(c: Call)
    ensures ShownAs(Fresh(c), c)
  {
    LinkTextShows(c.ep);
    LinkTextShows(Reverse(c.ep));
  }

  function OpOf(c: Call): (op: Op<ByteKey>)
    ensures op.Fixed? || op.h < HASHNAMESIZE
  {
    if c.ep == [] then Fixed("<empty>") else Ask(ByteHash(ByteKeyOf(c.ep)), ByteKeyOf(c.ep), Fresh(c))
  }

  function Ops(calls: seq<Call>): (ops: seq<Op<ByteKey>>)
    ensures |ops| == |calls|
  {
    seq(|calls|, i requires 0 <= i < |calls| => OpOf(calls[i]))
  }

  /** No call before the `i`th is on the same octets. */
  ghost predicate IsFirstCall(calls: seq<Call>, i: nat)
    requires i < |calls|
  {
    forall k :: 0 <= k < i ==> calls[k].ep != calls[i].ep
  }

  ghost predicate SameFormatter(a: Call, b: Call)
  {
    a.Le64? <==> b.Le64?
  }

  /** When two calls on the same octets format the same text. */
  lemma FreshAlike(a: Call, b: Call)
    requires a.ep == b.ep
    ensures Fresh(a) == Fresh(b) <==> SameFormatter(a, b) || Reverse(a.ep) == a.ep
  {
    if a.ep != [] {
      LinkTextInjective(a.ep, Reverse(a.ep));
    }
  }

  /** The answer to a call is what the first call on its octets formatted. */
  lemma AnswerIsFirst(calls: seq<Call>, i: nat, j: nat)
    requires i <= j < |calls| && IsFirstCall(calls, i) && calls[i].ep == calls[j].ep
    ensures Answer(Ops(calls), j) == Fresh(calls[i])
  {
    var ops := Ops(calls);
    if calls[i].ep != [] {
      forall k | 0 <= k < i
        ensures !SameEntry(ops[k], ops[i])
      {
        assert calls[k].ep != calls[i].ep;
      }
      FirstWins(ops, i, j);
    }
  }

  /**
    Any sequence of calls of both formatters, from an empty table: the answer
    shows the octets in the order of the first call's formatter.  It is the text
    a call would format by itself if and only if the first call on the
    same octets used the same formatter or the octets read the same backwards.
  */
  method RunLinkNames(t: Tables<ByteKey>, calls: seq<Call>) returns (names: seq<string>)
    requires t.Valid() && Named(t.nodes) && t.heads == HASHNAMESIZE
    requires forall h :: 0 <= h < |t.keys| ==> t.keys[h] == []
    requires forall i :: 0 <= i < |calls| && calls[i].Le64? ==> |calls[i].ep| == 8
    modifies t
    ensures t.Valid() && old(t.handed) <= t.handed && |names| == |calls|
    ensures forall j :: 0 <= j < |calls| ==> names[j] == Answer(Ops(calls), j)
    ensures forall i, j :: 0 <= i <= j < |calls| && IsFirstCall(calls, i) && calls[i].ep == calls[j].ep ==>
              ShownAs(names[j], calls[i])
    ensures forall i, j :: 0 <= i <= j < |calls| && IsFirstCall(calls, i) && calls[i].ep == calls[j].ep ==>
              (names[j] == Fresh(calls[j]) <==>
               SameFormatter(calls[i], calls[j]) || Reverse(calls[j].ep) == calls[j].ep)
  {
    names := t.RunNames(Ops(calls));
    forall i, j | 0 <= i <= j < |calls| && IsFirstCall(calls, i) && calls[i].ep == calls[j].ep
      ensures ShownAs(names[j], calls[i])
      ensures names[j] == Fresh(calls[j]) <==>
              SameFormatter(calls[i], calls[j]) || Reverse(calls[j].ep) == calls[j].ep
    {
      FreshShows(calls[i]);
      AnswerIsFirst(calls, i, j);
      FreshAlike(calls[i], calls[j]);
    }
  }

  /** One formatter after the other on the same eight octets: the second answer is not its fresh text. */
  lemma MixedFormatters() returns (calls: seq<Call>)
    ensures calls == [Le64([1, 2, 3, 4, 5, 6, 7, 8]), Link([1, 2, 3, 4, 5, 6, 7, 8])]
    ensures Answer(Ops(calls), 1) != Fresh(calls[1])
  {
    var ep: seq<Octet> := [1, 2, 3, 4, 5, 6, 7, 8];
    calls := [Le64(ep), Link(ep)];
    assert Reverse(ep)[0] == 8;
    AnswerIsFirst(calls, 0, 1);
    FreshAlike(calls[0], calls[1]);
  }
}
