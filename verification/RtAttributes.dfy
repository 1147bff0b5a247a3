/**
  Netlink route attributes (section 2.2 of RFC 3549): a header of two 16-bit
  fields, length and type, then the payload, padded to four octets.  The
  builder appends attributes to a message; the parser walks arbitrary octets
  and remembers the first attribute of each type.
*/
module RtAttributes {
  import opened Octets

  const HEADER := 4

  /** `RTA_ALIGN` and `NLMSG_ALIGN`. */
  function Align(n: nat): (a: nat)
    ensures n <= a < n + 4
  {
    (n + 3) / 4 * 4
  }

  /** The next multiple of four. */
  lemma AlignMultiple(n: nat)
    ensures n <= Align(n) < n + 4 && Align(n) % 4 == 0
  {}

  /** A 16-bit field in the host's byte order. */
  function PutU16(le: bool, v: Word16): (b: seq<Octet>)
    ensures |b| == 2 && Pair(le, b[0], b[1]) == v
  {
    if le then [v % 256, v / 256] else [v / 256, v % 256]
  }

  function GetU16(le: bool, bytes: seq<Octet>, off: nat): (v: Word16)
    requires off + 2 <= |bytes|
  {
    Pair(le, bytes[off], bytes[off + 1])
  }

  // ----- walking

  /** An attribute as found: where it starts, its length field and its type. */
  datatype Found = Found(off: nat, size: nat, kind: Word16)

  /** `RTA_OK`: a header fits, its length covers it and does not exceed what is left. */
  predicate RtaOk(le: bool, bytes: seq<Octet>, off: nat, len: int)
    requires off + len <= |bytes|
  {
    len >= HEADER && GetU16(le, bytes, off) >= HEADER && GetU16(le, bytes, off) <= len
  }

  /** All attributes the walk visits. */
  function Walk(le: bool, bytes: seq<Octet>, off: nat, len: int): (fs: seq<Found>)
    requires off + len <= |bytes|
    decreases len
  {
    if !RtaOk(le, bytes, off, len) then []
    else
      var size := GetU16(le, bytes, off);
      [Found(off, size, GetU16(le, bytes, off + 2))] + Walk(le, bytes, off + Align(size), len - Align(size))
  }

  /** What is left of the length when the walk stops; anything but 0 is reported. */
  function Rest(le: bool, bytes: seq<Octet>, off: nat, len: int): (rest: int)
    requires off + len <= |bytes|
    decreases len
  {
    if !RtaOk(le, bytes, off, len) then len
    else
      var step := Align(GetU16(le, bytes, off));
      Rest(le, bytes, off + step, len - step)
  }

  /** Attributes that lie wholly between `from` and `to`, one after the other. */
  ghost predicate Inside(fs: seq<Found>, from: int, to: int)
  {
    && (forall k :: 0 <= k < |fs| ==> from <= fs[k].off && HEADER <= fs[k].size && fs[k].off + fs[k].size <= to)
    && (forall j, k :: 0 <= j < k < |fs| ==> fs[j].off + fs[j].size <= fs[k].off)
  }

  lemma InsideCons(f: Found, fs: seq<Found>, next: int, to: int)
    requires Inside(fs, next, to) && HEADER <= f.size && f.off + f.size <= next && f.off + f.size <= to
    ensures Inside([f] + fs, f.off, to)
  {}

  /** One step of the walk. */
  lemma WalkCons(le: bool, bytes: seq<Octet>, off: nat, len: int) returns (f: Found, step: nat)
    requires off + len <= |bytes| && RtaOk(le, bytes, off, len)
    ensures f == Found(off, GetU16(le, bytes, off), GetU16(le, bytes, off + 2))
    ensures HEADER <= f.size <= len && f.size <= step == Align(f.size)
    ensures Walk(le, bytes, off, len) == [f] + Walk(le, bytes, off + step, len - step)
    ensures Rest(le, bytes, off, len) == Rest(le, bytes, off + step, len - step)
  {
    f := Found(off, GetU16(le, bytes, off), GetU16(le, bytes, off + 2));
    step := Align(f.size);
  }

  /** Every attribute lies wholly inside the given length, and they do not overlap. */
  lemma {:induction false} WalkInside(le: bool, bytes: seq<Octet>, off: nat, len: int)
    requires off + len <= |bytes|
    ensures Inside(Walk(le, bytes, off, len), off, off + len)
    decreases len
  {
    if RtaOk(le, bytes, off, len) {
      var f, step := WalkCons(le, bytes, off, len);
      WalkInside(le, bytes, off + step, len - step);
      InsideCons(f, Walk(le, bytes, off + step, len - step), off + step, off + len);
    }
  }

  /** Each step consumes at least a header. */
  lemma {:induction false} WalkCount(le: bool, bytes: seq<Octet>, off: nat, len: int)
    requires off + len <= |bytes|
    ensures HEADER * |Walk(le, bytes, off, len)| <= if len > 0 then len else 0
    decreases len
  {
    if RtaOk(le, bytes, off, len) {
      var f, step := WalkCons(le, bytes, off, len);
      WalkCount(le, bytes, off + step, len - step);
    }
  }

  // ----- the walk without the macros

  /** `f` is what stands at its place, and fits the length that is left there. */
  ghost predicate Stands(le: bool, bytes: seq<Octet>, f: Found, end: int)
  {
    && 0 <= f.off && f.off + 4 <= end <= |bytes|
    && f.size == Pair(le, bytes[f.off], bytes[f.off + 1]) && f.kind == Pair(le, bytes[f.off + 2], bytes[f.off + 3])
    && 4 <= f.size && f.off + f.size <= end
  }

  /** `p` is the first position from `q` on that is a multiple of four away from `start`. */
  ghost predicate NextPlace(start: int, q: int, p: int)
  {
    q <= p < q + 4 && (p - start) % 4 == 0
  }

  /**
    Attributes one behind the other, each padded to a multiple of four, from
    `start` to `stop`.
  */
  ghost predicate Laid(le: bool, bytes: seq<Octet>, fs: seq<Found>, start: int, end: int, stop: int)
    decreases |fs|
  {
    if fs == [] then stop == start
    else
      && fs[0].off == start && Stands(le, bytes, fs[0], end)
      && exists next :: NextPlace(start, start + fs[0].size, next) && Laid(le, bytes, fs[1..], next, end, stop)
  }

  /** Nothing more can be read: no header fits, or its length is too small or too large. */
  ghost predicate Stopped(le: bool, bytes: seq<Octet>, stop: int, end: int)
  {
    || end - stop < 4
    || (0 <= stop && end <= |bytes|
        && (Pair(le, bytes[stop], bytes[stop + 1]) < 4 || Pair(le, bytes[stop], bytes[stop + 1]) > end - stop))
  }

  lemma LaidCons(le: bool, bytes: seq<Octet>, f: Found, fs: seq<Found>, next: int, end: int, stop: int)
    requires Stands(le, bytes, f, end) && NextPlace(f.off, f.off + f.size, next) && Laid(le, bytes, fs, next, end, stop)
    ensures Laid(le, bytes, [f] + fs, f.off, end, stop)
  {
    assert ([f] + fs)[1..] == fs;
  }

  /** The walk visits attributes laid like this, and goes on as long as it can. */
  lemma {:induction false} WalkLaid(le: bool, bytes: seq<Octet>, off: nat, len: int)
    requires off + len <= |bytes|
    ensures var stop := off + len - Rest(le, bytes, off, len);
            && Laid(le, bytes, Walk(le, bytes, off, len), off, off + len, stop)
            && Stopped(le, bytes, stop, off + len)
    decreases len
  {
    if RtaOk(le, bytes, off, len) {
      var f, step := WalkCons(le, bytes, off, len);
      WalkLaid(le, bytes, off + step, len - step);
      AlignMultiple(f.size);
      LaidCons(le, bytes, f, Walk(le, bytes, off + step, len - step), off + step, off + len,
               off + len - Rest(le, bytes, off, len));
    }
  }

  /** Every attribute of such a list starts a multiple of four behind its start. */
  lemma {:induction false} LaidPlaces(le: bool, bytes: seq<Octet>, fs: seq<Found>, start: int, end: int, stop: int, k: nat)
    requires Laid(le, bytes, fs, start, end, stop) && k < |fs|
    ensures (fs[k].off - start) % 4 == 0
    decreases k
  {
    if k > 0 {
      var next :| NextPlace(start, start + fs[0].size, next) && Laid(le, bytes, fs[1..], next, end, stop);
      LaidPlaces(le, bytes, fs[1..], next, end, stop, k - 1);
      FoursAdd(fs[k].off - next, next - start);
    }
  }

  lemma FoursAdd(a: int, b: int)
    requires a % 4 == 0 && b % 4 == 0
    ensures (a + b) % 4 == 0
  {}

  // ----- the parser

  /** The type with the flag bits taken out, `kind & ~flags`, bit by bit. */
  function Masked(kind: nat, flags: nat): (t: nat)
  {
    if kind == 0 then 0
    else (if kind % 2 == 1 && flags % 2 == 0 then 1 else 0) + 2 * Masked(kind / 2, flags / 2)
  }

  lemma {:induction false} NoFlags(kind: nat)
    ensures Masked(kind, 0) == kind
  {
    if kind != 0 { NoFlags(kind / 2); }
  }

  lemma {:induction false} MaskedBits(kind: nat, flags: nat, k: nat)
    ensures BitAt(Masked(kind, flags), k) == (BitAt(kind, k) && !BitAt(flags, k))
    decreases k
  {
    if kind == 0 {
      NoBits(k);
    } else if k > 0 {
      MaskedBits(kind / 2, flags / 2, k - 1);
    }
  }

  /** `t` is `kind` without the bits in `flags`, position by position. */
  ghost predicate TypeIs(kind: nat, flags: nat, t: nat)
  {
    forall k: nat :: BitAt(t, k) == (BitAt(kind, k) && !BitAt(flags, k))
  }

  lemma MaskedExactly(kind: nat, flags: nat, t: nat)
    ensures Masked(kind, flags) == t <==> TypeIs(kind, flags, t)
  {
    forall k: nat
      ensures BitAt(Masked(kind, flags), k) == (BitAt(kind, k) && !BitAt(flags, k))
    {
      MaskedBits(kind, flags, k);
    }
    if TypeIs(kind, flags, t) {
      SameBits(Masked(kind, flags), t);
    }
  }

  /** The table entry for `t` is the first attribute of that type, and is missing if there is none. */
  ghost predicate Chosen(entry: Option<Found>, fs: seq<Found>, t: nat, flags: nat)
  {
    if entry.None? then forall j :: 0 <= j < |fs| ==> !TypeIs(fs[j].kind, flags, t)
    else exists k :: 0 <= k < |fs| && fs[k] == entry.value && TypeIs(fs[k].kind, flags, t)
                     && forall j :: 0 <= j < k ==> !TypeIs(fs[j].kind, flags, t)
  }

  lemma {:induction false} FirstChosen(fs: seq<Found>, t: nat, flags: nat)
    ensures Chosen(First(fs, t, flags), fs, t, flags)
  {
    if fs != [] {
      MaskedExactly(fs[0].kind, flags, t);
      if Masked(fs[0].kind, flags) != t {
        FirstChosen(fs[1..], t, flags);
        assert forall j :: 1 <= j < |fs| ==> fs[j] == fs[1..][j - 1];
        if First(fs, t, flags).Some? {
          var k :| 0 <= k < |fs[1..]| && fs[1..][k] == First(fs, t, flags).value && TypeIs(fs[1..][k].kind, flags, t)
                   && forall j :: 0 <= j < k ==> !TypeIs(fs[1..][j].kind, flags, t);
          assert fs[k + 1] == First(fs, t, flags).value;
        }
      }
    }
  }

  /** The first attribute of a (masked) type, if any. */
  function First(fs: seq<Found>, t: nat, flags: nat): (f: Option<Found>)
  {
    if fs == [] then None
    else if Masked(fs[0].kind, flags) == t then Some(fs[0])
    else First(fs[1..], t, flags)
  }

  lemma {:induction false} FirstSnoc(fs: seq<Found>, f: Found, t: nat, flags: nat)
    ensures First(fs + [f], t, flags) ==
            if First(fs, t, flags).Some? then First(fs, t, flags)
            else if Masked(f.kind, flags) == t then Some(f) else None
    decreases fs
  {
    if fs == [] {
      assert fs + [f] == [f];
    } else {
      assert (fs + [f])[1..] == fs[1..] + [f];
      FirstSnoc(fs[1..], f, t, flags);
    }
  }

  /** The table holds the first attribute of each type among those seen. */
  ghost predicate Records(tb: array<Option<Found>>, seen: seq<Found>, flags: nat)
    reads tb
  {
    forall t :: 0 <= t < tb.Length ==> tb[t] == First(seen, t, flags)
  }

  method Record(tb: array<Option<Found>>, f: Found, flags: nat, ghost seen: seq<Found>)
    requires Records(tb, seen, flags)
    modifies tb
    ensures Records(tb, seen + [f], flags)
  {
    var kind := Masked(f.kind, flags);
    forall t | 0 <= t < tb.Length
      ensures First(seen + [f], t, flags) == if tb[t].Some? then tb[t] else if kind == t then Some(f) else None
    {
      FirstSnoc(seen, f, t, flags);
    }
    if kind < tb.Length && tb[kind].None? {
      tb[kind] := Some(f);
    }
  }

  /**
    `parse_rtattr_flags` on arbitrary octets: it terminates, the table holds
    the first attribute of each type up to `max`, and the remainder is what the
    walk could not use.  The attributes it meets stand one behind the other at
    multiples of four, as long as one can be read.
  */
  method ParseRtattrFlags(le: bool, bytes: seq<Octet>, start: nat, length: int, max: nat, flags: nat)
    returns (tb: array<Option<Found>>, rest: int, ghost met: seq<Found>)
    requires start + length <= |bytes|
    ensures tb.Length == max + 1
    ensures met == Walk(le, bytes, start, length) && Records(tb, met, flags)
    ensures rest == Rest(le, bytes, start, length)
    ensures Laid(le, bytes, met, start, start + length, start + length - rest)
    ensures Stopped(le, bytes, start + length - rest, start + length)
    ensures forall k :: 0 <= k < |met| ==> (met[k].off - start) % 4 == 0
    ensures forall t :: 0 <= t <= max ==> Chosen(tb[t], met, t, flags)
  {
    tb := new Option<Found>[max + 1](_ => None);
    var off: nat, len := start, length;
    ghost var seen: seq<Found> := [];
    while RtaOk(le, bytes, off, len)
      invariant off + len <= |bytes| && Walking(le, bytes, start, length, seen, off, len)
      invariant fresh(tb) && tb.Length == max + 1 && Records(tb, seen, flags)
      decreases len
    {
      WalkStep(le, bytes, start, length, seen, off, len);
      var step := Align(GetU16(le, bytes, off));
      var f := Found(off, GetU16(le, bytes, off), GetU16(le, bytes, off + 2));
      Record(tb, f, flags, seen);
      seen := seen + [f];
      off, len := off + step, len - step;
    }
    rest := len;
    assert seen + [] == seen;
    met := seen;
    WalkLaid(le, bytes, start, length);
    WalkPlaces(le, bytes, start, length);
    RecordsChosen(tb, met, flags);
  }

  lemma WalkPlaces(le: bool, bytes: seq<Octet>, off: nat, len: int)
    requires off + len <= |bytes|
    ensures forall k :: 0 <= k < |Walk(le, bytes, off, len)| ==> (Walk(le, bytes, off, len)[k].off - off) % 4 == 0
  {
    WalkLaid(le, bytes, off, len);
    forall k | 0 <= k < |Walk(le, bytes, off, len)|
      ensures (Walk(le, bytes, off, len)[k].off - off) % 4 == 0
    {
      LaidPlaces(le, bytes, Walk(le, bytes, off, len), off, off + len, off + len - Rest(le, bytes, off, len), k);
    }
  }

  lemma RecordsChosen(tb: array<Option<Found>>, seen: seq<Found>, flags: nat)
    requires Records(tb, seen, flags)
    ensures forall t :: 0 <= t < tb.Length ==> Chosen(tb[t], seen, t, flags)
  {
    forall t | 0 <= t < tb.Length
      ensures Chosen(tb[t], seen, t, flags)
    {
      FirstChosen(seen, t, flags);
    }
  }

  /** After the attributes in `seen` the walk stands at `off` with `len` to go. */
  ghost predicate Walking(le: bool, bytes: seq<Octet>, start: nat, length: int, seen: seq<Found>, off: nat, len: int)
    requires start + length <= |bytes| && off + len <= |bytes|
  {
    && Walk(le, bytes, start, length) == seen + Walk(le, bytes, off, len)
    && Rest(le, bytes, start, length) == Rest(le, bytes, off, len)
  }

  lemma WalkStep(le: bool, bytes: seq<Octet>, start: nat, length: int, seen: seq<Found>, off: nat, len: int)
    requires start + length <= |bytes| && off + len <= |bytes|
    requires Walking(le, bytes, start, length, seen, off, len) && RtaOk(le, bytes, off, len)
    ensures var f := Found(off, GetU16(le, bytes, off), GetU16(le, bytes, off + 2));
            var step := Align(f.size);
            Walking(le, bytes, start, length, seen + [f], off + step, len - step)
  {
    var f := Found(off, GetU16(le, bytes, off), GetU16(le, bytes, off + 2));
    var tail := Walk(le, bytes, off + Align(f.size), len - Align(f.size));
    assert seen + ([f] + tail) == (seen + [f]) + tail;
  }

  // ----- building

  datatype Attribute = Attribute(kind: int, payload: seq<Octet>)

  /** The space an attribute takes in a message. */
  function Space(a: Attribute): (n: nat)
  {
    Align(HEADER + |a.payload|)
  }

  /** `a` stands at `off`, with its length and type cut to 16 bits as the fields cut them. */
  ghost predicate AttributeAt(le: bool, bytes: seq<Octet>, off: nat, a: Attribute)
  {
    && off + Space(a) <= |bytes|
    && GetU16(le, bytes, off) == (HEADER + |a.payload|) % 0x1_0000
    && GetU16(le, bytes, off + 2) == a.kind % 0x1_0000
    && bytes[off + HEADER..off + HEADER + |a.payload|] == a.payload
  }

  /** `attrs` stand one after the other from `off` to `end`. */
  ghost predicate Encodes(le: bool, bytes: seq<Octet>, off: nat, attrs: seq<Attribute>, end: nat)
    decreases |attrs|
  {
    if attrs == [] then off == end <= |bytes|
    else AttributeAt(le, bytes, off, attrs[0]) && Encodes(le, bytes, off + Space(attrs[0]), attrs[1..], end)
  }

  lemma {:induction false} EncodesBounds(le: bool, bytes: seq<Octet>, off: nat, attrs: seq<Attribute>, end: nat)
    requires Encodes(le, bytes, off, attrs, end)
    ensures off <= end <= |bytes|
    decreases |attrs|
  {
    if attrs != [] {
      EncodesBounds(le, bytes, off + Space(attrs[0]), attrs[1..], end);
    }
  }

  lemma AttributeKept(le: bool, bytes: seq<Octet>, bytes': seq<Octet>, off: nat, a: Attribute, end: nat)
    requires AttributeAt(le, bytes, off, a) && off + Space(a) <= end <= |bytes| <= |bytes'|
    requires bytes'[..end] == bytes[..end]
    ensures AttributeAt(le, bytes', off, a)
  {
    var lo, hi := off + HEADER, off + HEADER + |a.payload|;
    assert lo <= hi <= end;
    assert bytes'[lo..hi] == bytes'[..end][lo..hi] && bytes[lo..hi] == bytes[..end][lo..hi];
    assert forall k :: off <= k < off + 4 ==> bytes'[k] == bytes'[..end][k] && bytes[k] == bytes[..end][k];
  }

  /** Writing beyond `end` and placing an attribute at `end` extends the list by it. */
  lemma {:induction false} EncodesSnoc(le: bool, bytes: seq<Octet>, bytes': seq<Octet>, off: nat,
                                       attrs: seq<Attribute>, end: nat, a: Attribute)
    requires Encodes(le, bytes, off, attrs, end)
    requires end <= |bytes| <= |bytes'| && bytes'[..end] == bytes[..end]
    requires AttributeAt(le, bytes', end, a)
    ensures Encodes(le, bytes', off, attrs + [a], end + Space(a))
    decreases |attrs|
  {
    if attrs == [] {
      assert attrs + [a] == [a];
    } else {
      EncodesBounds(le, bytes, off + Space(attrs[0]), attrs[1..], end);
      AttributeKept(le, bytes, bytes', off, attrs[0], end);
      EncodesSnoc(le, bytes, bytes', off + Space(attrs[0]), attrs[1..], end, a);
      assert (attrs + [a])[0] == attrs[0] && (attrs + [a])[1..] == attrs[1..] + [a];
    }
  }

  /** A message under construction: its buffer and the length in its header. */
  class Message {
    const le: bool
    const buf: array<Octet>
    var nlmsgLen: nat
    ghost const start: nat
    ghost var attrs: seq<Attribute>

    ghost predicate Valid()
      reads this, buf
    {
      Encodes(le, buf[..], start, attrs, Align(nlmsgLen))
    }

    /** A message whose fixed part ends at `fixedLen`; attributes begin at the next multiple of four. */
    constructor (le: bool, buf: array<Octet>, fixedLen: nat)
      requires Align(fixedLen) <= buf.Length
      ensures Valid() && attrs == [] && nlmsgLen == fixedLen && start == Align(fixedLen)
      ensures this.buf == buf && this.le == le
    {
      this.le, this.buf, nlmsgLen, start, attrs := le, buf, fixedLen, Align(fixedLen), [];
    }

    /**
      `addattr_l`: refuse what does not fit, else append header and payload at
      the aligned tail.  The new length is a multiple of four, and nothing but
      the header and the payload is written.
    */
    method AddAttr(maxlen: int, kind: int, data: seq<Octet>) returns (r: int, ghost tail: nat)
      requires Valid() && maxlen <= buf.Length
      modifies this`nlmsgLen, this`attrs, buf
      ensures Valid()
      ensures r == if Align(old(nlmsgLen)) + Align(HEADER + |data|) > maxlen then -1 else 0
      ensures r != 0 ==> nlmsgLen == old(nlmsgLen) && attrs == old(attrs) && buf[..] == old(buf[..])
      ensures r == 0 ==> attrs == old(attrs) + [Attribute(kind, data)]
      ensures r == 0 ==>
                && old(nlmsgLen) <= tail < old(nlmsgLen) + 4 && tail % 4 == 0
                && tail + 4 + |data| <= nlmsgLen < tail + 4 + |data| + 4 && nlmsgLen % 4 == 0
                && nlmsgLen <= maxlen && Written(le, old(buf[..]), buf[..], tail, kind, data)
    {
      var len := HEADER + |data|;
      tail := Align(nlmsgLen);
      if Align(nlmsgLen) + Align(len) > maxlen {
        return -1, tail;
      }
      AlignMultiple(nlmsgLen);
      AlignMultiple(len);
      FoursAdd(Align(nlmsgLen), Align(len));
      Store(kind, data);
      r := 0;
    }

    /** The part of `addattr_l` after the bound has been checked. */
    method Store(kind: int, data: seq<Octet>)
      requires Valid() && Align(nlmsgLen) + Align(HEADER + |data|) <= buf.Length
      modifies this`nlmsgLen, this`attrs, buf
      ensures Valid() && attrs == old(attrs) + [Attribute(kind, data)]
      ensures nlmsgLen == Align(old(nlmsgLen)) + Align(HEADER + |data|)
      ensures Written(le, old(buf[..]), buf[..], Align(old(nlmsgLen)), kind, data)
    {
      var tail := Align(nlmsgLen);
      ghost var before := buf[..];
      var a := Attribute(kind, data);
      WriteAttribute(le, buf, tail, kind, data);
      ghost var after := buf[..];
      Stored(le, before, after, start, attrs, nlmsgLen, a);
      nlmsgLen := tail + Space(a);
      attrs := attrs + [a];
    }
  }

  /** Header and payload of an attribute have been written at `at`, and nothing else. */
  ghost predicate Written(le: bool, before: seq<Octet>, after: seq<Octet>, at: nat, kind: int, data: seq<Octet>)
  {
    && |before| == |after| && at + 4 + |data| <= |after|
    && after[..at] == before[..at] && after[at + 4 + |data|..] == before[at + 4 + |data|..]
    && Pair(le, after[at], after[at + 1]) == (4 + |data|) % 0x1_0000
    && Pair(le, after[at + 2], after[at + 3]) == kind % 0x1_0000
    && after[at + 4..at + 4 + |data|] == data
  }

  lemma {:induction false} Stored(le: bool, before: seq<Octet>, after: seq<Octet>, start: nat, attrs: seq<Attribute>,
                                  n: nat, a: Attribute)
    requires Encodes(le, before, start, attrs, Align(n)) && |before| == |after|
    requires Align(n) <= |before| && after[..Align(n)] == before[..Align(n)] && AttributeAt(le, after, Align(n), a)
    ensures Encodes(le, after, start, attrs + [a], Align(Align(n) + Space(a)))
  {
    EncodesSnoc(le, before, after, start, attrs, Align(n), a);
    AlignedSum(n, HEADER + |a.payload|);
  }

  lemma AlignedSum(a: nat, b: nat)
    ensures Align(Align(a) + Align(b)) == Align(a) + Align(b)
  {}

  /** Store a 16-bit field; nothing else changes. */
  method WriteU16(le: bool, buf: array<Octet>, at: nat, v: Word16)
    requires at + 2 <= buf.Length
    modifies buf
    ensures buf[..] == old(buf[..at]) + PutU16(le, v) + old(buf[at + 2..])
  {
    var b := PutU16(le, v);
    buf[at], buf[at + 1] := b[0], b[1];
  }

  /** Copy a payload; nothing else changes. */
  method WritePayload(buf: array<Octet>, at: nat, data: seq<Octet>)
    requires at + |data| <= buf.Length
    modifies buf
    ensures buf[..] == old(buf[..at]) + data + old(buf[at + |data|..])
  {
    for k := 0 to |data|
      invariant forall m :: 0 <= m < buf.Length ==>
                  buf[m] == if at <= m < at + k then data[m - at] else old(buf[m])
    {
      buf[at + k] := data[k];
    }
  }

  /** Three writes in a row make the attribute. */
  lemma ThreeWrites(le: bool, b0: seq<Octet>, b1: seq<Octet>, b2: seq<Octet>, b3: seq<Octet>, at: nat, kind: int, data: seq<Octet>)
    requires at + 4 + |data| <= |b0|
    requires b1 == b0[..at] + PutU16(le, (4 + |data|) % 0x1_0000) + b0[at + 2..]
    requires b2 == b1[..at + 2] + PutU16(le, kind % 0x1_0000) + b1[at + 4..]
    requires b3 == b2[..at + 4] + data + b2[at + 4 + |data|..]
    ensures Written(le, b0, b3, at, kind, data)
  {
    var size, tag := PutU16(le, (4 + |data|) % 0x1_0000), PutU16(le, kind % 0x1_0000);
    assert b2 == b0[..at] + size + tag + b0[at + 4..];
    assert b3 == b0[..at] + size + tag + data + b0[at + 4 + |data|..];
  }

  /** Store header and payload at `tail`; nothing else changes. */
  method WriteAttribute(le: bool, buf: array<Octet>, tail: nat, kind: int, data: seq<Octet>)
    requires tail + Align(HEADER + |data|) <= buf.Length
    modifies buf
    ensures Written(le, old(buf[..]), buf[..], tail, kind, data)
    ensures AttributeAt(le, buf[..], tail, Attribute(kind, data))
  {
    ghost var b0 := buf[..];
    WriteU16(le, buf, tail, (HEADER + |data|) % 0x1_0000);
    ghost var b1 := buf[..];
    WriteU16(le, buf, tail + 2, kind % 0x1_0000);
    ghost var b2 := buf[..];
    WritePayload(buf, tail + HEADER, data);
    ThreeWrites(le, b0, b1, b2, buf[..], tail, kind, data);
  }

  // ----- what is built parses back

  /** Length and type fit the 16-bit header fields. */
  predicate Representable(a: Attribute)
  {
    HEADER + |a.payload| < 0x1_0000 && 0 <= a.kind < 0x1_0000
  }

  /** `f` is `a`: same type, same length, and the very payload. */
  ghost predicate Is(bytes: seq<Octet>, f: Found, a: Attribute)
  {
    && f.kind == a.kind && f.size == HEADER + |a.payload|
    && f.off + f.size <= |bytes| && bytes[f.off + HEADER..f.off + f.size] == a.payload
  }

  ghost predicate Matches(bytes: seq<Octet>, fs: seq<Found>, attrs: seq<Attribute>)
  {
    |fs| == |attrs| && forall k :: 0 <= k < |fs| ==> Is(bytes, fs[k], attrs[k])
  }

  lemma MatchesCons(bytes: seq<Octet>, f: Found, fs: seq<Found>, a: Attribute, attrs: seq<Attribute>)
    requires Is(bytes, f, a) && Matches(bytes, fs, attrs)
    ensures Matches(bytes, [f] + fs, [a] + attrs)
  {}

  /** The walk steps over one attribute that was built. */
  lemma WalkBuilt(le: bool, bytes: seq<Octet>, off: nat, a: Attribute, len: nat) returns (f: Found)
    requires off + len <= |bytes| && Space(a) <= len
    requires AttributeAt(le, bytes, off, a) && Representable(a)
    ensures Is(bytes, f, a)
    ensures Walk(le, bytes, off, len) == [f] + Walk(le, bytes, off + Space(a), len - Space(a))
    ensures Rest(le, bytes, off, len) == Rest(le, bytes, off + Space(a), len - Space(a))
  {
    assert (HEADER + |a.payload|) % 0x1_0000 == HEADER + |a.payload| && a.kind % 0x1_0000 == a.kind;
    var step;
    f, step := WalkCons(le, bytes, off, len);
  }

  /** The walk over what was built, with its end given as a length. */
  ghost predicate WalksTo(le: bool, bytes: seq<Octet>, off: nat, len: nat, attrs: seq<Attribute>)
    requires off + len <= |bytes|
  {
    Matches(bytes, Walk(le, bytes, off, len), attrs) && Rest(le, bytes, off, len) == 0
  }

  lemma WalksToCons(le: bool, bytes: seq<Octet>, off: nat, len: nat, a: Attribute, attrs: seq<Attribute>)
    requires off + len <= |bytes| && Space(a) <= len
    requires AttributeAt(le, bytes, off, a) && Representable(a)
    requires WalksTo(le, bytes, off + Space(a), len - Space(a), attrs)
    ensures WalksTo(le, bytes, off, len, [a] + attrs)
  {
    var f := WalkBuilt(le, bytes, off, a, len);
    MatchesCons(bytes, f, Walk(le, bytes, off + Space(a), len - Space(a)), a, attrs);
  }

  lemma WalksToNil(le: bool, bytes: seq<Octet>, off: nat)
    requires off <= |bytes|
    ensures WalksTo(le, bytes, off, 0, [])
  {}

  /** Walking what was built finds each attribute in order and nothing is left over. */
  lemma {:induction false} BuiltWalks(le: bool, bytes: seq<Octet>, off: nat, attrs: seq<Attribute>, len: nat)
    requires off + len <= |bytes| && Encodes(le, bytes, off, attrs, off + len)
    requires forall k :: 0 <= k < |attrs| ==> Representable(attrs[k])
    ensures WalksTo(le, bytes, off, len, attrs)
    decreases |attrs|
  {
    if attrs == [] {
      WalksToNil(le, bytes, off);
    } else {
      var a, rest := attrs[0], attrs[1..];
      var next := off + Space(a);
      assert attrs == [a] + rest;
      EncodesBounds(le, bytes, next, rest, off + len);
      BuiltWalks(le, bytes, next, rest, len - Space(a));
      WalksToCons(le, bytes, off, len, a, rest);
    }
  }

  /** The round trip holds exactly for lists of attributes that fit their header fields. */
  lemma RoundTrip(le: bool, bytes: seq<Octet>, off: nat, attrs: seq<Attribute>, end: nat)
    requires Encodes(le, bytes, off, attrs, end) && end - off >= 0 && end <= |bytes|
    ensures Matches(bytes, Walk(le, bytes, off, end - off), attrs)
            <==> forall k :: 0 <= k < |attrs| ==> Representable(attrs[k])
  {
    if forall k :: 0 <= k < |attrs| ==> Representable(attrs[k]) {
      BuiltWalks(le, bytes, off, attrs, end - off);
    }
    if Matches(bytes, Walk(le, bytes, off, end - off), attrs) {
      FoundFits(le, bytes, off, end - off, attrs);
    }
  }

  /** An attribute whose type does not fit is read back under another type. */
  lemma WideTypeLost() returns (bytes: seq<Octet>, a: Attribute)
    ensures a == Attribute(0x1_0000, []) && Encodes(true, bytes, 0, [a], |bytes|)
    ensures Walk(true, bytes, 0, |bytes|) == [Found(0, HEADER, 0)] && Rest(true, bytes, 0, |bytes|) == 0
    ensures !Matches(bytes, Walk(true, bytes, 0, |bytes|), [a])
  {
    bytes, a := [4, 0, 0, 0], Attribute(0x1_0000, []);
    assert bytes[4..4] == [];
    assert AttributeAt(true, bytes, 0, a);
    assert Walk(true, bytes, 4, 0) == [];
  }

  /** An attribute with 65532 octets of payload has length 0 in its header, and the walk stops at it. */
  lemma LongPayloadStops(le: bool, bytes: seq<Octet>, off: nat, a: Attribute, len: int)
    requires AttributeAt(le, bytes, off, a) && |a.payload| == 65532 && off + len <= |bytes|
    ensures Walk(le, bytes, off, len) == [] && Rest(le, bytes, off, len) == len
  {}

  /** A message that was built and parses to nothing. */
  lemma LongPayloadLost(le: bool) returns (bytes: seq<Octet>, a: Attribute)
    ensures |a.payload| == 65532 && Encodes(le, bytes, 0, [a], |bytes|)
    ensures Walk(le, bytes, 0, |bytes|) == [] && Rest(le, bytes, 0, |bytes|) == |bytes| == 65536
  {
    bytes, a := seq(65536, _ => 0), Attribute(0, seq(65532, _ => 0));
    assert bytes[HEADER..HEADER + 65532] == a.payload;
    assert AttributeAt(le, bytes, 0, a);
    assert Encodes(le, bytes, Space(a), [], |bytes|);
    LongPayloadStops(le, bytes, 0, a, 65536);
  }

  /** Whatever a walk finds fits its header fields. */
  lemma FoundFits(le: bool, bytes: seq<Octet>, off: nat, len: int, attrs: seq<Attribute>)
    requires off + len <= |bytes| && Matches(bytes, Walk(le, bytes, off, len), attrs)
    ensures forall k :: 0 <= k < |attrs| ==> Representable(attrs[k])
  {
    forall k | 0 <= k < |attrs|
      ensures Representable(attrs[k])
    {
      SizesAreWords(le, bytes, off, len, k);
      assert Is(bytes, Walk(le, bytes, off, len)[k], attrs[k]);
    }
  }

  lemma {:induction false} SizesAreWords(le: bool, bytes: seq<Octet>, off: nat, len: int, k: nat)
    requires off + len <= |bytes| && k < |Walk(le, bytes, off, len)|
    ensures Walk(le, bytes, off, len)[k].size < 0x1_0000
    decreases len
  {
    var step := Align(GetU16(le, bytes, off));
    if k > 0 { SizesAreWords(le, bytes, off + step, len - step, k - 1); }
  }

  /** The first attribute of a type in the list that was appended. */
  function FirstOf(attrs: seq<Attribute>, t: int): (a: Option<Attribute>)
  {
    if attrs == [] then None else if attrs[0].kind == t then Some(attrs[0]) else FirstOf(attrs[1..], t)
  }

  /** With no flags, the table entry of each type is the first attribute appended with it. */
  lemma {:induction false} EntriesMatch(bytes: seq<Octet>, fs: seq<Found>, attrs: seq<Attribute>, t: nat)
    requires Matches(bytes, fs, attrs)
    ensures First(fs, t, 0).Some? <==> FirstOf(attrs, t).Some?
    ensures First(fs, t, 0).Some? ==> Is(bytes, First(fs, t, 0).value, FirstOf(attrs, t).value)
    decreases |fs|
  {
    if fs != [] {
      assert Is(bytes, fs[0], attrs[0]);
      NoFlags(fs[0].kind);
      forall k | 0 <= k < |fs[1..]|
        ensures Is(bytes, fs[1..][k], attrs[1..][k])
      {
        assert Is(bytes, fs[k + 1], attrs[k + 1]);
      }
      EntriesMatch(bytes, fs[1..], attrs[1..], t);
    }
  }

  /** What the first attribute of a type is like: of that type, and inside the given length. */
  lemma FirstInside(le: bool, bytes: seq<Octet>, off: nat, len: int, t: nat)
    requires off + len <= |bytes| && First(Walk(le, bytes, off, len), t, 0).Some?
    ensures var f := First(Walk(le, bytes, off, len), t, 0).value;
            f.kind == t && off <= f.off && HEADER <= f.size && f.off + f.size <= off + len
  {
    WalkInside(le, bytes, off, len);
    FirstIn(Walk(le, bytes, off, len), t);
  }

  lemma {:induction false} FirstIn(fs: seq<Found>, t: nat)
    requires First(fs, t, 0).Some?
    ensures First(fs, t, 0).value in fs && First(fs, t, 0).value.kind == t
  {
    NoFlags(fs[0].kind);
    if fs[0].kind != t {
      FirstIn(fs[1..], t);
    }
  }

  /** The table entry found is the attribute, or both are missing. */
  ghost predicate SameEntry(bytes: seq<Octet>, found: Option<Found>, a: Option<Attribute>)
  {
    if found.Some? then a.Some? && Is(bytes, found.value, a.value) else a.None?
  }

  lemma BuiltEntry(le: bool, bytes: seq<Octet>, off: nat, attrs: seq<Attribute>, len: nat, t: nat)
    requires off + len <= |bytes| && Encodes(le, bytes, off, attrs, off + len)
    requires forall k :: 0 <= k < |attrs| ==> Representable(attrs[k])
    ensures Rest(le, bytes, off, len) == 0
    ensures SameEntry(bytes, First(Walk(le, bytes, off, len), t, 0), FirstOf(attrs, t))
  {
    BuiltWalks(le, bytes, off, attrs, len);
    EntriesMatch(bytes, Walk(le, bytes, off, len), attrs, t);
  }

  /**
    `parse_rtattr`: every entry lies wholly inside the given length; of a list
    of attributes that was built and fits its header fields, each entry is the
    first attribute appended with its type, and nothing is left over.
  */
  method ParseRtattr(le: bool, bytes: seq<Octet>, start: nat, length: int, max: nat, ghost attrs: seq<Attribute>)
    returns (tb: array<Option<Found>>, rest: int)
    requires start + length <= |bytes|
    ensures tb.Length == max + 1
    ensures forall t :: 0 <= t <= max && tb[t].Some? ==>
              && tb[t].value.kind == t && start <= tb[t].value.off
              && HEADER <= tb[t].value.size && tb[t].value.off + tb[t].value.size <= start + length
    ensures 0 <= length && Encodes(le, bytes, start, attrs, start + length)
            && (forall k :: 0 <= k < |attrs| ==> Representable(attrs[k])) ==>
              rest == 0 && forall t :: 0 <= t <= max ==> SameEntry(bytes, tb[t], FirstOf(attrs, t))
  {
    ghost var met;
    tb, rest, met := ParseRtattrFlags(le, bytes, start, length, max, 0);
    ghost var built := 0 <= length && Encodes(le, bytes, start, attrs, start + length)
                       && (forall k :: 0 <= k < |attrs| ==> Representable(attrs[k]));
    forall t | 0 <= t <= max
      ensures tb[t].Some? ==>
                && tb[t].value.kind == t && start <= tb[t].value.off
                && HEADER <= tb[t].value.size && tb[t].value.off + tb[t].value.size <= start + length
      ensures built ==> rest == 0 && SameEntry(bytes, tb[t], FirstOf(attrs, t))
    {
      if tb[t].Some? {
        FirstInside(le, bytes, start, length, t);
      }
      if built {
        BuiltEntry(le, bytes, start, attrs, length, t);
      }
    }
    if built {
      BuiltEntry(le, bytes, start, attrs, length, 0);
    }
  }
}
