/**
  Reading little-endian fields from a buffer, each at its natural alignment
  relative to the start of the buffer.
*/
module FieldReader {
  import opened Octets

  const SIZE_LIMIT := 0x1_0000_0000_0000_0000

  /** No object is larger than the largest pointer difference. */
  const OBJECT_LIMIT := 0x8000_0000_0000_0000

  type Width = w: nat | w == 1 || w == 2 || w == 4 || w == 8 witness 1

  // ----- the layout that a writer of aligned fields produces

  /** The octets of a number, least significant first. */
  function LeOctets(n: nat, v: nat): (s: seq<Octet>)
    ensures |s| == n
  {
    if n == 0 then [] else [v % 256] + LeOctets(n - 1, v / 256)
  }

  function LeValue(s: seq<Octet>): (v: nat)
  {
    if s == [] then 0 else s[0] + 256 * LeValue(s[1..])
  }

  function Power256(n: nat): (p: nat)
  {
    if n == 0 then 1 else 256 * Power256(n - 1)
  }

  lemma {:induction false} LeRoundTrip(n: nat, v: nat)
    requires v < Power256(n)
    ensures LeValue(LeOctets(n, v)) == v
  {
    if n > 0 {
      LeRoundTrip(n - 1, v / 256);
      assert LeOctets(n, v)[1..] == LeOctets(n - 1, v / 256);
    }
  }

  datatype Field = Field(width: Width, value: nat)
  {
    predicate Valid() { value < Power256(width) }
  }

  /** `p` is the first multiple of `width` from `pos` on. */
  ghost predicate Boundary(pos: nat, width: nat, p: nat)
  {
    width > 0 && pos <= p < pos + width && p % width == 0
  }

  lemma AtLeast(w: nat, d: int)
    requires d >= 1
    ensures w * d >= w
  {}

  lemma Difference(w: nat, i: int, j: int)
    ensures w * (j - i) == w * j - w * i
  {}

  /** Multiples of `w` closer together than `w` are equal. */
  lemma MultiplesApart(w: nat, i: int, j: int)
    requires w * i - w * j < w && w * j - w * i < w
    ensures i == j
  {
    if i < j {
      AtLeast(w, j - i);
      Difference(w, i, j);
    } else if j < i {
      AtLeast(w, i - j);
      Difference(w, j, i);
    }
  }

  lemma MultipleRemainder(w: nat, i: nat)
    requires w > 0
    ensures w * i % w == 0
  {
    var q, r := w * i / w, w * i % w;
    assert w * i == w * q + r;
    MultiplesApart(w, i, q);
  }

  lemma BoundaryUnique(pos: nat, width: nat, p: nat, q: nat)
    requires Boundary(pos, width, p) && Boundary(pos, width, q)
    ensures p == q
  {
    assert p == width * (p / width) && q == width * (q / width);
    MultiplesApart(width, p / width, q / width);
  }

  lemma NextMultiple(pos: nat, width: nat)
    requires width > 0 && pos % width != 0
    ensures Boundary(pos, width, pos + (width - pos % width))
  {
    var q := pos / width;
    assert pos == width * q + pos % width;
    assert pos + (width - pos % width) == width * q + width == width * (q + 1);
    MultipleRemainder(width, q + 1);
  }

  function Aligned(pos: nat, width: Width): (p: nat)
    ensures pos <= p
  {
    if width == 1 then pos
    else if width == 2 then pos + pos % 2
    else if width == 4 then pos + (4 - pos % 4) % 4
    else pos + (8 - pos % 8) % 8
  }

  lemma AlignedBoundary(pos: nat, width: Width)
    ensures Boundary(pos, width, Aligned(pos, width))
  {
    AlignedTo2(pos);
    AlignedTo4(pos);
    AlignedTo8(pos);
  }

  lemma AlignedTo2(pos: nat)
    ensures (pos + pos % 2) % 2 == 0
  {}

  lemma AlignedTo4(pos: nat)
    ensures (pos + (4 - pos % 4) % 4) % 4 == 0
  {}

  lemma AlignedTo8(pos: nat)
    ensures (pos + (8 - pos % 8) % 8) % 8 == 0
  {}

  /** Append fields to `out`, with arbitrary octets as padding. */
  function Pack(out: seq<Octet>, fields: seq<Field>, fill: nat -> Octet): (s: seq<Octet>)
    ensures |out| <= |s| && s[..|out|] == out
    decreases |fields|
  {
    if fields == [] then out
    else Pack(Placed(out, fields[0], fill), fields[1..], fill)
  }

  function Placed(out: seq<Octet>, f: Field, fill: nat -> Octet): (s: seq<Octet>)
    ensures |s| == Aligned(|out|, f.width) + f.width && s[..|out|] == out
    ensures s[Aligned(|out|, f.width)..] == LeOctets(f.width, f.value)
  {
    out + seq(Aligned(|out|, f.width) - |out|, i requires i >= 0 => fill(|out| + i)) + LeOctets(f.width, f.value)
  }

  lemma {:induction false} PackPrefix(out: seq<Octet>, fields: seq<Field>, i: nat, fill: nat -> Octet)
    requires i <= |fields|
    ensures Pack(out, fields[..i], fill) <= Pack(out, fields, fill)
    decreases |fields|
  {
    if i > 0 {
      PackPrefix(Placed(out, fields[0], fill), fields[1..], i - 1, fill);
      assert fields[..i][1..] == fields[1..][..i - 1];
    }
  }

  lemma {:induction false} PackSnoc(out: seq<Octet>, fields: seq<Field>, i: nat, fill: nat -> Octet)
    requires i < |fields|
    ensures Pack(out, fields[..i + 1], fill) == Placed(Pack(out, fields[..i], fill), fields[i], fill)
    decreases |fields|
  {
    if i > 0 {
      PackSnoc(Placed(out, fields[0], fill), fields[1..], i - 1, fill);
      assert fields[..i][1..] == fields[1..][..i - 1] && fields[..i + 1][1..] == fields[1..][..i];
    } else {
      assert fields[..1][1..] == [] && fields[..0] == [];
    }
  }

  /** Field `i` of a packed buffer: where it stands and what is there. */
  lemma PackedField(fields: seq<Field>, i: nat, fill: nat -> Octet)
    requires i < |fields| && fields[i].Valid()
    ensures var at := Aligned(|Pack([], fields[..i], fill)|, fields[i].width);
            var whole := Pack([], fields[..i + 1], fill);
            |whole| == at + fields[i].width && LeValue(whole[at..]) == fields[i].value
  {
    PackSnoc([], fields, i, fill);
    LeRoundTrip(fields[i].width, fields[i].value);
  }

  /** Where the first `i` packed fields end. */
  ghost function End(fields: seq<Field>, fill: nat -> Octet, i: nat): (n: nat)
    requires i <= |fields|
  {
    |Pack([], fields[..i], fill)|
  }

  /** The buffer is the packed fields cut off at some point, or followed by more. */
  ghost predicate Packed(buf: seq<Octet>, fields: seq<Field>, fill: nat -> Octet)
  {
    buf <= Pack([], fields, fill) || Pack([], fields, fill) <= buf
  }

  lemma SameUpTo(buf: seq<Octet>, whole: seq<Octet>, all: seq<Octet>)
    requires whole <= all && (buf <= all || all <= buf) && |whole| <= |buf|
    ensures whole <= buf
  {}

  lemma {:induction false} FieldInBuffer(buf: seq<Octet>, fields: seq<Field>, i: nat, fill: nat -> Octet)
    requires i < |fields| && fields[i].Valid() && Packed(buf, fields, fill)
    ensures var at := Aligned(End(fields, fill, i), fields[i].width);
            && End(fields, fill, i + 1) == at + fields[i].width
            && (at + fields[i].width <= |buf| ==> LeValue(buf[at..at + fields[i].width]) == fields[i].value)
  {
    PackedField(fields, i, fill);
    PackPrefix([], fields, i + 1, fill);
    var whole := Pack([], fields[..i + 1], fill);
    var at := Aligned(End(fields, fill, i), fields[i].width);
    if at + fields[i].width <= |buf| {
      SameUpTo(buf, whole, Pack([], fields, fill));
      assert buf[at..at + fields[i].width] == whole[at..];
    }
  }

  // ----- the reader

  class Reader {
    const buf: seq<Octet>
    var next: nat

    ghost predicate Valid()
      reads this
    {
      next <= |buf| < OBJECT_LIMIT
    }

    constructor (buffer: seq<Octet>)
      requires |buffer| < OBJECT_LIMIT
      ensures Valid() && buf == buffer && next == 0
    {
      buf, next := buffer, 0;
    }

    /** The first boundary at or after the current position. */
    method NextBoundary(alignment: nat) returns (p: nat)
      requires alignment > 0
      ensures Boundary(next, alignment, p)
    {
      var misalignment := next % alignment;
      if misalignment == 0 {
        return next;
      }
      NextMultiple(next, alignment);
      p := next + (alignment - misalignment);
    }

    /** The aligned position, or a failure when the field does not fit there. */
    method AlignAndReserve(width: Width) returns (ok: bool, p: nat)
      requires Valid()
      ensures p == Aligned(next, width) && ok == (p + width <= |buf|)
    {
      p := NextBoundary(width);
      AlignedBoundary(next, width);
      BoundaryUnique(next, width, p, Aligned(next, width));
      ok := !((p + width) % SIZE_LIMIT > |buf|);
    }

    /**
      Skipping: the position is computed in the machine's size type, so it
      moves on by `toskip` exactly when the result is inside the buffer, or
      wraps around.
    */
    method Advance(toskip: nat) returns (ok: bool)
      requires Valid() && toskip < SIZE_LIMIT
      modifies this
      ensures Valid()
      ensures ok == (old(next) + toskip <= |buf| || old(next) + toskip >= SIZE_LIMIT)
      ensures next == if !ok then old(next)
                      else if old(next) + toskip <= |buf| then old(next) + toskip
                      else old(next) + toskip - SIZE_LIMIT
    {
      ok := !((next + toskip) % SIZE_LIMIT > |buf|);
      if ok {
        next := (next + toskip) % SIZE_LIMIT;
      }
    }

    /** One field; the position stays where it was when the field does not fit. */
    method Read(width: Width) returns (ok: bool, value: nat)
      requires Valid()
      modifies this
      ensures Valid()
      ensures ok == (Aligned(old(next), width) + width <= |buf|)
      ensures !ok ==> next == old(next)
      ensures ok ==> next == Aligned(old(next), width) + width
                     && value == LeValue(buf[Aligned(old(next), width)..next])
    {
      value := 0;
      if width == 1 {
        ok := next < |buf|;
        if ok {
          value := buf[next];
          assert buf[next..next + 1] == [buf[next]];
          next := next + 1;
        }
      } else {
        var p;
        ok, p := AlignAndReserve(width);
        if ok {
          value := LeValue(buf[p..p + width]);
          next := p + width;
        }
      }
    }

    /** The next of a list of packed fields. */
    method ReadNext(width: Width, ghost fields: seq<Field>, ghost i: nat, ghost fill: nat -> Octet)
      returns (ok: bool, value: nat)
      requires Valid() && Packed(buf, fields, fill)
      requires i < |fields| && fields[i].Valid() && width == fields[i].width
      requires next == End(fields, fill, i)
      modifies this
      ensures Valid()
      ensures ok == (End(fields, fill, i + 1) <= |buf|)
      ensures next == if ok then End(fields, fill, i + 1) else old(next)
      ensures ok ==> value == fields[i].value
    {
      FieldInBuffer(buf, fields, i, fill);
      ok, value := Read(width);
    }

    /**
      Reading a list of fields until one fails: from a packed buffer, cut off
      anywhere or not at all, come exactly the fields that are whole.
    */
    method ReadAll(widths: seq<Width>, ghost fields: seq<Field>, ghost fill: nat -> Octet) returns (values: seq<nat>)
      requires Valid() && next == 0 && Packed(buf, fields, fill)
      requires forall i :: 0 <= i < |fields| ==> fields[i].Valid()
      requires |widths| == |fields| && forall i :: 0 <= i < |fields| ==> widths[i] == fields[i].width
      modifies this
      ensures Valid() && |values| <= |fields|
      ensures forall i :: 0 <= i < |values| ==> values[i] == fields[i].value
      ensures next == End(fields, fill, |values|)
      ensures |values| < |fields| ==> End(fields, fill, |values| + 1) > |buf|
    {
      values := [];
      var i := 0;
      while i < |widths|
        invariant i == |values| <= |widths| && Valid()
        invariant forall k :: 0 <= k < i ==> values[k] == fields[k].value
        invariant next == End(fields, fill, i)
      {
        var ok, v := ReadNext(widths[i], fields, i, fill);
        if !ok {
          return;
        }
        values, i := values + [v], i + 1;
      }
    }
  }
}
