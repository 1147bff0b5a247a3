/**
  The scattered-buffer Internet checksum routine of tcpdump.

  A packet arrives as a vector of pieces.  Each piece has a start address of
  either parity and any length.  The routine adds words in the machine's own
  byte order into a 32-bit accumulator, folds carries only now and then, sums
  with exchanged octets while the address is out of step with the stream, and
  carries a half-filled word from one piece to the next.
*/
module InCksum {
  import opened Octets
  import opened OnesComplement

  /** One element of the vector: the parity of its address and its octets. */
  datatype Piece = Piece(odd: bool, data: seq<Octet>)

  function Concat(vec: seq<Piece>): (data: seq<Octet>)
  {
    if vec == [] then [] else Concat(vec[..|vec| - 1]) + vec[|vec| - 1].data
  }

  /** Addition into the 32-bit accumulator, which wraps around. */
  function Add32(sum: nat, w: Word16): (s: nat)
  {
    (sum + w) % TWO32
  }

  /** Split the accumulator into halves, add them, fold the carry once. */
  function Reduce(sum: nat): (s: Word16)
    requires sum < TWO32
  {
    var halves := sum % 0x1_0000 + sum / 0x1_0000;
    if halves > 0xFFFF then halves - 0xFFFF else halves
  }

  /** The largest value the accumulator can hold after `n` octets. */
  function Cap(n: nat): (c: nat)
  {
    0xFFFF * (256 + n / 2)
  }

  /** The stream lengths for which no addition can wrap around. */
  const SAFE_LENGTH := 130562

  /**
    Every addition the routine does: after `n` octets, the last of them in `w`,
    it must stay below the cap.  So it fits a signed 32-bit int for at most
    65025 octets, padding included, and does not wrap for at most 130563.
  */
  method Plus(sum: nat, w: Word16, ghost n: nat) returns (s: nat)
    requires sum + w <= Cap(n)
    ensures s == Add32(sum, w)
    ensures n <= 130562 + 1 ==> s == sum + w < 0x1_0000_0000
    ensures n <= 65024 + 1 ==> s == sum + w < 0x8000_0000
  {
    s := Add32(sum, w);
  }

  /** What the octets of `done` add up to, leaving out a half-filled word. */
  ghost function Settled(le: bool, done: seq<Octet>, pending: bool, c0: Octet): (t: int)
  {
    Total(le, done) - if pending then Weighed(le, 0, c0) else 0
  }

  /**
    What the accumulator means after the octets `done`.  A half-filled word
    waits in `c0` when `pending`; the sum is a byte out of step when `swapped`.
  */
  ghost predicate Carried(le: bool, done: seq<Octet>, sum: nat, pending: bool, swapped: bool, c0: Octet)
  {
    var t := Settled(le, done, pending, c0);
    && pending == (|done| % 2 == 1)
    && (swapped ==> pending)
    && sum <= Cap(|done|) && sum < TWO32
    && 0 <= t && (|done| <= SAFE_LENGTH ==> Means(sum, t, swapped))
  }

  /** The sum stands for `t`, a byte out of step when `swapped`. */
  ghost predicate Means(sum: nat, t: nat, swapped: bool)
  {
    Rep(sum, if swapped then 256 * t else t)
  }

  /** One more word at most raises the cap by its largest value. */
  lemma CapWord(n: nat, sum: nat, w: Word16)
    requires sum <= Cap(n)
    ensures sum + w <= Cap(n + 2) && (n % 2 == 1 ==> sum + w <= Cap(n + 1))
    ensures Add32(sum, w) <= sum + w && Add32(sum, w) < TWO32
    ensures n < SAFE_LENGTH ==> sum + w < TWO32
  {}

  lemma ReduceRep(sum: nat, t: nat)
    requires sum < TWO32 && Rep(sum, t)
    ensures Rep(Reduce(sum), t)
  {
    var hi, lo := sum / 0x1_0000, sum % 0x1_0000;
    RepBy(Reduce(sum), sum, -hi - if lo + hi > 0xFFFF then 1 else 0);
    RepTrans(Reduce(sum), sum, t);
  }

  /** Within the safe length an addition does not wrap, so it keeps the meaning. */
  lemma AddRep(sum: nat, t: nat, w: Word16, v: nat)
    requires Rep(sum, t) && Rep(w, v)
    requires sum + w < TWO32
    ensures Rep(Add32(sum, w), t + v)
  {
    assert Add32(sum, w) == sum + w;
    RepAdd(sum, t, w, v);
  }

  lemma SettledWord(le: bool, done: seq<Octet>, swapped: bool, c0: Octet, a: Octet, b: Octet)
    requires swapped == (|done| % 2 == 1)
    ensures Settled(le, done + [a, b], swapped, c0)
            == Settled(le, done, swapped, c0) + if swapped then Pair(le, b, a) else Pair(le, a, b)
  {
    TotalSnoc(le, done, a);
    TotalSnoc(le, done + [a], b);
    assert done + [a] + [b] == done + [a, b];
  }

  lemma StepReduce(le: bool, done: seq<Octet>, sum: nat, pending: bool, swapped: bool, c0: Octet)
    requires Carried(le, done, sum, pending, swapped, c0)
    ensures Carried(le, done, Reduce(sum), pending, swapped, c0)
  {
    var t := Settled(le, done, pending, c0);
    if |done| <= SAFE_LENGTH {
      ReduceRep(sum, if swapped then 256 * t else t);
    }
  }

  /** The first octet at an odd address is put aside; the sum moves a byte out of step. */
  lemma StepEnterSwapped(le: bool, done: seq<Octet>, sum: nat, c0: Octet, b: Octet)
    requires Carried(le, done, sum, false, false, c0)
    ensures Carried(le, done + [b], Reduce(sum) * 256, true, true, b)
  {
    TotalSnoc(le, done, b);
    if |done| <= SAFE_LENGTH {
      ReduceRep(sum, Total(le, done));
      RepShift(Reduce(sum), Total(le, done));
    }
  }

  /** A second byte shift puts the sum back in step. */
  lemma StepLeaveSwapped(le: bool, done: seq<Octet>, sum: nat, c0: Octet)
    requires Carried(le, done, sum, true, true, c0)
    ensures Carried(le, done, Reduce(sum) * 256, true, false, c0)
  {
    var t := Settled(le, done, true, c0);
    if |done| <= SAFE_LENGTH {
      ReduceRep(sum, 256 * t);
      RepShift(Reduce(sum), 256 * t);
      RepShiftTwice(t);
      RepTrans(Reduce(sum) * 256, 256 * (256 * t), t);
    }
  }

  /** What one more word does to the meaning of the sum, in step or out of step. */
  lemma WordRep(le: bool, sum: nat, t: nat, swapped: bool, a: Octet, b: Octet)
    requires Means(sum, t, swapped) && sum + Pair(le, a, b) < TWO32
    ensures Means(Add32(sum, Pair(le, a, b)), t + (if swapped then Pair(le, b, a) else Pair(le, a, b)), swapped)
  {
    var w := Pair(le, a, b);
    if swapped {
      RepSwapped(le, a, b);
      AddRep(sum, 256 * t, w, 256 * Pair(le, b, a));
    } else {
      RepSame(w);
      AddRep(sum, t, w, w);
    }
  }

  /** A whole word is added, in step or out of step. */
  lemma StepWord(le: bool, done: seq<Octet>, sum: nat, swapped: bool, c0: Octet, a: Octet, b: Octet)
    requires Carried(le, done, sum, swapped, swapped, c0)
    ensures Carried(le, done + [a, b], Add32(sum, Pair(le, a, b)), swapped, swapped, c0)
    ensures sum + Pair(le, a, b) <= Cap(|done| + 2)
  {
    SettledWord(le, done, swapped, c0, a, b);
    CapWord(|done|, sum, Pair(le, a, b));
    if |done| + 2 <= SAFE_LENGTH {
      WordRep(le, sum, Settled(le, done, swapped, c0), swapped, a, b);
    }
  }

  /** The octet that fills the word waiting in `c0`. */
  lemma StepFill(le: bool, done: seq<Octet>, sum: nat, c0: Octet, b: Octet)
    requires Carried(le, done, sum, true, false, c0)
    ensures Carried(le, done + [b], Add32(sum, Pair(le, c0, b)), false, false, c0)
    ensures sum + Pair(le, c0, b) <= Cap(|done| + 1)
  {
    SettledFill(le, done, c0, b);
    CapWord(|done|, sum, Pair(le, c0, b));
    if |done| + 1 <= SAFE_LENGTH {
      WordRep(le, sum, Settled(le, done, true, c0), false, c0, b);
    }
  }

  lemma SettledFill(le: bool, done: seq<Octet>, c0: Octet, b: Octet)
    requires |done| % 2 == 1
    ensures Total(le, done + [b]) == Settled(le, done, true, c0) + Pair(le, c0, b)
  {
    TotalSnoc(le, done, b);
  }

  /** A last odd octet is put aside for the next piece. */
  lemma StepSave(le: bool, done: seq<Octet>, sum: nat, c0: Octet, b: Octet)
    requires Carried(le, done, sum, false, false, c0)
    ensures Carried(le, done + [b], sum, true, false, b)
  {
    TotalSnoc(le, done, b);
  }

  /** Zero padding, the last fold and the complement. */
  method ClosePacket(le: bool, start: nat, pending: bool, c0: Octet, ghost done: seq<Octet>)
    returns (r: Word16)
    requires Carried(le, done, start, pending, false, c0)
    ensures |done| <= SAFE_LENGTH ==> r == Rfc1071(le, done)
  {
    if |done| <= SAFE_LENGTH {
      Finish(le, done, start, pending, c0);
    }
    var sum := start;
    if pending {
      sum := Plus(sum, Pair(le, c0, 0), |done| + 1);
    }
    r := 0xFFFF - Reduce(sum);
  }

  lemma Finish(le: bool, done: seq<Octet>, sum: nat, pending: bool, c0: Octet)
    requires Carried(le, done, sum, pending, false, c0)
    requires |done| <= SAFE_LENGTH
    ensures var s := if pending then Add32(sum, Pair(le, c0, 0)) else sum;
            0xFFFF - Reduce(s) == Rfc1071(le, done)
  {
    var s := if pending then Add32(sum, Pair(le, c0, 0)) else sum;
    if pending {
      CapWord(|done|, sum, Pair(le, c0, 0));
      WordRep(le, sum, Settled(le, done, true, c0), false, c0, 0);
    }
    ReduceRep(s, Total(le, done));
    RfcSumIs(le, done, Reduce(s));
  }

  /** `sum += w[0]; ...; sum += w[count - 1]`, the body of each unrolled loop. */
  method AddWords(le: bool, p: seq<Octet>, w: nat, count: nat, start: nat,
                  ghost done: seq<Octet>, ghost swapped: bool, ghost c0: Octet)
    returns (sum: nat)
    requires w + 2 * count <= |p|
    requires Carried(le, done, start, swapped, swapped, c0)
    ensures Carried(le, done + p[w..w + 2 * count], sum, swapped, swapped, c0)
  {
    sum := start;
    assert done + p[w..w] == done;
    for j := 0 to count
      invariant Carried(le, done + p[w..w + 2 * j], sum, swapped, swapped, c0)
    {
      var a, b := p[w + 2 * j], p[w + 2 * j + 1];
      StepWord(le, done + p[w..w + 2 * j], sum, swapped, c0, a, b);
      assert done + p[w..w + 2 * j] + [a, b] == done + p[w..w + 2 * (j + 1)];
      sum := Plus(sum, Pair(le, a, b), |done| + 2 * (j + 1));
    }
  }

  /** One summing loop: blocks of `2 * count` octets from `w` while they last. */
  method AddBlocks(le: bool, p: seq<Octet>, from: nat, count: nat, start: nat,
                   ghost done: seq<Octet>, ghost swapped: bool, ghost c0: Octet)
    returns (sum: nat, w: nat, mlen: int)
    requires from <= |p| && 0 < count
    requires Carried(le, done + p[..from], start, swapped, swapped, c0)
    ensures from <= w <= |p| && mlen == |p| - w - 2 * count < 0
    ensures Carried(le, done + p[..w], sum, swapped, swapped, c0)
  {
    sum, w := start, from;
    mlen := |p| - w - 2 * count;
    while mlen >= 0
      invariant from <= w <= |p| && mlen == |p| - w - 2 * count
      invariant Carried(le, done + p[..w], sum, swapped, swapped, c0)
    {
      sum := AddWords(le, p, w, count, sum, done + p[..w], swapped, c0);
      assert done + p[..w] + p[w..w + 2 * count] == done + p[..w + 2 * count];
      w, mlen := w + 2 * count, mlen - 2 * count;
    }
  }

  /** The first octet of a piece completes a word begun in an earlier piece. */
  method CompleteWord(le: bool, p: seq<Octet>, start: nat, mlenIn: int, c0: Octet, ghost done: seq<Octet>)
    returns (sum: nat, w: nat)
    requires p != [] && Carried(le, done, start, mlenIn == -1, false, c0)
    ensures w == (if mlenIn == -1 then 1 else 0) && Carried(le, done + p[..w], sum, false, false, c0)
  {
    sum, w := start, 0;
    assert done + p[..0] == done;
    if mlenIn == -1 {
      StepFill(le, done, sum, c0, p[0]);
      assert done + [p[0]] == done + p[..1];
      sum := Plus(sum, Pair(le, c0, p[0]), |done| + 1);
      w := 1;
    }
  }

  /** The start of a piece: complete a waiting word, then force an even address. */
  method BeginPiece(le: bool, piece: Piece, start: nat, mlenIn: int, saved: Octet, ghost done: seq<Octet>)
    returns (sum: nat, w: nat, c0: Octet, byteSwapped: bool)
    requires piece.data != []
    requires Carried(le, done, start, mlenIn == -1, false, saved)
    ensures w <= |piece.data|
    ensures Carried(le, done + piece.data[..w], sum, byteSwapped, byteSwapped, c0)
  {
    var p := piece.data;
    c0, byteSwapped := saved, false;
    sum, w := CompleteWord(le, p, start, mlenIn, c0, done);
    if piece.odd != (w == 1) && w < |p| {
      StepEnterSwapped(le, done + p[..w], sum, c0, p[w]);
      assert done + p[..w] + [p[w]] == done + p[..w + 1];
      sum, c0, w, byteSwapped := Reduce(sum) * 256, p[w], w + 1, true;
    }
  }

  /** The end of a piece: get back in step, use or put aside an odd octet. */
  method EndPiece(le: bool, p: seq<Octet>, w: nat, mlenIn: int, start: nat, saved: Octet, byteSwapped: bool,
                  ghost done: seq<Octet>)
    returns (sum: nat, mlen: int, c0: Octet)
    requires mlenIn == |p| - w - 2 && (mlenIn == -2 || mlenIn == -1)
    requires Carried(le, done + p[..w], start, byteSwapped, byteSwapped, saved)
    ensures Carried(le, done + p, sum, mlen == -1, false, c0)
  {
    sum, mlen, c0 := start, mlenIn, saved;
    assert mlen == -1 ==> done + p[..w] + [p[w]] == done + p;
    assert mlen == -2 ==> done + p[..w] == done + p;
    if byteSwapped {
      StepLeaveSwapped(le, done + p[..w], sum, c0);
      sum := Reduce(sum) * 256;
      if mlen == -1 {
        StepFill(le, done + p[..w], sum, c0, p[w]);
        sum := Plus(sum, Pair(le, c0, p[w]), |done| + w + 1);
        mlen := 0;
      } else {
        mlen := -1;
      }
    } else if mlen == -1 {
      StepSave(le, done + p[..w], sum, c0, p[w]);
      c0 := p[w];
    }
  }

  /** The body of the outer loop: one piece of the vector. */
  method AddPiece(le: bool, piece: Piece, start: nat, mlenIn: int, saved: Octet,
                  ghost done: seq<Octet>)
    returns (sum: nat, mlen: int, c0: Octet)
    requires Carried(le, done, start, mlenIn == -1, false, saved)
    ensures Carried(le, done + piece.data, sum, mlen == -1, false, c0)
  {
    var p := piece.data;
    sum, mlen, c0 := start, mlenIn, saved;
    if |p| == 0 {
      assert done + p == done;
      return;
    }
    var w, byteSwapped;
    sum, w, c0, byteSwapped := BeginPiece(le, piece, sum, mlen, c0, done);
    sum, w, mlen := AddBlocks(le, p, w, 16, sum, done, byteSwapped, c0);
    sum, w, mlen := AddBlocks(le, p, w, 4, sum, done, byteSwapped, c0);
    mlen := mlen + 8;
    if mlen == 0 && !byteSwapped {
      assert done + p[..w] == done + p;
      return;
    }
    StepReduce(le, done + p[..w], sum, byteSwapped, byteSwapped, c0);
    sum := Reduce(sum);
    sum, w, mlen := AddBlocks(le, p, w, 1, sum, done, byteSwapped, c0);
    sum, mlen, c0 := EndPiece(le, p, w, mlen, sum, c0, byteSwapped, done);
  }

  /**
    The routine itself.  For every vector whose octets number at most 130562,
    whatever the lengths and the parities of the pieces, the result is the
    RFC 1071 checksum of the octets in order.
  */
  method InCksum(le: bool, vec: seq<Piece>) returns (r: Word16)
    ensures |Concat(vec)| <= 130562 ==> r == Rfc1071(le, Concat(vec))
  {
    var sum: nat, mlen, c0: Octet := 0, 0, 0;
    RepSame(0);
    for v := 0 to |vec|
      invariant Carried(le, Concat(vec[..v]), sum, mlen == -1, false, c0)
    {
      sum, mlen, c0 := AddPiece(le, vec[v], sum, mlen, c0, Concat(vec[..v]));
      assert vec[..v + 1][..v] == vec[..v];
    }
    assert vec[..|vec|] == vec;
    r := ClosePacket(le, sum, mlen == -1, c0, Concat(vec));
  }

  // ----- the value the checksum field should have held

  /** Host order to network order and back. */
  function Ntohs(le: bool, w: Word16): (v: Word16)
  {
    if le then Swap16(w) else w
  }

  /** `data` with the big-endian word at `k` replaced by `w`. */
  function Install(data: seq<Octet>, k: nat, w: Word16): (r: seq<Octet>)
    requires k + 1 < |data|
  {
    data[k := w / 256][k + 1 := w % 256]
  }

  function Field(data: seq<Octet>, k: nat): (w: Word16)
    requires k + 1 < |data|
  {
    Pair(false, data[k], data[k + 1])
  }

  /** Replacing one octet changes the total by its weighted difference. */
  lemma {:induction false} TotalUpdate(data: seq<Octet>, k: nat, b: Octet)
    requires k < |data|
    ensures Total(false, data[k := b]) == Total(false, data) + Weighed(false, k, b) - Weighed(false, k, data[k])
  {
    var n := |data| - 1;
    if k < n {
      TotalUpdate(data[..n], k, b);
      assert data[k := b][..n] == data[..n][k := b];
    } else {
      assert data[k := b][..n] == data[..n];
    }
  }

  lemma TotalInstall(data: seq<Octet>, k: nat, w: Word16)
    requires k + 1 < |data| && k % 2 == 0
    ensures Total(false, Install(data, k, w)) == Total(false, data) - Field(data, k) + w
  {
    InstallOctets(data, k, w / 256, w % 256);
  }

  lemma InstallOctets(data: seq<Octet>, k: nat, hi: Octet, lo: Octet)
    requires k + 1 < |data| && k % 2 == 0
    ensures Total(false, data[k := hi][k + 1 := lo])
            == Total(false, data) - Field(data, k) + Pair(false, hi, lo)
  {
    TotalUpdate(data, k, hi);
    TotalUpdate(data[k := hi], k + 1, lo);
    assert data[k := hi][k + 1] == data[k + 1];
  }

  /** Subtract the old field from the complement of the sum, in ones' complement. */
  method InCksumShouldBe(le: bool, sum: Word16, computed: Word16) returns (r: Word16)
    ensures r == OcAdd(sum, Ntohs(le, computed))
  {
    var shouldbe: nat := sum;
    shouldbe := shouldbe + Ntohs(le, computed);
    SecondFold(sum, Ntohs(le, computed));
    shouldbe := Fold(shouldbe);
    shouldbe := Fold(shouldbe);
    r := shouldbe;
  }

  /** One fold is enough, so a second changes nothing. */
  lemma SecondFold(a: Word16, b: Word16)
    ensures Fold(Fold(a + b)) == Fold(a + b) == OcAdd(a, b)
  {}

  /**
    The repaired field verifies: for every packet and every even field offset,
    with the computed checksum in the order the machine leaves it in, the
    packet with the field replaced has checksum 0 on either kind of machine,
    and a packet that already verified keeps its field.
  */
  lemma ShouldBeRepairs(le: bool, data: seq<Octet>, k: nat, s: Word16)
    requires k + 1 < |data| && k % 2 == 0
    requires s == OcAdd(Field(data, k), Ntohs(le, Rfc1071(le, data)))
    ensures Rfc1071(le, Install(data, k, s)) == 0
    ensures Rfc1071(le, data) == 0 ==> s == Field(data, k)
  {
    InNetworkOrder(le, data);
    InNetworkOrder(le, Install(data, k, s));
    ShouldBeSum(data, k, s);
  }

  /** Either kind of machine has the same checksum in network order. */
  lemma InNetworkOrder(le: bool, data: seq<Octet>)
    ensures Ntohs(le, Rfc1071(le, data)) == Rfc1071(false, data)
    ensures Rfc1071(le, data) == 0 <==> Rfc1071(false, data) == 0
  {
    ByteOrderIndependent(data);
    if le {
      SwapTwice(Rfc1071(false, data));
    }
  }

  lemma SwapTwice(w: Word16)
    ensures Swap16(Swap16(w)) == w && (Swap16(w) == 0 <==> w == 0)
  {}

  lemma ShouldBeSum(data: seq<Octet>, k: nat, s: Word16)
    requires k + 1 < |data| && k % 2 == 0
    requires s == OcAdd(Field(data, k), Rfc1071(false, data))
    ensures RfcSum(false, Install(data, k, s)) == 0xFFFF
    ensures Rfc1071(false, data) == 0 ==> s == Field(data, k)
  {
    RfcSumRep(false, data);
    TotalInstall(data, k, s);
    TotalInstall(data, k, 0);
    Repaired(Field(data, k), RfcSum(false, data), Total(false, data), s);
    RfcSumIs(false, Install(data, k, s), 0xFFFF);
  }

  /** In numbers: total `t` with sum `sum`, old field `f`, new field `s`. */
  lemma Repaired(f: Word16, sum: Word16, t: nat, s: Word16)
    requires Rep(sum, t) && f <= t && s == OcAdd(f, 0xFFFF - sum)
    ensures Rep(0xFFFF, t - f + s)
    ensures sum == 0xFFFF ==> s == f
  {
    var k: int :| sum - t == Wraps(k);
    var carry := (f + (0xFFFF - sum)) / 0x1_0000;
    assert s == f + (0xFFFF - sum) - 0xFFFF * carry;
    RepBy(0xFFFF, t - f + s, carry + k);
  }

  // ----- repairing a packet with the routines themselves

  /** Cut `data` into pieces of the given parities and lengths. */
  function Cut(data: seq<Octet>, shape: seq<(bool, nat)>): (vec: seq<Piece>)
    requires Length(shape) == |data|
    ensures Concat(vec) == data
    decreases |shape|
  {
    if shape == [] then []
    else
      var n := |shape| - 1;
      var at := |data| - shape[n].1;
      var vec := Cut(data[..at], shape[..n]) + [Piece(shape[n].0, data[at..])];
      assert vec[..|vec| - 1] == Cut(data[..at], shape[..n]);
      vec
  }

  function Length(shape: seq<(bool, nat)>): (n: nat)
  {
    if shape == [] then 0 else Length(shape[..|shape| - 1]) + shape[|shape| - 1].1
  }

  /**
    Sum a packet in any pieces, work out its field, install it, and sum again in
    any other pieces: the result is 0, and a packet that verified is unchanged.
  */
  method Repair(le: bool, data: seq<Octet>, k: nat, shape: seq<(bool, nat)>, shape': seq<(bool, nat)>)
    returns (repaired: seq<Octet>, before: Word16, after: Word16)
    requires k + 1 < |data| <= 130562 && k % 2 == 0
    requires Length(shape) == |data| == Length(shape')
    ensures |repaired| == |data| && repaired[..k] == data[..k] && repaired[k + 2..] == data[k + 2..]
    ensures before == Rfc1071(le, data) && after == 0
    ensures before == 0 ==> repaired == data
  {
    before := InCksum(le, Cut(data, shape));
    var s := InCksumShouldBe(le, Field(data, k), before);
    repaired := Install(data, k, s);
    after := InCksum(le, Cut(repaired, shape'));
    ShouldBeRepairs(le, data, k, s);
    FieldInstalled(data, k);
  }

  lemma FieldInstalled(data: seq<Octet>, k: nat)
    requires k + 1 < |data|
    ensures Install(data, k, Field(data, k)) == data
  {}
}
