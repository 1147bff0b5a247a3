/**
  Flushing addresses over netlink: dump all addresses, turn every one that
  passes the filter into a delete request, send the requests in batches, and
  repeat until a dump shows nothing to delete.
*/
module AddrFlush {
  import opened Octets
  import opened RtAttributes

  // ----- messages and filter

  datatype Addr = Addr(family: nat, index: nat, scope: nat, flags: nat, rest: seq<Octet>)

  datatype Body = NewAddr(addr: Addr) | DelAddr(addr: Addr) | Done(error: int) | Error | Other

  /**
    What the walk meets: a message (who sent it, to whom, in answer to which
    request, its length and content), or octets left over at the end of a
    datagram that is not marked as truncated.
  */
  datatype Msg = Msg(sender: nat, pid: nat, seqno: nat, len: nat, body: Body) | Remnant

  /** A delete request made from a dumped message. */
  datatype Request = Request(addr: Addr, len: nat, seqno: nat)

  /** The filter; `extra` stands for the label pattern and the address prefix. */
  datatype Filter = Filter(ifindex: nat, family: nat, scope: nat, scopemask: nat, flags: nat, flagmask: nat,
                           extra: Addr -> bool)

  const IFA_F_SECONDARY := 1
  const FLUSHE := 3584
  const NLMSG_ADDR_LEN := 24
  const NLMSG_DONE_LEN := 20

  /** `(x ^ y) & mask` is zero. */
  predicate AgreeUnder(x: nat, y: nat, mask: nat)
  {
    mask == 0 || ((mask % 2 == 1 ==> x % 2 == y % 2) && AgreeUnder(x / 2, y / 2, mask / 2))
  }

  predicate Passes(f: Filter, a: Addr)
  {
    && (f.ifindex == 0 || f.ifindex == a.index)
    && AgreeUnder(f.scope, a.scope, f.scopemask)
    && AgreeUnder(f.flags, a.flags, f.flagmask)
    && f.extra(a)
    && (f.family == 0 || f.family == a.family)
  }

  // ----- what the filter selects, field by field

  /** `x` and `y` have the same bit wherever the mask has a one. */
  ghost predicate SameUnder(x: nat, y: nat, mask: nat)
  {
    forall k: nat :: BitAt(mask, k) ==> BitAt(x, k) == BitAt(y, k)
  }

  /**
    The addresses asked for: on the filter's interface if it names one, of its
    family if it names one, with its scope and flags in every bit of the masks,
    and with the label and prefix it asks for.
  */
  ghost predicate Selects(f: Filter, a: Addr)
  {
    && (f.ifindex != 0 ==> a.index == f.ifindex)
    && (f.family != 0 ==> a.family == f.family)
    && SameUnder(f.scope, a.scope, f.scopemask)
    && SameUnder(f.flags, a.flags, f.flagmask)
    && f.extra(a)
  }

  lemma {:induction false} AgreeUnderBits(x: nat, y: nat, mask: nat)
    ensures AgreeUnder(x, y, mask) <==> SameUnder(x, y, mask)
    decreases mask
  {
    if mask == 0 {
      forall k: nat ensures !BitAt(mask, k) { NoBits(k); }
    } else {
      AgreeUnderBits(x / 2, y / 2, mask / 2);
      SameUnderStep(x, y, mask);
    }
  }

  lemma SameUnderStep(x: nat, y: nat, mask: nat)
    ensures SameUnder(x, y, mask) <==> (mask % 2 == 1 ==> x % 2 == y % 2) && SameUnder(x / 2, y / 2, mask / 2)
  {
    if SameUnder(x, y, mask) {
      assert BitAt(mask, 0) ==> BitAt(x, 0) == BitAt(y, 0);
      forall k: nat | BitAt(mask / 2, k)
        ensures BitAt(x / 2, k) == BitAt(y / 2, k)
      {
        assert BitAt(mask, k + 1);
      }
    } else {
      var k: nat :| BitAt(mask, k) && BitAt(x, k) != BitAt(y, k);
      if k > 0 {
        assert BitAt(mask / 2, k - 1);
      }
    }
  }

  /** The tests of `print_addrinfo` let exactly these addresses pass. */
  lemma PassesExactly(f: Filter, a: Addr)
    ensures Passes(f, a) <==> Selects(f, a)
  {
    AgreeUnderBits(f.scope, a.scope, f.scopemask);
    AgreeUnderBits(f.flags, a.flags, f.flagmask);
  }

  /** Bit 0, the one that marks secondary addresses, must be clear: only primary addresses are asked for. */
  ghost predicate WantsPrimary(f: Filter)
  {
    BitAt(f.flagmask, 0) && !BitAt(f.flags, 0)
  }

  /** With such a filter every address that is selected is a primary one. */
  lemma PrimarySelected(f: Filter, a: Addr)
    requires WantsPrimary(f) && Selects(f, a)
    ensures !BitAt(a.flags, 0)
  {}

  // ----- what a dump amounts to

  ghost predicate Ours(m: Msg, pid: nat, dump: nat)
  {
    m.Msg? && m.sender == 0 && m.pid == pid && m.seqno == dump
  }

  /** Did the walk end well, and which messages were to be deleted, in order. */
  datatype Walked = Walked(ok: bool, hits: seq<Msg>)

  /** An end marker that is long enough and reports no error. */
  ghost predicate EndsWell(m: Msg)
  {
    m.Msg? && m.body.Done? && m.len >= 20 && m.body.error >= 0
  }

  /** The walk over the received messages of one dump from the `i`th on, up to its end marker. */
  ghost function WalkFrom(f: Filter, pid: nat, dump: nat, stream: seq<Msg>, i: nat): (w: Walked)
    requires i <= |stream|
    decreases |stream| - i
  {
    if i == |stream| || stream[i].Remnant? then Walked(false, [])
    else
      var m := stream[i];
      if !Ours(m, pid, dump) then WalkFrom(f, pid, dump, stream, i + 1)
      else match m.body
        case Done(_) => Walked(EndsWell(m), [])
        case Error => Walked(false, [])
        case Other => WalkFrom(f, pid, dump, stream, i + 1)
        case DelAddr(_) =>
          if m.len < 24 then Walked(false, []) else WalkFrom(f, pid, dump, stream, i + 1)
        case NewAddr(a) =>
          if m.len < 24 then Walked(false, [])
          else if !Selects(f, a) then WalkFrom(f, pid, dump, stream, i + 1)
          else var w := WalkFrom(f, pid, dump, stream, i + 1); w.(hits := [m] + w.hits)
  }

  /** What the whole dump amounts to. */
  ghost function WalkDump(f: Filter, pid: nat, dump: nat, stream: seq<Msg>): (w: Walked)
  {
    WalkFrom(f, pid, dump, stream, 0)
  }

  function Bump(s: nat): (s': nat)
  {
    (s + 1) % TWO32
  }

  /** The counter after `n` increments. */
  function SeqAfter(s: nat, n: nat): (s': nat)
  {
    if n == 0 then s else (s + n) % TWO32
  }

  lemma SeqAfterNext(s: nat, n: nat)
    ensures SeqAfter(s, n + 1) == Bump(SeqAfter(s, n))
  {}

  predicate IsNewAddr(m: Msg)
  {
    m.Msg? && m.body.NewAddr?
  }

  ghost predicate Numbered(hits: seq<Msg>)
  {
    forall k :: 0 <= k < |hits| ==> IsNewAddr(hits[k])
  }

  /** The delete requests for the hits of a dump, numbered after `s`. */
  ghost function Requests(hits: seq<Msg>, s: nat): (rs: seq<Request>)
    requires Numbered(hits)
    ensures |rs| == |hits|
  {
    seq(|hits|, k requires 0 <= k < |hits| => Request(hits[k].body.addr, hits[k].len, SeqAfter(s, k + 1)))
  }

  lemma HitsAreAddresses(f: Filter, pid: nat, dump: nat, stream: seq<Msg>)
    ensures forall k :: 0 <= k < |WalkDump(f, pid, dump, stream).hits| ==>
              var m := WalkDump(f, pid, dump, stream).hits[k];
              && m in stream && IsNewAddr(m) && Selects(f, m.body.addr)
              && m.sender == 0 && m.pid == pid && m.seqno == dump
    ensures Numbered(WalkDump(f, pid, dump, stream).hits)
  {
    HitsFrom(f, pid, dump, stream, 0);
  }

  lemma {:induction false} HitsFrom(f: Filter, pid: nat, dump: nat, stream: seq<Msg>, i: nat)
    requires i <= |stream|
    ensures forall k :: 0 <= k < |WalkFrom(f, pid, dump, stream, i).hits| ==>
              var m := WalkFrom(f, pid, dump, stream, i).hits[k];
              && m in stream && IsNewAddr(m) && Selects(f, m.body.addr)
              && m.sender == 0 && m.pid == pid && m.seqno == dump
    decreases |stream| - i
  {
    if i < |stream| {
      HitsFrom(f, pid, dump, stream, i + 1);
    }
  }

  lemma RequestsSnoc(hits: seq<Msg>, m: Msg, s: nat)
    requires IsNewAddr(m) && Numbered(hits)
    ensures Numbered(hits + [m])
    ensures Requests(hits + [m], s) == Requests(hits, s) + [Request(m.body.addr, m.len, SeqAfter(s, |hits| + 1))]
  {}

  // ----- the batch buffer

  /** The octets that requests take in the buffer, each starting at a multiple of four. */
  function Extent(batch: seq<Request>): (n: nat)
  {
    if batch == [] then 0 else Align(Extent(batch[..|batch| - 1])) + batch[|batch| - 1].len
  }

  function Flat(batches: seq<seq<Request>>): (rs: seq<Request>)
  {
    if batches == [] then [] else Flat(batches[..|batches| - 1]) + batches[|batches| - 1]
  }

  lemma ExtentSnoc(batch: seq<Request>, r: Request)
    ensures Extent(batch + [r]) == Align(Extent(batch)) + r.len
  {
    assert (batch + [r])[..|batch|] == batch;
  }

  /** A message put where there is room, or first, passes the end only if it is longer than the buffer. */
  lemma FillMark(n: nat, len: nat)
    requires n == 0 || Align(n) + len <= FLUSHE
    ensures Align(n) + len > FLUSHE <==> len > FLUSHE
  {}

  lemma FlatSnoc(batches: seq<seq<Request>>, batch: seq<Request>)
    ensures Flat(batches + [batch]) == Flat(batches) + batch
  {
    assert (batches + [batch])[..|batches|] == batches;
  }

  /** A request from position `from` on is longer than the whole buffer. */
  ghost predicate TooLong(rs: seq<Request>, from: nat)
  {
    exists i :: from <= i < |rs| && rs[i].len > 3584
  }

  lemma TooLongSnoc(rs: seq<Request>, r: Request, from: nat)
    requires from <= |rs|
    ensures TooLong(rs + [r], from) <==> TooLong(rs, from) || r.len > FLUSHE
  {
    if TooLong(rs, from) {
      var i :| from <= i < |rs| && rs[i].len > FLUSHE;
      assert (rs + [r])[i] == rs[i];
    }
    assert (rs + [r])[|rs|] == r;
  }

  /** How the kernel behaves: what it answers to the dump of round `i` with number `s`, and which sends go through. */
  datatype Env = Env(dump: (nat, nat) -> seq<Msg>, sends: nat -> bool)

  class Flusher {
    const filter: Filter
    const pid: nat
    var flushp: nat
    var flushed: nat
    var seqno: nat
    var sendCount: nat
    ghost var buffer: seq<Request>
    ghost var sent: seq<seq<Request>>
    /** The number of requests made before the present flush. */
    ghost var base: nat
    /** The fill mark has been beyond the end of the buffer in the present flush. */
    ghost var overrun: bool

    /**
      The fill mark is the extent of what is in the buffer, and the buffer has
      been overrun exactly if some request is longer than all of it.
    */
    ghost predicate Valid()
      reads this
    {
      && flushp == Extent(buffer) && seqno < TWO32
      && base <= |All()| && (overrun <==> TooLong(All(), base))
    }

    /** Every request made so far, sent or still in the buffer, in order. */
    ghost function All(): (rs: seq<Request>)
      reads this
    {
      Flat(sent) + buffer
    }

    constructor (filter: Filter, pid: nat, seqno: nat)
      requires seqno < TWO32
      ensures Valid() && this.filter == filter && this.pid == pid && this.seqno == seqno && buffer == [] && sent == []
    {
      this.filter, this.pid, this.seqno := filter, pid, seqno;
      flushp, flushed, sendCount, buffer, sent, base, overrun := 0, 0, 0, [], [], 0, false;
    }

    /** `flush_update`: send the buffer; empty it if that went through. */
    method FlushUpdate(env: Env) returns (ok: bool)
      requires Valid()
      modifies this`flushp, this`sendCount, this`buffer, this`sent
      ensures Valid() && sendCount == old(sendCount) + 1 && ok == env.sends(old(sendCount))
      ensures All() == old(All())
      ensures ok ==> sent == old(sent) + [old(buffer)] && buffer == []
      ensures !ok ==> sent == old(sent) && buffer == old(buffer) && flushp == old(flushp)
    {
      ok := env.sends(sendCount);
      sendCount := sendCount + 1;
      if ok {
        FlatSnoc(sent, buffer);
        assert Flat(sent) + buffer + [] == Flat(sent) + buffer;
        sent := sent + [buffer];
        buffer := [];
        flushp := 0;
      }
    }

    /** Put one request at the next aligned place of the buffer, which has room or is empty. */
    method Place(m: Msg)
      requires Valid() && IsNewAddr(m) && (flushp == 0 || Align(flushp) + m.len <= FLUSHE)
      modifies this`flushp, this`seqno, this`buffer, this`flushed, this`overrun
      ensures Valid() && seqno == Bump(old(seqno)) && flushed == old(flushed) + 1
      ensures flushp == Align(old(flushp)) + m.len
      ensures overrun == (old(overrun) || flushp > FLUSHE)
      ensures All() == old(All()) + [Request(m.body.addr, m.len, seqno)]
    {
      seqno := Bump(seqno);
      ghost var r := Request(m.body.addr, m.len, seqno);
      FillMark(flushp, m.len);
      ExtentSnoc(buffer, r);
      TooLongSnoc(All(), r, base);
      assert Flat(sent) + (buffer + [r]) == Flat(sent) + buffer + [r];
      buffer := buffer + [r];
      flushp := Align(flushp) + m.len;
      flushed := flushed + 1;
      overrun := overrun || flushp > FLUSHE;
    }

    /**
      The flush part of `print_addrinfo`: one delete request, after sending a
      buffer with no room for it.  The fill mark is then within the buffer
      exactly when the message alone is.
    */
    method QueueDelete(env: Env, m: Msg) returns (ok: bool)
      requires Valid() && IsNewAddr(m)
      modifies this`flushp, this`seqno, this`buffer, this`flushed, this`sendCount, this`sent, this`overrun
      ensures Valid()
      ensures (forall j :: env.sends(j)) ==> ok
      ensures ok ==> All() == old(All()) + [Request(m.body.addr, m.len, seqno)]
      ensures ok ==> seqno == Bump(old(seqno)) && flushed == old(flushed) + 1
      ensures ok ==> (flushp <= 3584 <==> m.len <= 3584)
      ensures !ok ==> flushp == old(flushp)
    {
      ok := true;
      if Align(flushp) + m.len > FLUSHE {
        ok := FlushUpdate(env);
        if !ok {
          return;
        }
      }
      Place(m);
    }

    /** Is the message one that `print_addrinfo` turns into a request? */
    ghost predicate Hit(m: Msg)
    {
      IsNewAddr(m) && m.len >= 24 && Selects(filter, m.body.addr)
    }

    /** `print_addrinfo` while flushing: refuse short messages, pass over others, queue the rest. */
    method PrintAddrInfo(env: Env, m: Msg) returns (ok: bool)
      requires Valid() && m.Msg?
      modifies this`flushp, this`seqno, this`buffer, this`flushed, this`sendCount, this`sent, this`overrun
      ensures Valid()
      ensures Short(m) ==> !ok
      ensures (forall j :: env.sends(j)) ==> ok == !Short(m)
      ensures (ok && !Hit(m)) || Short(m) ==> All() == old(All()) && seqno == old(seqno) && flushed == old(flushed)
      ensures (ok && !Hit(m)) || Short(m) ==> sent == old(sent) && buffer == old(buffer)
      ensures ok && Hit(m) ==> All() == old(All()) + [Request(m.body.addr, m.len, seqno)]
                               && seqno == Bump(old(seqno)) && flushed == old(flushed) + 1
    {
      if !m.body.NewAddr? && !m.body.DelAddr? {
        return true;
      }
      if m.len < NLMSG_ADDR_LEN {
        return false;
      }
      if m.body.NewAddr? {
        PassesExactly(filter, m.body.addr);
      }
      if !m.body.NewAddr? || !Passes(filter, m.body.addr) {
        return true;
      }
      ok := QueueDelete(env, m);
    }

    /** What one message does to the walk. */
    lemma StepDump(dump: nat, stream: seq<Msg>, i: nat, hits: seq<Msg>)
      requires i < |stream|
      ensures var m, rest := stream[i], WalkFrom(filter, pid, dump, stream, i + 1);
              var w := WalkFrom(filter, pid, dump, stream, i);
              if m.Remnant? then w == Walked(false, [])
              else if !Ours(m, pid, dump) then w == rest
              else if m.body.Done? || m.body.Error? then w == Walked(EndsWell(m), [])
              else if Short(m) then w == Walked(false, [])
              else Behind(hits, w) == if Hit(m) then Behind(hits + [m], rest) else Behind(hits, rest)
    {
      BehindSnoc(hits, stream[i], WalkFrom(filter, pid, dump, stream, i + 1));
    }

    /** One message of the dump, other than its end: a hit adds to the requests made for `hits`. */
    method Meet(env: Env, m: Msg, ghost hits: seq<Msg>, ghost s0: nat, ghost n0: nat, ghost all0: seq<Request>)
      returns (ok: bool)
      requires Valid() && m.Msg? && Progress(hits, s0, seqno, n0, flushed, all0, All())
      modifies this`flushp, this`seqno, this`buffer, this`flushed, this`sendCount, this`sent, this`overrun
      ensures Valid() && (Short(m) ==> !ok) && ((forall j :: env.sends(j)) ==> ok == !Short(m))
      ensures ok || Short(m) ==> Progress(if Hit(m) then hits + [m] else hits, s0, seqno, n0, flushed, all0, All())
      ensures ok && !Hit(m) ==> sent == old(sent) && buffer == old(buffer)
    {
      ghost var before, s, n := All(), seqno, flushed;
      ok := PrintAddrInfo(env, m);
      if ok && Hit(m) {
        ProgressSnoc(hits, m, s0, s, n0, n, all0, before);
      }
    }

    /**
      The message loop of `rtnl_dump_filter_l` with `print_addrinfo` as its
      filter: unless a send fails, one request per hit, in dump order.
    */
    method DumpFilter(env: Env, dump: nat, stream: seq<Msg>) returns (ok: bool)
      requires Valid()
      modifies this`flushp, this`seqno, this`buffer, this`flushed, this`sendCount, this`sent, this`overrun
      ensures Valid()
      ensures ok || (forall j :: env.sends(j)) ==>
                var w := WalkDump(filter, pid, dump, stream);
                ok == w.ok && Progress(w.hits, old(seqno), seqno, old(flushed), flushed, old(All()), All())
      ensures ok && WalkDump(filter, pid, dump, stream).hits == [] ==> sent == old(sent) && buffer == old(buffer)
    {
      ghost var hits: seq<Msg> := [];
      ghost var w := WalkDump(filter, pid, dump, stream);
      assert All() + [] == All() && [] + w.hits == w.hits;
      for i := 0 to |stream|
        invariant Valid()
        invariant Progress(hits, old(seqno), seqno, old(flushed), flushed, old(All()), All())
        invariant hits == [] ==> sent == old(sent) && buffer == old(buffer)
        invariant w == Behind(hits, WalkFrom(filter, pid, dump, stream, i))
      {
        var m := stream[i];
        assert hits + [] == hits;
        StepDump(dump, stream, i, hits);
        if m.Remnant? {
          return false;
        }
        if m.sender == 0 && m.pid == pid && m.seqno == dump {
          if m.body.Done? || m.body.Error? {
            return m.body.Done? && m.len >= NLMSG_DONE_LEN && m.body.error >= 0;
          }
          var r := Meet(env, m, hits, old(seqno), old(flushed), old(All()));
          if !r {
            return false;
          }
          hits := if Hit(m) then hits + [m] else hits;
        }
      }
      assert hits + [] == hits;
      return false;
    }

    /** One dump of `ipaddr_flush`: a request under a new number, then its answer. */
    method Round(env: Env, i: nat) returns (ok: bool)
      requires Valid()
      modifies this`flushp, this`seqno, this`buffer, this`flushed, this`sendCount, this`sent, this`overrun
      ensures Valid()
      ensures ok || (forall j :: env.sends(j)) ==>
                var w := RoundWalk(filter, pid, env, i, old(seqno));
                ok == w.ok && flushed == |w.hits| && seqno == SeqAfter(Bump(old(seqno)), |w.hits|)
                && Numbered(w.hits) && All() == old(All()) + Requests(w.hits, Bump(old(seqno)))
      ensures ok && flushed == 0 ==> sent == old(sent) && buffer == old(buffer)
    {
      seqno := Bump(seqno);
      flushed := 0;
      ok := DumpFilter(env, seqno, env.dump(i, seqno));
    }

    /** One pass of the loop of `ipaddr_flush`, from round `i` on. */
    method Pass(env: Env, i: nat, limit: Limit, ghost result: Result, ghost total: seq<Request>)
      returns (done: bool, r: Outcome, round: nat)
      requires Valid() && buffer == [] && i < limit.Rounds()
      requires Ahead(filter, pid, env, i, seqno, limit, Flat(sent), result, total)
      modifies this`flushp, this`seqno, this`buffer, this`flushed, this`sendCount, this`sent, this`overrun
      ensures Valid() && i <= round <= i + 1
      ensures !done ==> round == i + 1 && !WantsPrimary(filter) && buffer == []
                        && Ahead(filter, pid, env, round, seqno, limit, Flat(sent), result, total)
      ensures done ==> !AtLimit(r) && ((forall j :: env.sends(j)) ==> Result(r, round) == result)
      ensures done && r == Complete ==> Result(r, round) == result && buffer == [] && Flat(sent) == total
      ensures done && r == Complete ==>
                || WalkDump(filter, pid, seqno, env.dump(round, seqno)) == Walked(true, [])
                || (round == i + 1 && WantsPrimary(filter))
    {
      ghost var before, s := Flat(sent), seqno;
      assert All() == before;
      AheadStep(filter, pid, env, i, s, limit, before, result, total);
      var ok := Round(env, i);
      if !ok {
        return true, Exited, i;
      }
      if flushed == 0 {
        return true, Complete, i;
      }
      round := i + 1;
      ok := FlushUpdate(env);
      if !ok {
        return true, SendFailed, round;
      }
      assert Flat(sent) + [] == Flat(sent);
      done, r := filter.flags % 2 == 0 && filter.flagmask % 2 == IFA_F_SECONDARY, Complete;
    }

    /**
      `ipaddr_flush`, or its first passes when the number of rounds is not
      limited: never more rounds than the limit, whatever the kernel does.  It
      reports success only after a dump without hits or, for primary addresses
      only, after one round.  Unless a send fails, the outcome is the one the
      dumps determine, what was sent is the requests of all the rounds, each for
      an address that the filter selects, and the buffer was overrun exactly if
      one of them is longer than all of it.
    */
    method IpaddrFlush(env: Env, limit: Limit) returns (r: Outcome, round: nat)
      requires Valid()
      modifies this
      ensures Valid() && round <= limit.Rounds()
      ensures r == Complete ==>
                || WalkDump(filter, pid, seqno, env.dump(round, seqno)) == Walked(true, [])
                || (round == 1 && WantsPrimary(filter))
      ensures AtLimit(r) ==> round == limit.Rounds() && r == limit.Outcome()
      ensures (forall j :: env.sends(j)) ==> Result(r, round) == FlushResult(filter, pid, env, 0, old(seqno), limit)
      ensures r == Complete || AtLimit(r) ==>
                var requests := FlushRequests(filter, pid, env, 0, old(seqno), limit);
                && Result(r, round) == FlushResult(filter, pid, env, 0, old(seqno), limit) && buffer == []
                && Flat(sent) == old(Flat(sent)) + requests && (overrun <==> TooLong(requests, 0))
                && AllSelected(filter, requests)
    {
      ghost var result := FlushResult(filter, pid, env, 0, seqno, limit);
      ghost var requests := FlushRequests(filter, pid, env, 0, seqno, limit);
      ghost var total := Flat(sent) + requests;
      flushp, buffer, base, overrun := 0, [], |Flat(sent)|, false;
      TooLongShift(Flat(sent), requests);
      RequestsSelected(filter, pid, env, 0, seqno, limit);
      assert Flat(sent) + [] == Flat(sent);
      round := 0;
      var done := false;
      while round < limit.Rounds()
        invariant Valid() && buffer == [] && round <= limit.Rounds() && base == |old(Flat(sent))|
        invariant WantsPrimary(filter) ==> round == 0
        invariant Ahead(filter, pid, env, round, seqno, limit, Flat(sent), result, total)
      {
        done, r, round := Pass(env, round, limit, result, total);
        if done {
          assert Flat(sent) + [] == Flat(sent);
          return;
        }
      }
      r := limit.Outcome();
      assert Flat(sent) + [] == Flat(sent);
    }
  }

  lemma TooLongShift(a: seq<Request>, b: seq<Request>)
    ensures TooLong(a + b, |a|) <==> TooLong(b, 0)
  {
    if i :| |a| <= i < |a + b| && (a + b)[i].len > FLUSHE {
      assert b[i - |a|] == (a + b)[i];
    }
    if i :| 0 <= i < |b| && b[i].len > FLUSHE {
      assert (a + b)[|a| + i] == b[i];
    }
  }

  /**
    How far the loop goes: `max_flush_loops` rounds or, when that is 0, without
    a limit, of which the first `steps` rounds are looked at.
  */
  datatype Limit = AtMost(max: nat) | Unlimited(steps: nat)
  {
    function Rounds(): (n: nat) { if AtMost? then max else steps }

    /** What is the case after that many rounds. */
    function Outcome(): (r: Outcome) { if AtMost? then Incomplete else StillRunning }
  }

  predicate AtLimit(r: Outcome)
  {
    r == Incomplete || r == StillRunning
  }

  /** After the hits: the counter, the count and the list of requests have moved on by exactly them. */
  ghost predicate Progress(hits: seq<Msg>, s0: nat, s: nat, n0: nat, n: nat, all0: seq<Request>, all: seq<Request>)
  {
    Numbered(hits) && s == SeqAfter(s0, |hits|) && n == n0 + |hits| && all == all0 + Requests(hits, s0)
  }

  lemma ProgressSnoc(hits: seq<Msg>, m: Msg, s0: nat, s: nat, n0: nat, n: nat, all0: seq<Request>, all: seq<Request>)
    requires Progress(hits, s0, s, n0, n, all0, all) && IsNewAddr(m)
    ensures Progress(hits + [m], s0, Bump(s), n0, n + 1, all0, all + [Request(m.body.addr, m.len, Bump(s))])
  {
    RequestsSnoc(hits, m, s0);
    SeqAfterNext(s0, |hits|);
    assert all0 + (Requests(hits, s0) + [Request(m.body.addr, m.len, Bump(s))])
        == all0 + Requests(hits, s0) + [Request(m.body.addr, m.len, Bump(s))];
  }

  /** The walk that first made `hits` and then went on as `w`. */
  ghost function Behind(hits: seq<Msg>, w: Walked): (w': Walked)
  {
    w.(hits := hits + w.hits)
  }

  lemma BehindSnoc(hits: seq<Msg>, m: Msg, w: Walked)
    ensures Behind(hits, w.(hits := [m] + w.hits)) == Behind(hits + [m], w)
  {
    assert hits + ([m] + w.hits) == hits + [m] + w.hits;
  }

  /** Too short to hold an address message. */
  ghost predicate Short(m: Msg)
  {
    m.Msg? && (m.body.NewAddr? || m.body.DelAddr?) && m.len < 24
  }

  // ----- the outcome of a flush

  /** What the dump of round `i` amounts to when the counter stands at `s`. */
  ghost function RoundWalk(f: Filter, pid: nat, env: Env, i: nat, s: nat): (w: Walked)
  {
    WalkDump(f, pid, Bump(s), env.dump(i, Bump(s)))
  }

  datatype Outcome = Complete | Incomplete | StillRunning | SendFailed | Exited

  datatype Result = Result(outcome: Outcome, rounds: nat)

  /** The outcome from round `i` on, when every send goes through. */
  ghost function FlushResult(f: Filter, pid: nat, env: Env, i: nat, s: nat, limit: Limit): (r: Result)
    decreases limit.Rounds() - i
  {
    if i >= limit.Rounds() then Result(limit.Outcome(), i)
    else
      var w := RoundWalk(f, pid, env, i, s);
      if !w.ok then Result(Exited, i)
      else if w.hits == [] then Result(Complete, i)
      else if WantsPrimary(f) then Result(Complete, i + 1)
      else FlushResult(f, pid, env, i + 1, SeqAfter(Bump(s), |w.hits|), limit)
  }

  /** The requests that all rounds from `i` on send, in order, when every send goes through. */
  ghost function FlushRequests(f: Filter, pid: nat, env: Env, i: nat, s: nat, limit: Limit): (rs: seq<Request>)
    decreases limit.Rounds() - i
  {
    if i >= limit.Rounds() then []
    else
      var w := RoundWalk(f, pid, env, i, s);
      if !w.ok || w.hits == [] || !Numbered(w.hits) then []
      else if WantsPrimary(f) then Requests(w.hits, Bump(s))
      else Requests(w.hits, Bump(s)) + FlushRequests(f, pid, env, i + 1, SeqAfter(Bump(s), |w.hits|), limit)
  }

  /** The numbers of all dumps from round `i` on. */
  ghost function FlushDumps(f: Filter, pid: nat, env: Env, i: nat, s: nat, limit: Limit): (ds: seq<nat>)
    decreases limit.Rounds() - i
  {
    if i >= limit.Rounds() then []
    else
      var w := RoundWalk(f, pid, env, i, s);
      if !w.ok || w.hits == [] || WantsPrimary(f) then [Bump(s)]
      else [Bump(s)] + FlushDumps(f, pid, env, i + 1, SeqAfter(Bump(s), |w.hits|), limit)
  }

  // ----- numbers

  /** Numbers in strictly increasing order, all above `low`. */
  ghost predicate Increasing(rs: seq<Request>, low: nat)
  {
    && (forall k :: 0 <= k < |rs| ==> low < rs[k].seqno)
    && (forall j, k :: 0 <= j < k < |rs| ==> rs[j].seqno < rs[k].seqno)
  }

  /** No request has the number of a dump. */
  ghost predicate Distinct(rs: seq<Request>, ds: seq<nat>)
  {
    forall j, k :: 0 <= j < |rs| && 0 <= k < |ds| ==> rs[j].seqno != ds[k]
  }

  /** While the counter does not wrap, the requests of a round are numbered in increasing order, all after `s`. */
  lemma SeqIncreases(hits: seq<Msg>, s: nat)
    requires Numbered(hits) && s + |hits| < TWO32
    ensures forall k :: 0 <= k < |hits| ==> Requests(hits, s)[k].seqno == s + 1 + k
    ensures Increasing(Requests(hits, s), s)
  {}

  lemma IncreasingConcat(a: seq<Request>, b: seq<Request>, low: nat, mid: nat)
    requires Increasing(a, low) && Increasing(b, mid) && low <= mid
    requires forall k :: 0 <= k < |a| ==> a[k].seqno <= mid
    ensures Increasing(a + b, low)
  {}

  lemma DistinctConcat(a: seq<Request>, b: seq<Request>, d: nat, ds: seq<nat>, mid: nat)
    requires Increasing(a, d) && Increasing(b, mid) && d <= mid && Distinct(b, ds)
    requires forall k :: 0 <= k < |a| ==> a[k].seqno <= mid
    requires forall k :: 0 <= k < |ds| ==> mid < ds[k]
    ensures Distinct(a + b, [d] + ds)
  {}

  /** Requests with increasing numbers and dumps with numbers of their own, all above `low`. */
  ghost predicate InOrder(rs: seq<Request>, ds: seq<nat>, low: nat)
  {
    Increasing(rs, low) && Distinct(rs, ds) && forall k :: 0 <= k < |ds| ==> low < ds[k]
  }

  /** A round before others that are in order. */
  lemma InOrderRound(hits: seq<Msg>, s: nat, rs: seq<Request>, ds: seq<nat>)
    requires Numbered(hits) && s + 1 + |hits| < TWO32 && InOrder(rs, ds, s + 1 + |hits|)
    ensures InOrder(Requests(hits, s + 1) + rs, [s + 1] + ds, s)
  {
    var a, mid := Requests(hits, s + 1), s + 1 + |hits|;
    SeqIncreases(hits, s + 1);
    IncreasingConcat(a, rs, s, mid);
    DistinctConcat(a, rs, s + 1, ds, mid);
  }

  /** What the rounds from `i` on consist of: one round and, if there are more, the rest. */
  lemma RoundsFrom(f: Filter, pid: nat, env: Env, i: nat, s: nat, limit: Limit)
    returns (hits: seq<Msg>, rs: seq<Request>, ds: seq<nat>, more: bool)
    requires i < limit.Rounds()
    ensures Numbered(hits) && forall k :: 0 <= k < |hits| ==> Selects(f, hits[k].body.addr)
    ensures FlushRequests(f, pid, env, i, s, limit) == Requests(hits, Bump(s)) + rs
    ensures FlushDumps(f, pid, env, i, s, limit) == [Bump(s)] + ds
    ensures var s' := SeqAfter(Bump(s), |hits|);
            if more then rs == FlushRequests(f, pid, env, i + 1, s', limit) && ds == FlushDumps(f, pid, env, i + 1, s', limit)
            else rs == [] && ds == []
  {
    var w := RoundWalk(f, pid, env, i, s);
    HitsAreAddresses(f, pid, Bump(s), env.dump(i, Bump(s)));
    hits, rs, ds, more := if w.ok then w.hits else [], [], [], w.ok && w.hits != [] && !WantsPrimary(f);
    if more {
      var s' := SeqAfter(Bump(s), |hits|);
      rs, ds := FlushRequests(f, pid, env, i + 1, s', limit), FlushDumps(f, pid, env, i + 1, s', limit);
    }
  }

  /**
    Over all rounds, while the counter does not wrap: the numbers of the
    requests strictly increase and none is the number of any dump.
  */
  lemma {:induction false} NumbersIncrease(f: Filter, pid: nat, env: Env, i: nat, s: nat, limit: Limit)
    requires s + |FlushRequests(f, pid, env, i, s, limit)| + |FlushDumps(f, pid, env, i, s, limit)| < TWO32
    ensures InOrder(FlushRequests(f, pid, env, i, s, limit), FlushDumps(f, pid, env, i, s, limit), s)
    decreases limit.Rounds() - i
  {
    if i < limit.Rounds() {
      var hits, rs, ds, more := RoundsFrom(f, pid, env, i, s, limit);
      NoWrap(s, |hits|);
      if more {
        NumbersIncrease(f, pid, env, i + 1, s + 1 + |hits|, limit);
      }
      InOrderRound(hits, s, rs, ds);
    }
  }

  /** Whatever the kernel answers, only addresses that the filter selects are deleted. */
  lemma {:induction false} RequestsSelected(f: Filter, pid: nat, env: Env, i: nat, s: nat, limit: Limit)
    ensures AllSelected(f, FlushRequests(f, pid, env, i, s, limit))
    decreases limit.Rounds() - i
  {
    if i < limit.Rounds() {
      var hits, rs, ds, more := RoundsFrom(f, pid, env, i, s, limit);
      if more {
        RequestsSelected(f, pid, env, i + 1, SeqAfter(Bump(s), |hits|), limit);
      }
      SelectedConcat(f, Requests(hits, Bump(s)), rs);
    }
  }

  ghost predicate AllSelected(f: Filter, rs: seq<Request>)
  {
    forall k :: 0 <= k < |rs| ==> Selects(f, rs[k].addr)
  }

  lemma SelectedConcat(f: Filter, a: seq<Request>, b: seq<Request>)
    requires AllSelected(f, a) && AllSelected(f, b)
    ensures AllSelected(f, a + b)
  {}

  lemma NoWrap(s: nat, n: nat)
    requires s + 1 + n < TWO32
    ensures Bump(s) == s + 1 && SeqAfter(s + 1, n) == s + 1 + n
  {}

  // ----- the loop and what it determines

  /** From round `i` on, with `sofar` sent, the flush comes to `result` and `total`. */
  ghost predicate Ahead(f: Filter, pid: nat, env: Env, i: nat, s: nat, limit: Limit,
                        sofar: seq<Request>, result: Result, total: seq<Request>)
  {
    result == FlushResult(f, pid, env, i, s, limit) && total == sofar + FlushRequests(f, pid, env, i, s, limit)
  }

  lemma AheadStep(f: Filter, pid: nat, env: Env, i: nat, s: nat, limit: Limit,
                  sofar: seq<Request>, result: Result, total: seq<Request>)
    requires i < limit.Rounds() && Ahead(f, pid, env, i, s, limit, sofar, result, total)
    ensures var w := RoundWalk(f, pid, env, i, s);
            && Numbered(w.hits)
            && (!w.ok ==> result == Result(Exited, i))
            && (w.ok && w.hits == [] ==> result == Result(Complete, i) && total == sofar)
            && var sofar' := sofar + Requests(w.hits, Bump(s));
               w.ok && w.hits != [] ==>
                 if WantsPrimary(f) then result == Result(Complete, i + 1) && total == sofar'
                 else Ahead(f, pid, env, i + 1, SeqAfter(Bump(s), |w.hits|), limit, sofar', result, total)
  {
    HitsAreAddresses(f, pid, Bump(s), env.dump(i, Bump(s)));
    var hits := RoundWalk(f, pid, env, i, s).hits;
    var rest := FlushRequests(f, pid, env, i + 1, SeqAfter(Bump(s), |hits|), limit);
    assert sofar + (Requests(hits, Bump(s)) + rest) == sofar + Requests(hits, Bump(s)) + rest;
  }

  /** A dump of one message longer than the buffer, under a filter that lets everything pass. */
  lemma OverrunExample() returns (f: Filter, env: Env)
    ensures TooLong(FlushRequests(f, 1, env, 0, 0, AtMost(10)), 0)
  {
    f := Filter(0, 0, 0, 0, 0, 0, _ => true);
    var long := Msg(0, 1, 1, 4000, NewAddr(Addr(2, 1, 0, 0, [])));
    var end := Msg(0, 1, 1, NLMSG_DONE_LEN, Done(0));
    env := Env((i, s) => [long, end], j => true);
    var stream := [long, end];
    assert WalkFrom(f, 1, 1, stream, 1) == Walked(true, []);
    assert Selects(f, long.body.addr);
    var w := RoundWalk(f, 1, env, 0, 0);
    assert w == Walked(true, [long]);
    assert FlushRequests(f, 1, env, 0, 0, AtMost(10))[0] == Requests([long], 1)[0];
  }

  // ----- a kernel that does as it is told

  /**
    `stream` is a dump of the address set `k`: messages for others may be mixed
    in; ours are one or more complete address messages per address of `k` and,
    last, an end marker without error.
  */
  ghost predicate Snapshot(pid: nat, dump: nat, stream: seq<Msg>, k: set<Addr>)
  {
    && stream != []
    && Ours(stream[|stream| - 1], pid, dump) && EndsWell(stream[|stream| - 1])
    && Lists(pid, dump, stream[..|stream| - 1], k)
  }

  ghost predicate Lists(pid: nat, dump: nat, msgs: seq<Msg>, k: set<Addr>)
  {
    && (forall i :: 0 <= i < |msgs| ==> msgs[i].Msg?)
    && (forall i :: 0 <= i < |msgs| && Ours(msgs[i], pid, dump) ==>
          msgs[i].body.NewAddr? && msgs[i].body.addr in k && msgs[i].len >= 24)
    && (forall a :: a in k ==> exists i :: 0 <= i < |msgs| && Ours(msgs[i], pid, dump) && msgs[i].body == NewAddr(a))
  }

  /** Carrying out the requests: every requested address goes, no address that passes the filter comes. */
  ghost predicate Deletes(f: Filter, k: set<Addr>, requests: seq<Request>, k': set<Addr>)
  {
    && (forall i :: 0 <= i < |requests| ==> requests[i].addr !in k')
    && (forall a :: a in k' && Selects(f, a) ==> a in k)
  }

  ghost predicate AddrIn(hits: seq<Msg>, a: Addr)
  {
    exists i :: 0 <= i < |hits| && hits[i].Msg? && hits[i].body == NewAddr(a)
  }

  /** The walk over messages that end well finds all of ours that pass. */
  lemma {:induction false} WalkFinds(f: Filter, pid: nat, dump: nat, stream: seq<Msg>, i: nat)
    requires i < |stream| && Ours(stream[|stream| - 1], pid, dump) && EndsWell(stream[|stream| - 1])
    requires forall j :: 0 <= j < |stream| - 1 ==> stream[j].Msg?
    requires forall j :: 0 <= j < |stream| - 1 && Ours(stream[j], pid, dump) ==>
               stream[j].body.NewAddr? && stream[j].len >= 24
    ensures WalkFrom(f, pid, dump, stream, i).ok
    ensures forall j :: i <= j < |stream| - 1 && Ours(stream[j], pid, dump) && Selects(f, stream[j].body.addr) ==>
              stream[j] in WalkFrom(f, pid, dump, stream, i).hits
    decreases |stream| - i
  {
    if i < |stream| - 1 {
      WalkFinds(f, pid, dump, stream, i + 1);
    }
  }

  /** The hits of a snapshot are exactly the addresses of the set that pass the filter. */
  lemma HitsOfSnapshot(f: Filter, pid: nat, dump: nat, stream: seq<Msg>, k: set<Addr>)
    requires Snapshot(pid, dump, stream, k)
    ensures WalkDump(f, pid, dump, stream).ok
    ensures forall a :: AddrIn(WalkDump(f, pid, dump, stream).hits, a) <==> a in k && Selects(f, a)
  {
    var n, hits := |stream| - 1, WalkDump(f, pid, dump, stream).hits;
    var msgs := stream[..n];
    assert forall j :: 0 <= j < n ==> msgs[j] == stream[j];
    WalkFinds(f, pid, dump, stream, 0);
    HitsAreAddresses(f, pid, dump, stream);
    forall a | AddrIn(hits, a)
      ensures a in k && Selects(f, a)
    {
      var i :| 0 <= i < |hits| && hits[i].Msg? && hits[i].body == NewAddr(a);
      var j :| 0 <= j < |stream| && stream[j] == hits[i];
      assert j < n && msgs[j] == stream[j];
    }
    forall a | a in k && Selects(f, a)
      ensures AddrIn(hits, a)
    {
      var i :| 0 <= i < |msgs| && Ours(msgs[i], pid, dump) && msgs[i].body == NewAddr(a);
      assert stream[i] in hits;
    }
  }

  /** Every hit is requested, with its own address. */
  lemma HitsRequested(hits: seq<Msg>, s: nat)
    requires Numbered(hits)
    ensures forall i :: 0 <= i < |hits| ==> Requests(hits, s)[i].addr == hits[i].body.addr
    ensures hits != [] ==> AddrIn(hits, hits[0].body.addr)
  {
    assert hits != [] ==> IsNewAddr(hits[0]) && hits[0].body == NewAddr(hits[0].body.addr);
  }

  lemma RequestedGone(f: Filter, hits: seq<Msg>, s: nat, k: set<Addr>, k': set<Addr>, a: Addr)
    requires Numbered(hits) && Deletes(f, k, Requests(hits, s), k') && AddrIn(hits, a)
    ensures a !in k'
  {
    HitsRequested(hits, s);
    var i :| 0 <= i < |hits| && hits[i].Msg? && hits[i].body == NewAddr(a);
    assert Requests(hits, s)[i].addr == a;
  }

  /** Once its requests are carried out, nothing that passes the filter is left. */
  lemma RoundEmpties(f: Filter, pid: nat, dump: nat, stream: seq<Msg>, k: set<Addr>, k': set<Addr>)
    requires Snapshot(pid, dump, stream, k)
    requires var hits := WalkDump(f, pid, dump, stream).hits;
             Numbered(hits) && Deletes(f, k, Requests(hits, dump), k')
    ensures forall a :: a in k' ==> !Selects(f, a)
  {
    var hits := WalkDump(f, pid, dump, stream).hits;
    HitsOfSnapshot(f, pid, dump, stream, k);
    forall a | AddrIn(hits, a)
      ensures a !in k'
    {
      RequestedGone(f, hits, dump, k, k', a);
    }
  }

  /**
    Against a kernel that carries out the requests and adds no address that
    passes, at most one round of deletes is made, its requests are all that was
    sent, no address that passes the filter is left, and the flush reports
    success after at most two dumps, unless the limit is one round and that
    round had something to delete.
  */
  lemma FlushSucceeds(f: Filter, pid: nat, env: Env, s: nat, limit: Limit, k0: set<Addr>, k1: set<Addr>)
    requires limit.Rounds() >= 2 || limit == AtMost(1)
    requires Snapshot(pid, Bump(s), env.dump(0, Bump(s)), k0)
    requires var hits := RoundWalk(f, pid, env, 0, s).hits;
             var s1 := SeqAfter(Bump(s), |hits|);
             Numbered(hits) && Deletes(f, k0, Requests(hits, Bump(s)), k1)
             && Snapshot(pid, Bump(s1), env.dump(1, Bump(s1)), k1)
    ensures var r, hits := FlushResult(f, pid, env, 0, s, limit), RoundWalk(f, pid, env, 0, s).hits;
            && r.rounds <= 1
            && (r.outcome == Complete <==> limit != AtMost(1) || hits == [] || WantsPrimary(f))
            && FlushRequests(f, pid, env, 0, s, limit) == Requests(hits, Bump(s))
    ensures forall a :: a in k1 ==> !Selects(f, a)
  {
    var hits := RoundWalk(f, pid, env, 0, s).hits;
    var s1 := SeqAfter(Bump(s), |hits|);
    HitsOfSnapshot(f, pid, Bump(s), env.dump(0, Bump(s)), k0);
    RoundEmpties(f, pid, Bump(s), env.dump(0, Bump(s)), k0, k1);
    NothingLeft(f, pid, Bump(s1), env.dump(1, Bump(s1)), k1);
    assert limit != AtMost(1) ==> FlushResult(f, pid, env, 1, s1, limit) == Result(Complete, 1);
    assert FlushRequests(f, pid, env, 1, s1, limit) == [];
  }

  /** The dump of a set in which nothing passes has no hits. */
  lemma NothingLeft(f: Filter, pid: nat, dump: nat, stream: seq<Msg>, k: set<Addr>)
    requires Snapshot(pid, dump, stream, k) && forall a :: a in k ==> !Selects(f, a)
    ensures WalkDump(f, pid, dump, stream) == Walked(true, [])
  {
    HitsOfSnapshot(f, pid, dump, stream, k);
    HitsAreAddresses(f, pid, dump, stream);
    HitsRequested(WalkDump(f, pid, dump, stream).hits, 0);
  }
}
