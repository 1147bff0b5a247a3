/**
  The message buffer: a linked list of elements with a first pointer, a last
  pointer and a count.  Each method is what its function does while it holds
  the mutex; waiting is the subject of the protocol model.
*/
module MsgQueue {
  import opened Octets

  const TMSG_MAX_LEN := 4096

  class Element {
    var next: Element?
    const msg: int
    const ext: int
    const sub0: int
    const sub1: int
    const dtLen: int
    const dt: Option<seq<char>>

    constructor (msg: int, ext: int, sub0: int, sub1: int, dtLen: int, dt: Option<seq<char>>)
      ensures next == null
      ensures this.msg == msg && this.ext == ext && this.sub0 == sub0 && this.sub1 == sub1
      ensures this.dtLen == dtLen && this.dt == dt
    {
      next := null;
      this.msg, this.ext, this.sub0, this.sub1, this.dtLen, this.dt := msg, ext, sub0, sub1, dtLen, dt;
    }
  }

  /** What became of an element that left the buffer. */
  datatype Fate = Delivered | Freed

  /** The elements of a list of departures, in order. */
  ghost function Elements(gone: seq<(Element, Fate)>): (es: seq<Element>)
    ensures |es| == |gone| && forall i :: 0 <= i < |gone| ==> es[i] == gone[i].0
  {
    seq(|gone|, i requires 0 <= i < |gone| => gone[i].0)
  }

  /** The account balances when the first element leaves. */
  lemma Depart(put: seq<Element>, gone: seq<(Element, Fate)>, queue: seq<Element>, fate: Fate)
    requires put == Elements(gone) + queue && queue != []
    ensures put == Elements(gone + [(queue[0], fate)]) + queue[1..]
  {
    assert Elements(gone + [(queue[0], fate)]) == Elements(gone) + [queue[0]];
    assert queue == [queue[0]] + queue[1..];
  }

  class Buffer {
    var first: Element?
    var last: Element?
    var num: nat
    /** The chain from `first` to `last`. */
    ghost var queue: seq<Element>
    /** Every element put, in order. */
    ghost var put: seq<Element>
    /** Every element that left, in order, and how. */
    ghost var gone: seq<(Element, Fate)>

    /**
      The chain is intact, the count is its length, and every element put has
      left exactly once or is still queued, in the order of the puts.
    */
    ghost predicate Valid()
      reads this, queue
    {
      && num == |queue|
      && (queue == [] ==> first == null && last == null)
      && (queue != [] ==> first == queue[0] && last == queue[|queue| - 1] && queue[|queue| - 1].next == null)
      && (forall i :: 0 <= i < |queue| - 1 ==> queue[i].next == queue[i + 1])
      && (forall i, j :: 0 <= i < j < |queue| ==> queue[i] != queue[j])
      && put == Elements(gone) + queue
    }

    constructor ()
      ensures Valid() && queue == [] && put == [] && gone == []
    {
      first, last, num := null, null, 0;
      queue, put, gone := [], [], [];
    }

    /** `put_msg_to_buffer`: append at the tail; signal exactly when the buffer was empty. */
    method Put(elm: Element) returns (signal: bool)
      requires Valid() && elm !in queue
      modifies this, elm, last
      ensures Valid()
      ensures queue == old(queue) + [elm] && put == old(put) + [elm] && gone == old(gone)
      ensures signal == (old(queue) == [])
    {
      if elm.next != null {
        elm.next := null;
      }
      if first == last && num == 0 {
        first, last := elm, elm;
        num := num + 1;
        signal := true;
      } else {
        last.next := elm;
        last := elm;
        num := num + 1;
        signal := false;
      }
      put := put + [elm];
      queue := queue + [elm];
    }

    /** Detach the first element, the common end of both get functions. */
    method TakeFirst() returns (elm: Element)
      requires Valid() && queue != []
      modifies this
      ensures Valid()
      ensures elm == old(queue)[0] && queue == old(queue)[1..]
      ensures put == old(put) && gone == old(gone) + [(elm, Delivered)]
    {
      elm := first;
      if num == 1 {
        first, last := null, null;
        num := 0;
      } else {
        first := first.next;
        num := num - 1;
      }
      Depart(put, gone, queue, Delivered);
      gone := gone + [(elm, Delivered)];
      queue := queue[1..];
    }

    /** `get_msg_from_buffer_timeout` after its wait: the oldest message, or none. */
    method GetTimeout() returns (elm: Element?)
      requires Valid()
      modifies this
      ensures Valid() && put == old(put)
      ensures old(queue) == [] ==> elm == null && queue == [] && gone == old(gone)
      ensures old(queue) != [] ==> elm == old(queue)[0] && queue == old(queue)[1..]
                                   && gone == old(gone) + [(old(queue)[0], Delivered)]
    {
      elm := null;
      if num > 0 {
        elm := TakeFirst();
      }
    }

    /** `clear_msg_buffer`: free everything but the newest message. */
    method Clear() returns (elm: Element?)
      requires Valid()
      modifies this
      ensures Valid() && put == old(put)
      ensures old(queue) == [] ==> elm == null && queue == [] && gone == old(gone)
      ensures old(queue) != [] ==>
                && elm == old(queue)[|old(queue)| - 1] && queue == [elm]
                && gone == old(gone) + FreedAll(old(queue)[..|old(queue)| - 1])
    {
      elm := null;
      if num > 0 {
        elm := first;
        ghost var k := 0;
        ghost var all, gone0 := queue, gone;
        while elm != last
          invariant 0 <= k < |all| && queue == all[k..] && elm == queue[0] == first
          invariant Valid() && put == old(put)
          invariant gone == gone0 + FreedAll(all[..k])
          decreases |queue|
        {
          var tmp := elm.next;
          FreeFirst(elm);
          elm := tmp;
          assert all[..k + 1] == all[..k] + [all[k]];
          k := k + 1;
        }
        // the count has come down to 1 by now, so the source's correction to 1 has nothing to do
        assert queue == [elm] && all[k] == elm;
      }
    }

    /** The body of the clearing loop: free the first of several elements. */
    method FreeFirst(elm: Element)
      requires Valid() && |queue| > 1 && elm == first
      modifies this
      ensures Valid() && put == old(put) && queue == old(queue)[1..] && first == queue[0]
      ensures gone == old(gone) + [(elm, Freed)]
    {
      num := num - 1;
      first := elm.next;
      Depart(put, gone, queue, Freed);
      gone := gone + [(elm, Freed)];
      queue := queue[1..];
    }

    /** `dispose_msg_buffer`: free whatever is left; every element put has then left. */
    method Dispose()
      requires Valid()
      modifies this
      ensures Valid() && queue == [] && put == old(put) == Elements(gone)
      ensures gone == old(gone) + FreedAll(old(queue))
    {
      var elm: Element?;
      if first != last && num > 0 {
        elm := Clear();
      } else {
        elm := last;
      }
      if elm != null {
        first, last, num := null, null, 0;
        Depart(put, gone, queue, Freed);
        gone := gone + [(elm, Freed)];
        queue := [];
      }
      assert |old(queue)| > 0 ==> old(queue) == old(queue)[..|old(queue)| - 1] + [elm];
    }

    /**
      `send_msg_to_buffer_ex`: a new element with a copy of the data, cut to the
      maximum length.  `room` and `dataRoom` say whether the two allocations
      succeed; for data of negative length the second cannot, as it asks for
      more than any object can hold.  Then nothing is put.
    */
    method SendMsgEx(msg: int, ext: int, sub0: int, sub1: int, str: Option<seq<char>>, length: int,
                     room: bool, dataRoom: bool)
      returns (elm: Element?)
      requires Valid() && (str.Some? ==> length <= |str.value| || TMSG_MAX_LEN <= |str.value|)
      modifies this, last
      ensures Valid()
      ensures elm == null <==> !room || (str.Some? && (length < 0 || !dataRoom))
      ensures elm == null ==> queue == old(queue) && put == old(put) && gone == old(gone)
      ensures elm != null ==>
                && fresh(elm) && queue == old(queue) + [elm] && put == old(put) + [elm] && gone == old(gone)
                && elm.msg == msg && elm.ext == ext && elm.sub0 == sub0 && elm.sub1 == sub1
                && elm.dtLen == (if length > 4096 then 4096 else length)
                && elm.dt == (if str.Some? then Some(str.value[..elm.dtLen]) else None)
    {
      elm := null;
      if !room {
        return;
      }
      var len := length;
      if len > TMSG_MAX_LEN {
        len := TMSG_MAX_LEN;
      }
      var dt: Option<seq<char>> := None;
      if str.Some? {
        if len < 0 || !dataRoom {
          return;
        }
        dt := Some(str.value[..len]);
      }
      elm := new Element(msg, ext, sub0, sub1, len, dt);
      var _ := Put(elm);
    }
  }

  ghost function FreedAll(es: seq<Element>): (gone: seq<(Element, Fate)>)
    ensures |gone| == |es| && forall i :: 0 <= i < |es| ==> gone[i] == (es[i], Freed)
  {
    seq(|es|, i requires 0 <= i < |es| => (es[i], Freed))
  }
}
