/**
  Many timers on one periodic signal: a fixed array of slots, each counting
  the ticks since it last fired.  Callbacks run inside the tick and may set
  and delete timers themselves.
*/
module MulTimer {
  import opened Octets

  const MAX_TIMER_CNT := 10
  const MAX_FUNC_ARG_LEN := 100

  /** A slot; `proc` stands for the callback. */
  datatype Slot = Slot(on: bool, interval: int, elapse: int, proc: Option<nat>, arg: seq<char>)

  /** What `memset` to zero leaves. */
  const CLEAR := Slot(false, 0, 0, None, [])

  /** A call of `set_a_timer` or `del_a_timer`. */
  datatype Command = Set(interval: int, proc: Option<nat>, arg: Option<seq<char>>) | Del(handle: int)

  /** What happens to the timers: a tick, with what each slot's callback would do, or a call from outside. */
  datatype Event = Tick(react: nat -> seq<Command>) | Call(command: Command)

  /** A callback that has run: the slot, the function and its argument. */
  datatype Firing = Firing(slot: nat, proc: Option<nat>, arg: seq<char>)

  /**
    The timers and their history: the callbacks that have run, the handles
    that set calls have returned, and the slots that set and delete calls have
    overwritten, each in order.
  */
  datatype State = State(slots: seq<Slot>, fired: seq<Firing>, given: seq<nat>, touched: seq<nat>)

  predicate SlotOk(s: Slot)
  {
    s.on ==> 0 <= s.elapse < s.interval && s.proc.Some?
  }

  ghost predicate Ok(st: State)
  {
    |st.slots| == 10 && forall i :: 0 <= i < 10 ==> SlotOk(st.slots[i])
  }

  // ----- what each call and each tick does

  ghost function FirstFree(slots: seq<Slot>): (i: nat)
    ensures i <= |slots| && (forall k :: 0 <= k < i ==> slots[k].on) && (i < |slots| ==> !slots[i].on)
  {
    if slots == [] || !slots[0].on then 0 else 1 + FirstFree(slots[1..])
  }

  lemma FirstFreeUnique(slots: seq<Slot>, i: nat)
    requires i <= |slots| && (forall k :: 0 <= k < i ==> slots[k].on) && (i < |slots| ==> !slots[i].on)
    ensures FirstFree(slots) == i
  {}

  ghost function Do(st: State, c: Command): (st': State)
  {
    match c
    case Set(interval, proc, arg) =>
      var i := FirstFree(st.slots);
      if proc.None? || interval <= 0 || i == |st.slots| then st
      else if arg.Some? && |arg.value| > 100 then
        st.(slots := st.slots[i := CLEAR.(proc := proc)], touched := st.touched + [i])
      else
        st.(slots := st.slots[i := Slot(true, interval, 0, proc, if arg.Some? then arg.value else [])],
            given := st.given + [i], touched := st.touched + [i])
    case Del(handle) =>
      if 0 <= handle < |st.slots| then st.(slots := st.slots[handle := CLEAR], touched := st.touched + [handle])
      else st
  }

  /** The first `n` of some calls, one after another. */
  ghost function DoAll(st: State, commands: seq<Command>, n: nat): (st': State)
    requires n <= |commands|
  {
    if n == 0 then st else Do(DoAll(st, commands, n - 1), commands[n - 1])
  }

  /** The part of a tick that concerns slot `i`. */
  ghost function TickSlot(st: State, react: nat -> seq<Command>, i: nat): (st': State)
    requires i < |st.slots|
  {
    var s := st.slots[i];
    if !s.on then st
    else if s.elapse + 1 != s.interval then st.(slots := st.slots[i := s.(elapse := s.elapse + 1)])
    else DoAll(Fire(st, i), react(i), |react(i)|)
  }

  /** Slot `i` starts over and its callback is called. */
  ghost function Fire(st: State, i: nat): (st': State)
    requires i < |st.slots|
  {
    var s := st.slots[i];
    st.(slots := st.slots[i := s.(elapse := 0)], fired := st.fired + [Firing(i, s.proc, s.arg)])
  }

  lemma {:induction false} DoOk(st: State, c: Command)
    requires Ok(st)
    ensures Ok(Do(st, c)) && Do(st, c).fired == st.fired
  {}

  lemma {:induction false} DoAllOk(st: State, commands: seq<Command>, n: nat)
    requires Ok(st) && n <= |commands|
    ensures Ok(DoAll(st, commands, n)) && DoAll(st, commands, n).fired == st.fired
  {
    if n > 0 {
      DoAllOk(st, commands, n - 1);
      DoOk(DoAll(st, commands, n - 1), commands[n - 1]);
    }
  }

  lemma TickSlotOk(st: State, react: nat -> seq<Command>, i: nat)
    requires Ok(st) && i < 10
    ensures Ok(TickSlot(st, react, i))
  {
    var s := st.slots[i];
    if s.on && s.elapse + 1 == s.interval {
      DoAllOk(Fire(st, i), react(i), |react(i)|);
    }
  }

  /** A tick that has come to slot `n`. */
  ghost function TickUpTo(st: State, react: nat -> seq<Command>, n: nat): (st': State)
    requires Ok(st) && n <= 10
    ensures Ok(st')
  {
    if n == 0 then st
    else
      TickSlotOk(TickUpTo(st, react, n - 1), react, n - 1);
      TickSlot(TickUpTo(st, react, n - 1), react, n - 1)
  }

  ghost function Happen(st: State, e: Event): (st': State)
    requires Ok(st)
    ensures Ok(st')
  {
    match e
    case Tick(react) => TickUpTo(st, react, 10)
    case Call(c) => DoOk(st, c); Do(st, c)
  }

  /** The first `n` events of a run. */
  ghost function RunUpTo(st: State, events: seq<Event>, n: nat): (st': State)
    requires Ok(st) && n <= |events|
    ensures Ok(st')
  {
    if n == 0 then st else Happen(RunUpTo(st, events, n - 1), events[n - 1])
  }

  // ----- the code

  class Timers {
    const slots: array<Slot>
    ghost var fired: seq<Firing>
    ghost var given: seq<nat>
    ghost var touched: seq<nat>

    ghost function View(): (st: State)
      reads this, slots
    {
      State(slots[..], fired, given, touched)
    }

    ghost predicate Valid()
      reads this, slots
    {
      slots.Length == MAX_TIMER_CNT && Ok(View())
    }

    constructor ()
      ensures Valid() && fired == [] && given == [] && touched == []
      ensures forall i :: 0 <= i < 10 ==> slots[i] == CLEAR
    {
      slots := new Slot[MAX_TIMER_CNT](_ => CLEAR);
      fired, given, touched := [], [], [];
    }

    /** `set_a_timer`: the first free slot, or -1.  No other slot changes. */
    method SetTimer(interval: int, proc: Option<nat>, arg: Option<seq<char>>) returns (handle: int)
      requires Valid()
      modifies this, slots
      ensures Valid() && View() == Do(old(View()), Set(interval, proc, arg))
      ensures handle == -1 || 0 <= handle < 10
      ensures handle >= 0 ==>
                && !old(slots[handle].on) && (forall k :: 0 <= k < handle ==> old(slots[k].on))
                && interval > 0 && proc.Some?
                && slots[handle] == Slot(true, interval, 0, proc, if arg.Some? then arg.value else [])
      ensures handle == -1 <==>
                || proc.None? || interval <= 0 || (arg.Some? && |arg.value| > 100)
                || forall k :: 0 <= k < 10 ==> old(slots[k].on)
      ensures forall k :: 0 <= k < 10 && k != handle ==>
                slots[k].on == old(slots[k].on) && (slots[k].on ==> slots[k] == old(slots[k]))
    {
      if proc.None? || interval <= 0 {
        return -1;
      }
      var i := 0;
      while i < MAX_TIMER_CNT && slots[i].on
        invariant 0 <= i <= MAX_TIMER_CNT
        invariant forall k :: 0 <= k < i ==> slots[k].on
      {
        i := i + 1;
      }
      FirstFreeUnique(slots[..], i);
      if i == MAX_TIMER_CNT {
        return -1;
      }
      touched := touched + [i];
      slots[i] := CLEAR.(proc := proc);
      if arg.Some? {
        if |arg.value| > MAX_FUNC_ARG_LEN {
          return -1;
        }
        slots[i] := slots[i].(arg := arg.value);
      }
      slots[i] := slots[i].(interval := interval, elapse := 0, on := true);
      given := given + [i];
      return i;
    }

    /** `del_a_timer`. */
    method DelTimer(handle: int) returns (r: int)
      requires Valid()
      modifies this, slots
      ensures Valid() && View() == Do(old(View()), Del(handle))
      ensures r == if 0 <= handle < 10 then 0 else -1
      ensures forall k :: 0 <= k < 10 ==> slots[k] == if k == handle then CLEAR else old(slots[k])
    {
      if handle < 0 || handle >= MAX_TIMER_CNT {
        return -1;
      }
      slots[handle] := CLEAR;
      touched := touched + [handle];
      return 0;
    }

    method Execute(c: Command)
      requires Valid()
      modifies this, slots
      ensures Valid() && View() == Do(old(View()), c)
    {
      match c
      case Set(interval, proc, arg) =>
        var _ := SetTimer(interval, proc, arg);
      case Del(handle) =>
        var _ := DelTimer(handle);
    }

    /** The body of a callback: calls one after another. */
    method Callback(commands: seq<Command>)
      requires Valid()
      modifies this, slots
      ensures Valid() && View() == DoAll(old(View()), commands, |commands|)
    {
      for n := 0 to |commands|
        invariant Valid() && View() == DoAll(old(View()), commands, n)
      {
        Execute(commands[n]);
      }
    }

    /** The body of the loop of `sig_func`. */
    method HandleSlot(react: nat -> seq<Command>, i: nat)
      requires Valid() && i < MAX_TIMER_CNT
      modifies this, slots
      ensures Valid() && View() == TickSlot(old(View()), react, i)
    {
      TickSlotOk(View(), react, i);
      if !slots[i].on {
        return;
      }
      ghost var before, s := slots[..], slots[i];
      slots[i] := slots[i].(elapse := slots[i].elapse + 1);
      assert slots[..] == before[i := s.(elapse := s.elapse + 1)];
      if slots[i].elapse == slots[i].interval {
        slots[i] := slots[i].(elapse := 0);
        assert slots[..] == before[i := s.(elapse := 0)];
        fired := fired + [Firing(i, slots[i].proc, slots[i].arg)];
        Callback(react(i));
      }
    }

    /**
      `sig_func`: a timer that was live before the tick, and that no callback of
      the tick deletes, moves on by exactly one tick.  Slots fire in order, each
      at most once, and only if they were live and due, or were given out during
      the tick.  A slot that is off and not given out does not fire and stays
      off; if no call touches it, it does not change.
    */
    method HandleTick(react: nat -> seq<Command>)
      requires Valid()
      modifies this, slots
      ensures Valid() && View() == Happen(old(View()), Tick(react))
      ensures forall h :: 0 <= h < 10 && old(slots[h].on) && Spares(react, h) ==>
                && slots[h] == Ticked(old(slots[h]))
                && Count(fired, h) == Count(old(fired), h) + Fires(old(slots[h]))
      ensures FiresInOrder(old(View()), View())
      ensures forall h :: 0 <= h < 10 ==> Quiet(old(View()), View(), h)
    {
      for i := 0 to MAX_TIMER_CNT
        invariant Valid() && View() == TickUpTo(old(View()), react, i)
      {
        HandleSlot(react, i);
      }
      forall h | 0 <= h < 10 && old(slots[h].on) && Spares(react, h)
        ensures slots[h] == Ticked(old(slots[h]))
        ensures Count(fired, h) == Count(old(fired), h) + Fires(old(slots[h]))
      {
        LiveTick(old(View()), react, 10, h);
      }
      TickInOrder(old(View()), react, 10);
      forall h | 0 <= h < 10
        ensures Quiet(old(View()), View(), h)
      {
        QuietTick(old(View()), react, 10, h);
      }
    }

    /**
      Any sequence of ticks and calls: a timer that nothing deletes has fired
      once per full interval of ticks, and its counter holds the rest, whatever
      other timers and their callbacks do.  A slot that is off does not fire
      unless a set call gives it out.
    */
    method Run(events: seq<Event>)
      requires Valid()
      modifies this, slots
      ensures Valid() && View() == RunUpTo(old(View()), events, |events|)
      ensures forall h :: 0 <= h < 10 && old(slots[h].on) && SparesAll(events, h) ==>
                var total := old(slots[h].elapse) + Ticks(events);
                && slots[h] == old(slots[h]).(elapse := total % old(slots[h].interval))
                && Count(fired, h) == Count(old(fired), h) + total / old(slots[h].interval)
      ensures forall h :: 0 <= h < 10 ==> Quiet(old(View()), View(), h)
    {
      for n := 0 to |events|
        invariant Valid() && View() == RunUpTo(old(View()), events, n)
      {
        match events[n]
        case Tick(react) => HandleTick(react);
        case Call(c) => Execute(c);
      }
      forall h | 0 <= h < 10
        ensures Quiet(old(View()), View(), h)
      {
        QuietRun(old(View()), events, |events|, h);
      }
      forall h | 0 <= h < 10 && old(slots[h].on) && SparesAll(events, h)
        ensures slots[h] == old(slots[h]).(elapse := (old(slots[h].elapse) + Ticks(events)) % old(slots[h].interval))
        ensures Count(fired, h) == Count(old(fired), h) + (old(slots[h].elapse) + Ticks(events)) / old(slots[h].interval)
      {
        LiveRunDivMod(old(View()), events, h);
      }
    }

    /** A deleted timer does not fire until a set call gives its handle out again. */
    method DeleteAndRun(h: nat, events: seq<Event>) returns (r: int)
      requires Valid() && h < 10
      modifies this, slots
      ensures Valid() && r == 0
      ensures Times(given, h) == Times(old(given), h) ==> Count(fired, h) == Count(old(fired), h) && !slots[h].on
    {
      r := DelTimer(h);
      ghost var mid := View();
      assert mid.slots[h] == CLEAR && mid.given == old(given) && mid.fired == old(fired);
      Run(events);
      assert Quiet(mid, View(), h);
    }
  }

  // ----- live timers

  function Count(log: seq<Firing>, h: nat): (n: nat)
  {
    if log == [] then 0 else Count(log[..|log| - 1], h) + if log[|log| - 1].slot == h then 1 else 0
  }

  lemma {:induction false} CountSnoc(log: seq<Firing>, f: Firing, h: nat)
    ensures Count(log + [f], h) == Count(log, h) + if f.slot == h then 1 else 0
  {
    assert (log + [f])[..|log|] == log;
  }

  /** A slot one tick later, when nobody else touches it. */
  function Ticked(s: Slot): (s': Slot)
  {
    s.(elapse := if s.elapse + 1 == s.interval then 0 else s.elapse + 1)
  }

  function Fires(s: Slot): (n: nat)
  {
    if s.elapse + 1 == s.interval then 1 else 0
  }

  /** No callback of this tick deletes `h`. */
  ghost predicate Spares(react: nat -> seq<Command>, h: nat)
  {
    forall i: nat, k :: 0 <= k < |react(i)| ==> react(i)[k] != Del(h)
  }

  lemma LiveDo(st: State, c: Command, h: nat)
    requires Ok(st) && h < 10 && st.slots[h].on && c != Del(h)
    ensures Do(st, c).slots[h] == st.slots[h]
  {}

  lemma {:induction false} LiveDoAll(st: State, commands: seq<Command>, n: nat, h: nat)
    requires Ok(st) && h < 10 && st.slots[h].on && n <= |commands|
    requires forall k :: 0 <= k < |commands| ==> commands[k] != Del(h)
    ensures Ok(DoAll(st, commands, n)) && DoAll(st, commands, n).slots[h] == st.slots[h]
  {
    DoAllOk(st, commands, n);
    if n > 0 {
      LiveDoAll(st, commands, n - 1, h);
      LiveDo(DoAll(st, commands, n - 1), commands[n - 1], h);
    }
  }

  lemma LiveTickSlot(st: State, react: nat -> seq<Command>, i: nat, h: nat)
    requires Ok(st) && i < 10 && h < 10 && st.slots[h].on && Spares(react, h)
    ensures var st' := TickSlot(st, react, i);
            && |st'.slots| == 10
            && st'.slots[h] == (if i == h then Ticked(st.slots[h]) else st.slots[h])
            && Count(st'.fired, h) == Count(st.fired, h) + if i == h then Fires(st.slots[h]) else 0
  {
    TickSlotOk(st, react, i);
    var s := st.slots[i];
    if s.on && s.elapse + 1 == s.interval {
      CountSnoc(st.fired, Firing(i, s.proc, s.arg), h);
      DoAllOk(Fire(st, i), react(i), |react(i)|);
      LiveDoAll(Fire(st, i), react(i), |react(i)|, h);
    }
  }

  /** A live timer that the tick's callbacks spare moves on when the tick comes to it. */
  lemma {:induction false} LiveTick(st: State, react: nat -> seq<Command>, n: nat, h: nat)
    requires Ok(st) && n <= 10 && h < 10 && st.slots[h].on && Spares(react, h)
    ensures var st' := TickUpTo(st, react, n);
            && st'.slots[h] == (if h < n then Ticked(st.slots[h]) else st.slots[h])
            && Count(st'.fired, h) == Count(st.fired, h) + if h < n then Fires(st.slots[h]) else 0
  {
    if n > 0 {
      LiveTick(st, react, n - 1, h);
      LiveTickSlot(TickUpTo(st, react, n - 1), react, n - 1, h);
    }
  }

  /** The ticks among the first `n` events. */
  function TicksUpTo(events: seq<Event>, n: nat): (t: nat)
    requires n <= |events|
  {
    if n == 0 then 0 else TicksUpTo(events, n - 1) + if events[n - 1].Tick? then 1 else 0
  }

  function Ticks(events: seq<Event>): (t: nat)
  {
    TicksUpTo(events, |events|)
  }

  ghost predicate Spared(e: Event, h: nat)
  {
    match e
    case Tick(react) => Spares(react, h)
    case Call(c) => c != Del(h)
  }

  /** Nothing in the run deletes `h`. */
  ghost predicate SparesAll(events: seq<Event>, h: nat)
  {
    forall i :: 0 <= i < |events| ==> Spared(events[i], h)
  }

  /** Slot `s` after `t` ticks is `now` and has fired `n` times. */
  ghost predicate On(s: Slot, t: nat, now: Slot, n: int)
  {
    && now == s.(elapse := now.elapse) && 0 <= now.elapse < s.interval
    && n >= 0 && s.elapse + t == s.interval * n + now.elapse
  }

  lemma OneTick(s: Slot, t: nat, now: Slot, n: int)
    requires On(s, t, now, n)
    ensures On(s, t + 1, Ticked(now), n + Fires(now))
  {
    assert s.interval * (n + 1) == s.interval * n + s.interval;
  }

  /** Between two states slot `h` has seen `t` ticks. */
  ghost predicate Ran(st: State, st': State, t: nat, h: nat)
    requires h < |st.slots| && h < |st'.slots|
  {
    On(st.slots[h], t, st'.slots[h], Count(st'.fired, h) - Count(st.fired, h))
  }

  lemma RanMore(st: State, mid: State, st': State, t: nat, h: nat, tick: bool)
    requires h < |st.slots| && h < |mid.slots| && h < |st'.slots| && Ran(st, mid, t, h)
    requires st'.slots[h] == if tick then Ticked(mid.slots[h]) else mid.slots[h]
    requires Count(st'.fired, h) == Count(mid.fired, h) + if tick then Fires(mid.slots[h]) else 0
    ensures Ran(st, st', if tick then t + 1 else t, h)
  {
    OneTick(st.slots[h], t, mid.slots[h], Count(mid.fired, h) - Count(st.fired, h));
  }

  lemma {:induction false} LiveHappen(st: State, e: Event, h: nat)
    requires Ok(st) && h < 10 && st.slots[h].on && Spared(e, h)
    ensures var st' := Happen(st, e);
            && st'.slots[h] == (if e.Tick? then Ticked(st.slots[h]) else st.slots[h])
            && Count(st'.fired, h) == Count(st.fired, h) + if e.Tick? then Fires(st.slots[h]) else 0
  {
    match e
    case Tick(react) =>
      LiveTick(st, react, 10, h);
    case Call(c) =>
      DoOk(st, c);
      LiveDo(st, c, h);
  }

  lemma {:induction false} LiveRun(st: State, events: seq<Event>, n: nat, h: nat)
    requires Ok(st) && n <= |events| && h < 10 && st.slots[h].on && SparesAll(events, h)
    ensures RunUpTo(st, events, n).slots[h].on && Ran(st, RunUpTo(st, events, n), TicksUpTo(events, n), h)
  {
    if n > 0 {
      var mid, e := RunUpTo(st, events, n - 1), events[n - 1];
      LiveRun(st, events, n - 1, h);
      LiveHappen(mid, e, h);
      RanMore(st, mid, Happen(mid, e), TicksUpTo(events, n - 1), h, e.Tick?);
    }
  }

  /** In terms of division. */
  lemma OnDivMod(s: Slot, t: nat, now: Slot, n: int)
    requires On(s, t, now, n) && s.elapse >= 0
    ensures s.interval > 0
    ensures now == s.(elapse := (s.elapse + t) % s.interval) && n == (s.elapse + t) / s.interval
  {
    DivModUnique(s.elapse + t, s.interval, n, now.elapse);
  }

  /** After `t` ticks slot `h` has fired once per full interval, and its counter holds the rest. */
  ghost predicate FiredExactly(st: State, st': State, t: nat, h: nat)
    requires h < |st.slots| && h < |st'.slots|
  {
    var s, total := st.slots[h], st.slots[h].elapse + t;
    && s.interval > 0
    && st'.slots[h] == s.(elapse := total % s.interval)
    && Count(st'.fired, h) == Count(st.fired, h) + total / s.interval
  }

  lemma RanDivMod(st: State, st': State, t: nat, h: nat)
    requires h < |st.slots| && h < |st'.slots| && Ran(st, st', t, h) && st.slots[h].elapse >= 0
    ensures FiredExactly(st, st', t, h)
  {
    OnDivMod(st.slots[h], t, st'.slots[h], Count(st'.fired, h) - Count(st.fired, h));
  }

  /** A timer that nothing deletes fires once per full interval. */
  lemma {:induction false} LiveRunDivMod(st: State, events: seq<Event>, h: nat)
    requires Ok(st) && h < 10 && st.slots[h].on && SparesAll(events, h)
    ensures FiredExactly(st, RunUpTo(st, events, |events|), Ticks(events), h)
  {
    LiveRun(st, events, |events|, h);
    RanDivMod(st, RunUpTo(st, events, |events|), Ticks(events), h);
  }

  lemma DivModUnique(x: nat, n: nat, q: nat, r: nat)
    requires n > 0 && r < n && x == n * q + r
    ensures x / n == q && x % n == r
  {
    var d := x / n - q;
    assert n * d == r - x % n;
    Multiples(n, d);
  }

  lemma Multiples(n: int, d: int)
    requires n > 0
    ensures d >= 1 ==> n * d >= n
    ensures d <= -1 ==> n * d <= -n
  {}

  // ----- slots that are off

  /** How often `h` occurs in a log. */
  function Times(log: seq<nat>, h: nat): (n: nat)
  {
    if log == [] then 0 else Times(log[..|log| - 1], h) + if log[|log| - 1] == h then 1 else 0
  }

  lemma {:induction false} TimesSnoc(log: seq<nat>, x: nat, h: nat)
    ensures Times(log + [x], h) == Times(log, h) + if x == h then 1 else 0
  {
    assert (log + [x])[..|log|] == log;
  }

  /** The logs of handles given and slots touched have grown. */
  ghost predicate Later(st: State, st': State, h: nat)
  {
    |st.slots| == |st'.slots| == 10
    && Times(st.given, h) <= Times(st'.given, h) && Times(st.touched, h) <= Times(st'.touched, h)
  }

  /**
    Between two states, if slot `h` is off in the first and no set call gives
    it out: it is off in the second and has not fired, and if no call touches
    it, it has not changed.
  */
  ghost predicate Quiet(st: State, st': State, h: nat)
    requires h < 10
  {
    && Later(st, st', h)
    && (!st.slots[h].on && Times(st.given, h) == Times(st'.given, h) ==>
          && !st'.slots[h].on && Count(st.fired, h) == Count(st'.fired, h)
          && (Times(st.touched, h) == Times(st'.touched, h) ==> st'.slots[h] == st.slots[h]))
  }

  lemma QuietTrans(st: State, st': State, st'': State, h: nat)
    requires h < 10 && Quiet(st, st', h) && Quiet(st', st'', h)
    ensures Quiet(st, st'', h)
  {}

  lemma {:induction false} QuietSet(st: State, i: nat, s: Slot, gives: bool, h: nat)
    requires Ok(st) && i < 10 && !st.slots[i].on && h < 10 && (s.on ==> gives)
    ensures Quiet(st, State(st.slots[i := s], st.fired, if gives then st.given + [i] else st.given, st.touched + [i]), h)
  {
    TimesSnoc(st.given, i, h);
    TimesSnoc(st.touched, i, h);
  }

  lemma {:induction false} QuietDel(st: State, i: nat, h: nat)
    requires Ok(st) && i < 10 && h < 10
    ensures Quiet(st, st.(slots := st.slots[i := CLEAR], touched := st.touched + [i]), h)
  {
    TimesSnoc(st.touched, i, h);
  }

  lemma {:induction false} QuietDo(st: State, c: Command, h: nat)
    requires Ok(st) && h < 10
    ensures Quiet(st, Do(st, c), h)
  {
    var i := FirstFree(st.slots);
    match c
    case Set(interval, proc, arg) =>
      if i < 10 {
        QuietSet(st, i, CLEAR.(proc := proc), false, h);
        QuietSet(st, i, Slot(true, interval, 0, proc, if arg.Some? then arg.value else []), true, h);
      }
    case Del(handle) =>
      if 0 <= handle < 10 {
        QuietDel(st, handle, h);
      }
  }

  lemma {:induction false} QuietDoAll(st: State, commands: seq<Command>, n: nat, h: nat)
    requires Ok(st) && h < 10 && n <= |commands|
    ensures Quiet(st, DoAll(st, commands, n), h)
  {
    if n > 0 {
      var mid := DoAll(st, commands, n - 1);
      QuietDoAll(st, commands, n - 1, h);
      DoAllOk(st, commands, n - 1);
      QuietDo(mid, commands[n - 1], h);
      QuietTrans(st, mid, Do(mid, commands[n - 1]), h);
    }
  }

  lemma FireOk(st: State, i: nat)
    requires Ok(st) && i < 10
    ensures Ok(Fire(st, i))
  {}

  lemma {:induction false} QuietBy(st: State, st': State, h: nat)
    requires |st.slots| == |st'.slots| == 10 && h < 10 && st.given == st'.given && st.touched == st'.touched
    requires st.slots[h].on || (st'.slots[h] == st.slots[h] && Count(st'.fired, h) == Count(st.fired, h))
    ensures Quiet(st, st', h)
  {}

  /** Only a live slot is changed when it fires. */
  lemma {:induction false} QuietFire(st: State, i: nat, h: nat)
    requires Ok(st) && i < 10 && st.slots[i].on && h < 10
    ensures Quiet(st, Fire(st, i), h)
  {
    if h != i {
      CountSnoc(st.fired, Firing(i, st.slots[i].proc, st.slots[i].arg), h);
    }
    QuietBy(st, Fire(st, i), h);
  }

  lemma {:induction false} KeptFire(st: State, i: nat, h: nat)
    requires Ok(st) && i < 10 && h < 10 && h != i
    ensures KeptOrOff(st, Fire(st, i), h)
  {}

  lemma {:induction false} QuietTickSlot(st: State, react: nat -> seq<Command>, i: nat, h: nat)
    requires Ok(st) && i < 10 && h < 10
    ensures Quiet(st, TickSlot(st, react, i), h)
  {
    var s := st.slots[i];
    if s.on && s.elapse + 1 == s.interval {
      FireOk(st, i);
      QuietFire(st, i, h);
      QuietDoAll(Fire(st, i), react(i), |react(i)|, h);
      QuietTrans(st, Fire(st, i), TickSlot(st, react, i), h);
    }
  }

  /** A tick leaves slots that are off alone. */
  lemma {:induction false} QuietTick(st: State, react: nat -> seq<Command>, n: nat, h: nat)
    requires Ok(st) && n <= 10 && h < 10
    ensures Quiet(st, TickUpTo(st, react, n), h)
  {
    if n > 0 {
      var mid := TickUpTo(st, react, n - 1);
      QuietTick(st, react, n - 1, h);
      QuietTickSlot(mid, react, n - 1, h);
      QuietTrans(st, mid, TickSlot(mid, react, n - 1), h);
    }
  }

  lemma {:induction false} QuietHappen(st: State, e: Event, h: nat)
    requires Ok(st) && h < 10
    ensures Quiet(st, Happen(st, e), h)
  {
    match e
    case Tick(react) => QuietTick(st, react, 10, h);
    case Call(c) => QuietDo(st, c, h);
  }

  /** So does a run. */
  lemma {:induction false} QuietRun(st: State, events: seq<Event>, n: nat, h: nat)
    requires Ok(st) && n <= |events| && h < 10
    ensures Quiet(st, RunUpTo(st, events, n), h)
  {
    if n > 0 {
      var mid := RunUpTo(st, events, n - 1);
      QuietRun(st, events, n - 1, h);
      QuietHappen(mid, events[n - 1], h);
      QuietTrans(st, mid, RunUpTo(st, events, n), h);
    }
  }

  // ----- the order in which slots fire

  /** Unless a set call gives it out, slot `h` stays as it was or goes off. */
  ghost predicate KeptOrOff(st: State, st': State, h: nat)
    requires h < 10
  {
    && Later(st, st', h)
    && (Times(st.given, h) == Times(st'.given, h) ==> st'.slots[h] == st.slots[h] || !st'.slots[h].on)
  }

  lemma KeptTrans(st: State, st': State, st'': State, h: nat)
    requires h < 10 && KeptOrOff(st, st', h) && KeptOrOff(st', st'', h)
    ensures KeptOrOff(st, st'', h)
  {}

  lemma {:induction false} KeptDo(st: State, c: Command, h: nat)
    requires Ok(st) && h < 10
    ensures KeptOrOff(st, Do(st, c), h)
  {
    QuietDo(st, c, h);
    TimesSnoc(st.given, FirstFree(st.slots), h);
  }

  lemma {:induction false} KeptDoAll(st: State, commands: seq<Command>, n: nat, h: nat)
    requires Ok(st) && h < 10 && n <= |commands|
    ensures KeptOrOff(st, DoAll(st, commands, n), h)
  {
    if n > 0 {
      var mid := DoAll(st, commands, n - 1);
      KeptDoAll(st, commands, n - 1, h);
      DoAllOk(st, commands, n - 1);
      KeptDo(mid, commands[n - 1], h);
      KeptTrans(st, mid, Do(mid, commands[n - 1]), h);
    }
  }

  /** What a tick does to the slots it has not come to yet. */
  lemma {:induction false} KeptTick(st: State, react: nat -> seq<Command>, n: nat, h: nat)
    requires Ok(st) && n <= h < 10
    ensures KeptOrOff(st, TickUpTo(st, react, n), h)
  {
    if n > 0 {
      var mid, i := TickUpTo(st, react, n - 1), n - 1;
      KeptTick(st, react, i, h);
      var s := mid.slots[i];
      if s.on && s.elapse + 1 == s.interval {
        FireOk(mid, i);
        KeptFire(mid, i, h);
        KeptDoAll(Fire(mid, i), react(i), |react(i)|, h);
        KeptTrans(mid, Fire(mid, i), TickSlot(mid, react, i), h);
      }
      KeptTrans(st, mid, TickUpTo(st, react, n), h);
    }
  }

  /** A firing of a slot that was live and due before, with its own function and argument, or given out since. */
  ghost predicate Due(st: State, st': State, f: Firing)
  {
    && f.slot < 10 && Later(st, st', f.slot)
    && (Times(st.given, f.slot) == Times(st'.given, f.slot) ==>
          var s := st.slots[f.slot]; s.on && s.elapse + 1 == s.interval && f.proc == s.proc && f.arg == s.arg)
  }

  /** The firings between two states are in the order of their slots, each slot at most once, and all are due. */
  ghost predicate FiresInOrder(st: State, st': State)
  {
    && st.fired <= st'.fired
    && (forall k :: |st.fired| <= k < |st'.fired| ==> Due(st, st', st'.fired[k]))
    && (forall j, k :: |st.fired| <= j < k < |st'.fired| ==> st'.fired[j].slot < st'.fired[k].slot)
  }

  /** A firing that was due stays due. */
  lemma DueLater(st: State, mid: State, st': State, f: Firing)
    requires Due(st, mid, f) && Later(mid, st', f.slot)
    ensures Due(st, st', f)
  {}

  ghost predicate LaterAll(st: State, st': State)
  {
    forall h :: 0 <= h < 10 ==> Later(st, st', h)
  }

  /** The order goes on when nothing fires, or one more slot that is due. */
  lemma InOrderMore(st: State, mid: State, st': State, i: nat)
    requires FiresInOrder(st, mid) && LaterAll(mid, st')
    requires forall k :: |st.fired| <= k < |mid.fired| ==> mid.fired[k].slot < i
    requires st'.fired == mid.fired || (exists f :: st'.fired == mid.fired + [f] && f.slot == i && Due(st, st', f))
    ensures FiresInOrder(st, st') && forall k :: |st.fired| <= k < |st'.fired| ==> st'.fired[k].slot <= i
  {
    forall k | |st.fired| <= k < |st'.fired|
      ensures Due(st, st', st'.fired[k])
    {
      if k < |mid.fired| {
        assert st'.fired[k] == mid.fired[k];
        DueLater(st, mid, st', mid.fired[k]);
      }
    }
  }

  /** What slot `i` adds to the firings, when the tick comes to it. */
  lemma TickSlotFires(st: State, react: nat -> seq<Command>, i: nat) returns (f: Firing)
    requires Ok(st) && i < 10
    ensures var mid, st' := TickUpTo(st, react, i), TickUpTo(st, react, i + 1);
            st'.fired == mid.fired || (st'.fired == mid.fired + [f] && f.slot == i && Due(st, st', f))
  {
    var mid, st' := TickUpTo(st, react, i), TickUpTo(st, react, i + 1);
    var s := mid.slots[i];
    f := Firing(i, s.proc, s.arg);
    if s.on && s.elapse + 1 == s.interval {
      FireOk(mid, i);
      DoAllOk(Fire(mid, i), react(i), |react(i)|);
      KeptTick(st, react, i, i);
      QuietTickSlot(mid, react, i, i);
    }
  }

  /** Slots fire in order, each at most once, and only when due. */
  lemma {:induction false} TickInOrder(st: State, react: nat -> seq<Command>, n: nat)
    requires Ok(st) && n <= 10
    ensures var st' := TickUpTo(st, react, n);
            FiresInOrder(st, st') && forall k :: |st.fired| <= k < |st'.fired| ==> st'.fired[k].slot < n
  {
    if n > 0 {
      var mid, st' := TickUpTo(st, react, n - 1), TickUpTo(st, react, n);
      TickInOrder(st, react, n - 1);
      forall h | 0 <= h < 10
        ensures Later(mid, st', h)
      {
        QuietTickSlot(mid, react, n - 1, h);
      }
      var f := TickSlotFires(st, react, n - 1);
      InOrderMore(st, mid, st', n - 1);
    }
  }
}
