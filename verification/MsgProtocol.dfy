/**
  The blocking protocol of the message buffer as a state machine: any number
  of threads, a mutex, one condition variable, and every statement that
  another thread can observe as a step of its own.

  `put` signals only when the buffer was empty.  With at most one thread
  blocked at a time no wake-up is lost; with two, one can be.
*/
module MsgProtocol {
  /** Where a thread is.  All states but Out, Blocked and Awake hold the mutex. */
  datatype Pc =
    | Out
    | PutLocked(m: int)
    | PutAppended(wasEmpty: bool)
    | GetLocked(timed: bool, waited: bool)
    | Blocked(timed: bool)
    | Awake(timed: bool)
    | ClearLocked
    | Leaving

  datatype State = State(queue: seq<int>, owner: int, pcs: map<nat, Pc>)

  const NOBODY := -1

  function PcOf(s: State, t: nat): (pc: Pc)
  {
    if t in s.pcs then s.pcs[t] else Out
  }

  function Goto(s: State, t: nat, pc: Pc): (s': State)
    ensures PcOf(s', t) == pc && forall u: nat :: u != t ==> PcOf(s', u) == PcOf(s, u)
  {
    s.(pcs := s.pcs[t := pc])
  }

  predicate Holding(pc: Pc)
  {
    !pc.Out? && !pc.Blocked? && !pc.Awake?
  }

  ghost predicate Init(s: State)
  {
    s.queue == [] && s.owner == NOBODY && forall t: nat :: PcOf(s, t) == Out
  }

  /** A thread outside takes the free mutex to put, get or clear. */
  ghost predicate Enter(s: State, s': State, t: nat)
  {
    && PcOf(s, t).Out? && s.owner == NOBODY
    && exists pc: Pc :: (pc.PutLocked? || pc == GetLocked(true, false) || pc == GetLocked(false, false) || pc.ClearLocked?)
                    && s' == Goto(s, t, pc).(owner := t)
  }

  ghost predicate AppendStep(s: State, s': State, t: nat)
  {
    PcOf(s, t).PutLocked?
    && s' == Goto(s, t, PutAppended(s.queue == [])).(queue := s.queue + [PcOf(s, t).m])
  }

  /** `pthread_cond_signal`: wake one blocked thread if there is one. */
  ghost predicate SignalStep(s: State, s': State, t: nat)
  {
    && PcOf(s, t) == PutAppended(true)
    && if forall u: nat :: !PcOf(s, u).Blocked? then s' == Goto(s, t, Leaving)
       else exists u: nat :: PcOf(s, u).Blocked? && s' == Goto(Goto(s, u, Awake(PcOf(s, u).timed)), t, Leaving)
  }

  ghost predicate NoSignalStep(s: State, s': State, t: nat)
  {
    PcOf(s, t) == PutAppended(false) && s' == Goto(s, t, Leaving)
  }

  /** Inside get: take a message, or wait, or (a timed get that has waited) give up. */
  ghost predicate GetStep(s: State, s': State, t: nat)
  {
    && PcOf(s, t).GetLocked?
    && var pc := PcOf(s, t);
       if s.queue != [] then s' == Goto(s, t, Leaving).(queue := s.queue[1..])
       else if pc.timed && pc.waited then s' == Goto(s, t, Leaving)
       else s' == Goto(s, t, Blocked(pc.timed)).(owner := NOBODY)
  }

  /** A spurious wake-up or an expired timeout. */
  ghost predicate StirStep(s: State, s': State, t: nat)
  {
    PcOf(s, t).Blocked? && s' == Goto(s, t, Awake(PcOf(s, t).timed))
  }

  /** A thread woken up takes the mutex again and looks again. */
  ghost predicate ResumeStep(s: State, s': State, t: nat)
  {
    PcOf(s, t).Awake? && s.owner == NOBODY
    && s' == Goto(s, t, GetLocked(PcOf(s, t).timed, true)).(owner := t)
  }

  ghost predicate ClearStep(s: State, s': State, t: nat)
  {
    PcOf(s, t).ClearLocked?
    && s' == Goto(s, t, Leaving).(queue := if s.queue == [] then [] else s.queue[|s.queue| - 1..])
  }

  ghost predicate LeaveStep(s: State, s': State, t: nat)
  {
    PcOf(s, t).Leaving? && s' == Goto(s, t, Out).(owner := NOBODY)
  }

  ghost predicate Step(s: State, s': State, t: nat)
  {
    || Enter(s, s', t) || AppendStep(s, s', t) || SignalStep(s, s', t) || NoSignalStep(s, s', t)
    || GetStep(s, s', t) || StirStep(s, s', t) || ResumeStep(s, s', t) || ClearStep(s, s', t) || LeaveStep(s, s', t)
  }

  ghost predicate Next(s: State, s': State)
  {
    exists t: nat :: Step(s, s', t)
  }

  /** A run: a list of states, each a step after the one before. */
  ghost predicate Run(states: seq<State>)
  {
    |states| > 0 && Init(states[0]) && forall i :: 0 <= i < |states| - 1 ==> Next(states[i], states[i + 1])
  }

  /** At most one thread is blocked on the condition variable. */
  ghost predicate OneWaiter(s: State)
  {
    forall t: nat, u: nat :: PcOf(s, t).Blocked? && PcOf(s, u).Blocked? ==> t == u
  }

  // ----- safety

  /** The mutex works: whoever is inside is its owner. */
  ghost predicate MutexHeld(s: State)
  {
    forall t: nat :: Holding(PcOf(s, t)) ==> s.owner == t
  }

  /** The owner has just made the buffer non-empty and is about to signal. */
  ghost predicate SignalPending(s: State)
  {
    exists t: nat :: PcOf(s, t) == PutAppended(true)
  }

  /** A thread that is blocked has nothing to fetch, unless a signal is on its way. */
  ghost predicate NoLostWakeup(s: State)
  {
    (exists t: nat :: PcOf(s, t).Blocked?) ==> s.queue == [] || SignalPending(s)
  }

  /** Mutual exclusion is kept by every step, for any number of threads. */
  lemma MutexKept(s: State, s': State, t: nat)
    requires MutexHeld(s) && Step(s, s', t)
    ensures MutexHeld(s')
  {
    forall u: nat | Holding(PcOf(s', u))
      ensures s'.owner == u
    {
      if u != t {
        OthersHold(s, s', t, u);
        assert s.owner == u;
      }
    }
  }

  /** No step gives the mutex to another thread. */
  lemma OthersHold(s: State, s': State, t: nat, u: nat)
    requires Step(s, s', t) && u != t && Holding(PcOf(s', u))
    ensures Holding(PcOf(s, u))
    ensures Holding(PcOf(s, t)) || s.owner == NOBODY || s'.owner == s.owner
  {
    if SignalStep(s, s', t) && exists w: nat :: PcOf(s, w).Blocked? {
      var w: nat :| PcOf(s, w).Blocked? && s' == Goto(Goto(s, w, Awake(PcOf(s, w).timed)), t, Leaving);
    }
  }

  /** With one waiter at most, no step loses a wake-up. */
  lemma WakeupKept(s: State, s': State, t: nat)
    requires MutexHeld(s) && NoLostWakeup(s) && OneWaiter(s) && Step(s, s', t)
    ensures NoLostWakeup(s')
  {
    if u: nat :| PcOf(s', u).Blocked? {
      if SignalStep(s, s', t) {
        SignalWakes(s, s', t);
      } else if PcOf(s, u).Blocked? {
        QuietStep(s, s', t, u);
      } else {
        assert GetStep(s, s', t) && s.queue == [];
      }
    }
  }

  /** After the signal nobody is left blocked. */
  lemma SignalWakes(s: State, s': State, t: nat)
    requires OneWaiter(s) && SignalStep(s, s', t)
    ensures forall u: nat :: !PcOf(s', u).Blocked?
  {
    if exists u: nat :: PcOf(s, u).Blocked? {
      var u: nat :| PcOf(s, u).Blocked? && s' == Goto(Goto(s, u, Awake(PcOf(s, u).timed)), t, Leaving);
    }
  }

  /** The bound is exact: a signal for a non-empty buffer suffices if and only if one thread at most is blocked. */
  lemma SignalExact(s: State, s': State, t: nat)
    requires MutexHeld(s) && SignalStep(s, s', t) && s.queue != []
    ensures NoLostWakeup(s') <==> OneWaiter(s)
  {
    if OneWaiter(s) {
      SignalWakes(s, s', t);
    } else {
      var w: nat :| PcOf(s, w).Blocked? && s' == Goto(Goto(s, w, Awake(PcOf(s, w).timed)), t, Leaving);
      LeftBehind(s, s', t, w);
    }
  }

  lemma LeftBehind(s: State, s': State, t: nat, w: nat)
    requires MutexHeld(s) && !OneWaiter(s) && s.queue != [] && PcOf(s, t) == PutAppended(true)
    requires PcOf(s, w).Blocked? && s' == Goto(Goto(s, w, Awake(PcOf(s, w).timed)), t, Leaving)
    ensures !NoLostWakeup(s')
  {
    var u: nat :| PcOf(s, u).Blocked? && u != w;
    assert PcOf(s', u).Blocked?;
    assert Holding(PcOf(s, t)) && s.owner == t;
    forall v: nat
      ensures PcOf(s', v) != PutAppended(true)
    {
      assert PcOf(s, v) == PutAppended(true) ==> Holding(PcOf(s, v));
    }
  }

  /** Any other step of a thread leaves a blocked thread with an empty buffer or a pending signal. */
  lemma QuietStep(s: State, s': State, t: nat, u: nat)
    requires MutexHeld(s) && NoLostWakeup(s) && Step(s, s', t) && !SignalStep(s, s', t)
    requires PcOf(s, u).Blocked? && PcOf(s', u).Blocked?
    ensures s'.queue == [] || SignalPending(s')
  {
    if s.queue == [] {
      if AppendStep(s, s', t) { assert PcOf(s', t) == PutAppended(true); }
    } else {
      var o: nat :| PcOf(s, o) == PutAppended(true);
      assert s.owner == o;
      assert o != t ==> PcOf(s', o) == PutAppended(true);
    }
  }

  /**
    In every run in which at most one thread is blocked at a time, with any
    number of threads putting, getting and clearing: a thread still blocked
    implies an empty buffer or a signal on its way.
  */
  lemma {:induction false} NeverLost(states: seq<State>)
    requires Run(states)
    requires forall i :: 0 <= i < |states| ==> OneWaiter(states[i])
    ensures forall i :: 0 <= i < |states| ==> MutexHeld(states[i]) && NoLostWakeup(states[i])
  {
    if |states| > 1 {
      var n := |states| - 1;
      var init := states[..n];
      forall i | 0 <= i < |init| - 1
        ensures Next(init[i], init[i + 1])
      {
        assert Next(states[i], states[i + 1]);
      }
      NeverLost(init);
      assert Next(states[n - 1], states[n]);
      var t: nat :| Step(states[n - 1], states[n], t);
      assert init[n - 1] == states[n - 1];
      MutexKept(states[n - 1], states[n], t);
      WakeupKept(states[n - 1], states[n], t);
      forall i | 0 <= i < |states|
        ensures MutexHeld(states[i]) && NoLostWakeup(states[i])
      {
        if i < n { assert init[i] == states[i]; }
      }
    }
  }

  // ----- the order of messages

  lemma SignalKeepsQueue(s: State, s': State, t: nat)
    requires SignalStep(s, s', t)
    ensures s'.queue == s.queue
  {
    if exists w: nat :: PcOf(s, w).Blocked? {
      var w: nat :| PcOf(s, w).Blocked? && s' == Goto(Goto(s, w, Awake(PcOf(s, w).timed)), t, Leaving);
    }
  }

  /** Every step appends one message, or drops some from the front; only a get can take the last one. */
  lemma QueueStep(s: State, s': State, t: nat)
    requires Step(s, s', t)
    ensures if AppendStep(s, s', t) then s'.queue == s.queue + [PcOf(s, t).m] else Suffix(s'.queue, s.queue)
    ensures s.queue != [] && s'.queue == [] ==> GetStep(s, s', t) && |s.queue| == 1
    ensures ClearStep(s, s', t) && s.queue != [] ==> |s'.queue| == 1
  {
    if SignalStep(s, s', t) {
      SignalKeepsQueue(s, s', t);
    } else if AppendStep(s, s', t) {
      assert PcOf(s, t).PutLocked?;
    } else if GetStep(s, s', t) || ClearStep(s, s', t) {
      assert !PcOf(s, t).PutLocked?;
    } else {
      assert s'.queue == s.queue;
    }
  }

  /** What any step does to the buffer. */
  lemma QueueNext(s: State, s': State)
    requires Next(s, s')
    ensures Suffix(s'.queue, s.queue) || (|s'.queue| == |s.queue| + 1 && s'.queue[..|s.queue|] == s.queue)
  {
    var t: nat :| Step(s, s', t);
    QueueStep(s, s', t);
  }

  /** A get takes the oldest message; from an empty buffer it leaves exactly if it is timed and has waited, else it waits. */
  lemma GetEndings(s: State, s': State, t: nat)
    requires GetStep(s, s', t)
    ensures s.queue != [] ==> PcOf(s', t).Leaving? && s.queue == [s.queue[0]] + s'.queue
    ensures s.queue == [] ==>
              && s'.queue == [] && (PcOf(s', t).Leaving? <==> PcOf(s, t).timed && PcOf(s, t).waited)
              && (PcOf(s', t).Blocked? <==> !PcOf(s, t).timed || !PcOf(s, t).waited)
    ensures PcOf(s', t).Blocked? ==> s'.owner == NOBODY
  {}

  ghost predicate Suffix(q: seq<int>, all: seq<int>)
  {
    |q| <= |all| && q == all[|all| - |q|..]
  }

  /** The messages put in a run, in order: each step that lengthens the buffer puts its last message. */
  ghost function Puts(states: seq<State>, n: nat): (ms: seq<int>)
    requires n < |states|
  {
    if n == 0 then []
    else
      var q, q' := states[n - 1].queue, states[n].queue;
      Puts(states, n - 1) + if |q'| > |q| then [q'[|q'| - 1]] else []
  }

  lemma SuffixStep(q: seq<int>, all: seq<int>, q': seq<int>)
    requires Suffix(q, all) && (Suffix(q', q) || (|q'| == |q| + 1 && q'[..|q|] == q))
    ensures Suffix(q', all + if |q'| > |q| then [q'[|q'| - 1]] else [])
  {}

  /** In every run, with any number of threads, the buffer holds the newest messages put, in the order of the puts. */
  lemma {:induction false} FifoRun(states: seq<State>, n: nat)
    requires Run(states) && n < |states|
    ensures Suffix(states[n].queue, Puts(states, n))
  {
    if n > 0 {
      FifoRun(states, n - 1);
      assert Next(states[n - 1], states[n - 1 + 1]);
      QueueNext(states[n - 1], states[n]);
      SuffixStep(states[n - 1].queue, Puts(states, n - 1), states[n].queue);
    }
  }

  // ----- two waiters are one too many

  /** A message waits, a thread is blocked, and nobody is left who would wake it. */
  ghost predicate Stuck(s: State)
  {
    && s.queue != [] && (exists t: nat :: PcOf(s, t).Blocked?)
    && forall t: nat :: PcOf(s, t).Blocked? || PcOf(s, t).Out?
  }

  /** In a run with one waiter at a time the protocol is never stuck. */
  lemma NeverStuck(states: seq<State>, i: nat)
    requires Run(states) && i < |states|
    requires forall j :: 0 <= j < |states| ==> OneWaiter(states[j])
    ensures !Stuck(states[i])
  {
    NeverLost(states);
    assert NoLostWakeup(states[i]);
  }

  lemma Extend(states: seq<State>, s': State, t: nat)
    requires Run(states) && Step(states[|states| - 1], s', t)
    ensures Run(states + [s'])
  {
    var all := states + [s'];
    forall i | 0 <= i < |all| - 1
      ensures Next(all[i], all[i + 1])
    {
      if i < |states| - 1 { assert Next(states[i], states[i + 1]); }
    }
  }

  lemma Entering(s: State, t: nat, pc: Pc) returns (s': State)
    requires PcOf(s, t).Out? && s.owner == NOBODY
    requires pc.PutLocked? || pc == GetLocked(false, false)
    ensures s' == Goto(s, t, pc).(owner := t) && Step(s, s', t)
  {
    s' := Goto(s, t, pc).(owner := t);
    assert Enter(s, s', t);
  }

  /** Thread `t` calls get on an empty buffer and blocks. */
  lemma BlockRun(states: seq<State>, t: nat) returns (all: seq<State>, s': State)
    requires Run(states)
    requires var s := states[|states| - 1]; PcOf(s, t).Out? && s.owner == NOBODY && s.queue == []
    ensures Run(all) && s' == all[|all| - 1]
    ensures s'.owner == NOBODY && s'.queue == [] && PcOf(s', t) == Blocked(false)
    ensures forall u: nat :: u != t ==> PcOf(s', u) == PcOf(states[|states| - 1], u)
  {
    var s1 := Entering(states[|states| - 1], t, GetLocked(false, false));
    Extend(states, s1, t);
    s' := Goto(s1, t, Blocked(false)).(owner := NOBODY);
    assert PcOf(s1, t) == GetLocked(false, false);
    assert GetStep(s1, s', t);
    Extend(states + [s1], s', t);
    all := states + [s1] + [s'];
  }

  /** Thread `t` puts `m`; if the buffer was empty and `w` is blocked, `w` wakes up. */
  lemma PutRun(states: seq<State>, t: nat, m: int, w: nat) returns (all: seq<State>, s': State)
    requires Run(states) && t != w
    requires var s := states[|states| - 1];
             PcOf(s, t).Out? && s.owner == NOBODY && (s.queue == [] ==> PcOf(s, w) == Blocked(false))
    ensures var s := states[|states| - 1];
            && Run(all) && s' == all[|all| - 1]
            && s'.owner == NOBODY && s'.queue == s.queue + [m] && PcOf(s', t).Out?
            && PcOf(s', w) == (if s.queue == [] then Awake(false) else PcOf(s, w))
            && forall u: nat :: u != t && u != w ==> PcOf(s', u) == PcOf(s, u)
  {
    var s := states[|states| - 1];
    var s1 := Entering(s, t, PutLocked(m));
    Extend(states, s1, t);
    var s2 := Goto(s1, t, PutAppended(s.queue == [])).(queue := s.queue + [m]);
    assert PcOf(s1, t) == PutLocked(m);
    assert AppendStep(s1, s2, t);
    Extend(states + [s1], s2, t);
    assert PcOf(s2, t) == PutAppended(s.queue == []);
    var s3 := s2;
    if s.queue == [] {
      assert PcOf(s2, w) == Blocked(false);
      s3 := Goto(Goto(s2, w, Awake(false)), t, Leaving);
      assert SignalStep(s2, s3, t);
    } else {
      s3 := Goto(s2, t, Leaving);
      assert NoSignalStep(s2, s3, t);
    }
    Extend(states + [s1] + [s2], s3, t);
    assert PcOf(s3, t) == Leaving;
    s' := Goto(s3, t, Out).(owner := NOBODY);
    assert LeaveStep(s3, s', t);
    Extend(states + [s1] + [s2] + [s3], s', t);
    all := states + [s1] + [s2] + [s3] + [s'];
  }

  /** A woken thread fetches the first message and leaves. */
  lemma FetchRun(states: seq<State>, t: nat) returns (all: seq<State>, s': State)
    requires Run(states)
    requires var s := states[|states| - 1]; PcOf(s, t) == Awake(false) && s.owner == NOBODY && s.queue != []
    ensures Run(all) && s' == all[|all| - 1]
    ensures s'.queue == states[|states| - 1].queue[1..] && PcOf(s', t).Out?
    ensures forall u: nat :: u != t ==> PcOf(s', u) == PcOf(states[|states| - 1], u)
  {
    var s := states[|states| - 1];
    var s1 := Goto(s, t, GetLocked(false, true)).(owner := t);
    assert ResumeStep(s, s1, t);
    Extend(states, s1, t);
    assert PcOf(s1, t) == GetLocked(false, true);
    var s2 := Goto(s1, t, Leaving).(queue := s.queue[1..]);
    assert GetStep(s1, s2, t);
    Extend(states + [s1], s2, t);
    assert PcOf(s2, t) == Leaving;
    s' := Goto(s2, t, Out).(owner := NOBODY);
    assert LeaveStep(s2, s', t);
    Extend(states + [s1] + [s2], s', t);
    all := states + [s1] + [s2] + [s'];
  }

  /**
    Two blocked consumers and two puts in a row: the second put does not
    signal, the first consumer takes one message, the other sleeps on.
  */
  lemma TwoWaitersCanStick() returns (states: seq<State>)
    ensures Run(states) && Stuck(states[|states| - 1])
  {
    var s := State([], NOBODY, map[]);
    states := [s];
    states, s := BlockRun(states, 1);
    assert PcOf(s, 1) == Blocked(false);
    states, s := BlockRun(states, 2);
    states, s := PutRun(states, 0, 7, 1);
    states, s := PutRun(states, 0, 8, 1);
    states, s := FetchRun(states, 1);
    assert PcOf(s, 2).Blocked?;
  }
}
