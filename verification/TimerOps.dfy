/** What each operation of the clock means for the firings, tick counts and channels that follow, and
  * what it leaves alone. */
module TimerOps {
  import opened Arith
  import opened Basics
  import opened TimerModel
  import opened TimerLaws

  /** The handle fires at this very time. */
  ghost predicate FiresAt(fs: seq<Firing>, id: nat, at: int) { exists f <- fs :: f.id == id && f.at == at }

  /** Every firing of the handle runs a callback, or none does. */
  ghost predicate AllRun(fs: seq<Firing>, id: nat, ran: bool) { forall f <- fs :: f.id == id ==> f.ran == ran }

  /** The firings of one entry during a callback-free `Set`. */
  lemma EntryFires(s: State, id: nat, t: int, at: int)
    requires Valid(s) && id in s.timers
    ensures var e, r := s.timers[id], SetLoop(s, t, []).0;
            && s.log <= r.log && AllRun(r.log[|s.log|..], id, e.hasFn)
            && (FiresAt(r.log[|s.log|..], id, at) <==> Owed(s.timers, t, Firing(id, e.order, at, e.hasFn)))
  {
    hide SetLoop;
    ExactFiring(s, t);
  }

  /** What a callback-free `Set` leaves in the channel of an entry that is due first at its deadline. */
  lemma EntrySends(s: State, id: nat, t: int)
    requires Valid(s) && id in s.timers
    ensures var e, r := s.timers[id], SetLoop(s, t, []).0;
            && (id in s.chans ==> id in r.chans && r.chans[id] == s.chans[id])
            && (id !in s.chans ==> (id in r.chans <==> DueEntry(e, t) && e.hasChan && !e.hasFn))
            && (id !in s.chans && id in r.chans ==> r.chans[id] == e.deadline)
            && (id in r.timers <==> e.period > 0 || !DueEntry(e, t))
  {
    hide SetLoop;
    ExactFiring(s, t);
  }

  // ---------------------------------------------------------------- tickers

  /** From a start on, at every multiple of the period up to t. */
  predicate OnBeat(start: int, period: int, t: int, at: int)
    requires period > 0
  {
    start < at <= t && (at - start) % period == 0
  }

  /** What a ticker does that was set going at `start`: it fires on every beat and at no other time,
    * (t - start) / d times, counts that many ticks, runs no callback, and leaves the time of the first
    * beat in its channel if that was empty. */
  ghost predicate TicksFrom(s: State, r: State, id: nat, start: int, d: int, ticks: nat, t: int)
    requires d > 0
  {
    && s.log <= r.log
    && (forall at :: FiresAt(r.log[|s.log|..], id, at) <==> OnBeat(start, d, t, at))
    && CountOf(r.log[|s.log|..], id) == (t - start) / d
    && AllRun(r.log[|s.log|..], id, false)
    && id in r.timers && r.timers[id].ticks == ticks + (t - start) / d
    && (if id in s.chans then id in r.chans && r.chans[id] == s.chans[id]
        else id in r.chans <==> start + d <= t)
    && (id !in s.chans && id in r.chans ==> r.chans[id] == start + d)
  }

  lemma Beats(start: int, d: int, t: int)
    requires d > 0 && start <= t
    ensures var n := if start + d <= t then (t - (start + d)) / d + 1 else 0; n == (t - start) / d
  {
    if start + d <= t {
      DivShift(t - start, d);
      assert t - (start + d) == t - start - d;
    } else {
      DivUnique(t - start, d, 0, t - start);
    }
  }

  lemma TickerRuns(s: State, id: nat, d: int, t: int)
    requires Valid(s) && id in s.timers && d > 0 && s.now <= t
    requires var e := s.timers[id]; e.active && e.period == d && e.deadline == s.now + d
    ensures TicksFrom(s, SetLoop(s, t, []).0, id, s.now, d, s.timers[id].ticks, t)
  {
    hide SetLoop, Valid, FiresAt, AllRun, OnBeat, CountOf, Weight, Owed;
    var r := SetLoop(s, t, []).0;
    TickerCounts(s, id, d, t);
    EntrySends(s, id, t);
    EntryFires(s, id, t, t);
    assert !s.timers[id].hasFn && s.timers[id].hasChan by { TickerSends(s, id); }
    forall at ensures FiresAt(r.log[|s.log|..], id, at) <==> OnBeat(s.now, d, t, at) {
      FiresOnBeat(s, id, d, t, at);
    }
  }

  lemma TickerSends(s: State, id: nat)
    requires Valid(s) && id in s.timers && s.timers[id].period > 0
    ensures s.timers[id].hasChan && !s.timers[id].hasFn
  {
    assert EntryOk(s, id);
  }

  lemma TickerCounts(s: State, id: nat, d: int, t: int)
    requires Valid(s) && id in s.timers && d > 0 && s.now <= t
    requires var e := s.timers[id]; e.active && e.period == d && e.deadline == s.now + d
    ensures var r, n := SetLoop(s, t, []).0, (t - s.now) / d;
            && s.log <= r.log && CountOf(r.log[|s.log|..], id) == n
            && id in r.timers && r.timers[id].ticks == s.timers[id].ticks + n
  {
    hide SetLoop, Valid, CountOf;
    FiresPerEntry(s, t, id);
    Beats(s.now, d, t);
  }

  lemma FiresOnBeat(s: State, id: nat, d: int, t: int, at: int)
    requires Valid(s) && id in s.timers && d > 0 && s.now <= t
    requires var e := s.timers[id]; e.active && e.period == d && e.deadline == s.now + d
    ensures var r := SetLoop(s, t, []).0;
            s.log <= r.log && (FiresAt(r.log[|s.log|..], id, at) <==> OnBeat(s.now, d, t, at))
  {
    hide SetLoop, Valid, FiresAt, AllRun;
    EntryFires(s, id, t, at);
    TickStep(s.now, d, at);
  }

  /** A new ticker first ticks one period from now. One with a period that is not positive is a panic. */
  lemma NewTickerTicks(s: State, d: int, t: int)
    requires Valid(s) && s.now <= t
    ensures d <= 0 ==> Apply(s, NewTicker(d)) == s
    ensures d > 0 ==> TicksFrom(s, SetLoop(Apply(s, NewTicker(d)), t, []).0, s.nextID + 1, s.now, d, 0, t)
  {
    if d > 0 {
      var a, id := Apply(s, NewTicker(d)), s.nextID + 1;
      assert a.log == s.log && a.chans == s.chans;
      TickerRuns(a, id, d, t);
    }
  }

  /** A reset ticker, live or stopped, starts over one new period from now and goes on counting. */
  lemma TickerResetTicks(s: State, id: nat, d: int, t: int)
    requires Valid(s) && s.now <= t && HasTicker(s, id)
    ensures d <= 0 || id !in s.timers ==> Apply(s, TickerReset(id, d)) == s
    ensures d > 0 && id in s.timers ==>
              TicksFrom(s, SetLoop(Apply(s, TickerReset(id, d)), t, []).0, id, s.now, d, s.timers[id].ticks, t)
  {
    if d > 0 && id in s.timers {
      var a := Apply(s, TickerReset(id, d));
      assert a.log == s.log && a.chans == s.chans;
      TickerRuns(a, id, d, t);
    }
  }

  // ---------------------------------------------------------------- one-shots

  /** What a one-shot does that is due at `due`: it fires then, once, if that is reached, and is gone;
    * it runs its callback, or else leaves the time in its channel if it has one that is empty. */
  ghost predicate FiresOnceFrom(s: State, r: State, id: nat, due: int, ran: bool, sends: bool, t: int) {
    && s.log <= r.log
    && (forall at :: FiresAt(r.log[|s.log|..], id, at) <==> at == due <= t)
    && CountOf(r.log[|s.log|..], id) == (if due <= t then 1 else 0)
    && AllRun(r.log[|s.log|..], id, ran)
    && (id in r.timers <==> due > t)
    && (if id in s.chans then id in r.chans && r.chans[id] == s.chans[id]
        else id in r.chans <==> sends && due <= t)
    && (id !in s.chans && id in r.chans ==> r.chans[id] == due)
  }

  lemma OneShotRuns(s: State, id: nat, t: int)
    requires Valid(s) && id in s.timers && s.timers[id].period == 0
    ensures var e := s.timers[id];
            FiresOnceFrom(s, SetLoop(s, t, []).0, id, e.deadline, e.hasFn, e.hasChan && !e.hasFn, t)
  {
    var e, r := s.timers[id], SetLoop(s, t, []).0;
    assert EntryOk(s, id);
    FiresPerEntry(s, t, id);
    EntrySends(s, id, t);
    EntryFires(s, id, t, t);
    hide SetLoop, Valid, FiresAt, AllRun;
    forall at ensures FiresAt(r.log[|s.log|..], id, at) <==> at == e.deadline <= t { EntryFires(s, id, t, at); }
  }

  /** NewTimer: once, d from now, into the channel. */
  lemma NewTimerFires(s: State, d: int, t: int)
    requires Valid(s)
    ensures FiresOnceFrom(s, SetLoop(Apply(s, NewTimer(d)), t, []).0, s.nextID + 1, s.now + d, false, true, t)
  {
    var a := Apply(s, NewTimer(d));
    assert a.log == s.log && a.chans == s.chans;
    OneShotRuns(a, s.nextID + 1, t);
  }

  /** AfterFunc: once, d from now, running the callback and sending nothing. */
  lemma AfterFuncFires(s: State, d: int, t: int)
    requires Valid(s)
    ensures FiresOnceFrom(s, SetLoop(Apply(s, AfterFunc(d)), t, []).0, s.nextID + 1, s.now + d, true, false, t)
  {
    var a := Apply(s, AfterFunc(d));
    assert a.log == s.log && a.chans == s.chans;
    OneShotRuns(a, s.nextID + 1, t);
  }

  /** A reset timer: once, d from now, into its channel if it was made with one, else running the
    * callback if it still has it. */
  lemma TimerResetFires(s: State, id: nat, d: int, t: int)
    requires Valid(s) && HasTimer(s, id)
    ensures FiresOnceFrom(s, SetLoop(Apply(s, TimerReset(id, d)), t, []).0, id, s.now + d,
                          id in s.timers && s.timers[id].hasFn, s.kinds[id] == ChanTimer, t)
  {
    var a := Apply(s, TimerReset(id, d));
    assert a.log == s.log && a.chans == s.chans;
    if id in s.timers { assert EntryOk(s, id); }
    OneShotRuns(a, id, t);
  }

  // ---------------------------------------------------------------- stopping

  /** Stop and Reset report true exactly for a handle that would still fire if it were left alone. */
  lemma ActiveIffWouldFire(s: State, id: nat)
    requires Valid(s)
    ensures WasActive(s, id) <==>
              exists t :: var r := SetLoop(s, t, []).0; s.log <= r.log && CountOf(r.log[|s.log|..], id) > 0
  {
    hide SetLoop;
    if WasActive(s, id) {
      var t := s.timers[id].deadline;
      FiresPerEntry(s, t, id);
      assert Weight(s.timers[id], t) > 0;
    }
    forall t ensures var r := SetLoop(s, t, []).0;
                     s.log <= r.log && (!WasActive(s, id) ==> CountOf(r.log[|s.log|..], id) == 0) {
      CountFirings(s, t, id);
    }
  }

  /** Stopping removes a timer, and keeps a ticker with its count but inactive; what is not there, or
    * not of that kind, is left alone. */
  lemma StopsOnly(s: State, id: nat)
    requires Valid(s)
    ensures var r := Apply(s, TimerStop(id));
            if HasTimer(s, id) then id !in r.timers else r == s
    ensures var r := Apply(s, TickerStop(id));
            if HasTicker(s, id) && id in s.timers then
              id in r.timers && !r.timers[id].active && r.timers[id].ticks == s.timers[id].ticks
            else r == s
  {
    if id in s.timers { assert EntryOk(s, id); }
  }

  // ---------------------------------------------------------------- what an operation leaves alone

  /** The handle an operation is about. */
  function Subject(s: State, op: Op): nat {
    match op
    case NewTimer(_) => s.nextID + 1
    case AfterFunc(_) => s.nextID + 1
    case NewTicker(_) => s.nextID + 1
    case TimerStop(id) => id
    case TimerReset(id, _) => id
    case TickerStop(id) => id
    case TickerReset(id, _) => id
    case Receive(id) => id
  }

  /** No operation moves the time, fires anything or touches another handle; only Receive touches a
    * channel, which it empties. */
  lemma TouchesOnlySubject(s: State, op: Op, k: nat)
    requires Valid(s)
    ensures var r := Apply(s, op);
            && r.now == s.now && r.log == s.log
            && (k != Subject(s, op) ==>
                  (k in r.timers <==> k in s.timers) && (k in s.timers ==> r.timers[k] == s.timers[k]))
            && (k in s.kinds ==> k in r.kinds && r.kinds[k] == s.kinds[k])
            && (k in r.chans <==> k in s.chans && op != Receive(k))
            && (k in r.chans ==> r.chans[k] == s.chans[k])
            && (op.Receive? && k in s.timers ==> k in r.timers && r.timers[k] == s.timers[k])
  {
    assert s.nextID + 1 !in s.kinds;
    hide Valid;
  }

  /** What is created, and a timer that is recreated after it fired or was stopped, comes after every
    * other entry at equal deadlines. */
  lemma CreatedLast(s: State, op: Op, k: nat)
    requires Valid(s) && k in s.timers && k != Subject(s, op)
    requires Subject(s, op) !in s.timers && Subject(s, op) in Apply(s, op).timers
    ensures var r := Apply(s, op); r.timers[Subject(s, op)].order > s.timers[k].order
  {
    assert EntryOk(s, k);
  }

  // ---------------------------------------------------------------- moving the clock

  /** Advance is Set to that much later; a target in the past or a negative duration changes nothing. */
  lemma MovesTo(s: State, t: int, d: int, script: Script)
    requires Valid(s)
    ensures Act(s, Set(t, script)).now == if t >= s.now then t else s.now
    ensures t < s.now ==> Act(s, Set(t, script)) == s
    ensures Act(s, Advance(d, script)) == if d < 0 then s else Act(s, Set(s.now + d, script))
  {
    hide SetLoop, Valid, Apply;
  }

  // ---------------------------------------------------------------- in order

  /** The operations of an unlocked window are applied first to last. */
  lemma {:induction false} FirstOpFirst(s: State, op: Op, ops: seq<Op>)
    requires Valid(s)
    ensures ApplyAll(s, [op] + ops) == ApplyAll(Apply(s, op), ops)
  {
    hide Apply, Valid;
    if ops == [] {
      assert [op] + ops == [op] && [op][..0] == [] && ApplyAll(s, [op][..0]) == s;
    } else {
      assert ([op] + ops)[..|ops|] == [op] + ops[..|ops| - 1];
      FirstOpFirst(s, op, ops[..|ops| - 1]);
    }
  }

  /** And so are the actions of a run. */
  lemma {:induction false} FirstActionFirst(s: State, a: Action, actions: seq<Action>)
    requires Valid(s)
    ensures Run(s, [a] + actions) == Run(Act(s, a), actions)
  {
    hide Act, Valid;
    if actions == [] {
      assert [a] + actions == [a] && [a][..0] == [] && Run(s, [a][..0]) == s;
    } else {
      assert ([a] + actions)[..|actions|] == [a] + actions[..|actions| - 1];
      FirstActionFirst(s, a, actions[..|actions| - 1]);
    }
  }

  /** The i-th window of a `Set` follows its i-th firing. */
  lemma WindowFollowsFiring(s: State, t: int, ops: seq<Op>, rest: Script, id: nat)
    requires Valid(s) && IsEarliest(s, t, id)
    ensures SetLoop(s, t, [ops] + rest) == SetLoop(ApplyAll(Pass(s, id), ops), t, rest)
  {
    hide SetLoop, Earliest, Pass, ApplyAll;
    EarliestIsLeast(s, t, id);
    LoopStep(s, t, [ops] + rest, id);
    assert ([ops] + rest)[1..] == rest;
  }
}
