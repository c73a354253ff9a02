/** What the handles of timers and tickers promise over every run: callbacks that run at most once, stops
  * that hold, and what a reset brings back. */
module TimerHandles {
  import opened Basics
  import opened TimerModel
  import opened TimerLaws
  import opened TimerRuns

  // ---------------------------------------------------------------- callbacks run once

  /** A callback that has run is gone for good, and no entry is ahead of its handle. */
  ghost predicate CallbacksSpent(s: State) {
    && (forall i | 0 <= i < |s.log| && s.log[i].ran ::
          s.log[i].id in s.kinds && (s.log[i].id in s.timers ==> !s.timers[s.log[i].id].hasFn))
    && (forall i, j | 0 <= i < j < |s.log| && s.log[i].ran && s.log[j].ran :: s.log[i].id != s.log[j].id)
  }

  lemma ApplySpent(s: State, op: Op)
    requires Valid(s) && CallbacksSpent(s)
    ensures CallbacksSpent(Apply(s, op))
  {
    var r := Apply(s, op);
    assert r.log == s.log && s.nextID + 1 !in s.kinds;
  }

  lemma {:induction false} ApplyAllSpent(s: State, ops: seq<Op>)
    requires Valid(s) && CallbacksSpent(s)
    ensures CallbacksSpent(ApplyAll(s, ops))
  {
    if ops != [] {
      ApplyAllSpent(s, ops[..|ops| - 1]);
      ApplySpent(ApplyAll(s, ops[..|ops| - 1]), ops[|ops| - 1]);
    }
  }

  lemma PassSpent(s: State, id: nat)
    requires Valid(s) && CallbacksSpent(s) && id in s.timers
    ensures CallbacksSpent(Pass(s, id))
  {
    var p := Pass(s, id);
    assert EntryOk(s, id);
    forall i | 0 <= i < |p.log| && p.log[i].ran
      ensures p.log[i].id in p.kinds && (p.log[i].id in p.timers ==> !p.timers[p.log[i].id].hasFn)
    {
      if i < |s.log| { assert p.log[i] == s.log[i]; }
    }
  }

  lemma {:induction false} LoopSpent(s: State, t: int, script: Script)
    requires Valid(s) && CallbacksSpent(s)
    ensures CallbacksSpent(SetLoop(s, t, script).0)
    decreases |script|, Measure(s, t)
  {
    match Earliest(s, t)
    case None =>
    case Some(id) =>
      PassMeasure(s, t, id);
      PassSpent(s, id);
      if script != [] { ApplyAllSpent(Pass(s, id), script[0]); }
      LoopSpent(Window(Pass(s, id), script), t, Rest(script));
  }

  lemma ActSpent(s: State, a: Action)
    requires Valid(s) && CallbacksSpent(s)
    ensures CallbacksSpent(Act(s, a))
  {
    hide SetTo, Apply, Valid, CallbacksSpent;
    match a
    case Do(op) => ApplySpent(s, op);
    case Set(t, script) => SetSpent(s, t, script);
    case Advance(d, script) => if d >= 0 { SetSpent(s, s.now + d, script); }
  }

  lemma SetSpent(s: State, t: int, script: Script)
    requires Valid(s) && CallbacksSpent(s)
    ensures CallbacksSpent(SetTo(s, t, script))
  {
    LoopSpent(s, t, script);
  }

  /** No callback given to AfterFunc ever runs twice, however often its timer is reset. */
  lemma {:induction false} CallbackRunsAtMostOnce(s: State, actions: seq<Action>)
    requires Valid(s) && CallbacksSpent(s)
    ensures CallbacksSpent(Run(s, actions))
  {
    if actions != [] {
      CallbackRunsAtMostOnce(s, actions[..|actions| - 1]);
      ActSpent(Run(s, actions[..|actions| - 1]), actions[|actions| - 1]);
    }
  }

  // ---------------------------------------------------------------- stopping

  /** The handle exists, its entry is not active, and nobody resets it. */
  ghost predicate Quiet(s: State, id: nat) { id in s.kinds && !WasActive(s, id) }

  predicate Resets(op: Op, id: nat) { (op.TimerReset? || op.TickerReset?) && op.id == id }

  ghost predicate NeverReset(script: Script, id: nat) {
    forall i, j | 0 <= i < |script| && 0 <= j < |script[i]| :: !Resets(script[i][j], id)
  }

  lemma StopQuiets(s: State, id: nat)
    requires Valid(s)
    ensures HasTimer(s, id) ==> Quiet(Apply(s, TimerStop(id)), id)
    ensures HasTicker(s, id) ==> Quiet(Apply(s, TickerStop(id)), id)
  {}

  lemma ApplyQuiet(s: State, op: Op, id: nat)
    requires Valid(s) && Quiet(s, id) && !Resets(op, id)
    ensures Quiet(Apply(s, op), id) && Apply(s, op).log == s.log
  {
    assert s.nextID + 1 !in s.kinds;
  }

  lemma {:induction false} ApplyAllQuiet(s: State, ops: seq<Op>, id: nat)
    requires Valid(s) && Quiet(s, id) && forall j | 0 <= j < |ops| :: !Resets(ops[j], id)
    ensures Quiet(ApplyAll(s, ops), id) && ApplyAll(s, ops).log == s.log
  {
    if ops != [] {
      ApplyAllQuiet(s, ops[..|ops| - 1], id);
      ApplyQuiet(ApplyAll(s, ops[..|ops| - 1]), ops[|ops| - 1], id);
    }
  }

  /** A stopped timer or ticker does not fire again before it is reset, whatever else happens
    * while time moves. */
  lemma {:induction false} StoppedNeverFires(s: State, t: int, script: Script, id: nat)
    requires Valid(s) && Quiet(s, id) && NeverReset(script, id)
    ensures var r := SetLoop(s, t, script).0;
            Quiet(r, id) && s.log <= r.log && forall i | |s.log| <= i < |r.log| :: r.log[i].id != id
    decreases |script|, Measure(s, t)
  {
    match Earliest(s, t)
    case None =>
    case Some(k) =>
      LoopStep(s, t, script, k);
      var p := Pass(s, k);
      if script != [] { ApplyAllQuiet(p, script[0], id); }
      var q := Window(p, script);
      assert q.log == s.log + [p.log[|s.log|]];
      StoppedNeverFires(q, t, Rest(script), id);
      var r := SetLoop(q, t, Rest(script)).0;
      assert r.log[|s.log|] == q.log[|s.log|];
  }

  // ---------------------------------------------------------------- resetting

  /** The handle's entry is live and still has its callback. */
  predicate Armed(s: State, id: nat) { id in s.timers && s.timers[id].hasFn }

  ghost predicate Ran(log: seq<Firing>, id: nat) { exists f <- log :: f.id == id && f.ran }

  /** A reset one-shot, live, stopped or fired before, fires exactly once more, at now + d and not before;
    * the firing runs a callback exactly when the entry was live and still had it. */
  lemma ResetFiresOnce(s: State, id: nat, d: int, t: int)
    requires Valid(s) && HasTimer(s, id)
    ensures var a := Apply(s, TimerReset(id, d));
            var r := SetLoop(a, t, []).0;
            && a.log == s.log && s.log <= r.log
            && CountOf(r.log[|s.log|..], id) == (if s.now + d <= t then 1 else 0)
            && forall f <- r.log[|s.log|..] :: f.id == id ==> f.at == s.now + d && (f.ran <==> Armed(s, id))
  {
    hide SetLoop;
    var a := Apply(s, TimerReset(id, d));
    assert EntryOk(a, id);
    assert a.timers[id].deadline == s.now + d && a.timers[id].active && a.timers[id].period == 0;
    assert a.timers[id].hasFn <==> Armed(s, id);
    FiresPerEntry(a, t, id);
    ExactFiring(a, t);
  }

  /** After a reset of an AfterFunc handle to a time that is reached, its callback runs exactly when the
    * timer has neither fired nor been stopped since it was created; time.Timer would run it always. */
  lemma ResetRunsCallbackIff(s: State, id: nat, d: int, t: int)
    requires Valid(s) && HasTimer(s, id)
    ensures var r := SetLoop(Apply(s, TimerReset(id, d)), t, []).0;
            s.log <= r.log && (Ran(r.log[|s.log|..], id) <==> Armed(s, id) && s.now + d <= t)
  {
    hide SetLoop, Apply;
    ResetFiresOnce(s, id, d, t);
    var fs := SetLoop(Apply(s, TimerReset(id, d)), t, []).0.log[|s.log|..];
    CountedIn(fs, id);
  }

  lemma {:induction false} CountedIn(fs: seq<Firing>, id: nat)
    ensures CountOf(fs, id) > 0 <==> exists f <- fs :: f.id == id
  {
    if fs != [] {
      CountedIn(fs[1..], id);
      assert forall f :: f in fs <==> f == fs[0] || f in fs[1..];
    }
  }

  /** Stopping a live AfterFunc timer and resetting it loses the callback before it has ever run. */
  lemma StopThenResetLosesCallback(s: State, id: nat, d: int, t: int)
    requires Valid(s) && HasTimer(s, id)
    ensures var stopped := Apply(s, TimerStop(id));
            var r := SetLoop(Apply(stopped, TimerReset(id, d)), t, []).0;
            && s.log <= r.log && !Ran(r.log[|s.log|..], id)
            && CountOf(r.log[|s.log|..], id) == if s.now + d <= t then 1 else 0
  {
    hide SetLoop;
    var stopped := Apply(s, TimerStop(id));
    assert HasTimer(stopped, id) && !Armed(stopped, id) by { if id in s.timers { assert EntryOk(s, id); } }
    ResetFiresOnce(stopped, id, d, t);
    ResetRunsCallbackIff(stopped, id, d, t);
  }

  /** An AfterFunc handle keeps its callback until it is stopped or fires, and nothing gives it back. */
  lemma KeepsCallbackIff(s: State, op: Op, k: nat, id: nat)
    requires Valid(s) && id in s.kinds
    ensures Armed(Apply(s, op), id) <==> Armed(s, id) && op != TimerStop(id)
    ensures k in s.timers ==> (Armed(Pass(s, k), id) <==> Armed(s, id) && k != id)
  {
    hide Apply, Armed;
    OpKeepsCallback(s, op, id);
    if k in s.timers { PassKeepsCallback(s, k, id); }
  }

  lemma OpKeepsCallback(s: State, op: Op, id: nat)
    requires Valid(s) && id in s.kinds
    ensures Armed(Apply(s, op), id) <==> Armed(s, id) && op != TimerStop(id)
  {
    if id in s.timers { assert EntryOk(s, id); }
    assert s.nextID + 1 !in s.kinds;
    hide Valid;
  }

  lemma PassKeepsCallback(s: State, k: nat, id: nat)
    requires Valid(s) && k in s.timers
    ensures Armed(Pass(s, k), id) <==> Armed(s, id) && k != id
  {
    assert EntryOk(s, k);
    hide Valid;
  }

  /** From `s` to `r` the handle has not got a callback back, and none ran in its name. */
  ghost predicate StaysDisarmed(s: State, r: State, id: nat) {
    id in r.kinds && !Armed(r, id) && s.log <= r.log && !Ran(r.log[|s.log|..], id)
  }

  lemma DisarmedTrans(a: State, b: State, c: State, id: nat)
    requires StaysDisarmed(a, b, id) && StaysDisarmed(b, c, id)
    ensures StaysDisarmed(a, c, id)
  {
    assert c.log[|a.log|..] == b.log[|a.log|..] + c.log[|b.log|..];
  }

  lemma {:induction false} ApplyAllDisarmed(s: State, ops: seq<Op>, id: nat)
    requires Valid(s) && id in s.kinds && !Armed(s, id)
    ensures id in ApplyAll(s, ops).kinds && !Armed(ApplyAll(s, ops), id) && ApplyAll(s, ops).log == s.log
  {
    if ops != [] {
      var q, op := ApplyAll(s, ops[..|ops| - 1]), ops[|ops| - 1];
      ApplyAllDisarmed(s, ops[..|ops| - 1], id);
      OpKeepsCallback(q, op, id);
      ApplyKeepsHandles(q, op, id);
    }
  }

  lemma ApplyKeepsHandles(s: State, op: Op, id: nat)
    requires Valid(s) && id in s.kinds
    ensures id in Apply(s, op).kinds && Apply(s, op).log == s.log
  {}

  lemma {:induction false} LoopDisarmed(s: State, t: int, script: Script, id: nat)
    requires Valid(s) && id in s.kinds && !Armed(s, id)
    ensures StaysDisarmed(s, SetLoop(s, t, script).0, id)
    decreases |script|, Measure(s, t)
  {
    hide Armed;
    match Earliest(s, t)
    case None =>
    case Some(k) =>
      LoopStep(s, t, script, k);
      var p := Pass(s, k);
      PassDisarmed(s, k, id);
      if script != [] { ApplyAllDisarmed(p, script[0], id); }
      var q := Window(p, script);
      LoopDisarmed(q, t, Rest(script), id);
      DisarmedTrans(s, q, SetLoop(q, t, Rest(script)).0, id);
  }

  lemma PassDisarmed(s: State, k: nat, id: nat)
    requires Valid(s) && k in s.timers && id in s.kinds && !Armed(s, id)
    ensures StaysDisarmed(s, Pass(s, k), id)
  {
    PassKeepsCallback(s, k, id);
    var p := Pass(s, k);
    assert p.log[|s.log|..] == [p.log[|s.log|]];
  }

  lemma ActDisarmed(s: State, a: Action, id: nat)
    requires Valid(s) && id in s.kinds && !Armed(s, id)
    ensures StaysDisarmed(s, Act(s, a), id)
  {
    hide SetLoop;
    match a
    case Do(op) =>
      OpKeepsCallback(s, op, id);
      ApplyKeepsHandles(s, op, id);
    case Set(t, script) => if s.now <= t { LoopDisarmed(s, t, script, id); }
    case Advance(d, script) => if d >= 0 { LoopDisarmed(s, s.now + d, script, id); }
  }

  /** A callback that was lost, by a stop or because it has run, never runs again: whatever operations,
    * resets and re-entrant callbacks follow. */
  lemma {:induction false} LostCallbackNeverRuns(s: State, actions: seq<Action>, id: nat)
    requires Valid(s) && id in s.kinds && !Armed(s, id)
    ensures StaysDisarmed(s, Run(s, actions), id)
  {
    hide Act, Armed;
    if actions != [] {
      var q := Run(s, actions[..|actions| - 1]);
      LostCallbackNeverRuns(s, actions[..|actions| - 1], id);
      ActDisarmed(q, actions[|actions| - 1], id);
      DisarmedTrans(s, q, Run(s, actions), id);
    }
  }

  /** A new clock meets the hypothesis about callbacks. */
  lemma FreshCallbacks()
    ensures CallbacksSpent(FRESH)
  {}
}
