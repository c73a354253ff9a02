/** What holds in every reachable state of the clock, when callbacks create, stop and reset
  * timers in the middle of a `Set`. */
module TimerRuns {
  import opened Basics
  import opened TimerModel
  import opened TimerLaws

  // ---------------------------------------------------------------- time moves forward

  ghost predicate NoOverdue(s: State) {
    forall id <- s.timers :: s.timers[id].active ==> s.timers[id].deadline >= s.now
  }

  /** The firings so far are in time order, none in the future, none by an unborn entry. */
  ghost predicate LogBehind(s: State) {
    && (forall i | 0 <= i < |s.log| :: s.log[i].at <= s.now && s.log[i].order <= s.nextID)
    && (forall i, j | 0 <= i < j < |s.log| :: s.log[i].at <= s.log[j].at)
  }

  ghost predicate Timely(s: State) { NoOverdue(s) && LogBehind(s) }

  predicate NonNegative(op: Op) {
    match op
    case NewTimer(d) => d >= 0
    case AfterFunc(d) => d >= 0
    case TimerReset(_, d) => d >= 0
    case _ => true
  }

  /** Durations are not negative and, when `strict`, no timer is reset to zero. */
  predicate Permitted(op: Op, strict: bool) { NonNegative(op) && !(strict && op.TimerReset? && op.d == 0) }

  ghost predicate OpsPermitted(ops: seq<Op>, strict: bool) {
    forall i | 0 <= i < |ops| :: Permitted(ops[i], strict)
  }

  ghost predicate ScriptPermitted(script: Script, strict: bool) {
    forall i | 0 <= i < |script| :: OpsPermitted(script[i], strict)
  }

  ghost predicate ActionPermitted(a: Action, strict: bool) {
    match a
    case Do(op) => Permitted(op, strict)
    case Set(_, script) => ScriptPermitted(script, strict)
    case Advance(_, script) => ScriptPermitted(script, strict)
  }

  ghost predicate RunPermitted(actions: seq<Action>, strict: bool) {
    forall i | 0 <= i < |actions| :: ActionPermitted(actions[i], strict)
  }

  /** Negative durations are the only way to plant a deadline in the past: an operation on a
    * timer keeps every deadline in the future exactly when its duration is not negative. */
  lemma KeepsFutureIff(s: State, op: Op)
    requires Valid(s) && NoOverdue(s)
    ensures op.TimerReset? && !HasTimer(s, op.id) ==> Apply(s, op) == s
    ensures !(op.TimerReset? && !HasTimer(s, op.id)) ==> (NoOverdue(Apply(s, op)) <==> NonNegative(op))
  {
    var r := Apply(s, op);
    match op {
      case NewTimer(d) => assert r.timers[s.nextID + 1].deadline == s.now + d;
      case AfterFunc(d) => assert r.timers[s.nextID + 1].deadline == s.now + d;
      case TimerReset(id, d) =>
        if HasTimer(s, id) { assert r.timers[id].deadline == s.now + d && r.timers[id].active; }
      case _ =>
    }
  }

  /** And once a deadline is in the past, the very next `Set` steps the clock backwards. */
  lemma OverdueRewinds(s: State, t: int)
    requires Valid(s) && !NoOverdue(s) && s.now <= t
    ensures Earliest(s, t).Some? && Pass(s, Earliest(s, t).value).now < s.now
  {
    var id :| id in s.timers && s.timers[id].active && s.timers[id].deadline < s.now;
    assert Due(s, t, id);
    EarliestIsLeast(s, t, Earliest(s, t).value);
  }

  /** So the operations after which the clock steps back are exactly those with a negative duration, on
    * a timer that exists. */
  lemma StepsBackIff(s: State, op: Op, t: int)
    requires Valid(s) && NoOverdue(s) && s.now <= t
    ensures var r := Apply(s, op);
            (Earliest(r, t).Some? && Pass(r, Earliest(r, t).value).now < s.now)
            <==> !NonNegative(op) && !(op.TimerReset? && !HasTimer(s, op.id))
  {
    hide Earliest, NonNegative;
    var r := Apply(s, op);
    KeepsFutureIff(s, op);
    assert r.now == s.now;
    if !NoOverdue(r) { OverdueRewinds(r, t); }
  }

  lemma ApplyTimely(s: State, op: Op)
    requires Valid(s) && Timely(s) && NonNegative(op)
    ensures var r := Apply(s, op);
            Timely(r) && r.now == s.now && r.log == s.log && r.nextID >= s.nextID
  {
    KeepsFutureIff(s, op);
  }

  lemma {:induction false} ApplyAllTimely(s: State, ops: seq<Op>)
    requires Valid(s) && Timely(s) && OpsPermitted(ops, false)
    ensures var r := ApplyAll(s, ops);
            Timely(r) && r.now == s.now && r.log == s.log && r.nextID >= s.nextID
  {
    if ops != [] {
      ApplyAllTimely(s, ops[..|ops| - 1]);
      ApplyTimely(ApplyAll(s, ops[..|ops| - 1]), ops[|ops| - 1]);
    }
  }

  lemma WindowTimely(s: State, script: Script)
    requires Valid(s) && Timely(s) && ScriptPermitted(script, false)
    ensures var r := Window(s, script);
            Timely(r) && r.now == s.now && r.log == s.log && r.nextID >= s.nextID
  {
    if script != [] { ApplyAllTimely(s, script[0]); }
  }

  lemma PassTimely(s: State, t: int, id: nat)
    requires Valid(s) && Timely(s) && IsEarliest(s, t, id)
    ensures var p := Pass(s, id);
            Timely(p) && s.now <= p.now <= t && p.nextID == s.nextID
  {
    var p := Pass(s, id);
    assert EntryOk(s, id);
    forall k | k in p.timers && p.timers[k].active ensures p.timers[k].deadline >= p.now {
      if k != id && !Due(s, t, k) { assert s.timers[k].deadline > t; }
    }
  }

  /** From `s` to `r` time did not go back, and everything that fired in between fired at a
    * time between the two. */
  ghost predicate Later(s: State, r: State) {
    && s.now <= r.now
    && s.log <= r.log
    && forall i | |s.log| <= i < |r.log| :: s.now <= r.log[i].at <= r.now
  }

  lemma {:induction false} LoopTimely(s: State, t: int, script: Script)
    requires Valid(s) && Timely(s) && s.now <= t && ScriptPermitted(script, false)
    ensures var r := SetLoop(s, t, script).0;
            Timely(r) && Later(s, r) && r.now <= t
    decreases |script|, Measure(s, t)
  {
    match Earliest(s, t)
    case None =>
    case Some(id) =>
      EarliestIsLeast(s, t, id);
      PassMeasure(s, t, id);
      PassTimely(s, t, id);
      WindowTimely(Pass(s, id), script);
      var q := Window(Pass(s, id), script);
      LoopTimely(q, t, Rest(script));
      LaterStep(s, id, q, SetLoop(q, t, Rest(script)).0);
  }

  lemma LaterStep(s: State, id: nat, q: State, r: State)
    requires Valid(s) && id in s.timers && s.now <= s.timers[id].deadline
    requires q.now == s.timers[id].deadline && q.log == Pass(s, id).log && Later(q, r)
    ensures Later(s, r)
  {
    forall i | |s.log| <= i < |r.log| ensures s.now <= r.log[i].at <= r.now {
      if i == |s.log| { assert r.log[i] == q.log[i]; }
    }
  }

  lemma ActTimely(s: State, a: Action)
    requires Valid(s) && Timely(s) && ActionPermitted(a, false)
    ensures Timely(Act(s, a)) && Later(s, Act(s, a))
  {
    hide SetTo, Apply, Valid;
    match a
    case Do(op) => ApplyTimely(s, op);
    case Set(t, script) => SetTimely(s, t, script);
    case Advance(d, script) =>
      if d >= 0 { SetTimely(s, s.now + d, script); }
  }

  lemma SetTimely(s: State, t: int, script: Script)
    requires Valid(s) && Timely(s) && ScriptPermitted(script, false)
    ensures Timely(SetTo(s, t, script)) && Later(s, SetTo(s, t, script))
  {
    if s.now <= t {
      LoopTimely(s, t, script);
      NothingRemainsDue(s, t, script);
      var l, r := SetLoop(s, t, script).0, SetTo(s, t, script);
      forall k | k in r.timers && r.timers[k].active ensures r.timers[k].deadline >= r.now {
        assert !Due(r, t, k);
      }
    }
  }

  /** Over any run, with any re-entrant callbacks: deadlines stay in the future, `now` never
    * decreases, the log grows and stays in time order. With `Valid`, which `Run` itself keeps,
    * creation numbers stay unique and at most nextID. */
  lemma {:induction false} RunTimely(s: State, actions: seq<Action>)
    requires Valid(s) && Timely(s) && RunPermitted(actions, false)
    ensures Timely(Run(s, actions)) && Later(s, Run(s, actions))
  {
    if actions != [] {
      var prefix := actions[..|actions| - 1];
      RunTimely(s, prefix);
      ActTimely(Run(s, prefix), actions[|actions| - 1]);
      LaterTrans(s, Run(s, prefix), Run(s, actions));
    }
  }

  lemma LaterTrans(a: State, b: State, c: State)
    requires Later(a, b) && Later(b, c)
    ensures Later(a, c)
  {
    forall i | |a.log| <= i < |c.log| ensures a.now <= c.log[i].at <= c.now {
      if i < |b.log| { assert b.log[i] == c.log[i]; }
    }
  }

  // ---------------------------------------------------------------- strict firing order

  /** The log is in strict (deadline, creation) order and every active entry comes after it. */
  ghost predicate Ahead(s: State) {
    && Ordered(s.log)
    && (s.log != [] ==>
          var last := s.log[|s.log| - 1];
          forall id <- s.timers :: s.timers[id].active ==>
            Before(last.at, last.order, s.timers[id].deadline, s.timers[id].order))
  }

  /** Resetting a live timer to now keeps its old creation number, which may lie before the
    * number of the entry that fired last at this very instant. */
  ghost predicate Rewinds(s: State, op: Op) {
    && op.TimerReset? && op.d == 0 && HasTimer(s, op.id) && op.id in s.timers
    && s.log != []
    && s.log[|s.log| - 1].at == s.now && s.timers[op.id].order <= s.log[|s.log| - 1].order
  }

  /** That is the only operation that can put firings out of order. */
  lemma KeepsOrderIff(s: State, op: Op)
    requires Valid(s) && Timely(s) && Ahead(s) && NonNegative(op)
    ensures Ahead(Apply(s, op)) <==> !Rewinds(s, op)
  {
    hide Ordered, Valid, NoOverdue;
    var r := Apply(s, op);
    if s.log != [] {
      var last := s.log[|s.log| - 1];
      assert last.at <= s.now && last.order <= s.nextID;
      if op.TimerReset? && HasTimer(s, op.id) {
        assert r.timers[op.id].active && r.timers[op.id].deadline == s.now + op.d;
      }
    }
  }

  /** Once some entry is not ahead of the last firing, the very next firing is out of order. */
  lemma LostOrderMisfires(s: State, t: int)
    requires Valid(s) && Timely(s) && Ordered(s.log) && !Ahead(s) && s.now <= t
    ensures Earliest(s, t).Some? && !Ordered(Pass(s, Earliest(s, t).value).log)
  {
    var last := s.log[|s.log| - 1];
    var k :| k in s.timers && s.timers[k].active
             && !Before(last.at, last.order, s.timers[k].deadline, s.timers[k].order);
    assert Due(s, t, k);
    var id := Earliest(s, t).value;
    EarliestIsLeast(s, t, id);
    var p := Pass(s, id);
    assert p.log[|s.log| - 1] == last && !FiringBefore(last, p.log[|s.log|]);
  }

  lemma MisfireShows(s: State, t: int)
    requires Valid(s) && Timely(s) && Ordered(s.log) && !Ahead(s) && s.now <= t
    ensures !Ordered(SetTo(s, t, []).log)
  {
    hide Ahead, Ordered, Timely, SetLoop, Earliest, Pass;
    LostOrderMisfires(s, t);
    var id := Earliest(s, t).value;
    LoopStep(s, t, [], id);
    var p := Pass(s, id);
    ExactFiring(p, t);
    PrefixOrdered(p.log, SetLoop(p, t, []).0.log);
  }

  /** So, of all operations with durations that are not negative, the ones that make the next `Set` fire
    * out of order are exactly those resets. */
  lemma OutOfOrderIff(s: State, op: Op, t: int)
    requires Valid(s) && Timely(s) && Ahead(s) && NonNegative(op) && s.now <= t
    ensures !Ordered(SetTo(Apply(s, op), t, []).log) <==> Rewinds(s, op)
  {
    hide Ahead, Ordered, Rewinds, Apply, Timely, SetLoop;
    var r := Apply(s, op);
    KeepsOrderIff(s, op);
    ApplyTimely(s, op);
    if Rewinds(s, op) {
      AheadIsOrdered(s);
      MisfireShows(r, t);
    } else {
      assert ScriptPermitted([], true);
      StrictLoop(r, t, []);
      LoopAhead(r, t, []);
      AheadIsOrdered(SetLoop(r, t, []).0);
    }
  }

  lemma AheadIsOrdered(s: State)
    requires Ahead(s)
    ensures Ordered(s.log)
  {}

  lemma PrefixOrdered(a: seq<Firing>, b: seq<Firing>)
    requires a <= b
    ensures Ordered(b) ==> Ordered(a)
  {
    forall i, j | 0 <= i < j < |a| && Ordered(b) ensures FiringBefore(a[i], a[j]) {
      assert a[i] == b[i] && a[j] == b[j];
    }
  }

  // ---------------------------------------------------------------- runs that never rewind

  ghost predicate OpsNeverRewind(s: State, ops: seq<Op>)
    requires Valid(s)
  {
    forall i | 0 <= i < |ops| :: !Rewinds(ApplyAll(s, ops[..i]), ops[i])
  }

  /** No operation of any unlocked window rewinds where it is applied. */
  ghost predicate LoopNeverRewinds(s: State, t: int, script: Script)
    requires Valid(s)
    decreases |script|, Measure(s, t)
  {
    match Earliest(s, t)
    case None => true
    case Some(id) =>
      PassMeasure(s, t, id);
      && (script != [] ==> OpsNeverRewind(Pass(s, id), script[0]))
      && LoopNeverRewinds(Window(Pass(s, id), script), t, Rest(script))
  }

  ghost predicate ActNeverRewinds(s: State, a: Action)
    requires Valid(s)
  {
    match a
    case Do(op) => !Rewinds(s, op)
    case Set(t, script) => s.now <= t ==> LoopNeverRewinds(s, t, script)
    case Advance(d, script) => d >= 0 ==> LoopNeverRewinds(s, s.now + d, script)
  }

  ghost predicate RunNeverRewinds(s: State, actions: seq<Action>)
    requires Valid(s)
  {
    forall i | 0 <= i < |actions| :: ActNeverRewinds(Run(s, actions[..i]), actions[i])
  }

  lemma ShorterNeverRewinds(s: State, ops: seq<Op>)
    requires Valid(s) && ops != [] && OpsNeverRewind(s, ops)
    ensures OpsNeverRewind(s, ops[..|ops| - 1]) && !Rewinds(ApplyAll(s, ops[..|ops| - 1]), ops[|ops| - 1])
  {
    hide Rewinds, ApplyAll, Valid;
    var shorter := ops[..|ops| - 1];
    forall i | 0 <= i < |shorter| ensures !Rewinds(ApplyAll(s, shorter[..i]), shorter[i]) {
      assert shorter[..i] == ops[..i] && shorter[i] == ops[i];
    }
  }

  lemma {:induction false} ApplyAllAhead(s: State, ops: seq<Op>)
    requires Valid(s) && Timely(s) && Ahead(s) && OpsPermitted(ops, false) && OpsNeverRewind(s, ops)
    ensures Timely(ApplyAll(s, ops)) && Ahead(ApplyAll(s, ops))
    ensures ApplyAll(s, ops).now == s.now
  {
    hide Ahead, Timely, Rewinds, Apply, Valid, OpsNeverRewind;
    if ops != [] {
      var n := |ops| - 1;
      var q, op := ApplyAll(s, ops[..n]), ops[n];
      ShorterNeverRewinds(s, ops);
      ApplyAllAhead(s, ops[..n]);
      assert Permitted(op, false);
      KeepsOrderIff(q, op);
      ApplyTimely(q, op);
    }
  }

  lemma PassAhead(s: State, t: int, id: nat)
    requires Valid(s) && Timely(s) && Ahead(s) && IsEarliest(s, t, id)
    ensures Ahead(Pass(s, id))
  {
    var p := Pass(s, id);
    var e := s.timers[id];
    assert EntryOk(s, id);
    forall k | k in p.timers && p.timers[k].active
      ensures Before(e.deadline, e.order, p.timers[k].deadline, p.timers[k].order)
    {
      if k != id && !Due(s, t, k) { assert s.timers[k].deadline > t; }
    }
    forall i, j | 0 <= i < j < |p.log| ensures FiringBefore(p.log[i], p.log[j]) {
      if j == |s.log| && i < |s.log| - 1 { assert FiringBefore(s.log[i], s.log[|s.log| - 1]); }
    }
  }

  lemma {:induction false} LoopAhead(s: State, t: int, script: Script)
    requires Valid(s) && Timely(s) && Ahead(s) && s.now <= t
    requires ScriptPermitted(script, false) && LoopNeverRewinds(s, t, script)
    ensures Ahead(SetLoop(s, t, script).0)
    decreases |script|, Measure(s, t)
  {
    hide Ahead, Timely, OpsNeverRewind;
    match Earliest(s, t)
    case None =>
    case Some(id) =>
      EarliestIsLeast(s, t, id);
      PassMeasure(s, t, id);
      PassTimely(s, t, id);
      PassAhead(s, t, id);
      if script != [] { ApplyAllAhead(Pass(s, id), script[0]); }
      LoopAhead(Window(Pass(s, id), script), t, Rest(script));
  }

  lemma SetAhead(s: State, t: int, script: Script)
    requires Valid(s) && Timely(s) && Ahead(s) && ScriptPermitted(script, false)
    requires s.now <= t ==> LoopNeverRewinds(s, t, script)
    ensures Timely(SetTo(s, t, script)) && Ahead(SetTo(s, t, script))
  {
    hide Valid, Timely, Ahead, LoopNeverRewinds, SetLoop;
    SetTimely(s, t, script);
    if s.now <= t {
      LoopAhead(s, t, script);
      AheadExceptNow(SetLoop(s, t, script).0, t);
    }
  }

  lemma AheadExceptNow(s: State, now: int)
    ensures Ahead(s.(now := now)) <==> Ahead(s)
  {}

  lemma ActAhead(s: State, a: Action)
    requires Valid(s) && Timely(s) && Ahead(s) && ActionPermitted(a, false) && ActNeverRewinds(s, a)
    ensures Timely(Act(s, a)) && Ahead(Act(s, a))
  {
    hide SetTo, Apply, Valid, Timely, Ahead, Rewinds, LoopNeverRewinds;
    match a
    case Do(op) => KeepsOrderIff(s, op); ApplyTimely(s, op);
    case Set(t, script) => SetAhead(s, t, script);
    case Advance(d, script) =>
      if d >= 0 { SetAhead(s, s.now + d, script); }
  }

  lemma ShorterRunNeverRewinds(s: State, actions: seq<Action>)
    requires Valid(s) && actions != [] && RunNeverRewinds(s, actions)
    ensures RunNeverRewinds(s, actions[..|actions| - 1])
    ensures ActNeverRewinds(Run(s, actions[..|actions| - 1]), actions[|actions| - 1])
  {
    hide ActNeverRewinds, Run, Valid;
    var shorter := actions[..|actions| - 1];
    forall i | 0 <= i < |shorter| ensures ActNeverRewinds(Run(s, shorter[..i]), shorter[i]) {
      assert shorter[..i] == actions[..i] && shorter[i] == actions[i];
    }
  }

  /** Over any run in which no operation rewinds where it is applied, across any number of `Set` calls,
    * all firings are strictly increasing in (deadline, creation number). */
  lemma {:induction false} RunOrdered(s: State, actions: seq<Action>)
    requires Valid(s) && Timely(s) && Ahead(s) && RunPermitted(actions, false) && RunNeverRewinds(s, actions)
    ensures Timely(Run(s, actions)) && Ahead(Run(s, actions))
  {
    hide Ahead, Timely, Act, ActNeverRewinds, Valid, RunNeverRewinds;
    if actions != [] {
      var n := |actions| - 1;
      ShorterRunNeverRewinds(s, actions);
      RunOrdered(s, actions[..n]);
      assert ActionPermitted(actions[n], false);
      ActAhead(Run(s, actions[..n]), actions[n]);
    }
  }

  lemma {:induction false} StrictLoop(s: State, t: int, script: Script)
    requires Valid(s) && ScriptPermitted(script, true)
    ensures LoopNeverRewinds(s, t, script)
    decreases |script|, Measure(s, t)
  {
    match Earliest(s, t)
    case None =>
    case Some(id) =>
      PassMeasure(s, t, id);
      if script != [] { StrictOps(Pass(s, id), script[0]); }
      StrictLoop(Window(Pass(s, id), script), t, Rest(script));
  }

  lemma StrictOps(s: State, ops: seq<Op>)
    requires Valid(s) && OpsPermitted(ops, true)
    ensures OpsNeverRewind(s, ops)
  {
    forall i | 0 <= i < |ops| ensures !Rewinds(ApplyAll(s, ops[..i]), ops[i]) { assert Permitted(ops[i], true); }
  }

  /** Runs without any reset to zero never rewind. */
  lemma NoZeroResets(s: State, actions: seq<Action>)
    requires Valid(s) && RunPermitted(actions, true)
    ensures RunNeverRewinds(s, actions)
  {
    hide Run, Valid, LoopNeverRewinds;
    forall i | 0 <= i < |actions| ensures ActNeverRewinds(Run(s, actions[..i]), actions[i]) {
      var q, a := Run(s, actions[..i]), actions[i];
      assert ActionPermitted(a, true);
      match a
      case Do(op) =>
      case Set(t, script) => StrictLoop(q, t, script);
      case Advance(d, script) => StrictLoop(q, q.now + d, script);
    }
  }

  // ---------------------------------------------------------------- witnesses

  const FRESH := State(0, 0, map[], map[], map[], [])

  lemma FreshStart()
    ensures Valid(FRESH) && Timely(FRESH) && Ahead(FRESH)
  {}

  /** A timer for `late` and, created after it, a callback for `soon`. */
  function TwoTimers(late: int, soon: int): State {
    State(0, 2,
          map[1 := Entry(late, 0, 1, true, 0, true, false), 2 := Entry(soon, 0, 2, true, 0, false, true)],
          map[1 := ChanTimer, 2 := FuncTimer], map[], [])
  }

  lemma TwoTimersReachable(late: int, soon: int)
    ensures Run(FRESH, [Do(NewTimer(late)), Do(AfterFunc(soon))]) == TwoTimers(late, soon)
  {
    var actions := [Do(NewTimer(late)), Do(AfterFunc(soon))];
    assert actions[..1] == [Do(NewTimer(late))];
    OneAct(FRESH, Do(NewTimer(late)));
    hide SetTo, Run;
    assert Run(FRESH, actions) == Act(Run(FRESH, actions[..1]), actions[1]) by { LastAct(FRESH, actions); }
    var first := Apply(FRESH, NewTimer(late));
    assert first.timers == map[1 := Entry(late, 0, 1, true, 0, true, false)] && first.kinds == map[1 := ChanTimer];
    assert Apply(first, AfterFunc(soon)).timers == TwoTimers(late, soon).timers;
    assert Apply(first, AfterFunc(soon)).kinds == TwoTimers(late, soon).kinds;
  }

  lemma OneAct(s: State, a: Action)
    requires Valid(s)
    ensures Run(s, [a]) == Act(s, a)
  {
    var actions := [a];
    assert actions[..0] == [] && Run(s, actions[..0]) == s;
  }

  lemma LastAct(s: State, actions: seq<Action>)
    requires Valid(s) && actions != []
    ensures Run(s, actions) == Act(Run(s, actions[..|actions| - 1]), actions[|actions| - 1])
  {}

  /** When the callback resets the older timer to zero, the older one fires second, at the same
    * instant but with a smaller creation number: the log is out of order. */
  lemma ZeroResetBreaksOrder(late: int, soon: int, t: int)
    requires 0 < soon < late && soon <= t
    ensures Valid(TwoTimers(late, soon)) && Timely(TwoTimers(late, soon)) && Ahead(TwoTimers(late, soon))
    ensures var r := SetTo(TwoTimers(late, soon), t, [[TimerReset(1, 0)]]);
            r.log == [Firing(2, 2, soon, true), Firing(1, 1, soon, false)] && !Ordered(r.log)
  {
    var s, script := TwoTimers(late, soon), [[TimerReset(1, 0)]];
    FirstFiring(late, soon, t);
    SecondFiring(soon, t);
    var r := SetTo(s, t, script);
    assert !FiringBefore(r.log[0], r.log[1]);
  }

  function AfterCallback(soon: int): State {
    State(soon, 2, map[1 := Entry(soon, 0, 1, true, 0, true, false)],
          map[1 := ChanTimer, 2 := FuncTimer], map[], [Firing(2, 2, soon, true)])
  }

  lemma FirstFiring(late: int, soon: int, t: int)
    requires 0 < soon < late && soon <= t
    ensures Valid(TwoTimers(late, soon)) && Valid(AfterCallback(soon))
    ensures SetLoop(TwoTimers(late, soon), t, [[TimerReset(1, 0)]]) == SetLoop(AfterCallback(soon), t, [])
  {
    hide SetLoop, Earliest, Measure, ApplyAll;
    var s, op := TwoTimers(late, soon), TimerReset(1, 0);
    EarliestIsLeast(s, t, 2);
    LoopStep(s, t, [[op]], 2);
    var p := Pass(s, 2);
    OneOp(p, op);
    assert p.timers == map[1 := s.timers[1]];
    assert Apply(p, op).timers == AfterCallback(soon).timers;
    assert Window(p, [[op]]) == AfterCallback(soon) && Rest([[op]]) == [];
  }

  lemma SecondFiring(soon: int, t: int)
    requires 0 < soon <= t
    ensures Valid(AfterCallback(soon))
    ensures SetLoop(AfterCallback(soon), t, []).0.log == [Firing(2, 2, soon, true), Firing(1, 1, soon, false)]
  {
    hide SetLoop, Earliest, Measure;
    var q := AfterCallback(soon);
    EarliestIsLeast(q, t, 1);
    LoopStep(q, t, [], 1);
    var z := Pass(q, 1);
    assert z.timers == map[];
    NothingDueNext(z, t);
    LoopStops(z, t, []);
  }

  lemma OneOp(s: State, op: Op)
    requires Valid(s)
    ensures ApplyAll(s, [op]) == Apply(s, op)
  {
    var ops := [op];
    assert ops[..0] == [] && ApplyAll(s, ops[..0]) == s;
  }
}
