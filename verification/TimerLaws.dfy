/** What the event loop promises, for every state and every script. */
module TimerLaws {
  import opened Arith
  import opened Basics
  import opened TimerModel

  // ---------------------------------------------------------------- the least due entry

  ghost predicate IsEarliest(s: State, t: int, id: nat) {
    && Due(s, t, id)
    && forall k | Due(s, t, k) && k != id :: EntryBefore(s.timers[id], s.timers[k])
  }

  lemma {:induction false} EarliestUpToIsLeast(s: State, t: int, n: nat)
    requires Valid(s)
    ensures var r := EarliestUpTo(s, t, n);
            r.Some? ==> forall k: nat | k <= n && Due(s, t, k) && k != r.value ::
                          EntryBefore(s.timers[r.value], s.timers[k])
  {
    if n > 0 { EarliestUpToIsLeast(s, t, n - 1); }
  }

  /** The entry that fires next is the one least due entry, however the map is walked. */
  lemma EarliestIsLeast(s: State, t: int, id: nat)
    requires Valid(s)
    ensures Earliest(s, t) == Some(id) <==> IsEarliest(s, t, id)
  {
    EarliestUpToIsLeast(s, t, s.nextID);
    assert forall k | Due(s, t, k) :: EntryOk(s, k);
  }

  lemma NothingDueNext(s: State, t: int)
    requires Valid(s) && forall id :: !Due(s, t, id)
    ensures Earliest(s, t) == None
  {}

  // ---------------------------------------------------------------- splitting

  /** The loop overwrites `now` before it looks at it. */
  lemma SameExceptNow(s: State, t: int, script: Script, now: int)
    requires Valid(s)
    ensures Valid(s.(now := now))
    ensures var a, b := SetLoop(s.(now := now), t, script), SetLoop(s, t, script);
            a.0.(now := t) == b.0.(now := t) && a.1 == b.1
  {
    hide SetLoop, Earliest, Pass, Window, Valid;
    var u := s.(now := now);
    ValidExceptNow(s, now);
    match Earliest(s, t)
    case None =>
      LoopStops(s, t, script);
      LoopStops(u, t, script);
    case Some(id) =>
      PassOverwritesNow(s, id, now);
      LoopStep(s, t, script, id);
      LoopStep(u, t, script, id);
  }

  lemma ValidExceptNow(s: State, now: int)
    requires Valid(s)
    ensures Valid(s.(now := now)) && forall t :: Earliest(s.(now := now), t) == Earliest(s, t)
  {
    var u := s.(now := now);
    forall id | id in u.timers ensures EntryOk(u, id) { assert EntryOk(s, id); }
    forall t ensures Earliest(u, t) == Earliest(s, t) { SameEarliest(s, u, t, s.nextID); }
  }

  lemma PassOverwritesNow(s: State, id: nat, now: int)
    requires Valid(s) && Valid(s.(now := now)) && id in s.timers
    ensures Pass(s.(now := now), id) == Pass(s, id)
  {}

  lemma LoopStep(s: State, t: int, script: Script, id: nat)
    requires Valid(s) && Earliest(s, t) == Some(id)
    ensures SetLoop(s, t, script) == SetLoop(Window(Pass(s, id), script), t, Rest(script))
    ensures Measure(Pass(s, id), t) == Measure(s, t) - 1
  {
    PassMeasure(s, t, id);
  }

  lemma LoopStops(s: State, t: int, script: Script)
    requires Valid(s) && Earliest(s, t) == None
    ensures SetLoop(s, t, script) == (s, script)
  {}

  lemma {:induction false} SameEarliest(s: State, u: State, t: int, n: nat)
    requires s.timers == u.timers
    ensures EarliestUpTo(s, t, n) == EarliestUpTo(u, t, n)
  {
    if n > 0 { SameEarliest(s, u, t, n - 1); }
  }

  /** Stopping at t1 on the way to t2 changes nothing: the same firings in the same order, the
    * same timers, tick counts and channel contents, and the same final time, whatever the
    * callbacks do, when they do the same things. `rest` is the script the first call left over. */
  lemma {:induction false} Splitting(s: State, t1: int, t2: int, script: Script)
    requires Valid(s) && s.now <= t1 <= t2
    ensures var rest := SetLoop(s, t1, script).1;
            SetTo(SetTo(s, t1, script), t2, rest) == SetTo(s, t2, script)
  {
    var (a, rest) := SetLoop(s, t1, script);
    SplitLoop(s, t1, t2, script);
    SameExceptNow(a, t2, rest, t1);
  }

  lemma {:induction false} SplitLoop(s: State, t1: int, t2: int, script: Script)
    requires Valid(s) && t1 <= t2
    ensures var (a, rest) := SetLoop(s, t1, script);
            SetLoop(a, t2, rest) == SetLoop(s, t2, script)
    decreases |script|, Measure(s, t1)
  {
    match Earliest(s, t1)
    case None =>
    case Some(id) =>
      EarliestIsLeast(s, t1, id);
      EarliestIsLeast(s, t2, id);
      PassMeasure(s, t1, id);
      SplitLoop(Window(Pass(s, id), script), t1, t2, Rest(script));
  }

  /** The same law for `Advance`, with nothing running in between. */
  lemma AdvanceAdds(s: State, d1: int, d2: int)
    requires Valid(s) && d1 >= 0 && d2 >= 0
    ensures Act(Act(s, Advance(d1, [])), Advance(d2, [])) == Act(s, Advance(d1 + d2, []))
  {
    hide SetLoop, Valid;
    SetTwice(s, s.now + d1, s.now + d1 + d2, []);
  }

  lemma SetTwice(s: State, t1: int, t2: int, none: Script)
    requires Valid(s) && s.now <= t1 <= t2 && none == []
    ensures SetTo(SetTo(s, t1, none), t2, none) == SetTo(s, t2, none)
    ensures SetTo(s, t1, none).now == t1
  {
    NothingLeft(s, t1);
    Splitting(s, t1, t2, none);
  }

  lemma {:induction false} NothingLeft(s: State, t: int)
    requires Valid(s)
    ensures SetLoop(s, t, []).1 == []
    decreases Measure(s, t)
  {
    match Earliest(s, t)
    case None =>
    case Some(id) => PassMeasure(s, t, id); NothingLeft(Pass(s, id), t);
  }

  // ---------------------------------------------------------------- exact firing

  /** The firings a `Set(t)` owes to the entries it starts from. */
  ghost predicate Owed(timers: map<nat, Entry>, t: int, f: Firing) {
    && f.id in timers
    && var e := timers[f.id];
    && e.active && f.order == e.order && f.ran == e.hasFn && f.at <= t
    && if e.period > 0 then f.at >= e.deadline && (f.at - e.deadline) % e.period == 0
       else f.at == e.deadline
  }

  ghost predicate FiringBefore(a: Firing, b: Firing) { Before(a.at, a.order, b.at, b.order) }

  ghost predicate Ordered(fs: seq<Firing>) {
    forall i, j | 0 <= i < j < |fs| :: FiringBefore(fs[i], fs[j])
  }

  ghost function CountOf(fs: seq<Firing>, id: nat): nat {
    if fs == [] then 0 else (if fs[0].id == id then 1 else 0) + CountOf(fs[1..], id)
  }

  /** A ticker moves to its first tick beyond t; a due one-shot is gone. */
  ghost function EntryAfter(e: Entry, t: int): Entry
    requires e.period >= 0
  {
    if DueEntry(e, t) && e.period > 0 then
      e.(deadline := e.deadline + Weight(e, t) * e.period, ticks := e.ticks + Weight(e, t))
    else e
  }

  ghost function TimersAfter(timers: map<nat, Entry>, t: int): map<nat, Entry>
    requires PeriodsOk(timers)
  {
    map id | id in timers && (timers[id].period > 0 || !DueEntry(timers[id], t)) :: EntryAfter(timers[id], t)
  }

  /** A channel that was empty holds the first time offered to it; a full one keeps its value. */
  ghost function ChansAfter(s: State, t: int): map<nat, int> {
    map id | id in s.chans.Keys + s.timers.Keys &&
             (id in s.chans || (Due(s, t, id) && s.timers[id].hasChan && !s.timers[id].hasFn))
    :: if id in s.chans then s.chans[id] else s.timers[id].deadline
  }

  lemma OwedStep(s: State, t: int, id: nat, f: Firing)
    requires Valid(s) && IsEarliest(s, t, id)
    ensures var e := s.timers[id];
            var first := Firing(id, e.order, e.deadline, e.hasFn);
            && (Owed(s.timers, t, f) <==> f == first || Owed(Pass(s, id).timers, t, f))
            && (Owed(Pass(s, id).timers, t, f) ==> FiringBefore(first, f))
  {
    var e := s.timers[id];
    assert EntryOk(s, id);
    hide Valid;
    if f.id == id {
      if e.period > 0 { TickStep(e.deadline, e.period, f.at); }
    } else if Owed(s.timers, t, f) {
      assert Due(s, t, f.id);
    }
  }

  /** The ticks from d on are d and the ticks from d + p on. */
  lemma TickStep(d: int, p: int, at: int)
    requires p > 0
    ensures at >= d && (at - d) % p == 0 <==> at == d || (at >= d + p && (at - (d + p)) % p == 0)
  {
    DivShift(at - d, p);
    assert at - (d + p) == at - d - p;
    if d < at < d + p { DivUnique(at - d, p, 0, at - d); }
  }

  /** Where everything ends up is the same before and after a pass. */
  lemma TimersAfterStep(s: State, t: int, id: nat)
    requires Valid(s) && IsEarliest(s, t, id)
    ensures PeriodsOk(s.timers) && PeriodsOk(Pass(s, id).timers)
    ensures TimersAfter(Pass(s, id).timers, t) == TimersAfter(s.timers, t)
  {
    var p := Pass(s, id);
    var e := s.timers[id];
    assert forall k <- s.timers :: EntryOk(s, k);
    assert forall k <- p.timers :: EntryOk(p, k);
    if e.period > 0 { EntryAfterStep(e, t); }
    hide Weight, Valid, IsEarliest;
    var a, b := TimersAfter(p.timers, t), TimersAfter(s.timers, t);
    forall k ensures (k in a <==> k in b) && (k in a ==> a[k] == b[k]) {
      if k != id { assert k in p.timers <==> k in s.timers; }
    }
    assert a == b;
  }

  lemma EntryAfterStep(e: Entry, t: int)
    requires e.period > 0 && DueEntry(e, t)
    ensures EntryAfter(e.(deadline := e.deadline + e.period, ticks := e.ticks + 1), t) == EntryAfter(e, t)
  {
    PassWeight(e, t);
    var w := Weight(e, t);
    assert e.deadline + e.period + (w - 1) * e.period == e.deadline + w * e.period;
  }

  lemma ChansAfterStep(s: State, t: int, id: nat)
    requires Valid(s) && IsEarliest(s, t, id)
    ensures ChansAfter(Pass(s, id), t) == ChansAfter(s, t)
  {
    var p := Pass(s, id);
    assert EntryOk(s, id);
    var a, b := ChansAfter(p, t), ChansAfter(s, t);
    forall k ensures (k in a <==> k in b) && (k in a ==> a[k] == b[k]) {
      if k != id {
        assert k in p.timers <==> k in s.timers;
        assert k in p.chans <==> k in s.chans;
      }
    }
    assert a == b;
  }

  /** The whole effect of a `Set(t)` whose callbacks leave the clock alone: every firing that is
    * owed, each exactly once, in strict (deadline, creation) order, and nothing else; as many
    * passes as `Measure` says; and the tickers, their counts and the channels in closed form. */
  lemma {:induction false} ExactFiring(s: State, t: int)
    requires Valid(s)
    ensures PeriodsOk(s.timers)
    ensures var r := SetLoop(s, t, []).0;
            && s.log <= r.log
            && (forall f :: f in r.log[|s.log|..] <==> Owed(s.timers, t, f))
            && Ordered(r.log[|s.log|..])
            && |r.log| == |s.log| + Measure(s, t)
            && r.timers == TimersAfter(s.timers, t)
            && r.chans == ChansAfter(s, t)
            && r.nextID == s.nextID && r.kinds == s.kinds
    decreases Measure(s, t)
  {
    hide SetLoop, Earliest, TimersAfter, ChansAfter, Owed, Measure;
    assert forall k <- s.timers :: EntryOk(s, k);
    match Earliest(s, t)
    case None =>
      LoopStops(s, t, []);
      NothingDue(s, t);
    case Some(id) =>
      EarliestIsLeast(s, t, id);
      LoopStep(s, t, [], id);
      ExactFiring(Pass(s, id), t);
      TimersAfterStep(s, t, id);
      ChansAfterStep(s, t, id);
      FiringsStep(s, t, id, SetLoop(s, t, []).0.log);
  }

  lemma FiringsStep(s: State, t: int, id: nat, log: seq<Firing>)
    requires Valid(s) && IsEarliest(s, t, id)
    requires Pass(s, id).log <= log
    requires Ordered(log[|s.log| + 1..])
    requires forall f :: f in log[|s.log| + 1..] <==> Owed(Pass(s, id).timers, t, f)
    ensures s.log <= log
    ensures Ordered(log[|s.log|..])
    ensures forall f :: f in log[|s.log|..] <==> Owed(s.timers, t, f)
  {
    var p := Pass(s, id);
    var first := p.log[|s.log|];
    var rest := log[|s.log| + 1..];
    assert p.log[|s.log|] == log[|s.log|];
    assert log[|s.log|..] == [first] + rest;
    forall f ensures f in log[|s.log|..] <==> Owed(s.timers, t, f) { OwedStep(s, t, id, f); }
    forall j | 0 <= j < |rest| ensures FiringBefore(first, rest[j]) {
      assert rest[j] in rest;
      OwedStep(s, t, id, rest[j]);
    }
  }

  lemma NothingDue(s: State, t: int)
    requires Valid(s) && PeriodsOk(s.timers) && forall k :: !Due(s, t, k)
    ensures Measure(s, t) == 0
    ensures TimersAfter(s.timers, t) == s.timers && ChansAfter(s, t) == s.chans
    ensures forall f :: !Owed(s.timers, t, f)
  {
    assert forall k <- s.timers :: !Due(s, t, k);
    NoWeight(s.timers, t, s.nextID);
    forall f ensures !Owed(s.timers, t, f) { assert !Due(s, t, f.id); }
  }

  lemma {:induction false} NoWeight(timers: map<nat, Entry>, t: int, n: nat)
    requires PeriodsOk(timers) && forall k <- timers :: !DueEntry(timers[k], t)
    ensures WeightUpTo(timers, t, n) == 0
  {
    if n > 0 { NoWeight(timers, t, n - 1); }
  }

  /** An entry fires exactly `Weight` times: once for a due one-shot and (t-deadline)/period + 1
    * times for a due ticker, which is also how much its tick count grows. */
  lemma {:induction false} FiresPerEntry(s: State, t: int, id: nat)
    requires Valid(s) && id in s.timers
    ensures PeriodsOk(s.timers)
    ensures var r := SetLoop(s, t, []).0;
            && s.log <= r.log
            && CountOf(r.log[|s.log|..], id) == Weight(s.timers[id], t)
            && (s.timers[id].period > 0 ==>
                  id in r.timers && r.timers[id].ticks == s.timers[id].ticks + Weight(s.timers[id], t))
            && (s.timers[id].period == 0 && Due(s, t, id) ==> id !in r.timers)
  {
    ExactFiring(s, t);
    CountFirings(s, t, id);
  }

  lemma {:induction false} CountFirings(s: State, t: int, id: nat)
    requires Valid(s)
    ensures PeriodsOk(s.timers)
    ensures var r := SetLoop(s, t, []).0;
            && s.log <= r.log
            && CountOf(r.log[|s.log|..], id) == if id in s.timers then Weight(s.timers[id], t) else 0
    decreases Measure(s, t)
  {
    assert forall k <- s.timers :: EntryOk(s, k);
    match Earliest(s, t)
    case None => assert !Due(s, t, id);
    case Some(k) =>
      LoopStep(s, t, [], k);
      CountFirings(Pass(s, k), t, id);
      CountStep(s, t, k, id, SetLoop(s, t, []).0.log);
  }

  lemma CountStep(s: State, t: int, k: nat, id: nat, log: seq<Firing>)
    requires Valid(s) && Due(s, t, k) && PeriodsOk(s.timers) && PeriodsOk(Pass(s, k).timers)
    requires Pass(s, k).log <= log
    requires var p := Pass(s, k);
             CountOf(log[|p.log|..], id) == if id in p.timers then Weight(p.timers[id], t) else 0
    ensures CountOf(log[|s.log|..], id) == if id in s.timers then Weight(s.timers[id], t) else 0
  {
    var p := Pass(s, k);
    if s.timers[k].period > 0 { PassWeight(s.timers[k], t); }
    assert p.log[|s.log|] == log[|s.log|];
    assert log[|s.log|..] == [p.log[|s.log|]] + log[|p.log|..];
  }

  /** The order and the set of firings leave no freedom: the log of `ExactFiring` is the only one. */
  lemma {:induction false} OrderedUnique(a: seq<Firing>, b: seq<Firing>)
    requires Ordered(a) && Ordered(b) && forall f :: f in a <==> f in b
    ensures a == b
  {
    assert b != [] ==> b[0] in b;
    if a != [] {
      assert a[0] in b;
      var i :| 0 <= i < |b| && b[i] == a[0];
      assert b[0] in a;
      var j :| 0 <= j < |a| && a[j] == b[0];
      assert a[0] == b[0];
      forall f ensures f in a[1..] <==> f in b[1..] {
        if f in a[1..] { assert f in b; assert f != a[0]; }
        if f in b[1..] { assert f in a; assert f != b[0]; }
      }
      OrderedUnique(a[1..], b[1..]);
    }
  }

  /** After a `Set(t)`, with any script, no active entry is due: all of them lie beyond t. */
  lemma {:induction false} NothingRemainsDue(s: State, t: int, script: Script)
    requires Valid(s) && s.now <= t
    ensures var r := SetTo(s, t, script); r.now == t && forall id :: !Due(r, t, id)
    decreases |script|, Measure(s, t)
  {
    LoopDrains(s, t, script);
    var r := SetLoop(s, t, script).0;
    assert forall id :: Due(r.(now := t), t, id) == Due(r, t, id);
  }

  lemma {:induction false} LoopDrains(s: State, t: int, script: Script)
    requires Valid(s)
    ensures forall id :: !Due(SetLoop(s, t, script).0, t, id)
    decreases |script|, Measure(s, t)
  {
    match Earliest(s, t)
    case None =>
    case Some(id) =>
      PassMeasure(s, t, id);
      LoopDrains(Window(Pass(s, id), script), t, Rest(script));
  }
}
