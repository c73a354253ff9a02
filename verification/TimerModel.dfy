/** The deterministic timer engine of internal/testclock/clock.go as a function of values:
  * the clock's state, the operations a caller or a callback may perform on it, and the
  * event loop of `Set`. The class in TestClock.dfy is proved to compute exactly this.
  */
module TimerModel {
  import opened Arith
  import opened Basics

  /** The three ways a timer comes into being: NewTimer, AfterFunc and NewTicker. */
  datatype Kind = ChanTimer | FuncTimer | Ticker

  datatype Entry = Entry(
    deadline: int, period: int, order: nat, active: bool, ticks: nat, hasChan: bool, hasFn: bool)

  /** One pass of the event loop: entry `id`, created as number `order`, fired at time `at`,
    * and `ran` says whether that ran an AfterFunc callback. */
  datatype Firing = Firing(id: nat, order: nat, at: int, ran: bool)

  /** `kinds` records which handles have been given out; `chans` holds the one buffered value
    * of each full channel, by the id of its timer; `log` lists every firing so far. */
  datatype State = State(
    now: int, nextID: nat, timers: map<nat, Entry>,
    kinds: map<nat, Kind>, chans: map<nat, int>, log: seq<Firing>)

  /** Everything that can happen to the clock while `Set` is not holding its lock.
    * `Receive` takes the buffered value out of a timer's channel. */
  datatype Op =
    | NewTimer(d: int)
    | AfterFunc(d: int)
    | NewTicker(d: int)
    | TimerStop(id: nat)
    | TimerReset(id: nat, d: int)
    | TickerStop(id: nat)
    | TickerReset(id: nat, d: int)
    | Receive(id: nat)

  /** The operations run in each unlocked window of one `Set`, in firing order: the i-th
    * element is what the i-th callback, and whoever interleaves with it, does to the clock. */
  type Script = seq<seq<Op>>

  datatype Action = Do(op: Op) | Set(t: int, script: Script) | Advance(d: int, script: Script)

  // ---------------------------------------------------------------- state invariant

  ghost predicate EntryOk(s: State, id: nat)
    requires id in s.timers
  {
    var e := s.timers[id];
    && id in s.kinds
    && 1 <= e.order <= s.nextID
    && e.period >= 0
    && (s.kinds[id] == Ticker <==> e.period > 0)
    && (e.period == 0 ==> e.active)
    && (e.hasChan <==> s.kinds[id] != FuncTimer)
    && (e.hasFn ==> s.kinds[id] == FuncTimer)
  }

  ghost predicate Valid(s: State) {
    && (forall id <- s.kinds :: 1 <= id <= s.nextID)
    && (forall id <- s.timers :: EntryOk(s, id))
    && (forall i, j :: i in s.timers && j in s.timers && i != j ==> s.timers[i].order != s.timers[j].order)
  }

  // ---------------------------------------------------------------- operations

  function Add(s: State, d: int, period: nat, kind: Kind): (r: State)
    requires Valid(s) && (period > 0 <==> kind == Ticker)
    ensures Valid(r)
  {
    var id := s.nextID + 1;
    var e := Entry(s.now + d, period, id, true, 0, kind != FuncTimer, kind == FuncTimer);
    s.(nextID := id, timers := s.timers[id := e], kinds := s.kinds[id := kind])
  }

  /** A timer handle is not a ticker handle; only handles that were given out can be used. */
  predicate HasTimer(s: State, id: nat) { id in s.kinds && s.kinds[id] != Ticker }
  predicate HasTicker(s: State, id: nat) { id in s.kinds && s.kinds[id] == Ticker }

  /** Stop and Reset report whether the timer was still active. */
  predicate WasActive(s: State, id: nat) { id in s.timers && s.timers[id].active }

  function Reset(s: State, id: nat, d: int): (r: State)
    requires Valid(s) && HasTimer(s, id)
    ensures Valid(r)
  {
    if id in s.timers then
      s.(timers := s.timers[id := s.timers[id].(deadline := s.now + d, active := true)])
    else
      // A fired timer is recreated with the handle's channel but without its callback.
      var e := Entry(s.now + d, 0, s.nextID + 1, true, 0, s.kinds[id] == ChanTimer, false);
      s.(nextID := s.nextID + 1, timers := s.timers[id := e])
  }

  /** A call the source answers with a panic, or one on a handle nobody holds, changes nothing. */
  function Apply(s: State, op: Op): (r: State)
    requires Valid(s)
    ensures Valid(r)
  {
    match op
    case NewTimer(d) => Add(s, d, 0, ChanTimer)
    case AfterFunc(d) => Add(s, d, 0, FuncTimer)
    case NewTicker(d) => if d <= 0 then s else Add(s, d, d, Ticker)
    case TimerStop(id) =>
      if HasTimer(s, id) && WasActive(s, id) then s.(timers := s.timers - {id}) else s
    case TimerReset(id, d) => if HasTimer(s, id) then Reset(s, id, d) else s
    case TickerStop(id) =>
      if HasTicker(s, id) && id in s.timers then
        s.(timers := s.timers[id := s.timers[id].(active := false)])
      else s
    case TickerReset(id, d) =>
      if HasTicker(s, id) && d > 0 && id in s.timers then
        s.(timers := s.timers[id := s.timers[id].(period := d, deadline := s.now + d, active := true)])
      else s
    case Receive(id) => s.(chans := s.chans - {id})
  }

  function ApplyAll(s: State, ops: seq<Op>): (r: State)
    requires Valid(s)
    ensures Valid(r)
  {
    if ops == [] then s
    else Apply(ApplyAll(s, ops[..|ops| - 1]), ops[|ops| - 1])
  }

  // ---------------------------------------------------------------- the event loop

  predicate DueEntry(e: Entry, t: int) { e.active && e.deadline <= t }

  predicate Due(s: State, t: int, id: nat) { id in s.timers && DueEntry(s.timers[id], t) }

  /** Deadline order, ties broken by creation order. */
  predicate Before(at1: int, order1: nat, at2: int, order2: nat) {
    at1 < at2 || (at1 == at2 && order1 < order2)
  }

  predicate EntryBefore(a: Entry, b: Entry) { Before(a.deadline, a.order, b.deadline, b.order) }

  /** The least due entry among the ids up to n. */
  function EarliestUpTo(s: State, t: int, n: nat): (r: Option<nat>)
    ensures r.Some? ==> r.value <= n && Due(s, t, r.value)
    ensures r.None? ==> forall id: nat | id <= n :: !Due(s, t, id)
  {
    var best := if n == 0 then None else EarliestUpTo(s, t, n - 1);
    if Due(s, t, n) && (best.None? || EntryBefore(s.timers[n], s.timers[best.value])) then Some(n)
    else best
  }

  function Earliest(s: State, t: int): (r: Option<nat>)
    requires Valid(s)
    ensures r.Some? ==> Due(s, t, r.value)
    ensures r.None? ==> forall id :: !Due(s, t, id)
  {
    assert forall id | Due(s, t, id) :: EntryOk(s, id);
    EarliestUpTo(s, t, s.nextID)
  }

  /** One pass: step `now` to the deadline, reschedule or delete, then run the callback or
    * offer the time to the channel, which drops it when its buffer is full. */
  function Pass(s: State, id: nat): (r: State)
    requires Valid(s) && id in s.timers
    ensures Valid(r)
  {
    var e := s.timers[id];
    s.(now := e.deadline,
       timers := if e.period > 0 then
                   s.timers[id := e.(deadline := e.deadline + e.period, ticks := e.ticks + 1)]
                 else s.timers - {id},
       chans := if !e.hasFn && e.hasChan && id !in s.chans then s.chans[id := e.deadline] else s.chans,
       log := s.log + [Firing(id, e.order, e.deadline, e.hasFn)])
  }

  /** How many passes an untouched entry still takes to get beyond t. */
  function Weight(e: Entry, t: int): (w: nat)
    requires e.period >= 0
    ensures DueEntry(e, t) <==> w > 0
  {
    if !DueEntry(e, t) then 0
    else if e.period == 0 then 1
    else DivSign(t - e.deadline, e.period); (t - e.deadline) / e.period + 1
  }

  ghost predicate PeriodsOk(timers: map<nat, Entry>) { forall id <- timers :: timers[id].period >= 0 }

  function WeightUpTo(timers: map<nat, Entry>, t: int, n: nat): nat
    requires PeriodsOk(timers)
  {
    (if n in timers then Weight(timers[n], t) else 0) + (if n == 0 then 0 else WeightUpTo(timers, t, n - 1))
  }

  /** One per due one-shot, and (t - deadline) / period + 1 per due active ticker. */
  function Measure(s: State, t: int): nat
    requires Valid(s)
  {
    assert forall id <- s.timers :: EntryOk(s, id);
    WeightUpTo(s.timers, t, s.nextID)
  }

  lemma {:induction false} WeightUpToChange(a: map<nat, Entry>, b: map<nat, Entry>, t: int, id: nat, n: nat)
    requires PeriodsOk(a) && PeriodsOk(b)
    requires forall k | k != id :: (k in a <==> k in b) && (k in a ==> a[k] == b[k])
    ensures var wa := if id in a && id <= n then Weight(a[id], t) else 0;
            var wb := if id in b && id <= n then Weight(b[id], t) else 0;
            WeightUpTo(a, t, n) - wa == WeightUpTo(b, t, n) - wb
  {
    if n > 0 { WeightUpToChange(a, b, t, id, n - 1); }
  }

  /** Firing an entry costs it exactly one of its remaining passes. */
  lemma PassWeight(e: Entry, t: int)
    requires e.period > 0 && DueEntry(e, t)
    ensures Weight(e.(deadline := e.deadline + e.period, ticks := e.ticks + 1), t) == Weight(e, t) - 1
  {
    DivShift(t - e.deadline, e.period);
    if e.deadline + e.period > t {
      assert t - e.deadline == e.period * 0 + (t - e.deadline);
      DivUnique(t - e.deadline, e.period, 0, t - e.deadline);
    } else {
      assert t - (e.deadline + e.period) == t - e.deadline - e.period;
    }
  }

  lemma PassMeasure(s: State, t: int, id: nat)
    requires Valid(s) && Due(s, t, id)
    ensures Measure(Pass(s, id), t) == Measure(s, t) - 1
  {
    var r := Pass(s, id);
    assert EntryOk(s, id);
    assert forall k <- s.timers :: EntryOk(s, k);
    assert forall k <- r.timers :: EntryOk(r, k);
    WeightUpToChange(s.timers, r.timers, t, id, s.nextID);
    if s.timers[id].period > 0 { PassWeight(s.timers[id], t); }
  }

  /** What the next unlocked window does to the clock; nothing once the script is used up. */
  function Window(s: State, script: Script): (r: State)
    requires Valid(s)
    ensures Valid(r)
  {
    if script == [] then s else ApplyAll(s, script[0])
  }

  function Rest(script: Script): Script { if script == [] then [] else script[1..] }

  /** The loop of `Set`, and the part of the script that it did not get to. */
  function SetLoop(s: State, t: int, script: Script): (r: (State, Script))
    requires Valid(s)
    ensures Valid(r.0)
    decreases |script|, Measure(s, t)
  {
    match Earliest(s, t)
    case None => (s, script)
    case Some(id) =>
      PassMeasure(s, t, id);
      SetLoop(Window(Pass(s, id), script), t, Rest(script))
  }

  /** `Set`; a target in the past is a panic and changes nothing. */
  function SetTo(s: State, t: int, script: Script): (r: State)
    requires Valid(s)
    ensures Valid(r)
  {
    if t < s.now then s else SetLoop(s, t, script).0.(now := t)
  }

  function Act(s: State, a: Action): (r: State)
    requires Valid(s)
    ensures Valid(r)
  {
    match a
    case Do(op) => Apply(s, op)
    case Set(t, script) => SetTo(s, t, script)
    case Advance(d, script) => if d < 0 then s else SetTo(s, s.now + d, script)
  }

  function Run(s: State, actions: seq<Action>): (r: State)
    requires Valid(s)
    ensures Valid(r)
  {
    if actions == [] then s
    else Act(Run(s, actions[..|actions| - 1]), actions[|actions| - 1])
  }
}
