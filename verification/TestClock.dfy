/** The test clock itself: a heap object whose entries are updated in place by the event loop.
  * Every method computes what TimerModel says. */
module TestClock {
  import opened Basics
  import M = TimerModel
  import Laws = TimerLaws

  class Entry {
    const id: nat
    var deadline: int
    var period: int
    const order: nat
    var active: bool
    var ticks: nat
    const hasChan: bool
    const hasFn: bool

    constructor (id: nat, deadline: int, period: int, order: nat, hasChan: bool, hasFn: bool)
      ensures this.id == id
      ensures View() == M.Entry(deadline, period, order, true, 0, hasChan, hasFn)
    {
      this.id, this.deadline, this.period, this.order := id, deadline, period, order;
      this.active, this.ticks, this.hasChan, this.hasFn := true, 0, hasChan, hasFn;
    }

    ghost function View(): M.Entry
      reads this
    {
      M.Entry(deadline, period, order, active, ticks, hasChan, hasFn)
    }
  }

  class Clock {
    var now: int
    var nextID: nat
    var timers: map<nat, Entry>
    var chans: map<nat, int>
    /** The handles given out; their holders keep them, the clock itself does not look here. */
    var kinds: map<nat, M.Kind>
    ghost var log: seq<M.Firing>

    ghost function View(): M.State
      reads this, timers.Values
    {
      M.State(now, nextID, map id | id in timers :: timers[id].View(), kinds, chans, log)
    }

    ghost predicate Valid()
      reads this, timers.Values
    {
      && (forall id <- timers :: timers[id].id == id)
      && M.Valid(View())
    }

    constructor (start: int)
      ensures Valid() && View() == M.State(start, 0, map[], map[], map[], [])
      ensures timers == map[]
    {
      now, nextID, timers, chans := start, 0, map[], map[];
      kinds, log := map[], [];
    }

    // -------------------------------------------------------------- creating timers

    method Add(d: int, period: nat, kind: M.Kind) returns (id: nat)
      requires Valid() && (period > 0 <==> kind == M.Ticker)
      modifies this
      ensures Valid() && fresh(timers.Values - old(timers.Values))
      ensures View() == M.Add(old(View()), d, period, kind)
      ensures id == old(nextID) + 1
    {
      hide M.Valid;
      ghost var before := View();
      nextID := nextID + 1;
      id := nextID;
      var e := new Entry(id, now + d, period, id, kind != M.FuncTimer, kind == M.FuncTimer);
      timers := timers[id := e];
      kinds := kinds[id := kind];
      assert View().timers == M.Add(before, d, period, kind).timers;
    }

    method NewTimer(d: int) returns (id: nat)
      requires Valid()
      modifies this
      ensures Valid() && fresh(timers.Values - old(timers.Values))
      ensures View() == M.Apply(old(View()), M.NewTimer(d)) && id == nextID
    {
      id := Add(d, 0, M.ChanTimer);
    }

    method AfterFunc(d: int) returns (id: nat)
      requires Valid()
      modifies this
      ensures Valid() && fresh(timers.Values - old(timers.Values))
      ensures View() == M.Apply(old(View()), M.AfterFunc(d)) && id == nextID
    {
      id := Add(d, 0, M.FuncTimer);
    }

    method NewTicker(d: int) returns (panicked: bool, id: nat)
      requires Valid()
      modifies this
      ensures Valid() && fresh(timers.Values - old(timers.Values))
      ensures View() == M.Apply(old(View()), M.NewTicker(d))
      ensures panicked == (d <= 0) && (!panicked ==> id == nextID)
    {
      if d <= 0 { return true, 0; }
      id := Add(d, d, M.Ticker);
      panicked := false;
    }

    // -------------------------------------------------------------- handles

    method TimerStop(id: nat) returns (was: bool)
      requires Valid() && M.HasTimer(View(), id)
      modifies this, timers.Values
      ensures Valid() && timers.Values <= old(timers.Values)
      ensures View() == M.Apply(old(View()), M.TimerStop(id))
      ensures was == M.WasActive(old(View()), id)
    {
      if id !in timers || !timers[id].active { return false; }
      ghost var before := View();
      timers[id].active := false;
      timers := timers - {id};
      assert View().timers == before.timers - {id};
      was := true;
    }

    /** `hasChan` is whether the handle carries a channel; an AfterFunc handle does not. */
    method TimerReset(id: nat, hasChan: bool, d: int) returns (was: bool)
      requires Valid() && M.HasTimer(View(), id) && hasChan == (kinds[id] == M.ChanTimer)
      modifies this, timers.Values
      ensures Valid() && fresh(timers.Values - old(timers.Values))
      ensures View() == M.Apply(old(View()), M.TimerReset(id, d))
      ensures was == M.WasActive(old(View()), id)
    {
      if id !in timers {
        Recreate(id, hasChan, d);
        return false;
      }
      was := timers[id].active;
      Rearm(id, d);
    }

    method Rearm(id: nat, d: int)
      requires Valid() && M.HasTimer(View(), id) && id in timers
      modifies timers[id]
      ensures Valid() && View() == M.Reset(old(View()), id, d)
    {
      hide M.Valid;
      ghost var after := M.Reset(View(), id, d);
      var e := timers[id];
      e.deadline := now + d;
      e.active := true;
      assert View().timers == after.timers;
    }

    method Recreate(id: nat, hasChan: bool, d: int)
      requires Valid() && M.HasTimer(View(), id) && hasChan == (kinds[id] == M.ChanTimer)
      requires id !in timers
      modifies this
      ensures Valid() && fresh(timers.Values - old(timers.Values))
      ensures View() == M.Reset(old(View()), id, d)
    {
      hide M.Valid;
      ghost var before := View();
      nextID := nextID + 1;
      var ne := new Entry(id, now + d, 0, nextID, hasChan, false);
      timers := timers[id := ne];
      assert View().timers == M.Reset(before, id, d).timers;
    }

    method TickerStop(id: nat)
      requires Valid() && M.HasTicker(View(), id)
      modifies this, timers.Values
      ensures Valid() && timers == old(timers)
      ensures View() == M.Apply(old(View()), M.TickerStop(id))
    {
      ghost var after := M.Apply(View(), M.TickerStop(id));
      if id in timers {
        timers[id].active := false;
        assert View().timers == after.timers;
      }
    }

    method TickerReset(id: nat, d: int) returns (panicked: bool)
      requires Valid() && M.HasTicker(View(), id)
      modifies this, timers.Values
      ensures Valid() && timers == old(timers)
      ensures View() == M.Apply(old(View()), M.TickerReset(id, d))
      ensures panicked == (d <= 0)
    {
      ghost var after := M.Apply(View(), M.TickerReset(id, d));
      if d <= 0 { return true; }
      if id in timers {
        var e := timers[id];
        e.period := d;
        e.deadline := now + d;
        e.active := true;
        assert View().timers == after.timers;
      }
      panicked := false;
    }

    /** Takes the value, if any, out of a channel, as its reader does. */
    method Receive(id: nat)
      requires Valid()
      modifies this
      ensures Valid() && timers == old(timers)
      ensures View() == M.Apply(old(View()), M.Receive(id))
    {
      hide M.Valid;
      ghost var before := View();
      chans := chans - {id};
      assert View() == M.Apply(before, M.Receive(id));
    }

    // -------------------------------------------------------------- the event loop

    /** The head of the due entries once sorted by deadline and then by creation order. */
    method FirstInOrder(due: seq<Entry>) returns (first: Entry)
      requires due != []
      ensures first in due
      ensures forall e <- due :: e == first || !M.EntryBefore(e.View(), first.View())
    {
      first := due[0];
      for i := 1 to |due|
        invariant first in due
        invariant forall j | 0 <= j < i :: due[j] == first || !M.EntryBefore(due[j].View(), first.View())
      {
        var e := due[i];
        if e.deadline < first.deadline || (e.deadline == first.deadline && e.order < first.order) {
          first := e;
        }
      }
    }

    /** `e` is the registered entry that has to fire next on the way to t, or null for none. */
    ghost predicate IsNext(e: Entry?, t: int)
      requires Valid()
      reads this, timers.Values
    {
      if e == null then M.Earliest(View(), t).None?
      else M.Earliest(View(), t) == Some(e.id) && e.id in timers && timers[e.id] == e
    }

    /** Walks the map in no particular order, as Go does; the result does not depend on it. */
    method EarliestDue(target: int) returns (first: Entry?)
      requires Valid()
      ensures IsNext(first, target)
    {
      hide M.Valid, M.Earliest;
      var due: seq<Entry> := [];
      var rest := timers.Keys;
      while rest != {}
        invariant rest <= timers.Keys
        invariant forall e <- due :: e.id in timers && timers[e.id] == e && M.Due(View(), target, e.id)
        invariant forall id | id in timers && id !in rest && M.Due(View(), target, id) :: timers[id] in due
        decreases rest
      {
        var id :| id in rest;
        rest := rest - {id};
        var e := timers[id];
        if e.active && e.deadline <= target { due := due + [e]; }
      }
      if due == [] {
        ghost var s := View();
        assert forall id :: !M.Due(s, target, id);
        Laws.NothingDueNext(s, target);
        return null;
      }
      first := FirstInOrder(due);
      FirstIsNext(due, first, target);
    }

    lemma FirstIsNext(due: seq<Entry>, first: Entry, target: int)
      requires Valid() && first in due
      requires forall e <- due :: e.id in timers && timers[e.id] == e && M.Due(View(), target, e.id)
      requires forall id | M.Due(View(), target, id) :: timers[id] in due
      requires forall e <- due :: e == first || !M.EntryBefore(e.View(), first.View())
      ensures IsNext(first, target)
    {
      var s := View();
      forall k | M.Due(s, target, k) && k != first.id
        ensures M.EntryBefore(s.timers[first.id], s.timers[k])
      {
        assert timers[k] in due;
      }
      Laws.EarliestIsLeast(s, target, first.id);
    }

    /** One operation by a callback or by whoever runs while the lock is free. */
    method Perform(op: M.Op)
      requires Valid()
      modifies this, timers.Values
      ensures Valid() && fresh(timers.Values - old(timers.Values))
      ensures View() == M.Apply(old(View()), op)
    {
      match op {
        case NewTimer(d) => var _ := NewTimer(d);
        case AfterFunc(d) => var _ := AfterFunc(d);
        case NewTicker(d) => var _, _ := NewTicker(d);
        case TimerStop(id) => if id in kinds && kinds[id] != M.Ticker { var _ := TimerStop(id); }
        case TimerReset(id, d) =>
          if id in kinds && kinds[id] != M.Ticker { var _ := TimerReset(id, kinds[id] == M.ChanTimer, d); }
        case TickerStop(id) => if id in kinds && kinds[id] == M.Ticker { TickerStop(id); }
        case TickerReset(id, d) => if id in kinds && kinds[id] == M.Ticker { var _ := TickerReset(id, d); }
        case Receive(id) => Receive(id);
      }
    }

    method PerformAll(ops: seq<M.Op>)
      requires Valid()
      modifies this, timers.Values
      ensures Valid() && fresh(timers.Values - old(timers.Values))
      ensures View() == M.ApplyAll(old(View()), ops)
    {
      ghost var before := View();
      for i := 0 to |ops|
        invariant Valid() && fresh(timers.Values - old(timers.Values))
        invariant View() == M.ApplyAll(before, ops[..i])
      {
        assert ops[..i + 1][..i] == ops[..i];
        Perform(ops[i]);
      }
      assert ops[..|ops|] == ops;
    }

    /** The body of the loop: step the time, reschedule or remove, then deliver. */
    method Fire(e: Entry)
      requires Valid() && e.id in timers && timers[e.id] == e
      modifies this, timers.Values
      ensures Valid() && timers.Values <= old(timers.Values)
      ensures View() == M.Pass(old(View()), e.id)
    {
      hide M.Valid;
      ghost var after := M.Pass(View(), e.id);
      var fireTime := e.deadline;
      Reschedule(e);
      log := log + [M.Firing(e.id, e.order, fireTime, e.hasFn)];
      if !e.hasFn && e.hasChan && e.id !in chans {
        chans := chans[e.id := fireTime];
      }
      assert View() == after;
    }

    method Reschedule(e: Entry)
      requires Valid() && e.id in timers && timers[e.id] == e
      modifies this`now, this`timers, e
      ensures timers.Values <= old(timers.Values)
      ensures forall id <- timers :: timers[id].id == id
      ensures View().timers == M.Pass(old(View()), e.id).timers
      ensures now == old(e.deadline)
    {
      hide M.Valid;
      ghost var before := View();
      ghost var after := M.Pass(before, e.id).timers;
      now := e.deadline;
      if e.period > 0 {
        e.deadline, e.ticks := e.deadline + e.period, e.ticks + 1;
        assert View().timers == after;
      } else {
        e.active := false;
        timers := timers - {e.id};
        assert View().timers == after;
      }
    }

    ghost predicate Shrinks(s: M.State, script: M.Script, s': M.State, rest: M.Script, t: int)
      requires M.Valid(s) && M.Valid(s')
    {
      |rest| < |script| || (|rest| == |script| && M.Measure(s', t) < M.Measure(s, t))
    }

    /** One turn of the loop; returns what is left of the script and the entry that is next. */
    method Turn(e: Entry, t: int, script: M.Script) returns (rest: M.Script, next: Entry?)
      requires Valid() && IsNext(e, t)
      modifies this, timers.Values
      ensures Valid() && fresh(timers.Values - old(timers.Values)) && IsNext(next, t)
      ensures M.SetLoop(View(), t, rest) == M.SetLoop(old(View()), t, script)
      ensures Shrinks(old(View()), script, View(), rest, t)
    {
      hide M.SetLoop, M.Valid, M.Measure, M.Earliest, M.Pass, M.ApplyAll;
      ghost var s := View();
      Laws.LoopStep(s, t, script, e.id);
      Fire(e);
      rest := script;
      if script != [] {
        PerformAll(script[0]);
        rest := script[1..];
      }
      assert View() == M.Window(M.Pass(s, e.id), script) && rest == M.Rest(script);
      next := EarliestDue(t);
    }

    /** The loop of `Set`. */
    method Drain(t: int, script: M.Script)
      requires Valid()
      modifies this, timers.Values
      ensures Valid() && fresh(timers.Values - old(timers.Values))
      ensures View() == M.SetLoop(old(View()), t, script).0
    {
      hide M.SetLoop, M.Valid, M.Measure, M.Earliest;
      ghost var target := M.SetLoop(View(), t, script);
      ghost var state := View();
      var rest := script;
      var e := EarliestDue(t);
      while e != null
        invariant Valid() && fresh(timers.Values - old(timers.Values))
        invariant state == View()
        invariant M.SetLoop(state, t, rest) == target
        invariant IsNext(e, t)
        decreases |rest|, M.Measure(state, t)
      {
        rest, e := Turn(e, t, rest);
        state := View();
      }
      Laws.LoopStops(state, t, rest);
    }

    /** The i-th element of `script` is what happens while the lock is free after the i-th
      * firing, including what the i-th callback does. */
    method Set(t: int, script: M.Script) returns (panicked: bool)
      requires Valid()
      modifies this, timers.Values
      ensures Valid() && fresh(timers.Values - old(timers.Values))
      ensures panicked == (t < old(now))
      ensures View() == M.SetTo(old(View()), t, script)
    {
      hide M.SetLoop, M.Valid;
      if t < now { return true; }
      ghost var after := M.SetTo(View(), t, script);
      Drain(t, script);
      now := t;
      assert View() == after;
      panicked := false;
    }

    method Advance(d: int, script: M.Script) returns (panicked: bool)
      requires Valid()
      modifies this, timers.Values
      ensures Valid() && fresh(timers.Values - old(timers.Values))
      ensures panicked == (d < 0)
      ensures View() == M.Act(old(View()), M.Advance(d, script))
    {
      hide M.SetLoop, M.Valid;
      if d < 0 { return true; }
      panicked := Set(now + d, script);
    }

    // -------------------------------------------------------------- observers

    method Len() returns (n: nat)
      requires Valid()
      ensures n == |set id | id in timers && timers[id].active|
    {
      n := 0;
      var rest := timers.Keys;
      ghost var seen: set<nat> := {};
      while rest != {}
        invariant rest <= timers.Keys
        invariant seen == set id | id in timers && id !in rest && timers[id].active
        invariant n == |seen|
        decreases rest
      {
        var id :| id in rest;
        rest := rest - {id};
        if timers[id].active {
          n := n + 1;
          seen := seen + {id};
        }
      }
      assert seen == set id | id in timers && timers[id].active;
    }

    method TickCount(id: nat) returns (n: nat)
      requires Valid() && M.HasTicker(View(), id)
      ensures id in timers ==> n == View().timers[id].ticks
      ensures id !in timers ==> n == 0
    {
      n := if id in timers then timers[id].ticks else 0;
    }
  }
}
