/** Retried recovery ends where one undisturbed recovery ends, and never opens traffic early. */
module RecoveryConvergence {
  import opened Basics
  import opened Schema
  import opened RecoveryModel
  import opened RecoveryLaws

  // ---------------------------------------------------------------- what an undisturbed run does

  function HostStep(h: HostState, step: Step): HostState {
    if step.OnSysctl? then
      var s := step.sysctl;
      if s.name in h.sysctls && h.sysctls[s.name] == s.installed then Effect(h, SetSysctl(s.name, s.prior)) else h
    else Effect(h, FirstCall(step))
  }

  function HostSteps(h: HostState, steps: seq<Step>): HostState {
    if steps == [] then h else HostStep(HostSteps(h, steps[..|steps| - 1]), steps[|steps| - 1])
  }

  lemma UnfailedStep(p: Progress, o: Oracle, step: Step)
    requires !RunStep(p, o, step).failed
    ensures RunStep(p, o, step).host == HostStep(p.host, step)
  {
    if step.OnSysctl? {
      var s := step.sysctl;
      if s.name in p.host.sysctls && p.host.sysctls[s.name] == s.installed == s.prior {
        assert p.host.sysctls[s.name := s.prior] == p.host.sysctls;
      }
    }
  }

  /** A run in which no call failed had the effect of every step in turn. */
  lemma {:induction false} UnfailedHost(p: Progress, o: Oracle, steps: seq<Step>)
    requires !RunSteps(p, o, steps).failed
    ensures RunSteps(p, o, steps).host == HostSteps(p.host, steps)
  {
    if steps != [] {
      var m := RunSteps(p, o, steps[..|steps| - 1]);
      StepFacts(m, o, steps[|steps| - 1]);
      UnfailedStep(m, o, steps[|steps| - 1]);
      UnfailedHost(p, o, steps[..|steps| - 1]);
    }
  }

  lemma {:induction false} HostConcat(h: HostState, a: seq<Step>, b: seq<Step>)
    ensures HostSteps(h, a + b) == HostSteps(HostSteps(h, a), b)
  {
    if b == [] {
      assert a + b == a;
    } else {
      assert (a + b)[..|a + b| - 1] == a + b[..|b| - 1];
      HostConcat(h, a, b[..|b| - 1]);
    }
  }

  lemma {:induction false} HostRoutes(h: HostState, j: Journal, n: nat)
    requires n <= |j.routes|
    ensures HostSteps(h, RouteSteps(j)[..n]) == h.(routes := set r | r in h.routes && r !in j.routes[..n])
  {
    if n > 0 {
      HostRoutes(h, j, n - 1);
      assert RouteSteps(j)[..n][..n - 1] == RouteSteps(j)[..n - 1];
      assert j.routes[..n] == j.routes[..n - 1] + [j.routes[n - 1]];
    } else {
      assert h.routes == set r | r in h.routes && r !in j.routes[..n];
    }
  }

  lemma {:induction false} HostRules(h: HostState, j: Journal, n: nat)
    requires n <= |j.rules|
    ensures HostSteps(h, RuleSteps(j)[..n]) == h.(rules := set r | r in h.rules && r !in j.rules[..n])
  {
    if n > 0 {
      HostRules(h, j, n - 1);
      assert RuleSteps(j)[..n][..n - 1] == RuleSteps(j)[..n - 1];
      assert j.rules[..n] == j.rules[..n - 1] + [j.rules[n - 1]];
    } else {
      assert h.rules == set r | r in h.rules && r !in j.rules[..n];
    }
  }

  lemma {:induction false} HostTables(h: HostState, j: Journal, n: nat)
    requires n <= |j.tables|
    ensures HostSteps(h, TableSteps(j)[..n]) == h.(routes := set r | r in h.routes && r.table !in j.tables[..n])
  {
    if n > 0 {
      HostTables(h, j, n - 1);
      assert TableSteps(j)[..n][..n - 1] == TableSteps(j)[..n - 1];
      assert j.tables[..n] == j.tables[..n - 1] + [j.tables[n - 1]];
    } else {
      assert h.routes == set r | r in h.routes && r.table !in j.tables[..n];
    }
  }

  lemma {:induction false} HostNFTables(h: HostState, j: Journal, n: nat)
    requires n <= |j.nftables|
    ensures HostSteps(h, NFTableSteps(j)[..n]) == h.(nftables := set t | t in h.nftables && t !in j.nftables[..n])
  {
    if n > 0 {
      HostNFTables(h, j, n - 1);
      assert NFTableSteps(j)[..n][..n - 1] == NFTableSteps(j)[..n - 1];
      assert j.nftables[..n] == j.nftables[..n - 1] + [j.nftables[n - 1]];
    } else {
      assert h.nftables == set t | t in h.nftables && t !in j.nftables[..n];
    }
  }

  lemma {:induction false} HostSysctls(h: HostState, j: Journal, n: nat)
    requires n <= |j.sysctls|
    ensures HostSteps(h, SysctlSteps(j)[..n]) == h.(sysctls := SettleAll(j.sysctls[..n], h.sysctls))
  {
    if n > 0 {
      HostSysctls(h, j, n - 1);
      assert SysctlSteps(j)[..n][..n - 1] == SysctlSteps(j)[..n - 1];
      assert j.sysctls[..n][..n - 1] == j.sysctls[..n - 1];
      HostSysctl(h, j.sysctls[..n]);
    } else {
      assert SettleAll(j.sysctls[..n], h.sysctls) == h.sysctls;
    }
  }

  lemma HostSysctl(h: HostState, recs: seq<Sysctl>)
    requires recs != []
    ensures var before := h.(sysctls := SettleAll(recs[..|recs| - 1], h.sysctls));
            HostStep(before, OnSysctl(recs[|recs| - 1])) == h.(sysctls := SettleAll(recs, h.sysctls))
  {
    var n := |recs| - 1;
    var before := h.(sysctls := SettleAll(recs[..n], h.sysctls));
    var after, goal := HostStep(before, OnSysctl(recs[n])).sysctls, SettleAll(recs, h.sysctls);
    forall k | k in h.sysctls ensures k in after && after[k] == goal[k] {}
    assert after == goal;
  }

  /** Everything but the kill switch, which is the last thing to go. */
  ghost function RestoredButNFT(j: Journal, h: HostState): HostState { Restored(j, h).(nftables := h.nftables) }

  lemma UndisturbedHost(j: Journal, h: HostState)
    ensures HostSteps(h, Phase1(j) + TableSteps(j)) == RestoredButNFT(j, h)
    ensures HostSteps(h, AllSteps(j)) == Restored(j, h)
  {
    hide HostSteps;
    HostConcat(h, Phase1(j) + TableSteps(j), NFTableSteps(j));
    HostConcat(h, Phase1(j), TableSteps(j));
    HostConcat(h, RouteSteps(j) + RuleSteps(j) + ResolverSteps(j), SysctlSteps(j));
    HostConcat(h, RouteSteps(j) + RuleSteps(j), ResolverSteps(j));
    HostConcat(h, RouteSteps(j), RuleSteps(j));
    assert RouteSteps(j)[..|j.routes|] == RouteSteps(j) && j.routes[..|j.routes|] == j.routes;
    assert RuleSteps(j)[..|j.rules|] == RuleSteps(j) && j.rules[..|j.rules|] == j.rules;
    assert TableSteps(j)[..|j.tables|] == TableSteps(j) && j.tables[..|j.tables|] == j.tables;
    assert SysctlSteps(j)[..|j.sysctls|] == SysctlSteps(j) && j.sysctls[..|j.sysctls|] == j.sysctls;
    assert NFTableSteps(j)[..|j.nftables|] == NFTableSteps(j) && j.nftables[..|j.nftables|] == j.nftables;
    HostRoutes(h, j, |j.routes|);
    var h1 := HostSteps(h, RouteSteps(j));
    HostRules(h1, j, |j.rules|);
    var h2 := HostSteps(h1, RuleSteps(j));
    HostResolver(h2, j);
    var h3 := HostSteps(h2, ResolverSteps(j));
    HostSysctls(h3, j, |j.sysctls|);
    var h4 := HostSteps(h3, SysctlSteps(j));
    HostTables(h4, j, |j.tables|);
    var h5 := HostSteps(h4, TableSteps(j));
    assert h5 == RestoredButNFT(j, h) by { assert h5.routes == Restored(j, h).routes; }
    HostNFTables(h5, j, |j.nftables|);
  }

  lemma HostResolver(h: HostState, j: Journal)
    ensures HostSteps(h, ResolverSteps(j)) == h.(resolver := if j.resolver.Some? then j.resolver else h.resolver)
  {
    if j.resolver.Some? { assert ResolverSteps(j)[..0] == [] && HostSteps(h, ResolverSteps(j)[..0]) == h; }
  }

  lemma {:induction false} NothingFails(p: Progress, steps: seq<Step>)
    requires !p.failed && forall s <- steps :: s.OnSysctl? ==> s.sysctl.name in p.host.sysctls
    ensures var q := RunSteps(p, [], steps); !q.failed && q.host.sysctls.Keys == p.host.sysctls.Keys
  {
    if steps != [] {
      assert steps[|steps| - 1] in steps;
      NothingFails(p, steps[..|steps| - 1]);
      NoStepFails(RunSteps(p, [], steps[..|steps| - 1]), steps[|steps| - 1]);
    }
  }

  lemma NoStepFails(p: Progress, step: Step)
    requires !p.failed && (step.OnSysctl? ==> step.sysctl.name in p.host.sysctls)
    ensures var q := RunStep(p, [], step); !q.failed && q.host.sysctls.Keys == p.host.sysctls.Keys
  {}

  /** An undisturbed recovery of a readable host succeeds and ends exactly in `Restored`. */
  lemma UndisturbedRun(j: Journal, role: string, instanceID: string, h: HostState)
    requires Accepted(j, role, instanceID) && Readable(j, h)
    ensures var r := Recover(j, role, instanceID, h, []);
            r.error == None && r.host == Restored(j, h)
  {
    hide RunSteps, HostSteps, Restored;
    var p1 := RunSteps(Start(h), [], Phase1(j));
    var p2 := RunSteps(p1, [], TableSteps(j));
    StepsConcat(Start(h), [], Phase1(j), TableSteps(j));
    StepsConcat(Start(h), [], Phase1(j) + TableSteps(j), NFTableSteps(j));
    NothingFails(Start(h), Phase1(j));
    NothingFails(p1, TableSteps(j));
    NothingFails(p2, NFTableSteps(j));
    UnfailedHost(Start(h), [], AllSteps(j));
    UndisturbedHost(j, h);
  }

  // ---------------------------------------------------------------- the kill switch goes last

  lemma {:induction false} NFTablesKept(h: HostState, trace: seq<Event>)
    requires forall e <- trace :: !e.call.DeleteNFTable?
    ensures Replay(h, trace).nftables == h.nftables
  {
    if trace != [] {
      assert trace[|trace| - 1] in trace;
      NFTablesKept(h, trace[..|trace| - 1]);
    }
  }

  lemma {:induction false} OnlyNFTablesGo(h: HostState, trace: seq<Event>, n: nat)
    requires n <= |trace| && forall i | n <= i < |trace| :: trace[i].call.DeleteNFTable?
    ensures Replay(h, trace).(nftables := {}) == Replay(h, trace[..n]).(nftables := {})
  {
    if n < |trace| {
      var shorter := trace[..|trace| - 1];
      OnlyNFTablesGo(h, shorter, n);
      assert shorter[..n] == trace[..n];
    } else {
      assert trace[..n] == trace;
    }
  }

  /** Fail-closed, at every instant: on a host where any kill-switch table has gone missing in the
    * course of a run, everything else the journal owns has already been undone completely. */
  lemma NeverOpensEarly(j: Journal, role: string, instanceID: string, h: HostState, a: Attempt)
    ensures var s := AfterAttempt(j, role, instanceID, h, a);
            s.nftables != h.nftables ==> s.(nftables := h.nftables) == RestoredButNFT(j, h)
  {
    hide RunSteps, Phase1, Recover;
    var o := a.oracle;
    var r := Recover(j, role, instanceID, h, o);
    var n := Min(a.cut, |r.trace|);
    var s := AfterAttempt(j, role, instanceID, h, a);
    if s.nftables != h.nftables {
      RefusedTouchesNothing(j, role, instanceID, h, o);
      var p1, p2 := Stretches(j, role, instanceID, h, o);
      if forall e <- r.trace[..n] :: !e.call.DeleteNFTable? {
        NFTablesKept(h, r.trace[..n]);
        assert false;
      }
      assert p2.trace <= r.trace && |p2.trace| <= n by {
        var e :| e in r.trace[..n] && e.call.DeleteNFTable?;
        var i :| 0 <= i < n && r.trace[..n][i] == e;
        KillSwitchLast(j, role, instanceID, h, o, i);
        StretchBounds(j, p1, p2, r.trace, i);
      }
      assert r.trace[..n][..|p2.trace|] == p2.trace;
      OnlyNFTablesGo(h, r.trace[..n], |p2.trace|);
      CleanPrefix(j, h, o, p1, p2);
    }
  }

  lemma StretchBounds(j: Journal, p1: Progress, p2: Progress, trace: seq<Event>, i: nat)
    requires i < |trace| && trace[i].call.DeleteNFTable?
    requires p1.trace <= trace && p1.trace <= p2.trace
    requires trace != p1.trace ==> p2.trace <= trace
    requires forall k | |p1.trace| <= k < |p2.trace| :: p2.trace[k].call.DeleteRouteTable?
    requires forall e <- p1.trace :: !e.call.DeleteNFTable?
    ensures p2.trace <= trace && |p2.trace| <= i
  {
    assert forall k | 0 <= k < |p1.trace| :: p1.trace[k] in p1.trace && trace[k] == p1.trace[k];
    assert |p1.trace| <= i;
    assert forall k | 0 <= k < |p2.trace| && p2.trace <= trace :: trace[k] == p2.trace[k];
  }

  lemma CleanPrefix(j: Journal, h: HostState, o: Oracle, p1: Progress, p2: Progress)
    requires p1 == RunSteps(Start(h), o, Phase1(j)) && p2 == RunSteps(p1, o, TableSteps(j))
    requires AllOk(p2.trace)
    ensures Replay(h, p2.trace) == RestoredButNFT(j, h)
  {
    var steps := Phase1(j) + TableSteps(j);
    StepsConcat(Start(h), o, Phase1(j), TableSteps(j));
    StepsReplay(h, Start(h), o, steps);
    StepsFacts(Start(h), o, steps);
    assert p2.trace[0..] == p2.trace;
    UnfailedHost(Start(h), o, steps);
    UndisturbedHost(j, h);
  }

  // ---------------------------------------------------------------- convergence

  /** Every record leads the old and the new value of its sysctl to the same place. */
  ghost predicate Settles(j: Journal) {
    forall r <- j.sysctls :: Settle(j.sysctls, r.name, r.prior) == Settle(j.sysctls, r.name, r.installed)
  }

  /** The calls that recovery may make on a host in state h. */
  ghost predicate Planned(j: Journal, h: HostState, c: Call) {
    match c
    case GetSysctl(_) => true
    case SetSysctl(name, value) =>
      name in h.sysctls && exists r <- j.sysctls :: r.name == name && r.prior == value && r.installed == h.sysctls[name]
    case DeleteRoute(r) => r in j.routes
    case DeleteRule(r) => r in j.rules
    case DeleteRouteTable(id) => id in j.tables
    case DeleteNFTable(t) => t in j.nftables
    case RestoreResolver(r) => j.resolver == Some(r)
  }

  lemma TracePlanned(j: Journal, role: string, instanceID: string, h: HostState, o: Oracle, i: nat)
    requires i < |Recover(j, role, instanceID, h, o).trace|
    ensures var trace := Recover(j, role, instanceID, h, o).trace;
            Planned(j, Replay(h, trace[..i]), trace[i].call)
  {
    hide RunSteps, Recover, AllSteps;
    RefusedTouchesNothing(j, role, instanceID, h, o);
    RunIsPrefix(j, role, instanceID, h, o);
    SysctlWrites(j, role, instanceID, h, o, i);
    var r := Recover(j, role, instanceID, h, o);
    var n :| 0 <= n <= |AllSteps(j)| &&
             var q := RunSteps(Start(h), o, AllSteps(j)[..n]); r.host == q.host && r.trace == q.trace;
    var steps := AllSteps(j)[..n];
    StepsFacts(Start(h), o, steps);
    var k :| 0 <= k < |steps| && CallOf(steps[k], RunSteps(Start(h), o, steps).trace[i].call);
    assert CallOf(AllSteps(j)[k], r.trace[i].call);
    OwnCalls(j, k);
  }

  lemma OwnCalls(j: Journal, k: nat)
    requires k < |AllSteps(j)|
    ensures match AllSteps(j)[k]
            case OnRoute(r) => r in j.routes
            case OnRule(r) => r in j.rules
            case OnResolver(r) => j.resolver == Some(r)
            case OnSysctl(s) => s in j.sysctls
            case OnTable(id) => id in j.tables
            case OnNFTable(t) => t in j.nftables
  {}

  lemma EffectKeepsGoal(j: Journal, h: HostState, c: Call)
    requires Settles(j) && Planned(j, h, c)
    ensures Restored(j, Effect(h, c)) == Restored(j, h)
    ensures Effect(h, c).sysctls.Keys == h.sysctls.Keys
  {
    var a, b := Restored(j, Effect(h, c)), Restored(j, h);
    if c.SetSysctl? {
      forall k | k in h.sysctls ensures a.sysctls[k] == b.sysctls[k] {}
    }
    assert a.sysctls == b.sysctls;
    assert a.routes == b.routes;
  }

  lemma {:induction false} TraceKeepsGoal(j: Journal, h: HostState, trace: seq<Event>)
    requires Settles(j)
    requires forall i | 0 <= i < |trace| :: Planned(j, Replay(h, trace[..i]), trace[i].call)
    ensures var s := Replay(h, trace); Restored(j, s) == Restored(j, h) && s.sysctls.Keys == h.sysctls.Keys
  {
    hide Settles, Restored, Planned;
    if trace != [] {
      var n := |trace| - 1;
      forall i | 0 <= i < n ensures Planned(j, Replay(h, trace[..n][..i]), trace[..n][i].call) {
        assert trace[..n][..i] == trace[..i];
      }
      TraceKeepsGoal(j, h, trace[..n]);
      EffectKeepsGoal(j, Replay(h, trace[..n]), trace[n].call);
    }
  }

  /** No run, however it fails and wherever it is cut off, moves the place recovery will reach. */
  lemma AttemptKeepsGoal(j: Journal, role: string, instanceID: string, h: HostState, a: Attempt)
    requires Settles(j)
    ensures var s := AfterAttempt(j, role, instanceID, h, a);
            Restored(j, s) == Restored(j, h) && s.sysctls.Keys == h.sysctls.Keys
  {
    hide Settles, Restored, Planned;
    var trace := Recover(j, role, instanceID, h, a.oracle).trace;
    var cut := trace[..Min(a.cut, |trace|)];
    forall i | 0 <= i < |cut| ensures Planned(j, Replay(h, cut[..i]), cut[i].call) {
      assert cut[..i] == trace[..i];
      TracePlanned(j, role, instanceID, h, a.oracle, i);
    }
    TraceKeepsGoal(j, h, cut);
  }

  lemma {:induction false} AttemptsKeepGoal(
      j: Journal, role: string, instanceID: string, h: HostState, attempts: seq<Attempt>)
    requires Settles(j)
    ensures var s := AfterAttempts(j, role, instanceID, h, attempts);
            Restored(j, s) == Restored(j, h) && s.sysctls.Keys == h.sysctls.Keys
  {
    hide Settles, Restored, AfterAttempt;
    if attempts != [] {
      var n := |attempts| - 1;
      AttemptsKeepGoal(j, role, instanceID, h, attempts[..n]);
      AttemptKeepsGoal(j, role, instanceID, AfterAttempts(j, role, instanceID, h, attempts[..n]), attempts[n]);
    }
  }

  /** From any readable host, any number of failed or crashed recoveries, and then one that is left
    * alone, ends where one that is left alone would have ended at once. */
  ghost predicate Convergent(j: Journal, role: string, instanceID: string) {
    forall h: HostState, attempts: seq<Attempt> | Readable(j, h) ::
      Recover(j, role, instanceID, AfterAttempts(j, role, instanceID, h, attempts), []).host
      == Recover(j, role, instanceID, h, []).host
  }

  /** Recovery converges exactly for the journals whose records settle. */
  lemma ConvergesIff(j: Journal, role: string, instanceID: string)
    requires Accepted(j, role, instanceID)
    ensures Convergent(j, role, instanceID) <==> Settles(j)
  {
    hide Recover, AfterAttempts, Restored;
    if Settles(j) {
      forall h: HostState, attempts: seq<Attempt> | Readable(j, h)
        ensures Recover(j, role, instanceID, AfterAttempts(j, role, instanceID, h, attempts), []).host
             == Recover(j, role, instanceID, h, []).host
      {
        AttemptsKeepGoal(j, role, instanceID, h, attempts);
        UndisturbedRun(j, role, instanceID, AfterAttempts(j, role, instanceID, h, attempts));
        UndisturbedRun(j, role, instanceID, h);
      }
    } else {
      var r :| r in j.sysctls && Settle(j.sysctls, r.name, r.prior) != Settle(j.sysctls, r.name, r.installed);
      var i :| 0 <= i < |j.sysctls| && j.sysctls[i] == r;
      InterruptedAfterWrite(j, role, instanceID, i);
    }
  }

  // ---------------------------------------------------------------- which journals settle

  /** Distinct names are enough, which Validate does not ask for. */
  lemma DistinctNamesSettle(j: Journal)
    requires forall i, k | 0 <= i < k < |j.sysctls| :: j.sysctls[i].name != j.sysctls[k].name
    ensures Settles(j)
  {
    forall r | r in j.sysctls
      ensures Settle(j.sysctls, r.name, r.prior) == Settle(j.sysctls, r.name, r.installed)
    {
      var i :| 0 <= i < |j.sysctls| && j.sysctls[i] == r;
      assert j.sysctls[..|j.sysctls|] == j.sysctls;
      SettleOnce(j.sysctls, i, r.prior, |j.sysctls|);
      SettleOnce(j.sysctls, i, r.installed, |j.sysctls|);
    }
  }

  lemma {:induction false} SettleOnce(recs: seq<Sysctl>, i: nat, v: string, n: nat)
    requires i < |recs| && n <= |recs|
    requires forall i, k | 0 <= i < k < |recs| :: recs[i].name != recs[k].name
    ensures Settle(recs[..n], recs[i].name, v) == if i < n && v == recs[i].installed then recs[i].prior else v
  {
    if n > 0 {
      assert recs[..n][..n - 1] == recs[..n - 1];
      SettleOnce(recs, i, v, n - 1);
    }
  }

  /** A host on which every sysctl of the journal exists and one has the value the i-th record left. */
  ghost function HostWith(j: Journal, i: nat): HostState
    requires i < |j.sysctls|
  {
    HostState({}, {}, {},
              (map s | s in j.sysctls :: s.name := if s.name == j.sysctls[i].name then j.sysctls[i].installed else ""),
              None)
  }

  function Fails(n: nat): Oracle { seq(n, i => Err(false)) }

  /** While every call fails without effect, each step makes one call and changes nothing. */
  lemma {:induction false} FailingSteps(h: HostState, o: Oracle, steps: seq<Step>)
    requires |steps| <= |o| && forall i | 0 <= i < |steps| :: o[i] == Err(false)
    ensures var p := RunSteps(Start(h), o, steps); p.host == h && |p.trace| == |steps|
  {
    if steps != [] { FailingSteps(h, o, steps[..|steps| - 1]); }
  }

  /** One crash is enough to tell a journal apart that does not settle: the run dies right after
    * writing the i-th record's prior value. */
  lemma InterruptedAfterWrite(j: Journal, role: string, instanceID: string, i: nat)
    requires Accepted(j, role, instanceID) && i < |j.sysctls|
    requires var r := j.sysctls[i]; Settle(j.sysctls, r.name, r.prior) != Settle(j.sysctls, r.name, r.installed)
    ensures !Convergent(j, role, instanceID)
  {
    hide RunSteps, Settle, Recover;
    var h, r := HostWith(j, i), j.sysctls[i];
    var n := |j.routes| + |j.rules| + |ResolverSteps(j)| + i;
    var o := Fails(n) + [Ok, Ok];
    var a := Attempt(o, n + 2);
    assert r in j.sysctls && h.sysctls[r.name] == r.installed;
    CrashPoint(j, role, instanceID, h, i, o, n);
    var attempts := [a];
    assert attempts[..0] == [] && AfterAttempts(j, role, instanceID, h, attempts[..0]) == h;
    var s := AfterAttempts(j, role, instanceID, h, attempts);
    assert s == h.(sysctls := h.sysctls[r.name := r.prior]);
    UndisturbedRun(j, role, instanceID, h);
    UndisturbedRun(j, role, instanceID, s);
    assert Restored(j, s).sysctls[r.name] != Restored(j, h).sysctls[r.name];
  }

  lemma CrashPoint(j: Journal, role: string, instanceID: string, h: HostState, i: nat, o: Oracle, n: nat)
    requires Accepted(j, role, instanceID) && i < |j.sysctls|
    requires n == |j.routes| + |j.rules| + |ResolverSteps(j)| + i && o == Fails(n) + [Ok, Ok]
    requires var r := j.sysctls[i]; r.name in h.sysctls && h.sysctls[r.name] == r.installed && r.prior != r.installed
    ensures AfterAttempt(j, role, instanceID, h, Attempt(o, n + 2))
         == h.(sysctls := h.sysctls[j.sysctls[i].name := j.sysctls[i].prior])
  {
    hide RunSteps, Recover, RunStep, Phase1;
    var r, steps := j.sysctls[i], Phase1(j);
    var p, q := SysctlInRun(j, role, instanceID, h, o, i);
    FailingSteps(h, o, steps[..n]);
    StepReplay(h, p, o, OnSysctl(r));
    WriteStep(p, o, r);
    assert Recover(j, role, instanceID, h, o).trace[..n + 2] == q.trace;
  }

  /** Every run takes the step of the i-th sysctl: from progress p to progress q. */
  lemma SysctlInRun(j: Journal, role: string, instanceID: string, h: HostState, o: Oracle, i: nat)
      returns (p: Progress, q: Progress)
    requires Accepted(j, role, instanceID) && i < |j.sysctls|
    ensures |FixedSteps(j)| + i < |Phase1(j)|
    ensures |FixedSteps(j)| == |j.routes| + |j.rules| + |ResolverSteps(j)|
    ensures p == RunSteps(Start(h), o, Phase1(j)[..|FixedSteps(j)| + i]) && q == RunStep(p, o, OnSysctl(j.sysctls[i]))
    ensures p.trace < q.trace <= Recover(j, role, instanceID, h, o).trace
    ensures p.host == Replay(h, p.trace)
  {
    hide RunSteps, Recover, RunStep;
    var steps, n := Phase1(j), |FixedSteps(j)| + i;
    assert steps[n] == OnSysctl(j.sysctls[i]);
    p := RunSteps(Start(h), o, steps[..n]);
    q := RunStep(p, o, steps[n]);
    StepFacts(p, o, steps[n]);
    StepsReplay(h, Start(h), o, steps[..n]);
    StepsSplit(Start(h), o, steps, n);
    StepsFacts(q, o, steps[n + 1..]);
    var p1, p2 := Stretches(j, role, instanceID, h, o);
  }

  lemma WriteStep(p: Progress, o: Oracle, r: Sysctl)
    requires |o| == |p.trace| + 2 && o[|p.trace|] == o[|p.trace| + 1] == Ok
    requires r.name in p.host.sysctls && p.host.sysctls[r.name] == r.installed && r.prior != r.installed
    ensures var q := RunStep(p, o, OnSysctl(r));
            |q.trace| == |p.trace| + 2 && q.host == p.host.(sysctls := p.host.sysctls[r.name := r.prior])
  {}

  lemma StepsSplit(p: Progress, o: Oracle, steps: seq<Step>, n: nat)
    requires n < |steps|
    ensures RunSteps(p, o, steps) == RunSteps(RunStep(RunSteps(p, o, steps[..n]), o, steps[n]), o, steps[n + 1..])
  {
    hide RunSteps, RunStep;
    StepsConcat(p, o, steps[..n], [steps[n]]);
    OneStep(RunSteps(p, o, steps[..n]), o, steps[n]);
    StepsConcat(p, o, steps[..n] + [steps[n]], steps[n + 1..]);
    assert steps == steps[..n] + [steps[n]] + steps[n + 1..];
  }

  lemma OneStep(p: Progress, o: Oracle, step: Step)
    ensures RunSteps(p, o, [step]) == RunStep(p, o, step)
  {
    assert [step][..0] == [] && RunSteps(p, o, [step][..0]) == p;
  }

  // ---------------------------------------------------------------- only what is owned

  /** Whatever the history of failures and crashes, only what the journal names has changed. */
  ghost predicate OnlyOwned(j: Journal, h: HostState, s: HostState) {
    && s.routes <= h.routes && (forall r | r in h.routes && r !in s.routes :: r in j.routes || r.table in j.tables)
    && s.rules <= h.rules && (forall r | r in h.rules && r !in s.rules :: r in j.rules)
    && s.nftables <= h.nftables && (forall t | t in h.nftables && t !in s.nftables :: t in j.nftables)
    && s.sysctls.Keys == h.sysctls.Keys
    && (forall k | k in h.sysctls && s.sysctls[k] != h.sysctls[k] :: exists r <- j.sysctls :: r.name == k && r.prior == s.sysctls[k])
    && (s.resolver != h.resolver ==> j.resolver.Some? && s.resolver == j.resolver)
  }

  lemma EffectOwned(j: Journal, h: HostState, s: HostState, e: Event)
    requires OnlyOwned(j, h, s) && Planned(j, s, e.call)
    ensures OnlyOwned(j, h, After(s, e))
  {}

  lemma {:induction false} TraceOwned(j: Journal, h: HostState, s: HostState, trace: seq<Event>)
    requires OnlyOwned(j, h, s)
    requires forall i | 0 <= i < |trace| :: Planned(j, Replay(s, trace[..i]), trace[i].call)
    ensures OnlyOwned(j, h, Replay(s, trace))
  {
    hide OnlyOwned, Planned;
    if trace != [] {
      var n := |trace| - 1;
      forall i | 0 <= i < n ensures Planned(j, Replay(s, trace[..n][..i]), trace[..n][i].call) {
        assert trace[..n][..i] == trace[..i];
      }
      TraceOwned(j, h, s, trace[..n]);
      EffectOwned(j, h, Replay(s, trace[..n]), trace[n]);
    }
  }

  lemma {:induction false} OnlyOwnedChanges(
      j: Journal, role: string, instanceID: string, h: HostState, attempts: seq<Attempt>)
    ensures OnlyOwned(j, h, AfterAttempts(j, role, instanceID, h, attempts))
  {
    if attempts != [] {
      var n := |attempts| - 1;
      OnlyOwnedChanges(j, role, instanceID, h, attempts[..n]);
      var s := AfterAttempts(j, role, instanceID, h, attempts[..n]);
      var trace := Recover(j, role, instanceID, s, attempts[n].oracle).trace;
      var cut := trace[..Min(attempts[n].cut, |trace|)];
      forall i | 0 <= i < |cut| ensures Planned(j, Replay(s, cut[..i]), cut[i].call) {
        assert cut[..i] == trace[..i];
        TracePlanned(j, role, instanceID, s, attempts[n].oracle, i);
      }
      TraceOwned(j, h, s, cut);
    }
  }

  // ---------------------------------------------------------------- order inside phase 1

  function FixedSteps(j: Journal): seq<Step> { RouteSteps(j) + RuleSteps(j) + ResolverSteps(j) }

  lemma {:induction false} FixedCalls(p: Progress, o: Oracle, steps: seq<Step>)
    requires forall s <- steps :: !s.OnSysctl?
    ensures var q := RunSteps(p, o, steps);
            |q.trace| == |p.trace| + |steps| && p.trace <= q.trace
            && forall k | 0 <= k < |steps| :: q.trace[|p.trace| + k].call == FirstCall(steps[k])
  {
    hide RunStep;
    if steps != [] {
      var n := |steps| - 1;
      assert steps[n] in steps;
      FixedCalls(p, o, steps[..n]);
      var m := RunSteps(p, o, steps[..n]);
      OneCall(m, o, steps[n]);
      var q := RunSteps(p, o, steps);
      forall k | 0 <= k < |steps| ensures q.trace[|p.trace| + k].call == FirstCall(steps[k]) {
        if k < n { assert q.trace[|p.trace| + k] == m.trace[|p.trace| + k] && steps[..n][k] == steps[k]; }
      }
    }
  }

  lemma OneCall(p: Progress, o: Oracle, step: Step)
    requires !step.OnSysctl?
    ensures var q := RunStep(p, o, step);
            p.trace < q.trace && |q.trace| == |p.trace| + 1 && q.trace[|p.trace|].call == FirstCall(step)
  {}

  /** Failures do not stop phase 1, and routes and rules are deleted before the resolver is restored:
    * the k-th host call of a run is the one for the k-th route, rule or resolver record, whatever
    * the outcomes. */
  lemma RoutesGoBeforeResolver(j: Journal, role: string, instanceID: string, h: HostState, o: Oracle)
    requires Accepted(j, role, instanceID)
    ensures var trace := Recover(j, role, instanceID, h, o).trace;
            |trace| >= |FixedSteps(j)|
            && forall k | 0 <= k < |FixedSteps(j)| :: trace[k].call == FirstCall(FixedSteps(j)[k])
  {
    hide RunSteps, Recover;
    StepsConcat(Start(h), o, FixedSteps(j), SysctlSteps(j));
    FixedCalls(Start(h), o, FixedSteps(j));
    StepsFacts(RunSteps(Start(h), o, FixedSteps(j)), o, SysctlSteps(j));
    var p1, p2 := Stretches(j, role, instanceID, h, o);
  }

  /** The documented order: no route or rule is deleted before the resolver has been restored. */
  ghost predicate ResolverFirst(j: Journal, trace: seq<Event>) {
    j.resolver.Some? ==>
      forall k | 0 <= k < |trace| && (trace[k].call.DeleteRoute? || trace[k].call.DeleteRule?) ::
        exists i | 0 <= i < k :: trace[i] == Event(RestoreResolver(j.resolver.value), Ok)
  }

  /** A run keeps that order exactly when the journal gives it nothing to reorder. */
  lemma ResolverFirstIff(j: Journal, role: string, instanceID: string, h: HostState, o: Oracle)
    requires Accepted(j, role, instanceID)
    ensures ResolverFirst(j, Recover(j, role, instanceID, h, o).trace) <==>
              j.resolver.None? || (j.routes == [] && j.rules == [])
  {
    hide Recover;
    var trace := Recover(j, role, instanceID, h, o).trace;
    if j.routes == [] && j.rules == [] {
      forall k | 0 <= k < |trace| ensures !trace[k].call.DeleteRoute? && !trace[k].call.DeleteRule? {
        TracePlanned(j, role, instanceID, h, o, k);
      }
    } else {
      RoutesGoBeforeResolver(j, role, instanceID, h, o);
      assert FixedSteps(j)[0].OnRoute? || FixedSteps(j)[0].OnRule?;
      assert trace[0].call == FirstCall(FixedSteps(j)[0]);
    }
  }
}
