/** Recovery as it runs: four loops over the journal's records in phase 1, the gate, and two more
  * loops behind it, against a host that changes with every call. */
module Recovery {
  import opened Basics
  import opened Schema
  import opened RecoveryModel
  import opened RecoveryLaws

  /** A host whose i-th call goes as `oracle` says. */
  class Host {
    var state: HostState
    var trace: seq<Event>
    const oracle: Oracle

    constructor (state: HostState, oracle: Oracle)
      ensures this.state == state && this.oracle == oracle && trace == []
    {
      this.state, this.oracle, this.trace := state, oracle, [];
    }

    method Call(c: Call) returns (ok: bool)
      modifies this
      ensures var e := Event(c, OutcomeOf(old(state), oracle, |old(trace)|, c));
              state == After(old(state), e) && trace == old(trace) + [e] && ok == (e.outcome == Ok)
    {
      var e := Event(c, OutcomeOf(state, oracle, |trace|, c));
      state := After(state, e);
      trace := trace + [e];
      ok := e.outcome == Ok;
    }

    method ReadSysctl(name: string) returns (value: string, ok: bool)
      modifies this
      ensures var e := Event(GetSysctl(name), OutcomeOf(old(state), oracle, |old(trace)|, GetSysctl(name)));
              state == After(old(state), e) && trace == old(trace) + [e] && ok == (e.outcome == Ok)
      ensures ok ==> name in state.sysctls && value == state.sysctls[name]
    {
      ok := Call(GetSysctl(name));
      value := if ok then state.sysctls[name] else "";
    }
  }

  /** The run so far, as the model sees it. */
  ghost predicate At(h: Host, rep: Report, failed: bool, p: Progress)
    reads h
  {
    p == Progress(h.state, h.trace, rep, failed)
  }

  method RestoreSysctl(s: Sysctl, h: Host, rep: Report, failed: bool, ghost p: Progress)
      returns (rep': Report, failed': bool)
    requires At(h, rep, failed, p)
    modifies h
    ensures At(h, rep', failed', SysctlStep(p, h.oracle, s))
  {
    rep', failed' := rep, failed;
    var cur, ok := h.ReadSysctl(s.name);
    if !ok { return rep, true; }
    if cur == s.prior { return; }
    if cur != s.installed {
      rep' := rep.(sysctlConflicts := rep.sysctlConflicts + [s.name]);
      return;
    }
    var written := h.Call(SetSysctl(s.name, s.prior));
    if !written { return rep, true; }
    rep' := rep.(sysctlsRestored := rep.sysctlsRestored + [s.name]);
  }

  lemma Snoc(p: Progress, o: Oracle, steps: seq<Step>, i: nat)
    requires i < |steps|
    ensures RunSteps(p, o, steps[..i + 1]) == RunStep(RunSteps(p, o, steps[..i]), o, steps[i])
  {
    assert steps[..i + 1][..i] == steps[..i];
  }

  method DeleteRoutes(j: Journal, h: Host, rep0: Report, failed0: bool, ghost p0: Progress)
      returns (rep: Report, failed: bool)
    requires At(h, rep0, failed0, p0)
    modifies h
    ensures At(h, rep, failed, RunSteps(p0, h.oracle, RouteSteps(j)))
  {
    rep, failed := rep0, failed0;
    ghost var o, steps, p := h.oracle, RouteSteps(j), p0;
    for i := 0 to |j.routes|
      invariant At(h, rep, failed, p) && p == RunSteps(p0, o, steps[..i])
    {
      Snoc(p0, o, steps, i);
      var ok := h.Call(DeleteRoute(j.routes[i]));
      if ok { rep := rep.(routesRemoved := rep.routesRemoved + 1); } else { failed := true; }
      p := RunStep(p, o, OnRoute(j.routes[i]));
    }
    assert steps[..|steps|] == steps;
  }

  method DeleteRules(j: Journal, h: Host, rep0: Report, failed0: bool, ghost p0: Progress)
      returns (rep: Report, failed: bool)
    requires At(h, rep0, failed0, p0)
    modifies h
    ensures At(h, rep, failed, RunSteps(p0, h.oracle, RuleSteps(j)))
  {
    rep, failed := rep0, failed0;
    ghost var o, steps, p := h.oracle, RuleSteps(j), p0;
    for i := 0 to |j.rules|
      invariant At(h, rep, failed, p) && p == RunSteps(p0, o, steps[..i])
    {
      Snoc(p0, o, steps, i);
      var ok := h.Call(DeleteRule(j.rules[i]));
      if ok { rep := rep.(rulesRemoved := rep.rulesRemoved + 1); } else { failed := true; }
      p := RunStep(p, o, OnRule(j.rules[i]));
    }
    assert steps[..|steps|] == steps;
  }

  method RestoreResolverState(j: Journal, h: Host, rep0: Report, failed0: bool, ghost p0: Progress)
      returns (rep: Report, failed: bool)
    requires At(h, rep0, failed0, p0)
    modifies h
    ensures At(h, rep, failed, RunSteps(p0, h.oracle, ResolverSteps(j)))
  {
    rep, failed := rep0, failed0;
    if j.resolver.Some? {
      ghost var steps := ResolverSteps(j);
      Snoc(p0, h.oracle, steps, 0);
      assert steps[..0] == [] && steps[..1] == steps;
      var ok := h.Call(RestoreResolver(j.resolver.value));
      if ok { rep := rep.(resolverRestored := true); } else { failed := true; }
    }
  }

  method RestoreSysctls(j: Journal, h: Host, rep0: Report, failed0: bool, ghost p0: Progress)
      returns (rep: Report, failed: bool)
    requires At(h, rep0, failed0, p0)
    modifies h
    ensures At(h, rep, failed, RunSteps(p0, h.oracle, SysctlSteps(j)))
  {
    rep, failed := rep0, failed0;
    ghost var o, steps, p := h.oracle, SysctlSteps(j), p0;
    for i := 0 to |j.sysctls|
      invariant At(h, rep, failed, p) && p == RunSteps(p0, o, steps[..i])
    {
      Snoc(p0, o, steps, i);
      rep, failed := RestoreSysctl(j.sysctls[i], h, rep, failed, p);
      p := RunStep(p, o, OnSysctl(j.sysctls[i]));
    }
    assert steps[..|steps|] == steps;
  }

  /** Phase 1: failures are collected, not acted on. */
  method RunPhase1(j: Journal, h: Host) returns (rep: Report, failed: bool)
    requires h.trace == []
    modifies h
    ensures At(h, rep, failed, RunSteps(Start(old(h.state)), h.oracle, Phase1(j)))
  {
    hide RunSteps;
    ghost var o, start := h.oracle, Start(h.state);
    ghost var a, b, c, d := RouteSteps(j), RuleSteps(j), ResolverSteps(j), SysctlSteps(j);
    StepsConcat(start, o, a, b);
    StepsConcat(start, o, a + b, c);
    StepsConcat(start, o, a + b + c, d);
    rep, failed := DeleteRoutes(j, h, NO_REPORT, false, start);
    rep, failed := DeleteRules(j, h, rep, failed, RunSteps(start, o, a));
    rep, failed := RestoreResolverState(j, h, rep, failed, RunSteps(start, o, a + b));
    rep, failed := RestoreSysctls(j, h, rep, failed, RunSteps(start, o, a + b + c));
  }

  method FlushTables(j: Journal, h: Host, rep0: Report, failed0: bool, ghost p0: Progress)
      returns (rep: Report, failed: bool)
    requires At(h, rep0, failed0, p0)
    modifies h
    ensures At(h, rep, failed, RunSteps(p0, h.oracle, TableSteps(j)))
  {
    rep, failed := rep0, failed0;
    ghost var o, steps, p := h.oracle, TableSteps(j), p0;
    for i := 0 to |j.tables|
      invariant At(h, rep, failed, p) && p == RunSteps(p0, o, steps[..i])
    {
      Snoc(p0, o, steps, i);
      var ok := h.Call(DeleteRouteTable(j.tables[i]));
      if ok { rep := rep.(tablesRemoved := rep.tablesRemoved + 1); } else { failed := true; }
      p := RunStep(p, o, OnTable(j.tables[i]));
    }
    assert steps[..|steps|] == steps;
  }

  method RemoveKillSwitch(j: Journal, h: Host, rep0: Report, failed0: bool, ghost p0: Progress)
      returns (rep: Report, failed: bool)
    requires At(h, rep0, failed0, p0)
    modifies h
    ensures At(h, rep, failed, RunSteps(p0, h.oracle, NFTableSteps(j)))
  {
    rep, failed := rep0, failed0;
    ghost var o, steps, p := h.oracle, NFTableSteps(j), p0;
    for i := 0 to |j.nftables|
      invariant At(h, rep, failed, p) && p == RunSteps(p0, o, steps[..i])
    {
      Snoc(p0, o, steps, i);
      var ok := h.Call(DeleteNFTable(j.nftables[i]));
      if ok { rep := rep.(nftablesRemoved := rep.nftablesRemoved + 1); } else { failed := true; }
      p := RunStep(p, o, OnNFTable(j.nftables[i]));
    }
    assert steps[..|steps|] == steps;
  }

  method Recover(j: Journal, role: string, instanceID: string, h: Host) returns (rep: Report, err: Option<Error>)
    requires h.trace == []
    modifies h
    ensures RecoveryModel.Recover(j, role, instanceID, old(h.state), h.oracle) == Result(h.state, h.trace, rep, err)
  {
    hide RunSteps;
    var v := Validate(j);
    if v.Some? { return NO_REPORT, Some(Refused(v.value)); }
    if !OwnedBy(j, role, instanceID) { return NO_REPORT, Some(NotOwner); }

    ghost var o := h.oracle;
    ghost var p1 := RunSteps(Start(h.state), o, Phase1(j));
    var failed;
    rep, failed := RunPhase1(j, h);
    if failed {
      return rep.(killSwitchRetained := |j.nftables| > 0), Some(HaltedInPhase1);
    }

    ghost var p2 := RunSteps(p1, o, TableSteps(j));
    rep, failed := FlushTables(j, h, rep, failed, p1);
    if failed {
      return rep.(killSwitchRetained := |j.nftables| > 0), Some(HaltedInTables);
    }

    ghost var p3 := RunSteps(p2, o, NFTableSteps(j));
    rep, failed := RemoveKillSwitch(j, h, rep, failed, p2);
    if failed {
      return rep.(killSwitchRetained := rep.nftablesRemoved < |j.nftables|), Some(HaltedInNFTables);
    }
    NotRetained(Start(old(h.state)), o, Phase1(j));
    NotRetained(p1, o, TableSteps(j));
    NotRetained(p2, o, NFTableSteps(j));
    err := None;
  }

  lemma {:induction false} NotRetained(p: Progress, o: Oracle, steps: seq<Step>)
    ensures RunSteps(p, o, steps).report.killSwitchRetained == p.report.killSwitchRetained
  {
    hide Invoke;
    if steps != [] {
      NotRetained(p, o, steps[..|steps| - 1]);
      StepNotRetained(RunSteps(p, o, steps[..|steps| - 1]), o, steps[|steps| - 1]);
    }
  }

  lemma StepNotRetained(p: Progress, o: Oracle, step: Step)
    ensures RunStep(p, o, step).report.killSwitchRetained == p.report.killSwitchRetained
  {}
}
