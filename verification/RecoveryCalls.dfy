/** Which recoveries are refused, which host calls the others make and in what order, whatever fails, and
  * what the error says. */
module RecoveryCalls {
  import opened Basics
  import opened Schema
  import opened RecoveryModel
  import opened RecoveryLaws
  import opened RecoveryConvergence

  // ---------------------------------------------------------------- refusals

  /** The caller names another role, or names an instance and it is another one. */
  predicate Elsewhere(j: Journal, role: string, instanceID: string) {
    j.role != role || (instanceID != "" && j.instanceID != instanceID)
  }

  /** Exactly the journals that are malformed are refused as such, and exactly the well-formed ones of
    * another role or instance as not the caller's; the host is not called. All others are acted on. */
  lemma RefusedIff(j: Journal, role: string, instanceID: string, h: HostState, o: Oracle)
    ensures var r := Recover(j, role, instanceID, h, o);
            && (forall v :: r.error == Some(Refused(v)) <==> Validate(j) == Some(v))
            && (Validate(j).Some? <==> !WellFormed(j))
            && (r.error == Some(NotOwner) <==> WellFormed(j) && Elsewhere(j, role, instanceID))
            && (!WellFormed(j) || Elsewhere(j, role, instanceID) ==>
                  r.trace == [] && r.host == h && r.report == NO_REPORT)
  {
    hide RunSteps;
    ValidateIff(j);
  }

  lemma Acted(j: Journal, role: string, instanceID: string)
    ensures Accepted(j, role, instanceID) <==> WellFormed(j) && !Elsewhere(j, role, instanceID)
  {
    ValidateIff(j);
  }

  // ---------------------------------------------------------------- all calls but the writes

  /** The calls of a trace, without the writes of sysctls. */
  function Plan(trace: seq<Event>): seq<Call> {
    if trace == [] then []
    else Plan(trace[..|trace| - 1]) + if trace[|trace| - 1].call.SetSysctl? then [] else [trace[|trace| - 1].call]
  }

  function RoutesRulesResolver(j: Journal): seq<Call> {
    seq(|j.routes|, i requires 0 <= i < |j.routes| => DeleteRoute(j.routes[i]))
    + seq(|j.rules|, i requires 0 <= i < |j.rules| => DeleteRule(j.rules[i]))
    + (if j.resolver.Some? then [RestoreResolver(j.resolver.value)] else [])
  }

  function Reads(j: Journal): seq<Call> {
    seq(|j.sysctls|, i requires 0 <= i < |j.sysctls| => GetSysctl(j.sysctls[i].name))
  }

  function Flushes(j: Journal): seq<Call> {
    seq(|j.tables|, i requires 0 <= i < |j.tables| => DeleteRouteTable(j.tables[i]))
  }

  function Removals(j: Journal): seq<Call> {
    seq(|j.nftables|, i requires 0 <= i < |j.nftables| => DeleteNFTable(j.nftables[i]))
  }

  function FirstCalls(steps: seq<Step>): seq<Call> { seq(|steps|, i requires 0 <= i < |steps| => FirstCall(steps[i])) }

  lemma PlanSnoc(trace: seq<Event>, e: Event)
    ensures Plan(trace + [e]) == Plan(trace) + if e.call.SetSysctl? then [] else [e.call]
  {
    assert (trace + [e])[..|trace|] == trace;
  }

  lemma StepPlan(p: Progress, o: Oracle, step: Step)
    ensures Plan(RunStep(p, o, step).trace) == Plan(p.trace) + [FirstCall(step)]
  {
    hide Plan, After;
    var g := Invoke(p, o, FirstCall(step));
    PlanSnoc(p.trace, g.trace[|p.trace|]);
    if step.OnSysctl? {
      var u := Invoke(g, o, SetSysctl(step.sysctl.name, step.sysctl.prior));
      PlanSnoc(g.trace, u.trace[|g.trace|]);
    }
  }

  lemma {:induction false} StepsPlan(p: Progress, o: Oracle, steps: seq<Step>)
    ensures Plan(RunSteps(p, o, steps).trace) == Plan(p.trace) + FirstCalls(steps)
  {
    hide RunStep;
    if steps != [] {
      var n := |steps| - 1;
      StepsPlan(p, o, steps[..n]);
      StepPlan(RunSteps(p, o, steps[..n]), o, steps[n]);
      assert FirstCalls(steps) == FirstCalls(steps[..n]) + [FirstCall(steps[n])];
    }
  }

  lemma PhaseCalls(j: Journal)
    ensures FirstCalls(Phase1(j)) == RoutesRulesResolver(j) + Reads(j)
    ensures FirstCalls(TableSteps(j)) == Flushes(j) && FirstCalls(NFTableSteps(j)) == Removals(j)
  {}

  /** Whatever fails, the calls of a run, apart from sysctl writes, are these in this order: every record
    * of a phase that is reached is acted on, and a later phase is reached exactly when none before it
    * failed. */
  lemma CallsInOrder(j: Journal, role: string, instanceID: string, h: HostState, o: Oracle)
    requires WellFormed(j) && !Elsewhere(j, role, instanceID)
    ensures var r := Recover(j, role, instanceID, h, o);
            Plan(r.trace) == RoutesRulesResolver(j) + Reads(j)
                             + (if r.error == Some(HaltedInPhase1) then [] else Flushes(j))
                             + (if r.error == Some(HaltedInPhase1) || r.error == Some(HaltedInTables) then []
                                else Removals(j))
  {
    hide RunSteps, Phase1, TableSteps, NFTableSteps, Plan, FirstCalls;
    Acted(j, role, instanceID);
    var p1 := RunSteps(Start(h), o, Phase1(j));
    var p2 := RunSteps(p1, o, TableSteps(j));
    PhaseCalls(j);
    StepsPlan(Start(h), o, Phase1(j));
    StepsPlan(p1, o, TableSteps(j));
    StepsPlan(p2, o, NFTableSteps(j));
    assert Plan([]) == [] by { NothingPlanned(); }
  }

  lemma NothingPlanned()
    ensures Plan([]) == []
  {}

  // ---------------------------------------------------------------- the writes

  /** How many sysctls have been read. */
  function ReadsSoFar(trace: seq<Event>): nat {
    if trace == [] then 0
    else ReadsSoFar(trace[..|trace| - 1]) + if trace[|trace| - 1].call.GetSysctl? then 1 else 0
  }

  lemma {:induction false} ReadsOfPlan(trace: seq<Event>)
    ensures ReadsSoFar(trace) == ReadsIn(Plan(trace))
  {
    if trace != [] {
      var n := |trace| - 1;
      ReadsOfPlan(trace[..n]);
      ReadsConcat(Plan(trace[..n]), if trace[n].call.SetSysctl? then [] else [trace[n].call]);
    }
  }

  function ReadsIn(calls: seq<Call>): nat {
    if calls == [] then 0 else ReadsIn(calls[..|calls| - 1]) + if calls[|calls| - 1].GetSysctl? then 1 else 0
  }

  lemma {:induction false} ReadsConcat(a: seq<Call>, b: seq<Call>)
    ensures ReadsIn(a + b) == ReadsIn(a) + ReadsIn(b)
  {
    if b == [] {
      assert a + b == a;
    } else {
      assert (a + b)[..|a + b| - 1] == a + b[..|b| - 1];
      ReadsConcat(a, b[..|b| - 1]);
    }
  }

  lemma {:induction false} ReadsAmong(steps: seq<Step>)
    ensures (forall s <- steps :: !s.OnSysctl?) ==> ReadsIn(FirstCalls(steps)) == 0
    ensures (forall s <- steps :: s.OnSysctl?) ==> ReadsIn(FirstCalls(steps)) == |steps|
  {
    if steps != [] {
      var n := |steps| - 1;
      ReadsAmong(steps[..n]);
      assert steps[n] in steps && forall s <- steps[..n] :: s in steps;
      assert FirstCalls(steps)[..n] == FirstCalls(steps[..n]);
    }
  }

  /** The position of the i-th read of a sysctl, and what recovery does there. */
  ghost predicate ReadAt(j: Journal, h: HostState, trace: seq<Event>, i: nat, k: nat)
    requires i < |j.sysctls|
  {
    && k < |trace| && ReadsSoFar(trace[..k]) == i && trace[k].call == GetSysctl(j.sysctls[i].name)
  }

  /** The call after the k-th writes the record's prior value. */
  predicate WritesNext(s: Sysctl, trace: seq<Event>, k: nat) {
    k + 1 < |trace| && trace[k + 1].call == SetSysctl(s.name, s.prior)
  }

  /** The k-th call succeeded, and the sysctl held the value that was installed, over another one. */
  ghost predicate FoundInstalled(s: Sysctl, h: HostState, trace: seq<Event>, k: nat)
    requires k < |trace|
  {
    var live := Replay(h, trace[..k]).sysctls;
    trace[k].outcome == Ok && s.name in live && live[s.name] == s.installed != s.prior
  }

  /** Whatever fails before or after: the i-th read is that of the i-th record, and its sysctl is written
    * next exactly when the read succeeded and found the value that was installed, over another one. */
  lemma WritesFollowReads(j: Journal, role: string, instanceID: string, h: HostState, o: Oracle, i: nat)
    requires WellFormed(j) && !Elsewhere(j, role, instanceID) && i < |j.sysctls|
    ensures var trace, s := Recover(j, role, instanceID, h, o).trace, j.sysctls[i];
            exists k: nat :: ReadAt(j, h, trace, i, k) && (WritesNext(s, trace, k) <==> FoundInstalled(s, h, trace, k))
  {
    hide RunSteps, RunStep, Recover, Replay, ReadsSoFar;
    Acted(j, role, instanceID);
    var trace, s := Recover(j, role, instanceID, h, o).trace, j.sysctls[i];
    var p, q := SysctlInRun(j, role, instanceID, h, o, i);
    var k := |p.trace|;
    assert trace[..k] == p.trace;
    ReadCount(j, h, o, i);
    SysctlStepWrites(p, o, s);
    if |q.trace| == k + 1 { NextIsNoWrite(j, role, instanceID, h, o, i); }
    assert trace[k] == q.trace[k];
    assert ReadAt(j, h, trace, i, k);
    assert WritesNext(s, trace, k) <==> |q.trace| == k + 2 by {
      if |q.trace| == k + 2 { assert trace[k + 1] == q.trace[k + 1]; }
    }
  }

  lemma ReadCount(j: Journal, h: HostState, o: Oracle, i: nat)
    requires i < |j.sysctls| && |FixedSteps(j)| + i <= |Phase1(j)|
    ensures ReadsSoFar(RunSteps(Start(h), o, Phase1(j)[..|FixedSteps(j)| + i]).trace) == i
  {
    hide RunSteps, Plan, ReadsIn, ReadsSoFar;
    var steps := Phase1(j)[..|FixedSteps(j)| + i];
    assert steps == FixedSteps(j) + SysctlSteps(j)[..i];
    ReadsOfPlan(RunSteps(Start(h), o, steps).trace);
    StepsPlan(Start(h), o, steps);
    NothingPlanned();
    assert FirstCalls(steps) == FirstCalls(FixedSteps(j)) + FirstCalls(SysctlSteps(j)[..i]);
    ReadsConcat(FirstCalls(FixedSteps(j)), FirstCalls(SysctlSteps(j)[..i]));
    ReadsAmong(FixedSteps(j));
    ReadsAmong(SysctlSteps(j)[..i]);
    assert [] + FirstCalls(steps) == FirstCalls(steps);
  }

  lemma SysctlStepWrites(p: Progress, o: Oracle, s: Sysctl)
    ensures var q, k := RunStep(p, o, OnSysctl(s)), |p.trace|;
            && p.trace < q.trace && |q.trace| in {k + 1, k + 2} && q.trace[k].call == GetSysctl(s.name)
            && (|q.trace| == k + 2 ==> q.trace[k + 1].call == SetSysctl(s.name, s.prior))
            && (|q.trace| == k + 2 <==>
                  && q.trace[k].outcome == Ok
                  && s.name in p.host.sysctls && p.host.sysctls[s.name] == s.installed != s.prior)
  {}

  /** The first call of whatever comes next is not a write. */
  lemma NextIsNoWrite(j: Journal, role: string, instanceID: string, h: HostState, o: Oracle, i: nat)
    requires Accepted(j, role, instanceID) && i < |j.sysctls| && |FixedSteps(j)| + i < |Phase1(j)|
    ensures var q := RunStep(RunSteps(Start(h), o, Phase1(j)[..|FixedSteps(j)| + i]), o, OnSysctl(j.sysctls[i]));
            var trace := Recover(j, role, instanceID, h, o).trace;
            |q.trace| < |trace| ==> !trace[|q.trace|].call.SetSysctl?
  {
    hide RunSteps, RunStep, Recover;
    var steps, n := Phase1(j), |FixedSteps(j)| + i;
    assert steps[n] == OnSysctl(j.sysctls[i]);
    var q := RunStep(RunSteps(Start(h), o, steps[..n]), o, steps[n]);
    StepsSplit(Start(h), o, steps, n);
    var p1, p2 := Stretches(j, role, instanceID, h, o);
    if n + 1 < |steps| { NextFirst(q, o, steps[n + 1..]); } else { assert steps[n + 1..] == []; NoneLeft(q, o); }
  }

  lemma NoneLeft(p: Progress, o: Oracle)
    ensures RunSteps(p, o, []) == p
  {}

  lemma NextFirst(q: Progress, o: Oracle, steps: seq<Step>)
    requires steps != []
    ensures var r := RunSteps(q, o, steps);
            q.trace <= r.trace && |q.trace| < |r.trace| && !r.trace[|q.trace|].call.SetSysctl?
  {
    hide RunSteps, RunStep;
    assert [steps[0]] + steps[1..] == steps;
    StepsConcat(q, o, [steps[0]], steps[1..]);
    OneStep(q, o, steps[0]);
    StepFacts(q, o, steps[0]);
    StepsFacts(RunStep(q, o, steps[0]), o, steps[1..]);
  }

  // ---------------------------------------------------------------- what the error says

  ghost predicate FailedIn(trace: seq<Event>, tables: bool, nftables: bool) {
    exists e <- trace :: e.outcome != Ok && e.call.DeleteRouteTable? == tables && e.call.DeleteNFTable? == nftables
  }

  /** The error tells in which phase a call failed. */
  lemma ErrorTellsPhase(j: Journal, role: string, instanceID: string, h: HostState, o: Oracle)
    requires WellFormed(j) && !Elsewhere(j, role, instanceID)
    ensures var r := Recover(j, role, instanceID, h, o);
            && (r.error == Some(HaltedInPhase1) <==> FailedIn(r.trace, false, false))
            && (r.error == Some(HaltedInTables) <==> FailedIn(r.trace, true, false))
            && (r.error == Some(HaltedInNFTables) <==> FailedIn(r.trace, false, true))
            && (r.error == None <==> AllOk(r.trace))
  {
    hide RunSteps, Phase1, FailedIn, AllOk;
    Acted(j, role, instanceID);
    var p1 := RunSteps(Start(h), o, Phase1(j));
    var p2 := RunSteps(p1, o, TableSteps(j));
    var p3 := RunSteps(p2, o, NFTableSteps(j));
    StepsFacts(Start(h), o, Phase1(j));
    StepsFacts(p1, o, TableSteps(j));
    StepsFacts(p2, o, NFTableSteps(j));
    assert p1.trace[0..] == p1.trace;
    var b, c := p2.trace[|p1.trace|..], p3.trace[|p2.trace|..];
    assert p2.trace == p1.trace + b && p3.trace == p2.trace + c;
    PhaseKinds(j, h, o);
    FailedInPhase(p1.trace, b, c);
    FailuresConcat(p1.trace, b);
    FailuresConcat(p2.trace, c);
    AllOkConcat(p1.trace, b);
    AllOkConcat(p2.trace, c);
  }

  lemma PhaseKinds(j: Journal, h: HostState, o: Oracle)
    ensures var p1 := RunSteps(Start(h), o, Phase1(j));
            var p2 := RunSteps(p1, o, TableSteps(j));
            var p3 := RunSteps(p2, o, NFTableSteps(j));
            && p1.trace <= p2.trace <= p3.trace
            && (forall e <- p1.trace :: !e.call.DeleteRouteTable? && !e.call.DeleteNFTable?)
            && (forall e <- p2.trace[|p1.trace|..] :: e.call.DeleteRouteTable?)
            && (forall e <- p3.trace[|p2.trace|..] :: e.call.DeleteNFTable?)
  {
    hide RunSteps, Phase1, AllOk;
    var p1 := RunSteps(Start(h), o, Phase1(j));
    var p2 := RunSteps(p1, o, TableSteps(j));
    StepsFacts(p1, o, TableSteps(j));
    StepsFacts(p2, o, NFTableSteps(j));
    Phase1Calls(j, h, o);
  }

  lemma FailuresConcat(a: seq<Event>, b: seq<Event>)
    ensures FailedIn(a + b, false, false) <==> FailedIn(a, false, false) || FailedIn(b, false, false)
    ensures FailedIn(a + b, true, false) <==> FailedIn(a, true, false) || FailedIn(b, true, false)
    ensures FailedIn(a + b, false, true) <==> FailedIn(a, false, true) || FailedIn(b, false, true)
  {
    assert forall e <- a :: e in a + b;
    assert forall e <- b :: e in a + b;
  }

  lemma FailedInPhase(a: seq<Event>, b: seq<Event>, c: seq<Event>)
    requires forall e <- a :: !e.call.DeleteRouteTable? && !e.call.DeleteNFTable?
    requires forall e <- b :: e.call.DeleteRouteTable?
    requires forall e <- c :: e.call.DeleteNFTable?
    ensures FailedIn(a, false, false) <==> !AllOk(a)
    ensures FailedIn(b, true, false) <==> !AllOk(b)
    ensures FailedIn(c, false, true) <==> !AllOk(c)
    ensures !FailedIn(a, true, false) && !FailedIn(a, false, true)
    ensures !FailedIn(b, false, false) && !FailedIn(b, false, true)
    ensures !FailedIn(c, false, false) && !FailedIn(c, true, false)
  {}
}
