/** What recovery promises under every pattern of failures and crashes. */
module RecoveryLaws {
  import opened Basics
  import opened Schema
  import opened RecoveryModel

  // ---------------------------------------------------------------- steps and traces

  /** The host calls that may be made on behalf of one step. */
  predicate CallOf(step: Step, c: Call) {
    match step
    case OnRoute(r) => c == DeleteRoute(r)
    case OnRule(r) => c == DeleteRule(r)
    case OnResolver(r) => c == RestoreResolver(r)
    case OnSysctl(s) => c == GetSysctl(s.name) || c == SetSysctl(s.name, s.prior)
    case OnTable(id) => c == DeleteRouteTable(id)
    case OnNFTable(t) => c == DeleteNFTable(t)
  }

  ghost predicate AllOk(trace: seq<Event>) { forall e <- trace :: e.outcome == Ok }

  /** One step extends the trace by its own calls, keeps a failure, and fails exactly when one of
    * those calls does. */
  lemma StepFacts(p: Progress, o: Oracle, step: Step)
    ensures var q := RunStep(p, o, step);
            && p.trace < q.trace
            && (forall i | |p.trace| <= i < |q.trace| :: CallOf(step, q.trace[i].call))
            && q.trace[|p.trace|].call == FirstCall(step)
            && (p.failed ==> q.failed)
            && (!p.failed ==> (q.failed <==> !AllOk(q.trace[|p.trace|..])))
  {
    if step.OnSysctl? { SysctlStepFacts(p, o, step.sysctl); }
    else {
      var q := RunStep(p, o, step);
      assert q.trace[|p.trace|..] == [q.trace[|p.trace|]];
    }
  }

  lemma SysctlStepFacts(p: Progress, o: Oracle, s: Sysctl)
    ensures var q := SysctlStep(p, o, s);
            && p.trace < q.trace
            && (forall i | |p.trace| <= i < |q.trace| :: CallOf(OnSysctl(s), q.trace[i].call))
            && q.trace[|p.trace|].call == GetSysctl(s.name)
            && (p.failed ==> q.failed)
            && (!p.failed ==> (q.failed <==> !AllOk(q.trace[|p.trace|..])))
  {
    var q := SysctlStep(p, o, s);
    var added := q.trace[|p.trace|..];
    if |q.trace| == |p.trace| + 1 {
      assert added == [q.trace[|p.trace|]];
    } else {
      assert added == [q.trace[|p.trace|], q.trace[|p.trace| + 1]];
      assert added[1] in added;
    }
  }

  lemma NoneFailed()
    ensures AllOk([])
  {}

  lemma AllOkConcat(a: seq<Event>, b: seq<Event>)
    ensures AllOk(a + b) <==> AllOk(a) && AllOk(b)
  {
    if AllOk(a + b) {
      assert forall e <- a :: e in a + b;
      assert forall e <- b :: e in a + b;
    }
  }

  lemma {:induction false} StepsFacts(p: Progress, o: Oracle, steps: seq<Step>)
    ensures var q := RunSteps(p, o, steps);
            && p.trace <= q.trace
            && (forall i | |p.trace| <= i < |q.trace| :: exists k | 0 <= k < |steps| :: CallOf(steps[k], q.trace[i].call))
            && (p.failed ==> q.failed)
            && (!p.failed ==> (q.failed <==> !AllOk(q.trace[|p.trace|..])))
  {
    hide RunStep, CallOf, AllOk;
    var q := RunSteps(p, o, steps);
    if steps == [] {
      assert AllOk([]) by { NoneFailed(); }
      assert q.trace[|p.trace|..] == [];
    } else {
      var n := |steps| - 1;
      var m := RunSteps(p, o, steps[..n]);
      StepsFacts(p, o, steps[..n]);
      StepFacts(m, o, steps[n]);
      assert q.trace[|p.trace|..] == m.trace[|p.trace|..] + q.trace[|m.trace|..];
      forall i | |p.trace| <= i < |q.trace| ensures exists k | 0 <= k < |steps| :: CallOf(steps[k], q.trace[i].call) {
        if i < |m.trace| {
          var k :| 0 <= k < n && CallOf(steps[..n][k], m.trace[i].call);
          assert CallOf(steps[k], q.trace[i].call);
        } else {
          assert CallOf(steps[n], q.trace[i].call);
        }
      }
      AllOkConcat(m.trace[|p.trace|..], q.trace[|m.trace|..]);
    }
  }

  /** Steps that all succeed have all made their calls. */
  lemma {:induction false} StepsCalled(p: Progress, o: Oracle, steps: seq<Step>, k: nat)
    requires k < |steps|
    ensures exists i | |p.trace| <= i < |RunSteps(p, o, steps).trace| ::
              RunSteps(p, o, steps).trace[i].call == FirstCall(steps[k])
  {
    hide RunStep, CallOf, AllOk;
    var n := |steps| - 1;
    var m := RunSteps(p, o, steps[..n]);
    var q := RunSteps(p, o, steps);
    StepsFacts(p, o, steps[..n]);
    StepFacts(m, o, steps[n]);
    if k < n {
      StepsCalled(p, o, steps[..n], k);
      var i :| |p.trace| <= i < |m.trace| && m.trace[i].call == FirstCall(steps[..n][k]);
      assert q.trace[i].call == FirstCall(steps[k]);
    } else {
      assert q.trace[|m.trace|].call == FirstCall(steps[k]);
    }
  }

  lemma {:induction false} StepsConcat(p: Progress, o: Oracle, a: seq<Step>, b: seq<Step>)
    ensures RunSteps(p, o, a + b) == RunSteps(RunSteps(p, o, a), o, b)
  {
    if b == [] {
      assert a + b == a;
    } else {
      assert (a + b)[..|a + b| - 1] == a + b[..|b| - 1];
      StepsConcat(p, o, a, b[..|b| - 1]);
    }
  }

  /** The host is always what replaying the trace makes of it. */
  lemma {:induction false} StepsReplay(h: HostState, p: Progress, o: Oracle, steps: seq<Step>)
    requires p.host == Replay(h, p.trace)
    ensures var q := RunSteps(p, o, steps); q.host == Replay(h, q.trace)
  {
    if steps != [] {
      var m := RunSteps(p, o, steps[..|steps| - 1]);
      StepsReplay(h, p, o, steps[..|steps| - 1]);
      StepReplay(h, m, o, steps[|steps| - 1]);
    }
  }

  lemma InvokeReplay(h: HostState, p: Progress, o: Oracle, c: Call)
    requires p.host == Replay(h, p.trace)
    ensures var q := Invoke(p, o, c); q.host == Replay(h, q.trace)
  {
    var q := Invoke(p, o, c);
    assert q.trace[..|q.trace| - 1] == p.trace;
  }

  lemma StepReplay(h: HostState, p: Progress, o: Oracle, step: Step)
    requires p.host == Replay(h, p.trace)
    ensures var q := RunStep(p, o, step); q.host == Replay(h, q.trace)
  {
    InvokeReplay(h, p, o, FirstCall(step));
    if step.OnSysctl? {
      InvokeReplay(h, Invoke(p, o, FirstCall(step)), o, SetSysctl(step.sysctl.name, step.sysctl.prior));
    }
  }

  /** All steps of an accepted journal in the order recovery takes them. */
  function AllSteps(j: Journal): seq<Step> { Phase1(j) + TableSteps(j) + NFTableSteps(j) }

  /** A run walks some prefix of all steps: the gates only ever cut it short. */
  lemma RunIsPrefix(j: Journal, role: string, instanceID: string, h: HostState, o: Oracle)
    requires Accepted(j, role, instanceID)
    ensures var r := Recover(j, role, instanceID, h, o);
            exists n | 0 <= n <= |AllSteps(j)| ::
              var q := RunSteps(Start(h), o, AllSteps(j)[..n]);
              r.host == q.host && r.trace == q.trace
  {
    hide RunSteps, Phase1, TableSteps, NFTableSteps;
    var a, b, c := Phase1(j), TableSteps(j), NFTableSteps(j);
    StepsConcat(Start(h), o, a, b);
    StepsConcat(Start(h), o, a + b, c);
    assert AllSteps(j)[..|a|] == a && AllSteps(j)[..|a| + |b|] == a + b && AllSteps(j)[..|a| + |b| + |c|] == AllSteps(j);
  }

  lemma RunReplays(j: Journal, role: string, instanceID: string, h: HostState, o: Oracle)
    ensures var r := Recover(j, role, instanceID, h, o); r.host == Replay(h, r.trace)
  {
    if Accepted(j, role, instanceID) {
      RunIsPrefix(j, role, instanceID, h, o);
      var r := Recover(j, role, instanceID, h, o);
      var n :| 0 <= n <= |AllSteps(j)| &&
               var q := RunSteps(Start(h), o, AllSteps(j)[..n]); r.host == q.host && r.trace == q.trace;
      StepsReplay(h, Start(h), o, AllSteps(j)[..n]);
    }
  }

  // ---------------------------------------------------------------- fail-closed

  /** A refused journal leads to no host call at all. */
  lemma RefusedTouchesNothing(j: Journal, role: string, instanceID: string, h: HostState, o: Oracle)
    ensures !Accepted(j, role, instanceID) ==>
              var r := Recover(j, role, instanceID, h, o); r.trace == [] && r.host == h && r.error.Some?
    ensures Accepted(j, role, instanceID) ==>
              var r := Recover(j, role, instanceID, h, o);
              r.error != Some(NotOwner) && !(r.error.Some? && r.error.value.Refused?)
  {}

  /** The run as three stretches of trace, each reached only when the stretch before it is clean. */
  lemma Stretches(j: Journal, role: string, instanceID: string, h: HostState, o: Oracle)
      returns (p1: Progress, p2: Progress)
    requires Accepted(j, role, instanceID)
    ensures p1 == RunSteps(Start(h), o, Phase1(j)) && p2 == RunSteps(p1, o, TableSteps(j))
    ensures p1.trace <= p2.trace
    ensures var r := Recover(j, role, instanceID, h, o);
            && p1.trace <= r.trace
            && (r.trace != p1.trace ==> AllOk(p1.trace) && p2.trace <= r.trace)
            && (r.trace != p1.trace && r.trace != p2.trace ==> AllOk(p2.trace))
            && (forall i | |p1.trace| <= i < |p2.trace| :: p2.trace[i].call.DeleteRouteTable?)
            && (forall i | |p2.trace| <= i < |r.trace| :: r.trace[i].call.DeleteNFTable?)
            && (forall e <- p1.trace :: !e.call.DeleteRouteTable? && !e.call.DeleteNFTable?)
  {
    hide RunSteps, Phase1, AllOk;
    p1 := RunSteps(Start(h), o, Phase1(j));
    p2 := RunSteps(p1, o, TableSteps(j));
    var p3 := RunSteps(p2, o, NFTableSteps(j));
    StepsFacts(Start(h), o, Phase1(j));
    StepsFacts(p1, o, TableSteps(j));
    StepsFacts(p2, o, NFTableSteps(j));
    assert p1.trace[0..] == p1.trace;
    assert p2.trace == p1.trace + p2.trace[|p1.trace|..];
    AllOkConcat(p1.trace, p2.trace[|p1.trace|..]);
    Phase1Calls(j, h, o);
  }

  lemma Phase1Calls(j: Journal, h: HostState, o: Oracle)
    ensures forall e <- RunSteps(Start(h), o, Phase1(j)).trace :: !e.call.DeleteRouteTable? && !e.call.DeleteNFTable?
  {
    hide RunSteps, Phase1;
    var trace := RunSteps(Start(h), o, Phase1(j)).trace;
    StepsFacts(Start(h), o, Phase1(j));
    forall e | e in trace ensures !e.call.DeleteRouteTable? && !e.call.DeleteNFTable? {
      var i :| 0 <= i < |trace| && trace[i] == e;
      var k :| 0 <= k < |Phase1(j)| && CallOf(Phase1(j)[k], trace[i].call);
      Phase1Kinds(j, k);
    }
  }

  lemma Phase1Kinds(j: Journal, k: nat)
    requires k < |Phase1(j)|
    ensures !Phase1(j)[k].OnTable? && !Phase1(j)[k].OnNFTable?
  {}

  /** Whatever fails, an nftables table is deleted only after every other step of the journal has
    * been taken and every host call made so far, other than such deletes, has succeeded. */
  lemma KillSwitchLast(j: Journal, role: string, instanceID: string, h: HostState, o: Oracle, i: nat)
    requires var r := Recover(j, role, instanceID, h, o); i < |r.trace| && r.trace[i].call.DeleteNFTable?
    ensures var r := Recover(j, role, instanceID, h, o);
            && (forall k | 0 <= k < i :: r.trace[k].call.DeleteNFTable? || r.trace[k].outcome == Ok)
            && forall s <- Phase1(j) + TableSteps(j) :: Event(FirstCall(s), Ok) in r.trace[..i]
  {
    var r := Recover(j, role, instanceID, h, o);
    var p1, p2 := Stretches(j, role, instanceID, h, o);
    var steps := Phase1(j) + TableSteps(j);
    StepsConcat(Start(h), o, Phase1(j), TableSteps(j));
    assert |p2.trace| <= i && AllOk(p2.trace);
    forall s | s in steps ensures Event(FirstCall(s), Ok) in r.trace[..i] {
      var k :| 0 <= k < |steps| && steps[k] == s;
      StepsCalled(Start(h), o, steps, k);
      var m :| 0 <= m < |p2.trace| && p2.trace[m].call == FirstCall(s);
      assert p2.trace[m] in p2.trace && r.trace[..i][m] == p2.trace[m];
    }
  }

  /** Likewise no route table is flushed before every phase 1 step has succeeded. */
  lemma TablesAfterPhase1(j: Journal, role: string, instanceID: string, h: HostState, o: Oracle, i: nat)
    requires var r := Recover(j, role, instanceID, h, o); i < |r.trace| && r.trace[i].call.DeleteRouteTable?
    ensures var r := Recover(j, role, instanceID, h, o);
            && (forall k | 0 <= k < i :: r.trace[k].call.DeleteRouteTable? || r.trace[k].outcome == Ok)
            && forall s <- Phase1(j) :: Event(FirstCall(s), Ok) in r.trace[..i]
  {
    var r := Recover(j, role, instanceID, h, o);
    var p1, p2 := Stretches(j, role, instanceID, h, o);
    assert forall k | 0 <= k < |p1.trace| :: p1.trace[k] in p1.trace && r.trace[k] == p1.trace[k];
    assert AllOk(p1.trace);
    forall k | 0 <= k < i ensures r.trace[k].call.DeleteRouteTable? || r.trace[k].outcome == Ok {
      if k < |p1.trace| { assert p1.trace[k] in p1.trace; }
    }
    forall s | s in Phase1(j) ensures Event(FirstCall(s), Ok) in r.trace[..i] {
      var k :| 0 <= k < |Phase1(j)| && Phase1(j)[k] == s;
      StepsCalled(Start(h), o, Phase1(j), k);
      var m :| 0 <= m < |p1.trace| && p1.trace[m].call == FirstCall(s);
      assert p1.trace[m] in p1.trace && r.trace[..i][m] == p1.trace[m];
    }
  }

  /** A sysctl is only ever written from Installed to Prior, right after reading Installed. */
  ghost predicate WriteJustified(j: Journal, h: HostState, trace: seq<Event>, i: nat)
    requires i < |trace|
  {
    trace[i].call.SetSysctl? ==>
      var name, value := trace[i].call.name, trace[i].call.value;
      && i > 0 && trace[i - 1] == Event(GetSysctl(name), Ok)
      && var before := Replay(h, trace[..i]).sysctls;
      && name in before
      && exists s <- j.sysctls :: s.name == name && s.prior == value && s.installed == before[name] && value != before[name]
  }

  ghost predicate OwnStep(j: Journal, step: Step) { step.OnSysctl? ==> step.sysctl in j.sysctls }

  lemma {:induction false} StepsJustified(j: Journal, h: HostState, p: Progress, o: Oracle, steps: seq<Step>)
    requires p.host == Replay(h, p.trace) && forall s <- steps :: OwnStep(j, s)
    requires forall i | 0 <= i < |p.trace| :: WriteJustified(j, h, p.trace, i)
    ensures var q := RunSteps(p, o, steps);
            forall i | 0 <= i < |q.trace| :: WriteJustified(j, h, q.trace, i)
  {
    if steps != [] {
      var n := |steps| - 1;
      assert steps[n] in steps;
      StepsJustified(j, h, p, o, steps[..n]);
      StepsReplay(h, p, o, steps[..n]);
      StepJustified(j, h, RunSteps(p, o, steps[..n]), o, steps[n]);
    }
  }

  lemma StepJustified(j: Journal, h: HostState, p: Progress, o: Oracle, step: Step)
    requires p.host == Replay(h, p.trace) && OwnStep(j, step)
    requires forall i | 0 <= i < |p.trace| :: WriteJustified(j, h, p.trace, i)
    ensures var q := RunStep(p, o, step);
            forall i | 0 <= i < |q.trace| :: WriteJustified(j, h, q.trace, i)
  {
    hide RunStep, WriteJustified;
    var q := RunStep(p, o, step);
    StepFacts(p, o, step);
    forall i | 0 <= i < |q.trace| ensures WriteJustified(j, h, q.trace, i) {
      if i < |p.trace| {
        SameBefore(j, h, p.trace, q.trace, i);
      } else {
        FreshJustified(j, h, p, o, step, i);
      }
    }
  }

  lemma SameBefore(j: Journal, h: HostState, a: seq<Event>, b: seq<Event>, i: nat)
    requires a <= b && i < |a| && WriteJustified(j, h, a, i)
    ensures WriteJustified(j, h, b, i)
  {
    assert a[..i] == b[..i];
  }

  lemma FreshJustified(j: Journal, h: HostState, p: Progress, o: Oracle, step: Step, i: nat)
    requires p.host == Replay(h, p.trace) && OwnStep(j, step)
    requires |p.trace| <= i < |RunStep(p, o, step).trace|
    ensures WriteJustified(j, h, RunStep(p, o, step).trace, i)
  {
    hide Replay;
    var q := RunStep(p, o, step);
    if q.trace[i].call.SetSysctl? {
      var get := GetSysctl(step.sysctl.name);
      var g := Invoke(p, o, get);
      InvokeReplay(h, p, o, get);
      assert i == |p.trace| + 1 && q.trace[..i] == g.trace;
      assert step.sysctl in j.sysctls;
    }
  }

  lemma SysctlWrites(j: Journal, role: string, instanceID: string, h: HostState, o: Oracle, i: nat)
    requires i < |Recover(j, role, instanceID, h, o).trace|
    ensures WriteJustified(j, h, Recover(j, role, instanceID, h, o).trace, i)
  {
    hide RunSteps, Recover, AllSteps;
    RefusedTouchesNothing(j, role, instanceID, h, o);
    RunIsPrefix(j, role, instanceID, h, o);
    var r := Recover(j, role, instanceID, h, o);
    var n :| 0 <= n <= |AllSteps(j)| &&
             var q := RunSteps(Start(h), o, AllSteps(j)[..n]); r.host == q.host && r.trace == q.trace;
    OwnSteps(j);
    StepsJustified(j, h, Start(h), o, AllSteps(j)[..n]);
    assert WriteJustified(j, h, RunSteps(Start(h), o, AllSteps(j)[..n]).trace, i);
  }

  lemma OwnSteps(j: Journal)
    ensures forall s <- AllSteps(j) :: OwnStep(j, s)
  {}

  /** How many nftables deletes succeeded, as counted by the report. */
  lemma {:induction false} CountNFTables(p: Progress, o: Oracle, j: Journal, n: nat)
    requires n <= |j.nftables|
    ensures var q := RunSteps(p, o, NFTableSteps(j)[..n]);
            && q.report.nftablesRemoved <= p.report.nftablesRemoved + n
            && (!p.failed ==> (q.failed <==> q.report.nftablesRemoved < p.report.nftablesRemoved + n))
  {
    if n > 0 {
      assert NFTableSteps(j)[..n][..n - 1] == NFTableSteps(j)[..n - 1];
      CountNFTables(p, o, j, n - 1);
    }
  }

  lemma {:induction false} NoNFTablesCounted(p: Progress, o: Oracle, steps: seq<Step>)
    requires forall s <- steps :: !s.OnNFTable?
    ensures RunSteps(p, o, steps).report.nftablesRemoved == p.report.nftablesRemoved
  {
    if steps != [] {
      assert steps[|steps| - 1] in steps;
      NoNFTablesCounted(p, o, steps[..|steps| - 1]);
    }
  }

  /** The report claims the kill switch is still there exactly when a table of it is not known to
    * be gone, and recovery reports success exactly when no host call failed. */
  lemma RetainedIff(j: Journal, role: string, instanceID: string, h: HostState, o: Oracle)
    requires Accepted(j, role, instanceID)
    ensures var r := Recover(j, role, instanceID, h, o);
            && (r.report.killSwitchRetained <==> r.report.nftablesRemoved < |j.nftables|)
            && (r.error == None <==> AllOk(r.trace))
            && (r.error == None ==> r.report.nftablesRemoved == |j.nftables|)
  {
    hide RunSteps, AllOk;
    var p1 := RunSteps(Start(h), o, Phase1(j));
    var p2 := RunSteps(p1, o, TableSteps(j));
    var p3 := RunSteps(p2, o, NFTableSteps(j));
    NoKillSwitchSteps(j);
    NoNFTablesCounted(Start(h), o, Phase1(j));
    NoNFTablesCounted(p1, o, TableSteps(j));
    CountNFTables(p2, o, j, |j.nftables|);
    assert NFTableSteps(j)[..|j.nftables|] == NFTableSteps(j);
    StepsFacts(Start(h), o, Phase1(j));
    StepsFacts(p1, o, TableSteps(j));
    StepsFacts(p2, o, NFTableSteps(j));
    AllOkConcat(p1.trace, p2.trace[|p1.trace|..]);
    AllOkConcat(p2.trace, p3.trace[|p2.trace|..]);
    assert p1.trace == p1.trace[0..];
    assert p2.trace == p1.trace + p2.trace[|p1.trace|..];
    assert p3.trace == p2.trace + p3.trace[|p2.trace|..];
  }

  lemma NoKillSwitchSteps(j: Journal)
    ensures forall s <- Phase1(j) :: !s.OnNFTable?
    ensures forall s <- TableSteps(j) :: !s.OnNFTable?
  {}

  // ---------------------------------------------------------------- the report

  /** What one event says about a run, apart from conflicts. */
  function TallyEvent(rep: Report, e: Event): Report {
    if e.outcome != Ok then rep
    else match e.call
      case GetSysctl(_) => rep
      case SetSysctl(name, _) => rep.(sysctlsRestored := rep.sysctlsRestored + [name])
      case DeleteRoute(_) => rep.(routesRemoved := rep.routesRemoved + 1)
      case DeleteRule(_) => rep.(rulesRemoved := rep.rulesRemoved + 1)
      case DeleteRouteTable(_) => rep.(tablesRemoved := rep.tablesRemoved + 1)
      case DeleteNFTable(_) => rep.(nftablesRemoved := rep.nftablesRemoved + 1)
      case RestoreResolver(_) => rep.(resolverRestored := true)
  }

  function Tally(trace: seq<Event>): Report {
    if trace == [] then NO_REPORT else TallyEvent(Tally(trace[..|trace| - 1]), trace[|trace| - 1])
  }

  ghost predicate Tallied(rep: Report, trace: seq<Event>) { rep.(sysctlConflicts := []) == Tally(trace) }

  lemma TallySnoc(trace: seq<Event>, e: Event)
    ensures Tally(trace + [e]) == TallyEvent(Tally(trace), e)
  {
    assert (trace + [e])[..|trace|] == trace;
  }

  lemma StepTallied(p: Progress, o: Oracle, step: Step)
    requires Tallied(p.report, p.trace)
    ensures var q := RunStep(p, o, step); Tallied(q.report, q.trace)
  {
    hide Tally;
    var g := Invoke(p, o, FirstCall(step));
    TallySnoc(p.trace, g.trace[|p.trace|]);
    if step.OnSysctl? {
      var u := Invoke(g, o, SetSysctl(step.sysctl.name, step.sysctl.prior));
      TallySnoc(g.trace, u.trace[|g.trace|]);
    }
  }

  lemma {:induction false} StepsTallied(p: Progress, o: Oracle, steps: seq<Step>)
    requires Tallied(p.report, p.trace)
    ensures var q := RunSteps(p, o, steps); Tallied(q.report, q.trace)
  {
    hide RunStep, Tallied;
    if steps != [] {
      StepsTallied(p, o, steps[..|steps| - 1]);
      StepTallied(RunSteps(p, o, steps[..|steps| - 1]), o, steps[|steps| - 1]);
    }
  }

  /** Every count and list of the report is that of the calls that succeeded, in order. */
  lemma ReportIsTrue(j: Journal, role: string, instanceID: string, h: HostState, o: Oracle)
    ensures var r := Recover(j, role, instanceID, h, o);
            r.report.(sysctlConflicts := [], killSwitchRetained := false) == Tally(r.trace)
  {
    hide RunSteps;
    var p1 := RunSteps(Start(h), o, Phase1(j));
    var p2 := RunSteps(p1, o, TableSteps(j));
    var p3 := RunSteps(p2, o, NFTableSteps(j));
    StepsTallied(Start(h), o, Phase1(j));
    StepsTallied(p1, o, TableSteps(j));
    StepsTallied(p2, o, NFTableSteps(j));
    NeverRetained(p1.trace);
    NeverRetained(p2.trace);
    NeverRetained(p3.trace);
  }

  lemma {:induction false} NeverRetained(trace: seq<Event>)
    ensures !Tally(trace).killSwitchRetained
  {
    if trace != [] { NeverRetained(trace[..|trace| - 1]); }
  }
}
