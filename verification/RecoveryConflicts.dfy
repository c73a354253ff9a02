/** Values an operator has changed survive recovery and are reported, whatever fails. */
module RecoveryConflicts {
  import opened Basics
  import opened Schema
  import opened RecoveryModel
  import opened RecoveryLaws
  import opened RecoveryConvergence
  import opened RecoveryIdempotence

  /** Someone else has changed the value since it was installed. */
  predicate Foreign(s: Sysctl, live: string) { live != s.prior && live != s.installed }

  /** The run has read the record's sysctl, and it held a foreign value before the run. */
  predicate FoundForeign(h: HostState, trace: seq<Event>, s: Sysctl) {
    && Event(GetSysctl(s.name), Ok) in trace
    && s.name in h.sysctls && Foreign(s, h.sysctls[s.name])
  }

  ghost predicate Named(j: Journal, n: nat, name: string)
    requires n <= |j.sysctls|
  {
    exists i | 0 <= i < n :: j.sysctls[i].name == name
  }

  /** The names of the first n records, in order, that were found foreign. */
  function ForeignNames(j: Journal, h: HostState, trace: seq<Event>, n: nat): seq<string>
    requires n <= |j.sysctls|
  {
    if n == 0 then []
    else
      ForeignNames(j, h, trace, n - 1)
      + if FoundForeign(h, trace, j.sysctls[n - 1]) then [j.sysctls[n - 1].name] else []
  }

  lemma {:induction false} SameForeignNames(j: Journal, h: HostState, a: seq<Event>, b: seq<Event>, n: nat)
    requires n <= |j.sysctls|
    requires forall i | 0 <= i < n :: FoundForeign(h, a, j.sysctls[i]) <==> FoundForeign(h, b, j.sysctls[i])
    ensures ForeignNames(j, h, a, n) == ForeignNames(j, h, b, n)
  {
    if n > 0 { SameForeignNames(j, h, a, b, n - 1); }
  }

  /** The first n records, and nothing else, have been read, reported and perhaps written. */
  ghost predicate ReportedUpTo(j: Journal, h: HostState, n: nat, q: Progress)
    requires n <= |j.sysctls|
  {
    && (forall i | 0 <= i < n ::
          j.sysctls[i].name in q.report.sysctlConflicts <==> FoundForeign(h, q.trace, j.sysctls[i]))
    && q.report.sysctlConflicts == ForeignNames(j, h, q.trace, n)
    && (forall name <- q.report.sysctlConflicts :: Named(j, n, name))
    && (forall e <- q.trace :: e.call.GetSysctl? ==> Named(j, n, e.call.name))
    && OnlyInstalledChange(j, h, n, q.host)
  }

  ghost predicate OnlyInstalledChange(j: Journal, h: HostState, n: nat, s: HostState)
    requires n <= |j.sysctls|
  {
    && s.sysctls.Keys == h.sysctls.Keys
    && forall k <- h.sysctls :: s.sysctls[k] != h.sysctls[k] ==>
         exists i | 0 <= i < n ::
           j.sysctls[i].name == k && h.sysctls[k] == j.sysctls[i].installed && s.sysctls[k] == j.sysctls[i].prior
  }

  // ---------------------------------------------------------------- one record

  /** What one sysctl step adds to a run. */
  lemma OneRecord(q: Progress, o: Oracle, s: Sysctl)
    ensures var r := RunStep(q, o, OnSysctl(s));
            && q.trace < r.trace
            && r.trace[|q.trace|].call == GetSysctl(s.name)
            && (forall i | |q.trace| < i < |r.trace| :: !r.trace[i].call.GetSysctl?)
            && (r.trace[|q.trace|].outcome == Ok ==> s.name in q.host.sysctls)
            && r.report.sysctlConflicts == q.report.sysctlConflicts +
                 (if r.trace[|q.trace|].outcome == Ok && Foreign(s, q.host.sysctls[s.name]) then [s.name] else [])
            && (r.host.sysctls == q.host.sysctls ||
                (s.name in q.host.sysctls && q.host.sysctls[s.name] == s.installed
                 && r.host.sysctls == q.host.sysctls[s.name := s.prior]))
  {}

  lemma NamedGrows(j: Journal, n: nat, name: string)
    requires n < |j.sysctls|
    ensures Named(j, n + 1, name) <==> Named(j, n, name) || j.sysctls[n].name == name
  {
    if Named(j, n, name) {
      var i :| 0 <= i < n && j.sysctls[i].name == name;
      assert j.sysctls[i].name == name;
    }
  }

  /** In the trace of a step that reads `name`, that read is the only one. */
  lemma ReadsOnce(a: seq<Event>, b: seq<Event>, name: string, e: Event)
    requires a < b && b[|a|].call == GetSysctl(name) && e.call.GetSysctl?
    requires forall i | |a| < i < |b| :: !b[i].call.GetSysctl?
    ensures e in b <==> e in a || e == b[|a|]
  {
    if e in b {
      var i :| 0 <= i < |b| && b[i] == e;
      assert i < |a| ==> a[i] == e;
    }
    if e in a {
      InPrefix(a, b, e);
    }
  }

  lemma RecordReported(j: Journal, h: HostState, n: nat, q: Progress, o: Oracle)
    requires DistinctNames(j) && n < |j.sysctls| && ReportedUpTo(j, h, n, q)
    ensures ReportedUpTo(j, h, n + 1, RunStep(q, o, OnSysctl(j.sysctls[n])))
  {
    hide RunStep, Named, OnlyInstalledChange, Foreign;
    var s := j.sysctls[n];
    var r := RunStep(q, o, OnSysctl(s));
    OneRecord(q, o, s);
    NotNamedYet(j, n);
    LiveValue(j, h, n, q.host);
    forall i | 0 <= i < n + 1
      ensures j.sysctls[i].name in r.report.sysctlConflicts <==> FoundForeign(h, r.trace, j.sysctls[i])
    {
      ReadsOnce(q.trace, r.trace, s.name, Event(GetSysctl(j.sysctls[i].name), Ok));
    }
    forall i | 0 <= i < n ensures FoundForeign(h, q.trace, j.sysctls[i]) <==> FoundForeign(h, r.trace, j.sysctls[i]) {
      ReadsOnce(q.trace, r.trace, s.name, Event(GetSysctl(j.sysctls[i].name), Ok));
    }
    SameForeignNames(j, h, q.trace, r.trace, n);
    forall name | name in r.report.sysctlConflicts ensures Named(j, n + 1, name) { NamedGrows(j, n, name); }
    forall e | e in r.trace && e.call.GetSysctl? ensures Named(j, n + 1, e.call.name) {
      ReadsOnce(q.trace, r.trace, s.name, e);
      NamedGrows(j, n, e.call.name);
    }
    ChangeGrows(j, h, n, q.host, r.host);
  }

  lemma NotNamedYet(j: Journal, n: nat)
    requires DistinctNames(j) && n < |j.sysctls|
    ensures !Named(j, n, j.sysctls[n].name)
  {}

  lemma LiveValue(j: Journal, h: HostState, n: nat, s: HostState)
    requires DistinctNames(j) && n < |j.sysctls| && OnlyInstalledChange(j, h, n, s)
    ensures var k := j.sysctls[n].name;
            (k in s.sysctls <==> k in h.sysctls) && (k in h.sysctls ==> s.sysctls[k] == h.sysctls[k])
  {
    assert j.sysctls[n].name in s.sysctls.Keys <==> j.sysctls[n].name in h.sysctls.Keys;
  }

  lemma ChangeGrows(j: Journal, h: HostState, n: nat, s: HostState, t: HostState)
    requires DistinctNames(j) && n < |j.sysctls| && OnlyInstalledChange(j, h, n, s)
    requires var r := j.sysctls[n];
             t.sysctls == s.sysctls ||
             (r.name in s.sysctls && s.sysctls[r.name] == r.installed && t.sysctls == s.sysctls[r.name := r.prior])
    ensures OnlyInstalledChange(j, h, n + 1, t)
  {
    LiveValue(j, h, n, s);
    var r := j.sysctls[n];
    assert t.sysctls.Keys == s.sysctls.Keys;
    forall k | k in h.sysctls && t.sysctls[k] != h.sysctls[k]
      ensures exists i | 0 <= i < n + 1 ::
                j.sysctls[i].name == k && h.sysctls[k] == j.sysctls[i].installed && t.sysctls[k] == j.sysctls[i].prior
    {
      if s.sysctls[k] != h.sysctls[k] {
        var i :| 0 <= i < n && j.sysctls[i].name == k && h.sysctls[k] == j.sysctls[i].installed
                 && s.sysctls[k] == j.sysctls[i].prior;
        assert k != r.name && t.sysctls[k] == s.sysctls[k];
      } else {
        assert j.sysctls[n].name == k;
      }
    }
  }

  // ---------------------------------------------------------------- a whole run

  lemma {:induction false} RecordsReported(j: Journal, h: HostState, n: nat, p: Progress, o: Oracle)
    requires DistinctNames(j) && n <= |j.sysctls| && ReportedUpTo(j, h, 0, p)
    ensures ReportedUpTo(j, h, n, RunSteps(p, o, SysctlSteps(j)[..n]))
  {
    hide RunStep, ReportedUpTo;
    if n > 0 {
      assert SysctlSteps(j)[..n][..n - 1] == SysctlSteps(j)[..n - 1];
      RecordsReported(j, h, n - 1, p, o);
      RecordReported(j, h, n - 1, RunSteps(p, o, SysctlSteps(j)[..n - 1]), o);
    } else {
      assert SysctlSteps(j)[..0] == [];
    }
  }

  /** Steps of the other kinds read no sysctl, write none and report none. */
  lemma OtherStep(j: Journal, h: HostState, n: nat, p: Progress, o: Oracle, step: Step)
    requires n <= |j.sysctls| && ReportedUpTo(j, h, n, p) && !step.OnSysctl?
    ensures ReportedUpTo(j, h, n, RunStep(p, o, step))
  {
    hide Named, Foreign;
    var q := RunStep(p, o, step);
    assert q.trace == p.trace + [q.trace[|p.trace|]] && q.trace[|p.trace|].call == FirstCall(step);
    assert q.report.sysctlConflicts == p.report.sysctlConflicts && q.host.sysctls == p.host.sysctls;
    assert forall e: Event | e.call.GetSysctl? :: e in q.trace <==> e in p.trace;
    SameForeignNames(j, h, p.trace, q.trace, n);
  }

  lemma {:induction false} OtherSteps(j: Journal, h: HostState, n: nat, p: Progress, o: Oracle, steps: seq<Step>)
    requires n <= |j.sysctls| && ReportedUpTo(j, h, n, p) && forall s <- steps :: !s.OnSysctl?
    ensures ReportedUpTo(j, h, n, RunSteps(p, o, steps))
  {
    hide RunStep, ReportedUpTo;
    if steps != [] {
      assert steps[|steps| - 1] in steps;
      OtherSteps(j, h, n, p, o, steps[..|steps| - 1]);
      OtherStep(j, h, n, RunSteps(p, o, steps[..|steps| - 1]), o, steps[|steps| - 1]);
    }
  }

  lemma StepKinds(j: Journal)
    ensures forall s <- FixedSteps(j) :: !s.OnSysctl?
    ensures forall s <- TableSteps(j) :: !s.OnSysctl?
    ensures forall s <- NFTableSteps(j) :: !s.OnSysctl?
  {}

  lemma RunReported(j: Journal, role: string, instanceID: string, h: HostState, o: Oracle)
    requires Accepted(j, role, instanceID) && DistinctNames(j)
    ensures exists q: Progress :: ReportedUpTo(j, h, |j.sysctls|, q) &&
              var r := Recover(j, role, instanceID, h, o);
              r.host == q.host && r.trace == q.trace && r.report.sysctlConflicts == q.report.sysctlConflicts
  {
    hide RunSteps, ReportedUpTo;
    var n := |j.sysctls|;
    StepKinds(j);
    NothingReported(j, h);
    var p0 := RunSteps(Start(h), o, FixedSteps(j));
    OtherSteps(j, h, 0, Start(h), o, FixedSteps(j));
    RecordsReported(j, h, n, p0, o);
    assert SysctlSteps(j)[..n] == SysctlSteps(j);
    StepsConcat(Start(h), o, FixedSteps(j), SysctlSteps(j));
    var p1 := RunSteps(Start(h), o, Phase1(j));
    OtherSteps(j, h, n, p1, o, TableSteps(j));
    var p2 := RunSteps(p1, o, TableSteps(j));
    OtherSteps(j, h, n, p2, o, NFTableSteps(j));
    var p3 := RunSteps(p2, o, NFTableSteps(j));
    assert ReportedUpTo(j, h, n, p1) && ReportedUpTo(j, h, n, p2) && ReportedUpTo(j, h, n, p3);
  }

  lemma NothingReported(j: Journal, h: HostState)
    ensures ReportedUpTo(j, h, 0, Start(h))
  {}

  /** With distinct names, whatever fails: a sysctl is reported exactly when it was read and held neither
    * the old nor the installed value; and a value changes only from one that was installed to its prior,
    * so what is reported is kept. */
  lemma OperatorValuesKept(j: Journal, role: string, instanceID: string, h: HostState, o: Oracle)
    requires Accepted(j, role, instanceID) && DistinctNames(j)
    ensures var r := Recover(j, role, instanceID, h, o);
            && (forall s <- j.sysctls :: s.name in r.report.sysctlConflicts <==> FoundForeign(h, r.trace, s))
            && r.report.sysctlConflicts == ForeignNames(j, h, r.trace, |j.sysctls|)
            && (forall name <- r.report.sysctlConflicts ::
                  name in h.sysctls && name in r.host.sysctls && r.host.sysctls[name] == h.sysctls[name])
            && r.host.sysctls.Keys == h.sysctls.Keys
            && forall s <- j.sysctls :: ValueMoved(h, r.host, s)
  {
    hide Recover, Foreign, FoundForeign, ForeignNames, ValueMoved;
    var r := Recover(j, role, instanceID, h, o);
    RunReported(j, role, instanceID, h, o);
    var q: Progress :| ReportedUpTo(j, h, |j.sysctls|, q)
                       && r.host == q.host && r.trace == q.trace
                       && r.report.sysctlConflicts == q.report.sysctlConflicts;
    forall s | s in j.sysctls
      ensures s.name in r.report.sysctlConflicts <==> FoundForeign(h, r.trace, s)
      ensures ValueMoved(h, r.host, s)
    {
      RecordKept(j, h, q, s);
    }
    forall name | name in r.report.sysctlConflicts
      ensures name in h.sysctls && name in r.host.sysctls && r.host.sysctls[name] == h.sysctls[name]
    {
      ReportedKept(j, h, q, name);
    }
  }

  /** The sysctl has kept its value, or gone from the installed one to the prior one. */
  predicate ValueMoved(h: HostState, t: HostState, s: Sysctl) {
    s.name in h.sysctls ==>
      && s.name in t.sysctls
      && (t.sysctls[s.name] == h.sysctls[s.name] || (h.sysctls[s.name] == s.installed && t.sysctls[s.name] == s.prior))
  }

  lemma RecordKept(j: Journal, h: HostState, q: Progress, s: Sysctl)
    requires DistinctNames(j) && ReportedUpTo(j, h, |j.sysctls|, q) && s in j.sysctls
    ensures s.name in q.report.sysctlConflicts <==> FoundForeign(h, q.trace, s)
    ensures ValueMoved(h, q.host, s)
  {
    hide FoundForeign, ForeignNames;
    var i :| 0 <= i < |j.sysctls| && j.sysctls[i] == s;
    assert s.name in h.sysctls ==> s.name in q.host.sysctls.Keys;
  }

  lemma ReportedKept(j: Journal, h: HostState, q: Progress, name: string)
    requires DistinctNames(j) && ReportedUpTo(j, h, |j.sysctls|, q) && name in q.report.sysctlConflicts
    ensures name in h.sysctls && name in q.host.sysctls && q.host.sysctls[name] == h.sysctls[name]
  {
    var i :| 0 <= i < |j.sysctls| && j.sysctls[i].name == name;
    assert FoundForeign(h, q.trace, j.sysctls[i]);
    assert name in q.host.sysctls.Keys;
  }

  /** Left alone, recovery moves every sysctl that still holds the installed value back, and no other. */
  lemma UndisturbedValues(j: Journal, role: string, instanceID: string, h: HostState)
    requires Accepted(j, role, instanceID) && Readable(j, h) && DistinctNames(j)
    ensures var r := Recover(j, role, instanceID, h, []);
            forall s <- j.sysctls ::
              && s.name in r.host.sysctls
              && (s.name in r.report.sysctlConflicts <==> Foreign(s, h.sysctls[s.name]))
              && r.host.sysctls[s.name] == if h.sysctls[s.name] == s.installed then s.prior else h.sysctls[s.name]
  {
    hide Recover, RunSteps;
    var r := Recover(j, role, instanceID, h, []);
    UndisturbedRun(j, role, instanceID, h);
    OperatorValuesKept(j, role, instanceID, h, []);
    forall s | s in j.sysctls
      ensures s.name in r.host.sysctls
      ensures s.name in r.report.sysctlConflicts <==> Foreign(s, h.sysctls[s.name])
      ensures r.host.sysctls[s.name] == if h.sysctls[s.name] == s.installed then s.prior else h.sysctls[s.name]
    {
      var i :| 0 <= i < |j.sysctls| && j.sysctls[i] == s;
      assert j.sysctls[..|j.sysctls|] == j.sysctls;
      SettleOnce(j.sysctls, i, h.sysctls[s.name], |j.sysctls|);
      EverySysctlRead(j, role, instanceID, h, i);
    }
  }

  lemma EverySysctlRead(j: Journal, role: string, instanceID: string, h: HostState, i: nat)
    requires Accepted(j, role, instanceID) && Readable(j, h) && i < |j.sysctls|
    ensures Event(GetSysctl(j.sysctls[i].name), Ok) in Recover(j, role, instanceID, h, []).trace
  {
    hide Recover, RunSteps, RunStep;
    var trace := Recover(j, role, instanceID, h, []).trace;
    var steps, k := Phase1(j), |FixedSteps(j)| + i;
    assert steps[k] == OnSysctl(j.sysctls[i]);
    StepsCalled(Start(h), [], steps, k);
    var p1, p2 := Stretches(j, role, instanceID, h, []);
    var m :| 0 <= m < |p1.trace| && p1.trace[m].call == FirstCall(steps[k]);
    UndisturbedRun(j, role, instanceID, h);
    RetainedIff(j, role, instanceID, h, []);
    assert trace[m] in trace && trace[m].call == GetSysctl(j.sysctls[i].name);
  }
}
