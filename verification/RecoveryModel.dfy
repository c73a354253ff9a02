/** Two-phase, fail-closed recovery (internal/journal/recover.go) as a function of the journal,
  * the host and the outcomes of the host calls. */
module RecoveryModel {
  import opened Basics
  import opened Schema

  /** What recovery can see and change. A route table is the set of routes that name it. */
  datatype HostState = HostState(
    routes: set<Route>, rules: set<Rule>, nftables: set<NFTable>,
    sysctls: map<string, string>, resolver: Option<Resolver>)

  datatype Call =
    | GetSysctl(name: string)
    | SetSysctl(name: string, value: string)
    | DeleteRoute(route: Route)
    | DeleteRule(rule: Rule)
    | DeleteRouteTable(id: uint32)
    | DeleteNFTable(table: NFTable)
    | RestoreResolver(resolver: Resolver)

  /** A call that fails may or may not have taken effect. */
  datatype Outcome = Ok | Err(applied: bool)

  datatype Event = Event(call: Call, outcome: Outcome)

  /** The outcome of the i-th host call of a run; calls beyond the end succeed. */
  type Oracle = seq<Outcome>

  datatype Report = Report(
    sysctlsRestored: seq<string>, sysctlConflicts: seq<string>,
    routesRemoved: nat, rulesRemoved: nat, tablesRemoved: nat, nftablesRemoved: nat,
    resolverRestored: bool, killSwitchRetained: bool)

  datatype Error = Refused(v: Violation) | NotOwner | HaltedInPhase1 | HaltedInTables | HaltedInNFTables

  // ---------------------------------------------------------------- the host

  /** Every delete is idempotent: what is already gone stays gone. */
  function Effect(h: HostState, c: Call): HostState {
    match c
    case GetSysctl(_) => h
    case SetSysctl(name, value) => h.(sysctls := h.sysctls[name := value])
    case DeleteRoute(r) => h.(routes := h.routes - {r})
    case DeleteRule(r) => h.(rules := h.rules - {r})
    case DeleteRouteTable(id) => h.(routes := set r | r in h.routes && r.table != id)
    case DeleteNFTable(t) => h.(nftables := h.nftables - {t})
    case RestoreResolver(r) => h.(resolver := Some(r))
  }

  function After(h: HostState, e: Event): HostState {
    if e.outcome == Err(false) then h else Effect(h, e.call)
  }

  /** A key the kernel does not have cannot be read. */
  function OutcomeOf(h: HostState, o: Oracle, i: nat, c: Call): Outcome {
    if c.GetSysctl? && c.name !in h.sysctls then Err(false)
    else if i < |o| then o[i] else Ok
  }

  function Replay(h: HostState, trace: seq<Event>): HostState {
    if trace == [] then h else After(Replay(h, trace[..|trace| - 1]), trace[|trace| - 1])
  }

  // ---------------------------------------------------------------- one run

  datatype Progress = Progress(host: HostState, trace: seq<Event>, report: Report, failed: bool)

  function Invoke(p: Progress, o: Oracle, c: Call): Progress {
    var e := Event(c, OutcomeOf(p.host, o, |p.trace|, c));
    p.(host := After(p.host, e), trace := p.trace + [e])
  }

  predicate LastOk(p: Progress) { p.trace != [] && p.trace[|p.trace| - 1].outcome == Ok }

  /** One record of the journal, as one of the loops of Recover treats it. */
  datatype Step =
    | OnRoute(route: Route) | OnRule(rule: Rule) | OnResolver(resolver: Resolver)
    | OnSysctl(sysctl: Sysctl) | OnTable(id: uint32) | OnNFTable(table: NFTable)

  function SysctlStep(p: Progress, o: Oracle, s: Sysctl): Progress {
    var q := Invoke(p, o, GetSysctl(s.name));
    if !LastOk(q) then q.(failed := true)
    else
      var cur := q.host.sysctls[s.name];
      if cur == s.prior then q
      else if cur != s.installed then
        q.(report := q.report.(sysctlConflicts := q.report.sysctlConflicts + [s.name]))
      else
        var u := Invoke(q, o, SetSysctl(s.name, s.prior));
        if !LastOk(u) then u.(failed := true)
        else u.(report := u.report.(sysctlsRestored := u.report.sysctlsRestored + [s.name]))
  }

  /** The call every step starts with. */
  function FirstCall(step: Step): Call {
    match step
    case OnRoute(r) => DeleteRoute(r)
    case OnRule(r) => DeleteRule(r)
    case OnResolver(r) => RestoreResolver(r)
    case OnSysctl(s) => GetSysctl(s.name)
    case OnTable(id) => DeleteRouteTable(id)
    case OnNFTable(t) => DeleteNFTable(t)
  }

  function Count(rep: Report, step: Step): Report {
    match step
    case OnRoute(_) => rep.(routesRemoved := rep.routesRemoved + 1)
    case OnRule(_) => rep.(rulesRemoved := rep.rulesRemoved + 1)
    case OnResolver(_) => rep.(resolverRestored := true)
    case OnTable(_) => rep.(tablesRemoved := rep.tablesRemoved + 1)
    case OnNFTable(_) => rep.(nftablesRemoved := rep.nftablesRemoved + 1)
    case OnSysctl(_) => rep
  }

  function RunStep(p: Progress, o: Oracle, step: Step): Progress {
    if step.OnSysctl? then SysctlStep(p, o, step.sysctl)
    else
      var q := Invoke(p, o, FirstCall(step));
      if LastOk(q) then q.(report := Count(q.report, step)) else q.(failed := true)
  }

  function RunSteps(p: Progress, o: Oracle, steps: seq<Step>): Progress {
    if steps == [] then p
    else RunStep(RunSteps(p, o, steps[..|steps| - 1]), o, steps[|steps| - 1])
  }

  function RouteSteps(j: Journal): seq<Step> { seq(|j.routes|, i requires 0 <= i < |j.routes| => OnRoute(j.routes[i])) }
  function RuleSteps(j: Journal): seq<Step> { seq(|j.rules|, i requires 0 <= i < |j.rules| => OnRule(j.rules[i])) }
  function ResolverSteps(j: Journal): seq<Step> { if j.resolver.Some? then [OnResolver(j.resolver.value)] else [] }
  function SysctlSteps(j: Journal): seq<Step> { seq(|j.sysctls|, i requires 0 <= i < |j.sysctls| => OnSysctl(j.sysctls[i])) }
  function TableSteps(j: Journal): seq<Step> { seq(|j.tables|, i requires 0 <= i < |j.tables| => OnTable(j.tables[i])) }
  function NFTableSteps(j: Journal): seq<Step> { seq(|j.nftables|, i requires 0 <= i < |j.nftables| => OnNFTable(j.nftables[i])) }

  /** Owned routes, then rules, then the resolver, then sysctls. */
  function Phase1(j: Journal): seq<Step> { RouteSteps(j) + RuleSteps(j) + ResolverSteps(j) + SysctlSteps(j) }

  const NO_REPORT := Report([], [], 0, 0, 0, 0, false, false)

  function Start(h: HostState): Progress { Progress(h, [], NO_REPORT, false) }

  datatype Result = Result(host: HostState, trace: seq<Event>, report: Report, error: Option<Error>)

  function Stop(p: Progress, retained: bool, e: Option<Error>): Result {
    Result(p.host, p.trace, p.report.(killSwitchRetained := retained), e)
  }

  function Recover(j: Journal, role: string, instanceID: string, h: HostState, o: Oracle): Result {
    var v := Validate(j);
    if v.Some? then Stop(Start(h), false, Some(Refused(v.value)))
    else if !OwnedBy(j, role, instanceID) then Stop(Start(h), false, Some(NotOwner))
    else
      var p1 := RunSteps(Start(h), o, Phase1(j));
      if p1.failed then Stop(p1, |j.nftables| > 0, Some(HaltedInPhase1))
      else
        var p2 := RunSteps(p1, o, TableSteps(j));
        if p2.failed then Stop(p2, |j.nftables| > 0, Some(HaltedInTables))
        else
          var p3 := RunSteps(p2, o, NFTableSteps(j));
          if p3.failed then Stop(p3, p3.report.nftablesRemoved < |j.nftables|, Some(HaltedInNFTables))
          else Stop(p3, false, None)
  }

  predicate Accepted(j: Journal, role: string, instanceID: string) {
    Validate(j) == None && OwnedBy(j, role, instanceID)
  }

  // ---------------------------------------------------------------- crashes and retries

  /** A run whose host calls go as `oracle` says and that dies after `cut` of them. A call cut off
    * in the middle is a failed call, applied or not, that is also the last one. */
  datatype Attempt = Attempt(oracle: Oracle, cut: nat)

  function Min(a: nat, b: nat): nat { if a < b then a else b }

  function AfterAttempt(j: Journal, role: string, instanceID: string, h: HostState, a: Attempt): HostState {
    var trace := Recover(j, role, instanceID, h, a.oracle).trace;
    Replay(h, trace[..Min(a.cut, |trace|)])
  }

  function AfterAttempts(j: Journal, role: string, instanceID: string, h: HostState, attempts: seq<Attempt>): HostState {
    if attempts == [] then h
    else AfterAttempt(j, role, instanceID,
                      AfterAttempts(j, role, instanceID, h, attempts[..|attempts| - 1]),
                      attempts[|attempts| - 1])
  }

  /** What a chain of records does to the live value of one sysctl, record after record. */
  function Settle(recs: seq<Sysctl>, name: string, live: string): string {
    if recs == [] then live
    else
      var v := Settle(recs[..|recs| - 1], name, live);
      var r := recs[|recs| - 1];
      if r.name == name && v == r.installed then r.prior else v
  }

  ghost function SettleAll(recs: seq<Sysctl>, live: map<string, string>): map<string, string> {
    map k | k in live :: Settle(recs, k, live[k])
  }

  /** Where an undisturbed recovery ends: everything owned is gone, everything else is as it was. */
  ghost function Restored(j: Journal, h: HostState): HostState {
    HostState(
      (set r | r in h.routes && r !in j.routes && r.table !in j.tables),
      (set r | r in h.rules && r !in j.rules),
      (set t | t in h.nftables && t !in j.nftables),
      SettleAll(j.sysctls, h.sysctls),
      if j.resolver.Some? then j.resolver else h.resolver)
  }

  ghost predicate Readable(j: Journal, h: HostState) { forall s <- j.sysctls :: s.name in h.sysctls }
}
