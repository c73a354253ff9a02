/** The mutation journal of internal/journal/schema.go and the checks made before it is used. */
module Schema {
  import opened Basics

  datatype Route = Route(table: uint32, dst: string, dev: string, via: string, priority: uint32)
  datatype Rule = Rule(family: string, priority: uint32, fwmark: uint32, table: uint32)
  datatype NFTable = NFTable(family: string, name: string)
  datatype Sysctl = Sysctl(name: string, prior: string, installed: string)
  datatype Resolver = Resolver(manager: string, link: string, prior: string)

  datatype Journal = Journal(
    schema: int, role: string, instanceID: string,
    routes: seq<Route>, rules: seq<Rule>, tables: seq<uint32>, nftables: seq<NFTable>,
    sysctls: seq<Sysctl>, resolver: Option<Resolver>)

  const SCHEMA_VERSION := 1

  datatype Problem = BadDst | BadDev | ZeroTable | BadFamily | BadName

  /** The first violation found, with the index of the record at fault. */
  datatype Violation =
    | BadSchema | BadRole | BadInstanceID
    | InRoutes(i: nat, p: Problem) | InRules(i: nat, p: Problem) | InTables(i: nat, p: Problem)
    | InNFTables(i: nat, p: Problem) | InSysctls(i: nat, p: Problem)

  predicate Lower(c: char) { 'a' <= c <= 'z' }
  predicate Upper(c: char) { 'A' <= c <= 'Z' }
  predicate Digit(c: char) { '0' <= c <= '9' }

  predicate IdChar(c: char) { Lower(c) || Upper(c) || Digit(c) || c == '.' || c == '_' || c == '-' }
  predicate NftChar(c: char) { Lower(c) || Upper(c) || Digit(c) || c == '_' || c == '-' }
  predicate SysctlChar(c: char) { Lower(c) || Digit(c) || c == '_' }

  predicate InstanceIDOk(s: string) { 8 <= |s| <= 128 && forall c <- s :: IdChar(c) }
  predicate DevOk(s: string) { 1 <= |s| <= 15 && forall c <- s :: IdChar(c) }
  predicate NftNameOk(s: string) { 1 <= |s| <= 64 && forall c <- s :: NftChar(c) }

  /** At least two non-empty runs of name characters, joined by single dots. */
  predicate SysctlNameOk(s: string) {
    && '.' in s
    && (forall c <- s :: SysctlChar(c) || c == '.')
    && s[0] != '.' && s[|s| - 1] != '.'
    && forall i | 0 <= i < |s| - 1 :: s[i] != '.' || s[i + 1] != '.'
  }

  function RouteProblem(r: Route): Option<Problem> {
    if r.dst != "default" && '/' !in r.dst then Some(BadDst)
    else if !DevOk(r.dev) then Some(BadDev)
    else if r.table == 0 then Some(ZeroTable)
    else None
  }

  function RuleProblem(r: Rule): Option<Problem> {
    if r.family != "ip" && r.family != "ip6" then Some(BadFamily)
    else if r.table == 0 then Some(ZeroTable)
    else None
  }

  function TableProblem(t: uint32): Option<Problem> { if t == 0 then Some(ZeroTable) else None }

  function NFTableProblem(n: NFTable): Option<Problem> {
    if n.family != "inet" && n.family != "ip" && n.family != "ip6" then Some(BadFamily)
    else if !NftNameOk(n.name) then Some(BadName)
    else None
  }

  function SysctlProblem(s: Sysctl): Option<Problem> {
    if !SysctlNameOk(s.name) then Some(BadName) else None
  }

  /** The least index, from `i` on, whose record has a problem. */
  function FirstBad<T>(xs: seq<T>, problem: T -> Option<Problem>, i: nat): (r: Option<nat>)
    requires i <= |xs|
    ensures r.None? ==> forall k | i <= k < |xs| :: problem(xs[k]).None?
    ensures r.Some? ==> i <= r.value < |xs| && problem(xs[r.value]).Some?
                        && forall k | i <= k < r.value :: problem(xs[k]).None?
    decreases |xs| - i
  {
    if i == |xs| then None
    else if problem(xs[i]).Some? then Some(i)
    else FirstBad(xs, problem, i + 1)
  }

  function Validate(j: Journal): Option<Violation> {
    if j.schema != SCHEMA_VERSION then Some(BadSchema)
    else if j.role != "client" && j.role != "server" then Some(BadRole)
    else if !InstanceIDOk(j.instanceID) then Some(BadInstanceID)
    else match FirstBad(j.routes, RouteProblem, 0)
      case Some(i) => Some(InRoutes(i, RouteProblem(j.routes[i]).value))
      case None => match FirstBad(j.rules, RuleProblem, 0)
        case Some(i) => Some(InRules(i, RuleProblem(j.rules[i]).value))
        case None => match FirstBad(j.tables, TableProblem, 0)
          case Some(i) => Some(InTables(i, TableProblem(j.tables[i]).value))
          case None => match FirstBad(j.nftables, NFTableProblem, 0)
            case Some(i) => Some(InNFTables(i, NFTableProblem(j.nftables[i]).value))
            case None => match FirstBad(j.sysctls, SysctlProblem, 0)
              case Some(i) => Some(InSysctls(i, SysctlProblem(j.sysctls[i]).value))
              case None => None
  }

  /** An empty instance id means the caller does not care. */
  predicate OwnedBy(j: Journal, role: string, instanceID: string) {
    j.role == role && (instanceID != "" ==> j.instanceID == instanceID)
  }

  ghost predicate WellFormed(j: Journal) {
    && j.schema == SCHEMA_VERSION
    && (j.role == "client" || j.role == "server")
    && InstanceIDOk(j.instanceID)
    && (forall r <- j.routes :: (r.dst == "default" || '/' in r.dst) && DevOk(r.dev) && r.table != 0)
    && (forall r <- j.rules :: (r.family == "ip" || r.family == "ip6") && r.table != 0)
    && (forall t <- j.tables :: t != 0)
    && (forall n <- j.nftables :: (n.family == "inet" || n.family == "ip" || n.family == "ip6") && NftNameOk(n.name))
    && (forall s <- j.sysctls :: SysctlNameOk(s.name))
  }

  /** A journal is refused exactly when some record in it is malformed. */
  lemma ValidateIff(j: Journal)
    ensures Validate(j) == None <==> WellFormed(j)
  {
    if WellFormed(j) {
      assert forall k | 0 <= k < |j.routes| :: j.routes[k] in j.routes && RouteProblem(j.routes[k]).None?;
      assert forall k | 0 <= k < |j.rules| :: j.rules[k] in j.rules && RuleProblem(j.rules[k]).None?;
      forall k | 0 <= k < |j.tables| ensures TableProblem(j.tables[k]).None? {
        var t := j.tables[k];
        assert t in j.tables;
      }
      assert forall k | 0 <= k < |j.nftables| :: j.nftables[k] in j.nftables && NFTableProblem(j.nftables[k]).None?;
      assert forall k | 0 <= k < |j.sysctls| :: j.sysctls[k] in j.sysctls && SysctlProblem(j.sysctls[k]).None?;
    }
  }

  /** What is reported is the first thing wrong, in the order of the checks. */
  ghost predicate SoundBefore(j: Journal, routes: nat, rules: nat, tables: nat, nftables: nat, sysctls: nat) {
    && j.schema == SCHEMA_VERSION && (j.role == "client" || j.role == "server") && InstanceIDOk(j.instanceID)
    && routes <= |j.routes| && (forall k | 0 <= k < routes :: RouteProblem(j.routes[k]) == None)
    && rules <= |j.rules| && (forall k | 0 <= k < rules :: RuleProblem(j.rules[k]) == None)
    && tables <= |j.tables| && (forall k | 0 <= k < tables :: TableProblem(j.tables[k]) == None)
    && nftables <= |j.nftables| && (forall k | 0 <= k < nftables :: NFTableProblem(j.nftables[k]) == None)
    && sysctls <= |j.sysctls| && (forall k | 0 <= k < sysctls :: SysctlProblem(j.sysctls[k]) == None)
  }

  lemma ViolationIsFirst(j: Journal)
    ensures var r, u, t, n, s := |j.routes|, |j.rules|, |j.tables|, |j.nftables|, |j.sysctls|;
            match Validate(j)
            case None => SoundBefore(j, r, u, t, n, s)
            case Some(BadSchema) => j.schema != SCHEMA_VERSION
            case Some(BadRole) => j.role != "client" && j.role != "server"
            case Some(BadInstanceID) => !InstanceIDOk(j.instanceID)
            case Some(InRoutes(i, p)) => i < r && SoundBefore(j, i, 0, 0, 0, 0) && RouteProblem(j.routes[i]) == Some(p)
            case Some(InRules(i, p)) => i < u && SoundBefore(j, r, i, 0, 0, 0) && RuleProblem(j.rules[i]) == Some(p)
            case Some(InTables(i, p)) => i < t && SoundBefore(j, r, u, i, 0, 0) && TableProblem(j.tables[i]) == Some(p)
            case Some(InNFTables(i, p)) => i < n && SoundBefore(j, r, u, t, i, 0) && NFTableProblem(j.nftables[i]) == Some(p)
            case Some(InSysctls(i, p)) => i < s && SoundBefore(j, r, u, t, n, i) && SysctlProblem(j.sysctls[i]) == Some(p)
  {}
}
