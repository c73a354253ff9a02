/** What a second recovery does, and what retries may never undo: exactly for which journals recovery
  * is idempotent, a no-op the second time, and fail-closed over every history of retries. */
module RecoveryIdempotence {
  import opened Basics
  import opened Schema
  import opened RecoveryModel
  import opened RecoveryLaws
  import opened RecoveryConvergence

  // ---------------------------------------------------------------- conditions on a journal

  /** Where the records of r's sysctl take the value that r installed. */
  function Home(j: Journal, r: Sysctl): string { Settle(j.sysctls, r.name, r.installed) }

  /** Taking that value through the records again leads nowhere else. */
  ghost predicate HomesStay(j: Journal) { forall r <- j.sysctls :: Settle(j.sysctls, r.name, Home(j, r)) == Home(j, r) }

  /** No record of the sysctl would change that value again, not even for a moment. */
  ghost predicate HomesRest(j: Journal) {
    forall r, k | r in j.sysctls && k in j.sysctls && r.name == k.name ::
      Home(j, r) == k.installed ==> k.prior == k.installed
  }

  predicate DistinctNames(j: Journal) {
    forall i, k | 0 <= i < k < |j.sysctls| :: j.sysctls[i].name != j.sysctls[k].name
  }

  /** A value that no record of the sysctl installs is left alone. */
  lemma {:induction false} SettleForeign(recs: seq<Sysctl>, name: string, v: string)
    requires forall k <- recs :: k.name == name && k.installed == v ==> k.prior == v
    ensures Settle(recs, name, v) == v
  {
    if recs != [] {
      assert recs[|recs| - 1] in recs;
      SettleForeign(recs[..|recs| - 1], name, v);
    }
  }

  lemma DistinctNamesRest(j: Journal)
    requires DistinctNames(j)
    ensures Settles(j) && HomesStay(j) && HomesRest(j)
  {
    DistinctNamesSettle(j);
    assert HomesRest(j) by {
      forall r, k | r in j.sysctls && k in j.sysctls && r.name == k.name
        ensures Home(j, r) == k.installed ==> k.prior == k.installed
      {
        var i :| 0 <= i < |j.sysctls| && j.sysctls[i] == r;
        assert j.sysctls[..|j.sysctls|] == j.sysctls;
        SettleOnce(j.sysctls, i, r.installed, |j.sysctls|);
      }
    }
    RestingStays(j);
  }

  lemma RestingStays(j: Journal)
    requires HomesRest(j)
    ensures HomesStay(j)
  {
    forall r | r in j.sysctls ensures Settle(j.sysctls, r.name, Home(j, r)) == Home(j, r) {
      SettleForeign(j.sysctls, r.name, Home(j, r));
    }
  }

  // ---------------------------------------------------------------- idempotence

  /** From every readable host a second undisturbed recovery succeeds and ends where the first did. */
  ghost predicate Idempotent(j: Journal, role: string, instanceID: string) {
    forall h: HostState | Readable(j, h) ::
      var s := Recover(j, role, instanceID, h, []).host;
      var again := Recover(j, role, instanceID, s, []);
      again.error == None && again.host == s
  }

  /** Recovery is idempotent exactly for the journals whose records take every value they installed to
    * a place from which they would not move it again. */
  lemma IdempotentIff(j: Journal, role: string, instanceID: string)
    requires Accepted(j, role, instanceID)
    ensures Idempotent(j, role, instanceID) <==> HomesStay(j)
  {
    hide Recover, Settle;
    if HomesStay(j) {
      forall h: HostState | Readable(j, h)
        ensures var s := Recover(j, role, instanceID, h, []).host;
                Recover(j, role, instanceID, s, []).error == None && Recover(j, role, instanceID, s, []).host == s
      {
        TwoRuns(j, role, instanceID, h);
        RestoredTwice(j, h);
      }
    } else {
      var r :| r in j.sysctls && Settle(j.sysctls, r.name, Home(j, r)) != Home(j, r);
      var i :| 0 <= i < |j.sysctls| && j.sysctls[i] == r;
      var h := HostWith(j, i);
      assert Readable(j, h);
      TwoRuns(j, role, instanceID, h);
    }
  }

  lemma TwoRuns(j: Journal, role: string, instanceID: string, h: HostState)
    requires Accepted(j, role, instanceID) && Readable(j, h)
    ensures var s := Recover(j, role, instanceID, h, []).host;
            && Recover(j, role, instanceID, h, []).error == None
            && s == Restored(j, h) && Readable(j, s)
            && Recover(j, role, instanceID, s, []).error == None
            && Recover(j, role, instanceID, s, []).host == Restored(j, Restored(j, h))
            && forall k | k in h.sysctls ::
                 && s.sysctls[k] == Settle(j.sysctls, k, h.sysctls[k])
                 && Restored(j, s).sysctls[k] == Settle(j.sysctls, k, s.sysctls[k])
  {
    UndisturbedRun(j, role, instanceID, h);
    UndisturbedRun(j, role, instanceID, Restored(j, h));
  }

  lemma RestoredTwice(j: Journal, h: HostState)
    requires HomesStay(j)
    ensures Restored(j, Restored(j, h)) == Restored(j, h)
  {
    var s, u := Restored(j, h), Restored(j, Restored(j, h));
    forall k | k in h.sysctls ensures u.sysctls[k] == s.sysctls[k] {
      SettledOnceMore(j, k, h.sysctls[k]);
    }
    assert u.sysctls == s.sysctls && u.routes == s.routes && u.rules == s.rules && u.nftables == s.nftables;
  }

  lemma SettledOnceMore(j: Journal, name: string, v: string)
    requires HomesStay(j)
    ensures Settle(j.sysctls, name, Settle(j.sysctls, name, v)) == Settle(j.sysctls, name, v)
  {
    hide Settle;
    if r :| r in j.sysctls && r.name == name && r.installed == v {
      assert Settle(j.sysctls, name, v) == Home(j, r);
    } else {
      SettleForeign(j.sysctls, name, v);
    }
  }

  // ---------------------------------------------------------------- when a run writes

  ghost predicate Writes(trace: seq<Event>) { exists e <- trace :: e.call.SetSysctl? }

  /** Some record finds the value it installed and would change it. */
  ghost predicate Stirs(j: Journal, s: HostState) {
    exists k <- j.sysctls :: k.name in s.sysctls && s.sysctls[k.name] == k.installed != k.prior
  }

  lemma InPrefix(a: seq<Event>, b: seq<Event>, e: Event)
    requires a <= b && e in a
    ensures e in b
  {
    var i :| 0 <= i < |a| && a[i] == e;
    assert b[i] == e;
  }

  lemma NoWritesBefore(trace: seq<Event>, i: nat)
    requires i <= |trace| && !Writes(trace)
    ensures !Writes(trace[..i])
  {
    forall e | e in trace[..i] ensures e in trace { InPrefix(trace[..i], trace, e); }
  }

  lemma {:induction false} SysctlsKept(h: HostState, trace: seq<Event>)
    requires !Writes(trace)
    ensures Replay(h, trace).sysctls == h.sysctls
  {
    if trace != [] {
      var n := |trace| - 1;
      assert trace[n] in trace;
      NoWritesBefore(trace, n);
      SysctlsKept(h, trace[..n]);
    }
  }

  /** The first write of a run, whatever fails, changes a value that some record stirs. */
  lemma {:induction false} FirstWrite(j: Journal, role: string, instanceID: string, h: HostState, o: Oracle, n: nat)
    requires n <= |Recover(j, role, instanceID, h, o).trace|
    requires !Stirs(j, h)
    ensures !Writes(Recover(j, role, instanceID, h, o).trace[..n])
  {
    hide Recover, Replay;
    var trace := Recover(j, role, instanceID, h, o).trace;
    if n > 0 {
      FirstWrite(j, role, instanceID, h, o, n - 1);
      SysctlsKept(h, trace[..n - 1]);
      SysctlWrites(j, role, instanceID, h, o, n - 1);
      assert trace[..n] == trace[..n - 1] + [trace[n - 1]];
    }
  }

  /** An undisturbed run writes a sysctl exactly when some record finds the value it installed. */
  lemma WritesIff(j: Journal, role: string, instanceID: string, h: HostState)
    requires Accepted(j, role, instanceID) && Readable(j, h)
    ensures Writes(Recover(j, role, instanceID, h, []).trace) <==> Stirs(j, h)
  {
    hide Recover, Writes, Stirs;
    var trace := Recover(j, role, instanceID, h, []).trace;
    if !Stirs(j, h) {
      FirstWrite(j, role, instanceID, h, [], |trace|);
      assert trace[..|trace|] == trace;
    } else {
      StirredWrites(j, role, instanceID, h);
    }
  }

  lemma StirredWrites(j: Journal, role: string, instanceID: string, h: HostState)
    requires Accepted(j, role, instanceID) && Readable(j, h) && Stirs(j, h)
    ensures Writes(Recover(j, role, instanceID, h, []).trace)
  {
    hide Recover, RunSteps, RunStep, Replay;
    var trace := Recover(j, role, instanceID, h, []).trace;
    var k :| k in j.sysctls && k.name in h.sysctls && h.sysctls[k.name] == k.installed != k.prior;
    var i :| 0 <= i < |j.sysctls| && j.sysctls[i] == k;
    var p, q := SysctlInRun(j, role, instanceID, h, [], i);
    if !Writes(trace) {
      NoWritesBefore(trace, |p.trace|);
      assert trace[..|p.trace|] == p.trace;
      SysctlsKept(h, p.trace);
      StirredStep(p, k);
      InPrefix(q.trace, trace, q.trace[|p.trace| + 1]);
    }
  }

  lemma StirredStep(p: Progress, k: Sysctl)
    requires k.name in p.host.sysctls && p.host.sysctls[k.name] == k.installed != k.prior
    ensures var q := RunStep(p, [], OnSysctl(k));
            |q.trace| == |p.trace| + 2 && q.trace[|p.trace| + 1].call == SetSysctl(k.name, k.prior)
  {}

  // ---------------------------------------------------------------- a second run that is a no-op

  /** The run leaves the host as it is at every instant. */
  ghost predicate StaysPut(s: HostState, trace: seq<Event>) {
    forall i | 0 <= i <= |trace| :: Replay(s, trace[..i]) == s
  }

  /** Nothing but the kill switch is left on the host that a planned call other than a write could change. */
  ghost predicate UndoneButNFT(j: Journal, s: HostState) {
    && (forall r <- s.routes :: r !in j.routes && r.table !in j.tables)
    && (forall r <- s.rules :: r !in j.rules)
    && (j.resolver.Some? ==> s.resolver == j.resolver)
  }

  ghost predicate SwitchGone(j: Journal, s: HostState) { forall t <- s.nftables :: t !in j.nftables }

  lemma NothingToUndo(j: Journal, s: HostState, e: Event)
    requires UndoneButNFT(j, s) && Planned(j, s, e.call) && !e.call.SetSysctl?
    ensures After(s, e).(nftables := s.nftables) == s
    ensures SwitchGone(j, s) ==> After(s, e) == s
  {
    var t := After(s, e);
    assert t.routes == s.routes && t.rules == s.rules;
    if SwitchGone(j, s) { assert t.nftables == s.nftables; }
  }

  /** On a host where everything but the kill switch is undone a run, however it fails, leaves all of it
    * alone until it writes. */
  lemma {:induction false} QuietStaysPut(j: Journal, role: string, instanceID: string, s: HostState, o: Oracle, n: nat)
    requires n <= |Recover(j, role, instanceID, s, o).trace|
    requires UndoneButNFT(j, s) && !Writes(Recover(j, role, instanceID, s, o).trace[..n])
    ensures var u := Replay(s, Recover(j, role, instanceID, s, o).trace[..n]);
            u.(nftables := s.nftables) == s && (SwitchGone(j, s) ==> u == s)
  {
    hide Recover, Planned;
    var trace := Recover(j, role, instanceID, s, o).trace;
    if n > 0 {
      assert trace[..n][..n - 1] == trace[..n - 1];
      assert trace[..n][n - 1] == trace[n - 1];
      NoWritesBefore(trace[..n], n - 1);
      QuietStaysPut(j, role, instanceID, s, o, n - 1);
      TracePlanned(j, role, instanceID, s, o, n - 1);
      assert trace[n - 1] in trace[..n];
      NothingToUndo(j, Replay(s, trace[..n - 1]), trace[n - 1]);
    }
  }

  /** A write that succeeds shows. */
  lemma WriteShows(j: Journal, role: string, instanceID: string, s: HostState)
    requires Accepted(j, role, instanceID) && Readable(j, s) && Writes(Recover(j, role, instanceID, s, []).trace)
    ensures var trace := Recover(j, role, instanceID, s, []).trace;
            exists i | 0 <= i <= |trace| :: Replay(s, trace[..i]).sysctls != s.sysctls
  {
    hide Recover;
    var trace := Recover(j, role, instanceID, s, []).trace;
    var e :| e in trace && e.call.SetSysctl?;
    var i :| 0 <= i < |trace| && trace[i] == e;
    SysctlWrites(j, role, instanceID, s, [], i);
    UndisturbedRun(j, role, instanceID, s);
    RetainedIff(j, role, instanceID, s, []);
    assert trace[i].outcome == Ok;
    assert trace[..i + 1][..i] == trace[..i];
    assert Replay(s, trace[..i + 1]) == After(Replay(s, trace[..i]), trace[i]);
    assert Replay(s, trace[..i + 1]).sysctls != Replay(s, trace[..i]).sysctls;
  }

  /** The second run leaves every host the first run ends on alone, at every instant. */
  ghost predicate SecondRunIsNoOp(j: Journal, role: string, instanceID: string) {
    forall h: HostState | Readable(j, h) ::
      var s := Recover(j, role, instanceID, h, []).host;
      var again := Recover(j, role, instanceID, s, []);
      again.error == None && StaysPut(s, again.trace)
  }

  /** A second recovery is a no-op exactly for the journals whose records never move a value again once
    * they have taken it somewhere; and that is when it writes no sysctl. */
  lemma SecondRunIsNoOpIff(j: Journal, role: string, instanceID: string)
    requires Accepted(j, role, instanceID)
    ensures SecondRunIsNoOp(j, role, instanceID) <==> HomesRest(j)
    ensures HomesRest(j) <==>
              forall h: HostState | Readable(j, h) ::
                !Writes(Recover(j, role, instanceID, Recover(j, role, instanceID, h, []).host, []).trace)
  {
    hide Recover, Settle, Writes, Stirs, StaysPut;
    forall h: HostState | Readable(j, h)
      ensures var s := Recover(j, role, instanceID, h, []).host;
              var again := Recover(j, role, instanceID, s, []);
              && again.error == None
              && (StaysPut(s, again.trace) <==> !Writes(again.trace))
              && (HomesRest(j) ==> !Writes(again.trace))
    {
      TwoRuns(j, role, instanceID, h);
      var s := Restored(j, h);
      StaysPutIff(j, role, instanceID, h);
      WritesIff(j, role, instanceID, s);
      if HomesRest(j) { RestingStirsNot(j, h); }
    }
    if !HomesRest(j) {
      var r, k :| r in j.sysctls && k in j.sysctls && r.name == k.name && Home(j, r) == k.installed != k.prior;
      var i :| 0 <= i < |j.sysctls| && j.sysctls[i] == r;
      var h := HostWith(j, i);
      assert Readable(j, h);
      TwoRuns(j, role, instanceID, h);
      var s := Recover(j, role, instanceID, h, []).host;
      assert Stirs(j, s) by { StirsBy(j, s, k); }
      WritesIff(j, role, instanceID, s);
    }
  }

  lemma StirsBy(j: Journal, s: HostState, k: Sysctl)
    requires k in j.sysctls && k.name in s.sysctls && s.sysctls[k.name] == k.installed != k.prior
    ensures Stirs(j, s)
  {}

  lemma StaysPutIff(j: Journal, role: string, instanceID: string, h: HostState)
    requires Accepted(j, role, instanceID) && Readable(j, h)
    ensures var s := Restored(j, h);
            var trace := Recover(j, role, instanceID, s, []).trace;
            StaysPut(s, trace) <==> !Writes(trace)
  {
    hide Recover, Writes, Replay;
    TwoRuns(j, role, instanceID, h);
    var s := Restored(j, h);
    var trace := Recover(j, role, instanceID, s, []).trace;
    if Writes(trace) {
      WriteShows(j, role, instanceID, s);
    } else {
      forall i | 0 <= i <= |trace| ensures Replay(s, trace[..i]) == s {
        NoWritesBefore(trace, i);
        QuietStaysPut(j, role, instanceID, s, [], i);
      }
    }
  }

  lemma RestingStirsNot(j: Journal, h: HostState)
    requires HomesRest(j)
    ensures !Stirs(j, Restored(j, h))
  {
    hide Settle;
    var s := Restored(j, h);
    forall k | k in j.sysctls && k.name in s.sysctls && s.sysctls[k.name] == k.installed
      ensures k.prior == k.installed
    {
      var v := h.sysctls[k.name];
      if r :| r in j.sysctls && r.name == k.name && r.installed == v {
        assert s.sysctls[k.name] == Home(j, r);
      } else {
        SettleForeign(j.sysctls, k.name, v);
      }
    }
  }

  // ---------------------------------------------------------------- witnesses

  /** A settling journal is idempotent: the values its records took lead where the records take them. */
  lemma SettlingStays(j: Journal)
    requires Settles(j)
    ensures HomesStay(j)
  {
    forall r | r in j.sysctls ensures Settle(j.sysctls, r.name, Home(j, r)) == Home(j, r) {
      SettlingPath(j, r.name, r.installed, |j.sysctls|);
      assert j.sysctls[..|j.sysctls|] == j.sysctls;
    }
  }

  /** Every value on the way leads to the same place. */
  lemma {:induction false} SettlingPath(j: Journal, name: string, v: string, n: nat)
    requires Settles(j) && n <= |j.sysctls|
    ensures Settle(j.sysctls, name, Settle(j.sysctls[..n], name, v)) == Settle(j.sysctls, name, v)
  {
    if n > 0 {
      assert j.sysctls[..n][..n - 1] == j.sysctls[..n - 1];
      SettlingPath(j, name, v, n - 1);
      assert j.sysctls[n - 1] in j.sysctls;
    }
  }

  /** A journal of nothing but sysctls. */
  function OnlySysctls(recs: seq<Sysctl>): Journal {
    Journal(SCHEMA_VERSION, "client", "instance", [], [], [], [], recs, None)
  }

  /** Validate looks at each record alone, so it lets through any records with proper names. */
  lemma OnlySysctlsAccepted(recs: seq<Sysctl>)
    requires forall r <- recs :: SysctlNameOk(r.name)
    ensures Validate(OnlySysctls(recs)) == None && Accepted(OnlySysctls(recs), "client", "")
  {
    ValidateIff(OnlySysctls(recs));
  }

  lemma SettleTwo(r: Sysctl, q: Sysctl, name: string, v: string)
    ensures Settle([r, q], name, v) ==
            var u := if r.name == name && v == r.installed then r.prior else v;
            if q.name == name && u == q.installed then q.prior else u
  {
    var recs := [r, q];
    assert recs[..1] == [r] && recs[..1][..0] == [];
    assert Settle(recs[..1], name, v) == if r.name == name && v == r.installed then r.prior else v;
  }

  /** Two records of one sysctl that continue each other, oldest first, neither settle nor are undone by
    * one recovery: an undisturbed run undoes the younger, a second one the older. */
  lemma ChainDoesNotSettle(name: string, a: string, b: string, c: string, h: HostState)
    requires SysctlNameOk(name) && a != b && b != c && a != c
    requires name in h.sysctls && h.sysctls[name] == c
    ensures var j := OnlySysctls([Sysctl(name, a, b), Sysctl(name, b, c)]);
            && Validate(j) == None && !Settles(j) && !HomesStay(j)
            && var once := Recover(j, "client", "", h, []);
            && var twice := Recover(j, "client", "", once.host, []);
            && once.error == None && name in once.host.sysctls && once.host.sysctls[name] == b
            && twice.error == None && name in twice.host.sysctls && twice.host.sysctls[name] == a
  {
    hide Recover, Settle;
    var r, q := Sysctl(name, a, b), Sysctl(name, b, c);
    var j := OnlySysctls([r, q]);
    OnlySysctlsAccepted([r, q]);
    SettleTwo(r, q, name, c);
    SettleTwo(r, q, name, b);
    assert q in j.sysctls && Home(j, q) == b;
    assert Readable(j, h);
    TwoRuns(j, "client", "", h);
  }

  /** Two records that both installed c, over different values, do not settle: where a crashed recovery
    * ends depends on the crash. Yet a second run after an undisturbed one is a no-op. */
  lemma SharedValueRests(name: string, a: string, b: string, c: string)
    requires SysctlNameOk(name) && a != b && b != c && a != c
    ensures var j := OnlySysctls([Sysctl(name, a, c), Sysctl(name, b, c)]);
            Validate(j) == None && !Settles(j) && HomesRest(j)
  {
    hide Settle;
    var r, q := Sysctl(name, a, c), Sysctl(name, b, c);
    var j := OnlySysctls([r, q]);
    OnlySysctlsAccepted([r, q]);
    SettleTwo(r, q, name, a);
    SettleTwo(r, q, name, b);
    SettleTwo(r, q, name, c);
    assert q in j.sysctls;
  }

  /** Two records that swap two values settle, so recovery converges and is idempotent; but every further
    * run writes the sysctl twice. */
  lemma CycleStillWrites(name: string, a: string, b: string)
    requires SysctlNameOk(name) && a != b
    ensures var j := OnlySysctls([Sysctl(name, a, b), Sysctl(name, b, a)]);
            Validate(j) == None && Settles(j) && HomesStay(j) && !HomesRest(j)
  {
    hide Settle;
    var r, q := Sysctl(name, a, b), Sysctl(name, b, a);
    var j := OnlySysctls([r, q]);
    OnlySysctlsAccepted([r, q]);
    SettleTwo(r, q, name, a);
    SettleTwo(r, q, name, b);
    assert r in j.sysctls && Home(j, r) == b == r.installed;
  }
}
