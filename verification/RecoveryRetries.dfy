/** Fail-closed over every history: when retries may be cut off anywhere and start over, a missing table
  * of the kill switch still means that everything else is undone, exactly for which journals. */
module RecoveryRetries {
  import opened Basics
  import opened Schema
  import opened RecoveryModel
  import opened RecoveryLaws
  import opened RecoveryConvergence
  import opened RecoveryIdempotence

  /** A host `s`, reached from `h`, whose kill switch is not whole any more has nothing else left to undo. */
  ghost predicate FailClosed(j: Journal, h: HostState, s: HostState) {
    s.nftables != h.nftables ==> s.(nftables := h.nftables) == RestoredButNFT(j, h)
  }

  /** However many recoveries of h fail or crash, wherever each of them is cut off. */
  ghost predicate AlwaysFailClosed(j: Journal, role: string, instanceID: string) {
    forall h: HostState, attempts: seq<Attempt> :: FailClosed(j, h, AfterAttempts(j, role, instanceID, h, attempts))
  }

  // ---------------------------------------------------------------- one more attempt

  /** Once everything but the kill switch is undone, resting records leave it so. */
  lemma UndoneStays(j: Journal, role: string, instanceID: string, h: HostState, u: HostState, a: Attempt)
    requires HomesRest(j) && u.(nftables := h.nftables) == RestoredButNFT(j, h)
    ensures AfterAttempt(j, role, instanceID, u, a).(nftables := h.nftables) == RestoredButNFT(j, h)
  {
    hide Recover, Replay, Writes, Settle;
    var trace := Recover(j, role, instanceID, u, a.oracle).trace;
    var n := Min(a.cut, |trace|);
    RestingStirsNot(j, h);
    assert u.sysctls == Restored(j, h).sysctls;
    assert !Stirs(j, u);
    FirstWrite(j, role, instanceID, u, a.oracle, n);
    QuietStaysPut(j, role, instanceID, u, a.oracle, n);
  }

  lemma AttemptStaysClosed(j: Journal, role: string, instanceID: string, h: HostState, u: HostState, a: Attempt)
    requires Settles(j) && HomesRest(j)
    requires FailClosed(j, h, u) && Restored(j, u) == Restored(j, h)
    ensures FailClosed(j, h, AfterAttempt(j, role, instanceID, u, a))
  {
    hide AfterAttempt, Restored, Settles, HomesRest;
    if u.nftables == h.nftables {
      NeverOpensEarly(j, role, instanceID, u, a);
    } else {
      UndoneStays(j, role, instanceID, h, u, a);
    }
  }

  lemma ClosedAtStart(j: Journal, h: HostState)
    ensures FailClosed(j, h, h)
  {}

  lemma {:induction false} StaysFailClosed(
      j: Journal, role: string, instanceID: string, h: HostState, attempts: seq<Attempt>)
    requires Settles(j) && HomesRest(j)
    ensures FailClosed(j, h, AfterAttempts(j, role, instanceID, h, attempts))
  {
    hide FailClosed, AfterAttempt, Restored, Settles, HomesRest;
    if attempts == [] {
      ClosedAtStart(j, h);
    } else {
      var n := |attempts| - 1;
      StaysFailClosed(j, role, instanceID, h, attempts[..n]);
      AttemptsKeepGoal(j, role, instanceID, h, attempts[..n]);
      AttemptStaysClosed(j, role, instanceID, h, AfterAttempts(j, role, instanceID, h, attempts[..n]), attempts[n]);
    }
  }

  // ---------------------------------------------------------------- when it fails

  lemma TwoAttempts(j: Journal, role: string, instanceID: string, h: HostState, a: Attempt, b: Attempt)
    ensures AfterAttempts(j, role, instanceID, h, [a, b])
         == AfterAttempt(j, role, instanceID, AfterAttempt(j, role, instanceID, h, a), b)
  {
    hide AfterAttempt;
    var attempts := [a, b];
    assert attempts[..1] == [a] && attempts[..1][..0] == [];
    assert AfterAttempts(j, role, instanceID, h, attempts[..1][..0]) == h;
    assert AfterAttempts(j, role, instanceID, h, attempts[..1]) == AfterAttempt(j, role, instanceID, h, a);
  }

  /** An attempt that nothing disturbs. */
  function Whole(j: Journal, role: string, instanceID: string, h: HostState): Attempt {
    Attempt([], |Recover(j, role, instanceID, h, []).trace|)
  }

  lemma WholeAttempt(j: Journal, role: string, instanceID: string, h: HostState)
    requires Accepted(j, role, instanceID) && Readable(j, h)
    ensures AfterAttempt(j, role, instanceID, h, Whole(j, role, instanceID, h)) == Restored(j, h)
  {
    hide Recover;
    var trace := Recover(j, role, instanceID, h, []).trace;
    assert trace[..|trace|] == trace;
    RunReplays(j, role, instanceID, h, []);
    UndisturbedRun(j, role, instanceID, h);
  }

  /** The host of the i-th record, with the journal's kill switch in place. */
  ghost function Guarded(j: Journal, i: nat): HostState
    requires i < |j.sysctls|
  {
    HostWith(j, i).(nftables := set t | t in j.nftables)
  }

  lemma GuardedReads(j: Journal, i: nat)
    requires i < |j.sysctls|
    ensures Readable(j, Guarded(j, i)) && Guarded(j, i).sysctls[j.sysctls[i].name] == j.sysctls[i].installed
    ensures Restored(j, Guarded(j, i)).nftables == {}
    ensures Restored(j, Guarded(j, i)).sysctls[j.sysctls[i].name] == Home(j, j.sysctls[i])
  {
    assert j.sysctls[i] in j.sysctls;
    assert Restored(j, Guarded(j, i)).nftables == {};
  }

  /** A record that does not settle: one crash right after it is written, and the next recovery opens
    * the kill switch with the sysctl somewhere else. */
  lemma UnsettledOpens(j: Journal, role: string, instanceID: string, i: nat)
    requires Accepted(j, role, instanceID) && j.nftables != [] && i < |j.sysctls|
    requires var r := j.sysctls[i]; Settle(j.sysctls, r.name, r.prior) != Settle(j.sysctls, r.name, r.installed)
    ensures !AlwaysFailClosed(j, role, instanceID)
  {
    hide Settle, Recover, AfterAttempt, AfterAttempts;
    var h, r := Guarded(j, i), j.sysctls[i];
    GuardedReads(j, i);
    var n := |j.routes| + |j.rules| + |ResolverSteps(j)| + i;
    var o := Fails(n) + [Ok, Ok];
    CrashPoint(j, role, instanceID, h, i, o, n);
    var u := h.(sysctls := h.sysctls[r.name := r.prior]);
    assert Readable(j, u);
    WholeAttempt(j, role, instanceID, u);
    var b := Whole(j, role, instanceID, u);
    TwoAttempts(j, role, instanceID, h, Attempt(o, n + 2), b);
    var s := Restored(j, u);
    assert s.nftables == Restored(j, h).nftables == {};
    assert j.nftables[0] in h.nftables;
    assert s.sysctls[r.name] != Restored(j, h).sysctls[r.name];
    assert !FailClosed(j, h, AfterAttempts(j, role, instanceID, h, [Attempt(o, n + 2), b]));
  }

  /** Records that do not rest: after a whole recovery has opened the kill switch, the next one changes
    * the sysctl again. */
  lemma RestlessOpens(j: Journal, role: string, instanceID: string, i: nat, k: Sysctl)
    requires Accepted(j, role, instanceID) && j.nftables != [] && i < |j.sysctls|
    requires k in j.sysctls && k.name == j.sysctls[i].name && Home(j, j.sysctls[i]) == k.installed != k.prior
    ensures !AlwaysFailClosed(j, role, instanceID)
  {
    hide Settle, Recover, AfterAttempt, AfterAttempts, Replay, Writes;
    var h := Guarded(j, i);
    GuardedReads(j, i);
    TwoRuns(j, role, instanceID, h);
    WholeAttempt(j, role, instanceID, h);
    var s := Restored(j, h);
    StirsBy(j, s, k);
    WritesIff(j, role, instanceID, s);
    WriteShows(j, role, instanceID, s);
    var trace := Recover(j, role, instanceID, s, []).trace;
    var m :| 0 <= m <= |trace| && Replay(s, trace[..m]).sysctls != s.sysctls;
    var a, b := Whole(j, role, instanceID, h), Attempt([], m);
    TwoAttempts(j, role, instanceID, h, a, b);
    SwitchOnlyShrinks(j, role, instanceID, s, b);
    CutAt(j, role, instanceID, s, m);
    assert j.nftables[0] in h.nftables;
    assert !FailClosed(j, h, AfterAttempts(j, role, instanceID, h, [a, b]));
  }

  lemma CutAt(j: Journal, role: string, instanceID: string, s: HostState, m: nat)
    requires m <= |Recover(j, role, instanceID, s, []).trace|
    ensures AfterAttempt(j, role, instanceID, s, Attempt([], m))
         == Replay(s, Recover(j, role, instanceID, s, []).trace[..m])
  {}

  lemma SwitchOnlyShrinks(j: Journal, role: string, instanceID: string, s: HostState, a: Attempt)
    ensures AfterAttempt(j, role, instanceID, s, a).nftables <= s.nftables
  {
    hide AfterAttempt;
    var attempts := [a];
    OnlyOwnedChanges(j, role, instanceID, s, attempts);
    assert attempts[..0] == [] && AfterAttempts(j, role, instanceID, s, attempts[..0]) == s;
    assert AfterAttempts(j, role, instanceID, s, attempts) == AfterAttempt(j, role, instanceID, s, a);
  }

  /** Without a kill switch there is nothing to open. */
  lemma NoSwitchNoHarm(j: Journal, role: string, instanceID: string, h: HostState, attempts: seq<Attempt>)
    requires j.nftables == []
    ensures AfterAttempts(j, role, instanceID, h, attempts).nftables == h.nftables
  {
    var s := AfterAttempts(j, role, instanceID, h, attempts);
    OnlyOwnedChanges(j, role, instanceID, h, attempts);
    assert forall t <- h.nftables :: t !in j.nftables;
  }

  /** Over every history of failed and crashed recoveries a missing kill-switch table means that all the
    * rest is undone: exactly for journals without a kill switch, and for those whose sysctl records
    * settle and rest, which distinct names ensure. */
  lemma AlwaysFailClosedIff(j: Journal, role: string, instanceID: string)
    requires Accepted(j, role, instanceID)
    ensures AlwaysFailClosed(j, role, instanceID) <==> j.nftables == [] || (Settles(j) && HomesRest(j))
  {
    hide AfterAttempts, Restored, Settle;
    if j.nftables == [] || (Settles(j) && HomesRest(j)) {
      forall h: HostState, attempts: seq<Attempt>
        ensures FailClosed(j, h, AfterAttempts(j, role, instanceID, h, attempts))
      {
        if j.nftables == [] { NoSwitchNoHarm(j, role, instanceID, h, attempts); }
        else { StaysFailClosed(j, role, instanceID, h, attempts); }
      }
    } else if !Settles(j) {
      var r :| r in j.sysctls && Settle(j.sysctls, r.name, r.prior) != Settle(j.sysctls, r.name, r.installed);
      var i :| 0 <= i < |j.sysctls| && j.sysctls[i] == r;
      UnsettledOpens(j, role, instanceID, i);
    } else {
      var r, k :| r in j.sysctls && k in j.sysctls && r.name == k.name && Home(j, r) == k.installed != k.prior;
      var i :| 0 <= i < |j.sysctls| && j.sysctls[i] == r;
      RestlessOpens(j, role, instanceID, i, k);
    }
  }
}
