/** What WriteTo reports, as a function of which of its calls fail. */
module StoreOutcomes {
  import opened Basics
  import opened StoreModel
  import opened StoreLaws

  /** How the i-th call ends. */
  function Nth(o: Oracle, i: nat): Outcome { if i < |o| then o[i] else Ok }

  /** Create, chmod, write, sync, close, rename, open the directory, sync it: what a failure is reported
    * as, and how many calls have been made when it is. The cleanup closes the file, while it is open, and
    * removes it, until the rename has happened. */
  const ERRORS: seq<Error> :=
    [CreateFailed, ChmodFailed, WriteFailed, SyncFailed, CloseFailed, RenameFailed, OpenDirFailed, SyncDirFailed]
  const CALLS: seq<nat> := [1, 4, 5, 6, 6, 7, 7, 8]

  /** The i-th call is the first that is not taken for a success. */
  predicate FailsFirst(o: Oracle, i: nat) {
    && i < 8
    && (forall k | 0 <= k < i :: Nth(o, k) == Ok)
    && Nth(o, i) != Ok && !(i == 7 && Nth(o, i) == Einval)
  }

  predicate NoneFails(o: Oracle) { (forall k | 0 <= k < 7 :: Nth(o, k) == Ok) && Nth(o, 7) != Fails }

  /** Reports the failure of the i-th call, after its cleanup. */
  ghost predicate Reports(o: Oracle, r: Run, i: nat)
    requires i < 8
  {
    && r.error == Some(ERRORS[i]) && |r.states| == CALLS[i] && !r.tolerated
    && (r.removed <==> 1 <= i <= 5 && Nth(o, CALLS[i] - 1) == Ok)
  }

  ghost predicate Succeeds(o: Oracle, r: Run) {
    r.error == None && |r.states| == 8 && (r.tolerated <==> Nth(o, 7) == Einval) && !r.removed
  }

  lemma FinishReports(p: Progress, o: Oracle)
    requires |p.states| == 6 && forall k | 0 <= k < 6 :: Nth(o, k) == Ok
    ensures forall i: nat | FailsFirst(o, i) :: Reports(o, FinishDir(p, o), i)
    ensures NoneFails(o) ==> Succeeds(o, FinishDir(p, o))
  {
    var dirOpen, synced := Nth(o, 6), Nth(o, 7);
    assert dirOpen == Outcomes(o, p) && synced == Outcomes(o, Do(p, p.fs));
    forall i: nat | FailsFirst(o, i) ensures Reports(o, FinishDir(p, o), i) { assert i == 6 || i == 7; }
  }

  lemma DiscardReports(p: Progress, o: Oracle, tmp: Name, e: Error)
    ensures var r := Discard(p, o, tmp, e);
            r.error == Some(e) && |r.states| == |p.states| + 1 && !r.tolerated
            && (r.removed <==> Nth(o, |p.states|) == Ok)
  {}

  lemma CleanupReports(p: Progress, o: Oracle, tmp: Name, e: Error)
    ensures var r := Cleanup(p, o, tmp, e);
            r.error == Some(e) && |r.states| == |p.states| + 2 && !r.tolerated
            && (r.removed <==> Nth(o, |p.states| + 1) == Ok)
  {
    DiscardReports(Do(p, p.fs), o, tmp, e);
  }

  lemma OnlyFirst(o: Oracle, i: nat, k: nat)
    requires FailsFirst(o, i) && FailsFirst(o, k)
    ensures i == k
  {
    var a, b := Nth(o, i), Nth(o, k);
  }

  lemma ReplaceReports(p: Progress, o: Oracle, tmp: Name, path: Name)
    requires tmp in p.fs.dir && |p.states| == 5 && forall k | 0 <= k < 5 :: Nth(o, k) == Ok
    ensures forall i: nat | FailsFirst(o, i) :: Reports(o, Replace(p, o, tmp, path), i)
    ensures NoneFails(o) ==> Succeeds(o, Replace(p, o, tmp, path))
  {
    hide FinishDir, Discard, Rename, Reports, Succeeds;
    if Nth(o, 5) != Ok {
      assert FailsFirst(o, 5);
      DiscardReports(Do(p, p.fs), o, tmp, RenameFailed);
      ReportsFifth(o, Replace(p, o, tmp, path));
      forall i: nat | FailsFirst(o, i) ensures i == 5 { OnlyFirst(o, i, 5); }
    } else {
      FinishReports(Do(p, Rename(p.fs, tmp, path)), o);
    }
  }

  lemma ReportsFifth(o: Oracle, r: Run)
    requires r.error == Some(RenameFailed) && |r.states| == 7 && !r.tolerated && (r.removed <==> Nth(o, 6) == Ok)
    ensures Reports(o, r, 5)
  {}

  lemma FillReports(p: Progress, o: Oracle, tmp: Name, path: Name, data: Bytes)
    requires tmp in p.fs.dir && p.fs.dir[tmp] in p.fs.inodes && |p.states| == 1 && Nth(o, 0) == Ok
    ensures forall i: nat | FailsFirst(o, i) :: Reports(o, Fill(p, o, tmp, path, data), i)
    ensures NoneFails(o) ==> Succeeds(o, Fill(p, o, tmp, path, data))
  {
    hide Replace, Cleanup, Discard, WriteFile, Reports, Succeeds;
    var r := Fill(p, o, tmp, path, data);
    if n: nat :| n < 5 && Nth(o, n) != Ok {
      var i := FirstBad(o, n);
      FillFails(p, o, tmp, path, data, i);
      forall k: nat | FailsFirst(o, k) ensures k == i { OnlyFirst(o, i, k); }
      assert Nth(o, i) != Ok;
    } else {
      var q := Filled(p, o, tmp, path, data);
      ReplaceReports(q, o, tmp, path);
    }
  }

  /** The progress with which the replacing starts. */
  lemma Filled(p: Progress, o: Oracle, tmp: Name, path: Name, data: Bytes) returns (q: Progress)
    requires tmp in p.fs.dir && p.fs.dir[tmp] in p.fs.inodes && |p.states| == 1
    requires forall k | 0 <= k < 5 :: Nth(o, k) == Ok
    ensures |q.states| == 5 && tmp in q.fs.dir && Fill(p, o, tmp, path, data) == Replace(q, o, tmp, path)
  {
    hide Replace, Cleanup, Discard;
    var i := p.fs.dir[tmp];
    var t := SyncFile(WriteFile(p.fs, i, data), i);
    q := Progress(t, p.states + [p.fs] + [WriteFile(p.fs, i, data)] + [t] + [t]);
    assert Nth(o, 1) == Nth(o, 2) == Nth(o, 3) == Nth(o, 4) == Ok;
  }

  lemma FillFails(p: Progress, o: Oracle, tmp: Name, path: Name, data: Bytes, i: nat)
    requires tmp in p.fs.dir && p.fs.dir[tmp] in p.fs.inodes && |p.states| == 1
    requires 1 <= i < 5 && FailsFirst(o, i)
    ensures Reports(o, Fill(p, o, tmp, path, data), i)
  {
    hide Replace, Cleanup, Discard;
    var f := p.fs.dir[tmp];
    var p1 := Do(p, p.fs);
    var p2 := Do(p1, WriteFile(p1.fs, f, data));
    var p3 := Do(p2, SyncFile(p2.fs, f));
    if i == 1 {
      CleanupReports(p1, o, tmp, ChmodFailed);
    } else if i == 2 {
      assert Nth(o, 1) == Ok;
      CleanupReports(Do(p1, WriteFile(p1.fs, f, [])), o, tmp, WriteFailed);
    } else if i == 3 {
      assert Nth(o, 1) == Nth(o, 2) == Ok;
      CleanupReports(Do(p2, p2.fs), o, tmp, SyncFailed);
    } else {
      assert Nth(o, 1) == Nth(o, 2) == Nth(o, 3) == Ok;
      DiscardReports(Do(p3, p3.fs), o, tmp, CloseFailed);
    }
  }

  /** WriteTo succeeds exactly when its first seven calls do and the eighth, the sync of the directory,
    * succeeds or is refused with EINVAL; only the latter is tolerated. Any other failure is reported as
    * that of the first call that failed, after the cleanup that goes with it. */
  lemma OutcomeIff(s: FS, o: Oracle, tmp: Name, path: Name, data: Bytes)
    requires CanWrite(s, tmp, path)
    ensures var r := WriteTo(s, o, tmp, path, data);
            && (r.error == None <==> NoneFails(o))
            && (r.error == None ==> Succeeds(o, r))
            && (r.tolerated <==> NoneFails(o) && Nth(o, 7) == Einval)
            && (forall i: nat | i < 8 :: r.error == Some(ERRORS[i]) <==> FailsFirst(o, i))
            && (forall i: nat | FailsFirst(o, i) :: Reports(o, r, i))
  {
    hide Fill;
    var r := WriteTo(s, o, tmp, path, data);
    if Nth(o, 0) == Ok {
      CreateTemp(s, tmp);
      FillReports(Do(Progress(s, []), Create(s, tmp)), o, tmp, path, data);
    } else {
      assert FailsFirst(o, 0);
      forall i: nat | FailsFirst(o, i) ensures i == 0 { OnlyFirst(o, i, 0); }
    }
    SomeOutcome(o);
    if !NoneFails(o) {
      var i: nat :| FailsFirst(o, i);
      assert Reports(o, r, i);
    }
    forall i: nat | i < 8 ensures r.error == Some(ERRORS[i]) <==> FailsFirst(o, i) {
      if k: nat :| FailsFirst(o, k) {
        assert Reports(o, r, k);
        ErrorsDiffer(i, k);
      }
    }
  }

  /** A write that succeeds leaves no temporary file. */
  lemma SuccessLeavesNoTemp(s: FS, o: Oracle, tmp: Name, path: Name, data: Bytes)
    requires CanWrite(s, tmp, path) && WriteTo(s, o, tmp, path, data).error == None
    ensures tmp !in WriteTo(s, o, tmp, path, data).fs.dir
  {
    OutcomeIff(s, o, tmp, path, data);
    assert Nth(o, 0) == Nth(o, 5) == Ok;
    CreateTemp(s, tmp);
    hide Fill, Replace;
    var q := Filled(Do(Progress(s, []), Create(s, tmp)), o, tmp, path, data);
    RenamedAway(q, o, tmp, path);
  }

  lemma RenamedAway(p: Progress, o: Oracle, tmp: Name, path: Name)
    requires tmp in p.fs.dir && Outcomes(o, p) == Ok
    ensures tmp !in Replace(p, o, tmp, path).fs.dir
  {}

  lemma ErrorsDiffer(i: nat, k: nat)
    requires i < 8 && k < 8
    ensures ERRORS[i] == ERRORS[k] <==> i == k
  {}

  lemma SomeOutcome(o: Oracle)
    ensures NoneFails(o) <==> !exists i: nat :: FailsFirst(o, i)
  {
    if !NoneFails(o) {
      if k: nat :| k < 7 && Nth(o, k) != Ok {
        var i := FirstBad(o, k);
      } else {
        assert FailsFirst(o, 7);
      }
    }
  }

  lemma {:induction false} FirstBad(o: Oracle, k: nat) returns (i: nat)
    requires k < 7 && Nth(o, k) != Ok
    ensures FailsFirst(o, i) && i <= k
  {
    if m: nat :| m < k && Nth(o, m) != Ok { i := FirstBad(o, m); } else { i := k; }
  }
}
