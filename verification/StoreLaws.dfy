/** The promises of WriteTo. */
module StoreLaws {
  import opened Basics
  import opened StoreModel

  /** `t` differs from `s` at most in `tmp` and in files that `s` does not have. */
  ghost predicate OnlyTemp(s: FS, t: FS, tmp: Name) {
    && Valid(t)
    && s.inodes.Keys <= t.inodes.Keys && (forall i <- s.inodes :: t.inodes[i] == s.inodes[i])
    && (forall name: Name | name != tmp :: Entry(t, name) == Entry(s, name) && Maybe(t, name) == Maybe(s, name))
  }

  /** The temporary file is in use and is none of the files of `s`. */
  ghost predicate HasTemp(s: FS, t: FS, tmp: Name) {
    OnlyTemp(s, t, tmp) && tmp in t.dir && t.dir[tmp] in t.inodes && t.dir[tmp] !in s.inodes
  }

  lemma SetEntryValid(s: FS, name: Name, e: Option<nat>)
    requires Valid(s) && (e.Some? ==> e.value in s.inodes)
    ensures var t := SetEntry(s, name, e);
            Valid(t) && Entry(t, name) == e && Maybe(t, name) == Maybe(s, name) + {e}
    ensures var t := SetEntry(s, name, e);
            forall n: Name | n != name :: Entry(t, n) == Entry(s, n) && Maybe(t, n) == Maybe(s, n)
  {
    var t := SetEntry(s, name, e);
    forall n: Name, f | f in Maybe(t, n) && f.Some? ensures f.value in t.inodes {
      if f !in Maybe(s, n) { assert f == e; }
    }
    forall n: Name ensures Entry(t, n) in Maybe(t, n) {
      if n != name { assert Entry(t, n) == Entry(s, n) && Maybe(t, n) == Maybe(s, n); }
    }
  }

  lemma CreateTemp(s: FS, tmp: Name)
    requires Valid(s)
    ensures HasTemp(s, Create(s, tmp), tmp)
  {
    var t := Create(s, tmp);
    var u := s.(inodes := s.inodes[s.next := Inode([], false)], next := s.next + 1);
    assert Valid(u) by {
      assert forall n: Name :: Entry(u, n) == Entry(s, n) && Maybe(u, n) == Maybe(s, n);
    }
    SetEntryValid(u, tmp, Some(s.next));
    assert forall name: Name | name != tmp :: Entry(t, name) == Entry(s, name) && Maybe(t, name) == Maybe(s, name);
  }

  lemma WriteTemp(s: FS, t: FS, tmp: Name, n: Inode)
    requires HasTemp(s, t, tmp)
    ensures HasTemp(s, t.(inodes := t.inodes[t.dir[tmp] := n]), tmp)
  {
    var u := t.(inodes := t.inodes[t.dir[tmp] := n]);
    assert forall name: Name :: Entry(u, name) == Entry(t, name) && Maybe(u, name) == Maybe(t, name);
  }

  lemma UnlinkTemp(s: FS, t: FS, tmp: Name)
    requires HasTemp(s, t, tmp)
    ensures OnlyTemp(s, Unlink(t, tmp), tmp)
  {
    SetEntryValid(t, tmp, None);
  }

  /** As long as only the temporary file changes, readers of path and crashes see no difference. */
  lemma OnlyTempKeepsPath(s: FS, t: FS, tmp: Name, path: Name, c: Option<Bytes>)
    requires Valid(s) && OnlyTemp(s, t, tmp) && path != tmp
    ensures MayRead(t, path, c) <==> MayRead(s, path, c)
    ensures Read(t, path) == Read(s, path)
  {
    assert Entry(t, path) == Entry(s, path) && Maybe(t, path) == Maybe(s, path);
  }

  // ---------------------------------------------------------------- the run, stretch by stretch

  ghost predicate AllOnlyTemp(s: FS, states: seq<FS>, tmp: Name) {
    forall i | 0 <= i < |states| :: OnlyTemp(s, states[i], tmp)
  }

  /** After the rename: path leads to the new file, whose data is durable, and a crash may still
    * bring back what could be found before. */
  ghost predicate Replaced(s: FS, t: FS, path: Name, data: Bytes) {
    && Valid(t)
    && s.inodes.Keys <= t.inodes.Keys && (forall i <- s.inodes :: t.inodes[i] == s.inodes[i])
    && path in t.dir && t.dir[path] in t.inodes && t.inodes[t.dir[path]] == Inode(data, true)
    && (Maybe(t, path) == Maybe(s, path) + {Some(t.dir[path])} || Maybe(t, path) == {Some(t.dir[path])})
  }

  ghost predicate AllReplaced(s: FS, states: seq<FS>, from: nat, path: Name, data: Bytes) {
    forall i | from <= i < |states| :: Replaced(s, states[i], path, data)
  }

  lemma DiscardKeeps(s: FS, p: Progress, o: Oracle, tmp: Name, e: Error)
    requires Valid(s) && HasTemp(s, p.fs, tmp) && AllOnlyTemp(s, p.states, tmp)
    ensures var r := Discard(p, o, tmp, e);
            AllOnlyTemp(s, r.states, tmp) && OnlyTemp(s, r.fs, tmp) && r.error == Some(e)
            && (r.removed ==> tmp !in r.fs.dir) && r.states != [] && r.fs == r.states[|r.states| - 1]
  {
    hide OnlyTemp;
    UnlinkTemp(s, p.fs, tmp);
    assert OnlyTemp(s, p.fs, tmp) by { TempIsOnly(s, p.fs, tmp); }
  }

  lemma TempIsOnly(s: FS, t: FS, tmp: Name)
    requires HasTemp(s, t, tmp)
    ensures OnlyTemp(s, t, tmp)
  {}

  lemma CleanupKeeps(s: FS, p: Progress, o: Oracle, tmp: Name, e: Error)
    requires Valid(s) && HasTemp(s, p.fs, tmp) && AllOnlyTemp(s, p.states, tmp)
    ensures var r := Cleanup(p, o, tmp, e);
            AllOnlyTemp(s, r.states, tmp) && OnlyTemp(s, r.fs, tmp) && r.error == Some(e)
            && (r.removed ==> tmp !in r.fs.dir) && r.states != [] && r.fs == r.states[|r.states| - 1]
  {
    hide OnlyTemp;
    TempIsOnly(s, p.fs, tmp);
    DiscardKeeps(s, Do(p, p.fs), o, tmp, e);
  }

  lemma RenameReplaces(s: FS, t: FS, tmp: Name, path: Name, data: Bytes)
    requires Valid(s) && HasTemp(s, t, tmp) && path != tmp && t.inodes[t.dir[tmp]] == Inode(data, true)
    ensures Replaced(s, Rename(t, tmp, path), path, data)
    ensures Maybe(Rename(t, tmp, path), path) == Maybe(s, path) + {Some(t.dir[tmp])}
  {
    SetEntryValid(t, path, Some(t.dir[tmp]));
    SetEntryValid(SetEntry(t, path, Some(t.dir[tmp])), tmp, None);
    assert Maybe(t, path) == Maybe(s, path);
    assert Entry(Rename(t, tmp, path), path) == Some(t.dir[tmp]);
  }

  lemma SyncDirReplaces(s: FS, t: FS, path: Name, data: Bytes)
    requires Replaced(s, t, path, data)
    ensures Replaced(s, SyncDir(t), path, data) && Maybe(SyncDir(t), path) == {Some(t.dir[path])}
  {
    var u := SyncDir(t);
    assert forall name: Name :: Entry(u, name) == Entry(t, name);
    forall name: Name ensures Maybe(u, name) == {Entry(u, name)} {
      if name !in s.maybe && name !in t.dir { assert Entry(u, name) == None; }
    }
  }

  /** The shape of every run: until the rename only the temporary file changes; from then on path is
    * replaced. `n` is the number of states before the rename took place. */
  ghost predicate Shape(s: FS, r: Run, tmp: Name, path: Name, data: Bytes, n: nat) {
    && n <= |r.states| && r.states != [] && r.fs == r.states[|r.states| - 1]
    && AllOnlyTemp(s, r.states[..n], tmp)
    && AllReplaced(s, r.states, n, path, data)
    && (n == |r.states| <==> r.error.Some? && !r.error.value.OpenDirFailed? && !r.error.value.SyncDirFailed?)
    && (r.removed ==> tmp !in r.fs.dir)
    && (r.error == None && r.tolerated ==> Maybe(r.fs, path) == Maybe(s, path) + {Entry(r.fs, path)})
    && (r.error == None && !r.tolerated ==> Maybe(r.fs, path) == {Entry(r.fs, path)})
  }

  lemma FinishDirShape(s: FS, p: Progress, o: Oracle, tmp: Name, path: Name, data: Bytes, n: nat)
    requires n < |p.states| && p.fs == p.states[|p.states| - 1]
    requires AllOnlyTemp(s, p.states[..n], tmp) && AllReplaced(s, p.states, n, path, data)
    requires Maybe(p.fs, path) == Maybe(s, path) + {Entry(p.fs, path)}
    ensures Shape(s, FinishDir(p, o), tmp, path, data, n)
  {
    hide OnlyTemp;
    assert Replaced(s, p.fs, path, data);
    SyncDirReplaces(s, p.fs, path, data);
    var r := FinishDir(p, o);
    assert r.states[..n] == p.states[..n];
  }

  lemma ReplaceShape(s: FS, p: Progress, o: Oracle, tmp: Name, path: Name, data: Bytes)
    requires Valid(s) && HasTemp(s, p.fs, tmp) && path != tmp && AllOnlyTemp(s, p.states, tmp)
    requires p.fs.inodes[p.fs.dir[tmp]] == Inode(data, true)
    ensures exists n :: Shape(s, Replace(p, o, tmp, path), tmp, path, data, n)
  {
    hide OnlyTemp;
    TempIsOnly(s, p.fs, tmp);
    var r := Replace(p, o, tmp, path);
    if Outcomes(o, p) != Ok {
      DiscardKeeps(s, Do(p, p.fs), o, tmp, RenameFailed);
      WholeShape(s, r, tmp, path, data);
    } else {
      RenameReplaces(s, p.fs, tmp, path, data);
      var q := Do(p, Rename(p.fs, tmp, path));
      assert q.states[..|p.states|] == p.states;
      FinishDirShape(s, q, o, tmp, path, data, |p.states|);
    }
  }

  lemma WholeShape(s: FS, r: Run, tmp: Name, path: Name, data: Bytes)
    requires AllOnlyTemp(s, r.states, tmp) && r.error.Some?
    requires !r.error.value.OpenDirFailed? && !r.error.value.SyncDirFailed?
    requires (r.removed ==> tmp !in r.fs.dir) && r.states != [] && r.fs == r.states[|r.states| - 1]
    ensures Shape(s, r, tmp, path, data, |r.states|)
  {
    assert r.states[..|r.states|] == r.states;
  }

  lemma FillShape(s: FS, p: Progress, o: Oracle, tmp: Name, path: Name, data: Bytes)
    requires Valid(s) && HasTemp(s, p.fs, tmp) && path != tmp && AllOnlyTemp(s, p.states, tmp)
    ensures exists n :: Shape(s, Fill(p, o, tmp, path, data), tmp, path, data, n)
  {
    hide OnlyTemp, Replace, Cleanup, Discard, Shape;
    var i := p.fs.dir[tmp];
    var r := Fill(p, o, tmp, path, data);
    var p1 := Do(p, p.fs);
    TempIsOnly(s, p.fs, tmp);
    if Outcomes(o, p) != Ok {
      CleanupKeeps(s, p1, o, tmp, ChmodFailed);
      WholeShape(s, r, tmp, path, data);
      return;
    }
    WriteTemp(s, p1.fs, tmp, Inode([], false));
    WriteTemp(s, p1.fs, tmp, Inode(data, false));
    TempIsOnly(s, WriteFile(p1.fs, i, []), tmp);
    TempIsOnly(s, WriteFile(p1.fs, i, data), tmp);
    if Outcomes(o, p1) != Ok {
      CleanupKeeps(s, Do(p1, WriteFile(p1.fs, i, [])), o, tmp, WriteFailed);
      WholeShape(s, r, tmp, path, data);
      return;
    }
    var p2 := Do(p1, WriteFile(p1.fs, i, data));
    if Outcomes(o, p2) != Ok {
      CleanupKeeps(s, Do(p2, p2.fs), o, tmp, SyncFailed);
      WholeShape(s, r, tmp, path, data);
      return;
    }
    var p3 := Do(p2, SyncFile(p2.fs, i));
    WriteTemp(s, p2.fs, tmp, Inode(data, true));
    TempIsOnly(s, p3.fs, tmp);
    if Outcomes(o, p3) != Ok {
      DiscardKeeps(s, Do(p3, p3.fs), o, tmp, CloseFailed);
      WholeShape(s, r, tmp, path, data);
    } else {
      ReplaceShape(s, Do(p3, p3.fs), o, tmp, path, data);
    }
  }

  lemma RunShape(s: FS, o: Oracle, tmp: Name, path: Name, data: Bytes) returns (n: nat)
    requires CanWrite(s, tmp, path)
    ensures Shape(s, WriteTo(s, o, tmp, path, data), tmp, path, data, n)
  {
    var p := Progress(s, []);
    if Outcomes(o, p) != Ok {
      assert OnlyTemp(s, s, tmp);
      WholeShape(s, WriteTo(s, o, tmp, path, data), tmp, path, data);
      n := 1;
    } else {
      CreateTemp(s, tmp);
      var q := Do(p, Create(s, tmp));
      assert AllOnlyTemp(s, q.states, tmp);
      FillShape(s, q, o, tmp, path, data);
      n :| Shape(s, WriteTo(s, o, tmp, path, data), tmp, path, data, n);
    }
  }

  // ---------------------------------------------------------------- the promises

  lemma ReplacedReads(s: FS, t: FS, path: Name, data: Bytes, c: Option<Bytes>)
    requires Valid(s) && Replaced(s, t, path, data)
    ensures Read(t, path) == Some(data)
    ensures MayRead(t, path, c) ==> MayRead(s, path, c) || c == Some(data)
    ensures Maybe(t, path) == {Some(t.dir[path])} ==> (MayRead(t, path, c) <==> c == Some(data))
    ensures Maybe(t, path) == Maybe(s, path) + {Some(t.dir[path])} ==>
              (MayRead(t, path, c) <==> MayRead(s, path, c) || c == Some(data))
  {
    var e := Some(t.dir[path]);
    assert e in Maybe(t, path);
    if MayRead(s, path, c) {
      var f :| f in Maybe(s, path) &&
        match f
        case None => c == None
        case Some(i) => i in s.inodes && c.Some? && (s.inodes[i].stable ==> c.value == s.inodes[i].data);
      if Maybe(t, path) == Maybe(s, path) + {e} { assert f in Maybe(t, path); }
    }
  }

  /** A crash after any call of WriteTo leaves at path what a crash could have left there before, or
    * the complete new data; and a reader at any time finds the old data or the complete new data. */
  lemma CrashSafe(s: FS, o: Oracle, tmp: Name, path: Name, data: Bytes, k: nat, c: Option<Bytes>)
    requires CanWrite(s, tmp, path) && k < |WriteTo(s, o, tmp, path, data).states|
    ensures var t := WriteTo(s, o, tmp, path, data).states[k];
            && (MayRead(t, path, c) ==> MayRead(s, path, c) || c == Some(data))
            && (Read(t, path) == Read(s, path) || Read(t, path) == Some(data))
  {
    hide WriteTo;
    var n := RunShape(s, o, tmp, path, data);
    var r := WriteTo(s, o, tmp, path, data);
    if k < n {
      assert r.states[..n][k] == r.states[k];
      OnlyTempKeepsPath(s, r.states[k], tmp, path, c);
    } else {
      ReplacedReads(s, r.states[k], path, data, c);
    }
  }

  /** Every error up to and including the rename leaves path exactly as it was, for readers and for
    * crashes, and, when the cleanup's remove succeeds, no temporary file. */
  lemma EarlyErrorChangesNothing(s: FS, o: Oracle, tmp: Name, path: Name, data: Bytes, c: Option<Bytes>)
    requires CanWrite(s, tmp, path)
    requires var e := WriteTo(s, o, tmp, path, data).error;
             e.Some? && !e.value.OpenDirFailed? && !e.value.SyncDirFailed?
    ensures var r := WriteTo(s, o, tmp, path, data);
            && (MayRead(r.fs, path, c) <==> MayRead(s, path, c))
            && Read(r.fs, path) == Read(s, path)
            && (r.removed ==> tmp !in r.fs.dir)
  {
    hide WriteTo;
    var n := RunShape(s, o, tmp, path, data);
    var r := WriteTo(s, o, tmp, path, data);
    assert r.states[..n][n - 1] == r.fs;
    OnlyTempKeepsPath(s, r.fs, tmp, path, c);
  }

  /** After a success a reader finds the new data. It survives a crash exactly when the directory was
    * really synced, or a crash could have left nothing else there to begin with. */
  lemma SuccessIsDurableIff(s: FS, o: Oracle, tmp: Name, path: Name, data: Bytes)
    requires CanWrite(s, tmp, path) && WriteTo(s, o, tmp, path, data).error == None
    ensures var r := WriteTo(s, o, tmp, path, data);
            && Read(r.fs, path) == Some(data)
            && MayRead(r.fs, path, Some(data))
            && ((forall c :: MayRead(r.fs, path, c) ==> c == Some(data)) <==>
                  !r.tolerated || (forall c :: MayRead(s, path, c) ==> c == Some(data)))
  {
    hide WriteTo;
    var n := RunShape(s, o, tmp, path, data);
    var r := WriteTo(s, o, tmp, path, data);
    assert Replaced(s, r.fs, path, data);
    forall c: Option<Bytes>
      ensures MayRead(r.fs, path, c) <==> (r.tolerated && MayRead(s, path, c)) || c == Some(data)
    {
      ReplacedReads(s, r.fs, path, data, c);
    }
  }

  /** Every call succeeds, but the directory sync is refused. */
  const UNSYNCED: Oracle := [Ok, Ok, Ok, Ok, Ok, Ok, Ok, Einval]

  /** Such a write succeeds, and whatever a crash could have left at path before it still may. */
  lemma ToleratedSyncForgets(s: FS, tmp: Name, path: Name, data: Bytes, c: Option<Bytes>)
    requires CanWrite(s, tmp, path) && MayRead(s, path, c)
    ensures var r := WriteTo(s, UNSYNCED, tmp, path, data);
            r.error == None && r.tolerated && Read(r.fs, path) == Some(data) && MayRead(r.fs, path, c)
  {
    var r := WriteTo(s, UNSYNCED, tmp, path, data);
    UnsyncedRun(s, tmp, path, data);
    hide WriteTo, MayRead;
    var n := RunShape(s, UNSYNCED, tmp, path, data);
    assert Replaced(s, r.fs, path, data);
    ReplacedReads(s, r.fs, path, data, c);
  }

  lemma UnsyncedRun(s: FS, tmp: Name, path: Name, data: Bytes)
    requires CanWrite(s, tmp, path)
    ensures var r := WriteTo(s, UNSYNCED, tmp, path, data); r.error == None && r.tolerated
  {
    var t := Create(s, tmp);
    assert tmp in t.dir && t.dir[tmp] in t.inodes;
    hide Fill;
    UnsyncedFill(Do(Progress(s, []), t), tmp, path, data);
  }

  lemma UnsyncedFill(p: Progress, tmp: Name, path: Name, data: Bytes)
    requires |p.states| == 1 && tmp in p.fs.dir && p.fs.dir[tmp] in p.fs.inodes
    ensures var r := Fill(p, UNSYNCED, tmp, path, data); r.error == None && r.tolerated
  {
    hide SetEntry, Rename, SyncDir, Unlink, Cleanup, Discard, Replace;
    var i := p.fs.dir[tmp];
    var t := SyncFile(WriteFile(p.fs, i, data), i);
    UnsyncedReplace(Progress(t, p.states + [p.fs] + [WriteFile(p.fs, i, data)] + [t] + [t]), tmp, path);
  }

  lemma UnsyncedReplace(p: Progress, tmp: Name, path: Name)
    requires |p.states| == 5 && tmp in p.fs.dir
    ensures var r := Replace(p, UNSYNCED, tmp, path); r.error == None && r.tolerated
  {
    hide SetEntry, Rename, SyncDir, Unlink, Cleanup, Discard;
  }

  /** A journal that is safely on disk. */
  function OnDisk(path: Name, was: Bytes): FS {
    FS(map[0 := Inode(was, true)], 1, map[path := 0], map[path := {Some(0)}])
  }

  /** So a success with a refused sync may lose the new journal to the old one. */
  lemma OldJournalReturns(tmp: Name, path: Name, was: Bytes, data: Bytes)
    requires path.Plain? && tmp.Temp? && was != data
    ensures CanWrite(OnDisk(path, was), tmp, path)
    ensures forall c :: MayRead(OnDisk(path, was), path, c) <==> c == Some(was)
    ensures var r := WriteTo(OnDisk(path, was), UNSYNCED, tmp, path, data);
            && r.error == None && Read(r.fs, path) == Some(data)
            && MayRead(r.fs, path, Some(was)) && MayRead(r.fs, path, Some(data))
  {
    hide WriteTo;
    var s := OnDisk(path, was);
    assert Some(0) in Maybe(s, path);
    assert MayRead(s, path, Some(was));
    ToleratedSyncForgets(s, tmp, path, data, Some(was));
    SuccessIsDurableIff(s, UNSYNCED, tmp, path, data);
  }

  // ---------------------------------------------------------------- any number of writes and crashes

  lemma CrashShrinks(s: FS, r: FS, name: Name, c: Option<Bytes>)
    requires Valid(s) && CrashTo(s, r)
    ensures Valid(r)
    ensures MayRead(r, name, c) ==> MayRead(s, name, c)
    ensures MayRead(r, name, c) ==> c == Read(r, name)
  {
    forall n: Name, e | e in Maybe(r, n) && e.Some? ensures e.value in r.inodes { assert Entry(r, n) in Maybe(s, n); }
    forall n <- r.dir ensures r.dir[n] in r.inodes { assert Entry(r, n) in Maybe(s, n); }
    assert Entry(r, name) in Maybe(s, name) && Maybe(r, name) == {Entry(r, name)};
  }

  /** One step of a history: a whole WriteTo, or one cut off by a crash after `cut` calls, after
    * which the system comes up as `reboot`. */
  datatype Act = Completed(o: Oracle, tmp: Name, data: Bytes) | CutOff(o: Oracle, tmp: Name, data: Bytes, cut: nat, reboot: FS)

  function StateAfter(s: FS, r: Run, cut: nat): FS { if cut == 0 || cut > |r.states| then s else r.states[cut - 1] }

  ghost predicate Possible(s: FS, a: Act, path: Name, t: FS) {
    && CanWrite(s, a.tmp, path)
    && var r := WriteTo(s, a.o, a.tmp, path, a.data);
       match a
       case Completed(_, _, _) => t == r.fs
       case CutOff(_, _, _, cut, reboot) => CrashTo(StateAfter(s, r, cut), reboot) && t == reboot
  }

  ghost predicate History(states: seq<FS>, acts: seq<Act>, path: Name) {
    && |states| == |acts| + 1 && Valid(states[0])
    && forall i | 0 <= i < |acts| :: Possible(states[i], acts[i], path, states[i + 1])
  }

  lemma ActKeeps(s: FS, a: Act, path: Name, t: FS, c: Option<Bytes>)
    requires Possible(s, a, path, t)
    ensures Valid(t)
    ensures MayRead(t, path, c) ==> MayRead(s, path, c) || c == Some(a.data)
    ensures Read(t, path) == Read(s, path) || Read(t, path) == Some(a.data) || MayRead(s, path, Read(t, path))
  {
    hide WriteTo, CrashTo;
    var r := WriteTo(s, a.o, a.tmp, path, a.data);
    var n := RunShape(s, a.o, a.tmp, path, a.data);
    StatesValid(s, r, a.tmp, path, a.data, n);
    match a
    case Completed(_, _, _) =>
      CrashSafe(s, a.o, a.tmp, path, a.data, |r.states| - 1, c);
    case CutOff(_, _, _, cut, reboot) =>
      var u := StateAfter(s, r, cut);
      if u != s { CrashSafe(s, a.o, a.tmp, path, a.data, cut - 1, c); }
      if u != s { CrashSafe(s, a.o, a.tmp, path, a.data, cut - 1, Read(t, path)); }
      CrashShrinks(u, t, path, c);
      RebootReads(u, t, path);
  }

  lemma RebootReads(s: FS, r: FS, name: Name)
    requires Valid(s) && CrashTo(s, r)
    ensures MayRead(s, name, Read(r, name))
  {
    CrashShrinks(s, r, name, Read(r, name));
    assert Entry(r, name) in Maybe(s, name);
  }

  lemma StatesValid(s: FS, r: Run, tmp: Name, path: Name, data: Bytes, n: nat)
    requires Valid(s) && Shape(s, r, tmp, path, data, n)
    ensures forall i | 0 <= i < |r.states| :: Valid(r.states[i])
  {
    forall i | 0 <= i < |r.states| ensures Valid(r.states[i]) {
      if i < n { assert r.states[..n][i] == r.states[i]; }
    }
  }

  /** Over any history of writes, failures, crashes and reboots, what is found at path is what was
    * there at the start, or could have been found there after a crash at the start, or is the
    * complete data of one of the writes: never a part of a file, never a mixture. */
  lemma {:induction false} NeverPartial(states: seq<FS>, acts: seq<Act>, path: Name, c: Option<Bytes>)
    requires History(states, acts, path)
    requires var last := states[|states| - 1]; MayRead(last, path, c) || c == Read(last, path)
    ensures Valid(states[|states| - 1])
    ensures MayRead(states[0], path, c) || c == Read(states[0], path)
            || exists i | 0 <= i < |acts| :: c == Some(acts[i].data)
  {
    hide MayRead, Possible;
    if acts != [] {
      var n := |acts| - 1;
      assert Possible(states[n], acts[n], path, states[n + 1]);
      ActKeeps(states[n], acts[n], path, states[n + 1], c);
      if c != Some(acts[n].data) {
        NeverPartial(states[..n + 1], acts[..n], path, c);
        if !(MayRead(states[0], path, c) || c == Read(states[0], path)) {
          var i :| 0 <= i < n && c == Some(acts[..n][i].data);
          assert c == Some(acts[i].data);
        }
      } else {
        assert c == Some(acts[n].data);
      }
    }
  }
}
