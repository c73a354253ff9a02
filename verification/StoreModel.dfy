/** Atomic replacement of the journal file (internal/journal/store.go): a directory whose volatile
  * and durable sides differ until they are synced, and the calls of WriteTo on it. */
module StoreModel {
  import opened Basics

  type Bytes = seq<int>

  /** Names in the journal's directory. CreateTemp's names follow a pattern of their own. */
  datatype Name = Plain(s: string) | Temp(n: nat)

  /** `stable` says that the data has reached the disk; before, a crash may leave any data behind. */
  datatype Inode = Inode(data: Bytes, stable: bool)

  /** `maybe` gives, for each name, the entries a crash may leave for it: the one on disk and all
    * that have been there since and have not been synced. A name that is not listed is absent. */
  datatype FS = FS(inodes: map<nat, Inode>, next: nat, dir: map<Name, nat>, maybe: map<Name, set<Option<nat>>>)

  function Entry(s: FS, name: Name): Option<nat> { if name in s.dir then Some(s.dir[name]) else None }

  function Maybe(s: FS, name: Name): set<Option<nat>> { if name in s.maybe then s.maybe[name] else {None} }

  ghost predicate Valid(s: FS) {
    && (forall i <- s.inodes :: i < s.next)
    && (forall name <- s.dir :: s.dir[name] in s.inodes)
    && (forall name, e | e in Maybe(s, name) && e.Some? :: e.value in s.inodes)
    && (forall name: Name :: Entry(s, name) in Maybe(s, name))
  }

  // ---------------------------------------------------------------- calls

  function SetEntry(s: FS, name: Name, e: Option<nat>): FS {
    s.(dir := if e.Some? then s.dir[name := e.value] else s.dir - {name},
       maybe := s.maybe[name := Maybe(s, name) + {e}])
  }

  function Create(s: FS, tmp: Name): FS {
    SetEntry(s.(inodes := s.inodes[s.next := Inode([], false)], next := s.next + 1), tmp, Some(s.next))
  }

  /** A failed write leaves some prefix; what it is does not matter before it is synced. */
  function WriteFile(s: FS, i: nat, data: Bytes): FS { s.(inodes := s.inodes[i := Inode(data, false)]) }

  function SyncFile(s: FS, i: nat): FS
    requires i in s.inodes
  {
    s.(inodes := s.inodes[i := s.inodes[i].(stable := true)])
  }

  function Rename(s: FS, from: Name, to: Name): FS
    requires from in s.dir
  {
    SetEntry(SetEntry(s, to, Some(s.dir[from])), from, None)
  }

  function Unlink(s: FS, name: Name): FS { SetEntry(s, name, None) }

  function SyncDir(s: FS): FS {
    s.(maybe := map name | name in s.maybe.Keys + s.dir.Keys :: {Entry(s, name)})
  }

  // ---------------------------------------------------------------- WriteTo

  datatype Outcome = Ok | Fails | Einval

  /** The outcome of the i-th call; calls beyond the end succeed. */
  type Oracle = seq<Outcome>

  datatype Error =
    | CreateFailed | ChmodFailed | WriteFailed | SyncFailed | CloseFailed | RenameFailed
    | OpenDirFailed | SyncDirFailed

  /** The states passed through, one per call, and how many of them there are so far. */
  datatype Progress = Progress(fs: FS, states: seq<FS>)

  function Outcomes(o: Oracle, p: Progress): Outcome { if |p.states| < |o| then o[|p.states|] else Ok }

  function Do(p: Progress, fs: FS): Progress { Progress(fs, p.states + [fs]) }

  /** `tolerated` says that the directory sync was refused with EINVAL and taken for a success;
    * `removed` that the cleanup's remove succeeded. */
  datatype Run = Run(fs: FS, states: seq<FS>, error: Option<Error>, tolerated: bool, removed: bool)

  function Discard(p: Progress, o: Oracle, tmp: Name, e: Error): Run {
    if Outcomes(o, p) == Ok then
      var q := Do(p, Unlink(p.fs, tmp)); Run(q.fs, q.states, Some(e), false, true)
    else
      var q := Do(p, p.fs); Run(q.fs, q.states, Some(e), false, false)
  }

  /** Close, whatever it says, and remove. */
  function Cleanup(p: Progress, o: Oracle, tmp: Name, e: Error): Run { Discard(Do(p, p.fs), o, tmp, e) }

  function FinishDir(p: Progress, o: Oracle): Run {
    if Outcomes(o, p) != Ok then
      var q := Do(p, p.fs); Run(q.fs, q.states, Some(OpenDirFailed), false, false)
    else
      var q := Do(p, p.fs);
      match Outcomes(o, q)
      case Ok => var r := Do(q, SyncDir(q.fs)); Run(r.fs, r.states, None, false, false)
      case Einval => var r := Do(q, q.fs); Run(r.fs, r.states, None, true, false)
      case Fails => var r := Do(q, q.fs); Run(r.fs, r.states, Some(SyncDirFailed), false, false)
  }

  /** From a written, synced and closed temporary file on. */
  function Replace(p: Progress, o: Oracle, tmp: Name, path: Name): Run
    requires tmp in p.fs.dir
  {
    if Outcomes(o, p) != Ok then Discard(Do(p, p.fs), o, tmp, RenameFailed)
    else FinishDir(Do(p, Rename(p.fs, tmp, path)), o)
  }

  function Fill(p: Progress, o: Oracle, tmp: Name, path: Name, data: Bytes): Run
    requires tmp in p.fs.dir && p.fs.dir[tmp] in p.fs.inodes
  {
    var i := p.fs.dir[tmp];
    if Outcomes(o, p) != Ok then Cleanup(Do(p, p.fs), o, tmp, ChmodFailed)
    else
      var p1 := Do(p, p.fs);
      if Outcomes(o, p1) != Ok then Cleanup(Do(p1, WriteFile(p1.fs, i, [])), o, tmp, WriteFailed)
      else
        var p2 := Do(p1, WriteFile(p1.fs, i, data));
        if Outcomes(o, p2) != Ok then Cleanup(Do(p2, p2.fs), o, tmp, SyncFailed)
        else
          var p3 := Do(p2, SyncFile(p2.fs, i));
          if Outcomes(o, p3) != Ok then Discard(Do(p3, p3.fs), o, tmp, CloseFailed)
          else Replace(Do(p3, p3.fs), o, tmp, path)
  }

  /** `tmp` is the unused name that CreateTemp picks. */
  function WriteTo(s: FS, o: Oracle, tmp: Name, path: Name, data: Bytes): Run {
    var p := Progress(s, []);
    if Outcomes(o, p) != Ok then Run(s, [s], Some(CreateFailed), false, false)
    else Fill(Do(p, Create(s, tmp)), o, tmp, path, data)
  }

  /** The precondition that CreateTemp establishes: a name of its own, not in use. */
  ghost predicate CanWrite(s: FS, tmp: Name, path: Name) {
    Valid(s) && path.Plain? && tmp.Temp? && tmp !in s.dir
  }

  // ---------------------------------------------------------------- crashes

  /** What may be found at a name after a crash: nothing, or some content. */
  ghost predicate MayRead(s: FS, name: Name, c: Option<Bytes>) {
    exists e | e in Maybe(s, name) ::
      match e
      case None => c == None
      case Some(i) => i in s.inodes && c.Some? && (s.inodes[i].stable ==> c.value == s.inodes[i].data)
  }

  /** A reboot: every name has one of its possible entries, every file some data, all of it durable. */
  ghost predicate CrashTo(s: FS, r: FS) {
    && r.next == s.next && r.inodes.Keys == s.inodes.Keys
    && (forall i <- s.inodes :: r.inodes[i].stable && (s.inodes[i].stable ==> r.inodes[i].data == s.inodes[i].data))
    && (forall name: Name :: Entry(r, name) in Maybe(s, name) && Maybe(r, name) == {Entry(r, name)})
  }

  /** What a reader finds there without a crash. */
  function Read(s: FS, name: Name): Option<Bytes> {
    if name in s.dir && s.dir[name] in s.inodes then Some(s.inodes[s.dir[name]].data) else None
  }
}
