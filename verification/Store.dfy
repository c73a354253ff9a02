/** WriteTo as it runs: an ordered sequence of calls on a directory, with a cleanup on each error
  * path. Every state in between is recorded, because a crash may strike in any of them. */
module Store {
  import opened Basics
  import opened StoreModel
  import Schema

  class Directory {
    var fs: FS
    /** One state per call. */
    ghost var states: seq<FS>
    var calls: nat
    const oracle: Oracle

    constructor (fs: FS, oracle: Oracle)
      ensures this.fs == fs && this.oracle == oracle && states == [] && calls == 0
    {
      this.fs, this.oracle, states, calls := fs, oracle, [], 0;
    }

    ghost predicate At(p: Progress)
      reads this
    {
      p == Progress(fs, states) && calls == |states|
    }

    /** One call: `good` is its effect when it succeeds, `bad` when it fails. */
    method Call(good: FS, bad: FS, ghost p: Progress) returns (outcome: Outcome)
      requires At(p)
      modifies this
      ensures outcome == Outcomes(oracle, p)
      ensures At(Do(p, if outcome == Ok then good else bad))
    {
      outcome := if calls < |oracle| then oracle[calls] else Ok;
      fs := if outcome == Ok then good else bad;
      calls := calls + 1;
      states := states + [fs];
    }

    method Remove(tmp: Name, e: Error, ghost p: Progress) returns (ghost r: Run)
      requires At(p)
      modifies this
      ensures r == Discard(p, oracle, tmp, e) && fs == r.fs && states == r.states
    {
      var outcome := Call(Unlink(fs, tmp), fs, p);
      r := Discard(p, oracle, tmp, e);
    }

    /** Closes the temporary file, whatever that says, and removes it. */
    method CloseAndRemove(tmp: Name, e: Error, ghost p: Progress) returns (ghost r: Run)
      requires At(p)
      modifies this
      ensures r == Cleanup(p, oracle, tmp, e) && fs == r.fs && states == r.states
    {
      var ignored := Call(fs, fs, p);
      r := Remove(tmp, e, Do(p, p.fs));
    }

    method FsyncDir(ghost p: Progress) returns (error: Option<Error>, ghost r: Run)
      requires At(p)
      modifies this
      ensures r == StoreModel.FinishDir(p, oracle) && error == r.error && fs == r.fs && states == r.states
    {
      r := StoreModel.FinishDir(p, oracle);
      var dirOpen := Call(fs, fs, p);
      if dirOpen != Ok { return Some(OpenDirFailed), r; }
      var synced := Call(SyncDir(fs), fs, Do(p, p.fs));
      if synced != Ok && synced != Einval { return Some(SyncDirFailed), r; }
      error := None;
    }

    /** Writes `data` through the temporary file `tmp`, an unused name. */
    method Replace(tmp: Name, path: Name, data: Bytes) returns (error: Option<Error>, ghost r: Run)
      requires states == [] && calls == 0 && tmp !in fs.dir
      modifies this
      ensures r == StoreModel.WriteTo(old(fs), oracle, tmp, path, data)
      ensures error == r.error && fs == r.fs && states == r.states
    {
      r := StoreModel.WriteTo(fs, oracle, tmp, path, data);
      ghost var p := Progress(fs, []);
      var o := Call(Create(fs, tmp), fs, p);
      if o != Ok { return Some(CreateFailed), r; }
      ghost var p0 := Do(p, fs);
      error, r := Fill(tmp, path, data, p0);
    }

    method Fill(tmp: Name, path: Name, data: Bytes, ghost p: Progress) returns (error: Option<Error>, ghost r: Run)
      requires At(p) && tmp in fs.dir && fs.dir[tmp] in fs.inodes
      modifies this
      ensures r == StoreModel.Fill(p, oracle, tmp, path, data)
      ensures error == r.error && fs == r.fs && states == r.states
    {
      var i := fs.dir[tmp];
      var o := Call(fs, fs, p);  // Chmod
      if o != Ok {
        r := CloseAndRemove(tmp, ChmodFailed, Do(p, fs));
        return Some(ChmodFailed), r;
      }
      ghost var p1 := Do(p, p.fs);
      o := Call(WriteFile(fs, i, data), WriteFile(fs, i, []), p1);
      if o != Ok {
        r := CloseAndRemove(tmp, WriteFailed, Do(p1, fs));
        return Some(WriteFailed), r;
      }
      ghost var p2 := Do(p1, fs);
      o := Call(SyncFile(fs, i), fs, p2);
      if o != Ok {
        r := CloseAndRemove(tmp, SyncFailed, Do(p2, fs));
        return Some(SyncFailed), r;
      }
      ghost var p3 := Do(p2, fs);
      o := Call(fs, fs, p3);  // Close
      if o != Ok {
        r := Remove(tmp, CloseFailed, Do(p3, fs));
        return Some(CloseFailed), r;
      }
      ghost var p4 := Do(p3, fs);
      o := Call(StoreModel.Rename(fs, tmp, path), fs, p4);
      if o != Ok {
        r := Remove(tmp, RenameFailed, Do(p4, fs));
        return Some(RenameFailed), r;
      }
      error, r := FsyncDir(Do(p4, fs));
    }
  }

  datatype WriteError = Invalid(v: Schema.Violation) | Unencodable | OnDisk(e: Error)

  /** A journal that says nothing about its version gets the current one. */
  function Stamped(j: Schema.Journal): Schema.Journal {
    if j.schema == 0 then j.(schema := Schema.SCHEMA_VERSION) else j
  }

  /** `encode` stands for the JSON encoder. A journal that does not validate, or cannot be encoded,
    * never gets as far as the directory. */
  method WriteTo(j: Schema.Journal, d: Directory, tmp: Name, path: Name, encode: Schema.Journal -> Option<Bytes>)
      returns (stamped: Schema.Journal, error: Option<WriteError>)
    requires d.states == [] && d.calls == 0 && tmp !in d.fs.dir
    modifies d
    ensures stamped.(schema := j.schema) == j && stamped.schema == if j.schema == 0 then 1 else j.schema
    ensures match Schema.Validate(stamped)
            case Some(v) => error == Some(Invalid(v)) && d.fs == old(d.fs) && d.states == []
            case None => encode(stamped) == None ==> error == Some(Unencodable) && d.fs == old(d.fs) && d.states == []
    ensures Schema.Validate(stamped) == None && encode(stamped).Some? ==>
              var r := StoreModel.WriteTo(old(d.fs), d.oracle, tmp, path, encode(stamped).value + [10]);
              d.fs == r.fs && d.states == r.states
              && error == if r.error == None then None else Some(OnDisk(r.error.value))
  {
    stamped := Stamped(j);
    var v := Schema.Validate(stamped);
    if v.Some? { return stamped, Some(Invalid(v.value)); }
    var data := encode(stamped);
    if data == None { return stamped, Some(Unencodable); }
    var e;
    ghost var r;
    e, r := d.Replace(tmp, path, data.value + [10]);
    error := if e == None then None else Some(OnDisk(e.value));
  }
}
