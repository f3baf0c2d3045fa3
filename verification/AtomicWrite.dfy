/** `AtomicWriter::write` and `read_with_meta` over a file system whose operations may fail at any point. */
module AtomicWrite {
  import opened Types
  import opened Wrappers
  import opened Crc32c
  import opened Artifact
  import opened AtomicWriter

  datatype IoError = NoParent | CreateDirFailed | CreateFailed | WriteFailed | SyncFailed | RenameFailed | SyncDirFailed

  /** Which of the operations to come fail: `Some(k)` makes one fail, a write after `k` bytes. */
  type Faults = seq<Option<nat>>

  predicate Works(faults: Faults) {
    faults == [] || faults[0].None?
  }

  /** The faults after the next `n` operations. */
  function After(faults: Faults, n: nat): Faults {
    if n <= |faults| then faults[n..] else []
  }

  /** The operations `write` uses; each takes the next entry of `faults`. Directories are not part of `files`. */
  class FileSystem {
    var files: Files
    var dirs: set<Path>
    /** How often the directory of the destination has been forced to disk. */
    var syncs: nat
    var faults: Faults

    constructor (files: Files, dirs: set<Path>, faults: Faults)
      ensures this.files == files && this.dirs == dirs && this.syncs == 0 && this.faults == faults
    {
      this.files, this.dirs, this.syncs, this.faults := files, dirs, 0, faults;
    }

    method TakeFault() returns (fault: Option<nat>)
      modifies this`faults
      ensures fault.None? <==> Works(old(faults))
      ensures faults == After(old(faults), 1)
    {
      if faults == [] { return None; }
      fault := faults[0];
      faults := faults[1..];
    }

    method CreateDirAll(path: Path) returns (ok: bool)
      modifies this`dirs, this`faults
      ensures ok == Works(old(faults)) && faults == After(old(faults), 1)
      ensures dirs == if ok then old(dirs) + {path} else old(dirs)
    {
      var fault := TakeFault();
      ok := fault.None?;
      if ok { dirs := dirs + {path}; }
    }

    method CreateFile(path: Path) returns (ok: bool)
      modifies this`files, this`faults
      ensures ok == Works(old(faults)) && faults == After(old(faults), 1)
      ensures files == if ok then Create(old(files), path) else old(files)
    {
      var fault := TakeFault();
      ok := fault.None?;
      if ok { files := Create(files, path); }
    }

    method WriteAll(path: Path, bytes: Octets) returns (ok: bool, ghost n: nat)
      modifies this`files, this`faults
      ensures ok == Works(old(faults)) && faults == After(old(faults), 1)
      ensures n <= |bytes| && (ok ==> n == |bytes|)
      ensures files == AppendTo(old(files), path, bytes[..n])
    {
      var fault := TakeFault();
      var m := if fault.Some? then Min(fault.value, |bytes|) else |bytes|;
      n := m;
      ok := fault.None?;
      files := AppendTo(files, path, bytes[..m]);
    }

    method SyncAll(path: Path) returns (ok: bool)
      modifies this`files, this`faults
      ensures ok == Works(old(faults)) && faults == After(old(faults), 1)
      ensures files == if ok then Sync(old(files), path) else old(files)
    {
      var fault := TakeFault();
      ok := fault.None?;
      if ok { files := Sync(files, path); }
    }

    method RenameFile(from: Path, to: Path) returns (ok: bool)
      modifies this`files, this`faults
      ensures ok == Works(old(faults)) && faults == After(old(faults), 1)
      ensures files == if ok then Rename(old(files), from, to) else old(files)
    {
      var fault := TakeFault();
      ok := fault.None?;
      if ok { files := Rename(files, from, to); }
    }

    method SyncDir() returns (ok: bool)
      modifies this`syncs, this`faults
      ensures ok == Works(old(faults)) && faults == After(old(faults), 1)
      ensures syncs == old(syncs) + if ok then 1 else 0
    {
      var fault := TakeFault();
      ok := fault.None?;
      if ok { syncs := syncs + 1; }
    }

    method ReadFile(path: Path) returns (bytes: Option<Octets>)
      ensures bytes == BytesAt(files, path)
    {
      bytes := if path in files then Some(files[path].bytes) else None;
    }
  }

  // ----- Which error a write reports

  /** The error of the first operation that fails, of operations that fail with `errors`. */
  function FirstError(faults: Faults, errors: seq<IoError>): Option<IoError> {
    if errors == [] then None
    else if !Works(faults) then Some(errors[0])
    else FirstError(After(faults, 1), errors[1..])
  }

  lemma AfterAfter(faults: Faults, m: nat, n: nat)
    ensures After(After(faults, m), n) == After(faults, m + n)
  {
  }

  /** The first `k` operations work and the next one does not. */
  ghost predicate FailsFirstAt(faults: Faults, k: nat) {
    k < |faults| && faults[k].Some? && forall i :: 0 <= i < k ==> faults[i].None?
  }

  lemma {:induction false} FirstErrorMeaning(faults: Faults, errors: seq<IoError>)
    ensures FirstError(faults, errors).None? <==> forall i :: 0 <= i < |faults| && i < |errors| ==> faults[i].None?
    ensures forall k :: 0 <= k < |errors| && FailsFirstAt(faults, k) ==> FirstError(faults, errors) == Some(errors[k])
    decreases |errors|
  {
    if errors != [] && Works(faults) {
      var rest := After(faults, 1);
      FirstErrorMeaning(rest, errors[1..]);
      assert forall i :: 0 < i < |faults| ==> faults[i] == rest[i - 1];
      forall k | 0 <= k < |errors| && FailsFirstAt(faults, k)
        ensures FirstError(faults, errors) == Some(errors[k])
      {
        assert FailsFirstAt(rest, k - 1);
      }
      assert forall i :: 0 <= i < |rest| ==> rest[i] == faults[i + 1];
    }
  }

  lemma {:induction false} FirstErrorOfBoth(faults: Faults, a: seq<IoError>, b: seq<IoError>)
    ensures FirstError(faults, a + b)
            == if FirstError(faults, a).Some? then FirstError(faults, a) else FirstError(After(faults, |a|), b)
    decreases |a|
  {
    if a == [] {
      assert a + b == b;
    } else {
      assert (a + b)[1..] == a[1..] + b;
      FirstErrorOfBoth(After(faults, 1), a[1..], b);
      AfterAfter(faults, 1, |a| - 1);
    }
  }

  lemma FirstErrorOfOne(faults: Faults, e: IoError, rest: seq<IoError>)
    ensures FirstError(faults, [e] + rest) == if Works(faults) then FirstError(After(faults, 1), rest) else Some(e)
  {
    assert ([e] + rest)[1..] == rest;
  }

  /** What can go wrong when a temporary file is written, in the order of the operations. */
  function FileErrors(cfg: Config): seq<IoError> {
    [CreateFailed, WriteFailed] + if cfg.fsyncOnCommit then [SyncFailed] else []
  }

  /** What can go wrong when the two files are published. */
  function PublishErrors(cfg: Config): seq<IoError> {
    [RenameFailed, RenameFailed] + if cfg.fsyncOnCommit then [SyncDirFailed] else []
  }

  lemma FileErrorSteps(cfg: Config, faults: Faults)
    ensures var e := FirstError(faults, FileErrors(cfg));
            var f1, f2, f3 := After(faults, 1), After(faults, 2), After(faults, 3);
            && |FileErrors(cfg)| == (if cfg.fsyncOnCommit then 3 else 2)
            && After(f1, 1) == f2 && After(f2, 1) == f3
            && (!Works(faults) ==> e == Some(CreateFailed))
            && (Works(faults) && !Works(f1) ==> e == Some(WriteFailed))
            && (Works(faults) && Works(f1) && cfg.fsyncOnCommit && !Works(f2) ==> e == Some(SyncFailed))
            && (Works(faults) && Works(f1) && (cfg.fsyncOnCommit ==> Works(f2)) ==> e == None)
  {
    hide Works;
    var last := if cfg.fsyncOnCommit then [SyncFailed] else [];
    assert FileErrors(cfg) == [CreateFailed] + ([WriteFailed] + last);
    FirstErrorOfOne(faults, CreateFailed, [WriteFailed] + last);
    FirstErrorOfOne(After(faults, 1), WriteFailed, last);
    assert last == [SyncFailed] ==> last == [SyncFailed] + [];
    FirstErrorOfOne(After(faults, 2), SyncFailed, []);
  }

  lemma PublishErrorSteps(cfg: Config, faults: Faults)
    ensures var e := FirstError(faults, PublishErrors(cfg));
            var f1, f2, f3 := After(faults, 1), After(faults, 2), After(faults, 3);
            && After(f1, 1) == f2 && After(f2, 1) == f3
            && (!Works(faults) ==> e == Some(RenameFailed))
            && (Works(faults) && !Works(f1) ==> e == Some(RenameFailed))
            && (Works(faults) && Works(f1) && cfg.fsyncOnCommit && !Works(f2) ==> e == Some(SyncDirFailed))
            && (Works(faults) && Works(f1) && (cfg.fsyncOnCommit ==> Works(f2)) ==> e == None)
  {
    hide Works;
    var last := if cfg.fsyncOnCommit then [SyncDirFailed] else [];
    assert PublishErrors(cfg) == [RenameFailed] + ([RenameFailed] + last);
    FirstErrorOfOne(faults, RenameFailed, [RenameFailed] + last);
    FirstErrorOfOne(After(faults, 1), RenameFailed, last);
    assert last == [SyncDirFailed] ==> last == [SyncDirFailed] + [];
    FirstErrorOfOne(After(faults, 2), SyncDirFailed, []);
  }

  /** The operations of `write` in order, each by the error it fails with. */
  function WriteErrors(cfg: Config): seq<IoError> {
    if cfg.fsyncOnCommit then
      [CreateDirFailed, CreateFailed, WriteFailed, SyncFailed, CreateFailed, WriteFailed, SyncFailed,
       RenameFailed, RenameFailed, SyncDirFailed]
    else
      [CreateDirFailed, CreateFailed, WriteFailed, CreateFailed, WriteFailed, RenameFailed, RenameFailed]
  }

  lemma WriteErrorSteps(cfg: Config, faults: Faults)
    ensures var n := |FileErrors(cfg)|;
            var f1 := After(faults, 1);
            var e1, e2, e3 := FirstError(f1, FileErrors(cfg)), FirstError(After(f1, n), FileErrors(cfg)),
                              FirstError(After(After(f1, n), n), PublishErrors(cfg));
            FirstError(faults, WriteErrors(cfg))
            == if !Works(faults) then Some(CreateDirFailed)
               else if e1.Some? then e1 else if e2.Some? then e2 else e3
  {
    hide Works, FirstError, After;
    var f1 := After(faults, 1);
    assert WriteErrors(cfg) == [CreateDirFailed] + (FileErrors(cfg) + (FileErrors(cfg) + PublishErrors(cfg)));
    FirstErrorOfOne(faults, CreateDirFailed, FileErrors(cfg) + (FileErrors(cfg) + PublishErrors(cfg)));
    FirstErrorOfBoth(f1, FileErrors(cfg), FileErrors(cfg) + PublishErrors(cfg));
    FirstErrorOfBoth(After(f1, |FileErrors(cfg)|), FileErrors(cfg), PublishErrors(cfg));
  }

  // ----- The points of the protocol

  /** `events` bring a lone write of `job` to `files`, with the directory forced to disk `syncs` times. */
  ghost predicate Leads(cfg: Config, job: Job, initial: Files, events: seq<Event>, files: Files, syncs: int, pc: Pc) {
    var s := Run(cfg, [job], initial, events);
    s.files == files && s.syncs == syncs && s.writers[0] == Writer(pc, false)
  }

  /** A point that a lone write of `job` from `initial` reaches, with the writer at `pc`. */
  ghost predicate Reaches(cfg: Config, job: Job, initial: Files, files: Files, syncs: int, pc: Pc) {
    exists events :: Leads(cfg, job, initial, events, files, syncs, pc)
  }

  lemma ReachesStart(cfg: Config, job: Job, initial: Files)
    ensures Reaches(cfg, job, initial, initial, 0, Start)
  {
    assert Leads(cfg, job, initial, [], initial, 0, Start);
  }

  lemma ReachesNext(cfg: Config, job: Job, initial: Files, files: Files, syncs: int, pc: Pc, chunk: nat)
    requires Reaches(cfg, job, initial, files, syncs, pc)
    ensures var (pc', files') := Next(cfg, job, pc, files, chunk);
            Reaches(cfg, job, initial, files', syncs + if SyncsDir(cfg, pc) then 1 else 0, pc')
  {
    hide Run, Next;
    var events :| Leads(cfg, job, initial, events, files, syncs, pc);
    RunOneMore(cfg, [job], initial, events, Advance(0, chunk));
    var (pc', files') := Next(cfg, job, pc, files, chunk);
    assert Leads(cfg, job, initial, events + [Advance(0, chunk)], files',
                 syncs + if SyncsDir(cfg, pc) then 1 else 0, pc');
  }

  /** The files and the directory are at some point of the protocol. */
  ghost predicate Stopped(cfg: Config, job: Job, initial: Files, files: Files, syncs: int) {
    exists pc :: Reaches(cfg, job, initial, files, syncs, pc)
  }

  /** A write that has finished has forced the directory to disk if it is configured to. */
  lemma FinishedIsSynced(cfg: Config, job: Job, initial: Files, files: Files, syncs: int)
    requires Reaches(cfg, job, initial, files, syncs, Finished) && cfg.fsyncOnCommit
    ensures syncs > 0
  {
    hide Run;
    var events :| Leads(cfg, job, initial, events, files, syncs, Finished);
    FinishingSyncs(cfg, [job], initial, events, 0, 0);
    NotFinishedAtStart(cfg, job, initial);
    assert events[..0] == [];
  }

  lemma NotFinishedAtStart(cfg: Config, job: Job, initial: Files)
    ensures Run(cfg, [job], initial, []).writers[0].pc == Start && Run(cfg, [job], initial, []).syncs == 0
  {
  }

  /** Steps 1 and 2. */
  method WriteData(fs: FileSystem, cfg: Config, job: Job, ghost initial: Files) returns (e: Option<IoError>)
    requires Reaches(cfg, job, initial, fs.files, 0, Start)
    modifies fs`files, fs`faults
    ensures Stopped(cfg, job, initial, fs.files, 0)
    ensures e == FirstError(old(fs.faults), FileErrors(cfg))
    ensures e.None? ==> Reaches(cfg, job, initial, fs.files, 0, DataSynced)
    ensures e.None? ==> fs.faults == After(old(fs.faults), |FileErrors(cfg)|)
  {
    hide Reaches, MetaPath, TmpPath, TmpMetaPath, FirstError, FileErrors, Works, After;
    FileErrorSteps(cfg, fs.faults);
    var tmp := TmpPath(cfg.dest, job.nonce);
    ReachesNext(cfg, job, initial, fs.files, 0, Start, 0);
    var ok := fs.CreateFile(tmp);
    if !ok { return Some(CreateFailed); }

    ghost var before, n := fs.files, 0;
    ok, n := fs.WriteAll(tmp, job.data);
    ReachesWrittenData(cfg, job, initial, before, n);
    if !ok { return Some(WriteFailed); }

    ReachesNext(cfg, job, initial, fs.files, 0, WritingData(|job.data|), 0);
    if cfg.fsyncOnCommit {
      ok := fs.SyncAll(tmp);
      if !ok { return Some(SyncFailed); }
    }
    return None;
  }

  /** Steps 3 and 4. */
  method WriteMeta(fs: FileSystem, cfg: Config, job: Job, meta: ArtifactMeta, ghost initial: Files)
    returns (e: Option<IoError>)
    requires Reaches(cfg, job, initial, fs.files, 0, DataSynced) && meta == MetaOf(cfg, job)
    modifies fs`files, fs`faults
    ensures Stopped(cfg, job, initial, fs.files, 0)
    ensures e == FirstError(old(fs.faults), FileErrors(cfg))
    ensures e.None? ==> Reaches(cfg, job, initial, fs.files, 0, MetaSynced)
    ensures e.None? ==> fs.faults == After(old(fs.faults), |FileErrors(cfg)|)
  {
    hide Reaches, MetaPath, TmpPath, TmpMetaPath, FirstError, FileErrors, Works, After;
    FileErrorSteps(cfg, fs.faults);
    var tmpMeta := TmpMetaPath(cfg.dest, job.nonce);
    var metaBytes := cfg.env.encode(meta);
    ReachesNext(cfg, job, initial, fs.files, 0, DataSynced, 0);
    var ok := fs.CreateFile(tmpMeta);
    if !ok { return Some(CreateFailed); }

    ghost var before, n := fs.files, 0;
    ok, n := fs.WriteAll(tmpMeta, metaBytes);
    ReachesWrittenMeta(cfg, job, initial, before, n);
    if !ok { return Some(WriteFailed); }

    ReachesNext(cfg, job, initial, fs.files, 0, WritingMeta(|metaBytes|), 0);
    if cfg.fsyncOnCommit {
      ok := fs.SyncAll(tmpMeta);
      if !ok { return Some(SyncFailed); }
    }
    return None;
  }

  /** Steps 5 to 7. */
  method Publish(fs: FileSystem, cfg: Config, job: Job, ghost initial: Files) returns (e: Option<IoError>)
    requires Reaches(cfg, job, initial, fs.files, 0, MetaSynced)
    modifies fs`files, fs`syncs, fs`faults
    ensures Stopped(cfg, job, initial, fs.files, fs.syncs - old(fs.syncs))
    ensures e == FirstError(old(fs.faults), PublishErrors(cfg))
    ensures e.None? ==> Reaches(cfg, job, initial, fs.files, fs.syncs - old(fs.syncs), Finished)
  {
    hide Reaches, MetaPath, TmpPath, TmpMetaPath, FirstError, PublishErrors, Works, After;
    PublishErrorSteps(cfg, fs.faults);
    ReachesNext(cfg, job, initial, fs.files, 0, MetaSynced, 0);
    var ok := fs.RenameFile(TmpPath(cfg.dest, job.nonce), cfg.dest);
    if !ok { return Some(RenameFailed); }

    ReachesNext(cfg, job, initial, fs.files, 0, DataRenamed, 0);
    ok := fs.RenameFile(TmpMetaPath(cfg.dest, job.nonce), MetaPath(cfg.dest));
    if !ok { return Some(RenameFailed); }

    ReachesNext(cfg, job, initial, fs.files, 0, MetaRenamed, 0);
    if cfg.fsyncOnCommit {
      ok := fs.SyncDir();
      if !ok { return Some(SyncDirFailed); }
    }
    return None;
  }

  /**
   Whether it succeeds or fails, the method leaves the files and the directory at a point of the protocol,
   and it fails with the error of the first operation that fails. After a success the directory has been
   forced to disk if the writer is so configured, and a verified read returns the data and the sidecar
   returned. `parent` is the directory of the destination, which a path may lack.
   */
  method Write(fs: FileSystem, cfg: Config, parent: Option<Path>, data: Octets, nonce: bv64, now: int)
    returns (r: Result<ArtifactMeta, IoError>)
    modifies fs
    ensures Stopped(cfg, Job(nonce, data, now), old(fs.files), fs.files, fs.syncs - old(fs.syncs))
    ensures parent.None? ==> r == Err(NoParent) && fs.files == old(fs.files) && fs.syncs == old(fs.syncs)
    ensures parent.Some? ==> r == match FirstError(old(fs.faults), WriteErrors(cfg))
                                  case Some(e) => Err(e)
                                  case None => Ok(ComputeMeta(cfg.env, data, now))
    ensures r.Ok? ==> parent.value in fs.dirs
    ensures r.Ok? ==> Reaches(cfg, Job(nonce, data, now), old(fs.files), fs.files, fs.syncs - old(fs.syncs), Finished)
    ensures r.Ok? && cfg.fsyncOnCommit ==> fs.syncs > old(fs.syncs)
    ensures RoundTrips(cfg.env) && r.Ok? ==> ReadWithMeta(cfg, fs.files) == Ok((data, r.value))
  {
    hide Reaches, ReadWithMeta, RoundTrips, FirstError, FileErrors, PublishErrors, WriteErrors, Works, After;
    var job := Job(nonce, data, now);
    ghost var initial := fs.files;
    ReachesStart(cfg, job, initial);
    WriteErrorSteps(cfg, fs.faults);
    if parent.None? { return Err(NoParent); }
    var ok := fs.CreateDirAll(parent.value);
    if !ok { return Err(CreateDirFailed); }

    var e := WriteData(fs, cfg, job, initial);
    if e.Some? { return Err(e.value); }
    var meta := ComputeMeta(cfg.env, data, now);
    e := WriteMeta(fs, cfg, job, meta, initial);
    if e.Some? { return Err(e.value); }
    e := Publish(fs, cfg, job, initial);
    if e.Some? { return Err(e.value); }
    ReadAtEnd(cfg, job, initial, fs.files, fs.syncs - old(fs.syncs));
    if cfg.fsyncOnCommit { FinishedIsSynced(cfg, job, initial, fs.files, fs.syncs - old(fs.syncs)); }
    return Ok(meta);
  }

  lemma ReadAtEnd(cfg: Config, job: Job, initial: Files, files: Files, syncs: int)
    requires Reaches(cfg, job, initial, files, syncs, Finished)
    ensures RoundTrips(cfg.env) ==> ReadWithMeta(cfg, files) == Ok((job.data, MetaOf(cfg, job)))
  {
    hide Run, ReadWithMeta, MetaOf, RoundTrips;
    if RoundTrips(cfg.env) {
      var events :| Leads(cfg, job, initial, events, files, syncs, Finished);
      LoneWriterRead(cfg, job, initial, events);
    }
  }

  lemma ReachesWrittenData(cfg: Config, job: Job, initial: Files, files: Files, n: nat)
    requires Reaches(cfg, job, initial, files, 0, WritingData(0)) && n <= |job.data|
    ensures Reaches(cfg, job, initial, AppendTo(files, TmpPath(cfg.dest, job.nonce), job.data[..n]), 0,
            WritingData(n))
  {
    hide Reaches, TmpPath;
    if 0 < |job.data| {
      ReachesNext(cfg, job, initial, files, 0, WritingData(0), n);
    } else {
      CreatedIsEmpty(cfg, job, initial, files);
    }
  }

  lemma ReachesWrittenMeta(cfg: Config, job: Job, initial: Files, files: Files, n: nat)
    requires Reaches(cfg, job, initial, files, 0, WritingMeta(0)) && n <= |MetaBytes(cfg, job)|
    ensures Reaches(cfg, job, initial, AppendTo(files, TmpMetaPath(cfg.dest, job.nonce), MetaBytes(cfg, job)[..n]), 0,
            WritingMeta(n))
  {
    hide Reaches, TmpMetaPath, MetaBytes;
    if 0 < |MetaBytes(cfg, job)| {
      ReachesNext(cfg, job, initial, files, 0, WritingMeta(0), n);
    } else {
      CreatedIsEmpty(cfg, job, initial, files);
    }
  }

  /** Appending nothing to a file just created changes nothing. */
  lemma CreatedIsEmpty(cfg: Config, job: Job, initial: Files, files: Files)
    ensures Reaches(cfg, job, initial, files, 0, WritingData(0))
            ==> AppendTo(files, TmpPath(cfg.dest, job.nonce), []) == files
    ensures Reaches(cfg, job, initial, files, 0, WritingMeta(0))
            ==> AppendTo(files, TmpMetaPath(cfg.dest, job.nonce), []) == files
  {
    hide Run, TmpPath, TmpMetaPath, MetaPath, MetaBytes, Reaches;
    if Reaches(cfg, job, initial, files, 0, WritingData(0)) {
      ReachedOwnFiles(cfg, job, initial, files, 0, WritingData(0));
      AppendNothing(files, TmpPath(cfg.dest, job.nonce));
    }
    if Reaches(cfg, job, initial, files, 0, WritingMeta(0)) {
      ReachedOwnFiles(cfg, job, initial, files, 0, WritingMeta(0));
      AppendNothing(files, TmpMetaPath(cfg.dest, job.nonce));
    }
  }

  lemma ReachedOwnFiles(cfg: Config, job: Job, initial: Files, files: Files, syncs: int, pc: Pc)
    requires Reaches(cfg, job, initial, files, syncs, pc)
    ensures OwnFiles(cfg, job, pc, files)
  {
    hide Run, OwnFiles, Published;
    var events :| Leads(cfg, job, initial, events, files, syncs, pc);
    RunKeepsInv(cfg, [job], initial, events);
  }

  lemma AppendNothing(files: Files, path: Path)
    requires path in files && files[path] == File([], false)
    ensures AppendTo(files, path, []) == files
  {
    assert File([] + [], false) == files[path];
  }

  /** `read_with_meta`. */
  method Read(fs: FileSystem, cfg: Config) returns (r: ReadResult)
    ensures r == ReadWithMeta(cfg, fs.files)
    ensures r == Err(NoData) <==> cfg.dest !in fs.files
    ensures r == Err(NoMeta) <==> cfg.dest in fs.files && MetaPath(cfg.dest) !in fs.files
    ensures cfg.dest in fs.files && MetaPath(cfg.dest) in fs.files
            ==> var data, meta := fs.files[cfg.dest].bytes, cfg.env.decode(fs.files[MetaPath(cfg.dest)].bytes);
                && (r == Err(BadMeta) <==> meta.None?)
                && (r == Err(MetaMismatch) <==> meta.Some? && !Matches(cfg.env, data, meta.value))
                && (r.Ok? ==> meta.Some? && r.value == (data, meta.value))
  {
    hide Matches;
    var data := fs.ReadFile(cfg.dest);
    if data.None? { return Err(NoData); }
    var metaBytes := fs.ReadFile(MetaPath(cfg.dest));
    if metaBytes.None? { return Err(NoMeta); }
    var meta := cfg.env.decode(metaBytes.value);
    if meta.None? { return Err(BadMeta); }
    var ok := DataFingerprintMatches(cfg.env, data.value, meta.value);
    if !ok { return Err(MetaMismatch); }
    return Ok((data.value, meta.value));
  }
}
