/**
 The write/rename protocol of `AtomicWriter`: any number of writers of one destination, interleaved
 in any way and stopped at any point, with readers in between.
 */
module AtomicWriter {
  import opened Types
  import opened Wrappers
  import opened Crc32c
  import opened Artifact

  /** A file: its bytes, and whether they have been forced to disk since they were last written. */
  datatype File = File(bytes: Octets, synced: bool)

  type Files = map<Path, File>

  datatype Config = Config(env: Env, dest: Path, fsyncOnCommit: bool)

  datatype Job = Job(nonce: bv64, data: Octets, now: int)

  /** Where a writer is: the last step it has completed. Written(n) counts the bytes already in the file. */
  datatype Pc =
    | Start
    | WritingData(n: nat)
    | DataSynced
    | WritingMeta(n: nat)
    | MetaSynced
    | DataRenamed
    | MetaRenamed
    | Finished

  datatype Writer = Writer(pc: Pc, stopped: bool)

  /**
   `dataFrom` and `metaFrom` remember which writer last renamed onto the destination and its sidecar;
   `syncs` counts how often the directory has been forced to disk.
   */
  datatype State = State(files: Files, writers: seq<Writer>, dataFrom: Option<nat>, metaFrom: Option<nat>, syncs: nat)

  /** A writer takes its next step (writing at most `chunk` bytes if it is writing), or stops for good. */
  datatype Event = Advance(w: nat, chunk: nat) | Stop(w: nat)

  function MetaOf(cfg: Config, job: Job): ArtifactMeta {
    ComputeMeta(cfg.env, job.data, job.now)
  }

  function MetaBytes(cfg: Config, job: Job): Octets {
    cfg.env.encode(MetaOf(cfg, job))
  }

  function Min(a: nat, b: nat): nat {
    if a <= b then a else b
  }

  // ----- Effects on the file system

  function Create(files: Files, path: Path): Files {
    files[path := File([], false)]
  }

  function AppendTo(files: Files, path: Path, more: Octets): Files {
    if path in files then files[path := File(files[path].bytes + more, false)] else files
  }

  function Sync(files: Files, path: Path): Files {
    if path in files then files[path := files[path].(synced := true)] else files
  }

  function Rename(files: Files, from: Path, to: Path): Files {
    if from in files && from != to then files[to := files[from]] - {from} else files
  }

  /** The next step of a writer that has not stopped. */
  function Next(cfg: Config, job: Job, pc: Pc, files: Files, chunk: nat): (Pc, Files) {
    var tmp, tmpMeta := TmpPath(cfg.dest, job.nonce), TmpMetaPath(cfg.dest, job.nonce);
    match pc
    case Start => (WritingData(0), Create(files, tmp))
    case WritingData(n) =>
      if n < |job.data| then
        var m := Min(n + chunk, |job.data|);
        (WritingData(m), AppendTo(files, tmp, job.data[n..m]))
      else (DataSynced, if cfg.fsyncOnCommit then Sync(files, tmp) else files)
    case DataSynced => (WritingMeta(0), Create(files, tmpMeta))
    case WritingMeta(n) =>
      var bytes := MetaBytes(cfg, job);
      if n < |bytes| then
        var m := Min(n + chunk, |bytes|);
        (WritingMeta(m), AppendTo(files, tmpMeta, bytes[n..m]))
      else (MetaSynced, if cfg.fsyncOnCommit then Sync(files, tmpMeta) else files)
    case MetaSynced => (DataRenamed, Rename(files, tmp, cfg.dest))
    case DataRenamed => (MetaRenamed, Rename(files, tmpMeta, MetaPath(cfg.dest)))
    case MetaRenamed => (Finished, files)
    case Finished => (Finished, files)
  }

  /** The last step forces the directory to disk. */
  predicate SyncsDir(cfg: Config, pc: Pc) {
    pc.MetaRenamed? && cfg.fsyncOnCommit
  }

  function Step(cfg: Config, jobs: seq<Job>, s: State, e: Event): State
    requires |s.writers| == |jobs|
  {
    if e.w >= |jobs| || s.writers[e.w].stopped then s else
    match e
    case Stop(w) => s.(writers := s.writers[w := s.writers[w].(stopped := true)])
    case Advance(w, chunk) =>
      var (pc, files) := Next(cfg, jobs[w], s.writers[w].pc, s.files, chunk);
      State(files, s.writers[w := Writer(pc, false)],
            if pc == DataRenamed then Some(w) else s.dataFrom,
            if pc == MetaRenamed then Some(w) else s.metaFrom,
            s.syncs + if SyncsDir(cfg, s.writers[w].pc) then 1 else 0)
  }

  function Init(jobs: seq<Job>, files: Files): State {
    State(files, seq(|jobs|, _ => Writer(Start, false)), None, None, 0)
  }

  /** The state after any schedule; a crash is a schedule that ends early. */
  function Run(cfg: Config, jobs: seq<Job>, files: Files, events: seq<Event>): (s: State)
    ensures |s.writers| == |jobs|
  {
    if events == [] then Init(jobs, files)
    else Step(cfg, jobs, Run(cfg, jobs, files, events[..|events| - 1]), events[|events| - 1])
  }

  ghost predicate DistinctNonces(jobs: seq<Job>) {
    forall v, w :: 0 <= v < w < |jobs| ==> jobs[v].nonce != jobs[w].nonce
  }

  // ----- What a writer's temporary files hold

  ghost predicate Holds(files: Files, path: Path, bytes: Octets, synced: bool) {
    path in files && files[path] == File(bytes, synced)
  }

  ghost predicate OwnFiles(cfg: Config, job: Job, pc: Pc, files: Files) {
    var tmp, tmpMeta := TmpPath(cfg.dest, job.nonce), TmpMetaPath(cfg.dest, job.nonce);
    match pc
    case WritingData(n) => n <= |job.data| && Holds(files, tmp, job.data[..n], false)
    case DataSynced => Holds(files, tmp, job.data, cfg.fsyncOnCommit)
    case WritingMeta(n) =>
      && n <= |MetaBytes(cfg, job)| && Holds(files, tmpMeta, MetaBytes(cfg, job)[..n], false)
      && Holds(files, tmp, job.data, cfg.fsyncOnCommit)
    case MetaSynced =>
      && Holds(files, tmpMeta, MetaBytes(cfg, job), cfg.fsyncOnCommit)
      && Holds(files, tmp, job.data, cfg.fsyncOnCommit)
    case DataRenamed => Holds(files, tmpMeta, MetaBytes(cfg, job), cfg.fsyncOnCommit)
    case _ => true
  }

  /** The two files agree on `path`. */
  ghost predicate SameAt(a: Files, b: Files, path: Path) {
    (path in a <==> path in b) && (path in a ==> a[path] == b[path])
  }

  /** What stands at `path` is what was there at first, or the complete bytes of the writer recorded. */
  ghost predicate Published(files: Files, initial: Files, path: Path, from: Option<nat>, bytes: Octets, synced: bool) {
    if from.None? then SameAt(files, initial, path) else Holds(files, path, bytes, synced)
  }

  function DataOf(jobs: seq<Job>, from: Option<nat>): Octets {
    if from.Some? && from.value < |jobs| then jobs[from.value].data else []
  }

  function MetaBytesOf(cfg: Config, jobs: seq<Job>, from: Option<nat>): Octets {
    if from.Some? && from.value < |jobs| then MetaBytes(cfg, jobs[from.value]) else []
  }

  predicate PastData(pc: Pc) {
    pc.DataRenamed? || PastMeta(pc)
  }

  predicate PastMeta(pc: Pc) {
    pc.MetaRenamed? || pc.Finished?
  }

  ghost predicate Inv(cfg: Config, jobs: seq<Job>, initial: Files, s: State) {
    && |s.writers| == |jobs|
    && (forall w :: 0 <= w < |jobs| ==> OwnFiles(cfg, jobs[w], s.writers[w].pc, s.files))
    && (s.dataFrom.Some? ==> s.dataFrom.value < |jobs| && PastData(s.writers[s.dataFrom.value].pc))
    && (s.metaFrom.Some? ==> s.metaFrom.value < |jobs| && PastMeta(s.writers[s.metaFrom.value].pc))
    && (forall w :: 0 <= w < |jobs| && PastData(s.writers[w].pc) ==> s.dataFrom.Some?)
    && (forall w :: 0 <= w < |jobs| && PastMeta(s.writers[w].pc) ==> s.metaFrom.Some?)
    && Published(s.files, initial, cfg.dest, s.dataFrom, DataOf(jobs, s.dataFrom), cfg.fsyncOnCommit)
    && Published(s.files, initial, MetaPath(cfg.dest), s.metaFrom, MetaBytesOf(cfg, jobs, s.metaFrom),
       cfg.fsyncOnCommit)
  }

  // ----- One step

  ghost predicate IsOwn(cfg: Config, job: Job, path: Path) {
    path == TmpPath(cfg.dest, job.nonce) || path == TmpMetaPath(cfg.dest, job.nonce)
  }

  /** A step touches the writer's temporary files and, when it renames, the file it renames onto. */
  lemma NextFrame(cfg: Config, job: Job, pc: Pc, files: Files, chunk: nat, path: Path)
    requires OwnFiles(cfg, job, pc, files) && !IsOwn(cfg, job, path)
    requires path == cfg.dest ==> pc != MetaSynced
    requires path == MetaPath(cfg.dest) ==> pc != DataRenamed
    ensures SameAt(Next(cfg, job, pc, files, chunk).1, files, path)
  {
    hide TmpPath, TmpMetaPath, MetaPath, MetaBytes;
  }

  lemma OwnFilesFrame(cfg: Config, job: Job, pc: Pc, files: Files, files': Files)
    requires OwnFiles(cfg, job, pc, files)
    requires forall path :: IsOwn(cfg, job, path) ==> SameAt(files', files, path)
    ensures OwnFiles(cfg, job, pc, files')
  {
    hide TmpPath, TmpMetaPath, MetaBytes;
    assert IsOwn(cfg, job, TmpPath(cfg.dest, job.nonce)) && IsOwn(cfg, job, TmpMetaPath(cfg.dest, job.nonce));
  }

  lemma NextOwnFiles(cfg: Config, job: Job, pc: Pc, files: Files, chunk: nat)
    requires OwnFiles(cfg, job, pc, files)
    ensures var (pc', files') := Next(cfg, job, pc, files, chunk); OwnFiles(cfg, job, pc', files')
  {
    PathsAreDistinct(cfg.dest, job.nonce, job.nonce);
    hide TmpPath, TmpMetaPath, MetaPath, MetaBytes;
    match pc
    case WritingData(n) =>
      if n < |job.data| {
        var m := Min(n + chunk, |job.data|);
        assert job.data[..n] + job.data[n..m] == job.data[..m];
      } else {
        assert job.data[..n] == job.data;
      }
    case WritingMeta(n) =>
      var bytes := MetaBytes(cfg, job);
      if n < |bytes| {
        var m := Min(n + chunk, |bytes|);
        assert bytes[..n] + bytes[n..m] == bytes[..m];
      } else {
        assert bytes[..n] == bytes;
      }
    case _ =>
  }

  lemma NextPublishes(cfg: Config, job: Job, pc: Pc, files: Files, chunk: nat)
    requires OwnFiles(cfg, job, pc, files)
    ensures var (pc', files') := Next(cfg, job, pc, files, chunk);
            && (pc == MetaSynced ==> pc' == DataRenamed && Holds(files', cfg.dest, job.data, cfg.fsyncOnCommit))
            && (pc == DataRenamed ==>
                  pc' == MetaRenamed && Holds(files', MetaPath(cfg.dest), MetaBytes(cfg, job), cfg.fsyncOnCommit))
            && (pc' == DataRenamed ==> pc == MetaSynced) && (pc' == MetaRenamed ==> pc == DataRenamed)
            && (PastData(pc) ==> PastData(pc')) && (PastMeta(pc) ==> PastMeta(pc'))
            && (PastData(pc') && !PastData(pc) ==> pc' == DataRenamed)
            && (PastMeta(pc') && !PastMeta(pc) ==> pc' == MetaRenamed)
  {
    PathsAreDistinct(cfg.dest, job.nonce, job.nonce);
    hide TmpPath, TmpMetaPath, MetaPath, MetaBytes;
  }

  lemma ForeignPath(cfg: Config, v: Job, w: Job, path: Path)
    requires v.nonce != w.nonce && IsOwn(cfg, v, path)
    ensures !IsOwn(cfg, w, path) && path != cfg.dest && path != MetaPath(cfg.dest)
  {
    PathsAreDistinct(cfg.dest, v.nonce, w.nonce);
    PathsAreDistinct(cfg.dest, w.nonce, v.nonce);
  }

  lemma AdvanceKeepsInv(cfg: Config, jobs: seq<Job>, initial: Files, s: State, w: nat, chunk: nat)
    requires Inv(cfg, jobs, initial, s) && DistinctNonces(jobs) && w < |jobs| && !s.writers[w].stopped
    ensures Inv(cfg, jobs, initial, Step(cfg, jobs, s, Advance(w, chunk)))
  {
    hide TmpPath, TmpMetaPath, MetaPath, MetaBytes, Next, OwnFiles, IsOwn, SameAt, PastData, PastMeta;
    var pc := s.writers[w].pc;
    var (pc', files') := Next(cfg, jobs[w], pc, s.files, chunk);
    var s' := Step(cfg, jobs, s, Advance(w, chunk));
    NextOwnFiles(cfg, jobs[w], pc, s.files, chunk);
    NextPublishes(cfg, jobs[w], pc, s.files, chunk);
    OthersKeepFiles(cfg, jobs, s, w, chunk);
    DestinationKept(cfg, jobs, initial, s, w, chunk);
    if pc != MetaSynced {
      PublishedKept(s.files, files', initial, cfg.dest, s.dataFrom, DataOf(jobs, s.dataFrom), cfg.fsyncOnCommit);
    }
    if pc != DataRenamed {
      PublishedKept(s.files, files', initial, MetaPath(cfg.dest), s.metaFrom, MetaBytesOf(cfg, jobs, s.metaFrom),
        cfg.fsyncOnCommit);
    }
    RenamesArePast();
  }

  lemma RenamesArePast()
    ensures PastData(DataRenamed) && PastMeta(MetaRenamed)
  {
  }

  lemma OthersKeepFiles(cfg: Config, jobs: seq<Job>, s: State, w: nat, chunk: nat)
    requires |s.writers| == |jobs| && (forall v :: 0 <= v < |jobs| ==> OwnFiles(cfg, jobs[v], s.writers[v].pc, s.files))
    requires DistinctNonces(jobs) && w < |jobs|
    ensures forall v :: 0 <= v < |jobs| && v != w ==>
              OwnFiles(cfg, jobs[v], s.writers[v].pc, Next(cfg, jobs[w], s.writers[w].pc, s.files, chunk).1)
  {
    hide TmpPath, TmpMetaPath, MetaPath, MetaBytes, Next, OwnFiles, IsOwn, SameAt;
    var files' := Next(cfg, jobs[w], s.writers[w].pc, s.files, chunk).1;
    forall v | 0 <= v < |jobs| && v != w
      ensures OwnFiles(cfg, jobs[v], s.writers[v].pc, files')
    {
      forall path | IsOwn(cfg, jobs[v], path)
        ensures SameAt(files', s.files, path)
      {
        ForeignPath(cfg, jobs[v], jobs[w], path);
        NextFrame(cfg, jobs[w], s.writers[w].pc, s.files, chunk, path);
      }
      OwnFilesFrame(cfg, jobs[v], s.writers[v].pc, s.files, files');
    }
  }

  lemma DestinationIsNotOwn(cfg: Config, job: Job)
    ensures !IsOwn(cfg, job, cfg.dest) && !IsOwn(cfg, job, MetaPath(cfg.dest)) && cfg.dest != MetaPath(cfg.dest)
  {
    PathsAreDistinct(cfg.dest, job.nonce, job.nonce);
  }

  lemma DestinationKept(cfg: Config, jobs: seq<Job>, initial: Files, s: State, w: nat, chunk: nat)
    requires w < |jobs| && |s.writers| == |jobs| && OwnFiles(cfg, jobs[w], s.writers[w].pc, s.files)
    ensures var files' := Next(cfg, jobs[w], s.writers[w].pc, s.files, chunk).1;
            && (s.writers[w].pc != MetaSynced ==> SameAt(files', s.files, cfg.dest))
            && (s.writers[w].pc != DataRenamed ==> SameAt(files', s.files, MetaPath(cfg.dest)))
  {
    hide TmpPath, TmpMetaPath, MetaPath, MetaBytes, Next, OwnFiles, IsOwn, SameAt;
    DestinationIsNotOwn(cfg, jobs[w]);
    if s.writers[w].pc != MetaSynced { NextFrame(cfg, jobs[w], s.writers[w].pc, s.files, chunk, cfg.dest); }
    if s.writers[w].pc != DataRenamed { NextFrame(cfg, jobs[w], s.writers[w].pc, s.files, chunk, MetaPath(cfg.dest)); }
  }

  lemma PublishedKept(files: Files, files': Files, initial: Files, path: Path, from: Option<nat>, bytes: Octets,
                      synced: bool)
    requires Published(files, initial, path, from, bytes, synced) && SameAt(files', files, path)
    ensures Published(files', initial, path, from, bytes, synced)
  {
  }

  // ----- Every run

  lemma {:induction false} RunKeepsInv(cfg: Config, jobs: seq<Job>, files: Files, events: seq<Event>)
    requires DistinctNonces(jobs)
    ensures Inv(cfg, jobs, files, Run(cfg, jobs, files, events))
    decreases |events|
  {
    if events != [] {
      hide Inv, DistinctNonces, Next;
      var init, e := events[..|events| - 1], events[|events| - 1];
      RunKeepsInv(cfg, jobs, files, init);
      StepKeepsInv(cfg, jobs, files, Run(cfg, jobs, files, init), e);
    }
  }

  lemma StepKeepsInv(cfg: Config, jobs: seq<Job>, initial: Files, s: State, e: Event)
    requires Inv(cfg, jobs, initial, s) && DistinctNonces(jobs)
    ensures Inv(cfg, jobs, initial, Step(cfg, jobs, s, e))
  {
    hide Next, OwnFiles, Published, PastData, PastMeta;
    if e.w < |jobs| && !s.writers[e.w].stopped && e.Advance? {
      AdvanceKeepsInv(cfg, jobs, initial, s, e.w, e.chunk);
    }
  }

  /**
   At every point of every run the destination is as it was at first or holds the complete payload of
   one writer, forced to disk if the writers do so; the sidecar likewise.
   */
  lemma DestinationIsComplete(cfg: Config, jobs: seq<Job>, files: Files, events: seq<Event>)
    requires DistinctNonces(jobs)
    ensures var s := Run(cfg, jobs, files, events);
            && (SameAt(s.files, files, cfg.dest)
                || exists w :: 0 <= w < |jobs| && Holds(s.files, cfg.dest, jobs[w].data, cfg.fsyncOnCommit))
            && (SameAt(s.files, files, MetaPath(cfg.dest))
                || exists w ::
                     0 <= w < |jobs| && Holds(s.files, MetaPath(cfg.dest), MetaBytes(cfg, jobs[w]), cfg.fsyncOnCommit))
  {
    hide Run, OwnFiles, SameAt, Holds, MetaPath, MetaBytes;
    RunKeepsInv(cfg, jobs, files, events);
  }

  // ----- Reading

  datatype ReadError = NoData | NoMeta | BadMeta | MetaMismatch

  type ReadResult = Result<(Octets, ArtifactMeta), ReadError>

  function BytesAt(files: Files, path: Path): Option<Octets> {
    if path in files then Some(files[path].bytes) else None
  }

  /** The check of `read_with_meta` on what it read from the two files. */
  function Verified(env: Env, data: Option<Octets>, metaBytes: Option<Octets>): ReadResult {
    if data.None? then Err(NoData)
    else if metaBytes.None? then Err(NoMeta)
    else match env.decode(metaBytes.value)
      case None => Err(BadMeta)
      case Some(meta) => if Matches(env, data.value, meta) then Ok((data.value, meta)) else Err(MetaMismatch)
  }

  function ReadWithMeta(cfg: Config, files: Files): ReadResult {
    Verified(cfg.env, BytesAt(files, cfg.dest), BytesAt(files, MetaPath(cfg.dest)))
  }

  /**
   A reader that reads the data at one point of a run and the sidecar at a later one gets an error or a
   complete payload, old or written, that matches the sidecar it read.
   */
  lemma ReaderSeesOnePayload(cfg: Config, jobs: seq<Job>, files: Files, before: seq<Event>, between: seq<Event>)
    requires DistinctNonces(jobs)
    ensures var first, second := Run(cfg, jobs, files, before), Run(cfg, jobs, files, before + between);
            var r := Verified(cfg.env, BytesAt(first.files, cfg.dest), BytesAt(second.files, MetaPath(cfg.dest)));
            r.Ok? ==> && Matches(cfg.env, r.value.0, r.value.1)
                      && (BytesAt(files, cfg.dest) == Some(r.value.0)
                         || exists w :: 0 <= w < |jobs| && jobs[w].data == r.value.0)
  {
    hide Run, MetaPath, Matches, MetaBytes;
    DestinationIsComplete(cfg, jobs, files, before);
  }

  /** What a verified read returns once both files have been written in the run. */
  lemma ReadAfterRenames(cfg: Config, jobs: seq<Job>, files: Files, events: seq<Event>)
    requires DistinctNonces(jobs) && RoundTrips(cfg.env)
    ensures var s := Run(cfg, jobs, files, events);
            s.dataFrom.Some? && s.metaFrom.Some?
            ==> && s.dataFrom.value < |jobs| && s.metaFrom.value < |jobs|
                && var data, meta := jobs[s.dataFrom.value].data, MetaOf(cfg, jobs[s.metaFrom.value]);
                   ReadWithMeta(cfg, s.files)
                   == if Matches(cfg.env, data, meta) then Ok((data, meta)) else Err(MetaMismatch)
  {
    hide Run, OwnFiles, MetaPath, Matches, MetaOf;
    RunKeepsInv(cfg, jobs, files, events);
  }

  // ----- A lone writer

  /**
   A verified read beside a lone writer, at any point: the old result before the first rename, the new
   payload after the second, and in between the new payload checked against the old sidecar.
   */
  lemma LoneWriterRead(cfg: Config, job: Job, files: Files, events: seq<Event>)
    requires RoundTrips(cfg.env)
    ensures var s := Run(cfg, [job], files, events);
            var pc := s.writers[0].pc;
            ReadWithMeta(cfg, s.files)
            == if !PastData(pc) then ReadWithMeta(cfg, files)
               else if !PastMeta(pc) then Verified(cfg.env, Some(job.data), BytesAt(files, MetaPath(cfg.dest)))
               else Ok((job.data, MetaOf(cfg, job)))
  {
    hide Run, OwnFiles, MetaPath, Matches, MetaOf;
    RunKeepsInv(cfg, [job], files, events);
    MetaMatches(cfg, job);
    LoneWriterPublishes(cfg, job, files, Run(cfg, [job], files, events));
  }

  lemma MetaMatches(cfg: Config, job: Job)
    ensures Matches(cfg.env, job.data, MetaOf(cfg, job))
  {
    OwnMetaMatches(cfg.env, job.data, job.now);
  }

  lemma LoneWriterPublishes(cfg: Config, job: Job, files: Files, s: State)
    requires Inv(cfg, [job], files, s)
    ensures var pc := s.writers[0].pc;
            && BytesAt(s.files, cfg.dest) == (if PastData(pc) then Some(job.data) else BytesAt(files, cfg.dest))
            && BytesAt(s.files, MetaPath(cfg.dest))
               == (if PastMeta(pc) then Some(MetaBytes(cfg, job)) else BytesAt(files, MetaPath(cfg.dest)))
  {
    hide OwnFiles, MetaPath, MetaBytes;
    assert PastMeta(s.writers[0].pc) ==> PastData(s.writers[0].pc);
  }

  /**
   With a verified pair to begin with, a lone write breaks reads only between its renames, and then unless the
   new data fit the old sidecar.
   */
  lemma LoneWriterWindow(cfg: Config, job: Job, files: Files, events: seq<Event>)
    requires RoundTrips(cfg.env) && ReadWithMeta(cfg, files).Ok?
    ensures var s := Run(cfg, [job], files, events);
            var pc := s.writers[0].pc;
            ReadWithMeta(cfg, s.files).Err?
            <==> PastData(pc) && !PastMeta(pc) && !Matches(cfg.env, job.data, ReadWithMeta(cfg, files).value.1)
  {
    hide Run, Matches, MetaPath;
    LoneWriterRead(cfg, job, files, events);
  }

  /** With no pair to begin with, reads fail until the second rename. */
  lemma LoneWriterFirst(cfg: Config, job: Job, files: Files, events: seq<Event>)
    requires RoundTrips(cfg.env) && cfg.dest !in files && MetaPath(cfg.dest) !in files
    ensures var s := Run(cfg, [job], files, events);
            ReadWithMeta(cfg, s.files).Err? <==> !PastMeta(s.writers[0].pc)
  {
    hide Run, Matches, MetaPath;
    LoneWriterRead(cfg, job, files, events);
  }

  // ----- Power loss

  /** After a power loss a file holds its bytes if they had been forced to disk, and anything otherwise. */
  ghost predicate Recovered(file: File, bytes: Octets) {
    file.synced ==> bytes == file.bytes
  }

  /** With fsync on, a power loss at any point leaves a complete payload at the destination. */
  lemma PowerLossLeavesPayload(cfg: Config, jobs: seq<Job>, files: Files, events: seq<Event>, bytes: Octets)
    requires DistinctNonces(jobs) && cfg.fsyncOnCommit && (cfg.dest in files ==> files[cfg.dest].synced)
    requires var s := Run(cfg, jobs, files, events); cfg.dest in s.files && Recovered(s.files[cfg.dest], bytes)
    ensures BytesAt(files, cfg.dest) == Some(bytes) || exists w :: 0 <= w < |jobs| && jobs[w].data == bytes
  {
    hide Run, MetaPath, MetaBytes;
    DestinationIsComplete(cfg, jobs, files, events);
  }

  ghost predicate SyncedAt(files: Files, path: Path) {
    path in files ==> files[path].synced
  }

  /**
   For a lone writer a power loss leaves a complete payload, whatever is recovered, exactly with fsync on or
   before the rename.
   */
  lemma PayloadSurvivesIff(cfg: Config, job: Job, files: Files, events: seq<Event>)
    requires SyncedAt(files, cfg.dest)
    requires cfg.dest in Run(cfg, [job], files, events).files
    ensures var s := Run(cfg, [job], files, events);
            (forall bytes :: Recovered(s.files[cfg.dest], bytes) ==>
               bytes == job.data || BytesAt(files, cfg.dest) == Some(bytes))
            <==> cfg.fsyncOnCommit || !PastData(s.writers[0].pc)
  {
    hide Run, OwnFiles, MetaPath, MetaBytes;
    RunKeepsInv(cfg, [job], files, events);
    var s := Run(cfg, [job], files, events);
    if !cfg.fsyncOnCommit && PastData(s.writers[0].pc) {
      var earlier := if cfg.dest in files then files[cfg.dest].bytes else [];
      var bytes: Octets := job.data + earlier + [0];
      assert Recovered(s.files[cfg.dest], bytes) && |bytes| > |job.data| && |bytes| > |earlier|;
    }
  }

  /**
   A rename may be lost until the directory has been forced to disk: each of the two files stands as it
   did at some point of the run since which the directory has not been forced to disk.
   */
  ghost predicate MaySurvive(cfg: Config, jobs: seq<Job>, files: Files, events: seq<Event>, n: nat) {
    n <= |events| && Run(cfg, jobs, files, events[..n]).syncs == Run(cfg, jobs, files, events).syncs
  }

  /** Every writer that has finished since some point of a run has forced the directory to disk since then. */
  lemma {:induction false} FinishingSyncs(cfg: Config, jobs: seq<Job>, files: Files, events: seq<Event>, n: nat, w: nat)
    requires cfg.fsyncOnCommit && n <= |events| && w < |jobs|
    ensures var s, s' := Run(cfg, jobs, files, events[..n]), Run(cfg, jobs, files, events);
            s.syncs + (if s'.writers[w].pc.Finished? && !s.writers[w].pc.Finished? then 1 else 0) <= s'.syncs
    decreases |events|
  {
    hide Run, Next;
    if n == |events| {
      assert events[..n] == events;
    } else {
      var init := events[..|events| - 1];
      assert init[..n] == events[..n] && events == init + [events[|events| - 1]];
      FinishingSyncs(cfg, jobs, files, init, n, w);
      RunOneMore(cfg, jobs, files, init, events[|events| - 1]);
      FinishingStep(cfg, jobs, Run(cfg, jobs, files, init), events[|events| - 1], w);
    }
  }

  lemma FinishingStep(cfg: Config, jobs: seq<Job>, s: State, e: Event, w: nat)
    requires cfg.fsyncOnCommit && |s.writers| == |jobs| && w < |jobs|
    ensures var s' := Step(cfg, jobs, s, e);
            s'.syncs >= s.syncs + if s'.writers[w].pc.Finished? && !s.writers[w].pc.Finished? then 1 else 0
  {
    hide TmpPath, TmpMetaPath, MetaPath, MetaBytes;
  }

  /** With fsync off nothing is ever forced to disk, so every rename of the run may be lost at its end. */
  lemma {:induction false} WithoutFsyncRenamesMayBeLost(cfg: Config, jobs: seq<Job>, files: Files, events: seq<Event>)
    requires !cfg.fsyncOnCommit
    ensures Run(cfg, jobs, files, events).syncs == 0 && MaySurvive(cfg, jobs, files, events, 0)
    decreases |events|
  {
    if events != [] { WithoutFsyncRenamesMayBeLost(cfg, jobs, files, events[..|events| - 1]); }
    assert events[..0] == [];
  }

  /** A writer that has stopped takes no further step, and once all have stopped no file changes. */
  lemma {:induction false} StopIsFinal(cfg: Config, jobs: seq<Job>, files: Files, events: seq<Event>, more: seq<Event>)
    ensures var s, s' := Run(cfg, jobs, files, events), Run(cfg, jobs, files, events + more);
            && (forall w :: 0 <= w < |jobs| && s.writers[w].stopped ==> s'.writers[w] == s.writers[w])
            && ((forall w :: 0 <= w < |jobs| ==> s.writers[w].stopped) ==> s' == s)
    decreases |more|
  {
    hide Run, Next;
    if more == [] {
      assert events + more == events;
    } else {
      var init, e := more[..|more| - 1], more[|more| - 1];
      StopIsFinal(cfg, jobs, files, events, init);
      RunOneMore(cfg, jobs, files, events + init, e);
      assert events + init + [e] == events + more;
    }
  }

  ghost predicate StandsAs(point: Files, after: Files, path: Path) {
    (path in after <==> path in point) && (path in point ==> Recovered(point[path], after[path].bytes))
  }

  /**
   `after` is what a power loss at the end of the run may leave: the data as of point `i`, the sidecar as of
   point `j`.
   */
  ghost predicate AfterPowerLoss(cfg: Config, jobs: seq<Job>, files: Files, events: seq<Event>, i: nat, j: nat,
                                 after: Files) {
    && MaySurvive(cfg, jobs, files, events, i) && MaySurvive(cfg, jobs, files, events, j)
    && StandsAs(Run(cfg, jobs, files, events[..i]).files, after, cfg.dest)
    && StandsAs(Run(cfg, jobs, files, events[..j]).files, after, MetaPath(cfg.dest))
  }

  lemma DestinationIsDurable(cfg: Config, jobs: seq<Job>, files: Files, s: State, after: Files)
    requires Inv(cfg, jobs, files, s) && cfg.fsyncOnCommit
    ensures SyncedAt(files, cfg.dest) && StandsAs(s.files, after, cfg.dest)
            ==> BytesAt(after, cfg.dest) == BytesAt(s.files, cfg.dest)
    ensures SyncedAt(files, MetaPath(cfg.dest)) && StandsAs(s.files, after, MetaPath(cfg.dest))
            ==> BytesAt(after, MetaPath(cfg.dest)) == BytesAt(s.files, MetaPath(cfg.dest))
  {
    hide OwnFiles, MetaPath, MetaBytes;
  }

  /** With fsync on, a verified read after a power loss gives an error or a complete payload, old or written. */
  lemma PowerLossRead(cfg: Config, jobs: seq<Job>, files: Files, events: seq<Event>, i: nat, j: nat, after: Files)
    requires DistinctNonces(jobs) && cfg.fsyncOnCommit && SyncedAt(files, cfg.dest)
    requires AfterPowerLoss(cfg, jobs, files, events, i, j, after)
    ensures var r := ReadWithMeta(cfg, after);
            r.Ok? ==> && Matches(cfg.env, r.value.0, r.value.1)
                      && (BytesAt(files, cfg.dest) == Some(r.value.0)
                         || exists w :: 0 <= w < |jobs| && jobs[w].data == r.value.0)
  {
    hide Run, MetaPath, Matches, MetaBytes, Inv, SameAt, StandsAs;
    RunKeepsInv(cfg, jobs, files, events[..i]);
    DestinationIsDurable(cfg, jobs, files, Run(cfg, jobs, files, events[..i]), after);
    DestinationHolds(cfg, jobs, files, events[..i]);
  }

  lemma DestinationHolds(cfg: Config, jobs: seq<Job>, files: Files, events: seq<Event>)
    requires DistinctNonces(jobs)
    ensures var bytes := BytesAt(Run(cfg, jobs, files, events).files, cfg.dest);
            bytes == BytesAt(files, cfg.dest) || exists w :: 0 <= w < |jobs| && bytes == Some(jobs[w].data)
  {
    hide Run, MetaPath, MetaBytes;
    DestinationIsComplete(cfg, jobs, files, events);
  }

  /**
   A verified read after a power loss beside a lone writer: old or new data against old or new sidecar,
   in any combination until the directory is synchronised, and the new pair from then on.
   */
  lemma LoneWriterPowerLoss(cfg: Config, job: Job, files: Files, events: seq<Event>, i: nat, j: nat, after: Files)
    requires RoundTrips(cfg.env) && cfg.fsyncOnCommit
    requires SyncedAt(files, cfg.dest) && SyncedAt(files, MetaPath(cfg.dest))
    requires AfterPowerLoss(cfg, [job], files, events, i, j, after)
    ensures var dataPc := Run(cfg, [job], files, events[..i]).writers[0].pc;
            var metaPc := Run(cfg, [job], files, events[..j]).writers[0].pc;
            ReadWithMeta(cfg, after)
            == Verified(cfg.env, if PastData(dataPc) then Some(job.data) else BytesAt(files, cfg.dest),
                        if PastMeta(metaPc) then Some(MetaBytes(cfg, job)) else BytesAt(files, MetaPath(cfg.dest)))
    ensures Run(cfg, [job], files, events).writers[0].pc.Finished?
            ==> ReadWithMeta(cfg, after) == Ok((job.data, MetaOf(cfg, job)))
  {
    hide Run, MetaPath, Matches, Inv, StandsAs;
    FinishingSyncs(cfg, [job], files, events, i, 0);
    FinishingSyncs(cfg, [job], files, events, j, 0);
    var atData, atMeta := Run(cfg, [job], files, events[..i]), Run(cfg, [job], files, events[..j]);
    RunKeepsInv(cfg, [job], files, events[..i]);
    RunKeepsInv(cfg, [job], files, events[..j]);
    DestinationIsDurable(cfg, [job], files, atData, after);
    DestinationIsDurable(cfg, [job], files, atMeta, after);
    LoneWriterPublishes(cfg, job, files, atData);
    LoneWriterPublishes(cfg, job, files, atMeta);
    MetaMatches(cfg, job);
  }

  /**
   From a verified pair, the read after a power loss fails exactly if one rename survived without the other
   and the parts do not fit.
   */
  lemma PowerLossWindow(cfg: Config, job: Job, files: Files, events: seq<Event>, i: nat, j: nat, after: Files)
    requires RoundTrips(cfg.env) && cfg.fsyncOnCommit && ReadWithMeta(cfg, files).Ok?
    requires SyncedAt(files, cfg.dest) && SyncedAt(files, MetaPath(cfg.dest))
    requires AfterPowerLoss(cfg, [job], files, events, i, j, after)
    ensures var newData := PastData(Run(cfg, [job], files, events[..i]).writers[0].pc);
            var newMeta := PastMeta(Run(cfg, [job], files, events[..j]).writers[0].pc);
            var (oldData, oldMeta) := ReadWithMeta(cfg, files).value;
            ReadWithMeta(cfg, after).Err?
            <==> || (newData && !newMeta && !Matches(cfg.env, job.data, oldMeta))
                 || (!newData && newMeta && !Matches(cfg.env, oldData, MetaOf(cfg, job)))
  {
    hide Run, MetaPath, Matches, MetaOf, AfterPowerLoss, SyncedAt;
    LoneWriterPowerLoss(cfg, job, files, events, i, j, after);
    MetaMatches(cfg, job);
  }

  // ----- Runs that exist

  lemma RunOneMore(cfg: Config, jobs: seq<Job>, files: Files, events: seq<Event>, e: Event)
    ensures Run(cfg, jobs, files, events + [e]) == Step(cfg, jobs, Run(cfg, jobs, files, events), e)
  {
    assert (events + [e])[..|events|] == events;
  }

  function Rank(cfg: Config, job: Job, pc: Pc): int {
    match pc
    case Start => |job.data| + |MetaBytes(cfg, job)| + 4
    case WritingData(n) => |job.data| - n + |MetaBytes(cfg, job)| + 3
    case DataSynced => |MetaBytes(cfg, job)| + 2
    case WritingMeta(n) => |MetaBytes(cfg, job)| - n + 1
    case _ => 0
  }

  lemma NextComesNearer(cfg: Config, job: Job, pc: Pc, files: Files)
    requires OwnFiles(cfg, job, pc, files) && !PastData(pc) && pc != MetaSynced
    ensures var pc' := Next(cfg, job, pc, files, 1).0;
            !PastData(pc') && 0 <= Rank(cfg, job, pc') < Rank(cfg, job, pc)
  {
    hide TmpPath, TmpMetaPath, MetaBytes;
  }

  /** A writer that has neither stopped nor renamed can be brought to the point before its first rename. */
  lemma {:induction false} DriveToRename(cfg: Config, jobs: seq<Job>, files: Files, events: seq<Event>, w: nat)
    returns (more: seq<Event>)
    requires DistinctNonces(jobs) && w < |jobs|
    requires var s := Run(cfg, jobs, files, events); !s.writers[w].stopped && !PastData(s.writers[w].pc)
    ensures var s, s' := Run(cfg, jobs, files, events), Run(cfg, jobs, files, more);
            && s'.writers == s.writers[w := Writer(MetaSynced, false)]
            && s'.dataFrom == s.dataFrom && s'.metaFrom == s.metaFrom
    decreases Rank(cfg, jobs[w], Run(cfg, jobs, files, events).writers[w].pc)
  {
    hide Run, Next, OwnFiles, Rank, PastMeta, MetaPath;
    var s := Run(cfg, jobs, files, events);
    more := events;
    if s.writers[w].pc == MetaSynced {
      assert s.writers[w := Writer(MetaSynced, false)] == s.writers;
    } else {
      RunKeepsInv(cfg, jobs, files, events);
      NextComesNearer(cfg, jobs[w], s.writers[w].pc, s.files);
      RunOneMore(cfg, jobs, files, events, Advance(w, 1));
      var s1 := Run(cfg, jobs, files, events + [Advance(w, 1)]);
      more := DriveToRename(cfg, jobs, files, events + [Advance(w, 1)], w);
      assert s1.writers[w := Writer(MetaSynced, false)] == s.writers[w := Writer(MetaSynced, false)];
      RenamesArePast();
    }
  }

  /** One rename of a writer that is ready for it. */
  lemma RenameStep(cfg: Config, jobs: seq<Job>, files: Files, events: seq<Event>, w: nat)
    requires w < |jobs|
    requires var x := Run(cfg, jobs, files, events).writers[w];
             !x.stopped && (x.pc == MetaSynced || x.pc == DataRenamed)
    ensures var s, s' := Run(cfg, jobs, files, events), Run(cfg, jobs, files, events + [Advance(w, 1)]);
            if s.writers[w].pc == MetaSynced then
              s'.writers == s.writers[w := Writer(DataRenamed, false)] && s'.dataFrom == Some(w)
              && s'.metaFrom == s.metaFrom
            else
              s'.writers == s.writers[w := Writer(MetaRenamed, false)] && s'.dataFrom == s.dataFrom
              && s'.metaFrom == Some(w)
  {
    hide Run, TmpPath, TmpMetaPath, MetaPath;
    RunOneMore(cfg, jobs, files, events, Advance(w, 1));
  }

  /** Whatever a crash left behind, a write run alone to completion restores a verified pair. */
  lemma RerunRestores(cfg: Config, job: Job, files: Files) returns (events: seq<Event>)
    requires RoundTrips(cfg.env)
    ensures Run(cfg, [job], files, events).writers[0].pc == MetaRenamed
    ensures ReadWithMeta(cfg, Run(cfg, [job], files, events).files) == Ok((job.data, MetaOf(cfg, job)))
  {
    assert !PastData(Run(cfg, [job], files, []).writers[0].pc);
    hide Run, ReadWithMeta, MetaOf;
    events := DriveToRename(cfg, [job], files, [], 0);
    RenameStep(cfg, [job], files, events, 0);
    events := events + [Advance(0, 1)];
    RenameStep(cfg, [job], files, events, 0);
    events := events + [Advance(0, 1)];
    LoneWriterRead(cfg, job, files, events);
  }

  /**
   The pair does not change in one step: between the renames of a lone write a verified read of the
   destination fails whenever the new payload does not fit the sidecar that was there.
   */
  lemma PairIsBrokenBetweenRenames(cfg: Config, job: Job, files: Files) returns (events: seq<Event>)
    requires RoundTrips(cfg.env) && ReadWithMeta(cfg, files).Ok?
    ensures var s := Run(cfg, [job], files, events);
            && s.writers[0].pc == DataRenamed
            && BytesAt(s.files, cfg.dest) == Some(job.data)
            && (ReadWithMeta(cfg, s.files).Err? <==> !Matches(cfg.env, job.data, ReadWithMeta(cfg, files).value.1))
  {
    assert !PastData(Run(cfg, [job], files, []).writers[0].pc);
    hide Run, MetaOf, Matches, MetaPath, ReadWithMeta, OwnFiles;
    events := DriveToRename(cfg, [job], files, [], 0);
    RenameStep(cfg, [job], files, events, 0);
    events := events + [Advance(0, 1)];
    LoneWriterWindow(cfg, job, files, events);
    RunKeepsInv(cfg, [job], files, events);
    LoneWriterPublishes(cfg, job, files, Run(cfg, [job], files, events));
  }

  /**
   Two writers whose renames interleave may leave the data of one beside the sidecar of the other for
   good; reads then succeed exactly if that data happens to fit that sidecar.
   */
  lemma InterleavedRenames(cfg: Config, jobs: seq<Job>, files: Files) returns (events: seq<Event>)
    requires RoundTrips(cfg.env) && DistinctNonces(jobs) && |jobs| == 2
    ensures var s := Run(cfg, jobs, files, events);
            && PastMeta(s.writers[0].pc) && PastMeta(s.writers[1].pc)
            && (ReadWithMeta(cfg, s.files).Ok? <==> Matches(cfg.env, jobs[1].data, MetaOf(cfg, jobs[0])))
  {
    assert Run(cfg, jobs, files, []).writers == [Writer(Start, false), Writer(Start, false)];
    hide Run, ReadWithMeta, MetaOf, Matches;
    events := DriveToRename(cfg, jobs, files, [], 0);
    events := DriveToRename(cfg, jobs, files, events, 1);
    RenameStep(cfg, jobs, files, events, 0);
    events := events + [Advance(0, 1)];
    RenameStep(cfg, jobs, files, events, 1);
    events := events + [Advance(1, 1)];
    RenameStep(cfg, jobs, files, events, 1);
    events := events + [Advance(1, 1)];
    RenameStep(cfg, jobs, files, events, 0);
    events := events + [Advance(0, 1)];
    ReadAfterRenames(cfg, jobs, files, events);
  }

  /** With fsync off, a power loss after the first rename may leave anything at the destination. */
  lemma WithoutFsyncPayloadMayBeLost(cfg: Config, job: Job, files: Files, bytes: Octets) returns (events: seq<Event>)
    requires !cfg.fsyncOnCommit
    ensures var s := Run(cfg, [job], files, events);
            s.writers[0].pc == DataRenamed && cfg.dest in s.files && Recovered(s.files[cfg.dest], bytes)
  {
    assert !PastData(Run(cfg, [job], files, []).writers[0].pc);
    hide Run, MetaPath, OwnFiles;
    events := DriveToRename(cfg, [job], files, [], 0);
    RenameStep(cfg, [job], files, events, 0);
    events := events + [Advance(0, 1)];
    RunKeepsInv(cfg, [job], files, events);
  }
}
