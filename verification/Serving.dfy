/** The audit sink that the handlers share, and what their runs leave in the files. */
module Serving {
  import opened Types
  import opened Wrappers
  import opened Gzip
  import opened Json
  import opened AuditFormat
  import opened Sealing
  import opened Matching
  import opened RecordPairing
  import opened Verify
  import opened Proxy

  // ----- The sink the handlers share

  function BytesAt(files: map<Path, Bytes>, path: Path): Bytes {
    if path in files then files[path] else []
  }

  /** The open log files, one writer per path; `existing` is what the files held before the first write. */
  class AuditSink {
    const existing: map<Path, Bytes>
    var writers: map<Path, AuditWriter>

    ghost predicate Valid()
      reads this
    {
      forall p, q :: p in writers && q in writers && p != q ==> writers[p] != writers[q]
    }

    /** The content of the file at `path` followed by what waits to be written to it. */
    ghost function Stream(path: Path): Bytes
      reads this, writers.Values
    {
      if path in writers then writers[path].Stream() else BytesAt(existing, path)
    }

    /** The file at `path`. */
    function FileAt(path: Path): Option<Bytes>
      reads this, writers.Values
    {
      if path in writers then Some(writers[path].file)
      else if path in existing then Some(existing[path])
      else None
    }

    constructor (existing: map<Path, Bytes>)
      ensures Valid() && writers == map[] && this.existing == existing
    {
      this.existing := existing;
      writers := map[];
    }

    /** `opens` says whether the directory can be made and the file opened. */
    method Ensure(path: Path, opens: bool) returns (ok: bool)
      requires Valid()
      modifies this
      ensures Valid()
      ensures ok <==> path in old(writers) || opens
      ensures ok <==> path in writers
      ensures forall p :: p in old(writers) ==> p in writers && writers[p] == old(writers[p])
      ensures forall p :: p in writers && p !in old(writers) ==> p == path && fresh(writers[p])
      ensures forall p :: Stream(p) == old(Stream(p))
    {
      if path in writers { return true; }
      if !opens { return false; }
      var writer := new AuditWriter(BytesAt(existing, path));
      writers := writers[path := writer];
      return true;
    }

    /** Adds what the write yields to the bytes for the file at `path` and leaves every other file alone. */
    method Write(gz: Gzip, c: Codec, path: Path, r: AuditRecord, opens: bool, outcome: WriteOutcome)
      returns (sealed: AuditRecord, ok: bool)
      requires Valid()
      modifies this, writers.Values
      ensures Valid() && (ok ==> sealed == Seal(c, r))
      ensures ok <==> (path in old(writers) || opens) && outcome == Written
      ensures path in writers <==> path in old(writers) || opens
      ensures Stream(path) == old(Stream(path)) + (if path in writers then Piece(gz, c, r, outcome) else [])
      ensures forall p :: p != path ==> Stream(p) == old(Stream(p))
      ensures forall p :: p in writers ==> (p in old(writers) && writers[p] == old(writers[p])) || fresh(writers[p])
    {
      hide Piece;
      ok := Ensure(path, opens);
      if !ok { return r, false; }
      label installed:
      sealed, ok := writers[path].WriteRecord(gz, c, r, outcome);
      assert forall p :: p in writers && p != path ==>
        writers[p].file == old@installed(writers[p].file) && writers[p].buffer == old@installed(writers[p].buffer);
    }

    /** `flush_all`, which stops at the first failure; `stuck` says which writers fail and how much they keep. */
    method FlushAll(stuck: map<Path, nat>) returns (ok: bool)
      requires Valid()
      modifies writers.Values
      ensures Valid()
      ensures forall p :: Stream(p) == old(Stream(p))
      ensures ok ==> forall p :: p in writers ==> writers[p].buffer == []
      ensures stuck == map[] ==> ok
    {
      hide AuditWriter.Stream;
      var todo := writers.Keys;
      while todo != {}
        invariant todo <= writers.Keys
        invariant forall p :: p in writers ==> writers[p].Stream() == old(writers[p].Stream())
        invariant forall p :: p in writers && p !in todo ==> writers[p].buffer == []
        decreases |todo|
      {
        var p :| p in todo;
        ok := writers[p].FlushGz(if p in stuck then Some(stuck[p]) else None);
        if !ok { return; }
        todo := todo - {p};
      }
      return true;
    }
  }

  // ----- From the handlers to the files

  /** What a step asks of the sink: a record to write, where, and how the write ends. */
  function WriteOf(requests: seq<AuditRecord>, s: State, e: Event): Option<(Path, AuditRecord, WriteOutcome)>
    requires |s.phases| == |requests|
  {
    if e.h >= |requests| then None else
    match e
    case LogRequest(h, outcome) =>
      if s.phases[h].Resolved? then Some((s.phases[h].path, requests[h], outcome)) else None
    case LogTerminal(h, terminal, outcome) =>
      if s.phases[h].AwaitingUpstream? && IsTerminalOf(terminal, requests[h])
      then Some((s.phases[h].path, terminal, outcome))
      else None
    case _ => None
  }

  /** What a step adds to the bytes for a file. */
  function PieceAt(gz: Gzip, c: Codec, requests: seq<AuditRecord>, s: State, e: Event, path: Path): Bytes
    requires |s.phases| == |requests|
  {
    match WriteOf(requests, s, e)
    case Some((p, r, outcome)) => if p == path then Piece(gz, c, r, outcome) else []
    case None => []
  }

  /** What a run adds to the bytes for a file. */
  function Emitted(gz: Gzip, c: Codec, requests: seq<AuditRecord>, prior: map<Path, seq<AuditRecord>>,
                   events: seq<Event>, path: Path): Bytes {
    if events == [] then [] else
      var init := events[..|events| - 1];
      Emitted(gz, c, requests, prior, init, path)
      + PieceAt(gz, c, requests, Run(requests, prior, init), events[|events| - 1], path)
  }

  /** A step changes the logs by the record it writes and in no other way. */
  lemma StepLogs(requests: seq<AuditRecord>, s: State, e: Event)
    requires |s.phases| == |requests|
    ensures |Step(requests, s, e).phases| == |requests|
    ensures Step(requests, s, e).logs
            == match WriteOf(requests, s, e)
               case Some((path, r, outcome)) => Append(s.logs, path, r, outcome)
               case None => s.logs
  {
  }

  /** The step of a handler, with its write carried out on the sink. */
  method Perform(sink: AuditSink, gz: Gzip, c: Codec, requests: seq<AuditRecord>, s: State, e: Event)
    returns (s': State)
    requires |s.phases| == |requests| && sink.Valid()
    modifies sink, sink.writers.Values
    ensures s' == Step(requests, s, e) && |s'.phases| == |requests|
    ensures sink.Valid()
    ensures forall path :: sink.Stream(path) == old(sink.Stream(path)) + PieceAt(gz, c, requests, s, e, path)
    ensures forall p :: p in sink.writers ==>
              (p in old(sink.writers) && sink.writers[p] == old(sink.writers[p])) || fresh(sink.writers[p])
  {
    hide Step, WriteOf, Piece, AuditSink.Stream, AuditSink.Valid;
    s' := Step(requests, s, e);
    StepLogs(requests, s, e);
    var write := WriteOf(requests, s, e);
    if write.Some? {
      var (path, r, outcome) := write.value;
      var _, _ := sink.Write(gz, c, path, r, true, outcome);
    }
  }

  /** Handlers driving one sink put into every file, or have waiting for it, just what the run of their steps emits. */
  method Serve(gz: Gzip, c: Codec, requests: seq<AuditRecord>, prior: map<Path, seq<AuditRecord>>,
               files: map<Path, Bytes>, events: seq<Event>)
    returns (sink: AuditSink)
    ensures fresh(sink) && sink.Valid() && sink.existing == files
    ensures forall p :: p in sink.writers ==> fresh(sink.writers[p])
    ensures forall path :: sink.Stream(path) == BytesAt(files, path) + Emitted(gz, c, requests, prior, events, path)
  {
    hide Step, PieceAt;
    sink := new AuditSink(files);
    var s := Run(requests, prior, []);
    for i := 0 to |events|
      invariant s == Run(requests, prior, events[..i])
      invariant fresh(sink) && sink.Valid() && sink.existing == files
      invariant forall p :: p in sink.writers ==> fresh(sink.writers[p])
      invariant forall path ::
                  sink.Stream(path) == BytesAt(files, path) + Emitted(gz, c, requests, prior, events[..i], path)
    {
      assert events[..i + 1][..i] == events[..i];
      s := Perform(sink, gz, c, requests, s, events[i]);
      forall path
        ensures sink.Stream(path) == BytesAt(files, path) + Emitted(gz, c, requests, prior, events[..i + 1], path)
      {
        Longer(BytesAt(files, path), Emitted(gz, c, requests, prior, events[..i], path),
               PieceAt(gz, c, requests, Run(requests, prior, events[..i]), events[i], path));
      }
    }
    assert events[..|events|] == events;
  }

  lemma Longer(a: Bytes, b: Bytes, more: Bytes)
    ensures (a + b) + more == a + (b + more)
  {
  }

  /** No write to the file at `path` ends with a member torn. */
  ghost predicate Untorn(requests: seq<AuditRecord>, prior: map<Path, seq<AuditRecord>>, events: seq<Event>,
                         path: Path) {
    forall i | 0 <= i < |events| :: !TearsAt(requests, Run(requests, prior, events[..i]), events[i], path)
  }

  predicate TearsAt(requests: seq<AuditRecord>, s: State, e: Event, path: Path)
    requires |s.phases| == |requests|
  {
    match WriteOf(requests, s, e)
    case Some((p, _, outcome)) => p == path && outcome.Torn?
    case None => false
  }

  lemma StepArchive(gz: Gzip, c: Codec, requests: seq<AuditRecord>, s: State, e: Event, path: Path)
    requires |s.phases| == |requests| && !TearsAt(requests, s, e, path)
    ensures Archive(gz, c, LogAt(Step(requests, s, e).logs, path))
            == Archive(gz, c, LogAt(s.logs, path)) + PieceAt(gz, c, requests, s, e, path)
  {
    hide Step, WriteOf, Archive, Member;
    StepLogs(requests, s, e);
    match WriteOf(requests, s, e) {
      case Some((p, r, outcome)) =>
        if p == path && IsTaken(outcome) { ArchiveGrows(gz, c, LogAt(s.logs, path), r); }
      case None =>
    }
  }

  lemma UntornInit(requests: seq<AuditRecord>, prior: map<Path, seq<AuditRecord>>, events: seq<Event>, path: Path)
    requires Untorn(requests, prior, events, path) && events != []
    ensures var n := |events| - 1;
            Untorn(requests, prior, events[..n], path)
            && !TearsAt(requests, Run(requests, prior, events[..n]), events[n], path)
  {
    hide TearsAt, Run;
    var n := |events| - 1;
    forall i | 0 <= i < n
      ensures !TearsAt(requests, Run(requests, prior, events[..n][..i]), events[..n][i], path)
    {
      assert events[..n][..i] == events[..i];
    }
  }

  /** As long as no member is torn, a run emits the members of the records it logs. */
  lemma {:induction false} EmittedIsArchive(gz: Gzip, c: Codec, requests: seq<AuditRecord>,
                                            prior: map<Path, seq<AuditRecord>>, events: seq<Event>, path: Path)
    requires Untorn(requests, prior, events, path)
    ensures Archive(gz, c, LogAt(Run(requests, prior, events).logs, path))
            == Archive(gz, c, LogAt(prior, path)) + Emitted(gz, c, requests, prior, events, path)
    decreases |events|
  {
    hide Archive, Step, PieceAt, TearsAt, Untorn;
    if events != [] {
      var n := |events| - 1;
      UntornInit(requests, prior, events, path);
      EmittedIsArchive(gz, c, requests, prior, events[..n], path);
      StepArchive(gz, c, requests, Run(requests, prior, events[..n]), events[n], path);
      Longer(Archive(gz, c, LogAt(prior, path)), Emitted(gz, c, requests, prior, events[..n], path),
             PieceAt(gz, c, requests, Run(requests, prior, events[..n]), events[n], path));
    }
  }

  lemma {:induction false} EmittedGrows(gz: Gzip, c: Codec, requests: seq<AuditRecord>,
                                        prior: map<Path, seq<AuditRecord>>, events: seq<Event>, i: nat, path: Path)
    requires i <= |events|
    ensures Emitted(gz, c, requests, prior, events[..i], path) <= Emitted(gz, c, requests, prior, events, path)
    decreases |events|
  {
    hide PieceAt;
    if i < |events| {
      var init := events[..|events| - 1];
      EmittedGrows(gz, c, requests, prior, init, i, path);
      assert init[..i] == events[..i];
    } else {
      assert events[..i] == events;
    }
  }

  /** What a run emits, seen from its step `i`. */
  lemma EmittedAround(gz: Gzip, c: Codec, requests: seq<AuditRecord>, prior: map<Path, seq<AuditRecord>>,
                      events: seq<Event>, i: nat, path: Path) returns (more: Bytes)
    requires i < |events|
    ensures Emitted(gz, c, requests, prior, events, path)
            == Emitted(gz, c, requests, prior, events[..i], path)
               + (PieceAt(gz, c, requests, Run(requests, prior, events[..i]), events[i], path) + more)
  {
    hide PieceAt, Run;
    var before := Emitted(gz, c, requests, prior, events[..i], path);
    var part := PieceAt(gz, c, requests, Run(requests, prior, events[..i]), events[i], path);
    assert events[..i + 1][..i] == events[..i];
    assert Emitted(gz, c, requests, prior, events[..i + 1], path) == before + part;
    hide Emitted;
    EmittedGrows(gz, c, requests, prior, events, i + 1, path);
    var all := Emitted(gz, c, requests, prior, events, path);
    more := all[|before + part|..];
    assert all == (before + part) + more;
    Longer(before, part, more);
  }

  /** The write of step `i` tears a member of the file at `path` after a proper part of it. */
  predicate TearsMember(gz: Gzip, c: Codec, requests: seq<AuditRecord>, s: State, e: Event, path: Path)
    requires |s.phases| == |requests|
  {
    match WriteOf(requests, s, e)
    case Some((p, r, outcome)) => p == path && outcome.Torn? && 0 < outcome.written < |Member(gz, c, r)|
    case None => false
  }

  lemma TornPiece(gz: Gzip, c: Codec, requests: seq<AuditRecord>, s: State, e: Event, path: Path)
    returns (r: AuditRecord, k: nat)
    requires |s.phases| == |requests| && TearsMember(gz, c, requests, s, e, path)
    ensures 0 < k < |Member(gz, c, r)| && PieceAt(gz, c, requests, s, e, path) == Member(gz, c, r)[..k]
  {
    hide Member, WriteOf;
    r, k := WriteOf(requests, s, e).value.1, WriteOf(requests, s, e).value.2.written;
  }

  /** The file of a run in which a member was torn is invalid for good, unless the torn part passes for a member. */
  lemma TornRunIsInvalid(gz: Gzip, c: Codec, parse: EventParser, requests: seq<AuditRecord>,
                         prior: map<Path, seq<AuditRecord>>, events: seq<Event>, i: nat, path: Path, calls: File,
                         db: Option<seq<Row>>) returns (more: Bytes)
    requires Unzips(gz) && i < |events| && Untorn(requests, prior, events[..i], path)
    requires TearsMember(gz, c, requests, Run(requests, prior, events[..i]), events[i], path)
    ensures var bytes := Archive(gz, c, LogAt(prior, path)) + Emitted(gz, c, requests, prior, events, path);
            var part := PieceAt(gz, c, requests, Run(requests, prior, events[..i]), events[i], path);
            && bytes == Archive(gz, c, LogAt(Run(requests, prior, events[..i]).logs, path)) + (part + more)
            && (|| VerdictOf(gz, c, parse, Some(bytes), calls, db) == "invalid"
                || (more != [] && gz.next(part + more).Some?))
  {
    hide Archive, VerdictOf, Run, Unzips, Member, Emitted, PieceAt, TearsMember, Untorn;
    var s := Run(requests, prior, events[..i]);
    EmittedIsArchive(gz, c, requests, prior, events[..i], path);
    more := EmittedAround(gz, c, requests, prior, events, i, path);
    var r, k := TornPiece(gz, c, requests, s, events[i], path);
    var part := PieceAt(gz, c, requests, s, events[i], path);
    Longer(Archive(gz, c, LogAt(prior, path)), Emitted(gz, c, requests, prior, events[..i], path), part + more);
    TornStaysInvalid(gz, c, parse, LogAt(s.logs, path), r, k, more, calls, db);
  }

  /**
   A proxy that stopped at any point: its file is a part of the log on disk, invalid unless it ends between
   members.
   */
  lemma StoppedRun(gz: Gzip, c: Codec, parse: EventParser, requests: seq<AuditRecord>,
                   prior: map<Path, seq<AuditRecord>>, events: seq<Event>, path: Path, file: Bytes, calls: File,
                   db: Option<seq<Row>>)
    requires Unzips(gz) && Untorn(requests, prior, events, path)
    requires file <= Archive(gz, c, LogAt(prior, path)) + Emitted(gz, c, requests, prior, events, path)
    ensures var log := LogAt(Run(requests, prior, events).logs, path);
            && |file| <= |Archive(gz, c, log)| && file == Archive(gz, c, log)[..|file|]
            && (!IsBoundary(gz, c, log, |file|) ==> VerdictOf(gz, c, parse, Some(file), calls, db) == "invalid")
  {
    hide Archive, VerdictOf, Run, Unzips, Emitted, Untorn, IsBoundary;
    EmittedIsArchive(gz, c, requests, prior, events, path);
    var log := LogAt(Run(requests, prior, events).logs, path);
    if !IsBoundary(gz, c, log, |file|) { CutIsInvalid(gz, c, parse, log, |file|, calls, db); }
  }

  /** Serving connections, shutting down and checking the log: the check says "ok" exactly if the run is explained. */
  method ServeAndVerify(gz: Gzip, c: Codec, parse: EventParser, requests: seq<AuditRecord>,
                        prior: map<Path, seq<AuditRecord>>, files: map<Path, Bytes>, events: seq<Event>, path: Path,
                        ghost earlier: seq<Call>, calls: string, db: Option<seq<Row>>)
    returns (report: VerifyReport, found: bool)
    requires Unzips(gz) && Faithful(c) && Connections(requests) && Fresh(requests, prior)
    requires AllStamped(LogAt(prior, path)) && IsCallList(LogAt(prior, path), earlier)
    requires BytesAt(files, path) == Archive(gz, c, LogAt(prior, path)) && Untorn(requests, prior, events, path)
    ensures report.Summary() == "ok"
            <==> found && RunIsExplained(parse, requests, LogAt(prior, path), earlier, Run(requests, prior, events),
                                           path, calls, db)
    ensures !found ==> path !in files && LogAt(Run(requests, prior, events).logs, path) == []
  {
    hide Run, Faithful, Connections, Fresh, RunIsExplained, Archive, Unzips, Untorn, AllStamped, IsCallList, VerdictOf,
         Emitted;
    var sink := Serve(gz, c, requests, prior, files, events);
    var _ := sink.FlushAll(map[]);
    var log := LogAt(Run(requests, prior, events).logs, path);
    EmittedIsArchive(gz, c, requests, prior, events, path);
    assert sink.Stream(path) == Archive(gz, c, log);
    var audit := sink.FileAt(path);
    found := audit.Some?;
    StreamIsFile(sink, path);
    SomethingArchived(gz, c, log);
    RunIsVerified(gz, c, parse, requests, prior, events, path, earlier, calls, db);
    report := VerifyInner(gz, c, parse, audit, Readable(calls), db);
    MissingIsInvalid(gz, c, parse, Readable(calls), db);
  }

  lemma StreamIsFile(sink: AuditSink, path: Path)
    requires forall p :: p in sink.writers ==> sink.writers[p].buffer == []
    ensures match sink.FileAt(path)
            case Some(bytes) => bytes == sink.Stream(path)
            case None => sink.Stream(path) == [] && path !in sink.existing
  {
    if path in sink.writers { assert sink.writers[path].file + [] == sink.writers[path].file; }
  }

  lemma MissingIsInvalid(gz: Gzip, c: Codec, parse: EventParser, calls: File, db: Option<seq<Row>>)
    ensures VerdictOf(gz, c, parse, None, calls, db) == "invalid"
  {
  }
}
