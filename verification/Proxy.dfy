/**
 Connection handlers of the audit proxy, as interleaved steps that append to shared logs.

 A handler resolves the log path of its connection once, appends a request record there, and later
 appends one terminal record to the same path. It may fail or be aborted anywhere in between.
 */
module Proxy {
  import opened Types
  import opened Wrappers
  import opened Gzip
  import opened Order
  import opened Json
  import opened AuditFormat
  import opened Sealing
  import opened Matching
  import opened RecordPairing
  import opened Verify

  datatype Phase =
    | Reading
    | Resolved(path: Path)
    | AwaitingUpstream(path: Path)
    | Ended(trace: Trace)

  /** What a finished handler left in the logs. */
  datatype Trace = Nothing | RequestOnly(path: Path) | RequestAndTerminal(path: Path)

  datatype State = State(phases: seq<Phase>, logs: map<Path, seq<AuditRecord>>)

  datatype Event =
    | Resolve(h: nat, found: Option<Path>)
    | LogRequest(h: nat, outcome: WriteOutcome)
    | LogTerminal(h: nat, terminal: AuditRecord, outcome: WriteOutcome)
    | Abandon(h: nat)

  function LogAt(logs: map<Path, seq<AuditRecord>>, path: Path): seq<AuditRecord> {
    if path in logs then logs[path] else []
  }

  function Append(logs: map<Path, seq<AuditRecord>>, path: Path, r: AuditRecord,
                  outcome: WriteOutcome): map<Path, seq<AuditRecord>> {
    if !IsTaken(outcome) then logs else logs[path := LogAt(logs, path) + [r]]
  }

  /** One request record per handler: distinct ids, each with a body fingerprint and the time of day. */
  ghost predicate Connections(requests: seq<AuditRecord>) {
    && AllStamped(requests)
    && (forall h :: 0 <= h < |requests| ==> requests[h].event == "request" && requests[h].bodySha256 != "")
    && (forall g, h :: 0 <= g < h < |requests| ==> requests[g].id != requests[h].id)
  }

  function StepRequest(requests: seq<AuditRecord>, s: State, h: nat, outcome: WriteOutcome): State
    requires h < |s.phases| == |requests|
  {
    if !s.phases[h].Resolved? then s else
      var path := s.phases[h].path;
      var next := if outcome == Written then AwaitingUpstream(path)
                  else if IsTaken(outcome) then Ended(RequestOnly(path))
                  else Ended(Nothing);
      State(s.phases[h := next], Append(s.logs, path, requests[h], outcome))
  }

  /** A record a handler may log last: its own id, a terminal event and the time of day. */
  predicate IsTerminalOf(terminal: AuditRecord, request: AuditRecord) {
    && terminal.id == request.id && (terminal.event == "response" || terminal.event == "upstream_error")
    && IsStamp(terminal.ts)
  }

  function StepTerminal(requests: seq<AuditRecord>, s: State, h: nat, terminal: AuditRecord,
                        outcome: WriteOutcome): State
    requires h < |s.phases| == |requests|
  {
    if !s.phases[h].AwaitingUpstream? || !IsTerminalOf(terminal, requests[h]) then s else
      var path := s.phases[h].path;
      var trace := if IsTaken(outcome) then RequestAndTerminal(path) else RequestOnly(path);
      State(s.phases[h := Ended(trace)], Append(s.logs, path, terminal, outcome))
  }

  function StepAbandon(s: State, h: nat): State
    requires h < |s.phases|
  {
    match s.phases[h]
    case AwaitingUpstream(path) => s.(phases := s.phases[h := Ended(RequestOnly(path))])
    case Ended(_) => s
    case _ => s.(phases := s.phases[h := Ended(Nothing)])
  }

  /** An event that its handler is not ready for changes nothing. */
  function Step(requests: seq<AuditRecord>, s: State, e: Event): State
    requires |s.phases| == |requests|
  {
    if e.h >= |s.phases| then s else
    match e
    case Resolve(h, found) =>
      if !s.phases[h].Reading? then s
      else s.(phases := s.phases[h := if found.Some? then Resolved(found.value) else Ended(Nothing)])
    case LogRequest(h, outcome) => StepRequest(requests, s, h, outcome)
    case LogTerminal(h, terminal, outcome) => StepTerminal(requests, s, h, terminal, outcome)
    case Abandon(h) => StepAbandon(s, h)
  }

  /** Any number of handlers, any interleaving of their steps, over the logs of earlier sessions. */
  function Run(requests: seq<AuditRecord>, prior: map<Path, seq<AuditRecord>>, events: seq<Event>): (s: State)
    ensures |s.phases| == |requests|
  {
    if events == [] then State(seq(|requests|, _ => Reading), prior)
    else Step(requests, Run(requests, prior, events[..|events| - 1]), events[|events| - 1])
  }

  predicate Logged(phase: Phase, path: Path) {
    phase == AwaitingUpstream(path) || phase == Ended(RequestOnly(path)) || Completed(phase, path)
  }

  predicate Completed(phase: Phase, path: Path) {
    phase == Ended(RequestAndTerminal(path))
  }

  // ----- The life of one handler

  /** Nothing but handler `h` and the log at `path` changes. */
  ghost predicate OnlyOwn(s: State, s': State, h: nat, path: Path) {
    && |s'.phases| == |s.phases|
    && (forall g :: 0 <= g < |s.phases| && g != h ==> s'.phases[g] == s.phases[g])
    && (forall p :: p != path ==> LogAt(s'.logs, p) == LogAt(s.logs, p))
  }

  function Taken(r: AuditRecord, outcome: WriteOutcome): seq<AuditRecord> {
    match outcome
    case Written => [r]
    case Failed(taken, _) => if taken then [r] else []
    case Torn(_) => []
  }

  /** A handler without a path logs nothing. */
  lemma Resolution(requests: seq<AuditRecord>, s: State, h: nat, found: Option<Path>)
    requires h < |requests| == |s.phases| && s.phases[h] == Reading
    ensures var s' := Step(requests, s, Resolve(h, found));
            s' == s.(phases := s.phases[h := if found.Some? then Resolved(found.value) else Ended(Nothing)])
  {
  }

  /** What the write of the request leaves in the log; a handler goes on only if it was written. */
  lemma RequestWrite(requests: seq<AuditRecord>, s: State, h: nat, path: Path, o: WriteOutcome)
    requires h < |requests| == |s.phases| && s.phases[h] == Resolved(path)
    ensures var s' := Step(requests, s, LogRequest(h, o));
            && OnlyOwn(s, s', h, path)
            && LogAt(s'.logs, path) == LogAt(s.logs, path) + Taken(requests[h], o)
            && s'.phases[h] == if o == Written then AwaitingUpstream(path)
                               else Ended(if Taken(requests[h], o) == [] then Nothing else RequestOnly(path))
  {
  }

  /** What the write of the terminal record leaves in the log; with it the handler ends. */
  lemma TerminalWrite(requests: seq<AuditRecord>, s: State, h: nat, path: Path, t: AuditRecord, o: WriteOutcome)
    requires h < |requests| == |s.phases| && s.phases[h] == AwaitingUpstream(path) && IsTerminalOf(t, requests[h])
    ensures var s' := Step(requests, s, LogTerminal(h, t, o));
            && OnlyOwn(s, s', h, path)
            && LogAt(s'.logs, path) == LogAt(s.logs, path) + Taken(t, o)
            && s'.phases[h] == Ended(if Taken(t, o) == [] then RequestOnly(path) else RequestAndTerminal(path))
  {
    hide IsTerminalOf;
  }

  /** An aborted handler has left its request if it had written it; a handler that has ended does nothing more. */
  lemma Ending(requests: seq<AuditRecord>, s: State, h: nat, e: Event)
    requires h < |requests| == |s.phases| && e.h == h
    ensures s.phases[h].Ended? ==> Step(requests, s, e) == s
    ensures s.phases[h].AwaitingUpstream?
            ==> Step(requests, s, Abandon(h)) == s.(phases := s.phases[h := Ended(RequestOnly(s.phases[h].path))])
    ensures s.phases[h].Reading? || s.phases[h].Resolved?
            ==> Step(requests, s, Abandon(h)) == s.(phases := s.phases[h := Ended(Nothing)])
  {
  }

  /** A handler whose two writes succeed logs its request and its terminal record, in this order, and completes. */
  lemma HandlerLife(requests: seq<AuditRecord>, s: State, h: nat, path: Path, t: AuditRecord)
    requires h < |requests| == |s.phases| && s.phases[h] == Reading && IsTerminalOf(t, requests[h])
    ensures var s1 := Step(requests, s, Resolve(h, Some(path)));
            var s2 := Step(requests, s1, LogRequest(h, Written));
            var s3 := Step(requests, s2, LogTerminal(h, t, Written));
            && Completed(s3.phases[h], path)
            && LogAt(s3.logs, path) == LogAt(s.logs, path) + [requests[h], t]
  {
    hide Step, IsTerminalOf;
    Resolution(requests, s, h, Some(path));
    var s1 := Step(requests, s, Resolve(h, Some(path)));
    RequestWrite(requests, s1, h, path, Written);
    TerminalWrite(requests, Step(requests, s1, LogRequest(h, Written)), h, path, t, Written);
  }

  // ----- What a log holds under the id of a handler

  ghost predicate HoldsFor(log: seq<AuditRecord>, request: AuditRecord, logged: bool, completed: bool) {
    && Count(log, request.id, Request) == (if logged then 1 else 0)
    && Count(log, request.id, Terminal) == (if completed then 1 else 0)
    && Count(log, request.id, Unknown) == 0
    && (logged ==> RequestOf(log, request.id) == Some(request))
  }

  /** Under ids of no handler the log is as it was. */
  ghost predicate HoldsForeign(log: seq<AuditRecord>, prior: seq<AuditRecord>, id: string) {
    && Count(log, id, Request) == Count(prior, id, Request)
    && Count(log, id, Terminal) == Count(prior, id, Terminal)
    && Count(log, id, Unknown) == Count(prior, id, Unknown)
    && RequestOf(log, id) == RequestOf(prior, id)
    && (id in Ids(log) <==> id in Ids(prior))
  }

  ghost predicate NoHandlerHas(requests: seq<AuditRecord>, id: string) {
    forall h :: 0 <= h < |requests| ==> requests[h].id != id
  }

  /** The logs of earlier sessions hold nothing under the ids of these handlers. */
  ghost predicate Fresh(requests: seq<AuditRecord>, prior: map<Path, seq<AuditRecord>>) {
    forall h, path :: 0 <= h < |requests| ==> requests[h].id !in Ids(LogAt(prior, path))
  }

  ghost predicate LogInvariant(requests: seq<AuditRecord>, prior: map<Path, seq<AuditRecord>>, s: State, path: Path) {
    && |s.phases| == |requests|
    && (forall h :: 0 <= h < |requests| ==>
          HoldsFor(LogAt(s.logs, path), requests[h], Logged(s.phases[h], path), Completed(s.phases[h], path)))
    && (forall id {:trigger NoHandlerHas(requests, id)} :: NoHandlerHas(requests, id) ==>
          HoldsForeign(LogAt(s.logs, path), LogAt(prior, path), id))
  }

  lemma AppendCounts(log: seq<AuditRecord>, r: AuditRecord, id: string)
    ensures forall kind :: Count(log + [r], id, kind) == Count(log, id, kind) + if Is(r, id, kind) then 1 else 0
    ensures RequestOf(log + [r], id) == if Is(r, id, Request) then Some(r) else RequestOf(log, id)
  {
    assert (log + [r])[..|log|] == log;
  }

  /** Appending handler `h`'s record leaves everything under other ids alone. */
  lemma AppendForHandler(requests: seq<AuditRecord>, prior: map<Path, seq<AuditRecord>>, s: State, h: nat, path: Path,
                         r: AuditRecord, next: Phase)
    requires Connections(requests) && h < |requests| && LogInvariant(requests, prior, s, path)
    requires r.id == requests[h].id
    requires || (r == requests[h] && !Logged(s.phases[h], path) && Logged(next, path) && !Completed(next, path))
             || (Is(r, requests[h].id, Terminal) && s.phases[h] == AwaitingUpstream(path) && Completed(next, path))
    ensures LogInvariant(requests, prior, State(s.phases[h := next], s.logs[path := LogAt(s.logs, path) + [r]]), path)
  {
    hide Count, RequestOf, Ids;
    var log := LogAt(s.logs, path);
    forall g | 0 <= g < |requests|
      ensures HoldsFor(log + [r], requests[g], Logged(s.phases[h := next][g], path),
                       Completed(s.phases[h := next][g], path))
    {
      AppendCounts(log, r, requests[g].id);
    }
    forall id | NoHandlerHas(requests, id)
      ensures HoldsForeign(log + [r], LogAt(prior, path), id)
    {
      AppendCounts(log, r, id);
      IdsGrow(log, r);
    }
  }

  /** A change of phase that touches neither the log nor what the phase says about it. */
  lemma PhaseOnly(requests: seq<AuditRecord>, prior: map<Path, seq<AuditRecord>>, s: State, h: nat, next: Phase,
                  path: Path)
    requires h < |requests| && LogInvariant(requests, prior, s, path)
    requires Logged(next, path) == Logged(s.phases[h], path) && Completed(next, path) == Completed(s.phases[h], path)
    ensures LogInvariant(requests, prior, s.(phases := s.phases[h := next]), path)
  {
    hide HoldsFor, HoldsForeign, NoHandlerHas;
  }

  lemma OtherLog(requests: seq<AuditRecord>, prior: map<Path, seq<AuditRecord>>, s: State,
                 logs: map<Path, seq<AuditRecord>>, path: Path)
    requires LogInvariant(requests, prior, s, path) && LogAt(logs, path) == LogAt(s.logs, path)
    ensures LogInvariant(requests, prior, s.(logs := logs), path)
  {
    hide HoldsFor, HoldsForeign, NoHandlerHas;
  }

  lemma StepKeepsInvariant(requests: seq<AuditRecord>, prior: map<Path, seq<AuditRecord>>, s: State, e: Event,
                           path: Path)
    requires Connections(requests) && LogInvariant(requests, prior, s, path)
    ensures LogInvariant(requests, prior, Step(requests, s, e), path)
  {
    hide LogInvariant, Connections;
    SameLength(requests, prior, s, path);
    if e.h < |s.phases| {
      var h, s' := e.h, Step(requests, s, e);
      var next := s'.phases[h];
      if LogAt(s'.logs, path) == LogAt(s.logs, path) && Logged(next, path) == Logged(s.phases[h], path)
         && Completed(next, path) == Completed(s.phases[h], path) {
        PhaseOnly(requests, prior, s, h, next, path);
        OtherLog(requests, prior, s.(phases := s.phases[h := next]), s'.logs, path);
        assert s.phases[h := next] == s'.phases;
      } else {
        var r := if e.LogRequest? then requests[h] else e.terminal;
        assert s'.logs == s.logs[path := LogAt(s.logs, path) + [r]];
        assert e.LogTerminal? ==> Is(r, requests[h].id, Terminal);
        AppendForHandler(requests, prior, s, h, path, r, next);
        assert s.phases[h := next] == s'.phases;
      }
    }
  }

  lemma SameLength(requests: seq<AuditRecord>, prior: map<Path, seq<AuditRecord>>, s: State, path: Path)
    requires LogInvariant(requests, prior, s, path)
    ensures |s.phases| == |requests|
  {
  }

  lemma {:induction false} RunKeepsInvariant(requests: seq<AuditRecord>, prior: map<Path, seq<AuditRecord>>,
                                             events: seq<Event>, path: Path)
    requires Connections(requests) && Fresh(requests, prior)
    ensures LogInvariant(requests, prior, Run(requests, prior, events), path)
    decreases |events|
  {
    hide Step, Connections;
    if events == [] {
      forall h | 0 <= h < |requests|
        ensures HoldsFor(LogAt(prior, path), requests[h], false, false)
      {
        NothingUnderForeignId(LogAt(prior, path), requests[h].id);
      }
    } else {
      hide LogInvariant;
      RunKeepsInvariant(requests, prior, events[..|events| - 1], path);
      StepKeepsInvariant(requests, prior, Run(requests, prior, events[..|events| - 1]), events[|events| - 1], path);
    }
  }

  // ----- What the checker makes of the log of a run

  function OutcomeOfPhase(request: AuditRecord, phase: Phase, path: Path): Outcome {
    if Completed(phase, path) then Complete(ToCall(request)) else OrphanRequest
  }

  lemma OutcomeOfHandler(log: seq<AuditRecord>, request: AuditRecord, phase: Phase, path: Path)
    requires HoldsFor(log, request, Logged(phase, path), Completed(phase, path)) && request.bodySha256 != ""
    ensures request.id in Ids(log) <==> Logged(phase, path)
    ensures Logged(phase, path) ==> OutcomeOf(log, request.id) == OutcomeOfPhase(request, phase, path)
  {
    hide Count, RequestOf, Ids, ToCall;
    if request.id in Ids(log) {
      SomethingUnderEachId(log, request.id);
    } else {
      NothingUnderForeignId(log, request.id);
    }
  }

  /**
   After any interleaving, the log at any path has under each handler's id a complete call if the
   handler completed there, an orphan request if it only logged its request there, and nothing
   otherwise; under every other id it has what it had before.
   */
  lemma LogOfRun(requests: seq<AuditRecord>, prior: map<Path, seq<AuditRecord>>, events: seq<Event>, path: Path)
    requires Connections(requests) && Fresh(requests, prior)
    ensures var s := Run(requests, prior, events);
            var log := LogAt(s.logs, path);
            && (forall h :: 0 <= h < |requests| ==>
                  && (requests[h].id in Ids(log) <==> Logged(s.phases[h], path))
                  && (Logged(s.phases[h], path)
                      ==> OutcomeOf(log, requests[h].id) == OutcomeOfPhase(requests[h], s.phases[h], path)))
            && (forall id :: NoHandlerHas(requests, id) ==>
                  && (id in Ids(log) <==> id in Ids(LogAt(prior, path)))
                  && OutcomeOf(log, id) == OutcomeOf(LogAt(prior, path), id))
  {
    hide Run, Count, RequestOf, Ids, OutcomeOfPhase, Logged, Completed, NoHandlerHas, ToCall;
    RunKeepsInvariant(requests, prior, events, path);
    var s := Run(requests, prior, events);
    forall h | 0 <= h < |requests|
      ensures requests[h].id in Ids(LogAt(s.logs, path)) <==> Logged(s.phases[h], path)
      ensures Logged(s.phases[h], path)
              ==> OutcomeOf(LogAt(s.logs, path), requests[h].id) == OutcomeOfPhase(requests[h], s.phases[h], path)
    {
      hide OutcomeOf;
      OutcomeOfHandler(LogAt(s.logs, path), requests[h], s.phases[h], path);
    }
  }

  function Pending(s: State, path: Path): set<int> {
    set h | 0 <= h < |s.phases| && Logged(s.phases[h], path) && !Completed(s.phases[h], path)
  }

  function Finished(s: State, path: Path): set<int> {
    set h | 0 <= h < |s.phases| && Completed(s.phases[h], path)
  }

  function IdsOf(requests: seq<AuditRecord>, hs: set<int>): set<string>
    requires forall h :: h in hs ==> 0 <= h < |requests|
  {
    set h | h in hs :: requests[h].id
  }

  lemma IdsOfOneMore(requests: seq<AuditRecord>, hs: set<int>, h: int)
    requires Connections(requests) && h in hs && forall g :: g in hs ==> 0 <= g < |requests|
    ensures IdsOf(requests, hs) == IdsOf(requests, hs - {h}) + {requests[h].id}
    ensures requests[h].id !in IdsOf(requests, hs - {h})
  {
  }

  lemma NoIds(requests: seq<AuditRecord>, hs: set<int>)
    requires forall h :: h in hs ==> 0 <= h < 0
    ensures |hs| == 0 && IdsOf(requests, hs) == {}
  {
    SubsetSize(hs, Below(0));
  }

  lemma {:induction false} AsManyIds(requests: seq<AuditRecord>, hs: set<int>, n: nat)
    requires Connections(requests) && n <= |requests| && forall h :: h in hs ==> 0 <= h < n
    ensures |IdsOf(requests, hs)| == |hs|
    decreases n
  {
    hide Connections, IdsOf;
    if n == 0 {
      NoIds(requests, hs);
    } else if n - 1 in hs {
      IdsOfOneMore(requests, hs, n - 1);
      AsManyIds(requests, hs - {n - 1}, n - 1);
    } else {
      AsManyIds(requests, hs, n - 1);
    }
  }

  /** Whose an id of the log is: a handler's, or one that the log had before. */
  lemma IdOfRun(requests: seq<AuditRecord>, prior: map<Path, seq<AuditRecord>>, events: seq<Event>, path: Path,
                id: string)
    requires Connections(requests) && Fresh(requests, prior)
    ensures var s := Run(requests, prior, events);
            var log := LogAt(s.logs, path);
            id in Ids(log) ==>
              if NoHandlerHas(requests, id) then
                id in Ids(LogAt(prior, path)) && OutcomeOf(log, id) == OutcomeOf(LogAt(prior, path), id)
              else
                exists h :: 0 <= h < |requests| && requests[h].id == id && Logged(s.phases[h], path)
                            && OutcomeOf(log, id) == OutcomeOfPhase(requests[h], s.phases[h], path)
  {
    hide Run, OutcomeOf, OutcomeOfPhase, Logged;
    LogOfRun(requests, prior, events, path);
    if !NoHandlerHas(requests, id) {
      var h :| 0 <= h < |requests| && requests[h].id == id;
    }
  }

  lemma PriorIdStays(requests: seq<AuditRecord>, prior: map<Path, seq<AuditRecord>>, events: seq<Event>, path: Path,
                     id: string)
    requires Connections(requests) && Fresh(requests, prior) && id in Ids(LogAt(prior, path))
    ensures var log := LogAt(Run(requests, prior, events).logs, path);
            id in Ids(log) && OutcomeOf(log, id) == OutcomeOf(LogAt(prior, path), id)
    ensures NoHandlerHas(requests, id)
  {
    hide Run, OutcomeOf, OutcomeOfPhase, Logged, Ids;
    LogOfRun(requests, prior, events, path);
  }

  lemma PendingHasOrphan(requests: seq<AuditRecord>, prior: map<Path, seq<AuditRecord>>, events: seq<Event>, path: Path,
                         id: string)
    requires Connections(requests) && Fresh(requests, prior)
    requires id in IdsOf(requests, Pending(Run(requests, prior, events), path))
    ensures var log := LogAt(Run(requests, prior, events).logs, path);
            id in Ids(log) && OutcomeOf(log, id) == OrphanRequest && id !in Ids(LogAt(prior, path))
  {
    hide Run, OutcomeOf, Logged, Completed, Ids;
    LogOfRun(requests, prior, events, path);
  }

  /** What the run contributes to the ids of an outcome. */
  ghost function Contribution(requests: seq<AuditRecord>, s: State, path: Path, o: Outcome): set<string>
    requires |s.phases| == |requests|
  {
    if o == OrphanRequest then IdsOf(requests, Pending(s, path)) else {}
  }

  lemma IdsOfOutcome(requests: seq<AuditRecord>, prior: map<Path, seq<AuditRecord>>, events: seq<Event>, path: Path,
                     o: Outcome, id: string)
    requires Connections(requests) && Fresh(requests, prior) && !o.Complete?
    ensures var s := Run(requests, prior, events);
            var (log, was) := (LogAt(s.logs, path), LogAt(prior, path));
            && (id in Ids(log) && OutcomeOf(log, id) == o
                <==> (id in Ids(was) && OutcomeOf(was, id) == o) || id in Contribution(requests, s, path, o))
            && !(id in Ids(was) && id in Contribution(requests, s, path, o))
  {
    hide Run, OutcomeOf, Ids, Connections, Fresh;
    var s := Run(requests, prior, events);
    var (log, was) := (LogAt(s.logs, path), LogAt(prior, path));
    IdOfRun(requests, prior, events, path, id);
    if id in Ids(was) { PriorIdStays(requests, prior, events, path, id); }
    if id in Contribution(requests, s, path, o) { PendingHasOrphan(requests, prior, events, path, id); }
  }

  lemma UnionSize<T>(whole: set<T>, a: set<T>, b: set<T>)
    requires a !! b && forall x :: x in whole <==> x in a || x in b
    ensures |whole| == |a| + |b|
  {
    assert whole == a + b;
  }

  lemma TallyOfRun(requests: seq<AuditRecord>, prior: map<Path, seq<AuditRecord>>, events: seq<Event>, path: Path,
                   o: Outcome)
    requires Connections(requests) && Fresh(requests, prior) && !o.Complete?
    ensures var s := Run(requests, prior, events);
            var (log, was) := (LogAt(s.logs, path), LogAt(prior, path));
            Tally(log, Ids(log), o) == Tally(was, Ids(was), o) + |Contribution(requests, s, path, o)|
  {
    hide Run, OutcomeOf, Ids, Connections, Fresh, Contribution;
    var s := Run(requests, prior, events);
    var (log, was) := (LogAt(s.logs, path), LogAt(prior, path));
    var now := set id | id in Ids(log) && OutcomeOf(log, id) == o;
    var before := set id | id in Ids(was) && OutcomeOf(was, id) == o;
    forall id
      ensures id in now <==> id in before || id in Contribution(requests, s, path, o)
      ensures !(id in before && id in Contribution(requests, s, path, o))
    {
      IdsOfOutcome(requests, prior, events, path, o, id);
    }
    UnionSize(now, before, Contribution(requests, s, path, o));
  }

  /**
   The run adds no duplicates and no orphan responses to what the log had before, and one orphan request for
   each handler that logged a request and no terminal.
   */
  lemma ReportOfRun(requests: seq<AuditRecord>, prior: map<Path, seq<AuditRecord>>, events: seq<Event>, path: Path)
    requires Connections(requests) && Fresh(requests, prior)
    ensures var s := Run(requests, prior, events);
            var (log, was) := (LogAt(s.logs, path), LogAt(prior, path));
            && Tally(log, Ids(log), Rejected) == Tally(was, Ids(was), Rejected)
            && Tally(log, Ids(log), OrphanResponse) == Tally(was, Ids(was), OrphanResponse)
            && Tally(log, Ids(log), OrphanRequest) == Tally(was, Ids(was), OrphanRequest) + |Pending(s, path)|
  {
    hide Run, OutcomeOf, Ids, Connections, Fresh, Tally;
    TallyOfRun(requests, prior, events, path, Rejected);
    TallyOfRun(requests, prior, events, path, OrphanResponse);
    TallyOfRun(requests, prior, events, path, OrphanRequest);
    AsManyIds(requests, Pending(Run(requests, prior, events), path), |requests|);
  }

  // ----- The calls that the log of a run holds

  /** The calls of the first `n` handlers that completed, in the order of the handlers. */
  function FinishedCalls(requests: seq<AuditRecord>, s: State, path: Path, n: nat): seq<Call>
    requires n <= |requests| == |s.phases|
  {
    if n == 0 then [] else
      FinishedCalls(requests, s, path, n - 1)
      + if Completed(s.phases[n - 1], path) then [ToCall(requests[n - 1])] else []
  }

  lemma {:induction false} FinishedCallsMembers(requests: seq<AuditRecord>, s: State, path: Path, n: nat)
    requires Connections(requests) && n <= |requests| == |s.phases|
    ensures NoneTwice(FinishedCalls(requests, s, path, n))
    ensures forall c :: c in FinishedCalls(requests, s, path, n)
                        <==> exists h :: 0 <= h < n && Completed(s.phases[h], path) && c == ToCall(requests[h])
    decreases n
  {
    hide Completed;
    if n > 0 {
      FinishedCallsMembers(requests, s, path, n - 1);
      var before := FinishedCalls(requests, s, path, n - 1);
      forall c | c in before
        ensures c != ToCall(requests[n - 1])
      {
        var h :| 0 <= h < n - 1 && c == ToCall(requests[h]);
      }
      assert forall i :: 0 <= i < |before| ==> before[i] in before;
    }
  }

  /** The complete calls of the log are those it had before and those of the completed handlers. */
  lemma CallsOfRun(requests: seq<AuditRecord>, prior: map<Path, seq<AuditRecord>>, events: seq<Event>, path: Path,
                   earlier: seq<Call>, calls: seq<Call>)
    requires Connections(requests) && Fresh(requests, prior) && IsCallList(LogAt(prior, path), earlier)
    requires IsCallList(LogAt(Run(requests, prior, events).logs, path), calls)
    ensures var all := earlier + FinishedCalls(requests, Run(requests, prior, events), path, |requests|);
            NoneTwice(calls) && NoneTwice(all) && forall c :: c in calls <==> c in all
  {
    hide Run, OutcomeOf, Ids, Connections, Fresh, NoneTwice, FinishedCalls, IsCallList;
    var s := Run(requests, prior, events);
    var finished := FinishedCalls(requests, s, path, |requests|);
    FinishedCallsMembers(requests, s, path, |requests|);
    forall c
      ensures c in calls <==> c in earlier || c in finished
      ensures !(c in earlier && c in finished)
    {
      CallOfRun(requests, prior, events, path, earlier, calls, c);
    }
    CallListHasNoneTwice(LogAt(s.logs, path), calls);
    CallListHasNoneTwice(LogAt(prior, path), earlier);
    NoneTwiceTogether(earlier, finished);
    assert forall c :: c in earlier + finished <==> c in earlier || c in finished;
  }

  lemma CallListHasNoneTwice(rs: seq<AuditRecord>, calls: seq<Call>)
    requires IsCallList(rs, calls)
    ensures NoneTwice(calls)
  {
    CallLessIsStrict();
    forall i, j | 0 <= i < j < |calls|
      ensures calls[i] != calls[j]
    {
      assert CallLess(calls[i], calls[j]) && !CallLess(calls[j], calls[j]);
    }
  }

  lemma NoneTwiceTogether(a: seq<Call>, b: seq<Call>)
    requires NoneTwice(a) && NoneTwice(b) && forall c :: !(c in a && c in b)
    ensures NoneTwice(a + b)
  {
    forall i, j | 0 <= i < j < |a + b|
      ensures (a + b)[i] != (a + b)[j]
    {
      if i < |a| <= j { assert a[i] in a && b[j - |a|] in b; }
    }
  }

  lemma CallOfRun(requests: seq<AuditRecord>, prior: map<Path, seq<AuditRecord>>, events: seq<Event>, path: Path,
                  earlier: seq<Call>, calls: seq<Call>, c: Call)
    requires Connections(requests) && Fresh(requests, prior) && IsCallList(LogAt(prior, path), earlier)
    requires IsCallList(LogAt(Run(requests, prior, events).logs, path), calls)
    ensures var finished := FinishedCalls(requests, Run(requests, prior, events), path, |requests|);
            (c in calls <==> c in earlier || c in finished) && !(c in earlier && c in finished)
  {
    hide Run, OutcomeOf, Ids, NoneTwice, FinishedCalls, Connections, Fresh;
    var s := Run(requests, prior, events);
    var finished := FinishedCalls(requests, s, path, |requests|);
    FinishedCallsMembers(requests, s, path, |requests|);
    if c in earlier { PriorIdStays(requests, prior, events, path, c.id); }
    if c in finished {
      var h :| 0 <= h < |requests| && Completed(s.phases[h], path) && c == ToCall(requests[h]);
      FinishedIsComplete(requests, prior, events, path, h);
    }
    if c in calls { IdOfRun(requests, prior, events, path, c.id); }
  }

  lemma FinishedIsComplete(requests: seq<AuditRecord>, prior: map<Path, seq<AuditRecord>>, events: seq<Event>,
                           path: Path, h: nat)
    requires Connections(requests) && Fresh(requests, prior) && h < |requests|
    requires Completed(Run(requests, prior, events).phases[h], path)
    ensures var log := LogAt(Run(requests, prior, events).logs, path);
            requests[h].id in Ids(log) && OutcomeOf(log, requests[h].id) == Complete(ToCall(requests[h]))
    ensures !NoHandlerHas(requests, requests[h].id) && requests[h].id !in Ids(LogAt(prior, path))
  {
    hide Run, OutcomeOf, Ids;
    LogOfRun(requests, prior, events, path);
    CompletedIsLogged(Run(requests, prior, events).phases[h], path);
  }

  lemma CompletedIsLogged(phase: Phase, path: Path)
    ensures Completed(phase, path) ==> Logged(phase, path)
  {
  }

  // ----- Sealing changes no outcome

  lemma {:induction false} SealedCounts(c: Codec, log: seq<AuditRecord>, id: string)
    ensures forall kind :: Count(SealAll(c, log), id, kind) == Count(log, id, kind)
    ensures RequestOf(SealAll(c, log), id)
            == match RequestOf(log, id) case None => None case Some(r) => Some(Seal(c, r))
    decreases |log|
  {
    hide RecordCrc;
    if log != [] {
      SealedCounts(c, log[..|log| - 1], id);
      SealAllStep(c, log);
      AppendCounts(SealAll(c, log[..|log| - 1]), Seal(c, log[|log| - 1]), id);
    }
  }

  lemma SealedOutcome(c: Codec, log: seq<AuditRecord>, id: string)
    ensures OutcomeOf(SealAll(c, log), id) == OutcomeOf(log, id)
  {
    hide Count, RequestOf, RecordCrc;
    SealedCounts(c, log, id);
  }

  lemma SealedIds(c: Codec, log: seq<AuditRecord>)
    ensures Ids(SealAll(c, log)) == Ids(log)
  {
    forall id
      ensures id in Ids(SealAll(c, log)) <==> id in Ids(log)
    {
      if id in Ids(log) {
        var r :| r in log && r.id == id;
        var k :| 0 <= k < |log| && log[k] == r;
        assert SealAll(c, log)[k] in SealAll(c, log);
      }
    }
  }

  lemma SealedLogAgrees(c: Codec, log: seq<AuditRecord>, internal: seq<Call>)
    ensures AllComplete(SealAll(c, log)) <==> AllComplete(log)
    ensures Explained(SealAll(c, log), internal) <==> Explained(log, internal)
  {
    hide OutcomeOf, SealAll, Ids, Bijection;
    SealedIds(c, log);
    forall id
      ensures OutcomeOf(SealAll(c, log), id) == OutcomeOf(log, id)
    {
      SealedOutcome(c, log, id);
    }
    assert forall calls :: IsCallList(SealAll(c, log), calls) <==> IsCallList(log, calls);
  }

  // ----- Every logged record has the time of day

  lemma StepKeepsStamps(requests: seq<AuditRecord>, s: State, e: Event, path: Path)
    requires |s.phases| == |requests| && AllStamped(requests) && AllStamped(LogAt(s.logs, path))
    ensures AllStamped(LogAt(Step(requests, s, e).logs, path))
  {
    hide IsStamp, Is;
  }

  lemma {:induction false} RunKeepsStamps(requests: seq<AuditRecord>, prior: map<Path, seq<AuditRecord>>,
                                          events: seq<Event>, path: Path)
    requires AllStamped(requests) && AllStamped(LogAt(prior, path))
    ensures AllStamped(LogAt(Run(requests, prior, events).logs, path))
    decreases |events|
  {
    hide Step, AllStamped;
    if events != [] {
      var init := events[..|events| - 1];
      RunKeepsStamps(requests, prior, init, path);
      StepKeepsStamps(requests, Run(requests, prior, init), events[|events| - 1], path);
    }
  }

  /** A list of the complete calls exists for every log. */
  lemma CallListExists(rs: seq<AuditRecord>) returns (calls: seq<Call>)
    ensures IsCallList(rs, calls)
  {
    hide OutcomeOf;
    calls := [];
    var todo := Ids(rs);
    var done := {};
    NothingDone(rs);
    while todo != {}
      invariant done !! todo && done + todo == Ids(rs)
      invariant Gathered(calls, rs, done)
      decreases |todo|
    {
      hide Gathered;
      var id :| id in todo;
      GatherStep(calls, rs, done, id);
      if OutcomeOf(rs, id).Complete? {
        CompleteHasId(rs, id);
        calls := calls + [OutcomeOf(rs, id).call];
      }
      todo, done := todo - {id}, done + {id};
    }
    assert done == Ids(rs);
    SortedDistinctIds(calls);
    calls := SortCalls(calls);
  }

  lemma CompleteHasId(rs: seq<AuditRecord>, id: string)
    ensures OutcomeOf(rs, id).Complete? ==> OutcomeOf(rs, id).call.id == id
  {
    RequestOfIsRequest(rs, id);
  }

  // ----- The end-to-end property

  /** `calls`, in whatever order, correspond one to one to the internal calls. */
  ghost predicate Correspond(calls: seq<Call>, internal: seq<Call>) {
    exists p :: Bijection(p, calls, internal)
  }

  lemma ExplainedIffCorrespond(rs: seq<AuditRecord>, calls: seq<Call>, all: seq<Call>, internal: seq<Call>)
    requires IsCallList(rs, calls) && NoneTwice(calls) && NoneTwice(all) && forall c :: c in calls <==> c in all
    ensures Explained(rs, internal) <==> Correspond(all, internal)
  {
    hide IsCallList, NoneTwice, Bijection;
    if Explained(rs, internal) {
      var other, m :| IsCallList(rs, other) && Bijection(m, other, internal);
      CallListIsUnique(rs, other, calls);
      var p := ReorderedBijection(calls, all, internal, m);
    }
    if p :| Bijection(p, all, internal) {
      var m := ReorderedBijection(all, calls, internal, p);
    }
  }

  lemma CallListIsUnique(rs: seq<AuditRecord>, a: seq<Call>, b: seq<Call>)
    requires IsCallList(rs, a) && IsCallList(rs, b)
    ensures a == b
  {
    hide OutcomeOf, Ids;
    CallLessIsStrict();
    AscendingUnique(a, b, CallLess);
  }

  lemma CompleteIffNonePending(requests: seq<AuditRecord>, prior: map<Path, seq<AuditRecord>>, events: seq<Event>,
                               path: Path)
    requires Connections(requests) && Fresh(requests, prior)
    ensures var s := Run(requests, prior, events);
            AllComplete(LogAt(s.logs, path)) <==> AllComplete(LogAt(prior, path)) && Pending(s, path) == {}
  {
    hide Run, Connections, Fresh, Tally, AllComplete, Pending, Ids;
    var s := Run(requests, prior, events);
    ReportOfRun(requests, prior, events, path);
    CompleteIffNoneElse(LogAt(s.logs, path));
    CompleteIffNoneElse(LogAt(prior, path));
    assert |Pending(s, path)| == 0 <==> Pending(s, path) == {};
  }

  /**
   The two sides of the end-to-end property: nothing pending, and the calls that the log had before (`earlier`)
   together with those of the completed handlers correspond one to one to the internal calls.
   */
  ghost predicate RunIsExplained(parse: EventParser, requests: seq<AuditRecord>, was: seq<AuditRecord>,
                                 earlier: seq<Call>, s: State, path: Path, calls: string, db: Option<seq<Row>>)
    requires |s.phases| == |requests|
  {
    && AllComplete(was) && Pending(s, path) == {} && !HasInvalidLine(parse, Lines(calls))
    && Correspond(earlier + FinishedCalls(requests, s, path, |requests|), InternalCalls(parse, calls))
    && (db.Some? ==> Mirrors(db.value, InternalCalls(parse, calls)))
  }

  /** The text of the log of a run agrees with the internal calls exactly if the run is explained. */
  lemma RunAgrees(c: Codec, parse: EventParser, requests: seq<AuditRecord>, prior: map<Path, seq<AuditRecord>>,
                  events: seq<Event>, path: Path, earlier: seq<Call>, calls: string, db: Option<seq<Row>>)
    requires Faithful(c) && Connections(requests) && Fresh(requests, prior)
    requires AllStamped(LogAt(prior, path)) && IsCallList(LogAt(prior, path), earlier)
    ensures var s := Run(requests, prior, events);
            LogsAgree(c, parse, SealedText(c, LogAt(s.logs, path)), calls, db)
            <==> RunIsExplained(parse, requests, LogAt(prior, path), earlier, s, path, calls, db)
  {
    hide Run, Faithful, Fresh, HasInvalidLine, Mirrors, AllComplete, Explained, Correspond, FinishedCalls, Pending,
         InternalCalls, Lines, BadLines, ParsedRecords, SealedText, SealAll, IsCallList, NoneTwice, AllStamped;
    var s := Run(requests, prior, events);
    var log := LogAt(s.logs, path);
    assert AllStamped(requests);
    hide Connections;
    RunKeepsStamps(requests, prior, events, path);
    SealedLogIsValid(c, log);
    SealedLogAgrees(c, log, InternalCalls(parse, calls));
    CompleteIffNonePending(requests, prior, events, path);
    var list := CallListExists(log);
    CallsOfRun(requests, prior, events, path, earlier, list);
    ExplainedIffCorrespond(log, list, earlier + FinishedCalls(requests, s, path, |requests|),
                           InternalCalls(parse, calls));
  }

  /** The check of the log on disk that a run has written says "ok" exactly if the run is explained. */
  lemma RunIsVerified(gz: Gzip, c: Codec, parse: EventParser, requests: seq<AuditRecord>,
                      prior: map<Path, seq<AuditRecord>>, events: seq<Event>, path: Path, earlier: seq<Call>,
                      calls: string, db: Option<seq<Row>>)
    requires Unzips(gz) && Faithful(c) && Connections(requests) && Fresh(requests, prior)
    requires AllStamped(LogAt(prior, path)) && IsCallList(LogAt(prior, path), earlier)
    ensures var s := Run(requests, prior, events);
            VerdictOf(gz, c, parse, Some(Archive(gz, c, LogAt(s.logs, path))), Readable(calls), db) == "ok"
            <==> RunIsExplained(parse, requests, LogAt(prior, path), earlier, s, path, calls, db)
  {
    hide Run, Faithful, Connections, Fresh, LogsAgree, LogsAreSound, RunIsExplained, SealedText, Archive, Unzips, Unzip,
         AllStamped, IsCallList;
    var log := LogAt(Run(requests, prior, events).logs, path);
    ArchiveReadsBack(gz, c, log);
    RunAgrees(c, parse, requests, prior, events, path, earlier, calls, db);
    AgreementIsSound(c, parse, SealedText(c, log), calls, db);
  }
}
