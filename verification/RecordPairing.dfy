/** Pairing of audit records by id (`pair_external_records`) and the report it fills in. */
module RecordPairing {
  import opened Wrappers
  import opened Order
  import opened Json
  import opened AuditFormat
  import opened Matching

  // ----- The report

  class VerifyReport {
    var matchCount: nat
    var bodyMismatchCount: nat
    var orphanRequestCount: nat
    var orphanResponseCount: nat
    var unmatchedInternalCount: nat
    var unmatchedExternalCount: nat
    var crcInvalidCount: nat
    var auditFileMissing: bool
    var internalFileMissing: bool
    var internalFileInvalid: bool

    constructor ()
      ensures matchCount == bodyMismatchCount == orphanRequestCount == orphanResponseCount == 0
      ensures unmatchedInternalCount == unmatchedExternalCount == crcInvalidCount == 0
      ensures !auditFileMissing && !internalFileMissing && !internalFileInvalid
    {
      matchCount, bodyMismatchCount, orphanRequestCount, orphanResponseCount := 0, 0, 0, 0;
      unmatchedInternalCount, unmatchedExternalCount, crcInvalidCount := 0, 0, 0;
      auditFileMissing, internalFileMissing, internalFileInvalid := false, false, false;
    }

    function Summary(): string
      reads this
    {
      if auditFileMissing || internalFileMissing || internalFileInvalid || crcInvalidCount > 0 then "invalid"
      else if bodyMismatchCount == 0 && orphanRequestCount == 0 && orphanResponseCount == 0
              && unmatchedInternalCount == 0 && unmatchedExternalCount == 0 then "ok"
      else "mismatch"
    }

    function ExitCode(): int
      reads this
    {
      if Summary() == "ok" then 0 else if Summary() == "mismatch" then 1 else 2
    }
  }

  // ----- What the records of one id amount to

  datatype Kind = Request | Terminal | Unknown

  function KindOf(event: string): Kind {
    if event == "request" then Request
    else if event == "response" || event == "upstream_error" then Terminal
    else Unknown
  }

  predicate Is(r: AuditRecord, id: string, kind: Kind) {
    r.id == id && KindOf(r.event) == kind
  }

  function Count(rs: seq<AuditRecord>, id: string, kind: Kind): nat {
    if rs == [] then 0
    else Count(rs[..|rs| - 1], id, kind) + if Is(rs[|rs| - 1], id, kind) then 1 else 0
  }

  /** The last request logged under `id`. */
  function RequestOf(rs: seq<AuditRecord>, id: string): Option<AuditRecord> {
    if rs == [] then None
    else if Is(rs[|rs| - 1], id, Request) then Some(rs[|rs| - 1])
    else RequestOf(rs[..|rs| - 1], id)
  }

  function Ids(rs: seq<AuditRecord>): set<string> {
    set r | r in rs :: r.id
  }

  const I64_MAX := 0x7fff_ffff_ffff_ffff
  const I64_MIN := -0x8000_0000_0000_0000

  /** The whole seconds; a float cast to a 64-bit integer saturates. */
  function FloorToI64(x: Decimal): int {
    var n := Floor(x);
    if n > I64_MAX then I64_MAX else if n < I64_MIN then I64_MIN else n
  }

  function ToCall(r: AuditRecord): Call {
    Call(r.id, r.bodySha256, FloorToI64(r.ts))
  }

  datatype Outcome = Complete(call: Call) | OrphanRequest | OrphanResponse | Rejected

  /** The verdict on an id, from how many records of each kind carry it and from its request's hash. */
  function OutcomeOf(rs: seq<AuditRecord>, id: string): Outcome {
    var requests, terminals := Count(rs, id, Request), Count(rs, id, Terminal);
    if requests > 1 || terminals > 1 || Count(rs, id, Unknown) > 0 then Rejected
    else if terminals == 0 then OrphanRequest
    else if requests == 0 || RequestOf(rs, id).None? then OrphanResponse
    else if RequestOf(rs, id).value.bodySha256 == "" then Rejected
    else Complete(ToCall(RequestOf(rs, id).value))
  }

  /** How many of the ids have outcome `o`. */
  function Tally(rs: seq<AuditRecord>, ids: set<string>, o: Outcome): nat {
    |set id | id in ids && OutcomeOf(rs, id) == o|
  }

  predicate CallLess(a: Call, b: Call) {
    a.at < b.at || (a.at == b.at && Less(a.id, b.id))
  }

  /** The complete calls of a log, each once, in order of time and then id. */
  ghost predicate IsCallList(rs: seq<AuditRecord>, calls: seq<Call>) {
    && Ascending(calls, CallLess)
    && forall c :: c in calls <==> c.id in Ids(rs) && OutcomeOf(rs, c.id) == Complete(c)
  }

  lemma CallLessIsStrict()
    ensures StrictOrder(CallLess)
  {
    forall a: Call
      ensures !CallLess(a, a)
    {
      LessIrreflexive(a.id);
    }
    forall a: Call, b: Call, c: Call | CallLess(a, b) && CallLess(b, c)
      ensures CallLess(a, c)
    {
      if a.at == b.at == c.at { LessTransitive(a.id, b.id, c.id); }
    }
  }

  // ----- The outcome does not depend on the order of the records

  /** The records but the `k`th. */
  function Without(rs: seq<AuditRecord>, k: nat): (ts: seq<AuditRecord>)
    requires k < |rs|
    ensures multiset(rs) == multiset(ts) + multiset{rs[k]}
  {
    assert rs == rs[..k] + [rs[k]] + rs[k + 1..];
    rs[..k] + rs[k + 1..]
  }

  lemma WithoutOfInit(rs: seq<AuditRecord>, k: nat)
    requires k < |rs|
    ensures k < |rs| - 1 ==> Without(rs, k)[..|rs| - 2] == Without(rs[..|rs| - 1], k)
    ensures k < |rs| - 1 ==> |Without(rs, k)| == |rs| - 1 && Without(rs, k)[|rs| - 2] == rs[|rs| - 1]
    ensures k == |rs| - 1 ==> Without(rs, k) == rs[..k]
  {
  }

  lemma {:induction false} CountWithout(rs: seq<AuditRecord>, k: nat, id: string, kind: Kind)
    requires k < |rs|
    ensures Count(rs, id, kind) == Count(Without(rs, k), id, kind) + if Is(rs[k], id, kind) then 1 else 0
    decreases |rs|
  {
    hide Is, Without;
    WithoutOfInit(rs, k);
    if k < |rs| - 1 { CountWithout(rs[..|rs| - 1], k, id, kind); }
  }

  lemma MatchLast(rs: seq<AuditRecord>, ts: seq<AuditRecord>) returns (k: nat)
    requires multiset(rs) == multiset(ts) && rs != []
    ensures k < |ts| && ts[k] == rs[|rs| - 1]
    ensures multiset(rs[..|rs| - 1]) == multiset(Without(ts, k))
  {
    var last := rs[|rs| - 1];
    assert rs == rs[..|rs| - 1] + [last];
    assert last in multiset(ts);
    k :| 0 <= k < |ts| && ts[k] == last;
    assert multiset(rs[..|rs| - 1]) == multiset(rs) - multiset{last};
    assert multiset(Without(ts, k)) == multiset(ts) - multiset{last};
  }

  lemma {:induction false} CountPermuted(rs: seq<AuditRecord>, ts: seq<AuditRecord>, id: string, kind: Kind)
    requires multiset(rs) == multiset(ts)
    ensures Count(rs, id, kind) == Count(ts, id, kind)
    decreases |rs|
  {
    hide Is, Without;
    assert |multiset(rs)| == |rs| && |multiset(ts)| == |ts|;
    if rs != [] {
      var k := MatchLast(rs, ts);
      CountWithout(ts, k, id, kind);
      CountPermuted(rs[..|rs| - 1], Without(ts, k), id, kind);
    }
  }

  lemma {:induction false} RequestOfIsRequest(rs: seq<AuditRecord>, id: string)
    ensures RequestOf(rs, id).Some? <==> Count(rs, id, Request) > 0
    ensures RequestOf(rs, id).Some? ==> RequestOf(rs, id).value in rs && Is(RequestOf(rs, id).value, id, Request)
    decreases |rs|
  {
    if rs != [] { RequestOfIsRequest(rs[..|rs| - 1], id); }
  }

  /** Of two different records that fit, at least two are counted. */
  lemma CountOfTwo(rs: seq<AuditRecord>, id: string, kind: Kind, i: nat, j: nat)
    requires i < j < |rs| && Is(rs[i], id, kind) && Is(rs[j], id, kind)
    ensures Count(rs, id, kind) >= 2
  {
    var cut := Without(rs, j);
    CountWithout(rs, j, id, kind);
    CountWithout(cut, i, id, kind);
    assert cut[i] == rs[i];
  }

  lemma RequestIsOnly(rs: seq<AuditRecord>, id: string, r: AuditRecord)
    requires Count(rs, id, Request) == 1 && r in rs && Is(r, id, Request)
    ensures RequestOf(rs, id) == Some(r)
  {
    RequestOfIsRequest(rs, id);
    var q := RequestOf(rs, id).value;
    var i :| 0 <= i < |rs| && rs[i] == r;
    var j :| 0 <= j < |rs| && rs[j] == q;
    if i < j {
      CountOfTwo(rs, id, Request, i, j);
    } else if j < i {
      CountOfTwo(rs, id, Request, j, i);
    }
  }

  lemma OutcomePermuted(rs: seq<AuditRecord>, ts: seq<AuditRecord>, id: string)
    requires multiset(rs) == multiset(ts)
    ensures OutcomeOf(rs, id) == OutcomeOf(ts, id)
  {
    hide Count, RequestOf;
    CountPermuted(rs, ts, id, Request);
    CountPermuted(rs, ts, id, Terminal);
    CountPermuted(rs, ts, id, Unknown);
    RequestOfIsRequest(rs, id);
    RequestOfIsRequest(ts, id);
    if Count(rs, id, Request) == 1 {
      var r := RequestOf(rs, id).value;
      assert r in multiset(ts);
      RequestIsOnly(ts, id, r);
    }
  }

  lemma IdsPermuted(rs: seq<AuditRecord>, ts: seq<AuditRecord>)
    requires multiset(rs) == multiset(ts)
    ensures Ids(rs) == Ids(ts)
  {
    assert forall r :: r in rs <==> r in multiset(rs);
    assert forall r :: r in ts <==> r in multiset(ts);
  }

  /** The list of calls and every counter are the same for every order of the same records. */
  lemma PairingIgnoresOrder(rs: seq<AuditRecord>, ts: seq<AuditRecord>, calls: seq<Call>, calls': seq<Call>)
    requires multiset(rs) == multiset(ts)
    requires IsCallList(rs, calls) && IsCallList(ts, calls')
    ensures calls == calls'
    ensures forall o :: Tally(rs, Ids(rs), o) == Tally(ts, Ids(ts), o)
  {
    hide OutcomeOf;
    IdsPermuted(rs, ts);
    forall id
      ensures OutcomeOf(rs, id) == OutcomeOf(ts, id)
    {
      OutcomePermuted(rs, ts, id);
    }
    CallLessIsStrict();
    AscendingUnique(calls, calls', CallLess);
    forall o
      ensures Tally(rs, Ids(rs), o) == Tally(ts, Ids(ts), o)
    {
      assert (set id | id in Ids(rs) && OutcomeOf(rs, id) == o) == (set id | id in Ids(ts) && OutcomeOf(ts, id) == o);
    }
  }

  // ----- The outcome in terms of the events themselves

  predicate IsRequestEvent(event: string) {
    event == "request"
  }

  predicate IsTerminalEvent(event: string) {
    event == "response" || event == "upstream_error"
  }

  /** The records under `id` are exactly the one at `q`. */
  ghost predicate OnlyOne(rs: seq<AuditRecord>, id: string, q: int) {
    0 <= q < |rs| && rs[q].id == id && forall k :: 0 <= k < |rs| && rs[k].id == id ==> k == q
  }

  /** The records under `id` are exactly the two at `q` and `t`. */
  ghost predicate OnlyTwo(rs: seq<AuditRecord>, id: string, q: int, t: int) {
    && 0 <= q < |rs| && 0 <= t < |rs| && q != t && rs[q].id == rs[t].id == id
    && forall k :: 0 <= k < |rs| && rs[k].id == id ==> k == q || k == t
  }

  /** A request with a fingerprint and one terminal record, and nothing else under the id. */
  ghost predicate IsExchange(rs: seq<AuditRecord>, id: string, q: int, t: int) {
    && OnlyTwo(rs, id, q, t)
    && IsRequestEvent(rs[q].event) && IsTerminalEvent(rs[t].event) && rs[q].bodySha256 != ""
  }

  ghost predicate IsLoneRequest(rs: seq<AuditRecord>, id: string, q: int) {
    OnlyOne(rs, id, q) && IsRequestEvent(rs[q].event)
  }

  ghost predicate IsLoneTerminal(rs: seq<AuditRecord>, id: string, t: int) {
    OnlyOne(rs, id, t) && IsTerminalEvent(rs[t].event)
  }

  lemma KindsOfEvents(event: string)
    ensures KindOf(event) == Request <==> IsRequestEvent(event)
    ensures KindOf(event) == Terminal <==> IsTerminalEvent(event)
  {
  }

  /** A record that fits is counted. */
  lemma CountOfOne(rs: seq<AuditRecord>, id: string, kind: Kind, i: nat)
    requires i < |rs| && Is(rs[i], id, kind)
    ensures Count(rs, id, kind) >= 1
  {
    CountWithout(rs, i, id, kind);
  }

  /** What is counted is there: the last such record, and another one before it if there are two. */
  lemma {:induction false} CountedIsThere(rs: seq<AuditRecord>, id: string, kind: Kind) returns (i: nat)
    requires Count(rs, id, kind) > 0
    ensures i < |rs| && Is(rs[i], id, kind)
    ensures Count(rs, id, kind) == 1 ==> forall j :: 0 <= j < |rs| && Is(rs[j], id, kind) ==> j == i
    ensures Count(rs, id, kind) > 1 ==> exists j :: 0 <= j < i && Is(rs[j], id, kind)
    decreases |rs|
  {
    hide Is;
    var n := |rs| - 1;
    if Is(rs[n], id, kind) {
      i := n;
      if Count(rs, id, kind) > 1 {
        var j := CountedIsThere(rs[..n], id, kind);
        assert Is(rs[j], id, kind);
      } else {
        forall j | 0 <= j < |rs| && Is(rs[j], id, kind)
          ensures j == n
        {
          if j < n { CountOfOne(rs[..n], id, kind, j); }
        }
      }
    } else {
      i := CountedIsThere(rs[..n], id, kind);
      if Count(rs, id, kind) > 1 {
        var j :| 0 <= j < i && Is(rs[..n][j], id, kind);
        assert Is(rs[j], id, kind);
      } else {
        forall j | 0 <= j < |rs| && Is(rs[j], id, kind)
          ensures j == i
        {
          if j < n { assert Is(rs[..n][j], id, kind); }
        }
      }
    }
  }

  lemma ExchangeIsComplete(rs: seq<AuditRecord>, id: string, q: int, t: int)
    requires IsExchange(rs, id, q, t)
    ensures OutcomeOf(rs, id) == Complete(Call(id, rs[q].bodySha256, FloorToI64(rs[q].ts)))
  {
    hide Count, RequestOf;
    CountsOfTwo(rs, id, q, t);
    RequestIsOnly(rs, id, rs[q]);
  }

  ghost predicate IsOnly(rs: seq<AuditRecord>, id: string, kind: Kind, q: int) {
    forall k :: 0 <= k < |rs| && Is(rs[k], id, kind) ==> k == q
  }

  /** A kind that no record under the id has is not counted, and one that a single record has is counted once. */
  lemma CountByIndex(rs: seq<AuditRecord>, id: string, kind: Kind)
    ensures (forall k :: 0 <= k < |rs| ==> !Is(rs[k], id, kind)) ==> Count(rs, id, kind) == 0
    ensures forall q :: 0 <= q < |rs| && Is(rs[q], id, kind) && IsOnly(rs, id, kind, q) ==> Count(rs, id, kind) == 1
  {
    hide Is, Count;
    if Count(rs, id, kind) > 0 { var i := CountedIsThere(rs, id, kind); }
    forall q | 0 <= q < |rs| && Is(rs[q], id, kind) && IsOnly(rs, id, kind, q)
      ensures Count(rs, id, kind) == 1
    {
      CountOfOne(rs, id, kind, q);
    }
  }

  lemma CountsOfTwo(rs: seq<AuditRecord>, id: string, q: int, t: int)
    requires IsExchange(rs, id, q, t)
    ensures Count(rs, id, Request) == 1 && Count(rs, id, Terminal) == 1 && Count(rs, id, Unknown) == 0
  {
    hide Count;
    CountByIndex(rs, id, Request);
    CountByIndex(rs, id, Terminal);
    CountByIndex(rs, id, Unknown);
    assert Is(rs[q], id, Request) && Is(rs[t], id, Terminal);
  }

  lemma LoneRecord(rs: seq<AuditRecord>, id: string, q: int)
    requires OnlyOne(rs, id, q)
    ensures IsRequestEvent(rs[q].event) ==> OutcomeOf(rs, id) == OrphanRequest
    ensures IsTerminalEvent(rs[q].event) ==> OutcomeOf(rs, id) == OrphanResponse
  {
    hide Count, RequestOf;
    CountByIndex(rs, id, Request);
    CountByIndex(rs, id, Terminal);
    CountByIndex(rs, id, Unknown);
    assert Is(rs[q], id, KindOf(rs[q].event));
  }

  /** Conversely, the records that an outcome other than a rejection rests on. */
  lemma RecordsOfOutcome(rs: seq<AuditRecord>, id: string)
    requires id in Ids(rs) && OutcomeOf(rs, id) != Rejected
    ensures || (OutcomeOf(rs, id).Complete? && exists q, t :: IsExchange(rs, id, q, t))
            || (OutcomeOf(rs, id) == OrphanRequest && exists q :: IsLoneRequest(rs, id, q))
            || (OutcomeOf(rs, id) == OrphanResponse && exists t :: IsLoneTerminal(rs, id, t))
  {
    hide Count, RequestOf, Ids;
    SomethingUnderEachId(rs, id);
    RequestOfIsRequest(rs, id);
    NoUnknown(rs, id);
    if Count(rs, id, Request) == 0 {
      var t := CountedIsThere(rs, id, Terminal);
      NoneOfKind(rs, id, Request);
      assert IsLoneTerminal(rs, id, t);
    } else {
      var q := CountedIsThere(rs, id, Request);
      if Count(rs, id, Terminal) == 0 {
        NoneOfKind(rs, id, Terminal);
        assert IsLoneRequest(rs, id, q);
      } else {
        var t := CountedIsThere(rs, id, Terminal);
        RequestIsOnly(rs, id, rs[q]);
        assert IsExchange(rs, id, q, t);
      }
    }
  }

  lemma NoneOfKind(rs: seq<AuditRecord>, id: string, kind: Kind)
    requires Count(rs, id, kind) == 0
    ensures forall k :: 0 <= k < |rs| ==> !Is(rs[k], id, kind)
  {
    hide Is;
    forall k | 0 <= k < |rs|
      ensures !Is(rs[k], id, kind)
    {
      if Is(rs[k], id, kind) { CountOfOne(rs, id, kind, k); }
    }
  }

  lemma NoUnknown(rs: seq<AuditRecord>, id: string)
    requires Count(rs, id, Unknown) == 0
    ensures forall k :: 0 <= k < |rs| && rs[k].id == id ==> Is(rs[k], id, Request) || Is(rs[k], id, Terminal)
  {
    NoneOfKind(rs, id, Unknown);
  }

  /**
   The outcome of an id that occurs, in terms of the events logged: a call for a request with a fingerprint
   and one terminal record, an orphan for a lone request or a lone terminal record, a rejection for all else.
   */
  lemma OutcomeMeaning(rs: seq<AuditRecord>, id: string)
    requires id in Ids(rs)
    ensures forall q, t :: IsExchange(rs, id, q, t) ==>
              OutcomeOf(rs, id) == Complete(Call(id, rs[q].bodySha256, FloorToI64(rs[q].ts)))
    ensures OutcomeOf(rs, id).Complete? <==> exists q, t :: IsExchange(rs, id, q, t)
    ensures OutcomeOf(rs, id) == OrphanRequest <==> exists q :: IsLoneRequest(rs, id, q)
    ensures OutcomeOf(rs, id) == OrphanResponse <==> exists t :: IsLoneTerminal(rs, id, t)
  {
    hide OutcomeOf, Ids;
    if OutcomeOf(rs, id) != Rejected { RecordsOfOutcome(rs, id); }
    forall q, t | IsExchange(rs, id, q, t)
      ensures OutcomeOf(rs, id) == Complete(Call(id, rs[q].bodySha256, FloorToI64(rs[q].ts)))
    {
      ExchangeIsComplete(rs, id, q, t);
    }
    forall q | OnlyOne(rs, id, q)
      ensures IsRequestEvent(rs[q].event) ==> OutcomeOf(rs, id) == OrphanRequest
      ensures IsTerminalEvent(rs[q].event) ==> OutcomeOf(rs, id) == OrphanResponse
    {
      LoneRecord(rs, id, q);
    }
  }

  // ----- Whole seconds

  /** The whole seconds of a time stamp. */
  lemma SecondsOfStamp(micros: nat)
    requires micros < 0x1_0000_0000 * 1_000_000
    ensures FloorToI64(Normal(micros, -6)) == micros / 1_000_000
  {
    FloorOfNormal(micros, -6, 6);
    assert Pow10(6) == 1_000_000 by { SixZeros(); }
  }

  /** Time stamps beyond the 64-bit range count as the end of the range. */
  lemma SecondsSaturate(x: Decimal)
    ensures -0x8000_0000_0000_0000 <= FloorToI64(x) <= 0x7fff_ffff_ffff_ffff
    ensures -0x8000_0000_0000_0000 <= Floor(x) <= 0x7fff_ffff_ffff_ffff ==> FloorToI64(x) == Floor(x)
    ensures Floor(x) > 0x7fff_ffff_ffff_ffff ==> FloorToI64(x) == 0x7fff_ffff_ffff_ffff
    ensures Floor(x) < -0x8000_0000_0000_0000 ==> FloorToI64(x) == -0x8000_0000_0000_0000
  {
  }

  // ----- Sorting calls

  /** The library's stable sort by time and then id. */
  function SortCalls(calls: seq<Call>): seq<Call> {
    Sort(calls, CallLess)
  }

  lemma CallLessIsWeak()
    ensures WeakOrder(CallLess)
  {
    CallLessIsStrict();
    forall a: Call, b: Call, c: Call | !CallLess(b, a) && !CallLess(c, b)
      ensures !CallLess(c, a)
    {
      NotLessIsTransitive(a, b, c);
    }
  }

  lemma NotLessIsTransitive(a: Call, b: Call, c: Call)
    requires !CallLess(b, a) && !CallLess(c, b)
    ensures !CallLess(c, a)
  {
    LessTotal(a.id, b.id);
    LessTotal(b.id, c.id);
    LessTotal(a.id, c.id);
    if CallLess(c, a) {
      CallLessIsStrict();
      assert a.at == b.at == c.at;
      if Less(a.id, b.id) { LessTransitive(c.id, a.id, b.id); }
    }
  }

  lemma SortCallsSorts(calls: seq<Call>)
    ensures InOrder(SortCalls(calls), CallLess) && multiset(SortCalls(calls)) == multiset(calls)
    ensures SortedByTime(SortCalls(calls)) && |SortCalls(calls)| == |calls|
  {
    CallLessIsWeak();
    SortSorts(calls, CallLess);
    var r := SortCalls(calls);
    forall i, j | 0 <= i < j < |r|
      ensures r[i].at <= r[j].at
    {
      assert !CallLess(r[j], r[i]);
    }
  }

  /** The order of the calls, and that calls of one time and id stay in the order they had. */
  lemma SortedCallsAre(calls: seq<Call>, at: int, id: string)
    ensures var r := SortCalls(calls);
            && (forall i, j :: 0 <= i < j < |r| ==>
                  r[i].at < r[j].at || (r[i].at == r[j].at && (r[i].id == r[j].id || Less(r[i].id, r[j].id))))
            && CallsUnder(r, at, id) == CallsUnder(calls, at, id)
  {
    var r := SortCalls(calls);
    SortCallsSorts(calls);
    forall i, j | 0 <= i < j < |r|
      ensures r[i].at < r[j].at || (r[i].at == r[j].at && (r[i].id == r[j].id || Less(r[i].id, r[j].id)))
    {
      assert !CallLess(r[j], r[i]);
      LessTotal(r[i].id, r[j].id);
    }
    CallLessIsWeak();
    SortIsStable(calls, Call(id, "", at), CallLess);
    TiesAreUnder(r, at, id);
    TiesAreUnder(calls, at, id);
  }

  /** The calls of one time and id. */
  function CallsUnder(calls: seq<Call>, at: int, id: string): seq<Call> {
    if calls == [] then [] else
      var last := calls[|calls| - 1];
      CallsUnder(calls[..|calls| - 1], at, id) + if last.at == at && last.id == id then [last] else []
  }

  lemma {:induction false} TiesAreUnder(calls: seq<Call>, at: int, id: string)
    ensures Ties(calls, Call(id, "", at), CallLess) == CallsUnder(calls, at, id)
    decreases |calls|
  {
    hide Less;
    if calls != [] {
      TiesAreUnder(calls[..|calls| - 1], at, id);
      LessTotal(id, calls[|calls| - 1].id);
      LessIrreflexive(id);
    }
  }

  // ----- The pairing loop

  datatype ExternalPair = ExternalPair(request: Option<AuditRecord>, terminal: Option<AuditRecord>, duplicate: bool)

  /** `pair` sums up the records of `rs` that carry `id`. */
  ghost predicate SumsUp(pair: ExternalPair, rs: seq<AuditRecord>, id: string) {
    && pair.request == RequestOf(rs, id)
    && (pair.terminal.Some? <==> Count(rs, id, Terminal) > 0)
    && (pair.duplicate <==> Count(rs, id, Request) > 1 || Count(rs, id, Terminal) > 1 || Count(rs, id, Unknown) > 0)
  }

  lemma {:induction false} NothingUnderForeignId(rs: seq<AuditRecord>, id: string)
    requires id !in Ids(rs)
    ensures RequestOf(rs, id).None? && forall kind :: Count(rs, id, kind) == 0
    decreases |rs|
  {
    if rs != [] {
      assert rs[|rs| - 1] in rs;
      NothingUnderForeignId(rs[..|rs| - 1], id);
    }
  }

  lemma SomethingUnderEachId(rs: seq<AuditRecord>, id: string)
    requires id in Ids(rs)
    ensures Count(rs, id, Request) + Count(rs, id, Terminal) + Count(rs, id, Unknown) > 0
  {
    var r :| r in rs && r.id == id;
    var k :| 0 <= k < |rs| && rs[k] == r;
    CountWithout(rs, k, id, KindOf(r.event));
  }

  lemma IdsGrow(rs: seq<AuditRecord>, r: AuditRecord)
    ensures Ids(rs + [r]) == Ids(rs) + {r.id}
  {
    assert forall q :: q in rs + [r] <==> q in rs || q == r;
    assert r in rs + [r];
    forall id | id in Ids(rs) + {r.id}
      ensures id in Ids(rs + [r])
    {
      if id != r.id {
        var q :| q in rs && q.id == id;
        assert q in rs + [r];
      }
    }
  }

  lemma SumsUpAfter(pair: ExternalPair, rs: seq<AuditRecord>, r: AuditRecord, id: string)
    requires SumsUp(pair, rs, id)
    ensures r.id != id ==> SumsUp(pair, rs + [r], id)
    ensures Is(r, id, Request)
            ==> SumsUp(pair.(request := Some(r), duplicate := pair.duplicate || pair.request.Some?), rs + [r], id)
    ensures Is(r, id, Terminal)
            ==> SumsUp(pair.(terminal := Some(r), duplicate := pair.duplicate || pair.terminal.Some?), rs + [r], id)
    ensures Is(r, id, Unknown) ==> SumsUp(pair.(duplicate := true), rs + [r], id)
  {
    RequestOfIsRequest(rs, id);
    assert (rs + [r])[..|rs|] == rs;
  }

  lemma TallyStep(rs: seq<AuditRecord>, done: set<string>, id: string, o: Outcome)
    requires id !in done
    ensures Tally(rs, done + {id}, o) == Tally(rs, done, o) + if OutcomeOf(rs, id) == o then 1 else 0
  {
    hide OutcomeOf;
    var before := set i | i in done && OutcomeOf(rs, i) == o;
    var after := set i | i in done + {id} && OutcomeOf(rs, i) == o;
    assert after == if OutcomeOf(rs, id) == o then before + {id} else before;
  }

  /** The calls of the complete ids among `done`, each once. */
  ghost predicate Gathered(external: seq<Call>, rs: seq<AuditRecord>, done: set<string>) {
    && (forall c :: c in external <==> c.id in done && OutcomeOf(rs, c.id) == Complete(c))
    && (forall i, j :: 0 <= i < j < |external| ==> external[i].id != external[j].id)
  }

  lemma GatherStep(external: seq<Call>, rs: seq<AuditRecord>, done: set<string>, id: string)
    requires Gathered(external, rs, done) && id !in done
    ensures !OutcomeOf(rs, id).Complete? ==> Gathered(external, rs, done + {id})
    ensures OutcomeOf(rs, id).Complete? && OutcomeOf(rs, id).call.id == id
            ==> Gathered(external + [OutcomeOf(rs, id).call], rs, done + {id})
  {
    hide OutcomeOf;
    assert forall i :: 0 <= i < |external| ==> external[i] in external;
    if OutcomeOf(rs, id).Complete? {
      var more := external + [OutcomeOf(rs, id).call];
      assert forall c :: c in more <==> c in external || c == OutcomeOf(rs, id).call;
    }
  }

  lemma NothingDone(rs: seq<AuditRecord>)
    ensures Gathered([], rs, {}) && forall o :: Tally(rs, {}, o) == 0
  {
    forall o
      ensures Tally(rs, {}, o) == 0
    {
      assert (set id | id in {} && OutcomeOf(rs, id) == o) == {};
    }
  }

  /** The branches of the pairing loop. */
  function Verdict(pair: ExternalPair): Outcome {
    if pair.duplicate then Rejected
    else if pair.request.Some? && pair.terminal.Some? && pair.request.value.bodySha256 != "" then
      Complete(ToCall(pair.request.value))
    else if pair.request.Some? && pair.terminal.None? then OrphanRequest
    else if pair.request.None? && pair.terminal.Some? then OrphanResponse
    else Rejected
  }

  /** What the loop has established about the ids `done`. */
  ghost predicate Paired(rs: seq<AuditRecord>, done: set<string>, external: seq<Call>,
                         rejected: int, orphanRequests: int, orphanResponses: int) {
    && Gathered(external, rs, done)
    && rejected == Tally(rs, done, Rejected)
    && orphanRequests == Tally(rs, done, OrphanRequest)
    && orphanResponses == Tally(rs, done, OrphanResponse)
  }

  function One(b: bool): int {
    if b then 1 else 0
  }

  lemma PairedStep(rs: seq<AuditRecord>, done: set<string>, external: seq<Call>, rejected: int, orphanRequests: int,
                   orphanResponses: int, id: string, pair: ExternalPair)
    requires Paired(rs, done, external, rejected, orphanRequests, orphanResponses)
    requires id in Ids(rs) && id !in done && SumsUp(pair, rs, id)
    ensures var v := Verdict(pair);
            Paired(rs, done + {id}, if v.Complete? then external + [v.call] else external,
                   rejected + One(v == Rejected), orphanRequests + One(v == OrphanRequest),
                   orphanResponses + One(v == OrphanResponse))
    ensures pair.duplicate || pair.request.Some? || pair.terminal.Some?
  {
    hide Tally, OutcomeOf, SumsUp, ToCall, Ids, Gathered;
    OutcomeFromPair(rs, id, pair);
    GatherStep(external, rs, done, id);
    TallyStep(rs, done, id, Rejected);
    TallyStep(rs, done, id, OrphanRequest);
    TallyStep(rs, done, id, OrphanResponse);
  }

  lemma NothingPaired(rs: seq<AuditRecord>)
    ensures Paired(rs, {}, [], 0, 0, 0)
  {
    hide Tally, Gathered;
    NothingDone(rs);
  }

  lemma AllPaired(rs: seq<AuditRecord>, external: seq<Call>, rejected: int, orphanRequests: int, orphanResponses: int)
    requires Paired(rs, Ids(rs), external, rejected, orphanRequests, orphanResponses)
    ensures IsCallList(rs, SortCalls(external))
    ensures rejected == Tally(rs, Ids(rs), Rejected) && orphanRequests == Tally(rs, Ids(rs), OrphanRequest)
    ensures orphanResponses == Tally(rs, Ids(rs), OrphanResponse)
  {
    hide Tally, OutcomeOf, Ids;
    SortedDistinctIds(external);
  }

  /** Every id of `rs` has its pair, which sums up its records. */
  ghost predicate Collected(pairs: map<string, ExternalPair>, rs: seq<AuditRecord>) {
    pairs.Keys == Ids(rs) && forall id :: id in pairs ==> SumsUp(pairs[id], rs, id)
  }

  lemma PairOf(pairs: map<string, ExternalPair>, rs: seq<AuditRecord>, id: string)
    requires Collected(pairs, rs) && id in pairs
    ensures id in Ids(rs) && SumsUp(pairs[id], rs, id)
  {
  }

  lemma KeysAreIds(pairs: map<string, ExternalPair>, rs: seq<AuditRecord>)
    requires Collected(pairs, rs)
    ensures pairs.Keys == Ids(rs)
  {
  }

  ghost predicate Parts(done: set<string>, todo: set<string>, all: set<string>) {
    done !! todo && done + todo == all
  }

  lemma NoParts(all: set<string>)
    ensures Parts({}, all, all)
  {
  }

  lemma PartsStep(done: set<string>, todo: set<string>, all: set<string>, id: string)
    requires Parts(done, todo, all) && id in todo
    ensures id in all && id !in done && Parts(done + {id}, todo - {id}, all)
  {
  }

  lemma AllParts(done: set<string>, todo: set<string>, all: set<string>)
    requires Parts(done, todo, all)
    ensures todo == {} ==> done == all
  {
  }

  method PairExternalRecords(records: seq<AuditRecord>, report: VerifyReport) returns (external: seq<Call>)
    modifies report`crcInvalidCount, report`orphanRequestCount, report`orphanResponseCount
    ensures IsCallList(records, external)
    ensures report.crcInvalidCount == old(report.crcInvalidCount) + Tally(records, Ids(records), Rejected)
    ensures report.orphanRequestCount == old(report.orphanRequestCount) + Tally(records, Ids(records), OrphanRequest)
    ensures report.orphanResponseCount == old(report.orphanResponseCount) + Tally(records, Ids(records), OrphanResponse)
  {
    hide Tally, OutcomeOf, SumsUp, ToCall, Ids, Paired, IsCallList, Parts, Collected;
    var pairs := CollectPairs(records);
    external := [];
    var todo := pairs.Keys;
    ghost var done := {};
    NothingPaired(records);
    NoParts(pairs.Keys);
    while todo != {}
      invariant Parts(done, todo, pairs.Keys)
      invariant Paired(records, done, external, report.crcInvalidCount - old(report.crcInvalidCount),
                       report.orphanRequestCount - old(report.orphanRequestCount),
                       report.orphanResponseCount - old(report.orphanResponseCount))
      decreases |todo|
    {
      var id :| id in todo;
      PartsStep(done, todo, pairs.Keys, id);
      PairOf(pairs, records, id);
      var pair := pairs[id];
      PairedStep(records, done, external, report.crcInvalidCount - old(report.crcInvalidCount),
                 report.orphanRequestCount - old(report.orphanRequestCount),
                 report.orphanResponseCount - old(report.orphanResponseCount), id, pair);
      if pair.duplicate {
        report.crcInvalidCount := report.crcInvalidCount + 1;
      } else if pair.request.Some? && pair.terminal.Some? && pair.request.value.bodySha256 != "" {
        external := external + [ToCall(pair.request.value)];
      } else if pair.request.Some? && pair.terminal.None? {
        report.orphanRequestCount := report.orphanRequestCount + 1;
      } else if pair.request.None? && pair.terminal.Some? {
        report.orphanResponseCount := report.orphanResponseCount + 1;
      } else if pair.request.Some? {
        report.crcInvalidCount := report.crcInvalidCount + 1;
      }
      todo, done := todo - {id}, done + {id};
    }
    AllParts(done, todo, pairs.Keys);
    KeysAreIds(pairs, records);
    AllPaired(records, external, report.crcInvalidCount - old(report.crcInvalidCount),
              report.orphanRequestCount - old(report.orphanRequestCount),
              report.orphanResponseCount - old(report.orphanResponseCount));
    external := SortCalls(external);
  }

  lemma CollectStep(pairs: map<string, ExternalPair>, rs: seq<AuditRecord>, r: AuditRecord, pair: ExternalPair)
    requires Collected(pairs, rs) && SumsUp(pair, rs + [r], r.id)
    ensures Collected(pairs[r.id := pair], rs + [r])
  {
    hide SumsUp, Ids;
    IdsGrow(rs, r);
    forall id | id in pairs
      ensures id != r.id ==> SumsUp(pairs[id], rs + [r], id)
    {
      SumsUpAfter(pairs[id], rs, r, id);
    }
  }

  lemma EmptyCollected()
    ensures Collected(map[], [])
  {
  }

  method CollectPairs(records: seq<AuditRecord>) returns (pairs: map<string, ExternalPair>)
    ensures Collected(pairs, records)
  {
    hide Collected, SumsUp;
    pairs := map[];
    EmptyCollected();
    assert records[..0] == [];
    for i := 0 to |records|
      invariant Collected(pairs, records[..i])
    {
      var record := records[i];
      var pair := if record.id in pairs then pairs[record.id] else ExternalPair(None, None, false);
      FreshPair(pair, pairs, records[..i], record.id);
      SumsUpAfter(pair, records[..i], record, record.id);
      match KindOf(record.event) {
        case Request =>
          pair := pair.(request := Some(record), duplicate := pair.duplicate || pair.request.Some?);
        case Terminal =>
          pair := pair.(terminal := Some(record), duplicate := pair.duplicate || pair.terminal.Some?);
        case Unknown =>
          pair := pair.(duplicate := true);
      }
      CollectStep(pairs, records[..i], record, pair);
      pairs := pairs[record.id := pair];
      assert records[..i + 1] == records[..i] + [record];
    }
    assert records[..|records|] == records;
  }

  lemma FreshPair(pair: ExternalPair, pairs: map<string, ExternalPair>, rs: seq<AuditRecord>, id: string)
    requires Collected(pairs, rs)
    requires pair == if id in pairs then pairs[id] else ExternalPair(None, None, false)
    ensures SumsUp(pair, rs, id)
  {
    if id !in pairs { NothingUnderForeignId(rs, id); }
  }

  /** The loop's branches give the outcome of an id that occurs. */
  lemma OutcomeFromPair(rs: seq<AuditRecord>, id: string, pair: ExternalPair)
    requires id in Ids(rs) && SumsUp(pair, rs, id)
    ensures OutcomeOf(rs, id) == Verdict(pair)
    ensures pair.request.Some? ==> ToCall(pair.request.value).id == id
    ensures pair.duplicate || pair.request.Some? || pair.terminal.Some?
  {
    SomethingUnderEachId(rs, id);
    RequestOfIsRequest(rs, id);
  }

  lemma SortedDistinctIds(calls: seq<Call>)
    requires forall i, j :: 0 <= i < j < |calls| ==> calls[i].id != calls[j].id
    ensures Ascending(SortCalls(calls), CallLess)
    ensures forall c :: c in SortCalls(calls) <==> c in calls
  {
    var r := SortCalls(calls);
    SortCallsSorts(calls);
    assert forall c :: c in r <==> c in multiset(r);
    assert forall c :: c in calls <==> c in multiset(calls);
    DistinctIdsPermuted(calls, r);
    forall i, j | 0 <= i < j < |r|
      ensures CallLess(r[i], r[j])
    {
      LessTotal(r[i].id, r[j].id);
      assert !CallLess(r[j], r[i]);
    }
  }

  lemma {:induction false} OccursOnce(calls: seq<Call>, c: Call)
    requires forall i, j :: 0 <= i < j < |calls| ==> calls[i].id != calls[j].id
    ensures multiset(calls)[c] <= 1
    decreases |calls|
  {
    if calls != [] {
      var init, last := calls[..|calls| - 1], calls[|calls| - 1];
      OccursOnce(init, c);
      assert calls == init + [last];
      assert c == last ==> c !in multiset(init);
    }
  }

  lemma OccursTwice(r: seq<Call>, i: nat, j: nat)
    requires i < j < |r| && r[i] == r[j]
    ensures multiset(r)[r[i]] >= 2
  {
    assert r == r[..j] + ([r[j]] + r[j + 1..]);
    assert r[i] in r[..j];
  }

  lemma DistinctIdsPermuted(calls: seq<Call>, r: seq<Call>)
    requires multiset(r) == multiset(calls)
    requires forall i, j :: 0 <= i < j < |calls| ==> calls[i].id != calls[j].id
    ensures forall i, j :: 0 <= i < j < |r| ==> r[i].id != r[j].id
  {
    forall i, j | 0 <= i < j < |r|
      ensures r[i].id != r[j].id
    {
      OccursOnce(calls, r[i]);
      if r[i] == r[j] { OccursTwice(r, i, j); }
      assert r[i] in multiset(calls) && r[j] in multiset(calls);
    }
  }
}
