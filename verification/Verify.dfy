/** Cross-check of an audit log against the internal call log (`verify_inner`). */
module Verify {
  import opened Types
  import opened Wrappers
  import opened Gzip
  import opened Order
  import opened AuditFormat
  import opened Sealing
  import opened Matching
  import opened RecordPairing

  // ----- Internal calls

  datatype CallEvent = CallEvent(
    callId: string, provider: string, cacheHit: bool, bodySha256: Option<string>, startedUnix: int)

  type EventParser = string -> Option<CallEvent>

  datatype LineUse = Skipped | Invalid | Kept(call: Call)

  /** Cache hits are skipped, and so are calls without a fingerprint unless their provider is "minimax". */
  function UseOf(parse: EventParser, line: string): LineUse {
    match parse(line)
    case None => Invalid
    case Some(event) =>
      if event.cacheHit then Skipped
      else match event.bodySha256
        case Some(sha) => if sha != "" then Kept(Call(event.callId, sha, event.startedUnix)) else Invalid
        case None => if event.provider != "minimax" then Skipped else Invalid
  }

  function KeptCalls(parse: EventParser, lines: seq<string>): seq<Call> {
    if lines == [] then [] else
      var last := lines[|lines| - 1];
      KeptCalls(parse, lines[..|lines| - 1])
      + if last != "" && UseOf(parse, last).Kept? then [UseOf(parse, last).call] else []
  }

  function InternalCalls(parse: EventParser, text: string): seq<Call> {
    SortCalls(KeptCalls(parse, Lines(text)))
  }

  ghost predicate HasInvalidLine(parse: EventParser, lines: seq<string>) {
    exists line :: line in lines && line != "" && UseOf(parse, line).Invalid?
  }

  method ParseInternalCalls(parse: EventParser, text: string, report: VerifyReport) returns (internal: seq<Call>)
    modifies report`internalFileInvalid
    ensures internal == InternalCalls(parse, text)
    ensures report.internalFileInvalid <==> old(report.internalFileInvalid) || HasInvalidLine(parse, Lines(text))
  {
    internal := [];
    var lines := Lines(text);
    for i := 0 to |lines|
      invariant internal == KeptCalls(parse, lines[..i])
      invariant report.internalFileInvalid <==> old(report.internalFileInvalid) || HasInvalidLine(parse, lines[..i])
    {
      var line := lines[i];
      assert lines[..i + 1] == lines[..i] + [line];
      assert HasInvalidLine(parse, lines[..i + 1])
        <==> HasInvalidLine(parse, lines[..i]) || (line != "" && UseOf(parse, line).Invalid?);
      if line == "" { continue; }
      var event := parse(line);
      if event.None? {
        report.internalFileInvalid := true;
        continue;
      }
      if event.value.cacheHit { continue; }
      var sha := event.value.bodySha256;
      if sha.Some? && sha.value != "" {
        internal := internal + [Call(event.value.callId, sha.value, event.value.startedUnix)];
      } else if sha.None? && event.value.provider != "minimax" {
        continue;
      } else {
        report.internalFileInvalid := true;
      }
    }
    assert lines[..|lines|] == lines;
    internal := SortCalls(internal);
  }

  // ----- The internal calls in terms of the lines themselves

  /** A line of the log that is the uncached call `call` with its fingerprint. */
  predicate Logs(parse: EventParser, line: string, call: Call) {
    && line != "" && parse(line).Some?
    && var event := parse(line).value;
       !event.cacheHit && event.bodySha256 == Some(call.hash) && call.hash != ""
       && event.callId == call.id && event.startedUnix == call.at
  }

  /** Not an event, an uncached call with an empty fingerprint, or one of "minimax" with none. */
  predicate IsBroken(parse: EventParser, line: string) {
    && line != ""
    && (parse(line).None?
        || (!parse(line).value.cacheHit
            && (parse(line).value.bodySha256 == Some("")
                || (parse(line).value.bodySha256 == None && parse(line).value.provider == "minimax"))))
  }

  /** The lines that log `call`. */
  function LinesOf(parse: EventParser, lines: seq<string>, call: Call): set<int> {
    set i | 0 <= i < |lines| && Logs(parse, lines[i], call)
  }

  lemma {:induction false} KeptAsLogged(parse: EventParser, lines: seq<string>, call: Call)
    ensures multiset(KeptCalls(parse, lines))[call] == |LinesOf(parse, lines, call)|
    decreases |lines|
  {
    if lines != [] {
      hide LinesOf;
      var init, last := lines[..|lines| - 1], lines[|lines| - 1];
      KeptAsLogged(parse, init, call);
      OneMoreLogged(parse, init, last, call);
      assert lines == init + [last];
    }
  }

  lemma OneMoreLogged(parse: EventParser, init: seq<string>, last: string, call: Call)
    ensures |LinesOf(parse, init + [last], call)|
            == |LinesOf(parse, init, call)| + if Logs(parse, last, call) then 1 else 0
  {
    hide Logs;
    var before := LinesOf(parse, init, call);
    assert LinesOf(parse, init + [last], call) == if Logs(parse, last, call) then before + {|init|} else before;
  }

  /**
   The internal calls are those that the lines log, each as often as there are such lines; the log is invalid
   exactly if one of its lines is broken.
   */
  lemma CallsOfLines(parse: EventParser, text: string)
    ensures forall call :: multiset(InternalCalls(parse, text))[call] == |LinesOf(parse, Lines(text), call)|
    ensures HasInvalidLine(parse, Lines(text)) <==> exists line :: line in Lines(text) && IsBroken(parse, line)
  {
    hide LinesOf, Lines;
    SortCallsSorts(KeptCalls(parse, Lines(text)));
    forall call
      ensures multiset(InternalCalls(parse, text))[call] == |LinesOf(parse, Lines(text), call)|
    {
      KeptAsLogged(parse, Lines(text), call);
    }
    assert forall line :: line != "" ==> (UseOf(parse, line).Invalid? <==> IsBroken(parse, line));
  }

  lemma {:induction false} KeptAppend(parse: EventParser, a: seq<string>, b: seq<string>)
    ensures KeptCalls(parse, a + b) == KeptCalls(parse, a) + KeptCalls(parse, b)
    decreases |b|
  {
    hide UseOf;
    if b == [] {
      assert a + b == a;
    } else {
      assert (a + b)[..|a + b| - 1] == a + b[..|b| - 1];
      KeptAppend(parse, a, b[..|b| - 1]);
    }
  }

  /** A line without a break that is empty, or the event of a cache hit or of an unhashed call of another provider. */
  predicate IsPassedOver(parse: EventParser, line: string) {
    && '\n' !in line && (line != "" ==> line[|line| - 1] != '\r')
    && (line == ""
        || (parse(line).Some?
            && (parse(line).value.cacheHit
                || (parse(line).value.bodySha256 == None && parse(line).value.provider != "minimax"))))
  }

  /** Such a line makes no difference, wherever it stands in the log of calls. */
  lemma PassedOver(parse: EventParser, before: string, line: string, after: string)
    requires Terminated(before) && IsPassedOver(parse, line)
    ensures InternalCalls(parse, before + (line + "\n" + after)) == InternalCalls(parse, before + after)
    ensures HasInvalidLine(parse, Lines(before + (line + "\n" + after)))
            <==> HasInvalidLine(parse, Lines(before + after))
  {
    hide Lines, IsPassedOver, KeptCalls, HasInvalidLine, Terminated;
    var a, b := Lines(before), Lines(after);
    LinesAppend(before, line + "\n" + after);
    LinesAppend(before, after);
    LineAdded(parse, line, after);
    LineMakesNoDifference(parse, a, line, b);
  }

  lemma LineAdded(parse: EventParser, line: string, after: string)
    requires IsPassedOver(parse, line)
    ensures Lines(line + "\n" + after) == [line] + Lines(after)
  {
    hide Lines;
    FirstLine(line, after);
  }

  lemma LineMakesNoDifference(parse: EventParser, a: seq<string>, line: string, b: seq<string>)
    requires IsPassedOver(parse, line)
    ensures KeptCalls(parse, a + ([line] + b)) == KeptCalls(parse, a + b)
    ensures HasInvalidLine(parse, a + ([line] + b)) <==> HasInvalidLine(parse, a + b)
  {
    NotKept(parse, line);
    KeptAppend(parse, a, [line] + b);
    KeptAppend(parse, [line], b);
    KeptAppend(parse, a, b);
    hide KeptCalls, IsPassedOver, UseOf;
    assert [] + KeptCalls(parse, b) == KeptCalls(parse, b);
    assert forall l :: l in a + ([line] + b) <==> l in a || l == line || l in b;
    assert forall l :: l in a + b <==> l in a || l in b;
  }

  lemma NotKept(parse: EventParser, line: string)
    requires IsPassedOver(parse, line)
    ensures KeptCalls(parse, [line]) == [] && (line == "" || !UseOf(parse, line).Invalid?)
  {
    assert [line][..0] == [];
  }

  /** Nor does it for the verdict. */
  lemma CacheHitsChangeNothing(gz: Gzip, c: Codec, parse: EventParser, audit: Option<Bytes>, before: string,
                               line: string, after: string, db: Option<seq<Row>>)
    requires Terminated(before) && IsPassedOver(parse, line)
    ensures VerdictOf(gz, c, parse, audit, Readable(before + (line + "\n" + after)), db)
            == VerdictOf(gz, c, parse, audit, Readable(before + after), db)
  {
    hide FileOf, Lines, HasInvalidLine, InternalCalls, BadLines, ParsedRecords, OutcomeOf, Ids, Explained, AllComplete,
         Mirrors, IsPassedOver, Terminated;
    PassedOver(parse, before, line, after);
  }

  // ----- The database mirror

  datatype Row = Row(callId: string, bodySha256: Option<string>, cacheHit: int)

  /** The hash the calls give for an id; of several calls under one id the last one stands. */
  function Expected(internal: seq<Call>, id: string): Option<string> {
    if internal == [] then None
    else if internal[|internal| - 1].id == id then Some(internal[|internal| - 1].hash)
    else Expected(internal[..|internal| - 1], id)
  }

  predicate RowAgrees(row: Row, internal: seq<Call>) {
    row.bodySha256.Some? && Expected(internal, row.callId) == row.bodySha256
  }

  ghost predicate IsListed(call: Call, rows: seq<Row>) {
    exists row :: row in rows && row.cacheHit == 0 && row.callId == call.id
  }

  /** Every uncached row has the hash of its call, and every call has an uncached row. */
  ghost predicate Mirrors(rows: seq<Row>, internal: seq<Call>) {
    && (forall row :: row in rows && row.cacheHit == 0 ==> RowAgrees(row, internal))
    && (forall call :: call in internal ==> IsListed(call, rows))
  }

  /** `calls[i]` is the last call under `id`. */
  predicate IsLastUnder(calls: seq<Call>, id: string, i: int) {
    0 <= i < |calls| && calls[i].id == id && forall j :: i < j < |calls| ==> calls[j].id != id
  }

  /** The row has the hash of the last call under its id. */
  ghost predicate HasItsHash(row: Row, calls: seq<Call>) {
    exists i :: IsLastUnder(calls, row.callId, i) && row.bodySha256 == Some(calls[i].hash)
  }

  lemma {:induction false} ExpectedIsLast(calls: seq<Call>, id: string)
    ensures forall i :: IsLastUnder(calls, id, i) ==> Expected(calls, id) == Some(calls[i].hash)
    ensures Expected(calls, id).Some? ==> exists i :: IsLastUnder(calls, id, i)
    decreases |calls|
  {
    if calls != [] {
      var n := |calls| - 1;
      var init := calls[..n];
      if calls[n].id == id {
        assert IsLastUnder(calls, id, n);
      } else {
        ExpectedIsLast(init, id);
        forall i
          ensures IsLastUnder(calls, id, i) <==> IsLastUnder(init, id, i)
        {
        }
      }
    }
  }

  lemma RowAgreesIff(row: Row, calls: seq<Call>)
    ensures RowAgrees(row, calls) <==> HasItsHash(row, calls)
  {
    hide Expected, IsLastUnder;
    ExpectedIsLast(calls, row.callId);
  }

  /** The uncached rows that lack the hash of their call. */
  ghost function BadRows(rows: seq<Row>, calls: seq<Call>): set<int> {
    set i | 0 <= i < |rows| && rows[i].cacheHit == 0 && !HasItsHash(rows[i], calls)
  }

  /** The calls that have no uncached row. */
  ghost function CallsWithoutRow(calls: seq<Call>, rows: seq<Row>): set<int> {
    set i | 0 <= i < |calls| && forall row :: row in rows && row.cacheHit == 0 ==> row.callId != calls[i].id
  }

  lemma {:induction false} DisagreeingAreBad(rows: seq<Row>, calls: seq<Call>)
    ensures DisagreeingRows(rows, calls) == |BadRows(rows, calls)|
    decreases |rows|
  {
    hide RowAgrees, HasItsHash;
    if rows != [] {
      var init, last := rows[..|rows| - 1], rows[|rows| - 1];
      DisagreeingAreBad(init, calls);
      RowAgreesIff(last, calls);
      var before := BadRows(init, calls);
      assert BadRows(rows, calls)
        == if last.cacheHit == 0 && !HasItsHash(last, calls) then before + {|init|} else before;
    }
  }

  lemma ListedIff(call: Call, rows: seq<Row>)
    ensures IsListed(call, rows) <==> !forall row :: row in rows && row.cacheHit == 0 ==> row.callId != call.id
  {
  }

  lemma {:induction false} UnlistedAreWithoutRow(calls: seq<Call>, rows: seq<Row>)
    ensures UnlistedCalls(calls, rows) == |CallsWithoutRow(calls, rows)|
    decreases |calls|
  {
    hide IsListed;
    if calls != [] {
      var init, last := calls[..|calls| - 1], calls[|calls| - 1];
      UnlistedAreWithoutRow(init, rows);
      ListedIff(last, rows);
      var before := CallsWithoutRow(init, rows);
      assert CallsWithoutRow(calls, rows) == if IsListed(last, rows) then before else before + {|init|};
    }
  }

  method ExpectedHashes(internal: seq<Call>) returns (expected: map<string, string>)
    ensures forall id :: id in expected <==> Expected(internal, id).Some?
    ensures forall id :: id in expected ==> Expected(internal, id) == Some(expected[id])
  {
    expected := map[];
    for i := 0 to |internal|
      invariant forall id :: id in expected <==> Expected(internal[..i], id).Some?
      invariant forall id :: id in expected ==> Expected(internal[..i], id) == Some(expected[id])
    {
      assert internal[..i + 1][..i] == internal[..i];
      expected := expected[internal[i].id := internal[i].hash];
    }
    assert internal[..|internal|] == internal;
  }

  /** How many uncached rows lack the hash of their call. */
  function DisagreeingRows(rows: seq<Row>, internal: seq<Call>): nat {
    if rows == [] then 0 else
      var last := rows[|rows| - 1];
      DisagreeingRows(rows[..|rows| - 1], internal) + if last.cacheHit == 0 && !RowAgrees(last, internal) then 1 else 0
  }

  /** How many calls have no uncached row. */
  ghost function UnlistedCalls(calls: seq<Call>, rows: seq<Row>): nat {
    if calls == [] then 0
    else UnlistedCalls(calls[..|calls| - 1], rows) + if IsListed(calls[|calls| - 1], rows) then 0 else 1
  }

  lemma {:induction false} NoDisagreeingRows(rows: seq<Row>, internal: seq<Call>)
    ensures DisagreeingRows(rows, internal) == 0
            <==> forall row :: row in rows && row.cacheHit == 0 ==> RowAgrees(row, internal)
    decreases |rows|
  {
    hide RowAgrees;
    if rows != [] {
      var init, last := rows[..|rows| - 1], rows[|rows| - 1];
      NoDisagreeingRows(init, internal);
      assert forall row :: row in rows <==> row in init || row == last;
    }
  }

  lemma {:induction false} NoUnlistedCalls(calls: seq<Call>, rows: seq<Row>)
    ensures UnlistedCalls(calls, rows) == 0 <==> forall call :: call in calls ==> IsListed(call, rows)
    decreases |calls|
  {
    hide IsListed;
    if calls != [] {
      var init, last := calls[..|calls| - 1], calls[|calls| - 1];
      NoUnlistedCalls(init, rows);
      assert forall call :: call in calls <==> call in init || call == last;
    }
  }

  method CompareSqlite(rows: seq<Row>, internal: seq<Call>) returns (discrepancies: nat)
    ensures discrepancies == |BadRows(rows, internal)| + |CallsWithoutRow(internal, rows)|
    ensures discrepancies == 0 <==> Mirrors(rows, internal)
  {
    hide IsListed, BadRows, CallsWithoutRow;
    var expected := ExpectedHashes(internal);
    var seen: set<string> := {};
    discrepancies := 0;
    for i := 0 to |rows|
      invariant forall id :: id in seen <==> exists row :: row in rows[..i] && row.cacheHit == 0 && row.callId == id
      invariant discrepancies == DisagreeingRows(rows[..i], internal)
    {
      var row := rows[i];
      assert rows[..i + 1] == rows[..i] + [row];
      if row.cacheHit == 0 {
        seen := seen + {row.callId};
        if !(row.callId in expected && row.bodySha256 == Some(expected[row.callId])) {
          discrepancies := discrepancies + 1;
        }
      }
    }
    assert rows[..|rows|] == rows;
    for i := 0 to |internal|
      invariant discrepancies == DisagreeingRows(rows, internal) + UnlistedCalls(internal[..i], rows)
    {
      assert internal[..i + 1] == internal[..i] + [internal[i]];
      ListedIffSeen(internal[i], rows, seen);
      if internal[i].id !in seen { discrepancies := discrepancies + 1; }
    }
    assert internal[..|internal|] == internal;
    DisagreeingAreBad(rows, internal);
    UnlistedAreWithoutRow(internal, rows);
    MirrorsIff(rows, internal);
  }

  lemma ListedIffSeen(call: Call, rows: seq<Row>, seen: set<string>)
    requires forall id :: id in seen <==> exists row :: row in rows && row.cacheHit == 0 && row.callId == id
    ensures IsListed(call, rows) <==> call.id in seen
  {
  }

  // ----- Matching

  ghost function Marked(used: seq<bool>): set<int> {
    set i | 0 <= i < |used| && used[i]
  }

  method FindFree(external: Call, internal: seq<Call>, used: array<bool>, sameHash: bool) returns (r: Option<nat>)
    requires used.Length == |internal|
    ensures r == FirstFree(external, internal, Marked(used[..]), sameHash)
  {
    var i := 0;
    while i < |internal|
      invariant i <= |internal|
      invariant FirstFree(external, internal, Marked(used[..]), sameHash)
             == FirstFree(external, internal, Marked(used[..]), sameHash, i)
    {
      if !used[i] && (internal[i].hash == external.hash) == sameHash && WithinWindow(internal[i].at, external.at) {
        return Some(i);
      }
      i := i + 1;
    }
    return None;
  }

  method CountUnused(used: array<bool>) returns (n: nat)
    ensures n + |Marked(used[..])| == used.Length
  {
    n := 0;
    for i := 0 to used.Length
      invariant n + |Marked(used[..i])| == i
    {
      assert used[..i + 1] == used[..i] + [used[i]];
      MarkedGrows(used[..i], used[i]);
      if !used[i] { n := n + 1; }
    }
    assert used[..used.Length] == used[..];
  }

  lemma MarkedGrows(used: seq<bool>, b: bool)
    ensures |Marked(used + [b])| == |Marked(used)| + if b then 1 else 0
  {
    assert Marked(used + [b]) == if b then Marked(used) + {|used|} else Marked(used);
  }

  /** The used-flags of both lists are those of pairing `p`. */
  ghost predicate Flags(externalUsed: seq<bool>, internalUsed: seq<bool>, p: Pairing) {
    Marked(externalUsed) == p.fwd.Keys && Marked(internalUsed) == p.back.Keys
  }

  lemma MarkOne(used: seq<bool>, k: nat)
    requires k < |used|
    ensures Marked(used[k := true]) == Marked(used) + {k}
    ensures used[k] <==> k in Marked(used)
  {
  }

  lemma MarkBoth(externalUsed: seq<bool>, internalUsed: seq<bool>, p: Pairing, k: nat, j: nat)
    requires Flags(externalUsed, internalUsed, p) && k < |externalUsed| && j < |internalUsed|
    ensures Flags(externalUsed[k := true], internalUsed[j := true], Add(p, k, j))
  {
    MarkOne(externalUsed, k);
    MarkOne(internalUsed, j);
  }

  /** One greedy scan. `n` is the number of pairs it adds to `start`, which the flags record on entry. */
  method Scan(external: seq<Call>, internal: seq<Call>, sameHash: bool, ghost start: Pairing,
              externalUsed: array<bool>, internalUsed: array<bool>) returns (n: nat)
    requires externalUsed.Length == |external| && internalUsed.Length == |internal| && externalUsed != internalUsed
    requires Flags(externalUsed[..], internalUsed[..], start) && PairsInWindow(start, external, internal)
    modifies externalUsed, internalUsed
    ensures var p := Pass(external, internal, sameHash, start, |external|);
            Flags(externalUsed[..], internalUsed[..], p) && n + Size(start) == Size(p)
  {
    hide Flags, PairsInWindow, Marked, FirstFree;
    n := 0;
    for i := 0 to |external|
      invariant Flags(externalUsed[..], internalUsed[..], Pass(external, internal, sameHash, start, i))
      invariant n + Size(start) == Size(Pass(external, internal, sameHash, start, i))
    {
      ghost var p := Pass(external, internal, sameHash, start, i);
      PassKeeps(external, internal, sameHash, start, i);
      FlagsRead(externalUsed[..], internalUsed[..], p, i);
      if externalUsed[i] { continue; }
      var found := FindFree(external[i], internal, internalUsed, sameHash);
      if found.Some? {
        VisitAdds(external, internal, sameHash, p, i, found.value);
        MarkBoth(externalUsed[..], internalUsed[..], p, i, found.value);
        externalUsed[i] := true;
        internalUsed[found.value] := true;
        n := n + 1;
      }
    }
  }

  lemma FlagsRead(externalUsed: seq<bool>, internalUsed: seq<bool>, p: Pairing, i: nat)
    requires Flags(externalUsed, internalUsed, p) && i < |externalUsed|
    ensures externalUsed[i] <==> i in p.fwd
    ensures Marked(internalUsed) == p.back.Keys
  {
  }

  lemma PassKeeps(external: seq<Call>, internal: seq<Call>, sameHash: bool, start: Pairing, n: nat)
    requires n <= |external| && PairsInWindow(start, external, internal)
    ensures PairsInWindow(Pass(external, internal, sameHash, start, n), external, internal)
  {
    PassExtends(external, internal, sameHash, start, n);
  }

  lemma VisitAdds(external: seq<Call>, internal: seq<Call>, sameHash: bool, p: Pairing, k: nat, j: nat)
    requires k < |external| && PairsInWindow(p, external, internal) && k !in p.fwd
    requires FirstFree(external[k], internal, p.back.Keys, sameHash) == Some(j)
    ensures Visit(external, internal, sameHash, p, k) == Add(p, k, j) && Size(Add(p, k, j)) == Size(p) + 1
    ensures j < |internal|
  {
    AddKeeps(external, internal, p, k, j);
  }

  method MatchCalls(external: seq<Call>, internal: seq<Call>, report: VerifyReport)
    modifies report`matchCount, report`bodyMismatchCount, report`unmatchedExternalCount, report`unmatchedInternalCount
    ensures report.matchCount == old(report.matchCount) + Size(Matched(external, internal))
    ensures report.bodyMismatchCount == old(report.bodyMismatchCount) + Mismatches(external, internal)
    ensures report.unmatchedExternalCount + Size(Final(external, internal))
            == old(report.unmatchedExternalCount) + |external|
    ensures report.unmatchedInternalCount + Size(Final(external, internal))
            == old(report.unmatchedInternalCount) + |internal|
  {
    hide FirstFree, Matched, Final, Mismatches, Flags, Marked, PairsInWindow, Explains;
    var externalUsed := new bool[|external|](_ => false);
    var internalUsed := new bool[|internal|](_ => false);
    NothingMarked(externalUsed[..], internalUsed[..]);
    PassesAreScans(external, internal);
    var matched := Scan(external, internal, true, NO_PAIRS, externalUsed, internalUsed);
    report.matchCount := report.matchCount + matched;
    var mismatched := Scan(external, internal, false, Matched(external, internal), externalUsed, internalUsed);
    report.bodyMismatchCount := report.bodyMismatchCount + mismatched;
    UsedAsOften(externalUsed[..], internalUsed[..], Final(external, internal), external, internal);
    var unused := CountUnused(externalUsed);
    report.unmatchedExternalCount := report.unmatchedExternalCount + unused;
    unused := CountUnused(internalUsed);
    report.unmatchedInternalCount := report.unmatchedInternalCount + unused;
  }

  lemma NothingMarked(externalUsed: seq<bool>, internalUsed: seq<bool>)
    requires (forall i :: 0 <= i < |externalUsed| ==> !externalUsed[i])
             && forall i :: 0 <= i < |internalUsed| ==> !internalUsed[i]
    ensures Flags(externalUsed, internalUsed, NO_PAIRS) && Size(NO_PAIRS) == 0
  {
  }

  lemma PassesAreScans(external: seq<Call>, internal: seq<Call>)
    ensures Pass(external, internal, true, NO_PAIRS, |external|) == Matched(external, internal)
    ensures Pass(external, internal, false, Matched(external, internal), |external|) == Final(external, internal)
    ensures PairsInWindow(NO_PAIRS, external, internal)
            && PairsInWindow(Matched(external, internal), external, internal)
    ensures PairsInWindow(Final(external, internal), external, internal)
    ensures Mismatches(external, internal) + Size(Matched(external, internal)) == Size(Final(external, internal))
  {
    hide Pass;
    ScansExtend(external, internal);
  }

  lemma UsedAsOften(externalUsed: seq<bool>, internalUsed: seq<bool>, p: Pairing, external: seq<Call>,
                    internal: seq<Call>)
    requires Flags(externalUsed, internalUsed, p) && PairsInWindow(p, external, internal)
    ensures |Marked(externalUsed)| == |Marked(internalUsed)| == Size(p)
  {
    SizeBounds(p, external, internal);
    assert |p.fwd.Keys| == |p.fwd| && |p.back.Keys| == |p.back|;
  }

  // ----- The whole check

  datatype File = Missing | Unreadable | Readable(text: string)

  /** `read_path` of a gzip file, which is read whole or not at all. */
  function FileOf(gz: Gzip, bytes: Option<Bytes>): File {
    if bytes.None? then Missing
    else match Unzip(gz, bytes.value)
      case None => Unreadable
      case Some(text) => Readable(text)
  }

  /** Every id of the log has one request, one terminal record and a fingerprint. */
  ghost predicate AllComplete(rs: seq<AuditRecord>) {
    forall id :: id in Ids(rs) ==> OutcomeOf(rs, id).Complete?
  }

  /** The complete external calls of the log correspond one to one to the internal calls. */
  ghost predicate Explained(rs: seq<AuditRecord>, internal: seq<Call>) {
    exists external, m :: IsCallList(rs, external) && Bijection(m, external, internal)
  }

  /** The two logs tell the same story, and so does the database if it is consulted. */
  ghost predicate LogsAgree(c: Codec, parse: EventParser, audit: string, calls: string, db: Option<seq<Row>>) {
    && BadLines(c, Lines(audit)) == []
    && !HasInvalidLine(parse, Lines(calls))
    && AllComplete(ParsedRecords(c, Lines(audit)))
    && Explained(ParsedRecords(c, Lines(audit)), InternalCalls(parse, calls))
    && (db.Some? ==> Mirrors(db.value, InternalCalls(parse, calls)))
  }

  /** Every line of both logs is intact, and no id of the audit log is duplicated or without a fingerprint. */
  ghost predicate LogsAreSound(c: Codec, parse: EventParser, audit: string, calls: string) {
    && BadLines(c, Lines(audit)) == []
    && !HasInvalidLine(parse, Lines(calls))
    && forall id :: id in Ids(ParsedRecords(c, Lines(audit))) ==>
         OutcomeOf(ParsedRecords(c, Lines(audit)), id) != Rejected
  }

  lemma CompleteIffNoneElse(rs: seq<AuditRecord>)
    ensures AllComplete(rs)
            <==> Tally(rs, Ids(rs), Rejected) == Tally(rs, Ids(rs), OrphanRequest)
                 == Tally(rs, Ids(rs), OrphanResponse) == 0
  {
    hide OutcomeOf;
    TallyZero(rs, Rejected);
    TallyZero(rs, OrphanRequest);
    TallyZero(rs, OrphanResponse);
  }

  lemma TallyZero(rs: seq<AuditRecord>, o: Outcome)
    ensures Tally(rs, Ids(rs), o) == 0 <==> forall id :: id in Ids(rs) ==> OutcomeOf(rs, id) != o
  {
    hide OutcomeOf;
    var hit := set id | id in Ids(rs) && OutcomeOf(rs, id) == o;
    assert (forall id :: id in Ids(rs) ==> OutcomeOf(rs, id) != o) ==> hit == {};
    forall id | id in Ids(rs) && OutcomeOf(rs, id) == o
      ensures |hit| > 0
    {
      assert id in hit;
    }
  }

  lemma ExplainedIffClean(rs: seq<AuditRecord>, external: seq<Call>, internal: seq<Call>)
    requires IsCallList(rs, external) && SortedByTime(internal)
    ensures Explained(rs, internal)
            <==> Mismatches(external, internal) == 0 && Size(Final(external, internal)) == |external| == |internal|
  {
    hide OutcomeOf, Bijection, Matched, Final, Mismatches;
    forall i, j | 0 <= i < j < |external|
      ensures external[i].at <= external[j].at
    {
      assert CallLess(external[i], external[j]);
    }
    CleanIffExplainable(external, internal);
    forall other, m | IsCallList(rs, other) && Bijection(m, other, internal)
      ensures other == external
    {
      CallLessIsStrict();
      AscendingUnique(other, external, CallLess);
    }
  }

  /** The summary of the report, in terms of what the files hold. */
  ghost function VerdictOf(gz: Gzip, c: Codec, parse: EventParser, audit: Option<Bytes>, calls: File,
                           db: Option<seq<Row>>): string {
    var log := FileOf(gz, audit);
    if !log.Readable? || !calls.Readable? || !LogsAreSound(c, parse, log.text, calls.text) then "invalid"
    else if LogsAgree(c, parse, log.text, calls.text, db) then "ok"
    else "mismatch"
  }

  /** The verdict, case by case. */
  lemma Verdicts(gz: Gzip, c: Codec, parse: EventParser, audit: Option<Bytes>, calls: File, db: Option<seq<Row>>)
    ensures var verdict := VerdictOf(gz, c, parse, audit, calls, db);
            var log := FileOf(gz, audit);
            && (log.Missing? <==> audit.None?) && (log.Unreadable? <==> audit.Some? && Unzip(gz, audit.value).None?)
            && (audit.Some? && Unzip(gz, audit.value).Some? ==> log == Readable(Unzip(gz, audit.value).value))
            && (if audit.None? || Unzip(gz, audit.value).None? || !calls.Readable? then verdict == "invalid"
                else
                  var text := Unzip(gz, audit.value).value;
                  verdict == (if !LogsAreSound(c, parse, text, calls.text) then "invalid"
                              else if LogsAgree(c, parse, text, calls.text, db) then "ok"
                              else "mismatch"))
  {
    hide LogsAreSound, LogsAgree, Unzip;
  }

  /** No record has been looked at. */
  ghost predicate NothingCounted(report: VerifyReport)
    reads report
  {
    && report.matchCount == report.bodyMismatchCount == report.orphanRequestCount == report.orphanResponseCount == 0
    && report.unmatchedInternalCount == report.unmatchedExternalCount == 0
  }

  /** What the audit log alone contributes to the report. */
  ghost predicate LogCounted(report: VerifyReport, bad: nat, rs: seq<AuditRecord>)
    reads report
  {
    && report.crcInvalidCount == bad + Tally(rs, Ids(rs), Rejected)
    && report.orphanRequestCount == Tally(rs, Ids(rs), OrphanRequest)
    && report.orphanResponseCount == Tally(rs, Ids(rs), OrphanResponse)
  }

  /** What the comparison with the internal calls and the database contributes. */
  ghost predicate CallsCounted(report: VerifyReport, external: seq<Call>, internal: seq<Call>, db: Option<seq<Row>>)
    reads report
  {
    && report.matchCount == Size(Matched(external, internal))
    && report.bodyMismatchCount == Mismatches(external, internal)
    && report.unmatchedExternalCount + Size(Final(external, internal)) == |external|
    && report.unmatchedInternalCount + Size(Final(external, internal))
       == |internal| + if db.Some? then |BadRows(db.value, internal)| + |CallsWithoutRow(internal, db.value)| else 0
  }

  ghost predicate ReportIs(report: VerifyReport, c: Codec, parse: EventParser, audit: string, calls: File,
                           db: Option<seq<Row>>)
    reads report
  {
    var records := ParsedRecords(c, Lines(audit));
    && !report.auditFileMissing && !report.internalFileMissing
    && LogCounted(report, |BadLines(c, Lines(audit))|, records)
    && (report.internalFileInvalid <==> !calls.Readable? || HasInvalidLine(parse, Lines(calls.text)))
    && (!report.internalFileInvalid ==> exists external ::
          IsCallList(records, external) && CallsCounted(report, external, InternalCalls(parse, calls.text), db))
  }

  method VerifyInner(gz: Gzip, c: Codec, parse: EventParser, audit: Option<Bytes>, calls: File, db: Option<seq<Row>>)
    returns (report: VerifyReport)
    ensures fresh(report)
    ensures report.Summary() == VerdictOf(gz, c, parse, audit, calls, db)
    ensures report.Summary() == "ok" <==>
              var log := FileOf(gz, audit);
              log.Readable? && calls.Readable? && LogsAgree(c, parse, log.text, calls.text, db)
    ensures report.ExitCode()
            == (if report.Summary() == "ok" then 0 else if report.Summary() == "mismatch" then 1 else 2)
    ensures report.auditFileMissing <==> audit.None?
    ensures report.internalFileMissing <==> audit.Some? && calls.Missing?
    ensures FileOf(gz, audit).Unreadable? && !calls.Missing? ==> report.crcInvalidCount == 1 && NothingCounted(report)
    ensures FileOf(gz, audit).Readable? && !calls.Missing?
            ==> ReportIs(report, c, parse, FileOf(gz, audit).text, calls, db)
  {
    Verdicts(gz, c, parse, audit, calls, db);
    hide Unzip, VerdictOf, FileOf, LogsAgree, LogsAreSound, OutcomeOf, AllComplete, Explained, IsCallList, Mirrors,
         HasInvalidLine, Tally, Mismatches, Final, Matched, Ids, Lines, BadLines, ParsedRecords, InternalCalls, Size,
         BadRows, CallsWithoutRow;
    report := new VerifyReport();
    if audit.None? {
      report.auditFileMissing := true;
      return;
    }
    if calls.Missing? {
      report.internalFileMissing := true;
      return;
    }
    var text := Unzip(gz, audit.value);
    if text.None? {
      report.crcInvalidCount := 1;
      return;
    }
    CheckLogs(c, parse, text.value, calls, db, report);
    SummaryOfReport(report, c, parse, text.value, calls, db);
    if calls.Readable? { AgreementIsSound(c, parse, text.value, calls.text, db); }
  }

  /** The rest of the check, once the audit log has been read. */
  method CheckLogs(c: Codec, parse: EventParser, audit: string, calls: File, db: Option<seq<Row>>, report: VerifyReport)
    requires NothingCounted(report) && report.crcInvalidCount == 0
    requires !report.auditFileMissing && !report.internalFileMissing && !report.internalFileInvalid
    modifies report
    ensures ReportIs(report, c, parse, audit, calls, db)
  {
    hide OutcomeOf, IsCallList, HasInvalidLine, Tally, Mismatches, Final, Matched, Ids, Lines, BadLines, ParsedRecords,
         InternalCalls, Size, BadRows, CallsWithoutRow, Mirrors;
    var invalid, _ := CountInvalidCrcs(c, audit);
    report.crcInvalidCount := invalid;
    var records := ParseAuditRecords(c, audit);
    var external := PairExternalRecords(records, report);
    if calls.Unreadable? || calls.Missing? {
      report.internalFileInvalid := true;
      return;
    }
    var internal := ParseInternalCalls(parse, calls.text, report);
    if report.internalFileInvalid { return; }
    var discrepancies := 0;
    if db.Some? {
      discrepancies := CompareSqlite(db.value, internal);
    }
    MatchCalls(external, internal, report);
    report.unmatchedInternalCount := report.unmatchedInternalCount + discrepancies;
    assert CallsCounted(report, external, internal, db);
  }

  /** The summary of a report with the right counters. */
  lemma SummaryOfReport(report: VerifyReport, c: Codec, parse: EventParser, audit: string, calls: File,
                        db: Option<seq<Row>>)
    requires ReportIs(report, c, parse, audit, calls, db)
    ensures report.Summary()
            == if !calls.Readable? || !LogsAreSound(c, parse, audit, calls.text) then "invalid"
               else if LogsAgree(c, parse, audit, calls.text, db) then "ok"
               else "mismatch"
  {
    hide LogsAgree, LogsAreSound, OutcomeOf, AllComplete, Explained, IsCallList, Mirrors, HasInvalidLine, Tally,
         Mismatches, Final, Matched, Ids, Lines, BadLines, ParsedRecords, InternalCalls, Size, BadRows, CallsWithoutRow;
    var records := ParsedRecords(c, Lines(audit));
    Soundness(c, parse, audit, if calls.Readable? then calls.text else "");
    CompleteIffNoneElse(records);
    if !report.internalFileInvalid {
      var internal := InternalCalls(parse, calls.text);
      var external :| IsCallList(records, external) && CallsCounted(report, external, internal, db);
      Agreement(c, parse, audit, calls.text, db, records, external);
      PairsBounded(external, internal);
      if db.Some? { MirrorsIff(db.value, internal); }
    }
  }

  lemma AgreementIsSound(c: Codec, parse: EventParser, audit: string, calls: string, db: Option<seq<Row>>)
    ensures LogsAgree(c, parse, audit, calls, db) ==> LogsAreSound(c, parse, audit, calls)
  {
    hide OutcomeOf, BadLines, HasInvalidLine, Lines, ParsedRecords, Ids, Explained, Mirrors;
  }

  lemma PairsBounded(external: seq<Call>, internal: seq<Call>)
    ensures Size(Final(external, internal)) <= |external| && Size(Final(external, internal)) <= |internal|
  {
    hide Matched, Final;
    ScansExtend(external, internal);
    SizeBounds(Final(external, internal), external, internal);
  }

  lemma MirrorsIff(rows: seq<Row>, internal: seq<Call>)
    ensures Mirrors(rows, internal) <==> |BadRows(rows, internal)| + |CallsWithoutRow(internal, rows)| == 0
  {
    hide BadRows, CallsWithoutRow, RowAgrees, IsListed;
    NoDisagreeingRows(rows, internal);
    NoUnlistedCalls(internal, rows);
    DisagreeingAreBad(rows, internal);
    UnlistedAreWithoutRow(internal, rows);
  }

  lemma Soundness(c: Codec, parse: EventParser, audit: string, calls: string)
    ensures var records := ParsedRecords(c, Lines(audit));
            LogsAreSound(c, parse, audit, calls)
            <==> BadLines(c, Lines(audit)) == [] && !HasInvalidLine(parse, Lines(calls))
                 && Tally(records, Ids(records), Rejected) == 0
  {
    hide OutcomeOf, Tally, BadLines, HasInvalidLine, Lines, ParsedRecords, Ids;
    TallyZero(ParsedRecords(c, Lines(audit)), Rejected);
  }

  /** `LogsAgree` in terms of the counters. */
  lemma Agreement(c: Codec, parse: EventParser, audit: string, calls: string, db: Option<seq<Row>>,
                  records: seq<AuditRecord>, external: seq<Call>)
    requires records == ParsedRecords(c, Lines(audit)) && IsCallList(records, external)
    ensures var internal := InternalCalls(parse, calls);
            LogsAgree(c, parse, audit, calls, db)
            <==> && BadLines(c, Lines(audit)) == [] && !HasInvalidLine(parse, Lines(calls)) && AllComplete(records)
                 && Mismatches(external, internal) == 0
                 && Size(Final(external, internal)) == |external| == |internal|
                 && (db.Some? ==> Mirrors(db.value, internal))
  {
    SortCallsSorts(KeptCalls(parse, Lines(calls)));
    ExplainedIffClean(records, external, InternalCalls(parse, calls));
  }

  // ----- A log on disk that was cut, or written to after a cut

  lemma {:induction false} ArchiveLength(gz: Gzip, c: Codec, rs: seq<AuditRecord>, m: nat)
    requires m <= |rs|
    ensures |Archive(gz, c, rs[..m])| <= |Archive(gz, c, rs)|
    decreases |rs|
  {
    hide Archive;
    if m < |rs| {
      var init, last := rs[..|rs| - 1], rs[|rs| - 1];
      ArchiveLength(gz, c, init, m);
      ArchiveGrows(gz, c, init, last);
      assert rs == init + [last] && rs[..m] == init[..m];
    } else {
      assert rs[..m] == rs;
    }
  }

  /** The cut falls between members. */
  ghost predicate IsBoundary(gz: Gzip, c: Codec, rs: seq<AuditRecord>, k: nat) {
    exists n | 0 <= n <= |rs| :: k == |Archive(gz, c, rs[..n])|
  }

  /** Of a log that was cut the check sees something exactly if the cut falls between members. */
  lemma CutIsReadableIff(gz: Gzip, c: Codec, rs: seq<AuditRecord>, k: nat)
    requires Unzips(gz) && k <= |Archive(gz, c, rs)|
    ensures var file := FileOf(gz, Some(Archive(gz, c, rs)[..k]));
            if IsBoundary(gz, c, rs, k) then exists n | 0 <= n <= |rs| :: file == Readable(SealedText(c, rs[..n]))
            else file == Unreadable
  {
    hide Archive, Unzip, SealedText;
    var n := CutArchive(gz, c, rs, k);
    if m :| 0 <= m <= |rs| && k == |Archive(gz, c, rs[..m])| {
      if m <= n {
        assert rs[..n][..m] == rs[..m];
        ArchiveLength(gz, c, rs[..n], m);
      } else {
        assert rs[..m][..n + 1] == rs[..n + 1];
        ArchiveLength(gz, c, rs[..m], n + 1);
      }
    }
  }

  /** A cut inside a member makes the check say "invalid", whatever the records before it. */
  lemma CutIsInvalid(gz: Gzip, c: Codec, parse: EventParser, rs: seq<AuditRecord>, k: nat, calls: File,
                     db: Option<seq<Row>>)
    requires Unzips(gz) && k <= |Archive(gz, c, rs)| && !IsBoundary(gz, c, rs, k)
    ensures VerdictOf(gz, c, parse, Some(Archive(gz, c, rs)[..k]), calls, db) == "invalid"
  {
    hide FileOf, Archive, IsBoundary;
    CutIsReadableIff(gz, c, rs, k);
  }

  /** So it is enough that any log loses its last byte, although all its records but one are whole. */
  lemma LastByteLost(gz: Gzip, c: Codec, parse: EventParser, rs: seq<AuditRecord>, calls: File, db: Option<seq<Row>>)
    requires Unzips(gz) && rs != []
    ensures var k := |Archive(gz, c, rs)| - 1;
            k >= 0 && !IsBoundary(gz, c, rs, k)
            && VerdictOf(gz, c, parse, Some(Archive(gz, c, rs)[..k]), calls, db) == "invalid"
  {
    hide Archive, VerdictOf;
    var init, last := rs[..|rs| - 1], rs[|rs| - 1];
    assert |Member(gz, c, last)| >= HEADER_AND_TRAILER;
    hide Member;
    assert rs == init + [last];
    ArchiveGrows(gz, c, init, last);
    forall n | 0 <= n <= |rs|
      ensures |Archive(gz, c, rs[..n])| != |Archive(gz, c, rs)| - 1
    {
      if n < |rs| {
        ArchiveLength(gz, c, init, n);
        assert init[..n] == rs[..n];
      } else {
        assert rs[..n] == rs;
      }
    }
    CutIsInvalid(gz, c, parse, rs, |Archive(gz, c, rs)| - 1, calls, db);
  }

  /**
   A torn member stays a fault for good: whatever is written behind it, the check says "invalid", unless the
   reader takes the torn part and what follows it for a member, which nobody wrote.
   */
  lemma TornStaysInvalid(gz: Gzip, c: Codec, parse: EventParser, rs: seq<AuditRecord>, torn: AuditRecord, k: nat,
                         more: Bytes, calls: File, db: Option<seq<Row>>)
    requires Unzips(gz) && 0 < k < |Member(gz, c, torn)|
    ensures var part := Member(gz, c, torn)[..k];
            || VerdictOf(gz, c, parse, Some(Archive(gz, c, rs) + (part + more)), calls, db) == "invalid"
            || (more != [] && gz.next(part + more).Some?)
  {
    hide Archive, Unzip, Member;
    WrittenBehindTorn(gz, c, rs, torn, k, more);
  }
}
