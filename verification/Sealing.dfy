/** Writing sealed records to a log and checking the seals of a log. */
module Sealing {
  import opened Types
  import opened Wrappers
  import opened Gzip
  import opened Json
  import opened AuditFormat

  // ----- The seal

  /** The canonical text of an object without its `crc32` field. */
  function ObjectText(c: Codec, fs: seq<Field>): string {
    c.render(Canon(Obj(SwapRemove(fs, "crc32"))))
  }

  function ObjectCrc(c: Codec, fs: seq<Field>): string {
    c.crc32Hex(ObjectText(c, fs))
  }

  function RecordCrc(c: Codec, r: AuditRecord): string {
    ObjectCrc(c, ToFields(r))
  }

  function Seal(c: Codec, r: AuditRecord): AuditRecord {
    r.(crc32 := RecordCrc(c, r))
  }

  function SealedLine(c: Codec, r: AuditRecord): string {
    c.render(Canon(ToValue(Seal(c, r)))) + "\n"
  }

  /** An object that carries the checksum of its other fields. */
  predicate CarriesItsCrc(c: Codec, v: Json) {
    v.Obj? && Get(v.fields, "crc32") == Some(Str(ObjectCrc(c, v.fields)))
  }

  predicate LineIsValid(c: Codec, line: string) {
    var v := c.parse(line);
    v.Some? && CarriesItsCrc(c, v.value)
  }

  lemma FieldsBesidesCrc(r: AuditRecord, crc: string, f: Field)
    requires f.key != "crc32"
    ensures f in ToFields(r) <==> f in ToFields(r.(crc32 := crc))
  {
    hide Present;
    SlotsAreDistinct(r);
    SlotsAreDistinct(r.(crc32 := crc));
    PresentMembers(Slots(r));
    PresentMembers(Slots(r.(crc32 := crc)));
    var s := Slot(f.key, Some(f.val));
    assert s in Slots(r) <==> s in Slots(r.(crc32 := crc)) by {
      assert Slots(r.(crc32 := crc)) == Slots(r)[11 := Slot("crc32", Some(Str(crc)))];
      assert Slots(r)[11].key == "crc32";
    }
  }

  /** A seal does not depend on the checksum the record carried before, so sealing twice changes nothing. */
  lemma SealIgnoresEarlierCrc(c: Codec, r: AuditRecord, crc: string)
    ensures Seal(c, r.(crc32 := crc)) == Seal(c, r)
  {
    hide ToFields, ObjectText;
    TextIgnoresCrc(c, r, crc);
  }

  lemma TextIgnoresCrc(c: Codec, r: AuditRecord, crc: string)
    ensures ObjectText(c, ToFields(r.(crc32 := crc))) == ObjectText(c, ToFields(r))
  {
    hide ToFields, Slots, SwapRemove;
    var r' := r.(crc32 := crc);
    var fs, gs := ToFields(r), ToFields(r');
    ToValueIsWellFormed(r);
    ToValueIsWellFormed(r');
    SwapRemoveMembers(fs, "crc32");
    SwapRemoveMembers(gs, "crc32");
    forall f
      ensures f in SwapRemove(fs, "crc32") <==> f in SwapRemove(gs, "crc32")
    {
      if f.key != "crc32" { FieldsBesidesCrc(r, crc, f); }
    }
    CanonOfSameFields(SwapRemove(fs, "crc32"), SwapRemove(gs, "crc32"));
  }

  lemma CanonOfSameFields(fs: seq<Field>, gs: seq<Field>)
    requires DistinctKeys(fs) && DistinctKeys(gs) && forall f :: f in fs <==> f in gs
    ensures Canon(Obj(fs)) == Canon(Obj(gs))
  {
    var cs, ds := CanonFields(fs), CanonFields(gs);
    forall i | 0 <= i < |fs|
      ensures cs[i] in ds
    {
      assert fs[i] in gs;
      var j :| 0 <= j < |gs| && gs[j] == fs[i];
      assert ds[j] == cs[i];
    }
    forall j | 0 <= j < |gs|
      ensures ds[j] in cs
    {
      assert gs[j] in fs;
      var i :| 0 <= i < |fs| && fs[i] == gs[j];
      assert cs[i] == ds[j];
    }
    SortFieldsUnique(cs, ds);
  }

  lemma CanonicalKeepsCrc(c: Codec, fs: seq<Field>)
    requires WellFormed(Obj(fs))
    ensures ObjectCrc(c, Canon(Obj(fs)).fields) == ObjectCrc(c, fs)
  {
    DropCommutes(fs, "crc32");
  }

  /** A sealed record carries its checksum when written and is read back unchanged. */
  lemma SealedLineIsValid(c: Codec, r: AuditRecord)
    requires Faithful(c) && IsStamp(r.ts)
    ensures var line := c.render(Canon(ToValue(Seal(c, r))));
            LineIsValid(c, line) && ParseRecord(c, line) == Some(Seal(c, r))
  {
    hide IsStamp, Printable, Slots, Get, SwapRemove, FromValue, ToFields;
    var s := Seal(c, r);
    var v := Canon(ToValue(s));
    ToValueIsPrintable(s);
    ToValueIsWellFormed(s);
    CanonIsSorted(ToValue(s));
    CanonKeepsShape(ToValue(s));
    CanonHoldsRecord(s);
    CanonicalKeepsCrc(c, ToFields(s));
    SealIgnoresEarlierCrc(c, r, RecordCrc(c, r));
    RecordRoundTrip(s);
  }

  // ----- What a seal protects

  lemma RenderIsInjective(c: Codec, u: Json, v: Json)
    requires Faithful(c) && Printable(u) && Printable(v) && c.render(u) == c.render(v)
    ensures u == v
  {
    hide Printable;
  }

  /** The text under the seal is the same for two objects exactly if they agree in all fields but `crc32`. */
  lemma TextsAgreeIff(c: Codec, fs: seq<Field>, gs: seq<Field>)
    requires Faithful(c) && WellFormed(Obj(fs)) && WellFormed(Obj(gs)) && Printable(Obj(fs)) && Printable(Obj(gs))
    ensures ObjectText(c, fs) == ObjectText(c, gs) <==> AgreeBeside(fs, gs, "crc32")
  {
    var rs, ts := SwapRemove(fs, "crc32"), SwapRemove(gs, "crc32");
    PrintableAfterDrop(fs, "crc32", MAX_DEPTH);
    PrintableAfterDrop(gs, "crc32", MAX_DEPTH);
    WellFormedAfterDrop(fs, "crc32");
    WellFormedAfterDrop(gs, "crc32");
    SameDroppedIff(fs, gs, "crc32");
    CanonIsComplete(Obj(rs), Obj(ts));
    CanonIsPrintable(Obj(rs), MAX_DEPTH);
    CanonIsPrintable(Obj(ts), MAX_DEPTH);
    hide Faithful, SwapRemove, Printable, WellFormed, AgreeBeside, Same, Canon;
    if ObjectText(c, fs) == ObjectText(c, gs) { RenderIsInjective(c, Canon(Obj(rs)), Canon(Obj(ts))); }
  }

  /** The line holds an object within the range that is read back exactly. */
  ghost predicate HoldsObject(c: Codec, line: string, fs: seq<Field>) {
    c.parse(line) == Some(Obj(fs)) && Printable(Obj(fs))
  }

  /**
   A valid line is edited and its `crc32` left alone. If any other field changed, the texts under the two seals
   differ, and the edited line passes the check only if their checksums collide.
   */
  lemma SealDetectsEdits(c: Codec, line: string, edited: string, fs: seq<Field>, gs: seq<Field>)
    requires Faithful(c) && HoldsObject(c, line, fs) && HoldsObject(c, edited, gs)
    requires LineIsValid(c, line) && Get(gs, "crc32") == Get(fs, "crc32")
    ensures LineIsValid(c, edited) <==> c.crc32Hex(ObjectText(c, fs)) == c.crc32Hex(ObjectText(c, gs))
    ensures ObjectText(c, fs) == ObjectText(c, gs) <==> AgreeBeside(fs, gs, "crc32")
  {
    hide Printable, ObjectText, AgreeBeside, Get;
    TextsAgreeIff(c, fs, gs);
  }

  /** Two records get one seal only if they agree in every other field or the checksums of two texts collide. */
  lemma SealsCollideIff(c: Codec, r: AuditRecord, q: AuditRecord)
    requires Faithful(c) && IsStamp(r.ts) && IsStamp(q.ts)
    ensures var t, u := ObjectText(c, ToFields(r)), ObjectText(c, ToFields(q));
            && (Seal(c, r).crc32 == Seal(c, q).crc32 <==> c.crc32Hex(t) == c.crc32Hex(u))
            && (t == u <==> r == q.(crc32 := r.crc32))
  {
    hide ObjectText, ToFields, IsStamp;
    var q' := q.(crc32 := r.crc32);
    TextIgnoresCrc(c, q, r.crc32);
    if ObjectText(c, ToFields(r)) == ObjectText(c, ToFields(q')) { SameTextSameRecord(c, r, q'); }
  }

  lemma PrintableRecord(r: AuditRecord)
    requires IsStamp(r.ts)
    ensures WellFormed(ToValue(r)) && WellFormed(Canon(ToValue(r))) && Printable(Canon(ToValue(r)))
    ensures Canon(ToValue(r)).Obj? && Canon(Canon(ToValue(r))) == Canon(ToValue(r))
  {
    hide Canon, Printable, ToFields, IsStamp, SortedDeep;
    ToValueIsPrintable(r);
    ToValueIsWellFormed(r);
    CanonIsSorted(ToValue(r));
    SortedIsCanonical(Canon(ToValue(r)));
    CanonKeepsShape(ToValue(r));
  }

  lemma SameTextSameRecord(c: Codec, r: AuditRecord, q: AuditRecord)
    requires Faithful(c) && IsStamp(r.ts) && IsStamp(q.ts) && r.crc32 == q.crc32
    requires ObjectText(c, ToFields(r)) == ObjectText(c, ToFields(q))
    ensures r == q
  {
    hide Canon, Printable, WellFormed, ToFields, IsStamp, Faithful, ObjectText, Get, AgreeBeside, Same, FromValue,
         AuditFormat.HoldsRecord;
    var u, v := Canon(ToValue(r)), Canon(ToValue(q));
    PrintableRecord(r);
    PrintableRecord(q);
    CanonicalText(c, ToFields(r));
    CanonicalText(c, ToFields(q));
    TextsAgreeIff(c, u.fields, v.fields);
    CanonHoldsRecord(r);
    CanonHoldsRecord(q);
    SameCrcField(u.fields, v.fields, r, q);
    AgreeInAll(u.fields, v.fields, "crc32");
    CanonIsComplete(u, v);
    RecordRoundTrip(r);
    RecordRoundTrip(q);
  }

  lemma SameCrcField(fs: seq<Field>, gs: seq<Field>, r: AuditRecord, q: AuditRecord)
    requires HoldsRecord(fs, r) && HoldsRecord(gs, q) && r.crc32 == q.crc32
    ensures Get(fs, "crc32") == Get(gs, "crc32") == Some(Str(r.crc32))
  {
    hide Get;
  }

  lemma CanonicalText(c: Codec, fs: seq<Field>)
    requires WellFormed(Obj(fs)) && Canon(Obj(fs)).Obj?
    ensures ObjectText(c, Canon(Obj(fs)).fields) == ObjectText(c, fs)
  {
    hide Canon, SwapRemove, WellFormed;
    DropCommutes(fs, "crc32");
  }

  /** Objects that agree beside a key, and hold the same text under it, are the same. */
  lemma AgreeInAll(fs: seq<Field>, gs: seq<Field>, key: string)
    requires WellFormed(Obj(fs)) && WellFormed(Obj(gs)) && AgreeBeside(fs, gs, key)
    requires Get(fs, key) == Get(gs, key) && Get(fs, key).Some? && Get(fs, key).value.Str?
    ensures Same(Obj(fs), Obj(gs))
  {
    hide Get, HasTwin, IsTwin, Same;
    GetIsMember(fs, key);
    GetIsMember(gs, key);
    var f := Field(key, Get(fs, key).value);
    var i :| 0 <= i < |fs| && fs[i] == f;
    var j :| 0 <= j < |gs| && gs[j] == f;
    StrTwins(f);
    TwinsWitness(fs, gs, i, j);
    OnlyUnderKey(fs, i);
    OnlyUnderKey(gs, j);
    SameIffTwins(fs, gs);
  }

  lemma StrTwins(f: Field)
    requires f.val.Str?
    ensures Twins(f, f)
  {
  }

  lemma OnlyUnderKey(fs: seq<Field>, i: nat)
    requires DistinctKeys(fs) && i < |fs|
    ensures forall k :: 0 <= k < |fs| && fs[k].key == fs[i].key ==> k == i
  {
  }

  // ----- Lines of a text

  function LineEnd(text: string): (n: nat)
    ensures n <= |text| && (forall k :: 0 <= k < n ==> text[k] != '\n') && (n < |text| ==> text[n] == '\n')
  {
    if text == "" || text[0] == '\n' then 0 else 1 + LineEnd(text[1..])
  }

  function StripCr(line: string): string {
    if line != "" && line[|line| - 1] == '\r' then line[..|line| - 1] else line
  }

  /** Lines end with a newline, perhaps after a carriage return; the last one may be unterminated. */
  function Lines(text: string): seq<string> {
    if text == "" then []
    else var n := LineEnd(text);
      if n == |text| then [text] else [StripCr(text[..n])] + Lines(text[n + 1..])
  }

  predicate Terminated(text: string) {
    text == "" || text[|text| - 1] == '\n'
  }

  lemma LineEndUnique(text: string, n: nat)
    requires n < |text| && (forall k :: 0 <= k < n ==> text[k] != '\n') && text[n] == '\n'
    ensures LineEnd(text) == n
  {
  }

  lemma FirstLine(first: string, rest: string)
    requires '\n' !in first
    ensures Lines(first + "\n" + rest) == [StripCr(first)] + Lines(rest)
  {
    var text := first + "\n" + rest;
    assert text[..|first|] == first && text[|first| + 1..] == rest;
    LineEndUnique(text, |first|);
  }

  lemma SplitFirstLine(text: string) returns (first: string, rest: string)
    requires Terminated(text) && text != ""
    ensures '\n' !in first && text == first + "\n" + rest && Terminated(rest)
  {
    var n := LineEnd(text);
    first, rest := text[..n], text[n + 1..];
  }

  lemma {:induction false} LinesAppend(a: string, b: string)
    requires Terminated(a)
    ensures Lines(a + b) == Lines(a) + Lines(b)
    decreases |a|
  {
    hide Lines;
    if a == "" {
      NoLines(b);
    } else {
      var first, rest := SplitFirstLine(a);
      LinesAppend(rest, b);
      FirstLine(first, rest);
      FirstLine(first, rest + b);
      assert a + b == first + "\n" + (rest + b);
      assert [StripCr(first)] + (Lines(rest) + Lines(b)) == ([StripCr(first)] + Lines(rest)) + Lines(b);
    }
  }

  /** A line feed, alone or behind a carriage return, ends a line and is not part of it. */
  lemma LineEndings(first: string, rest: string)
    requires '\n' !in first
    ensures Lines(first + "\r\n" + rest) == [first] + Lines(rest)
    ensures first == "" || first[|first| - 1] != '\r' ==> Lines(first + "\n" + rest) == [first] + Lines(rest)
  {
    hide Lines;
    FirstLine(first, rest);
    FirstLine(first + "\r", rest);
    assert first + "\r" + "\n" + rest == first + "\r\n" + rest;
    assert (first + "\r")[..|first|] == first;
  }

  lemma NoLines(b: string)
    ensures Lines("" + b) == Lines("") + Lines(b)
  {
    assert "" + b == b;
  }

  lemma LinesOfOne(line: string)
    requires '\n' !in line && '\r' !in line
    ensures Lines(line + "\n") == [line]
  {
    assert (line + "\n")[..|line|] == line && (line + "\n")[|line| + 1..] == "";
    LineEndUnique(line + "\n", |line|);
    assert line != "" ==> line[|line| - 1] in line;
  }

  // ----- Checking a log

  /** The non-empty lines that fail the check, in order. */
  function BadLines(c: Codec, lines: seq<string>): seq<string> {
    if lines == [] then [] else
      var last := lines[|lines| - 1];
      BadLines(c, lines[..|lines| - 1]) + if last == "" || LineIsValid(c, last) then [] else [last]
  }

  function ParseRecord(c: Codec, line: string): Option<AuditRecord> {
    match c.parse(line)
    case Some(v) => FromValue(v)
    case None => None
  }

  /** The records of a log, in order; lines that are not records are skipped. */
  function ParsedRecords(c: Codec, lines: seq<string>): seq<AuditRecord> {
    if lines == [] then [] else
      var last := lines[|lines| - 1];
      ParsedRecords(c, lines[..|lines| - 1])
      + if last != "" && ParseRecord(c, last).Some? then [ParseRecord(c, last).value] else []
  }

  /** What makes a line valid: an object with a `crc32` text that is the checksum of its other fields. */
  ghost predicate SealsItself(c: Codec, fs: seq<Field>, crc: string) {
    Field("crc32", Str(crc)) in fs && crc == c.crc32Hex(ObjectText(c, fs))
  }

  /** Whether one more line is bad, and what record it holds; an empty line is neither bad nor a record. */
  lemma OneMoreLine(c: Codec, lines: seq<string>, line: string)
    requires Faithful(c)
    ensures BadLines(c, lines + [line]) == BadLines(c, lines)
            <==> line == "" || exists fs, crc :: c.parse(line) == Some(Obj(fs)) && SealsItself(c, fs, crc)
    ensures || BadLines(c, lines + [line]) == BadLines(c, lines)
            || BadLines(c, lines + [line]) == BadLines(c, lines) + [line]
    ensures line == "" || c.parse(line).None? || FromValue(c.parse(line).value).None?
            <==> ParsedRecords(c, lines + [line]) == ParsedRecords(c, lines)
    ensures line != "" && c.parse(line).Some? && FromValue(c.parse(line).value).Some?
            ==> ParsedRecords(c, lines + [line]) == ParsedRecords(c, lines) + [FromValue(c.parse(line).value).value]
  {
    hide Printable, FromValue, ObjectText;
    assert (lines + [line])[..|lines|] == lines;
    ValidLineIff(c, line);
  }

  lemma ValidLineIff(c: Codec, line: string)
    requires Faithful(c)
    ensures LineIsValid(c, line) <==> exists fs, crc :: c.parse(line) == Some(Obj(fs)) && SealsItself(c, fs, crc)
  {
    hide Printable, ObjectText, Get;
    var v := c.parse(line);
    if v.Some? && v.value.Obj? {
      var fs := v.value.fields;
      GetIsMember(fs, "crc32");
      if LineIsValid(c, line) { assert SealsItself(c, fs, ObjectCrc(c, fs)); }
    }
  }

  method CountInvalidCrcs(c: Codec, jsonl: string) returns (invalid: nat, bad: seq<string>)
    ensures bad == BadLines(c, Lines(jsonl)) && invalid == |bad|
  {
    invalid, bad := 0, [];
    var lines := Lines(jsonl);
    for i := 0 to |lines|
      invariant bad == BadLines(c, lines[..i]) && invalid == |bad|
    {
      var line := lines[i];
      assert lines[..i + 1] == lines[..i] + [line];
      if line == "" { continue; }
      var value := c.parse(line);
      if value.None? {
        invalid, bad := invalid + 1, bad + [line];
        continue;
      }
      var reported := if value.value.Obj? then Get(value.value.fields, "crc32") else None;
      if reported.None? || !reported.value.Str? {
        invalid, bad := invalid + 1, bad + [line];
        continue;
      }
      var rest := SwapRemove(value.value.fields, "crc32");
      var expected := c.crc32Hex(c.render(Canon(Obj(rest))));
      if expected != reported.value.s {
        invalid, bad := invalid + 1, bad + [line];
      }
    }
    assert lines[..|lines|] == lines;
  }

  method ParseAuditRecords(c: Codec, text: string) returns (records: seq<AuditRecord>)
    ensures records == ParsedRecords(c, Lines(text))
  {
    records := [];
    var lines := Lines(text);
    for i := 0 to |lines|
      invariant records == ParsedRecords(c, lines[..i])
    {
      assert lines[..i + 1] == lines[..i] + [lines[i]];
      if lines[i] != "" {
        var record := ParseRecord(c, lines[i]);
        if record.Some? { records := records + [record.value]; }
      }
    }
    assert lines[..|lines|] == lines;
  }

  lemma {:induction false} BadLinesAppend(c: Codec, a: seq<string>, b: seq<string>)
    ensures BadLines(c, a + b) == BadLines(c, a) + BadLines(c, b)
    decreases |b|
  {
    hide LineIsValid;
    if b == [] {
      assert a + b == a;
    } else {
      assert (a + b)[..|a + b| - 1] == a + b[..|b| - 1];
      BadLinesAppend(c, a, b[..|b| - 1]);
    }
  }

  lemma {:induction false} ParsedRecordsAppend(c: Codec, a: seq<string>, b: seq<string>)
    ensures ParsedRecords(c, a + b) == ParsedRecords(c, a) + ParsedRecords(c, b)
    decreases |b|
  {
    hide ParseRecord;
    if b == [] {
      assert a + b == a;
    } else {
      assert (a + b)[..|a + b| - 1] == a + b[..|b| - 1];
      ParsedRecordsAppend(c, a, b[..|b| - 1]);
    }
  }

  /** Over newline-terminated logs the check is additive: bad lines, and hence their number, add up. */
  lemma CheckIsAdditive(c: Codec, a: string, b: string)
    requires Terminated(a)
    ensures BadLines(c, Lines(a + b)) == BadLines(c, Lines(a)) + BadLines(c, Lines(b))
    ensures ParsedRecords(c, Lines(a + b)) == ParsedRecords(c, Lines(a)) + ParsedRecords(c, Lines(b))
  {
    LinesAppend(a, b);
    BadLinesAppend(c, Lines(a), Lines(b));
    ParsedRecordsAppend(c, Lines(a), Lines(b));
  }

  // ----- Writing a log

  function SealedText(c: Codec, rs: seq<AuditRecord>): string {
    if rs == [] then "" else SealedText(c, rs[..|rs| - 1]) + SealedLine(c, rs[|rs| - 1])
  }

  function SealAll(c: Codec, rs: seq<AuditRecord>): seq<AuditRecord> {
    seq(|rs|, i requires 0 <= i < |rs| => Seal(c, rs[i]))
  }

  function SealedLines(c: Codec, rs: seq<AuditRecord>): seq<string> {
    seq(|rs|, i requires 0 <= i < |rs| => SealedLine(c, rs[i]))
  }

  /** A log on disk: a gzip member for each sealed line. */
  function Archive(gz: Gzip, c: Codec, rs: seq<AuditRecord>): Bytes {
    Members(gz, SealedLines(c, rs))
  }

  function Member(gz: Gzip, c: Codec, r: AuditRecord): Bytes {
    gz.zip(SealedLine(c, r))
  }

  /**
   How a write ends. A failure leaves the `left` last bytes in the buffer, among them those of the member if
   it was taken; or, for a member that bypasses the buffer, only its first `written` bytes reach the file.
   */
  datatype WriteOutcome = Written | Failed(taken: bool, left: nat) | Torn(written: nat)

  /** What a write adds to the bytes that are in the file or wait for it. */
  function Piece(gz: Gzip, c: Codec, r: AuditRecord, outcome: WriteOutcome): Bytes {
    var member := Member(gz, c, r);
    match outcome
    case Written => member
    case Failed(taken, _) => if taken then member else []
    case Torn(n) => if n < |member| then member[..n] else member
  }

  predicate IsTaken(outcome: WriteOutcome) {
    outcome == Written || (outcome.Failed? && outcome.taken)
  }

  /** A buffered append-only log file; `Stream` is its content followed by what waits in the buffer. */
  class AuditWriter {
    var file: Bytes
    var buffer: Bytes

    ghost function Stream(): Bytes
      reads this
    {
      file + buffer
    }

    constructor (existing: Bytes)
      ensures file == existing && buffer == []
    {
      file, buffer := existing, [];
    }

    /** Moves all but the `left` last bytes of the buffer to the file. */
    method Drain(left: nat)
      modifies this
      ensures Stream() == old(Stream()) && old(file) <= file
      ensures |buffer| == if left < old(|buffer|) then left else old(|buffer|)
    {
      var n := if left < |buffer| then |buffer| - left else 0;
      assert buffer == buffer[..n] + buffer[n..];
      file, buffer := file + buffer[..n], buffer[n..];
    }

    method WriteRecord(gz: Gzip, c: Codec, r: AuditRecord, outcome: WriteOutcome)
      returns (sealed: AuditRecord, ok: bool)
      modifies this
      ensures sealed == Seal(c, r)
      ensures ok <==> outcome == Written
      ensures Stream() == old(Stream()) + Piece(gz, c, r, outcome) && old(file) <= file
      ensures if outcome.Failed? then |buffer| <= outcome.left else buffer == []
    {
      sealed := r.(crc32 := RecordCrc(c, r));
      var line := c.render(Canon(ToValue(sealed)));
      line := line + "\n";
      var member := gz.zip(line);
      if outcome.Torn? {
        Drain(0);
        file := file + if outcome.written < |member| then member[..outcome.written] else member;
        return sealed, false;
      }
      if IsTaken(outcome) { buffer := buffer + member; }
      Drain(if outcome.Failed? then outcome.left else 0);
      return sealed, outcome == Written;
    }

    /** `flush_gz`; a failure leaves bytes in the buffer. */
    method FlushGz(left: Option<nat>) returns (ok: bool)
      modifies this
      ensures Stream() == old(Stream()) && old(file) <= file
      ensures ok <==> left.None?
      ensures ok ==> buffer == []
    {
      Drain(if left.Some? then left.value else 0);
      return left.None?;
    }
  }

  ghost predicate AllStamped(rs: seq<AuditRecord>) {
    forall i :: 0 <= i < |rs| ==> IsStamp(rs[i].ts)
  }

  lemma {:induction false} SealedTextTerminated(c: Codec, rs: seq<AuditRecord>)
    ensures Terminated(SealedText(c, rs))
  {
  }

  lemma SealAllStep(c: Codec, rs: seq<AuditRecord>)
    requires rs != []
    ensures SealAll(c, rs) == SealAll(c, rs[..|rs| - 1]) + [Seal(c, rs[|rs| - 1])]
  {
  }

  lemma OneSealedLine(c: Codec, r: AuditRecord)
    requires Faithful(c) && IsStamp(r.ts)
    ensures Lines(SealedLine(c, r)) == [c.render(Canon(ToValue(Seal(c, r))))]
    ensures BadLines(c, Lines(SealedLine(c, r))) == [] && ParsedRecords(c, Lines(SealedLine(c, r))) == [Seal(c, r)]
  {
    hide IsStamp, Lines, LineIsValid, ParseRecord, Seal, Canon, ToValue;
    var line := c.render(Canon(ToValue(Seal(c, r))));
    SealedLineIsValid(c, r);
    LinesOfOne(line);
    assert [line][..0] == [];
  }

  /** However many records are written, no line is invalid and exactly the sealed records are read back. */
  lemma {:induction false} SealedLogIsValid(c: Codec, rs: seq<AuditRecord>)
    requires Faithful(c) && AllStamped(rs)
    ensures BadLines(c, Lines(SealedText(c, rs))) == []
    ensures ParsedRecords(c, Lines(SealedText(c, rs))) == SealAll(c, rs)
    decreases |rs|
  {
    if rs != [] {
      hide IsStamp, Faithful, Lines, BadLines, ParsedRecords, Seal, SealAll, SealedLine, Terminated;
      var init, last := rs[..|rs| - 1], rs[|rs| - 1];
      SealedLogIsValid(c, init);
      SealedTextTerminated(c, init);
      OneSealedLine(c, last);
      CheckIsAdditive(c, SealedText(c, init), SealedLine(c, last));
      SealAllStep(c, rs);
    }
  }

  // ----- The log on disk

  lemma {:induction false} FlatLines(c: Codec, rs: seq<AuditRecord>)
    ensures Flat(SealedLines(c, rs)) == SealedText(c, rs)
    decreases |rs|
  {
    hide SealedLine;
    if rs != [] {
      FlatLines(c, rs[..|rs| - 1]);
      assert SealedLines(c, rs)[..|rs| - 1] == SealedLines(c, rs[..|rs| - 1]);
    }
  }

  lemma ArchiveGrows(gz: Gzip, c: Codec, rs: seq<AuditRecord>, r: AuditRecord)
    ensures Archive(gz, c, rs + [r]) == Archive(gz, c, rs) + Member(gz, c, r)
  {
    hide SealedLine;
    assert SealedLines(c, rs + [r])[..|rs|] == SealedLines(c, rs);
  }

  lemma SomethingArchived(gz: Gzip, c: Codec, rs: seq<AuditRecord>)
    requires Unzips(gz)
    ensures Archive(gz, c, rs) == [] <==> rs == []
  {
    hide SealedLine;
    if rs != [] { assert |gz.zip(SealedLine(c, rs[|rs| - 1]))| > 0; }
  }

  lemma ArchiveReadsBack(gz: Gzip, c: Codec, rs: seq<AuditRecord>)
    requires Unzips(gz)
    ensures Unzip(gz, Archive(gz, c, rs)) == Some(SealedText(c, rs))
  {
    hide Unzip, Unzips, SealedLines;
    UnzipMembers(gz, SealedLines(c, rs));
    FlatLines(c, rs);
  }

  /**
   The log on disk, cut at `k`, can be read exactly if the cut falls between members, and then it is the log
   of the first `n` records; a cut anywhere else makes the whole file unreadable.
   */
  lemma CutArchive(gz: Gzip, c: Codec, rs: seq<AuditRecord>, k: nat) returns (n: nat)
    requires Unzips(gz) && k <= |Archive(gz, c, rs)|
    ensures n <= |rs| && |Archive(gz, c, rs[..n])| <= k
    ensures n < |rs| ==> k < |Archive(gz, c, rs[..n + 1])|
    ensures Unzip(gz, Archive(gz, c, rs)[..k])
            == if k == |Archive(gz, c, rs[..n])| then Some(SealedText(c, rs[..n])) else None
  {
    hide Unzip, Unzips, SealedLine;
    n := CutMembers(gz, SealedLines(c, rs), k);
    assert SealedLines(c, rs)[..n] == SealedLines(c, rs[..n]);
    assert n < |rs| ==> SealedLines(c, rs)[..n + 1] == SealedLines(c, rs[..n + 1]);
    FlatLines(c, rs[..n]);
  }

  /** Whatever is written behind a torn member, the file can be read only if torn part and rest pass for members. */
  lemma WrittenBehindTorn(gz: Gzip, c: Codec, rs: seq<AuditRecord>, torn: AuditRecord, k: nat, more: Bytes)
    requires Unzips(gz) && 0 < k < |Member(gz, c, torn)|
    ensures var part := Member(gz, c, torn)[..k];
            && (Unzip(gz, Archive(gz, c, rs) + (part + more)) == None <==> Unzip(gz, part + more) == None)
            && (gz.next(part + more) == None ==> Unzip(gz, Archive(gz, c, rs) + (part + more)) == None)
            && (more == [] ==> Unzip(gz, Archive(gz, c, rs) + (part + more)) == None)
  {
    hide Unzip, Unzips, SealedLine;
    BehindTorn(gz, SealedLines(c, rs), SealedLine(c, torn), k, more);
  }

  // ----- The text of a log that is cut short

  lemma LinesOfTail(text: string, tail: string)
    requires Terminated(text) && tail != "" && '\n' !in tail
    ensures Lines(text + tail) == Lines(text) + [tail]
  {
    hide Lines;
    LinesAppend(text, tail);
    OnlyLine(tail);
  }

  lemma OnlyLine(tail: string)
    requires tail != "" && '\n' !in tail
    ensures Lines(tail) == [tail]
  {
    assert forall i :: 0 <= i < |tail| ==> tail[i] != '\n';
  }

  /** The log `text` with one more line, which is bad or holds the record `r`. */
  lemma CheckOfTail(c: Codec, text: string, tail: string)
    requires Terminated(text) && tail != "" && '\n' !in tail
    ensures BadLines(c, Lines(text + tail)) == BadLines(c, Lines(text)) + if LineIsValid(c, tail) then [] else [tail]
    ensures ParsedRecords(c, Lines(text + tail))
            == ParsedRecords(c, Lines(text)) + if ParseRecord(c, tail).Some? then [ParseRecord(c, tail).value] else []
  {
    hide Lines, LineIsValid, ParseRecord;
    LinesOfTail(text, tail);
    BadLinesAppend(c, Lines(text), [tail]);
    ParsedRecordsAppend(c, Lines(text), [tail]);
    assert [tail][..0] == [];
  }

  /** A line that is cut short is bad and holds no record. */
  lemma CutLine(c: Codec, r: AuditRecord, k: nat)
    requires Faithful(c) && IsStamp(r.ts) && k < |c.render(Canon(ToValue(Seal(c, r))))|
    ensures var cut := c.render(Canon(ToValue(Seal(c, r))))[..k];
            '\n' !in cut && !LineIsValid(c, cut) && ParseRecord(c, cut) == None
  {
    hide IsStamp, Printable, Canon, ToFields;
    ToValueIsPrintable(Seal(c, r));
    CanonKeepsShape(ToValue(Seal(c, r)));
  }

  /**
   The decompressed text of a log, cut anywhere, holds the first `n` records, which are all those whose lines
   are complete, and no line is bad but, perhaps, the last one.
   */
  lemma {:induction false} CutLog(c: Codec, rs: seq<AuditRecord>, k: nat) returns (n: nat)
    requires Faithful(c) && AllStamped(rs) && k <= |SealedText(c, rs)|
    ensures n <= |rs| && (n < |rs| ==> k < |SealedText(c, rs[..n + 1])|)
    ensures var lines := Lines(SealedText(c, rs)[..k]);
            && ParsedRecords(c, lines) == SealAll(c, rs[..n])
            && (BadLines(c, lines) == [] || (lines != [] && BadLines(c, lines) == [lines[|lines| - 1]]))
    decreases |rs|
  {
    hide IsStamp, Faithful, Lines, BadLines, ParsedRecords, SealAll, SealedLine, Terminated;
    if rs == [] {
      n := 0;
      SealedLogIsValid(c, []);
    } else {
      var init, last := rs[..|rs| - 1], rs[|rs| - 1];
      var before := SealedText(c, init);
      if k <= |before| {
        n := CutLog(c, init, k);
        assert SealedText(c, rs)[..k] == before[..k];
        assert rs[..n] == init[..n] && (n < |init| ==> rs[..n + 1] == init[..n + 1]);
        SealedLineLength(c, last);
        assert rs[..|rs|] == rs;
      } else {
        n := CutInLastLine(c, rs, k);
      }
    }
  }

  lemma SealedLineLength(c: Codec, r: AuditRecord)
    ensures |SealedLine(c, r)| == |c.render(Canon(ToValue(Seal(c, r))))| + 1
  {
  }

  lemma CutInLastLine(c: Codec, rs: seq<AuditRecord>, k: nat) returns (n: nat)
    requires Faithful(c) && AllStamped(rs) && rs != []
    requires |SealedText(c, rs[..|rs| - 1])| < k <= |SealedText(c, rs)|
    ensures n <= |rs| && (n < |rs| ==> k < |SealedText(c, rs[..n + 1])|)
    ensures var lines := Lines(SealedText(c, rs)[..k]);
            && ParsedRecords(c, lines) == SealAll(c, rs[..n])
            && (BadLines(c, lines) == [] || (lines != [] && BadLines(c, lines) == [lines[|lines| - 1]]))
  {
    hide IsStamp, Lines, BadLines, ParsedRecords, SealAll, Terminated, LineIsValid, ParseRecord, Seal, Canon, ToValue;
    var init, last := rs[..|rs| - 1], rs[|rs| - 1];
    var before, line := SealedText(c, init), c.render(Canon(ToValue(Seal(c, last))));
    var j := k - |before|;
    assert rs[..|rs|] == rs;
    SealedLogIsValid(c, init);
    SealedTextTerminated(c, init);
    if j == |line| + 1 {
      n := |rs|;
      SealedLogIsValid(c, rs);
      assert SealedText(c, rs)[..k] == SealedText(c, rs);
    } else {
      var tail := line[..j];
      assert SealedText(c, rs)[..k] == before + tail;
      if j == |line| {
        n := |rs|;
        assert tail == line;
        SealedLineIsValid(c, last);
        CheckOfTail(c, before, tail);
        SealAllStep(c, rs);
      } else {
        n := |rs| - 1;
        CutLine(c, last, j);
        CheckOfTail(c, before, tail);
        LinesOfTail(before, tail);
      }
    }
  }
}
