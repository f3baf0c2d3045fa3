/**
 The sealed audit log: one record per line, each carrying a checksum of all its other fields.

 `Codec` stands for `serde_json` printing and parsing and for the CRC-32 of `flate2`.
 */
module AuditFormat {
  import opened Wrappers
  import opened Order
  import opened Json

  type U64 = x: nat | x < 0x1_0000_0000_0000_0000
  type U16 = x: U64 | x < 0x1_0000

  datatype Header = Header(name: string, value: string)

  predicate HeadersAscending(hs: seq<Header>) {
    forall i, j :: 0 <= i < j < |hs| ==> Less(hs[i].name, hs[j].name)
  }

  /** A sorted map from names to values, as the list its iteration yields. */
  type Headers = hs: seq<Header> | HeadersAscending(hs) witness []

  datatype AuditRecord = AuditRecord(
    ts: Float,
    event: string,
    id: string,
    httpMethod: Option<string>,
    url: Option<string>,
    status: Option<U16>,
    headers: Headers,
    bodyCanonical: Option<string>,
    bodySha256: string,
    bodySize: U64,
    elapsedMs: Option<U64>,
    crc32: string,
    error: Option<string>)

  datatype Codec = Codec(render: Json -> string, parse: string -> Option<Json>, crc32Hex: string -> string)

  /**
   What is assumed of `serde_json`: parsing undoes printing on values within its nesting limit whose
   floats are timestamps, a printed value is one non-empty line, and an object that is cut short does
   not parse.
   */
  ghost predicate Faithful(c: Codec) {
    && (forall v :: Printable(v) ==> c.parse(c.render(v)) == Some(v))
    && (forall v, k: nat :: Printable(v) && v.Obj? && k < |c.render(v)| ==> c.parse(c.render(v)[..k]) == None)
    && (forall v :: c.render(v) != "" && '\n' !in c.render(v) && '\r' !in c.render(v))
    && (forall s :: c.parse(s).Some? ==> WellFormed(c.parse(s).value))
  }

  // ----- A record as a JSON value

  datatype Slot = Slot(key: string, val: Option<Json>)

  function Present(slots: seq<Slot>): seq<Field> {
    if slots == [] then []
    else (if slots[0].val.Some? then [Field(slots[0].key, slots[0].val.value)] else []) + Present(slots[1..])
  }

  function OptStr(s: Option<string>): Option<Json> {
    if s.Some? then Some(Str(s.value)) else None
  }

  function OptNum(n: Option<U64>): Option<Json> {
    if n.Some? then Some(Num(Integer(n.value))) else None
  }

  function HeadersValue(hs: Headers): Json {
    Obj(seq(|hs|, i requires 0 <= i < |hs| => Field(hs[i].name, Str(hs[i].value))))
  }

  /** The fields in declaration order; absent optional ones are skipped. */
  function Slots(r: AuditRecord): seq<Slot> {
    [ Slot("ts", Some(Num(Floating(r.ts)))),
      Slot("event", Some(Str(r.event))),
      Slot("id", Some(Str(r.id))),
      Slot("method", OptStr(r.httpMethod)),
      Slot("url", OptStr(r.url)),
      Slot("status", OptNum(r.status)),
      Slot("headers", Some(HeadersValue(r.headers))),
      Slot("body_canonical", OptStr(r.bodyCanonical)),
      Slot("body_sha256", Some(Str(r.bodySha256))),
      Slot("body_size", Some(Num(Integer(r.bodySize)))),
      Slot("elapsed_ms", OptNum(r.elapsedMs)),
      Slot("crc32", Some(Str(r.crc32))),
      Slot("error", OptStr(r.error)) ]
  }

  function ToFields(r: AuditRecord): seq<Field> {
    Present(Slots(r))
  }

  function ToValue(r: AuditRecord): Json {
    Obj(ToFields(r))
  }

  ghost predicate DistinctSlots(slots: seq<Slot>) {
    forall i, j :: 0 <= i < j < |slots| ==> slots[i].key != slots[j].key
  }

  lemma {:induction false} PresentMembers(slots: seq<Slot>)
    requires DistinctSlots(slots)
    ensures DistinctKeys(Present(slots))
    ensures forall f :: f in Present(slots) <==> Slot(f.key, Some(f.val)) in slots
  {
    hide DistinctKeys;
    if slots == [] {
      assert DistinctKeys([]) by { PrependDistinct(Field("", Null), []); }
    } else {
      var rest := Present(slots[1..]);
      PresentMembers(slots[1..]);
      forall f
        ensures f in Present(slots) <==> Slot(f.key, Some(f.val)) in slots
      {
        assert Slot(f.key, Some(f.val)) in slots
          <==> Slot(f.key, Some(f.val)) == slots[0] || Slot(f.key, Some(f.val)) in slots[1..];
      }
      if slots[0].val.Some? {
        var f := Field(slots[0].key, slots[0].val.value);
        forall g | g in rest
          ensures g.key != f.key
        {
          assert Slot(g.key, Some(g.val)) in slots[1..];
        }
        PrependDistinct(f, rest);
      } else {
        assert Present(slots) == rest;
      }
    }
  }

  lemma PrependDistinct(f: Field, fs: seq<Field>)
    requires fs == [] || DistinctKeys(fs)
    ensures DistinctKeys([]) && ((forall g :: g in fs ==> g.key != f.key) ==> DistinctKeys([f] + fs))
  {
  }

  lemma SlotsAreDistinct(r: AuditRecord)
    ensures DistinctSlots(Slots(r))
  {
  }

  lemma HeadersValueIsCanonical(hs: Headers)
    ensures WellFormed(HeadersValue(hs)) && Canon(HeadersValue(hs)) == HeadersValue(hs)
  {
    AscendingIsDistinct(HeadersValue(hs).fields);
    SortedIsCanonical(HeadersValue(hs));
  }

  /** Every slot holds a well-formed value that is its own canonical form. */
  lemma SlotsAreCanonical(r: AuditRecord)
    ensures forall s :: s in Slots(r) && s.val.Some? ==> WellFormed(s.val.value) && Canon(s.val.value) == s.val.value
  {
    hide WellFormed, Canon, HeadersValue, Slots;
    HeadersValueIsCanonical(r.headers);
    forall s | s in Slots(r) && s.val.Some?
      ensures WellFormed(s.val.value) && Canon(s.val.value) == s.val.value
    {
      var i :| 0 <= i < |Slots(r)| && Slots(r)[i] == s;
      SlotShape(r, i);
      ScalarIsCanonical(s.val.value);
    }
  }

  lemma SlotShape(r: AuditRecord, i: nat)
    requires i < |Slots(r)| && Slots(r)[i].val.Some?
    ensures var v := Slots(r)[i].val.value;
            v.Str? || (v.Num? && (v.n.Floating? ==> v.n.d == r.ts)) || v == HeadersValue(r.headers)
  {
    hide HeadersValue;
  }

  lemma ScalarIsCanonical(v: Json)
    ensures v.Str? || v.Num? ==> WellFormed(v) && Canon(v) == v
  {
  }

  lemma ToValueIsWellFormed(r: AuditRecord)
    ensures WellFormed(ToValue(r))
  {
    hide Slots, Present;
    SlotsAreDistinct(r);
    SlotsAreCanonical(r);
    PresentMembers(Slots(r));
    forall i | 0 <= i < |ToFields(r)|
      ensures WellFormed(ToFields(r)[i].val)
    {
      var f := ToFields(r)[i];
      assert f in Present(Slots(r));
      assert Slot(f.key, Some(f.val)) in Slots(r);
    }
  }

  lemma HeadersArePrintable(hs: Headers, depth: nat)
    requires depth > 0
    ensures Printable(HeadersValue(hs), depth)
  {
    HeadersValueIsCanonical(hs);
  }

  /** The canonical value of a record can be printed and read back if its time stamp can. */
  lemma ToValueIsPrintable(r: AuditRecord)
    requires IsStamp(r.ts)
    ensures Printable(Canon(ToValue(r)))
  {
    hide Slots, Present, Canon, IsStamp;
    SlotsAreDistinct(r);
    PresentMembers(Slots(r));
    forall i | 0 <= i < |ToFields(r)|
      ensures Printable(ToFields(r)[i].val, MAX_DEPTH - 1)
    {
      var f := ToFields(r)[i];
      assert f in Present(Slots(r));
      SlotIsPrintable(r, Slot(f.key, Some(f.val)));
    }
    ToValueIsWellFormed(r);
    CanonIsPrintable(ToValue(r), MAX_DEPTH);
  }

  lemma SlotIsPrintable(r: AuditRecord, s: Slot)
    requires IsStamp(r.ts) && s in Slots(r) && s.val.Some?
    ensures Printable(s.val.value, MAX_DEPTH - 1)
  {
    hide HeadersValue, IsStamp, Slots;
    var i :| 0 <= i < |Slots(r)| && Slots(r)[i] == s;
    SlotShape(r, i);
    HeadersArePrintable(r.headers, MAX_DEPTH - 1);
  }

  // ----- A record read back from a JSON value

  function ReadStr(fs: seq<Field>, key: string): Option<string> {
    match Get(fs, key)
    case Some(Str(s)) => Some(s)
    case _ => None
  }

  /** An optional field may be absent or null. */
  function ReadOptStr(fs: seq<Field>, key: string): Option<Option<string>> {
    match Get(fs, key)
    case Some(Str(s)) => Some(Some(s))
    case Some(Null) => Some(None)
    case None => Some(None)
    case _ => None
  }

  function ReadNat(fs: seq<Field>, key: string, bound: nat): (r: Option<nat>)
    ensures r.Some? ==> r.value < bound
  {
    match Get(fs, key)
    case Some(Num(Integer(i))) => if 0 <= i < bound then Some(i) else None
    case _ => None
  }

  function ReadOptNat(fs: seq<Field>, key: string, bound: nat): (r: Option<Option<nat>>)
    ensures r.Some? && r.value.Some? ==> r.value.value < bound
  {
    match Get(fs, key)
    case Some(Null) => Some(None)
    case None => Some(None)
    case _ => var n := ReadNat(fs, key, bound); if n.Some? then Some(n) else None
  }

  function ReadFloat(fs: seq<Field>, key: string): Option<Float> {
    match Get(fs, key)
    case Some(Num(Floating(d))) => Some(d)
    case Some(Num(Integer(i))) => Some(Normal(i, 0))
    case _ => None
  }

  function ReadHeaders(fs: seq<Field>, key: string): Option<Headers> {
    match Get(fs, key)
    case Some(Obj(hs)) =>
      if forall i | 0 <= i < |hs| :: hs[i].val.Str? then
        SortFieldsAscending(hs);
        var sorted := SortFields(hs);
        assert forall i :: 0 <= i < |sorted| ==> sorted[i] in hs;
        Some(seq(|sorted|, i requires 0 <= i < |sorted| => Header(sorted[i].key, sorted[i].val.s)))
      else None
    case _ => None
  }

  /** Deserialisation: unknown fields are ignored, a missing or ill-typed required field is an error. */
  function FromValue(v: Json): Option<AuditRecord> {
    if !v.Obj? then None else
      var fs := v.fields;
      var ts, event, id := ReadFloat(fs, "ts"), ReadStr(fs, "event"), ReadStr(fs, "id");
      var httpMethod, url := ReadOptStr(fs, "method"), ReadOptStr(fs, "url");
      var status, headers := ReadOptNat(fs, "status", 0x1_0000), ReadHeaders(fs, "headers");
      var body, sha := ReadOptStr(fs, "body_canonical"), ReadStr(fs, "body_sha256");
      var size, elapsed := ReadNat(fs, "body_size", U64_BOUND), ReadOptNat(fs, "elapsed_ms", U64_BOUND);
      var crc, error := ReadStr(fs, "crc32"), ReadOptStr(fs, "error");
      if ts.Some? && event.Some? && id.Some? && httpMethod.Some? && url.Some? && status.Some? && headers.Some?
         && body.Some? && sha.Some? && size.Some? && elapsed.Some? && crc.Some? && error.Some?
      then Some(AuditRecord(ts.value, event.value, id.value, httpMethod.value, url.value, status.value, headers.value,
                            body.value, sha.value, size.value, elapsed.value, crc.value, error.value))
      else None
  }

  const U64_BOUND: nat := 0x1_0000_0000_0000_0000

  lemma SlotGet(r: AuditRecord, i: nat)
    requires i < |Slots(r)|
    ensures Get(Canon(ToValue(r)).fields, Slots(r)[i].key) == Slots(r)[i].val
  {
    hide Slots, Present, Get, SortFields;
    SlotsAreDistinct(r);
    SlotsAreCanonical(r);
    var s := Slots(r)[i];
    assert s in Slots(r);
    PresentMembers(Slots(r));
    var fs := ToFields(r);
    GetIsMember(fs, s.key);
    if s.val.Some? {
      assert Field(s.key, s.val.value) in fs;
    } else {
      forall v
        ensures Field(s.key, v) !in fs
      {
        assert Slot(s.key, Some(v)) !in Slots(r);
      }
      assert forall v :: Get(fs, s.key) != Some(v);
    }
    CanonGet(fs, s.key);
  }

  /** What the canonical value of a record holds under each key. */
  ghost predicate HoldsRecord(fs: seq<Field>, r: AuditRecord) {
    && Get(fs, "ts") == Some(Num(Floating(r.ts)))
    && Get(fs, "event") == Some(Str(r.event))
    && Get(fs, "id") == Some(Str(r.id))
    && Get(fs, "method") == OptStr(r.httpMethod)
    && Get(fs, "url") == OptStr(r.url)
    && Get(fs, "status") == OptNum(r.status)
    && Get(fs, "headers") == Some(HeadersValue(r.headers))
    && Get(fs, "body_canonical") == OptStr(r.bodyCanonical)
    && Get(fs, "body_sha256") == Some(Str(r.bodySha256))
    && Get(fs, "body_size") == Some(Num(Integer(r.bodySize)))
    && Get(fs, "elapsed_ms") == OptNum(r.elapsedMs)
    && Get(fs, "crc32") == Some(Str(r.crc32))
    && Get(fs, "error") == OptStr(r.error)
  }

  lemma CanonHoldsRecord(r: AuditRecord)
    ensures HoldsRecord(Canon(ToValue(r)).fields, r)
  {
    hide Get, Canon, ToFields;
    CanonKeepsShape(ToValue(r));
    forall i | 0 <= i < 13
      ensures Get(Canon(ToValue(r)).fields, Slots(r)[i].key) == Slots(r)[i].val
    {
      SlotGet(r, i);
    }
    var fs := Canon(ToValue(r)).fields;
    assert forall i :: 0 <= i < 13 ==> Get(fs, Slots(r)[i].key) == Slots(r)[i].val;
    assert Slots(r)[0].key == "ts" && Slots(r)[1].key == "event" && Slots(r)[2].key == "id";
    assert Slots(r)[3].key == "method" && Slots(r)[4].key == "url" && Slots(r)[5].key == "status";
    assert Slots(r)[6].key == "headers" && Slots(r)[7].key == "body_canonical" && Slots(r)[8].key == "body_sha256";
    assert Slots(r)[9].key == "body_size" && Slots(r)[10].key == "elapsed_ms" && Slots(r)[11].key == "crc32";
    assert Slots(r)[12].key == "error";
  }

  lemma HeadersReadBack(fs: seq<Field>, hs: Headers)
    requires Get(fs, "headers") == Some(HeadersValue(hs))
    ensures ReadHeaders(fs, "headers") == Some(hs)
  {
    HeadersSorted(hs);
    var sorted := SortFields(HeadersValue(hs).fields);
    assert seq(|sorted|, i requires 0 <= i < |sorted| => Header(sorted[i].key, sorted[i].val.s)) == hs;
  }

  lemma OptionsReadBack(fs: seq<Field>, key: string, s: Option<string>, n: Option<U64>, bound: nat)
    requires n.Some? ==> n.value < bound
    ensures Get(fs, key) == OptStr(s) ==> ReadOptStr(fs, key) == Some(s)
    ensures Get(fs, key) == OptNum(n) ==> ReadOptNat(fs, key, bound) == Some(n)
  {
  }

  /** A record survives being turned into a canonical value and read back. */
  lemma RecordRoundTrip(r: AuditRecord)
    ensures FromValue(Canon(ToValue(r))) == Some(r)
  {
    hide Canon, Get, ReadOptStr, ReadOptNat, ReadHeaders, HeadersValue, ToFields, OptStr, OptNum;
    CanonKeepsShape(ToValue(r));
    CanonHoldsRecord(r);
    var fs := Canon(ToValue(r)).fields;
    HeadersReadBack(fs, r.headers);
    OptionsReadBack(fs, "method", r.httpMethod, None, 0);
    OptionsReadBack(fs, "url", r.url, None, 0);
    OptionsReadBack(fs, "status", None, r.status, 0x1_0000);
    OptionsReadBack(fs, "body_canonical", r.bodyCanonical, None, 0);
    OptionsReadBack(fs, "elapsed_ms", None, r.elapsedMs, U64_BOUND);
    OptionsReadBack(fs, "error", r.error, None, 0);
  }

  lemma HeadersSorted(hs: Headers)
    ensures SortFields(HeadersValue(hs).fields) == HeadersValue(hs).fields
  {
    HeadersValueIsCanonical(hs);
    assert CanonFields(HeadersValue(hs).fields) == HeadersValue(hs).fields;
  }

  // ----- What is read as a record

  ghost predicate SaysStr(fs: seq<Field>, key: string, s: Option<string>) {
    if s.Some? then Field(key, Str(s.value)) in fs else LacksValue(fs, key)
  }

  ghost predicate SaysNum(fs: seq<Field>, key: string, n: Option<U64>) {
    if n.Some? then Field(key, Num(Integer(n.value))) in fs else LacksValue(fs, key)
  }

  /** Nothing but null stands under the key. */
  ghost predicate LacksValue(fs: seq<Field>, key: string) {
    forall v :: Field(key, v) in fs ==> v == Null
  }

  /** A time stamp may be written as a whole number. */
  ghost predicate SaysTime(fs: seq<Field>, ts: Float) {
    || Field("ts", Num(Floating(ts))) in fs
    || exists i: Whole :: Field("ts", Num(Integer(i))) in fs && ts == Normal(i, 0)
  }

  ghost predicate SaysHeaders(fs: seq<Field>, headers: Headers) {
    exists hs :: Field("headers", Obj(hs)) in fs && AreHeaders(hs, headers)
  }

  ghost predicate AreHeaders(hs: seq<Field>, headers: Headers) {
    && (forall f :: f in hs ==> f.val.Str? && Header(f.key, f.val.s) in headers)
    && (forall h :: h in headers ==> Field(h.name, Str(h.value)) in hs)
  }

  /** The fields of a record in JSON: required ones are there, optional ones may be absent or null. */
  ghost predicate Describes(fs: seq<Field>, r: AuditRecord) {
    && SaysTime(fs, r.ts) && SaysHeaders(fs, r.headers)
    && Field("event", Str(r.event)) in fs && Field("id", Str(r.id)) in fs
    && Field("body_sha256", Str(r.bodySha256)) in fs && Field("crc32", Str(r.crc32)) in fs
    && Field("body_size", Num(Integer(r.bodySize))) in fs
    && SaysStr(fs, "method", r.httpMethod) && SaysStr(fs, "url", r.url) && SaysStr(fs, "error", r.error)
    && SaysStr(fs, "body_canonical", r.bodyCanonical)
    && SaysNum(fs, "status", r.status) && SaysNum(fs, "elapsed_ms", r.elapsedMs)
  }

  lemma OptStrIff(fs: seq<Field>, key: string, s: Option<string>)
    requires DistinctKeys(fs)
    ensures ReadOptStr(fs, key) == Some(s) <==> SaysStr(fs, key, s)
    ensures s.Some? ==> (ReadStr(fs, key) == s <==> Field(key, Str(s.value)) in fs)
  {
    hide Get, DistinctKeys;
    GetIsMember(fs, key);
    match Get(fs, key) {
      case None => assert forall v :: Field(key, v) !in fs;
      case Some(v) => assert Field(key, v) in fs;
    }
  }

  lemma OptNumIff(fs: seq<Field>, key: string, n: Option<U64>, bound: nat)
    requires DistinctKeys(fs) && bound <= U64_BOUND && (n.Some? ==> n.value < bound)
    ensures ReadOptNat(fs, key, bound) == Some(n) <==> SaysNum(fs, key, n)
    ensures n.Some? ==> (ReadNat(fs, key, bound) == n <==> Field(key, Num(Integer(n.value))) in fs)
  {
    hide Get, DistinctKeys;
    GetIsMember(fs, key);
    match Get(fs, key) {
      case None => assert forall v :: Field(key, v) !in fs;
      case Some(v) => assert Field(key, v) in fs;
    }
  }

  lemma TimeIff(fs: seq<Field>, ts: Float)
    requires DistinctKeys(fs)
    ensures ReadFloat(fs, "ts") == Some(ts) <==> SaysTime(fs, ts)
  {
    hide Get, DistinctKeys, Normal;
    GetIsMember(fs, "ts");
    match Get(fs, "ts") {
      case None => assert forall v :: Field("ts", v) !in fs;
      case Some(v) => assert Field("ts", v) in fs;
    }
  }

  lemma HeadersIff(fs: seq<Field>, headers: Headers)
    requires WellFormed(Obj(fs))
    ensures ReadHeaders(fs, "headers") == Some(headers) <==> SaysHeaders(fs, headers)
  {
    hide Get, SortFields, AreHeaders, WellFormed, DistinctKeys;
    assert DistinctKeys(fs) by { WellFormedKeys(fs, "headers"); }
    GetIsMember(fs, "headers");
    match Get(fs, "headers") {
      case None => assert forall v :: Field("headers", v) !in fs;
      case Some(v) =>
        assert Field("headers", v) in fs;
        if v.Obj? {
          WellFormedKeys(fs, "headers");
          HeadersOfFields(fs, v.fields, headers);
        }
    }
  }

  lemma WellFormedKeys(fs: seq<Field>, key: string)
    requires WellFormed(Obj(fs))
    ensures DistinctKeys(fs)
    ensures forall hs :: Field(key, Obj(hs)) in fs ==> DistinctKeys(hs)
  {
  }

  /** The headers read are those of the object, in the order of their names. */
  lemma HeadersOfFields(fs: seq<Field>, hs: seq<Field>, headers: Headers)
    requires DistinctKeys(hs) && Get(fs, "headers") == Some(Obj(hs))
    ensures ReadHeaders(fs, "headers") == Some(headers) <==> AreHeaders(hs, headers)
  {
    hide Get, SortFields;
    SortFieldsMembers(hs);
    var sorted := SortFields(hs);
    if ReadHeaders(fs, "headers") == Some(headers) {
      HeadersListed(hs, sorted, headers);
    }
    if AreHeaders(hs, headers) {
      var own := HeadersValue(headers).fields;
      SameHeaderFields(hs, headers);
      HeadersSorted(headers);
      AscendingIsDistinct(own);
      SortFieldsUnique(hs, own);
      assert seq(|own|, i requires 0 <= i < |own| => Header(own[i].key, own[i].val.s)) == headers;
    }
  }

  lemma HeadersListed(hs: seq<Field>, sorted: seq<Field>, headers: Headers)
    requires forall f :: f in sorted <==> f in hs
    requires |headers| == |sorted| && forall f :: f in hs ==> f.val.Str?
    requires forall i :: 0 <= i < |sorted| ==>
               sorted[i].val.Str? && headers[i] == Header(sorted[i].key, sorted[i].val.s)
    ensures AreHeaders(hs, headers)
  {
    forall f | f in hs
      ensures Header(f.key, f.val.s) in headers
    {
      var i :| 0 <= i < |sorted| && sorted[i] == f;
      assert headers[i] in headers;
    }
    forall h | h in headers
      ensures Field(h.name, Str(h.value)) in hs
    {
      var i :| 0 <= i < |headers| && headers[i] == h;
      assert sorted[i] in sorted;
    }
  }

  lemma SameHeaderFields(hs: seq<Field>, headers: Headers)
    requires AreHeaders(hs, headers)
    ensures forall f :: f in hs <==> f in HeadersValue(headers).fields
  {
    var own := HeadersValue(headers).fields;
    forall f | f in hs
      ensures f in own
    {
      var i :| 0 <= i < |headers| && headers[i] == Header(f.key, f.val.s);
      assert own[i] == f;
    }
    forall f | f in own
      ensures f in hs
    {
      var i :| 0 <= i < |own| && own[i] == f;
      assert headers[i] in headers;
    }
  }

  /** A value is read as the record `r` exactly if it is an object whose fields describe `r`. */
  lemma ReadIffDescribes(v: Json, r: AuditRecord)
    requires WellFormed(v)
    ensures FromValue(v) == Some(r) <==> v.Obj? && Describes(v.fields, r)
  {
    if v.Obj? {
      var fs := v.fields;
      assert DistinctKeys(fs);
      hide ReadStr, ReadOptStr, ReadNat, ReadOptNat, ReadFloat, ReadHeaders, SaysStr, SaysNum, SaysTime, SaysHeaders,
           WellFormed, DistinctKeys;
      TimeIff(fs, r.ts);
      HeadersIff(fs, r.headers);
      OptStrIff(fs, "event", Some(r.event));
      OptStrIff(fs, "id", Some(r.id));
      OptStrIff(fs, "body_sha256", Some(r.bodySha256));
      OptStrIff(fs, "crc32", Some(r.crc32));
      OptNumIff(fs, "body_size", Some(r.bodySize), U64_BOUND);
      OptStrIff(fs, "method", r.httpMethod);
      OptStrIff(fs, "url", r.url);
      OptStrIff(fs, "error", r.error);
      OptStrIff(fs, "body_canonical", r.bodyCanonical);
      OptNumIff(fs, "status", r.status, 0x1_0000);
      OptNumIff(fs, "elapsed_ms", r.elapsedMs, U64_BOUND);
    }
  }
}
