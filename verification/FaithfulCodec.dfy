/** Codecs that meet what is assumed of the JSON library and of gzip, which shows that the assumptions can be met. */
module FaithfulCodec {
  import opened Wrappers
  import opened Json
  import opened AuditFormat
  import opened Artifact
  import opened Gzip
  import opened Types

  // ----- A value as a list of numbers, of which no proper prefix stands for a value

  function CodeInt(i: int): seq<nat> {
    if i < 0 then [1, -i] else [0, i]
  }

  function CodeStr(s: string): seq<nat> {
    [|s|] + seq(|s|, i requires 0 <= i < |s| => s[i] as nat)
  }

  function Code(v: Json): seq<nat>
    decreases v, 0
  {
    match v
    case Null => [0]
    case Bool(b) => [1, if b then 1 else 0]
    case Num(Integer(i)) => [2] + CodeInt(i)
    case Num(Floating(d)) => [3] + CodeInt(d.digits) + CodeInt(d.exponent)
    case Str(s) => [4] + CodeStr(s)
    case Arr(items) => [5, |items|] + CodeItems(items)
    case Obj(fs) => [6, |fs|] + CodeFields(fs)
  }

  function CodeItems(items: seq<Json>): seq<nat>
    decreases items, 0
  {
    if items == [] then [] else Code(items[0]) + CodeItems(items[1..])
  }

  function CodeFields(fs: seq<Field>): seq<nat>
    decreases fs, 0
  {
    if fs == [] then [] else CodeStr(fs[0].key) + Code(fs[0].val) + CodeFields(fs[1..])
  }

  lemma CodeIntUnique(i: int, j: int, x: seq<nat>, y: seq<nat>)
    requires CodeInt(i) + x == CodeInt(j) + y
    ensures i == j && x == y
  {
    Halves(CodeInt(i), x, CodeInt(j), y);
  }

  /** Concatenations whose first parts have one length agree part by part. */
  lemma Halves(a: seq<nat>, x: seq<nat>, b: seq<nat>, y: seq<nat>)
    requires a + x == b + y && |a| == |b|
    ensures a == b && x == y
  {
    assert (a + x)[..|a|] == a && (a + x)[|a|..] == x;
    assert (b + y)[..|b|] == b && (b + y)[|b|..] == y;
  }

  lemma CodeStrUnique(s: string, t: string, x: seq<nat>, y: seq<nat>)
    requires CodeStr(s) + x == CodeStr(t) + y
    ensures s == t && x == y
  {
    assert (CodeStr(s) + x)[0] == |s| && (CodeStr(t) + y)[0] == |t|;
    Halves(CodeStr(s), x, CodeStr(t), y);
    forall i | 0 <= i < |s|
      ensures s[i] == t[i]
    {
      assert CodeStr(s)[i + 1] == CodeStr(t)[i + 1];
    }
  }

  lemma Regroup(a: seq<nat>, b: seq<nat>, x: seq<nat>)
    ensures a + b + x == a + (b + x)
  {
  }

  lemma {:induction false} CodeUnique(u: Json, v: Json, x: seq<nat>, y: seq<nat>)
    requires Code(u) + x == Code(v) + y
    ensures u == v && x == y
    decreases u, 0
  {
    hide CodeInt, CodeStr;
    assert (Code(u) + x)[0] == Code(u)[0] && (Code(v) + y)[0] == Code(v)[0];
    match (u, v) {
      case (Null, Null) => Halves([0], x, [0], y);
      case (Bool(a), Bool(b)) => Halves(Code(u), x, Code(v), y);
      case (Num(Integer(i)), Num(Integer(j))) =>
        Tagged([2], CodeInt(i), x, [2], CodeInt(j), y);
        CodeIntUnique(i, j, x, y);
      case (Num(Floating(d)), Num(Floating(e))) =>
        CodeFloatUnique(d, e, x, y);
      case (Str(s), Str(t)) =>
        Tagged([4], CodeStr(s), x, [4], CodeStr(t), y);
        CodeStrUnique(s, t, x, y);
      case (Arr(us), Arr(vs)) =>
        Tagged([5, |us|], CodeItems(us), x, [5, |vs|], CodeItems(vs), y);
        CodeItemsUnique(us, vs, x, y);
      case (Obj(fs), Obj(gs)) =>
        Tagged([6, |fs|], CodeFields(fs), x, [6, |gs|], CodeFields(gs), y);
        CodeFieldsUnique(fs, gs, x, y);
      case _ =>
    }
  }

  lemma Tagged(a: seq<nat>, c: seq<nat>, x: seq<nat>, b: seq<nat>, d: seq<nat>, y: seq<nat>)
    requires |a| == |b| && a + c + x == b + d + y
    ensures a == b && c + x == d + y
  {
    Regroup(a, c, x);
    Regroup(b, d, y);
    Halves(a, c + x, b, d + y);
  }

  lemma CodeFloatUnique(d: Decimal, e: Decimal, x: seq<nat>, y: seq<nat>)
    requires [3] + CodeInt(d.digits) + CodeInt(d.exponent) + x == [3] + CodeInt(e.digits) + CodeInt(e.exponent) + y
    ensures d == e && x == y
  {
    hide CodeInt;
    Regroup([3] + CodeInt(d.digits), CodeInt(d.exponent), x);
    Regroup([3] + CodeInt(e.digits), CodeInt(e.exponent), y);
    Tagged([3], CodeInt(d.digits), CodeInt(d.exponent) + x, [3], CodeInt(e.digits), CodeInt(e.exponent) + y);
    CodeIntUnique(d.digits, e.digits, CodeInt(d.exponent) + x, CodeInt(e.exponent) + y);
    CodeIntUnique(d.exponent, e.exponent, x, y);
  }

  lemma {:induction false} CodeItemsUnique(us: seq<Json>, vs: seq<Json>, x: seq<nat>, y: seq<nat>)
    requires |us| == |vs| && CodeItems(us) + x == CodeItems(vs) + y
    ensures us == vs && x == y
    decreases us, 0
  {
    hide Code;
    if us == [] {
      Halves([], x, [], y);
    } else {
      Regroup(Code(us[0]), CodeItems(us[1..]), x);
      Regroup(Code(vs[0]), CodeItems(vs[1..]), y);
      CodeUnique(us[0], vs[0], CodeItems(us[1..]) + x, CodeItems(vs[1..]) + y);
      CodeItemsUnique(us[1..], vs[1..], x, y);
      assert us == [us[0]] + us[1..] && vs == [vs[0]] + vs[1..];
    }
  }

  lemma {:induction false} CodeFieldsUnique(fs: seq<Field>, gs: seq<Field>, x: seq<nat>, y: seq<nat>)
    requires |fs| == |gs| && CodeFields(fs) + x == CodeFields(gs) + y
    ensures fs == gs && x == y
    decreases fs, 0
  {
    hide Code, CodeStr;
    if fs == [] {
      Halves([], x, [], y);
    } else {
      var (f, g) := (fs[0], gs[0]);
      var (restF, restG) := (CodeFields(fs[1..]) + x, CodeFields(gs[1..]) + y);
      Regroup(CodeStr(f.key) + Code(f.val), CodeFields(fs[1..]), x);
      Regroup(CodeStr(g.key) + Code(g.val), CodeFields(gs[1..]), y);
      Regroup(CodeStr(f.key), Code(f.val), restF);
      Regroup(CodeStr(g.key), Code(g.val), restG);
      CodeStrUnique(f.key, g.key, Code(f.val) + restF, Code(g.val) + restG);
      CodeUnique(f.val, g.val, restF, restG);
      CodeFieldsUnique(fs[1..], gs[1..], x, y);
      assert fs == [f] + fs[1..] && gs == [g] + gs[1..];
    }
  }

  // ----- A list of numbers in an alphabet of two letters

  function Unary<T>(n: nat, tick: T, stop: T): seq<T> {
    if n == 0 then [stop] else [tick] + Unary(n - 1, tick, stop)
  }

  function Spell<T>(ns: seq<nat>, tick: T, stop: T): seq<T> {
    if ns == [] then [] else Unary(ns[0], tick, stop) + Spell(ns[1..], tick, stop)
  }

  lemma {:induction false} UnaryUnique<T>(m: nat, n: nat, x: seq<T>, y: seq<T>, tick: T, stop: T)
    requires tick != stop && Unary(m, tick, stop) + x == Unary(n, tick, stop) + y
    ensures m == n && x == y
    decreases m
  {
    var s, t := Unary(m, tick, stop) + x, Unary(n, tick, stop) + y;
    assert s[0] == Unary(m, tick, stop)[0] && t[0] == Unary(n, tick, stop)[0];
    if m == 0 || n == 0 {
      assert s[1..] == t[1..];
      assert m == 0 ==> [stop] + x == s && s[1..] == x;
      assert n == 0 ==> [stop] + y == t && t[1..] == y;
    } else {
      assert s[1..] == Unary(m - 1, tick, stop) + x && t[1..] == Unary(n - 1, tick, stop) + y;
      UnaryUnique(m - 1, n - 1, x, y, tick, stop);
    }
  }

  /** Where the spelling of one list begins that of another, the list begins the other. */
  lemma {:induction false} SpellUnique<T>(ms: seq<nat>, z: seq<T>, ns: seq<nat>, tick: T, stop: T) returns (x: seq<nat>)
    requires tick != stop && Spell(ms, tick, stop) + z == Spell(ns, tick, stop)
    ensures ns == ms + x && z == Spell(x, tick, stop)
    decreases |ms|
  {
    hide Unary;
    if ms == [] {
      assert Spell(ms, tick, stop) + z == z;
      x := ns;
    } else {
      UnaryIsNotEmpty(ms[0], tick, stop);
      assert ns != [];
      assert Spell(ms, tick, stop) + z == Unary(ms[0], tick, stop) + (Spell(ms[1..], tick, stop) + z);
      UnaryUnique(ms[0], ns[0], Spell(ms[1..], tick, stop) + z, Spell(ns[1..], tick, stop), tick, stop);
      x := SpellUnique(ms[1..], z, ns[1..], tick, stop);
      assert ns == [ns[0]] + ns[1..] && ms == [ms[0]] + ms[1..];
    }
  }

  /** Lists of one length are known from their spelling, whatever follows it. */
  lemma {:induction false} SpellKnown<T>(ms: seq<nat>, x: seq<T>, ns: seq<nat>, y: seq<T>, tick: T, stop: T)
    requires tick != stop && |ms| == |ns| && Spell(ms, tick, stop) + x == Spell(ns, tick, stop) + y
    ensures ms == ns && x == y
    decreases |ms|
  {
    hide Unary;
    if ms == [] {
      assert Spell(ms, tick, stop) + x == x && Spell(ns, tick, stop) + y == y;
    } else {
      var (restM, restN) := (Spell(ms[1..], tick, stop) + x, Spell(ns[1..], tick, stop) + y);
      assert Spell(ms, tick, stop) + x == Unary(ms[0], tick, stop) + restM;
      assert Spell(ns, tick, stop) + y == Unary(ns[0], tick, stop) + restN;
      UnaryUnique(ms[0], ns[0], restM, restN, tick, stop);
      SpellKnown(ms[1..], x, ns[1..], y, tick, stop);
      assert ns == [ns[0]] + ns[1..] && ms == [ms[0]] + ms[1..];
    }
  }

  lemma {:induction false} UnaryIsNotEmpty<T>(n: nat, tick: T, stop: T)
    ensures Unary(n, tick, stop) != [] && forall c :: c in Unary(n, tick, stop) ==> c == tick || c == stop
  {
    if n > 0 { UnaryIsNotEmpty(n - 1, tick, stop); }
  }

  lemma {:induction false} SpellLetters<T>(ns: seq<nat>, tick: T, stop: T)
    ensures forall c :: c in Spell(ns, tick, stop) ==> c == tick || c == stop
    ensures ns != [] ==> Spell(ns, tick, stop) != []
  {
    hide Unary;
    if ns != [] {
      UnaryIsNotEmpty(ns[0], tick, stop);
      SpellLetters(ns[1..], tick, stop);
    }
  }

  // ----- The codec

  function Render(v: Json): string {
    Spell(Code(v), 'a', 'b')
  }

  ghost function Parse(s: string): Option<Json> {
    if v :| Printable(v) && Render(v) == s then Some(v) else None
  }

  /** No printed value begins another one. */
  lemma RenderUnique(u: Json, v: Json, k: nat)
    requires k <= |Render(v)| && Render(u) == Render(v)[..k]
    ensures u == v && k == |Render(v)|
  {
    hide Code, Spell;
    assert Render(v)[..k] + Render(v)[k..] == Render(v);
    var x := SpellUnique(Code(u), Render(v)[k..], Code(v), 'a', 'b');
    assert Code(v) + [] == Code(v);
    CodeUnique(u, v, x, []);
    assert Spell([], 'a', 'b') == "" by { NothingSpelled('a', 'b'); }
  }

  lemma NothingSpelled<T>(tick: T, stop: T)
    ensures Spell([], tick, stop) == []
  {
  }

  lemma CodeIsNotEmpty(v: Json)
    ensures Code(v) != []
  {
  }

  lemma {:induction false} PrintableIsWellFormed(v: Json, depth: nat)
    requires Printable(v, depth)
    ensures WellFormed(v)
  {
    match v
    case Arr(items) =>
      forall i | 0 <= i < |items|
        ensures WellFormed(items[i])
      {
        PrintableIsWellFormed(items[i], depth - 1);
      }
    case Obj(fs) =>
      forall i | 0 <= i < |fs|
        ensures WellFormed(fs[i].val)
      {
        PrintableIsWellFormed(fs[i].val, depth - 1);
      }
    case _ =>
  }

  /** The assumption about the JSON library can be met. */
  lemma FaithfulCodecExists(crc32Hex: string -> string)
    ensures exists c: Codec :: Faithful(c) && c.crc32Hex == crc32Hex
  {
    hide Render, Printable, WellFormed;
    var c := Codec(v => Render(v), s => Parse(s), crc32Hex);
    forall v | Printable(v)
      ensures c.parse(c.render(v)) == Some(v)
    {
      var u := Parse(Render(v)).value;
      assert Render(v)[..|Render(v)|] == Render(v);
      RenderUnique(u, v, |Render(v)|);
    }
    forall v, k: nat | Printable(v) && v.Obj? && k < |c.render(v)|
      ensures c.parse(c.render(v)[..k]) == None
    {
      if Parse(Render(v)[..k]).Some? { RenderUnique(Parse(Render(v)[..k]).value, v, k); }
    }
    forall v
      ensures c.render(v) != "" && '\n' !in c.render(v) && '\r' !in c.render(v)
    {
      RenderIsOneLine(v);
    }
    forall s | c.parse(s).Some?
      ensures WellFormed(c.parse(s).value)
    {
      PrintableIsWellFormed(Parse(s).value, MAX_DEPTH);
    }
    assert Faithful(c);
  }

  lemma RenderIsOneLine(v: Json)
    ensures Render(v) != "" && '\n' !in Render(v) && '\r' !in Render(v)
  {
    hide Code, Spell;
    CodeIsNotEmpty(v);
    SpellLetters(Code(v), 'a', 'b');
  }

  // ----- The sidecar

  function CodeMeta(m: ArtifactMeta): seq<nat> {
    CodeStr(m.schemaVersion)
    + (CodeInt(m.sizeBytes) + (CodeStr(m.blake3Hex) + (CodeInt(m.sealedAtUnix) + CodeStr(m.crc32cHex))))
  }

  lemma CodeMetaUnique(m: ArtifactMeta, n: ArtifactMeta)
    requires CodeMeta(m) == CodeMeta(n)
    ensures m == n
  {
    hide CodeStr, CodeInt;
    var (m3, n3) := (CodeInt(m.sealedAtUnix) + CodeStr(m.crc32cHex), CodeInt(n.sealedAtUnix) + CodeStr(n.crc32cHex));
    var (m2, n2) := (CodeStr(m.blake3Hex) + m3, CodeStr(n.blake3Hex) + n3);
    CodeStrUnique(m.schemaVersion, n.schemaVersion, CodeInt(m.sizeBytes) + m2, CodeInt(n.sizeBytes) + n2);
    CodeIntUnique(m.sizeBytes, n.sizeBytes, m2, n2);
    CodeStrUnique(m.blake3Hex, n.blake3Hex, m3, n3);
    CodeIntUnique(m.sealedAtUnix, n.sealedAtUnix, CodeStr(m.crc32cHex), CodeStr(n.crc32cHex));
    assert CodeStr(m.crc32cHex) + [] == CodeStr(n.crc32cHex) + [];
    CodeStrUnique(m.crc32cHex, n.crc32cHex, [], []);
  }

  function InOctets(ns: seq<nat>): seq<bv8> {
    Spell(ns, 1 as bv8, 0)
  }

  lemma InOctetsUnique(ms: seq<nat>, ns: seq<nat>)
    requires InOctets(ms) == InOctets(ns)
    ensures ms == ns
  {
    hide Spell;
    assert InOctets(ms) + [] == InOctets(ns);
    var x := SpellUnique(ms, [], ns, 1 as bv8, 0);
    SpellLetters(x, 1 as bv8, 0);
    assert ms + [] == ms;
  }

  ghost function ParseMeta(bytes: seq<bv8>): Option<ArtifactMeta> {
    if m :| InOctets(CodeMeta(m)) == bytes then Some(m) else None
  }

  /** The assumption about the JSON form of the sidecar can be met. */
  lemma SidecarCodecExists(blake3Hex: seq<bv8> -> string)
    ensures exists env: Env :: RoundTrips(env) && env.blake3Hex == blake3Hex
  {
    hide CodeMeta, InOctets;
    var env := Env(blake3Hex, m => InOctets(CodeMeta(m)), bytes => ParseMeta(bytes));
    forall m
      ensures env.decode(env.encode(m)) == Some(m)
    {
      var n := ParseMeta(InOctets(CodeMeta(m))).value;
      InOctetsUnique(CodeMeta(n), CodeMeta(m));
      CodeMetaUnique(n, m);
    }
    assert RoundTrips(env);
  }

  // ----- The archive

  /** A member: as many bytes as a header and a trailer have, and the text. */
  function Zip(s: string): Bytes {
    seq(HEADER_AND_TRAILER, _ => 0) + Spell(CodeStr(s), 1, 0)
  }

  lemma ZipUnique(s: string, t: string, x: Bytes, y: Bytes)
    requires Zip(s) + x == Zip(t) + y
    ensures s == t && x == y
  {
    hide Spell, CodeStr;
    var pad: Bytes := seq(HEADER_AND_TRAILER, _ => 0);
    var a: Bytes := Spell(CodeStr(s), 1, 0);
    var b: Bytes := Spell(CodeStr(t), 1, 0);
    assert (pad + (a + x))[|pad|..] == a + x && (pad + (b + y))[|pad|..] == b + y;
    assert Zip(s) + x == pad + (a + x) && Zip(t) + y == pad + (b + y);
    StrKnown(s, t, x, y);
  }

  lemma StrKnown(s: string, t: string, x: Bytes, y: Bytes)
    requires Spell(CodeStr(s), 1, 0) + x == Spell(CodeStr(t), 1, 0) + y
    ensures s == t && x == y
  {
    var one: byte := 1;
    var zero: byte := 0;
    var (m, n) := (CodeStr(s), CodeStr(t));
    assert Spell(m, one, zero) + x == Unary(m[0], one, zero) + (Spell(m[1..], one, zero) + x);
    assert Spell(n, one, zero) + y == Unary(n[0], one, zero) + (Spell(n[1..], one, zero) + y);
    hide Spell, Unary;
    UnaryUnique(m[0], n[0], Spell(m[1..], one, zero) + x, Spell(n[1..], one, zero) + y, one, zero);
    SpellKnown(m, x, n, y, one, zero);
    assert m + [] == n + [];
    CodeStrUnique(s, t, [], []);
  }

  ghost function NextMember(bytes: Bytes): Option<(string, Bytes)> {
    if s, rest: Bytes :| Zip(s) + rest == bytes then Some((s, rest)) else None
  }

  lemma PartIsNoMember(s: string, k: nat)
    requires k < |Zip(s)|
    ensures NextMember(Zip(s)[..k]) == None
  {
    hide Zip;
    forall t, more: Bytes
      ensures Zip(t) + more != Zip(s)[..k]
    {
      if Zip(t) + more == Zip(s)[..k] {
        var cut := Zip(s)[k..];
        assert Zip(t) + (more + cut) == Zip(s) + [];
        ZipUnique(t, s, more + cut, []);
      }
    }
  }

  /** The assumption about compression can be met. */
  lemma GzipExists()
    ensures exists gz: Gzip :: Unzips(gz)
  {
    hide Zip;
    var gz := Gzip(s => Zip(s), bytes => NextMember(bytes));
    forall s: string, rest: Bytes
      ensures gz.next(gz.zip(s) + rest) == Some((s, rest))
    {
      var (t, more) := NextMember(Zip(s) + rest).value;
      ZipUnique(t, s, more, rest);
    }
    forall s, k: nat | 0 < k < |gz.zip(s)|
      ensures gz.next(gz.zip(s)[..k]) == None
    {
      PartIsNoMember(s, k);
    }
    assert forall s :: |Zip(s)| >= HEADER_AND_TRAILER by { ZipIsLong(); }
    assert Unzips(gz);
  }

  lemma ZipIsLong()
    ensures forall s :: |Zip(s)| >= HEADER_AND_TRAILER
  {
  }
}
