/**
 JSON values as `serde_json` holds them with its `preserve_order` feature: an object is a list of
 fields in insertion order whose keys are distinct.
 */
module Json {
  import opened Wrappers
  import opened Order

  /** The whole numbers that `i64` or `u64` holds. */
  type Whole = i: int | -0x8000_0000_0000_0000 <= i < 0x1_0000_0000_0000_0000 witness 0

  /** `digits * 10^exponent`; `Float` is the form without trailing zeros, so each number has one. */
  datatype Decimal = Decimal(digits: int, exponent: int)

  type Float = d: Decimal | d.digits % 10 != 0 || d == Decimal(0, 0) witness Decimal(0, 0)

  datatype Number = Integer(i: Whole) | Floating(d: Float)

  function Pow10(n: nat): (p: int)
    ensures p > 0
  {
    if n == 0 then 1 else 10 * Pow10(n - 1)
  }

  /** The number `i * 10^exponent`, without trailing zeros. */
  function Normal(i: int, exponent: int): Float
    decreases if i < 0 then -i else i
  {
    if i == 0 then Decimal(0, 0) else if i % 10 == 0 then Normal(i / 10, exponent + 1) else Decimal(i, exponent)
  }

  function Floor(d: Decimal): int {
    if d.exponent >= 0 then d.digits * Pow10(d.exponent) else d.digits / Pow10(-d.exponent)
  }

  datatype Json =
    | Null
    | Bool(b: bool)
    | Num(n: Number)
    | Str(s: string)
    | Arr(items: seq<Json>)
    | Obj(fields: seq<Field>)

  datatype Field = Field(key: string, val: Json)

  lemma SixZeros()
    ensures Pow10(6) == 1_000_000
  {
    assert Pow10(3) == 1000;
  }

  lemma {:induction false} FloorOfTens(i: int, k: nat)
    ensures (10 * i) / (10 * Pow10(k)) == i / Pow10(k)
  {
    var p := Pow10(k);
    var q, m := i / p, i % p;
    assert i == q * p + m;
    assert 10 * i == q * (10 * p) + 10 * m && 0 <= 10 * m < 10 * p;
    QuotientIs(10 * i, 10 * p, q, 10 * m);
  }

  lemma QuotientIs(n: int, d: int, q: int, m: int)
    requires d > 0 && n == q * d + m && 0 <= m < d
    ensures n / d == q
  {
    var e := n / d - q;
    assert n == (n / d) * d + n % d;
    assert e * d == m - n % d by { assert (n / d - q) * d == (n / d) * d - q * d; }
    assert e >= 1 ==> e * d >= d;
    assert e <= -1 ==> e * d <= -d;
  }

  /** The whole part of `i * 10^exponent`, for an exponent between `-k` and zero. */
  lemma {:induction false} FloorOfNormal(i: int, exponent: int, k: nat)
    requires exponent + k == 0
    ensures i >= 0 ==> Floor(Normal(i, exponent)) == i / Pow10(k)
    decreases k
  {
    if i > 0 {
      if i % 10 == 0 {
        if k == 0 {
          NormalOfWhole(i, 0);
        } else {
          FloorOfNormal(i / 10, exponent + 1, k - 1);
          FloorOfTens(i / 10, k - 1);
        }
      }
    }
  }

  /** Shortening a whole number keeps its value. */
  lemma {:induction false} NormalOfWhole(i: int, exponent: nat)
    requires i > 0
    ensures Normal(i, exponent).exponent >= 0 && Floor(Normal(i, exponent)) == i * Pow10(exponent)
    decreases i
  {
    if i % 10 == 0 {
      NormalOfWhole(i / 10, exponent + 1);
      assert i == 10 * (i / 10);
      assert i / 10 * Pow10(exponent + 1) == i * Pow10(exponent) by {
        assert Pow10(exponent + 1) == 10 * Pow10(exponent);
        Regrouped(i / 10, Pow10(exponent));
      }
    }
  }

  lemma Regrouped(a: int, p: int)
    ensures a * (10 * p) == (10 * a) * p
  {
  }

  ghost predicate DistinctKeys(fs: seq<Field>) {
    forall i, j :: 0 <= i < j < |fs| ==> fs[i].key != fs[j].key
  }

  /** Keys are distinct at every depth, as the map type guarantees. */
  ghost predicate WellFormed(v: Json) {
    match v
    case Arr(items) => forall i | 0 <= i < |items| :: WellFormed(items[i])
    case Obj(fs) => DistinctKeys(fs) && forall i | 0 <= i < |fs| :: WellFormed(fs[i].val)
    case _ => true
  }

  /** A number of whole microseconds since 1970 below 2^32 seconds. */
  predicate IsStamp(d: Decimal) {
    0 <= d.digits && -6 <= d.exponent <= 9 && d.digits * Pow10(d.exponent + 6) < 0x1_0000_0000 * 1_000_000
  }

  /** Shortening a number keeps it. */
  lemma {:induction false} NormalKeeps(i: int, exponent: int)
    requires i > 0
    ensures var d := Normal(i, exponent);
            d.exponent >= exponent && d.digits > 0 && d.digits * Pow10(d.exponent - exponent) == i
    decreases i
  {
    if i % 10 == 0 {
      var d := Normal(i / 10, exponent + 1);
      NormalKeeps(i / 10, exponent + 1);
      assert Pow10(d.exponent - exponent) == 10 * Pow10(d.exponent - exponent - 1);
      Regrouped(d.digits, Pow10(d.exponent - exponent - 1));
      assert 10 * (d.digits * Pow10(d.exponent - exponent - 1)) == i;
    }
  }

  lemma {:induction false} Pow10Grows(m: nat, n: nat)
    requires m <= n
    ensures Pow10(m) <= Pow10(n)
    decreases n
  {
    if m < n { Pow10Grows(m, n - 1); }
  }

  lemma SixteenZeros()
    ensures Pow10(16) == 10_000_000_000_000_000
  {
    assert Pow10(4) == 10_000;
    assert Pow10(8) == 100_000_000;
    assert Pow10(12) == 1_000_000_000_000;
  }

  lemma AtLeastOnce(n: int, p: int)
    requires n >= 1 && p >= 0
    ensures n * p >= p
  {
  }

  /** Every number of whole microseconds since 1970 below 2^32 seconds is a stamp. */
  lemma StampsAre(micros: nat)
    requires micros < 0x1_0000_0000 * 1_000_000
    ensures IsStamp(Normal(micros, -6))
  {
    var d := Normal(micros, -6);
    if micros > 0 {
      NormalKeeps(micros, -6);
      AtLeastOnce(d.digits, Pow10(d.exponent + 6));
      if d.exponent > 9 {
        hide Pow10, Normal;
        Pow10Grows(16, d.exponent + 6);
        SixteenZeros();
      }
    }
  }

  const MAX_DEPTH: nat := 127

  /**
   What a reader with a nesting limit and fast number parsing reads back as it was: nested at most `depth`
   deep, floats being stamps.
   */
  ghost predicate Printable(v: Json, depth: nat := MAX_DEPTH) {
    match v
    case Num(Floating(d)) => IsStamp(d)
    case Arr(items) => depth > 0 && forall i | 0 <= i < |items| :: Printable(items[i], depth - 1)
    case Obj(fs) => depth > 0 && DistinctKeys(fs) && forall i | 0 <= i < |fs| :: Printable(fs[i].val, depth - 1)
    case _ => true
  }

  function Get(fs: seq<Field>, key: string): Option<Json> {
    if fs == [] then None
    else if fs[0].key == key then Some(fs[0].val)
    else Get(fs[1..], key)
  }

  lemma {:induction false} GetIsMember(fs: seq<Field>, key: string)
    requires DistinctKeys(fs)
    ensures forall v :: Get(fs, key) == Some(v) <==> Field(key, v) in fs
  {
    if fs != [] {
      GetIsMember(fs[1..], key);
      assert fs == [fs[0]] + fs[1..];
      assert forall f :: f in fs <==> f == fs[0] || f in fs[1..];
    }
  }

  // ----- Canonical form

  predicate KeyLess(a: Field, b: Field) {
    Less(a.key, b.key)
  }

  lemma KeyLessIsStrict()
    ensures StrictOrder(KeyLess)
  {
    forall a: Field
      ensures !KeyLess(a, a)
    {
      LessIrreflexive(a.key);
    }
    forall a: Field, b: Field, c: Field | KeyLess(a, b) && KeyLess(b, c)
      ensures KeyLess(a, c)
    {
      LessTransitive(a.key, b.key, c.key);
    }
  }

  /** Insertion into a sorted map: an equal key has its value replaced. */
  function Insert(fs: seq<Field>, f: Field): seq<Field> {
    if fs == [] || Less(f.key, fs[0].key) then [f] + fs
    else if f.key == fs[0].key then [f] + fs[1..]
    else [fs[0]] + Insert(fs[1..], f)
  }

  /** Collection into a sorted map. */
  function SortFields(fs: seq<Field>): seq<Field> {
    if fs == [] then [] else Insert(SortFields(fs[..|fs| - 1]), fs[|fs| - 1])
  }

  function Canon(v: Json): Json {
    match v
    case Arr(items) => Arr(seq(|items|, i requires 0 <= i < |items| => Canon(items[i])))
    case Obj(fs) => Obj(SortFields(CanonFields(fs)))
    case _ => v
  }

  function CanonFields(fs: seq<Field>): (cs: seq<Field>)
    ensures |cs| == |fs| && forall i :: 0 <= i < |fs| ==> cs[i] == Field(fs[i].key, Canon(fs[i].val))
  {
    seq(|fs|, i requires 0 <= i < |fs| => Field(fs[i].key, Canon(fs[i].val)))
  }

  /** Objects have their keys in ascending order at every depth. */
  ghost predicate SortedDeep(v: Json) {
    match v
    case Arr(items) => forall i | 0 <= i < |items| :: SortedDeep(items[i])
    case Obj(fs) => Ascending(fs, KeyLess) && forall i | 0 <= i < |fs| :: SortedDeep(fs[i].val)
    case _ => true
  }

  /** Equal up to the order of object fields, at any depth. */
  ghost predicate Same(u: Json, v: Json) {
    match (u, v)
    case (Arr(xs), Arr(ys)) => |xs| == |ys| && forall i | 0 <= i < |xs| :: Same(xs[i], ys[i])
    case (Obj(fs), Obj(gs)) =>
      && (forall i | 0 <= i < |fs| :: HasTwin(fs[i], gs))
      && (forall j | 0 <= j < |gs| :: IsTwin(fs, gs[j]))
    case _ => u == v
  }

  ghost predicate HasTwin(f: Field, gs: seq<Field>) {
    exists j | 0 <= j < |gs| :: Twins(f, gs[j])
  }

  ghost predicate IsTwin(fs: seq<Field>, g: Field) {
    exists i | 0 <= i < |fs| :: Twins(fs[i], g)
  }

  ghost predicate Twins(f: Field, g: Field) {
    f.key == g.key && Same(f.val, g.val)
  }

  // ----- Sorting

  lemma {:induction false} InsertMembers(fs: seq<Field>, f: Field)
    requires Ascending(fs, KeyLess)
    ensures Ascending(Insert(fs, f), KeyLess)
    ensures forall g :: g in Insert(fs, f) <==> g == f || (g in fs && g.key != f.key)
  {
    KeyLessIsStrict();
    if fs == [] {
    } else if Less(f.key, fs[0].key) {
      SmallestKey(fs, f);
    } else {
      LessTotal(f.key, fs[0].key);
      assert forall g :: g in fs <==> g == fs[0] || g in fs[1..];
      if f.key == fs[0].key {
        SmallestKey(fs[1..], f);
      } else {
        var rest := Insert(fs[1..], f);
        InsertMembers(fs[1..], f);
        assert forall i :: 0 <= i < |rest| ==> rest[i] in rest;
        assert forall g :: g in [fs[0]] + rest <==> g == fs[0] || g in rest;
      }
    }
  }

  lemma SmallestKey(fs: seq<Field>, f: Field)
    requires Ascending(fs, KeyLess) && (fs != [] ==> KeyLess(f, fs[0]))
    ensures forall g :: g in fs ==> KeyLess(f, g) && g.key != f.key
  {
    KeyLessIsStrict();
    LessIrreflexive(f.key);
  }

  lemma {:induction false} SortFieldsAscending(fs: seq<Field>)
    ensures Ascending(SortFields(fs), KeyLess)
    ensures forall g :: g in SortFields(fs) ==> g in fs
  {
    if fs != [] {
      SortFieldsAscending(fs[..|fs| - 1]);
      InsertMembers(SortFields(fs[..|fs| - 1]), fs[|fs| - 1]);
    }
  }

  lemma {:induction false} SortFieldsMembers(fs: seq<Field>)
    requires DistinctKeys(fs)
    ensures Ascending(SortFields(fs), KeyLess)
    ensures forall g :: g in SortFields(fs) <==> g in fs
  {
    if fs != [] {
      var init, last := fs[..|fs| - 1], fs[|fs| - 1];
      SortFieldsMembers(init);
      assert forall g :: g in fs <==> g == last || g in init;
      InsertMembers(SortFields(init), last);
    }
  }

  lemma AscendingIsDistinct(fs: seq<Field>)
    requires Ascending(fs, KeyLess)
    ensures DistinctKeys(fs)
  {
    KeyLessIsStrict();
    forall i, j | 0 <= i < j < |fs|
      ensures fs[i].key != fs[j].key
    {
      LessIrreflexive(fs[i].key);
      assert KeyLess(fs[i], fs[j]);
    }
  }

  /** Sorting depends only on which fields there are. */
  lemma SortFieldsUnique(fs: seq<Field>, gs: seq<Field>)
    requires DistinctKeys(fs) && DistinctKeys(gs) && forall f :: f in fs <==> f in gs
    ensures SortFields(fs) == SortFields(gs)
  {
    KeyLessIsStrict();
    SortFieldsMembers(fs);
    SortFieldsMembers(gs);
    AscendingUnique(SortFields(fs), SortFields(gs), KeyLess);
  }

  // ----- Canonical form is a complete normal form

  lemma {:induction false} CanonIsSorted(v: Json)
    requires WellFormed(v)
    ensures SortedDeep(Canon(v)) && WellFormed(Canon(v))
  {
    match v
    case Arr(items) =>
      forall i | 0 <= i < |items|
        ensures SortedDeep(Canon(items[i])) && WellFormed(Canon(items[i]))
      {
        CanonIsSorted(items[i]);
      }
    case Obj(fs) =>
      var cs := CanonFields(fs);
      SortFieldsMembers(cs);
      AscendingIsDistinct(SortFields(cs));
      forall i | 0 <= i < |SortFields(cs)|
        ensures SortedDeep(SortFields(cs)[i].val) && WellFormed(SortFields(cs)[i].val)
      {
        assert SortFields(cs)[i] in cs;
        var j :| 0 <= j < |cs| && cs[j] == SortFields(cs)[i];
        CanonIsSorted(fs[j].val);
      }
    case _ =>
  }

  lemma {:induction false} CanonIsPrintable(v: Json, depth: nat)
    requires WellFormed(v) && Printable(v, depth)
    ensures Printable(Canon(v), depth)
  {
    match v
    case Arr(items) =>
      forall i | 0 <= i < |items|
        ensures Printable(Canon(items[i]), depth - 1)
      {
        CanonIsPrintable(items[i], depth - 1);
      }
    case Obj(fs) =>
      var cs := CanonFields(fs);
      SortFieldsMembers(cs);
      AscendingIsDistinct(SortFields(cs));
      forall i | 0 <= i < |SortFields(cs)|
        ensures Printable(SortFields(cs)[i].val, depth - 1)
      {
        assert SortFields(cs)[i] in cs;
        var j :| 0 <= j < |cs| && cs[j] == SortFields(cs)[i];
        CanonIsPrintable(fs[j].val, depth - 1);
      }
    case _ =>
  }

  /** The canonical form holds under each key the canonical form of what was there. */
  lemma CanonGet(fs: seq<Field>, key: string)
    requires DistinctKeys(fs)
    ensures Get(SortFields(CanonFields(fs)), key)
            == match Get(fs, key) case None => None case Some(v) => Some(Canon(v))
  {
    var cs := CanonFields(fs);
    SortFieldsMembers(cs);
    AscendingIsDistinct(SortFields(cs));
    GetIsMember(fs, key);
    GetIsMember(SortFields(cs), key);
    match Get(fs, key)
    case Some(v) =>
      var i :| 0 <= i < |fs| && fs[i] == Field(key, v);
      assert cs[i] == Field(key, Canon(v)) && cs[i] in SortFields(cs);
    case None =>
      forall w
        ensures Field(key, w) !in SortFields(cs)
      {
        assert forall i :: 0 <= i < |fs| ==> fs[i] in fs && fs[i] == Field(fs[i].key, fs[i].val);
      }
      assert Get(SortFields(cs), key).None? by {
        assert forall w :: Get(SortFields(cs), key) != Some(w);
      }
  }

  lemma {:induction false} SameIfCanonEqual(u: Json, v: Json)
    requires WellFormed(u) && WellFormed(v) && Canon(u) == Canon(v)
    ensures Same(u, v)
    decreases u
  {
    match (u, v)
    case (Arr(xs), Arr(ys)) =>
      assert |Canon(u).items| == |Canon(v).items|;
      forall i | 0 <= i < |xs|
        ensures Same(xs[i], ys[i])
      {
        assert Canon(u).items[i] == Canon(v).items[i];
        SameIfCanonEqual(xs[i], ys[i]);
      }
    case (Obj(fs), Obj(gs)) =>
      forall i, j | 0 <= i < |fs| && 0 <= j < |gs| && CanonTwins(fs[i], gs[j])
        ensures Twins(fs[i], gs[j])
      {
        SameIfCanonEqual(fs[i].val, gs[j].val);
      }
      SameFields(fs, gs);
    case _ =>
  }

  ghost predicate CanonTwins(f: Field, g: Field) {
    f.key == g.key && Canon(f.val) == Canon(g.val)
  }

  lemma SameFields(fs: seq<Field>, gs: seq<Field>)
    requires DistinctKeys(fs) && DistinctKeys(gs)
    requires SortFields(CanonFields(fs)) == SortFields(CanonFields(gs))
    requires forall i, j :: 0 <= i < |fs| && 0 <= j < |gs| && CanonTwins(fs[i], gs[j]) ==> Twins(fs[i], gs[j])
    ensures Same(Obj(fs), Obj(gs))
  {
    hide Canon, SortFields, Twins, HasTwin, IsTwin;
    forall i | 0 <= i < |fs|
      ensures HasTwin(fs[i], gs)
    {
      var j := TwinOf(fs, gs, i);
      TwinsWitness(fs, gs, i, j);
    }
    forall j | 0 <= j < |gs|
      ensures IsTwin(fs, gs[j])
    {
      var i := TwinOf(gs, fs, j);
      assert CanonTwins(fs[i], gs[j]);
      TwinsWitness(fs, gs, i, j);
    }
  }

  lemma TwinsWitness(fs: seq<Field>, gs: seq<Field>, i: nat, j: nat)
    requires i < |fs| && j < |gs| && Twins(fs[i], gs[j])
    ensures HasTwin(fs[i], gs) && IsTwin(fs, gs[j])
  {
  }

  /** A field of `gs` that has the canonical form of `fs[i]`. */
  lemma TwinOf(fs: seq<Field>, gs: seq<Field>, i: nat) returns (j: nat)
    requires DistinctKeys(fs) && DistinctKeys(gs) && i < |fs|
    requires SortFields(CanonFields(fs)) == SortFields(CanonFields(gs))
    ensures j < |gs| && CanonTwins(fs[i], gs[j])
  {
    var cs, ds := CanonFields(fs), CanonFields(gs);
    SortFieldsMembers(cs);
    SortFieldsMembers(ds);
    assert cs[i] in cs && cs[i] in SortFields(cs) && cs[i] in ds;
    j :| 0 <= j < |ds| && ds[j] == cs[i];
  }

  lemma {:induction false} CanonEqualIfSame(u: Json, v: Json)
    requires WellFormed(u) && WellFormed(v) && Same(u, v)
    ensures Canon(u) == Canon(v)
    decreases u
  {
    match (u, v)
    case (Arr(xs), Arr(ys)) =>
      forall i | 0 <= i < |xs|
        ensures Canon(u).items[i] == Canon(v).items[i]
      {
        CanonEqualIfSame(xs[i], ys[i]);
      }
      assert Canon(u).items == Canon(v).items;
    case (Obj(fs), Obj(gs)) =>
      hide HasTwin, IsTwin;
      forall i, j | 0 <= i < |fs| && 0 <= j < |gs| && Twins(fs[i], gs[j])
        ensures CanonTwins(fs[i], gs[j])
      {
        CanonEqualIfSame(fs[i].val, gs[j].val);
      }
      CanonFieldsEqual(fs, gs);
    case _ =>
  }

  lemma CanonFieldsEqual(fs: seq<Field>, gs: seq<Field>)
    requires DistinctKeys(fs) && DistinctKeys(gs) && Same(Obj(fs), Obj(gs))
    requires forall i, j :: 0 <= i < |fs| && 0 <= j < |gs| && Twins(fs[i], gs[j]) ==> CanonTwins(fs[i], gs[j])
    ensures SortFields(CanonFields(fs)) == SortFields(CanonFields(gs))
  {
    hide Canon, SortFields, Twins, HasTwin, IsTwin;
    var cs, ds := CanonFields(fs), CanonFields(gs);
    forall i | 0 <= i < |fs|
      ensures cs[i] in ds
    {
      var j := TwinFor(fs[i], gs);
      assert cs[i] == ds[j];
    }
    forall j | 0 <= j < |gs|
      ensures ds[j] in cs
    {
      var i := TwinIn(fs, gs[j]);
      assert cs[i] == ds[j];
    }
    SortFieldsUnique(cs, ds);
  }

  lemma TwinFor(f: Field, gs: seq<Field>) returns (j: nat)
    requires HasTwin(f, gs)
    ensures j < |gs| && Twins(f, gs[j]) && f.key == gs[j].key
  {
    j :| 0 <= j < |gs| && Twins(f, gs[j]);
  }

  lemma TwinIn(fs: seq<Field>, g: Field) returns (i: nat)
    requires IsTwin(fs, g)
    ensures i < |fs| && Twins(fs[i], g) && fs[i].key == g.key
  {
    i :| 0 <= i < |fs| && Twins(fs[i], g);
  }

  /** Two values have one canonical form exactly when they differ only in the order of object fields. */
  lemma CanonIsComplete(u: Json, v: Json)
    requires WellFormed(u) && WellFormed(v)
    ensures Canon(u) == Canon(v) <==> Same(u, v)
  {
    if Canon(u) == Canon(v) { SameIfCanonEqual(u, v); }
    if Same(u, v) { CanonEqualIfSame(u, v); }
  }

  /** A value whose objects are sorted is its own canonical form. */
  lemma {:induction false} SortedIsCanonical(v: Json)
    requires SortedDeep(v)
    ensures Canon(v) == v
  {
    match v
    case Arr(items) =>
      forall i | 0 <= i < |items|
        ensures Canon(items[i]) == items[i]
      {
        SortedIsCanonical(items[i]);
      }
      assert Canon(v).items == items;
    case Obj(fs) =>
      forall i | 0 <= i < |fs|
        ensures Canon(fs[i].val) == fs[i].val
      {
        SortedIsCanonical(fs[i].val);
      }
      assert CanonFields(fs) == fs;
      AscendingIsDistinct(fs);
      KeyLessIsStrict();
      SortFieldsMembers(fs);
      AscendingUnique(SortFields(fs), fs, KeyLess);
    case _ =>
  }

  lemma CanonIsIdempotent(v: Json)
    requires WellFormed(v)
    ensures Canon(Canon(v)) == Canon(v) && Same(Canon(v), v)
  {
    CanonIsSorted(v);
    SortedIsCanonical(Canon(v));
    SameIfCanonEqual(Canon(v), v);
  }

  // ----- Removal of a key

  function IndexOf(fs: seq<Field>, key: string): (r: Option<nat>)
    ensures r.Some? ==> r.value < |fs| && fs[r.value].key == key
    ensures r.None? ==> forall f :: f in fs ==> f.key != key
  {
    if fs == [] then None
    else if fs[0].key == key then Some(0)
    else match IndexOf(fs[1..], key)
      case Some(i) => Some(i + 1)
      case None => None
  }

  /** Removal from an insertion-ordered map: the last field takes the place of the removed one. */
  function SwapRemove(fs: seq<Field>, key: string): seq<Field> {
    match IndexOf(fs, key)
    case None => fs
    case Some(i) => if i == |fs| - 1 then fs[..i] else fs[i := fs[|fs| - 1]][..|fs| - 1]
  }

  /** Where the fields stand after a removal. */
  lemma SwapRemovePlaces(before: seq<Field>, f: Field, between: seq<Field>, last: Field)
    requires DistinctKeys(before + [f] + between + [last])
    ensures SwapRemove(before + [f] + between + [last], f.key) == before + [last] + between
    ensures SwapRemove(before + [f], f.key) == before
  {
    var fs, n := before + [f] + between + [last], |before|;
    assert fs[n] == f && IndexOf(fs, f.key) == Some(n);
    assert (before + [f])[n] == f && forall i :: 0 <= i < n ==> (before + [f])[i] == fs[i];
    assert IndexOf(before + [f], f.key) == Some(n);
    assert fs[|fs| - 1] == last;
  }

  lemma SwapRemoveMembers(fs: seq<Field>, key: string)
    requires DistinctKeys(fs)
    ensures DistinctKeys(SwapRemove(fs, key))
    ensures forall f :: f in SwapRemove(fs, key) <==> f in fs && f.key != key
  {
    var rs := SwapRemove(fs, key);
    match IndexOf(fs, key)
    case None =>
    case Some(i) =>
      var last := |fs| - 1;
      forall f | f in fs && f.key != key
        ensures f in rs
      {
        var j :| 0 <= j < |fs| && fs[j] == f;
        assert f == rs[if j == last then i else j];
      }
  }

  /** Dropping a key commutes with taking the canonical form, although removal reorders the fields. */
  lemma DropCommutes(fs: seq<Field>, key: string)
    requires WellFormed(Obj(fs))
    ensures Canon(Obj(SwapRemove(Canon(Obj(fs)).fields, key))) == Canon(Obj(SwapRemove(fs, key)))
  {
    hide Canon, SwapRemove, Same, SortedDeep;
    var v := Obj(fs);
    CanonIsIdempotent(v);
    CanonIsSorted(v);
    CanonKeepsShape(v);
    var cs := Canon(v).fields;
    SwapRemoveMembers(fs, key);
    SwapRemoveMembers(cs, key);
    SameAfterDrop(fs, cs, key);
    WellFormedAfterDrop(fs, key);
    WellFormedAfterDrop(cs, key);
    CanonEqualIfSame(Obj(SwapRemove(cs, key)), Obj(SwapRemove(fs, key)));
  }

  lemma CanonKeepsShape(v: Json)
    ensures Canon(v).Obj? <==> v.Obj?
  {
  }

  lemma WellFormedAfterDrop(fs: seq<Field>, key: string)
    requires WellFormed(Obj(fs))
    ensures WellFormed(Obj(SwapRemove(fs, key)))
  {
    SwapRemoveMembers(fs, key);
    var rs := SwapRemove(fs, key);
    forall i | 0 <= i < |rs|
      ensures WellFormed(rs[i].val)
    {
      assert rs[i] in fs;
    }
  }

  lemma SameAfterDrop(fs: seq<Field>, gs: seq<Field>, key: string)
    requires DistinctKeys(fs) && DistinctKeys(gs) && Same(Obj(gs), Obj(fs))
    ensures Same(Obj(SwapRemove(gs, key)), Obj(SwapRemove(fs, key)))
  {
    hide SwapRemove, HasTwin, IsTwin, Same;
    SameIffTwins(gs, fs);
    SameDroppedIff(gs, fs, key);
  }

  /** Every field of each object but those under `key` has its twin in the other. */
  ghost predicate AgreeBeside(fs: seq<Field>, gs: seq<Field>, key: string) {
    && (forall i :: 0 <= i < |fs| && fs[i].key != key ==> HasTwin(fs[i], gs))
    && (forall j :: 0 <= j < |gs| && gs[j].key != key ==> IsTwin(fs, gs[j]))
  }

  /** Two objects are equal without a key, up to order, exactly if they agree in all other fields. */
  lemma SameDroppedIff(fs: seq<Field>, gs: seq<Field>, key: string)
    requires DistinctKeys(fs) && DistinctKeys(gs)
    ensures Same(Obj(SwapRemove(fs, key)), Obj(SwapRemove(gs, key))) <==> AgreeBeside(fs, gs, key)
  {
    hide SwapRemove, Twins, HasTwin, IsTwin, Same, AgreeBeside;
    SwapRemoveMembers(fs, key);
    SwapRemoveMembers(gs, key);
    SameIffTwins(SwapRemove(fs, key), SwapRemove(gs, key));
    var rs, ts := SwapRemove(fs, key), SwapRemove(gs, key);
    if AgreeBeside(fs, gs, key) { AgreeToTwins(fs, gs, key, rs, ts); }
    if AllTwins(rs, ts) { TwinsToAgree(fs, gs, key, rs, ts); }
  }

  ghost predicate AllTwins(fs: seq<Field>, gs: seq<Field>) {
    && (forall i :: 0 <= i < |fs| ==> HasTwin(fs[i], gs))
    && (forall j :: 0 <= j < |gs| ==> IsTwin(fs, gs[j]))
  }

  lemma SameIffTwins(fs: seq<Field>, gs: seq<Field>)
    ensures Same(Obj(fs), Obj(gs)) <==> AllTwins(fs, gs)
  {
    hide HasTwin, IsTwin;
  }

  /** `rs` are the fields of `fs` that are not under `key`. */
  ghost predicate Dropped(rs: seq<Field>, fs: seq<Field>, key: string) {
    forall f :: f in rs <==> f in fs && f.key != key
  }

  lemma TwinMoves(f: Field, gs: seq<Field>, ts: seq<Field>, key: string)
    requires HasTwin(f, gs) && f.key != key && forall g :: g in gs && g.key != key ==> g in ts
    ensures HasTwin(f, ts)
  {
    hide Twins;
    var j := TwinFor(f, gs);
    assert gs[j] in ts;
    var k :| 0 <= k < |ts| && ts[k] == gs[j];
    assert Twins(f, ts[k]);
  }

  lemma TwinMovesBack(fs: seq<Field>, rs: seq<Field>, g: Field, key: string)
    requires IsTwin(fs, g) && g.key != key && forall f :: f in fs && f.key != key ==> f in rs
    ensures IsTwin(rs, g)
  {
    hide Twins;
    var j := TwinIn(fs, g);
    assert fs[j] in rs;
    var k :| 0 <= k < |rs| && rs[k] == fs[j];
    assert Twins(rs[k], g);
  }

  lemma AgreeToTwins(fs: seq<Field>, gs: seq<Field>, key: string, rs: seq<Field>, ts: seq<Field>)
    requires Dropped(rs, fs, key) && Dropped(ts, gs, key) && AgreeBeside(fs, gs, key)
    ensures AllTwins(rs, ts)
  {
    hide HasTwin, IsTwin;
    forall i | 0 <= i < |rs|
      ensures HasTwin(rs[i], ts)
    {
      assert rs[i] in fs;
      var k :| 0 <= k < |fs| && fs[k] == rs[i];
      TwinMoves(rs[i], gs, ts, key);
    }
    forall j | 0 <= j < |ts|
      ensures IsTwin(rs, ts[j])
    {
      assert ts[j] in gs;
      var k :| 0 <= k < |gs| && gs[k] == ts[j];
      TwinMovesBack(fs, rs, ts[j], key);
    }
  }

  lemma TwinsToAgree(fs: seq<Field>, gs: seq<Field>, key: string, rs: seq<Field>, ts: seq<Field>)
    requires Dropped(rs, fs, key) && Dropped(ts, gs, key) && AllTwins(rs, ts)
    ensures AgreeBeside(fs, gs, key)
  {
    hide HasTwin, IsTwin;
    forall i | 0 <= i < |fs| && fs[i].key != key
      ensures HasTwin(fs[i], gs)
    {
      assert fs[i] in rs;
      var k :| 0 <= k < |rs| && rs[k] == fs[i];
      TwinMoves(fs[i], ts, gs, key);
    }
    forall j | 0 <= j < |gs| && gs[j].key != key
      ensures IsTwin(fs, gs[j])
    {
      assert gs[j] in ts;
      var k :| 0 <= k < |ts| && ts[k] == gs[j];
      TwinMovesBack(rs, fs, gs[j], key);
    }
  }

  lemma PrintableAfterDrop(fs: seq<Field>, key: string, depth: nat)
    requires Printable(Obj(fs), depth)
    ensures Printable(Obj(SwapRemove(fs, key)), depth)
  {
    SwapRemoveMembers(fs, key);
    var rs := SwapRemove(fs, key);
    forall i | 0 <= i < |rs|
      ensures Printable(rs[i].val, depth - 1)
    {
      assert rs[i] in fs;
    }
  }
}
