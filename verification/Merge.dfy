/** Recursive merge of JSON values (`merge_value`). */
module Merge {
  import opened Wrappers
  import opened Json

  /** The patch overrides the base; where both are objects they are merged field by field. */
  function Merged(base: Json, patch: Json): Json
    decreases patch
  {
    if base.Obj? && patch.Obj? then Obj(MergedFields(base.fields, patch.fields)) else patch
  }

  function MergedFields(fs: seq<Field>, ps: seq<Field>): seq<Field>
    decreases ps
  {
    if ps == [] then fs else
      var init, last := ps[..|ps| - 1], ps[|ps| - 1];
      var merged := MergedFields(fs, init);
      match IndexOf(merged, last.key)
      case Some(i) => merged[i := Field(last.key, Merged(merged[i].val, last.val))]
      case None => merged + [last]
  }

  /** The source's loop over the fields of the patch, updating the base one field at a time. */
  method MergeValue(base: Json, patch: Json) returns (r: Json)
    ensures r == Merged(base, patch)
    decreases patch
  {
    if patch.Obj? && base.Obj? {
      var fields := base.fields;
      var ps := patch.fields;
      for n := 0 to |ps|
        invariant fields == MergedFields(base.fields, ps[..n])
      {
        assert ps[..n + 1][..n] == ps[..n];
        var existing := IndexOf(fields, ps[n].key);
        if existing.Some? {
          var val := MergeValue(fields[existing.value].val, ps[n].val);
          fields := fields[existing.value := Field(ps[n].key, val)];
        } else {
          fields := fields + [ps[n]];
        }
      }
      assert ps[..|ps|] == ps;
      return Obj(fields);
    }
    return patch;
  }

  // ----- Fields by key

  function Keys(fs: seq<Field>): seq<string> {
    seq(|fs|, i requires 0 <= i < |fs| => fs[i].key)
  }

  function AddKeys(a: seq<string>, b: seq<string>): seq<string> {
    if b == [] then a else
      var m := AddKeys(a, b[..|b| - 1]);
      if b[|b| - 1] in m then m else m + [b[|b| - 1]]
  }

  /** What stands under a key after a merge. */
  function MergedEntry(b: Option<Json>, p: Option<Json>): Option<Json> {
    if b.Some? && p.Some? then Some(Merged(b.value, p.value)) else if p.Some? then p else b
  }

  lemma GetAtIndex(fs: seq<Field>, key: string)
    requires DistinctKeys(fs)
    ensures match IndexOf(fs, key)
            case Some(i) => Get(fs, key) == Some(fs[i].val) && key in Keys(fs)
            case None => Get(fs, key) == None && key !in Keys(fs)
  {
    GetIsMember(fs, key);
    match IndexOf(fs, key)
    case Some(i) =>
      assert fs[i] == Field(key, fs[i].val) && fs[i] in fs;
      assert Keys(fs)[i] == key;
    case None =>
      assert forall v :: Get(fs, key) != Some(v);
  }

  lemma GetOfUpdate(fs: seq<Field>, i: nat, v: Json, key: string)
    requires DistinctKeys(fs) && i < |fs|
    ensures var gs := fs[i := Field(fs[i].key, v)];
            DistinctKeys(gs) && Keys(gs) == Keys(fs)
            && Get(gs, key) == if key == fs[i].key then Some(v) else Get(fs, key)
  {
    var gs := fs[i := Field(fs[i].key, v)];
    GetIsMember(fs, key);
    GetIsMember(gs, key);
    assert gs[i] in gs;
    forall w
      ensures Field(key, w) in gs <==> if key == fs[i].key then w == v else Field(key, w) in fs
    {
      if Field(key, w) in fs && key != fs[i].key {
        var j :| 0 <= j < |fs| && fs[j] == Field(key, w);
        assert gs[j] == Field(key, w);
      }
    }
  }

  lemma GetOfAppend(fs: seq<Field>, f: Field, key: string)
    requires DistinctKeys(fs) && f.key !in Keys(fs)
    ensures DistinctKeys(fs + [f]) && Keys(fs + [f]) == Keys(fs) + [f.key]
    ensures Get(fs + [f], key) == if key == f.key then Some(f.val) else Get(fs, key)
  {
    forall i | 0 <= i < |fs|
      ensures fs[i].key != f.key
    {
      assert Keys(fs)[i] in Keys(fs);
    }
    GetIsMember(fs, key);
    GetIsMember(fs + [f], key);
    assert forall w :: Field(key, w) in fs + [f] <==> Field(key, w) in fs || f == Field(key, w);
    if key == f.key {
      assert Get(fs + [f], key) == Some(f.val);
    } else {
      assert forall w :: Get(fs + [f], key) == Some(w) <==> Get(fs, key) == Some(w);
    }
  }

  /** The keys of a merge, in order, and what stands under each key. */
  lemma {:induction false} MergedByKey(fs: seq<Field>, ps: seq<Field>, key: string)
    requires DistinctKeys(fs) && DistinctKeys(ps)
    ensures DistinctKeys(MergedFields(fs, ps))
    ensures Keys(MergedFields(fs, ps)) == AddKeys(Keys(fs), Keys(ps))
    ensures Get(MergedFields(fs, ps), key) == MergedEntry(Get(fs, key), Get(ps, key))
    decreases |ps|
  {
    hide Get, Merged;
    if ps == [] {
      assert Get(ps, key) == None by { GetOfNothing(key); }
    } else {
      var init, last := ps[..|ps| - 1], ps[|ps| - 1];
      var merged := MergedFields(fs, init);
      MergedByKey(fs, init, key);
      MergedByKey(fs, init, last.key);
      assert ps == init + [last];
      assert last.key !in Keys(init);
      GetOfAppend(init, last, key);
      GetOfAppend(init, last, last.key);
      GetAtIndex(init, last.key);
      GetAtIndex(merged, last.key);
      match IndexOf(merged, last.key)
      case Some(i) => GetOfUpdate(merged, i, Merged(merged[i].val, last.val), key);
      case None => GetOfAppend(merged, last, key);
    }
  }

  lemma GetOfNothing(key: string)
    ensures Get([], key) == None
  {
  }

  /** A field list is determined by its keys in order and what stands under each. */
  lemma FieldsUnique(fs: seq<Field>, gs: seq<Field>)
    requires DistinctKeys(fs) && DistinctKeys(gs) && Keys(fs) == Keys(gs)
    requires forall key :: Get(fs, key) == Get(gs, key)
    ensures fs == gs
  {
    assert |fs| == |Keys(fs)| == |gs|;
    forall i | 0 <= i < |fs|
      ensures fs[i] == gs[i]
    {
      var key := Keys(fs)[i];
      assert fs[i].key == key && gs[i].key == key;
      GetIsMember(fs, key);
      GetIsMember(gs, key);
      assert fs[i] == Field(key, fs[i].val) && gs[i] == Field(key, gs[i].val);
      assert Get(fs, key) == Some(fs[i].val) && Get(gs, key) == Some(gs[i].val);
    }
  }

  /** Where in a field list an entry stands. */
  lemma EntryIndex(fs: seq<Field>, key: string) returns (i: nat)
    requires DistinctKeys(fs) && Get(fs, key).Some?
    ensures i < |fs| && fs[i] == Field(key, Get(fs, key).value)
  {
    GetIsMember(fs, key);
    assert Field(key, Get(fs, key).value) in fs;
    i :| 0 <= i < |fs| && fs[i] == Field(key, Get(fs, key).value);
  }

  lemma EntryAt(fs: seq<Field>, i: nat)
    requires DistinctKeys(fs) && i < |fs|
    ensures Get(fs, fs[i].key) == Some(fs[i].val)
  {
    GetIsMember(fs, fs[i].key);
    assert fs[i] == Field(fs[i].key, fs[i].val) && fs[i] in fs;
  }

  lemma {:induction false} AddKeysMembers(a: seq<string>, b: seq<string>)
    ensures a <= AddKeys(a, b)
    ensures forall k :: k in AddKeys(a, b) <==> k in a || k in b
  {
    if b != [] {
      AddKeysMembers(a, b[..|b| - 1]);
      assert b == b[..|b| - 1] + [b[|b| - 1]];
    }
  }

  lemma {:induction false} AddKnownKeys(a: seq<string>, b: seq<string>)
    requires forall k :: k in b ==> k in a
    ensures AddKeys(a, b) == a
  {
    if b != [] { AddKnownKeys(a, b[..|b| - 1]); }
  }

  lemma {:induction false} AddKeysAssociative(a: seq<string>, b: seq<string>, c: seq<string>)
    ensures AddKeys(AddKeys(a, b), c) == AddKeys(a, AddKeys(b, c))
  {
    if c != [] {
      var init, last := c[..|c| - 1], c[|c| - 1];
      AddKeysAssociative(a, b, init);
      AddKeysMembers(AddKeys(a, b), init);
      AddKeysMembers(a, b);
      AddKeysMembers(b, init);
      var m := AddKeys(b, init);
      if last !in m {
        assert (m + [last])[..|m|] == m;
      }
    }
  }

  // ----- The same patch twice

  /** Applying a patch twice is applying it once. */
  lemma {:induction false} MergeIsIdempotent(b: Json, p: Json)
    requires WellFormed(b) && WellFormed(p)
    ensures Merged(Merged(b, p), p) == Merged(b, p)
    decreases p
  {
    if p.Obj? {
      forall v: Json, i: nat | i < |p.fields| && WellFormed(v)
        ensures Merged(Merged(v, p.fields[i].val), p.fields[i].val) == Merged(v, p.fields[i].val)
      {
        MergeIsIdempotent(v, p.fields[i].val);
      }
      FieldsIdempotent(if b.Obj? then b.fields else [], p.fields);
      MergedIntoNothing(p.fields);
    }
  }

  lemma MergedIntoNothing(ps: seq<Field>)
    requires DistinctKeys(ps)
    ensures MergedFields([], ps) == ps
  {
    hide Get, Merged, MergedFields, AddKeys;
    forall key
      ensures Get(MergedFields([], ps), key) == Get(ps, key)
    {
      MergedByKey([], ps, key);
      GetOfNothing(key);
    }
    MergedByKey([], ps, "");
    AddToNothing(ps);
    assert Keys([]) == [];
    FieldsUnique(MergedFields([], ps), ps);
  }

  lemma {:induction false} AddToNothing(ps: seq<Field>)
    requires DistinctKeys(ps)
    ensures AddKeys([], Keys(ps)) == Keys(ps)
    decreases |ps|
  {
    if ps != [] {
      var init, last := ps[..|ps| - 1], ps[|ps| - 1];
      AddToNothing(init);
      assert Keys(ps)[..|ps| - 1] == Keys(init);
      assert last.key !in Keys(init);
      assert Keys(ps) == Keys(init) + [last.key];
    }
  }

  lemma FieldsIdempotent(fs: seq<Field>, ps: seq<Field>)
    requires WellFormed(Obj(fs)) && WellFormed(Obj(ps))
    requires forall v: Json, i: nat :: i < |ps| && WellFormed(v) ==>
               Merged(Merged(v, ps[i].val), ps[i].val) == Merged(v, ps[i].val)
    ensures MergedFields(MergedFields(fs, ps), ps) == MergedFields(fs, ps)
  {
    hide Get, Merged, MergedFields, AddKeys;
    var m := MergedFields(fs, ps);
    MergedByKey(fs, ps, "");
    MergedByKey(m, ps, "");
    AddKeysMembers(Keys(fs), Keys(ps));
    AddKnownKeys(Keys(m), Keys(ps));
    forall key
      ensures Get(MergedFields(m, ps), key) == Get(m, key)
    {
      MergedByKey(fs, ps, key);
      MergedByKey(m, ps, key);
      if Get(ps, key).Some? {
        var i := EntryIndex(ps, key);
        EntryIdempotent(fs, ps, i);
      }
    }
    FieldsUnique(MergedFields(m, ps), m);
  }

  lemma EntryIdempotent(fs: seq<Field>, ps: seq<Field>, i: nat)
    requires WellFormed(Obj(fs)) && WellFormed(Obj(ps)) && i < |ps|
    requires forall v: Json :: WellFormed(v) ==> Merged(Merged(v, ps[i].val), ps[i].val) == Merged(v, ps[i].val)
    ensures var (b, p) := (Get(fs, ps[i].key), Some(ps[i].val));
            MergedEntry(MergedEntry(b, p), p) == MergedEntry(b, p)
  {
    var p := ps[i].val;
    if Get(fs, ps[i].key).Some? {
      var j := EntryIndex(fs, ps[i].key);
      assert WellFormed(fs[j].val);
    } else {
      assert WellFormed(Null) && Merged(Null, p) == p;
    }
  }

  // ----- Paths

  /** What stands at a path of keys. */
  function At(v: Json, path: seq<string>): Option<Json>
    decreases |path|
  {
    if path == [] then Some(v)
    else if v.Obj? then
      match Get(v.fields, path[0])
      case Some(w) => At(w, path[1..])
      case None => None
    else None
  }

  /** The patch has a non-object strictly above the path. */
  predicate Cuts(p: Json, path: seq<string>)
    decreases |path|
  {
    path != [] && (p.Obj? ==> Get(p.fields, path[0]).Some? && Cuts(Get(p.fields, path[0]).value, path[1..]))
  }

  /** What stands at every path of a merge, for arbitrary values. */
  lemma {:induction false} MergeAtPath(b: Json, p: Json, path: seq<string>)
    requires WellFormed(b) && WellFormed(p)
    ensures At(Merged(b, p), path) == if Cuts(p, path) then None else MergedEntry(At(b, path), At(p, path))
    decreases |path|
  {
    if path != [] && p.Obj? && b.Obj? {
      MergedByKey(b.fields, p.fields, path[0]);
      if Get(p.fields, path[0]).Some? {
        var i := EntryIndex(p.fields, path[0]);
        assert WellFormed(p.fields[i].val);
        if Get(b.fields, path[0]).Some? {
          var j := EntryIndex(b.fields, path[0]);
          assert WellFormed(b.fields[j].val);
          MergeAtPath(b.fields[j].val, p.fields[i].val, path[1..]);
        } else {
          CutPathIsEmpty(p.fields[i].val, path[1..]);
        }
      }
    } else {
      CutPathIsEmpty(p, path);
    }
  }

  lemma {:induction false} CutPathIsEmpty(p: Json, path: seq<string>)
    ensures Cuts(p, path) ==> At(p, path) == None
    decreases |path|
  {
    if path != [] && p.Obj? && Get(p.fields, path[0]).Some? {
      CutPathIsEmpty(Get(p.fields, path[0]).value, path[1..]);
    }
  }

  /** A leaf of the patch stands in the result, whatever the base holds. */
  lemma PatchLeafWins(b: Json, p: Json, path: seq<string>, leaf: Json)
    requires WellFormed(b) && WellFormed(p)
    requires At(p, path) == Some(leaf) && !leaf.Obj?
    ensures At(Merged(b, p), path) == Some(leaf)
  {
    hide At, Cuts;
    MergeAtPath(b, p, path);
    CutPathIsEmpty(p, path);
  }

  /** Where the patch has nothing at or above a path except objects, the base keeps its value. */
  lemma UntouchedKept(b: Json, p: Json, path: seq<string>)
    requires WellFormed(b) && WellFormed(p)
    requires At(p, path) == None && !Cuts(p, path)
    ensures At(Merged(b, p), path) == At(b, path)
  {
    hide At, Cuts;
    MergeAtPath(b, p, path);
  }

  // ----- Patches in turn

  /** Merging `q` into `b` leaves just `q`: the keys of `b` open those of `q`, at every depth. */
  ghost predicate Absorbs(q: Json, b: Json)
    decreases b
  {
    b.Obj? && q.Obj? ==>
      && Keys(b.fields) <= Keys(q.fields)
      && forall i | 0 <= i < |b.fields| && i < |q.fields| :: Absorbs(q.fields[i].val, b.fields[i].val)
  }

  /**
   Wherever base and second patch have objects, the first patch has an object too or nothing, or
   else the second patch covers what it uncovers of the base.
   */
  ghost predicate Safe(b: Json, p: Json, q: Json)
    decreases b
  {
    b.Obj? && q.Obj? ==>
      if p.Obj? then
        forall i | 0 <= i < |b.fields| :: SafeField(b.fields[i], p.fields, q.fields)
      else Absorbs(q, b)
  }

  ghost predicate SafeField(f: Field, ps: seq<Field>, qs: seq<Field>)
    decreases f
  {
    Get(ps, f.key).Some? && Get(qs, f.key).Some? ==> Safe(f.val, Get(ps, f.key).value, Get(qs, f.key).value)
  }

  lemma {:induction false} AddKeysSuffix(a: seq<string>, b: seq<string>)
    requires a <= b && forall i, j :: 0 <= i < j < |b| ==> b[i] != b[j]
    ensures AddKeys(a, b) == b
    decreases |b|
  {
    if |b| > |a| {
      AddKeysSuffix(a, b[..|b| - 1]);
      assert b == b[..|b| - 1] + [b[|b| - 1]];
    } else {
      assert a == b;
      AddKnownKeys(a, b);
    }
  }

  ghost predicate SameEntries(fs: seq<Field>, gs: seq<Field>) {
    forall key :: Get(fs, key) == Get(gs, key)
  }

  /** Two field lists are equal exactly when their keys and entries are. */
  lemma FieldsEqual(fs: seq<Field>, gs: seq<Field>)
    requires DistinctKeys(fs) && DistinctKeys(gs)
    ensures fs == gs <==> Keys(fs) == Keys(gs) && SameEntries(fs, gs)
  {
    if Keys(fs) == Keys(gs) && SameEntries(fs, gs) {
      FieldsUnique(fs, gs);
    }
  }

  lemma {:induction false} AbsorbsIff(q: Json, b: Json)
    requires WellFormed(b) && WellFormed(q)
    ensures Merged(b, q) == q <==> Absorbs(q, b)
    decreases b
  {
    if b.Obj? && q.Obj? {
      forall i, j | 0 <= i < |b.fields| && 0 <= j < |q.fields|
        ensures Merged(b.fields[i].val, q.fields[j].val) == q.fields[j].val
                <==> Absorbs(q.fields[j].val, b.fields[i].val)
      {
        AbsorbsIff(q.fields[j].val, b.fields[i].val);
      }
      AbsorbsFields(b.fields, q.fields);
    }
  }

  lemma AbsorbsFields(fs: seq<Field>, qs: seq<Field>)
    requires DistinctKeys(fs) && DistinctKeys(qs)
    requires forall i, j | 0 <= i < |fs| && 0 <= j < |qs| ::
               Merged(fs[i].val, qs[j].val) == qs[j].val <==> Absorbs(qs[j].val, fs[i].val)
    ensures MergedFields(fs, qs) == qs <==> Absorbs(Obj(qs), Obj(fs))
  {
    hide Get, Merged, MergedFields, AddKeys, SameEntries;
    MergedByKey(fs, qs, "");
    FieldsEqual(MergedFields(fs, qs), qs);
    AddKeysMembers(Keys(fs), Keys(qs));
    if Absorbs(Obj(qs), Obj(fs)) {
      AddKeysSuffix(Keys(fs), Keys(qs));
      AbsorbedEntries(fs, qs);
    }
    if MergedFields(fs, qs) == qs {
      forall i | 0 <= i < |fs| && i < |qs|
        ensures Absorbs(qs[i].val, fs[i].val)
      {
        EntryAbsorbed(fs, qs, i);
      }
    }
  }

  lemma EntryAbsorbed(fs: seq<Field>, qs: seq<Field>, i: nat)
    requires DistinctKeys(fs) && DistinctKeys(qs) && MergedFields(fs, qs) == qs
    requires Keys(fs) <= Keys(qs) && i < |fs| && i < |qs|
    ensures Merged(fs[i].val, qs[i].val) == qs[i].val
  {
    hide Get, Merged, MergedFields, AddKeys;
    assert Keys(fs)[i] == Keys(qs)[i];
    MergedByKey(fs, qs, fs[i].key);
    EntryAt(fs, i);
    EntryAt(qs, i);
  }

  lemma AbsorbedEntries(fs: seq<Field>, qs: seq<Field>)
    requires DistinctKeys(fs) && DistinctKeys(qs) && Keys(fs) <= Keys(qs)
    requires forall i | 0 <= i < |fs| && i < |qs| :: Merged(fs[i].val, qs[i].val) == qs[i].val
    ensures SameEntries(MergedFields(fs, qs), qs)
  {
    hide Get, Merged, MergedFields, AddKeys;
    forall key
      ensures Get(MergedFields(fs, qs), key) == Get(qs, key)
    {
      MergedByKey(fs, qs, key);
      if Get(fs, key).Some? {
        var i := EntryIndex(fs, key);
        assert Keys(fs)[i] == Keys(qs)[i];
        EntryAt(qs, i);
      }
    }
  }

  /** When applying two patches in turn equals applying their merge. */
  lemma {:induction false} PatchesInTurn(b: Json, p: Json, q: Json)
    requires WellFormed(b) && WellFormed(p) && WellFormed(q)
    ensures Merged(Merged(b, p), q) == Merged(b, Merged(p, q)) <==> Safe(b, p, q)
    decreases b
  {
    if b.Obj? && q.Obj? {
      if p.Obj? {
        forall f: Field, i: nat | i < |b.fields| && b.fields[i] == f
          ensures EntriesInTurn(Some(f.val), Get(p.fields, f.key), Get(q.fields, f.key))
                  <==> SafeField(f, p.fields, q.fields)
        {
          if Get(p.fields, f.key).Some? && Get(q.fields, f.key).Some? {
            var j := EntryIndex(p.fields, f.key);
            var k := EntryIndex(q.fields, f.key);
            PatchesInTurn(f.val, p.fields[j].val, q.fields[k].val);
          }
        }
        FieldsInTurn(b.fields, p.fields, q.fields);
      } else {
        AbsorbsIff(q, b);
      }
    }
  }

  ghost predicate EntriesInTurn(b: Option<Json>, p: Option<Json>, q: Option<Json>) {
    MergedEntry(MergedEntry(b, p), q) == MergedEntry(b, MergedEntry(p, q))
  }

  lemma FieldsInTurn(fs: seq<Field>, ps: seq<Field>, qs: seq<Field>)
    requires DistinctKeys(fs) && DistinctKeys(ps) && DistinctKeys(qs)
    ensures MergedFields(MergedFields(fs, ps), qs) == MergedFields(fs, MergedFields(ps, qs))
            <==> forall i :: 0 <= i < |fs| ==> EntriesInTurn(Some(fs[i].val), Get(ps, fs[i].key), Get(qs, fs[i].key))
  {
    hide Get, Merged, MergedFields, AddKeys, SameEntries, EntriesInTurn;
    var l, r := MergedFields(MergedFields(fs, ps), qs), MergedFields(fs, MergedFields(ps, qs));
    KeysInTurn(fs, ps, qs);
    FieldsEqual(l, r);
    if l == r {
      forall i | 0 <= i < |fs|
        ensures EntriesInTurn(Some(fs[i].val), Get(ps, fs[i].key), Get(qs, fs[i].key))
      {
        EntryAt(fs, i);
        EntryInTurn(fs, ps, qs, fs[i].key);
      }
    }
    if forall i :: 0 <= i < |fs| ==> EntriesInTurn(Some(fs[i].val), Get(ps, fs[i].key), Get(qs, fs[i].key)) {
      forall key
        ensures Get(l, key) == Get(r, key)
      {
        EntryInTurn(fs, ps, qs, key);
        if Get(fs, key).Some? {
          var i := EntryIndex(fs, key);
        }
      }
      EntriesAgree(l, r);
    }
  }

  lemma EntriesAgree(fs: seq<Field>, gs: seq<Field>)
    requires forall key :: Get(fs, key) == Get(gs, key)
    ensures SameEntries(fs, gs)
  {
  }

  lemma KeysInTurn(fs: seq<Field>, ps: seq<Field>, qs: seq<Field>)
    requires DistinctKeys(fs) && DistinctKeys(ps) && DistinctKeys(qs)
    ensures var (l, r) := (MergedFields(MergedFields(fs, ps), qs), MergedFields(fs, MergedFields(ps, qs)));
            DistinctKeys(l) && DistinctKeys(r) && Keys(l) == Keys(r)
  {
    hide Get, Merged, MergedFields, AddKeys;
    MergedByKey(fs, ps, "");
    MergedByKey(ps, qs, "");
    MergedByKey(MergedFields(fs, ps), qs, "");
    MergedByKey(fs, MergedFields(ps, qs), "");
    AddKeysAssociative(Keys(fs), Keys(ps), Keys(qs));
  }

  lemma EntryInTurn(fs: seq<Field>, ps: seq<Field>, qs: seq<Field>, key: string)
    requires DistinctKeys(fs) && DistinctKeys(ps) && DistinctKeys(qs)
    ensures var (l, r) := (MergedFields(MergedFields(fs, ps), qs), MergedFields(fs, MergedFields(ps, qs)));
            Get(l, key) == Get(r, key) <==> EntriesInTurn(Get(fs, key), Get(ps, key), Get(qs, key))
    ensures Get(fs, key).None? ==> EntriesInTurn(Get(fs, key), Get(ps, key), Get(qs, key))
  {
    hide Get, Merged, MergedFields, AddKeys;
    MergedByKey(fs, ps, key);
    MergedByKey(ps, qs, key);
    MergedByKey(MergedFields(fs, ps), qs, key);
    MergedByKey(fs, MergedFields(ps, qs), key);
  }

  /** There is no path at which base and second patch have objects and the first patch a non-object. */
  ghost predicate NoClash(b: Json, p: Json, q: Json) {
    forall path ::
      At(b, path).Some? && At(b, path).value.Obj? && At(q, path).Some? && At(q, path).value.Obj? && At(p, path).Some?
      ==> At(p, path).value.Obj?
  }

  lemma NoClashBelow(b: Json, p: Json, q: Json, key: string)
    requires NoClash(b, p, q) && b.Obj? && p.Obj? && q.Obj?
    requires Get(b.fields, key).Some? && Get(p.fields, key).Some? && Get(q.fields, key).Some?
    ensures NoClash(Get(b.fields, key).value, Get(p.fields, key).value, Get(q.fields, key).value)
  {
    var (b', p', q') := (Get(b.fields, key).value, Get(p.fields, key).value, Get(q.fields, key).value);
    forall path |
      At(b', path).Some? && At(b', path).value.Obj? && At(q', path).Some? && At(q', path).value.Obj?
      && At(p', path).Some?
      ensures At(p', path).value.Obj?
    {
      var longer := [key] + path;
      assert longer[1..] == path;
      assert At(b, longer) == At(b', path) && At(p, longer) == At(p', path) && At(q, longer) == At(q', path);
    }
  }

  lemma {:induction false} NoClashIsSafe(b: Json, p: Json, q: Json)
    requires WellFormed(b) && NoClash(b, p, q)
    ensures Safe(b, p, q)
    decreases b
  {
    if b.Obj? && q.Obj? {
      assert At(p, []) == Some(p) && At(b, []) == Some(b) && At(q, []) == Some(q);
      forall i | 0 <= i < |b.fields|
        ensures SafeField(b.fields[i], p.fields, q.fields)
      {
        var f := b.fields[i];
        EntryAt(b.fields, i);
        if Get(p.fields, f.key).Some? && Get(q.fields, f.key).Some? {
          NoClashBelow(b, p, q, f.key);
          NoClashIsSafe(f.val, Get(p.fields, f.key).value, Get(q.fields, f.key).value);
        }
      }
    }
  }

  /** Without a clash, merging two patches in turn equals merging their merge. */
  lemma MergeWithoutClash(b: Json, p: Json, q: Json)
    requires WellFormed(b) && WellFormed(p) && WellFormed(q) && NoClash(b, p, q)
    ensures Merged(Merged(b, p), q) == Merged(b, Merged(p, q))
  {
    NoClashIsSafe(b, p, q);
    PatchesInTurn(b, p, q);
  }

  /** A clash makes the difference: the scalar wipes the base object, the merged patch does not. */
  lemma MergeIsNotAssociative()
    ensures var (b, p, q) := (Obj([Field("x", Num(Integer(1)))]), Null, Obj([]));
            Merged(Merged(b, p), q) == Obj([]) && Merged(b, Merged(p, q)) == b && b != Obj([])
  {
  }
}
