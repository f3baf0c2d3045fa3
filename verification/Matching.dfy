/**
 Matching of external calls against internal calls (`match_calls`).

 `Pass` is what one greedy scan computes; the theorems say what the two scans achieve together.
 */
module Matching {
  import opened Wrappers

  datatype Call = Call(id: string, hash: string, at: int)

  /**
   A set of pairs (external index, internal index) in which no index occurs twice, kept as a map in
   each direction: `fwd` from external to internal indices and `back` the other way.
   */
  datatype Pairing = Pairing(fwd: map<int, int>, back: map<int, int>)

  const MATCH_WINDOW_SECS := 1

  function AbsDiff(left: int, right: int): nat {
    if left <= right then right - left else left - right
  }

  /** At most one second apart. */
  predicate WithinWindow(left: int, right: int): (b: bool)
    ensures b <==> -1 <= left - right <= 1
  {
    AbsDiff(left, right) <= MATCH_WINDOW_SECS
  }

  /** What a scan asks of a candidate: equal hashes in the first one, different ones in the second. */
  predicate Eligible(external: Call, internal: Call, sameHash: bool) {
    && (internal.hash == external.hash) == sameHash
    && WithinWindow(internal.at, external.at)
  }

  ghost predicate SortedByTime(calls: seq<Call>) {
    forall i, j :: 0 <= i < j < |calls| ==> calls[i].at <= calls[j].at
  }

  /** The pairs of `p` are pairs of indices of the two lists, and no index is in two of them. */
  ghost predicate OneToOne(p: Pairing, external: seq<Call>, internal: seq<Call>) {
    && (forall k :: k in p.fwd ==> 0 <= k < |external| && p.fwd[k] in p.back && p.back[p.fwd[k]] == k)
    && (forall j :: j in p.back ==> 0 <= j < |internal| && p.back[j] in p.fwd && p.fwd[p.back[j]] == j)
  }

  /** Pairs calls of equal hash whose start times lie in the window. */
  ghost predicate Explains(p: Pairing, external: seq<Call>, internal: seq<Call>) {
    && OneToOne(p, external, internal)
    && forall k :: k in p.fwd ==>
         internal[p.fwd[k]].hash == external[k].hash && WithinWindow(internal[p.fwd[k]].at, external[k].at)
  }

  /** As `Explains`, with no condition on the hashes. */
  ghost predicate PairsInWindow(p: Pairing, external: seq<Call>, internal: seq<Call>) {
    && OneToOne(p, external, internal)
    && forall k :: k in p.fwd ==> WithinWindow(internal[p.fwd[k]].at, external[k].at)
  }

  /** An explanation that leaves no call out on either side. */
  ghost predicate Bijection(p: Pairing, external: seq<Call>, internal: seq<Call>) {
    && Explains(p, external, internal)
    && (forall k :: 0 <= k < |external| ==> k in p.fwd)
    && (forall j :: 0 <= j < |internal| ==> j in p.back)
  }

  function Size(p: Pairing): nat {
    |p.fwd|
  }

  // ----- The greedy scans

  function FirstFree(external: Call, internal: seq<Call>, taken: set<int>, sameHash: bool,
                     from: nat := 0): (r: Option<nat>)
    requires from <= |internal|
    ensures r.Some? ==> from <= r.value < |internal| && r.value !in taken
                        && Eligible(external, internal[r.value], sameHash)
    ensures forall j :: from <= j < (if r.Some? then r.value else |internal|)
              ==> j in taken || !Eligible(external, internal[j], sameHash)
    decreases |internal| - from
  {
    if from == |internal| then None
    else if from !in taken && Eligible(external, internal[from], sameHash) then Some(from)
    else FirstFree(external, internal, taken, sameHash, from + 1)
  }

  function Add(p: Pairing, k: int, j: int): Pairing {
    Pairing(p.fwd[k := j], p.back[j := k])
  }

  /** One turn of a scan: external call `k`, unless already used, takes the first free candidate. */
  function Visit(external: seq<Call>, internal: seq<Call>, sameHash: bool, p: Pairing, k: nat): Pairing
    requires k < |external|
  {
    if k in p.fwd then p else
    match FirstFree(external[k], internal, p.back.Keys, sameHash)
    case Some(j) => Add(p, k, j)
    case None => p
  }

  /** The pairing after a scan over the first `n` external calls that began with pairing `start`. */
  function Pass(external: seq<Call>, internal: seq<Call>, sameHash: bool, start: Pairing, n: nat): Pairing
    requires n <= |external|
  {
    if n == 0 then start
    else Visit(external, internal, sameHash, Pass(external, internal, sameHash, start, n - 1), n - 1)
  }

  const NO_PAIRS := Pairing(map[], map[])

  function Matched(external: seq<Call>, internal: seq<Call>): Pairing {
    Pass(external, internal, true, NO_PAIRS, |external|)
  }

  function Final(external: seq<Call>, internal: seq<Call>): Pairing {
    Pass(external, internal, false, Matched(external, internal), |external|)
  }

  /** A scan only adds pairs, each eligible for it and each with an external call it has visited. */
  ghost predicate Extends(p: Pairing, start: Pairing, external: seq<Call>, internal: seq<Call>, sameHash: bool,
                          n: int) {
    && PairsInWindow(p, external, internal)
    && Size(start) <= Size(p)
    && (forall k :: k in start.fwd ==> k in p.fwd && p.fwd[k] == start.fwd[k])
    && (forall j :: j in start.back ==> j in p.back)
    && (forall k :: k in p.fwd && k !in start.fwd ==> k < n && Eligible(external[k], internal[p.fwd[k]], sameHash))
  }

  lemma AddKeeps(external: seq<Call>, internal: seq<Call>, p: Pairing, k: int, j: int)
    requires OneToOne(p, external, internal)
    requires 0 <= k < |external| && 0 <= j < |internal| && k !in p.fwd && j !in p.back
    ensures OneToOne(Add(p, k, j), external, internal) && Size(Add(p, k, j)) == Size(p) + 1
  {
  }

  /** A visit adds at most one pair, and when it adds none the visited call has no free candidate. */
  lemma VisitKeeps(external: seq<Call>, internal: seq<Call>, sameHash: bool, p: Pairing, k: nat)
    requires k < |external| && PairsInWindow(p, external, internal)
    ensures var v := Visit(external, internal, sameHash, p, k);
            && PairsInWindow(v, external, internal)
            && (v == p || (k !in p.fwd && k in v.fwd && v == Add(p, k, v.fwd[k]) && Size(v) == Size(p) + 1
                           && Eligible(external[k], internal[v.fwd[k]], sameHash)))
            && (forall l :: l in v.fwd ==> l in p.fwd || l == k)
            && (k !in v.fwd ==>
                  forall j :: 0 <= j < |internal| && j !in p.back ==> !Eligible(external[k], internal[j], sameHash))
  {
    match FirstFree(external[k], internal, p.back.Keys, sameHash)
    case Some(j) => if k !in p.fwd { AddKeeps(external, internal, p, k, j); }
    case None =>
  }

  lemma VisitExtends(external: seq<Call>, internal: seq<Call>, sameHash: bool, start: Pairing, p: Pairing, k: nat)
    requires k < |external| && Extends(p, start, external, internal, sameHash, k)
    ensures Extends(Visit(external, internal, sameHash, p, k), start, external, internal, sameHash, k + 1)
  {
    VisitKeeps(external, internal, sameHash, p, k);
  }

  lemma {:induction false} PassExtends(external: seq<Call>, internal: seq<Call>, sameHash: bool, start: Pairing, n: nat)
    requires n <= |external|
    requires PairsInWindow(start, external, internal)
    ensures Extends(Pass(external, internal, sameHash, start, n), start, external, internal, sameHash, n)
    decreases n
  {
    if n > 0 {
      hide Visit, Extends, PairsInWindow;
      PassExtends(external, internal, sameHash, start, n - 1);
      VisitExtends(external, internal, sameHash, start, Pass(external, internal, sameHash, start, n - 1), n - 1);
    }
  }

  /** Both scans over whole lists. */
  lemma ScansExtend(external: seq<Call>, internal: seq<Call>)
    ensures Explains(Matched(external, internal), external, internal)
    ensures Extends(Final(external, internal), Matched(external, internal), external, internal, false, |external|)
  {
    PassExtends(external, internal, true, NO_PAIRS, |external|);
    PassExtends(external, internal, false, Matched(external, internal), |external|);
  }

  // ----- The first scan finds a pairing of maximum size

  /** `m` does with the first `n` external calls exactly what `p` does. */
  ghost predicate AgreesBelow(m: Pairing, p: Pairing, n: int) {
    && (forall k :: k in p.fwd && k < n ==> k in m.fwd && m.fwd[k] == p.fwd[k])
    && (forall k :: k in m.fwd && k < n ==> k in p.fwd)
  }

  /** The exchange step: windows have equal width, so swapping two crossing pairs keeps both in the window. */
  lemma ExchangeFits(e: Call, later: Call, near: Call, far: Call)
    requires e.at <= later.at && near.at <= far.at
    requires Eligible(e, near, true) && Eligible(e, far, true) && Eligible(later, near, true)
    ensures Eligible(later, far, true)
  {
  }

  /** `m` does below `i` what the scan did (`p`), and the scan is about to pair `i` with `j`. */
  ghost predicate Exchangeable(external: seq<Call>, internal: seq<Call>, p: Pairing, m: Pairing, i: int, j: int) {
    && SortedByTime(external) && SortedByTime(internal)
    && OneToOne(p, external, internal) && (forall k :: k in p.fwd ==> k < i)
    && 0 <= i < |external| && 0 <= j < |internal|
    && j !in p.back && Eligible(external[i], internal[j], true)
    && (forall l :: 0 <= l < j && l !in p.back ==> !Eligible(external[i], internal[l], true))
    && Explains(m, external, internal) && AgreesBelow(m, p, i)
  }

  lemma BackAgrees(external: seq<Call>, internal: seq<Call>, p: Pairing, m: Pairing, i: int)
    requires OneToOne(p, external, internal) && (forall k :: k in p.fwd ==> k < i)
    requires OneToOne(m, external, internal) && AgreesBelow(m, p, i)
    ensures forall j :: j in p.back ==> j in m.back && m.back[j] == p.back[j] < i
    ensures forall j :: j in m.back && m.back[j] < i ==> j in p.back
  {
    forall j | j in p.back
      ensures j in m.back && m.back[j] == p.back[j] < i
    {
      var l := p.back[j];
      assert l in p.fwd && l in m.fwd && m.fwd[l] == j;
    }
    forall j | j in m.back && m.back[j] < i
      ensures j in p.back
    {
      var l := m.back[j];
      assert l in m.fwd && l in p.fwd && p.fwd[l] == j;
    }
  }

  /** The partners of external calls `i` and `k` exchanged. */
  function Swap(m: Pairing, i: int, k: int): Pairing
    requires i in m.fwd && k in m.fwd
  {
    Pairing(m.fwd[k := m.fwd[i]][i := m.fwd[k]], m.back[m.fwd[i] := k][m.fwd[k] := i])
  }

  lemma SwapKeeps(external: seq<Call>, internal: seq<Call>, m: Pairing, i: int, k: int)
    requires OneToOne(m, external, internal) && i in m.fwd && k in m.fwd && i != k
    ensures OneToOne(Swap(m, i, k), external, internal) && Size(Swap(m, i, k)) == Size(m)
  {
    assert Swap(m, i, k).fwd.Keys == m.fwd.Keys;
    assert m.fwd[i] != m.fwd[k];
  }

  lemma SwapExplains(external: seq<Call>, internal: seq<Call>, m: Pairing, i: int, k: int)
    requires Explains(m, external, internal) && i in m.fwd && k in m.fwd && i != k
    requires Eligible(external[i], internal[m.fwd[k]], true) && Eligible(external[k], internal[m.fwd[i]], true)
    ensures Explains(Swap(m, i, k), external, internal)
  {
    SwapKeeps(external, internal, m, i, k);
  }

  lemma SwapFits(external: seq<Call>, internal: seq<Call>, p: Pairing, m: Pairing, i: int, j: int)
    requires Exchangeable(external, internal, p, m, i, j)
    requires i in m.fwd && j in m.back && m.back[j] != i
    ensures i < m.back[j]
    ensures Eligible(external[m.back[j]], internal[m.fwd[i]], true)
  {
    BackAgrees(external, internal, p, m, i);
    ExchangeFits(external[i], external[m.back[j]], internal[j], internal[m.fwd[i]]);
  }

  /** `i` was paired with a later internal call and another external call had taken `j`: swap them. */
  lemma RerouteSwap(external: seq<Call>, internal: seq<Call>, p: Pairing, m: Pairing, i: int, j: int)
    requires Exchangeable(external, internal, p, m, i, j)
    requires i in m.fwd && j in m.back && m.back[j] != i
    ensures var r := Swap(m, i, m.back[j]);
            Explains(r, external, internal) && AgreesBelow(r, Add(p, i, j), i + 1) && Size(r) == Size(m)
  {
    SwapFits(external, internal, p, m, i, j);
    SwapKeeps(external, internal, m, i, m.back[j]);
    SwapExplains(external, internal, m, i, m.back[j]);
  }

  /** `k`'s internal call given to external call `i`. */
  function Steal(m: Pairing, i: int, k: int): Pairing
    requires k in m.fwd
  {
    Pairing((m.fwd - {k})[i := m.fwd[k]], m.back[m.fwd[k] := i])
  }

  lemma StealKeeps(external: seq<Call>, internal: seq<Call>, m: Pairing, i: int, k: int)
    requires OneToOne(m, external, internal) && 0 <= i < |external| && i !in m.fwd && k in m.fwd
    ensures OneToOne(Steal(m, i, k), external, internal) && Size(Steal(m, i, k)) == Size(m)
  {
    var cut := m.fwd - {k};
    assert cut.Keys == m.fwd.Keys - {k} && cut[i := m.fwd[k]].Keys == cut.Keys + {i};
  }

  /** `i` was left out and another external call had taken `j`: give `j` to `i`. */
  lemma RerouteSteal(external: seq<Call>, internal: seq<Call>, p: Pairing, m: Pairing, i: int, j: int)
    requires Exchangeable(external, internal, p, m, i, j)
    requires i !in m.fwd && j in m.back
    ensures var r := Steal(m, i, m.back[j]);
            Explains(r, external, internal) && AgreesBelow(r, Add(p, i, j), i + 1) && Size(r) == Size(m)
  {
    BackAgrees(external, internal, p, m, i);
    StealKeeps(external, internal, m, i, m.back[j]);
  }

  /** External call `i` moved from its partner, if any, to the free internal call `j`. */
  function Move(m: Pairing, i: int, j: int): Pairing {
    Pairing(m.fwd[i := j], (if i in m.fwd then m.back - {m.fwd[i]} else m.back)[j := i])
  }

  lemma MoveKeeps(external: seq<Call>, internal: seq<Call>, m: Pairing, i: int, j: int)
    requires OneToOne(m, external, internal)
    requires 0 <= i < |external| && 0 <= j < |internal| && j !in m.back
    ensures OneToOne(Move(m, i, j), external, internal) && Size(Move(m, i, j)) >= Size(m)
  {
    assert Move(m, i, j).fwd.Keys == m.fwd.Keys + {i};
  }

  /** Nobody had taken `j`. */
  lemma RerouteFree(external: seq<Call>, internal: seq<Call>, p: Pairing, m: Pairing, i: int, j: int)
    requires Exchangeable(external, internal, p, m, i, j)
    requires j !in m.back
    ensures var r := Move(m, i, j);
            Explains(r, external, internal) && AgreesBelow(r, Add(p, i, j), i + 1) && Size(r) >= Size(m)
  {
    MoveKeeps(external, internal, m, i, j);
  }

  lemma Reroute(external: seq<Call>, internal: seq<Call>, p: Pairing, m: Pairing, i: int, j: int) returns (r: Pairing)
    requires Exchangeable(external, internal, p, m, i, j)
    ensures Explains(r, external, internal) && AgreesBelow(r, Add(p, i, j), i + 1) && Size(r) >= Size(m)
  {
    if j !in m.back {
      RerouteFree(external, internal, p, m, i, j);
      r := Move(m, i, j);
    } else if m.back[j] == i {
      r := m;
    } else if i in m.fwd {
      RerouteSwap(external, internal, p, m, i, j);
      r := Swap(m, i, m.back[j]);
    } else {
      RerouteSteal(external, internal, p, m, i, j);
      r := Steal(m, i, m.back[j]);
    }
  }

  /** One visit of the scan, followed by the explanation `m`. */
  lemma VisitIsExtendable(external: seq<Call>, internal: seq<Call>, p: Pairing, m: Pairing, i: nat) returns (r: Pairing)
    requires SortedByTime(external) && SortedByTime(internal)
    requires i < |external| && PairsInWindow(p, external, internal) && (forall k :: k in p.fwd ==> k < i)
    requires Explains(m, external, internal) && AgreesBelow(m, p, i)
    ensures Explains(r, external, internal) && Size(m) <= Size(r)
    ensures AgreesBelow(r, Visit(external, internal, true, p, i), i + 1)
  {
    match FirstFree(external[i], internal, p.back.Keys, true)
    case Some(j) =>
      r := Reroute(external, internal, p, m, i, j);
    case None =>
      r := m;
      BackAgrees(external, internal, p, m, i);
  }

  lemma NothingVisited(external: seq<Call>, internal: seq<Call>, m: Pairing)
    requires Explains(m, external, internal)
    ensures AgreesBelow(m, NO_PAIRS, 0) && PairsInWindow(NO_PAIRS, external, internal)
  {
  }

  /** Every explanation can be turned into one at least as large that begins as the scan does. */
  lemma {:induction false} ScanIsExtendable(external: seq<Call>, internal: seq<Call>, m: Pairing, n: nat)
    returns (p: Pairing, r: Pairing)
    requires SortedByTime(external) && SortedByTime(internal)
    requires n <= |external| && Explains(m, external, internal)
    ensures p == Pass(external, internal, true, NO_PAIRS, n)
    ensures Explains(r, external, internal) && Size(m) <= Size(r) && AgreesBelow(r, p, n)
    ensures PairsInWindow(p, external, internal) && forall k :: k in p.fwd ==> k < n
    decreases n
  {
    hide AgreesBelow, Explains, Size, SortedByTime, Visit, PairsInWindow, Add, Eligible;
    if n == 0 {
      p, r := NO_PAIRS, m;
      NothingVisited(external, internal, m);
    } else {
      p, r := ScanIsExtendable(external, internal, m, n - 1);
      r := VisitIsExtendable(external, internal, p, r, n - 1);
      VisitKeeps(external, internal, true, p, n - 1);
      p := Visit(external, internal, true, p, n - 1);
    }
  }

  /** The first scan is a maximum matching. */
  lemma FirstScanIsMaximum(external: seq<Call>, internal: seq<Call>, m: Pairing)
    requires SortedByTime(external) && SortedByTime(internal)
    requires Explains(m, external, internal)
    ensures Size(m) <= Size(Matched(external, internal))
  {
    var p, r := ScanIsExtendable(external, internal, m, |external|);
    assert forall k :: k in r.fwd ==> k in p.fwd;
    SubsetSize(r.fwd.Keys, p.fwd.Keys);
    assert |r.fwd.Keys| == |r.fwd| && |p.fwd.Keys| == |p.fwd|;
  }

  // ----- Sizes

  function Below(n: nat): (s: set<int>)
    ensures |s| == n && forall k :: k in s <==> 0 <= k < n
  {
    if n == 0 then {} else Below(n - 1) + {n - 1}
  }

  lemma SubsetSize<T>(a: set<T>, b: set<T>)
    requires a <= b
    ensures |a| <= |b| && (|a| == |b| ==> a == b)
  {
    assert b == a + (b - a);
  }

  /** A map from indices below `n` has at most `n` entries, and `n` of them only if it is total. */
  lemma MapSize(m: map<int, int>, n: nat)
    requires forall k :: k in m ==> 0 <= k < n
    ensures |m| <= n
    ensures |m| == n <==> forall k :: 0 <= k < n ==> k in m
  {
    SubsetSize(m.Keys, Below(n));
    assert (forall k :: 0 <= k < n ==> k in m) ==> m.Keys == Below(n);
  }

  function Drop(p: Pairing, k: int): Pairing
    requires k in p.fwd
  {
    Pairing(p.fwd - {k}, p.back - {p.fwd[k]})
  }

  lemma DropKeeps(p: Pairing, external: seq<Call>, internal: seq<Call>, k: int)
    requires OneToOne(p, external, internal) && k in p.fwd
    ensures var q := Drop(p, k);
            OneToOne(q, external, internal) && |q.fwd| == |p.fwd| - 1 && |q.back| == |p.back| - 1
  {
    assert Drop(p, k).fwd.Keys == p.fwd.Keys - {k} && Drop(p, k).back.Keys == p.back.Keys - {p.fwd[k]};
  }

  lemma {:induction false} BothSidesAlike(p: Pairing, external: seq<Call>, internal: seq<Call>, n: nat)
    requires OneToOne(p, external, internal) && forall k :: k in p.fwd ==> k < n
    ensures |p.fwd| == |p.back|
    decreases n
  {
    if n == 0 {
      MapSize(p.fwd, 0);
      MapSize(p.back, 0);
    } else if n - 1 in p.fwd {
      DropKeeps(p, external, internal, n - 1);
      BothSidesAlike(Drop(p, n - 1), external, internal, n - 1);
    } else {
      BothSidesAlike(p, external, internal, n - 1);
    }
  }

  lemma SizeBounds(p: Pairing, external: seq<Call>, internal: seq<Call>)
    requires OneToOne(p, external, internal)
    ensures |p.fwd| == |p.back| <= |external| && |p.back| <= |internal|
    ensures Size(p) == |external| <==> forall k :: 0 <= k < |external| ==> k in p.fwd
    ensures Size(p) == |internal| <==> forall j :: 0 <= j < |internal| ==> j in p.back
  {
    BothSidesAlike(p, external, internal, |external|);
    MapSize(p.fwd, |external|);
    MapSize(p.back, |internal|);
  }

  // ----- The verdict

  /** Number of pairs the second scan adds: calls that met in the window with different hashes. */
  function Mismatches(external: seq<Call>, internal: seq<Call>): (n: nat)
    ensures n + Size(Matched(external, internal)) == Size(Final(external, internal))
  {
    ScansExtend(external, internal);
    Size(Final(external, internal)) - Size(Matched(external, internal))
  }

  /**
   Every call is paired and no pair is a mismatch exactly when the two lists can be explained by a
   hash-preserving bijection within the window.
   */
  lemma CleanIffExplainable(external: seq<Call>, internal: seq<Call>)
    requires SortedByTime(external) && SortedByTime(internal)
    ensures (&& Mismatches(external, internal) == 0
             && Size(Final(external, internal)) == |external| == |internal|)
            <==> exists m :: Bijection(m, external, internal)
  {
    var first, final := Matched(external, internal), Final(external, internal);
    ScansExtend(external, internal);
    SizeBounds(first, external, internal);
    SizeBounds(final, external, internal);
    if m :| Bijection(m, external, internal) {
      FirstScanIsMaximum(external, internal, m);
      SizeBounds(m, external, internal);
    }
    if Mismatches(external, internal) == 0 && Size(final) == |external| == |internal| {
      assert Bijection(first, external, internal);
    }
  }

  lemma VisitRefuses(external: seq<Call>, internal: seq<Call>, sameHash: bool, p: Pairing, i: nat, k: nat, j: nat)
    requires i < |external| && k < |external| && j < |internal| && PairsInWindow(p, external, internal)
    requires var v := Visit(external, internal, sameHash, p, i); k !in v.fwd && j !in v.back
    ensures k !in p.fwd && j !in p.back
    ensures i == k ==> !Eligible(external[k], internal[j], sameHash)
  {
    VisitKeeps(external, internal, sameHash, p, i);
  }

  lemma {:induction false} RefusedByScan(external: seq<Call>, internal: seq<Call>, sameHash: bool, start: Pairing,
                                         k: nat, j: nat, n: nat)
    requires k < n <= |external| && j < |internal|
    requires PairsInWindow(start, external, internal)
    requires var p := Pass(external, internal, sameHash, start, n); k !in p.fwd && j !in p.back
    ensures !Eligible(external[k], internal[j], sameHash)
    decreases n
  {
    hide Visit, Eligible;
    PassExtends(external, internal, sameHash, start, n - 1);
    VisitRefuses(external, internal, sameHash, Pass(external, internal, sameHash, start, n - 1), n - 1, k, j);
    if k < n - 1 { RefusedByScan(external, internal, sameHash, start, k, j, n - 1); }
  }

  /** No two calls left over by both scans meet in the window, whatever their hashes. */
  lemma FinalIsMaximal(external: seq<Call>, internal: seq<Call>, k: nat, j: nat)
    requires k < |external| && j < |internal|
    requires k !in Final(external, internal).fwd && j !in Final(external, internal).back
    ensures internal[j].at < external[k].at - 1 || internal[j].at > external[k].at + 1
  {
    ScansExtend(external, internal);
    RefusedByScan(external, internal, true, NO_PAIRS, k, j, |external|);
    RefusedByScan(external, internal, false, Matched(external, internal), k, j, |external|);
  }

  /** The final pairing is at least half as large as any pairing within the window. */
  lemma FinalIsHalfOfBest(external: seq<Call>, internal: seq<Call>, m: Pairing)
    requires PairsInWindow(m, external, internal)
    ensures Size(m) <= 2 * Size(Final(external, internal))
  {
    var f := Final(external, internal);
    ScansExtend(external, internal);
    SizeBounds(f, external, internal);
    var touched := Pairing(map k | k in m.fwd && m.fwd[k] in f.back :: m.fwd[k],
                           map j | j in m.back && j in f.back :: m.back[j]);
    SizeBounds(touched, external, internal);
    SubsetSize(touched.back.Keys, f.back.Keys);
    forall k | k in m.fwd
      ensures k in f.fwd.Keys + touched.fwd.Keys
    {
      if k !in f.fwd && m.fwd[k] !in f.back { FinalIsMaximal(external, internal, k, m.fwd[k]); }
    }
    SubsetSize(m.fwd.Keys, f.fwd.Keys + touched.fwd.Keys);
    assert |m.fwd.Keys| <= |f.fwd.Keys + touched.fwd.Keys| <= |f.fwd.Keys| + |touched.fwd.Keys|;
    assert |touched.back.Keys| == |touched.back| && |f.back.Keys| == |f.back|;
  }

  // ----- The order of the external calls does not matter for a bijection

  ghost predicate NoneTwice(calls: seq<Call>) {
    forall i, j :: 0 <= i < j < |calls| ==> calls[i] != calls[j]
  }

  lemma Indices(a: seq<Call>, b: seq<Call>) returns (at: seq<int>)
    requires forall c :: c in b ==> c in a
    ensures |at| == |b| && forall i :: 0 <= i < |b| ==> 0 <= at[i] < |a| && a[at[i]] == b[i]
  {
    at := [];
    for n := 0 to |b|
      invariant |at| == n && forall i :: 0 <= i < n ==> 0 <= at[i] < |a| && a[at[i]] == b[i]
    {
      assert b[n] in b;
      var k :| 0 <= k < |a| && a[k] == b[n];
      at := at + [k];
    }
  }

  lemma IndicesInvert(a: seq<Call>, b: seq<Call>, at: seq<int>, from: seq<int>)
    requires NoneTwice(b) && |at| == |b| && |from| == |a|
    requires forall i :: 0 <= i < |b| ==> 0 <= at[i] < |a| && a[at[i]] == b[i]
    requires forall k :: 0 <= k < |a| ==> 0 <= from[k] < |b| && b[from[k]] == a[k]
    ensures forall i :: 0 <= i < |b| ==> from[at[i]] == i
  {
    forall i | 0 <= i < |b|
      ensures from[at[i]] == i
    {
      assert b[from[at[i]]] == b[i];
    }
  }

  lemma BijectionFromSeqs(fwd: seq<int>, back: seq<int>, calls: seq<Call>, internal: seq<Call>) returns (m: Pairing)
    requires |fwd| == |calls| && |back| == |internal|
    requires forall k :: 0 <= k < |calls| ==> 0 <= fwd[k] < |internal| && back[fwd[k]] == k
    requires forall k :: 0 <= k < |calls| ==> Eligible(calls[k], internal[fwd[k]], true)
    requires forall j :: 0 <= j < |internal| ==> 0 <= back[j] < |calls| && fwd[back[j]] == j
    ensures Bijection(m, calls, internal)
  {
    m := Pairing(map k | 0 <= k < |calls| :: fwd[k], map j | 0 <= j < |internal| :: back[j]);
  }

  /** A bijection given by sequences, one for each direction. */
  lemma SeqsOfBijection(m: Pairing, calls: seq<Call>, internal: seq<Call>) returns (fwd: seq<int>, back: seq<int>)
    requires Bijection(m, calls, internal)
    ensures |fwd| == |calls| && |back| == |internal|
    ensures forall k :: 0 <= k < |calls| ==>
              0 <= fwd[k] < |internal| && back[fwd[k]] == k && Eligible(calls[k], internal[fwd[k]], true)
    ensures forall j :: 0 <= j < |internal| ==> 0 <= back[j] < |calls| && fwd[back[j]] == j
  {
    fwd := seq(|calls|, k requires 0 <= k < |calls| => m.fwd[k]);
    back := seq(|internal|, j requires 0 <= j < |internal| => m.back[j]);
  }

  lemma ReorderedBijection(a: seq<Call>, b: seq<Call>, internal: seq<Call>, m: Pairing) returns (r: Pairing)
    requires NoneTwice(a) && NoneTwice(b) && forall c :: c in a <==> c in b
    requires Bijection(m, a, internal)
    ensures Bijection(r, b, internal)
  {
    hide Eligible, Bijection, NoneTwice;
    var at := Indices(a, b);
    var from := Indices(b, a);
    IndicesInvert(a, b, at, from);
    IndicesInvert(b, a, from, at);
    var fwd, back := SeqsOfBijection(m, a, internal);
    var fwd' := seq(|b|, i requires 0 <= i < |b| => fwd[at[i]]);
    var back' := seq(|internal|, j requires 0 <= j < |internal| => from[back[j]]);
    r := BijectionFromSeqs(fwd', back', b, internal);
  }
}
