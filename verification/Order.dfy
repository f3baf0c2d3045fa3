/**
 String order and ascending sequences.

 Rust compares strings byte by byte over UTF-8, which is the order of their code points; `Less`
 is that order on sequences of code points.
 */
module Order {

  predicate Less(a: string, b: string) {
    b != [] && (a == [] || a[0] < b[0] || (a[0] == b[0] && Less(a[1..], b[1..])))
  }

  lemma {:induction false} LessIrreflexive(a: string)
    ensures !Less(a, a)
  {
    if a != [] { LessIrreflexive(a[1..]); }
  }

  lemma {:induction false} LessTransitive(a: string, b: string, c: string)
    requires Less(a, b) && Less(b, c)
    ensures Less(a, c)
  {
    if a != [] && a[0] == b[0] && b[0] == c[0] { LessTransitive(a[1..], b[1..], c[1..]); }
  }

  lemma {:induction false} LessTotal(a: string, b: string)
    ensures Less(a, b) || a == b || Less(b, a)
  {
    if a != [] && b != [] && a[0] == b[0] {
      LessTotal(a[1..], b[1..]);
      assert a == [a[0]] + a[1..] && b == [b[0]] + b[1..];
    }
  }

  /** The first difference decides, and a text comes after its proper prefixes. */
  lemma {:induction false} LessAtDifference(same: string, a: char, b: char, x: string, y: string)
    ensures a < b ==> Less(same + [a] + x, same + [b] + y) && !Less(same + [b] + y, same + [a] + x)
    ensures Less(same, same + [a] + x)
    decreases |same|
  {
    if same != "" {
      LessAtDifference(same[1..], a, b, x, y);
      assert (same + [a] + x)[1..] == same[1..] + [a] + x && (same + [b] + y)[1..] == same[1..] + [b] + y;
    }
  }

  ghost predicate StrictOrder<T(!new)>(less: (T, T) -> bool) {
    && (forall x :: !less(x, x))
    && (forall x, y, z :: less(x, y) && less(y, z) ==> less(x, z))
  }

  ghost predicate Ascending<T>(s: seq<T>, less: (T, T) -> bool) {
    forall i, j :: 0 <= i < j < |s| ==> less(s[i], s[j])
  }

  lemma HasMember<T>(s: seq<T>)
    ensures s != [] ==> exists x :: x in s
  {
    if s != [] { assert s[0] in s; }
  }

  /** A strictly ascending sequence is determined by its set of elements. */
  lemma {:induction false} AscendingUnique<T(!new)>(a: seq<T>, b: seq<T>, less: (T, T) -> bool)
    requires StrictOrder(less) && Ascending(a, less) && Ascending(b, less)
    requires forall x :: x in a <==> x in b
    ensures a == b
  {
    if a == [] {
      HasMember(b);
    } else {
      assert a[0] in b && b[0] in a;
      var i :| 0 <= i < |a| && a[i] == b[0];
      var j :| 0 <= j < |b| && b[j] == a[0];
      assert a[0] == b[0];
      forall x
        ensures x in a[1..] <==> x in b[1..]
      {
        assert x in a[1..] <==> x in a && x != a[0];
        assert x in b[1..] <==> x in b && x != b[0];
      }
      AscendingUnique(a[1..], b[1..], less);
      assert a == [a[0]] + a[1..] && b == [b[0]] + b[1..];
    }
  }

  // ----- Stable sorting

  /** Insertion behind everything that is not greater. */
  function InsertSorted<T>(s: seq<T>, x: T, less: (T, T) -> bool): seq<T> {
    if s == [] || !less(x, s[|s| - 1]) then s + [x]
    else InsertSorted(s[..|s| - 1], x, less) + [s[|s| - 1]]
  }

  /** What the library's stable sort makes of a list. */
  function Sort<T>(s: seq<T>, less: (T, T) -> bool): seq<T> {
    if s == [] then [] else InsertSorted(Sort(s[..|s| - 1], less), s[|s| - 1], less)
  }

  ghost predicate InOrder<T>(s: seq<T>, less: (T, T) -> bool) {
    forall i, j :: 0 <= i < j < |s| ==> !less(s[j], s[i])
  }

  /** Asymmetric, and "not less" is transitive. */
  ghost predicate WeakOrder<T(!new)>(less: (T, T) -> bool) {
    && (forall x, y :: less(x, y) ==> !less(y, x))
    && (forall x, y, z :: !less(y, x) && !less(z, y) ==> !less(z, x))
  }

  lemma {:induction false} InsertSortedMembers<T>(s: seq<T>, x: T, less: (T, T) -> bool)
    ensures multiset(InsertSorted(s, x, less)) == multiset(s) + multiset{x}
    decreases |s|
  {
    if s != [] {
      assert s == s[..|s| - 1] + [s[|s| - 1]];
      InsertSortedMembers(s[..|s| - 1], x, less);
    }
  }

  lemma NotLessBefore<T(!new)>(s: seq<T>, x: T, less: (T, T) -> bool)
    requires WeakOrder(less) && InOrder(s, less) && s != [] && !less(x, s[|s| - 1])
    ensures InOrder(s + [x], less)
  {
    forall i | 0 <= i < |s|
      ensures !less(x, s[i])
    {
      if i < |s| - 1 { assert !less(s[|s| - 1], s[i]); }
    }
  }

  lemma NotLessBehind<T(!new)>(s: seq<T>, last: T, less: (T, T) -> bool)
    requires InOrder(s, less) && forall y :: y in s ==> !less(last, y)
    ensures InOrder(s + [last], less)
  {
    assert forall i :: 0 <= i < |s| ==> s[i] in s;
  }

  lemma {:induction false} InsertSortedInOrder<T(!new)>(s: seq<T>, x: T, less: (T, T) -> bool)
    requires WeakOrder(less) && InOrder(s, less)
    ensures InOrder(InsertSorted(s, x, less), less)
    decreases |s|
  {
    if s != [] {
      var init, last := s[..|s| - 1], s[|s| - 1];
      if less(x, last) {
        InsertSortedInOrder(init, x, less);
        InsertSortedMembers(init, x, less);
        var r := InsertSorted(init, x, less);
        forall y | y in r
          ensures !less(last, y)
        {
          assert y in multiset(r);
          assert y == x || y in init;
        }
        NotLessBehind(r, last, less);
      } else {
        NotLessBefore(s, x, less);
      }
    }
  }

  lemma {:induction false} SortSorts<T(!new)>(s: seq<T>, less: (T, T) -> bool)
    requires WeakOrder(less)
    ensures InOrder(Sort(s, less), less) && multiset(Sort(s, less)) == multiset(s) && |Sort(s, less)| == |s|
    decreases |s|
  {
    hide WeakOrder;
    if s != [] {
      var init, last := s[..|s| - 1], s[|s| - 1];
      SortSorts(init, less);
      InsertSortedMembers(Sort(init, less), last, less);
      InsertSortedInOrder(Sort(init, less), last, less);
      assert s == init + [last];
    }
    assert |multiset(Sort(s, less))| == |Sort(s, less)| && |multiset(s)| == |s|;
  }

  predicate Tie<T>(x: T, y: T, less: (T, T) -> bool) {
    !less(x, y) && !less(y, x)
  }

  /** The elements that tie with `x`, in their order. */
  function Ties<T>(s: seq<T>, x: T, less: (T, T) -> bool): seq<T> {
    if s == [] then []
    else Ties(s[..|s| - 1], x, less) + if Tie(x, s[|s| - 1], less) then [s[|s| - 1]] else []
  }

  lemma TiesOfOneMore<T>(s: seq<T>, y: T, x: T, less: (T, T) -> bool)
    ensures Ties(s + [y], x, less) == Ties(s, x, less) + if Tie(x, y, less) then [y] else []
  {
    assert (s + [y])[..|s|] == s;
  }

  lemma TiesExclude<T(!new)>(x: T, y: T, last: T, less: (T, T) -> bool)
    requires WeakOrder(less) && less(y, last) && Tie(x, y, less)
    ensures !Tie(x, last, less)
  {
    assert !less(x, last) ==> !less(y, last);
  }

  lemma {:induction false} InsertKeepsTies<T(!new)>(s: seq<T>, y: T, x: T, less: (T, T) -> bool)
    requires WeakOrder(less)
    ensures Ties(InsertSorted(s, y, less), x, less) == Ties(s, x, less) + if Tie(x, y, less) then [y] else []
    decreases |s|
  {
    hide WeakOrder, Tie;
    TiesOfOneMore(s, y, x, less);
    if s != [] && less(y, s[|s| - 1]) {
      var init, last := s[..|s| - 1], s[|s| - 1];
      InsertKeepsTies(init, y, x, less);
      TiesOfOneMore(InsertSorted(init, y, less), last, x, less);
      if Tie(x, y, less) { TiesExclude(x, y, last, less); }
    }
  }

  /** Elements that tie keep their order. */
  lemma {:induction false} SortIsStable<T(!new)>(s: seq<T>, x: T, less: (T, T) -> bool)
    requires WeakOrder(less)
    ensures Ties(Sort(s, less), x, less) == Ties(s, x, less)
    decreases |s|
  {
    hide WeakOrder, Tie;
    if s != [] {
      SortIsStable(s[..|s| - 1], x, less);
      InsertKeepsTies(Sort(s[..|s| - 1], less), s[|s| - 1], x, less);
    }
  }

  lemma LessIsWeak()
    ensures WeakOrder(Less)
  {
    hide Less;
    forall x: string, y: string | Less(x, y)
      ensures !Less(y, x)
    {
      if Less(y, x) { LessTransitive(x, y, x); }
      LessIrreflexive(x);
    }
    forall x: string, y: string, z: string | !Less(y, x) && !Less(z, y)
      ensures !Less(z, x)
    {
      LessTotal(x, y);
      LessTotal(y, z);
      if x != y && y != z { LessTransitive(x, y, z); }
      if Less(x, z) && Less(z, x) { LessTransitive(x, z, x); }
      LessIrreflexive(x);
    }
  }
}
