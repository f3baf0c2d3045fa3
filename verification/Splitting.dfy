/** Lists joined by a separator, and strings split at it. */
module Splitting {

  /** The parts with the separator between them. */
  function Joined<T>(parts: seq<seq<T>>, sep: T): seq<T> {
    if parts == [] then []
    else if |parts| == 1 then parts[0]
    else Joined(parts[..|parts| - 1], sep) + [sep] + parts[|parts| - 1]
  }

  function Prepend<T(==)>(b: T, rest: seq<seq<T>>, sep: T): seq<seq<T>>
    requires rest != []
  {
    if b == sep then [[]] + rest else [[b] + rest[0]] + rest[1..]
  }

  /** The pieces between separators; a string without one is a single piece. */
  function Split<T(==)>(s: seq<T>, sep: T): (r: seq<seq<T>>)
    ensures r != []
  {
    if s == [] then [[]] else Prepend(s[0], Split(s[1..], sep), sep)
  }

  ghost predicate AllPlain<T>(parts: seq<seq<T>>, sep: T) {
    forall i :: 0 <= i < |parts| ==> sep !in parts[i]
  }

  lemma {:induction false} SplitIsPlain<T>(s: seq<T>, sep: T)
    ensures AllPlain(Split(s, sep), sep)
  {
    if s != [] { SplitIsPlain(s[1..], sep); }
  }

  lemma {:induction false} SplitOfPlain<T>(s: seq<T>, sep: T)
    requires sep !in s
    ensures Split(s, sep) == [s]
  {
    if s != [] {
      SplitOfPlain(s[1..], sep);
      assert s == [s[0]] + s[1..];
    }
  }

  lemma PrependToPieces<T>(b: T, r: seq<seq<T>>, t: seq<seq<T>>, sep: T)
    requires r != []
    ensures Prepend(b, r + t, sep) == Prepend(b, r, sep) + t
  {
  }

  lemma PrependSeparator<T>(rest: seq<seq<T>>, sep: T)
    requires rest != []
    ensures Prepend(sep, rest, sep) == [[]] + rest
  {
  }

  lemma {:induction false} SplitAtSeparator<T>(s: seq<T>, t: seq<T>, sep: T)
    ensures Split(s + [sep] + t, sep) == Split(s, sep) + Split(t, sep)
  {
    hide Prepend;
    var u := s + [sep] + t;
    if s == [] {
      assert u[1..] == t && u[0] == sep;
      PrependSeparator(Split(t, sep), sep);
    } else {
      SplitAtSeparator(s[1..], t, sep);
      assert u[1..] == s[1..] + [sep] + t && u[0] == s[0];
      PrependToPieces(s[0], Split(s[1..], sep), Split(t, sep), sep);
    }
  }

  /** What a joined string still tells about the parts: their pieces, in order. */
  function Pieces<T(==)>(parts: seq<seq<T>>, sep: T): seq<seq<T>> {
    if parts == [] then [[]]
    else if |parts| == 1 then Split(parts[0], sep)
    else Pieces(parts[..|parts| - 1], sep) + Split(parts[|parts| - 1], sep)
  }

  lemma {:induction false} SplitOfJoined<T>(parts: seq<seq<T>>, sep: T)
    ensures Split(Joined(parts, sep), sep) == Pieces(parts, sep)
    decreases |parts|
  {
    if |parts| > 1 {
      SplitOfJoined(parts[..|parts| - 1], sep);
      SplitAtSeparator(Joined(parts[..|parts| - 1], sep), parts[|parts| - 1], sep);
    }
  }

  lemma {:induction false} PiecesOfPlain<T>(parts: seq<seq<T>>, sep: T)
    requires parts != [] && AllPlain(parts, sep)
    ensures Pieces(parts, sep) == parts
    decreases |parts|
  {
    SplitOfPlain(parts[|parts| - 1], sep);
    if |parts| > 1 { PiecesOfPlain(parts[..|parts| - 1], sep); }
  }

  /** Splitting undoes joining exactly on non-empty lists of parts without the separator. */
  lemma SplitUndoesJoin<T>(parts: seq<seq<T>>, sep: T)
    ensures Split(Joined(parts, sep), sep) == parts <==> parts != [] && AllPlain(parts, sep)
  {
    SplitIsPlain(Joined(parts, sep), sep);
    if parts != [] && AllPlain(parts, sep) {
      SplitOfJoined(parts, sep);
      PiecesOfPlain(parts, sep);
    }
  }

  /** Joining undoes splitting on every string. */
  lemma {:induction false} JoinUndoesSplit<T>(s: seq<T>, sep: T)
    ensures Joined(Split(s, sep), sep) == s
  {
    if s != [] {
      var rest := Split(s[1..], sep);
      JoinUndoesSplit(s[1..], sep);
      if s[0] == sep {
        JoinFirst([], rest, sep);
        assert s == [] + [sep] + s[1..];
      } else {
        JoinGrowsFirst(s[0], rest, sep);
      }
    }
  }

  lemma {:induction false} JoinFirst<T>(part: seq<T>, rest: seq<seq<T>>, sep: T)
    requires rest != []
    ensures Joined([part] + rest, sep) == part + [sep] + Joined(rest, sep)
    decreases |rest|
  {
    var all := [part] + rest;
    assert all[..|all| - 1] == [part] + rest[..|rest| - 1];
    if |rest| > 1 {
      JoinFirst(part, rest[..|rest| - 1], sep);
    } else {
      assert all[..1] == [part] && Joined([part], sep) == part;
    }
  }

  lemma {:induction false} JoinGrowsFirst<T>(b: T, rest: seq<seq<T>>, sep: T)
    requires rest != []
    ensures Joined([[b] + rest[0]] + rest[1..], sep) == [b] + Joined(rest, sep)
    decreases |rest|
  {
    var all := [[b] + rest[0]] + rest[1..];
    if |rest| > 1 {
      JoinGrowsFirst(b, rest[..|rest| - 1], sep);
      assert all[..|all| - 1] == [[b] + rest[0]] + rest[..|rest| - 1][1..];
    }
  }
}
