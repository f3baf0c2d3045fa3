/** The joined byte string behind cache keys, and what it tells about the parts. */
module Ids {
  import opened Splitting
  import opened Text
  import opened Types
  import opened Wrappers

  const SEPARATOR: byte := 0x1f

  method CanonicalJoin(parts: seq<Bytes>) returns (buf: Bytes)
    ensures buf == Joined(parts, SEPARATOR)
  {
    buf := [];
    for i := 0 to |parts|
      invariant buf == Joined(parts[..i], SEPARATOR)
    {
      assert parts[..i + 1][..i] == parts[..i];
      if i > 0 { buf := buf + [SEPARATOR]; }
      buf := buf + parts[i];
    }
    assert parts[..|parts|] == parts;
  }

  /** One byte, the unit separator of ASCII, stands between each two parts. */
  lemma JoinedLaws(parts: seq<Bytes>, part: Bytes)
    ensures Joined([], SEPARATOR) == [] && Joined([part], SEPARATOR) == part
    ensures parts != [] ==> Joined(parts + [part], SEPARATOR) == Joined(parts, SEPARATOR) + [0x1f] + part
  {
    assert (parts + [part])[..|parts|] == parts;
  }

  /** Two lists share their joined bytes exactly when they have the same pieces. */
  lemma JoinedCollision(a: seq<Bytes>, b: seq<Bytes>)
    ensures Joined(a, SEPARATOR) == Joined(b, SEPARATOR) <==> Pieces(a, SEPARATOR) == Pieces(b, SEPARATOR)
  {
    SplitOfJoined(a, SEPARATOR);
    SplitOfJoined(b, SEPARATOR);
    JoinUndoesSplit(Joined(a, SEPARATOR), SEPARATOR);
    JoinUndoesSplit(Joined(b, SEPARATOR), SEPARATOR);
  }

  lemma JoinIsInjective(a: seq<Bytes>, b: seq<Bytes>)
    requires a != [] && b != [] && AllPlain(a, SEPARATOR) && AllPlain(b, SEPARATOR)
    ensures Joined(a, SEPARATOR) == Joined(b, SEPARATOR) ==> a == b
  {
    SplitUndoesJoin(a, SEPARATOR);
    SplitUndoesJoin(b, SEPARATOR);
  }

  /** The separator is a legal text character: texts that contain it can be confused. */
  lemma SeparatorInText()
    ensures DecodeUtf8([SEPARATOR]) == Some([SEPARATOR as char])
    ensures Joined([[65, SEPARATOR, 66]], SEPARATOR) == Joined([[65], [66]], SEPARATOR)
  {
    var s: Bytes := [SEPARATOR];
    assert s[1..] == [] && FirstChar(s) == Some((SEPARATOR as char, 1));
    assert [SEPARATOR as char] + "" == [SEPARATOR as char];
    var two: seq<Bytes> := [[65], [66]];
    assert two[..1] == [[65]];
  }

  // ----- The hash

  method CanonicalHash(hash: Bytes -> string, parts: seq<Bytes>) returns (key: string)
    ensures key == hash(Joined(parts, SEPARATOR))
  {
    var bytes := CanonicalJoin(parts);
    return hash(bytes);
  }

  ghost predicate Collides(hash: Bytes -> string, x: Bytes, y: Bytes) {
    x != y && hash(x) == hash(y)
  }

  /** A cache key shared by two different lists is a collision of the hash function itself. */
  lemma SharedKeyIsCollision(hash: Bytes -> string, a: seq<Bytes>, b: seq<Bytes>)
    requires a != [] && b != [] && AllPlain(a, SEPARATOR) && AllPlain(b, SEPARATOR)
    requires a != b && hash(Joined(a, SEPARATOR)) == hash(Joined(b, SEPARATOR))
    ensures Collides(hash, Joined(a, SEPARATOR), Joined(b, SEPARATOR))
  {
    JoinIsInjective(a, b);
  }
}
