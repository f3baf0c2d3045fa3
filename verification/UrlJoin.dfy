/** The upstream address of a request: the configured base joined with the request target. */
module UrlJoin {
  import opened Wrappers
  import opened Splitting

  datatype Url = Url(origin: string, path: string, query: Option<string>, fragment: Option<string>)
  datatype UrlError = AbsoluteTarget | InvalidUpstream

  function NonEmpty(parts: seq<string>): seq<string> {
    if parts == [] then [] else (if parts[0] == "" then [] else [parts[0]]) + NonEmpty(parts[1..])
  }

  function Segments(path: string): seq<string> {
    NonEmpty(Split(path, '/'))
  }

  function PathOf(target: string): string {
    Split(target, '?')[0]
  }

  function QueryOf(target: string): Option<string> {
    if |PathOf(target)| < |target| then Some(target[|PathOf(target)| + 1..]) else None
  }

  /** A target is its path, and behind the first question mark its query. */
  lemma TargetParts(target: string)
    ensures '?' !in PathOf(target)
    ensures QueryOf(target) == None ==> target == PathOf(target)
    ensures QueryOf(target).Some? ==> target == PathOf(target) + "?" + QueryOf(target).value
  {
    FirstPiece(target, '?');
  }

  lemma {:induction false} FirstPiece(s: string, sep: char)
    ensures var first := Split(s, sep)[0];
            sep !in first && first <= s && (|first| < |s| ==> s[|first|] == sep)
  {
    if s != "" { FirstPiece(s[1..], sep); }
  }

  lemma {:induction false} NonEmptyAppend(a: seq<string>, b: seq<string>)
    ensures NonEmpty(a + b) == NonEmpty(a) + NonEmpty(b)
    decreases |a|
  {
    if a == [] {
      assert a + b == b;
    } else {
      assert (a + b)[1..] == a[1..] + b;
      NonEmptyAppend(a[1..], b);
    }
  }

  /** Slashes separate segments, and empty segments do not count. */
  lemma SegmentLaws(a: string, b: string)
    ensures Segments(a + "/" + b) == Segments(a) + Segments(b)
    ensures '/' !in a ==> Segments(a) == if a == "" then [] else [a]
  {
    SplitAtSeparator(a, b, '/');
    assert a + ['/'] + b == a + "/" + b;
    NonEmptyAppend(Split(a, '/'), Split(b, '/'));
    if '/' !in a {
      SplitOfPlain(a, '/');
      var one := [a];
      assert one[1..] == [];
    }
  }

  // ----- Joining segment lists

  predicate IsSuffix(s: seq<string>, of: seq<string>) {
    |s| <= |of| && of[|of| - |s|..] == s
  }

  ghost predicate IsJoin(l: seq<string>, base: seq<string>, target: seq<string>) {
    base <= l && IsSuffix(target, l)
  }

  /** The only shortest list that starts with the base and ends with the target. */
  ghost predicate IsShortestJoin(l: seq<string>, base: seq<string>, target: seq<string>) {
    IsJoin(l, base, target) && forall m :: IsJoin(m, base, target) ==> m == l || |l| < |m|
  }

  predicate Overlap(base: seq<string>, target: seq<string>, n: nat) {
    n <= |base| && n <= |target| && base[|base| - n..] == target[..n]
  }

  method JoinSegments(base: seq<string>, target: seq<string>) returns (combined: seq<string>)
    ensures IsShortestJoin(combined, base, target)
    ensures forall s :: s in combined ==> s in base || s in target
  {
    var overlap: nat := if |base| < |target| then |base| else |target|;
    while !Overlap(base, target, overlap)
      invariant overlap <= |base| && overlap <= |target|
      invariant forall n :: overlap < n ==> !Overlap(base, target, n)
      decreases overlap
    {
      assert overlap != 0;
      overlap := overlap - 1;
    }
    combined := base + target[overlap..];
    LargestOverlapIsShortest(base, target, overlap);
  }

  lemma LargestOverlapIsShortest(base: seq<string>, target: seq<string>, n: nat)
    requires Overlap(base, target, n) && forall m :: n < m ==> !Overlap(base, target, m)
    ensures IsShortestJoin(base + target[n..], base, target)
  {
    hide Overlap;
    OverlapJoins(base, target, n);
    var l := base + target[n..];
    forall m | IsJoin(m, base, target)
      ensures m == l || |l| < |m|
    {
      JoinOverlaps(m, base, target);
    }
  }

  lemma OverlapJoins(base: seq<string>, target: seq<string>, n: nat)
    requires Overlap(base, target, n)
    ensures n <= |target| && IsJoin(base + target[n..], base, target)
  {
    assert target == target[..n] + target[n..];
    assert (base + target[n..])[|base| - n..] == base[|base| - n..] + target[n..];
  }

  /** What a join shares between base and target is an overlap. */
  lemma JoinOverlaps(m: seq<string>, base: seq<string>, target: seq<string>)
    requires IsJoin(m, base, target)
    ensures var n := |base| + |target| - |m|;
            n >= 0 ==> Overlap(base, target, n) && m == base + target[n..]
    ensures |m| == |base| + |target| ==> m == base + target
  {
    var k := |m| - |target|;
    assert m[k..] == target;
    if k <= |base| {
      var n := |base| - k;
      assert forall i :: 0 <= i < n ==> base[k + i] == m[k + i] == target[i];
      assert forall i :: n <= i < |target| ==> m[k + i] == target[i];
      assert m == base + target[n..];
    }
  }

  /** A target that carries the whole base is used as it is. */
  lemma TargetCarriesBase(l: seq<string>, base: seq<string>, target: seq<string>)
    requires IsShortestJoin(l, base, target)
    ensures l == target <==> base <= target
  {
    if base <= target { assert IsJoin(target, base, target); }
  }

  /** A target that the base already ends with adds nothing, so joining twice is joining once. */
  lemma BaseCarriesTarget(l: seq<string>, base: seq<string>, target: seq<string>)
    requires IsShortestJoin(l, base, target)
    ensures l == base <==> IsSuffix(target, base)
    ensures IsShortestJoin(l, l, target)
  {
    if IsSuffix(target, base) { assert IsJoin(base, base, target); }
  }

  // ----- Paths

  lemma {:induction false} NonEmptyMembers(parts: seq<string>)
    ensures forall s :: s in NonEmpty(parts) <==> s in parts && s != ""
  {
    if parts != [] {
      NonEmptyMembers(parts[1..]);
      assert forall s :: s in parts <==> s == parts[0] || s in parts[1..];
    }
  }

  lemma {:induction false} NonEmptyKeeps(parts: seq<string>)
    requires "" !in parts
    ensures NonEmpty(parts) == parts
  {
    if parts != [] { NonEmptyKeeps(parts[1..]); }
  }

  lemma SegmentsArePlain(path: string)
    ensures forall s :: s in Segments(path) ==> s != "" && '/' !in s
  {
    SplitIsPlain(path, '/');
    NonEmptyMembers(Split(path, '/'));
  }

  // ----- Storing a path

  /** Characters that never reach a stored path: a backslash stands for a slash, the others are dropped. */
  predicate Special(c: char) {
    c == '\\' || IsDropped(c)
  }

  predicate IsDropped(c: char) {
    c == '\t' || c == '\n' || c == '\r'
  }

  function Cleaned(s: string): string {
    if s == "" then ""
    else if IsDropped(s[0]) then Cleaned(s[1..])
    else (if s[0] == '\\' then "/" else [s[0]]) + Cleaned(s[1..])
  }

  lemma {:induction false} CleanedAppend(a: string, b: string)
    ensures Cleaned(a + b) == Cleaned(a) + Cleaned(b)
    decreases |a|
  {
    if a == "" {
      assert a + b == b;
    } else {
      assert (a + b)[1..] == a[1..] + b;
      CleanedAppend(a[1..], b);
    }
  }

  /** Tabs and line breaks go, a backslash becomes a slash, everything else stays. */
  lemma CleanedLaws(a: string, c: char, b: string)
    ensures Cleaned(a + [c] + b)
            == Cleaned(a) + (if c in "\t\n\r" then "" else if c == '\\' then "/" else [c]) + Cleaned(b)
  {
    hide Cleaned;
    CleanedAppend(a + [c], b);
    CleanedAppend(a, [c]);
    CleanedCharacter(c);
  }

  lemma CleanedCharacter(c: char)
    ensures Cleaned([c]) == if c in "\t\n\r" then "" else if c == '\\' then "/" else [c]
  {
    assert [c][1..] == "" && Cleaned("") == "";
  }

  /** How many dots a segment consists of, `%2e` being one; none if it has any other character. */
  function Dots(s: string): Option<nat>
    decreases |s|
  {
    if s == "" then Some(0)
    else if s[0] == '.' then MoreDots(Dots(s[1..]))
    else if StartsWithEscapedDot(s) then MoreDots(Dots(s[3..]))
    else None
  }

  function MoreDots(n: Option<nat>): Option<nat> {
    if n.Some? then Some(n.value + 1) else None
  }

  predicate StartsWithEscapedDot(s: string) {
    |s| >= 3 && s[0] == '%' && s[1] == '2' && (s[2] == 'e' || s[2] == 'E')
  }

  predicate IsDotSegment(s: string) {
    Dots(s) == Some(1) || Dots(s) == Some(2)
  }

  /** The spellings of a dot. */
  predicate IsDot(s: string) {
    s == "." || s == "%2e" || s == "%2E"
  }

  lemma DotIsOne(s: string)
    ensures Dots(s) == Some(0) <==> s == ""
    ensures Dots(s) == Some(1) <==> IsDot(s)
  {
    if StartsWithEscapedDot(s) { assert s == s[..3] + s[3..] && (s[..3] == "%2e" || s[..3] == "%2E"); }
    if s != "" && s[0] == '.' { assert s == "." + s[1..]; }
    if s == "." || s == "%2e" || s == "%2E" { assert s == "." ==> s[1..] == ""; }
    assert s == "%2e" || s == "%2E" ==> StartsWithEscapedDot(s) && s[3..] == "";
  }

  /** The segment is one dot followed by another, however they are spelt. */
  ghost predicate IsTwoDots(s: string) {
    exists a, b :: IsDot(a) && IsDot(b) && s == a + b
  }

  /** The dot segments, literally. */
  lemma DotSegments(s: string)
    ensures Dots(s) == Some(1) <==> IsDot(s)
    ensures Dots(s) == Some(2) <==> IsTwoDots(s)
    ensures IsDotSegment(s) <==> IsDot(s) || IsTwoDots(s)
  {
    DotIsOne(s);
    if Dots(s) == Some(2) {
      if s[0] == '.' {
        DotIsOne(s[1..]);
        assert IsDot(".") && s == "." + s[1..];
      } else {
        DotIsOne(s[3..]);
        assert s == s[..3] + s[3..] && (s[..3] == "%2e" || s[..3] == "%2E");
        assert IsDot(s[..3]);
      }
    }
    if IsTwoDots(s) {
      var a, b :| IsDot(a) && IsDot(b) && s == a + b;
      TwoDotsAre(a, b);
    }
  }

  lemma TwoDotsAre(a: string, b: string)
    requires IsDot(a) && IsDot(b)
    ensures Dots(a + b) == Some(2)
  {
    DotIsOne(b);
    assert a == "." ==> (a + b)[1..] == b;
    assert a != "." ==> StartsWithEscapedDot(a + b) && (a + b)[3..] == b;
  }

  /**
   Removal of dot segments: two dots take the segment before them away, and either kind at the end leaves an
   empty segment.
   */
  function Resolved(segments: seq<string>, last: bool := true): seq<string> {
    if segments == [] then [] else
      var before, s := Resolved(segments[..|segments| - 1], false), segments[|segments| - 1];
      var end := if last then [""] else [];
      if Dots(s) == Some(2) then (if before == [] then [] else before[..|before| - 1]) + end
      else if Dots(s) == Some(1) then before + end
      else before + [s]
  }

  lemma ResolvedStep(a: seq<string>, s: string, last: bool)
    ensures var before, end := Resolved(a, false), if last then [""] else [];
            Resolved(a + [s], last)
            == if Dots(s) == Some(2) then (if before == [] then [] else before[..|before| - 1]) + end
               else if Dots(s) == Some(1) then before + end
               else before + [s]
  {
    hide Dots;
    assert (a + [s])[..|a|] == a;
  }

  /** What resolving makes of more segments depends on the first ones only through what it made of those. */
  lemma {:induction false} ResolvedBehind(a: seq<string>, b: seq<string>, more: seq<string>, last: bool)
    requires Resolved(a, false) == Resolved(b, false) && more != []
    ensures Resolved(a + more, last) == Resolved(b + more, last)
    decreases |more|
  {
    hide Resolved, Dots;
    var init, s := more[..|more| - 1], more[|more| - 1];
    assert a + more == (a + init) + [s] && b + more == (b + init) + [s];
    if init == [] {
      assert a + init == a && b + init == b;
    } else {
      ResolvedBehind(a, b, init, false);
    }
    ResolvedStep(a + init, s, last);
    ResolvedStep(b + init, s, last);
  }

  /**
   Dots in the middle of a path: one dot is nothing, two dots and the segment before them are nothing, and two
   dots at the start are nothing. At the end either kind leaves an empty segment.
   */
  lemma ResolvedLaws(a: seq<string>, s: string, one: string, two: string, more: seq<string>)
    requires !IsDotSegment(s) && IsDot(one) && IsTwoDots(two) && more != []
    ensures Resolved(a + [one] + more) == Resolved(a + more)
    ensures Resolved(a + [s] + [two] + more) == Resolved(a + more)
    ensures Resolved([two] + more) == Resolved(more)
    ensures Resolved(a + [one]) == Resolved(a, false) + [""] && Resolved(a + [s] + [two]) == Resolved(a, false) + [""]
  {
    hide Dots, Resolved, IsDot, IsTwoDots;
    DotSegments(s);
    DotSegments(one);
    DotSegments(two);
    ResolvedStep(a, one, false);
    ResolvedStep(a, one, true);
    ResolvedStep(a, s, false);
    ResolvedStep(a + [s], two, false);
    ResolvedStep(a + [s], two, true);
    ResolvedBehind(a + [one], a, more, true);
    ResolvedBehind(a + [s] + [two], a, more, true);
    NothingResolved();
    ResolvedStep([], two, false);
    assert [] + [two] == [two] && [] + more == more;
    ResolvedBehind([two], [], more, true);
  }

  lemma NothingResolved()
    ensures Resolved([], false) == []
  {
  }

  /** What the URL library writes for the characters of a path. */
  type Escape = char -> string

  /** The URL library: parsing, and percent-encoding when a path is stored. */
  datatype Library = Library(parse: string -> Option<Url>, escape: Escape)

  function Escaped(escape: Escape, s: string): string {
    if s == "" then "" else escape(s[0]) + Escaped(escape, s[1..])
  }

  function EscapedAll(escape: Escape, segments: seq<string>): seq<string> {
    seq(|segments|, i requires 0 <= i < |segments| => Escaped(escape, segments[i]))
  }

  /**
   Percent-encoding: a character stands for itself or becomes a percent sign and hexadecimal digits,
   which spell no dot. Special characters are never encoded, as they never reach the encoder.
   */
  ghost predicate PercentEncodes(escape: Escape) {
    && (forall c :: c in "%.2eE" || Special(c) ==> escape(c) == [c])
    && (forall c :: escape(c) == [c] || IsEncoded(escape(c)))
  }

  predicate IsEncoded(s: string) {
    && |s| >= 3 && s[0] == '%' && !StartsWithEscapedDot(s)
    && forall i :: 0 <= i < |s| ==> s[i] != '/' && !Special(s[i])
  }

  /** `Url::set_path` with a path that starts with a slash. */
  function SetPath(escape: Escape, path: string): string
    requires "/" <= path
  {
    "/" + Joined(Resolved(EscapedAll(escape, Split(Cleaned(path[1..]), '/'))), '/')
  }

  /** A segment that is stored as one segment and kept. */
  predicate IsKept(s: string) {
    !IsDotSegment(s) && forall i :: 0 <= i < |s| ==> !Special(s[i])
  }

  ghost predicate AllKept(segments: seq<string>) {
    forall i :: 0 <= i < |segments| ==> IsKept(segments[i])
  }

  lemma {:induction false} EscapedHas(escape: Escape, s: string, i: nat)
    requires i < |s| && escape(s[i]) == [s[i]]
    ensures s[i] in Escaped(escape, s)
  {
    if i == 0 {
      assert Escaped(escape, s)[0] == s[0];
    } else {
      EscapedHas(escape, s[1..], i - 1);
    }
  }

  lemma {:induction false} EscapedIsPlain(escape: Escape, s: string)
    requires PercentEncodes(escape) && '/' !in s && forall i :: 0 <= i < |s| ==> !Special(s[i])
    ensures |Escaped(escape, s)| >= |s|
    ensures forall i :: 0 <= i < |Escaped(escape, s)| ==>
              Escaped(escape, s)[i] != '/' && !Special(Escaped(escape, s)[i])
  {
    hide Special, StartsWithEscapedDot;
    if s != "" {
      EscapedIsPlain(escape, s[1..]);
      assert escape(s[0]) == [s[0]] || IsEncoded(escape(s[0]));
    }
  }

  /** Encoding neither makes nor breaks a first character that is not a percent sign. */
  lemma EscapedStarts(escape: Escape, s: string, c: char)
    requires PercentEncodes(escape) && escape(c) == [c] && c != '%'
    ensures (Escaped(escape, s) != "" && Escaped(escape, s)[0] == c) <==> (s != "" && s[0] == c)
    ensures s != "" && s[0] == c ==> Escaped(escape, s) == [c] + Escaped(escape, s[1..])
  {
    if s != "" {
      assert escape(s[0]) == [s[0]] || IsEncoded(escape(s[0]));
    }
  }

  predicate StartsWithE(s: string) {
    s != "" && (s[0] == 'e' || s[0] == 'E')
  }

  predicate StartsWithTwoE(s: string) {
    s != "" && s[0] == '2' && StartsWithE(s[1..])
  }

  lemma EscapedDotTail(s: string)
    ensures StartsWithEscapedDot(s) <==> s != "" && s[0] == '%' && StartsWithTwoE(s[1..])
  {
    if |s| >= 3 { assert s[1..][1..][0] == s[2]; }
  }

  lemma EscapedE(escape: Escape, s: string)
    requires PercentEncodes(escape)
    ensures StartsWithE(Escaped(escape, s)) <==> StartsWithE(s)
  {
    assert escape('e') == ['e'] && escape('E') == ['E'];
    hide Escaped, PercentEncodes;
    EscapedStarts(escape, s, 'e');
    EscapedStarts(escape, s, 'E');
  }

  lemma EscapedTwoE(escape: Escape, s: string)
    requires PercentEncodes(escape)
    ensures StartsWithTwoE(Escaped(escape, s)) <==> StartsWithTwoE(s)
  {
    assert escape('2') == ['2'];
    hide Escaped, PercentEncodes, StartsWithE;
    EscapedStarts(escape, s, '2');
    if s != "" && s[0] == '2' {
      EscapedE(escape, s[1..]);
      assert (['2'] + Escaped(escape, s[1..]))[1..] == Escaped(escape, s[1..]);
    }
  }

  lemma FirstIsFixed(escape: Escape, s: string)
    requires s != "" && escape(s[0]) == [s[0]]
    ensures Escaped(escape, s) != "" && Escaped(escape, s)[0] == s[0]
    ensures Escaped(escape, s)[1..] == Escaped(escape, s[1..])
    ensures Escaped(escape, s) == [s[0]] + Escaped(escape, s[1..])
  {
  }

  /** An escaped dot after encoding was one before. */
  lemma EscapedThree(escape: Escape, s: string)
    requires PercentEncodes(escape) && s != "" && s[0] == '%'
    ensures StartsWithEscapedDot(Escaped(escape, s)) <==> StartsWithEscapedDot(s)
  {
    assert escape('%') == ['%'];
    hide Escaped, PercentEncodes, StartsWithTwoE, StartsWithEscapedDot;
    FirstIsFixed(escape, s);
    EscapedTwoE(escape, s[1..]);
    EscapedDotTail(s);
    EscapedDotTail(Escaped(escape, s));
  }

  lemma EscapedDotKept(escape: Escape, s: string)
    requires PercentEncodes(escape) && StartsWithEscapedDot(s)
    ensures Escaped(escape, s) == s[..3] + Escaped(escape, s[3..])
  {
    assert escape(s[0]) == [s[0]] && escape(s[1]) == [s[1]] && escape(s[2]) == [s[2]];
    hide PercentEncodes;
    FirstIsFixed(escape, s);
    FirstIsFixed(escape, s[1..]);
    assert s[1..][1..] == s[2..] && s[2..][1..] == s[3..];
    assert Escaped(escape, s[2..]) == [s[2]] + Escaped(escape, s[3..]);
    assert Escaped(escape, s) == [s[0]] + ([s[1]] + ([s[2]] + Escaped(escape, s[3..])));
  }

  /** A character that is encoded starts no dot. */
  lemma EncodedIsNoDot(escape: Escape, s: string)
    requires PercentEncodes(escape) && s != "" && escape(s[0]) != [s[0]]
    ensures s[0] != '.' && s[0] != '%' && Dots(s) == None
    ensures Dots(Escaped(escape, s)) == None
  {
    assert IsEncoded(escape(s[0]));
    assert Escaped(escape, s)[..3] == escape(s[0])[..3];
  }

  /** Encoding makes no dots: a segment is dots when encoded exactly if it was, and then it is unchanged. */
  lemma {:induction false} EscapedDots(escape: Escape, s: string)
    requires PercentEncodes(escape)
    ensures Dots(Escaped(escape, s)) == Dots(s)
    ensures Dots(s).Some? ==> Escaped(escape, s) == s
    decreases |s|, 1
  {
    if s != "" {
      if escape(s[0]) != [s[0]] {
        EncodedIsNoDot(escape, s);
      } else if s[0] == '.' {
        assert Escaped(escape, s)[1..] == Escaped(escape, s[1..]);
        EscapedDots(escape, s[1..]);
      } else if s[0] == '%' {
        hide PercentEncodes, StartsWithEscapedDot;
        EscapedThree(escape, s);
        if StartsWithEscapedDot(s) {
          EscapedDotKept(escape, s);
          EscapedDotFirst(escape, s);
        }
      }
    }
  }

  lemma EscapedDotFirst(escape: Escape, s: string)
    requires PercentEncodes(escape) && StartsWithEscapedDot(s)
    requires Escaped(escape, s) == s[..3] + Escaped(escape, s[3..])
    ensures Dots(Escaped(escape, s)) == Dots(s)
    ensures Dots(s).Some? ==> Escaped(escape, s) == s
    decreases |s|, 0
  {
    hide Escaped, PercentEncodes;
    EscapedDots(escape, s[3..]);
    assert (s[..3] + Escaped(escape, s[3..]))[3..] == Escaped(escape, s[3..]);
    assert s == s[..3] + s[3..];
  }

  predicate NoSpecial(s: string) {
    forall i :: 0 <= i < |s| ==> !Special(s[i])
  }

  lemma {:induction false} CleanedIsPlain(s: string)
    ensures NoSpecial(Cleaned(s)) && (NoSpecial(s) ==> Cleaned(s) == s)
  {
    if s != "" { CleanedIsPlain(s[1..]); }
  }

  lemma {:induction false} PiecesArePlain(s: string)
    requires NoSpecial(s)
    ensures forall i :: 0 <= i < |Split(s, '/')| ==> NoSpecial(Split(s, '/')[i])
  {
    if s != "" { PiecesArePlain(s[1..]); }
  }

  lemma {:induction false} JoinedIsPlain(segments: seq<string>)
    requires forall i :: 0 <= i < |segments| ==> NoSpecial(segments[i])
    ensures NoSpecial(Joined(segments, '/'))
  {
    if |segments| > 1 { JoinedIsPlain(segments[..|segments| - 1]); }
  }

  lemma {:induction false} ResolvedMembers(segments: seq<string>, last: bool)
    ensures forall s :: s in Resolved(segments, last) ==> s == "" || (s in segments && !IsDotSegment(s))
    decreases |segments|
  {
    hide Dots;
    if segments != [] {
      var init, end := segments[..|segments| - 1], if last then [""] else [];
      ResolvedMembers(init, false);
      MembersBehind(Resolved(init, false), end);
      assert forall s :: s in init ==> s in segments;
    }
  }

  /** The members of a list that may have lost its last element and got others. */
  lemma MembersBehind(before: seq<string>, end: seq<string>)
    ensures forall s :: s in before + end ==> s in before || s in end
    ensures before != [] ==> forall s :: s in before[..|before| - 1] + end ==> s in before || s in end
  {
  }

  lemma {:induction false} ResolvedOfKept(segments: seq<string>, last: bool)
    requires forall i :: 0 <= i < |segments| ==> !IsDotSegment(segments[i])
    ensures Resolved(segments, last) == segments
    decreases |segments|
  {
    hide Dots;
    if segments != [] { ResolvedOfKept(segments[..|segments| - 1], false); }
  }

  /** The segments read from a path that was written from slash-free ones. */
  lemma SegmentsOfJoined(segments: seq<string>)
    requires forall s :: s in segments ==> '/' !in s
    ensures Segments("/" + Joined(segments, '/')) == NonEmpty(segments)
  {
    var tail := Joined(segments, '/');
    SplitAtSeparator("", tail, '/');
    assert "" + ['/'] + tail == "/" + tail;
    assert Split("", '/') == [""];
    SplitOfJoined(segments, '/');
    if segments == [] {
      var blank: seq<string> := [""];
      assert (blank + blank)[1..] == blank && blank[1..] == [];
    } else {
      PiecesOfPlain(segments, '/');
      assert ([""] + segments)[1..] == segments;
    }
  }

  /** No stored segment is a dot segment or has a special character. */
  lemma StoredSegments(escape: Escape, path: string)
    requires PercentEncodes(escape) && "/" <= path
    ensures forall s :: s in Segments(SetPath(escape, path)) ==>
              s != "" && '/' !in s && NoSpecial(s) && !IsDotSegment(s)
  {
    hide Dots, Special, PercentEncodes, Resolved, Escaped;
    var pieces := Split(Cleaned(path[1..]), '/');
    var encoded := EscapedAll(escape, pieces);
    CleanedIsPlain(path[1..]);
    PiecesArePlain(Cleaned(path[1..]));
    SplitIsPlain(Cleaned(path[1..]), '/');
    forall s | s in encoded
      ensures '/' !in s && NoSpecial(s)
    {
      var i :| 0 <= i < |encoded| && encoded[i] == s;
      EscapedIsPlain(escape, pieces[i]);
    }
    ResolvedMembers(encoded, true);
    SegmentsOfJoined(Resolved(encoded));
    NonEmptyMembers(Resolved(encoded));
  }

  /** Segments that are kept are stored one by one. */
  lemma StoredKept(escape: Escape, segments: seq<string>)
    requires PercentEncodes(escape) && AllKept(segments)
    requires forall s :: s in segments ==> s != "" && '/' !in s
    ensures Segments(SetPath(escape, "/" + Joined(segments, '/'))) == EscapedAll(escape, segments)
  {
    hide Dots, Special, PercentEncodes, Resolved, Escaped, Segments;
    var tail := Joined(segments, '/');
    assert ("/" + tail)[1..] == tail;
    JoinedIsPlain(segments);
    CleanedIsPlain(tail);
    if segments == [] {
      StoredNothing(escape);
    } else {
      SplitUndoesJoin(segments, '/');
      var encoded := EscapedAll(escape, segments);
      forall i | 0 <= i < |encoded|
        ensures '/' !in encoded[i] && encoded[i] != "" && !IsDotSegment(encoded[i])
      {
        assert segments[i] in segments;
        EscapedIsPlain(escape, segments[i]);
        EscapedDots(escape, segments[i]);
      }
      ResolvedOfKept(encoded, true);
      SegmentsOfJoined(encoded);
      NonEmptyKeeps(encoded);
    }
  }

  lemma StoredNothing(escape: Escape)
    ensures SetPath(escape, "/" + Joined([], '/')) == "/" && Segments("/") == []
  {
    var blank: seq<string> := [""];
    assert ("/" + Joined([], '/'))[1..] == "" && Split("", '/') == blank;
    assert EscapedAll(escape, blank) == blank && blank[..0] == [] && Resolved(blank) == blank;
    SegmentsOfJoined([]);
    assert "/" + Joined([], '/') == "/";
  }

  /**
   The stored path starts with the base and ends with the target exactly when every segment of the
   target is kept: none is a dot segment or has a backslash, tab or line break. The base, being a stored
   path itself, has only such segments and is not encoded again.
   */
  lemma StoredPathKeepsTarget(escape: Escape, l: seq<string>, base: seq<string>, target: seq<string>)
    requires PercentEncodes(escape) && IsJoin(l, base, target)
    requires forall s :: s in l ==> s != "" && '/' !in s && (s in base || s in target)
    requires AllKept(base) && EscapedAll(escape, base) == base
    ensures var stored := Segments(SetPath(escape, "/" + Joined(l, '/')));
            && (base <= stored && IsSuffix(EscapedAll(escape, target), stored) <==> AllKept(target))
            && (AllKept(target) ==> stored == EscapedAll(escape, l))
  {
    hide Dots, Special, PercentEncodes, Resolved, Segments, SetPath, Escaped, IsKept, IsSuffix;
    var stored := Segments(SetPath(escape, "/" + Joined(l, '/')));
    if AllKept(target) {
      forall i | 0 <= i < |l|
        ensures IsKept(l[i])
      {
        assert l[i] in l;
      }
      StoredKept(escape, l);
      EscapedJoin(escape, l, base, target);
    }
    if IsSuffix(EscapedAll(escape, target), stored) {
      StoredSegments(escape, "/" + Joined(l, '/'));
      forall i | 0 <= i < |target|
        ensures IsKept(target[i])
      {
        SuffixMember(EscapedAll(escape, target), stored, i);
        StoredIsKept(escape, target[i]);
      }
    }
  }

  lemma SuffixMember(s: seq<string>, of: seq<string>, i: nat)
    requires IsSuffix(s, of) && i < |s|
    ensures s[i] in of
  {
    assert of[|of| - |s|..][i] in of;
  }

  lemma EscapedJoin(escape: Escape, l: seq<string>, base: seq<string>, target: seq<string>)
    requires IsJoin(l, base, target)
    ensures IsJoin(EscapedAll(escape, l), EscapedAll(escape, base), EscapedAll(escape, target))
  {
    hide Escaped;
    var k := |l| - |target|;
    assert forall i :: 0 <= i < |target| ==> l[k..][i] == l[k + i] == target[i];
    assert EscapedAll(escape, l)[k..] == EscapedAll(escape, target);
  }

  /** A segment whose encoded form can stand in a stored path is kept. */
  lemma StoredIsKept(escape: Escape, s: string)
    requires PercentEncodes(escape)
    requires NoSpecial(Escaped(escape, s)) && !IsDotSegment(Escaped(escape, s))
    ensures IsKept(s)
  {
    hide Dots, Special;
    EscapedDots(escape, s);
    forall i | 0 <= i < |s|
      ensures !Special(s[i])
    {
      if Special(s[i]) { EscapedHas(escape, s, i); }
    }
  }

  predicate Accepted(target: string) {
    "/" <= target && !("//" <= target)
  }

  const ESCAPING := ["v1", "..", "admin"]

  lemma EscapingJoined()
    ensures Joined(ESCAPING, '/') == "v1/../admin" && AllPlain(ESCAPING, '/')
    ensures Split("v1/../admin", '/') == ESCAPING
  {
    assert ESCAPING[..2] == ["v1", ".."] && ESCAPING[..2][..1] == ["v1"];
    assert Joined(ESCAPING[..2][..1], '/') == "v1";
    assert Joined(ESCAPING[..2], '/') == "v1/..";
    SplitUndoesJoin(ESCAPING, '/');
  }

  lemma EscapingResolved()
    ensures Resolved(ESCAPING) == ["admin"]
  {
    assert Dots(".") == Some(1) by { assert "."[1..] == ""; }
    assert Dots("..") == Some(2) by { assert ".."[1..] == "."; }
    assert Dots("v1") == None && Dots("admin") == None;
    hide Dots;
    assert ESCAPING[..2] == ["v1", ".."] && ESCAPING[..2][..1] == ["v1"] && ["v1"][..0] == [];
    assert Resolved(["v1"], false) == ["v1"];
    assert Resolved(ESCAPING[..2], false) == [];
  }

  lemma EscapingOverlap(m: nat)
    ensures Overlap(["v1"], ["..", "admin"], m) <==> m == 0
  {
    var base, target := ["v1"], ["..", "admin"];
    assert base[0] != target[0];
    assert m == 1 ==> base[|base| - m..][0] == base[0] && target[..m][0] == target[0];
  }

  lemma EscapingIsShortest()
    ensures IsShortestJoin(ESCAPING, ["v1"], ["..", "admin"])
  {
    hide Overlap, IsShortestJoin;
    forall m: nat
      ensures Overlap(["v1"], ["..", "admin"], m) <==> m == 0
    {
      EscapingOverlap(m);
    }
    LargestOverlapIsShortest(["v1"], ["..", "admin"], 0);
    assert ["v1"] + ["..", "admin"][0..] == ESCAPING;
  }

  /** A target that leaves the base: two dots take the only segment of the base away. */
  lemma DotsLeaveBase(escape: Escape)
    requires PercentEncodes(escape) && Escaped(escape, "v1") == "v1" && Escaped(escape, "admin") == "admin"
    ensures Accepted("/../admin") && IsShortestJoin(ESCAPING, ["v1"], ["..", "admin"])
    ensures SetPath(escape, "/" + Joined(ESCAPING, '/')) == "/admin"
  {
    hide Resolved, IsShortestJoin, PercentEncodes, Cleaned, Escaped, Split;
    assert "//"[1] != "/../admin"[1];
    EscapingIsShortest();
    EscapingJoined();
    EscapingResolved();
    CleanedIsPlain("v1/../admin");
    assert ("/" + "v1/../admin")[1..] == "v1/../admin";
    assert Escaped(escape, "..") == ".." by { TwoDots(escape); }
    assert EscapedAll(escape, ESCAPING) == ESCAPING;
    assert Joined(["admin"], '/') == "admin";
  }

  lemma TwoDots(escape: Escape)
    requires PercentEncodes(escape)
    ensures Escaped(escape, "..") == ".."
  {
    assert Dots(".") == Some(1) by { assert "."[1..] == ""; }
    assert Dots("..").Some? by { assert ".."[1..] == "."; }
    EscapedDots(escape, "..");
  }

  method JoinUpstream(lib: Library, base: string, target: string) returns (r: Result<Url, UrlError>)
    ensures r == Err(AbsoluteTarget) <==> target == "" || target[0] != '/' || (|target| > 1 && target[1] == '/')
    ensures r == Err(InvalidUpstream) <==> r != Err(AbsoluteTarget) && lib.parse(base).None?
    ensures r.Ok? ==> lib.parse(base).Some? && r.value.origin == lib.parse(base).value.origin
    ensures r.Ok? ==> r.value.query == QueryOf(target) && r.value.fragment == None
    ensures r.Ok? ==> match r.value.query
                      case Some(query) => target == PathOf(target) + "?" + query
                      case None => target == PathOf(target)
    ensures r.Ok? && PathOf(target) == "/" ==> r.value.path == lib.parse(base).value.path
    ensures r.Ok? && PathOf(target) != "/" ==>
              exists l :: && IsShortestJoin(l, Segments(lib.parse(base).value.path), Segments(PathOf(target)))
                          && r.value.path == SetPath(lib.escape, "/" + Joined(l, '/'))
  {
    hide Segments, IsShortestJoin, PathOf, QueryOf, SetPath;
    if !("/" <= target) || "//" <= target {
      return Err(AbsoluteTarget);
    }
    if lib.parse(base).None? {
      return Err(InvalidUpstream);
    }
    var url := lib.parse(base).value;
    var targetPath, query := PathOf(target), QueryOf(target);
    if targetPath != "/" {
      var baseSegments, targetSegments := Segments(url.path), Segments(targetPath);
      var combined := JoinSegments(baseSegments, targetSegments);
      url := url.(path := SetPath(lib.escape, "/" + Joined(combined, '/')));
    }
    url := url.(query := query, fragment := None);
    TargetParts(target);
    return Ok(url);
  }

  /** The paths of parsed addresses are stored paths. */
  ghost predicate StoresPaths(lib: Library) {
    && PercentEncodes(lib.escape)
    && forall s :: lib.parse(s).Some? ==>
         var segments := Segments(lib.parse(s).value.path);
         AllKept(segments) && EscapedAll(lib.escape, segments) == segments
  }

  /** The same of whole addresses: what the path of a joined address says about base and target. */
  lemma JoinedPathKeepsTarget(lib: Library, base: string, target: string, l: seq<string>, path: string)
    requires StoresPaths(lib) && lib.parse(base).Some?
    requires IsShortestJoin(l, Segments(lib.parse(base).value.path), Segments(PathOf(target)))
    requires path == SetPath(lib.escape, "/" + Joined(l, '/'))
    ensures && Segments(lib.parse(base).value.path) <= Segments(path)
            && IsSuffix(EscapedAll(lib.escape, Segments(PathOf(target))), Segments(path))
            <==> AllKept(Segments(PathOf(target)))
    ensures AllKept(Segments(PathOf(target))) ==> Segments(path) == EscapedAll(lib.escape, l)
  {
    hide Segments, PathOf, SetPath, IsKept, PercentEncodes, Escaped, IsSuffix;
    var b, t := Segments(lib.parse(base).value.path), Segments(PathOf(target));
    SegmentsArePlain(lib.parse(base).value.path);
    SegmentsArePlain(PathOf(target));
    ShortestJoinMembers(l, b, t);
    StoredPathKeepsTarget(lib.escape, l, b, t);
  }

  lemma ShortestJoinMembers(l: seq<string>, base: seq<string>, target: seq<string>)
    requires IsShortestJoin(l, base, target)
    ensures forall s :: s in l ==> s in base || s in target
  {
    var n := |base| + |target| - |l|;
    JoinOverlaps(l, base, target);
    if n < 0 { OverlapJoins(base, target, 0); }
  }

  /** The assumption about the URL library can be met. */
  lemma StoringLibraryExists(url: Url)
    requires AllKept(Segments(url.path))
    ensures exists lib: Library :: StoresPaths(lib) && lib.parse("") == Some(url)
  {
    var lib := Library(_ => Some(url), c => [c]);
    forall s: string
      ensures Escaped(lib.escape, s) == s
    {
      NothingEscaped(lib.escape, s);
    }
    assert EscapedAll(lib.escape, Segments(url.path)) == Segments(url.path);
    assert StoresPaths(lib);
  }

  lemma {:induction false} NothingEscaped(escape: Escape, s: string)
    requires forall c :: escape(c) == [c]
    ensures Escaped(escape, s) == s
  {
    if s != "" { NothingEscaped(escape, s[1..]); }
  }
}
