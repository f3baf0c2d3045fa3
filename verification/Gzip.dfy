/**
 Files that are a sequence of gzip members (RFC 1952), written one member per line and read back whole.
 Compression itself is not interpreted.
 */
module Gzip {
  import opened Types
  import opened Wrappers

  /** `zip` makes a member of a text; `next` reads the member at the front of some bytes and says what follows it. */
  datatype Gzip = Gzip(zip: string -> Bytes, next: Bytes -> Option<(string, Bytes)>)

  const HEADER_AND_TRAILER: nat := 18

  /** A member is read back whatever follows it; a part of a member is not one. */
  ghost predicate Unzips(gz: Gzip) {
    && (forall s :: |gz.zip(s)| >= HEADER_AND_TRAILER)
    && (forall s, rest :: gz.next(gz.zip(s) + rest) == Some((s, rest)))
    && (forall s, k: nat :: 0 < k < |gz.zip(s)| ==> gz.next(gz.zip(s)[..k]) == None)
  }

  /** Reading a file whole: its members one after the other, an error in any of them being an error of the whole. */
  function Unzip(gz: Gzip, bytes: Bytes): Option<string>
    decreases |bytes|
  {
    if bytes == [] then Some("") else
    match gz.next(bytes)
    case None => None
    case Some((text, rest)) =>
      if |rest| >= |bytes| then None else Joined(text, Unzip(gz, rest))
  }

  function Joined(text: string, more: Option<string>): Option<string> {
    if more.Some? then Some(text + more.value) else None
  }

  function Members(gz: Gzip, texts: seq<string>): Bytes {
    if texts == [] then [] else Members(gz, texts[..|texts| - 1]) + gz.zip(texts[|texts| - 1])
  }

  function Flat(texts: seq<string>): string {
    if texts == [] then "" else Flat(texts[..|texts| - 1]) + texts[|texts| - 1]
  }

  lemma UnzipFirst(gz: Gzip, text: string, rest: Bytes)
    requires Unzips(gz)
    ensures Unzip(gz, gz.zip(text) + rest) == Joined(text, Unzip(gz, rest))
  {
    assert |gz.zip(text)| > 0;
  }

  /** Whole members in front of other bytes are read, and then the rest. */
  lemma {:induction false} UnzipBehind(gz: Gzip, texts: seq<string>, rest: Bytes)
    requires Unzips(gz)
    ensures Unzip(gz, Members(gz, texts) + rest) == Joined(Flat(texts), Unzip(gz, rest))
    decreases |texts|
  {
    hide Unzip, Unzips;
    if texts == [] {
      assert Members(gz, texts) + rest == rest;
      NothingInFront(Unzip(gz, rest));
    } else {
      var init, last := texts[..|texts| - 1], texts[|texts| - 1];
      UnzipBehind(gz, init, gz.zip(last) + rest);
      UnzipFirst(gz, last, rest);
      assert Members(gz, texts) + rest == Members(gz, init) + (gz.zip(last) + rest);
      JoinedTwice(Flat(init), last, Unzip(gz, rest));
    }
  }

  lemma NothingInFront(more: Option<string>)
    ensures Joined("", more) == more
  {
    if more.Some? { assert "" + more.value == more.value; }
  }

  lemma JoinedTwice(a: string, b: string, more: Option<string>)
    ensures Joined(a, Joined(b, more)) == Joined(a + b, more)
  {
    if more.Some? { assert a + (b + more.value) == (a + b) + more.value; }
  }

  lemma UnzipMembers(gz: Gzip, texts: seq<string>)
    requires Unzips(gz)
    ensures Unzip(gz, Members(gz, texts)) == Some(Flat(texts))
  {
    UnzipBehind(gz, texts, []);
    assert Members(gz, texts) + [] == Members(gz, texts) && Flat(texts) + "" == Flat(texts);
  }

  /**
   A file of members that is cut at `k` can be read exactly if the cut falls between members; `n` is the
   number of members that are whole.
   */
  lemma {:induction false} CutMembers(gz: Gzip, texts: seq<string>, k: nat) returns (n: nat)
    requires Unzips(gz) && k <= |Members(gz, texts)|
    ensures n <= |texts| && |Members(gz, texts[..n])| <= k
    ensures n < |texts| ==> k < |Members(gz, texts[..n + 1])|
    ensures Unzip(gz, Members(gz, texts)[..k])
            == if k == |Members(gz, texts[..n])| then Some(Flat(texts[..n])) else None
    decreases |texts|
  {
    hide Unzip, Unzips, Flat;
    assert texts[..|texts|] == texts;
    if k == |Members(gz, texts)| {
      n := |texts|;
      UnzipMembers(gz, texts);
      assert Members(gz, texts)[..k] == Members(gz, texts);
    } else {
      var init, last := texts[..|texts| - 1], texts[|texts| - 1];
      var before := Members(gz, init);
      if k <= |before| {
        n := CutMembers(gz, init, k);
        assert Members(gz, texts)[..k] == before[..k];
        assert texts[..n] == init[..n] && (n < |init| ==> texts[..n + 1] == init[..n + 1]);
      } else {
        n := |init|;
        var part := gz.zip(last)[..k - |before|];
        assert Members(gz, texts)[..k] == before + part;
        UnzipBehind(gz, init, part);
        PartIsUnreadable(gz, last, k - |before|);
      }
    }
  }

  lemma PartIsUnreadable(gz: Gzip, text: string, k: nat)
    requires Unzips(gz) && 0 < k < |gz.zip(text)|
    ensures Unzip(gz, gz.zip(text)[..k]) == None
  {
  }

  /**
   Bytes behind a torn member: the file can be read only if the reader takes the torn part and what follows
   it for members, which nobody wrote.
   */
  lemma BehindTorn(gz: Gzip, texts: seq<string>, torn: string, k: nat, more: Bytes)
    requires Unzips(gz) && 0 < k < |gz.zip(torn)|
    ensures var part := gz.zip(torn)[..k];
            && (Unzip(gz, Members(gz, texts) + (part + more)) == None <==> Unzip(gz, part + more) == None)
            && (gz.next(part + more) == None ==> Unzip(gz, Members(gz, texts) + (part + more)) == None)
            && (more == [] ==> Unzip(gz, Members(gz, texts) + (part + more)) == None)
  {
    var part := gz.zip(torn)[..k];
    UnzipBehind(gz, texts, part + more);
    PartIsUnreadable(gz, torn, k);
    assert more == [] ==> part + more == part;
  }
}
