/** The chunked coding of section 7.1 of RFC 9112 as a sender writes it, and its round trip through the reader. */
module Chunking {
  import opened Types
  import opened Wrappers
  import opened Text
  import opened Framing

  /** A chunk with its optional extension, which starts with a semicolon. */
  datatype Chunk = Chunk(data: Bytes, ext: string)

  ghost predicate OneLine(s: string) {
    IsAscii(s) && '\n' !in s
  }

  ghost predicate ValidChunk(chunk: Chunk) {
    chunk.data != [] && OneLine(chunk.ext) && (chunk.ext == "" || chunk.ext[0] == ';')
  }

  ghost predicate ValidTrailer(field: string) {
    OneLine(field) && ':' in field
  }

  ghost predicate Valid(chunks: seq<Chunk>, trailer: seq<string>) {
    && (forall i :: 0 <= i < |chunks| ==> ValidChunk(chunks[i]))
    && (forall i :: 0 <= i < |trailer| ==> ValidTrailer(trailer[i]))
  }

  /** The bytes of one line of ASCII text. */
  ghost function LineBytes(s: string): (b: Bytes)
    requires OneLine(s)
    ensures |b| == |s| + 2
  {
    Ascii(s) + [CR, LF]
  }

  function SizeLine(chunk: Chunk): string {
    HexText(|chunk.data|) + chunk.ext
  }

  lemma SizeLineIsOneLine(chunk: Chunk)
    requires ValidChunk(chunk)
    ensures OneLine(SizeLine(chunk))
  {
    var hex := HexText(|chunk.data|);
    HexTextReads(|chunk.data|);
    assert forall i :: 0 <= i < |hex| ==> IsLowerHex(hex[i]);
    assert '\n' !in hex;
  }

  ghost function EncodeTrailer(trailer: seq<string>): Bytes
    requires forall i :: 0 <= i < |trailer| ==> ValidTrailer(trailer[i])
  {
    if trailer == [] then LineBytes("")
    else assert ValidTrailer(trailer[0]); LineBytes(trailer[0]) + EncodeTrailer(trailer[1..])
  }

  ghost function EncodeChunk(chunk: Chunk): Bytes
    requires ValidChunk(chunk)
  {
    SizeLineIsOneLine(chunk);
    LineBytes(SizeLine(chunk)) + chunk.data + [CR, LF]
  }

  ghost function Encode(chunks: seq<Chunk>, trailer: seq<string>): Bytes
    requires Valid(chunks, trailer)
  {
    if chunks == [] then LineBytes("0") + EncodeTrailer(trailer)
    else EncodeChunk(chunks[0]) + Encode(chunks[1..], trailer)
  }

  function Payload(chunks: seq<Chunk>): Bytes {
    if chunks == [] then [] else chunks[0].data + Payload(chunks[1..])
  }

  // ----- What the reader's limits see of the encoding

  function TrailerSize(trailer: seq<string>): nat {
    if trailer == [] then 2 else |trailer[0]| + 2 + TrailerSize(trailer[1..])
  }

  /** Bytes of size lines, last chunk and trailer. */
  function OverheadSize(chunks: seq<Chunk>, trailer: seq<string>): nat {
    if chunks == [] then 3 + TrailerSize(trailer) else |SizeLine(chunks[0])| + 2 + OverheadSize(chunks[1..], trailer)
  }

  predicate ShortTrailer(trailer: seq<string>) {
    trailer == [] || (|trailer[0]| + 2 <= MAX_LINE_BYTES && ShortTrailer(trailer[1..]))
  }

  predicate ShortLines(chunks: seq<Chunk>, trailer: seq<string>) {
    if chunks == [] then ShortTrailer(trailer)
    else |SizeLine(chunks[0])| + 2 <= MAX_LINE_BYTES && ShortLines(chunks[1..], trailer)
  }

  // ----- Reading back one line

  lemma LineReadsBack(s: string, rest: Bytes, total: nat)
    requires OneLine(s)
    ensures ReadLine(LineBytes(s) + rest, total)
            == if |s| + 2 > MAX_LINE_BYTES || total + |s| + 2 > MAX_HEADER_BYTES then Err(431)
               else Ok(Line(s + "\r\n", rest, total + |s| + 2))
  {
    hide LineLength, DecodeUtf8, ReadLine, IsAscii;
    var bytes := LineBytes(s);
    NoNewlineInLine(s);
    assert NoNewline(bytes[..|bytes| - 1]);
    LineLengthOfLine(bytes, rest);
    assert bytes == Ascii(s + "\r\n") by { LineIsAscii(s); }
    assert DecodeUtf8(bytes) == Some(s + "\r\n") by { LineIsAscii(s); DecodeAscii(s + "\r\n"); }
    ReadLineIs(bytes, rest, total);
  }

  lemma LineIsAscii(s: string)
    requires OneLine(s)
    ensures IsAscii(s + "\r\n") && Ascii(s + "\r\n") == LineBytes(s)
  {
  }

  lemma NoNewlineInLine(s: string)
    requires OneLine(s)
    ensures var b := LineBytes(s); b[|b| - 1] == LF && forall i :: 0 <= i < |b| - 1 ==> b[i] != LF
  {
    forall i | 0 <= i < |s|
      ensures Ascii(s)[i] != LF
    {
      assert s[i] in s && s[i] != '\n';
    }
  }

  // ----- The size line

  lemma {:induction false} BeforeOf(a: string, b: string, sep: char)
    requires sep !in a && (b == "" || b[0] == sep)
    ensures Before(a + b, sep) == a
    decreases |a|
  {
    if a == "" {
      assert a + b == b;
    } else {
      assert (a + b)[1..] == a[1..] + b;
      BeforeOf(a[1..], b, sep);
    }
  }

  /** Trimming line ends stops at a character that is none. */
  lemma {:induction false} TrimLineEndKeeps(a: string, b: string) returns (c: string)
    requires a != "" && !IsLineEnd(a[|a| - 1])
    ensures c <= b && TrimLineEnd(a + b) == a + c && (c == "" || !IsLineEnd(c[|c| - 1]))
    decreases |b|
  {
    if b == "" {
      c := "";
      assert a + b == a;
    } else if IsLineEnd(b[|b| - 1]) {
      assert (a + b)[..|a + b| - 1] == a + b[..|b| - 1];
      c := TrimLineEndKeeps(a, b[..|b| - 1]);
    } else {
      c := b;
    }
  }

  lemma SizeReadsBack(n: nat, ext: string)
    requires ext == "" || ext[0] == ';'
    ensures ChunkSize(HexText(n) + ext + "\r\n") == if n < USIZE_BOUND then Some(n) else None
  {
    hide TrimLineEnd, Before, HexText, Trim, ParseHexUsize;
    var hex := HexText(n);
    HexTextReads(n);
    assert IsLowerHex(hex[|hex| - 1]) && forall i :: 0 <= i < |hex| ==> IsLowerHex(hex[i]);
    assert hex + ext + "\r\n" == hex + (ext + "\r\n");
    var c := TrimLineEndKeeps(hex, ext + "\r\n");
    assert c == "" || c[0] == ';';
    BeforeOf(hex, c, ';');
    TrimHexText(n);
    HexTextParses(n);
  }

  ghost predicate Blank(s: string) {
    forall i :: 0 <= i < |s| ==> IsWhitespace(s[i])
  }

  ghost predicate IsCore(s: string) {
    s != "" && !IsWhitespace(s[0]) && !IsWhitespace(s[|s| - 1])
  }

  lemma TrimOfPadded(pre: string, core: string, post: string)
    requires Blank(pre) && Blank(post) && IsCore(core)
    ensures Trim(pre + core + post) == core
  {
    hide IsWhitespace, Trim;
    var s, p, q := pre + core + post, |pre|, |pre| + |core|;
    var i, j := TrimMeaning(s);
    assert s[p] == core[0] && s[q - 1] == core[|core| - 1];
    assert forall k :: 0 <= k < p ==> s[k] == pre[k];
    assert forall k :: q <= k < |s| ==> s[k] == post[k - q];
    assert i <= p && q <= j;
    assert i < j && Trim(s)[0] == s[i] && Trim(s)[j - i - 1] == s[j - 1];
    assert s[p..q] == core;
  }

  /** What stands before the semicolon once line ends are cut; those before it are white space anyway. */
  lemma BeforeExtension(pre: string, core: string, post: string, tail: string) returns (post': string)
    requires Blank(pre) && Blank(post) && IsCore(core) && ';' !in core && (tail == "" || tail[0] == ';')
    ensures Blank(post') && Before(TrimLineEnd(pre + core + post + tail), ';') == pre + core + post'
  {
    hide TrimLineEnd, Before;
    var head := pre + core;
    var text, q := head + post + tail, |head| + |post|;
    var j := TrimLineEndMeaning(text);
    assert text[|head| - 1] == core[|core| - 1] && (tail != "" ==> text[q] == ';');
    assert j >= |head| && (tail != "" ==> j > q);
    var end := if tail == "" then j else q;
    post' := post[..end - |head|];
    assert text[..j] == (head + post') + text[end..j];
    assert ';' !in head + post' by { assert !IsWhitespace(';'); }
    BeforeOf(head + post', text[end..j], ';');
  }

  /** The number in a size line may have white space around it and an extension behind it; nothing else. */
  lemma SizeOfLine(pre: string, core: string, post: string, tail: string)
    requires Blank(pre) && Blank(post) && IsCore(core) && ';' !in core && (tail == "" || tail[0] == ';')
    ensures ChunkSize(pre + core + post + tail) == ParseHexUsize(core)
  {
    hide TrimLineEnd, Before, Trim, Blank, IsCore, ParseHexUsize;
    var post' := BeforeExtension(pre, core, post, tail);
    TrimOfPadded(pre, core, post');
  }

  // ----- The trailer

  lemma {:induction false} TrailerReadsBack(trailer: seq<string>, rest: Bytes, total: nat)
    requires forall i :: 0 <= i < |trailer| ==> ValidTrailer(trailer[i])
    ensures ReadTrailer(EncodeTrailer(trailer) + rest, total)
            == if ShortTrailer(trailer) && total + TrailerSize(trailer) <= MAX_HEADER_BYTES
               then Ok((rest, total + TrailerSize(trailer))) else Err(431)
    decreases |trailer|
  {
    hide ReadLine, OneLine, LineBytes;
    if trailer == [] {
      EmptyIsOneLine();
      LineReadsBack("", rest, total);
      assert "" + "\r\n" == "\r\n";
    } else {
      assert ValidTrailer(trailer[0]);
      var tail := EncodeTrailer(trailer[1..]) + rest;
      assert EncodeTrailer(trailer) + rest == LineBytes(trailer[0]) + tail;
      LineReadsBack(trailer[0], tail, total);
      ColonStays(trailer[0]);
      if |trailer[0]| + 2 <= MAX_LINE_BYTES {
        TrailerReadsBack(trailer[1..], rest, total + |trailer[0]| + 2);
      }
    }
  }

  lemma EmptyIsOneLine()
    ensures OneLine("") && OneLine("0")
  {
  }

  lemma ColonStays(field: string)
    requires ':' in field
    ensures ':' in field + "\r\n" && field + "\r\n" != "\r\n" && field + "\r\n" != "\n"
  {
    assert field != "";
  }

  // ----- The body

  /** The reader's three limits: line length, header bytes in all, and body size. */
  predicate Fits(chunks: seq<Chunk>, trailer: seq<string>, cap: nat, total: nat, used: nat) {
    && ShortLines(chunks, trailer)
    && total + OverheadSize(chunks, trailer) <= MAX_HEADER_BYTES
    && used + |Payload(chunks)| <= cap
  }

  lemma ZeroReadsBack()
    ensures ChunkSize("0" + "\r\n") == Some(0) && OneLine("0")
  {
    assert HexText(0) == "0";
    SizeReadsBack(0, "");
    assert "0" + "" + "\r\n" == "0" + "\r\n";
  }

  /** One chunk: its data is appended and the reader goes on behind it. */
  lemma ChunkReadsBack(chunk: Chunk, tail: Bytes, cap: nat, total: nat, body: Bytes)
    requires ValidChunk(chunk) && cap < USIZE_BOUND
    ensures ReadChunks(EncodeChunk(chunk) + tail, cap, total, body)
            == if |SizeLine(chunk)| + 2 > MAX_LINE_BYTES || total + |SizeLine(chunk)| + 2 > MAX_HEADER_BYTES
               then Err(431)
               else if |chunk.data| >= USIZE_BOUND then Err(400)
               else if |body| + |chunk.data| > cap then Err(413)
               else ReadChunks(tail, cap, total + |SizeLine(chunk)| + 2, body + chunk.data)
  {
    hide ReadLine, OneLine, LineBytes, ChunkSize, HexText, ReadTrailer;
    SizeLineIsOneLine(chunk);
    var after := chunk.data + [CR, LF] + tail;
    assert EncodeChunk(chunk) + tail == LineBytes(SizeLine(chunk)) + after;
    LineReadsBack(SizeLine(chunk), after, total);
    SizeReadsBack(|chunk.data|, chunk.ext);
    var n := |chunk.data|;
    assert after[..n] == chunk.data && after[n..n + 2] == [CR, LF] && after[n + 2..] == tail;
  }

  /**
   Whatever the chunks, extensions and trailer, reading the encoding returns the payload and leaves
   the bytes behind it unread exactly when the limits are kept; otherwise it is refused.
   */
  lemma {:induction false} ChunkedRoundTrip(chunks: seq<Chunk>, trailer: seq<string>, rest: Bytes, cap: nat,
                                            total: nat, body: Bytes)
    requires Valid(chunks, trailer) && cap < USIZE_BOUND && |body| <= cap
    ensures var r := ReadChunks(Encode(chunks, trailer) + rest, cap, total, body);
            if Fits(chunks, trailer, cap, total, |body|)
            then r == Ok(Body(body + Payload(chunks), rest, total + OverheadSize(chunks, trailer)))
            else r.Err?
    decreases |chunks|
  {
    hide ReadLine, ReadChunks, OneLine, LineBytes, ChunkSize, EncodeChunk, EncodeTrailer, ReadTrailer, SizeLine,
         ShortTrailer, TrailerSize, ValidTrailer, ValidChunk;
    if chunks == [] {
      LastChunkReadsBack(trailer, rest, cap, total, body);
      assert body + [] == body;
    } else {
      assert ValidChunk(chunks[0]);
      var tail := Encode(chunks[1..], trailer) + rest;
      assert Encode(chunks, trailer) + rest == EncodeChunk(chunks[0]) + tail;
      ChunkReadsBack(chunks[0], tail, cap, total, body);
      assert body + Payload(chunks) == (body + chunks[0].data) + Payload(chunks[1..]);
      if |body| + |chunks[0].data| <= cap {
        ChunkedRoundTrip(chunks[1..], trailer, rest, cap, total + |SizeLine(chunks[0])| + 2, body + chunks[0].data);
      }
    }
  }

  lemma LastChunkReadsBack(trailer: seq<string>, rest: Bytes, cap: nat, total: nat, body: Bytes)
    requires forall i :: 0 <= i < |trailer| ==> ValidTrailer(trailer[i])
    ensures OneLine("0")
    ensures ReadChunks(LineBytes("0") + EncodeTrailer(trailer) + rest, cap, total, body)
            == if ShortTrailer(trailer) && total + 3 + TrailerSize(trailer) <= MAX_HEADER_BYTES
               then Ok(Body(body, rest, total + 3 + TrailerSize(trailer))) else Err(431)
  {
    hide ReadLine, OneLine, LineBytes, ChunkSize, EncodeTrailer, ReadTrailer;
    ZeroReadsBack();
    var tail := EncodeTrailer(trailer) + rest;
    assert LineBytes("0") + EncodeTrailer(trailer) + rest == LineBytes("0") + tail;
    LineReadsBack("0", tail, total);
    TrailerReadsBack(trailer, rest, total + 3);
  }
}
