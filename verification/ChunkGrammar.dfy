/**
 The chunked coding as a grammar of bytes (section 7.1 of RFC 9112), apart from any reader: the reader accepts
 exactly the streams that start with a message of this grammar within its limits.
 */
module ChunkGrammar {
  import opened Types
  import opened Wrappers
  import opened Text
  import opened Framing

  /** A size line and the data it announces. */
  datatype Part = Part(line: Bytes, data: Bytes)

  datatype Message = Message(parts: seq<Part>, last: Bytes, trailer: seq<Bytes>, empty: Bytes)

  /** A line of at most 8 KiB that ends with its only line feed. */
  ghost predicate IsLine(b: Bytes) {
    0 < |b| <= 8192 && b[|b| - 1] == 10 && forall i :: 0 <= i < |b| - 1 ==> b[i] != 10
  }

  ghost predicate IsSizeLine(b: Bytes, size: nat) {
    IsLine(b) && exists text :: b == EncodeUtf8(text) && ChunkSize(text) == Some(size)
  }

  ghost predicate IsTrailerLine(b: Bytes) {
    IsLine(b) && exists text :: b == EncodeUtf8(text) && ':' in text
  }

  ghost predicate IsPart(part: Part) {
    part.data != [] && IsSizeLine(part.line, |part.data|)
  }

  ghost predicate AllParts(parts: seq<Part>) {
    forall i :: 0 <= i < |parts| ==> IsPart(parts[i])
  }

  ghost predicate AllTrailer(trailer: seq<Bytes>) {
    forall i :: 0 <= i < |trailer| ==> IsTrailerLine(trailer[i])
  }

  ghost predicate IsMessage(m: Message) {
    AllParts(m.parts) && IsSizeLine(m.last, 0) && AllTrailer(m.trailer) && (m.empty == [13, 10] || m.empty == [10])
  }

  /** Each chunk is its size line, its data, and CR LF. */
  function WriteParts(parts: seq<Part>): Bytes {
    if parts == [] then [] else parts[0].line + parts[0].data + [13, 10] + WriteParts(parts[1..])
  }

  function WriteTrailer(trailer: seq<Bytes>): Bytes {
    if trailer == [] then [] else trailer[0] + WriteTrailer(trailer[1..])
  }

  function Write(m: Message): Bytes {
    WriteParts(m.parts) + m.last + WriteTrailer(m.trailer) + m.empty
  }

  function Data(parts: seq<Part>): Bytes {
    if parts == [] then [] else parts[0].data + Data(parts[1..])
  }

  /** The bytes of the size lines. */
  function SizeLines(parts: seq<Part>): nat {
    if parts == [] then 0 else |parts[0].line| + SizeLines(parts[1..])
  }

  /** The bytes of all lines. */
  function Overhead(m: Message): nat {
    SizeLines(m.parts) + |m.last| + |WriteTrailer(m.trailer)| + |m.empty|
  }

  /** The reader's limits besides the length of a line: 64 KiB of header bytes in all, and the size of the body. */
  predicate Within(m: Message, cap: nat, total: nat) {
    total + Overhead(m) <= 65536 && |Data(m.parts)| <= cap
  }

  // ----- Lines

  lemma LineIsRead(line: Bytes, rest: Bytes, total: nat)
    requires IsLine(line)
    ensures ReadLine(line + rest, total)
            == if total + |line| > 65536 then Err(431)
               else match DecodeUtf8(line)
                 case None => Err(400)
                 case Some(text) => Ok(Line(text, rest, total + |line|))
  {
    hide LineLength, DecodeUtf8, ReadLine;
    LineLengthOfLine(line, rest);
    ReadLineIs(line, rest, total);
  }

  /** A line that has been read ends with a line feed, or nothing follows it. */
  lemma ReadIsLine(stream: Bytes, total: nat) returns (b: Bytes)
    requires ReadLine(stream, total).Ok?
    ensures var line := ReadLine(stream, total).value;
            && stream == b + line.rest && b == EncodeUtf8(line.text)
            && line.total == total + |b| <= 65536 && (line.rest != [] ==> IsLine(b))
  {
    hide DecodeUtf8, EncodeUtf8, LineLength;
    var line := ReadLine(stream, total).value;
    b := stream[..LineLength(stream)];
    DecodesIffEncoded(b, line.text);
  }

  lemma SizeLineIsRead(line: Bytes, size: nat, rest: Bytes, total: nat) returns (text: string)
    requires IsSizeLine(line, size) && total + |line| <= 65536
    ensures ChunkSize(text) == Some(size) && ReadLine(line + rest, total) == Ok(Line(text, rest, total + |line|))
  {
    hide DecodeUtf8, EncodeUtf8, ReadLine, ChunkSize, IsLine;
    LineIsRead(line, rest, total);
    text :| line == EncodeUtf8(text) && ChunkSize(text) == Some(size);
    DecodesIffEncoded(line, text);
  }

  lemma EmptyLineIsRead(empty: Bytes, rest: Bytes, total: nat)
    requires (empty == [13, 10] || empty == [10]) && total + |empty| <= 65536
    ensures ReadTrailer(empty + rest, total) == Ok((rest, total + |empty|))
  {
    hide DecodeUtf8, ReadLine;
    LineIsRead(empty, rest, total);
    EmptyTexts();
  }

  lemma EmptyTexts()
    ensures DecodeUtf8([13, 10]) == Some("\r\n") && DecodeUtf8([10]) == Some("\n")
  {
    DecodeAscii("\r\n");
    DecodeAscii("\n");
    assert Ascii("\r\n") == [13, 10] && Ascii("\n") == [10];
  }

  lemma TrailerLineIsRead(line: Bytes, rest: Bytes, total: nat)
    requires IsTrailerLine(line) && total + |line| <= 65536
    ensures ReadTrailer(line + rest, total) == ReadTrailer(rest, total + |line|)
  {
    hide DecodeUtf8, EncodeUtf8, ReadLine, IsLine;
    LineIsRead(line, rest, total);
    var text :| line == EncodeUtf8(text) && ':' in text;
    DecodesIffEncoded(line, text);
    assert text != "\r\n" && text != "\n" && text != "";
  }

  lemma {:induction false} TrailerIsRead(trailer: seq<Bytes>, empty: Bytes, rest: Bytes, total: nat)
    requires AllTrailer(trailer) && (empty == [13, 10] || empty == [10])
    requires total + |WriteTrailer(trailer)| + |empty| <= 65536
    ensures ReadTrailer(WriteTrailer(trailer) + empty + rest, total)
            == Ok((rest, total + |WriteTrailer(trailer)| + |empty|))
    decreases |trailer|
  {
    hide ReadTrailer, IsTrailerLine;
    if trailer == [] {
      assert [] + empty + rest == empty + rest;
      EmptyLineIsRead(empty, rest, total);
    } else {
      var tail := WriteTrailer(trailer[1..]) + empty + rest;
      assert WriteTrailer(trailer) + empty + rest == trailer[0] + tail;
      TrailerLineIsRead(trailer[0], tail, total);
      TrailerIsRead(trailer[1..], empty, rest, total + |trailer[0]|);
    }
  }

  // ----- The reader accepts the grammar

  /** One chunk, with whatever stands in the place of its end. */
  lemma ChunkIsRead(line: Bytes, size: nat, rest: Bytes, cap: nat, total: nat, body: Bytes)
    requires IsSizeLine(line, size) && total + |line| <= 65536 && size > 0
    ensures ReadChunks(line + rest, cap, total, body)
            == if |body| + size > cap then Err(413)
               else if size + 2 > |rest| || rest[size..size + 2] != [13, 10] then Err(400)
               else ReadChunks(rest[size + 2..], cap, total + |line|, body + rest[..size])
  {
    hide ReadLine, ChunkSize, ReadTrailer, IsSizeLine;
    var text := SizeLineIsRead(line, size, rest, total);
  }

  lemma PartIsRead(part: Part, tail: Bytes, cap: nat, total: nat, body: Bytes)
    requires IsPart(part) && total + |part.line| <= 65536 && |body| + |part.data| <= cap
    ensures ReadChunks(part.line + part.data + [13, 10] + tail, cap, total, body)
            == ReadChunks(tail, cap, total + |part.line|, body + part.data)
  {
    hide ReadChunks, IsSizeLine;
    var rest := part.data + [13, 10] + tail;
    assert part.line + part.data + [13, 10] + tail == part.line + rest;
    var n := |part.data|;
    assert rest[..n] == part.data && rest[n..n + 2] == [13, 10] && rest[n + 2..] == tail;
    ChunkIsRead(part.line, n, rest, cap, total, body);
  }

  lemma FirstOf(parts: seq<Part>)
    requires AllParts(parts) && parts != []
    ensures IsPart(parts[0]) && AllParts(parts[1..])
  {
    hide IsPart;
  }

  lemma Onto(a: Bytes, b: Bytes, c: Bytes)
    ensures a + b + c == a + (b + c)
  {
  }

  /** The reader gets through any number of chunks that keep the limits. */
  lemma {:induction false} PartsAreRead(parts: seq<Part>, tail: Bytes, cap: nat, total: nat, body: Bytes)
    requires AllParts(parts) && total + SizeLines(parts) <= 65536 && |body| + |Data(parts)| <= cap
    ensures ReadChunks(WriteParts(parts) + tail, cap, total, body)
            == ReadChunks(tail, cap, total + SizeLines(parts), body + Data(parts))
    decreases |parts|
  {
    hide ReadChunks, IsPart;
    if parts == [] {
      assert [] + tail == tail && body + [] == body;
    } else {
      hide AllParts;
      var more := WriteParts(parts[1..]) + tail;
      Onto(parts[0].line + parts[0].data + [13, 10], WriteParts(parts[1..]), tail);
      FirstOf(parts);
      PartIsRead(parts[0], more, cap, total, body);
      PartsAreRead(parts[1..], tail, cap, total + |parts[0].line|, body + parts[0].data);
      Onto(body, parts[0].data, Data(parts[1..]));
    }
  }

  lemma EndIsRead(last: Bytes, rest: Bytes, cap: nat, total: nat, body: Bytes)
    requires IsSizeLine(last, 0) && total + |last| <= 65536
    ensures ReadChunks(last + rest, cap, total, body)
            == match ReadTrailer(rest, total + |last|)
               case Err(status) => Err(status)
               case Ok((rest', total')) => Ok(Body(body, rest', total'))
  {
    hide ReadLine, ChunkSize, ReadTrailer, IsSizeLine;
    var text := SizeLineIsRead(last, 0, rest, total);
  }

  lemma MessageIsRead(m: Message, rest: Bytes, cap: nat, total: nat)
    requires IsMessage(m) && Within(m, cap, total)
    ensures ReadChunks(Write(m) + rest, cap, total, []) == Ok(Body(Data(m.parts), rest, total + Overhead(m)))
  {
    hide ReadChunks, ReadTrailer, IsSizeLine, AllParts, AllTrailer, WriteParts, WriteTrailer, Data, SizeLines;
    var behind := WriteTrailer(m.trailer) + m.empty + rest;
    assert Write(m) + rest == WriteParts(m.parts) + (m.last + behind);
    PartsAreRead(m.parts, m.last + behind, cap, total, []);
    assert [] + Data(m.parts) == Data(m.parts);
    var total' := total + SizeLines(m.parts);
    EndIsRead(m.last, behind, cap, total', Data(m.parts));
    TrailerIsRead(m.trailer, m.empty, rest, total' + |m.last|);
  }

  // ----- What the reader accepts is of the grammar

  lemma {:induction false} TrailerOfRead(stream: Bytes, total: nat) returns (trailer: seq<Bytes>, empty: Bytes)
    requires ReadTrailer(stream, total).Ok?
    ensures var (rest, total') := ReadTrailer(stream, total).value;
            && AllTrailer(trailer) && (empty == [13, 10] || empty == [10])
            && stream == WriteTrailer(trailer) + empty + rest
            && total' == total + |WriteTrailer(trailer)| + |empty| <= 65536
    decreases |stream|
  {
    hide ReadLine, IsLine, EncodeUtf8, AllTrailer;
    var b := ReadIsLine(stream, total);
    var line := ReadLine(stream, total).value;
    if line.text == "\r\n" || line.text == "\n" {
      trailer, empty := [], b;
      EmptyEncoded();
      assert stream == [] + b + line.rest;
      NoTrailer();
    } else {
      var more, e := TrailerOfRead(line.rest, line.total);
      trailer, empty := [b] + more, e;
      NotAtEnd(line.rest, more, e, ReadTrailer(line.rest, line.total).value.0);
      TrailerLine(b, line.text, more);
      assert trailer[1..] == more;
      var rest := ReadTrailer(line.rest, line.total).value.0;
      assert b + (WriteTrailer(more) + e + rest) == (b + WriteTrailer(more)) + e + rest;
    }
  }

  lemma NoTrailer()
    ensures AllTrailer([]) && WriteTrailer([]) == []
  {
  }

  lemma EmptyEncoded()
    ensures EncodeUtf8("\r\n") == [13, 10] && EncodeUtf8("\n") == [10]
  {
    EmptyTexts();
    DecodesIffEncoded([13, 10], "\r\n");
    DecodesIffEncoded([10], "\n");
  }

  lemma NotAtEnd(stream: Bytes, trailer: seq<Bytes>, empty: Bytes, rest: Bytes)
    requires stream == WriteTrailer(trailer) + empty + rest && empty != []
    ensures stream != []
  {
    assert |stream| >= |empty|;
  }

  lemma TrailerLine(b: Bytes, text: string, more: seq<Bytes>)
    requires IsLine(b) && b == EncodeUtf8(text) && ':' in text && AllTrailer(more)
    ensures AllTrailer([b] + more)
  {
    assert IsTrailerLine(b);
  }

  lemma {:induction false} MessageOfRead(stream: Bytes, cap: nat, total: nat, body: Bytes) returns (m: Message)
    requires ReadChunks(stream, cap, total, body).Ok? && |body| <= cap
    ensures var read := ReadChunks(stream, cap, total, body).value;
            && IsMessage(m) && stream == Write(m) + read.rest
            && read.bytes == body + Data(m.parts) && |read.bytes| <= cap
            && read.total == total + Overhead(m) <= 65536
    decreases |stream|
  {
    hide ReadLine, IsLine, EncodeUtf8, ReadTrailer, ChunkSize, IsMessage, IsSizeLine, Overhead, Write;
    var b := ReadIsLine(stream, total);
    var line := ReadLine(stream, total).value;
    var size := ChunkSize(line.text).value;
    if size == 0 {
      var trailer, empty := TrailerOfRead(line.rest, line.total);
      m := Message([], b, trailer, empty);
      NotAtEnd(line.rest, trailer, empty, ReadTrailer(line.rest, line.total).value.0);
      LastPart(b, line.text, trailer, empty, ReadTrailer(line.rest, line.total).value.0);
      assert body + [] == body;
    } else {
      var data, tail := line.rest[..size], line.rest[size + 2..];
      var rest := MessageOfRead(tail, cap, line.total, body + data);
      m := rest.(parts := [Part(b, data)] + rest.parts);
      assert line.rest == data + [13, 10] + tail;
      FirstPart(b, line.text, data, rest, ReadChunks(tail, cap, line.total, body + data).value.rest);
      assert body + (data + Data(rest.parts)) == body + data + Data(rest.parts);
    }
  }

  lemma LastPart(b: Bytes, text: string, trailer: seq<Bytes>, empty: Bytes, rest: Bytes)
    requires IsLine(b) && b == EncodeUtf8(text) && ChunkSize(text) == Some(0)
    requires AllTrailer(trailer) && (empty == [13, 10] || empty == [10])
    ensures var m := Message([], b, trailer, empty);
            && IsMessage(m) && Data(m.parts) == [] && Overhead(m) == |b| + |WriteTrailer(trailer)| + |empty|
            && b + (WriteTrailer(trailer) + empty + rest) == Write(m) + rest
  {
    hide ChunkSize, IsLine, EncodeUtf8;
    assert IsSizeLine(b, 0);
  }

  lemma FirstPart(b: Bytes, text: string, data: Bytes, m: Message, rest: Bytes)
    requires IsLine(b) && b == EncodeUtf8(text) && ChunkSize(text) == Some(|data|) && data != [] && IsMessage(m)
    ensures var m' := m.(parts := [Part(b, data)] + m.parts);
            && IsMessage(m') && Data(m'.parts) == data + Data(m.parts) && Overhead(m') == |b| + Overhead(m)
            && b + (data + [13, 10] + (Write(m) + rest)) == Write(m') + rest
  {
    hide ChunkSize, IsLine, EncodeUtf8, IsTrailerLine;
    assert IsPart(Part(b, data)) by { assert IsSizeLine(b, |data|); }
    hide IsPart, IsSizeLine;
    var parts := [Part(b, data)] + m.parts;
    assert parts[1..] == m.parts;
    WrittenPart(b, data, m, rest);
  }

  lemma WrittenPart(b: Bytes, data: Bytes, m: Message, rest: Bytes)
    ensures var m' := m.(parts := [Part(b, data)] + m.parts);
            b + (data + [13, 10] + (Write(m) + rest)) == Write(m') + rest
  {
    var parts := [Part(b, data)] + m.parts;
    assert parts[1..] == m.parts;
    var w, end, head := WriteParts(m.parts), WriteTrailer(m.trailer), data + [13, 10];
    assert WriteParts(parts) == b + data + [13, 10] + w;
    hide WriteParts, WriteTrailer;
    Onto(b, data, [13, 10]);
    Onto(b, head, w);
    FourOnto(b + head, w, m.last, end, m.empty);
    Onto(b + head, Write(m), rest);
    Onto(b, head, Write(m) + rest);
  }

  lemma FourOnto(a: Bytes, w: Bytes, x: Bytes, y: Bytes, z: Bytes)
    ensures a + w + x + y + z == a + (w + x + y + z)
  {
    Onto(a, w, x);
    Onto(a, w + x, y);
    Onto(a, w + x + y, z);
  }

  /** A message of the grammar within the limits, and `rest` behind it. */
  ghost predicate Starts(stream: Bytes, m: Message, cap: nat, total: nat, rest: Bytes) {
    IsMessage(m) && Within(m, cap, total) && stream == Write(m) + rest
  }

  /**
   The reader accepts a stream exactly if it starts with a message of the grammar within the limits; it
   yields the data of the chunks, and goes on behind the message.
   */
  lemma AcceptedIff(stream: Bytes, cap: nat, total: nat)
    ensures ReadChunks(stream, cap, total, []).Ok? <==> exists m, rest :: Starts(stream, m, cap, total, rest)
    ensures forall m, rest :: Starts(stream, m, cap, total, rest) ==>
              ReadChunks(stream, cap, total, []) == Ok(Body(Data(m.parts), rest, total + Overhead(m)))
  {
    hide ReadChunks, IsMessage, Write, Data, Overhead;
    if ReadChunks(stream, cap, total, []).Ok? {
      var m := MessageOfRead(stream, cap, total, []);
      assert [] + Data(m.parts) == Data(m.parts);
      assert Starts(stream, m, cap, total, ReadChunks(stream, cap, total, []).value.rest);
    }
    forall m, rest | Starts(stream, m, cap, total, rest)
      ensures ReadChunks(stream, cap, total, []) == Ok(Body(Data(m.parts), rest, total + Overhead(m)))
    {
      MessageIsRead(m, rest, cap, total);
    }
  }

  /**
   The statuses of refusals behind any number of good chunks: a line that announces no size, a chunk over the
   cap, a chunk cut short, and one that is not followed by CR LF.
   */
  lemma Refusals(parts: seq<Part>, line: Bytes, rest: Bytes, cap: nat, total: nat)
    requires AllParts(parts) && IsLine(line) && |Data(parts)| <= cap
    requires total + SizeLines(parts) + |line| <= 65536
    ensures var r := ReadChunks(WriteParts(parts) + (line + rest), cap, total, []);
            && ((forall size: nat :: !IsSizeLine(line, size)) ==> r == Err(400))
            && (forall size: nat :: IsSizeLine(line, size) && size > 0 ==>
                  if |Data(parts)| + size > cap then r == Err(413)
                  else |rest| < size + 2 || rest[size..size + 2] != [13, 10] ==> r == Err(400))
  {
    hide ReadChunks, IsSizeLine, IsLine, IsPart, WriteParts, Data, SizeLines;
    PartsAreRead(parts, line + rest, cap, total, []);
    assert [] + Data(parts) == Data(parts);
    var total' := total + SizeLines(parts);
    if forall size: nat :: !IsSizeLine(line, size) {
      NoSizeIsRefused(line, rest, cap, total', Data(parts));
    }
    forall size: nat | IsSizeLine(line, size) && size > 0
      ensures var r := ReadChunks(line + rest, cap, total', Data(parts));
              if |Data(parts)| + size > cap then r == Err(413)
              else |rest| < size + 2 || rest[size..size + 2] != [13, 10] ==> r == Err(400)
    {
      ChunkIsRead(line, size, rest, cap, total', Data(parts));
    }
  }

  lemma NoSizeIsRefused(line: Bytes, rest: Bytes, cap: nat, total: nat, body: Bytes)
    requires IsLine(line) && total + |line| <= 65536 && forall size: nat :: !IsSizeLine(line, size)
    ensures ReadChunks(line + rest, cap, total, body) == Err(400)
  {
    hide DecodeUtf8, EncodeUtf8, ReadLine, ChunkSize, ReadTrailer, IsLine;
    LineIsRead(line, rest, total);
    if DecodeUtf8(line).Some? {
      var text := DecodeUtf8(line).value;
      DecodesIffEncoded(line, text);
      assert ChunkSize(text).Some? ==> IsSizeLine(line, ChunkSize(text).value);
    }
  }
}
