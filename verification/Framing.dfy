/**
 HTTP/1.1 request framing: the bounded line reader, the fixed-length body and the chunked body
 (section 7.1 of RFC 9112).
 */
module Framing {
  import opened Types
  import opened Wrappers
  import opened Text

  const MAX_HEADER_BYTES: nat := 64 * 1024
  const MAX_LINE_BYTES: nat := 8 * 1024

  /** The status of the error response. */
  type Status = nat

  // ----- What the readers compute, as functions of the bytes still to come

  /** Number of bytes through the first newline, or all of them if there is none. */
  function LineLength(stream: Bytes): (n: nat)
    ensures n <= |stream|
    ensures forall i :: 0 <= i < n - 1 ==> stream[i] != LF
    ensures n == |stream| || (n > 0 && stream[n - 1] == LF)
  {
    if stream == [] then 0 else if stream[0] == LF then 1 else 1 + LineLength(stream[1..])
  }

  /** A line, the bytes that follow it, and the running total of header bytes. */
  datatype Line = Line(text: string, rest: Bytes, total: nat)

  function ReadLine(stream: Bytes, total: nat): (r: Result<Line, Status>)
    ensures r.Ok? ==> |r.value.rest| + LineLength(stream) == |stream|
    ensures r.Ok? && r.value.text != "" ==> LineLength(stream) > 0
  {
    var n := LineLength(stream);
    if n > MAX_LINE_BYTES || total + n > MAX_HEADER_BYTES then Err(431)
    else match DecodeUtf8(stream[..n])
      case None => Err(400)
      case Some(text) => Ok(Line(text, stream[n..], total + n))
  }

  datatype Body = Body(bytes: Bytes, rest: Bytes, total: nat)

  function ChunkSize(line: string): Option<nat> {
    ParseHexUsize(Trim(Before(TrimLineEnd(line), ';')))
  }

  /** Reads trailer lines up to an empty one. */
  function ReadTrailer(stream: Bytes, total: nat): Result<(Bytes, nat), Status>
    decreases |stream|
  {
    match ReadLine(stream, total)
    case Err(status) => Err(status)
    case Ok(line) =>
      if line.text == "\r\n" || line.text == "\n" then Ok((line.rest, line.total))
      else if line.text == "" || ':' !in line.text then Err(400)
      else ReadTrailer(line.rest, line.total)
  }

  /** Reads chunks onto `body` up to the last chunk and its trailer. */
  function ReadChunks(stream: Bytes, cap: nat, total: nat, body: Bytes): Result<Body, Status>
    decreases |stream|
  {
    match ReadLine(stream, total)
    case Err(status) => Err(status)
    case Ok(line) =>
      match ChunkSize(line.text)
      case None => Err(400)
      case Some(size) =>
        if size == 0 then
          match ReadTrailer(line.rest, line.total)
          case Err(status) => Err(status)
          case Ok((rest, total')) => Ok(Body(body, rest, total'))
        else if |body| + size > cap then Err(413)
        else if size + 2 > |line.rest| then Err(400)
        else if line.rest[size..size + 2] != [CR, LF] then Err(400)
        else ReadChunks(line.rest[size + 2..], cap, line.total, body + line.rest[..size])
  }

  // ----- The readers over a segmented buffer

  function Flatten(segments: seq<Bytes>): Bytes {
    if segments == [] then [] else segments[0] + Flatten(segments[1..])
  }

  lemma TakeMore(taken: Bytes, rest: Bytes, available: Bytes, count: nat)
    requires available <= rest && count <= |available|
    ensures taken + rest == (taken + available[..count]) + rest[count..]
  {
    assert rest == available[..count] + rest[count..];
  }

  lemma SplitAfter(taken: Bytes, rest: Bytes)
    ensures (taken + rest)[..|taken|] == taken && (taken + rest)[|taken|..] == rest
  {
  }

  /** A buffered reader: `segments` are what successive fills of the buffer will yield. */
  class BufReader {
    var segments: seq<Bytes>

    ghost predicate Valid()
      reads this
    {
      forall i :: 0 <= i < |segments| ==> segments[i] != []
    }

    ghost function Stream(): Bytes
      reads this
    {
      Flatten(segments)
    }

    constructor (segments: seq<Bytes>)
      requires forall i :: 0 <= i < |segments| ==> segments[i] != []
      ensures Valid() && Stream() == Flatten(segments)
    {
      this.segments := segments;
    }

    /** The bytes at hand; none only at the end of input. */
    method FillBuf() returns (available: Bytes)
      requires Valid()
      ensures available <= Stream()
      ensures available == [] <==> Stream() == []
      ensures segments != [] ==> available == segments[0]
      ensures segments == [] <==> available == []
    {
      available := if segments == [] then [] else segments[0];
    }

    method Consume(n: nat)
      requires Valid() && n <= |Stream()| && (n > 0 ==> segments != [] && n <= |segments[0]|)
      modifies this
      ensures Valid() && Stream() == old(Stream())[n..]
    {
      if n == 0 { return; }
      if n == |segments[0]| {
        segments := segments[1..];
      } else {
        segments := segments[0 := segments[0][n..]];
      }
    }

    /** Exactly `n` bytes, or nothing if the input ends before. */
    method ReadExact(n: nat) returns (bytes: Option<Bytes>)
      requires Valid()
      modifies this
      ensures Valid()
      ensures if n <= |old(Stream())| then bytes == Some(old(Stream())[..n]) && Stream() == old(Stream())[n..]
              else bytes.None?
    {
      hide Flatten;
      ghost var stream := Stream();
      var got: Bytes := [];
      while |got| < n
        invariant Valid() && |got| <= n && stream == got + Stream()
        decreases n - |got|
      {
        var available := FillBuf();
        if available == [] { return None; }
        var count := if |available| <= n - |got| then |available| else n - |got|;
        TakeMore(got, Stream(), available, count);
        got := got + available[..count];
        Consume(count);
      }
      SplitAfter(got, Stream());
      return Some(got);
    }
  }

  method FindNewline(bytes: Bytes) returns (count: nat)
    ensures count == LineLength(bytes)
  {
    count := 0;
    while count < |bytes| && bytes[count] != LF
      invariant count <= |bytes| && LineLength(bytes) == count + LineLength(bytes[count..])
    {
      assert bytes[count..][1..] == bytes[count + 1..];
      count := count + 1;
    }
    if count < |bytes| { count := count + 1; }
  }

  ghost predicate NoNewline(s: Bytes) {
    forall i :: 0 <= i < |s| ==> s[i] != LF
  }

  lemma {:induction false} LineLengthOfPrefix(a: Bytes, b: Bytes)
    requires NoNewline(a)
    ensures LineLength(a + b) == |a| + LineLength(b)
    decreases |a|
  {
    if a == [] {
      assert a + b == b;
    } else {
      assert (a + b)[1..] == a[1..] + b;
      assert forall i :: 0 <= i < |a| - 1 ==> a[1..][i] == a[i + 1];
      LineLengthOfPrefix(a[1..], b);
    }
  }

  lemma LineLengthOfLine(a: Bytes, b: Bytes)
    requires a != [] && NoNewline(a[..|a| - 1]) && a[|a| - 1] == LF
    ensures LineLength(a + b) == |a|
  {
    var init := a[..|a| - 1];
    assert a + b == init + ([LF] + b);
    assert LineLength([LF] + b) == 1;
    hide LineLength, NoNewline;
    LineLengthOfPrefix(init, [LF] + b);
  }

  /** `part`, of which only the last byte may be a newline, belongs to the line of which `bytes` has been read. */
  lemma LineContinues(bytes: Bytes, part: Bytes, after: Bytes)
    requires NoNewline(bytes) && part != [] && NoNewline(part[..|part| - 1])
    ensures |bytes| + |part| <= LineLength(bytes + (part + after))
    ensures part[|part| - 1] == LF ==> LineLength(bytes + (part + after)) == |bytes| + |part|
    ensures part[|part| - 1] != LF ==> NoNewline(bytes + part)
  {
    hide LineLength, NoNewline;
    LineLengthOfPrefix(bytes, part + after);
    if part[|part| - 1] == LF {
      LineLengthOfLine(part, after);
    } else {
      NoNewlineAtEnd(bytes, part);
      LineLengthOfPrefix(part, after);
    }
  }

  lemma NoNewlineAtEnd(bytes: Bytes, part: Bytes)
    requires NoNewline(bytes) && part != [] && NoNewline(part[..|part| - 1]) && part[|part| - 1] != LF
    ensures NoNewline(part) && NoNewline(bytes + part)
  {
    assert forall i :: 0 <= i < |part| - 1 ==> part[..|part| - 1][i] == part[i];
  }

  lemma LinePart(available: Bytes, count: nat)
    requires available != [] && count == LineLength(available)
    ensures 0 < count <= |available| && NoNewline(available[..count][..count - 1])
  {
  }

  /** One fill of the buffer: the line read so far grows by `count` bytes of it. */
  lemma LineGrows(stream: Bytes, bytes: Bytes, rest: Bytes, available: Bytes, count: nat)
    requires stream == bytes + rest && NoNewline(bytes)
    requires available != [] && available <= rest && count == LineLength(available)
    ensures 0 < count <= |available|
    ensures var more := bytes + available[..count];
            && stream == more + rest[count..] && |more| == |bytes| + count <= LineLength(stream)
            && (if more[|more| - 1] == LF then |more| == LineLength(stream) else NoNewline(more))
  {
    hide LineLength, NoNewline;
    LinePart(available, count);
    var part, after := available[..count], rest[count..];
    TakeMore(bytes, rest, available, count);
    assert rest == part + after;
    LineContinues(bytes, part, after);
  }

  /** What `ReadLine` yields once its line is known. */
  lemma ReadLineIs(bytes: Bytes, rest: Bytes, total: nat)
    requires |bytes| == LineLength(bytes + rest)
    ensures ReadLine(bytes + rest, total)
            == if |bytes| > MAX_LINE_BYTES || total + |bytes| > MAX_HEADER_BYTES then Err(431)
               else match DecodeUtf8(bytes)
                 case None => Err(400)
                 case Some(text) => Ok(Line(text, rest, total + |bytes|))
  {
    hide LineLength, DecodeUtf8;
    SplitAfter(bytes, rest);
  }

  lemma LongLine(stream: Bytes, total: nat)
    requires LineLength(stream) > MAX_LINE_BYTES
    ensures ReadLine(stream, total) == Err(431)
  {
  }

  lemma LineEnds(bytes: Bytes)
    requires NoNewline(bytes)
    ensures LineLength(bytes + []) == |bytes|
  {
    LineLengthOfPrefix(bytes, []);
  }

  /**
   What reading a line takes from `stream`, `left` being what is left of it: the whole line, which is added to
   the running total; of a line that is too long only some part that is not.
   */
  ghost predicate Consumed(stream: Bytes, left: Bytes, total: nat, total': nat) {
    && |left| <= |stream| <= |left| + MAX_LINE_BYTES
    && left == stream[|stream| - |left|..]
    && if LineLength(stream) <= MAX_LINE_BYTES
       then |stream| == |left| + LineLength(stream) && total' == total + LineLength(stream)
       else total' == total
  }

  lemma ConsumedLine(bytes: Bytes, rest: Bytes, total: nat)
    requires |bytes| == LineLength(bytes + rest) <= MAX_LINE_BYTES
    ensures Consumed(bytes + rest, rest, total, total + |bytes|)
  {
    hide LineLength;
  }

  lemma ConsumedPart(bytes: Bytes, rest: Bytes, total: nat)
    requires |bytes| <= MAX_LINE_BYTES < LineLength(bytes + rest)
    ensures Consumed(bytes + rest, rest, total, total)
  {
    hide LineLength;
  }

  /**
   `read_bounded_line`: its result depends on the bytes only, not on the segments, and so does what it consumes
   unless the line is too long; then it stops at a segment within the first 8 KiB of the line.
   */
  method ReadBoundedLine(reader: BufReader, total: nat) returns (r: Result<string, Status>, total': nat)
    requires reader.Valid()
    modifies reader
    ensures reader.Valid()
    ensures match ReadLine(old(reader.Stream()), total)
            case Err(status) => r == Err(status)
            case Ok(line) => r == Ok(line.text) && reader.Stream() == line.rest && total' == line.total
    ensures Consumed(old(reader.Stream()), reader.Stream(), total, total')
    ensures r == Err(431) <==> LineLength(old(reader.Stream())) > 8192
                               || total + LineLength(old(reader.Stream())) > 65536
    ensures r.Ok? ==> old(reader.Stream()) == EncodeUtf8(r.value) + reader.Stream()
    ensures r.Err? ==> r.error == 431 || r.error == 400
  {
    hide LineLength, NoNewline, DecodeUtf8, Flatten, ReadLine, Consumed, BufReader.Stream, BufReader.Valid;
    ghost var stream := reader.Stream();
    var bytes: Bytes := [];
    total' := total;
    assert NoNewline([]) by { NothingHasNoNewline(); }
    while true
      invariant reader.Valid() && stream == bytes + reader.Stream() && |bytes| <= MAX_LINE_BYTES
      invariant NoNewline(bytes)
      decreases |stream| - |bytes|
    {
      var available := reader.FillBuf();
      if available == [] {
        LineEnds(bytes);
        break;
      }
      var count := FindNewline(available);
      LineGrows(stream, bytes, reader.Stream(), available, count);
      if |bytes| + count > MAX_LINE_BYTES {
        LongLine(stream, total);
        ConsumedPart(bytes, reader.Stream(), total);
        return Err(431), total;
      }
      bytes := bytes + available[..count];
      reader.Consume(count);
      if bytes[|bytes| - 1] == LF { break; }
    }
    ReadLineIs(bytes, reader.Stream(), total);
    if DecodeUtf8(bytes).Some? { DecodesIffEncoded(bytes, DecodeUtf8(bytes).value); }
    ConsumedLine(bytes, reader.Stream(), total);
    total' := total + |bytes|;
    if total' > MAX_HEADER_BYTES {
      return Err(431), total';
    }
    var text := DecodeUtf8(bytes);
    if text.None? { return Err(400), total'; }
    return Ok(text.value), total';
  }

  lemma NothingHasNoNewline()
    ensures NoNewline([])
  {
  }

  /** `read_n_body`. */
  method ReadNBody(reader: BufReader, length: nat, cap: nat) returns (r: Result<Bytes, Status>)
    requires reader.Valid()
    modifies reader
    ensures reader.Valid()
    ensures length > cap ==> r == Err(413) && reader.Stream() == old(reader.Stream())
    ensures length <= cap && |old(reader.Stream())| < length ==> r == Err(400)
    ensures length <= cap && length <= |old(reader.Stream())|
            ==> r.Ok? && |r.value| == length && old(reader.Stream()) == r.value + reader.Stream()
  {
    if length > cap { return Err(413); }
    var body := reader.ReadExact(length);
    if body.None? { return Err(400); }
    return Ok(body.value);
  }

  method ReadTrailerLines(reader: BufReader, total: nat) returns (status: Option<Status>, total': nat)
    requires reader.Valid()
    modifies reader
    ensures reader.Valid()
    ensures match ReadTrailer(old(reader.Stream()), total)
            case Err(e) => status == Some(e)
            case Ok((rest, t)) => status == None && reader.Stream() == rest && total' == t
  {
    hide Consumed, ReadLine, DecodeUtf8;
    ghost var whole := ReadTrailer(reader.Stream(), total);
    total' := total;
    while true
      invariant reader.Valid() && ReadTrailer(reader.Stream(), total') == whole
      decreases |reader.Stream()|
    {
      ghost var before := ReadLine(reader.Stream(), total');
      var line, t := ReadBoundedLine(reader, total');
      if line.Err? { return Some(line.error), t; }
      total' := t;
      if line.value == "\r\n" || line.value == "\n" { return None, total'; }
      if line.value == "" || ':' !in line.value { return Some(400), total'; }
    }
  }

  /** The growing body; `peak` is the largest size it has had. */
  class BodyBuffer {
    var bytes: Bytes
    ghost var peak: nat

    constructor ()
      ensures bytes == [] && peak == 0
    {
      bytes, peak := [], 0;
    }

    /** Grows to `n` bytes, the new ones being zero. */
    method Resize(n: nat)
      requires |bytes| <= n
      modifies this
      ensures |bytes| == n && bytes[..|old(bytes)|] == old(bytes)
      ensures peak == if old(peak) < n then n else old(peak)
    {
      bytes := bytes + seq(n - |bytes|, _ => 0);
      peak := if peak < n then n else peak;
    }

    /** Overwrites the bytes from `start` on. */
    method Fill(start: nat, data: Bytes)
      requires start + |data| == |bytes|
      modifies this`bytes
      ensures bytes == old(bytes)[..start] + data
    {
      bytes := bytes[..start] + data;
    }
  }

  /** `read_chunked_body`. Whatever the input and the outcome, the body never holds more than `cap` bytes. */
  method ReadChunkedBody(reader: BufReader, cap: nat, total: nat, body: BodyBuffer)
    returns (r: Result<Bytes, Status>, total': nat)
    requires reader.Valid() && body.bytes == [] && body.peak == 0
    modifies reader, body
    ensures reader.Valid()
    ensures match ReadChunks(old(reader.Stream()), cap, total, [])
            case Err(status) => r == Err(status)
            case Ok(read) => r == Ok(read.bytes) && reader.Stream() == read.rest && total' == read.total
    ensures body.peak <= cap && (r.Ok? ==> r.value == body.bytes)
  {
    hide Consumed, ReadLine, DecodeUtf8, ReadTrailer, ChunkSize;
    ghost var whole := ReadChunks(reader.Stream(), cap, total, []);
    total' := total;
    while true
      invariant reader.Valid() && |body.bytes| <= cap && body.peak <= cap
      invariant ReadChunks(reader.Stream(), cap, total', body.bytes) == whole
      decreases |reader.Stream()|
    {
      var line, t := ReadBoundedLine(reader, total');
      if line.Err? { return Err(line.error), t; }
      total' := t;
      var size := ChunkSize(line.value);
      if size.None? { return Err(400), total'; }
      if size.value == 0 {
        var status, t := ReadTrailerLines(reader, total');
        if status.Some? { return Err(status.value), t; }
        return Ok(body.bytes), t;
      }
      var start := |body.bytes|;
      if start + size.value > cap { return Err(413), total'; }
      ghost var before, rest := body.bytes, reader.Stream();
      body.Resize(start + size.value);
      var chunk := reader.ReadExact(size.value);
      if chunk.None? { return Err(400), total'; }
      body.Fill(start, chunk.value);
      assert body.bytes == before + chunk.value;
      var crlf := reader.ReadExact(2);
      if crlf.None? { return Err(400), total'; }
      assert rest[size.value..size.value + 2] == rest[size.value..][..2];
      if crlf.value != [CR, LF] { return Err(400), total'; }
    }
  }
}
