/** Text as `String` and `str` treat it: UTF-8 decoding, trimming and hexadecimal numbers. */
module Text {
  import opened Types
  import opened Wrappers

  const CR: byte := 13
  const LF: byte := 10

  // ----- UTF-8

  predicate Continues(b: byte) {
    0x80 <= b < 0xc0
  }

  predicate IsScalar(n: int) {
    0 <= n < 0xd800 || 0xe000 <= n < 0x11_0000
  }

  /** The first character of a non-empty byte string and the number of bytes it takes. */
  function FirstChar(s: Bytes): (r: Option<(char, nat)>)
    requires s != []
    ensures r.Some? ==> 1 <= r.value.1 <= |s|
  {
    var b: int := s[0];
    if b < 0x80 then Some((b as char, 1))
    else if 0xc2 <= b < 0xe0 && |s| >= 2 && Continues(s[1]) then
      Checked((b - 0xc0) * 0x40 + Low6(s[1]), 0x80, 2)
    else if 0xe0 <= b < 0xf0 && |s| >= 3 && Continues(s[1]) && Continues(s[2]) then
      Checked((b - 0xe0) * 0x1000 + Low6(s[1]) * 0x40 + Low6(s[2]), 0x800, 3)
    else if 0xf0 <= b < 0xf5 && |s| >= 4 && Continues(s[1]) && Continues(s[2]) && Continues(s[3]) then
      Checked((b - 0xf0) * 0x4_0000 + Low6(s[1]) * 0x1000 + Low6(s[2]) * 0x40 + Low6(s[3]), 0x1_0000, 4)
    else None
  }

  function Low6(b: byte): int {
    b as int - 0x80
  }

  /** Code point `n` if it is a scalar value and not one that a shorter form encodes. */
  function Checked(n: int, least: int, length: nat): Option<(char, nat)> {
    if least <= n && IsScalar(n) then Some((n as char, length)) else None
  }

  function DecodeUtf8(s: Bytes): Option<string>
    decreases |s|
  {
    if s == [] then Some("") else
      var first := FirstChar(s);
      if first.None? then None else
      var rest := DecodeUtf8(s[first.value.1..]);
      if rest.None? then None else Some([first.value.0] + rest.value)
  }

  /** The number without its six lowest bits. */
  function Upper(n: nat): nat {
    n / 0x40
  }

  /** The byte that carries the six lowest bits. */
  function Tail(n: nat): byte {
    0x80 + n % 0x40
  }

  /** The UTF-8 form of a character (section 3 of RFC 3629). */
  function EncodeChar(c: char): (b: Bytes)
    ensures b != []
  {
    var n := c as int;
    if n < 0x80 then [n]
    else if n < 0x800 then [0xc0 + Upper(n), Tail(n)]
    else if n < 0x1_0000 then [0xe0 + Upper(Upper(n)), Tail(Upper(n)), Tail(n)]
    else [0xf0 + Upper(Upper(Upper(n))), Tail(Upper(Upper(n))), Tail(Upper(n)), Tail(n)]
  }

  function EncodeUtf8(s: string): Bytes {
    if s == "" then [] else EncodeChar(s[0]) + EncodeUtf8(s[1..])
  }

  lemma UpperAndTail(n: nat)
    ensures n == 0x40 * Upper(n) + Low6(Tail(n)) && Continues(Tail(n))
  {
  }

  lemma UpperAndTailOf(n: nat, h: nat, b: byte)
    requires Continues(b) && n == 0x40 * h + Low6(b)
    ensures Upper(n) == h && Tail(n) == b
  {
  }

  lemma FirstCharReads(c: char, rest: Bytes)
    ensures FirstChar(EncodeChar(c) + rest) == Some((c, |EncodeChar(c)|))
  {
    hide Upper, Tail, Continues;
    var n := c as int;
    UpperAndTail(n);
    UpperAndTail(Upper(n));
    UpperAndTail(Upper(Upper(n)));
    var b := EncodeChar(c);
    assert forall k :: 0 <= k < |b| ==> (b + rest)[k] == b[k];
  }

  lemma FirstCharWrites(s: Bytes)
    requires s != [] && FirstChar(s).Some?
    ensures EncodeChar(FirstChar(s).value.0) == s[..FirstChar(s).value.1]
  {
    hide Upper, Tail;
    var b: int := s[0];
    var (c, length) := FirstChar(s).value;
    match length {
      case 2 =>
        UpperAndTailOf(c as int, b - 0xc0, s[1]);
        assert s[..2] == [s[0], s[1]];
      case 3 =>
        UpperAndTailOf(c as int, (b - 0xe0) * 0x40 + Low6(s[1]), s[2]);
        UpperAndTailOf((b - 0xe0) * 0x40 + Low6(s[1]), b - 0xe0, s[1]);
      case 4 =>
        UpperAndTailOf(c as int, ((b - 0xf0) * 0x40 + Low6(s[1])) * 0x40 + Low6(s[2]), s[3]);
        UpperAndTailOf(((b - 0xf0) * 0x40 + Low6(s[1])) * 0x40 + Low6(s[2]), (b - 0xf0) * 0x40 + Low6(s[1]), s[2]);
        UpperAndTailOf((b - 0xf0) * 0x40 + Low6(s[1]), b - 0xf0, s[1]);
      case _ =>
    }
  }

  lemma {:induction false} EncodedDecodes(s: string)
    ensures DecodeUtf8(EncodeUtf8(s)) == Some(s)
    decreases |s|
  {
    hide FirstChar, EncodeChar;
    if s != "" {
      var b, rest := EncodeChar(s[0]), EncodeUtf8(s[1..]);
      FirstCharReads(s[0], rest);
      assert (b + rest)[|b|..] == rest;
      EncodedDecodes(s[1..]);
      assert s == [s[0]] + s[1..];
    }
  }

  lemma {:induction false} DecodedEncodes(b: Bytes)
    requires DecodeUtf8(b).Some?
    ensures EncodeUtf8(DecodeUtf8(b).value) == b
    decreases |b|
  {
    hide FirstChar, EncodeChar;
    if b != [] {
      var (c, n) := FirstChar(b).value;
      FirstCharWrites(b);
      DecodedEncodes(b[n..]);
      var rest := DecodeUtf8(b[n..]).value;
      assert ([c] + rest)[1..] == rest;
      assert b == b[..n] + b[n..];
    }
  }

  /** Decoding accepts the UTF-8 form of a text and nothing else. */
  lemma DecodesIffEncoded(b: Bytes, s: string)
    ensures DecodeUtf8(b) == Some(s) <==> b == EncodeUtf8(s)
  {
    hide DecodeUtf8, EncodeUtf8;
    EncodedDecodes(s);
    if DecodeUtf8(b).Some? { DecodedEncodes(b); }
  }

  predicate IsAscii(s: string) {
    forall i :: 0 <= i < |s| ==> s[i] as int < 0x80
  }

  /** The bytes of a text of ASCII characters. */
  function Ascii(s: string): (b: Bytes)
    requires IsAscii(s)
    ensures |b| == |s| && forall i :: 0 <= i < |s| ==> b[i] == s[i] as int
  {
    seq(|s|, i requires 0 <= i < |s| => s[i] as int)
  }

  lemma {:induction false} DecodeAscii(s: string)
    requires IsAscii(s)
    ensures DecodeUtf8(Ascii(s)) == Some(s)
    decreases |s|
  {
    if s != "" {
      DecodeAscii(s[1..]);
      assert Ascii(s)[1..] == Ascii(s[1..]);
      assert s == [s[0]] + s[1..];
    }
  }

  // ----- Trimming and splitting

  predicate IsWhitespace(c: char) {
    var n := c as int;
    || 0x09 <= n <= 0x0d || n == 0x20 || n == 0x85 || n == 0xa0 || n == 0x1680
    || 0x2000 <= n <= 0x200a || n == 0x2028 || n == 0x2029 || n == 0x202f || n == 0x205f || n == 0x3000
  }

  /** The white space among the ASCII characters: tab to carriage return, and the space. */
  lemma AsciiWhitespace(c: char)
    requires c as int < 0x80
    ensures IsWhitespace(c) <==> c in "\t\n\U{0b}\U{0c}\r "
  {
  }

  function TrimStart(s: string): string {
    if s != "" && IsWhitespace(s[0]) then TrimStart(s[1..]) else s
  }

  function TrimEnd(s: string): string {
    if s != "" && IsWhitespace(s[|s| - 1]) then TrimEnd(s[..|s| - 1]) else s
  }

  function Trim(s: string): string {
    TrimStart(TrimEnd(s))
  }

  predicate IsLineEnd(c: char) {
    c == '\r' || c == '\n'
  }

  function TrimLineEnd(s: string): string {
    if s != "" && IsLineEnd(s[|s| - 1]) then TrimLineEnd(s[..|s| - 1]) else s
  }

  /** The part of a text before the first occurrence of `sep`, or all of it. */
  function Before(s: string, sep: char): string {
    if s == "" || s[0] == sep then "" else [s[0]] + Before(s[1..], sep)
  }

  lemma {:induction false} TrimStartMeaning(s: string) returns (i: nat)
    ensures i <= |s| && TrimStart(s) == s[i..] && (i < |s| ==> !IsWhitespace(s[i]))
    ensures forall k :: 0 <= k < i ==> IsWhitespace(s[k])
    decreases |s|
  {
    i := 0;
    if s != "" && IsWhitespace(s[0]) {
      i := TrimStartMeaning(s[1..]);
      assert s[1..][i..] == s[i + 1..];
      assert forall k :: 0 < k <= i ==> s[k] == s[1..][k - 1];
      i := i + 1;
    }
  }

  lemma {:induction false} TrimEndMeaning(s: string) returns (j: nat)
    ensures j <= |s| && TrimEnd(s) == s[..j] && (j > 0 ==> !IsWhitespace(s[j - 1]))
    ensures forall k :: j <= k < |s| ==> IsWhitespace(s[k])
    decreases |s|
  {
    j := |s|;
    if s != "" && IsWhitespace(s[|s| - 1]) { j := TrimEndMeaning(s[..|s| - 1]); }
  }

  /** Trimming cuts white space, and nothing else, until neither end is white space. */
  lemma TrimMeaning(s: string) returns (i: nat, j: nat)
    ensures i <= j <= |s| && Trim(s) == s[i..j]
    ensures forall k :: 0 <= k < i || j <= k < |s| ==> IsWhitespace(s[k])
    ensures Trim(s) != "" ==> !IsWhitespace(Trim(s)[0]) && !IsWhitespace(Trim(s)[|Trim(s)| - 1])
  {
    hide IsWhitespace, TrimStart, TrimEnd;
    j := TrimEndMeaning(s);
    i := TrimStartMeaning(s[..j]);
    assert s[..j][i..] == s[i..j];
    assert forall k :: 0 <= k < i ==> s[k] == s[..j][k];
    if i < j { assert Trim(s)[j - i - 1] == s[j - 1] && Trim(s)[0] == s[i]; }
  }

  /** Trimming the end of a line cuts its carriage returns and line feeds. */
  lemma {:induction false} TrimLineEndMeaning(s: string) returns (j: nat)
    ensures j <= |s| && TrimLineEnd(s) == s[..j] && (j > 0 ==> s[j - 1] !in "\r\n")
    ensures forall k :: j <= k < |s| ==> s[k] in "\r\n"
    decreases |s|
  {
    j := |s|;
    if s != "" && IsLineEnd(s[|s| - 1]) { j := TrimLineEndMeaning(s[..|s| - 1]); }
  }

  lemma {:induction false} BeforeMeaning(s: string, sep: char)
    ensures Before(s, sep) <= s && sep !in Before(s, sep)
    ensures |Before(s, sep)| < |s| ==> s[|Before(s, sep)|] == sep
    decreases |s|
  {
    if s != "" && s[0] != sep {
      BeforeMeaning(s[1..], sep);
      assert s == [s[0]] + s[1..];
    }
  }

  // ----- Hexadecimal numbers

  const USIZE_BOUND: nat := 0x1_0000_0000_0000_0000

  function HexDigitValue(c: char): (d: Option<nat>)
    ensures d.Some? ==> d.value < 16
  {
    if '0' <= c <= '9' then Some(c as int - '0' as int)
    else if 'a' <= c <= 'f' then Some(c as int - 'a' as int + 10)
    else if 'A' <= c <= 'F' then Some(c as int - 'A' as int + 10)
    else None
  }

  function HexValue(s: string): Option<nat> {
    if s == "" then Some(0) else
      var init, last := HexValue(s[..|s| - 1]), HexDigitValue(s[|s| - 1]);
      if init.Some? && last.Some? then Some(16 * init.value + last.value) else None
  }

  /** `usize::from_str_radix(s, 16)`: at least one digit, perhaps after a plus sign, and no overflow. */
  function ParseHexUsize(s: string): Option<nat> {
    var digits := if |s| > 1 && s[0] == '+' then s[1..] else s;
    var value := if digits == "" then None else HexValue(digits);
    if value.Some? && value.value < USIZE_BOUND then value else None
  }

  function HexDigit(n: nat): char
    requires n < 16
  {
    "0123456789abcdef"[n]
  }

  function HexText(n: nat): string {
    if n < 16 then [HexDigit(n)] else HexText(n / 16) + [HexDigit(n % 16)]
  }

  predicate IsLowerHex(c: char) {
    '0' <= c <= '9' || 'a' <= c <= 'f'
  }

  lemma HexDigitReads(n: nat)
    requires n < 16
    ensures HexDigitValue(HexDigit(n)) == Some(n) && IsLowerHex(HexDigit(n))
  {
  }

  function UpperHexDigit(n: nat): char
    requires n < 16
  {
    "0123456789ABCDEF"[n]
  }

  lemma UpperHexDigitReads(n: nat)
    requires n < 16
    ensures HexDigitValue(UpperHexDigit(n)) == Some(n)
  {
  }

  /** Nothing else is a digit. */
  lemma HexDigitWrites(c: char)
    ensures var d := HexDigitValue(c); d.Some? ==> c == HexDigit(d.value) || c == UpperHexDigit(d.value)
  {
  }

  lemma {:induction false} HexTextReads(n: nat)
    ensures HexValue(HexText(n)) == Some(n) && |HexText(n)| > 0
    ensures forall i :: 0 <= i < |HexText(n)| ==> IsLowerHex(HexText(n)[i])
    decreases n
  {
    hide HexDigit, HexDigitValue, IsLowerHex;
    if n < 16 {
      HexDigitReads(n);
      assert HexText(n)[..0] == "";
    } else {
      HexTextReads(n / 16);
      HexDigitReads(n % 16);
      assert HexText(n)[..|HexText(n)| - 1] == HexText(n / 16);
    }
  }

  lemma {:induction false} HexValueMeaning(s: string)
    ensures HexValue(s).Some? <==> forall i :: 0 <= i < |s| ==> HexDigitValue(s[i]).Some?
    decreases |s|
  {
    if s != "" { HexValueMeaning(s[..|s| - 1]); }
  }

  /** A text with at least one digit and no more than a plus sign before it. */
  ghost predicate Spells(s: string, digits: string) {
    digits != "" && (s == digits || s == "+" + digits)
  }

  /** The texts that are read as the number `v`. */
  lemma ParsesIff(s: string, v: nat)
    ensures ParseHexUsize(s) == Some(v)
            <==> v < 0x1_0000_0000_0000_0000 && exists digits :: Spells(s, digits) && HexValue(digits) == Some(v)
  {
    hide HexValue;
    HexValueMeaning(s);
    if s != "" && s[0] == '+' {
      assert HexDigitValue(s[0]).None?;
      assert s == "+" + s[1..] && Spells(s, s[1..]) <==> |s| > 1;
    } else {
      assert Spells(s, s) <==> s != "";
    }
    forall digits | Spells(s, digits) && HexValue(digits).Some?
      ensures digits == if s[0] == '+' then s[1..] else s
    {
    }
  }

  lemma HexTextParses(n: nat)
    ensures ParseHexUsize(HexText(n)) == if n < USIZE_BOUND then Some(n) else None
  {
    HexTextReads(n);
    assert IsLowerHex(HexText(n)[0]);
  }

  lemma TrimHexText(n: nat)
    ensures Trim(HexText(n)) == HexText(n)
  {
    HexTextReads(n);
    var s := HexText(n);
    assert IsLowerHex(s[0]) && IsLowerHex(s[|s| - 1]);
  }
}
