/**
 The integrity sidecar of an artifact and the paths an atomic write uses (`ArtifactMeta`,
 `data_fingerprint_matches`).
 */
module Artifact {
  import opened Types
  import opened Wrappers
  import opened Crc32c
  import Text

  datatype ArtifactMeta = ArtifactMeta(
    schemaVersion: string,
    sizeBytes: nat,
    blake3Hex: string,
    sealedAtUnix: int,
    crc32cHex: string)

  /** BLAKE3 and the JSON form of the sidecar, neither of which is interpreted here. */
  datatype Env = Env(
    blake3Hex: Octets -> string,
    encode: ArtifactMeta -> Octets,
    decode: Octets -> Option<ArtifactMeta>)

  /** The JSON form of a sidecar can be read back. */
  ghost predicate RoundTrips(env: Env) {
    forall m :: env.decode(env.encode(m)) == Some(m)
  }

  // ----- Hexadecimal

  function Digit(w: bv64): char
    requires w < 16
  {
    Text.HexDigit(w as nat)
  }

  lemma DigitIsInjective(v: bv64, w: bv64)
    requires v < 16 && w < 16 && Digit(v) == Digit(w)
    ensures v == w
  {
    Text.HexDigitReads(v as nat);
    Text.HexDigitReads(w as nat);
    assert v as int == w as int;
  }

  /** The `n` lowest hexadecimal digits of `w`, the most significant one first. */
  function Hex(w: bv64, n: nat): (s: string)
    ensures |s| == n
  {
    if n == 0 then "" else Hex(Rest(w), n - 1) + [LastDigit(w)]
  }

  function Rest(w: bv64): bv64 {
    w >> 4
  }

  function LastDigit(w: bv64): char {
    LastNibbleSmall(w);
    Digit(w & 0xf)
  }

  lemma LastNibbleSmall(w: bv64)
    ensures w & 0xf < 16
  {
  }

  /** What is left of `w` when its `n` lowest hexadecimal digits are dropped. */
  function Drop(w: bv64, n: nat): bv64
    decreases n
  {
    if n == 0 then w else Drop(Rest(w), n - 1)
  }

  lemma JoinNibble(v: bv64, w: bv64)
    requires v >> 4 == w >> 4 && v & 0xf == w & 0xf
    ensures v == w
  {
  }

  lemma LastDigitIsInjective(v: bv64, w: bv64)
    requires LastDigit(v) == LastDigit(w)
    ensures v & 0xf == w & 0xf
  {
    LastNibbleSmall(v);
    LastNibbleSmall(w);
    DigitIsInjective(v & 0xf, w & 0xf);
  }

  lemma RestAndLastDigit(v: bv64, w: bv64)
    requires Rest(v) == Rest(w) && LastDigit(v) == LastDigit(w)
    ensures v == w
  {
    hide LastDigit, Rest;
    LastDigitIsInjective(v, w);
    RestIsInjective(v, w);
    JoinNibble(v, w);
  }

  lemma RestIsInjective(v: bv64, w: bv64)
    requires Rest(v) == Rest(w)
    ensures v >> 4 == w >> 4
  {
  }

  lemma {:induction false} HexIsInjective(v: bv64, w: bv64, n: nat)
    requires Hex(v, n) == Hex(w, n) && Drop(v, n) == Drop(w, n)
    ensures v == w
    decreases n
  {
    hide LastDigit, Rest;
    if n > 0 {
      assert Hex(v, n)[n - 1] == Hex(w, n)[n - 1];
      assert Hex(v, n)[..n - 1] == Hex(w, n)[..n - 1];
      HexIsInjective(Rest(v), Rest(w), n - 1);
      RestAndLastDigit(v, w);
    }
  }

  function Rest4(w: bv64): bv64 {
    w >> 16
  }

  lemma FourRests(w: bv64)
    ensures Rest(Rest(Rest(Rest(w)))) == Rest4(w)
  {
  }

  lemma DropFour(w: bv64, n: nat)
    requires n >= 4
    ensures Drop(w, n) == Drop(Rest4(w), n - 4)
  {
    hide Rest, Rest4;
    FourRests(w);
    assert Drop(w, n) == Drop(Rest(Rest(w)), n - 2);
    assert Drop(Rest(Rest(w)), n - 2) == Drop(Rest(Rest(Rest(Rest(w)))), n - 4);
  }

  lemma Rest4ToZero(w: bv64)
    ensures Rest4(Rest4(Rest4(Rest4(w)))) == 0
    ensures w <= 0xffff_ffff ==> Rest4(Rest4(w)) == 0
  {
  }

  lemma DropAll(w: bv64)
    ensures Drop(w, 16) == 0
    ensures w <= 0xffff_ffff ==> Drop(w, 8) == 0
  {
    hide Drop, Rest4;
    DropFour(w, 16);
    DropFour(Rest4(w), 12);
    DropFour(Rest4(Rest4(w)), 8);
    DropFour(Rest4(Rest4(Rest4(w))), 4);
    DropFour(w, 8);
    DropFour(Rest4(w), 4);
    Rest4ToZero(w);
    DropNone(Rest4(Rest4(Rest4(Rest4(w)))));
    DropNone(Rest4(Rest4(w)));
  }

  lemma DropNone(w: bv64)
    ensures Drop(w, 0) == w
  {
  }

  function Hex16(nonce: bv64): string {
    Hex(nonce, 16)
  }

  lemma Hex16IsInjective(v: bv64, w: bv64)
    requires Hex16(v) == Hex16(w)
    ensures v == w
  {
    DropAll(v);
    DropAll(w);
    HexIsInjective(v, w, 16);
  }

  function Hex8(crc: bv32): string {
    Hex(crc as bv64, 8)
  }

  lemma Hex8IsInjective(x: bv32, y: bv32)
    requires Hex8(x) == Hex8(y)
    ensures x == y
  {
    hide Hex;
    Widened(x);
    Widened(y);
    DropAll(x as bv64);
    DropAll(y as bv64);
    HexIsInjective(x as bv64, y as bv64, 8);
    WideningIsInjective(x, y);
  }

  lemma Widened(x: bv32)
    ensures x as bv64 <= 0xffff_ffff
  {
  }

  lemma WideningIsInjective(x: bv32, y: bv32)
    requires x as bv64 == y as bv64
    ensures x == y
  {
  }

  // ----- The digits read back

  function DigitWord(c: char): bv64 {
    var d := Text.HexDigitValue(c);
    if d.Some? then d.value as bv64 else 0
  }

  /** The number that hexadecimal digits spell. */
  function WordOf(s: string): bv64 {
    if s == "" then 0 else 16 * WordOf(s[..|s| - 1]) + DigitWord(s[|s| - 1])
  }

  lemma DigitReads(v: bv64)
    requires v < 16
    ensures DigitWord(Digit(v)) == v
  {
    Text.HexDigitReads(v as nat);
  }

  lemma LastDigitReads(w: bv64)
    ensures DigitWord(LastDigit(w)) == w & 0xf
  {
    hide DigitWord, Digit;
    LastNibbleSmall(w);
    DigitReads(w & 0xf);
  }

  lemma Rejoined(w: bv64)
    ensures 16 * Rest(w) + (w & 0xf) == w
  {
  }

  lemma {:induction false} HexReads(w: bv64, n: nat)
    requires Drop(w, n) == 0
    ensures WordOf(Hex(w, n)) == w
    decreases n
  {
    hide LastDigit, Rest, DigitWord;
    if n > 0 {
      HexReads(Rest(w), n - 1);
      LastDigitReads(w);
      Rejoined(w);
      assert Hex(w, n)[..n - 1] == Hex(Rest(w), n - 1);
    }
  }

  /** The digits spell the number. */
  lemma HexSpells(crc: bv32, nonce: bv64)
    ensures |Hex8(crc)| == 8 && WordOf(Hex8(crc)) == crc as bv64
    ensures |Hex16(nonce)| == 16 && WordOf(Hex16(nonce)) == nonce
  {
    hide Hex, Drop, WordOf;
    Widened(crc);
    DropAll(crc as bv64);
    DropAll(nonce);
    HexReads(crc as bv64, 8);
    HexReads(nonce, 16);
  }

  // ----- Fingerprints

  function ComputeMeta(env: Env, data: Octets, now: int): ArtifactMeta {
    ArtifactMeta("v1", |data|, env.blake3Hex(data), now, Hex8(BitSerial(data)))
  }

  method Crc32cHex(data: Octets) returns (s: string)
    ensures s == Hex8(BitSerial(data))
  {
    var crc := Checksum(data);
    s := Hex8(crc);
  }

  predicate Matches(env: Env, data: Octets, meta: ArtifactMeta) {
    |data| == meta.sizeBytes && env.blake3Hex(data) == meta.blake3Hex && Hex8(BitSerial(data)) == meta.crc32cHex
  }

  method DataFingerprintMatches(env: Env, data: Octets, meta: ArtifactMeta) returns (ok: bool)
    ensures ok == Matches(env, data, meta)
  {
    if |data| != meta.sizeBytes { return false; }
    if env.blake3Hex(data) != meta.blake3Hex { return false; }
    var crc := Crc32cHex(data);
    return crc == meta.crc32cHex;
  }

  /** Data matches a sidecar exactly if it has the sidecar computed of it, but for the time and the version. */
  lemma MatchesIff(env: Env, data: Octets, meta: ArtifactMeta, now: int)
    ensures Matches(env, data, meta)
            <==> meta == ComputeMeta(env, data, now).(schemaVersion := meta.schemaVersion,
                                                      sealedAtUnix := meta.sealedAtUnix)
  {
    hide BitSerial, Hex8;
  }

  /** Two payloads that match one sidecar have one size, one BLAKE3 and one CRC-32C. */
  lemma SharedSidecar(env: Env, data: Octets, other: Octets, meta: ArtifactMeta)
    requires Matches(env, data, meta) && Matches(env, other, meta)
    ensures |data| == |other| && env.blake3Hex(data) == env.blake3Hex(other) && BitSerial(data) == BitSerial(other)
  {
    hide BitSerial, Hex8;
    Hex8IsInjective(BitSerial(data), BitSerial(other));
  }

  /** The checksum in a sidecar: the digits of the known CRC of a known text spell that CRC. */
  lemma SidecarOfNineDigits(env: Env, now: int)
    ensures var meta := ComputeMeta(env, NINE_DIGITS, now);
            && meta.sizeBytes == 9 && |meta.crc32cHex| == 8 && WordOf(meta.crc32cHex) == 0xe306_9283
            && meta.schemaVersion == "v1" && meta.sealedAtUnix == now && meta.blake3Hex == env.blake3Hex(NINE_DIGITS)
  {
    hide BitSerial, Hex8, WordOf;
    CheckValue();
    HexSpells(0xe306_9283, 0);
  }

  lemma OwnMetaMatches(env: Env, data: Octets, now: int)
    ensures Matches(env, data, ComputeMeta(env, data, now))
  {
  }

  /** Whatever BLAKE3 does, data changed within 32 consecutive bits does not match its old sidecar. */
  lemma TamperingIsDetected(env: Env, data: Octets, other: Octets, before: seq<bool>, u: seq<bool>, v: seq<bool>,
                            after: seq<bool>, now: int)
    requires Bits(data) == before + u + after && Bits(other) == before + v + after
    requires |u| == |v| <= 32 && u != v
    ensures !Matches(env, other, ComputeMeta(env, data, now))
  {
    hide BitSerial, Hex8, Bits;
    BurstChangesChecksum(data, other, before, u, v, after);
    if Matches(env, other, ComputeMeta(env, data, now)) {
      Hex8IsInjective(BitSerial(data), BitSerial(other));
    }
  }

  /** The same of whole bytes. */
  lemma FourBytesAreDetected(env: Env, before: Octets, u: Octets, v: Octets, after: Octets, now: int)
    requires |u| == |v| <= 4 && u != v
    ensures !Matches(env, before + v + after, ComputeMeta(env, before + u + after, now))
  {
    hide BitSerial, Hex8;
    FourBytesChangeChecksum(before, u, v, after);
    if Matches(env, before + v + after, ComputeMeta(env, before + u + after, now)) {
      Hex8IsInjective(BitSerial(before + u + after), BitSerial(before + v + after));
    }
  }

  // ----- Paths

  function MetaPath(dest: Path): Path {
    dest + ".meta.json"
  }

  function TmpPath(dest: Path, nonce: bv64): Path {
    dest + ".tmp." + Hex16(nonce)
  }

  function TmpMetaPath(dest: Path, nonce: bv64): Path {
    MetaPath(dest) + ".tmp." + Hex16(nonce)
  }

  /** Sixteen hexadecimal digits that spell the nonce. */
  predicate Spells(digits: string, nonce: bv64) {
    |digits| == 16 && WordOf(digits) == nonce
  }

  /** The names of the four files. */
  lemma PathsAre(dest: Path, nonce: bv64)
    ensures MetaPath(dest) == dest + ".meta.json"
    ensures exists digits :: Spells(digits, nonce) && TmpPath(dest, nonce) == dest + ".tmp." + digits
                             && TmpMetaPath(dest, nonce) == dest + ".meta.json.tmp." + digits
  {
    hide Hex, WordOf;
    HexSpells(0, nonce);
    assert Spells(Hex16(nonce), nonce);
    assert dest + ".meta.json" + ".tmp." + Hex16(nonce) == dest + ".meta.json.tmp." + Hex16(nonce);
  }

  /** The four paths of a write differ, and writes with different nonces share no temporary path. */
  lemma PathsAreDistinct(dest: Path, v: bv64, w: bv64)
    ensures MetaPath(dest) != dest
    ensures TmpPath(dest, v) != dest && TmpPath(dest, v) != MetaPath(dest)
    ensures TmpMetaPath(dest, v) != dest && TmpMetaPath(dest, v) != MetaPath(dest)
    ensures TmpPath(dest, v) != TmpMetaPath(dest, w)
    ensures v != w ==> TmpPath(dest, v) != TmpPath(dest, w) && TmpMetaPath(dest, v) != TmpMetaPath(dest, w)
  {
    hide Hex;
    var n := |dest|;
    assert TmpPath(dest, v)[n + 1] == 't' && MetaPath(dest)[n + 1] == 'm' && TmpMetaPath(dest, w)[n + 1] == 'm';
    assert |TmpMetaPath(dest, v)| == n + 31 && |MetaPath(dest)| == n + 10 && |TmpPath(dest, v)| == n + 21;
    assert TmpPath(dest, v)[n + 5..] == Hex16(v) && TmpPath(dest, w)[n + 5..] == Hex16(w);
    assert TmpMetaPath(dest, v)[n + 15..] == Hex16(v) && TmpMetaPath(dest, w)[n + 15..] == Hex16(w);
    if Hex16(v) == Hex16(w) { Hex16IsInjective(v, w); }
  }
}
