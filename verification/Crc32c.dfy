/**
 CRC-32C (Castagnoli, bit-reflected; section 12.1 of RFC 3720).

 The table-driven loop is proved equal to the bit-serial definition, and a change confined to 32
 consecutive bits is proved to change the checksum.
 */
module Crc32c {

  type Octets = seq<bv8>

  const POLYNOMIAL: bv32 := 0x82f6_3b78
  const ALL_ONES: bv32 := 0xffff_ffff

  // ----- Bit-serial definition

  /** Addition of registers, bit by bit without carry. */
  function Plus(x: bv32, y: bv32): bv32 {
    x ^ y
  }

  function LowBit(x: bv32): bv32 {
    x & 1
  }

  function Half(x: bv32): bv32 {
    x >> 1
  }

  /** One turn of the register: shift right and, if a one falls out, add the polynomial. */
  function Turn(x: bv32): bv32 {
    if LowBit(x) != 0 then Plus(POLYNOMIAL, Half(x)) else Half(x)
  }

  /** Feeds one message bit, which is added to the low end of the register before it turns. */
  function FeedBit(crc: bv32, bit: bv32): bv32 {
    Turn(Plus(crc, bit))
  }

  /** Feeds the `n` lowest bits of `w`, the least significant one first. */
  function FeedBits(crc: bv32, w: bv32, n: nat): bv32
    decreases n
  {
    if n == 0 then crc else FeedBits(FeedBit(crc, LowBit(w)), Half(w), n - 1)
  }

  function FeedByte(crc: bv32, b: bv8): bv32 {
    FeedBits(crc, b as bv32, 8)
  }

  function Feed(crc: bv32, data: Octets): bv32 {
    if data == [] then crc else FeedByte(Feed(crc, data[..|data| - 1]), data[|data| - 1])
  }

  /** The checksum: register preset to ones, message fed bit by bit, register complemented. */
  function BitSerial(data: Octets): bv32 {
    Plus(Feed(ALL_ONES, data), ALL_ONES)
  }

  // ----- Single turns

  lemma HalfOfSum(x: bv32, y: bv32)
    ensures Half(Plus(x, y)) == Plus(Half(x), Half(y))
  {
  }

  lemma LowBitOfSum(x: bv32, y: bv32)
    ensures LowBit(Plus(x, y)) != 0 <==> (LowBit(x) != 0) != (LowBit(y) != 0)
  {
  }

  lemma PlusZero(x: bv32)
    ensures Plus(x, 0) == x && Plus(0, x) == x && Plus(x, x) == 0
  {
  }

  lemma PlusCommutes(p: bv32, q: bv32)
    ensures Plus(p, q) == Plus(q, p)
  {
  }

  lemma PlusAssociates(c: bv32, p: bv32, q: bv32)
    ensures Plus(c, Plus(p, q)) == Plus(Plus(c, p), q)
  {
    var pq, cp := Plus(p, q), Plus(c, p);
    PlusAssociatesVia(c, p, q, pq, cp);
  }

  lemma PlusAssociatesVia(c: bv32, p: bv32, q: bv32, pq: bv32, cp: bv32)
    requires pq == p ^ q && cp == c ^ p
    ensures Plus(c, pq) == Plus(cp, q)
  {
  }

  lemma PlusLaws(c: bv32, p: bv32, q: bv32)
    ensures Plus(c, Plus(p, q)) == Plus(Plus(c, p), q) == Plus(p, Plus(c, q))
    ensures Plus(Plus(c, p), Plus(c, q)) == Plus(p, q)
  {
    hide Plus;
    PlusAssociates(c, p, q);
    PlusAssociates(p, c, q);
    PlusCommutes(c, p);
    PlusAssociates(p, c, Plus(c, q));
    PlusAssociates(c, c, q);
    PlusZero(c);
    PlusZero(q);
  }

  /** Turning is linear. */
  lemma TurnOfSum(x: bv32, y: bv32)
    ensures Turn(Plus(x, y)) == Plus(Turn(x), Turn(y))
  {
    hide Plus, Half, LowBit;
    HalfOfSum(x, y);
    LowBitOfSum(x, y);
    PlusLaws(POLYNOMIAL, Half(x), Half(y));
  }

  lemma LowBitAlone(w: bv32)
    ensures LowBit(LowBit(w)) == LowBit(w) && Half(LowBit(w)) == 0
  {
  }

  lemma FeedOneBit(crc: bv32, w: bv32)
    ensures Plus(FeedBit(crc, LowBit(w)), Half(w)) == Turn(Plus(crc, w))
  {
    hide Plus, Half, LowBit;
    var bit := LowBit(w);
    LowBitAlone(w);
    LowBitOfSum(crc, w);
    LowBitOfSum(crc, bit);
    HalfOfSum(crc, w);
    HalfOfSum(crc, bit);
    PlusZero(Half(crc));
    PlusLaws(POLYNOMIAL, Half(crc), Half(w));
  }

  lemma TurnIsInjective(x: bv32, y: bv32)
    requires Turn(x) == Turn(y)
    ensures x == y
  {
  }

  // ----- Many turns

  function Turns(x: bv32, n: nat): bv32
    decreases n
  {
    if n == 0 then x else Turns(Turn(x), n - 1)
  }

  function Halves(x: bv32, n: nat): bv32
    decreases n
  {
    if n == 0 then x else Halves(Half(x), n - 1)
  }

  lemma {:induction false} TurnsOfSum(x: bv32, y: bv32, n: nat)
    ensures Turns(Plus(x, y), n) == Plus(Turns(x, n), Turns(y, n))
    decreases n
  {
    hide Turn, Plus;
    if n > 0 {
      TurnOfSum(x, y);
      TurnsOfSum(Turn(x), Turn(y), n - 1);
    }
  }

  lemma {:induction false} TurnsAreInjective(x: bv32, y: bv32, n: nat)
    requires Turns(x, n) == Turns(y, n)
    ensures x == y
    decreases n
  {
    hide Turn;
    if n > 0 {
      TurnsAreInjective(Turn(x), Turn(y), n - 1);
      TurnIsInjective(x, y);
    }
  }

  lemma {:induction false} TurnsAdd(x: bv32, m: nat, n: nat)
    ensures Turns(x, m + n) == Turns(Turns(x, m), n)
    decreases m
  {
    hide Turn;
    if m > 0 { TurnsAdd(Turn(x), m - 1, n); }
  }

  /** Adding all bits of `w` to the register at once is the same as feeding them one at a time. */
  lemma {:induction false} BitsAtOnce(crc: bv32, w: bv32, n: nat)
    ensures Plus(FeedBits(crc, w, n), Halves(w, n)) == Turns(Plus(crc, w), n)
    decreases n
  {
    hide Turn, FeedBit, Plus, Half, LowBit;
    if n > 0 {
      FeedOneBit(crc, w);
      BitsAtOnce(FeedBit(crc, LowBit(w)), Half(w), n - 1);
    }
  }

  lemma EightHalves(x: bv32)
    ensures Halves(x, 8) == x >> 8
  {
    var y := Half(Half(Half(Half(x))));
    assert Halves(x, 8) == Halves(Half(Half(x)), 6) == Halves(y, 4) by {
      hide Half;
    }
    assert Halves(y, 4) == Half(Half(Half(Half(y)))) by {
      hide Half;
      assert Halves(y, 4) == Halves(Half(Half(y)), 2);
    }
  }

  lemma ByteHasEightBits(b: bv8)
    ensures Halves(b as bv32, 8) == 0
  {
    hide Halves, Half;
    EightHalves(b as bv32);
  }

  /** Feeding a byte is eight turns of the register with the byte added to its low end. */
  lemma FeedByteIsTurns(crc: bv32, b: bv8)
    ensures FeedByte(crc, b) == Turns(Plus(crc, b as bv32), 8)
  {
    hide Turns, Halves, FeedBits, Plus;
    BitsAtOnce(crc, b as bv32, 8);
    ByteHasEightBits(b);
    PlusZero(FeedBits(crc, b as bv32, 8));
  }

  // ----- The published check value

  const NINE_DIGITS: Octets := [0x31, 0x32, 0x33, 0x34, 0x35, 0x36, 0x37, 0x38, 0x39]

  /** Four turns. */
  function Turn4(x: bv32): bv32 {
    Turn(Turn(Turn(Turn(x))))
  }

  lemma EightTurns(x: bv32)
    ensures Turns(x, 8) == Turn4(Turn4(x))
  {
    hide Turn;
    assert Turns(x, 4) == Turn4(x);
    assert Turns(x, 8) == Turns(Turn4(x), 4) == Turn4(Turn4(x));
  }

  lemma KnownByte(crc: bv32, b: bv8, mid: bv32)
    requires Turn4(Plus(crc, b as bv32)) == mid
    ensures FeedByte(crc, b) == Turn4(mid)
  {
    hide Turn4, Turns, FeedByte, Plus;
    FeedByteIsTurns(crc, b);
    EightTurns(Plus(crc, b as bv32));
  }

  lemma CheckBytesLow()
    ensures FeedByte(0xffff_ffff, 0x31) == 0x6f0a_661c
    ensures FeedByte(0x6f0a_661c, 0x32) == 0x8caa_3b9f
    ensures FeedByte(0x8caa_3b9f, 0x33) == 0xef84_d04d
  {
    hide FeedByte;
    KnownByte(0xffff_ffff, 0x31, 0xeccf_57e6);
    KnownByte(0x6f0a_661c, 0x32, 0xe5c0_0e78);
    KnownByte(0x8caa_3b9f, 0x33, 0xcb47_857e);
  }

  lemma CheckBytesMid()
    ensures FeedByte(0xef84_d04d, 0x34) == 0x09c5_0b11
    ensures FeedByte(0x09c5_0b11, 0x35) == 0xe72e_dcca
    ensures FeedByte(0xe72e_dcca, 0x36) == 0xbeca_8e79
  {
    hide FeedByte;
    KnownByte(0xef84_d04d, 0x34, 0x9c50_b110);
    KnownByte(0x09c5_0b11, 0x35, 0x41e7_4d0e);
    KnownByte(0xe72e_dcca, 0x36, 0xcdff_cb0b);
  }

  lemma CheckBytesHigh()
    ensures FeedByte(0xbeca_8e79, 0x37) == 0xedbd_6815
    ensures FeedByte(0xedbd_6815, 0x38) == 0x9f78_7f65
    ensures FeedByte(0x9f78_7f65, 0x39) == 0x1cf9_6d7c
  {
    hide FeedByte;
    KnownByte(0xbeca_8e79, 0x37, 0xe8dc_00fe);
    KnownByte(0xedbd_6815, 0x38, 0xdd08_3729);
    KnownByte(0x9f78_7f65, 0x39, 0xca7a_a131);
  }

  lemma FeedOneMore(crc: bv32, data: Octets, b: bv8)
    ensures Feed(crc, data + [b]) == FeedByte(Feed(crc, data), b)
  {
    hide FeedByte;
    assert (data + [b])[..|data|] == data;
  }

  lemma FeedThree(crc: bv32, data: Octets, b: bv8, c: bv8, d: bv8)
    ensures Feed(crc, data + [b, c, d]) == FeedByte(FeedByte(FeedByte(Feed(crc, data), b), c), d)
  {
    hide Feed, FeedByte;
    FeedOneMore(crc, data, b);
    FeedOneMore(crc, data + [b], c);
    FeedOneMore(crc, data + [b] + [c], d);
    assert data + [b] + [c] + [d] == data + [b, c, d];
  }

  /** The CRC-32C of the ASCII text "123456789" is the check value that catalogues of CRCs give. */
  lemma CheckValue()
    ensures BitSerial(NINE_DIGITS) == 0xe306_9283
  {
    hide FeedByte;
    FeedThree(ALL_ONES, [], 0x31, 0x32, 0x33);
    FeedThree(ALL_ONES, [] + [0x31, 0x32, 0x33], 0x34, 0x35, 0x36);
    FeedThree(ALL_ONES, [] + [0x31, 0x32, 0x33] + [0x34, 0x35, 0x36], 0x37, 0x38, 0x39);
    assert NINE_DIGITS == [] + [0x31, 0x32, 0x33] + [0x34, 0x35, 0x36] + [0x37, 0x38, 0x39];
    CheckBytesLow();
    CheckBytesMid();
    CheckBytesHigh();
  }

  /** The `n` lowest bits of `m` are ones. */
  predicate Ones(m: bv32, n: nat)
    decreases n
  {
    n == 0 || (LowBit(m) != 0 && Ones(Half(m), n - 1))
  }

  lemma EightOnes()
    ensures Ones(0xff, 8)
  {
    assert Half(0xff) == 0x7f && Half(0x7f) == 0x3f && Half(0x3f) == 0x1f && Half(0x1f) == 0xf;
    assert Half(0xf) == 0x7 && Half(0x7) == 0x3 && Half(0x3) == 0x1;
    assert Ones(0xf, 4) by { assert Ones(0x3, 2); }
    assert Ones(0x3f, 6);
  }

  lemma DisjointHalves(x: bv32, m: bv32)
    requires x & m == 0 && LowBit(m) != 0
    ensures LowBit(x) == 0 && Half(x) & Half(m) == 0
  {
  }

  /** With no ones to fall out, turns only shift. */
  lemma {:induction false} TurnsOfClear(x: bv32, m: bv32, n: nat)
    requires x & m == 0 && Ones(m, n)
    ensures Turns(x, n) == Halves(x, n)
    decreases n
  {
    hide Half, LowBit, Plus;
    if n > 0 {
      DisjointHalves(x, m);
      TurnsOfClear(Half(x), Half(m), n - 1);
    }
  }

  lemma SplitLowByte(x: bv32)
    ensures x == Plus(x & 0xffff_ff00, x & 0xff)
    ensures (x & 0xffff_ff00) >> 8 == x >> 8 && (x & 0xffff_ff00) & 0xff == 0
  {
  }

  lemma TurnsOfParts(x: bv32, upper: bv32, low: bv32)
    requires x == Plus(upper, low) && upper & 0xff == 0
    ensures Turns(x, 8) == Plus(upper >> 8, Turns(low, 8))
  {
    hide Turns, Halves, Plus, Ones;
    EightOnes();
    TurnsOfClear(upper, 0xff, 8);
    EightHalves(upper);
    TurnsOfSum(upper, low, 8);
  }

  /** Eight turns of a register: its upper bytes shift down and its low byte goes through the table. */
  lemma TurnsByTable(x: bv32)
    ensures Turns(x, 8) == Plus(x >> 8, Turns(x & 0xff, 8))
  {
    hide Turns, Plus;
    SplitLowByte(x);
    TurnsOfParts(x, x & 0xffff_ff00, x & 0xff);
  }

  // ----- The table and the loop

  function Word(i: int): bv32
    requires 0 <= i < 256
  {
    i as bv32
  }

  /** The table holds under each byte value the register that eight turns make of it. */
  ghost predicate IsTable(t: seq<bv32>) {
    |t| == 256 && forall i :: 0 <= i < 256 ==> t[i] == Turns(Word(i), 8)
  }

  lemma WordOfByteValue(w: bv32)
    requires w <= 0xff
    ensures 0 <= w as int < 256 && Word(w as int) == w
  {
  }

  lemma MaskIsByteValue(x: bv32)
    ensures x & 0xff <= 0xff
  {
  }

  /** The table index for a byte. */
  function Index(crc: bv32, b: bv8): (i: int)
    ensures 0 <= i < 256 && Word(i) == Plus(crc, b as bv32) & 0xff
  {
    MaskIsByteValue(crc ^ (b as bv32));
    WordOfByteValue((crc ^ (b as bv32)) & 0xff);
    ((crc ^ (b as bv32)) & 0xff) as int
  }

  method TurnOnce(c: bv32) returns (r: bv32)
    ensures r == Turn(c)
  {
    r := if c & 1 != 0 then 0x82f6_3b78 ^ (c >> 1) else c >> 1;
  }

  method BuildTable() returns (t: array<bv32>)
    ensures fresh(t) && IsTable(t[..])
  {
    hide Turn, Word;
    t := new bv32[256](_ => 0);
    var i := 0;
    while i < 256
      invariant 0 <= i <= 256
      invariant forall j :: 0 <= j < i ==> t[j] == Turns(Word(j), 8)
    {
      var c := Word(i);
      var k := 0;
      while k < 8
        modifies {}
        invariant 0 <= k <= 8 && Turns(c, 8 - k) == Turns(Word(i), 8)
      {
        c := TurnOnce(c);
        k := k + 1;
      }
      assert Turns(c, 0) == c;
      t[i] := c;
      i := i + 1;
    }
  }

  lemma UpperBytesKept(crc: bv32, b: bv8)
    ensures Plus(crc, b as bv32) >> 8 == crc >> 8
  {
  }

  /** What a table lookup adds to the shifted register makes it the register after the whole byte. */
  lemma LookupIsFeedByte(t: seq<bv32>, crc: bv32, b: bv8)
    requires IsTable(t)
    ensures Plus(crc >> 8, t[Index(crc, b)]) == FeedByte(crc, b)
  {
    hide FeedByte, Turns, Word, Index, Plus;
    var x := Plus(crc, b as bv32);
    FeedByteIsTurns(crc, b);
    TurnsByTable(x);
    UpperBytesKept(crc, b);
  }

  method Xor(x: bv32, y: bv32) returns (r: bv32)
    ensures r == Plus(x, y)
  {
    r := x ^ y;
  }

  method Lookup(table: array<bv32>, crc: bv32, b: bv8) returns (r: bv32)
    requires IsTable(table[..])
    ensures r == FeedByte(crc, b)
  {
    hide FeedByte, Turns, Word, Index, Plus;
    LookupIsFeedByte(table[..], crc, b);
    r := Xor(crc >> 8, table[Index(crc, b)]);
  }

  /** The table-driven checksum is the bit-serial one. */
  method Checksum(data: Octets) returns (crc: bv32)
    ensures crc == BitSerial(data)
  {
    hide FeedByte, Plus, IsTable;
    var table := BuildTable();
    crc := 0xffff_ffff;
    for i := 0 to |data|
      invariant crc == Feed(ALL_ONES, data[..i]) && IsTable(table[..])
    {
      assert data[..i + 1][..i] == data[..i];
      crc := Lookup(table, crc, data[i]);
    }
    assert data[..|data|] == data;
    crc := Xor(crc, 0xffff_ffff);
  }

  // ----- Messages as bits, in the order in which they are fed

  function BitValue(b: bool): bv32 {
    if b then 1 else 0
  }

  function FeedAll(crc: bv32, bits: seq<bool>): bv32
    decreases |bits|
  {
    if bits == [] then crc else FeedAll(FeedBit(crc, BitValue(bits[0])), bits[1..])
  }

  /** The `n` lowest bits of `w`, the least significant one first. */
  function BitsOf(w: bv32, n: nat): (bits: seq<bool>)
    ensures |bits| == n
    decreases n
  {
    if n == 0 then [] else [LowBit(w) != 0] + BitsOf(Half(w), n - 1)
  }

  function Bits(data: Octets): (bits: seq<bool>)
    ensures |bits| == 8 * |data|
  {
    if data == [] then [] else Bits(data[..|data| - 1]) + BitsOf(data[|data| - 1] as bv32, 8)
  }

  lemma LowBitValue(w: bv32)
    ensures BitValue(LowBit(w) != 0) == LowBit(w)
  {
  }

  lemma {:induction false} FeedBitsIsFeedAll(crc: bv32, w: bv32, n: nat)
    ensures FeedBits(crc, w, n) == FeedAll(crc, BitsOf(w, n))
    decreases n
  {
    hide FeedBit, LowBit, Half, BitValue;
    if n > 0 {
      LowBitValue(w);
      FeedBitsIsFeedAll(FeedBit(crc, LowBit(w)), Half(w), n - 1);
    }
  }

  lemma {:induction false} FeedAllAppend(crc: bv32, a: seq<bool>, b: seq<bool>)
    ensures FeedAll(crc, a + b) == FeedAll(FeedAll(crc, a), b)
    decreases |a|
  {
    hide FeedBit, BitValue;
    if a == [] {
      assert a + b == b;
    } else {
      assert (a + b)[1..] == a[1..] + b;
      FeedAllAppend(FeedBit(crc, BitValue(a[0])), a[1..], b);
    }
  }

  lemma {:induction false} FeedIsFeedAll(crc: bv32, data: Octets)
    ensures Feed(crc, data) == FeedAll(crc, Bits(data))
    decreases |data|
  {
    hide FeedAll, FeedBits, BitsOf;
    if data == [] {
      FeedNoBits(crc);
    } else {
      var init, last := data[..|data| - 1], data[|data| - 1] as bv32;
      FeedIsFeedAll(crc, init);
      FeedBitsIsFeedAll(Feed(crc, init), last, 8);
      FeedAllAppend(crc, Bits(init), BitsOf(last, 8));
    }
  }

  lemma FeedNoBits(crc: bv32)
    ensures FeedAll(crc, []) == crc
  {
  }

  // ----- Bursts

  lemma PlusIsInjective(s: bv32, x: bv32, y: bv32)
    requires Plus(s, x) == Plus(s, y) || Plus(x, s) == Plus(y, s)
    ensures x == y
  {
  }

  /** Registers that differ stay different, whatever bits follow. */
  lemma {:induction false} FeedAllIsInjective(x: bv32, y: bv32, bits: seq<bool>)
    requires FeedAll(x, bits) == FeedAll(y, bits)
    ensures x == y
    decreases |bits|
  {
    hide Plus, Turn, BitValue;
    if bits != [] {
      var b := BitValue(bits[0]);
      FeedAllIsInjective(FeedBit(x, b), FeedBit(y, b), bits[1..]);
      TurnIsInjective(Plus(x, b), Plus(y, b));
      PlusIsInjective(b, x, y);
    }
  }

  /** Up to 32 bits as one register, the first bit lowest. */
  function Pack(u: seq<bool>): bv32 {
    if u == [] then 0 else Prepend(u[0], Pack(u[1..]))
  }

  function Prepend(b: bool, rest: bv32): bv32 {
    Plus(rest << 1, BitValue(b))
  }

  lemma PrependParts(b: bool, rest: bv32)
    requires rest < 0x8000_0000
    ensures LowBit(Prepend(b, rest)) == BitValue(b) && Half(Prepend(b, rest)) == rest
  {
  }

  lemma {:induction false} HalvesOfZero(n: nat)
    ensures Halves(0, n) == 0
    decreases n
  {
    if n > 0 { HalvesOfZero(n - 1); }
  }

  lemma {:induction false} HalvesAdd(x: bv32, m: nat, n: nat)
    ensures Halves(x, m + n) == Halves(Halves(x, m), n)
    decreases m
  {
    hide Half;
    if m > 0 { HalvesAdd(Half(x), m - 1, n); }
  }

  lemma SevenHalves(x: bv32)
    ensures Halves(x, 7) == x >> 7
  {
    var y := Half(Half(Half(Half(x))));
    assert Halves(x, 7) == Halves(Half(Half(x)), 5) == Halves(y, 3) by {
      hide Half;
    }
    assert Halves(y, 3) == Half(Half(Half(y))) by {
      hide Half;
      assert Halves(y, 3) == Halves(Half(Half(y)), 1);
    }
  }

  lemma ThirtyOneHalves(x: bv32)
    ensures Halves(x, 31) == (((x >> 8) >> 8) >> 8) >> 7
  {
    hide Halves, Half;
    HalvesAdd(x, 8, 23);
    EightHalves(x);
    HalvesAdd(x >> 8, 8, 15);
    EightHalves(x >> 8);
    HalvesAdd((x >> 8) >> 8, 8, 7);
    EightHalves((x >> 8) >> 8);
    SevenHalves(((x >> 8) >> 8) >> 8);
  }

  lemma TopBit(x: bv32)
    ensures (((x >> 8) >> 8) >> 8) >> 7 == 0 ==> x < 0x8000_0000
  {
  }

  /** A register of which nothing is left after at most 31 shifts has its top bit clear. */
  lemma TopBitIsClear(x: bv32, n: nat)
    requires n <= 31 && Halves(x, n) == 0
    ensures x < 0x8000_0000
  {
    hide Halves;
    HalvesAdd(x, n, 31 - n);
    HalvesOfZero(31 - n);
    ThirtyOneHalves(x);
    TopBit(x);
  }

  lemma {:induction false} PackFits(u: seq<bool>)
    requires |u| <= 32
    ensures Halves(Pack(u), |u|) == 0
    decreases |u|
  {
    hide Half, Prepend;
    if u != [] {
      PackFits(u[1..]);
      TopBitIsClear(Pack(u[1..]), |u| - 1);
      PrependParts(u[0], Pack(u[1..]));
    }
  }

  lemma PackParts(u: seq<bool>)
    requires 0 < |u| <= 32
    ensures LowBit(Pack(u)) == BitValue(u[0]) && Half(Pack(u)) == Pack(u[1..])
  {
    hide Half, LowBit, Prepend, BitValue, Halves;
    PackFits(u[1..]);
    TopBitIsClear(Pack(u[1..]), |u| - 1);
    PrependParts(u[0], Pack(u[1..]));
  }

  lemma BitValueIsInjective(a: bool, b: bool)
    requires BitValue(a) == BitValue(b)
    ensures a == b
  {
  }

  lemma {:induction false} PackIsInjective(u: seq<bool>, v: seq<bool>)
    requires |u| == |v| <= 32 && Pack(u) == Pack(v)
    ensures u == v
    decreases |u|
  {
    hide Half, LowBit, Pack, BitValue;
    if u != [] {
      PackParts(u);
      PackParts(v);
      BitValueIsInjective(u[0], v[0]);
      PackIsInjective(u[1..], v[1..]);
      assert u == [u[0]] + u[1..] && v == [v[0]] + v[1..];
    }
  }

  /** Up to 32 bits can be added to the register all at once. */
  lemma {:induction false} FeedAllIsTurns(crc: bv32, u: seq<bool>)
    requires |u| <= 32
    ensures FeedAll(crc, u) == Turns(Plus(crc, Pack(u)), |u|)
    decreases |u|
  {
    hide Plus, FeedBit, LowBit, Half, BitValue, Prepend;
    if u == [] {
      PlusZero(crc);
    } else {
      PackParts(u);
      FeedAllIsTurns(FeedBit(crc, BitValue(u[0])), u[1..]);
      FeedOneBit(crc, Pack(u));
    }
  }

  /** Any change confined to 32 consecutive bits changes the checksum. */
  lemma BurstChangesChecksum(data: Octets, other: Octets, before: seq<bool>, u: seq<bool>, v: seq<bool>,
                             after: seq<bool>)
    requires Bits(data) == before + u + after && Bits(other) == before + v + after
    requires |u| == |v| <= 32 && u != v
    ensures BitSerial(data) != BitSerial(other)
  {
    hide Plus, FeedAll, Turns, Pack, Feed, Bits;
    FeedOfBurst(data, before, u, after);
    FeedOfBurst(other, before, v, after);
    var s := FeedAll(ALL_ONES, before);
    if BitSerial(data) == BitSerial(other) {
      PlusIsInjective(ALL_ONES, Feed(ALL_ONES, data), Feed(ALL_ONES, other));
      FeedAllIsInjective(FeedAll(s, u), FeedAll(s, v), after);
      FeedAllIsTurns(s, u);
      FeedAllIsTurns(s, v);
      TurnsAreInjective(Plus(s, Pack(u)), Plus(s, Pack(v)), |u|);
      PlusIsInjective(s, Pack(u), Pack(v));
      PackIsInjective(u, v);
    }
  }

  lemma FeedOfBurst(data: Octets, before: seq<bool>, u: seq<bool>, after: seq<bool>)
    requires Bits(data) == before + u + after
    ensures Feed(ALL_ONES, data) == FeedAll(FeedAll(FeedAll(ALL_ONES, before), u), after)
  {
    hide FeedAll, Feed, Bits;
    FeedIsFeedAll(ALL_ONES, data);
    FeedAllAppend(ALL_ONES, before + u, after);
    FeedAllAppend(ALL_ONES, before, u);
  }

  // ----- Bursts of whole bytes

  lemma {:induction false} BitsAppend(a: Octets, b: Octets)
    ensures Bits(a + b) == Bits(a) + Bits(b)
    decreases |b|
  {
    hide BitsOf;
    if b == [] {
      assert a + b == a;
    } else {
      assert (a + b)[..|a + b| - 1] == a + b[..|b| - 1];
      BitsAppend(a, b[..|b| - 1]);
    }
  }

  lemma FromParts(w: bv32, x: bv32)
    requires (LowBit(w) != 0) == (LowBit(x) != 0) && Half(w) == Half(x)
    ensures w == x
  {
  }

  lemma {:induction false} BitsOfIsInjective(w: bv32, x: bv32, n: nat)
    requires BitsOf(w, n) == BitsOf(x, n) && Halves(w, n) == Halves(x, n)
    ensures w == x
    decreases n
  {
    hide LowBit, Half;
    if n > 0 {
      assert BitsOf(w, n)[0] == BitsOf(x, n)[0] && BitsOf(w, n)[1..] == BitsOf(x, n)[1..];
      BitsOfIsInjective(Half(w), Half(x), n - 1);
      FromParts(w, x);
    }
  }

  lemma WideningIsInjective(a: bv8, b: bv8)
    requires a as bv32 == b as bv32
    ensures a == b
  {
  }

  lemma LastByte(u: Octets)
    requires u != []
    ensures Bits(u)[..8 * |u| - 8] == Bits(u[..|u| - 1]) && Bits(u)[8 * |u| - 8..] == BitsOf(u[|u| - 1] as bv32, 8)
  {
    hide BitsOf;
  }

  lemma ByteBitsAreInjective(a: bv8, b: bv8)
    requires BitsOf(a as bv32, 8) == BitsOf(b as bv32, 8)
    ensures a == b
  {
    hide BitsOf, Halves;
    ByteHasEightBits(a);
    ByteHasEightBits(b);
    BitsOfIsInjective(a as bv32, b as bv32, 8);
    WideningIsInjective(a, b);
  }

  lemma {:induction false} BitsIsInjective(u: Octets, v: Octets)
    requires Bits(u) == Bits(v)
    ensures u == v
    decreases |u|
  {
    hide BitsOf, Bits;
    assert |u| == |v|;
    if u != [] {
      LastByte(u);
      LastByte(v);
      BitsIsInjective(u[..|u| - 1], v[..|v| - 1]);
      ByteBitsAreInjective(u[|u| - 1], v[|v| - 1]);
      assert u == u[..|u| - 1] + [u[|u| - 1]] && v == v[..|v| - 1] + [v[|v| - 1]];
    }
  }

  /** Any change confined to four consecutive bytes changes the checksum. */
  lemma FourBytesChangeChecksum(before: Octets, u: Octets, v: Octets, after: Octets)
    requires |u| == |v| <= 4 && u != v
    ensures BitSerial(before + u + after) != BitSerial(before + v + after)
  {
    hide Bits, BitSerial;
    BitsAppend(before + u, after);
    BitsAppend(before, u);
    BitsAppend(before + v, after);
    BitsAppend(before, v);
    if Bits(u) == Bits(v) { BitsIsInjective(u, v); }
    BurstChangesChecksum(before + u + after, before + v + after, Bits(before), Bits(u), Bits(v), Bits(after));
  }
}
