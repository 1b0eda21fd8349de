/**
 The CRC-32/ISO-HDLC of src/framing.cpp.

 The reference is the serial shift register of section 8 of RFC 1952: one message bit
 at a time, least significant bit first.  The table builder and the byte-at-a-time loop
 are proved equal to it, and the register is proved to detect every change confined to
 four consecutive bytes.
 */
module Crc32 {
  import opened Bytes

  const POLYNOMIAL: bv32 := 0xEDB8_8320
  const ALL_ONES: bv32 := 0xFFFF_FFFF

  // The three word operations, by name: proofs about the register treat them abstractly.
  function Xor(a: bv32, b: bv32): bv32 { a ^ b }
  function Half(a: bv32): bv32 { a >> 1 }
  predicate LowBit(a: bv32) { a & 1 == 1 }

  // ---------------------------------------------------------------------
  // Reference: the bit-serial register

  /** Feeds one message bit into the reflected register. */
  function FeedBit(reg: bv32, bit: bool): bv32 {
    if LowBit(reg) != bit then Xor(POLYNOMIAL, Half(reg)) else Half(reg)
  }

  /** Feeds the `n` least significant bits of `word`, lowest first. */
  function FeedBits(reg: bv32, word: bv32, n: nat): bv32
    decreases n
  {
    if n == 0 then reg else FeedBits(FeedBit(reg, LowBit(word)), Half(word), n - 1)
  }

  function Register(reg: bv32, data: seq<byte>): bv32
    decreases data
  {
    if data == [] then reg else Register(FeedBits(reg, data[0] as bv32, 8), data[1..])
  }

  function Crc(data: seq<byte>): bv32 {
    Xor(Register(ALL_ONES, data), ALL_ONES)
  }

  // ---------------------------------------------------------------------
  // The division step of the table builder, and its algebra

  function ShiftOut(c: bv32): bv32 {
    if LowBit(c) then Xor(POLYNOMIAL, Half(c)) else Half(c)
  }

  function Shifts(n: nat, c: bv32): bv32
    decreases n
  {
    if n == 0 then c else Shifts(n - 1, ShiftOut(c))
  }

  lemma XorAssociates(a: bv32, b: bv32, c: bv32)
    ensures Xor(Xor(a, b), c) == Xor(a, Xor(b, c))
  {}

  lemma XorCommutes(a: bv32, b: bv32)
    ensures Xor(a, b) == Xor(b, a)
  {}

  lemma XorCancels(a: bv32, b: bv32)
    ensures Xor(Xor(a, b), b) == a
  {}

  lemma XorZero(a: bv32)
    ensures Xor(a, 0) == a
  {}

  /** A term on both sides, or on one side, of an exclusive or. */
  lemma XorMoves(p: bv32, x: bv32, y: bv32)
    ensures Xor(Xor(p, x), Xor(p, y)) == Xor(x, y)
    ensures Xor(Xor(p, x), y) == Xor(p, Xor(x, y))
    ensures Xor(x, Xor(p, y)) == Xor(p, Xor(x, y))
  {
    hide Xor;
    XorAssociates(p, x, y);
    XorAssociates(x, p, y);
    XorCommutes(x, p);
    calc {
      Xor(Xor(p, x), Xor(p, y));
      { XorCommutes(p, x); XorCommutes(p, y); XorAssociates(Xor(x, p), y, p); XorCommutes(Xor(p, x), Xor(p, y)); }
      Xor(Xor(y, p), Xor(p, x));
      { XorAssociates(Xor(y, p), p, x); }
      Xor(Xor(Xor(y, p), p), x);
      { XorCancels(y, p); XorCommutes(y, x); }
      Xor(x, y);
    }
  }

  lemma XorHalves(a: bv32, b: bv32)
    ensures Half(Xor(a, b)) == Xor(Half(a), Half(b))
  {}

  lemma XorLowBit(a: bv32, b: bv32)
    ensures LowBit(Xor(a, b)) == (LowBit(a) != LowBit(b))
  {}

  lemma ShiftOutIsLinear(a: bv32, b: bv32)
    ensures ShiftOut(Xor(a, b)) == Xor(ShiftOut(a), ShiftOut(b))
  {
    hide Xor, Half, LowBit;
    XorHalves(a, b);
    XorLowBit(a, b);
    XorMoves(POLYNOMIAL, Half(a), Half(b));
  }

  lemma {:induction false} ShiftsAreLinear(n: nat, a: bv32, b: bv32)
    ensures Shifts(n, Xor(a, b)) == Xor(Shifts(n, a), Shifts(n, b))
    decreases n
  {
    hide ShiftOut, Xor;
    if n != 0 {
      ShiftOutIsLinear(a, b);
      ShiftsAreLinear(n - 1, ShiftOut(a), ShiftOut(b));
    }
  }

  /** The polynomial's top bit is set, so the bit shifted out can be recovered. */
  lemma ShiftOutIsInjective(a: bv32, b: bv32)
    requires ShiftOut(a) == ShiftOut(b)
    ensures a == b
  {}

  lemma {:induction false} ShiftsAreInjective(n: nat, a: bv32, b: bv32)
    requires Shifts(n, a) == Shifts(n, b)
    ensures a == b
    decreases n
  {
    hide ShiftOut;
    if n != 0 {
      ShiftsAreInjective(n - 1, ShiftOut(a), ShiftOut(b));
      ShiftOutIsInjective(a, b);
    }
  }

  lemma {:induction false} ShiftsCompose(m: nat, n: nat, c: bv32)
    ensures Shifts(m + n, c) == Shifts(n, Shifts(m, c))
    decreases m
  {
    hide ShiftOut;
    if m != 0 { ShiftsCompose(m - 1, n, ShiftOut(c)); }
  }

  lemma FourShifts(c: bv32)
    ensures Shifts(4, c) == ShiftOut(ShiftOut(ShiftOut(ShiftOut(c))))
  {}

  lemma FourPlainShifts(c: bv32)
    requires c & 0xF == 0
    ensures ShiftOut(ShiftOut(ShiftOut(ShiftOut(c)))) == c >> 4
  {}

  /** A register whose low byte is clear is only moved down by eight shifts. */
  lemma ShiftsOfClearLowByte(c: bv32)
    requires c & 0xFF == 0
    ensures Shifts(8, c) == c >> 8
  {}

  // ---------------------------------------------------------------------
  // Bit-serial register == shift form == table form

  function Dropped(word: bv32, n: nat): bv32
    decreases n
  {
    if n == 0 then word else Dropped(Half(word), n - 1)
  }

  lemma FeedBitIsShiftOut(reg: bv32, word: bv32)
    ensures Xor(FeedBit(reg, LowBit(word)), Half(word)) == ShiftOut(Xor(reg, word))
  {
    hide Xor, Half, LowBit;
    XorHalves(reg, word);
    XorLowBit(reg, word);
    XorMoves(POLYNOMIAL, Half(reg), Half(word));
  }

  lemma {:induction false} FeedBitsIsShifts(reg: bv32, word: bv32, n: nat)
    ensures FeedBits(reg, word, n) == Xor(Shifts(n, Xor(reg, word)), Dropped(word, n))
    decreases n
  {
    hide ShiftOut, FeedBit, Xor, Half, LowBit;
    if n == 0 {
      XorCancels(reg, word);
    } else {
      FeedBitIsShiftOut(reg, word);
      FeedBitsIsShifts(FeedBit(reg, LowBit(word)), Half(word), n - 1);
    }
  }

  lemma DroppedByte(b: byte)
    ensures Dropped(b as bv32, 8) == 0
  {}

  /** One byte of the serial register is eight division steps of `reg ^ byte`. */
  lemma FeedByteIsShifts(reg: bv32, b: byte)
    ensures FeedBits(reg, b as bv32, 8) == Shifts(8, Xor(reg, b as bv32))
  {
    hide Shifts, FeedBits, Xor;
    FeedBitsIsShifts(reg, b as bv32, 8);
    DroppedByte(b);
    XorZero(Shifts(8, Xor(reg, b as bv32)));
  }

  function Low(x: bv32): bv32 { x & 0xFF }
  function High(x: bv32): bv32 { x & 0xFFFF_FF00 }
  function Down(x: bv32): bv32 { x >> 8 }

  lemma SplitLowByte(x: bv32)
    ensures x == Xor(Low(x), High(x))
  {}

  lemma HighIsClear(x: bv32)
    ensures High(x) & 0xFF == 0 && High(x) >> 8 == Down(x)
  {}

  lemma ShiftsOfHigh(x: bv32)
    ensures Shifts(8, High(x)) == Down(x)
  {
    hide Shifts, High, Down;
    HighIsClear(x);
    ShiftsOfClearLowByte(High(x));
  }

  lemma ByteBelowShift(reg: bv32, b: byte)
    ensures Down(Xor(reg, b as bv32)) == Down(reg)
  {}

  /** One byte of the serial register is one table look-up. */
  lemma FeedByteIsLookup(reg: bv32, b: byte)
    ensures FeedBits(reg, b as bv32, 8) == Xor(Shifts(8, Low(Xor(reg, b as bv32))), Down(reg))
  {
    hide Shifts, FeedBits, Xor, Low, High, Down;
    var x := Xor(reg, b as bv32);
    FeedByteIsShifts(reg, b);
    SplitLowByte(x);
    ShiftsAreLinear(8, Low(x), High(x));
    ShiftsOfHigh(x);
    ByteBelowShift(reg, b);
  }

  lemma {:induction false} RegisterOfConcat(reg: bv32, a: seq<byte>, b: seq<byte>)
    ensures Register(reg, a + b) == Register(Register(reg, a), b)
    decreases a
  {
    hide FeedBits;
    if a == [] {
      assert a + b == b;
    } else {
      RegisterOfConcat(FeedBits(reg, a[0] as bv32, 8), a[1..], b);
      assert (a + b)[1..] == a[1..] + b;
    }
  }

  // ---------------------------------------------------------------------
  // The code: table builder and checksum loop

  /** The table index of a register value: its low byte. */
  function LowByte(x: bv32): nat {
    (x & 0xFF) as int
  }

  lemma WordIndex(y: bv32)
    requires y <= 0xFF
    ensures y as int < 256
  {}

  lemma WordAndBack(y: bv32)
    ensures (y as int) as bv32 == y
  {}

  lemma BitsMasked(x: bv32)
    ensures x & 0xFF <= 0xFF
  {}

  lemma LowByteIndex(x: bv32)
    ensures LowByte(x) < 256 && LowByte(x) as bv32 == Low(x)
  {
    BitsMasked(x);
    WordIndex(x & 0xFF);
    WordAndBack(x & 0xFF);
  }

  ghost predicate IsTable(t: seq<bv32>) {
    |t| == 256 && forall i :: 0 <= i < 256 ==> t[i] == Shifts(8, i as bv32)
  }

  method BuildTable() returns (t: array<bv32>)
    ensures fresh(t) && IsTable(t[..])
  {
    hide Xor, Half, LowBit;
    t := new bv32[256];
    for i := 0 to 256
      invariant forall k :: 0 <= k < i ==> t[k] == Shifts(8, k as bv32)
    {
      var c := i as bv32;
      for j := 0 to 8
        invariant Shifts(8 - j, c) == Shifts(8, i as bv32)
      {
        c := if LowBit(c) then Xor(POLYNOMIAL, Half(c)) else Half(c);
      }
      t[i] := c;
    }
  }

  /** vynkor_crc32: the table-driven loop computes the bit-serial CRC. */
  method Checksum(data: seq<byte>) returns (crc: bv32)
    ensures crc == Crc(data)
  {
    hide FeedBits, Shifts, Xor, LowByte, Low, Down;
    var table := BuildTable();
    ghost var entries := table[..];
    crc := ALL_ONES;
    for i := 0 to |data|
      invariant table[..] == entries
      invariant crc == Register(ALL_ONES, data[..i])
    {
      var x := LowByte(Xor(crc, data[i] as bv32));
      LowByteIndex(Xor(crc, data[i] as bv32));
      LookupStep(entries, crc, data[i]);
      RegisterSnoc(ALL_ONES, data, i);
      assert table[x] == entries[x];
      crc := Xor(table[x], Down(crc));
    }
    assert data[..|data|] == data;
    crc := Xor(crc, ALL_ONES);
  }

  lemma LookupStep(t: seq<bv32>, reg: bv32, b: byte)
    requires IsTable(t)
    ensures var i := LowByte(Xor(reg, b as bv32));
      i < 256 && Xor(t[i], Down(reg)) == FeedBits(reg, b as bv32, 8)
  {
    hide FeedBits, Shifts, Xor, LowByte, Low, Down;
    FeedByteIsLookup(reg, b);
    LowByteIndex(Xor(reg, b as bv32));
    var i := LowByte(Xor(reg, b as bv32));
    assert t[i] == Shifts(8, i as bv32);
  }

  lemma RegisterSnoc(reg: bv32, data: seq<byte>, i: nat)
    requires i < |data|
    ensures Register(reg, data[..i + 1]) == FeedBits(Register(reg, data[..i]), data[i] as bv32, 8)
  {
    hide FeedBits;
    RegisterOfConcat(reg, data[..i], [data[i]]);
    assert data[..i + 1] == data[..i] + [data[i]];
    assert [data[i]][1..] == [];
    var r := Register(reg, data[..i]);
    assert Register(r, [data[i]]) == Register(FeedBits(r, data[i] as bv32, 8), []);
  }

  // ---------------------------------------------------------------------
  // Burst detection

  /** The same bytes never bring two different registers together. */
  lemma {:induction false} RegisterIsInjective(r: bv32, s: bv32, data: seq<byte>)
    requires Register(r, data) == Register(s, data)
    ensures r == s
    decreases data
  {
    hide FeedBits, Shifts, Xor;
    if data != [] {
      var b := data[0] as bv32;
      RegisterIsInjective(FeedBits(r, b, 8), FeedBits(s, b, 8), data[1..]);
      FeedByteIsShifts(r, data[0]);
      FeedByteIsShifts(s, data[0]);
      ShiftsAreInjective(8, Xor(r, b), Xor(s, b));
      XorCancels(r, b);
      XorCancels(s, b);
    }
  }

  function Raised(w: bv32): bv32 { w << 8 }
  function Below(b: byte, w: bv32): bv32 { (b as bv32) ^ (w << 8) }

  /** The little-endian word of at most four bytes. */
  function Word(u: seq<byte>): bv32 {
    if u == [] then 0 else Below(u[0], Word(u[1..]))
  }

  lemma BelowIsXor(b: byte, w: bv32)
    ensures Below(b, w) == Xor(b as bv32, Raised(w))
  {}

  lemma BelowIsInjective(b: byte, c: byte, w: bv32, v: bv32)
    requires w <= 0xFF_FFFF && v <= 0xFF_FFFF
    requires Below(b, w) == Below(c, v)
    ensures b == c && w == v
  {}

  lemma ShiftsOfRaised(w: bv32)
    requires w <= 0xFF_FFFF
    ensures Shifts(8, Raised(w)) == w
  {}

  lemma BitsGrow(b: bv32, w: bv32)
    requires b <= 0xFF
    ensures w == 0 ==> b ^ (w << 8) <= 0xFF
    ensures w <= 0xFF ==> b ^ (w << 8) <= 0xFFFF
    ensures w <= 0xFFFF ==> b ^ (w << 8) <= 0xFF_FFFF
  {}

  lemma {:induction false} WordBound(u: seq<byte>)
    requires |u| <= 3
    ensures |u| == 0 ==> Word(u) == 0
    ensures |u| == 1 ==> Word(u) <= 0xFF
    ensures |u| == 2 ==> Word(u) <= 0xFFFF
    ensures |u| == 3 ==> Word(u) <= 0xFF_FFFF
  {
    if u != [] {
      WordBound(u[1..]);
      BitsGrow(u[0] as bv32, Word(u[1..]));
    }
  }

  lemma WordBelow24Bits(u: seq<byte>)
    requires |u| <= 3
    ensures Word(u) <= 0xFF_FFFF
  {
    hide Word;
    WordBound(u);
  }

  lemma {:induction false} WordIsInjective(u: seq<byte>, v: seq<byte>)
    requires |u| == |v| <= 4 && Word(u) == Word(v)
    ensures u == v
  {
    hide Below;
    if u != [] {
      WordBelow24Bits(u[1..]);
      WordBelow24Bits(v[1..]);
      BelowIsInjective(u[0], v[0], Word(u[1..]), Word(v[1..]));
      WordIsInjective(u[1..], v[1..]);
      assert u == [u[0]] + u[1..] && v == [v[0]] + v[1..];
    }
  }

  lemma ByteThenWord(r: bv32, b: byte, w: bv32, n: nat)
    requires w <= 0xFF_FFFF
    ensures Shifts(n, Xor(Shifts(8, Xor(r, b as bv32)), w)) == Shifts(8 + n, Xor(r, Below(b, w)))
  {
    hide Xor, Raised, Below, Shifts;
    var x := Xor(r, b as bv32);
    ShiftsOfRaised(w);
    ShiftsAreLinear(8, x, Raised(w));
    ShiftsCompose(8, n, Xor(x, Raised(w)));
    XorAssociates(r, b as bv32, Raised(w));
    BelowIsXor(b, w);
  }

  /** Up to four bytes enter the register together, as one word. */
  lemma {:induction false} RegisterOfWord(r: bv32, u: seq<byte>)
    requires |u| <= 4
    ensures Register(r, u) == Shifts(8 * |u|, Xor(r, Word(u)))
    decreases u
  {
    hide FeedBits, Xor, Below, Shifts;
    if u == [] {
      XorZero(r);
      NoShifts(r);
    } else {
      FeedByteIsShifts(r, u[0]);
      WordBelow24Bits(u[1..]);
      RegisterOfWord(Shifts(8, Xor(r, u[0] as bv32)), u[1..]);
      ByteThenWord(r, u[0], Word(u[1..]), 8 * |u[1..]|);
    }
  }

  lemma NoShifts(c: bv32)
    ensures Shifts(0, c) == c
  {}

  lemma WindowChangesRegister(r: bv32, u: seq<byte>, v: seq<byte>)
    requires |u| == |v| <= 4 && Register(r, u) == Register(r, v)
    ensures u == v
  {
    hide Register, Shifts, Word, Xor;
    RegisterOfWord(r, u);
    RegisterOfWord(r, v);
    ShiftsAreInjective(8 * |u|, Xor(r, Word(u)), Xor(r, Word(v)));
    XorCommutes(r, Word(u));
    XorCommutes(r, Word(v));
    XorCancels(Word(u), r);
    XorCancels(Word(v), r);
    WordIsInjective(u, v);
  }

  /** Changing data inside a window of at most four bytes always changes the CRC. */
  lemma BurstChangesCrc(prefix: seq<byte>, u: seq<byte>, v: seq<byte>, suffix: seq<byte>)
    requires |u| == |v| <= 4 && u != v
    ensures Crc(prefix + u + suffix) != Crc(prefix + v + suffix)
  {
    hide Register, Xor;
    var r := Register(ALL_ONES, prefix);
    RegisterOfConcat(ALL_ONES, prefix, u);
    RegisterOfConcat(ALL_ONES, prefix + u, suffix);
    RegisterOfConcat(ALL_ONES, prefix, v);
    RegisterOfConcat(ALL_ONES, prefix + v, suffix);
    var x, y := Register(Register(r, u), suffix), Register(Register(r, v), suffix);
    if Xor(x, ALL_ONES) == Xor(y, ALL_ONES) {
      XorCancels(x, ALL_ONES);
      XorCancels(y, ALL_ONES);
      RegisterIsInjective(Register(r, u), Register(r, v), suffix);
      WindowChangesRegister(r, u, v);
      assert false;
    }
  }

  // ---------------------------------------------------------------------
  // Four bytes is the most that can be promised

  const ESCAPE: bv32 := 0xDB71_0641

  /** Thirty-two division steps of the escaping pattern leave a single bit. */
  lemma EscapeShifts()
    ensures Shifts(32, ESCAPE) == 1
  {
    hide ShiftOut;
    ShiftsCompose(4, 28, ESCAPE);
    FourShifts(ESCAPE);
    assert Shifts(4, ESCAPE) == 0x1000_0000 by { EscapeHead(); }
    ShiftsCompose(4, 24, 0x1000_0000);
    FourShifts(0x1000_0000);
    FourPlainShifts(0x1000_0000);
    ShiftsCompose(8, 16, 0x100_0000);
    ShiftsOfClearLowByte(0x100_0000);
    ShiftsCompose(8, 8, 0x1_0000);
    ShiftsOfClearLowByte(0x1_0000);
    ShiftsOfClearLowByte(0x100);
  }

  lemma EscapeHead()
    ensures ShiftOut(ShiftOut(ShiftOut(ShiftOut(ESCAPE)))) == 0x1000_0000
  {}

  /** The bytes `u` with the pattern added. */
  function Escaped(u: seq<byte>): seq<byte>
    requires |u| == 5
  {
    [u[0] ^ 0x41, u[1] ^ 0x06, u[2] ^ 0x71, u[3] ^ 0xDB, u[4] ^ 0x01]
  }

  lemma BitsOfPattern(a: byte, b: byte, c: byte, d: byte)
    ensures Below(a ^ 0x41, Below(b ^ 0x06, Below(c ^ 0x71, Below(d ^ 0xDB, 0))))
      == Below(a, Below(b, Below(c, Below(d, 0)))) ^ 0xDB71_0641
  {}

  lemma WordOfFour(u: seq<byte>)
    requires |u| == 4
    ensures Word(u) == Below(u[0], Below(u[1], Below(u[2], Below(u[3], 0))))
  {
    hide Below;
    assert Word(u[3..]) == Below(u[3], 0) by { assert u[3..][1..] == []; }
    assert Word(u[2..]) == Below(u[2], Word(u[3..])) by { assert u[2..][1..] == u[3..]; }
    assert Word(u[1..]) == Below(u[1], Word(u[2..])) by { assert u[1..][1..] == u[2..]; }
  }

  lemma LastBit(b: byte)
    ensures (b ^ 0x01) as bv32 == Xor(1, b as bv32) && b ^ 0x01 != b
  {}

  lemma RegisterOfFive(r: bv32, u: seq<byte>)
    requires |u| == 5
    ensures Register(r, u) == Shifts(8, Xor(Shifts(32, Xor(r, Word(u[..4]))), u[4] as bv32))
  {
    hide FeedBits, Shifts, Xor, Word, Register;
    RegisterSnoc(r, u, 4);
    assert u[..5] == u;
    RegisterOfWord(r, u[..4]);
    FeedByteIsShifts(Register(r, u[..4]), u[4]);
  }

  lemma EscapedWord(u: seq<byte>)
    requires |u| == 5
    ensures Word(Escaped(u)[..4]) == Xor(Word(u[..4]), ESCAPE)
  {
    hide Word, Below;
    WordOfFour(u[..4]);
    WordOfFour(Escaped(u)[..4]);
    BitsOfPattern(u[0], u[1], u[2], u[3]);
  }

  lemma EscapedRegister(r: bv32, u: seq<byte>)
    requires |u| == 5
    ensures Register(r, Escaped(u)) == Register(r, u)
  {
    hide Register, Shifts, Word, Xor, Below;
    var word, last := Word(u[..4]), u[4] as bv32;
    EscapedWord(u);
    RegisterOfFive(r, u);
    RegisterOfFive(r, Escaped(u));
    XorAssociates(r, word, ESCAPE);
    ShiftsAreLinear(32, Xor(r, word), ESCAPE);
    EscapeShifts();
    LastBit(u[4]);
    var reg := Shifts(32, Xor(r, word));
    XorCommutes(reg, 1);
    XorMoves(1, reg, last);
  }

  /** Any five consecutive bytes have another value with the same CRC, wherever they stand. */
  lemma FiveByteBurstEscapes(prefix: seq<byte>, u: seq<byte>, suffix: seq<byte>)
    requires |u| == 5
    ensures Escaped(u) != u && Crc(prefix + Escaped(u) + suffix) == Crc(prefix + u + suffix)
  {
    LastBit(u[4]);
    assert Escaped(u)[4] != u[4];
    hide Register, Xor, Escaped;
    var v := Escaped(u);
    EscapedRegister(Register(ALL_ONES, prefix), u);
    RegisterOfConcat(ALL_ONES, prefix, u);
    RegisterOfConcat(ALL_ONES, prefix + u, suffix);
    RegisterOfConcat(ALL_ONES, prefix, v);
    RegisterOfConcat(ALL_ONES, prefix + v, suffix);
  }

  // ---------------------------------------------------------------------
  // The published check value pins polynomial, initial value, bit order and final complement

  lemma Feeds(reg: bv32, b: byte, after: bv32)
    requires ShiftOut(ShiftOut(ShiftOut(ShiftOut(ShiftOut(ShiftOut(ShiftOut(ShiftOut(Xor(reg, b as bv32)))))))))
      == after
    ensures FeedBits(reg, b as bv32, 8) == after
  {
    hide ShiftOut, Xor;
    var x := Xor(reg, b as bv32);
    FeedByteIsShifts(reg, b);
    ShiftsCompose(4, 4, x);
    FourShifts(x);
    FourShifts(Shifts(4, x));
  }

  lemma RegisterCons(reg: bv32, b: byte, rest: seq<byte>)
    ensures Register(reg, [b] + rest) == Register(FeedBits(reg, b as bv32, 8), rest)
  {
    assert ([b] + rest)[1..] == rest;
  }

  lemma FirstDigits()
    ensures Register(ALL_ONES, [0x31, 0x32, 0x33, 0x34, 0x35]) == 0x340A_C5E3
  {
    Feeds(0xFFFF_FFFF, 0x31, 0x7C23_1048);
    Feeds(0x7C23_1048, 0x32, 0xB0AC_BB32);
    Feeds(0xB0AC_BB32, 0x33, 0x77B7_9C2D);
    Feeds(0x77B7_9C2D, 0x34, 0x641C_1F5C);
    Feeds(0x641C_1F5C, 0x35, 0x340A_C5E3);
    hide FeedBits, Xor;
    RegisterCons(0xFFFF_FFFF, 0x31, [0x32, 0x33, 0x34, 0x35]);
    RegisterCons(0x7C23_1048, 0x32, [0x33, 0x34, 0x35]);
    RegisterCons(0xB0AC_BB32, 0x33, [0x34, 0x35]);
    RegisterCons(0x77B7_9C2D, 0x34, [0x35]);
    RegisterCons(0x641C_1F5C, 0x35, []);
  }

  lemma LastDigits()
    ensures Register(0x340A_C5E3, [0x36, 0x37, 0x38, 0x39]) == 0x340B_C6D9
  {
    Feeds(0x340A_C5E3, 0x36, 0xF68D_2C9E);
    Feeds(0xF68D_2C9E, 0x37, 0xAFFC_9660);
    Feeds(0xAFFC_9660, 0x38, 0x651F_2550);
    Feeds(0x651F_2550, 0x39, 0x340B_C6D9);
    hide FeedBits, Xor;
    RegisterCons(0x340A_C5E3, 0x36, [0x37, 0x38, 0x39]);
    RegisterCons(0xF68D_2C9E, 0x37, [0x38, 0x39]);
    RegisterCons(0xAFFC_9660, 0x38, [0x39]);
    RegisterCons(0x651F_2550, 0x39, []);
  }

  /** The check value of CRC-32: over the ASCII digits 1 to 9. */
  lemma CheckValue()
    ensures Crc([0x31, 0x32, 0x33, 0x34, 0x35, 0x36, 0x37, 0x38, 0x39]) == 0xCBF4_3926
  {
    hide Register;
    FirstDigits();
    LastDigits();
    var first, last: seq<byte> := [0x31, 0x32, 0x33, 0x34, 0x35], [0x36, 0x37, 0x38, 0x39];
    RegisterOfConcat(ALL_ONES, first, last);
    assert first + last == [0x31, 0x32, 0x33, 0x34, 0x35, 0x36, 0x37, 0x38, 0x39];
  }
}
