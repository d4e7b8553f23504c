/** The 32-bit cyclic redundancy check of the file transfer. */
module CyclicCheck32 {
  import opened Octets

  /** One turn of the inner loop of crc32. */
  function Shift32(c: bv32): bv32 {
    if c & 1 != 0 then (c >> 1) ^ 0xedb88320 else c >> 1
  }

  function Shifts32(c: bv32, n: nat): bv32 {
    if n == 0 then c else Shift32(Shifts32(c, n - 1))
  }

  function Mix(c: bv32, b: byte): bv32 {
    c ^ (b as bv32)
  }

  function Crc32Byte(c: bv32, b: byte): bv32 {
    Shifts32(Mix(c, b), 8)
  }

  /** The running register, without the complement before and after. */
  function Register32(c: bv32, s: seq<byte>): bv32 {
    if s == [] then c else Crc32Byte(Register32(c, s[..|s| - 1]), s[|s| - 1])
  }

  function Complement(c: bv32): bv32 { !c }

  function Crc32(crc: bv32, s: seq<byte>): bv32 {
    Complement(Register32(Complement(crc), s))
  }

  lemma Shift32Cases(c: bv32)
    ensures Shift32(c) == if c & 1 != 0 then (c >> 1) ^ 0xedb88320 else c >> 1
  {
  }

  /** One turn of the outer loop of crc32: mix a byte in, then the inner loop. */
  method ShiftIn(before: bv32, b: byte) returns (crc: bv32)
    ensures crc == Crc32Byte(before, b)
  {
    hide Shift32;
    crc := before ^ (b as bv32);
    ghost var start := crc;
    for k := 0 to 8
      invariant crc == Shifts32(start, k)
    {
      Shift32Cases(crc);
      crc := if crc & 1 != 0 then (crc >> 1) ^ 0xedb88320 else crc >> 1;
    }
  }

  /** crc32: complement, shift every byte in, complement. */
  method ComputeCrc32(before: bv32, buf: array<byte>, from: nat, len: nat) returns (crc: bv32)
    requires from + len <= buf.Length
    ensures crc == Crc32(before, buf[from..from + len])
  {
    hide Crc32Byte;
    crc := !before;
    for i := 0 to len
      invariant crc == Register32(Complement(before), buf[from..from + i])
    {
      assert buf[from..from + i + 1][..i] == buf[from..from + i];
      crc := ShiftIn(crc, buf[from + i]);
    }
    crc := !crc;
  }

  // ---------------------------------------------------------------- chaining

  lemma {:induction false} RegisterConcat(c: bv32, s: seq<byte>, t: seq<byte>)
    ensures Register32(c, s + t) == Register32(Register32(c, s), t)
  {
    hide Crc32Byte;
    if t == [] {
      assert s + t == s;
    } else {
      RegisterConcat(c, s, t[..|t| - 1]);
      assert (s + t)[..|s + t| - 1] == s + t[..|t| - 1];
    }
  }

  lemma ComplementTwice(c: bv32)
    ensures Complement(Complement(c)) == c
  {
  }

  /** Feeding the result of one call into the next is one call on the concatenation. */
  lemma Crc32Chains(c: bv32, s: seq<byte>, t: seq<byte>)
    ensures Crc32(Crc32(c, s), t) == Crc32(c, s + t)
  {
    hide Crc32Byte, Register32, Complement;
    RegisterConcat(Complement(c), s, t);
    ComplementTwice(Register32(Complement(c), s));
  }

  // ---------------------------------------------------------------- the table form of RFC 1952

  /** Entry n of the table that make_crc_table fills (section 8 of RFC 1952). */
  function TableEntry(n: bv32): bv32 {
    Shifts32(n, 8)
  }

  function Xor(c: bv32, d: bv32): bv32 { c ^ d }

  function LowByte(c: bv32): bv32 { c & 0xff }

  function HighBytes(c: bv32): bv32 { c >> 8 }

  function TableStep(c: bv32, b: byte): bv32 {
    Xor(TableEntry(LowByte(Mix(c, b))), HighBytes(c))
  }

  function TableRegister(c: bv32, s: seq<byte>): bv32 {
    if s == [] then c else TableStep(TableRegister(c, s[..|s| - 1]), s[|s| - 1])
  }

  function Flip(c: bv32): bv32 { c ^ 0xffff_ffff }

  /** update_crc of section 8 of RFC 1952. */
  function UpdateCrc(crc: bv32, s: seq<byte>): bv32 {
    Flip(TableRegister(Flip(crc), s))
  }

  function Half(c: bv32): bv32 { c >> 1 }

  function Halved(h: bv32, n: nat): bv32 {
    if n == 0 then h else Half(Halved(h, n - 1))
  }

  predicate IsEven(h: bv32) { h & 1 == 0 }

  predicate LowBitsClear(h: bv32, n: nat) {
    n == 0 || (IsEven(h) && LowBitsClear(Half(h), n - 1))
  }

  lemma {:induction false} HalvedLowBits(h: bv32, n: nat, m: nat)
    requires LowBitsClear(h, n + m)
    ensures LowBitsClear(Halved(h, n), m)
  {
    hide IsEven, Half;
    if n > 0 {
      HalvedLowBits(h, n - 1, m + 1);
    }
  }

  lemma ShiftCases(c: bv32)
    ensures Shift32(c) == if IsEven(c) then Half(c) else Xor(0xedb8_8320, Half(c))
  {
  }

  lemma HalfXor(c: bv32, d: bv32)
    ensures Half(Xor(c, d)) == Xor(Half(c), Half(d))
  {
  }

  lemma EvenXor(c: bv32, d: bv32)
    requires IsEven(d)
    ensures IsEven(Xor(c, d)) <==> IsEven(c)
  {
  }

  lemma XorAssociates(c: bv32, d: bv32, e: bv32)
    ensures Xor(c, Xor(d, e)) == Xor(Xor(c, d), e)
  {
  }

  lemma ShiftOfSplit(p: bv32, q: bv32)
    requires IsEven(q)
    ensures Shift32(Xor(p, q)) == Xor(Shift32(p), Half(q))
  {
    hide Shift32, Xor, Half, IsEven;
    ShiftCases(p);
    ShiftCases(Xor(p, q));
    HalfXor(p, q);
    EvenXor(p, q);
    XorAssociates(0xedb8_8320, Half(p), Half(q));
  }

  /** While the set bits of h stay clear of the feedback, they only move down. */
  lemma {:induction false} ShiftsOfSplit(low: bv32, h: bv32, n: nat, m: nat)
    requires LowBitsClear(h, n + m)
    ensures Shifts32(Xor(low, h), n) == Xor(Shifts32(low, n), Halved(h, n))
  {
    hide Shift32, Xor, Half, IsEven;
    if n > 0 {
      ShiftsOfSplit(low, h, n - 1, m + 1);
      HalvedLowBits(h, n - 1, m + 1);
      ShiftOfSplit(Shifts32(low, n - 1), Halved(h, n - 1));
    }
  }

  lemma EightClear(h: bv32)
    requires h & 0xff == 0
    ensures LowBitsClear(h, 8)
    ensures Halved(h, 8) == h >> 8
  {
    var h2, h4 := Half(Half(h)), Half(Half(Half(Half(h))));
    var h6 := Half(Half(h4));
    assert LowBitsClear(Half(h6), 1) && LowBitsClear(h6, 2);
    assert LowBitsClear(Half(h4), 3) && LowBitsClear(h4, 4);
    assert LowBitsClear(Half(h2), 5) && LowBitsClear(h2, 6);
    assert LowBitsClear(Half(h), 7);
    assert Halved(h, 1) == Half(h) && Halved(h, 2) == h2;
    assert Halved(h, 3) == Half(h2) && Halved(h, 4) == h4;
    assert Halved(h, 5) == Half(h4) && Halved(h, 6) == h6;
    assert Halved(h, 7) == Half(h6);
  }

  lemma ByteSplits(x: bv32) returns (h: bv32)
    ensures x == Xor(LowByte(x), h)
    ensures h & 0xff == 0 && h >> 8 == HighBytes(x)
  {
    h := x & 0xffff_ff00;
    assert h & 0xff == 0;
    HighBytesOfMasked(x, h);
    MaskedPartsJoin(x, LowByte(x), h);
  }

  lemma MaskedPartsJoin(x: bv32, low: bv32, h: bv32)
    requires low == x & 0xff && h == x & 0xffff_ff00
    ensures x == Xor(low, h)
  {
  }

  lemma HighBytesOfMasked(x: bv32, h: bv32)
    requires h == x & 0xffff_ff00
    ensures h >> 8 == HighBytes(x)
  {
  }

  lemma MixKeepsHighBytes(c: bv32, b: byte)
    ensures HighBytes(Mix(c, b)) == HighBytes(c)
  {
  }

  /** Eight bit shifts are one table look-up. */
  lemma ByteIsTableStep(c: bv32, b: byte)
    ensures Crc32Byte(c, b) == TableStep(c, b)
  {
    hide Shifts32, Xor, Mix, LowByte, HighBytes, Halved, LowBitsClear;
    MixKeepsHighBytes(c, b);
    var h := ByteSplits(Mix(c, b));
    EightClear(h);
    ShiftsOfSplit(LowByte(Mix(c, b)), h, 8, 0);
  }

  lemma {:induction false} RegisterIsTableRegister(c: bv32, s: seq<byte>)
    ensures Register32(c, s) == TableRegister(c, s)
  {
    if s != [] {
      hide Crc32Byte, TableStep;
      RegisterIsTableRegister(c, s[..|s| - 1]);
      ByteIsTableStep(Register32(c, s[..|s| - 1]), s[|s| - 1]);
    }
  }

  lemma ComplementIsFlip(c: bv32)
    ensures Complement(c) == Flip(c)
  {
  }

  /** crc32 is update_crc of RFC 1952, whatever CRC it starts from. */
  lemma Crc32IsUpdateCrc(crc: bv32, s: seq<byte>)
    ensures Crc32(crc, s) == UpdateCrc(crc, s)
  {
    hide Register32, TableRegister, Complement, Flip;
    ComplementIsFlip(crc);
    RegisterIsTableRegister(Complement(crc), s);
    ComplementIsFlip(Register32(Complement(crc), s));
  }

  // ---------------------------------------------------------------- one changed byte

  lemma Shift32Injective(c: bv32, d: bv32)
    requires Shift32(c) == Shift32(d)
    ensures c == d
  {
  }

  lemma {:induction false} Shifts32Injective(c: bv32, d: bv32, n: nat)
    requires Shifts32(c, n) == Shifts32(d, n)
    ensures c == d
  {
    hide Shift32;
    if n > 0 {
      Shift32Injective(Shifts32(c, n - 1), Shifts32(d, n - 1));
      Shifts32Injective(c, d, n - 1);
    }
  }

  lemma MixInjectiveInState(c: bv32, d: bv32, a: byte)
    requires Mix(c, a) == Mix(d, a)
    ensures c == d
  {
  }

  lemma MixInjectiveInByte(c: bv32, a: byte, b: byte)
    requires Mix(c, a) == Mix(c, b)
    ensures a == b
  {
  }

  lemma ByteInjective(c: bv32, d: bv32, a: byte, b: byte)
    ensures Crc32Byte(c, a) == Crc32Byte(d, a) ==> c == d
    ensures Crc32Byte(c, a) == Crc32Byte(c, b) ==> a == b
  {
    hide Shifts32, Mix;
    if Crc32Byte(c, a) == Crc32Byte(d, a) {
      Shifts32Injective(Mix(c, a), Mix(d, a), 8);
      MixInjectiveInState(c, d, a);
    }
    if Crc32Byte(c, a) == Crc32Byte(c, b) {
      Shifts32Injective(Mix(c, a), Mix(c, b), 8);
      MixInjectiveInByte(c, a, b);
    }
  }

  lemma {:induction false} RegisterInjective(c: bv32, d: bv32, s: seq<byte>)
    requires Register32(c, s) == Register32(d, s)
    ensures c == d
  {
    hide Crc32Byte;
    if s != [] {
      ByteInjective(Register32(c, s[..|s| - 1]), Register32(d, s[..|s| - 1]), s[|s| - 1], 0);
      RegisterInjective(c, d, s[..|s| - 1]);
    }
  }

  /** Two strings that differ in one byte have different CRC-32s. */
  lemma OneByteChangesCrc32(crc: bv32, s: seq<byte>, k: nat, b: byte)
    requires k < |s| && s[k] != b
    ensures Crc32(crc, s) != Crc32(crc, s[k := b])
  {
    hide Crc32Byte, Complement;
    var c, t := Complement(crc), s[k := b];
    assert s == s[..k] + [s[k]] + s[k + 1..] && t == s[..k] + [b] + s[k + 1..];
    RegisterConcat(c, s[..k] + [s[k]], s[k + 1..]);
    RegisterConcat(c, s[..k] + [b], s[k + 1..]);
    assert (s[..k] + [s[k]])[..k] == s[..k] && (s[..k] + [b])[..k] == s[..k];
    if Crc32(crc, s) == Crc32(crc, t) {
      ComplementTwice(Register32(c, s));
      ComplementTwice(Register32(c, t));
      RegisterInjective(Register32(c, s[..k] + [s[k]]), Register32(c, s[..k] + [b]), s[k + 1..]);
      ByteInjective(Register32(c, s[..k]), 0, s[k], b);
    }
  }

  // ---------------------------------------------------------------- the check value

  /** The digits 1 to 9. */
  const DIGITS: seq<byte> := [0x31, 0x32, 0x33, 0x34, 0x35, 0x36, 0x37, 0x38, 0x39]

  lemma OneMoreByte(c: bv32, s: seq<byte>, b: byte)
    ensures Register32(c, s + [b]) == Crc32Byte(Register32(c, s), b)
  {
    hide Crc32Byte;
    assert (s + [b])[..|s|] == s;
  }

  /** Each byte of the digits, and what it makes of the register so far. */
  lemma DigitSteps()
    ensures Crc32Byte(0xffffffff, 0x31) == 0x7c231048
    ensures Crc32Byte(0x7c231048, 0x32) == 0xb0acbb32
    ensures Crc32Byte(0xb0acbb32, 0x33) == 0x77b79c2d
    ensures Crc32Byte(0x77b79c2d, 0x34) == 0x641c1f5c
    ensures Crc32Byte(0x641c1f5c, 0x35) == 0x340ac5e3
    ensures Crc32Byte(0x340ac5e3, 0x36) == 0xf68d2c9e
    ensures Crc32Byte(0xf68d2c9e, 0x37) == 0xaffc9660
    ensures Crc32Byte(0xaffc9660, 0x38) == 0x651f2550
    ensures Crc32Byte(0x651f2550, 0x39) == 0x340bc6d9
  {
  }

  /** The check value of the CRC-32 of RFC 1952. */
  lemma CheckValue32()
    ensures Crc32(0, DIGITS) == 0xcbf4_3926
  {
    hide Crc32Byte;
    DigitSteps();
    OneMoreByte(0xffff_ffff, DIGITS[..0], DIGITS[0]);
    assert DIGITS[..0] + [DIGITS[0]] == DIGITS[..1];
    OneMoreByte(0xffff_ffff, DIGITS[..1], DIGITS[1]);
    assert DIGITS[..1] + [DIGITS[1]] == DIGITS[..2];
    OneMoreByte(0xffff_ffff, DIGITS[..2], DIGITS[2]);
    assert DIGITS[..2] + [DIGITS[2]] == DIGITS[..3];
    OneMoreByte(0xffff_ffff, DIGITS[..3], DIGITS[3]);
    assert DIGITS[..3] + [DIGITS[3]] == DIGITS[..4];
    OneMoreByte(0xffff_ffff, DIGITS[..4], DIGITS[4]);
    assert DIGITS[..4] + [DIGITS[4]] == DIGITS[..5];
    OneMoreByte(0xffff_ffff, DIGITS[..5], DIGITS[5]);
    assert DIGITS[..5] + [DIGITS[5]] == DIGITS[..6];
    OneMoreByte(0xffff_ffff, DIGITS[..6], DIGITS[6]);
    assert DIGITS[..6] + [DIGITS[6]] == DIGITS[..7];
    OneMoreByte(0xffff_ffff, DIGITS[..7], DIGITS[7]);
    assert DIGITS[..7] + [DIGITS[7]] == DIGITS[..8];
    OneMoreByte(0xffff_ffff, DIGITS[..8], DIGITS[8]);
    assert DIGITS[..8] + [DIGITS[8]] == DIGITS[..9];
    assert DIGITS[..9] == DIGITS;
  }
}
