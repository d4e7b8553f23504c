/** The 16-bit cyclic redundancy check with generator x^16 + x^12 + x^5 + 1. The source holds it
    twice: bit by bit (crc16, for XMODEM) and as shifts and xors on whole bytes (the checksum of
    the host interface). */
module CyclicCheck16 {
  import opened Octets

  // ---------------------------------------------------------------- CRC-16, bit by bit

  /** One turn of the inner loop of crc16, on the 16 bits that reach the result. */
  function Shift16(c: bv16): bv16 {
    if c & 0x8000 != 0 then (c << 1) ^ 0x1021 else c << 1
  }

  function Shifts16(c: bv16, n: nat): bv16 {
    if n == 0 then c else Shift16(Shifts16(c, n - 1))
  }

  function Crc16Byte(c: bv16, b: byte): bv16 {
    Shifts16(c ^ ((b as bv16) << 8), 8)
  }

  function Crc16From(c: bv16, s: seq<byte>): bv16 {
    if s == [] then c else Crc16Byte(Crc16From(c, s[..|s| - 1]), s[|s| - 1])
  }

  function Crc16(s: seq<byte>): bv16 {
    Crc16From(0, s)
  }

  /** What `(int) *ptr << 8` adds to the accumulator, where plain `char` may be signed. */
  function Widen(b: byte, charIsSigned: bool): bv32 {
    if charIsSigned && b & 0x80 != 0 then (b as bv32) | 0xFFFF_FF00 else b as bv32
  }

  function Low16(c: bv32): bv16 {
    (c & 0xFFFF) as bv16
  }

  lemma Low16Xor(c: bv32, d: bv32)
    ensures Low16(c ^ d) == Low16(c) ^ Low16(d)
  {
  }

  lemma WidenShifted(b: byte, charIsSigned: bool)
    ensures Low16(Widen(b, charIsSigned) << 8) == (b as bv16) << 8
  {
    if charIsSigned && b & 0x80 != 0 {
      assert Widen(b, charIsSigned) == (b as bv32) | 0xFFFF_FF00;
    } else {
      assert Widen(b, charIsSigned) == b as bv32;
    }
  }

  lemma Shift16Low(c: bv32)
    ensures Shift16(Low16(c)) == Low16(if c & 0x8000 != 0 then (c << 1) ^ 0x1021 else c << 1)
  {
    if c & 0x8000 != 0 {
      assert Low16(c) & 0x8000 != 0;
    } else {
      assert Low16(c) & 0x8000 == 0;
    }
  }

  /** crc16: the accumulator is a 32-bit int whose high half fills with shifted-out bits. */
  method ComputeCrc16(ptr: array<byte>, from: nat, count: int, charIsSigned: bool) returns (r: bv16)
    requires from + (if count < 0 then 0 else count) <= ptr.Length
    ensures r == Crc16(ptr[from..from + (if count < 0 then 0 else count)])
  {
    var crc: bv32 := 0;
    assert Low16(crc) == 0;
    hide Shift16, Low16, Widen;
    var p := from;
    var left := count - 1;
    while left >= 0
      invariant left == count - 1 - (p - from)
      invariant from <= p <= from + (if count < 0 then 0 else count)
      invariant Low16(crc) == Crc16(ptr[from..p])
    {
      assert ptr[from..p + 1][..p - from] == ptr[from..p];
      Low16Xor(crc, Widen(ptr[p], charIsSigned) << 8);
      WidenShifted(ptr[p], charIsSigned);
      crc := crc ^ (Widen(ptr[p], charIsSigned) << 8);
      ghost var start := Low16(crc);
      p := p + 1;
      var i := 8;
      while i > 0
        invariant 0 <= i <= 8
        invariant Low16(crc) == Shifts16(start, 8 - i)
      {
        Shift16Low(crc);
        if crc & 0x8000 != 0 {
          crc := (crc << 1) ^ 0x1021;
        } else {
          crc := crc << 1;
        }
        i := i - 1;
      }
      left := left - 1;
    }
    r := Low16(crc);
  }

  // ---------------------------------------------------------------- CRC-16, by whole bytes

  function SwapBytes(c: bv16): bv16 {
    (c >> 8) | (c << 8)
  }

  /** The three xor statements of compute_checksum, after the byte is mixed in. */
  function Fold(c: bv16): bv16 {
    var c1 := c ^ ((c & 0xff) >> 4);
    var c2 := c1 ^ (c1 << 12);
    c2 ^ ((c2 & 0xff) << 5)
  }

  function ChecksumByte(c: bv16, b: byte): bv16 {
    Fold(SwapBytes(c) ^ (b as bv16))
  }

  function ChecksumFrom(c: bv16, s: seq<byte>): bv16 {
    if s == [] then c else ChecksumByte(ChecksumFrom(c, s[..|s| - 1]), s[|s| - 1])
  }

  function Checksum(s: seq<byte>): bv16 {
    ChecksumFrom(0, s)
  }

  /** compute_checksum: both loops, over the header and then over the payload. */
  method ComputeChecksum(hdr: array<byte>, hdrLen: nat, payload: array?<byte>, payloadLen: nat)
    returns (crc: bv16)
    requires hdrLen <= hdr.Length
    requires if payload == null then payloadLen == 0 else payloadLen <= payload.Length
    ensures crc == Checksum(hdr[..hdrLen] + if payload == null then [] else payload[..payloadLen])
  {
    hide Fold, SwapBytes;
    crc := 0x0;
    for i := 0 to hdrLen
      invariant crc == Checksum(hdr[..i])
    {
      assert hdr[..i + 1][..i] == hdr[..i];
      crc := ChecksumByte(crc, hdr[i]);
    }
    if payload == null {
      assert hdr[..hdrLen] + [] == hdr[..hdrLen];
      return;
    }
    assert hdr[..hdrLen] + payload[..0] == hdr[..hdrLen];
    for i := 0 to payloadLen
      invariant crc == Checksum(hdr[..hdrLen] + payload[..i])
    {
      assert (hdr[..hdrLen] + payload[..i + 1])[..hdrLen + i] == hdr[..hdrLen] + payload[..i];
      crc := ChecksumByte(crc, payload[i]);
    }
  }

  // ---------------------------------------------------------------- the two forms agree

  /** The feedback of n shifts is the top n bits, spread over the generator's taps. */
  function Taps(t: bv16): bv16 {
    t ^ (t << 5) ^ (t << 12)
  }

  function Advance1(c: bv16): bv16 { (c << 1) ^ Taps(c >> 15) }

  function Advance2(c: bv16): bv16 { (c << 2) ^ Taps(c >> 14) }

  function Advance4(c: bv16): bv16 { (c << 4) ^ Taps(c >> 12) }

  function Advance8(c: bv16): bv16 { (c << 8) ^ Taps((c >> 8) ^ (c >> 12)) }

  lemma OneShift(c: bv16)
    ensures Shift16(c) == Advance1(c)
  {
    if c & 0x8000 != 0 {
      assert c >> 15 == 1;
    } else {
      assert c >> 15 == 0;
    }
  }

  lemma TwoShifts(c: bv16)
    ensures Advance1(Advance1(c)) == Advance2(c)
  {
  }

  lemma FourShifts(c: bv16)
    ensures Advance2(Advance2(c)) == Advance4(c)
  {
  }

  /* The stages of each composite are named, so that the solver compares single words. */

  lemma Advance4Stage(c: bv16) returns (t: bv16)
    ensures t == (c >> 12) ^ ((c >> 12) << 5) ^ ((c >> 12) << 12)
    ensures Advance4(c) == (c << 4) ^ t
  {
    t := Taps(c >> 12);
  }

  lemma Advance8Stages(c: bv16) returns (v: bv16, t: bv16)
    ensures v == (c >> 8) ^ (c >> 12) && t == v ^ (v << 5) ^ (v << 12)
    ensures Advance8(c) == (c << 8) ^ t
  {
    v := (c >> 8) ^ (c >> 12);
    t := Taps(v);
  }

  lemma FoldStages(f: bv16) returns (f1: bv16, f2: bv16)
    ensures f1 == f ^ ((f & 0xff) >> 4) && f2 == f1 ^ (f1 << 12)
    ensures Fold(f) == f2 ^ ((f2 & 0xff) << 5)
  {
    f1 := f ^ ((f & 0xff) >> 4);
    f2 := f1 ^ (f1 << 12);
  }

  lemma EightShiftsOnWords(c: bv16, t: bv16, d: bv16, u: bv16, v: bv16, w: bv16, e: bv16, f: bv16)
    requires t == (c >> 12) ^ ((c >> 12) << 5) ^ ((c >> 12) << 12)
    requires d == (c << 4) ^ t
    requires u == (d >> 12) ^ ((d >> 12) << 5) ^ ((d >> 12) << 12)
    requires v == (c >> 8) ^ (c >> 12) && w == v ^ (v << 5) ^ (v << 12)
    requires e == (d << 4) ^ u && f == (c << 8) ^ w
    ensures e == f
  {
  }

  lemma FoldOnWords(c: bv16, f: bv16, f1: bv16, f2: bv16, v: bv16, t: bv16)
    requires f == (c >> 8) | (c << 8)
    requires f1 == f ^ ((f & 0xff) >> 4) && f2 == f1 ^ (f1 << 12)
    requires v == (c >> 8) ^ (c >> 12) && t == v ^ (v << 5) ^ (v << 12)
    ensures f2 ^ ((f2 & 0xff) << 5) == (c << 8) ^ t
  {
  }

  lemma EightShifts(c: bv16)
    ensures Advance4(Advance4(c)) == Advance8(c)
  {
    hide Taps, Advance4, Advance8;
    var t := Advance4Stage(c);
    var d := Advance4(c);
    var u := Advance4Stage(d);
    var v, w := Advance8Stages(c);
    EightShiftsOnWords(c, t, d, u, v, w, Advance4(d), Advance8(c));
  }

  lemma FoldAdvances(c: bv16)
    ensures Fold(SwapBytes(c)) == Advance8(c)
  {
    hide Taps, Fold, Advance8;
    var f := SwapBytes(c);
    var f1, f2 := FoldStages(f);
    var v, t := Advance8Stages(c);
    FoldOnWords(c, f, f1, f2, v, t);
  }

  lemma SwapMixes(c: bv16, b: byte)
    ensures SwapBytes(c) ^ (b as bv16) == SwapBytes(c ^ ((b as bv16) << 8))
  {
  }

  lemma ShiftsAdvance(c: bv16)
    ensures Shifts16(c, 4) == Advance4(c)
    ensures Shifts16(c, 8) == Advance4(Advance4(c))
  {
    hide Shift16, Advance1, Advance2, Advance4;
    forall x: bv16 ensures Shift16(Shift16(x)) == Advance2(x) {
      OneShift(x);
      OneShift(Advance1(x));
      TwoShifts(x);
    }
    assert Shifts16(c, 1) == Shift16(c);
    assert Shifts16(c, 2) == Advance2(c);
    assert Shifts16(c, 4) == Advance2(Advance2(c));
    assert Shifts16(c, 6) == Advance2(Advance4(c)) by { FourShifts(c); }
    assert Shifts16(c, 8) == Advance2(Advance2(Advance4(c)));
    FourShifts(c);
    FourShifts(Advance4(c));
  }

  /** One byte through the shift/xor form is eight turns of the bit loop. */
  lemma ByteFormIsBitForm(c: bv16, b: byte)
    ensures ChecksumByte(c, b) == Crc16Byte(c, b)
  {
    hide Shift16, Fold, SwapBytes, Advance4, Advance8;
    FoldAdvances(c ^ ((b as bv16) << 8));
    SwapMixes(c, b);
    ShiftsAdvance(c ^ ((b as bv16) << 8));
    EightShifts(c ^ ((b as bv16) << 8));
  }

  /** The host-interface checksum is crc16, on every byte string. */
  lemma {:induction false} ChecksumIsCrc16(c: bv16, s: seq<byte>)
    ensures ChecksumFrom(c, s) == Crc16From(c, s)
  {
    if s != [] {
      hide ChecksumByte, Crc16Byte;
      ChecksumIsCrc16(c, s[..|s| - 1]);
      ByteFormIsBitForm(ChecksumFrom(c, s[..|s| - 1]), s[|s| - 1]);
    }
  }

  // ---------------------------------------------------------------- which errors the CRC-16 sees

  lemma {:induction false} Crc16Concat(c: bv16, s: seq<byte>, t: seq<byte>)
    ensures Crc16From(c, s + t) == Crc16From(Crc16From(c, s), t)
  {
    hide Crc16Byte;
    if t == [] {
      assert s + t == s;
    } else {
      Crc16Concat(c, s, t[..|t| - 1]);
      assert (s + t)[..|s + t| - 1] == s + t[..|t| - 1];
    }
  }

  function Xor(c: bv16, d: bv16): bv16 { c ^ d }

  function Double(c: bv16): bv16 { c << 1 }

  predicate TopBit(c: bv16) { c & 0x8000 != 0 }

  lemma ShiftCases(c: bv16)
    ensures Shift16(c) == if TopBit(c) then Xor(Double(c), 0x1021) else Double(c)
  {
  }

  lemma DoubleXor(c: bv16, d: bv16)
    ensures Double(Xor(c, d)) == Xor(Double(c), Double(d))
  {
    assert (c ^ d) << 1 == (c << 1) ^ (d << 1);
  }

  lemma TopBitXor(c: bv16, d: bv16)
    ensures TopBit(Xor(c, d)) <==> TopBit(c) != TopBit(d)
  {
  }

  lemma XorAssociates(a: bv16, b: bv16, c: bv16)
    ensures Xor(Xor(a, b), c) == Xor(a, Xor(b, c))
  {
    hide Xor;
    var ab := XorWord(a, b);
    var bc := XorWord(b, c);
    var x := XorWord(ab, c);
    var y := XorWord(a, bc);
    XorOnWords(a, b, c, ab, bc, x, y);
  }

  lemma XorWord(a: bv16, b: bv16) returns (r: bv16)
    ensures r == a ^ b && Xor(a, b) == r
  {
    r := a ^ b;
  }

  lemma XorOnWords(a: bv16, b: bv16, c: bv16, ab: bv16, bc: bv16, x: bv16, y: bv16)
    requires ab == a ^ b && bc == b ^ c && x == ab ^ c && y == a ^ bc
    ensures x == y
  {
  }

  lemma XorCommutes(a: bv16, b: bv16)
    ensures Xor(a, b) == Xor(b, a)
  {
  }

  lemma XorCancels(a: bv16)
    ensures Xor(a, a) == 0 && Xor(a, 0) == a
  {
  }

  lemma Shift16Xor(c: bv16, d: bv16)
    ensures Shift16(Xor(c, d)) == Xor(Shift16(c), Shift16(d))
  {
    hide Shift16, Xor, Double, TopBit;
    var g, x, y := 0x1021, Double(c), Double(d);
    ShiftCases(c);
    ShiftCases(d);
    ShiftCases(Xor(c, d));
    DoubleXor(c, d);
    TopBitXor(c, d);
    XorAssociates(x, y, g);
    XorAssociates(x, g, y);
    XorCommutes(g, y);
    XorAssociates(Xor(x, y), g, g);
    XorAssociates(Xor(x, g), y, g);
    XorCancels(g);
    XorCancels(Xor(x, y));
  }

  lemma {:induction false} Shifts16Xor(c: bv16, d: bv16, n: nat)
    ensures Shifts16(Xor(c, d), n) == Xor(Shifts16(c, n), Shifts16(d, n))
  {
    hide Shift16, Xor;
    if n > 0 {
      Shifts16Xor(c, d, n - 1);
      Shift16Xor(Shifts16(c, n - 1), Shifts16(d, n - 1));
    }
  }

  function XorSeq(s: seq<byte>, t: seq<byte>): seq<byte>
    requires |s| == |t|
  {
    seq(|s|, i requires 0 <= i < |s| => s[i] ^ t[i])
  }

  lemma MixXor(c: bv16, d: bv16, a: byte, b: byte)
    ensures Xor(c, d) ^ (((a ^ b) as bv16) << 8) == Xor(c ^ ((a as bv16) << 8), d ^ ((b as bv16) << 8))
  {
  }

  lemma Crc16ByteXor(c: bv16, d: bv16, a: byte, b: byte)
    ensures Crc16Byte(Xor(c, d), a ^ b) == Xor(Crc16Byte(c, a), Crc16Byte(d, b))
  {
    hide Shift16, Shifts16, Xor;
    MixXor(c, d, a, b);
    Shifts16Xor(c ^ ((a as bv16) << 8), d ^ ((b as bv16) << 8), 8);
  }

  /** crc16 is linear over xor, in its state and in its data together. */
  lemma {:induction false} Crc16Xor(c: bv16, d: bv16, s: seq<byte>, t: seq<byte>)
    requires |s| == |t|
    ensures Crc16From(Xor(c, d), XorSeq(s, t)) == Xor(Crc16From(c, s), Crc16From(d, t))
  {
    hide Crc16Byte, Xor;
    if s != [] {
      var k := |s| - 1;
      Crc16Xor(c, d, s[..k], t[..k]);
      assert XorSeq(s, t)[..k] == XorSeq(s[..k], t[..k]);
      Crc16ByteXor(Crc16From(c, s[..k]), Crc16From(d, t[..k]), s[k], t[k]);
    }
  }

  lemma Shift16Kernel(c: bv16)
    requires Shift16(c) == 0
    ensures c == 0
  {
  }

  lemma {:induction false} Shifts16Kernel(c: bv16, n: nat)
    requires Shifts16(c, n) == 0
    ensures c == 0
  {
    if n > 0 {
      hide Shift16;
      Shift16Kernel(Shifts16(c, n - 1));
      Shifts16Kernel(c, n - 1);
    }
  }

  function Zeros(n: nat): seq<byte> {
    seq(n, i => 0)
  }

  lemma {:induction false} ZeroStaysZero(n: nat)
    ensures Crc16From(0, Zeros(n)) == 0
  {
    if n > 0 {
      ZeroStaysZero(n - 1);
      assert Zeros(n)[..n - 1] == Zeros(n - 1);
      assert Shifts16(0, 8) == 0 by { ShiftsOfZero(8); }
    }
  }

  lemma {:induction false} ShiftsOfZero(n: nat)
    ensures Shifts16(0, n) == 0
  {
    if n > 0 {
      ShiftsOfZero(n - 1);
    }
  }

  /** Running on over zero bytes never turns a nonzero state into zero. */
  lemma {:induction false} NonzeroStaysNonzero(c: bv16, n: nat)
    requires c != 0
    ensures Crc16From(c, Zeros(n)) != 0
  {
    if n > 0 {
      hide Shifts16;
      NonzeroStaysNonzero(c, n - 1);
      assert Zeros(n)[..n - 1] == Zeros(n - 1);
      var d := Crc16From(c, Zeros(n - 1));
      assert d ^ ((0 as bv16) << 8) == d;
      if Shifts16(d, 8) == 0 {
        Shifts16Kernel(d, 8);
      }
    }
  }

  /** Bit p of a byte, counted from the most significant, the order in which crc16 takes them. */
  predicate BitOf(b: byte, p: nat)
    requires p < 8
  {
    (b >> ((7 - p) as bv8)) & 1 == 1
  }

  predicate BitAt(s: seq<byte>, i: nat)
    requires i < 8 * |s|
  {
    BitOf(s[i / 8], i % 8)
  }

  /** The two strings differ, and only within 16 consecutive bits. */
  ghost predicate DifferInBurst(s: seq<byte>, t: seq<byte>, a: nat)
  {
    && |s| == |t|
    && (exists j: nat :: j < |s| && s[j] != t[j])
    && forall i: nat | i < 8 * |s| :: BitAt(s, i) != BitAt(t, i) ==> a <= i < a + 16
  }

  lemma BitOfXor(x: byte, y: byte, p: nat)
    requires p < 8
    ensures BitOf(x ^ y, p) <==> BitOf(x, p) != BitOf(y, p)
  {
    BitOfXorShifted(x, y, (7 - p) as bv8);
  }

  lemma BitOfXorShifted(x: byte, y: byte, k: bv8)
    requires k < 8
    ensures ((x ^ y) >> k) & 1 == 1 <==> ((x >> k) & 1 == 1) != ((y >> k) & 1 == 1)
  {
  }

  lemma TopBitsClear(b: byte, m: nat)
    requires m < 8
    requires forall p: nat | p < m :: !BitOf(b, p)
    ensures b & !(0xff >> (m as bv8)) == 0
  {
    if m == 0 {
    } else if m == 1 {
      assert !BitOf(b, 0);
    } else if m == 2 {
      assert !BitOf(b, 0) && !BitOf(b, 1);
    } else if m == 3 {
      assert !BitOf(b, 0) && !BitOf(b, 1) && !BitOf(b, 2);
    } else if m == 4 {
      assert !BitOf(b, 0) && !BitOf(b, 1) && !BitOf(b, 2) && !BitOf(b, 3);
    } else if m == 5 {
      assert !BitOf(b, 0) && !BitOf(b, 1) && !BitOf(b, 2) && !BitOf(b, 3) && !BitOf(b, 4);
    } else if m == 6 {
      assert !BitOf(b, 0) && !BitOf(b, 1) && !BitOf(b, 2) && !BitOf(b, 3) && !BitOf(b, 4) && !BitOf(b, 5);
    } else {
      assert !BitOf(b, 0) && !BitOf(b, 1) && !BitOf(b, 2) && !BitOf(b, 3) && !BitOf(b, 4) && !BitOf(b, 5)
          && !BitOf(b, 6);
    }
  }

  lemma AllBitsClear(b: byte)
    requires forall p: nat | p < 8 :: !BitOf(b, p)
    ensures b == 0
  {
    assert !BitOf(b, 0) && !BitOf(b, 1) && !BitOf(b, 2) && !BitOf(b, 3) && !BitOf(b, 4) && !BitOf(b, 5)
        && !BitOf(b, 6) && !BitOf(b, 7);
  }

  lemma BottomBitsClear(b: byte, m: nat)
    requires m < 8
    requires forall p: nat | m <= p < 8 :: !BitOf(b, p)
    ensures b & (0xff >> (m as bv8)) == 0
  {
    assert !BitOf(b, 7);
    if m == 6 {
      assert !BitOf(b, 6);
    } else if m == 5 {
      assert !BitOf(b, 5) && !BitOf(b, 6);
    } else if m == 4 {
      assert !BitOf(b, 4) && !BitOf(b, 5) && !BitOf(b, 6);
    } else if m == 3 {
      assert !BitOf(b, 3) && !BitOf(b, 4) && !BitOf(b, 5) && !BitOf(b, 6);
    } else if m == 2 {
      assert !BitOf(b, 2) && !BitOf(b, 3) && !BitOf(b, 4) && !BitOf(b, 5) && !BitOf(b, 6);
    } else if m == 1 {
      assert !BitOf(b, 1) && !BitOf(b, 2) && !BitOf(b, 3) && !BitOf(b, 4) && !BitOf(b, 5) && !BitOf(b, 6);
    } else if m == 0 {
      assert !BitOf(b, 0) && !BitOf(b, 1) && !BitOf(b, 2) && !BitOf(b, 3) && !BitOf(b, 4) && !BitOf(b, 5)
          && !BitOf(b, 6);
    }
  }

  lemma ThreeByteBurst(a: byte, b: byte, c: byte, m: bv8)
    requires m < 8
    requires a & !(0xff >> m) == 0 && c & (0xff >> m) == 0
    requires a != 0 || b != 0 || c != 0
    ensures ChecksumByte(ChecksumByte(ChecksumByte(0, a), b), c) != 0
  {
  }

  /** The error word e is nonzero and its set bits lie within 16 consecutive positions from a. */
  ghost predicate IsBurst(e: seq<byte>, a: nat)
  {
    && (exists j: nat :: j < |e| && e[j] != 0)
    && forall i: nat | i < 8 * |e| :: BitAt(e, i) ==> a <= i < a + 16
  }

  lemma BurstBits(e: seq<byte>, a: nat, j: nat, p: nat)
    requires IsBurst(e, a) && j < |e| && p < 8
    ensures BitOf(e[j], p) ==> a <= 8 * j + p < a + 16
  {
    assert (8 * j + p) / 8 == j && (8 * j + p) % 8 == p;
    assert BitAt(e, 8 * j + p) == BitOf(e[j], p);
  }

  /** The byte at j, reading zeros past the end; zero away from the three bytes the burst can touch. */
  function Padded(e: seq<byte>, j: nat): byte {
    if j < |e| then e[j] else 0
  }

  lemma BurstWindow(e: seq<byte>, a: nat, j: nat)
    requires IsBurst(e, a)
    ensures j < a / 8 || j > a / 8 + 2 ==> Padded(e, j) == 0
    ensures j == a / 8 ==> Padded(e, j) & !(0xff >> ((a % 8) as bv8)) == 0
    ensures j == a / 8 + 2 ==> Padded(e, j) & (0xff >> ((a % 8) as bv8)) == 0
  {
    hide BitOf;
    if j < |e| {
      var b := e[j];
      var m := a % 8;
      forall p: nat | p < 8 ensures BitOf(b, p) ==> a <= 8 * j + p < a + 16 { BurstBits(e, a, j, p); }
      if j < a / 8 || j > a / 8 + 2 {
        AllBitsClear(b);
      } else if j == a / 8 {
        TopBitsClear(b, m);
      } else if j == a / 8 + 2 {
        BottomBitsClear(b, m);
      }
    }
  }

  lemma ThreeBytes(x: byte, y: byte, z: byte)
    ensures Crc16From(0, [x, y, z]) == ChecksumByte(ChecksumByte(ChecksumByte(0, x), y), z)
  {
    hide ChecksumByte, Crc16Byte;
    assert ChecksumFrom(0, [x]) == ChecksumByte(0, x);
    assert [x, y][..1] == [x] && [x, y, z][..2] == [x, y];
    assert ChecksumFrom(0, [x, y]) == ChecksumByte(ChecksumByte(0, x), y);
    ChecksumIsCrc16(0, [x, y, z]);
  }

  lemma BurstIsNonzero(e: seq<byte>, a: nat)
    requires IsBurst(e, a)
    ensures Crc16(e) != 0
  {
    hide ChecksumByte, Crc16Byte, BitAt;
    var k := a / 8;
    var x, y, z := Padded(e, k), Padded(e, k + 1), Padded(e, k + 2);
    forall j: nat ensures j < k || j > k + 2 ==> Padded(e, j) == 0 { BurstWindow(e, a, j); }
    BurstWindow(e, a, k);
    BurstWindow(e, a, k + 2);
    var j: nat :| j < |e| && e[j] != 0;
    assert Padded(e, j) != 0;
    ThreeByteBurst(x, y, z, (a % 8) as bv8);
    ThreeBytes(x, y, z);
    var after := |e|;
    assert e + Zeros(k + 3) == Zeros(k) + ([x, y, z] + Zeros(after)) by {
      forall j: nat | j < |e| + k + 3
        ensures (e + Zeros(k + 3))[j] == Padded(e, j) == (Zeros(k) + ([x, y, z] + Zeros(after)))[j]
      {
      }
    }
    Crc16Concat(0, e, Zeros(k + 3));
    Crc16Concat(0, Zeros(k), [x, y, z] + Zeros(after));
    Crc16Concat(0, [x, y, z], Zeros(after));
    ZeroStaysZero(k);
    ZeroStaysZero(k + 3);
    NonzeroStaysNonzero(Crc16From(0, [x, y, z]), after);
  }

  /** Every nonempty error confined to 16 consecutive bits changes the CRC-16. */
  lemma BurstChangesCrc16(s: seq<byte>, t: seq<byte>, a: nat)
    requires DifferInBurst(s, t, a)
    ensures Crc16(s) != Crc16(t)
  {
    var e := XorSeq(s, t);
    forall i: nat | i < 8 * |e| ensures BitAt(e, i) ==> a <= i < a + 16 {
      BitOfXor(s[i / 8], t[i / 8], i % 8);
      assert BitAt(e, i) <==> BitAt(s, i) != BitAt(t, i);
    }
    hide BitAt, Crc16Byte, Xor;
    var j: nat :| j < |s| && s[j] != t[j];
    XorOfUnequal(s[j], t[j]);
    assert e[j] != 0;
    BurstIsNonzero(e, a);
    Crc16Xor(0, 0, s, t);
    XorCancels(0);
    XorCancels(Crc16(s));
  }

  lemma XorOfUnequal(x: byte, y: byte)
    requires x != y
    ensures x ^ y != 0
  {
  }

  // ---------------------------------------------------------------- the check value

  /** The digits 1 to 9. */
  const DIGITS: seq<byte> := [0x31, 0x32, 0x33, 0x34, 0x35, 0x36, 0x37, 0x38, 0x39]

  lemma OneMoreByte(c: bv16, s: seq<byte>, b: byte)
    ensures Crc16From(c, s + [b]) == Crc16Byte(Crc16From(c, s), b)
  {
    hide Crc16Byte;
    assert (s + [b])[..|s|] == s;
  }

  /** Each byte of the digits, and what it makes of the CRC so far. */
  lemma DigitSteps()
    ensures Crc16Byte(0x0000, 0x31) == 0x2672
    ensures Crc16Byte(0x2672, 0x32) == 0x20b5
    ensures Crc16Byte(0x20b5, 0x33) == 0x9752
    ensures Crc16Byte(0x9752, 0x34) == 0xd789
    ensures Crc16Byte(0xd789, 0x35) == 0x546c
    ensures Crc16Byte(0x546c, 0x36) == 0x20e4
    ensures Crc16Byte(0x20e4, 0x37) == 0x86d6
    ensures Crc16Byte(0x86d6, 0x38) == 0x9015
    ensures Crc16Byte(0x9015, 0x39) == 0x31c3
  {
    hide Crc16Byte;
    ByteFormIsBitForm(0x0000, 0x31);
    ByteFormIsBitForm(0x2672, 0x32);
    ByteFormIsBitForm(0x20b5, 0x33);
    ByteFormIsBitForm(0x9752, 0x34);
    ByteFormIsBitForm(0xd789, 0x35);
    ByteFormIsBitForm(0x546c, 0x36);
    ByteFormIsBitForm(0x20e4, 0x37);
    ByteFormIsBitForm(0x86d6, 0x38);
    ByteFormIsBitForm(0x9015, 0x39);
  }

  /** The check value of the CRC with this generator and start value 0. */
  lemma CheckValue16()
    ensures Crc16(DIGITS) == 0x31c3
  {
    hide Crc16Byte;
    DigitSteps();
    OneMoreByte(0, DIGITS[..0], DIGITS[0]);
    assert DIGITS[..0] + [DIGITS[0]] == DIGITS[..1];
    OneMoreByte(0, DIGITS[..1], DIGITS[1]);
    assert DIGITS[..1] + [DIGITS[1]] == DIGITS[..2];
    OneMoreByte(0, DIGITS[..2], DIGITS[2]);
    assert DIGITS[..2] + [DIGITS[2]] == DIGITS[..3];
    OneMoreByte(0, DIGITS[..3], DIGITS[3]);
    assert DIGITS[..3] + [DIGITS[3]] == DIGITS[..4];
    OneMoreByte(0, DIGITS[..4], DIGITS[4]);
    assert DIGITS[..4] + [DIGITS[4]] == DIGITS[..5];
    OneMoreByte(0, DIGITS[..5], DIGITS[5]);
    assert DIGITS[..5] + [DIGITS[5]] == DIGITS[..6];
    OneMoreByte(0, DIGITS[..6], DIGITS[6]);
    assert DIGITS[..6] + [DIGITS[6]] == DIGITS[..7];
    OneMoreByte(0, DIGITS[..7], DIGITS[7]);
    assert DIGITS[..7] + [DIGITS[7]] == DIGITS[..8];
    OneMoreByte(0, DIGITS[..8], DIGITS[8]);
    assert DIGITS[..8] + [DIGITS[8]] == DIGITS[..9];
    assert DIGITS[..9] == DIGITS;
  }
}
