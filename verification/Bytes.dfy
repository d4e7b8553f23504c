/** The unit of every buffer. */
module Octets {

  type byte = bv8

  function ToByte(n: nat): byte
    requires n < 256
  {
    n as byte
  }

  function ToNat(b: byte): nat {
    b as nat
  }

  // The two conversions meet in single bits: what follows relates each of them to these, and not to the other.

  predicate HasBit(b: byte, mask: byte) { b & mask != 0 }

  predicate Odd(n: nat) { n % 2 == 1 }

  /** The number with these four bits, the highest first. */
  function Nibble(b3: bool, b2: bool, b1: bool, b0: bool): nat {
    (if b3 then 8 else 0) + (if b2 then 4 else 0) + (if b1 then 2 else 0) + (if b0 then 1 else 0)
  }

  lemma BitsOfByte(b: byte)
    ensures ToNat(b) == 16 * Nibble(HasBit(b, 0x80), HasBit(b, 0x40), HasBit(b, 0x20), HasBit(b, 0x10))
                        + Nibble(HasBit(b, 0x08), HasBit(b, 0x04), HasBit(b, 0x02), HasBit(b, 0x01))
  {
  }

  lemma BitsOfNat(n: nat)
    requires n < 256
    ensures var b := ToByte(n);
            && HasBit(b, 0x80) == Odd(n / 128) && HasBit(b, 0x40) == Odd(n / 64)
            && HasBit(b, 0x20) == Odd(n / 32) && HasBit(b, 0x10) == Odd(n / 16)
            && HasBit(b, 0x08) == Odd(n / 8) && HasBit(b, 0x04) == Odd(n / 4)
            && HasBit(b, 0x02) == Odd(n / 2) && HasBit(b, 0x01) == Odd(n)
  {
  }

  lemma BitsOfNibble(n: nat)
    requires n < 16
    ensures n == Nibble(Odd(n / 8), Odd(n / 4), Odd(n / 2), Odd(n))
  {
  }

  lemma HighNibble(n: nat)
    ensures n / 16 / 8 == n / 128 && n / 16 / 4 == n / 64 && n / 16 / 2 == n / 32
  {
  }

  lemma OddPlusEven(m: nat, n: nat)
    ensures Odd(2 * m + n) == Odd(n)
  {
  }

  lemma LowNibble(n: nat)
    ensures Odd(n % 16 / 8) == Odd(n / 8) && Odd(n % 16 / 4) == Odd(n / 4)
    ensures Odd(n % 16 / 2) == Odd(n / 2) && Odd(n % 16) == Odd(n)
  {
    hide Odd;
    var h, l := n / 16, n % 16;
    assert n / 8 == 2 * h + l / 8 && n / 4 == 2 * (2 * h) + l / 4 && n / 2 == 2 * (4 * h) + l / 2;
    OddPlusEven(h, l / 8);
    OddPlusEven(2 * h, l / 4);
    OddPlusEven(4 * h, l / 2);
    OddPlusEven(8 * h, l);
  }

  lemma ByteOfNat(n: nat)
    requires n < 256
    ensures ToNat(ToByte(n)) == n
  {
    hide ToByte, ToNat, HasBit, Odd, Nibble;
    BitsOfNat(n);
    BitsOfByte(ToByte(n));
    BitsOfNibble(n / 16);
    HighNibble(n);
    BitsOfNibble(n % 16);
    LowNibble(n);
  }
}

/** Bytes, and the little-endian fields of the file-transfer messages. */
module Bytes {
  import opened Octets

  /** UINT32_FROM_BYTESTREAM */
  function Word(b0: byte, b1: byte, b2: byte, b3: byte): bv32 {
    (b0 as bv32) | ((b1 as bv32) << 8) | ((b2 as bv32) << 16) | ((b3 as bv32) << 24)
  }

  function WordAt(s: seq<byte>, i: nat): bv32
    requires i + 4 <= |s|
  {
    Word(s[i], s[i + 1], s[i + 2], s[i + 3])
  }

  /** UINT32_TO_BYTESTREAM */
  function WordBytes(x: bv32): (s: seq<byte>)
    ensures |s| == 4
  {
    [(x & 0xFF) as byte, ((x >> 8) & 0xFF) as byte, ((x >> 16) & 0xFF) as byte, ((x >> 24) & 0xFF) as byte]
  }

  lemma WordOfWordBytes(x: bv32)
    ensures WordAt(WordBytes(x), 0) == x
  {
  }

  /** The byte at i is the lowest of four. */
  lemma WordIsLittleEndian(s: seq<byte>, i: nat)
    requires i + 4 <= |s|
    ensures WordAt(s, i) as nat
            == s[i] as nat + 0x100 * (s[i + 1] as nat) + 0x1_0000 * (s[i + 2] as nat) + 0x100_0000 * (s[i + 3] as nat)
  {
    hide Word, Join8, Join16;
    WordInHalves(s[i], s[i + 1], s[i + 2], s[i + 3]);
    ValueOfJoin8(s[i + 1], s[i]);
    ValueOfJoin8(s[i + 3], s[i + 2]);
    ValueOfJoin16(Join8(s[i + 3], s[i + 2]), Join8(s[i + 1], s[i]));
  }

  function Join8(hi: byte, lo: byte): bv16 {
    ((hi as bv16) << 8) | (lo as bv16)
  }

  function Join16(hi: bv16, lo: bv16): bv32 {
    ((hi as bv32) << 16) | (lo as bv32)
  }

  lemma WordInHalves(b0: byte, b1: byte, b2: byte, b3: byte)
    ensures Word(b0, b1, b2, b3) == Join16(Join8(b3, b2), Join8(b1, b0))
  {
  }

  // The values below are proved on words that stand for themselves, and carried over to the functions.

  lemma ValueOfWord16(hi: byte, lo: byte, x: bv16)
    requires x == ((hi as bv16) << 8) | (lo as bv16)
    ensures x as nat == 0x100 * (hi as nat) + lo as nat
  {
  }

  lemma ValueOfWord32(hi: bv16, lo: bv16, x: bv32)
    requires x == ((hi as bv32) << 16) | (lo as bv32)
    ensures x as nat == 0x1_0000 * (hi as nat) + lo as nat
  {
  }

  lemma Word16(hi: byte, lo: byte) returns (x: bv16)
    ensures x == Join8(hi, lo) && x == ((hi as bv16) << 8) | (lo as bv16)
  {
    x := Join8(hi, lo);
  }

  lemma Word32(hi: bv16, lo: bv16) returns (x: bv32)
    ensures x == Join16(hi, lo) && x == ((hi as bv32) << 16) | (lo as bv32)
  {
    x := Join16(hi, lo);
  }

  lemma ValueOfJoin8(hi: byte, lo: byte)
    ensures Join8(hi, lo) as nat == 0x100 * (hi as nat) + lo as nat
  {
    hide Join8;
    var x := Word16(hi, lo);
    ValueOfWord16(hi, lo, x);
  }

  lemma ValueOfJoin16(hi: bv16, lo: bv16)
    ensures Join16(hi, lo) as nat == 0x1_0000 * (hi as nat) + lo as nat
  {
    hide Join16;
    var x := Word32(hi, lo);
    ValueOfWord32(hi, lo, x);
  }

  /** UINT16_FROM_BYTESTREAM */
  function Pair(lo: byte, hi: byte): nat {
    ToNat(lo) + 256 * ToNat(hi)
  }

  function PairAt(s: seq<byte>, i: nat): nat
    requires i + 2 <= |s|
  {
    Pair(s[i], s[i + 1])
  }

  /** `n & 0x00FF` */
  function LowByte(n: nat): byte {
    ToByte(n % 256)
  }

  /** `(n >> 8) & 0x00FF` */
  function HighByte(n: nat): byte {
    ToByte(n / 256 % 256)
  }

  /** The low 16 bits, least significant byte first. */
  function PairBytes(n: nat): (s: seq<byte>)
    ensures |s| == 2
  {
    [LowByte(n), HighByte(n)]
  }

  lemma PairOfPairBytes(n: nat)
    requires n < 0x1_0000
    ensures PairAt(PairBytes(n), 0) == n
  {
    hide ToByte, ToNat;
    ByteOfNat(n % 256);
    ByteOfNat(n / 256 % 256);
  }

  lemma SplitAt(s: seq<byte>, i: nat, j: nat, k: nat)
    requires i <= j <= k <= |s|
    ensures s[i..k] == s[i..j] + s[j..k]
  {
  }
}
