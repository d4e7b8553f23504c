/** The structs of the host interface as big-endian byte buffers. */
module StructCodecs {
  import opened Bytes
  import opened Octets

  const NET_INFO_BUFF_SIZE: nat := 30
  const DL_BAND_CFG_SIZE: nat := 14
  const STATS_SIZE: nat := 40
  const TIME_INFO_SIZE: nat := 13

  // ---------------------------------------------------------------- big-endian fields

  function Be16Bytes(x: bv16): (s: seq<byte>)
    ensures |s| == 2
  {
    [((x >> 8) & 0xff) as byte, (x & 0xff) as byte]
  }

  function Be32Bytes(x: bv32): (s: seq<byte>)
    ensures |s| == 4
  {
    Be16Bytes(((x >> 16) & 0xffff) as bv16) + Be16Bytes((x & 0xffff) as bv16)
  }

  function Be64Bytes(x: bv64): (s: seq<byte>)
    ensures |s| == 8
  {
    Be32Bytes(((x >> 32) & 0xffff_ffff) as bv32) + Be32Bytes((x & 0xffff_ffff) as bv32)
  }

  function Join64(hi: bv32, lo: bv32): bv64 {
    ((hi as bv64) << 32) | (lo as bv64)
  }

  function Be16At(s: seq<byte>, i: nat): bv16
    requires i + 2 <= |s|
  {
    Join8(s[i], s[i + 1])
  }

  function Be32At(s: seq<byte>, i: nat): bv32
    requires i + 4 <= |s|
  {
    Join16(Be16At(s, i), Be16At(s, i + 2))
  }

  function Be64At(s: seq<byte>, i: nat): bv64
    requires i + 8 <= |s|
  {
    Join64(Be32At(s, i), Be32At(s, i + 4))
  }

  lemma Be16RoundTrip(x: bv16, hi: byte, lo: byte)
    ensures Be16At(Be16Bytes(x), 0) == x
    ensures Be16Bytes(Join8(hi, lo)) == [hi, lo]
  {
    assert ((Join8(hi, lo) >> 8) & 0xff) as byte == hi;
    assert (Join8(hi, lo) & 0xff) as byte == lo;
  }

  lemma HalvesOf32(x: bv32, hi: bv16, lo: bv16)
    ensures Join16(((x >> 16) & 0xffff) as bv16, (x & 0xffff) as bv16) == x
    ensures ((Join16(hi, lo) >> 16) & 0xffff) as bv16 == hi && (Join16(hi, lo) & 0xffff) as bv16 == lo
  {
  }

  lemma HalvesOf64(x: bv64, hi: bv32, lo: bv32)
    ensures Join64(((x >> 32) & 0xffff_ffff) as bv32, (x & 0xffff_ffff) as bv32) == x
    ensures ((Join64(hi, lo) >> 32) & 0xffff_ffff) as bv32 == hi && (Join64(hi, lo) & 0xffff_ffff) as bv32 == lo
  {
  }

  /* A field is read back where its bytes stand, and the bytes of what is read are the ones that stand there. */

  lemma Read16(s: seq<byte>, i: nat, x: bv16)
    requires i + 2 <= |s|
    ensures s[i..i + 2] == Be16Bytes(x) <==> Be16At(s, i) == x
  {
    Be16RoundTrip(x, s[i], s[i + 1]);
    hide Join8, Be16Bytes;
    assert s[i..i + 2] == [s[i], s[i + 1]];
    assert s[i] == s[i..i + 2][0] && s[i + 1] == s[i..i + 2][1];
  }

  lemma Read32(s: seq<byte>, i: nat, x: bv32)
    requires i + 4 <= |s|
    ensures s[i..i + 4] == Be32Bytes(x) <==> Be32At(s, i) == x
  {
    var hi, lo := ((x >> 16) & 0xffff) as bv16, (x & 0xffff) as bv16;
    HalvesOf32(x, Be16At(s, i), Be16At(s, i + 2));
    assert Be32Bytes(x) == Be16Bytes(hi) + Be16Bytes(lo);
    assert Be32At(s, i) == x <==> Be16At(s, i) == hi && Be16At(s, i + 2) == lo;
    hide Join8, Be16Bytes, Be32Bytes, Join16, Be32At, Be16At;
    Read16(s, i, hi);
    Read16(s, i + 2, lo);
    assert s[i..i + 4] == s[i..i + 2] + s[i + 2..i + 4];
    assert s[i..i + 4][..2] == s[i..i + 2] && s[i..i + 4][2..] == s[i + 2..i + 4];
  }

  lemma Read64(s: seq<byte>, i: nat, x: bv64)
    requires i + 8 <= |s|
    ensures s[i..i + 8] == Be64Bytes(x) <==> Be64At(s, i) == x
  {
    var hi, lo := ((x >> 32) & 0xffff_ffff) as bv32, (x & 0xffff_ffff) as bv32;
    HalvesOf64(x, Be32At(s, i), Be32At(s, i + 4));
    assert Be64Bytes(x) == Be32Bytes(hi) + Be32Bytes(lo);
    assert Be64At(s, i) == x <==> Be32At(s, i) == hi && Be32At(s, i + 4) == lo;
    hide Be32Bytes, Be64Bytes, Join64, Be64At, Be32At;
    Read32(s, i, hi);
    Read32(s, i + 4, lo);
    assert s[i..i + 8] == s[i..i + 4] + s[i + 4..i + 8];
    assert s[i..i + 8][..4] == s[i..i + 4] && s[i..i + 8][4..] == s[i + 4..i + 8];
  }

  // ---------------------------------------------------------------- fields as numbers

  /** The number that stands in s, the highest byte first. */
  function Number(s: seq<byte>): nat {
    if s == [] then 0 else 0x100 * Number(s[..|s| - 1]) + s[|s| - 1] as nat
  }

  lemma ValueOfWord64(hi: bv32, lo: bv32, x: bv64)
    requires x == ((hi as bv64) << 32) | (lo as bv64)
    ensures x as nat == 0x1_0000_0000 * (hi as nat) + lo as nat
  {
  }

  lemma Word64(hi: bv32, lo: bv32) returns (x: bv64)
    ensures x == Join64(hi, lo) && x == ((hi as bv64) << 32) | (lo as bv64)
  {
    x := Join64(hi, lo);
  }

  lemma NumberOf16(x: bv16)
    ensures Number(Be16Bytes(x)) == x as nat
  {
    hide Be16Bytes, Join8;
    var s := Be16Bytes(x);
    Be16RoundTrip(x, s[0], s[1]);
    ValueOfJoin8(s[0], s[1]);
    assert s == [s[0], s[1]] && [s[0], s[1]][..1] == [s[0]] && [s[0]][..0] == [];
    assert Number([s[0]]) == s[0] as nat;
  }

  function NumberAt(s: seq<byte>, i: nat, n: nat): nat
    requires i + n <= |s|
  {
    Number(s[i..i + n])
  }

  lemma OneMore(s: seq<byte>, b: byte)
    ensures Number(s + [b]) == 0x100 * Number(s) + b as nat && Number([]) == 0
  {
    assert (s + [b])[..|s|] == s;
  }

  /** Two digits behind others move these up by two places; and four by four. */
  lemma TwoMore(s: seq<byte>, t: seq<byte>)
    requires |t| == 2
    ensures Number(s + t) == 0x1_0000 * Number(s) + Number(t)
  {
    hide Number;
    OneMore(s, t[0]);
    OneMore(s + [t[0]], t[1]);
    OneMore([], t[0]);
    OneMore([] + [t[0]], t[1]);
    assert s + t == s + [t[0]] + [t[1]] && t == [] + [t[0]] + [t[1]];
  }

  lemma FourMore(s: seq<byte>, t: seq<byte>)
    requires |t| == 4
    ensures Number(s + t) == 0x1_0000_0000 * Number(s) + Number(t)
  {
    hide Number;
    TwoMore(s, t[..2]);
    TwoMore(s + t[..2], t[2..]);
    TwoMore(t[..2], t[2..]);
    assert s + t[..2] + t[2..] == s + t && t[..2] + t[2..] == t;
  }

  lemma SplitOf32(x: bv32) returns (hi: bv16, lo: bv16)
    ensures x == Join16(hi, lo) && Be32Bytes(x) == Be16Bytes(hi) + Be16Bytes(lo)
  {
    hi, lo := ((x >> 16) & 0xffff) as bv16, (x & 0xffff) as bv16;
    HalvesOf32(x, hi, lo);
    hide Be16Bytes, Join16;
  }

  lemma SplitOf64(x: bv64) returns (hi: bv32, lo: bv32)
    ensures x == Join64(hi, lo) && Be64Bytes(x) == Be32Bytes(hi) + Be32Bytes(lo)
  {
    hi, lo := ((x >> 32) & 0xffff_ffff) as bv32, (x & 0xffff_ffff) as bv32;
    HalvesOf64(x, hi, lo);
    hide Be32Bytes, Join64;
  }

  lemma NumberOf32(x: bv32)
    ensures Number(Be32Bytes(x)) == x as nat
  {
    hide Be16Bytes, Be32Bytes, Join16, Number;
    var hi, lo := SplitOf32(x);
    NumberOf16(hi);
    NumberOf16(lo);
    TwoMore(Be16Bytes(hi), Be16Bytes(lo));
    ValueOfJoin16(hi, lo);
  }

  lemma ValueOfJoin64(hi: bv32, lo: bv32)
    ensures Join64(hi, lo) as nat == 0x1_0000_0000 * (hi as nat) + lo as nat
  {
    hide Join64;
    var x := Word64(hi, lo);
    ValueOfWord64(hi, lo, x);
  }

  lemma NumberOf64(x: bv64)
    ensures Number(Be64Bytes(x)) == x as nat
  {
    hide Be32Bytes, Be64Bytes, Join64, Number;
    var hi, lo := SplitOf64(x);
    NumberOf32(hi);
    NumberOf32(lo);
    FourMore(Be32Bytes(hi), Be32Bytes(lo));
    ValueOfJoin64(hi, lo);
  }

  // ---------------------------------------------------------------- sequences of fields

  datatype Field = U8(b: byte) | U16(h: bv16) | U32(w: bv32) | U64(d: bv64)

  function Width(f: Field): nat {
    match f
    case U8(_) => 1
    case U16(_) => 2
    case U32(_) => 4
    case U64(_) => 8
  }

  function FieldBytes(f: Field): (s: seq<byte>)
    ensures |s| == Width(f)
  {
    match f
    case U8(b) => [b]
    case U16(h) => Be16Bytes(h)
    case U32(w) => Be32Bytes(w)
    case U64(d) => Be64Bytes(d)
  }

  /** Fields in the order in which they stand, the last one outermost. */
  datatype Fields = Empty | Then(init: Fields, last: Field)

  function Encode(fs: Fields): seq<byte> {
    match fs
    case Empty => []
    case Then(init, last) => Encode(init) + FieldBytes(last)
  }

  function ValueOf(f: Field): nat {
    match f
    case U8(b) => b as nat
    case U16(h) => h as nat
    case U32(w) => w as nat
    case U64(d) => d as nat
  }

  function Length(fs: Fields): nat {
    match fs
    case Empty => 0
    case Then(init, last) => Length(init) + Width(last)
  }

  /** Each field stands in s as a number, behind those before it. */
  predicate StandIn(fs: Fields, s: seq<byte>) {
    match fs
    case Empty => true
    case Then(init, last) =>
      && StandIn(init, s)
      && Length(fs) <= |s| && NumberAt(s, Length(init), Width(last)) == ValueOf(last)
  }

  lemma NumberOfField(f: Field)
    ensures Number(FieldBytes(f)) == ValueOf(f)
  {
    hide Be16Bytes, Be32Bytes, Be64Bytes;
    match f
    case U8(b) => assert [b][..0] == [];
    case U16(h) => NumberOf16(h);
    case U32(w) => NumberOf32(w);
    case U64(d) => NumberOf64(d);
  }

  lemma {:induction false} EncodedFieldsStand(fs: Fields, s: seq<byte>)
    requires Encode(fs) <= s
    ensures StandIn(fs, s) && |Encode(fs)| == Length(fs)
  {
    hide FieldBytes, Width, Number, ValueOf;
    match fs
    case Empty =>
    case Then(init, last) =>
      EncodedFieldsStand(init, s);
      NumberOfField(last);
      assert s[Length(init)..Length(fs)] == FieldBytes(last);
  }

  lemma LastStands(init: Fields, last: Field, s: seq<byte>, at: nat)
    requires StandIn(Then(init, last), s) && Length(init) == at
    ensures StandIn(init, s) && at + Width(last) <= |s| && NumberAt(s, at, Width(last)) == ValueOf(last)
  {
  }

  lemma LengthThen(init: Fields, last: Field)
    ensures Length(Then(init, last)) == Length(init) + Width(last) && Length(Empty) == 0
  {
  }

  predicate SameKind(f: Field, g: Field) {
    f.U8? == g.U8? && f.U16? == g.U16? && f.U32? == g.U32? && f.U64? == g.U64?
  }

  lemma EncodeThen(fs: Fields, f: Field)
    ensures Encode(Then(fs, f)) == Encode(fs) + FieldBytes(f)
  {
  }

  lemma FieldInjective(f: Field, g: Field)
    requires SameKind(f, g) && FieldBytes(f) == FieldBytes(g)
    ensures f == g
  {
    hide Be16Bytes, Be32Bytes, Be64Bytes, Be16At, Be32At, Be64At;
    var s := FieldBytes(f);
    assert s[0..|s|] == s;
    match f
    case U8(_) =>
    case U16(h) =>
      Read16(s, 0, h);
      Read16(s, 0, g.h);
    case U32(w) =>
      Read32(s, 0, w);
      Read32(s, 0, g.w);
    case U64(d) =>
      Read64(s, 0, d);
      Read64(s, 0, g.d);
  }

  /** The last of two sequences of fields with the same bytes, when they are of one kind. */
  lemma LastEqual(fs: Fields, gs: Fields)
    requires fs.Then? && gs.Then? && SameKind(fs.last, gs.last) && Encode(fs) == Encode(gs)
    ensures fs.last == gs.last && Encode(fs.init) == Encode(gs.init)
  {
    var x, y, f, g := Encode(fs.init), Encode(gs.init), FieldBytes(fs.last), FieldBytes(gs.last);
    assert Encode(fs) == x + f && Encode(gs) == y + g && |f| == |g|;
    hide Encode, FieldBytes, Width;
    assert (x + f)[..|x|] == x && (y + g)[..|y|] == y && (x + f)[|x|..] == f && (y + g)[|y|..] == g;
    FieldInjective(fs.last, gs.last);
  }

  // ---------------------------------------------------------------- the cursor

  /** A buffer, the place up to which it has been read or written, and the fields that stand before it. */
  class Cursor {
    const buf: array<byte>
    var pos: nat
    ghost var fields: Fields

    ghost predicate Valid()
      reads this, buf
    {
      pos <= buf.Length && buf[..pos] == Encode(fields)
    }

    constructor (buf: array<byte>)
      ensures this.buf == buf && pos == 0 && fields == Empty && Valid()
    {
      this.buf, this.pos, this.fields := buf, 0, Empty;
    }

    /** write_uint8 */
    method WriteUint8(x: byte)
      requires pos + 1 <= buf.Length
      modifies this`pos, buf
      ensures pos == old(pos) + 1 && buf[..pos] == old(buf[..pos]) + [x]
      ensures buf[pos..] == old(buf[pos + 1..])
    {
      buf[pos] := x;
      pos := pos + 1;
    }

    /** write_uint16 */
    method WriteUint16(x: bv16)
      requires pos + 2 <= buf.Length
      modifies this`pos, buf
      ensures pos == old(pos) + 2 && buf[..pos] == old(buf[..pos]) + Be16Bytes(x)
      ensures buf[pos..] == old(buf[pos + 2..])
    {
      WriteUint8(((x >> 8) & 0xff) as byte);
      WriteUint8((x & 0xff) as byte);
    }

    /** write_uint32 */
    method WriteUint32(x: bv32)
      requires pos + 4 <= buf.Length
      modifies this`pos, buf
      ensures pos == old(pos) + 4 && buf[..pos] == old(buf[..pos]) + Be32Bytes(x)
      ensures buf[pos..] == old(buf[pos + 4..])
    {
      hide Be16Bytes;
      WriteUint16(((x >> 16) & 0xffff) as bv16);
      WriteUint16((x & 0xffff) as bv16);
    }

    /** write_uint64 */
    method WriteUint64(x: bv64)
      requires pos + 8 <= buf.Length
      modifies this`pos, buf
      ensures pos == old(pos) + 8 && buf[..pos] == old(buf[..pos]) + Be64Bytes(x)
      ensures buf[pos..] == old(buf[pos + 8..])
    {
      hide Be32Bytes;
      WriteUint32(((x >> 32) & 0xffff_ffff) as bv32);
      WriteUint32((x & 0xffff_ffff) as bv32);
    }

    /** read_uint8 */
    method ReadUint8() returns (x: byte)
      requires pos + 1 <= buf.Length
      modifies this`pos
      ensures pos == old(pos) + 1 && x == buf[..][old(pos)]
    {
      x := buf[pos];
      pos := pos + 1;
    }

    /** read_uint16 */
    method ReadUint16() returns (x: bv16)
      requires pos + 2 <= buf.Length
      modifies this`pos
      ensures pos == old(pos) + 2 && x == Be16At(buf[..], old(pos))
    {
      var hi := ReadUint8();
      var lo := ReadUint8();
      x := Join8(hi, lo);
    }

    /** read_uint32 */
    method ReadUint32() returns (x: bv32)
      requires pos + 4 <= buf.Length
      modifies this`pos
      ensures pos == old(pos) + 4 && x == Be32At(buf[..], old(pos))
    {
      hide Be16At;
      var hi := ReadUint16();
      var lo := ReadUint16();
      x := Join16(hi, lo);
    }

    /** read_uint64 */
    method ReadUint64() returns (x: bv64)
      requires pos + 8 <= buf.Length
      modifies this`pos
      ensures pos == old(pos) + 8 && x == Be64At(buf[..], old(pos))
    {
      hide Be32At;
      var hi := ReadUint32();
      var lo := ReadUint32();
      x := Join64(hi, lo);
    }

    /** One field of a struct, by the writer for its width. */
    method Write(f: Field)
      requires Valid() && pos + Width(f) <= buf.Length
      modifies this, buf
      ensures Valid() && pos == old(pos) + Width(f) && fields == Then(old(fields), f)
      ensures buf[pos..] == old(buf[pos + Width(f)..])
    {
      hide Be16Bytes, Be32Bytes, Be64Bytes, Encode;
      match f {
        case U8(b) => WriteUint8(b);
        case U16(h) => WriteUint16(h);
        case U32(w) => WriteUint32(w);
        case U64(d) => WriteUint64(d);
      }
      EncodeThen(fields, f);
      fields := Then(fields, f);
    }

    /** How far the cursor has come: the whole buffer, which then holds exactly the fields. */
    method Offset() returns (len: nat)
      requires Valid() && pos == buf.Length
      ensures len == pos && buf[..] == Encode(fields)
    {
      assert buf[..pos] == buf[..];
      len := pos;
    }

    /** The field that was just read stands before the cursor. */
    ghost method Note(f: Field)
      requires pos >= Width(f) && pos <= buf.Length && buf[..pos - Width(f)] == Encode(fields)
      requires buf[..][pos - Width(f)..pos] == FieldBytes(f)
      modifies this`fields
      ensures Valid() && fields == Then(old(fields), f)
    {
      hide Encode, FieldBytes, Width;
      EncodeThen(fields, f);
      assert buf[..pos] == buf[..pos - Width(f)] + buf[..][pos - Width(f)..pos];
      fields := Then(fields, f);
    }

    method Take8() returns (x: byte)
      requires Valid() && pos + 1 <= buf.Length
      modifies this
      ensures Valid() && pos == old(pos) + 1 && fields == Then(old(fields), U8(x))
    {
      hide Encode;
      x := ReadUint8();
      Note(U8(x));
    }

    method Take16() returns (x: bv16)
      requires Valid() && pos + 2 <= buf.Length
      modifies this
      ensures Valid() && pos == old(pos) + 2 && fields == Then(old(fields), U16(x))
    {
      hide Encode, Be16Bytes, Be16At;
      x := ReadUint16();
      Read16(buf[..], old(pos), x);
      Note(U16(x));
    }

    method Take32() returns (x: bv32)
      requires Valid() && pos + 4 <= buf.Length
      modifies this
      ensures Valid() && pos == old(pos) + 4 && fields == Then(old(fields), U32(x))
    {
      hide Encode, Be32Bytes, Be32At;
      x := ReadUint32();
      Read32(buf[..], old(pos), x);
      Note(U32(x));
    }

    method Take64() returns (x: bv64)
      requires Valid() && pos + 8 <= buf.Length
      modifies this
      ensures Valid() && pos == old(pos) + 8 && fields == Then(old(fields), U64(x))
    {
      hide Encode, Be64Bytes, Be64At;
      x := ReadUint64();
      Read64(buf[..], old(pos), x);
      Note(U64(x));
    }
  }

  // ---------------------------------------------------------------- llabs_network_info_t

  /** Signed fields hold their two's-complement bits; the status is the byte of its enum. */
  datatype NetInfo = NetInfo(networkIdNode: bv32, networkIdGw: bv32, gatewayChannel: byte, gatewayFrequency: bv32,
                             lastRxTick: bv32, rssi: bv16, snr: byte, connectionStatus: byte,
                             isScanningGateways: byte, gatewayId: bv64)
  {
    function FirstFields(): Fields {
      Then(Then(Then(Then(Then(Empty, U32(networkIdNode)), U32(networkIdGw)), U8(gatewayChannel)),
                U32(gatewayFrequency)), U32(lastRxTick))
    }

    function Fields(): Fields {
      Then(Then(Then(Then(Then(FirstFields(), U16(rssi)), U8(snr)), U8(connectionStatus)), U8(isScanningGateways)),
           U64(gatewayId))
    }
  }

  /** The place and the value of every field. */
  predicate NetInfoStands(n: NetInfo, s: seq<byte>)
    requires |s| == 30
  {
    && NumberAt(s, 0, 4) == n.networkIdNode as nat
    && NumberAt(s, 4, 4) == n.networkIdGw as nat
    && NumberAt(s, 8, 1) == n.gatewayChannel as nat
    && NumberAt(s, 9, 4) == n.gatewayFrequency as nat
    && NumberAt(s, 13, 4) == n.lastRxTick as nat
    && NumberAt(s, 17, 2) == n.rssi as nat
    && NumberAt(s, 19, 1) == n.snr as nat
    && NumberAt(s, 20, 1) == n.connectionStatus as nat
    && NumberAt(s, 21, 1) == n.isScanningGateways as nat
    && NumberAt(s, 22, 8) == n.gatewayId as nat
  }

  lemma NetInfoLayout(n: NetInfo, s: seq<byte>)
    requires Encode(n.Fields()) == s
    ensures |s| == 30 && NetInfoStands(n, s)
  {
    hide NumberAt, Encode, StandIn, Length;
    EncodedFieldsStand(n.Fields(), s);
    var f0: Fields := Empty;
    var f1 := Then(f0, U32(n.networkIdNode));
    LengthThen(f0, f1.last);
    var f2 := Then(f1, U32(n.networkIdGw));
    LengthThen(f1, f2.last);
    var f3 := Then(f2, U8(n.gatewayChannel));
    LengthThen(f2, f3.last);
    var f4 := Then(f3, U32(n.gatewayFrequency));
    LengthThen(f3, f4.last);
    var f5 := Then(f4, U32(n.lastRxTick));
    LengthThen(f4, f5.last);
    var f6 := Then(f5, U16(n.rssi));
    LengthThen(f5, f6.last);
    var f7 := Then(f6, U8(n.snr));
    LengthThen(f6, f7.last);
    var f8 := Then(f7, U8(n.connectionStatus));
    LengthThen(f7, f8.last);
    var f9 := Then(f8, U8(n.isScanningGateways));
    LengthThen(f8, f9.last);
    var f10 := Then(f9, U64(n.gatewayId));
    LengthThen(f9, f10.last);
    assert f10 == n.Fields();
    LastStands(f9, f10.last, s, 22);
    LastStands(f8, f9.last, s, 21);
    LastStands(f7, f8.last, s, 20);
    LastStands(f6, f7.last, s, 19);
    LastStands(f5, f6.last, s, 17);
    LastStands(f4, f5.last, s, 13);
    LastStands(f3, f4.last, s, 9);
    LastStands(f2, f3.last, s, 8);
    LastStands(f1, f2.last, s, 4);
    LastStands(f0, f1.last, s, 0);
  }

  /** No two of these structs have the same bytes. */
  lemma NetInfoInjective(n: NetInfo, m: NetInfo)
    requires Encode(n.Fields()) == Encode(m.Fields())
    ensures n == m
  {
    hide Encode, NetInfo.FirstFields;
    var a, b := n.Fields(), m.Fields();
    LastEqual(a, b);
    a, b := a.init, b.init;
    LastEqual(a, b);
    a, b := a.init, b.init;
    LastEqual(a, b);
    a, b := a.init, b.init;
    LastEqual(a, b);
    a, b := a.init, b.init;
    LastEqual(a, b);
    NetInfoFirstInjective(n, m);
  }

  lemma NetInfoFirstInjective(n: NetInfo, m: NetInfo)
    requires Encode(n.FirstFields()) == Encode(m.FirstFields())
    ensures n.networkIdNode == m.networkIdNode && n.networkIdGw == m.networkIdGw && n.gatewayChannel == m.gatewayChannel
    ensures n.gatewayFrequency == m.gatewayFrequency && n.lastRxTick == m.lastRxTick
  {
    hide Encode;
    var a, b := n.FirstFields(), m.FirstFields();
    LastEqual(a, b);
    a, b := a.init, b.init;
    LastEqual(a, b);
    a, b := a.init, b.init;
    LastEqual(a, b);
    a, b := a.init, b.init;
    LastEqual(a, b);
    a, b := a.init, b.init;
    LastEqual(a, b);
  }

  /** ll_net_info_serialize */
  method NetInfoSerialize(n: NetInfo, buff: array<byte>) returns (len: nat)
    requires buff.Length == NET_INFO_BUFF_SIZE
    modifies buff
    ensures len == NET_INFO_BUFF_SIZE && buff[..] == Encode(n.Fields())
    ensures NetInfoStands(n, buff[..])
  {
    hide Encode, Cursor.Valid, NetInfoStands;
    var b := new Cursor(buff);
    b.Write(U32(n.networkIdNode));
    b.Write(U32(n.networkIdGw));
    b.Write(U8(n.gatewayChannel));
    b.Write(U32(n.gatewayFrequency));
    b.Write(U32(n.lastRxTick));
    assert b.fields == n.FirstFields();
    b.Write(U16(n.rssi));
    b.Write(U8(n.snr));
    b.Write(U8(n.connectionStatus));
    b.Write(U8(n.isScanningGateways));
    b.Write(U64(n.gatewayId));
    assert b.fields == n.Fields();
    len := b.Offset();
    NetInfoLayout(n, buff[..]);
  }

  /** ll_net_info_deserialize: the struct whose bytes the buffer holds. */
  method NetInfoDeserialize(buff: array<byte>) returns (n: NetInfo)
    requires buff.Length == NET_INFO_BUFF_SIZE
    ensures Encode(n.Fields()) == buff[..]
    ensures NetInfoStands(n, buff[..])
  {
    hide Encode, Cursor.Valid, NetInfoStands;
    var b := new Cursor(buff);
    var networkIdNode := b.Take32();
    var networkIdGw := b.Take32();
    var gatewayChannel := b.Take8();
    var gatewayFrequency := b.Take32();
    var lastRxTick := b.Take32();
    var rssi := b.Take16();
    var snr := b.Take8();
    var connectionStatus := b.Take8();
    var isScanningGateways := b.Take8();
    var gatewayId := b.Take64();
    n := NetInfo(networkIdNode, networkIdGw, gatewayChannel, gatewayFrequency, lastRxTick, rssi, snr, connectionStatus,
                 isScanningGateways, gatewayId);
    assert b.fields == n.Fields();
    var _ := b.Offset();
    NetInfoLayout(n, buff[..]);
  }

  // ---------------------------------------------------------------- llabs_dl_band_cfg_t

  datatype DlBandCfg = DlBandCfg(bandEdgeLower: bv32, bandEdgeUpper: bv32, bandEdgeGuard: bv32, chanStepSize: byte,
                                 chanStepOffset: byte)
  {
    function Fields(): Fields {
      Then(Then(Then(Then(Then(Empty, U32(bandEdgeLower)), U32(bandEdgeUpper)), U32(bandEdgeGuard)),
                U8(chanStepSize)), U8(chanStepOffset))
    }
  }

  /** The place and the value of every field. */
  predicate DlBandCfgStands(d: DlBandCfg, s: seq<byte>)
    requires |s| == 14
  {
    && NumberAt(s, 0, 4) == d.bandEdgeLower as nat
    && NumberAt(s, 4, 4) == d.bandEdgeUpper as nat
    && NumberAt(s, 8, 4) == d.bandEdgeGuard as nat
    && NumberAt(s, 12, 1) == d.chanStepSize as nat
    && NumberAt(s, 13, 1) == d.chanStepOffset as nat
  }

  lemma DlBandCfgLayout(d: DlBandCfg, s: seq<byte>)
    requires Encode(d.Fields()) == s
    ensures |s| == 14 && DlBandCfgStands(d, s)
  {
    hide NumberAt, Encode, StandIn, Length;
    EncodedFieldsStand(d.Fields(), s);
    var f0: Fields := Empty;
    var f1 := Then(f0, U32(d.bandEdgeLower));
    LengthThen(f0, f1.last);
    var f2 := Then(f1, U32(d.bandEdgeUpper));
    LengthThen(f1, f2.last);
    var f3 := Then(f2, U32(d.bandEdgeGuard));
    LengthThen(f2, f3.last);
    var f4 := Then(f3, U8(d.chanStepSize));
    LengthThen(f3, f4.last);
    var f5 := Then(f4, U8(d.chanStepOffset));
    LengthThen(f4, f5.last);
    assert f5 == d.Fields();
    LastStands(f4, f5.last, s, 13);
    LastStands(f3, f4.last, s, 12);
    LastStands(f2, f3.last, s, 8);
    LastStands(f1, f2.last, s, 4);
    LastStands(f0, f1.last, s, 0);
  }

  lemma DlBandCfgInjective(d: DlBandCfg, e: DlBandCfg)
    requires Encode(d.Fields()) == Encode(e.Fields())
    ensures d == e
  {
    hide Encode;
    var a, b := d.Fields(), e.Fields();
    LastEqual(a, b);
    a, b := a.init, b.init;
    LastEqual(a, b);
    a, b := a.init, b.init;
    LastEqual(a, b);
    a, b := a.init, b.init;
    LastEqual(a, b);
    a, b := a.init, b.init;
    LastEqual(a, b);
  }

  /** ll_dl_band_cfg_serialize */
  method DlBandCfgSerialize(d: DlBandCfg, buff: array<byte>) returns (len: nat)
    requires buff.Length == DL_BAND_CFG_SIZE
    modifies buff
    ensures len == DL_BAND_CFG_SIZE && buff[..] == Encode(d.Fields())
    ensures DlBandCfgStands(d, buff[..])
  {
    hide Encode, Cursor.Valid, DlBandCfgStands;
    var b := new Cursor(buff);
    b.Write(U32(d.bandEdgeLower));
    b.Write(U32(d.bandEdgeUpper));
    b.Write(U32(d.bandEdgeGuard));
    b.Write(U8(d.chanStepSize));
    b.Write(U8(d.chanStepOffset));
    assert b.fields == d.Fields();
    len := b.Offset();
    DlBandCfgLayout(d, buff[..]);
  }

  /** ll_dl_band_cfg_deserialize */
  method DlBandCfgDeserialize(buff: array<byte>) returns (d: DlBandCfg)
    requires buff.Length == DL_BAND_CFG_SIZE
    ensures Encode(d.Fields()) == buff[..]
    ensures DlBandCfgStands(d, buff[..])
  {
    hide Encode, Cursor.Valid, DlBandCfgStands;
    var b := new Cursor(buff);
    var lower := b.Take32();
    var upper := b.Take32();
    var guard := b.Take32();
    var size := b.Take8();
    var offset := b.Take8();
    d := DlBandCfg(lower, upper, guard, size, offset);
    assert b.fields == d.Fields();
    var _ := b.Offset();
    DlBandCfgLayout(d, buff[..]);
  }

  // ---------------------------------------------------------------- llabs_stats_t

  datatype Stats = Stats(numSendCalls: bv32, numPktsTransmitted: bv32, numGatewayScans: bv32, numCollisions: bv32,
                         numAckSuccesses: bv32, numAckFailures: bv32, numSyncFailures: bv32,
                         numCanceledPktsAck: bv32, numCanceledPktsCsma: bv32, numRxErrors: bv32)
  {
    function FirstFields(): Fields {
      Then(Then(Then(Then(Then(Empty, U32(numSendCalls)), U32(numPktsTransmitted)), U32(numGatewayScans)),
                U32(numCollisions)), U32(numAckSuccesses))
    }

    function Fields(): Fields {
      Then(Then(Then(Then(Then(FirstFields(), U32(numAckFailures)), U32(numSyncFailures)), U32(numCanceledPktsAck)),
                U32(numCanceledPktsCsma)), U32(numRxErrors))
    }
  }

  /** The place and the value of every field. */
  predicate StatsStands(t: Stats, s: seq<byte>)
    requires |s| == 40
  {
    && NumberAt(s, 0, 4) == t.numSendCalls as nat
    && NumberAt(s, 4, 4) == t.numPktsTransmitted as nat
    && NumberAt(s, 8, 4) == t.numGatewayScans as nat
    && NumberAt(s, 12, 4) == t.numCollisions as nat
    && NumberAt(s, 16, 4) == t.numAckSuccesses as nat
    && NumberAt(s, 20, 4) == t.numAckFailures as nat
    && NumberAt(s, 24, 4) == t.numSyncFailures as nat
    && NumberAt(s, 28, 4) == t.numCanceledPktsAck as nat
    && NumberAt(s, 32, 4) == t.numCanceledPktsCsma as nat
    && NumberAt(s, 36, 4) == t.numRxErrors as nat
  }

  lemma StatsLayout(t: Stats, s: seq<byte>)
    requires Encode(t.Fields()) == s
    ensures |s| == 40 && StatsStands(t, s)
  {
    hide NumberAt, Encode, StandIn, Length;
    EncodedFieldsStand(t.Fields(), s);
    var f0: Fields := Empty;
    var f1 := Then(f0, U32(t.numSendCalls));
    LengthThen(f0, f1.last);
    var f2 := Then(f1, U32(t.numPktsTransmitted));
    LengthThen(f1, f2.last);
    var f3 := Then(f2, U32(t.numGatewayScans));
    LengthThen(f2, f3.last);
    var f4 := Then(f3, U32(t.numCollisions));
    LengthThen(f3, f4.last);
    var f5 := Then(f4, U32(t.numAckSuccesses));
    LengthThen(f4, f5.last);
    var f6 := Then(f5, U32(t.numAckFailures));
    LengthThen(f5, f6.last);
    var f7 := Then(f6, U32(t.numSyncFailures));
    LengthThen(f6, f7.last);
    var f8 := Then(f7, U32(t.numCanceledPktsAck));
    LengthThen(f7, f8.last);
    var f9 := Then(f8, U32(t.numCanceledPktsCsma));
    LengthThen(f8, f9.last);
    var f10 := Then(f9, U32(t.numRxErrors));
    LengthThen(f9, f10.last);
    assert f10 == t.Fields();
    LastStands(f9, f10.last, s, 36);
    LastStands(f8, f9.last, s, 32);
    LastStands(f7, f8.last, s, 28);
    LastStands(f6, f7.last, s, 24);
    LastStands(f5, f6.last, s, 20);
    LastStands(f4, f5.last, s, 16);
    LastStands(f3, f4.last, s, 12);
    LastStands(f2, f3.last, s, 8);
    LastStands(f1, f2.last, s, 4);
    LastStands(f0, f1.last, s, 0);
  }

  lemma StatsInjective(t: Stats, u: Stats)
    requires Encode(t.Fields()) == Encode(u.Fields())
    ensures t == u
  {
    hide Encode, Stats.FirstFields;
    var a, b := t.Fields(), u.Fields();
    LastEqual(a, b);
    a, b := a.init, b.init;
    LastEqual(a, b);
    a, b := a.init, b.init;
    LastEqual(a, b);
    a, b := a.init, b.init;
    LastEqual(a, b);
    a, b := a.init, b.init;
    LastEqual(a, b);
    StatsFirstInjective(t, u);
  }

  lemma StatsFirstInjective(t: Stats, u: Stats)
    requires Encode(t.FirstFields()) == Encode(u.FirstFields())
    ensures t.numSendCalls == u.numSendCalls && t.numPktsTransmitted == u.numPktsTransmitted
    ensures t.numGatewayScans == u.numGatewayScans && t.numCollisions == u.numCollisions
    ensures t.numAckSuccesses == u.numAckSuccesses
  {
    hide Encode;
    var a, b := t.FirstFields(), u.FirstFields();
    LastEqual(a, b);
    a, b := a.init, b.init;
    LastEqual(a, b);
    a, b := a.init, b.init;
    LastEqual(a, b);
    a, b := a.init, b.init;
    LastEqual(a, b);
    a, b := a.init, b.init;
    LastEqual(a, b);
  }

  /** ll_stats_serialize */
  method StatsSerialize(t: Stats, buff: array<byte>) returns (len: nat)
    requires buff.Length == STATS_SIZE
    modifies buff
    ensures len == STATS_SIZE && buff[..] == Encode(t.Fields())
    ensures StatsStands(t, buff[..])
  {
    hide Encode, Cursor.Valid, StatsStands;
    var b := new Cursor(buff);
    b.Write(U32(t.numSendCalls));
    b.Write(U32(t.numPktsTransmitted));
    b.Write(U32(t.numGatewayScans));
    b.Write(U32(t.numCollisions));
    b.Write(U32(t.numAckSuccesses));
    assert b.fields == t.FirstFields();
    b.Write(U32(t.numAckFailures));
    b.Write(U32(t.numSyncFailures));
    b.Write(U32(t.numCanceledPktsAck));
    b.Write(U32(t.numCanceledPktsCsma));
    b.Write(U32(t.numRxErrors));
    assert b.fields == t.Fields();
    len := b.Offset();
    StatsLayout(t, buff[..]);
  }

  /** ll_stats_deserialize */
  method StatsDeserialize(buff: array<byte>) returns (t: Stats)
    requires buff.Length == STATS_SIZE
    ensures Encode(t.Fields()) == buff[..]
    ensures StatsStands(t, buff[..])
  {
    hide Encode, Cursor.Valid, StatsStands;
    var b := new Cursor(buff);
    var sendCalls := b.Take32();
    var pktsTransmitted := b.Take32();
    var gatewayScans := b.Take32();
    var collisions := b.Take32();
    var ackSuccesses := b.Take32();
    var ackFailures := b.Take32();
    var syncFailures := b.Take32();
    var canceledAck := b.Take32();
    var canceledCsma := b.Take32();
    var rxErrors := b.Take32();
    t := Stats(sendCalls, pktsTransmitted, gatewayScans, collisions, ackSuccesses, ackFailures, syncFailures,
               canceledAck, canceledCsma, rxErrors);
    assert b.fields == t.Fields();
    var _ := b.Offset();
    StatsLayout(t, buff[..]);
  }

  // ---------------------------------------------------------------- llabs_time_info_t

  datatype TimeInfo = TimeInfo(syncMode: byte, currSeconds: bv32, currMillis: bv16, lastSyncSeconds: bv32,
                               lastSyncMillis: bv16)
  {
    function Fields(): Fields {
      Then(Then(Then(Then(Then(Empty, U8(syncMode)), U32(currSeconds)), U16(currMillis)), U32(lastSyncSeconds)),
           U16(lastSyncMillis))
    }
  }

  /** The place and the value of every field. */
  predicate TimeInfoStands(t: TimeInfo, s: seq<byte>)
    requires |s| == 13
  {
    && NumberAt(s, 0, 1) == t.syncMode as nat
    && NumberAt(s, 1, 4) == t.currSeconds as nat
    && NumberAt(s, 5, 2) == t.currMillis as nat
    && NumberAt(s, 7, 4) == t.lastSyncSeconds as nat
    && NumberAt(s, 11, 2) == t.lastSyncMillis as nat
  }

  lemma TimeInfoLayout(t: TimeInfo, s: seq<byte>)
    requires Encode(t.Fields()) == s
    ensures |s| == 13 && TimeInfoStands(t, s)
  {
    hide NumberAt, Encode, StandIn, Length;
    EncodedFieldsStand(t.Fields(), s);
    var f0: Fields := Empty;
    var f1 := Then(f0, U8(t.syncMode));
    LengthThen(f0, f1.last);
    var f2 := Then(f1, U32(t.currSeconds));
    LengthThen(f1, f2.last);
    var f3 := Then(f2, U16(t.currMillis));
    LengthThen(f2, f3.last);
    var f4 := Then(f3, U32(t.lastSyncSeconds));
    LengthThen(f3, f4.last);
    var f5 := Then(f4, U16(t.lastSyncMillis));
    LengthThen(f4, f5.last);
    assert f5 == t.Fields();
    LastStands(f4, f5.last, s, 11);
    LastStands(f3, f4.last, s, 7);
    LastStands(f2, f3.last, s, 5);
    LastStands(f1, f2.last, s, 1);
    LastStands(f0, f1.last, s, 0);
  }

  lemma TimeInfoInjective(t: TimeInfo, u: TimeInfo)
    requires Encode(t.Fields()) == Encode(u.Fields())
    ensures t == u
  {
    hide Encode;
    var a, b := t.Fields(), u.Fields();
    LastEqual(a, b);
    a, b := a.init, b.init;
    LastEqual(a, b);
    a, b := a.init, b.init;
    LastEqual(a, b);
    a, b := a.init, b.init;
    LastEqual(a, b);
    a, b := a.init, b.init;
    LastEqual(a, b);
  }

  /** ll_time_serialize */
  method TimeInfoSerialize(t: TimeInfo, buff: array<byte>) returns (len: nat)
    requires buff.Length == TIME_INFO_SIZE
    modifies buff
    ensures len == TIME_INFO_SIZE && buff[..] == Encode(t.Fields())
    ensures TimeInfoStands(t, buff[..])
  {
    hide Encode, Cursor.Valid, TimeInfoStands;
    var b := new Cursor(buff);
    b.Write(U8(t.syncMode));
    b.Write(U32(t.currSeconds));
    b.Write(U16(t.currMillis));
    b.Write(U32(t.lastSyncSeconds));
    b.Write(U16(t.lastSyncMillis));
    assert b.fields == t.Fields();
    len := b.Offset();
    TimeInfoLayout(t, buff[..]);
  }

  /** ll_time_deserialize */
  method TimeInfoDeserialize(buff: array<byte>) returns (t: TimeInfo)
    requires buff.Length == TIME_INFO_SIZE
    ensures Encode(t.Fields()) == buff[..]
    ensures TimeInfoStands(t, buff[..])
  {
    hide Encode, Cursor.Valid, TimeInfoStands;
    var b := new Cursor(buff);
    var syncMode := b.Take8();
    var currSeconds := b.Take32();
    var currMillis := b.Take16();
    var lastSyncSeconds := b.Take32();
    var lastSyncMillis := b.Take16();
    t := TimeInfo(syncMode, currSeconds, currMillis, lastSyncSeconds, lastSyncMillis);
    assert b.fields == t.Fields();
    var _ := b.Offset();
    TimeInfoLayout(t, buff[..]);
  }

  // ---------------------------------------------------------------- there and back

  /** What was serialized is deserialized to the same struct: nothing is lost, and the length is fixed. */
  method NetInfoRoundTrip(n: NetInfo) returns (len: nat, back: NetInfo)
    ensures back == n && len == NET_INFO_BUFF_SIZE
  {
    hide Encode, NetInfo.Fields;
    var buff := new byte[NET_INFO_BUFF_SIZE](i => 0);
    len := NetInfoSerialize(n, buff);
    back := NetInfoDeserialize(buff);
    NetInfoInjective(back, n);
  }

  method DlBandCfgRoundTrip(d: DlBandCfg) returns (len: nat, back: DlBandCfg)
    ensures back == d && len == DL_BAND_CFG_SIZE
  {
    hide Encode, DlBandCfg.Fields;
    var buff := new byte[DL_BAND_CFG_SIZE](i => 0);
    len := DlBandCfgSerialize(d, buff);
    back := DlBandCfgDeserialize(buff);
    DlBandCfgInjective(back, d);
  }

  method StatsRoundTrip(t: Stats) returns (len: nat, back: Stats)
    ensures back == t && len == STATS_SIZE
  {
    hide Encode, Stats.Fields;
    var buff := new byte[STATS_SIZE](i => 0);
    len := StatsSerialize(t, buff);
    back := StatsDeserialize(buff);
    StatsInjective(back, t);
  }

  method TimeInfoRoundTrip(t: TimeInfo) returns (len: nat, back: TimeInfo)
    ensures back == t && len == TIME_INFO_SIZE
  {
    hide Encode, TimeInfo.Fields;
    var buff := new byte[TIME_INFO_SIZE](i => 0);
    len := TimeInfoSerialize(t, buff);
    back := TimeInfoDeserialize(buff);
    TimeInfoInjective(back, t);
  }
}
