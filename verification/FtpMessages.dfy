/** The messages of the Symphony file transfer: how the client reads the server's, and how it
    writes its own. */
module FtpMessages {
  import opened Bytes
  import opened Octets
  import opened CyclicCheck32
  import opened SegmentBitmap

  const MSG_MIN_SIZE: nat := 17
  const PAYLOAD_INDEX: nat := 21
  const BASE_UL_MSG_LEN: nat := 14
  const NUM_MSG_TYPES: byte := 8
  const TX_SEGMENT: byte := 3

  datatype ReturnCode = Ok | OutOfRange | InvalidValue | NoAction | Error

  datatype MsgType = TxInit | TxCancel | TxApply | TxSegment | AckInit | AckSegment | AckApply | Tick

  /** What ll_ftp_msg_process is handed: a null pointer, or a received buffer. */
  datatype Input = Timeout | Downlink(bytes: seq<byte>)

  datatype Msg = Msg(msgType: MsgType, id: bv32, version: bv32, size: bv32,
                     segNum: nat, numSegs: nat, payload: seq<byte>)

  /** The size field as a number. */
  function FileSize(size: bv32): nat {
    size as nat
  }

  datatype Parsed = Accepted(msg: Msg) | Rejected(ret: ReturnCode)

  function TypeOf(b: byte): MsgType
    requires b < NUM_MSG_TYPES
  {
    if b == 0 then TxInit else if b == 1 then TxCancel else if b == 2 then TxApply else if b == 3 then TxSegment
    else if b == 4 then AckInit else if b == 5 then AckSegment else if b == 6 then AckApply else Tick
  }

  function CodeOf(t: MsgType): (b: byte)
    ensures b < NUM_MSG_TYPES && TypeOf(b) == t
  {
    match t
    case TxInit => 0
    case TxCancel => 1
    case TxApply => 2
    case TxSegment => 3
    case AckInit => 4
    case AckSegment => 5
    case AckApply => 6
    case Tick => 7
  }

  /** A segment message is at least long enough for its two counters; the source reads them and
      computes the payload length without looking. Lengths are 8 bits wide. */
  predicate WellSized(input: Input) {
    input.Downlink? ==>
      && |input.bytes| < 256
      && (|input.bytes| >= MSG_MIN_SIZE && input.bytes[0] == TX_SEGMENT ==> |input.bytes| >= PAYLOAD_INDEX)
  }

  const TIMEOUT_MSG := Msg(Tick, 0, 0, 0, 0, 0, [])

  /** The fields of a buffer that passed the length and type checks. */
  function Fields(buf: seq<byte>): Msg
    requires |buf| >= MSG_MIN_SIZE && buf[0] < NUM_MSG_TYPES
    requires buf[0] == TX_SEGMENT ==> |buf| >= PAYLOAD_INDEX
  {
    var isSegment := buf[0] == TX_SEGMENT;
    Msg(TypeOf(buf[0]), WordAt(buf, 5), WordAt(buf, 9), WordAt(buf, 13),
        if isSegment then PairAt(buf, 17) else 0,
        if isSegment then PairAt(buf, 19) else 0,
        if isSegment then buf[PAYLOAD_INDEX..] else [])
  }

  function Parse(input: Input): Parsed
    requires WellSized(input)
  {
    match input
    case Timeout => Accepted(TIMEOUT_MSG)
    case Downlink(buf) =>
      if |buf| < MSG_MIN_SIZE then Rejected(InvalidValue)
      else if NUM_MSG_TYPES <= buf[0] then Rejected(OutOfRange)
      else if Crc32(0, buf[5..]) != WordAt(buf, 1) then Rejected(Error)
      else Accepted(Fields(buf))
  }

  lemma SegmentType(b: byte)
    requires b < NUM_MSG_TYPES
    ensures TypeOf(b) == TxSegment <==> b == TX_SEGMENT
  {
  }

  /** The fields of ll_ftp_msg_t, in the order in which they are read. */
  method ReadFields(buf: array<byte>, len: nat) returns (msg: Msg)
    requires MSG_MIN_SIZE <= len <= buf.Length && buf[0] < NUM_MSG_TYPES
    requires buf[0] == TX_SEGMENT ==> len >= PAYLOAD_INDEX
    ensures msg == Fields(buf[..len])
  {
    hide Word, Pair, TypeOf;
    SegmentType(buf[0]);
    msg := TIMEOUT_MSG.(msgType := TypeOf(buf[0]));
    msg := msg.(id := Word(buf[5], buf[6], buf[7], buf[8]));
    msg := msg.(version := Word(buf[9], buf[10], buf[11], buf[12]));
    msg := msg.(size := Word(buf[13], buf[14], buf[15], buf[16]));
    if msg.msgType == TxSegment {
      msg := msg.(segNum := Pair(buf[17], buf[18]));
      msg := msg.(numSegs := Pair(buf[19], buf[20]));
      msg := msg.(payload := buf[PAYLOAD_INDEX..len]);
      assert buf[..len][PAYLOAD_INDEX..] == buf[PAYLOAD_INDEX..len];
    }
  }

  /** ll_ftp_parse_rx_msg */
  method ParseRxMsg(buf: array?<byte>, len: nat) returns (ret: ReturnCode, msg: Msg)
    requires buf != null ==> len <= buf.Length && WellSized(Downlink(buf[..len]))
    ensures Parse(if buf == null then Timeout else Downlink(buf[..len])) ==
            if ret == Ok then Accepted(msg) else Rejected(ret)
  {
    hide Crc32, Word, Fields;
    msg := TIMEOUT_MSG;
    if buf == null {
      return Ok, msg;
    }
    if MSG_MIN_SIZE > len {
      return InvalidValue, msg;
    }
    if NUM_MSG_TYPES <= buf[0] {
      return OutOfRange, msg;
    }
    msg := ReadFields(buf, len);
    var msgCrc := Word(buf[1], buf[2], buf[3], buf[4]);
    var crc := ComputeCrc32(0, buf, 5, len - 5);
    assert buf[5..5 + (len - 5)] == buf[..len][5..];
    ret := if crc == msgCrc then Ok else Error;
  }

  /** The codes of the eight types. */
  lemma TypeCodes()
    ensures CodeOf(TxInit) == 0 && CodeOf(TxCancel) == 1 && CodeOf(TxApply) == 2 && CodeOf(TxSegment) == 3
    ensures CodeOf(AckInit) == 4 && CodeOf(AckSegment) == 5 && CodeOf(AckApply) == 6 && CodeOf(Tick) == 7
    ensures TypeOf(0) == TxInit && TypeOf(1) == TxCancel && TypeOf(2) == TxApply && TypeOf(3) == TxSegment
    ensures TypeOf(4) == AckInit && TypeOf(5) == AckSegment && TypeOf(6) == AckApply && TypeOf(7) == Tick
  {
  }

  /** What becomes of a buffer, by its length, its type byte and its CRC; and where its fields stand. */
  lemma ParseExactly(buf: seq<byte>)
    requires WellSized(Downlink(buf))
    ensures Parse(Timeout).Accepted? && Parse(Timeout).msg.msgType == Tick
    ensures |buf| < 17 ==> Parse(Downlink(buf)) == Rejected(InvalidValue)
    ensures |buf| >= 17 && buf[0] >= 8 ==> Parse(Downlink(buf)) == Rejected(OutOfRange)
    ensures |buf| >= 17 && buf[0] < 8 && Crc32(0, buf[5..]) != WordAt(buf, 1) ==>
              Parse(Downlink(buf)) == Rejected(Error)
    ensures |buf| >= 17 && buf[0] < 8 && Crc32(0, buf[5..]) == WordAt(buf, 1) ==>
              && Parse(Downlink(buf)).Accepted?
              && var m := Parse(Downlink(buf)).msg;
              && CodeOf(m.msgType) == buf[0]
              && m.id == WordAt(buf, 5) && m.version == WordAt(buf, 9) && m.size == WordAt(buf, 13)
              && (buf[0] == 3 ==>
                    && m.segNum == buf[17] as nat + 0x100 * (buf[18] as nat)
                    && m.numSegs == buf[19] as nat + 0x100 * (buf[20] as nat)
                    && m.payload == buf[21..])
  {
    hide Crc32, Word;
    if |buf| >= 17 && buf[0] < 8 {
      CodeOfType(buf[0]);
      hide TypeOf, CodeOf;
    }
  }

  lemma CodeOfType(b: byte)
    requires b < 8
    ensures CodeOf(TypeOf(b)) == b
  {
  }

  // ---------------------------------------------------------------- what the server sends

  /** A message the server can form: only segments carry counters and a payload. */
  predicate Sendable(m: Msg) {
    && (m.msgType == TxSegment ==> m.segNum < 0x1_0000 && m.numSegs < 0x1_0000 && |m.payload| < 256 - PAYLOAD_INDEX)
    && (m.msgType != TxSegment ==> m.segNum == 0 && m.numSegs == 0 && m.payload == [])
  }

  function EncodedBody(m: Msg): (s: seq<byte>)
    ensures |s| == if m.msgType == TxSegment then 16 + |m.payload| else 12
  {
    WordBytes(m.id) + WordBytes(m.version) + WordBytes(m.size)
    + if m.msgType == TxSegment then PairBytes(m.segNum) + PairBytes(m.numSegs) + m.payload else []
  }

  function Encode(m: Msg): seq<byte> {
    [CodeOf(m.msgType)] + WordBytes(Crc32(0, EncodedBody(m))) + EncodedBody(m)
  }

  lemma WordAtSplit(s: seq<byte>, i: nat, x: bv32)
    requires i + 4 <= |s| && s[i..i + 4] == WordBytes(x)
    ensures WordAt(s, i) == x
  {
    hide Word, WordBytes;
    WordOfWordBytes(x);
    assert s[i] == s[i..i + 4][0] && s[i + 1] == s[i..i + 4][1];
    assert s[i + 2] == s[i..i + 4][2] && s[i + 3] == s[i..i + 4][3];
  }

  lemma PairAtSplit(s: seq<byte>, i: nat, n: nat)
    requires i + 2 <= |s| && s[i..i + 2] == PairBytes(n) && n < 0x1_0000
    ensures PairAt(s, i) == n
  {
    hide Pair, PairBytes;
    PairOfPairBytes(n);
    assert s[i] == s[i..i + 2][0] && s[i + 1] == s[i..i + 2][1];
  }

  lemma EncodeLayout(m: Msg)
    ensures var buf := Encode(m);
            && |buf| == (if m.msgType == TxSegment then 21 + |m.payload| else 17)
            && buf[0] == CodeOf(m.msgType)
            && buf[1..5] == WordBytes(Crc32(0, buf[5..]))
            && buf[5..9] == WordBytes(m.id)
            && buf[9..13] == WordBytes(m.version)
            && buf[13..17] == WordBytes(m.size)
            && (m.msgType == TxSegment ==>
                  buf[17..19] == PairBytes(m.segNum) && buf[19..21] == PairBytes(m.numSegs) && buf[21..] == m.payload)
  {
    hide Crc32, WordBytes, PairBytes, CodeOf;
    assert Encode(m)[5..] == EncodedBody(m);
  }

  /** The client reads back every field of every message the server can form. */
  lemma ParseOfEncode(m: Msg)
    requires Sendable(m)
    ensures WellSized(Downlink(Encode(m)))
    ensures Parse(Downlink(Encode(m))) == Accepted(m)
  {
    hide Crc32, Word, WordBytes, Pair, PairBytes, Encode;
    var buf := Encode(m);
    EncodeLayout(m);
    assert TypeOf(buf[0]) == m.msgType;
    hide TypeOf;
    WordAtSplit(buf, 1, Crc32(0, buf[5..]));
    WordAtSplit(buf, 5, m.id);
    WordAtSplit(buf, 9, m.version);
    WordAtSplit(buf, 13, m.size);
    if m.msgType == TxSegment {
      PairAtSplit(buf, 17, m.segNum);
      PairAtSplit(buf, 19, m.numSegs);
    }
  }

  // ---------------------------------------------------------------- messages damaged on the way

  /** One wrong byte anywhere behind the type byte is found out. */
  lemma DamageIsRejected(m: Msg, k: nat, b: byte)
    requires Sendable(m) && 1 <= k < |Encode(m)| && b != Encode(m)[k]
    ensures WellSized(Downlink(Encode(m)[k := b]))
    ensures Parse(Downlink(Encode(m)[k := b])) == Rejected(Error)
  {
    hide Crc32, Word, WordBytes, PairBytes, Encode, CodeOf, TypeOf;
    var sent := Encode(m);
    var got := sent[k := b];
    EncodeLayout(m);
    SegmentType(sent[0]);
    if k < 5 {
      assert got[5..] == sent[5..];
      CrcFieldChanged(sent, Crc32(0, sent[5..]), k, b);
    } else {
      assert got[5..] == sent[5..][k - 5 := b] && got[1..5] == sent[1..5];
      WordAtSplit(got, 1, Crc32(0, sent[5..]));
      OneByteChangesCrc32(0, sent[5..], k - 5, b);
    }
  }

  lemma CrcFieldChanged(s: seq<byte>, x: bv32, k: nat, b: byte)
    requires |s| >= 5 && s[1..5] == WordBytes(x) && 1 <= k < 5 && b != s[k]
    ensures WordAt(s[k := b], 1) != x
  {
    hide Word, WordBytes;
    var t := s[k := b];
    BytesOfWordAt(t, 1);
    assert t[1..5][k - 1] == b && s[1..5][k - 1] == s[k];
  }

  lemma BytesOfWordAt(s: seq<byte>, i: nat)
    requires i + 4 <= |s|
    ensures WordBytes(WordAt(s, i)) == s[i..i + 4]
  {
    hide Word, WordBytes;
    BytesOfWord(s[i], s[i + 1], s[i + 2], s[i + 3]);
  }

  lemma BytesOfWord(b0: byte, b1: byte, b2: byte, b3: byte)
    ensures WordBytes(Word(b0, b1, b2, b3)) == [b0, b1, b2, b3]
  {
  }

  /** A wrong type byte is not, since the CRC starts behind it: any message is taken for one of any other type
      but that of segments, with its own id, version and size; an announcement for a cancel, for instance. */
  lemma TypeIsUnprotected(m: Msg, t: MsgType)
    requires Sendable(m) && t != TxSegment
    ensures WellSized(Downlink(Encode(m)[0 := CodeOf(t)]))
    ensures Parse(Downlink(Encode(m)[0 := CodeOf(t)])) == Accepted(Msg(t, m.id, m.version, m.size, 0, 0, []))
  {
    hide Crc32, Word, WordBytes, Pair, PairBytes, Encode;
    var sent := Encode(m);
    EncodeLayout(m);
    var got := sent[0 := CodeOf(t)];
    SegmentType(got[0]);
    assert TypeOf(got[0]) == t;
    hide TypeOf, CodeOf;
    assert got[5..] == sent[5..] && got[1..5] == sent[1..5];
    assert got[5..9] == sent[5..9] && got[9..13] == sent[9..13] && got[13..17] == sent[13..17];
    WordAtSplit(got, 1, Crc32(0, sent[5..]));
    WordAtSplit(got, 5, m.id);
    WordAtSplit(got, 9, m.version);
    WordAtSplit(got, 13, m.size);
  }

  // ---------------------------------------------------------------- what the client sends

  const ACK_ACK: byte := 0x00
  const ACK_NAK_SEGMENT: byte := 0xFD
  const ACK_NAK: byte := 0xFF

  function UplinkBody(ack: byte, id: bv32, version: bv32, segs: seq<nat>): (s: seq<byte>)
    ensures |s| == 9 + 2 * |segs|
  {
    [ack] + WordBytes(id) + WordBytes(version) + SegmentListBytes(segs)
  }

  /** An uplink message: type, CRC of everything after the CRC, then the body. */
  function UplinkBytes(t: MsgType, ack: byte, id: bv32, version: bv32, segs: seq<nat>): (s: seq<byte>)
    ensures |s| == BASE_UL_MSG_LEN + 2 * |segs|
  {
    var body := UplinkBody(ack, id, version, segs);
    [CodeOf(t)] + WordBytes(Crc32(0, body)) + body
  }

  /** The server's view of an uplink buffer: length, CRC and file identity in their places. */
  ghost predicate IntactUplink(s: seq<byte>, id: bv32, version: bv32) {
    && 14 <= |s| <= 44
    && WordAt(s, 1) == Crc32(0, s[5..])
    && WordAt(s, 6) == id
    && WordAt(s, 10) == version
  }

  lemma UplinkIsIntact(t: MsgType, ack: byte, id: bv32, version: bv32, segs: seq<nat>)
    requires |segs| < MAX_NUM_RETRY_SEGS
    ensures IntactUplink(UplinkBytes(t, ack, id, version, segs), id, version)
  {
    hide Crc32, Word, WordBytes, CodeOf, SegmentListBytes;
    var body, s := UplinkBody(ack, id, version, segs), UplinkBytes(t, ack, id, version, segs);
    assert s[5..] == body && s[1..5] == WordBytes(Crc32(0, body));
    WordAtSplit(s, 1, Crc32(0, body));
    assert s[6..10] == WordBytes(id) && s[10..14] == WordBytes(version);
    WordAtSplit(s, 6, id);
    WordAtSplit(s, 10, version);
  }

  lemma EntryOfList(segs: seq<nat>, i: nat)
    requires i < |segs| && FitTwoBytes(segs)
    ensures var s := SegmentListBytes(segs);
            s[2 * i] as nat + 0x100 * (s[2 * i + 1] as nat) == segs[i]
  {
    hide PairBytes;
    var init := segs[..|segs| - 1];
    if i < |init| {
      EntryOfList(init, i);
    } else {
      hide SegmentListBytes;
      LastEntry(segs);
    }
  }

  lemma LastEntry(segs: seq<nat>)
    requires segs != [] && FitTwoBytes(segs)
    ensures var s := SegmentListBytes(segs);
            s[|s| - 2] as nat + 0x100 * (s[|s| - 1] as nat) == segs[|segs| - 1]
  {
    hide PairBytes;
    PairOfPairBytes(segs[|segs| - 1]);
    var s, t := SegmentListBytes(segs), PairBytes(segs[|segs| - 1]);
    assert s[|s| - 2] == t[0] && s[|s| - 1] == t[1];
  }

  /** Where everything stands in an uplink. */
  lemma UplinkLayout(t: MsgType, ack: byte, id: bv32, version: bv32, segs: seq<nat>)
    requires |segs| < 16 && FitTwoBytes(segs)
    ensures var s := UplinkBytes(t, ack, id, version, segs);
            && |s| == 14 + 2 * |segs|
            && s[0] == CodeOf(t) && s[5] == ack
            && WordAt(s, 1) == Crc32(0, s[5..]) && WordAt(s, 6) == id && WordAt(s, 10) == version
            && forall i | 0 <= i < |segs| :: s[14 + 2 * i] as nat + 0x100 * (s[15 + 2 * i] as nat) == segs[i]
  {
    hide Crc32, WordAt, WordBytes, CodeOf, SegmentListBytes;
    var s := UplinkBytes(t, ack, id, version, segs);
    UplinkIsIntact(t, ack, id, version, segs);
    assert s[14..] == SegmentListBytes(segs);
    forall i | 0 <= i < |segs| ensures s[14 + 2 * i] as nat + 0x100 * (s[15 + 2 * i] as nat) == segs[i] {
      EntryOfList(segs, i);
      assert s[14 + 2 * i] == s[14..][2 * i] && s[15 + 2 * i] == s[14..][2 * i + 1];
    }
  }

  /** The request for what is missing: all of it by number while fewer than 16 are, else a plain NAK. */
  function RequestBytes(id: bv32, version: bv32, missing: seq<nat>): seq<byte> {
    if |missing| < MAX_NUM_RETRY_SEGS then UplinkBytes(AckSegment, ACK_NAK_SEGMENT, id, version, missing)
    else UplinkBytes(AckSegment, ACK_NAK, id, version, [])
  }

  /** What the server reads out of a segment acknowledgement. */
  datatype Request = Segments(numbers: seq<nat>) | Everything | Nothing | Unknown(ack: byte)

  function ReadRequest(s: seq<byte>): Request
    requires |s| >= BASE_UL_MSG_LEN
  {
    if s[5] == ACK_NAK_SEGMENT then Segments(SegmentList(s[14..]))
    else if s[5] == ACK_NAK then Everything
    else if s[5] == ACK_ACK then Nothing
    else Unknown(s[5])
  }

  /** Below 16 missing segments the server learns exactly which; from 16 on it is asked for all. */
  lemma RequestIsExact(id: bv32, version: bv32, rx: set<nat>, numSegs: nat)
    requires numSegs <= MAX_NUM_SEGMENTS
    ensures var missing := Missing(rx, numSegs);
            var s := RequestBytes(id, version, missing);
            && IntactUplink(s, id, version)
            && s[0] == 5
            && s[5] == (if |missing| < 16 then 0xFD else 0xFF)
            && |s| == BASE_UL_MSG_LEN + (if |missing| < 16 then 2 * |missing| else 0)
            && ReadRequest(s) == if |missing| < 16 then Segments(missing) else Everything
  {
    hide Crc32, Word, WordBytes, SegmentListBytes, SegmentList, IntactUplink, CodeOf;
    var missing := Missing(rx, numSegs);
    MissingIsSmall(rx, numSegs);
    hide Missing, FitTwoBytes;
    if |missing| < 16 {
      UplinkIsIntact(AckSegment, ACK_NAK_SEGMENT, id, version, missing);
      SegmentListRoundTrip(missing);
      assert RequestBytes(id, version, missing)[14..] == SegmentListBytes(missing);
    } else {
      UplinkIsIntact(AckSegment, ACK_NAK, id, version, []);
    }
  }

  lemma MissingIsSmall(rx: set<nat>, numSegs: nat)
    requires numSegs <= MAX_NUM_SEGMENTS
    ensures FitTwoBytes(Missing(rx, numSegs))
  {
    hide Missing;
    MissingExact(rx, numSegs);
    var missing := Missing(rx, numSegs);
    forall i | 0 <= i < |missing| ensures missing[i] < 0x1_0000 { assert missing[i] in missing; }
  }
}
