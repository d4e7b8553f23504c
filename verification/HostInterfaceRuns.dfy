/** What the framing of the host interface guarantees: round trips, acceptance, errors on the line, and
    whole conversations. */
module HostInterfaceRuns {
  import opened Bytes
  import opened CyclicCheck16
  import opened HostInterface
  import opened Octets
  import opened Wire

  lemma LengthRoundTrip(n: nat)
    requires n < 0x1_0000
    ensures Pair(LowByte(n), HighByte(n)) == n
  {
    hide Pair;
    PairOfPairBytes(n);
  }

  // ---------------------------------------------------------------- commands

  datatype Command = Command(op: byte, num: byte, payload: seq<byte>) | Garbled

  /** How a module reads a command off the line: by the frame format alone. */
  function DecodeCommand(s: seq<byte>): Command {
    var k := FirstStart(s);
    if k + CMD_HEADER_LEN > |s| then Garbled
    else
      var n := Pair(s[k + 4], s[k + 3]);
      if k + CMD_HEADER_LEN + n + 2 > |s| then Garbled
      else
        var end := k + CMD_HEADER_LEN + n;
        if ChecksumOf(s[end], s[end + 1]) != Checksum(s[k..end]) then Garbled
        else Command(s[k + 1], s[k + 2], s[k + CMD_HEADER_LEN..end])
  }

  /** Every command survives the line, whatever its bytes are. */
  lemma CommandRoundTrip(op: byte, num: byte, payload: seq<byte>)
    requires |payload| < 0x1_0000
    ensures DecodeCommand(EncodeCommand(op, num, payload)) == Command(op, num, payload)
  {
    hide Checksum, ChecksumBytes, ChecksumOf, Pair, LowByte, HighByte, FirstStart;
    var s, header := EncodeCommand(op, num, payload), CommandHeader(op, num, |payload|);
    assert s[..4] == [0xff, 0xff, 0xff, 0xff] && s[4] == FRAME_START;
    forall i | 0 <= i < 4 ensures s[i] != FRAME_START { assert s[i] == s[..4][i]; }
    FirstStartAt(s, 4);
    LengthRoundTrip(|payload|);
    assert s[7] == header[3] && s[8] == header[4];
    var end := 9 + |payload|;
    assert s[4..end] == header + payload && s[9..end] == payload;
    assert s[end..] == ChecksumBytes(Checksum(header + payload));
    assert s[end] == s[end..][0] && s[end + 1] == s[end..][1];
    ChecksumRoundTrip(Checksum(header + payload));
  }

  /** Where everything stands in a command: four wake-up bytes, the header, the payload, the checksum. */
  lemma CommandLayout(op: byte, num: byte, payload: seq<byte>)
    requires |payload| < 0x1_0000
    ensures var s, n := EncodeCommand(op, num, payload), |payload|;
            && |s| == n + 11
            && s[..4] == [0xff, 0xff, 0xff, 0xff]
            && s[4] == 0xC4 && s[5] == op && s[6] == num
            && 0x100 * ToNat(s[7]) + ToNat(s[8]) == n
            && s[9..n + 9] == payload
            && var c := Crc16(s[4..n + 9]);
            && s[n + 9] == (c >> 8) as byte && s[n + 10] == (c & 0xff) as byte
  {
    hide Checksum, ChecksumBytes, Pair, LowByte, HighByte, Crc16, ToNat;
    var s, header, n := EncodeCommand(op, num, payload), CommandHeader(op, num, |payload|), |payload|;
    assert s[..4] == [0xff, 0xff, 0xff, 0xff] && s[4..9] == header && s[9..n + 9] == payload;
    assert s[4..n + 9] == header + payload;
    assert s[4] == s[4..9][0] && s[5] == s[4..9][1] && s[6] == s[4..9][2] && s[7] == s[4..9][3] && s[8] == s[4..9][4];
    LengthRoundTrip(n);
    PairIsNumber(s[8], s[7]);
    ChecksumIsCrc(header + payload);
    assert s[n + 9..] == ChecksumBytes(Checksum(header + payload));
    assert s[n + 9] == s[n + 9..][0] && s[n + 10] == s[n + 9..][1];
    HighFirst(Checksum(header + payload));
  }

  lemma PairIsNumber(lo: byte, hi: byte)
    ensures Pair(lo, hi) == 0x100 * ToNat(hi) + ToNat(lo)
  {
    hide ToNat;
  }

  lemma ChecksumIsCrc(s: seq<byte>)
    ensures Checksum(s) == Crc16(s)
  {
    hide ChecksumByte, Crc16Byte;
    ChecksumIsCrc16(0, s);
  }

  lemma HighFirst(c: bv16)
    ensures ChecksumBytes(c) == [(c >> 8) as byte, (c & 0xff) as byte]
  {
  }

  // ---------------------------------------------------------------- acceptance

  lemma HeaderIsFine(h: seq<byte>, op: byte, num: byte)
    requires |h| == RESP_HEADER_LEN
    ensures HeaderError(h, op, num) <= 0
    ensures HeaderError(h, op, num) == 0 <==> h[1] == op && h[2] == num && h[3] == 0x00
  {
    hide ToNat;
    if h[3] != 0 {
      NonzeroByte(h[3]);
    }
  }

  lemma FrameAcceptedExactly(h: seq<byte>, body: seq<byte>, op: byte, num: byte, buf: seq<byte>, n: nat)
    requires |h| == RESP_HEADER_LEN && FrameFits(h, body, op, num, |buf|)
    ensures ReceiveFrame(h, body, op, num, buf).ret == n <==>
            && h[1] == op && h[2] == num && h[3] == 0x00
            && LengthField(h) == n <= |buf|
            && ChecksumOf(body[n], body[n + 1]) == Checksum(h + body[..n])
    ensures ReceiveFrame(h, body, op, num, buf).ret == n ==>
              ReceiveFrame(h, body, op, num, buf) == Reception(n, body[..n], body[n + 2..])
  {
    hide Checksum, ChecksumOf, LengthField, HeaderError;
    HeaderIsFine(h, op, num);
  }

  /** A response is taken for success exactly when its header answers this command with status 0 and a
      length that fits the buffer, and the checksum is that of header and payload; then the payload is
      what stands between the two, and reading stops right behind the checksum. */
  lemma AcceptedExactly(rx: seq<byte>, op: byte, num: byte, buf: seq<byte>, n: nat)
    requires FrameArrives(rx, op, num, |buf|)
    ensures var x, k := Receive(rx, op, num, buf), FirstStart(rx);
            var h, body := rx[k..k + 6], rx[k + 6..];
            && (x.ret == n <==>
                  && h[1] == op && h[2] == num && h[3] == 0x00
                  && LengthField(h) == n <= |buf|
                  && ChecksumOf(body[n], body[n + 1]) == Checksum(h + body[..n]))
            && (x.ret == n ==> x == Reception(n, body[..n], body[n + 2..]))
  {
    hide Checksum, ChecksumOf, FirstStart, ReceiveFrame, LengthField, HeaderError;
    var k := FirstStart(rx);
    HeaderIsFine(rx[k..k + 6], op, num);
    FrameAcceptedExactly(rx[k..k + 6], rx[k + 6..], op, num, buf, n);
  }

  /** The number that two checksum bytes stand for, high byte first. */
  function Received(hi: byte, lo: byte): bv16 {
    ((hi as bv16) << 8) | (lo as bv16)
  }

  lemma ReceivedIsChecksum(hi: byte, lo: byte)
    ensures Received(hi, lo) == ChecksumOf(hi, lo)
  {
  }

  /** Bytes 4 and 5, the high one first. */
  function LengthIn(h: seq<byte>): nat
    requires |h| == 6
  {
    0x100 * ToNat(h[4]) + ToNat(h[5])
  }

  function NackCode(status: byte): int { 0 - ToNat(status) }

  lemma LengthInIsField(h: seq<byte>)
    requires |h| == 6
    ensures LengthField(h) == LengthIn(h)
  {
    hide ToNat, Pair;
    PairIsNumber(h[5], h[4]);
  }

  /** What comes of a response with header h and these bytes behind it. Its status is byte 3, its length
      bytes 4 and 5. A length beyond the buffer is -107. A checksum that is not the CRC is -104; when the
      header is not what was asked for, it is held against the old content of the buffer. Else a NACK is the
      negative of its status, a wrong number -103, a wrong opcode -105; and what remains is accepted. */
  ghost predicate Results(h: seq<byte>, body: seq<byte>, op: byte, num: byte, buf: seq<byte>, ret: int)
    requires |h| == 6
  {
    var n := LengthIn(h);
    if n > |buf| then ret == -107
    else if h[3] == 0 && h[2] == num && h[1] == op then
      && |body| >= n + 2
      && ret == if Received(body[n], body[n + 1]) == Crc16(h + body[..n]) then n else -104
    else
      && |body| >= 2
      && ret == if Received(body[0], body[1]) != Crc16(h + buf[..n]) then -104
                else if h[3] != 0 then NackCode(h[3])
                else if h[2] != num then -103
                else -105
  }

  lemma AnswerResults(h: seq<byte>, body: seq<byte>, op: byte, num: byte, buf: seq<byte>)
    requires |h| == 6 && FrameFits(h, body, op, num, |buf|)
    requires h[3] == 0 && h[2] == num && h[1] == op
    ensures Results(h, body, op, num, buf, ReceiveFrame(h, body, op, num, buf).ret)
  {
    hide Checksum, ChecksumOf, Crc16, LengthField, LengthIn, Received, NackCode, HeaderError;
    var n := LengthIn(h);
    LengthInIsField(h);
    HeaderErrorCodes(h, op, num);
    if n <= |buf| {
      ChecksumIsCrc(h + body[..n]);
      ReceivedIsChecksum(body[n], body[n + 1]);
    }
  }

  lemma OtherResults(h: seq<byte>, body: seq<byte>, op: byte, num: byte, buf: seq<byte>)
    requires |h| == 6 && FrameFits(h, body, op, num, |buf|)
    requires !(h[3] == 0 && h[2] == num && h[1] == op)
    ensures Results(h, body, op, num, buf, ReceiveFrame(h, body, op, num, buf).ret)
  {
    hide Checksum, ChecksumOf, Crc16, LengthField, LengthIn, Received, NackCode, HeaderError;
    var n := LengthIn(h);
    LengthInIsField(h);
    HeaderErrorCodes(h, op, num);
    if n <= |buf| {
      ChecksumIsCrc(h + buf[..n]);
      ReceivedIsChecksum(body[0], body[1]);
    }
  }

  lemma HeaderErrorCodes(h: seq<byte>, op: byte, num: byte)
    requires |h| == 6
    ensures HeaderError(h, op, num) == if h[3] != 0 then NackCode(h[3]) else if h[2] != num then -103
                                       else if h[1] != op then -105 else 0
    ensures HeaderError(h, op, num) == 0 <==> h[3] == 0 && h[2] == num && h[1] == op
  {
    hide ToNat;
    HeaderIsFine(h, op, num);
  }

  /** recv_packet gives every response that arrives whole its due. */
  lemma ResultOfResponse(rx: seq<byte>, op: byte, num: byte, buf: seq<byte>)
    requires FrameArrives(rx, op, num, |buf|)
    ensures var k := FirstStart(rx);
            Results(rx[k..k + 6], rx[k + 6..], op, num, buf, Receive(rx, op, num, buf).ret)
  {
    hide FirstStart, ReceiveFrame, Results, FrameFits;
    var k := FirstStart(rx);
    var h, body := rx[k..k + 6], rx[k + 6..];
    if h[3] == 0 && h[2] == num && h[1] == op {
      AnswerResults(h, body, op, num, buf);
    } else {
      OtherResults(h, body, op, num, buf);
    }
  }

  /** A response to another command, a stale one for instance, is never reported as a success. */
  lemma StaleIsNeverAccepted(rx: seq<byte>, op: byte, num: byte, buf: seq<byte>)
    requires FrameArrives(rx, op, num, |buf|)
    requires rx[FirstStart(rx) + 2] != num
    ensures Receive(rx, op, num, buf).ret < 0
  {
    hide Receive, FirstStart, Checksum, ChecksumOf, LengthField;
    var ret := Receive(rx, op, num, buf).ret;
    if ret >= 0 {
      AcceptedExactly(rx, op, num, buf, ret);
    }
  }

  /** The bytes of one response after noise that holds no start of a frame. */
  function Arriving(noise: seq<byte>, header: seq<byte>, payload: seq<byte>, checksum: bv16, rest: seq<byte>): seq<byte>
  {
    noise + header + payload + ChecksumBytes(checksum) + rest
  }

  ghost predicate IsNoise(s: seq<byte>) {
    forall i | 0 <= i < |s| :: s[i] != FRAME_START
  }

  lemma ArrivingLayout(noise: seq<byte>, header: seq<byte>, payload: seq<byte>, checksum: bv16, rest: seq<byte>)
    requires IsNoise(noise) && |header| == RESP_HEADER_LEN && header[0] == FRAME_START
    ensures var rx := Arriving(noise, header, payload, checksum, rest);
            var k, body := |noise|, payload + ChecksumBytes(checksum) + rest;
            && FirstStart(rx) == k
            && rx[k..k + RESP_HEADER_LEN] == header
            && rx[k + RESP_HEADER_LEN..] == body
            && body[..|payload|] == payload
            && ChecksumOf(body[|payload|], body[|payload| + 1]) == checksum
            && body[|payload| + 2..] == rest
  {
    hide ChecksumBytes, ChecksumOf, FirstStart;
    var rx := Arriving(noise, header, payload, checksum, rest);
    forall i | 0 <= i < |noise| ensures rx[i] != FRAME_START { assert rx[i] == noise[i]; }
    assert rx[|noise|] == header[0];
    FirstStartAt(rx, |noise|);
    ChecksumRoundTrip(checksum);
  }

  lemma AckHeader(op: byte, num: byte, n: nat)
    requires n < 0x1_0000
    ensures var h := ResponseHeader(op, num, 0, n);
            h[0] == FRAME_START && HeaderError(h, op, num) == 0 && LengthField(h) == n
  {
    hide Pair, LowByte, HighByte, ToNat;
    LengthRoundTrip(n);
  }

  /** A well-formed acknowledgement that fits is delivered whole, and the line is left right behind it. */
  lemma AckIsDelivered(noise: seq<byte>, op: byte, num: byte, payload: seq<byte>, rest: seq<byte>, buf: seq<byte>)
    requires IsNoise(noise) && |payload| <= |buf| < 0x1_0000
    ensures var rx := noise + EncodeResponse(op, num, 0, payload) + rest;
            && FrameArrives(rx, op, num, |buf|)
            && Receive(rx, op, num, buf) == Reception(|payload|, payload, rest)
  {
    hide Checksum, ChecksumBytes, ChecksumOf, FirstStart, ResponseHeader, HeaderError, LengthField;
    var header := ResponseHeader(op, num, 0, |payload|);
    AckHeader(op, num, |payload|);
    var checksum := Checksum(header + payload);
    ArrivingLayout(noise, header, payload, checksum, rest);
    ArrivingIsEncoded(noise, op, num, payload, rest);
    hide Arriving, EncodeResponse;
  }

  lemma ArrivingIsEncoded(noise: seq<byte>, op: byte, num: byte, payload: seq<byte>, rest: seq<byte>)
    ensures var header := ResponseHeader(op, num, 0, |payload|);
            noise + EncodeResponse(op, num, 0, payload) + rest
            == Arriving(noise, header, payload, Checksum(header + payload), rest)
  {
    hide Checksum, ChecksumBytes, LowByte, HighByte;
  }

  /** A payload hit by an error of at most 16 consecutive bits is never accepted. */
  lemma BurstIsRejected(noise: seq<byte>, op: byte, num: byte, sent: seq<byte>, got: seq<byte>, rest: seq<byte>,
                        buf: seq<byte>, a: nat)
    requires IsNoise(noise) && |sent| <= |buf| < 0x1_0000 && DifferInBurst(sent, got, a)
    ensures var header := ResponseHeader(op, num, 0, |sent|);
            var rx := Arriving(noise, header, got, Checksum(header + sent), rest);
            && FrameArrives(rx, op, num, |buf|)
            && Receive(rx, op, num, buf).ret == ERROR_CHECKSUM_MISMATCH
  {
    hide Checksum, ChecksumBytes, ChecksumOf, FirstStart, DifferInBurst, ResponseHeader, HeaderError, LengthField;
    var header := ResponseHeader(op, num, 0, |sent|);
    BurstSameLength(sent, got, a);
    AckHeader(op, num, |sent|);
    ArrivingLayout(noise, header, got, Checksum(header + sent), rest);
    BurstChangesChecksum(header, sent, got, a);
    hide Arriving;
  }

  /** The last two bytes are the checksum of all before them. */
  predicate PassesChecksum(s: seq<byte>)
    requires |s| >= 2
  {
    ChecksumOf(s[|s| - 2], s[|s| - 1]) == Checksum(s[..|s| - 2])
  }

  /** Then the checksum of the whole is zero. */
  lemma PassedIsZero(s: seq<byte>)
    requires |s| >= 2 && PassesChecksum(s)
    ensures Checksum(s) == 0
  {
    hide ChecksumOf, ChecksumByte;
    var body, hi, lo := s[..|s| - 2], s[|s| - 2], s[|s| - 1];
    var most := s[..|s| - 1];
    assert most[..|s| - 2] == body && most[|s| - 2] == hi;
    assert Checksum(most) == ChecksumByte(Checksum(body), hi);
    assert Checksum(s) == ChecksumByte(Checksum(most), lo);
    OwnChecksum(Checksum(body), hi, lo);
  }

  lemma OwnChecksum(c: bv16, hi: byte, lo: byte)
    requires c == ChecksumOf(hi, lo)
    ensures ChecksumByte(ChecksumByte(c, hi), lo) == 0
  {
    OwnHighByte(c, hi, lo);
    OwnLowByte(lo);
  }

  lemma OwnHighByte(c: bv16, hi: byte, lo: byte)
    requires c == ChecksumOf(hi, lo)
    ensures ChecksumByte(c, hi) == (lo as bv16) << 8
  {
    hide ChecksumOf, Received, SwapBytes, Fold;
    ReceivedIsChecksum(hi, lo);
    SwapsOut(hi, lo);
    FoldsNothing(lo);
  }

  lemma SwapsOut(hi: byte, lo: byte)
    ensures SwapBytes(Received(hi, lo)) ^ (hi as bv16) == (lo as bv16) << 8
  {
  }

  lemma FoldsNothing(lo: byte)
    ensures Fold((lo as bv16) << 8) == (lo as bv16) << 8
  {
  }

  lemma OwnLowByte(lo: byte)
    ensures ChecksumByte((lo as bv16) << 8, lo) == 0
  {
  }

  /** Of two strings that differ in a burst at most one ends in its checksum: it does not matter where the
      burst lies. */
  lemma BurstFailsChecksum(s: seq<byte>, t: seq<byte>, a: nat)
    requires DifferInBurst(s, t, a) && |s| >= 2 && PassesChecksum(s)
    ensures |t| >= 2 && !PassesChecksum(t)
  {
    hide ChecksumByte, Crc16Byte, PassesChecksum;
    BurstSameLength(s, t, a);
    BurstChangesCrc16(s, t, a);
    ChecksumIsCrc16(0, s);
    ChecksumIsCrc16(0, t);
    PassedIsZero(s);
    if PassesChecksum(t) {
      PassedIsZero(t);
    }
  }

  lemma ResponsePasses(op: byte, num: byte, payload: seq<byte>)
    ensures var s := EncodeResponse(op, num, 0, payload);
            |s| == RESP_HEADER_LEN + |payload| + 2 && PassesChecksum(s)
  {
    hide Checksum, ChecksumBytes, ChecksumOf, LowByte, HighByte;
    var header := ResponseHeader(op, num, 0, |payload|);
    var s, c := EncodeResponse(op, num, 0, payload), Checksum(header + payload);
    assert s[..|s| - 2] == header + payload && s[|s| - 2..] == ChecksumBytes(c);
    assert s[|s| - 2] == s[|s| - 2..][0] && s[|s| - 1] == s[|s| - 2..][1];
    ChecksumRoundTrip(c);
  }

  /** A whole response hit by an error of at most 16 consecutive bits is never accepted, wherever the error
      lies: header, payload or checksum; only the start byte and the length are taken to be intact. */
  lemma BurstInFrameIsRejected(noise: seq<byte>, op: byte, num: byte, sent: seq<byte>, frame: seq<byte>,
                               rest: seq<byte>, buf: seq<byte>, a: nat)
    requires IsNoise(noise) && |sent| <= |buf| < 0x1_0000
    requires var s := EncodeResponse(op, num, 0, sent);
             DifferInBurst(s, frame, a) && frame[0] == s[0] && frame[4] == s[4] && frame[5] == s[5]
    ensures var rx := noise + frame + rest;
            FrameArrives(rx, op, num, |buf|) && Receive(rx, op, num, buf).ret < 0
  {
    hide FirstStart, DifferInBurst, LengthField, PassesChecksum, EncodeResponse, Pair, ReceiveFrame, FrameFits;
    var n, k, s := |sent|, |noise|, EncodeResponse(op, num, 0, sent);
    var rx := noise + frame + rest;
    ResponsePasses(op, num, sent);
    BurstSameLength(s, frame, a);
    BurstFailsChecksum(s, frame, a);
    ResponseStart(op, num, sent);
    forall i | 0 <= i < k ensures rx[i] != FRAME_START { assert rx[i] == noise[i]; }
    assert rx[k] == frame[0];
    FirstStartAt(rx, k);
    var h, body := rx[k..k + 6], rx[k + 6..];
    assert h == frame[..6] && body == frame[6..] + rest;
    SameLength(s, frame, h, n);
    BadFrameIsRejected(h, body, frame, op, num, buf, n);
  }

  lemma BadFrameIsRejected(h: seq<byte>, body: seq<byte>, frame: seq<byte>, op: byte, num: byte, buf: seq<byte>, n: nat)
    requires |frame| == n + 8 && h == frame[..6] && |body| >= n + 2 && body[..n + 2] == frame[6..]
    requires !PassesChecksum(frame) && LengthField(h) == n <= |buf|
    ensures FrameFits(h, body, op, num, |buf|) && ReceiveFrame(h, body, op, num, buf).ret < 0
  {
    hide Checksum, ChecksumOf, LengthField, HeaderError, PassesChecksum, ReceiveFrame;
    var ret := ReceiveFrame(h, body, op, num, buf).ret;
    if ret >= 0 {
      FrameAcceptedExactly(h, body, op, num, buf, ret);
      FrameEnd(frame, body, n, h);
    }
  }

  lemma SameLength(s: seq<byte>, frame: seq<byte>, h: seq<byte>, n: nat)
    requires |s| == |frame| >= 6 && h == frame[..6] && frame[4] == s[4] && frame[5] == s[5] && Pair(s[5], s[4]) == n
    ensures LengthField(h) == n
  {
    hide Pair;
  }

  lemma ResponseStart(op: byte, num: byte, payload: seq<byte>)
    requires |payload| < 0x1_0000
    ensures var s := EncodeResponse(op, num, 0, payload);
            s[0] == FRAME_START && Pair(s[5], s[4]) == |payload|
  {
    hide Checksum, ChecksumBytes, Pair, LowByte, HighByte;
    LengthRoundTrip(|payload|);
    var s, header := EncodeResponse(op, num, 0, payload), ResponseHeader(op, num, 0, |payload|);
    assert s[..6] == header;
    assert s[0] == s[..6][0] && s[4] == s[..6][4] && s[5] == s[..6][5];
  }

  lemma FrameEnd(frame: seq<byte>, body: seq<byte>, n: nat, h: seq<byte>)
    requires |frame| == n + 8 && h == frame[..6] && |body| >= n + 2 && body[..n + 2] == frame[6..]
    ensures PassesChecksum(frame) <==> ChecksumOf(body[n], body[n + 1]) == Checksum(h + body[..n])
  {
    hide Checksum, ChecksumOf;
    assert body[..n] == body[..n + 2][..n];
    assert frame[..n + 6] == h + body[..n];
    assert body[n] == body[..n + 2][n] && body[n + 1] == body[..n + 2][n + 1];
  }

  lemma BurstSameLength(s: seq<byte>, t: seq<byte>, a: nat)
    requires DifferInBurst(s, t, a)
    ensures |s| == |t|
  {
  }

  /** An error burst behind an intact prefix is still a burst. */
  lemma BurstChangesChecksum(prefix: seq<byte>, s: seq<byte>, t: seq<byte>, a: nat)
    requires DifferInBurst(s, t, a)
    ensures Checksum(prefix + s) != Checksum(prefix + t)
  {
    var x, y, shift := prefix + s, prefix + t, 8 * |prefix|;
    var j: nat :| j < |s| && s[j] != t[j];
    assert x[|prefix| + j] != y[|prefix| + j];
    forall i: nat | i < 8 * |x| ensures BitAt(x, i) != BitAt(y, i) ==> shift + a <= i < shift + a + 16 {
      if i >= shift {
        assert (i - shift) / 8 == i / 8 - |prefix| && (i - shift) % 8 == i % 8;
        assert BitAt(x, i) == BitAt(s, i - shift) && BitAt(y, i) == BitAt(t, i - shift);
      } else {
        assert x[i / 8] == y[i / 8];
      }
    }
    hide BitAt, ChecksumByte, Crc16Byte;
    BurstChangesCrc16(x, y, shift + a);
    ChecksumIsCrc16(0, x);
    ChecksumIsCrc16(0, y);
  }

  // ---------------------------------------------------------------- conversations

  /** One call of hal_read_write: the command, the bytes on the line before the module answers, the
      module's reply, and the caller's buffer. */
  datatype Call = Call(op: byte, input: seq<byte>, noise: seq<byte>, reply: seq<byte>, buf: seq<byte>)

  ghost predicate ValidCall(c: Call) {
    |c.input| < 0x1_0000 && IsNoise(c.noise) && |c.reply| <= |c.buf| < 0x1_0000
  }

  /** The host's message number and unread bytes; what the module understood, and what each call returned. */
  datatype Session = Session(messageNum: nat, rx: seq<byte>, heard: seq<Command>, results: seq<Reception>)

  const RESET := Session(0, [], [], [])

  /** A command that the module can read is acknowledged, with its own opcode and number. */
  function Answered(cmd: Command, reply: seq<byte>): seq<byte> {
    match cmd
    case Command(op, num, _) => EncodeResponse(op, num, 0, reply)
    case Garbled => []
  }

  function Exchange(s: Session, c: Call): Session {
    var num := LowByte(s.messageNum);
    var cmd := DecodeCommand(EncodeCommand(c.op, num, c.input));
    var rx := s.rx + c.noise + Answered(cmd, c.reply);
    var x := if FrameArrives(rx, c.op, num, |c.buf|) then Receive(rx, c.op, num, c.buf)
             else Reception(ERROR_HOST_INTERFACE_TIMEOUT, [], []);
    Session(s.messageNum + 1, x.rest, s.heard + [cmd], s.results + [x])
  }

  function Converse(calls: seq<Call>): Session {
    if calls == [] then RESET else Exchange(Converse(calls[..|calls| - 1]), calls[|calls| - 1])
  }

  lemma ExchangeInStep(s: Session, c: Call)
    requires ValidCall(c) && s.rx == []
    ensures Exchange(s, c) == Session(s.messageNum + 1, [], s.heard + [Command(c.op, LowByte(s.messageNum), c.input)],
                                      s.results + [Reception(|c.reply|, c.reply, [])])
  {
    hide EncodeCommand, DecodeCommand, EncodeResponse, FrameArrives, Receive, LowByte;
    var num := LowByte(s.messageNum);
    CommandRoundTrip(c.op, num, c.input);
    AckIsDelivered(c.noise, c.op, num, c.reply, [], c.buf);
    var answer := EncodeResponse(c.op, num, 0, c.reply);
    assert s.rx + c.noise + answer == c.noise + answer + [];
  }

  /** In every conversation call i goes out as command number i modulo 256, returns exactly reply i, and
      leaves no byte of it behind. */
  lemma {:induction false} ConversationStaysInStep(calls: seq<Call>)
    requires forall i | 0 <= i < |calls| :: ValidCall(calls[i])
    ensures var s := Converse(calls);
            && s.messageNum == |calls| && s.rx == []
            && |s.heard| == |s.results| == |calls|
            && (forall i | 0 <= i < |calls| ::
                  s.results[i] == Reception(|calls[i].reply|, calls[i].reply, []))
            && (forall i | 0 <= i < |calls| ::
                  && s.heard[i].Command? && s.heard[i].op == calls[i].op && s.heard[i].payload == calls[i].input
                  && ToNat(s.heard[i].num) == i % 256)
  {
    hide Exchange, ToNat, ToByte;
    if calls != [] {
      var before, c := calls[..|calls| - 1], calls[|calls| - 1];
      ConversationStaysInStep(before);
      ExchangeInStep(Converse(before), c);
      ByteOfNat((|calls| - 1) % 256);
    }
  }

  // ---------------------------------------------------------------- conversations on the line

  /** Any n + 1 readings of the clock in a row succeed and lie within two seconds. */
  ghost predicate Prompt(line: Line, n: nat)
    reads line
  {
    forall i: nat, j: nat | line.clocks <= i <= j <= i + n + 1 ::
      line.clock(j).ok && line.clock(j).sec - line.clock(i).sec <= 2
  }

  /** The line is free, loses nothing from here on, and is quick enough for n bytes. */
  ghost predicate Clear(line: Line, n: nat)
    reads line
  {
    line.Valid() && line.rx == [] && Undisturbed(line) && Prompt(line, n)
  }

  function ReplyLen(c: Call): nat {
    |c.noise| + RESP_HEADER_LEN + |c.reply| + 2
  }

  /** The session that the link and what was heard and returned so far amount to. */
  ghost function Now(link: Link, heard: seq<Command>, results: seq<Reception>): Session
    reads link, link.line
  {
    Session(link.messageNum, link.line.rx, heard, results)
  }

  method ArrayOf(s: seq<byte>) returns (a: array?<byte>)
    ensures if s == [] then a == null else a != null && fresh(a) && a[..] == s
  {
    if s == [] {
      return null;
    }
    a := new byte[|s|](i requires 0 <= i < |s| => s[i]);
  }

  /** One call of hal_read_write on the line, with the module's answer to it on the way: what the module
      finds on the line, and what the call returns. */
  method Perform(link: Link, c: Call, ghost n: nat) returns (heard: Command, x: Reception)
    requires Clear(link.line, n) && ValidCall(c) && ReplyLen(c) <= n
    modifies link, link.line`rx, link.line`tx, link.line`log, link.line`clocks
    ensures Clear(link.line, n)
    ensures forall before: Session | before.messageNum == old(link.messageNum) && before.rx == [] ::
              Exchange(before, c) == Now(link, before.heard + [heard], before.results + [x])
  {
    hide EncodeCommand, DecodeCommand, EncodeResponse, FrameArrives, Receive, LowByte, Supports;
    var num := LowByte(link.messageNum);
    CommandRoundTrip(c.op, num, c.input);
    AckIsDelivered(c.noise, c.op, num, c.reply, [], c.buf);
    AnswerLength(c, num);
    var cmd := DecodeCommand(EncodeCommand(c.op, num, c.input));
    var sent := |link.line.tx|;
    link.line.rx := c.noise + Answered(cmd, c.reply);
    assert link.line.rx == c.noise + EncodeResponse(c.op, num, 0, c.reply) + [];
    var bufIn := ArrayOf(c.input);
    var bufOut := ArrayOf(c.buf);
    assert Stored(bufIn, |c.input|) == c.input && Stored(bufOut, |c.buf|) == c.buf;
    var ret := link.HalReadWrite(c.op, bufIn, |c.input|, bufOut, |c.buf|);
    assert link.line.tx[sent..] == EncodeCommand(c.op, num, c.input);
    heard := DecodeCommand(link.line.tx[sent..]);
    x := Reception(ret, if bufOut == null then [] else bufOut[..ret], link.line.rx);
    forall before: Session | before.messageNum == old(link.messageNum) && before.rx == []
      ensures Exchange(before, c) == Now(link, before.heard + [heard], before.results + [x])
    {
      ExchangeInStep(before, c);
    }
  }

  lemma AnswerLength(c: Call, num: byte)
    ensures |c.noise + EncodeResponse(c.op, num, 0, c.reply)| == ReplyLen(c)
  {
    hide Checksum, ChecksumBytes, LowByte, HighByte;
  }

  /** The calls, performed one after the other from a reset on, make exactly that conversation. */
  method ConverseOnLink(link: Link, calls: seq<Call>, ghost n: nat)
    returns (heard: seq<Command>, results: seq<Reception>)
    requires Clear(link.line, n)
    requires forall i | 0 <= i < |calls| :: ValidCall(calls[i]) && ReplyLen(calls[i]) <= n
    modifies link, link.line`rx, link.line`tx, link.line`log, link.line`clocks
    ensures Now(link, heard, results) == Converse(calls)
    ensures Clear(link.line, n)
  {
    hide Exchange, ValidCall;
    link.ResetState();
    heard, results := [], [];
    for i := 0 to |calls|
      invariant Clear(link.line, n)
      invariant Now(link, heard, results) == Converse(calls[..i])
    {
      ghost var before := Converse(calls[..i]);
      assert calls[..i + 1][..i] == calls[..i];
      var cmd, x := Perform(link, calls[i], n);
      assert Exchange(before, calls[i]) == Now(link, before.heard + [cmd], before.results + [x]);
      heard, results := heard + [cmd], results + [x];
    }
    assert calls[..|calls|] == calls;
  }

  // ---------------------------------------------------------------- a payload that was never read

  /** A frame without its payload, whose checksum is that of the header and of what the caller's buffer held. */
  function Hollow(op: byte, num: byte, buf: seq<byte>): seq<byte> {
    var header := ResponseHeader(op, num, 0, |buf|);
    header + ChecksumBytes(Checksum(header + buf))
  }

  lemma HollowPasses(op: byte, num: byte, buf: seq<byte>)
    requires 0 < |buf| < 0x1_0000
    ensures var rx := Hollow(op, num, buf);
            && |rx| == 8 && FirstStart(rx) == 0
            && (forall ret: int, after: seq<byte>, log: seq<LineEvent> | |after| == |buf| ::
                  UnreadBody(rx[..6], rx[6..], op, num, buf, ret, after, log, 2) ==>
                    ret == |buf| && after == buf && 2 < |log| && log[2] == Failed(|buf|))
  {
    hide Checksum, ChecksumBytes, ChecksumOf, Pair, LowByte, HighByte, ToNat;
    var rx, header := Hollow(op, num, buf), ResponseHeader(op, num, 0, |buf|);
    var checksum := Checksum(header + buf);
    assert rx[..6] == header && rx[6..] == ChecksumBytes(checksum);
    ChecksumRoundTrip(checksum);
    LengthRoundTrip(|buf|);
    assert HeaderError(header, op, num) == 0 && LengthField(header) == |buf|;
    assert buf[..|buf|] == buf;
    forall after: seq<byte> | |after| == |buf| ensures after[..|buf|] == after {
    }
  }

  /** The third read of the line, the one for the payload, fails. */
  function PayloadFails(): nat -> Mishap {
    (k: nat) => Mishap(k == 2, -1, 0, (i: nat, b: byte) => b)
  }

  function Ticking(): nat -> Reading {
    (k: nat) => Reading(true, k / 100, 0)
  }

  lemma TickingAdvances()
    ensures Advances(Ticking())
  {
    var clock := Ticking();
    forall sec: int ensures Passes(clock, sec) {
      var n := if sec < 0 then 0 else 100 * (sec + 1);
      assert PastFrom(clock, n, sec);
    }
  }

  /** recv_packet does not look whether the payload was read. So, for every command and every buffer, there
      is a line on which it returns the old content of the buffer as the payload. */
  method UnreadPayloadIsAccepted(op: byte, num: byte, buf: seq<byte>) returns (line: Line, ret: int, after: seq<byte>)
    requires 0 < |buf| < 0x1_0000
    ensures ret == |buf| && after == buf
    ensures |line.log| > 2 && line.log[2] == Failed(|buf|)
  {
    hide Hollow, FirstStart, UnreadBody, Receive, FrameArrives, Supports, Advances;
    HollowPasses(op, num, buf);
    TickingAdvances();
    line := new Line(Hollow(op, num, buf), PayloadFails(), (k: nat) => 0, Ticking());
    var a := ArrayOf(buf);
    assert Stored(a, |buf|) == buf;
    ret := RecvPacket(line, op, num, a, |buf|);
    after := a[..];
    assert Stored(a, |buf|) == after;
  }
}
