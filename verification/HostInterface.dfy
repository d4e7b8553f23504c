/** The framed host interface: commands out, responses in, matched by opcode and message number and
    protected by the 16-bit checksum. */
module HostInterface {
  import opened Bytes
  import opened CyclicCheck16
  import opened Octets
  import opened Wire

  const FRAME_START: byte := 0xC4
  const CMD_HEADER_LEN: nat := 5
  const RESP_HEADER_LEN: nat := 6
  const NUM_ZEROS: nat := 4

  const ERROR_INCORRECT_PARAMETER: int := -101
  const ERROR_MESSAGE_NUMBER_MISMATCH: int := -103
  const ERROR_CHECKSUM_MISMATCH: int := -104
  const ERROR_COMMAND_MISMATCH: int := -105
  const ERROR_HOST_INTERFACE_TIMEOUT: int := -106
  const ERROR_BUFFER_TOO_SMALL: int := -107
  const ERROR_START_OF_FRAME: int := -108
  const ERROR_HEADER: int := -109
  const ERROR_HAL_CALL_FAILED: int := -113

  // ---------------------------------------------------------------- frames

  /** Two bytes, most significant first. */
  function ChecksumBytes(c: bv16): (s: seq<byte>)
    ensures |s| == 2
  {
    [((c >> 8) & 0xff) as byte, (c & 0xff) as byte]
  }

  function ChecksumOf(hi: byte, lo: byte): bv16 {
    ((hi as bv16) << 8) + (lo as bv16)
  }

  lemma ChecksumRoundTrip(c: bv16)
    ensures ChecksumOf(ChecksumBytes(c)[0], ChecksumBytes(c)[1]) == c
  {
  }

  function CommandHeader(op: byte, num: byte, len: nat): (s: seq<byte>)
    ensures |s| == CMD_HEADER_LEN
  {
    [FRAME_START, op, num, HighByte(len), LowByte(len)]
  }

  /** What send_packet puts on the line. */
  function EncodeCommand(op: byte, num: byte, payload: seq<byte>): seq<byte> {
    var header := CommandHeader(op, num, |payload|);
    [0xff, 0xff, 0xff, 0xff] + header + payload + ChecksumBytes(Checksum(header + payload))
  }

  function ResponseHeader(op: byte, num: byte, status: byte, len: nat): (s: seq<byte>)
    ensures |s| == RESP_HEADER_LEN
  {
    [FRAME_START, op, num, status, HighByte(len), LowByte(len)]
  }

  /** A response of the module. */
  function EncodeResponse(op: byte, num: byte, status: byte, payload: seq<byte>): seq<byte> {
    var header := ResponseHeader(op, num, status, |payload|);
    header + payload + ChecksumBytes(Checksum(header + payload))
  }

  /** The index of the first start-of-frame byte, or the length when there is none. */
  function FirstStart(s: seq<byte>): (k: nat)
    ensures k <= |s|
    ensures forall i | 0 <= i < k :: s[i] != FRAME_START
    ensures k < |s| ==> s[k] == FRAME_START
  {
    if s == [] || s[0] == FRAME_START then 0 else 1 + FirstStart(s[1..])
  }

  lemma FirstStartAt(s: seq<byte>, k: nat)
    requires k < |s| && s[k] == FRAME_START && forall i | 0 <= i < k :: s[i] != FRAME_START
    ensures FirstStart(s) == k
  {
  }

  // ---------------------------------------------------------------- what a response means

  /** What recv_packet does with the bytes that arrive when no read fails and no time runs out: the
      value it returns, the payload it stores and the bytes it leaves. */
  datatype Reception = Reception(ret: int, payload: seq<byte>, rest: seq<byte>)

  /** The error that the header alone decides; a later test overrides an earlier one. */
  function HeaderError(h: seq<byte>, op: byte, num: byte): int
    requires |h| == RESP_HEADER_LEN
  {
    if h[3] != 0x00 then 0 - ToNat(h[3])
    else if h[2] != num then ERROR_MESSAGE_NUMBER_MISMATCH
    else if h[1] != op then ERROR_COMMAND_MISMATCH
    else 0
  }

  function LengthField(h: seq<byte>): nat
    requires |h| == RESP_HEADER_LEN
  {
    Pair(h[5], h[4])
  }

  /** How many bytes recv_packet reads after a header whose length field fits. */
  function BodyLength(h: seq<byte>, op: byte, num: byte): nat
    requires |h| == RESP_HEADER_LEN
  {
    (if HeaderError(h, op, num) == 0 then LengthField(h) else 0) + 2
  }

  /** What follows a header whose length fits: the payload, unless the header decided for an error, and
      the checksum. `before` is the old content of the caller's buffer, which is checked instead of a
      payload that is not read. */
  function ReceiveBody(h: seq<byte>, body: seq<byte>, error: int, before: seq<byte>): Reception
    requires |h| == RESP_HEADER_LEN && (if error == 0 then |before| else 0) + 2 <= |body|
  {
    var m := if error == 0 then |before| else 0;
    var payload := if error == 0 then body[..m] else before;
    if ChecksumOf(body[m], body[m + 1]) != Checksum(h + payload)
    then Reception(ERROR_CHECKSUM_MISMATCH, [], body[m + 2..])
    else Reception(if error == 0 then m else error, if error == 0 then payload else [], body[m + 2..])
  }

  /** The same when the payload could not be read and left the buffer alone: the old content passes for the
      payload if it fits the checksum. */
  function ReceiveUnread(h: seq<byte>, body: seq<byte>, before: seq<byte>): Reception
    requires |h| == RESP_HEADER_LEN && 2 <= |body|
  {
    if ChecksumOf(body[0], body[1]) != Checksum(h + before) then Reception(ERROR_CHECKSUM_MISMATCH, [], body[2..])
    else Reception(|before|, before, body[2..])
  }

  predicate FrameFits(h: seq<byte>, body: seq<byte>, op: byte, num: byte, cap: nat)
    requires |h| == RESP_HEADER_LEN
  {
    LengthField(h) <= cap ==> BodyLength(h, op, num) <= |body|
  }

  function ReceiveFrame(h: seq<byte>, body: seq<byte>, op: byte, num: byte, buf: seq<byte>): Reception
    requires |h| == RESP_HEADER_LEN && FrameFits(h, body, op, num, |buf|)
  {
    if LengthField(h) > |buf| then Reception(ERROR_BUFFER_TOO_SMALL, [], [])
    else ReceiveBody(h, body, HeaderError(h, op, num), buf[..LengthField(h)])
  }

  predicate FrameArrives(rx: seq<byte>, op: byte, num: byte, cap: nat) {
    var k := FirstStart(rx);
    k + RESP_HEADER_LEN <= |rx| && FrameFits(rx[k..k + RESP_HEADER_LEN], rx[k + RESP_HEADER_LEN..], op, num, cap)
  }

  /** recv_packet as a whole: skip to the start of a frame, and take the frame. */
  function Receive(rx: seq<byte>, op: byte, num: byte, buf: seq<byte>): Reception
    requires FrameArrives(rx, op, num, |buf|)
  {
    var k := FirstStart(rx);
    ReceiveFrame(rx[k..k + RESP_HEADER_LEN], rx[k + RESP_HEADER_LEN..], op, num, buf)
  }

  // ---------------------------------------------------------------- sending

  /** send_packet */
  method SendPacket(line: Line, op: byte, num: byte, buf: array?<byte>, len: nat)
    requires if buf == null then len == 0 else len <= buf.Length
    modifies line`tx, line`log
    ensures old(line.log) <= line.log
    ensures line.tx == old(line.tx) + EncodeCommand(op, num, if buf == null then [] else buf[..len])
  {
    hide Checksum, ChecksumBytes;
    ghost var payload := if buf == null then [] else buf[..len];
    var zeros, header := PutCommandHeader(op, num, len);
    hide CommandHeader;
    var checksum := ComputeChecksum(header, CMD_HEADER_LEN, buf, len);
    assert header[..CMD_HEADER_LEN] == header[..];
    var _ := line.Write(zeros[..] + header[..]);
    if buf != null {
      var _ := line.Write(buf[..len]);
    }
    var _ := line.Write(ChecksumBytes(checksum));
  }

  /** The wake-up bytes and the header of send_packet, filled by index. */
  method PutCommandHeader(op: byte, num: byte, len: nat) returns (zeros: array<byte>, header: array<byte>)
    ensures fresh(zeros) && fresh(header) && header.Length == CMD_HEADER_LEN
    ensures zeros[..] == [0xff, 0xff, 0xff, 0xff] && header[..] == CommandHeader(op, num, len)
  {
    hide LowByte, HighByte;
    zeros := new byte[NUM_ZEROS](i => 0xff);
    header := new byte[CMD_HEADER_LEN](i => 0);
    header[0] := FRAME_START;
    header[1] := op;
    header[2] := num;
    header[3] := HighByte(len);
    header[4] := LowByte(len);
  }

  // ---------------------------------------------------------------- receiving

  /** The next n reads of the line are not struck by a mishap. */
  ghost predicate Spared(line: Line, n: nat)
    reads line
  {
    forall k: nat | |line.log| <= k < |line.log| + n :: !line.mishaps(k).strikes
  }

  /** n reads are spared; the next one fails, loses nothing and leaves the reader's buffer alone; and the one
      after that is spared. */
  ghost predicate FailsAfter(line: Line, n: nat)
    reads line
  {
    && Spared(line, n)
    && var m := line.mishaps(|line.log| + n);
    && m.strikes && m.lost == 0 && (forall i: nat, b: byte :: m.leaves(i, b) == b)
    && !line.mishaps(|line.log| + n + 1).strikes
  }

  /** From here on no read of the line is struck by a mishap. */
  ghost predicate Undisturbed(line: Line)
    reads line
  {
    forall k: nat | k >= |line.log| :: !line.mishaps(k).strikes
  }

  /** The clock works, and the wait is not over before everything that arrives has been read. */
  ghost predicate InTime(line: Line)
    reads line
  {
    forall j: nat | line.clocks <= j <= line.clocks + |line.rx| + 1 ::
      line.clock(j).ok && line.clock(j).sec - line.clock(line.clocks).sec <= 2
  }

  /** The readings from `first` on, up to `last`, all succeeded and were at most 2 seconds after the first. */
  ghost predicate StillWaiting(clock: nat -> Reading, first: nat, last: nat) {
    forall j: nat | first <= j < last :: clock(j).ok && clock(j).sec - clock(first).sec <= 2
  }

  lemma WaitsOn(clock: nat -> Reading, first: nat, last: nat)
    requires StillWaiting(clock, first, last) && clock(last).ok && clock(last).sec - clock(first).sec <= 2
    ensures StillWaiting(clock, first, last + 1)
  {
  }

  /** The last reading of the clock was the first to fail, or to be more than 2 seconds after the first one,
      or else the wait ended for another reason. */
  ghost predicate WaitEnded(clock: nat -> Reading, first: nat, last: int, error: int) {
    && first <= last && StillWaiting(clock, first, last)
    && (error == 0 || error == -106 || error == -108 || error == -113)
    && (error == -113 <==> !clock(last).ok)
    && (error == -106 <==> clock(last).ok && clock(last).sec - clock(first).sec > 2)
  }

  lemma NothingWaited(clock: nat -> Reading, first: nat)
    ensures StillWaiting(clock, first, first)
  {
  }

  /** Read k failed, and left a start-of-frame byte where there was none. */
  ghost predicate FakesStart(line: Line, k: nat)
    reads line
  {
    && k < |line.log| && line.log[k].Failed?
    && exists b: byte :: b != FRAME_START && line.mishaps(k).leaves(0, b) == FRAME_START
  }

  /** One byte, and the time after it. */
  method Poll(line: Line, cell: array<byte>) returns (ret: int, now: Reading)
    requires line.Valid() && cell.Length == 1
    modifies line`rx, line`log, line`clocks, cell
    ensures line.clocks == old(line.clocks) + 1 && now == line.clock(old(line.clocks))
    ensures line.log == old(line.log) + [if ret >= 0 then Got([cell[0]]) else Failed(1)]
    ensures ret < 0 ==> cell[0] == line.mishaps(|old(line.log)|).leaves(0, old(cell[0]))
    ensures !line.mishaps(|old(line.log)|).strikes && old(line.rx) != [] ==>
              ret == 0 && cell[0] == old(line.rx)[0] && line.rx == old(line.rx)[1..]
  {
    ret := line.Read(cell, 0, 1);
    assert cell[0..1] == [cell[0]];
    assert ret >= 0 ==> cell[0] == cell[0..1][0];
    now := line.GetTime();
  }

  /** The waiting loop of recv_packet: 0 once a start-of-frame byte was read, which it always was. */
  method AwaitFrameStart(line: Line) returns (error: int)
    requires line.Valid()
    modifies line`rx, line`log, line`clocks
    ensures error <= 0 && WaitEnded(line.clock, old(line.clocks), line.clocks - 1, error)
    ensures |line.log| - |old(line.log)| == line.clocks - 1 - old(line.clocks)
    ensures error == -108 ==> |line.log| > |old(line.log)| && FakesStart(line, |line.log| - 1)
    ensures error == 0 ==>
              |line.log| > |old(line.log)| && line.log[|line.log| - 1] == Got([FRAME_START])
    ensures old(Spared(line, FirstStart(line.rx) + 1) && InTime(line)) && FirstStart(old(line.rx)) < |old(line.rx)| ==>
              && error == 0
              && line.rx == old(line.rx)[FirstStart(old(line.rx)) + 1..]
              && |line.log| == |old(line.log)| + FirstStart(old(line.rx)) + 1
    ensures old(line.log) <= line.log && old(line.clocks) <= line.clocks
  {
    hide FirstStart, StillWaiting;
    ghost var first := line.clocks;
    NothingWaited(line.clock, first);
    var currByte := new byte[1](i => 0);
    var start := line.GetTime();
    if !start.ok {
      return ERROR_HAL_CALL_FAILED;
    }
    WaitsOn(line.clock, first, first);
    assert Passes(line.clock, start.sec + 2);
    ghost var deadline: nat :| PastFrom(line.clock, deadline, start.sec + 2);
    ghost var clean :=
      old(Spared(line, FirstStart(line.rx) + 1) && InTime(line) && FirstStart(line.rx) < |line.rx|);
    ghost var taken: nat := 0;
    while true
      invariant line.Valid() && old(line.log) <= line.log && old(line.clocks) <= line.clocks
      invariant clean ==> |line.log| == |old(line.log)| + taken
      invariant |line.log| - |old(line.log)| == line.clocks - 1 - old(line.clocks)
      invariant StillWaiting(line.clock, first, line.clocks) && currByte[0] != FRAME_START
      invariant clean ==> taken <= FirstStart(old(line.rx)) && line.rx == old(line.rx)[taken..]
      invariant clean ==> line.clocks == old(line.clocks) + 1 + taken
      decreases deadline - line.clocks
    {
      var ret, now := Poll(line, currByte);
      if !now.ok {
        return ERROR_HAL_CALL_FAILED;
      }
      if now.sec - start.sec > 2 {
        return ERROR_HOST_INTERFACE_TIMEOUT;
      }
      ghost var last := line.clocks - 1;
      if currByte[0] == FRAME_START {
        if ret < 0 {
          return ERROR_START_OF_FRAME;
        }
        if clean {
          FirstStartAt(old(line.rx), taken);
        }
        return 0;
      }
      WaitsOn(line.clock, first, last);
      taken := taken + 1;
    }
  }

  function Stored(buf: array?<byte>, n: nat): seq<byte>
    requires buf == null ==> n == 0
    requires buf != null ==> n <= buf.Length
    reads buf
  {
    if buf == null then [] else buf[..n]
  }

  /** How many reads follow the header when the payload has n bytes. */
  function BodyReads(n: nat): nat {
    if n == 0 then 1 else 2
  }

  /** What the reads of a successful call were: a start-of-frame byte, a header for this command with status 0
      and length n, the payload unless it is empty, and a checksum that fits both, as far as the reads of
      these two did not fail. */
  ghost predicate Supports(log: seq<LineEvent>, op: byte, num: byte, stored: seq<byte>) {
    var n, bodyReads := |stored|, BodyReads(|stored|);
    && |log| > bodyReads + 1
    && log[|log| - 2 - bodyReads] == Got([FRAME_START])
    && var header := log[|log| - 1 - bodyReads];
       var last := log[|log| - 1];
    && header.Got? && |header.data| == RESP_HEADER_LEN - 1
    && header.data[0] == op && header.data[1] == num && header.data[2] == 0
    && Pair(header.data[4], header.data[3]) == n
    && (n > 0 && log[|log| - 2].Got? ==> log[|log| - 2].data == stored)
    && (last.Got? ==>
          && |last.data| == 2
          && ChecksumOf(last.data[0], last.data[1]) == Checksum([FRAME_START] + header.data + stored))
  }

  /** The loop of recv_packet that empties the line after a response too large for the caller. */
  method Drain(line: Line)
    requires line.Valid()
    modifies line`rx, line`log
    ensures old(Undisturbed(line)) ==> line.rx == []
    ensures old(line.log) <= line.log
  {
    var tempByte := new byte[1](i => 0);
    var ret := 0;
    while ret == 0
      invariant line.Valid() && old(line.log) <= line.log
      invariant old(Undisturbed(line)) && ret != 0 ==> line.rx == []
      decreases if ret == 0 then |line.rx| + 1 else 0
    {
      ret := line.Read(tempByte, 0, 1);
    }
  }

  /** The payload, if there is supposed to be one. */
  method ReadPayload(line: Line, buf: array?<byte>, len: nat)
    requires line.Valid()
    requires if buf == null then len == 0 else len <= buf.Length
    modifies line`rx, line`log, buf
    ensures old(line.log) <= line.log && |line.log| == |old(line.log)| + (if len > 0 then 1 else 0)
    ensures len > 0 && line.log[|line.log| - 1].Got? ==> line.log[|line.log| - 1].data == Stored(buf, len)
    ensures old(Spared(line, 1)) && len <= |old(line.rx)| ==>
              Stored(buf, len) == old(line.rx)[..len] && line.rx == old(line.rx)[len..]
    ensures len > 0 && old(FailsAfter(line, 0)) ==>
              && Stored(buf, len) == old(Stored(buf, len)) && line.rx == old(line.rx)
              && line.log == old(line.log) + [Failed(len)]
  {
    if buf != null && len > 0 {
      var _ := line.Read(buf, 0, len);
      assert buf[0..len] == buf[..len];
      assert old(FailsAfter(line, 0)) ==> forall i | 0 <= i < len :: buf[i] == old(buf[i]);
    }
  }

  method ReadChecksum(line: Line) returns (checksum: bv16)
    requires line.Valid()
    modifies line`rx, line`log
    ensures old(line.log) <= line.log && |line.log| == |old(line.log)| + 1
    ensures var last := line.log[|line.log| - 1];
            last.Got? ==> |last.data| == 2 && checksum == ChecksumOf(last.data[0], last.data[1])
    ensures !line.mishaps(|old(line.log)|).strikes && 2 <= |old(line.rx)| ==>
              line.rx == old(line.rx)[2..] && checksum == ChecksumOf(old(line.rx)[0], old(line.rx)[1])
  {
    hide ChecksumOf;
    var checksumBuf := new byte[2](i => 0);
    var _ := line.Read(checksumBuf, 0, 2);
    assert checksumBuf[0..2][0] == checksumBuf[0] && checksumBuf[0..2][1] == checksumBuf[1];
    checksum := ChecksumOf(checksumBuf[0], checksumBuf[1]);
  }

  /** The end of recv_packet: the payload, unless the header decided for an error, and the checksum. */
  method RecvChecked(line: Line, header: array<byte>, error: int, buf: array?<byte>, len: nat) returns (ret: int)
    requires line.Valid() && header.Length == RESP_HEADER_LEN && header != buf && error <= 0
    requires if buf == null then len == 0 else len <= buf.Length
    modifies line`rx, line`log, buf
    ensures ret >= 0 ==>
              && error == 0 && ret == len
              && |line.log| == |old(line.log)| + (if len > 0 then 2 else 1)
              && (len > 0 && line.log[|old(line.log)|].Got? ==> line.log[|old(line.log)|].data == Stored(buf, len))
              && var last := line.log[|line.log| - 1];
                 last.Got? ==>
                   && |last.data| == 2
                   && ChecksumOf(last.data[0], last.data[1]) == Checksum(header[..] + Stored(buf, len))
    ensures old(Undisturbed(line)) && (if error == 0 then len else 0) + 2 <= |old(line.rx)| ==>
              var x := ReceiveBody(header[..], old(line.rx), error, old(Stored(buf, len)));
              ret == x.ret && line.rx == x.rest && (ret >= 0 ==> Stored(buf, ret) == x.payload)
    ensures old(FailsAfter(line, 0)) && error == 0 && len > 0 && 2 <= |old(line.rx)| ==>
              var x := ReceiveUnread(header[..], old(line.rx), old(Stored(buf, len)));
              && ret == x.ret && line.rx == x.rest && Stored(buf, len) == old(Stored(buf, len))
              && old(line.log) + [Failed(len)] <= line.log
    ensures old(line.log) <= line.log
  {
    hide Checksum, ChecksumOf;
    ghost var rx := line.rx;
    if error == 0 {
      ReadPayload(line, buf, len);
    }
    var received := ReadChecksum(line);
    var computed := ComputeChecksum(header, RESP_HEADER_LEN, buf, len);
    assert header[..RESP_HEADER_LEN] == header[..];
    if received != computed {
      return ERROR_CHECKSUM_MISMATCH;
    }
    ret := if error == 0 then len else error;
  }

  /** The rest of the header after its start-of-frame byte. */
  method ReadHeader(line: Line) returns (ret: int, header: array<byte>)
    requires line.Valid()
    modifies line`rx, line`log
    ensures fresh(header) && header.Length == RESP_HEADER_LEN
    ensures ret >= 0 ==>
              && |old(line.rx)| >= 5
              && header[..] == [FRAME_START] + old(line.rx)[..5]
              && line.rx == old(line.rx)[5..]
              && line.log == old(line.log) + [Got(old(line.rx)[..5])]
    ensures |line.log| == |old(line.log)| + 1 && old(line.log) <= line.log
    ensures ret < 0 ==> line.log == old(line.log) + [Failed(5)]
    ensures !line.mishaps(|old(line.log)|).strikes && |old(line.rx)| >= 5 ==> ret >= 0
  {
    header := new byte[RESP_HEADER_LEN](i => 0);
    header[0] := FRAME_START;
    assert header[..1] == [FRAME_START];
    ret := line.Read(header, 1, RESP_HEADER_LEN - 1);
    assert header[..] == header[..1] + header[1..1 + 5];
  }

  /** What comes of a good header whose payload cannot be read: `read` is where the log tells of that. */
  predicate UnreadBody(h: seq<byte>, body: seq<byte>, op: byte, num: byte, before: seq<byte>, ret: int,
                       after: seq<byte>, log: seq<LineEvent>, read: nat)
    requires |h| == RESP_HEADER_LEN
  {
    var n := LengthField(h);
    HeaderError(h, op, num) == 0 && 0 < n <= |before| == |after| && 2 <= |body| ==>
      && ret == ReceiveUnread(h, body, before[..n]).ret && after[..n] == before[..n]
      && read < |log| && log[read] == Failed(n)
  }

  /** recv_packet, from the header on. */
  method RecvBody(line: Line, op: byte, num: byte, buf: array?<byte>, cap: nat) returns (ret: int)
    requires line.Valid() && |line.log| > 0 && line.log[|line.log| - 1] == Got([FRAME_START])
    requires if buf == null then cap == 0 else cap <= buf.Length
    modifies line`rx, line`log, buf
    ensures ret >= 0 ==> ret <= cap && Supports(line.log, op, num, Stored(buf, ret))
    ensures ret >= 0 ==> |line.log| > |old(line.log)| + BodyReads(ret)
    ensures old(Undisturbed(line)) && |old(line.rx)| >= 5 ==>
              var h, body := [FRAME_START] + old(line.rx)[..5], old(line.rx)[5..];
              FrameFits(h, body, op, num, cap) ==>
                var x := ReceiveFrame(h, body, op, num, old(Stored(buf, cap)));
                ret == x.ret && line.rx == x.rest && (ret >= 0 ==> Stored(buf, ret) == x.payload)
    ensures old(FailsAfter(line, 1)) && |old(line.rx)| >= 5 ==>
              UnreadBody([FRAME_START] + old(line.rx)[..5], old(line.rx)[5..], op, num, old(Stored(buf, cap)), ret,
                         Stored(buf, cap), line.log, |old(line.log)| + 1)
    ensures old(line.log) <= line.log && |line.log| > |old(line.log)|
    ensures line.log[|old(line.log)|].Failed? ==> ret == -109
  {
    hide Supports, UnreadBody, ReceiveFrame, FrameFits;
    var header;
    ret, header := ReadHeader(line);
    if ret < 0 {
      return ERROR_HEADER;
    }
    ret := RecvFrame(line, header, op, num, buf, cap);
  }

  /** recv_packet, once it has the header. */
  method RecvFrame(line: Line, header: array<byte>, op: byte, num: byte, buf: array?<byte>, cap: nat) returns (ret: int)
    requires line.Valid() && header.Length == RESP_HEADER_LEN && header != buf && header[0] == FRAME_START
    requires |line.log| > 1
    requires line.log[|line.log| - 2] == Got([FRAME_START]) && line.log[|line.log| - 1] == Got(header[1..])
    requires if buf == null then cap == 0 else cap <= buf.Length
    modifies line`rx, line`log, buf
    ensures ret >= 0 ==> ret <= cap && Supports(line.log, op, num, Stored(buf, ret))
    ensures ret >= 0 ==> |line.log| >= |old(line.log)| + BodyReads(ret)
    ensures old(Undisturbed(line)) && FrameFits(header[..], old(line.rx), op, num, cap) ==>
              var x := ReceiveFrame(header[..], old(line.rx), op, num, old(Stored(buf, cap)));
              ret == x.ret && line.rx == x.rest && (ret >= 0 ==> Stored(buf, ret) == x.payload)
    ensures old(FailsAfter(line, 0)) ==>
              UnreadBody(header[..], old(line.rx), op, num, old(Stored(buf, cap)), ret, Stored(buf, cap), line.log,
                         |old(line.log)|)
    ensures old(line.log) <= line.log
  {
    hide Checksum, ChecksumOf, Pair, ToNat, ReceiveBody, ReceiveUnread, HeaderError, Advances, Supports;
    ghost var h := header[..];
    var lenFromHeader := Pair(header[5], header[4]);
    var value := HeaderErrorOf(header, op, num);
    var len := cap;
    if lenFromHeader > len {
      Drain(line);
      return ERROR_BUFFER_TOO_SMALL;
    } else if lenFromHeader < len {
      len := lenFromHeader;
    }
    assert len == LengthField(h) && Stored(buf, len) == old(Stored(buf, cap))[..len];
    ret := RecvChecked(line, header, value, buf, len);
    assert h == [FRAME_START] + header[1..];
    if ret >= 0 {
      ReadsSupport(old(line.log), line.log, h, op, num, Stored(buf, len));
    }
  }

  lemma ReadsSupport(before: seq<LineEvent>, log: seq<LineEvent>, h: seq<byte>, op: byte, num: byte, stored: seq<byte>)
    requires |h| == RESP_HEADER_LEN && h[0] == FRAME_START && before <= log
    requires |before| > 1 && before[|before| - 2] == Got([FRAME_START]) && before[|before| - 1] == Got(h[1..])
    requires h[1] == op && h[2] == num && h[3] == 0 && LengthField(h) == |stored|
    requires |log| == |before| + if stored == [] then 1 else 2
    requires stored != [] && log[|before|].Got? ==> log[|before|].data == stored
    requires var last := log[|log| - 1];
             last.Got? ==> |last.data| == 2 && ChecksumOf(last.data[0], last.data[1]) == Checksum(h + stored)
    ensures Supports(log, op, num, stored)
  {
    hide Checksum, ChecksumOf, Pair;
    assert h == [FRAME_START] + h[1..];
    assert log[|before| - 1] == Got(h[1..]) && log[|before| - 2] == Got([FRAME_START]);
  }

  /** The three tests of the header in recv_packet. */
  method HeaderErrorOf(header: array<byte>, op: byte, num: byte) returns (value: int)
    requires header.Length == RESP_HEADER_LEN
    ensures value == HeaderError(header[..], op, num)
    ensures value == 0 <==> header[1] == op && header[2] == num && header[3] == 0
    ensures value <= 0
  {
    value := 0;
    if header[1] != op {
      value := ERROR_COMMAND_MISMATCH;
    }
    if header[2] != num {
      value := ERROR_MESSAGE_NUMBER_MISMATCH;
    }
    if header[3] != 0x00 {
      NonzeroByte(header[3]);
      value := 0 - ToNat(header[3]);
    }
  }

  lemma NonzeroByte(b: byte)
    requires b != 0
    ensures ToNat(b) > 0
  {
  }

  lemma FrameAt(rx: seq<byte>, k: nat)
    requires k < |rx| && rx[k] == FRAME_START && k + RESP_HEADER_LEN <= |rx|
    ensures rx[k..k + RESP_HEADER_LEN] == [FRAME_START] + rx[k + 1..][..5]
    ensures rx[k + RESP_HEADER_LEN..] == rx[k + 1..][5..]
  {
  }

  /** How the wait that began with reading `first`, at place `from` of the log, ended, and what that makes of the
      result: an error of the wait is returned; and after it, -109 if the header could not be read. */
  ghost predicate EndedWith(line: Line, first: nat, from: nat, error: int, ret: int)
    reads line
  {
    && WaitEnded(line.clock, first, line.clocks - 1, error)
    && var header := from + (line.clocks - 1 - first);
    && (error == -108 ==> header > 0 && FakesStart(line, header - 1))
    && if error != 0 then ret == error
       else header < |line.log| && (line.log[header].Failed? ==> ret == -109)
  }

  /** recv_packet. Whatever the line does, a result that is not negative is backed by what was read; and
      on a line that loses nothing in time, the result is what Receive says of the bytes that arrive. */
  method RecvPacket(line: Line, op: byte, num: byte, buf: array?<byte>, cap: nat) returns (ret: int)
    requires line.Valid()
    requires if buf == null then cap == 0 else cap <= buf.Length
    modifies line`rx, line`log, line`clocks, buf
    ensures old(line.log) <= line.log && old(line.clocks) <= line.clocks
    ensures exists error: int :: EndedWith(line, old(line.clocks), |old(line.log)|, error, ret)
    ensures ret >= 0 ==> ret <= cap && Supports(line.log[|old(line.log)|..], op, num, Stored(buf, ret))
    ensures old(Undisturbed(line) && InTime(line)) && FrameArrives(old(line.rx), op, num, cap) ==>
              var x := Receive(old(line.rx), op, num, old(Stored(buf, cap)));
              ret == x.ret && line.rx == x.rest && (ret >= 0 ==> Stored(buf, ret) == x.payload)
    ensures var k := FirstStart(old(line.rx));
            old(FailsAfter(line, FirstStart(line.rx) + 2) && InTime(line)) && k + RESP_HEADER_LEN <= |old(line.rx)| ==>
              UnreadBody(old(line.rx)[k..k + RESP_HEADER_LEN], old(line.rx)[k + RESP_HEADER_LEN..], op, num,
                         old(Stored(buf, cap)), ret, Stored(buf, cap), line.log, |old(line.log)| + k + 2)
  {
    hide ReceiveFrame, FrameFits, Supports, InTime, UnreadBody, FakesStart, WaitEnded;
    ghost var rx := line.rx;
    var error := AwaitFrameStart(line);
    if error < 0 {
      assert EndedWith(line, old(line.clocks), |old(line.log)|, error, error);
      return error;
    }
    if FirstStart(rx) + RESP_HEADER_LEN <= |rx| {
      FrameAt(rx, FirstStart(rx));
    }
    ret := RecvBody(line, op, num, buf, cap);
    assert EndedWith(line, old(line.clocks), |old(line.log)|, 0, ret);
    if ret >= 0 {
      SupportsLater(line.log, |old(line.log)|, op, num, Stored(buf, ret));
    }
  }

  /** The reads that back a success are the last ones. */
  lemma SupportsLater(log: seq<LineEvent>, from: nat, op: byte, num: byte, stored: seq<byte>)
    requires Supports(log, op, num, stored) && |log| >= from + 2 + BodyReads(|stored|)
    ensures Supports(log[from..], op, num, stored)
  {
    hide Checksum, ChecksumOf, Pair;
  }

  lemma SupportsEarlier(log: seq<LineEvent>, from: nat, later: nat, op: byte, num: byte, stored: seq<byte>)
    requires from <= later <= |log| && Supports(log[later..], op, num, stored)
    ensures Supports(log[from..], op, num, stored)
  {
    hide Checksum, ChecksumOf, Pair;
    assert log[from..][later - from..] == log[later..];
  }

  /** The host's end of the interface, with its running message number. */
  class Link {
    const line: Line
    var messageNum: nat

    ghost predicate Valid()
      reads this, line
    {
      line.Valid()
    }

    constructor (line: Line)
      ensures this.line == line && messageNum == 0
    {
      this.line, messageNum := line, 0;
    }

    /** ll_reset_state */
    method ResetState()
      modifies this
      ensures messageNum == 0
    {
      messageNum := 0;
    }

    /** hal_read_write */
    method HalReadWrite(op: byte, bufIn: array?<byte>, inLen: nat, bufOut: array?<byte>, outLen: nat)
      returns (ret: int)
      requires Valid()
      requires (bufIn != null ==> inLen <= bufIn.Length) && (bufOut != null ==> outLen <= bufOut.Length)
      modifies this, line`rx, line`tx, line`log, line`clocks, bufOut
      ensures old(line.log) <= line.log && old(line.clocks) <= line.clocks
      ensures (bufIn == null) != (inLen == 0) || (bufOut == null) != (outLen == 0) ==>
                ret == -101 && messageNum == old(messageNum) && line.tx == old(line.tx)
      ensures (bufIn == null) == (inLen == 0) && (bufOut == null) == (outLen == 0) ==>
                var num := LowByte(old(messageNum));
                && messageNum == old(messageNum) + 1
                && (exists from: nat, error: int :: EndedWith(line, old(line.clocks), from, error, ret))
                && line.tx == old(line.tx) + EncodeCommand(op, num, old(Stored(bufIn, inLen)))
                && (ret >= 0 ==> ret <= outLen && Supports(line.log[|old(line.log)|..], op, num, Stored(bufOut, ret)))
                && (old(Undisturbed(line) && InTime(line)) && FrameArrives(old(line.rx), op, num, outLen) ==>
                      var x := Receive(old(line.rx), op, num, old(Stored(bufOut, outLen)));
                      ret == x.ret && line.rx == x.rest && (ret >= 0 ==> Stored(bufOut, ret) == x.payload))
    {
      hide EncodeCommand, EndedWith, Receive, FrameArrives, Supports, LowByte;
      if (bufIn != null && inLen == 0) || (bufIn == null && inLen > 0) {
        return ERROR_INCORRECT_PARAMETER;
      }
      if (bufOut != null && outLen == 0) || (bufOut == null && outLen > 0) {
        return ERROR_INCORRECT_PARAMETER;
      }
      SendPacket(line, op, LowByte(messageNum), bufIn, inLen);
      ghost var sent := |line.log|;
      ret := RecvPacket(line, op, LowByte(messageNum), bufOut, outLen);
      ghost var error: int :| EndedWith(line, old(line.clocks), sent, error, ret);
      if ret >= 0 {
        SupportsEarlier(line.log, |old(line.log)|, sent, op, LowByte(messageNum), Stored(bufOut, ret));
      }
      messageNum := messageNum + 1;
      assert EndedWith(line, old(line.clocks), sent, error, ret);
    }
  }
}
