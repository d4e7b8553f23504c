/** The XMODEM-CRC sender: its packets, its reading of the receiver's answers, and its transfer loop. */
module Xmodem {
  import opened Bytes
  import opened Clock
  import opened CyclicCheck16
  import opened HostInterface
  import opened Octets
  import opened Wire

  const SOH: byte := 0x01
  const EOT: byte := 0x04
  const ACK: byte := 0x06
  const NAK: byte := 0x15
  const CAN: byte := 0x18
  const CCC: byte := 0x43
  const NEWLINE: byte := 0x0A
  const SUB: byte := 0x1A

  const BLOCK: nat := 128
  const PACKET_LEN: nat := 133
  const TIMEOUT: int := 3
  const MAX_ATTEMPTS: nat := 16

  const ERROR_TIMEOUT: int := -2
  const ERROR_CANCELED: int := -3
  const ERROR_ATTEMPTS: int := -4

  // ---------------------------------------------------------------- packets

  function Padding(n: nat): (s: seq<byte>)
    ensures |s| == n
  {
    seq(n, i => SUB)
  }

  /** A chunk filled up to a whole block. */
  function Block(chunk: seq<byte>): (s: seq<byte>)
    requires |chunk| <= BLOCK
    ensures |s| == BLOCK
  {
    chunk + Padding(BLOCK - |chunk|)
  }

  function Packet(num: byte, chunk: seq<byte>): (s: seq<byte>)
    requires |chunk| <= BLOCK
    ensures |s| == PACKET_LEN
  {
    [SOH, num, 0xff - num] + Block(chunk) + ChecksumBytes(Crc16(Block(chunk)))
  }

  datatype Decoded = Data(num: byte, block: seq<byte>) | Bad

  /** How a receiver takes a packet (section 8 of Forsberg's protocol reference). */
  function DecodePacket(s: seq<byte>): Decoded {
    if |s| == PACKET_LEN && s[0] == SOH && s[2] == !s[1] && ChecksumOf(s[131], s[132]) == Crc16(s[3..131])
    then Data(s[1], s[3..131])
    else Bad
  }

  lemma ComplementIsDifference(b: byte)
    ensures 0xff - b == !b
  {
  }

  /** Every packet the sender can build is taken by a receiver, with its number and its block. */
  lemma PacketRoundTrip(num: byte, chunk: seq<byte>)
    requires |chunk| <= BLOCK
    ensures DecodePacket(Packet(num, chunk)) == Data(num, Block(chunk))
  {
    hide Crc16, ChecksumBytes, ChecksumOf, Block;
    var s := Packet(num, chunk);
    ComplementIsDifference(num);
    ChecksumRoundTrip(Crc16(Block(chunk)));
    assert s[3..131] == Block(chunk) && s[131..] == ChecksumBytes(Crc16(Block(chunk)));
    assert s[131] == s[131..][0] && s[132] == s[131..][1];
  }

  // ---------------------------------------------------------------- the transfer, answer by answer

  datatype Status = Sending | Done | Aborted(ret: int)

  datatype Sent = Sent(num: byte, chunk: seq<byte>, answer: byte)

  /** The variables of the transfer loop; what was sent, and what was reported as progress. */
  datatype Transfer = Transfer(status: Status, offset: nat, num: nat, attempts: nat, sends: seq<Sent>,
                               reports: seq<nat>)

  const BEGIN := Transfer(Sending, 0, 1, 0, [], [])

  function Min(a: nat, b: nat): nat {
    if a < b then a else b
  }

  function ChunkAt(payload: seq<byte>, offset: nat): (s: seq<byte>)
    requires offset <= |payload|
    ensures |s| <= BLOCK
  {
    payload[offset..offset + Min(|payload| - offset, BLOCK)]
  }

  /** One turn of the loop: a packet goes out and is answered. */
  function Turn(payload: seq<byte>, x: Transfer, answer: byte): (y: Transfer)
    requires x.offset <= |payload|
    ensures y.offset <= |payload|
  {
    var chunk := ChunkAt(payload, x.offset);
    var sent := x.(sends := x.sends + [Sent(LowByte(x.num), chunk, answer)]);
    if answer == ACK then
      var offset := x.offset + |chunk|;
      sent.(offset := offset, num := (x.num + 1) % 256, attempts := 0, reports := x.reports + [offset],
            status := if offset < |payload| then Sending else Done)
    else if answer == NAK then
      sent.(attempts := x.attempts + 1,
            status := if x.attempts + 1 > MAX_ATTEMPTS then Aborted(ERROR_ATTEMPTS) else Sending)
    else if answer == CAN then sent.(status := Aborted(ERROR_CANCELED))
    else sent
  }

  /** The transfer after a sequence of answers; answers after its end change nothing. */
  function Play(payload: seq<byte>, answers: seq<byte>): (x: Transfer)
    ensures x.offset <= |payload|
  {
    if answers == [] then BEGIN
    else
      var x := Play(payload, answers[..|answers| - 1]);
      if x.status == Sending then Turn(payload, x, answers[|answers| - 1]) else x
  }

  /** All packets that went out, on the line. */
  function OnTheLine(sends: seq<Sent>): seq<byte>
    requires forall i | 0 <= i < |sends| :: |sends[i].chunk| <= BLOCK
  {
    if sends == [] then []
    else OnTheLine(sends[..|sends| - 1]) + Packet(sends[|sends| - 1].num, sends[|sends| - 1].chunk)
  }

  // ---------------------------------------------------------------- the receiver's answers

  predicate IsResponse(b: byte) {
    b == ACK || b == NAK || b == CAN || b == CCC || b == NEWLINE
  }

  /** A read that fails writes nothing that looks like an answer; it may well leave one that is there. */
  ghost predicate FailsCleanly(line: Line) {
    forall k: nat, i: nat, b: byte :: line.mishaps(k).leaves(i, b) == b || !IsResponse(line.mishaps(k).leaves(i, b))
  }

  /** What is part of the dialogue: all that is written, and the answers that are read. */
  predicate IsTalk(e: LineEvent) {
    e.Put? || (e.Got? && |e.data| == 1 && IsResponse(e.data[0]))
  }

  function Talk(log: seq<LineEvent>): seq<LineEvent> {
    if log == [] then [] else Talk(log[..|log| - 1]) + if IsTalk(log[|log| - 1]) then [log[|log| - 1]] else []
  }

  lemma TalkGoesOn(log: seq<LineEvent>, e: LineEvent)
    ensures Talk(log + [e]) == if IsTalk(e) then Talk(log) + [e] else Talk(log)
  {
    assert (log + [e])[..|log|] == log;
  }

  /** At most one answer, read too late to be heeded, was added. */
  predicate LateAnswer(before: seq<LineEvent>, after: seq<LineEvent>) {
    after == before || (|after| > 0 && after[|after| - 1].Got? && after[..|after| - 1] == before)
  }

  /** The first answer in s, or the length when there is none. */
  function FirstAnswer(s: seq<byte>): (k: nat)
    ensures k <= |s| && (forall i | 0 <= i < k :: !IsResponse(s[i])) && (k < |s| ==> IsResponse(s[k]))
  {
    if s == [] || IsResponse(s[0]) then 0 else 1 + FirstAnswer(s[1..])
  }

  function Elapsed(clock: nat -> Reading, i: nat, j: nat): int {
    DiffTime(Time(clock(i).sec, clock(i).nsec), Time(clock(j).sec, clock(j).nsec))
  }

  /** From reading `from` up to `to` less than 3 seconds pass. */
  ghost predicate Brief(clock: nat -> Reading, from: nat, to: nat) {
    forall j: nat | from <= j <= to :: Elapsed(clock, from, j) < 3
  }

  /** Nor between readings `first` and `last`. */
  ghost predicate KeptWaiting(clock: nat -> Reading, first: nat, last: nat) {
    forall j: nat | first < j < last :: Elapsed(clock, first, j) < 3
  }

  lemma KeepsWaiting(clock: nat -> Reading, first: nat, last: nat)
    ensures KeptWaiting(clock, first, first + 1)
    ensures KeptWaiting(clock, first, last + 1) ==> KeptWaiting(clock, first, last)
    ensures KeptWaiting(clock, first, last) && Elapsed(clock, first, last) < 3 ==> KeptWaiting(clock, first, last + 1)
  {
  }

  lemma BriefAt(clock: nat -> Reading, from: nat, to: nat, j: nat)
    requires Brief(clock, from, to) && from <= j <= to
    ensures Elapsed(clock, from, j) < 3
  {
  }

  /** A wait that began with reading `first` ended with reading `last`: in time with an answer, or because 3
      seconds were over, or with the result of a read that failed for another reason than that nothing came. */
  ghost predicate AnswerOrEnd(line: Line, first: nat, last: int, ret: int)
    reads line
  {
    && first <= last
    && KeptWaiting(line.clock, first, last)
    && (ret == 0 ==> first < last && Elapsed(line.clock, first, last) < 3)
    && (ret < 0 ==>
          || (ret == -2 && first < last && Elapsed(line.clock, first, last) >= 3)
          || (ret < -1 && |line.log| > 0 && line.log[|line.log| - 1].Failed?
              && ret == line.mishaps(|line.log| - 1).ret))
  }

  /** One byte into the cell: it comes off the line, or the read fails and leaves no new answer. */
  method ReadAnswer(line: Line, cell: array<byte>) returns (ret: int)
    requires line.Valid() && FailsCleanly(line) && cell.Length == 1
    modifies line`rx, line`log, cell
    ensures line.log == old(line.log) + [if ret >= 0 then Got([cell[0]]) else Failed(1)]
    ensures Talk(line.log)
            == Talk(old(line.log)) + if ret >= 0 && IsResponse(cell[0]) then [Got([cell[0]])] else []
    ensures ret >= 0 ==> ret == 0 && old(line.rx) != [] && cell[0] == old(line.rx)[0] && line.rx == old(line.rx)[1..]
    ensures ret < 0 ==>
              && ret == line.mishaps(|old(line.log)|).ret
              && (cell[0] == old(cell[0]) || !IsResponse(cell[0])) && |line.rx| <= |old(line.rx)|
    ensures !line.mishaps(|old(line.log)|).strikes && old(line.rx) != [] ==> ret >= 0
  {
    hide Talk, Advances;
    ret := line.Read(cell, 0, 1);
    assert cell[0..1] == [cell[0]];
    assert ret >= 0 ==> cell[0] == cell[0..1][0];
    TalkGoesOn(old(line.log), if ret >= 0 then Got([cell[0]]) else Failed(1));
  }

  lemma Deadline(clock: nat -> Reading, sec: int) returns (n: nat)
    requires Advances(clock)
    ensures PastFrom(clock, n, sec)
  {
    assert Passes(clock, sec);
    n :| PastFrom(clock, n, sec);
  }

  lemma PastAt(clock: nat -> Reading, n: nat, sec: int, j: nat)
    requires PastFrom(clock, n, sec)
    ensures j >= n ==> clock(j).sec > sec
  {
  }

  /** ll_difftime_from_now(start) >= TIMEOUT, for a start at reading `first`. */
  method TimeIsUp(line: Line, start: Time, ghost first: nat) returns (up: bool)
    requires start == Time(line.clock(first).sec, line.clock(first).nsec)
    modifies line`clocks
    ensures line.clocks == old(line.clocks) + 1
    ensures up <==> Elapsed(line.clock, first, old(line.clocks)) >= 3
    ensures line.clock(old(line.clocks)).sec > start.sec + 3 ==> up
  {
    var now := line.GetTime();
    var elapsed := ComputeDiffTime(start, Time(now.sec, now.nsec));
    up := elapsed >= TIMEOUT;
  }

  /** An answer in the cell: fresh off the line, or the old one. */
  predicate Answered(before: seq<LineEvent>, after: seq<LineEvent>, was: byte, now: byte) {
    && IsResponse(now)
    && (after == before || after == before + [Got([now])])
    && (after == before ==> now == was)
  }

  /** One turn of the loop of ll_xmodem_get_client_response, in a wait that began with reading `first`. */
  method TakeTurn(line: Line, cell: array<byte>, start: Time, ghost first: nat) returns (ended: bool, ret: int)
    requires line.Valid() && FailsCleanly(line) && cell.Length == 1
    requires line.clocks > first && start == Time(line.clock(first).sec, line.clock(first).nsec)
    requires KeptWaiting(line.clock, first, line.clocks)
    modifies line`rx, line`log, line`clocks, cell
    ensures old(line.log) <= line.log && |line.log| == |old(line.log)| + 1 && |line.rx| <= |old(line.rx)|
    ensures line.clocks >= old(line.clocks)
    ensures if ended then ret <= 0 && AnswerOrEnd(line, first, line.clocks - 1, ret)
            else
              && line.clocks == old(line.clocks) + 1 && KeptWaiting(line.clock, first, line.clocks)
              && !IsResponse(cell[0]) && Talk(line.log) == Talk(old(line.log))
    ensures LateAnswer(Talk(old(line.log)), Talk(line.log))
    ensures ended && ret == 0 ==> Answered(Talk(old(line.log)), Talk(line.log), old(cell[0]), cell[0])
    ensures Talk(line.log) != Talk(old(line.log)) ==> |line.rx| < |old(line.rx)| && Latest(line.log, cell[0])
    ensures line.clock(old(line.clocks)).sec > start.sec + 3 ==> ended
    ensures !line.mishaps(|old(line.log)|).strikes && old(line.rx) != []
            && Elapsed(line.clock, first, old(line.clocks)) < 3 ==>
              && line.clocks == old(line.clocks) + 1
              && cell[0] == old(line.rx)[0] && line.rx == old(line.rx)[1..]
              && ended == IsResponse(cell[0]) && (ended ==> ret == 0)
  {
    hide Talk, FailsCleanly, KeptWaiting, Advances, Elapsed;
    KeepsWaiting(line.clock, first, line.clocks);
    KeepsWaiting(line.clock, first, line.clocks - 1);
    ret := ReadAnswer(line, cell);
    if ret < -1 {
      return true, ret;
    }
    var up := TimeIsUp(line, start, first);
    if up {
      return true, ERROR_TIMEOUT;
    }
    ended := IsResponse(cell[0]);
    ret := 0;
  }

  /** The loop of ll_xmodem_get_client_response: 0 and one of the five answers in the caller's cell, or an error. The
      answer was taken off the line, or it is the old one that a failed read left in the cell. An answer that
      is on the line is taken, with what stands before it, if it can be read in time. */
  method AwaitAnswer(line: Line, cell: array<byte>) returns (ret: int)
    requires line.Valid() && FailsCleanly(line) && cell.Length == 1
    modifies line`rx, line`log, line`clocks, cell
    ensures ret <= 0
    ensures ret == 0 ==>
              && IsResponse(cell[0])
              && if Talk(line.log) == Talk(old(line.log)) then cell[0] == old(cell[0])
                 else
                   && Talk(line.log) == Talk(old(line.log)) + [Got([cell[0]])]
                   && |line.rx| < |old(line.rx)| && Latest(line.log, cell[0])
    ensures LateAnswer(Talk(old(line.log)), Talk(line.log))
    ensures |line.rx| <= |old(line.rx)| && line.clocks >= old(line.clocks) && old(line.log) <= line.log
    ensures AnswerOrEnd(line, old(line.clocks), line.clocks - 1, ret)
    ensures var k := FirstAnswer(old(line.rx));
            old(Spared(line, FirstAnswer(line.rx) + 1)) && k < |old(line.rx)|
            && Brief(line.clock, old(line.clocks), old(line.clocks) + k + 1) ==>
              && ret == 0 && cell[0] == old(line.rx)[k] && line.rx == old(line.rx)[k + 1..]
              && line.clocks == old(line.clocks) + k + 2
  {
    hide PastFrom, Talk, FirstAnswer, Elapsed, FailsCleanly, KeptWaiting, Brief, IsResponse, AnswerOrEnd, Latest;
    ghost var k := FirstAnswer(line.rx);
    ghost var first, rx := line.clocks, line.rx;
    ghost var clean := Spared(line, k + 1) && k < |rx| && Brief(line.clock, first, first + k + 1);
    ghost var taken: nat := 0;
    var began := line.GetTime();
    var start := Time(began.sec, began.nsec);
    ghost var deadline := Deadline(line.clock, start.sec + 3);
    KeepsWaiting(line.clock, first, first);
    while true
      invariant line.Valid() && FailsCleanly(line) && KeptWaiting(line.clock, first, line.clocks)
      invariant |line.rx| <= |old(line.rx)| && line.clocks > first && old(line.log) <= line.log
      invariant cell[0] == old(cell[0]) || !IsResponse(cell[0])
      invariant Talk(line.log) == Talk(old(line.log))
      invariant clean ==> taken <= k && line.rx == rx[taken..] && |line.log| == |old(line.log)| + taken
      invariant clean ==> line.clocks == first + 1 + taken
      decreases deadline - line.clocks
    {
      if clean {
        BriefAt(line.clock, first, first + k + 1, line.clocks);
      }
      PastAt(line.clock, deadline, start.sec + 3, line.clocks);
      var ended;
      ended, ret := TakeTurn(line, cell, start, first);
      if ended {
        return;
      }
      taken := taken + 1;
    }
  }

  /** ll_xmodem_get_client_response. On a line on which all goes well it takes the next answer. */
  method GetClientResponse(line: Line, cell: array<byte>) returns (ret: int)
    requires line.Valid() && FailsCleanly(line) && cell.Length == 1
    modifies line`rx, line`log, line`clocks, cell
    ensures ret <= 0
    ensures ret == 0 ==>
              && IsResponse(cell[0])
              && if Talk(line.log) == Talk(old(line.log)) then cell[0] == old(cell[0])
                 else
                   && Talk(line.log) == Talk(old(line.log)) + [Got([cell[0]])]
                   && |line.rx| < |old(line.rx)| && Latest(line.log, cell[0])
    ensures LateAnswer(Talk(old(line.log)), Talk(line.log))
    ensures |line.rx| <= |old(line.rx)| && line.clocks >= old(line.clocks) && old(line.log) <= line.log
    ensures AnswerOrEnd(line, old(line.clocks), line.clocks - 1, ret)
    ensures var k := FirstAnswer(old(line.rx));
            old(Spared(line, FirstAnswer(line.rx) + 1)) && k < |old(line.rx)|
            && Brief(line.clock, old(line.clocks), old(line.clocks) + k + 1) ==>
              && ret == 0 && cell[0] == old(line.rx)[k] && line.rx == old(line.rx)[k + 1..]
              && line.clocks == old(line.clocks) + k + 2
    ensures old(Cooperative(line)) && old(line.rx) != [] ==>
              && ret == 0 && cell[0] == old(line.rx)[0] && line.rx == old(line.rx)[1..]
              && line.clocks == old(line.clocks) + 2 && Cooperative(line)
  {
    ghost var clean := Cooperative(line) && line.rx != [];
    if clean {
      AnswerIsThere(line);
    }
    hide Cooperative, Spared, Talk, FirstAnswer, FailsCleanly, Brief, IsResponse, AnswerOrEnd, Latest;
    ret := AwaitAnswer(line, cell);
    if clean {
      StaysCooperative(line);
    }
  }

  /** The last read brought this byte. */
  predicate Latest(log: seq<LineEvent>, b: byte) {
    |log| > 0 && log[|log| - 1] == Got([b])
  }

  // ---------------------------------------------------------------- a line on which all goes well

  /** From here on nothing is struck, writes succeed, no four readings of the clock in a row are 3 seconds
      apart, and the line holds nothing but answers. */
  ghost predicate Cooperative(line: Line)
    reads line
  {
    && Undisturbed(line) && Steady(line.clock, line.clocks)
    && (forall k: nat :: line.writeResults(k) >= 0)
    && AllAnswers(line.rx)
  }

  ghost predicate Steady(clock: nat -> Reading, from: nat) {
    forall i: nat, j: nat | from <= i <= j <= i + 3 :: Elapsed(clock, i, j) < 3
  }

  ghost predicate AllAnswers(s: seq<byte>) {
    forall i | 0 <= i < |s| :: IsResponse(s[i])
  }

  lemma FirstIsAnswer(s: seq<byte>)
    requires AllAnswers(s) && s != []
    ensures FirstAnswer(s) == 0 && AllAnswers(s[1..])
  {
  }

  lemma SteadyIsBrief(clock: nat -> Reading, from: nat, i: nat)
    requires Steady(clock, from) && i >= from
    ensures Brief(clock, i, i + 1) && Elapsed(clock, i, i + 3) < 3 && Steady(clock, i)
  {
  }

  lemma WillingLine(line: Line)
    requires Cooperative(line)
    ensures AllAnswers(line.rx) && Steady(line.clock, line.clocks) && forall k: nat :: line.writeResults(k) >= 0
  {
  }

  twostate lemma StaysCooperative(line: Line)
    requires old(Cooperative(line)) && |old(line.log)| <= |line.log| && old(line.clocks) <= line.clocks
    requires AllAnswers(line.rx)
    ensures Cooperative(line)
  {
    hide Elapsed, AllAnswers;
  }

  /** The caller of GetClientResponse on such a line. */
  lemma AnswerIsThere(line: Line)
    requires Cooperative(line) && line.rx != []
    ensures Spared(line, FirstAnswer(line.rx) + 1) && FirstAnswer(line.rx) == 0 && AllAnswers(line.rx[1..])
    ensures Brief(line.clock, line.clocks, line.clocks + FirstAnswer(line.rx) + 1)
  {
    hide Brief, AllAnswers, Steady;
    FirstIsAnswer(line.rx);
    SteadyIsBrief(line.clock, line.clocks, line.clocks);
  }

  // ---------------------------------------------------------------- sending

  datatype Outcome = Failure(ret: int) | Answer(b: byte)

  /** The packet of ll_xmodem_send_packet before its CRC: header, data and padding, filled in place. */
  method FillPacket(payload: array<byte>, from: nat, len: nat, num: byte) returns (packet: array<byte>)
    requires from + len <= payload.Length && len <= BLOCK
    ensures fresh(packet) && packet.Length == PACKET_LEN
    ensures packet[..3] == [SOH, num, 0xff - num] && packet[3..131] == Block(payload[from..from + len])
  {
    packet := new byte[PACKET_LEN](i => SUB);
    packet[0] := SOH;
    packet[1] := num;
    packet[2] := 0xff - num;
    for i := 0 to len
      invariant packet[..3] == [SOH, num, 0xff - num]
      invariant packet[3..3 + i] == payload[from..from + i]
      invariant forall j | 3 + i <= j < PACKET_LEN :: packet[j] == SUB
    {
      packet[3 + i] := payload[from + i];
    }
    SplitAt(packet[..], 3, 3 + len, 131);
    assert packet[..][3..131] == packet[3..131] && packet[..][3..3 + len] == packet[3..3 + len];
    assert packet[..][3 + len..131] == Padding(BLOCK - len);
  }

  /** The whole packet, with the CRC of its 128 data bytes. */
  method BuildPacket(payload: array<byte>, from: nat, len: nat, num: byte) returns (packet: array<byte>)
    requires from + len <= payload.Length && len <= BLOCK
    ensures fresh(packet) && packet[..] == Packet(num, payload[from..from + len])
  {
    hide ChecksumBytes, Crc16, Block;
    packet := FillPacket(payload, from, len, num);
    var crc := ComputeCrc16(packet, 3, BLOCK, true);
    assert packet[3..3 + BLOCK] == packet[3..131];
    packet[132] := ChecksumBytes(crc)[1];
    packet[131] := ChecksumBytes(crc)[0];
    assert packet[..] == packet[..3] + packet[3..131] + [packet[131], packet[132]];
  }

  /** ll_xmodem_send_packet */
  method SendPacket(line: Line, payload: array<byte>, from: nat, len: nat, num: byte) returns (r: Outcome)
    requires line.Valid() && FailsCleanly(line)
    requires from + len <= payload.Length && len <= BLOCK
    modifies line`rx, line`tx, line`log, line`clocks
    ensures line.tx == old(line.tx) + Packet(num, payload[from..from + len])
    ensures |line.rx| <= |old(line.rx)|
    ensures var asked := Talk(old(line.log)) + [Put(Packet(num, payload[from..from + len]))];
            && LateAnswer(asked, Talk(line.log))
            && (r.Answer? ==> Talk(line.log) == asked + [Got([r.b])])
    ensures r.Answer? ==> IsResponse(r.b) && |line.rx| < |old(line.rx)| && Latest(line.log, r.b)
    ensures r.Failure? ==> r.ret < 0
    ensures old(Cooperative(line)) && old(line.rx) != [] ==>
              r == Answer(old(line.rx)[0]) && line.rx == old(line.rx)[1..] && Cooperative(line)
  {
    hide Packet, Talk, Brief, FirstAnswer, FailsCleanly, AnswerOrEnd, Latest, Spared, Cooperative;
    ghost var clean := Cooperative(line) && line.rx != [];
    if clean {
      WillingLine(line);
    }
    var packet := BuildPacket(payload, from, len, num);
    var ret := line.Write(packet[..]);
    TalkGoesOn(old(line.log), Put(packet[..]));
    if ret < 0 {
      return Failure(ret);
    }
    var response := new byte[1](i => 0);
    if clean {
      StaysCooperative(line);
    }
    ret := GetClientResponse(line, response);
    r := if ret < 0 then Failure(ret) else Answer(response[0]);
  }

  /** The packets of a transfer fit in their blocks. */
  ghost predicate ChunksFit(sends: seq<Sent>) {
    forall i | 0 <= i < |sends| :: |sends[i].chunk| <= BLOCK
  }

  lemma TurnSends(payload: seq<byte>, x: Transfer, answer: byte)
    requires x.status == Sending && x.offset < |payload| && ChunksFit(x.sends)
    ensures var y := Turn(payload, x, answer);
            && ChunksFit(y.sends)
            && OnTheLine(y.sends) == OnTheLine(x.sends) + Packet(LowByte(x.num), ChunkAt(payload, x.offset))
            && (y.status == Sending ==> y.offset < |payload|)
  {
    hide Packet, LowByte;
    var y := Turn(payload, x, answer);
    assert y.sends[..|y.sends| - 1] == x.sends;
  }

  lemma PlayOneMore(payload: seq<byte>, answers: seq<byte>, answer: byte)
    requires Play(payload, answers).status == Sending
    ensures Play(payload, answers + [answer]) == Turn(payload, Play(payload, answers), answer)
  {
    hide Turn;
    assert (answers + [answer])[..|answers|] == answers;
  }

  /** A transfer as the line saw it: packet, answer, packet, answer. */
  function TalkOf(sends: seq<Sent>): seq<LineEvent>
    requires ChunksFit(sends)
  {
    if sends == [] then []
    else
      var s := sends[|sends| - 1];
      TalkOf(sends[..|sends| - 1]) + [Put(Packet(s.num, s.chunk)), Got([s.answer])]
  }

  lemma TurnTalks(payload: seq<byte>, x: Transfer, answer: byte)
    requires x.status == Sending && x.offset < |payload| && ChunksFit(x.sends)
    ensures var y := Turn(payload, x, answer);
            ChunksFit(y.sends) && TalkOf(y.sends) == TalkOf(x.sends) + [Put(NextPacket(payload, x)), Got([answer])]
  {
    hide Packet, LowByte;
    var y := Turn(payload, x, answer);
    assert y.sends[..|y.sends| - 1] == x.sends;
  }

  /** The packet that is due. */
  function NextPacket(payload: seq<byte>, x: Transfer): seq<byte>
    requires x.offset <= |payload|
  {
    Packet(LowByte(x.num), ChunkAt(payload, x.offset))
  }

  lemma OneMoreHeard(rx: seq<byte>, answers: seq<byte>, rest: seq<byte>, r: Outcome, after: seq<byte>)
    requires rx == answers + rest && (r.Answer? ==> rest != [])
    requires rest != [] ==> r == Answer(rest[0]) && after == rest[1..]
    ensures if r.Answer? then rx == answers + [r.b] + after else rx == answers
  {
  }

  /** The data loop of ll_xmodem_send. It plays the transfer for the answers that the line gave, one to each
      packet that it had just put there; when it fails, one packet more went out for which no answer came in
      time. */
  method SendPayload(line: Line, payload: array<byte>, len: nat)
    returns (ret: int, reports: seq<nat>, ghost x: Transfer, ghost answers: seq<byte>)
    requires line.Valid() && FailsCleanly(line) && 1 <= len <= payload.Length
    modifies line`rx, line`tx, line`log, line`clocks
    ensures x == Play(payload[..len], answers) && ChunksFit(x.sends) && reports == x.reports
    ensures |answers| == |x.sends| && forall i | 0 <= i < |answers| :: IsResponse(answers[i])
    ensures ret <= 0
    ensures ret == 0 <==> x.status == Done
    ensures ret < 0 ==> x.status == Sending || x.status == Aborted(ret)
    ensures var talk := Talk(old(line.log)) + TalkOf(x.sends);
            if x.status == Sending then LateAnswer(talk + [Put(NextPacket(payload[..len], x))], Talk(line.log))
            else Talk(line.log) == talk
    ensures line.tx == old(line.tx) + OnTheLine(x.sends)
                       + if x.status == Sending then NextPacket(payload[..len], x) else []
    ensures old(Cooperative(line)) ==>
              if x.status == Sending then old(line.rx) == answers
              else Cooperative(line) && old(line.rx) == answers + line.rx
  {
    hide Packet, OnTheLine, LowByte, Play, Talk, TalkOf, Cooperative, FailsCleanly, IsResponse;
    ghost var clean, rx := Cooperative(line), line.rx;
    ghost var data := payload[..len];
    var offset, packetNumber, attempts: nat := 0, 1, 0;
    reports := [];
    x, answers := BEGIN, [];
    NothingSent(data);
    while offset < len
      invariant line.Valid() && FailsCleanly(line)
      invariant x == Play(data, answers) && ChunksFit(x.sends) && |answers| == |x.sends|
      invariant x.offset == offset && x.num == packetNumber && x.attempts == attempts && x.reports == reports
      invariant x.status == if offset < len then Sending else Done
      invariant forall i | 0 <= i < |answers| :: IsResponse(answers[i])
      invariant line.tx == old(line.tx) + OnTheLine(x.sends)
      invariant Talk(line.log) == Talk(old(line.log)) + TalkOf(x.sends)
      invariant clean ==> Cooperative(line) && rx == answers + line.rx
      decreases |line.rx|
    {
      var bytesToSend := if len - offset > BLOCK then BLOCK else len - offset;
      assert payload[offset..offset + bytesToSend] == ChunkAt(data, offset);
      ghost var rest := line.rx;
      var r := SendPacket(line, payload, offset, bytesToSend, LowByte(packetNumber));
      if clean {
        OneMoreHeard(rx, answers, rest, r, line.rx);
      }
      if r.Failure? {
        return r.ret, reports, x, answers;
      }
      TurnSends(data, x, r.b);
      TurnTalks(data, x, r.b);
      PlayOneMore(data, answers, r.b);
      x, answers := Turn(data, x, r.b), answers + [r.b];
      if r.b == ACK {
        offset := offset + bytesToSend;
        packetNumber := (packetNumber + 1) % 256;
        attempts := 0;
        reports := reports + [offset];
      } else if r.b == NAK {
        attempts := attempts + 1;
        if attempts > MAX_ATTEMPTS {
          return ERROR_ATTEMPTS, reports, x, answers;
        }
      } else if r.b == CAN {
        return ERROR_CANCELED, reports, x, answers;
      }
    }
    ret := 0;
  }

  lemma NothingSent(payload: seq<byte>)
    ensures OnTheLine([]) == [] && ChunksFit([]) && TalkOf([]) == [] && Play(payload, []) == BEGIN
  {
  }

  /** Answers other than this one, and nothing written. */
  predicate PassedOver(talk: seq<LineEvent>, wanted: byte) {
    forall i | 0 <= i < |talk| :: talk[i].Got? && talk[i] != Got([wanted])
  }

  lemma NothingPassed(wanted: byte)
    ensures PassedOver([], wanted)
  {
  }

  lemma PassesOver(start: seq<LineEvent>, skipped: seq<LineEvent>, before: seq<LineEvent>, b: byte, wanted: byte)
    requires PassedOver(skipped, wanted) && before == start + skipped && b != wanted
    ensures PassedOver(skipped + [Got([b])], wanted) && before + [Got([b])] == start + (skipped + [Got([b])])
  {
  }

  /** ll_xmodem_wait_for: passes over answers until the wanted one comes off the line. */
  method WaitFor(line: Line, wanted: byte) returns (ret: int, ghost skipped: seq<LineEvent>)
    requires line.Valid() && FailsCleanly(line) && IsResponse(wanted)
    modifies line`rx, line`log, line`clocks
    ensures ret <= 0 && |line.rx| <= |old(line.rx)|
    ensures ret == 0 ==>
              && PassedOver(skipped, wanted)
              && Talk(line.log) == Talk(old(line.log)) + skipped + [Got([wanted])]
              && |line.rx| < |old(line.rx)| && Latest(line.log, wanted)
    ensures old(Cooperative(line)) && old(line.rx) != [] && old(line.rx)[0] == wanted ==>
              ret == 0 && line.rx == old(line.rx)[1..] && Cooperative(line)
  {
    hide PastFrom, LateAnswer, Talk, PassedOver, Latest, Cooperative, FailsCleanly, AnswerOrEnd, FirstAnswer, Spared,
      Brief, Steady, Elapsed;
    ghost var first, clean := line.clocks, Cooperative(line) && line.rx != [] && line.rx[0] == wanted;
    if clean {
      WillingLine(line);
      SteadyIsBrief(line.clock, first, first);
    }
    assert PassedOver([], wanted) by { NothingPassed(wanted); }
    var began := line.GetTime();
    var start := Time(began.sec, began.nsec);
    ghost var deadline := Deadline(line.clock, start.sec + 3);
    var res := new byte[1](i => 0);
    if clean {
      StaysCooperative(line);
    }
    skipped := [];
    while true
      invariant line.Valid() && FailsCleanly(line) && |line.rx| <= |old(line.rx)|
      invariant res[0] != wanted && old(line.log) <= line.log && old(line.clocks) <= line.clocks
      invariant clean ==> line.rx == old(line.rx) && Cooperative(line) && line.clocks == first + 1
      invariant PassedOver(skipped, wanted) && Talk(line.log) == Talk(old(line.log)) + skipped
      decreases deadline - line.clocks
    {
      ghost var before := Talk(line.log);
      ret := GetClientResponse(line, res);
      if ret < 0 {
        return;
      }
      PastAt(line.clock, deadline, start.sec + 3, line.clocks);
      var up := TimeIsUp(line, start, old(line.clocks));
      if up {
        return ERROR_TIMEOUT, skipped;
      }
      if res[0] == wanted {
        if clean {
          StaysCooperative(line);
        }
        return 0, skipped;
      }
      if Talk(line.log) != before {
        PassesOver(Talk(old(line.log)), skipped, before, res[0], wanted);
        skipped := skipped + [Got([res[0]])];
      }
    }
  }

  function Repeated(b: byte, n: nat): seq<byte> {
    seq(n, i => b)
  }

  /** The byte, and again and again, with answers other than an acknowledgement in between. */
  predicate Insists(talk: seq<LineEvent>, b: byte) {
    && (talk != [] ==> talk[0] == Put([b]))
    && forall i | 0 <= i < |talk| :: talk[i] == Put([b]) || (talk[i].Got? && talk[i] != Got([ACK]))
  }

  lemma NothingInsists(b: byte)
    ensures Insists([], b)
  {
  }

  /** One more turn of insisting, from `before` to `after`, when it brought no acknowledgement. */
  lemma InsistsOnce(start: seq<LineEvent>, talk: seq<LineEvent>, before: seq<LineEvent>, turn: seq<LineEvent>,
                    after: seq<LineEvent>, b: byte, answer: byte)
    requires Insists(talk, b) && before == start + talk && after == before + turn && answer != ACK
    requires turn == [Put([b])] || turn == [Put([b]), Got([answer])]
    ensures Insists(talk + turn, b) && after == start + (talk + turn)
  {
  }

  /** And when it did. */
  lemma InsistsToTheEnd(start: seq<LineEvent>, talk: seq<LineEvent>, before: seq<LineEvent>, after: seq<LineEvent>,
                        b: byte)
    requires Insists(talk, b) && before == start + talk && after == before + [Put([b]), Got([ACK])]
    ensures Insists(talk + [Put([b])], b) && after == start + (talk + [Put([b])]) + [Got([ACK])]
  {
  }

  lemma OnceMore(b: byte, n: nat)
    ensures Repeated(b, 0) == [] && Repeated(b, n + 1) == Repeated(b, n) + [b]
  {
  }

  /** One turn of the loop of ll_xmodem_send_byte. */
  method Prompt(line: Line, cell: array<byte>, response: array<byte>, start: Time, ghost first: nat)
    returns (ret: int, up: bool, ghost turn: seq<LineEvent>)
    requires start == Time(line.clock(first).sec, line.clock(first).nsec)
    requires line.Valid() && FailsCleanly(line) && cell.Length == response.Length == 1 && cell != response
    modifies line`rx, line`tx, line`log, line`clocks, response
    ensures line.tx == old(line.tx) + cell[..] && line.clocks >= old(line.clocks) && |line.rx| <= |old(line.rx)|
    ensures turn == [Put(cell[..])] || turn == [Put(cell[..]), Got([response[0]])]
    ensures ret >= 0 ==>
              && Talk(line.log) == Talk(old(line.log)) + turn
              && if |turn| == 1 then response[0] == old(response[0])
                 else |line.rx| < |old(line.rx)| && Latest(line.log, response[0])
    ensures old(Cooperative(line)) && old(line.rx) != [] ==>
              && ret == 0 && response[0] == old(line.rx)[0] && line.rx == old(line.rx)[1..]
              && (Elapsed(line.clock, first, old(line.clocks) + 2) < 3 ==> !up)
    ensures ret >= 0 && !up ==> line.clocks > old(line.clocks) && line.clock(line.clocks - 1).sec <= start.sec + 3
  {
    hide Elapsed, Talk, Cooperative, FailsCleanly, AnswerOrEnd, FirstAnswer, Spared, Brief;
    ghost var clean := Cooperative(line) && line.rx != [];
    if clean {
      WillingLine(line);
    }
    turn, up := [Put(cell[..])], false;
    ret := line.Write(cell[..]);
    TalkGoesOn(old(line.log), Put(cell[..]));
    if ret < 0 {
      return;
    }
    if clean {
      StaysCooperative(line);
    }
    ghost var before := Talk(line.log);
    ret := GetClientResponse(line, response);
    if ret < 0 {
      return;
    }
    if Talk(line.log) != before {
      turn := turn + [Got([response[0]])];
    }
    up := TimeIsUp(line, start, first);
  }

  /** ll_xmodem_send_byte: sends the byte until an acknowledgement comes off the line. */
  method SendByte(line: Line, b: byte) returns (ret: int, ghost times: nat, ghost talk: seq<LineEvent>)
    requires line.Valid() && FailsCleanly(line)
    modifies line`rx, line`tx, line`log, line`clocks
    ensures line.tx == old(line.tx) + Repeated(b, times) && times > 0
    ensures ret >= 0 ==>
              && ret == ToNat(ACK) && Latest(line.log, ACK) && |line.rx| < |old(line.rx)|
              && Insists(talk, b) && talk != []
              && Talk(line.log) == Talk(old(line.log)) + talk + [Got([ACK])]
    ensures old(Cooperative(line)) && old(line.rx) != [] && old(line.rx)[0] == ACK ==>
              ret >= 0 && line.rx == old(line.rx)[1..] && times == 1
  {
    hide PastFrom, IsResponse, LateAnswer, AnswerOrEnd, FirstAnswer, Spared, Talk, Insists, Repeated, Latest, ToNat,
      Cooperative, FailsCleanly, Steady, Elapsed, Brief;
    ghost var first, clean := line.clocks, Cooperative(line) && line.rx != [] && line.rx[0] == ACK;
    if clean {
      WillingLine(line);
      SteadyIsBrief(line.clock, first, first);
    }
    var began := line.GetTime();
    var start := Time(began.sec, began.nsec);
    ghost var deadline := Deadline(line.clock, start.sec + 3);
    var cell := new byte[1](i => b);
    var response := new byte[1](i => 0);
    times, talk := 0, [];
    if clean {
      StaysCooperative(line);
    }
    NothingInsists(b);
    OnceMore(b, 0);
    while true
      invariant line.Valid() && FailsCleanly(line) && |line.rx| <= |old(line.rx)|
      invariant cell[..] == [b] && line.tx == old(line.tx) + Repeated(b, times)
      invariant response[0] != ACK
      invariant clean ==> line.rx == old(line.rx) && Cooperative(line) && line.clocks == first + 1 && times == 0
      invariant Insists(talk, b) && Talk(line.log) == Talk(old(line.log)) + talk
      decreases deadline - line.clocks
    {
      ghost var before := Talk(line.log);
      var up;
      ghost var turn;
      ret, up, turn := Prompt(line, cell, response, start, old(line.clocks));
      OnceMore(b, times);
      times := times + 1;
      if ret < 0 {
        return;
      }
      if up {
        return ERROR_TIMEOUT, times, talk;
      }
      PastAt(line.clock, deadline, start.sec + 3, line.clocks - 1);
      if response[0] == ACK {
        InsistsToTheEnd(Talk(old(line.log)), talk, before, Talk(line.log), b);
        return ToNat(response[0]), times, talk + [Put([b])];
      }
      InsistsOnce(Talk(old(line.log)), talk, before, turn, Talk(line.log), b, response[0]);
      talk := talk + turn;
    }
  }

  /** What the line saw of a complete transfer: answers until the start signal, each packet with its answer,
      and the end until it was acknowledged. */
  ghost predicate WholeDialogue(talk: seq<LineEvent>, sends: seq<Sent>)
    requires ChunksFit(sends)
  {
    exists skipped: seq<LineEvent>, ending: seq<LineEvent> ::
      && PassedOver(skipped, 0x43) && Insists(ending, 0x04) && ending != []
      && talk == skipped + [Got([0x43])] + TalkOf(sends) + ending + [Got([0x06])]
  }

  /** A receiver with these answers, one to each packet, gets the whole payload. */
  predicate Completes(payload: seq<byte>, answers: seq<byte>) {
    Play(payload, answers).status == Done && |Play(payload, answers).sends| == |answers|
  }

  lemma {:induction false} EndedStays(payload: seq<byte>, answers: seq<byte>, more: seq<byte>)
    requires Play(payload, answers).status != Sending
    ensures Play(payload, answers + more) == Play(payload, answers)
  {
    if more == [] {
      assert answers + more == answers;
    } else {
      EndedStays(payload, answers, more[..|more| - 1]);
      assert (answers + more)[..|answers + more| - 1] == answers + more[..|more| - 1];
    }
  }

  /** A transfer that consumes the bytes of script + rest one by one ends with script, if that completes it. */
  lemma PlaysTheScript(payload: seq<byte>, script: seq<byte>, rest: seq<byte>, answers: seq<byte>, left: seq<byte>)
    requires Completes(payload, script)
    requires var x := Play(payload, answers);
             && |x.sends| == |answers|
             && if x.status == Sending then script + rest == answers else script + rest == answers + left
    ensures Play(payload, answers).status == Done && answers == script && left == rest
  {
    hide Play;
    var x := Play(payload, answers);
    if |answers| >= |script| {
      var more := answers[|script|..];
      assert answers == script + more by { assert answers[..|script|] == (script + rest)[..|script|]; }
      EndedStays(payload, script, more);
      assert more == [];
    } else {
      var more := script[|answers|..];
      assert script == answers + more by { assert script[..|answers|] == (script + rest)[..|answers|]; }
      EndedStays(payload, answers, more);
    }
    assert left == (script + rest)[|script|..];
  }

  /** On the line stand the start signal, answers that complete the transfer, and an acknowledgement. */
  predicate PromisesAll(rx: seq<byte>, payload: array?<byte>, len: nat)
    requires payload != null ==> len <= payload.Length
    reads payload
  {
    && payload != null && len >= 1
    && |rx| >= 2 && rx[0] == 0x43 && rx[|rx| - 1] == 0x06
    && Completes(payload[..len], rx[1..|rx| - 1])
  }

  /** ll_xmodem_send up to the end of transmission: the receiver asked for the transfer, took every block and
      acknowledged the end, and nothing but the packets and the end went out. */
  method Send(line: Line, payload: array?<byte>, len: nat)
    returns (ret: int, reports: seq<nat>, ghost x: Transfer, ghost answers: seq<byte>, ghost ends: nat)
    requires line.Valid() && FailsCleanly(line)
    requires payload != null ==> len <= payload.Length
    modifies line`rx, line`tx, line`log, line`clocks
    ensures payload == null || len < 1 ==> ret == -101 && line.tx == old(line.tx)
    ensures ret >= 0 ==>
              && payload != null && x.status == Done && reports == x.reports
              && x == Play(payload[..len], answers) && ChunksFit(x.sends) && |answers| == |x.sends|
              && ends > 0 && Latest(line.log, ACK)
              && line.tx == old(line.tx) + OnTheLine(x.sends) + Repeated(0x04, ends)
              && Talk(old(line.log)) <= Talk(line.log)
              && WholeDialogue(Talk(line.log)[|Talk(old(line.log))|..], x.sends)
    ensures old(Cooperative(line) && PromisesAll(line.rx, payload, len)) ==>
              ret >= 0 && answers == old(line.rx)[1..|old(line.rx)| - 1] && ends == 1 && line.rx == []
  {
    hide Play, OnTheLine, Repeated, Talk, TalkOf, Cooperative, FailsCleanly, PassedOver, Insists, Latest;
    ghost var rx := line.rx;
    ghost var clean := Cooperative(line) && PromisesAll(rx, payload, len);
    ghost var script := if clean then rx[1..|rx| - 1] else [];
    if clean {
      assert rx[1..] == script + [ACK];
    }
    reports, x, answers, ends := [], BEGIN, [], 0;
    if payload == null || len < 1 {
      return ERROR_INCORRECT_PARAMETER, reports, x, answers, ends;
    }
    ghost var skipped, ending;
    ret, skipped := WaitFor(line, CCC);
    if ret < 0 {
      return;
    }
    ret, reports, x, answers := SendPayload(line, payload, len);
    if clean {
      PlaysTheScript(payload[..len], script, [ACK], answers, if x.status == Sending then [ACK] else line.rx);
    }
    if ret < 0 {
      return;
    }
    ret, ends, ending := SendByte(line, EOT);
    ghost var talk := skipped + [Got([CCC])] + TalkOf(x.sends) + ending + [Got([ACK])];
    if ret >= 0 {
      assert Talk(line.log) == Talk(old(line.log)) + talk;
      assert Talk(line.log)[|Talk(old(line.log))|..] == talk;
    }
  }
}
