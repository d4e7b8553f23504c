/** What the XMODEM sender guarantees for every sequence of answers. */
module XmodemRuns {
  import opened Bytes
  import opened CyclicCheck16
  import opened HostInterface
  import opened Octets
  import opened Wire
  import opened Xmodem

  // ---------------------------------------------------------------- what was acknowledged

  /** The packets that were acknowledged, in order. */
  function Acked(sends: seq<Sent>): seq<Sent> {
    if sends == [] then []
    else Acked(sends[..|sends| - 1]) + if sends[|sends| - 1].answer == ACK then [sends[|sends| - 1]] else []
  }

  /** Their data fields, end to end. */
  function DataFields(sends: seq<Sent>): seq<byte>
    requires ChunksFit(sends)
  {
    if sends == [] then [] else DataFields(sends[..|sends| - 1]) + Block(sends[|sends| - 1].chunk)
  }

  function Blocks(len: nat): nat {
    (len + (BLOCK - 1)) / BLOCK
  }

  /** After k acknowledged packets everything below Frontier(k) is across. */
  function Frontier(payload: seq<byte>, k: nat): nat {
    Min(BLOCK * k, |payload|)
  }

  /** Numbers start at 1 and wrap around. */
  function SequenceNumber(k: nat): nat {
    (k + 1) % 256
  }

  /** Packet k carries number k + 1 modulo 256 and block k of the payload. */
  ghost predicate InSequence(payload: seq<byte>, a: seq<Sent>) {
    forall k | 0 <= k < |a| ::
      && a[k].num == LowByte(SequenceNumber(k))
      && BLOCK * k < |payload|
      && a[k].chunk == payload[BLOCK * k..Frontier(payload, k + 1)]
  }

  ghost predicate AckedInOrder(payload: seq<byte>, x: Transfer) {
    var a := Acked(x.sends);
    && |a| == |x.reports|
    && x.offset == Frontier(payload, |a|)
    && x.num == SequenceNumber(|a|)
    && ChunksFit(a)
    && InSequence(payload, a)
    && (forall k | 0 <= k < |a| :: x.reports[k] == Frontier(payload, k + 1))
    && DataFields(a) == payload[..x.offset] + Padding(BLOCK * |a| - x.offset)
    && (x.status == Done <==> x.offset == |payload|)
  }

  lemma AckedAppend(sends: seq<Sent>, s: Sent)
    ensures Acked(sends + [s]) == if s.answer == ACK then Acked(sends) + [s] else Acked(sends)
  {
    assert (sends + [s])[..|sends|] == sends;
  }

  lemma DataFieldsAppend(sends: seq<Sent>, s: Sent)
    requires ChunksFit(sends) && |s.chunk| <= BLOCK
    ensures ChunksFit(sends + [s]) && DataFields(sends + [s]) == DataFields(sends) + Block(s.chunk)
  {
    hide Block;
    assert (sends + [s])[..|sends|] == sends;
  }

  /** While data remains, what is across is whole blocks, and the next chunk starts at the next one. */
  lemma NextChunk(payload: seq<byte>, k: nat)
    requires Frontier(payload, k) < |payload|
    ensures Frontier(payload, k) == BLOCK * k
    ensures ChunkAt(payload, BLOCK * k) == payload[BLOCK * k..Frontier(payload, k + 1)]
    ensures payload[..BLOCK * k] + Padding(0) + Block(ChunkAt(payload, BLOCK * k))
            == payload[..Frontier(payload, k + 1)] + Padding(BLOCK * (k + 1) - Frontier(payload, k + 1))
  {
  }

  lemma SequenceExtends(payload: seq<byte>, a: seq<Sent>, s: Sent)
    requires InSequence(payload, a) && Frontier(payload, |a|) < |payload|
    requires s.num == LowByte(SequenceNumber(|a|)) && s.chunk == ChunkAt(payload, Frontier(payload, |a|))
    ensures InSequence(payload, a + [s])
  {
    hide LowByte, Frontier, ChunkAt;
    NextChunk(payload, |a|);
  }

  lemma DataExtends(payload: seq<byte>, a: seq<Sent>, s: Sent)
    requires ChunksFit(a) && Frontier(payload, |a|) < |payload|
    requires s.chunk == ChunkAt(payload, Frontier(payload, |a|))
    requires DataFields(a) == payload[..Frontier(payload, |a|)] + Padding(BLOCK * |a| - Frontier(payload, |a|))
    ensures ChunksFit(a + [s])
    ensures DataFields(a + [s])
            == payload[..Frontier(payload, |a| + 1)] + Padding(BLOCK * (|a| + 1) - Frontier(payload, |a| + 1))
  {
    hide DataFields, Block, Padding, Frontier, ChunkAt, ChunksFit;
    NextChunk(payload, |a|);
    DataFieldsAppend(a, s);
  }

  lemma ReportsExtend(payload: seq<byte>, reports: seq<nat>)
    requires forall k | 0 <= k < |reports| :: reports[k] == Frontier(payload, k + 1)
    ensures var more := reports + [Frontier(payload, |reports| + 1)];
            forall k | 0 <= k < |more| :: more[k] == Frontier(payload, k + 1)
  {
  }

  lemma MoreToSend(payload: seq<byte>, x: Transfer)
    requires x.status == Sending && AckedInOrder(payload, x)
    ensures x.offset < |payload|
  {
    hide Acked, DataFields, Padding, LowByte, ChunksFit, InSequence;
  }

  lemma TurnOnAck(payload: seq<byte>, x: Transfer)
    requires x.status == Sending && x.offset < |payload|
    ensures var chunk, y := ChunkAt(payload, x.offset), Turn(payload, x, ACK);
            && y.sends == x.sends + [Sent(LowByte(x.num), chunk, ACK)]
            && y.offset == x.offset + |chunk| && y.num == (x.num + 1) % 256
            && y.reports == x.reports + [x.offset + |chunk|]
            && y.status == if x.offset + |chunk| < |payload| then Sending else Done
  {
    hide ChunkAt, LowByte;
  }

  lemma AckKeepsOrder(payload: seq<byte>, x: Transfer)
    requires x.status == Sending && AckedInOrder(payload, x)
    ensures AckedInOrder(payload, Turn(payload, x, ACK))
  {
    hide Turn, Acked, DataFields, Block, Padding, LowByte, Frontier, ChunksFit, InSequence, ChunkAt, SequenceNumber;
    MoreToSend(payload, x);
    TurnOnAck(payload, x);
    var a := Acked(x.sends);
    var s := Sent(LowByte(x.num), ChunkAt(payload, x.offset), ACK);
    AckedAppend(x.sends, s);
    SequenceExtends(payload, a, s);
    DataExtends(payload, a, s);
    FrontierReached(payload, |a|);
    NextNumber(|a|);
    ReportsExtend(payload, x.reports);
  }

  lemma TurnKeepsOrder(payload: seq<byte>, x: Transfer, answer: byte)
    requires x.status == Sending && AckedInOrder(payload, x)
    ensures AckedInOrder(payload, Turn(payload, x, answer))
  {
    hide Acked, DataFields, Padding, LowByte, Frontier, ChunksFit, InSequence, ChunkAt;
    MoreToSend(payload, x);
    if answer == ACK {
      AckKeepsOrder(payload, x);
    } else {
      var s := Sent(LowByte(x.num), ChunkAt(payload, x.offset), answer);
      AckedAppend(x.sends, s);
    }
  }

  lemma NextNumber(k: nat)
    ensures (SequenceNumber(k) + 1) % 256 == SequenceNumber(k + 1)
  {
  }

  lemma FrontierReached(payload: seq<byte>, k: nat)
    requires Frontier(payload, k) < |payload|
    ensures Frontier(payload, k) + |ChunkAt(payload, Frontier(payload, k))| == Frontier(payload, k + 1)
    ensures Frontier(payload, k + 1) <= |payload|
  {
  }

  lemma {:induction false} PlayKeepsOrder(payload: seq<byte>, answers: seq<byte>)
    requires payload != []
    ensures AckedInOrder(payload, Play(payload, answers))
  {
    hide Turn, Acked, DataFields, LowByte;
    if answers == [] {
      NothingAcked(payload);
    } else {
      PlayKeepsOrder(payload, answers[..|answers| - 1]);
      var x := Play(payload, answers[..|answers| - 1]);
      hide AckedInOrder;
      if x.status == Sending {
        TurnKeepsOrder(payload, x, answers[|answers| - 1]);
      }
    }
  }

  lemma NothingAcked(payload: seq<byte>)
    requires payload != []
    ensures AckedInOrder(payload, BEGIN)
  {
  }

  /** When the transfer ends normally, the acknowledged packets number 1, 2, ... modulo 256, there is one
      for each block, their data fields are the payload and then only padding, and the progress reports
      climb strictly to the whole length. */
  lemma TransferIsComplete(payload: seq<byte>, answers: seq<byte>)
    requires payload != [] && Play(payload, answers).status == Done
    ensures var x := Play(payload, answers);
            var a := Acked(x.sends);
            && |a| == |x.reports| == Blocks(|payload|)
            && (forall k | 0 <= k < |a| :: a[k].num == LowByte((k + 1) % 256))
            && ChunksFit(a)
            && DataFields(a) == payload + Padding(BLOCK * Blocks(|payload|) - |payload|)
            && (forall i, j | 0 <= i < j < |x.reports| :: x.reports[i] < x.reports[j])
            && x.reports[|x.reports| - 1] == |payload|
  {
    hide Play, Acked, DataFields, LowByte, Padding;
    PlayKeepsOrder(payload, answers);
    var x := Play(payload, answers);
    var a := Acked(x.sends);
    assert a[|a| - 1].num == LowByte(|a| % 256);
    assert payload[..|payload|] == payload;
  }

  // ---------------------------------------------------------------- what a receiver makes of it

  /** A receiver that reads the packets off the line and takes each that carries the number it expects. */
  datatype Receiver = Receiver(expected: nat, data: seq<byte>)

  function Take(r: Receiver, packet: seq<byte>): Receiver {
    match DecodePacket(packet)
    case Data(num, block) => if ToNat(num) == r.expected then Receiver((r.expected + 1) % 256, r.data + block) else r
    case Bad => r
  }

  function TakeAll(line: seq<byte>): Receiver {
    if |line| < PACKET_LEN then Receiver(1, [])
    else Take(TakeAll(line[..|line| - PACKET_LEN]), line[|line| - PACKET_LEN..])
  }

  /** The receiver has the acknowledged blocks, and perhaps the next one if its answer did not say so. */
  ghost predicate InStep(payload: seq<byte>, x: Transfer, r: Receiver) {
    && x.num < 256 && x.offset <= |payload|
    && ChunksFit(x.sends) && ChunksFit(Acked(x.sends))
    && (|| (r.expected == x.num && r.data == DataFields(Acked(x.sends)))
        || (x.status != Done && r.expected == (x.num + 1) % 256
            && r.data == DataFields(Acked(x.sends)) + Block(ChunkAt(payload, x.offset))))
  }

  lemma TakeSent(r: Receiver, num: nat, chunk: seq<byte>)
    requires |chunk| <= BLOCK && num < 256
    ensures Take(r, Packet(LowByte(num), chunk)) ==
            if num == r.expected then Receiver((num + 1) % 256, r.data + Block(chunk)) else r
  {
    hide DecodePacket, Packet, Block, ToByte, ToNat;
    PacketRoundTrip(LowByte(num), chunk);
    ByteOfNat(num);
  }

  lemma TakeOneMore(line: seq<byte>, packet: seq<byte>)
    requires |packet| == PACKET_LEN
    ensures TakeAll(line + packet) == Take(TakeAll(line), packet)
  {
    hide Take;
    assert (line + packet)[..|line|] == line && (line + packet)[|line|..] == packet;
  }

  lemma TurnKeepsStep(payload: seq<byte>, x: Transfer, answer: byte, r: Receiver)
    requires x.status == Sending && x.offset < |payload| && InStep(payload, x, r)
    ensures InStep(payload, Turn(payload, x, answer), Take(r, Packet(LowByte(x.num), ChunkAt(payload, x.offset))))
  {
    hide Packet, Take, LowByte, Block, ChunkAt, Acked, DataFields;
    var chunk := ChunkAt(payload, x.offset);
    var s := Sent(LowByte(x.num), chunk, answer);
    TakeSent(r, x.num, chunk);
    AckedAppend(x.sends, s);
    DataFieldsAppend(Acked(x.sends), s);
  }

  lemma {:induction false} PlayKeepsStep(payload: seq<byte>, answers: seq<byte>)
    requires payload != []
    ensures ChunksFit(Play(payload, answers).sends)
    ensures InStep(payload, Play(payload, answers), TakeAll(OnTheLine(Play(payload, answers).sends)))
  {
    hide Turn, Take, Packet, LowByte, InStep, OnTheLine, TakeAll;
    if answers == [] {
      NothingTaken(payload);
    } else {
      var x := Play(payload, answers[..|answers| - 1]);
      PlayKeepsStep(payload, answers[..|answers| - 1]);
      if x.status == Sending {
        var answer := answers[|answers| - 1];
        PlayKeepsOrder(payload, answers[..|answers| - 1]);
        MoreToSend(payload, x);
        TurnSends(payload, x, answer);
        TurnKeepsStep(payload, x, answer, TakeAll(OnTheLine(x.sends)));
        TakeOneMore(OnTheLine(x.sends), Packet(LowByte(x.num), ChunkAt(payload, x.offset)));
      }
    }
  }

  lemma NothingTaken(payload: seq<byte>)
    ensures ChunksFit(BEGIN.sends) && InStep(payload, BEGIN, TakeAll(OnTheLine(BEGIN.sends)))
  {
  }

  /** When the transfer ends normally, a receiver that knows only the bytes on the line, and nothing of the
      answers, has each block once, however often it was sent: the payload, then only padding. */
  lemma ReceiverRebuildsPayload(payload: seq<byte>, answers: seq<byte>)
    requires payload != [] && Play(payload, answers).status == Done
    ensures var x := Play(payload, answers);
            && ChunksFit(x.sends)
            && TakeAll(OnTheLine(x.sends)).data == payload + Padding(BLOCK * Blocks(|payload|) - |payload|)
  {
    hide Play, TakeAll, OnTheLine, Acked, DataFields, Padding, LowByte;
    PlayKeepsStep(payload, answers);
    TransferIsComplete(payload, answers);
  }

  // ---------------------------------------------------------------- how much is sent

  /** Answers that are passed over: the start character and line ends. */
  function Ignored(sends: seq<Sent>): nat {
    if sends == [] then 0
    else
      var b := sends[|sends| - 1].answer;
      Ignored(sends[..|sends| - 1]) + if b == ACK || b == NAK || b == CAN then 0 else 1
  }

  ghost predicate Bounded(payload: seq<byte>, x: Transfer) {
    && x.offset == Frontier(payload, |x.reports|)
    && |x.reports| <= Blocks(|payload|)
    && (x.status == Done <==> x.offset == |payload|)
    && (x.status != Aborted(ERROR_ATTEMPTS) ==> x.attempts <= MAX_ATTEMPTS)
    && (x.status == Aborted(ERROR_ATTEMPTS) ==> x.attempts == MAX_ATTEMPTS + 1)
    && (x.status == Done ==> x.attempts == 0)
    && |x.sends| == |x.reports| + Retries(x.sends) + Ignored(x.sends)
                    + (if x.status == Aborted(ERROR_CANCELED) then 1 else 0)
    && Retries(x.sends) <= MAX_ATTEMPTS * |x.reports| + x.attempts
  }

  /** Packets that were refused. */
  function Retries(sends: seq<Sent>): nat {
    if sends == [] then 0
    else Retries(sends[..|sends| - 1]) + if sends[|sends| - 1].answer == NAK then 1 else 0
  }

  lemma CountsAppend(sends: seq<Sent>, s: Sent)
    ensures Retries(sends + [s]) == Retries(sends) + if s.answer == NAK then 1 else 0
    ensures Ignored(sends + [s])
            == Ignored(sends) + if s.answer == ACK || s.answer == NAK || s.answer == CAN then 0 else 1
  {
    assert (sends + [s])[..|sends|] == sends;
  }

  lemma TurnKeepsBound(payload: seq<byte>, x: Transfer, answer: byte)
    requires x.status == Sending && Bounded(payload, x)
    ensures Bounded(payload, Turn(payload, x, answer))
  {
    hide Retries, Ignored, LowByte;
    CountsAppend(x.sends, Sent(LowByte(x.num), ChunkAt(payload, x.offset), answer));
  }

  lemma {:induction false} PlayKeepsBound(payload: seq<byte>, answers: seq<byte>)
    requires payload != []
    ensures Bounded(payload, Play(payload, answers))
  {
    hide Turn, LowByte;
    if answers != [] {
      PlayKeepsBound(payload, answers[..|answers| - 1]);
      var x := Play(payload, answers[..|answers| - 1]);
      if x.status == Sending {
        TurnKeepsBound(payload, x, answers[|answers| - 1]);
      }
    }
  }

  /** At most 17 packets are sent for each block, not counting those whose answer was passed over. */
  lemma SendsAreBounded(payload: seq<byte>, answers: seq<byte>)
    requires payload != []
    ensures var x := Play(payload, answers);
            |x.sends| <= 17 * Blocks(|payload|) + Ignored(x.sends)
  {
    hide Play, Retries, Ignored;
    PlayKeepsBound(payload, answers);
    var x := Play(payload, answers);
    if x.status != Done {
      assert x.offset < |payload|;
      assert |x.reports| < Blocks(|payload|);
    }
  }

  /** Packets refused since the last one that was acknowledged, whatever else was answered in between. */
  function NaksSinceAck(sends: seq<Sent>): nat {
    if sends == [] || sends[|sends| - 1].answer == ACK then 0
    else NaksSinceAck(sends[..|sends| - 1]) + if sends[|sends| - 1].answer == NAK then 1 else 0
  }

  /** Between two acknowledgements at most sixteen refusals are borne, and it takes exactly the seventeenth to
      give up. Answers that are passed over neither count nor start the count afresh. */
  lemma {:induction false} RefusalsEndTheTransfer(payload: seq<byte>, answers: seq<byte>)
    requires payload != []
    ensures var x := Play(payload, answers);
            && x.attempts == NaksSinceAck(x.sends)
            && (x.status != Aborted(ERROR_ATTEMPTS) ==> NaksSinceAck(x.sends) <= 16)
            && (x.status == Aborted(ERROR_ATTEMPTS) <==> NaksSinceAck(x.sends) == 17)
  {
    hide LowByte;
    if answers != [] {
      var x := Play(payload, answers[..|answers| - 1]);
      RefusalsEndTheTransfer(payload, answers[..|answers| - 1]);
      if x.status == Sending {
        assert Turn(payload, x, answers[|answers| - 1]).sends[..|x.sends|] == x.sends;
      }
    }
  }

  /** Each packet sent consumes one answer, the one that is recorded with it, so a transfer on finitely many
      answers ends or waits. */
  lemma {:induction false} OneSendPerAnswer(payload: seq<byte>, answers: seq<byte>)
    ensures var x := Play(payload, answers);
            && |x.sends| <= |answers|
            && (x.status == Sending ==> |x.sends| == |answers|)
            && (forall i | 0 <= i < |x.sends| :: x.sends[i].answer == answers[i])
  {
    hide LowByte, ChunkAt;
    if answers != [] {
      OneSendPerAnswer(payload, answers[..|answers| - 1]);
    }
  }

  /** On the line each packet stands directly before its answer. */
  lemma {:induction false} TalkAlternates(sends: seq<Sent>)
    requires ChunksFit(sends)
    ensures |TalkOf(sends)| == 2 * |sends|
    ensures forall k | 0 <= k < |sends| ::
              && TalkOf(sends)[2 * k] == Put(Packet(sends[k].num, sends[k].chunk))
              && TalkOf(sends)[2 * k + 1] == Got([sends[k].answer])
  {
    hide Packet;
    if sends != [] {
      TalkAlternates(sends[..|sends| - 1]);
    }
  }

  // ---------------------------------------------------------------- in numbers

  /** Where everything stands in a packet. */
  lemma PacketLayout(num: byte, chunk: seq<byte>)
    requires |chunk| <= 128
    ensures var p := Packet(num, chunk);
            && |p| == 133 && p[0] == 0x01 && p[1] == num && p[2] == !num
            && p[3..3 + |chunk|] == chunk
            && (forall i | 3 + |chunk| <= i < 131 :: p[i] == 0x1A)
            && var c := Crc16(p[3..131]);
            && p[131] == (c >> 8) as byte && p[132] == (c & 0xff) as byte
  {
    hide Crc16, ChecksumBytes;
    ComplementIsDifference(num);
    var p, c := Packet(num, chunk), Crc16(Block(chunk));
    assert p[3..131] == Block(chunk) && p[131..] == ChecksumBytes(c);
    assert p[131] == p[131..][0] && p[132] == p[131..][1];
    HighByteFirst(c);
    assert p[3..3 + |chunk|] == p[3..131][..|chunk|];
    forall i | 3 + |chunk| <= i < 131 ensures p[i] == 0x1A { assert p[i] == p[3..131][i - 3]; }
  }

  lemma HighByteFirst(c: bv16)
    ensures ChecksumBytes(c) == [(c >> 8) as byte, (c & 0xff) as byte]
  {
  }

  /** The five answers. */
  lemma FiveAnswers(b: byte)
    ensures IsResponse(b) <==> b == 0x06 || b == 0x15 || b == 0x18 || b == 0x43 || b == 0x0A
  {
  }

  /** The block that is due. */
  lemma NextBlock(payload: seq<byte>, offset: nat)
    requires offset < |payload|
    ensures var end := if |payload| - offset > 128 then offset + 128 else |payload|;
            ChunkAt(payload, offset) == payload[offset..end] && offset + |ChunkAt(payload, offset)| == end
  {
  }

  /** An acknowledgement: the next block is due, in the next packet. */
  lemma AckExactly(payload: seq<byte>, x: Transfer)
    requires x.status == Sending && x.offset < |payload|
    ensures var y := Turn(payload, x, 0x06);
            var end := if |payload| - x.offset > 128 then x.offset + 128 else |payload|;
            && y.sends == x.sends + [Sent(LowByte(x.num), payload[x.offset..end], 0x06)]
            && y.offset == end && y.num == (x.num + 1) % 256 && y.attempts == 0
            && y.reports == x.reports + [end] && y.status == if end < |payload| then Sending else Done
  {
    hide LowByte, ChunkAt;
    NextBlock(payload, x.offset);
  }

  /** Any other answer: the same block stays due, and a NAK counts, a CAN ends it. */
  lemma OtherAnswersExactly(payload: seq<byte>, x: Transfer, b: byte)
    requires x.status == Sending && x.offset < |payload| && b != 0x06
    ensures var y := Turn(payload, x, b);
            var end := if |payload| - x.offset > 128 then x.offset + 128 else |payload|;
            && y.sends == x.sends + [Sent(LowByte(x.num), payload[x.offset..end], b)]
            && y.offset == x.offset && y.num == x.num && y.reports == x.reports
            && y.attempts == (if b == 0x15 then x.attempts + 1 else x.attempts)
            && y.status == (if b == 0x18 then Aborted(-3)
                            else if b == 0x15 && x.attempts + 1 > 16 then Aborted(-4)
                            else Sending)
  {
    hide LowByte, ChunkAt;
    NextBlock(payload, x.offset);
  }

  /** The first packet has number 1. */
  lemma BeginsWithOne(payload: seq<byte>)
    ensures Play(payload, []) == Transfer(Sending, 0, 1, 0, [], [])
  {
  }
}
