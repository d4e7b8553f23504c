/** What the client does on each message in each state, told without its own functions: the calls it makes,
    one by one, what becomes of it, and the code it returns. Numbers are written out. */
module FtpReference {
  import opened Bytes
  import opened Clock
  import opened CyclicCheck32
  import opened FtpInvariant
  import opened FtpMessages
  import opened FtpProtocol
  import opened Octets
  import opened SegmentBitmap

  /** From s to t exactly these calls were made. */
  ghost predicate Made(s: Sys, t: Sys, calls: seq<Event>) {
    t.w.trace == s.w.trace + calls
  }

  /** s is an uplink of this type and code in the name of this file, with no list. */
  ghost predicate Says(s: seq<byte>, code: byte, ack: byte, id: bv32, version: bv32) {
    && |s| == 14
    && s[0] == code && s[5] == ack
    && WordAt(s, 1) == Crc32(0, s[5..]) && WordAt(s, 6) == id && WordAt(s, 10) == version
  }

  lemma AckSays(t: MsgType, ack: byte, id: bv32, version: bv32)
    ensures Says(UplinkBytes(t, ack, id, version, []), CodeOf(t), ack, id, version)
  {
    hide Crc32, WordAt, UplinkBytes, CodeOf;
    UplinkLayout(t, ack, id, version, []);
  }

  /** s asks for what is missing: the code, and below 16 the numbers, two bytes each, low byte first. */
  ghost predicate AsksFor(s: seq<byte>, id: bv32, version: bv32, missing: seq<nat>) {
    && |s| == 14 + (if |missing| < 16 then 2 * |missing| else 0)
    && s[0] == 5 && s[5] == (if |missing| < 16 then 0xFD else 0xFF)
    && WordAt(s, 1) == Crc32(0, s[5..]) && WordAt(s, 6) == id && WordAt(s, 10) == version
    && (|missing| < 16 ==>
          forall i | 0 <= i < |missing| :: s[14 + 2 * i] as nat + 0x100 * (s[15 + 2 * i] as nat) == missing[i])
  }

  lemma RequestAsks(c: Client)
    requires c.numSegs <= 2400
    ensures AsksFor(RequestBytes(c.id, c.version, Missing(c.rx, c.numSegs)), c.id, c.version, Missing(c.rx, c.numSegs))
  {
    hide Crc32, WordAt, UplinkBytes, Missing, FitTwoBytes, SegmentList;
    var missing := Missing(c.rx, c.numSegs);
    MissingIsSmall(c.rx, c.numSegs);
    RequestIsExact(c.id, c.version, c.rx, c.numSegs);
    if |missing| < 16 {
      UplinkLayout(AckSegment, ACK_NAK_SEGMENT, c.id, c.version, missing);
    }
  }

  // ---------------------------------------------------------------- a file is announced

  /** An announcement that is taken: the host is asked to open the file; if it does, the client forgets all
      else, acknowledges and switches the downlink on; if not, it refuses in the name of its old file. */
  ghost predicate Announced(s: Sys, o: Oracle, m: Msg, t: Sys, ret: ReturnCode) {
    var n, size := |s.w.trace|, m.size as nat;
    var taken := o(n).ret == Ok && 1 <= size <= 256800;
    if taken then
      && t.c == Client(Segment, (size + 106) / 107, {}, m.id, m.version, size, o(n + 3).now, 0)
      && ret == Ok && t.w.file == o(n).content
      && exists u: seq<byte> :: Says(u, 4, 0x00, m.id, m.version)
           && Made(s, t, [Opened(m.id, m.version, size, Ok), ClockRead(o(n + 1).now), Uplinked(u),
                          ClockRead(o(n + 3).now), Configured(true)])
    else
      && t.c == s.c.(last := o(n + 2).now)
      && ret == NoAction && t.w.file == s.w.file
      && exists u: seq<byte>, r: ReturnCode :: Says(u, 4, 0xFF, s.c.id, s.c.version) && r != Ok
           && Made(s, t, [Opened(m.id, m.version, size, r), Uplinked(u), ClockRead(o(n + 2).now)])
  }

  lemma StartSegmentAnnounced(s: Sys, o: Oracle, m: Msg)
    requires m.msgType == TxInit || m.msgType == TxSegment
    ensures var (t, r) := StartSegment(s, o, m); Announced(s, o, m, t, r)
  {
    hide UplinkBytes, Says;
    var (t, r) := StartSegment(s, o, m);
    TypeCodes();
    AckSays(AckInit, 0x00, m.id, m.version);
    AckSays(AckInit, 0xFF, s.c.id, s.c.version);
    if r == Ok {
      var u := UplinkBytes(AckInit, ACK_ACK, m.id, m.version, []);
      assert t.w.trace[|s.w.trace| + 2] == Uplinked(u);
    } else {
      var u := UplinkBytes(AckInit, ACK_NAK, s.c.id, s.c.version, []);
      assert t.w.trace[|s.w.trace| + 1] == Uplinked(u);
    }
  }

  /** In IDLE every announcement and every segment is taken, and nothing else is. */
  lemma InIdle(s: Sys, o: Oracle, m: Msg)
    requires s.c.state == Idle
    ensures var (t, r) := MsgStep(s, o, m);
            if m.msgType == TxInit || m.msgType == TxSegment then Announced(s, o, m, t, r)
            else t == s && r == InvalidValue
  {
    hide StartSegment, Announced;
    if m.msgType == TxInit || m.msgType == TxSegment {
      StartSegmentAnnounced(s, o, m);
    }
  }

  /** Whether a message names the file of the client. */
  predicate NamesFileOf(c: Client, m: Msg) {
    m.id == c.id && m.version == c.version
  }

  /** While a file is in transfer those of another file are; announcements of this one, cancels of others and
      the client's own kinds of message do nothing. */
  lemma OutsideIdle(s: Sys, o: Oracle, m: Msg)
    requires s.c.state != Idle
    ensures var (t, r) := MsgStep(s, o, m);
            && ((m.msgType == TxInit || m.msgType == TxSegment) && !NamesFileOf(s.c, m) ==> Announced(s, o, m, t, r))
            && (m.msgType == TxInit && NamesFileOf(s.c, m) ==> t == s && r == NoAction)
            && (m.msgType == TxCancel && !NamesFileOf(s.c, m) ==> t == s && r == NoAction)
            && (m.msgType == AckInit || m.msgType == AckSegment || m.msgType == AckApply ==> t == s && r == NoAction)
  {
    hide StartSegment, Announced, ReceiveSegment, SegmentToIdle, ApplyToIdle, ApplyFile;
    if m.msgType == TxInit || m.msgType == TxSegment {
      StartSegmentAnnounced(s, o, m);
    }
  }

  // ---------------------------------------------------------------- ends of a transfer

  const FRESH := Client(Idle, 0, {}, 0, 0, 0, Time(0, 0), 0)

  /** The calls of an attempt to close the file and go to IDLE. */
  function Closing(c: Client, r: ReturnCode): seq<Event> {
    [Closed(c.id, c.version, r)] + if r == Ok then [Configured(false)] else []
  }

  /** A cancel of the file in transfer. */
  lemma Cancelled(s: Sys, o: Oracle, m: Msg)
    requires s.c.state != Idle && m.msgType == TxCancel && NamesFileOf(s.c, m)
    ensures var (t, r) := MsgStep(s, o, m);
            var closed := o(|s.w.trace|).ret;
            && Made(s, t, Closing(s.c, closed)) && t.w.file == s.w.file
            && t.c == (if s.c.state == Apply || closed == Ok then FRESH else s.c)
            && r == (if closed == Ok then Ok else Error)
  {
  }

  /** The order to apply the file, in APPLY: the file is applied, a success is reported at once, and whatever
      came of it the client forgets the file. */
  lemma AppliedInApply(s: Sys, o: Oracle, m: Msg)
    requires s.c.state == Apply && m.msgType == TxApply && NamesFileOf(s.c, m)
    ensures var (t, r) := MsgStep(s, o, m);
            var n := |s.w.trace|;
            var e := Applied(s.c.id, s.c.version, s.c.size, o(n).ret);
            && t.c == FRESH && t.w.file == s.w.file
            && (o(n).ret == Ok ==>
                  && r == (if o(n + 3).ret == Ok then Ok else Error)
                  && exists u: seq<byte> :: Says(u, 6, 0x00, s.c.id, s.c.version)
                       && Made(s, t, [e, Uplinked(u), ClockRead(o(n + 2).now)] + Closing(s.c, o(n + 3).ret)))
            && (o(n).ret != Ok ==> r == Error && Made(s, t, [e] + Closing(s.c, o(n + 1).ret)))
  {
    hide UplinkBytes, Says;
    var t := MsgStep(s, o, m).0;
    TypeCodes();
    AckSays(AckApply, 0x00, s.c.id, s.c.version);
    if o(|s.w.trace|).ret == Ok {
      var u := UplinkBytes(AckApply, ACK_ACK, s.c.id, s.c.version, []);
      assert t.w.trace[|s.w.trace| + 1] == Uplinked(u);
    }
  }

  /** Any other order to apply: in APPLY nothing happens; in SEGMENT the answer is what is missing. */
  lemma NotApplied(s: Sys, o: Oracle, m: Msg)
    requires m.msgType == TxApply && s.c.numSegs <= 2400
    ensures var (t, r) := MsgStep(s, o, m);
            && (s.c.state == Apply && !NamesFileOf(s.c, m) ==> t == s && r == NoAction)
            && (s.c.state == Segment ==>
                  && r == Ok && t.w.file == s.w.file && t.c == s.c.(last := o(|s.w.trace| + 1).now)
                  && exists u: seq<byte> :: AsksFor(u, s.c.id, s.c.version, Missing(s.c.rx, s.c.numSegs))
                       && Made(s, t, [Uplinked(u), ClockRead(o(|s.w.trace| + 1).now)]))
  {
    hide RequestBytes, AsksFor, ApplyFile;
    RequestAsks(s.c);
    if s.c.state == Segment {
      var u := RequestBytes(s.c.id, s.c.version, Missing(s.c.rx, s.c.numSegs));
      assert MsgStep(s, o, m).0.w.trace[|s.w.trace|] == Uplinked(u);
    }
  }

  // ---------------------------------------------------------------- segments of the file in transfer

  /** In APPLY a late segment only shows that the server is still there. */
  lemma LateSegment(s: Sys, o: Oracle, m: Msg)
    requires s.c.state == Apply && m.msgType == TxSegment && NamesFileOf(s.c, m)
    ensures var (t, r) := MsgStep(s, o, m);
            && Made(s, t, [ClockRead(o(|s.w.trace|).now)]) && t.w.file == s.w.file && r == NoAction
            && t.c == s.c.(last := o(|s.w.trace|).now, retries := 0)
  {
  }

  /** What is written for a segment, and what of it the client remembers. */
  ghost predicate Stored(s: Sys, o: Oracle, m: Msg, u: Sys, ret: ReturnCode) {
    var n := |s.w.trace|;
    var written := o(n + 1).ret;
    && Made(s, u, [ClockRead(o(n).now), Wrote(m.id, m.version, 107 * m.segNum, m.payload, written)])
    && u.c == s.c.(last := o(n).now, retries := 0,
                   rx := s.c.rx + if written == Ok && m.segNum < 2400 then {m.segNum} else {})
    && (written != Ok ==> u.w.file == s.w.file)
    && (written == Ok ==>
          forall k: nat :: u.w.file(k)
            == if 107 * m.segNum <= k < 107 * m.segNum + |m.payload| then m.payload[k - 107 * m.segNum]
               else s.w.file(k))
    && ret == (if written == Ok then Ok else NoAction)
  }

  /** In SEGMENT a segment is written at 107 times its number; and when that leaves none missing, the file is
      finished. */
  lemma SegmentStored(s: Sys, o: Oracle, m: Msg) returns (u: Sys, r: ReturnCode)
    requires s.c.state == Segment && m.msgType == TxSegment && NamesFileOf(s.c, m)
    ensures Stored(s, o, m, u, r)
    ensures MsgStep(s, o, m) == if forall k | 0 <= k < s.c.numSegs :: k in u.c.rx then Finish(u, o) else (u, r)
  {
    hide Finish;
    var stored := WriteSegment(Reset(s, o), o, m);
    u, r := stored.0, stored.1;
  }

  /** A finished file is checked. If it passes, it is closed and the transfer acknowledged; a refused close
      ends the transfer with an error. */
  lemma FinishedWell(s: Sys, o: Oracle)
    requires s.c.state == Segment && VerifyFile(s, o).1 == Ok
    ensures var u, (t, r) := VerifyFile(s, o).0, Finish(s, o);
            var n := |u.w.trace|;
            && u.c == s.c && t.w.file == s.w.file
            && (o(n).ret == Ok ==>
                  && r == Ok && t.c == s.c.(state := Apply, last := o(n + 2).now)
                  && exists d: seq<byte> :: Says(d, 5, 0x00, s.c.id, s.c.version)
                       && Made(u, t, [Closed(s.c.id, s.c.version, Ok), Uplinked(d), ClockRead(o(n + 2).now)]))
            && (o(n).ret != Ok ==>
                  r == Error && t.c == s.c.(state := Idle) && Made(u, t, [Closed(s.c.id, s.c.version, o(n).ret)]))
  {
    hide UplinkBytes, Says, VerifyFile;
    VerifyKeepsClient(s, o);
    var u, t := VerifyFile(s, o).0, Finish(s, o).0;
    TypeCodes();
    AckSays(AckSegment, 0x00, s.c.id, s.c.version);
    if o(|u.w.trace|).ret == Ok {
      var d := UplinkBytes(AckSegment, ACK_ACK, s.c.id, s.c.version, []);
      assert t.w.trace[|u.w.trace| + 1] == Uplinked(d);
    }
  }

  /** If it fails, all segments are forgotten and the file is closed and opened again; if either is refused,
      the transfer ends, provided that the file can be closed then. */
  lemma FinishedBadly(s: Sys, o: Oracle)
    requires s.c.state == Segment && VerifyFile(s, o).1 != Ok && 1 <= s.c.size <= 256800
    ensures var u, (t, r) := VerifyFile(s, o).0, Finish(s, o);
            var n := |u.w.trace|;
            var again := s.c.(rx := {}, last := o(n).now, retries := 0);
            var clock, closed := ClockRead(o(n).now), Closed(s.c.id, s.c.version, o(n + 1).ret);
            var reopened := Opened(s.c.id, s.c.version, s.c.size, o(n + 2).ret);
            if o(n + 1).ret != Ok then
              && Made(u, t, [clock, closed] + Closing(s.c, o(n + 2).ret))
              && t.c == (if o(n + 2).ret == Ok then FRESH else again)
              && r == (if o(n + 2).ret == Ok then Ok else Error)
            else if o(n + 2).ret != Ok then
              && Made(u, t, [clock, closed, reopened] + Closing(s.c, o(n + 3).ret))
              && t.c == (if o(n + 3).ret == Ok then FRESH else again)
              && r == (if o(n + 3).ret == Ok then Ok else Error)
            else
              && Made(u, t, [clock, closed, reopened])
              && t.c == again && r == Ok && t.w.file == o(n + 2).content
  {
    hide VerifyFile;
    VerifyKeepsClient(s, o);
  }

  // ---------------------------------------------------------------- ticks

  /** At least 16 whole seconds from a to b. */
  predicate Overdue(a: Time, b: Time) {
    b.sec - a.sec - (if b.nsec < a.nsec then 1 else 0) >= 16
  }

  /** For times as clocks give them that is the elapsed time. */
  lemma OverdueIsElapsed(a: Time, b: Time)
    requires Normalised(a) && Normalised(b)
    ensures Overdue(a, b) <==> (b.sec - a.sec) * 1_000_000_000 + b.nsec - a.nsec >= 16_000_000_000
  {
  }

  /** A tick reads the clock. If the last uplink was less than 16 seconds ago, that is all. If not, it is
      repeated, up to five times; and then the transfer is given up. */
  lemma Ticked(s: Sys, o: Oracle, m: Msg)
    requires s.c.state != Idle && m.msgType == Tick && s.c.numSegs <= 2400
    ensures var (t, r) := MsgStep(s, o, m);
            var n := |s.w.trace|;
            var clock := ClockRead(o(n).now);
            && t.w.file == s.w.file
            && (!Overdue(s.c.last, o(n).now) ==> Made(s, t, [clock]) && t.c == s.c && r == Ok)
            && (Overdue(s.c.last, o(n).now) && s.c.retries < 5 ==>
                  && r == Ok && t.c == s.c.(retries := s.c.retries + 1, last := o(n + 2).now)
                  && exists u: seq<byte> ::
                       && Made(s, t, [clock, Uplinked(u), ClockRead(o(n + 2).now)])
                       && if s.c.state == Segment then AsksFor(u, s.c.id, s.c.version, Missing(s.c.rx, s.c.numSegs))
                          else Says(u, 5, 0x00, s.c.id, s.c.version))
            && (Overdue(s.c.last, o(n).now) && s.c.retries >= 5 ==>
                  && Made(s, t, [clock] + Closing(s.c, o(n + 1).ret))
                  && t.c == (if s.c.state == Apply || o(n + 1).ret == Ok then FRESH else s.c)
                  && r == (if o(n + 1).ret == Ok then Ok else Error))
  {
    hide RequestBytes, UplinkBytes, AsksFor, Says, Missing;
    var t := MsgStep(s, o, m).0;
    TypeCodes();
    RequestAsks(s.c);
    AckSays(AckSegment, 0x00, s.c.id, s.c.version);
    if Overdue(s.c.last, o(|s.w.trace|).now) && s.c.retries < 5 {
      var u := if s.c.state == Segment then RequestBytes(s.c.id, s.c.version, Missing(s.c.rx, s.c.numSegs))
               else UplinkBytes(AckSegment, ACK_ACK, s.c.id, s.c.version, []);
      assert t.w.trace[|s.w.trace| + 1] == Uplinked(u);
    }
  }
}
