/** What refused calls can lead to: the conditions, and runs that show it happen. */
module FtpRefusals {
  import opened Bytes
  import opened Clock
  import opened CyclicCheck32
  import opened FtpCausality
  import opened FtpDownlink
  import opened FtpFileCheck
  import opened FtpHonesty
  import opened FtpInvariant
  import opened FtpMessages
  import opened FtpProtocol
  import opened FtpRepair
  import opened FtpTransfer
  import opened Octets
  import opened SegmentBitmap

  // ---------------------------------------------------------------- hosts

  /** A store of zeros, a clock that stands still, and success or failure. */
  function Answering(ret: ReturnCode): Reply {
    Reply(ret, Time(0, 0), (k: nat) => 0)
  }

  function Willing(): Oracle {
    (i: nat) => Answering(Ok)
  }

  /** A host that does what it is told n times, and refuses everything after that. */
  function RefusingFrom(n: nat): Oracle {
    (i: nat) => if i < n then Answering(Ok) else Answering(Error)
  }

  /** A host that fails one call only. */
  function RefusingOnly(n: nat): Oracle {
    (i: nat) => if i == n then Answering(Error) else Answering(Ok)
  }

  /** However the client is brought somewhere by a willing host, a host that refuses from then on brings it
      there, too. */
  lemma RefusedNext(file: File, ms: seq<Msg>)
    ensures var t := Deliver(Start(file), Willing(), ms);
            Deliver(Start(file), RefusingFrom(|t.w.trace|), ms) == t
  {
    hide Deliver;
    DeliverIsCausal(Start(file), Willing(), RefusingFrom(|Deliver(Start(file), Willing(), ms).w.trace|), ms);
  }

  // ---------------------------------------------------------------- a cancel

  /** A cancel in SEGMENT is obeyed if and only if the file closes; if not, nothing changes. */
  lemma CancelNeedsClose(s: Sys, o: Oracle, m: Msg)
    requires s.c.state == Segment && m.msgType == TxCancel && IsMine(s.c, m)
    ensures var (t, r) := MsgStep(s, o, m);
            && (t.c.state == Idle <==> o(|s.w.trace|).ret == Ok)
            && (r == Ok <==> o(|s.w.trace|).ret == Ok)
            && t.c == (if o(|s.w.trace|).ret == Ok then INITIAL else s.c)
            && t.w.file == s.w.file
  {
    hide MsgStep;
    assert MsgStep(s, o, m) == SegmentToIdle(s, o) by { CancelsToIdle(s, o, m); }
  }

  lemma CancelsToIdle(s: Sys, o: Oracle, m: Msg)
    requires s.c.state == Segment && m.msgType == TxCancel && IsMine(s.c, m)
    ensures MsgStep(s, o, m) == SegmentToIdle(s, o)
  {
  }

  function Announcement(id: bv32, version: bv32): Msg {
    Msg(TxInit, id, version, 16, 0, 0, [])
  }

  function Cancel(id: bv32, version: bv32): Msg {
    Msg(TxCancel, id, version, 0, 0, 0, [])
  }

  /** A run in which it is not: announced, cancelled, and still in SEGMENT. */
  lemma CancelCanBeDropped(file: File, id: bv32, version: bv32) returns (o: Oracle, ms: seq<Msg>)
    ensures ms == [Announcement(id, version), Cancel(id, version)] && AllSendable(ms) && AllValid(OnTheAir(ms))
    ensures Run(Start(file), o, OnTheAir(ms)).c.state == Segment
    ensures Run(Start(file), o, OnTheAir(ms)).c.id == id
  {
    hide Deliver, MsgStep, Encode, Run, FileSize, WriteBytes, Willing, RefusingFrom;
    var init := Announcement(id, version);
    var u := Announced(file, id, version);
    o := RefusingFrom(|u.w.trace|);
    RefusedNext(file, [init]);
    ms := [init] + [Cancel(id, version)];
    DeliverOneMore(Start(file), o, [init], Cancel(id, version));
    RefusesNext(|u.w.trace|);
    CancelNeedsClose(u, o, Cancel(id, version));
    RunIsDeliver(Start(file), o, ms);
  }

  lemma RefusesNext(n: nat)
    ensures RefusingFrom(n)(n).ret == Error
  {
    var o := RefusingFrom(n);
    assert o(n) == Answering(Error);
  }

  lemma WillingIsOk()
    ensures AlwaysOk(Willing(), 0)
  {
    var o := Willing();
    forall i: nat ensures o(i).ret == Ok {
      assert o(i) == Answering(Ok);
    }
  }

  lemma DeliverOneMore(s: Sys, o: Oracle, ms: seq<Msg>, m: Msg)
    ensures Deliver(s, o, ms + [m]) == MsgStep(Deliver(s, o, ms), o, m).0
  {
    hide MsgStep;
    assert (ms + [m])[..|ms|] == ms;
  }

  /** The client after an announcement to a willing host. */
  lemma Announced(file: File, id: bv32, version: bv32) returns (u: Sys)
    ensures u == Deliver(Start(file), Willing(), [Announcement(id, version)])
    ensures u.c.state == Segment && u.c.id == id && u.c.version == version
  {
    hide MsgStep, StartSegment, FileSize, SegsOf;
    var init := Announcement(id, version);
    SixteenIsSixteen();
    u := MsgStep(Start(file), Willing(), init).0;
    DeliverOneMore(Start(file), Willing(), [], init);
    assert [] + [init] == [init];
    StartsSegment(Start(file), Willing(), init);
    OpenSucceeds(Start(file), Willing(), init);
    StartSegmentEffect(Start(file), Willing(), init);
  }

  lemma StartsSegment(s: Sys, o: Oracle, m: Msg)
    requires s.c.state == Idle && m.msgType == TxInit
    ensures MsgStep(s, o, m) == StartSegment(s, o, m)
  {
  }

  // ---------------------------------------------------------------- a refused announcement

  /** Its answer: sent at once, and in the name of the file that the client had before. */
  function Refusal(c: Client): Event {
    Uplinked(UplinkBytes(AckInit, ACK_NAK, c.id, c.version, []))
  }

  lemma RefusalFollows(s: Sys, o: Oracle, m: Msg)
    requires m.msgType == TxInit || m.msgType == TxSegment
    requires OpenResult(s, o, FileSize(m.size)) != Ok
    ensures var (t, r) := StartSegment(s, o, m);
            && r == NoAction && t.c == s.c.(last := t.c.last) && |t.w.trace| == |s.w.trace| + 3
            && t.w.trace[|s.w.trace|] == Opened(m.id, m.version, FileSize(m.size), OpenResult(s, o, FileSize(m.size)))
            && t.w.trace[|s.w.trace| + 1] == Refusal(s.c)
  {
    hide UplinkBytes, FileSize;
  }

  /** Whether an uplink names this file. */
  predicate Names(e: Event, id: bv32, version: bv32) {
    e.Uplinked? && |e.data| >= BASE_UL_MSG_LEN && WordAt(e.data, 6) == id && WordAt(e.data, 10) == version
  }

  lemma RefusalNames(c: Client, id: bv32, version: bv32)
    ensures Names(Refusal(c), id, version) <==> id == c.id && version == c.version
  {
    hide WordAt, UplinkBytes;
    UplinkSays(AckInit, ACK_NAK, c.id, c.version);
  }

  /** A refusal names the file that was refused if and only if that is the client's own already. */
  lemma RefusalNamesRefusedExactly(s: Sys, o: Oracle, m: Msg)
    requires m.msgType == TxInit || m.msgType == TxSegment
    requires OpenResult(s, o, FileSize(m.size)) != Ok
    ensures var t := StartSegment(s, o, m).0;
            && |t.w.trace| > |s.w.trace| + 1
            && (Names(t.w.trace[|s.w.trace| + 1], m.id, m.version) <==> IsMine(s.c, m))
  {
    hide StartSegment, Names, Refusal, OpenResult;
    RefusalFollows(s, o, m);
    RefusalNames(s.c, m.id, m.version);
  }

  /** From s to t the client first tried to open a file, and failed. */
  predicate FailsToOpen(s: Sys, t: Sys) {
    |t.w.trace| > |s.w.trace| && t.w.trace[|s.w.trace|].Opened? && t.w.trace[|s.w.trace|].ret != Ok
  }

  /** It said so in the name of its own file, and that is not the one it failed to open. */
  predicate BlamesItsOwn(s: Sys, t: Sys)
    requires FailsToOpen(s, t)
  {
    var n, refused := |s.w.trace|, t.w.trace[|s.w.trace|];
    && |t.w.trace| > n + 1
    && Names(t.w.trace[n + 1], s.c.id, s.c.version)
    && !Names(t.w.trace[n + 1], refused.id, refused.version)
  }

  /** While a transfer is under way it never does: whatever message makes the client try to open a file and
      fail, the refusal names the file in transfer, and that is another one. */
  lemma RefusalNamesFileInTransfer(s: Sys, o: Oracle, m: Msg)
    requires s.c.state != Idle && FailsToOpen(s, MsgStep(s, o, m).0)
    ensures BlamesItsOwn(s, MsgStep(s, o, m).0)
  {
    hide StartSegment, Names, Refusal, OpenResult, MsgStep;
    OnlyOthersAreOpened(s, o, m);
    OpenIsFirst(s, o, m);
    RefusalFollows(s, o, m);
    RefusalNames(s.c, s.c.id, s.c.version);
    RefusalNames(s.c, m.id, m.version);
  }

  lemma OpenIsFirst(s: Sys, o: Oracle, m: Msg)
    ensures var t := StartSegment(s, o, m).0;
            |t.w.trace| > |s.w.trace| && t.w.trace[|s.w.trace|].Opened?
            && t.w.trace[|s.w.trace|].ret == OpenResult(s, o, FileSize(m.size))
  {
    hide UplinkBytes, FileSize, SegsOf, OpenResult;
  }

  /** The branches of SEGMENT and APPLY that begin with an open. */
  lemma OnlyOthersAreOpened(s: Sys, o: Oracle, m: Msg)
    requires s.c.state != Idle
    requires FailsToOpen(s, MsgStep(s, o, m).0)
    ensures (m.msgType == TxInit || m.msgType == TxSegment) && !IsMine(s.c, m)
    ensures MsgStep(s, o, m) == StartSegment(s, o, m)
  {
    hide StartSegment, Finish, IsComplete, UplinkBytes, RequestBytes, Expired;
    if m.msgType == TxSegment && IsMine(s.c, m) && s.c.state == Segment {
      ClockIsFirst(s, o, m);
    }
  }

  lemma ClockIsFirst(s: Sys, o: Oracle, m: Msg)
    ensures var t := ReceiveSegment(s, o, m).0;
            |t.w.trace| > |s.w.trace| && t.w.trace[|s.w.trace|].ClockRead?
  {
    hide Finish, IsComplete;
    var t := WriteSegment(Reset(s, o), o, m).0;
    FinishGoesOn(t, o);
    assert t.w.trace[|s.w.trace|].ClockRead?;
  }

  /** A run in which it happens: one file is announced and taken, another is announced and refused, and the
      refusal names the first. */
  lemma RefusalCanNameAnother(file: File, id: bv32, version: bv32, id': bv32, version': bv32)
    returns (o: Oracle, ms: seq<Msg>)
    requires id != id' || version != version'
    ensures ms == [Announcement(id, version), Announcement(id', version')]
    ensures AllSendable(ms) && AllValid(OnTheAir(ms))
    ensures var trace := Run(Start(file), o, OnTheAir(ms)).w.trace;
            exists k | 0 <= k < |trace| - 1 ::
              && trace[k].Opened? && trace[k].id == id' && trace[k].version == version' && trace[k].ret != Ok
              && Names(trace[k + 1], id, version) && !Names(trace[k + 1], id', version')
  {
    hide Deliver, MsgStep, Encode, Run, FileSize, Willing, RefusingFrom, StartSegment, Names, Refusal, OpenResult;
    var u := Announced(file, id, version);
    o := RefusingFrom(|u.w.trace|);
    RefusedNext(file, [Announcement(id, version)]);
    var m := Announcement(id', version');
    ms := [Announcement(id, version)] + [m];
    DeliverOneMore(Start(file), o, [Announcement(id, version)], m);
    RefusesNext(|u.w.trace|);
    RefusedOpen(u, o, FileSize(m.size));
    RestartsSegment(u, o, m);
    OpenIsFirst(u, o, m);
    RefusalNamesFileInTransfer(u, o, m);
    RefusalFollows(u, o, m);
    RunIsDeliver(Start(file), o, ms);
    var k := |u.w.trace|;
    assert Run(Start(file), o, OnTheAir(ms)).w.trace[k].Opened?;
  }

  lemma RefusedOpen(s: Sys, o: Oracle, size: nat)
    requires o(|s.w.trace|).ret != Ok
    ensures OpenResult(s, o, size) != Ok
  {
  }

  lemma RestartsSegment(s: Sys, o: Oracle, m: Msg)
    requires s.c.state == Segment && m.msgType == TxInit && !IsMine(s.c, m)
    ensures MsgStep(s, o, m) == StartSegment(s, o, m)
  {
  }

  // ---------------------------------------------------------------- the downlink

  /** A run that ends in IDLE with the downlink on: the whole file, then a cancel whose close is refused. */
  lemma DownlinkCanStayOn(file: File, id: bv32, version: bv32) returns (o: Oracle, ms: seq<Msg>)
    ensures |ms| == 3 && AllSendable(ms) && AllValid(OnTheAir(ms))
    ensures var s := Run(Start(file), o, OnTheAir(ms));
            s.c.state == Idle && DownlinkOn(s.w.trace)
  {
    hide Deliver, MsgStep, Encode, Run, Willing, RefusingFrom, DownlinkOn, Disciplined;
    WillingIsOk();
    var whole := ApplyIsReachable(file, Willing(), id, version);
    RunIsDeliver(Start(file), Willing(), whole);
    var t := Deliver(Start(file), Willing(), whole);
    o := RefusingFrom(|t.w.trace|);
    RefusedNext(file, whole);
    RunIsDeliver(Start(file), o, whole);
    RunIsDisciplined(file, o, OnTheAir(whole));
    ms := whole + [Cancel(id, version)];
    DeliverOneMore(Start(file), o, whole, Cancel(id, version));
    RefusesNext(|t.w.trace|);
    RefusedCloseLeavesDownlinkOn(t, o);
    RunIsDeliver(Start(file), o, ms);
  }

  // ---------------------------------------------------------------- a chunk that is skipped

  /** The second chunk of a 16-byte file cannot be read, and the CRC in the header is that of the first: the
      check passes all the same. */
  lemma SkippedChunkPasses(s: Sys, o: Oracle)
    requires s.c.size == 16 && HeaderMatches(s.c, s.w.file)
    requires Crc32(0, FileBytes(s.w.file, 4, 16)) == WordAt(FileBytes(s.w.file, 0, 4), 0)
    requires var n := |s.w.trace|;
             o(n + 5).ret == Error && forall i: nat | n <= i < n + 5 :: o(i).ret == Ok
    ensures var (t, r) := VerifyFile(s, o);
            && r == Ok && |t.w.trace| == |s.w.trace| + 6
            && t.w.trace[|s.w.trace| + 5].ReadBack? && t.w.trace[|s.w.trace| + 5].ret == Error
  {
    hide Crc32, WordAt, FileSize, FileBytes, FileCrc;
    var (t, r, crc) := VerifyFileInfo(s, o);
    assert r == Ok && |t.w.trace| == |s.w.trace| + 4 && t.c == s.c && t.w.file == s.w.file;
    assert crc == WordAt(FileBytes(s.w.file, 0, 4), 0);
    TwoChunks(t, o);
  }

  lemma TwoChunks(s: Sys, o: Oracle)
    requires s.c.size == 16 && o(|s.w.trace|).ret == Ok && o(|s.w.trace| + 1).ret == Error
    ensures var (t, crc) := FileCrc(s, o, 4, 0);
            && crc == Crc32(0, FileBytes(s.w.file, 4, 16)) && |t.w.trace| == |s.w.trace| + 2
            && t.w.trace[|s.w.trace| + 1].ReadBack? && t.w.trace[|s.w.trace| + 1].ret == Error
  {
    hide Crc32, FileBytes;
    var (u, at, next) := NextChunk(s, o, 4, 0);
    var (t, to, last) := NextChunk(u, o, at, next);
    assert at == 20 && to == 32 && FileCrc(t, o, to, last) == (t, last);
    assert FileCrc(u, o, at, next) == (t, last);
  }

  lemma SkippedChunkApplies(s: Sys, o: Oracle)
    requires s.c.state == Segment && s.c.size == 16 && HeaderMatches(s.c, s.w.file)
    requires Crc32(0, FileBytes(s.w.file, 4, 16)) == WordAt(FileBytes(s.w.file, 0, 4), 0)
    requires var n := |s.w.trace|;
             o(n + 5).ret == Error && forall i: nat | n <= i < n + 7 && i != n + 5 :: o(i).ret == Ok
    ensures var t := Finish(s, o).0;
            && t.c.state == Apply && |t.w.trace| > |s.w.trace| + 5
            && t.w.trace[|s.w.trace| + 5].ReadBack? && t.w.trace[|s.w.trace| + 5].ret == Error
  {
    hide Crc32, Word, FileSize, FileBytes, VerifyFile, Finish, HeaderMatches, PassedCheck;
    SkippedChunkPasses(s, o);
    VerifyFileTrace(s, o);
    FinishExact(s, o);
    assert Finish(s, o).0.w.trace[|s.w.trace| + 5] == VerifyFile(s, o).0.w.trace[|s.w.trace| + 5];
  }

  /** A header whose CRC covers its own first chunk alone. */
  lemma ShortSightedFile(id: bv32, version: bv32, after: File) returns (f: seq<byte>)
    ensures |f| == 16 && HeaderMatches(INITIAL.(id := id, version := version, size := 16), Overlaid(f, after))
    ensures Crc32(0, FileBytes(Overlaid(f, after), 4, 16)) == WordAt(FileBytes(Overlaid(f, after), 0, 4), 0)
  {
    hide Crc32, Word, WordBytes, FileSize;
    var body := WordBytes(16) + WordBytes(id) + WordBytes(version);
    var chunk := body + FileBytes(after, 16, 4);
    f := WordBytes(Crc32(0, chunk)) + body;
    assert f[4..] == body;
    assert FileBytes(Overlaid(f, after), 4, 16) == chunk;
    assert FileBytes(Overlaid(f, after), 0, 4) == WordBytes(Crc32(0, chunk));
    assert FileBytes(Overlaid(f, after), 4, 4) == f[4..8] == WordBytes(16);
    assert FileBytes(Overlaid(f, after), 8, 4) == f[8..12] == WordBytes(id);
    assert FileBytes(Overlaid(f, after), 12, 4) == f[12..16] == WordBytes(version);
    WordOfWordBytes(Crc32(0, chunk));
    WordOfWordBytes(16);
    WordOfWordBytes(id);
    WordOfWordBytes(version);
    SixteenIsSixteen();
  }

  lemma WrittenIsOverlaid(c: Client, f: seq<byte>, after: File, d: Client, file: File)
    requires c.size == 16 && d.size == 16 && d.id == c.id && d.version == c.version && |f| == 16
    requires file == WriteBytes(after, 0, f) && HeaderMatches(c, Overlaid(f, after))
    requires Crc32(0, FileBytes(Overlaid(f, after), 4, 16)) == WordAt(FileBytes(Overlaid(f, after), 0, 4), 0)
    ensures HeaderMatches(d, file)
    ensures Crc32(0, FileBytes(file, 4, 16)) == WordAt(FileBytes(file, 0, 4), 0)
  {
    hide Crc32, Word, FileSize;
    forall offset: nat, n: nat ensures FileBytes(file, offset, n) == FileBytes(Overlaid(f, after), offset, n) {
    }
  }

  lemma RefusesOnly(n: nat)
    ensures RefusingOnly(n)(n).ret == Error && forall i: nat | i != n :: RefusingOnly(n)(i).ret == Ok
  {
    var o := RefusingOnly(n);
    assert o(n) == Answering(Error);
    forall i: nat | i != n ensures o(i).ret == Ok { assert o(i) == Answering(Ok); }
  }

  /** A run that ends in APPLY although a read of the file failed during its only check. */
  lemma FailedReadCanPass(file: File, id: bv32, version: bv32) returns (o: Oracle, ms: seq<Msg>)
    ensures |ms| == 2 && AllSendable(ms) && AllValid(OnTheAir(ms))
    ensures var s := Run(Start(file), o, OnTheAir(ms));
            s.c.state == Apply && exists i | 0 <= i < |s.w.trace| :: s.w.trace[i].ReadBack? && s.w.trace[i].ret != Ok
  {
    hide MsgStep, Encode, Run, FileSize, WriteBytes, RefusingOnly, StartSegment, Finish, HeaderMatches, Crc32,
      FileBytes, Overlaid, SegsOf, VerifyFile, Word, IsComplete;
    o := RefusingOnly(12);
    RefusesOnly(12);
    var init := Announcement(id, version);
    SixteenIsSixteen();
    StartsSegment(Start(file), o, init);
    OpenSucceeds(Start(file), o, init);
    StartSegmentEffect(Start(file), o, init);
    var u := MsgStep(Start(file), o, init).0;
    var f := ShortSightedFile(id, version, u.w.file);
    var segment := Msg(TxSegment, id, version, 16, 0, 1, f);
    SegmentArrives(u, o, segment);
    var v := WriteSegment(Reset(u, o), o, segment).0;
    OneSegment();
    WrittenIsOverlaid(INITIAL.(id := id, version := version, size := 16), f, u.w.file, v.c, v.w.file);
    SkippedChunkApplies(v, o);
    var t := MsgStep(u, o, segment).0;
    assert t == Finish(v, o).0;
    ms := [init] + [segment];
    DeliverOneMore(Start(file), o, [], init);
    assert [] + [init] == [init];
    DeliverOneMore(Start(file), o, [init], segment);
    RunIsDeliver(Start(file), o, ms);
  }
}
