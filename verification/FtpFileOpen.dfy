/** Whether the file in transfer is open on the host. */
module FtpFileOpen {
  import opened FtpCausality
  import opened FtpFileCheck
  import opened FtpInvariant
  import opened FtpMessages
  import opened FtpProtocol
  import opened FtpRefusals
  import opened FtpRepair
  import opened FtpTransfer
  import opened SegmentBitmap

  /** The last open or close that succeeded was an open. */
  function FileOpen(trace: seq<Event>): bool {
    if trace == [] then false
    else
      var e := trace[|trace| - 1];
      if OpenOk(e) then true
      else if e.Closed? && e.ret == Ok then false
      else FileOpen(trace[..|trace| - 1])
  }

  /** The last three calls were a restart gone wrong: the file was closed, the reopen was refused, and so was
      the close on the way to IDLE. */
  predicate RestartFailed(trace: seq<Event>) {
    var n := |trace|;
    && n >= 3
    && trace[n - 3].Closed? && trace[n - 3].ret == Ok
    && trace[n - 2].Opened? && trace[n - 2].ret != Ok
    && trace[n - 1].Closed? && trace[n - 1].ret != Ok
  }

  /** That has happened, and no file was opened since. */
  function Stranded(trace: seq<Event>): bool {
    trace != [] && !OpenOk(trace[|trace| - 1]) && (RestartFailed(trace) || Stranded(trace[..|trace| - 1]))
  }

  /** A refused open is never the last word: an uplink or a close follows in the same step. */
  predicate Settled(trace: seq<Event>) {
    trace == [] || !trace[|trace| - 1].Opened? || OpenOk(trace[|trace| - 1])
  }

  /** In SEGMENT the file is open unless a restart has failed so. */
  ghost predicate FileIsOpen(s: Sys) {
    s.c.state == Segment ==> (FileOpen(s.w.trace) <==> !Stranded(s.w.trace))
  }

  ghost predicate Kept(s: Sys) {
    FileIsOpen(s) && Settled(s.w.trace)
  }

  /** A call that opens and closes nothing. */
  predicate Aside(e: Event) {
    !e.Opened? && !e.Closed?
  }

  lemma {:induction false} AsideKeeps(before: seq<Event>, after: seq<Event>)
    requires before <= after && forall i | |before| <= i < |after| :: Aside(after[i])
    ensures FileOpen(after) == FileOpen(before) && Stranded(after) == Stranded(before)
    decreases |after|
  {
    if |before| < |after| {
      AsideKeeps(before, after[..|after| - 1]);
    } else {
      assert before == after;
    }
  }

  lemma EmitOpens(s: Sys, e: Event)
    ensures var t := Emit(s, e);
            && FileOpen(t.w.trace) == (OpenOk(e) || (FileOpen(s.w.trace) && !(e.Closed? && e.ret == Ok)))
            && Stranded(t.w.trace) == (!OpenOk(e) && (RestartFailed(t.w.trace) || Stranded(s.w.trace)))
  {
    assert Emit(s, e).w.trace[..|s.w.trace|] == s.w.trace;
  }

  /** Nothing was opened or closed from s to t. */
  ghost predicate SameFile(s: Sys, t: Sys) {
    && FileOpen(t.w.trace) == FileOpen(s.w.trace) && Stranded(t.w.trace) == Stranded(s.w.trace)
    && Settled(t.w.trace)
  }

  lemma UplinkAside(s: Sys, o: Oracle, data: seq<bv8>)
    ensures SameFile(s, SendUplink(s, o, data)) && SameFile(s, Reset(s, o)) && SameFile(s, GetTime(s, o).0)
    ensures SendUplink(s, o, data).c.state == Reset(s, o).c.state == s.c.state
  {
    AsideKeeps(s.w.trace, SendUplink(s, o, data).w.trace);
    AsideKeeps(s.w.trace, Reset(s, o).w.trace);
  }

  /** An open, followed by calls that open and close nothing. */
  lemma OpenThen(s: Sys, e: Event, t: Sys)
    requires e.Opened? && Continues(Emit(s, e), t) && |t.w.trace| > |s.w.trace| + 1
    requires forall i | |s.w.trace| < i < |t.w.trace| :: Aside(t.w.trace[i])
    ensures FileOpen(t.w.trace) == (OpenOk(e) || FileOpen(s.w.trace))
    ensures Stranded(t.w.trace) == (!OpenOk(e) && Stranded(s.w.trace))
    ensures Settled(t.w.trace)
  {
    hide FileOpen, Stranded;
    EmitOpens(s, e);
    AsideKeeps(Emit(s, e).w.trace, t.w.trace);
  }

  lemma StartSegmentKept(s: Sys, o: Oracle, m: Msg)
    requires Kept(s) && (m.msgType == TxInit || m.msgType == TxSegment)
    ensures Kept(StartSegment(s, o, m).0)
  {
    hide FileOpen, Stranded, StartSegment, FileSize, SegsOf, Settled;
    StartSegmentEffect(s, o, m);
    var e := StartSegmentCalls(s, o, m);
    OpenThen(s, e, StartSegment(s, o, m).0);
  }

  lemma StartSegmentCalls(s: Sys, o: Oracle, m: Msg) returns (e: Event)
    ensures var (t, r) := StartSegment(s, o, m);
            && e.Opened? && (OpenOk(e) <==> r == Ok)
            && (m.msgType == TxInit || m.msgType == TxSegment || r == Ok ==> |t.w.trace| > |s.w.trace| + 1)
            && Continues(Emit(s, e), t)
            && (forall i | |s.w.trace| < i < |t.w.trace| :: Aside(t.w.trace[i]))
  {
    hide UplinkBytes, SegsOf, FileSize;
    e := Opened(m.id, m.version, FileSize(m.size), OpenResult(s, o, FileSize(m.size)));
  }

  /** A close that is refused changes nothing. */
  lemma RefusedCloseKept(s: Sys, o: Oracle)
    requires Kept(s) && o(|s.w.trace|).ret != Ok
    ensures var t := IdleStart(s, o).0; t.c == s.c && SameFile(s, t)
  {
    hide FileOpen, Stranded;
    EmitOpens(s, Closed(s.c.id, s.c.version, o(|s.w.trace|).ret));
  }

  lemma IdleStartSettles(s: Sys, o: Oracle)
    ensures var (t, r) := IdleStart(s, o);
            t.c == s.c && Settled(t.w.trace) && (r == Ok <==> o(|s.w.trace|).ret == Ok)
  {
  }

  lemma ToIdleKept(s: Sys, o: Oracle, isError: bool)
    requires Kept(s)
    ensures Kept(SegmentToIdle(s, o).0) && Kept(ApplyToIdle(s, o, isError).0)
  {
    hide FileOpen, Stranded, IdleStart, Settled;
    IdleStartSettles(s, o);
    if o(|s.w.trace|).ret != Ok {
      RefusedCloseKept(s, o);
    }
  }

  /** A restart leaves the client in SEGMENT without its file if and only if the file closes, is refused when
      it is opened again, and is refused when it is closed again. */
  lemma RestartStrands(s: Sys, o: Oracle)
    requires s.c.state == Segment && AcceptableSize(s.c.size) && FileOpen(s.w.trace)
    ensures var t, n := Restart(s, o).0, |s.w.trace|;
            t.c.state == Segment && !FileOpen(t.w.trace)
            <==> o(n + 1).ret == Ok && o(n + 2).ret != Ok && o(n + 3).ret != Ok
  {
    hide FileOpen, Stranded, IdleStart;
    var t := Reset(s.(c := s.c.(rx := {})), o);
    UplinkAside(s.(c := s.c.(rx := {})), o, []);
    var (u, r) := CallClose(t, o);
    EmitOpens(t, Closed(t.c.id, t.c.version, r));
    CloseAgain(u, o);
    var (v, q) := CallOpen(u, o, u.c.id, u.c.version, u.c.size);
    EmitOpens(u, Opened(u.c.id, u.c.version, u.c.size, q));
    CloseAgain(v, o);
  }

  /** In SEGMENT after the attempt to leave it: the close was refused, and the file is as it was. */
  lemma CloseAgain(s: Sys, o: Oracle)
    ensures var t := SegmentToIdle(s, o).0;
            && (s.c.state == Segment ==> (t.c.state == Segment <==> o(|s.w.trace|).ret != Ok))
            && (o(|s.w.trace|).ret != Ok ==> t.c == s.c && FileOpen(t.w.trace) == FileOpen(s.w.trace))
  {
    hide FileOpen;
    EmitOpens(s, Closed(s.c.id, s.c.version, o(|s.w.trace|).ret));
  }

  lemma RestartKept(s: Sys, o: Oracle)
    requires FileIsOpen(s) && s.c.state == Segment
    ensures Kept(Restart(s, o).0)
  {
    hide FileOpen, Stranded, IdleStart, SegmentToIdle;
    var t := Reset(s.(c := s.c.(rx := {})), o);
    UplinkAside(s.(c := s.c.(rx := {})), o, []);
    var (u, r) := CallClose(t, o);
    EmitOpens(t, Closed(t.c.id, t.c.version, r));
    var (v, q) := CallOpen(u, o, u.c.id, u.c.version, u.c.size);
    EmitOpens(u, Opened(u.c.id, u.c.version, u.c.size, q));
    if r != Ok {
      ToIdleKept(u, o, false);
    } else if q != Ok {
      LeavesStranded(v, o);
    }
  }

  /** The close that follows a failed reopen. */
  lemma LeavesStranded(s: Sys, o: Oracle)
    requires s.c.state == Segment && |s.w.trace| >= 2 && !FileOpen(s.w.trace)
    requires var n := |s.w.trace|;
             && s.w.trace[n - 2].Closed? && s.w.trace[n - 2].ret == Ok
             && s.w.trace[n - 1].Opened? && s.w.trace[n - 1].ret != Ok
    ensures Kept(SegmentToIdle(s, o).0)
  {
    hide FileOpen, Stranded;
    EmitOpens(s, Closed(s.c.id, s.c.version, o(|s.w.trace|).ret));
  }

  lemma FinishKept(s: Sys, o: Oracle)
    requires FileIsOpen(s) && s.c.state == Segment
    ensures Kept(Finish(s, o).0)
  {
    hide FileOpen, Stranded, VerifyFile, Restart, PassedCheck, UplinkBytes;
    var (t, r) := VerifyFile(s, o);
    VerifyFileTrace(s, o);
    forall i | |s.w.trace| <= i < |t.w.trace| ensures Aside(t.w.trace[i]) {
      assert t.w.trace[i] == Since(s, t)[i - |s.w.trace|];
    }
    AsideKeeps(s.w.trace, t.w.trace);
    if r != Ok {
      RestartKept(t, o);
    }
  }

  lemma ReceiveSegmentKept(s: Sys, o: Oracle, m: Msg)
    requires Kept(s) && s.c.state == Segment
    ensures Kept(ReceiveSegment(s, o, m).0)
  {
    hide FileOpen, Stranded, Finish, IsComplete;
    var t := WriteSegment(Reset(s, o), o, m).0;
    AsideKeeps(s.w.trace, t.w.trace);
    FinishKept(t, o);
  }

  lemma TicksKept(s: Sys, o: Oracle)
    requires Kept(s)
    ensures Kept(SegmentTick(s, o).0) && (s.c.state == Apply ==> Kept(ApplyTick(s, o).0))
  {
    hide FileOpen, Stranded, Settled, Expired, SendUplink, SegmentToIdle, ApplyToIdle, RequestBytes, UplinkBytes;
    var t := GetTime(s, o).0;
    UplinkAside(s, o, []);
    ToIdleKept(t, o, false);
    UplinkAside(t, o, RequestBytes(t.c.id, t.c.version, Missing(t.c.rx, t.c.numSegs)));
    UplinkAside(t, o, UplinkBytes(AckSegment, ACK_ACK, t.c.id, t.c.version, []));
  }

  lemma ApplyFileKept(s: Sys, o: Oracle)
    ensures Kept(ApplyFile(s, o).0)
  {
    hide FileOpen, Stranded, IdleStart, SendUplink, UplinkBytes;
    var (t, r) := CallApply(s, o);
    IdleStartSettles(t, o);
    IdleStartSettles(SendAckApply(t, o), o);
  }

  lemma MsgStepKept(s: Sys, o: Oracle, m: Msg)
    requires Kept(s)
    ensures Kept(MsgStep(s, o, m).0)
  {
    hide FileOpen, Stranded, Settled, StartSegment, SegmentToIdle, ApplyToIdle, ReceiveSegment, SegmentTick, ApplyTick,
      ApplyFile, Reset, SendUplink, RequestBytes;
    if m.msgType == TxInit || m.msgType == TxSegment {
      StartSegmentKept(s, o, m);
    }
    UplinkAside(s, o, RequestBytes(s.c.id, s.c.version, Missing(s.c.rx, s.c.numSegs)));
    ToIdleKept(s, o, false);
    TicksKept(s, o);
    ApplyFileKept(s, o);
    if s.c.state == Segment {
      ReceiveSegmentKept(s, o, m);
    }
  }

  /** In every run, while a transfer is under way, its file is open if and only if no restart has failed since
      it was opened. */
  lemma {:induction false} RunKeepsFileOpen(file: File, o: Oracle, inputs: seq<Input>)
    requires AllValid(inputs)
    ensures Kept(Run(Start(file), o, inputs))
  {
    hide MsgStep, Parse, FileOpen, Stranded;
    if inputs != [] {
      RunKeepsFileOpen(file, o, inputs[..|inputs| - 1]);
      var parsed := Parse(inputs[|inputs| - 1]);
      if parsed.Accepted? {
        MsgStepKept(Run(Start(file), o, inputs[..|inputs| - 1]), o, parsed.msg);
      }
    }
  }

  // ---------------------------------------------------------------- and when it is not

  /** Without its file the client goes on: the next segment is written all the same. */
  lemma StrandedGoesOnWriting(s: Sys, o: Oracle, m: Msg)
    requires s.c.state == Segment && m.msgType == TxSegment && IsMine(s.c, m) && !FileOpen(s.w.trace)
    ensures var t, n := MsgStep(s, o, m).0, |s.w.trace|;
            && |t.w.trace| > n + 1 && t.w.trace[n + 1].Wrote?
            && !FileOpen(t.w.trace[..n + 1])
  {
    hide FileOpen, Finish, IsComplete;
    var u := Reset(s, o);
    var v := WriteSegment(u, o, m).0;
    UplinkAside(s, o, []);
    FinishGoesOn(v, o);
    var t := MsgStep(s, o, m).0;
    assert v.w.trace <= t.w.trace;
    assert t.w.trace[..|s.w.trace| + 1] == u.w.trace;
    assert t.w.trace[|s.w.trace| + 1] == v.w.trace[|s.w.trace| + 1];
  }

  /** Fails the calls 7, 10 and 11. */
  function RefusingThree(): Oracle {
    (i: nat) => if i == 7 || i == 10 || i == 11 then Answering(Error) else Answering(Ok)
  }

  lemma RefusesThree()
    ensures var o := RefusingThree();
            && (forall i: nat | i != 7 && i != 10 && i != 11 :: o(i).ret == Ok)
            && o(7).ret == o(10).ret == o(11).ret == Error
  {
    var o := RefusingThree();
    forall i: nat | i != 7 && i != 10 && i != 11 ensures o(i).ret == Ok { assert o(i) == Answering(Ok); }
    assert o(7) == o(10) == o(11) == Answering(Error);
  }

  /** A check that cannot even begin: its first read fails. */
  lemma FirstReadFails(s: Sys, o: Oracle)
    requires o(|s.w.trace|).ret != Ok
    ensures var (t, r) := VerifyFile(s, o);
            r != Ok && t.c == s.c && |t.w.trace| == |s.w.trace| + 1 && FileOpen(t.w.trace) == FileOpen(s.w.trace)
  {
    hide FileOpen;
    var t := VerifyFile(s, o).0;
    AsideKeeps(s.w.trace, t.w.trace);
  }

  /** A run of three messages in which a segment is written to a file that is not open. */
  lemma WritesToClosedFile(file: File, id: bv32, version: bv32) returns (o: Oracle, ms: seq<Msg>)
    ensures |ms| == 3 && AllSendable(ms) && AllValid(OnTheAir(ms))
    ensures var trace := Run(Start(file), o, OnTheAir(ms)).w.trace;
            exists k | 0 <= k < |trace| :: trace[k].Wrote? && !FileOpen(trace[..k])
  {
    hide Deliver, MsgStep, Encode, Run, FileSize, FileOpen, RefusingThree;
    o := RefusingThree();
    RefusesThree();
    var init, segment := Announcement(id, version), Msg(TxSegment, id, version, 16, 0, 1, []);
    ms := [init] + [segment] + [segment];
    RunIsDeliver(Start(file), o, ms);
    DeliverOneMore(Start(file), o, [init] + [segment], segment);
    var t := Deliver(Start(file), o, [init] + [segment]);
    StrandedAfterTwo(file, o, init, segment);
    StrandedGoesOnWriting(t, o, segment);
    var trace := Run(Start(file), o, OnTheAir(ms)).w.trace;
    assert trace[|t.w.trace| + 1].Wrote? && !FileOpen(trace[..|t.w.trace| + 1]);
  }

  lemma StrandedAfterTwo(file: File, o: Oracle, init: Msg, segment: Msg)
    requires o == RefusingThree() && init == Announcement(init.id, init.version)
    requires segment == Msg(TxSegment, init.id, init.version, 16, 0, 1, [])
    ensures var t := Deliver(Start(file), o, [init] + [segment]);
            t.c.state == Segment && IsMine(t.c, segment) && !FileOpen(t.w.trace)
  {
    hide MsgStep, StartSegment, Finish, Restart, VerifyFile, FileSize, SegsOf, FileOpen, Stranded, RefusingThree,
      IsComplete, WriteBytes;
    RefusesThree();
    SixteenIsSixteen();
    OneSegment();
    var s := Start(file);
    DeliverOneMore(s, o, [init], segment);
    DeliverOneMore(s, o, [], init);
    assert [] + [init] == [init];
    StartsSegment(s, o, init);
    OpenSucceeds(s, o, init);
    StartSegmentEffect(s, o, init);
    StartSegmentOpens(s, o, init);
    var u := MsgStep(s, o, init).0;
    SegmentArrives(u, o, segment);
    var v := WriteSegment(Reset(u, o), o, segment).0;
    AsideKeeps(u.w.trace, v.w.trace);
    FirstReadFails(v, o);
    var w := VerifyFile(v, o).0;
    RestartStrands(w, o);
    RestartKeepsIdentity(w, o);
    FinishRestarts(v, o);
  }

  lemma StartSegmentOpens(s: Sys, o: Oracle, m: Msg)
    requires StartSegment(s, o, m).1 == Ok
    ensures FileOpen(StartSegment(s, o, m).0.w.trace)
  {
    hide FileOpen, Stranded, StartSegment;
    var e := StartSegmentCalls(s, o, m);
    OpenThen(s, e, StartSegment(s, o, m).0);
  }

  lemma RestartKeepsIdentity(s: Sys, o: Oracle)
    requires s.c.state == Segment
    ensures var t := Restart(s, o).0; t.c.state == Segment ==> t.c.id == s.c.id && t.c.version == s.c.version
  {
  }

  lemma FinishRestarts(s: Sys, o: Oracle)
    requires VerifyFile(s, o).1 != Ok
    ensures Finish(s, o).0 == Restart(VerifyFile(s, o).0, o).0
  {
    hide VerifyFile, Restart;
  }
}
