/** The client is causal: what it does depends on the answers it was given, and on none to come. */
module FtpCausality {
  import opened Bytes
  import opened CyclicCheck32
  import opened FtpFileCheck
  import opened FtpMessages
  import opened FtpProtocol
  import opened FtpRepair
  import opened SegmentBitmap

  /** The two oracles give the same answers to the calls from a up to b. */
  ghost predicate Agree(o: Oracle, p: Oracle, a: nat, b: nat) {
    forall i: nat | a <= i < b :: o(i) == p(i)
  }

  lemma StartSegmentIsCausal(s: Sys, o: Oracle, p: Oracle, m: Msg)
    requires Agree(o, p, |s.w.trace|, |StartSegment(s, o, m).0.w.trace|)
    ensures StartSegment(s, p, m) == StartSegment(s, o, m) && Continues(s, StartSegment(s, o, m).0)
  {
    hide UplinkBytes, FileSize, SegsOf;
  }

  lemma ToIdleIsCausal(s: Sys, o: Oracle, p: Oracle, isError: bool)
    ensures Continues(s, SegmentToIdle(s, o).0) && Continues(s, ApplyToIdle(s, o, isError).0)
    ensures Agree(o, p, |s.w.trace|, |SegmentToIdle(s, o).0.w.trace|) ==> SegmentToIdle(s, p) == SegmentToIdle(s, o)
    ensures Agree(o, p, |s.w.trace|, |ApplyToIdle(s, o, isError).0.w.trace|) ==>
              ApplyToIdle(s, p, isError) == ApplyToIdle(s, o, isError)
  {
  }

  lemma {:induction false} FileCrcIsCausal(s: Sys, o: Oracle, p: Oracle, offset: nat, crc: bv32)
    requires offset <= HDR_LEN + s.c.size
    requires Agree(o, p, |s.w.trace|, |FileCrc(s, o, offset, crc).0.w.trace|)
    ensures FileCrc(s, p, offset, crc) == FileCrc(s, o, offset, crc)
    decreases HDR_LEN + s.c.size - offset
  {
    hide Crc32, FileBytes;
    if offset < HDR_LEN + s.c.size {
      var (u, at, next) := NextChunk(s, o, offset, crc);
      FileCrcReadsAll(u, o, at, next);
      FileCrcIsCausal(u, o, p, at, next);
    }
  }

  lemma VerifyFileIsCausal(s: Sys, o: Oracle, p: Oracle)
    requires Agree(o, p, |s.w.trace|, |VerifyFile(s, o).0.w.trace|)
    ensures VerifyFile(s, p) == VerifyFile(s, o)
  {
    hide FileCrc, WordAt, FileSize, FileBytes;
    var (t, r, crc) := VerifyFileInfo(s, o);
    if r == Ok {
      FileCrcReadsAll(t, o, HDR_OFFSET_SIZE, 0);
      FileCrcIsCausal(t, o, p, HDR_OFFSET_SIZE, 0);
    }
  }

  lemma RestartIsCausal(s: Sys, o: Oracle, p: Oracle)
    requires Agree(o, p, |s.w.trace|, |Restart(s, o).0.w.trace|)
    ensures Restart(s, p) == Restart(s, o) && Continues(s, Restart(s, o).0)
  {
    hide SegmentToIdle;
    var (t, r) := CallClose(Reset(s.(c := s.c.(rx := {})), o), o);
    ToIdleIsCausal(t, o, p, false);
    ToIdleIsCausal(CallOpen(t, o, t.c.id, t.c.version, t.c.size).0, o, p, false);
  }

  lemma SegmentToApplyIsCausal(s: Sys, o: Oracle, p: Oracle)
    requires Agree(o, p, |s.w.trace|, |SegmentToApply(s, o).0.w.trace|)
    ensures SegmentToApply(s, p) == SegmentToApply(s, o) && Continues(s, SegmentToApply(s, o).0)
  {
    hide UplinkBytes;
  }

  lemma FinishIsCausal(s: Sys, o: Oracle, p: Oracle)
    requires Agree(o, p, |s.w.trace|, |Finish(s, o).0.w.trace|)
    ensures Finish(s, p) == Finish(s, o) && Continues(s, Finish(s, o).0)
  {
    hide VerifyFile, Restart, SegmentToApply, PassedCheck;
    var (t, r) := VerifyFile(s, o);
    VerifyFileTrace(s, o);
    FinishContinues(t, o);
    VerifyFileIsCausal(s, o, p);
    if r == Ok {
      SegmentToApplyIsCausal(t, o, p);
    } else {
      RestartIsCausal(t, o, p);
    }
  }

  lemma FinishContinues(s: Sys, o: Oracle)
    ensures Continues(s, SegmentToApply(s, o).0) && Continues(s, Restart(s, o).0)
  {
    hide SegmentToApply, Restart;
    SegmentToApplyIsCausal(s, o, o);
    RestartIsCausal(s, o, o);
  }

  lemma ReceiveSegmentIsCausal(s: Sys, o: Oracle, p: Oracle, m: Msg)
    requires Agree(o, p, |s.w.trace|, |ReceiveSegment(s, o, m).0.w.trace|)
    ensures ReceiveSegment(s, p, m) == ReceiveSegment(s, o, m) && Continues(s, ReceiveSegment(s, o, m).0)
  {
    hide Finish, IsComplete, VerifyFile;
    var t := WriteSegment(Reset(s, o), o, m).0;
    if IsComplete(t.c.rx, t.c.numSegs) {
      FinishGoesOn(t, o);
      FinishIsCausal(t, o, p);
    }
  }

  lemma FinishGoesOn(s: Sys, o: Oracle)
    ensures Continues(s, Finish(s, o).0)
  {
    hide VerifyFile, Restart, SegmentToApply, PassedCheck;
    VerifyFileTrace(s, o);
    FinishContinues(VerifyFile(s, o).0, o);
  }

  lemma TicksAreCausal(s: Sys, o: Oracle, p: Oracle)
    ensures Continues(s, SegmentTick(s, o).0) && Continues(s, ApplyTick(s, o).0)
    ensures Agree(o, p, |s.w.trace|, |SegmentTick(s, o).0.w.trace|) ==> SegmentTick(s, p) == SegmentTick(s, o)
    ensures Agree(o, p, |s.w.trace|, |ApplyTick(s, o).0.w.trace|) ==> ApplyTick(s, p) == ApplyTick(s, o)
  {
    hide UplinkBytes, RequestBytes, Expired, SegmentToIdle, ApplyToIdle;
    ToIdleIsCausal(GetTime(s, o).0, o, p, false);
  }

  lemma ApplyFileIsCausal(s: Sys, o: Oracle, p: Oracle)
    requires Agree(o, p, |s.w.trace|, |ApplyFile(s, o).0.w.trace|)
    ensures ApplyFile(s, p) == ApplyFile(s, o) && Continues(s, ApplyFile(s, o).0)
  {
    hide UplinkBytes, ApplyToIdle;
    var (t, r) := CallApply(s, o);
    ToIdleIsCausal(t, o, p, true);
    ToIdleIsCausal(SendAckApply(t, o), o, p, false);
  }

  lemma MsgStepContinues(s: Sys, o: Oracle, m: Msg)
    ensures Continues(s, MsgStep(s, o, m).0)
  {
    hide StartSegment, SegmentToIdle, ApplyToIdle, ReceiveSegment, SegmentTick, ApplyTick, ApplyFile, RequestBytes;
    StartSegmentIsCausal(s, o, o, m);
    ToIdleIsCausal(s, o, o, false);
    TicksAreCausal(s, o, o);
    ReceiveSegmentIsCausal(s, o, o, m);
    ApplyFileIsCausal(s, o, o);
  }

  lemma MsgStepIsCausal(s: Sys, o: Oracle, p: Oracle, m: Msg)
    requires Agree(o, p, |s.w.trace|, |MsgStep(s, o, m).0.w.trace|)
    ensures MsgStep(s, p, m) == MsgStep(s, o, m)
  {
    hide StartSegment, SegmentToIdle, ApplyToIdle, ReceiveSegment, SegmentTick, ApplyTick, ApplyFile, RequestBytes;
    match s.c.state
    case Idle =>
      if m.msgType == TxInit || m.msgType == TxSegment {
        StartSegmentIsCausal(s, o, p, m);
      }
    case Segment =>
      SegmentStepIsCausal(s, o, p, m);
    case Apply =>
      ApplyStepIsCausal(s, o, p, m);
  }

  lemma SegmentStepIsCausal(s: Sys, o: Oracle, p: Oracle, m: Msg)
    requires Agree(o, p, |s.w.trace|, |SegmentStep(s, o, m).0.w.trace|)
    ensures SegmentStep(s, p, m) == SegmentStep(s, o, m)
  {
    hide StartSegment, SegmentToIdle, ReceiveSegment, SegmentTick, RequestBytes;
    ToIdleIsCausal(s, o, p, false);
    TicksAreCausal(s, o, p);
    if (m.msgType == TxInit || m.msgType == TxSegment) && !IsMine(s.c, m) {
      StartSegmentIsCausal(s, o, p, m);
    } else if m.msgType == TxSegment {
      ReceiveSegmentIsCausal(s, o, p, m);
    }
  }

  lemma ApplyStepIsCausal(s: Sys, o: Oracle, p: Oracle, m: Msg)
    requires Agree(o, p, |s.w.trace|, |ApplyStep(s, o, m).0.w.trace|)
    ensures ApplyStep(s, p, m) == ApplyStep(s, o, m)
  {
    hide StartSegment, ApplyToIdle, ApplyTick, ApplyFile;
    ToIdleIsCausal(s, o, p, false);
    TicksAreCausal(s, o, p);
    if (m.msgType == TxInit || m.msgType == TxSegment) && !IsMine(s.c, m) {
      StartSegmentIsCausal(s, o, p, m);
    } else if m.msgType == TxApply && IsMine(s.c, m) {
      ApplyFileIsCausal(s, o, p);
    }
  }

  /** What the client does depends on the answers it got, and on none that it might have got later. */
  lemma {:induction false} DeliverIsCausal(s: Sys, o: Oracle, p: Oracle, ms: seq<Msg>)
    requires Agree(o, p, |s.w.trace|, |Deliver(s, o, ms).w.trace|)
    ensures Deliver(s, p, ms) == Deliver(s, o, ms) && Continues(s, Deliver(s, o, ms))
  {
    hide MsgStep;
    if ms != [] {
      var before, m := ms[..|ms| - 1], ms[|ms| - 1];
      DeliverContinues(s, o, before);
      MsgStepContinues(Deliver(s, o, before), o, m);
      DeliverIsCausal(s, o, p, before);
      MsgStepIsCausal(Deliver(s, o, before), o, p, m);
    }
  }

  lemma {:induction false} DeliverContinues(s: Sys, o: Oracle, ms: seq<Msg>)
    ensures Continues(s, Deliver(s, o, ms))
  {
    hide MsgStep;
    if ms != [] {
      DeliverContinues(s, o, ms[..|ms| - 1]);
      MsgStepContinues(Deliver(s, o, ms[..|ms| - 1]), o, ms[|ms| - 1]);
    }
  }
}
