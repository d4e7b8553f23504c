/** The client object over whole runs, and what the host is told to apply in the end. */
module FtpEndToEnd {
  import FtpClient
  import opened FtpApplySafety
  import opened FtpFileCheck
  import opened FtpInvariant
  import opened FtpMessages
  import opened FtpProtocol
  import opened FtpReassembly
  import FtpReference
  import opened Octets
  import opened SegmentBitmap

  // ---------------------------------------------------------------- the object

  /** The object, handed one input after the other, goes through exactly the run of those inputs. */
  method Serve(file: File, replies: Oracle, inputs: seq<Input>) returns (c: FtpClient.Client)
    requires AllValid(inputs)
    ensures c.Valid() && c.host.replies == replies
    ensures c.View() == Run(Start(file), replies, inputs)
  {
    hide Step, ValidInput;
    var host := new FtpClient.Host(replies, file);
    c := new FtpClient.Client(host);
    for i := 0 to |inputs|
      invariant c.Valid() && c.host == host && fresh(host) && fresh(c) && fresh(c.rxSegs) && fresh(c.txBuf)
      invariant AllValid(inputs[..i]) && c.View() == Run(Start(file), replies, inputs[..i])
    {
      assert inputs[..i + 1][..i] == inputs[..i];
      var ret;
      match inputs[i]
      case Timeout =>
        ret := c.MsgProcess(null, 0);
      case Downlink(bytes) =>
        var buf := new byte[|bytes|](k requires 0 <= k < |bytes| => bytes[k]);
        assert buf[..|bytes|] == bytes;
        ret := c.MsgProcess(buf, |bytes|);
    }
    assert inputs[..|inputs|] == inputs;
  }

  // ---------------------------------------------------------------- what is applied

  ghost predicate NoApply(s: Sys, t: Sys) {
    Continues(s, t) && forall i | |s.w.trace| <= i < |t.w.trace| :: !t.w.trace[i].Applied?
  }

  lemma NoApplyJoins(s: Sys, t: Sys, u: Sys)
    requires NoApply(s, t) && NoApply(t, u)
    ensures NoApply(s, u)
  {
    forall i | |s.w.trace| <= i < |u.w.trace| ensures !u.w.trace[i].Applied? {
      if i < |t.w.trace| {
        assert u.w.trace[i] == t.w.trace[i];
      }
    }
  }

  lemma StartSegmentAppliesNothing(s: Sys, o: Oracle, m: Msg)
    ensures NoApply(s, StartSegment(s, o, m).0)
  {
    hide StartSegment;
    var e := StartSegmentTrace(s, o, m);
    NoApplyJoins(s, Emit(s, e), StartSegment(s, o, m).0);
  }

  lemma FinishAppliesNothing(s: Sys, o: Oracle)
    ensures NoApply(s, Finish(s, o).0)
  {
    hide VerifyFile, PassedCheck, SegmentToApply, Restart;
    var (t, r) := VerifyFile(s, o);
    VerifyFileTrace(s, o);
    forall i | |s.w.trace| <= i < |t.w.trace| ensures !t.w.trace[i].Applied? {
      assert t.w.trace[i] == Since(s, t)[i - |s.w.trace|];
    }
    MovesOnWithoutApply(t, o);
    NoApplyJoins(s, t, Finish(s, o).0);
  }

  lemma MovesOnWithoutApply(s: Sys, o: Oracle)
    ensures NoApply(s, SegmentToApply(s, o).0) && NoApply(s, Restart(s, o).0)
  {
    hide UplinkBytes, SegmentToIdle;
    var (t, r) := CallClose(Reset(s.(c := s.c.(rx := {})), o), o);
    ToIdleAppliesNothing(t, o, false);
    ToIdleAppliesNothing(CallOpen(t, o, t.c.id, t.c.version, t.c.size).0, o, false);
  }

  lemma ReceiveSegmentAppliesNothing(s: Sys, o: Oracle, m: Msg)
    ensures NoApply(s, ReceiveSegment(s, o, m).0)
  {
    hide Finish, IsComplete;
    var t := WriteSegment(Reset(s, o), o, m).0;
    FinishAppliesNothing(t, o);
    NoApplyJoins(s, t, Finish(t, o).0);
  }

  lemma ToIdleAppliesNothing(s: Sys, o: Oracle, isError: bool)
    ensures NoApply(s, SegmentToIdle(s, o).0)
    ensures NoApply(s, ApplyToIdle(s, o, isError).0) && ApplyToIdle(s, o, isError).0.w.file == s.w.file
  {
  }

  lemma TicksApplyNothing(s: Sys, o: Oracle)
    ensures NoApply(s, SegmentTick(s, o).0) && NoApply(s, ApplyTick(s, o).0)
  {
    hide UplinkBytes, RequestBytes, Expired, SegmentToIdle, ApplyToIdle;
    ToIdleAppliesNothing(GetTime(s, o).0, o, false);
  }

  lemma ApplyFileAppliesOnce(s: Sys, o: Oracle)
    ensures var t, n := ApplyFile(s, o).0, |s.w.trace|;
            && |t.w.trace| > n && t.w.trace[n] == Applied(s.c.id, s.c.version, s.c.size, o(n).ret)
            && (forall i | n < i < |t.w.trace| :: !t.w.trace[i].Applied?)
  {
    hide UplinkBytes, ApplyToIdle;
    var (t, r) := CallApply(s, o);
    ToIdleAppliesNothing(t, o, true);
    ToIdleAppliesNothing(SendAckApply(t, o), o, false);
  }

  /** A step applies a file only in APPLY, as its first call, and under the client's own id and version. */
  lemma StepApplies(s: Sys, o: Oracle, m: Msg, k: nat)
    requires |s.w.trace| <= k < |MsgStep(s, o, m).0.w.trace| && MsgStep(s, o, m).0.w.trace[k].Applied?
    ensures s.c.state == Apply && k == |s.w.trace|
    ensures MsgStep(s, o, m).0.w.trace[k] == Applied(s.c.id, s.c.version, s.c.size, o(k).ret)
  {
    hide StartSegment, SegmentToIdle, ApplyToIdle, ReceiveSegment, SegmentTick, ApplyTick, ApplyFile, RequestBytes;
    StartSegmentAppliesNothing(s, o, m);
    ToIdleAppliesNothing(s, o, false);
    TicksApplyNothing(s, o);
    ReceiveSegmentAppliesNothing(s, o, m);
    ApplyFileAppliesOnce(s, o);
  }

  /** Which steps apply a file: those that get the order for it in APPLY, and no others. */
  lemma AppliesExactlyWhenOrdered(s: Sys, o: Oracle, m: Msg)
    ensures (exists k | |s.w.trace| <= k < |MsgStep(s, o, m).0.w.trace| :: MsgStep(s, o, m).0.w.trace[k].Applied?)
            <==> s.c.state == Apply && m.msgType == TxApply && m.id == s.c.id && m.version == s.c.version
  {
    hide MsgStep;
    var t := MsgStep(s, o, m).0;
    if s.c.state == Apply && m.msgType == TxApply && m.id == s.c.id && m.version == s.c.version {
      OrderedIsApplied(s, o, m);
    }
    if k :| |s.w.trace| <= k < |t.w.trace| && t.w.trace[k].Applied? {
      StepApplies(s, o, m, k);
      if !(m.msgType == TxApply && m.id == s.c.id && m.version == s.c.version) {
        NotOrderedIsNotApplied(s, o, m);
      }
    }
  }

  lemma OrderedIsApplied(s: Sys, o: Oracle, m: Msg)
    requires s.c.state == Apply && m.msgType == TxApply && FtpReference.NamesFileOf(s.c, m)
    ensures var t := MsgStep(s, o, m).0; |t.w.trace| > |s.w.trace| && t.w.trace[|s.w.trace|].Applied?
  {
    hide MsgStep, FtpReference.Says;
    FtpReference.AppliedInApply(s, o, m);
  }

  lemma NotOrderedIsNotApplied(s: Sys, o: Oracle, m: Msg)
    requires s.c.state == Apply && !(m.msgType == TxApply && FtpReference.NamesFileOf(s.c, m))
    ensures NoApply(s, MsgStep(s, o, m).0)
  {
    hide StartSegment, ApplyToIdle, ApplyTick, ApplyFile;
    StartSegmentAppliesNothing(s, o, m);
    ToIdleAppliesNothing(s, o, false);
    TicksApplyNothing(s, o);
  }

  /** End to end: whenever, after messages whose segments were genuine, the host is told to apply a file, the
      store then holds what the server has under that id and version: byte by byte over the announced size,
      and all of it when that size was right. */
  lemma AppliedIsTheFile(file: File, o: Oracle, inputs: seq<Input>, input: Input, src: Sources, k: nat)
    requires AllValid(inputs) && AllGenuine(inputs, src) && ValidInput(input)
    requires var s := Run(Start(file), o, inputs);
             var t := Step(s, o, input).0;
             |s.w.trace| <= k < |t.w.trace| && t.w.trace[k].Applied?
    ensures var s := Run(Start(file), o, inputs);
            var e := Step(s, o, input).0.w.trace[k];
            var f := src(e.id, e.version);
            && k == |s.w.trace| && 0 < e.size
            && (forall j: nat | j < e.size && j < |f| :: s.w.file(j) == f[j])
            && (e.size == |f| ==> FileBytes(s.w.file, 0, e.size) == f)
  {
    hide Run, MsgStep, Parse, FileBytes, IsComplete;
    var s := Run(Start(file), o, inputs);
    StepApplies(s, o, Parse(input).msg, k);
    ReachableInv(file, o, inputs);
    ApplyHoldsTheFile(file, o, inputs, src);
  }
}
