/** When the client leaves the downlink switched on. */
module FtpDownlink {
  import opened FtpFileCheck
  import opened FtpInvariant
  import opened FtpMessages
  import opened FtpProtocol
  import opened Octets
  import opened SegmentBitmap

  /** The last downlink setting that the host was given; off before the first. */
  function DownlinkOn(trace: seq<Event>): bool {
    if trace == [] then false
    else
      var e := trace[|trace| - 1];
      if e.Configured? then e.downlinkOn else DownlinkOn(trace[..|trace| - 1])
  }

  /** Whether the last close of a file was refused. */
  function LastCloseFailed(trace: seq<Event>): bool {
    if trace == [] then false
    else
      var e := trace[|trace| - 1];
      if e.Closed? then e.ret != Ok else LastCloseFailed(trace[..|trace| - 1])
  }

  /** The downlink is on outside IDLE; in IDLE it is on exactly when the last close failed. */
  ghost predicate Disciplined(s: Sys) {
    DownlinkOn(s.w.trace) <==> s.c.state != Idle || LastCloseFailed(s.w.trace)
  }

  predicate Neutral(e: Event) {
    !e.Configured? && !e.Closed?
  }

  lemma {:induction false} NeutralKeeps(before: seq<Event>, after: seq<Event>)
    requires before <= after && forall i | |before| <= i < |after| :: Neutral(after[i])
    ensures DownlinkOn(after) == DownlinkOn(before) && LastCloseFailed(after) == LastCloseFailed(before)
    decreases |after|
  {
    if |before| < |after| {
      NeutralKeeps(before, after[..|after| - 1]);
    } else {
      assert before == after;
    }
  }

  lemma EmitSets(s: Sys, e: Event)
    ensures DownlinkOn(Emit(s, e).w.trace) == if e.Configured? then e.downlinkOn else DownlinkOn(s.w.trace)
    ensures LastCloseFailed(Emit(s, e).w.trace) == if e.Closed? then e.ret != Ok else LastCloseFailed(s.w.trace)
  {
    assert Emit(s, e).w.trace[..|s.w.trace|] == s.w.trace;
  }

  /** Two clients have made calls that leave both settings the same. */
  ghost predicate SameSettings(s: Sys, t: Sys) {
    DownlinkOn(t.w.trace) == DownlinkOn(s.w.trace) && LastCloseFailed(t.w.trace) == LastCloseFailed(s.w.trace)
  }

  lemma SendUplinkSame(s: Sys, o: Oracle, data: seq<byte>)
    ensures SameSettings(s, SendUplink(s, o, data)) && SameSettings(s, Reset(s, o)) && SameSettings(s, GetTime(s, o).0)
    ensures SendUplink(s, o, data).c.state == Reset(s, o).c.state == s.c.state
  {
    NeutralKeeps(s.w.trace, SendUplink(s, o, data).w.trace);
    NeutralKeeps(s.w.trace, Reset(s, o).w.trace);
  }

  lemma VerifyFileSame(s: Sys, o: Oracle)
    ensures SameSettings(s, VerifyFile(s, o).0) && VerifyFile(s, o).0.c == s.c
  {
    hide VerifyFile, PassedCheck;
    var t := VerifyFile(s, o).0;
    VerifyFileTrace(s, o);
    forall i | |s.w.trace| <= i < |t.w.trace| ensures Neutral(t.w.trace[i]) {
      assert t.w.trace[i] == Since(s, t)[i - |s.w.trace|];
    }
    NeutralKeeps(s.w.trace, t.w.trace);
  }

  lemma StartSegmentDisciplined(s: Sys, o: Oracle, m: Msg)
    requires Disciplined(s)
    ensures Disciplined(StartSegment(s, o, m).0)
  {
    hide UplinkBytes, FileSize, SegsOf, DownlinkOn, LastCloseFailed, SendUplink, Reset;
    var (t, r) := CallOpen(s, o, m.id, m.version, FileSize(m.size));
    EmitSets(s, Opened(m.id, m.version, FileSize(m.size), r));
    if r == Ok {
      var u := NewFile(t, o, m);
      assert SameSettings(t, u) && u.c.state == s.c.state by {
        var v := Reset(t, o);
        SendUplinkSame(t, o, []);
        var w := v.(c := u.c.(last := v.c.last));
        var data := UplinkBytes(AckInit, ACK_ACK, m.id, m.version, []);
        assert u == SendUplink(v.(c := v.c.(id := m.id, version := m.version, size := FileSize(m.size),
                                            numSegs := SegsOf(FileSize(m.size)), rx := {})), o, data);
        SendUplinkSame(v.(c := v.c.(id := m.id, version := m.version, size := FileSize(m.size),
                                    numSegs := SegsOf(FileSize(m.size)), rx := {})), o, data);
      }
      EmitSets(u, Configured(true));
    } else {
      SendUplinkSame(t, o, UplinkBytes(AckInit, ACK_NAK, t.c.id, t.c.version, []));
    }
  }

  lemma IdleStartSets(s: Sys, o: Oracle)
    requires s.c.state != Idle ==> Disciplined(s)
    ensures var (t, r) := IdleStart(s, o);
            && t.c == s.c
            && (r == Ok ==> !DownlinkOn(t.w.trace) && !LastCloseFailed(t.w.trace))
            && (r != Ok ==> DownlinkOn(t.w.trace) == DownlinkOn(s.w.trace) && LastCloseFailed(t.w.trace))
  {
    hide DownlinkOn, LastCloseFailed;
    var (t, r) := CallClose(s, o);
    EmitSets(s, Closed(s.c.id, s.c.version, r));
    EmitSets(t, Configured(false));
  }

  lemma ToIdleDisciplined(s: Sys, o: Oracle, isError: bool)
    requires Disciplined(s) && s.c.state != Idle
    ensures Disciplined(SegmentToIdle(s, o).0) && Disciplined(ApplyToIdle(s, o, isError).0)
  {
    hide DownlinkOn, LastCloseFailed, IdleStart;
    IdleStartSets(s, o);
  }

  lemma FinishDisciplined(s: Sys, o: Oracle)
    requires Disciplined(s) && s.c.state == Segment
    ensures Disciplined(Finish(s, o).0)
  {
    hide DownlinkOn, LastCloseFailed, VerifyFile, SegmentToIdle, UplinkBytes, SendUplink, Reset;
    var (t, r) := VerifyFile(s, o);
    VerifyFileSame(s, o);
    if r == Ok {
      var (u, q) := CallClose(t, o);
      EmitSets(t, Closed(t.c.id, t.c.version, q));
      SendUplinkSame(u, o, UplinkBytes(AckSegment, ACK_ACK, u.c.id, u.c.version, []));
    } else {
      var forgotten := t.(c := t.c.(rx := {}));
      var u := Reset(forgotten, o);
      SendUplinkSame(forgotten, o, []);
      var (v, q) := CallClose(u, o);
      EmitSets(u, Closed(u.c.id, u.c.version, q));
      ToIdleDisciplined(v, o, false);
      var (w, p) := CallOpen(v, o, v.c.id, v.c.version, v.c.size);
      EmitSets(v, Opened(v.c.id, v.c.version, v.c.size, p));
      ToIdleDisciplined(w, o, false);
    }
  }

  lemma ReceiveSegmentDisciplined(s: Sys, o: Oracle, m: Msg)
    requires Disciplined(s) && s.c.state == Segment
    ensures Disciplined(ReceiveSegment(s, o, m).0)
  {
    hide DownlinkOn, LastCloseFailed, Finish, Reset, IsComplete;
    SendUplinkSame(s, o, []);
    var u := Reset(s, o);
    var (t, r) := CallWrite(u, o, m.id, m.version, m.segNum * MAX_FILE_SEGMENT_BYTES, m.payload);
    EmitSets(u, Wrote(m.id, m.version, m.segNum * MAX_FILE_SEGMENT_BYTES, m.payload, r));
    FinishDisciplined(WriteSegment(u, o, m).0, o);
  }

  lemma TicksDisciplined(s: Sys, o: Oracle)
    requires Disciplined(s) && s.c.state != Idle
    ensures Disciplined(SegmentTick(s, o).0) && Disciplined(ApplyTick(s, o).0)
  {
    hide DownlinkOn, LastCloseFailed, Expired, SendUplink, SegmentToIdle, ApplyToIdle, RequestBytes, UplinkBytes;
    var t := GetTime(s, o).0;
    SendUplinkSame(s, o, []);
    ToIdleDisciplined(t, o, false);
    SendUplinkSame(t, o, RequestBytes(t.c.id, t.c.version, Missing(t.c.rx, t.c.numSegs)));
    SendUplinkSame(t, o, UplinkBytes(AckSegment, ACK_ACK, t.c.id, t.c.version, []));
  }

  lemma ApplyFileDisciplined(s: Sys, o: Oracle)
    requires Disciplined(s) && s.c.state == Apply
    ensures Disciplined(ApplyFile(s, o).0)
  {
    hide DownlinkOn, LastCloseFailed, SendUplink, ApplyToIdle, UplinkBytes;
    var (t, r) := CallApply(s, o);
    EmitSets(s, Applied(s.c.id, s.c.version, s.c.size, r));
    SendUplinkSame(t, o, UplinkBytes(AckApply, ACK_ACK, t.c.id, t.c.version, []));
    ToIdleDisciplined(SendAckApply(t, o), o, false);
    ToIdleDisciplined(t, o, true);
  }

  lemma MsgStepDisciplined(s: Sys, o: Oracle, m: Msg)
    requires Disciplined(s)
    ensures Disciplined(MsgStep(s, o, m).0)
  {
    hide DownlinkOn, LastCloseFailed, StartSegment, SegmentToIdle, ApplyToIdle, ReceiveSegment, SegmentTick, ApplyTick,
      ApplyFile, Reset, SendUplink, RequestBytes;
    StartSegmentDisciplined(s, o, m);
    SendUplinkSame(s, o, RequestBytes(s.c.id, s.c.version, Missing(s.c.rx, s.c.numSegs)));
    if s.c.state != Idle {
      ToIdleDisciplined(s, o, false);
      TicksDisciplined(s, o);
      if s.c.state == Segment {
        ReceiveSegmentDisciplined(s, o, m);
      } else {
        ApplyFileDisciplined(s, o);
      }
    }
  }

  /** In every reachable state the downlink is on exactly outside IDLE or after a refused close. */
  lemma {:induction false} RunIsDisciplined(file: File, o: Oracle, inputs: seq<Input>)
    requires AllValid(inputs)
    ensures Disciplined(Run(Start(file), o, inputs))
  {
    hide MsgStep, Parse;
    if inputs != [] {
      RunIsDisciplined(file, o, inputs[..|inputs| - 1]);
      var parsed := Parse(inputs[|inputs| - 1]);
      if parsed.Accepted? {
        MsgStepDisciplined(Run(Start(file), o, inputs[..|inputs| - 1]), o, parsed.msg);
      }
    }
  }

  lemma {:induction false} NoFailedClose(trace: seq<Event>)
    requires forall i | 0 <= i < |trace| :: trace[i].Closed? ==> trace[i].ret == Ok
    ensures !LastCloseFailed(trace)
  {
    if trace != [] {
      NoFailedClose(trace[..|trace| - 1]);
    }
  }

  /** If no close ever fails, the downlink is on exactly when a transfer is under way. */
  lemma DownlinkFollowsState(file: File, o: Oracle, inputs: seq<Input>)
    requires AllValid(inputs)
    requires forall e | e in Run(Start(file), o, inputs).w.trace :: e.Closed? ==> e.ret == Ok
    ensures var s := Run(Start(file), o, inputs);
            DownlinkOn(s.w.trace) <==> s.c.state != Idle
  {
    hide Run;
    RunIsDisciplined(file, o, inputs);
    NoFailedClose(Run(Start(file), o, inputs).w.trace);
  }

  /** Without that the promise fails: a cancel in APPLY goes to IDLE although the close is refused, and
      the downlink stays on. */
  lemma RefusedCloseLeavesDownlinkOn(s: Sys, o: Oracle)
    requires Disciplined(s) && s.c.state == Apply && o(|s.w.trace|).ret != Ok
    ensures var t := MsgStep(s, o, Msg(TxCancel, s.c.id, s.c.version, 0, 0, 0, [])).0;
            t.c.state == Idle && DownlinkOn(t.w.trace)
  {
    hide DownlinkOn, LastCloseFailed, IdleStart;
    IdleStartSets(s, o);
    var (t, r) := IdleStart(s, o);
    assert r == Error by { IdleStartRefused(s, o); }
  }

  lemma IdleStartRefused(s: Sys, o: Oracle)
    requires o(|s.w.trace|).ret != Ok
    ensures IdleStart(s, o).1 == Error
  {
  }
}
