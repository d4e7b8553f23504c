/** What the client's uplinks tell the server, held against the calls that came before them. Acknowledgements
    and requests are borne out by these. A refusal says that an open has just failed; of which file it does
    not say, because it bears the client's own (see FtpRefusals). */
module FtpHonesty {
  import opened Bytes
  import opened FtpApplySafety
  import opened FtpFileCheck
  import opened FtpInvariant
  import opened FtpMessages
  import opened FtpProtocol
  import opened FtpStored
  import opened Octets
  import opened SegmentBitmap

  /** The last call but for readings of the clock was an open of this file, and it succeeded. */
  predicate JustOpened(trace: seq<Event>, id: bv32, version: bv32) {
    trace != [] &&
    var e := trace[|trace| - 1];
    if e.ClockRead? then JustOpened(trace[..|trace| - 1], id, version)
    else OpenOk(e) && e.id == id && e.version == version
  }

  /** The last call was an open, and it failed. */
  predicate JustRefused(trace: seq<Event>) {
    trace != [] && trace[|trace| - 1].Opened? && trace[|trace| - 1].ret != Ok
  }

  /** A file of this id and version is in transfer, and s asks for exactly those of its segments that are not
      stored: by number below 16, and for everything from 16 on. */
  ghost predicate AsksForTheRest(trace: seq<Event>, id: bv32, version: bv32, s: seq<byte>)
    requires |s| >= BASE_UL_MSG_LEN
  {
    exists size: nat ::
      && InTransfer(trace, id, version, size, StoredNow(trace))
      && ReadRequest(s) == RequestFor(Missing(StoredNow(trace), SegsOf(size)))
  }

  function RequestFor(missing: seq<nat>): Request {
    if |missing| < 16 then Segments(missing) else Everything
  }

  /** Every segment of such a file was stored, and its header and CRC were checked, and it was closed. */
  ghost predicate HasWholeFile(trace: seq<Event>, id: bv32, version: bv32) {
    exists size: nat :: Ready(trace, id, version, size)
  }

  predicate JustApplied(trace: seq<Event>, id: bv32, version: bv32) {
    trace != [] &&
    var e := trace[|trace| - 1];
    e.Applied? && e.id == id && e.version == version && e.ret == Ok
  }

  /** The uplink s, sent after the calls of trace, is borne out by them. */
  ghost predicate Truthful(trace: seq<Event>, s: seq<byte>) {
    |s| >= BASE_UL_MSG_LEN &&
    var id, version := WordAt(s, 6), WordAt(s, 10);
    if s[0] == CodeOf(AckInit) then
      if s[5] == ACK_ACK then JustOpened(trace, id, version) else s[5] == ACK_NAK && JustRefused(trace)
    else if s[0] == CodeOf(AckApply) then s[5] == ACK_ACK && JustApplied(trace, id, version)
    else
      && s[0] == CodeOf(AckSegment)
      && if ReadRequest(s) == Nothing then HasWholeFile(trace, id, version) else AsksForTheRest(trace, id, version, s)
  }

  /** Every uplink was borne out, and every apply that succeeded was reported at once. */
  ghost predicate Honest(trace: seq<Event>) {
    && (forall k | 0 <= k < |trace| && trace[k].Uplinked? :: Truthful(trace[..k], trace[k].data))
    && (forall k | 0 <= k < |trace| && trace[k].Applied? && trace[k].ret == Ok ::
          k + 1 < |trace| && trace[k + 1] == ApplyReport(trace[k].id, trace[k].version))
  }

  function ApplyReport(id: bv32, version: bv32): Event {
    Uplinked(UplinkBytes(AckApply, ACK_ACK, id, version, []))
  }

  // ---------------------------------------------------------------- quiet calls and single uplinks

  ghost predicate Quiet(s: Sys, t: Sys) {
    && Continues(s, t)
    && forall i | |s.w.trace| <= i < |t.w.trace| ::
         !t.w.trace[i].Uplinked? && !(t.w.trace[i].Applied? && t.w.trace[i].ret == Ok)
  }

  lemma QuietKeeps(s: Sys, t: Sys)
    requires Honest(s.w.trace) && Quiet(s, t)
    ensures Honest(t.w.trace)
  {
    hide Truthful, ApplyReport;
    forall k | 0 <= k < |t.w.trace| && t.w.trace[k].Uplinked? ensures Truthful(t.w.trace[..k], t.w.trace[k].data) {
      assert t.w.trace[..k] == s.w.trace[..k] && t.w.trace[k] == s.w.trace[k];
    }
    forall k | 0 <= k < |t.w.trace| && t.w.trace[k].Applied? && t.w.trace[k].ret == Ok
      ensures k + 1 < |t.w.trace| && t.w.trace[k + 1] == ApplyReport(t.w.trace[k].id, t.w.trace[k].version)
    {
      assert t.w.trace[k] == s.w.trace[k] && t.w.trace[k + 1] == s.w.trace[k + 1];
    }
  }

  lemma UplinkKeeps(s: Sys, o: Oracle, data: seq<byte>)
    requires Honest(s.w.trace) && Truthful(s.w.trace, data)
    ensures Honest(SendUplink(s, o, data).w.trace)
  {
    hide Truthful, ApplyReport;
    var t := SendUplink(s, o, data);
    forall k | 0 <= k < |t.w.trace| && t.w.trace[k].Uplinked? ensures Truthful(t.w.trace[..k], t.w.trace[k].data) {
      if k < |s.w.trace| {
        assert t.w.trace[..k] == s.w.trace[..k] && t.w.trace[k] == s.w.trace[k];
      } else {
        assert t.w.trace[..k] == s.w.trace;
      }
    }
    forall k | 0 <= k < |t.w.trace| && t.w.trace[k].Applied? && t.w.trace[k].ret == Ok
      ensures k + 1 < |t.w.trace| && t.w.trace[k + 1] == ApplyReport(t.w.trace[k].id, t.w.trace[k].version)
    {
      assert t.w.trace[k] == s.w.trace[k] && t.w.trace[k + 1] == s.w.trace[k + 1];
    }
  }

  /** What stands in an uplink. */
  lemma UplinkSays(t: MsgType, ack: byte, id: bv32, version: bv32)
    ensures var s := UplinkBytes(t, ack, id, version, []);
            s[0] == CodeOf(t) && s[5] == ack && WordAt(s, 6) == id && WordAt(s, 10) == version
  {
    hide CodeOf, WordAt;
    UplinkIsIntact(t, ack, id, version, []);
  }

  lemma OpenTruthful(trace: seq<Event>, id: bv32, version: bv32)
    requires JustOpened(trace, id, version)
    ensures Truthful(trace, UplinkBytes(AckInit, ACK_ACK, id, version, []))
  {
    hide WordAt, UplinkBytes, JustOpened;
    UplinkSays(AckInit, ACK_ACK, id, version);
  }

  lemma RefusalTruthful(trace: seq<Event>, id: bv32, version: bv32)
    requires JustRefused(trace)
    ensures Truthful(trace, UplinkBytes(AckInit, ACK_NAK, id, version, []))
  {
    hide WordAt, UplinkBytes, JustRefused;
    UplinkSays(AckInit, ACK_NAK, id, version);
  }

  lemma CompleteTruthful(trace: seq<Event>, id: bv32, version: bv32, size: nat)
    requires Ready(trace, id, version, size)
    ensures Truthful(trace, UplinkBytes(AckSegment, ACK_ACK, id, version, []))
  {
    hide WordAt, UplinkBytes, Ready;
    UplinkSays(AckSegment, ACK_ACK, id, version);
    assert HasWholeFile(trace, id, version);
  }

  lemma ApplyTruthful(trace: seq<Event>, id: bv32, version: bv32)
    requires JustApplied(trace, id, version)
    ensures Truthful(trace, UplinkBytes(AckApply, ACK_ACK, id, version, []))
  {
    hide WordAt, UplinkBytes, JustApplied;
    UplinkSays(AckApply, ACK_ACK, id, version);
  }

  lemma RequestTruthful(s: Sys)
    requires Safe(s) && Inv(s.c) && Tracks(s) && s.c.state == Segment
    ensures Truthful(s.w.trace, RequestBytes(s.c.id, s.c.version, Missing(s.c.rx, s.c.numSegs)))
  {
    hide WordAt, InTransfer, Ready, AppliesWereReady, UplinkBytes, SegmentList, Missing, IsComplete, SegsOf, StoredNow;
    RequestIsExact(s.c.id, s.c.version, s.c.rx, s.c.numSegs);
    var data := RequestBytes(s.c.id, s.c.version, Missing(s.c.rx, s.c.numSegs));
    assert InTransfer(s.w.trace, s.c.id, s.c.version, s.c.size, StoredNow(s.w.trace));
    assert AsksForTheRest(s.w.trace, s.c.id, s.c.version, data);
  }

  // ---------------------------------------------------------------- the steps of the client

  lemma StartSegmentHonest(s: Sys, o: Oracle, m: Msg)
    requires Honest(s.w.trace)
    ensures Honest(StartSegment(s, o, m).0.w.trace)
  {
    hide Honest, UplinkBytes, FileSize, SegsOf, SendUplink, Truthful;
    var size := FileSize(m.size);
    var (t, r) := CallOpen(s, o, m.id, m.version, size);
    var e := Opened(m.id, m.version, size, r);
    assert t.w.trace == s.w.trace + [e];
    QuietKeeps(s, t);
    if r == Ok {
      var u := t.(c := t.c.(id := m.id, version := m.version, size := size, numSegs := SegsOf(size), rx := {}));
      var v := Reset(u, o);
      QuietKeeps(t, v);
      assert v.w.trace[..|v.w.trace| - 1] == t.w.trace;
      OpenTruthful(v.w.trace, m.id, m.version);
      UplinkKeeps(v, o, UplinkBytes(AckInit, ACK_ACK, m.id, m.version, []));
      var w := SendAckInit(v, o, true);
      assert NewFile(t, o, m) == w;
      QuietKeeps(w, CallConfig(w, true));
    } else {
      RefusalTruthful(t.w.trace, t.c.id, t.c.version);
      UplinkKeeps(t, o, UplinkBytes(AckInit, ACK_NAK, t.c.id, t.c.version, []));
    }
  }

  lemma ToIdleHonest(s: Sys, o: Oracle, isError: bool)
    requires Honest(s.w.trace)
    ensures Honest(SegmentToIdle(s, o).0.w.trace) && Honest(ApplyToIdle(s, o, isError).0.w.trace)
  {
    hide Honest;
    QuietKeeps(s, IdleStart(s, o).0);
  }

  lemma RestartHonest(s: Sys, o: Oracle)
    requires Honest(s.w.trace)
    ensures Honest(Restart(s, o).0.w.trace)
  {
    hide Honest, SegmentToIdle;
    var t := Reset(s.(c := s.c.(rx := {})), o);
    QuietKeeps(s, t);
    var (u, r) := CallClose(t, o);
    QuietKeeps(t, u);
    ToIdleHonest(u, o, false);
    var (v, q) := CallOpen(u, o, u.c.id, u.c.version, u.c.size);
    QuietKeeps(u, v);
    ToIdleHonest(v, o, false);
  }

  lemma ReadsAreQuiet(s: Sys, t: Sys)
    requires Continues(s, t) && AllReads(Since(s, t))
    ensures Quiet(s, t)
  {
    forall i | |s.w.trace| <= i < |t.w.trace| ensures t.w.trace[i].ReadBack? {
      assert t.w.trace[i] == Since(s, t)[i - |s.w.trace|];
    }
  }

  lemma FinishHonest(s: Sys, o: Oracle)
    requires Honest(s.w.trace) && Safe(s) && s.c.state == Segment && Below(SegsOf(s.c.size)) <= s.c.rx
    ensures Honest(Finish(s, o).0.w.trace)
  {
    hide Honest, VerifyFile, Restart, SendUplink, UplinkBytes, Safe, PassedCheck, AllReads, SegsOf, Ready;
    var (t, r) := VerifyFile(s, o);
    VerifyFileTrace(s, o);
    ReadsAreQuiet(s, t);
    QuietKeeps(s, t);
    if r == Ok {
      var (u, q) := CallClose(t, o);
      QuietKeeps(t, u);
      if q == Ok {
        CheckedIsReady(s, t, Closed(s.c.id, s.c.version, q));
        CompleteTruthful(u.w.trace, u.c.id, u.c.version, s.c.size);
        UplinkKeeps(u, o, UplinkBytes(AckSegment, ACK_ACK, u.c.id, u.c.version, []));
      }
    } else {
      RestartHonest(t, o);
    }
  }

  lemma ReceiveSegmentHonest(s: Sys, o: Oracle, m: Msg)
    requires Honest(s.w.trace) && Safe(s) && Inv(s.c) && s.c.state == Segment && IsMine(s.c, m) && ValidMsg(m)
    ensures Honest(ReceiveSegment(s, o, m).0.w.trace)
  {
    hide Honest, Safe, Finish, SegsOf;
    var u := Reset(s, o);
    ResetSafe(s, o);
    QuietKeeps(s, u);
    var (t, r) := WriteSegment(u, o, m);
    WriteSegmentSafe(u, o, m);
    QuietKeeps(u, t);
    if IsComplete(t.c.rx, t.c.numSegs) {
      FinishHonest(t, o);
    }
  }

  lemma RequestHonest(s: Sys, o: Oracle)
    requires Honest(s.w.trace) && Safe(s) && Inv(s.c) && Tracks(s) && s.c.state == Segment
    ensures Honest(SendRequest(s, o).w.trace)
  {
    hide Honest, Safe, Truthful, SendUplink, RequestBytes;
    RequestTruthful(s);
    UplinkKeeps(s, o, RequestBytes(s.c.id, s.c.version, Missing(s.c.rx, s.c.numSegs)));
  }

  lemma TicksHonest(s: Sys, o: Oracle)
    requires Honest(s.w.trace) && Safe(s) && Inv(s.c) && Tracks(s)
    ensures s.c.state == Segment ==> Honest(SegmentTick(s, o).0.w.trace)
    ensures s.c.state == Apply ==> Honest(ApplyTick(s, o).0.w.trace)
  {
    hide Honest, Inv, Expired, SendUplink, SegmentToIdle, ApplyToIdle, RequestBytes, UplinkBytes, Ready, InTransfer,
      StoredNow;
    var t := GetTime(s, o).0;
    QuietKeeps(s, t);
    PlainKeepsSafe(s, t);
    PlainStepKeepsStored(s, t);
    ToIdleHonest(t, o, false);
    if s.c.state == Segment {
      RequestHonest(t, o);
    } else if s.c.state == Apply {
      CompleteTruthful(t.w.trace, t.c.id, t.c.version, t.c.size);
      UplinkKeeps(t, o, UplinkBytes(AckSegment, ACK_ACK, t.c.id, t.c.version, []));
    }
  }

  lemma ApplyFileHonest(s: Sys, o: Oracle)
    requires Honest(s.w.trace)
    ensures Honest(ApplyFile(s, o).0.w.trace)
  {
    hide Honest, ApplyToIdle, SendUplink, UplinkBytes;
    var (t, r) := CallApply(s, o);
    if r == Ok {
      AppliedAndReported(s, t, o);
      ToIdleHonest(SendAckApply(t, o), o, false);
    } else {
      QuietKeeps(s, t);
      ToIdleHonest(t, o, true);
    }
  }

  lemma AppliedAndReported(s: Sys, t: Sys, o: Oracle)
    requires Honest(s.w.trace) && t.c == s.c
    requires t.w.trace == s.w.trace + [Applied(s.c.id, s.c.version, s.c.size, Ok)]
    ensures Honest(SendAckApply(t, o).w.trace)
  {
    hide Truthful, UplinkBytes;
    ApplyTruthful(t.w.trace, t.c.id, t.c.version);
    var n, u := |s.w.trace|, SendAckApply(t, o);
    assert u.w.trace[..n + 1] == t.w.trace && u.w.trace[n + 1] == ApplyReport(t.c.id, t.c.version);
    forall k | 0 <= k < |u.w.trace| && u.w.trace[k].Uplinked? ensures Truthful(u.w.trace[..k], u.w.trace[k].data) {
      if k < n {
        assert u.w.trace[..k] == s.w.trace[..k] && u.w.trace[k] == s.w.trace[k];
      }
    }
    forall k | 0 <= k < n && u.w.trace[k].Applied? && u.w.trace[k].ret == Ok
      ensures u.w.trace[k + 1] == ApplyReport(u.w.trace[k].id, u.w.trace[k].version)
    {
      assert u.w.trace[k] == s.w.trace[k] && u.w.trace[k + 1] == s.w.trace[k + 1];
    }
  }

  lemma MsgStepHonest(s: Sys, o: Oracle, m: Msg)
    requires Honest(s.w.trace) && Safe(s) && Inv(s.c) && Tracks(s) && ValidMsg(m)
    ensures Honest(MsgStep(s, o, m).0.w.trace)
  {
    hide Honest, Safe, Inv, Tracks, StartSegment, SegmentToIdle, ApplyToIdle, ReceiveSegment, SegmentTick, ApplyTick,
      ApplyFile, SendRequest;
    StartSegmentHonest(s, o, m);
    ToIdleHonest(s, o, false);
    TicksHonest(s, o);
    QuietKeeps(s, Reset(s, o));
    ApplyFileHonest(s, o);
    if s.c.state == Segment {
      RequestHonest(s, o);
      if m.msgType == TxSegment && IsMine(s.c, m) {
        ReceiveSegmentHonest(s, o, m);
      }
    }
  }

  /** In every run, each uplink is borne out when it is sent. An acknowledged announcement follows the open
      that succeeded, of the file it names; a refused one follows an open that failed. An acknowledged
      transfer means a file whose segments were all stored, checked and closed. A request asks for exactly
      the segments that are not stored. An acknowledged apply follows the apply, and no successful apply
      goes without. */
  lemma {:induction false} RunIsHonest(file: File, o: Oracle, inputs: seq<Input>)
    requires AllValid(inputs)
    ensures Honest(Run(Start(file), o, inputs).w.trace)
  {
    hide MsgStep, Parse, Truthful, Inv, Safe, Tracks, ApplyReport;
    if inputs != [] {
      var before := inputs[..|inputs| - 1];
      RunIsHonest(file, o, before);
      ReachableInv(file, o, before);
      RunIsSafe(file, o, before);
      RunTracks(file, o, before);
      var parsed := Parse(inputs[|inputs| - 1]);
      if parsed.Accepted? {
        MsgStepHonest(Run(Start(file), o, before), o, parsed.msg);
      }
    }
  }
}
