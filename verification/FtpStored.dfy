/** What the store holds, told from the calls alone; and the client's bitmap, which never says anything else. */
module FtpStored {
  import opened FtpApplySafety
  import opened FtpFileCheck
  import opened FtpInvariant
  import opened FtpMessages
  import opened FtpProtocol
  import opened SegmentBitmap

  /** The segments written since the file was opened or, if that was later, since it was last read back. */
  function StoredNow(trace: seq<Event>): set<nat> {
    if trace == [] then {}
    else
      var e, before := trace[|trace| - 1], trace[..|trace| - 1];
      if OpenOk(e) || e.ReadBack? then {}
      else if e.Wrote? && e.ret == Ok then Tracked(StoredNow(before), e.offset / MAX_FILE_SEGMENT_BYTES)
      else StoredNow(before)
  }

  ghost predicate Tracks(s: Sys) {
    s.c.state == Segment ==> s.c.rx == StoredNow(s.w.trace)
  }

  lemma {:induction false} PlainKeepsStored(before: seq<Event>, after: seq<Event>)
    requires before <= after && forall i | |before| <= i < |after| :: Plain(after[i])
    ensures StoredNow(after) == StoredNow(before)
    decreases |after|
  {
    if |before| < |after| {
      PlainKeepsStored(before, after[..|after| - 1]);
    } else {
      assert before == after;
    }
  }

  lemma PlainStepKeepsStored(s: Sys, t: Sys)
    requires PlainStep(s, t)
    ensures StoredNow(t.w.trace) == StoredNow(s.w.trace)
  {
    hide StoredNow;
    PlainKeepsStored(s.w.trace, t.w.trace);
  }

  lemma EmitStored(s: Sys, e: Event)
    ensures OpenOk(e) || e.ReadBack? ==> StoredNow(Emit(s, e).w.trace) == {}
    ensures e.Wrote? && e.ret == Ok ==>
              StoredNow(Emit(s, e).w.trace) == Tracked(StoredNow(s.w.trace), e.offset / MAX_FILE_SEGMENT_BYTES)
    ensures !OpenOk(e) && !e.ReadBack? && !(e.Wrote? && e.ret == Ok) ==>
              StoredNow(Emit(s, e).w.trace) == StoredNow(s.w.trace)
  {
    assert Emit(s, e).w.trace[..|s.w.trace|] == s.w.trace;
  }

  lemma StartSegmentTracks(s: Sys, o: Oracle, m: Msg)
    requires Tracks(s)
    ensures Tracks(StartSegment(s, o, m).0)
  {
    hide StoredNow, StartSegment, FileSize, SegsOf;
    var (t, r) := StartSegment(s, o, m);
    StartSegmentEffect(s, o, m);
    var e := StartSegmentTrace(s, o, m);
    EmitStored(s, e);
    PlainStepKeepsStored(Emit(s, e), t);
  }

  lemma ToIdleTracks(s: Sys, o: Oracle, isError: bool)
    requires Tracks(s)
    ensures Tracks(SegmentToIdle(s, o).0) && Tracks(ApplyToIdle(s, o, isError).0)
  {
    hide StoredNow;
    PlainStepKeepsStored(s, SegmentToIdle(s, o).0);
  }

  lemma VerifyFileForgets(s: Sys, o: Oracle)
    ensures var t := VerifyFile(s, o).0;
            t.c == s.c && StoredNow(t.w.trace) == {}
  {
    hide VerifyFile, PassedCheck;
    var t := VerifyFile(s, o).0;
    VerifyFileTrace(s, o);
    var es := Since(s, t);
    assert t.w.trace[|t.w.trace| - 1] == es[|es| - 1];
  }

  lemma RestartTracks(s: Sys, o: Oracle)
    requires s.c.state == Segment && StoredNow(s.w.trace) == {}
    ensures Tracks(Restart(s, o).0)
  {
    hide StoredNow, SegmentToIdle;
    var t := Reset(s.(c := s.c.(rx := {})), o);
    PlainStepKeepsStored(s, t);
    var (u, r) := CallClose(t, o);
    PlainStepKeepsStored(t, u);
    ToIdleTracks(u, o, false);
    var (v, q) := CallOpen(u, o, u.c.id, u.c.version, u.c.size);
    EmitStored(u, Opened(u.c.id, u.c.version, u.c.size, q));
    ToIdleTracks(v, o, false);
  }

  lemma ReceiveSegmentTracks(s: Sys, o: Oracle, m: Msg)
    requires Tracks(s) && s.c.state == Segment
    ensures Tracks(ReceiveSegment(s, o, m).0)
  {
    hide StoredNow, VerifyFile, Restart, IsComplete;
    var t := StoreOneMore(s, o, m);
    if IsComplete(t.c.rx, t.c.numSegs) {
      VerifyFileForgets(t, o);
      RestartTracks(VerifyFile(t, o).0, o);
    }
  }

  lemma StoreOneMore(s: Sys, o: Oracle, m: Msg) returns (t: Sys)
    requires Tracks(s) && s.c.state == Segment
    ensures t == WriteSegment(Reset(s, o), o, m).0 && t.c.state == Segment && Tracks(t)
  {
    hide StoredNow;
    var u := Reset(s, o);
    PlainStepKeepsStored(s, u);
    t := WriteSegment(u, o, m).0;
    EmitStored(u, t.w.trace[|u.w.trace|]);
  }

  lemma TicksTrack(s: Sys, o: Oracle)
    requires Tracks(s)
    ensures Tracks(SegmentTick(s, o).0) && Tracks(ApplyTick(s, o).0)
  {
    hide StoredNow, Expired, SendUplink, SegmentToIdle, ApplyToIdle, RequestBytes, UplinkBytes;
    var t := GetTime(s, o).0;
    PlainStepKeepsStored(s, t);
    ToIdleTracks(t, o, false);
    UplinkTracks(t, o, RequestBytes(t.c.id, t.c.version, Missing(t.c.rx, t.c.numSegs)));
    UplinkTracks(t, o, UplinkBytes(AckSegment, ACK_ACK, t.c.id, t.c.version, []));
  }

  lemma UplinkTracks(s: Sys, o: Oracle, data: seq<bv8>)
    requires Tracks(s)
    ensures Tracks(SendUplink(s, o, data)) && SendUplink(s, o, data).c == s.c.(last := SendUplink(s, o, data).c.last)
  {
    hide StoredNow;
    SendUplinkPlain(s, o, data);
    PlainStepKeepsStored(s, SendUplink(s, o, data));
  }

  lemma ApplyFileEnds(s: Sys, o: Oracle)
    ensures ApplyFile(s, o).0.c.state == Idle
  {
    hide SendUplink;
  }

  lemma MsgStepTracks(s: Sys, o: Oracle, m: Msg)
    requires Tracks(s)
    ensures Tracks(MsgStep(s, o, m).0)
  {
    hide StoredNow, StartSegment, SegmentToIdle, ApplyToIdle, ReceiveSegment, SegmentTick, ApplyTick, ApplyFile,
      SendUplink, RequestBytes;
    ApplyFileEnds(s, o);
    StartSegmentTracks(s, o, m);
    ToIdleTracks(s, o, false);
    TicksTrack(s, o);
    UplinkTracks(s, o, RequestBytes(s.c.id, s.c.version, Missing(s.c.rx, s.c.numSegs)));
    if s.c.state == Segment {
      ReceiveSegmentTracks(s, o, m);
    }
  }

  /** In every run, while a transfer is under way, the bitmap is what the calls say is stored. */
  lemma {:induction false} RunTracks(file: File, o: Oracle, inputs: seq<Input>)
    requires AllValid(inputs)
    ensures Tracks(Run(Start(file), o, inputs))
  {
    hide MsgStep, Parse, StoredNow;
    if inputs != [] {
      RunTracks(file, o, inputs[..|inputs| - 1]);
      var parsed := Parse(inputs[|inputs| - 1]);
      if parsed.Accepted? {
        MsgStepTracks(Run(Start(file), o, inputs[..|inputs| - 1]), o, parsed.msg);
      }
    }
  }
}
