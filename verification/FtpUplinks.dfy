/** Every buffer the client ever hands to the uplink is intact and speaks of a file it knows. */
module FtpUplinks {
  import opened Bytes
  import opened FtpFileCheck
  import opened FtpInvariant
  import opened FtpMessages
  import opened FtpProtocol
  import opened Octets
  import opened SegmentBitmap

  /** The file that the host opened last is this one. */
  predicate LastOpened(trace: seq<Event>, id: bv32, version: bv32) {
    trace != [] &&
    var e := trace[|trace| - 1];
    if OpenOk(e) then e.id == id && e.version == version else LastOpened(trace[..|trace| - 1], id, version)
  }

  /** No file was opened, or the client has asked to close the one that was opened last. */
  predicate NoFile(trace: seq<Event>) {
    trace == [] ||
    var e := trace[|trace| - 1];
    e.Closed? || (!OpenOk(e) && NoFile(trace[..|trace| - 1]))
  }

  /** The answer to an announcement that the host turned down. */
  predicate IsRefusal(data: seq<byte>)
    requires |data| >= BASE_UL_MSG_LEN
  {
    data[0] == CodeOf(AckInit) && data[5] == ACK_NAK
  }

  /** The uplink names the file that was opened last. Only a refusal, sent when there is no file, may bear
      the zeros of a client that was reset. */
  ghost predicate GoodUplink(trace: seq<Event>, data: seq<byte>) {
    && 14 <= |data| <= 44
    && IntactUplink(data, WordAt(data, 6), WordAt(data, 10))
    && (|| LastOpened(trace, WordAt(data, 6), WordAt(data, 10))
        || (WordAt(data, 6) == 0 && WordAt(data, 10) == 0 && IsRefusal(data) && NoFile(trace)))
  }

  ghost predicate GoodUplinks(trace: seq<Event>) {
    forall k | 0 <= k < |trace| && trace[k].Uplinked? :: GoodUplink(trace[..k], trace[k].data)
  }

  predicate Current(s: Sys) {
    LastOpened(s.w.trace, s.c.id, s.c.version)
  }

  predicate WasReset(s: Sys) {
    s.c.id == 0 && s.c.version == 0 && NoFile(s.w.trace)
  }

  /** Outside IDLE the client's file is the one opened last; in IDLE it is that or none. */
  predicate Identified(s: Sys) {
    Current(s) || (s.c.state == Idle && WasReset(s))
  }

  ghost predicate Good(s: Sys) {
    GoodUplinks(s.w.trace) && Identified(s)
  }

  lemma GoodStays(before: seq<Event>, after: seq<Event>)
    requires GoodUplinks(before) && before <= after
    requires forall k | |before| <= k < |after| && after[k].Uplinked? :: GoodUplink(after[..k], after[k].data)
    ensures GoodUplinks(after)
  {
    hide GoodUplink;
    forall k | 0 <= k < |after| && after[k].Uplinked? ensures GoodUplink(after[..k], after[k].data) {
      if k < |before| {
        assert after[..k] == before[..k] && after[k] == before[k];
      }
    }
  }

  /** One more call: an uplink must be good, and an open that succeeds must be of the client's file. */
  lemma EmitGood(s: Sys, e: Event, t: Sys)
    requires Good(s) && t.w.trace == s.w.trace + [e]
    requires e.Uplinked? ==> GoodUplink(s.w.trace, e.data)
    requires if OpenOk(e) then t.c.id == e.id && t.c.version == e.version
             else t.c.id == s.c.id && t.c.version == s.c.version && t.c.state == s.c.state
    ensures Good(t)
    ensures Current(s) || OpenOk(e) ==> Current(t)
    ensures WasReset(s) && !OpenOk(e) ==> WasReset(t)
    ensures e.Closed? ==> NoFile(t.w.trace)
    ensures NoFile(s.w.trace) && !OpenOk(e) ==> NoFile(t.w.trace)
  {
    hide GoodUplink;
    assert t.w.trace[..|s.w.trace|] == s.w.trace;
    GoodStays(s.w.trace, t.w.trace);
  }

  /** A change of the client alone: it keeps its file, and takes up work only with the current one; or it
      is reset when there is none. */
  lemma SameGood(s: Sys, t: Sys)
    requires Good(s) && t.w.trace == s.w.trace
    requires || (t.c.id == s.c.id && t.c.version == s.c.version
                 && (t.c.state == s.c.state || t.c.state == Idle || Current(s)))
             || (t.c.state == Idle && WasReset(t))
    ensures Good(t)
    ensures Current(s) && t.c.id == s.c.id && t.c.version == s.c.version ==> Current(t)
  {
  }

  lemma SendUplinkGood(s: Sys, o: Oracle, data: seq<byte>)
    requires Good(s) && IntactUplink(data, s.c.id, s.c.version)
    requires Current(s) || IsRefusal(data)
    ensures var t := SendUplink(s, o, data);
            && Good(t)
            && t.c.id == s.c.id && t.c.version == s.c.version && t.c.state == s.c.state
            && (Current(s) ==> Current(t))
  {
    hide Good, WordAt, Current, WasReset, IsRefusal, NoFile;
    var t := Emit(s, Uplinked(data));
    UplinkNamesFile(s, data);
    EmitGood(s, Uplinked(data), t);
    EmitGood(t, ClockRead(Answer(t, o).now), SendUplink(s, o, data));
  }

  lemma UplinkNamesFile(s: Sys, data: seq<byte>)
    requires Good(s) && IntactUplink(data, s.c.id, s.c.version)
    requires Current(s) || IsRefusal(data)
    ensures GoodUplink(s.w.trace, data)
  {
    hide WordAt, LastOpened, NoFile, IsRefusal;
  }

  lemma ResetGood(s: Sys, o: Oracle)
    requires Good(s)
    ensures Good(Reset(s, o)) && Good(GetTime(s, o).0)
    ensures Current(s) ==> Current(Reset(s, o)) && Current(GetTime(s, o).0)
  {
    hide Good, Current, WasReset, NoFile;
    EmitGood(s, ClockRead(Answer(s, o).now), Reset(s, o));
    EmitGood(s, ClockRead(Answer(s, o).now), GetTime(s, o).0);
  }

  lemma AckGood(s: Sys, o: Oracle, t: MsgType, ack: byte)
    requires Good(s) && (Current(s) || (t == AckInit && ack == ACK_NAK))
    ensures var u := SendUplink(s, o, UplinkBytes(t, ack, s.c.id, s.c.version, []));
            Good(u) && (Current(s) ==> Current(u))
  {
    hide Good, Current, SendUplink, IntactUplink, WordBytes, CodeOf;
    var data := UplinkBytes(t, ack, s.c.id, s.c.version, []);
    UplinkIsIntact(t, ack, s.c.id, s.c.version, []);
    SendUplinkGood(s, o, data);
  }

  lemma StartSegmentGood(s: Sys, o: Oracle, m: Msg)
    requires Good(s)
    ensures Good(StartSegment(s, o, m).0)
  {
    hide Good, Current, WasReset, NoFile, UplinkBytes, FileSize, SegsOf, SendUplink;
    var size := FileSize(m.size);
    var (t, r) := CallOpen(s, o, m.id, m.version, size);
    var e := Opened(m.id, m.version, size, r);
    if r == Ok {
      var u := t.(c := t.c.(id := m.id, version := m.version, size := size, numSegs := SegsOf(size), rx := {}));
      EmitGood(s, e, u);
      ResetGood(u, o);
      AckGood(Reset(u, o), o, AckInit, ACK_ACK);
      var w := SendAckInit(Reset(u, o), o, true);
      assert NewFile(t, o, m) == w;
      EmitGood(w, Configured(true), CallConfig(w, true));
      SameGood(CallConfig(w, true), SetState(CallConfig(w, true), Segment));
    } else {
      EmitGood(s, e, t);
      AckGood(t, o, AckInit, ACK_NAK);
    }
  }

  lemma IdleStartGood(s: Sys, o: Oracle)
    requires Good(s)
    ensures var t := IdleStart(s, o).0;
            Good(t) && t.c == s.c && NoFile(t.w.trace)
  {
    hide Good, Current, WasReset, NoFile;
    var (t, r) := CallClose(s, o);
    EmitGood(s, Closed(s.c.id, s.c.version, r), t);
    EmitGood(t, Configured(false), CallConfig(t, false));
  }

  lemma ToIdleGood(s: Sys, o: Oracle, isError: bool)
    requires Good(s)
    ensures Good(SegmentToIdle(s, o).0) && Good(ApplyToIdle(s, o, isError).0)
  {
    hide Good, IdleStart, NoFile, Current;
    IdleStartGood(s, o);
    SameGood(IdleStart(s, o).0, Init(IdleStart(s, o).0));
  }

  lemma {:induction false} ReadsKeepFile(before: seq<Event>, after: seq<Event>, id: bv32, version: bv32)
    requires LastOpened(before, id, version) && before <= after
    requires forall i | |before| <= i < |after| :: after[i].ReadBack?
    ensures LastOpened(after, id, version)
    decreases |after|
  {
    if |before| < |after| {
      ReadsKeepFile(before, after[..|after| - 1], id, version);
    } else {
      assert before == after;
    }
  }

  lemma VerifyFileGood(s: Sys, o: Oracle)
    requires Good(s) && Current(s)
    ensures Good(VerifyFile(s, o).0) && VerifyFile(s, o).0.c == s.c && Current(VerifyFile(s, o).0)
  {
    hide VerifyFile, PassedCheck, GoodUplink, LastOpened, NoFile;
    var t := VerifyFile(s, o).0;
    VerifyFileTrace(s, o);
    forall k | |s.w.trace| <= k < |t.w.trace| ensures t.w.trace[k].ReadBack? {
      assert t.w.trace[k] == Since(s, t)[k - |s.w.trace|];
    }
    GoodStays(s.w.trace, t.w.trace);
    ReadsKeepFile(s.w.trace, t.w.trace, s.c.id, s.c.version);
  }

  lemma FinishGood(s: Sys, o: Oracle)
    requires Good(s) && Current(s)
    ensures Good(Finish(s, o).0)
  {
    hide Good, Current, WasReset, NoFile, VerifyFile, SegmentToIdle, UplinkBytes, SendUplink, Reset;
    var (t, r) := VerifyFile(s, o);
    VerifyFileGood(s, o);
    if r == Ok {
      var (u, q) := CallClose(t, o);
      EmitGood(t, Closed(t.c.id, t.c.version, q), u);
      SameGood(u, SetState(u, Idle));
      AckGood(u, o, AckSegment, ACK_ACK);
      SameGood(SendSegsComplete(u, o), SetState(SendSegsComplete(u, o), Apply));
    } else {
      var forgotten := t.(c := t.c.(rx := {}));
      SameGood(t, forgotten);
      ResetGood(forgotten, o);
      var u := Reset(forgotten, o);
      var (v, q) := CallClose(u, o);
      EmitGood(u, Closed(u.c.id, u.c.version, q), v);
      ToIdleGood(v, o, false);
      var (w, p) := CallOpen(v, o, v.c.id, v.c.version, v.c.size);
      EmitGood(v, Opened(v.c.id, v.c.version, v.c.size, p), w);
      ToIdleGood(w, o, false);
    }
  }

  lemma ReceiveSegmentGood(s: Sys, o: Oracle, m: Msg)
    requires Good(s) && Current(s)
    ensures Good(ReceiveSegment(s, o, m).0)
  {
    hide Good, Current, WasReset, NoFile, Finish, Reset, IsComplete;
    ResetGood(s, o);
    var u := Reset(s, o);
    var (t, r) := WriteSegment(u, o, m);
    var v := t.(c := u.c);
    EmitGood(u, Wrote(m.id, m.version, m.segNum * MAX_FILE_SEGMENT_BYTES, m.payload, Answer(u, o).ret), v);
    SameGood(v, t);
    FinishGood(t, o);
  }

  lemma RequestGood(s: Sys, o: Oracle)
    requires Good(s) && Current(s) && s.c.numSegs <= MAX_NUM_SEGMENTS
    ensures Good(SendRequest(s, o))
  {
    hide Good, Current, SendUplink, IntactUplink, RequestBytes, ReadRequest;
    RequestIsExact(s.c.id, s.c.version, s.c.rx, s.c.numSegs);
    SendUplinkGood(s, o, RequestBytes(s.c.id, s.c.version, Missing(s.c.rx, s.c.numSegs)));
  }

  lemma TicksGood(s: Sys, o: Oracle)
    requires Good(s) && Current(s) && s.c.numSegs <= MAX_NUM_SEGMENTS
    ensures Good(SegmentTick(s, o).0) && Good(ApplyTick(s, o).0)
  {
    hide Good, Current, Expired, SendUplink, SegmentToIdle, ApplyToIdle, RequestBytes, UplinkBytes, SendRequest;
    var t := GetTime(s, o).0;
    ResetGood(s, o);
    ToIdleGood(t, o, false);
    RequestGood(t, o);
    AckGood(t, o, AckSegment, ACK_ACK);
    SameGood(SendRequest(t, o), CountRetry(SendRequest(t, o)));
    SameGood(SendSegsComplete(t, o), CountRetry(SendSegsComplete(t, o)));
  }

  lemma ApplyFileGood(s: Sys, o: Oracle)
    requires Good(s) && Current(s)
    ensures Good(ApplyFile(s, o).0)
  {
    hide Good, Current, WasReset, NoFile, SendUplink, UplinkBytes, ApplyToIdle;
    var (t, r) := CallApply(s, o);
    EmitGood(s, Applied(s.c.id, s.c.version, s.c.size, r), t);
    AckGood(t, o, AckApply, ACK_ACK);
    ToIdleGood(SendAckApply(t, o), o, false);
    ToIdleGood(t, o, true);
  }

  lemma MsgStepGood(s: Sys, o: Oracle, m: Msg)
    requires Good(s) && s.c.numSegs <= MAX_NUM_SEGMENTS
    ensures Good(MsgStep(s, o, m).0)
  {
    hide StartSegment, SegmentToIdle, ApplyToIdle, ReceiveSegment, SegmentTick, ApplyTick, ApplyFile, Reset,
      SendRequest, GoodUplinks, WasReset, Current;
    StartSegmentGood(s, o, m);
    if s.c.state != Idle {
      hide Good;
      ToIdleGood(s, o, false);
      TicksGood(s, o);
      ReceiveSegmentGood(s, o, m);
      ApplyFileGood(s, o);
      ResetGood(s, o);
      RequestGood(s, o);
    }
  }

  /** In every run, every uplink has length 14 to 44, a CRC that covers the rest of it, and the id and
      version of the file that was opened last; only a refusal that a client without a file sends has zeros. */
  lemma {:induction false} RunUplinksAreIntact(file: File, o: Oracle, inputs: seq<Input>)
    requires AllValid(inputs)
    ensures Good(Run(Start(file), o, inputs))
  {
    hide MsgStep, Parse, Inv, GoodUplink;
    if inputs != [] {
      var before := inputs[..|inputs| - 1];
      RunUplinksAreIntact(file, o, before);
      ReachableInv(file, o, before);
      var s := Run(Start(file), o, before);
      assert s.c.numSegs <= MAX_NUM_SEGMENTS by { InvBound(s.c); }
      var parsed := Parse(inputs[|inputs| - 1]);
      if parsed.Accepted? {
        MsgStepGood(s, o, parsed.msg);
      }
    }
  }

  lemma InvBound(c: Client)
    requires Inv(c)
    ensures c.numSegs <= MAX_NUM_SEGMENTS
  {
  }

  /** A request sent in any reachable SEGMENT state tells the server exactly what is missing. */
  lemma ReachableRequestIsExact(file: File, o: Oracle, inputs: seq<Input>)
    requires AllValid(inputs)
    ensures var s := Run(Start(file), o, inputs);
            var missing := Missing(s.c.rx, s.c.numSegs);
            var t := SendRequest(s, o);
            && |t.w.trace| > |s.w.trace|
            && t.w.trace[|s.w.trace|].Uplinked?
            && |t.w.trace[|s.w.trace|].data| >= BASE_UL_MSG_LEN
            && ReadRequest(t.w.trace[|s.w.trace|].data) == (if |missing| < 16 then Segments(missing) else Everything)
            && (s.c.state == Segment ==> missing != [])
  {
    hide Run, Missing, RequestBytes, ReadRequest, IntactUplink;
    var s := Run(Start(file), o, inputs);
    ReachableInv(file, o, inputs);
    ReachableMissing(file, o, inputs);
    RequestIsExact(s.c.id, s.c.version, s.c.rx, s.c.numSegs);
    assert s.c.state == Segment ==> Missing(s.c.rx, s.c.numSegs) != [];
  }
}
