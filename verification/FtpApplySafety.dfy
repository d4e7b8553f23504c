/** The host is told to apply a file only after everything that makes the file whole has happened,
    and happened anew since the last time it was told so. */
module FtpApplySafety {
  import opened FtpFileCheck
  import opened FtpInvariant
  import opened FtpMessages
  import opened FtpProtocol
  import opened Octets
  import opened SegmentBitmap

  /** No file opened and none applied. */
  ghost predicate Undisturbed(es: seq<Event>) {
    forall i | 0 <= i < |es| :: !OpenOk(es[i]) && !es[i].Applied?
  }

  ghost predicate Unwritten(es: seq<Event>) {
    forall i | 0 <= i < |es| :: !es[i].Wrote?
  }

  /** Segment i of the file was stored in es, and nothing was read back from there on. */
  ghost predicate SegmentWritten(es: seq<Event>, id: bv32, version: bv32, i: nat) {
    exists w | 0 <= w < |es| ::
      && es[w].Wrote? && es[w].id == id && es[w].version == version
      && es[w].offset == i * MAX_FILE_SEGMENT_BYTES && es[w].ret == Ok
      && (forall j | w <= j < |es| :: !es[j].ReadBack?)
  }

  /** The file was opened at p and has been in transfer since; every segment of rx was stored, and stored
      after any check of the file that failed in between. */
  ghost predicate TransferFrom(trace: seq<Event>, p: nat, id: bv32, version: bv32, size: nat, rx: set<nat>) {
    && p < |trace|
    && trace[p] == Opened(id, version, size, Ok)
    && Undisturbed(trace[p + 1..])
    && (forall i: nat | i in rx :: SegmentWritten(trace[p + 1..], id, version, i))
  }

  ghost predicate InTransfer(trace: seq<Event>, id: bv32, version: bv32, size: nat, rx: set<nat>) {
    exists p: nat :: TransferFrom(trace, p, id, version, size, rx)
  }

  /** Opened at p; all segments stored by v; checked from v to q; closed at q; since p no other file was
      opened and none was applied; and since v nothing was written. */
  ghost predicate ReadyFrom(trace: seq<Event>, p: nat, v: nat, q: nat, id: bv32, version: bv32, size: nat) {
    && p < v < q < |trace|
    && TransferFrom(trace[..v], p, id, version, size, Below(SegsOf(size)))
    && PassedCheck(trace[v..q], id, version, size)
    && trace[q] == Closed(id, version, Ok)
    && Undisturbed(trace[p + 1..])
    && Unwritten(trace[v..])
  }

  ghost predicate Ready(trace: seq<Event>, id: bv32, version: bv32, size: nat) {
    exists p: nat, v: nat, q: nat :: ReadyFrom(trace, p, v, q, id, version, size)
  }

  /** Every apply in the trace had all of that before it. */
  ghost predicate AppliesWereReady(trace: seq<Event>) {
    forall k | 0 <= k < |trace| && trace[k].Applied? :: Ready(trace[..k], trace[k].id, trace[k].version, trace[k].size)
  }

  ghost predicate Safe(s: Sys) {
    && AppliesWereReady(s.w.trace)
    && (s.c.state == Segment ==> InTransfer(s.w.trace, s.c.id, s.c.version, s.c.size, s.c.rx))
    && (s.c.state == Apply ==> Ready(s.w.trace, s.c.id, s.c.version, s.c.size))
  }

  // ---------------------------------------------------------------- calls that change none of it

  /** Neither an open that succeeds, nor an apply, nor a read. */
  predicate Harmless(e: Event) {
    !OpenOk(e) && !e.Applied? && !e.ReadBack?
  }

  /** Nor a write. */
  predicate Plain(e: Event) {
    Harmless(e) && !e.Wrote?
  }

  ghost predicate PlainStep(s: Sys, t: Sys) {
    Continues(s, t) && forall i | |s.w.trace| <= i < |t.w.trace| :: Plain(t.w.trace[i])
  }

  lemma PlainJoins(s: Sys, t: Sys, u: Sys)
    requires PlainStep(s, t) && PlainStep(t, u)
    ensures PlainStep(s, u)
  {
    forall i | |s.w.trace| <= i < |u.w.trace| ensures Plain(u.w.trace[i]) {
      if i < |t.w.trace| {
        assert u.w.trace[i] == t.w.trace[i];
      }
    }
  }

  lemma AppliesStayReady(before: seq<Event>, after: seq<Event>)
    requires AppliesWereReady(before) && before <= after
    requires forall i | |before| <= i < |after| :: !after[i].Applied?
    ensures AppliesWereReady(after)
  {
    hide Ready;
    forall k | 0 <= k < |after| && after[k].Applied?
      ensures Ready(after[..k], after[k].id, after[k].version, after[k].size)
    {
      assert before[k] == after[k] && after[..k] == before[..k];
    }
  }

  lemma SegmentStaysWritten(es: seq<Event>, more: seq<Event>, id: bv32, version: bv32, i: nat)
    requires SegmentWritten(es, id, version, i)
    requires forall j | 0 <= j < |more| :: Harmless(more[j])
    ensures SegmentWritten(es + more, id, version, i)
  {
    var w :| 0 <= w < |es|
             && es[w].Wrote? && es[w].id == id && es[w].version == version
             && es[w].offset == i * MAX_FILE_SEGMENT_BYTES && es[w].ret == Ok
             && (forall j | w <= j < |es| :: !es[j].ReadBack?);
    assert (es + more)[w] == es[w];
  }

  lemma TransferContinues(trace: seq<Event>, more: seq<Event>, p: nat, id: bv32, version: bv32, size: nat,
                          rx: set<nat>, smaller: set<nat>)
    requires TransferFrom(trace, p, id, version, size, rx) && smaller <= rx
    requires forall j | 0 <= j < |more| :: Harmless(more[j])
    ensures TransferFrom(trace + more, p, id, version, size, smaller)
  {
    hide SegmentWritten;
    assert (trace + more)[p + 1..] == trace[p + 1..] + more;
    forall i: nat | i in smaller ensures SegmentWritten((trace + more)[p + 1..], id, version, i) {
      SegmentStaysWritten(trace[p + 1..], more, id, version, i);
    }
  }

  lemma ReadyContinues(trace: seq<Event>, more: seq<Event>, p: nat, v: nat, q: nat, id: bv32, version: bv32, size: nat)
    requires ReadyFrom(trace, p, v, q, id, version, size)
    requires Undisturbed(more) && Unwritten(more)
    ensures ReadyFrom(trace + more, p, v, q, id, version, size)
  {
    hide TransferFrom, PassedCheck;
    assert (trace + more)[..v] == trace[..v] && (trace + more)[v..q] == trace[v..q];
    assert (trace + more)[v..] == trace[v..] + more;
    assert (trace + more)[p + 1..] == trace[p + 1..] + more;
  }

  lemma PlainKeepsSafe(s: Sys, t: Sys)
    requires Safe(s) && PlainStep(s, t)
    requires t.c.state == Idle || t.c.state == s.c.state
    requires t.c.state != Idle ==>
               t.c.id == s.c.id && t.c.version == s.c.version && t.c.size == s.c.size && t.c.rx <= s.c.rx
    ensures Safe(t)
  {
    hide TransferFrom, ReadyFrom;
    var trace, more := s.w.trace, Since(s, t);
    assert t.w.trace == trace + more;
    forall j | 0 <= j < |more| ensures Plain(more[j]) { assert more[j] == t.w.trace[|trace| + j]; }
    AppliesStayReady(trace, t.w.trace);
    if t.c.state == Segment {
      var p: nat :| TransferFrom(trace, p, s.c.id, s.c.version, s.c.size, s.c.rx);
      TransferContinues(trace, more, p, s.c.id, s.c.version, s.c.size, s.c.rx, t.c.rx);
    } else if t.c.state == Apply {
      var p: nat, v: nat, q: nat :| ReadyFrom(trace, p, v, q, s.c.id, s.c.version, s.c.size);
      ReadyContinues(trace, more, p, v, q, s.c.id, s.c.version, s.c.size);
    }
  }

  // ---------------------------------------------------------------- the steps of the client

  lemma EmitPlain(s: Sys, e: Event)
    requires Plain(e)
    ensures PlainStep(s, Emit(s, e))
  {
  }

  lemma SendUplinkPlain(s: Sys, o: Oracle, data: seq<byte>)
    ensures PlainStep(s, SendUplink(s, o, data))
    ensures SendUplink(s, o, data).c == s.c.(last := SendUplink(s, o, data).c.last)
  {
  }

  /** A transfer that has just started, followed by plain calls. */
  lemma OpenStarts(s: Sys, t: Sys, e: Event)
    requires Safe(s) && OpenOk(e) && PlainStep(Emit(s, e), t)
    requires t.c.state == Segment && t.c.rx == {}
    requires t.c.id == e.id && t.c.version == e.version && t.c.size == e.size
    ensures Safe(t)
  {
    var trace, p := t.w.trace, |s.w.trace|;
    AppliesStayReady(s.w.trace, trace);
    assert trace[p] == Emit(s, e).w.trace[p] == e;
    var es := trace[p + 1..];
    forall i | 0 <= i < |es| ensures Plain(es[i]) {
      assert es[i] == trace[p + 1 + i];
    }
    assert TransferFrom(trace, p, e.id, e.version, e.size, {});
  }

  lemma StartSegmentTrace(s: Sys, o: Oracle, m: Msg) returns (e: Event)
    ensures var (t, r) := StartSegment(s, o, m);
            && e.Opened? && e == Opened(m.id, m.version, FileSize(m.size), e.ret)
            && (OpenOk(e) <==> r == Ok)
            && PlainStep(Emit(s, e), t)
  {
    hide UplinkBytes, SegsOf, FileSize;
    e := Opened(m.id, m.version, FileSize(m.size), OpenResult(s, o, FileSize(m.size)));
  }

  lemma StartSegmentSafe(s: Sys, o: Oracle, m: Msg)
    requires Safe(s)
    ensures Safe(StartSegment(s, o, m).0)
  {
    hide StartSegment, FileSize, Safe, SegsOf;
    var (t, r) := StartSegment(s, o, m);
    StartSegmentEffect(s, o, m);
    var e := StartSegmentTrace(s, o, m);
    if r == Ok {
      OpenStarts(s, t, e);
    } else {
      EmitPlain(s, e);
      PlainJoins(s, Emit(s, e), t);
      PlainKeepsSafe(s, t);
    }
  }

  lemma ToIdleSafe(s: Sys, o: Oracle)
    requires Safe(s)
    ensures Safe(SegmentToIdle(s, o).0)
    ensures forall isError :: Safe(ApplyToIdle(s, o, isError).0)
  {
    hide Safe;
    var (t, r) := IdleStart(s, o);
    assert PlainStep(s, t) && t.c == s.c;
    PlainKeepsSafe(s, SegmentToIdle(s, o).0);
    PlainKeepsSafe(s, Init(t));
  }

  lemma TicksSafe(s: Sys, o: Oracle)
    requires Safe(s)
    ensures Safe(SegmentTick(s, o).0) && Safe(ApplyTick(s, o).0)
  {
    hide Safe, Expired, SendUplink, SegmentToIdle, ApplyToIdle, RequestBytes, UplinkBytes;
    var t := GetTime(s, o).0;
    EmitPlain(s, t.w.trace[|s.w.trace|]);
    PlainKeepsSafe(s, t);
    ToIdleSafe(t, o);
    var u, v := SendRequest(t, o), SendSegsComplete(t, o);
    SendUplinkPlain(t, o, RequestBytes(t.c.id, t.c.version, Missing(t.c.rx, t.c.numSegs)));
    SendUplinkPlain(t, o, UplinkBytes(AckSegment, ACK_ACK, t.c.id, t.c.version, []));
    PlainKeepsSafe(t, CountRetry(u));
    PlainKeepsSafe(t, CountRetry(v));
  }

  lemma ResetSafe(s: Sys, o: Oracle)
    requires Safe(s)
    ensures Safe(Reset(s, o))
  {
    hide Safe;
    PlainKeepsSafe(s, Reset(s, o));
  }

  /** Storing a segment is the evidence for its bit. */
  lemma WriteSegmentSafe(s: Sys, o: Oracle, m: Msg)
    requires Safe(s) && s.c.state == Segment && IsMine(s.c, m)
    ensures Safe(WriteSegment(s, o, m).0)
  {
    hide Safe;
    var (t, r) := WriteSegment(s, o, m);
    var e := t.w.trace[|s.w.trace|];
    var u := t.(c := t.c.(rx := s.c.rx));
    WriteKeepsSafe(s, u, e);
    if r == Ok {
      WriteIsEvidence(u, m.segNum, t.c.rx);
    }
  }

  lemma WriteKeepsSafe(s: Sys, t: Sys, e: Event)
    requires Safe(s) && s.c.state == Segment && t.c == s.c && e.Wrote? && t.w.trace == s.w.trace + [e]
    ensures Safe(t)
  {
    hide TransferFrom;
    AppliesStayReady(s.w.trace, t.w.trace);
    var p: nat :| TransferFrom(s.w.trace, p, s.c.id, s.c.version, s.c.size, s.c.rx);
    TransferContinues(s.w.trace, [e], p, s.c.id, s.c.version, s.c.size, s.c.rx, s.c.rx);
  }

  lemma WriteIsEvidence(s: Sys, n: nat, rx: set<nat>)
    requires Safe(s) && s.c.state == Segment && s.w.trace != []
    requires var e := s.w.trace[|s.w.trace| - 1];
             && e.Wrote? && e.id == s.c.id && e.version == s.c.version
             && e.offset == n * MAX_FILE_SEGMENT_BYTES && e.ret == Ok
    requires rx <= s.c.rx + {n}
    ensures Safe(s.(c := s.c.(rx := rx)))
  {
    hide AppliesWereReady;
    var p: nat :| TransferFrom(s.w.trace, p, s.c.id, s.c.version, s.c.size, s.c.rx);
    var es := s.w.trace[p + 1..];
    assert es[|es| - 1] == s.w.trace[|s.w.trace| - 1];
    assert SegmentWritten(es, s.c.id, s.c.version, n);
    hide SegmentWritten;
    assert TransferFrom(s.w.trace, p, s.c.id, s.c.version, s.c.size, rx);
  }

  /** All segments stored, a passed check and a successful close make the file ready. */
  lemma CheckedIsReady(s: Sys, t: Sys, e: Event)
    requires Safe(s) && s.c.state == Segment && Below(SegsOf(s.c.size)) <= s.c.rx
    requires t.c == s.c && Continues(s, t) && AllReads(Since(s, t)) && Since(s, t) != []
    requires PassedCheck(Since(s, t), s.c.id, s.c.version, s.c.size)
    requires e == Closed(s.c.id, s.c.version, Ok)
    ensures Ready(Emit(t, e).w.trace, s.c.id, s.c.version, s.c.size)
  {
    hide SegmentWritten, PassedCheck, AppliesWereReady, SegsOf;
    var p: nat :| TransferFrom(s.w.trace, p, s.c.id, s.c.version, s.c.size, s.c.rx);
    var trace, v, q := Emit(t, e).w.trace, |s.w.trace|, |t.w.trace|;
    assert trace[..v] == s.w.trace && trace[v..q] == Since(s, t);
    assert trace[p + 1..] == s.w.trace[p + 1..] + Since(s, t) + [e];
    assert trace[v..] == Since(s, t) + [e];
    assert TransferFrom(trace[..v], p, s.c.id, s.c.version, s.c.size, Below(SegsOf(s.c.size)));
    assert ReadyFrom(trace, p, v, q, s.c.id, s.c.version, s.c.size);
  }

  /** Reads disturb a transfer only in that its segments no longer count as freshly stored. */
  lemma ReadsThenForget(s: Sys, t: Sys)
    requires Safe(s) && s.c.state == Segment && t.c == s.c.(rx := {})
    requires Continues(s, t) && AllReads(Since(s, t))
    ensures Safe(t)
  {
    hide SegmentWritten;
    var p: nat :| TransferFrom(s.w.trace, p, s.c.id, s.c.version, s.c.size, s.c.rx);
    assert t.w.trace[p + 1..] == s.w.trace[p + 1..] + Since(s, t);
    forall i | |s.w.trace| <= i < |t.w.trace| ensures t.w.trace[i].ReadBack? {
      assert t.w.trace[i] == Since(s, t)[i - |s.w.trace|];
    }
    AppliesStayReady(s.w.trace, t.w.trace);
    assert TransferFrom(t.w.trace, p, s.c.id, s.c.version, s.c.size, {});
  }

  lemma SegmentToApplySafe(s: Sys, t: Sys, o: Oracle)
    requires Safe(s) && s.c.state == Segment && Below(SegsOf(s.c.size)) <= s.c.rx
    requires t.c == s.c && Continues(s, t) && AllReads(Since(s, t)) && Since(s, t) != []
    requires PassedCheck(Since(s, t), s.c.id, s.c.version, s.c.size)
    ensures Safe(SegmentToApply(t, o).0)
  {
    hide Ready, InTransfer, SegsOf, PassedCheck, UplinkBytes, SendUplink;
    var (u, r) := CallClose(t, o);
    var e := Closed(s.c.id, s.c.version, r);
    forall i | |s.w.trace| <= i < |u.w.trace| ensures !u.w.trace[i].Applied? {
      if i < |t.w.trace| {
        assert u.w.trace[i] == Since(s, t)[i - |s.w.trace|];
      }
    }
    AppliesStayReady(s.w.trace, u.w.trace);
    if r == Ok {
      CheckedIsReady(s, t, e);
      var ready := SetState(u, Apply);
      var data := UplinkBytes(AckSegment, ACK_ACK, u.c.id, u.c.version, []);
      SendUplinkPlain(u, o, data);
      PlainKeepsSafe(ready, SetState(SendUplink(u, o, data), Apply));
    }
  }

  lemma RestartSafe(s: Sys, o: Oracle)
    requires Safe(s.(c := s.c.(rx := {}))) && s.c.state == Segment
    ensures Safe(Restart(s, o).0)
  {
    hide Safe, SegmentToIdle;
    var t := Reset(s.(c := s.c.(rx := {})), o);
    ResetSafe(s.(c := s.c.(rx := {})), o);
    var (u, r) := CallClose(t, o);
    PlainKeepsSafe(t, u);
    ToIdleSafe(u, o);
    if r == Ok {
      var (v, q) := CallOpen(u, o, u.c.id, u.c.version, u.c.size);
      var e := Opened(u.c.id, u.c.version, u.c.size, q);
      assert v.w.trace == Emit(u, e).w.trace;
      if q == Ok {
        OpenStarts(u, v, e);
      } else {
        PlainKeepsSafe(u, v);
        ToIdleSafe(v, o);
      }
    }
  }

  lemma ReceiveSegmentSafe(s: Sys, o: Oracle, m: Msg)
    requires Safe(s) && Inv(s.c) && s.c.state == Segment && IsMine(s.c, m) && ValidMsg(m)
    ensures Safe(ReceiveSegment(s, o, m).0)
  {
    hide Safe, VerifyFile, SegmentToApply, Restart, SegsOf, PassedCheck, AllReads;
    ResetSafe(s, o);
    var (t, r) := WriteSegment(Reset(s, o), o, m);
    WriteSegmentSafe(Reset(s, o), o, m);
    if IsComplete(t.c.rx, t.c.numSegs) {
      var (u, q) := VerifyFile(t, o);
      VerifyFileTrace(t, o);
      if q == Ok {
        SegmentToApplySafe(t, u, o);
      } else {
        ReadsThenForget(t, u.(c := u.c.(rx := {})));
        RestartSafe(u, o);
      }
    }
  }

  /** The one place where the file is applied. */
  lemma ApplyFileSafe(s: Sys, o: Oracle)
    requires Safe(s) && s.c.state == Apply
    ensures Safe(ApplyFile(s, o).0)
  {
    hide Ready, InTransfer, SendUplink, ApplyToIdle, UplinkBytes;
    var (t, r) := CallApply(s, o);
    forall k | 0 <= k < |t.w.trace| && t.w.trace[k].Applied?
      ensures Ready(t.w.trace[..k], t.w.trace[k].id, t.w.trace[k].version, t.w.trace[k].size)
    {
      assert t.w.trace[..k] == s.w.trace[..k];
    }
    var idle := SetState(t, Idle);
    hide Safe;
    var data := UplinkBytes(AckApply, ACK_ACK, t.c.id, t.c.version, []);
    SendUplinkPlain(t, o, data);
    ToIdleFromSafe(t, o, true);
    PlainKeepsSafe(idle, SetState(SendUplink(t, o, data), Idle));
    ToIdleFromSafe(SendUplink(t, o, data), o, false);
  }

  lemma ToIdleFromSafe(s: Sys, o: Oracle, isError: bool)
    requires Safe(SetState(s, Idle))
    ensures Safe(ApplyToIdle(s, o, isError).0)
  {
    hide Safe;
    PlainKeepsSafe(SetState(s, Idle), ApplyToIdle(s, o, isError).0);
  }

  lemma MsgStepSafe(s: Sys, o: Oracle, m: Msg)
    requires Safe(s) && Inv(s.c) && ValidMsg(m)
    ensures Safe(MsgStep(s, o, m).0)
  {
    hide Safe, Inv, StartSegment, SegmentToIdle, ApplyToIdle, ReceiveSegment, SegmentTick, ApplyTick, ApplyFile, Reset,
      SendUplink, RequestBytes;
    StartSegmentSafe(s, o, m);
    ToIdleSafe(s, o);
    TicksSafe(s, o);
    ResetSafe(s, o);
    var data := RequestBytes(s.c.id, s.c.version, Missing(s.c.rx, s.c.numSegs));
    SendUplinkPlain(s, o, data);
    PlainKeepsSafe(s, SendUplink(s, o, data));
    if s.c.state == Segment && m.msgType == TxSegment && IsMine(s.c, m) {
      ReceiveSegmentSafe(s, o, m);
    }
    if s.c.state == Apply {
      ApplyFileSafe(s, o);
    }
  }

  lemma {:induction false} RunIsSafe(file: File, o: Oracle, inputs: seq<Input>)
    requires AllValid(inputs)
    ensures Safe(Run(Start(file), o, inputs))
  {
    hide MsgStep, Parse, InTransfer, Ready, Inv;
    if inputs != [] {
      var before := inputs[..|inputs| - 1];
      RunIsSafe(file, o, before);
      ReachableInv(file, o, before);
      var parsed := Parse(inputs[|inputs| - 1]);
      if parsed.Accepted? {
        MsgStepSafe(Run(Start(file), o, before), o, parsed.msg);
      }
    }
  }

  /** Whenever the host is told to apply a file, it had opened that file with that size; then every
      segment of it was stored; then the check of its header and its CRC passed; then it was closed;
      from that open on no other file was opened and none, whatever came of it, was applied; and from
      the check on nothing was written. */
  lemma AppliedOnlyWhenReady(file: File, o: Oracle, inputs: seq<Input>, k: nat)
    requires AllValid(inputs)
    requires k < |Run(Start(file), o, inputs).w.trace| && Run(Start(file), o, inputs).w.trace[k].Applied?
    ensures var trace := Run(Start(file), o, inputs).w.trace;
            exists p: nat, v: nat, q: nat ::
              ReadyFrom(trace[..k], p, v, q, trace[k].id, trace[k].version, trace[k].size)
  {
    hide Run, ReadyFrom, InTransfer;
    RunIsSafe(file, o, inputs);
  }

  /** Between two applies lies a whole transfer: in particular a successful open. */
  lemma AppliesAreSeparated(file: File, o: Oracle, inputs: seq<Input>, j: nat, k: nat)
    requires AllValid(inputs)
    requires j < k < |Run(Start(file), o, inputs).w.trace|
    requires Run(Start(file), o, inputs).w.trace[j].Applied? && Run(Start(file), o, inputs).w.trace[k].Applied?
    ensures var trace := Run(Start(file), o, inputs).w.trace;
            exists p: nat, v: nat, q: nat ::
              p > j && ReadyFrom(trace[..k], p, v, q, trace[k].id, trace[k].version, trace[k].size)
  {
    hide Run, TransferFrom, PassedCheck;
    var trace := Run(Start(file), o, inputs).w.trace;
    AppliedOnlyWhenReady(file, o, inputs, k);
    var p: nat, v: nat, q: nat :|
      ReadyFrom(trace[..k], p, v, q, trace[k].id, trace[k].version, trace[k].size);
    NothingAppliedSince(trace[..k], p, v, q, trace[k].id, trace[k].version, trace[k].size);
    assert trace[..k][j] == trace[j];
  }

  lemma NothingAppliedSince(trace: seq<Event>, p: nat, v: nat, q: nat, id: bv32, version: bv32, size: nat)
    requires ReadyFrom(trace, p, v, q, id, version, size)
    ensures forall i | p <= i < |trace| :: !trace[i].Applied?
  {
    hide PassedCheck;
    assert trace[..v][p] == trace[p];
    forall i | p < i < |trace| ensures !trace[i].Applied? {
      assert trace[p + 1..][i - p - 1] == trace[i];
    }
  }
}
