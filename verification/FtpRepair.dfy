/** What was asked for and arrives completes the file: no sooner and no later. */
module FtpRepair {
  import opened Bytes
  import opened FtpFileCheck
  import opened FtpInvariant
  import opened FtpMessages
  import opened FtpProtocol
  import opened FtpReassembly
  import opened Octets
  import opened SegmentBitmap

  /** The messages ms arrive one after the other and nothing else does. */
  function Deliver(s: Sys, o: Oracle, ms: seq<Msg>): Sys {
    if ms == [] then s else MsgStep(Deliver(s, o, ms[..|ms| - 1]), o, ms[|ms| - 1]).0
  }

  /** The segment numbers that ms carries. */
  function Numbers(ms: seq<Msg>): set<nat> {
    if ms == [] then {} else Numbers(ms[..|ms| - 1]) + {ms[|ms| - 1].segNum}
  }

  /** ms are segments of the client's file, each of a number it asked for. */
  ghost predicate AreRequested(c: Client, ms: seq<Msg>) {
    forall i | 0 <= i < |ms| ::
      ms[i].msgType == TxSegment && IsMine(c, ms[i]) && ms[i].segNum in Missing(c.rx, c.numSegs)
  }

  /** ms repairs c with its last message: together they carry all that is missing, and those before the
      last do not. */
  ghost predicate CompletesAtLast(c: Client, ms: seq<Msg>) {
    && ms != []
    && IsComplete(c.rx + Numbers(ms), c.numSegs)
    && !IsComplete(c.rx + Numbers(ms[..|ms| - 1]), c.numSegs)
  }

  /** The host takes the next n segments: each arrival reads the clock and then writes. Nothing is asked of
      any other call. */
  ghost predicate WritesOk(o: Oracle, from: nat, n: nat) {
    forall k: nat | k < n :: o(from + 2 * k + 1).ret == Ok
  }

  /** One requested segment: it is stored and tracked, and the file is looked at exactly when it was the
      last one missing. */
  lemma SegmentArrives(s: Sys, o: Oracle, m: Msg)
    requires s.c.state == Segment && m.msgType == TxSegment && IsMine(s.c, m)
    requires m.segNum < MAX_NUM_SEGMENTS && o(|s.w.trace| + 1).ret == Ok
    ensures var u := WriteSegment(Reset(s, o), o, m).0;
            && u.c == s.c.(last := u.c.last, retries := 0, rx := s.c.rx + {m.segNum})
            && u.w.trace
               == s.w.trace + [ClockRead(u.c.last),
                               Wrote(m.id, m.version, m.segNum * MAX_FILE_SEGMENT_BYTES, m.payload, Ok)]
            && u.w.file == WriteBytes(s.w.file, m.segNum * MAX_FILE_SEGMENT_BYTES, m.payload)
            && MsgStep(s, o, m) == if IsComplete(u.c.rx, u.c.numSegs) then Finish(u, o) else (u, Ok)
  {
    hide IsComplete, Finish, WriteBytes;
  }

  lemma CompleteGrows(small: set<nat>, big: set<nat>, n: nat)
    requires IsComplete(small, n) && small <= big
    ensures IsComplete(big, n)
  {
  }

  /** While something is still missing the client stays in SEGMENT, has exactly the old and the new
      segments, and has read nothing back. */
  lemma {:induction false} RepairProgresses(s: Sys, o: Oracle, ms: seq<Msg>)
    requires s.c.state == Segment && Inv(s.c) && AreRequested(s.c, ms) && WritesOk(o, |s.w.trace|, |ms|)
    requires !IsComplete(s.c.rx + Numbers(ms), s.c.numSegs)
    ensures var t := Deliver(s, o, ms);
            && t.c == s.c.(last := t.c.last, retries := t.c.retries, rx := s.c.rx + Numbers(ms))
            && Continues(s, t) && |t.w.trace| == |s.w.trace| + 2 * |ms|
            && (forall i | |s.w.trace| <= i < |t.w.trace| :: !t.w.trace[i].ReadBack?)
  {
    hide IsComplete, MsgStep, Missing, WriteSegment, Reset, Finish;
    if ms == [] {
      assert s.c.rx + Numbers(ms) == s.c.rx;
    } else {
      var before, m := ms[..|ms| - 1], ms[|ms| - 1];
      assert s.c.rx + Numbers(ms) == (s.c.rx + Numbers(before)) + {m.segNum};
      if IsComplete(s.c.rx + Numbers(before), s.c.numSegs) {
        CompleteGrows(s.c.rx + Numbers(before), s.c.rx + Numbers(ms), s.c.numSegs);
      }
      RepairProgresses(s, o, before);
      MissingExact(s.c.rx, s.c.numSegs);
      SegmentArrives(Deliver(s, o, before), o, m);
    }
  }

  /** The stored file after the segments of ms have been written into it, in order. */
  function Written(file: File, ms: seq<Msg>): File {
    if ms == [] then file
    else WriteBytes(Written(file, ms[..|ms| - 1]), ms[|ms| - 1].segNum * MAX_FILE_SEGMENT_BYTES, ms[|ms| - 1].payload)
  }

  lemma {:induction false} RepairWrites(s: Sys, o: Oracle, ms: seq<Msg>)
    requires s.c.state == Segment && Inv(s.c) && AreRequested(s.c, ms) && WritesOk(o, |s.w.trace|, |ms|)
    requires !IsComplete(s.c.rx + Numbers(ms), s.c.numSegs)
    ensures Deliver(s, o, ms).w.file == Written(s.w.file, ms)
  {
    hide IsComplete, MsgStep, Missing, WriteSegment, Reset, Finish, WriteBytes;
    if ms != [] {
      var before, m := ms[..|ms| - 1], ms[|ms| - 1];
      assert s.c.rx + Numbers(ms) == (s.c.rx + Numbers(before)) + {m.segNum};
      if IsComplete(s.c.rx + Numbers(before), s.c.numSegs) {
        CompleteGrows(s.c.rx + Numbers(before), s.c.rx + Numbers(ms), s.c.numSegs);
      }
      RepairWrites(s, o, before);
      RepairProgresses(s, o, before);
      MissingExact(s.c.rx, s.c.numSegs);
      SegmentArrives(Deliver(s, o, before), o, m);
    }
  }

  /** With a host that does what it is told, the outcome of the check decides where a complete transfer
      goes: to APPLY with an acknowledgement, or back to the start with every segment missing. */
  lemma FinishOutcome(s: Sys, o: Oracle)
    requires s.c.state == Segment && HasFile(s.c) && AlwaysOk(o, |s.w.trace|)
    ensures var t := Finish(s, o).0;
            && Continues(s, t)
            && (exists i | |s.w.trace| <= i < |t.w.trace| :: t.w.trace[i].ReadBack?)
            && (if HeaderMatches(s.c, s.w.file) && CrcMatches(s.c, s.w.file)
                then t.c == s.c.(state := Apply, last := t.c.last) && t.w.file == s.w.file
                else t.c == s.c.(rx := {}, last := t.c.last, retries := 0))
  {
    hide VerifyFile, HeaderMatches, CrcMatches, SegmentToIdle, UplinkBytes, PassedCheck, SegsOf;
    VerifyFileTrace(s, o);
    VerifyFileExact(s, o);
    var t := VerifyFile(s, o).0;
    assert t.w.trace[|s.w.trace|] == Since(s, t)[0];
    assert Finish(s, o).0.w.trace[|s.w.trace|] == t.w.trace[|s.w.trace|];
  }

  /** Whatever the host answers, a complete transfer is looked at; and it goes to APPLY exactly when the
      reads were a passed check and the file then closed. */
  lemma FinishExact(s: Sys, o: Oracle)
    requires s.c.state == Segment
    ensures var t, u := Finish(s, o).0, VerifyFile(s, o).0;
            && Continues(s, u) && Continues(u, t)
            && AllReads(Since(s, u)) && Since(s, u) != []
            && (t.c.state == Apply <==>
                  PassedCheck(Since(s, u), s.c.id, s.c.version, s.c.size) && o(|u.w.trace|).ret == Ok)
  {
    hide VerifyFile, PassedCheck, SegmentToIdle, UplinkBytes, SegsOf;
    VerifyFileTrace(s, o);
    var (u, r) := VerifyFile(s, o);
    if r != Ok {
      RestartStays(u, o);
    }
  }

  lemma RestartStays(s: Sys, o: Oracle)
    ensures Continues(s, Restart(s, o).0) && (s.c.state == Segment ==> Restart(s, o).0.c.state != Apply)
  {
  }

  lemma FinishReads(s: Sys, o: Oracle)
    requires s.c.state == Segment
    ensures var t := Finish(s, o).0;
            Continues(s, t) && exists i | |s.w.trace| <= i < |t.w.trace| :: t.w.trace[i].ReadBack?
  {
    hide VerifyFile, Finish, PassedCheck;
    FinishExact(s, o);
    var t, u := Finish(s, o).0, VerifyFile(s, o).0;
    assert t.w.trace[|s.w.trace|] == u.w.trace[|s.w.trace|] == Since(s, u)[0];
  }

  /** The last missing segment arrives: up to the look at the file, the client just has it all. */
  lemma LastArrival(s: Sys, o: Oracle, ms: seq<Msg>) returns (u: Sys, v: Sys)
    requires s.c.state == Segment && Inv(s.c)
    requires AreRequested(s.c, ms) && CompletesAtLast(s.c, ms) && WritesOk(o, |s.w.trace|, |ms|)
    ensures u == Deliver(s, o, ms[..|ms| - 1]) && u.c.state == Segment
    ensures Continues(s, u) && (forall i | |s.w.trace| <= i < |u.w.trace| :: !u.w.trace[i].ReadBack?)
    ensures Continues(u, v) && v.w.file == Written(s.w.file, ms)
    ensures v.c == s.c.(last := v.c.last, retries := 0, rx := s.c.rx + Numbers(ms))
    ensures Deliver(s, o, ms) == Finish(v, o).0
  {
    hide IsComplete, MsgStep, Missing, WriteSegment, Reset, Finish, WriteBytes, SegsOf;
    var before, m := ms[..|ms| - 1], ms[|ms| - 1];
    RepairProgresses(s, o, before);
    RepairWrites(s, o, before);
    MissingExact(s.c.rx, s.c.numSegs);
    u := Deliver(s, o, before);
    SegmentArrives(u, o, m);
    v := WriteSegment(Reset(u, o), o, m).0;
    assert s.c.rx + Numbers(ms) == (s.c.rx + Numbers(before)) + {m.segNum};
  }

  /** What was missing arrives, in any order and with repetitions, and the host stores it: the file is read
      back during the last step and in none before it, whatever the host answers then. If it goes on doing
      what it is told, header and CRC of what is stored decide between APPLY and starting over. */
  lemma DeliveryCompletes(s: Sys, o: Oracle, ms: seq<Msg>)
    requires s.c.state == Segment && Inv(s.c)
    requires AreRequested(s.c, ms) && CompletesAtLast(s.c, ms) && WritesOk(o, |s.w.trace|, |ms|)
    ensures ReadsBackAtLast(s, Deliver(s, o, ms[..|ms| - 1]), Deliver(s, o, ms))
    ensures AlwaysOk(o, |s.w.trace|) ==> CheckDecides(s, Deliver(s, o, ms), Written(s.w.file, ms))
  {
    hide IsComplete, Deliver, Numbers, Written, Missing, Finish, HeaderMatches, CrcMatches, SegsOf;
    var u, v := LastArrival(s, o, ms);
    FinishReads(v, o);
    ReadsCarryOver(u, v, Finish(v, o).0);
    if AlwaysOk(o, |s.w.trace|) {
      FinishOutcome(v, o);
      SameMatches(s.c, v.c, v.w.file);
    }
  }

  /** Nothing was read back from s to u, and something was from u to t; and u is still receiving. */
  ghost predicate ReadsBackAtLast(s: Sys, u: Sys, t: Sys) {
    && u.c.state == Segment
    && Continues(s, u) && Continues(u, t)
    && (forall i | |s.w.trace| <= i < |u.w.trace| :: !u.w.trace[i].ReadBack?)
    && (exists i | |u.w.trace| <= i < |t.w.trace| :: t.w.trace[i].ReadBack?)
  }

  /** The transfer that s was in has come to its end in t, with this content of the file. */
  ghost predicate CheckDecides(s: Sys, t: Sys, file: File) {
    && t.c.id == s.c.id && t.c.version == s.c.version && t.c.size == s.c.size
    && if HeaderMatches(s.c, file) && CrcMatches(s.c, file) then t.c.state == Apply && t.w.file == file
       else t.c.state == Segment && t.c.rx == {}
  }

  /** Repair: with fewer than 16 segments missing the request names exactly them, and once the host has
      stored them the file is looked at, then and not before. */
  lemma RepairCompletes(s: Sys, o: Oracle, ms: seq<Msg>)
    requires s.c.state == Segment && Inv(s.c) && |Missing(s.c.rx, s.c.numSegs)| < 16
    requires AreRequested(s.c, ms) && CompletesAtLast(s.c, ms) && WritesOk(o, |s.w.trace|, |ms|)
    ensures ReadRequest(RequestBytes(s.c.id, s.c.version, Missing(s.c.rx, s.c.numSegs)))
            == Segments(Missing(s.c.rx, s.c.numSegs))
    ensures ReadsBackAtLast(s, Deliver(s, o, ms[..|ms| - 1]), Deliver(s, o, ms))
    ensures AlwaysOk(o, |s.w.trace|) ==> CheckDecides(s, Deliver(s, o, ms), Written(s.w.file, ms))
  {
    hide IsComplete, Missing, Deliver, Written, IntactUplink, RequestBytes, ReadRequest, CheckDecides, ReadsBackAtLast,
      SegsOf;
    RequestIsExact(s.c.id, s.c.version, s.c.rx, s.c.numSegs);
    DeliveryCompletes(s, o, ms);
  }

  lemma SameMatches(c: Client, d: Client, file: File)
    requires d.size == c.size && d.id == c.id && d.version == c.version
    ensures HeaderMatches(d, file) == HeaderMatches(c, file) && CrcMatches(d, file) == CrcMatches(c, file)
  {
    hide WordAt, FileSize, FileBytes;
  }

  lemma ReadsCarryOver(s: Sys, t: Sys, u: Sys)
    requires Continues(s, t) && Continues(t, u)
    requires exists i | |t.w.trace| <= i < |u.w.trace| :: u.w.trace[i].ReadBack?
    ensures Continues(s, u) && exists i | |s.w.trace| <= i < |u.w.trace| :: u.w.trace[i].ReadBack?
  {
    var i :| |t.w.trace| <= i < |u.w.trace| && u.w.trace[i].ReadBack?;
    assert |s.w.trace| <= i;
  }

  /** End to end: a request answered with genuine segments of a server's file of the announced size, into
      a store whose header and tail check out, leaves exactly that file in the store, in APPLY. */
  lemma RepairDeliversTheFile(s: Sys, o: Oracle, ms: seq<Msg>, src: Sources)
    requires s.c.state == Segment && Inv(s.c) && |Missing(s.c.rx, s.c.numSegs)| < 16
    requires AreRequested(s.c, ms) && CompletesAtLast(s.c, ms) && AlwaysOk(o, |s.w.trace|)
    requires Reassembled(s, src) && (forall i | 0 <= i < |ms| :: Genuine(ms[i], src))
    requires |src(s.c.id, s.c.version)| == s.c.size
    requires HeaderMatches(s.c, Written(s.w.file, ms)) && CrcMatches(s.c, Written(s.w.file, ms))
    ensures var t := Deliver(s, o, ms);
            && t.c.state == Apply
            && FileBytes(t.w.file, 0, s.c.size) == src(s.c.id, s.c.version)
  {
    hide IsComplete, MsgStep, Missing, Finish, HeaderMatches, CrcMatches, Reassembled, Genuine, SegsOf, Written,
      RequestBytes, ReadRequest;
    DeliveryCompletes(s, o, ms);
    DeliverReassembles(s, o, ms, src);
    DeliverKeepsInv(s, o, ms);
    var t, f := Deliver(s, o, ms), src(s.c.id, s.c.version);
    WholeFile(t, f, src);
  }

  lemma WholeFile(t: Sys, f: seq<byte>, src: Sources)
    requires t.c.state == Apply && Inv(t.c) && Reassembled(t, src)
    requires f == src(t.c.id, t.c.version) && |f| == t.c.size
    ensures FileBytes(t.w.file, 0, t.c.size) == f
  {
    hide IsComplete, Stored, SegsOf;
    forall j: nat | j < |f| ensures t.w.file(j) == f[j] { CompleteIsWhole(t, f, j); }
  }

  lemma {:induction false} DeliverReassembles(s: Sys, o: Oracle, ms: seq<Msg>, src: Sources)
    requires Reassembled(s, src) && (forall i | 0 <= i < |ms| :: Genuine(ms[i], src))
    ensures Reassembled(Deliver(s, o, ms), src)
  {
    hide MsgStep, Genuine, Reassembled;
    if ms != [] {
      DeliverReassembles(s, o, ms[..|ms| - 1], src);
      MsgStepReassembled(Deliver(s, o, ms[..|ms| - 1]), o, ms[|ms| - 1], src);
    }
  }

  lemma {:induction false} DeliverKeepsInv(s: Sys, o: Oracle, ms: seq<Msg>)
    requires Inv(s.c) && AreRequested(s.c, ms)
    ensures Inv(Deliver(s, o, ms).c)
  {
    hide MsgStep, Missing;
    if ms != [] {
      DeliverKeepsInv(s, o, ms[..|ms| - 1]);
      MissingExact(s.c.rx, s.c.numSegs);
      hide Inv;
      assert ValidMsg(ms[|ms| - 1]) by { RequestedIsValid(s.c, ms); }
      MsgStepKeepsInv(Deliver(s, o, ms[..|ms| - 1]), o, ms[|ms| - 1]);
    }
  }

  lemma RequestedIsValid(c: Client, ms: seq<Msg>)
    requires Inv(c) && AreRequested(c, ms) && ms != []
    ensures ValidMsg(ms[|ms| - 1])
  {
    hide Missing, IsComplete, SegsOf;
    MissingExact(c.rx, c.numSegs);
  }
}
