/** What every call of ll_ftp_msg_process keeps, and so what holds in every reachable state. */
module FtpInvariant {
  import opened Bytes
  import opened FtpMessages
  import opened FtpProtocol
  import opened SegmentBitmap

  predicate AllValid(inputs: seq<Input>) {
    forall i | 0 <= i < |inputs| :: ValidInput(inputs[i])
  }

  predicate HasFile(c: Client) {
    AcceptableSize(c.size) && c.numSegs == SegsOf(c.size)
  }

  /** SEGMENT has something left to receive, APPLY nothing; retries are bounded; only numbers that
      the bitmap has room for are in it. */
  ghost predicate Inv(c: Client) {
    && c.numSegs <= MAX_NUM_SEGMENTS
    && c.retries <= MAX_NUM_RETRIES
    && (forall k | k in c.rx :: k < MAX_NUM_SEGMENTS)
    && (c.state == Segment ==> HasFile(c) && !IsComplete(c.rx, c.numSegs))
    && (c.state == Apply ==> HasFile(c) && IsComplete(c.rx, c.numSegs))
  }

  lemma SegsOfAcceptable(size: nat)
    requires AcceptableSize(size)
    ensures 1 <= SegsOf(size) <= MAX_NUM_SEGMENTS
    ensures MAX_FILE_SEGMENT_BYTES * (SegsOf(size) - 1) < size <= MAX_FILE_SEGMENT_BYTES * SegsOf(size)
  {
  }

  lemma EmptyIsIncomplete(n: nat)
    requires n > 0
    ensures !IsComplete({}, n)
  {
    var none: set<nat> := {};
    assert 0 !in none;
  }

  /** What a start of a transfer does to the client: all of it when the host opens the file, and
      otherwise nothing but the time of the last uplink. */
  lemma StartSegmentEffect(s: Sys, o: Oracle, m: Msg)
    ensures var (t, r) := StartSegment(s, o, m);
            if r == Ok then
              && AcceptableSize(FileSize(m.size))
              && t.c == Client(Segment, SegsOf(FileSize(m.size)), {}, m.id, m.version, FileSize(m.size), t.c.last, 0)
            else t.c == s.c.(last := t.c.last) && t.w.file == s.w.file
  {
    hide UplinkBytes, SegsOf, FileSize;
  }

  lemma StartSegmentKeepsInv(s: Sys, o: Oracle, m: Msg)
    requires Inv(s.c)
    ensures Inv(StartSegment(s, o, m).0.c)
  {
    hide StartSegment, IsComplete, FileSize, SegsOf;
    StartSegmentEffect(s, o, m);
    if AcceptableSize(FileSize(m.size)) {
      SegsOfAcceptable(FileSize(m.size));
      EmptyIsIncomplete(SegsOf(FileSize(m.size)));
    }
  }

  lemma SegmentToIdleKeepsInv(s: Sys, o: Oracle)
    requires Inv(s.c)
    ensures Inv(SegmentToIdle(s, o).0.c)
  {
    hide IsComplete;
  }

  lemma VerifyKeepsClient(s: Sys, o: Oracle)
    ensures VerifyFile(s, o).0.c == s.c && VerifyFile(s, o).0.w.file == s.w.file
  {
    hide WordAt, FileSize, FileBytes;
  }

  lemma FinishKeepsInv(s: Sys, o: Oracle)
    requires Inv(s.c.(state := Idle)) && s.c.state == Segment && HasFile(s.c) && IsComplete(s.c.rx, s.c.numSegs)
    ensures Inv(Finish(s, o).0.c)
  {
    hide IsComplete, VerifyFile, SegmentToIdle, UplinkBytes, SegsOf;
    var (t, r) := VerifyFile(s, o);
    VerifyKeepsClient(s, o);
    if r != Ok {
      SegsOfAcceptable(s.c.size);
      EmptyIsIncomplete(s.c.numSegs);
      var u := Reset(t.(c := t.c.(rx := {})), o);
      var (v, q) := CallClose(u, o);
      SegmentToIdleKeepsInv(v, o);
      var (w, p) := CallOpen(v, o, v.c.id, v.c.version, v.c.size);
      SegmentToIdleKeepsInv(w, o);
    }
  }

  lemma ReceiveSegmentKeepsInv(s: Sys, o: Oracle, m: Msg)
    requires Inv(s.c) && s.c.state == Segment && ValidMsg(m)
    ensures Inv(ReceiveSegment(s, o, m).0.c)
  {
    hide IsComplete, Finish, SegsOf;
    var (t, r) := WriteSegment(Reset(s, o), o, m);
    if IsComplete(t.c.rx, t.c.numSegs) {
      FinishKeepsInv(t, o);
    }
  }

  lemma TicksKeepInv(s: Sys, o: Oracle)
    requires Inv(s.c)
    ensures s.c.state == Segment ==> Inv(SegmentTick(s, o).0.c)
    ensures s.c.state == Apply ==> Inv(ApplyTick(s, o).0.c)
  {
    hide IsComplete, RequestBytes, UplinkBytes, SegsOf, Expired;
  }

  lemma MsgStepKeepsInv(s: Sys, o: Oracle, m: Msg)
    requires Inv(s.c) && ValidMsg(m)
    ensures Inv(MsgStep(s, o, m).0.c)
  {
    hide IsComplete, StartSegment, SegmentToIdle, ReceiveSegment, SegmentTick, ApplyTick, UplinkBytes, RequestBytes,
      SegsOf;
    StartSegmentKeepsInv(s, o, m);
    SegmentToIdleKeepsInv(s, o);
    TicksKeepInv(s, o);
    if s.c.state == Segment && m.msgType == TxSegment {
      ReceiveSegmentKeepsInv(s, o, m);
    }
  }

  /** In every reachable state SEGMENT means at least one segment missing and APPLY means none. */
  lemma {:induction false} ReachableInv(file: File, o: Oracle, inputs: seq<Input>)
    requires AllValid(inputs)
    ensures Inv(Run(Start(file), o, inputs).c)
  {
    hide MsgStep, Parse;
    if inputs != [] {
      ReachableInv(file, o, inputs[..|inputs| - 1]);
      var s := Run(Start(file), o, inputs[..|inputs| - 1]);
      var parsed := Parse(inputs[|inputs| - 1]);
      if parsed.Accepted? {
        MsgStepKeepsInv(s, o, parsed.msg);
      }
    }
  }

  /** The bitmap's own count agrees: how many segments are missing decides between the two states. */
  lemma ReachableMissing(file: File, o: Oracle, inputs: seq<Input>)
    requires AllValid(inputs)
    ensures var c := Run(Start(file), o, inputs).c;
            && (c.state == Segment ==> 1 <= |Missing(c.rx, c.numSegs)| <= c.numSegs)
            && (c.state == Apply ==> Missing(c.rx, c.numSegs) == [] && c.numSegs > 0)
  {
    hide Run, MsgStep, Missing, IsComplete, SegsOf;
    var c := Run(Start(file), o, inputs).c;
    ReachableInv(file, o, inputs);
    MissingNone(c.rx, c.numSegs);
    MissingCount(c.rx, c.numSegs);
    if c.state == Apply {
      SegsOfAcceptable(c.size);
    }
  }
}
