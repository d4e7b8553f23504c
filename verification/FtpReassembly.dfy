/** Whatever is lost, repeated, reordered or refused, the client reassembles the file that the
    server cut up. */
module FtpReassembly {
  import opened Octets
  import opened FtpInvariant
  import opened FtpMessages
  import opened FtpProtocol
  import opened SegmentBitmap

  /** The file that the server holds under each id and version. */
  type Sources = (bv32, bv32) -> seq<byte>

  function SegmentOf(f: seq<byte>, i: nat): seq<byte>
    requires i < SegsOf(|f|)
  {
    if MAX_FILE_SEGMENT_BYTES * (i + 1) <= |f| then f[MAX_FILE_SEGMENT_BYTES * i..MAX_FILE_SEGMENT_BYTES * (i + 1)]
    else f[MAX_FILE_SEGMENT_BYTES * i..]
  }

  /** A segment message carries what the server's file has at that place. Nothing is asked of the
      sizes that messages announce, nor of any other message. */
  ghost predicate Genuine(m: Msg, src: Sources) {
    m.msgType == TxSegment ==>
      var f := src(m.id, m.version);
      m.segNum < SegsOf(|f|) && m.payload == SegmentOf(f, m.segNum)
  }

  ghost predicate GenuineInput(input: Input, src: Sources)
    requires ValidInput(input)
  {
    Parse(input).Accepted? ==> Genuine(Parse(input).msg, src)
  }

  ghost predicate AllGenuine(inputs: seq<Input>, src: Sources)
    requires AllValid(inputs)
  {
    forall i | 0 <= i < |inputs| :: GenuineInput(inputs[i], src)
  }

  /** Segment k of f stands in the stored file at its place. */
  ghost predicate StoredSegment(file: File, f: seq<byte>, k: nat) {
    forall j: nat | MAX_FILE_SEGMENT_BYTES * k <= j < MAX_FILE_SEGMENT_BYTES * (k + 1) && j < |f| :: file(j) == f[j]
  }

  ghost predicate Stored(s: Sys, f: seq<byte>) {
    forall k: nat | k in s.c.rx :: k < SegsOf(|f|) && StoredSegment(s.w.file, f, k)
  }

  ghost predicate Reassembled(s: Sys, src: Sources) {
    s.c.state != Idle ==> Stored(s, src(s.c.id, s.c.version))
  }

  lemma WriteStores(file: File, f: seq<byte>, i: nat, k: nat)
    requires i < SegsOf(|f|)
    requires k == i || StoredSegment(file, f, k)
    ensures StoredSegment(WriteBytes(file, i * MAX_FILE_SEGMENT_BYTES, SegmentOf(f, i)), f, k)
  {
  }

  lemma StartSegmentReassembled(s: Sys, o: Oracle, m: Msg, src: Sources)
    requires Reassembled(s, src)
    ensures Reassembled(StartSegment(s, o, m).0, src)
  {
    hide StartSegment, FileSize, SegsOf, StoredSegment;
    StartSegmentEffect(s, o, m);
  }

  lemma SegmentToIdleReassembled(s: Sys, o: Oracle, src: Sources)
    requires Reassembled(s, src)
    ensures Reassembled(SegmentToIdle(s, o).0, src)
  {
    hide StoredSegment, SegsOf;
  }

  lemma FinishReassembled(s: Sys, o: Oracle, src: Sources)
    requires Reassembled(s, src) && s.c.state == Segment
    ensures Reassembled(Finish(s, o).0, src)
  {
    hide StoredSegment, SegsOf, VerifyFile, SegmentToIdle, UplinkBytes;
    var (t, r) := VerifyFile(s, o);
    VerifyKeepsClient(s, o);
    if r != Ok {
      var u := Reset(t.(c := t.c.(rx := {})), o);
      var (v, q) := CallClose(u, o);
      SegmentToIdleReassembled(v, o, src);
      var (w, p) := CallOpen(v, o, v.c.id, v.c.version, v.c.size);
      SegmentToIdleReassembled(w, o, src);
    }
  }

  lemma ReceiveSegmentReassembled(s: Sys, o: Oracle, m: Msg, src: Sources)
    requires Reassembled(s, src) && s.c.state == Segment && IsMine(s.c, m)
    requires m.msgType == TxSegment && Genuine(m, src)
    ensures Reassembled(ReceiveSegment(s, o, m).0, src)
  {
    hide StoredSegment, SegsOf, Finish, WriteBytes, SegmentOf;
    var f := src(m.id, m.version);
    var (t, r) := WriteSegment(Reset(s, o), o, m);
    forall k: nat | k in t.c.rx ensures k < SegsOf(|f|) && StoredSegment(t.w.file, f, k) {
      if r == Ok {
        WriteStores(s.w.file, f, m.segNum, k);
      }
    }
    FinishReassembled(t, o, src);
  }

  lemma MsgStepReassembled(s: Sys, o: Oracle, m: Msg, src: Sources)
    requires Reassembled(s, src) && Genuine(m, src)
    ensures Reassembled(MsgStep(s, o, m).0, src)
  {
    hide StoredSegment, SegsOf, StartSegment, SegmentToIdle, ReceiveSegment, UplinkBytes, RequestBytes, Expired,
      SegmentOf;
    StartSegmentReassembled(s, o, m, src);
    SegmentToIdleReassembled(s, o, src);
    SegmentToIdleReassembled(GetTime(s, o).0, o, src);
    if s.c.state == Segment && m.msgType == TxSegment && IsMine(s.c, m) {
      ReceiveSegmentReassembled(s, o, m, src);
    }
  }

  /** In every run each segment whose bit is set is stored, equal to the server's, at its place. */
  lemma {:induction false} RunReassembles(file: File, o: Oracle, inputs: seq<Input>, src: Sources)
    requires AllValid(inputs) && AllGenuine(inputs, src)
    ensures Reassembled(Run(Start(file), o, inputs), src)
  {
    hide MsgStep, Parse, Genuine, Stored;
    if inputs != [] {
      var before := inputs[..|inputs| - 1];
      RunReassembles(file, o, before, src);
      assert GenuineInput(inputs[|inputs| - 1], src);
      var parsed := Parse(inputs[|inputs| - 1]);
      if parsed.Accepted? {
        MsgStepReassembled(Run(Start(file), o, before), o, parsed.msg, src);
      }
    } else {
      assert Start(file).c.state == Idle;
    }
  }

  lemma CompleteIsWhole(s: Sys, f: seq<byte>, j: nat)
    requires HasFile(s.c) && IsComplete(s.c.rx, s.c.numSegs) && Stored(s, f)
    requires j < s.c.size && j < |f|
    ensures s.w.file(j) == f[j]
  {
    SegsOfAcceptable(s.c.size);
    assert j / MAX_FILE_SEGMENT_BYTES in s.c.rx;
    assert StoredSegment(s.w.file, f, j / MAX_FILE_SEGMENT_BYTES);
  }

  /** In APPLY the stored file is the server's, over the announced size; all of it when the
      announced size was right. */
  lemma ApplyHoldsTheFile(file: File, o: Oracle, inputs: seq<Input>, src: Sources)
    requires AllValid(inputs) && AllGenuine(inputs, src)
    ensures var s := Run(Start(file), o, inputs);
            var f := src(s.c.id, s.c.version);
            s.c.state == Apply ==>
              && s.c.numSegs <= SegsOf(|f|)
              && (forall j: nat | j < s.c.size && j < |f| :: s.w.file(j) == f[j])
              && (s.c.size == |f| ==> FileBytes(s.w.file, 0, s.c.size) == f)
  {
    hide Run, IsComplete, StoredSegment, SegsOf;
    var s := Run(Start(file), o, inputs);
    var f := src(s.c.id, s.c.version);
    if s.c.state == Apply {
      ReachableInv(file, o, inputs);
      RunReassembles(file, o, inputs, src);
      forall j: nat | j < s.c.size && j < |f| ensures s.w.file(j) == f[j] { CompleteIsWhole(s, f, j); }
      SegsOfAcceptable(s.c.size);
      LastSegmentReceived(s.c.rx, s.c.numSegs);
    }
  }

  lemma LastSegmentReceived(rx: set<nat>, n: nat)
    requires n > 0 && IsComplete(rx, n)
    ensures n - 1 in rx
  {
  }
}
