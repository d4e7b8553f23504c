/** A whole transfer, from IDLE to APPLY: which files get through when nothing goes wrong for good. */
module FtpTransfer {
  import opened Bytes
  import opened CyclicCheck32
  import opened FtpFileCheck
  import opened FtpInvariant
  import opened FtpMessages
  import opened FtpProtocol
  import opened FtpReassembly
  import opened FtpRepair
  import opened Octets
  import opened SegmentBitmap

  /** On the air: a message the server can form, as the bytes of a downlink, is that message. */
  lemma EncodedStep(s: Sys, o: Oracle, m: Msg)
    requires Sendable(m) && ValidMsg(m)
    ensures ValidInput(Downlink(Encode(m)))
    ensures Step(s, o, Downlink(Encode(m))) == MsgStep(s, o, m)
  {
    hide Parse, MsgStep, Encode;
    ParseOfEncode(m);
  }

  lemma {:induction false} DeliverAfter(s: Sys, o: Oracle, m: Msg, ms: seq<Msg>)
    ensures Deliver(s, o, [m] + ms) == Deliver(MsgStep(s, o, m).0, o, ms)
  {
    hide MsgStep;
    if ms == [] {
      assert [m] + ms == [m] && [m][..0] == [];
    } else {
      DeliverAfter(s, o, m, ms[..|ms| - 1]);
      assert ([m] + ms)[..|ms|] == [m] + ms[..|ms| - 1];
    }
  }

  /** ms are all segment messages for the file that init announces. */
  ghost predicate AreSegmentsFor(ms: seq<Msg>, init: Msg) {
    forall i | 0 <= i < |ms| ::
      ms[i].msgType == TxSegment && ms[i].id == init.id && ms[i].version == init.version
  }

  /** ms are segments of the file f, as the server cuts it up. */
  ghost predicate SegmentsOf(ms: seq<Msg>, f: seq<byte>) {
    forall i | 0 <= i < |ms| :: ms[i].segNum < SegsOf(|f|) && ms[i].payload == SegmentOf(f, ms[i].segNum)
  }

  lemma WriteStaysInside(file: File, f: seq<byte>, i: nat, j: nat)
    requires i < SegsOf(|f|) && j >= |f|
    ensures WriteBytes(file, i * MAX_FILE_SEGMENT_BYTES, SegmentOf(f, i))(j) == file(j)
  {
  }

  /** Writing segments of f puts f there where they belong, and touches nothing behind it. */
  lemma {:induction false} WrittenHolds(file: File, f: seq<byte>, ms: seq<Msg>)
    requires SegmentsOf(ms, f)
    ensures forall k: nat | k in Numbers(ms) :: StoredSegment(Written(file, ms), f, k)
    ensures forall j: nat | j >= |f| :: Written(file, ms)(j) == file(j)
  {
    hide StoredSegment, WriteBytes, SegmentOf, SegsOf;
    if ms != [] {
      var before, m := ms[..|ms| - 1], ms[|ms| - 1];
      WrittenHolds(file, f, before);
      forall k: nat | k in Numbers(ms) ensures StoredSegment(Written(file, ms), f, k) {
        WriteStores(Written(file, before), f, m.segNum, k);
      }
      forall j: nat | j >= |f| ensures Written(file, ms)(j) == file(j) {
        WriteStaysInside(Written(file, before), f, m.segNum, j);
      }
    }
  }

  lemma WrittenWhole(file: File, f: seq<byte>, ms: seq<Msg>, j: nat)
    requires SegmentsOf(ms, f) && IsComplete(Numbers(ms), SegsOf(|f|)) && AcceptableSize(|f|)
    ensures Written(file, ms)(j) == if j < |f| then f[j] else file(j)
  {
    hide Written, Numbers;
    WrittenHolds(file, f, ms);
    if j < |f| {
      SegsOfAcceptable(|f|);
      assert j / MAX_FILE_SEGMENT_BYTES in Numbers(ms);
      assert StoredSegment(Written(file, ms), f, j / MAX_FILE_SEGMENT_BYTES);
    }
  }

  /** A store after f was written into it. */
  function Overlaid(f: seq<byte>, after: File): File {
    (k: nat) => if k < |f| then f[k] else after(k)
  }

  /** The server's file announces itself: header fields and CRC are right as they stand in the store, over
      what the open left there. */
  ghost predicate WellFormed(f: seq<byte>, id: bv32, version: bv32, after: File) {
    var c := INITIAL.(id := id, version := version, size := |f|);
    HeaderMatches(c, Overlaid(f, after)) && CrcMatches(c, Overlaid(f, after))
  }

  /** For a file that holds its whole header: its own fields, and the CRC over the rest of it and over the
      16 bytes that follow it in the store. */
  lemma WellFormedByItself(f: seq<byte>, id: bv32, version: bv32, after: File)
    requires |f| >= HDR_LEN
    ensures WellFormed(f, id, version, after) <==>
            && FileSize(WordAt(f, 4)) == |f| && WordAt(f, 8) == id && WordAt(f, 12) == version
            && Crc32(0, f[4..] + FileBytes(after, |f|, 16)) == WordAt(f, 0)
  {
    hide Crc32, Word, FileSize;
    assert FileBytes(Overlaid(f, after), HDR_OFFSET_SIZE, HDR_LEN - HDR_OFFSET_SIZE + |f|)
        == f[HDR_OFFSET_SIZE..] + FileBytes(after, |f|, HDR_LEN);
  }

  lemma StoredIsWellFormed(c: Client, file: File, stored: File, f: seq<byte>)
    requires c.size == |f|
    requires forall j: nat :: stored(j) == if j < |f| then f[j] else file(j)
    ensures HeaderMatches(c, stored) && CrcMatches(c, stored) <==> WellFormed(f, c.id, c.version, file)
    ensures FileBytes(stored, 0, |f|) == f
  {
    hide Crc32, Word, FileSize;
    forall offset: nat, n: nat ensures FileBytes(stored, offset, n) == FileBytes(Overlaid(f, file), offset, n) {
    }
  }

  /** The server announces a file and sends its segments, in any order and with repetitions, until none is
      missing; the host does what it is told. Then the client reaches APPLY, with exactly that file in the
      store, if and only if the file is well formed over what the open left in the store. */
  lemma TransferSucceedsExactly(s: Sys, o: Oracle, init: Msg, ms: seq<Msg>, f: seq<byte>)
    requires s.c.state == Idle && Inv(s.c) && AlwaysOk(o, |s.w.trace|)
    requires AcceptableSize(|f|) && FileSize(init.size) == |f| && init.msgType == TxInit
    requires AreSegmentsFor(ms, init) && SegmentsOf(ms, f)
    requires ms != [] && IsComplete(Numbers(ms), SegsOf(|f|)) && !IsComplete(Numbers(ms[..|ms| - 1]), SegsOf(|f|))
    ensures var t := Deliver(s, o, [init] + ms);
            && t.c.id == init.id && t.c.version == init.version && t.c.size == |f|
            && (t.c.state == Apply <==> WellFormed(f, init.id, init.version, o(|s.w.trace|).content))
            && (t.c.state == Apply ==> FileBytes(t.w.file, 0, |f|) == f)
            && (t.c.state != Apply ==> t.c.state == Segment && t.c.rx == {})
  {
    hide Deliver, Numbers, Written, IsComplete, SegsOf, HeaderMatches, CrcMatches, WellFormed, SegmentOf, FileBytes,
      StartSegment, Missing;
    DeliverAfter(s, o, init, ms);
    var u := Opening(s, o, init, ms, f);
    var stored := Written(u.w.file, ms);
    DeliveryCompletes(u, o, ms);
    forall j: nat ensures stored(j) == if j < |f| then f[j] else u.w.file(j) { WrittenWhole(u.w.file, f, ms, j); }
    StoredIsWellFormed(u.c, u.w.file, stored, f);
  }

  /** What the announcement leads to. */
  lemma Opening(s: Sys, o: Oracle, init: Msg, ms: seq<Msg>, f: seq<byte>) returns (u: Sys)
    requires s.c.state == Idle && Inv(s.c) && AlwaysOk(o, |s.w.trace|)
    requires AcceptableSize(|f|) && FileSize(init.size) == |f| && init.msgType == TxInit
    requires AreSegmentsFor(ms, init) && SegmentsOf(ms, f)
    requires ms != [] && IsComplete(Numbers(ms), SegsOf(|f|)) && !IsComplete(Numbers(ms[..|ms| - 1]), SegsOf(|f|))
    ensures u == MsgStep(s, o, init).0
    ensures u.c.state == Segment && Inv(u.c) && AlwaysOk(o, |u.w.trace|)
    ensures u.c.id == init.id && u.c.version == init.version && u.c.size == |f|
    ensures u.c.rx == {} && u.c.numSegs == SegsOf(|f|)
    ensures u.w.file == o(|s.w.trace|).content
    ensures AreRequested(u.c, ms) && CompletesAtLast(u.c, ms)
  {
    hide Numbers, IsComplete, SegsOf, FileSize, UplinkBytes, Missing, SegmentOf, StartSegment;
    u := MsgStep(s, o, init).0;
    OpenSucceeds(s, o, init);
    StartSegmentEffect(s, o, init);
    StartSegmentKeepsInv(s, o, init);
    MissingExact(u.c.rx, u.c.numSegs);
    assert {} + Numbers(ms) == Numbers(ms) && {} + Numbers(ms[..|ms| - 1]) == Numbers(ms[..|ms| - 1]);
  }

  lemma OpenSucceeds(s: Sys, o: Oracle, m: Msg)
    requires o(|s.w.trace|).ret == Ok && AcceptableSize(FileSize(m.size))
    ensures var (u, r) := StartSegment(s, o, m);
            r == Ok && u.w.file == o(|s.w.trace|).content && |u.w.trace| == |s.w.trace| + 5
  {
    hide FileSize, UplinkBytes, SegsOf;
  }

  // ---------------------------------------------------------------- runs on the air

  function OnTheAir(ms: seq<Msg>): (inputs: seq<Input>)
    ensures |inputs| == |ms|
  {
    seq(|ms|, i requires 0 <= i < |ms| => Downlink(Encode(ms[i])))
  }

  ghost predicate AllSendable(ms: seq<Msg>) {
    forall i | 0 <= i < |ms| :: Sendable(ms[i]) && ValidMsg(ms[i])
  }

  /** What holds of delivered messages holds of runs of the client on the bytes of those messages. */
  lemma {:induction false} RunIsDeliver(s: Sys, o: Oracle, ms: seq<Msg>)
    requires AllSendable(ms)
    ensures AllValid(OnTheAir(ms)) && Run(s, o, OnTheAir(ms)) == Deliver(s, o, ms)
  {
    hide Step, MsgStep, Encode, Sendable, ValidMsg, ValidInput;
    if ms != [] {
      var before := ms[..|ms| - 1];
      RunIsDeliver(s, o, before);
      EncodedStep(Deliver(s, o, before), o, ms[|ms| - 1]);
      assert OnTheAir(ms)[..|ms| - 1] == OnTheAir(before);
    }
  }

  /** A header alone is a file. */
  lemma HeaderIsWellFormed(id: bv32, version: bv32, after: File) returns (f: seq<byte>)
    ensures |f| == HDR_LEN && WellFormed(f, id, version, after)
  {
    var tail := FileBytes(after, HDR_LEN, HDR_LEN);
    hide Crc32, Word, WordBytes, FileSize;
    var body := WordBytes(16) + WordBytes(id) + WordBytes(version);
    f := WordBytes(Crc32(0, body + tail)) + body;
    assert f[0..4] == WordBytes(Crc32(0, body + tail)) && f[4..8] == WordBytes(16);
    assert f[8..12] == WordBytes(id) && f[12..16] == WordBytes(version) && f[4..] == body;
    WordAtSplit(f, 0, Crc32(0, body + tail));
    WordAtSplit(f, 4, 16);
    WordAtSplit(f, 8, id);
    WordAtSplit(f, 12, version);
    SixteenIsSixteen();
    WellFormedByItself(f, id, version, after);
    hide WellFormed;
  }

  lemma SixteenIsSixteen()
    ensures FileSize(16) == 16
  {
  }

  /** With a host that does what it is told, APPLY is two messages away, for every id and version. */
  lemma ApplyIsReachable(file: File, o: Oracle, id: bv32, version: bv32) returns (ms: seq<Msg>)
    requires AlwaysOk(o, 0)
    ensures AllSendable(ms) && AllValid(OnTheAir(ms)) && |ms| == 2
    ensures Run(Start(file), o, OnTheAir(ms)).c.state == Apply
    ensures Run(Start(file), o, OnTheAir(ms)).c.id == id && Run(Start(file), o, OnTheAir(ms)).c.version == version
  {
    hide WellFormed, FileSize, FileBytes, Deliver, Encode, Run;
    var f := HeaderIsWellFormed(id, version, o(0).content);
    var init := Msg(TxInit, id, version, 16, 0, 0, []);
    var segment := Msg(TxSegment, id, version, 16, 0, 1, f);
    ms := [init] + [segment];
    SixteenIsSixteen();
    assert Numbers([segment]) == {0};
    assert Numbers([segment][..0]) == {};
    TransferSucceedsExactly(Start(file), o, init, [segment], f);
    RunIsDeliver(Start(file), o, ms);
  }

  lemma OneSegment()
    ensures SegsOf(16) == 1 && IsComplete({} + {0}, 1) && IsComplete({0}, 1) && !IsComplete({}, 1)
    ensures Missing({}, 1) == [0]
  {
    EmptyIsIncomplete(1);
    MissingStart({});
    MissingStep({}, 0);
  }

  lemma WholeSegment(f: seq<byte>)
    requires |f| == 16
    ensures SegsOf(|f|) == 1 && SegmentOf(f, 0) == f
  {
  }

  lemma FreshIsReassembled(s: Sys, src: Sources)
    requires s.c.rx == {}
    ensures Reassembled(s, src)
  {
  }

  /** A repair that delivers the file, for every id and version: the client has been announced a file, lacks
      its one segment, and is sent it. */
  lemma RepairHappens(file: File, o: Oracle, id: bv32, version: bv32)
    returns (init: Msg, u: Sys, segment: Msg, src: Sources)
    requires AlwaysOk(o, 0)
    ensures Sendable(init) && ValidMsg(init) && u == Deliver(Start(file), o, [init])
    ensures u.c.state == Segment && Missing(u.c.rx, u.c.numSegs) == [0]
    ensures segment.msgType == TxSegment && IsMine(u.c, segment) && segment.segNum == 0 && Genuine(segment, src)
    ensures var t := Deliver(u, o, [segment]);
            t.c.state == Apply && FileBytes(t.w.file, 0, u.c.size) == src(id, version)
  {
    hide WellFormed, FileSize, FileBytes, MsgStep, SegmentOf, HeaderMatches, CrcMatches, Reassembled, SegsOf, Missing,
      WriteBytes, IsComplete;
    var s := Start(file);
    var f := HeaderIsWellFormed(id, version, o(0).content);
    src := (i: bv32, v: bv32) => f;
    init := Msg(TxInit, id, version, 16, 0, 0, []);
    segment := Msg(TxSegment, id, version, 16, 0, 1, f);
    var ms := [segment];
    SixteenIsSixteen();
    OneSegment();
    WholeSegment(f);
    assert Numbers(ms) == {0} && Numbers(ms[..0]) == {};
    u := Opening(s, o, init, ms, f);
    assert [init][..0] == [];
    DeliverAfter(s, o, init, []);
    assert [init] + [] == [init];
    FreshIsReassembled(u, src);
    forall j: nat ensures Written(u.w.file, ms)(j) == if j < |f| then f[j] else u.w.file(j) {
      WrittenWhole(u.w.file, f, ms, j);
    }
    StoredIsWellFormed(u.c, u.w.file, Written(u.w.file, ms), f);
    RepairDeliversTheFile(u, o, ms, src);
  }
}
