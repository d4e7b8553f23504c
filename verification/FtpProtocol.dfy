/** The Symphony file-transfer client as a transition function: what one call of
    ll_ftp_msg_process does to the client, to the stored file and to the sequence of calls the
    client makes on its host. Every result the host returns is taken from an arbitrary oracle. */
module FtpProtocol {
  import opened Bytes
  import opened Octets
  import opened Clock
  import opened CyclicCheck32
  import opened FtpMessages
  import opened SegmentBitmap

  const MAX_FILE_SEGMENT_BYTES: nat := 107
  const HDR_LEN: nat := 16
  const HDR_OFFSET_CRC: nat := 0
  const HDR_OFFSET_SIZE: nat := 4
  const HDR_OFFSET_ID: nat := 8
  const HDR_OFFSET_VERSION: nat := 12
  const CHUNK: nat := 16
  const MAX_NUM_RETRIES: nat := 5
  const RETRY_INTERVAL: int := 16
  const MAX_FILE_SIZE: nat := MAX_NUM_SEGMENTS * MAX_FILE_SEGMENT_BYTES

  datatype State = Idle | Segment | Apply

  /** The fields of ll_ftp_t; the bitmap as the set of numbers whose bit is set. */
  datatype Client = Client(state: State, numSegs: nat, rx: set<nat>, id: bv32, version: bv32, size: nat,
                           last: Time, retries: nat)

  const INITIAL := Client(Idle, 0, {}, 0, 0, 0, Time(0, 0), 0)

  /** One call on the host, with what it returned. */
  datatype Event =
    | Opened(id: bv32, version: bv32, size: nat, ret: ReturnCode)
    | ReadBack(id: bv32, version: bv32, offset: nat, len: nat, data: seq<byte>, ret: ReturnCode)
    | Wrote(id: bv32, version: bv32, offset: nat, data: seq<byte>, ret: ReturnCode)
    | Closed(id: bv32, version: bv32, ret: ReturnCode)
    | Applied(id: bv32, version: bv32, size: nat, ret: ReturnCode)
    | Uplinked(data: seq<byte>)
    | Configured(downlinkOn: bool)
    | ClockRead(now: Time)

  predicate OpenOk(e: Event) {
    e.Opened? && e.ret == Ok
  }

  type File = nat -> byte

  /** What the host answers to one call: the field that the call asks for. A successful open may
      leave any content in the file. */
  datatype Reply = Reply(ret: ReturnCode, now: Time, content: File)

  type Oracle = nat -> Reply

  /** The calls so far, and the content of the file that was opened last. */
  datatype World = World(trace: seq<Event>, file: File)

  datatype Sys = Sys(c: Client, w: World)

  // ---------------------------------------------------------------- calls on the host

  predicate AcceptableSize(size: nat) {
    1 <= size <= MAX_FILE_SIZE
  }

  function FileBytes(file: File, offset: nat, len: nat): (s: seq<byte>)
    ensures |s| == len
  {
    seq(len, i requires 0 <= i < len => file(offset + i))
  }

  function WriteBytes(file: File, offset: nat, data: seq<byte>): File {
    (k: nat) => if offset <= k < offset + |data| then data[k - offset] else file(k)
  }

  function Emit(s: Sys, e: Event): Sys {
    s.(w := s.w.(trace := s.w.trace + [e]))
  }

  function Answer(s: Sys, o: Oracle): Reply {
    o(|s.w.trace|)
  }

  /** The host turns away files that are empty or larger than the bitmap can track. */
  function OpenResult(s: Sys, o: Oracle, size: nat): ReturnCode {
    var r := Answer(s, o).ret;
    if r == Ok && !AcceptableSize(size) then NoAction else r
  }

  function CallOpen(s: Sys, o: Oracle, id: bv32, version: bv32, size: nat): (Sys, ReturnCode) {
    var r := OpenResult(s, o, size);
    var t := Emit(s, Opened(id, version, size, r));
    (if r == Ok then t.(w := t.w.(file := Answer(s, o).content)) else t, r)
  }

  function CallRead(s: Sys, o: Oracle, offset: nat, len: nat): (Sys, ReturnCode, seq<byte>) {
    var r := Answer(s, o).ret;
    var data := if r == Ok then FileBytes(s.w.file, offset, len) else [];
    (Emit(s, ReadBack(s.c.id, s.c.version, offset, len, data, r)), r, data)
  }

  function CallWrite(s: Sys, o: Oracle, id: bv32, version: bv32, offset: nat, data: seq<byte>): (Sys, ReturnCode) {
    var r := Answer(s, o).ret;
    var t := Emit(s, Wrote(id, version, offset, data, r));
    (if r == Ok then t.(w := t.w.(file := WriteBytes(t.w.file, offset, data))) else t, r)
  }

  function CallClose(s: Sys, o: Oracle): (Sys, ReturnCode) {
    var r := Answer(s, o).ret;
    (Emit(s, Closed(s.c.id, s.c.version, r)), r)
  }

  function CallApply(s: Sys, o: Oracle): (Sys, ReturnCode) {
    var r := Answer(s, o).ret;
    (Emit(s, Applied(s.c.id, s.c.version, s.c.size, r)), r)
  }

  function CallConfig(s: Sys, on: bool): Sys {
    Emit(s, Configured(on))
  }

  function GetTime(s: Sys, o: Oracle): (Sys, Time) {
    var t := Answer(s, o).now;
    (Emit(s, ClockRead(t)), t)
  }

  // ---------------------------------------------------------------- building blocks

  /** ll_ftp_send_uplink */
  function SendUplink(s: Sys, o: Oracle, data: seq<byte>): Sys {
    var (t, now) := GetTime(Emit(s, Uplinked(data)), o);
    t.(c := t.c.(last := now))
  }

  /** ll_ftp_reset */
  function Reset(s: Sys, o: Oracle): Sys {
    var (t, now) := GetTime(s, o);
    t.(c := t.c.(last := now, retries := 0))
  }

  function SegsOf(size: nat): nat {
    (size + (MAX_FILE_SEGMENT_BYTES - 1)) / MAX_FILE_SEGMENT_BYTES
  }

  function SendAckInit(s: Sys, o: Oracle, ack: bool): Sys {
    SendUplink(s, o, UplinkBytes(AckInit, if ack then ACK_ACK else ACK_NAK, s.c.id, s.c.version, []))
  }

  function SendSegsComplete(s: Sys, o: Oracle): Sys {
    SendUplink(s, o, UplinkBytes(AckSegment, ACK_ACK, s.c.id, s.c.version, []))
  }

  function SendRequest(s: Sys, o: Oracle): Sys {
    SendUplink(s, o, RequestBytes(s.c.id, s.c.version, Missing(s.c.rx, s.c.numSegs)))
  }

  function SendAckApply(s: Sys, o: Oracle): Sys {
    SendUplink(s, o, UplinkBytes(AckApply, ACK_ACK, s.c.id, s.c.version, []))
  }

  /** ll_ftp_new_file_initialize */
  function NewFile(s: Sys, o: Oracle, m: Msg): Sys {
    var t := Reset(s, o);
    var size := FileSize(m.size);
    SendAckInit(t.(c := t.c.(id := m.id, version := m.version, size := size, numSegs := SegsOf(size), rx := {})),
                o, true)
  }

  function SetState(s: Sys, state: State): Sys {
    s.(c := s.c.(state := state))
  }

  /** ll_ftp_segment_start */
  function SegmentStart(s: Sys, o: Oracle, m: Msg): (Sys, ReturnCode) {
    var (t, r) := CallOpen(s, o, m.id, m.version, FileSize(m.size));
    if r == Ok then (CallConfig(NewFile(t, o, m), true), Ok)
    else if m.msgType == TxInit || m.msgType == TxSegment then (SendAckInit(t, o, false), NoAction)
    else (t, NoAction)
  }

  /** To SEGMENT, from any state: only when the host opens the file */
  function StartSegment(s: Sys, o: Oracle, m: Msg): (Sys, ReturnCode) {
    var (t, r) := SegmentStart(s, o, m);
    (if r == Ok then SetState(t, Segment) else t, r)
  }

  /** ll_ftp_idle_start */
  function IdleStart(s: Sys, o: Oracle): (Sys, ReturnCode) {
    var (t, r) := CallClose(s, o);
    if r == Ok then (CallConfig(t, false), Ok) else (t, Error)
  }

  /** ll_ftp_init on a client that has its callbacks */
  function Init(s: Sys): Sys {
    s.(c := INITIAL)
  }

  /** SEGMENT to IDLE: only when the file closes */
  function SegmentToIdle(s: Sys, o: Oracle): (Sys, ReturnCode) {
    var (t, r) := IdleStart(s, o);
    (if r == Ok then Init(t) else t, r)
  }

  /** ll_ftp_apply_start */
  function ApplyStart(s: Sys, o: Oracle): (Sys, ReturnCode) {
    var (t, r) := CallClose(s, o);
    if r == Ok then (SendSegsComplete(t, o), Ok) else (t, Error)
  }

  /** SEGMENT to APPLY: to IDLE instead when the file does not close */
  function SegmentToApply(s: Sys, o: Oracle): (Sys, ReturnCode) {
    var (t, r) := ApplyStart(s, o);
    (SetState(t, if r == Ok then Apply else Idle), r)
  }

  /** APPLY to IDLE: always */
  function ApplyToIdle(s: Sys, o: Oracle, isError: bool): (Sys, ReturnCode) {
    var (t, r) := IdleStart(s, o);
    (Init(t), if isError then Error else r)
  }

  // ---------------------------------------------------------------- verification of the file

  /** ll_ftp_verify_file_info: the result, and the CRC from the file's header */
  function VerifyFileInfo(s: Sys, o: Oracle): (Sys, ReturnCode, bv32) {
    var (s1, r1, crc) := CallRead(s, o, HDR_OFFSET_CRC, 4);
    if r1 != Ok then (s1, r1, 0) else
    var (s2, r2, size) := CallRead(s1, o, HDR_OFFSET_SIZE, 4);
    if r2 != Ok then (s2, r2, WordAt(crc, 0)) else
    var (s3, r3, id) := CallRead(s2, o, HDR_OFFSET_ID, 4);
    if r3 != Ok then (s3, r3, WordAt(crc, 0)) else
    var (s4, r4, version) := CallRead(s3, o, HDR_OFFSET_VERSION, 4);
    if r4 != Ok then (s4, r4, WordAt(crc, 0)) else
    (s4,
     if FileSize(WordAt(size, 0)) != s.c.size || WordAt(id, 0) != s.c.id || WordAt(version, 0) != s.c.version
     then Error else Ok,
     WordAt(crc, 0))
  }

  /** One turn of the loop of ll_ftp_compute_file_crc; a chunk that cannot be read is skipped */
  function NextChunk(s: Sys, o: Oracle, offset: nat, crc: bv32): (Sys, nat, bv32)
    requires offset < HDR_LEN + s.c.size
  {
    var end := HDR_LEN + s.c.size;
    var len := if offset + CHUNK > end then end - offset else CHUNK;
    var (t, r, data) := CallRead(s, o, offset, len);
    (t, offset + len, if r == Ok then Crc32(crc, data) else crc)
  }

  /** ll_ftp_compute_file_crc from a given offset on */
  function FileCrc(s: Sys, o: Oracle, offset: nat, crc: bv32): (r: (Sys, bv32))
    ensures r.0.c == s.c && r.0.w.file == s.w.file
    decreases HDR_LEN + s.c.size - offset
  {
    if offset >= HDR_LEN + s.c.size then (s, crc)
    else
      var (t, at, next) := NextChunk(s, o, offset, crc);
      FileCrc(t, o, at, next)
  }

  /** ll_ftp_verify_file */
  function VerifyFile(s: Sys, o: Oracle): (Sys, ReturnCode) {
    var (t, r, fileCrc) := VerifyFileInfo(s, o);
    if r != Ok then (t, r)
    else
      var (u, crc) := FileCrc(t, o, HDR_OFFSET_SIZE, 0);
      (u, if crc == fileCrc then Ok else Error)
  }

  // ---------------------------------------------------------------- one message

  predicate IsMine(c: Client, m: Msg) {
    m.id == c.id && m.version == c.version
  }

  /** The effect of a write on the bitmap */
  function Tracked(rx: set<nat>, segNum: nat): set<nat> {
    rx + if segNum < MAX_NUM_SEGMENTS then {segNum} else {}
  }

  /** ll_ftp_write_segment */
  function WriteSegment(s: Sys, o: Oracle, m: Msg): (Sys, ReturnCode) {
    var (t, r) := CallWrite(s, o, m.id, m.version, m.segNum * MAX_FILE_SEGMENT_BYTES, m.payload);
    if r == Ok then (t.(c := t.c.(rx := Tracked(t.c.rx, m.segNum))), Ok) else (t, NoAction)
  }

  /** After a failed verification: forget the progress and reopen the file, or give it up. */
  function Restart(s: Sys, o: Oracle): (Sys, ReturnCode) {
    var t := Reset(s.(c := s.c.(rx := {})), o);
    var (u, r) := CallClose(t, o);
    if r != Ok then SegmentToIdle(u, o)
    else
      var (v, q) := CallOpen(u, o, u.c.id, u.c.version, u.c.size);
      if q != Ok then SegmentToIdle(v, o) else (v, Ok)
  }

  /** All segments are there: verify, then move on or start over. */
  function Finish(s: Sys, o: Oracle): (Sys, ReturnCode) {
    var (t, r) := VerifyFile(s, o);
    if r == Ok then SegmentToApply(t, o) else Restart(t, o)
  }

  /** A segment of the file in transfer */
  function ReceiveSegment(s: Sys, o: Oracle, m: Msg): (Sys, ReturnCode) {
    var (t, r) := WriteSegment(Reset(s, o), o, m);
    if IsComplete(t.c.rx, t.c.numSegs) then Finish(t, o) else (t, r)
  }

  predicate Expired(c: Client, now: Time) {
    DiffTime(c.last, now) >= RETRY_INTERVAL
  }

  function CountRetry(s: Sys): Sys {
    s.(c := s.c.(retries := s.c.retries + 1))
  }

  function SegmentTick(s: Sys, o: Oracle): (Sys, ReturnCode) {
    var (t, now) := GetTime(s, o);
    if !Expired(s.c, now) then (t, Ok)
    else if s.c.retries < MAX_NUM_RETRIES then (CountRetry(SendRequest(t, o)), Ok)
    else SegmentToIdle(t, o)
  }

  function ApplyTick(s: Sys, o: Oracle): (Sys, ReturnCode) {
    var (t, now) := GetTime(s, o);
    if !Expired(s.c, now) then (t, Ok)
    else if s.c.retries < MAX_NUM_RETRIES then (CountRetry(SendSegsComplete(t, o)), Ok)
    else ApplyToIdle(t, o, false)
  }

  /** The server's order to apply the file */
  function ApplyFile(s: Sys, o: Oracle): (Sys, ReturnCode) {
    var (t, r) := CallApply(s, o);
    if r == Ok then ApplyToIdle(SendAckApply(t, o), o, false) else ApplyToIdle(t, o, true)
  }

  /** ll_ftp_idle_process_msg on a parsed message */
  function IdleStep(s: Sys, o: Oracle, m: Msg): (Sys, ReturnCode) {
    if m.msgType != TxInit && m.msgType != TxSegment then (s, InvalidValue) else StartSegment(s, o, m)
  }

  /** ll_ftp_segment_process_msg on a parsed message */
  function SegmentStep(s: Sys, o: Oracle, m: Msg): (Sys, ReturnCode) {
    match m.msgType
    case TxInit => if IsMine(s.c, m) then (s, NoAction) else StartSegment(s, o, m)
    case TxCancel => if IsMine(s.c, m) then SegmentToIdle(s, o) else (s, NoAction)
    case TxSegment => if IsMine(s.c, m) then ReceiveSegment(s, o, m) else StartSegment(s, o, m)
    case TxApply => (SendRequest(s, o), Ok)
    case Tick => SegmentTick(s, o)
    case AckInit => (s, NoAction)
    case AckSegment => (s, NoAction)
    case AckApply => (s, NoAction)
  }

  /** ll_ftp_apply_process_msg on a parsed message */
  function ApplyStep(s: Sys, o: Oracle, m: Msg): (Sys, ReturnCode) {
    match m.msgType
    case TxInit => if IsMine(s.c, m) then (s, NoAction) else StartSegment(s, o, m)
    case TxCancel => if IsMine(s.c, m) then ApplyToIdle(s, o, false) else (s, NoAction)
    case TxSegment => if IsMine(s.c, m) then (Reset(s, o), NoAction) else StartSegment(s, o, m)
    case TxApply => if IsMine(s.c, m) then ApplyFile(s, o) else (s, NoAction)
    case Tick => ApplyTick(s, o)
    case AckInit => (s, NoAction)
    case AckSegment => (s, NoAction)
    case AckApply => (s, NoAction)
  }

  function MsgStep(s: Sys, o: Oracle, m: Msg): (Sys, ReturnCode) {
    match s.c.state
    case Idle => IdleStep(s, o, m)
    case Segment => SegmentStep(s, o, m)
    case Apply => ApplyStep(s, o, m)
  }

  /** The inputs the bitmap has room for: a segment of any other number than the first one past it. */
  predicate ValidInput(input: Input) {
    && WellSized(input)
    && (Parse(input).Accepted? ==> ValidMsg(Parse(input).msg))
  }

  predicate ValidMsg(m: Msg) {
    m.msgType == TxSegment ==> m.segNum != MAX_NUM_SEGMENTS
  }

  /** ll_ftp_msg_process */
  function Step(s: Sys, o: Oracle, input: Input): (Sys, ReturnCode)
    requires ValidInput(input)
  {
    match Parse(input)
    case Rejected(r) => (s, r)
    case Accepted(m) => MsgStep(s, o, m)
  }

  /** A run: one call of ll_ftp_msg_process for each input. */
  function Run(s: Sys, o: Oracle, inputs: seq<Input>): Sys
    requires forall i | 0 <= i < |inputs| :: ValidInput(inputs[i])
    decreases |inputs|
  {
    if inputs == [] then s
    else Step(Run(s, o, inputs[..|inputs| - 1]), o, inputs[|inputs| - 1]).0
  }

  /** A client that has just been initialised and has made no call yet. */
  function Start(file: File): Sys {
    Sys(INITIAL, World([], file))
  }
}
