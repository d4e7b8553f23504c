/** The file-transfer client as the source has it: a record updated in place, a bitmap of 32-bit
    words and a transmit buffer filled by index. Every method is proved to do to its record, to
    the file and to the host's call log what the transition function of FtpProtocol says. */
module FtpClient {
  import opened Bytes
  import opened Octets
  import opened Clock
  import opened CyclicCheck32
  import opened FtpMessages
  import opened FtpProtocol
  import opened SegmentBitmap

  const TX_BUF_SIZE: nat := BASE_UL_MSG_LEN + 2 * MAX_NUM_RETRY_SEGS

  /** The application's callbacks. */
  class Host {
    const replies: Oracle
    var trace: seq<Event>
    var file: File

    constructor (replies: Oracle, file: File)
      ensures this.replies == replies && trace == [] && this.file == file
    {
      this.replies, this.trace, this.file := replies, [], file;
    }

    method GetTime() returns (now: Time)
      modifies this`trace
      ensures now == replies(|old(trace)|).now && trace == old(trace) + [ClockRead(now)]
    {
      now := replies(|trace|).now;
      trace := trace + [ClockRead(now)];
    }

    method Open(id: bv32, version: bv32, size: nat) returns (ret: ReturnCode)
      modifies this
      ensures ret == if replies(|old(trace)|).ret == Ok && !AcceptableSize(size) then NoAction
                     else replies(|old(trace)|).ret
      ensures trace == old(trace) + [Opened(id, version, size, ret)]
      ensures file == if ret == Ok then replies(|old(trace)|).content else old(file)
    {
      var answer := replies(|trace|);
      ret := if answer.ret == Ok && !AcceptableSize(size) then NoAction else answer.ret;
      trace := trace + [Opened(id, version, size, ret)];
      if ret == Ok {
        file := answer.content;
      }
    }

    method Read(id: bv32, version: bv32, offset: nat, buf: array<byte>, len: nat) returns (ret: ReturnCode)
      requires len <= buf.Length
      modifies this`trace, buf
      ensures ret == replies(|old(trace)|).ret
      ensures ret == Ok ==> buf[..len] == FileBytes(file, offset, len)
      ensures var data := if ret == Ok then FileBytes(file, offset, len) else [];
              trace == old(trace) + [ReadBack(id, version, offset, len, data, ret)]
    {
      ret := replies(|trace|).ret;
      if ret == Ok {
        for i := 0 to len
          invariant trace == old(trace)
          invariant buf[..i] == FileBytes(file, offset, len)[..i]
        {
          buf[i] := file(offset + i);
        }
      }
      trace := trace + [ReadBack(id, version, offset, len, if ret == Ok then buf[..len] else [], ret)];
    }

    method Write(id: bv32, version: bv32, offset: nat, data: seq<byte>) returns (ret: ReturnCode)
      modifies this
      ensures ret == replies(|old(trace)|).ret
      ensures trace == old(trace) + [Wrote(id, version, offset, data, ret)]
      ensures file == if ret == Ok then WriteBytes(old(file), offset, data) else old(file)
    {
      ret := replies(|trace|).ret;
      trace := trace + [Wrote(id, version, offset, data, ret)];
      if ret == Ok {
        file := WriteBytes(file, offset, data);
      }
    }

    method Close(id: bv32, version: bv32) returns (ret: ReturnCode)
      modifies this`trace
      ensures ret == replies(|old(trace)|).ret && trace == old(trace) + [Closed(id, version, ret)]
    {
      ret := replies(|trace|).ret;
      trace := trace + [Closed(id, version, ret)];
    }

    method Apply(id: bv32, version: bv32, size: nat) returns (ret: ReturnCode)
      modifies this`trace
      ensures ret == replies(|old(trace)|).ret && trace == old(trace) + [Applied(id, version, size, ret)]
    {
      ret := replies(|trace|).ret;
      trace := trace + [Applied(id, version, size, ret)];
    }

    method Uplink(buf: array<byte>, len: nat)
      requires len <= buf.Length
      modifies this`trace
      ensures trace == old(trace) + [Uplinked(buf[..len])]
    {
      trace := trace + [Uplinked(buf[..len])];
    }

    method Config(downlinkOn: bool)
      modifies this`trace
      ensures trace == old(trace) + [Configured(downlinkOn)]
    {
      trace := trace + [Configured(downlinkOn)];
    }
  }

  /** ll_ftp_t */
  class Client {
    const host: Host
    const rxSegs: array<bv32>
    const txBuf: array<byte>
    var state: State
    var numSegs: nat
    var fileId: bv32
    var fileVersion: bv32
    var fileSize: nat
    var timeLastMsg: Time
    var retryCount: nat

    ghost predicate Valid()
      reads this
    {
      && rxSegs.Length == NUM_RX_SEGS_BITMASK
      && txBuf.Length == TX_BUF_SIZE
      && numSegs <= MAX_NUM_SEGMENTS
    }

    /** The state of the specification that this object stands for. */
    ghost function View(): Sys
      reads this, rxSegs, host
    {
      Sys(FtpProtocol.Client(state, numSegs, Received(rxSegs[..]), fileId, fileVersion, fileSize, timeLastMsg,
                             retryCount),
          World(host.trace, host.file))
    }

    ghost function O(): Oracle {
      host.replies
    }

    constructor (host: Host)
      ensures Valid() && fresh(rxSegs) && fresh(txBuf) && this.host == host
      ensures View() == Sys(INITIAL, World(host.trace, host.file))
    {
      this.host := host;
      this.rxSegs := new bv32[NUM_RX_SEGS_BITMASK](i => 0);
      this.txBuf := new byte[TX_BUF_SIZE](i => 0);
      state, numSegs, fileId, fileVersion, fileSize := Idle, 0, 0, 0, 0;
      timeLastMsg, retryCount := Time(0, 0), 0;
      new;
      ReceivedOfZeros(rxSegs[..]);
    }

    /** memset of the bitmap */
    method ClearRxSegs()
      requires Valid()
      modifies rxSegs
      ensures View() == old(View()).(c := old(View()).c.(rx := {}))
    {
      for i := 0 to rxSegs.Length
        invariant forall j | 0 <= j < i :: rxSegs[j] == 0
      {
        rxSegs[i] := 0;
      }
      ReceivedOfZeros(rxSegs[..]);
    }

    /** ll_ftp_init */
    method Init()
      requires Valid()
      modifies this, rxSegs, txBuf
      ensures Valid() && View() == FtpProtocol.Init(old(View()))
      ensures forall i | 0 <= i < TX_BUF_SIZE :: txBuf[i] == 0
    {
      state := Idle;
      numSegs := 0;
      ClearRxSegs();
      fileId, fileVersion, fileSize := 0, 0, 0;
      timeLastMsg, retryCount := Time(0, 0), 0;
      for i := 0 to txBuf.Length
        invariant View() == FtpProtocol.Init(old(View())) && Valid()
        invariant forall j | 0 <= j < i :: txBuf[j] == 0
      {
        txBuf[i] := 0;
      }
    }

    /** ll_ftp_send_uplink */
    method SendUplink(len: nat)
      requires Valid() && len <= TX_BUF_SIZE
      modifies this, host
      ensures Valid() && View() == FtpProtocol.SendUplink(old(View()), O(), old(txBuf[..len]))
    {
      host.Uplink(txBuf, len);
      timeLastMsg := host.GetTime();
    }

    /** ll_ftp_reset */
    method Reset()
      requires Valid()
      modifies this, host
      ensures Valid() && View() == FtpProtocol.Reset(old(View()), O())
    {
      timeLastMsg := host.GetTime();
      retryCount := 0;
    }

    /** UINT32_TO_BYTESTREAM into the transmit buffer */
    method PutWord(i: nat, x: bv32)
      requires Valid() && i + 4 <= TX_BUF_SIZE
      modifies txBuf
      ensures txBuf[i..i + 4] == WordBytes(x)
      ensures forall j | 0 <= j < TX_BUF_SIZE && !(i <= j < i + 4) :: txBuf[j] == old(txBuf[j])
    {
      hide WordBytes;
      var b := WordBytes(x);
      txBuf[i], txBuf[i + 1], txBuf[i + 2], txBuf[i + 3] := b[0], b[1], b[2], b[3];
    }

    /** The part that the four uplink generators share, before the CRC. */
    method PutHeader(t: MsgType, ack: byte)
      requires Valid()
      modifies txBuf
      ensures txBuf[0] == CodeOf(t)
      ensures txBuf[5..14] == [ack] + WordBytes(fileId) + WordBytes(fileVersion)
      ensures txBuf[14..] == old(txBuf[14..])
    {
      hide WordBytes, CodeOf;
      txBuf[0] := CodeOf(t);
      txBuf[5] := ack;
      PutWord(6, fileId);
      PutWord(10, fileVersion);
    }

    /** The CRC over everything after it, into its place. */
    method PutCrc(len: nat)
      requires Valid() && BASE_UL_MSG_LEN <= len <= TX_BUF_SIZE
      modifies txBuf
      ensures txBuf[..len] == [old(txBuf[0])] + WordBytes(Crc32(0, old(txBuf[5..len]))) + old(txBuf[5..len])
    {
      hide WordBytes, Crc32;
      var crc := ComputeCrc32(0, txBuf, 5, len - 5);
      assert txBuf[5..5 + (len - 5)] == txBuf[5..len];
      PutWord(1, crc);
    }

    /** ll_ftp_ack_init_generate, ll_ftp_ack_segs_complete_generate and ll_ftp_ack_apply_generate */
    method AckGenerate(t: MsgType, ack: byte) returns (len: nat)
      requires Valid()
      modifies txBuf
      ensures len == BASE_UL_MSG_LEN
      ensures txBuf[..len] == UplinkBytes(t, ack, fileId, fileVersion, [])
    {
      hide WordBytes, CodeOf, Crc32;
      PutHeader(t, ack);
      assert txBuf[5..14] == UplinkBody(ack, fileId, fileVersion, []);
      PutCrc(BASE_UL_MSG_LEN);
      len := BASE_UL_MSG_LEN;
    }

    /** ll_ftp_ack_segs_request_generate */
    method AckSegsRequestGenerate() returns (len: nat)
      requires Valid()
      modifies txBuf
      ensures len <= TX_BUF_SIZE
      ensures txBuf[..len] == RequestBytes(fileId, fileVersion, Missing(Received(rxSegs[..]), numSegs))
    {
      hide WordBytes, CodeOf, Crc32, Received, Missing;
      ghost var missing := Missing(Received(rxSegs[..]), numSegs);
      PutHeader(AckSegment, ACK_NAK_SEGMENT);
      ghost var header := txBuf[..14];
      var numMissing := GetMissingSegs(rxSegs, txBuf, numSegs, true);
      assert txBuf[5..14] == header[5..] && txBuf[0] == header[0];
      len := BASE_UL_MSG_LEN;
      if MAX_NUM_RETRY_SEGS <= numMissing {
        txBuf[5] := ACK_NAK;
        assert txBuf[5..14] == UplinkBody(ACK_NAK, fileId, fileVersion, []);
      } else {
        len := len + 2 * numMissing;
        SplitAt(txBuf[..], 5, 14, len);
        assert txBuf[..][5..len] == txBuf[5..len];
        assert txBuf[..][5..14] == txBuf[5..14] && txBuf[..][14..len] == txBuf[14..len];
        assert txBuf[5..len] == UplinkBody(ACK_NAK_SEGMENT, fileId, fileVersion, missing);
      }
      PutCrc(len);
    }

    /** ll_ftp_new_file_initialize */
    method NewFileInitialize(m: Msg)
      requires Valid() && AcceptableSize(FileSize(m.size))
      modifies this, rxSegs, txBuf, host
      ensures Valid() && View() == NewFile(old(View()), O(), m)
    {
      hide UplinkBytes, Received, FileSize;
      Reset();
      fileId := m.id;
      fileVersion := m.version;
      fileSize := FileSize(m.size);
      numSegs := SegsOf(fileSize);
      ClearRxSegs();
      var len := AckGenerate(AckInit, ACK_ACK);
      SendUplink(len);
    }

    /** ll_ftp_idle_start */
    method IdleStart() returns (ret: ReturnCode)
      requires Valid()
      modifies host
      ensures Valid() && (View(), ret) == FtpProtocol.IdleStart(old(View()), O())
    {
      hide Received;
      var cbRet := host.Close(fileId, fileVersion);
      if cbRet == Ok {
        host.Config(false);
      }
      ret := if cbRet == Ok then Ok else Error;
    }

    /** ll_ftp_segment_start */
    method SegmentStart(m: Msg) returns (ret: ReturnCode)
      requires Valid()
      modifies this, rxSegs, txBuf, host
      ensures Valid() && (View(), ret) == FtpProtocol.SegmentStart(old(View()), O(), m)
    {
      hide UplinkBytes, Received, NewFile, FtpProtocol.SendUplink;
      ret := NoAction;
      var cbRet := host.Open(m.id, m.version, FileSize(m.size));
      if cbRet == Ok {
        NewFileInitialize(m);
        host.Config(true);
        ret := Ok;
      } else if m.msgType == TxInit || m.msgType == TxSegment {
        var len := AckGenerate(AckInit, ACK_NAK);
        SendUplink(len);
      }
    }

    /** ll_ftp_apply_start */
    method ApplyStart() returns (ret: ReturnCode)
      requires Valid()
      modifies this, txBuf, host
      ensures Valid() && (View(), ret) == FtpProtocol.ApplyStart(old(View()), O())
    {
      hide UplinkBytes, Received, FtpProtocol.SendUplink;
      ret := Error;
      var cbRet := host.Close(fileId, fileVersion);
      if cbRet == Ok {
        var len := AckGenerate(AckSegment, ACK_ACK);
        SendUplink(len);
        ret := Ok;
      }
    }

    /** One word of the file's header */
    method ReadHeaderWord(offset: nat, tmpBuf: array<byte>) returns (ret: ReturnCode, word: bv32)
      requires Valid() && tmpBuf.Length == 4 && tmpBuf != txBuf
      modifies host, tmpBuf
      ensures Valid()
      ensures var (s, r, data) := CallRead(old(View()), O(), offset, 4);
              && View() == s
              && ret == r
              && (ret == Ok ==> data == tmpBuf[..] && word == WordAt(data, 0))
    {
      hide Received, Word, FileBytes;
      ret := host.Read(fileId, fileVersion, offset, tmpBuf, 4);
      word := 0;
      if ret == Ok {
        assert tmpBuf[..4] == tmpBuf[..];
        word := Word(tmpBuf[0], tmpBuf[1], tmpBuf[2], tmpBuf[3]);
      }
    }

    /** ll_ftp_verify_file_info */
    method VerifyFileInfo() returns (ret: ReturnCode, fileCrc: bv32)
      requires Valid()
      modifies host
      ensures Valid() && (View(), ret, fileCrc) == FtpProtocol.VerifyFileInfo(old(View()), O())
    {
      hide Received, Word;
      var tmpBuf := new byte[4](i => 0);
      fileCrc := 0;
      var word;
      ret, word := ReadHeaderWord(HDR_OFFSET_CRC, tmpBuf);
      if ret != Ok {
        return;
      }
      fileCrc := word;
      var size, id, version;
      ret, size := ReadHeaderWord(HDR_OFFSET_SIZE, tmpBuf);
      if ret != Ok {
        return;
      }
      ret, id := ReadHeaderWord(HDR_OFFSET_ID, tmpBuf);
      if ret != Ok {
        return;
      }
      ret, version := ReadHeaderWord(HDR_OFFSET_VERSION, tmpBuf);
      if ret != Ok {
        return;
      }
      if FileSize(size) != fileSize || id != fileId || version != fileVersion {
        ret := Error;
      }
    }

    /** The loop body of ll_ftp_compute_file_crc */
    method ReadChunk(offset: nat, len: nat, before: bv32, tmpBuf: array<byte>) returns (crc: bv32)
      requires Valid() && tmpBuf.Length == CHUNK && tmpBuf != txBuf && offset < HDR_LEN + fileSize
      requires len == if offset + CHUNK > HDR_LEN + fileSize then HDR_LEN + fileSize - offset else CHUNK
      modifies host, tmpBuf
      ensures Valid() && (View(), offset + len, crc) == NextChunk(old(View()), O(), offset, before)
    {
      hide Received, Crc32, FileBytes;
      var cbRet := host.Read(fileId, fileVersion, offset, tmpBuf, len);
      crc := before;
      if cbRet == Ok {
        assert tmpBuf[0..0 + len] == tmpBuf[..len];
        crc := ComputeCrc32(before, tmpBuf, 0, len);
      }
    }

    /** ll_ftp_compute_file_crc */
    method ComputeFileCrc() returns (crc: bv32)
      requires Valid()
      modifies host
      ensures Valid() && (View(), crc) == FileCrc(old(View()), O(), HDR_OFFSET_SIZE, 0)
    {
      hide Received, NextChunk;
      var tmpBuf := new byte[CHUNK](i => 0);
      var len := CHUNK;
      crc := 0;
      var offset := HDR_OFFSET_SIZE;
      while offset < HDR_LEN + fileSize
        invariant Valid() && tmpBuf.Length == CHUNK
        invariant offset < HDR_LEN + fileSize ==> len == CHUNK
        invariant FileCrc(old(View()), O(), HDR_OFFSET_SIZE, 0) == FileCrc(View(), O(), offset, crc)
        decreases HDR_LEN + fileSize - offset
      {
        if offset + len > HDR_LEN + fileSize {
          len := HDR_LEN + fileSize - offset;
        }
        crc := ReadChunk(offset, len, crc, tmpBuf);
        offset := offset + len;
      }
    }

    /** ll_ftp_verify_file */
    method VerifyFile() returns (ret: ReturnCode)
      requires Valid()
      modifies host
      ensures Valid() && (View(), ret) == FtpProtocol.VerifyFile(old(View()), O())
    {
      hide Received, FtpProtocol.VerifyFileInfo, FileCrc;
      var fileCrc;
      ret, fileCrc := VerifyFileInfo();
      if ret == Ok {
        var crc := ComputeFileCrc();
        ret := if crc == fileCrc then Ok else Error;
      }
    }

    /** ll_ftp_write_segment */
    method WriteSegment(m: Msg) returns (ret: ReturnCode)
      requires Valid() && m.segNum != MAX_NUM_SEGMENTS
      modifies host, rxSegs
      ensures Valid() && (View(), ret) == FtpProtocol.WriteSegment(old(View()), O(), m)
    {
      hide Received, WriteBytes;
      ret := NoAction;
      var offset := m.segNum * MAX_FILE_SEGMENT_BYTES;
      var cbRet := host.Write(m.id, m.version, offset, m.payload);
      if cbRet == Ok {
        SegNumTrack(rxSegs, m.segNum);
        ret := Ok;
      }
    }

    /** ll_ftp_transition_out_of_segment */
    method TransitionOutOfSegment(m: Msg, nextState: State) returns (ret: ReturnCode)
      requires Valid()
      modifies this, rxSegs, txBuf, host
      ensures Valid()
      ensures (View(), ret) == match nextState
                               case Idle => SegmentToIdle(old(View()), O())
                               case Segment => StartSegment(old(View()), O(), m)
                               case Apply => SegmentToApply(old(View()), O())
    {
      hide Received, FtpProtocol.IdleStart, FtpProtocol.SegmentStart, FtpProtocol.ApplyStart;
      match nextState
      case Idle =>
        ret := IdleStart();
        if ret == Ok {
          state := Idle;
          Init();
        }
      case Segment =>
        ret := SegmentStart(m);
        if ret == Ok {
          state := Segment;
        }
      case Apply =>
        ret := ApplyStart();
        state := if ret == Ok then Apply else Idle;
    }

    /** ll_ftp_file_reopen */
    method FileReopen() returns (ret: ReturnCode)
      requires Valid()
      modifies host
      ensures Valid()
      ensures var (t, r) := CallClose(old(View()), O());
              (View(), ret) == if r != Ok then (t, r) else CallOpen(t, O(), fileId, fileVersion, fileSize)
    {
      hide Received;
      ret := host.Close(fileId, fileVersion);
      if ret == Ok {
        ret := host.Open(fileId, fileVersion, fileSize);
      }
    }

    predicate IsMyFile(m: Msg)
      reads this
    {
      m.id == fileId && m.version == fileVersion
    }

    /** ll_ftp_idle_process_msg, after parsing */
    method IdleProcess(m: Msg) returns (ret: ReturnCode)
      requires Valid() && state == Idle
      modifies this, rxSegs, txBuf, host
      ensures Valid() && (View(), ret) == IdleStep(old(View()), O(), m)
    {
      hide Received, FtpProtocol.SegmentStart;
      if m.msgType != TxInit && m.msgType != TxSegment {
        return InvalidValue;
      }
      ret := SegmentStart(m);
      if ret == Ok {
        state := Segment;
      }
    }

    /** The part of ll_ftp_segment_process_msg for a segment of the file in transfer */
    method SegmentProcessSegment(m: Msg) returns (ret: ReturnCode)
      requires Valid() && m.segNum != MAX_NUM_SEGMENTS
      modifies this, rxSegs, txBuf, host
      ensures Valid() && (View(), ret) == ReceiveSegment(old(View()), O(), m)
    {
      hide Received, FtpProtocol.WriteSegment, FtpProtocol.VerifyFile, FtpProtocol.Reset, SegmentToIdle, SegmentToApply;
      Reset();
      ret := WriteSegment(m);
      var complete := TransferIsComplete(rxSegs, numSegs);
      if complete {
        var verified := VerifyFile();
        if verified == Ok {
          ret := TransitionOutOfSegment(m, Apply);
        } else {
          ClearRxSegs();
          Reset();
          assert numSegs <= MAX_NUM_SEGMENTS;
          ret := FileReopen();
          if ret != Ok {
            ret := TransitionOutOfSegment(m, Idle);
          }
        }
      }
    }

    /** The part of ll_ftp_segment_process_msg for the periodic tick */
    method SegmentProcessTick(m: Msg) returns (ret: ReturnCode)
      requires Valid()
      modifies this, rxSegs, txBuf, host
      ensures Valid() && (View(), ret) == SegmentTick(old(View()), O())
    {
      hide Received, FtpProtocol.SendUplink, SegmentToIdle, RequestBytes;
      ret := Ok;
      var timeNow := host.GetTime();
      var elapsed := ComputeDiffTime(timeLastMsg, timeNow);
      if elapsed >= RETRY_INTERVAL {
        if retryCount < MAX_NUM_RETRIES {
          var len := AckSegsRequestGenerate();
          SendUplink(len);
          retryCount := retryCount + 1;
        } else {
          ret := TransitionOutOfSegment(m, Idle);
        }
      }
    }

    /** ll_ftp_segment_process_msg, after parsing */
    method SegmentProcess(m: Msg) returns (ret: ReturnCode)
      requires Valid() && ValidMsg(m)
      modifies this, rxSegs, txBuf, host
      ensures Valid() && (View(), ret) == SegmentStep(old(View()), O(), m)
    {
      hide Received, FtpProtocol.SendUplink, SegmentToIdle, StartSegment, ReceiveSegment, SegmentTick, RequestBytes;
      ret := NoAction;
      if m.msgType == TxInit && !IsMyFile(m) {
        ret := TransitionOutOfSegment(m, Segment);
      } else if m.msgType == TxCancel && IsMyFile(m) {
        ret := TransitionOutOfSegment(m, Idle);
      } else if m.msgType == TxSegment {
        if !IsMyFile(m) {
          ret := TransitionOutOfSegment(m, Segment);
        } else {
          ret := SegmentProcessSegment(m);
        }
      } else if m.msgType == TxApply {
        var len := AckSegsRequestGenerate();
        SendUplink(len);
        ret := Ok;
      } else if m.msgType == Tick {
        ret := SegmentProcessTick(m);
      }
    }

    /** ll_ftp_transition_out_of_apply to IDLE */
    method ApplyTransitionToIdle(isError: bool) returns (ret: ReturnCode)
      requires Valid()
      modifies this, rxSegs, txBuf, host
      ensures Valid() && (View(), ret) == ApplyToIdle(old(View()), O(), isError)
    {
      hide Received, FtpProtocol.IdleStart;
      ret := IdleStart();
      Init();
      if isError {
        ret := Error;
      }
    }

    /** The part of ll_ftp_apply_process_msg for the periodic tick */
    method ApplyProcessTick() returns (ret: ReturnCode)
      requires Valid()
      modifies this, rxSegs, txBuf, host
      ensures Valid() && (View(), ret) == ApplyTick(old(View()), O())
    {
      hide Received, FtpProtocol.SendUplink, ApplyToIdle, UplinkBytes;
      ret := Ok;
      var timeNow := host.GetTime();
      var elapsed := ComputeDiffTime(timeLastMsg, timeNow);
      if elapsed >= RETRY_INTERVAL {
        if retryCount < MAX_NUM_RETRIES {
          var len := AckGenerate(AckSegment, ACK_ACK);
          SendUplink(len);
          retryCount := retryCount + 1;
        } else {
          ret := ApplyTransitionToIdle(false);
        }
      }
    }

    /** The part of ll_ftp_apply_process_msg for the order to apply */
    method ApplyProcessApply() returns (ret: ReturnCode)
      requires Valid()
      modifies this, rxSegs, txBuf, host
      ensures Valid() && (View(), ret) == ApplyFile(old(View()), O())
    {
      hide Received, FtpProtocol.SendUplink, ApplyToIdle, UplinkBytes;
      var cbRet := host.Apply(fileId, fileVersion, fileSize);
      if cbRet == Ok {
        var len := AckGenerate(AckApply, ACK_ACK);
        SendUplink(len);
        ret := ApplyTransitionToIdle(false);
      } else {
        ret := ApplyTransitionToIdle(true);
      }
    }

    /** ll_ftp_apply_process_msg, after parsing */
    method ApplyProcess(m: Msg) returns (ret: ReturnCode)
      requires Valid()
      modifies this, rxSegs, txBuf, host
      ensures Valid() && (View(), ret) == ApplyStep(old(View()), O(), m)
    {
      hide Received, FtpProtocol.SegmentStart, FtpProtocol.Reset, ApplyToIdle, ApplyFile, ApplyTick;
      ret := NoAction;
      if m.msgType == TxInit && !IsMyFile(m) {
        ret := SegmentStart(m);
        if ret == Ok {
          state := Segment;
        }
      } else if m.msgType == TxCancel && IsMyFile(m) {
        ret := ApplyTransitionToIdle(false);
      } else if m.msgType == TxSegment {
        if IsMyFile(m) {
          Reset();
        } else {
          ret := SegmentStart(m);
          if ret == Ok {
            state := Segment;
          }
        }
      } else if m.msgType == TxApply && IsMyFile(m) {
        ret := ApplyProcessApply();
      } else if m.msgType == Tick {
        ret := ApplyProcessTick();
      }
    }

    /** ll_ftp_msg_process */
    method MsgProcess(buf: array?<byte>, len: nat) returns (ret: ReturnCode)
      requires Valid()
      requires buf != null ==> len <= buf.Length
      requires ValidInput(if buf == null then Timeout else Downlink(buf[..len]))
      modifies this, rxSegs, txBuf, host
      ensures Valid()
      ensures (View(), ret) ==
              Step(old(View()), O(), if buf == null then Timeout else Downlink(old(buf[..len])))
    {
      hide Received, Parse, IdleStep, SegmentStep, ApplyStep;
      var msg;
      ret, msg := ParseRxMsg(buf, len);
      if ret != Ok {
        return;
      }
      match state
      case Idle =>
        ret := IdleProcess(msg);
      case Segment =>
        ret := SegmentProcess(msg);
      case Apply =>
        ret := ApplyProcess(msg);
    }
  }
}
