/** The check of the reassembled file: what it reads, what it computes, and what it depends on. */
module FtpFileCheck {
  import opened Bytes
  import opened CyclicCheck32
  import opened FtpMessages
  import opened FtpProtocol
  import opened Octets

  /** Reads of the bytes from..to, in order, each byte once, at most a chunk at a time. */
  ghost predicate ChunkReads(es: seq<Event>, id: bv32, version: bv32, from: nat, to: nat) {
    if es == [] then from >= to
    else
      && es[0].ReadBack?
      && es[0].id == id && es[0].version == version
      && es[0].offset == from
      && 1 <= es[0].len <= 16
      && from + es[0].len <= to
      && ChunkReads(es[1..], id, version, from + es[0].len, to)
  }

  /** What the successful reads returned, end to end. */
  function DataRead(es: seq<Event>): seq<byte> {
    if es == [] then []
    else (if es[0].ReadBack? && es[0].ret == Ok then es[0].data else []) + DataRead(es[1..])
  }

  ghost predicate AllReads(es: seq<Event>) {
    forall i | 0 <= i < |es| :: es[i].ReadBack?
  }

  ghost predicate AllReadsOk(es: seq<Event>) {
    forall i | 0 <= i < |es| :: es[i].ReadBack? && es[i].ret == Ok
  }

  /** The calls of t that s had not made yet, when t continues s. */
  function Since(s: Sys, t: Sys): seq<Event>
    requires |s.w.trace| <= |t.w.trace|
  {
    t.w.trace[|s.w.trace|..]
  }

  predicate Continues(s: Sys, t: Sys) {
    s.w.trace <= t.w.trace
  }

  lemma SinceJoins(s: Sys, t: Sys, u: Sys)
    requires Continues(s, t) && Continues(t, u)
    ensures Continues(s, u) && Since(s, u) == Since(s, t) + Since(t, u)
  {
  }

  /** A chunk is one read at the offset, and the CRC takes in what it returned. */
  lemma NextChunkReads(s: Sys, o: Oracle, offset: nat, crc: bv32) returns (e: Event)
    requires offset < HDR_LEN + s.c.size
    ensures var (u, at, next) := NextChunk(s, o, offset, crc);
            && e.ReadBack? && e.id == s.c.id && e.version == s.c.version && e.offset == offset
            && 1 <= e.len <= CHUNK && at == offset + e.len <= HDR_LEN + s.c.size
            && u == Emit(s, e)
            && (e.ret == Ok ==> e.data == FileBytes(s.w.file, offset, e.len))
            && next == (if e.ret == Ok then Crc32(crc, e.data) else crc)
            && e.ret == o(|s.w.trace|).ret
  {
    hide Crc32, FileBytes;
    var u := NextChunk(s, o, offset, crc).0;
    e := u.w.trace[|s.w.trace|];
  }

  lemma EmitThen(s: Sys, e: Event, t: Sys)
    requires Continues(Emit(s, e), t)
    ensures Continues(s, t) && Since(s, t) == [e] + Since(Emit(s, e), t)
  {
    SinceJoins(s, Emit(s, e), t);
  }

  /** ll_ftp_compute_file_crc reads the whole range in chunks, whatever each read returns; its result
      is the one CRC of everything that could be read. */
  lemma {:induction false} FileCrcReadsAll(s: Sys, o: Oracle, offset: nat, crc: bv32)
    requires offset <= HDR_LEN + s.c.size
    ensures var (t, r) := FileCrc(s, o, offset, crc);
            && Continues(s, t)
            && ChunkReads(Since(s, t), s.c.id, s.c.version, offset, 16 + s.c.size)
            && AllReads(Since(s, t))
            && r == Crc32(crc, DataRead(Since(s, t)))
    decreases HDR_LEN + s.c.size - offset
  {
    hide Crc32, FileBytes, NextChunk;
    if offset >= HDR_LEN + s.c.size {
      Crc32OfNothing(crc);
    } else {
      var e := NextChunkReads(s, o, offset, crc);
      var (u, at, next) := NextChunk(s, o, offset, crc);
      FileCrcReadsAll(u, o, at, next);
      var t := FileCrc(u, o, at, next).0;
      EmitThen(s, e, t);
      assert Since(s, t)[1..] == Since(u, t);
      hide FileCrc;
      if e.ret == Ok {
        Crc32Chains(crc, e.data, DataRead(Since(u, t)));
      } else {
        assert DataRead(Since(s, t)) == DataRead(Since(u, t));
      }
    }
  }

  lemma Crc32OfNothing(crc: bv32)
    ensures Crc32(crc, []) == crc
  {
    hide Complement;
    ComplementTwice(crc);
  }

  lemma FileBytesJoin(file: File, offset: nat, n: nat, m: nat)
    ensures FileBytes(file, offset, n + m) == FileBytes(file, offset, n) + FileBytes(file, offset + n, m)
  {
  }

  /** When no read fails, the data read is the file's range. */
  lemma {:induction false} DataReadIsRange(s: Sys, o: Oracle, offset: nat, crc: bv32)
    requires offset <= HDR_LEN + s.c.size
    requires Continues(s, FileCrc(s, o, offset, crc).0)
    requires AllReadsOk(Since(s, FileCrc(s, o, offset, crc).0))
    ensures DataRead(Since(s, FileCrc(s, o, offset, crc).0))
            == FileBytes(s.w.file, offset, HDR_LEN + s.c.size - offset)
    decreases HDR_LEN + s.c.size - offset
  {
    hide Crc32, NextChunk;
    var end := HDR_LEN + s.c.size;
    if offset < end {
      var e := NextChunkReads(s, o, offset, crc);
      var (u, at, next) := NextChunk(s, o, offset, crc);
      var t := FileCrc(u, o, at, next).0;
      FileCrcReadsAll(u, o, at, next);
      EmitThen(s, e, t);
      var es := Since(s, t);
      assert es[0] == e && es[1..] == Since(u, t);
      forall i | 0 <= i < |Since(u, t)| ensures Since(u, t)[i].ReadBack? && Since(u, t)[i].ret == Ok {
        assert es[i + 1] == Since(u, t)[i];
      }
      DataReadIsRange(u, o, at, next);
      hide FileCrc, FileBytes;
      FileBytesJoin(s.w.file, offset, e.len, end - at);
    }
  }

  /** Chunked CRC equals one-shot CRC. */
  lemma FileCrcIsOneShot(s: Sys, o: Oracle)
    requires Continues(s, FileCrc(s, o, HDR_OFFSET_SIZE, 0).0)
    requires AllReadsOk(Since(s, FileCrc(s, o, HDR_OFFSET_SIZE, 0).0))
    ensures FileCrc(s, o, HDR_OFFSET_SIZE, 0).1
            == Crc32(0, FileBytes(s.w.file, 4, 12 + s.c.size))
  {
    hide Crc32, FileBytes, FileCrc, DataRead;
    FileCrcReadsAll(s, o, HDR_OFFSET_SIZE, 0);
    DataReadIsRange(s, o, HDR_OFFSET_SIZE, 0);
  }

  // ---------------------------------------------------------------- the whole check

  ghost predicate HeaderRead(e: Event, id: bv32, version: bv32, offset: nat) {
    && e.ReadBack? && e.id == id && e.version == version
    && e.offset == offset && e.len == 4 && |e.data| == 4 && e.ret == Ok
  }

  ghost predicate HeaderPassed(es: seq<Event>, id: bv32, version: bv32, size: nat) {
    && |es| >= 4
    && HeaderRead(es[0], id, version, 0)
    && HeaderRead(es[1], id, version, 4)
    && HeaderRead(es[2], id, version, 8)
    && HeaderRead(es[3], id, version, 12)
    && FileSize(WordAt(es[1].data, 0)) == size
    && WordAt(es[2].data, 0) == id
    && WordAt(es[3].data, 0) == version
  }

  /** A sequence of calls that is a passed check of the file (id, version) of the given size. */
  ghost predicate PassedCheck(es: seq<Event>, id: bv32, version: bv32, size: nat) {
    && HeaderPassed(es, id, version, size)
    && ChunkReads(es[4..], id, version, 4, 16 + size)
    && Crc32(0, DataRead(es[4..])) == WordAt(es[0].data, 0)
  }

  lemma OneRead(s: Sys, o: Oracle, offset: nat, len: nat) returns (e: Event)
    ensures var (t, r, data) := CallRead(s, o, offset, len);
            && e == ReadBack(s.c.id, s.c.version, offset, len, data, r)
            && t.w.trace == s.w.trace + [e] && t.c == s.c && t.w.file == s.w.file
            && (r == Ok ==> |data| == len)
  {
    e := CallRead(s, o, offset, len).0.w.trace[|s.w.trace|];
  }

  /** The header part of the check makes at most four reads, and passes exactly when they were these four. */
  lemma VerifyFileInfoTrace(s: Sys, o: Oracle)
    ensures var (t, r, crc) := VerifyFileInfo(s, o);
            && t.c == s.c && t.w.file == s.w.file
            && Continues(s, t) && AllReads(Since(s, t)) && Since(s, t) != []
            && |Since(s, t)| <= 4
            && (r == Ok <==> HeaderPassed(Since(s, t), s.c.id, s.c.version, s.c.size))
            && (r == Ok ==> crc == WordAt(Since(s, t)[0].data, 0))
  {
    hide WordAt, FileSize, CallRead;
    var e1 := OneRead(s, o, HDR_OFFSET_CRC, 4);
    var s1 := CallRead(s, o, HDR_OFFSET_CRC, 4).0;
    assert Since(s, s1) == [e1];
    if e1.ret == Ok {
      var e2 := OneRead(s1, o, HDR_OFFSET_SIZE, 4);
      var s2 := CallRead(s1, o, HDR_OFFSET_SIZE, 4).0;
      assert Since(s, s2) == [e1, e2];
      if e2.ret == Ok {
        var e3 := OneRead(s2, o, HDR_OFFSET_ID, 4);
        var s3 := CallRead(s2, o, HDR_OFFSET_ID, 4).0;
        assert Since(s, s3) == [e1, e2, e3];
        if e3.ret == Ok {
          var e4 := OneRead(s3, o, HDR_OFFSET_VERSION, 4);
          assert Since(s, CallRead(s3, o, HDR_OFFSET_VERSION, 4).0) == [e1, e2, e3, e4];
        }
      }
    }
  }

  /** The check only reads; and it passes exactly when the reads it made show why, whatever became of each. */
  lemma VerifyFileTrace(s: Sys, o: Oracle)
    ensures var (t, r) := VerifyFile(s, o);
            && t.c == s.c && t.w.file == s.w.file
            && Continues(s, t) && AllReads(Since(s, t)) && Since(s, t) != []
            && (r == Ok <==> PassedCheck(Since(s, t), s.c.id, s.c.version, s.c.size))
  {
    hide WordAt, FileSize, VerifyFileInfo, Crc32, FileCrc, HeaderRead, ChunkReads, DataRead;
    var (t, r, fileCrc) := VerifyFileInfo(s, o);
    VerifyFileInfoTrace(s, o);
    if r == Ok {
      FileCrcReadsAll(t, o, HDR_OFFSET_SIZE, 0);
      var (u, crc) := FileCrc(t, o, HDR_OFFSET_SIZE, 0);
      SinceJoins(s, t, u);
      assert Since(s, u)[4..] == Since(t, u);
    }
  }

  // ---------------------------------------------------------------- what the check depends on

  /** The host answers every call from now on with success. */
  ghost predicate AlwaysOk(o: Oracle, from: nat) {
    forall i: nat | i >= from :: o(i).ret == Ok
  }

  ghost predicate HeaderMatches(c: Client, file: File) {
    && FileSize(WordAt(FileBytes(file, 4, 4), 0)) == c.size
    && WordAt(FileBytes(file, 8, 4), 0) == c.id
    && WordAt(FileBytes(file, 12, 4), 0) == c.version
  }

  ghost predicate CrcMatches(c: Client, file: File) {
    Crc32(0, FileBytes(file, 4, 12 + c.size)) == WordAt(FileBytes(file, 0, 4), 0)
  }

  lemma {:induction false} FileCrcAllOk(s: Sys, o: Oracle, offset: nat, crc: bv32)
    requires offset <= HDR_LEN + s.c.size && AlwaysOk(o, |s.w.trace|)
    ensures var t := FileCrc(s, o, offset, crc).0;
            Continues(s, t) && AllReadsOk(Since(s, t))
    decreases HDR_LEN + s.c.size - offset
  {
    hide Crc32, NextChunk;
    if offset < HDR_LEN + s.c.size {
      var e := NextChunkReads(s, o, offset, crc);
      var (u, at, next) := NextChunk(s, o, offset, crc);
      FileCrcAllOk(u, o, at, next);
      EmitThen(s, e, FileCrc(u, o, at, next).0);
    }
  }

  /** With reads that succeed, the check passes exactly on a matching header and a matching CRC of the
      bytes from 4 up to 16 + size. */
  lemma VerifyFileExact(s: Sys, o: Oracle)
    requires AlwaysOk(o, |s.w.trace|)
    ensures VerifyFile(s, o).1 == Ok <==> HeaderMatches(s.c, s.w.file) && CrcMatches(s.c, s.w.file)
  {
    hide Crc32, WordAt, FileSize, FileBytes, FileCrc;
    var (t, r, fileCrc) := VerifyFileInfo(s, o);
    assert r == Ok <==> HeaderMatches(s.c, s.w.file);
    if r == Ok {
      assert t.c == s.c && t.w.file == s.w.file && |t.w.trace| >= |s.w.trace|;
      assert fileCrc == WordAt(FileBytes(s.w.file, HDR_OFFSET_CRC, 4), 0);
      FileCrcAllOk(t, o, HDR_OFFSET_SIZE, 0);
      FileCrcIsOneShot(t, o);
    }
  }

  /** The check reaches 16 bytes past the last byte of the transferred file: of two stores that differ
      there in one byte, and agree on everything a segment can carry, at most one passes. */
  lemma TailDecides(c: Client, file: File, k: nat, b: byte)
    requires 4 <= k && c.size <= k < 16 + c.size && file(k) != b
    requires CrcMatches(c, file)
    ensures !CrcMatches(c, WriteBytes(file, k, [b]))
  {
    hide Crc32, WordAt;
    var other := WriteBytes(file, k, [b]);
    var s := FileBytes(file, HDR_OFFSET_SIZE, HDR_LEN - HDR_OFFSET_SIZE + c.size);
    assert FileBytes(other, HDR_OFFSET_SIZE, HDR_LEN - HDR_OFFSET_SIZE + c.size) == s[k - HDR_OFFSET_SIZE := b];
    assert FileBytes(other, HDR_OFFSET_CRC, 4) == FileBytes(file, HDR_OFFSET_CRC, 4);
    OneByteChangesCrc32(0, s, k - HDR_OFFSET_SIZE, b);
  }
}
