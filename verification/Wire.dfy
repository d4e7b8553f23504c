/** The serial line to the module: bytes that will arrive, bytes that were written, and a log of the
    reads and writes in their order. Which reads fail, what a failing read loses and leaves behind, and
    what the clock says are all arbitrary. */
module Wire {
  import opened Octets

  /** What was read, or how much could not be read; and what was written. */
  datatype LineEvent = Got(data: seq<byte>) | Failed(len: nat) | Put(data: seq<byte>)

  /** What happens to a read that fails, for any reason: `leaves` gives what byte i of the reader's
      buffer, which was b, is afterwards. */
  datatype Mishap = Mishap(strikes: bool, ret: int, lost: nat, leaves: (nat, byte) -> byte)

  datatype Reading = Reading(ok: bool, sec: int, nsec: int)

  ghost predicate PastFrom(clock: nat -> Reading, n: nat, sec: int) {
    forall m: nat | m >= n :: clock(m).sec > sec
  }

  ghost predicate Passes(clock: nat -> Reading, sec: int) {
    exists n: nat :: PastFrom(clock, n, sec)
  }

  /** The clock does not stand still for ever. */
  ghost predicate Advances(clock: nat -> Reading) {
    forall sec: int :: Passes(clock, sec)
  }

  class Line {
    var rx: seq<byte>
    var tx: seq<byte>
    var log: seq<LineEvent>
    var clocks: nat
    const mishaps: nat -> Mishap
    const writeResults: nat -> int
    const clock: nat -> Reading

    constructor (rx: seq<byte>, mishaps: nat -> Mishap, writeResults: nat -> int, clock: nat -> Reading)
      ensures this.rx == rx && tx == [] && log == [] && clocks == 0
      ensures this.mishaps == mishaps && this.writeResults == writeResults && this.clock == clock
    {
      this.rx, tx, log, clocks := rx, [], [], 0;
      this.mishaps, this.writeResults, this.clock := mishaps, writeResults, clock;
    }

    ghost predicate Valid()
      reads this
    {
      && Advances(clock)
      && forall k: nat :: mishaps(k).ret < 0
    }

    /** transport_read: 0, or negative when it fails. */
    method Read(buf: array<byte>, from: nat, len: nat) returns (ret: int)
      requires Valid() && from + len <= buf.Length
      modifies this`rx, this`log, buf
      ensures buf[..from] == old(buf[..from]) && buf[from + len..] == old(buf[from + len..])
      ensures var k := |old(log)|;
              if !mishaps(k).strikes && len <= |old(rx)| then
                && ret == 0
                && buf[from..from + len] == old(rx)[..len]
                && rx == old(rx)[len..]
                && log == old(log) + [Got(old(rx)[..len])]
              else
                && ret == mishaps(k).ret < 0
                && log == old(log) + [Failed(len)]
                && rx == old(rx)[if mishaps(k).lost <= |old(rx)| then mishaps(k).lost else |old(rx)|..]
                && forall i | from <= i < from + len :: buf[i] == mishaps(k).leaves(i - from, old(buf[i]))
    {
      var m := mishaps(|log|);
      if !m.strikes && len <= |rx| {
        for i := 0 to len
          invariant rx == old(rx) && log == old(log)
          invariant buf[..from] == old(buf[..from]) && buf[from + len..] == old(buf[from + len..])
          invariant buf[from..from + i] == rx[..i]
        {
          buf[from + i] := rx[i];
        }
        log := log + [Got(rx[..len])];
        rx := rx[len..];
        ret := 0;
      } else {
        for i := 0 to len
          invariant rx == old(rx) && log == old(log)
          invariant buf[..from] == old(buf[..from]) && buf[from + len..] == old(buf[from + len..])
          invariant forall j | from <= j < from + i :: buf[j] == m.leaves(j - from, old(buf[j]))
          invariant forall j | from + i <= j < from + len :: buf[j] == old(buf[j])
        {
          buf[from + i] := m.leaves(i, buf[from + i]);
        }
        log := log + [Failed(len)];
        rx := rx[if m.lost <= |rx| then m.lost else |rx|..];
        ret := m.ret;
      }
    }

    /** transport_write: tx holds what was handed over, whatever the result says became of it. */
    method Write(data: seq<byte>) returns (ret: int)
      modifies this`tx, this`log
      ensures tx == old(tx) + data && log == old(log) + [Put(data)] && ret == writeResults(|old(tx)|)
    {
      ret := writeResults(|tx|);
      tx, log := tx + data, log + [Put(data)];
    }

    /** gettime */
    method GetTime() returns (now: Reading)
      modifies this`clocks
      ensures now == clock(old(clocks)) && clocks == old(clocks) + 1
    {
      now := clock(clocks);
      clocks := clocks + 1;
    }
  }
}
