/** Retries and time-outs while nothing arrives from the server. */
module FtpRetry {
  import opened Clock
  import opened FtpMessages
  import opened FtpProtocol
  import opened FtpReference
  import opened SegmentBitmap

  /** n calls of ll_ftp_msg_process without a message. */
  function Ticks(s: Sys, o: Oracle, n: nat): Sys {
    if n == 0 then s else Step(Ticks(s, o, n - 1), o, Timeout).0
  }

  function UplinkCount(trace: seq<Event>): nat {
    if trace == [] then 0
    else UplinkCount(trace[..|trace| - 1]) + if trace[|trace| - 1].Uplinked? then 1 else 0
  }

  lemma EmitCounts(s: Sys, e: Event)
    ensures UplinkCount(Emit(s, e).w.trace) == UplinkCount(s.w.trace) + if e.Uplinked? then 1 else 0
  {
    assert Emit(s, e).w.trace[..|s.w.trace|] == s.w.trace;
  }

  lemma SendUplinkCounts(s: Sys, o: Oracle, data: seq<bv8>)
    ensures var t := SendUplink(s, o, data);
            && UplinkCount(t.w.trace) == UplinkCount(s.w.trace) + 1
            && t.c == s.c.(last := o(|s.w.trace| + 1).now)
            && |t.w.trace| == |s.w.trace| + 2
  {
    hide UplinkCount;
    var t := Emit(s, Uplinked(data));
    EmitCounts(s, Uplinked(data));
    EmitCounts(t, ClockRead(Answer(t, o).now));
  }

  lemma IdleStartCounts(s: Sys, o: Oracle)
    ensures var (t, r) := IdleStart(s, o);
            && UplinkCount(t.w.trace) == UplinkCount(s.w.trace) && t.c == s.c
            && (r == Ok <==> o(|s.w.trace|).ret == Ok)
            && |t.w.trace| >= |s.w.trace|
  {
    hide UplinkCount;
    var (t, r) := CallClose(s, o);
    EmitCounts(s, Closed(s.c.id, s.c.version, r));
    EmitCounts(t, Configured(false));
  }

  lemma ExpiredIsOverdue(c: FtpProtocol.Client, now: Time)
    ensures Expired(c, now) <==> Overdue(c.last, now)
  {
  }

  /** What a tick has done from s to t. Before the interval is over, nothing. After it, an uplink has gone out
      and is counted; after the fifth of these the transfer is given up: at once in APPLY, and in SEGMENT if
      and only if the file closes. */
  ghost predicate TickDone(s: Sys, o: Oracle, t: Sys) {
    var n := |s.w.trace|;
    var late, sent := Overdue(s.c.last, o(n).now), UplinkCount(t.w.trace) - UplinkCount(s.w.trace);
    && |t.w.trace| > n
    && (!late ==> t.c == s.c && sent == 0)
    && (late && s.c.retries < 5 ==>
          sent == 1 && t.c == s.c.(retries := s.c.retries + 1, last := o(n + 2).now))
    && (late && s.c.retries >= 5 ==>
          && sent == 0
          && (s.c.state == Apply ==> t.c == INITIAL)
          && (s.c.state == Segment ==> t.c == if o(n + 1).ret == Ok then INITIAL else s.c))
  }

  /** One tick while a transfer is under way. */
  lemma TickEffect(s: Sys, o: Oracle)
    requires s.c.state != Idle
    ensures TickDone(s, o, MsgStep(s, o, TIMEOUT_MSG).0)
  {
    hide SegmentTick, ApplyTick, TickDone;
    if s.c.state == Segment {
      SegmentTickEffect(s, o);
    } else {
      ApplyTickEffect(s, o);
    }
  }

  lemma SegmentTickEffect(s: Sys, o: Oracle)
    requires s.c.state == Segment
    ensures TickDone(s, o, SegmentTick(s, o).0)
  {
    ExpiredIsOverdue(s.c, o(|s.w.trace|).now);
    hide UplinkCount, Expired, Overdue, SendUplink, IdleStart, RequestBytes;
    var t := GetTime(s, o).0;
    EmitCounts(s, ClockRead(o(|s.w.trace|).now));
    SendUplinkCounts(t, o, RequestBytes(t.c.id, t.c.version, Missing(t.c.rx, t.c.numSegs)));
    IdleStartCounts(t, o);
  }

  lemma ApplyTickEffect(s: Sys, o: Oracle)
    requires s.c.state == Apply
    ensures TickDone(s, o, ApplyTick(s, o).0)
  {
    ExpiredIsOverdue(s.c, o(|s.w.trace|).now);
    hide UplinkCount, Expired, Overdue, SendUplink, IdleStart, UplinkBytes;
    var t := GetTime(s, o).0;
    EmitCounts(s, ClockRead(o(|s.w.trace|).now));
    SendUplinkCounts(t, o, UplinkBytes(AckSegment, ACK_ACK, t.c.id, t.c.version, []));
    IdleStartCounts(t, o);
  }

  /** In elapsed time: an uplink goes out if and only if a retry is left and 16 seconds have passed since the
      last one. */
  lemma TickSendsExactly(s: Sys, o: Oracle)
    requires s.c.state != Idle && Normalised(s.c.last) && Normalised(o(|s.w.trace|).now)
    ensures var t := MsgStep(s, o, TIMEOUT_MSG).0;
            var sent := UplinkCount(t.w.trace) - UplinkCount(s.w.trace);
            && 0 <= sent <= 1
            && (sent == 1 <==>
                  && s.c.retries < 5
                  && Nanoseconds(o(|s.w.trace|).now) - Nanoseconds(s.c.last) >= 16 * 1_000_000_000)
  {
    hide UplinkCount, MsgStep;
    TickEffect(s, o);
    NanosecondsOverdue(s.c.last, o(|s.w.trace|).now);
  }

  lemma IdleTick(s: Sys, o: Oracle)
    requires s.c.state == Idle
    ensures MsgStep(s, o, TIMEOUT_MSG).0 == s
  {
  }

  /** While only ticks arrive, every uplink is a counted retry: five at most in all, and exactly five
      before the client gives the transfer up. */
  lemma {:induction false} TicksSendAtMostFive(s: Sys, o: Oracle, n: nat)
    requires s.c.state != Idle && s.c.retries <= 5
    ensures var t := Ticks(s, o, n);
            var sent := UplinkCount(t.w.trace) - UplinkCount(s.w.trace);
            && 0 <= sent <= 5 - s.c.retries
            && (t.c.state != Idle ==> t.c.state == s.c.state && t.c.retries == s.c.retries + sent)
            && (t.c.state == Idle ==> sent == 5 - s.c.retries)
            && |t.w.trace| >= |s.w.trace|
  {
    hide UplinkCount, Overdue, MsgStep;
    if n > 0 {
      TicksSendAtMostFive(s, o, n - 1);
      var t := Ticks(s, o, n - 1);
      if t.c.state == Idle {
        IdleTick(t, o);
      } else {
        TickEffect(t, o);
      }
    }
  }

  /** The clock never runs backwards. */
  ghost predicate Monotonic(o: Oracle) {
    && (forall i: nat :: Normalised(o(i).now))
    && (forall i: nat, j: nat | i <= j :: Nanoseconds(o(i).now) <= Nanoseconds(o(j).now))
  }

  lemma NanosecondsOverdue(a: Time, b: Time)
    requires Normalised(a) && Normalised(b)
    ensures Overdue(a, b) <==> Nanoseconds(b) - Nanoseconds(a) >= 16 * 1_000_000_000
  {
    OverdueIsElapsed(a, b);
  }

  /** With a monotonic clock, k uplinks in a run of ticks take at least 16 k seconds. */
  lemma {:induction false} UplinksAreSpaced(s: Sys, o: Oracle, n: nat)
    requires s.c.state != Idle && s.c.retries <= 5
    requires Monotonic(o) && Normalised(s.c.last)
    ensures var t := Ticks(s, o, n);
            var sent := UplinkCount(t.w.trace) - UplinkCount(s.w.trace);
            t.c.state != Idle ==>
              && Normalised(t.c.last)
              && Nanoseconds(t.c.last) - Nanoseconds(s.c.last) >= sent * 16 * 1_000_000_000
  {
    hide UplinkCount, MsgStep, Nanoseconds, Overdue;
    if n > 0 {
      UplinksAreSpaced(s, o, n - 1);
      TicksSendAtMostFive(s, o, n - 1);
      var t := Ticks(s, o, n - 1);
      if t.c.state == Idle {
        IdleTick(t, o);
      } else {
        TickEffect(t, o);
        NanosecondsOverdue(t.c.last, o(|t.w.trace|).now);
        assert Nanoseconds(o(|t.w.trace|).now) <= Nanoseconds(o(|t.w.trace| + 2).now);
      }
    }
  }

  predicate SilentTooLong(a: Time, b: Time) {
    Normalised(a) && Normalised(b) && Nanoseconds(b) - Nanoseconds(a) >= 16 * 1_000_000_000
  }

  /** If every tick finds the interval over and the file closes, the transfer ends with the tick after
      the last retry that was left: six ticks at most. */
  lemma {:induction false} SilenceEndsTheTransfer(s: Sys, o: Oracle, n: nat)
    requires s.c.state != Idle && s.c.retries <= 5
    requires forall k: nat | k < n && Ticks(s, o, k).c.state != Idle ::
               SilentTooLong(Ticks(s, o, k).c.last, o(|Ticks(s, o, k).w.trace|).now)
    requires forall j: nat | j >= |s.w.trace| :: o(j).ret == Ok
    ensures var t := Ticks(s, o, n);
            && (n <= 5 - s.c.retries ==> t.c.state == s.c.state && t.c.retries == s.c.retries + n)
            && (n > 5 - s.c.retries ==> t.c == INITIAL)
  {
    hide UplinkCount, MsgStep;
    if n > 0 {
      SilenceEndsTheTransfer(s, o, n - 1);
      TicksSendAtMostFive(s, o, n - 1);
      var t := Ticks(s, o, n - 1);
      if t.c.state == Idle {
        IdleTick(t, o);
      } else {
        TickEffect(t, o);
        NanosecondsOverdue(t.c.last, o(|t.w.trace|).now);
      }
    }
  }
}
