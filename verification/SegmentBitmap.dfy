/** The bitmap of received segments: 75 words of 32 bits in the client, a set of segment numbers
    in its specification. */
module SegmentBitmap {
  import opened Bytes
  import opened Octets

  const MAX_NUM_SEGMENTS: nat := 2400
  const NUM_RX_SEGS_BITMASK: nat := 75
  const MAX_NUM_RETRY_SEGS: nat := 16
  const NAK_FILE_SEGS_INDEX: nat := 14
  const RETRANSMIT_ALL: nat := 0xFFFF

  predicate Bit(w: bv32, k: nat)
    requires k < 32
  {
    (w >> ToByte(k)) & 1 == 1
  }

  /** `w | (1 << k)` */
  function SetBit(w: bv32, k: nat): bv32
    requires k < 32
  {
    w | (1 << ToByte(k))
  }

  ghost function Received(words: seq<bv32>): set<nat> {
    set k: nat | k < 32 * |words| && Bit(words[k / 32], k % 32)
  }

  /** The numbers below n that are not in rx, in increasing order. */
  function Missing(rx: set<nat>, n: nat): seq<nat> {
    if n == 0 then []
    else Missing(rx, n - 1) + if n - 1 in rx then [] else [n - 1]
  }

  predicate IsComplete(rx: set<nat>, n: nat) {
    forall k | 0 <= k < n :: k in rx
  }

  /** A list of segment numbers as it stands in a request: two bytes each, low byte first. */
  function SegmentListBytes(segs: seq<nat>): (s: seq<byte>)
    ensures |s| == 2 * |segs|
  {
    if segs == [] then [] else SegmentListBytes(segs[..|segs| - 1]) + PairBytes(segs[|segs| - 1])
  }

  predicate FitTwoBytes(segs: seq<nat>) {
    forall i | 0 <= i < |segs| :: segs[i] < 0x1_0000
  }

  /** How the server reads such a list. */
  function SegmentList(s: seq<byte>): seq<nat> {
    if |s| < 2 then [] else SegmentList(s[..|s| - 2]) + [PairAt(s, |s| - 2)]
  }

  // ---------------------------------------------------------------- words and bits

  lemma BitOfSetBitShifted(w: bv32, k: bv8, j: bv8)
    requires k < 32 && j < 32
    ensures ((w | (1 << k)) >> j) & 1 == 1 <==> j == k || (w >> j) & 1 == 1
  {
  }

  lemma BitOfSetBit(w: bv32, k: nat, j: nat)
    requires k < 32 && j < 32
    ensures Bit(SetBit(w, k), j) <==> j == k || Bit(w, j)
  {
    ByteOfNat(k);
    ByteOfNat(j);
    SmallByte(k);
    SmallByte(j);
    BitOfSetBitShifted(w, ToByte(k), ToByte(j));
    hide ToByte, ToNat;
  }

  lemma SmallByte(k: nat)
    requires k < 32
    ensures ToByte(k) < 32
  {
  }

  lemma BitOfZero(k: nat)
    requires k < 32
    ensures !Bit(0, k)
  {
  }

  lemma BitOfOnes(k: nat)
    requires k < 32
    ensures Bit(0xFFFF_FFFF, k)
  {
  }

  lemma ClearBit(w: bv32) returns (k: nat)
    requires w != 0xFFFF_FFFF
    ensures k < 32 && !Bit(w, k)
  {
    k := 0;
    while k < 31 && Bit(w, k)
      invariant k < 32 && forall j: nat | j < k :: Bit(w, j)
    {
      k := k + 1;
    }
    if forall j: nat | j < 32 :: Bit(w, j) {
      AllBitsSet(w);
    }
  }

  lemma AllBitsSet(w: bv32)
    requires forall j: nat | j < 32 :: Bit(w, j)
    ensures w == 0xFFFF_FFFF
  {
    assert Bit(w, 0) && Bit(w, 1) && Bit(w, 2) && Bit(w, 3) && Bit(w, 4) && Bit(w, 5) && Bit(w, 6) && Bit(w, 7);
    assert Bit(w, 8) && Bit(w, 9) && Bit(w, 10) && Bit(w, 11) && Bit(w, 12) && Bit(w, 13) && Bit(w, 14);
    assert Bit(w, 15) && Bit(w, 16) && Bit(w, 17) && Bit(w, 18) && Bit(w, 19) && Bit(w, 20) && Bit(w, 21);
    assert Bit(w, 22) && Bit(w, 23) && Bit(w, 24) && Bit(w, 25) && Bit(w, 26) && Bit(w, 27) && Bit(w, 28);
    assert Bit(w, 29) && Bit(w, 30) && Bit(w, 31);
  }

  lemma InReceived(words: seq<bv32>, i: nat, j: nat)
    requires i < |words| && j < 32
    ensures 32 * i + j in Received(words) <==> Bit(words[i], j)
  {
    assert (32 * i + j) / 32 == i && (32 * i + j) % 32 == j;
  }

  lemma ReceivedOfZeros(words: seq<bv32>)
    requires forall i | 0 <= i < |words| :: words[i] == 0
    ensures Received(words) == {}
  {
    forall k: nat | k < 32 * |words| ensures !Bit(words[k / 32], k % 32) { BitOfZero(k % 32); }
  }

  lemma ReceivedOfSetBit(words: seq<bv32>, n: nat)
    requires n < 32 * |words|
    ensures Received(words[n / 32 := SetBit(words[n / 32], n % 32)]) == Received(words) + {n}
  {
    var after := words[n / 32 := SetBit(words[n / 32], n % 32)];
    forall k: nat | k < 32 * |words|
      ensures Bit(after[k / 32], k % 32) <==> k == n || Bit(words[k / 32], k % 32)
    {
      if k / 32 == n / 32 {
        BitOfSetBit(words[n / 32], n % 32, k % 32);
      }
    }
    hide Bit, SetBit;
  }

  // ---------------------------------------------------------------- what Missing lists

  predicate Increasing(s: seq<nat>) {
    forall i, j | 0 <= i < j < |s| :: s[i] < s[j]
  }

  lemma {:induction false} MissingIffNotReceived(rx: set<nat>, n: nat, k: nat)
    ensures k in Missing(rx, n) <==> k < n && k !in rx
  {
    if n > 0 {
      MissingIffNotReceived(rx, n - 1, k);
    }
  }

  lemma {:induction false} MissingIncreasing(rx: set<nat>, n: nat)
    ensures Increasing(Missing(rx, n))
  {
    if n > 0 {
      var m := Missing(rx, n - 1);
      MissingIncreasing(rx, n - 1);
      forall i | 0 <= i < |m| ensures m[i] < n - 1 {
        MissingIffNotReceived(rx, n - 1, m[i]);
      }
    }
  }

  /** The list holds exactly the numbers below n that were not received, each once, in order. */
  lemma MissingExact(rx: set<nat>, n: nat)
    ensures forall k: nat :: k in Missing(rx, n) <==> k < n && k !in rx
    ensures Increasing(Missing(rx, n))
  {
    hide Missing;
    forall k: nat ensures k in Missing(rx, n) <==> k < n && k !in rx { MissingIffNotReceived(rx, n, k); }
    MissingIncreasing(rx, n);
  }

  /** {0, ..., n - 1} */
  ghost function Below(n: nat): (s: set<nat>)
    ensures forall k: nat :: k in s <==> k < n
  {
    if n == 0 then {} else Below(n - 1) + {n - 1}
  }

  lemma BelowStep(n: nat)
    ensures Below(0) == {} && Below(n + 1) == Below(n) + {n} && n !in Below(n)
  {
  }

  lemma {:induction false} MissingCount(rx: set<nat>, n: nat)
    ensures |Missing(rx, n)| + |rx * Below(n)| == n
  {
    hide Missing, Below;
    if n == 0 {
      MissingStart(rx);
      BelowStep(0);
      assert rx * {} == {};
    } else {
      MissingCount(rx, n - 1);
      MissingStep(rx, n - 1);
      BelowStep(n - 1);
      OneMore(rx, Below(n - 1), n - 1);
    }
  }

  lemma OneMore(rx: set<nat>, s: set<nat>, k: nat)
    requires k !in s
    ensures |rx * (s + {k})| == |rx * s| + if k in rx then 1 else 0
  {
    if k in rx {
      assert rx * (s + {k}) == rx * s + {k};
    } else {
      assert rx * (s + {k}) == rx * s;
    }
  }

  lemma MissingNone(rx: set<nat>, n: nat)
    ensures Missing(rx, n) == [] <==> IsComplete(rx, n)
  {
    MissingExact(rx, n);
    if Missing(rx, n) != [] {
      assert Missing(rx, n)[0] in Missing(rx, n);
    }
  }

  lemma MissingStart(rx: set<nat>)
    ensures Missing(rx, 0) == [] && SegmentListBytes([]) == []
  {
  }

  lemma MissingStep(rx: set<nat>, n: nat)
    ensures Missing(rx, n + 1) == if n in rx then Missing(rx, n) else Missing(rx, n) + [n]
  {
  }

  lemma SegmentListAppend(segs: seq<nat>, n: nat)
    ensures SegmentListBytes(segs + [n]) == SegmentListBytes(segs) + [LowByte(n), HighByte(n)]
  {
    hide LowByte, HighByte;
    assert (segs + [n])[..|segs|] == segs;
  }

  lemma MissingGrows(rx: set<nat>, n: nat, m: nat)
    requires n <= m
    ensures Missing(rx, n) <= Missing(rx, m)
  {
  }

  lemma SegmentListEntry(s: seq<byte>, n: nat)
    requires n < 0x1_0000
    ensures SegmentList(s + PairBytes(n)) == SegmentList(s) + [n]
  {
    hide PairBytes, Pair;
    PairOfPairBytes(n);
    var t := s + PairBytes(n);
    assert t[..|t| - 2] == s && t[|s|] == PairBytes(n)[0] && t[|s| + 1] == PairBytes(n)[1];
  }

  lemma {:induction false} SegmentListRoundTrip(segs: seq<nat>)
    requires FitTwoBytes(segs)
    ensures SegmentList(SegmentListBytes(segs)) == segs
  {
    hide PairBytes, SegmentList;
    if segs == [] {
      EmptyList();
    } else {
      SegmentListRoundTrip(segs[..|segs| - 1]);
      SegmentListEntry(SegmentListBytes(segs[..|segs| - 1]), segs[|segs| - 1]);
    }
  }

  lemma EmptyList()
    ensures SegmentList([]) == []
  {
  }

  // ---------------------------------------------------------------- the client's operations

  /** The guard of ll_ftp_seg_num_track admits exactly one number whose word lies past the array. */
  lemma TrackGuardExact(segNum: nat)
    requires segNum <= MAX_NUM_SEGMENTS
    ensures segNum / 32 < NUM_RX_SEGS_BITMASK <==> segNum != MAX_NUM_SEGMENTS
  {
  }

  /** ll_ftp_seg_num_track */
  method SegNumTrack(rxSegs: array<bv32>, segNum: nat)
    requires rxSegs.Length == NUM_RX_SEGS_BITMASK
    requires segNum != MAX_NUM_SEGMENTS
    modifies rxSegs
    ensures Received(rxSegs[..]) ==
            old(Received(rxSegs[..])) + if segNum < MAX_NUM_SEGMENTS then {segNum} else {}
  {
    if MAX_NUM_SEGMENTS >= segNum {
      var base := segNum / 32;
      ReceivedOfSetBit(rxSegs[..], segNum);
      rxSegs[base] := SetBit(rxSegs[base], segNum % 32);
      assert rxSegs[..] == old(rxSegs[..])[base := SetBit(old(rxSegs[base]), segNum % 32)];
    }
  }

  /** ll_ftp_transfer_is_complete: whole words by comparison, the last word bit by bit. */
  method TransferIsComplete(rxSegs: array<bv32>, numSegs: nat) returns (ret: bool)
    requires rxSegs.Length == NUM_RX_SEGS_BITMASK && numSegs <= MAX_NUM_SEGMENTS
    ensures ret <==> IsComplete(Received(rxSegs[..]), numSegs)
  {
    hide Bit, Received;
    ret := true;
    var baseMax := numSegs / 32;
    var i := 0;
    while i <= baseMax
      invariant i <= baseMax + 1
      invariant ret ==> IsComplete(Received(rxSegs[..]), if i <= baseMax then 32 * i else numSegs)
      invariant !ret ==> !IsComplete(Received(rxSegs[..]), numSegs)
    {
      if i != baseMax {
        if rxSegs[i] != 0xFFFF_FFFF {
          ghost var k := ClearBit(rxSegs[i]);
          InReceived(rxSegs[..], i, k);
          ret := false;
          break;
        }
        forall k: nat | 32 * i <= k < 32 * (i + 1) ensures k in Received(rxSegs[..]) {
          BitOfOnes(k - 32 * i);
          InReceived(rxSegs[..], i, k - 32 * i);
        }
      } else {
        var j := 0;
        while j < numSegs % 32
          invariant j <= numSegs % 32
          invariant ret ==> IsComplete(Received(rxSegs[..]), 32 * i + j)
          invariant !ret ==> !IsComplete(Received(rxSegs[..]), numSegs)
        {
          InReceived(rxSegs[..], i, j);
          if !Bit(rxSegs[i], j) {
            ret := false;
            break;
          }
          j := j + 1;
        }
      }
      i := i + 1;
    }
  }

  /** Entry num of the list of missing segments, low byte first. */
  method PutSegment(txBuf: array<byte>, num: nat, segNum: nat)
    requires txBuf.Length == NAK_FILE_SEGS_INDEX + 2 * MAX_NUM_RETRY_SEGS && num < MAX_NUM_RETRY_SEGS
    modifies txBuf
    ensures txBuf[..NAK_FILE_SEGS_INDEX] == old(txBuf[..NAK_FILE_SEGS_INDEX])
    ensures txBuf[NAK_FILE_SEGS_INDEX..NAK_FILE_SEGS_INDEX + 2 * (num + 1)]
            == old(txBuf[NAK_FILE_SEGS_INDEX..NAK_FILE_SEGS_INDEX + 2 * num]) + [LowByte(segNum), HighByte(segNum)]
  {
    hide LowByte, HighByte;
    var idx := num * 2;
    txBuf[NAK_FILE_SEGS_INDEX + idx] := LowByte(segNum);
    txBuf[NAK_FILE_SEGS_INDEX + idx + 1] := HighByte(segNum);
  }

  /** ll_ftp_get_missing_segs: counts the missing segments and, when asked, lists them in the buffer,
      giving up at the seventeenth. */
  method GetMissingSegs(rxSegs: array<bv32>, txBuf: array<byte>, numSegs: nat, fillBuf: bool)
    returns (num: nat)
    requires rxSegs.Length == NUM_RX_SEGS_BITMASK && numSegs <= MAX_NUM_SEGMENTS
    requires txBuf.Length == NAK_FILE_SEGS_INDEX + 2 * MAX_NUM_RETRY_SEGS
    modifies txBuf
    ensures var missing := Missing(Received(rxSegs[..]), numSegs);
            && num == (if fillBuf && |missing| > MAX_NUM_RETRY_SEGS then RETRANSMIT_ALL else |missing|)
            && txBuf[..NAK_FILE_SEGS_INDEX] == old(txBuf[..NAK_FILE_SEGS_INDEX])
            && (fillBuf && |missing| <= MAX_NUM_RETRY_SEGS ==>
                  txBuf[NAK_FILE_SEGS_INDEX..NAK_FILE_SEGS_INDEX + 2 * |missing|] == SegmentListBytes(missing))
            && (!fillBuf ==> txBuf[..] == old(txBuf[..]))
  {
    hide Bit, Received, LowByte, HighByte, Missing, SegmentListBytes;
    MissingStart(Received(rxSegs[..]));
    ghost var rx := Received(rxSegs[..]);
    num := 0;
    var baseMax := numSegs / 32;
    var i := 0;
    while i <= baseMax
      invariant i <= baseMax + 1
      invariant GetMissingState(rx, txBuf, num, if i <= baseMax then 32 * i else numSegs, fillBuf)
      invariant txBuf[..NAK_FILE_SEGS_INDEX] == old(txBuf[..NAK_FILE_SEGS_INDEX])
      invariant !fillBuf ==> txBuf[..] == old(txBuf[..])
    {
      var numSegsBase := if i != baseMax then 32 else numSegs % 32;
      var j := 0;
      while j < numSegsBase
        invariant j <= numSegsBase
        invariant GetMissingState(rx, txBuf, num, 32 * i + j, fillBuf)
        invariant txBuf[..NAK_FILE_SEGS_INDEX] == old(txBuf[..NAK_FILE_SEGS_INDEX])
        invariant !fillBuf ==> txBuf[..] == old(txBuf[..])
      {
        InReceived(rxSegs[..], i, j);
        MissingStep(rx, 32 * i + j);
        if !Bit(rxSegs[i], j) {
          ghost var before := Missing(rx, 32 * i + j);
          if MAX_NUM_RETRY_SEGS <= num && fillBuf {
            MissingGrows(rx, 32 * i + j + 1, numSegs);
            return RETRANSMIT_ALL;
          }
          var segNum := i * 32 + j;
          if fillBuf {
            PutSegment(txBuf, num, segNum);
            SegmentListAppend(before, segNum);
          }
          num := num + 1;
        }
        j := j + 1;
      }
      i := i + 1;
    }
  }

  /** The segments below n have been looked at, num of them were missing, and they stand in the buffer. */
  ghost predicate GetMissingState(rx: set<nat>, txBuf: array<byte>, num: nat, n: nat, fillBuf: bool)
    requires txBuf.Length == NAK_FILE_SEGS_INDEX + 2 * MAX_NUM_RETRY_SEGS
    reads txBuf
  {
    var missing := Missing(rx, n);
    && num == |missing|
    && (fillBuf ==>
          && num <= MAX_NUM_RETRY_SEGS
          && txBuf[NAK_FILE_SEGS_INDEX..NAK_FILE_SEGS_INDEX + 2 * num] == SegmentListBytes(missing))
  }

  /** ll_ftp_num_missing_segs_get */
  method NumMissingSegsGet(rxSegs: array<bv32>, txBuf: array<byte>, numSegs: nat) returns (num: int)
    requires rxSegs.Length == NUM_RX_SEGS_BITMASK
    requires txBuf.Length == NAK_FILE_SEGS_INDEX + 2 * MAX_NUM_RETRY_SEGS
    modifies txBuf
    ensures numSegs == 0 || numSegs > MAX_NUM_SEGMENTS ==> num == -1
    ensures 0 < numSegs <= MAX_NUM_SEGMENTS ==>
              num == numSegs - |Received(rxSegs[..]) * Below(numSegs)|
    ensures txBuf[..] == old(txBuf[..])
  {
    if 0 >= numSegs || MAX_NUM_SEGMENTS < numSegs {
      return -1;
    }
    MissingCount(Received(rxSegs[..]), numSegs);
    num := GetMissingSegs(rxSegs, txBuf, numSegs, false);
  }
}
