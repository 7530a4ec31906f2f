/**
 The segment acceptability test of section 3.10.7.4 of RFC 9293
 (`is_segment_valid`, identical in tcb.rs and mod.rs), and the segment length
 the engine feeds it.
 */
module Acceptability {
  import opened SeqNum
  import opened Segments

  /** RCV.NXT =< x < RCV.NXT+RCV.WND, modulo 2^32. */
  predicate InWindow(rcvNxt: u32, rcvWnd: u16, x: u32) {
    Dist(rcvNxt, x) < rcvWnd
  }

  /** The window test as the source writes it, with `is_between_wrapped`
      from RCV.NXT-1 to RCV.NXT+RCV.WND, is the window of the RFC. */
  lemma WindowTestIsInWindow(rcvNxt: u32, rcvWnd: u16, x: u32)
    requires 0 < rcvWnd
    ensures IsBetweenWrapped(WrappingSub(rcvNxt, 1), x, WrappingAdd(rcvNxt, rcvWnd))
            <==> InWindow(rcvNxt, rcvWnd, x)
  {
    var s := WrappingSub(rcvNxt, 1);
    var e := WrappingAdd(rcvNxt, rcvWnd);
    assert Dist(s, e) == rcvWnd + 1;
    BetweenIsOpenInterval(s, x, e);
    if Dist(rcvNxt, x) == MOD - 1 {
      assert Dist(s, x) == 0;
    } else {
      assert Dist(s, x) == Dist(rcvNxt, x) + 1;
    }
  }

  /** `is_segment_valid`: the four cases of the acceptability table. */
  function IsSegmentValid(rcvNxt: u32, rcvWnd: u16, segSeq: u32, segLen: u32): (r: bool)
    ensures segLen == 0 && rcvWnd == 0 ==> (r <==> segSeq == rcvNxt)
    ensures segLen == 0 && rcvWnd > 0 ==> (r <==> InWindow(rcvNxt, rcvWnd, segSeq))
    ensures segLen > 0 && rcvWnd == 0 ==> !r
    ensures segLen > 0 && rcvWnd > 0 ==>
              (r <==> InWindow(rcvNxt, rcvWnd, segSeq)
                      || InWindow(rcvNxt, rcvWnd, WrappingSub(WrappingAdd(segSeq, segLen), 1)))
  {
    var lo := WrappingSub(rcvNxt, 1);
    var hi := WrappingAdd(rcvNxt, rcvWnd);
    if segLen == 0 && rcvWnd == 0 then
      segSeq == rcvNxt
    else if segLen == 0 && rcvWnd > 0 then
      WindowTestIsInWindow(rcvNxt, rcvWnd, segSeq);
      IsBetweenWrapped(lo, segSeq, hi)
    else if segLen > 0 && rcvWnd == 0 then
      false
    else
      var last := WrappingSub(WrappingAdd(segSeq, segLen), 1);
      WindowTestIsInWindow(rcvNxt, rcvWnd, segSeq);
      WindowTestIsInWindow(rcvNxt, rcvWnd, last);
      IsBetweenWrapped(lo, segSeq, hi) || IsBetweenWrapped(lo, last, hi)
  }

  /** SEG.LEN as the engine computes it before the acceptability test
      (tcb.rs:1191-1192, mod.rs:325-326): payload plus one for ACK plus one
      for FIN, truncated to 32 bits. It differs from the RFC's SEG.LEN by
      counting ACK in place of SYN: the two agree exactly when the segment
      carries both flags or neither. */
  function SegLen(s: Seg): (r: u32)
    ensures |s.data| + 2 < MOD ==>
              r == |s.data| + (if s.ack then 1 else 0) + (if s.fin then 1 else 0)
    ensures |s.data| + 2 < MOD ==>
              r + (if s.syn then 1 else 0) == SegLenRfc(s) + (if s.ack then 1 else 0)
    ensures |s.data| + 2 < MOD ==> (r == SegLenRfc(s) <==> s.ack == s.syn)
  {
    (|s.data| + (if s.ack then 1 else 0) + (if s.fin then 1 else 0)) % MOD
  }

  /** SEG.LEN as section 3.4 of RFC 9293 defines it: payload plus one for SYN
      plus one for FIN. */
  function SegLenRfc(s: Seg): (r: u32)
    ensures |s.data| + 2 < MOD ==>
              r == |s.data| + (if s.syn then 1 else 0) + (if s.fin then 1 else 0)
  {
    (|s.data| + (if s.syn then 1 else 0) + (if s.fin then 1 else 0)) % MOD
  }

  /** Counting ACK instead of SYN rejects a bare ACK at RCV.NXT while the
      receive window is zero: the zero-window probe's reply is dropped. */
  lemma BareAckRejectedAtZeroWindow(s: Seg, rcvNxt: u32)
    requires s.ack && !s.syn && !s.fin && |s.data| == 0 && s.seqNo == rcvNxt
    ensures !IsSegmentValid(rcvNxt, 0, s.seqNo, SegLen(s))
    ensures IsSegmentValid(rcvNxt, 0, s.seqNo, SegLenRfc(s))
  {
  }

  /** With a positive window, a segment starting at RCV.NXT is always
      acceptable, whatever its length. */
  lemma SegmentAtRcvNxtAccepted(rcvNxt: u32, rcvWnd: u16, segLen: u32)
    requires 0 < rcvWnd
    ensures IsSegmentValid(rcvNxt, rcvWnd, rcvNxt, segLen)
  {
  }

  /** SND.UNA < SEG.ACK =< SND.NXT: the ACK covers something sent and not
      yet acknowledged. */
  predicate AckInFlight(una: u32, ack: u32, nxt: u32) {
    IsBetweenWrapped(una, ack, WrappingAdd(nxt, 1))
  }
}
