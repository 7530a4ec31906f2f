/**
 The congestion-window update of section 3.1 of RFC 5681
 (`congestion_control` and `is_slow_start` in tcb.rs), run once per
 acceptable ACK. The congestion-avoidance step is evaluated in f64 by the
 source and truncated to u32; for 16-bit MSS values that is exact floor
 division, with the saturating-cast behaviour of a zero divisor written out.
 */
module Congestion {
  import opened SeqNum

  /** Initial congestion window: four segments of the default 536-byte MSS. */
  const INITIAL_CWND: u32 := 4 * 536
  /** Initial slow-start threshold: the largest u32. */
  const INITIAL_SSTHRESH: u32 := MAX_U32

  predicate IsSlowStart(cwnd: u32, ssthresh: u32) {
    cwnd < ssthresh
  }

  /** `(mss * mss / cwnd) as u32` evaluated in f64: infinity saturates to
      u32::MAX, NaN (0/0) becomes 0. */
  function AvoidanceQuotient(cwnd: u32, mss: u16): (q: nat)
    ensures 0 < cwnd ==> q * cwnd <= mss * mss < (q + 1) * cwnd
  {
    if cwnd == 0 then (if mss == 0 then 0 else MAX_U32)
    else mss * mss / cwnd
  }

  /** The amount one ACK adds to cwnd. */
  function Increment(cwnd: u32, ssthresh: u32, mss: u16): nat {
    if IsSlowStart(cwnd, ssthresh) then mss
    else Max(AvoidanceQuotient(cwnd, mss), 1)
  }

  /** The u32 `+=` does not overflow (it would panic). */
  predicate NoOverflow(cwnd: u32, ssthresh: u32, mss: u16) {
    cwnd + Increment(cwnd, ssthresh, mss) < MOD
  }

  /** `congestion_control`: slow start adds exactly SMSS; congestion avoidance
      adds the floor of SMSS*SMSS/cwnd, rounded up to at least one byte. */
  function CongestionControl(cwnd: u32, ssthresh: u32, mss: u16): (r: u32)
    requires NoOverflow(cwnd, ssthresh, mss)
    ensures cwnd < ssthresh ==> r == cwnd + mss
    ensures cwnd >= ssthresh ==> r > cwnd
    ensures cwnd >= ssthresh && 0 < cwnd ==>
              (r - cwnd == 1 || (r - cwnd) * cwnd <= mss * mss) && mss * mss < (r - cwnd + 1) * cwnd
  {
    cwnd + Increment(cwnd, ssthresh, mss)
  }

  /** In congestion avoidance with cwnd at least one MSS, an ACK grows cwnd
      by at least one byte and by at most one MSS. */
  lemma AvoidanceGrowthBounded(cwnd: u32, ssthresh: u32, mss: u16)
    requires ssthresh <= cwnd && 0 < mss <= cwnd
    requires NoOverflow(cwnd, ssthresh, mss)
    ensures cwnd < CongestionControl(cwnd, ssthresh, mss) <= cwnd + mss
  {
    var q := AvoidanceQuotient(cwnd, mss);
    MulMonotone(mss, cwnd, mss);
    CancelFactor(q, mss, cwnd);
  }

  lemma MulMonotone(a: nat, b: nat, c: nat)
    requires a <= b
    ensures a * c <= b * c
  {
  }

  lemma CancelFactor(a: nat, b: nat, c: nat)
    requires 0 < c && a * c <= b * c
    ensures a <= b
  {
    if a > b {
      MulMonotone(b + 1, a, c);
    }
  }

  /** cwnd strictly increases on every acceptable ACK, unless slow start
      runs with a zero MSS. */
  lemma CwndNeverShrinks(cwnd: u32, ssthresh: u32, mss: u16)
    requires NoOverflow(cwnd, ssthresh, mss)
    ensures CongestionControl(cwnd, ssthresh, mss) >= cwnd
    ensures 0 < mss ==> CongestionControl(cwnd, ssthresh, mss) > cwnd
  {
  }
}
