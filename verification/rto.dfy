/**
 The retransmission-timeout estimator of section 2 of RFC 6298
 (`compute_rto` in tcb.rs). Times are milliseconds. The source evaluates the
 smoothing steps in f64 and truncates; with the exact weights 3/4, 1/4, 7/8 and
 1/8 that is integer floor division for every value far below 2^50.
 */
module Rto {
  import opened SeqNum

  /** Clock granularity G. */
  const GRANULARITY: nat := 100
  /** Lower bound on RTO (one second). */
  const MIN_RTO: nat := 1000

  /** SRTT, RTTVAR, RTO and whether a first sample has been taken. */
  datatype RttEstimator = RttEstimator(srtt: nat, rttvar: nat, rto: nat, measured: bool)

  /** The estimator before any measurement: RTO is one second. */
  const INITIAL: RttEstimator := RttEstimator(0, 0, MIN_RTO, false)

  function AbsDiff(a: nat, b: nat): nat { if a >= b then a - b else b - a }

  /** The SRTT and RTTVAR update for one sample `r`, RTO left alone. */
  function Smooth(e: RttEstimator, r: nat): (e': RttEstimator)
    ensures e'.measured && e'.rto == e.rto
    ensures !e.measured ==> e'.srtt == r && 2 * e'.rttvar <= r < 2 * e'.rttvar + 2
    ensures e.measured ==>
              4 * e'.rttvar <= 3 * e.rttvar + AbsDiff(e.srtt, r) < 4 * e'.rttvar + 4
    ensures e.measured ==> 8 * e'.srtt <= 7 * e.srtt + r < 8 * e'.srtt + 8
  {
    if !e.measured then
      e.(srtt := r, rttvar := r / 2, measured := true)
    else
      var rttvar := (3 * e.rttvar + AbsDiff(e.srtt, r)) / 4;
      var srtt := (7 * e.srtt + r) / 8;
      e.(srtt := srtt, rttvar := rttvar, measured := true)
  }

  /** `compute_rto`: smooth, then RTO <- max(SRTT + max(G, 4*RTTVAR), 1 s).
      The result is the least value that is at least one second and at least
      SRTT plus both G and 4*RTTVAR. */
  function ComputeRto(e: RttEstimator, r: nat): (e': RttEstimator)
    ensures e'.srtt == Smooth(e, r).srtt && e'.rttvar == Smooth(e, r).rttvar && e'.measured
    ensures e'.rto >= MIN_RTO
    ensures e'.rto >= e'.srtt + GRANULARITY && e'.rto >= e'.srtt + 4 * e'.rttvar
    ensures e'.rto == MIN_RTO || e'.rto == e'.srtt + GRANULARITY || e'.rto == e'.srtt + 4 * e'.rttvar
  {
    var s := Smooth(e, r);
    var rto := s.srtt + Max(GRANULARITY, 4 * s.rttvar);
    s.(rto := Max(rto, MIN_RTO))
  }

  /** The smoothed RTT moves towards the sample and never past it. */
  lemma SrttBetweenOldAndSample(e: RttEstimator, r: nat)
    requires e.measured
    ensures Min(e.srtt, r) <= ComputeRto(e, r).srtt <= Max(e.srtt, r)
  {
  }

  /** A sample equal to SRTT leaves SRTT unchanged and never raises RTTVAR. */
  lemma SteadySampleIsStable(e: RttEstimator)
    requires e.measured
    ensures ComputeRto(e, e.srtt).srtt == e.srtt
    ensures ComputeRto(e, e.srtt).rttvar <= e.rttvar
  {
  }

  /** First sample 200 ms: SRTT 200, RTTVAR 100, RTO raised to one second;
      then a 100 ms sample: RTTVAR stays 100 and SRTT becomes 187 (187.5 truncated). */
  lemma TwoSampleExample()
    ensures ComputeRto(INITIAL, 200) == RttEstimator(200, 100, 1000, true)
    ensures ComputeRto(ComputeRto(INITIAL, 200), 100) == RttEstimator(187, 100, 1000, true)
  {
  }

  /** RTO doubling on a retransmission timeout (tcb.rs:592). */
  function Backoff(rto: nat): nat {
    rto * 2
  }

  /** 2 to the power `n`. */
  function Pow2(n: nat): (p: nat)
    ensures p >= 1
  {
    if n == 0 then 1 else 2 * Pow2(n - 1)
  }
}
