/**
 The retransmission queue of tcb.rs: cumulative-ACK processing
 (`process_ack`) and the retransmission of the front entry when the
 retransmission timer fires (the first branch of `on_tick`).
 */
module RetransmitQueue {
  import opened Wrappers
  import opened SeqNum
  import opened Segments
  import opened Rto
  import opened TcbState

  /** The ACK covers the whole entry: its last sequence number precedes `ack`. */
  predicate FullyAcked(q: QSeg, ack: u32) {
    WrappingLt(End(q), ack)
  }

  /** The ACK falls strictly inside the unacknowledged part of the entry. */
  predicate PartiallyAcked(q: QSeg, ack: u32) {
    IsBetweenWrapped(q.una, ack, WrappingAdd(End(q), 1))
  }

  /** Milliseconds since `sent`; `Instant` subtraction saturates at zero. */
  function Elapsed(now: nat, sent: nat): nat {
    if now >= sent then now - sent else 0
  }

  /** The variables of the `process_ack` loop: the queue, the unacknowledged
      bytes, and the RTT sample taken from the last entry examined. */
  datatype AckLoopState = AckLoopState(
    queue: seq<QSeg>, outgoing: seq<byte>, sampleOk: bool, sample: nat)

  /** What one iteration needs from the source to not panic: the front entry
      was sent (`sent.unwrap()`), and the bytes it drains exist. */
  predicate IterationSafe(s: AckLoopState, ack: u32) {
    && |s.queue| > 0
    && s.queue[0].sent.Some?
    && (PartiallyAcked(s.queue[0], ack) ==> Dist(s.queue[0].una, ack) <= |s.outgoing|)
    && (!PartiallyAcked(s.queue[0], ack) && FullyAcked(s.queue[0], ack) ==>
          UnackedLenDefined(s.queue[0]) && UnackedDataLen(s.queue[0]) <= |s.outgoing|)
  }

  /** One iteration of the loop at tcb.rs:837-859, exactly as written:
      record the sample, then trim a partially acknowledged front entry or
      pop a fully acknowledged one, draining its bytes. */
  function AckLoopIteration(s: AckLoopState, ack: u32, now: nat): (s': AckLoopState)
    requires IterationSafe(s, ack)
    ensures s'.sampleOk == !s.queue[0].retry
    ensures s'.sample == Elapsed(now, s.queue[0].sent.value)
  {
    var q := s.queue[0];
    var ok := !q.retry;
    var r := Elapsed(now, q.sent.value);
    if PartiallyAcked(q, ack) then
      var acked := Dist(q.una, ack);
      AckLoopState([q.(una := ack)] + s.queue[1..], s.outgoing[acked..], ok, r)
    else if FullyAcked(q, ack) then
      AckLoopState(s.queue[1..], s.outgoing[UnackedDataLen(q)..], ok, r)
    else
      AckLoopState(s.queue, s.outgoing, ok, r)
  }

  /** The loop as written never exits once the front entry is not fully
      acknowledged: after one more iteration the state is a fixed point and
      the queue is still non-empty. */
  lemma AckLoopSpinsOnPartialAck(s: AckLoopState, ack: u32, now: nat)
    requires IterationSafe(s, ack) && !FullyAcked(s.queue[0], ack)
    ensures IterationSafe(AckLoopIteration(s, ack, now), ack)
    ensures var s1 := AckLoopIteration(s, ack, now);
      |s1.queue| > 0 && AckLoopIteration(s1, ack, now) == s1
  {
    var s1 := AckLoopIteration(s, ack, now);
    var q := s.queue[0];
    if PartiallyAcked(q, ack) {
      assert s1.queue[0] == q.(una := ack);
      assert End(s1.queue[0]) == End(q);
      assert !PartiallyAcked(s1.queue[0], ack);
    }
  }

  /** Concretely: a 10-byte entry at 1000 acknowledged up to 1005 is trimmed
      and then examined forever. */
  lemma AckLoopSpinExample()
    ensures var q := QSeg(1000, 1000, 10, false, false, true, false, 0, Some(0), None);
      var s := AckLoopState([q], seq(10, _ => 0), false, 0);
      && IterationSafe(s, 1005)
      && var s1 := AckLoopIteration(s, 1005, 7);
      && s1.queue == [q.(una := 1005)] && |s1.outgoing| == 5
      && AckLoopIteration(s1, 1005, 7) == s1
  {
    var q := QSeg(1000, 1000, 10, false, false, true, false, 0, Some(0), None);
    assert End(q) == 1009;
    var s := AckLoopState([q], seq(10, _ => 0), false, 0);
    var s1 := AckLoopIteration(s, 1005, 7);
    AckLoopSpinsOnPartialAck(s, 1005, 7);
  }

  /** Payload bytes still unacknowledged in a run of entries. */
  function UnackedTotal(qs: seq<QSeg>): nat
    requires forall i :: 0 <= i < |qs| ==> UnackedLenDefined(qs[i])
  {
    if |qs| == 0 then 0 else UnackedDataLen(qs[0]) + UnackedTotal(qs[1..])
  }

  /** The entry after the ACK: trimmed to `ack` when it is partially acknowledged. */
  function Trim(q: QSeg, ack: u32): QSeg {
    if PartiallyAcked(q, ack) then q.(una := ack) else q
  }

  /** How many entries from the front the ACK covers completely: the
      entries the loop pops. */
  function PoppedCount(queue: seq<QSeg>, ack: u32): (k: nat)
    decreases |queue|
    ensures k <= |queue|
    ensures forall i :: 0 <= i < k ==> FullyAcked(queue[i], ack)
    ensures k < |queue| ==> !FullyAcked(queue[k], ack)
  {
    if |queue| == 0 || !FullyAcked(queue[0], ack) then 0
    else 1 + PoppedCount(queue[1..], ack)
  }

  /** Bytes the loop drains from `outgoing`: the unacknowledged payload of
      every popped entry, plus the covered part of a partially
      acknowledged entry behind them. */
  function Drained(queue: seq<QSeg>, ack: u32): nat
    requires forall i :: 0 <= i < PoppedCount(queue, ack) ==> UnackedLenDefined(queue[i])
  {
    var k := PoppedCount(queue, ack);
    UnackedTotal(queue[..k])
    + (if k < |queue| && PartiallyAcked(queue[k], ack) then Dist(queue[k].una, ack) else 0)
  }

  /** The queue the loop leaves: the entries behind the popped ones, the
      first of them trimmed to the ACK. */
  function Remaining(queue: seq<QSeg>, ack: u32): seq<QSeg> {
    var k := PoppedCount(queue, ack);
    if k < |queue| then [Trim(queue[k], ack)] + queue[k + 1..] else []
  }

  /** The entry the loop examines last: the one it stops at, or the last
      one popped. */
  function LastExamined(queue: seq<QSeg>, ack: u32): (i: nat)
    requires |queue| > 0
    ensures i < |queue|
  {
    var k := PoppedCount(queue, ack);
    if k < |queue| then k else |queue| - 1
  }

  /** What the loop needs from the source not to panic before it stops:
      every examined entry was sent, every popped entry has a defined
      unacknowledged length, and the bytes to drain exist. */
  predicate AckSafe(s: AckLoopState, ack: u32) {
    var k := PoppedCount(s.queue, ack);
    && (forall i :: 0 <= i < |s.queue| && i <= k ==> s.queue[i].sent.Some?)
    && (forall i :: 0 <= i < k ==> UnackedLenDefined(s.queue[i]))
    && Drained(s.queue, ack) <= |s.outgoing|
  }

  /** Where the loop arrives when it stops: the fully acknowledged entries
      are gone, the next one is trimmed to the ACK, the acknowledged bytes
      are drained from the front of `outgoing`, and the RTT sample comes
      from the last entry examined. */
  function AckOutcome(s: AckLoopState, ack: u32, now: nat): (s': AckLoopState)
    requires AckSafe(s, ack)
    ensures |s'.outgoing| <= |s.outgoing|
    ensures s'.outgoing == s.outgoing[|s.outgoing| - |s'.outgoing|..]
    ensures |s.outgoing| - |s'.outgoing| == Drained(s.queue, ack)
    ensures s'.queue == [] <==> forall i :: 0 <= i < |s.queue| ==> FullyAcked(s.queue[i], ack)
    ensures s'.queue != [] ==> s'.queue[0].sent.Some?
    ensures |s.queue| > 0 ==> (s'.sampleOk <==> !s.queue[LastExamined(s.queue, ack)].retry)
  {
    if |s.queue| == 0 then s
    else
      var last := s.queue[LastExamined(s.queue, ack)];
      AckLoopState(Remaining(s.queue, ack), s.outgoing[Drained(s.queue, ack)..],
                   !last.retry, Elapsed(now, last.sent.value))
  }

  /** An entry cannot be both fully and partially acknowledged: the distances
      from its end to the ACK and back would have to add up to one. */
  lemma FullExcludesPartial(q: QSeg, ack: u32)
    ensures FullyAcked(q, ack) ==> !PartiallyAcked(q, ack)
  {
  }

  /** Popping a fully acknowledged front entry: one fewer entry to pop,
      and its unacknowledged payload less to drain. */
  lemma PopCounts(queue: seq<QSeg>, ack: u32)
    requires |queue| > 0 && FullyAcked(queue[0], ack)
    requires forall i :: 0 <= i < PoppedCount(queue, ack) ==> UnackedLenDefined(queue[i])
    ensures PoppedCount(queue, ack) == PoppedCount(queue[1..], ack) + 1
    ensures UnackedLenDefined(queue[0])
    ensures forall i :: 0 <= i < PoppedCount(queue[1..], ack) ==> UnackedLenDefined(queue[1..][i])
    ensures Drained(queue, ack) == UnackedDataLen(queue[0]) + Drained(queue[1..], ack)
  {
    FullExcludesPartial(queue[0], ack);
    var k := PoppedCount(queue, ack);
    var tail := queue[1..];
    var k1 := PoppedCount(tail, ack);
    assert queue[..k][1..] == tail[..k1];
    assert k1 < |tail| ==> queue[k] == tail[k1];
  }

  /** An iteration that pops a fully acknowledged front entry is safe and
      leaves the loop's destination unchanged. */
  lemma PopKeepsOutcome(s: AckLoopState, ack: u32, now: nat)
    requires AckSafe(s, ack) && |s.queue| > 0 && FullyAcked(s.queue[0], ack)
    ensures IterationSafe(s, ack)
    ensures AckSafe(AckLoopIteration(s, ack, now), ack)
    ensures AckOutcome(AckLoopIteration(s, ack, now), ack, now) == AckOutcome(s, ack, now)
  {
    var q := s.queue[0];
    FullExcludesPartial(q, ack);
    PopCounts(s.queue, ack);
    var tail := s.queue[1..];
    var k1 := PoppedCount(tail, ack);
    var s1 := AckLoopIteration(s, ack, now);
    assert s1.queue == tail && s1.outgoing == s.outgoing[UnackedDataLen(q)..];
    assert forall i :: 0 <= i < |tail| && i <= k1 ==> tail[i] == s.queue[i + 1];
    assert AckSafe(s1, ack);
    PopKeepsDestination(s, ack, now);
  }

  /** The destination part of `PopKeepsOutcome`. */
  lemma PopKeepsDestination(s: AckLoopState, ack: u32, now: nat)
    requires AckSafe(s, ack) && |s.queue| > 0 && FullyAcked(s.queue[0], ack)
    requires IterationSafe(s, ack) && AckSafe(AckLoopIteration(s, ack, now), ack)
    ensures AckOutcome(AckLoopIteration(s, ack, now), ack, now) == AckOutcome(s, ack, now)
  {
    var q := s.queue[0];
    FullExcludesPartial(q, ack);
    PopCounts(s.queue, ack);
    PopRemaining(s.queue, ack);
    var tail := s.queue[1..];
    var s1 := AckLoopIteration(s, ack, now);
    assert s1.queue == tail && s1.outgoing == s.outgoing[UnackedDataLen(q)..];
    assert s.outgoing[Drained(s.queue, ack)..] == s1.outgoing[Drained(tail, ack)..];
    if |tail| > 0 {
      assert LastExamined(s.queue, ack) == LastExamined(tail, ack) + 1;
    }
  }

  /** Popping a fully acknowledged front entry leaves the same queue behind. */
  lemma PopRemaining(queue: seq<QSeg>, ack: u32)
    requires |queue| > 0 && FullyAcked(queue[0], ack)
    ensures Remaining(queue, ack) == Remaining(queue[1..], ack)
  {
    var tail := queue[1..];
    var k1 := PoppedCount(tail, ack);
    assert PoppedCount(queue, ack) == k1 + 1;
    if k1 < |tail| {
      assert queue[k1 + 1] == tail[k1];
      assert queue[k1 + 2..] == tail[k1 + 1..];
      assert Remaining(queue, ack) == [Trim(tail[k1], ack)] + tail[k1 + 1..];
    } else {
      assert Remaining(queue, ack) == [];
    }
  }

  /** The iteration at which the loop stops is safe and lands on the
      loop's destination. */
  lemma StopReachesOutcome(s: AckLoopState, ack: u32, now: nat)
    requires AckSafe(s, ack) && |s.queue| > 0 && !FullyAcked(s.queue[0], ack)
    ensures IterationSafe(s, ack)
    ensures AckLoopIteration(s, ack, now) == AckOutcome(s, ack, now)
  {
    assert s.queue[..0] == [];
    if !PartiallyAcked(s.queue[0], ack) {
      assert s.queue == [s.queue[0]] + s.queue[1..];
    }
  }

  /** The source loop with an explicit stop: pop fully acknowledged entries
      from the front; at the first entry that is not, run one more
      iteration (which trims it if the ACK falls inside it) and stop, where
      the source keeps iterating without progress. */
  function AckLoop(s: AckLoopState, ack: u32, now: nat): AckLoopState
    requires AckSafe(s, ack)
    decreases |s.queue|
  {
    if |s.queue| == 0 then s
    else if FullyAcked(s.queue[0], ack) then
      PopKeepsOutcome(s, ack, now);
      AckLoop(AckLoopIteration(s, ack, now), ack, now)
    else
      StopReachesOutcome(s, ack, now);
      AckLoopIteration(s, ack, now)
  }

  /** The loop computes its closed-form destination. */
  lemma {:induction false} AckLoopComputesOutcome(s: AckLoopState, ack: u32, now: nat)
    requires AckSafe(s, ack)
    decreases |s.queue|
    ensures AckLoop(s, ack, now) == AckOutcome(s, ack, now)
  {
    if |s.queue| > 0 {
      if FullyAcked(s.queue[0], ack) {
        PopKeepsOutcome(s, ack, now);
        AckLoopComputesOutcome(AckLoopIteration(s, ack, now), ack, now);
      } else {
        StopReachesOutcome(s, ack, now);
      }
    }
  }

  datatype AckResult = AckResult(t: Tcb, canWrite: bool, sample: Option<nat>)

  /** The retransmission timer after an ACK: off when the queue is empty,
      otherwise one RTO after the front entry was sent. */
  function Rearm(queue: seq<QSeg>, rto: nat): (o: Option<nat>)
    requires queue != [] ==> queue[0].sent.Some?
    ensures o.None? <==> queue == []
    ensures queue != [] ==> o == Some(queue[0].sent.value + rto)
  {
    if queue == [] then None else Some(queue[0].sent.value + rto)
  }

  /** The loop state `process_ack` starts from. */
  function StartState(t: Tcb): AckLoopState {
    AckLoopState(t.segments, t.outgoing, false, 0)
  }

  /** `process_ack`: SND.UNA takes the ACK number, acknowledged entries and
      bytes leave the queues, the retransmission timer is re-armed from the
      new front entry or turned off, and an RTT sample is returned exactly
      when the last entry examined was never retransmitted (Karn's rule).
      The loop's result is taken in closed form; `AckLoopComputesOutcome`
      shows the loop arrives there. `canWrite` is the source's
      `before_len < outgoing.len()`. */
  function ProcessAck(t: Tcb, ack: u32, now: nat): (r: AckResult)
    requires AckSafe(StartState(t), ack)
    ensures r.t.snd == t.snd.(una := ack)
    ensures r.t.segments == [] <==> forall i :: 0 <= i < |t.segments| ==> FullyAcked(t.segments[i], ack)
    ensures r.t.segments == [] <==> r.t.timeout.None?
    ensures r.t.segments != [] ==>
              r.t.segments[0].sent.Some? && r.t.timeout == Some(r.t.segments[0].sent.value + t.rtt.rto)
    ensures |r.t.outgoing| <= |t.outgoing| && r.t.outgoing == t.outgoing[|t.outgoing| - |r.t.outgoing|..]
    ensures |t.outgoing| - |r.t.outgoing| == Drained(t.segments, ack)
    ensures r.sample.Some? <==> |t.segments| > 0 && !t.segments[LastExamined(t.segments, ack)].retry
    ensures r.t == t.(snd := r.t.snd, segments := r.t.segments, outgoing := r.t.outgoing, timeout := r.t.timeout)
  {
    var s := AckOutcome(StartState(t), ack, now);
    var timeout := Rearm(s.queue, t.rtt.rto);
    var t' := t.(snd := t.snd.(una := ack), segments := s.queue, outgoing := s.outgoing, timeout := timeout);
    AckResult(t', |t.outgoing| < |s.outgoing|, if s.sampleOk then Some(s.sample) else None)
  }

  /** The writer wake-up flag compares the buffer lengths the wrong way
      round: acknowledged bytes only ever leave `outgoing`, so it is never set. */
  lemma ProcessAckNeverWakesWriter(t: Tcb, ack: u32, now: nat)
    requires AckSafe(StartState(t), ack)
    ensures !ProcessAck(t, ack, now).canWrite
  {
  }

  /** An ACK of everything sent empties the queue, stops the timer and frees
      every unacknowledged byte of the entries. */
  lemma FullAckEmptiesQueue(t: Tcb, ack: u32, now: nat)
    requires AckSafe(StartState(t), ack)
    requires forall i :: 0 <= i < |t.segments| ==> FullyAcked(t.segments[i], ack)
    ensures var r := ProcessAck(t, ack, now);
      && r.t.segments == [] && r.t.timeout.None?
      && (forall i :: 0 <= i < |t.segments| ==> UnackedLenDefined(t.segments[i]))
      && |r.t.outgoing| + UnackedTotal(t.segments) == |t.outgoing|
  {
    var k := PoppedCount(t.segments, ack);
    assert k == |t.segments|;
    assert t.segments[..k] == t.segments;
  }

  /** The timeout branch of `on_tick`: resend the front entry's
      unacknowledged bytes (taken from the front of `outgoing`) under its
      original sequence number, mark it retransmitted, add the RTO to its
      retransmission total, double the RTO and re-arm the timer. */
  function RetransmitFront(t: Tcb, now: nat): (r: (Tcb, Emit))
    requires |t.segments| > 0 && UnackedLenDefined(t.segments[0])
    ensures var (t', e) := r;
      && t'.rtt == t.rtt.(rto := 2 * t.rtt.rto)
      && t'.timeout == Some(now + 2 * t.rtt.rto)
      && |t'.segments| == |t.segments| && t'.segments[1..] == t.segments[1..]
      && t'.segments[0].retry && t'.segments[0].sent == Some(now)
      && t'.segments[0] == t.segments[0].(retry := true, sent := Some(now),
                                          totalRetTime := t.segments[0].totalRetTime + t.rtt.rto)
      && e.DataOut? && e.seqNo == t.segments[0].sno
      && |e.data| == Min(UnackedDataLen(t.segments[0]), |t.outgoing|)
      && t.outgoing == e.data + t.outgoing[|e.data|..]
      && t' == t.(rtt := t'.rtt, timeout := t'.timeout, segments := t'.segments)
  {
    var q := t.segments[0];
    var n := Min(UnackedDataLen(q), |t.outgoing|);
    var e := DataOut(q.sno, t.rcv.nxt, t.rcv.wnd, t.outgoing[..n], q.fin, q.syn, q.ack, q.mss);
    var q' := q.(retry := true, totalRetTime := q.totalRetTime + t.rtt.rto, sent := Some(now));
    var rto := Backoff(t.rtt.rto);
    (t.(segments := [q'] + t.segments[1..], rtt := t.rtt.(rto := rto), timeout := Some(now + rto)), e)
  }

  /** Karn's rule end to end: once the only queued entry has been
      retransmitted, no ACK yields an RTT sample. */
  lemma NoSampleAfterRetransmit(t: Tcb, now: nat, later: nat, ack: u32)
    requires |t.segments| == 1 && UnackedLenDefined(t.segments[0])
    requires AckSafe(StartState(RetransmitFront(t, now).0), ack)
    ensures ProcessAck(RetransmitFront(t, now).0, ack, later).sample.None?
  {
    var t' := RetransmitFront(t, now).0;
    assert t'.outgoing == t.outgoing;
    assert forall i :: 0 <= i < |t'.segments| ==> t'.segments[i].retry;
  }

  /** The R1 thresholds, in milliseconds of accumulated RTO, for data and
      for a SYN. They only advise; R2 is kept in the TCB (`Tcb.r2`,
      `Tcb.r2Syn`) because the application may set it. */
  const R1: nat := 50 * 1000
  const R1_SYN: nat := 1 * 60 * 1000

  /** The (R1, R2) pair that applies to an entry. */
  function Thresholds(t: Tcb, q: QSeg): (nat, u64) {
    if q.syn then (R1_SYN, t.r2Syn) else (R1, t.r2)
  }

  /** `total_ret_time as u64`: the 128-bit total truncated to 64 bits. */
  function AsU64(x: nat): (r: u64)
    ensures x < 0x1_0000_0000_0000_0000 ==> r == x
  {
    x % 0x1_0000_0000_0000_0000
  }

  /** The give-up test after a retransmission, as written: R2 is consulted
      only when R1 has not been passed, so the connection is closed exactly
      when the total lies above R2 but not above R1. */
  function GivesUpAsWritten(t: Tcb, q: QSeg): (r: bool)
    ensures r <==> Thresholds(t, q).1 < q.totalRetTime <= Thresholds(t, q).0
  {
    var (r1, r2) := Thresholds(t, q);
    if q.totalRetTime > r1 then false
    else AsU64(q.totalRetTime) > r2
  }

  /** While R2 is at least R1 (the defaults are 100 s against 50 s, and
      180 s against 60 s for a SYN), the as-written test never closes a
      connection, however long the entry has gone unanswered. */
  lemma GivesUpAsWrittenNever(t: Tcb, q: QSeg)
    requires t.r2 >= R1 && t.r2Syn >= R1_SYN
    ensures !GivesUpAsWritten(t, q)
  {
  }

  /** A fresh TCB carries the default thresholds, so the as-written test
      never fires for it. */
  lemma GivesUpAsWrittenNeverByDefault(kind: Kind, state: State, iss: u32, q: QSeg)
    ensures !GivesUpAsWritten(Fresh(kind, state, iss), q)
  {
    GivesUpAsWrittenNever(Fresh(kind, state, iss), q);
  }

  /** The intended test: R1 only advises, passing R2 closes the connection. */
  predicate GivesUp(t: Tcb, q: QSeg) {
    q.totalRetTime > Thresholds(t, q).1
  }

  /** The two tests agree where R1 has not been passed; beyond R1 only the
      intended one can close the connection. */
  lemma GivesUpAgreesBelowR1(t: Tcb, q: QSeg)
    ensures q.totalRetTime <= Thresholds(t, q).0 ==> (GivesUp(t, q) <==> GivesUpAsWritten(t, q))
    ensures q.totalRetTime > Thresholds(t, q).0 ==> !GivesUpAsWritten(t, q)
  {
  }

  /** `n` consecutive timeouts with no ACK in between. */
  function RetransmitRepeatedly(t: Tcb, now: nat, n: nat): (t': Tcb)
    requires |t.segments| > 0 && UnackedLenDefined(t.segments[0])
    ensures |t'.segments| > 0 && UnackedLenDefined(t'.segments[0])
    ensures t'.segments[0].syn == t.segments[0].syn
    ensures t'.r2 == t.r2 && t'.r2Syn == t.r2Syn
    decreases n
  {
    if n == 0 then t
    else RetransmitRepeatedly(RetransmitFront(t, now).0, now, n - 1)
  }

  /** Each timeout doubles the RTO and adds the current RTO to the entry's
      total: after `n` timeouts the RTO is 2^n times the first one, so from
      an RTO of at least one second the total grows by at least `n` seconds. */
  lemma {:induction false} RetransmitTimeGrows(t: Tcb, now: nat, n: nat)
    requires |t.segments| > 0 && UnackedLenDefined(t.segments[0])
    requires t.rtt.rto >= MIN_RTO
    ensures var t' := RetransmitRepeatedly(t, now, n);
      && t'.rtt.rto == t.rtt.rto * Pow2(n)
      && t'.segments[0].totalRetTime >= t.segments[0].totalRetTime + n * MIN_RTO
    decreases n
  {
    if n > 0 {
      var t1 := RetransmitFront(t, now).0;
      assert RetransmitRepeatedly(t, now, n) == RetransmitRepeatedly(t1, now, n - 1);
      RetransmitTimeGrows(t1, now, n - 1);
      DoubledPow2(t.rtt.rto, n);
    }
  }

  /** Doubling before `n - 1` more doublings is `n` doublings. */
  lemma DoubledPow2(x: nat, n: nat)
    requires n > 0
    ensures 2 * x * Pow2(n - 1) == x * Pow2(n)
  {
    var p := Pow2(n - 1);
    assert Pow2(n) == 2 * p;
    assert 2 * x * p == x * (2 * p);
  }

  /** With the intended test an entry that is never acknowledged is given
      up on, whatever R2 the application has set: from an RTO of at least
      one second, more than R2 / 1000 timeouts pass it. */
  lemma UnansweredEntryIsGivenUp(t: Tcb, now: nat, n: nat)
    requires |t.segments| > 0 && UnackedLenDefined(t.segments[0])
    requires t.rtt.rto >= MIN_RTO && n > Thresholds(t, t.segments[0]).1 / MIN_RTO
    ensures var t' := RetransmitRepeatedly(t, now, n); GivesUp(t', t'.segments[0])
  {
    RetransmitTimeGrows(t, now, n);
  }

  /** What the retransmission timer does at time `now`. */
  datatype TimerResult =
    | NotDue
      /** the timer ran with an empty queue or a front entry acknowledged
          to its end: `unwrap` or `unacked_data_len` panics */
    | TimerPanic
    | Retransmitted(t: Tcb, e: Emit, giveUp: bool)

  /** The timeout branch of `on_tick` with the intended threshold test: once
      the timer deadline has passed, the front entry is retransmitted and
      the connection is given up when its accumulated retransmission time
      passes R2. */
  function OnRetransmitTimeout(t: Tcb, now: nat): (r: TimerResult)
    ensures r.NotDue? <==> t.timeout.None? || now < t.timeout.value
    ensures r.TimerPanic? <==>
              t.timeout.Some? && now >= t.timeout.value
              && (t.segments == [] || !UnackedLenDefined(t.segments[0]))
    ensures r.Retransmitted? ==>
              && |t.segments| > 0 && UnackedLenDefined(t.segments[0])
              && (r.t, r.e) == RetransmitFront(t, now)
              && (r.giveUp <==> t.segments[0].totalRetTime + t.rtt.rto > Thresholds(t, t.segments[0]).1)
  {
    if t.timeout.None? || now < t.timeout.value then NotDue
    else if t.segments == [] || !UnackedLenDefined(t.segments[0]) then TimerPanic
    else
      var (t', e) := RetransmitFront(t, now);
      Retransmitted(t', e, GivesUp(t', t'.segments[0]))
  }
}
