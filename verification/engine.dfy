/**
 `TCB::on_segment` of tcb.rs: the arrival of one segment, as a pure step
 from a TCB to an outcome. The outcome is the next TCB with the action the
 connection manager is asked to take and the segments written to the
 network in order, or a panic (debug-build arithmetic, `unwrap` and
 `assert!` failures) with the segments written before it.
 */
module Engine {
  import opened Wrappers
  import opened SeqNum
  import opened Segments
  import opened Acceptability
  import opened Rto
  import opened Congestion
  import opened TcbState
  import opened SendRecv
  import opened RetransmitQueue

  /** The request to the connection manager. `AddToPending` carries a copy
      of the TCB in the source; here that copy is the outcome's TCB. */
  datatype Action =
    | Noop
    | AddToPending
    | RemoveFromPending
    | IsEstablished
    | Reset
    | DeleteTcb
    | Wakeup(reader: bool, writer: bool, closer: bool)
    | ConnectionRefused

  datatype PanicReason =
      /** a `u32` addition overflows (`congestion_control`) */
    | Overflow
      /** a `usize` subtraction underflows (data acceptance) */
    | Underflow
      /** `pop_front().unwrap()` on an empty retransmission queue */
    | UnwrapNone
      /** `assert!(self.segments.is_empty())` fails */
    | AssertFailed
      /** `process_ack` panics: an unsent entry, an entry acknowledged to its
          end, or a drain past the end of `outgoing` (see `AckSafe`) */
    | AckQueue

  datatype Outcome =
    | Next(t: Tcb, action: Action, out: seq<Emit>)
    | Panic(reason: PanicReason, out: seq<Emit>)

  /** The states whose ACK processing updates SND.UNA and the send window. */
  predicate AckUpdates(st: State) {
    st == Estab || st == FinWait1 || st == FinWait2 || st == CloseWait || st == Closing
  }

  /** SND.UNA < SEG.ACK =< SND.NXT. */
  predicate AckAcceptable(t: Tcb, ack: u32) {
    AckInFlight(t.snd.una, ack, t.snd.nxt)
  }

  /** `VecDeque::reserve_exact(extra)`: the capacity afterwards holds at
      least `extra` more than the current length. */
  function ReserveExact(cap: nat, len: nat, extra: nat): (c: nat)
    ensures c >= cap && c >= len + extra
    ensures cap >= len + extra ==> c == cap
  {
    Max(cap, len + extra)
  }

  /** The capacity after appending up to `needed` elements: unchanged when
      they fit, otherwise the standard library's amortised growth. */
  function GrowFor(cap: nat, needed: nat): (c: nat)
    ensures c >= cap && c >= needed
    ensures needed <= cap ==> c == cap
  {
    if needed <= cap then cap else Max(Max(2 * cap, needed), 8)
  }

  /** The SYN,ACK a passive open queues: one sequence number at SND.NXT,
      not yet sent. */
  function SynAckEntry(nxt: u32): QSeg {
    QSeg(nxt, nxt, 1, false, true, true, false, 0, None, None)
  }

  /** LISTEN: an RST is ignored, an ACK-bearing segment is answered with a
      reset, and a SYN records the peer's initial sequence number, window
      and MSS, queues a SYN,ACK at the front of the retransmission queue,
      moves SND.NXT past ISS and enters SYN-RECEIVED. */
  function ListenStep(t: Tcb, s: Seg): (o: Outcome)
    ensures o.Next? && o.out == (if !s.rst && s.ack then [ResetReply(s)] else [])
    ensures s.rst || s.ack || !s.syn ==> o.t == t && o.action == Noop
    ensures !s.rst && !s.ack && s.syn ==>
              && o.action == AddToPending
              && o.t.state == SynRcvd
              && o.t.rcv == t.rcv.(nxt := WrappingAdd(s.seqNo, 1), irs := s.seqNo)
              && o.t.snd == t.snd.(nxt := WrappingAdd(t.snd.iss, 1), wnd := s.window,
                                   maxWnd := s.window, mss := s.mss.GetOr(DEFAULT_MSS))
              && o.t.segments == [SynAckEntry(t.snd.nxt)] + t.segments
              && o.t == t.(state := SynRcvd, rcv := o.t.rcv, snd := o.t.snd, segments := o.t.segments)
  {
    if s.rst then Next(t, Noop, [])
    else if s.ack then Next(t, Noop, [ResetReply(s)])
    else if s.syn then
      var snd := t.snd.(wnd := s.window, maxWnd := s.window, mss := s.mss.GetOr(DEFAULT_MSS));
      Next(t.(rcv := t.rcv.(nxt := WrappingAdd(s.seqNo, 1), irs := s.seqNo),
              snd := snd.(nxt := WrappingAdd(t.snd.iss, 1)),
              segments := [SynAckEntry(t.snd.nxt)] + t.segments,
              state := SynRcvd),
           AddToPending, [])
    else Next(t, Noop, [])
  }

  /** Entering ESTABLISHED once our SYN is acknowledged (from SYN-SENT and
      from SYN-RECEIVED): take the send window from the segment, reserve
      the receive buffer, pop the SYN entry, which must be the only one
      queued, and stop the retransmission timer. From SYN-SENT an ACK is
      written, advertising SND.WND. */
  function Establish(t: Tcb, s: Seg, sendAck: bool): (o: Outcome)
    ensures o.Next? <==> |t.segments| == 1
    ensures |t.segments| == 0 ==> o == Panic(UnwrapNone, [])
    ensures |t.segments| > 1 ==> o == Panic(AssertFailed, [])
    ensures o.Next? ==>
              && o.action == IsEstablished
              && o.t.state == Estab && o.t.segments == [] && o.t.timeout.None?
              && o.t.snd == t.snd.(wnd := s.window, wl1 := s.seqNo, wl2 := s.ackNo,
                                   maxWnd := Max(t.snd.maxWnd, s.window))
              && o.t.inCap >= |t.incoming| + RCV_BUFF
              && o.out == (if sendAck then [AckOut(t.snd.nxt, t.rcv.nxt, s.window)] else [])
              && o.t == t.(state := Estab, snd := o.t.snd, segments := [], timeout := None,
                           inCap := o.t.inCap)
  {
    var snd := t.snd.(wnd := s.window, wl1 := s.seqNo, wl2 := s.ackNo,
                      maxWnd := if s.window > t.snd.maxWnd then s.window else t.snd.maxWnd);
    var t1 := t.(snd := snd, inCap := ReserveExact(t.inCap, |t.incoming|, RCV_BUFF));
    if t1.segments == [] then Panic(UnwrapNone, [])
    else if |t1.segments| > 1 then Panic(AssertFailed, [])
    else
      var t2 := t1.(segments := [], timeout := None, state := Estab);
      Next(t2, IsEstablished, if sendAck then [AckOut(t2.snd.nxt, t2.rcv.nxt, t2.snd.wnd)] else [])
  }

  /** SYN-RECEIVED on an acceptable ACK, as written: ESTABLISHED is entered
      without taking SND.UNA from SEG.ACK, so the acknowledged SYN stays
      counted as in flight. */
  function SynRcvdAckAsWritten(t: Tcb, s: Seg): (o: Outcome)
    ensures o.Next? ==> o.t.snd.una == t.snd.una && o.t.snd.nxt == t.snd.nxt
    ensures o.Next? ==> SentLen(o.t) == SentLen(t)
  {
    Establish(t, s, false)
  }

  /** SYN-RECEIVED on an acceptable ACK, corrected: SND.UNA <- SEG.ACK, as
      the ACK processing of section 3.10.7.4 of RFC 9293 that follows the
      move to ESTABLISHED does, so the acknowledged SYN leaves the flight. */
  function SynRcvdAck(t: Tcb, s: Seg): (o: Outcome)
    ensures o.Next? <==> |t.segments| == 1
    ensures o.Next? ==> o.t.snd.una == s.ackNo && o.t.snd.nxt == t.snd.nxt
    ensures o.Next? ==> SentLen(o.t) == Dist(s.ackNo, t.snd.nxt)
  {
    Establish(t.(snd := t.snd.(una := s.ackNo)), s, false)
  }

  /** SYN-SENT reaches its SYN processing: a SYN, with no ACK or an
      acceptable one, and no RST alongside an ACK. */
  predicate SynSentProceeds(t: Tcb, s: Seg) {
    s.syn && !(s.ack && (!AckAcceptable(t, s.ackNo) || s.rst))
  }

  /** SYN-SENT: an unacceptable ACK is answered with a reset; an RST with
      an acceptable ACK resets the connection; a SYN records the peer's
      initial sequence number and takes SND.UNA from SEG.ACK, then enters
      ESTABLISHED if that acknowledges ISS and SYN-RECEIVED otherwise. */
  function SynSentStep(t: Tcb, s: Seg): (o: Outcome)
    ensures s.ack && !AckAcceptable(t, s.ackNo) ==> o == Next(t, Noop, [ResetReply(s)])
    ensures s.ack && AckAcceptable(t, s.ackNo) && s.rst ==> o == Next(t, Reset, [])
    ensures !SynSentProceeds(t, s) ==> o.Next? && o.t == t
    ensures SynSentProceeds(t, s) && WrappingLt(t.snd.iss, s.ackNo) ==>
              && (o.Next? <==> |t.segments| == 1)
              && (o.Panic? ==> o.out == [])
              && (o.Next? ==>
                    && o.action == IsEstablished && o.t.state == Estab
                    && o.t.segments == [] && o.t.timeout.None?
                    && o.t.snd.una == s.ackNo && o.t.snd.nxt == t.snd.nxt && o.t.snd.wnd == s.window
                    && o.t.rcv == t.rcv.(nxt := WrappingAdd(s.seqNo, 1), irs := s.seqNo)
                    && o.out == [AckOut(t.snd.nxt, WrappingAdd(s.seqNo, 1), s.window)])
    ensures SynSentProceeds(t, s) && !WrappingLt(t.snd.iss, s.ackNo) ==>
              o == Next(t.(state := SynRcvd,
                           rcv := t.rcv.(nxt := WrappingAdd(s.seqNo, 1), irs := s.seqNo),
                           snd := t.snd.(una := s.ackNo)),
                        Noop, [SynAckOut(t.snd.nxt, WrappingAdd(s.seqNo, 1), t.snd.wnd)])
  {
    if s.ack && !AckAcceptable(t, s.ackNo) then Next(t, Noop, [ResetReply(s)])
    else if s.ack && s.rst then Next(t, Reset, [])
    else if !s.syn then Next(t, Noop, [])
    else
      var t1 := t.(rcv := t.rcv.(nxt := WrappingAdd(s.seqNo, 1), irs := s.seqNo),
                   snd := t.snd.(una := s.ackNo));
      if WrappingLt(t1.snd.iss, t1.snd.una) then Establish(t1, s, true)
      else Next(t1.(state := SynRcvd), Noop, [SynAckOut(t1.snd.nxt, t1.rcv.nxt, t1.snd.wnd)])
  }

  /** Whether the segment passes the acceptability test, with SEG.LEN as
      the engine computes it. */
  predicate Acceptable(t: Tcb, s: Seg) {
    IsSegmentValid(t.rcv.nxt, t.rcv.wnd, s.seqNo, SegLen(s))
  }

  /** An acceptable RST ends processing in SYN-RECEIVED and in the states
      where it resets the connection. */
  predicate RstStops(t: Tcb, s: Seg) {
    s.rst && (t.state == SynRcvd || RstResets(t.state))
  }

  /** A SYN ends processing in a passively opened SYN-RECEIVED and in every
      later synchronized state. */
  predicate SynStops(t: Tcb, s: Seg) {
    s.syn && (if t.state == SynRcvd then t.kind == Passive else Synchronized(t.state))
  }

  /** The first five checks of a synchronized state: the sequence number,
      RST, SYN and the ACK bit. `None` means processing continues. */
  function Screen(t: Tcb, s: Seg): (r: Option<Outcome>)
    ensures !Acceptable(t, s) ==>
              r == Some(Next(t, Noop, if s.rst then [] else [AckOut(t.snd.nxt, t.rcv.nxt, t.rcv.wnd)]))
    ensures Acceptable(t, s) && s.rst && t.state == SynRcvd ==>
              r == Some(Next(t, if t.kind == Passive then RemoveFromPending else ConnectionRefused, []))
    ensures Acceptable(t, s) && s.rst && RstResets(t.state) ==>
              r == Some(Next(t.(reset := true), Reset, []))
    ensures Acceptable(t, s) && !RstStops(t, s) && SynStops(t, s) ==>
              r == Some(Next(t, if t.state == SynRcvd then RemoveFromPending else Reset,
                             if t.state == SynRcvd then [] else [ResetReply(s)]))
    ensures Acceptable(t, s) && !RstStops(t, s) && !SynStops(t, s) && !s.ack ==>
              r == Some(Next(t, Noop, []))
    ensures r.None? <==> Acceptable(t, s) && !RstStops(t, s) && !SynStops(t, s) && s.ack
  {
    if !Acceptable(t, s) then
      Some(Next(t, Noop, if s.rst then [] else [AckOut(t.snd.nxt, t.rcv.nxt, t.rcv.wnd)]))
    else if s.rst && t.state == SynRcvd then
      Some(Next(t, if t.kind == Passive then RemoveFromPending else ConnectionRefused, []))
    else if s.rst && RstResets(t.state) then
      Some(Next(t.(reset := true), Reset, []))
    else if s.syn && t.state == SynRcvd && t.kind == Passive then
      Some(Next(t, RemoveFromPending, []))
    else if s.syn && t.state != SynRcvd && Synchronized(t.state) then
      Some(Next(t, Reset, [ResetReply(s)]))
    else if !s.ack then
      Some(Next(t, Noop, []))
    else
      None
  }

  /** The send-window update test: SND.UNA-1 < SEG.ACK =< SND.NXT and the
      segment is newer than the last update; as written, SND.WL2 is compared
      with SEG.SEQ+1 rather than with SEG.ACK. */
  predicate WindowUpdateApplies(t: Tcb, s: Seg) {
    && IsBetweenWrapped(WrappingSub(t.snd.una, 1), s.ackNo, WrappingAdd(t.snd.nxt, 1))
    && (WrappingLt(t.snd.wl1, s.seqNo)
        || (t.snd.wl1 == s.seqNo && WrappingLt(t.snd.wl2, WrappingAdd(s.seqNo, 1))))
  }

  /** The send-window update: SND.WND takes SEG.WND, capped at the largest
      window seen, WL1/WL2 record the segment, and the persist timer runs
      exactly when the window is closed. */
  function WindowUpdate(t: Tcb, s: Seg, now: nat): (t': Tcb)
    ensures !WindowUpdateApplies(t, s) ==> t' == t
    ensures WindowUpdateApplies(t, s) ==>
              && t'.snd == t.snd.(wnd := Min(s.window, t.snd.maxWnd), wl1 := s.seqNo, wl2 := s.ackNo)
              && t'.snd.wnd <= t.snd.maxWnd
              && (t'.probeTimeout.Some? <==> t'.snd.wnd == 0)
              && (t'.snd.wnd == 0 ==> t'.probeTimeout == Some(now + t.rtt.rto))
              && t' == t.(snd := t'.snd, probeTimeout := t'.probeTimeout)
  {
    if WindowUpdateApplies(t, s) then
      var wnd := if s.window > t.snd.maxWnd then t.snd.maxWnd else s.window;
      t.(snd := t.snd.(wnd := wnd, wl1 := s.seqNo, wl2 := s.ackNo),
         probeTimeout := if wnd == 0 then Some(now + t.rtt.rto) else None)
    else t
  }

  /** A step never changes how the connection was opened, and never closes
      the write half. */
  predicate Keeps(t: Tcb, t': Tcb) {
    t'.kind == t.kind && t'.writeClosed == t.writeClosed
  }

  /** The segment-driven transitions of the state diagram of section 3.3.2
      of RFC 9293 (figure 5), with the FIN transition out of SYN-RECEIVED of
      section 3.10.7.4, plus staying in place. */
  predicate DiagramEdge(a: State, b: State) {
    || a == b
    || (a == Listen && b == SynRcvd)
    || (a == SynSent && (b == SynRcvd || b == Estab))
    || (a == SynRcvd && (b == Estab || b == CloseWait))
    || (a == Estab && b == CloseWait)
    || (a == FinWait1 && (b == FinWait2 || b == Closing || b == TimeWait))
    || (a == FinWait2 && b == TimeWait)
    || (a == Closing && b == TimeWait)
  }

  /** The result of a processing phase that may end the step. */
  datatype Phase =
    | Stop(o: Outcome)
    | Go(t: Tcb, out: seq<Emit>, writer: bool)

  /** The TCB after an acceptable ACK: cwnd grows, the retransmission queue
      is updated and any RTT sample feeds the RTO estimator. */
  function AcceptAck(t: Tcb, ack: u32, now: nat): (p: Phase)
    ensures !NoOverflow(t.cwnd, t.ssthresh, t.snd.mss) ==> p == Stop(Panic(Overflow, []))
    ensures NoOverflow(t.cwnd, t.ssthresh, t.snd.mss) ==>
              var t1 := t.(cwnd := CongestionControl(t.cwnd, t.ssthresh, t.snd.mss));
              && (!AckSafe(StartState(t1), ack) ==> p == Stop(Panic(AckQueue, [])))
              && (AckSafe(StartState(t1), ack) ==>
                    var r := ProcessAck(t1, ack, now);
                    && p.Go? && p.out == [] && !p.writer
                    && p.t == r.t.(rtt := p.t.rtt)
                    && (r.sample.Some? ==> p.t.rtt == ComputeRto(t.rtt, r.sample.value))
                    && (r.sample.None? ==> p.t.rtt == t.rtt))
    ensures p.Go? ==> p.t.state == t.state && Keeps(t, p.t) && p.t.snd.una == ack && !p.writer
    ensures p.Go? ==> p.t.cwnd == CongestionControl(t.cwnd, t.ssthresh, t.snd.mss)
    ensures p.Stop? ==> p.o.Panic?
  {
    if !NoOverflow(t.cwnd, t.ssthresh, t.snd.mss) then Stop(Panic(Overflow, []))
    else
      var t1 := t.(cwnd := CongestionControl(t.cwnd, t.ssthresh, t.snd.mss));
      if !AckSafe(StartState(t1), ack) then Stop(Panic(AckQueue, []))
      else
        var r := ProcessAck(t1, ack, now);
        ProcessAckNeverWakesWriter(t1, ack, now);
        var rtt := if r.sample.Some? then ComputeRto(r.t.rtt, r.sample.value) else r.t.rtt;
        Go(r.t.(rtt := rtt), [], r.canWrite)
  }

  /** LAST-ACK: the ACK is processed whatever its value, and the TCB is
      deleted once our FIN is acknowledged. */
  function LastAckPhase(t: Tcb, ack: u32, now: nat): (p: Phase)
    ensures !AckSafe(StartState(t), ack) ==> p == Stop(Panic(AckQueue, []))
    ensures AckSafe(StartState(t), ack) ==>
              var t' := ProcessAck(t, ack, now).t;
              p == (if IsFinAcked(t') then Stop(Next(t', DeleteTcb, [])) else Go(t', [], false))
    ensures p.Go? ==> p.t.state == t.state && Keeps(t, p.t) && p.out == [] && !p.writer
    ensures p.Stop? && p.o.Next? ==>
              p.o.t.state == t.state && Keeps(t, p.o.t) && p.o.action == DeleteTcb && IsFinAcked(p.o.t)
  {
    if !AckSafe(StartState(t), ack) then Stop(Panic(AckQueue, []))
    else
      var t' := ProcessAck(t, ack, now).t;
      if IsFinAcked(t') then Stop(Next(t', DeleteTcb, [])) else Go(t', [], false)
  }

  /** The ACK field check of ESTABLISHED, the FIN-WAIT states, CLOSE-WAIT,
      CLOSING, LAST-ACK and TIME-WAIT. */
  function AckPhase(t: Tcb, s: Seg, now: nat): (p: Phase)
    ensures AckUpdates(t.state) && AckAcceptable(t, s.ackNo) ==>
              p == (var a := AcceptAck(t, s.ackNo, now);
                    if a.Stop? then a else Go(WindowUpdate(a.t, s, now), [], false))
    ensures AckUpdates(t.state) && !AckAcceptable(t, s.ackNo) && WrappingLt(t.snd.nxt, s.ackNo) ==>
              p == Stop(Next(t, Noop, [AckOut(t.snd.nxt, t.rcv.nxt, t.rcv.wnd)]))
    ensures AckUpdates(t.state) && !AckAcceptable(t, s.ackNo) && !WrappingLt(t.snd.nxt, s.ackNo) ==>
              p == Go(WindowUpdate(t, s, now), [], false)
    ensures t.state == LastAck ==> p == LastAckPhase(t, s.ackNo, now)
    ensures t.state == TimeWait ==>
              p == Go(t.(timeWait := Some(now + TIME_WAIT_MS)), [AckOut(t.snd.nxt, t.rcv.nxt, t.rcv.wnd)], false)
    ensures !AckUpdates(t.state) && t.state != LastAck && t.state != TimeWait ==> p == Go(t, [], false)
    ensures p.Go? ==> p.t.state == t.state && Keeps(t, p.t)
    ensures p.Stop? && p.o.Next? ==> p.o.t.state == t.state && Keeps(t, p.o.t)
    ensures p.Stop? && p.o.Next? && p.o.action == DeleteTcb ==> t.state == LastAck && IsFinAcked(p.o.t)
  {
    if AckUpdates(t.state) then
      if AckAcceptable(t, s.ackNo) then
        var a := AcceptAck(t, s.ackNo, now);
        if a.Stop? then a else Go(WindowUpdate(a.t, s, now), [], a.writer)
      else if WrappingLt(t.snd.nxt, s.ackNo) then
        Stop(Next(t, Noop, [AckOut(t.snd.nxt, t.rcv.nxt, t.rcv.wnd)]))
      else
        Go(WindowUpdate(t, s, now), [], false)
    else if t.state == LastAck then
      LastAckPhase(t, s.ackNo, now)
    else if t.state == TimeWait then
      Go(t.(timeWait := Some(now + TIME_WAIT_MS)), [AckOut(t.snd.nxt, t.rcv.nxt, t.rcv.wnd)], false)
    else
      Go(t, [], false)
  }

  /** The result of delivering segment text. */
  datatype TextResult =
    | TextPanic
    | Accepted(t: Tcb, out: seq<Emit>, reader: bool, fin: bool)

  /** Data acceptance in ESTABLISHED and the FIN-WAIT states: skip the
      bytes before RCV.NXT, take as many of the rest as RCV.WND allows and
      append them to the receive buffer, advance RCV.NXT over them (and
      over the FIN when the whole segment fit) and shrink RCV.WND by the
      same count. An ACK is written when RCV.NXT moved or the window was
      closed. A segment starting after RCV.NXT makes the source's length
      subtraction underflow. */
  function AcceptText(t: Tcb, s: Seg): (r: TextResult)
    ensures r.TextPanic? <==> Dist(s.seqNo, t.rcv.nxt) > |s.data|
    ensures r.Accepted? ==> r == Deliver(t, s, Dist(s.seqNo, t.rcv.nxt))
  {
    var skip := Dist(s.seqNo, t.rcv.nxt);
    if skip > |s.data| then TextPanic
    else Deliver(t, s, skip)
  }

  /** Delivery of the text after the first `skip` bytes, which lie before
      RCV.NXT. */
  function Deliver(t: Tcb, s: Seg, skip: nat): (r: TextResult)
    requires skip <= |s.data|
    ensures r.Accepted?
    ensures var acc := Min(|s.data| - skip, t.rcv.wnd);
      && r.t.incoming == t.incoming + s.data[skip..skip + acc]
      && (r.fin <==> s.fin && acc == |s.data| - skip)
      && r.t.rcv == t.rcv.(nxt := WrappingAdd(t.rcv.nxt, acc + (if r.fin then 1 else 0)),
                           wnd := t.rcv.wnd - acc)
      && (r.reader <==> acc > 0)
      && (r.out != [] <==> acc > 0 || r.fin || t.rcv.wnd == 0)
      && (r.out != [] ==> r.out == [AckOut(t.snd.nxt, r.t.rcv.nxt, r.t.rcv.wnd)])
      && r.t == t.(incoming := r.t.incoming, inCap := r.t.inCap, rcv := r.t.rcv)
  {
    var acc := Min(|s.data| - skip, t.rcv.wnd);
    var fin := s.fin && acc == |s.data| - skip;
    var f := if fin then 1 else 0;
    AdvanceSmall(t.rcv.nxt, acc, f);
    var rcv := t.rcv.(nxt := WrappingAdd(WrappingAdd(t.rcv.nxt, acc), f), wnd := t.rcv.wnd - acc);
    Accepted(t.(incoming := t.incoming + s.data[skip..skip + acc],
                inCap := GrowFor(t.inCap, |t.incoming| + acc),
                rcv := rcv),
             if WrappingLt(t.rcv.nxt, rcv.nxt) || t.rcv.wnd == 0 then [AckOut(t.snd.nxt, rcv.nxt, rcv.wnd)] else [],
             acc > 0, fin)
  }

  /** Accepting text keeps the receive buffer able to hold the whole
      advertised window: the bytes taken come out of RCV.WND, so the
      capacity need not grow. */
  lemma TextKeepsRecvBuffer(t: Tcb, s: Seg)
    requires RecvBufferOk(t) && AcceptText(t, s).Accepted?
    ensures AcceptText(t, s).t.inCap == t.inCap
    ensures RecvBufferOk(AcceptText(t, s).t)
  {
  }

  /** RCV.NXT advanced over accepted bytes and a FIN: the two wrapping
      additions are one, and the result lies ahead exactly when something
      was consumed. */
  lemma AdvanceSmall(a: u32, acc: nat, f: nat)
    requires acc < 0x1_0000 && f <= 1
    ensures WrappingAdd(WrappingAdd(a, acc), f) == WrappingAdd(a, acc + f)
    ensures WrappingLt(a, WrappingAdd(a, acc + f)) <==> acc + f > 0
  {
    if acc + f > 0 {
      AdvanceIsLater(a, acc + f);
    }
  }

  /** FIN processing: SYN-RECEIVED and ESTABLISHED enter CLOSE-WAIT and
      close the read half; FIN-WAIT-1 enters TIME-WAIT when our FIN is
      acknowledged and CLOSING otherwise; FIN-WAIT-2 enters TIME-WAIT;
      TIME-WAIT restarts its timer. `None` means the step ends with `Noop`. */
  function FinPhase(t: Tcb, now: nat): (r: Option<Tcb>)
    ensures r.None? <==>
              t.state == CloseWait || t.state == Closing || t.state == LastAck || !Synchronized(t.state)
    ensures t.state == SynRcvd || t.state == Estab ==> r == Some(t.(state := CloseWait, readClosed := true))
    ensures t.state == FinWait1 && !IsFinAcked(t) ==> r == Some(t.(state := Closing))
    ensures (t.state == FinWait1 && IsFinAcked(t)) || t.state == FinWait2 ==>
              r == Some(t.(state := TimeWait, timeout := None, timeWait := Some(now + TIME_WAIT_MS)))
    ensures t.state == TimeWait ==> r == Some(t.(timeWait := Some(now + TIME_WAIT_MS)))
  {
    match t.state
    case Listen => None
    case SynSent => None
    case SynRcvd => Some(t.(state := CloseWait, readClosed := true))
    case Estab => Some(t.(state := CloseWait, readClosed := true))
    case FinWait1 =>
      if IsFinAcked(t) then Some(t.(state := TimeWait, timeout := None, timeWait := Some(now + TIME_WAIT_MS)))
      else Some(t.(state := Closing))
    case FinWait2 => Some(t.(state := TimeWait, timeout := None, timeWait := Some(now + TIME_WAIT_MS)))
    case CloseWait => None
    case Closing => None
    case LastAck => None
    case TimeWait => Some(t.(timeWait := Some(now + TIME_WAIT_MS)))
  }

  /** The end of a step: FIN processing when a FIN is to be consumed, then
      the wake-up request. */
  function Finish(t: Tcb, fin: bool, out: seq<Emit>, reader: bool, writer: bool, closer: bool, now: nat): (o: Outcome)
    ensures o.Next? && o.out == out
    ensures !fin ==> o == Next(t, Wakeup(reader, writer, closer), out)
    ensures fin && FinPhase(t, now).None? ==> o == Next(t, Noop, out)
    ensures fin && FinPhase(t, now).Some? ==>
              o == Next(FinPhase(t, now).value,
                        Wakeup(reader || t.state == SynRcvd || t.state == Estab, writer, closer), out)
  {
    if !fin then Next(t, Wakeup(reader, writer, closer), out)
    else
      var f := FinPhase(t, now);
      if f.None? then Next(t, Noop, out)
      else Next(f.value, Wakeup(reader || t.state == SynRcvd || t.state == Estab, writer, closer), out)
  }

  /** After the ACK phase: FIN-WAIT-1 with its FIN acknowledged enters
      FIN-WAIT-2, FIN-WAIT-2 wakes the closer, then text and FIN. */
  function AfterAck(t: Tcb, s: Seg, out: seq<Emit>, writer: bool, now: nat): (o: Outcome)
    ensures |o.out| >= |out| && o.out[..|out|] == out
    ensures o.Next? ==> Keeps(t, o.t) && DiagramEdge(t.state, o.t.state)
    ensures o.Next? ==> o.action.Wakeup? || o.action == Noop
    ensures o.Next? ==> o.t.snd == t.snd && o.t.cwnd == t.cwnd
    ensures o.Panic? ==> o.reason == Underflow
  {
    var t1 := if t.state == FinWait1 && IsFinAcked(t) then t.(state := FinWait2) else t;
    var closer := t1.state == FinWait2;
    if TakesText(t1.state) then
      match AcceptText(t1, s)
      case TextPanic => Panic(Underflow, out)
      case Accepted(t2, out2, reader, fin) => Finish(t2, fin, out + out2, reader, writer, closer, now)
    else
      Finish(t1, s.fin, out, false, writer, closer, now)
  }

  /** Segment arrival in a synchronized state. */
  function SynchronizedStep(t: Tcb, s: Seg, now: nat): (o: Outcome)
    requires Synchronized(t.state)
    ensures o.Next? ==> Keeps(t, o.t) && DiagramEdge(t.state, o.t.state)
    ensures o.Next? && o.action == DeleteTcb ==> t.state == LastAck && IsFinAcked(o.t)
  {
    match Screen(t, s)
    case Some(o) => o
    case None =>
      if t.state == SynRcvd then
        if AckAcceptable(t, s.ackNo) then SynRcvdAckAsWritten(t, s)
        else Next(t, Noop, [ResetReply(s)])
      else
        match AckPhase(t, s, now)
        case Stop(o) => o
        case Go(t1, out, writer) => AfterAck(t1, s, out, writer, now)
  }

  /** `TCB::on_segment`: every state change follows the state diagram, the
      write half is never closed here, and the TCB is deleted only from
      LAST-ACK once our FIN is acknowledged. */
  function OnSegment(t: Tcb, s: Seg, now: nat): (o: Outcome)
    ensures o.Next? ==> Keeps(t, o.t) && DiagramEdge(t.state, o.t.state)
    ensures o.Next? && o.action == DeleteTcb ==> t.state == LastAck && IsFinAcked(o.t)
  {
    if t.state == Listen then ListenStep(t, s)
    else if t.state == SynSent then SynSentStep(t, s)
    else SynchronizedStep(t, s, now)
  }

  /** A segment that passes the first five checks of a synchronized state:
      acceptable, with the ACK bit and neither RST nor SYN. */
  predicate PlainAck(t: Tcb, s: Seg) {
    Acceptable(t, s) && s.ack && !s.rst && !s.syn
  }

  /** The passive three-way handshake: from LISTEN a SYN leads to
      SYN-RECEIVED with the SYN,ACK queued, and the peer's ACK of ISS+1 at
      RCV.NXT then reaches ESTABLISHED with the queue empty and the timer
      off. SND.UNA is not advanced on that ACK, so the acknowledged SYN
      stays counted as in flight. */
  lemma PassiveOpenHandshake(iss: u32, syn: Seg, ack: Seg, now: nat, later: nat)
    requires syn.syn && !syn.ack && !syn.rst
    requires ack.ack && !ack.rst && !ack.syn
    requires ack.seqNo == WrappingAdd(syn.seqNo, 1) && ack.ackNo == WrappingAdd(iss, 1)
    ensures var o1 := OnSegment(ListenTcb(iss), syn, now);
      && o1.Next? && o1.action == AddToPending && o1.out == [] && o1.t.state == SynRcvd
      && o1.t.rcv.nxt == WrappingAdd(syn.seqNo, 1) && o1.t.rcv.irs == syn.seqNo
      && o1.t.snd.nxt == WrappingAdd(iss, 1) && |o1.t.segments| == 1
      && var o2 := OnSegment(o1.t, ack, later);
      && o2.Next? && o2.action == IsEstablished && o2.out == []
      && o2.t.state == Estab && o2.t.segments == [] && o2.t.timeout.None?
      && o2.t.snd.wnd == ack.window && o2.t.snd.una == iss && SentLen(o2.t) == 1
  {
    var t0 := ListenTcb(iss);
    var o1 := OnSegment(t0, syn, now);
    var t1 := o1.t;
    AdvanceIsLater(iss, 1);
    AdvanceIsLater(iss, 2);
    assert WrappingAdd(WrappingAdd(iss, 1), 1) == WrappingAdd(iss, 2);
    assert AckAcceptable(t1, ack.ackNo) by {
      BetweenIsOpenInterval(iss, ack.ackNo, WrappingAdd(iss, 2));
    }
    assert Acceptable(t1, ack) by {
      assert InWindow(t1.rcv.nxt, t1.rcv.wnd, ack.seqNo);
    }
    assert Screen(t1, ack).None?;
  }

  /** As written, the passive open leaves the acknowledged SYN in flight,
      so the first data segment written after ESTABLISHED goes out at ISS+1
      starting with the second byte the application wrote: the first byte
      is never sent; and a CLOSE with nothing queued underflows. */
  lemma PassiveOpenSkipsFirstByte(iss: u32, syn: Seg, ack: Seg, now: nat, later: nat, data: seq<byte>)
    requires syn.syn && !syn.ack && !syn.rst && syn.mss.None?
    requires ack.ack && !ack.rst && !ack.syn && 0 < ack.window
    requires ack.seqNo == WrappingAdd(syn.seqNo, 1) && ack.ackNo == WrappingAdd(iss, 1)
    requires 2 <= |data|
    ensures var o2 := OnSegment(OnSegment(ListenTcb(iss), syn, now).t, ack, later);
      && o2.Next? && SentLen(o2.t) == 1 && Close(o2.t) == CloseUnderflows
      && var t2 := o2.t.(outgoing := data);
      && SentLen(t2) <= |t2.outgoing| && 0 < ToBeSent(t2)
      && var e := SendNewData(t2, later).1;
      && e.seqNo == WrappingAdd(iss, 1) && 0 < |e.data|
      && e.data == data[1..1 + |e.data|]
  {
    PassiveOpenHandshake(iss, syn, ack, now, later);
    AdvanceIsLater(iss, 1);
  }

  /** With SYN-RECEIVED corrected, the same exchange sends the written bytes
      from the first one on, at ISS+1, and a CLOSE with nothing queued
      succeeds. */
  lemma PassiveOpenSendsFirstByte(iss: u32, syn: Seg, ack: Seg, now: nat, later: nat, data: seq<byte>)
    requires syn.syn && !syn.ack && !syn.rst && syn.mss.None?
    requires ack.ack && !ack.rst && !ack.syn && 0 < ack.window
    requires ack.seqNo == WrappingAdd(syn.seqNo, 1) && ack.ackNo == WrappingAdd(iss, 1)
    requires 1 <= |data|
    ensures var o2 := SynRcvdAck(OnSegment(ListenTcb(iss), syn, now).t, ack);
      && o2.Next? && SentLen(o2.t) == 0 && Close(o2.t).Closed?
      && var t2 := o2.t.(outgoing := data);
      && SentLen(t2) <= |t2.outgoing| && 0 < ToBeSent(t2)
      && var e := SendNewData(t2, later).1;
      && e.seqNo == WrappingAdd(iss, 1) && 0 < |e.data|
      && e.data == data[..|e.data|]
  {
    PassiveOpenHandshake(iss, syn, ack, now, later);
  }

  /** The active handshake: from the SYN-SENT TCB of an active open, a
      SYN,ACK acknowledging ISS+1 reaches ESTABLISHED at once, with nothing
      outstanding, the queue empty and the timer off, and an ACK of the
      peer's SYN is written. */
  lemma ActiveOpenHandshake(iss: u32, s: Seg, now: nat)
    requires s.syn && s.ack && !s.rst && s.ackNo == WrappingAdd(iss, 1)
    ensures var o := OnSegment(SynSentTcb(iss), s, now);
      && o.Next? && o.action == IsEstablished
      && o.t.state == Estab && o.t.segments == [] && o.t.timeout.None?
      && SentLen(o.t) == 0 && o.t.rcv.nxt == WrappingAdd(s.seqNo, 1)
      && o.out == [AckOut(WrappingAdd(iss, 1), WrappingAdd(s.seqNo, 1), s.window)]
  {
    var t := SynSentTcb(iss);
    AdvanceIsLater(iss, 1);
    AdvanceIsLater(iss, 2);
    assert WrappingAdd(WrappingAdd(iss, 1), 1) == WrappingAdd(iss, 2);
    BetweenIsOpenInterval(iss, s.ackNo, WrappingAdd(iss, 2));
    assert AckAcceptable(t, s.ackNo);
    assert SynSentProceeds(t, s);
  }

  /** In SYN-SENT an ACK outside (SND.UNA, SND.NXT] is answered with a
      reset and changes nothing, whatever else the segment carries. */
  lemma SynSentRejectsBadAck(t: Tcb, s: Seg, now: nat)
    requires t.state == SynSent && s.ack && !AckAcceptable(t, s.ackNo)
    ensures OnSegment(t, s, now) == Next(t, Noop, [ResetReply(s)])
  {
  }

  /** An acceptable SYN in any synchronized state after SYN-RECEIVED is
      answered with a reset and resets the connection. */
  lemma SynInSynchronizedStateResets(t: Tcb, s: Seg, now: nat)
    requires Synchronized(t.state) && t.state != SynRcvd
    requires Acceptable(t, s) && s.syn && !s.rst
    ensures OnSegment(t, s, now) == Next(t, Reset, [ResetReply(s)])
  {
  }

  /** RST handling: an unacceptable RST is dropped silently; an acceptable
      one removes a passive SYN-RECEIVED connection from the pending set,
      refuses an active one, and resets ESTABLISHED, the FIN-WAIT states
      and CLOSE-WAIT. */
  lemma RstHandling(t: Tcb, s: Seg, now: nat)
    requires Synchronized(t.state) && s.rst
    ensures !Acceptable(t, s) ==> OnSegment(t, s, now) == Next(t, Noop, [])
    ensures Acceptable(t, s) && t.state == SynRcvd ==>
              OnSegment(t, s, now) == Next(t, if t.kind == Passive then RemoveFromPending else ConnectionRefused, [])
    ensures Acceptable(t, s) && RstResets(t.state) ==>
              OnSegment(t, s, now) == Next(t.(reset := true), Reset, [])
  {
  }

  /** An ACK beyond SND.NXT in a state that processes ACKs is answered with
      an ACK and changes nothing. */
  lemma AckOfUnsentDataAnswered(t: Tcb, s: Seg, now: nat)
    requires AckUpdates(t.state) && PlainAck(t, s)
    requires !AckAcceptable(t, s.ackNo) && WrappingLt(t.snd.nxt, s.ackNo)
    ensures OnSegment(t, s, now) == Next(t, Noop, [AckOut(t.snd.nxt, t.rcv.nxt, t.rcv.wnd)])
  {
    assert Screen(t, s).None?;
  }

  /** Past the first five checks of a synchronized state after
      SYN-RECEIVED, a step is the ACK phase followed by text and FIN. */
  lemma StepAfterScreen(t: Tcb, s: Seg, now: nat)
    requires Synchronized(t.state) && t.state != SynRcvd && PlainAck(t, s)
    ensures Screen(t, s).None?
    ensures OnSegment(t, s, now) == match AckPhase(t, s, now)
      case Stop(o) => o
      case Go(t1, out, writer) => AfterAck(t1, s, out, writer, now)
  {
  }

  /** An acceptable ACK in ESTABLISHED sets SND.UNA to it and grows cwnd;
      past the ACK phase only data acceptance can still fail. */
  lemma EstabAckAdvancesUna(t: Tcb, s: Seg, now: nat)
    requires t.state == Estab && PlainAck(t, s) && AckAcceptable(t, s.ackNo)
    requires NoOverflow(t.cwnd, t.ssthresh, t.snd.mss)
    requires AckSafe(StartState(t.(cwnd := CongestionControl(t.cwnd, t.ssthresh, t.snd.mss))), s.ackNo)
    ensures var o := OnSegment(t, s, now);
      && (o.Panic? ==> o.reason == Underflow)
      && (o.Next? ==> o.t.snd.una == s.ackNo && o.t.cwnd == CongestionControl(t.cwnd, t.ssthresh, t.snd.mss))
  {
    StepAfterScreen(t, s, now);
    EstabAckPhase(t, s, now);
  }

  /** The ACK phase of the step above: it goes on, with SND.UNA at the ACK
      and cwnd grown once. */
  lemma EstabAckPhase(t: Tcb, s: Seg, now: nat)
    requires t.state == Estab && AckAcceptable(t, s.ackNo)
    requires NoOverflow(t.cwnd, t.ssthresh, t.snd.mss)
    requires AckSafe(StartState(t.(cwnd := CongestionControl(t.cwnd, t.ssthresh, t.snd.mss))), s.ackNo)
    ensures var p := AckPhase(t, s, now);
      && p.Go? && p.t.snd.una == s.ackNo && p.t.cwnd == CongestionControl(t.cwnd, t.ssthresh, t.snd.mss)
  {
    var a := AcceptAck(t, s.ackNo, now);
    assert a.Go? && a.t.snd.una == s.ackNo;
  }

  /** A FIN at RCV.NXT, with no text and a duplicate ACK, takes ESTABLISHED
      to CLOSE-WAIT: RCV.NXT moves past the FIN, an ACK of it is written,
      the read half is closed and the reader is woken. */
  lemma EstabFinMovesToCloseWait(t: Tcb, s: Seg, now: nat)
    requires t.state == Estab && 0 < t.rcv.wnd && SentLen(t) < HALF
    requires s.ack && !s.rst && !s.syn && s.fin && s.data == []
    requires s.seqNo == t.rcv.nxt && s.ackNo == t.snd.una
    ensures var o := OnSegment(t, s, now);
      && o.Next? && o.action == Wakeup(true, false, false)
      && o.t.state == CloseWait && o.t.readClosed
      && o.t.rcv.nxt == WrappingAdd(t.rcv.nxt, 1)
      && o.out == [AckOut(t.snd.nxt, WrappingAdd(t.rcv.nxt, 1), t.rcv.wnd)]
  {
    assert InWindow(t.rcv.nxt, t.rcv.wnd, s.seqNo);
    StepAfterScreen(t, s, now);
    DuplicateAckPhase(t, s, now);
    EstabFinText(WindowUpdate(t, s, now), s, now);
  }

  /** The text and FIN part of the step above, from the TCB the ACK phase
      leaves. */
  lemma EstabFinText(t: Tcb, s: Seg, now: nat)
    requires t.state == Estab && 0 < t.rcv.wnd
    requires s.fin && s.data == [] && s.seqNo == t.rcv.nxt
    ensures var o := AfterAck(t, s, [], false, now);
      && o.Next? && o.action == Wakeup(true, false, false)
      && o.t.state == CloseWait && o.t.readClosed
      && o.t.rcv.nxt == WrappingAdd(t.rcv.nxt, 1)
      && o.out == [AckOut(t.snd.nxt, WrappingAdd(t.rcv.nxt, 1), t.rcv.wnd)]
  {
    var x := AcceptText(t, s);
    assert x.Accepted? && x.fin && !x.reader;
    AdvanceIsLater(t.rcv.nxt, 1);
  }

  /** In TIME-WAIT a retransmitted FIN is acknowledged and the 2 x MSL
      timer restarted; the connection stays in TIME-WAIT. */
  lemma TimeWaitFinRestartsTimer(t: Tcb, s: Seg, now: nat)
    requires t.state == TimeWait && PlainAck(t, s) && s.fin
    ensures var o := OnSegment(t, s, now);
      && o.Next? && o.t.state == TimeWait && o.t.timeWait == Some(now + TIME_WAIT_MS)
      && o.out == [AckOut(t.snd.nxt, t.rcv.nxt, t.rcv.wnd)]
      && o.action == Wakeup(false, false, false)
  {
    StepAfterScreen(t, s, now);
  }

  /** Nothing in the engine closes the write half, so from LAST-ACK with
      the write half open, no segment deletes the TCB. */
  lemma LastAckNeverDeletes(t: Tcb, s: Seg, now: nat)
    requires t.state == LastAck && !t.writeClosed
    ensures var o := OnSegment(t, s, now);
      o.Next? ==> o.action != DeleteTcb && o.t.state == LastAck
  {
    var o := OnSegment(t, s, now);
    if o.Next? && o.action == DeleteTcb {
      FinAckedNeedsWriteClosed(o.t);
    }
  }

  /** Likewise FIN-WAIT-1 never sees its FIN acknowledged: a FIN from the
      peer leads to CLOSING, never to FIN-WAIT-2 or TIME-WAIT. */
  lemma FinWait1NeverAdvances(t: Tcb, s: Seg, now: nat)
    requires t.state == FinWait1 && !t.writeClosed
    ensures var o := OnSegment(t, s, now);
      o.Next? ==> o.t.state == FinWait1 || o.t.state == Closing
  {
    if PlainAck(t, s) {
      StepAfterScreen(t, s, now);
      var p := AckPhase(t, s, now);
      if p.Go? {
        FinAckedNeedsWriteClosed(p.t);
        var x := AcceptText(p.t, s);
        if x.Accepted? {
          FinAckedNeedsWriteClosed(x.t);
        }
      }
    }
  }

  /** CLOSING is never left on a segment: the source has no transition to
      TIME-WAIT when the FIN is acknowledged there. */
  lemma ClosingIsNeverLeft(t: Tcb, s: Seg, now: nat)
    requires t.state == Closing
    ensures var o := OnSegment(t, s, now);
      o.Next? ==> o.t.state == Closing
  {
  }

  /** Acceptable text that starts after RCV.NXT (and is shorter than the
      distance back around the sequence space) panics: the source's count of
      already-received bytes wraps to a huge number and the subtraction
      from the payload length underflows. */
  lemma FutureDataPanics(t: Tcb, s: Seg, now: nat)
    requires t.state == Estab && SentLen(t) < HALF
    requires s.ack && !s.rst && !s.syn && s.ackNo == t.snd.una
    requires 0 < Dist(t.rcv.nxt, s.seqNo) < t.rcv.wnd && |s.data| < 0x1_0000
    ensures OnSegment(t, s, now) == Panic(Underflow, [])
  {
    assert InWindow(t.rcv.nxt, t.rcv.wnd, s.seqNo);
    StepAfterScreen(t, s, now);
    DuplicateAckPhase(t, s, now);
    var p := AckPhase(t, s, now);
    assert Dist(s.seqNo, p.t.rcv.nxt) == MOD - Dist(t.rcv.nxt, s.seqNo);
  }

  /** Without a FIN, accepting text leaves the right edge of the receive
      window, RCV.NXT + RCV.WND, where it was. */
  lemma TextKeepsRightEdge(t: Tcb, s: Seg)
    requires AcceptText(t, s).Accepted? && !AcceptText(t, s).fin
    ensures var t' := AcceptText(t, s).t;
      WrappingAdd(t'.rcv.nxt, t'.rcv.wnd) == WrappingAdd(t.rcv.nxt, t.rcv.wnd)
  {
    var t' := AcceptText(t, s).t;
    var acc := t.rcv.wnd - t'.rcv.wnd;
    assert t'.rcv.nxt == WrappingAdd(t.rcv.nxt, acc);
    AddInRange(t.rcv.nxt, acc);
    AddInRange(t.rcv.nxt, t.rcv.wnd);
    AddInRange(t'.rcv.nxt, t'.rcv.wnd);
  }

  /** A wrapping addition of a value below 2^32 wraps at most once. */
  lemma AddInRange(a: u32, b: nat)
    requires b < MOD
    ensures WrappingAdd(a, b) == if a + b < MOD then a + b else a + b - MOD
  {
  }

  /** An ACK equal to SND.UNA, with less than half the sequence space
      outstanding, is neither acceptable nor ahead of SND.NXT: only the
      send-window update applies. */
  lemma DuplicateAckPhase(t: Tcb, s: Seg, now: nat)
    requires AckUpdates(t.state) && s.ackNo == t.snd.una && SentLen(t) < HALF
    ensures AckPhase(t, s, now) == Go(WindowUpdate(t, s, now), [], false)
  {
    assert !AckAcceptable(t, s.ackNo);
    assert !WrappingLt(t.snd.nxt, s.ackNo) by {
      assert Dist(t.snd.nxt, t.snd.una) == 0 || Dist(t.snd.nxt, t.snd.una) == MOD - SentLen(t);
    }
  }
}
