/**
 The earlier, smaller engine of mod.rs: LISTEN, SYN-RECEIVED and
 ESTABLISHED with the RST and SYN checks, data acceptance without FIN
 handling, and an ACK loop over a queue of data segments. Its `+ 1` on
 sequence numbers and its segment-end arithmetic do not wrap, so they can
 panic; states it does not handle end in `todo!()`, also a panic.
 */
module OldEngine {
  import opened Wrappers
  import opened SeqNum
  import opened Segments
  import opened Acceptability
  import opened Rto
  import opened TcbState

  /** A queued data segment: its first sequence number, how far it is
      acknowledged, its payload, whether it was retransmitted and when it
      was first sent. */
  datatype OldSeg = OldSeg(segno: u32, una: u32, data: seq<byte>, retry: bool, birth: nat)

  datatype OldSend = OldSend(una: u32, nxt: u32, wnd: u16, wl1: u32, wl2: u32, iss: u32)

  datatype OldRecv = OldRecv(nxt: u32, wnd: u16, irs: u32)

  datatype OldTcb = OldTcb(
    kind: Kind,
    state: State,
    reset: bool,
    snd: OldSend,
    rcv: OldRecv,
    rtt: RttEstimator,
    incoming: seq<byte>,
    outgoing: seq<OldSeg>)

  datatype OldAction = Noop | AddToPending | RemoveFromPending | IsEstablished | Reset | WakeUpReader

  datatype OldPanic =
      /** a non-wrapping `u32` addition overflows */
    | Overflow
      /** a subtraction underflows */
    | Underflow
      /** `todo!()`: a state the engine does not handle */
    | Unimplemented

  datatype OldOutcome =
    | Next(t: OldTcb, action: OldAction, out: seq<Emit>)
    | Panic(reason: OldPanic, out: seq<Emit>)

  /** `TCB::listen` of mod.rs: ISS is zero and the receive window is the
      64240-byte buffer capacity. */
  function OldListen(): OldTcb {
    OldTcb(Passive, Listen, false, OldSend(0, 0, 0, 0, 0, 0), OldRecv(0, RCV_BUFF, 0), INITIAL, [], [])
  }

  /** LISTEN: RST ignored, an ACK answered with a reset, a SYN moves to
      SYN-RECEIVED and writes the SYN,ACK at once. */
  function OldListenStep(t: OldTcb, s: Seg): (o: OldOutcome)
    ensures s.rst || s.ack || !s.syn ==>
              o == Next(t, Noop, if !s.rst && s.ack then [ResetReply(s)] else [])
    ensures !s.rst && !s.ack && s.syn ==>
              && (o.Panic? <==> s.seqNo == MAX_U32 || t.snd.iss == MAX_U32)
              && (o.Panic? ==> o == Panic(Overflow, []))
              && (o.Next? ==>
                    && o.action == AddToPending && o.t.state == SynRcvd
                    && o.t.rcv == t.rcv.(nxt := s.seqNo + 1, irs := s.seqNo)
                    && o.t.snd == t.snd.(wnd := s.window, nxt := t.snd.iss + 1)
                    && o.out == [SynAckOut(t.snd.iss, s.seqNo + 1, t.rcv.wnd)]
                    && o.t == t.(state := SynRcvd, rcv := o.t.rcv, snd := o.t.snd))
  {
    if s.rst then Next(t, Noop, [])
    else if s.ack then Next(t, Noop, [ResetReply(s)])
    else if s.syn then
      if s.seqNo + 1 >= MOD || t.snd.iss + 1 >= MOD then Panic(Overflow, [])
      else
        var t' := t.(rcv := t.rcv.(nxt := s.seqNo + 1, irs := s.seqNo),
                     snd := t.snd.(wnd := s.window, nxt := t.snd.iss + 1),
                     state := SynRcvd);
        Next(t', AddToPending, [SynAckOut(t.snd.iss, t'.rcv.nxt, t'.rcv.wnd)])
    else Next(t, Noop, [])
  }

  predicate OldAcceptable(t: OldTcb, s: Seg) {
    IsSegmentValid(t.rcv.nxt, t.rcv.wnd, s.seqNo, SegLen(s))
  }

  /** The sequence-number, RST, SYN and ACK-bit checks. Unlike tcb.rs, an
      RST on an actively opened SYN-RECEIVED connection is not acted on. */
  function OldScreen(t: OldTcb, s: Seg): (r: Option<OldOutcome>)
    ensures !OldAcceptable(t, s) ==>
              r == Some(Next(t, Noop, if s.rst then [] else [AckOut(t.snd.nxt, t.rcv.nxt, t.rcv.wnd)]))
    ensures OldAcceptable(t, s) && s.rst && t.state == SynRcvd && t.kind == Passive ==>
              r == Some(Next(t, RemoveFromPending, []))
    ensures OldAcceptable(t, s) && s.rst && RstResets(t.state) ==>
              r == Some(Next(t.(reset := true), Reset, []))
    ensures OldAcceptable(t, s) && !s.rst && s.syn && Synchronized(t.state) && t.state != SynRcvd ==>
              r == Some(Next(t, Reset, [ResetReply(s)]))
    ensures r.None? ==> OldAcceptable(t, s) && s.ack
    ensures OldAcceptable(t, s) && s.ack && !s.rst && !s.syn ==> r.None?
    ensures r.Some? && r.value.Next? ==>
              r.value.t.kind == t.kind && r.value.t.state == t.state
              && r.value.action != IsEstablished && r.value.action != AddToPending
  {
    if !OldAcceptable(t, s) then
      Some(Next(t, Noop, if s.rst then [] else [AckOut(t.snd.nxt, t.rcv.nxt, t.rcv.wnd)]))
    else if s.rst && t.state == SynRcvd && t.kind == Passive then
      Some(Next(t, RemoveFromPending, []))
    else if s.rst && RstResets(t.state) then
      Some(Next(t.(reset := true), Reset, []))
    else if s.syn && t.state == SynRcvd && t.kind == Passive then
      Some(Next(t, RemoveFromPending, []))
    else if s.syn && t.state != SynRcvd && Synchronized(t.state) then
      Some(Next(t, Reset, [ResetReply(s)]))
    else if !s.ack then
      Some(Next(t, Noop, []))
    else
      None
  }

  /** The send-window update of ESTABLISHED, without the cap of tcb.rs. */
  function OldWindowUpdate(t: OldTcb, s: Seg): (t': OldTcb)
    ensures t'.snd == t.snd.(wnd := t'.snd.wnd, wl1 := t'.snd.wl1, wl2 := t'.snd.wl2)
    ensures t'.snd != t.snd ==> t'.snd.wnd == s.window && t'.snd.wl1 == s.seqNo && t'.snd.wl2 == s.ackNo
    ensures t' == t.(snd := t'.snd)
  {
    if IsBetweenWrapped(WrappingSub(t.snd.una, 1), s.ackNo, WrappingAdd(t.snd.nxt, 1))
       && (WrappingLt(t.snd.wl1, s.seqNo)
           || (t.snd.wl1 == s.seqNo && WrappingLt(t.snd.wl2, WrappingAdd(s.seqNo, 1))))
    then t.(snd := t.snd.(wnd := s.window, wl1 := s.seqNo, wl2 := s.ackNo))
    else t
  }

  /** The result of data acceptance. */
  datatype OldText = OldTextPanic | OldAccepted(t: OldTcb)

  /** Data acceptance: skip the bytes before RCV.NXT, append as many of the
      rest as RCV.WND allows, advance RCV.NXT and shrink RCV.WND by that
      count. A segment starting after RCV.NXT underflows. */
  function OldAcceptText(t: OldTcb, s: Seg): (r: OldText)
    ensures r.OldTextPanic? <==> Dist(s.seqNo, t.rcv.nxt) > |s.data|
    ensures r.OldAccepted? ==>
              var skip := Dist(s.seqNo, t.rcv.nxt);
              var acc := Min(|s.data| - skip, t.rcv.wnd);
              && acc <= t.rcv.wnd
              && r.t.incoming == t.incoming + s.data[skip..skip + acc]
              && r.t.rcv == t.rcv.(nxt := WrappingAdd(t.rcv.nxt, acc), wnd := t.rcv.wnd - acc)
              && r.t == t.(incoming := r.t.incoming, rcv := r.t.rcv)
  {
    var skip := Dist(s.seqNo, t.rcv.nxt);
    if skip > |s.data| then OldTextPanic
    else
      var acc := Min(|s.data| - skip, t.rcv.wnd);
      OldAccepted(t.(incoming := t.incoming + s.data[skip..skip + acc],
                     rcv := t.rcv.(nxt := WrappingAdd(t.rcv.nxt, acc), wnd := t.rcv.wnd - acc)))
  }

  /** `Segment::end` of mod.rs is evaluated without wrapping on the payload
      length truncated to u32: it is defined when the sum neither overflows
      nor is zero. */
  predicate OldEndDefined(q: OldSeg) {
    0 < q.segno + |q.data| % MOD < MOD
  }

  function OldEnd(q: OldSeg): u32
    requires OldEndDefined(q)
  {
    q.segno + |q.data| % MOD - 1
  }

  /** The ACK loop's variables: the queue, whether the last entry examined
      gives an RTT sample, and that sample. */
  datatype OldLoop = OldLoop(queue: seq<OldSeg>, computeRto: bool, r: nat)

  /** One pass of the mod.rs ACK loop as written: take a sample from the
      front entry, pop it when the ACK is beyond its end, trim it when the
      ACK falls inside, and otherwise leave it. Comparisons do not wrap. */
  function OldAckIteration(l: OldLoop, ack: u32, now: nat): (l': OldLoop)
    requires |l.queue| > 0 && OldEndDefined(l.queue[0])
    ensures l'.computeRto == !l.queue[0].retry
    ensures ack > OldEnd(l.queue[0]) ==> l'.queue == l.queue[1..]
    ensures ack <= OldEnd(l.queue[0]) ==> |l'.queue| == |l.queue| && l'.queue[1..] == l.queue[1..]
  {
    var q := l.queue[0];
    var e := OldEnd(q);
    var l1 := l.(computeRto := !q.retry, r := if now >= q.birth then now - q.birth else 0);
    if ack > e then l1.(queue := l.queue[1..])
    else if q.una < ack <= e then l1.(queue := [q.(una := ack)] + l.queue[1..])
    else l1
  }

  /** As written, the loop runs while the queue is non-empty: once the front
      entry is not passed by the ACK, one more pass changes nothing, so the
      loop never ends. */
  lemma OldAckLoopSpins(l: OldLoop, ack: u32, now: nat)
    requires |l.queue| > 0 && OldEndDefined(l.queue[0]) && ack <= OldEnd(l.queue[0])
    ensures var l1 := OldAckIteration(l, ack, now);
      && |l1.queue| > 0 && OldEndDefined(l1.queue[0])
      && OldAckIteration(l1, ack, now) == l1
  {
    var l1 := OldAckIteration(l, ack, now);
    assert l1.queue[0].segno == l.queue[0].segno && l1.queue[0].data == l.queue[0].data;
  }

  /** The outcome of the ACK loop. */
  datatype OldLoopResult = LoopPanic(reason: OldPanic) | LoopDone(l: OldLoop)

  /** The ACK loop with an explicit stop: pop every leading entry the ACK
      passes, then make one pass over the first entry it does not pass and
      stop there. The pops remove exactly a prefix of entries whose ends
      lie before the ACK. */
  function OldAckLoop(l: OldLoop, ack: u32, now: nat): (r: OldLoopResult)
    ensures r.LoopDone? ==>
              && |r.l.queue| <= |l.queue|
              && var k := |l.queue| - |r.l.queue|;
              && (forall i :: 0 <= i < k ==> OldEndDefined(l.queue[i]) && ack > OldEnd(l.queue[i]))
              && (r.l.queue != [] ==>
                    && OldEndDefined(r.l.queue[0]) && ack <= OldEnd(r.l.queue[0])
                    && r.l.queue[1..] == l.queue[k + 1..]
                    && r.l.queue[0].segno == l.queue[k].segno)
    ensures r.LoopPanic? ==> r.reason == Overflow || r.reason == Underflow
    decreases |l.queue|
  {
    if l.queue == [] then LoopDone(l)
    else
      var q := l.queue[0];
      if q.segno + |q.data| % MOD >= MOD then LoopPanic(Overflow)
      else if q.segno + |q.data| % MOD == 0 then LoopPanic(Underflow)
      else
        var l' := OldAckIteration(l, ack, now);
        if ack > OldEnd(q) then OldAckLoop(l', ack, now)
        else LoopDone(l')
  }

  /** The RTO update of mod.rs as written: smoothing as in RFC 6298, but the
      one-second bound is applied with `min`, so RTO is the smaller of one
      second and SRTT + max(G, 4 RTTVAR): it never exceeds one second instead
      of never falling below it. */
  function ComputeRtoOld(e: RttEstimator, r: nat): (e': RttEstimator)
    ensures e'.srtt == Smooth(e, r).srtt && e'.rttvar == Smooth(e, r).rttvar && e'.measured
    ensures e'.rto <= MIN_RTO
    ensures e'.rto <= e'.srtt + GRANULARITY || e'.rto <= e'.srtt + 4 * e'.rttvar
    ensures e'.rto == MIN_RTO || e'.rto == e'.srtt + GRANULARITY || e'.rto == e'.srtt + 4 * e'.rttvar
    ensures e'.rto == MIN_RTO || (e'.rto >= e'.srtt + GRANULARITY && e'.rto >= e'.srtt + 4 * e'.rttvar)
    ensures e'.rto < MIN_RTO || e'.srtt + GRANULARITY >= MIN_RTO || e'.srtt + 4 * e'.rttvar >= MIN_RTO
  {
    var s := Smooth(e, r);
    s.(rto := Min(s.srtt + Max(GRANULARITY, 4 * s.rttvar), MIN_RTO))
  }

  /** With the `min` clamp, a first RTT sample above one second leaves RTO
      below SRTT: the timer would expire before an ACK could arrive. The
      corrected `ComputeRto` keeps RTO above SRTT. */
  lemma OldRtoUndercutsRtt(r: nat)
    requires r > MIN_RTO
    ensures ComputeRtoOld(INITIAL, r).rto < ComputeRtoOld(INITIAL, r).srtt
    ensures ComputeRto(INITIAL, r).rto > ComputeRto(INITIAL, r).srtt
  {
  }

  /** Data acceptance, then the ACK loop and the RTO update, then an ACK;
      the reader is woken. The loop is the one with an explicit stop, and
      the RTO update is the one with the one-second floor (`ComputeRto`). */
  function OldDataPhase(t: OldTcb, s: Seg, now: nat): (o: OldOutcome)
    ensures OldAcceptText(t, s).OldTextPanic? ==> o == Panic(Underflow, [])
    ensures o.Next? ==>
              && OldAcceptText(t, s).OldAccepted?
              && var t1 := OldAcceptText(t, s).t;
              && o.action == WakeUpReader
              && o.t.incoming == t1.incoming && o.t.rcv == t1.rcv && o.t.snd == t.snd
              && |o.t.outgoing| <= |t.outgoing|
              && o.out == [AckOut(t.snd.nxt, t1.rcv.nxt, t1.rcv.wnd)]
    ensures o.Next? ==> o.t.rtt == t.rtt || (o.t.rtt.measured && o.t.rtt.rto >= MIN_RTO)
    ensures o.Next? ==> o.t.kind == t.kind && o.t.state == t.state
  {
    match OldAcceptText(t, s)
    case OldTextPanic => Panic(Underflow, [])
    case OldAccepted(t1) =>
      match OldAckLoop(OldLoop(t1.outgoing, false, 0), s.ackNo, now)
      case LoopPanic(reason) => Panic(reason, [])
      case LoopDone(l) =>
        var rtt := if l.computeRto then ComputeRto(t1.rtt, l.r) else t1.rtt;
        var t2 := t1.(outgoing := l.queue, rtt := rtt);
        Next(t2, WakeUpReader, [AckOut(t2.snd.nxt, t2.rcv.nxt, t2.rcv.wnd)])
  }

  /** Text in ESTABLISHED and the FIN-WAIT states; `todo!()` elsewhere. */
  function OldTextOrTodo(t: OldTcb, s: Seg, now: nat, out: seq<Emit>): (o: OldOutcome)
    ensures !TakesText(t.state) ==> o == Panic(Unimplemented, out)
    ensures o.Next? ==>
              o.t.kind == t.kind && o.t.state == t.state && o.action == WakeUpReader
              && o.out == out + [AckOut(t.snd.nxt, o.t.rcv.nxt, o.t.rcv.wnd)]
  {
    if TakesText(t.state) then
      match OldDataPhase(t, s, now)
      case Next(t', a, out') => Next(t', a, out + out')
      case Panic(reason, out') => Panic(reason, out + out')
    else Panic(Unimplemented, out)
  }

  /** `TCB::on_segment` of mod.rs. The only state changes it makes are
      LISTEN to SYN-RECEIVED (reported as AddToPending) and SYN-RECEIVED
      to ESTABLISHED (reported as IsEstablished); the connection's kind is
      never changed. */
  function OldOnSegment(t: OldTcb, s: Seg, now: nat): (o: OldOutcome)
    ensures o.Next? ==> o.t.kind == t.kind
    ensures o.Next? && o.t.state != t.state ==>
              || (t.state == Listen && o.t.state == SynRcvd && o.action == AddToPending)
              || (t.state == SynRcvd && o.t.state == Estab && o.action == IsEstablished)
    ensures o.Next? && o.action == IsEstablished ==> t.state == SynRcvd && o.t.state == Estab
  {
    if t.state == Listen then OldListenStep(t, s)
    else
      match OldScreen(t, s)
      case Some(o) => o
      case None =>
        if t.state == SynRcvd then
          if AckInFlight(t.snd.una, s.ackNo, t.snd.nxt) then
            Next(t.(state := Estab, snd := t.snd.(wnd := s.window, wl1 := s.seqNo, wl2 := s.ackNo)),
                 IsEstablished, [])
          else OldTextOrTodo(t, s, now, [ResetReply(s)])
        else if t.state == Estab then
          if AckInFlight(t.snd.una, s.ackNo, t.snd.nxt) then
            OldTextOrTodo(OldWindowUpdate(t.(snd := t.snd.(una := s.ackNo)), s), s, now, [])
          else if WrappingLt(t.snd.nxt, s.ackNo) then
            Next(t, Noop, [AckOut(t.snd.nxt, t.rcv.nxt, t.rcv.wnd)])
          else OldTextOrTodo(OldWindowUpdate(t, s), s, now, [])
        else OldTextOrTodo(t, s, now, [])
  }

  /** A segment that passes the first checks: acceptable, with the ACK bit
      and neither RST nor SYN. */
  predicate OldPlainAck(t: OldTcb, s: Seg) {
    OldAcceptable(t, s) && s.ack && !s.rst && !s.syn
  }

  /** The passive open of mod.rs: ISS 0, RCV.WND 64240, and a SYN gives
      SYN-RECEIVED with RCV.NXT = SEG.SEQ+1, IRS = SEG.SEQ and SND.NXT = 1,
      writing the SYN,ACK; a SYN at the top of the sequence space panics. */
  lemma OldPassiveOpen(s: Seg, now: nat)
    requires s.syn && !s.ack && !s.rst
    ensures var t := OldListen();
      && t.snd.iss == 0 && t.snd.una == 0 && t.rcv.wnd == 64240 && t.rtt.rto == 1000
      && var o := OldOnSegment(t, s, now);
      && (s.seqNo == MAX_U32 ==> o == Panic(Overflow, []))
      && (s.seqNo < MAX_U32 ==>
            && o.Next? && o.action == AddToPending && o.t.state == SynRcvd
            && o.t.rcv.nxt == s.seqNo + 1 && o.t.rcv.irs == s.seqNo
            && o.t.snd.nxt == 1 && o.t.snd.una == 0
            && o.out == [SynAckOut(0, s.seqNo + 1, 64240)])
  {
  }

  /** SYN-RECEIVED: an acceptable ACK enters ESTABLISHED with the send
      window taken from the segment; any other ACK writes a reset and then
      reaches `todo!()`. */
  lemma OldSynRcvdAck(t: OldTcb, s: Seg, now: nat)
    requires t.state == SynRcvd && OldPlainAck(t, s)
    ensures AckInFlight(t.snd.una, s.ackNo, t.snd.nxt) ==>
              OldOnSegment(t, s, now)
                == Next(t.(state := Estab, snd := t.snd.(wnd := s.window, wl1 := s.seqNo, wl2 := s.ackNo)),
                        IsEstablished, [])
    ensures !AckInFlight(t.snd.una, s.ackNo, t.snd.nxt) ==>
              OldOnSegment(t, s, now) == Panic(Unimplemented, [ResetReply(s)])
  {
    assert OldScreen(t, s).None?;
  }

  /** RST handling of mod.rs: an unacceptable RST is dropped; an acceptable
      one removes a passive SYN-RECEIVED connection from the pending set
      and resets ESTABLISHED, the FIN-WAIT states and CLOSE-WAIT. */
  lemma OldRstHandling(t: OldTcb, s: Seg, now: nat)
    requires t.state != Listen && s.rst
    ensures !OldAcceptable(t, s) ==> OldOnSegment(t, s, now) == Next(t, Noop, [])
    ensures OldAcceptable(t, s) && t.state == SynRcvd && t.kind == Passive ==>
              OldOnSegment(t, s, now) == Next(t, RemoveFromPending, [])
    ensures OldAcceptable(t, s) && RstResets(t.state) ==>
              OldOnSegment(t, s, now) == Next(t.(reset := true), Reset, [])
  {
  }

  /** A SYN in any synchronized state after SYN-RECEIVED writes a reset and
      resets the connection. */
  lemma OldSynResets(t: OldTcb, s: Seg, now: nat)
    requires Synchronized(t.state) && t.state != SynRcvd
    requires OldAcceptable(t, s) && s.syn && !s.rst
    ensures OldOnSegment(t, s, now) == Next(t, Reset, [ResetReply(s)])
  {
  }

  /** ESTABLISHED: an acceptable ACK sets SND.UNA; an ACK beyond SND.NXT is
      answered with an ACK and changes nothing. */
  lemma OldEstabAck(t: OldTcb, s: Seg, now: nat)
    requires t.state == Estab && OldPlainAck(t, s)
    ensures AckInFlight(t.snd.una, s.ackNo, t.snd.nxt) ==>
              var o := OldOnSegment(t, s, now);
              o.Next? ==> o.t.snd.una == s.ackNo && o.action == WakeUpReader
    ensures !AckInFlight(t.snd.una, s.ackNo, t.snd.nxt) && WrappingLt(t.snd.nxt, s.ackNo) ==>
              OldOnSegment(t, s, now) == Next(t, Noop, [AckOut(t.snd.nxt, t.rcv.nxt, t.rcv.wnd)])
  {
    assert OldScreen(t, s).None?;
  }

  /** In CLOSE-WAIT, CLOSING, LAST-ACK and TIME-WAIT every segment that
      passes the first checks reaches `todo!()`. */
  lemma OldLaterStatesUnimplemented(t: OldTcb, s: Seg, now: nat)
    requires t.state == CloseWait || t.state == Closing || t.state == LastAck || t.state == TimeWait
    requires OldPlainAck(t, s)
    ensures OldOnSegment(t, s, now) == Panic(Unimplemented, [])
  {
    assert OldScreen(t, s).None?;
  }
}
