/**
 The sliding-window send and receive side of tcb.rs: how much queued data
 may go out (sections 3.8.6.2.1 and 3.8.6.2.2 of RFC 9293), the user CLOSE
 (section 3.10.4), reading received data with the receiver's window update,
 and the send path of `on_tick` that turns queued bytes into segments.
 */
module SendRecv {
  import opened Wrappers
  import opened SeqNum
  import opened Segments
  import opened TcbState

  /** `available_data_len`: queued bytes not yet sent. The source's usize
      subtraction requires no more sequence numbers in flight than bytes
      queued. */
  function AvailableDataLen(t: Tcb): nat
    requires SentLen(t) <= |t.outgoing|
  {
    |t.outgoing| - SentLen(t)
  }

  /** The usable window U = SND.UNA + SND.WND - SND.NXT, modulo 2^32. */
  function UsableWindow(t: Tcb): (u: u32)
    ensures SentLen(t) <= t.snd.wnd ==> u == t.snd.wnd - SentLen(t)
  {
    WrappingSub(WrappingAdd(t.snd.una, t.snd.wnd), t.snd.nxt)
  }

  /** `sws_allows_send` on D queued-unsent bytes and usable window U: send if
      a full segment fits, or everything queued fits, or at least half the
      largest advertised window fits (the Nagle bracket and PUSH are not
      checked). Equivalently: everything fits, or U reaches the smaller of
      the MSS and half the maximum window. */
  function SwsAllows(d: nat, u: nat, mss: u16, maxWnd: u16): (r: bool)
    ensures r <==> d <= u || u >= Min(mss, maxWnd / 2)
  {
    Min(d, u) >= mss || d <= u || Min(d, u) >= maxWnd / 2
  }

  function SwsAllowsSend(t: Tcb): bool
    requires SentLen(t) <= |t.outgoing|
  {
    SwsAllows(AvailableDataLen(t), UsableWindow(t), t.snd.mss, t.snd.maxWnd)
  }

  /** The FIN entry a CLOSE queues at SND.NXT when no data is left to send. */
  function FinEntry(nxt: u32): QSeg {
    QSeg(nxt, nxt, 1, true, false, true, false, 0, None, None)
  }

  /** What a user CLOSE does: the TCB it leaves, or one of the two panics
      of the source (the state assertion, and the usize underflow of
      `available_data_len` when more sequence numbers are in flight than
      bytes are queued). */
  datatype CloseResult = Closed(t: Tcb) | CloseAssertFails | CloseUnderflows

  /** `TCB::close`: ESTABLISHED goes to FIN-WAIT-1 and CLOSE-WAIT to LAST-ACK;
      any other state fails the source's assertion. With nothing left to
      send, a one-sequence-number FIN is queued at SND.NXT and SND.NXT
      advances past it; otherwise the FIN is left to the send path. The write
      half is not marked closed. */
  function Close(t: Tcb): (r: CloseResult)
    ensures r.CloseAssertFails? <==> t.state != Estab && t.state != CloseWait
    ensures r.CloseUnderflows? <==>
              (t.state == Estab || t.state == CloseWait) && SentLen(t) > |t.outgoing|
    ensures r.Closed? ==>
      var t' := r.t;
      && SentLen(t) <= |t.outgoing|
      && (t.state == Estab ==> t'.state == FinWait1)
      && (t.state == CloseWait ==> t'.state == LastAck)
      && (AvailableDataLen(t) == 0 ==>
            t'.segments == t.segments + [FinEntry(t.snd.nxt)]
            && t'.snd == t.snd.(nxt := WrappingAdd(t.snd.nxt, 1))
            && End(FinEntry(t.snd.nxt)) == t.snd.nxt)
      && (AvailableDataLen(t) > 0 ==> t'.segments == t.segments && t'.snd == t.snd)
      && t' == t.(state := t'.state, segments := t'.segments, snd := t'.snd)
  {
    if t.state != Estab && t.state != CloseWait then CloseAssertFails
    else if SentLen(t) > |t.outgoing| then CloseUnderflows
    else
      var t1 := t.(state := if t.state == Estab then FinWait1 else LastAck);
      if AvailableDataLen(t) == 0 then
        Closed(t1.(segments := t1.segments + [FinEntry(t1.snd.nxt)],
                   snd := t1.snd.(nxt := WrappingAdd(t1.snd.nxt, 1))))
      else
        Closed(t1)
  }

  /** Closing while sent data is still unacknowledged puts SND.NXT one past
      the queued bytes, so the next send attempt's `available_data_len`
      underflows. */
  lemma CloseWithDataInFlightOverruns(t: Tcb, now: nat)
    requires t.state == Estab || t.state == CloseWait
    requires 0 < SentLen(t) == |t.outgoing| < MAX_U32
    ensures Close(t).Closed?
    ensures SentLen(Close(t).t) == |Close(t).t.outgoing| + 1
    ensures SendQueued(Close(t).t, now).SendUnderflows?
  {
  }

  /** The receive buffer never holds more than its capacity together with
      the advertised window. */
  predicate RecvBufferOk(t: Tcb) {
    |t.incoming| + t.rcv.wnd <= t.inCap
  }

  /** The SWS avoidance condition of the receiver: the space freed but not
      yet advertised, RCV.BUFF - RCV.USER - RCV.WND, reaches
      min(RCV.BUFF / 2, Eff.snd.MSS). */
  predicate WindowUpdateDue(buff: nat, user: nat, wnd: nat, mss: nat) {
    buff - user - wnd >= Min(buff / 2, mss)
  }

  /** `TCB::recv` into a buffer of `bufLen` bytes: hand over the oldest
      received bytes and, when the receiver's SWS rule allows, reopen the
      window to all free buffer space (as a u16). */
  function Recv(t: Tcb, bufLen: nat): (r: (Tcb, seq<byte>))
    requires RecvBufferOk(t)
    ensures var (t', data) := r;
      && |data| == Min(bufLen, |t.incoming|)
      && data + t'.incoming == t.incoming
      && t' == t.(incoming := t'.incoming, rcv := t'.rcv)
      && t'.rcv == t.rcv.(wnd := t'.rcv.wnd)
      && (WindowUpdateDue(t.inCap, |t'.incoming|, t.rcv.wnd, t.snd.mss) ==>
            t'.rcv.wnd == (t.inCap - |t'.incoming|) % 0x1_0000)
      && (!WindowUpdateDue(t.inCap, |t'.incoming|, t.rcv.wnd, t.snd.mss) ==> t'.rcv.wnd == t.rcv.wnd)
  {
    var n := Min(bufLen, |t.incoming|);
    var rest := t.incoming[n..];
    var wnd: u16 :=
      if t.inCap - |rest| - t.rcv.wnd >= Min(t.inCap / 2, t.snd.mss)
      then (t.inCap - |rest|) % 0x1_0000
      else t.rcv.wnd;
    (t.(incoming := rest, rcv := t.rcv.(wnd := wnd)), t.incoming[..n])
  }

  /** Reading never moves the right window edge RCV.NXT+RCV.WND to the left,
      and keeps the buffer accounting intact, when the buffer fits a u16. */
  lemma RecvKeepsWindowEdge(t: Tcb, bufLen: nat)
    requires RecvBufferOk(t) && t.inCap < 0x1_0000
    ensures Recv(t, bufLen).0.rcv.wnd >= t.rcv.wnd
    ensures Recv(t, bufLen).0.rcv.nxt == t.rcv.nxt
    ensures RecvBufferOk(Recv(t, bufLen).0)
  {
    var (t', data) := Recv(t, bufLen);
    var free := t.inCap - |t'.incoming|;
    assert |t'.incoming| <= |t.incoming|;
    if WindowUpdateDue(t.inCap, |t'.incoming|, t.rcv.wnd, t.snd.mss) {
      assert t'.rcv.wnd == free;
    }
  }

  /** How many bytes the send path may put in flight now: the unsent bytes,
      limited by cwnd and SND.WND. */
  function ToBeSent(t: Tcb): nat
    requires SentLen(t) <= |t.outgoing|
  {
    Min(Min(AvailableDataLen(t), t.cwnd), t.snd.wnd)
  }

  /** The entry the send path appends for a new data segment. */
  function DataEntry(nxt: u32, len: nat, fin: bool, now: nat): QSeg {
    QSeg(nxt, nxt, len % MOD, fin, false, true, false, 0, Some(now), None)
  }

  /** One new data segment from the send path of `on_tick`: the next unsent
      bytes, at most one MSS and within cwnd and SND.WND, carrying FIN when
      they are the last queued bytes and the write half is closed. The entry
      is queued, the retransmission timer restarted and SND.NXT advanced
      over the data and the FIN. */
  function SendNewData(t: Tcb, now: nat): (r: (Tcb, Emit))
    requires SentLen(t) <= |t.outgoing| && 0 < ToBeSent(t)
    ensures r.1.DataOut?
    ensures var (t', e) := r;
      var n := |e.data|;
      && e.seqNo == t.snd.nxt && e.ackNo == t.rcv.nxt && e.window == t.rcv.wnd
      && (0 < n <==> 0 < t.snd.mss)
      && n <= t.snd.mss && n <= t.snd.wnd && n <= t.cwnd && n <= AvailableDataLen(t)
      && (n == t.snd.mss || n == t.snd.wnd || n == t.cwnd || n == AvailableDataLen(t))
      && e.data == t.outgoing[SentLen(t)..SentLen(t) + n]
      && (e.fin <==> t.writeClosed && n == ToBeSent(t))
      && !e.syn && e.ack
      && t' == t.(timeout := t'.timeout, segments := t'.segments, snd := t'.snd)
      && t'.segments == t.segments + [DataEntry(t.snd.nxt, n, e.fin, now)]
      && t'.snd == t.snd.(nxt := WrappingAdd(WrappingAdd(t.snd.nxt, n), if e.fin then 1 else 0))
      && t'.timeout == Some(now + t.rtt.rto)
  {
    var sent := SentLen(t);
    var toBeSent := ToBeSent(t);
    var dataLen := Min(toBeSent, t.snd.mss);
    var fin := dataLen == toBeSent && t.writeClosed;
    var data := t.outgoing[sent..sent + dataLen];
    var e := DataOut(t.snd.nxt, t.rcv.nxt, t.rcv.wnd, data, fin, false, true, None);
    var t' := t.(timeout := Some(now + t.rtt.rto),
                 segments := t.segments + [DataEntry(t.snd.nxt, dataLen, fin, now)],
                 snd := t.snd.(nxt := WrappingAdd(WrappingAdd(t.snd.nxt, dataLen), if fin then 1 else 0)));
    (t', e)
  }

  /** What the send path of `on_tick` does: the TCB and the segments it
      emits, or the usize underflow of `available_data_len`. */
  datatype SendResult = Sent(t: Tcb, out: seq<Emit>) | SendUnderflows

  /** The send path of `on_tick` (tcb.rs:665-763; no retransmission): with
      queued bytes, send new data when the sender's SWS rule allows and
      something may be sent; with no queued bytes, send the front queue
      entry (a SYN, SYN-ACK or FIN) if it has never been sent, starting the
      retransmission timer if it is off. */
  function SendQueued(t: Tcb, now: nat): (r: SendResult)
    ensures r.SendUnderflows? <==> |t.outgoing| > 0 && SentLen(t) > |t.outgoing|
    ensures r.Sent? ==> |r.out| <= 1
    ensures r.Sent? && |r.out| == 0 ==> r.t == t
    ensures r.Sent? && |t.outgoing| > 0 && |r.out| == 1 ==>
              SentLen(t) <= |t.outgoing| && SwsAllowsSend(t) && 0 < ToBeSent(t)
              && (r.t, r.out) == (SendNewData(t, now).0, [SendNewData(t, now).1])
    ensures r.Sent? && |t.outgoing| > 0 && SwsAllowsSend(t) && 0 < ToBeSent(t) ==> |r.out| == 1
    ensures |t.outgoing| == 0 ==>
              r.Sent? && (|r.out| == 1 <==> |t.segments| > 0 && t.segments[0].sent.None?)
    ensures r.Sent? && |t.outgoing| == 0 && |r.out| == 1 ==>
      && r.out[0] == DataOut(t.segments[0].sno, t.rcv.nxt, t.rcv.wnd, [],
                             t.segments[0].fin, t.segments[0].syn, t.segments[0].ack, t.segments[0].mss)
      && r.t.segments == [t.segments[0].(sent := Some(now))] + t.segments[1..]
      && r.t.timeout.Some?
  {
    if |t.outgoing| > 0 then
      if SentLen(t) > |t.outgoing| then SendUnderflows
      else if SwsAllowsSend(t) && ToBeSent(t) > 0 then
        var (t', e) := SendNewData(t, now);
        Sent(t', [e])
      else
        Sent(t, [])
    else if |t.segments| > 0 && t.segments[0].sent.None? then
      var q := t.segments[0];
      var e := DataOut(q.sno, t.rcv.nxt, t.rcv.wnd, [], q.fin, q.syn, q.ack, q.mss);
      var t' := t.(segments := [q.(sent := Some(now))] + t.segments[1..],
                   timeout := if t.timeout.None? then Some(now + t.rtt.rto) else t.timeout);
      Sent(t', [e])
    else
      Sent(t, [])
  }

  /** A data segment without FIN moves exactly its bytes from "queued" to
      "in flight": the in-flight count grows by the bytes sent and the
      unsent count shrinks by the same amount. */
  lemma SendMovesBytesInFlight(t: Tcb, now: nat)
    requires |t.outgoing| < HALF && SentLen(t) <= |t.outgoing| && 0 < ToBeSent(t)
    requires !SendNewData(t, now).1.fin
    ensures var (t', e) := SendNewData(t, now);
      && SentLen(t') == SentLen(t) + |e.data|
      && SentLen(t') <= |t'.outgoing|
      && AvailableDataLen(t') + |e.data| == AvailableDataLen(t)
  {
    var (t', e) := SendNewData(t, now);
    var n := |e.data|;
    assert t'.snd.una == t.snd.una;
    assert WrappingAdd(WrappingAdd(t.snd.nxt, n), 0) == WrappingAdd(t.snd.nxt, n);
    assert t'.snd.nxt == WrappingAdd(t.snd.nxt, n);
    DistAfterAdvance(t.snd.una, t.snd.nxt, n);
  }
}
