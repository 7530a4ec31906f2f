/**
 The transmission control block of tcb.rs: connection state, send and
 receive sequence spaces, RTT estimator, congestion state, timers and the
 three queues (received bytes, bytes to send, retransmission queue).
 Timers are absolute deadlines in milliseconds.
 */
module TcbState {
  import opened Wrappers
  import opened SeqNum
  import opened Segments
  import opened Rto
  import opened Congestion

  datatype State =
    | Listen | SynRcvd | SynSent | Estab | FinWait1 | FinWait2
    | Closing | TimeWait | CloseWait | LastAck

  /** The states after LISTEN and SYN-SENT, in which sequence numbers are
      validated. */
  predicate Synchronized(st: State) {
    st != Listen && st != SynSent
  }

  /** The states in which an acceptable RST resets the connection. */
  predicate RstResets(st: State) {
    st == Estab || st == FinWait1 || st == FinWait2 || st == CloseWait
  }

  /** The states in which segment text is delivered to the receive buffer. */
  predicate TakesText(st: State) {
    st == Estab || st == FinWait1 || st == FinWait2
  }

  /** Whether the connection came from a passive (LISTEN) or active open. */
  datatype Kind = Active | Passive

  /** SND.UNA, SND.NXT, SND.WND, SND.WL1, SND.WL2, ISS, the peer's MSS and the
      largest window the peer has advertised. */
  datatype SendSpace = SendSpace(
    una: u32, nxt: u32, wnd: u16, wl1: u32, wl2: u32, iss: u32, mss: u16, maxWnd: u16)

  /** RCV.NXT, RCV.WND, IRS and our MSS. */
  datatype RecvSpace = RecvSpace(nxt: u32, wnd: u16, irs: u32, mss: u16)

  datatype Tcb = Tcb(
    kind: Kind,
    state: State,
    reset: bool,
    writeClosed: bool,
    readClosed: bool,
    timeWait: Option<nat>,
    snd: SendSpace,
    rcv: RecvSpace,
    rtt: RttEstimator,
    timeout: Option<nat>,
    cwnd: u32,
    ssthresh: u32,
    probeTimeout: Option<nat>,
    /** received bytes not yet read by the application, and the capacity
        reserved for them (RCV.BUFF) */
    incoming: seq<byte>,
    inCap: nat,
    /** bytes written by the application and not yet acknowledged */
    outgoing: seq<byte>,
    /** the retransmission queue */
    segments: seq<QSeg>,
    /** the R2 give-up thresholds for data and for a SYN, in milliseconds;
        the application may change them at any time */
    r2: u64,
    r2Syn: u64)

  /** Receive buffer reserved on reaching ESTABLISHED, and the initial RCV.WND. */
  const RCV_BUFF: u16 := 64240
  /** TIME-WAIT duration, 2 x 2 minutes, in milliseconds. */
  const TIME_WAIT_MS: nat := 2 * 2 * 60 * 1000

  /** The TCB of a connection before any segment has been exchanged. */
  function Fresh(kind: Kind, state: State, iss: u32): Tcb {
    Tcb(kind, state, false, false, false, None,
        SendSpace(iss, iss, 0, 0, 0, iss, DEFAULT_MSS, 0),
        RecvSpace(0, RCV_BUFF, 0, DEFAULT_MSS),
        INITIAL, None, INITIAL_CWND, INITIAL_SSTHRESH, None,
        [], 0, [], [],
        100 * 1000, 3 * 60 * 1000)
  }

  /** SND.NXT - SND.UNA: sequence numbers sent and not acknowledged. */
  function SentLen(t: Tcb): u32 {
    Dist(t.snd.una, t.snd.nxt)
  }

  /** `TCB::listen`: a passive open waiting for a SYN, with nothing sent. */
  function ListenTcb(iss: u32): (t: Tcb)
    ensures t.state == Listen && t.kind == Passive
    ensures t.snd.una == t.snd.nxt == t.snd.iss == iss && SentLen(t) == 0
    ensures t.segments == [] && t.outgoing == [] && t.incoming == []
    ensures t.rcv.wnd == RCV_BUFF && t.rtt.rto == MIN_RTO && !t.rtt.measured
  {
    Fresh(Passive, Listen, iss)
  }

  /** The SYN an active open queues: one sequence number at ISS, not yet sent,
      carrying our MSS. */
  function SynEntry(iss: u32, mss: u16): QSeg {
    QSeg(iss, iss, 1, false, true, false, false, 0, None, Some(mss))
  }

  /** `TCB::syn_sent`: an active open with its SYN queued; SND.NXT is ISS+1,
      so exactly one sequence number is outstanding. */
  function SynSentTcb(iss: u32): (t: Tcb)
    ensures t.state == SynSent && t.kind == Active
    ensures t.snd.una == t.snd.iss == iss && t.snd.nxt == WrappingAdd(iss, 1)
    ensures SentLen(t) == 1
    ensures |t.segments| == 1 && t.segments[0].syn && !t.segments[0].fin
    ensures t.segments[0].sno == iss && End(t.segments[0]) == iss && t.segments[0].sent.None?
  {
    var t := Fresh(Active, SynSent, iss);
    t.(segments := [SynEntry(iss, t.rcv.mss)] + t.segments,
       snd := t.snd.(nxt := WrappingAdd(iss, 1)))
  }

  /** `is_fin_acked`: nothing left to send or acknowledge, and the write
      half closed. */
  predicate IsFinAcked(t: Tcb) {
    t.outgoing == [] && t.segments == [] && t.snd.una == t.snd.nxt && t.writeClosed
  }

  /** The FIN is never seen as acknowledged while the write half is open. */
  lemma FinAckedNeedsWriteClosed(t: Tcb)
    requires !t.writeClosed
    ensures !IsFinAcked(t)
  {
  }
}
