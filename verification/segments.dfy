/**
 The abstract segment values the engine consumes and produces, and the
 entries of its retransmission queue (`Segment` in tcb.rs).
 */
module Segments {
  import opened Wrappers
  import opened SeqNum

  /** Maximum segment size assumed when a SYN carries no MSS option. */
  const DEFAULT_MSS: u16 := 536

  /** An arriving segment: the header fields the engine reads, and its payload.
      The MSS option, when present, is already decoded. */
  datatype Seg = Seg(
    seqNo: u32,
    ackNo: u32,
    window: u16,
    syn: bool,
    ack: bool,
    rst: bool,
    fin: bool,
    mss: Option<u16>,
    data: seq<byte>)

  /** A segment the engine hands to the network layer. Packet framing and
      checksums are not modelled; only the fields the engine chooses are. */
  datatype Emit =
      /** A reset formed in reply to the given segment. */
    | ResetReply(trigger: Seg)
      /** <SEQ=seqNo><ACK=ackNo><CTL=ACK> advertising `window`. */
    | AckOut(seqNo: u32, ackNo: u32, window: u16)
      /** <SEQ=seqNo><ACK=ackNo><CTL=SYN,ACK> advertising `window`. */
    | SynAckOut(seqNo: u32, ackNo: u32, window: u16)
      /** A segment from the send path carrying `data` and the given flags. */
    | DataOut(seqNo: u32, ackNo: u32, window: u16, data: seq<byte>,
              fin: bool, syn: bool, ack: bool, mss: Option<u16>)

  /** A retransmission-queue entry: the segment occupies sequence numbers
      [sno, sno+len), of which [sno, una) are acknowledged. `sent` is the
      time of the latest transmission, `retry` whether it was retransmitted. */
  datatype QSeg = QSeg(
    sno: u32,
    una: u32,
    len: u32,
    fin: bool,
    syn: bool,
    ack: bool,
    retry: bool,
    totalRetTime: nat,
    sent: Option<nat>,
    mss: Option<u16>)

  /** `Segment::end`: the last sequence number the entry covers. */
  function End(q: QSeg): (r: u32)
    ensures WrappingAdd(r, 1) == WrappingAdd(q.sno, q.len)
    ensures 0 < q.len ==> Dist(q.sno, r) == q.len - 1
  {
    WrappingSub(WrappingAdd(q.sno, q.len), 1)
  }

  /** The source's `+ 1` in `unacked_data_len` overflows a u32 exactly when
      the entry is acknowledged up to its end. */
  predicate UnackedLenDefined(q: QSeg) {
    q.una != WrappingAdd(q.sno, q.len)
  }

  /** `Segment::unacked_data_len`: the number of payload bytes of the entry
      still unacknowledged; a FIN is assumed to take one sequence number of
      `len`. */
  function UnackedDataLen(q: QSeg): (r: nat)
    requires UnackedLenDefined(q)
    ensures 0 < q.len && Dist(q.sno, q.una) < q.len ==>
              r == q.len - Dist(q.sno, q.una) - (if q.fin then 1 else 0)
  {
    var span := Dist(q.una, End(q)) + 1;
    span - (if q.fin then 1 else 0)
  }

  /** A FIN-only entry (as queued by a user CLOSE) holds no payload. */
  lemma FinOnlyEntryHoldsNoData(q: QSeg)
    requires q.len == 1 && q.fin && q.una == q.sno
    ensures UnackedLenDefined(q) && UnackedDataLen(q) == 0
  {
  }
}
