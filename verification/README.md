# handshake: the per-connection TCP engine, in Dafny

This project models the transmission control block (TCB) of the `handshake`
user-space TCP stack and proves properties of it. The TCB is the state of one
connection, and the model covers how that state reacts to an arriving
segment, to the user's `close` and `recv`, and to the send and retransmission
paths of the periodic tick. The primary engine is `src/tcp/tcb.rs`. The
earlier, smaller engine of `src/tcp/mod.rs` is modelled as a second TCB.

Each operation is a pure function from a TCB, plus the segment and the
current time in milliseconds, to an outcome. A `Next` outcome carries the new
TCB, the request to the connection manager (`Action`), and the segments
written to the network, in order. The source writes those segments through
`write_ack`, `write_reset`, `write_synack` and `write_data`; here they are
abstract `Emit` values. A `Panic` outcome stands for a debug-build panic of
the source: `u32`/`usize` overflow or underflow, `unwrap()` on `None`, a
failed `assert!`, or `todo!()`. It names the reason and keeps the segments
written before the panic.

Files, one module each:

- `seqnum.dfy`: `Option`; integer ranges; wrapping sequence arithmetic (`wrapping_lt`, `is_between_wrapped`, RFC 9293 section 3.4).
- `segments.dfy`: arriving segments, emitted segments, and retransmission-queue entries (`Segment::end`, `unacked_data_len`).
- `acceptability.dfy`: the acceptability test of section 3.10.7.4 of RFC 9293, and SEG.LEN as the engine computes it.
- `rto.dfy`: the RTO estimator of section 2 of RFC 6298 (`compute_rto`).
- `congestion.dfy`: the cwnd update of section 3.1 of RFC 5681 (`congestion_control`).
- `tcbstate.dfy`: the TCB record, the initial TCBs of `listen` and `syn_sent`, and `is_fin_acked`.
- `sendrecv.dfy`: `available_data_len`, `sws_allows_send`, `close`, `recv` with its window update, and the send path of `on_tick`.
- `retransmit.dfy`: `process_ack` and the retransmission-timeout branch of `on_tick`.
- `engine.dfy`: `on_segment` of tcb.rs.
- `oldengine.dfy`: `listen` and `on_segment` of mod.rs.

The first `process_ack` loop stops explicitly when it reaches an entry the ACK does not cover. The as-written loop would spin there. `Engine.AcceptAck` calls `process_ack` only when its preconditions hold, and otherwise panics with `AckQueue`. Those preconditions are collected in `RetransmitQueue.AckSafe`:

- every examined entry was sent, as needed by `seg.sent.unwrap()`;
- every popped entry has a defined unacknowledged length;
- the bytes to drain exist.

How the code behaves where the RFCs differ, as modelled:

- There is no CLOSED state. Ending a connection is an `Action` (`Reset`, `DeleteTcb`, `RemoveFromPending`, `ConnectionRefused`) for the connection manager.
- There is no fast retransmit, duplicate-ACK counting, slow-start restart after a timeout, or out-of-order reassembly. Text that starts after RCV.NXT makes the engine panic (`Engine.FutureDataPanics`).
- An RST is acted on only in SYN-RECEIVED, ESTABLISHED, FIN-WAIT-1, FIN-WAIT-2 and CLOSE-WAIT.
- The RTO floor is one second, so a first sample of 200 ms gives an RTO of 1000 ms (`Rto.TwoSampleExample`).
- SEG.LEN counts the ACK flag instead of SYN.
- The window update compares SND.WL2 with SEG.SEQ+1.
- SND.UNA is not advanced when SYN-RECEIVED reaches ESTABLISHED (see Findings).
- The write half is never marked closed, so `is_fin_acked` never holds. As a result LAST-ACK never deletes the TCB, FIN-WAIT-1 never reaches FIN-WAIT-2, and CLOSING is never left.

## Model

| member | source | states |
|---|---|---|
| SeqNum.WrappingLt | src/tcp/tcb.rs:1728-1737 | `wrapping_lt(a, b)` holds exactly when `b` lies ahead of `a` by a forward distance in (0, 2^31) |
| SeqNum.IsBetweenWrapped | src/tcp/tcb.rs:1739-1741 | `is_between_wrapped` holds exactly when `x` lies strictly ahead of `start` and `end` strictly ahead of `x`; it never holds at either end point |
| SeqNum.Dist | src/tcp/tcb.rs:1555 | the wrapped difference is the unique forward distance `d` with `a + d = b` modulo 2^32; it is zero only for equal numbers |
| SeqNum.WrappingLtIrreflexive | src/tcp/tcb.rs:1728-1737 | no sequence number precedes itself |
| SeqNum.WrappingLtTrichotomy | src/tcp/tcb.rs:1728-1737 | of two distinct numbers that are not 2^31 apart, exactly one precedes the other; at distance 2^31 neither does |
| SeqNum.WrapAroundExample | src/tcp/tcb.rs:1728-1737 | 0xFFFFFFF0 precedes 0x10 and not the other way round |
| SeqNum.AdvanceIsLater | src/tcp/tcb.rs:1576 | advancing by 0 < k < 2^31 gives a later number at distance k |
| SeqNum.DistAfterAdvance | src/tcp/tcb.rs:725-729 | advancing `b` by `n` moves it `n` further from `a` while the sum stays below 2^32 |
| SeqNum.BetweenIsOpenInterval | src/tcp/tcb.rs:1739-1741 | when `end` is less than 2^31 after `start`, `is_between_wrapped` is ordinary strict containment measured from `start` |
| SeqNum.BetweenIsStrict | src/tcp/tcb.rs:1739-1741 | neither end point of the interval is between |
| Segments.End | src/tcp/tcb.rs:174-176 | the last sequence number of an entry is `len - 1` ahead of its start, modulo 2^32 |
| Segments.UnackedDataLen | src/tcp/tcb.rs:178-180 | for an entry acknowledged partway, the unacknowledged payload is its length minus the acknowledged part, minus one for a FIN |
| Segments.FinOnlyEntryHoldsNoData | src/tcp/tcb.rs:469-482 | the FIN-only entry that `close` queues has a defined unacknowledged length of zero bytes |
| Acceptability.WindowTestIsInWindow | src/tcp/tcb.rs:1706-1710 | the source's `is_between_wrapped(RCV.NXT-1, x, RCV.NXT+RCV.WND)` is exactly RCV.NXT =< x < RCV.NXT+RCV.WND modulo 2^32 |
| Acceptability.IsSegmentValid | src/tcp/tcb.rs:1697-1726 | the four cases of the acceptability table: zero length and zero window accepts only SEG.SEQ = RCV.NXT; a positive length with a zero window is never acceptable; otherwise the first byte, or the last one for a positive length, must lie in the window |
| Acceptability.SegLen | src/tcp/tcb.rs:1191-1192 | the engine's SEG.LEN exceeds the RFC's by one for ACK and falls short by one for SYN, so the two agree exactly when a segment carries both flags or neither |
| Acceptability.SegLenRfc | src/tcp/tcb.rs:1191-1192 | the RFC's SEG.LEN counts SYN and FIN instead, as the reference the engine's count is compared with |
| Acceptability.BareAckRejectedAtZeroWindow | src/tcp/tcb.rs:1191-1197 | because ACK is counted, a bare ACK at RCV.NXT is rejected while the receive window is zero; with the RFC's count it would be accepted |
| Acceptability.SegmentAtRcvNxtAccepted | src/tcp/tcb.rs:1697-1726 | with an open window, a segment starting at RCV.NXT is acceptable whatever its length |
| Rto.Smooth | src/tcp/tcb.rs:946-954 | first sample: SRTT = R and RTTVAR = floor(R/2); later samples: RTTVAR = floor((3 RTTVAR + abs(SRTT - R)) / 4) with the old SRTT, then SRTT = floor((7 SRTT + R) / 8) |
| Rto.ComputeRto | src/tcp/tcb.rs:919-963 | RTO is the least value that is at least one second and at least SRTT plus both G = 100 ms and 4 RTTVAR |
| Rto.SrttBetweenOldAndSample | src/tcp/tcb.rs:950-954 | the new SRTT lies between the old SRTT and the sample |
| Rto.SteadySampleIsStable | src/tcp/tcb.rs:950-954 | a sample equal to SRTT keeps SRTT and does not raise RTTVAR |
| Rto.TwoSampleExample | src/tcp/tcb.rs:946-962 | samples of 200 ms then 100 ms give SRTT 200 then 187, RTTVAR 100, and RTO 1000 both times |
| Congestion.AvoidanceQuotient | src/tcp/tcb.rs:912-915 | for a positive cwnd, the f64 quotient MSS*MSS/cwnd truncated to an integer is its floor |
| Congestion.CongestionControl | src/tcp/tcb.rs:878-917 | in slow start cwnd grows by exactly SMSS; in congestion avoidance it grows by floor(SMSS*SMSS/cwnd), but by at least one byte |
| Congestion.AvoidanceGrowthBounded | src/tcp/tcb.rs:890-916 | in congestion avoidance with cwnd at least one MSS, one ACK adds between one byte and one MSS |
| Congestion.CwndNeverShrinks | src/tcp/tcb.rs:878-917 | cwnd never decreases on an ACK and strictly increases when the MSS is positive |
| TcbState.ListenTcb | src/tcp/tcb.rs:217-286 | a passive open starts in LISTEN with SND.UNA = SND.NXT = ISS, nothing queued, RCV.WND = 64240 and RTO one second, unmeasured |
| TcbState.SynSentTcb | src/tcp/tcb.rs:288-374 | an active open starts in SYN-SENT with one unsent SYN entry at ISS and SND.NXT = ISS+1, so one sequence number is outstanding |
| TcbState.FinAckedNeedsWriteClosed | src/tcp/tcb.rs:384-397 | `is_fin_acked` is false while the write half is open |
| SendRecv.UsableWindow | src/tcp/tcb.rs:440-444 | while the bytes in flight fit in SND.WND, the usable window is SND.WND minus them |
| SendRecv.SwsAllows | src/tcp/tcb.rs:406-449 | the sender's SWS rule allows a send exactly when everything queued fits, or the usable window reaches the smaller of the MSS and half the largest window |
| SendRecv.Close | src/tcp/tcb.rs:399-486 | a state other than ESTABLISHED or CLOSE-WAIT fails the assertion, and more sequence numbers in flight than queued bytes underflow `available_data_len`; otherwise ESTABLISHED goes to FIN-WAIT-1 and CLOSE-WAIT to LAST-ACK; with nothing unsent, a one-number FIN entry is queued at SND.NXT and SND.NXT advances by one; otherwise the queue and SND are unchanged |
| SendRecv.CloseWithDataInFlightOverruns | src/tcp/tcb.rs:468-485 | closing with every queued byte in flight puts one more sequence number in flight than there are bytes, so the next run of the send path panics in `available_data_len` |
| SendRecv.Recv | src/tcp/tcb.rs:488-552 | `recv` hands over the oldest min(buffer, queued) bytes, in order, and reopens RCV.WND to the free space exactly when the receiver's SWS condition holds |
| SendRecv.RecvKeepsWindowEdge | src/tcp/tcb.rs:540-549 | reading never moves RCV.NXT + RCV.WND to the left and keeps the buffer holding the whole window |
| SendRecv.SendNewData | src/tcp/tcb.rs:665-730 | a new data segment takes the next unsent bytes; its size is limited by the MSS, SND.WND, cwnd and the unsent count and equals one of them; it carries FIN exactly when it empties the queue of a closed writer; it is queued, the timer is re-armed and SND.NXT advances over it |
| SendRecv.SendQueued | src/tcp/tcb.rs:665-763 | with queued bytes, more sequence numbers in flight than queued bytes underflow `available_data_len`; otherwise the send path emits at most one segment: new data when the SWS rule and the limits allow it, otherwise the never-sent front entry (SYN, SYN-ACK or FIN); with nothing to do the TCB is unchanged |
| SendRecv.SendMovesBytesInFlight | src/tcp/tcb.rs:667-729 | sending data without FIN moves exactly its bytes from unsent to in flight |
| RetransmitQueue.AckLoopIteration | src/tcp/tcb.rs:837-859 | one pass of the `process_ack` loop as written records the sample of the front entry, then trims it to a partial ACK or pops it on a full one |
| RetransmitQueue.AckLoopSpinsOnPartialAck | src/tcp/tcb.rs:837-859 | once the front entry is not fully acknowledged, the next pass is a fixed point with a non-empty queue, so the loop never exits |
| RetransmitQueue.AckLoopSpinExample | src/tcp/tcb.rs:837-859 | a 10-byte entry at 1000 acknowledged to 1005 is trimmed and then examined forever |
| RetransmitQueue.AckOutcome | src/tcp/tcb.rs:837-859 | where the loop must stop: the drained bytes are a prefix of `outgoing` whose length is the unacknowledged payload of the popped entries plus the acknowledged part of the next; the queue empties exactly when every entry is fully acknowledged; the sample flag comes from the last entry examined |
| RetransmitQueue.AckLoopComputesOutcome | src/tcp/tcb.rs:837-859 | the loop with an explicit stop arrives at that outcome |
| RetransmitQueue.ProcessAck | src/tcp/tcb.rs:828-876 | SND.UNA becomes the ACK; the timer is off exactly when the queue empties and is otherwise re-armed from the new front entry; an RTT sample is returned exactly when the last entry examined was never retransmitted; nothing else changes |
| RetransmitQueue.ProcessAckNeverWakesWriter | src/tcp/tcb.rs:835-875 | the writer wake-up flag `before_len < outgoing.len()` is never set, since acknowledged bytes only leave `outgoing` |
| RetransmitQueue.FullAckEmptiesQueue | src/tcp/tcb.rs:828-876 | an ACK covering every entry empties the queue, stops the timer and frees exactly the entries' unacknowledged bytes |
| RetransmitQueue.RetransmitFront | src/tcp/tcb.rs:555-596 | a timeout resends the front entry's unacknowledged bytes under its own sequence number, marks it retransmitted, adds the RTO to its total, doubles the RTO and re-arms the timer |
| RetransmitQueue.NoSampleAfterRetransmit | src/tcp/tcb.rs:841-842 | Karn's rule: after its only entry is retransmitted, no ACK yields an RTT sample |
| RetransmitQueue.GivesUpAsWritten | src/tcp/tcb.rs:647-661 | as written, the R2 test sits behind the R1 test, so the connection is closed exactly when the accumulated time is above R2 but not above R1 |
| RetransmitQueue.GivesUpAsWrittenNever | src/tcp/tcb.rs:647-661 | while the application keeps R2 at least R1 (the defaults are 100 s against 50 s, 180 s against 60 s for a SYN), the as-written test never closes a connection |
| RetransmitQueue.GivesUpAsWrittenNeverByDefault | src/tcp/tcb.rs:255-258 | with the thresholds a new TCB starts with, the as-written test never closes a connection |
| RetransmitQueue.GivesUpAgreesBelowR1 | src/tcp/tcb.rs:647-661 | up to R1 the as-written and the intended test agree; beyond R1 only the intended test can close the connection |
| RetransmitQueue.RetransmitTimeGrows | src/tcp/tcb.rs:587-592 | after `n` unanswered timeouts the RTO is 2^n times the first one, and from an RTO of at least a second the entry's total has grown by at least `n` seconds |
| RetransmitQueue.UnansweredEntryIsGivenUp | src/tcp/tcb.rs:587-661 | with the intended test, an entry that is never acknowledged is given up on after more than R2 / 1000 timeouts, whatever R2 the application has set |
| RetransmitQueue.OnRetransmitTimeout | src/tcp/tcb.rs:555-661 | the timer does nothing before its deadline; after it, an empty queue or a front entry acknowledged to its end panics, and otherwise the front entry is retransmitted and the connection given up exactly when the new total passes R2 |
| Engine.ReserveExact | src/tcp/tcb.rs:1369-1370 | `reserve_exact` leaves room for the requested bytes and keeps a capacity that already suffices |
| Engine.GrowFor | src/tcp/tcb.rs:1563 | appending to the receive buffer keeps a capacity that suffices and otherwise grows it to at least what is needed |
| Engine.ListenStep | src/tcp/tcb.rs:1025-1072 | LISTEN ignores RST, answers an ACK with a reset and otherwise leaves the TCB unchanged; a SYN sets RCV.NXT = SEG.SEQ+1, IRS = SEG.SEQ, SND.NXT = ISS+1, records the peer's window and MSS, queues a SYN-ACK at the front and enters SYN-RECEIVED with `AddToPending` |
| Engine.SynRcvdAckAsWritten | src/tcp/tcb.rs:1353-1378 | SYN-RECEIVED enters ESTABLISHED on an acceptable ACK without moving SND.UNA, so the acknowledged SYN stays counted as in flight; this is the step the engine takes |
| Engine.SynRcvdAck | src/tcp/tcb.rs:1353-1378 | the corrected step (not used by the engine): SND.UNA takes SEG.ACK, so only what lies between the ACK and SND.NXT remains in flight |
| Engine.Establish | src/tcp/tcb.rs:1359-1378 | reaching ESTABLISHED takes SND.WND/WL1/WL2 from the segment, reserves the receive buffer, empties the queue and stops the timer when the SYN is the only entry; an empty queue panics in `unwrap` and a longer one in `assert!` |
| Engine.SynSentStep | src/tcp/tcb.rs:1121-1177 | SYN-SENT answers an ACK outside (SND.UNA, SND.NXT] with a reset and no change; RST with an acceptable ACK resets; a SYN whose ACK is past ISS reaches ESTABLISHED with an ACK written, an empty queue and no timer, and any other SYN moves to SYN-RECEIVED with a SYN-ACK |
| Engine.Screen | src/tcp/tcb.rs:1191-1330 | the first five checks: an unacceptable segment is answered with an ACK unless it is an RST; an RST stops SYN-RECEIVED and resets ESTABLISHED, FIN-WAIT-1/2 and CLOSE-WAIT; a SYN stops a passive SYN-RECEIVED and resets the later states; a segment without ACK is dropped; processing continues exactly in the remaining case |
| Engine.WindowUpdate | src/tcp/tcb.rs:1436-1460 | when the update test passes, SND.WND takes SEG.WND capped at the largest window, WL1/WL2 record the segment, and the persist timer runs exactly when the window is zero; otherwise nothing changes |
| Engine.AcceptAck | src/tcp/tcb.rs:1415-1428 | an acceptable ACK grows cwnd (panicking on u32 overflow), runs `process_ack` and feeds any RTT sample to the estimator; SND.UNA becomes the ACK and the state is unchanged |
| Engine.LastAckPhase | src/tcp/tcb.rs:1461-1473 | LAST-ACK processes any ACK and deletes the TCB exactly when the FIN is then acknowledged |
| Engine.AckPhase | src/tcp/tcb.rs:1384-1485 | the ACK check per state: an acceptable ACK is processed; one beyond SND.NXT is answered and ends the step with no change; a duplicate only updates the window; TIME-WAIT restarts its timer and writes an ACK; the state is never changed here |
| Engine.AcceptText | src/tcp/tcb.rs:1555-1557 | the length subtraction underflows exactly when RCV.NXT lies more than the payload length past SEG.SEQ, which includes all text starting after RCV.NXT; otherwise the bytes from RCV.NXT on are delivered |
| Engine.Deliver | src/tcp/tcb.rs:1555-1581 | min(new bytes, RCV.WND) bytes are appended to the receive buffer in order; RCV.NXT advances over them, and over the FIN only if the whole segment fit; RCV.WND shrinks by the same count; an ACK is written exactly when RCV.NXT moved or the window was zero; the reader is woken exactly when bytes were taken |
| Engine.TextKeepsRecvBuffer | src/tcp/tcb.rs:1555-1573 | accepting text keeps the receive buffer able to hold the whole advertised window without growing it |
| Engine.AdvanceSmall | src/tcp/tcb.rs:1565-1576 | RCV.NXT advanced by the accepted bytes and the FIN lies ahead of its old value exactly when something was consumed |
| Engine.FinPhase | src/tcp/tcb.rs:1638-1670 | a consumed FIN takes SYN-RECEIVED and ESTABLISHED to CLOSE-WAIT with the read half closed, FIN-WAIT-1 to TIME-WAIT if our FIN is acknowledged and to CLOSING otherwise, FIN-WAIT-2 to TIME-WAIT, and restarts the TIME-WAIT timer; in other states it ends the step |
| Engine.Finish | src/tcp/tcb.rs:1638-1676 | without a FIN the step ends with the wake-up flags; a FIN in CLOSE-WAIT, CLOSING or LAST-ACK ends it with `Noop`; otherwise the FIN phase applies, and a FIN consumed in SYN-RECEIVED or ESTABLISHED also wakes the reader |
| Engine.AfterAck | src/tcp/tcb.rs:1492-1676 | after the ACK phase, text and FIN processing only follow diagram edges, keep SND and cwnd, add segments after those already written, and can only panic by underflow |
| Engine.SynchronizedStep | src/tcp/tcb.rs:1178-1677 | in a synchronized state every change follows the state diagram, and `DeleteTcb` comes only from LAST-ACK with the FIN acknowledged |
| Engine.OnSegment | src/tcp/tcb.rs:965-1678 | every state change follows an edge of figure 5 of RFC 9293, the connection's kind and write half never change, and the TCB is deleted only from LAST-ACK once our FIN is acknowledged |
| Engine.PassiveOpenHandshake | src/tcp/tcb.rs:1353-1378 | LISTEN plus a SYN, then the ACK of ISS+1, reaches ESTABLISHED with the queue empty and the timer off, but SND.UNA stays at ISS, so the acknowledged SYN still counts as in flight |
| Engine.PassiveOpenSkipsFirstByte | src/tcp/tcb.rs:1353-1378 | after a passive open through `on_segment`, one sequence number stays in flight: the first data segment goes out at ISS+1 starting with the second byte the application wrote, and a `close` with nothing queued underflows |
| Engine.PassiveOpenSendsFirstByte | src/tcp/tcb.rs:667-722 | with the corrected SYN-RECEIVED step in place of the engine's, that segment starts with the first byte written, and a `close` with nothing queued succeeds |
| Engine.ActiveOpenHandshake | src/tcp/tcb.rs:1137-1166 | from `syn_sent`, a SYN-ACK acknowledging ISS+1 reaches ESTABLISHED with nothing outstanding and writes exactly one ACK |
| Engine.SynSentRejectsBadAck | src/tcp/tcb.rs:1121-1134 | in SYN-SENT an unacceptable ACK is answered with a reset and changes nothing |
| Engine.SynInSynchronizedStateResets | src/tcp/tcb.rs:1268-1323 | an acceptable SYN in a synchronized state after SYN-RECEIVED writes a reset and resets the connection |
| Engine.RstHandling | src/tcp/tcb.rs:1197-1252 | an unacceptable RST is dropped; an acceptable one removes a passive SYN-RECEIVED connection from the pending set, refuses an active one, and resets ESTABLISHED, FIN-WAIT-1/2 and CLOSE-WAIT |
| Engine.AckOfUnsentDataAnswered | src/tcp/tcb.rs:1429-1434 | an ACK beyond SND.NXT is answered with an ACK and changes nothing |
| Engine.EstabAckAdvancesUna | src/tcp/tcb.rs:1415-1428 | in ESTABLISHED an acceptable ACK sets SND.UNA to it and grows cwnd once; only data acceptance can still panic |
| Engine.EstabAckPhase | src/tcp/tcb.rs:1415-1428 | the ACK phase of that step goes on with SND.UNA at the ACK |
| Engine.DuplicateAckPhase | src/tcp/tcb.rs:1415-1434 | an ACK equal to SND.UNA is neither processed nor answered; only the window update applies |
| Engine.EstabFinMovesToCloseWait | src/tcp/tcb.rs:1638-1646 | a FIN at RCV.NXT in ESTABLISHED moves to CLOSE-WAIT, advances RCV.NXT over the FIN, writes its ACK, closes the read half and wakes the reader |
| Engine.EstabFinText | src/tcp/tcb.rs:1555-1581 | the text-and-FIN part of that step |
| Engine.TimeWaitFinRestartsTimer | src/tcp/tcb.rs:1474-1485 | in TIME-WAIT a retransmitted FIN is acknowledged and the 2 x MSL timer restarted |
| Engine.LastAckNeverDeletes | src/tcp/tcb.rs:1461-1473 | with the write half never closed, no segment deletes a LAST-ACK TCB |
| Engine.FinWait1NeverAdvances | src/tcp/tcb.rs:1492-1497 | with the write half never closed, FIN-WAIT-1 moves only to CLOSING |
| Engine.ClosingIsNeverLeft | src/tcp/tcb.rs:1662-1666 | no segment takes CLOSING anywhere, since the source has no transition to TIME-WAIT there |
| Engine.FutureDataPanics | src/tcp/tcb.rs:1555-1556 | acceptable text starting after RCV.NXT makes the length subtraction underflow |
| Engine.TextKeepsRightEdge | src/tcp/tcb.rs:1565-1573 | without a FIN, accepting text keeps RCV.NXT + RCV.WND where it was |
| OldEngine.OldListenStep | src/tcp/mod.rs:285-311 | LISTEN ignores RST and answers an ACK with a reset; a SYN sets RCV.NXT = SEG.SEQ+1, IRS = SEG.SEQ, SND.NXT = ISS+1 and SND.WND, writes the SYN-ACK and returns `AddToPending`, and panics when either `+ 1` overflows |
| OldEngine.OldScreen | src/tcp/mod.rs:325-463 | the checks before the ACK field, as in tcb.rs except that an RST on an active SYN-RECEIVED connection falls through |
| OldEngine.OldWindowUpdate | src/tcp/mod.rs:537-550 | the window update changes only SND.WND/WL1/WL2, taking SEG.WND with no cap, and starts no persist timer |
| OldEngine.OldAcceptText | src/tcp/mod.rs:592-601 | text starting after RCV.NXT underflows; otherwise at most RCV.WND new bytes are appended in order, RCV.NXT advances and RCV.WND shrinks by exactly that count |
| OldEngine.OldAckIteration | src/tcp/mod.rs:605-627 | one pass of the mod.rs ACK loop as written, with non-wrapping comparisons: pop when the ACK is past the end, keep the rest of the queue otherwise |
| OldEngine.OldAckLoopSpins | src/tcp/mod.rs:605-627 | once the front entry is not passed, the next pass changes nothing and the queue stays non-empty, so the loop never exits |
| OldEngine.OldAckLoop | src/tcp/mod.rs:605-627 | the loop with an explicit stop pops exactly a prefix of entries whose ends lie before the ACK and stops at the first entry the ACK does not pass; `end()` overflowing or underflowing panics |
| OldEngine.ComputeRtoOld | src/tcp/mod.rs:655-672 | as written, RTO is the smaller of one second and SRTT + max(G, 4 RTTVAR): it never exceeds one second, and below one second it is that sum |
| OldEngine.OldRtoUndercutsRtt | src/tcp/mod.rs:666-672 | a first sample above one second leaves the as-written RTO below SRTT, while the corrected RTO stays above it |
| OldEngine.OldDataPhase | src/tcp/mod.rs:592-679 | data acceptance, the ACK loop and the RTO update end with one ACK carrying the new RCV.NXT and RCV.WND and a reader wake-up |
| OldEngine.OldOnSegment | src/tcp/mod.rs:226-698 | the only state changes are LISTEN to SYN-RECEIVED with `AddToPending` and SYN-RECEIVED to ESTABLISHED with `IsEstablished`; the kind never changes |
| OldEngine.OldPassiveOpen | src/tcp/mod.rs:186-311 | `listen` starts with ISS = SND.UNA = 0, RCV.WND = 64240 and RTO one second; a SYN then gives SYN-RECEIVED with RCV.NXT = SEG.SEQ+1, IRS = SEG.SEQ, SND.NXT = 1 and the SYN-ACK written; a SYN at sequence number 2^32-1 panics |
| OldEngine.OldSynRcvdAck | src/tcp/mod.rs:465-497 | in SYN-RECEIVED an acceptable ACK enters ESTABLISHED with SND.WND/WL1/WL2 from the segment; any other ACK writes a reset and then reaches `todo!()` |
| OldEngine.OldRstHandling | src/tcp/mod.rs:331-385 | an unacceptable RST is dropped; an acceptable one returns `RemoveFromPending` in passive SYN-RECEIVED and sets `reset` with `Reset` in ESTABLISHED, FIN-WAIT-1/2 and CLOSE-WAIT |
| OldEngine.OldSynResets | src/tcp/mod.rs:388-456 | a SYN in any synchronized state after SYN-RECEIVED writes a reset and returns `Reset` |
| OldEngine.OldEstabAck | src/tcp/mod.rs:524-535 | in ESTABLISHED an acceptable ACK sets SND.UNA to it; one beyond SND.NXT is answered with an ACK and changes nothing |
| OldEngine.OldLaterStatesUnimplemented | src/tcp/mod.rs:680-696 | CLOSE-WAIT, CLOSING, LAST-ACK and TIME-WAIT reach `todo!()` for every segment that passes the first checks |

## Left out

- The urgent pointer and the connection's address quad: the engine never reads them.
- The packet building of `write_*`, and `ioutil.rs`: segments are abstract values with the fields the engine chooses. Checksums and framing are out of scope.
- MSS option parsing (tcb.rs:1036-1042): the arriving segment carries its MSS option already decoded.
- The TIME-WAIT and zero-window-probe branches of `on_tick` (tcb.rs:765-823): they depend on the wall clock, and their comparisons are reversed in the source. The persist timer is set and cleared (`Engine.WindowUpdate`) but never fired.
- The retransmission threshold R1 only logs, so it is not modelled beyond its value. The "negative advice" it would trigger is not part of the code.
- The capacity of `outgoing` and `is_outgoing_full`: they serve the blocking `write` of `stream.rs`, which is not part of this model. The capacity of `incoming` is kept, because `recv` reads it.
- The exact growth policy of `VecDeque`: `Engine.GrowFor` states only that the capacity suffices and that it is unchanged when it already did.
- The `outgoing.reserve` of mod.rs (src/tcp/mod.rs:302): the old TCB keeps no capacities, because nothing in mod.rs reads them.
- `AddToPending(self.clone())`: the copy of the TCB is the outcome's TCB.
- Atomics (`reset`, `read_closed`, `write_closed`, `r2`, `r2_syn`) are plain fields. Their sharing with `stream.rs` and `lib.rs` is concurrency glue and is not modelled. The application's `set_r2` and `set_r2_syn` (stream.rs) are covered by letting `Tcb.r2` and `Tcb.r2Syn` take any 64-bit value.
- `src/lib.rs`, `src/tcp/stream.rs`, `src/tcp/listen.rs`, the demo binaries and `src/err.rs`: the connection manager, threads and the application surface are not part of this model.
- Floating point: the f64 expressions of `compute_rto`, `congestion_control`, `sws_allows_send` and `recv` are modelled as integer floor division. This is exact for the 16-bit and millisecond values involved, far below 2^50.
- u128 arithmetic of the RTO estimator: modelled as unbounded naturals, since no u128 overflow is reachable from millisecond samples.
- RetransmitQueue.ProcessAck: it requires `AckSafe`. The source panics outside it, and `Engine.AcceptAck` turns that into an `AckQueue` panic instead of naming which `unwrap`, index or drain fails.
- RetransmitQueue.OnRetransmitTimeout: it does not model the logging of R1, and uses the corrected R2 test (see Findings). That test compares the accumulated time itself rather than its truncation to 64 bits (`as u64`); the two differ only beyond 2^64 ms.
- Engine.SynRcvdAck: the corrected SYN-RECEIVED step is not used by `Engine.OnSegment`, which keeps the step as written so that the engine follows tcb.rs. The corrected behaviour is stated only through `Engine.PassiveOpenSendsFirstByte`.
- OldEngine.OldDataPhase: it uses the corrected ACK loop and the corrected RTO floor (see Findings), so it does not reproduce the as-written spin or the one-second cap.

## Findings

| source | as written | input that shows it | evidently intended | confidence | as-written member | corrected member |
|---|---|---|---|---|---|---|
| src/tcp/tcb.rs:837-859 | the `process_ack` loop runs while the queue is non-empty, but a pass over an entry the ACK does not fully cover makes no progress | a 10-byte entry at 1000 and an ACK of 1005: the entry is trimmed to 1005 and then examined forever | pop the fully acknowledged entries, trim the next one, and stop | not executed | RetransmitQueue.AckLoopSpinsOnPartialAck | RetransmitQueue.AckLoopComputesOutcome |
| src/tcp/tcb.rs:647-661 | the R2 test is the `else` branch of the R1 test, so it can fire only while the total is at most R1 | with the default R2 of 100 s (above R1 = 50 s), any accumulated retransmission time: above R1 the first branch is taken, and at most R1 it is not above R2; a connection is given up only if the application sets R2 below R1 | close the connection once the accumulated time passes R2 | not executed | RetransmitQueue.GivesUpAsWrittenNever | RetransmitQueue.UnansweredEntryIsGivenUp |
| src/tcp/mod.rs:672 | RTO is clamped with `min(rto, 1000)`, under a comment asking to round values below one second up; the defect is latent, since nothing in mod.rs reads `rto` yet | a first RTT sample of 2000 ms: SRTT 2000, RTO 1000, so a timer using it would fire before the ACK could arrive | `max(rto, 1000)`, as tcb.rs:962 has it | not executed | OldEngine.OldRtoUndercutsRtt | Rto.ComputeRto |
| src/tcp/mod.rs:605-627 | the mod.rs ACK loop runs while the queue is non-empty, but a pass over an entry whose end the ACK does not pass leaves the queue unchanged; the defect is latent, since nothing in mod.rs fills that queue yet | an entry covering 1000..1009 and an ACK of 1005: trimmed to 1005, then examined forever | pop the passed entries and stop at the first entry the ACK does not pass | not executed | OldEngine.OldAckLoopSpins | OldEngine.OldAckLoop |
| src/tcp/tcb.rs:1353-1378 | SYN-RECEIVED enters ESTABLISHED on an acceptable ACK without setting SND.UNA to SEG.ACK, so SND.NXT - SND.UNA stays 1 and the send path skips that many bytes of `outgoing` | a passive open with ISS = i, the peer's ACK of i+1, then the application writes "ab" before the peer sends anything: the first data segment goes out at i+1 carrying "b"; had nothing been queued, `close` would underflow in `available_data_len` instead | SND.UNA <- SEG.ACK on that step, as the ACK processing of section 3.10.7.4 of RFC 9293 does | not executed | Engine.PassiveOpenSkipsFirstByte | Engine.PassiveOpenSendsFirstByte |
