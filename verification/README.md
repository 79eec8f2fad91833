# A verified model of xgen-link

xgen-link is a reliable transport stack for embedded links. This Dafny project
models its state machines and its arithmetic and proves what the stack is for:
payloads arrive once and in order over a network that loses, repeats and
reorders; a message cut into fragments comes back whole from any order of
arrival; a frame written by the serializer is the frame the byte parser, the
data link and the verifier see, after any number of hops; indexes, bitmaps,
caches and pools mean what the plain structures they replace would mean.

`dafny verify dfyconfig.toml` checks the whole project.

## How the model is laid out

Code that updates objects in place is modelled by classes with the same fields.
Each class has a value, its `View`, and every method is proved to change that
value exactly as a specification function says; what the source promises is
then proved of the specification, for all inputs and over whole runs. What one
call answers, in every case and down to the constants and the byte offsets, is
stated once more without the specification functions: in `Sending`, `Acking`,
`Arrival` and `Stamps` for the transport, in `Layout` and `Answers` for the bytes,
in `Verdicts` for the replay filter.

| part | specification and theorems | objects and loops |
|---|---|---|
| shared types | `Base` | |
| sliding window | `Window` | `Window.SlidingWindow` |
| ACK ranges, SACK bitmaps | `AckRanges`, `Sack`, `Feedback`, `Acking`, `AckCodec` | `TxPeer.Peer`, `RxPeer.Peer`, `AckCodec` |
| sender of one session | `Reliable`, `Retry`, `Sender`, `SenderInv`, `Sending`, `Acking` | `TxPeer.Peer`, `ReliableQueue.Queue` |
| receiver of one session | `Receiver`, `Arrival` | `RxPeer.Peer` |
| both peers and the network | `Protocol`, `Recovery`, `Assumptions` | |
| deadlines and sleeping | `Deadline`, `Sleep` | `TxPeer.Peer`, `Deadline.NextDeadlineMs` |
| fragments | `Fragmentation`, `FragmentRange`, `Reassembly`, `Stamps`, `RoundTrip`, `FragmentSend`, `MessageTrip` | `FragmentRange.Received`, `Reassembler`, `FragmentSend.Splitter` |
| frames | `Crc`, `Wire`, `Frame`, `FrameAuth`, `Layout`, `Parser`, `DataLink`, `Answers`, `Forward`, `EndToEnd` | `ByteParser.Machine`, `Wire.Cursor`, the serializers |
| replay filter | `Replay`, `Verdicts` | `Replay.ReplayWindow`, `Replay.ReplayTable` |
| routes | `RouteTable` | `HashTable.Table`, `RouteTable.Routes` |
| pools | `PoolSpec` | `MemPool.Pool`, `MemPool.TieredPool` |

What comes from outside is an input: the clock, whether an allocation or a
lower-layer send succeeds, and the `sign` and `verify` functions of the
authentication provider. `nat` stands for `size_t`; 8-, 16- and 32-bit fields
are bounded types, and where the code wraps around, the model does (`Add32`,
`Sub32`, the 8-bit retry counter).

## The assumptions of the delivery theorem, and where they end

`Protocol` fixes one established session with fewer than 2^32 - 1 packets,
unfragmented payloads and deliveries that succeed. The window sizes, the retry
limit, the order of events, the timing and every failure flag are arbitrary.
Where the code needs an assumption the project says exactly when it holds:

- Numbers are compared with plain `<`. The receiver takes a later packet for an
  old one, acknowledging it unseen, if and only if a 32-bit wrap lies between it
  and the expected packet (`Assumptions.NewTakenAsOldIff`), and recognises an old
  one if and only if none does (`Assumptions.OldTakenAsOldIff`). The outstanding
  packets can all be marked in the window if and only if they do not cross the
  wrap (`Window.OutstandingMarkableIff`).
- The ACK leaves before the delivery. What is acknowledged is held if and only
  if the whole delivered run succeeds (`Assumptions.AckedIsHeldIff`).
- A packet that runs out of retries leaves the queue and the window base stays
  where it is. While every queued packet can still get through (it has a
  retransmission left, or its ACK is in flight, or its bytes are and the receiver
  waits for no earlier number), some continuation delivers and acknowledges
  everything if and only if nothing was given up (`Recovery.FinishesIff`); once
  something was, no continuation ever empties the window (`Recovery.GivenUpBlocks`) or gets more
  than a window further (`Protocol.AbandonedStallsForever`).
- The 16-range table refuses a piece if and only if it would leave more than 16
  separate runs (`RoundTrip.EveryPieceAnswered`); some order of arrival gets
  there if and only if the message has more than 32 pieces
  (`RoundTrip.CapReachableIff`), and pieces that arrive in order never do.
- The clock reading wraps every 49.7 days, and so do cached deadlines. Times in
  the model do not wrap; readings do. Recomputing the cache is right for every
  queue whose due times lie within a spread `s` if and only if `s < 2^31` ms
  (`Deadline.SpreadIsExact`), and then if and only if the earliest deadline does
  not read 0, the code's mark for "none" (`Deadline.EarliestRightIff`). A SACK
  that leaves the cache alone leaves it early enough if and only if the cache is
  not later than the new deadline of anything that SACK sent again, up to the
  first resend that was refused (`Deadline.SackKeepsCacheIff`). An event keeps
  the cache early enough if and only if it meets its half of this
  (`Deadline.EventKeepsCacheIff`).
- A packet stamped at clock reading 0 is never due, retransmitted or reported; a
  packet stamped at any other reading becomes due (`Retry.ActsSometimeIff`).
- The sleep query skips a reassembly timeout of 0, which the expiry check does
  not; its answer is safe for the reassemblies if and only if it is 0 or every
  running one has a positive timeout (`Deadline.ReassemblySleepSafeIff`). The
  transport always passes 5000 ms, so a timeout of 0 takes a caller of the
  fragment manager's own initialisation.
- A timeout never shrinks if and only if it starts at 30000 ms or less; a longer
  one is cut at the first retransmission (`Retry.NeverShrinksIff`).
- The packet index finds the newest packet with a key, a scan of the list finds
  the oldest; they agree if and only if the key occurs at most once
  (`ReliableQueue.IndexIsListScanIff`), which the transport's numbering ensures.
- The parser does not look at the session extensions, the 2048-byte limit or the
  key that a link with authentication requires, and it does not ask for a tag
  when a frame claims authentication but has no extensions;
  `DataLink.AcceptedDecodesIff` and `DataLink.DecodedAcceptsIff` say exactly
  where parser and data link differ.

## Model

| member | source | states |
|---|---|---|
| Protocol.DeliveryIsPrefix | src/transport/xgl_transport_receive.c:47-92 | over every run with loss, duplication, reordering, retransmission, ACKs and SACKs, the payloads delivered are the first `rx_next` payloads committed, in order, none missing and none twice |
| Protocol.RunKeepsInv | src/transport/xgl_transport_send_packet.c:76-124 | the joint invariant of sender, receiver and messages in flight holds in every reachable state |
| Protocol.StepKeepsInv | src/transport/xgl_transport_sack.c:16-100 | each kind of step (send, data, ACK, SACK, timeout, loss) keeps the joint invariant |
| Protocol.NothingIsLost | src/transport/xgl_transport_send_packet.c:101-121 | over every run a committed number is queued with its original bytes, or given up, or delivered or buffered with its original bytes at the receiver |
| Protocol.WindowBounds | src/transport/xgl_window.c:106-177 | `base <= rx_next <= next <= base + window_size` in every reachable state |
| Protocol.AwaitedIsQueued | src/transport/xgl_transport_retransmit.c:55-103 | the packet the receiver waits for is still queued with its bytes unless it was given up |
| Protocol.EmptyQueueMeansDelivered | src/transport/xgl_transport_receive.c:47-92 | nothing queued and nothing given up means everything committed was delivered |
| Protocol.RetransmissionMakesProgress | src/transport/xgl_transport_retransmit.c:8-53 | when the awaited packet's timeout fires and the resend is accepted, its arrival makes the receiver deliver more |
| Protocol.AbandonedStallsForever | src/transport/xgl_transport_retransmit.c:77-93 | once a packet is given up, no continuation of the run commits or delivers more than a window past it |
| Recovery.FinishesIff | src/transport/xgl_transport_retransmit.c:55-103 | from every reachable state whose queued packets can all still get through (a retransmission left, or the ACK in flight, or the bytes in flight with nothing earlier awaited), some continuation delivers everything committed and empties queue and window if and only if nothing was given up |
| Recovery.GivenUpBlocks | src/transport/xgl_transport_retransmit.c:77-93 | once a packet was given up, no continuation of the run empties the window |
| Recovery.RunSettles | src/transport/xgl_transport_sack.c:86-97 | over every run the window base rests on an acknowledged number only while something is queued or was given up |
| Protocol.NeverWindowFull | src/transport/xgl_transport_rx_buffer.c:123-132 | with a receive window at least the sender's, no packet of the run is refused as beyond the window |
| Assumptions.NewTakenAsOldIff | src/transport/xgl_transport_receive_order.c:25-33 | a receiver waiting for packet `n` acknowledges a later packet `k` as old and keeps nothing of it if and only if a 32-bit wrap lies between `n` and `k` |
| Assumptions.OldTakenAsOldIff | src/transport/xgl_transport_receive_order.c:25-33 | it answers an earlier packet with nothing but its ACK if and only if no wrap lies between them |
| Assumptions.WrapAcknowledgesUnseen | src/transport/xgl_transport_receive_order.c:25-33 | the concrete failure: the first packet after the wrap is acknowledged as old and not kept |
| Assumptions.AckedIsHeldIff | src/transport/xgl_transport_receive.c:47-92 | every number the replies acknowledge is held afterwards if and only if the expected packet and the run behind it all deliver |
| Assumptions.DrainHoldsIff | src/transport/xgl_transport_rx_order.c:8-36 | the same for the drain loop alone |
| Receiver.ReceiveKeepsBuffer | src/transport/xgl_transport_receive_order.c:8-49 | for arbitrary arriving numbers the buffer stays strictly ascending and strictly between `rx_next` and `rx_next + window` |
| Receiver.BufferNeverCountFull | src/transport/xgl_transport_rx_buffer.c:114-155 | at most window - 1 packets are buffered, so the count test never fires |
| Receiver.DrainDeliversRun | src/transport/xgl_transport_rx_order.c:8-36 | draining delivers and acknowledges exactly the gapless run at the front of the buffer |
| Receiver.ReceiveHolds | src/transport/xgl_transport_receive.c:11-95 | one arrival delivers exactly the next stretch of committed payloads, loses nothing held, and acknowledges only what is held |
| Arrival.EarlyAnswer | src/transport/xgl_transport_rx_buffer.c:114-155 | a packet beyond the expected one is buffered if and only if it has bytes, is less than a window ahead and there is memory (or was already there); the other buffered packets stay, nothing is delivered, and one SACK naming exactly what is then buffered goes out |
| Arrival.ExpectedAnswer | src/transport/xgl_transport_receive.c:47-92 | the expected packet delivers its bytes and those of the whole gapless run behind it, in order, one ACK each; what lies beyond the gap stays buffered |
| Arrival.RunCutShort | src/transport/xgl_transport_rx_order.c:8-36 | when the application refuses a packet of that run, those before it are delivered, it has been acknowledged and is gone, its number is still expected, and the rest stays buffered |
| Arrival.RefusedAnswer | src/transport/xgl_transport_receive.c:47-92 | an expected packet the application refuses is acknowledged and changes nothing |
| Arrival.OldAnswer | src/transport/xgl_transport_receive_order.c:25-33 | an old packet is acknowledged again and changes nothing |
| Arrival.FirstAnswer | src/transport/xgl_transport_receive_order.c:20-23 | a receiver that has seen nothing waits for number 0 |
| Arrival.ArrivalsKept | src/transport/xgl_transport_rx_buffer.c:114-155 | after any run of early packets of one window, in any order and with repeats, the buffer holds exactly those that came, with their bytes |
| Arrival.WindowDelivers | src/transport/xgl_transport_receive.c:11-95 | the later packets of a window arrive in any order and any number of times; when the missing first one comes, all payloads of the window are delivered at once, in order, and the buffer is empty |
| RxPeer.Peer.ReceivePacket | src/transport/xgl_transport_receive.c:11-95 | on the linked list: state, replies, deliveries and status are those of the specification, for old, expected and early packets and every failure |
| RxPeer.Peer.CacheEarly | src/transport/xgl_transport_rx_buffer.c:114-155 | the early packet is inserted at its sorted place or refused with the right status, duplicates being accepted silently |
| RxPeer.Peer.Find | src/transport/xgl_transport_rx_buffer.c:11-42 | the node with a number and its predecessor, or where such a node would go |
| RxPeer.Peer.Take | src/transport/xgl_transport_rx_buffer.c:158-179 | unlinks exactly the asked-for packet |
| RxPeer.Peer.DrainBuffered | src/transport/xgl_transport_rx_order.c:8-36 | the endless loop terminates and does what the recursive drain does, including stopping at a failed delivery |
| RxPeer.Peer.BuildSack | src/transport/xgl_transport_sack_send.c:20-44 | one pass over the list yields the trimmed bitmap of the buffered numbers |
| Sack.BuildNames | src/transport/xgl_transport_sack_send.c:9-82 | reading the built bitmap back names exactly the buffered numbers within 64 of the base |
| Feedback.SackRoundTrip | src/transport/xgl_transport_sack.c:37-97 | sent by the receiver and read by the sender, a SACK removes exactly the reported numbers and resends, oldest first, exactly the queued unreported ones up to the highest reported; with nothing to report, the base alone |
| Feedback.BaseBitIsClear | src/transport/xgl_transport_sack_send.c:20-44 | bit 0 of a receiver's own SACK is never set |
| Acking.AckAnswer | src/transport/xgl_transport_ack.c:57-112 | any list of ranges: exactly the packets its layout names leave the queue, the window takes exactly the named numbers inside it and slides to the first one missing; an ACK that names nothing queued is an error and changes nothing |
| Acking.SackAnswer | src/transport/xgl_transport_sack.c:55-100 | any bitmap with a set bit: the queued numbers with a set bit leave the queue and are taken by the window, which slides to the first one missing; the queued ones below the top bit with a clear bit go out again, oldest first |
| Acking.SackCutShort | src/transport/xgl_transport_sack.c:61-93 | when a resend is refused, the bits before it have had exactly this effect, the refusal is the answer, and the base does not move |
| Acking.BareSackAnswer | src/transport/xgl_transport_sack.c:16-59 | a bitmap without a set bit sends the base again if it is queued and the lower layer takes it; every other case is refused with its own error and changes nothing |
| Acking.LongSackRefused | src/transport/xgl_transport_sack.c:16-36 | a bitmap of more than 64 bytes is refused and changes nothing |
| Acking.TickAnswer | src/transport/xgl_transport_retransmit.c:55-103 | a timeout pass, packet by packet: sent again with its own bytes, dropped, or left as it is, exactly as stamp, timeout, retry count and lower layer say; resends go out oldest first and the window does not move |
| Sender.SackFromEffect | src/transport/xgl_transport_sack.c:55-97 | the bit walk equals a set description of what is removed and what is sent again, for any bitmap |
| SenderInv.OnSackKeeps | src/transport/xgl_transport_sack.c:16-100 | a SACK whose bits are honest keeps the three fates of every number, even when a resend is refused half way |
| SenderInv.OnAckKeeps | src/transport/xgl_transport_ack.c:57-112 | an honest ACK keeps them too and sends nothing |
| SenderInv.TickKeepsTx | src/transport/xgl_transport_retransmit.c:55-103 | a timeout keeps them, moving exactly the exhausted packets to the given-up set |
| Sending.SendAnswer | src/transport/xgl_transport_send_packet.c:27-124 | in every state of the protocol a send is committed if and only if it has bytes, `next < base + window_size`, there is memory and the lower layer takes it; then one packet with the caller's bytes goes out and is queued under the next number; a refusal says which test failed first and changes nothing |
| Sending.FreshWindowFills | src/transport/xgl_window.c:106-113 | from a fresh window exactly as many good sends in a row succeed as it has slots, and the next one finds it full |
| AckRanges.AckSetIsLayout | src/transport/xgl_reliable_ack.c:21-53 | the descending walk visits exactly the numbers of the declarative reading: first range ending at the largest, each later non-empty one after `gap` skipped numbers, clamped at 0 |
| AckRanges.WalkDescends | src/transport/xgl_reliable_ack.c:21-53 | later blocks lie strictly below earlier ones, so blocks are disjoint |
| Window.MarkAcks | src/transport/xgl_window.c:141-159 | marking acknowledges that number, only inside the window, and no other |
| Window.AdvanceKeepsAcks | src/transport/xgl_window.c:161-177 | sliding the base neither forgets nor invents an acknowledgement and stops at the first unacknowledged number |
| Window.OutstandingMarkableIff | src/transport/xgl_window.c:131-139 | every outstanding number passes the window test if and only if the outstanding run does not cross the 32-bit wrap |
| Window.SlidingWindow.AdvanceBase | src/transport/xgl_window.c:161-177 | repeated one-place shifts of the flag array drop exactly the leading acknowledged slots |
| Window.SlidingWindow.MarkAck | src/transport/xgl_window.c:141-159 | sets one flag, or reports a number outside the window and changes nothing |
| Window.SlidingWindow.Init | src/transport/xgl_window.c:18-41 | an empty window of 1 to 128 slots, or the right error |
| TxPeer.Peer.SendPacket | src/transport/xgl_transport_send_packet.c:27-124 | queue, send, commit: on success one packet is queued under the next number and its clock starts; on any refusal queue, window and deadline are as before |
| TxPeer.Peer.ProcessAckRanges | src/transport/xgl_transport_ack.c:9-112 | queue and window change exactly by the numbers the ranges acknowledge, an ACK that removes nothing is an error, and the cached deadline is refreshed |
| TxPeer.Peer.RemoveAckRanges | src/transport/xgl_reliable_ack.c:9-56 | removes exactly the acknowledged packets, and its count is the drop in queue size |
| TxPeer.Peer.MarkAckRangeWindows | src/transport/xgl_transport_ack.c:9-55 | the second walk marks the same set before the base slides |
| TxPeer.Peer.ProcessSack | src/transport/xgl_transport_sack.c:16-150 | the in-place bit walk over queue and window does what the specification does, including an early stop at a refused resend |
| TxPeer.Peer.ProcessTimeouts | src/transport/xgl_transport_retransmit.c:55-120 | the safe list walk, which removes nodes by key while walking, resends and gives up exactly what is due and reports each given-up packet once |
| TxPeer.Peer.UpdateDeadline | src/transport/xgl_transport_peer.c:204-224 | the cache is the fold of the earliest deadline over the whole queue |
| TxPeer.Peer.Reset | src/transport/xgl_transport_peer.c:178-202 | a reset empties queue and window and leaves the cached deadline as it is |
| Window.SlidingWindow.Reset | src/transport/xgl_window.c:95-104 | all flags cleared, both numbers 0 |
| TxPeer.RemoveNewestIsKept | src/transport/xgl_reliable.c:114-132 | with distinct keys, removal through the index is filtering the list by number |
| ReliableQueue.Queue.Add | src/transport/xgl_reliable.c:53-112 | appends one packet to the doubly linked list and to its hash chain, and nothing else |
| ReliableQueue.Queue.Remove | src/transport/xgl_reliable.c:114-132 | removes the newest packet with the key from list and index together, or changes nothing |
| ReliableQueue.Queue.Find | src/transport/xgl_reliable_packet.c:80-97 | the lookup through one of 32 chains finds the newest packet of the whole list with that key |
| ReliableQueue.Queue.Clear | src/transport/xgl_reliable.c:161-177 | empties list and index |
| ReliableQueue.Queue.IndexPacket | src/transport/xgl_reliable_packet.c:24-34 | the chains again hold exactly the listed packets |
| ReliableQueue.Queue.UnindexPacket | src/transport/xgl_reliable_packet.c:36-59 | takes one packet out of its chain and leaves the rest of every chain in order |
| ReliableQueue.Queue.ListRemove | src/core/xgl_list.c:166-192 | unlinking at head, middle or tail gives the links of the shorter list |
| ReliableQueue.Queue.ListInsertTail | src/core/xgl_list.c:94-111 | appending gives the links of the longer list |
| ReliableQueue.ChainFindsNewest | src/transport/xgl_reliable_packet.c:80-97 | searching one chain equals searching the whole queue |
| ReliableQueue.ChainsApart | src/transport/xgl_reliable_packet.c:18-34 | chains of different buckets share no packet |
| ReliableQueue.IndexIsListScanIff | src/transport/xgl_reliable_packet.c:80-97 | index lookup equals a list scan if and only if the key occurs at most once |
| Retry.PacketLife | src/transport/xgl_transport_retransmit.c:63-99 | under any ticks a packet is resent at most `max_retry - retries` times; when it is dropped it has used them all and is reported once; its timeout is always the backoff of its retry count |
| Retry.PacketEndsIff | src/transport/xgl_transport_retransmit.c:63-99 | with resends accepted, over any ticks: a packet is resent at each tick that reaches its timeout of the moment, as often as the limit allows, and is removed and reported once at the next such tick and at no other |
| Retry.PacketEnds | src/transport/xgl_transport_retransmit.c:63-99 | ticks in the pace of the packet's own backoff, one more than the limit allows resends, end it with every allowed resend made and one report |
| Retry.QueueEndsIff | src/transport/xgl_transport_retransmit.c:55-103 | ticks empty the whole queue if and only if each packet's timeout of the moment is reached once more than the limit allows it resends; then every allowed resend was made and every packet reported once |
| Retry.ResentIs | src/transport/xgl_transport_retransmit.c:38-53 | a resent packet is stamped with its tick, counted in 8 bits, and waits `min(30000, initial * 2^k)` next; above 30000 ms it is cut at once, and a count that wraps starts over |
| Retry.DueSometimeIff | src/transport/xgl_transport_retransmit.c:68-75 | a packet is due at some clock reading if and only if its stamp is not 0 |
| Retry.ActsSometimeIff | src/transport/xgl_transport_retransmit.c:63-99 | some run of ticks resends or reports a packet if and only if its stamp is not 0 |
| Retry.UnstampedStays | src/transport/xgl_transport_retransmit.c:68-70 | a packet stamped 0 is still queued unchanged after every run of ticks, neither resent nor reported |
| Retry.RunFollowsEachPacket | src/transport/xgl_transport_retransmit.c:55-103 | the queue after any run of ticks is what following each packet on its own predicts |
| Retry.RunSpendsBudget | src/transport/xgl_transport_retransmit.c:63-99 | resends plus reports plus what is left of the retry budget is constant over any run of ticks, whatever the times and send failures |
| Retry.BackoffIs | src/transport/xgl_reliable_timeout.c:88-111 | for timeouts up to 30000 ms the timeout after `k` resends is `min(30000, initial * 2^min(k,10))` and never shrinks |
| Retry.CappedAtOnce | src/transport/xgl_reliable_timeout.c:88-111 | for longer timeouts it is 30000 ms from the first resend on |
| Retry.NeverShrinksIff | src/transport/xgl_transport_send_packet.c:10-25 | the timeout a caller asked for never shrinks if and only if it is at most 30000 ms |
| Retry.OverflowsIff | src/transport/xgl_reliable_timeout.c:99-107 | a doubling of the loop leaves the signed 32-bit range if and only if there is one and the timeout is at least 2^30 or, scaled, below -2^31 |
| Retry.CalcBackoff | src/transport/xgl_reliable_timeout.c:88-111 | the doubling loop with its early stop computes that backoff |
| Deadline.RunFromStart | src/transport/xgl_transport_peer.c:204-224 | over any run of sends, ACKs, SACKs, ticks and resets from a fresh peer, started at any time and through clock wraps, the cached deadline is not later than any queued packet's real deadline |
| Deadline.EventKeepsCacheIff | src/transport/xgl_transport_peer.c:204-224 | an event leaves the cached deadline not later than any real one if and only if a recomputed deadline does not read 0, or what was sent again without recomputing is covered by the cache |
| Deadline.EventRefreshes | src/transport/xgl_transport_peer.c:204-224 | failing events, resets and a SACK without a set bit leave the cached deadline as it was; after any other event it is 0 when no queued packet has a deadline, and otherwise the reading of the earliest one, unless that reads 0 |
| Deadline.ResetAnswer | src/transport/xgl_transport_peer.c:178-202 | a reset leaves nothing queued, nothing acknowledged and numbers from 0 in a window of the same size |
| Deadline.DueIff | src/transport/xgl_transport_retransmit.c:68-75 | through clock wraps, a packet is due at a time if and only if that time is at least its timeout past its stamp |
| Deadline.DeadlineIsReached | src/transport/xgl_transport_retransmit.c:63-99 | a tick at the time a right cache stands for resends or drops the packet with the earliest deadline |
| Deadline.SackKeepsCacheIff | src/transport/xgl_transport_sack.c:37-97 | a SACK that leaves the cache alone keeps it early enough if and only if the cache covers every packet the SACK sent again, also when a refused resend stops the walk half way |
| Deadline.WalkQueue | src/transport/xgl_transport_sack.c:61-93 | what the walk leaves of the queue, stopped or not: without the named, and with exactly the unnamed up to the first refusal sent again |
| Deadline.RecomputedNotLaterIff | src/transport/xgl_transport_peer.c:210-223 | with due times less than 2^31 ms apart, a recomputed cache is not later than any of them if and only if the earliest does not read 0 |
| Deadline.EarliestRightIff | src/transport/xgl_transport_peer.c:212-223 | with due times less than 2^31 ms apart, the recomputed cache is the earliest deadline if and only if that deadline does not read 0 |
| Deadline.SpreadIsExact | src/transport/xgl_transport_peer.c:218-221 | 2^31 - 1 ms is exactly the spread of due times up to which recomputing is right for every queue |
| Deadline.ShortTimeoutsAreClose | src/transport/xgl_transport_peer.c:216-221 | timeouts up to 30000 ms and stamps up to 2^31 - 30001 ms old keep all due times within that spread |
| Deadline.LateTakenForEarly | src/transport/xgl_transport_peer.c:218-221 | a failing input: of packets stamped 1 and 0x8000_1388 the later one's deadline is cached |
| Deadline.ZeroDeadlineIsLost | src/transport/xgl_transport_peer.c:210-219 | a failing input: a deadline that reads 0 is cached as "none" while the packet falls due |
| Deadline.StampZeroSackIsLost | src/transport/xgl_transport_sack.c:45-59 | a failing input of that condition: a packet stamped 0 is armed by a SACK without a set bit while the cache says "none" |
| Deadline.LongTimeoutSackIsLost | src/transport/xgl_transport_sack.c:45-59 | a failing input: the same SACK cuts a timeout of 60000 ms to 30000 and the cache is too late |
| Deadline.RetryWrapSackIsLost | src/transport/xgl_transport_retransmit.c:47-50 | a failing input: the same SACK wraps an 8-bit retry count and the cache is too late for the shorter timeout |
| Deadline.CacheTimeStaysIff | src/api/xgl_runtime.c:80-86 | a cached reading keeps standing for its time if and only if that time is at most 2^31 ms past |
| Deadline.SleepIsSafe | src/api/xgl_runtime.c:66-110 | if the query reports `d`, no tick strictly before `d` resends, gives up or expires anything, for any number of peers and reassemblies and across clock wraps |
| Deadline.RemainingReaches | src/api/xgl_runtime.c:66-88 | a tick after the time reported for a peer finds the time its cached deadline stands for reached |
| Sleep.SleepsThrough | src/api/xgl_runtime.c:66-110 | the same with the reassembly times read off the manager's own list: no tick before the reported time makes a peer send or give up, and no timeout pass before it changes the manager |
| Sleep.PassAtDeadlineDrops | src/api/xgl_runtime.c:90-110 | a timeout pass at the time a buffer of the manager bounds the sleep to drops that buffer |
| Sleep.RunWaits | src/transport/xgl_fragment_process.c:80-83 | over every run of the manager, what the query reads off a listed message is the arrival of its first piece and the manager's timeout |
| Deadline.NextDeadlineMs | src/api/xgl_runtime.c:66-139 | the two collector loops find the least remaining time, which some peer or reassembly has, and "none" when nothing is pending |
| Deadline.ReassemblySleepSafeIff | src/api/xgl_runtime.c:90-110 | for any peers and reassemblies the reported sleep is safe for the reassemblies if and only if it is 0 or every running one has a positive timeout |
| Deadline.SentAtZeroRests | src/transport/xgl_transport_send_packet.c:113-121 | a packet sent while the clock reads 0 stays queued through every run of ticks, neither resent nor reported; sent at any other reading, some tick acts on it |
| Fragmentation.PiecesPartition | src/transport/xgl_transport_send_fragment.c:35-107 | the planned pieces, joined in order, are the message |
| Fragmentation.PlanFits | src/transport/xgl_transport_send_plan.c:27-80 | every planned piece is non-empty and its serialized frame fits the device's and the route's limit, so the network's size check cannot fire |
| Fragmentation.PlannedIff | src/transport/xgl_transport_send_plan.c:27-80 | a plan exists if and only if the whole payload fits one frame, or fragmentation is on and one byte fits a fragment frame |
| Answers.PlanAnswer | src/transport/xgl_transport_send_plan.c:27-80 | the plan in plain numbers: whole whenever it fits, else as few pieces as possible, each as large as fits beside 14 bytes of fragment label and 3 of data type; which error otherwise |
| Fragmentation.RangesAreRuns | src/transport/xgl_fragment_range.c:27-76 | the table holds exactly one range for each maximal run of received pieces |
| Fragmentation.FillMissing | src/transport/xgl_fragment_process.c:27-92 | a missing piece is stored, the buffer then holding exactly one piece more, if and only if the pieces then make at most 16 runs; otherwise it is refused without a trace |
| Fragmentation.FillDuplicate | src/transport/xgl_fragment_process.c:63-73 | a piece already there changes nothing |
| Fragmentation.AllSeenIff | src/transport/xgl_fragment_process.c:85-91 | the buffer is complete if and only if every piece arrived, and then its bytes are the message |
| RoundTrip.EveryPieceAnswered | src/transport/xgl_fragment_process.c:27-92 | for any number of pieces, any order, duplicates, foreign fragments and repeats after completion, the answer to every piece: BUSY, refusal for a 17th run, or OK with the original bytes for exactly the last missing one |
| RoundTrip.AnyOrderReassembles | src/transport/xgl_fragment_process.c:27-92 | at most 32 pieces reassemble in any order: BUSY until the last missing piece, then OK with the original bytes and the buffer gone |
| RoundTrip.InOrderReassembles | src/transport/xgl_fragment_process.c:27-92 | any number of pieces reassemble when they arrive in order |
| MessageTrip.SentMessageArrives | src/transport/xgl_transport_send_fragment.c:35-107 | the packets and labels of a message the splitter sent are its pieces, and arriving in order they yield the message, however many there are |
| MessageTrip.SentIsCommitted | src/transport/xgl_transport_send_fragment.c:47-106 | a send without an error commits the pieces consecutively |
| MessageTrip.RunDeliversMessage | src/transport/xgl_transport_receive.c:47-92 | in every run of the joint protocol that committed a message's pieces consecutively, the payloads delivered for them yield the message exactly when the receiver has passed the last of them, and none before |
| RoundTrip.OthersKept | src/transport/xgl_fragment_reassembly.c:42-67 | a fragment never touches the buffer of another message |
| RoundTrip.CapReachableIff | src/transport/xgl_fragment_range.c:64-66 | some order of arrival makes the reassembly step refuse a piece for want of a range if and only if the message has more than 32 pieces |
| FragmentRange.MergedCovers | src/transport/xgl_fragment_range.c:27-76 | insertion covers the old bytes and the new ones, nothing else, and the byte count follows |
| FragmentRange.MergedSorted | src/transport/xgl_fragment_range.c:27-76 | the merged list is sorted, disjoint and non-touching |
| FragmentRange.CoverageDetermines | src/transport/xgl_fragment_range.c:27-76 | two such lists covering the same bytes are equal, so the order of arrival leaves no trace |
| FragmentRange.FullIff | src/transport/xgl_fragment_process.c:85-91 | the count reaches the size if and only if no byte is missing |
| FragmentRange.InsertAnswer | src/transport/xgl_fragment_range.c:27-76 | nothing is added when there are no bytes, when one of them is there already, or when 16 ranges are not enough; otherwise exactly these bytes are |
| FragmentRange.OutOfRanges | src/transport/xgl_fragment_range.c:64-66 | only a list of 16 ranges refuses, and it refuses every stretch that touches none of them |
| FragmentRange.Received.Insert | src/transport/xgl_fragment_range.c:27-76 | the shifting and merging in the fixed array computes the merged list, or refuses an overlap or a full table |
| FragmentRange.Received.RemoveAt | src/transport/xgl_fragment_range.c:15-25 | closes one hole and keeps the rest in order |
| Reassembly.ProcessKeeps | src/transport/xgl_fragment_process.c:27-92 | no fragment, well formed or not, breaks the manager invariant: distinct keys, good ranges, `0 < received < size`, budget equal to the sum of reservations |
| Reassembly.MaintenanceKeeps | src/transport/xgl_fragment_maintenance.c:11-111 | timeouts and scope resets keep it and remove exactly the buffers they name |
| Reassembly.FillCompletesIff | src/transport/xgl_fragment_process.c:63-92 | a stored fragment completes its buffer if and only if `[0, size)` is covered |
| Stamps.StampsAreBirths | src/transport/xgl_fragment_process.c:80-83 | over every run of arrivals, timeouts and resets, a listed message is stamped with the arrival of the piece that started it; later pieces, duplicates and refused pieces leave the stamp |
| Stamps.PassDropsIff | src/transport/xgl_fragment_maintenance.c:29-41 | a timeout pass drops a message if and only if the clock then reads at least the timeout past the arrival of its first piece, and that was not at reading 0 |
| Stamps.FirstPieceAnswer | src/transport/xgl_fragment_process.c:27-92 | a first piece with room for its message: a message in one piece is handed over and leaves nothing, otherwise exactly one buffer is added that holds the piece, its stamp and the reservation |
| Stamps.RefusedAnswer | src/transport/xgl_fragment_process.c:14-60 | a malformed, contradicting or unaffordable fragment changes nothing and is refused with the error of the first failing check |
| Stamps.ScopeDropsIff | src/transport/xgl_fragment_maintenance.c:81-111 | a session reset drops a message if and only if its source, connection and epoch are the session's |
| Reassembler.ReassemblyManager.ProcessFragment | src/transport/xgl_fragment_process.c:27-92 | on the objects: find or create, copy, merge, complete and release, with the status of every refusal |
| Reassembler.ReassemblyManager.Create | src/transport/xgl_fragment_reassembly.c:69-131 | opens a buffer within the byte budget or refuses without a trace |
| Reassembler.ReassemblyManager.ProcessTimeouts | src/transport/xgl_fragment_maintenance.c:11-49 | drops exactly the expired messages, returns how many, and the budget follows |
| Reassembler.ReassemblyManager.ClearReassemblyScope | src/transport/xgl_fragment_maintenance.c:81-111 | drops exactly the messages of one session |
| Reassembler.ReassemblyManager.Clear | src/transport/xgl_fragment_maintenance.c:66-79 | drops everything and returns the whole budget |
| FragmentSend.SentPiecesJoin | src/transport/xgl_transport_send_fragment.c:35-107 | the packets of a fully sent message carry its bytes in order |
| FragmentSend.SendFromIsPrefix | src/transport/xgl_transport_send_fragment.c:47-106 | whatever the lower layer answers, what is committed is a prefix of the pieces under consecutive numbers |
| FragmentSend.Splitter.SendFragmented | src/transport/xgl_transport_send_fragment.c:35-107 | the loop queues and sends that prefix, labels every piece with its own offset and the message's id, and uses up one message id |
| Crc.EntryIs | src/wire/xgl_crc.c:64-97 | every entry of the literal table is the bitwise division of its index |
| Crc.TableStepIsFeed | src/wire/xgl_crc.c:139-150 | one table step equals eight single-bit division steps |
| Crc.Crc16Update | src/wire/xgl_crc.c:139-150 | the table loop computes polynomial division for every byte string and start value |
| Crc.IntactIff | src/datalink/xgl_datalink_metadata.c:113-119 | a frame matches its little-endian trailer if and only if dividing all of it leaves 0 |
| Crc.BurstIsCaught | src/datalink/xgl_datalink_metadata.c:113-119 | damage confined to one byte or two neighbouring bytes of a valid frame is always rejected |
| Crc.OddDamageIsCaught | src/datalink/xgl_datalink_metadata.c:113-119 | damage flipping an odd number of bits, wherever they are, is always rejected |
| Layout.CheckValue | src/wire/xgl_crc.c:132-150 | the checksum of "123456789" is 0x4B37, the check value of CRC-16/MODBUS |
| Layout.TrailerLayout | src/wire/xgl_frame.c:137-189 | a checksum follows its bytes low byte first |
| Wire.DecodesIff | src/wire/xgl_wire.c:57-139 | a buffer decodes to `h` if and only if `h` is valid and the buffer starts with its encoding |
| Layout.HeaderLayout | src/wire/xgl_wire.c:57-93 | every header field at its offset, little-endian, behind 0xA5 0x5A, and the header checksum over the header with its own bytes read as 0 |
| Answers.HeaderAnswer | src/wire/xgl_wire.c:95-139 | a header decodes if and only if length, magic, checksum, version, header length, packet type and addresses pass, to the numbers at their offsets; otherwise the first failing check names the error |
| Wire.WriteHeader | src/wire/xgl_wire.c:57-93 | writes that encoding in place, or refuses an invalid header and writes nothing |
| Wire.ParseOfEncoded | src/wire/xgl_wire.c:141-218 | walking encoded extensions gives them back |
| Wire.EncodeOfParsed | src/wire/xgl_wire.c:188-218 | extensions that parse have no other encoding |
| Layout.ExtLayout | src/wire/xgl_wire.c:141-172 | an extension is its type, its length, its value |
| Layout.SecurityLayout | src/wire/xgl_wire_ext.c:104-128 | the security value: key, 64-bit nonce, tag length, little-endian |
| Answers.TagAnswer | src/wire/xgl_parser_extensions.c:10-68 | the last security extension gives tag length and key; one of the wrong size or with tag length 0 spoils the list |
| Wire.Cursor.Next | src/wire/xgl_wire.c:188-218 | one cursor step: the next extension, the end, or an error that does not move the cursor |
| AckCodec.AckDecodesIff | src/wire/xgl_wire_ack_ext.c:10-91 | the ACK-range codec is a bijection between values and the byte strings it accepts |
| AckCodec.SackDecodesIff | src/wire/xgl_wire_ack_ext.c:93-160 | likewise the SACK codec, within the receiver's bitmap capacity |
| Layout.AckLayout | src/wire/xgl_wire_ack_ext.c:10-47 | the ACK value: largest, delay, count, then gap and length of each range, little-endian, at their offsets |
| Layout.SackLayout | src/wire/xgl_wire_ack_ext.c:93-124 | the SACK value: base, bitmap length, bitmap |
| Layout.BitLayout | src/transport/xgl_transport_sack_send.c:20-44 | bit `i` is bit `i % 8`, from the lowest, of byte `i / 8` |
| Answers.AckReadAnswer | src/wire/xgl_wire_ack_ext.c:49-91 | what is read of any byte string as an ACK value, and which check refuses it |
| Answers.SackReadAnswer | src/wire/xgl_wire_ack_ext.c:126-160 | likewise a SACK value |
| AckCodec.WriteAckValue | src/wire/xgl_wire_ack_ext.c:10-47 | writes that encoding in place, or reports a short buffer |
| AckCodec.ReadAckValue | src/wire/xgl_wire_ack_ext.c:49-91 | reads the ranges into the caller's array, or reports which check failed |
| AckCodec.WriteSackValue | src/wire/xgl_wire_ack_ext.c:93-124 | writes a SACK value's encoding in place, or refuses it and writes nothing |
| Frame.Serialize | src/wire/xgl_frame.c:137-189 | writes header, extensions, payload and checksum at the front of the buffer, or refuses and changes nothing |
| Frame.SerializedAcceptsIff | src/wire/xgl_frame.c:137-189 | a serialized plain frame is a complete frame for the parser if and only if its extensions are well formed and ask for no tag |
| Answers.SerializeAnswer | src/wire/xgl_frame.c:137-189 | serializing succeeds if and only if the extensions take at most 231 bytes, the buffer holds the frame, packet type is 1 to 7 and both addresses are not 0; which error otherwise |
| EndToEnd.WireHeaderAsAsked | src/wire/xgl_frame.c:19-54 | the header that is written has the caller's addresses, numbers, type, class, hop limit and flags; only version, lengths and the extension flag are the serializer's |
| FrameAuth.SerializeAuthenticated | src/wire/xgl_frame_auth.c:79-138 | writes the authenticated frame in place, or reports which check failed |
| FrameAuth.AuthFrameVerifies | src/wire/xgl_frame_auth.c:79-138 | an authenticated frame is accepted by the parser and verifies under its key |
| Answers.SerializeAuthAnswer | src/wire/xgl_frame_auth.c:79-138 | the same for signed frames: which check refuses first, in plain numbers |
| Answers.TagSigns | src/wire/xgl_wire.c:220-278 | the tag in a signed frame is the provider's signature, under the key, of header and extensions with hop limit and header checksum read as 0, and of the payload |
| Answers.VerifyAnswer | src/wire/xgl_wire.c:280-324 | a received frame is verified against exactly those bytes, once tag length and frame length fit |
| Layout.AuthExtsEnd | src/wire/xgl_frame_auth.c:13-77 | the frame's own security extension comes last and holds the key, the packet number as nonce, and the tag length |
| EndToEnd.AuthHeaderAsAsked | src/wire/xgl_frame_auth.c:13-77 | a signed frame's header likewise, with the authentication flag |
| FrameAuth.SealedVerifies | src/wire/xgl_wire.c:280-324 | the verifier is asked about exactly the canonical header and extensions, the payload and the tag |
| Parser.FeedIsRight | src/wire/xgl_parser.c:77-220 | on every byte the state machine answers what the frame format, read off the bytes so far, asks for |
| Parser.FeedKeeps | src/wire/xgl_parser.c:77-220 | from any reachable state the cache stays within its size and holds a suffix of what was fed, and COMPLETE means a complete valid frame |
| Parser.ListenIsSound | src/wire/xgl_parser.c:77-220 | over any byte stream, every reported frame is valid and really occurs in the stream |
| Parser.HearsFrame | src/wire/xgl_parser.c:77-220 | from idle a frame that fits is COMPLETE exactly at its last byte, with exactly its bytes |
| Parser.HearsEveryFrame | src/wire/xgl_parser.c:77-220 | a stream of frames, each behind noise without the first magic byte, is reported frame by frame and nothing else |
| Answers.AcceptsAnswer | src/wire/xgl_parser.c:77-220 | a byte string is a whole frame if and only if its header decodes, its extensions are well formed and, when signed, announce a tag, the lengths add up, and the checksum is right |
| ByteParser.Machine.FeedByte | src/wire/xgl_parser.c:77-220 | the object with its cache and index takes exactly that step |
| ByteParser.ValidateExtensions | src/wire/xgl_parser_extensions.c:10-68 | the cursor loop finds the announced tag length, or rejects malformed extensions and a missing tag |
| DataLink.DecodeExtensions | src/datalink/xgl_datalink_metadata.c:14-70 | the scan loop reads key, tag length and epoch, or rejects |
| DataLink.AcceptedDecodesIff | src/datalink/xgl_datalink_metadata.c:72-131 | a frame the parser completed passes the second validation, with or without required authentication, if and only if it is within the size limit, its session extensions have the right size and every security extension names the required key; it is then read with the parser's header, the last key and the last epoch |
| DataLink.DecodedAcceptsIff | src/datalink/xgl_datalink_metadata.c:72-131 | a frame the data link takes, under any key requirement, is one the parser would complete, unless it claims a tag its extensions do not announce |
| Answers.DataLinkAnswer | src/datalink/xgl_datalink_metadata.c:72-131 | the data link's checks in their order, each with its error, and every field of the metadata it hands up |
| Forward.Rewrite | src/network/xgl_network_receive.c:122-140 | the rewrite in the copy, checksums included, is the frame with its hop limit lowered by one |
| Forward.RewriteChanges | src/network/xgl_network_receive.c:122-140 | a rewrite changes no byte but hop limit, header checksum and frame checksum |
| Forward.HopPreserves | src/wire/xgl_wire.c:31-55 | one hop leaves header (hop limit apart), signed bytes, payload and tag as they were, so parser and verifier give the same verdict |
| Forward.HopsExactly | src/network/xgl_network_receive.c:93-108 | a frame survives `k` forwards if and only if `k < ttl` (or `k` is 0), routing loops included, and is then the same but for the hop limit |
| Forward.ForwardAnswer | src/network/xgl_network_receive.c:142-217 | every branch of forwarding a frame: hop limit, route, size, memory, and what is sent where |
| EndToEnd.PlainFrameTravels | src/wire/xgl_frame.c:137-189 | serialized, put behind noise and fed byte by byte, a frame is the one frame reported, and the data link reads back the caller's header field by field (version, lengths and extension flag being the frame's own), its extensions and its payload |
| EndToEnd.AuthFrameTravels | src/wire/xgl_frame_auth.c:79-138 | an authenticated frame, after any number of hops short of its limit, is still heard whole, has the caller's header field by field with the hop limit lowered by the hops, is decoded by a data link that requires its key and marked for verification (given fit extensions of the caller's own), verifies, and carries its payload |
| EndToEnd.PlannedFrameFits | include/xgl/internal/xgl_frame.h:152-181 | the size formula is the real length of the serialized frame, so every frame of a plan, plain or authenticated, fits the device's and the route's limit |
| Replay.CheckRefines | src/security/xgl_security.c:31-77 | the bitmap answers as the set of seen numbers would, New adds the number, and a number answered New is never New again |
| Replay.TableRefines | src/datalink/xgl_datalink_receive.c:14-61 | the 16-window table answers as one seen set per (source, connection, epoch), keys stay distinct, and a new key is refused exactly when no window is free or its source is 0 |
| Replay.NewAtMostOnce | src/datalink/xgl_datalink_receive.c:14-61 | over any run of arrivals, no number of a sender's session is answered New twice |
| Replay.PassesUpAgainIff | src/datalink/xgl_datalink_receive.c:212-225 | over any run, a frame once answered New is passed up again if and only if it asks for an ACK and is fewer than 64 numbers behind the largest number that arrived from its sender's session |
| Replay.RunLargest | src/security/xgl_security.c:46-63 | over any run, a sender's window holds the largest of all its numbers that arrived, or the sender never got a window |
| Verdicts.VerdictIs | src/datalink/xgl_datalink_receive.c:14-61 | over any run, each arrival is answered by these rules alone: rejected if its sender's session is not among the first 16 with a source; new if above all its numbers before; rejected if 64 or more below the largest; else a duplicate if it came before, and new if not |
| Replay.ReplayWindow.CheckNumber | src/security/xgl_security.c:31-77 | the shift and the bit operations on the window object make exactly that check |
| Replay.ReplayTable.CheckReplay | src/datalink/xgl_datalink_receive.c:14-61 | the one-pass search and slot opening make exactly that table check |
| HashTable.Table.Insert | src/core/xgl_hashtable.c:116-161 | the chained table is a map: inserts or overwrites one key, or changes nothing when memory is short |
| HashTable.Table.Remove | src/core/xgl_hashtable.c:191-227 | unlinks exactly one key's entry |
| HashTable.Table.Lookup | src/core/xgl_hashtable.c:166-186 | walking one chain is map lookup |
| HashTable.Table.Clear | src/core/xgl_hashtable.c:232-250 | leaves the empty map and no entry in any chain |
| RouteTable.TableRefinesMap | src/network/xgl_route_mutation.c:75-160 | adding and removing routes is a map in which the last write wins |
| RouteTable.SearchIsLookup | src/network/xgl_route_mutation.c:20-28 | linear search of the array is lookup in that map |
| RouteTable.RoutesKeepOrder | src/network/xgl_route_mutation.c:75-160 | a new route comes last, a known target keeps its place, a removal leaves the others in order |
| RouteTable.Routes.Add | src/network/xgl_route_mutation.c:75-123 | appends or overwrites; the index points at the right slot of the right array afterwards, also when growth or indexing runs out of memory |
| RouteTable.Routes.Grow | src/network/xgl_route_mutation.c:33-66 | doubles the array and points every index entry into the new one, routes unchanged |
| RouteTable.Routes.Remove | src/network/xgl_route_mutation.c:128-160 | closes the gap, and every moved route is indexed at its new slot |
| RouteTable.Routes.Lookup | src/network/xgl_route_lookup.c:13-20 | the indexed lookup equals linear search |
| RouteTable.Routes.UpdateMetric | src/network/xgl_route_lookup.c:26-41 | writing through the indexed pointer changes that route's metric and nothing else |
| RouteTable.Routes.Clear | src/network/xgl_route_mutation.c:165-172 | empties routes and index together |
| PoolSpec.RunBalanced | src/memory/xgl_tiered_pool.c:223-274 | after any run of allocations and releases, legal or not, what callers hold is exactly what is not free |
| PoolSpec.RunConserves | src/memory/xgl_mempool.c:135-185 | after any run, free blocks plus held blocks is the block count, tier by tier |
| PoolSpec.AllocIsSafe | src/memory/xgl_tiered_pool.c:223-256 | an allocated block is wide enough, inside its buffer, and shares no byte with any block still held |
| PoolSpec.AllocFailsIff | src/memory/xgl_tiered_pool.c:223-256 | an allocation fails if and only if the size is 0 or every tier wide enough is used up |
| PoolSpec.AllocTakesFirst | src/memory/xgl_tiered_pool.c:223-256 | an allocation takes the block at the head of the first tier wide enough that has one, and otherwise nothing |
| PoolSpec.LinkedIs | src/memory/xgl_mempool.c:95-108 | a new tier hands out its blocks from the last to the first |
| PoolSpec.FreeReturnsToOwner | src/memory/xgl_tiered_pool.c:262-274 | a held block goes back to its own tier only; foreign, misaligned and double frees change nothing |
| PoolSpec.FreeUndoesAlloc | src/memory/xgl_tiered_pool.c:223-274 | releasing a block straight after allocating it restores every free list |
| PoolSpec.ContainsBlockIff | src/memory/xgl_mempool.c:25-41 | the range and alignment test accepts exactly the block addresses |
| MemPool.Init | src/memory/xgl_mempool.c:74-112 | all blocks linked, last one first, or refused when no block fits or a block cannot hold a pointer |
| MemPool.Pool.Alloc | src/memory/xgl_mempool.c:135-161 | pops the head through the pointer stored in the block and keeps the list, the count and the peak right |
| MemPool.Pool.Free | src/memory/xgl_mempool.c:167-185 | pushes a live block; any other pointer leaves list and memory unchanged |
| MemPool.Pool.FreeListContains | src/memory/xgl_mempool.c:43-62 | the bounded scan finds a pointer if and only if it is free |
| MemPool.Pool.UserWrite | src/memory/xgl_mempool.c:11-19 | whatever the owner writes over the first bytes of a live block, the free list stays sound |
| MemPool.TieredPool.Alloc | src/memory/xgl_tiered_pool.c:223-256 | takes from the first tier that is wide enough and not used up |
| MemPool.TieredPool.Free | src/memory/xgl_tiered_pool.c:262-274 | gives back to the first tier containing the block |
| MemPool.InitStatic | src/memory/xgl_tiered_pool.c:127-175 | three full tiers over the given buffers, or refused when a tier with blocks has no buffer |

## Left out

- HELLO, RESET, peer scoping and the reclaiming of idle peers: one established session per peer is modelled; of a reset only what it does to the sender's queue, window and cached deadline (`TxPeer.Peer.Reset`).
- The context-wide `ctx->window`: it repeats the peer window.
- Codec registry and compression: reserved features.
- PHY callbacks, platform time, mutexes, logging and statistics: time and the outcome of the lower layer are inputs, and a lower-layer send that fails puts nothing on the network.
- Allocators: each allocation is a flag; whether it fails is arbitrary.
- The round-trip estimator: the initial timeout of a packet is an input.
- The joint protocol carries payloads without fragment labels; `MessageTrip` attaches the labels to what it delivers.
- NULL-argument checks, getters, instance lifecycle, error strings, presets.
- The parser's inactivity timeout and time stamp.
- The bytes of the fragment and route extension values: fragment labels are values here, and route extensions are not interpreted.
- The zero-copy frame builder and CRC-8: no path modelled here uses them.
- The packet pool: it repeats the list and the block pool.
- Receive metadata and local delivery in the network layer.
- The polling interval of route PHYs in the sleep query: only the reliable and reassembly collectors bound a sleep here.
- A fragment whose caller gives the time as 0 is stamped with the clock instead: `time` in the reassembly step is the reading that is used.
- The little-endian shifts are written as division and remainder, the bucket mask as a remainder (the bucket count is a power of two), a shift by `d` as `d` shifts by one, and the CRC table as sixteen rows of sixteen entries.
- The reassembly list is a sequence of objects rather than linked nodes; the linking itself is proved for the packet queue, which uses the same list code.
- `size_t` arithmetic does not overflow in the model: messages are shorter than 2^32 bytes and pools fit the address space.
- FrameAuth.SerializeAuthenticated: says nothing about the bytes left in the buffer after a failure, and the abstract signer gives a tag of some length rather than an error code.
- Retry.CalcBackoff: computes on unbounded integers; where the code's signed doubling would overflow is `Retry.OverflowsIff`.
- Deadline.RunFromStart: timeouts in 1..2^30-1, where the code's doubling does not overflow; no queued packet grows 2^31 ms old and no cached deadline more than 2^31 ms overdue between events; due times less than 2^31 ms apart when the cache is recomputed, which timeouts up to 30000 ms and ages up to 2^31 - 30001 ms ensure (`Deadline.ShortTimeoutsAreClose`); and at each event the condition of `Deadline.EventKeepsCacheIff`.
- Deadline.SleepIsSafe: the same, and positive reassembly timeouts.
- Recovery.FinishesIff: says nothing of states with a queued packet that has no retransmission left and neither its ACK in flight nor its bytes in flight in turn; there the outcome hangs on SACKs that other early packets may draw.
- TxPeer.Peer.SendPacket: requires that the next number is not queued already, which holds for every session that does not wrap its 32-bit numbers.
- DataLink.AcceptedDecodesIff: the data link's decoder is modelled on buffers that hold at least the header they announce, which is all the parser hands it.
- Feedback.SackRoundTrip: assumes that the lower layer takes the resends; what happens when it refuses one is in `TxPeer.Peer.ProcessSack` and `SenderInv.OnSackKeeps`.
