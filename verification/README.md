# Verified models of the network labs

Dafny models of six programs of this repository, with proofs of what they are for.

| program | modules |
|---|---|
| spanning tree protocol, `Lab5/06-stp` | `StpSwitch`, `StpObject`, `StpNetwork`, `StpPaths`, `StpStable`, `StpProgress`, `StpReplies`, `StpAgreement` |
| user-level TCP, data phase, `Lab14/16-tcp_stack` | `RingBuffer`, `TcpSender`, `TcpReceiver`, `TcpConnection`, `TcpTheorems`, `TcpRuns`, `TcpLoss`, `TcpWindow`, `TcpWrap`, `OfoList`, `TcpFinish` |
| mOSPF routing, `Lab9/11-mopsf` | `Hops`, `Dijkstra`, `RouteTable`, `RouteInstall`, `Forwarding`, `LongestForwarding`, `Masks`, `Flooding`, `FloodAges`, `FloodConverge` |
| prefix tries, `Lab8/10-lookup` | `Prefixes`, `LookupTheorems`, `TrieOrders`, `TableScan`, `Tries` |
| address translation, `Lab10/12-nat` | `Nat`, `NatTheorems`, `NatFlows`, `NatFinish`, `NatObject` |
| Internet checksum, `Lab10/12-nat/include` | `Checksum` |

`dafny verify dfyconfig.toml` checks all of them.

Each program is modelled twice, once as the source writes it and once as a reader thinks of it.
Handlers and loops are methods of classes or over arrays that update state in place; their contracts
equate the new state with a function of the old one, or state outright what the loop finds. The
theorems are about those functions: a protocol is a state machine whose events are chosen freely,
and a theorem about it holds in every state that some sequence of events reaches.

**Spanning tree.** Switches are joined by point-to-point links; a configuration message, once sent,
may be delivered at any time, any number of times, or never. In every reachable state each link has
a designated end, root ports never lead back to a switch, every root named anywhere is a real switch
at the length of a real simple path, and the least switch stays root. Port vectors only improve, so
every run accepts a bounded number of messages, can be continued to a stable state, in which
resending changes nothing, and is never left after that. There each link has exactly one designated
end and a flooded frame never meets a switch twice. By clause 8.6.9 of IEEE 802.1D-1998 a port
becomes designated when the switch's own offer is the best on its segment, and the lab report speaks
of the other ports of the segment; `update_port_config` compares the port with the other ports of
the switch, and on point-to-point links that never promotes one. So the switches may settle on
different roots. Whether they can is decided by the ids and the links alone: all reachable stable
states agree if and only if the least switch is the only one without a smaller neighbour
(`AgreementIsSureIff`). Every other such switch can stay root whatever happens later
(`LocalMinimumStaysRoot`), as in a line of three switches that stays split (`SplitForEver`).

**TCP.** One direction of an established connection over a channel that loses, duplicates, delays and
reorders. What the application reads is always a prefix of what was written; nothing leaves
`send_buf` before the receiver has it. Over any stretch of a run, congestion avoidance raises the
window by a closed form of the segments acknowledged; a waiting segment is sent again by the 2nd and
6th of every 14 timer scans; and what each acknowledgement makes the sender send again is known exactly
(`AckIsAnswered`). Three exact conditions mark where the code does not do what it is for.

- In RECOVER an acknowledgement older than `snd_una` with nothing outstanding reads the list head as a
  buffer entry (`PastTheEndIff`).
- The release loop compares sequence numbers as plain integers, so the handler releases what an
  acknowledgement covers if and only if it repeats `snd_una` or no wrap comes between the numbers
  compared (`ReleaseIsExactIff`); a new acknowledgement and a late copy of an old one can both release
  what nobody acknowledged.
- `write_ofo_buffer` links a segment that belongs before all waiting ones to a copy of the list head on
  its stack, and the list does not show it. The model does the same: the reassembly holds the longest
  contiguous prefix of what the list kept, and it misses nothing that arrived if and only if each
  segment was kept at one of its arrivals (`NothingMissingIff`). Once the first entry of such a list is
  drained the head points at freed memory. A connection can still be brought to its end, everything
  written read and everything sent acknowledged, if and only if that has not happened or nothing was
  missing any more (`CanFinishIff`).

**mOSPF.** Flooding keeps every database entry authentic, and whatever was lost or has expired, one more
round of advertisements can reach everybody (`FloodsConverge`); Dijkstra's arrays hold true hop distances
and a shortest-path tree; a table routes every advertised network towards a nearest advertiser; and
routers that share one symmetric database pass every packet one hop closer at each step, though each
numbers the routers in its own order and none stores its own advertisement. That holds for whatever
routes for a network are used (`EveryWayDescends`), and for the longest match among overlapping
networks as well, since all routers select the same one (`LongestMatchDelivers`).

**Tries.** Both tries copy the parent's port into a new node. An insertion keeps a trie in agreement
with the longest-prefix match exactly unless it shadows an address (`InsertExactIff`). Distinct
prefixes inserted before their extensions never do, and then both tries and the table scan agree on
every address. For a whole table in any order, a lookup gives the last entry that the address can
still see, which is right if and only if that entry's port is the port of the last among the longest
matches (`FinallyRightIff`).

**NAT.** For any hash function, a pool port is marked exactly while one mapping holds it, if and only
if no DNAT rule gives the port away; a reply is translated back to the sender except when the pool
had run out and another mapping of the bucket comes first. The answer to an inbound packet goes out
under the right address exactly unless an earlier mapping has the same internal endpoint and another
external one. The header file describes a mapping's time as that of the latest packet; the code sets
it once, so through any packets and sweeps a mapping stays until the first sweep that finds its first
packet more than 60 seconds old or its flow finished (`FlowSurvivesIff`), and replies find their way
exactly as long (`SweepDecidesReply`).

**Checksum.** The accumulator never wraps on any buffer up to 65535 bytes, the folding loop yields the
end-around-carry sum, and a stored checksum makes the whole check, which a later change of one word
escapes only between 0 and 0xffff.

## Model

| member | source | states |
|---|---|---|
| StpSwitch.Switch.BestPort | Lab5/06-stp/stp.c:182-196 | the port the scan selects is non-designated and no non-designated port beats it; none is selected only if all are designated |
| StpSwitch.NoPromotion | Lab5/06-stp/stp.c:224-240 | when the root port beats every other non-designated port, one pass over the ports re-announces on designated ports and promotes none, although each iteration sees the writes of the earlier ones |
| StpSwitch.RootFalls | Lab5/06-stp/stp.c:178-209 | after an acceptance the root port names a root below the switch's own id, at a distance no worse than before |
| StpSwitch.AcceptHasEffect | Lab5/06-stp/stp.c:246-254 | closed form of accepting a message: the port takes it, the best non-designated port becomes root port, designated ports announce the new root and cost, every other port is untouched |
| StpSwitch.AcceptKeeps | Lab5/06-stp/stp.c:241-257 | acceptance keeps the switch invariant (root, no root port and cost 0 coincide; designated vectors are the own offer; hello runs at roots only), makes no vector worse and takes the designated role from that port alone |
| StpObject.Stp.constructor | Lab5/06-stp/stp.c:302-346 | a new switch is its own root with every port designated |
| StpObject.Stp.UpdateStpStatus | Lab5/06-stp/stp.c:178-209 | the loop with its `find` and `cur_root_id` variables chooses the best non-designated port, or makes the switch root |
| StpObject.Stp.PortBeatsAll | Lab5/06-stp/stp.c:210-219 | true exactly if no non-designated port of the switch is better |
| StpObject.Stp.UpdatePortConfig | Lab5/06-stp/stp.c:224-240 | the in-place loop equals the specified sequence of single-port updates |
| StpObject.Stp.PortSendConfig | Lab5/06-stp/stp.c:70-95 | what leaves a port: the current offer, and nothing from an ALTERNATE port (dropped in device_internal.c) or from a non-root without root port |
| StpObject.Stp.SendConfig | Lab5/06-stp/stp.c:97-105 | the messages of all designated ports in order |
| StpObject.Stp.HandleConfigPacket | Lab5/06-stp/stp.c:241-257 | the new state and the messages sent, for better and for other configurations |
| StpReplies.AnnouncesExactly | Lab5/06-stp/stp.c:97-114 | in every state that meets the network invariant, so every reachable one, a hello and an accepted configuration put on the links exactly the new announcements of the switch's linked designated ends |
| StpReplies.RefusalIsAnswered | Lab5/06-stp/stp.c:255-256 | in every such state a configuration that is not better makes its receiver send exactly one frame back, with its own root, cost, id and port, at a designated or root port, and none at an ALTERNATE port |
| StpReplies.AnswerTeaches | Lab5/06-stp/stp.c:107-257 | with the switches of any reachable state and nothing left in flight, an end with a better offer teaches a designated peer that still says hello: hello, refusal and answer make the peer store the offer |
| StpObject.Stp.HelloTimeout | Lab5/06-stp/stp.c:107-114 | hello announces on designated ports and changes no value |
| StpNetwork.AcceptedInv | Lab5/06-stp/stp.c:246-254 | an acceptance anywhere keeps the network invariant and worsens no switch; nothing but that switch moves |
| StpNetwork.OldAnswersLose | Lab5/06-stp/stp.c:144-156 | when an end accepts a message, nothing it ever sent can beat what the announcing end holds |
| StpNetwork.NextDecomposed | Lab5/06-stp/stp.c:241-257 | every event first updates at most one switch and then only adds frames carrying that switch's current offer |
| StpNetwork.NextInv | Lab5/06-stp/stp.c:107-257 | every stored or undelivered configuration is no better than its announcer's current values, and an end that gave up the designated role faces a designated end; every event keeps this |
| StpNetwork.ExecInv | Lab5/06-stp/stp.c:107-257 | the invariant holds after every run with loss, delay, reordering and duplication |
| StpPaths.NextPaths | Lab5/06-stp/stp.c:171-240 | every event keeps: each root and cost at a switch, at a port or in flight belongs to a simple path of that length |
| StpPaths.RootsAreReal | Lab5/06-stp/stp.c:171-240 | in every reachable state every root named anywhere is a switch id and every cost is below the number of switches |
| StpPaths.LeastSwitchStaysRoot | Lab5/06-stp/stp.c:178-240 | the switch with the least id is root with all ports designated in every reachable state |
| StpPaths.RootPortsDescend | Lab5/06-stp/stp.c:178-209 | (designated_root, root_path_cost) strictly falls along every root-port hop, and exactly the roots have no such hop |
| StpPaths.RootPortsNeverCycle | Lab5/06-stp/stp.c:178-257 | following root ports never meets a switch twice and ends, after fewer hops than there are switches, at a root |
| StpStable.SomeEndIsDesignated | Lab5/06-stp/stp.c:35-45 | in every reachable state each link has a designated end and never two root-port ends |
| StpStable.StableHasOneDesignated | Lab5/06-stp/stp.c:224-257 | in a stable state each link has exactly one designated end, whose offer the other end stores |
| StpStable.FloodsAreLoopFree | Lab5/06-stp/broadcast.c:10-20 | in a stable state a flooded frame meets no switch twice, so it dies out within as many hops as there are switches |
| StpStable.AgreementIff | Lab5/06-stp/stp.c:210-240 | where disagreement sits: in a stable connected network the switches agree on the root if and only if they do across every link that ends in an ALTERNATE port |
| StpStable.AgreedRootIsLeast | Lab5/06-stp/stp.c:178-240 | under that condition the root is the least switch and root ports lead every switch to it |
| StpAgreement.StableAcceptsNothing | Lab5/06-stp/stp.c:241-257 | in a reachable stable state no message in flight, however old, is accepted anywhere |
| StpAgreement.StableForEver | Lab5/06-stp/stp.c:107-257 | after a run that ended in a stable state no continuation changes any switch |
| StpAgreement.EveryRunSettles | Lab5/06-stp/stp.c:107-257 | every run can be continued to a stable state, so only messages lost for ever keep a network from settling |
| StpAgreement.StoredRootIsBelow | Lab5/06-stp/stp.c:144-257 | in every run no port holds a root above its own switch's id |
| StpAgreement.RootsAreLocalMinima | Lab5/06-stp/stp.c:178-240 | in a reachable stable state every switch follows a root none of whose neighbours has a smaller id |
| StpAgreement.LocalMinimumStaysRoot | Lab5/06-stp/stp.c:210-240 | for every switch without a smaller neighbour there is a run after which no continuation makes it follow another |
| StpAgreement.AgreementIsSureIff | Lab5/06-stp/stp.c:178-257 | all reachable stable states have one root if and only if the least switch is the only one without a smaller neighbour |
| StpAgreement.SplitForEver | Lab5/06-stp/stp.c:234-238 | a run of three connected switches in a line that disagree on the root, after which no continuation changes any switch |
| StpProgress.StepImproves | Lab5/06-stp/stp.c:144-257 | no event worsens a port vector, an acceptance strictly improves one, and a port that is not designated stays so |
| StpProgress.RankFollowsBetter | Lab5/06-stp/stp.c:144-156 | the priority order of what a linked port can store is that of natural numbers below 2 N^2 |
| StpProgress.AcceptsAreBounded | Lab5/06-stp/stp.c:241-257 | in any run each port accepts fewer than 2 N^2 configurations, host ports none |
| StpProgress.RunsImprove | Lab5/06-stp/stp.c:171-240 | across any continuation of a run port vectors never get worse and the designated role is never regained |
| RingBuffer.PutAtTail | Lab14/16-tcp_stack/include/ring_buffer.h:80-95 | copying behind the tail, wrapped or not, appends to the queue |
| RingBuffer.DropFromHead | Lab14/16-tcp_stack/include/ring_buffer.h:73-73 | moving the head by n modulo the size drops the n oldest bytes |
| RingBuffer.TakeFromHead | Lab14/16-tcp_stack/include/ring_buffer.h:63-71 | the one or two pieces copied out are the oldest bytes in order |
| RingBuffer.Ring.constructor | Lab14/16-tcp_stack/include/ring_buffer.h:17-26 | an empty queue that holds `size` bytes |
| RingBuffer.Ring.Used | Lab14/16-tcp_stack/include/ring_buffer.h:33-36 | the length of the queue in both the straight and the wrapped case |
| RingBuffer.Ring.Free | Lab14/16-tcp_stack/include/ring_buffer.h:38-42 | used plus free is the capacity |
| RingBuffer.Ring.Read | Lab14/16-tcp_stack/include/ring_buffer.h:58-77 | returns the oldest min(used, size) bytes and removes exactly them; a non-positive size changes nothing |
| RingBuffer.Ring.Write | Lab14/16-tcp_stack/include/ring_buffer.h:80-95 | appends the bytes to the queue |
| TcpSender.PopAckedReleases | Lab14/16-tcp_stack/tcp_in.c:94-117 | the release loop removes exactly the entries at the front that end at or before the acknowledgement, and inflight falls by as many |
| TcpSender.PopAckedMovesUna | Lab14/16-tcp_stack/tcp_in.c:94-117 | snd_una becomes the end of the last released entry and stays without one |
| TcpSender.TcpSock.constructor | Lab14/16-tcp_stack/tcp_sock.c:64-68 | the sending side of a connection just established |
| TcpSender.SynAckEstablishes | Lab14/16-tcp_stack/tcp_in.c:90-141 | acknowledging the SYN of a connecting socket counts as one segment: cwnd becomes 2, the window two segments, and send_buf empties |
| TcpSender.TcpSock.SendPacketInPlace | Lab14/16-tcp_stack/tcp_out.c:46-61 | the segment gets the old snd_nxt and is pushed with the new one |
| TcpSender.TcpSock.SndbufPush | Lab14/16-tcp_stack/tcp_sock.c:437-453 | appends one entry with one try and the initial timeout |
| TcpSender.TcpSock.SndbufPop | Lab14/16-tcp_stack/tcp_sock.c:455-465 | removes the oldest entry |
| TcpSender.TcpSock.Write | Lab14/16-tcp_stack/tcp_sock.c:413-435 | sends the bytes in order as segments of MSS bytes, the last one what remains, numbered from snd_nxt; every segment but the first leaves with the window open, in numbers, and the call ends early exactly when it is not |
| TcpWindow.WriteIsPolite | Lab14/16-tcp_stack/tcp_sock.c:413-435 | a call that finds the window open continues a run by those sends and keeps it one in which every segment leaves with the window open |
| TcpSender.SendOneMore | Lab14/16-tcp_stack/tcp_sock.c:416-424 | sending whole segments and then one more is one cutting of the concatenation |
| TcpSender.TcpSock.DuplicateAckInPlace | Lab14/16-tcp_stack/tcp_in.c:56-89 | state and resent segment after a duplicate acknowledgement in OPEN, RECOVER and LOSS |
| TcpSender.TcpSock.ReleaseOne | Lab14/16-tcp_stack/tcp_in.c:100-115 | one release with slow start or congestion avoidance in OPEN |
| TcpSender.TcpSock.OtherAckInPlace | Lab14/16-tcp_stack/tcp_in.c:90-137 | the release loop and the recovery switch; a read past the end of the list is a separate outcome |
| TcpSender.TcpSock.ProcessAckInPlace | Lab14/16-tcp_stack/tcp_in.c:12-142 | the acknowledgement block with the safe window update |
| TcpSender.TcpSock.ScanTimer | Lab14/16-tcp_stack/tcp_timer.c:35-68 | the retransmission scan over all entries and what it sends |
| TcpReceiver.InsertSkips | Lab14/16-tcp_stack/tcp_sock.c:479-492 | the walk past earlier segments and an insertion there is sorted insertion |
| TcpReceiver.TcpRecvSock.SockRead | Lab14/16-tcp_stack/tcp_sock.c:392-408 | hands over the oldest bytes and reopens the window by as many; the advertised window stays the free space |
| TcpReceiver.TcpRecvSock.WriteBlocking | Lab14/16-tcp_stack/tcp_in.c:210-216 | after a wait during which the reader takes any amounts, the payload is appended to the stream and nothing else changes |
| TcpReceiver.InsertIsRightIff | Lab14/16-tcp_stack/tcp_sock.c:475-492 | the code inserts as intended, sorted and without duplicates, if and only if nothing waits or the segment does not start before the first that waits |
| TcpReceiver.TcpRecvSock.WriteOfoBuffer | Lab14/16-tcp_stack/tcp_sock.c:466-493 | what the list shows afterwards: the segment in its place, nothing new if its start is present or it belongs before all that wait |
| OfoList.WriteOfoBuffer | Lab14/16-tcp_stack/tcp_sock.c:466-493 | the linked list shows exactly that; its links stay as they were, or, when the segment belongs before all that wait, the first entry points back to the lost one |
| OfoList.DeleteFirst | Lab14/16-tcp_stack/include/list.h:62-66 | deleting the first entry leaves the rest linked both ways, and the head pointing at the deleted entry exactly if that pointed back to a lost one |
| OfoList.LostThenDrained | Lab14/16-tcp_stack/tcp_in.c:219-236 | after such a loss, draining the first entry leaves the head pointing at what is freed |
| OfoList.NothingMissingIff | Lab14/16-tcp_stack/tcp_in.c:204-254 | in any run everything that arrived is in the stream or waits if and only if every segment that arrived was kept by the list at one of its arrivals |
| OfoList.LossHappens | Lab14/16-tcp_stack/tcp_sock.c:475-492 | a run with every segment sent while the window is open in which a segment that has arrived is missing |
| OfoList.FreedHappens | Lab14/16-tcp_stack/tcp_in.c:219-236 | a run after which the list head points at a freed entry while a segment is still to come |
| TcpReceiver.TcpRecvSock.DrainInPlace | Lab14/16-tcp_stack/tcp_in.c:217-239 | the drain loop takes the specified run of waiting segments and returns where it ends |
| TcpReceiver.TcpRecvSock.ReceiveInPlace | Lab14/16-tcp_stack/tcp_in.c:204-254 | in-order, early and old segments; the acknowledgement carries rcv_nxt and a window equal to the free space |
| TcpConnection.SendKeepsSender | Lab14/16-tcp_stack/tcp_out.c:46-61 | sending extends the segmentation and send_buf still covers exactly snd_una to snd_nxt |
| TcpConnection.ScanKeepsSender | Lab14/16-tcp_stack/tcp_timer.c:35-68 | the timer resends only what send_buf holds and leaves its segments alone |
| TcpConnection.AckKeepsSender | Lab14/16-tcp_stack/tcp_in.c:54-137 | any cumulative acknowledgement, old or new, in any congestion state keeps the sender invariant and releases exactly the segments below it |
| TcpConnection.DrainIsExact | Lab14/16-tcp_stack/tcp_in.c:219-239 | draining takes exactly the consecutive run that follows and leaves the rest waiting beyond a gap |
| TcpConnection.ReceiveKeeps | Lab14/16-tcp_stack/tcp_in.c:207-243 | whatever segment arrives, in any order and number, the stream is a whole number of segments and the waiting list is sorted and ahead of it |
| TcpConnection.NextInv | Lab14/16-tcp_stack/tcp_in.c:54-254 | every event of sender, receiver, timer, reader or channel keeps the end-to-end invariant |
| TcpConnection.ExecInv | Lab14/16-tcp_stack/tcp_in.c:54-254 | the end-to-end invariant holds after every run |
| TcpTheorems.ReadsArePrefixOfWrites | Lab14/16-tcp_stack/tcp_in.c:204-254 | in every run the bytes read are a prefix of the bytes written |
| TcpTheorems.AcksNeverLead | Lab14/16-tcp_stack/tcp_in.c:90-117 | snd_una <= rcv_nxt <= snd_nxt, and no acknowledgement in flight exceeds rcv_nxt |
| TcpTheorems.NothingReleasedEarly | Lab14/16-tcp_stack/tcp_in.c:94-117 | what left send_buf is in the receiver's stream; send_buf covers exactly [snd_una, snd_nxt), inflight is its length and cwnd is at least 1 |
| TcpTheorems.ReassemblyIsComplete | Lab14/16-tcp_stack/tcp_in.c:207-243 | rcv_nxt is the end of the longest contiguous prefix of what arrived and was kept by the list; what else was kept, and only that, waits strictly sorted beyond it |
| TcpTheorems.PartialAckResendsOldest | Lab14/16-tcp_stack/tcp_in.c:118-129 | a new acknowledgement below the recovery point leaves send_buf non-empty and resends its oldest segment, which starts at the acknowledgement |
| TcpTheorems.RecoveryEndsAtRecoveryPoint | Lab14/16-tcp_stack/tcp_in.c:118-137 | an acknowledgement other than a duplicate returns RECOVER or LOSS to OPEN exactly if it reaches the recorded snd_nxt |
| TcpTheorems.PastTheEndIff | Lab14/16-tcp_stack/tcp_in.c:93-128 | the resend reads past the list exactly if the state is RECOVER, the acknowledgement is below snd_una and send_buf is empty |
| TcpTheorems.PastTheEndHappens | Lab14/16-tcp_stack/tcp_in.c:54-129 | such a state is reachable by a run in which every segment is sent with the window open |
| TcpLoss.FastRetransmit | Lab14/16-tcp_stack/tcp_in.c:56-76 | in any run, with something outstanding in OPEN, an acknowledgement of snd_una resends the oldest outstanding segment, which starts at snd_una, exactly if it is the third since the last other one, counted over the events; recovery is then to the end of all that was sent, with ssthresh half of cwnd rounded up |
| TcpLoss.AckIsAnswered | Lab14/16-tcp_stack/tcp_in.c:54-137 | for any acknowledgement in any run, what is resent: the oldest segment left outstanding for a third duplicate in OPEN and, in RECOVER, for every other one below the recovery point, and nothing else |
| TcpLoss.OnlyOpenGrows | Lab14/16-tcp_stack/tcp_in.c:94-117 | outside OPEN no acknowledgement but a duplicate in RECOVER changes cwnd, its counter or ssthresh |
| TcpLoss.RecoveryShrinks | Lab14/16-tcp_stack/tcp_in.c:77-85 | while recovery goes on, n duplicates take one from cwnd for each of the first three and one for every second after that, never below one |
| TcpLoss.ScanCollapses | Lab14/16-tcp_stack/tcp_timer.c:41-48 | a scan with one timer running out leaves cwnd 1, half of it as ssthresh and a window of one segment, with two or more an ssthresh of 1, and with none everything as it was |
| TcpLoss.ResendSchedule | Lab14/16-tcp_stack/tcp_timer.c:38-67 | a waiting segment's timer runs out with the 2nd, 6th and 14th of every 14 scans after it was first sent, and with the 2nd and 6th it is sent again |
| TcpWindow.AckSetsWindow | Lab14/16-tcp_stack/tcp_in.c:12-24 | in any run an acknowledgement sets snd_wnd to the smaller of the advertised window and cwnd segments exactly under the stated condition on its number, and leaves it otherwise |
| TcpWindow.SendsUseWindow | Lab14/16-tcp_stack/tcp_out.c:46-61 | between acknowledgements and scans the window falls by exactly the bytes sent |
| TcpRuns.SlowStart | Lab14/16-tcp_stack/tcp_in.c:102-106 | over any stretch of a run that stays OPEN, below ssthresh every newly acknowledged segment raises cwnd by one |
| TcpWrap.ReleaseIsExactIff | Lab14/16-tcp_stack/tcp_in.c:54-117 | with numbers that wrap at 2^32, handling an acknowledgement of any true number, new, repeated or overtaken, leaves exactly the entries beyond it if and only if it shows as snd_una, or lies in one block of 2^32 with the first end it covers and compares below the first end it does not |
| TcpWrap.WrapReleasesUnacked | Lab14/16-tcp_stack/tcp_in.c:96-101 | two segments across a wrap of which acknowledging the first releases both |
| TcpWrap.OldAckReleasesUnacked | Lab14/16-tcp_stack/tcp_in.c:96-101 | a late copy of an acknowledgement from before the wrap releases a segment nobody acknowledged |
| TcpWrap.WrapHappens | Lab14/16-tcp_stack/tcp_in.c:96-101 | the first is what two full segments sent from 2000 below 2^32 come to |
| TcpWrap.OldAckHappens | Lab14/16-tcp_stack/tcp_in.c:96-101 | the second is what three segments and two acknowledgements across the wrap come to |
| TcpRuns.ReleaseAvoidsCongestion | Lab14/16-tcp_stack/tcp_in.c:94-117 | one release loop in OPEN from cwnd w at or above ssthresh: taking n entries makes cwnd w + k exactly for the greatest k with k w + k (k - 1) / 2 <= n |
| TcpRuns.CongestionAvoidance | Lab14/16-tcp_stack/tcp_in.c:54-117 | the same over any stretch of a run that stays OPEN, whatever is sent, lost, repeated and scanned in it, for the n segments newly acknowledged |
| TcpRuns.ScanTicksEachEntry | Lab14/16-tcp_stack/tcp_timer.c:38-68 | one scan advances every entry's timer by one step, whatever the others do, and sends exactly those that fire |
| TcpRuns.NeverGivenUp | Lab14/16-tcp_stack/tcp_timer.c:35-68 | in any stretch of a run with 14 n timer scans, from any moment on and whatever is sent, acknowledged and read in between, a segment that stays unacknowledged is sent again by exactly 2 n of the scans |
| TcpFinish.CanFinishIff | Lab14/16-tcp_stack/tcp_in.c:54-254 | from any point of any run the connection can be continued until all that was written is read and all that was sent acknowledged, if and only if the list head does not point at a freed entry or no segment is missing |
| TcpFinish.StuckHappens | Lab14/16-tcp_stack/tcp_in.c:219-236 | a run that no continuation brings to that end |
| Dijkstra.MinDist | Lab9/11-mopsf/mospf_daemon.c:431-444 | the first unvisited vertex of least distance, -1 exactly if there is none |
| Dijkstra.RelaxFrom | Lab9/11-mopsf/mospf_daemon.c:461-468 | relaxing a visited vertex keeps the tree and leaves none of its edges improvable, without overflow from the 0x7E7E7E7E fill |
| Dijkstra.Round | Lab9/11-mopsf/mospf_daemon.c:457-469 | one round visits one more vertex and keeps: visited vertices are nearest and fully relaxed, prev is a tree |
| Dijkstra.Dijkstra | Lab9/11-mopsf/mospf_daemon.c:445-470 | distances up to 126 are true hop distances, 127 is further or unreachable, prev is a tree of shortest paths |
| Dijkstra.SentinelIsUnreachable | Lab9/11-mopsf/mospf_daemon.c:450-450 | with at most 127 routers the value 127 means unreachable |
| RouteTable.LocateEntry | Lab9/11-mopsf/mospf_daemon.c:395-401 | the first position of the id, -1 without one |
| RouteTable.InitGraph | Lab9/11-mopsf/mospf_daemon.c:403-430 | the list is this router and then the database in order; the graph holds exactly the advertised links, both ways |
| RouteTable.FollowPrev | Lab9/11-mopsf/mospf_daemon.c:505-508 | the walk along prev ends, at the router next to this one |
| RouteTable.NextHopIsOnPath | Lab9/11-mopsf/mospf_daemon.c:505-508 | that router is a direct neighbour from which the target is one hop nearer |
| RouteTable.FindGateway | Lab9/11-mopsf/mospf_daemon.c:513-527 | the first interface on which the router is heard and its first address there; not found exactly if it is heard on none |
| RouteTable.RemoveGatewayRoutes | Lab9/11-mopsf/mospf_daemon.c:483-487 | exactly the directly attached routes stay, in order |
| RouteTable.DirectOfParts | Lab9/11-mopsf/mospf_daemon.c:483-487 | what stays of a table is what stays of its parts, in order and with every copy |
| RouteTable.InstallRoutes | Lab9/11-mopsf/mospf_daemon.c:530-547 | one route for each advertised network that has none |
| RouteInstall.AddRoutesProvides | Lab9/11-mopsf/mospf_daemon.c:530-547 | installing keeps every route and leaves each advertised network with one |
| RouteInstall.AddRoutesAreNew | Lab9/11-mopsf/mospf_daemon.c:534-546 | each new route is for an advertised network that no earlier route is for |
| RouteInstall.ForRouter | Lab9/11-mopsf/mospf_daemon.c:500-549 | the scan of the database handles the selected router once; that it overwrites its own cursor with the next hop adds nothing |
| RouteInstall.NewIsNearest | Lab9/11-mopsf/mospf_daemon.c:488-550 | a network still without a route when a router is selected has that router as a nearest advertiser |
| RouteInstall.InstallAll | Lab9/11-mopsf/mospf_daemon.c:488-550 | direct routes come first, every other advertised network has exactly one route, and it leads to a nearest advertiser through the first interface on which the next hop is heard |
| RouteInstall.GenerateTable | Lab9/11-mopsf/mospf_daemon.c:471-552 | the whole run from database and neighbours to such a table |
| Forwarding.SharedRenames | Lab9/11-mopsf/mospf_daemon.c:403-430 | the graph each router builds from a shared symmetric database is one graph with its vertices renamed |
| Forwarding.GoodRouteDescends | Lab9/11-mopsf/mospf_daemon.c:505-547 | a route to the next hop towards a nearest advertiser leads to a router exactly one hop nearer to the network |
| Forwarding.ForwardingDescends | Lab9/11-mopsf/mospf_daemon.c:471-552 | with all tables built from one database, a router not attached to an advertised network hands packets on, on an interface where the next router is heard, and always to a router exactly one hop closer to a nearest advertiser |
| Forwarding.ForwardingDelivers | Lab9/11-mopsf/ip_base.c:43-49 | from every router there is a way to an attached router within the distance of the nearest advertiser, passing no router twice |
| Forwarding.EveryWayDescends | Lab9/11-mopsf/ip_base.c:43-77 | every way a packet can take by routes for its network comes one hop closer at each router, meets none twice and goes on until it is at an attached router |
| Forwarding.BuildRouter | Lab9/11-mopsf/mospf_daemon.c:471-552 | a router that holds the shared database in any order, knows its linked neighbours and is near all others builds a table meeting every condition the forwarding theorems ask for |
| LongestForwarding.LongestMatch | Lab9/11-mopsf/ip_base.c:28-40 | the first of the matching routes with the greatest mask, none exactly if none matches |
| LongestForwarding.MaskedIsNormal | Lab9/11-mopsf/mospf_daemon.c:120-131 | advertised networks, being masked addresses, have no bits outside their masks |
| LongestForwarding.TablesAreComplete | Lab9/11-mopsf/mospf_daemon.c:483-550 | with all tables built from one database every router has routes for exactly the advertised networks |
| LongestForwarding.NoRouteIff | Lab9/11-mopsf/ip_base.c:66-71 | a router finds no route exactly for the addresses that no advertised network matches |
| LongestForwarding.DirectIff | Lab9/11-mopsf/ip_base.c:43-49 | the selected route is without gateway exactly at the routers attached to its network |
| LongestForwarding.LongestMatchDelivers | Lab9/11-mopsf/ip_base.c:28-77 | forwarding by the longest match, networks overlapping as they may, brings a packet one hop closer at each router to the network that is the longest match among all advertised ones, leaves each router on an interface where the next is heard, meets none twice and stops exactly at a router attached to that network |
| Masks.AndBits | Lab9/11-mopsf/ip_base.c:33-33 | `&` has exactly the bits that both numbers have |
| Masks.MatchesIff | Lab9/11-mopsf/ip_base.c:33-33 | under the mask of n leading ones an address matches a network if and only if their quotients by 2^(32 - n) are equal |
| Masks.MasksCompare | Lab9/11-mopsf/ip_base.c:34-34 | such masks compare as their lengths do |
| Masks.ScansAgree | Lab9/11-mopsf/ip_base.c:28-40 | for any address the scan by masks and the scan of the prefixes read as bits select the same entry |
| Flooding.Mospf.constructor | Lab9/11-mopsf/mospf_daemon.c:98-170 | a daemon starts with sequence number 0 and an empty database |
| Flooding.Mospf.HandleLsu | Lab9/11-mopsf/mospf_daemon.c:268-352 | the database after an update, and the copies sent on: none unless it was new and its TTL allows, never to its originator |
| Flooding.Mospf.SendLsu | Lab9/11-mopsf/mospf_daemon.c:138-169 | the next 16-bit number and one copy for each neighbour |
| Flooding.Mospf.CheckDatabase | Lab9/11-mopsf/mospf_daemon.c:206-215 | entries age by one and leave at 40, the others keep their order |
| Flooding.MergeRaises | Lab9/11-mopsf/mospf_daemon.c:281-323 | an update is new exactly if its number exceeds the one held, and then that is the number held; no other router's changes |
| Flooding.DatabasesAreAuthentic | Lab9/11-mopsf/mospf_daemon.c:268-319 | in every run each entry is exactly what its router advertised under that number, no router has two entries or its own, and the router list has no duplicates |
| Flooding.HeldNeverFalls | Lab9/11-mopsf/mospf_daemon.c:206-319 | the number held for a router never falls while its entry lives, through updates and ageing |
| Flooding.FloodsAreFinite | Lab9/11-mopsf/mospf_daemon.c:206-352 | a router treats as new at most as many updates of a router as that router made, once and once more for each expiry of the entry, however they are duplicated |
| Flooding.RelaysAreFinite | Lab9/11-mopsf/mospf_daemon.c:323-352 | so it sends updates of that router on at most as often, and never one that was not new to it |
| FloodAges.EntryLivesIff | Lab9/11-mopsf/mospf_daemon.c:200-319 | in any run a new update is held with its number and content until 40 passes of the ageing thread have gone by without a newer one, and not longer; the age counts the passes since the update |
| FloodAges.OrderOfLearning | Lab9/11-mopsf/mospf_daemon.c:206-318 | in every run the entries of a database stand in the order in which the router last learnt of each |
| Flooding.RelaysAreFew | Lab9/11-mopsf/mospf_daemon.c:323-352 | a chain of relays in a run has a length fixed by the TTL, carries the advertisement unchanged and never returns to its originator |
| Flooding.FramesComeFromOrigin | Lab9/11-mopsf/mospf_daemon.c:138-352 | in every run, expiry included, each copy in flight ends such a chain that began with the router that made the update, at most 254 relays ago |
| FloodConverge.DeliverySpreads | Lab9/11-mopsf/mospf_daemon.c:302-352 | while an update spreads, a copy that reaches a router which does not know it makes it known there and sends copies on to all its neighbours, with enough TTL left for 255 routers |
| FloodConverge.FloodsConverge | Lab9/11-mopsf/mospf_daemon.c:98-352 | any run of at most 255 connected routers can go on, each advertising once, until every router holds exactly the latest advertisements of all others, which is the shared database of the forwarding theorems |
| Prefixes.LpmAfterAdd | Lab9/11-mopsf/ip_base.c:28-40 | adding a table entry changes the longest match of exactly the addresses under it that match nothing longer |
| Prefixes.DeepestEnds | Lab8/10-lookup/main.c:275-284 | the lookup walk ends at a node, on a level, with no node one level further |
| Prefixes.DeepestReaches | Lab8/10-lookup/main.c:269-314 | the lookup walk reaches a depth exactly if there is a node |
| Prefixes.ExtendEffect | Lab8/10-lookup/main.c:134-159 | the insertion walk adds exactly the missing nodes on the way, all with the port of the deepest old one |
| Prefixes.InsertEffect | Lab8/10-lookup/main.c:128-267 | which nodes an insertion leaves and their ports, for both tries and including the two half nodes of an odd length |
| Prefixes.LookupAfterInsert | Lab8/10-lookup/main.c:128-314 | an insertion changes the lookup of exactly the addresses under the prefix whose walk ended no deeper than it |
| LookupTheorems.GrownAfterInsert | Lab8/10-lookup/main.c:128-267 | the set of nodes depends on the inserted prefixes only, not on their order |
| LookupTheorems.InsertExactIff | Lab8/10-lookup/main.c:128-314 | an insertion keeps lookup and longest-prefix match equal on all addresses if and only if it shadows none or its port is the one matched before |
| LookupTheorems.AlwaysRightIff | Lab8/10-lookup/main.c:24-45 | a trie is right after every insertion of a table if and only if every insertion is safe in that sense |
| LookupTheorems.LookupIsLastSeen | Lab8/10-lookup/main.c:128-314 | after any table a lookup gives the port of the last entry that matches and has no deeper node of an earlier entry on the way |
| LookupTheorems.FinallyRightIff | Lab8/10-lookup/main.c:23-90 | after the whole table, whatever happened on the way, a trie answers every address with the longest match if and only if for each address the last entry seen has the port of the last among the longest that match |
| LookupTheorems.TriesMatchTable | Lab8/10-lookup/main.c:128-314 | with distinct prefixes, each before its extensions, both tries return the longest-prefix match for every address |
| TrieOrders.LongFirstGoesWrong | Lab8/10-lookup/main.c:136-157 | an order in which both tries return the old match |
| TrieOrders.SecondInsertIsLost | Lab8/10-lookup/main.c:219-261 | a changed port of an odd-length prefix reaches the binary trie but not the four-way one |
| TableScan.LongestPrefixMatch | Lab9/11-mopsf/ip_base.c:28-40 | the scan selects the first of the longest matching entries, and none exactly if none matches |
| TableScan.ScanIsLpm | Lab9/11-mopsf/ip_base.c:28-40 | with distinct prefixes that is the longest-prefix match of the table as a map |
| Tries.BinaryTrie.constructor | Lab8/10-lookup/main.c:115-120 | one node with port 0 |
| Tries.BinaryTrie.Down | Lab8/10-lookup/main.c:136-157 | the next node on the way, made with the parent's port if missing |
| Tries.BinaryTrie.InsertInfo | Lab8/10-lookup/main.c:128-163 | the linked nodes afterwards hold what the specified insertion gives |
| Tries.BinaryTrie.Lookup | Lab8/10-lookup/main.c:269-285 | the port of the deepest node on the way, for every address |
| Tries.QuadTrie.constructor | Lab8/10-lookup/main.c:121-126 | one node with port 0 |
| Tries.QuadTrie.Fill | Lab8/10-lookup/main.c:173-222 | a son made if missing; one that exists keeps its port |
| Tries.QuadTrie.Walk | Lab8/10-lookup/main.c:171-225 | the way down to the last level at or above the end of the prefix |
| Tries.QuadTrie.InsertInfo | Lab8/10-lookup/main.c:165-267 | the linked nodes afterwards hold what the specified insertion gives, for even and odd lengths |
| Tries.QuadTrie.Lookup | Lab8/10-lookup/main.c:286-314 | the port of the deepest node on the way, for every address |
| Tries.Load | Lab8/10-lookup/main.c:23-45 | both tries after reading a table are those of its entries in order |
| Tries.LoadAndLookup | Lab8/10-lookup/main.c:23-90 | with prefixes in a safe order both lookups of any address return the port of its longest match |
| Nat.FirstFree | Lab10/12-nat/nat.c:40-50 | the first free port of the pool, 0 exactly if none is free |
| NatTheorems.PoolExactIff | Lab10/12-nat/nat.c:40-220 | a pool port is marked exactly while one mapping holds it, in every run, if and only if no DNAT rule has that port |
| NatTheorems.RunOwned | Lab10/12-nat/nat.c:74-143 | mappings of a bucket differ in their external endpoint, but for port 0, in every run |
| NatTheorems.OwnerIsReached | Lab10/12-nat/nat.c:71-115 | in every run a packet for the external endpoint of a mapping is sent to the mapping's owner |
| NatTheorems.RoundTripIff | Lab10/12-nat/nat.c:53-158 | out and back restores the sender's ip and port, for any hash, if and only if it got a port or no earlier mapping of the bucket has the same address and port 0 |
| NatFlows.RoundTripFails | Lab10/12-nat/nat.c:53-158 | after a run that uses up the pool the reply to the second sender without a port goes to the first |
| NatFlows.FlowStays | Lab10/12-nat/nat.c:53-214 | through any packets and any sweeps that come within 60 seconds and find the flow unfinished, its mapping keeps its ends and the time of its first packet |
| NatFlows.ReplyAnytime | Lab10/12-nat/nat.c:53-214 | through all these the reply to a packet that got a port is restored |
| NatTheorems.NoPortIff | Lab10/12-nat/nat.c:126-143 | a new mapping gets port 0 exactly if every pool port is held by one mapping |
| NatFlows.FlowSurvivesIff | Lab10/12-nat/nat.c:71-214 | after any packets and timely sweeps the next sweep keeps a flow's mapping if and only if the first packet is at most 60 seconds old and the flow is not finished |
| NatFlows.SweepDecidesReply | Lab10/12-nat/nat.c:71-214 | after that sweep the reply is restored under the same condition and goes nowhere otherwise |
| NatFlows.BusyFlowIsDropped | Lab10/12-nat/nat.c:71-214 | however busy a flow is, after the first sweep more than 60 seconds from its first packet its replies go nowhere |
| NatFlows.InboundTripIff | Lab10/12-nat/nat.c:71-152 | the answer to an inbound packet seems to come from where the packet went if and only if the first mapping of the bucket with that internal endpoint, if there is one, has the packet's external endpoint |
| NatFlows.InboundTripFails | Lab10/12-nat/nat.c:71-152 | with any DNAT rule, a server that has itself sent to the remote endpoint answers under its own port instead |
| NatTheorems.KeptIsYoung | Lab10/12-nat/nat.c:199-213 | a sweep keeps exactly the mappings whose stored time is at most 60 seconds back and whose flow is not finished |
| NatFinish.FinishedIff | Lab10/12-nat/nat.c:116-187 | in any run a flow with a port counts as finished if and only if a packet with FIN alone has left, the last one that came in has FIN alone, and each side's sequence numbers have been reached by a packet with ACK alone from the other |
| NatFinish.OutChangesSource | Lab10/12-nat/nat.c:122-150 | an outgoing packet is unchanged but for its source, which is its mapping's external endpoint, or the external address with the first free port of the pool, or 0 exactly if none is free |
| NatFinish.InChangesDestination | Lab10/12-nat/nat.c:71-115 | an inbound packet is unchanged but for its destination: by the first mapping for its endpoint, else by the first rule, and without either it goes nowhere |
| NatFinish.RuleStartsMapping | Lab10/12-nat/nat.c:85-121 | a packet let in by a rule starts a mapping with the rule's ends and the time of the packet, which records it as the first from outside |
| NatFinish.KeptOfParts | Lab10/12-nat/nat.c:199-213 | a sweep keeps of a bucket what it keeps of its parts, in order and with every copy |
| NatObject.NatTable.constructor | Lab10/12-nat/nat.c:309-325 | no port marked, no mapping |
| NatObject.NatTable.AllocPort | Lab10/12-nat/nat.c:40-50 | marks and returns the first free port, or 0 and nothing |
| NatObject.NatTable.TranslateInbound | Lab10/12-nat/nat.c:71-121 | table and packet after an inbound packet; without mapping and rule nothing is sent and nothing changes |
| NatObject.NatTable.TranslateOutbound | Lab10/12-nat/nat.c:122-152 | table and packet after an outbound packet, with a new mapping if the sender has none in the bucket |
| NatObject.NatTable.SweepList | Lab10/12-nat/nat.c:199-213 | one bucket's list, changed while it is walked, loses its expired mappings and their ports are unmarked one by one |
| NatObject.UnmarkedAt | Lab10/12-nat/nat.c:203-209 | unmarking one by one frees exactly the ports of expired mappings |
| NatObject.NatTable.SweepAll | Lab10/12-nat/nat.c:191-217 | the whole table after one sweep |
| Checksum.Accumulate | Lab10/12-nat/include/checksum.h:10-14 | the 32-bit sum of all words and an odd last byte, wrapped |
| Checksum.Fold | Lab10/12-nat/include/checksum.h:16-17 | the loop ends and yields the end-around-carry sum |
| Checksum.FoldStep | Lab10/12-nat/include/checksum.h:16-17 | folding makes the sum smaller and keeps its residue modulo 0xffff |
| Checksum.Compute | Lab10/12-nat/include/checksum.h:8-20 | the complement of that sum |
| Checksum.NeverWraps | Lab10/12-nat/include/checksum.h:10-14 | up to 65535 bytes and below an initial 2^31 the accumulator does not wrap |
| Checksum.RightIff | Lab10/12-nat/include/checksum.h:10-19 | on any buffer the result is the true one's-complement sum if and only if the wraps are a multiple of 0xffff and do not turn a non-zero sum to zero |
| Checksum.ChecksIff | Lab10/12-nat/include/checksum.h:8-20 | a word stored where there was zero makes the buffer check if and only if it is the checksum, or 0xffff for a checksum of 0 |
| Checksum.ChangeUnseenIff | Lab10/12-nat/include/checksum.h:8-20 | changing one word of a checking buffer goes unseen if and only if it changes between 0 and 0xffff and the rest is not zero |
| Checksum.TotalGrows | Lab10/12-nat/include/checksum.h:10-14 | byte by byte what is summed: the first byte of a word as it is, the second 256 times, an odd last byte as if a zero followed |
| Checksum.OddByteIsSeen | Lab10/12-nat/include/checksum.h:10-14 | a change of the odd last byte of a checking buffer is always seen |
| Checksum.IpChecksum | Lab10/12-nat/include/ip.h:74-82 | the checksum of the header with its field as zero; the field is put back |
| Checksum.SetIpChecksum | Lab10/12-nat/ip_base.c:24-24 | the header checks once the result is stored in its field |

## Left out

- StpNetwork.ExecInv: the hello timer is an active flag rather than a clock, and message age, max age and forward delay, which the code sends but never reads, are not fields; links join two distinct switches, shared segments are not modelled.
- StpStable.FloodsAreLoopFree: says nothing of the time before resending changes nothing; MAC learning is not modelled.
- StpAgreement.EveryRunSettles: a network that loses messages for ever need not settle, so no bound in time is claimed.
- TcpConnection.ExecInv: one direction, after the handshake and before any FIN or RST; data packets all carry PSH. Runs end where a sequence number would pass 2^32, where the code would read past send_buf, and where a segment would be handled with a list head that points at a freed entry; `ReleaseIsExactIff`, `PastTheEndIff` and `CanFinishIff` say exactly what that comes to.
- TcpFinish.CanFinishIff: the channel must deliver at last what it has been given, so no bound in time is claimed.
- TcpConnection.NextInv: handlers are atomic, and the wait for room in the ring buffer is a step during which the reader takes any amount.
- TcpLoss.FastRetransmit: nothing outstanding is left to `AckIsAnswered`.
- TcpSender.TcpSock.Write: returns where the source sleeps until the window opens, and does not wait once more after the last segment; the source's `strlen` limit, which differs from `len` when the data has a zero byte, is left out.
- TcpReceiver.TcpRecvSock.SockRead: starts where the source's wait for a non-empty buffer ends.
- Dijkstra.Dijkstra: the arrays of four routers are arrays of any size.
- RouteInstall.GenerateTable: requires that every advertised router id has an entry, that ids are distinct and that every router is reached, since the source otherwise indexes its arrays with -1; the selection loop runs once for every other router, without the source's last round, in which none is left to select.
- LongestForwarding.LongestMatchDelivers: assumes that a router's direct routes are for networks it advertises and that no router has address 0; the TTL of a packet and what ARP does with the next hop are not modelled.
- Flooding.DatabasesAreAuthentic: a router's 16-bit sequence number does not wrap in the run, and an entry's advertisement array, which the source fills without growing it, is a sequence.
- FloodConverge.FloodsConverge: neighbour lists stay as they are while the round goes on; its copies must not be lost for ever.
- Flooding.FloodsAreFinite: hello messages and neighbour timeouts appear as neighbour lists that change freely.
- Tries.BinaryTrie.InsertInfo: children that the source leaves uninitialised after malloc are null; prefix lengths are 0 to 32; an address is the sequence of its 32 bits.
- TableScan.LongestPrefixMatch: masks are contiguous; `Masks.ScansAgree` relates it to the scan of routes with such masks.
- NatTheorems.RoundTripIff: assumes no DNAT rule with a pool port, by `PoolExactIff` exactly the condition under which the pool is kept right.
- NatObject.NatTable.SweepAll: the clock is read once for a sweep.
- Checksum.Compute: pairs of bytes are read little-endian; the pseudo-header sum of `tcp_checksum` is left out.
- Raw sockets, poll loops, ARP, ICMP, HTTP, configuration files, interface discovery and logging: input and output without a property to state.
- Locks, sleeps and wake-ups: replaced by atomic steps in any order.
- TCP connect, accept, close and timers of TIME_WAIT.
- The earlier versions of the TCP stack in Lab11 to Lab13 and Lab15.
- FIN statistics of NAT beyond what the sweep reads; recomputation of packet checksums after a translation.
