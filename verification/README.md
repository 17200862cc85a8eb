# Chat cluster: causal multicast, reliable unicast, wire formats, leader step-down

A node of the cluster talks to the others in two ways. Chat messages go through a causal
multicast: every message is stamped with a vector clock, arrivals wait in a hold-back queue, and a
delivery loop hands up whatever its clock allows. Everything else goes through a unicast with frame
numbers, acks and retransmission. Above them a state machine decides who leads.

The project models these layers as the code has them, errors included, and proves what they
guarantee over every run. Where the code falls short of its evident intent, the exact condition is
proved instead, with a concrete run that shows the gap.

| file | what it holds |
|---|---|
| `Bytes.dfy` | Go strings, fixed-width integers with wrap-around, big-endian fields, the byte reader, read buffers |
| `MessageCodec.dfy`, `UnicastFraming.dfy`, `MulticastFraming.dfy`, `Layering.dfy` | the three nested codecs, alone and stacked |
| `CausalClock.dfy` | the delivery test and the delivery loop as functions of clock and queue |
| `ReliableMulticast.dfy` | the class of a multicast session; its methods compute those functions in place |
| `CausalTrace.dfy`, `CausalSystem.dfy`, `CausalRuns.dfy`, `CausalLimits.dfy` | n nodes over a lossy network: happens-before, the invariant of every run, causality, progress, the limits of the 32-bit clock |
| `MulticastAcks.dfy` | whom a sender still awaits an ack from, over every interleaving |
| `FrameKeys.dfy`, `ReliableUnicast.dfy` | the string keys, and the listener, sender and retry loop of the unicast |
| `UnicastListener.dfy`, `UnicastSystem.dfy` | what a listener hands up for any arrivals; any number of hosts over a lossy network |
| `UnicastDrainVariant.dfy` | a variant of the listener, not the repository's code, that shows what one missing increment costs |
| `StateMachine.dfy`, `LeaderRuns.dfy` | the transition table and the clusters of leaders that hear each other |

How the parts fit together: the classes (`ReliableMulticast`, `ReliableListener`, `ReliableSender`,
`Machine`, `Reader`) update their fields as the Go objects do, one method for what happens under one
lock. Each method's contract gives the whole new state as a function of the old one. The cluster
models take exactly those functions as their steps, so what is proved about runs is about the
methods.

Results worth knowing before the table:

- Causal delivery holds in every run in which no node sends more than 2^32 messages in a session, and
  this bound is exact: a run with one message more breaks it (`CausalLimits.CausalExactlyUpTo`). That
  stamps tell causality, and that a node which got everything delivers everything, holds for fewer
  than 2^32 messages, again exactly: message number 2^32 carries stamp 0 and is never delivered
  (`CausalLimits.StampsExactlyUpTo`, `CausalLimits.CompleteExactlyUpTo`).
- Any datagram is read into 1024 bytes. A multicast message can be decoded exactly up to 24 nodes;
  with more, the clock does not fit, and the original then dereferences a nil message.
- The send loop of the multicast overwrites the pending map in every turn, so a frame awaits the acks
  of all peers exactly when there is at most one peer (`MulticastAcks.AwaitsAllPeersIff`).
- The drain loop of the unicast listener does not advance the frame counter. Two things follow.
  Frames that came early are acked and buffered but never handed up on their own: frames 1 to k are
  handed up exactly when they arrived in this order (`UnicastListener.HandedUpExactly`). And a frame
  that came early and then again in its turn is handed up twice. What is handed up is 1 up to the
  counter, a frame twice exactly if a copy of it came before its predecessors had arrived in order,
  otherwise once; the second copy is the last of the early ones (`UnicastListener.HandedExactly`,
  `UnicastListener.HandedMessages`; arrivals 2, 1, 2 give 1, 2, 2). With the counter
  advanced, arrival in any order would do, and each frame would come once (`UnicastDrainVariant`).
- Giving up a peer restarts the numbers sent to it at 1 while the peer keeps its counter, so what is
  sent next is acked and lost until the new numbers pass the old ones (`UnicastSystem.NumberOfSend`,
  `UnicastSystem.PassedNumbersAreLost`).
- An empty unicast payload makes the sender panic at its first unanswered try, and nothing else does.

Ids are byte strings; wherever a proof needs 36 bytes, as UUIDs have, the contract says so. The
address of a message is the one it arrived from; traces drop it (`CausalSystem.Content`). They record
a body as it is to be seen behind the read buffer (`CausalSystem.Visible`).

## Model

| member | source | states |
|---|---|---|
| `CausalLimits.CausalExactlyUpTo` | server/multicast/multicast.go:117-180 | all runs of nodes with 36-byte ids and at most n sends each, any loss, repetition and reordering, deliver every message after its causes, if and only if n is at most 2^32 |
| `CausalRuns.RunIsCausal` | server/multicast/multicast.go:361-392 | if a happens before b, whoever delivers b and is not a's sender has delivered a before |
| `CausalLimits.WrapBreaksCausality` | server/multicast/multicast.go:168-173 | a run of two nodes with 36-byte ids and 2^32+1 sends in which a message is delivered whose cause never arrived |
| `CausalLimits.WrapGetsThrough` | server/multicast/multicast.go:394-486 | every encoding of the message that breaks causality there decodes, behind the read buffer, to exactly what arrives in that run, and the other node takes it in |
| `CausalLimits.StampsExactlyUpTo` | server/multicast/multicast.go:168-173 | in all runs with at most n sends per node stamps and happens-before agree on all messages, if and only if n is below 2^32 |
| `CausalLimits.CompleteExactlyUpTo` | server/multicast/multicast.go:252-260 | in all such runs a node that everything has reached delivers everything, if and only if n is below 2^32 |
| `CausalLimits.WrapStallsDelivery` | server/multicast/multicast.go:130-133 | the run that shows it: all 2^32 messages of a node wait at the other one, and the last is not delivered |
| `CausalRuns.WrappedNeverDelivered` | server/multicast/multicast.go:130-133 | in every run, every 2^32-th message of a node is delivered nowhere |
| `CausalLimits.ZeroStampIsDropped` | server/multicast/multicast.go:371-376 | the delivery loop drops every copy of a message with own stamp 0, whatever else is in the queue and whatever the clock |
| `CausalTrace.StampIsNumber` | server/multicast/multicast.go:168-173 | the n-th message of a sender carries frame n-1 and own stamp n, both modulo 2^32 |
| `CausalRuns.NothingStuck` | server/multicast/multicast.go:252-260 | one run of the delivery loop makes node i's clock equal everybody's true send counts if and only if every message of the others arrived at i; then the queue ends empty |
| `CausalRuns.RunStamps` | server/multicast/multicast.go:168-173 | in every run below the wrap, a happens before b if and only if b's stamp at a's sender has reached a's own number |
| `CausalTrace.StampsCharacteriseCausality` | server/multicast/multicast.go:168-173 | the same for every trace in which stamps record history and deliveries passed the test |
| `CausalTrace.CausalDelivery` | server/multicast/multicast.go:130-157 | the delivery test alone forces causal order on any such trace |
| `CausalTrace.HappensBeforeBelow` | server/multicast/multicast.go:130-157 | a cause's stamp lies below its effect's, strictly at the effect's sender |
| `CausalTrace.DeliveredPrefix` | server/multicast/multicast.go:134-139 | what i delivered from k is a prefix of what k sent |
| `CausalRuns.ClockIsHistory` | server/multicast/multicast.go:378-381 | up to 2^32 sends: the entry for k at i counts the deliveries from k, which are a prefix of k's log; it stays within k's own entry exactly until that wraps |
| `CausalRuns.OwnEntryCountsSends` | server/multicast/multicast.go:168-180 | a node's own entry, its frame counter and its number of sends agree exactly until the counter wraps |
| `CausalRuns.NothingDeliveredTwice` | server/multicast/multicast.go:371-376 | no message is delivered twice at a node, however often it arrives |
| `CausalRuns.NextIsActionable` | server/multicast/multicast.go:117-158 | when all earlier sends are covered by the clock, the next message is deliverable or a duplicate |
| `CausalSystem.RunInv` | server/multicast/multicast.go:160-180 | in every run: clocks and frames count the history, queues hold what arrived and was not passed, every event passed its guard |
| `CausalSystem.SendKeeps` | server/multicast/multicast.go:160-180 | a send keeps that invariant at every node |
| `CausalSystem.ArriveKeeps` | server/multicast/multicast.go:252-256 | an arrival keeps it, repeated or late as it may be |
| `CausalSystem.DeliverKeeps` | server/multicast/multicast.go:361-392 | a whole run of the delivery loop keeps it |
| `CausalClock.DeliverAllSettles` | server/multicast/multicast.go:366-388 | the loop terminates; queue before = delivered + dropped + queue after as multisets; each delivery was due; each drop was a duplicate; nothing left can be acted on |
| `CausalClock.ClockIgnoresOrder` | server/multicast/multicast.go:252-260 | the final clock is the same for every order and batching of the same arrivals, repeated or not |
| `CausalClock.DeliveredIgnoresOrder` | server/multicast/multicast.go:366-388 | so is the set of delivered messages, if sender and number identify a message |
| `CausalClock.QueueIgnoresOrder` | server/multicast/multicast.go:366-388 | and the multiset left in the queue, for permutations |
| `CausalClock.DeliveredSet` | server/multicast/multicast.go:366-388 | delivered are exactly the messages whose own stamps lie between the clocks before and after |
| `CausalClock.RemainingCount` | server/multicast/multicast.go:366-388 | a message stays in the queue, all its copies, exactly when the clock did not reach it |
| `CausalClock.StrangersWait` | server/multicast/multicast.go:119-129 | a message of an unknown sender, or whose stamp lacks its sender, is neither delivered nor dropped, all copies stay |
| `CausalClock.IncompleteStampsWait` | server/multicast/multicast.go:141-149 | a message whose stamp lacks any known node is not delivered |
| `CausalClock.BumpIsJoin` | server/multicast/multicast.go:378-381 | under the delivery test, counting up the sender's entry is the pointwise maximum of both clocks over the local peers |
| `CausalClock.Least` | server/multicast/multicast.go:130-157 | the clock after legal deliveries is below every clock at which none of them is due |
| `ReliableMulticast.ReliableMulticast.CanDeliver` | server/multicast/multicast.go:117-158 | in whatever order the clock is ranged over: the two results are exactly "due" and "duplicate" |
| `ReliableMulticast.ReliableMulticast.ScanQueue` | server/multicast/multicast.go:369-387 | one scan acts on the first message it can, removes it in place, and leaves the rest of the loop's outcome as it was |
| `ReliableMulticast.ReliableMulticast.DeliverMessages` | server/multicast/multicast.go:361-392 | clock, queue and channel afterwards are those of the delivery loop's function |
| `ReliableMulticast.ReliableMulticast.SendMessage` | server/multicast/multicast.go:160-211 | own entry and frame up by one with wrap-around, pending acks set, and the datagram encodes the stamped message in some order of the clock |
| `ReliableMulticast.ReliableMulticast.RetryTurn` | server/multicast/multicast.go:196-204 | a worker is done exactly when nobody is awaited for its frame, and only then forgets it |
| `ReliableMulticast.ReliableMulticast.OnAck` | server/multicast/multicast.go:104-114 | an ack removes that node from that frame's set and nothing else |
| `ReliableMulticast.ReliableMulticast.RemoveDeadNode` | server/multicast/multicast.go:293-309 | the first entry of the node list goes, and the node leaves every pending set; the clock stays |
| `ReliableMulticast.ReliableMulticast.OnDatagram` | server/multicast/multicast.go:213-263 | for every datagram: own messages are skipped; what does not decode, frame or payload, crashes the node; others are acked under their frame and join the queue, a dead-node notice updates the ack table, a new-node notice clock, queue and deliveries |
| `ReliableMulticast.NoticeEffects` | server/multicast/multicast.go:244-251 | told by the first byte of the payload: 6 takes the named node off the list once and out of every pending set, 7 adds it to the clock, anything else changes nothing |
| `ReliableMulticast.AckEndsWait` | server/multicast/multicast.go:243 | the ack payload starts with byte 10 and names the frame; at the sender it ends that one wait and no other |
| `ReliableMulticast.ReliableMulticast.AddNewNode` | server/multicast/multicast.go:328-349 | a zero entry for a newcomer in the clock and in the stamps of the queue that lack it, then the delivery loop; the own id is reset |
| `ReliableMulticast.NewcomerHoldsNothingUp` | server/multicast/multicast.go:337-344 | with both entries a queued message is due exactly when it was before, unless its stamp is ahead for the newcomer; without the second it never would be |
| `ReliableMulticast.NewcomerSettles` | server/multicast/multicast.go:345-348 | after a new-node notice nothing is left in the queue that could be delivered or dropped, and no message is lost |
| `ReliableMulticast.KnownNodes` | server/multicast/multicast.go:332-336 | a notice of a known node changes no clock, one of the receiver itself resets its own entry |
| `ReliableMulticast.ResetSilencesSender` | server/multicast/multicast.go:332-336 | after such a reset the next message is a duplicate to everyone who has delivered one before |
| `ReliableMulticast.AnnouncementHeldUp` | server/multicast/multicast.go:245-256 | the message that announces a newcomer is not delivered unless its own stamp has an entry for it |
| `ReliableMulticast.ReliableMulticast.constructor` | server/multicast/multicast.go:72-99 | a session starts with zero clocks for all peers and empty queue and ack table |
| `ReliableMulticast.FillPeers` | server/multicast/multicast.go:80-98 | no index is out of range when the own id is listed; zero clocks for all, the others in order, blanks behind them |
| `ReliableMulticast.InitialNodeIdsDistinct` | server/multicast/multicast.go:80-98 | with distinct peers the node list holds every other peer exactly once and nothing else |
| `ReliableMulticast.FirstSendAwaits` | server/multicast/multicast.go:80-98 | with distinct peers the first send awaits exactly the last of the other peers in the list |
| `ReliableMulticast.DoubledIdAwaitsNobody` | server/multicast/multicast.go:80-98 | sends await a blank id, which nobody acks, if and only if the own id is listed more than once |
| `ReliableMulticast.RemoveFirstAt` | server/multicast/multicast.go:296-301 | the first entry goes and the others keep their order |
| `MulticastAcks.AwaitsAllPeersIff` | server/multicast/multicast.go:177-179 | a new frame awaits all peers if and only if there is at most one peer |
| `MulticastAcks.RunKeeps` | server/multicast/multicast.go:104-309 | over any sends, acks, retries and removals, wrap-around included: pending frames were sent, only listed nodes are awaited, one at most per frame, ids stay distinct |
| `MulticastAcks.PendingOnlyShrinks` | server/multicast/multicast.go:177-208 | until the wrapped counter takes its number again, nobody is ever added to the pending set of a frame |
| `MulticastAcks.SettledOnlyByAckOrRemoval` | server/multicast/multicast.go:197-203 | until then a node stops being awaited only by its own ack of that frame or its removal, never by a retry worker |
| `MulticastAcks.RemovedNeverAwaited` | server/multicast/multicast.go:293-309 | after its removal a node is never awaited again, whatever happens, if and only if it was listed at most once |
| `MulticastAcks.StepAwaits` | server/multicast/multicast.go:177-208 | exactly when an ack is awaited after one step |
| `MulticastAcks.RetryForgets` | server/multicast/multicast.go:197-203 | a turn of a retry worker drops its frame from the table if and only if nobody is awaited for it, and no other frame |
| `MulticastFraming.RoundTrip` | server/multicast/multicast.go:394-486 | for every order in which the clock was written, decoding gives the message back if and only if all ids have 36 bytes, the clock has below 2^32 entries and the body is not empty |
| `MulticastFraming.DecodesUpTo24Nodes` | server/multicast/multicast.go:215-236 | a sent datagram can be decoded from the 1024-byte buffer if and only if the clock has at most 24 entries |
| `MulticastFraming.ReceivedUnchanged` | server/multicast/multicast.go:215-236 | it comes back unchanged if and only if, besides, the body bytes cut off are zero |
| `MulticastFraming.Encode` | server/multicast/multicast.go:394-434 | the bytes written, for the order that the map iteration took |
| `MulticastFraming.Decode` | server/multicast/multicast.go:436-486 | the reader loops compute the decoding function, errors included |
| `MulticastFraming.DecodeClock` | server/multicast/multicast.go:452-468 | so does the clock loop, which reads every id into one buffer |
| `MulticastFraming.DecodedSurvives` | server/multicast/multicast.go:436-486 | whatever bytes are decoded, the result has 36-byte ids and could be encoded again |
| `MulticastFraming.HeadLayout` | server/multicast/multicast.go:397-412 | frame in bytes 0-3, sender in 4-39, number of entries in 40-43, big-endian |
| `MulticastFraming.EntryLayout` | server/multicast/multicast.go:413-425 | the k-th entry takes 40 bytes from byte 44 + 40k on: the clock, then the id |
| `MulticastFraming.BodyLayout` | server/multicast/multicast.go:427-431 | length in 8 bytes behind the entries, then the body |
| `MulticastFraming.DecodedLayout` | server/multicast/multicast.go:436-486 | for any bytes from 44 on: exactly when decoding succeeds, and every field by its place, of two entries for one id the later, a body cut short filled with zeros |
| `MulticastFraming.DecodedShort` | server/multicast/multicast.go:436-455 | shorter datagrams do not decode |
| `CausalLimits.WireCarriesSends` | server/multicast/multicast.go:173-233 | any encoding of anything with a body that a node sends in a run decodes, behind the read buffer, to exactly the message that an arrival queues, up to 24 nodes, and not at all with more |
| `CausalLimits.ReactionToSend` | server/multicast/multicast.go:213-263 | for every send of a run, every encoding and every node: the sender itself skips the datagram, the others take in exactly that message or crash if its payload does not decode, and with more than 24 nodes everyone crashes |
| `CausalLimits.ArrivalIsReaction` | server/multicast/multicast.go:238-256 | up to 24 nodes a datagram is skipped if and only if the node sent it, taken in if and only if the cluster model lets it arrive there, and what is queued is the same |
| `CausalLimits.AckOfSend` | server/unicast.go:60-62 | whoever takes in a message answers to the address it came from and to its sender, and there that answer ends exactly the wait for this node and this frame |
| `MessageCodec.RoundTrip` | server/message/message.go:135-318 | for every type, decoding the encoding gives the fields the type carries if and only if: body not empty for Application, address not empty for DeadNode and NewNode, lists of one length, all lengths below 2^32 |
| `MessageCodec.MembersRoundTrip` | server/message/message.go:180-201 | member lists of any length come back entry by entry, whatever follows |
| `MessageCodec.Encode` | server/message/message.go:135-209 | the bytes written, for all types and for unknown ones |
| `MessageCodec.Decode` | server/message/message.go:211-318 | the decoding function, all error returns included |
| `MessageCodec.DecodeMembers` | server/message/message.go:280-311 | the loop that fills three slices by index computes the recursive decoding |
| `MessageCodec.KindLayout` | server/message/message.go:11-23 | the number of each type comes first; 5 goes on with a length and the text, 10 with the frame and the rest, 0 to 4 and unknown ones end there |
| `MessageCodec.SignalBytes` | server/message/message.go:38-85 | the five messages without content are the bytes 0 to 4 |
| `MessageCodec.NoticeLayout` | server/message/message.go:161-170 | 6 and 7 go on with the id, then the address, each behind its length |
| `MessageCodec.ListLayout` | server/message/message.go:180-204 | 8 and 9 go on with the number of members and end with the port |
| `MessageCodec.MemberLayout` | server/message/message.go:185-201 | where id, address and clock of the k-th member lie |
| `MessageCodec.DecodedLayout` | server/message/message.go:211-245 | for any bytes: when decoding succeeds and every field by its place, a text cut short filled with zeros |
| `MessageCodec.DecodedNotice` | server/message/message.go:247-266 | the same for the notices about nodes |
| `MessageCodec.ListIgnoresTail` | server/message/message.go:280-317 | bytes behind a list message are ignored |
| `UnicastFraming.RoundTrip` | server/unicast/unicast.go:330-449 | decoding gives the frame back if and only if both ids have 36 bytes and it is an ack or a data frame with a payload |
| `UnicastFraming.DecodeEncoded` | server/unicast/unicast.go:330-449 | with ids of any length they come back padded or cut to 36 bytes; an empty payload is an error |
| `UnicastFraming.ReceiveClipped` | server/unicast/unicast.go:133-151 | any data frame, however long, decodes from the 1024-byte buffer with the payload beyond 934 bytes zeroed |
| `UnicastFraming.PayloadIntact` | server/unicast/unicast.go:133-151 | a payload arrives unchanged if and only if its bytes from 934 on are zero |
| `UnicastFraming.TriesByte` | server/unicast/unicast.go:340-342 | the Tries field is byte 9 of the datagram and nothing else depends on it |
| `UnicastFraming.Encode` | server/unicast/unicast.go:330-382 | the bytes written; what lies where is in the two rows below |
| `UnicastFraming.HeaderLayout` | server/unicast/unicast.go:332-360 | response in byte 0, frame in 1-8, Tries in 9, sender in 10-45, addressee in 46-81 |
| `UnicastFraming.PayloadLayout` | server/unicast/unicast.go:362-379 | an ack ends there; a data frame goes on with 8 bytes of length and the payload |
| `UnicastFraming.Decode` | server/unicast/unicast.go:384-449 | the decoding function, with one buffer for both ids; what it reads where is in the two rows below |
| `UnicastFraming.DecodedLayout` | server/unicast/unicast.go:384-449 | for any bytes from 82 on: an ack, an error exactly if no payload byte follows, or a data frame with every field by its place and a payload cut short filled with zeros |
| `UnicastFraming.DecodedShort` | server/unicast/unicast.go:403-423 | of a shorter datagram only an ack with at least one byte of the second id decodes, its id filled up from the first |
| `Layering.LayeredRoundTrip` | server/unicast/unicast.go:330-449 | a message of any type inside a frame that fits the buffer passes both decoders unchanged if and only if its own encoding round-trips |
| `Layering.DatagramSize` | server/message/message.go:180-204 | a member list travels in 99 bytes plus 12 + id + address for each member |
| `Layering.FourteenMembersFit` | server/unicast/unicast.go:133 | all lists of n members with 36-byte ids and addresses up to 15 bytes fit the buffer if and only if n is at most 14 |
| `Layering.RosterArrives` | server/message/message.go:180-204 | such a list reaches the joining node unchanged |
| `Bytes.Reader.Read` | server/message/message.go:240-243 | at the end of the data an error even for length 0; a short read succeeds and leaves the tail of the buffer |
| `Bytes.FromBigEndianInverts` | server/message/message.go:146-148 | reading a big-endian field gives the number written, for any width it fits |
| `Bytes.BigEndianInverts` | server/message/message.go:146-148 | and writing the number read gives the same bytes |
| `Bytes.BigEndianDigit` | server/message/message.go:146-148 | the most significant byte comes first |
| `Bytes.Fix36Bytes` | server/unicast/unicast.go:344-351 | byte by byte, an id is cut at 36 bytes or followed by zeros |
| `Bytes.ClipIsPrefix` | server/unicast/unicast.go:133-151 | of a datagram the first 1024 bytes are seen |
| `FrameKeys.KeyInjective` | server/unicast/unicast.go:162 | for ids of one length, two keys agree if and only if id and frame do |
| `FrameKeys.PrefixIsOwner` | server/unicast/unicast.go:316-317 | a key starts with an id of that length if and only if it is that peer's |
| `FrameKeys.KeysCollide` | server/unicast/unicast.go:229 | two ids of different length that share a key |
| `ReliableUnicast.AckClearsOnlyItsFrame` | server/unicast/unicast.go:296-300 | an ack clears an entry if and only if peer and frame are its own |
| `ReliableUnicast.PurgeRemovesExactlyDead` | server/unicast/unicast.go:313-328 | giving up a peer removes an ack entry if and only if it is that peer's; other counters stay |
| `ReliableUnicast.PurgeRestarts` | server/unicast/unicast.go:315 | the next frame to a peer that was given up is number 1 |
| `ReliableUnicast.PurgeKeepsAcked` | server/unicast/unicast.go:316-325 | a buffered message is freed if and only if its peer is given up while its ack is outstanding |
| `ReliableUnicast.AckComesBack` | server/unicast/unicast.go:164-178 | the ack of a data frame goes to the address it came from, with its Tries, and at the sender it clears the entry of that very frame |
| `ReliableUnicast.AttemptsEnd` | server/unicast/unicast.go:246-274 | at most 21 datagrams; acked at the first check that finds the entry gone; given up after a failed write or the 21st unanswered try; panic if and only if the payload is empty and the first try is unanswered |
| `ReliableUnicast.RetryLoop` | server/unicast/unicast.go:246-274 | the n-th datagram is the first with Tries n, despite decoding and encoding again in between; outcome and count as above |
| `ReliableUnicast.ReliableSender.Send` | server/unicast/unicast.go:220-275 | a whole send: number, wire with Tries 0, 1, ... in byte 9, outcome, and the purge if the peer is given up |
| `ReliableUnicast.EmptyPanics` | server/unicast/unicast.go:260-263 | decoding the own datagram fails if and only if the payload is empty |
| `ReliableUnicast.ReliableListener.OnDatagram` | server/unicast/unicast.go:151-178 | frames for others are ignored, acks are passed on, data frames are acked before they are looked at |
| `ReliableUnicast.ReliableListener.OnFrame` | server/unicast/unicast.go:180-213 | frame counters, buffer and what is handed up; the drain loop ends and finds at most a buffered copy of the frame just handed up |
| `ReliableUnicast.ReliableSender.Register` | server/unicast/unicast.go:221-245 | next frame number with wrap-around, entry awaited, datagram encoded |
| `ReliableUnicast.ReliableSender.OnAck` | server/unicast/unicast.go:296-300 | only the named entry goes |
| `ReliableUnicast.ReliableSender.HandleDeadNode` | server/unicast/unicast.go:313-328 | counter, entries and buffered messages with that prefix go, in whatever order the map is visited |
| `UnicastListener.AcceptKeepsBuffer` | server/unicast/unicast.go:186-213 | every buffered frame stays under its own key and ahead of its peer's counter if and only if the counter has room or the frame is 0 |
| `UnicastListener.AcceptEffect` | server/unicast/unicast.go:186-213 | one arrival moves exactly the counter of its sender, exactly if it is the next frame |
| `UnicastListener.HandedExactly` | server/unicast/unicast.go:180-213 | for any arrivals from any peers: the frames handed up from a peer, one by one, are 1 to its counter, a frame twice if and only if a copy of it came before 1, 2, ... up to its predecessor had arrived in order |
| `UnicastListener.HandedMessages` | server/unicast/unicast.go:180-213 | the whole output over all peers, message by message, from the arrivals alone: each frame in its turn, behind it the last of the copies that came before |
| `UnicastListener.WaitingCopyIsLast` | server/unicast/unicast.go:186-192 | what waits in the buffer for a frame is the copy that came last |
| `UnicastListener.LatestCopyHandedUp` | server/unicast/unicast.go:186-212 | arrivals 2, 2', 1, 2'' are handed up as 1, 2'', 2' |
| `UnicastListener.OldNumbersSilent` | server/unicast/unicast.go:194-198 | nothing that still arrives under a number the counter has passed is handed up |
| `UnicastListener.HandedOnceIff` | server/unicast/unicast.go:201-212 | every frame is handed up exactly once if and only if none of those handed up ever came early |
| `UnicastListener.SecondCopyHandedUp` | server/unicast/unicast.go:201-212 | arrivals 2, 1, 2 are handed up as 1, 2, 2 |
| `UnicastListener.HandedInOrder` | server/unicast/unicast.go:180-213 | with immediate repeats collapsed they are exactly 1 to the counter, and the buffer stays in order |
| `UnicastListener.HandedArrived` | server/unicast/unicast.go:180-213 | what is handed up or buffered did arrive |
| `UnicastListener.HandedUpExactly` | server/unicast/unicast.go:186-212 | frames 1 to k are handed up if and only if 1, 2, ..., k arrived in this order, with anything in between |
| `UnicastListener.SwappedPairStalls` | server/unicast/unicast.go:201-212 | two frames that arrive swapped: the second stays in the buffer |
| `UnicastSystem.RunInv` | server/unicast/unicast.go:131-328 | in every run of any hosts: what is on the network, received, awaited and counted agrees with the payloads sent |
| `UnicastSystem.ReceiveKeeps` | server/unicast/unicast.go:131-215 | a reception of any datagram ever sent keeps that |
| `UnicastSystem.SendKeeps` | server/unicast/unicast.go:220-245 | so does a send |
| `UnicastSystem.PurgeKeeps` | server/unicast/unicast.go:313-328 | so does giving up a peer |
| `UnicastSystem.EndToEnd` | server/unicast/unicast.go:180-244 | over any loss, repetition and reordering, without a purge of the pair: handed-up frames are 1 to the counter, no more than were sent, a frame twice exactly if a copy of it came early, each with the payload sent under its number |
| `UnicastSystem.CopiesExactly` | server/unicast/unicast.go:180-213 | in every run, purge or not, the handed-up frames are decided by the order of reception in this way |
| `UnicastSystem.OutputOfRun` | server/unicast/unicast.go:180-213 | in every run the messages a host handed up are those, computed from what it received |
| `UnicastSystem.OnceExactly` | server/unicast/unicast.go:180-213 | a run hands every frame up exactly once if and only if none of them came early |
| `UnicastSystem.HandedPayload` | server/unicast/unicast.go:133-213 | the payload handed up is the one sent if and only if the bytes beyond the read buffer are zero |
| `UnicastSystem.AckMeansReceived` | server/unicast/unicast.go:164-178 | a cleared ack entry without a purge: the addressee's listener took in that very frame with that payload |
| `UnicastSystem.ProgressExactly` | server/unicast/unicast.go:180-213 | in every run, how far a host got with a peer is decided by the order in which frames were received |
| `UnicastSystem.NumberOfSend` | server/unicast/unicast.go:221-227 | in every run, the number of the next send from a to b is one more than the sends from a to b since a last gave b up |
| `UnicastSystem.PassedNumbersAreLost` | server/unicast/unicast.go:194-198 | however a run goes on, purges included, b hands up nothing more from a under a number its counter has passed |
| `UnicastSystem.KeepsEverything` | server/unicast/unicast.go:231-239 | unless it gave b up, a still buffers everything it ever sent to b, acked or not, as first sent |
| `UnicastDrainVariant.VariantExactlyOnce` | server/unicast/unicast.go:201-212 | VARIANT with an advancing drain, not the code: the frames handed up are exactly 1 to the counter, each once |
| `UnicastDrainVariant.VariantHandsUpWhatArrived` | server/unicast/unicast.go:201-212 | VARIANT: frames 1 to k are handed up if and only if all of them arrived, in any order |
| `StateMachine.Machine.ChangeTo` | server/state_machine.go:82-89 | a change happens if and only if the table has it; refused ones leave the state alone |
| `StateMachine.EnteredFrom` | server/state_machine.go:48-77 | the table read the other way: from which states each state can be entered |
| `StateMachine.ReachesEverything` | server/state_machine.go:48-77 | requests lead from every state to every other except back to START |
| `StateMachine.FollowerLeadsByElection` | server/state_machine.go:66-77 | a follower comes to lead only through ELECTION and BECOME_LEADER |
| `StateMachine.OnBroadcast` | server/state_listener.go:126-132 | a leader asks for INIT exactly on a greater id |
| `StateMachine.OnVictory` | server/state_listener.go:142-144 | an election victory reported to a leader changes nothing |
| `StateMachine.LessTotal` | server/state_listener.go:127 | of two different ids exactly one is less than the other |
| `StateMachine.LessIsLexicographic` | server/state_listener.go:127 | a is less than b if and only if they agree up to some place where a ends and b does not, or where a has the smaller byte |
| `LeaderRuns.LeaderYieldsOnlyToGreater` | server/state_listener.go:126-132 | after any run, the steps that take a leader out of LEADER are exactly the broadcasts of greater ids it hears; they lead to INIT, and that id has led |
| `LeaderRuns.GreatestStillLeads` | server/state_machine.go:62-64 | the greatest id that ever led is still in LEADER |
| `LeaderRuns.SomeoneLeads` | server/state_machine.go:62-88 | once some node has led there is a leader at every later time |
| `LeaderRuns.RunInv` | server/state_machine.go:48-77 | in every run broadcasts come from leaders, and a former leader gave way to a greater one |

## Left out

- Sockets, ports, logging, channel capacities and goroutine scheduling: the network is a set from which anything may be taken at any time, and what happens under one lock is one step.
- All clocks and timeouts: heartbeats, follower timer, waiting for broadcasts. No result rests on time.
- Who wins an election: the waits in the election are one nanosecond, so the code does not establish that the highest id wins.
- Crashes of nodes and restarts within a run.
- Runs in which a node joins a running multicast session: nothing sends the notice that triggers `AddNewNode`, so only the step itself is modelled. Nor are messages carried over between sessions.
- Runs with more than 24 nodes in which a multicast datagram arrives: it crashes the receiver, as `ReliableMulticast.ReliableMulticast.OnDatagram` and `MulticastFraming.DecodesUpTo24Nodes` say together; the cluster model has no crashes.
- The sender's own decoding of its datagram, done for the log: it crashes the sender of a payload that does not decode.
- Receiving runs while its acks are sent: an ack is put on the network, and an ack received is processed, in the step of the reception.
- ReliableUnicast.ReliableSender.Send: other operations of the same sender may come between its locked parts in the original; here only the ack that makes its entry go does.
- ReliableUnicast.RetryLoop: whether a write succeeds and whether the ack entry is gone at a check come from outside, as functions of the try; what makes an entry go is in `UnicastSystem.AckMeansReceived`.
- UnicastSystem.EndToEnd: the payloads of a pair of which the sender once gave up the receiver are not related to the log, because the purge restarts the sender's frame numbers while the receiver keeps its counter (`UnicastSystem.NumberOfSend`, `UnicastSystem.PassedNumbersAreLost`); below 2^64 - 1 sends in all, so that no frame number wraps.
- UnicastListener.HandedInOrder: for frame numbers up to 2^64 - 2; at the largest number the counter wraps, which `UnicastListener.AcceptKeepsBuffer` states exactly.
- MulticastAcks.PendingOnlyShrinks: only until the wrapped counter takes a frame number again; what that send then does to the set is in `MulticastAcks.StepAwaits`.
- The number of datagrams of a multicast retry worker (20): only its turns under the lock are modelled.
- ReliableMulticast.ReliableMulticast.SendMessage: the own entry is required to be in the clock; without it the original exits, and no code removes it.
- ReliableMulticast.FillPeers: the own id is required to be among the peers, and so for the constructor; without it the original indexes past the end of the node list.
- LeaderRuns.LeaderYieldsOnlyToGreater: requests for INIT come only from start-up, the join of a node that is not yet a follower, and the leader's listener, as in server/server.go:172-213 and server/state_listener.go:131, and no other request is made while a node joins. The actions that run after a change, and agreement between the machine's state and `Server.state`, are not part of this model.
- The terminal client, the client server, start and stop of the broadcaster, IP helpers, the choice of a port, `main.go` and the mock router.
