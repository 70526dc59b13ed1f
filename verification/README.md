# Verification of the UDT transport and the RapidXML parser

A Dafny 4.11 model of the hard parts of two libraries that the repository bundles, with proofs.
`dafny verify dfyconfig.toml` checks all of it.

**The transport** (`external/udt4/src`) carries a byte stream over packets that may be lost, doubled and
reordered. `Protocol` states its two endpoints as step functions over unbounded sequence numbers, with a
network that may deliver any message at any time or never; `ProtocolProofs` proves what every run keeps,
above all that the bytes read are a prefix of the bytes written; `Progress` proves when a run can be continued
until all of them are read, whatever was lost; `FlowControl` says which packets the windows let out find room at
the receiver. The imperative side is modelled as it is written: the loss lists threaded through circular
arrays (`SndLossList`, `RcvLossList`), the block ring of the sender (`SndBuffer`), the unit array of the receiver
(`RcvBuffer`), and the endpoints over 31-bit wire numbers (`UdtSender`, `UdtReceiver`). Each method of an endpoint
is proved to do to its fields, lists and buffers what the step function does to the unbounded view, so the theorems
about runs are about them.
`SeqNo` holds the wire arithmetic and says exactly when it agrees with the unbounded numbers, `LossNodes`
the reasoning about linked nodes in slots, `NakCodec` the loss report code.

Message mode is in `Messages` and the second half of `RcvBuffer`; `Datagram` follows messages through whole
runs, from the sendmsg call to the readMsg that returns its data, and shows that nothing of a call is let go
before that. `RcvQueue` puts the receive buffers of all sockets at a multiplexer over their common pool. Around
the protocol: that pool of packet units (`UnitQueue`), the record of sent ACKs (`AckWindow`), the sender schedule
(`SndHeap`), the receiver's timer list (`RcvTimerList`), the socket registry (`Registry`) and streaming MD5
(`Md5`). `Basics` has what several parts share.

**The parser** (`external/rapidxml`): `XmlParser` is the grammar that `parse_full` accepts, `XmlInPlace` the
parser as it works, inside a buffer that it overwrites, `XmlText` the expansion of character references in
place, `XmlTree` and `XmlPrinter` the printer without indentation, `XmlLayout` documents as they may be written,
with white space, quotes, references and ignored constructs. `XmlRoundTrip` proves that every such document reads
as its tree and that parsing inverts printing, `XmlWritten` that nothing else is accepted, `XmlUnmatched` that
unmatched tags are rejected, and `XmlReferences` what references stand for. `MemoryPool` is the allocator.

## How to read it

Sequence numbers are unbounded integers; `W(n)` is the number on the wire. Methods that take a wire number
have a ghost parameter with the number that is meant. `Near(a, b)` says that two numbers are closer than
the comparison threshold of 2^30 - 1; it stands wherever the code compares two of them.

## Where the code does less than it seems to

- Removing a wrapped range from the receiver's loss list spares 0x7FFFFFFF (`RemoveRange`).
- The initial flow window lets one packet more out than an empty receive buffer takes, and an advertised
  window below 2 is raised to 2; there are runs in which such packets are refused (`InitialWindowOverruns`,
  `RaisedWindowOverruns`). `NewPacketFits` is the exact condition, and windows that were not raised meet it
  (`ExactWindowMeetsIt`).
- An interior removal from the sender schedule keeps the heap order only under a condition (`Remove`,
  `OrderCanBreak`).
- A message larger than the receive buffer is said to be returned in part; the reading loop then does not
  run once, so no bytes are returned although a message is reported to be there (`ReadMsg`, `GetRcvMsgNum`).
- The search for a free unit never tests the last unit of a block (`GetNextAvailUnit`, `LastUnitIsMissed`).
- The buffer counts as empty when nothing is acknowledged and no packet lies behind the acknowledged
  position, so a single packet exactly there is not found (`ReadMsg`).
- Dropping a message compares the number with the whole message word, so that first, last and ordered packets
  are spared, and leaves the furthest packet out (`DropMsg`, `DropSparesMarked`). A request before any packet
  was buffered never ends (`DropLoopEnds`).
- The terminator behind the target of a processing instruction replaces the first character of the value
  when no white space stands between them (`PiValueKept`).
- A decimal character reference accepts the letters a to f as digits (`ReadNumber`), and the number wraps at
  2^64, so that larger ones may be taken for code points (`NumberExpands`).
- A receiver that is the comparison threshold or more ahead of the last ACK that was acknowledged cannot compare
  its numbers any more; if what is in flight is lost then, the rest is never read (`ProgressExact`).
- A new connection gets the first multiplexer at its listener's port, which may be another one than the
  listener's, of the other IP version or at another address (`NewConnection`, `WrongMultiplexer`).

## Model

| member | source | states |
|---|---|---|
| `ProtocolProofs.StreamDelivery` | external/udt4/src/core.cpp:2124-2324 | in every state of every run (losses, duplicates, reordering, timeouts, an ACK between the two halves of packData) the bytes read are a prefix of the bytes written |
| `Progress.ProgressExact` | external/udt4/src/core.cpp:1595-2487 | in every state of every run, with everything in flight lost: some continuation without writing reads all that was written exactly if all of it is acknowledged or the receiver is less than the comparison threshold ahead of the last ACK that was acknowledged |
| `Progress.Progress` | external/udt4/src/core.cpp:1595-2487 | every run whose receiver can compare its numbers extends, without writing, to a run in which all that was written is read |
| `Progress.AckNumberExact` | external/udt4/src/core.cpp:1605-1610 | the ACK number is the first number that was not received |
| `ProtocolProofs.AckKeepsSender` | external/udt4/src/core.cpp:1852-1907 | what an ACK does: each acknowledged position grows to it, the loss list keeps what is not before it, and window and its mark change only for an ACK that is not old |
| `ProtocolProofs.DataEffect` | external/udt4/src/core.cpp:2285-2323 | which numbers are missing after a packet was taken |
| `ProtocolProofs.GapReported` | external/udt4/src/core.cpp:2298-2312 | the immediate report covers exactly the numbers between the largest received so far and the new one |
| `ProtocolProofs.NextInv` | external/udt4/src/core.cpp:1595-2324 | every step of sender, receiver and network keeps the joint invariant, however the application reads: sender alignment, receiver partition, window edges, buffered packets are the sender's blocks, and what each message in flight may say |
| `ProtocolProofs.NextStreamed` | external/udt4/src/core.cpp:1595-2324 | every step keeps the account of the bytes: those read and those still to be read are those of the acknowledged packets |
| `ProtocolProofs.RunInv` | external/udt4/src/core.cpp:1595-2324 | the joint invariant holds in every state of every run |
| `ProtocolProofs.NeverBroken` | external/udt4/src/core.cpp:1852-1859 | between honest endpoints no ACK and no loss report ever breaks the connection |
| `ProtocolProofs.ReceiverPartition` | external/udt4/src/core.cpp:2285-2321 | every number from the last ACK to the largest received one is in exactly one of receive buffer and loss list; every slot up to the last ACK is filled |
| `ProtocolProofs.AckNumberSound` | external/udt4/src/core.cpp:1605-1613 | the number an ACK carries is not before the last one, and everything before it has been received |
| `ProtocolProofs.AcknowledgedIsReceived` | external/udt4/src/core.cpp:1871-1891 | whatever the sender was told is acknowledged, the receiver has, with the bytes of that block |
| `ProtocolProofs.RetransmissionsAgree` | external/udt4/src/core.cpp:2136-2184 | all packets ever sent with one number carry the same payload, also when an ACK came in before the lock |
| `FlowControl.AdvertisedWindowFits` | external/udt4/src/core.cpp:1668-1671 | all packets that the window of an ACK lets out find room exactly when the window was not raised to the minimum of 2 |
| `FlowControl.InitialWindowFits` | external/udt4/src/core.cpp:557 | of the packets that the initial window lets out exactly the last one finds no room in an empty buffer |
| `FlowControl.AckGrantsRoom` | external/udt4/src/core.cpp:1660-1671 | in every run: the window of an ACK that is sent covers only packets that find room exactly when it was not raised |
| `FlowControl.NewPacketFits` | external/udt4/src/core.cpp:2171-2184 | in every run: one condition at the time a new packet is sent decides whether it finds room in every later state in which it is not before the last ACK |
| `FlowControl.ExactWindowMeetsIt` | external/udt4/src/core.cpp:2176-2177 | in every run: a packet sent under a window from an ACK that was not raised meets that condition, windows of exactly 2 included |
| `FlowControl.GrantedPacketFits` | external/udt4/src/core.cpp:2285-2293 | in every run: such a packet finds room wherever it arrives at or after the last ACK, and is accepted exactly when it is not there yet |
| `FlowControl.InitialWindowOverruns` | external/udt4/src/core.cpp:557 | a run for every buffer size in which a packet sent under the initial window is refused for lack of room |
| `FlowControl.RaisedWindowOverruns` | external/udt4/src/core.cpp:1669-1671 | a run for every buffer size in which a packet sent under a raised window is refused for lack of room |
| `FlowControl.LiteAckKeepsEdge` | external/udt4/src/core.cpp:1824-1831 | a lite ACK that is not old moves the last ACK and leaves last ACK plus window unchanged; an old one changes nothing |
| `ProtocolProofs.NakEffect` | external/udt4/src/core.cpp:1977-2042 | a loss report adds exactly the reported numbers that are not before the last ACK |
| `ProtocolProofs.NakEndToEnd` | external/udt4/src/core.cpp:1977-2042 | the sender's loss set after a report made from the receiver's loss set: the old set and the reported numbers not before the last ACK; the connection stays up |
| `ProtocolProofs.ChunksKeepData` | external/udt4/src/buffer.cpp:120-164 | cutting a user buffer into packets loses nothing |
| `ProtocolProofs.CallsAreAllowed` | external/udt4/src/core.cpp:1819-1975 | in every run the methods of the two endpoint classes are called as their contracts ask |
| `ProtocolProofs.StaleLooksFresh` | external/udt4/src/common.h:222-237 | two numbers 2^31 apart are the same on the wire, so staleness has to be bounded |
| `SeqNo.SeqCmpExact` | external/udt4/src/common.h:222-223 | the comparison has the sign of the true distance exactly when the distance is below the threshold |
| `SeqNo.SeqOffExact` | external/udt4/src/common.h:228-237 | the offset is the true distance exactly when the distance is below the threshold |
| `SeqNo.LengthOfInterval` | external/udt4/src/common.h:225-226 | the length of a wrapped interval is the number of its elements |
| `SeqNo.IncSeqIsNext` | external/udt4/src/common.h:239-240 | increment is the successor modulo 2^31 |
| `SeqNo.DecSeqIsPrevious` | external/udt4/src/common.h:242-243 | decrement is the predecessor modulo 2^31 |
| `SeqNo.WireExact` | external/udt4/src/common.h:239-243 | numbers on the wire are those modulo 2^31 |
| `SeqNo.NearArithmetic` | external/udt4/src/common.h:222-237 | comparison and offset of two near numbers are those of the unbounded numbers |
| `SndLossList.CSndLossList.Insert` | external/udt4/src/list.cpp:85-255 | the list becomes the union with the interval, and the result is the number of new elements |
| `SndLossList.CSndLossList.Remove` | external/udt4/src/list.cpp:257-367 | exactly the numbers after the given one stay |
| `SndLossList.CSndLossList.GetLostSeq` | external/udt4/src/list.cpp:376-418 | takes off and returns the least number, or -1 from an empty list |
| `SndLossList.CSndLossList.GetLossLength` | external/udt4/src/list.cpp:369-374 | the length on record is the cardinality of the set |
| `SndLossList.CSndLossList.Coalesce` | external/udt4/src/list.cpp:218-252 | merging overlapped nodes changes neither the set nor the length, and leaves the nodes apart |
| `SndLossList.CSndLossList.FindPrior` | external/udt4/src/list.cpp:153-161 | the search finds the last node not after the number, starting from the last inserted position when that is usable |
| `LossNodes.LinksInverse` | external/udt4/src/list.cpp:456-636 | next and prior links of a list are inverse to each other |
| `LossNodes.SlotOffset` | external/udt4/src/list.cpp:108-109 | the slot computed from the offset to a node is the slot of the number |
| `LossNodes.RangeExact` | external/udt4/src/list.cpp:85-255 | the numbers of an interval and those of a list of nodes |
| `RcvLossList.CRcvLossList.Insert` | external/udt4/src/list.cpp:456-504 | appending an interval behind all others gives the union |
| `RcvLossList.CRcvLossList.Remove` | external/udt4/src/list.cpp:506-636 | exactly the number is removed, and the result tells whether it was there: head shift, tail trim and split of an interval |
| `RcvLossList.CRcvLossList.RemoveRange` | external/udt4/src/list.cpp:638-654 | which numbers of a range are removed: all of them, but a wrapped range spares 0x7FFFFFFF |
| `RcvLossList.CRcvLossList.Find` | external/udt4/src/list.cpp:656-674 | true exactly when some missing number lies in the interval |
| `RcvLossList.CRcvLossList.GetFirstLostSeq` | external/udt4/src/list.cpp:681-687 | the least missing number, or -1 |
| `RcvLossList.CRcvLossList.GetLossLength` | external/udt4/src/list.cpp:676-679 | the length on record is the cardinality of the set |
| `RcvLossList.CRcvLossList.GetLossArray` | external/udt4/src/list.cpp:689-716 | the array is the code of an ascending prefix of the set, the whole set unless the limit is reached |
| `NakCodec.EncodeAppend` | external/udt4/src/list.cpp:689-716 | the code of a report is built entry by entry |
| `NakCodec.ReportedAppend` | external/udt4/src/list.cpp:689-716 | an entry adds exactly the numbers it covers |
| `NakCodec.EncodeExact` | external/udt4/src/list.cpp:699-711 | the words of one entry: a number below 2^31, or two of which the first has the top bit set |
| `NakCodec.CoversExact` | external/udt4/src/core.cpp:1984-2030 | the numbers that an entry stands for |
| `SndBuffer.CSndBuffer.AddBuffer` | external/udt4/src/buffer.cpp:120-164 | the pending blocks grow by the chunks of the data, whatever increases the ring needs, and carry the message words of one message |
| `SndBuffer.CSndBuffer.Increase` | external/udt4/src/buffer.cpp:274-331 | new blocks are spliced into the ring behind the last block; pending blocks and cursor stay |
| `SndBuffer.CSndBuffer.Fill` | external/udt4/src/buffer.cpp:134-155 | the filled blocks carry the chunks of the data and the message words, in order |
| `SndBuffer.ChunkAt` | external/udt4/src/buffer.cpp:137-141 | where in the data each packet stands |
| `SndBuffer.CSndBuffer.ReadData` | external/udt4/src/buffer.cpp:206-219 | hands out the block under the cursor and steps on, or nothing at the end |
| `SndBuffer.CSndBuffer.ReadAt` | external/udt4/src/buffer.cpp:221-255 | the block at an offset from the first one |
| `SndBuffer.CSndBuffer.AckData` | external/udt4/src/buffer.cpp:257-267 | drops exactly the first blocks |
| `RcvBuffer.CRcvBuffer.AddData` | external/udt4/src/buffer.cpp:375-390 | stores the unit at its number unless one is there |
| `RcvBuffer.CRcvBuffer.AckData` | external/udt4/src/buffer.cpp:468-476 | moves the acknowledged position |
| `RcvBuffer.CRcvBuffer.ReadBuffer` | external/udt4/src/buffer.cpp:392-427 | hands out the oldest acknowledged bytes and keeps the rest, with the notch inside the first packet |
| `RcvBuffer.CRcvBuffer.GetAvailBufSize` | external/udt4/src/buffer.cpp:478-482 | the room left, from the positions in the ring |
| `RcvBuffer.CRcvBuffer.GetRcvDataSize` | external/udt4/src/buffer.cpp:484-490 | the number of acknowledged packets, from the positions in the ring |
| `RcvBuffer.JoinedFromFront` | external/udt4/src/buffer.cpp:392-427 | the stream read packet by packet is the stream acknowledged packet by packet |
| `UnitQueue.CUnitQueue.Recount` | external/udt4/src/queue.cpp:129-144 | counting the used units block by block gives the count on record; a unit is used exactly while one buffer holds it |
| `UnitQueue.CUnitQueue.Increase` | external/udt4/src/queue.cpp:127-186 | the recount changes nothing, and a block of free units is added exactly when nine tenths are in use |
| `UnitQueue.CUnitQueue.GetNextAvailUnit` | external/udt4/src/queue.cpp:194-223 | a unit that is returned is free; null is returned exactly when no more than nine tenths are in use and all units that the search tests are; units that are added are new, free and nobody's |
| `UnitQueue.CUnitQueue.TestedExact` | external/udt4/src/queue.cpp:204-219 | which units the search misses |
| `RcvQueue.LastUnitIsMissed` | external/udt4/src/queue.cpp:206 | a pool that the operations lead to, with a free unit, in which the search returns none: the last unit of a block is not tested |
| `RcvQueue.CRcvQueue.UsedExactlyOnce` | external/udt4/src/buffer.cpp:375-427 | over all receive buffers of a multiplexer: a unit is in use exactly if a place of some buffer refers to it, and then no other place does |
| `RcvQueue.CRcvQueue.Attach` | external/udt4/src/core.cpp:705 | a buffer joins the pool of its multiplexer; all buffers stay in order |
| `RcvQueue.CRcvQueue.Receive` | external/udt4/src/queue.cpp:945-981 | a packet for one socket is stored, or skipped when no unit is found or it is there already; units keep belonging to one buffer each |
| `RcvQueue.CRcvQueue.Read` | external/udt4/src/buffer.cpp:392-427 | reading from one buffer leaves all others in order |
| `RcvQueue.CRcvQueue.ReadMessage` | external/udt4/src/buffer.cpp:499-538 | the same for reading a message |
| `RcvQueue.CRcvQueue.Drop` | external/udt4/src/buffer.cpp:492-497 | the same for dropping one |
| `RcvQueue.CRcvQueue.Detach` | external/udt4/src/buffer.cpp:361-373 | a socket ends: its units are free, those of the others are as they were |
| `AckWindow.CACKWindow.Store` | external/udt4/src/window.cpp:83-94 | the record grows by the ACK, and loses the oldest when it is full |
| `AckWindow.CACKWindow.Acknowledge` | external/udt4/src/window.cpp:96-150 | an ACK on record is found with its data number and time; it and all older ones go |
| `AckWindow.AfterFirst` | external/udt4/src/window.cpp:104-124 | what is left behind the first entry with a number |
| `RcvBuffer.CRcvBuffer.Destroy` | external/udt4/src/buffer.cpp:361-373 | every unit of the buffer goes back to the pool, no other is touched |
| `RcvBuffer.CRcvBuffer.Occupy` | external/udt4/src/buffer.cpp:384-387 | marking a unit keeps count and owner in step |
| `RcvBuffer.CRcvBuffer.Release` | external/udt4/src/buffer.cpp:409-412 | freeing a unit keeps count and owner in step |
| `RcvBuffer.CRcvBuffer.ReadMsg` | external/udt4/src/buffer.cpp:499-538 | hands out exactly the first whole message that is acknowledged or may be read out of order, cut off at the user's length; none of its packets was handed out before; nothing is handed out exactly when there is no such message or the buffer counts as empty, and a message that fills the whole buffer gives no bytes; of the other messages none that may still be completed is let go |
| `RcvBuffer.CRcvBuffer.ScanMsg` | external/udt4/src/buffer.cpp:547-653 | the ring search finds what the search by numbers finds |
| `RcvBuffer.CRcvBuffer.FindMessage` | external/udt4/src/buffer.cpp:499-510 | which message readMsg is to hand out and where it stands in the ring, or that there is none |
| `RcvBuffer.CRcvBuffer.SkipBad` | external/udt4/src/buffer.cpp:553-594 | frees the packets at the start that begin no good message, and only those; units of other buffers stay as they were |
| `RcvBuffer.CRcvBuffer.StopsHere` | external/udt4/src/buffer.cpp:559-581 | whether a good message begins at the start |
| `RcvBuffer.CRcvBuffer.LookAhead` | external/udt4/src/buffer.cpp:565-581 | whether the message at the start has no hole as far as it is acknowledged |
| `RcvBuffer.CRcvBuffer.GetRcvMsgNum` | external/udt4/src/buffer.cpp:540-545 | 1 exactly if the buffer does not count as empty and a message can be handed out or the part of one message fills the buffer |
| `Messages.ScanFinds` | external/udt4/src/buffer.cpp:596-653 | for packets formed by addBuffer: a message is found exactly when one can be handed out, it is the first, whole, and the one at the start if it is acknowledged |
| `Messages.SearchFinds` | external/udt4/src/buffer.cpp:596-642 | the search loop passes no message that can be handed out |
| `Messages.DeliverableExact` | external/udt4/src/buffer.cpp:596-642 | a message may be handed out exactly if all its packets are there and not marked, and it is acknowledged or may be read out of order |
| `Messages.SearchEnds` | external/udt4/src/buffer.cpp:644-650 | how a search without a find ends: inside the message it began with exactly if that fills the range |
| `Messages.SkipStops` | external/udt4/src/buffer.cpp:553-594 | skipping bad packets stops no later than the first whole message |
| `Messages.SkipExact` | external/udt4/src/buffer.cpp:553-594 | skipping stops at the first number where a message begins of which nothing acknowledged is missing, and at the acknowledged position if there is none |
| `Messages.SkipKeeps` | external/udt4/src/buffer.cpp:565-581 | skipping passes no message that may still be completed, such as one whose end is on its way |
| `Messages.GoodExact` | external/udt4/src/buffer.cpp:565-581 | the look-ahead finds no hole exactly if the rest of the message has none among the acknowledged packets |
| `Messages.ReadKeeps` | external/udt4/src/buffer.cpp:499-538 | however readMsg ends, only the message it returns is let go among those that may still be completed |
| `Messages.SentIsFormed` | external/udt4/src/buffer.cpp:145-149 | packets cut by addBuffer carry the bits of a division into messages, whichever of them have arrived |
| `Messages.WordsByNumber` | external/udt4/src/buffer.cpp:145-149 | the words of blocks written call by call are those of their sequence numbers |
| `Datagram.MessageDelivery` | external/udt4/src/core.cpp:1105-1285 | in every state of every run in message mode (losses, duplicates, reordering, timeouts): each message that readMsg returned is the data of one sendmsg call, cut off at the length asked for; no call is returned twice; after a message with the order flag only later calls are returned |
| `Datagram.NothingLost` | external/udt4/src/buffer.cpp:499-594 | in every state of every run in message mode: of a call that was not handed out, exactly the packets that have arrived are in the buffer, ready to be handed out |
| `Datagram.DatagramNextInv` | external/udt4/src/core.cpp:1105-2324 | every step keeps the joint invariant: blocks and words are those of the calls on both sides and in the network, what was handed out cannot be handed out again, and what was not handed out is untouched |
| `Datagram.DatagramRunInv` | external/udt4/src/core.cpp:1105-2324 | the invariant holds in every state of every run in message mode |
| `Datagram.ReadMsgIsAllowed` | external/udt4/src/buffer.cpp:499-538 | in every run the buffered words form messages, as the contract of readMsg asks |
| `Datagram.DeliveryComes` | external/udt4/src/buffer.cpp:499-538 | what readMsg returns is the data of one call, up to the length asked for |
| `Messages.DropSparesMarked` | external/udt4/src/buffer.cpp:492-497 | a message number equals the word of a packet only in the middle of a message that may be read out of order |
| `Messages.DroppedExact` | external/udt4/src/buffer.cpp:492-497 | which packets a drop request marks, and that it changes nothing else |
| `RcvBuffer.CRcvBuffer.DropLoopEnds` | external/udt4/src/buffer.cpp:494 | the loop of a drop request meets its bound exactly if the buffer has held a packet; in a new buffer it never ends |
| `RcvBuffer.CRcvBuffer.DropMsg` | external/udt4/src/buffer.cpp:492-497 | marks exactly the packets before the furthest one whose whole word is the number |
| `Messages.WordBack` | external/udt4/src/packet.cpp:326-342 | the header word bit by bit, and that boundary, order flag and message number are read back from it |
| `UdtSender.CUDTSender.ProcessLiteAck` | external/udt4/src/core.cpp:1823-1834 | the wire fields do what the unbounded step does |
| `UdtSender.CUDTSender.ProcessAck` | external/udt4/src/core.cpp:1852-1907 | the same for a full ACK: window, last ACK, buffer release and loss list |
| `UdtSender.CUDTSender.ProcessNak` | external/udt4/src/core.cpp:1977-2042 | the same for a loss report, entry by entry, and which entry breaks the connection |
| `UdtSender.CUDTSender.PickLost` | external/udt4/src/core.cpp:2136-2137 | takes the least lost number before the ACK lock |
| `UdtSender.CUDTSender.PackLost` | external/udt4/src/core.cpp:2138-2170 | sends the block of the picked number, or nothing if it was acknowledged meanwhile |
| `UdtSender.CUDTSender.PackNew` | external/udt4/src/core.cpp:2171-2205 | sends the next block exactly when window and data allow it |
| `UdtSender.CUDTSender.OnExpiration` | external/udt4/src/core.cpp:2477-2487 | with data pending, every number from the last ACK to the largest one sent joins the loss list, the old ones stay, and nothing else is added |
| `UdtSender.CUDTSender.Send` | external/udt4/src/core.cpp:1007 | writing appends the chunks of the data |
| `UdtReceiver.CUDTReceiver.ProcessData` | external/udt4/src/core.cpp:2285-2323 | accepts, buffers and accounts for a packet as the unbounded step does, and reports a gap at once |
| `UdtReceiver.CUDTReceiver.AckNumber` | external/udt4/src/core.cpp:1605-1610 | the ACK number: the least missing number, or the one behind the largest received |
| `UdtReceiver.CUDTReceiver.SendLiteAck` | external/udt4/src/core.cpp:1612-1624 | what a lite ACK carries |
| `UdtReceiver.CUDTReceiver.SendAck` | external/udt4/src/core.cpp:1626-1697 | what a full ACK does and carries |
| `UdtReceiver.CUDTReceiver.ProcessAck2` | external/udt4/src/core.cpp:1970-1972 | the acknowledged acknowledgement only grows |
| `UdtReceiver.CUDTReceiver.SendNak` | external/udt4/src/core.cpp:1706-1748 | the report sent is the code of a prefix of the missing numbers |
| `UdtReceiver.CUDTReceiver.Recv` | external/udt4/src/core.cpp:1094 | reading hands out the oldest unread bytes |
| `XmlText.SkipAndExpand` | external/rapidxml/rapidxml.hpp:1570-1718 | in the buffer itself: the result is the expansion of the text, whether or not a reference is malformed, writing stays before the reading position and nothing at or behind that changes, the terminator included |
| `XmlReferences.NumberExpands` | external/rapidxml/rapidxml.hpp:1650-1684 | a decimal or hexadecimal reference with any leading zeros expands to the UTF-8 of the number written, modulo 2^64, and is refused exactly when that is no code point |
| `XmlReferences.NamedExpands` | external/rapidxml/rapidxml.hpp:1594-1648 | what each of the five named references expands to |
| `XmlReferences.OtherExpands` | external/rapidxml/rapidxml.hpp:1708-1709 | any other character stands for itself, also an ampersand that begins no reference |
| `XmlReferences.BrokenNumber` | external/rapidxml/rapidxml.hpp:1676-1684 | a numeric reference that does not end in a semicolon is refused |
| `XmlText.EscapeSafe` | external/rapidxml/rapidxml_print.hpp:47-81 | escaped text holds no angle bracket and no quote but the one that may stand |
| `XmlText.ExpandReference` | external/rapidxml/rapidxml.hpp:1592-1690 | one reference is replaced, copied, or refused as its characters say, and what is written in any case |
| `XmlText.InsertCodedCharacter` | external/rapidxml/rapidxml.hpp:1511-1554 | writes the UTF-8 bytes of a code point below 0x110000 and refuses others |
| `XmlText.ReadNumber` | external/rapidxml/rapidxml.hpp:1651-1682 | the number of a numeric reference, wrapped at 64 bits, from all characters that count as hexadecimal digits |
| `XmlText.ReferenceShrinks` | external/rapidxml/rapidxml.hpp:1592-1690 | every reference is longer than what it stands for, 4-byte UTF-8 included |
| `XmlText.Utf8RoundTrip` | external/rapidxml/rapidxml.hpp:1522-1548 | the bytes written for a code point decode to it |
| `XmlText.ExpandEscape` | external/rapidxml/rapidxml_print.hpp:47-81 | expanding what the printer escaped gives the string back |
| `XmlInPlace.ParseDocumentAt` | external/rapidxml/rapidxml.hpp:1381-1411 | the parser in its buffer accepts what the grammar accepts; its nodes point into the buffer, each name and value ends in a terminator, and read at the end they are the tree of the grammar |
| `XmlInPlace.ParseElementAt` | external/rapidxml/rapidxml.hpp:2037-2077 | an element, its name terminated last |
| `XmlInPlace.ParseContentsAt` | external/rapidxml/rapidxml.hpp:2167-2233 | children, data and the closing tag, with the value the element gets |
| `XmlInPlace.ParseDataAt` | external/rapidxml/rapidxml.hpp:1940-1994 | a data node; the terminator may replace the character that ends it, which is returned |
| `XmlInPlace.ParseAttributesAt` | external/rapidxml/rapidxml.hpp:2237-2298 | all attributes, names and values terminated |
| `XmlInPlace.ParseNodeAt` | external/rapidxml/rapidxml.hpp:2081-2163 | the kind of a node from its first characters |
| `XmlInPlace.ParsePiAt` | external/rapidxml/rapidxml.hpp:1880-1934 | a processing instruction, as the buffer holds it afterwards |
| `XmlInPlace.NodeFrame` | external/rapidxml/rapidxml.hpp:1940-2298 | later writes outside a node's part of the buffer do not change what the node reads as |
| `XmlPrinter.CopyAndExpandChars` | external/rapidxml/rapidxml_print.hpp:47-81 | appends the escaped characters |
| `XmlPrinter.PrintNodeTo` | external/rapidxml/rapidxml_print.hpp:318-376 | appends the printed form of a node |
| `XmlPrinter.PrintAttributesTo` | external/rapidxml/rapidxml_print.hpp:118-144 | appends the attributes, quoted so that the fewest references are needed |
| `XmlPrinter.PrintAndParse` | external/rapidxml/rapidxml_print.hpp:391-394 | printing a canonical document into a buffer and parsing the buffer in place gives nodes that read as the document |
| `XmlUnmatched.RejectUnmatched` | external/rapidxml/rapidxml.hpp:2184-2224 | a buffer in which the innermost open element is closed by another name, or not at all, is rejected |
| `XmlRoundTrip.WrittenBack` | external/rapidxml/rapidxml.hpp:1381-2298 | every document reads as its tree, with or without a byte order mark, whatever white space stands between constructs, between attributes, around = and before > and />, whichever quotes are used and whatever ignored constructs stand between |
| `XmlWritten.AcceptedExactly` | external/rapidxml/rapidxml.hpp:1381-2298 | the parser accepts exactly the documents that may be written, and returns their trees: every text it accepts has a layout of which it is the text and the result the tree |
| `XmlWritten.ParseBuffer` | external/rapidxml/rapidxml.hpp:1381-1411 | the parser in its buffer accepts exactly the documents, and its nodes read as the tree of every layout of the buffer |
| `XmlRoundTrip.DocumentBack` | external/rapidxml/rapidxml_print.hpp:118-275 | parsing the printed form of a canonical document gives the document, declarations, document types and processing instructions included |
| `XmlRoundTrip.ValueBack` | external/rapidxml/rapidxml_print.hpp:204-208 | an element that was given a value and no children is read back with the value as a data child |
| `XmlUnmatched.MismatchRejected` | external/rapidxml/rapidxml.hpp:2184-2214 | at any depth, a closing tag that does not repeat the name of the innermost open element makes the document an error, whatever follows |
| `XmlUnmatched.UnclosedRejected` | external/rapidxml/rapidxml.hpp:2222-2224 | at any depth, an element that is open where the text ends makes the document an error |
| `XmlTree.ClassExact` | external/rapidxml/rapidxml.hpp:2308-2444 | white space and the characters of names, by code point |
| `XmlRoundTrip.ContentsBack` | external/rapidxml/rapidxml.hpp:2167-2233 | contents of an element read as their nodes, in front of whatever the tag behind them gives |
| `XmlRoundTrip.AttributeBack` | external/rapidxml/rapidxml.hpp:2237-2298 | an attribute is read back, whichever quote was used and whatever white space stands around |
| `XmlRoundTrip.ValueIsFirstData` | external/rapidxml/rapidxml.hpp:1979-1982 | the value an element gets is that of its first data child; one that begins with a zero character counts as none as long as another follows |
| `XmlRoundTrip.SpaceIsLost` | external/rapidxml/rapidxml.hpp:2170-2174 | data of white space only is not read back |
| `XmlRoundTrip.PiValueKept` | external/rapidxml/rapidxml.hpp:1912-1917 | a processing instruction keeps its value exactly when white space follows the target or the value is empty; otherwise the terminator of the target replaces its first character |
| `Md5.Md5State.Append` | external/udt4/src/md5.cpp:322-358 | the state stands for the message with the data appended |
| `Md5.Md5State.Feed` | external/udt4/src/md5.cpp:339-357 | the digest buffer is the fold over the full blocks, the block buffer holds the tail |
| `Md5.Md5State.Finish` | external/udt4/src/md5.cpp:360-381 | the digest is that of the message padded and lengthened at once |
| `Md5.HashChunks` | external/udt4/src/md5.cpp:322-381 | however the message is cut, the digest is that of the whole |
| `Md5.PaddedExact` | external/udt4/src/md5.cpp:361-381 | the padded message byte by byte: the message, 0x80, zeros, the length in bits low byte first |
| `Md5.HashExact` | external/udt4/src/md5.cpp:312-381 | the digest is the four words left after compressing all blocks of the padded message from the four initial words, low byte first |
| `Md5.FoldAppend` | external/udt4/src/md5.cpp:351-353 | compressing blocks one after the other is compressing the whole |
| `Md5.CountAdd` | external/udt4/src/md5.cpp:333-337 | the two-word counter is the bit length modulo 2^64 |
| `Md5.PaddedInjective` | external/udt4/src/md5.cpp:361-381 | messages below 2^61 bytes with the same padded form are the same |
| `SndHeap.CSndUList.InsertNode` | external/udt4/src/queue.cpp:350-392 | the node goes to its place in the heap, each back-pointer is the place |
| `SndHeap.CSndUList.Insert` | external/udt4/src/queue.cpp:255-280 | the same, with the array doubled when it is full |
| `SndHeap.CSndUList.RemoveNode` | external/udt4/src/queue.cpp:394-429 | the node leaves, the last entry moves down from its place |
| `SndHeap.CSndUList.Remove` | external/udt4/src/queue.cpp:333-338 | a removal keeps the order exactly when the moved entry is not earlier than the parent of the vacated place |
| `SndHeap.CSndUList.Update` | external/udt4/src/queue.cpp:282-304 | rescheduling now: the new heap, and when the socket comes first |
| `SndHeap.CSndUList.Pop` | external/udt4/src/queue.cpp:306-331 | serves the earliest socket and keeps the order |
| `SndHeap.CSndUList.GetNextProcTime` | external/udt4/src/queue.cpp:340-348 | the least time in the schedule |
| `SndHeap.AddedOrdered` | external/udt4/src/queue.cpp:362-377 | moving up restores the order and keeps the entries |
| `SndHeap.RemovedOrdered` | external/udt4/src/queue.cpp:400-425 | removal keeps the other entries, and the order exactly under the side condition |
| `SndHeap.OrderCanBreak` | external/udt4/src/queue.cpp:400-425 | an ordered heap of six from which an interior removal breaks the order |
| `RcvTimerList.CRcvUList.Insert` | external/udt4/src/queue.cpp:569-588 | appends with the time on the clock; the list stays sorted |
| `RcvTimerList.CRcvUList.Remove` | external/udt4/src/queue.cpp:590-619 | takes the node out, links and order kept |
| `RcvTimerList.CRcvUList.Update` | external/udt4/src/queue.cpp:621-649 | the node goes to the end with the time on the clock |
| `RcvTimerList.CRcvUList.CheckTimers` | external/udt4/src/queue.cpp:1000-1023 | the loop visits exactly the sockets not visited since ctime, in order, leaves none behind and ends |
| `Registry.CUDTUnited.NewSocket` | external/udt4/src/api.cpp:252-309 | a fresh id |
| `Registry.CUDTUnited.NewConnection` | external/udt4/src/api.cpp:311-457 | repeated, refused and new connection requests; a new socket is queued and shares the first multiplexer at the listener's port, which is the listener's own exactly if no other one at that port comes first |
| `Registry.CUDTUnited.Accept` | external/udt4/src/api.cpp:602-703 | the least queued id, which is live, goes to the application |
| `Registry.CUDTUnited.Close` | external/udt4/src/api.cpp:763-814 | a listener is marked, any other socket moves to the closed ones |
| `Registry.CUDTUnited.CheckBrokenSockets` | external/udt4/src/api.cpp:1128-1189 | which sockets a collection destroys, and that every socket stays in exactly one map |
| `Registry.CUDTUnited.RemoveSocket` | external/udt4/src/api.cpp:1191-1252 | queued connections are closed, the multiplexer is counted down and freed with its last socket |
| `Registry.CUDTUnited.UpdateMux` | external/udt4/src/api.cpp:1311-1380 | the first multiplexer with the wanted port, IP version and packet size that may be shared is shared; without one, or when sharing or a port was not asked for, the socket gets its own |
| `Registry.CUDTUnited.Bind` | external/udt4/src/api.cpp:486-518 | a bind shares a multiplexer exactly if one with its port, IP version and packet size may be shared |
| `Registry.CUDTUnited.PortsAgree` | external/udt4/src/api.cpp:514-515 | the port of every socket is that of its multiplexer |
| `Registry.WrongMultiplexer` | external/udt4/src/api.cpp:1382-1402 | a registry that the operations lead to, in which a connection gets a multiplexer of the other IP version |
| `Registry.CUDTUnited.MuxLifetime` | external/udt4/src/api.cpp:1191-1252 | a multiplexer lives exactly as long as some socket names it |
| `Registry.CountedRemove` | external/udt4/src/api.cpp:1237-1251 | counting down keeps count and users equal |
| `MemoryPool.Pool.AllocateAligned` | external/rapidxml/rapidxml.hpp:599-631 | an aligned region inside one block, disjoint from all earlier regions and headers |
| `MemoryPool.Pool.NewBlock` | external/rapidxml/rapidxml.hpp:606-624 | a fresh block always has room for the request behind its header |
| `MemoryPool.Pool.Clear` | external/rapidxml/rapidxml.hpp:525-537 | the headers lead through all dynamic blocks, each freed once |
| `MemoryPool.AlignUp` | external/rapidxml/rapidxml.hpp:573-577 | the next multiple of the alignment |

## Left out

- Threads and locks: every operation is one atomic step; packData is two, split at the ACK lock.
- Time, congestion control and round-trip estimates: the congestion window, the timers' decisions and clock
  readings are parameters of the steps.
- Connection set-up: initial sequence numbers are positive, since the code subtracts 1 without wrapping, and
  the receive buffer is not larger than the flight flag size.
- Sizes: loss lists of at most 2^29 entries, so that index sums stay inside 32 bits.
- TTL expiry and message drop requests in the endpoints; the file variants addBufferFromFile and readBufferToFile.
- AckWindow is not connected to the endpoints: there an ACK2 carries the number of the ACK that it answers, and
  whether the sender answers an ACK is a parameter of the step. The time of an acknowledgement is not cut to 32
  bits.
- Progress.ProgressExact: the receive buffer is smaller than the comparison threshold, as the sizes of the loss
  lists imply. That the continuation is taken needs a network that delivers and timers that fire, which are
  parameters of the steps.
- Packet payloads are sequences; the source passes pointers into the sender's blocks. A packet is taken to
  carry the block as it was when the packet was made.
- UdtSender.CUDTSender.ProcessNak: a report whose last word carries the range flag is not modelled; the code
  would read behind it.
- UdtSender.CUDTSender.ProcessLiteAck: the code does not check that a lite ACK is not beyond what was sent;
  this is a precondition, and holds between honest endpoints.
- RcvLossList.CRcvLossList.RemoveRange: a range that is not wrapped and ends at 0x7FFFFFFF is excluded; its
  loop counter would pass the largest 32-bit number.
- RcvBuffer.CRcvBuffer.ReadMsg: stated for packets whose message bits come from addBuffer, which
  ReadMsgIsAllowed gives for every run between honest endpoints.
- RcvBuffer.CRcvBuffer.DropMsg: needs a buffer that has held something; before that its loop does not end,
  which is what DropLoopEnds says.
- Datagram.MessageDelivery: message numbers are parameters of the calls; drop requests are not among the steps.
- UdtSender.CUDTSender.ProcessAck: the advertised window is not above the initial one; the code does not check
  that, and between honest endpoints it holds (CallsAreAllowed).
- Registry.CUDTUnited.NewSocket: ids stay positive. The code counts down past 0 when more than the first id's
  number of sockets were made; ids 0 and -1 would then be taken for "no listener" and "no multiplexer".
- Registry.CUDTUnited.NewConnection: ids stay positive, for the same reason.
- RcvQueue.CRcvQueue.Receive: the packet is a parameter; control packets, connection requests and unknown
  sockets are left out, and one buffer stands for each socket.
- UnitQueue: the ring of blocks is a sequence; failed allocation is left out.
- Some methods of the source are split into several here, one for each branch or loop.
- Registry: sockets are values in the maps that own them, so aliasing of one socket in two maps while a
  collection runs is not captured; a socket leaves the live map at once there. Failed set-ups and their
  rollback, peer records and event polling are left out. IP addresses are left out: as in the code, only ports,
  versions and packet sizes are compared; the port that the system gives a new channel is a parameter.
- SndHeap: a node stands for its socket; the condition variables of the queue are left out.
- Md5: the compression of one block is a parameter, so its rounds are not modelled. Chunks are below 2^28
  bytes, as the code shifts a signed length.
- Md5.Md5State.Append: takes the data as a sequence instead of a pointer and a length; a negative length,
  which the code ignores, cannot be expressed.
- RapidXML under other flags than parse_full; indentation; a buffer's positions are indices.
- XmlPrinter: the children of a node are a sequence and are printed by recursion instead of along sibling
  pointers.
- XmlInPlace: nodes are values with places in the buffer; their allocation in the pool is not connected to
  MemoryPool.
- MemoryPool: memory is addresses only; the system's memory is a parameter that does not touch blocks in use.
- The cache, event polling, sockets and channels, and the libraries around the transport.
