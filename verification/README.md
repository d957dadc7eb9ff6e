# S3TP in Dafny

S3TP carries messages between numbered ports over a link that drops and reorders frames. A sender cuts each
message into packets, numbers them with 8-bit counters that wrap, keeps one priority queue per port and emits the
fragments of a message back to back. A receiver checks each packet's checksum, sorts it into its port's queue by
its wrapped distance from the next expected number, and hands a message on when all its fragments stand at the
head of the queue. Below it a stream framer finds message boundaries in raw bytes.

This project models that pipeline and proves what it promises over all inputs and all runs.

## Layout

Two layers. The *value* modules state each component as functions of its fields and hold the theorems; the
*object* modules are classes that change the same fields in place, every method proved to do to its fields
exactly what the function says.

| component | values and theorems | object |
|---|---|---|
| 8- and 16-bit counters | `Words` | |
| checksum | `Crc`, `CrcBytes`, `CrcDetection`, `CrcOrder`, `Corruption` | methods of `Crc` |
| stream framer | `Framing`, `Scanning` | `MessageSamplers.MessageSampler` |
| packets, ordering policy | `Packets` | `Headers.S3TPHeader` |
| priority queue | `Queues` | `PriorityQueues.PriorityQueue` |
| buffer and packet counter | `Buffers` | `BufferObjects.Buffer` |
| receiver | `Receiver`, `Windows`, `Hazards` | `RxModules.RxModule` |
| sender | `Sender`, `Transmission` | `TxModules.TxModule` |
| message cutting, callbacks | `Fragmentation`, `Submission` | `S3TPs.S3TP` |
| whole pipeline | `Protocol`, `ProtocolInvariant`, `ProtocolSafety`, `EndToEnd`, `Availability`, `Staleness`, `Completeness`, `Emission`, `Contiguity`, `Indexing`, `Resynchronisation` | |
| runs that exist | `Scenarios`, `Rounds`, `Witnesses` | |
| two nodes exchanging syncs | `SyncProtocol`, `SyncExchange` | |

`Protocol` is a state machine: a step admits a message, enqueues one fragment, runs one turn of the transmission
loop, loses or delivers any packet in flight, lets the application take a message, opens or closes a port, blocks
or frees a channel, or schedules a sync. Every packet carries a history field, its absolute number on its port;
no operation reads it. Each port's history records what was accepted, returned, expected and lost.

## The code as written, and repaired

`Packets.Variant` has two values. `AsWritten` is the code. `Repaired` changes exactly two lines; every theorem that
mentions a variant holds for both and says where they part.

- `core/S3TP.cpp:193` advances the data pointer by the running total. `Fragmentation.LosslessExactly`: what is sent
  is the message, for all memory contents, if and only if the line is repaired or the message takes at most two
  fragments (1984 bytes).
- `core/RxModule.cpp:237` adds in `int`, which never wraps. `Completeness.CompleteExactly`: a port delivers
  everything if and only if no message's packets cross a multiple of 256, or the sum is repaired.
  `Availability.MisfitBlocks`: nothing from the first message that crosses on is ever returned.
  `Witnesses.MisfitReached`: a run of three messages gets there.

Other places where code and intent part are modelled as they are, in both variants:

- `core/RxModule.cpp:195` compares a relative with an absolute sequence number. `Windows.LatestIsFurthest` gives the
  states in which the number picked is nevertheless always the furthest ahead. It decides which queues a later flush
  clears; the safety theorems hold for whatever is flushed.
- `core/S3TP.cpp:269` means to refuse a message for a full queue, but compares a 16-bit size with 2^20.
  `Transmission.QueueNeverFull`: it never does. `Transmission.FullQueueSwallows`: the message is then admitted and
  all of its packets are dropped.
- `core/RxModule.cpp:344` and `core/Buffer.cpp:59-63` clear a queue and leave its port in `available_messages`.
  `Staleness.StepStaleExactly` and `ExactUnlessStale` say, in terms of the guards of these two clears, exactly when
  the index becomes wrong; `Hazards.StaleIndex` (the clear in `write`) and `Staleness.FlushStale` (the clear in
  `flushQueues`) say what the next consumer then runs into; `Witnesses.HaltReached` gives a run.
- `core/S3TP.cpp:141` and `core/RxModule.cpp:303` keep lengths in 16 bits: `Fragmentation.PredictionExact` and
  `EndToEnd.SeenExactly` give the exact lengths for which this is harmless.
- `core/PriorityQueue.h:52` keeps a 16-bit size; `Buffers.WriteKeepsIndex` gives the exact bound for one write and
  `Indexing.SenderIndexedExactly` for whole runs. The capacity is a parameter of the model.
- The return path at `core/RxModule.cpp:296-300` leaves the module's mutex locked; the model calls this outcome `Stuck`.
- The mask at `core/CommonTypes.h:101` keeps one of the two type bits; `Headers.S3TPHeader.SetPduLength` states
  what survives, and `FillData` that the order in which fields are set makes it harmless.
- The comment at `core/utilities.cpp:11` speaks of CRC-8; the code computes a CRC-16.

## Model

| member | source | states |
|---|---|---|
| `Crc.CalcChecksum` | core/utilities.cpp:16-66 | the bit loop, the flush and the reversal compute the checksum function that the theorems below are about, for every payload a 16-bit length can describe |
| `Crc.ReadBits` | core/utilities.cpp:25-45 | after the byte and bit counters have run through the payload, the register has taken in its bits, least significant first |
| `Crc.VerifyChecksum` | core/utilities.cpp:68-71 | accepts exactly the right checksum |
| `CrcBytes.BitsOfByte` | core/utilities.cpp:30-41 | the bits that enter the register for a byte are its own: in that order, with weights 1, 2, 4, up to 128, they sum to it |
| `CrcBytes.BitsInjective` | core/utilities.cpp:25-45 | payloads with the same bits are the same |
| `CrcBytes.ErrorRealised` | core/utilities.cpp:25-45 | every error pattern of a payload's length turns it into exactly one payload, so no theorem about errors is empty |
| `CrcDetection.ChecksumIsRemainder` | core/utilities.cpp:16-66 | a word is the checksum if and only if, its least significant bit read as the coefficient of x^15 and so on down, it is the remainder of M(x)x^16 by x^16+x^15+x^2+1 over GF(2), stated coefficient by coefficient with an explicit quotient |
| `CrcDetection.ChecksumLinear` | core/utilities.cpp:16-66 | XOR of equal-length bit strings becomes XOR of checksums |
| `CrcDetection.MissedError` | core/utilities.cpp:68-71 | an error is missed if and only if it alone leaves the shift register at zero |
| `CrcDetection.BurstDetected` | core/utilities.cpp:68-71 | every non-zero burst within sixteen consecutive bits is seen, for any payload length |
| `CrcDetection.ChecksumParity` | core/utilities.cpp:25-63 | the parity of the checksum is the parity of the payload bits |
| `CrcDetection.OddErrorDetected` | core/utilities.cpp:68-71 | every odd number of flipped bits is seen |
| `CrcOrder.OrderOfX` | core/utilities.cpp:16-66 | x^n is 1 modulo the generator if and only if 32767 divides n |
| `CrcOrder.DoubleErrorDetected` | core/utilities.cpp:68-71 | two flipped bits are seen if and only if their distance is not a multiple of 32767 |
| `CrcOrder.DoubleErrorInPacket` | core/Constants.h:24-25 | hence always within a payload of 992 bytes |
| `CrcBytes.OddFlipsDetected` | core/utilities.cpp:68-71 | on the bytes of a payload of any length: any odd number of inverted bits changes the checksum |
| `CrcBytes.SingleFlipDetected` | core/utilities.cpp:68-71 | so does any one inverted bit, the top bit of a byte included |
| `CrcBytes.DoubleFlipDetected` | core/utilities.cpp:68-71 | on bytes: two inverted bits change the checksum if and only if their distance is not a multiple of 32767 |
| `CrcBytes.NeighboursDetected` | core/utilities.cpp:68-71 | payloads that differ in two neighbouring bytes only have different checksums |
| `Corruption.RejectedExactly` | core/RxModule.cpp:148-151 | the receiver turns a corrupted payload away if and only if the error leaves the register set |
| `Corruption.CorruptionRejected` | core/RxModule.cpp:145-151 | an active receiver answers odd, burst and double errors with the CRC error code and stays as it was |
| `Corruption.FlipsRejected` | core/RxModule.cpp:145-151 | on bytes: an active receiver answers an odd number of inverted bits, and two in at most 992 bytes, with the CRC error code and stays as it was |
| `Corruption.NeighboursRejected` | core/RxModule.cpp:145-151 | and so any change of two neighbouring bytes |
| `Framing.RunOf` | core/MessageSampler.c:38-152 | conservation over any run of appends and samples with arbitrary callbacks: accepted bytes are, in order, dropped bytes, returned messages and the buffer; returned messages are valid; the buffer is empty or begins at a start |
| `Framing.SampleAccounts` | core/MessageSampler.c:38-101 | one sample accounts for every byte that leaves the buffer, and reports nothing only if no complete message is left at the front |
| `Framing.ChunkIndependence` | core/MessageSampler.c:38-152 | however a stream of recognisable messages is cut into chunks that do not overflow, its messages come out in order, all of them once sampling reports nothing |
| `Scanning.FeedTakes` | core/MessageSampler.c:123-152 | over any run: an append takes a prefix of the data, all of it or as much as fills the buffer to exactly 1024 bytes, and then drops only the bytes before the first start of message |
| `Scanning.TrimStopsAtFirst` | core/MessageSampler.c:103-121 | no byte at which a start is seen is trimmed |
| `Scanning.CompleteMeans` | core/MessageSampler.c:57-59 | a message is complete if and only if its length, as a C int, is from 1 to what is buffered |
| `Scanning.SampleFinds` | core/MessageSampler.c:38-101 | for arbitrary callbacks: a sample looks past exactly the places without a start and the rejected complete messages; at the first other place it returns the message there, or nothing because it is incomplete, or the error because it does not fit |
| `Scanning.RestsOnce` | core/MessageSampler.c:51-97 | there is only one such place |
| `MessageSamplers.MessageSampler.constructor` | core/MessageSampler.c:7-36 | starts empty |
| `MessageSamplers.MessageSampler.RemoveTail` | core/MessageSampler.c:103-121 | scan and compaction in place leave the bytes from the first start on |
| `MessageSamplers.MessageSampler.Append` | core/MessageSampler.c:123-152 | takes and returns all of the data or as much as fills the buffer to 1024 bytes, and trims |
| `MessageSamplers.MessageSampler.Sample` | core/MessageSampler.c:38-101 | return value, new buffer and destination contents, through any number of self-calls over invalid messages |
| `Headers.S3TPHeader.SetPduLength` | core/CommonTypes.h:96-110 | for any argument: the lower 14 bits become the length, the lower bit of the old type survives, and bits beyond the length set the type |
| `Headers.S3TPHeader.FillData` | core/CommonTypes.h:57-110 | set in the order the pipeline uses, every field reads back (length and type modulo their widths) and the header words are laid out as documented, whatever the memory held |
| `Queues.Slot` | core/PriorityQueue.h:152-180 | the backward scan stops right behind the last smaller element |
| `Queues.InsertSorted` | core/PriorityQueue.h:134-189 | insertion keeps the order, for any contents; equal elements go newest first |
| `Queues.InsertMultiset` | core/PriorityQueue.h:134-189 | insertion conserves the other elements |
| `Queues.InsertIncreasing` | core/RxModule.cpp:357-372 | inside one span of 256 every push keeps the queue in absolute order, for a receiver or a sender policy |
| `Queues.HeadConsumed` | core/RxModule.cpp:294-304 | consuming the expected head and advancing the offset keeps order, span and distances |
| `Queues.AnyArrivalOrder` | core/RxModule.cpp:140-191 | the same packets give the same queue in whatever order they arrive |
| `PriorityQueues.PriorityQueue.Push` | core/PriorityQueue.h:134-189 | relinks the doubly linked list in place so that it holds the insertion; refuses at capacity and then changes nothing |
| `PriorityQueues.PriorityQueue.Link` | core/PriorityQueue.h:150-180 | the scan and the three ways of linking keep head, tail, next and prev consistent |
| `PriorityQueues.PriorityQueue.Pop` | core/PriorityQueue.h:101-132 | unlinks exactly the head |
| `PriorityQueues.PriorityQueue.Clear` | core/PriorityQueue.h:207-219 | leaves a consistent empty list |
| `Buffers.WriteKeepsIndex` | core/Buffer.cpp:47-79 | a write keeps the counter exact - exactly the non-empty queues, with their lengths - if and only if the queue held fewer than 65535 packets before, is cleared first, or refuses the packet |
| `Buffers.PopKeepsIndex` | core/Buffer.cpp:156-172 | a pop keeps the counter exact, takes the head and nothing else, and fails only on an empty queue or an invalid head |
| `Buffers.ClearKeepsIndex` | core/Buffer.cpp:29-37 | a clear keeps the counter exact and the other queues |
| `Buffers.ActiveExactly` | core/Buffer.cpp:81-93 | with the counter exact the active queues are the non-empty ones |
| `Buffers.NextAvailableIsLowest` | core/Buffer.cpp:125-141 | comes back empty if and only if every non-empty queue's head is on a blocked channel, otherwise pops the head of the lowest eligible port and nothing else |
| `BufferObjects.Buffer.Write` | core/Buffer.cpp:47-79 | on the heap of linked queues: clear if the window is exceeded, push, update the counter; other ports untouched |
| `BufferObjects.Buffer.PopPacketInternal` | core/Buffer.cpp:156-172 | on the heap: pop and counter update as the function says |
| `BufferObjects.Buffer.GetNextAvailablePacket` | core/Buffer.cpp:125-141 | the loop over the counter finds the first eligible port |
| `BufferObjects.Buffer.ClearQueueForPort` | core/Buffer.cpp:29-37 | empties one port's list and its count |
| `BufferObjects.Buffer.GetActiveQueues` | core/Buffer.cpp:81-93 | the ports with a positive count |
| `Receiver.AssembleSound` | core/RxModule.cpp:293-311 | what the assembly loop returns was a whole message at the head, its payloads in order, and the expected number moved past it |
| `Receiver.AssembleFinds` | core/RxModule.cpp:293-311 | a whole message at the head is always returned |
| `Receiver.CompleteLicensesAssembly` | core/RxModule.cpp:228-311 | when the completeness check answers true, assembly terminates with that message, never pops an empty queue and never takes the inconsistent-state exit, for any queue and both variants |
| `Receiver.AssembleFails` | core/RxModule.cpp:293-300 | without a message the loop runs out of packets if and only if all queued ones are consecutive and announce more, and otherwise stops at the first with another number |
| `Windows.HandledExactly` | core/RxModule.cpp:140-207 | each code has its exact guard, and a packet answered with an error changes nothing |
| `Windows.SyncSets` | core/RxModule.cpp:209-226 | an undamaged sync sets the expected numbers with non-zero entries and the latest global number, and nothing else |
| `Windows.WriteExactly` | core/Buffer.cpp:47-79 | counted from the receiver's base, a packet more than 128 from the head of its queue empties the queue first; otherwise it joins it, unless it is at capacity; no other queue changes |
| `Windows.SenderWriteExactly` | core/TxModule.cpp:314-317 | a sender's write never empties a queue |
| `Windows.FlushExactly` | core/RxModule.cpp:328-355 | a flush keeps a non-empty queue if and only if the global number of its head is the base plus some d below 128 (mod 256), empties it otherwise, and moves the base to the latest number |
| `Windows.FlushByNumber` | core/RxModule.cpp:340-346 | in absolute numbers: with the base at b, a head from b to b+127 stays and one from b+128 to b+255 goes |
| `Windows.CountedExactly` | core/RxModule.cpp:193-204 | an accepted packet advances the window; the one that fills it, and no other, flushes and moves the base; its number becomes the latest if its distance is below 128 and exceeds the latest number |
| `Windows.WindowCounts` | core/RxModule.cpp:198-204 | over any run of accepted packets the window counts modulo 128 and the base stays while it does not come round |
| `Windows.FirstWindow` | core/RxModule.cpp:193-204 | from a fresh start the latest number is the largest below 128 that came in, and packet 128 moves the base there |
| `Windows.LatestIsFurthest` | core/RxModule.cpp:194-197 | whatever packet comes in, the latest number becomes the one furthest ahead of the base, if and only if the base is 0, or 255 with the latest below 255, or nothing is left to pick either way |
| `RxModules.RxModule.Scan` | core/RxModule.cpp:228-255 | the walk over list nodes answers true exactly when a complete message is found by the check |
| `RxModules.RxModule.HandleReceivedPacket` | core/RxModule.cpp:140-207 | code and complete new state for every packet, including CRC, type and port errors, the index update and the window |
| `RxModules.RxModule.FlushQueues` | core/RxModule.cpp:328-355 | the loop clears exactly the active queues whose head is outside the window |
| `RxModules.RxModule.SynchronizeStatus` | core/RxModule.cpp:209-226 | overwrites exactly the numbers with a non-zero entry |
| `RxModules.RxModule.AssembleMessage` | core/RxModule.cpp:288-311 | the popping loop ends as the function says and leaves the rest of the queue |
| `RxModules.RxModule.GetNextCompleteMessage` | core/RxModule.cpp:272-326 | outcome, data, 16-bit length and new state, with the two failure exits |
| `RxModules.RxModule.OpenPort` | core/RxModule.cpp:100-115 | opens a closed port of an active module and reports the other cases |
| `RxModules.RxModule.ClosePort` | core/RxModule.cpp:117-131 | closes an open port of an active module and reports the other cases |
| `Fragmentation.CountBounds` | core/S3TP.cpp:171-208 | all payloads but the last are full, the last is not empty unless the message is; at most 128 for an admissible length |
| `Fragmentation.CountIs` | core/S3TP.cpp:171-208 | one payload per 992 bytes or part of them; at most 128 if and only if the length is admissible, that is at most 126976 |
| `Fragmentation.PayloadIs` | core/S3TP.cpp:181-205 | payload k is cut from byte 992 k on when repaired, from byte 496 k (k + 1) on as written |
| `Fragmentation.LosslessExactly` | core/S3TP.cpp:171-208 | for all memory contents the payloads concatenate to the message, if and only if the repaired code cuts it or it takes at most two fragments |
| `Fragmentation.CutDamages` | core/S3TP.cpp:193 | for every longer message the code as written reads outside it, with memory for which other bytes are sent |
| `Fragmentation.JoinLength` | core/S3TP.cpp:171-208 | the payload lengths always add up, even when the contents are wrong |
| `Fragmentation.PredictionExact` | core/S3TP.cpp:259-267 | the predicted packet count is the true one if and only if the length is 1 to 65535 |
| `TxModules.TxModule.EnqueuePacket` | core/TxModule.cpp:259-291 | numbers, checksums and queues one packet; an inactive module takes nothing |
| `TxModules.TxModule.SynchronizeStatus` | core/TxModule.cpp:52-68 | the sync frame lists the next sequence number of all 128 ports |
| `TxModules.TxModule.TxRoutineTurn` | core/TxModule.cpp:79-147 | frames emitted and new state of one turn of the transmission loop, for every link and channel condition |
| `Transmission.TurnSync` | core/TxModule.cpp:85-93 | with the link up and a channel free: if channel 0 is free and not full a scheduled sync is the first frame, with id, global number and all port numbers, and no longer scheduled; if it is full no sync leaves, the schedule stands and channel 0 is blacklisted; if it is blacklisted nothing of this changes |
| `Transmission.TurnBlocked` | core/TxModule.cpp:80-84 | without a link or with seven channels blacklisted nothing leaves and only the state changes |
| `Transmission.TurnData` | core/TxModule.cpp:94-127 | at most one data packet leaves: the head of the current message's port, or of the lowest port whose head may go; the state is RUNNING if one left, WAITING if none is queued, BLOCKED otherwise |
| `Transmission.TurnObeys` | core/TxModule.cpp:79-137 | no frame leaves on a blacklisted channel |
| `Transmission.BlacklistIsLastWord` | core/TxModule.cpp:201-212 | in every run a channel other than 0 is blacklisted if and only if the link layer's last word on it was that it is full |
| `Transmission.BlacklistObeyed` | core/TxModule.cpp:201-212 | so no run sends a frame on a channel last reported full |
| `TxModules.TxModule.SetChannelAvailable` | core/TxModule.cpp:201-212 | changes the blacklist and nothing else |
| `TxModules.TxModule.IsQueueAvailable` | core/TxModule.cpp:197-199 | compares the 16-bit queue size plus the prediction with the limit |
| `S3TPs.S3TP.CheckTransmissionAvailability` | core/S3TP.cpp:259-276 | the three refusals in their order; success if and only if the sender is not blocked, size and packet count stay within 2^20, and the channel is not blacklisted |
| `Transmission.AdmittedExactly` | core/S3TP.cpp:140-147 | a message is let in if and only if the sender is not blocked, the 16-bit queue size plus its 16-bit length in packets of 992 is at most 2^20, its channel is not blacklisted and it has at most 126976 bytes; each refusal has its exact guard |
| `Transmission.QueueNeverFull` | core/S3TP.cpp:268-270 | the second test never fails: no message is refused because its queue is full |
| `Transmission.FullQueueSwallows` | core/S3TP.cpp:128-157 | a message for a queue at capacity is admitted and every packet of it dropped |
| `S3TPs.S3TP.SendToLinkLayer` | core/S3TP.cpp:128-157 | error code without any change, or all fragments of the message enqueued in order |
| `S3TPs.S3TP.FragmentPayload` | core/S3TP.cpp:171-208 | the loop over the moving pointer enqueues exactly the cut payloads, numbered from 0, all but the last flagged; an inactive sender stops it |
| `S3TPs.S3TP.HandleFrame` | core/S3TP.cpp:347-353 | receiving a frame is the node step of the sync protocol; it schedules the answer exactly for an undamaged initiating sync at an active receiver with a client |
| `S3TPs.S3TP.OnConnected` | core/S3TP.cpp:302-309 | registers the client, opens its port, asks for a sync |
| `S3TPs.S3TP.OnLinkStatusChanged` | core/S3TP.cpp:319-325 | asks for a sync when the link comes up |
| `Submission.SubmissionIsRun` | core/S3TP.cpp:128-208 | what the loop does in one call is a legal run of the pipeline's steps, so the theorems about runs cover it |
| `ProtocolInvariant.WholeIsNextMessage` | core/RxModule.cpp:288-311 | under the invariant a whole message at the head of the receive queue is exactly the port's next message, all fragments and no others |
| `ProtocolInvariant.AssembledIsNext` | core/RxModule.cpp:288-311 | under the invariant the assembly loop returns the payloads of the port's next message |
| `ProtocolSafety.StepKeepsInv` | core/TxModule.cpp:77-153 | every step keeps the invariant on all ports: packets unaltered, each in exactly one place or counted lost, counters equal to absolute counts modulo 256, receive queue in absolute order |
| `ProtocolSafety.RunKeepsInv` | core/RxModule.cpp:140-326 | so does every run |
| `EndToEnd.SeenExactly` | core/RxModule.cpp:293-325 | a message reaches the application byte for byte, for all memory contents, if and only if it is at most 1984 bytes as written, 65535 repaired |
| `EndToEnd.Safety` | core/RxModule.cpp:140-326 | in every run with any interleaving, loss, reordering within 255 of the expected packet, clears and fitting syncs, what a port returned since its last resynchronisation is, in order and without gaps, what was accepted for it |
| `EndToEnd.ByteExactSafety` | core/S3TP.cpp:128-208 | if no message exceeds the limit, the returned messages are a prefix of the accepted ones |
| `EndToEnd.PrefixSafety` | core/S3TP.cpp:128-208 | in a run without syncs, a byte-exact prefix of everything accepted |
| `Availability.AvailabilityExact` | core/RxModule.cpp:185-191 | as long as no accepted packet of the port was dropped, the index lists it if and only if a whole message stands at its head and that message does not cross a multiple of 256 (or the sum is repaired); the receiver crashes or sticks only after some port had a packet dropped |
| `Availability.CheckMeans` | core/RxModule.cpp:228-255 | for any receive queue under the invariant, the completeness check answers true if and only if a whole message stands at the head and fits |
| `Availability.MisfitBlocks` | core/RxModule.cpp:237 | in every run a port whose packets were all kept returns nothing from its first message that does not fit on |
| `Staleness.StepStaleExactly` | core/RxModule.cpp:185-204 | from an exact index every step leads to an exact one, except exactly a delivery after which a port that was listed, or completed by this packet, is found stale by a due flush, or whose queue `write` cleared without the packet being a whole message itself |
| `Staleness.ExactUnlessStale` | core/RxModule.cpp:185-204 | over whole runs: the index of a port is exact throughout if and only if no such delivery happened |
| `Staleness.ConsumeExactly` | core/RxModule.cpp:288-301 | an inactive receiver and one with no port listed do nothing; otherwise, whatever the index says, a consumer gets a message from the lowest listed port if and only if a whole one stands at its head; if all queued packets are consecutive and announce more it dereferences a null packet, and in every other case returns with the mutex locked |
| `Staleness.FlushStale` | core/RxModule.cpp:328-355 | a flush that finds a listed port stale leaves it listed with an empty queue, and its next consumer dereferences a null packet |
| `Staleness.FlushStaleByOther` | core/RxModule.cpp:328-355 | so packets of one port alone can crash the consumer of a lower one |
| `Availability.CheckedFits` | core/RxModule.cpp:228-255 | as written the check passes no message that crosses a multiple of 256 |
| `Completeness.CompleteExactly` | core/RxModule.cpp:228-326 | with everything arrived and no complete message left, all is delivered and the queue empty if and only if every message fits the check |
| `Completeness.EverythingDelivered` | core/RxModule.cpp:272-326 | after any run in which the receiver dropped nothing, taking messages until none is available terminates without a crash and has returned every accepted message, if and only if all fit the check |
| `Completeness.RepairedDeliversAll` | core/RxModule.cpp:272-326 | the repaired code returns every accepted message and empties the queue |
| `Completeness.TakeProgress` | core/RxModule.cpp:288-319 | each take succeeds, shortens the queues and keeps the index exact |
| `Rounds.Round` | core/S3TP.cpp:128-208 | from a settled state every admissible message that fits, of any length and contents, has a legal run that sends, carries and returns it and ends settled again |
| `Witnesses.MisfitReached` | core/RxModule.cpp:237 | as written there is a legal run from the initial state after which everything of a port has arrived, nothing was dropped, and a message does not fit |
| `Witnesses.MisfitUndelivered` | core/RxModule.cpp:237 | in every such state taking messages until none is available leaves some of those accepted |
| `Witnesses.HaltReached` | core/Buffer.cpp:59-63 | in either variant there is a legal run from the initial state that ends with the receiver halted |
| `Witnesses.UntimelyReached` | core/RxModule.cpp:294-304 | a legal run leads to a state in which the packet on the link, 256 ahead of the expected one, would be returned as the port's first message |
| `Emission.FifoExactly` | core/TxModule.cpp:293-308 | a push lands at the end of a full run of packets if and only if at most 256 are then outstanding |
| `Emission.JumpsAhead` | core/TxModule.cpp:293-308 | packet 257 goes to the head of the queue |
| `Emission.SenderFifo` | core/TxModule.cpp:126 | in every run with at most 256 packets of a port outstanding each queue holds exactly what was enqueued and not emitted, in order, numbered from to_consume_port_seq to port_sequence - 1 |
| `Emission.ContiguousEmission` | core/TxModule.cpp:259-308 | in every run with at most 256 packets of a port outstanding, sub- and port sequences of a message's fragments are moreover consecutive, and each message starts at sub-sequence 0 |
| `Contiguity.MessagesUnbroken` | core/TxModule.cpp:77-153 | in every run, with any number outstanding: from the first fragment of a message to its last only packets of its port leave, under one global sequence, and between any two emitted packets the global sequence rises by exactly the number of messages that ended (mod 256) |
| `Indexing.ReceiverIndexed` | core/Buffer.cpp:47-172 | in every run the receiver's packet counter lists exactly its non-empty queues with their lengths, through writes, clears, flushes and takes |
| `Indexing.SenderIndexedExactly` | core/Buffer.cpp:47-172 | over whole runs the sender's counter is exact throughout if and only if no packet joins a queue that holds 65535 and has room |
| `Indexing.SmallCapacity` | core/PriorityQueue.h:19-20 | which a capacity of at most 65535 rules out |
| `Hazards.SpanIsTight` | core/RxModule.cpp:228-255 | a lone packet at an idle port is taken for the expected one if and only if its number is congruent to it modulo 256: 256 ahead is the first to be confused |
| `Hazards.StaleIndex` | core/Buffer.cpp:59-63 | after a window clear the listed port makes the next consumer dereference a null packet or return with the mutex locked, unless the new packet is itself the whole expected message |
| `Hazards.SyncMisleads` | core/RxModule.cpp:209-226 | after a sync that moves the expected number by d, an idle port returns nothing for the packet due and returns the one d ahead in its place |
| `Resynchronisation.SyncReestablishes` | core/RxModule.cpp:209-226 | whatever the receiver expected, the sender's sync brings a quiescent port back under the invariant if and only if the sender's sequence is not zero modulo 256 or the receiver expects zero |
| `Resynchronisation.SyncHarmless` | core/RxModule.cpp:209-226 | a sync in mid-traffic leaves a port's invariant standing if and only if its entry is zero or the number expected anyway |
| `SyncProtocol.EventPays` | core/S3TP.cpp:347-353 | no event but a connect or a link-up raises the measure of scheduled and travelling syncs, and every sync sent, received or lost lowers it |
| `SyncProtocol.SyncTrafficStops` | core/TxModule.cpp:86-93 | over any run the number of sync events is bounded by the initial measure |
| `SyncProtocol.OneInitiation` | core/TxModule.cpp:155-163 | from silence, one initiating sync causes at most four sync events |
| `SyncExchange.AnsweredExactly` | core/S3TP.cpp:347-353 | a frame makes the sender schedule an acknowledging sync if and only if it is an undamaged initiating sync and reaches an active receiver of a node with a client; any other leaves the sender alone |
| `SyncExchange.FourEvents` | core/S3TP.cpp:347-353 | the bound of four is reached: from silence, between nodes that are ready, some run sends and receives both syncs and ends in silence with each receiver expecting the other sender's next numbers, where these are not zero |

## Left out

- Threads, mutexes and condition variables: steps are atomic at the granularity of the critical sections; the gap between a pop and its counter increment is not modelled.
- Sockets, the daemon, clients, the connector, the logger, transceiver drivers and ARQ inside the link layer: input and output only; the link is a bag of packets with link-up and buffer-full flags chosen freely at each turn.
- The majority votes on control bytes and lengths in S3tpShared, SimpleQueue, BlockingQueue and debug.cpp: finite case splits or code off the path.
- `new`, `delete` and packet leaks; deleted list nodes simply stay unreachable.
- The notification `onOutputQueueAvailable` and the control messages to clients, which change no protocol state.
- The options byte of a packet, which only selects ARQ.
- `reset` and `stopModule`; a module that turns inactive between two fragments of one message.
- A null queue pointer stored by a look-up of an unknown port counts as an absent queue; a map entry created by reading counts only where it is observable.
- The policy actor is handed to the buffer as a value at each call instead of being called back.
- Liveness of the receiving window: clears may discard live data at any time, and no theorem claims otherwise.
- EndToEnd.Safety: assumes that a packet arrives at most 255 ahead of the expected one and that a sync arrives when what it says is not news or the port is quiescent; `Hazards.SpanIsTight` shows the first bound is tight and `Witnesses.UntimelyReached` that a run gets there.
- Emission.SenderFifo: assumes a queue capacity of at least 256 and at most 256 outstanding packets of a port; `Emission.FifoExactly` shows the second bound is tight.
- Emission.ContiguousEmission: the same assumptions, for the consecutive numbers only; `Contiguity.MessagesUnbroken` has none.
- Completeness.EverythingDelivered: assumes the receiver dropped no accepted packet of any port, because one stale port can halt it for all.
- Framing.ChunkIndependence: assumes callbacks that recognise each message by its own bytes and chunks that fit the buffer.
- MessageSamplers.MessageSampler.Append: requires that the data length plus 1024 fits 32 bits, so that the unsigned sum does not wrap; a null data pointer is the empty sequence.
- MessageSamplers.MessageSampler.MoveToFront: models `memcpy` on overlapping ranges as a move, which the C standard does not promise.
- RxModules.RxModule.HandleReceivedPacket: takes packets whose stated payload length (14 bits) is the payload they have, and syncs of at least 130 bytes; the code does not check either.
- S3TPs.S3TP.SendToLinkLayer: the memory behind the message is a parameter long enough for what the pointer reaches.
