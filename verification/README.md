# A verified model of the ArcMSR driver core

The ArcMSR driver connects Areca SATA RAID adapters to the SCSI stack of a Mac OS X kernel. Three small
machines carry what is hard about it, and this project models and proves things about all three:

* **The message queues.** Two 4096-byte byte rings, a doorbell handshake with the adapter in chunks of at
  most 124 bytes, the `UNDERFLOW` and `OVERFLOW` flags, and writers and readers that sleep in the command
  gate.
* **The SRB tags.** A free list of 32-bit tags kept as bytes in another such ring, tags turned into physical
  addresses and posted, replies turned back into tags and tasks, and timeouts that leave a tag in the
  adapter's hands.
* **The device rescan.** An interrupt handler that writes a new device map and a scanner thread, outside the
  gate, that diffs it against the old one and creates and destroys targets, coupled by a coalescing event
  source.

## How it is built

| files | contents |
|---|---|
| `Bytes`, `Arithmetic`, `Targets` | bytes and words, multiplication and division by a variable, target/LUN flattening |
| `ByteQueue`, `RingBuffer` | what the ring means as a queue, boundary case included; the class that implements it in place |
| `MessageQueueSpec`, `MessageQueue` | one gated section on values; the class that performs it on the rings and the mapped buffers, its sleeping loops included |
| `MessageProtocol`, `MessageTheorems`, `MessageWakeups` | writers, readers, adapter, interrupts, timeouts and clears in any interleaving; the theorems about every run; who rings and wakes whom |
| `SrbAddress`, `SrbTags` | tags, addresses, post and reply words; the free list as a class on the ring |
| `SrbProtocol`, `SrbTheorems`, `SrbCounting` | tasks, tags, adapter, replies and timeouts in any interleaving; the theorems about tags and completions; how many tags the stack's tasks take |
| `ScatterGather`, `ScsiPath` | the SRB and its segment list; submission and the reply loop as a class |
| `FrameMemory` | the SRBs as bytes of one block, and when they leave each other alone |
| `EventSource`, `DeviceMap` | the event source and the device scanner as classes |
| `RescanProtocol`, `RescanTheorems` | interrupt and scanner interleaved at each single read and write of a map, and the theorems |

A class method is proved against a function on values; the theorems are about those functions and about
transition systems built from them. `ScsiPath.DrainIsProtocol` and `ScsiPath.SubmissionIsProtocol` tie the class to the
transition system of the SCSI path, `MessageProtocol.InterruptIsDoorbellHandler` and the use of the same section
functions do it for the queues, and `RescanTheorems.WholeMessageEffect` for the message interrupt. In a
transition system an event that is not enabled does nothing, so "every run" is every sequence of events.
While a thread sleeps in the command gate, other gated sections run; the methods that may sleep take the
account of what happens meanwhile as a parameter.

## What turned out false, and when exactly

* **An insert that fills a ring exactly empties it.** `avail()` reports `size` free slots on an empty ring, so
  an insert that brings the fill to `size` is accepted and makes head equal tail. A ring conserves its bytes
  exactly in the runs without such an insert and without a clear of queued bytes (`Conservation`). The tag ring
  never meets the case (`WordInsert`). Both message queues do: `ExactFillLosesWrites` and
  `ExactFillLosesMessages` give the runs, and `InboundConservation` and `OutboundConservation` state the streams
  with the exact condition. No wakeup or acknowledgement is lost even then.
* **"Should never happen".** The stack is told `maxSRB`, yet a request within that number can find no free tag. It
  happens exactly when the tasks on the stack's list, the tags kept by tasks that timed out, and the tag of a reply
  just handled are `maxSRB` together (`RequestOverrun`). Both causes are real for every `maxSRB`: timeouts alone use
  up the tags with nothing outstanding (`OverrunAfterTimeouts`), and without any timeout the moment between the
  completion of a task and the return of its tag is enough (`OverrunAfterCompletion`).
* **Tags come back from replies** exactly when the end of the pool is itself a 32-bit address; for a pool that
  ends at 4GB every reply is turned away (`TagRoundTrip`).
* **SRBs stay out of each other's frames** exactly when `sizeSRB`, which the driver takes from the adapter unchecked,
  is at least 352 (`FramesApart`). With smaller frames a long segment list overwrites the next SRB's target and LUN
  (`SmallFrameOverwritesNext`, `SmallFramesHappen`), and the reply to a task so overwritten completes it only if
  target and LUN are still the same (`OverwrittenFrame`).
* **A read's timeout does not bound its wait.** All readers share one timer, which each of them sets anew as it
  falls asleep (`TimerIsSetBy`, `LaterReadMovesTimeout`). A sleeping reader always has the timer running, and returns
  after it has fired (`NoLostReaderWakeup`, `SleepingReadReturns`).
* **A command without data keeps a stale segment count**, since only the first segment resets `sg_count`
  (`GenPhysicalSegments`).
* **A revert in the middle of a scan is missed** until a later poll (`RevertMidScanIsMissed`). `InterleavedMessage` gives
  the exact condition for a message in any interleaving with the scanner, `MessageOutcome` for one handled without
  interference, `Convergence` for any state at all.

## Assumptions about the surroundings

* The adapter sends one READ_OK per posted chunk; it posts no outbound message before the previous one is
  acknowledged; its messages have 1 to 124 bytes.
* User clients write 1 to 4096 bytes at a time and read at least one byte, as the size checks in `ArcMSRUserclient.cpp` ensure.
* The read timer, once set, may fire at any later moment; setting it again replaces the earlier setting.
* A gated call is atomic except where it sleeps; a sleeper may also be woken by an interruption.
* The adapter replies exactly once to each posted SRB, echoing its address bits, with bit 31 of the reply clear.
* `1 <= maxSRB <= 256`; `sizeSRB` is a positive multiple of 32; the pool is 32-byte aligned and ends at or below 4GB
  (below it where the protocol needs replies to lead back). Where the protocol and the class treat SRBs as objects
  of their own, `sizeSRB` is at least 352; `FrameMemory` proves that this is what they need.
* SCSI targets are those the driver reports, 0 to 127. A task may time out at any moment once it is under way.
* Rescan is the only request the driver makes of the event source.

## Model

| member | source | states |
|---|---|---|
| ByteQueue.Conservation | ArcMSRUtils.cpp:145-245 | over every sequence of inserts, removes and clears on a ring of any size, removed bytes followed by queued bytes are the accepted bytes in order if and only if no insert filled the ring exactly and no clear met a non-empty ring |
| RingBuffers.RingBuffer.constructor | ArcMSRUtils.cpp:122-129 | a new ring is empty and has one slot more than asked for |
| RingBuffers.RingBuffer.Clear | ArcMSRUtils.cpp:138-143 | clearing empties the queue |
| RingBuffers.RingBuffer.Avail | ArcMSRUtils.cpp:145-148 | the modulo expression is size less the number of queued bytes, thus size and not size-1 on an empty ring |
| RingBuffers.RingBuffer.Insert | ArcMSRUtils.cpp:150-170 | across the wrap, an insert appends when it leaves a slot free, is refused without change when it does not fit, and at an exact fill is accepted and leaves the queue empty |
| RingBuffers.RingBuffer.InsertDescriptor | ArcMSRUtils.cpp:172-192 | the same for the whole of a memory descriptor |
| RingBuffers.RingBuffer.Remove | ArcMSRUtils.cpp:212-245 | a removal delivers exactly the oldest min(len, queued) bytes, across the wrap, writes nothing else, and leaves the rest queued |
| RingBuffers.RingBuffer.RemoveDescriptor | ArcMSRUtils.cpp:247-281 | the same into a memory descriptor from an offset on, bytes outside untouched |
| RingBuffers.RingBuffer.InsertWord | ArcMSRUtils.cpp:206-210 | a 32-bit word goes in as its four bytes |
| RingBuffers.RingBuffer.RemoveWord | ArcMSRUtils.cpp:301-308 | status 1 and the word, or -1, in which case a partial word has been taken off the ring |
| MessageQueues.MessageQueues.constructor | ArcMSRController.cpp:122-124 | both queues empty, UNDERFLOW set |
| MessageQueues.MessageQueues.InboundMQWrite | ArcMSRMessageQueue.cpp:70-87 | up to 124 of the oldest bytes are posted with their doorbell and nothing else is signalled, or UNDERFLOW is set and writers, only they, are woken |
| MessageQueues.MessageQueues.InsertAttempt | ArcMSRMessageQueue.cpp:53-63 | one pass of the writer: accepted if it fits, and a quiescent adapter is kicked |
| MessageQueues.MessageQueues.InboundMQBufferInsert | ArcMSRMessageQueue.cpp:48-68 | the retry loop: whatever runs during its sleeps, the state is that of the loop's meaning on values |
| MessageQueues.WriteCallIsOneInsert | ArcMSRMessageQueue.cpp:48-68 | a write that slept is atomic at the attempt that is accepted; failed attempts leave no trace |
| MessageQueues.MessageQueues.OutboundMQRead | ArcMSRMessageQueue.cpp:144-162 | a message is queued, acknowledged and readers woken, or OVERFLOW is set and nothing acknowledged |
| MessageQueues.MessageQueues.RemoveAttempt | ArcMSRMessageQueue.cpp:113-131 | one pass of the reader, re-reading a stalled message if there is room; the buffer gets exactly the delivered bytes |
| MessageQueues.MessageQueues.OutboundMQBufferRemove | ArcMSRMessageQueue.cpp:105-142 | at most two passes; exactly bytesRead bytes of the buffer are written; a short read leaves the ring empty and OVERFLOW clear; no sleep without a positive timeout or with something to read |
| MessageQueues.ReadCallIsOneRemove | ArcMSRMessageQueue.cpp:110-139 | a reader sleeps only after a pass that took and changed nothing but the timer |
| MessageQueues.MessageQueues.HandleDoorbellInterrupt | ArcMSRControllerIO.cpp:193-212 | the doorbell register is read and every bit that was up acknowledged; the message is served first, then the next chunk, each only if its bit was up |
| MessageQueues.MessageQueues.OutboundMQWakeup | ArcMSRMessageQueue.cpp:91-103 | the timer is spent and every reader woken |
| MessageQueues.MessageQueues.InboundMQBufferClear | ArcMSRMessageQueue.cpp:166-170 | the inbound ring is emptied, flags and adapter left alone |
| MessageQueues.MessageQueues.OutboundMQBufferClear | ArcMSRMessageQueue.cpp:174-184 | the outbound ring is emptied; a stalled message is dropped and acknowledged |
| MessageQueueSpec.ShortReadMeansDrained | ArcMSRMessageQueue.cpp:113-131 | a read hands over a prefix of ring followed by stalled message; fewer bytes than asked for means ring empty and OVERFLOW clear |
| MessageQueueSpec.InboundDrain | ArcMSRMessageQueue.cpp:70-87 | with n bytes queued and a chunk in flight exactly ceil(n/124)+1 READ_OK interrupts set UNDERFLOW |
| MessageQueueSpec.OutboundDrain | ArcMSRMessageQueue.cpp:114-130 | with u bytes queued behind OVERFLOW exactly floor(u/r)+1 reads of r bytes clear it |
| MessageProtocol.InterruptIsDoorbellHandler | ArcMSRControllerIO.cpp:202-211 | the interrupt step of the system, which lets signals take effect after each half, equals the doorbell handler as one section with its signals received in order: same driver, adapter counters, chunks, acknowledgements and sleepers |
| MessageProtocol.StepKeeps | ArcMSRMessageQueue.cpp:48-184 | every step of writers, readers, adapter, interrupts, timeouts and clears keeps handshake, sleepers and both stream accounts |
| MessageTheorems.InboundConservation | ArcMSRMessageQueue.cpp:48-87 | in every run the posted chunks, 1 to 124 bytes each, followed by the ring are the accepted writes in order if and only if the run is free of exact fills and of clears of queued bytes |
| MessageTheorems.OutboundConservation | ArcMSRMessageQueue.cpp:105-162 | in every run delivered bytes, ring and unread adapter message are all bytes the adapter posted, in order, under the exactly corresponding condition |
| MessageTheorems.NoLostWriterWakeup | ArcMSRMessageQueue.cpp:48-87 | in every run, clears included: UNDERFLOW iff no chunk is outstanding, at most one ever is, UNDERFLOW implies an empty ring, a sleeping writer has a chunk outstanding, and a drain leaves every writer awake with room for any one |
| MessageTheorems.NoLostReaderWakeup | ArcMSRMessageQueue.cpp:91-162 | in every run a reader is asleep only while nothing is queued, nothing is stalled and the timer is running; firing it wakes every reader |
| MessageTheorems.SleepingReadReturns | ArcMSRMessageQueue.cpp:132-141 | in every run a read that slept leaves with its next pass, data or not, and the timer lets it make that pass |
| MessageTheorems.TimerIsSetBy | ArcMSRMessageQueue.cpp:132-137 | every step leaves the timer alone, except a read that falls asleep, which sets it to its own timeout, and its firing |
| MessageTheorems.LaterReadMovesTimeout | ArcMSRMessageQueue.cpp:136 | a later read that falls asleep sets the timer to its own timeout while an earlier one sleeps on |
| MessageTheorems.TwoReadersMeet | ArcMSRMessageQueue.cpp:105-138 | for any two timeouts, two reads of an empty queue get into that situation |
| MessageTheorems.Acknowledgements | ArcMSRMessageQueue.cpp:118-185 | in every run acknowledgements equal messages handled less one while OVERFLOW is set; never a second unacknowledged message |
| MessageTheorems.RereadFits | ArcMSRMessageQueue.cpp:120-130 | the re-read in the reader fits in every reachable state, is no exact fill, and cannot overflow again |
| MessageTheorems.WritersGetUnstuck | ArcMSRMessageQueue.cpp:70-87 | from every reachable state with n bytes queued and a chunk outstanding, exactly ceil(n/124)+1 rounds of adapter and interrupt set UNDERFLOW; every writer is then awake with room for any one |
| MessageTheorems.ReadersClearOverflow | ArcMSRMessageQueue.cpp:105-142 | from every reachable state with a message stalled behind u bytes, reads of r bytes leave it stalled up to the floor(u/r)-th and the next clears OVERFLOW and acknowledges exactly once |
| MessageTheorems.ExactFillLosesWrites | ArcMSRUtils.cpp:155-156 | two writes of 4096 and 125 bytes are accepted and all but the first chunk is lost |
| MessageTheorems.ExactFillLosesMessages | ArcMSRMessageQueue.cpp:152-156 | 4097 bytes of messages, acknowledged and unread, leave nothing to read |
| MessageWakeups.DoorbellSends | ArcMSRControllerIO.cpp:202-211 | the exact signals of a doorbell interrupt, in order: acknowledgement and reader wakeup if the message fits in 4097 slots, then the chunk or the writer wakeup |
| MessageWakeups.WriterSends | ArcMSRMessageQueue.cpp:53-60 | a writer signals nothing unless UNDERFLOW was set and its bytes fit; then it is one chunk, or a writer wakeup after an exact fill |
| MessageWakeups.ReaderSends | ArcMSRMessageQueue.cpp:114-130 | a reader acknowledges and wakes readers iff a message was stalled and it asked for more than the ring has; it signals nothing else |
| MessageWakeups.WhoWakesReaders | ArcMSRMessageQueue.cpp:91-162 | in every reachable state a sleeping reader is woken by exactly the timer, its own interruption, and the interrupt for a message; its request is untouched |
| MessageWakeups.WhoWakesWriters | ArcMSRMessageQueue.cpp:66-84 | a sleeping writer is woken by exactly its own interruption and the READ_OK that finds the ring drained |
| MessageWakeups.WriteEndsOrSleeps | ArcMSRMessageQueue.cpp:53-67 | a write sleeps iff its bytes do not fit in 4097 slots, changing nothing else; otherwise it is accepted and ends |
| MessageWakeups.ReadEndsOrSleeps | ArcMSRMessageQueue.cpp:110-141 | a read sleeps iff nothing is queued or stalled, its timeout is positive and it has not slept; it then changes only the timer; otherwise it ends |
| MessageWakeups.DoorbellsAndMessage | ArcMSRControllerIO.cpp:198-211 | a doorbell bit is up from the adapter's move to the next interrupt, and only the adapter changes the message buffer |
| SrbAddress.TagRoundTrip | ArcMSRControllerIO.cpp:332-344 | a reply to a posted tag, under any post flag and reply flags, leads back to the tag if and only if the end of the pool is a 32-bit address |
| SrbAddress.PostWordCarries | ArcMSRSCSI.cpp:151-153 | a post word carries the frame address in bits 0-26, bit 31 iff the frame is large, and no other flag |
| SrbAddress.TagsDistinct | ArcMSRControllerIO.cpp:324-336 | distinct tags have distinct post words and frame pointers |
| SrbAddress.PointersAndAddresses | ArcMSRControllerIO.cpp:324-336 | pointer and physical address of a frame are the same offset into the pool; NULL iff the tag is out of range; tag 0 at the start, no gaps, the last frame ends with the pool |
| SrbAddress.ArbitraryReply | ArcMSRControllerIO.cpp:338-344 | any reply word passes both checks iff its address is in the pool and the pool ends below 4GB, and then gives the frame it falls in; the end address passes the first check only; with a pool ending at 4GB nothing passes |
| SrbAddress.ReplyIsNotSentinel | ArcMSRSCSI.cpp:199-203 | a reply with bit 31 clear is never taken for an empty queue |
| SrbAddress.ErrorFlagCarries | ArcMSRSCSI.cpp:202-230 | the error flag is bit 28, and the driver sees it iff the adapter set it, whatever the address bits |
| SrbTags.WordInsert | ArcMSRController.cpp:110-116 | in a ring of 4*maxSRB+1 bytes a word fits iff fewer than maxSRB are queued, and never fills it exactly |
| SrbTags.WordRemove | ArcMSRUtils.cpp:301-308 | on a ring of whole words a removal takes the oldest word or nothing, never part of one |
| SrbTags.TagPool.FillFreeList | ArcMSRController.cpp:110-116 | the start-up loop never fails and leaves 0..maxSRB-1 in order |
| SrbTags.TagPool.GetTag | ArcMSRController.cpp:285-297 | -1 iff no tag is free, otherwise the tag free longest |
| SrbTags.TagPool.ReturnTag | ArcMSRController.cpp:301-306 | the tag goes to the end of the list; with all tags queued it is dropped silently |
| SrbProtocol.StepKeeps | ArcMSRSCSI.cpp:100-296 | every step of submission, identification, post, timeout, reply and return keeps tag partition, ownership and log, frames being apart (FrameMemory.FramesApart) |
| SrbTheorems.TagPartition | ArcMSRController.cpp:285-306 | in every run each tag is in exactly one place; the ring has room for every returned tag; none is free iff all are in use |
| SrbTheorems.CompletionsAreRight | ArcMSRSCSI.cpp:187-296 | in every run a completed task is the one last posted under the tag, and nothing else ever completed, timed out or rejected it |
| SrbTheorems.ReplyOutcome | ArcMSRSCSI.cpp:205-225 | a reply completes the last poster of its tag iff that is still outstanding, and only recycles the tag iff that timed out |
| SrbCounting.TagsShared | ArcMSRController.cpp:285-306 | in every reachable state free tags, tasks on the stack's list, tags abandoned by timed-out tasks and the tag on its way back add up to maxSRB |
| SrbCounting.RequestOverrun | ArcMSRSCSI.cpp:107-113 | in every run a request is rejected iff listed tasks, abandoned tags and the returning tag are maxSRB together; abandoned tags are at most the tasks given up on, so a stack with fewer than maxSRB tasks listed or given up on, and no tag on its way back, is never turned away |
| SrbCounting.OverrunAfterTimeouts | ArcMSRSCSI.cpp:110-113 | for every maxSRB: after that many timeouts a request finds no tag although nothing is outstanding |
| SrbCounting.OverrunAfterCompletion | ArcMSRSCSI.cpp:267-270 | for every maxSRB: without any timeout, a request between a completion and the return of its tag finds none with maxSRB-1 tasks outstanding |
| ScatterGather.LengthConserved | ArcMSRSCSI.cpp:174-175 | the listed lengths add up to the segment lengths iff every segment fits in 24 bits, and never exceed them |
| ScatterGather.Srb.OutputSegment | ArcMSRSCSI.cpp:163-182 | one entry written with the segment's address and the low 24 bits of its length, the count reset by index 0 only, the large flag raised once 48+8*count > 256 |
| ScatterGather.Srb.GenPhysicalSegments | ArcMSRSCSI.cpp:136-139 | after k segments the list has their addresses and lengths in order (lengths exact iff below 2^24), the rest is untouched, the count is k (unchanged for none) and the large flag is up iff it was or 48+8k > 256 |
| ScsiPath.ScsiController.constructor | ArcMSRController.cpp:96-117 | the pool is set up with every tag free |
| ScsiPath.ScsiController.ProcessParallelTask | ArcMSRSCSI.cpp:100-158 | rejected without change iff no tag is free; else every field of the oldest tag's SRB, its segments' addresses and lengths, the identifier and the post word are those of the request, every other SRB is unchanged; in every reachable state this is the protocol's submission, identification and post |
| ScsiPath.ScsiController.HandleResponse | ArcMSRSCSI.cpp:201-271 | one round: a reply that names no frame changes nothing; otherwise the tag is returned, and a task is completed only if it is listed for the target, LUN and frame of that SRB, with the outcome of that SRB's report |
| ScsiPath.OutcomeMeans | ArcMSRSCSI.cpp:228-267 | in terms of the adapter's error flag and report: transfer count confirmed iff no error; sense data iff check condition; delivery failure iff one of the three failure codes; otherwise the device's own status, so good iff no error or device status 0 |
| ScsiPath.OutcomesTellApart | ArcMSRSCSI.cpp:231-258 | of two flagged replies the stack sees different statuses iff the device statuses differ, except aborted and init failure |
| ScsiPath.ScsiController.HandlePostQueueInterrupt | ArcMSRSCSI.cpp:187-272 | from every reachable state the loop empties the queue: all tags of the replies are free again in order, the tasks last posted under them are off the list and the stack is told their outcomes in order |
| ScsiPath.RoundIsProtocol | ArcMSRSCSI.cpp:205-270 | a round is the protocol's handling and return, and tells the stack the outcome of the last poster of the tag if outstanding |
| ScsiPath.DrainIsProtocol | ArcMSRSCSI.cpp:187-272 | from every reachable state the whole loop is one protocol round for each queued reply, none of which is taken for the end of the queue or affected by the ones before |
| ScsiPath.BadReplyIsSkipped | ArcMSRSCSI.cpp:205-215 | a reply that names no frame is skipped and the ones behind it are handled as without it |
| ScsiPath.SubmissionIsProtocol | ArcMSRSCSI.cpp:107-155 | an accepted submission is the protocol's start, identification and post |
| ScsiPath.CallIsSubmission | ArcMSRSCSI.cpp:100-158 | whatever reachable state the driver is called in, accepted or rejected, its effect is that of the protocol's events |
| ScsiPath.SubmissionIsSound | ArcMSRSCSI.cpp:147-148 | in every reachable state the driver may be called: with the new task listed, identifiers are still unique and none is that of a free frame |
| ScsiPath.StackIsSound | ArcMSRSCSI.cpp:147-148 | in every reachable state identifiers tell tasks apart and no free tag's frame identifies a task |
| FrameMemory.FramesApart | ArcMSRController.cpp:99-107 | SRBs with k entries stay out of each other's frames and within both ends of the block iff 48+8k <= sizeSRB; for the longest list iff sizeSRB >= 352 |
| FrameMemory.OtherFramesKept | ArcMSRSCSI.cpp:116-177 | writing an SRB that its frame covers puts it there whole and changes no byte of any other frame |
| FrameMemory.SmallFrameOverwritesNext | ArcMSRSCSI.cpp:174-175 | in smaller frames the entry that begins where the frame ends replaces the next SRB's target and LUN by bytes of its length |
| FrameMemory.SmallFramesHappen | ArcMSRControllerIO.cpp:104 | two frames of 256 bytes and 27 segments do it, in a pool that passes every check |
| FrameMemory.OverwrittenFrame | ArcMSRSCSI.cpp:217-225 | a task in flight whose frame was overwritten is completed by its reply iff the frame still names its target and LUN; otherwise only the tag is freed |
| Targets.ScsiTargetRoundTrip | ArcMSRSCSI.cpp:39-41 | flattening and the two un-flattening macros are inverse, for 8 LUNs a target; 16 targets are the numbers 0 to 127 |
| EventSource.ArcMSREventSource.AddNotification | ArcMSRUtils.cpp:353-367 | whatever the mask asks for is noted, rescan and other requests apart; the timer is armed only if the handler is not running |
| EventSource.RescanIsBitZero | ArcMSRUtils.cpp:398-411 | a rescan is asked for by bit 0 of a mask, anything else by the other 31 |
| DeviceMaps.BitIs | ArcMSRSCSI.cpp:371-381 | LUN 0 to LUN 7 are the bits 0x01 to 0x80 of a target's byte |
| DeviceMaps.UnitsAre | ArcMSRSCSI.cpp:371-385 | SCSI target number id is a unit of a map iff bit id%8 of byte id/8 is set |
| DeviceMaps.OneDiskUnits | ArcMSRSCSI.cpp:371-376 | the map with one disk has exactly the unit 8*target+lun |
| EventSource.ArcMSREventSource.HandlerDone | ArcMSRUtils.cpp:379-396 | done iff nothing at all is requested, and then the handler stops counting as running |
| EventSource.ArcMSREventSource.TargetRescan | ArcMSRUtils.cpp:398-411 | reports and takes the rescan request, leaving others |
| DeviceMaps.ScanLunInStep | ArcMSRSCSI.cpp:371-385 | a LUN step creates only absent and destroys only present targets, brings one more LUN into step, and touches no target number but 8*target+lun |
| DeviceMaps.DeviceScanner.RescanTarget | ArcMSRSCSI.cpp:369-389 | the inner loop brings the target's units to the bits of the snapshot, leaves all others, and saves the snapshot |
| DeviceMaps.DeviceScanner.TargetRescan | ArcMSRSCSI.cpp:357-391 | without interference the scan ends with equal maps and the stack at exactly the map's units |
| DeviceMaps.DeviceScanner.HandleMessageInterrupt | ArcMSRControllerIO.cpp:221-252 | a config message replaces the update and asks for a rescan iff its map differs from the current one; other messages do nothing |
| DeviceMaps.DeviceScanner.AsyncEventHandler | ArcMSRController.cpp:354-363 | without interference the loop serves the request, ends, and marks the handler idle |
| RescanProtocol.StepKeeps | ArcMSRSCSI.cpp:357-391 | every interleaved step keeps one handler, the mirror and the coalescing count |
| RescanTheorems.DeviceSetMirror | ArcMSRSCSI.cpp:357-391 | in every interleaving the present targets are the map's units, except that passed LUNs of the scanned target follow the snapshot; no create while present, no destroy while absent |
| RescanTheorems.Notifications | ArcMSRUtils.cpp:353-411 | a request implies a running handler; one activation at most; n notifications start at most n scans; no request pending iff every notification has a later scan start |
| RescanTheorems.Convergence | ArcMSRSCSI.cpp:357-391 | with no message in progress or arriving, scanner runs are bounded, never stuck, and end with map equal to update iff the start state was on course |
| RescanTheorems.WholeMessageEffect | ArcMSRControllerIO.cpp:238-247 | the message steps alone do what the interrupt handler does |
| RescanTheorems.MessageOutcome | ArcMSRControllerIO.cpp:238-247 | such a message gets its way unless it equals the current map while an unsaved snapshot differs and no rescan is pending |
| RescanTheorems.IdleMessageConverges | ArcMSRController.cpp:354-363 | a message handled while the handler is idle ends, within 203 scanner steps, in its map and exactly its units |
| RescanTheorems.OneDiskAppears | ArcMSRSCSI.cpp:357-391 | a message with one disk, handled while idle, ends with the target 8*target+lun and no other |
| RescanTheorems.ScanTakes | ArcMSRSCSI.cpp:363-390 | an undisturbed scan takes exactly 32 steps and 9 more for each changed target: unchanged targets are not scanned |
| RescanTheorems.InterleavedMessage | ArcMSRControllerIO.cpp:238-247 | a message in any interleaving with the scanner gets its way iff some byte was compared different, or no byte was compared equal while the scanner held an unsaved different snapshot of its target with no rescan pending |
| RescanTheorems.RevertMidScanIsMissed | ArcMSRSCSI.cpp:365-388 | in every state with such a snapshot and no rescan pending, a message equal to the current map asks for nothing and the scanner ends with another map, until a later message |
| RescanTheorems.SnapshotReached | ArcMSRSCSI.cpp:365-368 | such a state is reached as soon as a first disk appears |

## Left out

- Hardware plumbing: PCI mapping, memory barriers, byte order of registers and segment entries, firmware polling, interrupt masks, the intstatus dispatch.
- Kernel services: memory descriptors are byte arrays, the stack's task list is a map, sleeping and waking are events; whether woken threads are scheduled fairly is not modelled.
- The read timer's action is declared with one parameter more than a timer passes, and looks its owner up in that parameter; the model takes it to wake the readers.
- The clock: a timer may fire at any time after it is set, so how long a wait lasts is not modelled.
- ScatterGather.Srb: its reserved fields, and the debug check of the command block against the segment list.
- HandleTimeout and task management: the driver's versions do nothing; a timeout is the stack dropping the task.
- RingBuffers.RingBuffer.InsertDescriptor: calls the raw-pointer insert, as does RemoveDescriptor its counterpart; the source repeats the code with another copy primitive.
- RingBuffer inserts and removes of 8 and 16 bits: unused, and the same as the 32-bit ones.
- MQFlags and the SRB flags are kept as one boolean per bit.
- CTLinit acknowledging a message found at start-up, before the queues exist.
- DeviceMaps.DeviceScanner.AsyncEventHandler: with no request but rescan, as the driver makes no other; nothing would clear another one, and the handler would loop for ever.
- The user client, exclusive access flag, ArcTerminal, debug output, registry properties and power management.
