# Verified model of the CAN logger firmware

This project models, in Dafny, the parts of the firmware whose behaviour is decided by several functions
together, and proves what the documentation and the tests promise of them. `dafny verify dfyconfig.toml`
verifies the whole project.

Three layers recur. The algorithms that change state step by step are classes and methods over arrays and
fields, proved against functions on values. Those functions are then studied as state machines: one ring
call, one flash operation or one card response is one step, the environment chooses freely, and the main
results hold for every run. For every point in the list of differences below, the exact condition under which the
code keeps the promise is proved, and a run or an input is given on which it does not.

* **Logging pipeline.** `ByteRing` is the byte ring; `CanLogBuffer` the staging buffer over it; `LogSteps` the same
  code cut at its ring calls; `LogSystem` the producer and the SD task interleaved at those cuts, with a card that may
  fail any store; `LogScenarios` runs of it in which a promise fails; `LogCalls` what one undisturbed call means;
  `IngressCounts` the frame counter in the block headers; `FileRing` the ring of log files; `SdTask` the drain loop;
  `LogEntries`, `BlockFormat` and `HostDecoder` the wire format and the host tools; `HostFiles` the host on the files
  of the ring.
  Block size and number of blocks are parameters; the ring is a whole number of blocks.
* **Receive path.** `RxRing`, `MsgPort`, `SequenceChecker`, `LossAccounting` and `ReceivePath` follow a frame from its
  number in the interrupt to the logger's loss counters. `Timestamp` reconstructs arrival times.
* **Firmware update.** `Fnv`, `Flash` and `FlashAdapter` are the hash, the flash driver and the writer's storage
  callbacks; `IapSession` the update session on values and `IapWriter` the writer; `Iap` the background verification
  and its runs; `IapUpload` what a caller may count on; `IapVerdict` what a verdict says about the slot; `Handoff` the
  one-shot apply request across reboots and power cuts.
* **Stand-alone algorithms.** `TraceRecorder`, `BitTiming`, `SdErase` and `CompareTraces`.

`Wire` and `Runs` hold words, remainders and runs of a transition relation.

What is assumed: a flash operation that fails or is cut off may leave anything the cells allow (for the handoff
marker: an erase only sets bits, programming only clears bits); the message buffer is a bounded queue of whole
pages; a stored block goes to the card as a whole or not at all; clock values, card responses and flash
results are inputs chosen freely.

Where the code and its documentation differ, the model follows the code:

* The nominal `CANFD_GetPrescaler` mask takes in the lowest bit of the jump width field, so with a prescaler up to 256
  an even jump width is read back as a prescaler 256 too large (`BitTiming.NominalMeaning`,
  `BitTiming.EvenJumpWidthMisreads`).
* The bit timing search cuts segment 1 to eight bits before it looks at it, so with more than 256 quanta before the
  sample point, or 128 after it, it accepts a timing whose segments do not make up the bit
  (`BitTiming.SegmentsAddUp`, `BitTiming.LongBitIsCut`).
* `IapWriter_Begin` does not drop an earlier verdict. A session closed while VERIFIED stands is reported as verified
  unread; no other call makes VERIFIED stand for an image that was not read through (`Iap.VerdictKeptExactly`,
  `Iap.StaleVerdictHappens`). And from the moment the session begins the image that was verified is no longer whole in
  the slot, although a request to apply it, which asks for VERIFIED alone, still goes ahead
  (`IapVerdict.ImageKeptExactly`, `IapVerdict.ErasedUnderVerdict`).
* The bootloader ignores whether its clear of the apply request worked; if it did not, the same record is acted on
  again (`Handoff.ActedOnAgain`, `Handoff.ActedTwice`).
* The flush of the message port is there so that no frame is lost when reception stops. If the message buffer is full
  it waits, without a timeout, for a page to be read, and the task that reads is the task that waits: it does not come
  back, and nothing received meanwhile is delivered (`MsgPort.Port.Flush`, `MsgPort.Port.ReceiveWhileBlocked`,
  `MsgPort.FlushWaitsForever`). Its branch for a failed send, which counts frames as dropped that it keeps, is
  unreachable with the firmware's settings, and without it the books of the port balance (`MsgPort.Port.Accounts`).
* A block that holds only its header and padding is turned down by `ReadNextBlock` for ever, and everything behind it
  stays in the ring. Such a block can come up exactly with blocks of at most 275 bytes, in a ring of more than one
  (`LogScenarios.ReadableExactlyWhenRoomy`, `LogScenarios.SmallBlocksFail`).
* A failed store uses up a block counter, so by default the host stops reading a card at the next block; the check is
  by an 8-bit counter, so 256 failures in a row go unnoticed (`HostDecoder.HostSeesAcceptedEntries`,
  `LogScenarios.FailuresBetweenBlocks`).
* The host joins the log files whole, in the order of their numbers. Once the ring of files has come round, the block
  behind the newest one is what is left of the lap before, and the host tells the two apart by the same counter: if
  there is no gap before, it stops behind the newest exactly when the stores of a lap back, failed ones included, are no
  multiple of 256, and never when told to go on over gaps. In the default ring, 640 files of 160 blocks, a lap without
  failures is one, and the host reads on from the newest block into the oldest (`HostFiles.FullFilesRead`,
  `HostFiles.RingCrosses`, `HostFiles.DefaultRingCrosses`).

And the monotonic correction of arrival times never changes one (`Timestamp.CorrectionNeverFires`): what is put nearest
to the service time is never as far behind the last value as the correction asks for. So a frame that arrived before the
one reported last is reported at the time it arrived, like any other (`Timestamp.RunsAreExact`).

## Model

| member | source | states |
|---|---|---|
| ByteRing.LwRb.Write | app/services/logging/CanLogBuffer.c:29-105 | the ring takes as many bytes as it has free, in order, and keeps one byte free: pointers and array refine a sequence |
| ByteRing.LwRb.Skip | app/services/logging/CanLogBuffer.c:479-505 | skipping removes the oldest bytes, at most what is there |
| ByteRing.LwRb.Peek | app/services/logging/CanLogBuffer.c:404-436 | a peek returns the bytes after the skipped ones, across the wrap, and moves no pointer |
| ByteRing.LwRb.LinearRegion | app/services/logging/CanLogBuffer.c:438-470 | the bytes at the linear read address are the oldest unread ones |
| BlockFormat.DecodeIsExact | app/services/logging/CanLogBuffer.c:404-464 | entries are gapless and decoding loses nothing: the decoded entries end to end, then the rest, are the bytes |
| BlockFormat.DecodeConcat | app/services/logging/CanLogBuffer.c:404-464 | well-formed entries end to end followed by padding decode to exactly those entries, and what is left over is exactly the padding |
| BlockFormat.AppendEntry | app/services/logging/CanLogBuffer.c:86-99 | writing an entry after the last one adds it to the decoded entries and nothing else |
| BlockFormat.AppendPadding | app/services/logging/CanLogBuffer.c:107-146 | padding after the last entry changes no decoded entry |
| BlockFormat.EntriesCoverBytes | app/services/logging/CanLogBuffer.c:438-450 | no entry is decoded exactly when the rest is everything, which is what the reader tests for an empty block by |
| BlockFormat.HeaderRoundTrip | dev/measurements/log_parser.py:95-158 | the host reads back every header field the firmware writes, whatever follows |
| LogEntries.FrameRoundTrip | app/services/logging/CanLogManager.c:1824-1852 | the host reads back every field of a frame entry, flags included |
| LogEntries.SyncRoundTrip | app/services/logging/CanLogManager.c:2069-2085 | a sync entry carries the frame's low word and the clock's high word |
| BlockRing.Append | app/services/logging/CanLogBuffer.c:34-104 | a write that fits the open block changes the meaning of the open block only; no entry crosses a block boundary |
| BlockRing.OverwriteHeader | app/services/logging/CanLogBuffer.c:452-468 | filling in the header slot in place changes no decoded entry |
| LogSteps.ProducerCallIsDetermined | app/services/logging/CanLogBuffer.c:29-146 | the producer code alone, one ring call at a time, has one outcome |
| LogSteps.ConsumerCallIsDetermined | app/services/logging/CanLogBuffer.c:312-477 | likewise for the reader |
| LogSteps.ProducerPasses | app/services/logging/CanLogBuffer.c:34-104 | one pass of the AddEntry loop in closed form: header, padding or the entry itself |
| LogSteps.ReadyInTwoSteps | app/services/logging/CanLogBuffer.c:148-182 | IsBlockReady answers yes exactly when a whole block lies at the read pointer without wrapping |
| CanLogBuffer.Buffer.AddEntry | app/services/logging/CanLogBuffer.c:29-105 | the method terminates and takes the producer machine from its first step to the status it returns |
| CanLogBuffer.Buffer.FillBlockWithPadding | app/services/logging/CanLogBuffer.c:107-146 | likewise for filling up the open block; `LogCalls.FlushMeaning` says what that run comes to |
| CanLogBuffer.Buffer.IsBlockReady | app/services/logging/CanLogBuffer.c:148-182 | returns whether a block is ready in the machine's sense, changing nothing |
| CanLogBuffer.Buffer.WalkBlock | app/services/logging/CanLogBuffer.c:404-436 | the walk over the entries takes the reader machine from its first walking step to its end |
| CanLogBuffer.Buffer.ReadNextBlock | app/services/logging/CanLogBuffer.c:312-477 | takes the reader machine from its start to a block handed out or to failure; `LogCalls.ReadCallMeaning` says what that run comes to |
| CanLogBuffer.Buffer.Consume | app/services/logging/CanLogBuffer.c:479-508 | skip and reset check, as the machine has them |
| LogCalls.AddEntryIsAllOrNothing | app/services/logging/CanLogBuffer.c:29-105 | AddEntry adds exactly its entry on OK and nothing on buffer full, although padding or a header may have been written; these are its only answers |
| LogCalls.AddEntrySucceedsExactly | app/services/logging/CanLogBuffer.c:34-104 | AddEntry takes the entry exactly when a block can hold it and there is room for it, padding of the open block and a new header included |
| LogCalls.FlushMeaning | app/services/logging/CanLogBuffer.c:107-146 | a flush answers OK exactly if nothing is open or the rest of the open block is free; then the block is closed by that many bytes of padding and no entry changes, otherwise nothing does |
| LogCalls.ReadCallMeaning | app/services/logging/CanLogBuffer.c:312-477 | reading a ready block hands it out exactly described, with the frame counter of that moment in its header, unless it holds no entry, and changes only its header |
| LogCalls.ShortCallMeaning | app/services/logging/CanLogBuffer.c:312-402 | with less than a block staged, reading fails and changes nothing |
| LogCalls.ConsumeCallMeaning | app/services/logging/CanLogBuffer.c:479-508 | consuming removes the head block, keeps the reader aligned and never resets the ring |
| LogCalls.FailedStoreIsReadAgain | app/services/logging/CanLogManager.c:2044-2055 | a failed store consumes nothing: the block is still ready, and the next read hands out the same entries with the counter one on |
| LogSystem.EveryActionKeeps | app/services/logging/CanLogBuffer.c:29-508 | every ring call of either task, every store result and every new call keeps the system invariant |
| LogSystem.Lossless | app/services/logging/CanLogManager.c:1991-2067 | for every interleaving and every pattern of failed stores, accepted entries = entries on the card followed by entries in the ring, in order, once each |
| LogSystem.FrameCountsAgree | app/services/logging/CanLogBuffer.c:438-450 | FrameCount1 = FrameCount2 + frame entries in the ring, in every reachable state |
| LogSystem.DefensiveBranchesAreDead | app/services/logging/CanLogBuffer.c:337-400 | the reader stays block-aligned; its realignment, its padding of a partial block, the write errors and the ring reset are never reached |
| LogSystem.InFlightIsStable | app/services/logging/CanLogManager.c:1991-2067 | from ReadNextBlock to the end of the store no producer step, however stale its samples, changes a byte of the block, which does not wrap |
| LogSystem.StoredBlocksAreDescribed | app/services/logging/CanLogBuffer.c:438-468 | every stored block's fill, entry count and block counter are exact |
| IngressCounts.StoredIngressCounts | app/services/logging/CanLogBuffer.c:452-464 | in every run the frame counter in a stored block is, modulo 2^32, the number of frames in a beginning of what was accepted that contains all entries of the card up to that block |
| LogSystem.ReadFailsOnlyOnEmptyBlock | app/services/logging/CanLogBuffer.c:438-450 | a ready block is turned down exactly when it holds no entry, and then stays in front of the reader |
| LogSystem.ReadyBlocksAreReadable | app/services/logging/CanLogBuffer.c:29-146 | with blocks above 275 bytes no reachable state has a ready block that cannot be read |
| LogScenarios.SmallBlocksFail | app/services/logging/CanLogBuffer.c:29-146 | for every ring of at least two blocks that one entry can fill, a run to a ready block that cannot be read |
| LogScenarios.ReadableExactlyWhenRoomy | app/services/logging/CanLogBuffer.c:29-146 | no run turns a ready block down exactly when blocks are above 275 bytes or the ring is a single block |
| LogScenarios.BlocksStored | app/services/logging/CanLogManager.c:1991-2067 | for every n a run that stores n blocks, none of them failing |
| LogScenarios.FailuresBetweenBlocks | dev/measurements/log_parser.py:414-432 | for every block size that holds an entry and every n a run with n failed stores between two stored blocks, of which the host by default yields both if n is a multiple of 256 and else only the first |
| HostDecoder.WalkEntries | dev/measurements/check_frame_sequence.py:447-494 | the offset loop visits the entries of the valid part of a block and counts those of known type |
| HostDecoder.AllKnownAreCounted | dev/measurements/check_frame_sequence.py:447-496 | if every visited entry has a known type, the host's count is the number visited |
| HostDecoder.StepsOverAnyType | dev/measurements/check_frame_sequence.py:447-494 | the host visits entries of any type, known or not, and stops at what it cannot step over |
| HostDecoder.HostVisitsWhatWasWritten | dev/measurements/check_frame_sequence.py:402-496 | on an exactly described block the host visits exactly the entries written, and counts as many as the header says |
| HostDecoder.IterBlocks | dev/measurements/log_parser.py:359-459 | the generator, in its default mode and with abort_on_gap or continue_on_gap: the blocks it yields, and whether it raises |
| HostDecoder.HostStopsAtFirstBreak | dev/measurements/log_parser.py:414-432 | on a card of the firmware the host yields the blocks up to the first break of the counter chain, or all of them if told to go on, and raises exactly at a break when told to |
| HostDecoder.HostTakesUnbrokenChains | dev/measurements/log_parser.py:414-432 | the host takes every stored block exactly when it goes on over gaps or the failed stores between neighbours are multiples of 256 |
| HostDecoder.NoFailureNoGap | dev/measurements/log_parser.py:414-432 | with no failed store the chain passes the check in any mode, for any number of blocks |
| HostDecoder.HostSeesAcceptedEntries | dev/measurements/check_frame_sequence.py:402-496 | of the stored blocks end to end, as files that have not come round hold them, through the gap check and the entry walk: what the host reads is the beginning of what was accepted, and with the ring after it all of it exactly when it goes on over gaps or the failed stores between neighbours are multiples of 256 |
| HostFiles.ReadsBlocks | dev/measurements/log_parser.py:359-459 | what the host yields of blocks end to end and of whatever follows them: all of the former and then of the latter, or as many as chain |
| HostFiles.FirstLapRead | dev/measurements/log_parser.py:488-518 | before the files have been full the host yields exactly the blocks stored when it finds no gap among them, or goes on over gaps, and does not take what lay on the card behind the last of them |
| HostFiles.FullFilesRead | dev/measurements/log_parser.py:488-518 | from then on, with what the files hold: it stops behind the newest block exactly when it does not go on over gaps, the current lap has none, and the stores of a lap back, failed ones included, are no multiple of 256 |
| HostFiles.CrossesIntoStale | dev/measurements/log_parser.py:419-432 | where a lap is a multiple of 256 blocks and no store has failed, in every mode the host yields the whole files, the current lap and behind it the older one, without a gap |
| HostFiles.RingCrosses | app/services/logging/CanLogManager.c:930-1001 | for every such ring a run, with no failed store, after which the host yields the newest block and behind it those from a lap before |
| HostFiles.DefaultRingCrosses | app/services/logging/CanLogManager.h:28-30 | the default ring is one of these |
| HostFiles.HostSeesNewestEntries | dev/measurements/check_frame_sequence.py:402-496 | end to end through the ring of files, in every run: entries of older laps, then what the host reads, then the ring are what was accepted exactly when the host stops behind the newest block |
| HostFiles.HostSeesWholeLap | dev/measurements/check_frame_sequence.py:402-496 | the same at the end of a lap, where it is exactly when there is no gap in the lap or the host goes on over gaps |
| FileRing.BlocksForIsCeiling | app/services/logging/CanLogManager.c:930-950 | a file takes its size in blocks, rounded up |
| FileRing.FullAt | app/services/logging/CanLogManager.c:944-947 | the size test succeeds exactly at that many blocks |
| FileRing.Rotate | app/services/logging/CanLogManager.c:948-966 | a full head file joins the finished ones in ring order, and after a full circle the oldest gives way |
| FileRing.StoreKeeps | app/services/logging/CanLogManager.c:2016-2043 | one stored block, with the rotation check, keeps the newest blocks readable |
| FileRing.KeepsTheNewest | app/services/logging/CanLogManager.c:930-1001 | reading from tail to head gives the newest blocks, contiguous and in order: all of them until count * per blocks have been stored, and from then on the last (count - 1) * per and the remainder |
| FileRing.FilesHoldLaps | app/services/logging/CanLogManager.c:930-1001 | all files whole, in the order of their numbers: the blocks of the current lap up to the newest and, once the files have been full, behind them what is left of the lap before |
| FileRing.LogFiles.CheckNewFile | app/services/logging/CanLogManager.c:930-1001 | the index arithmetic of the rotation: head, tail, wrapped flag and position |
| FileRing.LogFiles.Store | app/services/logging/CanLogManager.c:1907-1989 | after any history of stores the files and indices are those of the rotation applied block by block |
| SdTask.BlockMoves | app/services/logging/CanLogManager.c:2031-2043 | moving the head block from ring to files moves its entries and nothing else |
| SdTask.FilesHoldTheNewestEntries | app/services/logging/CanLogManager.c:1907-2067 | in every concurrent run the files read out the blocks stored last, and overwritten entries, entries in the files and entries in the ring are what was accepted |
| SdTask.Task.StoreBlock | app/services/logging/CanLogManager.c:1991-2067 | on success exactly the head block moves to the files, exactly described, and its frames are counted out; on failure, also for want of a whole block, nothing moves; logged entries are conserved |
| SdTask.Task.ActionHook | app/services/logging/CanLogManager.c:2087-2111 | the drain loop terminates, conserves the logged entries, and stores every whole block up to the first that the card does not take or that holds no entry |
| SdTask.AlignedIsReady | app/services/logging/CanLogBuffer.c:148-182 | at a block boundary a block is ready exactly when a whole one is staged |
| RxRing.RingBuffer.Put | platform/drivers/buffers.h:144-172 | appends to a bounded queue, or refuses when full; head = (tail + count) mod length |
| RxRing.RingBuffer.Reserve | platform/drivers/buffers.h:119-142 | reserving adds a slot at the end for the caller to fill |
| RxRing.RingBuffer.Pop | platform/drivers/buffers.h:201-233 | removes the oldest element |
| RxRing.RingBuffer.Count | platform/drivers/buffers.h:48-59 | count, full flag and indices agree with the queue's length |
| RxRing.RingBuffer.PeekAt | platform/drivers/buffers.h:63-83 | the element at a position of the queue, or nothing beyond it |
| MsgPort.NextPage | platform/ports/fdcan_msg_port.c:161-178 | taking the next page off the buffer leaves the frames still to be read as they are |
| MsgPort.TakeFrame | platform/ports/fdcan_msg_port.c:180-186 | reading hands out the first of them |
| MsgPort.Port.Receive | platform/ports/fdcan_msg_port.c:94-128 | a frame is appended to those pending, or dropped and counted when page and buffer are full |
| MsgPort.Port.Read | platform/ports/fdcan_msg_port.c:155-190 | frames come out in the order they were taken |
| MsgPort.Port.Flush | platform/ports/fdcan_msg_port.c:192-216 | the open page is queued exactly when it is empty or the buffer has room; without room the task waits for ever, or, where sends time out or the buffer holds no page at all, the send fails and frames are counted as dropped that are kept |
| MsgPort.Port.ReceiveWhileBlocked | platform/ports/fdcan_msg_port.c:94-128 | while the flush waits, the frames handed over fill the open page, the rest is dropped and counted, and the flush goes on waiting |
| MsgPort.Port.Accounts | platform/ports/fdcan_msg_port.c:94-216 | offered = read + pending + dropped exactly when no flush of a non-empty page has failed, and so always where a flush waits without limit |
| MsgPort.FlushWaitsForever | platform/ports/fdcan_msg_port.c:192-216 | a port of any size, with its buffer full and one more frame in the open page, whose flush does not return |
| SequenceChecker.Checker.CheckSequence | platform/Common/Src/SequenceChecker.c:45-103 | adds the exact gap, modulo the wrap index, to a saturating count |
| SequenceChecker.Checker.GetMissingCount | platform/Common/Src/SequenceChecker.c:105-120 | returns the count |
| SequenceChecker.Checker.Reset | platform/Common/Src/SequenceChecker.c:122-144 | clears the count and continues from the given index |
| LossAccounting.Poll | app/services/logging/CanLogManager.c:2473-2559 | one poll adds each channel's saturated missing total and moves its index to the last frame seen |
| LossAccounting.PollAll | app/services/logging/CanLogManager.c:2473-2559 | over any number of polls each channel counter of missing frames grows by what the polls skip, poll by poll saturated |
| LossAccounting.SkippedIsTruncated | platform/Common/Src/SequenceChecker.c:45-103 | frames seen plus gaps counted never exceed the true numbers and equal them exactly when every gap is below 2^32 |
| LossAccounting.LossesAreCounted | app/services/logging/CanLogManager.c:2473-2559 | over any number of polls, resets and wraps, frames seen and what PollAll counts as missing add up to the true number of the last frame exactly when gaps and poll totals fit 32 bits |
| ReceivePath.OrderAfterPut | platform/drivers/CanAbs/CanAbs.c:795-818 | numbering before the receive ring keeps each channel's numbers rising |
| ReceivePath.OrderAfterMove | app/cores/cm7/Src/CanBridgeTask.c:41-57 | moving or dropping a frame between ring and port keeps them rising |
| ReceivePath.Path.Receive1 | platform/drivers/CanAbs/CanAbs.c:795-826 | the number advances whether or not the ring takes the frame |
| ReceivePath.Path.DeliveredRise | platform/drivers/CanAbs/CanAbs.c:795-818 | delivered frames of a channel carry strictly rising numbers |
| ReceivePath.Path.Conservation | platform/drivers/CanAbs/CanAbs.c:811-826 | frames numbered = delivered + under way + counted as dropped, exactly when no flush of a non-empty page has failed; where a flush waits without limit none has |
| ReceivePath.LoggerCountsEveryLoss | app/services/logging/CanLogManager.c:2473-2559 | end to end: whatever is lost on the way and however deliveries fall into polls, the counters of a channel, received plus missing, are the number of the last frame, exactly when gaps and totals fit 32 bits |
| Timestamp.ReconstructFullTimestamp | platform/drivers/CanAbs/CanAbs.c:651-705 | the method computes the reconstruction, with 64-bit wrap-around, and updates the last value |
| Timestamp.RawIsNearest | platform/drivers/CanAbs/CanAbs.c:671-688 | for every clock value: the result is the time with that capture within half a period of the service time, modulo 2^64, and that very time exactly when it lies on the clock; at half a period the epoch of the service time is kept |
| Timestamp.RawIsExact | platform/drivers/CanAbs/CanAbs.c:640-648 | a frame serviced less than half a period from its arrival gets its arrival time |
| Timestamp.CorrectionNeverFires | platform/drivers/CanAbs/CanAbs.c:690-700 | whatever the capture, the service time and the last value, the correction changes nothing, unless the clock is within a period of its wrap |
| Timestamp.RunsAreExact | platform/drivers/CanAbs/CanAbs.c:651-705 | frames each serviced within half a period, arrived half a period or more before the clock wraps, are all reported at the very time they arrived, in order or not |
| Timestamp.CorrectionIsLeast | platform/drivers/CanAbs/CanAbs.c:690-700 | what the correction adds, where it adds something: the least multiple of the period that reaches half a period before the last value |
| Timestamp.ReportedInGeneral | platform/drivers/CanAbs/CanAbs.c:651-705 | for any service time of at least a period and a period or more before the wrap: congruent to the capture, within half a period of the service time, and never further behind a recent last value than half a period |
| Fnv.HashBytes | app/services/iap/IapWriter.c:9-21 | the loop computes FNV-1a (section 2 of draft-eastlake-fnv) continued from a seed |
| Fnv.StepCancels | app/services/iap/IapWriter.c:9-21 | the byte goes in before the multiplication: it clears the lowest byte of the hash exactly if it equals it |
| Fnv.PublishedValues | app/services/iap/IapWriter.c:9-21 | the draft's hashes of the empty string, "a" and "foobar" (appendix C of draft-eastlake-fnv) |
| Fnv.HashSplit | app/services/iap/IapWriter.c:299-301 | hashing in two pieces is hashing in one |
| Fnv.HashIsSplitIndependent | app/services/iap/IapWriter.c:299-301 | any cutting of the upload gives the hash of one pass |
| Flash.AddressCheck | platform/drivers/flash/flash.c:29-80 | an accepted range is non-empty, inside the flash, and aligned as its kind of access needs |
| Flash.AcceptedExactly | platform/drivers/flash/flash.c:29-80 | an access is accepted exactly if it is not empty, inside the flash, and aligned as its kind needs |
| Flash.WriteCheck | platform/drivers/flash/flash.c:169-187 | a write goes ahead exactly if its range is accepted and its source is not null and word aligned |
| Flash.WordProgramsMeaning | platform/drivers/flash/flash.c:161-215 | programming word by word takes its bytes out of the erased state, and is proper if they were erased |
| Flash.SectorErasesMeaning | platform/drivers/flash/flash.c:135-159 | erasing sector by sector makes exactly its range erased |
| Flash.WordStep | platform/drivers/flash/flash.c:161-215 | one more word extends one write to a longer one |
| Flash.Chip.EraseSector | platform/drivers/flash/flash.c:217-277 | bank and sector number address exactly the sector asked for |
| Flash.Chip.Erase | platform/drivers/flash/flash.c:135-159 | OK means the range was erased sector by sector and nothing else touched; a failure stays inside the range and comes from the address check or the hardware |
| Flash.Chip.Write | platform/drivers/flash/flash.c:161-215 | OK means the source was programmed word by word and nothing else touched; a failure stays inside the range and comes from the checks or the hardware |
| Flash.Chip.Read | platform/drivers/flash/flash.c:114-133 | returns what the chip holds, if the range is accepted |
| FlashAdapter.WroteJoin | app/services/iap/IapFlashAdapter.c:73-119 | two adjacent writes are one |
| FlashAdapter.ChunkStep | app/services/iap/IapFlashAdapter.c:73-119 | one more chunk extends the write so far |
| FlashAdapter.Adapter.Write | app/services/iap/IapFlashAdapter.c:38-122 | chunking through the bounce buffer leaves chip and access trace as one plain write would, and for an empty source as they were |
| IapSession.RoundUp | app/services/iap/IapWriter.c:28-50 | the least multiple of the erase size not below the image size, or overflow exactly when it does not fit 32 bits |
| IapSession.InitEstablishes | app/services/iap/IapWriter.c:109-182 | a fresh context satisfies the session invariant |
| IapSession.BeginKeeps | app/services/iap/IapWriter.c:184-249 | beginning a session, with or without the erase, keeps the invariant |
| IapSession.ChunkKeeps | app/services/iap/IapWriter.c:251-304 | so does a chunk: hash, size and slot contents stay those of the payload |
| IapSession.FinalizeKeeps | app/services/iap/IapWriter.c:306-329 | so does closing the session |
| IapSession.VerifyKeeps | app/services/iap/IapWriter.c:331-421 | so does a verification step of any size |
| IapSession.DoneMeansReadThrough | app/services/iap/IapWriter.c:331-421 | a step is done exactly at the end of the image, and then answers OK exactly when the whole image was read once, in order, and hashes like the payload; the branch for an offset beyond the image is never taken |
| IapSession.FaithfulStorageVerifies | app/services/iap/IapWriter.c:331-421 | while no storage operation has failed and the slot was not erased again, every step answers OK |
| IapSession.StepProgress | app/services/iap/IapWriter.c:331-421 | a step that is not done has moved the pass on |
| IapUpload.InitAcceptedExactly | app/services/iap/IapWriter.c:109-182 | a slot is accepted exactly if it is whole erase units of whole program units |
| IapUpload.BeginAcceptedExactly | app/services/iap/IapWriter.c:184-249 | with a slot of whole erase units, a session begins exactly if none is open and the image is whole program units and fits the slot; it erases the fewest units that hold the image, and each reason for refusing is a true one |
| IapUpload.ChunkAcceptedExactly | app/services/iap/IapWriter.c:251-289 | a chunk is accepted exactly in an open session, in sequence, in whole program units and within the image announced, and each reason for refusing is a true one |
| IapUpload.UploadSucceeds | app/services/iap/IapWriter.c:251-329 | for every image and every cutting of it into whole program units: unless the storage fails, every piece is answered OK and the session closes with exactly that image |
| IapUpload.AbortedIsOver | app/services/iap/IapWriter.c:450-468 | after an abort no chunk is taken, nothing is closed or verified, and the next session erases even a prepared slot |
| IapUpload.PollFailsExactly | app/services/iap/Iap.c:150-191 | a poll fails exactly if the image is no longer closed, the storage refuses the read, or the image is read to its end and does not match; it is VERIFIED exactly at the end of a matching pass |
| IapUpload.PollsVerify | app/services/iap/Iap.c:150-191 | on faithful storage, after k polls the verification is 256 k bytes into the image and says so, and VERIFIED from the poll on that reaches its end |
| IapUpload.UpdateSucceeds | app/services/iap/Iap.c:128-191 | the whole way, for every image and every cutting: begun, sent, closed, asked for and polled often enough, it is VERIFIED and in the slot unless a storage operation fails |
| IapWriter.Writer.Init | app/services/iap/IapWriter.c:109-182 | accepts whole erase units of whole program units, and wipes the context |
| IapWriter.Writer.Begin | app/services/iap/IapWriter.c:184-249 | the checks in order, the erase unless the slot was prepared, the new session |
| IapWriter.Writer.WriteChunk | app/services/iap/IapWriter.c:251-304 | the checks in order, the write, and hash and size only if it succeeded |
| IapWriter.Writer.Finalize | app/services/iap/IapWriter.c:306-329 | closes the session exactly when the announced size has arrived |
| IapWriter.Writer.VerifyStep | app/services/iap/IapWriter.c:331-421 | one step of the session machine, reading what the chip holds |
| IapWriter.Writer.FinalizeAndVerify | app/services/iap/IapWriter.c:423-448 | from any state of a run: terminates with measure expected size less verify offset; OK means read through with the right hash; always OK if no storage operation has failed |
| Iap.Service.VerifyPoll | app/services/iap/Iap.c:150-191 | one poll of the verification runtime |
| Iap.Service.PrepareUploadSlot | app/services/iap/Iap.c:218-250 | erases the whole slot and drops the verdict, or reports why not |
| Iap.RunKeeps | app/services/iap/Iap.c:128-250 | the session invariant holds in every run, whatever the storage does |
| Iap.VerdictKeptExactly | app/services/iap/Iap.c:128-250 | every call keeps the meaning of the verdict, whatever the storage does, except exactly a Finalize that closes a session while VERIFIED is out |
| Iap.VerifiedMeansReadThrough | app/services/iap/Iap.c:128-191 | in every run without that call, VERIFIED means that since the last Finalize the image was read once, in order, with the hash of the payload |
| Iap.ResetBeforeBeginSuffices | app/services/iap/Iap.c:128-250 | a run that begins sessions only after a reset never makes that call |
| Iap.StaleVerdictHappens | app/services/iap/IapWriter.c:306-329 | for every slot of whole sectors and every pair of images of one flash word, a run without any failure in which the second counts as verified and not a byte of it was read |
| Iap.FlashIsUsedProperly | app/services/iap/Iap.c:218-250 | in every run all accesses stay in the slot, and up to the first failure every byte programmed was erased since it was last programmed and the slot starts with the payload |
| IapVerdict.ImageKeptExactly | app/services/iap/Iap.c:128-250 | while nothing has failed and VERIFIED is out, every call leaves the image closed last in the slot, except exactly a Begin that erases, or a chunk that overwrites, part of it under VERIFIED, and a pass that ends well on a slot prepared for another image |
| IapVerdict.VerifiedMeansInSlot | app/cores/cm7/Src/Core0Task0.c:647-661 | in every run without such a call, whoever finds VERIFIED finds the image in the slot, as long as no storage operation has failed |
| IapVerdict.OrderlyCallersSuffice | app/services/iap/Iap.c:128-250 | a run that begins sessions only when no verdict is out and verifies nothing on a prepared slot makes no such call |
| IapVerdict.ErasedUnderVerdict | app/services/iap/IapWriter.c:184-249 | for every slot and every image of one flash word that is not all erased flash, a run without any failure in which VERIFIED is out and the slot is erased |
| Handoff.RaisingForgesNothing | platform/Common/Src/FwUpdateHandoff.c:80-98 | an erase that does not finish cannot make a valid record, bit by bit |
| Handoff.ProgramKeepsBits | platform/Common/Src/FwUpdateHandoff.c:139-143 | programming, finished or not, loses no bit a record needs, and finished it leaves the record |
| Handoff.StepKeeps | platform/Common/Src/FwUpdateHandoff.c:100-174 | every flash operation, answer, boot and power cut keeps the invariant |
| Handoff.SeenMeansRecorded | platform/Common/Src/FwUpdateHandoff.c:176-196 | a request is seen only if the record was programmed after the last completed erase |
| Handoff.OkMeansRequested | platform/Common/Src/FwUpdateHandoff.c:100-153 | RequestApply answering OK implies that the request stands |
| Handoff.ActivatedAtMostOncePerRecord | bootloader/mcuboot_port.c:574-603 | since the last program operation, activations and outstanding requests never exceed one more than failed clears: with working clears each record is activated at most once |
| Handoff.BoundIsReached | bootloader/mcuboot_port.c:574-603 | for every n a run from the factory state with one program operation, n failed clears and n activations, and the request still standing |
| Handoff.ActedTwice | bootloader/mcuboot_port.c:574-603 | a run with one program operation, one failed clear and two activations |
| Handoff.ActedOnAgain | bootloader/mcuboot_port.c:587-587 | a boot leaves the request standing exactly when the erase failed and set no checked bit |
| Handoff.LocatedMeansUsable | platform/Common/Src/FwUpdateHandoff.c:43-78 | a marker is accepted exactly when the flash driver would erase its sector |
| Handoff.Updater.RequestApply | platform/Common/Src/FwUpdateHandoff.c:100-153 | the code takes the machine from the running application back to it, stops at the first flash operation that fails, and answers accordingly |
| Handoff.Updater.IsApplyRequested | platform/Common/Src/FwUpdateHandoff.c:176-196 | whether a located marker holds a valid record |
| Handoff.Updater.ClearApplyRequest | platform/Common/Src/FwUpdateHandoff.c:155-174 | from the bootloader or the running application: one erase of the marker, or the reason why there is no usable one; OK means that no request stands, and none comes to stand |
| Handoff.Updater.BootActivate | bootloader/mcuboot_port.c:574-603 | an update is activated exactly if the request stood and an image is present |
| TraceRecorder.PeakIsUnique | platform/Common/Src/instrumentation.c:366-371 | a stream has one last occurrence of its maximum |
| TraceRecorder.KeptIsFirstComplete | platform/Common/Src/instrumentation.c:325-344 | recording stops at the first point where the peak has all its followers |
| TraceRecorder.NewPeak | platform/Common/Src/instrumentation.c:293-323 | a value not below the peak becomes the peak, and the window is the last PRE entries and it |
| TraceRecorder.SamePeak | platform/Common/Src/instrumentation.c:325-344 | a smaller value leaves the peak and extends the window |
| TraceRecorder.RollOn | platform/Common/Src/instrumentation.c:223-241 | storing over the oldest entry keeps the last PRE entries in order |
| TraceRecorder.NeverFull | platform/Common/Src/instrumentation.c:329-333 | the array has room while entries are still to come: the early freeze never happens |
| TraceRecorder.FrozenWindow | platform/Common/Src/instrumentation.c:293-344 | frozen, the recorder holds the last occurrence of the maximum, up to PRE entries before it and exactly POST after it |
| TraceRecorder.Recorder.StoreRolling | platform/Common/Src/instrumentation.c:223-241 | the circular buffer holds the last PRE entries |
| TraceRecorder.Recorder.LinearizePreTrigger | platform/Common/Src/instrumentation.c:243-274 | they lie in chronological order at the start of the array |
| TraceRecorder.Recorder.RecenterOnNewPeak | platform/Common/Src/instrumentation.c:293-323 | the memmove keeps the last PRE entries and puts the new peak after them |
| TraceRecorder.Recorder.StorePostTrigger | platform/Common/Src/instrumentation.c:325-344 | appends, and freezes after POST entries |
| TraceRecorder.Recorder.NotYet | platform/Common/Src/instrumentation.c:346-381 | the recorder is frozen exactly when the stream kept is complete |
| TraceRecorder.Recorder.TraceEntry | platform/Common/Src/instrumentation.c:346-381 | every entry keeps the recorder what the stream says it is |
| TraceRecorder.TraceAll | platform/Common/Src/instrumentation.c:346-381 | for every stream from start-up: the recorder stands where the kept part of the stream puts it, and frozen its array holds the window around the last of the largest values kept |
| BitTiming.OrDisjoint | platform/drivers/fdcan/fdcan_utils.c:155-169 | fields that do not overlap add up under bitwise or |
| BitTiming.OrAbove | platform/drivers/fdcan/fdcan_utils.c:164-169 | words that overlap only above a place keep what lies below it |
| BitTiming.SuitedWorks | platform/drivers/fdcan/fdcan_utils.c:119-160 | every whole division of the bit with a prescaler in range that gives the bit rate, and both parts within a byte, is one the search stops at, and its segments and jump width are the ones written, in either phase |
| BitTiming.WorksExactly | platform/drivers/fdcan/fdcan_utils.c:119-151 | for a sample point inside the bit and both parts within a byte, it stops at these and at no others |
| BitTiming.NominalDecodes | platform/drivers/fdcan/fdcan_utils.c:33-95 | what is read back of every nominal register the search can write; it is the timing written exactly when segment 2 and jump width fit seven bits and the prescaler is above 256 just for even jump widths |
| BitTiming.DataDecodes | platform/drivers/fdcan/fdcan_utils.c:33-95 | the data phase register gives a timing back exactly when both segments and the jump width fit four bits |
| BitTiming.CalculateBitTimingRegister | platform/drivers/fdcan/fdcan_utils.c:99-190 | no suitable timing is passed over: if there is one the answer is OK, with at least as many quanta, and the register written is that of the timing it settles on; it settles on the largest working count, is not OK exactly when there is none, and OK without output for a null pointer or a zero rate |
| BitTiming.TotalFits | platform/drivers/fdcan/fdcan_utils.c:125-143 | no product of the search wraps 32 bits |
| BitTiming.SegmentsAddUp | platform/drivers/fdcan/fdcan_utils.c:145-147 | the segments of an accepted timing, read back, make up the bit and give the sample point exactly when at most 256 quanta lie before it and at most 128 after it |
| BitTiming.NominalMeaning | platform/drivers/fdcan/fdcan_utils.c:99-190 | for every accepted nominal timing, in terms of what was asked for: when the decoded segments are right, when the decoded prescaler gives the bit rate, and when the jump width comes back |
| BitTiming.EvenJumpWidthMisreads | platform/drivers/fdcan/fdcan_utils.c:7-15 | 500 kbit/s from 80 MHz with jump width 2 is read back with prescaler 257 |
| BitTiming.LongBitIsCut | platform/drivers/fdcan/fdcan_utils.c:125-147 | 125 kbit/s from 80 MHz at 87.5 percent: 320 quanta are chosen and segments of 23 and 40 are written |
| SdErase.TotalBlocks512 | middleware/Sd/Sd.c:1457-1483 | the capacity in blocks, or an error exactly for other card types and for 32-bit overflow |
| SdErase.TilesCoverOnce | middleware/Sd/Sd.c:1543-1658 | ranges that tile a prefix cover each of its blocks and do not overlap |
| SdErase.ErasedRange | middleware/Sd/Sd.c:1568-1640 | three accepted commands and a ready card erase one range (section 4.3.5 of the SD Physical Layer Simplified Specification) |
| SdErase.FailedAttempt | middleware/Sd/Sd.c:1575-1612 | commands that come to nothing erase none |
| SdErase.Card.EraseAll | middleware/Sd/Sd.c:1490-1658 | for every card behaviour the loop terminates, the erased ranges tile a prefix whose length is reported if there is a pointer to report it to, and OK means the whole card; it asks for 4096 blocks at a time until the card turns one such range down and for single blocks from then on, and gives up only when the card did not get ready, did not answer, or turned down a single block too |
| CompareTraces.ExtractChannel | dev/measurements/compare_traces.py:60-74 | the loop computes the positions from the channel's ids |
| CompareTraces.KeepsTheChannel | dev/measurements/compare_traces.py:66-69 | what is kept of a trace is the frames of the channel, all of them, once each and in their order |
| CompareTraces.RecoveredExactlyForSmallGaps | dev/measurements/compare_traces.py:60-74 | the true positions are recovered, up to the first cycle, exactly when every gap is below the modulus |
| CompareTraces.FindLost | dev/measurements/compare_traces.py:91-137 | the merge-join returns the missing samples grouped into runs |
| CompareTraces.MissingExactly | dev/measurements/compare_traces.py:91-137 | missing are exactly the reference samples whose position the logger does not have |
| CompareTraces.BurstsAreTheLosses | dev/measurements/compare_traces.py:91-137 | the bursts are separate maximal runs in order and cover exactly the lost positions |
| CompareTraces.BurstTimes | dev/measurements/compare_traces.py:120-137 | a burst carries the time stamps of the first and the last frame lost in it, in terms of the frames of the reference trace |

## Left out

- The interior of `lwrb`: the byte ring is written from its contract (one byte kept free, writes capped by the free space, skips by the fill level); its sources are not part of this model.
- `CanLogBuffer_UsedSlots`, high-water marks, drop telemetry, bus load and timing maxima: telemetry without a promise.
- The reader's padding of a partial block in `ReadNextBlock`: in the state machine, where it is proved unreachable; the class leaves it out.
- File close, open and flush failures, and a sync failure after a successful write, which leaves a block twice on the card; here it counts as a failed store.
- FatFs, FreeRTOS, HAL, linker symbols, MCUboot internals: inputs or short contracts, as listed above.
- Null pointers and unregistered callbacks, except where the answer matters (`BitTiming.CalculateBitTimingRegister`, `SdErase.Card.EraseAll`, `Flash.Chip.Write`).
- A preemption between `lwrb_write` and the `FrameCount1` increment after it, or between `lwrb_skip` and the `FrameCount2` update: each pair is one step of `LogSystem`, so `LogSystem.FrameCountsAgree` says nothing of the moment between the two.
- A flush of the message port in the middle of a receive, and the other way round: each is one step of `ReceivePath`.
- The interrupt's read failure, which loses a frame before it is numbered, and a reset of the counters in the middle of a run.
- `IapIngestAdapter`, which collects bytes into program units before the writer sees them.
- The old block layout with other header sizes, marker entries other than their type, absolute host timestamps, report output and plotting.
- Recovery after a bootloader has cleared a request and is cut off before it sets the image pending: the request is lost, which the at-most-once result allows.
- Timestamp.RawIsNearest: assumes, like the other results on time stamps, that the period is at most 2^63, above which the code's signed difference can overflow.
- Timestamp.RunsAreExact: says nothing of the last half period before the clock wraps at 2^64 microseconds, nor `Timestamp.CorrectionNeverFires`, `Timestamp.CorrectionIsLeast` and `Timestamp.ReportedInGeneral` of the last period; there a sum in the correction wraps.
- HostFiles.FirstLapRead: what lies behind the newest block before the files have been full is whatever they were preallocated with; that the host would skip or trip over it is a condition, not a result.
- SdTask.Task.ActionHook: the CAN task adds nothing while the loop drains; how the two interleave is the subject of `LogSystem`.
- Handoff.Updater.RequestApply: stated for a run without a power cut; cuts between and inside its flash operations are steps of the machine.
