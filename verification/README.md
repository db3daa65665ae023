# Verified model of the QDGZ300 data plane

QDGZ300 receives radar data as UDP packets. A packet goes from the receive stage through an overwriting ring
to the reassembler, which collects the fragments of a frame under a key, and from there to the reorderer, which
delivers frames in the order of their 32-bit sequence numbers. Buffers come from a lock-free pool. Behind the
receiver, a dispatcher feeds blocks to signal processing streams, and a track manager associates the plots that
come out with tracks. A capture writer records packets in rotated pcap files.

This project models these parts in Dafny and proves what they are for: whole-run invariants, refinement of the
in-place data structures to plain ones, round trips, and safety of the two lock-free structures in every
interleaving. `dafny verify dfyconfig.toml` checks all of it.

## How the files fit together

| file | holds |
|---|---|
| `Machine.dfy`, `Protocol.dfy` | machine integers, serial numbers, bitwise operators, the wire headers |
| `ReorderModel.dfy`, `ReorderRuns.dfy`, `ReorderRing.dfy` | the reorderer over a plain map; what every run of it keeps; the ring, base index and bitmap as a class that refines the map |
| `ReassemblyModel.dfy`, `FrozenKeys.dfy`, `Assembly.dfy`, `ReassemblyRuns.dfy`, `ReassemblyCounters.dfy` | the reassembler over values; frozen keys; assembly under loss; run invariants; where every packet went |
| `FragmentLayout.dfy`, `ContextLives.dfy` | which packets are fragments and which belong together; when contexts open and close and what becomes of each packet, from the packets before it |
| `ZeroCopy.dfy`, `FaithfulFrames.dfy`, `EmptyTails.dfy`, `ReassemblerClass.dfy` | zero-copy against copying; what every emitted frame is; empty and lonely tails; the class |
| `EndToEnd.dfy`, `PipelineRuns.dfy`, `FacePipeline.dfy` | reassembler and reorderer joined by the frame callback: original frames in, original frames out; every run with timeouts and flushes; the objects |
| `PacketPool.dfy`, `PacketBuffers.dfy` | the free list under every interleaving; the pool object and the move-only handles |
| `SpscInterleaving.dfy`, `SpscQueue.dfy`, `RxStage.dfy` | the ring at load/store granularity; the queue as a class with its overwriting push; the receive stage |
| `Crc32c.dfy`, `CrcDivision.dfy` | the table-driven CRC against a shift register, and burst detection; the register against division of polynomials |
| `GpuDispatch.dfy`, `GpuDispatcherClass.dfy` | the round-robin schedule over runs; the slot table and the loop as classes |
| `PlotAssociation.dfy`, `Tracks.dfy`, `LostTracks.dfy`, `TrackLives.dfy` | greedy association; the track manager and its runs; when a lost track comes back; each track from its own plots |
| `PcapFormat.dfy`, `PcapWriter.dfy` | the file format, written and read back; queue, rotation and retention |

State that the source updates in place is a class here, and every method of it is proved equal to a function of
the old state; the lemmas about runs are about that function. Clocks, allocation failures and what other threads
do are inputs, and every statement is for all of them.

## What the code does that its description does not say

- A fragment of length zero is stored without data, so a frame with an empty tail is reported incomplete although
  all of it arrived. `ArrivalCompletesIffTail` gives the exact condition over runs, `EmptyTailIsReportedMissing` a run.
- When only the tail of a frame arrives, the length of the lost pieces is a configured guess.
  `LossNeverShiftsDataIff` says exactly when the bytes are in their places; in `TailAloneIsShifted` they are not.
- The age of a context is an unsigned difference of two readings of the system clock. `SweepClosesExactlyTheOverdue` says
  exactly which contexts a scan closes; after the clock has been set back it closes every context opened later than
  the new time, however young (`ClockSetBackClosesTheYoung`).
- A flush of the reorderer goes by raw number. `FlushOrderIsWindowOrderIff` says when that is the order of the
  window, and `FlushAcrossWrapIsOutOfOrder` gives three packets for which it is not.
- The pool's counter of free buffers lags by the releases under way. `CounterIsExactIff`: it is exact if and only if
  there is none, whatever the allocating thread is doing. `CounterCanDipBelowZero` is a run in which it stands at -1,
  that is, 2^64 - 1 in its own type.
- The pool takes back a buffer that is free already, and then has no list any more: `ReleaseKeepsListIff`.
- With a capacity of one the dropping loop of the ring never ends: `DroppingMakesRoomIff`.
- A lost track that is hit stays lost, and comes back only by missing again: `LostReturnsOverRunIff` says exactly
  when, `LostTrackComesBack` is a run in which it does.
- A hit resets the misses of a track and not its published coast_frames: `CoastFramesCurrentIff` says exactly when the two
  agree, and in `LostTrackComesBack` they do not.
- A captured packet longer than the snap length makes its whole file unreadable: `FileReadsBackIff`; and a
  timestamp survives exactly while its seconds fit 32 bits: `TimestampSurvivesIff`.
- Two things the reorderer checks for cannot happen: the slot at the base never holds a foreign number, and a bit
  is never set for another number than the one its slot holds. Both follow from the class invariant.

## Model

| member | source | states |
|---|---|---|
| `Machine.SequenceNewerIsSerialOrder` | include/qdgz300/m01_receiver/protocol/protocol_types.h:596-600 | numbers less than half the circle apart compare in exactly one direction; opposite points do not compare (section 3.2 of RFC 1982) |
| `Protocol.SpecificHeaderRoundTrip` | include/qdgz300/m01_receiver/protocol/protocol_types.h:305-318 | the 40-byte data header read from the front of a payload is the one that was laid out there |
| `Protocol.SpecificBytesRoundTrip` | include/qdgz300/m01_receiver/protocol/protocol_types.h:305-318 | any 40 bytes are the layout of the header read from them, so reading and laying out are inverse |
| `Protocol.CommonHeaderRoundTrip` | include/qdgz300/m01_receiver/protocol/protocol_types.h:198-212 | the 32-byte common header read from the front of a packet is the one that was laid out there |
| `Protocol.Popcount16` | include/qdgz300/m01_receiver/protocol/protocol_types.h:183-192 | the shifting loop counts the bits, of the sixteen, that are set |
| `ReorderRuns.RunSettles` | src/m01_receiver/pipeline/reorderer.cpp:116-165 | between calls every buffered packet is within the window and half the circle, under its own number, and the head of the window is not buffered |
| `ReorderRuns.Conservation` | src/m01_receiver/pipeline/reorderer.cpp:101-164 | in every reachable state arrivals = duplicates + delivered + buffered, output = delivered + stand-ins, and the expected number is the first one plus the advances |
| `ReorderRuns.OutputHasNoGapsOrRepeats` | src/m01_receiver/pipeline/reorderer.cpp:252-338 | with zero fill and no flush, any run delivers s0, s0+1, s0+2, ... modulo 2^32 |
| `ReorderRuns.SkippedNumbersAreTheTimeouts` | src/m01_receiver/pipeline/reorderer.cpp:268-281 | without zero fill, every run gives the gap-free output minus the stand-ins, so exactly the timeouts are skipped |
| `ReorderRuns.DeliveredPacketsArrived` | src/m01_receiver/pipeline/reorderer.cpp:167-250 | whatever is delivered as real data is, header and bytes, a packet that arrived under that number |
| `ReorderRuns.ArrivalIsFiled` | src/m01_receiver/pipeline/reorderer.cpp:167-250 | after any run, with the expected number given by the first arrival and the advances: the expected packet is delivered with its bytes, one ahead within window and half circle and not there yet is kept, any other is counted as a duplicate and changes nothing else |
| `ReorderRuns.TickStepsOverIff` | src/m01_receiver/pipeline/reorderer.cpp:252-266 | after any run a tick moves the window if and only if a packet has arrived and the whole milliseconds since the last event that moved it reach the timeout; otherwise it changes nothing |
| `ReorderRuns.FlushOrderIsWindowOrderIff` | src/m01_receiver/pipeline/reorderer.cpp:387-412 | a flush is in window order if and only if the buffered numbers are not on both sides of the wrap |
| `ReorderRuns.FlushAcrossWrapIsOutOfOrder` | src/m01_receiver/pipeline/reorderer.cpp:369-417 | a concrete run whose flush delivers 0 before 2^32 - 1 |
| `ReorderRing.Reorderer.constructor` | src/m01_receiver/pipeline/reorderer.cpp:54-61 | an empty ring of at least one slot stands for the empty buffer |
| `ReorderRing.Reorderer.BitTest` | src/m01_receiver/pipeline/reorderer.cpp:32-37 | the masked word tells bit `i % 64` of word `i / 64` |
| `ReorderRing.Reorderer.BitSet` | src/m01_receiver/pipeline/reorderer.cpp:39-44 | afterwards that bit is set and every other bit of the bitmap is as it was |
| `ReorderRing.Reorderer.BitClear` | src/m01_receiver/pipeline/reorderer.cpp:46-51 | afterwards that bit is clear and every other bit of the bitmap is as it was |
| `ReorderRing.Reorderer.InsertOwned` | src/m01_receiver/pipeline/reorderer.cpp:167-250 | ring, base and bitmap go from standing for one map to standing for the map after the insertion, for every window size |
| `ReorderRing.Reorderer.InsertCopy` | src/m01_receiver/pipeline/reorderer.cpp:65-165 | the copying entry point does the same, with an empty payload for a null pointer |
| `ReorderRing.Reorderer.CheckTimeout` | src/m01_receiver/pipeline/reorderer.cpp:252-287 | acts if and only if a packet has arrived and timeout_ms whole milliseconds have gone by since the last advance; then it is one step over the head of the map, with a stand-in if configured, and a drain |
| `ReorderRing.Reorderer.AdvanceWindow` | src/m01_receiver/pipeline/reorderer.cpp:289-338 | the loop drains exactly the run of buffered numbers at the head; its mismatch branch is unreachable |
| `ReorderRing.Reorderer.FlushAll` | src/m01_receiver/pipeline/reorderer.cpp:369-417 | everything buffered is delivered in order of raw number, and the ring stands for the empty map |
| `ReorderRing.Reorderer.CollectPending` | src/m01_receiver/pipeline/reorderer.cpp:371-385 | the listed slots are each pending packet once |
| `ReorderRing.SortBySequence` | src/m01_receiver/pipeline/reorderer.cpp:387-388 | the same entries, strictly ascending |
| `ReorderRing.TiedAdvance` | src/m01_receiver/pipeline/reorderer.cpp:278-280 | moving base and expected number together keeps every stored packet at its distance, also when the ring size does not divide 2^32 |
| `ReorderRing.OccupiedIffPending` | src/m01_receiver/pipeline/reorderer.cpp:223-236 | the bit of a number's slot is set exactly when that very number is buffered |
| `ReorderRing.HeadAtBase` | src/m01_receiver/pipeline/reorderer.cpp:293-303 | the bit at the base is set exactly when the expected number is buffered, and then its slot holds it |
| `ReorderRing.SetBitsArePending` | src/m01_receiver/pipeline/reorderer.cpp:159-164 | the bitmap, padding included, has exactly as many set bits as packets are buffered |
| `FrozenKeys.ContextsAndFrozenKeysAreDisjoint` | src/m01_receiver/pipeline/reassembler.cpp:636-675 | in every reachable state no key has both a context and a valid frozen entry, and no key has two valid entries |
| `FrozenKeys.TimedOutKeyStaysFrozen` | src/m01_receiver/pipeline/reassembler.cpp:107-121 | a timed-out key gets no context and no second frame before its expiry, unless a full ring of keys is frozen after it |
| `FrozenKeys.LateIffFrozen` | src/m01_receiver/pipeline/reassembler.cpp:105-111 | a fragment counts as late exactly when the ring holds an unexpired entry for its key, wherever it is |
| `FrozenKeys.ScanSpec` | src/m01_receiver/pipeline/reassembler.cpp:636-657 | the scan finds a key exactly when it has a valid, unexpired entry, and only retires expired ones |
| `ContextLives.SweptKeyIsFrozenExactlyUntil` | src/m01_receiver/pipeline/reassembler.cpp:552-556 | after any run, a key closed by a scan or flush gets no context and no frame, and counts as frozen exactly until the timeout after the clock reading taken for it, in any further run before that which freezes fewer keys than the ring has entries |
| `ContextLives.RingSizeIsFixed` | src/m01_receiver/pipeline/reassembler.cpp:48-52 | in every reachable state the ring has twice max_contexts entries, and at least one |
| `FragmentLayout.ParsedIffLaidOut` | src/m01_receiver/pipeline/reassembler.cpp:58-103 | a packet is taken for a fragment if and only if its payload is a header with a count in range and an index below it, a snapshot for a tail, and the bytes of the piece, of the announced length for a tail |
| `FragmentLayout.ParsedIsLaidOut` | src/m01_receiver/pipeline/reassembler.cpp:58-103 | header, snapshot and bytes found in a payload, laid out again, are that payload |
| `FragmentLayout.LaidOutIsParsed` | src/m01_receiver/pipeline/reassembler.cpp:58-103 | the header, snapshot and bytes that were laid out are what is found |
| `FragmentLayout.KeyFields` | src/m01_receiver/pipeline/reassembler.cpp:293-308 | which bytes of the packet each of the eight fields of the key comes from |
| `FragmentLayout.SameContextIff` | src/m01_receiver/pipeline/reassembler.cpp:293-308 | two packets belong to one context if and only if epoch and source agree and so do the payload bytes of frame counter, CPI, pulse, channel mask, data type and beam |
| `ContextLives.ContextsDateFromTheirOpening` | src/m01_receiver/pipeline/reassembler.cpp:329-362 | in every reachable state a context has the time, fragment count, tail length and timestamp of the arrival that opened it |
| `ContextLives.EveryContextIsWithinTheLimit` | src/m01_receiver/pipeline/reassembler.cpp:386-390 | in every reachable state the pieces of each context together are within max_reasm_bytes_per_key |
| `ContextLives.PacketsAreJudgedByWhatCameBefore` | src/m01_receiver/pipeline/reassembler.cpp:56-138 | after any run: late iff the key is frozen; overflow iff there is neither context nor room; duplicate iff its piece is there; over the limit iff a new piece and the bytes so far exceed it; kept iff new, within the limit and of the length announced by the first packet; the piece that makes the frame whole sends it out; other keys untouched |
| `Assembly.CompleteIffAllReceived` | include/qdgz300/m01_receiver/pipeline/reassembler.h:122-125 | the counter test holds exactly when every fragment has arrived |
| `Assembly.CompletedFrameIsReportedCompleteIff` | src/m01_receiver/pipeline/reassembler.cpp:474-559 | a fully received frame is reported complete if and only if none of its fragments is empty |
| `EmptyTails.ArrivalCompletesIffTail` | src/m01_receiver/pipeline/reassembler.cpp:392-411 | after any run in which the fragments of a key agree, the frame emitted by the arrival of its last piece is reported complete if and only if the announced tail is not empty |
| `EmptyTails.EmptyTailIsReportedMissing` | src/m01_receiver/pipeline/reassembler.cpp:510-535 | a run of one packet whose frame is complete and reported incomplete, with the piece that came as missing |
| `Assembly.LossNeverShiftsDataIff` | src/m01_receiver/pipeline/reassembler.cpp:474-559 | the assembled bytes are the original with lost pieces zeroed in place if and only if a full piece arrived, the frame is a single piece, or the default length is right |
| `Assembly.FixedCutNeverShifts` | src/m01_receiver/pipeline/reassembler.cpp:12-37 | where frames are cut after the configured samples, 8 bytes each in DA data and 4 otherwise, for each set bit of the mask, no loss shifts data |
| `EmptyTails.TailAloneIsShifted` | src/m01_receiver/pipeline/reassembler.cpp:12-37 | a run in which only the tail of a frame comes and is assembled where the lost piece should be |
| `Assembly.MissingIsLost` | src/m01_receiver/pipeline/reassembler.cpp:510-535 | the missing list is exactly the lost indices, increasing |
| `ReassemblyRuns.EveryRunIsSound` | src/m01_receiver/pipeline/reassembler.cpp:329-362 | in every reachable state the table respects its bound, bits, counters, sizes and references agree, created = destroyed + open, and one frame was emitted for each context closed |
| `ReassemblyCounters.EveryPacketIsTallied` | src/m01_receiver/pipeline/reassembler.cpp:364-472 | over every run received = unusable + late + table full + repeated + over the size limit + rejected + pieces in open contexts + pieces that went out, and the missing counter totals the missing lists |
| `ReassemblyCounters.ReceivedCountsArrivals` | src/m01_receiver/pipeline/reassembler.cpp:56-58 | over every run received is the number of packets that arrived |
| `ReassemblyCounters.FramesAreGraded` | src/m01_receiver/pipeline/reassembler.cpp:535-545 | over every run a frame is called complete exactly when nothing is missing, completed counts those frames and incomplete the others |
| `ReassemblyRuns.SweepsAreExact` | src/m01_receiver/pipeline/reassembler.cpp:226-271 | a scan closes a context if and only if now minus its opening time, plus 2^64 if negative, reaches the timeout, and leaves the others as they are; a flush closes all |
| `ContextLives.SweepClosesExactlyTheOverdue` | src/m01_receiver/pipeline/reassembler.cpp:226-250 | after any run, a scan closes exactly the contexts whose opening arrival is at least the timeout ago, or later than now with 2^64 added, and leaves every other context as it is |
| `ContextLives.ClockSetBackClosesTheYoung` | src/m01_receiver/pipeline/reassembler.cpp:677-682 | after any run, a scan closes every context opened after the time the clock now shows |
| `FaithfulFrames.EmittedFramesAreFaithful` | src/m01_receiver/pipeline/reassembler.cpp:474-559 | over every run, every frame emitted for a key names as missing exactly the pieces not stored since its context was opened, and is the original with those zeroed in place exactly when their length can be known |
| `FaithfulFrames.EveryArrivalIsStored` | src/m01_receiver/pipeline/reassembler.cpp:56-138 | where a frame respects the size limit, the pieces stored are exactly those that arrived for a key not frozen, with a context or room for one; so only pieces that did not come are missing |
| `FaithfulFrames.ZeroCopyFramesAreFaithful` | src/m01_receiver/pipeline/reassembler.cpp:140-224 | the same of the frames of the zero-copy path, whatever happens to buffers that no context owns |
| `ZeroCopy.ZeroCopyRefinesCopying` | src/m01_receiver/pipeline/reassembler.cpp:140-224 | for every run, with every buffer that no context owns overwritten at will between calls and between the frames of a sweep, the zero-copy path emits the same frames and counters as the copying path |
| `ZeroCopy.RefillsAreAllowed` | src/m01_receiver/pipeline/reassembler.cpp:242-249 | refilling at once the buffers that a sweep has handed back leaves the buffers of the waiting contexts alone |
| `ZeroCopy.EveryBufferComesBackOnce` | include/qdgz300/m01_receiver/pipeline/reassembler.h:49-80 | in every state each buffer handed over has come back as often as it was handed over, save those owned by exactly one context; with no context open, all have |
| `ReassemblerClass.InferMissingFragmentSize` | src/m01_receiver/pipeline/reassembler.cpp:12-37 | the loop gives the tail length, the first known length, or the default |
| `ReassemblerClass.AssembleFrame` | src/m01_receiver/pipeline/reassembler.cpp:474-550 | the measuring and the filling pass agree: the buffer is filled exactly to its end with the frame of the model |
| `ReassemblerClass.Reassembler.IsKeyFrozen` | src/m01_receiver/pipeline/reassembler.cpp:636-657 | the in-place scan is the scan of the model |
| `ReassemblerClass.Reassembler.AddFrozenKey` | src/m01_receiver/pipeline/reassembler.cpp:659-675 | refreshes the entry of a frozen key or overwrites the next one of the ring |
| `ReassemblerClass.Reassembler.CompleteReassembly` | src/m01_receiver/pipeline/reassembler.cpp:474-559 | emits the frame of the bytes as they were at the call, freezes a timed-out key, closes the context and hands its buffers back, whose contents are anything from then on |
| `ReassemblerClass.Reassembler.GetOrCreateContext` | src/m01_receiver/pipeline/reassembler.cpp:329-362 | the table after it is that of the model, with the overflow counted when it is full |
| `ReassemblerClass.Reassembler.AddFragment` | src/m01_receiver/pipeline/reassembler.cpp:364-472 | a piece that is there counts as duplicate, a new one that takes the bytes over the limit as overflow, a new one within it and of the right length is stored, any other refused; the rest of the state is as it was |
| `ReassemblerClass.Reassembler.ProcessPacket` | src/m01_receiver/pipeline/reassembler.cpp:56-138 | one call is one step of the model on the copying path |
| `ReassemblerClass.Reassembler.ProcessPacketZeroCopy` | src/m01_receiver/pipeline/reassembler.cpp:140-224 | one call is one step of the model with the buffer handed over |
| `ReassemblerClass.Reassembler.CheckTimeouts` | src/m01_receiver/pipeline/reassembler.cpp:226-250 | closes exactly the contexts whose age reaches the timeout and leaves the others; one sweep of the model, in some order of the table, while buffers handed back are being refilled |
| `ReassemblerClass.Reassembler.FlushContexts` | src/m01_receiver/pipeline/reassembler.cpp:252-271 | one flush of the model, in some order of the table, while buffers handed back are being refilled |
| `EndToEnd.ParsesBack` | src/m01_receiver/pipeline/reassembler.cpp:56-106 | from the packet of a piece the parser recovers the key, the header, the snapshot and exactly the bytes of the piece |
| `EndToEnd.DeliveredLogIsTheOriginalFrames` | src/m01_receiver/app_init.cpp:274-289 | for every interleaving of the pieces of consecutive frames, repeats included, across the wrap, the log is at every moment the original frames below the lowest unfinished one, and in the end all of them with nothing left behind |
| `EndToEnd.OutputIsTheFrame` | src/m01_receiver/app_init.cpp:278-288 | what is delivered for a frame is its bytes under its number, marked real and complete |
| `PipelineRuns.DeliveredFramesAreMarked` | src/m01_receiver/app_init.cpp:274-289 | over every run with timeouts and flushes of both parts, whatever is delivered is an emitted frame, with its bytes, number, source, epoch, timestamp and length, marked incomplete if and only if something of it is missing, or an empty stand-in marked as such; and each emitted frame was delivered, refused as a repeat, or waits |
| `PipelineRuns.MarkedIffAPieceWasLost` | src/m01_receiver/app_init.cpp:274-289 | a frame whose pieces were cut from one original is delivered as incomplete if and only if one of its pieces was not stored between the opening and the closing of its context |
| `PipelineRuns.ShutdownLosesNothing` | src/m01_receiver/app_run.cpp:698-712 | once the contexts and then the window are flushed neither holds anything, and every context ever opened went out as a frame that was delivered or refused as a repeat |
| `FacePipeline.OnFrame` | src/m01_receiver/app_init.cpp:276-289 | the callback inserts the assembled bytes under the frame counter, with source, epoch and timestamp of the frame and its length cut to 16 bits, so that it is delivered as incomplete exactly when the frame is |
| `FacePipeline.ReceivePacket` | src/m01_receiver/app_init.cpp:274-335 | a packet through both objects, copied or handed over in its buffer, is one step of the pipeline run, and one step of the end-to-end model on what the contexts hold |
| `FacePipeline.SweepContexts` | src/m01_receiver/app_run.cpp:448-450 | the timeout scan of the objects is one step of the pipeline run: each context closed goes on to the reorderer |
| `FacePipeline.DrainContexts` | src/m01_receiver/app_run.cpp:698-703 | the flush at shutdown is one step of the pipeline run |
| `PacketPool.NodeIndexIffBufferStart` | src/m01_receiver/network/packet_pool.cpp:160-175 | an address is taken for a node exactly when it is the start of that node's buffer |
| `PacketPool.EveryInterleavingKeepsTheList` | src/m01_receiver/network/packet_pool.cpp:123-184 | with one allocator and any number of releasers, one atomic access at a time and with spurious failures, the list stays acyclic and free, live, popped and returning nodes partition the pool |
| `PacketPool.AllocateNeverReturnsALiveBuffer` | src/m01_receiver/network/packet_pool.cpp:127-136 | a buffer just popped is not live, not on its way back and not the head of the list |
| `PacketPool.AccessesAreInRange` | src/m01_receiver/network/packet_pool.cpp:130-179 | in every interleaving each node access is within the pool |
| `PacketPool.PopInv` | src/m01_receiver/network/packet_pool.cpp:128-136 | when the exchange succeeds the next pointer read before it is still the right one |
| `PacketPool.CounterIsExactIff` | src/m01_receiver/network/packet_pool.cpp:133-184 | in every interleaving the counter is the number of buffers that are not live if and only if no release is under way, and not below zero if and only if live buffers and releases under way do not exceed the pool |
| `PacketPool.CounterCanDipBelowZero` | src/m01_receiver/network/packet_pool.cpp:133-184 | a run in which the counter stands at -1 |
| `PacketBuffers.Pool.constructor` | src/m01_receiver/network/packet_pool.cpp:60-108 | the loop threads all nodes into one list in order; there are none without size or storage |
| `PacketBuffers.Pool.Allocate` | src/m01_receiver/network/packet_pool.cpp:123-149 | returns the first buffer of the list and takes it off; with an empty list counts a fallback and returns memory of the heap, or null |
| `PacketBuffers.Pool.Deallocate` | src/m01_receiver/network/packet_pool.cpp:151-197 | a buffer start is linked to the front of the list, any other address leaves the list alone, and the list survives if and only if the buffer was not in it already |
| `PacketBuffers.ReleaseKeepsListIff` | src/m01_receiver/network/packet_pool.cpp:175-180 | linking a node in front gives a list if and only if the node was not in it; otherwise every walk goes round for ever |
| `PacketBuffers.BuffersAreConserved` | include/qdgz300/m01_receiver/network/packet_pool.h:81-134 | of the buffers put in with a pool, each is in handles, taken out by release, or back in the pool exactly as often as it was put in; of those put in without one, in handles, taken out, or dropped |
| `PacketBuffers.GivenBackAtMostOnce` | include/qdgz300/m01_receiver/network/packet_pool.h:86-119 | a buffer put in once is given back at most once, and not while a handle holds it |
| `PacketBuffers.EverythingComesBack` | include/qdgz300/m01_receiver/network/packet_pool.h:86-119 | once all handles are gone and nothing was released, each buffer put in with a pool is back exactly as often as it was put in, and only those put in without one are lost |
| `PacketBuffers.NothingIsLost` | include/qdgz300/m01_receiver/network/packet_pool.h:83-119 | where every handle has a pool and nothing is released, no buffer is ever dropped or taken out |
| `SpscInterleaving.FirstInFirstOut` | include/qdgz300/common/spsc_queue.h:25-49 | in every interleaving of loads, stores and slot accesses the popped values followed by the live slice are the pushed values |
| `SpscInterleaving.ReaderAndWriterNeverMeet` | include/qdgz300/common/spsc_queue.h:107-117 | no slot is read while it is being written |
| `SpscInterleaving.AccessesAreInRange` | include/qdgz300/common/spsc_queue.h:33-34 | in every interleaving each slot access is within the buffer |
| `SpscInterleaving.FullTest` | include/qdgz300/common/spsc_queue.h:27-31 | the full test holds exactly when one slot is left |
| `SpscQueue.MaskedDifferenceIsCount` | include/qdgz300/common/spsc_queue.h:119-124 | the masked 64-bit difference of the indices is the number of elements, also when it wraps |
| `SpscQueue.DroppingMakesRoomIff` | include/qdgz300/common/spsc_queue.h:55-78 | a turn of the dropping loop makes room if and only if there are at least two slots |
| `SpscQueue.Queue.TryPush` | include/qdgz300/common/spsc_queue.h:25-49 | appends exactly when fewer than Cap - 1 elements are held |
| `SpscQueue.Queue.DropOldestPush` | include/qdgz300/common/spsc_queue.h:52-105 | terminates, keeps exactly the newest Cap - 1 elements and counts what it dropped |
| `SpscQueue.Queue.TryPop` | include/qdgz300/common/spsc_queue.h:107-117 | takes the oldest element, or nothing exactly when empty |
| `SpscQueue.Queue.Size` | include/qdgz300/common/spsc_queue.h:119-124 | the number of elements |
| `SpscQueue.Queue.Empty` | include/qdgz300/common/spsc_queue.h:126-130 | true exactly when nothing is held |
| `SpscQueue.Queue.Full` | include/qdgz300/common/spsc_queue.h:132-137 | true exactly when Cap - 1 elements are held |
| `RxStage.EveryEnvelopeIsAccountedFor` | src/m01_receiver/pipeline/rx_stage.cpp:24-66 | over every run validate_ok = enqueued = taken + dropped + queued, and the queue is the tail of the accepted packets |
| `RxStage.CountersAreExact` | src/m01_receiver/pipeline/rx_stage.cpp:26-55 | over every run each counter is the number of packets that got that far |
| `RxStage.DropsOnlyWhenFull` | src/m01_receiver/pipeline/rx_stage.cpp:52-54 | after any run a packet that passes is queued last and costs the oldest one exactly when the queue is full |
| `RxStage.TakenInArrivalOrder` | src/m01_receiver/pipeline/rx_stage.cpp:52-54 | the consumer gets accepted packets at strictly increasing arrival positions |
| `RxStage.WatermarkIsGreatestDepth` | src/m01_receiver/pipeline/rx_stage.cpp:56-65 | the watermark is the greatest depth after any push |
| `RxStage.Stage.OnPacket` | src/m01_receiver/pipeline/rx_stage.cpp:24-66 | one call is one step of the run model, counters and queue together |
| `Crc32c.StepIsLinear` | src/m01_receiver/protocol/crc32c.cpp:27-31 | the bit step is linear over xor |
| `Crc32c.StepIsBijective` | src/m01_receiver/protocol/crc32c.cpp:27-31 | the bit step has a two-sided inverse on 32-bit states |
| `Crc32c.MakeTable` | src/m01_receiver/protocol/crc32c.cpp:21-35 | each entry is its index eight bit steps on |
| `Crc32c.LookupIsFeedByte` | src/m01_receiver/protocol/crc32c.cpp:40-44 | one lookup does what feeding the eight bits of a byte to the shift register does |
| `Crc32c.Crc32cSw` | src/m01_receiver/protocol/crc32c.cpp:37-46 | the loop feeds the message to the shift register, for every length and start |
| `Crc32c.Crc` | src/m01_receiver/protocol/crc32c.cpp:70-86 | the CRC of every message is that of the reflected Castagnoli register; a null pointer with a length gives 0 (section 12.1 of RFC 3720) |
| `CrcDivision.CrcIsTheRemainder` | src/m01_receiver/protocol/crc32c.cpp:70-86 | the CRC of every message is the complement of the one remainder left when the message followed by 32 zeros, its first 32 bits complemented, is divided by the polynomial 0x11EDC6F41 (section 12.1 of RFC 3720) |
| `CrcDivision.BitIsDivisionStep` | src/m01_receiver/protocol/crc32c.cpp:27-31 | one step of the register is one step of long division by that polynomial |
| `CrcDivision.PolynomialIsTheGenerator` | src/m01_receiver/protocol/crc32c.cpp:18-19 | the constant of the code is that polynomial without its leading term, reflected |
| `CrcDivision.CheckVector` | tests/unit/protocol_tests.cpp:50-55 | "123456789" has the CRC 0xE3069283 |
| `Crc32c.FeedIsInjective` | src/m01_receiver/protocol/crc32c.cpp:40-44 | equal bytes never bring two different states together |
| `Crc32c.BurstsAreDetected` | src/m01_receiver/protocol/crc32c.cpp:21-46 | two messages of equal length that differ only within four consecutive bytes have different CRCs |
| `GpuDispatch.EveryRunIsSane` | src/m02_signal_proc/gpu_dispatcher.cpp:36-97 | over every run each stream has at most one slot in use, results are the submitted blocks in order, those are at strictly increasing arrival positions, the result queue holds the newest results in order up to its room, popped = completed + in flight + failed, and nothing times out whatever the clock reads |
| `GpuDispatch.VisitOfReady` | src/m02_signal_proc/gpu_dispatcher.cpp:45-90 | a visit puts out the finished batch, times nothing out and takes a block whenever one waits |
| `GpuDispatch.TimeoutClearsExactlyTheOld` | src/m02_signal_proc/gpu_pipeline.cpp:139-168 | a slot is given up exactly when it is in use and 51 ms or more have gone by since its submission |
| `GpuDispatch.OneTurnPerRound` | src/m02_signal_proc/gpu_dispatcher.cpp:43-92 | n rounds visit every stream exactly n times, from whichever stream they start |
| `GpuDispatch.RoundCounts` | src/m02_signal_proc/gpu_dispatcher.cpp:39-96 | a round over ready streams completes one batch for each stream with one in flight, and submits one block for each turn at which one waits and can be allocated |
| `GpuDispatch.TakenWithinRounds` | src/m02_signal_proc/gpu_dispatcher.cpp:36-97 | the block at queue position k leaves the queue within k + 1 rounds, and, where its queue drops nothing and allocations succeed, has been submitted by then, right after the k before it |
| `GpuDispatcherClass.GpuPipeline.FindFreeSlot` | src/m02_signal_proc/gpu_pipeline.cpp:184-195 | the first free slot, or none |
| `GpuDispatcherClass.GpuPipeline.InflightCount` | src/m02_signal_proc/gpu_pipeline.cpp:170-182 | the number of slots in use |
| `GpuDispatcherClass.GpuPipeline.PollCompletion` | src/m02_signal_proc/gpu_pipeline.cpp:112-137 | clears the first finished slot and returns its batch; other streams untouched |
| `GpuDispatcherClass.GpuPipeline.HandleTimeout` | src/m02_signal_proc/gpu_pipeline.cpp:139-168 | clears exactly the slots older than the limit; other streams untouched |
| `GpuDispatcherClass.GpuPipeline.SubmitCpi` | src/m02_signal_proc/gpu_pipeline.cpp:29-110 | fills the first free slot with the finished batch of the block, or fails and changes nothing |
| `GpuDispatcherClass.GpuDispatcher.VisitStream` | src/m02_signal_proc/gpu_dispatcher.cpp:43-90 | one turn of the inner loop is one visit of the model, with its counters and result queue |
| `GpuDispatcherClass.GpuDispatcher.RunRound` | src/m02_signal_proc/gpu_dispatcher.cpp:39-96 | one turn of the outer loop visits each stream once, counts what those visits completed and submitted, and moves the start on |
| `PlotAssociation.GreedyIsUnique` | src/m03_data_proc/plot_associator.cpp:29-61 | nearest free plot, first of equals, in track order: the description leaves exactly one matching |
| `PlotAssociation.GreedyIsInjective` | src/m03_data_proc/plot_associator.cpp:36-60 | no plot goes to two tracks |
| `PlotAssociation.ChosenIsWithinTheGate` | src/m03_data_proc/plot_associator.cpp:56-60 | a plot given to a track is at most the gate threshold away |
| `PlotAssociation.ListedInTrackOrder` | src/m03_data_proc/plot_associator.cpp:56-60 | the list has one entry for each matched track, in track order, with its identifier, its plot and their distance |
| `PlotAssociation.DeniedOnlyForANearerOrEarlier` | src/m03_data_proc/plot_associator.cpp:31-60 | a track misses a plot in its gate only for one as near or nearer, or because an earlier track has it; so no unmatched track and leftover plot are within the gate |
| `PlotAssociation.PlotsArePartitioned` | src/m03_data_proc/plot_associator.cpp:63-70 | associations and leftovers together are the plots, each once |
| `PlotAssociation.PlotAssociator.Nearest` | src/m03_data_proc/plot_associator.cpp:31-55 | the inner loop finds the nearest plot not used, the first of several equally near |
| `PlotAssociation.PlotAssociator.Associate` | src/m03_data_proc/plot_associator.cpp:22-73 | the loops compute the greedy matching, list it in track order and leave the rest in increasing order |
| `Tracks.EveryRunIsConsistent` | src/m03_data_proc/track_manager.cpp:33-151 | over every run identifiers are 1, 2, 3, ... along the list; misses at or over the lost limit mean LOST; COASTING holds exactly between the two limits |
| `TrackLives.LifecycleIsHistory` | src/m03_data_proc/track_manager.cpp:62-147 | over every run, from the hits and misses of a track alone: hits = 1 + calls that gave it a plot; Coasting exactly between the two limits; Lost exactly when the misses reached the losing limit and have not passed between the limits since; Tentative exactly while they never reached the coasting limit and the hits are below the confirming limit or just the first |
| `TrackLives.FilterIsReplayed` | src/m03_data_proc/track_manager.cpp:51-147 | over every run the filter of a track is made from the plot left over for it, predicted at each call and updated by exactly the plots given to it |
| `TrackLives.CoastFramesCurrentIff` | src/m03_data_proc/track_manager.cpp:78-110 | over every run the published coast_frames equals the misses if and only if the last call missed the track or none ever did |
| `Tracks.IdentifiersAreNeverReused` | src/m03_data_proc/track_manager.cpp:124-147 | an identifier names the same track for the rest of the run |
| `Tracks.CallGrowsTheList` | src/m03_data_proc/track_manager.cpp:33-151 | a call adds exactly plots minus associations, as tentative tracks with new identifiers, keeps every other identifier and creation time, and stamps all tracks |
| `Tracks.EveryPlotIsOneHit` | src/m03_data_proc/track_manager.cpp:33-151 | over every run the hits of all tracks add up to the plots received: each plot went to exactly one track, old or new |
| `Tracks.LatestIsGreatest` | src/m03_data_proc/track_manager.cpp:36-49 | the stamp of a call is the greatest timestamp among the batches that count, and 0 when none does |
| `Tracks.PlotsInBatchOrder` | src/m03_data_proc/track_manager.cpp:35-49 | the plots of a call are those of all its usable batches, batch after batch, each in its own order |
| `LostTracks.LostReturnsOverRunIff` | src/m03_data_proc/track_manager.cpp:92-122 | a track that has just been lost is published again in the course of a run if and only if it is hit at some call and then missed coast_after_misses times in a row, and that is fewer than lost_after_misses |
| `LostTracks.LostTrackComesBack` | src/m03_data_proc/track_manager.cpp:92-122 | a run in which a lost track is hit, stays lost with coast_frames at 2 and no misses, and is published again by a miss |
| `Tracks.PublishedInOrder` | src/m03_data_proc/track_manager.cpp:153-165 | the published list is strictly increasing in identifier |
| `Tracks.PublishedAreTheNotLost` | src/m03_data_proc/track_manager.cpp:153-165 | the published list holds exactly the states that are not LOST |
| `Tracks.HitsByChoice` | src/m03_data_proc/track_manager.cpp:62-101 | looking tracks up by identifier, one association after the other, updates each track by its own plot |
| `Tracks.TrackManager.CollectPlots` | src/m03_data_proc/track_manager.cpp:35-49 | all plots of the usable batches in order, and the latest timestamp among them |
| `Tracks.TrackManager.UpdateMatched` | src/m03_data_proc/track_manager.cpp:60-101 | applies the associations in turn and marks exactly the tracks they name |
| `Tracks.TrackManager.CountMisses` | src/m03_data_proc/track_manager.cpp:103-122 | every unmarked track misses, every other is untouched |
| `Tracks.TrackManager.CreateTracks` | src/m03_data_proc/track_manager.cpp:124-147 | one tentative track for each leftover plot, numbered onward |
| `Tracks.TrackManager.SyncSnapshots` | src/m03_data_proc/track_manager.cpp:153-165 | publishes the states that are not lost |
| `Tracks.TrackManager.ProcessPlots` | src/m03_data_proc/track_manager.cpp:33-151 | one call is one step of the run model for the greedy matching of the predicted tracks |
| `PcapFormat.HeaderReadsBack` | tools/pcap_analyze.cpp:133-182 | the reader accepts the written global header and finds the writer's format in it |
| `PcapFormat.RecordReadsBack` | tools/pcap_analyze.cpp:184-228 | a record is read back whole, or refused exactly when it exceeds the snap length |
| `PcapFormat.RecordTakenIff` | tools/pcap_analyze.cpp:184-228 | a record is taken if and only if its lengths are not zero, what it holds is within the snap length and the original length, and all of it is there |
| `PcapFormat.FileReadsBackIff` | src/m01_receiver/capture/pcap_writer.cpp:256-274 | a file of non-empty packets reads back as those packets in order if and only if none exceeds the snap length |
| `PcapFormat.TimestampSurvivesIff` | src/m01_receiver/capture/pcap_writer.cpp:414-416 | second and microsecond give the timestamp back if and only if its seconds fit 32 bits |
| `PcapWriter.EveryRunKeepsOrder` | src/m01_receiver/capture/pcap_writer.cpp:375-435 | in every interleaving of producers and writer, files, packet in hand and queue together are the accepted packets in order, and the counters say so |
| `PcapWriter.EveryFileIsBounded` | src/m01_receiver/capture/pcap_writer.cpp:276-299 | a file exceeds max_file_size_mb times 1048576 bytes only when it holds a single record |
| `PcapWriter.FilesAreClosedOnlyWhenFull` | src/m01_receiver/capture/pcap_writer.cpp:276-299 | over every run a file is closed only because the record that opens the next one would take it over the limit, and rotated counts the closings |
| `PcapWriter.PassesByHeader` | src/m01_receiver/capture/pcap_writer.cpp:449-480 | a packet cut off after n bytes passes if and only if each filter list is empty or has its packet type, or source, and n reaches that field |
| `PcapWriter.CapturedIff` | src/m01_receiver/capture/pcap_writer.cpp:184-220 | after any run a packet with this header is queued if and only if the writer is not stopped, the lists want it and fewer than max(1, capacity) are pending; if only room is lacking it is counted as dropped |
| `PcapWriter.QueueIsBounded` | src/m01_receiver/capture/pcap_writer.cpp:208-213 | no more than max(1, capacity) packets are ever pending |
| `PcapWriter.StoppedMeansWritten` | src/m01_receiver/capture/pcap_writer.cpp:168-182 | after stop, written = enqueued and the closed files hold exactly the accepted packets |
| `PcapWriter.CaptureRoundTrip` | src/m01_receiver/capture/pcap_writer.cpp:339-373 | the newest max(1, max_files) files read in order give back the accepted packets, less those of the older files, which retention removed |
| `PcapWriter.Writer.WritePacket` | src/m01_receiver/capture/pcap_writer.cpp:184-220 | queues, drops with a count, or ignores, as the run model says |
| `PcapWriter.Writer.SealCurrentFile` | src/m01_receiver/capture/pcap_writer.cpp:339-373 | the file joins the closed ones and only the newest are left on disk |
| `PcapWriter.Writer.RotateFileIfNeeded` | src/m01_receiver/capture/pcap_writer.cpp:276-299 | closes the file and opens a new one exactly when the record would exceed the limit |
| `PcapWriter.Writer.WriteTaken` | src/m01_receiver/capture/pcap_writer.cpp:400-429 | the bytes on disk stay those of the packets written so far |
| `PcapWriter.Writer.DrainAndExit` | src/m01_receiver/capture/pcap_writer.cpp:375-435 | once closed to producers, the loop writes everything pending in order and closes the last file |

## Left out

- Counters and identifiers are unbounded; their wrap at 2^32 or 2^64 is not modelled (the 32-bit sequence numbers, the
  reorderer's 32-bit buffer counter, the ring indices and the CRC are).
- Memory orders: the two lock-free structures are modelled with interleaved, sequentially consistent accesses.
- `drop_oldest_push` racing with `try_pop`, several allocating threads on one pool, and the timeout scan running beside
  packet processing: each of these is outside what the code keeps safe; such calls are taken one at a time.
- Spurious failures of the weak exchange are modelled in the pool, not in the dropping push or the watermark.
- SpscQueue.Queue.DropOldestPush: requires two slots or more, because with one it does not terminate.
- EndToEnd.DeliveredLogIsTheOriginalFrames: no timeout, no repeat of a piece after its frame has gone out, which would open a new context, and a window of at most 2^31; the first frame to finish is the lowest one, and no frame finishes a window ahead of the lowest unfinished one.
- PcapFormat.FileReadsBackIff: packets of 2^32 bytes or more, whose length field wraps, are not covered.
- `reset_statistics` of the reassembler, which breaks created minus destroyed.
- One clock reading stands for all readings within a call of the reorderer.
- The walking order of the context table is arbitrary; hashing is not modelled. Contexts and their references are
  values, so unique ownership of a context is by construction.
- Fields that nothing reads: reserved header bytes, `total_payload_size`, `is_complete` and `is_timeout` of a context.
- Validation before the queue of the receive stage, and the checks of the parser: their verdict is an input.
- PacketBuffers.Pool.Deallocate: of the heap buffers, their addresses, the magic word in front of them and their deletion are not modelled; they leave the list alone.
- The detector, the filter equations and the distance are parameters; rounding of floating point is not modelled.
- Null blocks in the dispatcher's queue, gauges, sleeping, and the GPU path.
- Input and output errors of the capture writer, file names and directories.
- Shared-memory delivery, sockets, NUMA and CPU binding, HTTP metrics, logging, configuration, signals, ARM CRC
  instructions, the control state machine, the orchestrator and the operator sessions: foreign calls, or facts of one branch.
