# A Dafny model of the gs_usb userspace driver

This project models the parts of a userspace CAN driver for gs_usb adapters
that carry its difficulty, and proves what they promise for every input, every
run or every reachable state. `dafny verify dfyconfig.toml` checks all of it.

- **Bit timing** (`BitTiming*.dfy`, `RealArith.dfy`). The brute-force search for
  timing registers: one rounded quanta count per prescaler, a two-stage clamp of
  the segment split, and a comparison of errors with a 1e-12 tolerance, which is
  not transitive. `BitTiming` defines the problem and the selection,
  `BitTimingCounter` the loop counter with its wrap-around, `BitTimingSearch`
  holds the loop, `BitTimingCalc` the function around it; `BitTimingErrors`,
  `BitTimingTheorems` and `BitTimingRounding` prove what the answer is worth,
  `BitTimingWrap` when the counter keeps it within the limits, and
  `BitTimingHeader` when it is what the header promises. `double` is the exact
  reals; `lround` of a positive x is the floor of x + 1/2; the uint32 sum of the
  two segment minima may wrap and is written so.
- **Wire format** (`Protocol.dfy`, `Wire.dfy`, `WireLayout.dfy`). Little-endian
  words, DLC codes, the packet a send builds, the frame a reception yields, the
  receive buffer. `WireLayout` says where each byte goes and comes from in plain
  numbers.
- **Receive path** (`Subsequence.dfy`, `RxQueue.dfy`, `Demux.dfy`,
  `Pipeline.dfy`, `BusListener.dfy`, `ReceivePath.dfy`). The ring buffer behind each channel, the
  reader that feeds the rings, and the Python listener that moves frames from a
  ring to a second bounded queue while other threads push and take. One relation,
  `Subsequence.Flow`, says of both queues what is kept, in what order, and what
  is lost; `ReceivePath` joins the stages of all channels.
- **Lifecycle** (`History.dfy`, `Lifecycle.dfy`, `LifecycleHistory.dfy`,
  `LifecycleOverlap.dfy`, `LifecycleDevice.dfy`).
  Start, stop and close against the reader thread, as a machine with one step per
  locked region, per join and per reader step; any number of callers may be
  inside calls at once. `LifecycleOverlap` says which calls may overlap,
  `LifecycleHistory` what each flag tells of the calls that led to it, and
  `LifecycleDevice` runs whole calls and the reader thread on the device's fields.
- **Bit fields and text** (`BitField.dfy`, `Cansend.dfy`, `CansendTexts.dfy`).
  Little-endian field extraction with unbounded and with 32-bit arithmetic, the
  engine speed read with it, and the frame syntax of the send tool;
  `CansendTexts` says character by character what its texts stand for.

Statements "in numbers" name no function of the operation they are about: they
give the constants, bits and bytes themselves.

Bytes and words are ranges of the integers: a shift is a division, a cast a
remainder, and an OR of disjoint bits a sum.

## Where the code and its documentation differ

- `driver/src/bittiming.h:14-16` promises, of all combinations the limits allow,
  the smallest bitrate error and then the closest sample point. The code
  considers one quanta count per prescaler, rounded in the time domain, and skips
  a prescaler whose rounded count cannot be split. `BitTimingHeader` has an input
  for either way of missing a better combination (`HeaderClaimFails`,
  `HeaderClaimFailsAcross`). `HeaderClaimHolds` gives, for clocks and bitrates
  the tolerance can tell apart, the exact condition under which the promise is
  kept, `RoundingIsBestAllowedIff` the one for a single
  prescaler, and `LossIsBounded` what the answer may lose against any allowed
  combination of three or more quanta.
- `driver/src/bittiming.h:23-24` says that no solution is reported if no
  combination satisfies the limits. One is also reported missing although there
  are some: `NoSolutionDespiteAllowedIff` says exactly when, and
  `NoSolutionDespiteAllowed` gives an input.
- The loop counter of `driver/src/bittiming.c:37` is a uint32 that may wrap.
  `BitTimingCounter.LoopEndsIff` says for which limits the loop ends at all,
  `OnGridIffCounterFits` for which the counter stays on the grid, and
  `BitTimingWrap.AnswersOnGridIff` for which every answer does; for other limits
  some answer is off it, as in `WrappedAnswerLeavesLimits` below brp_min.
  The theorems about the grid concern limits that leave the counter room for one
  step past the last grid prescaler.
- `driver/src/gsusb.c:732-761` releases the lock before it joins the reader and
  clears `reader_running` after, so calls that overlap may leave a channel active
  without a reader (`LifecycleOverlap.OverlapLosesTheReader`). The reader
  properties hold for all runs in which calls that begin during another are
  harmless in the sense of `Lifecycle.Harmless`; any other such call breaks them
  in some continuation (`LifecycleOverlap.OverlapAllowedIffHarmless`). The
  channel count needs no such restriction.
- The comment in `sdk/python/gsusb/bus.py:267-279` allows for a second put that
  fails. `Pipeline.DeliveredInOrderOnce` shows that it never does.

## Model

| member | source | states |
|---|---|---|
| BitTimingSearch.ClampSplit | driver/src/bittiming.c:52-81 | the clamp accepts exactly when some tseg1 and tseg2 in their ranges fill the quanta, wrapped guard included, and then yields such a split: the wanted value moved into the range of possible ones |
| BitTimingSearch.NearestIsNearest | driver/src/bittiming.c:59-84 | no split of the same quanta within the limits has a sample point closer to the requested one |
| BitTimingSearch.CandidateIsNearestSplit | driver/src/bittiming.c:41-84 | a prescaler has a candidate iff its rounded quanta are at least three and can be split, and the candidate is the split with the least sample-point error |
| BitTimingSearch.TrySplit | driver/src/bittiming.c:41-81 | the first half of the loop body finds exactly that candidate or none |
| BitTimingErrors.ErrorIsRelative | driver/src/bittiming.c:56-57 | the bitrate error the loop computes is the distance of brp * tq * bitrate ticks from the clock, relative to that number of ticks |
| BitTimingErrors.SampleErrorIsRelative | driver/src/bittiming.c:83-84 | the sample-point error times the quanta is the distance of 1 + tseg1 from the sample point times the quanta |
| BitTiming.BeatsInNumbers | driver/src/bittiming.c:86-94 | bitrate errors more than 1e-12 apart decide the comparison; closer ones leave it to the sample-point errors, of which only a smaller one wins |
| BitTimingSearch.Search | driver/src/bittiming.c:30-105 | wherever the loop ends, its counter wrapping or not, it keeps what the tolerant selection over the candidates of the counter's values keeps |
| BitTimingCounter.NextBrpIsTheSum | driver/src/bittiming.c:37 | the counter steps by brp_inc, or by one if that is zero, modulo 2^32 |
| BitTimingCounter.LoopEndsIff | driver/src/bittiming.c:37 | the loop is ever left iff the highest uint32 value with brp_min's remainder by the lowest set bit of the increment is past brp_max |
| BitTimingCounter.OnGridIffCounterFits | driver/src/bittiming.c:37 | a loop that ends takes counter values brp_min + k * inc only iff the step past the last of them fits the counter |
| BitTimingCounter.FittingKeepsSelected | driver/src/bittiming.c:30-105 | then the loop ends and keeps what the selection over the whole grid keeps |
| BitTimingWrap.AnswersOnGridIff | driver/src/bittiming.c:37 | of limits whose loop ends and whose brp_max or increment is below a third of the uint32 range: every request is answered on the grid iff the counter does not wrap, or wraps to zero and leaves the loop from there |
| BitTimingWrap.StayingAnswersOnGrid | driver/src/bittiming.c:37-40 | the "if" half for all limits whose loop ends |
| BitTimingWrap.TakenIsAnswer | driver/src/bittiming.c:37-105 | every positive value the counter takes, on the grid or off it, is the answer to some request if three times it is a possible clock |
| BitTimingWrap.WrappedAnswerLeavesLimits | driver/src/bittiming.c:37 | limits for which the counter wraps, the loop ends, and the answer is below brp_min |
| BitTimingTheorems.AcceptedIsTheGrid | driver/src/bittiming.c:37-54 | the candidates the loop sees are exactly those of the prescalers brp_min + k * inc up to brp_max |
| BitTimingTheorems.GridInNumbers | driver/src/bittiming.c:30-37 | a grid prescaler is brp_min plus whole steps of brp_inc, of one if that is zero, and at most brp_max |
| BitTimingTheorems.FailsOnlyWithoutSolution | driver/src/bittiming.c:107-115 | no solution is reported iff no grid prescaler, tseg1 and tseg2 fill its rounded quanta within the limits; what is returned is such a choice |
| BitTimingTheorems.KeepDrifts | driver/src/bittiming.c:86-104 | ties may raise the kept error, but after n comparisons it exceeds none of the seen ones by more than n tolerances |
| BitTimingTheorems.DriftBound | driver/src/bittiming.c:83-104 | with no assumption on magnitudes the answer's error is at most (n - 1) * 1e-12 above that of every feasible choice, n being the number of candidates |
| BitTimingErrors.ErrorsSeparated | driver/src/bittiming.c:56-57 | when 36 clock^2 < 25e12 bitrate, two different errors of near-clock choices differ by more than the tolerance |
| BitTimingTheorems.LexicographicMinimum | driver/src/bittiming.c:83-104 | under that bound the answer is the least feasible choice by bitrate error, then sample-point error, then prescaler |
| BitTimingTheorems.ExactRateIsFound | driver/src/bittiming.h:14-16 | under that bound a rate some grid choice makes exactly is made exactly |
| BitTimingErrors.RoundingRatio | driver/src/bittiming.c:45-47 | no positive quanta count of a prescaler has an error below tq/(tq+1) of the rounded one's |
| BitTimingErrors.RoundingErrorBound | driver/src/bittiming.c:45-47 | the rounded quanta's error is at most 1/(2 tq) |
| BitTimingTheorems.AnswerWithinASixth | driver/src/bittiming.c:45-57 | every answer's bitrate error is at most 1/(2 tq), so at most a sixth |
| BitTimingTheorems.WithinAThirdOfAnyQuanta | driver/src/bittiming.c:45-57 | at a prescaler whose rounded quanta can be split, no quanta count, allowed or not, has an error below three quarters of the answer's, up to the drift |
| BitTimingRounding.RoundingIsBestIff | driver/src/bittiming.c:45-50 | the rounded quanta have the least error of all positive counts iff they round up or stay below the harmonic mean |
| BitTimingRounding.RoundingIsBestAllowedIff | driver/src/bittiming.c:45-50 | among the counts the limits allow the rounded one, if allowed, has the least error iff it is the best of all or the next count is not allowed |
| BitTimingHeader.BestAllowedIsBest | driver/src/bittiming.h:14-16 | no combination allowed at a prescaler beats, in error and then sample point, the better of the two counts next to the exact one, moved into the allowed range |
| BitTimingHeader.HeaderClaimHolds | driver/src/bittiming.h:14-16 | under the separation bound the answer has the least error of all allowed combinations iff some splittable rounded count reaches the best allowed combination of every grid prescaler; the same for error and then sample point |
| BitTimingHeader.LossIsBounded | driver/src/bittiming.h:14-16 | against every allowed combination, but for one or two quanta that the code rounds to and refuses, the answer's error is at most the larger of one and the ratio of the quanta times theirs, up to the drift |
| BitTimingHeader.HeaderClaimFails | driver/src/bittiming.h:14-16 | an input for which another count at the answer's prescaler, also allowed, has a smaller error |
| BitTimingHeader.HeaderClaimFailsAcross | driver/src/bittiming.h:14-16 | an input for which an allowed combination at a skipped prescaler has less than half the answer's error |
| BitTimingHeader.NoSolutionDespiteAllowedIff | driver/src/bittiming.h:23-24 | no solution is reported although the limits allow a combination iff neither segment range is empty and every grid prescaler's rounded quanta are fewer than three or outside the allowed sums |
| BitTimingHeader.NoSolutionDespiteAllowed | driver/src/bittiming.h:23-24 | an input for which that happens |
| BitTimingCalc.CalcBittiming | driver/src/bittiming.c:15-121 | for all limits whose loop ends: INVALID exactly for a missing argument, a zero clock, bitrate or brp_min, or brp_max below brp_min; no solution exactly if nothing is kept; registers untouched on failure; otherwise the kept candidate in numbers: prescaler within brp_max and, if the counter fits, on the grid, quanta nearest to the clock, split within the limits so that no split is nearer to the sample point asked for, or else to 3/4 above 800 kbit/s, 4/5 above 500 and 7/8 up to that, the larger tseg1 of two as near; and the largest jump width within its two limits, at least one |
| BitTimingCalc.KeptInNumbers | driver/src/bittiming.c:27-84 | the same of whatever the search keeps, the default sample points of lines 6 to 13 in figures |
| Errors.CodesAreTold | driver/include/gsusb.h:190-200 | the return codes in figures |
| Protocol.Le32RoundTrip | driver/src/gsusb_proto.h:151-163 | writing and reading a little-endian word are inverse in both directions |
| Protocol.PutLe32 | driver/src/gsusb_proto.h:151-157 | four bytes are stored, no other byte of the buffer changes |
| Protocol.DlcAdjoint | driver/src/gsusb.c:161-182 | for all bytes: a DLC holds a length, cut to 64, iff it is at least the length's own DLC, so the least valid length is picked; a DLC read back is itself, cut to 15 |
| Protocol.ClassicDlcAdjoint | driver/src/gsusb.c:158-159 | for all bytes: a classic DLC holds a length, cut to 8, iff it is at least the length's own DLC; both mappings cut to 8 and change nothing else |
| Protocol.FdLengthsInNumbers | driver/src/gsusb.c:161-170 | the FD length of every DLC byte: itself up to 8, steps of four to 24, steps of sixteen to 64, and 64 beyond |
| Wire.BuildTx | driver/src/gsusb.c:812-833 | the buffer that is sent, byte by byte |
| Wire.Send | driver/src/gsusb.c:803-845 | what goes on the wire, when nothing does, and the code every outcome of the transfer returns |
| WireLayout.SentInNumbers | driver/src/gsusb.c:803-833 | every byte of the sent packet in numbers: 12 + 8 or 12 + 64 of them; four zeros, the id, its lowest byte first, the least length code that holds the length, the channel, FD, BRS and ESI in bits 1 to 3, a zero, the data, zeros |
| Wire.WireRoundTrip | driver/src/gsusb.c:264-316 | decoding the device's copy of any sent frame gives its normal form on the same channel with the device's timestamp |
| Wire.NormalIffFixed | driver/src/gsusb.c:277-314 | the frames the wire preserves are those with a valid length, zero tail, known flags and no data on remote frames |
| Wire.NormalIsIdempotent | driver/src/gsusb.c:277-314 | normalising yields a normal form, and doing it again changes nothing |
| Wire.DecodedIsNormal | driver/src/gsusb.c:264-316 | every decoded packet yields a normal form that survives another round trip unchanged |
| Wire.SentIsNotReceived | driver/src/gsusb.c:274-275 | nothing a send emits is taken for a received frame, whatever the device appends |
| WireLayout.ReceivedIff | driver/src/gsusb.c:259-300 | a packet is taken for a received frame iff it begins with four bytes 0xff, byte 9 names a channel, and behind its 12 header bytes come its frame's length, or with timestamps 8 + 4 or 64 + 4 bytes |
| WireLayout.ReceivedInNumbers | driver/src/gsusb.c:264-316 | every field of the frame handed out in numbers, classic DLC codes above 8 giving length 8, remote frames length 0, and the timestamp from behind 8 or 64 data bytes |
| Wire.RxBufferSize | driver/src/gsusb.c:489-533 | the buffer size is the maximum of the channels' wire sizes |
| WireLayout.SizesInNumbers | driver/src/gsusb.c:489-533 | that size is 80 iff some channel has both feature bits 8 and 4, else 76 if some has bit 8, else 24 if some has bit 4, else 20 |
| Wire.DecodedIffLongEnough | driver/src/gsusb.c:277-300 | any reception packet of a channel's kind, DLC codes above the last and any padding included, is decoded iff it has the bytes wanted, never more than its kind's whole frame |
| Wire.EveryPacketFits | driver/src/gsusb.c:489-533 | every whole reception packet of any channel's kind fits the computed buffer size uncut and is decoded; received shorter, it is decoded iff no wanted byte is missing |
| Wire.CopiesAreWhole | driver/src/gsusb.c:803-833 | the device's copies of frames a channel can send are such packets |
| RxQueue.Ring.constructor | driver/src/gsusb.c:219-231 | an empty queue without drops |
| RxQueue.Ring.Push | driver/src/gsusb.c:241-255 | the queue gains the frame at its end; with 512 frames in it, it loses its oldest one and counts a drop |
| RxQueue.Ring.TryRecv | driver/src/gsusb.c:862-883 | a pass of recv delivers and removes the oldest element; only on an empty queue does it report INVALID if the channel is stopped, else nothing if it may not wait, else wait |
| RxQueue.RingRefinesBoundedSequence | driver/src/gsusb.c:241-255 | over any run of pushes, receives, stops and restarts the contents are the last pushed frames, pushed = delivered + queued + dropped, delivery is in order and once each, and nothing is missing iff nothing was dropped |
| RxQueue.LosslessIffNeverFull | driver/src/gsusb.c:244-249 | a run drops nothing iff no push of it finds the queue full |
| RxQueue.UnreceivedKeepsLast512 | driver/src/gsusb.c:241-255 | of any frames pushed and not received the last 512 are kept, in order, and the others are counted as dropped |
| RxQueue.StartedAlongRun | driver/src/gsusb.c:862-866 | over any run the channel counts as started for recv iff it was started after the last stop |
| RxQueue.BacklogDrainsInOrder | driver/src/gsusb.c:862-883 | any passes of recv deliver the backlog in order, stopped or not, and the passes after it, none before, report INVALID on a stopped channel |
| Demux.ParseFrame | driver/src/gsusb.c:264-314 | the reads and checks behind the header yield the frame determined by the received bytes alone |
| Demux.Parse | driver/src/gsusb.c:259-314 | what a packet comes to, channel check included |
| Demux.Device.HandleRxPacket | driver/src/gsusb.c:259-317 | only the queue of the channel a received frame names changes, by one push |
| Demux.Device.ReadOnce | driver/src/gsusb.c:326-345 | one loop iteration: a non-empty read is dispatched under the switches of its moment, anything else leaves all queues alone, and the loop is left exactly on stop and on a dead device |
| Demux.Device.ReaderThread | driver/src/gsusb.c:319-349 | the loop handles exactly the packets read before it leaves, in order, each under the timestamp switches of its moment, and none without a buffer |
| Demux.ArrivalsAreTheData | driver/src/gsusb.c:326-345 | of reads none of which ends the loop, every non-empty one is handled, at its place among those, under the switches left by the starts before it, and nothing else is |
| Demux.ArrivalsEnd | driver/src/gsusb.c:326-345 | what comes after the read or stop that ends the loop is not handled |
| Demux.SwitchIsLastSet | driver/src/gsusb.c:713 | a channel's timestamp switch has the value last set |
| Demux.DispatchPushes | driver/src/gsusb.c:270-316 | a received frame goes to the end of its channel's queue, which with 512 frames loses its oldest, and no other queue changes |
| Demux.FrameForIsDecoded | driver/src/gsusb.c:259-316 | what a packet brings for a channel is the frame it is decoded to, if for that channel |
| Demux.FramesForNext | driver/src/gsusb.c:259-316 | a channel's frames are what its packets bring, in order |
| Demux.ChannelsAreIndependent | driver/src/gsusb.c:270-316 | after any packets, starts changing the switches in between, each channel's queue is what that channel's own frames make of it |
| Demux.LoopbackArrives | driver/src/gsusb.c:803-833 | frames sent and looped back on a channel arrive there in order, in normal form, and nowhere else |
| Demux.EchoesChangeNothing | driver/src/gsusb.c:274-275 | any number of echoed sends leaves every queue as it was |
| Pipeline.DeliveredInOrderOnce | sdk/python/gsusb/bus.py:255-307 | over every interleaving recv() delivers pushed frames in order and at most once, all frames are accounted for, the detectors see what the listener took, and the second put never fails |
| Pipeline.LosslessIffNoDrops | sdk/python/gsusb/bus.py:267-279 | delivered and pending frames are all the pushed ones iff neither stage dropped any |
| Pipeline.NewestAlwaysEnqueued | sdk/python/gsusb/bus.py:271-279 | the second put appends the frame last taken from the ring, whatever happened since the first |
| Pipeline.StopBoundsListener | sdk/python/gsusb/bus.py:255-288 | once the stop event is set and until a start clears it, the listener takes at most six more steps and one more frame, and that only if it was already polling |
| Pipeline.ListenerIsNeverStuck | sdk/python/gsusb/bus.py:255-288 | a listener that has not left can take a step, so stop()'s join comes to its end |
| Pipeline.BusIffStartedLast | sdk/python/gsusb/bus.py:210-243 | over every run the stop event is set iff a stop was requested after the last start, and bus and channel are started iff no stop has finished since |
| ReceivePath.PacketIsDispatched | driver/src/gsusb.c:259-317 | handling a packet does to the rings of all channels what the demultiplexer does to its queues |
| ReceivePath.DeliveredFromPackets | sdk/python/gsusb/bus.py:255-307 | over every interleaving of the reader with the Buses of all channels, what recv() delivers on a channel is an ordered, duplicate-free selection of that channel's frames in the packets read, all of them are accounted for, and none is missing iff no stage dropped any |
| ReceivePath.LoopbackIsDelivered | driver/src/gsusb.c:803-833 | frames sent and looped back come out of recv() on their channel in order, in normal form, and on no other |
| BusListener.Bus.PutNowait | sdk/python/gsusb/bus.py:269-279 | a put appends or reports a full queue, the first put exactly if 512 frames are in it and the second never |
| BusListener.Bus.Feed | sdk/python/gsusb/bus.py:269-279 | with other threads in every gap the frame ends as the newest entry of the queue |
| BusListener.Bus.Poll | sdk/python/gsusb/bus.py:257-265 | on a set stop event it leaves, taking nothing; otherwise, time-outs aside, it leaves exactly on a stopped and empty channel and else takes a frame if there is one |
| BusListener.Bus.ListenLoop | sdk/python/gsusb/bus.py:255-288 | runs of the loop are runs of the machine, one look at the stop event each turn; with the event set the first turn leaves and hands out nothing; the detectors get the frames taken |
| BusListener.Bus.Recv | sdk/python/gsusb/bus.py:298-307 | recv() takes the oldest queued frame, or nothing from an empty queue |
| BusListener.Bus.Start | sdk/python/gsusb/bus.py:210-232 | nothing if the bus is started or the driver refuses, otherwise the machine's start: bus and channel started, the event clear, a listener at the top of its loop |
| BusListener.Bus.RequestStop | sdk/python/gsusb/bus.py:234-237 | on a started bus the event is set and nothing else changes |
| BusListener.Bus.FinishStop | sdk/python/gsusb/bus.py:241-243 | once the listener is gone bus and channel are stopped, queued frames staying |
| Lifecycle.ActiveChannelsCountsStarted | driver/src/gsusb.c:681-747 | in every reachable state, overlaps and failed thread creations included, active_channels is the number of started channels |
| Lifecycle.ReaderLifecycle | driver/src/gsusb.c:557-761 | while calls that overlap are harmless: at most one unjoined reader; between calls reader_running, an unjoined reader and an active channel coincide; joins have their target; a freed device has no reader and no caller; no push to a destroyed queue; at most one packet after the stop |
| Lifecycle.StopBoundsReader | driver/src/gsusb.c:326-345 | once stop_flag is set each reader takes at most three more steps until a start clears it; refused starts and starts beside a running reader do not |
| Lifecycle.JoinIsNeverStuck | driver/src/gsusb.c:754-759 | a pending join can proceed or its reader can step |
| LifecycleHistory.StartedIffStartedLast | driver/src/gsusb.c:677-747 | over every run, overlaps included, a channel is started iff a start of it took effect and no stop of it came after |
| LifecycleHistory.StopFlagIffToldLast | driver/src/gsusb.c:557-747 | stop_flag is set iff a close, or the stop of the only started channel, came after the last start that needed a reader |
| LifecycleHistory.ReaderRunningIffCreatedLast | driver/src/gsusb.c:719-759 | reader_running is set iff a start created a reader and no stop has cleared it since |
| LifecycleHistory.ReaderStepEffect | driver/src/gsusb.c:557-759 | the steps that change reader_running, destroy the queues and create readers, and no others do |
| LifecycleHistory.PacketStepEffect | driver/src/gsusb.c:312-345 | what counts as a push to a destroyed queue and as a packet handled after the stop |
| LifecycleHistory.NoPushAfterClose | driver/src/gsusb.c:557-580 | while overlapping calls are harmless, no packet is handled at any step of a run once the queues are destroyed |
| LifecycleHistory.AtMostOneHandled | driver/src/gsusb.c:326-345 | and from a set stop_flag until a start clears it at most one is, none unless the reader is past its look at the flag |
| LifecycleOverlap.HarmfulBreaks | driver/src/gsusb.c:557-761 | a call that begins harmfully during another breaks one of these at the latest when the other returns, no further call beginning |
| LifecycleOverlap.OverlapAllowedIffHarmless | driver/src/gsusb.c:557-761 | in every state reached so far in order a call beginning during another is harmless iff the reader properties hold for ever after |
| LifecycleOverlap.OverlapLosesTheReader | driver/src/gsusb.c:741-759 | an overlapping stop and start that leave an active channel without a reader |
| LifecycleDevice.Device.Start | driver/src/gsusb.c:677-730 | the code of every outcome; OK exactly if the channel is started by it, with the count one up, the reader running, created if none was, and the flag then clear; otherwise channels, count and readers as before, the rollback of a failed thread creation included |
| LifecycleDevice.Device.StopLocked | driver/src/gsusb.c:736-747 | afterwards the channel is not started, the others are as before, the count is one less iff it was started, and the reader is told to stop iff that leaves none |
| LifecycleDevice.Device.CloseLocked | driver/src/gsusb.c:562-565 | the reader is told to stop and nothing else changes |
| LifecycleDevice.Device.Stop | driver/src/gsusb.c:732-761 | with any steps of other threads while the lock is free, a whole stop is a run of the machine in which its caller takes the stop step and, if the last channel was stopped, then the join, then the clearing, and waits while the reader is there |
| LifecycleDevice.Device.Close | driver/src/gsusb.c:557-580 | with any steps of other threads in between, a whole close is a run in which its caller takes the close step, the join and the freeing, in that order, and waits only for a running reader |
| LifecycleDevice.Device.ReaderThread | driver/src/gsusb.c:319-349 | with any steps of other threads in between, the thread is a run of whole check, read and handle turns, left only on a set stop flag, a dead device or a failed allocation |
| BitField.ExtractIntel | sdk/python/examples/rpm_monitor.py:38-47 | the loop yields the data's little-endian value divided by 2^start, modulo 2^length, absent bytes being zero |
| BitField.DataBitIsValueBit | sdk/python/examples/rpm_monitor.py:43-46 | the bit the loop tests is that bit of the little-endian value |
| BitField.FieldsConcatenate | sdk/python/examples/rpm_monitor.py:38-47 | a field of n + m bits is its low n bits and the m bits above them |
| BitField.ExtractIntel32 | sdk/lua/gsusb/examples/rpm_monitor.lua:42-56 | the 32-bit loop agrees with the unbounded one iff the field's value is below 2^31, so for all lengths up to 31; at 32 it is the signed reading; at any length each of its 32 bits is the OR of the field's bits at that place modulo 32 |
| BitField.EngineSpeedIsBytes34 | sdk/python/examples/rpm_monitor.py:50-62 | the speed is bytes 3 and 4 in eighths unless byte 4 is above 0xFA, and is at most 8031.875 |
| BitField.SpeedIsReading | sdk/python/examples/rpm_monitor.py:31-62 | for every id by its bytes: a speed is read iff the frame is extended, the two bytes above the lowest are 0xF0 and 0x04, there are six bytes and byte 4 is at most 0xFA; eight times it is byte 3 plus 256 times byte 4 |
| BitField.TryGetEngineSpeed | sdk/python/examples/rpm_monitor.py:50-62 | the Python reading of every frame, in these numbers |
| BitField.TryGetEngineSpeed32 | sdk/lua/gsusb/examples/rpm_monitor.lua:60-74 | the Lua reading, in the same numbers and equal to the Python one on every frame |
| Cansend.ParseHex | driver/tools/common.h:69-77 | accepts exactly the texts of blanks, a sign, 0x and at least one hex digit, all but the digits optional, and hands out what strtoul and the cast to 32 bits make of the number |
| Cansend.ParseBytes | driver/tools/gsusb_send.c:72-84 | the byte loop: one scan for every two characters into a zeroed data area; odd or overlong data and a failing scan are refused |
| Cansend.DenotesIffRead | driver/tools/common.h:69-77 | a text is read as a number iff it is a numeral denoting it |
| Cansend.ScanReadsHex | driver/tools/gsusb_send.c:77-82 | on hex digits the scans read the bytes that the digit pairs stand for |
| Cansend.ParseFrame | driver/tools/gsusb_send.c:18-105 | the parser yields the frame the text stands for, or fails, for every text |
| Cansend.TextRoundTrip | driver/tools/gsusb_send.c:4-8 | every frame the documented syntax can express, rendered in either case and with any admissible number of id digits, parses to itself, data area included |
| Cansend.ParsedIsExpressible | driver/tools/gsusb_send.c:18-105 | every accepted text, blanks, signs and prefixes included, denotes an expressible frame, id within its mask and length within 8 or 64, whose own text parses to it again |
| CansendTexts.HexDigits | driver/tools/gsusb_send.c:62-65 | the sixteen digits in either case and no other character have a value, each its own |
| CansendTexts.FirstDigit | driver/tools/common.h:69-77 | hex digits are read with the first one the most significant |
| CansendTexts.UlongInNumbers | driver/tools/common.h:72 | numbers past 64 bits are cut to the largest, negated ones come back from 2^64 |
| CansendTexts.RangeIsMask | driver/tools/gsusb_send.c:37-46 | of one to eight hex digits exactly those are accepted as an id that are not 800 or more with three digits and not 20000000 or more with eight |
| CansendTexts.ClassicText | driver/tools/gsusb_send.c:88-102 | an id, "#" and hex digits are accepted iff the id is, the digits are even and at most 16; the frame has that id, extended from four digits on, and the bytes of the digit pairs |
| CansendTexts.RemoteText | driver/tools/gsusb_send.c:85-87 | an id, "#" and R or r are a remote frame, whatever follows |
| CansendTexts.FdText | driver/tools/gsusb_send.c:57-84 | an id, "##", a digit and up to 128 hex digits are an FD frame, BRS and ESI from bits 0 and 1 of the digit |
| CansendTexts.RefusedTexts | driver/tools/gsusb_send.c:22-28 | texts without "#", with nothing or more than eight characters before it are refused |
| CansendTexts.ScannedByte | driver/tools/gsusb_send.c:79-82 | one scan skips blanks and reads two hex digits, one with something else behind it, or a sign and one, and nothing else |

## Left out

- Floating-point rounding: `double` is modelled by exact reals, so nothing is said about errors of the computed errors themselves, nor about NaN sample points.
- A 32-bit C `long`: segment limits above 2^31 - 1 would not fit the variables of the clamp there; `long` is taken to hold every uint32.
- libusb discovery, descriptors, claiming and control transfers in `gsusb_open`: the device is a source of packets and of success or failure.
- Thread primitives and clocks: a locked region is one step; a wait of recv on its condition is a pass that finds nothing, followed by another pass or by the time-out.
- RxQueue.Ring.TryRecv: one pass of recv's loop; the deadline arithmetic before the loop is not modelled.
- Lifecycle.ReaderLifecycle: the mode-reset transfers of stop and close and the destruction of the lock are not steps; whether a call may overlap a close is judged by the listed properties only.
- LifecycleDevice.Device.Stop: a step of another thread that is not possible when its turn comes is passed over, so every list of steps is allowed.
- Python `stop()` when its two-second join times out: the join is taken to complete.
- BusListener.Bus.Start: the mode flags and the driver's start are not modelled; its return code is a parameter.
- BusListener.Bus.ListenLoop: exceptions raised by detectors are not modelled; the source logs and ignores them.
- Cansend.ParseHex: `unsigned long` is taken to have 64 bits, and blanks are those of the C locale.
- Cansend.ParseBytes: whether `sscanf` reads a `0x` that fills its two characters as zero differs between C libraries and is a parameter.
- BitTimingWrap.AnswersOnGridIff: where brp_max and the increment both are a third of the uint32 range or more, three quanta of the first value off the grid may exceed every clock; which request, if any, it then answers depends on how close the other values come.
- Lua C binding, ctypes layer, python-can adapter, detectors and frame constructors: marshalling and masks.
- Command-line mains, printing, deployment, udev rules and error strings: input, output and constant lookups.
- Termination, identify and state calls: single control transfers.
