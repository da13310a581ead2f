# Verified model of the GRAMS time-of-flight software

A Dafny model of the flight, ground and analysis code for the GRAMS time-of-flight detector, with proofs
of what that code keeps over every input, interleaving and run. `dafny verify dfyconfig.toml` checks it.

- **Wire stack.** `Prelude`, `Bytes`, `Crc16`, `CommandCodec`, `PacketDamage`: framed packets, their CRC and what it
  catches. `StreamReassembly`, `CommandQueue`, `CommandClient`: packets rebuilt from a fragmented TCP
  stream, acknowledged and queued with STOP and RESET first. `HostMemory`, `LogCodec`, `MonitorCodec`,
  `TelemetryBridge`: telemetry from record to the row the ground station stores.
- **Command dispatch.** `TaskRegistry` (background processes, STOP sweeps, the monitor thread) and
  `MacroMachine`, `MacroProgress` (worker and macro thread, stop flag, thread handle, vault path) are state machines whose
  steps are single locked regions or single accesses to an atomic; the theorems quantify over all runs.
- **Ring buffers.** `DmaRing` (the kernel driver's read) and `FrameAcquisition` (frame consumption from
  shared memory) carry unbounded ghost positions next to the wrapping pointers.
- **Register caches.** `BitFields`, `Tofpet2b`, `Tofpet2c`: configuration words and both field tables.
  `AsicCache`, `AsicCacheRuns`: the write, read back, cache protocol. `HvPower`: the bias DAC cache and power sequencing.
- **Analysis.** `Coincidence`: the event builder against a specification without a map. `CoincidenceWindow`:
  what its window guarantees. `BiasDac`: inversion of the bias calibration table.

Conventions. Bytes and words are bounded integers. Words copied from memory are little-endian, as on the
flight computer; floats and doubles are their bit patterns. What the environment decides (read sizes, send
results, waitpid results, producer schedules, failing commands, the text decoder) is a parameter every
theorem quantifies over. A step function, an object or a loop of the code is proved against a specification
function, and the theorems are about that function.

## Where the code does less than expected

Each is a theorem below, with its exact condition.

- Damage to a packet is accepted exactly when the damage is a CRC codeword, and a burst across the boundary of
  arguments and CRC can be one (`PacketDamage.AcceptedIffCodeword`, `PacketDamage.StraddlingBurstAccepted`).
- A stop script gets two callbacks exactly when it is hit between the two locked regions of its own STOP and
  again afterwards (`TaskRegistry.TwoCallbacksIff`), as two overlapping STOPs do.
- RESET_DAQ takes a joinable handle for a running macro. After a finished macro a successful reset blocks all
  macros until a STOP or a reset whose START fails (`MacroMachine.ResetRaisesFlagIff`,
  `MacroProgress.StuckReachable`, `MacroMachine.StuckUntilStop`); without hub resets the flag always means a macro
  (`MacroMachine.FlagAlwaysMeansMacro`).
- getAsicsConfig summarises channel 63 only (`AsicCache.LastPairsExact`, `AsicCache.AsicSummaryExactIff`).
- After a failed ASIC command an unforced retry skips the register if its stale cached value equals the request
  (`AsicCache.Connection.SetAsicsConfig`, `AsicCacheRuns.RetryLeavesStale`), and a TAC summary left wrong by a
  failed call stays wrong if the retry changes no TAC field (`AsicCacheRuns.RetryKeepsWrongSummary`).
- DAC values of 65536 and above wrap (`HvPower.DacCodeExact`). Power-off skips a DAC in doubt if a zero is cached
  (`HvPower.BiasOffFacts`), so bias can fall above the floor (`HvPower.BiasOffAboveFloor`).
- A hit on an inactive channel moves the coincidence anchor while one channel is present. Events can then be wider
  than the window, without bound (`CoincidenceWindow.WideAheadIff`, `CoincidenceWindow.InactiveHitsStretchWindow`).
- The 16-bit argument count loses long histograms and graphs (`MonitorCodec.HistogramSurvives`,
  `MonitorCodec.GraphSurvives`); graph decoding does not check its point count (`MonitorCodec.InBoundsIff`);
  log decoding checks its length in 32 bits (`LogCodec.OverrunIff`).
- The bridge reads CRC and footer as a bin when a histogram has fewer than nx+2 bins
  (`TelemetryBridge.BinsAreHistogramsIff`), and stores packets that the flight decoders refuse
  (`TelemetryBridge.LogDecodersAgree`, `TelemetryBridge.HistogramDecodersAgree`,
  `TelemetryBridge.RefusedGraphsStored`, `TelemetryBridge.ParameterDecodersAgree`).

## Model

| member | source | states |
|---|---|---|
| `Crc16.ComputeCrc` | FlightOps/src/GRAMS_TOF_CommandCodec.cpp:173-183 | the byte-and-bit loop computes the specification register value |
| `Crc16.CrcLinear` | FlightOps/src/GRAMS_TOF_CommandCodec.cpp:173-183 | the CRC of an exclusive or is the exclusive or of the CRCs, for all register values and equal-length data |
| `Crc16.CrcIsFeed` | FlightOps/src/GRAMS_TOF_CommandCodec.cpp:173-183 | the byte-wise loop equals feeding the message bit by bit, low bit first |
| `Crc16.BurstDetected` | FlightOps/src/GRAMS_TOF_CommandCodec.cpp:173-183 | any nonzero difference confined to 16 consecutive bits (low bit of each byte first) changes the CRC, at any length |
| `CommandCodec.SerializePacket` | FlightOps/src/GRAMS_TOF_CommandCodec.cpp:129-158 | the pushes produce header, code, count, big-endian arguments, computed or imposed CRC and footers |
| `CommandCodec.WireFields` | FlightOps/src/GRAMS_TOF_CommandCodec.cpp:129-158 | the fields of every packet on the wire, with the literal headers and footers, arguments at their offsets and the CRC of everything before it |
| `Bytes.ReadsHighFirst` | FlightOps/src/GRAMS_TOF_CommandCodec.cpp:129-158 | 16-bit and 32-bit fields are read high byte first |
| `CommandCodec.ImposedCrc` | FlightOps/src/GRAMS_TOF_CommandCodec.cpp:129-158 | a CRC imposed by the caller replaces the computed one and nothing else |
| `CommandCodec.ParsePacket` | FlightOps/src/GRAMS_TOF_CommandCodec.cpp:55-127 | accepts and fills a packet exactly as the specification function does |
| `CommandCodec.ParseOfSerialize` | FlightOps/src/GRAMS_TOF_CommandCodec.cpp:55-158 | the image of any well-formed packet followed by any bytes parses to that packet |
| `CommandCodec.SerializeOfParse` | FlightOps/src/GRAMS_TOF_CommandCodec.cpp:55-158 | whatever parses begins with the serialization of the result, which is well formed |
| `CommandCodec.ParseExact` | FlightOps/src/GRAMS_TOF_CommandCodec.cpp:55-158 | parse returns p if and only if the data begins with the image of the well-formed p |
| `CommandCodec.SelfDelimiting` | FlightOps/src/GRAMS_TOF_CommandCodec.cpp:129-191 | no image is a proper prefix of another: equal concatenations have equal packets and equal rests; lengths are getPacketSize |
| `PacketDamage.AcceptedIffCodeword` | FlightOps/src/GRAMS_TOF_CommandCodec.cpp:93-127 | with headers, count and footers intact, a damaged image is accepted if and only if the damage itself is a CRC codeword |
| `PacketDamage.ContentBurstRejected` | FlightOps/src/GRAMS_TOF_CommandCodec.cpp:93-127 | a burst of up to 16 bits in code, arguments or headers is always rejected |
| `PacketDamage.TailDamageRejected` | FlightOps/src/GRAMS_TOF_CommandCodec.cpp:100-127 | any damage confined to CRC and footers is rejected |
| `PacketDamage.StraddlingBurstAccepted` | FlightOps/src/GRAMS_TOF_CommandCodec.cpp:100-107 | finding: every packet with an argument has a 13-bit burst across the argument/CRC boundary that is accepted as another packet, because the CRC is sent high byte first |
| `StreamReassembly.FrameStable` | FlightOps/src/GRAMS_TOF_CommandClient.cpp:201-230 | bytes arriving later never change a frame that has been decided |
| `StreamReassembly.ChunkInvariance` | FlightOps/src/GRAMS_TOF_CommandClient.cpp:197-279 | for every cutting of a stream into reads, every acknowledgement outcome and every starting connection, the final connection is that of one single read |
| `StreamReassembly.CuttingsAgree` | FlightOps/src/GRAMS_TOF_CommandClient.cpp:197-279 | two cuttings of the same bytes give the same packets, leftover and closing reason |
| `StreamReassembly.ConnectionIsOneDrain` | FlightOps/src/GRAMS_TOF_CommandClient.cpp:197-279 | a whole connection equals one greedy parse of the concatenated bytes |
| `StreamReassembly.DrainSound` | FlightOps/src/GRAMS_TOF_CommandClient.cpp:201-266 | an open drain has split the buffer into images of well-formed packets and an incomplete rest, with every acknowledgement sent |
| `StreamReassembly.DrainStops` | FlightOps/src/GRAMS_TOF_CommandClient.cpp:201-266 | a closing drain has accepted exactly the packets in front of the frame that failed to parse or to be acknowledged |
| `StreamReassembly.DrainComplete` | FlightOps/src/GRAMS_TOF_CommandClient.cpp:201-266 | images of well-formed packets followed by an incomplete frame are all accepted |
| `StreamReassembly.DrainExact` | FlightOps/src/GRAMS_TOF_CommandClient.cpp:201-266 | a drain ends open with given packets and rest if and only if the buffer is their images plus an incomplete frame and the acknowledgements were sent |
| `StreamReassembly.AcksAccountForBytes` | FlightOps/src/GRAMS_TOF_CommandClient.cpp:224-265 | the acknowledged sizes sum to exactly the bytes that have left the buffer, and after closing to the bytes in front of the one frame that closed the connection |
| `StreamReassembly.SenderToReceiver` | FlightOps/src/GRAMS_TOF_CommandClient.cpp:197-266 | packets serialized by a sender all arrive, in order, however the stream is fragmented |
| `CommandQueue.StepConserves` | FlightOps/src/GRAMS_TOF_CommandClient.cpp:248-311 | every step of network thread, worker and start/stop keeps: arrivals = starts + queue as multisets, ordinary commands in arrival order |
| `CommandQueue.RunConserves` | FlightOps/src/GRAMS_TOF_CommandClient.cpp:248-311 | the same over every run, restarts included |
| `CommandQueue.QueueCorrect` | FlightOps/src/GRAMS_TOF_CommandClient.cpp:248-311 | accepted = executed + still queued as multisets, and FIFO among ordinary commands, in every run from the start |
| `CommandQueue.UrgentArrival` | FlightOps/src/GRAMS_TOF_CommandClient.cpp:250-256 | commands 0x5001 and 0x5002, and no others, are at the front the moment they arrive; all others go to the back |
| `CommandQueue.UrgentOvertakes` | FlightOps/src/GRAMS_TOF_CommandClient.cpp:250-311 | between arrival and start of a STOP or RESET only STOP/RESET commands that arrived even later start |
| `CommandQueue.WorkerDrains` | FlightOps/src/GRAMS_TOF_CommandClient.cpp:289-311 | while running the worker starts the queued commands from the front, in order, one after the other |
| `CommandQueue.StartResumes` | FlightOps/src/GRAMS_TOF_CommandClient.cpp:35-46 | start() brings a stopped client's worker to its loop head with its queue |
| `CommandQueue.HaltStops` | FlightOps/src/GRAMS_TOF_CommandClient.cpp:48-54 | after stop() at most the one command the worker is waiting for still starts, in every run without a start() |
| `CommandQueue.HaltedWorkerExits` | FlightOps/src/GRAMS_TOF_CommandClient.cpp:290-296 | a stopped worker exits at its loop head, or from its wait when the queue is empty |
| `CommandClient.Client.constructor` | FlightOps/src/GRAMS_TOF_CommandClient.cpp:28-29 | empty buffer and queue, nothing sent |
| `CommandClient.Client.Reconnect` | FlightOps/src/GRAMS_TOF_CommandClient.cpp:269-284 | a new connection starts with an empty buffer and keeps the queue |
| `CommandClient.Client.Enqueue` | FlightOps/src/GRAMS_TOF_CommandClient.cpp:248-257 | the deque insertion is the Enqueue step of the queue model |
| `CommandClient.Client.HandleFrame` | FlightOps/src/GRAMS_TOF_CommandClient.cpp:201-265 | one pass of the framing loop is one frame of the stream model: buffer, acknowledgement bytes, closing reason and queue |
| `CommandClient.AckParses` | FlightOps/src/GRAMS_TOF_CommandClient.cpp:232-239 | the acknowledgement of a packet parses as its own code with one argument, 14 plus four times its count |
| `CommandClient.Client.ProcessRead` | FlightOps/src/GRAMS_TOF_CommandClient.cpp:197-279 | the loop refines the stream model; every frame sent parses as the code and size of the accepted packet of the same number, and these packets enter the queue in order |
| `CommandClient.Client.TakeCommand` | FlightOps/src/GRAMS_TOF_CommandClient.cpp:292-300 | the worker's critical section takes the front or exits |
| `TaskRegistry.StepKeeps` | FlightOps/src/GRAMS_TOF_CommandDispatch.cpp:78-108 | every locked region keeps the callback accounting of every process |
| `TaskRegistry.RunKeeps` | FlightOps/src/GRAMS_TOF_CommandDispatch.cpp:78-108 | the accounting holds in every interleaving |
| `TaskRegistry.TaskCallbacks` | FlightOps/src/GRAMS_TOF_CommandDispatch.cpp:1384-1411 | in every interleaving a background task gets no callback while registered and exactly one after leaving, none if it left on waitpid -1 or silently |
| `TaskRegistry.StepCallback` | FlightOps/src/GRAMS_TOF_CommandDispatch.cpp:97-103 | the callback each step adds: Success for a reported exit with success, Failure for one with failure, Interrupted from another STOP's sweep, none otherwise |
| `TaskRegistry.WhichCallback` | FlightOps/src/GRAMS_TOF_CommandDispatch.cpp:1393-1407 | in every interleaving a background task's callback is the one called for by the step that removed it |
| `TaskRegistry.EveryEndReported` | FlightOps/src/GRAMS_TOF_CommandDispatch.cpp:1213-1222 | from any state a fresh task can be launched, and each way of leaving gives its callback |
| `TaskRegistry.StopScriptCallbacks` | FlightOps/src/GRAMS_TOF_CommandDispatch.cpp:85-107 | a stop script gets at most two callbacks, and two exactly when it was reported before its own sweep and has left again |
| `TaskRegistry.TwoCallbacksIff` | FlightOps/src/GRAMS_TOF_CommandDispatch.cpp:78-108 | finding, over every schedule: a stop script gets two callbacks if and only if a step (another sweep, or a poll finding it finished) hits it while its STOP is between its two locked regions and another hits it after its sweep put it back |
| `TaskRegistry.UndisturbedCallsOnce` | FlightOps/src/GRAMS_TOF_CommandDispatch.cpp:78-108 | any process gets at most one callback if no such step happens between the two locked regions of its own STOP; other steps there are harmless |
| `TaskRegistry.UninterruptedStopsCallOnce` | FlightOps/src/GRAMS_TOF_CommandDispatch.cpp:85-107 | in particular, if every STOP sweeps right after registering, every process of the run gets at most one callback |
| `TaskRegistry.ConcurrentStopsCallTwice` | FlightOps/src/GRAMS_TOF_CommandDispatch.cpp:85-107 | from any state, two overlapping STOPs and one monitor pass give one stop script the callbacks 2 and 0 |
| `TaskRegistry.SweepTable` | FlightOps/src/GRAMS_TOF_CommandDispatch.cpp:97-103 | one Interrupted callback for every registered process except the stop script |
| `TaskRegistry.PollTable` | FlightOps/src/GRAMS_TOF_CommandDispatch.cpp:1388-1411 | keeps exactly the running processes; reports exactly the finished ones that ask for it, 0 if they succeeded and 1 if not |
| `TaskRegistry.Registry.constructor` | FlightOps/src/GRAMS_TOF_CommandDispatch.cpp:1384-1388 | the empty registry satisfies the accounting |
| `TaskRegistry.Registry.Register` | FlightOps/src/GRAMS_TOF_CommandDispatch.cpp:1213-1222 | registration is the Launch step |
| `TaskRegistry.Registry.RegisterStop` | FlightOps/src/GRAMS_TOF_CommandDispatch.cpp:85-90 | registration of the stop script is the first STOP step |
| `TaskRegistry.Registry.Sweep` | FlightOps/src/GRAMS_TOF_CommandDispatch.cpp:95-108 | the sweep is the second STOP step, with its callbacks |
| `TaskRegistry.Registry.MonitorPass` | FlightOps/src/GRAMS_TOF_CommandDispatch.cpp:1386-1412 | a monitor pass is the Poll step, with its callbacks |
| `MacroMachine.StepKeepsOneThread` | FlightOps/src/GRAMS_TOF_CommandDispatch.cpp:869-898 | every step of worker and macro thread keeps: one live macro thread, handle not overwritten while joinable, vault path set exactly while a sequence runs |
| `MacroMachine.AtMostOneMacro` | FlightOps/src/GRAMS_TOF_CommandDispatch.cpp:869-1087 | the same in every interleaving, hub resets included |
| `MacroMachine.DispatchesPrefix` | FlightOps/src/GRAMS_TOF_CommandDispatch.cpp:1289-1333 | in every interleaving without a hub RESET the dispatched steps are a prefix of the declared sequence, with SEND_PULSE_TRAIN fused |
| `MacroMachine.SuccessMeansComplete` | FlightOps/src/GRAMS_TOF_CommandDispatch.cpp:1289-1342 | a sequence reports success only when it has dispatched every step, or all but a last SEND_PULSE_TRAIN skipped after a STOP |
| `MacroProgress.RequestStarts` | FlightOps/src/GRAMS_TOF_CommandDispatch.cpp:869-898 | with the flag down and no live macro a request starts its macro from the beginning, joining the previous thread |
| `MacroProgress.RequestRefused` | FlightOps/src/GRAMS_TOF_CommandDispatch.cpp:870-874 | with the flag up it is refused and nothing changes |
| `MacroProgress.MacroCompletes` | FlightOps/src/GRAMS_TOF_CommandDispatch.cpp:1265-1382 | without STOP, hub reset or failure, and with every wait ending, a macro thread dispatches its whole sequence, as many cycles as asked, and ends, however the run is interleaved |
| `MacroProgress.CalmNeverFails` | FlightOps/src/GRAMS_TOF_CommandDispatch.cpp:1289-1342 | no pass of such a run fails, and one that returns has dispatched every step |
| `MacroProgress.EndingIff` | FlightOps/src/GRAMS_TOF_CommandDispatch.cpp:1275-1304 | exactly what ends a macro: vault or handler failure, the flag seen down before a step or cycle, or all done |
| `MacroProgress.EndingIsFinal` | FlightOps/src/GRAMS_TOF_CommandDispatch.cpp:1291-1304 | from there that thread dispatches nothing more and starts no cycle, whatever else happens |
| `MacroProgress.OwnReset` | FlightOps/src/GRAMS_TOF_CommandDispatch.cpp:134-155 | a RESET_DAQ step of the macro lowers the flag and has raised it again when it is over |
| `MacroProgress.LimitsAndFusion` | FlightOps/src/GRAMS_TOF_CommandDispatch.cpp:1310-1373 | a limited macro runs at most its limit of cycles, and the thread never waits for ACQUIRE_SIPM_DATA before its fused SEND_PULSE_TRAIN |
| `MacroMachine.MacroRuns` | FlightOps/src/GRAMS_TOF_CommandDispatch.cpp:1265-1382 | these results and the meaning of the flag from the initial state |
| `MacroMachine.FlagAlwaysMeansMacro` | FlightOps/src/GRAMS_TOF_CommandDispatch.cpp:869-898 | in every interleaving without a hub RESET the flag is up only for a live macro thread or one the worker is about to create, so no macro request is refused without a macro |
| `MacroMachine.StoppedRun` | FlightOps/src/GRAMS_TOF_CommandDispatch.cpp:1289-1378 | once the flag is down and will not be raised again by the thread, no further step beyond an already checked one and no new cycle, for the rest of the thread's life |
| `MacroMachine.StopEndsMacro` | FlightOps/src/GRAMS_TOF_CommandDispatch.cpp:75-76 | a STOP that lowers the flag after the sequence raised it allows at most the one already checked dispatch and no new cycle |
| `MacroMachine.DeclaredMacrosStoppable` | FlightOps/src/GRAMS_TOF_CommandDispatch.cpp:882-1082 | in all seven declared macros RESET_DAQ can only be first, so that STOP guarantee holds from the second step on |
| `MacroMachine.ResetRaisesFlagIff` | FlightOps/src/GRAMS_TOF_CommandDispatch.cpp:134-155 | finding: with no live macro, a hub RESET leaves the flag up if and only if a finished thread has not been joined and START succeeds; the program is then stuck |
| `MacroMachine.StuckAfterResetIff` | FlightOps/src/GRAMS_TOF_CommandDispatch.cpp:145-155 | whatever ran during a hub RESET, its last step leaves the program stuck if and only if the macro thread has ended by then and the flag is up or raised |
| `MacroProgress.StuckReachable` | FlightOps/src/GRAMS_TOF_CommandDispatch.cpp:134-155 | for every one-shot macro, a run from the initial state that ends stuck |
| `MacroMachine.StuckUntilStop` | FlightOps/src/GRAMS_TOF_CommandDispatch.cpp:134-155 | stuck, every macro request is refused and no thread is created, through any number of successful hub RESETs, until a STOP or a RESET whose START fails |
| `MacroMachine.StopUnsticks` | FlightOps/src/GRAMS_TOF_CommandDispatch.cpp:75-76 | a STOP restores the meaning of the flag from any state |
| `DmaRing.PointersTell` | FlightOps/external/kernel/psdaq.c:369 | pointers of positions at most one ring apart are equal if and only if the positions are |
| `DmaRing.UsedPartitions` | FlightOps/external/kernel/psdaq.c:392 | the pointer difference modulo twice the ring is the number of unread partitions |
| `DmaRing.FillsFreeSlot` | FlightOps/external/kernel/psdaq.c:383-384 | filling the next slot disturbs no unread frame |
| `DmaRing.FrameSize` | FlightOps/external/kernel/psdaq.c:386-389 | a frame has eight bytes for each word counted by the 15-bit field at bit 36 of its header |
| `DmaRing.Device.constructor` | FlightOps/external/kernel/psdaq.c:239-242 | the initial pointers describe an empty ring |
| `DmaRing.Device.Tick` | FlightOps/external/kernel/psdaq.c:169-174 | the card, writing at most one ring past the published pointer, keeps every unread frame in place |
| `DmaRing.Device.ReadWritePointer` | FlightOps/external/kernel/psdaq.c:373-375 | reading register 29 learns the producer's position |
| `DmaRing.Device.WaitForData` | FlightOps/external/kernel/psdaq.c:367-381 | reports empty only if nothing new was produced before the call, after reading the register nine times |
| `DmaRing.Device.CopyFrame` | FlightOps/external/kernel/psdaq.c:383-393 | hands over the next frame in production order and advances, or faults and stays |
| `DmaRing.Device.PublishReadPointer` | FlightOps/external/kernel/psdaq.c:401-411 | register 29 then equals dma_rd_pointer |
| `DmaRing.Device.Read` | FlightOps/external/kernel/psdaq.c:360-412 | over every producer schedule: frames handed over are the next ones, none lost or repeated; a fault-free return leaves nothing unread of what was seen unless no room is left; every return leaves register 29 equal to dma_rd_pointer; terminates on zero-length frames; the byte count is exact and stays within count unless the last frame exceeds its partition |
| `FrameAcquisition.DistanceIsAvailable` | FlightOps/external/petsys/daqd.py:1211-1213 | the folded pointer distance is the number of frames available |
| `FrameAcquisition.PointersTell` | FlightOps/external/petsys/daqd.py:1208 | pointers modulo 2*bs are equal if and only if no frame is available |
| `FrameAcquisition.SlotBefore` | FlightOps/external/petsys/daqd.py:1241 | the index expression finds the last consumed frame |
| `FrameAcquisition.PointerPlus` | FlightOps/external/petsys/daqd.py:1228 | advancing the pointer modulo 2*bs advances the position |
| `FrameAcquisition.Daqd.ConsumeBlock` | FlightOps/external/rawdata/tools/write_raw.cpp:175-221 | the writer reads exactly the frames of the block in order and returns the pointer it was given, while the producer keeps running |
| `FrameAcquisition.Daqd.AcquireBlock` | FlightOps/external/petsys/daqd.py:1211-1246 | a block has exactly min(available, wanted, bs//2) frames, never passes the producer and ends at the reported frame |
| `FrameAcquisition.Daqd.StepBlock` | FlightOps/external/petsys/daqd.py:1188-1196 | the start and end blocks consume nothing and keep the read pointer |
| `FrameAcquisition.Daqd.Await` | FlightOps/external/petsys/daqd.py:1207-1209 | returns with frames available or reports that acquisition stopped |
| `FrameAcquisition.Daqd.Acquire` | FlightOps/external/petsys/daqd.py:1176-1264 | for every producer schedule with consecutive identifiers, startFrame to stopFrame inclusive are consumed exactly once and in order, in blocks of at most bs//2; a steady producer completes it |
| `BitFields.ValueOfBits` | FlightOps/external/petsys/bitarray_utils.py:6-28 | bits of a value that fits read back as the value |
| `BitFields.BitsOfValue` | FlightOps/external/petsys/bitarray_utils.py:6-28 | the value of any bit list converts back to that list |
| `BitFields.BitsAt` | FlightOps/external/petsys/bitarray_utils.py:14-16 | bit n-i-1 of the list is bit i of the value |
| `BitFields.IntToBin` | FlightOps/external/petsys/bitarray_utils.py:6-19 | the loop yields the bits of the value clamped to the width, for any integer |
| `BitFields.BinToInt` | FlightOps/external/petsys/bitarray_utils.py:21-28 | the loop yields the value of the bit list |
| `BitFields.GetOfPut` | FlightOps/external/petsys/tofpet2b.py:122-147 | setBits then getBits of a field returns what was set |
| `BitFields.PutAt` | FlightOps/external/petsys/tofpet2b.py:129-133 | bit b of a field is stored at position width-1-b |
| `BitFields.GetElsewhere` | FlightOps/external/petsys/tofpet2b.py:122-147 | setBits leaves every disjoint field unchanged |
| `BitFields.ReadsLastWrite` | FlightOps/external/petsys/tofpet2b.py:122-147 | for every table of disjoint fields and every sequence of setValue calls with any integers, each key reads its last value, 0 if it was negative and the largest value of its width if it was larger; unwritten keys keep their initial value |
| `BitFields.LastWriteIs` | FlightOps/external/petsys/tofpet2b.py:122-124 | the last write of a key is the last entry with that key |
| `BitFields.OwnersSeparate` | FlightOps/external/petsys/tofpet2b.py:23-71 | a table in which every bit has one owner is disjoint |
| `BitFields.ConfigWord.constructor` | FlightOps/external/petsys/tofpet2b.py:73-78 | the word starts with the given bits |
| `BitFields.ConfigWord.SetBits` | FlightOps/external/petsys/tofpet2b.py:129-133 | the in-place loop is the field update |
| `BitFields.ConfigWord.GetBits` | FlightOps/external/petsys/tofpet2b.py:137-142 | the loop reads the field |
| `BitFields.ConfigWord.SetValue` | FlightOps/external/petsys/tofpet2b.py:122-124 | clamps and writes the field, nothing else |
| `BitFields.ConfigWord.GetValue` | FlightOps/external/petsys/tofpet2b.py:146-147 | reads the field's value |
| `Tofpet2b.GlobalReadsLastWrite` | FlightOps/external/petsys/tofpet2b.py:23-71 | the sequence law for the 184-bit global word of version 2B |
| `Tofpet2b.ChannelReadsLastWrite` | FlightOps/external/petsys/tofpet2b.py:176-220 | the sequence law for the 125-bit channel word of version 2B |
| `Tofpet2c.GlobalReadsLastWrite` | FlightOps/external/petsys/tofpet2c.py:24-74 | the sequence law for the global word of version 2C |
| `Tofpet2c.ChannelReadsLastWrite` | FlightOps/external/petsys/tofpet2c.py:182-226 | the sequence law for the channel word of version 2C |
| `AsicCache.TacFields` | FlightOps/external/petsys/daqd.py:954-956 | the two TAC settings are the named fields of both versions' tables |
| `AsicCache.LastPairsExact` | FlightOps/external/petsys/daqd.py:948-957 | finding: getAsicsConfig records only channel 63, so its summary is exact if and only if every channel's pair is the last channel's pair of some ASIC |
| `AsicCache.AsicSummaryExactIff` | FlightOps/external/petsys/daqd.py:948-957 | for one ASIC the summary is exact if and only if its channels share tac_max_age |
| `AsicCache.UniformAgesExact` | FlightOps/external/petsys/daqd.py:948-957 | for all ASICs it is exact when each one's channels share tac_max_age |
| `AsicCache.MixedAgesMissed` | FlightOps/external/petsys/daqd.py:948-957 | an ASIC with a differing first channel has a pair the summary misses |
| `AsicCache.SummaryUnchanged` | FlightOps/external/petsys/daqd.py:979-990 | updates that change neither TAC field leave the exact summary unchanged |
| `AsicCache.CommandedDiffers` | FlightOps/external/petsys/daqd.py:977-991 | after all commands of an ASIC a register differs from the request if and only if it differed from the cache before and was skipped because the cache already held the request |
| `AsicCache.StaleAfter` | FlightOps/external/petsys/daqd.py:970-991 | the same for every register of a table after any number of ASICs |
| `AsicCache.Connection.constructor` | FlightOps/external/petsys/daqd.py:933-936 | nothing is cached |
| `AsicCache.CommandOutcome` | FlightOps/external/petsys/daqd.py:853-860 | a command succeeds if and only if one of its first five attempts does after refusals only, breaks off at the first of these that breaks off, and is given up if and only if five are refused |
| `AsicCache.IssueSplit` | FlightOps/external/petsys/daqd.py:853-860 | a series of commands that stops at the first failure is its first part and then its second |
| `AsicCache.Connection.WriteGlobal` | FlightOps/external/petsys/daqd.py:853-927 | up to five attempts; success leaves the value, failure leaves what the last attempt left, in that register only |
| `AsicCache.Connection.WriteChannel` | FlightOps/external/petsys/daqd.py:853-927 | the same for a channel register |
| `AsicCache.Connection.SetGlobal` | FlightOps/external/petsys/daqd.py:977-981 | commands the register only if it differs or is forced, caches only after success |
| `AsicCache.Connection.SetChannel` | FlightOps/external/petsys/daqd.py:987-991 | the same for a channel register |
| `AsicCache.Connection.SetAsic` | FlightOps/external/petsys/daqd.py:971-991 | one ASIC, from any state: the commands needed are issued in order; all succeed and the request is cached, or cache and hardware are given for the failed register and all others |
| `AsicCache.Connection.TryRead` | FlightOps/external/petsys/daqd.py:853-860 | a read succeeds exactly when one of its attempts does before breaking off or running out |
| `AsicCache.Connection.ReadAsic` | FlightOps/external/petsys/daqd.py:945-950 | registers are read in order; a complete read returns what the hardware holds, otherwise the first failing register is reported |
| `AsicCache.Connection.GetAsicsConfig` | FlightOps/external/petsys/daqd.py:933-959 | from any state, a read returns normally exactly when every register read succeeds, leaves nothing stale and makes the summary the last-channel pairs; a failed one caches exactly the ASICs before the failing register; an unforced call with a cache changes nothing |
| `AsicCache.Connection.RebuildTacRefresh` | FlightOps/external/petsys/daqd.py:993-1003 | the rebuilt summary is exactly the set of pairs in the cache |
| `AsicCache.Connection.ApplyConfig` | FlightOps/external/petsys/daqd.py:969-991 | the loop over ASICs: everything applied by exactly the commands needed, or the whole state at the failed command or the missing key |
| `AsicCache.Connection.DoneIff` | FlightOps/external/petsys/daqd.py:969-991 | with all keys present the loop finishes if and only if every command needed succeeds |
| `AsicCache.Connection.EndedStale` | FlightOps/external/petsys/daqd.py:969-991 | however the loop ends, no register is newly stale but the one whose command failed, and other hardware is untouched |
| `AsicCache.Connection.EnsureCached` | FlightOps/external/petsys/daqd.py:965-967 | without a cache the hardware is read first |
| `AsicCache.Connection.SetAsicsConfig` | FlightOps/external/petsys/daqd.py:964-1007 | from any state. Normal return, exactly when every command needed succeeds: request cached on all active ASICs, exactly the differing registers commanded (all if forced), hardware = cache = request if and only if no stale register already had the request cached (always if forced), TAC summary exact if and only if it was, the call was forced or a TAC field changed. Exception: the whole state at the failed command, no register newly stale but that one, summary left alone |
| `AsicCacheRuns.RetryLeavesStale` | FlightOps/external/petsys/daqd.py:964-991 | finding: from a new connection, for every hardware state and every word left by a broken write: a failed change followed by setting the configuration that was read returns normally, without a command, with that word still in the hardware |
| `AsicCacheRuns.RetryKeepsWrongSummary` | FlightOps/external/petsys/daqd.py:977-1003 | finding: from a new connection, a call that writes a new tac_refresh_period and then fails, retried, returns normally with a TAC summary of the old period |
| `HvPower.DacCodeExact` | FlightOps/external/petsys/spi.py:143-152 | finding: the register gets max(value, floor) if and only if the value is below 65536; above that the high bits are dropped |
| `HvPower.WriteDacIff` | FlightOps/external/petsys/spi.py:137-141 | a write succeeds if and only if the first transfer is echoed, or is garbled and the second is echoed; otherwise the register holds what the last transfer left |
| `HvPower.WriteUpToFacts` | FlightOps/external/petsys/daqd.py:1055-1058 | a pass of channel writes that succeeds has skipped or written every channel it covers, and touched no other |
| `HvPower.WriteUpToStops` | FlightOps/external/petsys/daqd.py:1055-1058 | a pass that fails stopped at one channel: its cached value stands, its register is in doubt, and no later channel was touched |
| `HvPower.ApplyFacts` | FlightOps/external/petsys/daqd.py:1037-1058 | an applied configuration is cached on every channel, and only a channel skipped as cached can still be in doubt |
| `HvPower.ApplyOutcome` | FlightOps/external/petsys/daqd.py:1041-1058 | a configuration call fails on a key or on the rail exactly when a key is missing or the rail write fails, and then changes no DAC and no cache entry |
| `HvPower.WritesSucceed` | FlightOps/external/petsys/daqd.py:1055-1058 | when every transfer works every channel is written |
| `HvPower.BiasOffFacts` | FlightOps/external/petsys/fe_power.py:31-32 | after the DAC part of switching off: known DACs at the floor, zero cached everywhere, and all DACs at the floor if and only if the skipped ones in doubt already were |
| `HvPower.Crate.constructor` | FlightOps/external/petsys/daqd.py:1010-1032 | an empty cache claims nothing |
| `HvPower.Crate.SetChannel` | FlightOps/external/petsys/bias.py:99-108 | floor of one volt, two attempts; the register afterwards, success or not, is what the transfers left; other channels untouched |
| `HvPower.Crate.WriteHvChannel` | FlightOps/external/petsys/daqd.py:1010-1021 | skips cached values, caches only after a successful write, keeps known registers and cache in agreement |
| `HvPower.Crate.GetHvdacConfig` | FlightOps/external/petsys/daqd.py:1028-1032 | returns the cache, after filling an empty one with zeros that no register need hold |
| `HvPower.Crate.SetHvdacConfig` | FlightOps/external/petsys/daqd.py:1037-1058 | the whole new bank on every path: a missing key before any write, a failed rail, a failed channel, or all channels |
| `HvPower.Crate.WriteAll` | FlightOps/external/petsys/daqd.py:1055-1058 | the channel loop is the specified pass, failures included |
| `HvPower.Crate.SetAllToMinimum` | FlightOps/external/petsys/daqd.py:352-355 | the DAC-minimum pass of initializeSystem brings every DAC to the floor |
| `HvPower.Crate.WritePower` | FlightOps/external/petsys/fe_power.py:35 | the only change of power bits: never bias without front-end power, and bias falls only with every known DAC at the floor |
| `HvPower.Crate.SetBiasPower` | FlightOps/external/petsys/fe_power.py:25-35 | power bits and DAC bank on every path; on touches no DAC; after off all DACs are at the floor if and only if the ones in doubt that were skipped through a cached zero already were |
| `HvPower.Crate.SetFemPower` | FlightOps/external/petsys/fe_power.py:44-57 | power bits and DAC bank on every path, power-good failure included, and the same exact condition after off |
| `HvPower.BiasOffAboveFloor` | FlightOps/external/petsys/fe_power.py:25-35 | finding: a run from power-up in which bias is switched off without error while a DAC still holds any value v left by a failed write |
| `Coincidence.ProcessHit` | Analysis/src/TOF_CoincidenceEvents.cpp:93-171 | one entry: window reset, map update, anchor, and a record exactly when size and flags allow it |
| `Coincidence.HitFollowsStream` | Analysis/src/TOF_CoincidenceEvents.cpp:93-119 | the map always holds the latest hit per active channel since the last reset, and the emission test is the specification's |
| `Coincidence.TestsAgree` | Analysis/src/TOF_CoincidenceEvents.cpp:111-119 | map size plus flags is equivalent to: list without repeats and all its channels hit |
| `Coincidence.ProcessEntry` | Analysis/src/TOF_CoincidenceEvents.cpp:68-172 | map and anchor stay those of the stream, and the record is the event due |
| `Coincidence.GetCoincidenceEvents` | Analysis/src/TOF_CoincidenceEvents.cpp:35-173 | the emitted records are exactly the specified events, for every stream, channel list and window |
| `Coincidence.SortChannelsSorts` | Analysis/src/TOF_CoincidenceEvents.cpp:20-33 | the stored list is ascending and a permutation |
| `Coincidence.AscendingEvents` | Analysis/src/TOF_CoincidenceEvents.cpp:20-33 | for a list without repeats an event is due exactly when all its channels are present, and records are in ascending channel order |
| `CoincidenceWindow.EventWithinWindow` | Analysis/src/TOF_CoincidenceEvents.cpp:95-111 | on every time-ordered stream in which no inactive hit has moved the anchor, all hits of an event lie within the window of each other |
| `CoincidenceWindow.ActiveStreamsNeverDrift` | Analysis/src/TOF_CoincidenceEvents.cpp:102-111 | a stream of active channels only has no such hit |
| `CoincidenceWindow.AnchorFollows` | Analysis/src/TOF_CoincidenceEvents.cpp:111 | while one channel is present any hit, active or not, becomes the anchor |
| `CoincidenceWindow.DriftIsStale` | Analysis/src/TOF_CoincidenceEvents.cpp:111 | every inactive hit that moves the anchor leaves a channel older than the anchor |
| `CoincidenceWindow.StaleOnlyByDrift` | Analysis/src/TOF_CoincidenceEvents.cpp:93-111 | only such a hit can |
| `CoincidenceWindow.WideAheadIff` | Analysis/src/TOF_CoincidenceEvents.cpp:93-172 | finding, exact condition: a time-ordered stream can go on with active hits to an event wider than the window if and only if a channel present is older than the anchor |
| `CoincidenceWindow.InactiveHitsStretchWindow` | Analysis/src/TOF_CoincidenceEvents.cpp:111 | for every k, k inactive hits between two active ones give an event that spans k+1 windows |
| `BiasDac.MapBiasChannelVoltageToDac` | FlightOps/external/petsys/config.py:240-253 | the search loop and formula for every table, the failing ones included |
| `BiasDac.DacMonotone` | FlightOps/external/petsys/config.py:240-253 | a higher voltage never maps to a lower setting, extrapolation included |
| `BiasDac.DacAtKnot` | FlightOps/external/petsys/config.py:240-253 | exact at every calibration point |
| `BiasDac.DacInRange` | FlightOps/external/petsys/config.py:240-253 | voltages in the table's range give settings in its range |
| `BiasDac.RoundOfHalf` | FlightOps/external/petsys/config.py:253 | halves are rounded to the even neighbour |
| `BiasDac.VoltageOfExact` | FlightOps/external/petsys/config.py:240-253 | interpolating back the unrounded setting returns the request |
| `BiasDac.DacAccuracy` | FlightOps/external/petsys/config.py:240-253 | interpolating back the rounded setting misses the request by at most half the largest segment slope |
| `HostMemory.UnpackOfPack` | FlightOps/src/GRAMS_TOF_LogCodec.cpp:33-47 | bytes copied into words and back are unchanged |
| `HostMemory.PushName` | FlightOps/src/GRAMS_TOF_MonitorCodec.cpp:9-13 | pushes the name's four words |
| `LogCodec.Encode` | FlightOps/src/GRAMS_TOF_LogCodec.cpp:8-51 | the pushes and the word loop build the specified packet |
| `LogCodec.SentMessage` | FlightOps/src/GRAMS_TOF_LogCodec.cpp:12-17 | messages of up to 10000 bytes are sent whole, longer ones as 10000 bytes and the marker |
| `LogCodec.LogLayout` | FlightOps/src/GRAMS_TOF_LogCodec.cpp:19-49 | the words of a log packet |
| `LogCodec.LogSurvives` | FlightOps/src/GRAMS_TOF_LogCodec.cpp:8-84 | every log record survives encode, serialize, parse and decode: all fields come back, messages of up to 10000 bytes whole, longer ones cut at 10000 bytes and marked, component byte 15 cleared |
| `LogCodec.OverrunIff` | FlightOps/src/GRAMS_TOF_LogCodec.cpp:63-81 | finding: decode accepts exactly packets holding the whole message, except that lengths of 2^32-3 and above pass its 32-bit check and overrun |
| `MonitorCodec.EncodeHistogram` | FlightOps/src/GRAMS_TOF_MonitorCodec.cpp:23-49 | builds the specified packet |
| `MonitorCodec.EncodeGraph` | FlightOps/src/GRAMS_TOF_MonitorCodec.cpp:78-100 | the point loop builds the specified packet |
| `MonitorCodec.DecodeGraph` | FlightOps/src/GRAMS_TOF_MonitorCodec.cpp:102-131 | the loop decodes all announced points, or overruns exactly when an index leaves the arguments |
| `MonitorCodec.EncodeParameter` | FlightOps/src/GRAMS_TOF_MonitorCodec.cpp:137-153 | builds the specified packet |
| `MonitorCodec.HistogramLayout` | FlightOps/src/GRAMS_TOF_MonitorCodec.cpp:27-46 | the words of a histogram packet |
| `MonitorCodec.GraphLayout` | FlightOps/src/GRAMS_TOF_MonitorCodec.cpp:82-96 | the words of a graph packet, high word of each value first |
| `MonitorCodec.ParameterLayout` | FlightOps/src/GRAMS_TOF_MonitorCodec.cpp:141-149 | the words of a parameter packet |
| `MonitorCodec.InBoundsIff` | FlightOps/src/GRAMS_TOF_MonitorCodec.cpp:118-129 | finding: nothing relates the announced points to the arguments; decode stays inside if and only if they hold all points |
| `MonitorCodec.HistogramSurvives` | FlightOps/src/GRAMS_TOF_MonitorCodec.cpp:23-72 | a histogram survives encode, serialize, parse and decode if and only if it has at most 65523 bins |
| `MonitorCodec.GraphSurvives` | FlightOps/src/GRAMS_TOF_MonitorCodec.cpp:78-131 | a graph survives if and only if it has at most 16382 points |
| `MonitorCodec.ParameterSurvives` | FlightOps/src/GRAMS_TOF_MonitorCodec.cpp:137-176 | every parameter survives |
| `TelemetryBridge.StoreGraph` | GroundOps/scripts/tof_bridge.py:221-250 | the point loop decodes the specified row |
| `TelemetryBridge.UnknownDropped` | GroundOps/scripts/tof_bridge.py:281-298 | messages without a code, with another code or of an unknown data type are dropped |
| `TelemetryBridge.SwapOfWrite` | GroundOps/scripts/tof_bridge.py:115-118 | reversing each four-byte chunk of the wire image restores the flight computer's bytes |
| `TelemetryBridge.LogDecodersAgree` | GroundOps/scripts/tof_bridge.py:120-149 | on every log packet the bridge stores what the flight decoder returns (keeping component byte 15); where that decoder refuses a packet with a header or overruns, it stores an empty message |
| `TelemetryBridge.HistogramDecodersAgree` | GroundOps/scripts/tof_bridge.py:178-219 | on every TH1F packet: where the flight decoder accepts, the bridge stores its fields and nx+2 bins of a list running on into CRC and footer; of the shorter ones it stores only those of 11 words, without bins |
| `TelemetryBridge.ShortMonitorDropped` | GroundOps/scripts/tof_bridge.py:165-176 | monitor packets without a data type are dropped |
| `TelemetryBridge.BinsAreHistogramsIff` | GroundOps/scripts/tof_bridge.py:203-216 | finding: the stored bins are the first nx+2 of the histogram if and only if it has that many; otherwise one invented bin follows |
| `TelemetryBridge.GraphDecodersAgree` | GroundOps/scripts/tof_bridge.py:221-250 | on every graph packet the flight decoder accepts the bridge stores the same points |
| `TelemetryBridge.RefusedGraphsStored` | GroundOps/scripts/tof_bridge.py:221-250 | finding: graph packets the flight decoder refuses or overruns are stored with the points they hold, and with one more whose last word is CRC and footer when three words are left over |
| `TelemetryBridge.ParameterDecodersAgree` | GroundOps/scripts/tof_bridge.py:252-270 | on every parameter packet: where the flight decoder accepts, the bridge stores the same value; it also stores refused packets of 7 words, with CRC and footer as the low word |
| `TelemetryBridge.LogEndToEnd` | GroundOps/scripts/tof_bridge.py:120-149 | from log record to stored row: all fields, and the text of the whole message up to 10000 bytes, of the cut and marked one beyond |
| `TelemetryBridge.HistogramEndToEnd` | GroundOps/scripts/tof_bridge.py:178-219 | from one-dimensional histogram to stored row |
| `TelemetryBridge.GraphEndToEnd` | GroundOps/scripts/tof_bridge.py:221-250 | from graph to stored row |
| `TelemetryBridge.ParameterEndToEnd` | GroundOps/scripts/tof_bridge.py:252-270 | from parameter to stored row |
| `TelemetryBridge.StripPadding` | GroundOps/scripts/tof_bridge.py:118 | NULs before and after a name are stripped, and nothing else |

## Left out

- Sockets, epoll, signals, fork and exec, waitpid, MQTT, MySQL, pybind and ROOT files: environment steps or parameters.
- Delivery of status callbacks and post-completion callbacks: only attempts are counted.
- The argument limit checks of parser and client: the limit is 0xFFFF, which no 16-bit count exceeds.
- CommandServer, EventServer and EventClient: they parse single reads without reassembly.
- Damage to the argument count field, which moves the frame boundary.
- Rejecting decoders: the fields already written to the output record before a decoder refuses are not modelled.
- TH2F and TProfile rows of the bridge: types 2 and 3 reach its unknown branch. Database insertion and printing.
- Log level names: only the number is modelled; the bridge's names differ from those in `FlightOps/include/GRAMS_TOF_LogCodec.h`.
- UTF-8 decoding: an arbitrary text decoder is a parameter.
- Stopping a macro during its own RESET_DAQ step, before the flag is raised at the start of a sequence, or with a hub RESET in flight: the flag is raised again there.
- Reuse of process identifiers, and the temperature recording thread beyond its launches.
- Descriptor ownership in FDManager and SafeFD.
- FEB/D-8K power control, the ASIC reset line around it, BIAS_64P and BIAS_16P mezzanines, and the rail voltage arithmetic of the AG7200 variant (the rail write is one step that may fail).
- The SPI and register transport below a DAC or ASIC command: a command is an attempt that works, is refused or breaks, and may leave anything in its own register.
- DMA start and stop registers, TLP sizing and concurrent readers of the device.
- Writers that return another pointer than they were given, and the frame and event counts that the writer reports.
- acquireAsBytes, ramp_up_rail, test pulses and triggers.
- Floating-point calibration of times, energies and charges; the bias map is over exact reals.
- The reverse option of intToBin, which no caller uses with the modelled words.
- ChannelConversion, PaddleChannelMap, the command code bridge, configuration files, the logger and command-line tools: tables or thin wrappers.
- MacroMachine.MacroRuns: the threads are steps on a value rather than objects updated in place, because the theorems range over interleavings of single accesses.
- FrameAcquisition.Daqd.Acquire: counts queries to daqd instead of waiting forever, so that a stopped producer ends the call.
