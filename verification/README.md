# RELAYV2 binary protocol layer in Dafny

RELAYV2 links a Raspberry Pi, an STM32 relay board and five ROME gauge
devices over serial lines. This project models the protocol logic on both
sides of those links and proves properties of it.

**The Raspberry Pi side.**
- The Pi sends 15-byte telemetry frames: `A5 99`, three discrete bytes A/B/C, then five big-endian 16-bit device words.
- The host monitors scan a serial byte stream for those frames. They decode:
  - the mode, navigation source, country and GPS/INS fields of the discretes;
  - the mode-dependent flag lists;
  - the device angles on the `raw * 360 / 65535` scale.
- Two simulators build the frames. One builds telemetry frames with an optional auto-increment; the other builds relay-control frames from typed commands.

**The relay firmware.**
- It receives bytes into a 256-slot RX ring in the UART interrupt.
- The main loop feeds them one by one through a 20-byte packet window. The window recognises status packets `99 A5 v` and data packets `A5 99` + 13 bytes, and resynchronises on garbage.
- From every packet it writes a relay mask. The mask is split into bit set/reset (BSRR) words for GPIO ports C, D and A.
- From a data packet it queues five 4-byte ROME packets `[BB id msb lsb]` in a 16-slot transmit FIFO with a busy flag.

**The manual ROME controller.**
- It encodes an angle into a device's 16-bit value: tenths of a degree, with device 5 offset by 179.9 degrees and folded into 16 bits when negative.
- It packs the value as `[BB id msb lsb]`.
- It runs an interactive calibration that yields the firmware's zero offset, and an auto-rotate loop.

**The link diagnostics.**
- A stuck detector with a five-bucket cause classification and a rate check.
- A monitor for the board's 3-byte output: packet classification, an interval history capped at 100, and summary statistics.

Modules follow the program's structure:
- `FrameScanner`, `TelemetryCodec` and `DiscreteFlags` model the host monitors.
- `RomeControl` models the manual controller.
- `RingBuffer`, `PacketWindow`, `RomeQueue`, `Raspi` and `Relay` model the firmware.
- `UartDiagnostic`, `RelayUartTest` and `History` model the diagnostics.
- `Simulators` models the frame builders.
- `RoundTrips` states end-to-end properties across the links.
- `Bytes` and `Wrappers` are shared definitions.

**Modelling conventions:**
- A byte is an integer in 0..255. Relay masks and BSRR words are `bv32`. The discrete bytes are read as `bv8` by the flag decoders.
- Python's unbounded integers stay `int`. `& 0xFF`, `& 0xFFFF` and `>> 8` on them are the Euclidean `% 256`, `% 65536` and `/ 256`.
- Python's `int()` on a float truncates toward zero (`RomeControl.Trunc`).
- Angles and `time.time()` timestamps are exact `real`s.
- The firmware's interrupt and main loop are sequential events on one state record, `Raspi.Firmware`. The hardware writes become the list of masks passed to `Relay_Update`.

**Behaviour of the code worth noting:**
- `int()` truncates toward zero (`RomeControl.EncodingExamples`: 12.39 degrees is sent as 123).
- The 15-byte scale maps raw 65535 to exactly 360.0 (`TelemetryCodec.DegreesRange`).
- Every device id other than 5 uses `int(angle * 10)` unmasked. The only error path is `bytearray` refusing an id outside 0..255 (`RomeControl.ControlPacket`).
- The discrete monitor's `decode_country` knows only two countries. It reports Unknown for codes 2 and 3, where the complete monitor reports India and Pakistan (`DiscreteFlags.CountryTablesDisagree`).
- `Reset_UART_State` does not reset the packet window, which is a static of `Process_RX_Buffer` (`Raspi.ResetUartState`).
- The ROME transmit-complete callback advances the tail even when the queue is empty, which makes it read as full (`RomeQueue.TxCompleteOnEmptyWraps`).
- A data packet dispatched from a resynchronised window clears the bytes behind it. One stray byte ahead of two back-to-back frames therefore loses the second frame (`PacketWindow.StrayByteLosesSecondFrame`).
- What a set mask bit means is named differently in two places. The relay-control simulator calls mask 0x55 "odd relays ON". The firmware's `Relay_Off` sets a mask bit and `Relay_On` clears it. The model speaks only of set and reset pins (`RoundTrips.CommandsDriveRelays`).

## Model

| member | source | states |
|---|---|---|
| FrameScanner.EarliestHeader | RELAYV2/monitor_complete.py:125-129 | the index found is the first `A5 99` pair at or after the start; no pair starts before it, and none at all when nothing is found |
| FrameScanner.Scan | RELAYV2/monitor_complete.py:123-196 | every extracted packet is 15 bytes opening `A5 99`; the loop ends with fewer than 15 bytes kept, which are a suffix of the input; a buffer under 15 bytes is untouched; a buffer of 15 or more without a header shrinks to its last byte |
| FrameScanner.ScanExplains | RELAYV2/monitor_complete.py:126-143 | the input splits into, per extracted frame, header-free noise followed by that frame, then header-free dropped bytes and the kept rest: the earliest header always wins |
| FrameScanner.NoiseThenFrameScan | RELAYV2/monitor_complete.py:136-143 | noise without a header followed by a frame yields that frame first, and the remainder is scanned as if it had arrived alone |
| FrameScanner.SingleFrameScan | RELAYV2/monitor_complete.py:141-143 | one frame on its own is extracted and leaves an empty buffer |
| FrameScanner.TwoFramesScan | RELAYV2/monitor_complete.py:123-143 | noise, a frame, noise and a frame in one read yield exactly the two frames, in order, and an empty buffer |
| FrameScanner.Feed | RELAYV2/monitor_complete.py:119-123 | after a read is appended and scanned, every packet cut is a headed 15-byte frame and fewer than 15 bytes are kept; an accumulator still under 15 bytes is kept whole |
| FrameScanner.FeedAll | RELAYV2/monitor_complete.py:116-123 | successive reads into one buffer extract only headed 15-byte frames and keep fewer than 15 bytes after any read |
| FrameScanner.DropNoise | RELAYV2/monitor_complete.py:131-138 | discarding leading bytes in which no `A5 99` pair starts changes none of the frames found, and an empty leftover stays empty |
| FrameScanner.ScanSplit | RELAYV2/monitor_complete.py:119-143 | scanning two reads together finds the first read's frames, then the frames found once its leftover is joined by the second read |
| FrameScanner.FeedAllMatchesScan | RELAYV2/monitor_complete.py:116-143 | however the stream is cut into reads, the frames extracted equal those of one read of the whole stream, and an empty leftover there means an empty buffer read by read |
| FrameScanner.TwoFramesAnyChunking | RELAYV2/monitor_complete.py:116-143 | noise, a frame, noise and a frame yield exactly the two frames and an empty buffer under every cutting of the stream into reads |
| FrameScanner.SplitHeaderRecovered | RELAYV2/monitor_complete.py:131-134 | when a read ends in a lone `A5` after header-free noise, the single kept byte joins the next read and the frame split across the reads is recovered whole |
| TelemetryCodec.ModeFromLowBits | RELAYV2/monitor_complete.py:41-45 | bits 1:0 of discrete B equal to 0, 1, 2 or 3 give EADI, EHSI, RDU or Unknown, whatever the other bits; each known mode's code is recovered from it |
| TelemetryCodec.NavFromBits3And2 | RELAYV2/monitor_complete.py:47-51 | bits 3:2 of discrete B equal to 0, 1, 2 or 3 give INS, TAC, VOR/ILS or Unknown, whatever the other bits |
| TelemetryCodec.DecodeCountry | RELAYV2/monitor_complete.py:53-57 | the four-entry table never yields Unknown |
| TelemetryCodec.CountryFromLowBits | RELAYV2/monitor_complete.py:53-57 | bits 1:0 of discrete C equal to 0, 1, 2 or 3 give TNI AU, Bangladesh, India or Pakistan, whatever the other bits |
| TelemetryCodec.PositioningFromBit2 | RELAYV2/monitor_complete.py:59-61 | GPS exactly when bit 2 of discrete C is clear, INS otherwise; no other bit matters |
| TelemetryCodec.DeviceRaw | RELAYV2/monitor_complete.py:152-156 | device i's raw value is in 0..65535, and its high and low bytes are frame bytes 5+2i and 6+2i |
| TelemetryCodec.DegreesRange | RELAYV2/monitor_complete.py:158-159 | the 15-byte scale lies in [0, 360]; raw 0 is exactly 0 and raw 65535 exactly 360, the only raw values at the ends; the scale is strictly increasing |
| TelemetryCodec.Decode | RELAYV2/monitor_complete.py:145-186 | a decoded frame carries the discretes from bytes 2, 3 and 4; the mode and navigation source decoded from byte 3 and the country and positioning from byte 4; five raw values assembled big-endian from bytes 5..14; and five angles in [0, 360] on the 15-byte scale |
| DiscreteFlags.ActiveRows | RELAYV2/monitor_discrete.py:35-44 | a row is collected exactly when it is in the table and its bit is set in the byte |
| DiscreteFlags.ActiveRowsAscending | RELAYV2/monitor_discrete.py:35-104 | rows are collected in table order, so an ascending table yields the set bits from least to most significant |
| DiscreteFlags.DecodeFlags | RELAYV2/monitor_discrete.py:35-104 | `['None']` when none of the table's bits is set; otherwise one label per set bit, in table order, naming every set bit and only set bits |
| DiscreteFlags.FlagsIgnoreOtherBits | RELAYV2/monitor_discrete.py:35-104 | two bytes that agree on the bits a table lists decode to the same flags |
| DiscreteFlags.TablesAscending | RELAYV2/monitor_discrete.py:35-104 | each of the nine flag routines tests its bits in strictly ascending order |
| DiscreteFlags.FlagsInBitOrder | RELAYV2/monitor_discrete.py:35-104 | every one of the nine routines answers `['None']` when no tested bit is set and otherwise the labels of the set bits, each once, from the least to the most significant bit |
| DiscreteFlags.DiscreteAMasks | RELAYV2/monitor_discrete.py:35-61 | discrete A's EADI flags ignore bits 6 and 7, its EHSI flags ignore bits 5 to 7, and its RDU flags depend only on bits 4 and 6 |
| DiscreteFlags.DiscreteBMasks | RELAYV2/monitor_discrete.py:63-79 | discrete B's EADI and EHSI flags ignore its mode and navigation bits 0 to 3 |
| DiscreteFlags.DiscreteCMasks | RELAYV2/monitor_discrete.py:85-100 | discrete C's EADI flags ignore bits 0, 1 and 7; its EHSI flags depend only on bits 3 and 5 |
| DiscreteFlags.RduBCAlwaysNone | RELAYV2/monitor_discrete.py:81-83 | in RDU mode discrete B and discrete C always read `['None']` |
| DiscreteFlags.RduAExamples | RELAYV2/monitor_discrete.py:56-61 | RDU discrete A 0x50 lists `NVIS_Sel, Video_Radar_ON` in that order; 0x80 reads `['None']` |
| DiscreteFlags.ChainsAgreeWithTables | RELAYV2/monitor_discrete.py:106-128 | this monitor's if-chain mode and navigation decoders agree with the complete monitor's dictionary decoders on every byte |
| DiscreteFlags.CountryTablesDisagree | RELAYV2/monitor_discrete.py:130-138 | the two country decoders agree on codes 0 and 1; on 2 and 3 this one says Unknown, which differs from the complete monitor's answer |
| DiscreteFlags.DecodePacket | RELAYV2/monitor_discrete.py:140-160 | the mode decoded from discrete B selects the A, B and C flag tables of that mode; an unknown mode makes all three flag lists `['Unknown']` |
| DiscreteFlags.ModeBitsPickTables | RELAYV2/monitor_discrete.py:142-160 | bits 1:0 of discrete B equal to 0, 1 or 2 select the EADI, EHSI or RDU tables; 3, and only 3, is the unknown mode |
| DiscreteFlags.RduPacketFlags | RELAYV2/monitor_discrete.py:155-158 | a packet whose mode bits are 2 decodes as RDU with `['None']` for discretes B and C, whatever their other bits |
| RomeControl.Trunc | RELAYV2/manual_rome_control.py:49 | `int()` of a float is the integer between it and zero that is less than 1 away: truncation toward zero, not rounding |
| RomeControl.CalculateRawData | RELAYV2/manual_rome_control.py:34-60 | ids other than 5 send the truncated `angle * 10`, unmasked (it can be negative or exceed 65535); device 5 sends the truncated `(angle + 179.9) * 10` when it is non-negative, and otherwise its `& 0xFFFF`, the unsigned 16-bit value congruent to it modulo 65536 |
| RomeControl.EncodingExamples | RELAYV2/manual_rome_control.py:38-60 | 36 degrees is 360 and 0 degrees is 0 on device 1; device 5 sends 1799 at 0 degrees and 0xFFFF at -180; 12.39 degrees is sent as 123, truncated |
| RomeControl.ControlPacket | RELAYV2/manual_rome_control.py:211-217 | packing succeeds exactly for ids 0..255 and gives `[0xBB, id, MSB, LSB]` whose two data bytes reassemble to the raw value modulo 65536 |
| RomeControl.EncodeCommand | RELAYV2/manual_rome_control.py:209-217 | a typed angle becomes the 4-byte packet `[0xBB, id, MSB, LSB]` whose data bytes carry the device's raw value modulo 65536, or fails exactly for an id outside 0..255 |
| RomeControl.OffsetNeeded | RELAYV2/manual_rome_control.py:145 | the offset lies in 0..65535 and cancels the raw value modulo 65536 |
| RomeControl.OffsetUnique | RELAYV2/manual_rome_control.py:145 | no other 16-bit value cancels the raw value, so the offset is determined by it |
| RomeControl.CalibStep | RELAYV2/manual_rome_control.py:126-135 | the new angle is the old one plus the key's delta, less or plus 360 at most once; an angle in [0, 360) stays in that range, and a move that stays inside the range is exactly the key's delta |
| RomeControl.CalibWrapExamples | RELAYV2/manual_rome_control.py:133-135 | 0.0 then `q` wraps to 359.9, and 355.0 then `w` wraps to 5.0 |
| RomeControl.CalibAngle | RELAYV2/manual_rome_control.py:112-135 | from 0.0, every sequence of keys leaves the calibration angle in [0, 360) |
| RomeControl.CalibrationRawInRange | RELAYV2/manual_rome_control.py:115 | for a calibration angle in [0, 360) every device id encodes to a value in 0..65535 |
| RomeControl.Calibrate | RELAYV2/manual_rome_control.py:112-145 | fails exactly for an id outside 0..255; with a valid id it succeeds exactly when an empty line is typed, and otherwise the input runs out; on success the packets are those of the angles after each key, up to the first empty line, and the offset cancels the last raw value sent, which fits 16 bits |
| RomeControl.CalibrationOffsetFromLastPacket | RELAYV2/manual_rome_control.py:115-124 | the last packet of a calibration carries exactly the raw value the offset is computed from |
| RomeControl.AutoStep | RELAYV2/manual_rome_control.py:180-182 | the angle grows by the step, less 360 at most once, and stays in [0, 360) for a step in [0, 360) |
| RomeControl.AutoRotateAngle | RELAYV2/manual_rome_control.py:166-182 | every auto-rotate angle stays in [0, 360) for a step in [0, 360) |
| RomeControl.AutoRotateRawInRange | RELAYV2/manual_rome_control.py:169-172 | every auto-rotate packet carries a raw value in 0..65535, so packing never truncates it |
| RingBuffer.Count | RELAYV2/RELAY/Core/Src/raspi.c:137-138 | at most capacity - 1 elements are pending, and they lead from the tail forward to the head |
| RingBuffer.FullIffAtCapacity | RELAYV2/RELAY/Core/Src/raspi.c:137-138 | the full test `(head + 1) % size == tail` holds exactly when capacity - 1 elements are pending |
| RingBuffer.Push | RELAYV2/RELAY/Core/Src/raspi.c:137-141 | a byte is appended to the pending elements exactly when the ring is not full, and a full ring is left unchanged |
| RingBuffer.Front | RELAYV2/RELAY/Core/Src/raspi.c:206 | the slot at the tail is the oldest pending element |
| RingBuffer.Advance | RELAYV2/RELAY/Core/Src/raspi.c:207 | advancing the tail of a non-empty ring removes exactly its oldest element |
| RingBuffer.Reset | RELAYV2/RELAY/Core/Src/raspi.c:45-46 | zeroing the indices empties the ring |
| RingBuffer.PushAllKeepsPrefix | RELAYV2/RELAY/Core/Src/raspi.c:134-147 | bytes arriving in order are kept as long as there is room and the rest are dropped: the pending elements become the old ones followed by the prefix of the arrivals that fitted |
| PacketWindow.FirstPair | RELAYV2/RELAY/Core/Src/raspi.c:237-239 | the shift loop finds the first index with a header pair in either byte order, and none before it |
| PacketWindow.Resync | RELAYV2/RELAY/Core/Src/raspi.c:234-247 | a full window shrinks to its suffix from the first pair at index 1 or later, skipping no pair before it, or is cleared exactly when there is no such pair |
| PacketWindow.Step | RELAYV2/RELAY/Core/Src/raspi.c:210-247 | after each byte the window holds fewer than 20 bytes |
| PacketWindow.StepCases | RELAYV2/RELAY/Core/Src/raspi.c:210-247 | a status packet is dispatched exactly when the window starts `99 A5` with 3 bytes, carrying byte 2; a data packet exactly when it does not but starts `A5 99` with 15 bytes, carrying those bytes as a frame; otherwise the window grows, and at 20 bytes it is resynchronised |
| PacketWindow.StepNeverDrops | RELAYV2/RELAY/Core/Src/raspi.c:210-212 | the `pkt_idx < 20` guard always passes: every byte joins the window |
| PacketWindow.Feed | RELAYV2/RELAY/Core/Src/raspi.c:205-248 | feeding any bytes leaves fewer than 20 in the window and dispatches at most one packet per byte |
| PacketWindow.FeedDispatchesFrames | RELAYV2/RELAY/Core/Src/raspi.c:224-230 | every data packet dispatched after any byte history is a 15-byte frame opening `A5 99` |
| PacketWindow.FeedConcat | RELAYV2/RELAY/Core/Src/raspi.c:201-202 | feeding bytes in two calls equals feeding them at once: the static window carries all state between calls |
| PacketWindow.FramePrefixAccumulates | RELAYV2/RELAY/Core/Src/raspi.c:209-231 | the first 14 bytes of a frame only grow the window, dispatching nothing |
| PacketWindow.FrameDispatched | RELAYV2/RELAY/Core/Src/raspi.c:224-230 | a frame arriving at an empty window is dispatched whole as one data packet and leaves the window empty |
| PacketWindow.StatusDispatched | RELAYV2/RELAY/Core/Src/raspi.c:215-221 | `99 A5 v` arriving at an empty window dispatches status value v and leaves the window empty |
| PacketWindow.ShortFeedNoData | RELAYV2/RELAY/Core/Src/raspi.c:209-231 | fewer than 15 bytes into an empty window never dispatch a data packet |
| PacketWindow.StrayByteLosesSecondFrame | RELAYV2/RELAY/Core/Src/raspi.c:224-247 | one byte other than 0x99 ahead of two back-to-back frames yields only the first frame as data: the resynchronised window is cleared with the first five bytes of the second frame, whose other ten bytes are fed without a header |
| RomeQueue.RomePacket | RELAYV2/RELAY/Core/Src/raspi.c:95-98 | a queued ROME packet is 4 bytes: `0xBB`, the id and the two data bytes |
| RomeQueue.Enqueue | RELAYV2/RELAY/Core/Src/raspi.c:87-101 | a packet is appended when fewer than 15 are pending, and dropped, leaving the queue unchanged, at 15; the busy flag is untouched |
| RomeQueue.StartTransmit | RELAYV2/RELAY/Core/Src/raspi.c:104-111 | transmission starts exactly when the queue is idle and not empty, sends the oldest packet and marks busy; otherwise nothing changes |
| RomeQueue.TxComplete | RELAYV2/RELAY/Core/Src/raspi.c:114-120 | completion clears busy and, with a packet in flight, removes exactly that packet |
| RomeQueue.TxCompleteOnEmptyWraps | RELAYV2/RELAY/Core/Src/raspi.c:117 | a completion arriving at an empty queue moves the tail past the head, so 15 packets then appear pending |
| RomeQueue.Reset | RELAYV2/RELAY/Core/Src/raspi.c:47-49 | the reset queue is empty and idle |
| RomeQueue.FifoOrder | RELAYV2/RELAY/Core/Src/raspi.c:87-120 | a packet queued behind others leaves after them: the oldest goes on the wire first, and after its completion the rest remain in order with the new packet last |
| Raspi.RxCallback | RELAYV2/RELAY/Core/Src/raspi.c:134-147 | a received byte is appended to the RX ring unless 255 are already pending, in which case it is dropped; nothing else changes |
| Raspi.ReceiveAll | RELAYV2/RELAY/Core/Src/raspi.c:134-147 | one interrupt per byte, in arrival order, changes only the RX ring |
| Raspi.ReceiveAllKeepsPrefix | RELAYV2/RELAY/Core/Src/raspi.c:137-142 | the ring then holds its old bytes followed by the arrivals that fitted in its 255 places |
| Raspi.DataMask | RELAYV2/RELAY/Core/Src/raspi.c:186-189 | the relay mask of a data packet is below 2^24, with discretes A, B and C as its three bytes |
| Raspi.DevicePackets | RELAYV2/RELAY/Core/Src/raspi.c:194-196 | a data packet yields five ROME packets for ids 1..5, device i+1 carrying frame bytes 5+2i and 6+2i |
| Raspi.QueueDevices | RELAYV2/RELAY/Core/Src/raspi.c:194-196 | the five packets are queued in device order, as many as fit in the queue, behind those already waiting |
| Raspi.QueueFrom | RELAYV2/RELAY/Core/Src/raspi.c:194-196 | the remaining `Queue_ROME` calls push the remaining device packets into the ring in order |
| Raspi.Apply | RELAYV2/RELAY/Core/Src/raspi.c:165-197 | a status packet writes its value as the relay mask and changes nothing else; a data packet writes its three-discrete mask and queues its five device packets |
| Raspi.ApplyAll | RELAYV2/RELAY/Core/Src/raspi.c:205-248 | the relays receive one mask per dispatched packet, in dispatch order, after the masks already written; the busy flag is untouched |
| Raspi.MasksInOrder | RELAYV2/RELAY/Core/Src/raspi.c:165-189 | the k-th mask written is the k-th packet's: a status packet's value, or a data packet's three discretes |
| Raspi.ApplyAllQueues | RELAYV2/RELAY/Core/Src/raspi.c:87-101 | applying packets only queues: the ROME queue holds its old packets followed by the device packets of every data packet in dispatch order, cut at the 15 it can hold |
| Raspi.ProcessRxBuffer | RELAYV2/RELAY/Core/Src/raspi.c:200-249 | draining empties the RX ring, feeds every pending byte through the window in FIFO order and applies every packet dispatched, in order |
| Raspi.TxRaspy | RELAYV2/RELAY/Core/Src/raspi.c:255-261 | the main-loop step is processing followed by starting a transmission: the relay writes are those of applying every packet the pending bytes dispatch, and the queue and the packet sent are what starting a transmission on the resulting queue gives |
| Raspi.ResetUartState | RELAYV2/RELAY/Core/Src/raspi.c:44-53 | both rings are empty and the ROME UART idle; the packet window and the relay writes are untouched |
| Relay.Update | RELAYV2/RELAY/Core/Src/relay.c:30-50 | the port D word uses only pins 0..3 and the port A word only pins 4..7, in both halves |
| Relay.SetResetPartition | RELAYV2/RELAY/Core/Src/relay.c:36-49 | in each port word the set and reset halves are disjoint and together cover exactly that port's relay pins |
| Relay.PinFollowsMask | RELAYV2/RELAY/Core/Src/relay.c:36-49 | the pin wired to mask bit k (PC0-15, PD0-3, PA4-7) is set exactly when the bit is 1 and reset exactly when it is 0 |
| Relay.UpperBitsIgnored | RELAYV2/RELAY/Core/Src/relay.c:36-49 | mask bits 24..31 have no effect on any port word |
| Relay.RelayOff | RELAYV2/RELAY/Core/Src/relay.c:52-56 | bit relay-1 of the state becomes 1 and every other bit is kept |
| Relay.RelayOn | RELAYV2/RELAY/Core/Src/relay.c:58-62 | bit relay-1 of the state becomes 0 and every other bit is kept |
| Relay.OnUndoesOff | RELAYV2/RELAY/Core/Src/relay.c:52-62 | switching a relay off and on again restores a state in which it was on; each operation is idempotent |
| Relay.LowBitsExactly | RELAYV2/RELAY/Core/Src/relay.c:67-70 | the test mask after i steps has exactly bits 0..i-1 set |
| Relay.RelayTestAll | RELAYV2/RELAY/Core/Src/relay.c:65-79 | 25 masks are written: the i-th of the first 24 has bits 0..i set, and the last is 0 |
| History.DequeAppend | RELAYV2/uart_diagnostic.py:32 | a bounded deque stays within its bound and ends with the value just appended |
| History.AppendThenTrim | RELAYV2/test_relay_uart.py:81-84 | append-then-pop-oldest stays within the cap and ends with the value just appended |
| History.BoundedAppendsAgree | RELAYV2/test_relay_uart.py:81-84 | the deque with `maxlen` and append-then-pop are the same operation: both keep the newest entries of the extended history |
| History.RecordKeepsNewest | RELAYV2/test_relay_uart.py:78-86 | however many entries arrive, the history holds exactly the newest `cap` of them, oldest first |
| UartDiagnostic.ClassifyStuckCause | RELAYV2/uart_diagnostic.py:45-69 | the cause's bucket number is how many of the thresholds 100, 1000, 10000 and 100000 the packet total has reached |
| UartDiagnostic.StuckCauseMonotone | RELAYV2/uart_diagnostic.py:45-69 | more packets before a stall never move the diagnosis to an earlier bucket |
| UartDiagnostic.StuckCauseExamples | RELAYV2/uart_diagnostic.py:45-69 | 5000 packets point at callback logic; 99 and 100, 99999 and 100000 fall on either side of their boundaries |
| UartDiagnostic.AverageRate | RELAYV2/uart_diagnostic.py:115-119 | the rate is positive exactly when there are two or more times spanning a positive interval, and then times the span gives the count; otherwise it is 0 |
| UartDiagnostic.CheckStuck | RELAYV2/uart_diagnostic.py:111-125 | a stall is reported exactly when a last-packet time exists and at least 5 s have passed, with the total, the average rate and the cause; the time is then forgotten; otherwise nothing changes |
| UartDiagnostic.OnRead | RELAYV2/uart_diagnostic.py:128-135 | a complete 3-byte read adds 1 to both packet counts, sets the last-packet time and keeps the newest 1000 times; a short read changes nothing |
| UartDiagnostic.ClassifyRate | RELAYV2/uart_diagnostic.py:142-147 | NO PACKETS exactly at rate 0, LOW RATE exactly for a non-zero rate below 50, OK exactly from 50 up |
| UartDiagnostic.CheckRate | RELAYV2/uart_diagnostic.py:138-153 | once a second has passed the rate is the count over the interval, classified, and the count restarts from now; before that nothing changes |
| UartDiagnostic.Iteration | RELAYV2/uart_diagnostic.py:107-155 | one pass of the loop counts exactly the complete read it made |
| UartDiagnostic.StallReportedOnce | RELAYV2/uart_diagnostic.py:110-135 | after a pass reports a stall without reading a complete packet, no pass reports again for as long as the passes read no complete packet |
| UartDiagnostic.StallDetectedAfterTimeout | RELAYV2/uart_diagnostic.py:110-121 | once 5 s have passed since the last packet, the next pass reports the stall with the time since, the total, the average rate and the cause |
| RelayUartTest.RomeAngle | RELAYV2/test_relay_uart.py:105 | the 3-byte scale is tenths of a degree |
| RelayUartTest.ClassifyPacket | RELAYV2/test_relay_uart.py:89-111 | the classes are exclusive and exhaustive: STATUS exactly for `99 A5 v`, carrying v; otherwise ROME exactly for a first byte 1..5, with the big-endian raw value and a tenth of it in degrees; UNKNOWN for the rest |
| RelayUartTest.RomeScaleInvertsEncoding | RELAYV2/test_relay_uart.py:99-106 | for devices 1..4, a control packet built from an angle whose encoding fits 16 bits classifies as that device, with a decoded angle at most 0.1 degree below the original |
| RelayUartTest.OnRead | RELAYV2/test_relay_uart.py:72-117 | an interval is recorded only when a previous time exists, capped at the newest 100; the read time is always kept; a full read counts a packet and is classified, and a short read counts an error |
| RelayUartTest.Min | RELAYV2/test_relay_uart.py:37 | the minimum is an element of the list and no larger than any element |
| RelayUartTest.Max | RELAYV2/test_relay_uart.py:38 | the maximum is an element of the list and no smaller than any element |
| RelayUartTest.Average | RELAYV2/test_relay_uart.py:36 | the average times the length is the sum |
| RelayUartTest.AverageBetween | RELAYV2/test_relay_uart.py:36-38 | the average interval lies between the minimum and the maximum |
| RelayUartTest.SuccessRate | RELAYV2/test_relay_uart.py:46 | a rate exists exactly when some read happened, and it is the percentage of reads that were full packets, in [0, 100] |
| RelayUartTest.Frequency | RELAYV2/test_relay_uart.py:39 | a positive average interval gives a positive frequency whose product with it is 1000; otherwise 0 |
| RelayUartTest.Statistics | RELAYV2/test_relay_uart.py:33-52 | statistics exist exactly when intervals were recorded; the minimum and maximum are those of the intervals and bracket their average; the frequency and success rate follow from the average and the counts |
| Simulators.CreateDevicePacket | RELAYV2/simulate_raspberry_pi.py:26-52 | the packet is `A5 99 00 00 00` followed by the MSB and LSB of every value, 5 + 2n bytes in all |
| Simulators.DeviceWordsRoundTrip | RELAYV2/simulate_raspberry_pi.py:47-50 | each 16-bit value reassembles, MSB first as the monitor reads it, to itself |
| Simulators.AutoIncrement | RELAYV2/simulate_raspberry_pi.py:103-105 | every value advances by 100 modulo 65536 and stays in 0..65535 |
| Simulators.ValuesAfterWrap | RELAYV2/simulate_raspberry_pi.py:103-105 | after n increments each value is its start advanced by 100n modulo 65536, within 16 bits |
| Simulators.CreateRelayPacket | RELAYV2/simulate_raspi_relay_control.py:9-22 | the packet is `A5 99 a b c` followed by ten zeros, 15 bytes |
| Simulators.CommandAction | RELAYV2/simulate_raspi_relay_control.py:34-54 | a packet is sent exactly for `1` (relay bytes 0x55) and `0` (relay bytes 0); `q` and only `q` quits |
| RoundTrips.SimulatedFrameShape | RELAYV2/simulate_raspberry_pi.py:41-52 | five 16-bit values make a 15-byte frame with zero discretes whose device words are those values |
| RoundTrips.MonitorScansSimulatedFrame | RELAYV2/monitor_complete.py:119-143 | a simulated frame read in one chunk is extracted exactly and leaves an empty buffer |
| RoundTrips.MonitorDecodesSimulatedFrame | RELAYV2/monitor_complete.py:145-159 | decoding a simulated frame recovers the five values; its zero discretes read EADI, INS, TNI AU and GPS |
| RoundTrips.FirmwareForwardsSimulatedFrame | RELAYV2/RELAY/Core/Src/raspi.c:177-197 | the firmware dispatches a simulated frame as one data packet with relay mask 0 and forwards device i+1 the bytes of value i, which the 3-byte monitor reads back as that value |
| RoundTrips.FirmwareAppliesRelayFrame | RELAYV2/simulate_raspi_relay_control.py:9-22 | a relay-control frame is dispatched as one data packet whose relay mask has a, b and c as its three low bytes, and all five devices are sent `[BB i 00 00]` |
| RoundTrips.CommandsDriveRelays | RELAYV2/simulate_raspi_relay_control.py:40-51 | command `1` makes the firmware write mask 0x555555, which sets exactly the even mask bits (relays 1, 3, 5, ...); command `0` writes mask 0 |
| RoundTrips.DataFrameApplied | RELAYV2/RELAY/Core/Src/raspi.c:177-197 | with room in the queue, a data packet writes one mask and queues its five device packets behind those waiting |
| RoundTrips.FirmwareEndToEnd | RELAYV2/RELAY/Core/Src/raspi.c:134-249 | a simulated frame received by the interrupt and drained by the main loop writes mask 0 and queues its five device packets, leaving the ring and window empty |
| Bytes.WordOfSplit | RELAYV2/manual_rome_control.py:211-213 | splitting any integer into `(v >> 8) & 0xFF` and `v & 0xFF` and reassembling keeps exactly its low 16 bits |
| Bytes.SplitOfWord | RELAYV2/test_relay_uart.py:102-104 | splitting a reassembled 16-bit word recovers its two bytes |

## Left out

- Serial I/O is not modelled: port opening, `in_waiting`, reads and writes, `reset_input_buffer` and the exception handlers. Reads become byte-sequence inputs and writes become returned packets.
- Console output is not modelled: the headers, `display_data`, `format_hex`, datetime stamps, the display-interval throttling and the `', '.join` of flag lists. Flag lists are kept as lists.
- `input()` loops are taken as already parsed:
  - the manual controller's device prompt and number parsing;
  - the command line, taken already stripped and lower-cased;
  - the auto-rotate step.

  Auto-rotate is modelled as the angle of its n-th packet, because the loop only ends on Ctrl+C.
- Floating point is replaced by exact reals: 179.9, 0.1 and `time.time()` arithmetic are exact in the model. In IEEE doubles -180 + 179.9 is slightly above -0.1, so device 5 at -180 degrees sends 0 rather than 0xFFFF.
- The wall-clock rate of monitor_complete.py:165-172 is not modelled: it depends only on the clock.
- `uart_diagnostic.py`'s `error_count` is not modelled: it is never incremented.
- Aktif_raspi.py is not part of this model: its logic is two threads sharing a port.
- monitor_uart_simple.py is not part of this model: it is a hex dump with no logic.
- DI.c is not part of this model: it is GPIO reads and tick timing.
- raspi.h and relay.h are not part of this model: they hold declarations only.
- HAL calls are not modelled: UART start and restart, error-flag clearing, `HAL_UART_ErrorCallback`, `Send_NANO`, `Send_RASPI`, GPIO initialisation, delays and the actual BSRR register stores. The model computes the words and indices the code would store.
- Concurrency between the receive interrupt and the main loop is not modelled; they run as sequential events.
- Relay.RelayOff: requires a relay number 1..32; other numbers shift by a negative or oversized amount, which C leaves undefined.
- Relay.RelayOn: requires a relay number 1..32 for the same reason.
- RomeControl.Calibrate: an operator who never presses Enter is modelled as input that runs out (`InputEnded`). The source waits forever instead.
- Raspi.TxRaspy: the ROME packet handed to the UART is returned. Its completion is the separate event `RomeQueue.TxComplete`.
