# Tedium verification

A Dafny model of the clocked and stateful parts of the Tedium T1/USB interface, with proofs of
what they guarantee over whole runs. `dafny verify dfyconfig.toml` checks all of it.

Each source object that updates registers or fields is a class whose `Clock`, `Edge`, `Feed` or
`Advance` method performs one step and is proved equal to a transition function; the theorems
are about runs of those functions, of any length and any interleaving of their inputs.

- `GrayCode`, `AsyncFifo`, `PagedFifo`, `PagedFifoRuns`: the two-clock FIFO of memory pages. An
  instant is an edge of the write clock, of the read clock or of both; the bits of a counter
  that changes at the instant it is sampled resolve arbitrarily. Unbounded counters of pages
  committed and consumed are carried beside the registers to state what those mean.
- `RxUsb`, `IsochronousIn`, `TxUsb`, `HostPackets`, `Chunks`: pages to isochronous packets and
  back, on the device and on the host, each adapter also composed with the FIFO.
- `RxPath`, `RxWire`, `EarlyByte`, `RxEndToEnd`: the receive path put together step by step,
  from the endpoint and the adapter to the frames the host splits off its packets. A healthy
  run is one whose strobes leave the framer adapter its time, which `RxLine` derives from the
  serial clock, and whose host drains each microframe before the next start of frame.
- `UsbReport`: the counts and levels of both FIFOs that end each microframe.
- `TxPath`: the transmit path put together, from the host's frame queue over its transfers and
  the parser to what the framer side reads from the FIFO.
- `BitTiming`, `SystemTiming`, `SerialBlocks`, `RxFramer`, `RxLine`, `RxBytes`, `RxLimit`: the bit
  strobe recovered from the serial clock, the 193-bit frame for any number of timeslots (section
  2.1 of ITU-T G.704), its serialiser and deserialiser, the records made of it, byte by byte, and
  for how many channels there is time.
- `Numbers`, `Words`, `Ulaw`: the mu-law codec of section 3 of ITU-T G.711, on explicit 16-bit words.
- `RobbedBits`, `InterruptReport`, `Dtmf`, `Microprocessor`: signalling, the interrupt report
  from firmware to host, DTMF decisions and the framer's bus.

Inputs from outside are parameters: samples on the lines, host requests, the transmitter's ready
line, register contents, the outcome of tone detection. The start-of-frame pulse is taken to be
the same for adapters and endpoints, as it is wired.

## Where the code does not do quite what is wanted

These are stated as exact conditions, with a run or input that shows each is needed.

- Page separation depends on write strobes at least two write clocks apart
  (`SeparationNeedsTwoClocks`), because the write level is registered. Both drivers meet that:
  the OUT parser strobes once per record (`StrobesSpacedByRecord`), the framer adapter once per
  frame (`JointCore`).
- With two pages a settled FIFO can be full and empty at once, so that neither side may move;
  with four or more it cannot (`ProgressNeedsFourPages`).
- The read page pointer lags by one clock, so a byte that the endpoint takes in the very clock
  after the first of two records ends is the first byte of the old page
  (`MicroframeCarriesRecords`; the run is `SecondRecordReplaced`). A transmitter that pauses
  after each byte avoids it (`GapsPreventEarlyBytes`).
- A start of frame during an unfinished supply restarts the endpoint's count but not the
  adapter's, unless a byte is taken in that clock, when neither restarts
  (`CountersAgreeExactly`; the run is `InterruptedRun`).
- Which starts of frame put the endpoint on the plan for the new frame (`NewFrameExact`). If no
  byte is taken in that clock: those that find no byte of a packet taken yet and no request
  being answered as the last frame required (`StaleAnswer` is a run off plan). If one is
  taken, the packet under way goes on with the old counts: then those for which the old frame,
  from this packet on, or from the next if the byte is this one's last, is what the new frame
  calls for (`ResumedRun` is a run that stays on plan in the middle of a packet).
- Two system clocks per bit are all that edge detection guarantees, whatever the serial clock
  does. With the five-byte report that suffices for ten channels, of which the design has eight;
  with eleven or more there is a run in which a frame is committed before its last byte is
  written (`TenChannelsExact`).
- The host's 256-byte buffer holds every report without an HDLC section, and one with it exactly
  if its HDLC bytes fit into what the other sections leave (`ReportFits`); 220 HDLC bytes
  always fit, and for every larger bound some report within it does not (`FitsExactly`). The cut
  report parses as if padded with zeros.
- The error bound of the mu-law codec ends at plus and minus 8159 (`ErrorBound`).
- The bus interface samples the transfer direction twice (`DirectionExact`; the run is
  `ContendedRead`).

## Model

| member | source | states |
|---|---|---|
| PagedFifoRuns.PageSeparation | tedium/gateware/framer/paged_fifo.py:103-175 | In every interleaving of the two clocks, with every outcome of the synchronisers and write strobes at least two write clocks apart: once a page is committed the writer is 1 to depth-1 pages ahead, so the page being written is never the page being read, although each side acts on a stale copy of the other pointer |
| PagedFifoRuns.SeparationNeedsTwoClocks | tedium/gateware/framer/hacked_fifo.py:130-131 | The spacing the registered write level makes necessary: separation holds in all runs with strobes `gap` clocks apart if and only if `gap >= 2` |
| PagedFifoRuns.OccupancyWithoutSpacing | tedium/gateware/framer/hacked_fifo.py:121-141 | Without any spacing the counters alone still keep 0 <= produced - consumed <= depth, and a read page is always a committed one |
| PagedFifoRuns.ReadsSeeCommittedRecords | tedium/gateware/framer/paged_fifo.py:131-157 | The paged memory refines a queue of records: each read edge delivers the addressed byte of the committed record numbered by the advances granted so far, however a full writer overwrites its page; an empty reader re-reads the last record |
| PagedFifoRuns.LogGrows | tedium/gateware/framer/paged_fifo.py:161-175 | Committed records are never changed or forgotten |
| PagedFifoRuns.StrobesGrantedOrReported | tedium/gateware/framer/paged_fifo.py:152-174 | The guards inside the borrowed counters never veto an advance the page layer allowed: every strobe is either granted or reported as overflow or underflow |
| PagedFifoRuns.OutputsExact | tedium/gateware/framer/paged_fifo.py:151-174 | The interface outputs at every instant of every spaced run: each side's level and flag are of the pages it knows of, less one, and an overflow or underflow is reported exactly for a strobe that commits or consumes nothing |
| PagedFifoRuns.ReportedExact | tedium/gateware/framer/paged_fifo.py:156-174 | Over a run the reports add up: write strobes are committed pages plus overflows reported, read strobes consumed pages plus underflows reported |
| PagedFifoRuns.ExactAccounting | tedium/gateware/framer/paged_fifo.py:152-174 | Over a run, write strobes = committed pages + overflows and read strobes = consumed pages + underflows |
| PagedFifoRuns.LevelsAreSafe | tedium/gateware/framer/hacked_fifo.py:130-131 | The read level never exceeds the true occupancy, and the write level seen when a spaced strobe is allowed is never below it |
| PagedFifoRuns.LevelsSettle | tedium/gateware/framer/hacked_fifo.py:95-131 | After four quiet write clocks and two quiet read clocks, in any order, both levels equal the true occupancy |
| PagedFifoRuns.OutputsSettle | tedium/gateware/framer/paged_fifo.py:154-173 | After those quiet clocks both sides are shown the same: the occupancy less one, or nothing |
| PagedFifoRuns.ProgressNeedsFourPages | tedium/gateware/framer/paged_fifo.py:124-125 | A settled FIFO can be full and empty at once if and only if its depth is below four |
| PagedFifoRuns.StepKeepsInv | tedium/gateware/framer/paged_fifo.py:103-175 | Every clock edge, on either side or both, keeps the invariant that ties counters, page pointer and committed pages together |
| PagedFifoRuns.WriteInstant | tedium/gateware/framer/paged_fifo.py:161-175 | What one write clock does to the page under the writer and to the committed records |
| PagedFifo.PagedAsyncFIFO.Edge | tedium/gateware/framer/paged_fifo.py:131-175 | One clock instant of the FIFO on its memory array and registers: flags and levels on both sides, and the transition function with page pointer delayed by one read clock, old data read on a simultaneous write |
| AsyncFifo.HackedAsyncFIFO.Edge | tedium/gateware/framer/hacked_fifo.py:76-131 | One clock instant of the counters, Gray registers, synchronisers and the registered write level equals the transition function |
| AsyncFifo.CounterStepKeepsInv | tedium/gateware/framer/hacked_fifo.py:76-131 | Every register of both clock domains always holds some past value of the unbounded counter it tracks, in the right order of staleness |
| AsyncFifo.FlagsExact | tedium/gateware/framer/hacked_fifo.py:121-131 | Ready flags and both levels in terms of the stale unbounded counters, for counters that wrap |
| AsyncFifo.SampleExact | tedium/gateware/framer/hacked_fifo.py:95-105 | A synchroniser that catches a counter in transition samples the value before or after, whatever each changing bit resolves to |
| GrayCode.DecodeEncode | tedium/gateware/framer/hacked_fifo.py:109-119 | Gray decoding inverts encoding at every width |
| GrayCode.EncodeDecode | tedium/gateware/framer/hacked_fifo.py:102-113 | Gray encoding inverts decoding at every width |
| GrayCode.SuccessorOneBit | tedium/gateware/framer/hacked_fifo.py:91-107 | Successive codes, the wrap included, differ in exactly one bit |
| GrayCode.MixOfNeighbours | tedium/gateware/framer/hacked_fifo.py:95-105 | Any bitwise mix of two codes at distance one is one of the two |
| GrayCode.FullTestExact | tedium/gateware/framer/hacked_fifo.py:123-126 | Top two bits different and the rest equal if and only if the counters are exactly the depth apart modulo twice the depth |
| GrayCode.EmptyTestExact | tedium/gateware/framer/hacked_fifo.py:127-127 | The codes are equal if and only if the counters are equal modulo their range |
| RxUsb.RxFIFOToUSBInAdapter.Clock | tedium/gateware/framer/rx_fifo_to_usb.py:44-125 | One USB clock of the adapter: outputs and next state |
| RxUsbRuns.NeverUnderflows | tedium/gateware/framer/rx_fifo_to_usb.py:79-125 | Composed with the FIFO the adapter never underflows it, in any run and even if the host skips microframes |
| RxUsbRuns.MicroframeCarriesRecords | tedium/gateware/framer/rx_fifo_to_usb.py:44-125 | Every finished microframe whose report held still supplies the committed records next in line, min(level, 2) of them at its start of frame, and the report, if and only if the cycle after the first of two records was left free or both start with the same byte |
| RxUsbRuns.JointSupply | tedium/gateware/framer/rx_fifo_to_usb.py:44-125 | In every spaced run the microframes supplied continue one another without loss or repetition of records, byte for byte, the early byte of a second record included |
| RxUsbRuns.MicroframesBegin | tedium/gateware/framer/rx_fifo_to_usb.py:79-88 | Every microframe goes back to a start of frame of the run for which the adapter was waiting, and carries min(level, 2) records from the one then next in line |
| EarlyByte.SecondRecordReplaced | tedium/gateware/framer/paged_fifo.py:139-148 | A concrete orderly run on any FIFO of four or more pages, ready held high: records [1], [2], [3] are committed and 1, 1, report goes out where 1, 2, report was to be sent |
| RxPath.CountersAgreeExactly | tedium/gateware/usb/isochronous.py:101-239 | Over a whole run the adapter has in every clock exactly as many bytes left to supply as the endpoint has left to send, if and only if each start of frame finds the supply drained, or comes in a clock in which a byte is taken, or finds exactly a whole microframe at the current level left |
| RxPath.DrainsTogether | tedium/gateware/framer/rx_fifo_to_usb.py:79-125 | In such a run the endpoint has nothing left exactly when the adapter is back to waiting |
| RxPath.InterruptedRun | tedium/gateware/framer/rx_fifo_to_usb.py:79-88 | A concrete run with the shipped sizes in which a second start of frame leaves the adapter 208 bytes to supply and the endpoint 11 to send |
| RxWire.PacketsCarryMicroframes | tedium/gateware/usb/isochronous.py:131-239 | Endpoint, adapter and FIFO together: in every run that drains each supply before the next start of frame, the payloads of a microframe's packets joined together are the bytes the adapter supplied for it |
| RxWire.PacketsAsPlanned | tedium/gateware/usb/isochronous.py:101-239 | In every run the packets the transmitter reads off the outputs have the PIDs and lengths the endpoint accounts for, and in a run whose newest start of frame met the condition of `NewFrameExact` and fits three packets, those since are the packets planned for the frame |
| RxWire.GapsPreventEarlyBytes | tedium/gateware/usb/isochronous.py:200-202 | A transmitter that never takes bytes in two successive clocks takes none early |
| RxWire.HostReceivesRecords | tedium/tools/tedium-tool/src/framer/audio.rs:664-684 | Splitting the joined payloads of a microframe's packets gives the host exactly the committed records next in line and the report, if and only if no byte was taken in the clock after the first of two records or both start with the same byte |
| RxEndToEnd.HostReceivesFrames | applets/tedium-fpga:136-139 | Framer adapter, FIFO, USB adapter, endpoint and host joined: in every healthy run a microframe gives the host exactly the frame records next in line among those the FIFO took, under that one condition |
| RxEndToEnd.HostFramesExact | applets/tedium-fpga:136-139 | Over all microframes of such a run the host has received an initial stretch of the accepted frame records, without loss, repetition or change |
| RxEndToEnd.ReceivedGapsCountOverflows | applets/tedium-fpga:171-175 | The frame counts of two frames the host received one after the other differ, modulo 2^32, by the number of frames from one to the other, all those in between having been refused as overflows |
| IsochronousIn.USBIsochronousInEndpoint.Clock | tedium/gateware/usb/isochronous.py:101-239 | One USB clock of the endpoint: stream, payload, PID, strobes, next address and next state |
| IsochronousIn.StreamExact | tedium/gateware/usb/isochronous.py:131-239 | Over every run from reset, what a transmitter reads off the valid, first, last, payload and PID outputs since the newest start of frame is exactly the packets accounted for, with their PIDs and lengths, and all payloads joined are the bytes on offer in the clocks with a byte strobe |
| IsochronousIn.OutputsExact | tedium/gateware/usb/isochronous.py:131-239 | The other outputs in every clock of every run: the byte on offer is passed on, nothing is offered while idle, the packet strobe marks the first byte of a packet, the next address counts its bytes, and the end-of-packet flag follows its last |
| IsochronousIn.RequestsAnswered | tedium/gateware/usb/isochronous.py:156-239 | While idle, a request is answered in the next clock, with the first of a data packet if data are to be sent and with a zero-length packet if not, and nothing is sent without one |
| IsochronousIn.MicroframePackets | tedium/gateware/usb/isochronous.py:101-239 | Whatever the host requests and however the transmitter stalls, the packets finished are the first of exactly those the frame consists of, then only zero-length packets, and bytes sent plus bytes unsent always equal the frame |
| IsochronousIn.NewFrameExact | tedium/gateware/usb/isochronous.py:105-228 | Which starts of frame put the endpoint on the plan for the new frame, in every clock: if no byte is taken in it, if and only if no byte of a packet is under way and no request is being answered with a packet of the wrong kind; if one is taken, if and only if the old frame, from the packet under way on, or from the next if the byte is this one's last, has the length, packet size and PID of the new frame |
| IsochronousIn.ServedAsPlanned | tedium/gateware/usb/isochronous.py:101-239 | In every run from reset whose newest start of frame meets that condition and fits three packets: the packets sent since are the first of those planned for its byte count, then only zero-length ones, and bytes sent and unsent add up |
| IsochronousIn.PlannedExactly | tedium/gateware/usb/isochronous.py:101-239 | And in no other: a run has been on the plan of its newest start of frame in every clock since if and only if that start of frame met the condition |
| IsochronousIn.ResumedRun | tedium/gateware/usb/isochronous.py:200-228 | A concrete run from reset in which a start of frame in the middle of a packet, in a clock that takes a byte, stays on plan |
| IsochronousIn.StaleAnswer | tedium/gateware/usb/isochronous.py:165-196 | A concrete run from reset in which a request in the clock of a start of frame is answered with a zero-length packet carrying the new frame's first PID |
| IsochronousIn.FrameSentInFewestPackets | tedium/gateware/usb/isochronous.py:117-232 | After max(1, ceil(B/m)) packets the frame of B bytes has been sent: all but the last packet full, PIDs counting down to DATA0, one zero-length DATA0 packet if B = 0 |
| IsochronousIn.DataPacketsExact | tedium/gateware/usb/isochronous.py:117-128 | The packets of a frame: lengths sum to it, none empty, PIDs descend to DATA0, as few as possible |
| IsochronousIn.FrameDrains | tedium/gateware/usb/isochronous.py:166-239 | Progress: the frame is completely sent after one useful clock per byte and one per packet, in any interleaving with waits |
| TxUsb.TxUSBOutToFIFOAdapter.Clock | tedium/gateware/framer/tx_usb_to_fifo.py:42-99 | One USB clock of the parser: FIFO interface, captured report bytes and next state |
| TxUsb.OfferedRecordsExact | tedium/gateware/framer/tx_usb_to_fifo.py:48-99 | For every trace of starts of frame and bytes, the pages offered are exactly the bytes cut at each start of frame, the report dropped, the rest cut into records and the short tail discarded |
| TxUsbRuns.StrobesSpacedByRecord | tedium/gateware/framer/tx_usb_to_fifo.py:79-99 | The parser strobes the FIFO at least one record length of write clocks apart, which discharges the FIFO's spacing demand |
| TxUsbRuns.CommittedRecordsExact | tedium/gateware/framer/tx_usb_to_fifo.py:93-99 | The FIFO's committed pages are the parsed records that were not refused, in order |
| TxUsbRuns.FramerReadsParsedRecords | tedium/gateware/framer/tx_usb_to_fifo.py:48-99 | What the framer side reads from the FIFO is a function of the OUT byte stream alone: the byte of the parsed record next in line |
| HostPackets.FillPacket | tedium/tools/tedium-tool/src/framer/audio.rs:881-910 | One packet takes up to two queued frames in order and never starves; it holds the four report bytes untouched and then every 196 bytes a frame, its count as a little-endian word and its 192 samples |
| HostPackets.HandleOut | tedium/tools/tedium-tool/src/framer/audio.rs:867-911 | A transfer packs the queue in order, two frames to a packet laid out so, after dropping one frame if the device FIFO is too full; the no-frame branch is unreachable |
| HostPackets.OfferedExact | tedium/tools/tedium-tool/src/framer/audio.rs:870-878 | The frame at the front is dropped if and only if there is one and 13 <= minimum level <= maximum level |
| HostPackets.SplitRecoversRecords | tedium/tools/tedium-tool/src/framer/audio.rs:664-684 | Splitting inverts concatenation of any number of 197-byte records and the eleven bytes of report |
| OutRoundTrip.TransferOffersQueuedFrames | tedium/tools/tedium-tool/src/framer/audio.rs:880-911 | Packing then parsing: delivering a transfer's packets makes the device offer exactly the records of the frames taken from the queue, in order |
| TxPath.HostSendsQueuedFrames | tedium/tools/tedium-tool/src/framer/audio.rs:867-911 | For every interleaving of frames queued and transfers filled: the frames the transfers carry, in order, are those queued except the ones dropped to draw down the device's FIFO and those still waiting |
| TxPath.OutIsHandleOut | tedium/tools/tedium-tool/src/framer/audio.rs:867-911 | A transfer in the host's history leaves the queue and adds the packets that the transfer handler does |
| TxPath.TransfersParse | tedium/tools/tedium-tool/src/framer/audio.rs:880-911 | Whatever was received before, the parser makes of any sequence of transfers exactly the records of the frames they carry |
| TxPath.FramerReadsQueuedFrames | applets/tedium-fpga:154-157 | Host queue, transfers, parser and FIFO joined, for every host history, with empty microframes anywhere and delivery up to any point: each byte the framer side reads is that of the record next in line among those the FIFO took, and the records offered to the FIFO are the first of those of the frames queued and not dropped, in order |
| TxPath.FramerReadsSamples | tedium/tools/tedium-tool/src/framer/audio.rs:905-906 | So the framer side reads at addresses 0 to 3 the frame count, least significant byte first, and at 4 + k sample k, of the queued frame whose record is next in line |
| BitTiming.BitTiming.Clock | tedium/gateware/framer/bit_timing.py:25-35 | One system clock of the edge detector: both strobes and the registers |
| BitTiming.StrobesAreFalls | tedium/gateware/framer/bit_timing.py:10-18 | A bit ends exactly two clocks after each low sample of the serial clock that follows a high one, so never in two clocks in succession |
| BitTiming.StartFollowsEnd | tedium/gateware/framer/bit_timing.py:32-33 | The bit-start strobe is the bit-end strobe of the clock before |
| BitTiming.FallsSpread | tedium/gateware/framer/bit_timing.py:25-35 | Whatever the serial clock does, from one bit end to the end of the bit n later there are at least 2n system clocks |
| BitTiming.SomeFalls | tedium/gateware/framer/bit_timing.py:10-18 | Conversely, any strobes from the fourth clock on that never come in two clocks in succession are those of some serial clock |
| SystemTiming.TimingGenerator.Clock | tedium/gateware/framer/system_timing.py:51-105 | One system clock: the timeslot end strobe, the position counter and its registered flags |
| SystemTiming.StepKeepsFlags | tedium/gateware/framer/system_timing.py:66-105 | After the first bit all registered flags are functions of the bit position |
| SystemTiming.TimingExact | tedium/gateware/framer/system_timing.py:54-105 | After n bits the position is n modulo the frame length, with one frame strobe per whole frame and one start strobe per timeslot begun |
| SystemTiming.StrobesExact | tedium/gateware/framer/system_timing.py:83-96 | In every run the bit-start strobe follows each bit end, the timeslot-end strobe comes with the last bit of each timeslot, and the clock count is that of the clocks since the newest bit end, modulo 256 |
| SystemTiming.WholeFrame | tedium/gateware/framer/system_timing.py:83-88 | Any stretch of one frame's bits, wherever it starts, carries exactly one frame strobe and one start strobe per timeslot and returns to its position |
| SerialBlocks.TxBlock.Clock | tedium/gateware/framer/tx_block.py:28-58 | One clock of the serialiser |
| SerialBlocks.RxBlock.Clock | tedium/gateware/framer/rx_block.py:41-76 | One clock of the deserialiser and its capture registers |
| SerialRuns.TransmitterSendsFrames | tedium/gateware/framer/tx_block.py:28-58 | For any number of timeslots the line carries, from system bit 8 of each frame, the F bit and then every timeslot most significant bit first |
| SerialRuns.SyncMarksFrames | tedium/gateware/framer/tx_block.py:28-56 | In every run the frame sync is high in exactly the clocks in which the bit on the line is the F bit that begins a serial frame, and the multiframe sync exactly then with the frame marked |
| SerialRuns.ReceiverRecoversFrames | tedium/gateware/framer/rx_block.py:41-76 | The receive registers hold the F bit and timeslots of the serial frame that began eight bits before the system frame |
| SerialRuns.ReceiveSyncMarksFrames | tedium/gateware/framer/rx_block.py:41-45 | The receive sync is high in exactly the clocks in which the bit eight before the end of a frame arrives |
| SerialRuns.SyncedBitIsF | tedium/gateware/framer/rx_block.py:41-76 | And that bit and the multiframe bit with it are those held in the registers all through the next frame |
| SerialRuns.SerialRoundTrip | tedium/gateware/framer/rx_block.py:41-85 | Transmitter and receiver joined by a line of matching delay: every frame's F bit and octets arrive unchanged, each octet during its own timeslot |
| RxFramer.RxFramerToFIFOAdapter.Clock | tedium/gateware/framer/rx_framer_to_fifo.py:32-84 | One system clock of the adapter: FIFO write interface and next state |
| RxFramerRuns.JointCore | tedium/gateware/framer/rx_framer_to_fifo.py:51-84 | Composed with the FIFO, every paced run spaces the adapter's strobes as the FIFO demands, and the committed pages are the granted frame records in order |
| RxFramerRuns.EachAddressOnce | tedium/gateware/framer/rx_framer_to_fifo.py:51-84 | In every paced run each clock writes the next address of the record or nothing, a frame starts with nothing written, and with its strobe the whole record is written, the last byte in that very clock if the strobe comes as early as it may |
| RxFramerRuns.RecordLayout | tedium/gateware/framer/rx_framer_to_fifo.py:47-84 | The page committed at a frame strobe holds channel c of timeslot n at index n * channels + c and then the report |
| RxFramerRuns.GapCountsOverflows | applets/tedium-fpga:171-175 | The frame counts of two consecutive committed records differ, modulo 2^32, by the number of frames from one to the other, all those in between having been refused as overflows |
| RxLine.LinesPace | tedium/gateware/framer/rx_block.py:41-76 | Receive blocks, timing and framer adapter joined: if eight bits leave the adapter the time to write the record and nine to be waiting again, every clock of every run is paced, whatever the lines carry: no frame ends before its last byte is written, the adapter waits at each timeslot's start, and the octets are held while it collects them |
| RxLimit.TenChannelsExact | tedium/gateware/framer/rx_framer_to_fifo.py:51-84 | With the five-byte report and four or more pages: on every serial clock, whatever the lines carry and the reader does, the committed pages are the frame records that the FIFO took, if and only if there are at most ten channels |
| RxLine.RecordsAreSerialFrames | applets/tedium-fpga:118-137 | From the pins to the records: every record after the first holds exactly one serial frame of every channel's line, octet by octet, with the frame's number and the multiframe bits that came with its F bit |
| RxBytes.RecordBytes | tedium/gateware/framer/rx_framer_to_fifo.py:47-84 | The same byte by byte: each octet as the sum of its eight line levels with the first highest, at its place, then the frame's number as a little-endian word and a byte with each channel's multiframe bit |
| RxEndToEnd.PinsHealthy | applets/tedium-fpga:112-137 | A run driven from the pins needs no assumption about the framer adapter's time to be healthy |
| RxEndToEnd.HostReceivesSerialFrames | applets/tedium-fpga:112-139 | From the pins to the host: in every such run each frame the host has split off, but for frame zero, is byte by byte the serial frame of its number on the channels' lines |
| UsbReport.UsbReportRegisters.Clock | applets/tedium-fpga:159-169 | One USB clock of the report's registers |
| UsbReport.ReportExact | applets/tedium-fpga:159-169 | Over runs of both FIFOs the report holds the levels shown at the newest start of frame and the numbers of starts of frame, underflows and overflows, modulo their fields' widths |
| UsbReport.HostReadsReport | tedium/tools/tedium-tool/src/framer/audio.rs:605-620 | Split off a microframe, its eleven bytes give the host those numbers, field by field and little-endian |
| Ulaw.EncodeUlawG191 | tedium/tools/tedium-tool/src/codec/ulaw.rs:51-85 | The loop-based reference encoder computes the G.711 decision for its 14-bit sample: sign, and biased magnitude between the decision values of the code's interval; so for every 16-bit input it returns what the fast encoder returns |
| Ulaw.EncodeI14 | tedium/tools/tedium-tool/src/codec/ulaw.rs:150-165 | The branch-free encoder computes the same decision for every 16-bit input; no intermediate overflows its word |
| Ulaw.DecisionUnique | tedium/tools/tedium-tool/src/codec/ulaw.rs:150-165 | No sample has two codes, so the decision is a function |
| Ulaw.FastEqualsReference | tedium/tools/tedium-tool/src/codec/ulaw.rs:51-85 | Any code that follows the law for a 16-bit input of the reference is what the fast encoder returns, despite the different clamp points |
| Ulaw.SegmentInRange | tedium/tools/tedium-tool/src/codec/ulaw.rs:155-160 | Both debug assertions hold for every 16-bit input |
| Ulaw.DecodeUlawG191 | tedium/tools/tedium-tool/src/codec/ulaw.rs:90-106 | The formula decoder returns the middle of the code's interval, signed, without overflow |
| Ulaw.TableIsFormula | tedium/tools/tedium-tool/src/codec/ulaw.rs:110-148 | All 256 entries of the shipped table equal the formula decoder |
| Ulaw.Monotone | tedium/tools/tedium-tool/src/codec/ulaw.rs:146-165 | Decoding after encoding never reverses the order of two 16-bit samples |
| Ulaw.ErrorBound | tedium/tools/tedium-tool/src/codec/ulaw.rs:146-165 | The quantisation error is at most half a step of the code's segment if and only if -8159 <= x <= 8159 |
| Ulaw.Requantise | tedium/tools/tedium-tool/src/codec/ulaw.rs:146-165 | Encoding a decoded code gives the code back, except that negative zero 0x7F becomes 0xFF |
| RobbedBits.ProcessFrame | tedium/tools/tedium-tool/src/framer/audio.rs:204-226 | The collecting loop equals the transition function on all 24 timeslots |
| RobbedBits.OffsetExact | tedium/tools/tedium-tool/src/framer/audio.rs:204-211 | A frame's offset in its superframe is the number of frames from the base to it, wherever the 32-bit count wraps |
| RobbedBits.SuperframeExact | tedium/tools/tedium-tool/src/framer/audio.rs:195-227 | For any base, wrap included, and any lossy in-order delivery: completion at the 24th frame if and only if frames 6, 12, 18 and 24 all arrived, and then each nibble is their signalling bits in A, B, C, D order |
| RobbedBits.RobbedBitDebouncer.Process | tedium/tools/tedium-tool/src/framer/audio.rs:259-279 | One frame through the debouncer: registers and reported changes |
| RobbedBits.CompletionExact | tedium/tools/tedium-tool/src/framer/audio.rs:398-413 | When a run of marked and unmarked frames completes a superframe, and with which base and values |
| RobbedBits.DebounceExact | tedium/tools/tedium-tool/src/framer/audio.rs:259-279 | Over whole runs each timeslot's reports are exactly the changes of the last value seen in two consecutive completed superframes, and its state is that value |
| RobbedBits.ChangeExact | tedium/tools/tedium-tool/src/framer/audio.rs:264-274 | A change happens if and only if a value is seen twice in a row and differs from the last reported one, and is dated by the first superframe of that run of equal values |
| RobbedBits.ReportsExact | tedium/tools/tedium-tool/src/framer/audio.rs:259-279 | Over whole runs consecutive reports of a timeslot differ, and its state is the last report or the default |
| InterruptReport.InEndpoint.WriteReport | tedium-soc/src/main.rs:701-864 | The firmware's register-by-register printer appends exactly the specified report, or nothing |
| InterruptReport.Cursor.FromRead | tedium/tools/tedium-tool/src/framer/interrupt.rs:66-122 | The cursor-advancing parser equals the parse function on the remaining bytes |
| InterruptReport.FromSlice | tedium/tools/tedium-tool/src/framer/interrupt.rs:59-64 | The closing assertion holds if and only if the parse consumed every byte |
| InterruptReportLaws.ReportedExactly | tedium-soc/src/main.rs:701-704 | A report is sent if and only if an interrupt other than the one-second tick is pending |
| InterruptReportLaws.ReportLayout | tedium-soc/src/main.rs:701-864 | Where everything is in a report, by the bits of its second byte: bit 6 loopback, 3 HDLC, 2 slip, 1 alarm, 0 framer with bit 5 of its status for the signalling nibbles |
| InterruptReportLaws.ControllersLaidOut | tedium-soc/src/main.rs:772-794 | The HDLC section: for each of three controllers two status bytes, as many data bytes as the low seven bits of the second say, and one more status byte |
| InterruptReportLaws.RoundTrip | tedium/tools/tedium-tool/src/framer/interrupt.rs:58-242 | For every channel, register contents and HDLC payloads the parser recovers every field, signalling registers up to their low nibble, and stops exactly at the end of the report |
| InterruptReportLaws.ReportLength | tedium-soc/src/main.rs:701-864 | The exact length of every report |
| InterruptReportLaws.ReportFits | tedium/tools/tedium-tool/src/framer/usb.rs:57-57 | One report fits the host's buffer if and only if it has no HDLC section or its HDLC bytes are at most what the sections it has leave of the 256 |
| InterruptReportLaws.FitsExactly | tedium/tools/tedium-tool/src/framer/usb.rs:57-57 | All reports with at most n HDLC bytes fit the host's buffer if and only if n <= 220 |
| InterruptReportLaws.ParsePadded | tedium/tools/tedium-tool/src/framer/interrupt.rs:66-242 | Parsing any byte string equals parsing it followed by zeros |
| InterruptReportLaws.TruncatedReport | tedium/tools/tedium-tool/src/framer/interrupt.rs:59-64 | A report cut anywhere is consumed whole and reads as if its missing bytes were zero |
| Dtmf.DetectionStateMachine.Feed | tedium/tools/tedium-tool/src/detector/dtmf.rs:66-123 | One decision equals the transition function |
| Dtmf.StateExact | tedium/tools/tedium-tool/src/detector/dtmf.rs:66-123 | What each state says about the detections so far; S1 is unreachable |
| Dtmf.EmissionExact | tedium/tools/tedium-tool/src/detector/dtmf.rs:66-123 | A digit is emitted if and only if it completes three equal detections whose first two are the first equal pair since the last double silence |
| Dtmf.EmissionsSeparated | tedium/tools/tedium-tool/src/detector/dtmf.rs:66-123 | Between any two emissions lies a double silence |
| Dtmf.Detector.Advance | tedium/tools/tedium-tool/src/detector/dtmf.rs:202-225 | Neither the assertion nor the unreachable branch can fire; the automaton is fed once per high window |
| Dtmf.WindowsStep | tedium/tools/tedium-tool/src/detector/dtmf.rs:27-42 | For any window length the high window completes exactly when one of the two half-offset low windows does, never both |
| Microprocessor.MicroprocessorInterface.Clock | tedium/gateware/framer/microprocessor.py:76-139 | One clock of the bus interface equals the transition function |
| Microprocessor.RunSafe | tedium/gateware/framer/microprocessor.py:78-139 | In every run read and write strobes are exclusive and only under chip select, and accepted starts and completion pulses alternate |
| Microprocessor.AddressStable | tedium/gateware/framer/microprocessor.py:79-94 | The address never changes at a clock before or after which chip select is high |
| Microprocessor.StrobeTiming | tedium/gateware/framer/microprocessor.py:98-126 | Chip select leads the strobe by exactly 21 clocks, and a strobe that ends has lasted at least 21 |
| Microprocessor.DonePulse | tedium/gateware/framer/microprocessor.py:76-76 | A completion pulse lasts one clock |
| Microprocessor.BusExact | tedium/gateware/framer/microprocessor.py:78-139 | In every run from reset the address on the bus is the one asked for at the last accepted start; under chip select the data driven, and whether it is, are as given when it rose; the strobe is of the kind given when the strobe rose; and the data returned are those seen when chip select fell |
| Microprocessor.AccessCompletes | tedium/gateware/framer/microprocessor.py:79-139 | Any start accepted after any run completes once ready is seen high after the strobe minimum and then low, not before, returning the data seen when ready rose, with the address asked for on the bus all the while |
| Microprocessor.ContendedRead | tedium/gateware/framer/microprocessor.py:88-112 | A concrete run from reset in which the write input is high for one clock and the interface strobes a read while driving the data bus |
| Microprocessor.DirectionExact | tedium/gateware/framer/microprocessor.py:88-112 | During a strobe the data bus direction matches it if and only if the write input was the same at the two clocks that sample it |

## Left out

- The FIFO's write-domain reset (`hacked_fifo.py`, lines 155-184), and metastability beyond each changing bit being sampled as old or new.
- The 8-bit data memory inside the borrowed FIFO, which is never read.
- The transmit side's `tx_fifo_to_framer.py`: it presents address 0 in the same cycle as the page advance, so with the lagging page pointer its first byte still comes from the old page; no claim is made about that byte.
- RxFramer.RxFramerToFIFOAdapter.Clock: the address register is unbounded in the model; its wrap at the last byte of a record is not modelled, as the address is not used again before it is cleared.
- IsochronousIn.USBIsochronousInEndpoint.Clock: token matching is reduced to one input that says a request for this endpoint is ready to be answered.
- TxPath.HostSendsQueuedFrames: the host's frame queue is unbounded; a source queue that is full, on which pushing panics, is not modelled.
- RxLine.RecordsAreSerialFrames: record zero, whose octets partly precede the first bit received, is not described.
- SerialRuns.SerialRoundTrip: the half-clock registers at the pins count as part of the line's delay.
- HostPackets.SplitRecoversRecords: a packet shorter than the report, on which the source panics, is None.
- RobbedBits.CompletionExact: only from the first multiframe mark on; before it the accumulator starts from the default pattern.
- Dtmf.Detector.Advance: detections are arbitrary inputs; the Goertzel filters and the power, difference and twist comparisons are floating point.
- InterruptReport.InEndpoint.WriteReport: register reads are values; which HDLC buffer register is read, and the effect of reading on the hardware, are not modelled.
- Floating-point mu-law entry points and tone generation.
- `ExtendedSuperFrameState`, which is unused.
- Register maps, bitfield definitions beyond the bits the report branches on, default tables, descriptors, address maps and test modes.
- libusb transfers, threads and channels, UART, the SoC bus, PLL and pin assignment, and the internals of the Amaranth and LUNA libraries.
- The endpoints that the shipped design does not connect.
