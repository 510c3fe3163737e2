# MIDEX8 firmware and host tools: the MIDI bridge, modelled and proved

The MIDEX8 firmware turns an eight-port MIDI interface into a class-compliant USB-MIDI device. This
project models the parts of it whose correctness is logical rather than electrical, and proves what
they are for:

- **Receive parser** (`MidiParser`, `PacketStream`, `Packets`). `parse_byte` as a step function on one
  port's state and its fold over byte strings. Printing a packet sequence and parsing it are shown to
  be inverse on exactly the sequences the parser can produce, for every byte string.
- **Receive pipeline** (`RxPipeline`, `RxInvariant`, `RxTheorems`, `RxProgress`, `RxDelivery`, `RxTurns`,
  `CaptureTiming`). A state machine in which the Timer0 interrupt may fall between any two steps of
  `midi_rx_pump`, with one invariant over the history of every port up to what the host has read, the
  theorems that follow from it for every run, how often the main loop must come round so that nothing is
  dropped, and after how many turns the host has everything.
- **Transmit bridge** (`TxBridge`, `TxTheorems`, `TxProgress`, `TxDelivery`). Host, EP2-OUT interrupt,
  `bridge_out` and `uart_tx_pump` as steps: exactly-once delivery across stalls, the buffer handshake, a
  bound on how long back-pressure lasts, and how soon a transfer is on the wires.
- **Whole device** (`Loopback`). Both machines side by side with one port's output cabled to its input.
- **Test oracle** (`Canonicalizer`, `WholeMessages`, `Oracle`, `CleanStreams`). The end-to-end tests'
  message splitter, a second state machine, and exactly when it agrees with the firmware.
- **Loader** (`IntelHex`, `IntelHexRoundTrip`, `IntelHexLines`, `Upload`). The Intel HEX reader, its inverse,
  its checksum, what it ignores and refuses, and the chunked upload.
- **The C files as written** (`Rings`, `PortRings`, `PortParser`, `Receiver`, `Bridge`). Classes over
  arrays and single-byte indices, updated in place. Every method is proved to compute the function, or to
  make the steps, of the machines above; `Receiver.MidiRxPump` does so with interrupts inside it, and
  `Receiver.Serve` and `Bridge.Serve` carry the conclusions to the main loop run on the real variables: it
  makes exactly the turns of which `RxTurns.HostGetsEverything` and `Bridge.TurnsDeliver` speak.

The constants are the firmware's: 8 ports, 16-slot queues, 128-byte transmit rings, a 256-byte receive
ring, 64-byte packets, a prescaler of 3 on a 93 microsecond tick. Bytes wrap where the C code's
`uint8_t` wraps. What a reset does not initialise (parser fields, ring slots) is arbitrary.

## Environment

- A bulk transfer to EP2-OUT has at most 64 bytes; a larger one is refused by the model.
- Runs start at the main loop after the start-up calls, with EP2-OUT armed and its semaphore clear
  (`firmware/main.c:309-323`). No SET_INTERFACE request arrives during a run.
- Reading or writing one index byte is atomic, as on the 8051. A capture sweep, one call of the
  `parse_byte` body, the shipping loop and one turn of the event loop in `bridge_out` share no variable
  with anything that can interrupt them, so each is one step; `uart_rx_dequeue` is two, with interrupts
  allowed between the read of the slot and the new index.
- The UARTs are a ready flag and an output history per port on the transmit side, and what the line
  status and data registers show at each sweep on the receive side.
- In `Loopback` the steps of the main loop interleave in any order, which includes the order of `main`,
  and the cable loses no byte. That the one-byte receive register is read in time is the separate result
  `CaptureTiming.CaptureExactly`.
- The device's loader stores the bytes of a control transfer that were transferred at consecutive
  addresses modulo 65536, and nothing of a transfer that libusb reports as an error.
- `Receiver` is given the ticks that fall at each point where the main loop can be interrupted. There
  are finitely many, so the drain loop ends; the state machine has no such restriction.

## Where code and text disagree

The model follows the code.

- `doc/timer_isr_rx_capture_design.md:25-28` describes a capture pass every 100 microseconds without a
  prescaler; the code sweeps on every third 93 microsecond tick (`firmware/uart.c:170-172`).
- The comment at `host/midex-fw-upload.c:81-87` says that extended addresses are honoured. Record
  addresses are cut to 16 bits (line 140), so an extended linear address record has no effect at all:
  `IntelHexRoundTrip.LinearBaseIgnored`. An extended segment record has one
  (`IntelHexRoundTrip.SegmentRoundTrip`), and is honoured exactly when the address still fits in 16 bits:
  `IntelHexRoundTrip.BaseHonoured`.
- `doc/timer_isr_rx_capture_design.md:182` allows for a race when the host clears the overflow counter;
  the code clears it with one store (`firmware/usb.c:420`), so the counter is exact, which
  `RxTheorems.OverflowConservation` states.
- The splitter of the end-to-end tests keeps a SysEx open across an interrupting status byte and the
  firmware ends it. They agree on a byte stream exactly when each message the splitter finds in it can
  be cut into whole packet payloads, and no message comes out of a SysEx left open at its end:
  `Oracle.AgreesExactly`. All streams without an interrupted SysEx are of that kind
  (`CleanStreams.OracleAgreement`), but not only those (`CleanStreams.AlignedInterruptionAgrees`).
- `host/midex-fw-upload.c:177` takes a transfer that moved no bytes for a complete one, because the
  answer zero is also the code for success. So an upload reported as successful has loaded a record
  exactly when no transfer of it moved nothing: `Upload.LoadedExactly`.

## Model

| member | source | states |
|---|---|---|
| MidiParser.SelfSynchronises | firmware/midi_parser.c:116-175 | After any prefix, a status byte 0x80-0xF6 and what follows are parsed as if the stream began there |
| MidiParser.EndSynchronisesExactly | firmware/midi_parser.c:128-142 | F7 makes the past unobservable if and only if it does not close a partly filled SysEx packet |
| MidiParser.StatusForgets | firmware/midi_parser.c:116-175 | Any two states are indistinguishable after a status byte, and also answer it alike unless it is F7 on held bytes |
| MidiParser.OutAlike | firmware/midi_parser.c:49-61 | States that differ only in fields written before they are read (cin, need, d0, sx, a stale have) give the same packets for ever |
| MidiParser.ResetForgets | firmware/midi_parser.c:80-92 | The output after a reset never depends on what the reset leaves uninitialised |
| MidiParser.RealtimeTransparent | firmware/midi_parser.c:109-114 | The CIN 0xF packets are exactly the real-time bytes in order, the other packets and the final state are those of the stream without them |
| MidiParser.SysexFraming | firmware/midi_parser.c:118-142 | F0, any number of data bytes and F7 from any state give ceil(T/3) packets, all CIN 4 but the last with 4 plus 1, 2 or 3 bytes, and decode to the same bytes |
| MidiParser.ExpansionBound | firmware/midi_parser.c:105-205 | At most one packet per byte, and decoded output at most twice the input, counting pending bytes |
| MidiParser.ExpansionTight | firmware/midi_parser.c:188-201 | For every length some input reaches that bound up to two bytes |
| MidiParser.RunningStatusSpelled | firmware/midi_parser.c:188-204 | A channel status and any number of data bytes under it come out as the messages with the status written before each, from any state |
| MidiParser.PayloadTabled | firmware/main.c:91-96 | The payload of an event is as long as the table of all 16 code index numbers says, and empty exactly for the reserved numbers 0 and 1 |
| PacketStream.OutputWellFramed | firmware/midi_parser.c:96-205 | Every packet agrees with table 4-1 of the USB MIDI 1.0 class definition, is zero beyond its payload, and starts with a data byte only to continue an open SysEx |
| PacketStream.WellFramedReproduced | firmware/main.c:91-96 | Every well-framed sequence, decoded with cin_len and parsed from any packet boundary, comes back unchanged |
| PacketStream.ParsePrintParse | firmware/midi_parser.c:105-205 | For every byte string, including garbage and aborted SysEx, parsing the decoded packets gives the same packets |
| PacketStream.ImageExactly | firmware/midi_parser.c:105-205 | The parser produces exactly the well-framed sequences: every one of them, and no other |
| PacketStream.ResetIsFresh | firmware/midi_parser.c:80-92 | A reset leaves no open SysEx, no running status and nothing held, whatever memory held |
| PacketStream.ResetWellFramed | firmware/midi_parser.c:80-92 | From start-up, every byte string gives well-framed packets with no SysEx open before the first |
| PacketStream.ResetReproduces | firmware/midi_parser.c:80-92 | Two freshly reset parsers: printing what one emits and parsing it with the other returns the same packets |
| PacketStream.ResetDropsData | firmware/midi_parser.c:177-186 | Data bytes before the first status byte give no packet and leave no trace |
| Packets.AppendPacket | firmware/midi_parser.c:96-102 | Emitting a packet adds its event to its own cable's stream and nothing to any other |
| Rings.PutContents | firmware/uart.c:142-145 | With a slot free, a write at the head appends to the queue and changes nothing else in it |
| Rings.PopContents | firmware/uart.c:124-130 | Advancing the tail removes exactly the first queued byte, the one the slot read returned |
| Rings.IndexTests | firmware/uart.c:119-122 | Equal indices mean empty and an advanced head meeting the tail means one slot left, on the abstract queue |
| Rings.PutAllContents | firmware/main.c:243-246 | A run of writes that fits appends all the bytes in order |
| RxInvariant.StoreEnqueues | firmware/uart.c:137-146 | A capture appends to a queue of capacity 15, or finds 15 bytes, drops the byte and counts it, saturating at 255 |
| RxInvariant.ShipLoopContents | firmware/midi_parser.c:231-239 | The shipping loop takes whole packets off the front, at most 64 bytes, and stops early only when fewer than four bytes are left |
| RxInvariant.NextInv | firmware/midi_parser.c:207-240 | Every step of interrupt, main loop and host keeps the invariant on queues, parsers, the shared ring and the counter |
| RxInvariant.RunInv | firmware/midi_parser.c:207-240 | So does every run, from any state that has it |
| RxInvariant.InitialInv | firmware/main.c:309-320 | The start-up calls establish it, whatever memory held |
| RxTheorems.PipelineDelivers | firmware/midi_parser.c:207-240 | In every reachable state and for each port: kept bytes are taken plus queued in order, and the cable's packets read by the host, in the endpoint or in the ring are the parse of the bytes taken; the streams never mix |
| RxTheorems.SharedRingSafe | firmware/midi_parser.c:67-102 | In every reachable state the ring indices are multiples of 4, true occupancy is the 8-bit difference and at most 252, no byte is lost in the ring or in the endpoint: all emitted are read by the host, in the endpoint or in the ring, and the endpoint holds whole packets of at most 64 bytes |
| RxTheorems.OverflowConservation | firmware/uart.c:137-146 | Bytes read are bytes kept plus bytes dropped, and the counter is the drops on all ports since it was cleared, up to 255 |
| RxTheorems.SweepPort | firmware/uart.c:174-180 | A sweep stores each shown byte in its own port's queue and leaves every other queue alone |
| RxTheorems.PreemptionKeepsHead | firmware/uart.c:78-87 | Whatever interrupts the main loop leaves its place, the read index and the slot being read alone, and only appends to the queue |
| RxTheorems.DequeueLinearises | firmware/uart.c:124-130 | With any interrupts inside it, uart_rx_dequeue returns the byte that headed the queue and removes just that byte from the queue as the interrupts left it |
| RxTheorems.PrescaleCycle | firmware/uart.c:105-117 | After any run the prescaler is 1, 3, 2, 1, ... by the number of ticks |
| RxTheorems.SweepEveryThirdTick | firmware/uart.c:164-180 | The first tick and from then exactly every third one reads the UARTs; the others capture nothing |
| RxTheorems.UnservedBoundsQueue | firmware/uart.c:137-146 | A queue is never longer than the number of sweeps since it was last empty |
| RxTheorems.ServedDropsNothing | firmware/uart.c:137-146 | A queue that is seen empty at least once in any 15 sweeps drops nothing |
| RxTheorems.NoOverflow | firmware/uart.c:137-146 | If every queue is emptied at least once in 15 sweeps, nothing is dropped and the counter stays 0 for the whole run |
| RxProgress.PumpDrains | firmware/midi_parser.c:211-226 | If no tick falls in it, a call of midi_rx_pump leaves every port it has passed empty or the shared ring full, whether or not EP2-IN is busy |
| RxProgress.PortLeft | firmware/midi_parser.c:220-226 | A call that gets beyond a port leaves it at some step, and only with its queue empty or the ring full at that moment, whatever ticks fall |
| RxProgress.UnservedIsNeglected | firmware/midi_parser.c:220-226 | A queue is seen empty whenever the main loop leaves its port with room in the ring |
| RxProgress.ServedInTime | firmware/midi_parser.c:211-226 | If the main loop leaves every port with room in the ring at least once in 15 sweeps, nothing is dropped and the counter stays 0 |
| RxProgress.MainLoopKeepsUp | firmware/main.c:325-329 | If every turn of the main loop spans at most seven sweeps and the host keeps the ring from filling, nothing is ever dropped |
| RxDelivery.ShipStep | firmware/midi_parser.c:228-239 | In every reachable state, shipping leaves an unread transfer and the ring alone; with the endpoint free it gets the first 64 bytes of the queue, or all if fewer, and the ring keeps the rest |
| RxDelivery.ReadStep | firmware/midi_parser.c:228-230 | A read of the host takes the waiting transfer, once, and frees the endpoint |
| RxDelivery.HostReads | firmware/midi_parser.c:207-240 | In every reachable state the host has read, for each port, a beginning of the parse of the bytes taken, and from start-up on these packets are well framed |
| RxDelivery.CounterSinceClear | firmware/usb.c:418-421 | After the clearing request the counter is 0, and from then on the drops since that request, up to 255 |
| RxTurns.QuietCall | firmware/midi_parser.c:207-240 | A call without ticks, the endpoint free, takes 64 bytes off what is still on the way to the host, or all that is left |
| RxTurns.CallsInv | firmware/main.c:325-329 | Any turns of the main loop keep the invariant of the receive side |
| RxTurns.HostGetsEverything | firmware/main.c:325-329 | After any turns from start-up, 13 more without ticks and with the host reading before each leave nothing on the way: the host has read, for each port, the whole parse of all bytes ever kept |
| CaptureTiming.CaptureExactly | firmware/board_r1.h:95-111 | No received byte is ever overwritten, for all arrival times and latencies, if and only if bytes are more than three ticks and one latency apart |
| CaptureTiming.MidiLineIsSafe | firmware/board_r1.h:95-111 | So bytes 320 microseconds apart and 40 of latency are safe |
| TxTheorems.LoopDelivers | firmware/main.c:233-247 | Each ring gains exactly the payload of its cable's events up to where the loop stops |
| TxTheorems.SpreadExactly | firmware/main.c:235-246 | An event with a reserved code index number or an unknown cable is passed over however full the rings are; any other is stored with the length from the table exactly if its ring has room for all of it, and no other ring changes |
| TxTheorems.SpokenIsDecoded | firmware/main.c:91-96 | Decoding a cable is reading its bytes off the packets by the table, reserved numbers left out |
| TxTheorems.PaddingIsSilent | firmware/main.c:235-239 | Leaving out reserved events and events for unknown cables changes no port's bytes |
| TxTheorems.NextInv | firmware/main.c:226-266 | Every step of host, interrupt, bridge and pump keeps the transmit invariant |
| TxTheorems.RunInv | firmware/main.c:226-266 | So does every run, from any state that has it |
| TxTheorems.ExactlyOnce | firmware/main.c:215-266 | In every reachable state, UART output plus ring of a port is the payload of its cable's events done so far, by the table and with reserved events left out, and events done plus those still in the packet are all the host sent |
| TxTheorems.HandshakeSafe | firmware/usb.c:86-91 | An unconsumed event has its interrupt pending or its semaphore set, the host cannot overwrite the buffer meanwhile, and nothing can arrive between clearing the semaphore and re-arming |
| TxProgress.PassDebt | firmware/main.c:254-266 | While a packet is stalled, every pass in which its cable is ready pays off one byte of a debt |
| TxProgress.StalledEventProgress | firmware/main.c:234-247 | A stalled event of n bytes, n from 1 to 3, is stored whole once its cable was ready in n passes |
| TxProgress.PacketProgress | firmware/main.c:226-266 | Any packet is consumed and the endpoint re-armed once the stalled cable was ready in 48 passes |
| TxDelivery.TransferAccepted | firmware/main.c:226-252 | An armed endpoint accepts a transfer whole, after everything before it is done |
| TxDelivery.InterruptHandsOver | firmware/usb.c:86-91 | In every reachable state with the interrupt pending, taking it sets the semaphore, clears the flag and leaves the packet as it was |
| TxDelivery.PacketConsumed | firmware/main.c:226-252 | After any passes either the packet is consumed, everything sent is done and the endpoint is armed, or the stalled cable was ready in fewer than 48 of them |
| TxDelivery.RingDrains | firmware/main.c:254-266 | With no packet waiting, each pass in which its UART is ready takes one byte out of a port's ring until it is empty |
| TxDelivery.FairConsumes | firmware/main.c:226-266 | 48 stretches of passes in each of which every UART is ready at least once consume any packet |
| TxDelivery.PacketDelivered | firmware/main.c:226-266 | 175 such stretches, 48 for the packet and 127 for the rings, arm the endpoint and put on each wire exactly the payload of everything ever sent on its cable |
| TxDelivery.TransferDelivered | firmware/usb.c:86-91 | The same from the host's transfer to an armed endpoint, its interrupt and such passes, in any reachable state |
| Loopback.PrefixParsed | firmware/midi_parser.c:105-205 | A prefix of a well-framed sequence's bytes parses to a prefix of the sequence |
| Loopback.RunInv | firmware/main.c:325-329 | Every interleaving of both halves keeps both invariants and returns a prefix of the bytes sent |
| Loopback.CableCarries | firmware/uart.c:174-180 | A sweep that finds the looped port's register full brings back just the next byte its UART was given |
| Loopback.LoopbackReturns | firmware/main.c:226-266 | With a port looped back and none of its bytes dropped, what comes back is a prefix of the packets sent in every reachable state, and all of them once nothing is on the way |
| Canonicalizer.Canonicalize | host/e2e_test.py:250-300 | The loop as written finds the messages of the splitter state machine, with real-time bytes kept or dropped |
| WholeMessages.WholeExactly | firmware/main.c:91-96 | The byte-level test for a whole message holds exactly for the payloads of well-framed packet sequences, and exactly for the strings the firmware carries unchanged |
| WholeMessages.ReadsStep | firmware/midi_parser.c:105-205 | As long as nothing is torn, the parser emits at each cut exactly the bytes since the last one |
| Oracle.AgreesExactly | host/e2e_test.py:250-300 | On every byte string, with real-time bytes dropped or kept, the oracle finds the same messages in the raw bytes and in the decoded packets if and only if each raw message is whole and no message comes out of a SysEx left open at the end |
| Oracle.ClosedAgreesExactly | host/e2e_test.py:265-271 | On streams closed with F7, if and only if each raw message is whole |
| Oracle.PacketsWhole | host/e2e_test.py:250-300 | Every message the oracle finds in packets is whole |
| CleanStreams.OracleAgreement | host/e2e_test.py:250-300 | In particular they agree on every stream, ended or not, in which no status byte 0x80-0xF6 falls inside an open SysEx |
| CleanStreams.OracleFromReset | host/e2e_test.py:250-300 | And so they do with a parser as the start-up code leaves it, whatever memory held |
| CleanStreams.AgreesWhenClean | host/e2e_test.py:265-271 | With F7 at the end, no such interruption means that no message the oracle finds has a status byte inside, and the converse; and then oracle and firmware agree |
| CleanStreams.InterruptionDisagrees | firmware/midi_parser.c:144-147 | A concrete interrupted SysEx on which oracle and firmware differ |
| CleanStreams.AlignedInterruptionAgrees | firmware/midi_parser.c:144-151 | An interrupted SysEx that is whole: cut between packets by a complete message it passes unchanged |
| IntelHex.ReadData | host/midex-fw-upload.c:142-155 | The data loop with its 8-bit running sum accepts exactly data bytes whose total with the checksum is 0 modulo 256 |
| IntelHex.ReadLine | host/midex-fw-upload.c:101-157 | The loop body classifies a line as the specification does |
| IntelHex.Fgets | host/midex-fw-upload.c:101-101 | One call of fgets takes the text up to a newline, its end or 599 characters |
| IntelHex.ParseIhex | host/midex-fw-upload.c:88-167 | The reader returns the specified records of the text, or fails as a whole, also when there is no file |
| IntelHexRoundTrip.DataLine | host/midex-fw-upload.c:140-155 | A line of bytes shaped like a data record is accepted if and only if its bytes sum to 0 modulo 256, whatever follows them on the line |
| IntelHexRoundTrip.RecordRoundTrip | host/midex-fw-upload.c:140-155 | A printed record reads back as itself, at the current base modulo 65536 |
| IntelHexRoundTrip.BaseHonoured | host/midex-fw-upload.c:140-140 | It comes back at base plus address if and only if that is below 65536 |
| IntelHexRoundTrip.FileRoundTrip | host/midex-fw-upload.c:88-167 | All record lists with 0 to 255 data bytes survive printing and reading, whatever follows the end record |
| IntelHexRoundTrip.TextRoundTrip | host/midex-fw-upload.c:88-167 | So does the text of the file, one record a line: no printed line exceeds the reader's buffer |
| IntelHexRoundTrip.SegmentRoundTrip | host/midex-fw-upload.c:120-129 | After an extended segment record they read back moved by sixteen times its operand |
| IntelHexRoundTrip.LinearBaseIgnored | host/midex-fw-upload.c:127-140 | An extended linear record, whatever its operand, makes the rest read as with base 0 |
| IntelHexRoundTrip.OneByteDamage | host/midex-fw-upload.c:148-154 | Changing any one address, data or checksum byte of a record makes its line malformed |
| IntelHexRoundTrip.DamagedFileRefused | host/midex-fw-upload.c:161-166 | A file with one record damaged like that is refused as a whole |
| IntelHexLines.StrayIgnored | host/midex-fw-upload.c:106-107 | Lines without a colon in front and records of other types than 00, 01, 02 and 04 change nothing, wherever they stand |
| IntelHexLines.OtherTypeIsStray | host/midex-fw-upload.c:131-132 | Every record of such a type counts among them, start addresses for one, whatever it holds after its header |
| IntelHexLines.TruncatedRefused | host/midex-fw-upload.c:108-151 | A printed record cut off anywhere after its colon is refused, in its header or its data, whatever without digits ends the line |
| IntelHexLines.TruncatedFileRefused | host/midex-fw-upload.c:161-166 | A file that breaks off inside a record is refused as a whole |
| IntelHexLines.HexByteIsStrtol | host/midex-fw-upload.c:68-79 | Two characters are accepted, with their value modulo 256, exactly when strtol for base 16 uses both of them, spaces and signs included |
| IntelHexLines.FileCase | host/midex-fw-upload.c:68-79 | The case of the hexadecimal digits never matters, line by line |
| IntelHexLines.TolerantRoundTrip | host/midex-fw-upload.c:88-167 | Printed records read back with digits in either case and any stray lines between them |
| IntelHexLines.LinesExactly | host/midex-fw-upload.c:101-101 | The pieces of a text put together are the text; each ends at its first newline, at 599 characters or at the end |
| Upload.StoreCell | host/midex-fw-upload.c:295-296 | A store changes exactly the addressed cells, modulo 65536, to the data |
| Upload.ChunkedUpload | host/midex-fw-upload.c:287-305 | The chunks of at most 64 bytes, addresses modulo 65536, leave memory as the records themselves would |
| Upload.ChunkAt | host/midex-fw-upload.c:288-304 | Chunk k holds the bytes of the record from 64k on, 64 of them or as many as are left, at the address 64k further on, modulo 65536 |
| Upload.Loader.AnchorWrite | host/midex-fw-upload.c:171-178 | One transfer, its bytes stored as far as they were transferred, and the code the function makes of the answer |
| Upload.ReportedComplete | host/midex-fw-upload.c:177-177 | That code is zero if and only if everything or nothing was transferred |
| Upload.Loader.UploadRecord | host/midex-fw-upload.c:288-304 | The loop sends the record's chunks in order and stops at the first one reported as failed, whose code is the result |
| Upload.Loader.UploadAll | host/midex-fw-upload.c:287-305 | So does the whole upload; reported as successful and with no transfer that moved nothing, it leaves memory as the records applied in order |
| Upload.LoadedExactly | host/midex-fw-upload.c:171-178 | A record reported as loaded is loaded, whatever memory held, if and only if no transfer of it moved nothing |
| PortRings.PortRings.Clear | firmware/main.c:204-213 | Both indices of every port are zero, whatever they held, and no slot changes |
| PortRings.PortRings.Count | firmware/main.c:216-220 | The masked 8-bit index difference is the length of the port's abstract queue |
| PortRings.PortRings.Put | firmware/main.c:243-246 | Exactly the ring of the given port becomes the written ring |
| PortRings.PortRings.Pop | firmware/main.c:262-263 | Exactly the ring of the given port advances |
| PortParser.RxRing.Count | firmware/midi_parser.c:75-78 | The 8-bit index difference is the length of the abstract queue |
| PortParser.RxRing.Emit | firmware/midi_parser.c:96-102 | Writes the four bytes of the event packet to the ring |
| PortParser.RxRing.Take | firmware/midi_parser.c:233-236 | Returns the byte at the read index and advances only that index |
| PortParser.PortParser.Clear | firmware/midi_parser.c:84-89 | Closes any SysEx, drops status and held bytes, and leaves the other fields as they were |
| PortParser.PortParser.ParseByte | firmware/midi_parser.c:105-205 | Updating the fields in place makes the step of the parser and writes its packet, if any, to the ring |
| PortParser.PortParser.StatusByte | firmware/midi_parser.c:144-175 | The same for channel voice and system common status bytes |
| Receiver.Receiver.MidiParserReset | firmware/midi_parser.c:80-92 | In every parser no SysEx is open, no status is kept and nothing is held, its other fields are as they were, and the ring indices are zero |
| Receiver.Receiver.UartRxReset | firmware/uart.c:94-103 | All indices and the overflow counter are zero, whatever they held |
| Receiver.Receiver.Start | firmware/main.c:309-320 | The start-up calls reach an initial state of the receive system from any memory contents |
| Receiver.Receiver.RxStore | firmware/uart.c:137-146 | The macro makes the capture step, on the one port |
| Receiver.Receiver.SweepPorts | firmware/uart.c:174-180 | The loop over the UARTs makes the sweep |
| Receiver.Receiver.UartRxIsr | firmware/uart.c:164-180 | The interrupt makes one timer step of the receive system |
| Receiver.Receiver.Interrupts | firmware/uart.c:164-180 | All ticks due at one point, in order, are a run of timer steps |
| Receiver.Receiver.UartRxDequeue | firmware/uart.c:124-130 | With the ticks due between its two halves, a run of the system that ends with the byte on its way to the parser |
| Receiver.Receiver.ParseNext | firmware/midi_parser.c:224-224 | Dequeueing and parsing one byte is a run of the system, wherever ticks fall |
| Receiver.Receiver.DrainPort | firmware/midi_parser.c:221-225 | The inner loop is a run of the system to the next port, using up the ticks that came due, in order; it ends with the queue empty or the ring full |
| Receiver.Receiver.FillBuffer | firmware/midi_parser.c:231-237 | The shipping loop moves exactly the bytes of the specified loop into the endpoint buffer |
| Receiver.Receiver.ShipPackets | firmware/midi_parser.c:228-239 | The shipping half makes the shipping step; RxDelivery.ShipStep says what that is, free or busy |
| Receiver.Receiver.MidiRxPump | firmware/midi_parser.c:207-240 | One call is a run of the system from its start without shipping, of its own steps and the ticks that came due, and then one shipping step; if no tick came due every queue is empty or the ring was full before shipping, busy or not |
| Receiver.Receiver.ClearOverflowCount | firmware/usb.c:418-421 | The vendor request makes the clearing step |
| Receiver.Receiver.EndpointRead | firmware/midi_parser.c:228-230 | The host's read makes the reading step |
| Receiver.Receiver.Serve | firmware/main.c:325-329 | The main loop makes exactly the given turns, each a call of midi_rx_pump up to its shipping step, and the ticks that fall in them are those that came due, in order; each cable's packets read, in the endpoint or in the ring are the parse of the bytes taken, and those with the queue are the bytes kept |
| Bridge.Bridge.Start | firmware/main.c:204-213 | tx_reset and the first re-arm reach an initial state of the transmit system |
| Bridge.Bridge.TxRoom | firmware/main.c:216-220 | The index arithmetic is the free space of the abstract ring |
| Bridge.Bridge.Enqueue | firmware/main.c:243-246 | The inner loop appends the payload to the one ring |
| Bridge.Bridge.StoreEvent | firmware/main.c:235-246 | The loop body stores the event, skips it, or changes nothing for lack of room |
| Bridge.Bridge.Walk | firmware/main.c:234-247 | The loop ends where the specified loop ends, with the same rings and the same reason |
| Bridge.Bridge.BridgeOut | firmware/main.c:226-252 | One call makes the bridge steps: consume and re-arm, or stop with the resume offset and the semaphore kept |
| Bridge.Bridge.UartTxPump | firmware/main.c:256-266 | One call sends at most one byte on each ready port |
| Bridge.Bridge.Ep2OutIsr | firmware/usb.c:86-91 | The interrupt sets the semaphore and clears its flag |
| Bridge.Bridge.Turn | firmware/main.c:326-327 | bridge_out and then uart_tx_pump are one pass of the transmit system |
| Bridge.Bridge.Outside | firmware/usb.c:86-91 | Transfers of the host and interrupts between the calls, in any order, are a run of the transmit system |
| Bridge.Bridge.Serve | firmware/main.c:325-329 | The main loop makes exactly the given turns, in order: what host and interrupt do, bridge_out, what they do, uart_tx_pump; afterwards each port's output plus ring is the payload of its events done, and no event is lost |
| Bridge.SilentTurns | firmware/main.c:325-329 | Turns in which host and interrupt do nothing are passes of the transmit system |
| Bridge.TurnsInv | firmware/main.c:325-329 | Any turns keep the invariant of the transmit side |
| Bridge.TurnsDeliver | firmware/main.c:325-329 | After any turns from start-up that end with the endpoint armed, the host sends a packet and is silent; turns with 175 stretches in which every UART is ready at least once give each UART exactly the payload of everything ever sent on its cable |

## Left out

- Board and UART bring-up, delays, port multiplexing and reset wiring: electrical, not logical.
- The two UART backends behind `uart_tx_ready` and `uart_putc`: a ready flag and an output history; the split adds only a case distinction.
- USB enumeration, SETUP handling other than clearing the overflow counter, data toggles and SET_INTERFACE, which resets the endpoint underneath a stalled packet.
- USB descriptors: a constant table.
- The bus probe firmware and its host scripts, and ALSA, shell, udev and systemd files: diagnostics and foreign calls.
- Latency and throughput figures: measured, not decided by the code.
- IntelHex.ParseIhex: a failed memory allocation, on which the reader gives up, is left out.
- Upload.Loader.AnchorWrite: a transfer that libusb reports as an error stores nothing in the model; the real device may have stored part of it.
- Upload.Loader.UploadAll: holding the 8051 in reset before and releasing it after are left out, as are finding and opening the device.
- RxPipeline: the order of two interrupts inside one atomic step is not distinguished, because such a step shares no variable with the interrupt.
- TxBridge: the time at which the hardware raises the EP2-OUT interrupt is any time after the transfer.
- Receiver.Receiver.DrainPort: ends because the ticks given to it are finitely many; that the main loop outruns the capture interrupt is a matter of speed.
