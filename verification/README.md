# xInput-Switch, modelled in Dafny

A PC bridge turns a game controller, or events from a socket, into 9-byte serial frames; an AVR microcontroller turns
those into Pro Controller reports for a Nintendo Switch; and the LUFA boot loaders put the firmware on the
microcontroller. This project models the three places where these programs hold state over long streams and proves what
every stream, run or request sequence keeps.

**The serial link and the controller.** `Crc` is the checksum as arithmetic on polynomials over GF(2), the one of the
header error control section of ITU-T I.432.1, `CrcDivision` shows it to be the remainder of a division, and `CrcBurst` says which bursts it sees. `Report` is the controller report, its bit layout, and the way from a
packet on the host to buttons on the console. `Device` is the firmware's receive interrupt and report callback as a
state machine, `Sync` the host's handshake against it, `Watchdog` the schedule of the connection-lost timer,
`Handshake` the device's side of it over every stream, `Response`, `ReplyPackets` and `ReplyRuns` the replies byte for
byte and the one-slot engine that sends them against a reference read off the trace, `Staleness` all of it in
every interleaving, `EndToEnd` one press from host to console, `SocketToConsole` one socket event. `Joystick` and `ResponseManager` are the imperative
firmware and host code, with their buffers, counters and loops, proved to take exactly those steps.

**The boot loaders.** `Flash` and `FlashMemory` are the flash memory that all loaders share: a page buffer, and page
writes that AND into memory, so that a forgotten erase shows; `FlashSafety` is what no loader can do to it. `Hex`,
`HexRoundTrip`, `HexBase`, `HexOther`, `HexMixed` and `PrinterLoader` are the streaming Intel HEX loader; `Dfu`,
`DfuErase`, `DfuSecurity`, `DfuRoundTrip`, `DfuPages`, `DfuEeprom`, `DfuIdentity`, `DfuStart`, `DfuExit` and `DfuLoader`
the DFU loader;
`Avr109` and `Avr109Loader` the AVR109 block commands.

**The socket input.** `Framing` is the cutting of a byte stream into lines; `Socket` and `PadSocket` are the table of
timed presses against an event log that is never pruned, and `SocketEvents` says what one event means.

Each imperative class has a `View()` as a value of the specification, and each of its methods promises that the new
view is the specification's step of the old one. The properties are lemmas about the specification.

`dafny verify dfyconfig.toml` checks the whole project.

## Results that go against expectation

- The host's first handshake attempt can fail, and then the device has taken the start bytes for a packet and shows it
  to the console. `Sync.SyncAttemptOutcome` says exactly when, and the second attempt always succeeds.
- An Intel HEX image smaller than one page is erased for and never written, because the end-of-file record looks like
  an address in the same page. `HexRoundTrip.RoundTripIff` is the exact condition.
- Extended address records are combined low byte first although the Extended Linear Address Record section of Intel's
  Hexadecimal Object File Format Specification, Rev. A, puts the high byte first, and they are ignored once the base has
  reached the boot loader. `HexBase.BaseRightIff` is the exact condition under which the base is right. On parts over
  64 KB a base that high is for ever, so everything behind the record for the second 64 KB is lost
  (`HexBase.SecondSegmentLost`).
- A record of another type, such as a start address, is harmless only between pages, in the open page or behind the
  image; elsewhere it makes the loader write the open page early and erase another one. `HexMixed.HarmlessIff` is the
  exact condition, `HexMixed.StartAddressLosesImage` a file that is lost.
- An EEPROM download to an address that is not a multiple of 32 writes the last alignment byte and shifts the data by
  one. `DfuEeprom.EepromRoundTripIff` is the exact condition of the round trip.
- The comment on the start-application command speaks of a valid application, but the test at
  `Firmware/LUFA/Bootloaders/DFU/BootloaderDFU.c:782` is true when the reset vector is blank: `DfuExit.ExitsIff`.
- A start by jump loads its address only if the request behind it carries data, so not with the empty request that ends
  the protocol: `DfuStart.JumpAddressIff`.
- Secure mode covers the application only: the chip erase that ends it keeps the EEPROM and makes it readable.
  `DfuSecurity.SecretIffSameEeprom` is the exact condition of secrecy.
- CLRSTATUS keeps the state, unlike Appendix A of USB DFU 1.1: `DfuExit.OnlyAbortLeavesError`.
- A comment at `Firmware/Response.c:161` calls the little-endian address of a flash reply big-endian:
  `Response.SubcommandEchoed`.

## Model

| member | source | states |
|---|---|---|
| `Crc.ComputeCrc8` | xInput2Serial/xinput2serial.py:59-65 | The bit loop of the host computes the register that one shift per bit leaves, the function all the detection results are about |
| `CrcDivision.DivideStep` | xInput2Serial/xinput2serial.py:63-64 | One shift of the register is one step of long division by x^8+x^2+x+1 |
| `CrcDivision.RemainderUnique` | xInput2Serial/xinput2serial.py:59-65 | A polynomial has one quotient and one remainder of degree below eight by the generator |
| `CrcDivision.CrcIsRemainder` | xInput2Serial/xinput2serial.py:59-65 | For every message, the message times x^8 is a multiple of x^8+x^2+x+1 plus the checksum, and no other remainder of degree below eight will do |
| `Crc.Crc8Extend` | Firmware/Joystick.c:72 | The running CRC that the interrupt routine keeps is the CRC of the bytes buffered so far |
| `Crc.CodewordIffZero` | Firmware/Joystick.c:75-88 | A frame whose last byte matches the CRC of the rest is exactly a frame that leaves a zero register |
| `Crc.RegisterLinear` | xInput2Serial/xinput2serial.py:59-65 | The register is linear over GF(2): the register of a damaged frame is the sum of those of the frame and of the damage |
| `Crc.UndetectedIffCodeword` | Firmware/Joystick.c:75-88 | Damage of any shape goes unnoticed if and only if the damage pattern is itself a frame with a matching CRC |
| `Crc.OneByteDetected` | Firmware/Joystick.c:75-88 | Every nonzero change of one byte of a frame of any length is noticed |
| `Crc.FlipsParity` | xInput2Serial/xinput2serial.py:59-65 | Flipping bits changes the parity of the register exactly as often as the number of flips is odd |
| `Crc.OddFlipsDetected` | Firmware/Joystick.c:75-88 | Every odd number of bit flips in a frame of any length is noticed |
| `Crc.OrderOfX` | xInput2Serial/xinput2serial.py:59-65 | No positive power of x below 72 is 1 modulo the generator |
| `Crc.TwoFlipsDetected` | Firmware/Joystick.c:75-88 | Every two bit flips in a nine-byte frame are noticed |
| `CrcBurst.FlipsMissedIff` | Firmware/Joystick.c:75-88 | Any set of bit flips in a frame of any length goes unnoticed if and only if its polynomial is a multiple of the generator |
| `CrcBurst.BurstDetected` | Firmware/Joystick.c:75-88 | Every burst of at most eight bits, also across byte boundaries, is noticed in a frame of any length |
| `CrcBurst.FourFlipsMissed` | Firmware/Joystick.c:75-88 | Three flips and eight bits are the limits: the four flips of the generator go unnoticed at every place of every frame |
| `Report.DecodeEncode` | Firmware/datatypes.h:125-154 | The bit-field layout of the report loses nothing: reading back the eleven bytes gives every field |
| `Report.ButtonsSurvive` | Firmware/Joystick.c:126-175 | For every 14-bit button word, packing on the host and populating in the firmware presses exactly those buttons |
| `Report.DirectionSurvives` | xInput2Serial/xinput2serial.py:541 | For each of the nine hat positions, the firmware presses exactly the d-pad buttons of that direction |
| `Report.StickRoundTrip` | Firmware/Joystick.c:126-175 | The two 12-bit coordinates of a stick are recovered from its three bytes |
| `Report.SticksSurvive` | xInput2Serial/xinput2serial.py:125-132 | Each axis arrives as 16 times its wire byte plus 8, in the right half of the right stick |
| `Report.AxisSent` | xInput2Serial/xinput2serial.py:125-132 | The byte that every axis from -1 to 1 is sent as: the whole number below its place on a scale from 0 to 255, and 128 when that is less than ten from 128 |
| `Report.SticksSent` | xInput2Serial/xinput2serial.py:125-132 | The four stick bytes of every packet and the coordinates they give on the console, in those terms; the last byte is zero |
| `Report.AxisEnds` | xInput2Serial/xinput2serial.py:125-132 | The ends of an axis are sent as 0 and 255, the centre as 128 |
| `Report.PopulatedRest` | Firmware/Joystick.c:126-175 | Every accepted frame shows a wired controller with full battery, no side buttons and no rumble; a hat byte above 7 shows no direction |
| `Report.NormWrapsIff` | xInput2Serial/xinput2serial.py:125-132 | The mask in the axis encoding changes the value if and only if the axis lies outside the open interval of radius 257/255 |
| `Report.AxisMonotone` | xInput2Serial/xinput2serial.py:160-163 | For every raw XInput value the encoding does not wrap, and a larger raw value never gives a smaller wire byte, despite the dead-zone snap |
| `Report.IdleMeaning` | Firmware/Joystick.c:180-227 | The idle report shows a centred pad with nothing pressed, or with HOME alone once the flag is set |
| `Device.RunAppend` | Firmware/Joystick.c:65-121 | A run over a stream is the run over any prefix followed by the run over the rest, states and answers both |
| `Device.Delivery` | Firmware/Joystick.c:65-97 | From a synchronised device with an empty buffer, every sequence of n packets gets exactly n acknowledgements, keeps it synchronised and leaves the report of the last packet only |
| `Device.NineBytes` | Firmware/Joystick.c:69-97 | What any nine bytes do: accepted if and only if the CRC matches, otherwise a restart of synchronisation or a refusal, with report, selection and timer unchanged |
| `Device.DamageRejected` | Firmware/Joystick.c:69-97 | A frame hit by any odd number of flips, any two flips, any change of one byte or any burst of at most eight bits is refused, and in general refused if and only if the damage is not a frame itself; report, selection and timer stay and the buffer is empty again |
| `Device.FourFlipsAccepted` | Firmware/Joystick.c:85-94 | The four flips of the generator, at every place of every frame, are accepted |
| `Handshake.HandshakeLaw` | Firmware/Joystick.c:98-120 | Over every stream in which the handshake FF 33 CC is not complete before its end: the state is the longest part of the handshake that the stream ends with, counting what was seen before; each part is answered, nothing else is, and nothing else changes |
| `Handshake.SyncsIff` | Firmware/Joystick.c:98-120 | A device is never synchronised during a stream if and only if the handshake is complete nowhere in it |
| `Handshake.FromReset` | Firmware/Joystick.c:230-241 | From reset, over every such stream, the device shows a centred pad, and the timer has not started |
| `Sync.WaitingSkips` | xInput2Serial/xinput2serial.py:84-96 | Waiting for a byte skips everything before its first occurrence, or everything if it never comes |
| `Sync.NineStarts` | Firmware/Joystick.c:65-121 | The nine start bytes finish the frame in progress and the remaining ones meet the state that leaves |
| `Sync.StartFails` | Firmware/Joystick.c:69-97 | When the padded partial frame has CRC 0xFF the start bytes are accepted as a packet and the rest of them becomes the next partial frame |
| `Sync.StartSucceeds` | Firmware/Joystick.c:76-120 | Otherwise the start bytes leave the handshake begun, with a start answer among the bytes sent back |
| `Sync.EightStartsCrc` | xInput2Serial/xinput2serial.py:59-65 | Eight start bytes do not have the start byte as their CRC |
| `Sync.SyncAttemptOutcome` | xInput2Serial/xinput2serial.py:97-118 | One attempt fails if and only if the device is synchronised and its partial frame padded with 0xFF has CRC 0xFF; success leaves it synchronised, empty and otherwise unchanged |
| `Sync.SyncConverges` | xInput2Serial/xinput2serial.py:97-118 | From every state the second attempt succeeds if the first did not, ending synchronised with an empty buffer |
| `Sync.FirstAttemptCanFail` | xInput2Serial/xinput2serial.py:97-118 | A partial frame for which the first attempt does fail |
| `Watchdog.SendSelects` | Firmware/Joystick.c:318-346 | One report sent while synchronised selects what the schedule says and advances the timer along it |
| `Watchdog.ScheduleKept` | Firmware/Joystick.c:318-358 | In every run without an accepted frame, under any mix of bytes, refusals and resynchronisations, the n-th synchronised report follows the schedule: last packet for n < 15, nothing for 15 to 99, HOME for 100 to 124, then nothing |
| `Watchdog.ScheduleCounts` | Firmware/Joystick.c:321-346 | How many selections of each kind such a prefix of the schedule holds, exactly |
| `Watchdog.AtMostFifteenAndTwentyFive` | Firmware/Joystick.c:318-358 | Between two accepted frames at most 15 reports show the last packet and at most 25 press HOME |
| `Watchdog.TimerCounts` | Firmware/Joystick.c:88-93 | In every run, with any number of accepted frames, the timer is eight times the number of synchronised reports since the last one, up to 1000 |
| `Watchdog.EverySend` | Firmware/Joystick.c:318-358 | Every report of every run: while synchronised it selects what the schedule says for the number of reports since the last accepted frame, otherwise nothing |
| `Response.Render` | Firmware/Response.c:129-176 | A packet has 64 bytes, and carries the counter exactly when its identifier is 0x21 or 0x30 |
| `Response.ReplyWellFormed` | Firmware/Response.c:28-107 | Every reply that a request can ask for fits the packet |
| `Response.SubcommandEchoed` | Firmware/Response.c:52-106 | The packet for a subcommand acknowledges it by number with the selected report; a flash read is answered with its address, its size and the flash contents |
| `ReplyPackets.CommandAnswers` | Firmware/Response.c:30-51 | The packet for every 80 xx request, byte for byte: identity, standard report or echo |
| `ReplyPackets.SubcommandAnswers` | Firmware/Response.c:52-106 | The packet for every subcommand, byte for byte: code, number and payload behind counter and report |
| `ReplyPackets.Unanswered` | Firmware/Response.c:28-107 | Exactly which reports ask for nothing |
| `ReplyPackets.FlashColours` | Firmware/EmulatedSPI.c:24-38 | What a read of the colours returns for every size, each colour only whole |
| `ReplyPackets.FlashCalibration` | Firmware/EmulatedSPI.c:39-79 | What reads of the parameters and calibrations return for every size |
| `ReplyPackets.FlashElsewhere` | Firmware/EmulatedSPI.c:16-73 | Every other address reads as blank, but for two bytes of the user calibration |
| `ReplyRuns.FirstAskedIsFirst` | Firmware/Response.c:28-107 | The reference answer of a window of requests is that of the earliest one that asks for anything |
| `ReplyRuns.SlotInvariant` | Firmware/Response.c:109-186 | After every run the slot holds the packet for the first request since the last transmission, or nothing, and the counter is three times the number of counted packets |
| `ReplyRuns.SlotRefines` | Firmware/Response.c:109-123 | Every packet sent is the reply to the first reply-producing request since the previous packet, or else a fresh report, whatever came in between |
| `ReplyRuns.CounterLaw` | Firmware/Response.c:143-144 | The k-th packet with identifier 0x21 or 0x30 carries 3k modulo 256 |
| `ReplyRuns.CountersDistinct` | Firmware/Response.c:3 | No two of 256 consecutive such packets carry the same counter |
| `ReplyRuns.FirstPacket` | Firmware/Response.c:20-26 | The first packet of every run is the identity reply, whatever was asked before it |
| `Staleness.StepTwins` | Firmware/Joystick.c:318-346 | Devices that differ only in the last accepted packet still do so after any event that accepts none |
| `Staleness.StepForgotten` | Firmware/Response.c:109-153 | Once nothing of that packet is selected or waiting, no event brings it back |
| `Staleness.TwinRuns` | Firmware/Joystick.c:88-93 | The invariant of a run: the timer is at least what the synchronised packets sent so far have made it, and after 16 of them the packet is forgotten |
| `Staleness.StaleForSixteenPackets` | Firmware/Response.c:109-153 | In every interleaving of bytes, requests and packets without an accepted frame, no packet after the sixteenth synchronised one depends on the last accepted frame |
| `Staleness.FifteenPacketsAreNotEnough` | Firmware/Response.c:109-153 | The bound is the least one: a request after fifteen packets still reveals which frame was accepted |
| `EndToEnd.PressReachesConsole` | Firmware/Joystick.c:126-175 | One frame from the bridge, and the next packet to the console is a 0x30 report from which exactly the buttons, direction and stick positions sent are read |
| `Joystick.Firmware.constructor` | Firmware/Joystick.c:230-241 | The firmware starts out of sync with an empty buffer and the idle report selected |
| `Joystick.Firmware.ReceiveSynced` | Firmware/Joystick.c:68-97 | The synchronised arm of the interrupt routine, on the real buffer, count and running CRC, takes the step of the state machine |
| `Joystick.Firmware.Receive` | Firmware/Joystick.c:65-121 | The whole interrupt routine takes the step of the state machine and sends the same bytes |
| `Joystick.Firmware.BeforeSend` | Firmware/Joystick.c:318-358 | The callback takes the report step of the state machine |
| `Joystick.Uart.Write` | xInput2Serial/xinput2serial.py:70-71 | Writing a packet sends the packet followed by its CRC |
| `Joystick.Uart.ReadUntilQuiet` | xInput2Serial/xinput2serial.py:72-83 | Reading until the line is quiet returns everything that arrived and leaves nothing |
| `Joystick.Uart.ReadExpected` | xInput2Serial/xinput2serial.py:84-96 | The expected byte is found if and only if it arrived, and everything up to it is consumed |
| `Joystick.Uart.Synchronise` | xInput2Serial/xinput2serial.py:97-118 | One call of the handshake against the firmware object returns and leaves what the attempt of the state machine says |
| `ResponseManager.ReadColours` | Firmware/EmulatedSPI.c:24-38 | Colours are copied only whole |
| `ResponseManager.SpiRead` | Firmware/EmulatedSPI.c:16-81 | The buffer holds the known flash bytes followed by 0xFF |
| `ResponseManager.Manager.PrepareReply` | Firmware/Response.c:129-136 | A waiting packet is kept; otherwise the slot holds the new packet, padded with zeros |
| `ResponseManager.Manager.PrepareUartReply` | Firmware/Response.c:138-153 | The slot takes a 0x21 packet with the next counter value and the selected report, unless one is waiting |
| `ResponseManager.Manager.PrepareSpiReply` | Firmware/Response.c:155-170 | The slot takes the reply to a flash read |
| `ResponseManager.Manager.PrepareStandardReport` | Firmware/Response.c:172-176 | The slot takes a 0x30 packet with the next counter value, unless one is waiting |
| `ResponseManager.Manager.Prepare8101` | Firmware/Response.c:178-186 | The slot takes the identity reply, unless one is waiting |
| `ResponseManager.Manager.constructor` | Firmware/Response.c:20-26 | After setup the identity reply is waiting |
| `ResponseManager.Manager.ProcessOut` | Firmware/Response.c:28-107 | A request prepares the reply that the request table gives it, or changes nothing |
| `ResponseManager.Manager.SendIn` | Firmware/Response.c:109-123 | The callback runs first; the packet sent is the waiting one or a fresh report, and the slot is free afterwards |
| `Socket.Until` | xInput2Serial/xinput2serial.py:449-451 | Every event ends after now and at most five seconds later |
| `Socket.ExpireKeepsLive` | xInput2Serial/xinput2serial.py:362-369 | Pruning keeps exactly the entries that still hold, with their values, and resets an expired direction |
| `SocketEvents.UntilHolds` | xInput2Serial/xinput2serial.py:449-451 | An event holds as long as it says, but at least 0.01 and at most 5 seconds |
| `SocketEvents.EventButtons` | xInput2Serial/xinput2serial.py:484-494 | A button that an event names is pressed exactly until the event ends, every other button is as before |
| `SocketEvents.EventExtras` | xInput2Serial/xinput2serial.py:484-494 | The same for HOME and CAPTURE |
| `SocketEvents.EventDirection` | xInput2Serial/xinput2serial.py:484-494 | The last direction that an event names holds until the event ends, then the pad is centred |
| `SocketEvents.EventWithoutDirection` | xInput2Serial/xinput2serial.py:484-494 | An event without a direction leaves the direction as before |
| `SocketEvents.EventSticks` | xInput2Serial/xinput2serial.py:468-482 | Axes 0 and 1 are the left stick of the event and axes 3 and 4 the right one, limited to -1 and 1, until the event ends; then they are centred |
| `SocketEvents.EventOtherAxes` | xInput2Serial/xinput2serial.py:449-494 | A trigger is fully pressed until the event ends, and every axis that the event does not name is as before |
| `SocketEvents.AxisInRange` | xInput2Serial/xinput2serial.py:496-500 | After every run of events every axis reads between -1 and 1 |
| `Socket.ExpireAgrees` | xInput2Serial/xinput2serial.py:362-369 | Pruning keeps the table in agreement with the full event log from now on |
| `Socket.AssignAllAgrees` | xInput2Serial/xinput2serial.py:464-482 | Applying an event keeps the agreement with the log extended by its assignments |
| `Socket.AnswersAgree` | xInput2Serial/xinput2serial.py:340-360 | A table in agreement gives every answer that the log gives under last-writer-wins |
| `Socket.RunAgrees` | xInput2Serial/xinput2serial.py:340-494 | Every run of events and prunings under a nondecreasing clock ends in agreement |
| `Socket.ExpiryUnobservable` | xInput2Serial/xinput2serial.py:340-369 | After every such run, pruning now and asking later, every button, extra-button, axis and hat answer is that of the never-pruned log |
| `Socket.NeutralAfterFiveSeconds` | xInput2Serial/xinput2serial.py:793 | Five seconds after the last event the packet packs to the bytes of the neutral packet, whatever the clock shows at each question |
| `Socket.PacketBit` | xInput2Serial/xinput2serial.py:540-575 | A bit of the packet is set if and only if a button-map entry or an extra button with that bit is live when it is asked for |
| `Socket.PacketFits` | xInput2Serial/xinput2serial.py:566-583 | Every packet has a 14-bit button word and the hat value of the live direction |
| `SocketToConsole.SocketReachesConsole` | xInput2Serial/xinput2serial.py:566-583 | For every history of events, the console sees exactly the buttons and the direction that are live when they are asked for, and the sticks where the live values put them |
| `SocketToConsole.SticksReachConsole` | xInput2Serial/xinput2serial.py:566-583 | After every run of events the sticks on the console stand where the live values put them on the scale |
| `PadSocket.Pad.constructor` | xInput2Serial/xinput2serial.py:312-323 | The empty tables agree with the empty log |
| `PadSocket.Pad.Expire` | xInput2Serial/xinput2serial.py:362-369 | The dictionaries are pruned as the specification says and the log is unchanged |
| `PadSocket.Pad.Btn` | xInput2Serial/xinput2serial.py:340-342 | The answer is that of the full log at the time of the question |
| `PadSocket.Pad.ExtraButtons` | xInput2Serial/xinput2serial.py:344-351 | The bits are those of the full log at the time of the question |
| `PadSocket.Pad.Axis` | xInput2Serial/xinput2serial.py:353-356 | The value is that of the full log at the time of the question |
| `PadSocket.Pad.Hat` | xInput2Serial/xinput2serial.py:358-360 | The direction is that of the full log at the time of the question |
| `PadSocket.Pad.Put` | xInput2Serial/xinput2serial.py:484-494 | One assignment, appended to the log |
| `PadSocket.Pad.ApplyEvent` | xInput2Serial/xinput2serial.py:449-482 | An event appends its assignments, in order and with one end time, and keeps the agreement |
| `PadSocket.Pad.BuildPacket` | xInput2Serial/xinput2serial.py:566-583 | The packet built from the live tables, with two clock readings per question, is the packet of the full log |
| `Framing.SplitUnique` | xInput2Serial/xinput2serial.py:416-427 | A stream has at most one decomposition into newline-free lines and a newline-free rest |
| `Framing.FindNewline` | xInput2Serial/xinput2serial.py:426 | The cut is at the first newline |
| `Framing.TakeLines` | xInput2Serial/xinput2serial.py:425-427 | The inner loop terminates and yields the lines of what was pending and what arrived |
| `Framing.HandleClient` | xInput2Serial/xinput2serial.py:416-427 | However the stream is cut into chunks, the lines handled are the newline-terminated lines of the whole stream in order, and the residue is what follows the last newline |
| `Flash.EraseStarts` | Firmware/LUFA/Bootloaders/Printer/BootloaderAPI.c:47-58 | Erasing a valid page blanks it and the page buffer and starts an empty page |
| `Flash.FillExtends` | Firmware/LUFA/Bootloaders/Printer/BootloaderAPI.c:73-76 | Filling the next word extends the data of the page being filled and touches no memory |
| `Flash.WriteCommits` | Firmware/LUFA/Bootloaders/Printer/BootloaderAPI.c:60-71 | Writing, an AND into memory, commits exactly the data filled since the erase with the rest of the page blank |
| `Flash.InstallNext` | Firmware/LUFA/Bootloaders/Printer/BootloaderAPI.c:60-71 | Committing page after page installs the concatenation of the data |
| `FlashSafety.WriteClearsBits` | Firmware/LUFA/Bootloaders/Printer/BootloaderAPI.c:60-71 | A page write only clears bits: a bit is set afterwards exactly when it was set before and is set in the buffer, which is blank then |
| `FlashSafety.HexProtects` | Firmware/LUFA/Bootloaders/Printer/BootloaderPrinter.c:238-369 | No stream of characters changes the boot loader section |
| `FlashSafety.DfuProtects` | Firmware/LUFA/Bootloaders/DFU/BootloaderDFU.c:253-576 | No sequence of requests changes the boot loader section |
| `FlashSafety.Avr109Protects` | Firmware/LUFA/Bootloaders/CDC/BootloaderCDC.c:276-374 | No block write, at any address and of any size, changes the boot loader section |
| `FlashMemory.Memory.ErasePage` | Firmware/LUFA/Bootloaders/Printer/BootloaderAPI.c:47-58 | On the arrays: an invalid address changes nothing, a valid one erases its page |
| `FlashMemory.Memory.WritePage` | Firmware/LUFA/Bootloaders/Printer/BootloaderAPI.c:60-71 | On the arrays: each byte of the page is ANDed with the buffer, which is then cleared |
| `FlashMemory.Memory.FillWord` | Firmware/LUFA/Bootloaders/Printer/BootloaderAPI.c:73-76 | On the arrays: the word lands at its offset in the buffer, low byte first |
| `Hex.HexDigits` | Firmware/LUFA/Bootloaders/Printer/BootloaderPrinter.c:198-206 | Exactly the sixteen upper-case digits have a value, and it is their place in the alphabet of digits |
| `Hex.NoiseIgnored` | Firmware/LUFA/Bootloaders/Printer/BootloaderPrinter.c:240-257 | A character that is neither a colon nor an upper-case digit changes nothing but don't-care fields |
| `Hex.EssenceSteps` | Firmware/LUFA/Bootloaders/Printer/BootloaderPrinter.c:238-369 | Parsers that agree except on don't-care fields still do after any character |
| `Hex.NoiseInsensitive` | Firmware/LUFA/Bootloaders/Printer/BootloaderPrinter.c:238-268 | For every stream, deleting all such characters leaves the memory, the sequence of flash operations and the exit flag the same |
| `HexRoundTrip.ParseHeader` | Firmware/LUFA/Bootloaders/Printer/BootloaderPrinter.c:240-293 | The header of a printed record sets count, address and type |
| `HexRoundTrip.StoreProgress` | Firmware/LUFA/Bootloaders/Printer/BootloaderPrinter.c:319-334 | One more word of the image is buffered, with the erase before the first word of a page and the write after its last |
| `HexRoundTrip.ParseRecord` | Firmware/LUFA/Bootloaders/Printer/BootloaderPrinter.c:238-369 | A printed data record of any even size advances the image by its data, across page boundaries |
| `HexRoundTrip.ParseEndOfFile` | Firmware/LUFA/Bootloaders/Printer/BootloaderPrinter.c:351-363 | The end-of-file record writes the last partial page unless that is page 0, and ends the loader |
| `HexRoundTrip.PrintedFile` | Firmware/LUFA/Bootloaders/Printer/BootloaderPrinter.c:214-369 | What every printed image does, in any even record sizes and with any noise: the exact memory it leaves, and the loader exits |
| `HexRoundTrip.RoundTripIff` | Firmware/LUFA/Bootloaders/Printer/BootloaderPrinter.c:214-369 | The covered pages equal the image, blank after it, and all else is untouched, if and only if the image fills a page or holds only 0xFF |
| `HexRoundTrip.PrintIsClean` | Firmware/LUFA/Bootloaders/Printer/BootloaderPrinter.c:254-257 | Every printed image is a noise-free stream |
| `HexRoundTrip.ShortImageLost` | Firmware/LUFA/Bootloaders/Printer/BootloaderPrinter.c:220-229 | A two-byte image that is erased and never written |
| `HexOther.WrongChecksum` | Firmware/LUFA/Bootloaders/Printer/BootloaderPrinter.c:351-354 | A wrong checksum byte is forgotten: nothing is flushed and the loader goes on |
| `HexOther.RightChecksum` | Firmware/LUFA/Bootloaders/Printer/BootloaderPrinter.c:356-363 | A right one flushes the open page if the address has left it, and ends the loader in an end-of-file record |
| `HexOther.EndOfFileIff` | Firmware/LUFA/Bootloaders/Printer/BootloaderPrinter.c:351-363 | An end-of-file record ends the loader if and only if its checksum is right |
| `HexOther.OtherProgramsNothing` | Firmware/LUFA/Bootloaders/Printer/BootloaderPrinter.c:317-363 | For every board, address and record of another type nothing is erased or filled, the base is kept, and at most the open page is written |
| `HexOther.OtherTracelessIff` | Firmware/LUFA/Bootloaders/Printer/BootloaderPrinter.c:295-363 | Such a record leaves no trace if and only if no page is open, or it is read to its end and its address lies in the open page |
| `HexOther.ExtendedEffect` | Firmware/LUFA/Bootloaders/Printer/BootloaderPrinter.c:336-344 | An extended address record, read to its end, sets the base and flushes as every record does; otherwise it is given up |
| `HexMixed.MixedFile` | Firmware/LUFA/Bootloaders/Printer/BootloaderPrinter.c:238-369 | A file with any number of records of other types, each harmless at its place, installs every image of at least one page |
| `HexMixed.HarmlessIff` | Firmware/LUFA/Bootloaders/Printer/BootloaderPrinter.c:238-369 | A file with one record of another type installs every image of its length if and only if the record stands between pages, or is read to its end and has an address in the open page or stands behind the image |
| `HexMixed.StartAddressLosesImage` | Firmware/LUFA/Bootloaders/Printer/BootloaderPrinter.c:220-229 | A start-address record in the middle of the second page loses the image |
| `HexBase.ExtendedAddressSwapped` | Firmware/LUFA/Bootloaders/Printer/BootloaderPrinter.c:314-344 | What an extended address record does, for every base and every address field: below the boot loader its two bytes are taken in the wrong order, otherwise it is ignored |
| `HexBase.BaseRightIff` | Firmware/LUFA/Bootloaders/Printer/BootloaderPrinter.c:295-344 | The exact condition under which such a record leaves the base it says, for every base and both widths of addresses |
| `HexBase.StuckForEver` | Firmware/LUFA/Bootloaders/Printer/BootloaderPrinter.c:240-305 | On parts over 64 KB, once the base is at or above the boot loader no stream changes it, nothing is erased or filled again, and at most the open page is still written |
| `HexBase.BaseIsForEver` | Firmware/LUFA/Bootloaders/Printer/BootloaderPrinter.c:240-305 | The same over whole runs from reset |
| `HexBase.RestIsLost` | Firmware/LUFA/Bootloaders/Printer/BootloaderPrinter.c:295-344 | Everything behind an extended address record whose exchanged value lies at or above the boot loader is lost, whatever follows |
| `HexBase.SecondSegmentLost` | Firmware/LUFA/Bootloaders/Printer/BootloaderPrinter.c:341-344 | The record for the second 64 KB sets the base to 16 MB, and the rest of the file is lost |
| `HexBase.EqualBytesIgnored` | Firmware/LUFA/Bootloaders/Printer/BootloaderPrinter.c:299-305 | A record with equal bytes that is ignored |
| `HexBase.SmallPartsRecover` | Firmware/LUFA/Bootloaders/Printer/BootloaderPrinter.c:280-288 | On parts of at most 64 KB a record whose address field wraps around moves the base again |
| `PrinterLoader.Loader.constructor` | Firmware/LUFA/Bootloaders/Printer/BootloaderPrinter.c:67-106 | The parser starts in its reset state |
| `PrinterLoader.Loader.FlushPageIfRequired` | Firmware/LUFA/Bootloaders/Printer/BootloaderPrinter.c:214-230 | The flush takes the step of the specification |
| `PrinterLoader.Loader.StoreWord` | Firmware/LUFA/Bootloaders/Printer/BootloaderPrinter.c:319-334 | A data word takes the step of the specification |
| `PrinterLoader.Loader.ReadDataByte` | Firmware/LUFA/Bootloaders/Printer/BootloaderPrinter.c:295-349 | A data byte takes the step of the specification |
| `PrinterLoader.Loader.ProcessByte` | Firmware/LUFA/Bootloaders/Printer/BootloaderPrinter.c:267-368 | A decoded byte takes the step of the specification |
| `PrinterLoader.Loader.ParseByte` | Firmware/LUFA/Bootloaders/Printer/BootloaderPrinter.c:238-369 | One character takes the step of the specification |
| `PrinterLoader.Loader.ParseStream` | Firmware/LUFA/Bootloaders/Printer/BootloaderPrinter.c:389-395 | A received block of characters is parsed one by one |
| `Dfu.FirstNonBlank` | Firmware/LUFA/Bootloaders/DFU/BootloaderDFU.c:715-741 | The result is the least address whose byte is not 0xFF, or the end of the application section |
| `DfuErase.EraseAll` | Firmware/LUFA/Bootloaders/DFU/BootloaderDFU.c:789-791 | The erase loop blanks the whole application section, nothing else, and the page buffer |
| `DfuErase.RunFollows` | Firmware/LUFA/Bootloaders/DFU/BootloaderDFU.c:253-576 | Over every sequence of requests the history of flash operations only grows, and without a page write a blank application section stays blank |
| `DfuErase.BlankAfterErase` | Firmware/LUFA/Bootloaders/DFU/BootloaderDFU.c:715-741 | After a chip erase request and any further requests that write no page, a blank check request with any parameters raises no error, stalls nothing and leaves the flash alone; with an open download it ends it, or goes on into the EEPROM if data follow |
| `DfuErase.BlankCheckReports` | Firmware/LUFA/Bootloaders/DFU/BootloaderDFU.c:715-741 | Otherwise the request, with any parameters, ends in an error at the least non-blank address: the 64 KB page and the 16-bit address recombine to it, and the next upload returns its low bytes |
| `DfuSecurity.LockedCommand` | Firmware/LUFA/Bootloaders/DFU/BootloaderDFU.c:609-652 | In secure mode a command leaves two devices with different applications indistinguishable, or erases both applications |
| `DfuSecurity.LockedStep` | Firmware/LUFA/Bootloaders/DFU/BootloaderDFU.c:253-576 | The same for every request, with equal answers |
| `DfuSecurity.SecureModeKeepsSecret` | Firmware/LUFA/Bootloaders/DFU/BootloaderDFU.c:609-652 | Two secure devices that differ only in the application section answer every sequence of requests identically |
| `DfuSecurity.EepromIsRead` | Firmware/LUFA/Bootloaders/DFU/BootloaderDFU.c:787-795 | The chip erase keeps the EEPROM: behind it every range of it can be uploaded from every device that was secure |
| `DfuSecurity.SecretIffSameEeprom` | Firmware/LUFA/Bootloaders/DFU/BootloaderDFU.c:609-652 | Two secure devices that differ in application and EEPROM answer every sequence of requests alike if and only if their EEPROMs are equal |
| `DfuSecurity.RefusedIff` | Firmware/LUFA/Bootloaders/DFU/BootloaderDFU.c:609-627 | Exactly which requests stall, and that they leave an error with status 3 |
| `DfuSecurity.PendingRefused` | Firmware/LUFA/Bootloaders/DFU/BootloaderDFU.c:273-281 | A pending command that is forbidden stalls the request that wakes it |
| `DfuSecurity.SecureModeEndsErased` | Firmware/LUFA/Bootloaders/DFU/BootloaderDFU.c:787-795 | Secure mode ends only in a request after which every byte of the application section is 0xFF |
| `DfuErase.NeverSecureAgain` | Firmware/LUFA/Bootloaders/DFU/BootloaderDFU.c:609-652 | No request turns secure mode on |
| `DfuRoundTrip.DiscardWithin` | Firmware/LUFA/Bootloaders/DFU/BootloaderDFU.c:583-603 | Inside a packet, discarding n bytes skips exactly n |
| `DfuRoundTrip.ProgramWordsInstalls` | Firmware/LUFA/Bootloaders/DFU/BootloaderDFU.c:339-378 | The word loop, from any point of any page, installs the rest of the data page by page |
| `DfuRoundTrip.DownloadInstalls` | Firmware/LUFA/Bootloaders/DFU/BootloaderDFU.c:310-383 | A download at a page-aligned start leaves exactly the data, a blank tail of its last page and every other page as it was, whatever the flash and its buffer held |
| `DfuRoundTrip.UploadReads` | Firmware/LUFA/Bootloaders/DFU/BootloaderDFU.c:443-484 | The read command and an upload return the bytes of the range |
| `DfuRoundTrip.DownloadUpload` | Firmware/LUFA/Bootloaders/DFU/BootloaderDFU.c:310-484 | Download, read command, upload: the host gets back exactly the data, with no stall |
| `DfuPages.Selects` | Firmware/LUFA/Bootloaders/DFU/BootloaderDFU.c:646-648 | The page command selects its page and records itself; nothing else changes, except that an open download is ended |
| `DfuPages.SelectedDownload` | Firmware/LUFA/Bootloaders/DFU/BootloaderDFU.c:310-383 | Select and download: the data lie at the selected page and the start address, whatever page was selected before |
| `DfuPages.SelectedRoundTrip` | Firmware/LUFA/Bootloaders/DFU/BootloaderDFU.c:310-484 | Select, download, read command, upload: the host gets back exactly the data, for every range of the application section |
| `DfuEeprom.AlignmentLeavesOne` | Firmware/LUFA/Bootloaders/DFU/BootloaderDFU.c:583-603 | Discarding the alignment filler leaves its last byte in front of the data, because the iteration that fetches the packet discards nothing |
| `DfuEeprom.BytesArrive` | Firmware/LUFA/Bootloaders/DFU/BootloaderDFU.c:386-405 | The byte loop writes the next bytes of the stream and nothing else |
| `DfuEeprom.EepromDownload` | Firmware/LUFA/Bootloaders/DFU/BootloaderDFU.c:318-405 | For every start address, what an EEPROM download writes: the data at a multiple of 32, the data one place late otherwise |
| `DfuEeprom.EepromDownloadUpload` | Firmware/LUFA/Bootloaders/DFU/BootloaderDFU.c:318-509 | For every start address, what the host reads back |
| `DfuEeprom.EepromUploadWraps` | Firmware/LUFA/Bootloaders/DFU/BootloaderDFU.c:485-505 | EEPROM addresses wrap at 64 KB, also in the middle of a range |
| `DfuEeprom.EepromRoundTripIff` | Firmware/LUFA/Bootloaders/DFU/BootloaderDFU.c:318-509 | The host gets its data back if and only if the start is a multiple of 32 or every byte of the data equals the last filler byte |
| `DfuEeprom.UnalignedByteLost` | Firmware/LUFA/Bootloaders/DFU/BootloaderDFU.c:318-319 | One byte written to address 1 reads back as the filler byte |
| `DfuIdentity.Identification` | Firmware/LUFA/Bootloaders/DFU/BootloaderDFU.c:801-844 | The identification bytes that a read and an upload return, for every table and index, and the error for a bad one |
| `DfuIdentity.StateNumbers` | Firmware/LUFA/Bootloaders/DFU/BootloaderDFU.c:517-566 | The number that each state is reported as |
| `DfuIdentity.StatusNumbers` | Firmware/LUFA/Bootloaders/DFU/BootloaderDFU.c:609-844 | The status number of each way to fail |
| `DfuStart.WatchdogStart` | Firmware/LUFA/Bootloaders/DFU/BootloaderDFU.c:747-786 | A start by watchdog over its two requests: the key is set, no exit is pending, all else is as before |
| `DfuStart.JumpAddressIff` | Firmware/LUFA/Bootloaders/DFU/BootloaderDFU.c:755-768 | A start by jump loads its address if and only if the request behind it carries data |
| `DfuStart.UnknownIgnored` | Firmware/LUFA/Bootloaders/DFU/BootloaderDFU.c:609-652 | A command that the loader does not know is only recorded |
| `DfuStart.UploadOutside` | Firmware/LUFA/Bootloaders/DFU/BootloaderDFU.c:427-441 | What an upload returns outside a transfer |
| `DfuStart.UploadEnds` | Firmware/LUFA/Bootloaders/DFU/BootloaderDFU.c:442-511 | An upload ends the transfer, and returns nothing of a memory that does not exist |
| `DfuStart.PageUnseen` | Firmware/LUFA/Bootloaders/DFU/BootloaderDFU.c:471-476 | On parts of at most 64 KB the page does not matter for reading |
| `DfuStart.AbortAndClear` | Firmware/LUFA/Bootloaders/DFU/BootloaderDFU.c:543-574 | Abort leaves the status and CLRSTATUS leaves the state |
| `DfuStart.CutShort` | Firmware/LUFA/Bootloaders/DFU/BootloaderDFU.c:342-353 | A download whose data end early is never complete |
| `DfuExit.ExitsIff` | Firmware/LUFA/Bootloaders/DFU/BootloaderDFU.c:747-786 | The exit flag drops in exactly those requests that process a start by jump without data while the reset vector is blank |
| `DfuExit.ApplicationNotStarted` | Firmware/LUFA/Bootloaders/DFU/BootloaderDFU.c:779-784 | The start request by jump ends the loader if and only if there is no application |
| `DfuExit.ErrorIff` | Firmware/LUFA/Bootloaders/DFU/BootloaderDFU.c:609-844 | For every request, download requests with their pending and own commands included: when it raises an error, leaves one, or keeps the state |
| `DfuExit.ErrorOverRuns` | Firmware/LUFA/Bootloaders/DFU/BootloaderDFU.c:253-576 | Over every sequence of requests, the device ends in the error state if and only if the last request that decides it raised an error, or none did and it began in one |
| `DfuExit.OnlyAbortLeavesError` | Firmware/LUFA/Bootloaders/DFU/BootloaderDFU.c:517-574 | In particular, among requests that are no downloads only an abort leaves an error |
| `DfuExit.ClearedButInError` | Firmware/LUFA/Bootloaders/DFU/BootloaderDFU.c:543-550 | After an error, CLRSTATUS makes the status good while the state still says error |
| `DfuLoader.Loader.DiscardFillerBytes` | Firmware/LUFA/Bootloaders/DFU/BootloaderDFU.c:583-603 | The discarding loop on the endpoint takes the step of the specification |
| `DfuLoader.Loader.EraseApplication` | Firmware/LUFA/Bootloaders/DFU/BootloaderDFU.c:789-791 | The erase loop is the erase of the specification |
| `DfuLoader.Loader.FindNonBlank` | Firmware/LUFA/Bootloaders/DFU/BootloaderDFU.c:717-740 | The search loop returns the least non-blank address |
| `DfuLoader.Loader.ProgramFlash` | Firmware/LUFA/Bootloaders/DFU/BootloaderDFU.c:330-380 | The word loop on endpoint and flash takes the step of the specification |
| `DfuLoader.Loader.ProgramEeprom` | Firmware/LUFA/Bootloaders/DFU/BootloaderDFU.c:385-405 | The byte loop takes the step of the specification |
| `DfuLoader.Loader.LoadStartEndAddresses` | Firmware/LUFA/Bootloaders/DFU/BootloaderDFU.c:657-669 | Both addresses are read big-endian from the command |
| `DfuLoader.Loader.ProcessMemProg` | Firmware/LUFA/Bootloaders/DFU/BootloaderDFU.c:674-698 | The programming command takes the step of the specification |
| `DfuLoader.Loader.ProcessMemRead` | Firmware/LUFA/Bootloaders/DFU/BootloaderDFU.c:704-742 | The reading and blank-check command takes the step of the specification |
| `DfuLoader.Loader.ProcessWrite` | Firmware/LUFA/Bootloaders/DFU/BootloaderDFU.c:747-796 | The start and erase command takes the step of the specification |
| `DfuLoader.Loader.ProcessRead` | Firmware/LUFA/Bootloaders/DFU/BootloaderDFU.c:801-844 | The identification command takes the step of the specification |
| `DfuLoader.Loader.ProcessBootloaderCommand` | Firmware/LUFA/Bootloaders/DFU/BootloaderDFU.c:609-652 | The dispatcher takes the step of the specification and stalls exactly what secure mode forbids |
| `DfuLoader.Loader.LoadCommand` | Firmware/LUFA/Bootloaders/DFU/BootloaderDFU.c:292-304 | The command bytes present replace the old ones, and the endpoint stands behind them |
| `DfuLoader.Loader.Download` | Firmware/LUFA/Bootloaders/DFU/BootloaderDFU.c:316-409 | The data stage takes the step of the specification |
| `DfuLoader.Loader.Dnload` | Firmware/LUFA/Bootloaders/DFU/BootloaderDFU.c:270-417 | The download request takes the step of the specification |
| `DfuLoader.Loader.Upload` | Firmware/LUFA/Bootloaders/DFU/BootloaderDFU.c:418-516 | The upload request takes the step and sends the answer of the specification |
| `DfuLoader.Loader.ControlRequest` | Firmware/LUFA/Bootloaders/DFU/BootloaderDFU.c:253-576 | Every request takes the step and gives the answer of the specification |
| `Avr109.SetAddressTo` | Firmware/LUFA/Bootloaders/CDC/BootloaderCDC.c:475-483 | Every even byte address below 128 KB is reached by its word address |
| `Avr109.UnknownMemory` | Firmware/LUFA/Bootloaders/CDC/BootloaderCDC.c:291-297 | A memory type that does not exist is answered with a question mark and changes nothing; a write is confirmed with a carriage return |
| `Avr109.OddBlocks` | Firmware/LUFA/Bootloaders/CDC/BootloaderCDC.c:299-352 | The last byte of an odd flash block is dropped on writing, and does not move the address on reading |
| `Avr109.EepromWraps` | Firmware/LUFA/Bootloaders/CDC/BootloaderCDC.c:321 | EEPROM addresses wrap at 64 KB |
| `Avr109.FillWordsFills` | Firmware/LUFA/Bootloaders/CDC/BootloaderCDC.c:335-352 | The words of a block fill the page in order |
| `Avr109.FlashBlockRoundTrip` | Firmware/LUFA/Bootloaders/CDC/BootloaderCDC.c:276-374 | For every page address and even size up to a page, block write, set address and block read return the bytes; the page holds them blank-padded and the address advances by the size |
| `Avr109.EepromBlockRoundTrip` | Firmware/LUFA/Bootloaders/CDC/BootloaderCDC.c:276-374 | For every range inside the EEPROM the same, the address advancing by two per byte and every other byte unchanged |
| `Avr109Loader.Loader.SetCurrentAddress` | Firmware/LUFA/Bootloaders/CDC/BootloaderCDC.c:475-483 | The big-endian word address becomes the byte address |
| `Avr109Loader.Loader.ReadFlashBlock` | Firmware/LUFA/Bootloaders/CDC/BootloaderCDC.c:301-317 | The high/low loop returns the bytes in address order |
| `Avr109Loader.Loader.ReadEepromBlock` | Firmware/LUFA/Bootloaders/CDC/BootloaderCDC.c:318-326 | The loop returns consecutive EEPROM bytes |
| `Avr109Loader.Loader.WriteFlashBlock` | Firmware/LUFA/Bootloaders/CDC/BootloaderCDC.c:330-368 | Erase, word loop and page write take the step of the specification |
| `Avr109Loader.Loader.WriteEepromBlock` | Firmware/LUFA/Bootloaders/CDC/BootloaderCDC.c:354-361 | The byte loop takes the step of the specification |
| `Avr109Loader.Loader.BlockRead` | Firmware/LUFA/Bootloaders/CDC/BootloaderCDC.c:276-327 | An unknown memory type is answered with an error and changes nothing; a read takes the step of the specification |
| `Avr109Loader.Loader.BlockWrite` | Firmware/LUFA/Bootloaders/CDC/BootloaderCDC.c:276-374 | The same for a write, confirmed with a carriage return |

## Left out

- Hardware registers, LEDs, clocks, USB descriptors and endpoint internals; class requests are atomic steps.
- Tearing of the report copy: the receive interrupt is enabled again before the report is copied
  (`Firmware/Joystick.c:357`), and the model makes callback and copy one step.
- Response.ReplyWellFormed: flash reads above 44 bytes are excluded (`FitsPacket`), because the source copies such a
  reply past the end of its 64-byte buffer, where C defines no behaviour to model. The payload byte of the pairing reply,
  read at a constant address (`Firmware/Response.c:56`), is the parameter `lowMemory`.
- Response.SubcommandEchoed: flash reads above 44 bytes are excluded, as above.
- ResponseManager.Manager.PrepareSpiReply: flash reads above 44 bytes are excluded, as above.
- ResponseManager.Manager.ProcessOut: flash reads above 44 bytes are excluded, as above.
- Joystick.Uart.ReadUntilQuiet: the quiet window and the deadline are not modelled; the line is quiet when no more bytes
  come, on a lossless line on which only the device speaks.
- Joystick.Uart.ReadExpected: the timeout is that no more bytes come, as above.
- Joystick.Uart.Synchronise: the timeouts are that no more bytes come, as above.
- Report.AxisMonotone: axes are exact reals, not floating point.
- Socket.ExpiryUnobservable: the clock is a parameter that never decreases; events arrive with their command names
  already resolved, so JSON decoding and the name tables are not modelled.
- PadSocket.Pad.BuildPacket: no event is applied by another thread between the questions for one packet.
- Framing.HandleClient: UTF-8 decoding and stripping of a line are not modelled, nor the counting of peers.
- Flash.WriteCommits: page sizes are 128 and 256 bytes, those of the supported parts, and masks by them are remainders;
  with larger pages the 8-bit word counter at `Firmware/LUFA/Bootloaders/DFU/BootloaderDFU.c:340` could not count a page.
  Filling a buffer word twice overwrites it, and reads beyond the memory give 0xFF.
- HexRoundTrip.RoundTripIff: records have even sizes, start at address 0 and are contiguous; images above 64 KB need
  extended address records, whose base is right only as far as `HexBase.BaseRightIff` says.
- PrinterLoader.Loader.ParseStream: a block is parsed to its end even when the loader has already decided to exit, as
  in the source; blocks received after that are outside the model.
- DfuRoundTrip.DownloadUpload: flash downloads start at a page and have an even length; an unaligned start is described
  for the EEPROM only. Lengths go up to the 65534 bytes that the address arithmetic allows; with the 48 bytes of command,
  filler and suffix, the 16-bit wLength of one request holds at most 65486 of them.
- Dfu.FirstNonBlank: addresses are unbounded where the source has 32 bits, which no part reaches.
- A host that disappears in the middle of a transfer is a payload that ends early, and reading an exhausted endpoint
  gives zeros.
- Avr109.FlashBlockRoundTrip: the remaining AVR109 commands (fuses, lock bits, chip erase, single words) are thin.
- The bridge's main loop, its reconnection and focus handling, the keyboard and SDL backends, and the socket triggers,
  which packets never read.
- The GUI, the Playnite scripts and the Discord bot: user interface, process control and network clients.
- The mass-storage and HID boot loaders and the other LUFA projects.
