# Proofs about the embedded support code: 64-bit arithmetic, RTT, SystemView, XBee

The C repository is firmware support code for a small microcontroller. Seven of its
modules hold nearly all of its logic. Each is modelled here in the form it has in C
(classes with in-place methods where the C code updates structures, loops where it
loops, constant tables where it has tables), and each method is proved against a
specification whose own properties are proved as lemmas.

| file | modules | what it is about |
|---|---|---|
| `Words.dfy` | `Words` | 8-, 16- and 32-bit words as integers with every wrap-around written out; shifts, AND, OR |
| `JsLong.dfy`, `JsDivision.dfy`, `JsSigned.dfy`, `JsDecimal.dfy` | same names | 64-bit arithmetic on two 32-bit words: product, schoolbook division with normalisation and digit correction, signed wrappers, decimal printing |
| `Rings.dfy` | `Rings` | a ring of bytes between two offsets, for RTT and for the circular buffer |
| `RttRing.dfy` | `RttContents`, `RttRing` | the RTT ring buffers: one target writing, a host that reads between any two of its steps; and the other direction |
| `RttTerminal.dfy` | `RttDemux`, `RttTerminal` | sixteen terminals multiplexed over channel 0 |
| `SysView.dfy` | `SysViewFormat`, `SysViewRuns`, `SysViewRecorder` | the SystemView event stream: packets built in place, delta time stamps, the off / on / dropping state |
| `XbeeFrame.dfy` | `XbeeProtocol`, `XbeeDevice` | XBee API frames: a writer with a checksum, and a resumable loader that resynchronises on 0x7E |
| `Crc16.dfy` | `CrcPolynomial`, `CrcErrors`, `Crc16` | the table-driven CRC-16 against polynomial division, and the errors it finds |
| `AtTable.dfy` | `AtSlots`, `AtRuns`, `AtTable` | the table of outstanding AT requests, its handles, responses and expiry |
| `Cbuf.dfy` | `CbufContents`, `CbufQueue`, `CbufBuffer` | the power-of-two circular buffer |

`dafny verify dfyconfig.toml` checks all of it.

## How the system is modelled

* **Words.** Machine integers are subset types of `int`; additions, subtractions,
  products and left shifts that can wrap are written with `% 2^32`. The CRC uses bit vectors.
* **Concurrency.** The RTT host is a second process that moves the read offset. It acts at
  `HostReads` points, which stand before every access the target makes, between the single
  bytes of a `memcpy` included; it may take any number of unread bytes each time. On the
  ring the target reads, the host is the writer, and `HostWrites` points stand in the same
  places. A ghost history `accepted` / `taken` says what went in and what came out.
* **Choices of the environment.** Short serial reads and free transmit space are arbitrary.
  SystemView's clock readings, the ring's answers to its packets and what it finds on the down
  channel are arbitrary sequences, taken one by one, so that a history can be held against
  them. Answers of AT callbacks, and what the seconds timer and its time-out macros say, are
  parameters.
* **Parameters.** Sizes that live in headers outside the repository (frame length limit,
  dispatch cap, table size, time-outs, SystemView event ids other than 1) are parameters.
* **History.** SystemView's recorder and the AT table carry a ghost history. A property of
  every reachable state is a predicate on fields and history that the constructor
  establishes and every method keeps, plus lemmas about all histories that satisfy it.

## Where the code does not do what it promises

Each of these is proved as an exact condition: the member named says when the promise
holds, and when not.

* `jsll_udivmod` returns the dividend as remainder when the divisor's top bit is set and the
  dividend is not smaller (lines 279-291): `JsDivision.RemainderExact`. The quotient is right
  for every input. Through it `jsll_mod` is wrong only for MIN mod MIN: `JsSigned.Mod`.
  `jsll_div` is wrong only for MIN / -1: `JsSigned.Div`.
* `jsll_decstr` returns a length that leaves out the minus sign, so it is the length of what was
  written exactly for values from 0 on: `JsDecimal.Decstr`.
* An overwriting RTT write restarts one slot short of the end (line 734), so it keeps the newest
  bytes exactly when its length plus the write offset is below twice the size less one, and the
  sum that moves the read offset does not wrap: `RttContents.OverwriteExact`.
* Text for a terminal is not searched for 0xFF; it arrives whole exactly if there is none in it:
  `RttDemux.PlainExact`.
* `xbee_frame_write` sends payloads that the loader rejects: of one byte (lines 551 and 729), too
  long, or with a length whose first byte is a start marker: `XbeeProtocol.FrameAccepted`.
* `_EncodeStr` promises no more than `Limit + 1` bytes; with 255 or more characters it can take
  two more, and lengths keep sixteen bits: `SysViewFormat.StrLimit`, `SysViewFormat.StrRoundTrip`.
* A SystemView packet that is disabled is counted as dropped exactly if the recorder is dropping
  and the ring refuses the overflow packet: `SysViewRecorder.DisabledLost`, and
  `SysViewRecorder.DisabledLostWitness` for a history in which it happens.
* `xbee_cmd_create` documents handles above 0. A handle is 0 exactly in the first slot after 0,
  256, ... releases: `AtTable.Table.Create`; the first of all is: `AtTable.FirstHandle`.
* A handle is looked up without asking for its request (lines 182-199). It names a slot that does
  not hold its request exactly after 256 releases of the slot or a further multiple, and whether
  that slot is then free is said too: `AtSlots.HandleMisleads`; `AtTable.HandleComesBack` gets there.
* `xbee_cbuf_put` and `xbee_cbuf_get` leave an index at `mask + 1` after an exact fit. The bulk
  operations live with that; `xbee_cbuf_putch` and `xbee_cbuf_getch` do not:
  `CbufContents.PutchExact`, `CbufContents.GetchExact`, and the inputs of
  `CbufContents.ExactFitBreaksPutch` and `CbufContents.ExactFitBreaksGetch`.

## Model

| member | source | states |
|---|---|---|
| JsLong.Mul32Wide | XBee/jslong.c:85-103 | the four half-word products, with the carry found by comparing, are the exact 64-bit product of two words |
| JsLong.Mul | XBee/jslong.c:77-81 | the product modulo 2^64 |
| JsDivision.HalfDigitEstimate | XBee/jslong.c:110-142 | a half-digit estimate is at most 2^16 + 1, its product with the low half does not wrap, and it is off by at most two |
| JsDivision.Corrections | XBee/jslong.c:110-142 | both corrections with wrapped additions end on the true remainder |
| JsDivision.HalfDigit | XBee/jslong.c:110-142 | one half-digit: quotient below 2^16 and remainder below the divisor, exactly |
| JsDivision.NormUdivmod32 | XBee/jslong.c:110-142 | exact quotient and remainder for every divisor from 2^31 and every dividend whose high word is below it |
| JsDivision.CountLeadingZeros | XBee/jslong.c:147-165 | 32 exactly for zero; else the shift that brings the top set bit to bit 31 |
| JsDivision.UdivmodByWord | XBee/jslong.c:179-247 | one-word divisor: exact quotient and remainder |
| JsDivision.OneCorrection | XBee/jslong.c:292-323 | in the two-word case the estimate times the low word never exceeds the divisor, shift 31 included, so one decrement is enough |
| JsDivision.CorrectedDigit | XBee/jslong.c:292-323 | the digit corrected at most once, with `m - b` wrapping below zero, is exact |
| JsDivision.UdivmodByDouble | XBee/jslong.c:260-325 | two-word divisor: exact quotient, and what is left as remainder in every branch |
| JsDivision.Udivmod | XBee/jslong.c:170-332 | quotient a / b for every a and nonzero b; the remainder is a mod b, or the dividend itself in the branch that forgets to subtract |
| JsDivision.RemainderExact | XBee/jslong.c:279-291 | that remainder is a mod b if and only if not (b.hi >= 2^31 and a >= b) |
| JsSigned.TruncDivMod | XBee/jslong.c:336-387 | truncated quotient and remainder recompose the dividend, the remainder is smaller than the divisor and has the dividend's sign |
| JsSigned.Magnitude | XBee/jslong.c:336-387 | negating a negative word gives its magnitude, MIN included |
| JsSigned.Div | XBee/jslong.c:336-361 | truncated quotient, right if and only if not MIN / -1, which wraps |
| JsSigned.Mod | XBee/jslong.c:365-387 | truncated remainder, right if and only if not MIN mod MIN |
| JsDecimal.NumeralUnique | XBee/jslong.c:474-514 | a string is the numeral of n if and only if it is digits only, has no leading zero and reads back as n |
| JsDecimal.TwentyDigits | XBee/jslong.c:474-514 | no 64-bit value needs more than twenty digits |
| JsDecimal.StoreDigits | XBee/jslong.c:474-514 | the inner loop moves up to four digits from the remainder into `temp`, four when more follow, and loses none |
| JsDecimal.Udecstr | XBee/jslong.c:474-514 | writes the canonical numeral of every value and a NUL, and returns its length |
| JsDecimal.Decstr | XBee/jslong.c:454-466 | writes the signed numeral of every value from -2^63 on; the length leaves out the sign, so it is that of the text if and only if the value is not negative |
| JsDecimal.SignedNumeralReads | XBee/jslong.c:454-466 | a minus sign exactly for negative values, then the canonical numeral of the magnitude |
| JsDecimal.TenDigits | XBee/jslong.c:474-514 | the digits are the characters 0 to 9 in order |
| JsDecimal.SignedNumeralInjective | XBee/jslong.c:454-466 | two different values never print alike |
| RttContents.StoredAppends | SystemView/SEGGER_RTT.c:411-460 | bytes stored at the write offset within the free room, wrapped or not, extend the unread contents by exactly those bytes |
| RttContents.TwoReads | SystemView/SEGGER_RTT.c:538-610 | the two parts of a read together take the oldest bytes, the case where `WrOff - RdOff` underflows included |
| RttContents.KeepsNewestShort | SystemView/SEGGER_RTT.c:667-737 | overwriting with less than the ring's size leaves the newest `SizeOfBuffer - 1` bytes of old contents and new data |
| RttContents.OverwriteExact | SystemView/SEGGER_RTT.c:667-737 | it does so for all data of a length if and only if length + write offset < 2 * size - 1 and the sum for the read offset keeps to 32 bits; for all lengths below a size of at most 2^31 |
| RttContents.WrappedSum | SystemView/SEGGER_RTT.c:692-697 | when that sum wraps around, no data of that length survives whole |
| RttRing.Ring.constructor | SystemView/SEGGER_RTT.c:303-308 | an empty ring with one slot less room than it has bytes |
| RttRing.Ring.HostReads | SystemView/SEGGER_RTT.c:347-391 | the host takes any number of unread bytes, and nothing else changes |
| RttRing.Ring.HostTakes | SystemView/SEGGER_RTT.c:347-391 | the host takes any given number of the oldest unread bytes and leaves the rest |
| RttRing.Ring.GetAvailWriteSpace | SystemView/SEGGER_RTT.c:497-513 | the room when the read offset was read, which stays a lower bound while the host reads |
| RttRing.Ring.WriteBlocking | SystemView/SEGGER_RTT.c:347-391 | under any host reads what was accepted grows by a prefix of the data, by all of it when done; done without host progress if there was room, and in a turn for each byte if the host never leaves the ring full |
| RttRing.Ring.WriteNoCheck | SystemView/SEGGER_RTT.c:411-460 | all data goes in, at the write offset and wrapping, and no unread byte is touched |
| RttRing.Ring.WriteSkipNoLock | SystemView/SEGGER_RTT.c:763-882 | accepts if and only if there was room, and then leaves the same bytes and offset as `_WriteNoCheck`; else nothing changes |
| RttRing.Ring.WriteNoLock | SystemView/SEGGER_RTT.c:907-957 | all or nothing, as much as fits, or everything, as the buffer's mode says |
| RttRing.Ring.WriteWithOverwriteNoLock | SystemView/SEGGER_RTT.c:667-737 | buffer and offsets are those of the specification, and within the exact bound the ring holds the newest bytes |
| RttRing.Ring.PushReadOffset | SystemView/SEGGER_RTT.c:685-697 | the read offset moves ahead of the bytes about to be lost, by a sum of 32 bits |
| RttRing.Ring.StoreRounds | SystemView/SEGGER_RTT.c:698-736 | the rounds of the loop, one by one, for data of any length |
| RttRing.Ring.HostWrites | SystemView/SEGGER_RTT.c:538-610 | on the ring it fills the host changes free slots only and adds to the unread bytes |
| RttRing.Ring.ReadNoLock | SystemView/SEGGER_RTT.c:538-610 | while the host goes on writing, takes the min(BufferSize, used) oldest of the bytes there were when the write offset was read, leaves the rest, and the other bytes of the destination |
| RttDemux.DemuxAppend | SystemView/SEGGER_RTT.c:1680-1753 | a stream may be demultiplexed piece by piece |
| RttDemux.DemuxPlain | SystemView/SEGGER_RTT.c:1680-1753 | text without 0xFF goes to the selected terminal, whole |
| RttDemux.PlainExact | SystemView/SEGGER_RTT.c:1680-1753 | text arrives whole if and only if it has no 0xFF in it |
| RttDemux.DemuxPart | SystemView/SEGGER_RTT.c:1680-1753 | a host that has taken part of a stream shows a beginning of every terminal's text |
| RttDemux.DemuxSwitch | SystemView/SEGGER_RTT.c:475-481 | 0xFF and an id select that terminal and nothing else |
| RttDemux.SwitchBytes | SystemView/SEGGER_RTT.c:255-255 | a switch is 0xFF and one of the sixteen characters 0 to 9 and A to F |
| RttDemux.DemuxExcursion | SystemView/SEGGER_RTT.c:1680-1753 | FF, id, text, FF, active adds the text to its terminal and returns to the active one |
| RttTerminal.Channel.SetTerminal | SystemView/SEGGER_RTT.c:1630-1661 | result, active terminal and stream in every mode and for every id; the stream still demultiplexes to what was given |
| RttTerminal.Channel.TerminalOut | SystemView/SEGGER_RTT.c:1680-1753 | for any text, status and bytes in each mode: in skip mode the whole excursion or nothing, in trim mode min(length, room - 4) bytes of text between the switches, in blocking mode all of it; it ends without the host outside blocking mode, and in it for a host that reads; with plain text the stream still demultiplexes |
| RttTerminal.Channel.Write | SystemView/SEGGER_RTT.c:907-957 | for any text: all or nothing, as much as there is room for, or everything, as the mode says; it belongs to the active terminal if the text is plain |
| RttTerminal.Channel.History | SystemView/SEGGER_RTT.c:1630-1753 | over any history of calls and host reads mode and room decide each outcome, each terminal gets exactly its accepted text, the last selected terminal is `_ActiveTerminal`, and the host shows a beginning of each text |
| RttTerminal.ReplaySnoc | SystemView/SEGGER_RTT.c:1630-1753 | the meaning of a history extends call by call |
| SysViewFormat.LebRoundTrip | SystemView/SEGGER_SYSVIEW.c:312-323 | a variable-length number is read back whatever follows it |
| SysViewFormat.U32Length | SystemView/SEGGER_SYSVIEW.c:312-323 | a U32 takes at most five bytes |
| SysViewFormat.LebExample | SystemView/SEGGER_SYSVIEW.c:312-323 | low groups of seven bits come first |
| SysViewFormat.OverflowExample | SystemView/SEGGER_SYSVIEW.c:523-527 | the packet bytes the source gives as an example |
| SysViewFormat.SyncIs | SystemView/SEGGER_SYSVIEW.c:269-269 | a sync is ten zero bytes |
| SysViewFormat.LongExample | SystemView/SEGGER_SYSVIEW.c:77-88 | id, length, data and time stamp of a packet with a length |
| SysViewFormat.ShortIsLeb | SystemView/SEGGER_SYSVIEW.c:685-699 | the hand-written header numbers below 2^14 are variable-length numbers of at most two bytes |
| SysViewFormat.ShortExact | SystemView/SEGGER_SYSVIEW.c:685-699 | a header number is read back, using just its own bytes, if and only if it is below 2^14 |
| SysViewFormat.ValuesRoundTrip | SystemView/SEGGER_SYSVIEW.c:1767-1770 | a payload of numbers and strings of known kinds is read back, using just its own bytes, if and only if no string reaches 2^16 characters |
| SysViewFormat.ValuesReadable | SystemView/SEGGER_SYSVIEW.c:77-88 | every such payload under an id below 24 with these kinds can be read without a length |
| SysViewFormat.PacketRoundTrip | SystemView/SEGGER_SYSVIEW.c:675-708 | every packet of known structure or with a length decodes back and leaves exactly the rest of the stream |
| SysViewFormat.StreamRoundTrip | SystemView/SEGGER_SYSVIEW.c:636-760 | a stream of sync bytes and readable packets decodes to exactly those packets in order |
| SysViewFormat.StrRoundTrip | SystemView/SEGGER_SYSVIEW.c:400-432 | a string is read back if and only if its length is below 2^16 |
| SysViewFormat.StrLimit | SystemView/SEGGER_SYSVIEW.c:400-432 | exactly when an encoded string takes no more than `Limit + 1` bytes |
| SysViewFormat.StrExample | SystemView/SEGGER_SYSVIEW.c:414-423 | short counts take one byte, longer ones 255 and two bytes, the low one first |
| SysViewRuns.ClocksRecovered | SystemView/SEGGER_SYSVIEW.c:700-724 | in every history, adding deltas to the start time modulo 2^32 gives each stored packet's own clock reading |
| SysViewRuns.HostClocksAre | SystemView/SEGGER_SYSVIEW.c:700-724 | the k-th of these is the start time plus the sum of the first deltas modulo 2^32 |
| SysViewRuns.HostReadsTheRun | SystemView/SEGGER_SYSVIEW.c:636-760 | the bytes and the start time alone give the host every stored packet and its clock |
| SysViewRuns.RingAnswers | SystemView/SEGGER_SYSVIEW.c:553-560 | in every history the k-th packet or sync offered to the ring has the ring's k-th answer |
| SysViewRuns.ReadForIt | SystemView/SEGGER_SYSVIEW.c:705-707 | every packet is stored with the clock as it was read for it, one reading a packet |
| SysViewRuns.StaysDropping | SystemView/SEGGER_SYSVIEW.c:664-668 | after a refusal the recorder keeps dropping until it stores something or is stopped |
| SysViewRuns.OverflowComesFirst | SystemView/SEGGER_SYSVIEW.c:534-563 | the first packet stored after a refusal is an overflow packet carrying the calls lost by then less the droppings begun |
| SysViewRuns.LossesCounted | SystemView/SEGGER_SYSVIEW.c:534-563 | losses and droppings of the state machine are those counted in the history |
| SysViewRuns.LossesBalanced | SystemView/SEGGER_SYSVIEW.c:534-563 | calls lost = growth of DropCount + droppings begun, modulo 2^32 |
| SysViewRecorder.EncodeU32 | SystemView/SEGGER_SYSVIEW.c:312-323 | writes the variable-length number in place, at most five bytes, touching no other byte |
| SysViewRecorder.EncodeStr | SystemView/SEGGER_SYSVIEW.c:400-432 | writes count and text, cut at the limit, touching no other byte |
| SysViewRecorder.PrependHeader | SystemView/SEGGER_SYSVIEW.c:680-699 | the header written backwards stays within the four reserved bytes |
| SysViewRecorder.BuildOverflow | SystemView/SEGGER_SYSVIEW.c:534-563 | an overflow packet fits eleven bytes |
| SysViewRecorder.BuildPacket | SystemView/SEGGER_SYSVIEW.c:675-708 | header, payload and delta end up as one packet in place |
| SysViewRecorder.MutedExact | SystemView/SEGGER_SYSVIEW.c:675-679 | an event is disabled if and only if it is below 32 and its bit is set |
| SysViewRecorder.OutcomeIs | SystemView/SEGGER_SYSVIEW.c:636-724 | what becomes of one packet in each state, for each answer of the ring and each clock reading |
| SysViewRecorder.Recorder.constructor | SystemView/SEGGER_SYSVIEW.c:1238-1279 | off, nothing sent, clock at initialisation |
| SysViewRecorder.Recorder.TrySendOverflowPacket | SystemView/SEGGER_SYSVIEW.c:534-563 | stored: the overflow packet with the count so far, and on; refused: one more dropped, and dropping; the status says which |
| SysViewRecorder.Recorder.Store | SystemView/SEGGER_SYSVIEW.c:675-724 | a packet that is not disabled is stored with its id and payload, or lost |
| SysViewRecorder.LostExact | SystemView/SEGGER_SYSVIEW.c:656-724 | a call counts as lost if and only if the ring refused one of its packets |
| SysViewRecorder.DisabledLost | SystemView/SEGGER_SYSVIEW.c:664-679 | a disabled packet counts as lost if and only if the recorder is dropping and the ring refuses the overflow packet |
| SysViewRecorder.DisabledLostWitness | SystemView/SEGGER_SYSVIEW.c:664-679 | a history in which that happens |
| SysViewRecorder.Recorder.Transmit | SystemView/SEGGER_SYSVIEW.c:636-724 | what the ring was asked and said, and exactly what that adds to the history, in each of the three states |
| SysViewRecorder.Recorder.SendPacket | SystemView/SEGGER_SYSVIEW.c:636-760 | events and answers case by case: off, disabled, stored or lost, overflow packet first when dropping; then one host command, start or stop taking effect, none while one is being handled |
| SysViewRecorder.Recorder.HandleIncomingPacket | SystemView/SEGGER_SYSVIEW.c:469-511 | a start leaves the recorder on, a stop leaves it off, any other command leaves that as it was; all keep the invariant and end |
| SysViewRecorder.Recorder.Record | SystemView/SEGGER_SYSVIEW.c:1306-1312 | a packet from a buffer of its own has the outcome of `_SendPacket` with that payload |
| SysViewRecorder.Recorder.RecordU32x4 | SystemView/SEGGER_SYSVIEW.c:1401-1413 | the payload is the four fields |
| SysViewRecorder.Recorder.SendSysDesc | SystemView/SEGGER_SYSVIEW.c:1814-1822 | one string, cut at the limit, with the outcome of `_SendPacket`; a host that knows the id as one string reads it |
| SysViewRecorder.Recorder.SendTaskInfo | SystemView/SEGGER_SYSVIEW.c:1762-1780 | two numbers and a name of up to 32 characters, then four numbers, each with the outcome of `_SendPacket` |
| SysViewRecorder.Recorder.Start | SystemView/SEGGER_SYSVIEW.c:1669-1700 | from off: on, the sync bytes offered to the ring, the outcome of the start packet and of the init packet with its four fields; else nothing |
| SysViewRecorder.Recorder.Stop | SystemView/SEGGER_SYSVIEW.c:1715-1724 | the outcome of the stop packet, and off afterwards in every case |
| SysViewRecorder.Recorder.EnableEvents | SystemView/SEGGER_SYSVIEW.c:2830-2832 | clears the disable bits of the mask and no others |
| SysViewRecorder.Recorder.DisableEvents | SystemView/SEGGER_SYSVIEW.c:2844-2846 | sets them |
| SysViewRecorder.StreamTellsTheRun | SystemView/SEGGER_SYSVIEW.c:636-760 | in every reachable state the bytes sent decode to the packets stored and their clocks, strings under ids without a length included, if callers kept to the structures the host knows |
| SysViewRecorder.DropCountTells | SystemView/SEGGER_SYSVIEW.c:534-563 | in every reachable state DropCount is the calls lost less the droppings begun, and the state is one of three |
| SysViewRecorder.RunIsTheRings | SystemView/SEGGER_SYSVIEW.c:636-760 | in every reachable state each offer was answered as the ring answers it and each packet stored has the clock read for it |
| SysViewRecorder.OverflowReadable | SystemView/SEGGER_SYSVIEW.c:534-563 | the host can read overflow packets as one number |
| XbeeProtocol.ParseAppend | XBee/xbee_device.c:639-824 | the receiver's state and output depend on the concatenated bytes only |
| XbeeProtocol.ParseBody | XBee/xbee_device.c:639-824 | a frame body may be collected in chunks of any size |
| XbeeProtocol.ChecksumAppend | XBee/xbee_device.c:433-447 | the checksum of two blocks may be taken one after the other |
| XbeeProtocol.ChecksumSnoc | XBee/xbee_device.c:433-447 | one more byte is subtracted modulo 256 |
| XbeeProtocol.ChecksumCloses | XBee/xbee_device.c:433-447 | payload and checksum sum to zero |
| XbeeProtocol.ChecksumBreaks | XBee/xbee_device.c:433-447 | changing any one byte breaks that |
| XbeeProtocol.ParseFrame | XBee/xbee_device.c:639-824 | an intact frame of acceptable length is dispatched |
| XbeeProtocol.ParseDamaged | XBee/xbee_device.c:639-824 | one with a payload or checksum byte changed is not, and the receiver is back at the start |
| XbeeProtocol.FrameFrom | XBee/xbee_device.c:690-741 | a frame is dispatched from every state in which its marker cannot belong to another frame |
| XbeeProtocol.MarkersBefore | XBee/xbee_device.c:705-714 | however many 0x7E come before a frame, it is dispatched |
| XbeeProtocol.BadLengthBefore | XBee/xbee_device.c:729-741 | a refused length whose second byte is 0x7E costs no frame: that byte starts the next |
| XbeeProtocol.BadHeaderBefore | XBee/xbee_device.c:729-741 | nor does any other refused length |
| XbeeProtocol.FrameExample | XBee/xbee_device.c:590-609 | marker, length with its high byte first, payload, checksum |
| XbeeProtocol.StreamDispatched | XBee/xbee_device.c:639-824 | after junk without 0x7E any list of frames of acceptable length is dispatched exactly and in order, and a damaged one among them takes nothing with it |
| XbeeProtocol.PrefixDispatched | XBee/xbee_device.c:639-824 | part of a stream dispatches a prefix of its payloads |
| XbeeProtocol.ParseInRange | XBee/xbee_device.c:639-824 | only lengths from 2 to the limit are ever received or dispatched, whatever arrives |
| XbeeProtocol.FrameAccepted | XBee/xbee_device.c:551-729 | a frame on an idle line comes out if and only if its payload is 2 to max bytes long, fits the length field and puts no start marker there |
| XbeeDevice.XbeeChecksum | XBee/xbee_device.c:433-447 | the loop computes the initial value less the sum of the bytes modulo 256 |
| XbeeDevice.Device.FrameLoad | XBee/xbee_device.c:639-824 | whatever the reads return and wherever the cap cuts it off, state and output are the parser's on the bytes consumed; only short reads and the cap leave bytes behind |
| XbeeDevice.Device.Tick | XBee/xbee_device.c:322-350 | the same, and nothing at all when called inside itself |
| XbeeDevice.Device.FrameWrite | XBee/xbee_device.c:503-613 | each error case exactly, and otherwise one whole frame appended |
| XbeeDevice.Device.Send | XBee/xbee_device.c:560-613 | header and data with the carried checksum are one frame |
| XbeeDevice.Delivered | XBee/xbee_device.c:639-824 | in every reachable state of a receiver the dispatched payloads are a prefix of those sent, and all of them once all bytes are in |
| XbeeDevice.Resynchronised | XBee/xbee_device.c:705-714 | a receiver sent any number of start markers and then a frame has dispatched it |
| CrcPolynomial.RegisterIsRemainder | XBee/xmodem_crc16.c:95-104 | the byte-wise register computes the remainder of polynomial division by x^16 + x^12 + x^5 + 1, for every message and start value |
| CrcPolynomial.RegisterAppend | XBee/xmodem_crc16.c:95-104 | crc(x + y, s) = crc(y, crc(x, s)) |
| CrcPolynomial.BurstDetected | XBee/xmodem_crc16.c:95-104 | messages that differ only inside two adjacent bytes never have the same CRC |
| CrcPolynomial.TrailerCheck | XBee/xmodem_crc16.c:95-104 | two trailing bytes bring the result to zero if and only if they are the CRC, high byte first |
| CrcErrors.SameCrc | XBee/xmodem_crc16.c:95-104 | two messages of one length have the same CRC if and only if the polynomial of their differing bits is divisible |
| CrcErrors.BurstsDetected | XBee/xmodem_crc16.c:95-104 | damage inside sixteen consecutive bits, at any bit offset, always changes the CRC |
| CrcErrors.OddErrorsDetected | XBee/xmodem_crc16.c:95-104 | every odd number of wrong bits changes the CRC |
| Crc16.TableIsDivision | XBee/xmodem_crc16.c:39-73 | each of the 256 table entries is its index divided eight places |
| Crc16.TableStep | XBee/xmodem_crc16.c:95-104 | one look-up is one byte of the division |
| Crc16.Calc | XBee/xmodem_crc16.c:95-104 | the table-driven loop computes the defined remainder |
| AtSlots.Device.NextFrameId | XBee/xbee_device.c:74-88 | frame ids run from 1 to 255 and start again at 1 |
| AtSlots.IdsCycle | XBee/xbee_device.c:74-88 | a frame id comes back exactly after a multiple of 255 more |
| AtSlots.ResolveIs | XBee/xbee_atcmd.c:182-199 | a handle names the slot in its high byte if and only if its low byte is that slot's sequence number |
| AtSlots.ResolvesExactly | XBee/xbee_atcmd.c:182-199 | in every reachable table a handle resolves to its own slot if and only if that was released a multiple of 256 times since, and to nothing else ever |
| AtSlots.ResolvesUntilReleased | XBee/xbee_atcmd.c:182-199 | so it resolves until released and not again before the 256th release |
| AtSlots.HandleMisleads | XBee/xbee_atcmd.c:182-199 | a handle names a slot that does not hold its request if and only if that was released a positive multiple of 256 times since; it is then free if and only if no request was made in it since |
| AtSlots.HandlesRepeatRarely | XBee/xbee_atcmd.c:880-942 | two requests ever made share a handle if and only if they had the same slot a multiple of 256 releases apart |
| AtSlots.LiveHandlesDistinct | XBee/xbee_atcmd.c:880-942 | no two live requests share a handle, and each handle finds its request |
| AtSlots.MatchFound | XBee/xbee_atcmd.c:1584-1601 | a response finds a request if one matches, and finds the only one that does |
| AtSlots.KeepOnRelease | XBee/xbee_atcmd.c:967-979 | a release keeps slots and history consistent |
| AtSlots.KeepOnCreate | XBee/xbee_atcmd.c:880-942 | a new request in a free slot keeps them consistent |
| AtRuns.SequenceOverRun | XBee/xbee_atcmd.c:967-979 | over any run of calls the sequence number of a slot counts its releases modulo 256 |
| AtRuns.CountedNext | XBee/xbee_atcmd.c:967-979 | releases seen from the sequence numbers are those the counters count, call by call |
| AtRuns.HandleOverRun | XBee/xbee_atcmd.c:182-199 | a handle taken before any run of calls is good after it if and only if its slot was released a multiple of 256 times in between, and else names nothing |
| AtRuns.RequestKept | XBee/xbee_atcmd.c:880-942 | a request whose slot is not released stays live with its device, and its handle finds it |
| AtTable.Table.Perform | XBee/xbee_atcmd.c:93-1698 | every call keeps the invariant, releases each slot at most once, as counted, and takes no live slot for another request without a release; the first create clears the table |
| AtTable.Table.Run | XBee/xbee_atcmd.c:93-1698 | any sequence of calls, times and callback answers from any state is such a run, after the calls before the first create, when no handle is out; the release counters count what the slots show |
| AtTable.Table.constructor | XBee/xbee_atcmd.c:83-83 | an empty table, all zero |
| AtTable.FirstHandle | XBee/xbee_atcmd.c:880-942 | the first handle a table gives out is 0 |
| AtTable.HandleComesBack | XBee/xbee_atcmd.c:182-199 | after 256 requests in one slot its first handle names the free slot, and then the next request |
| AtTable.Table.HandleToAddress | XBee/xbee_atcmd.c:182-199 | the slot a handle names, and what every history says of it |
| AtTable.Table.ReleaseRequest | XBee/xbee_atcmd.c:967-979 | the slot is free, its sequence one on, all others as before |
| AtTable.Table.ReleaseHandle | XBee/xbee_atcmd.c:996-1001 | the same for a good handle; a bad one changes nothing |
| AtTable.Table.SetCommand | XBee/xbee_atcmd.c:1021-1035 | one field of the named slot, or an error and nothing |
| AtTable.Table.SetCallback | XBee/xbee_atcmd.c:1069-1084 | likewise, callback and context |
| AtTable.Table.SetTarget | XBee/xbee_atcmd.c:1127-1155 | likewise, the local module or a remote address |
| AtTable.Table.SetFlags | XBee/xbee_atcmd.c:1211-1224 | likewise, adding flags |
| AtTable.Table.ClearFlags | XBee/xbee_atcmd.c:1245-1258 | likewise, removing flags |
| AtTable.Table.Tick | XBee/xbee_atcmd.c:93-162 | at most once a second: each live request whose time is over is released, its sequence one on, unless a callback keeps it; all else stays; the count, and each callback once in table order with its handle, device, context and command |
| AtTable.Table.Create | XBee/xbee_atcmd.c:880-942 | the first free slot, or in a full table the first a tick gives up, or no request; all fields of the new one; the callbacks of that tick; a handle is above 0 if and only if not (first slot and a multiple of 256 releases) |
| AtTable.Table.Send | XBee/xbee_atcmd.c:1416-1497 | frame id of the request and of the device, frame, result, time-out and release for each answer of the frame writer |
| AtTable.Table.HandleResponse | XBee/xbee_atcmd.c:1517-1698 | the slot answered has the response's device, frame id, command and kind, no earlier one has all four, and if one has, one is answered; it is told under its handle and released, or kept with five seconds more; nothing else changes |
| CbufContents.PutAppends | XBee/xbee_cbuf.c:115-145 | a bulk put within the room appends, from every state, indices at `mask + 1` included |
| CbufContents.DropTakes | XBee/xbee_cbuf.c:149-179 | a bulk get takes the oldest bytes and leaves the rest |
| CbufContents.PutchExact | XBee/xbee_cbuf.c:59-72 | exactly when a single put is the queue's put |
| CbufContents.GetchExact | XBee/xbee_cbuf.c:76-90 | exactly when a single get is the queue's get |
| CbufContents.CharactersInside | XBee/xbee_cbuf.c:59-90 | with both indices inside the buffer both are right and keep them inside |
| CbufContents.ExactFitBreaksPutch | XBee/xbee_cbuf.c:115-179 | a sequence of bulk calls after which a single put loses its byte |
| CbufContents.ExactFitBreaksGetch | XBee/xbee_cbuf.c:115-179 | a sequence of bulk calls after which a single get gives a byte that was never put |
| CbufQueue.FirstInFirstOut | XBee/xbee_cbuf.c:115-179 | over any sequence of calls what came out and what is left is what was there and what was taken in, in order |
| CbufBuffer.Buffer.Run | XBee/xbee_cbuf.c:115-179 | any sequence of bulk calls answers as the queue of capacity `mask` does and holds what it holds |
| CbufBuffer.MaskShape | XBee/xbee_cbuf.c:45-55 | `d & (d + 1)` is zero if and only if d is one below a power of two |
| CbufBuffer.MaskedDistances | XBee/xbee_cbuf.c:94-104 | the masked, possibly wrapped differences are the bytes used and the bytes free |
| CbufBuffer.Buffer.Init | XBee/xbee_cbuf.c:45-55 | accepts a size if and only if it is 3 or more and one below a power of two |
| CbufBuffer.Buffer.GetUsed | XBee/xbee_cbuf.c:94-97 | the number of bytes in the queue |
| CbufBuffer.Buffer.GetFree | XBee/xbee_cbuf.c:101-104 | used + free = mask |
| CbufBuffer.Buffer.Flush | XBee/xbee_cbuf.c:108-111 | the queue is empty |
| CbufBuffer.Buffer.Putch | XBee/xbee_cbuf.c:59-72 | buffer, index and result from every state |
| CbufBuffer.Buffer.Getch | XBee/xbee_cbuf.c:76-90 | index and result from every state |
| CbufBuffer.Buffer.Put | XBee/xbee_cbuf.c:115-145 | as many bytes as fit are appended to the queue |
| CbufBuffer.Buffer.Get | XBee/xbee_cbuf.c:149-179 | as many bytes as there are, up to the length asked for, in order |

## Left out

- RttRing.Ring.WriteBlocking: the loop has a bound `rounds`, and reports being cut off; that the host reads is a hypothesis (`eager`), since nothing on the target can make it.
- RttRing.Ring.WriteWithOverwriteNoLock: the host does not read while it runs; the C code forbids that too, since it moves the read offset itself. On a ring of one byte it never ends with two bytes or more.
- RttTerminal.Channel.TerminalOut: the terminal id is unsigned, as `char` is on this processor.
- RttTerminal.Channel.SetTerminal: its lock, and those of all other locked functions, are left out; one target context writes at a time.
- SysViewRecorder.Recorder.SendPacket: post-mortem mode and time stamps of fewer than 32 bits; commands other than start and stop are any number of packets. Buffers are as long as their packet needs.
- SysViewFormat.PacketRoundTrip: id 0 is excluded, because its header is a sync byte; ids and payload lengths from 2^14 on are excluded, because the header truncates them (`SysViewFormat.ShortExact`).
- SysViewRecorder.Recorder.Start: what the callbacks for the system description, the task list and the system time send is any number of packets of known structure.
- XbeeDevice.Device.FrameLoad: the handlers a frame is dispatched to, null pointers and a serial port that reports errors.
- XbeeProtocol.StreamDispatched: damage to a length byte or a start marker, after which frames are lost until the next marker that fits.
- AtTable.Table.Create: the device is already initialised, so that creating a request does not first query it; a null command.
- AtTable.Table.Tick: the time-out macros are not part of the source, so which time-outs are over is a parameter; refreshing the device's settings once a slot is free; callbacks that themselves call into the table.
- AtTable.Table.Send: parameters and the byte layout of the frame.
- AtTable.Table.HandleResponse: the value of the response, the sender's address and a null frame.
- CbufBuffer.Buffer.Init: a null pointer; with the size 2^32 - 1, which passes, no buffer exists.
- JsDivision.Udivmod: a zero divisor, on which the C code never returns.
- The 64-bit shifts of `XBee/jslong.c` (lines 391-449), which have no carries or corrections.
- RTT buffer set-up, naming and the byte-loop copies used when `memcpy` is switched off.
- SystemView's printf and the remaining Record functions, which differ only in the number of fields.
- Polling sequences, UART and GPIO glue, displays, sensors and everything that only touches registers.
