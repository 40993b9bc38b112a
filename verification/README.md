# Proofs about the radio, display, clock and messaging libraries

A Dafny model of the parts of the bundled Arduino libraries whose behaviour is worth proving, and proofs of what
they do. `dafny verify dfyconfig.toml` checks all of it.

**RH_ASK** (`Crc`, `AskCode`, `AskFramer`, `AskPll`, `AskModem`, `AskDriver`). A software modem in two timer-driven
state machines. The transmitter shifts 6-bit symbols out, eight ticks a bit; the receiver samples the line at every
tick, tracks the bit clock with a ramp of 160 steps, finds a start symbol and decodes bytes. The specification is a
set of functions on values, one tick at a time; the class `RhAsk` performs the same ticks on its fields and buffers.
The main results are `AskModem.EndToEnd` (a message sent is the message received), the acquisition
of lock, and `AskModem.EndToEndAfterSilence` (the same without assuming lock).

**RH_Serial** (`SerialFraming`, `SerialDriver`). A DLE-stuffing printer and a seven-state byte parser that undo each
other over whole streams.

**RHReliableDatagram** (`DatagramNet`, `DatagramNode`). Stop-and-wait with retries and duplicate suppression. The
network model lets any number of nodes send to each other over channels that lose but do not reorder frames, and
calls block and answer in the middle of each other. Sequence numbers are octets on the wire; the model keeps the
unbounded number beside it and asks of every frame processed that the octet does not confuse it with a different
number. `DatagramNet.CloseIsFresh` derives this from fewer than 256 numbers in between, `AckedOnceWhenClose` draws the
consequence for whole runs, and `WrapLosesMessage` shows what happens without it. `DatagramNode` is the code of one node, and its decisions are shown to be those of the network.

**RHRouter, RHMesh** (`RouteTable`, `Router`, `MeshFlood`, `MeshReply`, `MeshNode`). A routing table in an array that
implements a bounded insertion-ordered map, hop-limited forwarding, and route discovery by flooding over an arbitrary
symmetric radio graph, with losses and any order of delivery.

**Adafruit_SSD1306, Adafruit_GFX** (`Words`, `OledPixels`, `OledLines`, `OledDriver`, `GfxLine`, `GfxCircle`,
`DrawLine`). Lines drawn by masked octets against lines drawn pixel by pixel, in the driver's 16-bit arithmetic and all
rotations; Bresenham's lines and midpoint circles against the geometry.

**RTClib** (`Calendar`), **RH_RF22** (`Rf22`, `Rf22Driver`), **Adafruit_MQTT** (`Mqtt`, `MqttClient`). Date arithmetic
against the Gregorian calendar, one step a day; the flow of octets through the radio's FIFOs; PUBLISH packets printed,
read and parsed.

Where the code is imperative, the model has a class with the same fields and loops, whose methods are proved against
the functions of the neighbouring module; what a caller relies on is proved about those functions.

## What the proofs found

- `RHMesh.cpp:208` says that the node asked for is certain to have a route back to the requester. It is not:
  recording the visited nodes can push that route out again (`MeshReply.ReplyRouteLost`), exactly when
  `MeshReply.ReplyRouteIff` says.
- `RHRouter.cpp:146-151` leaves stale destinations behind, after which the oldest route need no longer be the one that
  is retired (`RouteTable.ClearBreaksOrder`), exactly when `RouteTable.OrderKeptIff` says.
- `RH_ASK.h:108` gives the byte count as 4 to 30; the code accepts 7 to 67 (`RH_ASK.cpp:782`), and so does the model.
- `Adafruit_SSD1306.cpp:552-566` wraps for a start off the screen and a very negative length, and then paints pixels
  (`OledLines.SpanIff`, `OledLines.MisdrawnRow`). Lines of other lengths are right. For a colour number other than
  the three, lines along the panel's columns clear whole octets (`OledDriver.OtherColourIff`,
  `OledDriver.OtherColourClears`). The length of a straight line of more than 32767 pixels wraps in
  `Adafruit_GFX.cpp:202-216`; some such lines are not drawn (`DrawLine.LongLineIff`, `DrawLine.LongRows`).
- A FIFO error and an almost empty FIFO reported by the same interrupt load two fragments at once
  (`RH_RF22.cpp:204-218`), more than the FIFO holds when the message is longer than 64 octets (`Rf22.FifoBoundIff`,
  `Rf22.OverfillReached`). That takes a `RH_RF22_MAX_MESSAGE_LEN` above its default of 50 (`RH_RF22.h:26-29`). A FIFO
  error together with the end of a transmission leaves a fragment in the FIFO that goes out with the next message
  (`Rf22.SendingErrorIff`, `Rf22.StrandedFragment`).
- A FIFO error handled while a packet comes in empties the FIFO and the buffer, and nothing makes the driver give up
  on the packet: at its end it is filled up from an empty FIFO and delivered (`Rf22.GarbledPacket`,
  `Rf22.ShiftedPacket`). A preamble whose interrupt is handled late (`RH_RF22.cpp:288-295`) clears octets that
  have come in (`Rf22.LatePreamble`), a whole packet (`Rf22.PacketDiscarded`), or what is left of a message that
  `send` has begun to transmit (`Rf22.MessageCut`, `Rf22.NothingRestarted`). `Rf22.InterruptKeepsIff` says
  exactly which interrupts are harmless, and `Rf22.ReceivedWhole` what is delivered.
- A refused `send` clears octets already received (`Rf22.RefusedSendIff`, `Rf22.RefusedSendLoses`).
- `RH_Serial.cpp:192-194` copies octets from beyond the buffer for a frame with a right check sequence and fewer than
  four octets, and only then (`SerialFraming.OverreadIff`, `SerialFraming.ShortFrameOverreads`).
- `RTClib.cpp:55-64` takes 2100 for a leap year, and its 16-bit day count starts again after 5 June 2179
  (`Calendar.NextDayCountsIff`, `Calendar.WrongDays`).
- The loop of `Adafruit_GFX.cpp:88-126` does not stop when the longer axis ends at 32767 (`GfxLine.StopsIff`), and that
  of `Adafruit_GFX.cpp:219-253` does not draw the circle of radius 16557, nor of almost any greater one, because its
  decision term leaves 16 bits (`GfxCircle.WrittenIsCircleIff`).
- `Adafruit_MQTT.cpp:246-250` refuses four-octet lengths, which the protocol allows (`Mqtt.LengthRoundTrip`), and
  `Adafruit_MQTT.cpp:498` stores a payload of exactly the limit, without the terminating zero that
  `Adafruit_MQTT.h:287-288` promises (`Mqtt.RoomForZeroIff`).
- `Adafruit_MQTT_Client.cpp:50-76` does not stop when it is asked for 0 octets, as it is for a packet without a body:
  the answer to a ping is read together with the packets behind it, even past the end of the buffer
  (`Mqtt.ReadsPacketIff`, `Mqtt.PingSwallows`). `Adafruit_MQTT.cpp:453-518` looks neither at the kind nor at the length
  of what was read, so the answer to a ping also delivers the message before it again (`Mqtt.PingRepeats`).
  Octets of a packet beyond the buffer are taken for the next packet (`Mqtt.LongPacketCut`).

## Model

Members of a class are named module, class, member.

| member | source | states |
|---|---|---|
| `Crc.UpdateIsShift` | arduino/libraries/RadioHead/RHCRC.cpp:79-86 | the byte update is eight steps of the bit-serial CCITT register (polynomial 0x8408, least significant bit first) |
| `Crc.OverIsOverBits` | arduino/libraries/RadioHead/RHCRC.cpp:79-86 | over a whole string the CRC is the bit-serial register fed with its bits |
| `Crc.FeedWord` | arduino/libraries/RadioHead/RHCRC.cpp:79-86 | sixteen message bits act as if they had been added into the register beforehand |
| `Crc.ResidueIff` | arduino/libraries/RadioHead/RH_ASK.cpp:696-708 | for every string, the running CRC from 0xffff ends at 0xf0b8 if and only if its last two bytes are the complemented CRC of the rest, low byte first (Appendix C.2 of RFC 1662) |
| `Crc.BurstDetected` | arduino/libraries/RadioHead/RHCRC.cpp:79-86 | two strings that differ only inside 16 consecutive bits, at any bit offset, never have equal CRCs |
| `Crc.AdjacentBytesDetected` | arduino/libraries/RadioHead/RHCRC.cpp:79-86 | two equally long strings that differ only within two adjacent bytes never have equal CRCs |
| `Crc.OddErrorsDetected` | arduino/libraries/RadioHead/RHCRC.cpp:79-86 | two equally long strings that differ in an odd number of bits never have equal CRCs |
| `Crc.CheckValue` | arduino/libraries/RadioHead/RHCRC.cpp:79-86 | the complemented CRC of the digits 1 to 9 is 0x906e, the check value catalogued for this code |
| `AskCode.SearchSkips` | arduino/libraries/RadioHead/RH_ASK.cpp:676-691 | the counted search passes over every entry before the first match |
| `AskCode.DecodeSymbol` | arduino/libraries/RadioHead/RH_ASK.cpp:676-691 | the split-table search undoes the 4-to-6 code for each of the sixteen symbols, so no symbol is missed by starting in the upper half |
| `AskCode.EncodeConcat` | arduino/libraries/RadioHead/RH_ASK.cpp:495-523 | encoding is byte by byte, high nibble first |
| `AskFramer.StepSafe` | arduino/libraries/RadioHead/RH_ASK.cpp:759-810 | for every bit stream: a receiver inside a frame has counted fewer than 12 bits and holds no bytes or fewer than its count, which is in 7..67, and a byte is written only inside the buffer |
| `AskFramer.ByteRoundTrip` | arduino/libraries/RadioHead/RH_ASK.cpp:759-810 | twelve received bits that are the two symbols of a byte decode to that byte, whatever the register held |
| `AskFramer.TrainingClears` | arduino/libraries/RadioHead/RH_ASK.cpp:759-810 | seven training pairs leave a receiver outside a frame with 0xaaa in its register, whatever the register held, and also one for which noise has just completed a start symbol |
| `AskFramer.FalseStartDropped` | arduino/libraries/RadioHead/RH_ASK.cpp:759-810 | a start symbol seen inside the training sequence collects 0xcc, which is no legal count, and the frame is dropped and counted bad |
| `AskFramer.StartRecognised` | arduino/libraries/RadioHead/RH_ASK.cpp:759-810 | the twelve start bits start a frame at their last bit and at no earlier one |
| `AskFramer.CollectByte` | arduino/libraries/RadioHead/RH_ASK.cpp:759-810 | twelve line bits of an encoded byte add just this byte, and complete the frame when it was the last |
| `AskFramer.CollectRest` | arduino/libraries/RadioHead/RH_ASK.cpp:759-810 | the encoded bytes of a frame are collected one after the other until the count is reached |
| `AskFramer.FrameReceived` | arduino/libraries/RadioHead/RH_ASK.cpp:759-810 | training, start symbol and an encoded frame of legal length leave exactly that frame in the buffer, from any receiver outside a frame |
| `AskPll.RampBounded` | arduino/libraries/RadioHead/RH_ASK.cpp:724-758 | for every sample stream the ramp stays below 160 |
| `AskPll.WindowsSpan` | arduino/libraries/RadioHead/RH_ASK.cpp:724-758 | for every sample stream and from every ramp value, any two consecutive dumps are 6 to 12 samples apart |
| `AskPll.OneBitEach` | arduino/libraries/RadioHead/RH_ASK.cpp:724-758 | the dumps so timed are the bits the loop detects, one for one |
| `AskPll.MajorityIff` | arduino/libraries/RadioHead/RH_ASK.cpp:724-758 | for every sample stream, a detected bit is one if and only if at least five of the samples since the bit before were high |
| `AskPll.BitInLock` | arduino/libraries/RadioHead/RH_ASK.cpp:724-758 | in lock, the eight samples of a bit keep the loop in lock and dump the previous bit with its value |
| `AskPll.LockedRun` | arduino/libraries/RadioHead/RH_ASK.cpp:724-758 | in lock, any bit sequence is dumped bit for bit, each once, in order, with its value, and lock is never lost |
| `AskPll.TransitionBit` | arduino/libraries/RadioHead/RH_ASK.cpp:724-758 | a transition brings the ramp one step of 9 nearer to the lock range, modulo 160 |
| `AskPll.Acquire` | arduino/libraries/RadioHead/RH_ASK.cpp:724-758 | from any ramp value, alternating bits of eight samples bring the loop into lock after as many bits as its distance says, never more than 8 |
| `AskModem.TickConsistent` | arduino/libraries/RadioHead/RH_ASK.cpp:724-847 | every timer tick keeps transmitter and receiver in a consistent state |
| `AskModem.TransmitAll` | arduino/libraries/RadioHead/RH_ASK.cpp:813-839 | the transmitter holds the line for eight ticks for every bit of every symbol, least significant bit first, then releases it, is idle, and counts the message |
| `AskModem.ReceiveIsFraming` | arduino/libraries/RadioHead/RH_ASK.cpp:724-811 | the receiver is the framer fed with the bits the loop dumps, until a frame is complete |
| `AskModem.ReceiverGets` | arduino/libraries/RadioHead/RH_ASK.cpp:724-811 | from lock, the samples of a transmission leave exactly its frame in the buffer |
| `AskModem.FrameIsGood` | arduino/libraries/RadioHead/RH_ASK.cpp:471-532 | every frame that `send` builds has a legal count and passes the CRC check |
| `AskModem.RecvFrame` | arduino/libraries/RadioHead/RH_ASK.cpp:438-469 | validating and receiving such a frame yields its headers and payload if it is for this node, and nothing otherwise |
| `AskModem.RecvIff` | arduino/libraries/RadioHead/RH_ASK.cpp:438-469 | of a frame just received, `recv` returns headers and payload if and only if its CRC is right and it is for this node, for everybody, or the receiver is promiscuous; either way the frame is gone and counted good or bad |
| `AskModem.CorruptRejected` | arduino/libraries/RadioHead/RH_ASK.cpp:696-721 | a frame with another CRC than the one sent is never returned, and is counted bad |
| `AskModem.OddErrorsRejected` | arduino/libraries/RadioHead/RH_ASK.cpp:696-721 | so a frame that was changed in an odd number of bits |
| `AskModem.BurstRejected` | arduino/libraries/RadioHead/RH_ASK.cpp:696-721 | and one that was changed only within 16 consecutive bits |
| `AskModem.RecvOnce` | arduino/libraries/RadioHead/RH_ASK.cpp:438-469 | a message is returned once, and nothing is while sending |
| `AskModem.RecvValidated` | arduino/libraries/RadioHead/RH_ASK.cpp:451-469 | of a message validated before, `recv` returns the headers extracted then and its payload |
| `AskModem.FrameBytes` | arduino/libraries/RadioHead/RH_ASK.cpp:471-532 | the octets of a frame: count, headers, payload, complemented CRC with its low byte first |
| `AskModem.SendTakesIff` | arduino/libraries/RadioHead/RH_ASK.cpp:471-479 | `send` takes exactly the messages of up to 60 octets, and leaves everything alone for a longer one |
| `AskModem.AvailableConsistent` | arduino/libraries/RadioHead/RH_ASK.cpp:438-449 | `available` keeps the state consistent |
| `AskModem.EndToEnd` | arduino/libraries/RadioHead/RH_ASK.cpp:438-847 | ticking both modems in step, every message `send` accepts (at most 60 octets, any headers) is returned by `recv` of a receiver in lock with identical headers and payload if it is addressed to it, broadcast, or the receiver is promiscuous, and is not returned otherwise |
| `AskModem.TrainingLocks` | arduino/libraries/RadioHead/RH_ASK.cpp:724-758 | the first twelve bits of the preamble bring a loop of any phase into lock |
| `AskPll.TrainingAfterSilence` | arduino/libraries/RadioHead/RH_ASK.cpp:724-758 | from a quiet line and any phase, alternating bits never make the loop dump two ones in a row on its way to lock |
| `AskFramer.SparseRun` | arduino/libraries/RadioHead/RH_ASK.cpp:759-810 | bits without two ones in a row never look like the start symbol |
| `AskModem.SilenceClears` | arduino/libraries/RadioHead/RH_ASK.cpp:724-811 | once the last sample was low and the integrator is empty, twelve bit times of a quiet line empty the shift register and change nothing else in the receiver |
| `AskModem.SilenceSettles` | arduino/libraries/RadioHead/RH_ASK.cpp:724-811 | fourteen bit times of a quiet line bring any receiver outside a frame to an empty register and integrator, changing nothing else but the phase of the loop, unless its register was one bit short of the start symbol |
| `AskModem.EndToEndAfterSilence` | arduino/libraries/RadioHead/RH_ASK.cpp:438-847 | from any phase of the loop: a receiver outside a frame, with an empty register and integrator and the line low, returns every message as a locked one does, with no false start on the way to lock |
| `AskModem.EndToEndAfterFourteenBits` | arduino/libraries/RadioHead/RH_ASK.cpp:438-847 | the same from any receiver outside a frame whose register is not one bit short of the start symbol, after fourteen quiet bit times |
| `AskModem.EndToEndFromAnyPhase` | arduino/libraries/RadioHead/RH_ASK.cpp:438-847 | the same from any phase of the loop, provided the first twelve training bits leave the receiver outside a frame |
| `AskDriver.RhAsk.constructor` | arduino/libraries/RadioHead/RH_ASK.cpp:44-58 | a new modem is idle and consistent |
| `AskDriver.RhAsk.Symbol6to4` | arduino/libraries/RadioHead/RH_ASK.cpp:676-691 | the search loop computes the decoding function |
| `AskDriver.RhAsk.SendNextBit` | arduino/libraries/RadioHead/RH_ASK.cpp:813-839 | index and bit counters move as in the model of the transmitter |
| `AskDriver.RhAsk.TransmitTimer` | arduino/libraries/RadioHead/RH_ASK.cpp:813-839 | one transmit tick on the fields is one tick of the model |
| `AskDriver.RhAsk.TakeByte` | arduino/libraries/RadioHead/RH_ASK.cpp:775-804 | a decoded byte updates count, buffer and flags as in the model, writing only inside the buffer |
| `AskDriver.RhAsk.TakeBit` | arduino/libraries/RadioHead/RH_ASK.cpp:759-810 | one dumped bit on the fields is one step of the framer |
| `AskDriver.RhAsk.TakeSample` | arduino/libraries/RadioHead/RH_ASK.cpp:724-758 | one sample on the fields is one step of the loop |
| `AskDriver.RhAsk.ReceiveTimer` | arduino/libraries/RadioHead/RH_ASK.cpp:724-811 | one receive tick on the fields is one tick of the model |
| `AskDriver.RhAsk.HandleTimerInterrupt` | arduino/libraries/RadioHead/RH_ASK.cpp:841-847 | the interrupt runs the tick of the current mode |
| `AskDriver.RhAsk.ValidateRxBuf` | arduino/libraries/RadioHead/RH_ASK.cpp:696-721 | the CRC loop and the address test judge the frame as in the model |
| `AskDriver.RhAsk.CheckAvailable` | arduino/libraries/RadioHead/RH_ASK.cpp:438-449 | `available` on the fields, with the whole new state |
| `AskDriver.RhAsk.Receive` | arduino/libraries/RadioHead/RH_ASK.cpp:451-469 | `recv` on the fields: what is copied out, and the whole new state |
| `AskDriver.RhAsk.SendMessage` | arduino/libraries/RadioHead/RH_ASK.cpp:471-532 | `send` fills the symbol buffer in place with preamble and encoded frame, and refuses messages that are too long |
| `SerialFraming.HandleKeeps` | arduino/libraries/RadioHead/RH_Serial.cpp:70-160 | every octet keeps the receive buffer within its 64-octet bounds |
| `SerialFraming.ParseStuffed` | arduino/libraries/RadioHead/RH_Serial.cpp:70-140 | an octet as the printer stuffs it is appended once, DLE included |
| `SerialFraming.ParseContent` | arduino/libraries/RadioHead/RH_Serial.cpp:70-140 | the stuffed content of a frame is parsed back, with its running CRC |
| `SerialFraming.CheckFrame` | arduino/libraries/RadioHead/RH_Serial.cpp:162-182 | a frame with the right trailer is accepted exactly when it is for this node |
| `SerialFraming.FrameQuiet` | arduino/libraries/RadioHead/RH_Serial.cpp:34-39 | no proper part of a frame makes a message available, so a poll inside one reads on |
| `SerialFraming.GapIgnored` | arduino/libraries/RadioHead/RH_Serial.cpp:70-92 | octets other than DLE between frames change nothing |
| `SerialFraming.StreamRoundTrip` | arduino/libraries/RadioHead/RH_Serial.cpp:34-235 | repeated `recv` over the printed form of any list of messages, with any DLE-free gaps, delivers exactly those addressed to this node, in order and unchanged, whatever mix of DLE, STX and ETX they contain, and counts them good and none bad |
| `SerialFraming.OddErrorsRejected` | arduino/libraries/RadioHead/RH_Serial.cpp:70-182 | a frame whose content was changed in an odd number of bits is counted bad and not delivered |
| `SerialFraming.BurstRejected` | arduino/libraries/RadioHead/RH_Serial.cpp:70-182 | so is one that was changed only within 16 consecutive bits |
| `SerialFraming.FrameBytes` | arduino/libraries/RadioHead/RH_Serial.cpp:201-235 | the octets of a frame without a DLE in it; the check sequence covers headers, payload and the closing DLE ETX |
| `SerialFraming.StuffedConcat` | arduino/libraries/RadioHead/RH_Serial.cpp:229-235 | a DLE is doubled, wherever it is |
| `SerialFraming.OverreadIff` | arduino/libraries/RadioHead/RH_Serial.cpp:184-199 | of a valid frame, `recv` copies octets from beyond its buffer if and only if the frame has fewer than its four headers; otherwise it copies the payload, up to the room there is |
| `SerialFraming.ShortFrameOverreads` | arduino/libraries/RadioHead/RH_Serial.cpp:162-199 | a frame with the right check sequence and fewer than four octets is accepted by what the buffer holds in the place of its address, and `recv` then copies from beyond the buffer |
| `SerialDriver.RhSerial.HandleRx` | arduino/libraries/RadioHead/RH_Serial.cpp:70-140 | the seven-state switch on the fields is the parser's step |
| `SerialDriver.RhSerial.AppendRxBuf` | arduino/libraries/RadioHead/RH_Serial.cpp:149-160 | append and overflow handling on the fields |
| `SerialDriver.RhSerial.ValidateRxBuf` | arduino/libraries/RadioHead/RH_Serial.cpp:162-182 | the CRC comparison and the address test on the fields |
| `SerialDriver.RhSerial.Available` | arduino/libraries/RadioHead/RH_Serial.cpp:34-39 | polling reads just as far as the first complete message |
| `SerialDriver.RhSerial.Receive` | arduino/libraries/RadioHead/RH_Serial.cpp:184-199 | `recv` on the fields, with what is left in the port |
| `SerialDriver.RhSerial.Send` | arduino/libraries/RadioHead/RH_Serial.cpp:201-235 | `send` writes exactly the frame of headers and payload |
| `DatagramNet.NextKeeps` | arduino/libraries/RadioHead/RHReliableDatagram.cpp:47-146 | every step of a network of nodes over lossy channels that keep order (a send, a timeout, a retry, a loss, a reception, while idle or while waiting) keeps the delivery invariant, as long as the frames processed are fresh |
| `DatagramNet.AckedDeliveredOnce` | arduino/libraries/RadioHead/RHReliableDatagram.cpp:47-146 | in every such run, a unicast `sendtoWait` that returned true had its message handed up by the addressed node exactly once, with its payload |
| `DatagramNet.HandedUpInOrder` | arduino/libraries/RadioHead/RHReliableDatagram.cpp:112-146 | nothing is handed up twice or out of order, even when both nodes wait for each other and acknowledge again |
| `DatagramNet.CloseIsFresh` | arduino/libraries/RadioHead/RHReliableDatagram.cpp:112-146 | a message fewer than 256 numbers after the last one handed up from its sender is fresh, and so is an acknowledgement fewer than 256 numbers before the message waiting for one |
| `DatagramNet.AckedOnceWhenClose` | arduino/libraries/RadioHead/RHReliableDatagram.cpp:47-146 | in every run with fewer than 256 numbers between the messages processed from one sender, and between a waiting call and the acknowledgements it hears, a unicast `sendtoWait` that returned true had its message handed up exactly once |
| `DatagramNet.HandedUpIffFresh` | arduino/libraries/RadioHead/RHReliableDatagram.cpp:122-146 | an idle node hands up a message it has not had exactly when it is fresh |
| `DatagramNet.AcceptedIff` | arduino/libraries/RadioHead/RHReliableDatagram.cpp:64-100 | a waiting call takes an acknowledgement for its own exactly when it is for its message, or is not fresh |
| `DatagramNet.NoLossDelivers` | arduino/libraries/RadioHead/RHReliableDatagram.cpp:47-146 | when nothing is lost, a fresh message between idle nodes is handed up and its call returns true on the first transmission |
| `DatagramNet.BroadcastReaches` | arduino/libraries/RadioHead/RHReliableDatagram.cpp:47-62 | a broadcast goes to every other node and its call is over at once |
| `DatagramNet.WrapLosesMessage` | arduino/libraries/RadioHead/RHReliableDatagram.cpp:112-146 | a run in which freshness fails: 255 messages are lost, the next one is acknowledged, its call returns true, and it is never handed up |
| `DatagramNode.TrueIffAckHeard` | arduino/libraries/RadioHead/RHReliableDatagram.cpp:47-109 | `sendtoWait` returns true if and only if an acknowledgement from the destination with this call's number is heard in one of its waits |
| `DatagramNode.CopiesSent` | arduino/libraries/RadioHead/RHReliableDatagram.cpp:47-109 | at most `retries` + 1 copies go out, all of them if the call gives up; each carries this call's number with the acknowledgement bit clear, and everything else sent is an acknowledgement |
| `DatagramNode.WaitOne` | arduino/libraries/RadioHead/RHReliableDatagram.cpp:64-100 | what one frame heard while waiting does: end the wait, be acknowledged again under its own number, or nothing |
| `DatagramNode.WaitConcat` | arduino/libraries/RadioHead/RHReliableDatagram.cpp:64-100 | frames heard are dealt with one after the other until the acknowledgement |
| `DatagramNode.AckAgrees` | arduino/libraries/RadioHead/RHReliableDatagram.cpp:122-130 | the frame that acknowledges a message is the network model's acknowledgement of its number |
| `DatagramNode.AckNames` | arduino/libraries/RadioHead/RHReliableDatagram.cpp:174-186 | the sender of a frame takes its acknowledgement for that message and no other, and from that node only |
| `DatagramNode.GivesUpIff` | arduino/libraries/RadioHead/RHReliableDatagram.cpp:52-108 | the octet that counts the transmissions passes the limit if and only if `_retries` is below 255 |
| `DatagramNode.WaitingDecisionAgrees` | arduino/libraries/RadioHead/RHReliableDatagram.cpp:64-100 | the octet comparisons made while waiting decide as the network model does |
| `DatagramNode.IdleDecisionAgrees` | arduino/libraries/RadioHead/RHReliableDatagram.cpp:112-146 | the octet comparisons made while idle decide as the network model does |
| `DatagramNode.RhReliable.SendtoWait` | arduino/libraries/RadioHead/RHReliableDatagram.cpp:47-109 | the nested loops send, count retransmissions (transmissions minus one) and return as specified, whatever acknowledgements overwrote the header registers in between |
| `DatagramNode.RhReliable.AwaitAck` | arduino/libraries/RadioHead/RHReliableDatagram.cpp:64-104 | one wait: the result, and the acknowledgements sent for repeats |
| `DatagramNode.RhReliable.Acknowledge` | arduino/libraries/RadioHead/RHReliableDatagram.cpp:174-186 | the acknowledgement frame, and the registers it leaves |
| `DatagramNode.RhReliable.RecvfromAck` | arduino/libraries/RadioHead/RHReliableDatagram.cpp:112-146 | acknowledged unless broadcast, handed up unless it is a repeat, and remembered |
| `RouteTable.AddRefines` | arduino/libraries/RadioHead/RHRouter.cpp:44-85 | an addition updates in place, takes the first free slot, or evicts the route added earliest: the table stays a gapless prefix with distinct destinations and is the insertion-ordered map |
| `RouteTable.DeleteRefines` | arduino/libraries/RadioHead/RHRouter.cpp:97-135 | a deletion removes the destination from the map, and a stale slot that matches does no harm |
| `RouteTable.LookupRefines` | arduino/libraries/RadioHead/RHRouter.cpp:87-95 | a lookup finds exactly the routes of the map |
| `RouteTable.TableRefinesMap` | arduino/libraries/RadioHead/RHRouter.cpp:44-144 | any sequence of additions, deletions and retirements behaves as the bounded insertion-ordered map |
| `RouteTable.FreshTable` | arduino/libraries/RadioHead/RHRouter.cpp:20-27 | a zero-filled table is the empty map |
| `RouteTable.AddThenLookup` | arduino/libraries/RadioHead/RHRouter.cpp:44-95 | after an addition the new hop is found and other destinations keep theirs, except that a new destination in a full table costs the earliest one |
| `RouteTable.LastRemain` | arduino/libraries/RadioHead/RHRouter.cpp:44-85 | of different destinations entered into an empty table the last ones remain, as many as it has slots, in the order in which they were entered |
| `RouteTable.ClearForgets` | arduino/libraries/RadioHead/RHRouter.cpp:146-151 | a cleared table has no routes |
| `RouteTable.NoGapsIff` | arduino/libraries/RadioHead/RHRouter.cpp:44-85 | with arbitrary leftovers in unused slots, an addition keeps the routes together exactly when the first slot that remembers the destination is not beyond the first free one |
| `RouteTable.OrderKeptIff` | arduino/libraries/RadioHead/RHRouter.cpp:44-85 | under the same leftovers, an addition is that of the insertion-ordered map, order included, exactly under that condition |
| `RouteTable.ClearBreaksOrder` | arduino/libraries/RadioHead/RHRouter.cpp:146-151 | after `clearRoutingTable` on a table of ten routes and two additions, the table retires the later addition before the earlier one |
| `Router.HopBound` | arduino/libraries/RadioHead/RHRouter.cpp:204-288 | with arbitrary, even looping and changing tables, a message that starts with no hops is relayed at most `max_hops` times and handed up only at its destination, with its header as it was and the relays as its hops; a broadcast is handed up where it is heard and not relayed |
| `Router.DeliveredIff` | arduino/libraries/RadioHead/RHRouter.cpp:204-288 | a message arrives if and only if the next hops lead to its destination within the relays it has left |
| `Router.RhRouter.AddRouteTo` | arduino/libraries/RadioHead/RHRouter.cpp:44-85 | the loops over the array compute the new table |
| `Router.RhRouter.GetRouteTo` | arduino/libraries/RadioHead/RHRouter.cpp:87-95 | the search returns the first valid route |
| `Router.RhRouter.DeleteRoute` | arduino/libraries/RadioHead/RHRouter.cpp:97-103 | the shifting loop moves the later entries down and invalidates the last slot |
| `Router.RhRouter.DeleteRouteTo` | arduino/libraries/RadioHead/RHRouter.cpp:124-135 | deletes the first slot of that destination, whatever its state |
| `Router.RhRouter.RetireOldestRoute` | arduino/libraries/RadioHead/RHRouter.cpp:139-143 | removes slot 0 |
| `Router.RhRouter.ClearRoutingTable` | arduino/libraries/RadioHead/RHRouter.cpp:146-151 | invalidates every slot and leaves the destinations |
| `Router.RhRouter.Handle` | arduino/libraries/RadioHead/RHRouter.cpp:265-285 | hand up, relay with one more hop, or drop |
| `MeshFlood.NextKeeps` | arduino/libraries/RadioHead/RHMesh.cpp:182-221 | every step of the flood keeps requests on simple paths and tables sound |
| `MeshFlood.FloodSound` | arduino/libraries/RadioHead/RHMesh.cpp:182-221 | from empty tables, whatever is sent, lost, delayed or overtaken: every request in flight has come along a simple path of radio links from its source to its sender that does not pass the destination and is within the hop limit; every route at a node leads to a neighbour from which a simple path avoiding the node reaches the destination |
| `MeshFlood.WayBack` | arduino/libraries/RadioHead/RHMesh.cpp:197-201 | every node a request has passed can be reached back over its sender |
| `MeshFlood.FloodEnds` | arduino/libraries/RadioHead/RHMesh.cpp:213-220 | a run has no more steps than what is in flight and its discoveries allow: one discovery causes at most D(1 + D + ... + D^max_hops) receptions, D being the greatest number of neighbours |
| `MeshFlood.EveryWayAnswered` | arduino/libraries/RadioHead/RHMesh.cpp:182-221 | when nothing is lost and the flood has died out, the destination has answered the request along every simple path within the limits, whatever else was going on |
| `MeshFlood.AnswersOnWays` | arduino/libraries/RadioHead/RHMesh.cpp:182-221 | conversely, in every run an answer is given by the node asked for only, to a request that has come along a simple path within the limits |
| `MeshFlood.ReactIff` | arduino/libraries/RadioHead/RHMesh.cpp:182-221 | a node answers, passes on or ignores a request exactly by whether it has seen it, is the one asked for, and the limits |
| `MeshReply.ReplyRouteIff` | arduino/libraries/RadioHead/RHMesh.cpp:197-210 | the answering node has a route back to the requester, over the node it heard the request from, if and only if recording the visited nodes pushed out no more routes than were older than the requester's |
| `MeshReply.NewSourceHasRoute` | arduino/libraries/RadioHead/RHMesh.cpp:197-210 | a requester not yet in the table is safe from fewer visited nodes than the table has slots |
| `MeshReply.LearnsAll` | arduino/libraries/RadioHead/RHMesh.cpp:197-201 | with room for all of them, exactly the requester and the nodes the request has passed become reachable over the node it was heard from |
| `MeshReply.LearnsOnce` | arduino/libraries/RadioHead/RHMesh.cpp:182-196 | a node that has seen the request before learns nothing |
| `MeshReply.ReplyRouteLost` | arduino/libraries/RadioHead/RHMesh.cpp:197-210 | a full table whose oldest route is the requester's loses it to one new node on the way, and the answer has no route |
| `MeshReply.OutlivesIff` | arduino/libraries/RadioHead/RHRouter.cpp:44-85 | a route outlives a list of additions exactly when enough earlier ones are there to be pushed out instead |
| `MeshNode.DeleteThenLookup` | arduino/libraries/RadioHead/RHMesh.cpp:115-120 | a failure report removes the route to the unreachable node and no other |
| `MeshNode.ReportHasRoute` | arduino/libraries/RadioHead/RHMesh.cpp:123-144 | the report of a failed relay always has a route back over the node the message came from, even in a full table |
| `MeshNode.FailureForgets` | arduino/libraries/RadioHead/RHMesh.cpp:115-144 | a relay without a route, or whose next hop did not acknowledge, forgets the destination, keeps the way back to the originator only if the report got through, and touches no other route if it had one to forget |
| `MeshNode.SuccessKeeps` | arduino/libraries/RadioHead/RHMesh.cpp:123-144 | an acknowledged relay over a route, and a broadcast, leave the table alone |
| `MeshNode.RhMesh.HandleRequest` | arduino/libraries/RadioHead/RHMesh.cpp:182-221 | the handler, editing the message buffer in place, ignores, answers or rebroadcasts as the model does, leaves in the buffer exactly the message to send, and updates the routing table as the model does |
| `MeshNode.RhMesh.RecordRoutes` | arduino/libraries/RadioHead/RHMesh.cpp:197-201 | the loop adds the originator and every listed node |
| `MeshNode.RhMesh.PassOn` | arduino/libraries/RadioHead/RHMesh.cpp:123-144 | `route` on the object succeeds if and only if the message is a broadcast or there was a route and the next hop acknowledged; else the new table, and the report to the node the message came from |
| `OledPixels.PixelsDrawn` | arduino/libraries/Adafruit_SSD1306/Adafruit_SSD1306.cpp:114-142 | drawing a run of pixels one by one paints exactly the rectangle it covers, each pixel once, clipped to the panel, for every rotation |
| `OledPixels.DrawnOnce` | arduino/libraries/Adafruit_SSD1306/Adafruit_SSD1306.cpp:114-142 | a framebuffer is determined by its start, the ink and the pixels covered |
| `OledPixels.PixelOctet` | arduino/libraries/Adafruit_SSD1306/Adafruit_SSD1306.cpp:114-142 | which octet and bit a pixel is, and what each colour does to it |
| `OledPixels.PixelPlace` | arduino/libraries/Adafruit_SSD1306/Adafruit_SSD1306.cpp:114-133 | where on the panel the pixel of a turned screen is |
| `OledPixels.NoPixel` | arduino/libraries/Adafruit_SSD1306/Adafruit_SSD1306.cpp:114-117 | nothing is drawn off the screen |
| `OledLines.SpanIff` | arduino/libraries/Adafruit_SSD1306/Adafruit_SSD1306.cpp:552-566 | the clipping keeps exactly the pixels on the panel if and only if start plus length does not wrap in 16 bits |
| `OledLines.PaintedIsLine` | arduino/libraries/Adafruit_SSD1306/Adafruit_SSD1306.cpp:514-546 | for every rotation the start computed with 16-bit arithmetic, and the clipping, cover exactly the pixels of the line, unless start plus length wraps |
| `OledLines.NonNegativeIsRight` | arduino/libraries/Adafruit_SSD1306/Adafruit_SSD1306.cpp:514-640 | no line of non-negative length is affected by the wrap |
| `OledLines.MisdrawnRow` | arduino/libraries/Adafruit_SSD1306/Adafruit_SSD1306.cpp:548-566 | a length of -32768 one pixel left of the screen paints a whole row |
| `OledLines.HeadMaskBits` | arduino/libraries/Adafruit_SSD1306/Adafruit_SSD1306.cpp:653-666 | the mask of the first partial octet selects the rows from the start to the end of the line or of the page |
| `OledDriver.SameAsPixels` | arduino/libraries/Adafruit_SSD1306/Adafruit_SSD1306.cpp:514-729 | a framebuffer painted where the driver paints is what the pixels one by one make of it; where the arithmetic wraps, INVERSE makes the difference visible |
| `OledDriver.OtherColourIff` | arduino/libraries/Adafruit_SSD1306/Adafruit_SSD1306.cpp:514-729 | a line in a colour number other than the three leaves the panel as its pixels one by one do, that is alone, exactly when the pages it clears are dark |
| `OledDriver.ClearedPages` | arduino/libraries/Adafruit_SSD1306/Adafruit_SSD1306.cpp:617-729 | the pages it clears are those that a line along the panel's columns covers with all eight rows |
| `OledDriver.OtherColourClears` | arduino/libraries/Adafruit_SSD1306/Adafruit_SSD1306.cpp:617-729 | a line of colour 3 down the first eight pixels of a lit column clears them |
| `OledDriver.Ssd1306.DrawPixel` | arduino/libraries/Adafruit_SSD1306/Adafruit_SSD1306.cpp:114-142 | `drawPixel` changes one bit of one octet, or nothing off the screen |
| `OledDriver.Ssd1306.DrawFastHLineInternal` | arduino/libraries/Adafruit_SSD1306/Adafruit_SSD1306.cpp:548-581 | the loop paints exactly the clipped row |
| `OledDriver.Ssd1306.DrawFastVLineInternal` | arduino/libraries/Adafruit_SSD1306/Adafruit_SSD1306.cpp:617-729 | head, whole octets and tail together paint exactly the clipped column |
| `OledDriver.Ssd1306.DrawFastHLine` | arduino/libraries/Adafruit_SSD1306/Adafruit_SSD1306.cpp:514-546 | for all rotations and any 16-bit position and length, the buffer equals the one drawn pixel by pixel, unless the 16-bit sum wraps; with INVERSE, exactly unless; in a colour other than the three, the pages within the line are cleared |
| `OledDriver.Ssd1306.DrawFastVLine` | arduino/libraries/Adafruit_SSD1306/Adafruit_SSD1306.cpp:583-614 | the same for vertical lines |
| `GfxLine.LineConnected` | arduino/libraries/Adafruit_GFX_Library/Adafruit_GFX.cpp:88-126 | Bresenham's line has max(&#124;dx&#124;,&#124;dy&#124;)+1 pixels from one end point to the other, one for each place on the longer axis, each touching the next |
| `GfxLine.LineNear` | arduino/libraries/Adafruit_GFX_Library/Adafruit_GFX.cpp:88-126 | every pixel is within half a pixel of the line along the shorter axis: twice its error times the length is at most the length |
| `GfxLine.HalvesBack` | arduino/libraries/Adafruit_GFX_Library/Adafruit_GFX.cpp:88-126 | it is the nearest row, and midway between two the one nearer to the first pixel's |
| `GfxLine.LineReversible` | arduino/libraries/Adafruit_GFX_Library/Adafruit_GFX.cpp:88-126 | the same pixels in the same order whichever end is named first |
| `GfxLine.WriteLine` | arduino/libraries/Adafruit_GFX_Library/Adafruit_GFX.cpp:88-126 | the loop with its error term in 16-bit arithmetic emits exactly these pixels |
| `GfxLine.StopsIff` | arduino/libraries/Adafruit_GFX_Library/Adafruit_GFX.cpp:113-125 | the 16-bit loop counter passes the end of the longer axis, which stops the loop, if and only if the end is below 32767 |
| `GfxLine.NeverStops` | arduino/libraries/Adafruit_GFX_Library/Adafruit_GFX.cpp:113-125 | the line from 32766 to 32767 is never finished |
| `DrawLine.StraightLine` | arduino/libraries/Adafruit_GFX_Library/Adafruit_GFX.cpp:202-216 | along an axis, Bresenham's pixels are the run of pixels a fast line stands for |
| `DrawLine.OnPanel` | arduino/libraries/Adafruit_GFX_Library/Adafruit_GFX.cpp:202-216 | `drawLine` on the SSD1306 leaves the buffer as Bresenham's pixels drawn one by one, whether it takes a fast line or not, for every line whose pixels all come out; for the others, with INVERSE, it does not |
| `DrawLine.LongLineIff` | arduino/libraries/Adafruit_GFX_Library/Adafruit_GFX.cpp:202-216 | a straight line of more than 32767 pixels, whose length wraps, comes out if and only if it is not on the panel, or the driver draws it forward and it ends below 32767, or backward and it ends beyond the panel and starts less than 32768 before its far edge |
| `DrawLine.LongRows` | arduino/libraries/Adafruit_GFX_Library/Adafruit_GFX.cpp:202-216 | the row from 0 to 32767 does not come out, that from -1 to 32766 does |
| `GfxCircle.StepTracks` | arduino/libraries/Adafruit_GFX_Library/Adafruit_GFX.cpp:219-253 | at every turn the decision term is (x+1)^2 + y^2 - y - r^2 and the point is off the circle by at most y |
| `GfxCircle.OctantCovered` | arduino/libraries/Adafruit_GFX_Library/Adafruit_GFX.cpp:219-253 | the octant is covered column by column up to the diagonal, every point with &#124;x^2 + y^2 - r^2&#124; <= y |
| `GfxCircle.NearestRow` | arduino/libraries/Adafruit_GFX_Library/Adafruit_GFX.cpp:219-253 | before the diagonal the row is the nearest one: the circle crosses the column less than half a pixel away |
| `GfxCircle.CircleNear` | arduino/libraries/Adafruit_GFX_Library/Adafruit_GFX.cpp:219-253 | every pixel of the circle is off it by at most its larger coordinate |
| `GfxCircle.CircleSymmetric` | arduino/libraries/Adafruit_GFX_Library/Adafruit_GFX.cpp:219-253 | the circle is its own mirror image in both axes and the diagonal |
| `GfxCircle.Extremes` | arduino/libraries/Adafruit_GFX_Library/Adafruit_GFX.cpp:228-231 | the outermost pixels in the four directions belong to the circle |
| `GfxCircle.EveryColumn` | arduino/libraries/Adafruit_GFX_Library/Adafruit_GFX.cpp:219-253 | every column from -r to r has a pixel |
| `GfxCircle.EveryRow` | arduino/libraries/Adafruit_GFX_Library/Adafruit_GFX.cpp:219-253 | and so has every row |
| `GfxCircle.OctantTouches` | arduino/libraries/Adafruit_GFX_Library/Adafruit_GFX.cpp:219-253 | from the topmost pixel to the diagonal each pixel touches the next, and the last one its mirror image: the circle has no gap |
| `GfxCircle.DrawCircle` | arduino/libraries/Adafruit_GFX_Library/Adafruit_GFX.cpp:219-253 | for every radius, the loop in 16-bit arithmetic emits exactly the pixels of the 16-bit recurrence, moved to the centre |
| `GfxCircle.TermFits` | arduino/libraries/Adafruit_GFX_Library/Adafruit_GFX.cpp:219-253 | for the radii that come out, the decision term fits 16 bits at every turn |
| `GfxCircle.WrittenIsCircleIff` | arduino/libraries/Adafruit_GFX_Library/Adafruit_GFX.cpp:219-253 | these are the pixels of the circle if and only if the radius is at most 16556, or 16642, or 16643 |
| `GfxCircle.LargeCircle` | arduino/libraries/Adafruit_GFX_Library/Adafruit_GFX.cpp:219-253 | the circle goes wrong when the decision term after the first step down, nearly -2r, is below -32768 |
| `Calendar.RoundTrip` | arduino/libraries/RTCLib/RTClib.cpp:74-99 | every Unix time from 946684800 to 2^31 - 1 seconds later becomes a valid date whose `unixtime` it is |
| `Calendar.RoundTripBack` | arduino/libraries/RTCLib/RTClib.cpp:74-99 | every valid date in that range comes back from its `unixtime` |
| `Calendar.OrderPreserved` | arduino/libraries/RTCLib/RTClib.cpp:182-189 | up to 2099, later dates have greater Unix times |
| `Calendar.DayLater` | arduino/libraries/RTCLib/RTClib.cpp:74-99 | 86400 seconds later is the next day of the Gregorian calendar, at the same time of day |
| `Calendar.SecondLater` | arduino/libraries/RTCLib/RTClib.cpp:74-99 | the clock starts at midnight of 1 January 2000, and one second later it shows one second more, with all carries |
| `Calendar.NextDayCountsIff` | arduino/libraries/RTCLib/RTClib.cpp:55-64 | over all dates the class can hold, the 16-bit day count grows by one per Gregorian day, except over the end of February in the century years that are not leap years and except from 5 June 2179, where it wraps |
| `Calendar.WrongDays` | arduino/libraries/RTCLib/RTClib.cpp:55-64 | the first day counted wrong is 1 March 2100; the count of 5 June 2179 is 65535 and that of the next day 0 |
| `Calendar.WeekAdvancesIff` | arduino/libraries/RTCLib/RTClib.cpp:177-180 | `dayOfTheWeek` advances by one modulo 7 per day exactly under the same condition, from Saturday, 1 January 2000 |
| `Calendar.CountDays` | arduino/libraries/RTCLib/RTClib.cpp:55-64 | the month loop in 16-bit arithmetic computes the day count modulo 65536 |
| `Calendar.Construct` | arduino/libraries/RTCLib/RTClib.cpp:74-99 | the year and month loops compute the date |
| `Rf22.StartsFromFirst` | arduino/libraries/RadioHead/RH_RF22.cpp:570-584 | a transmission starts with the first fragment, at most 59 octets, and nothing on the air |
| `Rf22.FifoErrorKeeps` | arduino/libraries/RadioHead/RH_RF22.cpp:204-212 | a FIFO error while sending starts again from the first octet of the same message, if it is still in the buffer |
| `Rf22.InterruptKeepsIff` | arduino/libraries/RadioHead/RH_RF22.cpp:179-296 | an interrupt, with whatever flags it reports together, conserves what is sent if and only if a FIFO error while sending finds the message in the buffer, no end of the packet and no more to load than fits, and a preamble handled late finds the whole message in the FIFO; and what comes in if and only if a packet taken for valid has its preamble handled before and no FIFO error, and a packet that goes on has no octets yet when either is handled (or just those an empty FIFO yields) |
| `Rf22.ReceivingErrorIff` | arduino/libraries/RadioHead/RH_RF22.cpp:204-295 | the receive half for a FIFO error: the octets so far are lost, and a packet taken for valid in the same interrupt is delivered as what an emptied FIFO yields, or not at all with a preamble flagged |
| `Rf22.SendingErrorIff` | arduino/libraries/RadioHead/RH_RF22.cpp:204-295 | the sending half for a FIFO error |
| `Rf22.StepKeepsIff` | arduino/libraries/RadioHead/RH_RF22.cpp:179-654 | a step conserves what is sent (on air, then FIFO, then unsent buffer is the message; no FIFO holds more than 64) if and only if it is no such harmful interrupt; and what comes in (buffer, then FIFO is the packet so far; what was collected and what waits are the valid packets) if and only if, besides, no `send` comes upon a message not collected or is refused upon octets received |
| `Rf22.SentInOrder` | arduino/libraries/RadioHead/RH_RF22.cpp:179-654 | over every run of steps that conserve what is sent, whatever becomes of reception, the packets completed on the air are exactly the messages accepted, whole and in order, but for the one under way, which is on the air, in the FIFO and in the buffer |
| `Rf22.ReceivedInOrder` | arduino/libraries/RadioHead/RH_RF22.cpp:179-560 | over every run of steps that conserve what comes in, what `recv` has returned are exactly the valid packets of legal length that came in, whole and in order, but for the one waiting |
| `Rf22.ReceivedWhole` | arduino/libraries/RadioHead/RH_RF22.cpp:204-295 | however octets and interrupts interleave, with whatever flags: a packet taken for valid is delivered exactly when its length is legal, there is no CRC error and its preamble has been handled before; what is delivered lacks in front just the octets that came before the last FIFO error or preamble handled, with octets read from an empty FIFO added; so it is the packet if and only if none were lost (or they are those that an empty FIFO yields) |
| `Rf22.FifoBoundIff` | arduino/libraries/RadioHead/RH_RF22.cpp:204-218 | a FIFO error handled together with an almost empty FIFO loads two fragments at once: they fit if and only if the message has at most 64 octets |
| `Rf22.RefusedSendIff` | arduino/libraries/RadioHead/RH_RF22.cpp:586-614 | a refused message leaves reception sound if and only if no octets of a message waiting or coming in are in the buffer |
| `Rf22.SendTakesIff` | arduino/libraries/RadioHead/RH_RF22.cpp:586-614 | `send` takes exactly the messages of at least one octet and at most the limit |
| `Rf22.FullMakesRoom` | arduino/libraries/RadioHead/RH_RF22.cpp:646-654 | an almost full FIFO gives up 55 octets in their order, so that a packet of legal length does not overflow a FIFO served in time |
| `Rf22.OverfillReached` | arduino/libraries/RadioHead/RH_RF22.cpp:204-218 | a run from power-up, with the longest message set to 255, in which 65 octets are written to the FIFO of 64 |
| `Rf22.RefusedSendLoses` | arduino/libraries/RadioHead/RH_RF22.cpp:586-614 | a run after which a refused message loses a received octet |
| `Rf22.GarbledPacket` | arduino/libraries/RadioHead/RH_RF22.cpp:204-276 | a run after which an octet that was never received is delivered |
| `Rf22.ShiftedPacket` | arduino/libraries/RadioHead/RH_RF22.cpp:204-276 | a FIFO error handled while a packet comes in, and the end of the packet in a later interrupt: [7, 8] is delivered as [8, 0] |
| `Rf22.LatePreamble` | arduino/libraries/RadioHead/RH_RF22.cpp:248-295 | so it is when the preamble is handled after the first octet |
| `Rf22.PacketDiscarded` | arduino/libraries/RadioHead/RH_RF22.cpp:248-295 | a valid packet whose preamble is flagged in the same interrupt is thrown away |
| `Rf22.StrandedFragment` | arduino/libraries/RadioHead/RH_RF22.cpp:204-250 | a run after which the next message goes out behind octets of the one before |
| `Rf22.MessageCut` | arduino/libraries/RadioHead/RH_RF22.cpp:288-295 | a preamble handled after `send` has begun empties the buffer: the last six octets of 65 are never sent |
| `Rf22.NothingRestarted` | arduino/libraries/RadioHead/RH_RF22.cpp:204-295 | a FIFO error after that restarts with a packet of no octets |
| `Rf22Driver.RhRf22.OnInterrupt` | arduino/libraries/RadioHead/RH_RF22.cpp:179-296 | the handler on the fields and the buffer array |
| `Rf22Driver.RhRf22.SendMessage` | arduino/libraries/RadioHead/RH_RF22.cpp:586-626 | `send` on the fields, once no transmission is under way |
| `Rf22Driver.RhRf22.SendFragment` | arduino/libraries/RadioHead/RH_RF22.cpp:629-642 | the next fragment goes to the FIFO |
| `Rf22Driver.RhRf22.ReadFragment` | arduino/libraries/RadioHead/RH_RF22.cpp:646-654 | 55 octets come from the FIFO, if they fit |
| `Rf22Driver.RhRf22.Receive` | arduino/libraries/RadioHead/RH_RF22.cpp:544-560 | `recv` copies the message, cut to the caller's room, and clears it |
| `Mqtt.LengthRoundTrip` | arduino/libraries/Adafruit_MQTT_Library/Adafruit_MQTT.cpp:224-267 | the reader gets back every remaining length of up to three octets, so every 16-bit one, and refuses exactly the longer ones (section 2.2.3 of MQTT 3.1.1 allows four) |
| `Mqtt.ReadsPacket` | arduino/libraries/Adafruit_MQTT_Library/Adafruit_MQTT.cpp:224-267 | a packet that has a body and fits the buffer is read whole, and nothing after it |
| `Mqtt.ReadsPacketIff` | arduino/libraries/Adafruit_MQTT_Library/Adafruit_MQTT_Client.cpp:50-76 | of all packets, just these are, and those without a body that nothing follows |
| `Mqtt.LongPacketCut` | arduino/libraries/Adafruit_MQTT_Library/Adafruit_MQTT.cpp:224-267 | of a packet too long for the buffer the first 149 octets are read, and the others taken for the next packet |
| `Mqtt.PartialRead` | arduino/libraries/Adafruit_MQTT_Library/Adafruit_MQTT.cpp:224-267 | of a packet that arrives in part before the timeout, that part is taken for the packet |
| `Mqtt.PingSwallows` | arduino/libraries/Adafruit_MQTT_Library/Adafruit_MQTT_Client.cpp:50-76 | the answer to a ping is read together with everything behind it, past the end of the buffer if that is more than 148 octets |
| `Mqtt.StreamRoundTrip` | arduino/libraries/Adafruit_MQTT_Library/Adafruit_MQTT.cpp:636-684 | a stream of printed PUBLISH packets is taken apart into just these packets |
| `Mqtt.ShortParts` | arduino/libraries/Adafruit_MQTT_Library/Adafruit_MQTT.cpp:453-518 | the parser takes a packet of remaining length up to 127 apart into the topic, payload and id it was printed from |
| `Mqtt.PacketBytes` | arduino/libraries/Adafruit_MQTT_Library/Adafruit_MQTT.cpp:636-684 | the octets of a PUBLISH packet |
| `Mqtt.PublishedIsDelivered` | arduino/libraries/Adafruit_MQTT_Library/Adafruit_MQTT.cpp:453-518 | such a packet is read off the stream, found in the first subscription to its topic regardless of letter case, stored whole up to 100 octets and else cut to 99, and acknowledged with its own id at QoS 1, whatever earlier packets left in the buffer |
| `Mqtt.WholeDelivered` | arduino/libraries/Adafruit_MQTT_Library/Adafruit_MQTT.cpp:453-518 | what is delivered of a packet as long as its topic says depends on this packet alone |
| `Mqtt.StaleDelivered` | arduino/libraries/Adafruit_MQTT_Library/Adafruit_MQTT.cpp:453-518 | of a shorter one nothing is stored: a subscription that matches gets 99 octets that earlier packets left behind it |
| `Mqtt.PingRepeats` | arduino/libraries/Adafruit_MQTT_Library/Adafruit_MQTT.cpp:453-518 | so the answer to a ping delivers the message before it again, with 99 octets from its payload on |
| `Mqtt.RoomForZeroIff` | arduino/libraries/Adafruit_MQTT_Library/Adafruit_MQTT.cpp:497-504 | the stored payload leaves room for a terminating zero exactly when its length is not the limit itself |
| `Mqtt.AcknowledgedIff` | arduino/libraries/Adafruit_MQTT_Library/Adafruit_MQTT.cpp:300-326 | `publish` takes an acknowledgement for its packet's exactly when it carries the packet's id, over the wrap of the counter too |
| `Mqtt.AcknowledgedOnlyBy` | arduino/libraries/Adafruit_MQTT_Library/Adafruit_MQTT.cpp:300-326 | nothing but a four-octet acknowledgement packet is taken for one |
| `MqttClient.Client.PutLength` | arduino/libraries/Adafruit_MQTT_Library/Adafruit_MQTT.cpp:651-661 | the length loop writes the encoding of every length |
| `MqttClient.Client.PrintPublish` | arduino/libraries/Adafruit_MQTT_Library/Adafruit_MQTT.cpp:636-684 | the packet is in the buffer and the id counter advances at QoS above 0 |
| `MqttClient.Client.ReadLength` | arduino/libraries/Adafruit_MQTT_Library/Adafruit_MQTT.cpp:237-257 | the decoding loop on the buffer |
| `MqttClient.Client.Take` | arduino/libraries/Adafruit_MQTT_Library/Adafruit_MQTT_Client.cpp:50-76 | `readPacket` of the TCP client: `n` octets, or all that have arrived if they are fewer or `n` is 0 |
| `MqttClient.Client.ReadPacket` | arduino/libraries/Adafruit_MQTT_Library/Adafruit_MQTT.cpp:224-267 | `readFullPacket` on the buffer and the input, with what is left of earlier packets in the buffer |
| `MqttClient.Client.ReadSubscription` | arduino/libraries/Adafruit_MQTT_Library/Adafruit_MQTT.cpp:453-518 | the first subscription to the topic in the buffer is updated and the acknowledgement sent, whatever the packet's length |

## Left out

- Registers, SPI, I2C and pins, timer set-up, modem configuration, `printRegisters` and the push-to-talk pin.
- The other radio drivers (RF24, RF69, RF95, CC110, MRF89, NRF24, NRF51, NRF905): near copies of header handling and mode switching.
- Time: `millis`, `random` and `YIELD`. Waits are given by what arrives during them, timeouts happen at any moment.
- Noise and clock drift in RH_ASK: the end-to-end results are for a line at exactly eight samples a bit.
- AskDriver.RhAsk.Receive: asks that a validated message is still whole. `RH_ASK.cpp:438-449` turns the receiver on again while a message is uncollected, and a tick before `recv` may overwrite it.
- AskDriver.RhAsk.SendMessage: starts when no transmission is under way; waiting for one and channel activity detection inside `send` are not modelled.
- Rf22Driver.RhRf22.SendMessage: likewise.
- AskModem.EndToEndFromAnyPhase: excludes a receiver that is inside a frame after the first twelve training bits, because of what its register held before or of a frame already begun; after a quiet line this does not happen (`AskModem.EndToEndAfterSilence`), and in lock such a frame is dropped (`AskFramer.FalseStartDropped`).
- RH_Serial: resynchronisation after arbitrary garbage. A DLE received right after a DLE outside a frame goes to Idle (`RH_Serial.cpp:82-92`), so gaps between frames are free of DLE here.
- DatagramNode.RhReliable.SendtoWait: asks for fewer than 255 retries, since with 255 such a call might not return (`DatagramNode.GivesUpIff`).
- DatagramNet: the filter of last ids is taken to start at zero, and channels do not reorder or duplicate frames by themselves.
- RHRouter: the end-to-end id and flags are carried, not used; `deleteRouteTo` returns true for a stale slot too, and is modelled so, without a claim that a route was present.
- RHMesh: `peekAtMessage` on route responses (`RHMesh.cpp:103-111`), which skips the node after this one and reads one octet past the list; routes are proved sound for those learnt from requests. So also `doArp`, whose route is the first response's, and freedom from routing loops, which the code does not promise.
- MeshNode.RhMesh.HandleRequest: asks for an address length of one, as `RHMesh.h:139` demands, and at least three octets, as every request printed has; a shorter one makes the octet count at `RHMesh.cpp:193` wrap.
- Adafruit_GFX: text, fonts, bitmaps, buttons, fills, triangles, canvases.
- GfxLine.WriteLine: excludes a longer axis ending at 32767, where the loop does not stop (`GfxLine.StopsIff`), and differences that do not fit 16 bits.
- DrawLine.OnPanel: excludes what `GfxLine.WriteLine` excludes for slanted lines. Straight lines in a colour other than the three do not leave Bresenham's pixels; what they clear is stated instead.
- Adafruit_SSD1306, Adafruit_GFX, RTClib: `int` is taken to be wider than 16 bits, as on 32-bit boards. On a 16-bit `int` the sum compared with the width at `Adafruit_SSD1306.cpp:559` wraps too, and so does the sum at `RTClib.cpp:179` from a day count of 65530 on, so that the first wrong weekday is that of 31 May 2179.
- Calendar.Construct: excludes times before 2000 and those 2^31 seconds later or more, where the arithmetic leaves a 32-bit `long`.
- Calendar.OrderPreserved: from 2068 on the sum in `time2long` leaves a 32-bit `long`; the model takes the sum itself.
- RTClib: parsing of compiler dates, BCD conversion, time spans and the clock chips.
- RH_RF22: headers and the good and bad counters; the radio is a pair of queues with thresholds, and reading an empty one yields zeros. Preambles and overflows stay flagged until an interrupt is handled; the other flags are raised only in the mode they belong to, so the end of a packet that falls into the time when `send` holds interrupts off is not modelled.
- Rf22.SentInOrder: speaks of runs whose steps conserve what is sent, as `Rf22.ReceivedInOrder` of those that conserve what comes in; `Rf22.StepKeepsIff` says exactly which steps do, and runs into the others are shown.
- Adafruit_MQTT: sockets, the connect flow, callbacks, subscribe packets, QoS 2, and packets of remaining length over 127 in the parser, which reads the topic length at a fixed place.
- MqttClient.Client.PrintPublish: asks that the packet fits the buffer, which `publishPacket` leaves to its caller.
- MqttClient.Client.ReadSubscription: promises nothing once octets behind the buffer are written, or looked at for a topic or a payload that would end there.
- DatagramNet.NextKeeps: asks that the frames processed are fresh, which the octet-wide numbers do not promise by themselves (`DatagramNet.WrapLosesMessage`).
- PN532, NTPClient, EEPROM helpers, date strings, sketches, images and credentials.
