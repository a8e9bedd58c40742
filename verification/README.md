# Verified model of the face-recognition door controller

The system is a Raspberry Pi that recognises faces and an STM32 that drives the door, the
display and the lock, joined by a serial link.  This project models the parts whose failure
would be silent, in Dafny 4.11, and proves what they are for.  `dafny verify dfyconfig.toml`
checks all of it; no file needs anything outside this directory.

The serial link, end to end:

- `words.dfy`: 32-bit words that wrap, and the slots of a circular buffer.  Masking an index that
  has wrapped at 2^32 names the right slot because the capacity divides 2^32.
- `crc8.dfy`: the check byte (the packet error code of section 5.4 of SMBus 2.0).  The bit-serial
  register is the reference; the table loop and the unmasked loop refine it; the error-detection
  properties are proved about it.
- `crc8_division.dfy`: the same byte as the remainder of a division of polynomials over bits.
- `cobs.dfy`, `cobs_decode.dfy`: byte stuffing (Cheshire and Baker, "Consistent Overhead Byte
  Stuffing", IEEE/ACM Transactions on Networking, 1999).  Three encoder loops are proved equal
  to one definition by blocks; the strict and the lenient decoder are related exactly.
- `frames.dfy`, `parsers.dfy`: frames and the three byte-at-a-time parsers, C on the
  microcontroller, C++ on the Pi, Python in the simulator.
- `command_frames.dfy`: the bytes of the commands the Pi sends, written out.
- `ringbuffer.dfy`, `spsc.dfy`: the ring buffer, sequentially and cut into the steps of one
  producer and one consumer that run at the same time.
- `uart_rx.dfy`, `uart_tx.dfy`: circular receive DMA and chained transmit DMA.
- `rx_pipeline.dfy`: DMA, ring, drain loop, parser, timeout and dispatch together.

The kernel under it:

- `kernel_list.dfy`: the intrusive circular list with its pointers.
- `timers.dfy`, `timer_runs.dfy`: software timers over a tick that wraps, against unbounded time,
  and whole runs of the service task, looks and commands in any order.
- `queue.dfy`: queue storage, and the wake-up protocol with its lock counts.
- `message_buffer.dfy`, `message_steps.dfy`: stream and message buffers, sequentially and as
  interleaved steps of a writer and a reader.
- `event_groups.dfy`: event bits, waiters and the rendezvous.

Two algorithms on top:

- `lcd_line.dfy`: the line loop of the display, in 16-bit arithmetic.
- `door_tracker.dfy`, `door_rounds.dfy`, `door_announcements.dfy`, `door_loop.dfy`: the matching of
  faces to tracks and what tracks remember; one round of the loop as a step of values, confirmation
  and debouncing over every run; when a person is announced and when not; and the loop itself, proved
  to write what such a run sends.

How the model is built.  What the source updates in place is a class with the same fields; its
methods follow the source's branches and are proved against a function of the old state (`View`,
`Contents`, `Unread`) or against the property itself.  What runs at the same time is a state
machine over the atomic steps (`Step` or `Next`), an invariant that each step keeps, and a
theorem about every run.  Ghost counters without bound (bytes ever written, true time, epochs)
stand next to the 32-bit fields, which are proved equal to them modulo 2^32.  The two views are
tied to each other: the methods of the queue, the event group, the receiver, the transmitter and
the receiving task take exactly the steps of the state machines the run theorems are about; the ring
and the message buffer, whose operations are several steps there, go where those steps go when
nothing comes between (`Spsc.PutAloneIs`, `Spsc.Put`, `MessageSteps.SendAloneIs`, `MessageSteps.Send`
and their counterparts); and the service task and the tracking loop perform the traces their run
theorems quantify over (`TimerRuns.TaskRun`, `DoorLoops.DoorLoop.RunLoop`).

Where the code does not do what its design promises, the model follows the code, shows an input
on which the promise fails, and proves exactly when it is kept:

- A frame with CRC 0 never arrives, because the CRC stands outside the stuffed block and is taken
  for the delimiter (`Parsers.ZeroCrcFrameIsDropped`); there is one for every beginning of the data
  (`Parsers.OneLastByteIsLost`).  Of any list of frames exactly the others arrive
  (`Parsers.FramesArrive`, `Parsers.AllArriveIff`).
- The parser accepts a frame behind 72 bytes of noise without a delimiter
  (`Parsers.LongChunkIsNotTheEncoding`); what it accepts is told by `Parsers.Language` for chunks of
  every length.
- `tx_kick` compares unmasked indices, so a pending region that goes round the physical end
  runs past it (`UartTx.StraddlingKick`); `UartTx.KickFitsIff` is the condition for a kick and
  `UartTx.AllFitIff` for a run.
- `uart_dma_rx_flush` does not restart the DMA channel (`UartRx.FlushInStepIff`, `UartRx.FlushDeliversIff`),
  so that already after one arrival an old byte is delivered again (`UartRx.StaleByteAfterFlush`).
- The lock counts of a queue are signed bytes, and the assertion that guards them is compiled out:
  with 128 tasks or more a wake-up can be lost (`Queues.NeverLosesIff`).
- Resetting a queue wakes one sender, however many slots become free (`Queues.ResetKeepsIff`); every
  wake-up a run loses goes back to such a reset (`Queues.LossesComeFromResets`).
- Byte counts of a stream buffer wrap for buffers longer than 2^31 (`MessageBuffers.CountsExactIff`).
- `lcd_draw_line` is free of overflow for all lines with differences up to 10923 pixels and no
  further (`LcdLine.NoOverflowIff`).  Of the longer lines some overflow and some do not, a diagonal
  never; `LcdLine.FitsIff` says which, by a condition on the two differences, and
  `LcdLine.OverflowMisleads` that an overflow always leads to a wrong step.
- With `skipFrames` 1 no frame is looked at while a track is live (`DoorRounds.InfersIffSkipIsNotOne`),
  and nobody is ever announced (`DoorAnnouncements.SkipOneIsSilent`); with any other value somebody
  can be (`DoorAnnouncements.AnnouncesIff`).
- While a named face is not confirmed yet the decision is "no face" (`DoorAnnouncements.OthersIff`).
- A confirmed name is marked as announced even when debouncing or a closed port keeps it from being
  written (`DoorAnnouncements.MarkIff` against `DoorAnnouncements.IdentifyIff`), and then it is not
  announced until another result comes (`DoorAnnouncements.MarkedStaysSilent`);
  `DoorAnnouncements.ClosedPortSilences` is a run in which it never is.
- UNKNOWN and MULTIFACE are not repeated after the three seconds the code provides for it
  (`DoorRounds.StateCommandsAlternate`).
- The length of a converted name is cast to 16 bits before it is compared with 64, so a conversion
  of 65536 bytes or more would be cut instead of refused (`DoorRounds.EveryIdentifyIsConfirmed`).

## Model

| member | source | states |
|---|---|---|
| Words.PowerOfTwoTest | Stm32/Comms/ringbuffer.c:8 | the test `size & (size - 1)` of rb_init accepts exactly the sizes that divide 2^32, the fact all later index arithmetic rests on |
| Words.MaskIsRemainder | Stm32/Comms/ringbuffer.c:12 | masking with a power of two less one, defined bit by bit, is the remainder |
| Words.WrapThenSlot | Stm32/Comms/ringbuffer.c:24 | the slot of a free-running 32-bit index that has wrapped is the slot of the unbounded index |
| Crc8.TableIsBitwise | Stm32/Protocol/frame_protocol.c:7-24 | every entry of the lookup table is eight steps of the division register |
| Crc8.ComputeByTable | Stm32/Protocol/frame_protocol.c:26-32 | the table-driven loop computes the bit-serial CRC of data of any length |
| Crc8.ComputeUnmasked | Stm32/tools/gen_frame.py:7-13 | the loop whose register is never masked gives the same byte |
| Crc8.CrcAppend | Stm32/Protocol/frame_protocol.c:26-32 | the CRC of a concatenation continues from the CRC of its first part |
| Crc8.CrcLinear | Stm32/Protocol/frame_protocol.c:26-32 | the CRC is linear over exclusive or on data of equal length |
| Crc8.SameCrcIffDifferenceZero | Stm32/Protocol/frame_protocol.c:26-32 | two strings of equal length have the same CRC iff the CRC of their difference is 0 |
| Crc8.DetectsByteChange | Stm32/Protocol/frame_protocol.c:26-32 | changing any one byte of data of any length changes the CRC |
| Crc8.DetectsBurst | Stm32/Protocol/frame_protocol.c:26-32 | so does every burst of at most eight bits, also across two bytes |
| Crc8.DetectsOddFlips | Stm32/Protocol/frame_protocol.c:26-32 | and every odd number of flipped bits, wherever they are |
| Crc8.ZeroCrcIffLastByteIsCrc | Stm32/Protocol/frame_protocol.c:26-32 | a string has CRC 0 iff its last byte is the CRC of the rest |
| Crc8Division.CrcIsRemainder | Stm32/Protocol/frame_protocol.c:26-32 | the message times x^8, as a polynomial over bits, is a multiple of x^8 + x^2 + x + 1 plus the check byte |
| Crc8Division.RemainderIsUnique | Stm32/Protocol/frame_protocol.c:26-32 | a remainder of that division with exponents below 8 is the only one |
| Crc8Division.CrcIff | Stm32/Protocol/frame_protocol.c:26-32 | so a byte is the check byte iff it is what the division of the message times x^8 leaves: initial value, order of the bits and polynomial with it |
| Crc8Division.LeadingZeros | Stm32/Protocol/frame_protocol.c:28 | zero bytes in front do not change the check byte; of nothing it is 0 |
| Crc8Division.CheckValue | Stm32/Protocol/frame_protocol.c:26-32 | the check value of the standard: the digits from 1 to 9 give 0xF4 |
| Cobs.EncodeInto | Stm32/Protocol/frame_protocol.c:38-64 | the loop that patches code bytes in place writes the block-structured COBS encoding, touches nothing behind it, and returns its length truncated to 16 bits |
| Cobs.EncodePush | Linux/Model/src/uart_protocol.cpp:38-68 | the push-back encoder of the Pi gives the same bytes |
| Cobs.EncodeCountInPlace | Stm32/tools/gen_frame.py:15-30 | so does the encoder that keeps its counter in the output |
| Cobs.EncodeShortBlock | Stm32/Protocol/frame_protocol.c:38-64 | what stuffing does: a stretch of fewer than 254 nonzero bytes and the zero behind it become a code byte, one more than their number, and the stretch |
| Cobs.EncodeFullBlock | Stm32/Protocol/frame_protocol.c:38-64 | 254 nonzero bytes become the code byte 255 and the stretch, whatever follows |
| Cobs.EncodeLastBlock | Stm32/Protocol/frame_protocol.c:38-64 | a short stretch at the end gets its code byte as if a zero followed; with the other two this determines the encoding of every string |
| CobsDecode.DecodeOrEmpty | Linux/Model/src/uart_protocol.cpp:70-85 | the decoder of the Pi computes the strict decoding, and the empty vector for corrupt input |
| CobsDecode.DecodeOrNone | tools/uart_simulator.py:124-139 | the decoder of the simulator computes the strict decoding and tells corrupt input apart |
| CobsDecode.CopyBlock | Stm32/Protocol/frame_protocol.c:71-82 | one block of the firmware decoder: what is copied, where it stops at the end of the input and of the output |
| CobsDecode.DecodeInto | Stm32/Protocol/frame_protocol.c:66-88 | the firmware decoder computes the lenient decoding, writes nothing beyond the capacity, and returns the number of bytes, -1 for corrupt input and -2 for too little room |
| CobsDecode.EncodeIsZeroFree | Stm32/Protocol/frame_protocol.c:38-64 | an encoding contains no delimiter |
| CobsDecode.EncodeLength | Stm32/Protocol/frame_protocol.c:38-64 | an encoding of n bytes has n + 1 to n + n / 254 + 1 bytes |
| CobsDecode.RoundTrip | Linux/Model/src/uart_protocol.cpp:38-85 | decoding inverts encoding for payloads of every length, full blocks included |
| CobsDecode.CanonicalIff | Linux/Model/src/uart_protocol.cpp:70-85 | a decodable string is the encoding of what it decodes to iff it is nonempty, zero-free and does not end in a full block |
| CobsDecode.LenientIsStrictOnRepaired | Stm32/Protocol/frame_protocol.c:66-88 | the lenient decoder is the strict one on the input with the code byte of a truncated last block repaired, cut at the capacity |
| CobsDecode.OverflowNeedsMore | Stm32/Protocol/frame_protocol.c:66-88 | an overflow is reported only for input longer than the capacity, and without one the result does not depend on the capacity |
| CobsDecode.StrictImpliesLenient | Stm32/Protocol/frame_protocol.c:66-88 | whatever the strict decoder accepts, the lenient one decodes to the same bytes |
| CobsDecode.TruncatedEncoding | Stm32/Protocol/frame_protocol.c:66-88 | an encoding without its last byte: strict decoding fails unless the payload ends in zero, lenient decoding gives the payload without its last byte |
| Frames.EncodeFrame | Stm32/Protocol/frame_protocol.c:94-127 | the frame written is the stuffed command, direction, length (high byte first) and data, then their CRC and the delimiter, or nothing if the data or the buffer is too small; the rest of the buffer is untouched |
| Frames.EncodeFrameVector | Linux/Model/src/uart_protocol.cpp:91-112 | the Pi builds the same bytes, or none for data longer than 64 bytes |
| Frames.MakeFrame | Stm32/tools/gen_frame.py:32-36 | the frame generator builds the same bytes for any data its length field can hold |
| Frames.WireLength | Stm32/Protocol/frame_protocol.c:94-127 | a frame with n data bytes has n + 7 bytes on the wire and fits the parser buffer |
| Frames.WireDecodes | Stm32/Protocol/frame_protocol.c:188-262 | both decoders turn the bytes of a frame back into that frame |
| Frames.DecodesIffWire | Linux/Model/src/uart_protocol.cpp:114-134 | a zero-free string decodes to a frame at the Pi iff it is, with the delimiter, the encoding of that frame |
| Frames.StrictAcceptanceIsLenient | Stm32/Protocol/frame_protocol.c:188-262 | every frame the Pi accepts the firmware accepts identically |
| Frames.LenientAcceptanceIff | Stm32/Protocol/frame_protocol.c:188-262 | what the firmware accepts is exactly what the Pi would accept after the repair of a truncated last block |
| Frames.ZeroCrcRejected | Stm32/Protocol/frame_protocol.c:188-262 | a frame with CRC 0 is rejected by both ends; at the firmware, if the payload ends nonzero, the truncated payload passes the CRC test and only the length stops it |
| CommandFrames.EmptyWire | Linux/Model/src/uart_protocol.cpp:91-112 | the seven bytes of a frame without data |
| CommandFrames.NameWire | Linux/Model/src/uart_protocol.cpp:91-112 | every byte of a frame whose data contains no zero |
| CommandFrames.CommandBytes | Linux/Model/src/main.cpp:706-723 | the bytes on the wire of UNKNOWN, NOFACE and MULTIFACE, check bytes included |
| Parsers.FirmwareParser.Reset | Stm32/Protocol/frame_protocol.c:139-144 | the parser waits and the error flag is cleared |
| Parsers.FirmwareParser.CheckTimeout | Stm32/Protocol/frame_protocol.c:146-156 | an idle parser restarts the clock; a collecting one is reset iff at least 5 ticks have passed, across the wrap of the tick |
| Parsers.FirmwareParser.Feed | Stm32/Protocol/frame_protocol.c:158-266 | one byte makes exactly the step of the abstract parser with the lenient decoder, and sets the error flag exactly when a collected frame is rejected |
| Parsers.FirmwareParser.ProcessFrame | Stm32/Protocol/frame_protocol.c:188-262 | the checks behind the delimiter accept exactly what the lenient decoder and the CRC, length and size tests accept |
| Parsers.FirmwareParser.HadError | Stm32/Protocol/frame_protocol.c:268-273 | the flag is returned once and cleared |
| Parsers.DecodeFrameRaw | Linux/Model/src/uart_protocol.cpp:114-134 | the checks of the Pi accept exactly the strictly decoded frames |
| Parsers.PiParser.Feed | Linux/Model/src/uart_protocol.cpp:144-167 | one byte makes exactly the step of the abstract parser with the strict decoder |
| Parsers.DecodeFrameSimulated | tools/uart_simulator.py:163-187 | the checks of the simulator accept exactly the same frames as the Pi |
| Parsers.SimulatorParser.Feed | tools/uart_simulator.py:202-221 | the third parser makes the same step as the Pi's |
| Parsers.RunOverZeroFree | Stm32/Protocol/frame_protocol.c:164-185 | zero-free bytes never complete a frame, and every 72nd one empties the buffer |
| Parsers.Language | Linux/Model/src/uart_protocol.cpp:144-167 | after a zero-free chunk of any length the delimiter yields frame f iff what is left of the chunk, with the delimiter, is the encoding of f; what is left are its last bytes, as many as its length is modulo 72 |
| Parsers.LanguageOfShortChunks | Linux/Model/src/uart_protocol.cpp:144-167 | for chunks shorter than 72 bytes: iff the whole chunk with the delimiter is the encoding of f |
| Parsers.LongChunkIsNotTheEncoding | Linux/Model/src/uart_protocol.cpp:144-167 | the counterexample for longer chunks: a frame behind 72 bytes of noise without a delimiter is accepted |
| Parsers.FramesArrive | Stm32/Protocol/frame_protocol.c:158-266 | of any list of frames with data of at most 64 bytes exactly those whose CRC is not 0 are parsed, in order and each whole, at both ends |
| Parsers.AllArriveIff | Stm32/Protocol/frame_protocol.c:158-266 | so all frames of a list arrive iff no CRC is 0 |
| Parsers.DelimiterResynchronises | Stm32/Protocol/frame_protocol.c:158-266 | a delimiter brings the parser back to waiting from every state |
| Parsers.FramesArriveAfterNoise | Stm32/Protocol/frame_protocol.c:158-266 | after any noise ending in a delimiter, from any state, exactly the frames whose CRC is not 0 arrive, in order, behind what the noise yields |
| Parsers.ZeroCrcFrameIsDropped | Stm32/Protocol/frame_protocol.c:158-266 | a frame with CRC 0 is lost at both ends and leaves the parser waiting |
| Parsers.OneLastByteIsLost | Stm32/Protocol/frame_protocol.c:158-266 | the frames lost: whatever command, direction and all data but the last byte, exactly one last byte makes a frame that is lost at both ends, the CRC of what precedes it |
| Parsers.EmptyFrameIsLostIff | Stm32/Protocol/frame_protocol.c:158-266 | a frame without data is lost at both ends iff its direction is the CRC of its command |
| Parsers.Lockstep | Stm32/Protocol/frame_protocol.c:164-185 | on every byte stream the two parsers are in the same state at every byte, and the firmware emits what the Pi emits at that byte |
| Parsers.StrictFramesAmongLenient | Stm32/Protocol/frame_protocol.c:158-266 | over a whole stream the frames of the Pi are a subsequence of those of the firmware |
| RingBuffers.RingBuffer.Init | Stm32/Comms/ringbuffer.c:10-15 | a size that is not a power of two is refused and the object left alone |
| RingBuffers.RingBuffer.Available | Stm32/Comms/ringbuffer.c:79 | the 32-bit difference of the indices is the number of unread bytes, across index wrap |
| RingBuffers.RingBuffer.FreeSpace | Stm32/Comms/ringbuffer.c:80 | free space is capacity less unread bytes |
| RingBuffers.RingBuffer.IsEmpty | Stm32/Comms/ringbuffer.c:81 | equal indices mean that nothing is unread, across index wrap |
| RingBuffers.RingBuffer.IsFull | Stm32/Comms/ringbuffer.c:82 | the test of the 32-bit difference holds iff as many bytes as the capacity are unread |
| RingBuffers.RingBuffer.Flush | Stm32/Comms/ringbuffer.c:83 | nothing is unread and both indices are 0 |
| RingBuffers.RingBuffer.Put | Stm32/Comms/ringbuffer.c:17-34 | as many bytes as fit are appended, in two segments if needed, and no unread byte changes |
| RingBuffers.RingBuffer.Get | Stm32/Comms/ringbuffer.c:36-53 | the oldest bytes are returned and removed |
| RingBuffers.RingBuffer.Peek | Stm32/Comms/ringbuffer.c:55-70 | the oldest bytes are returned and stay |
| RingBuffers.RingBuffer.Discard | Stm32/Comms/ringbuffer.c:72-77 | the oldest bytes are removed; also rb_advance_tail |
| RingBuffers.RingBuffer.AdvanceHead | Stm32/Comms/ringbuffer.c:103-108 | bytes that arrived without rb_put are counted; on overrun the tail gives up exactly the oldest ones |
| RingBuffers.RingBuffer.ContigReadLen | Stm32/Comms/ringbuffer.c:89-94 | the longest prefix of the contents that does not go round the end of the storage |
| RingBuffers.RingBuffer.ContigWriteLen | Stm32/Comms/ringbuffer.c:96-101 | the free stretch behind the contents before the end of the storage |
| Spsc.StepKeepsSafe | Stm32/Comms/ringbuffer.c:17-53 | every step of either side (index snapshot, one byte copied, index published) keeps indices, unread bytes and histories right |
| Spsc.EveryInterleavingIsSafe | Stm32/Comms/ringbuffer.c:17-53 | under every interleaving of one producer and one consumer the bytes got are a prefix of the bytes put, and head - tail never exceeds the capacity, for ever and across index wrap |
| Spsc.PutAloneIs | Stm32/Comms/ringbuffer.c:17-34 | the steps of a put that is not interrupted together take what fits, write it round from the head, publish it, and change nothing else |
| Spsc.GetAloneIs | Stm32/Comms/ringbuffer.c:36-53 | the steps of a get that is not interrupted together deliver the oldest bytes, as many as are wanted and there, and change nothing else |
| Spsc.Put | Stm32/Comms/ringbuffer.c:17-34 | rb_put on the ring object leads to the state those steps lead to |
| Spsc.Get | Stm32/Comms/ringbuffer.c:36-53 | rb_get on the ring object leads to the state those steps lead to, and returns what they deliver |
| UartRx.DeltaIsArrivals | Stm32/Comms/uart_dma.c:157-172 | the delta computed from two readings of CNDTR is the number of bytes that arrived iff that number is less than the capacity |
| UartRx.UpdateTracks | Stm32/Comms/uart_dma.c:157-172 | with fewer than capacity arrivals since the last call, rx_update brings the ring in step with the stream |
| UartRx.ContentsAreTheLastBytes | Stm32/Comms/uart_dma.c:157-172 | after an overrun the ring holds exactly the last capacity bytes |
| UartRx.TakeTracks | Stm32/Comms/uart_dma.c:103-107 | the byte taken is the next byte of the stream as long as the DMA channel has not come round to it |
| UartRx.TakeManyTracks | Stm32/Comms/uart_dma.c:103-107 | a read of any length takes the next bytes of the stream, as many as are wanted and have been seen, as long as the DMA channel has not come round to them |
| UartRx.RestartTracks | Stm32/Comms/uart_dma.c:192-209 | the error handler restores the alignment from any state |
| UartRx.FlushInStepIff | Stm32/Comms/uart_dma.c:112 | a flush keeps ring and DMA index aligned iff the DMA index is 0 modulo the capacity |
| UartRx.FlushDeliversIff | Stm32/Comms/uart_dma.c:112 | after a flush the next byte is delivered correctly for every content of the storage iff the DMA index is 0 modulo the capacity |
| UartRx.StaleByteAfterFlush | Stm32/Comms/uart_dma.c:112 | the failure after a single arrival: one byte comes in, the ring is flushed, and instead of the next byte the old one is delivered again |
| UartRx.Receiver.RxUpdate | Stm32/Comms/uart_dma.c:157-172 | the method on the driver's fields performs the update step |
| UartRx.Receiver.Recv | Stm32/Comms/uart_dma.c:103-107 | the method on the driver's fields takes up to len bytes one after the other |
| UartRx.Receiver.OnError | Stm32/Comms/uart_dma.c:192-209 | the method on the driver's fields performs the restart step |
| UartRx.Receiver.RxFlush | Stm32/Comms/uart_dma.c:112 | the method zeroes the indices and nothing else |
| UartTx.KickFitsIff | Stm32/Comms/uart_dma.c:33-54 | the segment handed to DMA lies inside the storage iff the pending region does not straddle the physical end or meets the raw 32-bit wrap; otherwise tail < head and the length exceeds the contiguous space |
| UartTx.RawWrap | Stm32/Comms/uart_dma.c:49-53 | a region that meets the 32-bit wrap: the first segment ends there and the second is what lies behind |
| UartTx.EveryAcceptedByteOnce | Stm32/Comms/uart_dma.c:33-154 | over every interleaving of sends, DMA transfers and interrupts without a straddling kick, accepted bytes go over the wire once and in order, none is overwritten before it is sent, and pending bytes with no send in progress mean DMA is running |
| UartTx.AcceptsWhatFits | Stm32/Comms/ringbuffer.c:17-34 | in every sound state a send accepts the first bytes of its data, as many as the bytes not yet confirmed leave room for |
| UartTx.EverythingIsSent | Stm32/Comms/uart_dma.c:132-154 | from every sound state the channel and its interrupts, left alone, bring every accepted byte to the wire, if none of their kicks straddles the physical end |
| UartTx.SendIsTransmitted | Stm32/Comms/uart_dma.c:95-154 | a send therefore brings its data, all of it or as much as fits, to the wire behind everything accepted before |
| UartTx.StraddlingKick | Stm32/Comms/uart_dma.c:44-47 | a reachable state in which the kick runs two bytes past the end of a storage of four |
| UartTx.AllFitIff | Stm32/Comms/uart_dma.c:33-154 | over a run from any sound state, every segment handed to DMA lies inside the storage iff every kick satisfies the guard, so the guard excludes no run that stays inside |
| UartTx.Transmitter.TxKick | Stm32/Comms/uart_dma.c:33-54 | the method on the driver's fields performs the kick |
| UartTx.Transmitter.Send | Stm32/Comms/uart_dma.c:95-101 | as many bytes are accepted, from the first on, as the ring has room for, appended to its contents, and the channel is kicked if idle |
| UartTx.Transmitter.OnTxTc | Stm32/Comms/uart_dma.c:132-154 | the interrupt confirms the first segment and chains the second, or confirms the kick and starts the next |
| RxPipeline.NextKeepsFaithful | Stm32/User/main.c:82-142 | every arrival, interrupt, drain iteration and timer callback without overrun keeps parser and dispatched frames those of the bytes taken since the last reset; a callback five ticks or more after the last byte of an unfinished frame is such a reset |
| RxPipeline.FramesAreDispatched | Stm32/User/main.c:105-142 | end to end: for every interleaving, if noise ending in a delimiter and then any sendable frames arrived, the drained ring has dispatched exactly the frames whose CRC is not 0, in order, behind whatever the noise contained |
| RxPipeline.FramesAreDispatchedFromStart | Stm32/User/main.c:105-142 | the same from power-up without noise; all frames are dispatched iff no CRC is 0 |
| RxPipeline.QuietResets | Stm32/User/main.c:82-86 | a timer callback five ticks or more after the last byte taken leaves the parser waiting, whatever it was collecting |
| RxPipeline.FramesAreDispatchedAfterQuiet | Stm32/User/main.c:82-142 | end to end with timeouts: whatever came before, once the timer has come five ticks or more after the last byte taken, the frames taken next are dispatched behind what was dispatched, exactly those whose CRC is not 0, with no delimiter before them |
| RxPipeline.EverythingCanBeTaken | Stm32/User/main.c:105-142 | from every state without overrun one interrupt and enough drain iterations take all that has arrived |
| RxPipeline.UartTask.ByteComesIn | Stm32/Comms/uart_dma.c:157-172 | a byte stored by the DMA channel is the arrival step of the run theorems |
| RxPipeline.UartTask.OnInterrupt | Stm32/Comms/uart_dma.c:157-172 | the receive interrupts are the interrupt step |
| RxPipeline.UartTask.OnFrameTimer | Stm32/User/main.c:82-86 | the timer callback is the timeout step: from five ticks after the last byte on the parser waits, before that it is left alone |
| RxPipeline.UartTask.DrainOne | Stm32/User/main.c:125-132 | one iteration of the drain loop on the objects of the driver and the parser is the step that the run theorem interleaves with everything else |
| RxPipeline.UartTask.Drain | Stm32/User/main.c:125-132 | with nothing arriving meanwhile the loop ends with an empty ring, has fed exactly its contents to the parser, and the tick of the last byte is remembered |
| KernelList.List.constructor | Stm32/FreeRTOS/list.c:49-86 | a new list is a ring of its end marker |
| KernelList.List.LinkAfter | Stm32/FreeRTOS/list.c:201-210 | the four link assignments keep the ring, circular both ways, with the item behind the iterator |
| KernelList.List.ScanFor | Stm32/FreeRTOS/list.c:161-197 | the insertion scan ends and finds the place behind all values not greater, at the latest before the end marker |
| KernelList.List.Insert | Stm32/FreeRTOS/list.c:139-213 | the item is inserted at that place, the count, index and containers stay right |
| KernelList.List.InsertEnd | Stm32/FreeRTOS/list.c:105-136 | the item becomes the last one before the index, wherever the index stands |
| KernelList.List.Unlink | Stm32/FreeRTOS/list.c:217-247 | exactly the item goes, from any position; an index pointing at it moves to its predecessor |
| KernelList.ListRemove | Stm32/FreeRTOS/list.c:217-247 | the item is found through its container and leaves it |
| KernelList.InsertKeepsSorted | Stm32/FreeRTOS/list.c:139-213 | insertion keeps the values sorted, behind equal ones (stable) |
| KernelList.RemoveKeepsSorted | Stm32/FreeRTOS/list.c:217-247 | removal keeps the values sorted |
| Timers.InsertDecision | Stm32/FreeRTOS/timers.c:890-931 | for every period and every command less than 2^32 ticks old the four-way comparison of wrapped times agrees with true time: process now iff the expiry has passed, else the list of the expiry's epoch |
| Timers.ChangePeriodNeverDue | Stm32/FreeRTOS/timers.c:1034-1047 | changing the period never asks for processing at once |
| Timers.OneCallbackPerPeriod | Stm32/FreeRTOS/timers.c:695-711 | a timer that is on schedule and not due has had exactly one callback for each whole period since its start |
| Timers.EpochAfter | Stm32/FreeRTOS/timers.c:867-887 | for samples less than 2^32 ticks apart the epoch has advanced by one exactly when the tick has gone down |
| Timers.TimerService.Create | Stm32/FreeRTOS/timers.c:417-445 | a new timer is dormant and in no list |
| Timers.TimerService.InsertInActiveList | Stm32/FreeRTOS/timers.c:890-931 | the timer enters the list of its expiry's epoch, sorted, or the call answers that it is due, and then nothing has changed |
| Timers.TimerService.ReloadTimer | Stm32/FreeRTOS/timers.c:695-711 | one callback for each period already passed, then insertion at the first expiry after now: no drift |
| Timers.TimerService.ProcessExpired | Stm32/FreeRTOS/timers.c:714-741 | the head of the current list is taken out, an auto-reload timer rescheduled, a one-shot timer made dormant, and the callbacks counted |
| Timers.TimerService.SwitchLists | Stm32/FreeRTOS/timers.c:1089-1111 | the loop over the old list ends, processes what is left as of the last tick of the epoch, and the lists change places in the next epoch |
| Timers.TimerService.SampleTimeNow | Stm32/FreeRTOS/timers.c:867-887 | with samples at least once per 2^32 ticks, or no timer in a list, the current list is again of the present epoch; without a wrap nothing changes, and with one exactly the callbacks due at the last tick of the epoch before are made |
| Timers.TimerService.GetNextExpireTime | Stm32/FreeRTOS/timers.c:840-864 | the first expiry of the current list, or 0 |
| Timers.TimerService.ProcessTimerOrBlock | Stm32/FreeRTOS/timers.c:778-837 | without a wrap the task processes iff the head of the list is due, and then exactly the timer that expires first fires; it sleeps only when nothing is due, never past the earliest expiry, exactly until it if it is in this epoch, and without limit only if no timer is active |
| Timers.TimerService.CatchUp | Stm32/FreeRTOS/timers.c:744-775 | rounds while the tick stands still end in sleep; then every auto-reload timer has had one callback per elapsed period and a one-shot timer its callback iff its expiry has passed |
| TimerRuns.TaskRun | Stm32/FreeRTOS/timers.c:744-775 | the service task on any sequence of looks at the lists and commands from the queue, each at a tick of its own less than 2^32 after the last, makes a trace: a look switches the lists iff the tick has wrapped, else sleeps iff nothing is due, else fires the first timer due and nothing else; a command does what it says to its timer |
| TimerRuns.AgesThroughRun | Stm32/FreeRTOS/timers.c:744-1086 | a timer nobody commands only ages over any number of looks and commands for others, however often the tick wraps |
| TimerRuns.UpToDateAtEverySleep | Stm32/FreeRTOS/timers.c:744-837 | whenever the task goes to sleep, every timer not commanded since has had one callback for each whole period (auto-reload), its callback iff its expiry has passed (one-shot), none (dormant) |
| TimerRuns.EnoughLooksSleep | Stm32/FreeRTOS/timers.c:744-837 | the task does go to sleep: of looks at one tick, as many as timers are due and one more, and one again if the tick has wrapped before, the last one sleeps |
| TimerRuns.UpToDateAfterEnoughLooks | Stm32/FreeRTOS/timers.c:744-837 | so after that many looks at one tick, in every run, every timer not commanded since any earlier state has had exactly its callbacks |
| TimerRuns.CallbacksAfterStart | Stm32/FreeRTOS/timers.c:997-1026 | at every sleep after a start command the timer has had exactly the callbacks due since the command was issued, however long the command waited |
| TimerRuns.CallbacksAfterChangePeriod | Stm32/FreeRTOS/timers.c:1034-1047 | after a changed period: exactly the callbacks due, by the new period, since the command was processed |
| TimerRuns.NoCallbacksAfterStop | Stm32/FreeRTOS/timers.c:1028-1032 | from the stop command itself on, the timer has no callback in any state until it is commanded again |
| TimerRuns.NoCallbacksAfterDelete | Stm32/FreeRTOS/timers.c:1049-1078 | likewise a deleted timer; a freed one is never called again |
| Timers.TimerService.RemoveFromList | Stm32/FreeRTOS/timers.c:975-983 | the timer of a command leaves whichever list it is in |
| Timers.TimerService.ProcessCommand | Stm32/FreeRTOS/timers.c:934-1086 | a start counts from the moment it was issued and makes up missed callbacks; a stop or delete does not call its timer; change and delete do what they say; all other timers stay, or make the callbacks due at the last tick if the tick has wrapped; the invariant holds again |
| Queues.WriteSlotIsModular | Stm32/FreeRTOS/queue.c:318-325 | write slot == (slot last read + 1 + count) mod length |
| Queues.PushBack | Stm32/FreeRTOS/queue.c:2420-2434 | writing at the write slot appends to the deque |
| Queues.PushFront | Stm32/FreeRTOS/queue.c:2436-2448 | writing at the slot last read and stepping back prepends |
| Queues.PopFront | Stm32/FreeRTOS/queue.c:2476-2494 | stepping forward and reading removes the oldest item |
| Queues.StepKeepsInvariant | Stm32/FreeRTOS/queue.c:258-345 | every step of tasks and interrupts keeps what the lock counts owe to blocked receivers, any reset included, and what they owe to blocked senders unless it is a harmful reset |
| Queues.NeverLosesIff | Stm32/FreeRTOS/queue.c:1207-1320 | no run of any queue loses the wake-up of a receiver, and no run without a harmful reset the wake-up of a sender, iff the number of tasks is at most 127, what the signed byte of a lock count can hold |
| Queues.LossesComeFromResets | Stm32/FreeRTOS/queue.c:258-345 | a run that loses a wake-up contains a harmful reset: nothing was lost before the first one, and that one left a sender asleep |
| Queues.NobodySleepsOnWork | Stm32/FreeRTOS/queue.c:1605-1635 | with no woken task left to run, blocked receivers face an empty queue, whatever was reset, and blocked senders a full one, if no reset was harmful |
| Queues.ResetKeepsIff | Stm32/FreeRTOS/queue.c:326-345 | reset, which wakes one sender whatever becomes free, keeps the promise to blocked senders iff at most one is blocked or one more woken sender is enough |
| Queues.ResetLeavesASenderAsleep | Stm32/FreeRTOS/queue.c:326-345 | the failing state is reachable: two senders blocked on a full queue of two |
| Queues.Queue.constructor | Stm32/FreeRTOS/queue.c:303-370 | a new queue is empty, unlocked and has no blocked task |
| Queues.Queue.CopyDataToQueue | Stm32/FreeRTOS/queue.c:2393-2473 | an item sent to the back stands behind all others, one sent to the front before them, and overwriting leaves it alone in the queue |
| Queues.Queue.CopyDataFromQueue | Stm32/FreeRTOS/queue.c:2476-2494 | the oldest item is read and the read position steps |
| Queues.Queue.TrySend | Stm32/FreeRTOS/queue.c:973-1075 | the critical section of a send: iff there is room the item is queued, behind, before or instead of the others as its position says, and one receiver is woken; otherwise the contents stay |
| Queues.Queue.TryReceive | Stm32/FreeRTOS/queue.c:1534-1576 | the critical section of a receive: the oldest item, and one sender is woken |
| Queues.Queue.TryPeek | Stm32/FreeRTOS/queue.c:1908-1950 | the contents stay, the oldest item is returned, and the next receiver is woken for it |
| Queues.FirstInFirstOut | Stm32/FreeRTOS/queue.c:2393-2494 | on any queue that nobody has locked, over any posts to the back and receives by tasks and interrupts: what comes out is what was there and then what was accepted, in that order, and the queue holds the rest; a post is accepted iff there is room |
| Queues.Queue.SendFromInterrupt | Stm32/FreeRTOS/queue.c:1167-1330 | the item is queued as by a task; on an unlocked queue a receiver is woken, on a locked one the wake-up is only counted, capped at the number of tasks and stored in a signed byte |
| Queues.Queue.ReceiveFromInterrupt | Stm32/FreeRTOS/queue.c:2039-2130 | the same on the receiving side |
| Queues.Queue.LockQueue | Stm32/FreeRTOS/queue.c:258-270 | both counts are set to 0 unless already locked |
| Queues.Queue.MustBlock | Stm32/FreeRTOS/queue.c:1605-1612 | the second look at the locked queue decides whether the task blocks |
| Queues.Queue.PlaceOnList | Stm32/FreeRTOS/queue.c:1126 | the task that has seen the queue full or empty joins the blocked ones, the step of the protocol |
| Queues.Queue.GiveUp | Stm32/FreeRTOS/queue.c:1152-1163 | the task whose time is up while the queue is locked only unlocks it |
| Queues.Queue.ExpireWait | Stm32/FreeRTOS/queue.c:1121-1163 | a blocked task whose time is up leaves its side of the waiting ones and nothing else changes |
| Queues.Queue.UnlockTransmit | Stm32/FreeRTOS/queue.c:2497-2582 | the counted posts are repaid one by one while a receiver is blocked |
| Queues.Queue.UnlockReceive | Stm32/FreeRTOS/queue.c:2584-2614 | the counted receives are repaid one by one while a sender is blocked |
| Queues.Queue.ResetQueue | Stm32/FreeRTOS/queue.c:303-370 | the queue is empty and unlocked, and one blocked sender is woken |
| MessageBuffers.CountsExactIff | Stm32/FreeRTOS/stream_buffer.c:754-788 | bytes and spaces computed in 32 bits are exact for all index positions iff the length is at most 2^31 |
| MessageBuffers.FirstMessage | Stm32/FreeRTOS/stream_buffer.c:1279-1331 | the first four bytes give the length of the oldest message, least significant byte first, and it follows them |
| MessageBuffers.EncodedIsInjective | Stm32/FreeRTOS/stream_buffer.c:1003-1053 | the stored bytes determine the messages |
| MessageBuffers.StreamBuffer.constructor | Stm32/FreeRTOS/stream_buffer.c:332-420 | one byte more than asked for is allocated and the buffer is empty |
| MessageBuffers.StreamBuffer.Bytes | Stm32/FreeRTOS/stream_buffer.c:1569-1587 | the distance from tail to head, going round |
| MessageBuffers.StreamBuffer.Spaces | Stm32/FreeRTOS/stream_buffer.c:754-788 | bytes and spaces add up to one less than the length |
| MessageBuffers.StreamBuffer.WriteBytes | Stm32/FreeRTOS/stream_buffer.c:1479-1522 | the two-part copy writes exactly the data, going round, and returns the index behind it |
| MessageBuffers.StreamBuffer.ReadBytes | Stm32/FreeRTOS/stream_buffer.c:1525-1566 | the two-part copy reads exactly the bytes going round |
| MessageBuffers.StreamBuffer.Send | Stm32/FreeRTOS/stream_buffer.c:808-940 | a message goes in whole iff it fits with its length word, an empty message not at all; a stream takes what fits |
| MessageBuffers.StreamBuffer.SendMessage | Stm32/FreeRTOS/stream_buffer.c:1003-1053 | as above, also that the length word of an empty message disturbs nothing unread |
| MessageBuffers.StreamBuffer.SendStream | Stm32/FreeRTOS/stream_buffer.c:1003-1053 | min(data, space) bytes are appended |
| MessageBuffers.StreamBuffer.Receive | Stm32/FreeRTOS/stream_buffer.c:1056-1169 | the oldest message exactly, iff the destination has room for it; otherwise nothing is consumed |
| MessageBuffers.StreamBuffer.ReceiveMessage | Stm32/FreeRTOS/stream_buffer.c:1279-1331 | as above, for the reading function itself |
| MessageBuffers.StreamBuffer.NextMessageLength | Stm32/FreeRTOS/stream_buffer.c:1172-1213 | the length of the oldest message, or 0 |
| MessageSteps.StepKeepsSafe | Stm32/FreeRTOS/stream_buffer.c:1003-1053 | every step of writer and reader (one byte, one decision, one index published) keeps records whole |
| MessageSteps.EveryInterleavingKeepsMessages | Stm32/FreeRTOS/stream_buffer.c:1003-1053 | under every interleaving of one writer and one reader the messages received are the first ones sent, whole and in order, and the buffer holds exactly the records of the others |
| MessageSteps.SendCanFinish | Stm32/FreeRTOS/stream_buffer.c:1003-1053 | a send that found space can be finished from every reachable state, and then its message is there |
| MessageSteps.ReceiveCanFinish | Stm32/FreeRTOS/stream_buffer.c:1279-1331 | a receive can be finished: the oldest message with room for it, and nothing consumed without |
| MessageSteps.SendAloneIs | Stm32/FreeRTOS/stream_buffer.c:1003-1053 | the steps of a send that is not interrupted together store the message iff it is not empty and fits with its length word, and otherwise leave the indices and all messages alone |
| MessageSteps.ReceiveAloneIs | Stm32/FreeRTOS/stream_buffer.c:1279-1331 | the steps of a receive that is not interrupted together deliver the oldest message iff there is one and the destination has room, and otherwise change nothing |
| MessageSteps.Send | Stm32/FreeRTOS/stream_buffer.c:808-940 | xStreamBufferSend on the buffer object leads to the state those steps lead to |
| MessageSteps.Receive | Stm32/FreeRTOS/stream_buffer.c:1056-1169 | xStreamBufferReceive on the buffer object leads to the state those steps lead to, and returns what they deliver |
| EventGroups.LeftIff | Stm32/FreeRTOS/event_groups.c:547-647 | exactly the waiters whose condition is not met stay in the list |
| EventGroups.ClearedIff | Stm32/FreeRTOS/event_groups.c:547-647 | a bit is cleared iff some woken clear-on-exit waiter asked for it |
| EventGroups.WakeIff | Stm32/FreeRTOS/event_groups.c:547-647 | a waiter wakes iff its condition is met, and receives the bits that met it, whatever other waiters clear |
| EventGroups.SetLeaves | Stm32/FreeRTOS/event_groups.c:547-647 | setting leaves (old or set) less exactly the masks of woken clear-on-exit waiters |
| EventGroups.SetWakes | Stm32/FreeRTOS/event_groups.c:547-647 | whom setting wakes: exactly the waiters whose condition the old and new bits together meet leave the list, each with those bits in its list item before any clearing; the others keep their order |
| EventGroups.MetIff | Stm32/FreeRTOS/event_groups.c:778-812 | a wait condition with its control bits holds iff all, or any, of the bits waited for are set |
| EventGroups.SyncLeaves | Stm32/FreeRTOS/event_groups.c:185-248 | a rendezvous leaves the old and set bits less those it waited for, if all were there, and less those that woken waiters asked to be cleared |
| EventGroups.RendezvousClears | Stm32/FreeRTOS/event_groups.c:205-248 | the last task of a rendezvous leaves none of its bits behind and no waiter it satisfied |
| EventGroups.StepKeepsInvariant | Stm32/FreeRTOS/event_groups.c:185-501 | set, clear, wait, sync, timeout and resumption keep that no blocked waiter's condition is met and woken waiters hold values that meet theirs |
| EventGroups.NobodyWaitsInVain | Stm32/FreeRTOS/event_groups.c:185-647 | the same in every reachable state |
| EventGroups.EventGroup.TestItem | Stm32/FreeRTOS/event_groups.c:584-606 | masking control bits away decides the waiter's condition |
| EventGroups.EventGroup.SetBits | Stm32/FreeRTOS/event_groups.c:547-647 | the walk over the list, with removals on the way and clearing at the end, has the effect above |
| EventGroups.EventGroup.ClearBits | Stm32/FreeRTOS/event_groups.c:472-501 | the bits go and the old value is returned |
| EventGroups.EventGroup.TestWaitCondition | Stm32/FreeRTOS/event_groups.c:778-812 | any or all of the bits waited for |
| EventGroups.EventGroup.WaitBits | Stm32/FreeRTOS/event_groups.c:312-403 | a task blocks iff it may and its condition is not met; otherwise it gets the old value and clears on exit |
| EventGroups.EventGroup.Sync | Stm32/FreeRTOS/event_groups.c:185-248 | the bits are set, and the task passes iff all bits waited for were there with its own, before any clearing |
| EventGroups.EventGroup.ResumeWait | Stm32/FreeRTOS/event_groups.c:405-460 | a woken task returns bits that met its condition; a timed-out one the present bits, clearing if its condition has come true since |
| EventGroups.EventGroup.ExpireWait | Stm32/FreeRTOS/event_groups.c:405-460 | a task whose time is up leaves the list, with what it waited for; the bits stay |
| LcdLine.NearestIff | Stm32/BSP/LCD/lcd.c:658-674 | exactly one pixel per step is within half a pixel of the ideal line (half a pixel itself only on the side of the start) |
| LcdLine.NearestRuns | Stm32/BSP/LCD/lcd.c:658-674 | the nearest pixels start and end at the ends of the line and move at most one pixel on the minor axis per step |
| LcdLine.Advance | Stm32/BSP/LCD/lcd.c:670-672 | stepping the minor axis exactly when the error would exceed half a pixel gives the nearest pixel again |
| LcdLine.HalfwayPixels | Stm32/BSP/LCD/lcd.c:658-674 | where two pixels are equally near, the one nearer to the start is drawn, so a line and its reverse can differ |
| LcdLine.NoOverflowIff | Stm32/BSP/LCD/lcd.c:660-670 | e2 fits in 16 bits for all lines with differences up to a bound iff the bound is at most 10923 |
| LcdLine.FitsIff | Stm32/BSP/LCD/lcd.c:660-670 | line by line: e2 fits in 16 bits at every step iff three times the longer difference less twice the shorter one, less their greatest common divisor (twice it, if it goes an even number of times into the longer), is at most 0x7FFF, or 0x8000 for a steep line |
| LcdLine.OverflowMisleads | Stm32/BSP/LCD/lcd.c:669-672 | and where e2 does not fit, its wrapped value makes the loop take another step than the true one would |
| LcdLine.DrawLine | Stm32/BSP/LCD/lcd.c:658-674 | the loop ends and draws exactly max(dx, dy) + 1 pixels, the nearest one of each step, from the first end to the second |
| DoorTracker.GreedyIsOneToOne | Linux/Model/src/main.cpp:573-591 | no detection is given to two tracks |
| DoorTracker.GreedyIsUnique | Linux/Model/src/main.cpp:573-591 | the matching rule determines the matching |
| DoorTracker.BestTrackIff | Linux/Model/src/main.cpp:573-591 | a detection goes to a track iff no detection before it has the track and it is the first of those left that overlap the detection most, by more than 0.3 |
| DoorTracker.BestFree | Linux/Model/src/main.cpp:579-589 | the inner loop finds the first of the best free tracks above 0.3, or none |
| DoorTracker.Match | Linux/Model/src/main.cpp:573-591 | the loops compute that matching and mark exactly the detections used |
| DoorTracker.StreakIs | Linux/Model/src/main.cpp:616-626 | the streak of a history: so many results at its end, and no more, gave the present name |
| DoorTracker.ObserveTells | Linux/Model/src/main.cpp:616-626 | recording a result keeps name and count of a track those of its history of results |
| DoorTracker.UpdatedIs | Linux/Model/src/main.cpp:594-631 | a matched track moves to its detection, is seen now, takes the name identified, counts it, and keeps its mark only for the same name; the others stay |
| DoorTracker.CreatedFor | Linux/Model/src/main.cpp:634-644 | new tracks are made from exactly the detections not used, in order, with fresh ids, no name and no mark |
| DoorTracker.FreshOf | Linux/Model/src/main.cpp:648-651 | exactly the tracks seen within the last two seconds stay, in their order |
| DoorRounds.HistoriesAreResults | Linux/Model/src/main.cpp:573-644 | a history holds nothing but results: a round adds to each live track what identify said of the detection matched to it, and nothing to any other; a new track starts without |
| DoorRounds.RoundKeeps | Linux/Model/src/main.cpp:523-723 | every round keeps that each live track says what its history says, extends histories, and forgets no announcement but for a different result |
| DoorRounds.EveryIdentifyIsConfirmed | Linux/Model/src/main.cpp:523-723 | over any run, each IDENTIFY was sent with the port open and exactly one track live, and its data is the converted name, byte for byte, that the last confirmFrames results of the track, and its very last, gave; only a conversion of 65536 bytes or more would be cut, at its length modulo 65536 |
| DoorRounds.IdentifiesAreSeparated | Linux/Model/src/main.cpp:523-723 | between two IDENTIFYs for one track lies an identification result of that track that gave another name or nobody |
| DoorRounds.NoFacesAreSpaced | Linux/Model/src/main.cpp:684-723 | over any run two NOFACE commands are more than two seconds apart |
| DoorRounds.NoFaceWaitsAtStart | Linux/Model/src/main.cpp:503-723 | and none comes in the first two seconds after the start |
| DoorRounds.StateCommandsAlternate | Linux/Model/src/main.cpp:684-723 | over any run two UNKNOWNs, or two MULTIFACEs, have another command than NOFACE between them, however much time passes |
| DoorRounds.SameNameNotWithinThreeSeconds | Linux/Model/src/main.cpp:684-723 | over any run an IDENTIFY for the same name is not repeated within three seconds unless another command than NOFACE was sent between |
| DoorRounds.InfersIffSkipIsNotOne | Linux/Model/src/main.cpp:564 | while a track is live frames are looked at iff skipFrames is not 1 |
| DoorRounds.LooksIff | Linux/Model/src/main.cpp:564 | of the pictures of a run those are looked at whose number is 1 modulo skipFrames, and while there is no track every odd one |
| DoorAnnouncements.IdentifyIff | Linux/Model/src/main.cpp:564-723 | a round sends IDENTIFY iff the port is open, one track is left, its last result is a name that its last confirmFrames results gave, it was not marked for that name, the converted name fits, and it is another command than the last or three seconds have passed |
| DoorAnnouncements.TracksOfRound | Linux/Model/src/main.cpp:564-651 | what becomes of every track and face in a round: a matched track is at its face and seen now, an unmatched one stays iff it was seen within two seconds, an unmatched face starts one, and nothing else is there longer |
| DoorAnnouncements.OthersIff | Linux/Model/src/main.cpp:564-723 | when a round sends UNKNOWN, MULTIFACE and NOFACE, exactly, and the whole frame each time; one named track that is not confirmed yet counts as no face |
| DoorAnnouncements.MarkIff | Linux/Model/src/main.cpp:666-670 | a round marks a track iff the same holds without port, length and debouncing: a mark is no proof of a command |
| DoorAnnouncements.MarkedStaysSilent | Linux/Model/src/main.cpp:523-723 | over any run, once the only track is marked for its name, written or not, no IDENTIFY comes for it until one of its results gives another name or nobody |
| DoorAnnouncements.ClosedPortSilences | Linux/Model/src/main.cpp:684-723 | a run that goes wrong: the port is closed up to the round that confirms a person and open from then on; however long the person stays, nothing is sent |
| DoorAnnouncements.OpenPortAnnounces | Linux/Model/src/main.cpp:684-723 | on the same pictures with the port open in the confirming round the person is announced in it |
| DoorAnnouncements.SkipOneIsSilent | Linux/Model/src/main.cpp:564 | with skipFrames 1 no run from the start ever sends IDENTIFY, whatever confirmFrames is |
| DoorAnnouncements.AnnouncesIff | Linux/Model/src/main.cpp:564-723 | for a face that the overlap finds again and a name that fits, some run from the start sends IDENTIFY iff skipFrames is not 1 |
| DoorLoops.DoorLoop.constructor | Linux/Model/src/main.cpp:497-504 | no tracks, no command remembered, and the clocks of the debouncing at the start |
| DoorLoops.DoorLoop.Infer | Linux/Model/src/main.cpp:564-645 | the loops make the tracks, ids and histories those after one inference with the greedy matching |
| DoorLoops.DoorLoop.UpdateMatched | Linux/Model/src/main.cpp:594-631 | each matched track is updated and its history gains the result of its detection, the others stay |
| DoorLoops.DoorLoop.CreateUnmatched | Linux/Model/src/main.cpp:634-644 | each unused detection gets a new track with a fresh id and an empty history |
| DoorLoops.DoorLoop.RemoveStale | Linux/Model/src/main.cpp:648-651 | the loop that erases drops exactly the tracks last seen more than two seconds ago; the others keep their order |
| DoorLoops.DoorLoop.Decide | Linux/Model/src/main.cpp:654-681 | a name is handed on iff exactly one track is live, confirmed, named and not marked; it is marked then, written or not |
| DoorLoops.DoorLoop.Report | Linux/Model/src/main.cpp:692-723 | which command is written, exactly when and with which bytes of the converted name, and each of the three things the debouncing remembers; a name of more than 64 converted bytes is never written |
| DoorLoops.DoorLoop.NextFrame | Linux/Model/src/main.cpp:564-723 | one pass of the loop makes the round from the old state on this picture and writes exactly the bytes of the frame the round sends (UNKNOWN, NOFACE and MULTIFACE written out), an IDENTIFY only for a confirmed track and with its converted name |
| DoorLoops.DoorLoop.RunLoop | Linux/Model/src/main.cpp:523-723 | the loop on any pictures performs a run of rounds on exactly them and writes exactly the bytes of their frames, so that the theorems about runs speak of what is written |

## Left out

- Parsers.Language: for chunks of 72 zero-free bytes or more the statement is about what the parser still holds, since the buffer is emptied on the way; `Parsers.LanguageOfShortChunks` and the counterexample `Parsers.LongChunkIsNotTheEncoding` say why.
- UartTx.EveryAcceptedByteOnce: for runs none of whose kicks straddles the physical end, since the property fails otherwise; the guard is checked state by state with `UartTx.GoodKick`, and by `UartTx.AllFitIff` it is satisfied by every run whose segments stay inside the storage.
- RxPipeline.FramesAreDispatched: for runs without overrun, line error or byte timeout, each of which loses bytes by design; `RxPipeline.FramesAreDispatchedAfterQuiet` is about runs with timeouts.
- RxPipeline.UartTask.ByteComesIn: the error interrupt, which restarts reception, is `UartRx.Receiver.OnError` and no event of these runs.
- UartTx.EverythingIsSent: no further send comes in the meantime; a straddling kick is excluded as in `UartTx.EveryAcceptedByteOnce`.
- Queues.FirstInFirstOut: nobody blocks and the queue is not locked; on a locked queue the contents change as `Queues.Queue.SendFromInterrupt` and `Queues.Queue.ReceiveFromInterrupt` say.
- RxPipeline.UartTask.Drain: nothing arrives and no interrupt comes during the loop; `RxPipeline.UartTask.DrainOne` is one iteration, and `RxPipeline.FramesAreDispatched` is about the iterations with anything between them.
- Spsc.Put: without a step of the other side in between, likewise Spsc.Get; the steps with interruptions are the subject of `Spsc.EveryInterleavingIsSafe`.
- UartTx.Transmitter.Send: without an interrupt between rb_put and the test of idle; `UartTx.EveryAcceptedByteOnce` covers the interruption.
- Queues.Queue.TrySend: items of size 0 (semaphores and mutexes), queue sets and priority inheritance; waiting tasks are counted, not ordered by priority.
- Queues.NeverLosesIff: the half about senders is for runs whose resets are harmless, since a harmful reset loses a wake-up (`Queues.ResetKeepsIff`, `Queues.LossesComeFromResets`); the half about receivers is for all runs. A task that is deleted or suspended after being woken, and tasks created while the queue is locked, are not modelled.
- Queues.StepKeepsInvariant: for a harmful reset it promises nothing to blocked senders, for the same reason.
- Queues.NobodySleepsOnWork: after a harmful reset it promises nothing to blocked senders, for the same reason.
- Queues.Queue.CopyDataToQueue: items of size 0 (semaphores and mutexes), where nothing is copied and the holder's priority is given back.
- Timers.TimerService.CatchUp: the tick stands still while the rounds make up for it; `TimerRuns.UpToDateAtEverySleep` is about rounds at different ticks with commands between.
- TimerRuns.TaskRun: one command or look per action, so a command that arrives is processed before the next look or not, in any order; samples are less than 2^32 ticks apart, since a missed wrap cannot be seen. How often the task gets to look at one tick is up to the scheduler.
- Timers.TimerService.ProcessCommand: pended function calls; a command for a timer that does not exist; a period of 0, which the source's own assertion excludes; the queue the commands come through.
- Timers.TimerService.Create: the service task's lists are sequences here; `KernelList` proves that the pointer list acts as the same insertion and removal.
- MessageBuffers.StreamBuffer.Send: waiting for space and notification of the other side.
- MessageBuffers.StreamBuffer.Receive: waiting for data, the trigger level, batching buffers and notification of the other side.
- MessageSteps.Send: without a step of the reader in between, likewise MessageSteps.Receive without one of the writer; `MessageSteps.EveryInterleavingKeepsMessages` covers the interruptions.
- MessageSteps.EveryInterleavingKeepsMessages: the double read of the tail in the space count, which is one step here.
- EventGroups.EventGroup.SetBits: words are the sets of their bit numbers; the scheduler calls around it are single steps.
- DoorLoops.DoorLoop.NextFrame: the score of two boxes, the face detector, identify and the name conversion are parameters; times are real numbers, read once per round; exceptions in the middle of a round, the heartbeat and the receiver of acknowledgements.
- LcdLine.DrawLine: lines that overflow, which are those that `LcdLine.FitsIff` excludes, where the loop leaves the line; differences above 32767, which the source's own 16-bit conversion of the difference changes; the panel registers behind a pixel.
- LcdLine.FitsIff: differences above 32767, as above.
- Cobs.EncodeInto: the buffer has room for the encoding, as its only caller provides.
- Registers, interrupt controller, clocks, GPIO, SPI and FSMC set-up, fonts and the LCD initialisation: hardware plumbing.
- tasks.c and the port layer: tasks.c is not part of this model; removing a task from an event list moves it to the woken ones, a critical section is one step, and no other task steps while the scheduler is suspended.
- The neural networks, alignment, cosine similarity and all floating point; the video server, logging, the web back end and front end, and the message client.
- Windows/sync.py: its retry bound and its restart guarantee are not what the code does, and there is no useful contract to prove.
- Stm32/BSP/NORFLASH/norflash.c: reads a sector into a buffer smaller than it; only the easy page splitting could be stated.
- tools/pi_simulator.py speaks a superseded protocol, and Stm32/FreeRTOS/croutine.c is compiled out.
- LED and display handlers and the alarm flags: simple state without a hard property.
