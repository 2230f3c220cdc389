# TELLER OBC: a verified model of the data paths

The onboard computer of the TELLER experiment receives histograms of scintillator pulses, sends
telemetry frames through a queue to its UARTs, stores data on an SD card, lets the ground station
download it in fragments, resets its current limiters after liftoff and runs a table of mission
events. This project models those parts in Dafny and proves what they promise, for every input and
every run.

Code that works in place is modelled in place: methods over arrays and classes with the fields of
the original. Each method is proved against a specification function, and the theorems are about
those functions and about runs of them. Bytes and machine words are bounded naturals; wrap-around is
written out wherever it happens. Clock readings, allocator and queue answers, media failures and
other things the environment decides are parameters, and the theorems hold for all their values.

## Modules

| files | what they are about |
|---|---|
| `Varuint.dfy`, `VaruintDecoder.dfy` | the variable-length integer code: batch encoder and decoder, incremental decoder |
| `Histogram.dfy`, `HistogramSize.dfy` | run-length packing of histograms, and that no packed form is shorter |
| `Scm.dfy`, `ScmStream.dfy` | the receiver of the scintillator module, and whole streams through it |
| `Fragmentation.dfy` | cutting a byte sequence into fragments, shared by the senders |
| `CrcCcitt.dfy`, `CrcXmodem.dfy`, `Crc7.dfy` and their tables, `CrcErrors.dfy` | the three table-driven checksums, and the errors that the first one detects |
| `Telemetry.dfy`, `Parser.dfy` | telemetry frames: serializer, byte-at-a-time parser, what it makes of streams |
| `TelemProtocol.dfy`, `Telem.dfy` | the outbound queue with any number of sending tasks, and the module that implements it |
| `Lcl.dfy` | automatic resets of the latching current limiters |
| `Scheduler.dfy` | the mission stopwatch and its event table |
| `Download.dfy` | raw storage and file downloads under back-pressure |
| `BlockCache.dfy`, `SdCard.dfy` | the block cache and the SD card driver around it |
| `UsbRing.dfy` | the receive ring of the USB serial port |
| `Calendar.dfy` | the day of the week |
| `Bits.dfy`, `Machine.dfy` | bit vectors and machine words |

A method that is one long function in the original is sometimes split here: for example the digit
loop of the varuint encoder is `Varuint.WriteDigits`, each case of the parser's switch is a method,
one round of a download loop is `SendFragment`, and everything that happens to a telemetry buffer
after its allocation is `Telem.Outbound.Post`.

## Findings

Some properties one would expect hold only under a condition. Each of these is proved, with the
exact condition where there is one.

- A varuint of six bytes or more can carry more than 32 bits, of which the decoder keeps the lower
  32. Decoding and re-encoding restores the bytes if and only if the number carried fits into 32 bits
  (`Varuint.EncodingOfDecode`); that is always so for at most five bytes (`Varuint.ShortFormsReencode`),
  and six bytes can violate it (`Varuint.LongFormLosesBits`).
- Counting the bins of a packed histogram ends if and only if every symbol is well formed; on a
  malformed one the loop stays where it is (`Histogram.CountingEndsIff`), as on the single byte `80`
  (`Histogram.CountingCanStick`).
- A histogram is sent if and only if its packed form fits into 512 bytes (`ScmStream.SentIffItFits`);
  counts of 4096 can prevent that (`ScmStream.LargeCountsAreLost`), counts below 4096 cannot
  (`ScmStream.SmallCountsFit`).
- A histogram is sent only when the next one starts, with the time of the packet marker that came last
  before that (`ScmStream.SentWithTheNext`). It carries the time of its own packet if and only if there
  is no packet marker until the next histogram, or the last one has the same time
  (`ScmStream.SentWithItsOwnTimeIff`). So the last histogram of a packet carries the time of the next
  packet (`ScmStream.LastHistogramIsStampedLate` is an example).
- A byte `CA` immediately before a frame makes the parser lose the frame, because after `CA CA` it
  waits for a first sync byte again. After noise that contains no `CA FE`, a frame is delivered if and
  only if the noise ends in an even number of bytes `CA` (`Parser.DeliveredIffEvenRun`);
  `Parser.SyncByteHidesFrame` is an example with a single one. After any
  bytes at all, if and only if the parser is idle (`Parser.DeliveredIffIdle`), and 70 bytes without
  `CA` always make it idle (`Parser.GapMakesIdle`).
- An LCL that is triggered at liftoff is left alone for the whole flight, unless the 32-bit clock reads
  zero at the call that notices the liftoff: then the next call notices it again
  (`Lcl.OffAtLiftoff`, `Lcl.OffForTheFlight`).
- A stuck LCL gets its ten resets within a minute and 31 gaps between calls, as long as no gap exceeds
  2^32 - 3000 ms (`Lcl.StuckGetsTenResets`). If gaps may be one millisecond longer, there is a run, from
  initialization on and of any length, in which the LCL is never reset (`Lcl.LongGapsCanStall`). So every
  stuck LCL is given up in the end if and only if gaps are within that bound (`Lcl.AlwaysGivenUpIff`).
- Fragment indices have eight bits: they identify the fragments of a download if and only if it is at
  most 15104 bytes long (`Download.IndicesAreExact`).
- Erasing a sector evicts only its first block from the cache, so another block of it can still be read
  with its old contents. Erasing is safe, whatever it leaves on the card, if and only if no block of the
  sector is cached except its first one (`SdCard.EraseIsSafeIff`); `SdCard.StaleRead` is an example.
  Reading is proved exact for everything that was not erased since it was last programmed.
- The USB endpoint is not made ready again after a packet that does not fit, so after one rejected
  packet nothing is received until the host configures the device again, however much is read
  (`UsbRing.RejectionIsFinal`). It is ready if and only if every packet fitted on arrival since it was
  last made ready (`UsbRing.ReadyIff`). `UsbRing.RejectionExample` is an example.
- Only the cached block can be read while the card does not answer, and an attempt to read any other
  one gives it up (`SdCard.ReadableWithoutCardIff`).
- An LCL seen on and nominal has its counter of resets cleared if and only if the 32-bit clock did not
  read zero at its last reset, and shows at least ten seconds since (`Lcl.RecoveryClearsIff`).

## Model

| member | source | states |
|---|---|---|
| Varuint.SizeOverlong | src/core/utils/varuint.c:125-134 | The threshold search finds the shortest size, plus the overlong count, in eight bits. |
| Varuint.Size | src/core/utils/varuint.c:120-123 | The size of the compact representation. |
| Varuint.CompactIsShortest | src/core/utils/varuint.h:46-54 | Whatever bytes carry a number, they are at least as many as its compact representation needs, so overlong counts are never negative. |
| Varuint.EncodeOverlong | src/core/utils/varuint.c:102-118 | Writes exactly the k-th overlong representation at the given place, touches nothing else and returns the place after it. |
| Varuint.Encode | src/core/utils/varuint.c:97-100 | The same for the compact representation. |
| Varuint.DecodeOverlong | src/core/utils/varuint.c:39-95 | Finds value, overlong count and length of what is encoded at the given place; on malformed input the read position stays. |
| Varuint.DecodeOfEncoding | src/core/utils/varuint.c:39-118 | Decoding an encoding followed by any bytes returns the value, the overlong count and the exact length. |
| Varuint.EncodingOfDecode | src/core/utils/varuint.c:39-118 | Re-encoding what was decoded restores the bytes if and only if the number they carry fits into 32 bits. |
| Varuint.ShortFormsReencode | src/core/utils/varuint.c:7-95 | Any decodable sequence of at most five bytes is restored by re-encoding. |
| Varuint.LongFormLosesBits | src/core/utils/varuint.c:72-90 | A sequence of six bytes for which it fails. |
| Varuint.PrefixFree | src/core/utils/varuint.h:34-54 | No encoding is a prefix of another one. |
| Varuint.CompactLayout | src/core/utils/varuint.h:14-29 | The bytes of the compact representation of every number, one by one, in the documented format. |
| Varuint.OverlongExamples | src/core/utils/varuint.h:46-54 | The documented overlong example, and the overlong markers of small numbers byte by byte. |
| Varuint.DecodeOutcome | src/core/utils/varuint.c:44-84 | Decoding succeeds if and only if the first byte is below 128 and as many bytes of at least 128 follow as it announces; it is malformed if and only if the first byte or one of those to come is of the wrong kind. |
| VaruintDecoder.Decoder.Feed | src/core/utils/varuint.c:153-184 | One byte of the incremental decoder: new state and whether a value is complete. |
| VaruintDecoder.Decoder.GetOverlong | src/core/utils/varuint.c:191-194 | The overlong count of the value just completed, in eight bits. |
| VaruintDecoder.IncrementalIsBatch | src/core/utils/varuint.c:153-184 | On every stream, the incremental decoder reports a value at the last byte if and only if the batch decoder, started at some position, consumes exactly the bytes from there to the end. |
| VaruintDecoder.IncrementalAgrees | src/core/utils/varuint.c:186-194 | Both then agree on value and overlong count, whatever state the stream was started in. |
| VaruintDecoder.Resynchronises | src/core/utils/varuint.c:153-194 | From any state, feeding an encoding reports nothing before its last byte and exactly its value and overlong count with it. |
| VaruintDecoder.ReportedBehindGarbage | src/core/utils/varuint.c:153-194 | Behind any garbage, an encoding is reported with its last byte, with its value and overlong count, and not before. |
| Histogram.MeasureRun | src/core/utils/histogram.c:71-76 | The inner loop finds the whole run of empty bins, up to the 32-bit limit. |
| Histogram.Pack | src/core/utils/histogram.c:59-89 | Writes exactly the packed form and returns its end. |
| Histogram.GetPackedSize | src/core/utils/histogram.c:4-34 | The size function agrees with the packer for every histogram. |
| Histogram.Unpack | src/core/utils/histogram.c:91-124 | Writes exactly the bins that the symbols stand for, up to the first malformed one. |
| Histogram.GetUnpackedSize | src/core/utils/histogram.c:36-57 | On well-formed input, the number of bins that unpacking yields, or zero if the last symbol sticks out. |
| Histogram.CountingEndsIff | src/core/utils/histogram.c:43-52 | The counting loop comes to its end if and only if every symbol is well formed. |
| Histogram.CountingCanStick | src/core/utils/histogram.c:43-52 | A single continuation byte, on which the loop never moves. |
| Histogram.EndsExactlyIff | src/core/utils/histogram.c:54-56 | On well-formed input, the count is accepted if and only if the loop reads exactly at the end after some round. |
| Histogram.UnpackOne | src/core/utils/histogram.c:105-120 | One varuint in front of anything: overlong ones are runs of empty bins, compact ones are bins, and what no bin can hold reads as zero. |
| Histogram.UnpackBehindPack | src/core/utils/histogram.c:91-124 | A packed histogram in front of any further symbols unpacks to its bins followed by theirs, and is well formed and ends exactly when they are and do. |
| Histogram.MalformedEndsUnpacking | src/core/utils/histogram.c:98-103 | Unpacking stops at a malformed symbol and keeps the bins in front of it. |
| Histogram.UnpackOfPack | src/core/utils/histogram.c:59-124 | Unpacking the packed form of any histogram, whatever follows it in memory, gives the histogram back; the packed form is well formed, ends exactly, and never makes the decoder look beyond the memory. |
| Histogram.PackedDetermines | src/core/utils/histogram.c:59-89 | Different histograms have different packed forms. |
| Histogram.PackingNeverExpands | src/core/utils/histogram.c:4-34 | The packed form is never longer than the compact encodings of all bins. |
| HistogramSize.RunIsCoded | src/core/utils/histogram.c:71-80 | Two or more empty bins in a row are one symbol, the first overlong form of their number. |
| HistogramSize.SingleZeroIsCoded | src/core/utils/histogram.c:81-84 | A single empty bin is a zero byte. |
| HistogramSize.LongRunIsCoded | src/core/utils/histogram.c:71-80 | A run that the 32-bit counter cannot hold is cut after 2^32 - 1 bins. |
| HistogramSize.PackedIsShortest | src/core/utils/histogram.c:4-89 | No well-formed, exactly ending form that unpacks to a histogram is shorter than its packed form. |
| Scm.Receiver.Update | src/modules/scm.cpp:117-152 | One received byte: the new receiver state and the frames sent, for every kind of varuint; it reports an update if and only if the byte completes the marker of a new packet. |
| Scm.Receiver.AddZerosToHistogram | src/modules/scm.cpp:195-202 | Adds a run of empty bins, as far as they fit. |
| Scm.Receiver.PackHistogram | src/modules/scm.cpp:210-220 | Packs the histogram if and only if it fits into 512 bytes. |
| Scm.Receiver.SendSCMMeasurement | src/modules/scm.cpp:259-293 | Sends exactly the frames of the packed histogram. |
| Scm.FrameCount | src/modules/scm.cpp:261-275 | The number of frames is the rounded-up quotient, at most ten. |
| Scm.FrameAt | src/modules/scm.cpp:277-292 | The i-th frame has index i, announces the last index, and carries the i-th slice; only the last one may be shorter than the fragment size. |
| ScmStream.RunPacked | src/modules/scm.cpp:144-202 | From any state, the bytes of a packed histogram add exactly its bins and send nothing. |
| ScmStream.RunBlock | src/modules/scm.cpp:126-151 | From any state, including in the middle of a varuint, a scintillator marker and a packed histogram of any length leave exactly its first 256 bins behind, missing ones empty, after the previous histogram was sent if a packet has started. |
| ScmStream.RunBin | src/modules/scm.cpp:179-190 | From any state, a compact varuint of any value is stored as one bin, cut to 65535, and a full histogram stays as it is. |
| ScmStream.RunZeros | src/modules/scm.cpp:195-202 | A first overlong form of n stands for n empty bins, as far as they fit, and changes no other bin. |
| ScmStream.RunUnknown | src/modules/scm.cpp:130-151 | Any other varuint changes nothing and sends nothing. |
| ScmStream.RunItems | src/modules/scm.cpp:98-156 | The bytes of any sequence of packet markers, histograms of any length and meaningless varuints send exactly the frames that a reference over whole items expects, whatever garbage came before. |
| ScmStream.ReportDelivers | src/modules/scm.cpp:259-293 | If the packed form fits, the frames are indexed from zero to the announced maximum, and their data put together and unpacked is the histogram. |
| ScmStream.SmallCountsFit | src/modules/scm.cpp:210-220 | Histograms with counts below 4096 always fit. |
| ScmStream.SentIffItFits | src/modules/scm.cpp:210-220 | A histogram is sent if and only if its packed form fits into the buffer. |
| ScmStream.LargeCountsAreLost | src/modules/scm.cpp:210-220 | A histogram that does not fit, and of which nothing is sent. |
| ScmStream.SentWithTheNext | src/modules/scm.cpp:130-143 | In any sequence of items, a histogram, fitted to 256 bins, is sent while the next one starts, with the time of the last packet marker before that, if there was one at a nonzero time. |
| ScmStream.SentWithItsOwnTimeIff | src/modules/scm.cpp:130-143 | That is the time of its own packet if and only if there is no packet marker until the next histogram or the last one has the same time. |
| ScmStream.LastHistogramIsStampedLate | src/modules/scm.cpp:130-143 | An example of the contrary: the last histogram of one packet carries the time of the next. |
| Fragmentation.ConcatOfFragments | src/modules/scm.cpp:277-292 | The fragments in order are the whole sequence. |
| Fragmentation.FragmentAt | src/modules/scm.cpp:277-292 | The i-th fragment is the slice between two multiples of the fragment size. |
| CrcCcittTable.TableEntry | src/core/utils/crc.c:3-36 | Every entry of the table is the remainder of its index after eight bit-serial steps with polynomial 0x8408. |
| CrcCcitt.Update | src/core/utils/crc.c:46-52 | The table-driven loop computes the remainder of the bit-serial division, for every buffer and initial value. |
| CrcCcitt.CrcConcat | src/core/utils/crc.c:38-45 | The checksum of a concatenation continues from the checksum of the first part. |
| CrcXmodemTable.TableEntry | src/core/utils/crc.c:55-88 | The same for the table with polynomial 0x1021. |
| CrcXmodem.Update | src/core/utils/crc.c:99-105 | The table-driven loop computes the bit-serial division by 0x1021, for every buffer and initial value. |
| CrcXmodem.CrcConcat | src/core/utils/crc.c:92-98 | It composes over concatenation. |
| Crc7Table.TableEntry | src/core/utils/crc.c:108-141 | The same for the table with polynomial x^7 + x^3 + 1. |
| Crc7.Update | src/core/utils/crc.c:152-158 | The table-driven loop computes the bit-serial division by x^7 + x^3 + 1, for every buffer and initial value. |
| Crc7.CrcConcat | src/core/utils/crc.c:145-151 | It composes over concatenation. |
| CrcErrors.FeedAllLinear | src/core/utils/crc.c:46-52 | The division is linear: the remainder of the difference is the difference of the remainders. |
| CrcErrors.BurstIsDetected | src/core/utils/crc.c:46-52 | Any change confined to sixteen consecutive bits, anywhere in a message of any length, changes the checksum. |
| CrcErrors.AdjacentBytesAreBurst | src/core/utils/crc.c:46-52 | Changing one byte or two adjacent bytes is such a change. |
| CrcErrors.ResidueIsZero | src/core/telem/parser.cpp:89-99 | A message followed by its checksum, low byte first, has remainder zero. |
| Telemetry.Serialize | src/core/telem/generic.cpp:31-66 | Writes exactly the frame of the normalised envelope and the payload, or nothing and returns zero if it is too long or does not fit. |
| Telemetry.FrameIsShaped | src/core/telem/generic.cpp:47-63 | A frame shows its length, its normalised envelope and its payload where the receiver looks for them. |
| Telemetry.FrameLayout | src/core/telem/generic.cpp:50-63 | The bytes of a frame, one by one: sync word, number, type, both components, length, payload, and the checksum of all these, low byte first. |
| Telemetry.DefaultComponents | src/core/telem/generic.cpp:42-48 | An unknown source becomes the onboard computer, an unknown target the ground station, and others are kept. |
| Telemetry.FrameHasNoResidue | src/core/telem/generic.cpp:58-63 | The checksum of a whole frame is zero. |
| Parser.Parser.FeedState | src/core/telem/parser.cpp:44-113 | One byte of the state machine against the abstract parser; both pointers stay inside the message buffer in every reachable state. |
| Parser.Parser.Feed | src/core/telem/parser.cpp:25-42 | Returns the payload length plus one, with payload and envelope in place, exactly when a frame with a correct checksum is complete. |
| Parser.RunShaped | src/core/telem/parser.cpp:44-113 | Anything with the shape of a frame is delivered if and only if its checksum is right, and leaves the parser idle. |
| Parser.StreamIsDelivered | src/core/telem/parser.cpp:25-121 | Any list of serialized frames separated by noise without the first sync byte is delivered completely, in order, with payload and normalised envelope, and the parser ends idle. |
| Parser.CorruptedFrameIsDropped | src/core/telem/parser.cpp:89-99 | Damage within sixteen consecutive bits that spares the sync word and the length byte delivers nothing and leaves the parser idle. |
| Parser.DamagedBytesAreDropped | src/core/telem/parser.cpp:89-99 | In particular one damaged byte or two adjacent ones; the next frame is still delivered. |
| Parser.OversizedIsDropped | src/core/telem/parser.cpp:61-76 | A header that announces more than 63 bytes is dropped with its last byte, and leaves the parser idle. |
| Parser.DeliveredIffEvenRun | src/core/telem/parser.cpp:50-57 | After noise without a sync word, a frame is delivered if and only if the noise ends in an even number of first sync bytes. |
| Parser.SyncByteHidesFrame | src/core/telem/parser.cpp:50-57 | A frame, byte for byte, of which nothing is delivered after a single first sync byte. |
| Parser.DeliveredIffIdle | src/core/telem/parser.cpp:44-113 | After any bytes at all, a frame is completed by its last byte if and only if the parser was idle when it began. |
| Parser.GapMakesIdle | src/core/telem/parser.cpp:44-113 | From every reachable state, 70 bytes without the first sync byte leave the parser idle. |
| Parser.DeliveredAfterGap | src/core/telem/parser.cpp:25-121 | So after any bytes and such a gap, every list of frames is delivered completely and in order. |
| TelemProtocol.OwnedKept | src/modules/telem.cpp:142-282 | Every action of any task keeps every buffer where its owner says, and nowhere twice. |
| TelemProtocol.InvariantKept | src/modules/telem.cpp:142-282 | Every action, including dropping queued messages and starting the numbers over at any moment, keeps ownership, order, numbering and mutual exclusion. |
| TelemProtocol.InOnePlace | src/modules/telem.cpp:142-282 | In every run of any number of tasks, each allocated buffer is in exactly one place: with one task, in the queue once, with the transmitter, or freed once. |
| TelemProtocol.QueuedOnceOrFreedOnce | src/modules/telem.cpp:142-282 | Once no task is busy, each buffer is in the queue exactly once or was freed exactly once. |
| TelemProtocol.NumberCounts | src/modules/telem.cpp:262-267 | The sequence number of an attempt is the number of attempts before it since the numbers last started over, modulo 256. |
| TelemProtocol.FramesAreInOrder | src/modules/telem.cpp:262-274 | In every run, the frames written are those of the attempts taken from the queue, in the order in which they took their numbers, each with its own number. |
| TelemProtocol.GapsAreLosses | src/modules/telem.cpp:262-274 | Unless the numbers started over in between, the number of a frame is the successor of the previous one plus the number of attempts lost in between, modulo 256. |
| TelemProtocol.SkippedAreLost | src/modules/telem.cpp:262-274 | Between two attempts taken one after the other, every attempt was refused by the queue or dropped from it. |
| TelemProtocol.EveryAttemptIsAccountedFor | src/hal/posix/queue.hpp:65-131 | An attempt that is not lost was written or still waits, with its own frame. |
| TelemProtocol.OtherEndDelivers | src/modules/telem.cpp:168-190 | In every run, a parser at the other end of a UART delivers exactly the messages for that UART that have been written, in the order in which they took their numbers. |
| TelemProtocol.SelectsOneBit | src/modules/telem.cpp:177-183 | A mask selects a UART if and only if the digit of its power of two is one. |
| Telem.Outbound.SendTo | src/modules/telem.cpp:235-282 | Drops and pretends, fails, or takes exactly the protocol steps of one attempt with a fresh buffer, depending on level, length, allocator and queue. |
| Telem.Outbound.Post | src/modules/telem.cpp:262-281 | Takes a sequence number, serializes, enqueues, and frees the buffer exactly when the queue refuses; the queued buffers keep holding their frames. |
| Telem.Outbound.ProcessNext | src/modules/telem.cpp:168-190 | Writes the oldest frame to exactly the UARTs selected by its mask and frees its buffer; without a frame, fails if the queue is closed and otherwise waits with nothing changed. |
| Telem.Outbound.Destroy | src/modules/telem.cpp:142-156 | Drops and frees every queued message and starts sequence numbers over: a run of the protocol. |
| Telem.SendReaches | src/modules/telem.cpp:235-282 | An undisturbed attempt is a run of the protocol, with the sequence number advanced also when the queue refuses. |
| Telem.IsTarget | src/modules/telem.cpp:177-183 | The mask test selects the UART by its bit, which is the lowest for RXSM and the fourth for DEBUG. |
| Telem.EssentialFrameTypes | src/modules/telem.cpp:314-327 | The frame types that are sent even at the minimal level are exactly seven, by number. |
| Lcl.Module.UpdateAutoResetLogic | src/modules/lcl.cpp:203-210 | One call updates every LCL as its own state machine says and resets exactly those that it says, in order. |
| Lcl.Module.UpdateAfterTakeoff | src/modules/lcl.cpp:225-297 | The same for a call during a liftoff, for the first call of it and for the others. |
| Lcl.Module.UpdateBeforeTakeoff | src/modules/lcl.cpp:299-306 | Without the LO signal everything is cleared. |
| Lcl.ElapsedIsShorter | src/modules/lcl.cpp:274-287 | A 32-bit difference of clock readings never exceeds the time that has passed, across any number of wrap-arounds. |
| Lcl.ResetsAreSpaced | src/modules/lcl.cpp:249-289 | Two automatic resets of an LCL in the same flight are at least 6000 ms apart. |
| Lcl.ResetNeedsTrigger | src/modules/lcl.cpp:256-283 | An LCL is reset only if it was triggered at every call of the last 3000 ms or more. |
| Lcl.AtMostTenResets | src/modules/lcl.cpp:250-283 | Between two clearings of the counter there are at most ten resets. |
| Lcl.ElevenResetsNeedRecovery | src/modules/lcl.cpp:261-269 | Within a flight, more than ten resets are possible only if in between the LCL was seen in its nominal state ten seconds or more after one of its resets. |
| Lcl.RecoveryClears | src/modules/lcl.cpp:261-269 | Conversely, an LCL that is on and nominal ten seconds or more after its last reset has its counter cleared, if the clock did not read zero at that reset nor made a full turn since. |
| Lcl.RecoveryClearsIff | src/modules/lcl.cpp:264-268 | With a counter above zero, it is cleared if and only if the clock did not read zero at the last reset and shows at least ten seconds since. |
| Lcl.RecoveredGetsTenMore | src/modules/lcl.cpp:249-289 | So it gets exactly ten more resets, should it be stuck from then on. |
| Lcl.ShortTriggerIsForgiven | src/modules/lcl.cpp:271-274 | A trigger that goes away within three seconds leaves an LCL on, without a reset and with its counter as it was. |
| Lcl.WatchedAgain | src/modules/lcl.cpp:285-289 | Three seconds after a reset, and not before, the LCL is watched again, triggered or not, and that reset is counted once. |
| Lcl.GivenUpForgets | src/modules/lcl.cpp:252-255 | In every run, an LCL that is given up has its counter at zero. |
| Lcl.FlightStartsAfresh | src/modules/lcl.cpp:231-244 | Whatever happened before, at the first call of a flight an LCL is off if it is triggered and the computer was not booted after liftoff, and otherwise on with a cleared counter. |
| Lcl.OffOrGivenUpStays | src/modules/lcl.cpp:291-294 | An LCL that is off or given up is never reset as long as the flight lasts. |
| Lcl.OffAtLiftoff | src/modules/lcl.cpp:231-244 | An LCL triggered at liftoff is still off after the next call if and only if the clock did not read zero, or the LCL is taken for off once more. |
| Lcl.OffForTheFlight | src/modules/lcl.cpp:231-244 | If the clock did not read zero, it stays off and is not reset until LO drops. |
| Lcl.StuckIsGivenUp | src/modules/lcl.cpp:249-289 | An LCL that was on and stays triggered gets exactly as many resets as are left of ten and is then given up, once enough time has passed, for every schedule of calls with bounded gaps. |
| Lcl.StuckGetsTenResets | src/modules/lcl.cpp:249-289 | From a cleared counter that is exactly ten resets, after 60 seconds and 31 gaps at the latest. |
| Lcl.LongGapsCanStall | src/modules/lcl.cpp:271-284 | If gaps may exceed the bound, there is a run from initialization on, as long as one likes, in which a stuck LCL is on at first and is never reset. |
| Lcl.AlwaysGivenUpIff | src/modules/lcl.cpp:249-289 | Every LCL that is stuck for long enough is given up if and only if gaps between calls are at most 2^32 - 3000 ms. |
| Scheduler.Scheduler.GetElapsedTimeMsec | src/modules/scheduler.cpp:186-194 | The stopwatch reading, running or stopped. |
| Scheduler.Scheduler.SetEvents | src/modules/scheduler.cpp:201-211 | A new table starts from scratch; the same table changes nothing. |
| Scheduler.Scheduler.ClearEvents | src/modules/scheduler.cpp:181-184 | Removes the table, which resets the clock if there was one. |
| Scheduler.Scheduler.Reset | src/modules/scheduler.cpp:213-218 | The new state after a reset. |
| Scheduler.Scheduler.Start | src/modules/scheduler.cpp:220-227 | The new state after a start. |
| Scheduler.Scheduler.Stop | src/modules/scheduler.cpp:229-235 | The new state after a stop. |
| Scheduler.Scheduler.Restart | src/modules/scheduler.h:52-56 | The new state after a restart. |
| Scheduler.Scheduler.ExecutePendingEvents | src/modules/scheduler.cpp:242-262 | Executes, in order, the events from the cursor to the first one that is not due or ends the table. |
| Scheduler.ClockIsFaithful | src/modules/scheduler.cpp:186-235 | Over every run, the stopwatch shows the sum of its running intervals since the last reset, modulo 2^32. |
| Scheduler.ReadingIsFaithful | src/modules/scheduler.cpp:186-194 | So does any later reading. |
| Scheduler.RunningIff | src/modules/scheduler.cpp:220-235 | The clock is running if and only if it was started or restarted once and not stopped since. |
| Scheduler.ExecutedIsPrefix | src/modules/scheduler.cpp:242-262 | Over every run and for every table, the events executed since the last reset are the table up to the first event beyond any reading at which events were looked for; each once and in order. |
| Scheduler.ExecutedIsDue | src/modules/scheduler.cpp:242-262 | With a sorted table these are exactly the due events. |
| Scheduler.EventsFollowTheClock | src/modules/scheduler.cpp:242-262 | While the running time fits into 32 bits, these are exactly the events that the clock had reached, in real time, by some look. |
| Scheduler.PausedRun | src/modules/scheduler.cpp:220-262 | A clock that runs, pauses and runs again executes exactly the events due by the sum of both intervals, and none while it is stopped. |
| Scheduler.ResetRun | src/modules/scheduler.cpp:213-262 | After a reset or a restart, the events are executed anew, from that moment on. |
| Scheduler.CursorStaysInside | src/modules/scheduler.cpp:252-261 | The cursor never passes the end marker. |
| Scheduler.SessionIsRun | src/modules/scheduler.cpp:201-211 | Over any sequence of actions and changes of the table, the state is that of the run since the last change, so what is said of runs with one table holds from then on. |
| Download.RawStorageReadOperation.Start | src/modules/storage.cpp:1149-1174 | Busy, invalid, or a new download of exactly the requested range. |
| Download.RawStorageReadOperation.Iterate | src/modules/storage.cpp:1181-1208 | Makes attempts until one fails or nothing is left, each with the effect of the specification. |
| Download.FileDownloadOperation.Start | src/modules/storage.cpp:1325-1399 | All error returns in order, or a new download of the requested range cut at the end of the file. |
| Download.FileDownloadOperation.Iterate | src/modules/storage.cpp:1406-1457 | The same as for raw storage, with read errors that cancel, short reads, the end-of-file fragment, and rewinding when the queue refuses. |
| Download.DeliveredIsPrefix | src/modules/storage.cpp:1149-1457 | Whatever the medium and the queue answer, the accepted fragments put together are the beginning of the requested range, indexed in order. |
| Download.ReadsAreSent | src/modules/storage.cpp:1417-1453 | However small the pieces that a file yields, the download advances by exactly their sizes, one fragment for each that is accepted. |
| Download.FileMovesByWhatIsRead | src/modules/storage.cpp:1422-1453 | One accepted read of n bytes sends exactly those and moves the download by n; a refused one changes nothing. |
| Download.FailureEndsFile | src/modules/storage.cpp:1418-1442 | A file that cannot be read or rewound ends its download, and nothing more is sent whatever the answers are. |
| Download.RawStorageGoesOn | src/modules/storage.cpp:1190-1206 | Raw storage is never given up; an accepted fragment takes 59 bytes or all that is left. |
| Download.EarlyEndIsAnnounced | src/modules/storage.cpp:1425-1448 | At an early end of the file, the last fragment is empty and announces its own index as the maximum; if it is refused, only the maximum changes. |
| Download.EmptyFragmentIsLast | src/modules/storage.cpp:1425-1448 | In every run, an empty fragment is the last one, announces its own index as the maximum, and ends the download. |
| Download.DownloadIsExact | src/modules/storage.cpp:1181-1457 | When each successful read yields at least what is requested then, the accepted fragments are exactly the first fragments of the range, one for each acceptance, and the download ends exactly when they are all. |
| Download.CompletedIsWhole | src/modules/storage.cpp:1181-1457 | Under that hypothesis, a completed download has delivered the whole range. |
| Download.MaxIndexIsLast | src/modules/storage.cpp:1165-1171 | The announced maximum is the index of the last fragment, in eight bits. |
| Download.IndicesAreExact | src/modules/storage.cpp:1165-1206 | Indices identify the fragments if and only if the length is at most 15104. |
| Download.LongDownloadRepeatsAnIndex | src/modules/storage.cpp:1165-1206 | One byte more needs 257 fragments and announces maximum zero. |
| BlockCache.BlockCache.GetBlock | src/core/utils/block_cache.h:51-60 | The cached block or null, and the counters. |
| BlockCache.BlockCache.Evict | src/core/utils/block_cache.cpp:35-40 | Gives up the cached block if it is the given one, and nothing else. |
| BlockCache.BlockCache.GetScratchArea | src/core/utils/block_cache.cpp:48-52 | Gives up whatever is cached. |
| BlockCache.BlockCache.Commit | src/core/utils/block_cache.cpp:28-33 | The scratch area becomes the cached block. |
| SdCard.AlwaysCoherent | src/drivers/sdcard/spi.cpp:851-979 | Over any run of reads, programs and erasures with any failures, the cached block equals the block on the card or is erased and not programmed since. |
| SdCard.ReadsWhatWasProgrammed | src/drivers/sdcard/spi.cpp:851-979 | A programmed block can be read back, and is, whatever happens to other blocks in between. |
| SdCard.ReadsWhatWasThere | src/drivers/sdcard/spi.cpp:851-979 | So is any defined block that a run does not touch. |
| SdCard.ReadsWhatWasLeft | src/drivers/sdcard/spi.cpp:880-924 | After a failed program operation, what it left is read from then on. |
| SdCard.ReadsWhatErasureMade | src/drivers/sdcard/spi.cpp:932-979 | After an erasure, what it made of a block of the sector is read, unless the block is cached and not the first one: then its old contents are. |
| SdCard.CachedIff | src/drivers/sdcard/spi.cpp:851-979 | Over any run, a block is cached if and only if it was loaded once and since then nothing else was read and the block itself was neither programmed nor the first of an erased sector. |
| SdCard.ReadableWithoutCardIff | src/drivers/sdcard/spi.cpp:851-868 | While the card does not answer, exactly the cached block can be read, and any other attempt empties the cache. |
| SdCard.ErasedIff | src/drivers/sdcard/spi.cpp:880-979 | The blocks whose contents count as undefined are exactly those erased and not programmed since. |
| SdCard.NotSelectedChangesNothing | src/drivers/sdcard/spi.cpp:887-890 | A card that cannot be selected stays as it is, and so does the cache. |
| SdCard.EraseIsSafeIff | src/drivers/sdcard/spi.cpp:943-944 | With an exact cache, erasing a sector keeps it exact, whatever it leaves on the card, if and only if no block of the sector except its first one is cached. |
| SdCard.StaleRead | src/drivers/sdcard/spi.cpp:943-944 | A run that reads old contents of an erased block. |
| SdCard.Driver.EnsureBlockIsCached | src/drivers/sdcard/spi.cpp:851-868 | Returns the block from the cache or the card, or null if it cannot be read. |
| SdCard.Driver.ReadData | src/drivers/sdcard/spi.cpp:223-254 | A successful read returns precisely the bytes of the range, across block boundaries, for blocks that are not erased; nothing beyond is written; it succeeds if all blocks can be read. |
| SdCard.Driver.ProgramBlockFromBuffer | src/drivers/sdcard/spi.cpp:880-924 | Evicts and programs the block, or leaves it as the failure left it. |
| SdCard.Driver.EraseSectorFromBlock | src/drivers/sdcard/spi.cpp:932-979 | Evicts the first block and erases the sector. |
| SdCard.AddressesAgree | src/drivers/sdcard/spi.cpp:984-1014 | Reading and programming agree on the block and the offset of every filesystem address, with 32-bit wrap-around. |
| SdCard.ByteAtIs | src/drivers/sdcard/spi.cpp:264-268 | Addresses count the bytes of the blocks, 512 for each. |
| SdCard.SectorIs | src/drivers/sdcard/spi.cpp:951-954 | A sector consists of its first block and the 127 that follow, modulo 2^32. |
| SdCard.Driver.SpiRead | src/drivers/sdcard/spi.cpp:984-993 | Reads the bytes at a filesystem address. |
| SdCard.Driver.SpiWrite | src/drivers/sdcard/spi.cpp:995-1008 | After a successful write, the data is what is at that filesystem address for a reader. |
| UsbRing.Ring.Receive | src/lib/usb-cdc/usbd_cdc_if.c:270-292 | A packet is accepted as a whole if and only if it fits into 255 bytes, and only then the endpoint is made ready again; a rejected one changes no unread byte. |
| UsbRing.Ring.Store | src/lib/usb-cdc/usbd_cdc_if.c:278-284 | The loop writes the packet behind the unread bytes, which it never touches, and fails exactly when there is not enough room. |
| UsbRing.Ring.Init | src/lib/usb-cdc/usbd_cdc.c:365-376 | Configuring the device makes the endpoint ready and changes no unread byte. |
| UsbRing.Ring.Read | src/lib/usb-cdc/usbd_cdc_if.c:347-360 | Takes exactly the oldest bytes out, or nothing. |
| UsbRing.Ring.Peek | src/lib/usb-cdc/usbd_cdc_if.c:362-374 | Shows exactly what a read would return and takes nothing. |
| UsbRing.Ring.Flush | src/lib/usb-cdc/usbd_cdc_if.c:381-389 | Nothing is left to read. |
| UsbRing.NothingIsLost | src/lib/usb-cdc/usbd_cdc_if.c:270-389 | However packets, reads and flushes interleave, the bytes taken out followed by those waiting are those of the accepted packets, in order. |
| UsbRing.InterruptedRead | src/lib/usb-cdc/usbd_cdc_if.c:347-360 | A read interrupted by packets still returns the bytes that were waiting when it began. |
| UsbRing.ReadyIff | src/lib/usb-cdc/usbd_cdc_if.c:278-290 | Over any run, the endpoint is ready at the end if and only if every packet fitted on arrival since the host last made it ready, or since the start if it was ready then. |
| UsbRing.ConfiguredIsReady | src/lib/usb-cdc/usbd_cdc.c:365-376 | After any run, configuring the device makes the endpoint ready and keeps what was not read. |
| UsbRing.RejectionIsFinal | src/lib/usb-cdc/usbd_cdc_if.c:278-290 | After a rejected packet nothing is accepted until then. |
| UsbRing.RejectionExample | src/lib/usb-cdc/usbd_cdc_if.c:278-290 | A full ring, a packet that does not fit, a flush, and a packet that is lost although the ring is empty. |
| Calendar.DayOfWeekCountsDays | src/core/utils/time.c:85-95 | For every valid date from 1970 on, the closed form is the number of days since 1970-01-01, plus four, modulo seven. |
| Calendar.NextDayIsOneLater | src/core/utils/time.c:85-95 | The day count advances by one across months, years and leap days. |
| Calendar.DayOfWeekAdvances | src/core/utils/time.c:85-95 | So does the day of the week, modulo seven. |

## Left out

- Hardware access: SPI, UART, USB, DMA and GPIO code, timeouts and retries below a block operation, and statistics. A block read, program or erase is one step whose outcome is a parameter.
- The contents of a failed or erased block are arbitrary parameters; reading a block that fails its checksum is a failed read.
- The filesystem: a file is a fixed sequence of bytes with a position; reads may fail or be short, seeking may fail.
- Directory listings, because entries are lost under back-pressure, so no delivery property holds of them.
- `StorageOperationManager`, which only keeps the current operation and drops it when it ends or fails.
- Writing measurements to the log (`logSCMMeasurement`), which repeats the first fragment because its pointer is never advanced.
- The status of the scintillator module and the simulated measurements.
- The payloads of the individual telemetry frame types, the periodic telemetry tasks, and the ownership of received commands.
- What executing a mission event does; a scheduler records the events it executes.
- NMEA parsing, mode and supervisor logic, calibration and other floating-point arithmetic.
- Histogram.GetUnpackedSize: requires well-formed symbols, because on a malformed one the original does not come to an end, as `Histogram.CountingEndsIff` proves.
- Varuint.EncodeOverlong: requires a total of at most eight bytes, the length of the marker table.
- Varuint.DecodeOverlong: requires that the decoder does not look beyond the memory, which the original does not check either.
- TelemProtocol.InOnePlace: buffer identities are never reused, so an address that the allocator hands out again counts as a new buffer; whether the queue accepts is a free choice as long as it has room, which covers closing and timeouts.
- Telem.Outbound.SendTo: one call runs undisturbed; interleavings of many calls are the subject of `TelemProtocol`.
- Telem.Outbound.ProcessNext: a call that waits is resumed by calling it again; the model does not say how the task sleeps meanwhile.
- Lcl.ResetsAreSpaced: times are those of the calls; within one call, the pulse of an LCL can start up to half a second later, after the pulses of the LCLs before it.
- UsbRing.Ring.Receive: interrupts are atomic and other accesses are not reordered around them.
