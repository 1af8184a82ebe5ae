# Verification of the portable layer

A Dafny model of the hardware-independent C code of this repository, and of the small tools that
go with it, with proofs of what that code is for. `dafny verify dfyconfig.toml` checks all of it.

The tests of the repository sample and fuzz; the statements here are about all inputs, all runs and
all schedules. Methods on classes follow the C functions statement by statement and are proved
against a transition function on values; the main results are lemmas about whole runs of those
functions.

| files | subject |
|---|---|
| `IsoTpFormat`, `IsoTpReceiver`, `IsoTpSender` | frames of ISO 15765-2:2016 (section 9.6) on classical CAN; the two state machines of `isotp.c` |
| `IsoTpHistory` | what the receiver reports, told from the frames alone, for any frames |
| `IsoTpTransfer`, `IsoTpLoss`, `IsoTpLossySequence` | in-order transfers, gaps, lost frames, and transfers with lost frames one after another |
| `IsoTpPeer` | the sender against any peer |
| `IsoTpNetwork`, `IsoTpRoundTrip` | both sides over two FIFO channels under any schedule; the lock-step driver of the host tests |
| `RingBuf`, `RingBufInterleaving`, `SysTickDemo` | the ring buffer as an object, its single loads and stores interleaved, and example 04 around it |
| `LinearRegister`, `FlippedBits`, `Crc`, `CrcDetection`, `CrcFewFlips` | the algebra of linear feedback registers, CRC-16/CCITT-FALSE as one, and the damage it shows |
| `FrameParser`, `FrameStream`, `FrameRoundTrip`, `FrameAccounts`, `FrameProtocol` | the framed-protocol parser, a grammar it refines, encoded frames through noise, resynchronisation, and the accounting of bytes |
| `FrameDamage`, `FrameFewFlips`, `FrameSelfTest` | damaged frames; the sender and the self-test of example 06 |
| `BitTiming`, `BitTimingExact`, `BitTimingRanking`, `BitTimingDefaults` | the CAN bit-timing solver; when its refusals and answers are right, and when its choice is the best, against brute force; the default limits |
| `BusLength` | the bus-length bound |
| `RtcMath` | calendar dates and seconds since 2000 |
| `Ledger`, `LedgerIds`, `LedgerSummary` | the attempt ledger of `scripts/learning.py` |

How the C types are read: `u8`, `u16`, `u32` and `u64` are ranges of `int`, and every C operation
that can leave its width is written with `Wrap16` to `Wrap64` (`Words.dfy`). The CRC register is a
`bv16`. Results such as "no frame now" are an `Option`. `Arithmetic.dfy` and `Buffers.dfy` hold
lemmas on products and quotients, and the block copy.

## Where code and documentation disagree

- `code/README.md:92-93` and `can_bittiming.c:33-34` say the solver refuses rather than
  approximates. The product `brp * bitrate_hz` is computed in 32 bits, and when it wraps the solver
  can accept a timing that is not exact: `BitTimingExact.WrappedAnswer` gives an input. The exact
  conditions are on the inputs. It answers when and only when a triple is legal, exactly for inputs
  that have a legal triple or for which no accepted pair wraps (`RefusesRightlyIff`). Its answer is
  exact exactly when every accepted pair whose product wraps ranks behind an accepted pair whose
  product fits (`AnswerExactIff`). A product of `brp_max` and `bitrate_hz` below 2^32, with `tseg1_min`
  below 2^32 - 1, is enough for both (`GuardedHasNoTrap`, `GuardedOutranks`).
- `can_bittiming.c:55-60` ranks sample-point accuracy first. The sample point is also computed in 32
  bits, and equals the true one in permille exactly when 1000 times its numerator fits
  (`BitTimingRanking.SampleTrueIffFits`); `WrappedSample` gives an input where the nearest sample
  point is passed over, and `BestAndTrueIff` says exactly when that does not happen.
- `can_bittiming.c:42-43` says the split lands closest to the target. The sample point is rounded down
  before it is compared, and the choice can be another: with the default limits, at 45 MHz, 500 kbit/s
  and 877 permille, the answer is more than 1.5 permille farther off than a legal timing
  (`BitTimingRanking.NotNearest`). The answer is nearest exactly when every accepted pair that is not
  ranks behind one that is (`NearestIff`), as when nothing is rounded and nothing wraps (`UnroundedIsNearest`).
  Rounding costs less than two permille (`RoundingCost`) and can cost more than one
  (`RoundingCostsMoreThanOne`).
- The comment at `isotp.c:94-96` says an oversized first frame is answered on the bus. The code
  builds the overflow frame but returns `ISOTP_EV_ERR_OVERFLOW`, and the header asks the caller to
  send `fc_frame` only on `ISOTP_EV_SEND_FC` (as the host driver does). With a caller that does so the
  sender is left waiting; with one that also sends it on an overflow error the sender ends aborted:
  `IsoTpNetwork.TransferEnds`.
- `can_bittiming.c:110` cuts the length to 32 bits. A longer segment, a larger prescaler, a slower clock
  or a shorter loop delay can then shorten what is reported (`BusLength.WrappedIsNotMonotone`); up to
  given inputs it does not exactly when their own length fits (`ReportedMonotoneIff`).
- The comment at `isotp.c:122-124` says a loss of exactly 16 frames is not detectable. The sequence
  number indeed does not show it (`IsoTpTransfer.GapDetected`), but the byte count does: no part of
  a transfer is ever reported as a message (`IsoTpLoss.NoMessageFromAPart`). Parts of two transfers can
  be (`IsoTpLossySequence.MixedMessage`), if the second loses its first frame while the first is open,
  and only then (`OnlyWholePayloads`).

## Model

| member | source | states |
|---|---|---|
| IsoTpFormat.JoinedIsPrefix | code/portable/can/isotp.c:184-231 | The frames of the segmentation carry the payload exactly: the data bytes of the first k frames are its prefix, of all frames all of it |
| IsoTpFormat.CarriedStep | code/portable/can/isotp.c:215-227 | Every consecutive frame but the last carries 7 bytes and the last one, and only it, completes the payload |
| IsoTpFormat.FrameInNumbers | code/portable/can/isotp.c:189-231 | Every byte of every frame: 0n, or 1n nn, or 2n with n the frame's number modulo 16; the payload bytes in their places; 0xCC in the rest |
| IsoTpFormat.SendableInNumbers | code/portable/can/isotp.c:172-227 | 1 to 4095 bytes can be sent, and beyond 7 they take the fewest frames that carry 6 bytes and then 7 each |
| IsoTpReceiver.StepKeepsInv | code/portable/can/isotp.c:41-164 | No frame, of any bytes and any DLC, breaks received <= total <= limit <= 4095, 6 <= received < total while collecting, or the block count below the block size |
| IsoTpReceiver.Receiver.constructor | code/portable/can/isotp.c:8-17 | A zeroed idle receiver with the caller's block size and separation time, and the caller's limit or 4095 (`EventOnOther` and `MessageFits` say what the limit decides) |
| IsoTpReceiver.Receiver.BuildFc | code/portable/can/isotp.c:19-30 | All 8 bytes of the flow-control frame: kind and status, block size, separation time, padding |
| IsoTpReceiver.Receiver.AbortReception | code/portable/can/isotp.c:32-39 | The state after giving up a reception, with everything else kept |
| IsoTpReceiver.Receiver.OnFrame | code/portable/can/isotp.c:41-164 | On any frame, the new state and event are those of the transition function, and no buffer byte beyond the filled part changes |
| IsoTpReceiver.Receiver.OnSingle | code/portable/can/isotp.c:53-74 | A single frame: accepted, refused for its length or refused for the limit, against the transition function |
| IsoTpReceiver.Receiver.OnFirst | code/portable/can/isotp.c:77-111 | A first frame: opens a transfer with 6 bytes and a clear-to-send, or is refused, against the transition function |
| IsoTpReceiver.Receiver.OnConsecutive | code/portable/can/isotp.c:114-152 | A consecutive frame: sequence check, the wanted slice appended, message, flow control or silence, against the transition function |
| IsoTpSender.Sender.Begin | code/portable/can/isotp.c:170-182 | Accepts exactly 1 to 4095 bytes and then stands before the first frame; otherwise changes nothing |
| IsoTpSender.Sender.NextFrame | code/portable/can/isotp.c:184-240 | The new state and the 8 bytes written are those of the transition function; a result of 0 leaves the output buffer alone |
| IsoTpSender.Sender.OnFlowControl | code/portable/can/isotp.c:242-281 | Any frame offered by the peer moves the sender and is answered as the transition function says |
| IsoTpSender.FlowInNumbers | code/portable/can/isotp.c:242-281 | The events both ways, and the whole new state, by the frame's bytes and whether the sender listens: length error below three bytes, 30 clears to send, 31 holds, 32 aborts with an overflow error, 33 to 3F abort as unexpected, all else is unexpected and changes nothing |
| IsoTpSender.ZeroedSendsEmptyFrame | code/portable/can/isotp.c:188-199 | A zeroed sender that was never begun sends one single frame without bytes, is then silent, and takes no flow control |
| IsoTpSender.NextConsecutiveIsFrame | code/portable/can/isotp.c:209-231 | After k frames of the segmentation, the bytes sent next are exactly frame k, with its sequence number modulo 16, and the sender then stands at k + 1 |
| IsoTpSender.NextSendsNextFrame | code/portable/can/isotp.c:184-240 | A call sends nothing or exactly the next frame of the segmentation, and it is silent precisely when not idle and not cleared within a block |
| IsoTpSender.NextCounts | code/portable/can/isotp.c:210-225 | Each consecutive frame counts once towards the block, the block size is never passed and the 16-bit counter never wraps |
| IsoTpSender.FlowKeepsProgress | code/portable/can/isotp.c:242-281 | No frame of the peer moves the sender along or back in the payload |
| IsoTpHistory.CollectingIffOpen | code/portable/can/isotp.c:41-164 | After any history of frames the receiver is collecting exactly when the history ends inside a transfer open by the limit the caller asked for, and then holds exactly that transfer's bytes, next number and block count |
| IsoTpHistory.KindsInNumbers | code/portable/can/isotp.c:41-114 | The kinds of frames in the numbers of their bytes: 01 to 07, 1n nn with a length of 8 to 4095, 2n, and from 30 on frames that matter to no transfer |
| IsoTpHistory.EventOnConsecutive | code/portable/can/isotp.c:114-152 | The event on a consecutive frame after any history, both ways: message exactly when it completes the open transfer in sequence, flow control exactly at every multiple of the block size the caller asked for, sequence error exactly at a wrong number, unexpected exactly when no transfer is open |
| IsoTpHistory.EventOnOther | code/portable/can/isotp.c:41-111 | The event on every other frame, both ways, from the frame and the limit the caller asked for alone |
| IsoTpHistory.BlockFullIff | code/portable/can/isotp.c:142-150 | Flow control is due after every block-size-th consecutive frame of a transfer, whatever its length, through the 16-bit counter |
| IsoTpHistory.MessageIsConcatenation | code/portable/can/isotp.c:133-146 | A completed message is the concatenation of the slices of its first and consecutive frames, cut to the declared length |
| IsoTpHistory.SingleMessage | code/portable/can/isotp.c:53-74 | The message of a single frame is the bytes it announces, whatever came before |
| IsoTpHistory.MessageFits | code/portable/can/isotp.c:53-146 | Every reported message has at least 1 byte, and at most the caller's limit and 4095 |
| IsoTpHistory.FlowControlBuilt | code/portable/can/isotp.c:93-111 | After any history, the flow-control frame is 30 or, after an oversized first frame, 32, then the caller's block size and separation time and five times 0xCC; otherwise it is as it was |
| IsoTpHistory.ErrorsClear | code/portable/can/isotp.c:32-164 | After a wrong number or a refused single or first frame nothing is held; any other error changes only its counter |
| IsoTpHistory.StatsCountEvents | code/portable/can/isotp.c:41-164 | The five diagnostic counters are the numbers of events reported in the history, modulo 2^32 |
| IsoTpTransfer.FrameAdvances | code/portable/can/isotp.c:77-152 | In order, every frame of the segmentation is taken without error, with the event due at that place, until the payload is held whole |
| IsoTpTransfer.GapDetected | code/portable/can/isotp.c:120-128 | A gap gives a sequence error exactly when it is no multiple of 16; otherwise the later bytes are taken in place of the missing ones |
| IsoTpLoss.NoMessageFromAPart | code/portable/can/isotp.c:114-152 | Whichever frames of a transfer are lost, the receiver never reports a message for the rest, if it was idle or the first frame is not among the lost |
| IsoTpLoss.WholeIsOneMessage | code/portable/can/isotp.c:41-164 | The whole segmentation in order, to a receiver in any state, gives one message, at its last frame, equal to the payload, and no error |
| IsoTpLossySequence.OnlyWholePayloads | code/portable/can/isotp.c:41-164 | Any number of transfers, each losing any of its frames, to a receiver in any state: unless one loses its first frame while an earlier one is open, exactly the payloads that arrive whole and fit are reported, each once and in order |
| IsoTpLossySequence.OneArrival | code/portable/can/isotp.c:77-152 | What one transfer with losses leaves: the receiver is left collecting exactly when the first frame arrived and fits, not all frames did, and every gap is a multiple of 16 |
| IsoTpLossySequence.MixedMessage | code/portable/can/isotp.c:114-146 | The rest of one transfer and as many first frames of the next lost, with payloads of one length: one message is reported, the first part of one and the last of the other, and it is one of the payloads exactly when they agree on either part |
| IsoTpPeer.AnyRunIsLawful | code/portable/can/isotp.c:184-281 | Against any peer and any order of calls, the frames sent are a prefix of the one segmentation, the block last granted is kept, and the separation time held is the one last granted |
| IsoTpPeer.EveryBlockIsKept | code/portable/can/isotp.c:209-225 | Between any two clear-to-send frames accepted in a run no more frames leave than the first allows, and before any only the single or first frame |
| IsoTpPeer.WaitsAreCounted | code/portable/can/isotp.c:262-269 | The wait counter is the number of wait frames accepted in the run, modulo 2^32 |
| IsoTpPeer.WaitSilences | code/portable/can/isotp.c:262-269 | After a wait frame the sender, asked for a frame, sends none |
| IsoTpPeer.EndIsFinal | code/portable/can/isotp.c:233-239 | A finished or aborted sender stays so and sends nothing more; it is finished exactly when the whole segmentation was sent |
| IsoTpPeer.AbortedIffRefused | code/portable/can/isotp.c:271-279 | In any run the sender is aborted exactly when, while it listened, a frame 32 to 3F of three bytes or more was offered |
| IsoTpNetwork.AnyScheduleIsSafe | code/portable/can/isotp.c:41-281 | Over two FIFO channels under any schedule, to a receiver in any state: no error on either side, from the first frame on the receiver holds a prefix, at most one flow-control frame is in flight and then only to a sender that has used up its block and whose frames have all arrived, and the payload is reported once or not yet |
| IsoTpNetwork.StuckIffReported | code/portable/can/isotp.c:184-281 | No deadlock for a payload that fits: some action is enabled until the message is reported, and then none |
| IsoTpNetwork.RunsAreShort | code/portable/can/isotp.c:184-281 | No schedule, however long, changes the state more than 4 times per frame of the segmentation, whether the payload fits or not |
| IsoTpNetwork.FairRunsEnd | code/portable/can/isotp.c:41-281 | Every fair run, from any state of a transfer, comes to a standstill |
| IsoTpNetwork.TransferEnds | code/portable/can/isotp.c:41-281 | After enough fair rounds the payload was reported once and unchanged exactly when it fits the limit, nothing is in flight, the receiver is idle, and the sender is done exactly when the payload fits or is at most 7 bytes; otherwise it is aborted if the caller also sends the frame built on overflow, and waiting if not; errors are reported never, once or twice accordingly |
| IsoTpNetwork.AskedLimitDecides | code/portable/can/isotp.c:8-281 | A receiver initialised with a limit and then fed any frames reports a payload exactly when it is not longer than that limit, and the sender ends accordingly |
| IsoTpNetwork.TransfersDeliver | code/portable/can/isotp.c:41-281 | Any number of transfers one after another report exactly the payloads that fit, each once, in order |
| IsoTpNetwork.OverflowLeavesSenderWaiting | code/portable/can/isotp.c:93-101 | When the first frame declares more than the limit and the caller sends flow control only when asked, none is ever sent and the sender waits under every schedule |
| IsoTpRoundTrip.TurnAdvances | code/host-tests/test_isotp.c:28-48 | In lock step the sender always has the next frame and both sides stay in step until the last frame completes the message |
| IsoTpRoundTrip.Turn | code/host-tests/test_isotp.c:29-47 | One turn of the driver on the two objects keeps them in step or delivers the payload |
| IsoTpRoundTrip.Exchange | code/host-tests/test_isotp.c:28-49 | The driver's loop never blocks, meets no error event and never reaches its bound of 20000 |
| IsoTpRoundTrip.RoundTrip | code/host-tests/test_isotp.c:17-50 | The driver delivers every payload of 1 to 4095 bytes whole, for every block size and separation time, and refuses every other length |
| RingBuf.FreeRunning | code/portable/ringbuf/ringbuf.h:36-43 | Free-running 32-bit indices keep their distance and their slots across any number of wraps |
| RingBuf.SlotsApart | code/portable/ringbuf/ringbuf.h:49-55 | With room left, no unread byte sits in the slot written next |
| RingBuf.RingBuffer.Put | code/portable/ringbuf/ringbuf.h:49-63 | Appends exactly when fewer than 64 bytes are held, else changes nothing |
| RingBuf.RingBuffer.Get | code/portable/ringbuf/ringbuf.h:66-76 | Takes the oldest byte exactly when there is one |
| RingBuf.RingBuffer.Count | code/portable/ringbuf/ringbuf.h:40-43 | The number of bytes held, at most 64 |
| RingBuf.RingBuffer.Empty | code/portable/ringbuf/ringbuf.h:45 | True exactly when nothing is held |
| RingBuf.RingBuffer.Full | code/portable/ringbuf/ringbuf.h:46 | True exactly when 64 bytes are held |
| RingBuf.RingBuffer.constructor | code/portable/ringbuf/ringbuf.h:30-34 | Empty |
| RingBufInterleaving.EveryInterleavingIsAQueue | code/portable/ringbuf/ringbuf.h:48-76 | Under every interleaving of the single loads and stores of one producer and one consumer, of any length and from any index, the results are those of a bounded FIFO queue of 64 bytes and the bytes fetched are a prefix of those accepted |
| RingBufInterleaving.NoUnreadByteOverwritten | code/portable/ringbuf/ringbuf.h:49-61 | An unread byte stays in its slot, and the producer about to store is about to store elsewhere, wherever the consumer stands |
| RingBufInterleaving.ProducerKeepsInv | code/portable/ringbuf/ringbuf.h:49-63 | Each single access of a put keeps what the consumer relies on, at each of its places |
| RingBufInterleaving.ConsumerKeepsInv | code/portable/ringbuf/ringbuf.h:66-76 | Each single access of a get keeps what the producer relies on, at each of its places |
| RingBufInterleaving.ConsumerCountIsSafe | code/portable/ringbuf/ringbuf.h:40-43 | A count loaded by the consumer, head first, with any puts between the two accesses, is at most the true depth |
| RingBufInterleaving.TailFirstCountIsExact | code/portable/ringbuf/ringbuf.h:40-43 | Loaded tail first, the order C leaves open, it is the true depth |
| SysTickDemo.SequenceIntact | code/qemu-cortex-m/04-spsc-ring-buffer/main.c:24-101 | However ticks fall between the accesses of the main loop: ticks = produced + dropped, produced = consumed + depth, the i-th byte consumed is 'A' + i mod 26 so no ordering error is counted, the loop ends at 260 bytes, the high-water mark is at most 64, and a count begun by the main loop never exceeds the true depth, and is the true depth if it began with the tail |
| SysTickDemo.HighWaterIsLargest | code/qemu-cortex-m/04-spsc-ring-buffer/main.c:69-71 | No count the main loop takes is above the high-water mark, and the mark is 0 or one of them |
| SysTickDemo.HandlerAccepts | code/qemu-cortex-m/04-spsc-ring-buffer/main.c:24-35 | A tick with room adds the next letter of the pattern and counts it as produced |
| SysTickDemo.HandlerDrops | code/qemu-cortex-m/04-spsc-ring-buffer/main.c:24-35 | A tick on a full buffer drops the byte and counts it |
| SysTickDemo.ConsumedAsExpected | code/qemu-cortex-m/04-spsc-ring-buffer/main.c:69-90 | The byte fetched is the letter the main loop expects |
| SysTickDemo.WrongByteIsCounted | code/qemu-cortex-m/04-spsc-ring-buffer/main.c:75 | A byte other than the expected one counts as an ordering error, in any state, and nothing else does |
| Crc.UpdateLoop | code/portable/frame/frame.c:7-15 | The bit loop is 8 clocks of the register after adding the byte at its top |
| Crc.Crc16 | code/portable/frame/frame.c:17-24 | The byte loop is the fold from 0xFFFF |
| Crc.CcittLinear | code/portable/frame/frame.c:10-13 | A clock of the register is linear over exclusive or |
| Crc.CcittInjective | code/portable/frame/frame.c:10-13 | A clock of the register can be undone |
| CrcDetection.UpdateIsRun | code/portable/frame/frame.c:7-15 | Adding a byte at once and clocking 8 times is feeding its 8 bits one by one |
| CrcDetection.FoldIsRun | code/portable/frame/frame.c:17-24 | The byte-wise CRC of a message is the bit-wise register over its bits |
| CrcDetection.SharedIffSyndromeZero | code/portable/frame/frame.c:7-24 | Two messages of one length share their CRC exactly when their difference leaves the empty register empty |
| CrcDetection.BurstDetected | code/portable/frame/frame.c:7-24 | Damage within any 16 consecutive bits changes the CRC |
| CrcDetection.ParityFollowsMessage | code/portable/frame/frame.c:7-24 | The parity of the CRC is the parity of the message added to that of the start value |
| CrcDetection.OddDamageDetected | code/portable/frame/frame.c:7-24 | An odd number of flipped bits changes the CRC |
| CrcFewFlips.NoReturn | code/portable/frame/frame.c:10-13 | For 528 clocks, the bits of 66 bytes, the register does not come back to a single one at its lowest place |
| CrcFewFlips.FewFlipsDetected | code/portable/frame/frame.c:7-24 | One, two or three flipped bits in a message of at most 66 bytes change the CRC |
| CrcFewFlips.FourFlipsEscape | code/portable/frame/frame.c:7-24 | Four can escape: the bits of the polynomial flipped in any three bytes in a row |
| FlippedBits.TwoLeave | code/portable/frame/frame.c:7-15 | For any invertible linear register, two flipped bits cancel only if as many clocks as lie between them bring the entry place back to itself |
| CrcDetection.CheckValue | code/host-tests/test_frame.c:45-53 | The CRC of the ASCII digits 1 to 9 is the published check value 0x29B1 |
| LinearRegister.SumIsSyndrome | code/portable/frame/frame.c:7-24 | For any linear register, the sum of the results of two messages is what their difference leaves of the empty register |
| LinearRegister.BurstLeavesTrace | code/portable/frame/frame.c:7-15 | For any invertible linear register, a burst no longer than the register never leaves it empty |
| FrameParser.StepKeepsInv | code/portable/frame/frame.c:37-108 | No byte breaks index <= length <= 64 or the link between state and index |
| FrameParser.Parser.Feed | code/portable/frame/frame.c:37-108 | On any byte, the new state, buffer, counters and event are those of the transition function |
| FrameParser.Parser.ResetFrame | code/portable/frame/frame.c:26-33 | Gives up the frame in progress, is idle, and keeps the counters and the buffer |
| FrameProtocol.ResetRestores | code/portable/frame/frame.c:26-33 | After a reset in any valid state the next encoded frame is received at once, without a gap |
| FrameStream.ParserRefinesScan | code/portable/frame/frame.c:37-108 | On every stream the reports of the parser, payloads included, are those of a recursive grammar |
| FrameStream.CrcRun | code/portable/frame/frame.c:69-90 | After a start byte, a good length and a payload, the two checksum bytes are accepted exactly when they are the checksum of length and payload |
| FrameStream.FrameRun | code/portable/frame/frame.c:92-99 | A frame with the right checksum is complete, with its payload, or a framing error, by its end byte |
| FrameRoundTrip.EncodedRuns | code/qemu-cortex-m/06-protocol-state-machine/main.c:77-97 | An encoded frame is reported complete at its last byte with its payload, and nothing before |
| FrameRoundTrip.StreamRoundTrip | code/portable/frame/frame.c:37-108 | Any number of encoded frames with any noise free of start bytes before them come out as exactly their payloads |
| FrameRoundTrip.CompleteIsFrame | code/portable/frame/frame.c:37-108 | The grammar reports a payload only where the bytes up to there end in start byte, its length, its bytes, the checksum of both low byte first, and end byte |
| FrameRoundTrip.GapShrinks | code/portable/frame/frame.c:37-108 | Each byte of a gap free of start bytes brings the parser one step nearer to idle |
| FrameAccounts.EveryByteIsCountedOnce | code/portable/frame/frame.c:39-99 | Start bytes = frames received + frames rejected in each way + the one in progress; bytes = discarded + in ended frames + in progress; the counters are those numbers modulo 2^32 |
| FrameAccounts.ByteInPlace | code/portable/frame/frame.c:39-99 | Each byte goes to the frame in progress, to a frame that ends with it, or to the discarded ones |
| FrameProtocol.FramesSurviveNoise | code/portable/frame/frame.c:37-108 | For the parser's own CRC: frames with noise before, between and after come out as exactly their payloads in order, one report each, and the counters grow by the frames and the noise |
| FrameProtocol.OnlyFramesAreReported | code/portable/frame/frame.c:37-108 | On any stream, a payload is reported only at the last byte of a frame that carries it |
| FrameProtocol.FrameInNumbers | code/portable/frame/frame.c:39-99 | The bytes of a frame, both ways: 02, a length of at most 64, the payload, the CRC of length and payload from 0xFFFF low byte first, 03 |
| FrameProtocol.EncodedIsFrame | code/qemu-cortex-m/06-protocol-state-machine/main.c:77-97 | What the sender sends for a payload is a frame that carries it |
| FrameProtocol.GapRestores | code/portable/frame/frame.c:37-108 | From any state the parser can be in, 68 bytes without a start byte make it idle and the next good frame is received |
| FrameProtocol.ShorterGapIsNotEnough | code/portable/frame/frame.c:37-108 | 67 bytes are not enough: a gap free of start bytes after which the parser still waits for an end byte |
| FrameProtocol.CountersAgree | code/qemu-cortex-m/06-protocol-state-machine/main.c:130-141 | From zeroed counters, modulo 2^32, the counters add up to the start bytes taken, and every byte is counted once |
| FrameDamage.CcittSplits | code/portable/frame/frame.c:77-84 | The two bytes into which the sender splits a checksum make it again, low byte first |
| FrameDamage.ArrivedRuns | code/portable/frame/frame.c:69-99 | A frame with any payload and any checksum bytes is delivered if the checksum is its own; otherwise there is a checksum error and the end byte is discarded |
| FrameDamage.BurstRejected | code/portable/frame/frame.c:69-90 | A payload damaged within 16 consecutive bits always ends in a checksum error |
| FrameDamage.OddRejected | code/portable/frame/frame.c:69-90 | A payload with an odd number of flipped bits always ends in a checksum error |
| FrameDamage.DamageAcceptedIff | code/portable/frame/frame.c:69-99 | Damage to payload and checksum is accepted exactly when what the payload's damage leaves of the empty register is the checksum's damage |
| FrameDamage.OddBodyRejected | code/portable/frame/frame.c:69-99 | An odd number of flipped bits anywhere in payload and checksum is never accepted |
| FrameFewFlips.FewFlipsRejected | code/portable/frame/frame.c:69-90 | A payload with one, two or three flipped bits always ends in a checksum error |
| FrameFewFlips.DeliveredIffEmpties | code/portable/frame/frame.c:69-99 | A frame with any payload and any checksum bytes is delivered exactly when the payload and then the checksum, high byte first, leave the register empty |
| FrameFewFlips.FewBodyFlipsRejected | code/portable/frame/frame.c:69-99 | One, two or three flipped bits anywhere in payload and checksum are never accepted |
| FrameDamage.CrossingBurstEscapes | code/portable/frame/frame.c:77-84 | For every payload, six flipped bits within the 16 that cross from its last byte to the checksum's low byte are delivered with another payload |
| FrameSelfTest.CrcOf | code/qemu-cortex-m/06-protocol-state-machine/main.c:77-84 | The sender's checksum is the one the parser computes over length and payload |
| FrameSelfTest.InjectFrame | code/qemu-cortex-m/06-protocol-state-machine/main.c:86-97 | The bytes passed to the parser are those of the frame, with one bit flipped when asked, and the reports are the parser's on them |
| FrameSelfTest.LowestBitFlipped | code/qemu-cortex-m/06-protocol-state-machine/main.c:91-93 | A corrupt frame differs in the lowest bit of its first payload byte, and nowhere else |
| FrameSelfTest.GoodFrameRuns | code/qemu-cortex-m/06-protocol-state-machine/main.c:86-97 | A frame injected unchanged is received with its payload |
| FrameSelfTest.CorruptFrameRuns | code/qemu-cortex-m/06-protocol-state-machine/main.c:86-97 | A frame injected with a flipped bit ends in a checksum error and one discarded byte |
| FrameSelfTest.SelfTest | code/qemu-cortex-m/06-protocol-state-machine/main.c:109-141 | The five counters after the self-test, for every payload and every amount of noise: 2 received, 1 checksum error, 1 length error, no framing error, noise + 1 discarded |
| BitTiming.Solve | code/portable/can/can_bittiming.c:16-83 | The answer is the best of all accepted pairs of prescaler and first segment, by 32-bit sample point, then quanta, then scan order; there is none exactly when no pair is accepted; with every 32-bit wrap, for all inputs on which the search ends |
| BitTiming.LoopEndsIff | code/portable/can/can_bittiming.c:30 | The condition of the loop over prescalers fails after some number of 32-bit increments exactly when brp_max is below 2^32 - 1 |
| BitTiming.Consider | code/portable/can/can_bittiming.c:46-79 | One step of the inner loop keeps the best of what was scanned |
| BitTiming.TrySplits | code/portable/can/can_bittiming.c:44-79 | The inner loop, with its early break, keeps the best over all splits of a prescaler |
| BitTiming.QuantaProduct | code/portable/can/can_bittiming.c:72 | The product the reported bitrate is divided by is never 0, even when it wraps |
| BitTiming.BeatsIsTransitive | code/portable/can/can_bittiming.c:52-61 | The ranking is transitive, so keeping the better of two is keeping the best |
| BitTimingExact.LegalIsCandidate | code/portable/can/can_bittiming.c:30-49 | Every legal exact triple is accepted by the search; its product never wraps |
| BitTimingExact.AcceptedExactIffFits | code/portable/can/can_bittiming.c:31-35 | What the search accepts has the requested bitrate exactly when its 32-bit product did not wrap |
| BitTimingExact.AcceptedLegalIffSound | code/portable/can/can_bittiming.c:30-49 | What the search accepts is a legal triple exactly when neither its product nor its first segment wrapped |
| BitTimingExact.NeverMisses | code/portable/can/can_bittiming.h:60-66 | The solver answers whenever a legal exact triple exists, for all inputs |
| BitTimingExact.RefusesRightlyIff | code/portable/can/can_bittiming.h:60-66 | The solver answers when and only when a triple is legal, exactly for the inputs that have a legal triple or no accepted pair that wraps |
| BitTimingExact.AnswerExactIff | code/portable/can/can_bittiming.h:60-66 | The answer has the requested bitrate exactly for the inputs on which every accepted pair whose product wraps ranks behind an accepted pair whose product fits |
| BitTimingExact.AnswerLegalIff | code/portable/can/can_bittiming.h:60-66 | The answer is a legal triple exactly for the inputs on which every accepted pair that wraps ranks behind one that does not |
| BitTimingExact.WrappedAnswer | code/portable/can/can_bittiming.c:31-35 | The input for which it answers though no triple is legal |
| BitTimingExact.WrappedSegment | code/portable/can/can_bittiming.c:44-52 | An input for which the first segment wraps: the answer counts it as no quanta |
| BitTimingDefaults.DefaultLegal | code/portable/can/can_bittiming.c:3-9 | What is legal with the default limits, in numbers |
| BitTimingDefaults.Canonical | code/host-tests/test_can_bittiming.c:14-27 | 36 MHz, 500 kbit/s, 875 permille: the whole answer, prescaler 9 and 8 quanta |
| BitTimingDefaults.ShortBus | code/host-tests/test_can_bittiming.c:45-54 | 80 MHz, 1 Mbit/s, 750 permille: the whole answer, with the most quanta of the exact splits and a jump width of 4 |
| BitTimingDefaults.Impossible | code/host-tests/test_can_bittiming.c:83-108 | With the default limits and no product that wraps, a clock of 7 bit times, or of no whole number of them, is refused for every bitrate and target |
| BitTimingRanking.SampleTrueIffFits | code/portable/can/can_bittiming.c:52 | The 32-bit sample point never exceeds the true one in permille, and equals it exactly when 1000 times its numerator fits |
| BitTimingRanking.AnswerSample | code/portable/can/can_bittiming.c:73 | The reported sample point is the true one rounded down exactly then |
| BitTimingRanking.BestAndTrueIff | code/portable/can/can_bittiming.c:52-61 | The answer is the best accepted pair by true sample point, and reports it truly, exactly for the inputs on which every accepted pair whose sample point wraps ranks, in both rankings, behind pairs whose sample point fits |
| BitTimingRanking.AnswerIsOptimal | code/portable/can/can_bittiming.c:52-61 | When no sample point wraps and the pairs that wrap are outranked, the answer is legal and preferred to every legal triple in true arithmetic: sample-point error in permille rounded down, then more quanta, then the smaller first segment |
| BitTimingRanking.WrappedSample | code/portable/can/can_bittiming.c:52 | The input for which the nearest sample point is passed over because it wraps |
| BitTimingRanking.NearestIff | code/portable/can/can_bittiming.c:42-61 | The answer's sample point, unrounded, is nearest to the target of all accepted pairs' exactly for the inputs on which every accepted pair that is not nearest ranks behind one that is |
| BitTimingRanking.BestLegalIff | code/portable/can/can_bittiming.c:42-61 | The answer is legal and the best legal triple by unrounded sample point, then more quanta, then the smaller first segment, exactly when every accepted pair that is not ranks behind one that is |
| BitTimingRanking.UnroundedIsNearest | code/portable/can/can_bittiming.c:52 | It is nearest whenever no sample point wraps and 1000 (1 + tseg1) is divisible by the quanta for every accepted pair |
| BitTimingRanking.NotNearest | code/portable/can/can_bittiming.c:42-61 | With the default limits, at 45 MHz, 500 kbit/s and 877 permille, the answer (prescaler 5, first segment 15) is more than 1.5 permille farther from the target than the legal (6, 12, 2) |
| BitTimingRanking.RoundingCost | code/portable/can/can_bittiming.c:52-61 | What rounding can cost: the answer is less than one permille worse than any legal triple, or less than two when the two tie with the answer above the target and the other below |
| BitTimingRanking.RoundingCostsMoreThanOne | code/portable/can/can_bittiming.c:52-61 | An input where the rounding costs more than 1.8 permille |
| BitTimingExact.MorePrescalerFewerQuanta | code/portable/can/can_bittiming.c:30-38 | Among exact triples the quanta strictly fall as the prescaler rises |
| BitTimingExact.AnswerRate | code/portable/can/can_bittiming.c:72 | An exact answer reports the requested bitrate and no error |
| BitTimingExact.AnswerJumpWidth | code/portable/can/can_bittiming.c:63-65 | The jump width of every answer is at least 1 and at least every width that fits both segments and its limit, and it fits exactly when the first segment and the limit are at least 1 |
| BusLength.LengthIff | code/portable/can/can_bittiming.c:85-110 | A length is within the bound exactly when its round trip with the loop delay fits into TSEG1 less one quantum, for the quantum of q whole nanoseconds, q clock <= brp 10^9 < (q + 1) clock |
| BusLength.WrapsOnlyBeyond32Bits | code/portable/can/can_bittiming.c:85-110 | The value in the source's widths never exceeds the true one and equals it exactly when that fits in 32 bits |
| BusLength.ReportedIsSafe | code/portable/can/can_bittiming.c:85-110 | For all inputs, what is reported satisfies 2 (5 L + delay) f <= (tseg1 - 1) brp 10^9 in exact arithmetic |
| BusLength.OneMoreIsTooMuchIff | code/portable/can/can_bittiming.c:85-110 | One metre more than reported exceeds the budget of that quantum exactly when 2^32 metres do |
| BusLength.LengthMonotone | code/portable/can/can_bittiming.c:85-110 | The length falls with loop delay and clock and rises with prescaler and first segment |
| BusLength.ReportedMonotoneIff | code/portable/can/can_bittiming.c:85-110 | What is reported is monotone in prescaler, first segment, clock and loop delay up to given inputs exactly when the length at those inputs fits in 32 bits |
| BusLength.DelayDominatesIff | code/portable/can/can_bittiming.c:104-109 | In the loop delay alone: a report is at least that of every longer delay exactly when nothing is lost to 32 bits, or the length stands at the end of a turn of 2^32, or no delay is long enough to reach the turn below |
| BusLength.WrappedIsNotMonotone | code/portable/can/can_bittiming.c:104-109 | An input where a longer segment gives a shorter report |
| BusLength.HalfMegabit | code/portable/can/can_bittiming.c:101-110 | At 36 MHz, prescaler 4, first segment 15 and 200 ns, 115 m |
| RtcMath.ToEpoch | peripherals/rtc-examples/rtc_math.h:57-69 | Answers exactly the valid dates, with the seconds of the summed calendar |
| RtcMath.FromEpoch | peripherals/rtc-examples/rtc_math.h:74-96 | Answers exactly the seconds below 146097 days, with a valid date of those seconds; both loops end, the year by 2399, the month by 12 |
| RtcMath.ThereAndBack | peripherals/rtc-examples/rtc_math.h:57-96 | Every valid date comes back from its seconds |
| RtcMath.BackAndThere | peripherals/rtc-examples/rtc_math.h:57-96 | All seconds of the cycle come back from their date |
| RtcMath.YearsClosedForm | peripherals/rtc-examples/rtc_math.h:61-62 | The summed days of the years are the closed form with corrections by 4, 100 and 400, for every year from 2000 on |
| RtcMath.MonthsClosedForm | peripherals/rtc-examples/rtc_math.h:20-27 | The summed days of the months are, for all twelve, the rule that spreads 153 days over five months from March on, with January and February at the end |
| RtcMath.SecondsFollowOrder | peripherals/rtc-examples/rtc_math.h:57-69 | Seconds are ordered exactly as dates are, and equal only for equal dates |
| RtcMath.SecondsInCycle | peripherals/rtc-examples/rtc_math.h:71-72 | Every valid date lies within 146097 days |
| Ledger.CheckRows | scripts/learning.py:42-95 | The loop with its set of identifiers and last date accepts exactly the ledgers in which every row is right, by rules on its fields and those of earlier rows |
| Ledger.AcceptedIff | scripts/learning.py:39-95 | Row after row by filters, earliest dates and independent attempts, or each row by quantified rules on the raw fields: the same ledgers are accepted |
| Ledger.PrefixAccepted | scripts/learning.py:42-95 | Acceptance is closed under prefixes |
| Ledger.InterviewReadyIsEarned | scripts/learning.py:79-94 | Behind every Interview Ready row stand two retests of its item, correct, unassisted and without hints, one at least 7 and one at least 30 days after an earlier correct first or review row |
| LedgerIds.NextIdIsFresh | scripts/learning.py:203 | The identifier given to the next row is well formed and new |
| LedgerIds.NextIdIsNext | scripts/learning.py:203 | Its number is one more than the largest, or 1, with five digits or, without a leading zero, more |
| LedgerIds.NextIdInDigits | scripts/learning.py:203 | The digits are decimal: A00001 first, A00010 after A00009, A100000 after A99999 |
| LedgerSummary.Anchors | scripts/learning.py:168-171 | The summary's dictionary holds the first success in order of every item that has one |
| LedgerSummary.FirstIsEarliest | scripts/learning.py:79-87 | In an accepted ledger the summary's anchor, first in order, is the validator's, earliest by date |
| LedgerSummary.AnchorStays | scripts/learning.py:168-171 | No later row moves an anchor |
| LedgerSummary.DueIffAcceptable | scripts/learning.py:172-176 | For every accepted ledger and every day, a retest is printed as due exactly when it is not done and the validator would accept its interval that day |
| LedgerSummary.DueOnFields | scripts/learning.py:164-176 | On the raw fields of an accepted ledger: a retest is due exactly when a correct first or review row is 7, or 30, days old and no such retest, correct, unassisted and without hints, is dated by today |
| LedgerSummary.Log | scripts/learning.py:200-208 | A row is appended exactly when the ledger and the row are right by the rules on the fields, whatever its identifier, and it is not in the future; its identifier is fresh |

## Left out

- NULL-pointer guards, the `*_name` string functions, and the `default` branches for state values that no run reaches: each is settled by reading one branch.
- The sender's payload pointer: the payload is a value, so a caller that changes the buffer during a transfer is not captured. Library copies are modelled as one method that changes exactly the bytes copied.
- Timers, separation time, limits on wait frames and CAN FD lengths of ISO 15765-2: the code stores `st_min` and `wait_count` and does nothing with them.
- Lossy or reordering channels between sender and receiver: the network has FIFO channels; lost frames are the subject of `IsoTpLoss` and `IsoTpLossySequence`, arbitrary peers of `IsoTpPeer` and `IsoTpHistory`.
- Hardware memory ordering: the fences of the ring buffer are compiler barriers on one core, so interleavings of its accesses in program order are all there is.
- Example 04 with bytes typed on the UART, its printing and its sleep instruction; in example 06 the UART and the printing.
- RingBuf.RingBuffer.constructor: the source initialises the indices only; the buffer starts zeroed here, which nothing depends on.
- FrameDamage.BurstRejected: bursts that reach into the checksum are excluded, because the low byte is sent first; `CrossingBurstEscapes` shows that they can be accepted and `DamageAcceptedIff` says exactly when.
- BitTiming.Solve: requires `brp_max` below 2^32 - 1 unless the clock or the bitrate is 0, because the source's loop over prescalers never ends otherwise (`LoopEndsIff`). The output structure is a returned value.
- BitTimingRanking.AnswerIsOptimal: requires the sample points of all accepted pairs to fit and the pairs that wrap to be outranked, and compares sample points rounded down, as the source does; `BestAndTrueIff`, `NearestIff` and `BestLegalIff` are the exact statements.
- The BCD pair of `rtc_math.h`: 256 cases, each settled by reading.
- Ledger.CheckRows: rows are read before they are checked, and every text that is not a date, a number or a known word makes a row malformed, as it makes the source raise an error; digits are ASCII digits. The category is such a word and has no other effect.
- The catalogue, hashes, folders, statistics and command line of `scripts/learning.py`, and `scripts/check-links.py`.
- Startup code, register accesses and examples 01, 02, 03 and 05: what logic remains there would only add easy members.
