# Verified models of openpilot's transports, signature check and filter buffer

This project models five parts of openpilot in Dafny and proves what their users rely on.

**Shared-memory messaging** (`words.dfy`, `msgq_ring.dfy`, `msgq_steps.dfy`, `msgq_atomic.dfy`, `msgq_link.dfy`,
`msgq_queue.dfy`). One publisher and up to ten subscribers share a byte ring without a lock. `MsgqSteps` is the fine
model: every shared load and store is one step of a state machine, and the theorems hold for every schedule of steps.
`MsgqRing` is the ring with the annotations the invariant needs (which message starts at which offset, where the laps
join). `MsgqAtomic` gives the effect of whole `send`, `recv` and `ready` calls, on which FIFO, conflation and
termination are stated. `MsgqLink` joins the two: a call run alone in the step machine has exactly that effect.
`MsgqQueue` is the object with its byte array, its read pointers and its valid flags, proved against those functions.

**Firmware signature check** (`limbs.dfy`, `fermat.dfy`, `rsa.dfy`, `sha1.dfy`, `sha1_laws.dfy`, `sha1_example.dfy`).
Multi-word numbers are word arrays; their values are unbounded integers. The Montgomery loops, the modular
exponentiation, the padding comparison and the streaming SHA-1 are proved to compute the mathematical functions, with
every 64-bit intermediate shown to fit. `Fermat` proves Fermat's little theorem, and from it that exponents inverse
modulo p - 1 and q - 1 undo each other modulo p * q. `Sha1Laws` says what the words, constants and padding of the
SHA-1 specification are as numbers, and `Sha1Example` carries the two-block example of FIPS 180-4 through it.

**CAN transports** (`can_stream.dfy`, `usb_board.dfy`, `usb_host.dfy`, `isotp.dfy`). The stream of frames cut into
64-byte USB packets, with the firmware's segmenter and reassembler, both host packers and both host unpackers; and the
two ISO 15765-2 implementations.

**Filter rewind buffer** (`ekf.dfy`). Late observations roll the filter back to a checkpoint and are replayed. The
numeric predict and update steps are arbitrary functions; times are real numbers.

**DBC packing, checksums and CRCs** (`bits.dfy`, `crc.dfy`, `dbc.dfy`, `dbc_check.dfy`, `dbc_message.dfy`,
`dbc_laws.dfy`). Words are modelled by their bits, so that shifts, masks and byte reversal are what they are in the
code; the CRC register is related to polynomial division over GF(2). `DbcLaws` says where the signals lie in the bytes
of the frame and what its bytes add up to, or leave in the CRC register, when the checksum is right.

State that the source changes in place is a class or an array here, and its loops are loops; each method is proved
against a function of its inputs or old state, and the theorems are lemmas about those functions. Where a method and
its function could only be wrong together, a law says what the function is worth without it: concrete frames and
digests, values as integers, what a whole run adds up to.

Seven results are properties that hold only under a condition, and the condition is exact:

- A reader in sync still gets the message due to it exactly when it survives the send, which can be read off the
  offsets and laps before the call (`MsgqAtomic.SendLosesNothingIff`, `MsgqAtomic.Survives`). Without a wraparound
  it survives when its offset is outside the area about to be written, up to and including the new write offset, or
  is the old write offset on the current lap; with one, when its offset lies beyond that area and not beyond the old
  write offset. If it does not survive, no later sequence of calls delivers it anything sent so far.
  `MsgqAtomic.LappedReaderSkips` is a run in which three messages vanish silently, because `msgq.cc:357` compares
  offsets only and the scan at `msgq.cc:254` is strict.
- `isotp.py` gives a message back exactly unless its sub-address is zero and it has more than six bytes
  (`IsoTp.IsotpRoundTrip`), because `isotp_send` tests `if subaddr` where its single-frame case tests for `None`.
- A board-to-host transfer cuts a frame exactly when the supply fills its first 255 packets as they are asked for
  and some frame of it starts before byte 63 * 255 and ends after byte 63 * 256 (`UsbBoard.Cuts`, decided by the queue
  and the arrivals alone; `UsbBoard.Ep1.ReadTransfer`). Classic frames are too short for that; CAN-FD frames are not,
  and `UsbBoard.LateRun` is a run of 237 frames of which the last is cut. The hosts decode the popped frames if none
  is cut, and otherwise lose the last one, the C++ host after reading past its buffer (`UsbHost.CanReceive`).
- An `IsoTpMessage` receiver takes a block of consecutive frames exactly when it stays inside the message
  (`IsoTp.BlockReceivedIff`); asked for a larger block, the sender emits empty frames past the end, and the same
  class's receiver asserts on the first of them.
- Consecutive frames lost on the way are noticed at the next one exactly when their number is not a multiple of
  sixteen, by either receiver (`IsoTp.MissedFramesIff`, `IsoTp.MissedFramesCollectIff`).
- A run of wrong counters, of any length, is accepted exactly when the failures before it and its length add up to
  less than five modulo 256 (`DbcMessage.WrongCountersIff`): the count is a byte, so a counter that never moves is
  accepted again from the 256th frame to the 260th (`DbcMessage.StuckCounter`). Right counters are all accepted and
  count the failures down to zero (`DbcMessage.RightCounters`).
- A signal value packed into a frame is the value parsed out of it exactly when it is in the signal's range
  (`DbcMessage.ValueReturnsIff`).

The comments disagree with the code in one place, and the code is followed: `rsa.c` speaks of 2048-bit keys and of
SHA-256, while `RSA_verify` accepts 128-byte signatures and 20-byte hashes only.

## Model

| member | source | states |
|---|---|---|
| Words.Int64RoundTrip | cereal/messaging/msgq.cc:244-284 | A signed 64-bit size or wraparound tag read back from the eight bytes stored for it is the value stored |
| MsgqSteps.PackRoundTrip | cereal/messaging/msgq.h:11-12 | Unpacking a packed (cycles, offset) word gives both back; the queue object stores its pointers packed |
| MsgqRing.TagWrapKeepsInv | cereal/messaging/msgq.cc:243-257 | Storing the -1 tag at the write offset keeps every invariant of the ring |
| MsgqRing.StartLapKeepsInv | cereal/messaging/msgq.cc:259-266 | Moving the write offset to 0 on the next lap keeps them: what the lap left behind is still readable in order |
| MsgqRing.StoreSizeKeepsInv | cereal/messaging/msgq.cc:268-284 | Storing the size tag of a message over the cleared area keeps them |
| MsgqRing.PublishKeepsInv | cereal/messaging/msgq.cc:286-292 | Advancing the write pointer past a complete message keeps them |
| MsgqRing.CurrentLapTiles | cereal/messaging/msgq.cc:240-292 | The messages of the current lap tile the segment from 0 to the write offset, each with its tag and its bytes |
| MsgqSteps.ReaderStepKeeps | cereal/messaging/msgq.cc:331-415 | One shared access of a reader, at any point of recv and in any state of the ring, keeps that reader's invariant |
| MsgqSteps.ReaderStepStaysClear | cereal/messaging/msgq.cc:268-279 | A reader the second scan has passed stays out of the area about to be overwritten, whatever it does meanwhile |
| MsgqSteps.StepKeeps | cereal/messaging/msgq.cc:219-415 | One step of the writer or of any reader keeps the whole-state invariant, as long as no valid reader has fallen 2^32 laps behind |
| MsgqSteps.RunKeeps | cereal/messaging/msgq.cc:219-415 | Every schedule in which no valid reader falls 2^32 laps behind keeps it, over any number of laps |
| MsgqSteps.EveryScheduleIsAuthentic | cereal/messaging/msgq.cc:331-415 | For every interleaving, each message recv returned is byte for byte one that was sent, each reader's messages are in strictly increasing send order, and recv's size assertions hold |
| MsgqSteps.EveryScheduleKeepsLayout | cereal/messaging/msgq.cc:227-415 | In every reachable state, also halfway through a send, the current lap tiles the ring with 8-byte alignment, and every valid reader, at every point of recv, stands at the write offset, at a wraparound tag beyond it, or at an intact message of the current lap before it or of an older lap beyond it; once it has read a size, the payload it is to copy is that message's |
| MsgqAtomic.SendKeeps | cereal/messaging/msgq.cc:219-292 | A whole send keeps the invariant of the ring and of every reader, over any number of laps, unless it would leave a valid reader 2^32 laps behind |
| MsgqAtomic.WrapsIff | cereal/messaging/msgq.cc:227-292 | A send starts the next lap exactly when the message rounded up to eight bytes with its tag, and the tag after it, do not fit before the end with a byte to spare; otherwise it moves on by the rounded size |
| MsgqAtomic.SurvivesIsNotLapped | cereal/messaging/msgq.cc:240-292 | The offsets and laps before a send decide whether a reader's flag is set and its offset differs from the write offset after it |
| MsgqAtomic.SendKeepsSyncIff | cereal/messaging/msgq.cc:240-292 | A reader in sync stays in sync if and only if it survives the send |
| MsgqAtomic.LappedIsPast | cereal/messaging/msgq.cc:331-359 | A reader whose flag is clear or which stands at the write offset is past everything sent so far |
| MsgqAtomic.OnlyLater | cereal/messaging/msgq.cc:219-415 | A reader past some message never gets it or an earlier one, whatever is sent, received or polled afterwards and for however many laps |
| MsgqAtomic.SendLosesNothingIff | cereal/messaging/msgq.cc:240-404 | A reader in sync that survives a send gets the message due by its next recv; one that does not survive gets nothing sent so far by any sequence of calls |
| MsgqAtomic.AttemptKeeps | cereal/messaging/msgq.cc:331-415 | One pass of recv's goto loop keeps the reader's invariant and, when it jumps back, decreases a measure |
| MsgqAtomic.RecvDelivers | cereal/messaging/msgq.cc:304-415 | recv on a quiescent queue returns a message exactly when msgq_msg_ready is non-zero: the next one, or with conflation the most recently sent one; having returned none it has caught up |
| MsgqAtomic.RecvInSync | cereal/messaging/msgq.cc:331-415 | A reader in sync receives exactly the message due and stays in sync |
| MsgqAtomic.PollSyncs | cereal/messaging/msgq.cc:304-328 | After polling the flag is set, and the reader is as it was or, if the flag was clear, in sync with nothing due |
| MsgqAtomic.PolledGetsNext | cereal/messaging/msgq.cc:304-415 | A reader with a clear flag that is polled before a message is sent gets that message by its next recv, in either mode; not polled, it gets nothing |
| MsgqAtomic.LosslessFifo | cereal/messaging/msgq.cc:240-404 | Over any sequence of sends, receives and polls and any number of wraparounds, a reader that survives every send gets exactly the messages from the one due onwards, in order |
| MsgqAtomic.LossIsForever | cereal/messaging/msgq.cc:240-404 | The converse: over any sequence with a send it does not survive, a message due to it is never delivered |
| MsgqLink.SendCompletes | cereal/messaging/msgq.cc:219-292 | In the step machine, the writer's steps alone from one call to the next have exactly the effect of MsgqAtomic.Send on bytes, pointers and flags |
| MsgqLink.RecvCompletes | cereal/messaging/msgq.cc:331-415 | One reader's steps alone from one call to the next have exactly the effect of MsgqAtomic.Recv, and hand over exactly its message |
| MsgqLink.PollRuns | cereal/messaging/msgq.cc:304-328 | A poll is at most one step of the reader and has exactly the effect of MsgqAtomic.Poll |
| MsgqLink.CallsAreSchedules | cereal/messaging/msgq.cc:219-415 | Every sequence of whole calls, polls among them, is a schedule of the step machine with the same final state and the same deliveries |
| MsgqAtomic.LappedReaderSkips | cereal/messaging/msgq.cc:250-357 | A concrete run where a reader exactly one lap behind is told there is nothing and loses three messages |
| MsgqQueue.SharedQueue.constructor | cereal/messaging/msgq.cc:145-217 | A fresh queue with its readers in sync and nothing due |
| MsgqQueue.SharedQueue.InvalidateBeyond | cereal/messaging/msgq.cc:247-257 | Clears exactly the flags of readers of another lap beyond the write offset |
| MsgqQueue.SharedQueue.InvalidateRange | cereal/messaging/msgq.cc:268-279 | Clears exactly the flags of readers of another lap inside the area about to be written |
| MsgqQueue.SharedQueue.Send | cereal/messaging/msgq.cc:219-292 | The stores into the segment, the pointers and the flags have the effect of MsgqAtomic.Send |
| MsgqQueue.SharedQueue.ResetReader | cereal/messaging/msgq.cc:70-74 | Revalidates the reader at the write pointer |
| MsgqQueue.SharedQueue.Ready | cereal/messaging/msgq.cc:304-328 | Answers yes exactly when the flag was set and there is something to read; leaves the flag set and the whole queue as MsgqAtomic.Poll says: unchanged, or the reader at the write pointer |
| MsgqQueue.SharedQueue.StorePointer | cereal/messaging/msgq.cc:375-404 | Stores a packed read pointer: that reader moves, nothing else changes |
| MsgqQueue.SharedQueue.Pass | cereal/messaging/msgq.cc:331-415 | One pass over the stored bytes has the effect of MsgqAtomic.Attempt |
| MsgqQueue.SharedQueue.Recv | cereal/messaging/msgq.cc:331-415 | The goto loop terminates with the result and state of MsgqAtomic.Recv |
| MsgqQueue.SharedQueue.AllReadersUpdated | cereal/messaging/msgq.cc:456-464 | Answers yes exactly when there is a reader and every valid one is at the write pointer; then none has anything left to read |
| Rsa.SubM | panda/crypto/rsa.c:32-42 | In place, a - n on the unbounded values, given the borrow that is dropped |
| Rsa.GeM | panda/crypto/rsa.c:44-53 | True exactly when a is at least n |
| Rsa.Fits64 | panda/crypto/rsa.c:60-71 | No 64-bit intermediate of the word loop overflows |
| Rsa.LowWordVanishes | panda/crypto/rsa.c:60-62 | The quotient word chosen with n0inv makes the low word of the sum zero |
| Rsa.FinalCarry | panda/crypto/rsa.c:71-75 | The carry out of the loop is 0 or 1, and if it is 1 the rest is below n |
| Rsa.Reduced | panda/crypto/rsa.c:75-78 | The carry-triggered subtraction restores c below R and the congruence |
| Rsa.MontMulAdd | panda/crypto/rsa.c:56-79 | 2^32 times the new c is congruent to a * b + c modulo n, with c below R |
| Rsa.MontMul | panda/crypto/rsa.c:81-92 | R * c is congruent to a * b modulo n for all word arrays a and b of the key's length |
| Rsa.MontEnter | panda/crypto/rsa.c:116-124 | Multiplying by rr brings a value into the Montgomery domain |
| Rsa.MontInside | panda/crypto/rsa.c:118-125 | Products inside the domain are products outside it |
| Rsa.MontLeave | panda/crypto/rsa.c:121-126 | Multiplying by the plain operand leaves the domain |
| Rsa.SixteenSquarings | panda/crypto/rsa.c:117-120 | The eight double squarings raise to the power 65536 without aliasing an operand |
| Rsa.OneSubtraction | panda/crypto/rsa.c:129-132 | One conditional subtraction reduces canonically when n is at least R / 2 |
| Rsa.LoadWords | panda/crypto/rsa.c:104-112 | The words loaded have the value of the big-endian bytes |
| Rsa.StoreWords | panda/crypto/rsa.c:134-142 | The bytes stored have the value of the words |
| Rsa.Modpow | panda/crypto/rsa.c:96-142 | In place, the bytes s become s^e mod n for e = 3 and e = 65537; congruent for any valid key, canonical when n is at least R / 2 |
| Rsa.MatchesPadding | panda/crypto/rsa.c:264-293 | The xor of the hash and the comparison succeed exactly when the bytes are the padded hash |
| Rsa.EncodedValue | panda/crypto/rsa.c:187-204 | The padded hash is the number 2^1009 - 2^168 + hash |
| Rsa.Verify | panda/crypto/rsa.c:222-294 | Returns 1 only if the sizes and exponent are the supported ones and s^e is congruent to 00 01 ff..ff 00 and the hash; for n of at least R / 2, if and only if s^e mod n is that number |
| Fermat.LittleTheorem | panda/crypto/sign.py:33 | x^p is congruent to x modulo a prime p |
| Fermat.Inverts | panda/crypto/sign.py:33 | For distinct primes p and q and d * e equal to 1 modulo p - 1 and q - 1, raising to d and then to e modulo p * q gives every residue back |
| Rsa.AcceptedIffSigned | panda/crypto/sign.py:32-35 | With such a key pair, 128 bytes are accepted as signature of a hash exactly when modulo n they are the ones sign.py makes |
| Rsa.SignedIsAccepted | panda/crypto/sign.py:32-35 | Every signature sign.py makes with the private exponent is accepted |
| Sha1.ChoiceForm | panda/crypto/sha.c:63-64 | The code's first round function is Ch |
| Sha1.MajorityForm | panda/crypto/sha.c:67-68 | The code's third round function is Maj |
| Sha1.SumForm | panda/crypto/sha.c:61-70 | The order in which the code adds gives the sum T of section 6.1.2 |
| Sha1.RoundSum | panda/crypto/sha.c:60-70 | One round's sum, all four ranges of t |
| Sha1Laws.RotlDoubles | panda/crypto/sha.c:34 | Rotating by one doubles the word and brings the top bit round |
| Sha1Laws.RotlRepeats | panda/crypto/sha.c:34 | Rotating by five is rotating by one five times |
| Sha1Laws.RotlInverts | panda/crypto/sha.c:34 | Rotating by thirty is undone by rotating by one twice |
| Sha1Laws.AddIsModular | panda/crypto/sha.c:61-70 | Additions are sums modulo 2^32 |
| Sha1Laws.ParityIsOdd | panda/crypto/sha.c:66 | The second round function has the bits an odd number of its arguments have |
| Sha1Laws.ConstantIsRoot | panda/crypto/sha.c:64-70 | The four constants are the integer parts of 2^30 times the square roots of 2, 3, 5 and 10 |
| Sha1Laws.InitialCounts | panda/crypto/sha.c:94-102 | The octets of the initial hash value count the hexadecimal digits up and down |
| Sha1Laws.WordIsHorner | panda/crypto/sha.c:42-48 | A schedule word has the value of its four big-endian octets |
| Sha1Laws.OctetsOfWord | panda/crypto/sha.c:161-167 | The octets of a word read back are the word |
| Sha1.Context.constructor | panda/crypto/sha.c:94-102 | The initial hash value, nothing absorbed |
| Sha1.Context.Expand | panda/crypto/sha.c:37-52 | The 80 words are the message schedule of the block |
| Sha1.Context.Transform | panda/crypto/sha.c:36-84 | The state becomes the FIPS 180-4 compression of the old state and the block |
| Sha1.AbsorbSplit | panda/crypto/sha.c:105-118 | Whole blocks can be absorbed separately |
| Sha1.AbsorbOctet | panda/crypto/sha.c:110-117 | One more octet completes a block or leaves the state |
| Sha1.Context.Update | panda/crypto/sha.c:105-118 | The context has absorbed what it had and the data, for any cut of the data |
| Sha1.Context.PadZeros | panda/crypto/sha.c:126-129 | The loop ends after the zeros section 5.1.1 asks for, and no more |
| Sha1.Context.PutLength | panda/crypto/sha.c:143-159 | Appends the 64-bit big-endian bit count |
| Sha1.PaddedWhole | panda/crypto/sha.c:126-159 | The padded message is a whole number of blocks |
| Sha1Laws.LengthValue | panda/crypto/sha.c:143-159 | The eight octets appended are worth the bit count, for any count below 2^64 |
| Sha1Laws.PaddingSays | panda/crypto/sha.c:121-159 | The padded message is the message, 0x80, as few zero octets as make whole blocks, and eight octets worth eight times the length |
| Sha1.Context.Final | panda/crypto/sha.c:121-170 | The buffer starts with the SHA-1 of everything absorbed, below 2^61 bytes |
| Sha1.Context.StoreDigest | panda/crypto/sha.c:161-169 | The five state words as 20 big-endian bytes |
| Sha1.Hash | panda/crypto/sha.c:173-179 | SHA_hash is SHA-1 |
| Sha1.HashPieces | panda/crypto/sha.c:105-118 | So is any sequence of updates whose pieces join to the message |
| Sha1Example.ExampleDigest | panda/crypto/sha.c:36-179 | The 56-octet example of FIPS 180-4, which pads to two blocks, has the digest 84983E44 1C3BD26E BAAE4AA1 F95129E5 E54670F1 |
| Ekf.SortByTimeIsStable | rednose/helpers/ekf_sym.cc:126-143 | The order the model calls in-order is the stable sort: sorted, a permutation, simultaneous observations as they came |
| Ekf.StepClock | rednose/helpers/ekf_sym.cc:159-210 | One observation is one prediction exactly up to its time, and then its measurements in order |
| Ekf.FoldClock | rednose/helpers/ekf_sym.cc:159-210 | A log predicts once for each observation, up to its time, and applies every measurement at the time and with the kind of its own observation; without an initial time the clock starts at the first one |
| Ekf.FoldPredicts | rednose/helpers/ekf_sym.cc:197-210 | For an additive predict, observations without measurements predict over the time from the start, or from the first of them, to the last |
| Ekf.CheckpointsExtend | rednose/helpers/ekf_sym.cc:145-150 | A new checkpoint is the in-order state right after its observation |
| Ekf.CheckpointsDropFirst | rednose/helpers/ekf_sym.cc:152-156 | Dropping the oldest leaves the others right |
| Ekf.CutPoint | rednose/helpers/ekf_sym.cc:126-142 | The checkpoint rewinding stops at is the in-order state before every later observation |
| Ekf.EKFSym.constructor | rednose/helpers/ekf_sym.cc:7-44 | A filter without a time and with an empty history |
| Ekf.EKFSym.InitState | rednose/helpers/ekf_sym.cc:46-52 | Restarts the filter, with or without a time |
| Ekf.EKFSym.Predict | rednose/helpers/ekf_sym.cc:197-210 | One prediction over a time step that is never negative |
| Ekf.EKFSym.Checkpoint | rednose/helpers/ekf_sym.cc:145-157 | The three deques stay a correct history of at most 512 entries |
| Ekf.EKFSym.StepObservation | rednose/helpers/ekf_sym.cc:159-195 | One in-order observation extends the log by itself, and the estimate is that of the in-order state |
| Ekf.EKFSym.PopLater | rednose/helpers/ekf_sym.cc:130-135 | Pops exactly the checkpoints later than t and never empties the history |
| Ekf.EKFSym.Rewind | rednose/helpers/ekf_sym.cc:126-143 | The filter is the in-order state of the observations up to t; the rest are returned in order |
| Ekf.EKFSym.Replay | rednose/helpers/ekf_sym.cc:111-115 | Replaying them restores them to the log, keeping the 512 newest checkpoints |
| Ekf.EKFSym.PredictAndUpdateBatch | rednose/helpers/ekf_sym.cc:84-118 | Refuses exactly the observations too old; otherwise inserts the observation in stable time order, and the estimate is the in-order one at its own time |
| Ekf.RunSortsAccepted | rednose/helpers/ekf_sym.cc:84-118 | After any arrivals the history is the stable sort of what was accepted |
| Ekf.InOrderIsAccepted | rednose/helpers/ekf_sym.cc:90-96 | Observations in time order are all accepted |
| Ekf.AcceptsIff | rednose/helpers/ekf_sym.cc:90-96 | After any arrivals, an observation is accepted exactly when it is not older than the newest one, or at most max_rewind_age older and not older than the oldest of the last 512 |
| Ekf.LateEqualsInOrder | rednose/helpers/ekf_sym.cc:84-157 | Any arrival order ends where feeding the accepted observations in time order ends |
| Ekf.EKFSym.ProcessRun | rednose/helpers/ekf_sym.cc:84-157 | The filter state after any run is the fold of the accepted observations in stable time order, whatever was dropped beyond 512 |
| Ekf.ClockedRun | rednose/helpers/ekf_sym.cc:84-210 | After any arrivals, late or not, a filter that keeps its clock has predicted up to each accepted observation once, in time order, and applied each measurement at its own time |
| CanStream.HeaderRoundTrip | panda/board/can_definitions.h:4-13 | The packed five-byte header gives every field back |
| CanStream.ParseFlatten | panda/board/usb_protocol.h:91-104 | Frames laid end to end are found again, for any frames and any unfinished rest |
| CanStream.ParseLosesNothing | panda/board/usb_protocol.h:91-104 | The frames found and the rest are the stream |
| CanStream.ParseConcat | panda/board/usb_protocol.h:71-104 | Reading in two portions finds the same frames |
| CanStream.FramedByte | selfdrive/boardd/panda.cc:368-377 | One more byte is preceded by a counter exactly at a packet start |
| CanStream.UnframedFramed | selfdrive/boardd/panda.cc:432-442 | Dropping the counters gives the payload back, and up to 256 packets every counter is right |
| CanStream.CountersRightIff | selfdrive/boardd/panda.cc:434-438 | The counters are right exactly when the bytes at the multiples of 64 count up |
| UsbBoard.Ep3.Assemble | panda/board/usb_protocol.h:74-89 | Bytes completing or lengthening the buffered frame lose nothing; the 72-byte buffer does not overflow |
| UsbBoard.Ep3.SplitFrames | panda/board/usb_protocol.h:91-104 | The rest of a packet is split into whole frames and the start of one |
| UsbBoard.Ep3.Ep3Out | panda/board/usb_protocol.h:62-106 | Frames sent and bytes kept are the greedy parse of the bytes kept before and the packet; a packet out of sequence changes nothing; one too short for the frame under way completes or lengthens it with left-over bytes |
| UsbBoard.Ep3.ReceiveTransfer | panda/board/usb_protocol.h:62-106 | A whole transfer makes can_send be called with exactly its frames, in order |
| UsbBoard.Ep1.SendTail | panda/board/usb_protocol.h:16-27 | The buffered tail goes first, in full or 63 bytes of it |
| UsbBoard.Ep1.SendQueued | panda/board/usb_protocol.h:33-47 | Frames are popped in order until the packet is full or the queue is empty, and every byte is in the packet or the buffer |
| UsbBoard.Ep1.Ep1In | panda/board/usb_protocol.h:11-57 | The packet and the buffer are the counter, the old buffer and the popped frames; a short packet leaves nothing behind; the forced end is short exactly below 63 waiting bytes |
| UsbBoard.StraddlesIff | panda/board/usb_protocol.h:11-57 | More than one packet of a frame is waiting at the forced end exactly when some frame of the supply starts before byte 63 * 255 and ends after byte 63 * 256 |
| UsbBoard.SilentCuts | panda/board/usb_protocol.h:11-57 | Without arrivals, such a frame in the queue is all it takes |
| UsbBoard.ClassicFits | panda/board/usb_protocol.h:11-57 | Classic frames, whatever is queued and arrives, are never cut |
| UsbBoard.Ep1.ReadTransfer | panda/board/usb_protocol.h:11-57 | For any frames arriving at any time, the packets up to the first short one or the 256th are the framed bytes of the popped frames with counters from 0; there are 256 exactly when the supply fills 255 in time, and the transfer ends on a frame boundary if and only if the queue and the arrivals do not make it cut a frame |
| UsbBoard.LateRun | panda/board/usb_protocol.h:11-57 | A run of CAN-FD frames whose transfer of 0x4000 bytes ends inside a frame, with five bytes left in the buffer |
| UsbBoard.CutFrame | panda/board/usb_protocol.h:16-49 | A payload that misses the end of the last popped frame holds exactly the frames before it and an unfinished one |
| UsbHost.LenToDlcInverts | selfdrive/boardd/panda.cc:357-366 | The length-code arithmetic inverts the table exactly on the lengths in it |
| UsbHost.PythonLenToDlc | panda/python/__init__.py:24-26 | The table search finds the code of a length in the table |
| UsbHost.WireRoundTrip | selfdrive/boardd/panda.cc:397-404 | A packed frame is read back as the message, whatever the unset header bits hold |
| UsbHost.EveryBusOnce | selfdrive/boardd/boardd.cc:188 | With offsets of four buses to a panda, a message is for the one panda its bus divided by four names |
| UsbHost.AddressedOne | selfdrive/boardd/panda.cc:384-404 | A panda takes a message for one of its own buses, with the bus number modulo four |
| UsbHost.AddressedInOrder | selfdrive/boardd/panda.cc:384-404 | Of two lists in a row it takes what it takes of each, in order |
| UsbHost.WritePacket | selfdrive/boardd/panda.cc:368-377 | The buffer holds the framed payload so far and the new bytes |
| UsbHost.PackCanBuffer | selfdrive/boardd/panda.cc:379-411 | The transfers carry exactly the frames of the messages for this panda, in order, and the 512-byte buffer suffices |
| UsbHost.PythonHeader | panda/python/__init__.py:35-44 | The Python header bytes are the same |
| UsbHost.Chunks | panda/python/__init__.py:28-47 | The chunks are whole frames and join to all of them |
| UsbHost.ApplyCounters | panda/python/__init__.py:49-57 | A counter before every 63 bytes |
| UsbHost.PythonPack | panda/python/__init__.py:28-57 | The transfers carry exactly the frames of the messages, in order |
| UsbHost.DropCounters | selfdrive/boardd/panda.cc:432-442 | Fails exactly at a wrong counter, else yields the payload |
| UsbHost.UnpackCanBuffer | selfdrive/boardd/panda.cc:432-462 | For any data: malformed exactly at a wrong counter, read past the end exactly when the payload ends inside a frame, else the frames of the payload |
| UsbHost.PythonSplit | panda/python/__init__.py:68-94 | The inner loop finds the frames of a chunk and keeps the unfinished one |
| UsbHost.PythonReadsHostFrame | panda/python/__init__.py:75-91 | The shifts of the Python host read the same address, bus, 128 for an echo and 192 for a rejection, and data as the bit fields of the C++ host; a later panda adds its offset |
| UsbHost.GoodUpTo | panda/python/__init__.py:63-67 | The payload used is that of the packets before the first wrong counter |
| UsbHost.PythonUnpack | panda/python/__init__.py:59-95 | The frames of the payload up to the first wrong counter |
| UsbHost.CanSend | selfdrive/boardd/panda.cc:379-417 | boardd to board: can_send gets exactly the messages for this panda, in order |
| UsbHost.CanSendMany | panda/python/__init__.py:28-57 | The same from the Python library |
| UsbHost.CanReceive | panda/board/usb_protocol.h:11-57 | Board to host: both unpackers decode one transfer to exactly the popped frames unless the queue and the arrivals make it cut one, which classic frames never do; then the Python host gets all but the last and the C++ host reads past the end |
| IsoTp.PayloadsCarry | panda/python/uds.py:470-480 | The first bytes and the payloads of k consecutive frames begin with the message |
| IsoTp.EnoughFrames | panda/python/uds.py:470-484 | len / 7 consecutive frames (len / 6 with a sub-address) carry all of it and one fewer do not |
| IsoTp.ThreeBytes | panda/python/isotp.py:69-72 | A three-byte message on the wire, byte by byte, with and without a sub-address |
| IsoTp.TwentyBytes | panda/python/uds.py:390-480 | A twenty-byte message on the wire: 10 14, 21 and 22 |
| IsoTp.TwentyBytesAddressed | panda/python/isotp.py:73-92 | The same with a sub-address: one frame more, each a byte shorter |
| IsoTp.IsoTpMessage.Send | panda/python/uds.py:365-395 | A single frame for up to 7 bytes, else the first frame and nothing done |
| IsoTp.IsoTpMessage.TxConsecutive | panda/python/uds.py:475-480 | The next consecutive frames, numbered on, up to the block's end |
| IsoTp.IsoTpMessage.FlowControl | panda/python/uds.py:458-490 | A continue sends its block, or all of it for block size 0; done exactly when the message is covered; waits and refused frames change nothing; before the first send the attribute is missing |
| IsoTp.IsoTpMessage.RxNext | panda/python/uds.py:418-490 | Every kind of frame, also before the first send: the reassembly state, the reply, the failed assertion or missing attribute |
| IsoTp.ConsecutiveReceived | panda/python/uds.py:444-455 | The next consecutive frame extends the received prefix and passes the index assertion |
| IsoTp.BlockReceivedIff | panda/python/uds.py:444-484 | A block of consecutive frames is received without a failed assertion if and only if it stays inside the message |
| IsoTp.MissedFramesIff | panda/python/uds.py:444-455 | After j missing frames the next one fails the index assertion unless j is a multiple of sixteen |
| IsoTp.ConsecutiveTakenIff | panda/python/uds.py:444-455 | A consecutive frame is taken exactly when a message is under way and the frame has the next number |
| IsoTp.TakenIff | panda/python/uds.py:458-490 | Flow control is taken exactly when a transmission is under way and it is a wait or a continue of three bytes |
| IsoTp.RunFlowControl | panda/python/uds.py:458-490 | For any waits and block sizes no assertion fails, the frames are numbered 1, 2, 3, and so on modulo 16, carry the message, and ceil((len - 6) / 7) continues finish it |
| IsoTp.Exchange | panda/python/uds.py:365-490 | Sender and receiver objects: every message of 0 to 4095 bytes arrives and no assertion fails |
| IsoTp.IsotpSend | panda/python/isotp.py:65-105 | The frames of the message; with a zero sub-address and more than six bytes they lack it |
| IsoTp.ReassembleFrames | panda/python/isotp.py:32-142 | Either receiver of isotp.py returns every message of up to 4095 bytes from its frames |
| IsoTp.MissedFramesCollectIff | panda/python/isotp.py:50-54 | Here, too, j missing frames are noticed unless j is a multiple of sixteen |
| IsoTp.WaitsIff | panda/python/isotp.py:32-142 | The receiver waits exactly for its first frame, and then while the frames that came cannot hold the bytes to come |
| IsoTp.FailsIff | panda/python/isotp.py:32-142 | It fails exactly on a first frame that is neither a single nor a first frame with the prefix, or on a frame out of turn among those it waited for |
| IsoTp.IsotpRecv | panda/python/isotp.py:107-142 | Reassembly of whatever arrives, with its failures and its waiting; it sends one continue frame, 30 and zeros after the sub-address, exactly when the frame it starts with is a first frame with the right prefix, and otherwise nothing |
| IsoTp.IsotpRoundTrip | panda/python/isotp.py:32-142 | isotp.py to isotp.py gives the message back if and only if the sub-address is not dropped |
| IsoTp.UdsToIsotp | panda/python/uds.py:365-490 | IsoTpMessage to isotp.py, every message of up to 4095 bytes: the sender is handed what the receiver sends on its first frame, and finishes |
| IsoTp.IsotpToUds | panda/python/isotp.py:65-105 | isotp.py to IsoTpMessage, every message of up to 4095 bytes; the receiver answers the first frame, and only that, with one continue |
| Crc8.DivisionIdentity | opendbc/can/common.cc:75-89 | Long division: dividend = quotient * polynomial + remainder over GF(2) |
| Crc8.DivisionUnique | opendbc/can/common.cc:75-89 | No other quotient and remainder do |
| Crc8.CrcIsRemainder | opendbc/can/common.cc:75-108 | The bitwise CRC is the remainder of the message polynomial, for every polynomial, initial value and length |
| Crc8.DetectsExactlyOdd | panda/board/crc.h:1-17 | Every corruption confined to one byte changes the CRC if and only if the polynomial is odd |
| Crc8.ShiftEight | panda/board/crc.h:7-14 | Eight shifts of the register |
| Crc8.CrcChecksum | panda/board/crc.h:1-17 | The CRC of the buffer from its end to its start, for any length |
| Crc8.GenCrcLookupTable | opendbc/can/common.cc:75-89 | Entry i is i after eight shifts |
| Crc8.TableCrc | opendbc/can/common.cc:104-108 | The table-driven loop is the bitwise CRC |
| Crc8.ChryslerLoop | opendbc/can/common.cc:43-68 | The bit-serial loop is the CRC with polynomial 0x1D |
| DbcLaws.CrcOnBytes | opendbc/can/common.cc:75-108 | The CRC on octets of bits is the register arithmetic on bytes |
| DbcLaws.J1850Check | opendbc/can/common.cc:40-70 | 0x1D with FF before and after is CRC-8/SAE-J1850: check value 4B |
| DbcLaws.AutosarCheck | opendbc/can/common.cc:94-108 | 0x2F with FF before and after is CRC-8/AUTOSAR: check value DF |
| DbcLaws.DvbCheck | opendbc/can/common.cc:178-198 | 0xD5 is the polynomial of CRC-8/DVB-S2: check value BC |
| Bits64.ReverseBytesAt | opendbc/can/packer.cc:11-20 | ReverseBytes moves each bit to the mirrored byte |
| Bits64.ReadBack | opendbc/can/common.cc:201-221 | A word's bytes read big-endian give the word, little-endian its reversal |
| Dbc.SetValueAt | opendbc/can/packer.cc:23-34 | set_value stores the low bits of the value in the signal's bits and touches no other |
| DbcLaws.BigEndianOnWire | opendbc/can/dbc.py:155-172 | On the wire the start bit of a big-endian signal is its top bit, and the lower ones follow down each byte and on from the top of the next |
| DbcLaws.LittleEndianOnWire | opendbc/can/dbc.py:155-172 | The start bit of a little-endian signal is its lowest, and the higher ones follow up each byte |
| Dbc.LowPeriodic | opendbc/can/packer.cc:64-67 | Moving a negative value up by 2^width does not change the bits stored |
| Dbc.PackAllAt | opendbc/can/packer.cc:51-69 | Each packed bit is the bit of the one signal covering it, or zero |
| Dbc.ExtractsStored | opendbc/can/parser.cc:17-32 | Extraction reads the stored bits as a signed or unsigned value |
| Dbc.PackExtract | opendbc/can/parser.cc:17-32 | For disjoint signals in any order, byte order and signedness, each comes back exactly when its value is in range, and other bits are zero |
| Dbc.EncodeOne | opendbc/can/dbc.py:152-172 | The Python update is set_value |
| Dbc.Encode | opendbc/can/dbc.py:135-175 | encode produces the bytes of the C++ packer's word |
| Dbc.DecodeSignal | opendbc/can/dbc.py:218-242 | decode reads what the C++ parser reads, skipping a signal that does not fit |
| DbcCheck.ComputeHonda | opendbc/can/common.cc:3-16 | The nibble sum of address and data above the checksum nibble |
| DbcCheck.ComputeToyota | opendbc/can/common.cc:18-27 | The byte sum of length, address and data above the checksum byte |
| DbcCheck.ComputeSubaru | opendbc/can/common.cc:29-38 | The byte sum of address and data after the first byte |
| DbcCheck.ComputeChrysler | opendbc/can/common.cc:40-70 | The inverted 0x1D CRC of the bytes before the last |
| DbcCheck.ComputeVolkswagen | opendbc/can/common.cc:97-176 | The inverted 0x2F CRC of bytes 1 and up and the magic byte of the address and counter |
| DbcCheck.ComputePedal | opendbc/can/common.cc:178-198 | The 0xD5 CRC of the bytes before the checksum, last byte first |
| DbcCheck.PedalIsCrcChecksum | opendbc/can/common.cc:178-198 | pedal_checksum is crc_checksum with 0xD5 over those bytes |
| DbcLaws.OctetIsFrameByte | opendbc/can/common.cc:43-108 | The octets the CRCs run over are the bytes of the frame, in order |
| DbcLaws.HondaTotal | opendbc/can/common.cc:3-16 | All nibbles of address, data and checksum add up to 8 modulo 16, or 11 with an extended address |
| DbcLaws.ToyotaTotal | opendbc/can/common.cc:18-27 | The checksum is the sum of the length, the address bytes and the data bytes before it modulo 256 |
| DbcLaws.SubaruTotal | opendbc/can/common.cc:29-38 | The checksum is the sum of the address bytes and the data bytes after it modulo 256 |
| DbcLaws.AddressNibbles | opendbc/can/common.cc:3-16 | A standard address enters nibble by nibble |
| DbcLaws.AddressBytes | opendbc/can/common.cc:18-38 | An address of 16 bits enters byte by byte |
| DbcLaws.ChryslerResidue | opendbc/can/common.cc:40-70 | The bytes of a frame, its checksum included, leave C4 in the register |
| DbcLaws.VolkswagenResidue | opendbc/can/common.cc:97-176 | The bytes from the second on, the magic byte and then the checksum leave 42 |
| DbcLaws.CounterNibbleBits | opendbc/can/common.cc:110-130 | The magic byte is chosen by the low half of the second byte |
| DbcLaws.PedalResidue | opendbc/can/common.cc:178-198 | The bytes before the checksum, last one first, and then the checksum leave 0 |
| DbcLaws.ChecksumIsRight | opendbc/can/packer.cc:86-110 | Each type of checksum signal gets the total or the residue of its own make |
| DbcLaws.PackedIsRight | opendbc/can/packer.cc:86-110 | The checksum read back from a packed word has that total or residue over the word itself |
| DbcMessage.ChecksumIgnoresItself | opendbc/can/packer.cc:86-110 | Writing any of the five checksums in its position never changes the bits it is computed over |
| DbcMessage.Pack | opendbc/can/packer.cc:51-113 | Signals, then counter, then checksum; a counter for a message without one returns early |
| DbcMessage.UndefinedCounter | opendbc/can/packer.cc:71-77 | A counter given for a message without one leaves every signal, the checksum too, as given |
| DbcMessage.PackedInside | opendbc/can/packer.cc:51-113 | No bit outside the message's signals is set |
| DbcMessage.FrameIsWhole | opendbc/can/packer_pyx.pyx:63-65 | The bytes sent, padded again, are the whole word |
| DbcMessage.ChecksumHolds | opendbc/can/packer.cc:86-110 | The checksum read from a packed word is the checksum of that word |
| DbcMessage.CounterHolds | opendbc/can/packer.cc:71-84 | The counter read from it is the one given modulo its width, checksum or not |
| DbcMessage.MessageState.UpdateCounterGeneric | opendbc/can/parser.cc:94-109 | The counter and failure count after a value, and whether it is tolerated |
| DbcMessage.MessageState.Parse | opendbc/can/parser.cc:13-91 | Accepts exactly when every enabled check passes in order; then every value is the extracted one and the time is stored; a refused frame stores the values before the failed check and no more |
| DbcMessage.AcceptedAgrees | opendbc/can/parser.cc:36-68 | A frame is accepted only if every checksum in it is the checksum of the frame |
| DbcMessage.AcceptedIff | opendbc/can/parser.cc:36-68 | With counters ignored, a frame is accepted exactly when checksums are ignored too or every checksum in it is its own |
| DbcMessage.WrongCountersIff | opendbc/can/parser.cc:94-109 | From any failure count, n wrong counters leave the count plus n modulo 256 and the last is accepted if and only if that is below five |
| DbcMessage.RightCounters | opendbc/can/parser.cc:94-109 | From any failure count f, n right counters in a row are accepted and leave max(f - n, 0) |
| DbcMessage.RightThenWrong | opendbc/can/parser.cc:94-109 | A wrong counter after them is accepted exactly when max(f - n, 0) + 1 modulo 256 is below five |
| DbcMessage.StuckCounter | opendbc/can/parser.cc:94-109 | A counter stuck at zero for n frames is accepted exactly when n modulo 256 is below five |
| DbcMessage.SubscribesTo | opendbc/can/parser.cc:112-199 | Both parser constructors subscribe to every checksum and counter of the message, and to its counter once |
| DbcMessage.FrameChecked | opendbc/can/parser.cc:36-86 | For every such subscription, a packed frame passes every check and moves the state by one counter step, or by none if counters are ignored |
| DbcMessage.Stream | opendbc/can/parser.cc:13-109 | In any stream packed with consecutive counters, for any subscription and from any state of the parser, every frame after the first is accepted, and the first exactly when its counter step is |
| DbcMessage.ValueReturnsIff | opendbc/can/packer.cc:51-113 | Counter and checksum included, a signal disjoint from the others is extracted from the packed word as the value given exactly when that value is in range |
| DbcMessage.PackAndParse | opendbc/can/parser.cc:13-91 | Packer in front of parser: the frame is accepted exactly when its counter step is, and then each subscribed value is the one given exactly when that is in range |

## Left out

- mmap, signals, the waiting of msgq_poll around msgq_msg_ready, uid generation, subscriber eviction and publisher takeover of msgq.cc: operating-system calls around the ring.
- The moment inside msgq_reset_reader between the flag and the pointer: reset is one step, and the set of subscribers is fixed.
- Zero-length messages and messages larger than a third of the segment: the reader asserts against the former, the publisher against the latter.
- Memory that is not sequentially consistent: the steps of all threads interleave in one order.
- MsgqSteps.EveryScheduleIsAuthentic: for runs in which no valid reader falls 2^32 laps behind the writer, because its 32-bit lap counter then reads like the current one.
- MsgqSteps.EveryScheduleKeepsLayout: the same runs.
- MsgqAtomic.SendKeeps: not for a send that leaves a reader whose flag is set 2^32 laps behind, where the 32-bit counters repeat; the results about sequences of calls are for sequences without one.
- Rsa.Verify: requires n0inv and rr to be what the header's comments say of them once the size checks pass; a key with wrong constants is not modelled.
- Rsa.SignedIsAccepted: moduli of two distinct primes with their top bit set; that key generation yields one is not modelled.
- Keys longer than RSANUMWORDS words, and the ASN.1 DigestInfo of RFC 8017 section 9.2, which the padding does not contain.
- Sha1.Hash: messages below 2^61 bytes, so that the bit count fits in 64 bits; SHA-256 is not in the file.
- Calls of EKFSym::predict from outside between observations, whose effect a rewind undoes.
- The matrix arithmetic, quaternion normalisation, observation residuals and feature tracking of the filter; NaN and rounding of times.
- UsbBoard.Ep1.ReadTransfer: a transfer that begins with an empty buffer, not one after a cut frame, which begins with what is left of it.
- libusb, the CAN queues beyond being FIFOs, and the rejection of messages by the safety hooks.
- IsoTpMessage frames of other sizes than eight, sub-addresses in CanClient, delays, timeouts and the drain before a send.
- The mode of isotp_send that waits after every frame, which also sends on bus 0 instead of the bus given.
- The message buffer shared by isotp.py receivers: a receiver gets its own frames in order.
- Factor and offset of signals, all_vals, and the lookup of messages by name.
- DbcMessage.Stream: pedal checksums, which the packer does not compute.
- Dbc.PackExtract: widths 1 to 63, because a shift by 64 is undefined in the source.
- Vehicle safety limits, camera transforms, user interface, updater and cloud code: short arithmetic or input and output.
