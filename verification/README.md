# Verified models of the device's message, queue and cipher code

A Dafny model of the parts of this repository that keep state over unbounded inputs, and proofs of what they keep:
the SHA and HMAC message pipelines, the work queue, the wire codec, the AES modes of operation in software, the
reservation of RMT channel RAM, eFuse field extraction, and the linker-script preprocessor. `dafny verify
dfyconfig.toml` checks everything.

Code that changes things step by step is imperative here as well: classes with the source's fields, arrays for
register windows and buffers, loops with invariants. Each method is tied to a function or predicate over the abstract
state, and the theorems are about those.

| files | models |
|---|---|
| `reg_access`, `fips180`, `padding`, `sha_engine`, `sha` | carry buffer and block memory, FIPS 180-4 padding, an engine that may be busy, and the resumable `finish` |
| `hmac` | block contents of the HMAC driver |
| `crc`, `cobs`, `codec`, `integrity`, `stream`, `receiver` | CRC-8, COBS, framing and the streaming decoder, what damage does to a frame, whole runs of the decoder, and the receiving loop |
| `queue_history`, `queue_progress`, `queue_drop`, `work_queue`, `handle` | the intrusive work queue, its history as values, and when busy-waiting and dropping a driver end |
| `block_modes`, `sp800_38a`, `cipher_state`, `requests`, `cipher_modes`, `flushing`, `aes` | the six modes as state machines, their SP 800-38A definitions, and the code over buffers that may alias |
| `rmt`, `rmt_contention` | block reservation alone and interleaved with any number of clients |
| `arith`, `efuse` | bit fields across 32-bit words |
| `preprocess` | the stack of `take` flags against nested conditionals |
| `words`, `wrappers` | bytes, register words and shared notions |

The SHA engine is a word memory, a busy bit and the list of blocks it latched. An arbitrary function says for how
many reads of the busy bit each block keeps it busy, so it stands for every busy pattern. Block ciphers are arbitrary
functions, postcard is an arbitrary serialiser that can read back what it wrote, and a driver's answers to the work
queue are arguments of the call that asks for them.

## What turned out not to hold

* `finish` of the SHA driver does not wait after it appended the 0x80 byte. If that byte completes a block and the
  engine is still busy, the block is overwritten before it is submitted; `Sha.LostBlock` is an instance.
* A block so lost can spoil the next digest on the same object as well. The flag that a block waits is set then, and
  neither the length block's submission nor the reset at the end of `finish` clears it. `Sha.ShaDigest.Finish` proves
  when it stays set: exactly when the engine was busy for one more poll and then takes the length block without
  becoming busy. The next digest, whatever its message, submits that length block first; `Sha.LeftOverBlock` is an
  instance. `Sha.ShaDigest.Finalize` proves that these two are the only ways in which the submitted blocks differ from
  the padded message, and that each of them, and both together, always make them differ.
* `volatile_write` fills only the rest of a started word with its `val` argument; whole words get zero bytes whatever
  `val` is. `RegAccess.PadsWithVal` says exactly when this shows, `RegAccess.ValIgnored` is an instance. Its callers
  pass zero.
* The documentation of `next_frame` says that it returns `Ok(None)` if no complete frame is buffered yet, and that of
  the decoder advises to call it until then. It also returns `Ok(None)` for an empty frame: `Receiver.NothingReported`
  is the exact condition, `Receiver.EmptyFrameHides` an instance, and `Receiver.DrainFrames` states exactly when the
  loop stops with complete frames still buffered.
* The comment on `suspend` says that no new item starts while the queue is suspended. A `process` call that finds no
  item in progress starts one all the same: `QueueHistory.SuspendedStep` states exactly when, and
  `QueueDrop.SuspendedStarts` is a run that gets there.
* For that reason dropping a driver need not end, even if the driver finishes each item at once: clients that go on
  posting can hold up the waiting loop for any number of turns (`QueueDrop.DropNeedNotEnd`, `QueueDrop.DropHeldUp`).
  It goes on exactly as long as each of its looks at the queue finds an item in progress (`QueueDrop.DropWaits`), and
  it ends once the work left at the last posting is done (`QueueDrop.DropEnds`).
* A request to the AES DMA driver that finds bytes left in the cipher state takes these first and moves the pointers to
  its buffers on, but `byte_add` keeps the length of a slice. With less than a block for the DMA, the CPU then goes as
  many bytes past the buffers as were taken out of the state, and leaves the state that far ahead.
  `Flushing.CtrPosted`, `Flushing.Cfb128PostedEncrypt` and `Flushing.Cfb128PostedDecrypt` state this, and that the
  state is right if and only if nothing was left or the request fits what was left; `Flushing.ThirteenThenTen` is an
  instance. OFB never shows it, as its requests are whole blocks (`Flushing.OfbStaysWhole`).
* More data between a `finish` that returned WouldBlock and its repetition is accepted, but the padding appended so far
  becomes part of the message: `Sha.UpdateBetween`.
* The documentation of `process` says that ECB and OFB need whole blocks. The code also refuses partial blocks for
  CBC (which needs whole blocks), and OFB would not need them: its machine may be split anywhere.

## Model

| member | source | states |
|---|---|---|
| RegAccess.AlignmentHelper.AlignedVolatileCopy | esp-hal-patched/src/reg_access.rs:154-226 | memory words plus carry stay the bytes accepted so far; the bound is reported exactly when the block is full; nothing beyond the bound is written |
| RegAccess.ConsumedMeans | esp-hal-patched/src/reg_access.rs:154-226 | a copy takes the whole source, or exactly what the block has room for; past the bound it takes only a rest of less than a word |
| RegAccess.AlignmentHelper.FlushTo | esp-hal-patched/src/reg_access.rs:91-112 | completes a started word with zeros, returns exactly how many, and leaves the carry empty and other words alone |
| RegAccess.AlignmentHelper.VolatileWrite | esp-hal-patched/src/reg_access.rs:116-146 | extends the stored bytes by the fill of a started word and by zero words, and touches nothing after them |
| RegAccess.PadsWithVal | esp-hal-patched/src/reg_access.rs:114-146 | what is written is the fill byte throughout if and only if that is zero or no whole word is written |
| RegAccess.ValIgnored | esp-hal-patched/src/reg_access.rs:114-146 | a whole word asked for as 0xFF is written as zeros |
| RegAccess.TailAccepted | esp-hal-patched/src/reg_access.rs:214-226 | a rest of under four bytes that stays in the carry does not change what the registers hold of the longer string |
| Words.HoldsAppend | esp-hal-patched/src/reg_access.rs:187-192 | writing one word extends the byte string that memory holds by those four bytes |
| Fips180.Pad512 | esp-hal-patched/src/sha.rs:219-302 | section 5.1.1 in numbers: 0x80, zeros, the bit length in the last 8 bytes, and the least multiple of 64 that is at least the length plus 9 |
| Fips180.Pad1024 | esp-hal-patched/src/sha.rs:219-302 | section 5.1.2 in numbers: the same with 16, 128 and 17 |
| Accelerator.SubmissionsAre | esp-hal-patched/src/sha.rs:143-150 | the right submissions are the padding in pieces of 64 or 128 bytes, the first by start and all others by continue |
| Padding.LastBlockPads | esp-hal-patched/src/sha.rs:262-302 | zeros up to the length field and then the bit length complete exactly the FIPS 180-4 padding of the message |
| Padding.ZerosFit | esp-hal-patched/src/sha.rs:262-294 | the zeros the code appends in one or two blocks are as many as the standard asks for |
| Accelerator.Pipe.LatchKeeps | esp-hal-patched/src/sha.rs:143-150 | submitting a full block keeps every accepted byte in exactly one of submitted blocks, memory and carry |
| Accelerator.Pipe.CopyKeeps | esp-hal-patched/src/sha.rs:152-189 | so does copying bytes behind what memory and carry hold |
| Accelerator.Pipe.LeadsIn | esp-hal-patched/src/sha.rs:152-166 | a block left over by the digest before goes out first, and the message then starts behind it |
| Accelerator.SpoiledIsWrong | esp-hal-patched/src/sha.rs:219-294 | the blocks submitted after one was overwritten are never those of the padded message |
| Accelerator.LeadAndSpoiledIsWrong | esp-hal-patched/src/sha.rs:191-294 | nor are they if a block was left over from the digest before as well: the two faults never cancel |
| Sha.ShaDigest.WriteData | esp-hal-patched/src/sha.rs:152-189 | nothing accepted is lost, the cursor counts it, a refused call accepts nothing, an accepted call on non-empty data accepts at least one byte, and a block left over by the digest before goes out ahead of the first byte |
| Sha.ShaDigest.Update | esp-hal-patched/src/sha.rs:317-324 | the same while absorbing, with the remainder returned; in the middle of a blocked `finish` the padding so far is kept as message bytes |
| Sha.ShaDigest.Absorb | esp-hal-patched/src/sha.rs:563-569 | the refeeding loop ends and has accepted the whole piece, on a new object, a used one, or in the middle of a blocked `finish` |
| Sha.ShaDigest.Finish | esp-hal-patched/src/sha.rs:206-315 | whenever it returns Ok the submissions are the padded message cut into blocks, first by start and then by continue, if and only if no block was lost and none left over from before; the flag stays set exactly when a lost block leaves one; when it returns WouldBlock it made progress and can be called again |
| Sha.ShaDigest.Finalize | esp-hal-patched/src/sha.rs:571-575 | from every state a call can find, repeating `finish` ends, and the blocks are right if and only if none was left over from the digest before and the message did not end one byte before a block boundary with the engine busy |
| Sha.Hash | esp-hal-patched/src/sha.rs:563-575 | for every message and every split into pieces, on any object between two digests, the submissions are the padded message, except when the flag was set before the first byte and possibly for messages that end one byte before a block boundary |
| Sha.LostBlock | esp-hal-patched/src/sha.rs:219-257 | 63 zero bytes on an engine busy for one more poll: the submissions are not the padded message |
| Sha.LeftOverBlock | esp-hal-patched/src/sha.rs:191-312 | nor, after that digest, are those of the next one on the same object, whatever its message |
| Sha.UpdateBetween | esp-hal-patched/src/sha.rs:206-324 | data fed between a `finish` blocked while padding and its repetition: the digest is that of message, padding so far and data, and never that of message and data |
| Accelerator.SubmissionsTell | esp-hal-patched/src/sha.rs:262-302 | two messages have the same right submissions if and only if they are equal |
| Padding.PadTells | esp-hal-patched/src/sha.rs:262-302 | different messages are padded differently |
| Hmac.Feed.WriteKeeps | esp-hal-patched/src/hmac.rs:233-261 | every byte fed is in a block handed over, in memory or in the carry |
| Hmac.HmacDriver.Update | esp-hal-patched/src/hmac.rs:157-167 | a busy engine accepts nothing; otherwise at least one byte of non-empty data, and none is lost |
| Hmac.HmacDriver.Finalize | esp-hal-patched/src/hmac.rs:170-210 | pads and hands over the last blocks of key block and message, or reports busy and changes nothing of the message |
| Hmac.Authenticate | esp-hal-patched/src/hmac.rs:157-347 | for every message and split the blocks are the padding of key block and message, though memory is never cleared |
| Crc.ComputeCrc8 | protocol/src/codec.rs:37-50 | the nested loop computes the register of the polynomial division |
| Crc.CheckValue | protocol/src/codec.rs:34-50 | the CRC of the digits 1 to 9 is 0xF4, the published check value |
| Crc.StepLinear | protocol/src/codec.rs:41-47 | eight shifts distribute over exclusive or |
| Crc.StepInjective | protocol/src/codec.rs:41-47 | eight shifts are a bijection on register states |
| Crc.CrcClosesToZero | protocol/src/codec.rs:37-50 | the CRC is the one trailer that brings the register to zero |
| Crc.CrcLinear | protocol/src/codec.rs:37-50 | an error pattern changes the CRC by the pattern's own CRC |
| Crc.BurstRejected | protocol/src/codec.rs:162-172 | any change confined to eight consecutive bits of payload and CRC is rejected, at every length |
| Crc.ByteChangeRejected | protocol/src/codec.rs:162-172 | any single changed byte is rejected |
| Crc.UnseenIffZero | protocol/src/codec.rs:162-172 | for every payload, an error in payload and CRC is accepted if and only if its own CRC register is zero |
| Crc.NineBitsPass | protocol/src/codec.rs:162-172 | eight bits is the limit: of all changes nine bits long exactly one is accepted, and it is at every position of every payload |
| Crc.OddOnes | protocol/src/codec.rs:41-47 | the parity that shifts are shown to keep is that of the number of one bits |
| Crc.StepKeepsParity | protocol/src/codec.rs:41-47 | eight shifts keep the parity of the register |
| Crc.OddRejected | protocol/src/codec.rs:162-172 | every change of an odd number of bits, wherever they are, is rejected at every length |
| Cobs.EncodeZeroFree | protocol/src/codec.rs:65-72 | a stuffed message holds no zero byte |
| Cobs.RoundTrip | protocol/src/codec.rs:78-95 | unstuffing inverts stuffing for every message |
| Cobs.DecodeInPlace | protocol/src/codec.rs:162-164 | decoding over its own input gives what decoding into another buffer gives, errors included, and leaves the rest of the buffer alone |
| Cobs.Overhead | protocol/src/codec.rs:65-72 | stuffing adds at least one byte and at most one more for each 254 bytes |
| Cobs.FullBlock | protocol/src/codec.rs:65-95 | a run of 254 bytes is announced by 255 and stands for no zero behind it |
| Cobs.ShortBlock | protocol/src/codec.rs:65-95 | a shorter run is announced by its length plus one and stands for a zero behind it |
| Codec.EncodeTerminates | protocol/src/codec.rs:55-72 | the terminator is the only zero byte `encode` emits |
| Codec.DecodeEncode | protocol/src/codec.rs:78-95 | `decode` inverts `encode` for every message that can be serialised |
| Codec.Decoder.Push | protocol/src/codec.rs:124-132 | appends, or on overflow reports it and empties the buffer; the buffer never exceeds its bound |
| Codec.Decoder.DecodeFront | protocol/src/codec.rs:162-172 | the in-place decode of a buffered frame agrees with `decode` in every result |
| Codec.Decoder.Next | protocol/src/codec.rs:142-159 | takes exactly one frame and its terminator off the buffer, whatever it decodes to |
| Integrity.DeliveredExactly | protocol/src/codec.rs:162-172 | a frame yields a message if and only if it unstuffs to a non-empty payload and that payload's CRC, and the payload stands for the message |
| Integrity.RefusedExactly | protocol/src/codec.rs:78-96 | exactly when each error is returned: unstuffing fails, fewer than two bytes, a wrong CRC, or a payload that stands for nothing |
| Integrity.DamageRefused | protocol/src/codec.rs:78-96 | for every payload and error, the damaged frame gives BadCrc if and only if the CRC register of the error is not zero |
| Integrity.DamagePolled | protocol/src/codec.rs:142-172 | so does one poll of a buffer that starts with it, which keeps what follows |
| Integrity.BurstRefused | protocol/src/codec.rs:142-172 | every burst of at most eight bits gives BadCrc, decoded or polled |
| Integrity.OddRefused | protocol/src/codec.rs:142-172 | so does every change of an odd number of bits |
| Integrity.FlippedBit | protocol/src/codec.rs:162-172 | an instance: the payload [1] with one bit flipped |
| Stream.Conserved | protocol/src/codec.rs:124-159 | in any run frames taken plus bytes buffered are the bytes pushed, and the buffer respects its bound |
| Stream.SplitUnique | protocol/src/codec.rs:142-159 | a byte stream splits into frames in one way only |
| Stream.TakenInOrder | protocol/src/codec.rs:124-159 | what has come off the buffer is a prefix of the frames of noise and messages |
| Stream.Resynchronises | protocol/src/codec.rs:124-159 | after any bytes that end in a terminator the messages that follow are delivered exactly, whatever those bytes decoded to |
| Stream.Delivers | protocol/src/codec.rs:124-159 | under every schedule of pushes and polls the results are a prefix of the messages, and all of them once drained |
| Stream.RecoversAfterFull | protocol/src/codec.rs:124-132 | after a refused push the messages behind the next terminator are delivered exactly, as by a fresh decoder |
| Receiver.NeverFull | protocol/src/codec.rs:124-132 | with room for an unfinished frame and a chunk, draining before each push rules out overflow, for messages and for noise before them |
| Receiver.NothingReported | protocol/src/codec.rs:142-150 | a poll returns Ok(None) exactly if no frame is complete or the next one is empty |
| Receiver.EmptyFrameHides | protocol/src/codec.rs:142-150 | an empty frame hides the complete message behind it from one poll |
| Receiver.DrainFrames | protocol/src/codec.rs:142-159 | polling until nothing comes takes the frames up to the first empty one, so all of them exactly if none is empty before the last |
| Receiver.Receive | protocol/src/codec.rs:124-159 | the receiving loop yields the result of every frame of the noise and then exactly the messages sent, in order, for every chunking |
| QueueHistory.FirstInFirstOut | esp-hal-patched/src/work_queue.rs:149-181 | in every run the driver is given the postings in order less the cancelled ones, whatever it refuses on the way |
| QueueHistory.ExactlyOnce | esp-hal-patched/src/work_queue.rs:117-238 | a posting is pending exactly while it is in the list or in progress, and finishes exactly once |
| QueueHistory.OneInDriver | esp-hal-patched/src/work_queue.rs:54-61 | at most one posting is with the driver, and none while the no-op table is installed |
| QueueHistory.OutcomeSource | esp-hal-patched/src/work_queue.rs:207-238 | the queue itself cancels only what the driver never accepted; every other outcome is the driver's answer |
| QueueHistory.OutcomeStays | esp-hal-patched/src/work_queue.rs:117-181 | no later step changes or reorders an outcome |
| QueueHistory.HandsOver | esp-hal-patched/src/work_queue.rs:117-181 | the step that completes a posting hands over the first waiting one, which is then in progress with the driver's recall or finished with its status; the caller is told the recall, or to poll again |
| QueueHistory.StillPending | esp-hal-patched/src/work_queue.rs:117-142 | a posting that is not finished leaves everything as it was, and the caller is told the driver's recall |
| QueueHistory.SuspendedCompletes | esp-hal-patched/src/work_queue.rs:117-142 | a suspended queue completes the posting in progress, hands over nothing, and does not ask to be polled |
| QueueHistory.NothingHandedOver | esp-hal-patched/src/work_queue.rs:117-181 | so does one with nothing waiting or a driver that refuses |
| QueueHistory.IdleOffers | esp-hal-patched/src/work_queue.rs:136-181 | a queue with nothing in progress hands over its first posting |
| QueueHistory.IdleStays | esp-hal-patched/src/work_queue.rs:136-181 | unless it is empty, has no driver or is refused, and then nothing changes |
| QueueHistory.StatusShows | esp-hal-patched/src/work_queue.rs:161-181 | a handle shows the outcome of a finished posting, the recall of the one in progress, and Pending of any other |
| QueueHistory.SuspendedExactly | esp-hal-patched/src/work_queue.rs:655-685 | in every run the queue is suspended exactly while a driver waits to be dropped |
| QueueHistory.SuspendedStep | esp-hal-patched/src/work_queue.rs:117-142 | a suspended queue hands over a new posting exactly when none was in progress |
| QueueHistory.RunKeepsInv | esp-hal-patched/src/work_queue.rs:117-238 | the invariant behind these holds in every reachable state |
| QueueProgress.ProcessFalls | esp-hal-patched/src/work_queue.rs:117-181 | each processing step lowers the work ahead of a pending posting |
| QueueProgress.OthersKeep | esp-hal-patched/src/work_queue.rs:207-238 | no posting, cancellation or change of driver raises it |
| QueueProgress.WaitEnds | esp-hal-patched/src/work_queue.rs:545-551 | a posting is finished once the queue was polled that often, by any clients in any order |
| QueueDrop.SuspendedStarts | esp-hal-patched/src/work_queue.rs:117-142 | a run from the empty queue after which a suspended queue starts a new posting |
| QueueDrop.DropWaits | esp-hal-patched/src/work_queue.rs:673-685 | in every run the waiting loop goes on exactly as long as each of its looks finds a posting in progress |
| QueueDrop.DropHeldUp | esp-hal-patched/src/work_queue.rs:655-685 | whatever is in progress, for every n some run makes n looks in vain, with a driver that finishes each posting at once |
| QueueDrop.DropNeedNotEnd | esp-hal-patched/src/work_queue.rs:655-685 | so from the empty queue, with one posting in progress at the drop |
| QueueDrop.DropEnds | esp-hal-patched/src/work_queue.rs:655-685 | without further postings the queue is idle, and the next look ends the wait, once it was polled as often as there is work left |
| WorkQueue.Inner.Enqueue | esp-hal-patched/src/work_queue.rs:87-98 | the linked list from head to tail grows by the item at its end |
| WorkQueue.Inner.EnqueueFront | esp-hal-patched/src/work_queue.rs:101-111 | it grows by the item at its front |
| WorkQueue.Inner.Dequeue | esp-hal-patched/src/work_queue.rs:184-195 | it loses its first item, which is returned |
| WorkQueue.Inner.Remove | esp-hal-patched/src/work_queue.rs:247-279 | it loses exactly the item, wherever it was, and reports whether it was there |
| WorkQueue.Inner.PostWork | esp-hal-patched/src/work_queue.rs:378-396 | list, statuses and history agree after a posting |
| WorkQueue.Inner.TablePoll | esp-hal-patched/src/work_queue.rs:54-61 | is only ever called with a driver's table installed: the unreachable `poll` of the no-op table stays so |
| WorkQueue.Inner.DequeueAndPost | esp-hal-patched/src/work_queue.rs:149-181 | offers the first item, and puts it back in its place when the driver refuses |
| WorkQueue.Inner.Process | esp-hal-patched/src/work_queue.rs:117-142 | the pointer code takes exactly the step of the history, and returns whether to poll again |
| WorkQueue.Inner.Cancel | esp-hal-patched/src/work_queue.rs:207-238 | cancels a waiting item at once, leaves the one in progress to the driver, and leaves foreign items alone |
| WorkQueue.Inner.Locates | esp-hal-patched/src/work_queue.rs:469-474 | a posted item is Pending exactly when it is in the list or in progress |
| WorkQueue.CancelAgrees | esp-hal-patched/src/work_queue.rs:207-238 | unlinking an item and marking it cancelled is the history's cancellation |
| WorkQueue.OfferAgrees | esp-hal-patched/src/work_queue.rs:149-181 | handing over the first item is the history's offer |
| WorkQueue.Inner.StartDriver | esp-hal-patched/src/work_queue.rs:602-613 | a driver starts on a queue that has none |
| WorkQueue.Inner.DropDriver | esp-hal-patched/src/work_queue.rs:655-671 | installs the no-op table only when nothing is in progress, and else suspends |
| WorkQueue.Inner.FinishDrop | esp-hal-patched/src/work_queue.rs:673-685 | the same for each turn of the waiting loop, which also lifts the suspension |
| Handles.Handle.PollInner | esp-hal-patched/src/work_queue.rs:411-421 | processes the queue only for a pending item, and reports its status |
| Handles.Handle.WaitBlocking | esp-hal-patched/src/work_queue.rs:545-551 | the busy-wait ends with the item's final status |
| Handles.Handle.Drop | esp-hal-patched/src/work_queue.rs:579-587 | afterwards the queue and the driver have released the item |
| BlockModes.TransformSplit | esp-hal-patched/src/aes/cipher_modes.rs:165-405 | any byte-wise machine may be fed its data in any two pieces |
| BlockModes.TransformBlocksSplit | esp-hal-patched/src/aes/cipher_modes.rs:69-153 | a block-wise machine at block boundaries |
| BlockModes.FlushThenRest | esp-hal-patched/src/aes/cipher_modes.rs:186-198 | for any byte-wise machine a prefix and then the rest is one call |
| BlockModes.TransformInverts | esp-hal-patched/src/aes/cipher_modes.rs:165-371 | machines that undo each other step by step undo each other on all data |
| Sp80038a.EcbIsElectronicCodebook | esp-hal-patched/src/aes/cipher_modes.rs:69-80 | section 6.1: each block on its own |
| Sp80038a.CbcChains | esp-hal-patched/src/aes/cipher_modes.rs:94-112 | section 6.2: each block is chained to the ciphertext before it |
| Sp80038a.OfbKeyStream | esp-hal-patched/src/aes/cipher_modes.rs:165-183 | section 6.4: byte i is XORed with byte i mod 16 of the iterated cipher |
| Sp80038a.CtrKeyStream | esp-hal-patched/src/aes/cipher_modes.rs:219-248 | section 6.5: byte i is XORed with byte i mod 16 of the cipher of the start nonce incremented i / 16 times |
| Sp80038a.NextAddsOne | esp-hal-patched/src/aes/cipher_modes.rs:224-231 | appendix B.1: the increment adds one to the big-endian number, modulo 2 to its length |
| Sp80038a.CtrCounts | esp-hal-patched/src/aes/cipher_modes.rs:219-248 | after n bytes the nonce is the start plus n / 16 rounded up, modulo 2 to the 128 |
| Sp80038a.Cfb8Chains | esp-hal-patched/src/aes/cipher_modes.rs:276-294 | section 6.3, 8-bit segments: each byte depends on the 16 before it |
| Sp80038a.Cfb128Chains | esp-hal-patched/src/aes/cipher_modes.rs:329-348 | section 6.3, 128-bit segments: each byte depends on the block of ciphertext before its own |
| CipherModes.Ecb.EncryptDecrypt | esp-hal-patched/src/aes/cipher_modes.rs:69-80 | the buffers, same or distinct, end as the ECB machine says |
| CipherModes.Cbc.Encrypt | esp-hal-patched/src/aes/cipher_modes.rs:94-112 | so for CBC encryption, with the last ciphertext as the next IV |
| CipherModes.Cbc.Decrypt | esp-hal-patched/src/aes/cipher_modes.rs:114-153 | in place and out of place give the same plaintext and IV |
| CipherModes.Ofb.EncryptDecrypt | esp-hal-patched/src/aes/cipher_modes.rs:165-183 | the loop is the OFB machine from any offset |
| CipherModes.Ofb.Flush | esp-hal-patched/src/aes/cipher_modes.rs:186-198 | processes the bytes up to the block boundary without the cipher, as the machine would, and only those |
| CipherModes.Ctr.Increment | esp-hal-patched/src/aes/cipher_modes.rs:224-231 | the byte loop with early exit computes the next counter block |
| CipherModes.Ctr.EncryptDecrypt | esp-hal-patched/src/aes/cipher_modes.rs:219-248 | the loop is the CTR machine from any offset |
| CipherModes.Ctr.Flush | esp-hal-patched/src/aes/cipher_modes.rs:251-263 | as for OFB |
| CipherModes.Cfb8.Encrypt | esp-hal-patched/src/aes/cipher_modes.rs:276-294 | the loop is the CFB8 machine |
| CipherModes.Cfb8.Decrypt | esp-hal-patched/src/aes/cipher_modes.rs:296-315 | the loop is its inverse machine |
| CipherModes.Cfb128.Encrypt | esp-hal-patched/src/aes/cipher_modes.rs:329-348 | the loop is the CFB128 machine from any offset |
| CipherModes.Cfb128.Decrypt | esp-hal-patched/src/aes/cipher_modes.rs:350-370 | the loop is its inverse machine |
| CipherModes.Cfb128.FlushEncrypt | esp-hal-patched/src/aes/cipher_modes.rs:373-388 | as for OFB |
| CipherModes.Cfb128.FlushDecrypt | esp-hal-patched/src/aes/cipher_modes.rs:390-405 | as for OFB |
| Flushing.OfbFlushed | esp-hal-patched/src/aes/cipher_modes.rs:186-198 | flushing and then processing exactly the rest of the buffers gives what one call on all of them gives |
| Flushing.CtrFlushed | esp-hal-patched/src/aes/cipher_modes.rs:251-263 | the same for CTR |
| Flushing.Cfb128FlushedEncrypt | esp-hal-patched/src/aes/cipher_modes.rs:373-388 | the same for CFB128 encryption |
| Flushing.Cfb128FlushedDecrypt | esp-hal-patched/src/aes/cipher_modes.rs:390-405 | the same for CFB128 decryption |
| Flushing.CtrPosted | esp-hal-patched/src/aes/mod.rs:895-916 | with less than a block for the DMA: the request's own output is right; unless the flush took the whole request, as many bytes behind the output as it took are overwritten too, and no others; and the state is that of the request if and only if the offset was zero or the request fits the rest of the block |
| Flushing.Cfb128PostedEncrypt | esp-hal-patched/src/aes/mod.rs:895-916 | the same for CFB128 encryption |
| Flushing.Cfb128PostedDecrypt | esp-hal-patched/src/aes/mod.rs:895-916 | the same for CFB128 decryption |
| Flushing.OfbPosted | esp-hal-patched/src/aes/mod.rs:895-916 | the same for OFB, should its offset not be zero |
| Flushing.OfbStaysWhole | esp-hal-patched/src/aes/mod.rs:895-916 | which it never is after requests of whole blocks |
| Flushing.ExcessShows | esp-hal-patched/src/aes/cipher_modes.rs:57-62 | for any machine that counts its offset, going past the end leaves the right state exactly when it does not happen |
| Flushing.ThirteenThenTen | esp-hal-patched/src/aes/mod.rs:895-916 | CTR, 13 bytes and then 10: three bytes too many, and the offset is 10 instead of 7 |
| CipherState.DecryptInvertsEncrypt | esp-hal-patched/src/aes/mod.rs:1282-1308 | in all six modes decryption gives back the data and the same final state, with the forward cipher alone for the stream modes |
| Requests.Admitted | esp-hal-patched/src/aes/mod.rs:1518-1558 | lengths that are not whole blocks are admitted for CTR, CFB8 and CFB128 alone |
| Requests.EcbRequest | esp-hal-patched/src/aes/mod.rs:276-324 | an ECB request applies the cipher, or its inverse to decrypt, to each block |
| Requests.CbcEncryptRequest | esp-hal-patched/src/aes/mod.rs:276-324 | a CBC encryption request is the equation of section 6.2 with the forward cipher |
| Requests.CbcDecryptRequest | esp-hal-patched/src/aes/mod.rs:276-324 | a CBC decryption request is that of section 6.2 with the inverse cipher |
| Requests.OfbRequest | esp-hal-patched/src/aes/mod.rs:276-324 | an OFB request is the equation of section 6.4, with the forward cipher in both directions |
| Requests.CtrRequest | esp-hal-patched/src/aes/mod.rs:276-324 | a CTR request is the equation of section 6.5, with the forward cipher in both directions |
| Requests.Cfb8EncryptRequest | esp-hal-patched/src/aes/mod.rs:309-315 | a CFB8 encryption request feeds its output back |
| Requests.Cfb8DecryptRequest | esp-hal-patched/src/aes/mod.rs:309-315 | a CFB8 decryption request feeds its input back, through the forward cipher |
| Requests.Cfb128EncryptRequest | esp-hal-patched/src/aes/mod.rs:316-322 | a CFB128 encryption request feeds its output back |
| Requests.Cfb128DecryptRequest | esp-hal-patched/src/aes/mod.rs:316-322 | a CFB128 decryption request feeds its input back, through the forward cipher |
| Requests.RequestsJoin | esp-hal-patched/src/aes/mod.rs:276-324 | any number of requests in a row compute what one request for all of their data does, so the equations hold across requests |
| CipherState.CallsJoin | esp-hal-patched/src/aes/mod.rs:276-324 | two admitted calls in a row equal one on the joined data |
| Aes.AesContext.ProcessWorkItem | esp-hal-patched/src/aes/mod.rs:276-324 | dispatches mode and direction so that the buffers end as the mode defines |
| Aes.AesContext.Process | esp-hal-patched/src/aes/mod.rs:1518-1558 | refuses exactly partial blocks for the modes that need whole ones and unequal buffers, and then changes nothing |
| Rmt.ReserveChannel | esp-hal-patched/src/rmt.rs:902-934 | alone, takes the whole range or changes nothing, with the error that applies; the channel's block then holds its kind, the other blocks of the range read Reserved, and no other block changes |
| Rmt.FreeUndoesClaim | esp-hal-patched/src/rmt.rs:1002-1006 | giving back what was just taken restores the array |
| Rmt.StepKeepsInv | esp-hal-patched/src/rmt.rs:902-1037 | every atomic step of every client keeps ownership contiguous, disjoint and in agreement with the array |
| Rmt.Safety | esp-hal-patched/src/rmt.rs:902-1205 | in every reachable state a block has at most one owner; it reads Rx or Tx exactly as the owner's own channel, Reserved exactly as another block of the owner's, and Unconfigured otherwise; and a held channel's size register is its reservation |
| Rmt.BeginStarts | esp-hal-patched/src/rmt.rs:902-908 | an idle client may ask for any range within the blocks, and the attempt is for exactly that channel, kind and size |
| Rmt.BeginRefused | esp-hal-patched/src/rmt.rs:902-905 | an empty range or one past the last block begins nothing |
| Rmt.DropGivesBack | esp-hal-patched/src/rmt.rs:1183-1205 | a drop clears the size register first and then frees the blocks from the last to the first |
| Rmt.StepIsLocal | esp-hal-patched/src/rmt.rs:902-1037 | a step touches only free blocks and blocks of its own client, and frees only what that client took |
| Rmt.RefusedByAnother | esp-hal-patched/src/rmt.rs:909-928 | a refused compare-exchange means another client owns the block |
| Rmt.EndsClean | esp-hal-patched/src/rmt.rs:1183-1205 | a failed attempt frees exactly what it took and a drop exactly the range reserved |
| Rmt.RankFalls | esp-hal-patched/src/rmt.rs:902-934 | each own step brings an attempt nearer its end and no other client's step sets it back |
| Rmt.AttemptEnds | esp-hal-patched/src/rmt.rs:902-934 | so it ends within a bounded number of own steps in every schedule |
| RmtContention.SomeoneSucceeds | esp-hal-patched/src/rmt.rs:902-934 | with all blocks free at first and none given back, attempts that have begun are never all refused, and when all have ended one holds its range |
| RmtContention.OwnerIsAlive | esp-hal-patched/src/rmt.rs:909-928 | the owner behind the highest refusal so far is not rolling back |
| Rmt.AloneIsReserveChannel | esp-hal-patched/src/rmt.rs:902-934 | uninterrupted, the atomic steps do what the loop does |
| Efuse.OrAdds | esp-hal-patched/src/efuse/mod.rs:150-156 | joining words that share no bit is addition |
| Efuse.AndMask | esp-hal-patched/src/efuse/mod.rs:158-161 | masking low bits is the remainder |
| Efuse.WindowShows | esp-hal-patched/src/efuse/mod.rs:147-161 | shifting, joining and masking two words cuts the right bits out of the block read as a number |
| Efuse.TouchedExactly | esp-hal-patched/src/efuse/mod.rs:130-156 | the words read for a field that is not empty are exactly those that hold a bit of it |
| Efuse.ReadFieldLe | esp-hal-patched/src/efuse/mod.rs:119-183 | the output is the block shifted right by the start, modulo 2 to the field width, zero-extended; the words overlapping the field are read once each in order and no others |
| Preprocess.PreprocessFile | esp-hal-patched/build.rs:180-223 | the loop runs the stack machine over all lines |
| Preprocess.Directives | esp-hal-patched/build.rs:193-212 | `#IF` with a condition, `#ELSE` and `#ENDIF` are recognised with any space around them |
| Preprocess.Text | esp-hal-patched/build.rs:193-218 | anything else is text, also a line that only contains a directive and an `#IF` without a condition |
| Preprocess.OneConditional | esp-hal-patched/build.rs:191-218 | of a conditional the text before `#ELSE` is kept if its condition is configured, and the text behind it if not |
| Preprocess.RunsScript | esp-hal-patched/build.rs:191-218 | on any properly nested script the stack machine writes its recursive meaning, or nothing inside a skipped part, and restores the stack |
| Preprocess.ScriptsPreprocess | esp-hal-patched/build.rs:191-218 | so a whole script yields its meaning |
| Preprocess.PanicsOnUnderflow | esp-hal-patched/build.rs:191-218 | it panics exactly when text or `#ELSE` follows the closing of the outermost level |

## Left out

- Registers beyond a word memory and a busy bit, clocks, interrupts, memory ordering and the ESP32-only branches.
- Reading the digest out of the result registers (SHA and HMAC), and saving and restoring a SHA context.
- The SHA work-queue backend, and of the AES DMA backend all but requests of less than one block in the modes that have a state to flush.
- Flushing.CtrPosted: memory behind the buffers exists, and input and output are one array or do not overlap, as for the other three.
- Sha.Hash: messages of at most 0xFFFF_FF00 bytes, so that the 32-bit cursor does not wrap.
- Sha.ShaDigest.Update: not called once a `finish` that returned WouldBlock has written the message length; the cursor no longer counts the bytes then.
- Sha.ShaDigest.Absorb: the same.
- Hmac.Authenticate: the commands between blocks (`MessageIng`, `MessagePad`, `one_block`) are not modelled, only the blocks; the length limit is that of `Sha.Hash`.
- The source of the `cobs` crate is not part of this model: `Cobs` follows the paper, with a zero code byte as an error.
- The byte format of postcard.
- Stream.Resynchronises: for runs without overflow; what follows one is `Stream.RecoversAfterFull`.
- Receiver.Receive: noise without empty frames, as one makes the loop stop early, see `Receiver.DrainFrames`.
- Wakers and async polling of the work queue, and the effect of the driver's `cancel` and `stop` callbacks beyond their never adding work.
- `WorkQueueDriver::stop`, which takes the queue lock inside the lock.
- WorkQueue.Inner.StartDriver: a second driver on a queue that has one is not modelled; each peripheral has one.
- Handles.Handle.WaitBlocking: the method waits alone; waiting among other clients is `QueueProgress.WaitEnds`.
- Handles.Handle.Drop: its wait after a refused cancellation is alone too.
- Aes.AesContext.Process: the work item runs to completion within the call, as the CPU backend does when it is polled.
- The rejection of an RX idle threshold before reserving, and everything of `rmt.rs` but block ownership.
- Efuse.ReadFieldLe: the words of the field are in the block; reading past it is not modelled.
- `substitute_config` and the file handling of the preprocessor; trimming knows ASCII white space only.
- The firmware's application list, display, touch, haptics, Wi-Fi and flash storage; the companion.
