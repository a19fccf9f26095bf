# Verified models of QustomKeyboard's stateful and arithmetic cores

This project models, in Dafny 4.11, the parts of the repository whose correctness is not visible from one body:

- **Bit arrays and CAN-signal accessors** (`libs/bitfield`). `copy_bits` moves any bit range between two byte arrays
  with shifts and masks. It is verified in place, on arrays, against one line of meaning (`Copied`). On it rest
  `get_bitfield` and `set_bitfield`, whose results are lifted to integer arithmetic, and the independent word-level
  accessors of `8byte.c`, which are proved to agree with them.
- **SHA-256** (`libs/sha256`). The streaming context with its 64-byte buffer yields the digest of FIPS 180-4 for every
  way of cutting the message into chunks. The six logical functions are characterised bit by bit, the constants by
  their primes, and the digest of "abc" is proved byte by byte.
- **UART framing** (`CanDeviceStm32.cpp`, `CanSerialPort.cpp`). The self-resynchronising parser over the overwriting
  1024-byte ring and the bounded transmit queue between two threads are transition systems; the objects' methods are
  proved to take their steps.
- **Session writes** (`Session.cpp`). One outstanding write, a queue behind it and a timer that re-enters the send
  function: invariants, conservation, order of the queue and of departure, draining and closing, over every sequence of
  events.
- **Two transformations**. BMP to RGBA (`decodeBMP`), with a writer whose files it decodes to the image written, and the
  multi-pass C-string escaper (`EscapeString`).

C's unsigned integers are naturals with subset types; `CWord` defines `&`, `|`, `^`, `<<`, `>>` and conversion to n
bits by recursion on the bits, and characterises each operator by the bits of its result (`AndBit`, `OrBit`, `ShlBit`,
`ShrBit`, `LowBit`) and, where that makes sense, by arithmetic (`ShlIsTimes`, `ShrIsDiv`, `LowIsMod`). Every narrowing
and wrap-around the C code performs is written out.

## Files

| file | content |
|---|---|
| CWord, Endian, BitString | unsigned integers; their bytes in either order; byte strings as bit strings and as big-endian numbers |
| BitArray, BitField, BitFieldLaws, EightByte | `bitarray.c`, `bitfield.c`, laws across several accessor calls, `8byte.c` |
| Sha256Spec, Sha256 | FIPS 180-4 as functions; the streaming context |
| Sha256Bits | what the six logical functions of FIPS 180-4 do to each bit |
| BitVectors, BitTurns, Sha256Vector | words as bit vectors; their rotations and shifts; the digest of "abc" round by round |
| UartFrame, RxPath, TxPath, CanSerialPort | frames and the parser's meaning; receive path; transmit queue; the objects |
| Session, SessionOrder, SessionPositions, SessionDrain | the session's handlers and invariants; the order of its messages; that order decided from events and counts; how it drains and closes |
| BmpDecoder, BmpFile | `decodeBMP`; files that describe an image, a writer of them, and their decoding |
| StringEscaper | `EscapeString` |

## Where code and intention part

Each of these is kept as the code has it, with the exact condition under which it does what is intended.

- `copy_bits` may load one byte behind the last byte of the selected range. The methods return the highest index they
  have loaded, and it is `LastByteLoaded`. It lies behind the source exactly when the range reaches the last source
  byte and ends earlier within its byte in the destination (`OverreadsExactlyWhen`). The extra byte never influences the
  result (`CopyIgnoresOtherSourceBits`).
- `set_bitfield` therefore loads the byte behind its eight-byte union for every field that does not end on a byte
  boundary (`SetOverreadsExactlyWhen`), and `set_nibble` the one behind its one-byte parameter for every even index
  (`SetNibbleOverreadsExactlyWhen`; `OverreadingCalls` gives the smallest calls). `get_bitfield` and all right-aligned
  copies never do (`RightAlignedLoadsRange`).
- `bits_to_bytes` counts in a `uint8_t`, so right alignment fails for most widths above 2040 bits
  (`RightAlignedExactlyWhen`, `RefusedCall`), and whole bytes are right-aligned up to 255 of them
  (`PlainBytesExactlyWhen`).
- `set_nibble` narrows `4 * nibble_index` to 16 bits (`NibbleOffsetExactlyWhen`, `MisplacedNibbleCall`), passes
  `CHAR_BIT` as a length in bytes, and ignores the high half of its value although its header comment speaks of a range
  check: the nibble written is the value exactly for values below 16 (`SetNibble`).
- `8byte.h` promises range checking for the nibble and byte getters; the code has none. The bytes loaded lie in the word
  exactly for fields that lie in it, for nibbles below index 16 (`TouchesWordExactlyWhen`), and the byte getter's shift
  is one that a word allows exactly for indices below 8 (`ByteShiftExactlyWhen`); that is the precondition.
- Garbage that contains the magic number can swallow the frame behind it (`DeliveredExactlyWhenLanding`,
  `SwallowingGarbage`).
- Frames are parsed as in one parse of the stream while the ring is not overwritten (`RunIsOneParse`). 1006 bytes
  between two processing runs is the most that always ensures it (`PacedRunIsOneParse`, `PacingBoundIsTight`).
- A queue overflow while the sender stands between `front` and `pop` makes the pop remove a frame that was never sent
  (`LossExactlyWhenNotQuiet`, `LosingRun`).
- The session's timer never starts a write; it can only rotate the queue or stop the session. Rotation disturbs the
  order of the queue exactly when different messages wait (`QueueOrderExactlyWhen`), and the order of departure exactly
  when a write handler then finds another than the oldest message at the front (`DeparturesExactlyWhen`). Which runs
  those are depends on the events and their counts alone (`NumbersInOrderExactlyWhen`); with nothing added, they are
  those in which the firings before some departure are not a multiple of the number of messages waiting
  (`RoundsInOrderExactlyWhen`, `OvertakingRun`, `TwoTimersRun`).
- The session can be stopped under a write in flight (`CutOffExactlyWhen`, `CutOffRun`). A failing write does not carry
  out a pending close. Until something is sent or received again, only a timer wait left over by a queued message does
  (`FailureUndoesCloseExactlyWhen`, `LeftoverWaitRun`, `UndoneCloseRun`); a message sent later does too
  (`LaterMessageRun`). `ClosedExactlyWhen` says for every run whether the session is closed.
- The 32-bit size check of `decodeBMP` is exact only while its sum does not wrap (`SizeCheckExactlyWhen`). A file that
  passes it is decoded inside the arrays exactly when no product wraps, apart from files that extend to 4 GiB
  (`StaysInsideExactlyWhen`, `SmallFileStaysInsideExactlyWhen`), and from the right places exactly when the pixels end
  below 4 GiB (`ReadsInPlaceExactlyWhen`); `LeavingHeader` is a file of 54 bytes that is not.
  Non-empty top-down files are rejected with 3 or leave the arrays, never decoded (`TopDownNeverDecoded`).

## Model

| member | source | states |
|---|---|---|
| BitArray.CopyBits | libs/bitfield/bitarray.c:23-109 | succeeds exactly when the count is positive and both ranges fit; then destination bit `off+i` is source bit `so+i` for every `i` below the count and every other bit is unchanged; on failure nothing changes; the highest source byte loaded is `LastByteLoaded` |
| BitArray.PrepareFirstCopy | libs/bitfield/bitarray.c:6-16 | clears exactly the destination bits to be written in the first byte, trims `c` to them and reduces the count by their number |
| BitArray.FirstCopy | libs/bitfield/bitarray.c:6-16 | with the or-ing that follows, the first byte holds its part of the bit range and nothing else has changed |
| BitArray.CopyAligned | libs/bitfield/bitarray.c:41-60 | the memcpy branch moves the bit range and nothing else, loading up to the byte of the last bit |
| BitArray.CopyUnaligned | libs/bitfield/bitarray.c:61-107 | the shifting branch moves the bit range and nothing else, loading up to `LastByteLoaded` |
| BitArray.CopyShifted | libs/bitfield/bitarray.c:85-106 | whole bytes and the final partial byte complete a partial copy |
| BitArray.LineUp | libs/bitfield/bitarray.c:65-81 | the combined first byte holds the source bits at their destination positions, zeros before them; the source pointer, the shift and the byte loaded last fit the bytes that follow |
| BitArray.LastCopy | libs/bitfield/bitarray.c:96-106 | masking and or-ing the last byte completes the bit range and keeps the bits behind it |
| BitArray.CopyIgnoresOtherSourceBits | libs/bitfield/bitarray.c:68-82 | sources that agree on the selected range give the same destination, whatever byte lies behind the range |
| BitArray.LoadsBeyondRange | libs/bitfield/bitarray.c:68-105 | the last byte loaded is that of the last selected bit, or the next one exactly when the range ends earlier within its byte in the destination |
| BitArray.OverreadsExactlyWhen | libs/bitfield/bitarray.c:31-34 | a copy that passes the range check loads the byte behind its source if and only if the range reaches the last source byte and ends earlier within its byte in the destination |
| BitArray.RightAlignedExactlyWhen | libs/bitfield/bitarray.c:111-138 | the computed offset is `8*destination_length - bit_count` if and only if that fits 16 bits and the width is at most 2040 or at least 65529 |
| BitArray.RefusedCall | libs/bitfield/bitarray.c:111-138 | a copy of 2041 bits that fit on both sides and are refused, 2040 being accepted |
| BitArray.CopyBitsRightAligned | libs/bitfield/bitarray.c:129-138 | a bit copy to the computed offset, with the same success condition, that loads nothing behind the selected range |
| BitArray.RightAlignedLoadsRange | libs/bitfield/bitarray.c:136-137 | whatever narrows, the copy ends on a byte boundary, so the last byte loaded is that of the last selected bit |
| BitArray.CopyBytesRightAligned | libs/bitfield/bitarray.c:140-145 | a copy of the narrowed bit range that loads nothing behind the source; when no narrowing bites, the last `byte_count` bytes of the destination become the selected bytes of the source |
| BitArray.PlainBytesExactlyWhen | libs/bitfield/bitarray.c:140-145 | for byte counts the destination has room for, none of the numbers passed on is changed by narrowing if and only if the offset is below 8192, the count at most 255 and the room before it below 8192 |
| BitArray.NarrowedBitsWrap | libs/bitfield/bitarray.c:140-145 | eight times a byte count, narrowed to 16 bits, is short of it by 65536 for each 8192 bytes |
| BitArray.CopiedIsSlice | libs/bitfield/bitarray.c:51-55 | between byte boundaries, copying bits and copying bytes are the same thing, in both directions |
| BitString.FieldIsArithmetic | libs/bitfield/bitfield.h:22-32 | n bits read most significant first are the big-endian integer of the bytes, shifted right and reduced modulo `2^n` |
| BitField.BswapIsReversal | libs/bitfield/bitfield.c:21-31 | the eight masked shifts turn a word into the big-endian value of its memory image |
| BitField.BswapReverses | libs/bitfield/bitfield.c:21-31 | swapping a word reverses its eight bytes in memory |
| BitField.Bitmask | libs/bitfield/bitfield.c:50-60 | `2^n - 1` up to n = 64, all ones from there on |
| BitField.GetBitfield | libs/bitfield/bitfield.c:81-99 | `BE(source) / 2^(8L-o-n) mod 2^n` for `1 <= n <= 64` inside the source, 0 otherwise; the last byte loaded is that of the last bit of the field |
| BitField.SetBitfield | libs/bitfield/bitfield.c:107-125 | succeeds exactly when `1 <= n <= 64`, `value < 2^n` and the field fits, whatever the narrowings do; then the field holds the value and all other bits are unchanged; it loads byte 8 of its eight-byte union unless the field ends on a byte boundary |
| BitField.SetOverreadsExactlyWhen | libs/bitfield/bitfield.c:122-124 | the last byte loaded is 7, the last of the union, if and only if the field ends on a byte boundary, otherwise 8 |
| BitField.SetRangesFit | libs/bitfield/bitfield.c:122-124 | the wrapped source offset passes the range check for exactly the widths that fit a word |
| BitField.GetNibbleIsField | libs/bitfield/bitfield.c:62-71 | the nibble getter reads the four bits at `4*index`, or 0 outside the source |
| BitField.SetNibble | libs/bitfield/bitfield.c:101-105 | writes the low nibble of the value, which is the value if and only if it is below 16, at the narrowed offset and leaves all other bits; it loads the byte behind the parameter exactly for even indices |
| BitField.MisplacedNibbleCall | libs/bitfield/bitfield.c:103-104 | nibble 16384 is written at offset 0 |
| BitField.SetNibbleOverreadsExactlyWhen | libs/bitfield/bitfield.c:103-104 | the byte behind the one-byte parameter is loaded if and only if the index is even |
| BitField.OverreadingCalls | libs/bitfield/bitfield.c:101-125 | a one-bit field at offset 0 and nibble 0 are calls that do so |
| BitFieldLaws.SetThenGet | libs/bitfield/bitfield.c:81-125 | reading a field just written returns the value |
| BitFieldLaws.SetKeepsDisjointField | libs/bitfield/bitfield.c:81-125 | every disjoint field reads as before |
| BitFieldLaws.DisjointSetsCommute | libs/bitfield/bitfield.c:107-125 | writes to disjoint fields commute |
| BitFieldLaws.LastSetWins | libs/bitfield/bitfield.c:107-125 | the second of two writes to a field leaves what it alone would have left |
| BitFieldLaws.SetOfGetIsIdentity | libs/bitfield/bitfield.c:81-125 | writing back what a field holds changes nothing |
| EightByte.GetBitfield | libs/bitfield/8byte.c:31-57 | the accumulating loop, shift and mask read the field from the memory image selected by the flag, for every field that lies in the word, the empty one included |
| EightByte.GatherBytes | libs/bitfield/8byte.c:44-53 | the accumulating loop yields the bit field made of all bytes that it loads |
| EightByte.TouchesWordExactlyWhen | libs/bitfield/8byte.c:33-51 | the bytes loaded lie in the word if and only if the field does, for nibbles if and only if the index is below 16 |
| EightByte.AccessorsAgree | libs/bitfield/8byte.c:31-57 | that field is the value `get_bitfield` computes on the image; with the flag false it is `source / 2^(64-o-n) mod 2^n` |
| EightByte.ImageIsBigEndian | libs/bitfield/8byte.c:36-44 | with the flag false the image is the word most significant byte first; the flag reverses it |
| EightByte.GetByteIsField | libs/bitfield/8byte.c:16-26 | the byte getter is the width-8 field of the same image |
| EightByte.ByteShiftExactlyWhen | libs/bitfield/8byte.c:25-25 | its unsigned shift count is below 64 if and only if the index is below 8 |
| EightByte.GetNibble | libs/bitfield/8byte.c:10-14 | the nibble getter is `get_nibble` of the image |
| EightByte.SetBitfield | libs/bitfield/8byte.c:59-70 | succeeds exactly when the value fits the mask of the narrowed width, which up to 64 bits means the width; then the field of the big-endian image holds it and all other bits are unchanged, an empty field included |
| EightByte.StoreFieldIsWritten | libs/bitfield/8byte.c:65-68 | clearing and or-ing the shifted mask writes one field of the image and nothing else |
| EightByte.SettersAgree | libs/bitfield/8byte.c:59-70 | on eight bytes, `set_bitfield` and `eightbyte_set_bitfield` store the same |
| Sha256Spec.RoundConstantsAreCubeRoots | libs/sha256/sha256.c:35-44 | each round constant is the first 32 fraction bits of the cube root of its prime (FIPS 180-4, section 4.2.2) |
| Sha256Spec.InitialHashIsSquareRoots | libs/sha256/sha256.c:92-99 | each initial word is the first 32 fraction bits of the square root of its prime (section 5.3.3) |
| Sha256Spec.PaddingIsLeast | libs/sha256/sha256.c:121-135 | in bits, the number of padding zeros is the least that makes the length 448 modulo 512 (section 5.1.1) |
| Sha256Spec.PadInjective | libs/sha256/sha256.c:117-146 | messages within the length limit are never confused by padding |
| Sha256Bits.RotrBit | libs/sha256/sha256.c:25-25 | bit k of a word turned right by n is bit k+n modulo 32 of the word |
| Sha256Bits.SigmaBits | libs/sha256/sha256.c:29-30 | bit k of EP0 is set if and only if an odd number of the bits k+2, k+13, k+22 (modulo 32) are, of EP1 for 6, 11 and 25 |
| Sha256Bits.SmallSigmaBits | libs/sha256/sha256.c:31-32 | bit k of SIG0 is set if and only if an odd number of the bits k+7, k+18 (modulo 32) and k+3 are, of SIG1 for 17, 19 and 10; the third bit is zero beyond bit 31 |
| Sha256Bits.ChBit | libs/sha256/sha256.c:27-27 | bit k of CH is that of y where x has a one and that of z elsewhere |
| Sha256Bits.MajBit | libs/sha256/sha256.c:28-28 | bit k of MAJ is set if and only if at least two of the three bits k are |
| Sha256Vector.DigestOfAbc | libs/sha256/sha256.c:47-161 | the digest of "abc" is the 32 bytes ba7816bf to f20015ad of the published example (FIPS 180-2, appendix B.1) |
| Sha256.Schedule | libs/sha256/sha256.c:51-54 | the array of 64 words is the recursive message schedule W of section 6.2.2 |
| Sha256.Transform | libs/sha256/sha256.c:47-86 | rotating eight registers in place is the compression function of section 6.2.2 |
| Sha256.AddBack | libs/sha256/sha256.c:78-85 | the eight working registers are added to the state word by word, modulo `2^32` |
| Sha256.Context.Init | libs/sha256/sha256.c:88-100 | a reset context has absorbed the empty message |
| Sha256.Context.Absorb | libs/sha256/sha256.c:107-113 | one byte more: buffer, block count and chained state are again those of the longer message |
| Sha256.Context.Update | libs/sha256/sha256.c:102-115 | the context absorbs the chunk behind what it had absorbed |
| Sha256.Context.Final | libs/sha256/sha256.c:117-161 | the first 32 bytes become the digest of everything absorbed, the rest of the output is untouched |
| Sha256.Context.PadBuffer | libs/sha256/sha256.c:121-135 | one more compression, of the buffer with the length in its last eight bytes, gives the hash of the whole padded message |
| Sha256.Context.StoreLength | libs/sha256/sha256.c:138-146 | the last eight buffer bytes become the 64-bit big-endian bit length of the message, the others stay |
| Sha256.Context.EmitState | libs/sha256/sha256.c:151-160 | the first 32 output bytes become the state words, most significant byte first, the rest stays |
| Sha256.BlocksAfter | libs/sha256/sha256.c:106-114 | a byte either lengthens the remainder or completes a block that is compressed onto the state |
| Sha256.PadTail | libs/sha256/sha256.c:121-147 | the one or two last blocks are the standard's padding of the remainder, one exactly when it is shorter than 56 bytes |
| Sha256.HashChunks | src/DirectoryBackup.cpp:223-229 | hashing chunk by chunk yields the digest of the concatenation, for every chunking |
| UartFrame.ParseInParts | src/CanDeviceStm32.cpp:28-61 | parsing in two parts with the residue carried over is parsing the whole |
| UartFrame.ResidueIsSuffix | src/CanDeviceStm32.cpp:28-61 | what the parser leaves behind is the end of its input |
| UartFrame.ParseWellDelivered | src/CanDeviceStm32.cpp:32-53 | delivered frames are 19-byte windows at increasing, non-overlapping positions, each with the receive magic and a matching checksum |
| UartFrame.NoStraddle | src/CanDeviceStm32.cpp:35-35 | no magic number straddles the boundary between fewer than four garbage bytes and a frame |
| UartFrame.DeliveredExactlyWhenLanding | src/CanDeviceStm32.cpp:28-61 | a valid frame behind any bytes is delivered from its place if and only if the parser, run on those bytes, lands on their end |
| UartFrame.SwallowingGarbage | src/CanDeviceStm32.cpp:35-53 | behind the four bytes of the magic number no frame is delivered from its place |
| UartFrame.SkipsGarbage | src/CanDeviceStm32.cpp:55-59 | garbage without a magic number is skipped and the frame behind it delivered |
| UartFrame.AllFramesDelivered | src/CanDeviceStm32.cpp:25-62 | any number of valid frames, each behind its own garbage: all delivered, in order, nothing left |
| UartFrame.EncodeThenParse | src/CanDeviceStm32.cpp:25-75 | frames in the device's layout with the receive magic come back with the same ids, lengths and payloads, whatever the unused bytes hold |
| RxPath.StepKeepsInv | src/CanSerialPort.cpp:167-172 | every arrival and processing run keeps the ring a suffix of the stream and the deliveries genuine and ordered |
| RxPath.RunKeepsInv | src/CanSerialPort.cpp:167-172 | the same after any sequence of events, overwriting ones included |
| RxPath.RunIsOneParse | src/CanSerialPort.cpp:167-172 | while no arrival overflows the ring, what was and will be delivered is one parse of the whole stream |
| RxPath.PacedNeverOverwrites | src/CanSerialPort.cpp:6-6 | at most 1006 bytes between processing runs never overflow the ring |
| RxPath.PacedRunIsOneParse | src/CanSerialPort.cpp:6-6 | with at most 1006 bytes between processing runs, what was and will be delivered is one parse of the whole stream |
| RxPath.ChunkingDoesNotMatter | src/CanDeviceStm32.cpp:25-62 | two runs over the same bytes, without overflow, deliver the same frames and leave the same ring |
| RxPath.EncodedFramesArrive | src/CanDeviceStm32.cpp:25-75 | frames in the device's layout with the receive magic, arriving in any chunks that do not overflow the ring, are delivered with the same messages in order, and the ring is empty |
| RxPath.PacedFramesArrive | src/CanDeviceStm32.cpp:25-75 | the same for at most 1006 bytes between processing runs |
| RxPath.PacingBoundIsTight | src/CanSerialPort.cpp:6-6 | with 1007 bytes a valid frame of the stream can be lost |
| TxPath.EveryInterleavingIsSafe | src/CanSerialPort.cpp:66-79 | under every interleaving the pop never meets an empty queue, at most 100 frames are queued, the wire carries accepted frames in order, and at the loop head accepted = written + dropped + queued |
| TxPath.StepKeepsInv | src/CanSerialPort.cpp:174-198 | each atomic step of either thread keeps that invariant, with every removed frame accounted for |
| TxPath.LossExactlyWhenNotQuiet | src/CanSerialPort.cpp:174-198 | frames are popped unwritten if and only if the queue overflowed while the sender was between front and pop |
| TxPath.SkippedIsLost | src/CanSerialPort.cpp:194-195 | such a frame never reaches the wire afterwards |
| TxPath.LosingRun | src/CanSerialPort.cpp:73-77 | a run in which the first frame is written although dropped and the second is lost |
| TxPath.TurnSendsFront | src/CanSerialPort.cpp:177-195 | an uninterrupted turn of the loop writes the front frame and removes that frame |
| TxPath.DropsExactlyWhen | src/CanSerialPort.cpp:71-77 | in every state that satisfies the invariant, whatever the sender is doing, an event drops a frame if and only if it adds one while exactly 100 are queued, and drops exactly the oldest; an added frame joins the end and all others stay; the sender removes the front in its pop and nothing else |
| TxPath.DropsInRun | src/CanSerialPort.cpp:71-77 | over every run the number of frames dropped is the number of frames added while exactly 100 were queued |
| CanSerial.CanSerialPort.OnDataReceived | src/CanSerialPort.cpp:167-172 | takes the arrival step of the receive path and raises the notification |
| CanSerial.CanSerialPort.AddToTxQueue | src/CanSerialPort.cpp:66-79 | takes the producer's step of the transmit path, or ignores a call without data; the last entry of the queue has the caller's id and length, and its payload is the caller's first `min(8, length)` bytes followed by zeros; before it stands the old queue, without its oldest entry if there were 100 |
| CanSerial.CanSerialPort.SendPendingCanFrames | src/CanSerialPort.cpp:174-198 | without interference everything queued is written, in order, and the queue is empty |
| CanSerial.CanDeviceStm32.ProcessReceivedFrames | src/CanDeviceStm32.cpp:25-62 | the nested loops take the processing step of the receive path |
| CanSerial.CanDeviceStm32.PrepareSendDataFormat | src/CanDeviceStm32.cpp:64-76 | 19 bytes at the start of the buffer are an encoding of the message and begin 0xDD 0xCC 0xBB 0xAA; bytes that the frame does not define are untouched |
| CanSerial.SendOne | src/CanSerialPort.cpp:174-198 | a frame added to an empty queue and sent goes out as one more window, which holds 0xAABBCCDD, the caller's id, length and data bytes, and the checksum of all before it |
| SessionWrites.RunKeepsInv | src/Session.cpp:41-100 | after any events: nothing pending without a write in flight, at most one write outstanding, accepted = completed + failed + discarded + in flight + pending |
| SessionWrites.StepKeepsInv | src/Session.cpp:14-100 | every enabled event keeps that invariant |
| SessionWrites.OrderAfter | src/Session.cpp:41-100 | what each event does to the order in which accepted messages leave |
| SessionOrder.QueueOrderExactlyWhen | src/Session.cpp:41-100 | the departed messages followed by the queue are the accepted ones, in order, at every point of a run if and only if no timer fires while different messages wait |
| SessionOrder.DeparturesExactlyWhen | src/Session.cpp:61-83 | step by step: the messages depart in the order in which they were accepted if and only if every write handler of the run finds the oldest waiting message at the front of the queue |
| SessionPositions.NumbersInOrderExactlyWhen | src/Session.cpp:41-100 | different messages depart in the order in which they were accepted if and only if a simulation of the queue by numbers, which knows the events and counts but no text, lets the numbers leave as 0, 1, 2 and so on |
| SessionPositions.SimulationDecides | src/Session.cpp:41-100 | over any run the simulated queue is the session's, number for message, writes, waits and outcomes included, and numbers in order mean messages in order |
| SessionPositions.ClosePendingExactlyWhen | src/Session.cpp:14-59 | after any run a close is pending if and only if some read asked to close and had a reply |
| SessionOrder.HarmlessTimersDepartInOrder | src/Session.cpp:41-100 | a run without a timer firing among different messages departs in order |
| SessionOrder.FiringsRotate | src/Session.cpp:41-50 | k firings with n messages waiting rotate the queue by k mod n and do nothing else |
| SessionOrder.RoundsInOrderExactlyWhen | src/Session.cpp:41-83 | with distinct messages waiting in order and nothing added, they depart in order if and only if the firings before each departure are a multiple of the number then waiting |
| SessionDrain.FiringsThenDrain | src/Session.cpp:46-50 | three messages and k firings during the first write: all are completed, in order if k is even, the third before the second if it is odd |
| SessionDrain.OvertakingRun | src/Session.cpp:46-50 | a run in which the third message overtakes the second |
| SessionDrain.TwoTimersRun | src/Session.cpp:46-50 | a run that departs in order although a timer fired among different messages |
| SessionDrain.DrainRun | src/Session.cpp:61-83 | from any state, one completion more than messages wait completes all of them in the order of the queue; a pending close is then carried out if and only if a write was in progress |
| SessionDrain.ClosedExactlyWhen | src/Session.cpp:14-83 | after any run the session is closed if and only if the timer fired or a write completed with nothing queued after a read that asked to close with a reply, or a read asked to close without one; stated on the events and their simulation alone |
| SessionDrain.FailureUndoesCloseExactlyWhen | src/Session.cpp:51-82 | when a write fails while a close is pending, and nothing is sent or received after it, the session is closed if and only if a leftover timer wait fires |
| SessionDrain.UndoneCloseRun | src/Session.cpp:79-82 | without a leftover wait it stays open whatever else happens quietly |
| SessionDrain.LeftoverWaitRun | src/Session.cpp:51-57 | a run in which the wait of a discarded message closes the session after the failure |
| SessionDrain.LaterMessageRun | src/Session.cpp:71-77 | a run in which the completion of a later message does |
| SessionDrain.CutOffExactlyWhen | src/Session.cpp:14-59 | over any run, messages were in flight or waiting when the session closed if and only if the closing event was a timer firing with nothing queued and a close asked for, or a read that asked to close without a reply, and a write was in flight; stated on the events and their simulation alone |
| SessionDrain.CutOffRun | src/Session.cpp:51-57 | a run in which the timer does so |
| SessionWrites.Session.SendAsync | src/Session.cpp:85-100 | queues behind a write in progress and arms the timer, or starts a write |
| SessionWrites.Session.Broadcast | src/Server.cpp:41-51 | a message from the server takes the send step |
| SessionWrites.Session.HandleRead | src/Session.cpp:14-39 | takes the read step, or nothing on an error |
| SessionWrites.Session.HandleTransferTimer | src/Session.cpp:41-59 | takes the timer step, or on an error only gives up its wait |
| SessionWrites.Session.HandleWrite | src/Session.cpp:61-83 | takes the write-done step, or on an error discards the queue |
| BmpDecoder.DecodeBMP | src/PrintScreenSaver.cpp:159-210 | the error is `2^32 - 1` exactly below 54 bytes, 1 exactly without the letters BM, 2 exactly for other than 24 or 32 bits per pixel, and width and height are read from bytes 18, 19 and 22, 23, the height signed; 0 exactly for an accepted header that passes the 32-bit size check, for headers without wrapping products exactly when all pixel data is present, and then the image is the converted pixels; otherwise the old image |
| BmpDecoder.FillImage | src/PrintScreenSaver.cpp:190-208 | the nested loops with their 32-bit indices, writing in place, fill the image row by row with the converted pixels |
| BmpDecoder.ScanlineBytes | src/PrintScreenSaver.cpp:175-176 | the unsigned computation is the padded row length and never wraps |
| BmpDecoder.PixelAt | src/PrintScreenSaver.cpp:190-208 | the four bytes of pixel (x, y) stand at `4 * (y * w + x)` of the image |
| BmpDecoder.PixelOfCompleteFile | src/PrintScreenSaver.cpp:193-206 | in a complete file without wrapping products, pixel (x, y) is input row `h-1-y`, column x, with B and R swapped and alpha copied or 255, and every byte read lies inside the input |
| BmpDecoder.StaysInsideExactlyWhen | src/PrintScreenSaver.cpp:179-208 | a file that passes the size check is decoded inside both arrays if and only if no product wraps, or only the end of the pixel data does and the file covers all indices below `2^32` that are fetched |
| BmpDecoder.ReadsInPlaceExactlyWhen | src/PrintScreenSaver.cpp:193-206 | every byte is fetched from its own place in the file if and only if the pixels end below `2^32` |
| BmpDecoder.SmallFileStaysInsideExactlyWhen | src/PrintScreenSaver.cpp:179-208 | for files below 4 GiB less three bytes: if and only if no product wraps |
| BmpDecoder.TopDownNeverDecoded | src/PrintScreenSaver.cpp:168-179 | a non-empty file with a negative height field passes the size check exactly when it is no smaller than the pixel offset less the size of its pixel data, modulo `2^32`, and leaves the arrays whenever it does |
| BmpDecoder.LeavingHeader | src/PrintScreenSaver.cpp:168-208 | a bare 54-byte header that passes the check and leaves the arrays |
| BmpDecoder.StrideIsLeast | src/PrintScreenSaver.cpp:173-176 | the row stride is the least multiple of 4 not below the row's bytes |
| BmpDecoder.SizeCheckExactlyWhen | src/PrintScreenSaver.cpp:178-179 | the size check accepts exactly the complete files if and only if the 32-bit sum does not wrap |
| BmpFile.DecodeDescribed | src/PrintScreenSaver.cpp:159-210 | any file that has them there, whatever its other bytes, is decoded with 0 to exactly the width, height and image it describes |
| BmpFile.WrittenDescribes | src/PrintScreenSaver.cpp:159-210 | the written file has every field and every pixel byte at its place |
| BmpFile.WriteThenDecode | src/PrintScreenSaver.cpp:159-210 | round trip: signature, offset, width, height, bit count and bottom-up padded BGR(A) rows, written for an image whose sizes fit, are decoded with 0 to the same width, height and RGBA bytes |
| StringEscaper.EscapeString | src/StringToCEscaper.cpp:3-11 | the whole-string passes equal one left-to-right rewrite, for each flag setting |
| StringEscaper.LineEndPass | src/StringToCEscaper.cpp:9-10 | line ends are found in the escaped text exactly where the original has them |
| StringEscaper.UnescapedOfEscaped | src/StringToCEscaper.cpp:3-11 | the one-pass reader returns the original |
| StringEscaper.EscapingInjective | src/StringToCEscaper.cpp:3-11 | different texts have different escapes |
| StringEscaper.EscapedStaysInside | src/StringToCEscaper.cpp:5-6 | between quotes, the escaped text never ends the C literal early |
| StringEscaper.EscapesOfCharacters | src/StringToCEscaper.cpp:5-10 | backslash, quote, percent sign, line end and every other character are escaped to these literal strings, for each flag setting |
| StringEscaper.EscapedInParts | src/StringToCEscaper.cpp:5-10 | a text is escaped part by part, wherever no line end is torn |

## Left out

- The bit pattern of CRC-16: its body is not part of this model; every result holds for any checksum function.
- ISO-TP, the Lawicel device, sensors, GUI, logging, sockets, serial ports, file system and database: I/O or glue.
- `read.c` and `write.c`: floating-point scaling around the fields proved here.
- Big-endian hosts: both `is_little_endian()` branches exist in the source; the model takes the little-endian one.
- Aliasing of source and destination in `copy_bits`: excluded by precondition, as memcpy demands.
- CAN payload lengths above 8: the `CanData` constructor clamps its parameter and stores the unclamped length, and the
  model queues it the same way; sending takes lengths up to 8 as a precondition, because the code then copies from and
  to memory behind the eight payload bytes.
- Data races on the unguarded queue accesses: each queue access is one atomic step.
- Session handlers are atomic, and which of the earlier timer waits a new one still cancels is left open; removal of a
  session from the server's list and socket errors are not modelled.
- Sha256.Context.Update: chunks are below 2^32 bytes, because the loop counter of `sha256_update` has 32 bits and a
  longer chunk would never end.
- EightByte.SetBitfield: fields for which the code shifts by a negative number or by 64 or more are excluded by
  precondition, as are fields outside the word for EightByte.GetBitfield.
- BmpDecoder.DecodeBMP: the files that pass the size check and for which the loops index outside the two arrays are
  excluded by precondition, because what the code then does is undefined; `StaysInsideExactlyWhen` says which those
  are. Memory for the image is taken to be available.
- The clocks, sleeps, condition variables and thread start-up around the serial port worker.
- `std::vector` and `std::string` parameters (`image`, `input`): values that the methods reassign, so their storage and
  aliasing are not part of this model.
- What the handlers behind `OnFrameReceived` and `OnFrameSent` do with a frame; the model records the deliveries.
