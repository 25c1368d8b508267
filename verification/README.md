# Verification of nalchi's bit streams and shared payloads

nalchi is a C++ utility library for game networking. This project models its two stateful
cores and proves what they are for.

* **Bit streams** (`include/nalchi/bit_stream.hpp`, `src/bit_stream.cpp`). A writer packs
  range-limited integers, byte blocks, floats and length-prefixed strings into 32-bit words
  through a 64-bit scratch register; a reader unpacks them with its own scratch and lazy word
  fetches; a measurer predicts the size. They are classes with the original's fields, and every
  method is proved against a wire format that knows only bit sequences.
* **Shared payloads** (`src/shared_payload.cpp`, `include/nalchi/socket_extensions.hpp`). A block
  with a hidden reference count and a size field with a flag bit is shared by the messages of a
  multicast and freed by whichever release comes last. The count is modelled as a step system
  over every interleaving, and the classes are proved to move along its steps.

## How it is put together

| file | content |
|---|---|
| `Arithmetic.dfy` | powers of two, bitwise operators on naturals, `std::bit_width`, mask rounding, 32-bit wrap-around |
| `Bits.dfy` | bit sequences, little end first; or-ing as appending, masking and shifting as splitting |
| `IntTypes.dfy` | `bool` and the 8/16/32/64-bit integer types, the offset encoding of a range |
| `Memory.dfy` | words and bytes in either native byte order, the bits they hold |
| `Lists.dfy` | optional values and lists |
| `Format.dfy` | the wire format: bits of every write, result of every read, the two stream states |
| `RoundTrip.dfy` | laws of the format over whole programs |
| `WireLaws.dfy` | the format in plain numbers: size and content of every write, result and position of every read |
| `Writer.dfy`, `Reader.dfy`, `Measurer.dfy` | the three classes, proved against the format |
| `ReleaseProtocol.dfy` | the reference count under every interleaving |
| `Payload.dfy` | the block, its size field, messages, `multicast` |
| `EndToEnd.dfy` | everything together, on machines of either byte order |

The writer's abstract state is the sequence of all bits accepted so far: the bits of the flushed
words followed by the low `_scratch_index` bits of the scratch. The reader's invariant says that
its scratch is the field of `_scratch_bits` bits just before the next word. Both invariants are
kept by every method, and each store and load of `_words[_words_index++]` is proved to be in
range.

## What the code does differently from its documentation

The model follows the code.

* Both string reads are documented to set the fail flag and read nothing when the length exceeds
  the limit (`include/nalchi/bit_stream.hpp:911-914`, `946-948`). The code never reads nothing: the
  length prefix is consumed before the comparison. And it does not always fail: the stored length
  is first cut to its low word and taken as signed. With the characters of the cut length there, a
  string above the limit is refused if and only if the cut length is above the limit or negative
  (`TooLongStringMovesOn`); every stored length below 2^32 above the limit is refused. A stored
  length of 2^32 is accepted with a limit of 0 and gives the empty string
  (`TooLongStringAccepted`). `StringFromTheWire` gives the exact outcome and position for all bits,
  also with the tag or the length cut off.
* `peek_string_length` is documented to return the stored length, or a negative number with the
  fail flag set (`include/nalchi/bit_stream.hpp:982-987`). A peek that does not fail returns the
  stored length if and only if that is below 2^31 (`PeekIsExactIff`). A stored length of 2^31 comes
  out negative without a failure (`PeekNegativeWithoutFailure`), one of 2^32 as 0
  (`PeekTruncatesWithoutFailure`). No writer stores such lengths (`AcceptedStringIsShort`).
* A checked read compares only with `max` (`include/nalchi/bit_stream.hpp:1049`). Bits that no
  writer produces can yield a value below `min`: an `int8_t` read in [100, 127] turns the field 28
  into -128 (`CheckedReadBelowMinimum`). It cannot happen if and only if `min + 2^bits - 1` fits
  the type (`CheckIsSoundIff`).

## Assumptions

* All counters are 32 bits wide and wrap around as in the source. A byte block is only written or
  read where the overflow check, made in 32-bit arithmetic, sees an overflow if there is one
  (`OverflowSeen`); this is exactly when the check decides as on unbounded numbers
  (`BlockCheckIsExactIff`), and always the case for programs that fit their stream
  (`FittingIsCountable`, `ReadBackAll`). An initialised stream has at most 2^32 - 65 bits, so that
  one more integer does not wrap. The source bounds messages far below that
  (`src/bit_stream.cpp:19-21`).
* `size_t` has 64 bits, and the bytes of a string in memory can be counted in it.
* Signed addition on the read side wraps in two's complement; conversions are those of C++20.
* Atomic operations happen in one total order; the fetch-and-subtract and the deallocation that
  may follow it are separate steps.
* The send limit of the transport library is a parameter with the bound of the static assertions
  (`src/bit_stream.cpp:19-21`, `src/shared_payload.cpp:27-28`); whether `malloc` finds memory is a
  parameter. A null span is an empty array.
* An allocated message is released by the transport library once, at any time after the sending
  began, on any thread.
* The pieces that several operations share (the checks behind macros, "or in, advance, flush",
  "fetch, mask, shift", the end of a read) are methods of their own here.

## Model

| member | source | states |
|---|---|---|
| `Arithmetic.CeilToMultipleOf8` | src/math.hpp:9-14 | the mask expression is the least multiple of 8 that is not smaller, except that sizes above 2^32 - 8 give 0 |
| `Arithmetic.CeilToMultipleOf4` | src/math.hpp:9-14 | the same for 4 |
| `Arithmetic.CeilToMultipleOf4Int` | src/math.hpp:9-14 | the same for 4 on `int`, negative sizes included; sizes above 2^31 - 4 turn negative |
| `Arithmetic.LowWordIsLow` | include/nalchi/bit_stream.hpp:511 | shifting a 64-bit value up and down by a word leaves exactly its low word |
| `Arithmetic.BitWidthBounds` | include/nalchi/bit_stream.hpp:448 | `bit_width(x)` is the one w with 2^(w-1) <= x < 2^w |
| `Arithmetic.BitWidthIsTheWidth` | include/nalchi/bit_stream.hpp:448 | there is one width of a number without a leading zero, and `bit_width` is it |
| `Arithmetic.I32IsWrapped` | src/bit_stream.cpp:348-359 | the conversion to the signed size type yields the one number in its range that differs by a multiple of 2^32 |
| `Bits.OrIsBitwise` | include/nalchi/bit_stream.hpp:461 | bitwise or, bit by bit |
| `Bits.AndIsBitwise` | include/nalchi/bit_stream.hpp:1037 | bitwise and, bit by bit |
| `Bits.OrAppends` | include/nalchi/bit_stream.hpp:460-462 | or-ing a field in above the bits held appends it and loses nothing while both fit 64 bits |
| `Bits.ToBitsSplit` | include/nalchi/bit_stream.hpp:510-529 | a field of n + m bits is the field of its low n bits followed by the field of its high m bits |
| `IntTypes.IntType.RangeOfType` | include/nalchi/bit_stream.hpp:433 | the limits of every integer type |
| `IntTypes.IntType.OffsetIsWrappedDifference` | include/nalchi/bit_stream.hpp:447 | the value written is the difference to `min` modulo the size of the unsigned type, for all arguments |
| `IntTypes.IntType.FieldIsNarrowest` | include/nalchi/bit_stream.hpp:448 | the field of a range has the width w with 2^(w-1) <= max - min < 2^w, and that of the wrapped difference for a range upside down |
| `IntTypes.IntType.RestoreIsWrappedSum` | include/nalchi/bit_stream.hpp:1044 | every raw field restores to its sum with `min`, less the size of the type where that is too large for it |
| `IntTypes.IntType.OffsetRoundTrip` | include/nalchi/bit_stream.hpp:444-448 | at every width and signedness the wrapped difference to `min` is the true one, fits the field, and restores to the value |
| `IntTypes.IntType.AcceptedExactly` | include/nalchi/bit_stream.hpp:1043-1054 | which raw fields pass the check against `max`, which of them lie in the range, and what each of them yields |
| `IntTypes.IntType.CheckIsSoundIff` | include/nalchi/bit_stream.hpp:1043-1054 | the check keeps results at or above `min` if and only if `min + 2^bits - 1` fits the type |
| `IntTypes.CheckedReadBelowMinimum` | include/nalchi/bit_stream.hpp:1043-1054 | an input for which the check lets a value below `min` through |
| `Memory.NativeInvolutive` | src/bit_stream.cpp:169-171 | swapping on store and on load cancel out |
| `Memory.ByteOrders` | src/bit_stream.cpp:169-171 | the bytes of a word in memory in either byte order, and what swapping does to them |
| `Memory.ImageSpellsBits` | src/bit_stream.cpp:169-174 | in either byte order the bytes in memory spell the stream, lowest bit of the lowest byte first |
| `Memory.SameImageIffSameBits` | src/bit_stream.cpp:370-376 | two buffers of any byte orders have equal memory images if and only if they hold the same bits |
| `Format.NarrowestLengthType` | include/nalchi/bit_stream.hpp:363-392 | the tag names the narrowest length type that holds the length |
| `Format.AcceptedStringIsShort` | include/nalchi/bit_stream.hpp:386-392 | a string that fits a stream never gets tag 3, and its length fits the signed size type |
| `Format.ReadTag` | src/bit_stream.cpp:329-331 | the checked read of the tag accepts every tag |
| `Format.ReadIntFull` | include/nalchi/bit_stream.hpp:881-885 | a read over the full range of a type fails only for lack of bits |
| `Format.BlockCheckIsExactIff` | src/bit_stream.cpp:129 | the 32-bit overflow check of a byte block decides as on unbounded numbers if and only if it sees every overflow |
| `Format.BlockCheckWrapsAround` | src/bit_stream.cpp:129 | an input for which it does not |
| `RoundTrip.EncodeAllConcat` | include/nalchi/bit_stream.hpp:303-399 | the encoding of two programs in a row is the one after the other |
| `RoundTrip.FailureIsSticky` | include/nalchi/bit_stream.hpp:18-23 | once failed, no program of writes and no flush changes anything |
| `RoundTrip.RunSucceedsIff` | include/nalchi/bit_stream.hpp:436-457 | a program succeeds if and only if all arguments are in range and its whole encoding fits, and then appends exactly that |
| `RoundTrip.FreshRun` | include/nalchi/bit_stream.hpp:436-469 | the same from a fresh writer |
| `RoundTrip.FittingIsCountable` | src/bit_stream.cpp:128-133 | no byte block of a program that fits the stream overruns the counters |
| `RoundTrip.FailureIsAtomic` | include/nalchi/bit_stream.hpp:354-392 | a failing program leaves exactly the encoding of the writes before the first rejected one, however long that one is |
| `RoundTrip.AcceptedIsPrefix` | include/nalchi/bit_stream.hpp:354-392 | the accepted writes of a failing program are its first ones, and the next one is rejected |
| `RoundTrip.RunInParts` | include/nalchi/bit_stream.hpp:303-399 | two programs in a row run as the one after the other |
| `RoundTrip.NothingAfterFlush` | src/bit_stream.cpp:106-121 | a final flush of an unfailed writer always closes it, and any program after it fails with the stream unchanged |
| `RoundTrip.NothingWithoutBuffer` | src/bit_stream.cpp:87-94 | a writer whose buffer was refused accepts nothing |
| `RoundTrip.MatchingReadsExist` | include/nalchi/bit_stream.hpp:864-980 | every program has a matching list of reads |
| `RoundTrip.ReadBackInt` | include/nalchi/bit_stream.hpp:1006-1063 | an integer reads back, in any range of any type |
| `RoundTrip.ReadBackRun` | src/bit_stream.cpp:256-274 | bytes and characters read back as the sequence written |
| `RoundTrip.ReadBackLength` | src/bit_stream.cpp:322-366 | a length prefix reads back as the length, cut to the signed size type |
| `RoundTrip.ReadBackString` | include/nalchi/bit_stream.hpp:923-943 | a string reads back whenever the limit allows its length |
| `RoundTrip.ReadBackOp` | include/nalchi/bit_stream.hpp:864-980 | every kind of write reads back, and the reader moves by exactly its bits |
| `RoundTrip.ReadBackAll` | tests/bit_stream/stress.cpp:44-96 | whole-stream round trip for every list of valid writes |
| `RoundTrip.InStep` | tests/bit_stream/stress.cpp:44-96 | after any part of the program reader and writer have used the same number of bits |
| `RoundTrip.SplitField` | include/nalchi/bit_stream.hpp:1101-1127 | a field of n + m bits reads as the adjacent fields of its low n and high m bits |
| `RoundTrip.ReadAcceptsExactly` | include/nalchi/bit_stream.hpp:1020-1060 | exact acceptance of a checked read on arbitrary bits, the value it then hands out, and where it leaves the stream |
| `RoundTrip.WrittenLengthIsAnnounced` | include/nalchi/bit_stream.hpp:363-392 | a written length prefix announces its length at every size below 2^64 |
| `RoundTrip.StringReadSucceedsIff` | include/nalchi/bit_stream.hpp:927-943 | on arbitrary bits with a length prefix, a string read succeeds if and only if the length, cut to its signed low word, is not negative, within the limit, and its characters are there; the prefix is consumed either way |
| `RoundTrip.TooLongStringMovesOn` | include/nalchi/bit_stream.hpp:927-935 | for every announced length above the limit: the position has moved behind the prefix, and exactly when the read fails |
| `RoundTrip.TooLongStringAccepted` | src/bit_stream.cpp:354-359 | a stored length of 2^32 passes a limit of 0 |
| `RoundTrip.FailedStringReadStaysIff` | include/nalchi/bit_stream.hpp:927-943 | a failing string read leaves the position alone if and only if the tag could not be read, and where it has moved otherwise |
| `RoundTrip.ReadInParts` | include/nalchi/bit_stream.hpp:864-988 | two read programs in a row read as the one after the other |
| `RoundTrip.ReadFailureIsSticky` | include/nalchi/bit_stream.hpp:18-23 | a failed reader stays where it is and hands out nothing, whatever the program |
| `RoundTrip.PeekInserted` | src/bit_stream.cpp:302-320 | one non-failing peek anywhere in a program adds the length found there to the results and changes nothing else |
| `RoundTrip.PeeksAreTransparent` | src/bit_stream.cpp:302-320 | dropping all non-failing peeks from a read program changes no other result and not the final state |
| `RoundTrip.PeekSucceedsIff` | src/bit_stream.cpp:302-366 | a peek fails if and only if the tag or the length it announces is cut off; it returns what reading the length returns |
| `RoundTrip.PeekIsExactIff` | src/bit_stream.cpp:333-359 | a peek that does not fail returns the stored length if and only if it is below 2^31, a negative number if and only if its low word is 2^31 or more, and the low word otherwise |
| `RoundTrip.PeekNegativeWithoutFailure` | src/bit_stream.cpp:348-353 | a stored length of 2^31 peeks as a negative number without a failure |
| `RoundTrip.PeekTruncatesWithoutFailure` | src/bit_stream.cpp:354-359 | a stored length of 2^32 peeks as 0 without a failure |
| `RoundTrip.PeekSeesLength` | src/bit_stream.cpp:302-320 | peeking at a written string returns its length and moves nothing |
| `WireLaws.IntegerOnTheWire` | include/nalchi/bit_stream.hpp:444-466 | an integer takes the width of max - min in bits, which write data - min |
| `WireLaws.RunOnTheWire` | src/bit_stream.cpp:135-139 | where each element of a run stands, and what its bits write |
| `WireLaws.BytesOnTheWire` | src/bit_stream.cpp:123-142 | a block takes 8 bits a byte, byte i at bit 8 i |
| `WireLaws.FloatsOnTheWire` | src/bit_stream.cpp:144-158 | floats and doubles take 32 and 64 bits, which write the pattern |
| `WireLaws.TagsAndWidths` | include/nalchi/bit_stream.hpp:105-109 | the four tags and the lengths they name |
| `WireLaws.StringOnTheWire` | include/nalchi/bit_stream.hpp:354-399 | size of a string, its tag and its length |
| `WireLaws.CharactersOnTheWire` | include/nalchi/bit_stream.hpp:394-396 | where each character stands, and what its bits write |
| `WireLaws.WriteOutcome` | include/nalchi/bit_stream.hpp:436-457 | exactly when a write is rejected, and all that changes in either case |
| `WireLaws.CoveredWrites` | include/nalchi/bit_stream.hpp:302-421 | the model covers every call the static types allow, strings up to the size memory can hold |
| `WireLaws.IntegerFromTheWire` | include/nalchi/bit_stream.hpp:1006-1063 | a checked read on any bits: when it fails, which leaves the position, and the value it hands out otherwise, each from min, max and the field alone |
| `WireLaws.RawFromTheWire` | src/bit_stream.cpp:276-300 | raw bits are read as they are, or the stream fails where it stands |
| `WireLaws.RunFromTheWire` | src/bit_stream.cpp:267-271 | element i of a run is the field at its place |
| `WireLaws.BytesFromTheWire` | src/bit_stream.cpp:256-274 | a block is read whole and in order, or the stream fails where it stands |
| `WireLaws.LengthFromTheWire` | src/bit_stream.cpp:322-366 | reading a length: position and result with the tag cut off, with the length cut off, and otherwise |
| `WireLaws.PeekFromTheWire` | src/bit_stream.cpp:302-320 | the same for peeking, which leaves the position, on a failed reader too |
| `WireLaws.StringFromTheWire` | include/nalchi/bit_stream.hpp:923-943 | reading a string on any bits: position and result in every case, and each character |
| `WireLaws.FailingRead` | include/nalchi/bit_stream.hpp:864-988 | a failing integer, float, double, block or peek leaves the position; no failing read hands out a value |
| `WireLaws.SucceedingRead` | include/nalchi/bit_stream.hpp:864-988 | what each kind of read hands out and how far it moves |
| `Writer.BitStreamWriter.constructor` | src/bit_stream.cpp:25-28 | a writer without a buffer has failed from the start |
| `Writer.BitStreamWriter.Restart` | src/bit_stream.cpp:56-67 | a fresh stream over the untouched buffer, whatever state the cursors were in |
| `Writer.BitStreamWriter.Reset` | src/bit_stream.cpp:69-76 | no buffer, failed |
| `Writer.BitStreamWriter.ResetWith` | src/bit_stream.cpp:87-94 | a fresh stream over the buffer; failed if and only if it is empty or too short |
| `Writer.BitStreamWriter.ResetWithPayload` | src/bit_stream.cpp:78-85 | the same over the word-ceiled space of a payload, which is marked and keeps its size |
| `Writer.BitStreamWriter.UsedBytes` | src/bit_stream.cpp:51-54 | the fewest bytes that hold the used bits |
| `Writer.BitStreamWriter.DoFlushWordUnchecked` | src/bit_stream.cpp:166-181 | the bits held stay the same, up to zero padding of a partial word; one word is stored |
| `Writer.BitStreamWriter.FlushIfScratchOverflow` | src/bit_stream.cpp:160-164 | afterwards less than a word is in the scratch, and the bits held are the same |
| `Writer.BitStreamWriter.Append` | include/nalchi/bit_stream.hpp:460-463 | from less than 32 held bits a part of up to 32 bits is appended with one flush at most: the scratch never holds more than 63 bits |
| `Writer.BitStreamWriter.FlushFinal` | src/bit_stream.cpp:106-121 | an unfailed writer is closed, always; the words hold exactly the stream, padded with zeros to a whole word; words behind it and failed streams are untouched |
| `Writer.PaddedWord` | src/bit_stream.cpp:106-121 | a partial word flushed whole is its bits followed by zeros |
| `Writer.FlushedBits` | src/bit_stream.cpp:166-181 | one flush moves the low word of the scratch to the buffer in native order and keeps the rest |
| `Writer.SplitValue` | include/nalchi/bit_stream.hpp:510-523 | the low word of a value followed by what is above it is the whole field |
| `Writer.BitStreamWriter.Rejects` | include/nalchi/bit_stream.hpp:436-457 | a write is rejected for exactly the four reasons, and a rejection sets the fail flag only |
| `Writer.BitStreamWriter.DoWriteSmall` | include/nalchi/bit_stream.hpp:431-469 | the stream grows by the field of the value, or fails and changes nothing else |
| `Writer.BitStreamWriter.DoWriteBig` | include/nalchi/bit_stream.hpp:478-535 | the same for 64-bit types in two parts |
| `Writer.BitStreamWriter.AppendInParts` | include/nalchi/bit_stream.hpp:510-529 | low part and high part together append the whole field |
| `Writer.BitStreamWriter.WriteFloatBits` | src/bit_stream.cpp:144-150 | the 32 bits of the pattern are appended |
| `Writer.BitStreamWriter.WriteDoubleBits` | src/bit_stream.cpp:152-158 | the 64 bits of the pattern are appended |
| `Writer.BitStreamWriter.WriteRun` | include/nalchi/bit_stream.hpp:394-396 | after one check for all of them, the unchecked writes of a loop append all elements without leaving the buffer |
| `Writer.BitStreamWriter.WriteByteBlock` | src/bit_stream.cpp:123-142 | all bytes or nothing |
| `Writer.BitStreamWriter.ChooseLengthPrefix` | include/nalchi/bit_stream.hpp:363-392 | the tag and the type of the length prefix, which holds the length |
| `Writer.BitStreamWriter.WriteStringView` | include/nalchi/bit_stream.hpp:354-399 | tag, length and all characters, or nothing |
| `Writer.BitStreamWriter.Write` | include/nalchi/bit_stream.hpp:302-421 | every overload makes the step of the format; failing leaves buffer, cursors and count unchanged |
| `Writer.BitStreamWriter.WriteAll` | include/nalchi/bit_stream.hpp:302-421 | a whole program makes the run of the format; on a failed stream nothing changes |
| `Writer.BitStreamWriter.OpenInvariants` | tests/bit_stream/stress.cpp:44-71 | the sampled invariants hold in every state of an unfailed, unflushed writer, and sharper |
| `Writer.BitStreamWriter.FlushedInvariants` | src/bit_stream.cpp:106-121 | after the final flush the scratch is empty and just enough words are stored |
| `Reader.BitStreamReader.OpenInvariants` | tests/bit_stream/stress.cpp:73-96 | the sampled invariants hold in every state of an unfailed reader; no word is fetched before it is needed |
| `Reader.BitStreamReader.constructor` | src/bit_stream.cpp:188-191 | a reader without a buffer has failed from the start |
| `Reader.BitStreamReader.Restart` | src/bit_stream.cpp:215-224 | back at the first bit |
| `Reader.BitStreamReader.Reset` | src/bit_stream.cpp:226-233 | no buffer, failed |
| `Reader.BitStreamReader.ResetWith` | src/bit_stream.cpp:235-242 | the visible bits are the first `8 * length` bits of the buffer; failed if and only if it is empty or too short |
| `Reader.BitStreamReader.UsedBytes` | src/bit_stream.cpp:210-213 | the fewest bytes that hold the bits read |
| `Reader.BitStreamReader.DoFetchWordUnchecked` | src/bit_stream.cpp:368-380 | one word is fetched; the position is the same and the scratch holds the bits from there on |
| `Reader.BitStreamReader.Take` | include/nalchi/bit_stream.hpp:1032-1041 | up to 32 bits are exactly the field at the position, with one fetch at most |
| `Reader.BitStreamReader.TakeInParts` | include/nalchi/bit_stream.hpp:1101-1127 | up to 64 bits, taken in two parts, are the field at the position |
| `Reader.TakenField` | include/nalchi/bit_stream.hpp:1036-1041 | mask and shift on a scratch that holds a field split it into adjacent fields |
| `Reader.JoinedField` | include/nalchi/bit_stream.hpp:1107-1122 | or-ing the high part in above the low part gives the whole field |
| `Reader.WordField` | src/bit_stream.cpp:370-376 | a word, byte-swapped where needed, is the 32-bit field at its place |
| `Reader.BitStreamReader.Rejects` | include/nalchi/bit_stream.hpp:1011-1030 | a read is rejected for exactly three reasons before it moves |
| `Reader.BitStreamReader.DoReadSmall` | include/nalchi/bit_stream.hpp:1006-1063 | result and position are those of the format, checked or not; a failure leaves the position |
| `Reader.BitStreamReader.DoReadBig` | include/nalchi/bit_stream.hpp:1072-1149 | the same for 64-bit types |
| `Reader.BitStreamReader.Finish` | include/nalchi/bit_stream.hpp:1043-1062 | restoring the range, the check against `max`, the count |
| `Reader.BitStreamReader.ReadBits` | src/bit_stream.cpp:276-300 | a float or double is the raw field of its width |
| `Reader.BitStreamReader.ReadRunInto` | include/nalchi/bit_stream.hpp:935-940 | after one check, the unchecked reads of a loop fill the first elements with the decoded ones and leave the rest |
| `Reader.BitStreamReader.ReadByteBlock` | src/bit_stream.cpp:256-274 | all bytes, or none and the position as it was |
| `Reader.BitStreamReader.ReadStringLength` | src/bit_stream.cpp:322-366 | tag and length as the format reads them, -1 on failure |
| `Reader.BitStreamReader.PeekStringLength` | src/bit_stream.cpp:302-320 | the length that would be read; everything but the fail flag is as before |
| `Reader.BitStreamReader.AcceptLength` | include/nalchi/bit_stream.hpp:927-935 | which lengths are accepted, and that all their characters are there |
| `Reader.BitStreamReader.ReadString` | include/nalchi/bit_stream.hpp:923-943 | the string of the format or nothing |
| `Reader.BitStreamReader.ReadCString` | include/nalchi/bit_stream.hpp:957-980 | the string and a null character, the rest of the buffer and a failing read's buffer untouched |
| `Reader.BitStreamReader.Read` | include/nalchi/bit_stream.hpp:864-988 | every overload makes the step of the format; a failed stream does not change |
| `Reader.BitStreamReader.ReadAll` | include/nalchi/bit_stream.hpp:864-988 | a whole program makes the run of the format |
| `Measurer.BitStreamMeasurer.Write` | include/nalchi/bit_stream.hpp:596-639 | the count grows by exactly the bits the writer would append, modulo 2^32 |
| `Measurer.BitStreamMeasurer.WriteStringView` | include/nalchi/bit_stream.hpp:646-677 | the separate wrapping additions add up to tag, length and characters |
| `Measurer.BitStreamMeasurer.WriteAll` | include/nalchi/bit_stream.hpp:591-699 | after a program the count is the length of its encoding, modulo 2^32 |
| `Measurer.BitStreamMeasurer.UsedBytes` | src/bit_stream.cpp:183-186 | rounded up to bytes; 0 when the count is within 7 of 2^32 |
| `Measurer.MeasuresEncoding` | include/nalchi/bit_stream.hpp:596-677 | each write is measured as exactly the bits the writer appends |
| `Measurer.MeasureIsLength` | include/nalchi/bit_stream.hpp:554-700 | the count of a program is the length of its encoding modulo 2^32 |
| `Measurer.MeasurerIsExact` | include/nalchi/bit_stream.hpp:549-553 | a fresh writer of T bytes succeeds if and only if the arguments are in range and the measure, unwrapped, is at most 8 T; it then has used exactly the measured bits |
| `Measurer.MeasureWrapsAround` | include/nalchi/bit_stream.hpp:596-600 | a program that measures as 0 because of the wrap-around |
| `ReleaseProtocol.StepEffects` | src/shared_payload.cpp:164-178 | what each step does to the count, the block and the messages; an access to a freed block is noticed and never forgotten |
| `ReleaseProtocol.InitIsUntouched` | src/shared_payload.cpp:68-74 | the state of a new payload |
| `ReleaseProtocol.AnyReleaseMayGoOn` | src/shared_payload.cpp:157-178 | once sent, any message may be released next and any begun release may go on |
| `ReleaseProtocol.TakeKeeps` | src/shared_payload.cpp:164-169 | taking a reference keeps the invariant |
| `ReleaseProtocol.FetchSubKeeps` | src/shared_payload.cpp:171-176 | dropping a reference keeps the invariant: the block was not freed yet, and only the last one sees 1 |
| `ReleaseProtocol.FinishKeeps` | src/shared_payload.cpp:175-177 | what follows the `fetch_sub` keeps the invariant: the block is freed by the release that saw 1, and not twice |
| `ReleaseProtocol.RunKeeps` | src/shared_payload.cpp:142-178 | the invariant holds in every state of every interleaving |
| `ReleaseProtocol.RunCosts` | include/nalchi/socket_extensions.hpp:74-107 | each step leaves one step less to do, so every run ends |
| `ReleaseProtocol.CanContinue` | include/nalchi/socket_extensions.hpp:74-107 | no run gets stuck before everything is released |
| `ReleaseProtocol.CompleteIsFreed` | src/shared_payload.cpp:171-178 | once every message is released the block was freed once, by the one release that saw 1 |
| `ReleaseProtocol.HolderKeepsAlive` | src/shared_payload.cpp:171-178 | as long as a message holds its reference the block is not freed |
| `ReleaseProtocol.ExactlyOnce` | include/nalchi/socket_extensions.hpp:74-107 | exactly-once release for every number of connections and every interleaving, including none |
| `ReleaseProtocol.MulticastIsRun` | include/nalchi/socket_extensions.hpp:74-107 | what `multicast` does to the count is a run of the protocol |
| `ReleaseProtocol.FreerFindsItAlive` | src/shared_payload.cpp:175-177 | between its `fetch_sub` and the deallocation, the release that saw 1 finds the block not freed |
| `ReleaseProtocol.SendingComesFirst` | include/nalchi/socket_extensions.hpp:86-107 | in every schedule all references are taken before the first release, so what follows starts where `multicast` ends |
| `ReleaseProtocol.ReleasesComplete` | src/shared_payload.cpp:157-178 | after a multicast to n connections a schedule has released everything if and only if it has 2 n steps |
| `Payload.FieldsAreSeparate` | src/shared_payload.cpp:102-140 | size and flag share a field without disturbing each other |
| `Payload.Allocate` | src/shared_payload.cpp:32-88 | when there is a payload; it has room for the size in whole words, no references and no flag |
| `Payload.Block.constructor` | src/shared_payload.cpp:54-83 | count 0, the plain size, the word-ceiled space |
| `Payload.Block.WordCeiledSize` | src/shared_payload.cpp:111-114 | the bytes of the space behind the pointer, fewer than 4 above the size |
| `Payload.Block.SetUsedBitStream` | src/shared_payload.cpp:130-140 | sets or clears the flag and keeps the size |
| `Payload.Block.ForceDeallocate` | src/shared_payload.cpp:90-100 | frees a block that is still allocated |
| `Payload.Block.IncreaseRefCount` | src/shared_payload.cpp:164-169 | one reference more, as the protocol counts |
| `Payload.Block.FetchSub` | src/shared_payload.cpp:173-176 | one reference less, and the count before |
| `Payload.Block.FinishRelease` | src/shared_payload.cpp:176-177 | frees the block if and only if the count seen was 1 |
| `Payload.Block.DecreaseRefCountAndDeallocateIfZero` | src/shared_payload.cpp:171-178 | one reference less; freed if and only if it was the last |
| `Payload.SentSizeFits` | src/shared_payload.cpp:144-147 | a message carries at least the logical length and at most the space; with the flag, the fewest whole words |
| `Payload.SentSizeIs` | src/shared_payload.cpp:144-147 | the size sent of any logical length, negative ones included |
| `Payload.AddToMessage` | src/shared_payload.cpp:142-155 | one reference more, owned by the message, which carries the payload |
| `Payload.Multicast` | include/nalchi/socket_extensions.hpp:69-108 | one own message per connection in order, with the count of the protocol; freed right away without connections |
| `Payload.ReleaseMessage` | src/shared_payload.cpp:157-178 | the callback makes the protocol's two steps, and the block is still there when it does |
| `Payload.ReleaseStep` | src/shared_payload.cpp:157-178 | one step of one releasing thread on the block is the step of the protocol, and the block is there when the step touches it |
| `Payload.ReleaseAll` | src/shared_payload.cpp:157-178 | under every feasible schedule, overlapping releases included, the block follows the protocol and is freed when all steps are made |
| `EndToEnd.SameBytesSameBits` | src/bit_stream.cpp:368-380 | buffers show the same bits if and only if they agree on the visible bytes |
| `EndToEnd.ReadSameBytes` | src/bit_stream.cpp:368-380 | readers over buffers that agree on the visible bytes give the same results for every program, in any byte orders |
| `EndToEnd.BufferStartsWithStream` | src/bit_stream.cpp:106-121 | the buffer of a flushed writer starts with its stream |
| `EndToEnd.FlushedImageIsDetermined` | src/bit_stream.cpp:166-181 | the bytes written depend on the stream only, not on the byte order |
| `EndToEnd.RestartIsFresh` | src/bit_stream.cpp:56-67 | after `restart` a program leaves the same words as on a fresh writer over any other buffer |
| `EndToEnd.MeasuredBytes` | src/bit_stream.cpp:183-186 | the measured bytes are the fewest that hold the program |
| `EndToEnd.Fill` | src/bit_stream.cpp:78-85 | writing a program to a payload of the measured size fails only for an argument out of range |
| `EndToEnd.WireStartsWith` | src/shared_payload.cpp:151-153 | a message that is long enough starts with the stream in its payload |
| `EndToEnd.Receive` | src/bit_stream.cpp:235-242 | a message that starts with an encoding gives back every value on a machine of any byte order |
| `EndToEnd.Prepare` | src/shared_payload.cpp:32-88 | when measuring, allocating, writing and flushing succeed, and what the payload then holds |
| `EndToEnd.Publish` | include/nalchi/socket_extensions.hpp:69-108 | what every message of a multicast carries |
| `EndToEnd.Exchange` | include/nalchi/socket_extensions.hpp:69-108 | the end-to-end theorem: every receiver reads every value from its message, and the payload is freed after the releases under every schedule |

## Left out

- WriteByteBlock: requires that the 32-bit overflow check sees an overflow if there is one; what a block does that slips through the check is not modelled.
- ReadByteBlock: requires the same.
- Write: requires the same of a byte block.
- WriteAll: requires the same of each byte block where it is written.
- Read: requires the same of a byte block.
- ReadAll: requires the same of each byte block where it is read.
- ResetWith: an accepted length whose 32-bit product `8 * length` is one of the 8 multiples of 8 above 2^32 - 65 is excluded, because the sum with the bits of one integer can wrap around.
- WriteStringView: the 64-bit length prefix is chosen and checked as in the source, but its store is not spelled out, because the check is proved to have failed before.
- Multicast: connections are plain numbers; send flags, lanes, user data and message numbers are not modelled, and neither is running out of memory for a message.
- Constructors and `reset_with` overloads over pointers and iterators, which only build the span.
- `total_bytes`, `total_bits`, `unused_bytes`, `unused_bits` and `internal_alloc_size`: read-only getters, each a sum, difference or quotient of modelled fields; nothing but the getters themselves calls them.
- `unicast`, the multicast of one connection.
- Writing `basic_string` and null-terminated strings, which only build a string view.
- The value of a float: floats and doubles are their bit patterns.
- Characters are integers of one of the character widths, signed or not; text encodings play no role.
- The flat C interface, which forwards to the classes.
- Weak memory ordering of the relaxed atomics: they are steps in one total order.
- Sockets, message queues and the sending itself; the environment only releases messages.
- Destroying the atomic count and alignment of the allocation.
