/** `bit_stream_writer`: the scratch register, the word buffer and the two cursors, proved to
    hold exactly the bits of the accepted writes. */
module Writer {
  import opened Arithmetic
  import opened Bits
  import opened IntTypes
  import opened Memory
  import opened Lists
  import opened Format
  import opened Payload

  class BitStreamWriter {
    const endian: Endian
    var scratch: Scratch
    var words: array<Word>
    var scratchIndex: int
    var wordsIndex: int
    var logicalTotalBits: Word
    var logicalUsedBits: Word
    var initFail: bool
    var fail: bool
    var finalFlushed: bool

    // ---- Abstraction ----

    /** The cursors and the scratch fit together, with room for a field still to be flushed. */
    ghost predicate InShape()
      reads `words, `wordsIndex, `scratch, `scratchIndex
    {
      && 0 <= wordsIndex <= words.Length
      && 0 <= scratchIndex < 64
      && scratch < Pow2(scratchIndex)
    }

    /** The flushed words followed by the bits still in the scratch. */
    ghost function Pending(): (bs: seq<Bit>)
      requires InShape()
      reads `words, `wordsIndex, `scratch, `scratchIndex, words
      ensures |bs| == 32 * wordsIndex + scratchIndex
    {
      WordsBits(endian, words[..wordsIndex]) + ToBits(scratch, scratchIndex)
    }

    /** What holds between any two calls. */
    ghost predicate Valid()
      reads this, words
    {
      && InShape()
      && scratchIndex < 32
      && logicalUsedBits <= 32 * wordsIndex + scratchIndex
      && (initFail ==> fail && logicalUsedBits == 0 && !finalFlushed)
      && (!initFail ==> logicalUsedBits <= logicalTotalBits <= MAX_BITS && logicalTotalBits <= 32 * words.Length)
      && (!finalFlushed ==> logicalUsedBits == 32 * wordsIndex + scratchIndex)
      && (finalFlushed ==>
            && scratchIndex == 0
            && 32 * wordsIndex < logicalUsedBits + 32
            && Pending()[logicalUsedBits..] == Zeros(32 * wordsIndex - logicalUsedBits))
    }

    /** Everything accepted so far. */
    ghost function Stream(): (bs: seq<Bit>)
      requires Valid()
      reads this, words
      ensures |bs| == logicalUsedBits
    {
      Pending()[..logicalUsedBits]
    }

    ghost function State(): WriterState
      requires Valid()
      reads this, words
    {
      WriterState(logicalTotalBits, Stream(), initFail, fail, finalFlushed)
    }

    /** The words not yet flushed to are those of `before`. */
    ghost predicate TailKept(before: seq<Word>)
      reads this, words
    {
      |before| == words.Length && forall j | Max(0, wordsIndex) <= j < words.Length :: words[j] == before[j]
    }

    // ---- Set-up ----

    constructor (e: Endian)
      ensures Valid() && endian == e
      ensures State() == FreshWriter(0, true)
    {
      endian := e;
      words := new Word[0];
      logicalTotalBits := 0;
      initFail := true;
      scratch := 0;
      scratchIndex := 0;
      wordsIndex := 0;
      logicalUsedBits := 0;
      fail := true;
      finalFlushed := false;
    }

    /** `restart()`: whatever happened before, the stream is fresh again and the buffer is not
        touched. */
    method Restart()
      requires !initFail ==> logicalTotalBits <= MAX_BITS && logicalTotalBits <= 32 * words.Length
      modifies `scratch, `scratchIndex, `wordsIndex, `logicalUsedBits, `fail, `finalFlushed
      ensures Valid() && State() == FreshWriter(logicalTotalBits, initFail)
      ensures wordsIndex == 0
    {
      scratch := 0;
      scratchIndex := 0;
      wordsIndex := 0;
      logicalUsedBits := 0;
      fail := initFail;
      finalFlushed := false;
    }

    /** `reset()`: no buffer. */
    method Reset()
      modifies this
      ensures Valid() && fresh(words) && State() == FreshWriter(0, true)
    {
      words := new Word[0];
      logicalTotalBits := 0;
      initFail := true;
      Restart();
    }

    /** `reset_with(buffer, logical_bytes_length)`. The number of bits is a 32-bit product. */
    method ResetWith(buffer: array<Word>, logicalBytesLength: Word)
      requires 0 < buffer.Length && logicalBytesLength <= 4 * buffer.Length ==> U32(8 * logicalBytesLength) <= MAX_BITS
      modifies this
      ensures Valid() && words == buffer && wordsIndex == 0
      ensures State() == FreshWriter(U32(8 * logicalBytesLength),
                                     buffer.Length == 0 || logicalBytesLength > 4 * buffer.Length)
    {
      words := buffer;
      logicalTotalBits := U32(8 * logicalBytesLength);
      initFail := buffer.Length == 0 || logicalBytesLength > 4 * buffer.Length;
      Restart();
    }

    /** `reset_with(payload, logical_bytes_length)`: marks the payload as filled by a bit stream
        and writes to its word-ceiled space. */
    method ResetWithPayload(buffer: Block, logicalBytesLength: Word)
      requires buffer.Valid()
      modifies this, buffer`sizeField
      ensures buffer.Valid() && buffer.UsedBitStream() && buffer.Size() == old(buffer.Size())
      ensures Valid() && words == buffer.words && wordsIndex == 0
      ensures State() == FreshWriter(U32(8 * logicalBytesLength), logicalBytesLength > buffer.WordCeiledSize())
    {
      hide InShape, Pending, Stream, U32, SizeOfField, CeilToMultipleOf4;
      buffer.SetUsedBitStream(true);
      if logicalBytesLength <= buffer.WordCeiledSize() {
        WrapSmall(8 * logicalBytesLength);
      }
      ResetWith(buffer.words, logicalBytesLength);
    }

    method SetFail()
      requires Valid()
      modifies `fail
      ensures Valid() && State() == old(State()).(fail := true)
    {
      fail := true;
    }

    method UsedBytes() returns (bytes: Word)
      requires Valid()
      ensures 8 * bytes < logicalUsedBits + 8 && logicalUsedBits <= 8 * bytes
    {
      bytes := CeilToMultipleOf8(logicalUsedBits) / 8;
    }

    // ---- Flushing ----

    /** `do_flush_word_unchecked()`: moves the low word of the scratch to the buffer. The bits
        held stay the same, up to zeros when less than a word was left. */
    method DoFlushWordUnchecked()
      requires InShape() && wordsIndex < words.Length
      modifies `scratch, `scratchIndex, `wordsIndex, words
      ensures InShape() && wordsIndex == old(wordsIndex) + 1
      ensures scratchIndex == Max(0, old(scratchIndex) - 32)
      ensures Pending() == old(Pending()) + Zeros(Max(0, 32 - old(scratchIndex)))
      ensures TailKept(old(words[..]))
    {
      ghost var front := words[..wordsIndex];
      FlushedBits(endian, front, scratch, scratchIndex);
      var word := LowWord(scratch);
      if endian.Big? {
        word := ByteSwap(word);
      }
      words[wordsIndex] := word;
      wordsIndex := wordsIndex + 1;
      scratch := Shr(scratch, 32);
      scratchIndex := Max(0, scratchIndex - 32);
      assert words[..wordsIndex] == front + [word];
    }

    method FlushIfScratchOverflow()
      requires InShape() && (scratchIndex >= 32 ==> wordsIndex < words.Length)
      modifies `scratch, `scratchIndex, `wordsIndex, words
      ensures InShape() && scratchIndex < 32
      ensures Pending() == old(Pending())
      ensures old(wordsIndex) <= wordsIndex && TailKept(old(words[..]))
    {
      if scratchIndex >= 32 {
        DoFlushWordUnchecked();
        assert Pending() == old(Pending());
      }
    }

    /** The three statements each part of a field goes through: or it into the scratch, advance
        the index, flush on overflow. One flush is enough, because at most 63 bits are held. */
    method Append(value: Scratch, bits: nat)
      requires InShape() && scratchIndex < 32 && bits <= 32 && value < Pow2(bits)
      requires 32 * wordsIndex + scratchIndex + bits <= 32 * words.Length
      modifies `scratch, `scratchIndex, `wordsIndex, words
      ensures InShape() && scratchIndex < 32
      ensures Pending() == old(Pending()) + ToBits(value, bits)
      ensures old(wordsIndex) <= wordsIndex && TailKept(old(words[..]))
    {
      OrAppends(scratch, scratchIndex, value, bits);
      Assoc(WordsBits(endian, words[..wordsIndex]), ToBits(scratch, scratchIndex), ToBits(value, bits));
      scratch := BitOr(scratch, Shl64(value, scratchIndex));
      scratchIndex := scratchIndex + bits;
      FlushIfScratchOverflow();
    }

    /** `flush_final()`. */
    method FlushFinal()
      requires Valid()
      modifies `scratch, `scratchIndex, `wordsIndex, `finalFlushed, words
      ensures Valid() && State() == FlushStep(old(State()))
      ensures !fail ==> finalFlushed && 32 * wordsIndex < logicalUsedBits + 32
      ensures fail == old(fail) && logicalUsedBits == old(logicalUsedBits)
      ensures !fail ==> WordsBits(endian, words[..wordsIndex])
                        == Stream() + Zeros(32 * wordsIndex - logicalUsedBits)
      ensures old(wordsIndex) <= wordsIndex && TailKept(old(words[..]))
      ensures fail ==> unchanged(`scratch, `scratchIndex, `wordsIndex, `finalFlushed, words)
    {
      if fail {
        return;
      }
      if finalFlushed {
        PaddedStream();
        return;
      }
      if scratchIndex > 0 {
        DoFlushWordUnchecked();
      }
      finalFlushed := true;
      assert Pending()[..logicalUsedBits] == old(Pending());
      PaddedStream();
    }

    /** After the final flush the words hold the stream, padded with zeros. */
    lemma {:induction false} PaddedStream()
      requires Valid() && finalFlushed
      ensures WordsBits(endian, words[..wordsIndex])
              == Stream() + Zeros(32 * wordsIndex - logicalUsedBits)
    {
      assert WordsBits(endian, words[..wordsIndex]) == Pending();
      assert Pending() == Pending()[..logicalUsedBits] + Pending()[logicalUsedBits..];
    }

    // ---- Integers ----

    /** The checks at the head of a checked write: sticky failure, final flush, range, value,
        room. A rejected write sets the fail flag and changes nothing else. */
    method Rejects(t: IntType, data: int, min: int, max: int) returns (rejected: bool)
      requires Valid() && t.Has(data) && t.Has(min) && t.Has(max)
      modifies `fail
      ensures Valid() && rejected == !old(Fits(t, data, min, max)) == fail
      ensures rejected ==> State() == WriteStep(old(State()), WriteInt(t, data, min, max))
    {
      hide InShape, Pending, IntType.FieldBits;
      if fail {
        return true;
      }
      if finalFlushed || min >= max || data < min || data > max {
        fail := true;
        return true;
      }
      if U32(logicalUsedBits + t.FieldBits(min, max)) > logicalTotalBits {
        fail := true;
        return true;
      }
      return false;
    }

    /** `do_write<Checked>` for types no wider than a word. */
    method DoWriteSmall(checked: bool, t: IntType, data: int, min: int, max: int)
      requires Valid() && t.UWidth() <= 32 && t.Has(data) && t.Has(min) && t.Has(max)
      requires !checked ==> Fits(t, data, min, max)
      modifies `scratch, `scratchIndex, `wordsIndex, `logicalUsedBits, `fail, words
      ensures Valid() && State() == WriteStep(old(State()), WriteInt(t, data, min, max))
      ensures !checked ==> !fail
      ensures fail ==> unchanged(`scratch, `scratchIndex, `wordsIndex, `logicalUsedBits, words)
      ensures old(wordsIndex) <= wordsIndex && TailKept(old(words[..]))
    {
      hide InShape, Pending, Stream, IntType.FieldBits, IntType.Offset;
      if checked {
        var rejected := Rejects(t, data, min, max);
        if rejected {
          return;
        }
      }
      t.OffsetRoundTrip(data, min, max);
      StoreSmall(t.Offset(data, min), t.FieldBits(min, max));
    }

    /** `do_write<Checked>` for 64-bit types: the low word first, then what is left above it. */
    method DoWriteBig(checked: bool, t: IntType, data: int, min: int, max: int)
      requires Valid() && t.UWidth() == 64 && t.Has(data) && t.Has(min) && t.Has(max)
      requires !checked ==> Fits(t, data, min, max)
      modifies `scratch, `scratchIndex, `wordsIndex, `logicalUsedBits, `fail, words
      ensures Valid() && State() == WriteStep(old(State()), WriteInt(t, data, min, max))
      ensures !checked ==> !fail
      ensures fail ==> unchanged(`scratch, `scratchIndex, `wordsIndex, `logicalUsedBits, words)
      ensures old(wordsIndex) <= wordsIndex && TailKept(old(words[..]))
    {
      hide InShape, Pending, Stream, IntType.FieldBits, IntType.Offset;
      if checked {
        var rejected := Rejects(t, data, min, max);
        if rejected {
          return;
        }
      }
      t.OffsetRoundTrip(data, min, max);
      StoreBig(t.Offset(data, min), t.FieldBits(min, max));
    }

    /** The body of `do_write` behind the checks, for a field of at most one word. */
    method StoreSmall(value: Scratch, bits: nat)
      requires Valid() && !fail && !finalFlushed && value < Pow2(bits) && bits <= 32
      requires logicalUsedBits + bits <= logicalTotalBits
      modifies `scratch, `scratchIndex, `wordsIndex, `logicalUsedBits, words
      ensures Valid() && State() == old(State()).(stream := old(Stream()) + ToBits(value, bits))
      ensures old(wordsIndex) <= wordsIndex && TailKept(old(words[..]))
    {
      hide InShape, Pending, Zeros, ToBits, U32;
      OpenStream();
      Append(value, bits);
      WrapSmall(logicalUsedBits + bits);
      logicalUsedBits := U32(logicalUsedBits + bits);
      OpenStream();
    }

    /** The same for up to 64 bits. */
    method StoreBig(value: Scratch, bits: nat)
      requires Valid() && !fail && !finalFlushed && value < Pow2(bits) && bits <= 64
      requires logicalUsedBits + bits <= logicalTotalBits
      modifies `scratch, `scratchIndex, `wordsIndex, `logicalUsedBits, words
      ensures Valid() && State() == old(State()).(stream := old(Stream()) + ToBits(value, bits))
      ensures old(wordsIndex) <= wordsIndex && TailKept(old(words[..]))
    {
      hide InShape, Pending, Zeros, ToBits, U32;
      OpenStream();
      AppendInParts(value, bits);
      WrapSmall(logicalUsedBits + bits);
      logicalUsedBits := U32(logicalUsedBits + bits);
      OpenStream();
    }

    /** The low word first, then the bits above it: together the whole field. */
    method AppendInParts(value: Scratch, bits: nat)
      requires InShape() && scratchIndex < 32 && bits <= 64 && value < Pow2(bits)
      requires 32 * wordsIndex + scratchIndex + bits <= 32 * words.Length
      modifies `scratch, `scratchIndex, `wordsIndex, words
      ensures InShape() && scratchIndex < 32
      ensures Pending() == old(Pending()) + ToBits(value, bits)
      ensures old(wordsIndex) <= wordsIndex && TailKept(old(words[..]))
    {
      var low := LowWord(value);
      var lowBits := Min(bits, 32);
      SplitValue(value, bits);
      Append(low, lowBits);
      var highBits := bits - lowBits;
      if highBits > 0 {
        var high := Shr(value, 32);
        Append(high, highBits);
      }
      Assoc(old(Pending()), ToBits(low, lowBits), ToBits(Shr(value, 32), highBits));
    }

    /** The invariants the stress test samples, in every state of an unfailed, unflushed writer. */
    lemma {:induction false} OpenInvariants()
      requires Valid() && !fail && !finalFlushed
      ensures scratch < Pow2(scratchIndex) <= TWO_32 / 2 && 0 <= scratchIndex < 32
      ensures logicalUsedBits == 32 * wordsIndex + scratchIndex <= logicalTotalBits
      ensures 0 <= 32 * wordsIndex <= logicalTotalBits <= 32 * words.Length
    {
      Pow2Values();
      Pow2Monotone(scratchIndex, 31);
    }

    /** After the final flush the scratch is empty and just enough words are stored. */
    lemma {:induction false} FlushedInvariants()
      requires Valid() && !fail && finalFlushed
      ensures scratch == 0 && scratchIndex == 0
      ensures 32 * (wordsIndex - 1) < logicalUsedBits <= 32 * wordsIndex
      ensures logicalUsedBits <= logicalTotalBits <= 32 * words.Length
    {
      assert Pow2(0) == 1;
    }

    /** Until the final flush, what is held is exactly the stream. */
    lemma {:induction false} OpenStream()
      requires Valid() && !finalFlushed
      ensures Stream() == Pending()
    {
    }

    /** What the callers of an unchecked write have made sure of. */
    ghost predicate Fits(t: IntType, data: int, min: int, max: int)
      requires t.Has(min) && t.Has(max)
      reads this
    {
      !fail && !finalFlushed && min < max && min <= data <= max
      && logicalUsedBits + t.FieldBits(min, max) <= logicalTotalBits
    }

    /** `write(data, min, max)`. */
    method WriteInteger(t: IntType, data: int, min: int, max: int)
      requires Valid() && t.Has(data) && t.Has(min) && t.Has(max)
      modifies `scratch, `scratchIndex, `wordsIndex, `logicalUsedBits, `fail, words
      ensures Valid() && State() == WriteStep(old(State()), WriteInt(t, data, min, max))
      ensures fail ==> unchanged(`scratch, `scratchIndex, `wordsIndex, `logicalUsedBits, words)
      ensures old(wordsIndex) <= wordsIndex && TailKept(old(words[..]))
    {
      if t.UWidth() <= 32 {
        DoWriteSmall(true, t, data, min, max);
      } else {
        DoWriteBig(true, t, data, min, max);
      }
    }

    /** `write(float)`: the bit pattern as a 32-bit integer. */
    method WriteFloatBits(raw: Word)
      requires Valid()
      modifies `scratch, `scratchIndex, `wordsIndex, `logicalUsedBits, `fail, words
      ensures Valid() && State() == WriteStep(old(State()), WriteFloat(raw))
      ensures fail ==> unchanged(`scratch, `scratchIndex, `wordsIndex, `logicalUsedBits, words)
      ensures old(wordsIndex) <= wordsIndex && TailKept(old(words[..]))
    {
      EncodeIntFull(UINT32, raw);
      WriteInteger(UINT32, raw, UINT32.Lo(), UINT32.Hi());
    }

    /** `write(double)`: the bit pattern as a 64-bit integer. */
    method WriteDoubleBits(raw: Scratch)
      requires Valid()
      modifies `scratch, `scratchIndex, `wordsIndex, `logicalUsedBits, `fail, words
      ensures Valid() && State() == WriteStep(old(State()), WriteDouble(raw))
      ensures fail ==> unchanged(`scratch, `scratchIndex, `wordsIndex, `logicalUsedBits, words)
      ensures old(wordsIndex) <= wordsIndex && TailKept(old(words[..]))
    {
      EncodeIntFull(UINT64, raw);
      WriteInteger(UINT64, raw, UINT64.Lo(), UINT64.Hi());
    }

    // ---- Bytes and strings ----

    /** The loop of unchecked full-range writes behind the single check of a byte block or a
        string: no store leaves the buffer. */
    method WriteRun(t: IntType, vs: seq<int>)
      requires Valid() && !fail && !finalFlushed && t.Int? && t.width <= 32 && AllOf(t, vs)
      requires logicalUsedBits + RunBits(t, |vs|) <= logicalTotalBits
      modifies `scratch, `scratchIndex, `wordsIndex, `logicalUsedBits, `fail, words
      ensures Valid() && State() == old(State()).(stream := old(Stream()) + EncodeRun(t, vs))
      ensures old(wordsIndex) <= wordsIndex && TailKept(old(words[..]))
    {
      hide InShape, Pending, Stream, EncodeRun;
      assert vs[0..] == vs;
      for i := 0 to |vs|
        invariant Valid() && !fail
        invariant logicalUsedBits + RunBits(t, |vs| - i) <= logicalTotalBits
        invariant Stream() + EncodeRun(t, vs[i..]) == old(Stream()) + EncodeRun(t, vs)
        invariant old(wordsIndex) <= wordsIndex && TailKept(old(words[..]))
      {
        EncodeRunStep(t, vs, i, Stream());
        WriteUnchecked(t, vs[i]);
      }
    }

    /** `do_write<false>(value)`: unchecked, over the full range of the type. */
    method WriteUnchecked(t: IntType, v: int)
      requires Valid() && !fail && !finalFlushed && t.Int? && t.width <= 32 && t.Has(v)
      requires logicalUsedBits + t.width <= logicalTotalBits
      modifies `scratch, `scratchIndex, `wordsIndex, `logicalUsedBits, `fail, words
      ensures Valid() && !fail && Stream() == old(Stream()) + EncodeFull(t, v)
      ensures old(wordsIndex) <= wordsIndex && TailKept(old(words[..]))
    {
      hide InShape, Pending, Stream, IntType.FieldBits, IntType.Offset;
      FullField(t);
      EncodeIntFull(t, v);
      DoWriteSmall(false, t, v, t.Lo(), t.Hi());
    }

    /** `write(const void*, size)`. */
    method WriteByteBlock(bytes: seq<int>)
      requires Valid() && WriteBytes(bytes).WellTyped() && Countable(State(), WriteBytes(bytes))
      modifies `scratch, `scratchIndex, `wordsIndex, `logicalUsedBits, `fail, words
      ensures Valid() && State() == WriteStep(old(State()), WriteBytes(bytes))
      ensures fail ==> unchanged(`scratch, `scratchIndex, `wordsIndex, `logicalUsedBits, words)
      ensures old(wordsIndex) <= wordsIndex && TailKept(old(words[..]))
    {
      hide InShape, Pending, EncodeRun;
      if fail {
        return;
      }
      assert Encode(WriteBytes(bytes)) == EncodeRun(UINT8, bytes);
      BlockCheckIsExactIff(logicalUsedBits, |bytes|, logicalTotalBits);
      if finalFlushed || U32(logicalUsedBits + U32(8 * |bytes|)) > logicalTotalBits {
        fail := true;
        return;
      }
      WriteRun(UINT8, bytes);
    }

    /** `write(string_view)`: one check for the whole string, then the tag of the narrowest
        length prefix, the length, and the characters. */
    method WriteStringView(c: CharType, chars: seq<int>)
      requires Valid() && WriteString(c, chars).WellTyped()
      modifies `scratch, `scratchIndex, `wordsIndex, `logicalUsedBits, `fail, words
      ensures Valid() && State() == WriteStep(old(State()), WriteString(c, chars))
      ensures fail ==> unchanged(`scratch, `scratchIndex, `wordsIndex, `logicalUsedBits, words)
      ensures old(wordsIndex) <= wordsIndex && TailKept(old(words[..]))
    {
      hide InShape, Pending, EncodeRun, SizeOf, RunBits, LengthBits, LengthTag;
      if fail {
        return;
      }
      if finalFlushed {
        fail := true;
        return;
      }
      var len := |chars|;
      var tag, prefixType := ChooseLengthPrefix(len);
      RunBitsIsSize(c, len);
      PrefixIsSize(tag);
      if logicalUsedBits + 2 + 8 * SizeOf(prefixType) + 8 * (len * SizeOf(c)) > logicalTotalBits {
        fail := true;
        return;
      }
      WriteStringUnchecked(c, chars, tag, prefixType);
    }

    /** The narrowest length prefix: its tag and its type. */
    static method ChooseLengthPrefix(len: nat) returns (tag: nat, prefixType: IntType)
      ensures tag == LengthTag(len) && prefixType == Int(LengthBits(tag), false)
      ensures len < TWO_64 ==> prefixType.Has(len)
    {
      if len <= 0xFF {
        return 0, UINT8;
      } else if len <= 0xFFFF {
        return 1, UINT16;
      } else if len <= 0xFFFF_FFFF {
        return 2, UINT32;
      } else {
        return 3, UINT64;
      }
    }

    /** Prefix and characters behind the overflow check, which has already ruled out the 64-bit
        length prefix: a string that long does not fit any stream. */
    method WriteStringUnchecked(c: CharType, chars: seq<int>, tag: nat, prefixType: IntType)
      requires Valid() && !fail && !finalFlushed && AllOf(c, chars)
      requires tag == LengthTag(|chars|) && prefixType == Int(LengthBits(tag), false)
      requires logicalUsedBits + |EncodeLength(|chars|)| + RunBits(c, |chars|) <= logicalTotalBits
      modifies `scratch, `scratchIndex, `wordsIndex, `logicalUsedBits, `fail, words
      ensures Valid()
      ensures State() == old(State()).(stream := old(Stream()) + (EncodeLength(|chars|) + EncodeRun(c, chars)))
      ensures old(wordsIndex) <= wordsIndex && TailKept(old(words[..]))
    {
      hide InShape, Pending, Stream, EncodeRun;
      AcceptedStringIsShort(c, |chars|);
      WriteLengthPrefix(tag, prefixType, |chars|);
      WriteRun(c, chars);
      Assoc(old(Stream()), EncodeLength(|chars|), EncodeRun(c, chars));
    }

    /** The tag and the length, unchecked. */
    method WriteLengthPrefix(tag: nat, prefixType: IntType, len: nat)
      requires Valid() && !fail && !finalFlushed
      requires len < TWO_32 && tag == LengthTag(len) && prefixType == Int(LengthBits(tag), false)
      requires logicalUsedBits + |EncodeLength(len)| <= logicalTotalBits
      modifies `scratch, `scratchIndex, `wordsIndex, `logicalUsedBits, `fail, words
      ensures Valid() && State() == old(State()).(stream := old(Stream()) + EncodeLength(len))
      ensures old(wordsIndex) <= wordsIndex && TailKept(old(words[..]))
    {
      hide InShape, Pending, Stream;
      TagField();
      EncodeIntFull(prefixType, len);
      DoWriteSmall(false, UINT32, tag, 0, 3);
      WriteUnchecked(prefixType, len);
      Assoc(old(Stream()), ToBits(tag, 2), ToBits(len, LengthBits(tag)));
    }

    /** Any write of a program. */
    method Write(op: Op)
      requires Valid() && op.WellTyped() && Countable(State(), op)
      modifies `scratch, `scratchIndex, `wordsIndex, `logicalUsedBits, `fail, words
      ensures Valid() && State() == WriteStep(old(State()), op)
      ensures fail ==> unchanged(`scratch, `scratchIndex, `wordsIndex, `logicalUsedBits, words)
      ensures old(wordsIndex) <= wordsIndex && TailKept(old(words[..]))
    {
      hide InShape, Pending, Stream;
      match op
      case WriteInt(t, data, min, max) => WriteInteger(t, data, min, max);
      case WriteBytes(bytes) => WriteByteBlock(bytes);
      case WriteFloat(raw) => WriteFloatBits(raw);
      case WriteDouble(raw) => WriteDoubleBits(raw);
      case WriteString(c, chars) => WriteStringView(c, chars);
    }

    /** A whole program of writes. */
    method WriteAll(ops: List<Op>)
      requires Valid() && AllWellTyped(ops) && AllCountable(State(), ops)
      modifies `scratch, `scratchIndex, `wordsIndex, `logicalUsedBits, `fail, words
      ensures Valid() && State() == RunWrites(old(State()), ops)
      ensures old(wordsIndex) <= wordsIndex && TailKept(old(words[..]))
      ensures old(fail) ==> unchanged(this, words)
    {
      hide InShape, Pending, Stream, Op.WellTyped, Countable;
      var rest := ops;
      while rest.Cons?
        invariant Valid() && AllWellTyped(rest) && AllCountable(State(), rest)
        invariant RunWrites(State(), rest) == RunWrites(old(State()), ops)
        invariant old(wordsIndex) <= wordsIndex && TailKept(old(words[..]))
        invariant old(fail) ==> fail && unchanged(this, words)
        decreases rest
      {
        Write(rest.head);
        rest := rest.tail;
      }
    }

    /** A whole program and the final flush. */
    method WriteAllAndFlush(ops: List<Op>)
      requires Valid() && AllWellTyped(ops) && AllCountable(State(), ops)
      modifies `scratch, `scratchIndex, `wordsIndex, `logicalUsedBits, `fail, `finalFlushed, words
      ensures Valid() && State() == FlushStep(RunWrites(old(State()), ops))
      ensures TailKept(old(words[..]))
    {
      hide InShape, Pending, Stream, RunWrites;
      WriteAll(ops);
      FlushFinal();
    }
  }

  lemma {:induction false} EncodeRunStep(t: IntType, vs: seq<int>, i: nat, before: seq<Bit>)
    requires t.Int? && AllOf(t, vs) && i < |vs|
    ensures before + EncodeRun(t, vs[i..]) == before + EncodeFull(t, vs[i]) + EncodeRun(t, vs[i + 1..])
  {
    assert vs[i..][1..] == vs[i + 1..];
    Assoc(before, EncodeFull(t, vs[i]), EncodeRun(t, vs[i + 1..]));
  }

  /** What one flush does to the bits: the low word moves over, the rest stays. */
  lemma {:induction false} FlushedBits(e: Endian, front: seq<Word>, scratch: Scratch, index: nat)
    requires index < 64 && scratch < Pow2(index)
    ensures Shr(scratch, 32) < Pow2(Max(0, index - 32))
    ensures WordsBits(e, front + [Native(e, LowWord(scratch))]) + ToBits(Shr(scratch, 32), Max(0, index - 32))
            == WordsBits(e, front) + ToBits(scratch, index) + Zeros(Max(0, 32 - index))
  {
    var low := LowWord(scratch);
    LowWordIsLow(scratch);
    NativeInvolutive(e, low);
    WordsBitsSnoc(e, front, Native(e, low));
    if index >= 32 {
      ToBitsSplit(scratch, 32, index - 32);
      ShrBound(scratch, index - 32, 32);
      Assoc(WordsBits(e, front), ToBits(low, 32), ToBits(Shr(scratch, 32), index - 32));
      assert Zeros(0) == [];
    } else {
      PaddedWord(scratch, index);
      Assoc(WordsBits(e, front), ToBits(scratch, index), Zeros(32 - index));
      assert ToBits(Shr(scratch, 32), 0) == [];
    }
  }

  lemma {:induction false} PaddedWord(scratch: Scratch, index: nat)
    requires index < 32 && scratch < Pow2(index)
    ensures Low(scratch, 32) == scratch && Shr(scratch, 32) == 0
    ensures ToBits(scratch, 32) == ToBits(scratch, index) + Zeros(32 - index)
  {
    Pow2Monotone(index, 32);
    LowOfSmall(scratch, 32);
    LowOfSmall(scratch, index);
    ShrBound(scratch, 0, 32);
    ShrBound(scratch, 0, index);
    ToBitsSplit(scratch, index, 32 - index);
    ToBitsOfZero(32 - index);
  }

  /** The two parts of a value of up to 64 bits. */
  lemma {:induction false} SplitValue(value: Scratch, bits: nat)
    requires value < Pow2(bits) && bits <= 64
    ensures LowWord(value) < Pow2(Min(bits, 32))
    ensures bits > 32 ==> Shr(value, 32) < Pow2(bits - 32)
    ensures ToBits(value, bits)
            == ToBits(LowWord(value), Min(bits, 32)) + ToBits(Shr(value, 32), bits - Min(bits, 32))
  {
    LowWordIsLow(value);
    if bits > 32 {
      Pow2Values();
      ShrBound(value, bits - 32, 32);
      ToBitsSplit(value, 32, bits - 32);
    } else {
      Pow2Monotone(bits, 32);
      LowOfSmall(value, 32);
      assert ToBits(Shr(value, 32), 0) == [];
    }
  }
}
