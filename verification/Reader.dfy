/** `bit_stream_reader`: lazy word fetches into a scratch register, proved to hand out exactly
    the fields of the first `total` bits of the buffer. */
module Reader {
  import opened Arithmetic
  import opened Bits
  import opened IntTypes
  import opened Memory
  import opened Lists
  import opened Format
  import opened RoundTrip

  class BitStreamReader {
    const endian: Endian
    var scratch: Scratch
    var words: array<Word>
    var scratchBits: int
    var wordsIndex: int
    var logicalTotalBits: Word
    var logicalUsedBits: Word
    var initFail: bool
    var fail: bool

    // ---- Abstraction ----

    /** Everything in the buffer. */
    ghost function Buffer(): (bs: seq<Bit>)
      reads `words, words
      ensures |bs| == 32 * words.Length
    {
      WordsBits(endian, words[..])
    }

    /** The scratch holds the last `scratchBits` bits of the words fetched so far. */
    ghost predicate InShape()
      reads `words, `wordsIndex, `scratch, `scratchBits, words
    {
      && 0 <= wordsIndex <= words.Length
      && 0 <= scratchBits < 64 && scratchBits <= 32 * wordsIndex
      && scratch == RawField(Buffer(), 32 * wordsIndex - scratchBits, scratchBits)
    }

    /** Position of the next unread bit. */
    ghost function Position(): int
      reads `wordsIndex, `scratchBits
    {
      32 * wordsIndex - scratchBits
    }

    /** What holds between any two calls. A failed reader only keeps what a restart needs. */
    ghost predicate Valid()
      reads this, words
    {
      && (initFail ==> fail && logicalUsedBits == 0)
      && (!initFail ==> logicalUsedBits <= logicalTotalBits <= MAX_BITS && logicalTotalBits <= 32 * words.Length)
      && (!fail ==> InShape() && scratchBits < 32 && logicalUsedBits == Position())
    }

    /** The bits the reader may look at. */
    ghost function Data(): (bs: seq<Bit>)
      requires Valid()
      reads this, words
      ensures !initFail ==> |bs| == logicalTotalBits
    {
      if initFail then [] else Buffer()[..logicalTotalBits]
    }

    ghost function Where(): (k: Cursor)
      requires Valid()
      reads this, words
      ensures k.In(Data())
    {
      Cursor(logicalUsedBits, fail)
    }

    // ---- Set-up ----

    constructor (e: Endian)
      ensures Valid() && endian == e && Data() == [] && Where() == Cursor(0, true)
      ensures initFail && logicalTotalBits == 0
    {
      endian := e;
      words := new Word[0];
      logicalTotalBits := 0;
      initFail := true;
      scratch := 0;
      scratchBits := 0;
      wordsIndex := 0;
      logicalUsedBits := 0;
      fail := true;
    }

    /** `restart()`. */
    method Restart()
      requires !initFail ==> logicalTotalBits <= MAX_BITS && logicalTotalBits <= 32 * words.Length
      modifies `scratch, `scratchBits, `wordsIndex, `logicalUsedBits, `fail
      ensures Valid() && Where() == Cursor(0, initFail)
    {
      scratch := 0;
      scratchBits := 0;
      wordsIndex := 0;
      logicalUsedBits := 0;
      fail := initFail;
    }

    /** `reset()`: no buffer. */
    method Reset()
      modifies this
      ensures Valid() && fresh(words) && Data() == [] && Where() == Cursor(0, true)
      ensures initFail && logicalTotalBits == 0
    {
      words := new Word[0];
      logicalTotalBits := 0;
      initFail := true;
      Restart();
    }

    /** `reset_with(buffer, logical_bytes_length)`. The number of bits is a 32-bit product. */
    method ResetWith(buffer: array<Word>, logicalBytesLength: Word)
      requires 0 < buffer.Length && logicalBytesLength <= 4 * buffer.Length ==> U32(8 * logicalBytesLength) <= MAX_BITS
      modifies this
      ensures Valid() && words == buffer && logicalTotalBits == U32(8 * logicalBytesLength)
      ensures initFail == (buffer.Length == 0 || logicalBytesLength > 4 * buffer.Length)
      ensures Where() == Cursor(0, initFail)
      ensures !initFail ==> Data() == WordsBits(endian, buffer[..])[..logicalTotalBits]
    {
      hide InShape;
      words := buffer;
      logicalTotalBits := U32(8 * logicalBytesLength);
      initFail := buffer.Length == 0 || logicalBytesLength > 4 * buffer.Length;
      Restart();
    }

    method SetFail()
      requires Valid()
      modifies `fail
      ensures Valid() && Where() == old(Where()).(fail := true)
    {
      fail := true;
    }

    method UsedBytes() returns (bytes: Word)
      requires Valid()
      ensures 8 * bytes < logicalUsedBits + 8 && logicalUsedBits <= 8 * bytes
    {
      bytes := CeilToMultipleOf8(logicalUsedBits) / 8;
    }

    // ---- Fetching ----

    /** `do_fetch_word_unchecked()`. */
    method DoFetchWordUnchecked()
      requires InShape() && scratchBits < 32 && wordsIndex < words.Length
      modifies `scratch, `scratchBits, `wordsIndex
      ensures InShape() && Position() == old(Position())
      ensures wordsIndex == old(wordsIndex) + 1 && scratchBits == old(scratchBits) + 32
    {
      hide RawField, BitOr, Shl64;
      WordField(endian, words[..], wordsIndex);
      JoinedField(Buffer(), Position(), scratchBits, 32);
      var word := words[wordsIndex];
      wordsIndex := wordsIndex + 1;
      if endian.Big? {
        word := ByteSwap(word);
      }
      scratch := BitOr(scratch, Shl64(word, scratchBits));
      scratchBits := scratchBits + 32;
    }

    /** The statements each part of a field goes through: fetch a word if needed, mask the low
        bits out of the scratch, drop them. One fetch is enough for up to 32 bits. */
    method Take(bits: nat) returns (value: Scratch)
      requires InShape() && scratchBits < 32 && bits <= 32
      requires Position() + bits <= 32 * words.Length
      modifies `scratch, `scratchBits, `wordsIndex
      ensures InShape() && scratchBits < 32 && Position() == old(Position()) + bits
      ensures value == RawField(Buffer(), old(Position()), bits)
    {
      hide RawField, Buffer, Shr, BitAnd, Shl64;
      if bits > scratchBits {
        DoFetchWordUnchecked();
      }
      TakenField(Buffer(), Position(), bits, scratchBits - bits);
      value := BitAnd(scratch, Shl64(1, bits) - 1);
      scratch := Shr(scratch, bits);
      scratchBits := scratchBits - bits;
    }

    // ---- Integers ----

    /** The checks at the head of a checked read. */
    method Rejects(t: IntType, min: int, max: int) returns (rejected: bool)
      requires Valid() && t.Has(min) && t.Has(max)
      modifies `fail
      ensures Valid()
      ensures rejected == (old(fail) || min >= max || old(logicalUsedBits) + t.FieldBits(min, max) > logicalTotalBits)
      ensures fail == rejected
    {
      hide InShape, Buffer, IntType.FieldBits;
      if fail {
        return true;
      }
      if min >= max || U32(logicalUsedBits + t.FieldBits(min, max)) > logicalTotalBits {
        fail := true;
        return true;
      }
      return false;
    }

    /** `do_read<Checked>` for types no wider than a word; the result is `None` when the
        argument is left alone. */
    method DoReadSmall(checked: bool, t: IntType, min: int, max: int) returns (data: Option<int>)
      requires Valid() && t.UWidth() <= 32 && t.Has(min) && t.Has(max)
      requires !checked ==> !fail && logicalUsedBits + t.FieldBits(min, max) <= logicalTotalBits
      modifies `scratch, `scratchBits, `wordsIndex, `logicalUsedBits, `fail
      ensures Valid()
      ensures checked ==> (Where(), data) == ReadIntStep(Data(), old(Where()), t, min, max)
      ensures !checked ==> UncheckedResult(old(logicalUsedBits), t, min, max, data)
      ensures fail ==> logicalUsedBits == old(logicalUsedBits)
      ensures old(fail) ==> unchanged(this)
    {
      if checked {
        var rejected := Rejects(t, min, max);
        if rejected {
          return None;
        }
      }
      var bits := t.FieldBits(min, max);
      var value := Take(bits);
      data := Finish(checked, t, min, max, bits, value);
    }

    /** `do_read<Checked>` for 64-bit types: the low word first, then what is left above it. */
    method DoReadBig(checked: bool, t: IntType, min: int, max: int) returns (data: Option<int>)
      requires Valid() && t.UWidth() == 64 && t.Has(min) && t.Has(max)
      requires !checked ==> !fail && logicalUsedBits + t.FieldBits(min, max) <= logicalTotalBits
      modifies `scratch, `scratchBits, `wordsIndex, `logicalUsedBits, `fail
      ensures Valid()
      ensures checked ==> (Where(), data) == ReadIntStep(Data(), old(Where()), t, min, max)
      ensures !checked ==> UncheckedResult(old(logicalUsedBits), t, min, max, data)
      ensures fail ==> logicalUsedBits == old(logicalUsedBits)
      ensures old(fail) ==> unchanged(this)
    {
      if checked {
        var rejected := Rejects(t, min, max);
        if rejected {
          return None;
        }
      }
      var bits := t.FieldBits(min, max);
      var value := TakeInParts(bits);
      data := Finish(checked, t, min, max, bits, value);
    }

    /** The scratch has moved past a field of `bits` bits that is not yet accounted for. */
    ghost predicate Ahead(bits: nat)
      reads this, words
    {
      && !initFail && !fail && logicalTotalBits <= MAX_BITS && logicalTotalBits <= 32 * words.Length
      && InShape() && scratchBits < 32
      && Position() == logicalUsedBits + bits <= logicalTotalBits
    }

    /** The end of `do_read`: back to the original range, the check against `max`, the count. */
    method Finish(checked: bool, t: IntType, min: int, max: int, bits: nat, value: Scratch) returns (data: Option<int>)
      requires t.Has(min) && t.Has(max) && (checked ==> min < max)
      requires bits == t.FieldBits(min, max) && Ahead(bits)
      requires value == RawField(Buffer(), logicalUsedBits, bits)
      modifies `logicalUsedBits, `fail
      ensures Valid()
      ensures checked ==> (Where(), data) == ReadIntStep(Data(), Cursor(old(logicalUsedBits), false), t, min, max)
      ensures !checked ==> UncheckedResult(old(logicalUsedBits), t, min, max, data)
    {
      hide RawField, Buffer, IntType.FieldBits, IntType.Restore, IntType.Modulus;
      DataField(logicalUsedBits, bits);
      FieldInType(Buffer(), logicalUsedBits, t, bits);
      var conv := t.Restore(value, min);
      if checked && conv > max {
        fail := true;
        return None;
      }
      data := Some(conv);
      logicalUsedBits := U32(logicalUsedBits + bits);
    }

    /** A field of up to 64 bits, put together from its low word and the bits above it. */
    method TakeInParts(bits: nat) returns (value: Scratch)
      requires InShape() && scratchBits < 32 && bits <= 64
      requires Position() + bits <= 32 * words.Length
      modifies `scratch, `scratchBits, `wordsIndex
      ensures InShape() && scratchBits < 32 && Position() == old(Position()) + bits
      ensures value == RawField(Buffer(), old(Position()), bits)
    {
      hide RawField, Buffer, BitOr, Shl64;
      var lowBits := Min(bits, 32);
      var highBits := bits - lowBits;
      JoinedField(Buffer(), Position(), lowBits, highBits);
      value := Take(lowBits);
      if highBits > 0 {
        var high := Take(highBits);
        value := BitOr(value, Shl64(high, lowBits));
      }
    }

    /** An unchecked read hands out the field whatever it is. */
    ghost predicate UncheckedResult(before: Word, t: IntType, min: int, max: int, data: Option<int>)
      requires Valid() && t.Has(min) && t.Has(max)
      reads this, words
    {
      var bits := t.FieldBits(min, max);
      && !fail && before + bits <= |Data()|
      && logicalUsedBits == before + bits
      && RawField(Data(), before, bits) < t.Modulus()
      && data == Some(t.Restore(RawField(Data(), before, bits), min))
    }

    /** The invariants the stress test samples, in every state of an unfailed reader; and no more
        words are fetched than the bits read so far need. */
    lemma {:induction false} OpenInvariants()
      requires Valid() && !fail
      ensures scratch < Pow2(scratchBits) <= TWO_32 / 2 && 0 <= scratchBits < 32
      ensures logicalUsedBits == 32 * wordsIndex - scratchBits <= logicalTotalBits <= 32 * words.Length
      ensures 32 * (wordsIndex - 1) < logicalUsedBits <= 32 * wordsIndex
    {
      hide Buffer, RawField;
      FieldBelow(Buffer(), Position(), scratchBits);
      Pow2Values();
      Pow2Monotone(scratchBits, 31);
    }

    /** Fields of the visible bits are fields of the buffer. */
    lemma {:induction false} DataField(pos: nat, bits: nat)
      requires logicalTotalBits <= 32 * words.Length && pos + bits <= logicalTotalBits
      ensures RawField(Buffer()[..logicalTotalBits], pos, bits) == RawField(Buffer(), pos, bits)
    {
      assert Buffer()[..logicalTotalBits][pos..pos + bits] == Buffer()[pos..pos + bits];
    }

    /** `read(data, min, max)`. */
    method ReadInteger(t: IntType, min: int, max: int) returns (data: Option<int>)
      requires Valid() && t.Has(min) && t.Has(max)
      modifies `scratch, `scratchBits, `wordsIndex, `logicalUsedBits, `fail
      ensures Valid() && (Where(), data) == ReadIntStep(Data(), old(Where()), t, min, max)
      ensures fail ==> logicalUsedBits == old(logicalUsedBits)
      ensures old(fail) ==> unchanged(this)
    {
      if t.UWidth() <= 32 {
        data := DoReadSmall(true, t, min, max);
      } else {
        data := DoReadBig(true, t, min, max);
      }
    }

    /** `read(float&)` and `read(double&)`: the bit pattern of the type's width. */
    method ReadBits(t: IntType) returns (raw: Option<int>)
      requires Valid() && t.Int? && !t.signed
      modifies `scratch, `scratchBits, `wordsIndex, `logicalUsedBits, `fail
      ensures Valid() && (Where(), raw) == ReadRawStep(Data(), old(Where()), t.width)
      ensures fail ==> logicalUsedBits == old(logicalUsedBits)
      ensures old(fail) ==> unchanged(this)
    {
      ReadIntFull(Data(), Where(), t);
      raw := ReadInteger(t, t.Lo(), t.Hi());
    }

    // ---- Bytes and strings ----

    /** `do_read<false>(value)`: unchecked, over the full range of the type. */
    method ReadUnchecked(t: IntType) returns (v: int)
      requires Valid() && !fail && t.Int? && t.width <= 32
      requires logicalUsedBits + t.width <= logicalTotalBits
      modifies `scratch, `scratchBits, `wordsIndex, `logicalUsedBits, `fail
      ensures Valid() && Where() == Cursor(old(logicalUsedBits) + t.width, false)
      ensures v == DecodeFull(Data(), old(logicalUsedBits), t)
    {
      FullField(t);
      var data := DoReadSmall(false, t, t.Lo(), t.Hi());
      v := data.value;
    }

    /** The loop of unchecked reads behind the single check of a byte block or a string. */
    method ReadRunInto(t: IntType, dst: array<int>, n: nat)
      requires Valid() && !fail && t.Int? && t.width <= 32 && n <= dst.Length
      requires dst as object != words && logicalUsedBits + RunBits(t, n) <= logicalTotalBits
      modifies `scratch, `scratchBits, `wordsIndex, `logicalUsedBits, `fail, dst
      ensures Valid() && Where() == Cursor(old(logicalUsedBits) + RunBits(t, n), false)
      ensures dst[..n] == DecodeRun(Data(), old(logicalUsedBits), t, n)
      ensures dst[n..] == old(dst[n..])
    {
      hide RawField, InShape, Buffer, DecodeFull, DecodeRun, RunBits, Data;
      ghost var data, start, before := Data(), logicalUsedBits, dst[..];
      ghost var done: seq<int> := [];
      for i := 0 to n
        invariant Valid() && !fail && Data() == data && |done| == i
        invariant logicalUsedBits + RunBits(t, n - i) == start + RunBits(t, n)
        invariant dst[..] == done + before[i..]
        invariant done + DecodeRun(data, logicalUsedBits, t, n - i) == DecodeRun(data, start, t, n)
      {
        RunBitsStep(t, n - i);
        AppendDecoded(done, data, logicalUsedBits, t, n - i);
        ghost var v := DecodeFull(data, logicalUsedBits, t);
        ReadElement(t, dst, i);
        PutNext(before, done, v);
        done := done + [v];
      }
      NothingDecoded(done, data, logicalUsedBits, t);
      assert dst[n..] == before[n..];
    }

    /** `do_read<false>(dst[i])`. */
    method ReadElement(t: IntType, dst: array<int>, i: nat)
      requires Valid() && !fail && t.Int? && t.width <= 32 && i < dst.Length
      requires dst as object != words && logicalUsedBits + t.width <= logicalTotalBits
      modifies `scratch, `scratchBits, `wordsIndex, `logicalUsedBits, `fail, dst
      ensures Valid() && !fail && logicalUsedBits == old(logicalUsedBits) + t.width
      ensures Data() == old(Data())
      ensures dst[..] == old(dst[..])[i := DecodeFull(Data(), old(logicalUsedBits), t)]
    {
      var v := ReadUnchecked(t);
      dst[i] := v;
    }

    /** `read(void*, size)`: all of the block or nothing. */
    method ReadByteBlock(dst: array<int>, size: nat)
      requires Valid() && size <= dst.Length && dst as object != words
      requires ReadBytes(size).Countable(Data(), Where())
      modifies `scratch, `scratchBits, `wordsIndex, `logicalUsedBits, `fail, dst
      ensures Valid() && Where() == ReadBytesStep(Data(), old(Where()), size).0
      ensures !fail ==> ReadBytesStep(Data(), old(Where()), size).1 == Some(dst[..size])
      ensures dst[size..] == old(dst[size..])
      ensures fail ==> dst[..] == old(dst[..])
      ensures fail ==> logicalUsedBits == old(logicalUsedBits)
      ensures old(fail) ==> unchanged(this)
    {
      hide InShape, Buffer;
      if fail {
        return;
      }
      BlockCheckIsExactIff(logicalUsedBits, size, logicalTotalBits);
      if U32(logicalUsedBits + U32(8 * size)) > logicalTotalBits {
        fail := true;
        return;
      }
      ReadRunInto(UINT8, dst, size);
    }

    /** `read_string_length()`: the tag, then the length of the type the tag names; -1 when
        either is missing. */
    method ReadStringLength() returns (result: int)
      requires Valid()
      modifies `scratch, `scratchBits, `wordsIndex, `logicalUsedBits, `fail
      ensures Valid() && (Where(), result) == ReadLengthStep(Data(), old(Where()))
      ensures old(fail) ==> unchanged(this)
    {
      hide InShape, Buffer, ReadIntStep;
      result := -1;
      if fail {
        return;
      }
      ReadTag(Data(), Where());
      var tag := DoReadSmall(true, UINT32, 0, 3);
      if tag.Some? {
        var len: Option<int>;
        match tag.value {
          case 0 => len := ReadBits(UINT8);
          case 1 => len := ReadBits(UINT16);
          case 2 => len := ReadBits(UINT32);
          case _ => len := ReadBits(UINT64);
        }
        if len.Some? {
          result := I32(len.value);
        }
      }
    }

    /** `peek_string_length()`: reads the length, then puts everything but the fail flag back. */
    method PeekStringLength() returns (result: int)
      requires Valid()
      modifies `scratch, `scratchBits, `wordsIndex, `logicalUsedBits, `fail
      ensures Valid() && (Where(), result) == PeekStep(Data(), old(Where()))
      ensures unchanged(`scratch, `scratchBits, `wordsIndex, `logicalUsedBits)
    {
      hide Buffer, ReadLengthStep, RawField;
      var prevScratch, prevScratchBits := scratch, scratchBits;
      var prevWordsIndex, prevUsedBits := wordsIndex, logicalUsedBits;
      result := ReadStringLength();
      scratch, scratchBits := prevScratch, prevScratchBits;
      wordsIndex, logicalUsedBits := prevWordsIndex, prevUsedBits;
    }

    /** The head of the string reads: the length, the limit of the caller, and one check for all
        the characters. The result is `None` when the read ends there. */
    method AcceptLength(c: CharType, maxLength: Word) returns (len: Option<nat>)
      requires Valid()
      modifies `scratch, `scratchBits, `wordsIndex, `logicalUsedBits, `fail
      ensures Valid() && fail == len.None?
      ensures len.None? ==> (Where(), None) == ReadStringStep(Data(), old(Where()), c, maxLength)
      ensures len.Some? ==> len.value <= maxLength && Where().Holds(Data(), RunBits(c, len.value))
      ensures len.Some? ==>
                ReadStringStep(Data(), old(Where()), c, maxLength)
                == (Cursor(logicalUsedBits + RunBits(c, len.value), false),
                    Some(DecodeRun(Data(), logicalUsedBits, c, len.value)))
      ensures old(fail) ==> unchanged(this)
    {
      hide InShape, Buffer, ReadLengthStep, DecodeRun;
      if fail {
        return None;
      }
      var n := ReadStringLength();
      if n < 0 || n > maxLength {
        fail := true;
        return None;
      }
      RunBitsIsSize(c, n);
      if logicalUsedBits + 8 * (n * SizeOf(c)) > logicalTotalBits {
        fail := true;
        return None;
      }
      return Some(n);
    }

    /** `read(basic_string&, max_length)`: the string is resized once its length is accepted. */
    method ReadString(c: CharType, maxLength: Word) returns (str: Option<seq<int>>)
      requires Valid()
      modifies `scratch, `scratchBits, `wordsIndex, `logicalUsedBits, `fail
      ensures Valid() && (Where(), str) == ReadStringStep(Data(), old(Where()), c, maxLength)
      ensures old(fail) ==> unchanged(this)
    {
      hide InShape, Buffer, ReadStringStep, DecodeRun;
      var len := AcceptLength(c, maxLength);
      if len.None? {
        return None;
      }
      var chars := new int[len.value];
      ReadRunInto(c, chars, len.value);
      assert chars[..] == chars[..len.value];
      str := Some(chars[..]);
    }

    /** `read(CharT*, max_length)`: the characters and a null character behind them; on failure
        the caller's buffer is not touched. */
    method ReadCString(c: CharType, str: array<int>, maxLength: Word)
      requires Valid() && maxLength < str.Length && str as object != words
      modifies `scratch, `scratchBits, `wordsIndex, `logicalUsedBits, `fail, str
      ensures Valid() && Where() == ReadStringStep(Data(), old(Where()), c, maxLength).0
      ensures fail ==> str[..] == old(str[..])
      ensures !fail ==>
                var chars := ReadStringStep(Data(), old(Where()), c, maxLength).1.value;
                && str[..|chars| + 1] == chars + [0]
                && str[|chars| + 1..] == old(str[|chars| + 1..])
      ensures old(fail) ==> unchanged(this)
    {
      hide InShape, Buffer, ReadStringStep, DecodeRun;
      var len := AcceptLength(c, maxLength);
      if len.None? {
        return;
      }
      assert old(str[len.value + 1..]) == old(str[len.value..])[1..];
      ReadRunInto(c, str, len.value);
      var n := len.value;
      ghost var chars, behind := str[..n], str[n..];
      str[n] := 0;
      assert str[..n + 1] == chars + [0];
      assert str[n + 1..] == behind[1..];
    }

    /** Any read of a program. */
    method Read(op: ReadOp) returns (v: Value)
      requires Valid() && op.WellTyped() && op.Countable(Data(), Where())
      modifies `scratch, `scratchBits, `wordsIndex, `logicalUsedBits, `fail
      ensures Valid() && (Where(), v) == ReadStep(Data(), old(Where()), op)
      ensures old(fail) ==> unchanged(this)
    {
      hide InShape, Buffer, ReadStringStep, ReadIntStep, ReadRawStep, ReadBytesStep, PeekStep;
      v := Nothing;
      match op
      case ReadInt(t, min, max) =>
        var data := ReadInteger(t, min, max);
        v := if data.Some? then IntValue(data.value) else Nothing;
      case ReadBytes(size) =>
        var block := new int[size];
        ReadByteBlock(block, size);
        v := if fail then Nothing else BytesValue(block[..size]);
      case ReadFloat =>
        var raw := ReadBits(UINT32);
        v := if raw.Some? then FloatValue(raw.value) else Nothing;
      case ReadDouble =>
        var raw := ReadBits(UINT64);
        v := if raw.Some? then DoubleValue(raw.value) else Nothing;
      case ReadString(c, maxLength) =>
        var str := ReadString(c, maxLength);
        v := if str.Some? then StringValue(str.value) else Nothing;
      case PeekLength =>
        var len := PeekStringLength();
        v := LengthValue(len);
    }

    /** A whole program of reads: the results in order. */
    method ReadAll(ops: List<ReadOp>) returns (vs: List<Value>)
      requires Valid() && AllReadsWellTyped(ops) && AllReadsCountable(Data(), Where(), ops)
      modifies `scratch, `scratchBits, `wordsIndex, `logicalUsedBits, `fail
      ensures Valid() && (Where(), vs) == RunReads(Data(), old(Where()), ops)
      ensures old(fail) ==> unchanged(this)
      decreases ops
    {
      hide InShape, Buffer, ReadStep, ReadOp.WellTyped, ReadOp.Countable;
      if ops.Nil? {
        return Nil;
      }
      var v := Read(ops.head);
      var rest := ReadAll(ops.tail);
      vs := Cons(v, rest);
    }
  }

  lemma {:induction false} PutNext(before: seq<int>, done: seq<int>, v: int)
    requires |done| < |before|
    ensures (done + before[|done|..])[|done| := v] == done + [v] + before[|done| + 1..]
  {
  }

  lemma {:induction false} RunBitsStep(t: IntType, n: nat)
    requires t.Int? && n > 0
    ensures RunBits(t, n) == t.width + RunBits(t, n - 1)
  {
  }

  lemma {:induction false} NothingDecoded(done: seq<int>, data: seq<Bit>, pos: nat, t: IntType)
    requires t.Int? && pos <= |data|
    ensures RunBits(t, 0) == 0 && done + DecodeRun(data, pos, t, 0) == done
  {
  }

  lemma {:induction false} AppendDecoded(done: seq<int>, data: seq<Bit>, pos: nat, t: IntType, n: nat)
    requires t.Int? && n > 0 && pos + RunBits(t, n) <= |data|
    ensures done + DecodeRun(data, pos, t, n)
            == done + [DecodeFull(data, pos, t)] + DecodeRun(data, pos + t.width, t, n - 1)
  {
  }

  /** A word of the buffer is the 32-bit field at its place. */
  lemma {:induction false} WordField(e: Endian, words: seq<Word>, i: nat)
    requires i < |words|
    ensures RawField(WordsBits(e, words), 32 * i, 32) == Native(e, words[i])
  {
    hide WordsBits, Native, ToBits;
    WordsBitsAt(e, words, i);
    Pow2Values();
    FromToBits(Native(e, words[i]), 32);
  }

  /** What masking and shifting do: the low bits are the field, the rest stays held. */
  lemma {:induction false} TakenField(buffer: seq<Bit>, pos: nat, n: nat, m: nat)
    requires pos + n + m <= |buffer| && n + m < 64 && n <= 32
    ensures RawField(buffer, pos, n + m) < TWO_64 && Shl64(1, n) > 0
    ensures BitAnd(RawField(buffer, pos, n + m), Shl64(1, n) - 1) == RawField(buffer, pos, n) < TWO_64
    ensures Shr(RawField(buffer, pos, n + m), n) == RawField(buffer, pos + n, m)
  {
    SplitField(buffer, pos, n, m);
    FieldBelow(buffer, pos, n + m);
    ShlOfOne(n);
    Pow2Values();
    Pow2Monotone(n, 32);
    LowOfSmall(Shl(1, n), 64);
    AndLowMask(RawField(buffer, pos, n + m), n);
  }

  lemma {:induction false} FieldBelow(buffer: seq<Bit>, pos: nat, bits: nat)
    requires pos + bits <= |buffer| && bits <= 64
    ensures RawField(buffer, pos, bits) < Pow2(bits) <= TWO_64
  {
    ToFromBits(buffer[pos..pos + bits]);
    Pow2Values();
    Pow2Monotone(bits, 64);
  }

  /** The two parts of a field, joined again. */
  lemma {:induction false} JoinedField(buffer: seq<Bit>, pos: nat, n: nat, m: nat)
    requires pos + n + m <= |buffer| && n + m <= 64
    ensures RawField(buffer, pos, n) < TWO_64 && RawField(buffer, pos + n, m) < TWO_64
    ensures BitOr(RawField(buffer, pos, n), Shl64(RawField(buffer, pos + n, m), n))
            == RawField(buffer, pos, n + m) < TWO_64
  {
    hide RawField;
    var v := RawField(buffer, pos, n + m);
    SplitField(buffer, pos, n, m);
    FieldBelow(buffer, pos, n + m);
    Pow2Values();
    ShrBound(v, m, n);
    LowBound(v, n);
    ShlBound(Shr(v, n), m, n);
    LowOfSmall(Shl(Shr(v, n), n), 64);
    OrIsAdd(Low(v, n), n, Shr(v, n));
    LowPlusHigh(v, n);
  }

  lemma {:induction false} LowPlusHigh(v: nat, n: nat)
    ensures Low(v, n) + Shl(Shr(v, n), n) == v
  {
    if n > 0 {
      LowPlusHigh(v / 2, n - 1);
    }
  }
}
