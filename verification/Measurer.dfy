/** `bit_stream_measurer`: a 32-bit counter that predicts what a writer will use. */
module Measurer {
  import opened Arithmetic
  import opened IntTypes
  import opened Lists
  import opened Format
  import opened RoundTrip

  /** What a write adds to the count, from the argument's type, range and size alone. */
  function MeasuredBits(op: Op): nat
    requires op.WellTyped()
  {
    match op
    case WriteInt(t, _, min, max) => t.FieldBits(min, max)
    case WriteBytes(bytes) => 8 * |bytes|
    case WriteFloat(_) => 32
    case WriteDouble(_) => 64
    case WriteString(c, chars) =>
      2 + LengthBits(LengthTag(|chars|)) + 8 * (|chars| * SizeOf(c))
  }

  /** The counter after a program: every addition wraps around at 32 bits. */
  function MeasureAll(used: Word, ops: List<Op>): Word
    requires AllWellTyped(ops)
    decreases ops
  {
    if ops.Nil? then used else MeasureAll(U32(used + MeasuredBits(ops.head)), ops.tail)
  }

  class BitStreamMeasurer {
    var logicalUsedBits: Word

    constructor ()
      ensures logicalUsedBits == 0
    {
      logicalUsedBits := 0;
    }

    method Restart()
      modifies this
      ensures logicalUsedBits == 0
    {
      logicalUsedBits := 0;
    }

    /** `used_bytes()`: rounded up, unless the count is within 7 of 2^32. */
    method UsedBytes() returns (bytes: Word)
      ensures logicalUsedBits <= TWO_32 - 8 ==> logicalUsedBits <= 8 * bytes < logicalUsedBits + 8
      ensures logicalUsedBits > TWO_32 - 8 ==> bytes == 0
    {
      bytes := CeilToMultipleOf8(logicalUsedBits) / 8;
    }

    /** The `write` overloads: the count grows by exactly the bits a writer would append. */
    method Write(op: Op)
      requires op.WellTyped()
      modifies this
      ensures logicalUsedBits == U32(old(logicalUsedBits) + |Encode(op)|)
    {
      hide Encode;
      MeasuresEncoding(op);
      match op {
        case WriteInt(t, _, min, max) =>
          logicalUsedBits := U32(logicalUsedBits + t.FieldBits(min, max));
        case WriteBytes(bytes) =>
          WrapParts(logicalUsedBits, 8 * |bytes|);
          logicalUsedBits := U32(logicalUsedBits + U32(8 * |bytes|));
        case WriteFloat(_) =>
          logicalUsedBits := U32(logicalUsedBits + 8 * SizeOf(UINT32));
        case WriteDouble(_) =>
          logicalUsedBits := U32(logicalUsedBits + 8 * SizeOf(UINT64));
        case WriteString(c, chars) =>
          WriteStringView(c, chars);
      }
    }

    /** `write(string_view)`: the tag, the length prefix, the characters, one addition each. */
    method WriteStringView(c: CharType, chars: seq<int>)
      requires WriteString(c, chars).WellTyped()
      modifies this
      ensures logicalUsedBits == U32(old(logicalUsedBits) + MeasuredBits(WriteString(c, chars)))
    {
      hide U32;
      ghost var before: nat := logicalUsedBits;
      logicalUsedBits := U32(logicalUsedBits + 2);
      var len := |chars|;
      if len <= 0xFF {
        logicalUsedBits := U32(logicalUsedBits + 8 * SizeOf(UINT8));
      } else if len <= 0xFFFF {
        logicalUsedBits := U32(logicalUsedBits + 8 * SizeOf(UINT16));
      } else if len <= 0xFFFF_FFFF {
        logicalUsedBits := U32(logicalUsedBits + 8 * SizeOf(UINT32));
      } else {
        logicalUsedBits := U32(logicalUsedBits + 8 * SizeOf(UINT64));
      }
      ghost var prefix := LengthBits(LengthTag(len));
      assert logicalUsedBits == U32(before + 2 + prefix) by {
        WrapFirst(before + 2, prefix);
      }
      var payload := 8 * (len * SizeOf(c));
      WrapFirst(before + 2 + prefix, payload);
      WrapParts(logicalUsedBits, payload);
      logicalUsedBits := U32(logicalUsedBits + U32(payload));
    }

    /** A whole program. */
    method WriteAll(ops: List<Op>)
      requires AllWellTyped(ops)
      modifies this
      ensures logicalUsedBits == MeasureAll(old(logicalUsedBits), ops)
      ensures logicalUsedBits == U32(old(logicalUsedBits) + |EncodeAll(ops)|)
    {
      hide Encode, U32, MeasuredBits, EncodeAll;
      MeasureIsLength(logicalUsedBits, ops);
      var rest := ops;
      while rest.Cons?
        invariant AllWellTyped(rest)
        invariant MeasureAll(logicalUsedBits, rest) == MeasureAll(old(logicalUsedBits), ops)
        decreases rest
      {
        MeasuresEncoding(rest.head);
        Write(rest.head);
        rest := rest.tail;
      }
    }
  }

  /** The measurer counts for every write exactly the bits the writer appends. */
  lemma {:induction false} MeasuresEncoding(op: Op)
    requires op.WellTyped()
    ensures MeasuredBits(op) == |Encode(op)|
  {
    if op.WriteString? {
      RunBitsIsSize(op.c, |op.chars|);
    }
  }

  /** The counter after a program is the length of its encoding modulo 2^32. */
  lemma {:induction false} MeasureIsLength(used: Word, ops: List<Op>)
    requires AllWellTyped(ops)
    ensures MeasureAll(used, ops) == U32(used + |EncodeAll(ops)|)
    decreases ops
  {
    hide U32, Encode, MeasuredBits;
    if ops.Nil? {
      WrapSmall(used);
    } else {
      var a: nat, b: nat := MeasuredBits(ops.head), |EncodeAll(ops.tail)|;
      MeasuresEncoding(ops.head);
      assert |EncodeAll(ops)| == a + b;
      WrapFirst(used + a, b);
      MeasureIsLength(U32(used + a), ops.tail);
    }
  }

  /** The measurer is exact. A fresh writer of `bytes` bytes ends a program unfailed if and only
      if every argument is in range, the measure fits, and the measure did not wrap around; it
      did not wrap if and only if the program takes less than 2^32 bits; and an unfailed writer
      has used exactly the measured bits. */
  lemma {:induction false} MeasurerIsExact(ops: List<Op>, bytes: nat)
    requires AllWellTyped(ops) && 8 * bytes < TWO_32
    ensures MeasureAll(0, ops) == |EncodeAll(ops)| <==> |EncodeAll(ops)| < TWO_32
    ensures !RunWrites(FreshWriter(8 * bytes, false), ops).fail <==>
            AllInRange(ops) && MeasureAll(0, ops) <= 8 * bytes && |EncodeAll(ops)| < TWO_32
    ensures !RunWrites(FreshWriter(8 * bytes, false), ops).fail ==>
            |RunWrites(FreshWriter(8 * bytes, false), ops).stream| == MeasureAll(0, ops)
  {
    hide EncodeAll, RunWrites;
    MeasureIsLength(0, ops);
    FreshRun(8 * bytes, ops);
  }

  /** A program of 2^29 bytes measures as nothing at all. */
  lemma {:induction false} MeasureWrapsAround(bytes: seq<int>)
    requires AllOf(UINT8, bytes) && |bytes| == 0x2000_0000
    ensures MeasureAll(0, Cons(WriteBytes(bytes), Nil)) == 0
  {
  }
}
