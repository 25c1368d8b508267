/** The wire format of the bit streams: which bits every write appends, what every read makes of
    the bits at its position, and how the stream states change. The classes of Writer.dfy,
    Reader.dfy and Measurer.dfy are proved against these definitions. */
module Format {
  import opened Arithmetic
  import opened Bits
  import opened IntTypes
  import opened Lists

  /** Largest stream, in bits, that takes one more integer of up to 64 bits without a wrap-around
      of its 32-bit counters. */
  const MAX_BITS: nat := TWO_32 - 65

  /** The 32-bit sum of the used bits and a byte block exceeds the total when the true sum does:
      the overflow check of a byte block sees every overflow. */
  predicate OverflowSeen(used: nat, bits: nat, total: nat) {
    used + bits > total ==> U32(used + bits) > total
  }

  // ---- What is written ----

  datatype Op =
    | WriteInt(t: IntType, data: int, min: int, max: int)
    | WriteBytes(bytes: seq<int>)
    | WriteFloat(raw: Word)
    | WriteDouble(rawDouble: Scratch)
    | WriteString(c: CharType, chars: seq<int>)
  {
    /** What the static types of the call guarantee. */
    predicate WellTyped() {
      match this
      case WriteInt(t, data, min, max) => t.Has(data) && t.Has(min) && t.Has(max)
      case WriteBytes(bytes) => AllOf(UINT8, bytes)
      case WriteFloat(_) => true
      case WriteDouble(_) => true
      case WriteString(c, chars) => AllOf(c, chars) && RunBits(c, |chars|) < 0x4000_0000_0000_0000
    }

    /** The checks on the arguments the writer makes. */
    predicate InRange() {
      WriteInt? ==> min < max && min <= data <= max
    }
  }

  predicate AllOf(t: IntType, vs: seq<int>) {
    forall i | 0 <= i < |vs| :: t.Has(vs[i])
  }

  /** Bits of `n` full-width values of an integer type. */
  function RunBits(t: IntType, n: nat): nat
    requires t.Int?
  {
    match t.width
    case 8 => 8 * n
    case 16 => 16 * n
    case 32 => 32 * n
    case _ => 64 * n
  }

  /** `sizeof`. */
  function SizeOf(t: IntType): nat {
    t.UWidth() / 8
  }

  function EncodeInt(t: IntType, data: int, min: int, max: int): seq<Bit>
    requires t.Has(data) && t.Has(min) && t.Has(max)
  {
    ToBits(t.Offset(data, min), t.FieldBits(min, max))
  }

  /** A value of the full range of its type: as many bits as the type is wide. */
  function EncodeFull(t: IntType, v: int): (bs: seq<Bit>)
    requires t.Int? && t.Has(v)
    ensures |bs| == t.width
  {
    ToBits(t.Offset(v, t.Lo()), t.width)
  }

  /** Full-range values one after the other: bytes, characters. */
  function EncodeRun(t: IntType, vs: seq<int>): (bs: seq<Bit>)
    requires t.Int? && AllOf(t, vs)
    ensures |bs| == RunBits(t, |vs|)
  {
    if vs == [] then [] else EncodeFull(t, vs[0]) + EncodeRun(t, vs[1..])
  }

  /** The "prefix of the length prefix". */
  function LengthTag(len: nat): nat {
    if len <= 0xFF then 0 else if len <= 0xFFFF then 1 else if len <= 0xFFFF_FFFF then 2 else 3
  }

  /** Width of the length prefix a tag announces. */
  function LengthBits(tag: nat): Width {
    if tag == 0 then 8 else if tag == 1 then 16 else if tag == 2 then 32 else 64
  }

  /** The length prefix of a string: two bits of tag, then the length. */
  function EncodeLength(len: nat): (bs: seq<Bit>)
    ensures |bs| == 2 + LengthBits(LengthTag(len))
  {
    ToBits(LengthTag(len), 2) + ToBits(len, LengthBits(LengthTag(len)))
  }

  /** The bits a write appends. */
  function Encode(op: Op): seq<Bit>
    requires op.WellTyped()
  {
    match op
    case WriteInt(t, data, min, max) => EncodeInt(t, data, min, max)
    case WriteBytes(bytes) => EncodeRun(UINT8, bytes)
    case WriteFloat(raw) => ToBits(raw, 32)
    case WriteDouble(raw) => ToBits(raw, 64)
    case WriteString(c, chars) => EncodeLength(|chars|) + EncodeRun(c, chars)
  }

  predicate AllWellTyped(ops: List<Op>) {
    ops.Cons? ==> ops.head.WellTyped() && AllWellTyped(ops.tail)
  }

  predicate AllInRange(ops: List<Op>) {
    ops.Cons? ==> ops.head.InRange() && AllInRange(ops.tail)
  }

  function EncodeAll(ops: List<Op>): seq<Bit>
    requires AllWellTyped(ops)
  {
    if ops.Nil? then [] else Encode(ops.head) + EncodeAll(ops.tail)
  }

  // ---- Writer states ----

  /** What a writer holds, seen from outside: `stream` is everything accepted so far. */
  datatype WriterState = WriterState(total: nat, stream: seq<Bit>, initFail: bool, fail: bool, flushed: bool)

  function FreshWriter(total: nat, initFail: bool): WriterState {
    WriterState(total, [], initFail, initFail, false)
  }

  function WriteStep(s: WriterState, op: Op): WriterState
    requires op.WellTyped()
  {
    if s.fail then s
    else if s.flushed || !op.InRange() || |s.stream| + |Encode(op)| > s.total then s.(fail := true)
    else s.(stream := s.stream + Encode(op))
  }

  function FlushStep(s: WriterState): WriterState {
    if s.fail then s else s.(flushed := true)
  }

  function RunWrites(s: WriterState, ops: List<Op>): WriterState
    requires AllWellTyped(ops)
    decreases ops
  {
    if ops.Nil? then s else RunWrites(WriteStep(s, ops.head), ops.tail)
  }

  /** A byte block does not overrun the 32-bit counters unseen. */
  predicate Countable(s: WriterState, op: Op) {
    op.WriteBytes? && !s.fail && !s.flushed ==> OverflowSeen(|s.stream|, 8 * |op.bytes|, s.total)
  }

  /** No byte block of the program does so where it is written. */
  predicate AllCountable(s: WriterState, ops: List<Op>)
    requires AllWellTyped(ops)
    decreases ops
  {
    ops.Cons? ==> Countable(s, ops.head) && AllCountable(WriteStep(s, ops.head), ops.tail)
  }

  // ---- Reader states ----

  /** Where a reader stands in the bits it can see. A failed reader stays where it is. */
  datatype Cursor = Cursor(pos: nat, fail: bool) {
    predicate In(data: seq<Bit>) {
      !fail ==> pos <= |data|
    }

    predicate Holds(data: seq<Bit>, bits: nat) {
      !fail && pos + bits <= |data|
    }
  }

  /** The field of `bits` bits at `pos`. */
  function RawField(data: seq<Bit>, pos: nat, bits: nat): nat
    requires pos + bits <= |data|
  {
    FromBits(data[pos..pos + bits])
  }

  function ReadIntStep(data: seq<Bit>, k: Cursor, t: IntType, min: int, max: int): (r: (Cursor, Option<int>))
    requires k.In(data) && t.Has(min) && t.Has(max)
    ensures r.0.In(data)
    ensures r.1.Some? ==> t.Has(r.1.value) && r.1.value <= max
    ensures r.1.Some? <==> !r.0.fail
  {
    var bits := t.FieldBits(min, max);
    if k.fail then (k, None)
    else if min >= max || k.pos + bits > |data| then (k.(fail := true), None)
    else
      FieldInType(data, k.pos, t, bits);
      var v := t.Restore(RawField(data, k.pos, bits), min);
      if v > max then (k.(fail := true), None) else (k.(pos := k.pos + bits), Some(v))
  }

  /** Reads `bits` raw bits. */
  function ReadRawStep(data: seq<Bit>, k: Cursor, bits: nat): (r: (Cursor, Option<nat>))
    requires k.In(data)
    ensures r.0.In(data)
    ensures r.1.Some? <==> !r.0.fail
  {
    if k.fail then (k, None)
    else if k.pos + bits > |data| then (k.(fail := true), None)
    else (k.(pos := k.pos + bits), Some(RawField(data, k.pos, bits)))
  }

  /** The full-width value at `pos`. */
  function DecodeFull(data: seq<Bit>, pos: nat, t: IntType): (v: int)
    requires t.Int? && pos + t.width <= |data|
    ensures t.Has(v)
  {
    FieldInType(data, pos, t, t.width);
    t.Restore(RawField(data, pos, t.width), t.Lo())
  }

  /** `n` full-width values from `pos` on. */
  function DecodeRun(data: seq<Bit>, pos: nat, t: IntType, n: nat): (vs: seq<int>)
    requires t.Int? && pos + RunBits(t, n) <= |data|
    ensures |vs| == n
    decreases n
  {
    if n == 0 then []
    else [DecodeFull(data, pos, t)] + DecodeRun(data, pos + t.width, t, n - 1)
  }

  /** `read(void*, size)`. */
  function ReadBytesStep(data: seq<Bit>, k: Cursor, size: nat): (r: (Cursor, Option<seq<int>>))
    requires k.In(data)
    ensures r.0.In(data)
    ensures r.1.Some? <==> !r.0.fail
  {
    if k.fail then (k, None)
    else if k.pos + 8 * size > |data| then (k.(fail := true), None)
    else (k.(pos := k.pos + 8 * size), Some(DecodeRun(data, k.pos, UINT8, size)))
  }

  /** `read_string_length`: the tag, then the length it announces, cut to a signed 32-bit size. */
  function ReadLengthStep(data: seq<Bit>, k: Cursor): (r: (Cursor, int))
    requires k.In(data)
    ensures r.0.In(data)
    ensures r.0.fail ==> r.1 == -1
    ensures k.fail ==> r.0 == k
  {
    var (k1, tag) := ReadRawStep(data, k, 2);
    if tag.None? then (k1, -1)
    else
      var (k2, len) := ReadRawStep(data, k1, LengthBits(tag.value));
      if len.None? then (k2, -1) else (k2, I32(len.value))
  }

  /** `peek_string_length`: everything but the fail flag is put back. */
  function PeekStep(data: seq<Bit>, k: Cursor): (r: (Cursor, int))
    requires k.In(data)
    ensures r.0.In(data)
    ensures k.fail ==> r.0 == k
  {
    var (k1, len) := ReadLengthStep(data, k);
    (k.(fail := k1.fail), len)
  }

  function ReadStringStep(data: seq<Bit>, k: Cursor, c: CharType, maxLength: Word): (r: (Cursor, Option<seq<int>>))
    requires k.In(data)
    ensures r.0.In(data)
    ensures r.1.Some? <==> !r.0.fail
    ensures r.1.Some? ==> |r.1.value| <= maxLength
  {
    if k.fail then (k, None)
    else
      var (k1, len) := ReadLengthStep(data, k);
      if len < 0 || len > maxLength || k1.pos + RunBits(c, len) > |data| then (k1.(fail := true), None)
      else (k1.(pos := k1.pos + RunBits(c, len)), Some(DecodeRun(data, k1.pos, c, len)))
  }

  datatype ReadOp =
    | ReadInt(t: IntType, min: int, max: int)
    | ReadBytes(size: nat)
    | ReadFloat
    | ReadDouble
    | ReadString(c: CharType, maxLength: Word)
    | PeekLength
  {
    predicate WellTyped() {
      ReadInt? ==> t.Has(min) && t.Has(max)
    }

    /** A byte block does not overrun the 32-bit counters unseen. */
    predicate Countable(data: seq<Bit>, k: Cursor) {
      ReadBytes? && !k.fail ==> OverflowSeen(k.pos, 8 * size, |data|)
    }
  }

  /** What one read call hands back; `Nothing` when it leaves its argument alone. */
  datatype Value =
    | Nothing
    | IntValue(v: int)
    | BytesValue(bytes: seq<int>)
    | FloatValue(raw: int)
    | DoubleValue(rawDouble: int)
    | StringValue(chars: seq<int>)
    | LengthValue(len: int)

  function ReadStep(data: seq<Bit>, k: Cursor, op: ReadOp): (r: (Cursor, Value))
    requires k.In(data) && op.WellTyped()
    ensures r.0.In(data)
  {
    match op
    case ReadInt(t, min, max) =>
      var (k1, v) := ReadIntStep(data, k, t, min, max);
      (k1, if v.Some? then IntValue(v.value) else Nothing)
    case ReadBytes(size) =>
      var (k1, v) := ReadBytesStep(data, k, size);
      (k1, if v.Some? then BytesValue(v.value) else Nothing)
    case ReadFloat =>
      var (k1, v) := ReadRawStep(data, k, 32);
      (k1, if v.Some? then FloatValue(v.value) else Nothing)
    case ReadDouble =>
      var (k1, v) := ReadRawStep(data, k, 64);
      (k1, if v.Some? then DoubleValue(v.value) else Nothing)
    case ReadString(c, maxLength) =>
      var (k1, v) := ReadStringStep(data, k, c, maxLength);
      (k1, if v.Some? then StringValue(v.value) else Nothing)
    case PeekLength =>
      var (k1, len) := PeekStep(data, k);
      (k1, LengthValue(len))
  }

  predicate AllReadsWellTyped(ops: List<ReadOp>) {
    ops.Cons? ==> ops.head.WellTyped() && AllReadsWellTyped(ops.tail)
  }

  /** No byte block of the program overruns the counters unseen where it is read. */
  predicate AllReadsCountable(data: seq<Bit>, k: Cursor, ops: List<ReadOp>)
    requires k.In(data) && AllReadsWellTyped(ops)
    decreases ops
  {
    ops.Cons? ==>
      ops.head.Countable(data, k) && AllReadsCountable(data, ReadStep(data, k, ops.head).0, ops.tail)
  }

  function RunReads(data: seq<Bit>, k: Cursor, ops: List<ReadOp>): (r: (Cursor, List<Value>))
    requires k.In(data) && AllReadsWellTyped(ops)
    ensures r.0.In(data)
    decreases ops
  {
    if ops.Nil? then (k, Nil)
    else
      var (k1, v) := ReadStep(data, k, ops.head);
      var (k2, vs) := RunReads(data, k1, ops.tail);
      (k2, Cons(v, vs))
  }

  // ---- Counters ----

  /** The check of a byte block, in 32-bit arithmetic, decides as on unbounded numbers if and only
      if it sees every overflow; it does so whenever the sum stays below 2^32. */
  lemma {:induction false} BlockCheckIsExactIff(used: Word, size: nat, total: Word)
    requires used <= total
    ensures (U32(used + U32(8 * size)) > total <==> used + 8 * size > total)
            <==> OverflowSeen(used, 8 * size, total)
    ensures used + 8 * size < TWO_32 ==> OverflowSeen(used, 8 * size, total)
  {
    WrapParts(used, 8 * size);
  }

  /** The check of a block of 2^29 bytes does not see the overflow of an 8-bit stream. */
  lemma {:induction false} BlockCheckWrapsAround()
    ensures U32(0 + U32(8 * 0x2000_0000)) <= 8 && !OverflowSeen(0, 8 * 0x2000_0000, 8)
  {
  }

  // ---- Field widths ----

  /** A field no wider than a type is a value of its unsigned type. */
  lemma {:induction false} FieldInType(data: seq<Bit>, pos: nat, t: IntType, bits: nat)
    requires pos + bits <= |data| && bits <= t.UWidth()
    ensures RawField(data, pos, bits) < t.Modulus()
  {
    ToFromBits(data[pos..pos + bits]);
    t.RawFieldInRange(RawField(data, pos, bits), bits);
  }

  /** The full range of a type takes exactly its width. */
  lemma {:induction false} FullField(t: IntType)
    requires t.Int?
    ensures t.FieldBits(t.Lo(), t.Hi()) == t.width
  {
    t.ModulusIsPow2();
    BitWidthOfMask(t.width);
  }

  lemma {:induction false} TagField()
    ensures UINT32.FieldBits(0, 3) == 2
  {
    assert BitWidth(3) == 1 + BitWidth(1) == 2;
  }

  /** A full-range ranged write is the full-width encoding; for an unsigned type it is the
      value itself. */
  lemma {:induction false} EncodeIntFull(t: IntType, v: int)
    requires t.Int? && t.Has(v)
    ensures EncodeInt(t, v, t.Lo(), t.Hi()) == EncodeFull(t, v)
    ensures !t.signed ==> EncodeFull(t, v) == ToBits(v, t.width)
  {
    FullField(t);
  }

  /** A full-range ranged read never rejects the field it finds. */
  lemma {:induction false} ReadIntFull(data: seq<Bit>, k: Cursor, t: IntType)
    requires k.In(data) && t.Int?
    ensures ReadIntStep(data, k, t, t.Lo(), t.Hi()).0 == ReadRawStep(data, k, t.width).0
    ensures k.Holds(data, t.width) ==>
              ReadIntStep(data, k, t, t.Lo(), t.Hi()).1 == Some(DecodeFull(data, k.pos, t))
    ensures !t.signed ==> ReadIntStep(data, k, t, t.Lo(), t.Hi()).1 == ReadRawStep(data, k, t.width).1
  {
    FullField(t);
    if k.pos + t.width <= |data| {
      FieldInType(data, k.pos, t, t.width);
    }
  }

  /** The checked read of the tag never rejects the field it finds. */
  lemma {:induction false} ReadTag(data: seq<Bit>, k: Cursor)
    requires k.In(data)
    ensures ReadIntStep(data, k, UINT32, 0, 3) == ReadRawStep(data, k, 2)
  {
    TagField();
    if k.pos + 2 <= |data| {
      ToFromBits(data[k.pos..k.pos + 2]);
      assert Pow2(2) == 4;
      FieldInType(data, k.pos, UINT32, 2);
    }
  }

  lemma {:induction false} RunBitsIsSize(t: IntType, n: nat)
    requires t.Int?
    ensures RunBits(t, n) == 8 * (n * SizeOf(t))
  {
    match t.width
    case 8 =>
    case 16 =>
    case 32 =>
    case _ =>
  }

  lemma {:induction false} PrefixIsSize(tag: nat)
    ensures LengthBits(tag) == 8 * SizeOf(Int(LengthBits(tag), false))
  {
  }

  lemma {:induction false} RunBitsAtLeast(t: IntType, n: nat)
    requires t.Int?
    ensures 8 * n <= RunBits(t, n)
  {
  }

  /** The tag picks the narrowest of the length types that can hold the length. */
  lemma {:induction false} NarrowestLengthType(len: nat)
    requires len < TWO_64
    ensures LengthTag(len) <= 3 && Int(LengthBits(LengthTag(len)), false).Has(len)
    ensures forall tag: nat :: tag < LengthTag(len) ==> !Int(LengthBits(tag), false).Has(len)
  {
  }

  /** A string accepted by a stream within the limit never has the 64-bit length prefix, and
      its length fits the signed size type. */
  lemma {:induction false} AcceptedStringIsShort(c: CharType, len: nat)
    requires |EncodeLength(len)| + RunBits(c, len) <= MAX_BITS
    ensures LengthTag(len) <= 2 && len < 0x8000_0000 && I32(len) == len
  {
    RunBitsAtLeast(c, len);
  }
}
