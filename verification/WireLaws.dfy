/** The wire format in plain numbers: how many bits each write takes and what they say, what each
    read takes and makes of them, and where a read that fails leaves the stream. */
module WireLaws {
  import opened Arithmetic
  import opened Bits
  import opened IntTypes
  import opened Lists
  import opened Format
  import opened RoundTrip

  // ---- What is covered ----

  /** The static types of a call are all that is asked of its arguments; the ranges may be anything,
      also upside down. */
  lemma {:induction false} CoveredWrites(t: IntType, data: int, min: int, max: int, bytes: seq<int>, c: CharType, chars: seq<int>)
    ensures t.Has(data) && t.Has(min) && t.Has(max) ==> WriteInt(t, data, min, max).WellTyped()
    ensures (forall i | 0 <= i < |bytes| :: 0 <= bytes[i] <= 255) ==> WriteBytes(bytes).WellTyped()
    ensures (forall i | 0 <= i < |chars| :: c.Has(chars[i])) && 32 * |chars| < 0x4000_0000_0000_0000 ==>
              WriteString(c, chars).WellTyped()
  {
  }

  lemma {:induction false} CoveredReads(t: IntType, min: int, max: int, op: ReadOp)
    ensures t.Has(min) && t.Has(max) ==> ReadInt(t, min, max).WellTyped()
    ensures !op.ReadInt? ==> op.WellTyped()
  {
  }

  // ---- What a write appends ----

  /** An integer takes as many bits as its range needs and no more, and they write its distance
      from the minimum. */
  lemma {:induction false} IntegerOnTheWire(t: IntType, data: int, min: int, max: int, w: nat)
    requires t.Has(data) && t.Has(min) && t.Has(max) && IsWidth((max - min) % t.Modulus(), w)
    ensures |Encode(WriteInt(t, data, min, max))| == w
    ensures min < max ==> w > 0 && Pow2(w - 1) <= max - min < Pow2(w)
    ensures min < max && min <= data <= max ==> FromBits(Encode(WriteInt(t, data, min, max))) == data - min
  {
    t.FieldIsNarrowest(min, max);
    BitWidthIsTheWidth((max - min) % t.Modulus(), w);
    BitWidthIsTheWidth((max - min) % t.Modulus(), t.FieldBits(min, max));
    if min < max && min <= data <= max {
      t.OffsetRoundTrip(data, min, max);
      FromToBits(data - min, w);
    }
  }

  /** Width of one value of a type, times their number. */
  lemma {:induction false} RunTakes(t: IntType, n: nat)
    requires t.Int?
    ensures RunBits(t, n) == n * t.width
  {
  }

  /** Value `i` of a run stands behind the `i` values before it, as its distance from the least
      value of its type. */
  lemma {:induction false} RunOnTheWire(t: IntType, vs: seq<int>, i: nat)
    requires t.Int? && AllOf(t, vs) && i < |vs|
    ensures RunBits(t, i) + t.width <= |EncodeRun(t, vs)|
    ensures RawField(EncodeRun(t, vs), RunBits(t, i), t.width) == vs[i] - t.Lo()
    decreases i
  {
    var head, rest := EncodeFull(t, vs[0]), EncodeRun(t, vs[1..]);
    assert EncodeRun(t, vs) == head + rest;
    if i == 0 {
      assert (head + rest)[0..t.width] == head;
      FullField(t);
      t.OffsetRoundTrip(vs[0], t.Lo(), t.Hi());
      FromToBits(vs[0] - t.Lo(), t.width);
    } else {
      RunOnTheWire(t, vs[1..], i - 1);
      FieldBehind(head, rest, RunBits(t, i - 1), t.width);
    }
  }

  lemma {:induction false} FieldBehind(a: seq<Bit>, b: seq<Bit>, pos: nat, bits: nat)
    requires pos + bits <= |b|
    ensures RawField(a + b, |a| + pos, bits) == RawField(b, pos, bits)
  {
    assert (a + b)[|a| + pos..|a| + pos + bits] == b[pos..pos + bits];
  }

  lemma {:induction false} FieldInFront(a: seq<Bit>, b: seq<Bit>, pos: nat, bits: nat)
    requires pos + bits <= |a|
    ensures RawField(a + b, pos, bits) == RawField(a, pos, bits)
  {
    assert (a + b)[pos..pos + bits] == a[pos..pos + bits];
  }

  /** A byte block takes 8 bits a byte, and they write the bytes in order. */
  lemma {:induction false} BytesOnTheWire(bytes: seq<int>, i: nat)
    requires WriteBytes(bytes).WellTyped() && i < |bytes|
    ensures |Encode(WriteBytes(bytes))| == 8 * |bytes|
    ensures RawField(Encode(WriteBytes(bytes)), 8 * i, 8) == bytes[i]
  {
    RunOnTheWire(UINT8, bytes, i);
  }

  /** Floats and doubles take the bits of their pattern. */
  lemma {:induction false} FloatsOnTheWire(raw: Word, rawDouble: Scratch)
    ensures |Encode(WriteFloat(raw))| == 32 && FromBits(Encode(WriteFloat(raw))) == raw
    ensures |Encode(WriteDouble(rawDouble))| == 64 && FromBits(Encode(WriteDouble(rawDouble))) == rawDouble
  {
    Pow2Values();
    FromToBits(raw, 32);
    FromToBits(rawDouble, 64);
  }

  /** The tags name lengths of 8, 16, 32 and 64 bits. */
  lemma {:induction false} TagsAndWidths()
    ensures LengthBits(0) == 8 && LengthBits(1) == 16 && LengthBits(2) == 32 && LengthBits(3) == 64
  {
  }

  /** A string takes two bits of tag, the length in the type the tag names, and its characters. */
  lemma {:induction false} StringOnTheWire(c: CharType, chars: seq<int>)
    requires WriteString(c, chars).WellTyped() && |chars| < TWO_64
    ensures var bs := Encode(WriteString(c, chars));
            var tag := LengthTag(|chars|);
            && |bs| == 2 + LengthBits(tag) + |chars| * c.width
            && RawField(bs, 0, 2) == tag && RawField(bs, 2, LengthBits(tag)) == |chars|
  {
    var n, tag, bits := |chars|, LengthTag(|chars|), LengthBits(LengthTag(|chars|));
    var prefix, text := EncodeLength(n), EncodeRun(c, chars);
    LengthFitsPrefix(n);
    RunTakes(c, n);
    FieldInFront(prefix, text, 0, 2);
    FieldInFront(prefix, text, 2, bits);
    AtSplit(prefix, 0, ToBits(tag, 2), ToBits(n, bits));
    assert At(prefix, 0, prefix);
    RawFieldAt(prefix, 0, tag, 2);
    RawFieldAt(prefix, 2, n, bits);
  }

  lemma {:induction false} CharactersOnTheWire(c: CharType, chars: seq<int>, i: nat)
    requires WriteString(c, chars).WellTyped() && i < |chars|
    ensures var start := 2 + LengthBits(LengthTag(|chars|)) + i * c.width;
            && start + c.width <= |Encode(WriteString(c, chars))|
            && RawField(Encode(WriteString(c, chars)), start, c.width) == chars[i] - c.Lo()
  {
    RunTakes(c, i);
    RunOnTheWire(c, chars, i);
    FieldBehind(EncodeLength(|chars|), EncodeRun(c, chars), RunBits(c, i), c.width);
  }

  /** Exactly when a write is rejected; a rejected write sets the fail flag and nothing else, an
      accepted one appends its bits and nothing else. */
  lemma {:induction false} WriteOutcome(s: WriterState, op: Op)
    requires op.WellTyped()
    ensures WriteStep(s, op).fail <==>
            || s.fail
            || s.flushed
            || (op.WriteInt? && (op.min >= op.max || op.data < op.min || op.data > op.max))
            || |s.stream| + |Encode(op)| > s.total
    ensures WriteStep(s, op) == if WriteStep(s, op).fail then s.(fail := true) else s.(stream := s.stream + Encode(op))
  {
  }

  // ---- What a read makes of the bits ----

  /** A checked integer read, on any bits: it fails where it stands for an invalid range, for too
      few bits, and for a value above the maximum; otherwise it takes the bits of the range and
      hands out their number added to the minimum, wrapped around. */
  lemma {:induction false} IntegerFromTheWire(data: seq<Bit>, k: Cursor, t: IntType, min: int, max: int, w: nat)
    requires k.In(data) && t.Has(min) && t.Has(max) && IsWidth((max - min) % t.Modulus(), w)
    ensures k.fail || min >= max || k.pos + w > |data| ==>
              ReadIntStep(data, k, t, min, max) == (k.(fail := true), None)
    ensures !k.fail && min < max && k.pos + w <= |data| ==>
              var sum := min + RawField(data, k.pos, w);
              var v := if sum <= t.Hi() then sum else sum - t.Modulus();
              ReadIntStep(data, k, t, min, max)
              == if v > max then (k.(fail := true), None) else (k.(pos := k.pos + w), Some(v))
  {
    hide IntType.FieldBits, IntType.Restore, IntType.Modulus, RawField;
    t.ModulusIsPow2();
    BitWidthIsTheWidth((max - min) % t.Modulus(), w);
    t.FieldIsNarrowest(min, max);
    BitWidthIsTheWidth((max - min) % t.Modulus(), t.FieldBits(min, max));
    if !k.fail && min < max && k.pos + w <= |data| {
      FieldInType(data, k.pos, t, w);
      t.RestoreIsWrappedSum(RawField(data, k.pos, w), min);
      if t.Bool? {
        BoolField(data, k.pos, w);
      }
    }
  }

  lemma {:induction false} BoolField(data: seq<Bit>, pos: nat, w: nat)
    requires w == Bool.FieldBits(0, 1) && pos + w <= |data|
    ensures RawField(data, pos, w) <= 1
  {
    Bool.FieldIsNarrowest(0, 1);
    assert Pow2(1) == 2;
    BitWidthIsTheWidth(1, 1);
    BitWidthIsTheWidth(1, w);
    ToFromBits(data[pos..pos + w]);
  }

  /** Raw bits: all of them, or a failure on the spot. */
  lemma {:induction false} RawFromTheWire(data: seq<Bit>, k: Cursor, bits: nat)
    requires k.In(data)
    ensures ReadRawStep(data, k, bits)
            == if k.Holds(data, bits) then (k.(pos := k.pos + bits), Some(RawField(data, k.pos, bits)))
               else (k.(fail := true), None)
  {
  }

  /** Value `i` of a run is the field at its place, counted from the least value of its type. */
  lemma {:induction false} RunFromTheWire(data: seq<Bit>, pos: nat, t: IntType, n: nat, i: nat)
    requires t.Int? && i < n && pos + RunBits(t, n) <= |data|
    ensures pos + RunBits(t, i) + t.width <= |data|
    ensures DecodeRun(data, pos, t, n)[i] == t.Lo() + RawField(data, pos + RunBits(t, i), t.width)
    decreases i
  {
    if i == 0 {
      FieldInType(data, pos, t, t.width);
      t.RestoreIsWrappedSum(RawField(data, pos, t.width), t.Lo());
    } else {
      RunFromTheWire(data, pos + t.width, t, n - 1, i - 1);
    }
  }

  /** A byte block: all bytes in order, or a failure on the spot. */
  lemma {:induction false} BytesFromTheWire(data: seq<Bit>, k: Cursor, size: nat)
    requires k.In(data)
    ensures !k.Holds(data, 8 * size) ==> ReadBytesStep(data, k, size) == (k.(fail := true), None)
    ensures k.Holds(data, 8 * size) ==>
              var r := ReadBytesStep(data, k, size);
              && r.0 == k.(pos := k.pos + 8 * size) && r.1.Some? && |r.1.value| == size
              && forall i | 0 <= i < size :: r.1.value[i] == RawField(data, k.pos + 8 * i, 8)
  {
    if k.Holds(data, 8 * size) {
      forall i | 0 <= i < size
        ensures DecodeRun(data, k.pos, UINT8, size)[i] == RawField(data, k.pos + 8 * i, 8)
      {
        RunFromTheWire(data, k.pos, UINT8, size, i);
      }
    }
  }

  /** Reading a string length, on any bits: with the tag cut off the stream fails where it stands,
      with the length cut off it fails behind the tag, and otherwise it stands behind the length,
      which is handed out as a wrapped signed number. */
  lemma {:induction false} LengthFromTheWire(data: seq<Bit>, k: Cursor)
    requires k.In(data)
    ensures k.fail || k.pos + 2 > |data| ==> ReadLengthStep(data, k) == (k.(fail := true), -1)
    ensures !k.fail && k.pos + 2 <= |data| && !Announced(data, k) ==>
              ReadLengthStep(data, k) == (Cursor(k.pos + 2, true), -1)
    ensures Announced(data, k) ==>
              ReadLengthStep(data, k) == (Cursor(BehindPrefix(data, k), false), I32(AnnouncedLength(data, k)))
  {
    hide RawField;
  }

  /** Peeking hands out the same and leaves everything but the fail flag, on a failed reader too. */
  lemma {:induction false} PeekFromTheWire(data: seq<Bit>, k: Cursor)
    requires k.In(data)
    ensures !Announced(data, k) ==> PeekStep(data, k) == (k.(fail := true), -1)
    ensures Announced(data, k) ==> PeekStep(data, k) == (k, I32(AnnouncedLength(data, k)))
  {
    LengthFromTheWire(data, k);
  }

  /** Reading a string, on any bits. The failing cases leave the stream where reading the length
      left it; otherwise all characters are handed out in order. */
  lemma {:induction false} StringFromTheWire(data: seq<Bit>, k: Cursor, c: CharType, maxLength: Word)
    requires k.In(data)
    ensures k.fail || k.pos + 2 > |data| ==> ReadStringStep(data, k, c, maxLength) == (k.(fail := true), None)
    ensures !k.fail && k.pos + 2 <= |data| && !Announced(data, k) ==>
              ReadStringStep(data, k, c, maxLength) == (Cursor(k.pos + 2, true), None)
    ensures Announced(data, k) ==>
              var start, n := BehindPrefix(data, k), I32(AnnouncedLength(data, k));
              var r := ReadStringStep(data, k, c, maxLength);
              if 0 <= n <= maxLength && start + n * c.width <= |data| then
                && r.0 == Cursor(start + n * c.width, false) && r.1.Some? && |r.1.value| == n
                && forall i | 0 <= i < n ::
                     r.1.value[i] == c.Lo() + RawField(data, start + RunBits(c, i), c.width)
              else r == (Cursor(start, true), None)
  {
    hide RawField, ReadLengthStep;
    LengthFromTheWire(data, k);
    if Announced(data, k) {
      var start, n := BehindPrefix(data, k), I32(AnnouncedLength(data, k));
      if n >= 0 {
        RunTakes(c, n);
        if n <= maxLength && start + RunBits(c, n) <= |data| {
          forall i | 0 <= i < n
            ensures start + RunBits(c, i) + c.width <= |data|
            ensures DecodeRun(data, start, c, n)[i] == c.Lo() + RawField(data, start + RunBits(c, i), c.width)
          {
            RunFromTheWire(data, start, c, n, i);
          }
        }
      }
    }
  }

  /** Any read of a program: a failing integer, float, double or byte block leaves the position; a
      failing read of any kind hands out nothing, a failing peek -1. */
  lemma {:induction false} FailingRead(data: seq<Bit>, k: Cursor, op: ReadOp)
    requires k.In(data) && op.WellTyped() && ReadStep(data, k, op).0.fail
    ensures !op.ReadString? ==> ReadStep(data, k, op).0 == k.(fail := true)
    ensures ReadStep(data, k, op).1 == if op.PeekLength? then LengthValue(-1) else Nothing
  {
    hide RawField, IntType.FieldBits, IntType.Restore, DecodeRun, ReadLengthStep, PeekStep;
    if op.PeekLength? {
      PeekFromTheWire(data, k);
    }
  }

  /** What a read that does not fail hands out is what its own kind of read found: an integer, the
      bytes, the 32 bits of a float, the 64 bits of a double, the string, the length. */
  lemma {:induction false} SucceedingRead(data: seq<Bit>, k: Cursor, op: ReadOp)
    requires k.In(data) && op.WellTyped() && !ReadStep(data, k, op).0.fail
    ensures op.ReadInt? ==> ReadIntStep(data, k, op.t, op.min, op.max).1.Some?
                            && ReadStep(data, k, op) == (ReadIntStep(data, k, op.t, op.min, op.max).0,
                                                         IntValue(ReadIntStep(data, k, op.t, op.min, op.max).1.value))
    ensures op.ReadBytes? ==> ReadBytesStep(data, k, op.size).1.Some?
                              && ReadStep(data, k, op) == (k.(pos := k.pos + 8 * op.size),
                                                           BytesValue(ReadBytesStep(data, k, op.size).1.value))
    ensures op.ReadFloat? ==> k.Holds(data, 32)
                              && ReadStep(data, k, op) == (k.(pos := k.pos + 32), FloatValue(RawField(data, k.pos, 32)))
    ensures op.ReadDouble? ==> k.Holds(data, 64)
                               && ReadStep(data, k, op) == (k.(pos := k.pos + 64), DoubleValue(RawField(data, k.pos, 64)))
    ensures op.ReadString? ==> ReadStringStep(data, k, op.c, op.maxLength).1.Some?
                               && ReadStep(data, k, op) == (ReadStringStep(data, k, op.c, op.maxLength).0,
                                                            StringValue(ReadStringStep(data, k, op.c, op.maxLength).1.value))
    ensures op.PeekLength? ==> Announced(data, k) && ReadStep(data, k, op) == (k, LengthValue(I32(AnnouncedLength(data, k))))
  {
    hide RawField, IntType.FieldBits, IntType.Restore, DecodeRun, ReadLengthStep, PeekStep;
    if op.PeekLength? {
      PeekFromTheWire(data, k);
    }
  }
}
