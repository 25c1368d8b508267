/** The laws of the wire format over whole programs: what a run of writes leaves in the stream,
    reading it back, adjacent fields, what a read accepts, and peeking. */
module RoundTrip {
  import opened Arithmetic
  import opened Bits
  import opened IntTypes
  import opened Lists
  import opened Format

  // ---- Runs of writes ----

  lemma {:induction false} EncodeAllConcat(a: List<Op>, b: List<Op>)
    requires AllWellTyped(a) && AllWellTyped(b)
    ensures AllWellTyped(Concat(a, b))
    ensures EncodeAll(Concat(a, b)) == EncodeAll(a) + EncodeAll(b)
  {
    if a.Cons? {
      EncodeAllConcat(a.tail, b);
      Assoc(Encode(a.head), EncodeAll(a.tail), EncodeAll(b));
    }
  }

  /** Once failed, nothing moves any more. */
  lemma {:induction false} FailureIsSticky(s: WriterState, ops: List<Op>)
    requires AllWellTyped(ops) && s.fail
    ensures RunWrites(s, ops) == s && FlushStep(RunWrites(s, ops)) == s
    decreases ops
  {
    if ops.Cons? {
      FailureIsSticky(s, ops.tail);
    }
  }

  /** A run of writes on an open stream succeeds if and only if every argument is in range and
      the whole encoding fits; the stream then grows by exactly that encoding. */
  lemma {:induction false} RunSucceedsIff(s: WriterState, ops: List<Op>)
    requires AllWellTyped(ops) && !s.fail && !s.flushed && |s.stream| <= s.total
    ensures !RunWrites(s, ops).fail <==>
            AllInRange(ops) && |s.stream| + |EncodeAll(ops)| <= s.total
    ensures !RunWrites(s, ops).fail ==>
            RunWrites(s, ops) == s.(stream := s.stream + EncodeAll(ops))
    decreases ops
  {
    if ops.Nil? {
      assert s.stream + [] == s.stream;
    } else {
      var s1 := WriteStep(s, ops.head);
      if s1.fail {
        FailureIsSticky(s1, ops.tail);
      } else {
        RunSucceedsIff(s1, ops.tail);
        Assoc(s.stream, Encode(ops.head), EncodeAll(ops.tail));
      }
    }
  }

  /** The same for a fresh writer, which ends up holding exactly the encoding. */
  lemma {:induction false} FreshRun(total: nat, ops: List<Op>)
    requires AllWellTyped(ops)
    ensures !RunWrites(FreshWriter(total, false), ops).fail <==>
            AllInRange(ops) && |EncodeAll(ops)| <= total
    ensures !RunWrites(FreshWriter(total, false), ops).fail ==>
            RunWrites(FreshWriter(total, false), ops) == WriterState(total, EncodeAll(ops), false, false, false)
  {
    RunSucceedsIff(FreshWriter(total, false), ops);
    assert [] + EncodeAll(ops) == EncodeAll(ops);
  }

  /** A program that fits the stream never overruns the counters: its blocks are below the total. */
  lemma {:induction false} FittingIsCountable(s: WriterState, ops: List<Op>)
    requires AllWellTyped(ops) && |s.stream| + |EncodeAll(ops)| <= s.total
    ensures AllCountable(s, ops)
    decreases ops
  {
    if ops.Cons? {
      var s1 := WriteStep(s, ops.head);
      assert |s1.stream| <= |s.stream| + |Encode(ops.head)|;
      FittingIsCountable(s1, ops.tail);
    }
  }

  /** The writes before the first rejected one. */
  function Accepted(s: WriterState, ops: List<Op>): (prefix: List<Op>)
    requires AllWellTyped(ops)
    ensures AllWellTyped(prefix)
    decreases ops
  {
    if ops.Nil? || WriteStep(s, ops.head).fail then Nil
    else Cons(ops.head, Accepted(WriteStep(s, ops.head), ops.tail))
  }

  /** A failing run keeps exactly the encoding of the writes before the first rejected one,
      and it fails if and only if there is a rejected one. */
  lemma {:induction false} FailureIsAtomic(s: WriterState, ops: List<Op>)
    requires AllWellTyped(ops) && !s.fail
    ensures RunWrites(s, ops).stream == s.stream + EncodeAll(Accepted(s, ops))
    ensures RunWrites(s, ops).fail <==> Accepted(s, ops) != ops
    decreases ops
  {
    if ops.Nil? {
      assert s.stream + [] == s.stream;
    } else {
      var s1 := WriteStep(s, ops.head);
      if s1.fail {
        FailureIsSticky(s1, ops.tail);
        assert s.stream + [] == s.stream;
      } else {
        FailureIsAtomic(s1, ops.tail);
        Assoc(s.stream, Encode(ops.head), EncodeAll(Accepted(s1, ops.tail)));
      }
    }
  }

  /** They are indeed the first writes of the program, none of them is rejected, and the next one,
      if any, is. */
  lemma {:induction false} AcceptedIsPrefix(s: WriterState, ops: List<Op>) returns (rest: List<Op>)
    requires AllWellTyped(ops) && !s.fail
    ensures ops == Concat(Accepted(s, ops), rest) && AllWellTyped(rest)
    ensures !RunWrites(s, Accepted(s, ops)).fail
    ensures rest.Cons? ==> WriteStep(RunWrites(s, Accepted(s, ops)), rest.head).fail
    decreases ops
  {
    if ops.Nil? || WriteStep(s, ops.head).fail {
      rest := ops;
    } else {
      rest := AcceptedIsPrefix(WriteStep(s, ops.head), ops.tail);
    }
  }

  /** A program in two parts runs as the one after the other. */
  lemma {:induction false} RunInParts(s: WriterState, a: List<Op>, b: List<Op>)
    requires AllWellTyped(a) && AllWellTyped(b)
    ensures AllWellTyped(Concat(a, b))
    ensures RunWrites(s, Concat(a, b)) == RunWrites(RunWrites(s, a), b)
    decreases a
  {
    if a.Cons? {
      RunInParts(WriteStep(s, a.head), a.tail, b);
    }
  }

  /** A successful final flush closes the stream: whatever is written afterwards, the writer fails
      at the first write and keeps the stream as it was. */
  lemma {:induction false} NothingAfterFlush(s: WriterState, ops: List<Op>)
    requires AllWellTyped(ops) && !s.fail
    ensures FlushStep(s) == s.(flushed := true)
    ensures RunWrites(FlushStep(s), ops) == if ops.Nil? then s.(flushed := true) else s.(flushed := true, fail := true)
  {
    if ops.Cons? {
      FailureIsSticky(s.(flushed := true, fail := true), ops.tail);
    }
  }

  /** A writer whose buffer was refused accepts nothing. */
  lemma {:induction false} NothingWithoutBuffer(total: nat, ops: List<Op>)
    requires AllWellTyped(ops)
    ensures RunWrites(FreshWriter(total, true), ops) == WriterState(total, [], true, true, false)
  {
    FailureIsSticky(FreshWriter(total, true), ops);
  }

  // ---- Reading back ----

  /** The bits `bs` stand at `pos`. */
  predicate At(data: seq<Bit>, pos: nat, bs: seq<Bit>) {
    pos + |bs| <= |data| && data[pos..pos + |bs|] == bs
  }

  lemma {:induction false} AtSplit(data: seq<Bit>, pos: nat, a: seq<Bit>, b: seq<Bit>)
    ensures At(data, pos, a + b) <==> At(data, pos, a) && At(data, pos + |a|, b)
  {
    if pos + |a| + |b| <= |data| {
      var mid, end := pos + |a|, pos + |a| + |b|;
      assert data[pos..end] == data[pos..mid] + data[mid..end];
      assert (a + b)[..|a|] == a && (a + b)[|a|..] == b;
    }
  }

  lemma {:induction false} RawFieldAt(data: seq<Bit>, pos: nat, v: nat, bits: nat)
    requires v < Pow2(bits) && At(data, pos, ToBits(v, bits))
    ensures RawField(data, pos, bits) == v
  {
    FromToBits(v, bits);
  }

  lemma {:induction false} ReadBackInt(data: seq<Bit>, k: Cursor, t: IntType, v: int, min: int, max: int)
    requires k.In(data) && !k.fail
    requires t.Has(v) && t.Has(min) && t.Has(max) && min < max && min <= v <= max
    requires At(data, k.pos, EncodeInt(t, v, min, max))
    ensures ReadIntStep(data, k, t, min, max) == (k.(pos := k.pos + t.FieldBits(min, max)), Some(v))
  {
    t.OffsetRoundTrip(v, min, max);
    RawFieldAt(data, k.pos, t.Offset(v, min), t.FieldBits(min, max));
  }

  lemma {:induction false} ReadBackRaw(data: seq<Bit>, k: Cursor, v: nat, bits: nat)
    requires k.In(data) && !k.fail && v < Pow2(bits) && At(data, k.pos, ToBits(v, bits))
    ensures ReadRawStep(data, k, bits) == (k.(pos := k.pos + bits), Some(v))
  {
    RawFieldAt(data, k.pos, v, bits);
  }

  lemma {:induction false} ReadBackFull(data: seq<Bit>, pos: nat, t: IntType, v: int)
    requires t.Int? && t.Has(v) && At(data, pos, EncodeFull(t, v))
    ensures DecodeFull(data, pos, t) == v
  {
    FullField(t);
    t.OffsetRoundTrip(v, t.Lo(), t.Hi());
    RawFieldAt(data, pos, t.Offset(v, t.Lo()), t.width);
  }

  lemma {:induction false} ReadBackRun(data: seq<Bit>, pos: nat, t: IntType, vs: seq<int>)
    requires t.Int? && AllOf(t, vs) && At(data, pos, EncodeRun(t, vs))
    ensures DecodeRun(data, pos, t, |vs|) == vs
    decreases |vs|
  {
    if vs != [] {
      AtSplit(data, pos, EncodeFull(t, vs[0]), EncodeRun(t, vs[1..]));
      ReadBackFull(data, pos, t, vs[0]);
      ReadBackRun(data, pos + t.width, t, vs[1..]);
    }
  }

  lemma {:induction false} LengthFitsPrefix(len: nat)
    requires len < TWO_64
    ensures LengthTag(len) < Pow2(2) && len < Pow2(LengthBits(LengthTag(len)))
  {
    Pow2Values();
  }

  lemma {:induction false} ReadBackLength(data: seq<Bit>, k: Cursor, len: nat)
    requires k.In(data) && !k.fail && len < TWO_64
    requires At(data, k.pos, EncodeLength(len))
    ensures ReadLengthStep(data, k) == (k.(pos := k.pos + |EncodeLength(len)|), I32(len))
  {
    var tag, bits := LengthTag(len), LengthBits(LengthTag(len));
    LengthFitsPrefix(len);
    AtSplit(data, k.pos, ToBits(tag, 2), ToBits(len, bits));
    ReadBackRaw(data, k, tag, 2);
    ReadBackRaw(data, k.(pos := k.pos + 2), len, bits);
  }

  /** A string reads back through its length prefix. */
  lemma {:induction false} ReadBackString(data: seq<Bit>, k: Cursor, c: CharType, chars: seq<int>, maxLength: Word)
    requires k.In(data) && !k.fail && |data| <= MAX_BITS && AllOf(c, chars) && |chars| <= maxLength
    requires At(data, k.pos, EncodeLength(|chars|) + EncodeRun(c, chars))
    ensures ReadStringStep(data, k, c, maxLength)
            == (k.(pos := k.pos + |EncodeLength(|chars|)| + RunBits(c, |chars|)), Some(chars))
  {
    var prefix := EncodeLength(|chars|);
    AtSplit(data, k.pos, prefix, EncodeRun(c, chars));
    AcceptedStringIsShort(c, |chars|);
    ReadBackLength(data, k, |chars|);
    ReadBackRun(data, k.pos + |prefix|, c, chars);
  }

  /** The read that fits a write: same type and range, same size, room for the string. */
  predicate Matches(op: Op, read: ReadOp) {
    match op
    case WriteInt(t, _, min, max) => read == ReadInt(t, min, max)
    case WriteBytes(bytes) => read == ReadBytes(|bytes|)
    case WriteFloat(_) => read == ReadFloat
    case WriteDouble(_) => read == ReadDouble
    case WriteString(c, chars) => read.ReadString? && read.c == c && |chars| <= read.maxLength
  }

  function Written(op: Op): Value {
    match op
    case WriteInt(_, data, _, _) => IntValue(data)
    case WriteBytes(bytes) => BytesValue(bytes)
    case WriteFloat(raw) => FloatValue(raw)
    case WriteDouble(raw) => DoubleValue(raw)
    case WriteString(_, chars) => StringValue(chars)
  }

  lemma {:induction false} ReadBackOp(data: seq<Bit>, k: Cursor, op: Op, read: ReadOp)
    requires k.In(data) && !k.fail && |data| <= MAX_BITS
    requires op.WellTyped() && op.InRange() && Matches(op, read) && read.WellTyped()
    requires At(data, k.pos, Encode(op))
    ensures ReadStep(data, k, read) == (k.(pos := k.pos + |Encode(op)|), Written(op))
  {
    hide ReadIntStep, ReadRawStep, ReadStringStep, DecodeRun, EncodeRun, ToBits;
    match op
    case WriteInt(t, v, min, max) =>
      ReadBackInt(data, k, t, v, min, max);
    case WriteBytes(bytes) =>
      ReadBackRun(data, k.pos, UINT8, bytes);
    case WriteFloat(raw) =>
      assert raw < Pow2(32) by { Pow2Values(); }
      ReadBackRaw(data, k, raw, 32);
    case WriteDouble(raw) =>
      assert raw < Pow2(64) by { Pow2Values(); }
      ReadBackRaw(data, k, raw, 64);
    case WriteString(c, chars) =>
      ReadBackString(data, k, c, chars, read.maxLength);
  }

  predicate AllMatch(ops: List<Op>, schema: List<ReadOp>) {
    if ops.Nil? || schema.Nil? then ops.Nil? && schema.Nil?
    else Matches(ops.head, schema.head) && AllMatch(ops.tail, schema.tail)
  }

  /** Every program has a matching list of reads, as long as its strings have 32-bit lengths. */
  lemma {:induction false} MatchingReadsExist(ops: List<Op>) returns (schema: List<ReadOp>)
    requires AllWellTyped(ops) && AllStringsShort(ops)
    ensures AllMatch(ops, schema) && AllReadsWellTyped(schema)
  {
    if ops.Nil? {
      schema := Nil;
    } else {
      var rest := MatchingReadsExist(ops.tail);
      var read :=
        match ops.head
        case WriteInt(t, _, min, max) => ReadInt(t, min, max)
        case WriteBytes(bytes) => ReadBytes(|bytes|)
        case WriteFloat(_) => ReadFloat
        case WriteDouble(_) => ReadDouble
        case WriteString(c, chars) => ReadString(c, |chars|);
      schema := Cons(read, rest);
    }
  }

  predicate AllStringsShort(ops: List<Op>) {
    ops.Cons? ==> (ops.head.WriteString? ==> |ops.head.chars| < TWO_32) && AllStringsShort(ops.tail)
  }

  function AllWritten(ops: List<Op>): List<Value> {
    if ops.Nil? then Nil else Cons(Written(ops.head), AllWritten(ops.tail))
  }

  /** Whole-stream round trip: for every list of valid writes of any kind, a reader standing at
      their encoding succeeds at every read of the matching list, returns every value, and ends
      exactly behind the encoding. */
  lemma {:induction false} ReadBackAll(data: seq<Bit>, k: Cursor, ops: List<Op>, schema: List<ReadOp>)
    requires k.In(data) && !k.fail && |data| <= MAX_BITS
    requires AllWellTyped(ops) && AllInRange(ops) && AllMatch(ops, schema) && AllReadsWellTyped(schema)
    requires At(data, k.pos, EncodeAll(ops))
    ensures RunReads(data, k, schema) == (k.(pos := k.pos + |EncodeAll(ops)|), AllWritten(ops))
    ensures AllReadsCountable(data, k, schema)
    decreases ops
  {
    if ops.Cons? {
      hide Encode, ReadStep, Matches, Op.WellTyped, Op.InRange, ReadOp.Countable, At;
      var k1 := ReadBackHead(data, k, ops, schema);
      ReadBackAll(data, k1, ops.tail, schema.tail);
      RunReadsCons(data, k, schema, k1, Written(ops.head));
    }
  }

  lemma {:induction false} RunReadsCons(data: seq<Bit>, k: Cursor, schema: List<ReadOp>, k1: Cursor, v: Value)
    requires k.In(data) && schema.Cons? && AllReadsWellTyped(schema)
    requires ReadStep(data, k, schema.head) == (k1, v)
    ensures k1.In(data)
    ensures RunReads(data, k, schema)
            == (RunReads(data, k1, schema.tail).0, Cons(v, RunReads(data, k1, schema.tail).1))
  {
  }

  lemma {:induction false} ReadBackHead(data: seq<Bit>, k: Cursor, ops: List<Op>, schema: List<ReadOp>) returns (k1: Cursor)
    requires k.In(data) && !k.fail && |data| <= MAX_BITS && ops.Cons?
    requires AllWellTyped(ops) && AllInRange(ops) && AllMatch(ops, schema) && AllReadsWellTyped(schema)
    requires At(data, k.pos, EncodeAll(ops))
    ensures ReadStep(data, k, schema.head) == (k1, Written(ops.head))
    ensures k1.In(data) && !k1.fail && At(data, k1.pos, EncodeAll(ops.tail))
    ensures schema.head.Countable(data, k)
    ensures k1.pos + |EncodeAll(ops.tail)| == k.pos + |EncodeAll(ops)|
  {
    AtSplit(data, k.pos, Encode(ops.head), EncodeAll(ops.tail));
    ReadBackOp(data, k, ops.head, schema.head);
    k1 := k.(pos := k.pos + |Encode(ops.head)|);
  }

  /** Reader and writer agree on the used bits after every step: however a successful program is
      cut in two, after the reads for its first part the reader stands where the writer stood
      after writing it. */
  lemma {:induction false} InStep(total: nat, data: seq<Bit>, a: List<Op>, b: List<Op>, schema: List<ReadOp>)
    requires AllWellTyped(a) && AllWellTyped(b) && AllMatch(a, schema) && AllReadsWellTyped(schema)
    requires AllWellTyped(Concat(a, b)) && !RunWrites(FreshWriter(total, false), Concat(a, b)).fail
    requires RunWrites(FreshWriter(total, false), Concat(a, b)).stream <= data && |data| <= MAX_BITS
    ensures RunReads(data, Cursor(0, false), schema)
            == (Cursor(|RunWrites(FreshWriter(total, false), a).stream|, false), AllWritten(a))
  {
    hide Encode, RunWrites, RunReads, EncodeAll, AllReadsCountable;
    FreshRun(total, Concat(a, b));
    EncodeAllConcat(a, b);
    InRangePrefix(a, b);
    FreshRun(total, a);
    AtSplit(data, 0, EncodeAll(a), EncodeAll(b));
    ReadBackAll(data, Cursor(0, false), a, schema);
  }

  lemma {:induction false} InRangePrefix(a: List<Op>, b: List<Op>)
    requires AllInRange(Concat(a, b))
    ensures AllInRange(a)
  {
    if a.Cons? {
      InRangePrefix(a.tail, b);
    }
  }

  // ---- Adjacent fields ----

  /** A field of n + m bits reads as the adjacent fields of its low n and its high m bits. */
  lemma {:induction false} SplitField(data: seq<Bit>, pos: nat, n: nat, m: nat)
    requires pos + n + m <= |data|
    ensures RawField(data, pos, n) == Low(RawField(data, pos, n + m), n)
    ensures RawField(data, pos + n, m) == Shr(RawField(data, pos, n + m), n)
  {
    var field := data[pos..pos + n + m];
    var v := RawField(data, pos, n + m);
    ToFromBits(field);
    ToBitsSplit(v, n, m);
    ShrBound(v, m, n);
    LowBound(v, n);
    assert data[pos..pos + n] == field[..n] && data[pos + n..pos + n + m] == field[n..];
    FromToBits(Low(v, n), n);
    FromToBits(Shr(v, n), m);
  }

  // ---- What a read accepts ----

  /** Exact acceptance of a checked read on arbitrary bits: with a valid range and enough bits
      left it succeeds if and only if the field, added to `min` with wrap-around, is at most
      `max`; those are the fields up to max - min and the ones that wrap below the type. If the
      largest field does not carry `min` out of the type, they are exactly the former, and every
      accepted result is in the range. */
  lemma {:induction false} ReadAcceptsExactly(data: seq<Bit>, k: Cursor, t: IntType, min: int, max: int)
    requires k.In(data) && t.Has(min) && t.Has(max)
    requires min < max && k.Holds(data, t.FieldBits(min, max))
    ensures var value := RawField(data, k.pos, t.FieldBits(min, max));
            var r := ReadIntStep(data, k, t, min, max);
            && (r.1.Some? <==> value <= max - min || value > t.Hi() - min)
            && (r.1.Some? && min <= r.1.value <==> value <= max - min)
            && (value <= max - min ==> r.1 == Some(min + value))
            && (value > t.Hi() - min ==> r.1 == Some(min + value - t.Modulus()))
            && (min + Pow2(t.FieldBits(min, max)) - 1 <= t.Hi() && r.1.Some? ==> min <= r.1.value <= max)
            && r.0 == if r.1.Some? then k.(pos := k.pos + t.FieldBits(min, max)) else k.(fail := true)
  {
    hide IntType.FieldBits, IntType.Restore;
    var bits := t.FieldBits(min, max);
    FieldInType(data, k.pos, t, bits);
    ToFromBits(data[k.pos..k.pos + bits]);
    t.AcceptedExactly(RawField(data, k.pos, bits), min, max);
  }

  /** The tag at the position and the length it announces are there. */
  predicate Announced(data: seq<Bit>, k: Cursor) {
    !k.fail && k.pos + 2 <= |data| && k.pos + 2 + LengthBits(RawField(data, k.pos, 2)) <= |data|
  }

  /** The length stored behind the tag. */
  function AnnouncedLength(data: seq<Bit>, k: Cursor): nat
    requires Announced(data, k)
  {
    RawField(data, k.pos + 2, LengthBits(RawField(data, k.pos, 2)))
  }

  /** Where the characters of the announced string start. */
  function BehindPrefix(data: seq<Bit>, k: Cursor): nat
    requires Announced(data, k)
  {
    k.pos + 2 + LengthBits(RawField(data, k.pos, 2))
  }

  /** A written length prefix announces the length it was written for. */
  lemma {:induction false} WrittenLengthIsAnnounced(data: seq<Bit>, k: Cursor, len: nat)
    requires k.In(data) && !k.fail && len < TWO_64 && At(data, k.pos, EncodeLength(len))
    ensures Announced(data, k) && AnnouncedLength(data, k) == len
    ensures BehindPrefix(data, k) == k.pos + |EncodeLength(len)|
  {
    var tag, bits := LengthTag(len), LengthBits(LengthTag(len));
    LengthFitsPrefix(len);
    AtSplit(data, k.pos, ToBits(tag, 2), ToBits(len, bits));
    RawFieldAt(data, k.pos, tag, 2);
    RawFieldAt(data, k.pos + 2, len, bits);
  }

  /** What a string read does with any announced length: the length is cut to its low word and
      then taken as signed; the read succeeds if and only if the cut length is not negative, is
      within the limit, and its characters are there. Either way the length prefix is consumed. */
  lemma {:induction false} StringReadSucceedsIff(data: seq<Bit>, k: Cursor, c: CharType, maxLength: Word)
    requires k.In(data) && Announced(data, k)
    ensures var cut := AnnouncedLength(data, k) % TWO_32;
            var start := BehindPrefix(data, k);
            var r := ReadStringStep(data, k, c, maxLength);
            && (!r.0.fail <==> cut < 0x8000_0000 && cut <= maxLength && start + RunBits(c, cut) <= |data|)
            && (!r.0.fail ==> r.0.pos == start + RunBits(c, cut) && |r.1.value| == cut)
            && (r.0.fail ==> r.0.pos == start)
  {
    hide RawField, DecodeRun;
  }

  /** A string longer than the caller's limit is to be refused with nothing read. For no such
      string does the position stay where it was; and with the characters of the cut length
      there, it is refused if and only if the low word of the length is itself above the limit or
      negative as a signed number. */
  lemma {:induction false} TooLongStringMovesOn(data: seq<Bit>, k: Cursor, c: CharType, maxLength: Word)
    requires k.In(data) && Announced(data, k) && AnnouncedLength(data, k) > maxLength
    ensures ReadStringStep(data, k, c, maxLength).0.pos >= BehindPrefix(data, k) > k.pos
    ensures var cut := AnnouncedLength(data, k) % TWO_32;
            BehindPrefix(data, k) + RunBits(c, cut) <= |data| ==>
              (ReadStringStep(data, k, c, maxLength).0.fail <==> cut > maxLength || cut >= 0x8000_0000)
    ensures AnnouncedLength(data, k) < TWO_32 ==>
              ReadStringStep(data, k, c, maxLength) == (Cursor(BehindPrefix(data, k), true), None)
  {
    hide RawField, DecodeRun;
    StringReadSucceedsIff(data, k, c, maxLength);
  }

  /** Tag and length with nothing behind them. */
  function BarePrefix(tag: nat, len: nat): seq<Bit> {
    ToBits(tag, 2) + ToBits(len, LengthBits(tag))
  }

  lemma {:induction false} BarePrefixAnnounces(tag: nat, len: nat)
    requires tag <= 3 && len < Pow2(LengthBits(tag))
    ensures Announced(BarePrefix(tag, len), Cursor(0, false))
    ensures AnnouncedLength(BarePrefix(tag, len), Cursor(0, false)) == len
    ensures BehindPrefix(BarePrefix(tag, len), Cursor(0, false)) == |BarePrefix(tag, len)| == 2 + LengthBits(tag)
  {
    var data, bits := BarePrefix(tag, len), LengthBits(tag);
    assert Pow2(2) == 4;
    AtSplit(data, 0, ToBits(tag, 2), ToBits(len, bits));
    assert At(data, 0, data);
    RawFieldAt(data, 0, tag, 2);
    RawFieldAt(data, 2, len, bits);
  }

  /** A stored length of 2^32 is accepted with a limit of 0, and reads as the empty string. */
  lemma {:induction false} TooLongStringAccepted()
    ensures ReadStringStep(BarePrefix(3, TWO_32), Cursor(0, false), UINT8, 0) == (Cursor(66, false), Some([]))
  {
    Pow2Values();
    BarePrefixAnnounces(3, TWO_32);
    StringReadSucceedsIff(BarePrefix(3, TWO_32), Cursor(0, false), UINT8, 0);
  }

  /** A failing string read leaves the position where it was if and only if not even the tag
      could be read; otherwise it has moved behind the tag, and behind the length if that is there. */
  lemma {:induction false} FailedStringReadStaysIff(data: seq<Bit>, k: Cursor, c: CharType, maxLength: Word)
    requires k.In(data) && !k.fail && ReadStringStep(data, k, c, maxLength).0.fail
    ensures ReadStringStep(data, k, c, maxLength).0.pos == k.pos <==> k.pos + 2 > |data|
    ensures ReadStringStep(data, k, c, maxLength).0.pos
            == if k.pos + 2 > |data| then k.pos else if Announced(data, k) then BehindPrefix(data, k) else k.pos + 2
  {
    hide DecodeRun, RawField;
  }

  // ---- Runs of reads ----

  /** A program in two parts reads as the one after the other. */
  lemma {:induction false} ReadInParts(data: seq<Bit>, k: Cursor, a: List<ReadOp>, b: List<ReadOp>)
    requires k.In(data) && AllReadsWellTyped(a) && AllReadsWellTyped(b)
    ensures AllReadsWellTyped(Concat(a, b))
    ensures var ra := RunReads(data, k, a);
            var rb := RunReads(data, ra.0, b);
            RunReads(data, k, Concat(a, b)) == (rb.0, Concat(ra.1, rb.1))
    decreases a
  {
    if a.Cons? {
      ReadInParts(data, ReadStep(data, k, a.head).0, a.tail, b);
    }
  }

  /** Once failed, a reader stays where it is and hands out nothing. */
  lemma {:induction false} ReadFailureIsSticky(data: seq<Bit>, k: Cursor, ops: List<ReadOp>)
    requires k.In(data) && AllReadsWellTyped(ops) && k.fail
    ensures RunReads(data, k, ops).0 == k
    ensures OnlyNothing(RunReads(data, k, ops).1)
    decreases ops
  {
    if ops.Cons? {
      ReadFailureIsSticky(data, k, ops.tail);
    }
  }

  predicate OnlyNothing(vs: List<Value>) {
    vs.Cons? ==> (vs.head == Nothing || vs.head == LengthValue(-1)) && OnlyNothing(vs.tail)
  }

  // ---- Peeking ----

  /** One peek anywhere in a program that does not fail there adds its result at its place and
      changes nothing else; its result is what reading the length there returns. */
  lemma {:induction false} PeekInserted(data: seq<Bit>, k: Cursor, a: List<ReadOp>, b: List<ReadOp>)
    requires k.In(data) && AllReadsWellTyped(a) && AllReadsWellTyped(b)
    requires PeekStep(data, RunReads(data, k, a).0).0.fail == RunReads(data, k, a).0.fail
    ensures AllReadsWellTyped(Concat(a, b)) && AllReadsWellTyped(Concat(a, Cons(PeekLength, b)))
    ensures var ra := RunReads(data, k, a);
            var rb := RunReads(data, ra.0, b);
            && RunReads(data, k, Concat(a, b)) == (rb.0, Concat(ra.1, rb.1))
            && RunReads(data, k, Concat(a, Cons(PeekLength, b)))
               == (rb.0, Concat(ra.1, Cons(LengthValue(ReadLengthStep(data, ra.0).1), rb.1)))
  {
    ReadInParts(data, k, a, b);
    ReadInParts(data, k, a, Cons(PeekLength, b));
  }

  /** Each peek of the program leaves the fail flag as it was. */
  predicate PeeksSucceed(data: seq<Bit>, k: Cursor, ops: List<ReadOp>)
    requires k.In(data) && AllReadsWellTyped(ops)
    decreases ops
  {
    ops.Cons? ==>
      var k1 := ReadStep(data, k, ops.head).0;
      (ops.head.PeekLength? ==> k1.fail == k.fail) && PeeksSucceed(data, k1, ops.tail)
  }

  function WithoutPeeks(ops: List<ReadOp>): (rest: List<ReadOp>)
    requires AllReadsWellTyped(ops)
    ensures AllReadsWellTyped(rest)
  {
    if ops.Nil? then Nil
    else if ops.head.PeekLength? then WithoutPeeks(ops.tail)
    else Cons(ops.head, WithoutPeeks(ops.tail))
  }

  function ResultsWithoutPeeks(ops: List<ReadOp>, vs: List<Value>): List<Value> {
    if ops.Nil? || vs.Nil? then Nil
    else if ops.head.PeekLength? then ResultsWithoutPeeks(ops.tail, vs.tail)
    else Cons(vs.head, ResultsWithoutPeeks(ops.tail, vs.tail))
  }

  /** Peek transparency: dropping every non-failing peek from a read program changes neither the
      final state nor any other result. */
  lemma {:induction false} PeeksAreTransparent(data: seq<Bit>, k: Cursor, ops: List<ReadOp>)
    requires k.In(data) && AllReadsWellTyped(ops) && PeeksSucceed(data, k, ops)
    ensures RunReads(data, k, WithoutPeeks(ops)).0 == RunReads(data, k, ops).0
    ensures RunReads(data, k, WithoutPeeks(ops)).1 == ResultsWithoutPeeks(ops, RunReads(data, k, ops).1)
    decreases ops
  {
    if ops.Cons? {
      PeeksAreTransparent(data, ReadStep(data, k, ops.head).0, ops.tail);
    }
  }

  /** A peek fails if and only if the bits that are left cannot hold the tag and the length the
      tag announces; either way it returns what reading the length there returns. */
  lemma {:induction false} PeekSucceedsIff(data: seq<Bit>, k: Cursor)
    requires k.In(data) && !k.fail
    ensures !PeekStep(data, k).0.fail <==>
            k.pos + 2 <= |data| && k.pos + 2 + LengthBits(RawField(data, k.pos, 2)) <= |data|
    ensures PeekStep(data, k).1 == ReadLengthStep(data, k).1
  {
  }

  /** What a peek that does not fail returns, for any stored length: the length itself if and
      only if that is below 2^31; a negative number if and only if its low word is 2^31 or more;
      and otherwise a length that is not the stored one. */
  lemma {:induction false} PeekIsExactIff(data: seq<Bit>, k: Cursor)
    requires k.In(data) && !k.fail && !PeekStep(data, k).0.fail
    ensures Announced(data, k)
    ensures PeekStep(data, k).1 == AnnouncedLength(data, k) <==> AnnouncedLength(data, k) < 0x8000_0000
    ensures PeekStep(data, k).1 < 0 <==> AnnouncedLength(data, k) % TWO_32 >= 0x8000_0000
    ensures PeekStep(data, k).1 >= 0 ==> PeekStep(data, k).1 == AnnouncedLength(data, k) % TWO_32
  {
    hide RawField;
  }

  /** A stored 32-bit length of 2^31 peeks as a negative number without a failure. */
  lemma {:induction false} PeekNegativeWithoutFailure()
    ensures PeekStep(BarePrefix(2, 0x8000_0000), Cursor(0, false)) == (Cursor(0, false), -0x8000_0000)
  {
    Pow2Values();
    BarePrefixAnnounces(2, 0x8000_0000);
  }

  /** A stored 64-bit length of 2^32 peeks as 0 without a failure. */
  lemma {:induction false} PeekTruncatesWithoutFailure()
    ensures PeekStep(BarePrefix(3, TWO_32), Cursor(0, false)) == (Cursor(0, false), 0)
  {
    hide ReadLengthStep, BarePrefix, RawField;
    Pow2Values();
    BarePrefixAnnounces(3, TWO_32);
    PeekSucceedsIff(BarePrefix(3, TWO_32), Cursor(0, false));
    PeekIsExactIff(BarePrefix(3, TWO_32), Cursor(0, false));
  }

  /** Peeking at a written string returns its length and moves nothing. */
  lemma {:induction false} PeekSeesLength(data: seq<Bit>, k: Cursor, c: CharType, chars: seq<int>)
    requires k.In(data) && !k.fail && |data| <= MAX_BITS && WriteString(c, chars).WellTyped()
    requires At(data, k.pos, Encode(WriteString(c, chars)))
    ensures PeekStep(data, k) == (k, |chars|)
  {
    AtSplit(data, k.pos, EncodeLength(|chars|), EncodeRun(c, chars));
    AcceptedStringIsShort(c, |chars|);
    ReadBackLength(data, k, |chars|);
  }
}
