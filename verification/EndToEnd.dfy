/** Writers, readers, measurer and payload together: what a client gets from one call after the
    other, on machines of either byte order. */
module EndToEnd {
  import opened Arithmetic
  import opened Bits
  import opened Memory
  import opened Lists
  import opened Format
  import opened RoundTrip
  import opened Writer
  import opened Reader
  import opened Measurer
  import opened ReleaseProtocol
  import opened Payload

  // ---- Readers depend on nothing but the visible bytes ----

  lemma {:induction false} BytesBitsPrefix(bytes: seq<Byte>, n: nat)
    requires n <= |bytes|
    ensures BytesBits(bytes)[..8 * n] == BytesBits(bytes[..n])
    decreases |bytes|
  {
    var k := |bytes| - 1;
    if n == |bytes| {
      assert bytes[..n] == bytes;
    } else {
      BytesBitsFrontLast(bytes);
      BytesBitsPrefix(bytes[..k], n);
      assert bytes[..k][..n] == bytes[..n];
      assert BytesBits(bytes)[..8 * n] == BytesBits(bytes)[..8 * k][..8 * n];
    }
  }

  /** Two buffers, possibly in different byte orders, show a reader the same bits if and only if
      they agree on the bytes those bits are in. */
  lemma {:induction false} SameBytesSameBits(e: Endian, a: seq<Word>, f: Endian, b: seq<Word>, bytes: nat)
    requires bytes <= 4 * |a| && bytes <= 4 * |b|
    ensures MemoryImage(e, a)[..bytes] == MemoryImage(f, b)[..bytes]
            <==> WordsBits(e, a)[..8 * bytes] == WordsBits(f, b)[..8 * bytes]
  {
    ImageSpellsBits(e, a);
    ImageSpellsBits(f, b);
    BytesBitsPrefix(MemoryImage(e, a), bytes);
    BytesBitsPrefix(MemoryImage(f, b), bytes);
    if WordsBits(e, a)[..8 * bytes] == WordsBits(f, b)[..8 * bytes] {
      BytesBitsInjective(MemoryImage(e, a)[..bytes], MemoryImage(f, b)[..bytes]);
    }
  }

  /** Two readers whose buffers agree on the first `bytes` bytes give the same results for every
      program, whatever the machines, the rest of the last word and the words behind it. */
  method ReadSameBytes(a: BitStreamReader, b: BitStreamReader, bytes: Word, ops: List<ReadOp>)
    returns (va: List<Value>, vb: List<Value>)
    requires a != b && a.Valid() && b.Valid() && AllReadsWellTyped(ops)
    requires AllReadsCountable(a.Data(), a.Where(), ops)
    requires !a.initFail && !b.initFail && a.logicalTotalBits == b.logicalTotalBits == 8 * bytes
    requires MemoryImage(a.endian, a.words[..])[..bytes] == MemoryImage(b.endian, b.words[..])[..bytes]
    requires a.Where() == b.Where()
    modifies a, b
    ensures a.Valid() && b.Valid() && va == vb && a.Where() == b.Where()
  {
    hide RunReads, AllReadsCountable, MemoryImage, WordsBits, BitStreamReader.InShape;
    SameBytesSameBits(a.endian, a.words[..], b.endian, b.words[..], bytes);
    ghost var da, db := a.Data(), b.Data();
    assert da == db;
    va := a.ReadAll(ops);
    vb := b.ReadAll(ops);
  }

  // ---- What a flushed writer leaves in memory ----

  /** The buffer of a flushed writer starts with its stream. */
  lemma {:induction false} BufferStartsWithStream(w: BitStreamWriter)
    requires w.Valid() && w.finalFlushed
    ensures w.logicalUsedBits <= 32 * w.words.Length
    ensures WordsBits(w.endian, w.words[..])[..w.logicalUsedBits] == w.Stream()
  {
    var all, k, used := w.words[..], w.wordsIndex, w.logicalUsedBits;
    w.PaddedStream();
    assert w.words[..k] == all[..k];
    assert WordsBits(w.endian, all)[..32 * k] == WordsBits(w.endian, all[..k]) by {
      if k < |all| {
        WordsBitsAt(w.endian, all, k);
      } else {
        assert all[..k] == all;
      }
    }
    assert WordsBits(w.endian, all)[..used] == WordsBits(w.endian, all)[..32 * k][..used];
  }

  /** The bytes a flushed writer has written are determined by its stream, on machines of either
      byte order; on equal machines so are the words. */
  lemma {:induction false} FlushedImageIsDetermined(a: BitStreamWriter, b: BitStreamWriter)
    requires a.Valid() && a.finalFlushed && b.Valid() && b.finalFlushed && a.Stream() == b.Stream()
    ensures MemoryImage(a.endian, a.words[..a.wordsIndex]) == MemoryImage(b.endian, b.words[..b.wordsIndex])
    ensures a.endian == b.endian ==> a.words[..a.wordsIndex] == b.words[..b.wordsIndex]
  {
    var wa, wb := a.words[..a.wordsIndex], b.words[..b.wordsIndex];
    a.PaddedStream();
    b.PaddedStream();
    assert a.wordsIndex == b.wordsIndex;
    SameImageIffSameBits(a.endian, wa, b.endian, wb);
    if a.endian == b.endian {
      WordsBitsInjective(a.endian, wa, wb);
    }
  }

  /** Restart independence: whatever a writer went through before, `restart`, a program and the
      final flush leave the same words as a writer that is fresh on any other buffer. */
  method RestartIsFresh(w: BitStreamWriter, other: array<Word>, ops: List<Op>) returns (f: BitStreamWriter)
    requires !w.initFail && w.logicalTotalBits <= MAX_BITS && w.logicalTotalBits % 8 == 0
    requires AllWellTyped(ops) && AllCountable(FreshWriter(w.logicalTotalBits, false), ops)
    requires w.logicalTotalBits <= 32 * w.words.Length && w.logicalTotalBits <= 32 * other.Length
    requires other != w.words && other.Length > 0
    modifies w, w.words, other
    ensures w.Valid() && f.Valid() && f.words == other && w.words == old(w.words)
    ensures w.State() == f.State() && w.fail == f.fail
    ensures !w.fail ==> w.words[..w.wordsIndex] == other[..f.wordsIndex]
    ensures w.TailKept(old(w.words[..])) && f.TailKept(old(other[..]))
  {
    hide BitStreamWriter.Valid, BitStreamWriter.Stream, RunWrites;
    w.Restart();
    w.WriteAllAndFlush(ops);
    ghost var left := w.State();
    f := new BitStreamWriter(w.endian);
    WrapSmall(w.logicalTotalBits);
    f.ResetWith(other, w.logicalTotalBits / 8);
    f.WriteAllAndFlush(ops);
    assert w.State() == left;
    if !w.fail {
      FlushedImageIsDetermined(w, f);
    }
  }

  // ---- From a list of writes to the values at the other end ----

  /** Sizing: the measured bytes are the fewest that hold the program. */
  method MeasuredBytes(ops: List<Op>) returns (bytes: Word)
    requires AllWellTyped(ops) && |EncodeAll(ops)| <= TWO_32 - 8
    ensures |EncodeAll(ops)| <= 8 * bytes < |EncodeAll(ops)| + 8
  {
    var m := new BitStreamMeasurer();
    m.WriteAll(ops);
    MeasurerIsExact(ops, 0);
    bytes := m.UsedBytes();
  }

  /** Filling a payload of the measured size never overflows: it fails if and only if an argument
      is out of range, and otherwise the payload starts with the encoding of the program. */
  method Fill(payload: Block, bytes: Word, ops: List<Op>, e: Endian) returns (ok: bool)
    requires payload.Valid() && payload.Size() == bytes && AllWellTyped(ops)
    requires |EncodeAll(ops)| <= 8 * bytes
    modifies payload`sizeField, payload.words
    ensures payload.Valid() && payload.Size() == bytes && payload.UsedBitStream()
    ensures ok <==> AllInRange(ops)
    ensures ok ==> EncodeAll(ops) <= WordsBits(e, payload.words[..])
  {
    var w := new BitStreamWriter(e);
    w.ResetWithPayload(payload, bytes);
    WrapSmall(8 * bytes);
    FittingIsCountable(FreshWriter(8 * bytes, false), ops);
    w.WriteAllAndFlush(ops);
    FreshRun(8 * bytes, ops);
    ok := !w.fail;
    if ok {
      BufferStartsWithStream(w);
    }
  }

  /** The bytes of a message as a machine of byte order `e` finds them in its memory. */
  method Deliver(e: Endian, bytes: seq<Byte>) returns (words: array<Word>)
    requires |bytes| % 4 == 0
    ensures fresh(words) && MemoryImage(e, words[..]) == bytes
  {
    hide MemoryImage, Native, NativeBytes, FromBytes;
    words := new Word[|bytes| / 4];
    assert MemoryImage(e, words[..0]) == [];
    for i := 0 to words.Length
      invariant MemoryImage(e, words[..i]) == bytes[..4 * i]
    {
      var b0, b1, b2, b3 := bytes[4 * i], bytes[4 * i + 1], bytes[4 * i + 2], bytes[4 * i + 3];
      ghost var front := words[..i];
      words[i] := Native(e, FromBytes(b0, b1, b2, b3));
      LoadedBytes(e, b0, b1, b2, b3);
      ImageSnoc(e, front, words[i]);
      assert words[..i + 1] == front + [words[i]];
      assert bytes[..4 * (i + 1)] == bytes[..4 * i] + [b0, b1, b2, b3];
    }
    assert words[..] == words[..words.Length];
  }

  lemma {:induction false} ImageSnoc(e: Endian, front: seq<Word>, w: Word)
    ensures MemoryImage(e, front + [w]) == MemoryImage(e, front) + NativeBytes(e, w)
  {
    assert (front + [w])[..|front|] == front;
  }

  lemma {:induction false} LoadedBytes(e: Endian, b0: Byte, b1: Byte, b2: Byte, b3: Byte)
    ensures NativeBytes(e, Native(e, FromBytes(b0, b1, b2, b3))) == [b0, b1, b2, b3]
  {
    BytesOfFromBytes(b0, b1, b2, b3);
    BytesOfFromBytes(b3, b2, b1, b0);
  }

  /** Reading a message that starts with the encoding of a program gives back every value. */
  method Receive(bytes: seq<Byte>, ops: List<Op>, schema: List<ReadOp>, e: Endian) returns (values: List<Value>)
    requires |bytes| % 4 == 0 && 0 < |bytes| && 8 * |bytes| <= MAX_BITS
    requires AllWellTyped(ops) && AllInRange(ops) && EncodeAll(ops) <= BytesBits(bytes)
    requires AllMatch(ops, schema) && AllReadsWellTyped(schema)
    ensures values == AllWritten(ops)
  {
    hide BytesBits, MemoryImage, WordsBits, EncodeAll, AllMatch, RunReads, BitStreamReader.Valid;
    var words := Deliver(e, bytes);
    ImageSpellsBits(e, words[..]);
    var r := new BitStreamReader(e);
    WrapSmall(8 * |bytes|);
    r.ResetWith(words, |bytes|);
    assert r.Data() == BytesBits(bytes);
    ReadBackAll(r.Data(), Cursor(0, false), ops, schema);
    values := r.ReadAll(schema);
  }

  /** The bytes of a payload that a message of `size` bytes sends, in address order. */
  function Wire(payload: Block, size: nat, e: Endian): (bytes: seq<Byte>)
    requires size <= 4 * payload.words.Length
    reads payload.words
    ensures |bytes| == size
  {
    MemoryImage(e, payload.words[..])[..size]
  }

  lemma {:induction false} WireStartsWith(payload: Block, size: nat, e: Endian, stream: seq<Bit>)
    requires size <= 4 * payload.words.Length && |stream| <= 8 * size
    requires stream <= WordsBits(e, payload.words[..])
    ensures stream <= BytesBits(Wire(payload, size, e))
  {
    var image := MemoryImage(e, payload.words[..]);
    ImageSpellsBits(e, payload.words[..]);
    BytesBitsPrefix(image, size);
    assert BytesBits(image)[..8 * size][..|stream|] == BytesBits(image)[..|stream|];
  }

  /** Measure, allocate, write, flush: there is a filled payload if and only if every argument is
      in range, there is something to send, the limit leaves room for it, and so does the memory. */
  method Prepare(ops: List<Op>, e: Endian, limit: SendLimit, hasMemory: bool) returns (payload: Block?, bytes: Word)
    requires AllWellTyped(ops) && |EncodeAll(ops)| <= TWO_32 - 8
    ensures payload != null <==> hasMemory && AllInRange(ops) && 0 < |EncodeAll(ops)| <= 8 * limit
    ensures payload != null ==> fresh(payload) && payload.Valid() && payload.refCount == 0
    ensures payload != null ==> payload.UsedBitStream() && payload.Size() == bytes
    ensures payload != null ==> |EncodeAll(ops)| <= 8 * bytes && EncodeAll(ops) <= WordsBits(e, payload.words[..])
  {
    hide EncodeAll, Block.Valid, FlagOfField, SizeOfField;
    bytes := MeasuredBytes(ops);
    payload := Allocate(limit, bytes, hasMemory);
    if payload != null {
      var ok := Fill(payload, bytes, ops, e);
      if !ok {
        payload.ForceDeallocate();
        payload := null;
      }
    }
  }

  /** Prepare and multicast: each message carries whole words, at least the measured bytes, and
      starts with the encoding of the program. */
  method Publish(ops: List<Op>, e: Endian, limit: SendLimit, hasMemory: bool,
                 connections: seq<nat>)
    returns (payload: Block?, size: nat, messages: seq<Message>)
    requires AllWellTyped(ops) && |EncodeAll(ops)| <= TWO_32 - 8
    requires |connections| <= MAX_MESSAGES
    ensures payload != null <==> hasMemory && AllInRange(ops) && 0 < |EncodeAll(ops)| <= 8 * limit
    ensures payload != null ==> fresh(payload) && payload.Shaped()
    ensures payload != null ==> payload.Mirrors(Multicasted(|connections|))
    ensures payload != null ==> size % 4 == 0 && |EncodeAll(ops)| <= 8 * size <= 32 * payload.words.Length
    ensures payload != null ==> 8 * size <= MAX_BITS
    ensures payload != null ==> EncodeAll(ops) <= BytesBits(Wire(payload, size, e))
    ensures payload != null ==> Delivered(payload, size, connections, messages)
  {
    hide EncodeAll, FlagOfField, SizeOfField, SentSize, CeilToMultipleOf4, BytesBits, MemoryImage, WordsBits, Wire;
    var bytes;
    size, messages := 0, [];
    payload, bytes := Prepare(ops, e, limit, hasMemory);
    if payload != null {
      SentSizeFits(payload, bytes);
      size := SentSize(payload.UsedBitStream(), bytes);
      WireStartsWith(payload, size, e, EncodeAll(ops));
      messages := Multicast(connections, payload, bytes);
    }
  }

  /** Each connection has its own message with the payload's reference. */
  ghost predicate Delivered(payload: Block, size: nat, connections: seq<nat>, messages: seq<Message>)
    reads messages
  {
    && |messages| == |connections|
    && (forall i | 0 <= i < |messages| :: messages[i].Carries(payload, size) && messages[i].conn == connections[i])
    && (forall i, j | 0 <= i < j < |messages| :: messages[i] != messages[j])
  }

  /** The end-to-end theorem. A program written on a machine of one byte order and multicast in a
      payload of the measured size is read back, value by value, from each message by its
      receiver, whatever the receiver's byte order; and after all steps of releasing the messages,
      in any feasible order, the payload is freed, also when there is nobody to send to. */
  method Exchange(ops: List<Op>, schema: List<ReadOp>, e: Endian, limit: SendLimit, hasMemory: bool,
                  connections: seq<nat>, receivers: seq<Endian>, schedule: List<Step>)
    returns (payload: Block?, received: seq<List<Value>>)
    requires AllWellTyped(ops) && |EncodeAll(ops)| <= TWO_32 - 8
    requires AllMatch(ops, schema) && AllReadsWellTyped(schema)
    requires |connections| <= MAX_MESSAGES && |receivers| == |connections|
    requires Feasible(Multicasted(|connections|), schedule) && schedule.Length() == 2 * |connections|
    ensures payload != null <==> hasMemory && AllInRange(ops) && 0 < |EncodeAll(ops)| <= 8 * limit
    ensures payload != null ==> received == seq(|connections|, i => AllWritten(ops))
    ensures payload != null ==> payload.refCount == 0 && !payload.live
  {
    hide EncodeAll, Block.Shaped, AllMatch, AllReadsWellTyped, AllWritten, BytesBits, Multicasted, Feasible;
    var size, messages;
    received := [];
    payload, size, messages := Publish(ops, e, limit, hasMemory, connections);
    if payload != null {
      for i := 0 to |messages|
        invariant received == seq(i, k => AllWritten(ops))
        invariant Delivered(payload, size, connections, messages)
        invariant payload.Shaped() && payload.Mirrors(Multicasted(|connections|))
        invariant EncodeAll(ops) <= BytesBits(Wire(payload, size, e))
      {
        var bytes := Wire(messages[i].data, messages[i].cbSize, e);
        var values := Receive(bytes, ops, schema, receivers[i]);
        received := received + [values];
      }
      ReleaseAll(payload, messages, schedule);
    }
  }
}
