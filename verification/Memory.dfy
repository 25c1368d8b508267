/** Words in memory: native byte order, byte images, and the bits a word array holds. */
module Memory {
  import opened Arithmetic
  import opened Bits

  datatype Endian = Little | Big

  /** `std::byteswap` on a word. */
  function ByteSwap(w: Word): Word {
    FromBytes(ByteAt(w, 3), ByteAt(w, 2), ByteAt(w, 1), ByteAt(w, 0))
  }

  /** Byte `i` of a word, byte 0 the least significant. */
  function ByteAt(w: Word, i: nat): Byte
    requires i < 4
  {
    match i
    case 0 => w % 0x100
    case 1 => w / 0x100 % 0x100
    case 2 => w / 0x1_0000 % 0x100
    case 3 => w / 0x100_0000
  }

  function FromBytes(b0: Byte, b1: Byte, b2: Byte, b3: Byte): Word {
    b0 + 0x100 * b1 + 0x1_0000 * b2 + 0x100_0000 * b3
  }

  /** The word kept in memory for the logical word `w`; also its own inverse. */
  function Native(e: Endian, w: Word): Word {
    if e.Big? then ByteSwap(w) else w
  }

  /** The four bytes at the address of a native word. */
  function NativeBytes(e: Endian, w: Word): (bytes: seq<Byte>)
    ensures |bytes| == 4
  {
    if e.Big? then [ByteAt(w, 3), ByteAt(w, 2), ByteAt(w, 1), ByteAt(w, 0)]
    else [ByteAt(w, 0), ByteAt(w, 1), ByteAt(w, 2), ByteAt(w, 3)]
  }

  /** The bytes of a whole word array, in address order. */
  function MemoryImage(e: Endian, words: seq<Word>): (bytes: seq<Byte>)
    ensures |bytes| == 4 * |words|
  {
    if words == [] then []
    else MemoryImage(e, words[..|words| - 1]) + NativeBytes(e, words[|words| - 1])
  }

  function BytesBits(bytes: seq<Byte>): (bs: seq<Bit>)
    ensures |bs| == 8 * |bytes|
  {
    if bytes == [] then []
    else BytesBits(bytes[..|bytes| - 1]) + ToBits(bytes[|bytes| - 1], 8)
  }

  function WordBits(e: Endian, w: Word): (bs: seq<Bit>)
    ensures |bs| == 32
  {
    ToBits(Native(e, w), 32)
  }

  /** The bits a word array holds, as the streams read and write them. */
  function WordsBits(e: Endian, words: seq<Word>): (bs: seq<Bit>)
    ensures |bs| == 32 * |words|
  {
    if words == [] then []
    else WordsBits(e, words[..|words| - 1]) + WordBits(e, words[|words| - 1])
  }

  lemma {:induction false} BytesOfFromBytes(b0: Byte, b1: Byte, b2: Byte, b3: Byte)
    ensures ByteAt(FromBytes(b0, b1, b2, b3), 0) == b0
    ensures ByteAt(FromBytes(b0, b1, b2, b3), 1) == b1
    ensures ByteAt(FromBytes(b0, b1, b2, b3), 2) == b2
    ensures ByteAt(FromBytes(b0, b1, b2, b3), 3) == b3
  {
    var w := FromBytes(b0, b1, b2, b3);
    assert w / 0x100 == b1 + 0x100 * b2 + 0x1_0000 * b3;
    assert w / 0x1_0000 == b2 + 0x100 * b3;
    assert w / 0x100_0000 == b3;
  }

  lemma {:induction false} FromBytesOfBytes(w: Word)
    ensures FromBytes(ByteAt(w, 0), ByteAt(w, 1), ByteAt(w, 2), ByteAt(w, 3)) == w
  {
    assert w / 0x1_0000 == w / 0x100 / 0x100;
    assert w / 0x100_0000 == w / 0x1_0000 / 0x100;
  }

  lemma {:induction false} NativeInvolutive(e: Endian, w: Word)
    ensures Native(e, Native(e, w)) == w
  {
    BytesOfFromBytes(ByteAt(w, 3), ByteAt(w, 2), ByteAt(w, 1), ByteAt(w, 0));
    FromBytesOfBytes(w);
  }

  /** The two byte orders: byte `i` in memory is the byte of weight 256^i of the number stored on a
      little-endian machine, and the one at the mirrored place on a big-endian one; swapping
      mirrors the bytes. */
  lemma {:induction false} ByteOrders(w: Word, i: nat)
    requires i < 4
    ensures NativeBytes(Little, w)[i] == ByteAt(w, i) == w / Pow2(8 * i) % 0x100
    ensures NativeBytes(Big, w)[i] == NativeBytes(Little, w)[3 - i]
    ensures ByteAt(ByteSwap(w), i) == ByteAt(w, 3 - i)
    ensures Native(Little, w) == w && Native(Big, w) == ByteSwap(w)
  {
    hide ByteAt, FromBytes;
    ByteWeight(w, i);
    BytesOfFromBytes(ByteAt(w, 3), ByteAt(w, 2), ByteAt(w, 1), ByteAt(w, 0));
  }

  lemma {:induction false} ByteWeight(w: Word, i: nat)
    requires i < 4
    ensures ByteAt(w, i) == w / Pow2(8 * i) % 0x100
  {
    hide Pow2;
    Pow2Values();
    Pow2Byte(16);
  }

  /** Appending one word appends its 32 bits. */
  lemma {:induction false} WordsBitsSnoc(e: Endian, words: seq<Word>, w: Word)
    ensures WordsBits(e, words + [w]) == WordsBits(e, words) + WordBits(e, w)
  {
    assert (words + [w])[..|words|] == words;
  }

  /** Word `i` supplies the bits 32 * i up to 32 * i + 32. */
  lemma {:induction false} WordsBitsAt(e: Endian, words: seq<Word>, i: nat)
    requires i < |words|
    ensures WordsBits(e, words)[..32 * i] == WordsBits(e, words[..i])
    ensures WordsBits(e, words)[32 * i..32 * i + 32] == WordBits(e, words[i])
  {
    hide WordBits;
    var n := |words| - 1;
    var front, last := words[..n], words[n];
    assert WordsBits(e, words) == WordsBits(e, front) + WordBits(e, last);
    if i < n {
      WordsBitsAt(e, front, i);
      assert front[..i] == words[..i];
      FrontSlices(WordsBits(e, front), WordBits(e, last), 32 * i, 32 * i + 32);
    } else {
      BackSlices(WordsBits(e, front), WordBits(e, last));
    }
  }

  lemma {:induction false} BackSlices(front: seq<Bit>, last: seq<Bit>)
    ensures (front + last)[..|front|] == front && (front + last)[|front|..|front| + |last|] == last
  {
  }

  lemma {:induction false} FrontSlices(front: seq<Bit>, last: seq<Bit>, i: nat, j: nat)
    requires i <= j <= |front|
    ensures (front + last)[..i] == front[..i] && (front + last)[i..j] == front[i..j]
  {
  }

  /** The bits of an array determine its words. */
  lemma {:induction false} WordsBitsInjective(e: Endian, a: seq<Word>, b: seq<Word>)
    requires WordsBits(e, a) == WordsBits(e, b)
    ensures a == b
  {
    assert |a| == |b|;
    forall i | 0 <= i < |a|
      ensures a[i] == b[i]
    {
      WordsBitsAt(e, a, i);
      WordsBitsAt(e, b, i);
      Pow2Values();
      ToBitsInjective(Native(e, a[i]), Native(e, b[i]), 32);
      NativeInvolutive(e, a[i]);
      NativeInvolutive(e, b[i]);
    }
  }

  // ---- Byte order ----

  /** The 32 bits of a word are the bits of its four bytes, least significant byte first. */
  lemma {:induction false} WordIsItsBytes(w: Word)
    ensures ToBits(w, 32) == ToBits(ByteAt(w, 0), 8) + ToBits(ByteAt(w, 1), 8)
                           + ToBits(ByteAt(w, 2), 8) + ToBits(ByteAt(w, 3), 8)
  {
    var w1, w2, w3 := w / 0x100, w / 0x1_0000, w / 0x100_0000;
    assert w2 == w1 / 0x100 && w3 == w2 / 0x100;
    LowByte(w);
    LowByte(w1);
    LowByte(w2);
    ToBitsSplit(w, 8, 24);
    ToBitsSplit(w1, 8, 16);
    ToBitsSplit(w2, 8, 8);
  }

  lemma {:induction false} BytesBitsSnoc(bytes: seq<Byte>, b: Byte)
    ensures BytesBits(bytes + [b]) == BytesBits(bytes) + ToBits(b, 8)
  {
    assert (bytes + [b])[..|bytes|] == bytes;
  }

  lemma {:induction false} BytesBitsAppend4(bytes: seq<Byte>, b0: Byte, b1: Byte, b2: Byte, b3: Byte)
    ensures BytesBits(bytes + [b0, b1, b2, b3])
            == BytesBits(bytes) + (ToBits(b0, 8) + ToBits(b1, 8) + ToBits(b2, 8) + ToBits(b3, 8))
  {
    var s1 := bytes + [b0];
    var s2 := s1 + [b1];
    var s3 := s2 + [b2];
    BytesBitsSnoc(bytes, b0);
    BytesBitsSnoc(s1, b1);
    BytesBitsSnoc(s2, b2);
    BytesBitsSnoc(s3, b3);
    assert bytes + [b0, b1, b2, b3] == s3 + [b3];
    Assoc4(BytesBits(bytes), ToBits(b0, 8), ToBits(b1, 8), ToBits(b2, 8), ToBits(b3, 8));
  }

  lemma {:induction false} Assoc4(a: seq<Bit>, b: seq<Bit>, c: seq<Bit>, d: seq<Bit>, e: seq<Bit>)
    ensures a + b + c + d + e == a + (b + c + d + e)
  {
  }

  /** Endian independence of the wire: in either byte order, the bytes in memory spell exactly
      the stream's bits, lowest bit of the lowest byte first. */
  lemma {:induction false} ImageSpellsBits(e: Endian, words: seq<Word>)
    ensures BytesBits(MemoryImage(e, words)) == WordsBits(e, words)
  {
    if words != [] {
      var front, w := words[..|words| - 1], words[|words| - 1];
      ImageSpellsBits(e, front);
      var l := Native(e, w);
      WordIsItsBytes(l);
      assert NativeBytes(e, w) == [ByteAt(l, 0), ByteAt(l, 1), ByteAt(l, 2), ByteAt(l, 3)] by {
        if e.Big? {
          BytesOfFromBytes(ByteAt(w, 3), ByteAt(w, 2), ByteAt(w, 1), ByteAt(w, 0));
        }
      }
      BytesBitsAppend4(MemoryImage(e, front), ByteAt(l, 0), ByteAt(l, 1), ByteAt(l, 2), ByteAt(l, 3));
    }
  }

  /** Bytes are determined by their bits. */
  lemma {:induction false} BytesBitsInjective(a: seq<Byte>, b: seq<Byte>)
    requires BytesBits(a) == BytesBits(b)
    ensures a == b
  {
    assert |a| == |b|;
    if a != [] {
      var n := |a| - 1;
      BytesBitsFrontLast(a);
      BytesBitsFrontLast(b);
      BytesBitsInjective(a[..n], b[..n]);
      assert Pow2(8) == 0x100;
      ToBitsInjective(a[n], b[n], 8);
      assert a == a[..n] + [a[n]] && b == b[..n] + [b[n]];
    }
  }

  lemma {:induction false} BytesBitsFrontLast(a: seq<Byte>)
    requires a != []
    ensures var n := |a| - 1;
            && BytesBits(a)[..8 * n] == BytesBits(a[..n])
            && BytesBits(a)[8 * n..] == ToBits(a[n], 8)
  {
  }

  /** Two arrays, possibly in different byte orders, hold the same stream if and only if their
      memory images are equal byte for byte. */
  lemma {:induction false} SameImageIffSameBits(e: Endian, a: seq<Word>, f: Endian, b: seq<Word>)
    ensures MemoryImage(e, a) == MemoryImage(f, b) <==> WordsBits(e, a) == WordsBits(f, b)
  {
    ImageSpellsBits(e, a);
    ImageSpellsBits(f, b);
    if WordsBits(e, a) == WordsBits(f, b) {
      BytesBitsInjective(MemoryImage(e, a), MemoryImage(f, b));
    }
  }
}
