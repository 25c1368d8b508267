/** Bit sequences, little end first: the abstract contents of a bit stream. */
module Bits {
  import opened Arithmetic

  type Bit = bool

  /** Bit `i` of `v`. */
  predicate BitAt(v: nat, i: nat) {
    Shr(v, i) % 2 == 1
  }

  /** The low `n` bits of `v`, lowest first. */
  function ToBits(v: nat, n: nat): (bs: seq<Bit>)
    ensures |bs| == n
  {
    seq(n, i requires 0 <= i < n => BitAt(v, i))
  }

  /** The number a bit sequence writes. */
  function FromBits(bs: seq<Bit>): nat {
    if bs == [] then 0 else (if bs[0] then 1 else 0) + 2 * FromBits(bs[1..])
  }

  function Zeros(n: nat): (bs: seq<Bit>)
    ensures |bs| == n
  {
    seq(n, i => false)
  }

  /** The lowest bit, then the rest. */
  lemma {:induction false} ToBitsCons(v: nat, n: nat)
    requires n > 0
    ensures ToBits(v, n) == [v % 2 == 1] + ToBits(v / 2, n - 1)
  {
  }

  lemma {:induction false} FromToBits(v: nat, n: nat)
    requires v < Pow2(n)
    ensures FromBits(ToBits(v, n)) == v
  {
    if n > 0 {
      FromToBits(v / 2, n - 1);
      ToBitsCons(v, n);
      assert ToBits(v, n)[1..] == ToBits(v / 2, n - 1);
    }
  }

  lemma {:induction false} ToFromBits(bs: seq<Bit>)
    ensures FromBits(bs) < Pow2(|bs|)
    ensures ToBits(FromBits(bs), |bs|) == bs
  {
    if bs != [] {
      ToFromBits(bs[1..]);
      ToBitsCons(FromBits(bs), |bs|);
      assert FromBits(bs) / 2 == FromBits(bs[1..]);
      assert bs == [bs[0]] + bs[1..];
    }
  }

  /** A field of n + m bits is its low n bits followed by its high m bits. */
  lemma {:induction false} ToBitsSplit(v: nat, n: nat, m: nat)
    ensures ToBits(v, n + m) == ToBits(Low(v, n), n) + ToBits(Shr(v, n), m)
  {
    hide ToBits;
    if n > 0 {
      var low := Low(v, n);
      assert low % 2 == v % 2 && low / 2 == Low(v / 2, n - 1);
      ToBitsSplit(v / 2, n - 1, m);
      ToBitsCons(v, n + m);
      ToBitsCons(low, n);
      Assoc([v % 2 == 1], ToBits(low / 2, n - 1), ToBits(Shr(v, n), m));
    } else {
      assert ToBits(v, m) == ToBits(Low(v, 0), 0) + ToBits(v, m);
    }
  }

  /** Or-ing a field in above the bits already held appends it, and nothing is lost as
      long as the result still fits the 64-bit scratch. */
  lemma {:induction false} OrAppends(x: Scratch, k: nat, v: Scratch, n: nat)
    requires x < Pow2(k) && v < Pow2(n) && k + n <= 64
    ensures BitOr(x, Shl64(v, k)) < Pow2(k + n) <= TWO_64
    ensures ToBits(BitOr(x, Shl64(v, k)), k + n) == ToBits(x, k) + ToBits(v, n)
  {
    Pow2Values();
    Pow2Monotone(k + n, 64);
    ShlBound(v, n, k);
    LowOfSmall(Shl(v, k), 64);
    OrOfFields(x, k, v, n);
  }

  lemma {:induction false} OrOfFields(x: nat, k: nat, v: nat, n: nat)
    requires x < Pow2(k) && v < Pow2(n)
    ensures BitOr(x, Shl(v, k)) < Pow2(k + n)
    ensures ToBits(BitOr(x, Shl(v, k)), k + n) == ToBits(x, k) + ToBits(v, n)
  {
    hide ToBits;
    if k > 0 {
      var y, half := BitOr(x, Shl(v, k)), BitOr(x / 2, Shl(v, k - 1));
      OrOfFields(x / 2, k - 1, v, n);
      OrByHalves(x, k, v);
      hide BitOr, Shl;
      assert y == x % 2 + 2 * half;
      ToBitsCons(x, k);
      ToBitsCons(y, k + n);
      Assoc([x % 2 == 1], ToBits(x / 2, k - 1), ToBits(v, n));
    } else {
      assert ToBits(v, n) == ToBits(x, 0) + ToBits(v, n);
    }
  }

  lemma {:induction false} OrByHalves(x: nat, k: nat, v: nat)
    requires 0 < k && x < Pow2(k)
    ensures BitOr(x, Shl(v, k)) == x % 2 + 2 * BitOr(x / 2, Shl(v, k - 1))
  {
    OrIsAdd(x, k, v);
    OrIsAdd(x / 2, k - 1, v);
  }

  /** The bitwise operators work on each bit alone. */
  lemma {:induction false} OrIsBitwise(x: nat, y: nat, i: nat)
    ensures BitAt(BitOr(x, y), i) <==> BitAt(x, i) || BitAt(y, i)
  {
    if x == 0 || y == 0 {
      ZeroHasNoBits(i);
    } else if i > 0 {
      assert BitOr(x, y) / 2 == BitOr(x / 2, y / 2);
      OrIsBitwise(x / 2, y / 2, i - 1);
    }
  }

  lemma {:induction false} AndIsBitwise(x: nat, y: nat, i: nat)
    ensures BitAt(BitAnd(x, y), i) <==> BitAt(x, i) && BitAt(y, i)
  {
    if x == 0 || y == 0 {
      ZeroHasNoBits(i);
    } else if i > 0 {
      assert BitAnd(x, y) / 2 == BitAnd(x / 2, y / 2);
      AndIsBitwise(x / 2, y / 2, i - 1);
    }
  }

  lemma {:induction false} ZeroHasNoBits(i: nat)
    ensures !BitAt(0, i)
  {
    if i > 0 {
      ZeroHasNoBits(i - 1);
    }
  }

  /** Two equal fields of the same width hold the same value. */
  lemma {:induction false} ToBitsInjective(v: nat, w: nat, n: nat)
    requires v < Pow2(n) && w < Pow2(n) && ToBits(v, n) == ToBits(w, n)
    ensures v == w
  {
    FromToBits(v, n);
    FromToBits(w, n);
  }

  lemma {:induction false} ToBitsOfZero(n: nat)
    ensures ToBits(0, n) == Zeros(n)
  {
    if n > 0 {
      ToBitsOfZero(n - 1);
      ToBitsCons(0, n);
    }
  }

  /** Concatenation is associative. */
  lemma {:induction false} Assoc(a: seq<Bit>, b: seq<Bit>, c: seq<Bit>)
    ensures a + (b + c) == a + b + c
  {
  }
}
