/** Fixed-width machine arithmetic of the library on unbounded naturals: powers of two,
    the bitwise operators the bit streams use, `std::bit_width`, and the mask rounding of
    `ceil_to_multiple_of`. Every wrap-around is written out. */
module Arithmetic {

  const TWO_32: nat := 0x1_0000_0000
  const TWO_64: nat := 0x1_0000_0000_0000_0000

  type Byte = x: nat | x < 0x100
  type Word = x: nat | x < TWO_32
  type Scratch = x: nat | x < TWO_64

  function Pow2(n: nat): (p: nat)
    ensures p > 0
  {
    if n == 0 then 1 else 2 * Pow2(n - 1)
  }

  function Max(a: int, b: int): int {
    if a > b then a else b
  }

  function Min(a: int, b: int): int {
    if a < b then a else b
  }

  /** Bitwise or, one bit at a time. */
  function BitOr(x: nat, y: nat): nat {
    if x == 0 then y
    else if y == 0 then x
    else Max(x % 2, y % 2) + 2 * BitOr(x / 2, y / 2)
  }

  /** Bitwise and, one bit at a time. */
  function BitAnd(x: nat, y: nat): nat {
    if x == 0 || y == 0 then 0
    else Min(x % 2, y % 2) + 2 * BitAnd(x / 2, y / 2)
  }

  /** `x << k` without losing bits. */
  function Shl(x: nat, k: nat): nat {
    if k == 0 then x else 2 * Shl(x, k - 1)
  }

  /** `x >> k`. */
  function Shr(x: nat, k: nat): (r: nat)
    ensures r <= x
  {
    if k == 0 then x else Shr(x / 2, k - 1)
  }

  /** The low `n` bits of `x`: what a truncating cast to `n` bits keeps. */
  function Low(x: nat, n: nat): (r: nat)
    ensures r <= x
  {
    if n == 0 then 0 else x % 2 + 2 * Low(x / 2, n - 1)
  }

  /** `x << k` on the 64-bit scratch: bits shifted past bit 63 are lost. */
  function Shl64(x: Scratch, k: nat): Scratch {
    Pow2Values();
    LowBound(Shl(x, k), 64);
    Low(Shl(x, k), 64)
  }

  /** The low word of the scratch, cut out by shifting left and then right by 32. */
  function LowWord(x: Scratch): Word {
    LowWordIsLow(x);
    Shr(Shl64(x, 32), 32)
  }

  /** The value of an unsigned 32-bit counter after storing `x`. */
  function U32(x: int): Word {
    x % TWO_32
  }

  /** Two's-complement reading of the low 32 bits of `x`. */
  function I32(x: int): int {
    var u := x % TWO_32;
    if u < 0x8000_0000 then u else u - TWO_32
  }

  /** `std::bit_width`: the number of bits needed to write `x`. */
  function BitWidth(x: nat): nat {
    if x == 0 then 0 else 1 + BitWidth(x / 2)
  }

  // ---- Powers of two and shifts ----

  lemma {:induction false} Pow2Values()
    ensures Pow2(0) == 1 && Pow2(1) == 2 && Pow2(2) == 4 && Pow2(3) == 8
    ensures Pow2(7) == 0x80 && Pow2(8) == 0x100 && Pow2(15) == 0x8000 && Pow2(16) == 0x1_0000
    ensures Pow2(31) == 0x8000_0000 && Pow2(32) == TWO_32
    ensures Pow2(63) == 0x8000_0000_0000_0000 && Pow2(64) == TWO_64
  {
    Pow2Byte(0);
    Pow2Byte(8);
    Pow2Byte(16);
    Pow2Byte(24);
    Pow2Byte(32);
    Pow2Byte(40);
    Pow2Byte(48);
    Pow2Byte(56);
  }

  lemma {:induction false} Pow2Byte(n: nat)
    ensures Pow2(n + 8) == 0x100 * Pow2(n)
    ensures Pow2(n + 7) == 0x80 * Pow2(n)
  {
    assert Pow2(n + 2) == 4 * Pow2(n);
    assert Pow2(n + 4) == 4 * Pow2(n + 2);
    assert Pow2(n + 6) == 4 * Pow2(n + 4);
    assert Pow2(n + 7) == 2 * Pow2(n + 6);
  }

  lemma {:induction false} Pow2Monotone(a: nat, b: nat)
    requires a <= b
    ensures Pow2(a) <= Pow2(b)
  {
    if a < b {
      Pow2Monotone(a, b - 1);
    }
  }

  lemma {:induction false} ShlOfOne(k: nat)
    ensures Shl(1, k) == Pow2(k)
  {
    if k > 0 {
      ShlOfOne(k - 1);
    }
  }

  lemma {:induction false} ShlIsMul(x: nat, k: nat)
    ensures Shl(x, k) == x * Pow2(k)
  {
    if k > 0 {
      ShlIsMul(x, k - 1);
    }
  }

  /** Conversion to a signed 32-bit number: the one in range that differs by a multiple of 2^32. */
  lemma {:induction false} I32IsWrapped(x: int)
    ensures -0x8000_0000 <= I32(x) < 0x8000_0000
    ensures (x - I32(x)) % TWO_32 == 0
  {
    var q, u := x / TWO_32, x % TWO_32;
    assert x == TWO_32 * q + u;
    DivModUnique(x - I32(x), TWO_32, if u < 0x8000_0000 then q else q + 1, 0);
  }

  lemma {:induction false} ShlBound(x: nat, n: nat, k: nat)
    requires x < Pow2(n)
    ensures Shl(x, k) < Pow2(n + k)
  {
    if k > 0 {
      ShlBound(x, n, k - 1);
    }
  }

  lemma {:induction false} ShrBound(x: nat, n: nat, k: nat)
    requires x < Pow2(n + k)
    ensures Shr(x, k) < Pow2(n)
  {
    if k > 0 {
      ShrBound(x / 2, n, k - 1);
    }
  }

  lemma {:induction false} LowBound(x: nat, n: nat)
    ensures Low(x, n) < Pow2(n)
  {
    if n > 0 {
      LowBound(x / 2, n - 1);
    }
  }

  lemma {:induction false} LowOfSmall(x: nat, n: nat)
    requires x < Pow2(n)
    ensures Low(x, n) == x
  {
    if n > 0 {
      LowOfSmall(x / 2, n - 1);
    }
  }

  lemma {:induction false} LowOfShl(x: nat, n: nat, k: nat)
    ensures Low(Shl(x, k), n + k) == Shl(Low(x, n), k)
  {
    if k > 0 {
      LowOfShl(x, n, k - 1);
      assert Shl(x, k) / 2 == Shl(x, k - 1);
    }
  }

  lemma {:induction false} ShrOfShl(x: nat, k: nat)
    ensures Shr(Shl(x, k), k) == x
  {
    if k > 0 {
      ShrOfShl(x, k - 1);
      assert Shl(x, k) / 2 == Shl(x, k - 1);
    }
  }

  /** Shifting up and down again keeps exactly the low word. */
  lemma {:induction false} LowWordIsLow(x: Scratch)
    ensures Shr(Shl64(x, 32), 32) == Low(x, 32) < TWO_32
  {
    Pow2Values();
    LowBound(x, 32);
    LowOfShl(x, 32, 32);
    ShrOfShl(Low(x, 32), 32);
  }

  // ---- Bitwise operators against plain arithmetic ----

  /** Or-ing in a value above the used bits is addition. */
  lemma {:induction false} OrIsAdd(x: nat, k: nat, v: nat)
    requires x < Pow2(k)
    ensures BitOr(x, Shl(v, k)) == x + Shl(v, k)
  {
    if k > 0 {
      OrIsAdd(x / 2, k - 1, v);
      assert Shl(v, k) / 2 == Shl(v, k - 1);
    }
  }

  /** And-ing with `(1 << b) - 1` keeps the low `b` bits. */
  lemma {:induction false} AndLowMask(x: nat, b: nat)
    ensures BitAnd(x, Pow2(b) - 1) == Low(x, b)
  {
    if b > 0 {
      AndLowMask(x / 2, b - 1);
      assert (Pow2(b) - 1) / 2 == Pow2(b - 1) - 1;
    }
  }

  /** And-ing with a mask of the bits `k..n` clears the low `k` bits. */
  lemma {:induction false} AndHighMask(x: nat, k: nat, n: nat)
    requires k <= n && x < Pow2(n)
    ensures Pow2(k) <= Pow2(n)
    ensures BitAnd(x, Pow2(n) - Pow2(k)) == x - Low(x, k)
  {
    if k == 0 {
      AndLowMask(x, n);
      LowOfSmall(x, n);
    } else {
      AndHighMask(x / 2, k - 1, n - 1);
      assert (Pow2(n) - Pow2(k)) / 2 == Pow2(n - 1) - Pow2(k - 1);
    }
  }

  /** `bit_width(x)` is the width with 2^(w-1) <= x < 2^w. */
  lemma {:induction false} BitWidthBounds(x: nat)
    ensures x < Pow2(BitWidth(x))
    ensures x > 0 ==> BitWidth(x) > 0 && Pow2(BitWidth(x) - 1) <= x
  {
    if x > 0 {
      BitWidthBounds(x / 2);
    }
  }

  /** `w` is the number of bits of `x` up to its highest one. */
  predicate IsWidth(x: nat, w: nat) {
    if x == 0 then w == 0 else w > 0 && Pow2(w - 1) <= x < Pow2(w)
  }

  /** There is one such width, and `bit_width` computes it. */
  lemma {:induction false} BitWidthIsTheWidth(x: nat, w: nat)
    ensures IsWidth(x, w) <==> w == BitWidth(x)
  {
    var b := BitWidth(x);
    BitWidthBounds(x);
    if w < b {
      Pow2Monotone(w, b - 1);
    } else if b < w {
      Pow2Monotone(b, w - 1);
    }
  }

  lemma {:induction false} BitWidthAtMost(x: nat, n: nat)
    requires x < Pow2(n)
    ensures BitWidth(x) <= n
  {
    if x > 0 {
      BitWidthAtMost(x / 2, n - 1);
    }
  }

  lemma {:induction false} BitWidthOfMask(n: nat)
    ensures BitWidth(Pow2(n) - 1) == n
  {
    if n > 0 {
      BitWidthOfMask(n - 1);
      assert (Pow2(n) - 1) / 2 == Pow2(n - 1) - 1;
    }
  }

  // ---- Rounding up by masking ----

  /** The 64-bit `(size + (p - 1)) & ~(p - 1)`, before the cast back: `size_t` arithmetic. */
  function MaskCeil(p: nat, size: nat): nat
    requires 1 <= p <= TWO_64
  {
    BitAnd((size + (p - 1)) % TWO_64, TWO_64 - p)
  }

  /** `ceil_to_multiple_of<8>` on an unsigned 32-bit size: the least multiple not below
      `size`, unless that multiple is 2^32, which wraps to 0. */
  function CeilToMultipleOf8(size: Word): (r: Word)
    ensures r % 8 == 0
    ensures size <= TWO_32 - 8 ==> size <= r < size + 8
    ensures size > TWO_32 - 8 ==> r == 0
  {
    MaskCeil8(size);
    U32(MaskCeil(8, size))
  }

  /** `ceil_to_multiple_of<4>` on an unsigned 32-bit size. */
  function CeilToMultipleOf4(size: Word): (r: Word)
    ensures r % 4 == 0
    ensures size <= TWO_32 - 4 ==> size <= r < size + 4
    ensures size > TWO_32 - 4 ==> r == 0
  {
    MaskCeil4(size);
    U32(MaskCeil(4, size))
  }

  /** `ceil_to_multiple_of<4>` on an `int`, negative ones included; the least multiple not below
      `size` must itself be an `int`, otherwise the cast back turns it negative. */
  function CeilToMultipleOf4Int(size: int): (r: int)
    requires -0x8000_0000 <= size < 0x8000_0000
    ensures size <= 0x8000_0000 - 4 ==> r % 4 == 0 && size <= r < size + 4
    ensures size > 0x8000_0000 - 4 ==> r == -0x8000_0000
  {
    MaskCeil4Int(size);
    I32(MaskCeil(4, if size < 0 then size + TWO_64 else size))
  }

  /** A negative size is converted to `size_t` first; its low word wraps back. */
  lemma {:induction false} MaskCeil4Int(size: int)
    requires -0x8000_0000 <= size < 0x8000_0000
    ensures var r := I32(MaskCeil(4, if size < 0 then size + TWO_64 else size));
            && (size <= 0x8000_0000 - 4 ==> r % 4 == 0 && size <= r < size + 4)
            && (size > 0x8000_0000 - 4 ==> r == -0x8000_0000)
  {
    hide MaskCeil;
    if size >= 0 {
      var u := MaskCeil(4, size);
      MaskCeil4(size);
      assert u == 4 * (u / 4);
      WrapSmall(u);
    } else {
      NegativeMaskCeil4(size);
      DivModUnique(if size < -3 then 4 * ((size + 3) / 4) else 0, 4, if size < -3 then (size + 3) / 4 else 0, 0);
    }
  }

  lemma {:induction false} NegativeMaskCeil4(size: int)
    requires -0x8000_0000 <= size < 0
    ensures MaskCeil(4, size + TWO_64) % TWO_32 == if size < -3 then 4 * ((size + 3) / 4) + TWO_32 else 0
  {
    hide MaskCeil;
    var q := (size + 3) / 4;
    if size < -3 {
      var x := size + 3 + TWO_64;
      WrapAt64(x);
      MaskCeilOf4(size + TWO_64, x);
      DivModUnique(x, 4, q + TWO_64 / 4, (size + 3) % 4);
      DivModUnique(x - x % 4, TWO_32, TWO_32 - 1, 4 * q + TWO_32);
    } else {
      DivModUnique(size + TWO_64 + 3, TWO_64, 1, size + 3);
      MaskCeilOf4(size + TWO_64, size + 3);
    }
  }

  lemma {:induction false} MaskCeilOf4(size: nat, x: Scratch)
    requires (size + 3) % TWO_64 == x
    ensures MaskCeil(4, size) == x - x % 4
  {
    hide BitAnd, Low;
    assert Pow2(2) == 4;
    MaskClearsLow(x, 2, 4);
    Low2(x);
  }

  lemma {:induction false} WrapAt64(x: Scratch)
    ensures x % TWO_64 == x
  {
  }

  lemma {:induction false} MaskCeil8(size: nat)
    requires size < TWO_32
    ensures MaskCeil(8, size) % 8 == 0 && size <= MaskCeil(8, size) < size + 8
  {
    hide BitAnd, Low;
    var x := size + 7;
    WrapAt64(x);
    assert Pow2(3) == 8;
    MaskClearsLow(x, 3, 8);
    Low3(x);
    DivModUnique(x - x % 8, 8, x / 8, 0);
  }

  lemma {:induction false} MaskCeil4(size: nat)
    requires size < TWO_32
    ensures MaskCeil(4, size) % 4 == 0 && size <= MaskCeil(4, size) < size + 4
  {
    hide BitAnd, Low;
    var x := size + 3;
    WrapAt64(x);
    assert Pow2(2) == 4;
    MaskClearsLow(x, 2, 4);
    Low2(x);
    DivModUnique(x - x % 4, 4, x / 4, 0);
  }

  lemma {:induction false} MaskClearsLow(x: nat, k: nat, p: nat)
    requires x < TWO_64 && k <= 64 && p == Pow2(k) <= TWO_64
    ensures BitAnd(x, TWO_64 - p) == x - Low(x, k)
  {
    Pow2Values();
    AndHighMask(x, k, 64);
  }

  lemma {:induction false} Low1(x: nat)
    ensures Low(x, 1) == x % 2 && Shr(x, 1) == x / 2
  {
    assert Low(x / 2, 0) == 0;
  }

  lemma {:induction false} Low2(x: nat)
    ensures Low(x, 2) == x % 4 && Shr(x, 2) == x / 4
  {
    Low1(x / 2);
  }

  lemma {:induction false} Low3(x: nat)
    ensures Low(x, 3) == x % 8 && Shr(x, 3) == x / 8
  {
    Low2(x / 2);
  }

  lemma {:induction false} Low4(x: nat)
    ensures Low(x, 4) == x % 16 && Shr(x, 4) == x / 16
  {
    Low3(x / 2);
    HalfDivMod(x, 8);
  }

  lemma {:induction false} Low5(x: nat)
    ensures Low(x, 5) == x % 32 && Shr(x, 5) == x / 32
  {
    Low4(x / 2);
    HalfDivMod(x, 16);
  }

  lemma {:induction false} Low6(x: nat)
    ensures Low(x, 6) == x % 64 && Shr(x, 6) == x / 64
  {
    Low5(x / 2);
    HalfDivMod(x, 32);
  }

  lemma {:induction false} Low7(x: nat)
    ensures Low(x, 7) == x % 128 && Shr(x, 7) == x / 128
  {
    Low6(x / 2);
    HalfDivMod(x, 64);
  }

  /** Euclidean division is determined by its defining equation. */
  lemma {:induction false} DivModUnique(x: int, d: int, q: int, r: int)
    requires d > 0 && 0 <= r < d && x == d * q + r
    ensures x / d == q && x % d == r
  {
    var q', r' := x / d, x % d;
    assert d * (q - q') == r' - r;
    if q > q' {
      MulAtLeast(d, q - q');
    } else if q < q' {
      MulAtLeast(d, q' - q);
    }
  }

  lemma {:induction false} MulAtLeast(d: int, k: int)
    requires d > 0 && k >= 1
    ensures d * k >= d
  {
  }

  /** Dividing by twice a number: drop the lowest bit first. */
  lemma {:induction false} HalfDivMod(x: nat, p: nat)
    requires p > 0
    ensures x / (2 * p) == x / 2 / p
    ensures x % (2 * p) == x % 2 + 2 * (x / 2 % p)
  {
    var q, r := x / 2 / p, x / 2 % p;
    assert x / 2 == p * q + r;
    assert x == 2 * p * q + (2 * r + x % 2) by {
      assert 2 * (p * q) == 2 * p * q;
    }
    DivModUnique(x, 2 * p, q, 2 * r + x % 2);
  }

  /** The lowest byte and the rest. */
  lemma {:induction false} LowByte(x: nat)
    ensures Low(x, 8) == x % 0x100 && Shr(x, 8) == x / 0x100
  {
    Low7(x / 2);
    HalfDivMod(x, 128);
  }

  lemma {:induction false} WrapSmall(a: Word)
    ensures U32(a) == a
  {
  }

  /** Wrapping the parts of a sum first changes nothing. */
  lemma {:induction false} WrapParts(a: nat, b: nat)
    ensures U32(U32(a) + b) == U32(a + b)
    ensures U32(a + U32(b)) == U32(a + b)
  {
    WrapFirst(a, b);
    WrapFirst(b, a);
  }

  lemma {:induction false} WrapFirst(a: nat, b: nat)
    ensures U32(U32(a) + b) == U32(a + b)
  {
    var s := a % TWO_32 + b;
    DivModUnique(a + b, TWO_32, a / TWO_32 + s / TWO_32, s % TWO_32);
  }
}
