/** The integer types the bit streams are templated over, and the offset encoding that maps
    a value of a range `[min, max]` to an unsigned field of `bit_width(max - min)` bits. */
module IntTypes {
  import opened Arithmetic

  type Width = w: nat | w == 8 || w == 16 || w == 32 || w == 64 witness 8

  /** `bool`, or a two's-complement or unsigned integer of the given width. */
  datatype IntType = Bool | Int(width: Width, signed: bool) {

    /** Width of the corresponding unsigned type; `bool` is widened to 8 bits. */
    function UWidth(): Width {
      if Bool? then 8 else width
    }

    /** Number of values of the corresponding unsigned type. */
    function Modulus(): nat {
      match UWidth()
      case 8 => 0x100
      case 16 => 0x1_0000
      case 32 => TWO_32
      case _ => TWO_64
    }

    /** `std::numeric_limits<T>::min()`. */
    function Lo(): int {
      if Int? && signed then -(Modulus() / 2) else 0
    }

    /** `std::numeric_limits<T>::max()`. */
    function Hi(): int {
      if Bool? then 1 else if signed then Modulus() / 2 - 1 else Modulus() - 1
    }

    /** `v` is a value of this type. */
    predicate Has(v: int) {
      Lo() <= v <= Hi()
    }

    /** Conversion of a value of this type to the unsigned type. */
    function ToUnsigned(v: int): (u: nat)
      requires Has(v)
      ensures u < Modulus()
    {
      if v < 0 then v + Modulus() else v
    }

    /** Conversion of a value of the unsigned type to this type. */
    function FromUnsigned(u: nat): (v: int)
      requires u < Modulus()
      ensures Has(v)
    {
      if Bool? then (if u == 0 then 0 else 1)
      else if u > Hi() then u - Modulus()
      else u
    }

    /** Sum of two values of this type, wrapped around (for `bool`: converted back to `bool`). */
    function WrappedSum(a: int, b: int): (v: int)
      requires Has(a) && Has(b)
      ensures Has(v)
    {
      if Bool? then (if a + b == 0 then 0 else 1)
      else if a + b < Lo() then a + b + Modulus()
      else if a + b > Hi() then a + b - Modulus()
      else a + b
    }

    /** The field written for `data`: the unsigned, wrapped difference to `min`. */
    function Offset(data: int, min: int): (value: nat)
      requires Has(data) && Has(min)
      ensures value < Modulus()
    {
      var d := ToUnsigned(data) - ToUnsigned(min);
      if d < 0 then d + Modulus() else d
    }

    /** Width of the field of a range. */
    function FieldBits(min: int, max: int): (bits: nat)
      requires Has(min) && Has(max)
      ensures bits <= UWidth()
    {
      FieldFitsWidth(Offset(max, min));
      BitWidth(Offset(max, min))
    }

    /** What the reader turns a field back into. */
    function Restore(value: nat, min: int): (v: int)
      requires value < Modulus() && Has(min)
      ensures Has(v)
    {
      WrappedSum(FromUnsigned(value), min)
    }

    lemma {:induction false} ModulusIsPow2()
      ensures Modulus() == Pow2(UWidth())
    {
      Pow2Values();
    }

    /** The ranges of the types. */
    lemma {:induction false} RangeOfType()
      ensures Bool? ==> Lo() == 0 && Hi() == 1
      ensures Int? && !signed ==> Lo() == 0 && Hi() == Pow2(width) - 1
      ensures Int? && signed ==> Lo() + Pow2(width - 1) == 0 && Hi() == Pow2(width - 1) - 1
    {
      Pow2Values();
    }

    /** For all arguments, also with `min` above `data`, the offset is the difference modulo the
        size of the unsigned type. */
    lemma {:induction false} OffsetIsWrappedDifference(data: int, min: int)
      requires Has(data) && Has(min)
      ensures Offset(data, min) == (data - min) % Modulus()
    {
      var d := data - min;
      if d < 0 {
        DivModUnique(d, Modulus(), -1, d + Modulus());
      } else {
        DivModUnique(d, Modulus(), 0, d);
      }
    }

    /** The field of a range is as wide as the wrapped difference of its ends and no wider; for a
        proper range that is the true difference. */
    lemma {:induction false} FieldIsNarrowest(min: int, max: int)
      requires Has(min) && Has(max)
      ensures IsWidth((max - min) % Modulus(), FieldBits(min, max))
      ensures min < max ==> Pow2(FieldBits(min, max) - 1) <= max - min < Pow2(FieldBits(min, max))
    {
      OffsetIsWrappedDifference(max, min);
      BitWidthIsTheWidth(Offset(max, min), FieldBits(min, max));
      if min < max {
        OffsetRoundTrip(max, min, max);
      }
    }

    /** What any field restores to: the sum with `min`, less the size of the type if it is too
        large for it. `bool` is true unless both are zero. */
    lemma {:induction false} RestoreIsWrappedSum(value: nat, min: int)
      requires value < Modulus() && Has(min)
      ensures Int? && min + value <= Hi() ==> Restore(value, min) == min + value
      ensures Int? && min + value > Hi() ==> Restore(value, min) == min + value - Modulus()
      ensures Bool? ==> Restore(value, min) == if value == 0 && min == 0 then 0 else 1
    {
    }

    lemma {:induction false} FieldFitsWidth(value: nat)
      requires value < Modulus()
      ensures BitWidth(value) <= UWidth()
    {
      ModulusIsPow2();
      BitWidthAtMost(value, UWidth());
    }

    /** Every raw field that was read is a value of the unsigned type. */
    lemma {:induction false} RawFieldInRange(value: nat, bits: nat)
      requires value < Pow2(bits) && bits <= UWidth()
      ensures value < Modulus()
    {
      ModulusIsPow2();
      Pow2Monotone(bits, UWidth());
    }

    /** Offset encoding at every width and signedness: the wrapped difference is the true one,
        it fits the field, the field is not empty, and restoring gives the value back. */
    lemma {:induction false} OffsetRoundTrip(data: int, min: int, max: int)
      requires Has(min) && Has(max) && min < max && min <= data <= max
      ensures Offset(data, min) == data - min <= max - min == Offset(max, min)
      ensures data - min < Pow2(FieldBits(min, max))
      ensures 1 <= FieldBits(min, max) <= UWidth()
      ensures Restore(Offset(data, min), min) == data
    {
      BitWidthBounds(max - min);
    }

    /** Exact acceptance of the reader's check on an arbitrary field: besides the in-range
        fields it accepts precisely those whose sum with `min` wraps below the type. */
    lemma {:induction false} AcceptedExactly(value: nat, min: int, max: int)
      requires Has(min) && Has(max) && min < max
      requires value < Pow2(FieldBits(min, max)) && value < Modulus()
      ensures Restore(value, min) <= max <==> value <= max - min || value > Hi() - min
      ensures min <= Restore(value, min) <= max <==> value <= max - min
      ensures value <= max - min ==> Restore(value, min) == min + value
      ensures value > Hi() - min ==> Restore(value, min) == min + value - Modulus() < min
    {
      OffsetRoundTrip(max, min, max);
      BitWidthBounds(max - min);
      if Bool? {
        assert Pow2(1) == 2;
        assert BitWidth(1) == 1;
      }
    }

    /** The check keeps every result inside the range if and only if the largest field does not
        carry `min` out of the type. */
    lemma {:induction false} CheckIsSoundIff(min: int, max: int)
      requires Has(min) && Has(max) && min < max
      ensures (forall value: nat | value < Pow2(FieldBits(min, max)) && value < Modulus() ::
                 Restore(value, min) <= max ==> min <= Restore(value, min))
              <==> min + Pow2(FieldBits(min, max)) - 1 <= Hi()
    {
      var top := Pow2(FieldBits(min, max));
      forall value: nat | value < top && value < Modulus()
        ensures Restore(value, min) <= max && value <= Hi() - min ==> min <= Restore(value, min)
      {
        AcceptedExactly(value, min, max);
      }
      if min + top - 1 > Hi() {
        var value := Hi() - min + 1;
        ModulusIsPow2();
        Pow2Monotone(FieldBits(min, max), UWidth());
        assert value < top;
        AcceptedExactly(value, min, max);
        OffsetRoundTrip(max, min, max);
      }
    }
  }

  const UINT8 := Int(8, false)
  const UINT16 := Int(16, false)
  const UINT32 := Int(32, false)
  const UINT64 := Int(64, false)
  const INT8 := Int(8, true)

  /** A checked read of an `int8_t` in [100, 127] accepts the field 28 and yields -128. */
  lemma {:induction false} CheckedReadBelowMinimum()
    ensures 28 < Pow2(INT8.FieldBits(100, 127))
    ensures INT8.Restore(28, 100) == -128 <= 127
  {
    assert INT8.Offset(127, 100) == 27;
    assert BitWidth(27) == 1 + BitWidth(13) == 3 + BitWidth(3) == 5;
    assert Pow2(5) == 4 * Pow2(3) == 32;
  }

  /** The character types: every integer type that is not wider than a word, except `bool`. */
  type CharType = t: IntType | t.Int? && t.width <= 32 witness UINT8
}
