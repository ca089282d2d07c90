/** The largest finite value of a parametric floating-point format: `_floating_point_max_int` of
    vllm/scalar_type.py and `_floating_point_max` of csrc/core/scalar_type.hpp.

    Encodings and values follow section 3.4 of IEEE 754-2019, with the exponent bias 2^(e-1) - 1 that the
    source assumes for every format.  Magnitudes are counted in units of 2^-1074, the smallest positive
    double, of which every value of a format within the asserted limits is a multiple. */
module FloatMax {
  import opened Wrappers
  import opened Arithmetic
  import opened ScalarTypes

  const NAN_NONE := 0
  const NAN_IEEE_754 := 1
  const NAN_EXTD_RANGE_MAX_MIN := 2

  // ----- encodings and values

  function Bias(e: nat): nat
    requires e >= 1
  {
    Pow2(e - 1) - 1
  }

  /** Exponent and mantissa widths that a double can hold. */
  predicate Fits(e: nat, m: nat) {
    1 <= e <= 11 && m <= 52 && Bias(e) <= 1023
  }

  /** The weight of the lowest mantissa bit under exponent field `x`. */
  function Weight(e: nat, m: nat, x: nat): nat
    requires Fits(e, m) && Bias(e) + m <= x + 1074
  {
    Pow2(x - Bias(e) - m + 1074)
  }

  /** The magnitude with a leading one. */
  function Normal(e: nat, m: nat, x: nat, f: nat): nat
    requires Fits(e, m) && Bias(e) + m <= x + 1074
  {
    (Pow2(m) + f) * Weight(e, m, x)
  }

  /** The magnitude of the encoding with exponent field `x` and mantissa field `f`. */
  function Value(e: nat, m: nat, x: nat, f: nat): nat
    requires Fits(e, m)
  {
    if x == 0 then f * Weight(e, m, 1) else Normal(e, m, x, f)
  }

  lemma WeightStep(e: nat, m: nat, x: nat)
    requires Fits(e, m) && Bias(e) + m <= x + 1074
    ensures Weight(e, m, x + 1) == 2 * Weight(e, m, x)
  {}

  // ----- magnitudes are ordered like bit patterns

  /** A smaller exponent field, or an equal one with a smaller mantissa field. */
  predicate Before(x: nat, f: nat, y: nat, g: nat) {
    x < y || (x == y && f < g)
  }

  lemma ScaleStrict(a: nat, b: nat, w: nat)
    requires a < b && w > 0
    ensures a * w < b * w
  {
    MulMonotone(a + 1, b, w);
    assert (a + 1) * w == a * w + w;
  }

  lemma BelowNextExponent(e: nat, m: nat, x: nat, f: nat)
    requires Fits(e, m) && f < Pow2(m)
    ensures Value(e, m, x, f) < Normal(e, m, x + 1, 0)
  {
    if x == 0 {
      ScaleStrict(f, Pow2(m), Weight(e, m, 1));
    } else {
      WeightStep(e, m, x);
      DoubleWeight(Pow2(m), f, Weight(e, m, x));
    }
  }

  lemma DoubleWeight(p: nat, f: nat, w: nat)
    requires f < p && w > 0
    ensures (p + f) * w < p * (2 * w)
  {
    ScaleStrict(p + f, 2 * p, w);
    assert (2 * p) * w == p * (2 * w);
  }

  lemma ExponentOrder(e: nat, m: nat, x: nat, y: nat, g: nat)
    requires Fits(e, m) && 1 <= x <= y
    ensures Normal(e, m, x, 0) <= Normal(e, m, y, g)
  {
    var p, v, w := Pow2(m), Weight(e, m, x), Weight(e, m, y);
    Pow2Monotone(x - Bias(e) - m + 1074, y - Bias(e) - m + 1074);
    MulMonotone(v, w, p);
    MulMonotone(p, p + g, w);
    assert p * v == v * p && p * w == w * p;
  }

  lemma MantissaOrder(e: nat, m: nat, x: nat, f: nat, g: nat)
    requires Fits(e, m) && f < g
    ensures Value(e, m, x, f) < Value(e, m, x, g)
  {
    if x == 0 {
      ScaleStrict(f, g, Weight(e, m, 1));
    } else {
      ScaleStrict(Pow2(m) + f, Pow2(m) + g, Weight(e, m, x));
    }
  }

  lemma ValueOrder(e: nat, m: nat, x: nat, f: nat, y: nat, g: nat)
    requires Fits(e, m) && f < Pow2(m) && g < Pow2(m) && Before(x, f, y, g)
    ensures Value(e, m, x, f) < Value(e, m, y, g)
  {
    if x == y {
      MantissaOrder(e, m, x, f, g);
    } else {
      BelowNextExponent(e, m, x, f);
      ExponentOrder(e, m, x + 1, y, g);
    }
  }

  // ----- doubles

  /** 2^52, the weight of a double's exponent field. */
  const UNIT: nat := 0x10_0000_0000_0000

  predicate IsNormalDouble(raw: int) {
    UNIT <= raw < 2047 * UNIT
  }

  /** The value of a normal double: exponent bias 1023, 52 mantissa bits. */
  function Decode(raw: int): nat
    requires IsNormalDouble(raw)
  {
    (UNIT + raw % UNIT) * Pow2(raw / UNIT - 1)
  }

  lemma UnitIsPower()
    ensures Pow2(52) == UNIT
  {
    assert Pow2(13) == 0x2000;
    Pow2Add(13, 13);
    Pow2Add(26, 26);
  }

  /** Widening a normal number to a double keeps its value. */
  lemma DecodeWidened(e: nat, m: nat, x: nat, f: nat, y: nat)
    requires Fits(e, m) && Bias(e) + m <= x + 1074 && f < Pow2(m)
    requires 1 <= y <= 2046 && y == x - Bias(e) + 1023
    ensures
      var raw := BitOr(f * Pow2(52 - m), y * UNIT);
      IsNormalDouble(raw) && Decode(raw) == Normal(e, m, x, f)
  {
    var p, scale, w := Pow2(m), Pow2(52 - m), Pow2(y - 1);
    UnitIsPower();
    Pow2Add(m, 52 - m);
    ScaleStrict(f, p, scale);
    var low := f * scale;
    WidenedBits(low, y);
    Pow2Add(52 - m, y - 1);
    Widen(p, f, scale, w);
  }

  lemma WidenedBits(low: nat, y: nat)
    requires low < UNIT && 1 <= y <= 2046
    ensures
      var raw := BitOr(low, y * UNIT);
      IsNormalDouble(raw) && raw / UNIT == y && raw % UNIT == low
  {
    UnitIsPower();
    BitOrDisjoint(low, y, 52);
    var raw := BitOr(low, y * UNIT);
    assert raw == low + y * UNIT;
  }

  lemma Widen(p: nat, f: nat, scale: nat, w: nat)
    ensures (p * scale + f * scale) * w == (p + f) * (scale * w)
  {
    assert p * scale + f * scale == (p + f) * scale;
  }

  // ----- finite encodings of a format

  predicate IsFloat(t: ScalarType) {
    t.exponent >= 1 && t.mantissa >= 0 && 0 <= t.nanRepr <= 2
  }

  predicate IsNaN(t: ScalarType, x: nat, f: nat)
    requires IsFloat(t)
  {
    && x == Pow2(t.exponent) - 1
    && ((t.nanRepr == NAN_IEEE_754 && f != 0) || (t.nanRepr == NAN_EXTD_RANGE_MAX_MIN && f == Pow2(t.mantissa) - 1))
  }

  predicate IsInfinite(t: ScalarType, x: nat, f: nat)
    requires IsFloat(t)
  {
    !t.finiteValuesOnly && x == Pow2(t.exponent) - 1 && f == 0
  }

  predicate IsFinite(t: ScalarType, x: nat, f: nat)
    requires IsFloat(t)
  {
    x < Pow2(t.exponent) && f < Pow2(t.mantissa) && !IsNaN(t, x, f) && !IsInfinite(t, x, f)
  }

  /** The double holds the largest magnitude among the finite encodings. */
  ghost predicate IsLargestFinite(t: ScalarType, raw: int)
    requires IsFloat(t) && Fits(t.exponent, t.mantissa)
  {
    && IsNormalDouble(raw)
    && (exists x: nat, f: nat :: IsFinite(t, x, f) && Value(t.exponent, t.mantissa, x, f) == Decode(raw))
    && (forall x: nat, f: nat | IsFinite(t, x, f) :: Value(t.exponent, t.mantissa, x, f) <= Decode(raw))
  }

  // ----- the computed maximum

  function MaxMantissa(t: ScalarType): int
    requires IsFloat(t)
  {
    Pow2(t.mantissa) - if t.nanRepr == NAN_EXTD_RANGE_MAX_MIN then 2 else 1
  }

  function MaxExponent(t: ScalarType): nat
    requires IsFloat(t)
  {
    Pow2(t.exponent) - if t.nanRepr == NAN_IEEE_754 then 2 else 1
  }

  /** The shifted fields, or-ed together. */
  function MaxRaw(t: ScalarType): int
    requires IsFloat(t) && t.mantissa <= 52
  {
    BitOr(MaxMantissa(t) * Pow2(52 - t.mantissa), (MaxExponent(t) - Bias(t.exponent) + 1023) * UNIT)
  }

  /** Both assertions on the widths hold. */
  predicate Asserted(t: ScalarType) {
    t.mantissa <= 52 && t.exponent <= 11 && (t.nanRepr != NAN_IEEE_754 ==> t.exponent < 11)
  }

  /** Exactly the formats whose computed maximum is right. */
  predicate MaxIsRight(t: ScalarType) {
    if t.nanRepr == NAN_IEEE_754 then !t.finiteValuesOnly && t.exponent >= 2
    else if t.nanRepr == NAN_EXTD_RANGE_MAX_MIN then t.mantissa >= 2 || (t.mantissa == 1 && t.finiteValuesOnly)
    else t.mantissa >= 1 || t.finiteValuesOnly
  }

  lemma AssertedFits(t: ScalarType)
    requires IsFloat(t) && Asserted(t)
    ensures Fits(t.exponent, t.mantissa)
    ensures 1023 <= MaxExponent(t) - Bias(t.exponent) + 1023 <= 2046
  {
    var e := t.exponent;
    assert Pow2(9) == 512 && Pow2(10) == 1024;
    Pow2Monotone(e - 1, if t.nanRepr == NAN_IEEE_754 then 10 else 9);
  }

  /** `raw` is the double of the (maximum exponent, maximum mantissa) pair. */
  ghost predicate IsMaxDouble(t: ScalarType, raw: int)
    requires IsFloat(t) && Asserted(t) && Fits(t.exponent, t.mantissa)
  {
    && Bias(t.exponent) + t.mantissa <= MaxExponent(t) + 1074
    && 0 <= MaxMantissa(t) < Pow2(t.mantissa)
    && IsNormalDouble(raw)
    && Decode(raw) == Normal(t.exponent, t.mantissa, MaxExponent(t), MaxMantissa(t))
  }

  lemma LargestWhenRight(t: ScalarType, raw: int)
    requires IsFloat(t) && Asserted(t) && Fits(t.exponent, t.mantissa) && IsMaxDouble(t, raw) && MaxIsRight(t)
    ensures IsLargestFinite(t, raw)
  {
    var x, f := MaxExponent(t), MaxMantissa(t);
    assert Pow2(t.mantissa) == 1 <==> t.mantissa == 0;
    assert IsFinite(t, x, f) && Value(t.exponent, t.mantissa, x, f) == Decode(raw);
    forall y: nat, g: nat | IsFinite(t, y, g) ensures Value(t.exponent, t.mantissa, y, g) <= Decode(raw) {
      if y != x || g != f {
        assert Before(y, g, x, f);
        ValueOrder(t.exponent, t.mantissa, y, g, x, f);
      }
    }
  }

  lemma NotLargestWhenWrong(t: ScalarType, raw: int)
    requires IsFloat(t) && Asserted(t) && Fits(t.exponent, t.mantissa) && IsMaxDouble(t, raw) && !MaxIsRight(t)
    ensures !IsLargestFinite(t, raw)
  {
    var e, m, x, f := t.exponent, t.mantissa, MaxExponent(t), MaxMantissa(t);
    if t.nanRepr == NAN_IEEE_754 && t.finiteValuesOnly {
      // The exponent of all ones with mantissa 0 is a larger finite value.
      assert IsFinite(t, x + 1, 0);
      BelowNormal(e, m, x, f);
    } else if t.nanRepr == NAN_IEEE_754 {
      // One exponent bit leaves subnormals only, and the result is an odd multiple of half their unit.
      assert x == 0 && Pow2(m) + f == 2 * Pow2(m) - 1;
      WeightStep(e, m, 0);
      forall y: nat, g: nat | IsFinite(t, y, g) ensures Value(e, m, y, g) != Decode(raw) {
        assert y == 0;
        OddIsNotEven(Pow2(m), g, Weight(e, m, 0));
      }
    } else {
      // The computed pair is itself infinite, and every finite encoding is below it.
      assert Pow2(1) == 2 && IsInfinite(t, x, f);
      forall y: nat, g: nat | IsFinite(t, y, g) ensures Value(e, m, y, g) != Decode(raw) {
        assert Before(y, g, x, f);
        ValueOrder(e, m, y, g, x, f);
      }
    }
  }

  lemma BelowNormal(e: nat, m: nat, x: nat, f: nat)
    requires Fits(e, m) && Bias(e) + m <= x + 1074 && f < Pow2(m)
    ensures Normal(e, m, x, f) < Normal(e, m, x + 1, 0)
  {
    WeightStep(e, m, x);
    DoubleWeight(Pow2(m), f, Weight(e, m, x));
  }

  lemma OddIsNotEven(p: nat, g: nat, w: nat)
    requires w > 0 && p > 0
    ensures g * (2 * w) != (2 * p - 1) * w
  {
    assert g * (2 * w) == (2 * g) * w;
    if 2 * g < 2 * p - 1 {
      ScaleStrict(2 * g, 2 * p - 1, w);
    } else {
      ScaleStrict(2 * p - 1, 2 * g, w);
    }
  }

  /** Python `_floating_point_max_int`.  None: an assertion on the widths fails.  Otherwise the result is
      the double with the largest finite value of the format, exactly for the formats in `MaxIsRight`. */
  method FloatingPointMaxInt(t: ScalarType) returns (r: Option<int>)
    requires IsFloat(t)
    ensures r.None? <==> !Asserted(t)
    ensures r.Some? ==> Fits(t.exponent, t.mantissa) && (IsLargestFinite(t, r.value) <==> MaxIsRight(t))
  {
    if !(t.mantissa <= 52 && t.exponent <= 11) {
      return None;
    }
    var maxMantissa := Pow2(t.mantissa) - 1;
    if t.nanRepr == NAN_EXTD_RANGE_MAX_MIN {
      maxMantissa := maxMantissa - 1;
    }
    var maxExponent := Pow2(t.exponent) - 2;
    if t.nanRepr == NAN_EXTD_RANGE_MAX_MIN || t.nanRepr == NAN_NONE {
      if !(t.exponent < 11) {
        return None;
      }
      maxExponent := maxExponent + 1;
    }
    var exponentBias := Pow2(t.exponent - 1) - 1;
    var exponentBiasDouble := 1023;
    var maxExponentDouble := maxExponent - exponentBias + exponentBiasDouble;
    var raw := BitOr(maxMantissa * Pow2(52 - t.mantissa), maxExponentDouble * UNIT);
    MaxIntExact(t, raw);
    r := Some(raw);
  }

  lemma NegativeProduct(a: int, b: nat)
    requires a < 0 < b
    ensures a * b < 0
  {}

  lemma RawIsMaxDouble(t: ScalarType, raw: int)
    requires IsFloat(t) && Asserted(t) && Fits(t.exponent, t.mantissa) && MaxMantissa(t) >= 0
    requires raw == MaxRaw(t)
    ensures IsMaxDouble(t, raw)
  {
    var x, f := MaxExponent(t), MaxMantissa(t);
    var y := x - Bias(t.exponent) + 1023;
    AssertedFits(t);
    DecodeWidened(t.exponent, t.mantissa, x, f, y);
  }

  lemma MaxIntExact(t: ScalarType, raw: int)
    requires IsFloat(t) && Asserted(t)
    requires raw == MaxRaw(t)
    ensures Fits(t.exponent, t.mantissa) && (IsLargestFinite(t, raw) <==> MaxIsRight(t))
  {
    AssertedFits(t);
    if MaxMantissa(t) < 0 {
      // The reduced mantissa of a format without mantissa bits is -1, which makes the pattern negative.
      assert t.mantissa == 0;
      NegativeProduct(MaxMantissa(t), Pow2(52 - t.mantissa));
      BitOrNegative(MaxMantissa(t) * Pow2(52 - t.mantissa), (MaxExponent(t) - Bias(t.exponent) + 1023) * UNIT);
    } else {
      RawIsMaxDouble(t, raw);
      if MaxIsRight(t) {
        LargestWhenRight(t, raw);
      } else {
        NotLargestWhenWrong(t, raw);
      }
    }
  }

  // ----- the C++ computation

  const WORD: nat := 0x1_0000_0000_0000_0000

  /** Shift and or in 64-bit unsigned arithmetic; `y` is the exponent without its bias. */
  function OrShifted(f: int, scale: nat, y: int): int {
    BitOr((f % WORD) * scale % WORD, (y % WORD + 1023) % WORD * UNIT % WORD)
  }

  /** `_floating_point_max` */
  function CppMaxRaw(t: ScalarType): int
    requires IsFloat(t) && t.mantissa <= 52
  {
    OrShifted(MaxMantissa(t), Pow2(52 - t.mantissa), MaxExponent(t) - Bias(t.exponent))
  }

  lemma OrShiftedExact(f: nat, scale: nat, y: nat)
    requires f < UNIT && f * scale < UNIT && y <= 1023
    ensures OrShifted(f, scale, y) == BitOr(f * scale, (y + 1023) * UNIT)
  {
    NoWrap(f);
    NoWrap(f * scale);
    NoWrap(y);
    NoWrap(y + 1023);
    NoWrap((y + 1023) * UNIT);
  }

  lemma AgreesWithMantissa(t: ScalarType)
    requires IsFloat(t) && Asserted(t) && MaxMantissa(t) >= 0
    ensures CppMaxRaw(t) == MaxRaw(t)
  {
    AssertedFits(t);
    MantissaFits(t.mantissa, MaxMantissa(t));
    OrShiftedExact(MaxMantissa(t), Pow2(52 - t.mantissa), MaxExponent(t) - Bias(t.exponent));
  }

  lemma DiffersWithoutMantissa(t: ScalarType)
    requires IsFloat(t) && Asserted(t) && MaxMantissa(t) < 0
    ensures MaxRaw(t) < 0 <= CppMaxRaw(t)
  {
    var f, scale, y := MaxMantissa(t), Pow2(52 - t.mantissa), MaxExponent(t) - Bias(t.exponent);
    NegativeProduct(f, scale);
    BitOrNegative(f * scale, (y + 1023) * UNIT);
    BitOrNatural((f % WORD) * scale % WORD, (y % WORD + 1023) % WORD * UNIT % WORD);
  }

  lemma {:induction false} BitOrNatural(a: nat, b: nat)
    ensures BitOr(a, b) >= 0
    decreases Magnitude(a) + Magnitude(b)
  {
    if Magnitude(a) + Magnitude(b) > 0 {
      BitOrNatural(a / 2, b / 2);
    }
  }

  /** Both languages compute one bit pattern, exactly unless there is no mantissa bit to reduce: then
      Python's pattern is negative and C++ wraps around. */
  lemma MaxRawAgrees(t: ScalarType)
    requires IsFloat(t) && Asserted(t)
    ensures CppMaxRaw(t) == MaxRaw(t) <==> !(t.nanRepr == NAN_EXTD_RANGE_MAX_MIN && t.mantissa == 0)
  {
    assert MaxMantissa(t) < 0 <==> t.nanRepr == NAN_EXTD_RANGE_MAX_MIN && t.mantissa == 0;
    if MaxMantissa(t) < 0 {
      DiffersWithoutMantissa(t);
    } else {
      AgreesWithMantissa(t);
    }
  }

  lemma MantissaFits(m: nat, f: nat)
    requires m <= 52 && f < Pow2(m)
    ensures f < UNIT && f * Pow2(52 - m) < UNIT
  {
    var p, scale := Pow2(m), Pow2(52 - m);
    UnitIsPower();
    Pow2Add(m, 52 - m);
    ScaleStrict(f, p, scale);
    MulMonotone(1, scale, f);
  }

  lemma NoWrap(x: nat)
    requires x < WORD
    ensures x % WORD == x
  {}
}
