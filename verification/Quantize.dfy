/** Per-token integer quantisation of one row: `dynamic_per_token_int8_quant_ref` of vllm/_xpu_ops.py.

    Arithmetic is over exact reals: float rounding and the cast of the scale to the input type are not
    modelled.  Rounding to integers is to the nearest, ties to even, and the final cast to eight bits
    wraps around. */
module Quantize {
  import opened Arithmetic

  // ----- rounding

  function Round(x: real): int {
    var f := x.Floor;
    var d := x - f as real;
    if d < 0.5 || (d == 0.5 && f % 2 == 0) then f else f + 1
  }

  lemma RoundIsNear(x: real)
    ensures -0.5 <= Round(x) as real - x <= 0.5
  {}

  lemma RoundMonotone(x: real, y: real)
    requires x <= y
    ensures Round(x) <= Round(y)
  {}

  lemma RoundWhole(n: int)
    ensures Round(n as real) == n
  {}

  // ----- one row

  function MinOf(row: seq<real>): (r: real)
    requires row != []
    ensures r in row && forall i | 0 <= i < |row| :: r <= row[i]
  {
    if |row| == 1 then row[0]
    else
      var rest := MinOf(row[1..]);
      if row[0] <= rest then row[0] else rest
  }

  function MaxOf(row: seq<real>): (r: real)
    requires row != []
    ensures r in row && forall i | 0 <= i < |row| :: row[i] <= r
  {
    if |row| == 1 then row[0]
    else
      var rest := MaxOf(row[1..]);
      if row[0] >= rest then row[0] else rest
  }

  function Abs(x: real): real { if x < 0.0 then -x else x }

  function Larger(x: real, y: real): real { if x < y then y else x }

  const MIN_SCALE: real := 0.00001

  datatype Params = Params(qmin: int, qmax: int, scale: real, zeroPoint: int)

  /** One bit leaves the symmetric mode nothing to divide by. */
  predicate Quantizable(symmetric: bool, bits: nat) {
    bits >= 2 || (bits == 1 && !symmetric)
  }

  function QMax(symmetric: bool, bits: nat): int
    requires bits >= 1
  {
    if symmetric then Pow2(bits - 1) - 1 else Pow2(bits) - 1
  }

  lemma QMaxPositive(symmetric: bool, bits: nat)
    requires Quantizable(symmetric, bits)
    ensures QMax(symmetric, bits) >= 1 && (!symmetric ==> QMax(symmetric, bits) % 2 == 1)
  {}

  /** Range, scale and zero point of a row. */
  function ParamsOf(symmetric: bool, row: seq<real>, bits: nat): (p: Params)
    requires row != [] && Quantizable(symmetric, bits)
    ensures p.scale >= MIN_SCALE
  {
    QMaxPositive(symmetric, bits);
    var lo, hi, qmax := MinOf(row), MaxOf(row), QMax(symmetric, bits);
    if symmetric then
      Params(-(Pow2(bits - 1) as int), qmax, Larger(Larger(Abs(lo), Abs(hi)) / qmax as real, MIN_SCALE), 0)
    else
      var scale := Larger((hi - lo) / qmax as real, MIN_SCALE);
      Params(0, qmax, scale, -Round(lo / scale))
  }

  function Clamp(q: int, lo: int, hi: int): int {
    if q < lo then lo else if q > hi then hi else q
  }

  /** The quantised value before the cast to eight bits. */
  function QuantizeOne(p: Params, x: real): int
    requires p.scale > 0.0
  {
    Clamp(Round(x / p.scale + p.zeroPoint as real), p.qmin, p.qmax)
  }

  /** `.to(int8)` or `.to(uint8)` */
  function Cast8(symmetric: bool, q: int): int {
    if symmetric then (q + 128) % 256 - 128 else q % 256
  }

  function Dequantize(p: Params, q: int): real {
    (q - p.zeroPoint) as real * p.scale
  }

  /** The zero point survives its way through 32-bit integers. */
  predicate ZeroPointFits(p: Params) {
    -0x8000_0000 < p.zeroPoint < 0x8000_0000
  }

  // ----- exactly when the zero point fits

  /** The smallest quotient whose rounding leaves the 32-bit range; the tie goes to the even 2^31. */
  const ZERO_POINT_LIMIT: real := 2147483647.5

  /** The largest magnitude, or the largest difference. */
  function Reach(symmetric: bool, row: seq<real>): real
    requires row != []
  {
    if symmetric then Larger(Abs(MinOf(row)), Abs(MaxOf(row))) else MaxOf(row) - MinOf(row)
  }

  /** The least scale, not below the smallest allowed, at which `qmax` steps reach that far. */
  function ScaleFor(reach: real, qmax: real): (s: real)
    requires qmax > 0.0
    ensures s >= MIN_SCALE
  {
    Larger(reach / qmax, MIN_SCALE)
  }

  function ScaleOf(symmetric: bool, row: seq<real>, bits: nat): (s: real)
    requires row != [] && Quantizable(symmetric, bits)
    ensures s >= MIN_SCALE
  {
    QMaxPositive(symmetric, bits);
    ScaleFor(Reach(symmetric, row), QMax(symmetric, bits) as real)
  }

  /** The smallest element is not too many scales away from zero; the symmetric mode does not care. */
  predicate LowFits(symmetric: bool, row: seq<real>, bits: nat)
    requires row != [] && Quantizable(symmetric, bits)
  {
    var s := ScaleOf(symmetric, row, bits);
    symmetric || -ZERO_POINT_LIMIT * s < MinOf(row) < ZERO_POINT_LIMIT * s
  }

  lemma RoundFits(x: real)
    ensures -0x8000_0000 < Round(x) < 0x8000_0000 <==> -ZERO_POINT_LIMIT < x < ZERO_POINT_LIMIT
  {}

  lemma QuotientStrict(x: real, s: real, b: real)
    requires s > 0.0
    ensures x / s < b <==> x < b * s
    ensures b < x / s <==> b * s < x
  {
    var q := x / s;
    assert q * s == x;
    assert q < b ==> q * s < b * s;
    assert q >= b ==> q * s >= b * s;
    assert q > b ==> q * s > b * s;
    assert q <= b ==> q * s <= b * s;
  }

  /** The zero point fits 32 bits if and only if the smallest element is less than 2147483647.5 scales
      away from zero. */
  lemma ZeroPointFitsExactly(symmetric: bool, row: seq<real>, bits: nat)
    requires row != [] && Quantizable(symmetric, bits)
    ensures ZeroPointFits(ParamsOf(symmetric, row, bits)) <==> LowFits(symmetric, row, bits)
  {
    var s, lo := ScaleOf(symmetric, row, bits), MinOf(row);
    if !symmetric {
      RoundFits(lo / s);
      QuotientStrict(lo, s, ZERO_POINT_LIMIT);
      QuotientStrict(lo, s, -ZERO_POINT_LIMIT);
    }
  }

  // ----- the scale is the least that needs no clamping

  /** How far the scaled range has to reach: the largest magnitude, or the largest difference. */
  ghost predicate ReachedBy(symmetric: bool, row: seq<real>, c: real) {
    if symmetric then forall i | 0 <= i < |row| :: Abs(row[i]) <= c
    else forall i, j | 0 <= i < |row| && 0 <= j < |row| :: row[i] - row[j] <= c
  }

  lemma ReachIsLeast(symmetric: bool, row: seq<real>, c: real)
    requires row != []
    ensures ReachedBy(symmetric, row, c) <==> Reach(symmetric, row) <= c
  {
    var i :| 0 <= i < |row| && row[i] == MinOf(row);
    var j :| 0 <= j < |row| && row[j] == MaxOf(row);
  }

  lemma LargerIsLeast(a: real, b: real, s: real)
    requires b > 0.0
    ensures Larger(a / b, MIN_SCALE) <= s <==> a <= s * b && MIN_SCALE <= s
  {
    QuotientStrict(a, b, s);
  }

  /** `qmax` steps of size `s` span the row. */
  ghost predicate Spanned(symmetric: bool, row: seq<real>, qmax: real, s: real) {
    ReachedBy(symmetric, row, s * qmax)
  }

  /** No element of the row needs clamping at scale `s`. */
  ghost predicate Covers(symmetric: bool, row: seq<real>, bits: nat, s: real)
    requires Quantizable(symmetric, bits)
  {
    Spanned(symmetric, row, QMax(symmetric, bits) as real, s)
  }

  lemma {:induction false} ScaleOfIsLeast(symmetric: bool, row: seq<real>, bits: nat, s: real)
    requires row != [] && Quantizable(symmetric, bits)
    ensures ScaleOf(symmetric, row, bits) <= s <==> MIN_SCALE <= s && Covers(symmetric, row, bits, s)
  {
    QMaxPositive(symmetric, bits);
    LeastFor(symmetric, row, QMax(symmetric, bits) as real, s);
  }

  lemma LeastFor(symmetric: bool, row: seq<real>, qmax: real, s: real)
    requires row != [] && qmax >= 1.0
    ensures ScaleFor(Reach(symmetric, row), qmax) <= s <==> MIN_SCALE <= s && Spanned(symmetric, row, qmax, s)
  {
    LargerIsLeast(Reach(symmetric, row), qmax, s);
    ReachIsLeast(symmetric, row, s * qmax);
  }

  /** The scale of a row is the least one, not below the smallest allowed, at which nothing is clamped. */
  lemma {:induction false} ScaleIsLeast(symmetric: bool, row: seq<real>, bits: nat, s: real)
    requires row != [] && Quantizable(symmetric, bits)
    ensures ParamsOf(symmetric, row, bits).scale <= s <==> MIN_SCALE <= s && Covers(symmetric, row, bits, s)
  {
    ScaleOfParams(symmetric, row, bits);
    ScaleOfIsLeast(symmetric, row, bits, s);
  }

  lemma {:induction false} ScaleOfParams(symmetric: bool, row: seq<real>, bits: nat)
    requires row != [] && Quantizable(symmetric, bits)
    ensures ParamsOf(symmetric, row, bits).scale == ScaleOf(symmetric, row, bits)
  {
    QMaxPositive(symmetric, bits);
  }

  /** The ends of the range: zero is stored as the zero point 0 in the symmetric mode, whose range has one
      more value below zero than above; in the other mode the smallest element is stored as 0. */
  lemma EndsExact(symmetric: bool, row: seq<real>, bits: nat)
    requires row != [] && Quantizable(symmetric, bits)
    ensures
      var p := ParamsOf(symmetric, row, bits);
      && p.qmax - p.qmin + 1 == Pow2(bits)
      && (symmetric ==> p.zeroPoint == 0 && p.qmin + p.qmax == -1 && QuantizeOne(p, 0.0) == 0)
      && (!symmetric ==> p.qmin == 0 && QuantizeOne(p, MinOf(row)) == 0)
  {
    var p := ParamsOf(symmetric, row, bits);
    QMaxPositive(symmetric, bits);
    if symmetric {
      assert 0.0 / p.scale == 0.0;
      RoundWhole(0);
    } else {
      CentredRound(MinOf(row) / p.scale);
    }
  }

  lemma CentredRound(u: real)
    ensures Round(u + (-Round(u)) as real) == 0
  {
    RoundIsNear(u);
  }

  /** Rounding goes to the nearest integer, and from halfway to the even one. */
  lemma RoundExact(x: real, n: int)
    ensures Round(x) == n <==>
            -0.5 <= n as real - x <= 0.5 && (n as real - x == 0.5 || n as real - x == -0.5 ==> n % 2 == 0)
  {}

  /** The cast keeps the value modulo 256, in the range of its type. */
  lemma CastExact(symmetric: bool, q: int, r: int)
    ensures r == Cast8(symmetric, q) <==>
            (r - q) % 256 == 0 && (if symmetric then -128 <= r < 128 else 0 <= r < 256)
  {}

  // ----- the error bound

  lemma Quotient(x: real, s: real, b: real)
    requires s > 0.0 && x <= b * s
    ensures x / s <= b
  {}

  /** Half a step of the quotient is half a scale of the value. */
  lemma Rescale(k: real, x: real, s: real)
    requires s > 0.0 && -0.5 <= k - x / s <= 0.5
    ensures -s / 2.0 <= k * s - x <= s / 2.0
  {
    var d := k - x / s;
    assert (x / s) * s == x;
    assert k * s - x == d * s;
    assert -0.5 * s <= d * s <= 0.5 * s;
  }

  lemma ScaleCovers(a: real, b: real)
    requires b > 0.0
    ensures a <= b * Larger(a / b, MIN_SCALE)
  {
    assert (a / b) * b == a;
    assert b * (a / b) <= b * Larger(a / b, MIN_SCALE);
  }

  lemma HalfStepSymmetric(u: real, qmax: int)
    requires -(qmax as real) <= u <= qmax as real
    ensures -0.5 <= Clamp(Round(u), -qmax - 1, qmax) as real - u <= 0.5
  {}

  /** The rounded zero point may push the top of the row to half a step above the range; a tie there
      rounds up to an even number and is clamped back. */
  lemma HalfStepAsymmetric(u: real, low: real, qmax: int)
    requires low <= u <= low + qmax as real
    ensures
      var z := -Round(low);
      -0.5 <= (Clamp(Round(u + z as real), 0, qmax) - z) as real - u <= 0.5
  {
    RoundIsNear(low);
  }

  lemma SymmetricQuotient(a: real, x: real, qmax: real)
    requires qmax >= 1.0 && -a <= x <= a
    ensures -qmax <= x / Larger(a / qmax, MIN_SCALE) <= qmax
  {
    var s := Larger(a / qmax, MIN_SCALE);
    ScaleCovers(a, qmax);
    Quotient(x, s, qmax);
    Quotient(-x, s, qmax);
  }

  lemma AsymmetricQuotient(lo: real, hi: real, x: real, qmax: real)
    requires qmax >= 1.0 && lo <= x <= hi
    ensures
      var s := Larger((hi - lo) / qmax, MIN_SCALE);
      lo / s <= x / s <= lo / s + qmax
  {
    var s := Larger((hi - lo) / qmax, MIN_SCALE);
    ScaleCovers(hi - lo, qmax);
    assert (lo / s) * s == lo && (x / s) * s == x;
    Distribute(lo / s, qmax, s);
    Quotient(x, s, lo / s + qmax);
    Quotient(lo, s, x / s);
  }

  lemma Distribute(a: real, b: real, c: real)
    ensures (a + b) * c == a * c + b * c
  {}

  /** Clamping costs nothing: the clamped rounding stays within half a step of the quotient. */
  lemma WithinHalfStep(symmetric: bool, row: seq<real>, bits: nat, i: nat)
    requires row != [] && Quantizable(symmetric, bits) && i < |row|
    ensures
      var p := ParamsOf(symmetric, row, bits);
      -0.5 <= (QuantizeOne(p, row[i]) - p.zeroPoint) as real - row[i] / p.scale <= 0.5
  {
    var p := ParamsOf(symmetric, row, bits);
    var lo, hi, x := MinOf(row), MaxOf(row), row[i];
    QMaxPositive(symmetric, bits);
    if symmetric {
      SymmetricQuotient(Larger(Abs(lo), Abs(hi)), x, p.qmax as real);
      HalfStepSymmetric(x / p.scale, p.qmax);
    } else {
      AsymmetricQuotient(lo, hi, x, p.qmax as real);
      HalfStepAsymmetric(x / p.scale, lo / p.scale, p.qmax);
    }
  }

  predicate Within(p: Params, q: int, x: real) {
    -p.scale / 2.0 <= Dequantize(p, q) - x <= p.scale / 2.0
  }

  /** For every row, mode and bit width, quantising stays in range and within half a scale of the
      element. */
  lemma ErrorBound(symmetric: bool, row: seq<real>, bits: nat, i: nat)
    requires row != [] && Quantizable(symmetric, bits) && i < |row|
    ensures
      var p := ParamsOf(symmetric, row, bits);
      var q := QuantizeOne(p, row[i]);
      p.qmin <= q <= p.qmax && Within(p, q, row[i])
  {
    var p := ParamsOf(symmetric, row, bits);
    RangeIsNonempty(symmetric, row, bits);
    WithinHalfStep(symmetric, row, bits, i);
    HalfStepIsHalfScale(p, QuantizeOne(p, row[i]), row[i]);
  }

  lemma RangeIsNonempty(symmetric: bool, row: seq<real>, bits: nat)
    requires row != [] && Quantizable(symmetric, bits)
    ensures ParamsOf(symmetric, row, bits).qmin <= ParamsOf(symmetric, row, bits).qmax
  {
    QMaxPositive(symmetric, bits);
  }

  lemma HalfStepIsHalfScale(p: Params, q: int, x: real)
    requires p.scale > 0.0 && -0.5 <= (q - p.zeroPoint) as real - x / p.scale <= 0.5
    ensures Within(p, q, x)
  {
    Rescale((q - p.zeroPoint) as real, x, p.scale);
  }

  lemma QuantizeMonotone(p: Params, x: real, y: real)
    requires p.scale > 0.0 && p.qmin <= p.qmax && x <= y
    ensures QuantizeOne(p, x) <= QuantizeOne(p, y)
  {
    assert (y / p.scale) * p.scale == y;
    Quotient(x, p.scale, y / p.scale);
    RoundMonotone(x / p.scale + p.zeroPoint as real, y / p.scale + p.zeroPoint as real);
  }

  // ----- the cast to eight bits

  /** Every element of every row whose smallest element is in reach is stored within half a scale. */
  ghost predicate StoresAll(symmetric: bool, bits: nat)
    requires Quantizable(symmetric, bits)
  {
    forall row: seq<real>, i: nat | row != [] && i < |row| && LowFits(symmetric, row, bits) ::
      StoresWell(symmetric, bits, row, i)
  }

  predicate StoresWell(symmetric: bool, bits: nat, row: seq<real>, i: nat)
    requires row != [] && i < |row| && Quantizable(symmetric, bits)
  {
    var p := ParamsOf(symmetric, row, bits);
    Within(p, Cast8(symmetric, QuantizeOne(p, row[i])), row[i])
  }

  lemma EightBitsFit(symmetric: bool, row: seq<real>, bits: nat, i: nat)
    requires row != [] && Quantizable(symmetric, bits) && bits <= 8 && i < |row|
    ensures
      var q := QuantizeOne(ParamsOf(symmetric, row, bits), row[i]);
      Cast8(symmetric, q) == q
  {
    ErrorBound(symmetric, row, bits, i);
    assert Pow2(7) == 128;
    Pow2Monotone(bits - 1, 7);
  }

  lemma MultipleOf256(n: nat)
    requires n >= 8
    ensures Pow2(n) % 256 == 0 && Pow2(n) >= 256
  {
    assert Pow2(8) == 256;
    Pow2Add(8, n - 8);
    assert Pow2(n) == 256 * Pow2(n - 8);
  }

  /** A row whose scale is 1: from 0, or just, the top of the range. */
  function WideRow(symmetric: bool, bits: nat): (row: seq<real>)
    requires Quantizable(symmetric, bits)
  {
    var top := QMax(symmetric, bits) as real;
    if symmetric then [top] else [0.0, top]
  }

  lemma WideRowExtremes(symmetric: bool, bits: nat)
    requires Quantizable(symmetric, bits)
    ensures
      var row, top := WideRow(symmetric, bits), QMax(symmetric, bits) as real;
      MaxOf(row) == top && MinOf(row) == if symmetric then top else 0.0
  {
    var row := WideRow(symmetric, bits);
    QMaxPositive(symmetric, bits);
    assert row[|row| - 1] == QMax(symmetric, bits) as real && (!symmetric ==> row[0] == 0.0);
  }

  lemma WideRowParams(symmetric: bool, bits: nat)
    requires Quantizable(symmetric, bits)
    ensures
      var p := ParamsOf(symmetric, WideRow(symmetric, bits), bits);
      p.scale == 1.0 && p.zeroPoint == 0
  {
    var row, top := WideRow(symmetric, bits), QMax(symmetric, bits) as real;
    QMaxPositive(symmetric, bits);
    WideRowExtremes(symmetric, bits);
    assert (if symmetric then Larger(Abs(MinOf(row)), Abs(MaxOf(row))) else MaxOf(row) - MinOf(row)) == top;
    UnitScale(top);
    RoundWhole(0);
    assert 0.0 / 1.0 == 0.0;
  }

  lemma UnitScale(x: real)
    requires x >= 1.0
    ensures Larger(x / x, MIN_SCALE) == 1.0
  {}

  lemma TopWraps(p: Params, symmetric: bool, bits: nat)
    requires bits >= 9 && p.scale == 1.0 && p.zeroPoint == 0
    requires p.qmin <= p.qmax == QMax(symmetric, bits)
    ensures !Within(p, Cast8(symmetric, QuantizeOne(p, p.qmax as real)), p.qmax as real)
  {
    RoundWhole(p.qmax);
    MultipleOf256(if symmetric then bits - 1 else bits);
    MultipleOf256(bits - 1);
    assert QuantizeOne(p, p.qmax as real) == p.qmax;
    var q := Cast8(symmetric, p.qmax);
    assert q == if symmetric then -1 else 255;
    assert Dequantize(p, q) == q as real;
  }

  lemma WideRowWraps(symmetric: bool, bits: nat)
    requires bits >= 9
    ensures !StoresAll(symmetric, bits)
  {
    var row := WideRow(symmetric, bits);
    var i: nat := |row| - 1;
    WideRowParams(symmetric, bits);
    RangeIsNonempty(symmetric, row, bits);
    ZeroPointFitsExactly(symmetric, row, bits);
    TopWraps(ParamsOf(symmetric, row, bits), symmetric, bits);
    assert !StoresWell(symmetric, bits, row, i);
  }

  /** The stored values meet the error bound for all rows exactly when the width is at most eight bits. */
  lemma StoredExactly(symmetric: bool, bits: nat)
    requires Quantizable(symmetric, bits)
    ensures StoresAll(symmetric, bits) <==> bits <= 8
  {
    if bits <= 8 {
      forall row: seq<real>, i: nat | row != [] && i < |row| ensures StoresWell(symmetric, bits, row, i) {
        ErrorBound(symmetric, row, bits, i);
        EightBitsFit(symmetric, row, bits, i);
      }
    } else {
      WideRowWraps(symmetric, bits);
    }
  }

  /** The zero point of a constant row grows with its value over the smallest scale: for the row [30000]
      it does not fit 32 bits. */
  lemma LargeConstantRowOverflows(bits: nat)
    requires bits >= 1
    ensures !ZeroPointFits(ParamsOf(false, [30000.0], bits))
  {
    var row := [30000.0];
    assert row[0] == 30000.0 && MinOf(row) == MaxOf(row) == 30000.0;
    assert ScaleOf(false, row, bits) == MIN_SCALE by { assert (30000.0 - 30000.0) / QMax(false, bits) as real == 0.0; }
    ZeroPointFitsExactly(false, row, bits);
  }
}
