/** Integer arithmetic the models share: powers of two, bitwise or on unbounded two's-complement
    integers, and uniqueness of quotient and remainder. */
module Arithmetic {
  function Pow2(n: nat): (r: nat)
    ensures r > 0
  {
    if n == 0 then 1 else 2 * Pow2(n - 1)
  }

  lemma {:induction false} Pow2Add(a: nat, b: nat)
    ensures Pow2(a + b) == Pow2(a) * Pow2(b)
  {
    if a > 0 {
      Pow2Add(a - 1, b);
      assert 2 * Pow2(a - 1) * Pow2(b) == 2 * (Pow2(a - 1) * Pow2(b));
    }
  }

  lemma {:induction false} Pow2Monotone(a: nat, b: nat)
    requires a <= b
    ensures Pow2(a) <= Pow2(b)
    decreases b
  {
    if a < b {
      Pow2Monotone(a, b - 1);
    }
  }

  function Magnitude(a: int): nat {
    if a >= 0 then a else -a - 1
  }

  /** Python's `a | b`. */
  function BitOr(a: int, b: int): int
    decreases Magnitude(a) + Magnitude(b)
  {
    if Magnitude(a) == 0 && Magnitude(b) == 0 then
      if a == 0 && b == 0 then 0 else -1
    else
      2 * BitOr(a / 2, b / 2) + if a % 2 == 1 || b % 2 == 1 then 1 else 0
  }

  lemma {:induction false} BitOrZero(b: int)
    ensures BitOr(0, b) == b
    decreases Magnitude(b)
  {
    if Magnitude(b) > 0 {
      BitOrZero(b / 2);
    }
  }

  lemma {:induction false} BitOrNegative(a: int, b: int)
    requires a < 0
    ensures BitOr(a, b) < 0
    decreases Magnitude(a) + Magnitude(b)
  {
    if Magnitude(a) + Magnitude(b) > 0 {
      BitOrNegative(a / 2, b / 2);
    }
  }

  /** Bits that do not meet add up. */
  lemma {:induction false} BitOrDisjoint(a: nat, b: int, k: nat)
    requires a < Pow2(k)
    ensures BitOr(a, b * Pow2(k)) == a + b * Pow2(k)
    decreases k
  {
    if k == 0 {
      BitOrZero(b);
    } else {
      var high := b * Pow2(k - 1);
      assert b * Pow2(k) == 2 * high;
      assert (2 * high) / 2 == high && (2 * high) % 2 == 0;
      BitOrDisjoint(a / 2, b, k - 1);
      assert BitOr(a / 2, high) == a / 2 + high;
      if Magnitude(a) == 0 && Magnitude(2 * high) == 0 {
        assert a == 0 && high == 0;
      }
    }
  }

  lemma MulMonotone(a: nat, b: nat, c: nat)
    requires a <= b
    ensures a * c <= b * c
  {}

  lemma DivModUnique(x: nat, q: nat, r: nat, m: nat)
    requires m > 0 && r < m && x == q * m + r
    ensures x / m == q && x % m == r
  {
    var q', r' := x / m, x % m;
    assert x == q' * m + r';
    assert (q' + 1) * m == q' * m + m && (q + 1) * m == q * m + m;
    if q > q' {
      MulMonotone(q' + 1, q, m);
    } else if q < q' {
      MulMonotone(q + 1, q', m);
    }
  }
}
