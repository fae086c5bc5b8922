/** C integer arithmetic as the kernels use it: 64-bit signed ranges and the
    truncating division and remainder of section 6.5.5 of ISO/IEC 9899:2011
    (the quotient is rounded toward zero, the remainder takes the sign of the
    dividend). Dafny's own `/` and `%` on `int` are Euclidean, so they are
    only used here on non-negative operands. */
module CArith {

  const Int64Min: int := -0x8000_0000_0000_0000
  const Int64Max: int := 0x7FFF_FFFF_FFFF_FFFF
  const Uint64Limit: int := 0x1_0000_0000_0000_0000

  /** Values of C's `uint64_t`. */
  type Uint64 = x: int | 0 <= x < Uint64Limit

  predicate IsInt64(x: int) {
    Int64Min <= x <= Int64Max
  }

  function Abs(x: int): nat {
    if x < 0 then -x else x
  }

  /** C's `a / b` on signed integers: truncation toward zero. */
  function CDiv(a: int, b: int): int
    requires b != 0
  {
    if (a < 0) == (b < 0) then Abs(a) / Abs(b) else -(Abs(a) / Abs(b))
  }

  /** C's `a % b` on signed integers: the remainder of the truncating
      division, which carries the sign of `a`. */
  function CRem(a: int, b: int): int
    requires b != 0
  {
    if a >= 0 then a % Abs(b) else -((-a) % Abs(b))
  }

  /** Quotient and remainder recompose the dividend (section 6.5.5,
      paragraph 6 of ISO/IEC 9899:2011); the remainder has the sign of the
      dividend and is smaller than the divisor in magnitude. */
  lemma CRemSpec(a: int, b: int)
    requires b != 0
    ensures a == CDiv(a, b) * b + CRem(a, b)
    ensures Abs(CRem(a, b)) < Abs(b)
    ensures a >= 0 ==> CRem(a, b) >= 0
    ensures a <= 0 ==> CRem(a, b) <= 0
  {
    var q, r := Abs(a) / Abs(b), Abs(a) % Abs(b);
    assert Abs(a) == q * Abs(b) + r;
    if b < 0 {
      assert q * Abs(b) == -(q * b);
      if a < 0 {
        assert CDiv(a, b) * b == q * b;
      } else {
        assert CDiv(a, b) * b == -q * b;
      }
    } else {
      if a < 0 {
        assert CDiv(a, b) * b == -(q * b);
      }
    }
  }

  /** With a positive modulus the C remainder lies strictly between `-p`
      and `p` and is congruent to its dividend modulo `p`. */
  lemma CRemCongruent(a: int, p: int)
    requires p > 0
    ensures -p < CRem(a, p) < p
    ensures CRem(a, p) % p == a % p
  {
    CRemSpec(a, p);
    ShiftByMultiple(a, -CDiv(a, p), p);
  }

  /** Adding a multiple of `p` does not change the Euclidean remainder. */
  lemma ShiftByMultiple(a: int, k: int, p: int)
    requires p > 0
    ensures (a + k * p) % p == a % p
  {
    var x := a + k * p;
    var d, r := a / p, a % p;
    assert a == d * p + r && 0 <= r < p;
    assert x == (d + k) * p + r;
    var e, s := x / p, x % p;
    assert x == e * p + s && 0 <= s < p;
    assert (e - d - k) * p == r - s;
    MultipleBelow(e - d - k, p);
  }

  /** The only multiple of `p` strictly between `-p` and `p` is zero. */
  lemma MultipleBelow(m: int, p: int)
    requires p > 0 && -p < m * p < p
    ensures m == 0
  {
  }

  /** Multiplying by a non-negative factor keeps the order. */
  lemma MulMonotone(a: nat, b: nat, c: nat)
    requires a <= b
    ensures a * c <= b * c
  {
  }
}
