/** Java's 32-bit `int` arithmetic, as far as the adapter uses it: the range of
    the type, the wrap-around of `+`, and `/` and `%`, which truncate toward
    zero (where Dafny's own `/` and `%` are Euclidean). The adapter only ever
    divides non-negative numbers (positions and counts), so the dividend is a
    `nat` here; the divisor may be any `int`. */
module JavaInts {

  const Int32Min: int := -0x8000_0000
  const Int32Max: int := 0x7FFF_FFFF
  const Modulus32: int := 0x1_0000_0000

  /** Values of Java's `int`. */
  type Int32 = x: int | Int32Min <= x <= Int32Max

  function Abs(x: int): (r: nat)
    ensures r == x || r == -x
  {
    if x < 0 then -x else x
  }

  /** The `int` that Java's `+` produces when the mathematical result is `x`:
      the unique value of the type congruent to `x` modulo 2^32. */
  function WrapInt32(x: int): (r: Int32)
    ensures (x - r) % Modulus32 == 0
    ensures Int32Min <= x <= Int32Max ==> r == x
    ensures Int32Max < x <= Int32Max + Modulus32 ==> r == x - Modulus32
  {
    var k := (x - Int32Min) / Modulus32;
    assert x - Int32Min == k * Modulus32 + (x - Int32Min) % Modulus32;
    (x - Int32Min) % Modulus32 + Int32Min
  }

  /** Java's `a / b` for a non-negative `a`: the quotient rounded toward zero,
      so that it has the sign of `b` and leaves a remainder in `[0, |b|)`. */
  function Div(a: nat, b: int): (q: int)
    requires b != 0
    ensures 0 <= a - b * q < Abs(b)
    ensures b > 0 ==> q >= 0
    ensures b < 0 ==> q <= 0
    ensures b > 0 ==> q == a / b && q <= a
    ensures b < 0 ==> -q <= a
  {
    if b > 0 then DivBelowDividend(a, b); a / b else DivBelowDividend(a, -b); -(a / -b)
  }

  lemma DivBelowDividend(a: nat, b: int)
    requires b > 0
    ensures a / b <= a
  {
    var q := a / b;
    assert a == b * q + a % b;
    MulMonotone(1, b, q);
  }

  lemma MulMonotone(x: int, y: int, m: int)
    requires m >= 0 && x <= y
    ensures x * m <= y * m
  {
    assert y * m - x * m == (y - x) * m;
  }

  /** Java's `a % b` for a non-negative `a`: what `Div` leaves over. */
  function Rem(a: nat, b: int): (r: int)
    requires b != 0
    ensures r == a - b * Div(a, b)
    ensures 0 <= r < Abs(b)
    ensures b > 0 ==> r == a % b
  {
    a % Abs(b)
  }
}
