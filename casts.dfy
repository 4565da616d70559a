/** The numeric conversions the generator performs on `f32` values and machine
    integers, written out explicitly. Floating-point values are modelled as
    `real`; the helpers give the rounding and cast rules of Rust's `f32` and
    `as` operators on those reals. */
module Casts {

  const I32_MAX: int := 0x7fff_ffff
  const I32_MIN: int := -0x8000_0000
  const U32_MODULUS: int := 0x1_0000_0000

  /** Rounding toward zero, the integer part kept by an `as` cast. */
  function Trunc(x: real): (r: int)
    ensures x >= 0.0 ==> r >= 0 && r as real <= x < r as real + 1.0
    ensures x < 0.0 ==> r <= 0 && r as real - 1.0 < x <= r as real
  {
    if x >= 0.0 then x.Floor else -((-x).Floor)
  }

  /** `f32::round`: to the nearest integer, halfway cases away from zero. */
  function Round(x: real): (r: real)
    ensures r == r.Floor as real
    ensures x >= 0.0 ==> x - 0.5 < r <= x + 0.5
    ensures x < 0.0 ==> x - 0.5 <= r < x + 0.5
  {
    var k: int := if x >= 0.0 then (x + 0.5).Floor else -((-x + 0.5).Floor);
    assert k as real == (k as real).Floor as real;
    k as real
  }

  /** `f32 as i32`: truncation toward zero, saturating at the bounds of `i32`. */
  function CastF32ToI32(x: real): (r: int)
    ensures I32_MIN <= r <= I32_MAX
    ensures I32_MIN as real <= x <= I32_MAX as real ==> r == Trunc(x)
    ensures x >= I32_MAX as real ==> r == I32_MAX
    ensures x <= I32_MIN as real ==> r == I32_MIN
  {
    if x >= I32_MAX as real then I32_MAX
    else if x <= I32_MIN as real then I32_MIN
    else Trunc(x)
  }

  /** `usize as i32`: keeps the low 32 bits, read as two's complement. */
  function CastUsizeToI32(n: nat): (r: int)
    ensures I32_MIN <= r <= I32_MAX
    ensures (n - r) % U32_MODULUS == 0
    ensures n <= I32_MAX ==> r == n
  {
    var low := n % U32_MODULUS;
    if low <= I32_MAX then low else low - U32_MODULUS
  }

  /** `f32::min` and `f32::max` on values that are never NaN. */
  function Min(a: real, b: real): (r: real)
    ensures r <= a && r <= b && (r == a || r == b)
  {
    if a <= b then a else b
  }

  function Max(a: real, b: real): (r: real)
    ensures r >= a && r >= b && (r == a || r == b)
  {
    if a >= b then a else b
  }

  /** The sign of a product with a positive factor is the sign of the other. */
  lemma SignOfProduct(x: real, t: real)
    requires t > 0.0
    ensures x < 0.0 ==> x * t < 0.0
    ensures x == 0.0 ==> x * t == 0.0
    ensures x > 0.0 ==> x * t > 0.0
  {
  }

  /** Multiplying by a positive factor keeps and reflects the order. */
  lemma ScaleOrder(a: real, b: real, t: real)
    requires t > 0.0
    ensures a <= b <==> a * t <= b * t
    ensures a < b <==> a * t < b * t
  {
    assert b * t - a * t == (b - a) * t;
    SignOfProduct(b - a, t);
  }

  /** Multiplying by a non-negative factor keeps the order. */
  lemma ScaleMonotone(a: real, b: real, t: real)
    requires a <= b && t >= 0.0
    ensures a * t <= b * t
  {
    if t > 0.0 {
      ScaleOrder(a, b, t);
    }
  }

  /** Casting a product of integers to a real multiplies the casts. */
  lemma {:induction false} CastProduct(a: int, b: nat)
    ensures (a * b) as real == a as real * b as real
  {
    if b > 0 {
      CastProduct(a, b - 1);
      assert a * b == a * (b - 1) + a;
      assert a as real * b as real == a as real * (b - 1) as real + a as real;
    }
  }

  /** The floor of an exact quotient of integers is Euclidean division. */
  lemma FloorOfQuotient(n: int, d: int)
    requires d > 0
    ensures (n as real / d as real).Floor == n / d
  {
    var q := n / d;
    var z := n as real / d as real;
    assert q * d <= n < (q + 1) * d;
    assert z * d as real == n as real;
    CastProduct(q, d);
    CastProduct(q + 1, d);
    assert q as real * d as real <= z * d as real;
    assert z * d as real < (q + 1) as real * d as real;
    ScaleOrder(q as real, z, d as real);
    ScaleOrder(z, (q + 1) as real, d as real);
    assert q as real <= z < q as real + 1.0;
  }

  /** A non-negative truncating cast of a quotient is integer division. */
  lemma TruncOfQuotient(n: nat, d: int)
    requires d > 0
    ensures Trunc(n as real / d as real) == n / d
  {
    FloorOfQuotient(n, d);
  }
}
