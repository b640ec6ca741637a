/**
  * The integer arithmetic of the C source that differs from Dafny's unbounded
  * integers: conversion to `uint8_t` and `int16_t`, and C's division, which
  * rounds toward zero where Dafny's rounds down.
  */
module CInt {

  /** The values of a C `uint8_t`. */
  type u8 = x: int | 0 <= x < 0x100

  /** The values of a C `int16_t`. */
  type i16 = x: int | -0x8000 <= x < 0x8000

  function Abs(v: int): (r: nat)
    ensures r == v || r == -v
  {
    if v < 0 then -v else v
  }

  function Min(a: int, b: int): (r: int)
    ensures r <= a && r <= b && (r == a || r == b)
  {
    if a < b then a else b
  }

  function Max(a: int, b: int): (r: int)
    ensures a <= r && b <= r && (r == a || r == b)
  {
    if a < b then b else a
  }

  /** Storing an integer into a `uint8_t`: the value modulo 256. */
  function Wrap8(v: int): u8 {
    v % 0x100
  }

  /** The stored value differs from `v` by a multiple of 256, and is `v` itself when `v` fits. */
  lemma Wrap8Congruent(v: int)
    ensures (v - Wrap8(v)) % 0x100 == 0
    ensures 0 <= v < 0x100 ==> Wrap8(v) == v
  {
  }

  /** Storing a non-negative integer into a `uint8_t` never makes it larger. */
  lemma Wrap8Below(v: int)
    requires 0 <= v
    ensures Wrap8(v) <= v
  {
  }

  /** Storing an integer into an `int16_t`: two's complement wrap-around. */
  function Wrap16(v: int): (r: i16)
    ensures (v - r) % 0x1_0000 == 0
    ensures -0x8000 <= v < 0x8000 ==> r == v
  {
    (v + 0x8000) % 0x1_0000 - 0x8000
  }

  /**
    * C's `a / b` for a positive divisor: the quotient is rounded toward zero,
    * so the remainder `a - q * b` has the sign of `a`.
    */
  function CDiv(a: int, b: int): (q: int)
    requires b > 0
    ensures 0 <= a ==> q * b <= a < q * b + b
    ensures a < 0 ==> q * b - b < a <= q * b
  {
    if a >= 0 then a / b else -((-a) / b)
  }

  // ---------------------------------------------------------------------
  // Facts about products that the solver does not find on its own

  lemma MulMono(a: int, b: int, c: nat)
    requires a <= b
    ensures a * c <= b * c
  {
    assert b * c - a * c == (b - a) * c;
  }

  /** One more step of a running sum: from s == d * n, s + d is d * n' for n' == n + 1. */
  lemma MulSucc(d: int, n: int, n': int, s: int)
    requires s == d * n && n' == n + 1
    ensures s + d == d * n'
  {
  }

  lemma MulNonneg(a: int, b: int)
    requires a >= 0 && b >= 0
    ensures a * b >= 0
  {
  }

  lemma MulSign(m: int, d: int)
    requires d > 0
    ensures m > 0 ==> m * d > 0
    ensures m < 0 ==> m * d < 0
  {
  }

  /** A multiple of d strictly between -d and d is zero. */
  lemma ZeroFactor(m: int, d: int)
    requires d > 0 && -d < m * d < d
    ensures m == 0
  {
    if m >= 1 {
      MulMono(1, m, d);
    } else if m <= -1 {
      MulMono(m, -1, d);
    }
  }

  /** The remainder is the one r with n == q * d + r and 0 <= r < d. */
  lemma ModUnique(n: int, d: int, q: int, r: int)
    requires d > 0 && n == q * d + r && 0 <= r < d
    ensures n % d == r && n / d == q
  {
    var q', r' := n / d, n % d;
    assert (q - q') * d == r' - r;
    ZeroFactor(q - q', d);
  }
}
