/** Rounding operations of JavaScript's `Math` object, stated over exact reals. */
module Numeric {

  /** `Math.round`: round half up, i.e. floor(x + 1/2). */
  function Round(x: real): (r: int)
    ensures r as real - 0.5 <= x < r as real + 0.5
  {
    (x + 0.5).Floor
  }

  /** `Math.ceil`. */
  function Ceil(x: real): (r: int)
    ensures r as real - 1.0 < x <= r as real
  {
    -((-x).Floor)
  }

  /** Truncation toward zero, as done by `setFullYear` on a fractional year. */
  function Trunc(x: real): (r: int)
    ensures 0.0 <= x ==> r as real <= x < r as real + 1.0
    ensures x < 0.0 ==> r as real - 1.0 < x <= r as real
  {
    if x >= 0.0 then x.Floor else Ceil(x)
  }

  /** Rounding an integral value gives that value back. */
  lemma RoundOfInt(n: int)
    ensures Round(n as real) == n
  {
  }

  /** Rounding preserves the order of its arguments. */
  lemma RoundMonotone(x: real, y: real)
    requires x <= y
    ensures Round(x) <= Round(y)
  {
  }

  lemma MulStep(n: int, p: int)
    ensures (n + 1) * p == p + n * p
  {
  }

  lemma MulNonneg(a: int, b: int)
    requires a >= 0 && b >= 0
    ensures a * b >= 0
  {
  }

  /** `x < y` leaves a gap of at least one `p` between `x * p` and `y * p`. */
  lemma MulGap(x: int, y: int, p: int)
    requires p > 0 && x < y
    ensures x * p + p <= y * p
  {
    var d := y - x;
    MulStep(d - 1, p);
    MulNonneg(d - 1, p);
    assert y * p == x * p + d * p;
  }

  /** Integer division is determined by quotient and remainder. */
  lemma DivUnique(a: int, p: int, q: int, m: int)
    requires p > 0 && 0 <= m < p && a == q * p + m
    ensures a / p == q
  {
    var q0, m0 := a / p, a % p;
    assert a == q0 * p + m0;
    if q0 < q {
      MulGap(q0, q, p);
    } else if q0 > q {
      MulGap(q, q0, p);
    }
  }

  /** Multiplying by a non-negative real preserves order. */
  lemma ScaleMonotone(a: real, b: real, c: real)
    requires a <= b && c >= 0.0
    ensures a * c <= b * c
  {
    assert (b - a) * c >= 0.0;
  }

  /** `Math.floor(u * length)` for a draw `u` of `Math.random()`: an index into a non-empty array. */
  function RandomIndex(length: nat, u: real): (i: nat)
    requires length > 0 && 0.0 <= u < 1.0
    ensures i < length
  {
    assert u * length as real < length as real;
    (u * length as real).Floor
  }

  /** Multiplying by a non-zero factor and dividing by it again cancel out, in either order. */
  lemma Cancel(x: real, c: real)
    requires x != 0.0
    ensures (x * c) / x == c && x * (c / x) == c
  {
  }

  function Max(a: int, b: int): int {
    if a >= b then a else b
  }
}
