/** Exact-arithmetic counterparts of the JavaScript numeric built-ins the program uses
    (Math.round, Math.max) and the facts about integer division that relate them. */
module Arith {

  /** Math.round: the nearest integer, ties rounded towards +infinity. */
  function RoundHalfUp(x: real): (r: int)
    ensures r as real <= x + 0.5 < r as real + 1.0
  {
    (x + 0.5).Floor
  }

  /** Math.max on two integers. */
  function Max(a: int, b: int): (r: int)
    ensures r >= a && r >= b
    ensures r == a || r == b
  {
    if a >= b then a else b
  }

  /** Integer division by a positive divisor is the floor of the real quotient. */
  lemma FloorOfQuotient(a: int, b: int)
    requires b > 0
    ensures (a as real / b as real).Floor == a / b
  {
    var q, r := a / b, a % b;
    var x := a as real / b as real;
    assert a == q * b + r && 0 <= r < b;
    assert x * b as real == a as real;
    assert x == q as real + r as real / b as real;
    assert 0.0 <= r as real / b as real < 1.0;
    assert q as real <= x < q as real + 1.0;
  }

  /** A real that gives a when multiplied by b is the quotient a / b. */
  lemma RealQuotient(x: real, a: real, b: real)
    requires b != 0.0 && x * b == a
    ensures x == a / b
  {
  }

  /** Multiplying by a non-negative real keeps the order. */
  lemma RealMulMonotone(a: real, b: real, c: real)
    requires a <= b && c >= 0.0
    ensures c * a <= c * b
  {
    assert c * b - c * a == c * (b - a);
  }

  /** Multiplying by a positive real keeps the strict order. */
  lemma RealMulStrict(a: real, b: real, c: real)
    requires a < b && c > 0.0
    ensures c * a < c * b
  {
    assert c * b - c * a == c * (b - a);
  }

  /** Dividing by a positive real keeps the order. */
  lemma RealDivMonotone(a: real, b: real, c: real)
    requires a <= b && c > 0.0
    ensures a / c <= b / c
  {
    assert b / c - a / c == (b - a) / c;
  }

  /** Dividing by a positive real keeps the strict order. */
  lemma RealDivStrict(a: real, b: real, c: real)
    requires a < b && c > 0.0
    ensures a / c < b / c
  {
    assert b / c - a / c == (b - a) / c;
  }

  /** a*d grows with a when d is non-negative. */
  lemma MulMonotone(a: int, b: int, d: int)
    requires a <= b && d >= 0
    ensures a * d <= b * d
  {
    assert b * d - a * d == (b - a) * d;
  }

  /** The quotient a / d is k exactly when a lies in [k*d, (k+1)*d). */
  lemma DivIs(a: int, d: int, k: int)
    requires d > 0
    ensures a / d == k <==> k * d <= a < (k + 1) * d
  {
    var q, r := a / d, a % d;
    assert a == q * d + r && 0 <= r < d;
    if q < k {
      MulMonotone(q, k - 1, d);
      assert a < k * d;
    } else if q > k {
      MulMonotone(k + 1, q, d);
      assert a >= (k + 1) * d;
    }
  }

  /** A non-negative dividend below k*d has a quotient in [0, k). */
  lemma DivRange(a: int, d: int, k: int)
    requires d > 0 && 0 <= a < k * d
    ensures 0 <= a / d < k
  {
    DivIs(a, d, a / d);
    if a / d >= k {
      MulMonotone(k, a / d, d);
    } else if a / d < 0 {
      MulMonotone(a / d + 1, 0, d);
    }
  }

  /** Integer division by a positive divisor is monotone in the dividend. */
  lemma DivMonotone(a: int, b: int, d: int)
    requires d > 0 && a <= b
    ensures a / d <= b / d
  {
    DivIs(a, d, a / d);
    DivIs(b, d, b / d);
    if a / d > b / d {
      MulMonotone(b / d + 1, a / d, d);
    }
  }

  /** Adding a multiple of the modulus does not change the remainder. */
  lemma ModAddMultiple(x: int, k: int, m: int)
    requires m > 0
    ensures (x + k * m) % m == x % m
  {
    var q, r := x / m, x % m;
    assert x + k * m == (q + k) * m + r;
    DivIs(x + k * m, m, q + k);
  }
}
