/** The two pieces of Python numeric behaviour the colour conversions rely on,
    stated over exact reals: the built-in `round` (ties go to the even
    neighbour) and the floored `%` of Python floats. */
module Numeric {

  /** Python's `round(x)` with no digits argument: the nearest integer, and on
      an exact tie the even one. */
  function RoundHalfEven(x: real): (n: int)
    ensures -0.5 <= x - n as real <= 0.5
    ensures (x - n as real == 0.5 || x - n as real == -0.5) ==> n % 2 == 0
  {
    var f := x.Floor;
    var d := x - f as real;
    if d < 0.5 then f
    else if d > 0.5 then f + 1
    else if f % 2 == 0 then f
    else f + 1
  }

  /** Rounding never moves an integer. */
  lemma RoundOfInteger(k: int)
    ensures RoundHalfEven(k as real) == k
  {
  }

  /** Python's `x % m` for floats with a positive modulus: the result has the
      sign of `m`, i.e. it is `x` minus the largest multiple of `m` not above it. */
  function FloorMod(x: real, m: real): (r: real)
    requires m > 0.0
    ensures 0.0 <= r < m
  {
    var q := x / m;
    var k := q.Floor;
    QuotientBounds(x, m, q, k as real);
    x - k as real * m
  }

  /** A positive number times a positive number is positive. */
  lemma PositiveProduct(a: real, b: real)
    requires a > 0.0 && b > 0.0
    ensures a * b > 0.0
  {
  }

  /** Multiplying by a positive number keeps the order. */
  lemma ScaleMono(a: real, b: real, m: real)
    requires a <= b && m > 0.0
    ensures a * m <= b * m
  {
    if a < b {
      PositiveProduct(b - a, m);
      assert (b - a) * m == b * m - a * m;
    }
  }

  /** Period `j` ends no later than a later period `k` starts. */
  lemma LaterPeriod(j: real, k: real, m: real)
    requires j + 1.0 <= k && m > 0.0
    ensures j * m + m <= k * m
  {
    ScaleMono(j + 1.0, k, m);
    assert (j + 1.0) * m == j * m + m;
  }

  /** Bounds on the quotient transfer to bounds on the dividend. */
  lemma QuotientBounds(x: real, m: real, q: real, k: real)
    requires m > 0.0 && q == x / m && k <= q < k + 1.0
    ensures k * m <= x < k * m + m
  {
    assert x == q * m;
    PositiveProduct(k + 1.0 - q, m);
    assert (k + 1.0 - q) * m == k * m + m - q * m;
    if q > k {
      PositiveProduct(q - k, m);
      assert (q - k) * m == q * m - k * m;
    }
  }

  /** When `x` is known to lie in the `k`-th period `[k*m, (k+1)*m)`, the
      floored remainder is `x - k*m`. */
  lemma FloorModInPeriod(x: real, m: real, k: int)
    requires m > 0.0
    requires k as real * m <= x < k as real * m + m
    ensures FloorMod(x, m) == x - k as real * m
  {
    var q := x / m;
    var f := q.Floor;
    var fr, kr := f as real, k as real;
    QuotientBounds(x, m, q, fr);
    if f < k {
      LaterPeriod(fr, kr, m);
      calc {
        fr * m + m;
      <=
        kr * m;
      <=
        x;
      }
      assert false;
    } else if f > k {
      LaterPeriod(kr, fr, m);
      calc {
        kr * m + m;
      <=
        fr * m;
      <=
        x;
      }
      assert false;
    }
  }
}
