/** Non-linear facts about multiplication and division. */
module Arithmetic {

  function Max(a: int, b: int): int {
    if a < b then b else a
  }

  lemma MulMonotone(a: int, b: int, c: int)
    requires a <= b && c >= 0
    ensures a * c <= b * c
  {}

  lemma MulDistributes(a: int, b: int, c: int)
    ensures (a + b) * c == a * c + b * c
    ensures (a - b) * c == a * c - b * c
  {}

  /** Quotient and remainder are determined by the division equation. */
  lemma DivModUnique(x: int, d: int, q: int, r: int)
    requires d > 0 && 0 <= r < d && x == q * d + r
    ensures x / d == q && x % d == r
  {
    var (q', r') := (x / d, x % d);
    assert x == q' * d + r';
    MulDistributes(q, q', d);
    if q < q' {
      MulMonotone(1, q' - q, d);
      MulDistributes(q', q, d);
    } else if q > q' {
      MulMonotone(1, q - q', d);
    }
  }

  lemma DivNonnegative(a: nat, b: nat)
    requires b > 0
    ensures 0 <= a / b <= a
  {
    var (q, r) := (a / b, a % b);
    assert a == q * b + r;
    if q < 0 {
      MulMonotone(q, -1, b);
    }
    if q > 0 {
      MulMonotone(1, b, q);
    }
  }

  /** A quotient is below any bound that times the divisor exceeds the dividend. */
  lemma DivBelow(a: nat, b: nat, bound: int)
    requires b > 0 && a < bound * b
    ensures a / b < bound
  {
    var q := a / b;
    assert a == q * b + a % b;
    if q >= bound {
      MulMonotone(bound, q, b);
    }
  }

  /** Multiples of the modulus do not matter. */
  lemma ModShift(x: int, k: int, m: int)
    requires m > 0
    ensures (x + k * m) % m == x % m
  {
    MulDistributes(x / m, k, m);
    DivModUnique(x + k * m, m, x / m + k, x % m);
  }

  lemma ProductBelow(a: nat, b: nat, m: nat)
    requires a < m && b < m
    ensures 0 <= a * b < m * m
  {
    MulMonotone(0, a, b);
    MulMonotone(a, m - 1, b);
    MulMonotone(b, m - 1, m - 1);
    MulDistributes(m, 1, m - 1);
  }

  lemma HalvedRemainder(x: nat, m: nat)
    requires m > 0
    ensures x % (2 * m) == 2 * (x / 2 % m) + x % 2
  {
    var (q, r) := (x / 2 / m, x / 2 % m);
    assert x / 2 == q * m + r;
    assert x == q * (2 * m) + (2 * r + x % 2) by {
      assert q * (2 * m) == 2 * (q * m);
    }
    DivModUnique(x, 2 * m, q, 2 * r + x % 2);
  }

  function Magnitude(a: int): nat {
    if a < 0 then -a else a
  }

  /** The quotient of C: truncated toward zero. */
  function Truncated(a: int, b: int): int
    requires b != 0
  {
    if (a >= 0) == (b > 0) then Magnitude(a) / Magnitude(b) else -(Magnitude(a) / Magnitude(b))
  }

  /** The remainder of C: it has the sign of the dividend. */
  function TruncatedRemainder(a: int, b: int): int
    requires b != 0
  {
    if a >= 0 then Magnitude(a) % Magnitude(b) else -(Magnitude(a) % Magnitude(b))
  }

  /** Truncated division is the division whose remainder is smaller than the divisor and never against the dividend. */
  lemma TruncatedDivision(a: int, b: int)
    requires b != 0
    ensures var (q, r) := (Truncated(a, b), TruncatedRemainder(a, b));
            a == q * b + r && Magnitude(r) < Magnitude(b) && (r > 0 ==> a > 0) && (r < 0 ==> a < 0)
  {
    var m: int, n: int := Magnitude(a), Magnitude(b);
    var q, r := m / n, m % n;
    assert m == q * n + r && 0 <= r < n;
    assert (-q) * n == -(q * n) && q * (-n) == -(q * n) && (-q) * (-n) == q * n;
    DivNonnegative(m, n);
    if m == 0 {
      DivModUnique(0, n, 0, 0);
    }
  }
}
