/** Division facts used with variable divisors. */
module Arith {
  lemma DivModUnique(m: int, q: int, r: int)
    requires 0 <= r < m
    ensures (m * q + r) / m == q && (m * q + r) % m == r
  {
    var x := m * q + r;
    assert m * (q - x / m) == m * q - m * (x / m) == x % m - r;
    SmallMultiple(m, q - x / m);
  }

  lemma SmallMultiple(m: int, k: int)
    requires -m < m * k < m
    ensures k == 0
  {
    if k >= 1 {
      MulMonotone(m, 1, k);
    } else if k <= -1 {
      MulMonotone(m, k, -1);
    }
  }

  lemma MulMonotone(m: int, a: int, b: int)
    requires m >= 0 && a <= b
    ensures m * a <= m * b
  {
  }

  lemma ModAddMultiple(a: int, b: int, m: int)
    requires m > 0 && a % m == 0
    ensures (a + b) % m == b % m
  {
    var q := a / m + b / m;
    assert a == m * (a / m) && b == m * (b / m) + b % m;
    assert m * q == m * (a / m) + m * (b / m);
    DivModUnique(m, q, b % m);
  }

  lemma MulCancel(m: int, a: int, b: int)
    requires m > 0 && m * a <= m * b
    ensures a <= b
  {
    if a > b {
      MulMonotone(m, b + 1, a);
    }
  }

  lemma DivMonotone(a: int, b: int, g: int)
    requires g > 0 && a <= b
    ensures a / g <= b / g
  {
    var p, q := a / g, b / g;
    assert a == g * p + a % g && b == g * q + b % g;
    assert g * (p - q) == g * p - g * q;
    if p > q {
      MulMonotone(g, 1, p - q);
    }
  }

  /** A positive multiple of g holds at least one group. */
  lemma PositiveMultiple(x: int, g: int)
    requires g > 0 && x > 0 && x % g == 0
    ensures x >= g && x / g >= 1 && g * (x / g) == x
  {
    if x / g <= 0 { MulMonotone(g, x / g, 0); }
    MulMonotone(g, 1, x / g);
  }

  lemma DivUnique(m: int, q: int, k: int)
    requires m > 0 && m * q <= k < m * q + m
    ensures k / m == q && k % m == k - m * q
  {
    DivModUnique(m, q, k - m * q);
  }

  lemma DivBounds(k: int, m: int)
    requires m > 0
    ensures m * (k / m) <= k < m * (k / m) + m
  {
  }

  lemma DivDiv(k: int, a: int, b: int)
    requires k >= 0 && a > 0 && b > 0
    ensures a * b > 0 && k / (a * b) == (k / a) / b
  {
    var q := (k / a) / b;
    MulMonotone(a, 1, b);
    DivBounds(k, a);
    DivBounds(k / a, b);
    MulMonotone(a, b * q, k / a);
    MulMonotone(a, k / a, b * q + b - 1);
    assert a * (b * q) == (a * b) * q && a * (b * q + b - 1) == (a * b) * q + a * b - a;
    DivUnique(a * b, q, k);
  }

  lemma OneMoreTime(n: nat, k: nat)
    ensures (n + 1) * k == n * k + k
  {
  }

  lemma DivLessOne(x: int, g: int)
    requires g > 0
    ensures (x - g) / g == x / g - 1
  {
    assert x == g * (x / g) + x % g;
    assert g * (x / g - 1) == g * (x / g) - g;
    DivModUnique(g, x / g - 1, x % g);
  }
}
