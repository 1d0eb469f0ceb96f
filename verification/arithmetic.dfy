/** Division, remainders and powers of two. */
module Arithmetic {
  function Pow2(k: nat): (p: nat)
    ensures p > 0
  {
    if k == 0 then 1 else 2 * Pow2(k - 1)
  }

  /** The powers the machines use. */
  lemma Pow2Values()
    ensures Pow2(4) == 0x10 && Pow2(7) == 0x80 && Pow2(8) == 0x100 && Pow2(15) == 0x8000
    ensures Pow2(16) == 0x1_0000 && Pow2(32) == 0x1_0000_0000
  {
    assert Pow2(8) == 16 * Pow2(4);
    assert Pow2(12) == 16 * Pow2(8);
    assert Pow2(16) == 16 * Pow2(12);
    assert Pow2(20) == 16 * Pow2(16);
    assert Pow2(24) == 16 * Pow2(20);
    assert Pow2(28) == 16 * Pow2(24);
    assert Pow2(32) == 16 * Pow2(28);
  }

  lemma NotNegative(a: int, b: int)
    requires a >= 0 && b >= 0
    ensures a * b >= 0
  {}

  lemma Large(m: int, d: int)
    requires m > 0 && d != 0
    ensures m * d >= m || m * d <= -m
  {
    if d > 0 {
      NotNegative(m, d - 1);
      assert m * (d - 1) == m * d - m;
    } else {
      NotNegative(m, -d - 1);
      assert m * (-d - 1) == -(m * d) - m;
    }
  }

  /** Quotient and remainder are unique. */
  lemma DivModUnique(x: int, m: int, q: int, r: int)
    requires 0 <= r < m && x == m * q + r
    ensures x / m == q && x % m == r
  {
    var d := x / m - q;
    assert m * d == m * (x / m) - m * q;
    if d != 0 { Large(m, d); }
  }

  lemma Composed(a: int, b: int, p: int, t: int, r: int)
    requires a > 0 && 0 <= t < b && 0 <= r < a
    ensures a * (b * p + t) + r == (a * b) * p + (a * t + r)
    ensures 0 <= a * t + r < a * b
  {
    assert a * (b * p) == (a * b) * p;
    assert a * (b * p + t) == a * (b * p) + a * t;
    NotNegative(a, t);
    NotNegative(a, b - 1 - t);
    assert a * (b - 1 - t) == a * b - a - a * t;
  }

  /** Dividing twice is dividing by the product. */
  lemma DivDiv(x: int, a: int, b: int)
    requires a > 0 && b > 0
    ensures a * b > 0 && x / a / b == x / (a * b)
  {
    var q, r := x / a, x % a;
    var p, t := q / b, q % b;
    Composed(a, b, p, t, r);
    DivModUnique(x, a * b, p, a * t + r);
  }

  lemma Regrouped(m: int, k: int, q: int, p: int, t: int)
    ensures (m * k) * q + (m * p + t) == m * (k * q + p) + t
  {
    assert (m * k) * q == m * (k * q);
    assert m * (k * q) + m * p == m * (k * q + p);
  }

  /** The remainder by a multiple of m has the same remainder by m. */
  lemma ModOfMod(x: nat, m: nat, k: nat)
    requires m > 0 && k > 0
    ensures m * k > 0 && x % (m * k) % m == x % m
  {
    NotNegative(m, k - 1);
    assert m * (k - 1) == m * k - m;
    var q, r := x / (m * k), x % (m * k);
    var p, t := r / m, r % m;
    Regrouped(m, k, q, p, t);
    DivModUnique(x, m, k * q + p, t);
  }
}
