/** Remainders modulo a positive number, for 64-bit words and bytes. */
module Modular {

  function Pow2(k: nat): (m: nat)
    ensures m > 0
  {
    if k == 0 then 1 else 2 * Pow2(k - 1)
  }

  lemma MulAtLeast(d: int, m: int)
    requires d >= 1 && m >= 0
    ensures d * m >= m
  {
  }

  lemma QuotientAtMost(q: int, r: int, q': int, r': int, m: int)
    requires 0 <= r && 0 <= r' < m
    requires q * m + r == q' * m + r'
    ensures q <= q'
  {
    if q > q' {
      var d := q - q';
      assert d * m == q * m - q' * m;
      MulAtLeast(d, m);
    }
  }

  lemma QuotientUnique(q: int, r: int, q': int, r': int, m: int)
    requires 0 <= r < m && 0 <= r' < m
    requires q * m + r == q' * m + r'
    ensures q == q' && r == r'
  {
    QuotientAtMost(q, r, q', r', m);
    QuotientAtMost(q', r', q, r, m);
  }

  /** Adding a multiple of the modulus does not change the remainder. */
  lemma ModShift(a: int, k: int, m: int)
    requires m > 0
    ensures (a + k * m) % m == a % m
  {
    var b := a + k * m;
    assert b == (a / m + k) * m + a % m by {
      assert a == (a / m) * m + a % m;
    }
    assert b == (b / m) * m + b % m;
    QuotientUnique(a / m + k, a % m, b / m, b % m, m);
  }

  lemma ModSmall(a: int, m: int)
    requires 0 <= a < m
    ensures a % m == a
  {
    QuotientUnique(0, a, a / m, a % m, m);
  }

  lemma ModAddLeft(a: int, b: int, m: int)
    requires m > 0
    ensures (a % m + b) % m == (a + b) % m
  {
    assert a + b == (a % m + b) + (a / m) * m;
    ModShift(a % m + b, a / m, m);
  }

  lemma ModMulLeft(a: int, b: int, m: int)
    requires m > 0
    ensures ((a % m) * b) % m == (a * b) % m
  {
    var q, r := a / m, a % m;
    assert a * b == r * b + (q * b) * m by {
      assert a == q * m + r;
      assert (q * m + r) * b == q * m * b + r * b;
      assert q * m * b == (q * b) * m;
    }
    ModShift(r * b, q * b, m);
  }

  lemma ModMulRight(a: int, b: int, m: int)
    requires m > 0
    ensures (a * (b % m)) % m == (a * b) % m
  {
    ModMulLeft(b, a, m);
    assert a * (b % m) == (b % m) * a && a * b == b * a;
  }

  /** A remainder may be taken early in either term of a sum. */
  lemma ModAddBoth(a: int, b: int, m: int)
    requires m > 0
    ensures (a % m + b % m) % m == (a + b) % m
  {
    ModAddLeft(a, b % m, m);
    ModAddLeft(b, a, m);
    assert a + b % m == b % m + a;
  }

  /** A factor congruent to 1 disappears. */
  lemma ModUnit(u: int, w: int, m: int)
    requires m > 1 && u % m == 1
    ensures (u * w) % m == w % m
  {
    ModMulLeft(u, w, m);
    assert 1 * w == w;
  }

  /** Multiplying by v and then by its inverse a restores t. */
  lemma InverseCancels(a: int, v: int, t: int, m: int)
    requires m > 1 && (a * v) % m == 1
    ensures (a * ((v * t) % m)) % m == t % m
  {
    ModMulRight(a, v * t, m);
    assert a * (v * t) == (a * v) * t;
    ModUnit(a * v, t, m);
  }

  lemma InverseUnique(a: int, x: int, y: int, m: int)
    requires m > 1 && (a * x) % m == 1 && (a * y) % m == 1
    ensures x % m == y % m
  {
    ModUnit(a * x, y, m);
    ModUnit(a * y, x, m);
    assert (a * x) * y == (a * y) * x;
  }

  /** A unit d can be cancelled from a product that vanishes. */
  lemma UnitCancels(c: int, d: int, v: int, m: int)
    requires m > 1 && (d * v) % m == 1 && (c * d) % m == 0
    ensures c % m == 0
  {
    ModMulLeft(c * d, v, m);
    assert (c * d) * v == (d * v) * c;
    ModUnit(d * v, c, m);
    ModSmall(0, m);
  }
}
