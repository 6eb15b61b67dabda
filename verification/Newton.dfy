/** Wrapping 64-bit arithmetic and the inverse of an odd word by Newton iteration. */
module Newton {
  import opened Bytes
  import opened Modular

  function WrapMul(a: int, b: int): u64
  {
    (a * b) % TWO64
  }

  function WrapAdd(a: int, b: int): u64
  {
    (a + b) % TWO64
  }

  function WrapSub(a: int, b: int): u64
  {
    (a - b) % TWO64
  }

  /** The modulus reached after k steps: 2^(2^k). */
  function Reach(k: nat): (m: nat)
    ensures m >= 2
  {
    if k == 0 then 2 else Reach(k - 1) * Reach(k - 1)
  }

  lemma ReachValues()
    ensures Reach(0) == 2 && Reach(1) == 4 && Reach(2) == 16 && Reach(3) == 256
    ensures Reach(4) == 0x1_0000 && Reach(5) == TWO32 && Reach(6) == TWO64
  {
    assert Reach(2) == Reach(1) * Reach(1);
    assert Reach(3) == Reach(2) * Reach(2);
    assert Reach(4) == Reach(3) * Reach(3);
    assert Reach(5) == Reach(4) * Reach(4);
    assert Reach(6) == Reach(5) * Reach(5);
  }

  lemma ReachDivides(k: nat)
    requires k <= 6
    ensures TWO64 % Reach(k) == 0
  {
    ReachValues();
    hide Reach;
    if k == 0 {
    } else if k == 1 {
    } else if k == 2 {
    } else if k == 3 {
    } else if k == 4 {
    } else if k == 5 {
    } else {
    }
  }

  /** If m divides a*x - 1, then m*m divides a*x' - 1 for the Newton step x' = x * (2 - a*x). */
  lemma NewtonStep(a: int, x: int, m: nat)
    requires m >= 2 && (a * x) % m == 1
    ensures (a * (x * (2 - a * x))) % (m * m) == 1
  {
    var e := a * x;
    var q := e / m;
    assert e == q * m + 1;
    assert a * (x * (2 - e)) == e * (2 - e) by {
      assert a * (x * (2 - e)) == (a * x) * (2 - e);
    }
    assert e * (2 - e) == 1 - (e - 1) * (e - 1);
    assert (e - 1) * (e - 1) == (q * q) * (m * m) by {
      assert (q * m) * (q * m) == (q * q) * (m * m);
    }
    assert 1 < m * m;
    ModShift(1, -(q * q), m * m);
    assert 1 + (-(q * q)) * (m * m) == 1 - (q * q) * (m * m);
    ModSmall(1, m * m);
  }

  /** Wrapping at 2^64 is harmless modulo any divisor of 2^64. */
  lemma WrapHarmless(v: int, m: nat)
    requires m > 0 && TWO64 % m == 0
    ensures (v % TWO64) % m == v % m
  {
    var c := TWO64 / m;
    assert TWO64 == c * m;
    assert v == v % TWO64 + (v / TWO64 * c) * m by {
      assert v == v % TWO64 + (v / TWO64) * TWO64;
      assert (v / TWO64) * (c * m) == (v / TWO64 * c) * m;
    }
    ModShift(v % TWO64, v / TWO64 * c, m);
  }

  /** The wrapped step agrees with the integer one modulo any divisor m of 2^64. */
  lemma WrappedStep(a: int, x: int, m: nat)
    requires m > 0 && TWO64 % m == 0
    ensures (a * WrapMul(x, WrapSub(2, WrapMul(a, x)))) % m == (a * (x * (2 - a * x))) % m
  {
    var e := a * x;
    ModAddLeft(e, -2, TWO64);
    var inner := WrapSub(2, WrapMul(a, x));
    assert inner == (2 - e) % TWO64 by {
      var k := e / TWO64;
      assert e == e % TWO64 + k * TWO64;
      ModShift(2 - e, k, TWO64);
    }
    ModMulRight(x, 2 - e, TWO64);
    assert WrapMul(x, inner) == (x * (2 - e)) % TWO64;
    WrapHarmless(x * (2 - e), m);
    ModMulRight(a, WrapMul(x, inner), m);
    ModMulRight(a, x * (2 - e), m);
  }

  /** The value of `x` in `modinv_odd_u64` after k iterations. */
  function Iterate(a: int, k: nat): u64
  {
    if k == 0 then 1 else
      var x := Iterate(a, k - 1);
      WrapMul(x, WrapSub(2, WrapMul(a, x)))
  }

  /** Quadratic convergence: after k steps a*x = 1 modulo 2^(2^k). */
  lemma {:induction false} IterateConverges(a: int, k: nat)
    requires a % 2 == 1 && k <= 6
    ensures (a * Iterate(a, k)) % Reach(k) == 1
  {
    if k > 0 {
      var x := Iterate(a, k - 1);
      IterateConverges(a, k - 1);
      NewtonStep(a, x, Reach(k - 1));
      ReachDivides(k);
      WrappedStep(a, x, Reach(k));
    }
  }

  method ModInvOdd(a: u64) returns (x: u64)
    ensures x == Iterate(a, 6)
    ensures a % 2 == 1 ==> WrapMul(a, x) == 1
  {
    x := 1;
    for k := 0 to 6
      invariant x == Iterate(a, k)
    {
      x := WrapMul(x, WrapSub(2, WrapMul(a, x)));
    }
    if a % 2 == 1 {
      SixStepsInvert(a);
    }
  }

  /** Six steps invert every odd word. */
  lemma SixStepsInvert(a: int)
    requires a % 2 == 1
    ensures WrapMul(a, Iterate(a, 6)) == 1
  {
    ReachValues();
    IterateConverges(a, 6);
  }

  /** Inverses modulo 2^64 are unique, so any other method must find the same word. */
  lemma InverseIsUnique(a: int, x: u64, y: u64)
    requires WrapMul(a, x) == 1 && WrapMul(a, y) == 1
    ensures x == y
  {
    InverseUnique(a, x, y, TWO64);
    ModSmall(x, TWO64);
    ModSmall(y, TWO64);
  }

  /** The six-step inverse also inverts modulo any divisor of 2^64. */
  lemma SixStepsInvertModulo(d: int, m: nat)
    requires d % 2 == 1 && m > 1 && TWO64 % m == 0
    ensures (d * Iterate(d, 6)) % m == 1
  {
    SixStepsInvert(d);
    WrapHarmless(d * Iterate(d, 6), m);
    ModSmall(1, m);
  }

  /** An odd factor can be cancelled from a product that vanishes modulo a divisor of 2^64. */
  lemma OddFactorCancels(c: int, d: int, m: nat)
    requires d % 2 == 1 && m > 1 && TWO64 % m == 0 && (c * d) % m == 0
    ensures c % m == 0
  {
    hide Iterate;
    SixStepsInvertModulo(d, m);
    UnitCancels(c, d, Iterate(d, 6), m);
  }
}
