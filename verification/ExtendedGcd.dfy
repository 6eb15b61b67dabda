/** The Python reference's extended Euclid and modular inverse, on unbounded integers. */
module ExtendedGcd {
  import opened Bytes
  import opened Modular
  import opened Newton
  import opened Wrappers

  predicate IsProduct(x: int, d: int, k: int)
  {
    x == d * k
  }

  ghost predicate Divides(d: int, x: int)
  {
    exists k :: IsProduct(x, d, k)
  }

  /** g is a greatest common divisor: a common divisor that all common divisors divide. */
  ghost predicate IsGcd(g: int, a: int, b: int)
  {
    Divides(g, a) && Divides(g, b) && forall d :: Divides(d, a) && Divides(d, b) ==> Divides(d, g)
  }

  /** Python's `//`: rounding towards minus infinity. */
  function FloorDiv(a: int, b: int): int
    requires b != 0
  {
    if b > 0 then a / b else (-a) / (-b)
  }

  lemma QuotientIsFloor(a: int, b: int, q: int)
    requires b > 0
    ensures q == a / b <==> 0 <= a - q * b < b
  {
    var u := a / b;
    assert a == u * b + a % b;
    if 0 <= a - q * b < b {
      QuotientUnique(q, a - q * b, u, a % b, b);
    }
  }

  /** It is the one integer q for which a - q*b lies between 0 and b, with b excluded. */
  lemma FloorDivIsFloor(a: int, b: int, q: int)
    requires b != 0
    ensures q == FloorDiv(a, b) <==> if b > 0 then 0 <= a - q * b < b else b < a - q * b <= 0
  {
    if b > 0 {
      QuotientIsFloor(a, b, q);
    } else {
      QuotientIsFloor(-a, -b, q);
      assert q * -b == -(q * b);
    }
  }

  function Abs(x: int): nat
  {
    if x < 0 then -x else x
  }

  lemma FloorRemainderShrinks(a: int, b: int)
    requires b != 0
    ensures Abs(a - FloorDiv(a, b) * b) < Abs(b)
    ensures a >= 0 && b > 0 ==> a - FloorDiv(a, b) * b >= 0
  {
    if b > 0 {
      assert a == (a / b) * b + a % b;
    } else {
      assert -a == ((-a) / (-b)) * (-b) + (-a) % (-b);
      assert FloorDiv(a, b) * b == -(((-a) / (-b)) * (-b));
    }
  }

  /** One row of the table: a remainder and its two coefficients. */
  datatype Row = Row(r: int, s: int, t: int)

  function NextRow(prev: Row, cur: Row): Row
    requires cur.r != 0
  {
    var q := FloorDiv(prev.r, cur.r);
    Row(prev.r - q * cur.r, prev.s - q * cur.s, prev.t - q * cur.t)
  }

  function Rows(prev: Row, cur: Row): Row
    decreases Abs(cur.r)
  {
    if cur.r == 0 then prev else
      FloorRemainderShrinks(prev.r, cur.r);
      Rows(cur, NextRow(prev, cur))
  }

  /** What `extended_gcd` returns. */
  function Euclid(a: int, b: int): Row
  {
    Rows(Row(a, 1, 0), Row(b, 0, 1))
  }

  /** Every row keeps r = s*a + t*b. */
  predicate RowHolds(row: Row, a: int, b: int)
  {
    row.r == row.s * a + row.t * b
  }

  lemma NextRowHolds(prev: Row, cur: Row, a: int, b: int)
    requires cur.r != 0 && RowHolds(prev, a, b) && RowHolds(cur, a, b)
    ensures RowHolds(NextRow(prev, cur), a, b)
  {
    var q := FloorDiv(prev.r, cur.r);
    assert q * cur.r == q * (cur.s * a) + q * (cur.t * b);
    assert (prev.s - q * cur.s) * a == prev.s * a - q * (cur.s * a);
    assert (prev.t - q * cur.t) * b == prev.t * b - q * (cur.t * b);
  }

  lemma DividesCombination(d: int, x: int, y: int, q: int)
    requires Divides(d, x) && Divides(d, y)
    ensures Divides(d, x + q * y)
  {
    var i :| IsProduct(x, d, i);
    var j :| IsProduct(y, d, j);
    assert q * (d * j) == d * (q * j);
    assert d * i + d * (q * j) == d * (i + q * j);
    assert IsProduct(x + q * y, d, i + q * j);
  }

  /** Subtracting a multiple of one argument from the other keeps the gcd. */
  lemma GcdStep(g: int, a: int, b: int, q: int)
    requires IsGcd(g, b, a - q * b)
    ensures IsGcd(g, a, b)
  {
    hide Divides;
    var r := a - q * b;
    DividesCombination(g, r, b, q);
    forall d | Divides(d, a) && Divides(d, b) ensures Divides(d, g) {
      DividesCombination(d, a, b, -q);
      assert a + -q * b == r;
    }
  }

  lemma GcdOfZero(a: int)
    ensures IsGcd(a, a, 0)
  {
    assert IsProduct(a, a, 1) && IsProduct(0, a, 0);
  }

  lemma {:induction false} RowsGiveGcd(prev: Row, cur: Row)
    ensures IsGcd(Rows(prev, cur).r, prev.r, cur.r)
    ensures prev.r >= 0 && cur.r >= 0 ==> Rows(prev, cur).r >= 0
    decreases Abs(cur.r)
  {
    hide IsGcd, FloorDiv;
    if cur.r == 0 {
      GcdOfZero(prev.r);
    } else {
      FloorRemainderShrinks(prev.r, cur.r);
      var next := NextRow(prev, cur);
      RowsGiveGcd(cur, next);
      GcdStep(Rows(prev, cur).r, prev.r, cur.r, FloorDiv(prev.r, cur.r));
    }
  }

  lemma {:induction false} RowsHold(prev: Row, cur: Row, a: int, b: int)
    requires RowHolds(prev, a, b) && RowHolds(cur, a, b)
    ensures RowHolds(Rows(prev, cur), a, b)
    decreases Abs(cur.r)
  {
    if cur.r != 0 {
      FloorRemainderShrinks(prev.r, cur.r);
      NextRowHolds(prev, cur, a, b);
      RowsHold(cur, NextRow(prev, cur), a, b);
    }
  }

  /** Bezout's identity and the gcd property, for all integers; on naturals the gcd is one. */
  lemma EuclidIsCorrect(a: int, b: int)
    ensures var e := Euclid(a, b); e.r == e.s * a + e.t * b && IsGcd(e.r, a, b)
    ensures a >= 0 && b >= 0 ==> Euclid(a, b).r >= 0
  {
    RowsHold(Row(a, 1, 0), Row(b, 0, 1), a, b);
    RowsGiveGcd(Row(a, 1, 0), Row(b, 0, 1));
  }

  /** The loop, with its six variables; it ends on every pair of integers. */
  method ComputeExtendedGcd(a: int, b: int) returns (g: int, x: int, y: int)
    ensures Row(g, x, y) == Euclid(a, b)
    ensures g == x * a + y * b && IsGcd(g, a, b)
  {
    EuclidIsCorrect(a, b);
    var oldR, r := a, b;
    var oldS, s := 1, 0;
    var oldT, t := 0, 1;
    while r != 0
      invariant Rows(Row(oldR, oldS, oldT), Row(r, s, t)) == Euclid(a, b)
      decreases Abs(r)
    {
      FloorRemainderShrinks(oldR, r);
      var q := FloorDiv(oldR, r);
      oldR, r := r, oldR - q * r;
      oldS, s := s, oldS - q * s;
      oldT, t := t, oldT - q * t;
    }
    return oldR, oldS, oldT;
  }

  function ModInv(a: int, modulus: int): Result<int, PyError>
    requires modulus > 0
  {
    var e := Euclid(a % modulus, modulus);
    if e.r != 1 then Err(ValueError) else Ok(e.s % modulus)
  }

  /** `modinv`. */
  method ComputeModInv(a: int, modulus: int) returns (r: Result<int, PyError>)
    requires modulus > 0
    ensures r == ModInv(a, modulus)
  {
    var d, x, _ := ComputeExtendedGcd(a % modulus, modulus);
    if d != 1 {
      return Err(ValueError);
    }
    r := Ok(x % modulus);
  }

  lemma DividesOne(d: int)
    requires Divides(d, 1) && d >= 0
    ensures d == 1
  {
    var k :| IsProduct(1, d, k);
    if d > 1 && k >= 1 {
      MulAtLeast(k, d);
    } else if d > 1 && k < 0 {
      MulAtLeast(-k, d);
    }
  }

  lemma BezoutInverts(a: int, s: int, t: int, m: int)
    requires m > 1 && s * (a % m) + t * m == 1
    ensures (a * (s % m)) % m == 1
  {
    var r := a % m;
    assert s * r == 1 + (-t) * m;
    ModShift(1, -t, m);
    ModSmall(1, m);
    assert s * r == r * s;
    ModMulLeft(a, s, m);
    ModMulRight(a, s, m);
  }

  lemma InverseMeansCoprime(a: int, v: int, g: int, m: int)
    requires m > 1 && (a * v) % m == 1 && g >= 0 && Divides(g, a % m) && Divides(g, m)
    ensures g == 1
  {
    hide Divides;
    var r := a % m;
    ModMulLeft(a, v, m);
    var k := (r * v) / m;
    assert r * v == k * m + 1;
    DividesZero(g);
    DividesCombination(g, 0, r, v);
    DividesCombination(g, v * r, m, -k);
    assert 0 + v * r == v * r && v * r + -k * m == 1 by { assert v * r == r * v; }
    DividesOne(g);
  }

  lemma DividesZero(d: int)
    ensures Divides(d, 0)
  {
    assert IsProduct(0, d, 0);
  }

  /** An inverse modulo m is returned exactly when there is one. */
  lemma ModInvInverts(a: int, modulus: int)
    requires modulus > 1
    ensures ModInv(a, modulus).Ok? ==>
      0 <= ModInv(a, modulus).value < modulus && (a * ModInv(a, modulus).value) % modulus == 1
    ensures (exists v :: (a * v) % modulus == 1) ==> ModInv(a, modulus).Ok?
  {
    hide Euclid;
    var e := Euclid(a % modulus, modulus);
    EuclidIsCorrect(a % modulus, modulus);
    if e.r == 1 {
      BezoutInverts(a, e.s, e.t, modulus);
    }
    if v :| (a * v) % modulus == 1 {
      InverseMeansCoprime(a, v, e.r, modulus);
    }
  }

  lemma EvenHasNoInverse(a: int, v: int)
    requires a % 2 == 0
    ensures (a * v) % TWO64 != 1
  {
    ModMulLeft(a, v, 2);
    WrapHarmless(a * v, 2);
  }

  /** Python's inverse and Rust's Newton inverse are the same word for every odd input, and
      Python raises ValueError on every even one. */
  lemma ModInvIsNewton(a: int)
    ensures ModInv(a, TWO64) == if a % 2 == 1 then Ok(Iterate(a, 6)) else Err(ValueError)
  {
    ModInvInverts(a, TWO64);
    ModInvError(a, TWO64);
    hide ModInv, Iterate;
    if a % 2 == 1 {
      SixStepsInvert(a);
      assert (a * Iterate(a, 6)) % TWO64 == 1;
      InverseIsUnique(a, Iterate(a, 6), ModInv(a, TWO64).value);
    } else if ModInv(a, TWO64).Ok? {
      EvenHasNoInverse(a, ModInv(a, TWO64).value);
    }
  }

  lemma ModInvError(a: int, modulus: int)
    requires modulus > 0
    ensures ModInv(a, modulus).Err? ==> ModInv(a, modulus) == Err(ValueError)
  {
  }
}
