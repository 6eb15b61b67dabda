/** 2x2 matrices over the integers modulo 2^64: the mixing layer and its inverse. */
module Matrix {
  import opened Bytes
  import opened Expand
  import opened Modular
  import opened Newton
  import opened Primitives

  /** Row by row: [a b; c d]. */
  datatype Mat = Mat(a: int, b: int, c: int, d: int)

  predicate IsWord(x: int)
  {
    0 <= x < TWO64
  }

  predicate Reduced(m: Mat)
  {
    IsWord(m.a) && IsWord(m.b) && IsWord(m.c) && IsWord(m.d)
  }

  type WordMat = m: Mat | Reduced(m) witness Mat(0, 0, 0, 0)

  const UNIT: WordMat := Mat(1, 0, 0, 1)

  // ----- The engine's operations -----

  function MatrixDet(m: WordMat): u64
  {
    WrapSub(WrapMul(m.a, m.d), WrapMul(m.b, m.c))
  }

  function MatrixMul(l: WordMat, r: WordMat): WordMat
  {
    Mat(
      WrapAdd(WrapMul(l.a, r.a), WrapMul(l.b, r.c)),
      WrapAdd(WrapMul(l.a, r.b), WrapMul(l.b, r.d)),
      WrapAdd(WrapMul(l.c, r.a), WrapMul(l.d, r.c)),
      WrapAdd(WrapMul(l.c, r.b), WrapMul(l.d, r.d)))
  }

  function MatrixInv(m: WordMat): WordMat
  {
    var v := Iterate(MatrixDet(m), 6);
    Mat(WrapMul(m.d, v), WrapMul(WrapSub(0, m.b), v), WrapMul(WrapSub(0, m.c), v), WrapMul(m.a, v))
  }

  method InvertMatrix(m: WordMat) returns (inv: WordMat)
    ensures inv == MatrixInv(m)
  {
    var v := ModInvOdd(MatrixDet(m));
    inv := Mat(WrapMul(m.d, v), WrapMul(WrapSub(0, m.b), v), WrapMul(WrapSub(0, m.c), v), WrapMul(m.a, v));
  }

  /** `x & !1`. */
  function ClearLowBit(x: u64): (y: u64)
    ensures y % 2 == 0 && y <= x <= y + 1
  {
    x - x % 2
  }

  function MatrixFromMaterial(material: bytes): (m: WordMat)
    requires |material| == 64
    ensures m.a % 2 == 1 && m.b % 2 == 0 && m.c % 2 == 0 && m.d % 2 == 1
  {
    hide ReadU64, SetLowBit, ClearLowBit;
    Mat(
      SetLowBit(ReadU64(material[0..8])),
      ClearLowBit(ReadU64(material[8..16])),
      ClearLowBit(ReadU64(material[16..24])),
      SetLowBit(ReadU64(material[24..32])))
  }

  function MatrixFromSeed(P: Primitives, seed: bytes): WordMat
  {
    MatrixFromMaterial(Expansion(P, seed, Ascii("matrix"), 64))
  }

  function WordsFromBlock(block: bytes): WordMat
    requires |block| == 32
  {
    Mat(ReadU64(block[0..8]), ReadU64(block[8..16]), ReadU64(block[16..24]), ReadU64(block[24..32]))
  }

  function BlockFromWords(m: WordMat): (block: bytes)
    ensures |block| == 32
  {
    BE8(m.a) + BE8(m.b) + BE8(m.c) + BE8(m.d)
  }

  // ----- Algebra over the integers, and reduction to words -----

  function IntMul(l: Mat, r: Mat): Mat
  {
    Mat(
      l.a * r.a + l.b * r.c,
      l.a * r.b + l.b * r.d,
      l.c * r.a + l.d * r.c,
      l.c * r.b + l.d * r.d)
  }

  function Reduce(m: Mat): WordMat
  {
    Mat(m.a % TWO64, m.b % TWO64, m.c % TWO64, m.d % TWO64)
  }

  /** A wrapping dot product is the integer one, reduced once. */
  lemma WrapDot(p: int, q: int, r: int, s: int)
    ensures WrapAdd(WrapMul(p, q), WrapMul(r, s)) == (p * q + r * s) % TWO64
  {
    ModAddBoth(p * q, r * s, TWO64);
  }

  lemma MulIsReducedIntMul(l: WordMat, r: WordMat)
    ensures MatrixMul(l, r) == Reduce(IntMul(l, r))
  {
    WrapDot(l.a, r.a, l.b, r.c);
    WrapDot(l.a, r.b, l.b, r.d);
    WrapDot(l.c, r.a, l.d, r.c);
    WrapDot(l.c, r.b, l.d, r.d);
  }

  /** Reducing the factors first does not change a reduced dot product. */
  lemma ReducedDot(p: int, q: int, r: int, s: int)
    ensures ((p % TWO64) * q + (r % TWO64) * s) % TWO64 == (p * q + r * s) % TWO64
    ensures (p * (q % TWO64) + r * (s % TWO64)) % TWO64 == (p * q + r * s) % TWO64
  {
    var M := TWO64;
    ModMulLeft(p, q, M);
    ModMulLeft(r, s, M);
    ModMulRight(p, q, M);
    ModMulRight(r, s, M);
    ModAddBoth(p * q, r * s, M);
    ModAddBoth((p % M) * q, (r % M) * s, M);
    ModAddBoth(p * (q % M), r * (s % M), M);
  }

  lemma ReduceFactors(l: Mat, r: Mat)
    ensures Reduce(IntMul(Reduce(l), r)) == Reduce(IntMul(l, r))
    ensures Reduce(IntMul(l, Reduce(r))) == Reduce(IntMul(l, r))
  {
    ReducedDot(l.a, r.a, l.b, r.c);
    ReducedDot(l.a, r.b, l.b, r.d);
    ReducedDot(l.c, r.a, l.d, r.c);
    ReducedDot(l.c, r.b, l.d, r.d);
  }

  lemma DotAssociative(p: int, q: int, a: int, b: int, c: int, d: int, x: int, y: int)
    ensures (p * a + q * c) * x + (p * b + q * d) * y == p * (a * x + b * y) + q * (c * x + d * y)
  {
    assert (p * a + q * c) * x == p * (a * x) + q * (c * x);
    assert (p * b + q * d) * y == p * (b * y) + q * (d * y);
    assert p * (a * x + b * y) == p * (a * x) + p * (b * y);
    assert q * (c * x + d * y) == q * (c * x) + q * (d * y);
  }

  lemma IntMulAssociative(l: Mat, m: Mat, r: Mat)
    ensures IntMul(IntMul(l, m), r) == IntMul(l, IntMul(m, r))
  {
    DotAssociative(l.a, l.b, m.a, m.b, m.c, m.d, r.a, r.c);
    DotAssociative(l.a, l.b, m.a, m.b, m.c, m.d, r.b, r.d);
    DotAssociative(l.c, l.d, m.a, m.b, m.c, m.d, r.a, r.c);
    DotAssociative(l.c, l.d, m.a, m.b, m.c, m.d, r.b, r.d);
  }

  lemma MulAssociative(l: WordMat, m: WordMat, r: WordMat)
    ensures MatrixMul(MatrixMul(l, m), r) == MatrixMul(l, MatrixMul(m, r))
  {
    hide MatrixMul, IntMul, Reduce;
    MulIsReducedIntMul(l, m);
    MulIsReducedIntMul(MatrixMul(l, m), r);
    ReduceFactors(IntMul(l, m), r);
    IntMulAssociative(l, m, r);
    ReduceFactors(l, IntMul(m, r));
    MulIsReducedIntMul(m, r);
    MulIsReducedIntMul(l, MatrixMul(m, r));
  }

  lemma MulUnit(m: WordMat)
    ensures MatrixMul(m, UNIT) == m && MatrixMul(UNIT, m) == m
  {
    MulIsReducedIntMul(m, UNIT);
    MulIsReducedIntMul(UNIT, m);
  }

  /** The adjugate. */
  function Adjugate(m: Mat): Mat
  {
    Mat(m.d, -m.b, -m.c, m.a)
  }

  function Scale(m: Mat, v: int): Mat
  {
    Mat(m.a * v, m.b * v, m.c * v, m.d * v)
  }

  lemma DetIsReduced(m: WordMat)
    ensures MatrixDet(m) == (m.a * m.d - m.b * m.c) % TWO64
  {
    var x, y := m.a * m.d, m.b * m.c;
    assert (x % TWO64 - y % TWO64) % TWO64 == (x - y) % TWO64 by {
      var k := y / TWO64;
      assert y == y % TWO64 + k * TWO64;
      ModAddLeft(x, -(y % TWO64), TWO64);
      ModShift(x - y, k, TWO64);
    }
  }

  lemma InvIsScaledAdjugate(m: WordMat)
    ensures MatrixInv(m) == Reduce(Scale(Adjugate(m), Iterate(MatrixDet(m), 6)))
  {
    var v := Iterate(MatrixDet(m), 6);
    ModMulLeft(-m.b, v, TWO64);
    ModMulLeft(-m.c, v, TWO64);
  }

  /** M times its scaled adjugate is det * v on the diagonal and 0 off it, on either side. */
  lemma AdjugateProduct(m: Mat, v: int)
    ensures var e := (m.a * m.d - m.b * m.c) * v;
      IntMul(m, Scale(Adjugate(m), v)) == Mat(e, 0, 0, e) && IntMul(Scale(Adjugate(m), v), m) == Mat(e, 0, 0, e)
  {
    var (a, b, c, d) := (m.a, m.b, m.c, m.d);
    Factor(a, d, b, c, v);
    Factor(d, a, c, b, v);
    Factor(a, b, b, a, v);
    Factor(c, d, d, c, v);
    Factor(d, b, b, d, v);
    Factor(a, c, c, a, v);
    assert a * b == b * a && c * d == d * c && b * d == d * b && a * c == c * a && b * c == c * b && a * d == d * a;
  }

  lemma Factor(p: int, q: int, r: int, s: int, v: int)
    ensures p * (q * v) + r * (-s * v) == (p * q - r * s) * v
    ensures p * (-q * v) + r * (s * v) == (r * s - p * q) * v
    ensures (q * v) * p + (-s * v) * r == (p * q - r * s) * v
    ensures (-q * v) * p + (s * v) * r == (r * s - p * q) * v
  {
    assert p * (q * v) == (p * q) * v && r * (s * v) == (r * s) * v;
    assert -s * v == -(s * v) && -q * v == -(q * v);
  }

  /** `matrix_inv` is a two-sided inverse of every matrix with an odd determinant. */
  lemma InvInverts(m: WordMat)
    requires MatrixDet(m) % 2 == 1
    ensures MatrixMul(m, MatrixInv(m)) == UNIT
    ensures MatrixMul(MatrixInv(m), m) == UNIT
  {
    hide MatrixMul, MatrixInv, Scale, Adjugate, IntMul;
    var det := MatrixDet(m);
    var v := Iterate(det, 6);
    var adj := Scale(Adjugate(m), v);
    SixStepsInvert(det);
    InvIsScaledAdjugate(m);
    MulIsReducedIntMul(m, MatrixInv(m));
    MulIsReducedIntMul(MatrixInv(m), m);
    ReduceFactors(m, adj);
    ReduceFactors(adj, m);
    AdjugateProduct(m, v);
    DetIsReduced(m);
    ModMulLeft(m.a * m.d - m.b * m.c, v, TWO64);
  }

  /** Odd diagonal, even off-diagonal: the determinant of a seeded matrix is odd. */
  lemma SeededDetIsOdd(material: bytes)
    requires |material| == 64
    ensures MatrixDet(MatrixFromMaterial(material)) % 2 == 1
  {
    hide MatrixFromMaterial, MatrixDet;
    var m := MatrixFromMaterial(material);
    DetIsReduced(m);
    OddDifference(m.a, m.d, m.b, m.c);
  }

  lemma OddDifference(p: int, q: int, r: int, s: int)
    requires p % 2 == 1 && q % 2 == 1 && r % 2 == 0
    ensures ((p * q - r * s) % TWO64) % 2 == 1
  {
    OddProduct(p, q);
    EvenProduct(r, s);
    var v := p * q - r * s;
    WrapHarmless(v, 2);
    assert v % 2 == 1;
  }

  lemma OddProduct(x: int, y: int)
    requires x % 2 == 1 && y % 2 == 1
    ensures (x * y) % 2 == 1
  {
    ModMulLeft(x, y, 2);
  }

  lemma EvenProduct(x: int, y: int)
    requires x % 2 == 0
    ensures (x * y) % 2 == 0
  {
    ModMulLeft(x, y, 2);
  }

  // ----- The mixing layer -----

  function Mix(left: WordMat, right: WordMat, block: bytes): (out: bytes)
    requires |block| == 32
    ensures |out| == 32
  {
    BlockFromWords(MatrixMul(left, MatrixMul(WordsFromBlock(block), right)))
  }

  function Unmix(left: WordMat, right: WordMat, block: bytes): (out: bytes)
    requires |block| == 32
    ensures |out| == 32
  {
    BlockFromWords(MatrixMul(MatrixInv(left), MatrixMul(WordsFromBlock(block), MatrixInv(right))))
  }

  lemma WordsRoundTrip(block: bytes, m: WordMat)
    requires |block| == 32
    ensures BlockFromWords(WordsFromBlock(block)) == block
    ensures WordsFromBlock(BlockFromWords(m)) == m
  {
    BE8Read(block[0..8]);
    BE8Read(block[8..16]);
    BE8Read(block[16..24]);
    BE8Read(block[24..32]);
    assert block[0..8] + block[8..16] + block[16..24] + block[24..32] == block;
    ReadBE8(m.a);
    ReadBE8(m.b);
    ReadBE8(m.c);
    ReadBE8(m.d);
    var out := BlockFromWords(m);
    assert out[0..8] == BE8(m.a) && out[8..16] == BE8(m.b) && out[16..24] == BE8(m.c) && out[24..32] == BE8(m.d);
  }

  /** Multiplying by A and B on the two sides and then by their inverses restores W. */
  lemma SandwichCancels(a: WordMat, a': WordMat, b: WordMat, b': WordMat, w: WordMat)
    requires MatrixMul(a', a) == UNIT && MatrixMul(b, b') == UNIT
    ensures MatrixMul(a', MatrixMul(MatrixMul(a, MatrixMul(w, b)), b')) == w
  {
    hide MatrixMul;
    MulAssociative(a, MatrixMul(w, b), b');
    MulAssociative(w, b, b');
    MulUnit(w);
    MulAssociative(a', a, w);
  }

  /** The mixing layer and its inverse undo each other in both orders. */
  lemma MixRoundTrip(left: WordMat, right: WordMat, block: bytes)
    requires |block| == 32 && MatrixDet(left) % 2 == 1 && MatrixDet(right) % 2 == 1
    ensures Unmix(left, right, Mix(left, right, block)) == block
    ensures Mix(left, right, Unmix(left, right, block)) == block
  {
    hide MatrixMul, MatrixInv, MatrixDet, WordsFromBlock, BlockFromWords;
    var w := WordsFromBlock(block);
    InvInverts(left);
    InvInverts(right);
    var mixed := MatrixMul(left, MatrixMul(w, right));
    var unmixed := MatrixMul(MatrixInv(left), MatrixMul(w, MatrixInv(right)));
    WordsRoundTrip(block, mixed);
    WordsRoundTrip(block, unmixed);
    SandwichCancels(left, MatrixInv(left), right, MatrixInv(right), w);
    SandwichCancels(MatrixInv(left), left, MatrixInv(right), right, w);
  }
}
