/**
 * The Python reference engine (krcm/core.py) in its own terms: unbounded integers reduced at
 * the end, the extended-Euclid inverse, the determinant repair branch, and streams whose
 * length label raises OverflowError where Rust's truncates.
 */
module PythonEngine {
  import opened BlockEngine
  import opened Bytes
  import opened Chaining
  import opened Modular
  import opened Primitives
  import opened Shuffle
  import opened Stream
  import opened Wrappers
  import AffineLayers
  import Diffusion
  import ExtendedGcd
  import Expand
  import Matrix
  import Permutation
  import Substitution

  // ----- Matrices -----

  type Mat = Matrix.Mat

  function PyDet(matrix: Mat): int
  {
    var m := Matrix.Reduce(matrix);
    (m.a * m.d - m.b * m.c) % TWO64
  }

  function PyMatrixMul(left: Mat, right: Mat): Mat
  {
    var l, r := Matrix.Reduce(left), Matrix.Reduce(right);
    Matrix.Mat(
      (l.a * r.a + l.b * r.c) % TWO64,
      (l.a * r.b + l.b * r.d) % TWO64,
      (l.c * r.a + l.d * r.c) % TWO64,
      (l.c * r.b + l.d * r.d) % TWO64)
  }

  function PyMatrixInv(matrix: Mat): Result<Mat, PyError>
  {
    var m := Matrix.Reduce(matrix);
    var v :- ExtendedGcd.ModInv(PyDet(m), TWO64);
    Ok(Matrix.Mat((m.d * v) % TWO64, (-m.b * v) % TWO64, (-m.c * v) % TWO64, (m.a * v) % TWO64))
  }

  /** Flips the last bit, as `matrix[3] ^= 1` does. */
  function FlipLowBit(x: int): int
  {
    if x % 2 == 0 then x + 1 else x - 1
  }

  function PyMatrixFromMaterial(material: bytes): Mat
    requires |material| == 64
  {
    var m := Matrix.Mat(
      SetLowBit(ReadU64(material[0..8])) % TWO64,
      Matrix.ClearLowBit(ReadU64(material[8..16])) % TWO64,
      Matrix.ClearLowBit(ReadU64(material[16..24])) % TWO64,
      SetLowBit(ReadU64(material[24..32])) % TWO64);
    if PyDet(m) % 2 == 0 then m.(d := FlipLowBit(m.d)) else m
  }

  lemma ModOfWord(x: int)
    requires 0 <= x < TWO64
    ensures x % TWO64 == x
  {
  }

  lemma PyDetAgrees(m: Matrix.WordMat)
    ensures Matrix.Reduce(m) == m && PyDet(m) == Matrix.MatrixDet(m)
  {
    hide Matrix.MatrixDet;
    Matrix.DetIsReduced(m);
  }

  /** Reducing once at the end gives the same words as wrapping at every step. */
  lemma PyMatrixMulAgrees(l: Matrix.WordMat, r: Matrix.WordMat)
    ensures PyMatrixMul(l, r) == Matrix.MatrixMul(l, r)
  {
    hide Matrix.MatrixMul, PyDet, Matrix.MatrixDet;
    PyDetAgrees(l);
    PyDetAgrees(r);
    Matrix.MulIsReducedIntMul(l, r);
  }

  /** On an odd determinant Python's inverse exists and equals Rust's; otherwise it raises. */
  lemma PyMatrixInvAgrees(m: Matrix.WordMat)
    ensures PyMatrixInv(m) ==
      if Matrix.MatrixDet(m) % 2 == 1 then Ok(Matrix.MatrixInv(m)) else Err(ValueError)
  {
    hide Matrix.MatrixDet, PyDet, Matrix.MatrixInv, ExtendedGcd.ModInv;
    var det := Matrix.MatrixDet(m);
    PyDetAgrees(m);
    ExtendedGcd.ModInvIsNewton(det);
    Matrix.InvIsScaledAdjugate(m);
  }

  /** The determinant repair never runs: the seeded matrix is Rust's. */
  lemma PyRepairUnreachable(material: bytes)
    requires |material| == 64
    ensures PyMatrixFromMaterial(material) == Matrix.MatrixFromMaterial(material)
  {
    hide ReadU64, SetLowBit, Matrix.ClearLowBit, Matrix.MatrixDet, PyDet;
    var m := Matrix.MatrixFromMaterial(material);
    Matrix.SeededDetIsOdd(material);
    PyDetAgrees(m);
    ModOfWord(m.a);
    ModOfWord(m.b);
    ModOfWord(m.c);
    ModOfWord(m.d);
  }

  function PyMatrixFromSeed(P: Primitives, seed: bytes): Mat
  {
    PyMatrixFromMaterial(Expand.Expansion(P, seed, Ascii("matrix"), 64))
  }

  function PyMixed(P: Primitives, seed: bytes, block: bytes): Mat
    requires |block| == 32
  {
    hide *;
    var left := PyMatrixFromSeed(P, P.hmac(seed, Ascii("left")));
    var right := PyMatrixFromSeed(P, P.hmac(seed, Ascii("right")));
    PyMatrixMul(left, PyMatrixMul(Matrix.WordsFromBlock(block), right))
  }

  function PyUnmixed(P: Primitives, seed: bytes, block: bytes): Result<Mat, PyError>
    requires |block| == 32
  {
    hide PyMatrixFromSeed, PyMatrixMul, PyMatrixInv, Matrix.WordsFromBlock, Ascii;
    var left := PyMatrixFromSeed(P, P.hmac(seed, Ascii("left")));
    var right := PyMatrixFromSeed(P, P.hmac(seed, Ascii("right")));
    var leftInv :- PyMatrixInv(left);
    var rightInv :- PyMatrixInv(right);
    Ok(PyMatrixMul(leftInv, PyMatrixMul(Matrix.WordsFromBlock(block), rightInv)))
  }

  lemma PyMixAgrees(P: Primitives, seed: bytes, block: bytes)
    requires |block| == 32
    ensures Matrix.BlockFromWords(Matrix.Reduce(PyMixed(P, seed, block)))
      == Matrix.Mix(LeftMatrix(P, seed), RightMatrix(P, seed), block)
    ensures PyUnmixed(P, seed, block).Ok?
    ensures Matrix.BlockFromWords(Matrix.Reduce(PyUnmixed(P, seed, block).value))
      == Matrix.Unmix(LeftMatrix(P, seed), RightMatrix(P, seed), block)
  {
    hide PyMatrixFromMaterial, Matrix.MatrixFromMaterial, PyMatrixMul, Matrix.MatrixMul, PyMatrixInv, Matrix.MatrixInv;
    hide Matrix.MatrixDet, Matrix.WordsFromBlock, Matrix.BlockFromWords, Expand.Expansion, Matrix.Reduce;
    PyRepairUnreachable(Expand.Expansion(P, P.hmac(seed, Ascii("left")), Ascii("matrix"), 64));
    PyRepairUnreachable(Expand.Expansion(P, P.hmac(seed, Ascii("right")), Ascii("matrix"), 64));
    SeededMatricesInvertible(P, seed);
    var left, right := LeftMatrix(P, seed), RightMatrix(P, seed);
    PyProductAgrees(left, Matrix.WordsFromBlock(block), right);
    PyMatrixInvAgrees(left);
    PyMatrixInvAgrees(right);
    PyProductAgrees(Matrix.MatrixInv(left), Matrix.WordsFromBlock(block), Matrix.MatrixInv(right));
  }

  lemma PyProductAgrees(l: Matrix.WordMat, w: Matrix.WordMat, r: Matrix.WordMat)
    ensures PyMatrixMul(l, PyMatrixMul(w, r)) == Matrix.MatrixMul(l, Matrix.MatrixMul(w, r))
    ensures Matrix.Reduce(PyMatrixMul(l, PyMatrixMul(w, r))) == Matrix.MatrixMul(l, Matrix.MatrixMul(w, r))
  {
    hide PyMatrixMul, Matrix.MatrixMul, PyDet, Matrix.MatrixDet;
    PyMatrixMulAgrees(w, r);
    PyMatrixMulAgrees(l, Matrix.MatrixMul(w, r));
    PyDetAgrees(Matrix.MatrixMul(l, Matrix.MatrixMul(w, r)));
  }

  // ----- Diffusion: one mask to 8 bits instead of two wrapping additions -----

  function PyForward(s: bytes, mask: bytes): (t: bytes)
    requires |s| <= |mask|
    ensures |t| == |s|
  {
    if |s| <= 1 then s else
      var n := |s| - 1;
      var t := PyForward(s[..n], mask);
      t + [AddByte(s[n] as int + t[n - 1], mask[n])]
  }

  function PyBackward(s: bytes, mask: bytes): (t: bytes)
    requires |s| <= |mask|
    ensures |t| == |s|
  {
    if |s| <= 1 then s else
      var t := PyBackward(s[1..], mask[1..]);
      [AddByte(s[0] as int + t[0], mask[0])] + t
  }

  lemma AddByteOnce(a: int, b: int, m: int)
    ensures AddByte(AddByte(a, b), m) == AddByte(a + b, m)
  {
    ModAddLeft(a + b, m, 256);
  }

  lemma {:induction false} PyForwardAgrees(s: bytes, mask: bytes)
    requires |s| <= |mask|
    ensures PyForward(s, mask) == Diffusion.Forward(s, mask)
  {
    hide AddByte;
    if |s| > 1 {
      var n := |s| - 1;
      PyForwardAgrees(s[..n], mask);
      AddByteOnce(s[n], PyForward(s[..n], mask)[n - 1], mask[n]);
    }
  }

  lemma {:induction false} PyBackwardAgrees(s: bytes, mask: bytes)
    requires |s| <= |mask|
    ensures PyBackward(s, mask) == Diffusion.Backward(s, mask)
  {
    hide AddByte;
    if |s| > 1 {
      PyBackwardAgrees(s[1..], mask[1..]);
      AddByteOnce(s[0], PyBackward(s[1..], mask[1..])[0], mask[0]);
    }
  }

  function PyDiffused(s: bytes, mask: bytes): (t: bytes)
    requires |mask| == 2 * |s|
    ensures |t| == |s|
  {
    PyBackward(PyForward(s, mask), mask[|s|..])
  }

  function PyUnbackward(t: bytes, mask: bytes): (s: bytes)
    requires |t| <= |mask|
    ensures |s| == |t|
  {
    seq(|t|, i requires 0 <= i < |t| =>
      if i == |t| - 1 then t[i] else SubByte(t[i] as int - t[i + 1], mask[i]))
  }

  function PyUnforward(t: bytes, mask: bytes): (s: bytes)
    requires |t| <= |mask|
    ensures |s| == |t|
  {
    seq(|t|, i requires 0 <= i < |t| => if i == 0 then t[0] else SubByte(t[i] as int - t[i - 1], mask[i]))
  }

  function PyUndiffused(t: bytes, mask: bytes): (s: bytes)
    requires |mask| == 2 * |t|
    ensures |s| == |t|
  {
    PyUnforward(PyUnbackward(t, mask[|t|..]), mask)
  }

  lemma PyUnpassesAgree(t: bytes, mask: bytes)
    requires |t| <= |mask|
    ensures PyUnbackward(t, mask) == Diffusion.Unbackward(t, mask)
    ensures PyUnforward(t, mask) == Diffusion.Unforward(t, mask)
  {
    hide SubByte;
    forall i | 0 <= i < |t|
      ensures PyUnbackward(t, mask)[i] == Diffusion.Unbackward(t, mask)[i]
      ensures PyUnforward(t, mask)[i] == Diffusion.Unforward(t, mask)[i]
    {
      if i < |t| - 1 {
        SubByteOnce(t[i], t[i + 1], mask[i]);
      }
      if i > 0 {
        SubByteOnce(t[i], t[i - 1], mask[i]);
      }
    }
  }

  lemma PyDiffusionAgrees(s: bytes, mask: bytes)
    requires |mask| == 2 * |s|
    ensures PyDiffused(s, mask) == Diffusion.Diffused(s, mask)
    ensures PyUndiffused(s, mask) == Diffusion.Undiffused(s, mask)
  {
    var tail := mask[|s|..];
    PyForwardAgrees(s, mask);
    PyBackwardAgrees(Diffusion.Forward(s, mask), tail);
    PyUnpassesAgree(s, tail);
    PyUnpassesAgree(Diffusion.Unbackward(s, tail), mask);
  }

  lemma SubByteOnce(a: int, b: int, m: int)
    ensures SubByte(SubByte(a, b), m) == SubByte(a - b, m)
  {
    ModAddLeft(a - b, -m, 256);
  }

  // ----- Streams and shuffles -----

  /**
   * The index of the first accepted word, unless the stream overflows first: word 2^29 needs an
   * extension at length 2^32, whose 4-byte label raises OverflowError. So this loop always ends.
   */
  function PyDraw(P: Primitives, seed: bytes, prefix: bytes, from: nat, m: nat): (r: Result<nat, PyError>)
    requires m > 0
    ensures r.Ok? ==> from <= r.value
    decreases STREAM_WORDS - from
  {
    if from >= STREAM_WORDS then Err(OverflowError)
    else if Word(P, seed, prefix, from) < Limit(m) then Ok(from)
    else PyDraw(P, seed, prefix, from + 1, m)
  }

  function PyChoices(P: Primitives, seed: bytes, prefix: bytes, from: nat, k: nat): (r: Result<seq<nat>, PyError>)
    ensures r.Ok? ==> |r.value| == k && ValidChoices(r.value)
    decreases k
  {
    if k <= 1 then Ok(seq(k, _ => 0)) else
      var d :- PyDraw(P, seed, prefix, from, k);
      var c :- PyChoices(P, seed, prefix, d + 1, k - 1);
      Ok(c + [Word(P, seed, prefix, d) % k])
  }

  function PyShuffle(P: Primitives, seed: bytes, prefix: bytes, size: nat): (r: Result<seq<nat>, PyError>)
    ensures r.Ok? ==> |r.value| == size && IsPermutation(r.value)
  {
    var c :- PyChoices(P, seed, prefix, 0, size);
    ShuffledIsPermutation(c);
    Ok(Shuffled(c))
  }

  /** Every draw of the unbounded loop ends, and the last index drawn is below 2^29. */
  ghost predicate DrawsFit(w: Source, from: nat, k: nat)
    decreases k
  {
    k <= 1 ||
    (AcceptsFrom(w, from, k) && DrawIndex(w, from, k) < STREAM_WORDS && DrawsFit(w, DrawIndex(w, from, k) + 1, k - 1))
  }

  lemma {:induction false} PyDrawAgrees(w: Source, from: nat, m: nat)
    requires m > 0
    ensures var r := PyDraw(w.P, w.seed, w.prefix, from, m);
      r == if AcceptsFrom(w, from, m) && DrawIndex(w, from, m) < STREAM_WORDS
           then Ok(DrawIndex(w, from, m)) else Err(OverflowError)
    decreases STREAM_WORDS - from
  {
    hide Word, Limit, DrawIndex;
    if from >= STREAM_WORDS {
    } else if w.At(from) < Limit(m) {
      assert AcceptsFrom(w, from, m);
    } else {
      PyDrawAgrees(w, from + 1, m);
      SkipRejected(w, from, m);
    }
  }

  lemma SkipRejected(w: Source, from: nat, m: nat)
    requires m > 0 && w.At(from) >= Limit(m)
    ensures AcceptsFrom(w, from, m) <==> AcceptsFrom(w, from + 1, m)
    ensures AcceptsFrom(w, from, m) ==> DrawIndex(w, from, m) == DrawIndex(w, from + 1, m)
  {
    hide Word, Limit, DrawIndex;
    if n: nat :| from <= n && w.At(n) < Limit(m) {
      assert from + 1 <= n;
      var d, d' := DrawIndex(w, from, m), DrawIndex(w, from + 1, m);
      assert from + 1 <= d;
      assert w.At(d) < Limit(m) && w.At(d') < Limit(m);
    }
  }

  lemma {:induction false} PyChoicesAgree(w: Source, from: nat, k: nat)
    ensures PyChoices(w.P, w.seed, w.prefix, from, k) ==
      if DrawsFit(w, from, k) then Ok(DrawChoices(w, from, k)) else Err(OverflowError)
    decreases k
  {
    hide Word, DrawIndex, AcceptsFrom, PyDraw;
    if k <= 1 {
      assert DrawChoices(w, from, k) == seq(k, _ => 0);
    } else {
      PyDrawAgrees(w, from, k);
      PyChoicesAgree(w, DrawIndex(w, from, k) + 1, k - 1);
    }
  }

  /** Python's shuffle is Rust's when its draws fit in 2^29 words, and raises otherwise. */
  lemma PyShuffleAgrees(P: Primitives, seed: bytes, prefix: bytes, size: nat)
    ensures PyShuffle(P, seed, prefix, size) ==
      if DrawsFit(Source(P, seed, prefix), 0, size)
      then Ok(KeyedPermutation(P, seed, prefix, size)) else Err(OverflowError)
  {
    hide DrawsFit, DrawChoices, PyChoices, Shuffled;
    PyChoicesAgree(Source(P, seed, prefix), 0, size);
  }

  // ----- Rounds -----

  function PyByteLayer(P: Primitives, engine: Engine, seed: Digest, block: bytes): (r: Result<bytes, PyError>)
    requires |block| == 32
    ensures r.Ok? ==> |r.value| == 32
  {
    var mask := SubstitutionMask(P, seed);
    match engine
    case V3 => Ok(AffineLayers.AffineSubstituted(block, seed, mask))
    case V4 =>
      var perm :- PyShuffle(P, seed, Ascii("perm"), 256);
      Ok(Substitution.Substituted(block, perm, mask))
  }

  function PyByteLayerBack(P: Primitives, engine: Engine, seed: Digest, block: bytes): (r: Result<bytes, PyError>)
    requires |block| == 32
    ensures r.Ok? ==> |r.value| == 32
  {
    var mask := SubstitutionMask(P, seed);
    match engine
    case V3 => Ok(AffineLayers.AffineUnsubstituted(block, seed, mask))
    case V4 =>
      var perm :- PyShuffle(P, seed, Ascii("perm"), 256);
      Ok(Substitution.Unsubstituted(block, perm, mask))
  }

  function PyPositions(P: Primitives, engine: Engine, seed: Digest): (r: Result<seq<nat>, PyError>)
    ensures r.Ok? ==> |r.value| == 32 && IsPermutation(r.value)
  {
    match engine
    case V3 => AffineLayers.AffinePositionsPermute(seed); Ok(AffineLayers.AffinePositions(seed))
    case V4 => PyShuffle(P, seed, Ascii("small-perm"), 32)
  }

  function PyEncryptRound(P: Primitives, engine: Engine, seed: Digest, block: bytes): (r: Result<bytes, PyError>)
    requires |block| == 32
    ensures r.Ok? ==> |r.value| == 32
  {
    var substituted :- PyByteLayer(P, engine, seed, block);
    var diffused := PyDiffused(substituted, DiffusionMask(P, seed));
    var mixed := Matrix.BlockFromWords(Matrix.Reduce(PyMixed(P, seed, diffused)));
    var positions :- PyPositions(P, engine, seed);
    Ok(Permutation.Permuted(mixed, positions))
  }

  function PyDecryptRound(P: Primitives, engine: Engine, seed: Digest, block: bytes): (r: Result<bytes, PyError>)
    requires |block| == 32
    ensures r.Ok? ==> |r.value| == 32
  {
    var positions :- PyPositions(P, engine, seed);
    var mixed := Permutation.Unpermuted(block, positions);
    var unmixed :- PyUnmixed(P, seed, mixed);
    var substituted := PyUndiffused(Matrix.BlockFromWords(Matrix.Reduce(unmixed)), DiffusionMask(P, seed));
    PyByteLayerBack(P, engine, seed, substituted)
  }

  /** The two shuffles of a round stay within 2^29 words; the affine engine has none. */
  ghost predicate RoundFits(P: Primitives, engine: Engine, seed: Digest)
  {
    hide DrawsFit;
    engine == V4 ==>
      DrawsFit(Source(P, seed, Ascii("perm")), 0, 256) && DrawsFit(Source(P, seed, Ascii("small-perm")), 0, 32)
  }

  ghost function Guarded(fits: bool, out: bytes): Result<bytes, PyError>
  {
    if fits then Ok(out) else Err(OverflowError)
  }

  lemma PyRoundAgrees(P: Primitives, engine: Engine, seed: Digest, block: bytes)
    requires |block| == 32
    ensures PyEncryptRound(P, engine, seed, block)
      == Guarded(RoundFits(P, engine, seed), EncryptRound(P, engine, seed, block))
    ensures PyDecryptRound(P, engine, seed, block)
      == Guarded(RoundFits(P, engine, seed), DecryptRound(P, engine, seed, block))
  {
    hide DrawsFit, PyShuffle, KeyedPermutation, PyDiffused, PyUndiffused, PyMixed, PyUnmixed, Matrix.Reduce;
    hide Matrix.Mix, Matrix.Unmix, Matrix.BlockFromWords, LeftMatrix, RightMatrix, DiffusionMask, SubstitutionMask;
    hide AffineLayers.AffineSubstituted, AffineLayers.AffineUnsubstituted, AffineLayers.AffinePositions;
    hide Substitution.Substituted, Substitution.Unsubstituted, Permutation.Permuted, Permutation.Unpermuted;
    hide Diffusion.Diffused, Diffusion.Undiffused, Distinct;
    PyShuffleAgrees(P, seed, Ascii("perm"), 256);
    PyShuffleAgrees(P, seed, Ascii("small-perm"), 32);
    var mask := DiffusionMask(P, seed);
    var s1 := ByteLayer(P, engine, seed, block);
    PyDiffusionAgrees(s1, mask);
    PyMixAgrees(P, seed, Diffusion.Diffused(s1, mask));
    var t1 := Permutation.Unpermuted(block, Positions(P, engine, seed));
    PyMixAgrees(P, seed, t1);
    PyDiffusionAgrees(Matrix.Unmix(LeftMatrix(P, seed), RightMatrix(P, seed), t1), mask);
  }

  function PyEncryptRounds(P: Primitives, engine: Engine, seed: bytes, block: bytes, k: nat)
    : (r: Result<bytes, PyError>)
    requires |block| == 32
    ensures r.Ok? ==> |r.value| == 32
  {
    if k == 0 then Ok(block) else
      var state :- PyEncryptRounds(P, engine, seed, block, k - 1);
      PyEncryptRound(P, engine, RoundSeed(P, seed, k - 1), state)
  }

  function PyDecryptRounds(P: Primitives, engine: Engine, seed: bytes, block: bytes, k: nat)
    : (r: Result<bytes, PyError>)
    requires |block| == 32
    ensures r.Ok? ==> |r.value| == 32
    decreases k
  {
    if k == 0 then Ok(block) else
      var state :- PyDecryptRound(P, engine, RoundSeed(P, seed, k - 1), block);
      PyDecryptRounds(P, engine, seed, state, k - 1)
  }

  ghost predicate RoundsFit(P: Primitives, engine: Engine, seed: bytes, k: nat)
  {
    k == 0 || (RoundFits(P, engine, RoundSeed(P, seed, k - 1)) && RoundsFit(P, engine, seed, k - 1))
  }

  lemma {:induction false} PyRoundsAgree(P: Primitives, engine: Engine, seed: bytes, block: bytes, k: nat)
    requires |block| == 32
    ensures PyEncryptRounds(P, engine, seed, block, k)
      == Guarded(RoundsFit(P, engine, seed, k), EncryptRounds(P, engine, seed, block, k))
    ensures PyDecryptRounds(P, engine, seed, block, k)
      == Guarded(RoundsFit(P, engine, seed, k), DecryptRounds(P, engine, seed, block, k))
    decreases k
  {
    hide RoundFits, RoundSeed, PyEncryptRound, PyDecryptRound, EncryptRound, DecryptRound;
    if k > 0 {
      var rseed := RoundSeed(P, seed, k - 1);
      PyRoundsAgree(P, engine, seed, block, k - 1);
      PyRoundAgrees(P, engine, rseed, EncryptRounds(P, engine, seed, block, k - 1));
      PyRoundAgrees(P, engine, rseed, block);
      PyRoundsAgree(P, engine, seed, DecryptRound(P, engine, rseed, block), k - 1);
    }
  }

  lemma PyBlockAgrees(P: Primitives, engine: Engine, seed: bytes, block: bytes)
    requires |block| == 32
    ensures PyEncryptRounds(P, engine, seed, block, ROUNDS)
      == Guarded(RoundsFit(P, engine, seed, ROUNDS), EncryptedBlock(P, engine, block, seed))
  {
    hide PyEncryptRounds, EncryptRounds, RoundsFit;
    PyRoundsAgree(P, engine, seed, block, ROUNDS);
  }

  // ----- Chained blocks -----

  function PyEncryptFrom(c: Chain, index: nat, feedback: bytes, data: bytes): Result<bytes, PyError>
    requires |data| % 32 == 0
    decreases |data|
  {
    hide PyEncryptRounds, BlockSeed;
    if data == [] then Ok([]) else
      AlignedRest(data);
      var e :- PyEncryptRounds(c.P, c.engine, BlockSeed(c.P, c.key, c.nonce, index, feedback), data[..32], ROUNDS);
      var rest :- PyEncryptFrom(c, index + 1, e, data[32..]);
      Ok(e + rest)
  }

  function PyDecryptFrom(c: Chain, index: nat, feedback: bytes, data: bytes): Result<bytes, PyError>
    requires |data| % 32 == 0
    decreases |data|
  {
    hide PyDecryptRounds, BlockSeed;
    if data == [] then Ok([]) else
      AlignedRest(data);
      var d :- PyDecryptRounds(c.P, c.engine, BlockSeed(c.P, c.key, c.nonce, index, feedback), data[..32], ROUNDS);
      var rest :- PyDecryptFrom(c, index + 1, data[..32], data[32..]);
      Ok(d + rest)
  }

  function PyEncryptBlocks(c: Chain, padded: bytes): Result<bytes, PyError>
  {
    if |padded| % 32 != 0 then Err(ValueError) else PyEncryptFrom(c, 0, c.nonce, padded)
  }

  function PyDecryptBlocks(c: Chain, ciphertext: bytes): Result<bytes, PyError>
  {
    if |ciphertext| % 32 != 0 then Err(FormatError) else PyDecryptFrom(c, 0, c.nonce, ciphertext)
  }

  /** Every block seed along a ciphertext has shuffles that fit. */
  ghost predicate CipherFits(c: Chain, index: nat, feedback: bytes, data: bytes)
    requires |data| % 32 == 0
    decreases |data|
  {
    hide RoundsFit, BlockSeed;
    if data == [] then true else
      AlignedRest(data);
      && RoundsFit(c.P, c.engine, BlockSeed(c.P, c.key, c.nonce, index, feedback), ROUNDS)
      && CipherFits(c, index + 1, data[..32], data[32..])
  }

  lemma {:induction false} PyDecryptFromAgrees(c: Chain, index: nat, feedback: bytes, data: bytes)
    requires |data| % 32 == 0
    ensures PyDecryptFrom(c, index, feedback, data)
      == Guarded(CipherFits(c, index, feedback, data), DecryptFrom(c, index, feedback, data))
    decreases |data|
  {
    hide PyDecryptRounds, DecryptRounds, RoundsFit, BlockSeed;
    if data != [] {
      AlignedRest(data);
      PyRoundsAgree(c.P, c.engine, BlockSeed(c.P, c.key, c.nonce, index, feedback), data[..32], ROUNDS);
      PyDecryptFromAgrees(c, index + 1, data[..32], data[32..]);
    }
  }

  lemma CipherFitsCons(c: Chain, index: nat, feedback: bytes, head: bytes, rest: bytes)
    requires |head| == 32 && |rest| % 32 == 0
    ensures CipherFits(c, index, feedback, head + rest) <==>
      && RoundsFit(c.P, c.engine, BlockSeed(c.P, c.key, c.nonce, index, feedback), ROUNDS)
      && CipherFits(c, index + 1, head, rest)
  {
    hide RoundsFit, BlockSeed;
    var data := head + rest;
    assert data[..32] == head && data[32..] == rest;
  }

  lemma {:induction false} PyEncryptFromAgrees(c: Chain, index: nat, feedback: bytes, data: bytes)
    requires |data| % 32 == 0
    ensures var out := EncryptFrom(c, index, feedback, data);
      PyEncryptFrom(c, index, feedback, data) == Guarded(CipherFits(c, index, feedback, out), out)
    decreases |data|
  {
    hide PyEncryptRounds, EncryptRounds, RoundsFit, BlockSeed;
    if data != [] {
      AlignedRest(data);
      var head, rest := data[..32], data[32..];
      var seed := BlockSeed(c.P, c.key, c.nonce, index, feedback);
      PyBlockAgrees(c.P, c.engine, seed, head);
      hide EncryptedBlock;
      var e := EncryptedBlock(c.P, c.engine, head, seed);
      PyEncryptFromAgrees(c, index + 1, e, rest);
      hide CipherFits;
      CipherFitsCons(c, index, feedback, e, EncryptFrom(c, index + 1, e, rest));
    }
  }

  /**
   * On aligned input the reference returns the engine's bytes, in both directions, whenever the
   * shuffles along the ciphertext fit in 2^29 words, and raises OverflowError otherwise. For
   * engine V4 the bytes are those `EncryptBlocks` and `DecryptBlocks` return in Rust.
   */
  lemma RustRefinesPython(c: Chain, data: bytes)
    requires |data| % 32 == 0
    ensures PyEncryptBlocks(c, data) == Guarded(CipherFits(c, 0, c.nonce, Encrypted(c, data)), Encrypted(c, data))
    ensures PyDecryptBlocks(c, data) == Guarded(CipherFits(c, 0, c.nonce, data), Decrypted(c, data))
  {
    hide CipherFits;
    PyEncryptFromAgrees(c, 0, c.nonce, data);
    PyDecryptFromAgrees(c, 0, c.nonce, data);
  }

  /** So what the reference encrypts it decrypts, with either engine. */
  lemma PyChainRoundTrip(c: Chain, padded: bytes)
    requires PyEncryptBlocks(c, padded).Ok?
    ensures PyDecryptBlocks(c, PyEncryptBlocks(c, padded).value) == Ok(padded)
    ensures |PyEncryptBlocks(c, padded).value| == |padded|
  {
    hide CipherFits;
    RustRefinesPython(c, padded);
    ChainRoundTrip(c, padded);
    RustRefinesPython(c, Encrypted(c, padded));
  }

  /** And what it decrypts it encrypts again to the same bytes. */
  lemma PyChainRoundTripBack(c: Chain, ciphertext: bytes)
    requires PyDecryptBlocks(c, ciphertext).Ok?
    ensures PyEncryptBlocks(c, PyDecryptBlocks(c, ciphertext).value) == Ok(ciphertext)
  {
    hide CipherFits;
    RustRefinesPython(c, ciphertext);
    ChainRoundTrip(c, ciphertext);
    RustRefinesPython(c, Decrypted(c, ciphertext));
  }
}
