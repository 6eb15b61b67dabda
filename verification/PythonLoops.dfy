/** The Python reference's loops, as it runs them, against the functions of `PythonEngine`. */
module PythonLoops {
  import opened BlockEngine
  import opened Bytes
  import opened Chaining
  import opened Primitives
  import opened PythonEngine
  import opened Shuffle
  import opened Stream
  import opened Wrappers
  import AffineLayers
  import Expand
  import ExtendedGcd
  import Matrix
  import Permutation
  import Substitution

  // ----- Shuffles -----

  /** `take_u64` of the reference: `len(stream).to_bytes(4, "big")` raises once the stream is 2^32 bytes long. */
  method PyTakeU64(draws: DrawStream) returns (r: Result<u64, PyError>)
    requires draws.Valid() && draws.Taken() <= STREAM_WORDS
    modifies draws
    ensures draws.Valid() && draws.Taken() <= STREAM_WORDS
    ensures old(draws.Taken()) >= STREAM_WORDS ==> r == Err(OverflowError)
    ensures old(draws.Taken()) < STREAM_WORDS ==>
      r == Ok(draws.source.At(old(draws.Taken()))) && draws.Taken() == old(draws.Taken()) + 1
  {
    hide Word, Buffer;
    CursorStep(draws.cursor, |draws.stream|);
    BufferAtLimit(draws.cursor, |draws.stream|);
    if draws.cursor + 8 > |draws.stream| && |draws.stream| >= TWO32 {
      return Err(OverflowError);
    }
    var word := draws.TakeU64();
    r := Ok(word);
  }

  /** The buffer is 2^32 bytes long and used up exactly when 2^29 words have been taken. */
  lemma BufferAtLimit(cursor: nat, length: nat)
    requires cursor % 8 == 0 && length % 64 == 0 && cursor <= length < cursor + 64
    requires cursor / 8 <= STREAM_WORDS
    ensures cursor + 8 > length && length >= TWO32 <==> cursor / 8 == STREAM_WORDS
  {
    CursorStep(cursor, length);
  }

  method PyDrawBelow(draws: DrawStream, modulus: nat) returns (r: Result<nat, PyError>)
    requires draws.Valid() && draws.Taken() <= STREAM_WORDS && modulus > 0
    modifies draws
    ensures draws.Valid() && draws.Taken() <= STREAM_WORDS
    ensures var s := draws.source; var d := PyDraw(s.P, s.seed, s.prefix, old(draws.Taken()), modulus);
      match d
      case Err(e) => r == Err(e)
      case Ok(n) => draws.Taken() == n + 1 && r == Ok(s.At(n) % modulus)
  {
    hide Word;
    var limit := Limit(modulus);
    ghost var s, from := draws.source, draws.Taken();
    ghost var d := PyDraw(s.P, s.seed, s.prefix, from, modulus);
    var word := PyTakeU64(draws);
    while word.Ok? && word.value >= limit
      invariant draws.Valid() && draws.Taken() <= STREAM_WORDS
      invariant word.Err? ==> word == Err(OverflowError) && d == Err(OverflowError)
      invariant word.Ok? ==> 0 < draws.Taken() && word.value == s.At(draws.Taken() - 1)
      invariant word.Ok? ==> d == PyDraw(s.P, s.seed, s.prefix, draws.Taken() - 1, modulus)
      decreases word.Ok?, STREAM_WORDS - draws.Taken()
    {
      word := PyTakeU64(draws);
    }
    if word.Err? {
      return Err(word.error);
    }
    r := Ok(word.value % modulus);
  }

  /** What remains of the shuffle once some choices are made. */
  ghost function ShuffleRest(v: seq<nat>, rest: Result<seq<nat>, PyError>): Result<seq<nat>, PyError>
    requires rest.Ok? ==> ValidChoices(rest.value) && |rest.value| <= |v|
  {
    match rest
    case Ok(c) => Ok(ShuffleDown(v, c))
    case Err(e) => Err(e)
  }

  lemma PyDrawOneChoice(P: Primitives, seed: bytes, prefix: bytes, from: nat, k: nat, v: seq<nat>)
    requires 1 < k <= |v|
    ensures var d := PyDraw(P, seed, prefix, from, k);
      ShuffleRest(v, PyChoices(P, seed, prefix, from, k)) ==
        match d
        case Err(e) => Err(e)
        case Ok(n) =>
          ShuffleRest(Swap(v, k - 1, Word(P, seed, prefix, n) % k), PyChoices(P, seed, prefix, n + 1, k - 1))
  {
    hide Word, PyDraw;
    var d := PyDraw(P, seed, prefix, from, k);
    if d.Ok? {
      var c := PyChoices(P, seed, prefix, d.value + 1, k - 1);
      if c.Ok? {
        assert (c.value + [Word(P, seed, prefix, d.value) % k])[..k - 1] == c.value;
      }
    }
  }

  /** `_permutation_from_seed` and `_small_permutation`: this loop ends for every HMAC. */
  method PyShuffleFromSeed(P: Primitives, seed: bytes, prefix: bytes, size: nat) returns (r: Result<seq<nat>, PyError>)
    ensures r == PyShuffle(P, seed, prefix, size)
  {
    hide Word, ShuffleDown, PyChoices, PyDraw, IsPermutation, ValidChoices, Buffer, Limit, Swap;
    var values := new nat[size](i => i);
    assert values[..] == Identity(size);
    var draws := new DrawStream(Source(P, seed, prefix));
    assert PyShuffle(P, seed, prefix, size) == ShuffleRest(values[..], PyChoices(P, seed, prefix, 0, size));
    var i := size;
    while i > 1
      invariant i <= size && draws.Valid() && draws.Taken() <= STREAM_WORDS && draws.source == Source(P, seed, prefix)
      invariant PyShuffle(P, seed, prefix, size)
        == ShuffleRest(values[..], PyChoices(P, seed, prefix, draws.Taken(), i))
    {
      i := i - 1;
      ghost var from, before := draws.Taken(), values[..];
      PyDrawOneChoice(P, seed, prefix, from, i + 1, before);
      var choice := PyDrawBelow(draws, i + 1);
      if choice.Err? {
        return Err(choice.error);
      }
      var j := choice.value;
      values[i], values[j] := values[j], values[i];
      assert values[..] == Swap(before, i, j);
    }
    NoMoreChoices(P, seed, prefix, draws.Taken(), i);
    LastChoice(values[..], seq(i, _ => 0));
    r := Ok(values[..]);
  }

  lemma NoMoreChoices(P: Primitives, seed: bytes, prefix: bytes, from: nat, k: nat)
    requires k <= 1
    ensures PyChoices(P, seed, prefix, from, k) == Ok(seq(k, _ => 0))
  {
  }

  // ----- Diffusion in place -----

  lemma {:induction false} PyForwardAt(s: bytes, mask: bytes, i: nat)
    requires i < |s| <= |mask|
    ensures PyForward(s, mask)[i] == if i == 0 then s[0] else AddByte(s[i] as int + PyForward(s, mask)[i - 1], mask[i])
  {
    if 1 < |s| && i < |s| - 1 {
      PyForwardAt(s[..|s| - 1], mask, i);
    }
  }

  lemma {:induction false} PyBackwardAt(s: bytes, mask: bytes, i: nat)
    requires i < |s| <= |mask|
    ensures PyBackward(s, mask)[i] ==
      if i == |s| - 1 then s[i] else AddByte(s[i] as int + PyBackward(s, mask)[i + 1], mask[i])
  {
    if 0 < i {
      PyBackwardAt(s[1..], mask[1..], i - 1);
    }
  }

  method PyDiffuseBytes(state: array<byte>, mask: bytes)
    requires state.Length > 0 && |mask| == 2 * state.Length
    modifies state
    ensures state[..] == PyDiffused(old(state[..]), mask)
  {
    hide AddByte, PyForward, PyBackward;
    var n := state.Length;
    ghost var s := state[..];
    ghost var t := PyForward(s, mask);
    PyForwardAt(s, mask, 0);
    for i := 1 to n
      invariant forall k :: 0 <= k < i ==> state[k] == t[k]
      invariant forall k :: i <= k < n ==> state[k] == s[k]
    {
      PyForwardAt(s, mask, i);
      state[i] := AddByte(state[i] as int + state[i - 1], mask[i]);
    }
    assert state[..] == t;
    ghost var u := PyBackward(t, mask[n..]);
    PyBackwardAt(t, mask[n..], n - 1);
    for i := n - 1 downto 0
      invariant forall k :: i <= k < n ==> state[k] == u[k]
      invariant forall k :: 0 <= k < i ==> state[k] == t[k]
    {
      PyBackwardAt(t, mask[n..], i);
      state[i] := AddByte(state[i] as int + state[i + 1], mask[n + i]);
    }
    assert state[..] == u;
  }

  lemma PyUnforwardAt(t: bytes, mask: bytes, i: nat)
    requires i < |t| <= |mask|
    ensures PyUnforward(t, mask)[i] == if i == 0 then t[0] else SubByte(t[i] as int - t[i - 1], mask[i])
  {
    hide SubByte;
  }

  lemma PyUnbackwardAt(t: bytes, mask: bytes, i: nat)
    requires i < |t| <= |mask|
    ensures PyUnbackward(t, mask)[i] == if i == |t| - 1 then t[i] else SubByte(t[i] as int - t[i + 1], mask[i])
  {
    hide SubByte;
  }

  method PyUndiffuseBytes(state: array<byte>, mask: bytes)
    requires state.Length > 0 && |mask| == 2 * state.Length
    modifies state
    ensures state[..] == PyUndiffused(old(state[..]), mask)
  {
    hide SubByte, PyUnforward, PyUnbackward;
    var n := state.Length;
    ghost var u := state[..];
    ghost var t := PyUnbackward(u, mask[n..]);
    PyUnbackwardAt(u, mask[n..], n - 1);
    for i := 0 to n - 1
      invariant forall k :: 0 <= k < i ==> state[k] == t[k]
      invariant forall k :: i <= k < n ==> state[k] == u[k]
    {
      PyUnbackwardAt(u, mask[n..], i);
      state[i] := SubByte(state[i] as int - state[i + 1], mask[n + i]);
    }
    assert state[..] == t;
    ghost var s := PyUnforward(t, mask);
    PyUnforwardAt(t, mask, 0);
    for i := n downto 1
      invariant forall k :: i <= k < n ==> state[k] == s[k]
      invariant forall k :: 0 <= k < i ==> state[k] == t[k]
    {
      PyUnforwardAt(t, mask, i);
      state[i] := SubByte(state[i] as int - state[i - 1], mask[i]);
    }
    assert state[..] == s;
  }

  // ----- Rounds and blocks -----

  /** `matrix_inv`, which inverts the determinant by the extended Euclid loop. */
  method PyInvertMatrix(matrix: Mat) returns (r: Result<Mat, PyError>)
    ensures r == PyMatrixInv(matrix)
  {
    hide ExtendedGcd.ModInv, PyDet;
    var m := Matrix.Reduce(matrix);
    var v := ExtendedGcd.ComputeModInv(PyDet(m), TWO64);
    if v.Err? {
      return Err(v.error);
    }
    var w := v.value;
    r := Ok(Matrix.Mat((m.d * w) % TWO64, (-m.b * w) % TWO64, (-m.c * w) % TWO64, (m.a * w) % TWO64));
  }

  /** The position table of a round: drawn by version 4, computed by version 3. */
  method PyPositionTable(P: Primitives, engine: Engine, seed: Digest) returns (r: Result<seq<nat>, PyError>)
    ensures r == PyPositions(P, engine, seed)
  {
    match engine
    case V3 =>
      r := Ok(AffineLayers.AffinePositions(seed));
    case V4 =>
      r := PyShuffleFromSeed(P, seed, Ascii("small-perm"), 32);
  }

  method PySubstitute(P: Primitives, engine: Engine, seed: Digest, block: bytes) returns (r: Result<bytes, PyError>)
    requires |block| == 32
    ensures r == PyByteLayer(P, engine, seed, block)
  {
    hide PyShuffle, AffineLayers.AffineSubstituted, Substitution.Substituted, Expand.Expansion;
    var mask := Expand.HkdfExpandLike(P, seed, Ascii("mask"), 32);
    match engine {
      case V3 =>
        var out := AffineLayers.AffineSubstituteBytes(block, seed, mask);
        r := Ok(out);
      case V4 =>
        var perm := PyShuffleFromSeed(P, seed, Ascii("perm"), 256);
        if perm.Err? {
          return Err(perm.error);
        }
        var out := Substitution.SubstituteBytes(block, perm.value, mask);
        r := Ok(out);
    }
  }

  method PyUnsubstitute(P: Primitives, engine: Engine, seed: Digest, block: bytes) returns (r: Result<bytes, PyError>)
    requires |block| == 32
    ensures r == PyByteLayerBack(P, engine, seed, block)
  {
    hide PyShuffle, AffineLayers.AffineUnsubstituted, Substitution.Unsubstituted, Expand.Expansion;
    var mask := Expand.HkdfExpandLike(P, seed, Ascii("mask"), 32);
    match engine {
      case V3 =>
        var out := AffineLayers.AffineUnsubstituteBytes(block, seed, mask);
        r := Ok(out);
      case V4 =>
        var perm := PyShuffleFromSeed(P, seed, Ascii("perm"), 256);
        if perm.Err? {
          return Err(perm.error);
        }
        var out := Substitution.UnsubstituteBytes(block, perm.value, mask);
        r := Ok(out);
    }
  }

  method PyEncryptOneRound(P: Primitives, engine: Engine, seed: Digest, block: bytes)
    returns (r: Result<bytes, PyError>)
    requires |block| == 32
    ensures r == PyEncryptRound(P, engine, seed, block)
  {
    hide PyByteLayer, PyPositions, PyDiffused, PyMixed, Matrix.BlockFromWords, Matrix.Reduce, Expand.Expansion;
    hide Permutation.Permuted;
    var substituted := PySubstitute(P, engine, seed, block);
    if substituted.Err? {
      return substituted;
    }
    var mask := Expand.HkdfExpandLike(P, seed, Ascii("diffuse"), 64);
    var state := new byte[32](i requires 0 <= i < 32 => substituted.value[i]);
    assert state[..] == substituted.value;
    PyDiffuseBytes(state, mask);
    var mixed := Matrix.BlockFromWords(Matrix.Reduce(PyMixed(P, seed, state[..])));
    var positions := PyPositionTable(P, engine, seed);
    if positions.Err? {
      return Err(positions.error);
    }
    var out := Permutation.ApplyPositionPermutation(mixed, positions.value);
    r := Ok(out);
  }

  method PyDecryptOneRound(P: Primitives, engine: Engine, seed: Digest, block: bytes)
    returns (r: Result<bytes, PyError>)
    requires |block| == 32
    ensures r == PyDecryptRound(P, engine, seed, block)
  {
    hide PyByteLayerBack, PyPositions, PyUndiffused, PyMatrixInv, PyMatrixMul, PyMatrixFromMaterial;
    hide Matrix.BlockFromWords, Matrix.WordsFromBlock, Matrix.Reduce, Expand.Expansion, Permutation.Unpermuted;
    var positions := PyPositionTable(P, engine, seed);
    if positions.Err? {
      return Err(positions.error);
    }
    var mixed := Permutation.InvertPositionPermutation(block, positions.value);
    var leftInv := PyInvertMatrix(PyMatrixFromSeed(P, P.hmac(seed, Ascii("left"))));
    if leftInv.Err? {
      return Err(leftInv.error);
    }
    var rightInv := PyInvertMatrix(PyMatrixFromSeed(P, P.hmac(seed, Ascii("right"))));
    if rightInv.Err? {
      return Err(rightInv.error);
    }
    var unmixed := PyMatrixMul(leftInv.value, PyMatrixMul(Matrix.WordsFromBlock(mixed), rightInv.value));
    var diffused := Matrix.BlockFromWords(Matrix.Reduce(unmixed));
    var mask := Expand.HkdfExpandLike(P, seed, Ascii("diffuse"), 64);
    var state := new byte[32](i requires 0 <= i < 32 => diffused[i]);
    assert state[..] == diffused;
    PyUndiffuseBytes(state, mask);
    r := PyUnsubstitute(P, engine, seed, state[..]);
  }

  ghost function Then(prefix: bytes, rest: Result<bytes, PyError>): Result<bytes, PyError>
  {
    match rest
    case Ok(b) => Ok(prefix + b)
    case Err(e) => Err(e)
  }

  method PyEncryptOneBlock(P: Primitives, engine: Engine, block: bytes, seed: bytes) returns (r: Result<bytes, PyError>)
    requires |block| == 32
    ensures r == PyEncryptRounds(P, engine, seed, block, ROUNDS)
  {
    hide PyEncryptRound;
    var state := block;
    for round := 0 to ROUNDS
      invariant |state| == 32 && PyEncryptRounds(P, engine, seed, block, round) == Ok(state)
    {
      var next := PyEncryptOneRound(P, engine, RoundSeed(P, seed, round), state);
      if next.Err? {
        ErrorStays(P, engine, seed, block, round + 1, ROUNDS);
        return next;
      }
      state := next.value;
    }
    r := Ok(state);
  }

  lemma {:induction false} ErrorStays(P: Primitives, engine: Engine, seed: bytes, block: bytes, j: nat, k: nat)
    requires |block| == 32 && j <= k && PyEncryptRounds(P, engine, seed, block, j).Err?
    ensures PyEncryptRounds(P, engine, seed, block, k) == PyEncryptRounds(P, engine, seed, block, j)
  {
    hide PyEncryptRound;
    if j < k {
      ErrorStays(P, engine, seed, block, j, k - 1);
    }
  }

  method PyDecryptOneBlock(P: Primitives, engine: Engine, block: bytes, seed: bytes) returns (r: Result<bytes, PyError>)
    requires |block| == 32
    ensures r == PyDecryptRounds(P, engine, seed, block, ROUNDS)
  {
    hide PyDecryptRound;
    var state := block;
    for round := ROUNDS downto 0
      invariant |state| == 32
      invariant PyDecryptRounds(P, engine, seed, state, round) == PyDecryptRounds(P, engine, seed, block, ROUNDS)
    {
      var next := PyDecryptOneRound(P, engine, RoundSeed(P, seed, round), state);
      if next.Err? {
        return next;
      }
      state := next.value;
    }
    r := Ok(state);
  }

  method PyEncryptBlocksLoop(c: Chain, padded: bytes) returns (r: Result<bytes, PyError>)
    ensures r == PyEncryptBlocks(c, padded)
  {
    hide PyEncryptRounds, BlockSeed;
    if |padded| % 32 != 0 {
      return Err(ValueError);
    }
    var ciphertext, feedback := [], c.nonce;
    ThenNone(PyEncryptFrom(c, 0, feedback, padded));
    assert padded[0..] == padded;
    for index := 0 to |padded| / 32
      invariant Then(ciphertext, PyEncryptFrom(c, index, feedback, padded[32 * index..])) == PyEncryptBlocks(c, padded)
    {
      ghost var rest := padded[32 * index..];
      var block := padded[32 * index..32 * index + 32];
      assert rest[..32] == block && rest[32..] == padded[32 * (index + 1)..];
      var encrypted := PyEncryptOneBlock(c.P, c.engine, block, BlockSeed(c.P, c.key, c.nonce, index, feedback));
      if encrypted.Err? {
        return encrypted;
      }
      ThenAppend(ciphertext, encrypted.value, PyEncryptFrom(c, index + 1, encrypted.value, rest[32..]));
      ciphertext := ciphertext + encrypted.value;
      feedback := encrypted.value;
    }
    assert padded[32 * (|padded| / 32)..] == [] && ciphertext + [] == ciphertext;
    r := Ok(ciphertext);
  }

  method PyDecryptBlocksLoop(c: Chain, ciphertext: bytes) returns (r: Result<bytes, PyError>)
    ensures r == PyDecryptBlocks(c, ciphertext)
  {
    hide PyDecryptRounds, BlockSeed;
    if |ciphertext| % 32 != 0 {
      return Err(FormatError);
    }
    var padded, feedback := [], c.nonce;
    ThenNone(PyDecryptFrom(c, 0, feedback, ciphertext));
    assert ciphertext[0..] == ciphertext;
    for index := 0 to |ciphertext| / 32
      invariant PyDecryptBlocks(c, ciphertext)
        == Then(padded, PyDecryptFrom(c, index, feedback, ciphertext[32 * index..]))
    {
      ghost var rest := ciphertext[32 * index..];
      var block := ciphertext[32 * index..32 * index + 32];
      assert rest[..32] == block && rest[32..] == ciphertext[32 * (index + 1)..];
      var decrypted := PyDecryptOneBlock(c.P, c.engine, block, BlockSeed(c.P, c.key, c.nonce, index, feedback));
      if decrypted.Err? {
        return decrypted;
      }
      ThenAppend(padded, decrypted.value, PyDecryptFrom(c, index + 1, block, rest[32..]));
      padded := padded + decrypted.value;
      feedback := block;
    }
    assert ciphertext[32 * (|ciphertext| / 32)..] == [] && padded + [] == padded;
    r := Ok(padded);
  }

  lemma ThenNone(r: Result<bytes, PyError>)
    ensures Then([], r) == r
  {
    assert r.Ok? ==> [] + r.value == r.value;
  }

  lemma ThenAppend(a: bytes, b: bytes, r: Result<bytes, PyError>)
    ensures Then(a, Then(b, r)) == Then(a + b, r)
  {
    assert r.Ok? ==> a + (b + r.value) == (a + b) + r.value;
  }
}
