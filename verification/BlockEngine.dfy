/**
 * The block engines: ten rounds of substitution, diffusion, mixing and position permutation,
 * and the separate code that undoes them. V4 is the engine of both implementations; V3, which
 * swaps the two keyed shuffles for affine maps, is in the Python reference only.
 */
module BlockEngine {
  import opened AffineLayers
  import opened Bytes
  import opened Diffusion
  import opened Expand
  import opened Matrix
  import opened Permutation
  import opened Primitives
  import opened Shuffle
  import opened Substitution

  const ROUNDS: nat := 10

  function RoundLabel(round: nat): bytes
  {
    Ascii("round") + BE2(round)
  }

  function RoundSeed(P: Primitives, seed: bytes, round: nat): Digest
  {
    P.hmac(seed, RoundLabel(round))
  }

  function LeftMatrix(P: Primitives, seed: bytes): WordMat
  {
    MatrixFromSeed(P, P.hmac(seed, Ascii("left")))
  }

  function RightMatrix(P: Primitives, seed: bytes): WordMat
  {
    MatrixFromSeed(P, P.hmac(seed, Ascii("right")))
  }

  ghost function ByteTable(P: Primitives, seed: bytes): (p: seq<nat>)
    ensures |p| == 256 && IsPermutation(p)
  {
    KeyedPermutation(P, seed, Ascii("perm"), 256)
  }

  ghost function PositionTable(P: Primitives, seed: bytes): (p: seq<nat>)
    ensures |p| == 32 && IsPermutation(p)
  {
    KeyedPermutation(P, seed, Ascii("small-perm"), 32)
  }

  function SubstitutionMask(P: Primitives, seed: bytes): (m: bytes)
    ensures |m| == 32
  {
    Expansion(P, seed, Ascii("mask"), 32)
  }

  function DiffusionMask(P: Primitives, seed: bytes): (m: bytes)
    ensures |m| == 64
  {
    Expansion(P, seed, Ascii("diffuse"), 64)
  }

  // ----- The layers -----

  datatype Engine = V3 | V4

  ghost function ByteLayer(P: Primitives, engine: Engine, seed: Digest, block: bytes): (out: bytes)
    requires |block| == 32
    ensures |out| == 32
  {
    var mask := SubstitutionMask(P, seed);
    match engine
    case V3 => AffineSubstituted(block, seed, mask)
    case V4 => Substituted(block, ByteTable(P, seed), mask)
  }

  ghost function ByteLayerBack(P: Primitives, engine: Engine, seed: Digest, block: bytes): (out: bytes)
    requires |block| == 32
    ensures |out| == 32
  {
    var mask := SubstitutionMask(P, seed);
    match engine
    case V3 => AffineUnsubstituted(block, seed, mask)
    case V4 => Unsubstituted(block, ByteTable(P, seed), mask)
  }

  ghost function Positions(P: Primitives, engine: Engine, seed: Digest): (p: seq<nat>)
    ensures |p| == 32 && IsPermutation(p)
  {
    match engine
    case V3 => AffinePositionsPermute(seed); AffinePositions(seed)
    case V4 => PositionTable(P, seed)
  }

  lemma ByteLayerRoundTrip(P: Primitives, engine: Engine, seed: Digest, block: bytes)
    requires |block| == 32
    ensures ByteLayerBack(P, engine, seed, ByteLayer(P, engine, seed, block)) == block
    ensures ByteLayer(P, engine, seed, ByteLayerBack(P, engine, seed, block)) == block
  {
    hide ByteTable, SubstitutionMask, AffineSubstituted, AffineUnsubstituted, Substituted, Unsubstituted;
    match engine
    case V3 => AffineSubstitutionRoundTrip(block, seed, SubstitutionMask(P, seed));
    case V4 => SubstitutionRoundTrip(block, ByteTable(P, seed), SubstitutionMask(P, seed));
  }

  // ----- One round -----

  ghost function EncryptRound(P: Primitives, engine: Engine, seed: Digest, block: bytes): (out: bytes)
    requires |block| == 32
    ensures |out| == 32
  {
    var substituted := ByteLayer(P, engine, seed, block);
    var diffused := Diffused(substituted, DiffusionMask(P, seed));
    var mixed := Mix(LeftMatrix(P, seed), RightMatrix(P, seed), diffused);
    Permuted(mixed, Positions(P, engine, seed))
  }

  ghost function DecryptRound(P: Primitives, engine: Engine, seed: Digest, block: bytes): (out: bytes)
    requires |block| == 32
    ensures |out| == 32
  {
    var mixed := Unpermuted(block, Positions(P, engine, seed));
    var diffused := Unmix(LeftMatrix(P, seed), RightMatrix(P, seed), mixed);
    var substituted := Undiffused(diffused, DiffusionMask(P, seed));
    ByteLayerBack(P, engine, seed, substituted)
  }

  lemma SeededMatricesInvertible(P: Primitives, seed: bytes)
    ensures MatrixDet(LeftMatrix(P, seed)) % 2 == 1
    ensures MatrixDet(RightMatrix(P, seed)) % 2 == 1
  {
    hide MatrixDet, MatrixFromMaterial;
    SeededDetIsOdd(Expansion(P, P.hmac(seed, Ascii("left")), Ascii("matrix"), 64));
    SeededDetIsOdd(Expansion(P, P.hmac(seed, Ascii("right")), Ascii("matrix"), 64));
  }

  /** The four layers and their inverses compose to the identity, in both orders. */
  lemma RoundRoundTrip(P: Primitives, engine: Engine, seed: Digest, block: bytes)
    requires |block| == 32
    ensures DecryptRound(P, engine, seed, EncryptRound(P, engine, seed, block)) == block
    ensures EncryptRound(P, engine, seed, DecryptRound(P, engine, seed, block)) == block
  {
    SeededMatricesInvertible(P, seed);
    hide ByteLayer, ByteLayerBack, Diffused, Undiffused, Mix, Unmix, Permuted, Unpermuted;
    hide Positions, DiffusionMask, LeftMatrix, RightMatrix, MatrixDet;
    var positions, mask := Positions(P, engine, seed), DiffusionMask(P, seed);
    var left, right := LeftMatrix(P, seed), RightMatrix(P, seed);

    var s1 := ByteLayer(P, engine, seed, block);
    var s2 := Diffused(s1, mask);
    PositionRoundTrip(Mix(left, right, s2), positions);
    MixRoundTrip(left, right, s2);
    DiffusionRoundTrip(s1, mask);
    ByteLayerRoundTrip(P, engine, seed, block);

    var t1 := Unpermuted(block, positions);
    var t2 := Unmix(left, right, t1);
    ByteLayerRoundTrip(P, engine, seed, Undiffused(t2, mask));
    DiffusionRoundTrip(t2, mask);
    MixRoundTrip(left, right, t1);
    PositionRoundTrip(block, positions);
  }

  // ----- All rounds -----

  /** Rounds 0 to k-1. */
  ghost function EncryptRounds(P: Primitives, engine: Engine, seed: bytes, block: bytes, k: nat): (out: bytes)
    requires |block| == 32
    ensures |out| == 32
  {
    if k == 0 then block else
      EncryptRound(P, engine, RoundSeed(P, seed, k - 1), EncryptRounds(P, engine, seed, block, k - 1))
  }

  /** Rounds k-1 down to 0, undone. */
  ghost function DecryptRounds(P: Primitives, engine: Engine, seed: bytes, block: bytes, k: nat): (out: bytes)
    requires |block| == 32
    ensures |out| == 32
    decreases k
  {
    if k == 0 then block else
      DecryptRounds(P, engine, seed, DecryptRound(P, engine, RoundSeed(P, seed, k - 1), block), k - 1)
  }

  lemma {:induction false} RoundsRoundTrip(P: Primitives, engine: Engine, seed: bytes, block: bytes, k: nat)
    requires |block| == 32
    ensures DecryptRounds(P, engine, seed, EncryptRounds(P, engine, seed, block, k), k) == block
    ensures EncryptRounds(P, engine, seed, DecryptRounds(P, engine, seed, block, k), k) == block
    decreases k
  {
    hide EncryptRound, DecryptRound, RoundSeed;
    if k > 0 {
      var rseed := RoundSeed(P, seed, k - 1);
      RoundRoundTrip(P, engine, rseed, EncryptRounds(P, engine, seed, block, k - 1));
      RoundsRoundTrip(P, engine, seed, block, k - 1);
      RoundRoundTrip(P, engine, rseed, block);
      RoundsRoundTrip(P, engine, seed, DecryptRound(P, engine, rseed, block), k - 1);
    }
  }

  ghost function EncryptedBlock(P: Primitives, engine: Engine, block: bytes, seed: bytes): (out: bytes)
    requires |block| == 32
    ensures |out| == 32
  {
    EncryptRounds(P, engine, seed, block, ROUNDS)
  }

  ghost function DecryptedBlock(P: Primitives, engine: Engine, block: bytes, seed: bytes): (out: bytes)
    requires |block| == 32
    ensures |out| == 32
  {
    DecryptRounds(P, engine, seed, block, ROUNDS)
  }

  /** One-block encryption and decryption are mutual inverses, for both engines, every block and every seed. */
  lemma BlockRoundTrip(P: Primitives, engine: Engine, block: bytes, seed: bytes)
    requires |block| == 32
    ensures DecryptedBlock(P, engine, EncryptedBlock(P, engine, block, seed), seed) == block
    ensures EncryptedBlock(P, engine, DecryptedBlock(P, engine, block, seed), seed) == block
  {
    hide EncryptRounds, DecryptRounds;
    RoundsRoundTrip(P, engine, seed, block, ROUNDS);
  }

  // ----- The loops -----

  /** Both shuffles of a round end. */
  ghost predicate RoundLive(P: Primitives, seed: bytes)
  {
    Live(P, seed, Ascii("perm"), 256) && Live(P, seed, Ascii("small-perm"), 32)
  }

  /** All rounds under one block seed end. */
  ghost predicate SeedLive(P: Primitives, seed: bytes)
  {
    forall round: nat :: round < ROUNDS ==> RoundLive(P, RoundSeed(P, seed, round))
  }

  /** All rounds end, whatever the seed. */
  ghost predicate EngineLive(P: Primitives)
  {
    forall seed: Digest :: RoundLive(P, seed)
  }

  lemma EngineLiveSeeds(P: Primitives, seed: bytes)
    requires EngineLive(P)
    ensures SeedLive(P, seed)
  {
    hide RoundLive;
  }

  method EncryptOneRound(P: Primitives, seed: Digest, block: bytes) returns (out: bytes)
    requires |block| == 32 && RoundLive(P, seed)
    ensures out == EncryptRound(P, V4, seed, block)
  {
    hide KeyedPermutation, Live, Expansion, MatrixFromMaterial, Mix, MatrixMul, Diffused, Substituted, Permuted;
    var perm := ShuffleFromSeed(P, seed, Ascii("perm"), 256);
    var mask := HkdfExpandLike(P, seed, Ascii("mask"), 32);
    var substituted := SubstituteBytes(block, perm, mask);
    var mask2 := HkdfExpandLike(P, seed, Ascii("diffuse"), 64);
    var state := new byte[32](i requires 0 <= i < 32 => substituted[i]);
    assert state[..] == substituted;
    DiffuseBytes(state, mask2);
    var mixed := Mix(LeftMatrix(P, seed), RightMatrix(P, seed), state[..]);
    var positions := ShuffleFromSeed(P, seed, Ascii("small-perm"), 32);
    out := ApplyPositionPermutation(mixed, positions);
  }

  method DecryptOneRound(P: Primitives, seed: Digest, block: bytes) returns (out: bytes)
    requires |block| == 32 && RoundLive(P, seed)
    ensures out == DecryptRound(P, V4, seed, block)
  {
    hide KeyedPermutation, Live, Expansion, MatrixFromMaterial, MatrixMul, MatrixInv;
    hide Undiffused, Unsubstituted, Unpermuted;
    var positions := ShuffleFromSeed(P, seed, Ascii("small-perm"), 32);
    var mixed := InvertPositionPermutation(block, positions);
    var leftInv := InvertMatrix(LeftMatrix(P, seed));
    var rightInv := InvertMatrix(RightMatrix(P, seed));
    var diffused := BlockFromWords(MatrixMul(leftInv, MatrixMul(WordsFromBlock(mixed), rightInv)));
    var mask2 := HkdfExpandLike(P, seed, Ascii("diffuse"), 64);
    var state := new byte[32](i requires 0 <= i < 32 => diffused[i]);
    assert state[..] == diffused;
    UndiffuseBytes(state, mask2);
    var perm := ShuffleFromSeed(P, seed, Ascii("perm"), 256);
    var mask := HkdfExpandLike(P, seed, Ascii("mask"), 32);
    out := UnsubstituteBytes(state[..], perm, mask);
  }

  method EncryptOneBlock(P: Primitives, block: bytes, seed: bytes) returns (state: bytes)
    requires |block| == 32 && SeedLive(P, seed)
    ensures state == EncryptedBlock(P, V4, block, seed)
  {
    hide EncryptRound, RoundLive, RoundSeed;
    state := block;
    for round := 0 to ROUNDS
      invariant |state| == 32 && state == EncryptRounds(P, V4, seed, block, round)
    {
      state := EncryptOneRound(P, RoundSeed(P, seed, round), state);
    }
  }

  method DecryptOneBlock(P: Primitives, block: bytes, seed: bytes) returns (state: bytes)
    requires |block| == 32 && SeedLive(P, seed)
    ensures state == DecryptedBlock(P, V4, block, seed)
  {
    hide DecryptRound, RoundLive, RoundSeed;
    state := block;
    for round := ROUNDS downto 0
      invariant |state| == 32
      invariant DecryptRounds(P, V4, seed, state, round) == DecryptRounds(P, V4, seed, block, ROUNDS)
    {
      state := DecryptOneRound(P, RoundSeed(P, seed, round), state);
    }
  }
}
