/**
 * The two implementations side by side: wherever the reference returns bytes, the Rust loops end
 * with the same bytes, and the choice between them that the Python package makes is invisible.
 */
module Agreement {
  import opened BlockEngine
  import opened Bytes
  import opened Chaining
  import opened Primitives
  import opened PythonEngine
  import opened PythonLoops
  import opened Shuffle
  import opened Stream
  import opened Wrappers

  // ----- Draws that fit in one lap end the Rust loops -----

  lemma {:induction false} FittingDrawsAccept(w: Source, from: nat, k: nat, m: nat)
    requires DrawsFit(w, from, k) && 2 <= m <= k
    ensures AcceptsFrom(w, 0, m)
    decreases k
  {
    hide Word, Limit, DrawIndex;
    if m == k {
      var n: nat :| from <= n && w.At(n) < Limit(k);
    } else {
      FittingDrawsAccept(w, DrawIndex(w, from, k) + 1, k - 1, m);
    }
  }

  lemma FittingShuffleIsLive(P: Primitives, seed: bytes, prefix: bytes, size: nat)
    requires DrawsFit(Source(P, seed, prefix), 0, size)
    ensures Live(P, seed, prefix, size)
  {
    hide AcceptsFrom, DrawsFit;
    forall m: nat | 2 <= m <= size ensures AcceptsFrom(Source(P, seed, prefix), 0, m) {
      FittingDrawsAccept(Source(P, seed, prefix), 0, size, m);
    }
  }

  lemma {:induction false} FittingRoundsAreLive(P: Primitives, seed: bytes, k: nat)
    requires RoundsFit(P, V4, seed, k)
    ensures forall round: nat :: round < k ==> RoundLive(P, RoundSeed(P, seed, round))
  {
    hide Live, DrawsFit, RoundSeed;
    if k > 0 {
      var rseed := RoundSeed(P, seed, k - 1);
      FittingShuffleIsLive(P, rseed, Ascii("perm"), 256);
      FittingShuffleIsLive(P, rseed, Ascii("small-perm"), 32);
      hide RoundLive;
      FittingRoundsAreLive(P, seed, k - 1);
    }
  }

  lemma {:induction false} FittingChainIsLive(c: Chain, index: nat, feedback: bytes, data: bytes)
    requires |data| % 32 == 0 && c.engine == V4 && CipherFits(c, index, feedback, data)
    ensures ChainLive(c, index, feedback, data)
    decreases |data|
  {
    hide RoundsFit, RoundLive, BlockSeed, RoundSeed;
    if data != [] {
      AlignedRest(data);
      FittingRoundsAreLive(c.P, BlockSeed(c.P, c.key, c.nonce, index, feedback), ROUNDS);
      FittingChainIsLive(c, index + 1, data[..32], data[32..]);
    }
  }

  /** Where the reference returns bytes, the Rust loops end, and on the same bytes. */
  lemma RustEndsWherePythonReturns(c: Chain, data: bytes)
    requires c.engine == V4
    ensures PyEncryptBlocks(c, data).Ok? ==>
      && |data| % 32 == 0 && ChainLive(c, 0, c.nonce, Encrypted(c, data))
      && PyEncryptBlocks(c, data).value == Encrypted(c, data)
    ensures PyDecryptBlocks(c, data).Ok? ==>
      && |data| % 32 == 0 && ChainLive(c, 0, c.nonce, data)
      && PyDecryptBlocks(c, data).value == Decrypted(c, data)
  {
    hide CipherFits, ChainLive, Encrypted, Decrypted, PyEncryptFrom, PyDecryptFrom;
    if |data| % 32 == 0 {
      RustRefinesPython(c, data);
      if PyEncryptBlocks(c, data).Ok? {
        FittingChainIsLive(c, 0, c.nonce, Encrypted(c, data));
      }
      if PyDecryptBlocks(c, data).Ok? {
        FittingChainIsLive(c, 0, c.nonce, data);
      }
    }
  }

  /** Both loops on one input: unless the reference's streams overflow, they agree or both refuse. */
  method EncryptWithBoth(P: Primitives, padded: bytes, key: bytes, nonce: bytes)
    returns (rust: Result<bytes, KrcmError>, python: Result<bytes, PyError>)
    requires PyEncryptBlocks(Chain(P, V4, key, nonce), padded) != Err(OverflowError)
    ensures python.Ok? ==> rust == Ok(python.value)
    ensures python.Err? ==> rust == Err(InvalidParameter) && python == Err(ValueError) && |padded| % 32 != 0
  {
    hide ChainLive, CipherFits, Encrypted, PyEncryptFrom;
    var c := Chain(P, V4, key, nonce);
    if |padded| % 32 == 0 {
      RustRefinesPython(c, padded);
    }
    RustEndsWherePythonReturns(c, padded);
    rust := EncryptBlocks(P, padded, key, nonce);
    python := PyEncryptBlocksLoop(c, padded);
  }

  method DecryptWithBoth(P: Primitives, ciphertext: bytes, key: bytes, nonce: bytes)
    returns (rust: Result<bytes, KrcmError>, python: Result<bytes, PyError>)
    requires PyDecryptBlocks(Chain(P, V4, key, nonce), ciphertext) != Err(OverflowError)
    ensures python.Ok? ==> rust == Ok(python.value)
    ensures python.Err? ==> rust == Err(Format) && python == Err(FormatError) && |ciphertext| % 32 != 0
  {
    hide ChainLive, CipherFits, Decrypted, PyDecryptFrom;
    var c := Chain(P, V4, key, nonce);
    if |ciphertext| % 32 == 0 {
      RustRefinesPython(c, ciphertext);
    }
    RustEndsWherePythonReturns(c, ciphertext);
    rust := DecryptBlocks(P, ciphertext, key, nonce);
    python := PyDecryptBlocksLoop(c, ciphertext);
  }

  // ----- The package's choice: the extension when it is loaded, and version 4 only -----

  /** Version 3 is the affine engine; every other version runs the shuffling one. */
  function EngineOf(version: int): Engine
  {
    if version == 3 then V3 else V4
  }

  function ChainOf(P: Primitives, version: int, key: bytes, nonce: bytes): Chain
  {
    Chain(P, EngineOf(version), key, nonce)
  }

  /** What the binding accepts besides the engine's own guard; every refusal is a ValueError. */
  predicate BindingAccepts(key: bytes, nonce: bytes)
  {
    |nonce| == 16 && |key| == 32
  }

  ghost function EncryptEntry(P: Primitives, version: int, key: bytes, nonce: bytes, padded: bytes, native: bool)
    : Result<bytes, PyError>
  {
    var c := ChainOf(P, version, key, nonce);
    if !native || version != 4 then PyEncryptBlocks(c, padded)
    else if !BindingAccepts(key, nonce) || |padded| % 32 != 0 then Err(ValueError)
    else Ok(Encrypted(c, padded))
  }

  ghost function DecryptEntry(P: Primitives, version: int, key: bytes, nonce: bytes, ciphertext: bytes, native: bool)
    : Result<bytes, PyError>
  {
    var c := ChainOf(P, version, key, nonce);
    if !native || version != 4 then PyDecryptBlocks(c, ciphertext)
    else if !BindingAccepts(key, nonce) || |ciphertext| % 32 != 0 then Err(ValueError)
    else Ok(Decrypted(c, ciphertext))
  }

  /** `_encrypt_blocks`; `native` says whether the extension is loaded. */
  method EncryptBlocksEntry(P: Primitives, version: int, key: bytes, nonce: bytes, padded: bytes, native: bool)
    returns (r: Result<bytes, PyError>)
    requires native && version == 4 && BindingAccepts(key, nonce) && |padded| % 32 == 0 ==>
      ChainLive(Chain(P, V4, key, nonce), 0, nonce, Encrypted(Chain(P, V4, key, nonce), padded))
    ensures r == EncryptEntry(P, version, key, nonce, padded, native)
  {
    hide ChainLive, Encrypted, PyEncryptFrom;
    if native && version == 4 {
      if |nonce| != 16 || |key| != 32 {
        return Err(ValueError);
      }
      var out := EncryptBlocks(P, padded, key, nonce);
      r := if out.Ok? then Ok(out.value) else Err(ValueError);
    } else {
      r := PyEncryptBlocksLoop(ChainOf(P, version, key, nonce), padded);
    }
  }

  /** `_decrypt_blocks`, likewise. */
  method DecryptBlocksEntry(P: Primitives, version: int, key: bytes, nonce: bytes, ciphertext: bytes, native: bool)
    returns (r: Result<bytes, PyError>)
    requires native && version == 4 && BindingAccepts(key, nonce) && |ciphertext| % 32 == 0 ==>
      ChainLive(Chain(P, V4, key, nonce), 0, nonce, ciphertext)
    ensures r == DecryptEntry(P, version, key, nonce, ciphertext, native)
  {
    hide ChainLive, Decrypted, PyDecryptFrom;
    if native && version == 4 {
      if |nonce| != 16 || |key| != 32 {
        return Err(ValueError);
      }
      var out := DecryptBlocks(P, ciphertext, key, nonce);
      r := if out.Ok? then Ok(out.value) else Err(ValueError);
    } else {
      r := PyDecryptBlocksLoop(ChainOf(P, version, key, nonce), ciphertext);
    }
  }

  /**
   * Loading the extension changes no result of any version but 4, and there only where the
   * reference's streams overflow, where the binding wants other lengths, and in which exception an
   * unaligned ciphertext raises.
   */
  lemma ExtensionIsInvisible(P: Primitives, version: int, key: bytes, nonce: bytes, data: bytes)
    ensures var c := ChainOf(P, version, key, nonce);
      EncryptEntry(P, version, key, nonce, data, true) == EncryptEntry(P, version, key, nonce, data, false) <==>
        || version != 4 || |data| % 32 != 0
        || (BindingAccepts(key, nonce) && CipherFits(c, 0, nonce, Encrypted(c, data)))
    ensures var c := ChainOf(P, version, key, nonce);
      DecryptEntry(P, version, key, nonce, data, true) == DecryptEntry(P, version, key, nonce, data, false) <==>
        version != 4 || (|data| % 32 == 0 && BindingAccepts(key, nonce) && CipherFits(c, 0, nonce, data))
  {
    hide CipherFits, Encrypted, Decrypted, PyEncryptFrom, PyDecryptFrom;
    if |data| % 32 == 0 {
      RustRefinesPython(ChainOf(P, version, key, nonce), data);
    }
  }

  /** No OverflowError comes up along a ciphertext: the extension does the work, or the draws fit. */
  ghost predicate EntryRuns(P: Primitives, version: int, key: bytes, nonce: bytes, ciphertext: bytes, native: bool)
    requires |ciphertext| % 32 == 0
  {
    (native && version == 4) || CipherFits(ChainOf(P, version, key, nonce), 0, nonce, ciphertext)
  }

  /** With well-sized key and nonce, both entry points give the engine's bytes or OverflowError. */
  lemma EntryIsEngine(P: Primitives, version: int, key: bytes, nonce: bytes, data: bytes, native: bool)
    requires BindingAccepts(key, nonce) && |data| % 32 == 0
    ensures var c := ChainOf(P, version, key, nonce); var out := Encrypted(c, data);
      EncryptEntry(P, version, key, nonce, data, native)
        == Guarded(EntryRuns(P, version, key, nonce, out, native), out)
    ensures DecryptEntry(P, version, key, nonce, data, native)
      == Guarded(EntryRuns(P, version, key, nonce, data, native), Decrypted(ChainOf(P, version, key, nonce), data))
  {
    hide CipherFits, Encrypted, Decrypted, PyEncryptFrom, PyDecryptFrom;
    RustRefinesPython(ChainOf(P, version, key, nonce), data);
  }

  /** The affine engine draws nothing, so version 3 never raises OverflowError. */
  lemma {:induction false} AffineAlwaysFits(c: Chain, index: nat, feedback: bytes, data: bytes)
    requires c.engine == V3 && |data| % 32 == 0
    ensures CipherFits(c, index, feedback, data)
    decreases |data|
  {
    hide RoundsFit, BlockSeed;
    if data != [] {
      AlignedRest(data);
      AffineRoundsFit(c.P, BlockSeed(c.P, c.key, c.nonce, index, feedback), ROUNDS);
      AffineAlwaysFits(c, index + 1, data[..32], data[32..]);
    }
  }

  lemma {:induction false} AffineRoundsFit(P: Primitives, seed: bytes, k: nat)
    ensures RoundsFit(P, V3, seed, k)
  {
    if k > 0 {
      AffineRoundsFit(P, seed, k - 1);
    }
  }

  /** Version 3 is the affine engine at both entry points, with or without the extension. */
  lemma VersionThreeIsAffine(P: Primitives, key: bytes, nonce: bytes, data: bytes, native: bool)
    requires |data| % 32 == 0
    ensures EncryptEntry(P, 3, key, nonce, data, native) == Ok(Encrypted(Chain(P, V3, key, nonce), data))
    ensures DecryptEntry(P, 3, key, nonce, data, native) == Ok(Decrypted(Chain(P, V3, key, nonce), data))
  {
    hide CipherFits, Encrypted, Decrypted, PyEncryptFrom, PyDecryptFrom;
    var c := Chain(P, V3, key, nonce);
    RustRefinesPython(c, data);
    AffineAlwaysFits(c, 0, nonce, Encrypted(c, data));
    AffineAlwaysFits(c, 0, nonce, data);
  }

  /** Every other version is the shuffling engine: the reference's loops, or Rust's for 4 with the extension. */
  lemma OtherVersionsShuffle(P: Primitives, version: int, key: bytes, nonce: bytes, data: bytes, native: bool)
    requires |data| % 32 == 0 && version != 3
    ensures var c := Chain(P, V4, key, nonce);
      if native && version == 4 && |key| == 32 && |nonce| == 16 then
        && EncryptEntry(P, version, key, nonce, data, native) == Ok(Encrypted(c, data))
        && DecryptEntry(P, version, key, nonce, data, native) == Ok(Decrypted(c, data))
      else if native && version == 4 then
        && EncryptEntry(P, version, key, nonce, data, native) == Err(ValueError)
        && DecryptEntry(P, version, key, nonce, data, native) == Err(ValueError)
      else
        && EncryptEntry(P, version, key, nonce, data, native)
             == Guarded(CipherFits(c, 0, nonce, Encrypted(c, data)), Encrypted(c, data))
        && DecryptEntry(P, version, key, nonce, data, native)
             == Guarded(CipherFits(c, 0, nonce, data), Decrypted(c, data))
  {
    hide CipherFits, Encrypted, Decrypted, PyEncryptFrom, PyDecryptFrom;
    RustRefinesPython(Chain(P, V4, key, nonce), data);
  }
}
