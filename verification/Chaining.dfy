/**
 * The chained mode: every block is keyed by its index and by the ciphertext block before it,
 * with the nonce standing in for the block before the first.
 */
module Chaining {
  import opened BlockEngine
  import opened Bytes
  import opened Primitives
  import opened Wrappers

  function BlockLabel(nonce: bytes, index: nat, feedbackHash: Digest): bytes
  {
    Ascii("block") + nonce + BE8(index) + feedbackHash
  }

  function BlockSeed(P: Primitives, key: bytes, nonce: bytes, index: nat, feedback: bytes): Digest
  {
    P.hmac(key, BlockLabel(nonce, index, P.sha256(feedback)))
  }

  /** Labels tell their nonce (of a given length), index and feedback hash apart. */
  lemma BlockLabelIsInjective(nonce: bytes, index: u64, hash: Digest, nonce': bytes, index': u64, hash': Digest)
    requires |nonce| == |nonce'| && BlockLabel(nonce, index, hash) == BlockLabel(nonce', index', hash')
    ensures nonce == nonce' && index == index' && hash == hash'
  {
    hide BE8, Ascii, ReadU64;
    var s, n := BlockLabel(nonce, index, hash), |nonce|;
    var s' := BlockLabel(nonce', index', hash');
    assert s[5..5 + n] == nonce && s'[5..5 + n] == nonce';
    assert s[5 + n..13 + n] == BE8(index) && s'[5 + n..13 + n] == BE8(index');
    assert s[13 + n..] == hash && s'[13 + n..] == hash';
    ReadBE8(index);
    ReadBE8(index');
  }

  lemma AlignedRest(data: bytes)
    requires |data| % 32 == 0 && data != []
    ensures |data| >= 32 && |data[32..]| % 32 == 0 && |data[32..]| == |data| - 32
  {
  }

  /** What stays fixed along one chain. */
  datatype Chain = Chain(P: Primitives, engine: Engine, key: bytes, nonce: bytes)

  ghost function EncryptFrom(c: Chain, index: nat, feedback: bytes, data: bytes): (out: bytes)
    requires |data| % 32 == 0
    ensures |out| == |data|
    decreases |data|
  {
    hide EncryptedBlock, BlockSeed;
    if data == [] then [] else
      AlignedRest(data);
      var e := EncryptedBlock(c.P, c.engine, data[..32], BlockSeed(c.P, c.key, c.nonce, index, feedback));
      e + EncryptFrom(c, index + 1, e, data[32..])
  }

  ghost function DecryptFrom(c: Chain, index: nat, feedback: bytes, data: bytes): (out: bytes)
    requires |data| % 32 == 0
    ensures |out| == |data|
    decreases |data|
  {
    hide DecryptedBlock, BlockSeed;
    if data == [] then [] else
      AlignedRest(data);
      var d := DecryptedBlock(c.P, c.engine, data[..32], BlockSeed(c.P, c.key, c.nonce, index, feedback));
      d + DecryptFrom(c, index + 1, data[..32], data[32..])
  }

  ghost function Encrypted(c: Chain, padded: bytes): (out: bytes)
    requires |padded| % 32 == 0
    ensures |out| == |padded|
  {
    EncryptFrom(c, 0, c.nonce, padded)
  }

  ghost function Decrypted(c: Chain, ciphertext: bytes): (out: bytes)
    requires |ciphertext| % 32 == 0
    ensures |out| == |ciphertext|
  {
    DecryptFrom(c, 0, c.nonce, ciphertext)
  }

  lemma {:induction false} ChainFromRoundTrip(c: Chain, index: nat, feedback: bytes, data: bytes)
    requires |data| % 32 == 0
    ensures DecryptFrom(c, index, feedback, EncryptFrom(c, index, feedback, data)) == data
    ensures EncryptFrom(c, index, feedback, DecryptFrom(c, index, feedback, data)) == data
    decreases |data|
  {
    hide EncryptedBlock, DecryptedBlock, BlockSeed;
    if data != [] {
      var seed := BlockSeed(c.P, c.key, c.nonce, index, feedback);
      var head, rest := data[..32], data[32..];
      assert data == head + rest;
      BlockRoundTrip(c.P, c.engine, head, seed);
      var e := EncryptedBlock(c.P, c.engine, head, seed);
      var out := EncryptFrom(c, index + 1, e, rest);
      ChainFromRoundTrip(c, index + 1, e, rest);
      assert (e + out)[..32] == e && (e + out)[32..] == out;
      var d := DecryptedBlock(c.P, c.engine, head, seed);
      var back := DecryptFrom(c, index + 1, head, rest);
      ChainFromRoundTrip(c, index + 1, head, rest);
      assert (d + back)[..32] == d && (d + back)[32..] == back;
    }
  }

  /** Decryption undoes encryption, and encryption decryption, for any number of blocks. */
  lemma ChainRoundTrip(c: Chain, data: bytes)
    requires |data| % 32 == 0
    ensures Decrypted(c, Encrypted(c, data)) == data
    ensures Encrypted(c, Decrypted(c, data)) == data
  {
    ChainFromRoundTrip(c, 0, c.nonce, data);
  }

  lemma {:induction false} EncryptFromPrefix(c: Chain, index: nat, feedback: bytes, a: bytes, b: bytes)
    requires |a| % 32 == 0 && |b| % 32 == 0
    ensures EncryptFrom(c, index, feedback, a) <= EncryptFrom(c, index, feedback, a + b)
    decreases |a|
  {
    hide EncryptedBlock, BlockSeed;
    if a != [] {
      assert (a + b)[..32] == a[..32] && (a + b)[32..] == a[32..] + b;
      var e := EncryptedBlock(c.P, c.engine, a[..32], BlockSeed(c.P, c.key, c.nonce, index, feedback));
      EncryptFromPrefix(c, index + 1, e, a[32..], b);
    }
  }

  /** The encryption of a prefix is a prefix of the encryption. */
  lemma EncryptionOfPrefix(c: Chain, a: bytes, b: bytes)
    requires |a| % 32 == 0 && |b| % 32 == 0
    ensures Encrypted(c, a) <= Encrypted(c, a + b)
  {
    EncryptFromPrefix(c, 0, c.nonce, a, b);
  }

  // ----- Error propagation -----

  function BlockAt(s: bytes, i: nat): (b: bytes)
    requires 32 * i + 32 <= |s|
    ensures |b| == 32
  {
    s[32 * i..32 * i + 32]
  }

  lemma BlockAtShift(s: bytes, i: nat)
    requires i > 0 && 32 * i + 32 <= |s|
    ensures BlockAt(s[32..], i - 1) == BlockAt(s, i)
  {
  }

  lemma {:induction false} DecryptFromAt(c: Chain, index: nat, feedback: bytes, data: bytes, i: nat)
    requires |data| % 32 == 0 && 32 * i + 32 <= |data|
    ensures BlockAt(DecryptFrom(c, index, feedback, data), i) == DecryptedBlock(c.P, c.engine, BlockAt(data, i),
        BlockSeed(c.P, c.key, c.nonce, index + i, if i == 0 then feedback else BlockAt(data, i - 1)))
    decreases i
  {
    hide DecryptedBlock, BlockSeed;
    var out := DecryptFrom(c, index, feedback, data);
    if i > 0 {
      var rest := data[32..];
      DecryptFromAt(c, index + 1, data[..32], rest, i - 1);
      assert out[32..] == DecryptFrom(c, index + 1, data[..32], rest);
      BlockAtShift(out, i);
      BlockAtShift(data, i);
      if i > 1 {
        BlockAtShift(data, i - 1);
      } else {
        assert BlockAt(data, 0) == data[..32];
      }
    }
  }

  /** The seed of block i along a ciphertext: its index, and the ciphertext block before it. */
  function SeedAt(c: Chain, ciphertext: bytes, i: nat): Digest
    requires 32 * i <= |ciphertext|
  {
    BlockSeed(c.P, c.key, c.nonce, i, if i == 0 then c.nonce else BlockAt(ciphertext, i - 1))
  }

  /** Plaintext block i depends only on i and on ciphertext blocks i and i-1. */
  lemma DecryptedBlockAt(c: Chain, data: bytes, i: nat)
    requires |data| % 32 == 0 && 32 * i + 32 <= |data|
    ensures BlockAt(Decrypted(c, data), i) == DecryptedBlock(c.P, c.engine, BlockAt(data, i), SeedAt(c, data, i))
  {
    hide DecryptedBlock, BlockSeed, BlockAt;
    DecryptFromAt(c, 0, c.nonce, data, i);
  }

  /** Ciphertext block i is plaintext block i encrypted under the seed that the ciphertext itself leads to. */
  lemma EncryptedBlockAt(c: Chain, data: bytes, i: nat)
    requires |data| % 32 == 0 && 32 * i + 32 <= |data|
    ensures var out := Encrypted(c, data);
      BlockAt(out, i) == EncryptedBlock(c.P, c.engine, BlockAt(data, i), SeedAt(c, out, i))
  {
    hide DecryptedBlock, EncryptedBlock, BlockAt, SeedAt, Encrypted, Decrypted;
    var out := Encrypted(c, data);
    ChainRoundTrip(c, data);
    DecryptedBlockAt(c, out, i);
    BlockRoundTrip(c.P, c.engine, BlockAt(out, i), SeedAt(c, out, i));
  }

  /** Altering ciphertext block i changes at most plaintext blocks i and i+1. */
  lemma AlteredBlockIsLocal(c: Chain, data: bytes, altered: bytes, i: nat)
    requires |data| % 32 == 0 && |altered| == |data|
    requires forall k :: 0 <= k < |data| / 32 && k != i ==> BlockAt(altered, k) == BlockAt(data, k)
    ensures forall k :: 0 <= k < |data| / 32 && k != i && k != i + 1 ==>
      BlockAt(Decrypted(c, altered), k) == BlockAt(Decrypted(c, data), k)
  {
    hide DecryptedBlock, BlockSeed, BlockAt, Decrypted;
    forall k | 0 <= k < |data| / 32 && k != i && k != i + 1
      ensures BlockAt(Decrypted(c, altered), k) == BlockAt(Decrypted(c, data), k)
    {
      DecryptedBlockAt(c, data, k);
      DecryptedBlockAt(c, altered, k);
    }
  }

  /** And it always changes block i itself. */
  lemma AlteredBlockChanges(c: Chain, data: bytes, altered: bytes, i: nat)
    requires |data| % 32 == 0 && |altered| == |data| && 32 * i + 32 <= |data|
    requires BlockAt(altered, i) != BlockAt(data, i)
    requires i > 0 ==> BlockAt(altered, i - 1) == BlockAt(data, i - 1)
    ensures BlockAt(Decrypted(c, altered), i) != BlockAt(Decrypted(c, data), i)
  {
    hide DecryptedBlock, BlockSeed, BlockAt, Decrypted;
    DecryptedBlockAt(c, data, i);
    DecryptedBlockAt(c, altered, i);
    var seed := BlockSeed(c.P, c.key, c.nonce, i, if i == 0 then c.nonce else BlockAt(data, i - 1));
    BlockRoundTrip(c.P, c.engine, BlockAt(data, i), seed);
    BlockRoundTrip(c.P, c.engine, BlockAt(altered, i), seed);
  }

  // ----- The loops of the Rust engine -----

  /** Every block along a ciphertext has a seed whose rounds end. */
  ghost predicate ChainLive(c: Chain, index: nat, feedback: bytes, ciphertext: bytes)
    requires |ciphertext| % 32 == 0
    decreases |ciphertext|
  {
    hide SeedLive, BlockSeed;
    if ciphertext == [] then true else
      AlignedRest(ciphertext);
      && SeedLive(c.P, BlockSeed(c.P, c.key, c.nonce, index, feedback))
      && ChainLive(c, index + 1, ciphertext[..32], ciphertext[32..])
  }

  lemma ChainLiveCons(c: Chain, index: nat, feedback: bytes, head: bytes, rest: bytes)
    requires |head| == 32 && |rest| % 32 == 0
    ensures ChainLive(c, index, feedback, head + rest)
      <==> SeedLive(c.P, BlockSeed(c.P, c.key, c.nonce, index, feedback)) && ChainLive(c, index + 1, head, rest)
  {
    hide SeedLive, BlockSeed;
    var data := head + rest;
    assert data[..32] == head && data[32..] == rest;
  }

  lemma {:induction false} EngineLiveChains(c: Chain, index: nat, feedback: bytes, ciphertext: bytes)
    requires |ciphertext| % 32 == 0 && EngineLive(c.P)
    ensures ChainLive(c, index, feedback, ciphertext)
    decreases |ciphertext|
  {
    hide EngineLive, SeedLive, BlockSeed;
    if ciphertext != [] {
      AlignedRest(ciphertext);
      EngineLiveSeeds(c.P, BlockSeed(c.P, c.key, c.nonce, index, feedback));
      EngineLiveChains(c, index + 1, ciphertext[..32], ciphertext[32..]);
    }
  }

  /** `encrypt_blocks`, with its alignment guard. */
  method EncryptBlocks(P: Primitives, padded: bytes, key: bytes, nonce: bytes)
    returns (r: Result<bytes, KrcmError>)
    requires |padded| % 32 == 0 ==>
      ChainLive(Chain(P, V4, key, nonce), 0, nonce, Encrypted(Chain(P, V4, key, nonce), padded))
    ensures r == if |padded| % 32 != 0 then Err(InvalidParameter) else Ok(Encrypted(Chain(P, V4, key, nonce), padded))
  {
    hide EncryptedBlock, SeedLive, BlockSeed, ChainLive;
    if |padded| % 32 != 0 {
      return Err(InvalidParameter);
    }
    ghost var c := Chain(P, V4, key, nonce);
    var ciphertext, feedback := [], nonce;
    assert padded[0..] == padded;
    for index := 0 to |padded| / 32
      invariant ciphertext + EncryptFrom(c, index, feedback, padded[32 * index..]) == Encrypted(c, padded)
      invariant ChainLive(c, index, feedback, EncryptFrom(c, index, feedback, padded[32 * index..]))
    {
      ghost var rest := padded[32 * index..];
      assert rest[..32] == padded[32 * index..32 * index + 32] && rest[32..] == padded[32 * (index + 1)..];
      ghost var e := EncryptedBlock(P, V4, rest[..32], BlockSeed(P, key, nonce, index, feedback));
      ChainLiveCons(c, index, feedback, e, EncryptFrom(c, index + 1, e, rest[32..]));
      var block := padded[32 * index..32 * index + 32];
      var encrypted := EncryptOneBlock(P, block, BlockSeed(P, key, nonce, index, feedback));
      ghost var later := EncryptFrom(c, index + 1, encrypted, rest[32..]);
      assert ciphertext + (encrypted + later) == (ciphertext + encrypted) + later;
      ciphertext := ciphertext + encrypted;
      feedback := encrypted;
    }
    assert padded[32 * (|padded| / 32)..] == [] && ciphertext + [] == ciphertext;
    r := Ok(ciphertext);
  }

  /** `decrypt_blocks`: the same loop, fed back from the ciphertext it reads. */
  method DecryptBlocks(P: Primitives, ciphertext: bytes, key: bytes, nonce: bytes)
    returns (r: Result<bytes, KrcmError>)
    requires |ciphertext| % 32 == 0 ==> ChainLive(Chain(P, V4, key, nonce), 0, nonce, ciphertext)
    ensures r == if |ciphertext| % 32 != 0 then Err(Format) else Ok(Decrypted(Chain(P, V4, key, nonce), ciphertext))
  {
    hide DecryptedBlock, SeedLive, BlockSeed, ChainLive;
    if |ciphertext| % 32 != 0 {
      return Err(Format);
    }
    ghost var c := Chain(P, V4, key, nonce);
    var padded, feedback := [], nonce;
    assert ciphertext[0..] == ciphertext;
    for index := 0 to |ciphertext| / 32
      invariant ChainLive(c, index, feedback, ciphertext[32 * index..])
      invariant padded + DecryptFrom(c, index, feedback, ciphertext[32 * index..]) == Decrypted(c, ciphertext)
    {
      ghost var rest := ciphertext[32 * index..];
      var block := ciphertext[32 * index..32 * index + 32];
      assert rest[..32] == block && rest[32..] == ciphertext[32 * (index + 1)..] && rest == block + rest[32..];
      ChainLiveCons(c, index, feedback, block, rest[32..]);
      var decrypted := DecryptOneBlock(P, block, BlockSeed(P, key, nonce, index, feedback));
      ghost var later := DecryptFrom(c, index + 1, block, rest[32..]);
      assert padded + (decrypted + later) == (padded + decrypted) + later;
      padded := padded + decrypted;
      feedback := block;
    }
    assert ciphertext[32 * (|ciphertext| / 32)..] == [] && padded + [] == padded;
    r := Ok(padded);
  }
}
