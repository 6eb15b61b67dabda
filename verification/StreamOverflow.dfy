/**
 * Why agreement needs a condition on the draws: a function in the place of HMAC for which every
 * Rust loop ends while the Python reference raises OverflowError. Its streams reject almost every word.
 */
module StreamOverflow {
  import opened BlockEngine
  import opened Bytes
  import opened Chaining
  import opened Primitives
  import opened PythonEngine
  import opened Shuffle
  import opened Stream
  import opened Wrappers

  /** The label of the last extension before the length label wraps: 64 * (2^26 - 1). */
  const LAST_LABEL: nat := 0xFFFF_FFC0

  /** All ones, except for the last extension of each lap, which is all zeros. */
  function SparseHmac(key: bytes, data: bytes): Digest
  {
    var n := |data|;
    if n >= 8 && data[n - 8..n - 4] == BE4(LAST_LABEL) then Zeros(32) else Repeat(255, 32)
  }

  function Sparse(): Primitives
  {
    Primitives(SparseHmac, _ => Zeros(32), (_, _, _) => Zeros(32), (_, _, _) => Zeros(64), (_, _, _, _, _) => None)
  }

  lemma SparseChunk(seed: bytes, prefix: bytes, k: nat)
    requires k < 0x400_0000
    ensures Chunk(Sparse(), seed, prefix, k) == Repeat(if k == 0x3FF_FFFF then 0 else 255, 64)
  {
    var mark := BE4((64 * k) % TWO32);
    MarkOfChunk(k);
    hide BE4;
    var info := prefix + mark;
    var one, two: bytes := [0, 0, 0, 1], [0, 0, 0, 2];
    var data1 := info + one;
    assert data1[|data1| - 8..|data1| - 4] == mark;
    var first := SparseHmac(seed, data1);
    var data2 := first + info + two;
    assert data2[|data2| - 8..|data2| - 4] == mark;
  }

  lemma MarkOfChunk(k: nat)
    requires k < 0x400_0000
    ensures BE4((64 * k) % TWO32) == BE4(LAST_LABEL) <==> k == 0x3FF_FFFF
  {
    hide BE4, ReadU32;
    assert (64 * k) % TWO32 == 64 * k;
    ReadBE4(64 * k);
    ReadBE4(LAST_LABEL);
  }

  lemma ConstantWord(b: byte)
    ensures ReadU64(Repeat(b, 8)) == b * 0x0101_0101_0101_0101
  {
    var s := Repeat(b, 8);
    assert s[..7] == Repeat(b, 7) && Repeat(b, 7)[..6] == Repeat(b, 6) && Repeat(b, 6)[..5] == Repeat(b, 5);
    assert Repeat(b, 5)[..4] == Repeat(b, 4) && Repeat(b, 4)[..3] == Repeat(b, 3) && Repeat(b, 3)[..2] == Repeat(b, 2);
    assert Repeat(b, 2)[..1] == Repeat(b, 1) && Repeat(b, 1)[..0] == [];
    assert DecodeBE(Repeat(b, 1)) == b;
    assert DecodeBE(Repeat(b, 2)) == b * 0x101;
    assert DecodeBE(Repeat(b, 3)) == b * 0x10101;
    assert DecodeBE(Repeat(b, 4)) == b * 0x101_0101;
    assert DecodeBE(Repeat(b, 5)) == b * 0x1_0101_0101;
    assert DecodeBE(Repeat(b, 6)) == b * 0x101_0101_0101;
    assert DecodeBE(Repeat(b, 7)) == b * 0x1_0101_0101_0101;
  }

  /** In the first lap every word is 2^64 - 1, except the last eight, which are 0. */
  lemma SparseWord(seed: bytes, prefix: bytes, n: nat)
    requires n < STREAM_WORDS
    ensures Word(Sparse(), seed, prefix, n) == if n >= STREAM_WORDS - 8 then 0 else TWO64 - 1
  {
    var k, at := n / 8, 8 * (n % 8);
    SparseChunk(seed, prefix, k);
    var b := if k == 0x3FF_FFFF then 0 else 255;
    hide Chunk, ReadU64, Sparse;
    assert Repeat(b, 64)[at..at + 8] == Repeat(b, 8);
    ConstantWord(b);
  }

  /** Each draw takes at least one word. */
  lemma {:induction false} DrawsTakeWords(w: Source, from: nat, k: nat)
    requires k > 1 && DrawsFit(w, from, k)
    ensures from + (k - 1) <= STREAM_WORDS
    decreases k
  {
    hide Word, DrawIndex, AcceptsFrom;
    if k > 2 {
      DrawsTakeWords(w, DrawIndex(w, from, k) + 1, k - 1);
    }
  }

  lemma SparseDoesNotFit(seed: bytes, prefix: bytes)
    ensures !DrawsFit(Source(Sparse(), seed, prefix), 0, 256)
  {
    hide Word, DrawsFit, DrawIndex, AcceptsFrom;
    var w := Source(Sparse(), seed, prefix);
    if DrawsFit(w, 0, 256) {
      FirstDrawFits(w, 0, 256);
      var at := DrawIndex(w, 0, 256) + 1;
      FirstDrawFits(w, at, 255);
      var d := DrawIndex(w, at, 255);
      SparseWord(seed, prefix, d);
      assert Limit(255) == TWO64 - 1;
      DrawsTakeWords(w, d + 1, 254);
    }
  }

  lemma FirstDrawFits(w: Source, from: nat, k: nat)
    requires k > 1 && DrawsFit(w, from, k)
    ensures DrawIndex(w, from, k) < STREAM_WORDS && w.At(DrawIndex(w, from, k)) < Limit(k)
    ensures DrawsFit(w, DrawIndex(w, from, k) + 1, k - 1)
  {
    hide Word, Limit;
  }

  lemma SparseIsLive(seed: bytes, prefix: bytes, size: nat)
    ensures Live(Sparse(), seed, prefix, size) || size >= TWO64
  {
    hide Word;
    var w := Source(Sparse(), seed, prefix);
    if size < TWO64 {
      forall m: nat | 2 <= m <= size ensures AcceptsFrom(w, 0, m) {
        SparseWord(seed, prefix, STREAM_WORDS - 1);
        LimitIsPositive(m);
        assert w.At(STREAM_WORDS - 1) < Limit(m);
      }
    }
  }

  lemma LimitIsPositive(m: nat)
    requires 0 < m < TWO64
    ensures Limit(m) > 0
  {
  }

  lemma SparseIsEngineLive()
    ensures EngineLive(Sparse())
  {
    hide Sparse, Live;
    forall seed: Digest
      ensures Live(Sparse(), seed, Ascii("perm"), 256) && Live(Sparse(), seed, Ascii("small-perm"), 32)
    {
      SparseIsLive(seed, Ascii("perm"), 256);
      SparseIsLive(seed, Ascii("small-perm"), 32);
    }
  }

  lemma SparseChainDoesNotFit(c: Chain, index: nat, feedback: bytes, data: bytes)
    requires c.P == Sparse() && c.engine == V4 && |data| % 32 == 0 && data != []
    ensures !CipherFits(c, index, feedback, data)
  {
    hide Sparse, DrawsFit, RoundSeed, BlockSeed;
    AlignedRest(data);
    var seed := BlockSeed(c.P, c.key, c.nonce, index, feedback);
    SparseDoesNotFit(RoundSeed(c.P, seed, ROUNDS - 1), Ascii("perm"));
    assert !RoundFits(c.P, V4, RoundSeed(c.P, seed, ROUNDS - 1));
    hide RoundFits;
  }

  /**
   * Agreement cannot be proved for an arbitrary HMAC: with this one every Rust loop ends, yet the
   * reference raises on every non-empty aligned input, in both directions.
   */
  lemma PythonMayRaiseWhereRustReturns(c: Chain, data: bytes)
    requires c.P == Sparse() && c.engine == V4 && |data| % 32 == 0 && data != []
    ensures ChainLive(c, 0, c.nonce, Encrypted(c, data)) && ChainLive(c, 0, c.nonce, data)
    ensures PyEncryptBlocks(c, data) == Err(OverflowError)
    ensures PyDecryptBlocks(c, data) == Err(OverflowError)
  {
    hide Sparse, ChainLive, CipherFits, Encrypted, EngineLive;
    SparseIsEngineLive();
    EngineLiveChains(c, 0, c.nonce, Encrypted(c, data));
    EngineLiveChains(c, 0, c.nonce, data);
    SparseChainDoesNotFit(c, 0, c.nonce, Encrypted(c, data));
    SparseChainDoesNotFit(c, 0, c.nonce, data);
    RustRefinesPython(c, data);
  }
}
