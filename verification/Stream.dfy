/**
 * The word stream behind the shuffles. `take_u64` grows a byte buffer 64 bytes at a time and
 * reads it through a cursor; the pure view is the n-th word of an unbounded stream.
 */
module Stream {
  import opened Bytes
  import opened Expand
  import opened Primitives

  /** 2^32 bytes of buffer: where the 4-byte length label runs out. */
  const STREAM_WORDS: nat := 0x2000_0000

  /** The k-th 64-byte extension. Its label holds the buffer length as a truncated u32. */
  function Chunk(P: Primitives, seed: bytes, prefix: bytes, k: nat): (b: bytes)
    ensures |b| == 64
  {
    Expand64(P, seed, prefix + BE4((64 * k) % TWO32))
  }

  function Word(P: Primitives, seed: bytes, prefix: bytes, n: nat): u64
  {
    var at := 8 * (n % 8);
    ReadU64(Chunk(P, seed, prefix, n / 8)[at..at + 8])
  }

  /** The unbounded stream of words that one shuffle draws from. */
  datatype Source = Source(P: Primitives, seed: bytes, prefix: bytes) {
    function At(n: nat): u64
    {
      Word(P, seed, prefix, n)
    }
  }

  /** The concatenation of the first k extensions. */
  function Buffer(P: Primitives, seed: bytes, prefix: bytes, k: nat): (b: bytes)
    ensures |b| == 64 * k
  {
    if k == 0 then [] else Buffer(P, seed, prefix, k - 1) + Chunk(P, seed, prefix, k - 1)
  }

  lemma {:induction false} BufferHoldsChunk(P: Primitives, seed: bytes, prefix: bytes, k: nat, j: nat)
    requires j < k
    ensures Buffer(P, seed, prefix, k)[64 * j..64 * j + 64] == Chunk(P, seed, prefix, j)
  {
    if j < k - 1 {
      BufferHoldsChunk(P, seed, prefix, k - 1, j);
      assert Buffer(P, seed, prefix, k)[64 * j..64 * j + 64]
          == Buffer(P, seed, prefix, k - 1)[64 * j..64 * j + 64];
    }
  }

  /** Word n is bytes 8n to 8n+8 of any buffer long enough to hold it. */
  lemma BufferHoldsWord(P: Primitives, seed: bytes, prefix: bytes, k: nat, n: nat)
    requires 8 * n + 8 <= 64 * k
    ensures ReadU64(Buffer(P, seed, prefix, k)[8 * n..8 * n + 8]) == Word(P, seed, prefix, n)
  {
    hide Chunk, Buffer, ReadU64;
    var j := n / 8;
    BufferHoldsChunk(P, seed, prefix, k, j);
    assert 64 * j + 8 * (n % 8) == 8 * n;
    assert Buffer(P, seed, prefix, k)[8 * n..8 * n + 8]
        == Buffer(P, seed, prefix, k)[64 * j..64 * j + 64][8 * (n % 8)..8 * (n % 8) + 8];
  }

  /** The truncated length makes the stream periodic: 2^29 words, then the same words again. */
  lemma WordsRepeat(P: Primitives, seed: bytes, prefix: bytes, n: nat)
    ensures Word(P, seed, prefix, n + STREAM_WORDS) == Word(P, seed, prefix, n)
  {
    hide Expand64, ReadU64, BE4;
    var k := n / 8;
    assert (n + STREAM_WORDS) / 8 == k + 0x400_0000;
    assert (64 * (k + 0x400_0000)) % TWO32 == (64 * k) % TWO32;
  }

  lemma {:induction false} WordsRepeatOften(P: Primitives, seed: bytes, prefix: bytes, n: nat, laps: nat)
    ensures Word(P, seed, prefix, n + laps * STREAM_WORDS) == Word(P, seed, prefix, n)
  {
    hide Word;
    if laps > 0 {
      WordsRepeatOften(P, seed, prefix, n, laps - 1);
      WordsRepeat(P, seed, prefix, n + (laps - 1) * STREAM_WORDS);
    }
  }

  /** One step of an 8-byte cursor along a buffer that grows by 64 bytes. */
  lemma CursorStep(cursor: nat, length: nat)
    requires cursor % 8 == 0 && length % 64 == 0 && cursor <= length < cursor + 64
    ensures cursor == 8 * (cursor / 8) && length == 64 * (length / 64)
    ensures (length + 64) / 64 == length / 64 + 1 && (length + 64) % 64 == 0
    ensures (cursor + 8) % 8 == 0 && (cursor + 8) / 8 == cursor / 8 + 1
    ensures cursor + 8 > length ==> cursor == length
    ensures length != cursor ==> length < cursor + 64 - 7
  {
    assert length % 8 == 0;
  }

  /** The `stream` and `cursor` that `take_u64` updates. */
  class DrawStream {
    const source: Source
    var stream: bytes
    var cursor: nat

    /** The cursor is word-aligned, and the buffer is exactly the extensions drawn on so far. */
    ghost predicate Valid()
      reads this
    {
      && cursor % 8 == 0
      && |stream| % 64 == 0
      && cursor <= |stream| < cursor + 64
      && stream == Buffer(source.P, source.seed, source.prefix, |stream| / 64)
    }

    /** How many words have been taken. */
    function Taken(): nat
      reads this
    {
      cursor / 8
    }

    constructor (source: Source)
      ensures Valid() && Taken() == 0 && this.source == source
    {
      this.source := source;
      stream := [];
      cursor := 0;
    }

    /** The n-th call returns word n, however the buffer has grown. */
    method TakeU64() returns (r: u64)
      requires Valid()
      modifies this
      ensures Valid() && Taken() == old(Taken()) + 1
      ensures r == source.At(old(Taken()))
    {
      hide Word, Expand64, EncodeBE, ReadU64;
      ghost var n, k := cursor / 8, |stream| / 64;
      CursorStep(cursor, |stream|);
      if cursor + 8 > |stream| {
        stream := stream + Expand64(source.P, source.seed, source.prefix + BE4(|stream| % TWO32));
        k := k + 1;
      }
      assert |stream| == 64 * k && stream == Buffer(source.P, source.seed, source.prefix, k);
      BufferHoldsWord(source.P, source.seed, source.prefix, k, n);
      r := ReadU64(stream[cursor..cursor + 8]);
      cursor := cursor + 8;
    }
  }
}
