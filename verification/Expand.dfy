/**
 * The expander `hkdf_expand_like` and its two-block form `hkdf_expand_64`. Despite the name it
 * is not the HKDF of RFC 5869: block i is HMAC(key, block i-1 || label || u32 counter).
 */
module Expand {
  import opened Bytes
  import opened Modular
  import opened Primitives

  /** Block number i of the expansion; block 0 is the empty `previous` the loop starts with. */
  function Block(P: Primitives, key: bytes, info: bytes, i: nat): (b: bytes)
    ensures |b| == if i == 0 then 0 else 32
  {
    if i == 0 then [] else P.hmac(key, Block(P, key, info, i - 1) + info + BE4(i % TWO32))
  }

  /** The first n blocks, one after the other. */
  function Blocks(P: Primitives, key: bytes, info: bytes, n: nat): (b: bytes)
    ensures |b| == 32 * n
  {
    if n == 0 then [] else Blocks(P, key, info, n - 1) + Block(P, key, info, n)
  }

  /** What `hkdf_expand_like` returns: the first `length` bytes of the infinite expansion. */
  function Expansion(P: Primitives, key: bytes, info: bytes, length: nat): (b: bytes)
    ensures |b| == length
  {
    Blocks(P, key, info, (length + 31) / 32)[..length]
  }

  method HkdfExpandLike(P: Primitives, key: bytes, info: bytes, length: nat) returns (out: bytes)
    ensures out == Expansion(P, key, info, length)
  {
    out := [];
    var counter: u32 := 1;
    var previous := [];
    ghost var n := 0;
    while |out| < length
      invariant out == Blocks(P, key, info, n)
      invariant previous == Block(P, key, info, n)
      invariant counter == (n + 1) % TWO32
      invariant n > 0 ==> 32 * (n - 1) < length
      decreases length - 32 * n
    {
      ModAddLeft(n + 1, 1, TWO32);
      previous := P.hmac(key, previous + info + BE4(counter));
      n := n + 1;
      out := out + previous;
      counter := (counter + 1) % TWO32;
    }
    assert n == (length + 31) / 32;
    out := out[..length];
  }

  /** `hkdf_expand_64`: two chained calls, written out. */
  function Expand64(P: Primitives, key: bytes, info: bytes): (b: bytes)
    ensures |b| == 64
  {
    var first := P.hmac(key, info + [0, 0, 0, 1]);
    var second := P.hmac(key, first + info + [0, 0, 0, 2]);
    first + second
  }

  lemma {:induction false} BlocksPrefix(P: Primitives, key: bytes, info: bytes, m: nat, n: nat)
    requires m <= n
    ensures Blocks(P, key, info, m) <= Blocks(P, key, info, n)
  {
    if m < n {
      BlocksPrefix(P, key, info, m, n - 1);
    }
  }

  /** A shorter expansion is a prefix of a longer one. */
  lemma ExpansionPrefix(P: Primitives, key: bytes, info: bytes, short: nat, long: nat)
    requires short <= long
    ensures Expansion(P, key, info, short) <= Expansion(P, key, info, long)
  {
    BlocksPrefix(P, key, info, (short + 31) / 32, (long + 31) / 32);
  }

  lemma SmallCounters()
    ensures BE4(1) == [0, 0, 0, 1] && BE4(2) == [0, 0, 0, 2]
  {
  }

  /** The unrolled form agrees with the loop at length 64. */
  lemma Expand64IsExpansion(P: Primitives, key: bytes, info: bytes)
    ensures Expand64(P, key, info) == Expansion(P, key, info, 64)
  {
    SmallCounters();
    hide BE4;
    assert [] + info + BE4(1) == info + [0, 0, 0, 1];
    assert Block(P, key, info, 1) == P.hmac(key, info + [0, 0, 0, 1]);
    assert Blocks(P, key, info, 2) == Blocks(P, key, info, 1) + Block(P, key, info, 2);
    assert Blocks(P, key, info, 1) == Blocks(P, key, info, 0) + Block(P, key, info, 1);
  }
}
