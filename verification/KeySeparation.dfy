/**
 * What each derived seed, nonce and key depends on. HMAC and SHA-256 are arbitrary functions, so
 * the laws name what they need of them: that they tell apart strings that differ in one short
 * window, or short strings. `HypothesesCanBeMet` shows that this can be had.
 */
module KeySeparation {
  import opened BlockEngine
  import opened Bytes
  import opened Chaining
  import opened Kdf
  import opened Modular
  import opened Primitives
  import opened Segments
  import opened Wrappers

  // ----- What is asked of the primitives -----

  /** The first `size` bytes of HMAC tell apart messages that differ in one window of at most n bytes. */
  ghost predicate HmacSees(P: Primitives, key: bytes, n: nat, size: nat)
    requires size <= 32
  {
    forall a: bytes, x: bytes, y: bytes, b: bytes ::
      |x| == |y| <= n && P.hmac(key, a + x + b)[..size] == P.hmac(key, a + y + b)[..size] ==> x == y
  }

  lemma SeeWindow(P: Primitives, key: bytes, n: nat, size: nat, a: bytes, x: bytes, y: bytes, b: bytes)
    requires size <= 32 && HmacSees(P, key, n, size) && |x| == |y| <= n
    requires P.hmac(key, a + x + b)[..size] == P.hmac(key, a + y + b)[..size]
    ensures x == y
  {
  }

  /** HMAC tells apart all messages of fewer than 32 bytes. */
  ghost predicate HmacShort(P: Primitives, key: bytes)
  {
    forall x: bytes, y: bytes :: |x| < 32 && |y| < 32 && P.hmac(key, x) == P.hmac(key, y) ==> x == y
  }

  ghost predicate ShaSees(P: Primitives)
  {
    forall x: bytes, y: bytes :: |x| == |y| <= 32 && P.sha256(x) == P.sha256(y) ==> x == y
  }

  // ----- Such functions exist -----

  /** The sum of the bytes at positions k with k % n == i. */
  function LaneSum(s: bytes, n: nat, i: nat): nat
    requires n > 0
  {
    if s == [] then 0 else
      var k := |s| - 1;
      LaneSum(s[..k], n, i) + if k % n == i then s[k] else 0
  }

  function Lanes(s: bytes, n: nat): (out: bytes)
    requires n > 0
    ensures |out| == n
  {
    seq(n, i requires 0 <= i < n => LaneSum(s, n, i) % 256)
  }

  lemma {:induction false} LaneDifference(s: bytes, t: bytes, n: nat, k: nat)
    requires n > 0 && |s| == |t|
    requires forall q :: 0 <= q < |s| && q != k && q % n == k % n ==> s[q] == t[q]
    ensures LaneSum(s, n, k % n) - LaneSum(t, n, k % n) == if k < |s| then s[k] as int - t[k] else 0
  {
    if s != [] {
      var m := |s| - 1;
      LaneDifference(s[..m], t[..m], n, k);
    }
  }

  lemma OnlyOneInWindow(start: nat, n: nat, k: nat, q: nat)
    requires n > 0 && start <= k < start + n && start <= q < start + n && q % n == k % n
    ensures q == k
  {
    var u, v := q / n, k / n;
    assert q == u * n + q % n && k == v * n + k % n;
    assert q - k == (u - v) * n;
    if u > v {
      MulAtLeast(u - v, n);
    } else if u < v {
      MulAtLeast(v - u, n);
    }
  }

  lemma LanesSeeWindows(n: nat, a: bytes, x: bytes, y: bytes, b: bytes)
    requires n > 0 && |x| == |y| <= n && Lanes(a + x + b, n) == Lanes(a + y + b, n)
    ensures x == y
  {
    var s, t := a + x + b, a + y + b;
    forall p | 0 <= p < |x| ensures x[p] == y[p] {
      var k := |a| + p;
      forall q | 0 <= q < |s| && q != k && q % n == k % n ensures s[q] == t[q] {
        if |a| <= q < |a| + |x| {
          OnlyOneInWindow(|a|, n, k, q);
        }
      }
      LaneDifference(s, t, n, k);
      assert Lanes(s, n)[k % n] == Lanes(t, n)[k % n];
      assert s[k] == x[p] && t[k] == y[p];
      SmallDifference(LaneSum(s, n, k % n), LaneSum(t, n, k % n));
    }
  }

  lemma SmallDifference(u: int, v: int)
    requires u % 256 == v % 256 && -256 < u - v < 256
    ensures u == v
  {
  }

  /** A string of fewer than 32 bytes, filled up with zeros, and its length. */
  function Padded(s: bytes): Digest
  {
    if |s| < 32 then s + Zeros(31 - |s|) + [|s|] else Zeros(32)
  }

  lemma PaddedIsInjective(x: bytes, y: bytes)
    requires |x| < 32 && |y| < 32 && Padded(x) == Padded(y)
    ensures x == y
  {
    assert Padded(x)[31] == |x| && Padded(y)[31] == |y|;
    assert Padded(x)[..|x|] == x && Padded(y)[..|y|] == y;
  }

  function Toy(mac: (bytes, bytes) -> Digest): Primitives
  {
    Primitives(mac, s => if |s| == 32 then s else Padded(s), (_, _, _) => Zeros(32), (_, _, _) => Zeros(64),
      (_, _, _, _, _) => None)
  }

  function WideToy(): Primitives
  {
    Toy((_, s) => Lanes(s, 32))
  }

  function NarrowToy(): Primitives
  {
    Toy((_, s) => Lanes(s, 16) + Lanes(s, 16))
  }

  function ShortToy(): Primitives
  {
    Toy((_, s) => Padded(s))
  }

  /** So the hypotheses below can be met. */
  lemma HypothesesCanBeMet(key: bytes)
    ensures HmacSees(WideToy(), key, 32, 32) && ShaSees(WideToy())
    ensures HmacSees(NarrowToy(), key, 16, 16)
    ensures HmacShort(ShortToy(), key)
  {
    hide Lanes, Padded;
    forall a: bytes, x: bytes, y: bytes, b: bytes
      | |x| == |y| <= 32 && WideToy().hmac(key, a + x + b)[..32] == WideToy().hmac(key, a + y + b)[..32]
      ensures x == y
    {
      assert Lanes(a + x + b, 32)[..32] == Lanes(a + x + b, 32) && Lanes(a + y + b, 32)[..32] == Lanes(a + y + b, 32);
      LanesSeeWindows(32, a, x, y, b);
    }
    forall x: bytes, y: bytes | |x| == |y| <= 32 && WideToy().sha256(x) == WideToy().sha256(y) ensures x == y {
      if |x| < 32 {
        PaddedIsInjective(x, y);
      }
    }
    forall a: bytes, x: bytes, y: bytes, b: bytes
      | |x| == |y| <= 16 && NarrowToy().hmac(key, a + x + b)[..16] == NarrowToy().hmac(key, a + y + b)[..16]
      ensures x == y
    {
      LanesSeeWindows(16, a, x, y, b);
    }
    forall x: bytes, y: bytes | |x| < 32 && |y| < 32 && ShortToy().hmac(key, x) == ShortToy().hmac(key, y)
      ensures x == y
    {
      PaddedIsInjective(x, y);
    }
  }

  // ----- Round seeds -----

  lemma BE2Injective(i: nat, j: nat)
    requires i < 0x1_0000 && j < 0x1_0000 && BE2(i) == BE2(j)
    ensures i == j
  {
    hide BE2;
    ReadBE2(i);
    ReadBE2(j);
  }

  lemma BE8Injective(i: u64, j: u64)
    requires BE8(i) == BE8(j)
    ensures i == j
  {
    hide BE8;
    ReadBE8(i);
    ReadBE8(j);
  }

  /** No two of the ten rounds of a block share a seed. */
  lemma RoundSeedsDiffer(P: Primitives, seed: bytes, i: nat, j: nat)
    requires i < ROUNDS && j < ROUNDS && HmacShort(P, seed)
    requires RoundSeed(P, seed, i) == RoundSeed(P, seed, j)
    ensures i == j
  {
    hide BE2, Ascii;
    var x, y := RoundLabel(i), RoundLabel(j);
    assert x[5..] == BE2(i) && y[5..] == BE2(j);
    BE2Injective(i, j);
  }

  // ----- Block seeds -----

  /** At one index, block seeds tell the feedback apart. */
  lemma BlockSeedSeesFeedback(P: Primitives, key: bytes, nonce: bytes, index: nat, f: bytes, g: bytes)
    requires HmacSees(P, key, 32, 32) && ShaSees(P) && |f| == |g| <= 32
    ensures BlockSeed(P, key, nonce, index, f) == BlockSeed(P, key, nonce, index, g) <==> f == g
  {
    hide BE8, Ascii, HmacSees;
    var a, x, y := Ascii("block") + nonce + BE8(index), P.sha256(f), P.sha256(g);
    assert a + x + [] == BlockLabel(nonce, index, x) && a + y + [] == BlockLabel(nonce, index, y);
    if BlockSeed(P, key, nonce, index, f) == BlockSeed(P, key, nonce, index, g) {
      SeeWindow(P, key, 32, 32, a, x, y, []);
    }
  }

  /** Under one nonce and feedback, they tell the index apart. */
  lemma BlockSeedSeesIndex(P: Primitives, key: bytes, nonce: bytes, i: u64, j: u64, f: bytes)
    requires HmacSees(P, key, 32, 32)
    ensures BlockSeed(P, key, nonce, i, f) == BlockSeed(P, key, nonce, j, f) <==> i == j
  {
    hide BE8, Ascii, HmacSees;
    var a, b := Ascii("block") + nonce, P.sha256(f);
    if BlockSeed(P, key, nonce, i, f) == BlockSeed(P, key, nonce, j, f) {
      SeeWindow(P, key, 32, 32, a, BE8(i), BE8(j), b);
      BE8Injective(i, j);
    }
  }

  /** At one index and feedback, they tell nonces of 16 bytes apart. */
  lemma BlockSeedSeesNonce(P: Primitives, key: bytes, m: bytes, n: bytes, index: nat, f: bytes)
    requires HmacSees(P, key, 32, 32) && |m| == |n| == 16
    ensures BlockSeed(P, key, m, index, f) == BlockSeed(P, key, n, index, f) <==> m == n
  {
    hide BE8, Ascii, HmacSees;
    var a, b := Ascii("block"), BE8(index) + P.sha256(f);
    assert a + m + b == BlockLabel(m, index, P.sha256(f)) && a + n + b == BlockLabel(n, index, P.sha256(f));
    if BlockSeed(P, key, m, index, f) == BlockSeed(P, key, n, index, f) {
      SeeWindow(P, key, 32, 32, a, m, n, b);
    }
  }

  /** Along a ciphertext, the seed of block i + 1 changes exactly when ciphertext block i does. */
  lemma NextSeedFollowsBlock(c: Chain, data: bytes, altered: bytes, i: nat)
    requires HmacSees(c.P, c.key, 32, 32) && ShaSees(c.P)
    requires 32 * i + 64 <= |data| == |altered|
    ensures SeedAt(c, data, i + 1) == SeedAt(c, altered, i + 1) <==> BlockAt(data, i) == BlockAt(altered, i)
  {
    hide BlockSeed, HmacSees, ShaSees, BlockAt;
    BlockSeedSeesFeedback(c.P, c.key, c.nonce, i + 1, BlockAt(data, i), BlockAt(altered, i));
  }

  // ----- Segment nonces -----

  /** The segments of one container have different nonces. */
  lemma SegmentNonceSeesIndex(c: Context, i: u64, j: u64)
    requires HmacSees(c.P, c.keys.segment, 16, 16)
    ensures SegmentNonce(c, i) == SegmentNonce(c, j) <==> i == j
  {
    hide BE8, Ascii, HmacSees;
    if SegmentNonce(c, i) == SegmentNonce(c, j) {
      var a := Ascii("KRCM-v5-segment") + c.publicNonce + c.siv;
      assert a + BE8(i) + [] == SegmentLabel(c, i) && a + BE8(j) + [] == SegmentLabel(c, j);
      SeeWindow(c.P, c.keys.segment, 16, 16, a, BE8(i), BE8(j), []);
      BE8Injective(i, j);
    }
  }

  /** At one index, they have different nonces under different public nonces. */
  lemma SegmentNonceSeesPublicNonce(c: Context, publicNonce: bytes, i: nat)
    requires HmacSees(c.P, c.keys.segment, 16, 16) && |c.publicNonce| == |publicNonce| == 16
    ensures SegmentNonce(c, i) == SegmentNonce(c.(publicNonce := publicNonce), i) <==> c.publicNonce == publicNonce
  {
    hide BE8, Ascii, HmacSees;
    if SegmentNonce(c, i) == SegmentNonce(c.(publicNonce := publicNonce), i) {
      var a, b := Ascii("KRCM-v5-segment"), c.siv + BE8(i);
      assert a + c.publicNonce + b == SegmentLabel(c, i);
      assert a + publicNonce + b == SegmentLabel(c.(publicNonce := publicNonce), i);
      SeeWindow(c.P, c.keys.segment, 16, 16, a, c.publicNonce, publicNonce, b);
    }
  }

  /** And under synthetic IVs u + x + v and u + y + v that differ in a window of at most 16 bytes. */
  lemma SegmentNonceSeesIv(c: Context, u: bytes, x: bytes, y: bytes, v: bytes, i: nat)
    requires HmacSees(c.P, c.keys.segment, 16, 16) && |x| == |y| <= 16
    ensures SegmentNonce(c.(siv := u + x + v), i) == SegmentNonce(c.(siv := u + y + v), i) <==> x == y
  {
    hide BE8, Ascii, HmacSees;
    if SegmentNonce(c.(siv := u + x + v), i) == SegmentNonce(c.(siv := u + y + v), i) {
      var a, b := Ascii("KRCM-v5-segment") + c.publicNonce + u, v + BE8(i);
      assert a + x + b == SegmentLabel(c.(siv := u + x + v), i);
      assert a + y + b == SegmentLabel(c.(siv := u + y + v), i);
      SeeWindow(c.P, c.keys.segment, 16, 16, a, x, y, b);
    }
  }

  // ----- Keys -----

  /** The five keys of a container are different from one another. */
  lemma SubkeysDiffer(P: Primitives, root: Digest)
    requires HmacShort(P, root)
    ensures var k := DeriveV5Keys(P, root);
      && k.enc != k.auth && k.enc != k.siv && k.enc != k.block && k.enc != k.segment
      && k.auth != k.siv && k.auth != k.block && k.auth != k.segment
      && k.siv != k.block && k.siv != k.segment && k.block != k.segment
  {
    var p := Ascii("KRCM-v5-subkey");
    var enc, auth, siv := Ascii("KRCM-v5-enc"), Ascii("KRCM-v5-auth"), Ascii("KRCM-v5-siv");
    var block, segment := Ascii("KRCM-v5-block"), Ascii("KRCM-v5-segment");
    assert enc[8] == 'e' as int && siv[8] == 's' as int;
    hide Ascii, HmacShort, Subkey;
    SubkeySeesInfo(P, root, enc, auth);
    SubkeySeesInfo(P, root, enc, siv);
    SubkeySeesInfo(P, root, enc, block);
    SubkeySeesInfo(P, root, enc, segment);
    SubkeySeesInfo(P, root, auth, siv);
    SubkeySeesInfo(P, root, auth, block);
    SubkeySeesInfo(P, root, auth, segment);
    SubkeySeesInfo(P, root, siv, block);
    SubkeySeesInfo(P, root, siv, segment);
    SubkeySeesInfo(P, root, block, segment);
  }

  lemma SubkeySeesInfo(P: Primitives, root: Digest, x: bytes, y: bytes)
    requires HmacShort(P, root) && |x| < 18 && |y| < 18
    ensures Subkey(P, root, x) == Subkey(P, root, y) <==> x == y
  {
    var p := Ascii("KRCM-v5-subkey");
    assert (p + x)[14..] == x && (p + y)[14..] == y;
  }

  /** Root keys agree exactly when the KDF's values on password, salt and cost agree. */
  lemma RootKeySeesPassword(P: Primitives, p: bytes, s: bytes, k: KdfParams, p': bytes, s': bytes, k': KdfParams)
    requires |s| == |s'| == 16 && KeyDerivable(P, p, s, k) && KeyDerivable(P, p', s', k')
    requires k.Pbkdf2? <==> k'.Pbkdf2?
    ensures DeriveRootKey(P, p, s, k) == DeriveRootKey(P, p', s', k') <==>
      if k.Pbkdf2? then P.pbkdf2Root(p, s, k.iterations) == P.pbkdf2Root(p', s', k'.iterations)
      else P.scrypt(p, s, k.nLog2, k.r, k.p) == P.scrypt(p', s', k'.nLog2, k'.r, k'.p)
  {
  }
}
