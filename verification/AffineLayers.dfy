/**
 * The two layers of the legacy version-3 engine, which only the Python reference has: affine
 * byte substitution and affine positions in place of the keyed shuffles.
 */
module AffineLayers {
  import opened Bytes
  import opened Modular
  import opened Newton
  import opened Primitives
  import opened Shuffle

  /** `pow(a, -1, 256)`: the one byte that inverts a. */
  function InverseByte(a: int): (r: byte)
    requires a % 2 == 1
    ensures (a * r) % 256 == 1
  {
    SixStepsInvertModulo(a, 256);
    ModMulRight(a, Iterate(a, 6), 256);
    Iterate(a, 6) % 256
  }

  lemma InverseByteIsUnique(a: int, r: byte)
    requires a % 2 == 1 && (a * r) % 256 == 1
    ensures r == InverseByte(a)
  {
    hide InverseByte;
    InverseUnique(a, r, InverseByte(a), 256);
    ModSmall(r, 256);
    ModSmall(InverseByte(a), 256);
  }

  function AffineByte(a: int, b: int, mask: int, x: int): byte
  {
    (a * AddByte(x, mask) + b) % 256
  }

  function UnaffineByte(a: int, b: int, mask: int, y: int): byte
    requires a % 2 == 1
  {
    (InverseByte(a) * SubByte(y, b) - mask) % 256
  }

  lemma AffineByteRoundTrip(a: int, b: int, mask: int, x: byte)
    requires a % 2 == 1
    ensures UnaffineByte(a, b, mask, AffineByte(a, b, mask, x)) == x
    ensures AffineByte(a, b, mask, UnaffineByte(a, b, mask, x)) == x
  {
    var v := InverseByte(a);
    hide InverseByte;
    AffineThere(a, b, v, mask, x);
    AffineBack(a, b, v, mask, x);
  }

  lemma SubUndoesAdd(q: int, x: byte, m: int)
    requires q % 256 == AddByte(x, m)
    ensures (q - m) % 256 == x
  {
    ModAddLeft(q, -m, 256);
    ModAddLeft(x as int + m, -m, 256);
  }

  lemma AddUndoesSub(q: int, y: byte, m: int)
    requires q % 256 == SubByte(y, m)
    ensures (q + m) % 256 == y
  {
    ModAddLeft(q, m, 256);
    ModAddLeft(y as int - m, m, 256);
  }

  lemma AffineThere(a: int, b: int, v: int, mask: int, x: byte)
    requires (a * v) % 256 == 1
    ensures (v * SubByte((a * AddByte(x, mask) + b) % 256, b) - mask) % 256 == x
  {
    var t := AddByte(x, mask) as int;
    var p := a * t;
    ModAddLeft(p + b, -b, 256);
    var z := SubByte((p + b) % 256, b) as int;
    assert z == p % 256;
    assert v * a == a * v;
    InverseCancels(v, a, t, 256);
    SubUndoesAdd(v * z, x, mask);
  }

  lemma AffineBack(a: int, b: int, v: int, mask: int, y: byte)
    requires (a * v) % 256 == 1
    ensures (a * AddByte((v * SubByte(y, b) - mask) % 256, mask) + b) % 256 == y
  {
    var t := SubByte(y, b) as int;
    var p := v * t;
    ModAddLeft(p - mask, mask, 256);
    var z := AddByte((p - mask) % 256, mask) as int;
    assert z == p % 256;
    InverseCancels(a, v, t, 256);
    AddUndoesSub(a * z, y, b);
  }

  function AffineSubstituted(block: bytes, seed: Digest, mask: bytes): (out: bytes)
    requires |block| == |mask|
    ensures |out| == |block|
  {
    seq(|block|, i requires 0 <= i < |block| => AffineByte(SetLowBit(seed[0]), seed[1], mask[i], block[i]))
  }

  function AffineUnsubstituted(block: bytes, seed: Digest, mask: bytes): (out: bytes)
    requires |block| == |mask|
    ensures |out| == |block|
  {
    seq(|block|, i requires 0 <= i < |block| => UnaffineByte(SetLowBit(seed[0]), seed[1], mask[i], block[i]))
  }

  method AffineSubstituteBytes(block: bytes, seed: Digest, mask: bytes) returns (out: bytes)
    requires |block| == |mask|
    ensures out == AffineSubstituted(block, seed, mask)
  {
    hide AffineByte, SetLowBit;
    var a, b := SetLowBit(seed[0]), seed[1];
    var buffer := new byte[|block|](_ => 0);
    for i := 0 to |block|
      invariant forall k :: 0 <= k < i ==> buffer[k] == AffineByte(a, b, mask[k], block[k])
    {
      buffer[i] := AffineByte(a, b, mask[i], block[i]);
    }
    out := buffer[..];
  }

  method AffineUnsubstituteBytes(block: bytes, seed: Digest, mask: bytes) returns (out: bytes)
    requires |block| == |mask|
    ensures out == AffineUnsubstituted(block, seed, mask)
  {
    hide UnaffineByte, SetLowBit;
    var a, b := SetLowBit(seed[0]), seed[1];
    var buffer := new byte[|block|](_ => 0);
    for i := 0 to |block|
      invariant forall k :: 0 <= k < i ==> buffer[k] == UnaffineByte(a, b, mask[k], block[k])
    {
      buffer[i] := UnaffineByte(a, b, mask[i], block[i]);
    }
    out := buffer[..];
  }

  lemma AffineSubstitutionRoundTrip(block: bytes, seed: Digest, mask: bytes)
    requires |block| == |mask|
    ensures AffineUnsubstituted(AffineSubstituted(block, seed, mask), seed, mask) == block
    ensures AffineSubstituted(AffineUnsubstituted(block, seed, mask), seed, mask) == block
  {
    hide AffineByte, UnaffineByte, SetLowBit;
    forall i | 0 <= i < |block|
      ensures AffineUnsubstituted(AffineSubstituted(block, seed, mask), seed, mask)[i] == block[i]
      ensures AffineSubstituted(AffineUnsubstituted(block, seed, mask), seed, mask)[i] == block[i]
    {
      AffineByteRoundTrip(SetLowBit(seed[0]), seed[1], mask[i], block[i]);
    }
  }

  /** The position multiplier `(seed[2] | 1) & 31`, with the reference's fallback for zero. */
  function PositionFactor(seed: Digest): nat
  {
    var a := SetLowBit(seed[2]) % 32;
    if a == 0 then 1 else a
  }

  /** The map i -> a*i + b modulo 32. */
  function AffinePositions(seed: Digest): (p: seq<nat>)
    ensures |p| == 32 && InRange(p, 32)
  {
    seq(32, i requires 0 <= i < 32 => (PositionFactor(seed) * i + seed[3] % 32) % 32)
  }

  /** The multiplier is odd, so its zero fallback never runs and the map is a permutation. */
  lemma AffinePositionsPermute(seed: Digest)
    ensures PositionFactor(seed) == SetLowBit(seed[2]) % 32 && PositionFactor(seed) % 2 == 1
    ensures IsPermutation(AffinePositions(seed))
  {
    var a, b, p := PositionFactor(seed), seed[3] % 32, AffinePositions(seed);
    forall i, j | 0 <= i < j < 32 ensures p[i] != p[j] {
      AffinePositionsDiffer(a, b, i, j);
    }
  }

  /** The map starts at `seed[3]` and goes on in steps of `seed[2] | 1`, both modulo 32. */
  lemma AffinePositionsWalk(seed: Digest, i: nat)
    requires i < 32
    ensures var p := AffinePositions(seed);
      && p[0] == seed[3] % 32
      && (i < 31 ==> p[i + 1] == (p[i] + SetLowBit(seed[2])) % 32)
  {
    hide SetLowBit;
    AffinePositionsPermute(seed);
    var a, b := PositionFactor(seed), seed[3] % 32;
    AffinePositionAt(seed, 0);
    AffinePositionAt(seed, i);
    if i < 31 {
      AffinePositionAt(seed, i + 1);
    }
    hide PositionFactor, IsPermutation, AffinePositions;
    PositionStep(a, b, i, SetLowBit(seed[2]));
  }

  lemma AffinePositionAt(seed: Digest, i: nat)
    requires i < 32
    ensures AffinePositions(seed)[i] == (PositionFactor(seed) * i + seed[3] % 32) % 32
  {
    hide PositionFactor;
  }

  lemma PositionStep(a: int, b: int, i: int, s: int)
    requires a == s % 32
    ensures (a * 0 + b % 32) % 32 == b % 32
    ensures (a * (i + 1) + b) % 32 == ((a * i + b) % 32 + s) % 32
  {
    var x := a * i + b;
    assert a * (i + 1) + b == x + a;
    ModAddLeft(x, s, 32);
    ModAddLeft(s, x, 32);
    assert s % 32 + x == x + a && s + x == x + s;
  }

  lemma AffinePositionsDiffer(a: int, b: int, i: nat, j: nat)
    requires a % 2 == 1 && i < j < 32
    ensures (a * i + b) % 32 != (a * j + b) % 32
  {
    var x, d := a * i + b, (j - i) * a;
    assert a * j + b == x + d;
    if x % 32 == (x + d) % 32 {
      EqualRemainders(x, d);
      OddFactorCancels(j - i, a, 32);
      assert false;
    }
  }

  lemma EqualRemainders(x: int, d: int)
    requires x % 32 == (x + d) % 32
    ensures d % 32 == 0
  {
  }
}
