/** Byte strings, machine words as bounded integers, and big-endian coding. */
module Bytes {

  const TWO32: int := 0x1_0000_0000
  const TWO64: int := 0x1_0000_0000_0000_0000

  type byte = x: int | 0 <= x < 256
  type bytes = seq<byte>
  type u32 = x: int | 0 <= x < 0x1_0000_0000
  type u64 = x: int | 0 <= x < 0x1_0000_0000_0000_0000

  /** `wrapping_add` on bytes. */
  function AddByte(a: int, b: int): byte
  {
    (a + b) % 256
  }

  /** `wrapping_sub` on bytes. */
  function SubByte(a: int, b: int): byte
  {
    (a - b) % 256
  }

  function Pow256(k: nat): (p: nat)
    ensures p >= 1
  {
    if k == 0 then 1 else 256 * Pow256(k - 1)
  }

  lemma Pow256Values()
    ensures Pow256(1) == 256 && Pow256(2) == 0x1_0000 && Pow256(4) == TWO32 && Pow256(8) == TWO64
  {
    assert Pow256(3) == 256 * Pow256(2);
    assert Pow256(5) == 256 * Pow256(4);
    assert Pow256(6) == 256 * Pow256(5);
    assert Pow256(7) == 256 * Pow256(6);
  }

  /** The low k bytes of v, most significant first: `to_be_bytes` after a truncating cast. */
  function EncodeBE(v: nat, k: nat): (s: bytes)
    ensures |s| == k
  {
    if k == 0 then [] else EncodeBE(v / 256, k - 1) + [v % 256]
  }

  function DecodeBE(s: bytes): (v: nat)
    ensures v < Pow256(|s|)
  {
    if s == [] then 0 else DecodeBE(s[..|s| - 1]) * 256 + s[|s| - 1]
  }

  lemma {:induction false} DecodeEncodeBE(v: nat, k: nat)
    requires v < Pow256(k)
    ensures DecodeBE(EncodeBE(v, k)) == v
  {
    if k > 0 {
      DecodeEncodeBE(v / 256, k - 1);
      assert EncodeBE(v, k)[..k - 1] == EncodeBE(v / 256, k - 1);
    }
  }

  lemma {:induction false} EncodeDecodeBE(s: bytes)
    ensures EncodeBE(DecodeBE(s), |s|) == s
  {
    if s != [] {
      EncodeDecodeBE(s[..|s| - 1]);
      assert DecodeBE(s) / 256 == DecodeBE(s[..|s| - 1]);
    }
  }

  function BE2(v: nat): (s: bytes)
    ensures |s| == 2
  {
    EncodeBE(v, 2)
  }

  function BE4(v: nat): (s: bytes)
    ensures |s| == 4
  {
    EncodeBE(v, 4)
  }

  function BE8(v: nat): (s: bytes)
    ensures |s| == 8
  {
    EncodeBE(v, 8)
  }

  function ReadU16(s: bytes): (v: nat)
    requires |s| == 2
    ensures v < 0x1_0000
  {
    Pow256Values();
    DecodeBE(s)
  }

  function ReadU32(s: bytes): u32
    requires |s| == 4
  {
    Pow256Values();
    DecodeBE(s)
  }

  function ReadU64(s: bytes): u64
    requires |s| == 8
  {
    Pow256Values();
    DecodeBE(s)
  }

  lemma BE2Read(s: bytes)
    requires |s| == 2
    ensures BE2(ReadU16(s)) == s
  {
    EncodeDecodeBE(s);
  }

  lemma BE4Read(s: bytes)
    requires |s| == 4
    ensures BE4(ReadU32(s)) == s
  {
    EncodeDecodeBE(s);
  }

  lemma BE8Read(s: bytes)
    requires |s| == 8
    ensures BE8(ReadU64(s)) == s
  {
    EncodeDecodeBE(s);
  }

  lemma ReadBE2(v: nat)
    requires v < 0x1_0000
    ensures ReadU16(BE2(v)) == v
  {
    Pow256Values();
    DecodeEncodeBE(v, 2);
  }

  lemma ReadBE4(v: u32)
    ensures ReadU32(BE4(v)) == v
  {
    Pow256Values();
    DecodeEncodeBE(v, 4);
  }

  lemma ReadBE8(v: u64)
    ensures ReadU64(BE8(v)) == v
  {
    Pow256Values();
    DecodeEncodeBE(v, 8);
  }

  /** The bytes of an ASCII literal. */
  function Ascii(s: string): (b: bytes)
    requires forall i :: 0 <= i < |s| ==> s[i] < 128 as char
    ensures |b| == |s|
    ensures forall i :: 0 <= i < |s| ==> b[i] == s[i] as int
  {
    seq(|s|, i requires 0 <= i < |s| => s[i] as int)
  }

  function Repeat(b: byte, n: nat): (s: bytes)
    ensures |s| == n && forall i :: 0 <= i < n ==> s[i] == b
  {
    seq(n, _ => b)
  }

  function Zeros(n: nat): bytes
  {
    Repeat(0, n)
  }

  /** `x | 1`. */
  function SetLowBit(x: nat): (y: nat)
    ensures y % 2 == 1 && x <= y <= x + 1
  {
    x - x % 2 + 1
  }

  /** The concatenation of a list of byte strings. */
  function Concat(parts: seq<bytes>): bytes
  {
    if parts == [] then [] else parts[0] + Concat(parts[1..])
  }

  lemma {:induction false} ConcatAppend(a: seq<bytes>, b: seq<bytes>)
    ensures Concat(a + b) == Concat(a) + Concat(b)
  {
    if a == [] {
      assert a + b == b;
    } else {
      ConcatAppend(a[1..], b);
      assert (a + b)[1..] == a[1..] + b;
      assert Concat(a + b) == a[0] + (Concat(a[1..]) + Concat(b));
    }
  }

  lemma SliceOfSlice(s: bytes, a: nat, b: nat, c: nat, d: nat)
    requires a <= b <= |s| && c <= d <= b - a
    ensures s[a..b][c..d] == s[a + c..a + d]
  {
    forall k | 0 <= k < d - c ensures s[a..b][c..d][k] == s[a + c..a + d][k] {
    }
  }
}
