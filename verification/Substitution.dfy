/** The keyed byte substitution. */
module Substitution {
  import opened Bytes
  import opened Permutation
  import opened Shuffle

  /** out[i] = perm[block[i] + mask[i] mod 256]. */
  function Substituted(block: bytes, perm: seq<nat>, mask: bytes): (out: bytes)
    requires |block| == |mask| && |perm| == 256 && InRange(perm, 256)
    ensures |out| == |block|
  {
    seq(|block|, i requires 0 <= i < |block| => perm[AddByte(block[i], mask[i])])
  }

  /** out[i] = inv[block[i]] - mask[i] mod 256, with inv the inverse table of perm. */
  function Unsubstituted(block: bytes, perm: seq<nat>, mask: bytes): (out: bytes)
    requires |block| == |mask| && |perm| == 256
    ensures |out| == |block|
  {
    seq(|block|, i requires 0 <= i < |block| => SubByte(InverseTable(perm)[block[i]], mask[i]))
  }

  method SubstituteBytes(block: bytes, perm: seq<nat>, mask: bytes) returns (out: bytes)
    requires |block| == |mask| && |perm| == 256 && InRange(perm, 256)
    ensures out == Substituted(block, perm, mask)
  {
    var buffer := new byte[|block|](_ => 0);
    for i := 0 to |block|
      invariant forall k :: 0 <= k < i ==> buffer[k] == perm[AddByte(block[k], mask[k])]
    {
      buffer[i] := perm[AddByte(block[i], mask[i])];
    }
    out := buffer[..];
  }

  method UnsubstituteBytes(block: bytes, perm: seq<nat>, mask: bytes) returns (out: bytes)
    requires |block| == |mask| && |perm| == 256 && InRange(perm, 256)
    ensures out == Unsubstituted(block, perm, mask)
  {
    var inv := InversePermutation(perm);
    var buffer := new byte[|block|](_ => 0);
    for i := 0 to |block|
      invariant forall k :: 0 <= k < i ==> buffer[k] == SubByte(inv[block[k]], mask[k])
    {
      buffer[i] := SubByte(inv[block[i]], mask[i]);
    }
    out := buffer[..];
  }

  lemma SubstitutionRoundTrip(block: bytes, perm: seq<nat>, mask: bytes)
    requires |block| == |mask| && |perm| == 256 && IsPermutation(perm)
    ensures Unsubstituted(Substituted(block, perm, mask), perm, mask) == block
    ensures Substituted(Unsubstituted(block, perm, mask), perm, mask) == block
  {
    InverseTableInverts(perm);
    hide InverseTable, LastIndex;
    var there := Substituted(block, perm, mask);
    var back := Unsubstituted(block, perm, mask);
    forall i | 0 <= i < |block|
      ensures Unsubstituted(there, perm, mask)[i] == block[i]
      ensures Substituted(back, perm, mask)[i] == block[i]
    {
      assert InverseTable(perm)[there[i]] == AddByte(block[i], mask[i]);
      assert perm[InverseTable(perm)[block[i]]] == block[i];
      assert AddByte(back[i], mask[i]) == InverseTable(perm)[block[i]];
    }
  }
}
