/** Inverse tables and the position layer. */
module Permutation {
  import opened Bytes
  import opened Shuffle

  lemma SwapMultiset(v: seq<nat>, i: nat, j: nat)
    requires i < |v| && j < |v|
    ensures multiset(Swap(v, i, j)) == multiset(v)
  {
  }

  lemma {:induction false} ShuffleDownMultiset(v: seq<nat>, c: seq<nat>)
    requires ValidChoices(c) && |c| <= |v|
    ensures multiset(ShuffleDown(v, c)) == multiset(v)
    decreases |c|
  {
    if c != [] {
      var i := |c| - 1;
      SwapMultiset(v, i, c[i]);
      hide Swap;
      ShuffleDownMultiset(Swap(v, i, c[i]), c[..i]);
    }
  }

  /** A permutation holds every index once: it is a rearrangement of the identity. */
  lemma PermutationIsRearrangement(p: seq<nat>)
    requires IsPermutation(p)
    ensures multiset(p) == multiset(Identity(|p|))
    ensures forall x: nat :: x < |p| ==> x in p
  {
    ShuffleIsBijection();
    assert Shuffled(ChoicesOf(p)) == p;
    ShuffleDownMultiset(Identity(|p|), ChoicesOf(p));
    forall x: nat | x < |p| ensures x in p {
      assert Identity(|p|)[x] in multiset(Identity(|p|));
    }
  }

  /** The last index below k that holds x; 0, the initial value, when there is none. */
  function LastIndex(p: seq<nat>, x: nat, k: nat): (i: nat)
    requires k <= |p|
    ensures x in p[..k] ==> i < k && p[i] == x
    ensures x !in p[..k] ==> i == 0
  {
    if k == 0 then 0 else if p[k - 1] == x then k - 1 else LastIndex(p, x, k - 1)
  }

  function InverseTable(p: seq<nat>): (inv: seq<nat>)
    ensures |inv| == |p|
  {
    seq(|p|, x requires 0 <= x => LastIndex(p, x, |p|))
  }

  method InversePermutation(p: seq<nat>) returns (inv: seq<nat>)
    requires InRange(p, |p|)
    ensures inv == InverseTable(p)
  {
    var table := new nat[|p|](_ => 0);
    for i := 0 to |p|
      invariant forall x :: 0 <= x < |p| ==> table[x] == LastIndex(p, x, i)
    {
      table[p[i]] := i;
    }
    inv := table[..];
  }

  /** For a permutation the table is its two-sided inverse. */
  lemma InverseTableInverts(p: seq<nat>)
    requires IsPermutation(p)
    ensures InRange(InverseTable(p), |p|)
    ensures forall i :: 0 <= i < |p| ==> InverseTable(p)[p[i]] == i
    ensures forall x :: 0 <= x < |p| ==> p[InverseTable(p)[x]] == x
  {
    PermutationIsRearrangement(p);
    assert p[..|p|] == p;
    forall i | 0 <= i < |p| ensures InverseTable(p)[p[i]] == i {
      assert p[i] in p;
    }
  }

  // ----- The position layer -----

  /** out[i] = block[perm[i]]. */
  function Permuted(block: bytes, perm: seq<nat>): (out: bytes)
    requires |block| == |perm| && InRange(perm, |perm|)
    ensures |out| == |block|
  {
    seq(|block|, i requires 0 <= i < |block| => block[perm[i]])
  }

  /** out[perm[i]] = block[i], later writes winning, over a zeroed block. */
  function Unpermuted(block: bytes, perm: seq<nat>): (out: bytes)
    requires |block| == |perm| && InRange(perm, |perm|)
    ensures |out| == |block|
  {
    seq(|block|, x requires 0 <= x < |block| => if x in perm then block[LastIndex(perm, x, |perm|)] else 0)
  }

  method ApplyPositionPermutation(block: bytes, perm: seq<nat>) returns (out: bytes)
    requires |block| == |perm| && InRange(perm, |perm|)
    ensures out == Permuted(block, perm)
  {
    var buffer := new byte[|block|](_ => 0);
    for i := 0 to |block|
      invariant forall k :: 0 <= k < i ==> buffer[k] == block[perm[k]]
    {
      buffer[i] := block[perm[i]];
    }
    out := buffer[..];
  }

  method InvertPositionPermutation(block: bytes, perm: seq<nat>) returns (out: bytes)
    requires |block| == |perm| && InRange(perm, |perm|)
    ensures out == Unpermuted(block, perm)
  {
    var buffer := new byte[|block|](_ => 0);
    for i := 0 to |perm|
      invariant forall x :: 0 <= x < |block| ==>
        buffer[x] == if x in perm[..i] then block[LastIndex(perm, x, i)] else 0
    {
      assert perm[..i + 1] == perm[..i] + [perm[i]];
      buffer[perm[i]] := block[i];
    }
    assert perm[..|perm|] == perm;
    out := buffer[..];
  }

  /** The two directions undo each other, whichever comes first. */
  lemma PositionRoundTrip(block: bytes, perm: seq<nat>)
    requires |block| == |perm| && IsPermutation(perm)
    ensures Unpermuted(Permuted(block, perm), perm) == block
    ensures Permuted(Unpermuted(block, perm), perm) == block
  {
    InverseTableInverts(perm);
    PermutationIsRearrangement(perm);
    assert forall x :: 0 <= x < |perm| ==> InverseTable(perm)[x] == LastIndex(perm, x, |perm|);
    assert forall i :: 0 <= i < |perm| ==> perm[i] in perm;
  }
}
