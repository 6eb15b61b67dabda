/**
 * The two-pass byte diffusion, for any block length N. The mask has 2N bytes: the first half
 * feeds the forward pass, the second half the backward pass.
 */
module Diffusion {
  import opened Bytes
  import opened Modular

  /** Forward pass: out[i] = in[i] + out[i-1] + mask[i]; byte 0 is kept. */
  function Forward(s: bytes, mask: bytes): (t: bytes)
    requires |s| <= |mask|
    ensures |t| == |s|
  {
    if |s| <= 1 then s else
      var n := |s| - 1;
      var t := Forward(s[..n], mask);
      t + [AddByte(AddByte(s[n], t[n - 1]), mask[n])]
  }

  /** Backward pass: out[i] = in[i] + out[i+1] + mask[i]; the last byte is kept. */
  function Backward(s: bytes, mask: bytes): (t: bytes)
    requires |s| <= |mask|
    ensures |t| == |s|
  {
    if |s| <= 1 then s else
      var t := Backward(s[1..], mask[1..]);
      [AddByte(AddByte(s[0], t[0]), mask[0])] + t
  }

  function Diffused(s: bytes, mask: bytes): (t: bytes)
    requires |mask| == 2 * |s|
    ensures |t| == |s|
  {
    Backward(Forward(s, mask), mask[|s|..])
  }

  /** The inverse of the forward pass, each byte from the original neighbour. */
  function Unforward(t: bytes, mask: bytes): (s: bytes)
    requires |t| <= |mask|
    ensures |s| == |t|
  {
    seq(|t|, i requires 0 <= i < |t| => if i == 0 then t[0] else SubByte(SubByte(t[i], t[i - 1]), mask[i]))
  }

  function Unbackward(t: bytes, mask: bytes): (s: bytes)
    requires |t| <= |mask|
    ensures |s| == |t|
  {
    seq(|t|, i requires 0 <= i < |t| => if i == |t| - 1 then t[i] else SubByte(SubByte(t[i], t[i + 1]), mask[i]))
  }

  function Undiffused(t: bytes, mask: bytes): (s: bytes)
    requires |mask| == 2 * |t|
    ensures |s| == |t|
  {
    Unforward(Unbackward(t, mask[|t|..]), mask)
  }

  lemma {:induction false} ForwardAt(s: bytes, mask: bytes, i: nat)
    requires i < |s| <= |mask|
    ensures Forward(s, mask)[i] == if i == 0 then s[0] else AddByte(AddByte(s[i], Forward(s, mask)[i - 1]), mask[i])
  {
    if 1 < |s| && i < |s| - 1 {
      ForwardAt(s[..|s| - 1], mask, i);
    }
  }

  lemma {:induction false} BackwardAt(s: bytes, mask: bytes, i: nat)
    requires i < |s| <= |mask|
    ensures Backward(s, mask)[i] ==
      if i == |s| - 1 then s[i] else AddByte(AddByte(s[i], Backward(s, mask)[i + 1]), mask[i])
  {
    if 0 < i {
      BackwardAt(s[1..], mask[1..], i - 1);
    }
  }

  lemma UnforwardAt(t: bytes, mask: bytes, i: nat)
    requires i < |t| <= |mask|
    ensures Unforward(t, mask)[i] == if i == 0 then t[0] else SubByte(SubByte(t[i], t[i - 1]), mask[i])
  {
    hide SubByte;
  }

  lemma UnbackwardAt(t: bytes, mask: bytes, i: nat)
    requires i < |t| <= |mask|
    ensures Unbackward(t, mask)[i] == if i == |t| - 1 then t[i] else SubByte(SubByte(t[i], t[i + 1]), mask[i])
  {
    hide SubByte;
  }

  // ----- The loops -----

  method DiffuseBytes(state: array<byte>, mask: bytes)
    requires state.Length > 0 && |mask| == 2 * state.Length
    modifies state
    ensures state[..] == Diffused(old(state[..]), mask)
  {
    hide AddByte, SubByte, Forward, Backward;
    var n := state.Length;
    ghost var s := state[..];
    ghost var t := Forward(s, mask);
    ForwardAt(s, mask, 0);
    for i := 1 to n
      invariant forall k :: 0 <= k < i ==> state[k] == t[k]
      invariant forall k :: i <= k < n ==> state[k] == s[k]
    {
      ForwardAt(s, mask, i);
      state[i] := AddByte(AddByte(state[i], state[i - 1]), mask[i]);
    }
    assert state[..] == t;
    ghost var u := Backward(t, mask[n..]);
    BackwardAt(t, mask[n..], n - 1);
    for i := n - 1 downto 0
      invariant forall k :: i <= k < n ==> state[k] == u[k]
      invariant forall k :: 0 <= k < i ==> state[k] == t[k]
    {
      BackwardAt(t, mask[n..], i);
      state[i] := AddByte(AddByte(state[i], state[i + 1]), mask[n + i]);
    }
    assert state[..] == u;
  }

  method UndiffuseBytes(state: array<byte>, mask: bytes)
    requires state.Length > 0 && |mask| == 2 * state.Length
    modifies state
    ensures state[..] == Undiffused(old(state[..]), mask)
  {
    hide AddByte, SubByte, Unforward, Unbackward;
    var n := state.Length;
    ghost var u := state[..];
    ghost var t := Unbackward(u, mask[n..]);
    UnbackwardAt(u, mask[n..], n - 1);
    for i := 0 to n - 1
      invariant forall k :: 0 <= k < i ==> state[k] == t[k]
      invariant forall k :: i <= k < n ==> state[k] == u[k]
    {
      UnbackwardAt(u, mask[n..], i);
      state[i] := SubByte(SubByte(state[i], state[i + 1]), mask[n + i]);
    }
    assert state[..] == t;
    ghost var s := Unforward(t, mask);
    UnforwardAt(t, mask, 0);
    for i := n downto 1
      invariant forall k :: i <= k < n ==> state[k] == s[k]
      invariant forall k :: 0 <= k < i ==> state[k] == t[k]
    {
      UnforwardAt(t, mask, i);
      state[i] := SubByte(SubByte(state[i], state[i - 1]), mask[i]);
    }
    assert state[..] == s;
  }

  // ----- Inverses -----

  /** `undiffuse_bytes` undoes `diffuse_bytes` and the other way round. */
  lemma DiffusionRoundTrip(s: bytes, mask: bytes)
    requires |mask| == 2 * |s|
    ensures Undiffused(Diffused(s, mask), mask) == s
    ensures Diffused(Undiffused(s, mask), mask) == s
  {
    var tail := mask[|s|..];
    UnforwardForward(s, mask);
    UnbackwardBackward(Forward(s, mask), tail);
    BackwardUnbackward(s, tail);
    ForwardUnforward(Unbackward(s, tail), mask);
  }

  lemma ByteStep(a: int, x: int, m: int)
    requires 0 <= a < 256
    ensures SubByte(SubByte(AddByte(AddByte(a, x), m), x), m) == a
    ensures AddByte(AddByte(SubByte(SubByte(a, x), m), x), m) == a
  {
    ModAddLeft(a + x, m, 256);
    ModAddLeft(a + x + m, -x, 256);
    ModAddLeft(a + m, -m, 256);
    ModAddLeft(a - x, -m, 256);
    ModAddLeft(a - x - m, x, 256);
    ModAddLeft(a - m, m, 256);
  }

  lemma UnforwardForward(s: bytes, mask: bytes)
    requires |s| <= |mask|
    ensures Unforward(Forward(s, mask), mask) == s
  {
    hide AddByte, SubByte, Forward, Unforward;
    forall i | 0 <= i < |s| ensures Unforward(Forward(s, mask), mask)[i] == s[i] {
      ForwardAt(s, mask, i);
      UnforwardAt(Forward(s, mask), mask, i);
      if i > 0 {
        ByteStep(s[i], Forward(s, mask)[i - 1], mask[i]);
      }
    }
  }

  lemma UnbackwardBackward(s: bytes, mask: bytes)
    requires |s| <= |mask|
    ensures Unbackward(Backward(s, mask), mask) == s
  {
    hide AddByte, SubByte, Backward, Unbackward;
    forall i | 0 <= i < |s| ensures Unbackward(Backward(s, mask), mask)[i] == s[i] {
      BackwardAt(s, mask, i);
      UnbackwardAt(Backward(s, mask), mask, i);
      if i < |s| - 1 {
        ByteStep(s[i], Backward(s, mask)[i + 1], mask[i]);
      }
    }
  }

  lemma {:induction false} ForwardUnforward(t: bytes, mask: bytes)
    requires |t| <= |mask|
    ensures Forward(Unforward(t, mask), mask) == t
  {
    hide AddByte, SubByte;
    if |t| > 1 {
      var n := |t| - 1;
      ForwardUnforward(t[..n], mask);
      assert Unforward(t, mask)[..n] == Unforward(t[..n], mask);
      ByteStep(t[n], t[n - 1], mask[n]);
      assert t == t[..n] + [t[n]];
    }
  }

  lemma {:induction false} BackwardUnbackward(t: bytes, mask: bytes)
    requires |t| <= |mask|
    ensures Backward(Unbackward(t, mask), mask) == t
  {
    hide AddByte, SubByte;
    if |t| > 1 {
      BackwardUnbackward(t[1..], mask[1..]);
      assert Unbackward(t, mask)[1..] == Unbackward(t[1..], mask[1..]);
      ByteStep(t[0], t[1], mask[0]);
      assert t == [t[0]] + t[1..];
    }
  }
}
