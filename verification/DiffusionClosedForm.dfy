/** The two diffusion passes as one linear map, and how far a single changed byte reaches. */
module DiffusionClosedForm {
  import opened Bytes
  import opened Diffusion
  import opened Modular
  import Newton

  function Max(a: int, b: int): int
  {
    if a < b then b else a
  }

  function Total(x: seq<int>): int
  {
    if x == [] then 0 else Total(x[..|x| - 1]) + x[|x| - 1]
  }

  /** The sum over j of (n - max(i, j)) * x[j]. */
  function Weighted(x: seq<int>, i: nat, n: nat): int
  {
    if x == [] then 0 else
      var j := |x| - 1;
      Weighted(x[..j], i, n) + (n - Max(i, j)) * x[j]
  }

  /** The bytes with the forward mask added; byte 0 has none. */
  function Masked(s: bytes, mask: bytes): (x: seq<int>)
    requires |s| <= |mask|
    ensures |x| == |s|
  {
    seq(|s|, j requires 0 <= j < |s| => if j == 0 then s[0] else s[j] as int + mask[j])
  }

  /** The backward mask bytes from index i on, without the last. */
  function MaskTail(mask: bytes, i: nat): int
    decreases |mask| - i
  {
    if i + 1 >= |mask| then 0 else mask[i] + MaskTail(mask, i + 1)
  }

  lemma {:induction false} WeightedStep(x: seq<int>, i: nat, n: nat)
    ensures Weighted(x, i, n) == Weighted(x, i + 1, n) + Total(if i + 1 <= |x| then x[..i + 1] else x)
  {
    if x != [] {
      var j := |x| - 1;
      WeightedStep(x[..j], i, n);
      if i < j {
        assert x[..j][..i + 1] == x[..i + 1];
      } else {
        assert (n - Max(i, j)) * x[j] == (n - Max(i + 1, j)) * x[j] + x[j];
        assert i == j ==> x[..i + 1] == x;
        assert i == j ==> x[..j] == x[..j][..];
      }
    }
  }

  lemma {:induction false} WeightedLast(x: seq<int>, n: nat)
    requires |x| <= n
    ensures n > 0 ==> Weighted(x, n - 1, n) == Total(x)
  {
    if x != [] {
      WeightedLast(x[..|x| - 1], n);
    }
  }

  lemma {:induction false} ForwardTotal(s: bytes, mask: bytes, i: nat)
    requires i < |s| <= |mask|
    ensures Forward(s, mask)[i] == Total(Masked(s, mask)[..i + 1]) % 256
  {
    hide Forward, AddByte;
    var x := Masked(s, mask);
    ForwardAt(s, mask, i);
    assert x[..i + 1][..i] == x[..i];
    if i == 0 {
      assert Total(x[..1]) == Total(x[..0]) + x[0];
    } else {
      ForwardTotal(s, mask, i - 1);
      ModSmall(s[i], 256);
      AddThree(s[i], Total(x[..i]), mask[i]);
    }
  }

  /** out[i] = sum of (n - max(i, j)) * in[j], plus mask terms, modulo 256. */
  lemma {:induction false} ClosedForm(s: bytes, mask: bytes, i: nat)
    requires |mask| == 2 * |s| && i < |s|
    ensures Diffused(s, mask)[i]
      == (Weighted(Masked(s, mask), i, |s|) + MaskTail(mask[|s|..], i)) % 256
    decreases |s| - i
  {
    hide Forward, Backward, Weighted, Total;
    var n, x, tail := |s|, Masked(s, mask), mask[|s|..];
    BackwardAt(Forward(s, mask), tail, i);
    ForwardTotal(s, mask, i);
    if i == n - 1 {
      WeightedLast(x, n);
      assert x[..n] == x;
    } else {
      ClosedForm(s, mask, i + 1);
      WeightedStep(x, i, n);
      AddThree(Total(x[..i + 1]), Weighted(x, i + 1, n) + MaskTail(tail, i + 1), tail[i]);
    }
  }

  lemma AddThree(a: int, b: int, m: int)
    ensures AddByte(AddByte(a % 256, b % 256), m) == (a + b + m) % 256
  {
    ModAddBoth(a, b, 256);
    ModAddLeft(a + b, m, 256);
  }

  lemma {:induction false} WeightedUpdate(x: seq<int>, j: nat, v: int, i: nat, n: nat)
    requires j < |x|
    ensures Weighted(x[j := v], i, n) == Weighted(x, i, n) + (n - Max(i, j)) * (v - x[j])
  {
    var y, m := x[j := v], |x| - 1;
    if j == m {
      assert y[..m] == x[..m];
      assert (n - Max(i, j)) * v == (n - Max(i, j)) * x[j] + (n - Max(i, j)) * (v - x[j]);
    } else {
      WeightedUpdate(x[..m], j, v, i, n);
      assert y[..m] == x[..m][j := v];
    }
  }

  /** Adding d to input byte j adds (n - max(i, j)) * d to output byte i. */
  lemma ByteChangeReaches(s: bytes, mask: bytes, j: nat, v: byte, i: nat)
    requires |mask| == 2 * |s| && i < |s| && j < |s|
    ensures Diffused(s[j := v], mask)[i]
      == (Diffused(s, mask)[i] + (|s| - Max(i, j)) * (v as int - s[j])) % 256
  {
    hide Diffused, Weighted, MaskTail, Max;
    var n, s', x := |s|, s[j := v], Masked(s, mask);
    var xj := if j == 0 then v as int else v as int + mask[j];
    ClosedForm(s, mask, i);
    ClosedForm(s', mask, i);
    assert Masked(s', mask) == x[j := xj];
    WeightedUpdate(x, j, xj, i, n);
    assert xj - x[j] == v as int - s[j];
    var base, change := Weighted(x, i, n) + MaskTail(mask[n..], i), (n - Max(i, j)) * (v as int - s[j]);
    assert Weighted(x[j := xj], i, n) + MaskTail(mask[n..], i) == base + change;
    ModAddLeft(base, change, 256);
  }

  // ----- When a changed byte reaches every output byte -----

  /** The smallest c > 0 for which c * d is a multiple of 2^k. */
  function Order(d: int, k: nat): (c: nat)
    ensures 0 < c <= Pow2(k)
    decreases k
  {
    if k == 0 then 1 else if d % 2 == 1 then Pow2(k) else Order(d / 2, k - 1)
  }

  lemma HalveBoth(c: int, d: int, m: nat)
    requires d % 2 == 0 && m > 0
    ensures (c * d) % (2 * m) == 0 <==> (c * (d / 2)) % m == 0
  {
    var e := d / 2;
    var x := c * e;
    assert c * d == 2 * x;
    var q, q2 := x / m, (2 * x) / (2 * m);
    assert x == q * m + x % m && 2 * x == q2 * (2 * m) + (2 * x) % (2 * m);
    assert q2 * (2 * m) == 2 * (q2 * m);
    QuotientUnique(q, 2 * (x % m), q2, (2 * x) % (2 * m), 2 * m) by {
      assert q * (2 * m) == 2 * (q * m);
    }
  }

  lemma MultipleOf(c: int, d: int, m: nat)
    requires m > 0 && c % m == 0
    ensures (c * d) % m == 0
  {
    ModMulLeft(c, d, m);
  }

  /** The multiples of d that vanish modulo 2^k are exactly those by multiples of its order. */
  lemma {:induction false} OrderExact(c: int, d: int, k: nat)
    requires TWO64 % Pow2(k) == 0
    ensures (c * d) % Pow2(k) == 0 <==> c % Order(d, k) == 0
    decreases k
  {
    if k > 0 {
      if d % 2 == 1 {
        if (c * d) % Pow2(k) == 0 {
          Newton.OddFactorCancels(c, d, Pow2(k));
        } else if c % Pow2(k) == 0 {
          MultipleOf(c, d, Pow2(k));
        }
      } else {
        HalfDivides(Pow2(k - 1));
        HalveBoth(c, d, Pow2(k - 1));
        OrderExact(c, d / 2, k - 1);
      }
    }
  }

  lemma HalfDivides(m: nat)
    requires m > 0 && TWO64 % (2 * m) == 0
    ensures TWO64 % m == 0
  {
    var q := TWO64 / (2 * m);
    assert TWO64 == q * (2 * m) && q * (2 * m) == 0 + (2 * q) * m;
    ModShift(0, 2 * q, m);
  }

  /** c steps of size d come back to the same byte. */
  predicate Vanishes(c: int, d: int)
  {
    (c * d) % 256 == 0
  }

  /** None of d, 2d, ..., nd is a multiple of 256. */
  predicate NoneVanishes(d: int, n: int)
  {
    forall c :: 1 <= c <= n ==> !Vanishes(c, d)
  }

  /** Changing byte j to v changes every byte of the output. */
  predicate Spreads(s: bytes, mask: bytes, j: nat, v: byte)
    requires |mask| == 2 * |s| && j < |s|
  {
    forall i :: 0 <= i < |s| ==> Diffused(s[j := v], mask)[i] != Diffused(s, mask)[i]
  }

  lemma ByteMoves(u: byte, change: int)
    ensures (u + change) % 256 == u <==> change % 256 == 0
  {
    ModAddLeft(change, u, 256);
    ModAddBoth(u, change, 256);
  }

  lemma ByteKept(s: bytes, mask: bytes, j: nat, v: byte, i: nat)
    requires |mask| == 2 * |s| && i < |s| && j < |s|
    ensures Diffused(s[j := v], mask)[i] == Diffused(s, mask)[i]
      <==> Vanishes(|s| - Max(i, j), v as int - s[j])
  {
    hide Diffused, Max;
    ByteChangeReaches(s, mask, j, v, i);
    ByteMoves(Diffused(s, mask)[i], (|s| - Max(i, j)) * (v as int - s[j]));
  }

  /** A change d at byte j reaches every byte exactly when none of d, 2d, ..., (n - j)d is a multiple of 256. */
  lemma SpreadsExactly(s: bytes, mask: bytes, j: nat, v: byte)
    requires |mask| == 2 * |s| && j < |s|
    ensures Spreads(s, mask, j, v) <==> NoneVanishes(v as int - s[j], |s| - j)
  {
    hide Diffused, Vanishes;
    var n, d := |s|, v as int - s[j];
    if Spreads(s, mask, j, v) {
      forall c | 1 <= c <= n - j ensures !Vanishes(c, d) {
        ByteKept(s, mask, j, v, n - c);
        assert Diffused(s[j := v], mask)[n - c] != Diffused(s, mask)[n - c];
      }
    }
    if NoneVanishes(d, n - j) {
      forall i | 0 <= i < n ensures Diffused(s[j := v], mask)[i] != Diffused(s, mask)[i] {
        ByteKept(s, mask, j, v, i);
        assert !Vanishes(n - Max(i, j), d);
      }
    }
  }

  /** In one comparison: there are fewer bytes from j on than the order of the change modulo 256. */
  lemma SpreadsBelowOrder(s: bytes, mask: bytes, j: nat, v: byte)
    requires |mask| == 2 * |s| && j < |s|
    ensures Spreads(s, mask, j, v) <==> |s| - j < Order(v as int - s[j], 8)
  {
    hide Spreads, Order;
    SpreadsExactly(s, mask, j, v);
    BelowOrder(v as int - s[j], |s| - j);
  }

  lemma BelowOrder(d: int, n: nat)
    ensures NoneVanishes(d, n) <==> n < Order(d, 8)
  {
    assert Pow2(8) == 256;
    hide Order, Pow2;
    forall c ensures Vanishes(c, d) <==> c % Order(d, 8) == 0 {
      OrderExact(c, d, 8);
    }
    hide Vanishes;
    var o := Order(d, 8);
    if o <= n {
      assert o % o == 0;
      assert Vanishes(o, d);
    } else {
      forall c | 1 <= c <= n ensures !Vanishes(c, d) {
        ModSmall(c, o);
      }
    }
  }

  /** An odd change of byte j reaches every byte exactly when at most 255 bytes lie from j on. */
  lemma OddChangeSpreads(s: bytes, mask: bytes, j: nat, v: byte)
    requires |mask| == 2 * |s| && j < |s|
    requires (v as int - s[j]) % 2 == 1
    ensures Spreads(s, mask, j, v) <==> |s| - j <= 255
  {
    hide Spreads;
    SpreadsBelowOrder(s, mask, j, v);
    assert Order(v as int - s[j], 8) == Pow2(8) == 256;
  }

  /** In a block of 32, a change of byte 0 reaches every byte exactly when it is not a multiple of 8. */
  lemma FirstByteSpreads(s: bytes, mask: bytes, v: byte)
    requires |s| == 32 && |mask| == 64
    ensures Spreads(s, mask, 0, v) <==> (v as int - s[0]) % 8 != 0
  {
    hide Spreads, Diffused;
    var d := v as int - s[0];
    SpreadsBelowOrder(s, mask, 0, v);
    OrderAboveBlock(d);
  }

  lemma OrderAboveBlock(d: int)
    ensures Order(d, 8) > 32 <==> d % 8 != 0
  {
    assert Pow2(5) == 32 && Pow2(6) == 64 && Pow2(7) == 128 && Pow2(8) == 256;
    OrderStep(d, 7);
    OrderStep(d / 2, 6);
    OrderStep(d / 2 / 2, 5);
    hide Pow2, Order;
    LowThreeBits(d);
  }

  lemma OrderStep(d: int, k: nat)
    ensures Order(d, k + 1) == if d % 2 == 1 then Pow2(k + 1) else Order(d / 2, k)
    ensures Order(d, k) <= Pow2(k)
  {
  }

  lemma LowThreeBits(d: int)
    ensures d % 8 == 0 <==> d % 2 == 0 && (d / 2) % 2 == 0 && (d / 2 / 2) % 2 == 0
  {
  }

  /** An even change that does not spread: in a block of 32, adding 128 to byte 0 leaves byte 0 as it was. */
  lemma EvenChangeMayNotSpread(mask: bytes)
    requires |mask| == 64
    ensures Diffused(Zeros(32)[0 := 128], mask)[0] == Diffused(Zeros(32), mask)[0]
    ensures !Spreads(Zeros(32), mask, 0, 128)
  {
    hide Diffused;
    ByteChangeReaches(Zeros(32), mask, 0, 128, 0);
  }
}
