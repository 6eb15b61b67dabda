/**
 * The keyed shuffles: Fisher-Yates from the top index down, each choice a rejection-sampled draw.
 */
module Shuffle {
  import opened Bytes
  import Modular
  import opened Primitives
  import opened Stream

  // ----- Permutations -----

  predicate Distinct<T(==)>(s: seq<T>)
  {
    forall i, j :: 0 <= i < j < |s| ==> s[i] != s[j]
  }

  predicate InRange(s: seq<nat>, n: nat)
  {
    forall i :: 0 <= i < |s| ==> s[i] < n
  }

  predicate IsPermutation(p: seq<nat>)
  {
    InRange(p, |p|) && Distinct(p)
  }

  function Identity(n: nat): (s: seq<nat>)
    ensures |s| == n && forall i :: 0 <= i < n ==> s[i] == i
  {
    seq(n, i => i)
  }

  // ----- The shuffle as a function of its choices -----

  /** One choice per index: c[i] is the partner of index i, at most i; so c[0] is always 0. */
  predicate ValidChoices(c: seq<nat>)
  {
    forall i :: 0 <= i < |c| ==> c[i] <= i
  }

  function Swap<T>(v: seq<T>, i: nat, j: nat): (w: seq<T>)
    requires i < |v| && j < |v|
    ensures |w| == |v| && w[i] == v[j] && w[j] == v[i]
    ensures forall k :: 0 <= k < |v| && k != i && k != j ==> w[k] == v[k]
  {
    v[i := v[j]][j := v[i]]
  }

  lemma SwapKeeps(v: seq<nat>, i: nat, j: nat, n: nat)
    requires i < |v| && j < |v| && Distinct(v) && InRange(v, n)
    ensures Distinct(Swap(v, i, j)) && InRange(Swap(v, i, j), n)
  {
  }

  /** The loop over indices |c|-1 down to 0 (index 0 swaps with itself). */
  function ShuffleDown(v: seq<nat>, c: seq<nat>): (p: seq<nat>)
    requires ValidChoices(c) && |c| <= |v|
    ensures |p| == |v|
    decreases |c|
  {
    if c == [] then v else
      var i := |c| - 1;
      ShuffleDown(Swap(v, i, c[i]), c[..i])
  }

  function Shuffled(c: seq<nat>): (p: seq<nat>)
    requires ValidChoices(c)
    ensures |p| == |c|
  {
    ShuffleDown(Identity(|c|), c)
  }

  lemma {:induction false} ShuffleDownKeeps(v: seq<nat>, c: seq<nat>, n: nat)
    requires ValidChoices(c) && |c| <= |v| && Distinct(v) && InRange(v, n)
    ensures forall k :: |c| <= k < |v| ==> ShuffleDown(v, c)[k] == v[k]
    ensures Distinct(ShuffleDown(v, c)) && InRange(ShuffleDown(v, c), n)
    decreases |c|
  {
    if c != [] {
      var i := |c| - 1;
      var w := Swap(v, i, c[i]);
      ShuffleDownKeeps(w, c[..i], n);
    }
  }

  /** Whatever is drawn, the result is a permutation. */
  lemma ShuffledIsPermutation(c: seq<nat>)
    requires ValidChoices(c)
    ensures IsPermutation(Shuffled(c))
  {
    ShuffleDownKeeps(Identity(|c|), c, |c|);
  }

  function IndexOf(x: nat, s: seq<nat>): (i: nat)
    requires x in s
    ensures i < |s| && s[i] == x
  {
    if s[0] == x then 0 else 1 + IndexOf(x, s[1..])
  }

  /** Everything in p occurs in v, and the two agree from index k on. */
  ghost predicate Reachable(v: seq<nat>, p: seq<nat>, k: nat)
  {
    && k <= |v| == |p| && Distinct(v) && Distinct(p)
    && (forall i :: 0 <= i < |p| ==> p[i] in v)
    && (forall i :: k <= i < |p| ==> v[i] == p[i])
  }

  lemma ReachableFindsNext(v: seq<nat>, p: seq<nat>, k: nat)
    requires Reachable(v, p, k) && k > 0
    ensures p[k - 1] in v[..k]
    ensures forall j :: 0 <= j < k && v[j] == p[k - 1] ==> Reachable(Swap(v, k - 1, j), p, k - 1)
  {
    var x := p[k - 1];
    assert x in v;
    var at :| 0 <= at < |v| && v[at] == x;
    assert at < k;
    assert v[..k][at] == x;
    forall j | 0 <= j < k && v[j] == x ensures Reachable(Swap(v, k - 1, j), p, k - 1) {
      var w := Swap(v, k - 1, j);
      forall i | 0 <= i < |p| ensures p[i] in w {
        var s :| 0 <= s < |v| && v[s] == p[i];
        assert w[if s == j then k - 1 else if s == k - 1 then j else s] == p[i];
      }
    }
  }

  /** The choices that lead from v to p, read off p from the top. */
  ghost function Recover(v: seq<nat>, p: seq<nat>, k: nat): (c: seq<nat>)
    requires Reachable(v, p, k)
    ensures |c| == k && ValidChoices(c)
    decreases k
  {
    if k == 0 then [] else
      ReachableFindsNext(v, p, k);
      var j := IndexOf(p[k - 1], v[..k]);
      assert v[j] == v[..k][j];
      Recover(Swap(v, k - 1, j), p, k - 1) + [j]
  }

  lemma ReachableBase(v: seq<nat>, p: seq<nat>)
    requires Reachable(v, p, 0)
    ensures v == p && Recover(v, p, 0) == [] && ShuffleDown(v, []) == v
  {
  }

  lemma RecoverStep(v: seq<nat>, p: seq<nat>, k: nat, j: nat)
    requires Reachable(v, p, k) && j < k <= |v| == |p| && v[j] == p[k - 1]
    ensures Reachable(Swap(v, k - 1, j), p, k - 1)
    ensures Recover(v, p, k) == Recover(Swap(v, k - 1, j), p, k - 1) + [j]
  {
    ReachableFindsNext(v, p, k);
    var i := IndexOf(p[k - 1], v[..k]);
    assert v[i] == v[..k][i] && i == j;
  }

  lemma ReachableNext(v: seq<nat>, p: seq<nat>, k: nat) returns (j: nat)
    requires Reachable(v, p, k) && k > 0
    ensures j < k <= |v| == |p| && v[j] == p[k - 1]
  {
    ReachableFindsNext(v, p, k);
    j := IndexOf(p[k - 1], v[..k]);
    assert v[j] == v[..k][j];
  }

  lemma {:induction false} ShuffleOfRecover(v: seq<nat>, p: seq<nat>, k: nat)
    requires Reachable(v, p, k) && k <= |v|
    ensures ShuffleDown(v, Recover(v, p, k)) == p
    decreases k
  {
    hide *;
    if k == 0 {
      ReachableBase(v, p);
    } else {
      var j := ReachableNext(v, p, k);
      RecoverStep(v, p, k, j);
      var w := Swap(v, k - 1, j);
      ShuffleOfRecover(w, p, k - 1);
      ShuffleDownSnoc(v, Recover(w, p, k - 1), j);
    }
  }

  lemma ShuffleDownSnoc(v: seq<nat>, c: seq<nat>, j: nat)
    requires ValidChoices(c) && j <= |c| < |v|
    ensures ValidChoices(c + [j])
    ensures ShuffleDown(v, c + [j]) == ShuffleDown(Swap(v, |c|, j), c)
  {
    assert (c + [j])[..|c|] == c;
  }

  lemma {:induction false} RecoverOfShuffle(v: seq<nat>, c: seq<nat>, n: nat)
    requires ValidChoices(c) && |c| <= |v| && Distinct(v) && InRange(v, n)
    ensures Reachable(v, ShuffleDown(v, c), |c|)
    ensures Recover(v, ShuffleDown(v, c), |c|) == c
    decreases |c|
  {
    hide *;
    ShuffleDownKeeps(v, c, n);
    if c == [] {
      RecoverBase(v);
    } else {
      var i := |c| - 1;
      ChoicesSplit(c);
      SwapKeeps(v, i, c[i], n);
      RecoverOfShuffle(Swap(v, i, c[i]), c[..i], n);
      RecoverLast(v, c);
    }
  }

  lemma RecoverBase(v: seq<nat>)
    requires Distinct(v)
    ensures Reachable(v, ShuffleDown(v, []), 0) && Recover(v, ShuffleDown(v, []), 0) == []
  {
  }

  lemma ChoicesSplit(c: seq<nat>)
    requires ValidChoices(c) && c != []
    ensures ValidChoices(c[..|c| - 1]) && c[|c| - 1] < |c|
  {
  }

  lemma ShuffleDownFirst(v: seq<nat>, c: seq<nat>)
    requires ValidChoices(c) && 0 < |c| <= |v|
    ensures var i := |c| - 1; ShuffleDown(v, c) == ShuffleDown(Swap(v, i, c[i]), c[..i])
  {
  }

  lemma RecoverLast(v: seq<nat>, c: seq<nat>)
    requires ValidChoices(c) && 0 < |c| <= |v| && Distinct(v) && c[|c| - 1] < |c|
    requires forall k :: |c| <= k < |v| ==> ShuffleDown(v, c)[k] == v[k]
    requires var i := |c| - 1; var w := Swap(v, i, c[i]);
      Reachable(w, ShuffleDown(w, c[..i]), i) && Recover(w, ShuffleDown(w, c[..i]), i) == c[..i]
    ensures Reachable(v, ShuffleDown(v, c), |c|)
    ensures Recover(v, ShuffleDown(v, c), |c|) == c
  {
    hide *;
    var i := |c| - 1;
    var p := ShuffleDown(v, c);
    ShuffleDownFirst(v, c);
    UnswapReachable(v, p, i, c[i]);
    RecoverStep(v, p, |c|, c[i]);
    assert c == c[..i] + [c[i]];
  }

  lemma UnswapReachable(v: seq<nat>, p: seq<nat>, i: nat, j: nat)
    requires j <= i < |v| && Distinct(v)
    requires Reachable(Swap(v, i, j), p, i) && forall k :: i < k < |p| ==> p[k] == v[k]
    ensures Reachable(v, p, i + 1) && p[i] == v[j]
  {
    var w := Swap(v, i, j);
    forall k | 0 <= k < |p| ensures p[k] in v {
      var s :| 0 <= s < |w| && w[s] == p[k];
      assert w[s] == v[if s == j then i else if s == i then j else s];
    }
  }

  ghost function ChoicesOf(p: seq<nat>): (c: seq<nat>)
    requires IsPermutation(p)
    ensures |c| == |p| && ValidChoices(c)
  {
    assert forall i :: 0 <= i < |p| ==> Identity(|p|)[p[i]] == p[i];
    Recover(Identity(|p|), p, |p|)
  }

  /** Choice vectors and permutations correspond one to one. */
  lemma ShuffleIsBijection()
    ensures forall c :: ValidChoices(c) ==> IsPermutation(Shuffled(c)) && ChoicesOf(Shuffled(c)) == c
    ensures forall p :: IsPermutation(p) ==> Shuffled(ChoicesOf(p)) == p
  {
    forall c | ValidChoices(c)
      ensures IsPermutation(Shuffled(c)) && ChoicesOf(Shuffled(c)) == c
    {
      ShuffledIsPermutation(c);
      RecoverOfShuffle(Identity(|c|), c, |c|);
    }
    forall p | IsPermutation(p) ensures Shuffled(ChoicesOf(p)) == p {
      assert forall i :: 0 <= i < |p| ==> Identity(|p|)[p[i]] == p[i];
      ShuffleOfRecover(Identity(|p|), p, |p|);
    }
  }

  // ----- Rejection sampling -----

  /** Draws at or above the limit are rejected, so that the rest divide evenly by m. */
  function Limit(m: nat): (l: nat)
    requires m > 0
    ensures l <= TWO64
  {
    TWO64 - TWO64 % m
  }

  lemma {:induction false} ResidueCount(q: nat, m: nat, j: nat)
    requires j < m
    ensures |set r: int | 0 <= r < q * m && r % m == j| == q
  {
    var s := set r: int | 0 <= r < q * m && r % m == j;
    if q > 0 {
      ResidueCount(q - 1, m, j);
      var t := set r: int | 0 <= r < (q - 1) * m && r % m == j;
      var x := (q - 1) * m + j;
      assert q * m == (q - 1) * m + m;
      ResidueInLastRow(q - 1, m, j, x);
      forall r | r in s ensures r in t + {x} {
        if r >= (q - 1) * m {
          ResidueInLastRow(q - 1, m, r - (q - 1) * m, r);
        }
      }
      assert s == t + {x};
    }
  }

  lemma ResidueInLastRow(q: nat, m: nat, j: nat, x: int)
    requires j < m && x == q * m + j
    ensures x % m == j
  {
    Modular.ModShift(j, q, m);
    Modular.QuotientUnique(0, j, j / m, j % m, m);
  }

  /** Every residue is hit by the same number of accepted draws: floor(2^64 / m). */
  lemma AcceptedDrawsAreUniform(m: nat, j: nat)
    requires j < m
    ensures |set r: int | 0 <= r < Limit(m) && r % m == j| == TWO64 / m
  {
    assert Limit(m) == (TWO64 / m) * m;
    ResidueCount(TWO64 / m, m, j);
  }

  /** Some word from `from` on is accepted. */
  ghost predicate AcceptsFrom(w: Source, from: nat, m: nat)
    requires m > 0
  {
    exists n: nat :: from <= n && w.At(n) < Limit(m)
  }

  ghost function FirstAccepted(w: Source, from: nat, m: nat, bound: nat): (n: nat)
    requires m > 0 && from <= bound && w.At(bound) < Limit(m)
    ensures from <= n <= bound && w.At(n) < Limit(m)
    decreases bound - from
  {
    hide *;
    if w.At(from) < Limit(m) then from else FirstAccepted(w, from + 1, m, bound)
  }

  lemma {:induction false} BeforeFirstAccepted(w: Source, from: nat, m: nat, bound: nat, k: nat)
    requires m > 0 && from <= bound && w.At(bound) < Limit(m)
    ensures from <= k < FirstAccepted(w, from, m, bound) ==> w.At(k) >= Limit(m)
    decreases bound - from
  {
    hide Word, Limit;
    if w.At(from) >= Limit(m) {
      BeforeFirstAccepted(w, from + 1, m, bound, k);
    }
  }

  /**
   * The index of the draw that the rejection loop keeps. When no word is ever accepted the loop
   * does not end; the function then answers `from`, so that it is total.
   */
  ghost function DrawIndex(w: Source, from: nat, m: nat): (n: nat)
    requires m > 0
    ensures from <= n
    ensures AcceptsFrom(w, from, m) ==> w.At(n) < Limit(m)
    ensures AcceptsFrom(w, from, m) ==> forall k: nat :: from <= k < n ==> w.At(k) >= Limit(m)
  {
    hide Word, Limit, FirstAccepted;
    if AcceptsFrom(w, from, m) then
      var bound: nat :| from <= bound && w.At(bound) < Limit(m);
      assert forall k: nat :: from <= k < FirstAccepted(w, from, m, bound) ==> w.At(k) >= Limit(m) by {
        forall k: nat | from <= k < FirstAccepted(w, from, m, bound) ensures w.At(k) >= Limit(m) {
          BeforeFirstAccepted(w, from, m, bound, k);
        }
      }
      FirstAccepted(w, from, m, bound)
    else
      from
  }

  /** The k choices drawn from word `from` on, the topmost index first. */
  ghost function DrawChoices(w: Source, from: nat, k: nat): (c: seq<nat>)
    ensures |c| == k && ValidChoices(c)
    decreases k
  {
    if k == 0 then [] else if k == 1 then [0] else
      var d := DrawIndex(w, from, k);
      DrawChoices(w, d + 1, k - 1) + [w.At(d) % k]
  }

  /** What `permutation_from_seed` and `small_permutation` return. */
  ghost function KeyedPermutation(P: Primitives, seed: bytes, prefix: bytes, size: nat): (p: seq<nat>)
    ensures |p| == size && IsPermutation(p)
  {
    var c := DrawChoices(Source(P, seed, prefix), 0, size);
    ShuffledIsPermutation(c);
    Shuffled(c)
  }

  /** For each modulus the shuffle uses, the stream holds some accepted word. */
  ghost predicate Live(P: Primitives, seed: bytes, prefix: bytes, size: nat)
  {
    forall m: nat :: 2 <= m <= size ==> AcceptsFrom(Source(P, seed, prefix), 0, m)
  }

  /** The stream is periodic, so one accepted word means accepted words for ever. */
  lemma LiveFromAnywhere(P: Primitives, seed: bytes, prefix: bytes, from: nat, m: nat)
    requires m > 0 && AcceptsFrom(Source(P, seed, prefix), 0, m)
    ensures AcceptsFrom(Source(P, seed, prefix), from, m)
  {
    var w := Source(P, seed, prefix);
    var n: nat :| w.At(n) < Limit(m);
    WordsRepeatOften(P, seed, prefix, n, from);
    assert w.At(n + from * STREAM_WORDS) == w.At(n);
  }

  /** A rejection loop ends, wherever it starts, exactly when one lap of the stream holds an accepted word. */
  lemma AcceptsWithinLap(w: Source, from: nat, m: nat)
    requires m > 0
    ensures AcceptsFrom(w, from, m) <==> exists n: nat :: n < STREAM_WORDS && w.At(n) < Limit(m)
  {
    hide Word, Limit;
    if AcceptsFrom(w, from, m) {
      var n: nat :| from <= n && w.At(n) < Limit(m);
      var first := n % STREAM_WORDS;
      assert n == first + (n / STREAM_WORDS) * STREAM_WORDS;
      WordsRepeatOften(w.P, w.seed, w.prefix, first, n / STREAM_WORDS);
      assert w.At(first) == w.At(n);
    }
    if n: nat :| n < STREAM_WORDS && w.At(n) < Limit(m) {
      LiveFromAnywhere(w.P, w.seed, w.prefix, from, m);
    }
  }

  /** The inner loop: draw until a word is accepted, then reduce it. */
  method DrawBelow(draws: DrawStream, modulus: nat) returns (j: nat)
    requires draws.Valid() && modulus > 0
    requires AcceptsFrom(draws.source, draws.Taken(), modulus)
    modifies draws
    ensures draws.Valid()
    ensures draws.Taken() == DrawIndex(draws.source, old(draws.Taken()), modulus) + 1
    ensures j == draws.source.At(draws.Taken() - 1) % modulus
  {
    hide Word, Limit, Buffer;
    var limit := Limit(modulus);
    ghost var from := draws.Taken();
    ghost var d := DrawIndex(draws.source, from, modulus);
    var r := draws.TakeU64();
    while r >= limit
      invariant draws.Valid() && from < draws.Taken() <= d + 1
      invariant r == draws.source.At(draws.Taken() - 1)
      decreases d + 1 - draws.Taken()
    {
      r := draws.TakeU64();
    }
    j := r % modulus;
  }

  /** The loop that both shuffles share. It ends exactly when the stream is live. */
  method ShuffleFromSeed(P: Primitives, seed: bytes, prefix: bytes, size: nat) returns (perm: seq<nat>)
    requires Live(P, seed, prefix, size)
    ensures perm == KeyedPermutation(P, seed, prefix, size)
  {
    hide Word, Buffer, ShuffleDown, DrawChoices, ValidChoices, IsPermutation, DrawIndex, AcceptsFrom, Limit, Swap;
    var w := Source(P, seed, prefix);
    var values := new nat[size](i => i);
    assert values[..] == Identity(size);
    assert KeyedPermutation(P, seed, prefix, size) == ShuffleDown(values[..], DrawChoices(w, 0, size));
    var draws := new DrawStream(w);
    var i := size;
    while i > 1
      invariant i <= size && draws.Valid() && draws.source == w
      invariant ShuffleDown(values[..], DrawChoices(w, draws.Taken(), i)) == KeyedPermutation(P, seed, prefix, size)
    {
      i := i - 1;
      ghost var from, before := draws.Taken(), values[..];
      LiveFromAnywhere(P, seed, prefix, from, i + 1);
      var j := DrawBelow(draws, i + 1);
      DrawOneChoice(w, from, i + 1, before);
      values[i], values[j] := values[j], values[i];
      assert values[..] == Swap(before, i, j);
    }
    LastChoice(values[..], DrawChoices(w, draws.Taken(), i));
    perm := values[..];
  }

  /** One iteration of the loop, seen from the specification. */
  lemma DrawOneChoice(w: Source, from: nat, k: nat, v: seq<nat>)
    requires 1 < k <= |v|
    ensures var d := DrawIndex(w, from, k);
      ShuffleDown(v, DrawChoices(w, from, k)) == ShuffleDown(Swap(v, k - 1, w.At(d) % k), DrawChoices(w, d + 1, k - 1))
  {
    hide Word, DrawIndex;
    var d := DrawIndex(w, from, k);
    var c := DrawChoices(w, d + 1, k - 1);
    assert (c + [w.At(d) % k])[..k - 1] == c;
  }

  lemma LastChoice(v: seq<nat>, c: seq<nat>)
    requires ValidChoices(c) && |c| <= 1 && |c| <= |v|
    ensures ShuffleDown(v, c) == v
  {
    if |c| == 1 {
      assert Swap(v, 0, c[0]) == v;
    }
  }
}
