/** Counting the draws: every permutation is the result of equally many accepted word vectors. */
module ShuffleUniformity {
  import opened Bytes
  import opened Primitives
  import opened Shuffle
  import opened Stream

  predicate IsAccepted(r: nat, k: nat)
    requires k > 0
  {
    r < Limit(k)
  }

  /** The words accepted for the choice at index k-1; index 0 draws nothing and stands as 0. */
  ghost function Accepted(k: nat): set<nat>
    requires k > 0
  {
    if k == 1 then {0} else set r: nat | 0 <= r < TWO64 && IsAccepted(r, k)
  }

  /** All vectors of accepted words for a shuffle of n elements, by index. */
  ghost function Draws(n: nat): (ds: set<seq<nat>>)
    ensures forall d :: d in ds ==> |d| == n
  {
    if n == 0 then {[]} else Extended(Draws(n - 1), Accepted(n))
  }

  ghost function Extended(a: set<seq<nat>>, b: set<nat>): set<seq<nat>>
  {
    set d, r | d in a && r in b :: d + [r]
  }

  /** The choices a vector of words leads to. */
  function Residues(d: seq<nat>): (c: seq<nat>)
    ensures |c| == |d| && ValidChoices(c)
  {
    seq(|d|, i requires 0 <= i < |d| => d[i] % (i + 1))
  }

  /** The product of floor(2^64 / k) over the choices k = 2 to n. */
  function Weight(n: nat): nat
  {
    if n <= 1 then 1 else Weight(n - 1) * (TWO64 / n)
  }

  lemma {:induction false} ExtendOne(a: set<seq<nat>>, r: nat)
    ensures |Extended(a, {r})| == |a|
  {
    if a != {} {
      var d :| d in a;
      ExtendOne(a - {d}, r);
      forall e | e in Extended(a, {r}) ensures e in Extended(a - {d}, {r}) + {d + [r]} {
        var d' :| d' in a && e == d' + [r];
        if d' != d {
          assert d' in a - {d};
        }
      }
      assert Extended(a, {r}) == Extended(a - {d}, {r}) + {d + [r]};
      forall d' | d' in a - {d} ensures d' + [r] != d + [r] {
        assert (d' + [r])[..|d'|] == d' && (d + [r])[..|d|] == d;
      }
      assert d + [r] !in Extended(a - {d}, {r});
    } else {
      assert Extended(a, {r}) == {};
    }
  }

  lemma ExtendedSplits(a: set<seq<nat>>, b: set<nat>, r: nat)
    requires r !in b
    ensures Extended(a, b + {r}) == Extended(a, b) + Extended(a, {r})
    ensures Extended(a, b) !! Extended(a, {r})
  {
    forall e | e in Extended(a, b) ensures e !in Extended(a, {r}) {
      var d, s :| d in a && s in b && e == d + [s];
      assert e[|e| - 1] == s != r;
    }
  }

  /** Appending one of |b| words to one of |a| vectors gives |a| * |b| vectors. */
  lemma {:induction false} ExtendedCount(a: set<seq<nat>>, b: set<nat>)
    ensures |Extended(a, b)| == |a| * |b|
  {
    if b == {} {
      assert Extended(a, b) == {};
    } else {
      var r :| r in b;
      ExtendedCount(a, b - {r});
      ExtendedCountStep(a, b - {r}, r);
      assert b == (b - {r}) + {r};
    }
  }

  lemma ExtendedCountStep(a: set<seq<nat>>, rest: set<nat>, r: nat)
    requires r !in rest && |Extended(a, rest)| == |a| * |rest|
    ensures |Extended(a, rest + {r})| == |a| * |rest + {r}|
  {
    hide Extended;
    ExtendOne(a, r);
    ExtendedSplits(a, rest, r);
    DisjointSize(Extended(a, rest), Extended(a, {r}));
    DistributeOne(|a|, |rest|);
  }

  lemma DisjointSize(x: set<seq<nat>>, y: set<seq<nat>>)
    requires x !! y
    ensures |x + y| == |x| + |y|
  {
  }

  lemma DistributeOne(m: nat, n: nat)
    ensures m * (n + 1) == m * n + m
  {
  }

  ghost function DrawsFor(c: seq<nat>): set<seq<nat>>
    requires ValidChoices(c)
  {
    set d | d in Draws(|c|) && Residues(d) == c
  }

  /** The accepted words that leave the choice j at index k-1. */
  ghost function AcceptedFor(k: nat, j: nat): set<nat>
    requires j < k
  {
    set r | r in Accepted(k) && r % k == j
  }

  lemma AcceptedForCount(k: nat, j: nat)
    requires j < k
    ensures |AcceptedFor(k, j)| == if k == 1 then 1 else TWO64 / k
  {
    if k == 1 {
      assert AcceptedFor(k, j) == {0};
    } else {
      AcceptedDrawsAreUniform(k, j);
      assert AcceptedFor(k, j) == set r: int | 0 <= r < Limit(k) && r % k == j;
    }
  }

  lemma ResiduesSnoc(d: seq<nat>, r: nat)
    ensures Residues(d + [r]) == Residues(d) + [r % (|d| + 1)]
  {
  }

  lemma DrawsForSplit(c: seq<nat>)
    requires ValidChoices(c) && c != []
    ensures ValidChoices(c[..|c| - 1])
    ensures DrawsFor(c) == Extended(DrawsFor(c[..|c| - 1]), AcceptedFor(|c|, c[|c| - 1]))
  {
    hide Residues, Accepted, ValidChoices;
    ChoicesSplit(c);
    var n := |c| - 1;
    var a, b := DrawsFor(c[..n]), AcceptedFor(n + 1, c[n]);
    forall d, r | d in Draws(n) && r in Accepted(n + 1)
      ensures Residues(d + [r]) == c <==> Residues(d) == c[..n] && r % (n + 1) == c[n]
    {
      ResiduesSnoc(d, r);
      SnocEquals(Residues(d), r % (n + 1), c);
    }
    forall e | e in DrawsFor(c) ensures e in Extended(a, b) {
      var d, r :| d in Draws(n) && r in Accepted(n + 1) && e == d + [r];
      assert d in a && r in b;
    }
  }

  lemma SnocEquals(s: seq<nat>, x: nat, c: seq<nat>)
    requires |c| == |s| + 1
    ensures s + [x] == c <==> s == c[..|s|] && x == c[|s|]
  {
    assert c == c[..|s|] + [c[|s|]];
  }

  lemma {:induction false} DrawsForCount(c: seq<nat>)
    requires ValidChoices(c)
    ensures |DrawsFor(c)| == Weight(|c|)
  {
    hide Residues, DrawsFor, Extended, AcceptedFor;
    if c == [] {
      OneEmptyDraw();
    } else {
      var n := |c| - 1;
      DrawsForSplit(c);
      DrawsForCount(c[..n]);
      AcceptedForCount(n + 1, c[n]);
      ExtendedCount(DrawsFor(c[..n]), AcceptedFor(n + 1, c[n]));
    }
  }

  lemma OneEmptyDraw()
    ensures DrawsFor([]) == {[]}
  {
    assert Residues([]) == [];
    assert Draws(0) == {[]};
  }

  /** Uniform words give uniform permutations: each is reached by the same number of accepted vectors. */
  lemma EveryPermutationEquallyOften(p: seq<nat>)
    requires IsPermutation(p)
    ensures |set d | d in Draws(|p|) && Shuffled(Residues(d)) == p| == Weight(|p|)
  {
    hide Shuffled, Residues, Draws, Weight, DrawsFor, IsPermutation;
    var c := ChoicesOf(p);
    DrawsForCount(c);
    forall b | ValidChoices(b) ensures Shuffled(b) == p <==> b == c {
      ShuffleIsBijection();
      hide ValidChoices, ChoicesOf;
    }
    SameDraws(p, c);
  }

  lemma SameDraws(p: seq<nat>, c: seq<nat>)
    requires ValidChoices(c) && |c| == |p|
    requires forall b :: ValidChoices(b) ==> (Shuffled(b) == p <==> b == c)
    ensures (set d | d in Draws(|p|) && Shuffled(Residues(d)) == p) == DrawsFor(c)
  {
    hide Shuffled, Residues, Draws;
  }

  // ----- The words a live stream gives -----

  /** The words that the rejection loops keep, by index; index 0 draws nothing and stands as 0. */
  ghost function KeptWords(w: Source, from: nat, k: nat): (d: seq<nat>)
    ensures |d| == k
    decreases k
  {
    if k == 0 then [] else if k == 1 then [0] else
      var n := DrawIndex(w, from, k);
      KeptWords(w, n + 1, k - 1) + [w.At(n)]
  }

  lemma {:induction false} KeptWordsGiveChoices(w: Source, from: nat, k: nat)
    ensures Residues(KeptWords(w, from, k)) == DrawChoices(w, from, k)
    decreases k
  {
    hide Word, DrawIndex, Residues;
    if k == 0 {
      ResiduesOfNone();
    } else if k == 1 {
      ResiduesOfNone();
      ResiduesSnoc([], 0);
      assert [] + [0] == [0];
    } else {
      var n := DrawIndex(w, from, k);
      KeptWordsGiveChoices(w, n + 1, k - 1);
      ResiduesSnoc(KeptWords(w, n + 1, k - 1), w.At(n));
    }
  }

  lemma ResiduesOfNone()
    ensures Residues([]) == []
  {
  }

  lemma {:induction false} KeptWordsAreAccepted(w: Source, from: nat, k: nat)
    requires forall m: nat :: 2 <= m <= k ==> AcceptsFrom(w, 0, m)
    ensures KeptWords(w, from, k) in Draws(k)
    decreases k
  {
    hide Word, DrawIndex, AcceptsFrom, Limit;
    if k == 1 {
      assert [] + [0] == [0] && [] in Draws(0) && 0 in Accepted(1);
      assert [0] in Extended(Draws(0), Accepted(1));
    } else if k > 1 {
      var n := DrawIndex(w, from, k);
      LiveFromAnywhere(w.P, w.seed, w.prefix, from, k);
      assert w.At(n) < Limit(k) by { DrawnIsAccepted(w, from, k); }
      assert IsAccepted(w.At(n), k);
      KeptWordsAreAccepted(w, n + 1, k - 1);
    }
  }

  lemma DrawnIsAccepted(w: Source, from: nat, m: nat)
    requires m > 0 && AcceptsFrom(w, from, m)
    ensures w.At(DrawIndex(w, from, m)) < Limit(m)
  {
    hide Word;
  }

  /** The keyed permutation is the shuffle of one of the vectors counted above: the words its loops keep. */
  lemma KeyedPermutationIsCounted(P: Primitives, seed: bytes, prefix: bytes, size: nat)
    requires Live(P, seed, prefix, size)
    ensures var d := KeptWords(Source(P, seed, prefix), 0, size);
      d in Draws(size) && KeyedPermutation(P, seed, prefix, size) == Shuffled(Residues(d))
  {
    hide AcceptsFrom, Draws, Shuffled, Residues, KeptWords, DrawChoices;
    KeptWordsAreAccepted(Source(P, seed, prefix), 0, size);
    KeptWordsGiveChoices(Source(P, seed, prefix), 0, size);
  }
}
