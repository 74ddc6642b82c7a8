/**
  The combinatorics behind `permutation_number`: factorials, the Lehmer code of
  a sequence of distinct values, the value of a numeral in the factorial number
  system, and the lexicographic rank of a permutation built from the two.
 */
module Lehmer {

  /** k!, the function `permutation_number` relies on. */
  function Factorial(k: nat): (r: nat)
    ensures r >= 1
  {
    if k == 0 then 1 else k * Factorial(k - 1)
  }

  /** k divides k! exactly, with quotient (k-1)!: dividing down a factorial loses nothing. */
  lemma FactorialDivision(k: nat)
    requires k >= 1
    ensures Factorial(k) % k == 0
    ensures Factorial(k) / k == Factorial(k - 1)
  {
    var w := Factorial(k - 1);
    assert Factorial(k) == k * w;
    DivideProduct(k, w);
  }

  lemma DivideProduct(k: int, w: int)
    requires k >= 1
    ensures (k * w) % k == 0 && (k * w) / k == w
  {
    var q, r := (k * w) / k, (k * w) % k;
    assert k * w == k * q + r && 0 <= r < k;
    assert k * (w - q) == r;
    if w - q >= 1 {
      MulMono(1, w - q, k);
    } else if w - q <= -1 {
      MulMono(w - q, -1, k);
    }
  }

  lemma MulMono(a: int, b: int, w: int)
    requires a <= b && w >= 0
    ensures a * w <= b * w
  {
    assert b * w - a * w == (b - a) * w;
  }

  ghost predicate Distinct(s: seq<int>) {
    forall i, j :: 0 <= i < j < |s| ==> s[i] != s[j]
  }

  /** s holds each of the values 0 .. n-1 exactly once. */
  ghost predicate IsPermutation(s: seq<int>, n: int) {
    |s| == n && Distinct(s) && forall i :: 0 <= i < |s| ==> 0 <= s[i] < n
  }

  /** The values of t that are smaller than x. */
  ghost function SmallerIn(t: seq<int>, x: int): (r: set<int>) {
    set v | v in t && v < x
  }

  /** The number of entries of t that are smaller than x. */
  ghost function CountLess(t: seq<int>, x: int): (c: nat)
    ensures c <= |t|
  {
    if t == [] then 0 else (if t[0] < x then 1 else 0) + CountLess(t[1..], x)
  }

  /**
    Digit i of the Lehmer code of s: how many later entries are smaller than s[i].
    It never exceeds the number of later entries, |s| - 1 - i.
   */
  ghost function LehmerCode(s: seq<int>): (c: seq<nat>)
    ensures |c| == |s|
    ensures forall i :: 0 <= i < |s| ==> c[i] <= |s| - 1 - i
  {
    seq(|s|, i requires 0 <= i < |s| => CountLess(s[i + 1..], s[i]))
  }

  /** Every digit of c is a legal factorial-number-system digit for its place. */
  ghost predicate ValidDigits(c: seq<nat>) {
    forall k :: 0 <= k < |c| ==> c[k] <= |c| - 1 - k
  }

  /**
    The value of the numeral c in the factorial number system, most significant
    digit first: the digit at index k of an m-digit numeral has place value (m-1-k)!.
   */
  ghost function FactorialBase(c: seq<nat>): (r: nat) {
    if c == [] then 0 else c[0] * Factorial(|c| - 1) + FactorialBase(c[1..])
  }

  /** The lexicographic rank of s: its Lehmer code read as a factorial-base numeral. */
  ghost function Rank(s: seq<int>): (r: nat) {
    FactorialBase(LehmerCode(s))
  }

  /** p comes strictly before q in lexicographic order. */
  ghost predicate LexLess(p: seq<int>, q: seq<int>)
    decreases |p|
  {
    |p| > 0 && |q| > 0 && (p[0] < q[0] || (p[0] == q[0] && LexLess(p[1..], q[1..])))
  }

  ghost function Identity(n: nat): (r: seq<int>) {
    seq(n, i => i)
  }

  ghost function Reversal(n: nat): (r: seq<int>) {
    seq(n, i => n - 1 - i)
  }

  // ---------------------------------------------------------------------------
  // Counting smaller entries

  lemma {:induction false} CountLessCard(t: seq<int>, x: int)
    requires Distinct(t)
    ensures CountLess(t, x) == |SmallerIn(t, x)|
  {
    if t != [] {
      var rest := t[1..];
      assert Distinct(rest);
      CountLessCard(rest, x);
      assert t[0] !in rest;
      if t[0] < x {
        assert SmallerIn(t, x) == SmallerIn(rest, x) + {t[0]};
      } else {
        assert SmallerIn(t, x) == SmallerIn(rest, x);
      }
    }
  }

  lemma {:induction false} CountLessAll(t: seq<int>, x: int)
    requires forall k :: 0 <= k < |t| ==> t[k] < x
    ensures CountLess(t, x) == |t|
  {
    if t != [] {
      CountLessAll(t[1..], x);
    }
  }

  lemma {:induction false} CountLessNone(t: seq<int>, x: int)
    requires forall k :: 0 <= k < |t| ==> x <= t[k]
    ensures CountLess(t, x) == 0
  {
    if t != [] {
      CountLessNone(t[1..], x);
    }
  }

  /** Two sequences of distinct values holding the same values count alike. */
  lemma CountLessSameValues(p: seq<int>, q: seq<int>, x: int)
    requires Distinct(p) && Distinct(q)
    requires forall v :: v in p <==> v in q
    ensures CountLess(p, x) == CountLess(q, x)
  {
    CountLessCard(p, x);
    CountLessCard(q, x);
    assert SmallerIn(p, x) == SmallerIn(q, x);
  }

  lemma SubsetCard(a: set<int>, b: set<int>)
    requires a <= b
    ensures |a| <= |b|
  {
    assert b == a + (b - a);
  }

  /** A permutation of 0 .. n-1 contains every one of those values. */
  lemma PermutationCovers(s: seq<int>, n: int)
    requires IsPermutation(s, n)
    ensures forall v :: 0 <= v < n ==> v in s
  {
    var ids := Identity(n);
    var have, range := SmallerIn(s, n), SmallerIn(ids, n);
    CountLessAll(s, n);
    CountLessCard(s, n);
    CountLessAll(ids, n);
    CountLessCard(ids, n);
    forall v | v in have ensures v in range {
      assert ids[v] == v;
    }
    assert range == have + (range - have);
    assert range - have == {};
    forall v | 0 <= v < n ensures v in s {
      assert ids[v] == v;
      assert v in range;
    }
  }

  // ---------------------------------------------------------------------------
  // The factorial number system

  lemma ValidDigitsTail(c: seq<nat>)
    requires c != [] && ValidDigits(c)
    ensures ValidDigits(c[1..])
  {
    forall k | 0 <= k < |c| - 1 ensures c[1..][k] <= |c| - 2 - k {
      assert c[1..][k] == c[k + 1];
    }
  }

  /** A digit at most m - 1 followed by less than one unit w stays below m units. */
  lemma DigitBound(d: int, m: int, w: int, r: int)
    requires 0 <= d <= m - 1 && 0 <= r < w
    ensures d * w + r < m * w
  {
    MulMono(d, m - 1, w);
    assert (m - 1) * w + w == m * w;
  }

  lemma {:induction false} FactorialBaseBound(c: seq<nat>)
    requires ValidDigits(c)
    ensures FactorialBase(c) < Factorial(|c|)
  {
    if c != [] {
      var m := |c|;
      ValidDigitsTail(c);
      FactorialBaseBound(c[1..]);
      DigitBound(c[0], m, Factorial(m - 1), FactorialBase(c[1..]));
    }
  }

  lemma LehmerCodeTail(s: seq<int>)
    requires |s| > 0
    ensures LehmerCode(s)[1..] == LehmerCode(s[1..])
  {
    var c, d := LehmerCode(s), LehmerCode(s[1..]);
    forall k | 0 <= k < |d| ensures c[1..][k] == d[k] {
      assert s[1..][k + 1..] == s[k + 2..];
    }
  }

  /** The first digit of the rank weighs (|s|-1)!; the rest is the rank of the tail. */
  lemma RankUnfold(s: seq<int>)
    requires |s| > 0
    ensures Rank(s) == CountLess(s[1..], s[0]) * Factorial(|s| - 1) + Rank(s[1..])
  {
    LehmerCodeTail(s);
  }

  // ---------------------------------------------------------------------------
  // Properties of the rank

  /** The rank of any sequence lies in 0 .. |s|! - 1. */
  lemma RankBounds(s: seq<int>)
    ensures 0 <= Rank(s) <= Factorial(|s|) - 1
  {
    FactorialBaseBound(LehmerCode(s));
  }

  ghost predicate Increasing(s: seq<int>) {
    forall i, j :: 0 <= i < j < |s| ==> s[i] < s[j]
  }

  ghost predicate Decreasing(s: seq<int>) {
    forall i, j :: 0 <= i < j < |s| ==> s[i] > s[j]
  }

  lemma {:induction false} RankIncreasing(s: seq<int>)
    requires Increasing(s)
    ensures forall i :: 0 <= i < |s| ==> LehmerCode(s)[i] == 0
    ensures Rank(s) == 0
  {
    forall i | 0 <= i < |s| ensures LehmerCode(s)[i] == 0 {
      CountLessNone(s[i + 1..], s[i]);
    }
    if s != [] {
      RankUnfold(s);
      CountLessNone(s[1..], s[0]);
      RankIncreasing(s[1..]);
    }
  }

  lemma {:induction false} RankDecreasing(s: seq<int>)
    requires Decreasing(s)
    ensures forall i :: 0 <= i < |s| ==> LehmerCode(s)[i] == |s| - 1 - i
    ensures Rank(s) == Factorial(|s|) - 1
  {
    forall i | 0 <= i < |s| ensures LehmerCode(s)[i] == |s| - 1 - i {
      CountLessAll(s[i + 1..], s[i]);
    }
    if s != [] {
      var m := |s|;
      RankUnfold(s);
      CountLessAll(s[1..], s[0]);
      RankDecreasing(s[1..]);
      var w := Factorial(m - 1);
      assert (m - 1) * w + w == m * w;
    }
  }

  /** The identity permutation is the first one: its rank is 0. */
  lemma IdentityRank(n: nat)
    ensures IsPermutation(Identity(n), n)
    ensures Rank(Identity(n)) == 0
  {
    RankIncreasing(Identity(n));
  }

  /** The reversed permutation is the last one: its rank is n! - 1. */
  lemma ReversalRank(n: nat)
    ensures IsPermutation(Reversal(n), n)
    ensures Rank(Reversal(n)) == Factorial(n) - 1
  {
    RankDecreasing(Reversal(n));
  }

  /** The worked example: [1, 3, 0, 2] has Lehmer code [1, 2, 0, 0] and rank 10. */
  lemma ExampleRank()
    ensures LehmerCode([1, 3, 0, 2]) == [1, 2, 0, 0]
    ensures Rank([1, 3, 0, 2]) == 10
  {
    var s := [1, 3, 0, 2];
    assert s[1..] == [3, 0, 2] && s[2..] == [0, 2] && s[3..] == [2] && s[4..] == [];
    assert [3, 0, 2][1..] == [0, 2] && [0, 2][1..] == [2] && [2][1..] == [];
    assert CountLess([2], 1) == 0 && CountLess([0, 2], 1) == 1 && CountLess(s[1..], 1) == 1;
    assert CountLess([2], 3) == 1 && CountLess(s[2..], 3) == 2;
    assert CountLess(s[3..], 0) == 0;
    var c := LehmerCode(s);
    assert c == [1, 2, 0, 0];
    assert c[1..] == [2, 0, 0] && c[2..] == [0, 0] && c[3..] == [0];
  }

  /**
    When s and t hold the same distinct values and s starts with the smaller
    value, the first Lehmer digit of t exceeds that of s: s[0] itself and
    everything below it that follows s[0] in s follows t[0] in t.
   */
  lemma FirstDigitOrder(s: seq<int>, t: seq<int>)
    requires |s| > 0 && |t| > 0 && Distinct(s) && Distinct(t)
    requires forall v :: v in s <==> v in t
    requires s[0] < t[0]
    ensures CountLess(s[1..], s[0]) + 1 <= CountLess(t[1..], t[0])
  {
    var ps, qs := s[1..], t[1..];
    assert Distinct(ps) && Distinct(qs);
    CountLessCard(ps, s[0]);
    CountLessCard(qs, t[0]);
    var lo, hi := SmallerIn(ps, s[0]), SmallerIn(qs, t[0]);
    assert s == [s[0]] + ps && t == [t[0]] + qs;
    forall v | v in lo ensures v in hi {
      assert v in s && v != t[0];
    }
    assert s[0] in t && s[0] != t[0];
    assert s[0] !in lo;
    assert s[0] in hi;
    SubsetCard(lo + {s[0]}, hi);
  }

  /** After a common first entry, the tails again hold the same distinct values. */
  lemma CommonHead(p: seq<int>, q: seq<int>)
    requires |p| > 0 && |q| > 0 && Distinct(p) && Distinct(q)
    requires forall v :: v in p <==> v in q
    requires p[0] == q[0]
    ensures Distinct(p[1..]) && Distinct(q[1..])
    ensures forall v :: v in p[1..] <==> v in q[1..]
    ensures CountLess(p[1..], p[0]) == CountLess(q[1..], q[0])
  {
    forall v ensures v in p[1..] <==> v in q[1..] {
      assert v in p[1..] <==> v in p && v != p[0];
      assert v in q[1..] <==> v in q && v != q[0];
    }
    CountLessSameValues(p[1..], q[1..], p[0]);
  }

  /** Rank is strictly monotone in lexicographic order among arrangements of the same values. */
  lemma {:induction false} RankMonotone(p: seq<int>, q: seq<int>)
    requires Distinct(p) && Distinct(q) && |p| == |q|
    requires forall v :: v in p <==> v in q
    requires LexLess(p, q)
    ensures Rank(p) < Rank(q)
    decreases |p|
  {
    RankUnfold(p);
    RankUnfold(q);
    var dp, dq := CountLess(p[1..], p[0]), CountLess(q[1..], q[0]);
    var w := Factorial(|p| - 1);
    if p[0] < q[0] {
      FirstDigitOrder(p, q);
      RankBounds(p[1..]);
      PlaceValueDominates(dp, dq, w, Rank(p[1..]), Rank(q[1..]));
    } else {
      CommonHead(p, q);
      RankMonotone(p[1..], q[1..]);
    }
  }

  /** A larger leading digit outweighs whatever lower digits follow it. */
  lemma PlaceValueDominates(dp: int, dq: int, w: int, rp: int, rq: int)
    requires dp + 1 <= dq && 0 <= rp < w && 0 <= rq
    ensures dp * w + rp < dq * w + rq
  {
    MulMono(dp + 1, dq, w);
    assert (dp + 1) * w == dp * w + w;
  }

  /** Two different sequences of the same length are ordered one way or the other. */
  lemma {:induction false} LexTotal(p: seq<int>, q: seq<int>)
    requires |p| == |q| && p != q
    ensures LexLess(p, q) || LexLess(q, p)
    decreases |p|
  {
    if p[0] == q[0] {
      assert p == [p[0]] + p[1..] && q == [q[0]] + q[1..];
      LexTotal(p[1..], q[1..]);
    }
  }

  /** Among permutations of 0 .. n-1, the lexicographically smaller one has the smaller rank. */
  lemma RankRespectsLexOrder(p: seq<int>, q: seq<int>, n: int)
    requires IsPermutation(p, n) && IsPermutation(q, n)
    requires LexLess(p, q)
    ensures Rank(p) < Rank(q)
  {
    PermutationCovers(p, n);
    PermutationCovers(q, n);
    RankMonotone(p, q);
  }

  /** Different permutations of 0 .. n-1 have different ranks. */
  lemma RankInjective(p: seq<int>, q: seq<int>, n: int)
    requires IsPermutation(p, n) && IsPermutation(q, n)
    requires p != q
    ensures Rank(p) != Rank(q)
  {
    LexTotal(p, q);
    if LexLess(p, q) {
      RankRespectsLexOrder(p, q, n);
    } else {
      RankRespectsLexOrder(q, p, n);
    }
  }
}
