/**
  `permutation_number` of permutation.c: the lexicographic rank of a deck of n
  cards holding the values 0 .. n-1, computed with a strike-out array of flags,
  a count of the still-unused smaller cards per position, and a factorial
  multiplier divided down from (n-1)! as positions are consumed.

  The C text refers to three names it never declares. They are read as the
  evident intent: `aux` is the allocated flag array `available`, the line
  `n += pos * f` adds to the accumulator `pn`, and the divisor `N-i-1` is `n-i-1`.
 */
module Permutation {
  import opened Lehmer

  /** The sum a[0] + ... + a[j-1]: the flags counted by the inner loop. */
  ghost function Flags(a: seq<int>, j: nat): (r: int)
    requires j <= |a|
  {
    if j == 0 then 0 else Flags(a, j - 1) + a[j - 1]
  }

  /**
    The flag array while position i is being processed: card v is struck out
    (flag 0) exactly when it was dealt at an earlier position.
   */
  ghost predicate StruckOut(a: seq<int>, s: seq<int>, i: int)
    requires 0 <= i <= |s|
  {
    |a| == |s| && forall v :: 0 <= v < |a| ==> a[v] == (if v in s[..i] then 0 else 1)
  }

  lemma {:induction false} FlagsCard(a: seq<int>, s: seq<int>, i: int, b: int)
    requires 0 <= i <= |s| && 0 <= b <= |a|
    requires StruckOut(a, s, i)
    ensures Flags(a, b) == |set v | 0 <= v < b && a[v] == 1|
  {
    if b > 0 {
      FlagsCard(a, s, i, b - 1);
      var before := set v | 0 <= v < b - 1 && a[v] == 1;
      if a[b - 1] == 1 {
        assert (set v | 0 <= v < b && a[v] == 1) == before + {b - 1};
      } else {
        assert (set v | 0 <= v < b && a[v] == 1) == before;
      }
    }
  }

  /**
    With the cards of s[..i] struck out, the flags of the values below b add up
    to the number of cards in s[i..] below b. For b == s[i] that is digit i of
    the Lehmer code; for b == n it is the n - i cards not yet dealt.
   */
  lemma AvailableCount(a: seq<int>, s: seq<int>, n: int, i: int, b: int)
    requires IsPermutation(s, n) && 0 <= i <= n && 0 <= b <= n
    requires StruckOut(a, s, i)
    ensures Flags(a, b) == CountLess(s[i..], b)
  {
    FlagsCard(a, s, i, b);
    PermutationCovers(s, n);
    assert Distinct(s[i..]);
    CountLessCard(s[i..], b);
    assert s == s[..i] + s[i..];
    forall v ensures (0 <= v < b && a[v] == 1) <==> v in SmallerIn(s[i..], b) {
      if 0 <= v < b {
        assert v in s;
        assert v in s[i..] ==> v !in s[..i];
      }
    }
    assert (set v | 0 <= v < b && a[v] == 1) == SmallerIn(s[i..], b);
  }

  /** Digit i of the Lehmer code is the number of flags still set below card s[i]. */
  lemma DigitFromFlags(a: seq<int>, s: seq<int>, n: int, i: int)
    requires IsPermutation(s, n) && 0 <= i < n
    requires StruckOut(a, s, i)
    ensures 0 <= s[i] < |a| && Flags(a, s[i]) == LehmerCode(s)[i]
  {
    AvailableCount(a, s, n, i, s[i]);
    assert s[i..] == [s[i]] + s[i + 1..];
  }

  /** Striking out card s[i] turns the flags for position i into those for position i + 1. */
  lemma StrikeOut(a: seq<int>, s: seq<int>, i: int)
    requires 0 <= i < |s| && 0 <= s[i] < |a|
    requires StruckOut(a, s, i)
    ensures StruckOut(a[s[i] := 0], s, i + 1)
  {
    assert s[..i + 1] == s[..i] + [s[i]];
  }

  /** While position i is processed, exactly the n - i cards not yet dealt are flagged. */
  lemma RemainingFlags(a: seq<int>, s: seq<int>, n: int, i: int)
    requires IsPermutation(s, n) && 0 <= i <= n
    requires StruckOut(a, s, i)
    ensures Flags(a, n) == n - i
  {
    AvailableCount(a, s, n, i, n);
    CountLessAll(s[i..], n);
  }

  /**
    At the last position only the card s[n-1] is still flagged, so its digit is 0
    and the loop may stop one position early.
   */
  lemma OnlyLastAvailable(a: seq<int>, s: seq<int>, n: int)
    requires IsPermutation(s, n) && n >= 1
    requires StruckOut(a, s, n - 1)
    ensures forall v :: 0 <= v < n ==> (a[v] == 1 <==> v == s[n - 1])
    ensures LehmerCode(s)[n - 1] == 0
  {
    PermutationCovers(s, n);
    assert s == s[..n - 1] + [s[n - 1]];
    forall v | 0 <= v < n ensures a[v] == 1 <==> v == s[n - 1] {
      assert v in s;
      assert v in s[..n - 1] ==> v != s[n - 1];
    }
  }

  /** Before any card is struck out, every flag is set. */
  lemma AllAvailable(a: seq<int>, s: seq<int>)
    requires |a| == |s|
    requires forall v :: 0 <= v < |a| ==> a[v] == 1
    ensures StruckOut(a, s, 0)
  {
  }

  /**
    Adding digit i times its place value to the running sum moves the
    accumulator past that digit of the numeral code.
   */
  lemma Accumulate(code: seq<nat>, i: int, pn: int, total: int)
    requires 0 <= i < |code|
    requires pn + FactorialBase(code[i..]) == total
    ensures pn + code[i] * Factorial(|code| - 1 - i) + FactorialBase(code[i + 1..]) == total
  {
    assert code[i..][1..] == code[i + 1..];
  }

  /** The numeral that remains once all but the last position are consumed is worth 0. */
  lemma LastDigit(s: seq<int>)
    requires |s| >= 1
    ensures FactorialBase(LehmerCode(s)[|s| - 1..]) == 0
  {
    var code := LehmerCode(s);
    assert code[|s| - 1..] == [code[|s| - 1]];
  }

  /** One pass of the outer loop keeps every invariant of `PermutationNumber`. */
  lemma OuterStep(a: seq<int>, s: seq<int>, n: int, i: int, pn: int, f: int, pos: int)
    requires IsPermutation(s, n) && 0 <= i < n - 1
    requires StruckOut(a, s, i)
    requires f == Factorial(n - 1 - i)
    requires pn + FactorialBase(LehmerCode(s)[i..]) == Rank(s)
    requires pos == Flags(a, s[i])
    ensures 0 <= s[i] < n
    ensures StruckOut(a[s[i] := 0], s, i + 1)
    ensures f / (n - i - 1) == Factorial(n - 1 - (i + 1))
    ensures pn + pos * f + FactorialBase(LehmerCode(s)[i + 1..]) == Rank(s)
  {
    DigitFromFlags(a, s, n, i);
    Accumulate(LehmerCode(s), i, pn, Rank(s));
    StrikeOut(a, s, i);
    FactorialDivision(n - 1 - i);
  }

  /** The inner loop of `permutation_number`: add up the flags of the cards below val. */
  method CountAvailable(available: array<int>, val: int) returns (pos: int)
    requires 0 <= val <= available.Length
    ensures pos == Flags(available[..], val)
  {
    pos := 0;
    var j := 0;
    while j < val
      invariant 0 <= j <= val
      invariant pos == Flags(available[..], j)
    {
      pos := pos + available[j];
      j := j + 1;
    }
  }

  /**
    The rank of deck[0..n-1] among all n! orderings of 0 .. n-1. The deck is
    only read; the flag array is a fresh local buffer.
   */
  method PermutationNumber(deck: array<int>, n: int) returns (pn: int)
    requires 1 <= n <= deck.Length
    requires IsPermutation(deck[..n], n)
    ensures pn == Rank(deck[..n])
    ensures 0 <= pn <= Factorial(n) - 1
  {
    ghost var s := deck[..n];
    ghost var code := LehmerCode(s);

    // Every card starts out available.
    var available := new int[n];
    var i := 0;
    while i < n
      invariant 0 <= i <= n
      invariant forall v :: 0 <= v < i ==> available[v] == 1
    {
      available[i] := 1;
      i := i + 1;
    }
    AllAvailable(available[..], s);

    pn := 0;
    var f := Factorial(n - 1);

    // The last position is skipped: only deck[n-1] is left there, so its digit is 0.
    i := 0;
    while i < n - 1
      invariant 0 <= i <= n - 1
      invariant StruckOut(available[..], s, i)
      invariant f == Factorial(n - 1 - i)
      invariant pn + FactorialBase(code[i..]) == Rank(s)
    {
      var val := deck[i];

      // Count the unused cards below this one.
      var pos := CountAvailable(available, val);
      OuterStep(available[..], s, n, i, pn, f, pos);
      pn := pn + pos * f;

      // Strike out the card.
      available[val] := 0;

      f := f / (n - i - 1);
      i := i + 1;
    }
    LastDigit(s);
    RankBounds(s);
  }
}
