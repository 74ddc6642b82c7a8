# permutation_number in Dafny

This project models `permutation_number` from permutation.c. The function computes the
lexicographic rank of a deck of `n` cards. The deck holds each of the values `0 .. n-1`
exactly once, and the rank is the 0-based position of that ordering among all `n!`
orderings in lexicographic order. It works in the factorial number system with a Lehmer
code:

- a scratch array `available` of 0/1 flags starts with every card available;
- for each position `i` from `0` to `n-2`, the inner loop counts the still-available cards
  below `deck[i]` (this count is Lehmer digit `i`);
- the accumulator `pn` gains that digit times the factorial multiplier `f`;
- the card is struck out;
- `f` is divided down from `(n-1)!` by `n-i-1`.

Files:

- `lehmer.dfy` (module `Lehmer`) is the specification. It defines `Factorial`; `CountLess`,
  the number of entries of a sequence below a value; `LehmerCode`, where digit `i` counts
  the later entries smaller than `s[i]`; `FactorialBase`, the value of a factorial-base
  numeral; and `Rank`, which is `FactorialBase(LehmerCode(s))`. It also holds the lemmas
  about them: the bounds, the ranks of the identity and the reversal, the worked example,
  monotonicity in lexicographic order, and injectivity.
- `permutation.dfy` (module `Permutation`) is the imperative model. `PermutationNumber`
  allocates the flag array, runs the initialisation loop and the outer loop, and is
  proved to return `Rank(deck[..n])`. The inner counting loop of lines 16-19 is the
  method `CountAvailable`, which the outer loop calls. Lemmas state the invariant of the
  flag array (`StruckOut`) and what it implies.

The C text uses three names it never declares. The model reads them as the code evidently
intends:

- `aux` (lines 18 and 22) is the allocated array `available`;
- `n += pos * f` (line 21) adds to the accumulator `pn`, the value that line 27 returns;
- `N-i-1` (line 23) is `n-i-1`.

Taken literally, line 21 would change the loop bound and the function would return 0,
and `aux` and `N` would not compile.

The empty deck is not ranked: line 9 evaluates `factorial(n-1)`, which is undefined for
`n = 0`, so `PermutationNumber` requires `n >= 1`, as the code does; a general rank
function would give the empty deck rank 0. C's `/=` truncates and Dafny's `/` is Euclidean;
here both operands are positive, so the two agree.

## Model

| member | source | states |
|---|---|---|
| `Lehmer.Factorial` | permutation.c:9 | the external `factorial` as a recursive function; every factorial is at least 1 |
| `Lehmer.FactorialDivision` | permutation.c:23 | `k` divides `k!` exactly, with quotient `(k-1)!`, so dividing the multiplier discards no remainder |
| `Lehmer.LehmerCode` | permutation.c:15-19 | one digit per position, and digit `i` is at most `n-1-i`, the number of later positions |
| `Lehmer.CountLessCard` | permutation.c:16-19 | for distinct entries, the count of entries below `x` is the number of distinct values below `x` |
| `Lehmer.PermutationCovers` | permutation.c:12-13 | a sequence of `n` distinct values in `0..n-1` holds every one of those values |
| `Lehmer.FactorialBaseBound` | permutation.c:21 | a numeral whose digit `k` is at most `m-1-k` has a value below `m!` |
| `Lehmer.RankUnfold` | permutation.c:21 | the rank is the first digit times `(n-1)!` plus the rank of the rest of the deck |
| `Lehmer.RankBounds` | permutation.c:8-27 | every rank lies in `0 .. n!-1` |
| `Lehmer.RankIncreasing` | permutation.c:16-21 | an increasing sequence has all digits 0 and rank 0 |
| `Lehmer.RankDecreasing` | permutation.c:16-21 | a decreasing sequence has digits `n-1, n-2, …, 0` and rank `n!-1` |
| `Lehmer.IdentityRank` | permutation.c:16-21 | `[0, 1, …, n-1]` is a permutation and its rank is 0 |
| `Lehmer.ReversalRank` | permutation.c:16-21 | `[n-1, …, 1, 0]` is a permutation and its rank is `n!-1` |
| `Lehmer.ExampleRank` | permutation.c:12-24 | `[1, 3, 0, 2]` has Lehmer code `[1, 2, 0, 0]` and rank 10 |
| `Lehmer.FirstDigitOrder` | permutation.c:16-19 | when two orderings of the same values start with different cards, the smaller start has the smaller first digit |
| `Lehmer.RankMonotone` | permutation.c:8-27 | among orderings of the same distinct values, a lexicographically smaller one has a strictly smaller rank |
| `Lehmer.RankRespectsLexOrder` | permutation.c:8-27 | for two permutations of `0..n-1`, the one that comes first lexicographically has the smaller rank |
| `Lehmer.RankInjective` | permutation.c:8-27 | different permutations of `0..n-1` have different ranks |
| `Permutation.AllAvailable` | permutation.c:3-6 | once every flag is 1, no card is struck out: the flag invariant holds at position 0 |
| `Permutation.FlagsCard` | permutation.c:16-19 | the sum of the first `b` flags is the number of available cards below `b` |
| `Permutation.AvailableCount` | permutation.c:15-19 | with the cards of `deck[0..i-1]` struck out, the flags below `b` add up to the number of cards in `deck[i..]` below `b` |
| `Permutation.DigitFromFlags` | permutation.c:13-19 | the count of available cards below `deck[i]` is Lehmer digit `i` |
| `Permutation.StrikeOut` | permutation.c:22 | zeroing the flag of `deck[i]`, and no other entry, turns the flag state for position `i` into the state for position `i+1` |
| `Permutation.RemainingFlags` | permutation.c:12-22 | at the start of position `i` exactly `n-i` flags are set |
| `Permutation.OnlyLastAvailable` | permutation.c:11-12 | at position `n-1` only `deck[n-1]` is still available, so its digit is 0 and skipping it loses nothing |
| `Permutation.Accumulate` | permutation.c:21 | adding digit `i` times `(n-1-i)!` to `pn` advances the accumulator past that digit of the rank |
| `Permutation.LastDigit` | permutation.c:11 | the numeral left after the final loop iteration is worth 0 |
| `Permutation.OuterStep` | permutation.c:12-24 | one pass of the outer loop keeps the flag invariant, keeps `f == (n-1-i)!` through the exact division, and keeps `pn` plus the rest of the numeral equal to the rank |
| `Permutation.CountAvailable` | permutation.c:16-19 | the inner loop returns the sum of the flags of the cards below `val` |
| `Permutation.PermutationNumber` | permutation.c:1-28 | for a deck that is a permutation of `0..n-1` with `n >= 1`, the result is the lexicographic rank `Rank(deck[0..n-1])` and lies in `0 .. n!-1`; `deck` is never written |

## Left out

- The `malloc` and `free` of the flag buffer (lines 3 and 26) are not modelled. The buffer is a fresh local `array<int>` of length `n`, so nothing is freed and no allocation can fail.
- Integers are unbounded. Overflow of C `int` in `pn`, `f` or `pos * f` is not modelled; the C code is only correct while `n!` fits in an `int`.
- The body of `factorial` is not part of this model. `Factorial` is the mathematical definition.
- The source validates no input. That the deck is a permutation of `0..n-1` and that `n >= 1` are preconditions, and there is no error path.
- Unranking, the inverse map, is not in the source and is not modelled.
- It is not proved that every value in `0 .. n!-1` is the rank of some permutation (no gaps). That needs an enumeration of all `n!` permutations, which the code does not do. Injectivity and the bounds are proved.
