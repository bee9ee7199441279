# weighted_words in Dafny

A model of `weighted_words.py`, a small combinatorial library over n-bit words, with proofs about it. A word is a non-negative integer below 2^n. Its weight is its number of 1-bits.

The library has four parts, and each becomes one module of the model:

- **bit count** (`bits.dfy`, module `Bits`). `weight` is the method `Weight`: a `while` loop that tests and shifts out the lowest bit. It is proved to compute the Hamming weight `Popcount` and to agree with an independent bit-by-bit count, `OnesBelow`.
- **counters** (`counting.dfy`, module `Counting`). `counting_d_weight` and `counting_less_d_weight` are recursive functions. Each is proved equal to a reference definition in `binomials.dfy` (module `Binomials`): Pascal's rule for C(n, k), and the partial row sums of Pascal's triangle. The ValueError that `counting_d_weight` raises is the `ValueError` case of the result datatype `Checked`.
- **enumerators** (`enumeration.dfy`, module `Enumeration`). Each generator is a function that returns the whole sequence it yields.
  - `enumerate_d_weight` splits an n-bit word into a high part of j = n / 2 bits and a low part of k = n - j bits. For each weight h of the high part, it yields the group that pairs every high word of weight h with every low word of weight d - h.
  - The model proves that the enumeration holds exactly the n-bit words of weight d, once each, and that there are C(n, d) of them.
  - Therefore the counters count words.
- **unrankers** (`indexing.dfy`, module `Indexing`).
  - `idx_d_weight` is the method `IdxDWeight`. Its `for` loop, which accumulates the offset of each group, is the method `FindGroup`. Its final branch, which recurses on the high and low parts, is the method `IdxInGroup`.
  - `idx_less_d_weight` is the method `IdxLessDWeight`. It is a method rather than a function because it calls `IdxDWeight`.
  - Both are proved to return the word at position i of the matching enumeration, which is the property the source's doc comments state.

`arith.dfy` (module `Arithmetic`) holds facts about integer division that the other modules use.

The source is Python 2, so `/` on integers is floor division, and it is modelled that way.

## Model

| member | source | states |
|---|---|---|
| Bits.Weight | weighted_words.py:9-16 | the loop returns the number of 1-bits of i, and for every width m with i < 2^m this is the count of set bits among positions 0 .. m-1 |
| Bits.PopcountCountsBits | weighted_words.py:9-16 | the weight computed by peeling off the lowest bit (0 for 0, i mod 2 plus the weight of i / 2 otherwise) equals the number of set bits at positions 0 .. m-1, for any width m that holds the word |
| Bits.PopcountBound | weighted_words.py:9-16 | a word below 2^m has weight at most m |
| Bits.PopcountFull | weighted_words.py:9-16 | the only m-bit word of weight m is 2^m - 1 |
| Bits.PopcountZero | weighted_words.py:9-16 | the only word of weight 0 is 0 |
| Bits.PopcountConcat | weighted_words.py:57 | the weight of (x << k) + y, with y below 2^k, is the weight of x plus the weight of y |
| Bits.JoinWord | weighted_words.py:57 | (x << k) + y with y below 2^k shifts back to x, and its low k bits are y |
| Bits.SplitWord | weighted_words.py:53-57 | every word is its high part shifted left by k plus its low k bits; the two weights add up to the word's weight; the word fits in j + k bits exactly when its high part fits in j bits |
| Bits.PartWeights | weighted_words.py:53-57 | the two parts of a (j + k)-bit word of weight d have weights that add up to d and fit their widths |
| Counting.CountingDWeight | weighted_words.py:18-29 | ValueError exactly when 0 <= k <= n fails; otherwise the binomial coefficient C(n, k) as Pascal's rule defines it |
| Counting.DivisionIsExact | weighted_words.py:28 | the division by k in the recurrence leaves no remainder, and its quotient is C(n, k) |
| Binomials.MultiplicativeStep | weighted_words.py:28 | C(n, k-1) (n-k+1) == k C(n, k): the multiplicative recurrence agrees with Pascal's rule |
| Binomials.Symmetry | weighted_words.py:28 | C(n, k) == C(n, n-k), a step of the recurrence's correctness proof |
| Binomials.Absorption | weighted_words.py:28 | k C(n, k) == n C(n-1, k-1), a step of the recurrence's correctness proof |
| Counting.CountingLessDWeight | weighted_words.py:31-40 | the sum of C(n, t) for t = 0 .. d, including at d == n, where the source answers 2^n directly |
| Binomials.RowSumFull | weighted_words.py:39-40 | the whole row n of Pascal's triangle sums to 2^n, so the shortcut at d == n agrees with the sum |
| Binomials.RowSumPascal | weighted_words.py:39-40 | a helper for the 2^n shortcut: a partial row sum of row n is the sum of two partial row sums of row n - 1 |
| Enumeration.HighBits | weighted_words.py:53 | the high width j is n / 2 rounded down: 2 j <= n <= 2 j + 1 |
| Enumeration.LowBits | weighted_words.py:53 | the high width j = n / 2 and the low width k add up to n |
| Enumeration.First | weighted_words.py:54 | the first high weight the loop visits is max(0, d - k) |
| Enumeration.Stop | weighted_words.py:54 | the loop over high weights stops before min(j + 1, d + 1) |
| Enumeration.EnumerateDWeight | weighted_words.py:42-58 | the sequence the generator yields has C(n, d) words, as many as there are n-bit words of weight d; which words they are is EnumerateDWeightMembers |
| Enumeration.Groups | weighted_words.py:53-58 | the `for` loop over high weights h and the generator expression inside it: the groups from h on hold as many words as the group sizes C(j, t) C(k, d - t) for t from h on add up to |
| Enumeration.Join | weighted_words.py:57 | the generator expression yields one word per pair of a high and a low part |
| Enumeration.JoinAt | weighted_words.py:57 | position a \|lows\| + b of the group holds high part a shifted left by k plus low part b: the high part is the outer loop |
| Enumeration.JoinMembers | weighted_words.py:57 | a word is in the group exactly when its high part is one of the highs and its low k bits are one of the lows |
| Enumeration.ShiftedMembers | weighted_words.py:57 | a word is among (x << k) + y for the lows y exactly when its high part is x and its low part is one of the lows |
| Enumeration.JoinDistinct | weighted_words.py:57 | joining duplicate-free highs and duplicate-free k-bit lows yields no word twice |
| Enumeration.JoinOfWords | weighted_words.py:54-58 | joining the j-bit words of weight h with the k-bit words of weight d - h yields exactly the (j + k)-bit words of weight d whose high part has weight h |
| Enumeration.WordOfGroup | weighted_words.py:54-58 | a word's parts have weights h and d - h and fit their widths exactly when the word has j + k bits, weight d and a high part of weight h |
| Enumeration.GroupMembers | weighted_words.py:54-58 | group h holds exactly the n-bit words of weight d whose high part has weight h |
| Enumeration.GroupsMembers | weighted_words.py:54-58 | the groups from h on hold exactly the n-bit words of weight d whose high part has weight at least h |
| Enumeration.GroupsDistinct | weighted_words.py:54-58 | no word occurs twice in the groups from h on |
| Enumeration.GroupWeights | weighted_words.py:53-54 | every high weight h in the loop range, and its low weight d - h, fit their widths, and both widths lie between 1 and n - 1 |
| Binomials.GroupSizesSum | weighted_words.py:53-58 | over the high weights max(0, d-k) .. min(j, d) that the loop visits, the group sizes add up to C(n, d) |
| Binomials.Vandermonde | weighted_words.py:53-58 | summing C(j, t) C(k, d-t) over every split of the weight gives C(j + k, d) |
| Binomials.BinomialPositive | weighted_words.py:87-93 | every C(n, k) with 0 <= k <= n is at least 1, so both c1 and c2 are non-zero for every h in the loop range |
| Enumeration.EnumerateDWeightMembers | weighted_words.py:42-58 | a word is enumerated exactly when it lies below 2^n and has weight d |
| Enumeration.EnumeratedWord | weighted_words.py:42-58 | the word at any position of the enumeration lies below 2^n and has weight d |
| Enumeration.EnumerateDWeightDistinct | weighted_words.py:42-58 | no word is enumerated twice |
| Enumeration.EnumerateDWeightCount | weighted_words.py:42-58 | the enumeration holds as many words as `counting_d_weight(d, n)` returns |
| Enumeration.EnumerateZeroWeight | weighted_words.py:46-49 | for every width, the enumeration of weight 0 is the single word 0 |
| Enumeration.EnumerateFullWeight | weighted_words.py:42-58 | the enumeration of weight n is the single word 2^n - 1 |
| Enumeration.EnumerateOneBit | weighted_words.py:48-51 | the 1-bit words: [0] for weight 0 and [1] for weight 1 |
| Enumeration.EnumerateTwoBits | weighted_words.py:48-58 | the 2-bit words in order: [0] for weight 0, [1, 2] for weight 1, [3] for weight 2 |
| Enumeration.EnumerateTwoOfFour | weighted_words.py:52-58 | the 4-bit words of weight 2 come in the order 3, 5, 6, 9, 10, 12 |
| Enumeration.EnumerateDWeightAt | weighted_words.py:85-98 | position i of the enumeration, where c is the total size of the groups before h, c <= i, and i - c is below the size of group h, is position i - c of group h |
| Enumeration.GroupsOffset | weighted_words.py:85-98 | the groups from h on are the tail of the groups from lo on: position t of them is position t after the groups lo .. h-1 |
| Enumeration.GroupsStep | weighted_words.py:95-96 | the groups from lo + 1 on are the tail of the groups from lo on, right after group lo |
| Enumeration.GroupHead | weighted_words.py:105-110 | the groups from h on begin with group h |
| Enumeration.JoinAtPosition | weighted_words.py:106-110 | position t of a group with m low parts holds the high part at t / m, shifted left by k, plus the low part at t % m |
| Enumeration.EnumerateLessDWeight | weighted_words.py:60-66 | the enumeration of weights 0 .. d holds as many words as the partial row sum of Pascal's triangle |
| Enumeration.EnumerateLessDWeightCount | weighted_words.py:60-66 | the enumeration holds as many words as `counting_less_d_weight(d, n)` returns, and it is the enumeration of weights up to d - 1 followed by that of weight d |
| Enumeration.EnumerateLessDWeightMembers | weighted_words.py:60-66 | a word is enumerated exactly when it lies below 2^n and has weight at most d |
| Enumeration.EnumerateLessDWeightDistinct | weighted_words.py:60-66 | no word is enumerated twice |
| Enumeration.DistinctCardinality | weighted_words.py:19 | a helper for the counting claim of the doc comment: a duplicate-free sequence holds as many distinct words as it is long |
| Enumeration.CountingDWeightCountsWords | weighted_words.py:18-22 | `counting_d_weight(d, n)` is the number of n-bit words of weight d |
| Enumeration.CountingLessDWeightCountsWords | weighted_words.py:31-33 | `counting_less_d_weight(d, n)` is the number of n-bit words of weight at most d |
| Indexing.IdxDWeight | weighted_words.py:68-110 | for n >= 1: ValueError exactly when 0 <= d <= n fails; otherwise, for every i below `counting_d_weight(d, n)`, the word at position i of `enumerate_d_weight(d, n)` |
| Indexing.FindGroup | weighted_words.py:84-104 | the loop stops at a high weight h in range, where the running offset c, the total size of the groups before h, is at most i and i - c is below the size c1 c2 of group h; the loop never falls through and the branches at lines 99-104 are never taken |
| Indexing.IdxInGroup | weighted_words.py:105-110 | the two recursive calls, whose arguments come from GroupCalls (t / c2 with weight h and width j, t % c2 with weight d - h and width k), combine into the word at position t of group h |
| Indexing.IdxLessDWeight | weighted_words.py:112-126 | for every i below `counting_less_d_weight(d, n)`, the word at position i of `enumerate_less_d_weight(d, n)`: a word below 2^n of weight at most d, and 0 when d == 0 |
| Indexing.GroupCalls | weighted_words.py:84-110 | the arguments of the two recursive calls that IdxInGroup makes: weights h and d - h, widths j = HighBits(n) and k = LowBits(n) as split at line 84, adding up to n, and positions x1, x2 with x1 c2 + x2 == i and x2 < c2 |
| Indexing.GroupCallsNarrower | weighted_words.py:84-110 | from width 2 upwards, both recursive calls are on widths between 1 and n - 1, so the recursion ends at the n == 1 cases |
| Indexing.IdxDWeightAtZeroWidthRepeats | weighted_words.py:76-110 | at i = d = n = 0 the assertion passes, the only group is h = 0 with one word on each side, and the first recursive call is on (0, 0, 0) again, so the recursion has no bound and never returns a value |
| Indexing.IdxDWeightTotal | weighted_words.py:68-110 | `idx_d_weight` over every integer width, with the width-0 case answered as `enumerate_d_weight` does: ValueError exactly when 0 <= d <= n fails (a negative width included, as `counting_d_weight` raises at line 24), otherwise the word at position i of `enumerate_d_weight(d, n)` |

## Left out

- The generators' laziness. Each enumerator is a function that returns the whole sequence it would yield; only the order of the words is observable.
- The commented-out debug output in `idx_d_weight` (lines 75-109). It has no behaviour.
- Python 3 semantics. The source relies on Python 2's integer `/` (lines 28, 53, 84, 106), and that is what the model uses.
- Negative arguments to `weight`. With a negative argument the loop never ends, because -1 >> 1 is -1. Bits.Weight takes a `nat`.
- The source's `assert` statements (lines 34, 45, 63, 76 and 119) raise AssertionError when they fail. The model makes them preconditions instead: Counting.CountingLessDWeight, Enumeration.EnumerateDWeight, Enumeration.EnumerateLessDWeight, Indexing.IdxDWeight and Indexing.IdxLessDWeight require what those assertions check. The one exception is the weight range at line 76, whose failure raises ValueError in the model as in the source.
- Negative positions i in `idx_d_weight` and `idx_less_d_weight`. The assertions at lines 76 and 119 do not reject them. The model takes i as a `nat`.
- IdxDWeight: requires n >= 1. At n == 0 and d == 0 the source recurses without bound and never returns a value (see Findings). At n == 0 with d != 0, and at negative widths, it raises ValueError. IdxDWeightTotal is the version over every integer width and covers all three.
- IdxDWeight: the loop and its final branch are split into the methods FindGroup and IdxInGroup. The branches at lines 99-104 are modelled as unreachable (`assert false`), which FindGroup proves they are.
- Counting.CountingDWeight: the trailing `return 0` at line 29 is unreachable, because the guard at line 23 already ensures k <= n. The model has no branch for it.
- The running time of the functions. There is no memoization in the source, and cost is not modelled.

## Findings

| source | as written | input that shows it | evidently intended | confidence | as-written member | corrected member |
|---|---|---|---|---|---|---|
| weighted_words.py:68-110 | `idx_d_weight` has base cases only for n == 1, so at width 0 and weight 0 it takes the general branch with j = k = 0, and its first recursive call repeats the same arguments, so it recurses without bound and never returns a value | `idx_d_weight(0, 0, 0)`, which passes the assertion because `counting_d_weight(0, 0)` is 1, whereas `enumerate_d_weight(0, 0)` yields 0 | return 0 at width 0, as `enumerate_d_weight` does at line 47 | high; not executed | Indexing.IdxDWeightAtZeroWidthRepeats | Indexing.IdxDWeightTotal |
