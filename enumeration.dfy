/** The enumerators of weighted_words.py, `enumerate_d_weight` and
    `enumerate_less_d_weight`, as functions that return the whole sequence
    the generators yield, with the facts that make them a duplicate-free
    listing of a weight class in canonical order. */
module Enumeration {
  import opened Arithmetic
  import opened Bits
  import opened Binomials
  import opened Counting

  // ---------------------------------------------------------------------
  // The split rule shared with the unranker: an n-bit word is a high part
  // of j = n / 2 bits followed by a low part of k = n - j bits, and the
  // high part's weight h runs over max(0, d - k) .. min(j, d).
  // ---------------------------------------------------------------------

  /** j: the width of the high part, n / 2 rounded down. */
  function HighBits(n: nat): (j: nat)
    ensures 2 * j <= n <= 2 * j + 1
  {
    n / 2
  }

  /** k: the width of the low part, one more than j when n is odd. */
  function LowBits(n: nat): (k: nat)
    ensures HighBits(n) + k == n
  {
    if n % 2 == 1 then n / 2 + 1 else n / 2
  }

  /** The first high-part weight tried: max(0, d - k). */
  function First(d: nat, n: nat): (r: nat)
    ensures r >= d - LowBits(n)
    ensures r == 0 || r == d - LowBits(n)
  {
    if d > LowBits(n) then d - LowBits(n) else 0
  }

  /** One past the last high-part weight tried: min(j + 1, d + 1). */
  function Stop(d: nat, n: nat): (r: nat)
    ensures r <= HighBits(n) + 1 && r <= d + 1
    ensures r == HighBits(n) + 1 || r == d + 1
  {
    if HighBits(n) < d then HighBits(n) + 1 else d + 1
  }

  // ---------------------------------------------------------------------
  // Combining high and low parts
  // ---------------------------------------------------------------------

  /** The words (x << k) + y for y in lows, in the order of lows. */
  function Shifted(x: nat, lows: seq<nat>, k: nat): (r: seq<nat>)
    ensures |r| == |lows|
  {
    var high := ShiftLeft(x, k);
    seq(|lows|, (t: int) requires 0 <= t < |lows| => high + lows[t])
  }

  /** The words (x << k) + y for x in highs (outer loop) and y in lows
      (inner loop). */
  function Join(highs: seq<nat>, lows: seq<nat>, k: nat): (r: seq<nat>)
    ensures |r| == |highs| * |lows|
  {
    if highs == [] then []
    else Shifted(highs[0], lows, k) + Join(highs[1..], lows, k)
  }

  /** No word occurs twice. */
  predicate Distinct(s: seq<nat>)
  {
    forall a, b :: 0 <= a < b < |s| ==> s[a] != s[b]
  }

  // ---------------------------------------------------------------------
  // The enumerators
  // ---------------------------------------------------------------------

  /** `enumerate_d_weight(d, n)`: the n-bit words of weight d, in canonical
      order; there are C(n, d) of them. */
  function EnumerateDWeight(d: nat, n: nat): (r: seq<nat>)
    requires d <= n
    ensures |r| == Binomial(n, d)
    decreases n, 1
  {
    if n == 0 then [0]
    else if d == 0 && n == 1 then [0]
    else if d == 1 && n == 1 then [1]
    else
      GroupSizesSum(HighBits(n), LowBits(n), d, First(d, n), Stop(d, n));
      Groups(d, n, First(d, n))
  }

  /** The groups h, h + 1, .., Stop(d, n) - 1 of the general case of
      `enumerate_d_weight`: group h pairs every j-bit word of weight h with
      every k-bit word of weight d - h, so the groups hold as many words as
      the group sizes C(j, t) C(k, d - t) from t = h on add up to. */
  function Groups(d: nat, n: nat, h: nat): (r: seq<nat>)
    requires 2 <= n && d <= n && First(d, n) <= h <= Stop(d, n)
    ensures |r| == Convolution(HighBits(n), LowBits(n), d, h, Stop(d, n))
    decreases n, 0, Stop(d, n) - h
  {
    if h == Stop(d, n) then []
    else
      Join(EnumerateDWeight(h, HighBits(n)), EnumerateDWeight(d - h, LowBits(n)), LowBits(n))
      + Groups(d, n, h + 1)
  }

  /** `enumerate_less_d_weight(d, n)`: the words of weight 0, then those of
      weight 1, .., then those of weight d; as many as the first d + 1
      entries of row n of Pascal's triangle add up to. */
  function EnumerateLessDWeight(d: nat, n: nat): (r: seq<nat>)
    requires d <= n
    ensures |r| == RowSum(n, d)
  {
    if d == 0 then EnumerateDWeight(0, n)
    else EnumerateLessDWeight(d - 1, n) + EnumerateDWeight(d, n)
  }

  // ---------------------------------------------------------------------
  // Facts about Join
  // ---------------------------------------------------------------------

  /** Position a * |lows| + b of the join holds high part a and low part b. */
  lemma {:induction false} JoinAt(highs: seq<nat>, lows: seq<nat>, k: nat, a: nat, b: nat)
    requires a < |highs| && b < |lows|
    ensures a * |lows| + b < |highs| * |lows|
    ensures Join(highs, lows, k)[a * |lows| + b] == ShiftLeft(highs[a], k) + lows[b]
    decreases a
  {
    var rest := Join(highs[1..], lows, k);
    if a == 0 {
      assert |highs| * |lows| == |lows| + |rest|;
    } else {
      JoinAt(highs[1..], lows, k, a - 1, b);
      assert a * |lows| + b == |lows| + ((a - 1) * |lows| + b);
      assert |highs| * |lows| == |lows| + |rest|;
    }
  }

  /** Position t of the join holds high part t / m and low part t % m,
      where m is the number of low parts. */
  lemma JoinAtPosition(highs: seq<nat>, lows: seq<nat>, k: nat, t: nat, m: nat)
    requires m == |lows| && t < |highs| * m
    ensures m >= 1
    ensures 0 <= t / m < |highs| && 0 <= t % m < m
    ensures t < |Join(highs, lows, k)|
    ensures Join(highs, lows, k)[t] == ShiftLeft(highs[t / m], k) + lows[t % m]
  {
    if m == 0 {
      assert false;
    }
    QuotientBound(t, m, |highs|);
    QuotientNonNegative(t, m);
    DivisionEquation(t, m);
    JoinAt(highs, lows, k, t / m, t % m);
  }

  /** The groups from h on are the tail of the groups from lo on: they start
      where the groups lo .. h - 1 end. */
  lemma {:induction false} GroupsOffset(d: nat, n: nat, lo: nat, h: nat, t: nat)
    requires 2 <= n && d <= n && First(d, n) <= lo <= h <= Stop(d, n)
    requires t < |Groups(d, n, h)|
    ensures var all, tail := Groups(d, n, lo), Groups(d, n, h);
      |tail| <= |all| && all[|all| - |tail| + t] == tail[t]
    decreases h - lo
  {
    if lo < h {
      var next, tail := Groups(d, n, lo + 1), Groups(d, n, h);
      GroupsOffset(d, n, lo + 1, h, t);
      GroupsStep(d, n, lo, |next| - |tail| + t);
    }
  }

  /** Past group lo, the groups from lo on continue with the groups from
      lo + 1 on. */
  lemma GroupsStep(d: nat, n: nat, lo: nat, x: nat)
    requires 2 <= n && d <= n && First(d, n) <= lo < Stop(d, n)
    requires x < |Groups(d, n, lo + 1)|
    ensures var all, next := Groups(d, n, lo), Groups(d, n, lo + 1);
      |next| <= |all| && all[|all| - |next| + x] == next[x]
  {
  }

  /** The weights of the two parts of group h fit their widths, and both
      widths are between 1 and n - 1. */
  lemma GroupWeights(d: nat, n: nat, h: nat)
    requires 2 <= n && d <= n && First(d, n) <= h < Stop(d, n)
    ensures 0 <= h <= HighBits(n) && 0 <= d - h <= LowBits(n)
    ensures 1 <= HighBits(n) < n && 1 <= LowBits(n) < n
  {
  }

  /** Position i of the enumeration, where c = Convolution(j, k, d, First, h)
      is the total size of the groups before h and i - c is below the size
      C(j, h) C(k, d - h) of group h, is position i - c of that group's join. */
  lemma EnumerateDWeightAt(d: nat, n: nat, h: nat, c: nat, i: nat)
    requires 2 <= n && d <= n && First(d, n) <= h < Stop(d, n)
    requires c == Convolution(HighBits(n), LowBits(n), d, First(d, n), h) <= i
    requires i - c < Binomial(HighBits(n), h) * Binomial(LowBits(n), d - h)
    ensures var group := Join(EnumerateDWeight(h, HighBits(n)), EnumerateDWeight(d - h, LowBits(n)), LowBits(n));
      i < |EnumerateDWeight(d, n)| && i - c < |group| && EnumerateDWeight(d, n)[i] == group[i - c]
  {
    var t := i - c;
    ConvolutionSplit(HighBits(n), LowBits(n), d, First(d, n), h, Stop(d, n));
    GroupHead(d, n, h, t);
    GroupsOffset(d, n, First(d, n), h, t);
    assert |Groups(d, n, First(d, n))| - |Groups(d, n, h)| == c;
    assert EnumerateDWeight(d, n) == Groups(d, n, First(d, n));
  }

  /** Group h is the head of the groups from h on. */
  lemma GroupHead(d: nat, n: nat, h: nat, t: nat)
    requires 2 <= n && d <= n && First(d, n) <= h < Stop(d, n)
    requires t < Binomial(HighBits(n), h) * Binomial(LowBits(n), d - h)
    ensures var group := Join(EnumerateDWeight(h, HighBits(n)), EnumerateDWeight(d - h, LowBits(n)), LowBits(n));
      t < |group| && t < |Groups(d, n, h)| && Groups(d, n, h)[t] == group[t]
  {
  }

  /** A word is one of (x << k) + y for y in lows exactly when its high part
      is x and its low k bits are one of the lows. */
  lemma ShiftedMembers(x: nat, lows: seq<nat>, k: nat)
    requires forall y :: y in lows ==> y < Pow2(k)
    ensures forall v: nat {:trigger v in Shifted(x, lows, k)} :: v in Shifted(x, lows, k) <==> HighPart(v, k) == x && LowPart(v, k) in lows
  {
    var s := Shifted(x, lows, k);
    forall v: nat
      ensures v in s <==> HighPart(v, k) == x && LowPart(v, k) in lows
    {
      if v in s {
        var t :| 0 <= t < |lows| && s[t] == v;
        assert lows[t] in lows;
        JoinWord(x, lows[t], k);
      }
      if HighPart(v, k) == x && LowPart(v, k) in lows {
        var t :| 0 <= t < |lows| && lows[t] == LowPart(v, k);
        SplitWord(v, 0, k);
        assert s[t] == v;
      }
    }
  }

  /** A word is in the join exactly when its high part is one of the highs
      and its low k bits are one of the lows. */
  lemma {:induction false} JoinMembers(highs: seq<nat>, lows: seq<nat>, k: nat)
    requires forall y :: y in lows ==> y < Pow2(k)
    ensures forall v: nat {:trigger v in Join(highs, lows, k)} :: v in Join(highs, lows, k) <==> HighPart(v, k) in highs && LowPart(v, k) in lows
    decreases |highs|
  {
    if highs != [] {
      JoinMembers(highs[1..], lows, k);
      ShiftedMembers(highs[0], lows, k);
      assert forall x :: x in highs <==> x == highs[0] || x in highs[1..];
    }
  }

  lemma DistinctConcat(s: seq<nat>, t: seq<nat>)
    requires Distinct(s) && Distinct(t)
    requires forall v :: v in s ==> v !in t
    ensures Distinct(s + t)
  {
    var st := s + t;
    forall a, b | 0 <= a < b < |st|
      ensures st[a] != st[b]
    {
      if b < |s| {
        assert st[a] == s[a] && st[b] == s[b];
      } else if a >= |s| {
        assert st[a] == t[a - |s|] && st[b] == t[b - |s|];
      } else {
        assert st[a] == s[a] && st[b] == t[b - |s|];
        assert s[a] in s;
      }
    }
  }

  lemma DistinctTail(s: seq<nat>)
    requires Distinct(s) && s != []
    ensures Distinct(s[1..]) && s[0] !in s[1..]
  {
    forall a, b | 0 <= a < b < |s| - 1
      ensures s[1..][a] != s[1..][b]
    {
      assert s[1..][a] == s[a + 1] && s[1..][b] == s[b + 1];
    }
    forall t | 0 <= t < |s| - 1
      ensures s[1..][t] != s[0]
    {
      assert s[1..][t] == s[t + 1];
    }
  }

  lemma {:induction false} JoinDistinct(highs: seq<nat>, lows: seq<nat>, k: nat)
    requires Distinct(highs) && Distinct(lows)
    requires forall y :: y in lows ==> y < Pow2(k)
    ensures Distinct(Join(highs, lows, k))
    decreases |highs|
  {
    if highs != [] {
      var x := highs[0];
      var s := Shifted(x, lows, k);
      forall a, b | 0 <= a < b < |s|
        ensures s[a] != s[b]
      {
        assert s[a] == ShiftLeft(x, k) + lows[a] && s[b] == ShiftLeft(x, k) + lows[b];
      }
      DistinctTail(highs);
      JoinDistinct(highs[1..], lows, k);
      ShiftedMembers(x, lows, k);
      JoinMembers(highs[1..], lows, k);
      DistinctConcat(s, Join(highs[1..], lows, k));
    }
  }

  // ---------------------------------------------------------------------
  // enumerate_d_weight: length, members, no duplicates
  // ---------------------------------------------------------------------

  /** The enumeration yields as many words as `counting_d_weight` counts. */
  lemma EnumerateDWeightCount(d: nat, n: nat)
    requires d <= n
    ensures |EnumerateDWeight(d, n)| == CountingDWeight(d, n).value
  {
  }

  /** The enumeration holds exactly the n-bit words of weight d. */
  lemma {:induction false} EnumerateDWeightMembers(d: nat, n: nat)
    requires d <= n
    ensures forall v: nat :: v in EnumerateDWeight(d, n) <==> IsWord(v, d, n)
    decreases n, 1
  {
    if n < 2 {
      SmallWords(d, n);
    } else {
      var k := LowBits(n);
      GroupsMembers(d, n, First(d, n));
      forall v: nat | IsWord(v, d, n)
        ensures First(d, n) <= Popcount(HighPart(v, k))
      {
        PartWeights(v, d, HighBits(n), k);
      }
    }
  }

  /** The word at any position of the enumeration is an n-bit word of weight d. */
  lemma EnumeratedWord(d: nat, n: nat, i: nat)
    requires d <= n && i < |EnumerateDWeight(d, n)|
    ensures IsWord(EnumerateDWeight(d, n)[i], d, n)
  {
    EnumerateDWeightMembers(d, n);
    assert EnumerateDWeight(d, n)[i] in EnumerateDWeight(d, n);
  }

  /** The words of at most one bit: 0 has weight 0 and 1 has weight 1. */
  lemma SmallWords(d: nat, n: nat)
    requires d <= n < 2
    ensures forall v: nat :: IsWord(v, d, n) <==> v == d
  {
    assert Pow2(0) == 1 && Pow2(1) == 2;
    assert Popcount(0) == 0 && Popcount(1) == 1;
  }

  /** Group h onwards holds the n-bit words of weight d whose high part has
      weight at least h. */
  lemma {:induction false} GroupsMembers(d: nat, n: nat, h: nat)
    requires 2 <= n && d <= n && First(d, n) <= h <= Stop(d, n)
    ensures forall v: nat :: v in Groups(d, n, h) <==> IsWord(v, d, n) && h <= Popcount(HighPart(v, LowBits(n)))
    decreases n, 0, Stop(d, n) - h
  {
    var j, k := HighBits(n), LowBits(n);
    if h == Stop(d, n) {
      forall v: nat | IsWord(v, d, n)
        ensures Popcount(HighPart(v, k)) < h
      {
        PartWeights(v, d, j, k);
      }
    } else {
      GroupMembers(d, n, h);
      GroupsMembers(d, n, h + 1);
    }
  }

  /** Group h alone holds the n-bit words of weight d whose high part has
      weight h. */
  lemma {:induction false} GroupMembers(d: nat, n: nat, h: nat)
    requires 2 <= n && d <= n && First(d, n) <= h < Stop(d, n)
    ensures forall v: nat ::
      v in Join(EnumerateDWeight(h, HighBits(n)), EnumerateDWeight(d - h, LowBits(n)), LowBits(n))
      <==> IsWord(v, d, n) && Popcount(HighPart(v, LowBits(n))) == h
    decreases n, 0, 0
  {
    GroupWeights(d, n, h);
    var j, k := HighBits(n), LowBits(n);
    var highs, lows := EnumerateDWeight(h, j), EnumerateDWeight(d - h, k);
    EnumerateDWeightMembers(h, j);
    EnumerateDWeightMembers(d - h, k);
    JoinOfWords(highs, lows, d, h, j, k);
    assert j + k == n;
  }

  /** Joining every j-bit word of weight h with every k-bit word of weight
      d - h gives the (j + k)-bit words of weight d whose high part has
      weight h. */
  lemma JoinOfWords(highs: seq<nat>, lows: seq<nat>, d: nat, h: nat, j: nat, k: nat)
    requires h <= d
    requires forall x: nat :: x in highs <==> IsWord(x, h, j)
    requires forall y: nat :: y in lows <==> IsWord(y, d - h, k)
    ensures forall v: nat :: v in Join(highs, lows, k) <==> IsWord(v, d, j + k) && Popcount(HighPart(v, k)) == h
  {
    forall y | y in lows
      ensures y < Pow2(k)
    {
      assert IsWord(y, d - h, k);
    }
    JoinMembers(highs, lows, k);
    forall v: nat
      ensures v in Join(highs, lows, k) <==> IsWord(v, d, j + k) && Popcount(HighPart(v, k)) == h
    {
      var high, low := HighPart(v, k), LowPart(v, k);
      assert v in Join(highs, lows, k) <==> high in highs && low in lows;
      WordOfGroup(v, d, h, j, k);
    }
  }

  /** A word belongs to group h exactly when its parts have the group's weights. */
  lemma WordOfGroup(v: nat, d: nat, h: nat, j: nat, k: nat)
    requires h <= d
    ensures IsWord(HighPart(v, k), h, j) && IsWord(LowPart(v, k), d - h, k)
        <==> IsWord(v, d, j + k) && Popcount(HighPart(v, k)) == h
  {
    SplitWord(v, j, k);
  }

  /** No word is enumerated twice. */
  lemma {:induction false} EnumerateDWeightDistinct(d: nat, n: nat)
    requires d <= n
    ensures Distinct(EnumerateDWeight(d, n))
    decreases n, 1
  {
    if n >= 2 {
      GroupsDistinct(d, n, First(d, n));
    }
  }

  lemma {:induction false} GroupsDistinct(d: nat, n: nat, h: nat)
    requires 2 <= n && d <= n && First(d, n) <= h <= Stop(d, n)
    ensures Distinct(Groups(d, n, h))
    decreases n, 0, Stop(d, n) - h
  {
    if h < Stop(d, n) {
      var j, k := HighBits(n), LowBits(n);
      var highs, lows := EnumerateDWeight(h, j), EnumerateDWeight(d - h, k);
      EnumerateDWeightDistinct(h, j);
      EnumerateDWeightDistinct(d - h, k);
      EnumerateDWeightMembers(h, j);
      EnumerateDWeightMembers(d - h, k);
      JoinDistinct(highs, lows, k);
      JoinMembers(highs, lows, k);
      GroupsDistinct(d, n, h + 1);
      GroupsMembers(d, n, h + 1);
      DistinctConcat(Join(highs, lows, k), Groups(d, n, h + 1));
    }
  }

  /** The only word of weight 0 is 0: `enumerate_d_weight(0, n)` yields it alone. */
  lemma EnumerateZeroWeight(n: nat)
    ensures EnumerateDWeight(0, n) == [0]
  {
    var s := EnumerateDWeight(0, n);
    EnumerateDWeightMembers(0, n);
    assert s[0] in s;
    PopcountZero(s[0]);
  }

  /** The only n-bit word of weight n is 2^n - 1, every bit set. */
  lemma EnumerateFullWeight(n: nat)
    ensures EnumerateDWeight(n, n) == [Pow2(n) - 1]
  {
    var s := EnumerateDWeight(n, n);
    EnumerateDWeightMembers(n, n);
    assert s[0] in s;
    PopcountFull(s[0], n);
  }

  /** The 1-bit words: 0 of weight 0 and 1 of weight 1. */
  lemma EnumerateOneBit()
    ensures EnumerateDWeight(0, 1) == [0] && EnumerateDWeight(1, 1) == [1]
  {
  }

  /** The 2-bit words of each weight, in canonical order. */
  lemma EnumerateTwoBits()
    ensures EnumerateDWeight(0, 2) == [0]
    ensures EnumerateDWeight(1, 2) == [1, 2]
    ensures EnumerateDWeight(2, 2) == [3]
  {
    assert Groups(1, 2, 0) == [1] + Groups(1, 2, 1);
  }

  /** The six 4-bit words of weight 2 in canonical order: the group whose
      high part has weight 0, then the four whose high part has weight 1,
      then the one whose high part has weight 2. */
  lemma EnumerateTwoOfFour()
    ensures EnumerateDWeight(2, 4) == [3, 5, 6, 9, 10, 12]
  {
    EnumerateTwoBits();
    TwoOfFourLaterGroups();
    assert Join([0], [3], 2) == [3];
    assert Groups(2, 4, 0) == [3] + Groups(2, 4, 1);
  }

  /** The groups of the 4-bit words of weight 2 whose high part has weight
      1 or 2. */
  lemma TwoOfFourLaterGroups()
    ensures Groups(2, 4, 1) == [5, 6, 9, 10, 12]
  {
    EnumerateTwoBits();
    TwoOfFourMiddleGroup();
    TwoOfFourLastGroup();
    assert Groups(2, 4, 1) == [5, 6, 9, 10] + Groups(2, 4, 2);
  }

  /** The last group of the 4-bit words of weight 2 is the single word whose
      high part has both bits set. */
  lemma TwoOfFourLastGroup()
    ensures Groups(2, 4, 2) == [12]
  {
    EnumerateTwoBits();
    assert Join([3], [0], 2) == [12];
  }

  /** The middle group of the 4-bit words of weight 2 pairs the 2-bit words
      of weight 1 with themselves. */
  lemma TwoOfFourMiddleGroup()
    ensures Join([1, 2], [1, 2], 2) == [5, 6, 9, 10]
  {
    assert Join([1, 2], [1, 2], 2) == [5, 6] + Join([2], [1, 2], 2);
  }

  // ---------------------------------------------------------------------
  // enumerate_less_d_weight: members, no duplicates
  // ---------------------------------------------------------------------

  /** The enumeration holds exactly the n-bit words of weight at most d. */
  lemma {:induction false} EnumerateLessDWeightMembers(d: nat, n: nat)
    requires d <= n
    ensures forall v: nat :: v in EnumerateLessDWeight(d, n) <==> v < Pow2(n) && Popcount(v) <= d
    decreases d
  {
    EnumerateDWeightMembers(d, n);
    if d > 0 {
      EnumerateLessDWeightMembers(d - 1, n);
    }
  }

  /** The enumeration yields as many words as `counting_less_d_weight`
      counts, and it is the enumeration of weight d - 1 followed by that of
      weight d. */
  lemma EnumerateLessDWeightCount(d: nat, n: nat)
    requires d <= n
    ensures |EnumerateLessDWeight(d, n)| == CountingLessDWeight(d, n)
    ensures d > 0 ==> EnumerateLessDWeight(d, n) == EnumerateLessDWeight(d - 1, n) + EnumerateDWeight(d, n)
  {
  }

  /** No word is enumerated twice. */
  lemma {:induction false} EnumerateLessDWeightDistinct(d: nat, n: nat)
    requires d <= n
    ensures Distinct(EnumerateLessDWeight(d, n))
    decreases d
  {
    EnumerateDWeightDistinct(d, n);
    if d > 0 {
      EnumerateLessDWeightDistinct(d - 1, n);
      EnumerateLessDWeightMembers(d - 1, n);
      EnumerateDWeightMembers(d, n);
      DistinctConcat(EnumerateLessDWeight(d - 1, n), EnumerateDWeight(d, n));
    }
  }

  // ---------------------------------------------------------------------
  // The counters count the words
  // ---------------------------------------------------------------------

  /** The words a sequence holds. */
  function Elements(s: seq<nat>): set<nat>
  {
    set x | x in s
  }

  /** A sequence without duplicates holds as many words as it is long. */
  lemma {:induction false} DistinctCardinality(s: seq<nat>)
    requires Distinct(s)
    ensures |Elements(s)| == |s|
    decreases |s|
  {
    if s != [] {
      DistinctTail(s);
      DistinctCardinality(s[1..]);
      assert Elements(s) == {s[0]} + Elements(s[1..]);
    }
  }

  /** The n-bit words of weight d. */
  ghost function WordsOfWeight(d: nat, n: nat): set<nat>
  {
    set v: nat | 0 <= v < Pow2(n) && Popcount(v) == d
  }

  /** The n-bit words of weight at most d. */
  ghost function WordsUpToWeight(d: nat, n: nat): set<nat>
  {
    set v: nat | 0 <= v < Pow2(n) && Popcount(v) <= d
  }

  /** `counting_d_weight(d, n)` is the number of n-bit words of weight d. */
  lemma CountingDWeightCountsWords(d: nat, n: nat)
    requires d <= n
    ensures |WordsOfWeight(d, n)| == CountingDWeight(d, n).value
  {
    var s := EnumerateDWeight(d, n);
    EnumerateDWeightMembers(d, n);
    EnumerateDWeightDistinct(d, n);
    EnumerateDWeightCount(d, n);
    assert WordsOfWeight(d, n) == Elements(s);
    DistinctCardinality(s);
  }

  /** `counting_less_d_weight(d, n)` is the number of n-bit words of weight at
      most d. */
  lemma CountingLessDWeightCountsWords(d: nat, n: nat)
    requires d <= n
    ensures |WordsUpToWeight(d, n)| == CountingLessDWeight(d, n)
  {
    var s := EnumerateLessDWeight(d, n);
    EnumerateLessDWeightMembers(d, n);
    EnumerateLessDWeightDistinct(d, n);
    assert WordsUpToWeight(d, n) == Elements(s);
    DistinctCardinality(s);
  }
}
