/** The unrankers of weighted_words.py, `idx_d_weight` and
    `idx_less_d_weight`: the i-th word of an enumeration, computed without
    producing the words before it. */
module Indexing {
  import opened Arithmetic
  import opened Bits
  import opened Binomials
  import opened Counting
  import opened Enumeration

  /** `idx_d_weight(i, d, n)`: the word at position i of
      `enumerate_d_weight(d, n)`. A weight outside 0 .. n raises ValueError
      (from the call to `counting_d_weight`); an index past the end fails the
      source's assertion. The width must be at least 1: see
      IdxDWeightAtZeroWidthRepeats. */
  method IdxDWeight(i: nat, d: int, n: nat) returns (r: Checked<nat>)
    requires n >= 1
    requires CountingDWeight(d, n).Ok? ==> i < CountingDWeight(d, n).value
    ensures r == ValueError <==> !(0 <= d <= n)
    ensures 0 <= d <= n ==> i < |EnumerateDWeight(d, n)| && r == Ok(EnumerateDWeight(d, n)[i])
    decreases n, 1
  {
    var total := CountingDWeight(d, n);
    if total == ValueError {
      return ValueError;
    }
    if d == 0 && n == 1 {
      EnumerateOneBit();
      return Ok(0);
    } else if d == 1 && n == 1 {
      EnumerateOneBit();
      return Ok(1);
    }
    var h, c, c2 := FindGroup(i, d, n);
    EnumerateDWeightAt(d, n, h, c, i);
    var w := IdxInGroup(i - c, d, n, h, c2);
    return Ok(w);
  }

  /** The loop of `idx_d_weight`: walk the high-part weights h from
      max(0, d - k) on, adding the size c1 c2 of each group to the offset c,
      until position i falls inside group h; lowCount is that group's c2.
      The branches that recurse on a group with no high or no low parts are
      never taken: every group visited has both. */
  method FindGroup(i: nat, d: nat, n: nat) returns (group: nat, offset: nat, lowCount: nat)
    requires 2 <= n && d <= n && i < Binomial(n, d)
    ensures First(d, n) <= group < Stop(d, n)
    ensures offset == Convolution(HighBits(n), LowBits(n), d, First(d, n), group) <= i
    ensures lowCount == Binomial(LowBits(n), d - group)
    ensures i - offset < Binomial(HighBits(n), group) * lowCount
  {
    var j, k := HighBits(n), LowBits(n);
    GroupSizesSum(j, k, d, First(d, n), Stop(d, n));
    var c := 0;
    for h := First(d, n) to Stop(d, n)
      invariant c == Convolution(j, k, d, First(d, n), h) <= i
    {
      var c1 := CountingDWeight(h, j).value;
      var c2 := CountingDWeight(d - h, k).value;
      BinomialPositive(j, h);
      BinomialPositive(k, d - h);
      ConvolutionStep(j, k, d, First(d, n), h);
      var count: int := if c1 != 0 && c2 != 0 then (c1 as int) * (c2 as int) else (c1 as int) + (c2 as int);
      if i >= c + count {
        c := c + count;
      } else if c1 != 0 && c2 == 0 {
        assert false;
      } else if c2 != 0 && c1 == 0 {
        assert false;
      } else {
        return h, c, c2;
      }
    }
    assert false;
  }

  /** The last branch of the loop of `idx_d_weight`: the word at offset t of
      group h is the high part t / c2 of weight h, shifted left by k, plus the
      low part t % c2 of weight d - h, each found by a recursive call. */
  method IdxInGroup(t: nat, d: nat, n: nat, h: nat, c2: nat) returns (w: nat)
    requires 2 <= n && d <= n && First(d, n) <= h < Stop(d, n)
    requires c2 == Binomial(LowBits(n), d - h) && t < Binomial(HighBits(n), h) * c2
    ensures var group := Join(EnumerateDWeight(h, HighBits(n)), EnumerateDWeight(d - h, LowBits(n)), LowBits(n));
      t < |group| && w == group[t]
    decreases n, 0
  {
    var j, k := HighBits(n), LowBits(n);
    GroupWeights(d, n, h);
    ghost var highs, lows := EnumerateDWeight(h, j), EnumerateDWeight(d - h, k);
    JoinAtPosition(highs, lows, k, t, c2);
    var calls := GroupCalls(t, d, n, h, c2);
    var (x1, h1, n1) := calls.0;
    var (x2, h2, n2) := calls.1;
    var high := IdxDWeight(x1, h1, n1);
    var low := IdxDWeight(x2, h2, n2);
    assert high.value == highs[x1] && low.value == lows[x2];
    w := ShiftLeft(high.value, k) + low.value;
  }

  /** `idx_less_d_weight(i, d, n)`: the word at position i of
      `enumerate_less_d_weight(d, n)`, found by deciding whether i falls among
      the words of weight below d or among those of weight d. */
  method IdxLessDWeight(i: nat, d: nat, n: nat) returns (w: nat)
    requires d <= n
    requires i < CountingLessDWeight(d, n)
    ensures i < |EnumerateLessDWeight(d, n)| && w == EnumerateLessDWeight(d, n)[i]
    ensures w < Pow2(n) && Popcount(w) <= d
    ensures d == 0 ==> w == 0
    decreases d
  {
    ghost var words := EnumerateLessDWeight(d, n);
    EnumerateLessDWeightMembers(d, n);
    if d == 0 {
      EnumerateZeroWeight(n);
      return 0;
    }
    var c := CountingLessDWeight(d - 1, n);
    if i < c {
      w := IdxLessDWeight(i, d - 1, n);
    } else {
      var r := IdxDWeight(i - c, d, n);
      w := r.value;
    }
    assert words[i] in words;
  }

  // ---------------------------------------------------------------------
  // idx_d_weight at width 0
  // ---------------------------------------------------------------------

  /** The arguments (i, weight, width) of the two recursive calls that the
      general branch of `idx_d_weight` makes for group h, once the offset i
      of the wanted word inside the group is known; c2 is the number of low
      parts of the group. */
  function GroupCalls(i: nat, d: nat, n: nat, h: nat, c2: nat): (calls: ((nat, nat, nat), (nat, nat, nat)))
    requires c2 >= 1 && h <= d
    ensures calls.0.1 == h && calls.1.1 + h == d
    ensures calls.0.2 == HighBits(n) && calls.1.2 == LowBits(n)
    ensures calls.0.2 + calls.1.2 == n
    ensures calls.0.0 * c2 + calls.1.0 == i && calls.1.0 < c2
  {
    DivisionEquation(i, c2);
    QuotientNonNegative(i, c2);
    ((i / c2, h, HighBits(n)), (i % c2, d - h, LowBits(n)))
  }

  /** As written, `idx_d_weight(0, 0, 0)` passes its assertion (there is one
      0-bit word), is not one of the n == 1 cases, and so takes the general
      branch: its only group is h == 0 with one high and one low part, the
      index falls inside it, and the first recursive call it makes is
      `idx_d_weight(0, 0, 0)` again: it recurses without bound and never
      returns a value. */
  lemma IdxDWeightAtZeroWidthRepeats()
    ensures CountingDWeight(0, 0) == Ok(1)
    ensures First(0, 0) == 0 && Stop(0, 0) == 1
    ensures CountingDWeight(0, HighBits(0)) == Ok(1) && CountingDWeight(0, LowBits(0)) == Ok(1)
    ensures GroupCalls(0, 0, 0, 0, 1).0 == (0, 0, 0)
  {
  }

  /** Every call that the general branch makes is on a narrower word, so
      from width 1 upwards the recursion reaches the n == 1 cases. */
  lemma GroupCallsNarrower(i: nat, d: nat, n: nat, h: nat, c2: nat)
    requires n >= 2 && c2 >= 1 && h <= d
    ensures 1 <= GroupCalls(i, d, n, h, c2).0.2 < n
    ensures 1 <= GroupCalls(i, d, n, h, c2).1.2 < n
  {
  }

  /** `idx_d_weight` with the width-0 case it is missing, answered as
      `enumerate_d_weight` does: the empty word 0. Any width is accepted; a
      negative one raises ValueError, as `counting_d_weight` does. */
  method IdxDWeightTotal(i: nat, d: int, n: int) returns (r: Checked<nat>)
    requires CountingDWeight(d, n).Ok? ==> i < CountingDWeight(d, n).value
    ensures r == ValueError <==> !(0 <= d <= n)
    ensures 0 <= d <= n ==> i < |EnumerateDWeight(d, n)| && r == Ok(EnumerateDWeight(d, n)[i])
  {
    if n <= 0 {
      var total := CountingDWeight(d, n);
      if total == ValueError {
        return ValueError;
      }
      EnumerateZeroWeight(0);
      return Ok(0);
    }
    r := IdxDWeight(i, d, n);
  }
}
