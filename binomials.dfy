/** The reference definition of the binomial coefficient (Pascal's rule) and
    the identities the counters and the unranker depend on: the multiplicative
    step, the row sum 2^n, and Vandermonde's convolution. */
module Binomials {
  import opened Bits

  /** C(n, k), zero outside 0 <= k <= n. */
  function Binomial(n: nat, k: int): nat
  {
    if k < 0 || k > n then 0
    else if k == 0 || k == n then 1
    else Binomial(n - 1, k - 1) + Binomial(n - 1, k)
  }

  /** Pascal's rule holds for every k once n >= 1, the edges included. */
  lemma Pascal(n: nat, k: int)
    requires n >= 1
    ensures Binomial(n, k) == Binomial(n - 1, k - 1) + Binomial(n - 1, k)
  {
  }

  /** Every coefficient inside the triangle is at least one. */
  lemma {:induction false} BinomialPositive(n: nat, k: int)
    requires 0 <= k <= n
    ensures Binomial(n, k) >= 1
    decreases n
  {
    if 0 < k < n {
      BinomialPositive(n - 1, k - 1);
    }
  }

  lemma {:induction false} Symmetry(n: nat, k: int)
    ensures Binomial(n, k) == Binomial(n, n - k)
    decreases n
  {
    if 0 < k < n {
      Symmetry(n - 1, k - 1);
      Symmetry(n - 1, k);
      Pascal(n, n - k);
    }
  }

  /** k C(n, k) == n C(n-1, k-1). */
  lemma {:induction false} Absorption(n: nat, k: int)
    requires 1 <= k <= n
    ensures k * Binomial(n, k) == n * Binomial(n - 1, k - 1)
    decreases n
  {
    if k < n {
      // here n >= 2
      var a, b := Binomial(n - 1, k - 1), Binomial(n - 1, k);
      var c0, c1 := Binomial(n - 2, k - 2), Binomial(n - 2, k - 1);
      Pascal(n, k);
      Pascal(n - 1, k - 1);
      Absorption(n - 1, k);
      if k > 1 {
        Absorption(n - 1, k - 1);
      }
      AbsorptionStep(n, k, a, b, c0, c1);
    }
  }

  /** The algebra of one Absorption step, kept apart from the definition of Binomial. */
  lemma AbsorptionStep(n: int, k: int, a: int, b: int, c0: int, c1: int)
    requires k * b == (n - 1) * c1
    requires (k - 1) * a == (n - 1) * c0
    requires a == c0 + c1
    ensures k * (a + b) == n * a
  {
    assert k * a == (k - 1) * a + a;
    assert (n - 1) * c0 + (n - 1) * c1 == (n - 1) * a;
  }

  /** The step of the multiplicative recurrence: C(n, k-1) (n-k+1) == k C(n, k). */
  lemma MultiplicativeStep(n: nat, k: int)
    requires 1 <= k <= n
    ensures Binomial(n, k - 1) * (n - k + 1) == k * Binomial(n, k)
  {
    calc {
      Binomial(n, k - 1) * (n - k + 1);
      == { Symmetry(n, k - 1); }
      Binomial(n, n - k + 1) * (n - k + 1);
      == { Absorption(n, n - k + 1); }
      n * Binomial(n - 1, n - k);
      == { Symmetry(n - 1, k - 1); }
      n * Binomial(n - 1, k - 1);
      == { Absorption(n, k); }
      k * Binomial(n, k);
    }
  }

  /** sum of C(n, t) for t = 0 .. d. */
  function RowSum(n: nat, d: int): nat
    decreases d + 1
  {
    if d < 0 then 0 else RowSum(n, d - 1) + Binomial(n, d)
  }

  lemma {:induction false} RowSumPascal(n: nat, d: int)
    requires n >= 1
    ensures RowSum(n, d) == RowSum(n - 1, d - 1) + RowSum(n - 1, d)
    decreases d + 1
  {
    if d >= 0 {
      RowSumPascal(n, d - 1);
      Pascal(n, d);
    }
  }

  /** The whole row of Pascal's triangle sums to 2^n. */
  lemma {:induction false} RowSumFull(n: nat)
    ensures RowSum(n, n) == Pow2(n)
    decreases n
  {
    if n > 0 {
      RowSumPascal(n, n);
      RowSumFull(n - 1);
      assert RowSum(n - 1, n) == RowSum(n - 1, n - 1) + Binomial(n - 1, n);
    }
  }

  /** sum of C(j, t) C(k, d - t) for t = lo .. hi-1: the sizes of the groups
      that the split of an n-bit word into j high and k low bits produces. */
  function Convolution(j: nat, k: nat, d: int, lo: int, hi: int): nat
    decreases hi - lo
  {
    if lo >= hi then 0
    else Binomial(j, lo) * Binomial(k, d - lo) + Convolution(j, k, d, lo + 1, hi)
  }

  lemma {:induction false} ConvolutionPascal(j: nat, k: nat, d: int, lo: int, hi: int)
    requires j >= 1
    ensures Convolution(j, k, d, lo, hi)
         == Convolution(j - 1, k, d - 1, lo - 1, hi - 1) + Convolution(j - 1, k, d, lo, hi)
    decreases hi - lo
  {
    if lo < hi {
      ConvolutionPascal(j, k, d, lo + 1, hi);
      Pascal(j, lo);
      var c := Binomial(k, d - lo);
      assert Binomial(j, lo) * c == Binomial(j - 1, lo - 1) * c + Binomial(j - 1, lo) * c;
    }
  }

  lemma {:induction false} ConvolutionOfEmptyHigh(k: nat, d: int, lo: int, hi: int)
    ensures Convolution(0, k, d, lo, hi) == if lo <= 0 < hi then Binomial(k, d) else 0
    decreases hi - lo
  {
    if lo < hi {
      ConvolutionOfEmptyHigh(k, d, lo + 1, hi);
    }
  }

  /** Vandermonde's identity: summing over every split of the weight gives C(j + k, d). */
  lemma {:induction false} Vandermonde(j: nat, k: nat, d: int, lo: int, hi: int)
    requires lo <= 0 && j < hi
    ensures Convolution(j, k, d, lo, hi) == Binomial(j + k, d)
    decreases j
  {
    if j == 0 {
      ConvolutionOfEmptyHigh(k, d, lo, hi);
    } else {
      ConvolutionPascal(j, k, d, lo, hi);
      Vandermonde(j - 1, k, d - 1, lo - 1, hi - 1);
      Vandermonde(j - 1, k, d, lo, hi);
      Pascal(j + k, d);
    }
  }

  lemma {:induction false} ConvolutionSplit(j: nat, k: nat, d: int, lo: int, mid: int, hi: int)
    requires lo <= mid <= hi
    ensures Convolution(j, k, d, lo, hi) == Convolution(j, k, d, lo, mid) + Convolution(j, k, d, mid, hi)
    decreases mid - lo
  {
    if lo < mid {
      ConvolutionSplit(j, k, d, lo + 1, mid, hi);
    }
  }

  /** Extending the sum by one more high weight h adds that group's size. */
  lemma ConvolutionStep(j: nat, k: nat, d: int, lo: int, h: int)
    requires lo <= h
    ensures Convolution(j, k, d, lo, h + 1) == Convolution(j, k, d, lo, h) + Binomial(j, h) * Binomial(k, d - h)
  {
    ConvolutionSplit(j, k, d, lo, h, h + 1);
  }

  /** Groups whose low part would need more than k bits are empty. */
  lemma {:induction false} ConvolutionLowOverflow(j: nat, k: nat, d: int, lo: int, hi: int)
    requires hi <= d - k
    ensures Convolution(j, k, d, lo, hi) == 0
    decreases hi - lo
  {
    if lo < hi {
      ConvolutionLowOverflow(j, k, d, lo + 1, hi);
    }
  }

  /** Groups whose high part would carry more than d bits are empty. */
  lemma {:induction false} ConvolutionHighOverflow(j: nat, k: nat, d: int, lo: int, hi: int)
    requires d < lo
    ensures Convolution(j, k, d, lo, hi) == 0
    decreases hi - lo
  {
    if lo < hi {
      ConvolutionHighOverflow(j, k, d, lo + 1, hi);
    }
  }

  /** Restricted to the high weights max(0, d - k) .. min(j, d) that the
      enumerator and the unranker visit, the group sizes still sum to C(j + k, d). */
  lemma GroupSizesSum(j: nat, k: nat, d: nat, first: nat, stop: nat)
    requires d <= j + k
    requires first == if d > k then d - k else 0
    requires stop == if j < d then j + 1 else d + 1
    ensures first <= stop
    ensures Convolution(j, k, d, first, stop) == Binomial(j + k, d)
  {
    ConvolutionSplit(j, k, d, 0, first, j + 1);
    ConvolutionSplit(j, k, d, first, stop, j + 1);
    if d > k {
      ConvolutionLowOverflow(j, k, d, 0, first);
    }
    if d <= j {
      ConvolutionHighOverflow(j, k, d, stop, j + 1);
    }
    Vandermonde(j, k, d, 0, j + 1);
  }
}
