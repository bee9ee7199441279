/** Words are non-negative integers; bit b of a word x is (x / 2^b) % 2.
    This module holds the bit-weight primitive `weight` of weighted_words.py
    and the facts about splitting a word into a high and a low part. */
module Bits {
  import opened Arithmetic

  /** 2 to the power e. */
  function Pow2(e: nat): (r: nat)
    ensures r >= 1
  {
    if e == 0 then 1 else 2 * Pow2(e - 1)
  }

  /** Python's `x << k` on a non-negative x. */
  function ShiftLeft(x: nat, k: nat): nat
  {
    x * Pow2(k)
  }

  /** Bit b of x. */
  function Bit(x: nat, b: nat): nat
  {
    (x / Pow2(b)) % 2
  }

  /** The number of set bits among positions 0 .. m-1 of x. */
  function OnesBelow(x: nat, m: nat): nat
  {
    if m == 0 then 0 else OnesBelow(x, m - 1) + Bit(x, m - 1)
  }

  /** Hamming weight, peeling off the lowest bit each step. */
  function Popcount(x: nat): nat
  {
    if x == 0 then 0 else x % 2 + Popcount(x / 2)
  }

  /** The part of x above its low k bits: Python's `x >> k`. */
  function HighPart(x: nat, k: nat): nat
  {
    var p := Pow2(k);
    QuotientNonNegative(x, p);
    x / p
  }

  /** The low k bits of x. */
  function LowPart(x: nat, k: nat): (r: nat)
    ensures r < Pow2(k)
  {
    x % Pow2(k)
  }

  /** A word of weight d that fits in n bits. */
  predicate IsWord(v: nat, d: nat, n: nat)
  {
    v < Pow2(n) && Popcount(v) == d
  }

  /** `weight(i)`: count the 1-bits of i by testing and shifting out the
      lowest bit until nothing is left. */
  method Weight(i: nat) returns (c: nat)
    ensures c == Popcount(i)
    ensures forall m :: i < Pow2(m) ==> c == OnesBelow(i, m)
  {
    c := 0;
    var v := i;
    while v != 0
      invariant c + Popcount(v) == Popcount(i)
      decreases v
    {
      if v % 2 == 1 {
        c := c + 1;
      }
      v := v / 2;
    }
    forall m | i < Pow2(m)
      ensures c == OnesBelow(i, m)
    {
      PopcountCountsBits(i, m);
    }
  }

  lemma Pow2Add(a: nat, b: nat)
    ensures Pow2(a + b) == Pow2(a) * Pow2(b)
    decreases a
  {
    if a > 0 {
      Pow2Add(a - 1, b);
      assert Pow2(a + b) == 2 * Pow2(a - 1 + b);
    }
  }

  /** Peeling off the lowest bit of the word at positions 0 .. m-1. */
  lemma {:induction false} OnesBelowShift(x: nat, m: nat)
    requires m >= 1
    ensures OnesBelow(x, m) == x % 2 + OnesBelow(x / 2, m - 1)
    decreases m
  {
    if m > 1 {
      OnesBelowShift(x, m - 1);
      DivDiv(x, 2, Pow2(m - 2));
      assert Pow2(m - 1) == 2 * Pow2(m - 2);
      assert Bit(x, m - 1) == Bit(x / 2, m - 2);
    }
  }

  /** Popcount is the number of set bits of any width that holds the word. */
  lemma {:induction false} PopcountCountsBits(x: nat, m: nat)
    requires x < Pow2(m)
    ensures Popcount(x) == OnesBelow(x, m)
    decreases m
  {
    if m == 0 {
      assert x == 0;
    } else {
      PopcountCountsBits(x / 2, m - 1);
      OnesBelowShift(x, m);
    }
  }

  /** A word that fits in m bits has at most m set bits. */
  lemma {:induction false} PopcountBound(x: nat, m: nat)
    requires x < Pow2(m)
    ensures Popcount(x) <= m
    decreases m
  {
    if m > 0 && x > 0 {
      PopcountBound(x / 2, m - 1);
    }
  }

  /** The only word without set bits is 0. */
  lemma {:induction false} PopcountZero(x: nat)
    requires Popcount(x) == 0
    ensures x == 0
  {
    if x != 0 {
      PopcountZero(x / 2);
    }
  }

  /** The only m-bit word with m set bits is 2^m - 1. */
  lemma {:induction false} PopcountFull(x: nat, m: nat)
    requires x < Pow2(m) && Popcount(x) == m
    ensures x == Pow2(m) - 1
    decreases m
  {
    if m > 0 {
      if x % 2 == 0 {
        PopcountBound(x / 2, m - 1);
        assert false;
      }
      PopcountFull(x / 2, m - 1);
    }
  }

  /** The weight of a word whose low k bits are y and whose high part is x
      is the sum of the two weights. */
  lemma {:induction false} PopcountConcat(x: nat, y: nat, k: nat)
    requires y < Pow2(k)
    ensures Popcount(ShiftLeft(x, k) + y) == Popcount(x) + Popcount(y)
    decreases k
  {
    if k == 0 {
      assert ShiftLeft(x, k) + y == x;
    } else {
      var m := x * Pow2(k - 1);
      assert ShiftLeft(x, k) == 2 * m;
      var v := 2 * m + y;
      assert v / 2 == m + y / 2;
      assert v % 2 == y % 2;
      PopcountConcat(x, y / 2, k - 1);
    }
  }

  /** Shifting x left by k and adding a k-bit y can be undone by division. */
  lemma JoinWord(x: nat, y: nat, k: nat)
    requires y < Pow2(k)
    ensures HighPart(ShiftLeft(x, k) + y, k) == x
    ensures LowPart(ShiftLeft(x, k) + y, k) == y
  {
    DivModUnique(ShiftLeft(x, k) + y, Pow2(k), x, y);
  }

  /** A word of j + k bits has a high part of j bits, and conversely. */
  lemma HighPartBound(q: nat, r: nat, j: nat, k: nat)
    requires r < Pow2(k)
    ensures q * Pow2(k) + r < Pow2(j + k) <==> q < Pow2(j)
  {
    Pow2Add(j, k);
    ScaledLess(q, r, Pow2(j), Pow2(k));
  }

  /** Any word splits into a high part v / 2^k and a k-bit low part; the
      weights add up, and the word has j + k bits exactly when its high part
      has j bits. */
  lemma SplitWord(v: nat, j: nat, k: nat)
    ensures v == ShiftLeft(HighPart(v, k), k) + LowPart(v, k)
    ensures Popcount(v) == Popcount(HighPart(v, k)) + Popcount(LowPart(v, k))
    ensures v < Pow2(j + k) <==> HighPart(v, k) < Pow2(j)
  {
    var q, r := HighPart(v, k), LowPart(v, k);
    DivisionEquation(v, Pow2(k));
    assert v == ShiftLeft(q, k) + r;
    PopcountConcat(q, r, k);
    HighPartBound(q, r, j, k);
  }

  /** The two parts of a (j + k)-bit word of weight d have weights that add
      up to d and fit their widths. */
  lemma PartWeights(v: nat, d: nat, j: nat, k: nat)
    requires IsWord(v, d, j + k)
    ensures Popcount(HighPart(v, k)) + Popcount(LowPart(v, k)) == d
    ensures Popcount(HighPart(v, k)) <= j && Popcount(LowPart(v, k)) <= k
  {
    SplitWord(v, j, k);
    PopcountBound(HighPart(v, k), j);
    PopcountBound(LowPart(v, k), k);
  }
}
