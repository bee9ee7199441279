/** The counters of weighted_words.py: `counting_d_weight` and
    `counting_less_d_weight`. */
module Counting {
  import opened Arithmetic
  import opened Bits
  import opened Binomials

  /** A value, or the ValueError that `counting_d_weight` raises on a weight
      outside 0 .. n. */
  datatype Checked<T> = Ok(value: T) | ValueError

  /** `counting_d_weight(k, n)`: the number of n-bit words with exactly k set
      bits, by the multiplicative recurrence C(n, k) = C(n, k-1) (n-k+1) / k. */
  function CountingDWeight(k: int, n: int): (r: Checked<nat>)
    ensures r == ValueError <==> !(0 <= k <= n)
    ensures r.Ok? ==> r.value == Binomial(n, k)
    decreases if k < 0 then 0 else k
  {
    if !(0 <= k <= n) then ValueError
    else if k == 0 then Ok(1)
    else
      // the source tests k <= n once more here; the guard above already
      // ensures it, so its trailing `return 0` is never reached
      var previous := CountingDWeight(k - 1, n).value;
      DivisionIsExact(k, n);
      Ok(previous * (n - k + 1) / k)
  }

  /** The integer division in the recurrence never drops a remainder, and its
      quotient is the next binomial coefficient. */
  lemma DivisionIsExact(k: int, n: int)
    requires 1 <= k <= n
    ensures (Binomial(n, k - 1) * (n - k + 1)) % k == 0
    ensures (Binomial(n, k - 1) * (n - k + 1)) / k == Binomial(n, k)
  {
    MultiplicativeStep(n, k);
    DivModUnique(Binomial(n, k - 1) * (n - k + 1), k, Binomial(n, k), 0);
  }

  /** `counting_less_d_weight(d, n)`: the number of n-bit words with at most
      d set bits; the source answers 2^n outright when d == n. */
  function CountingLessDWeight(d: nat, n: nat): (r: nat)
    requires d <= n
    ensures r == RowSum(n, d)
  {
    if d == 0 then 1
    else if d < n then CountingLessDWeight(d - 1, n) + CountingDWeight(d, n).value
    else
      RowSumFull(n);
      Pow2(n)
  }
}
