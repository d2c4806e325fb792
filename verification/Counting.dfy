/** Logarithms used to bound recursion depths and comparison counts. */
module Counting {
  import opened Bits

  /** floor(log2 n); 0 for n = 0. */
  ghost function Log2(n: int): (l: int)
    ensures 0 <= l
  {
    if n <= 1 then 0 else 1 + Log2(n / 2)
  }

  /** Two to the power of it is the last power of two that n reaches. */
  lemma {:induction false} Log2Is(n: nat)
    requires 1 <= n
    ensures Pow2(Log2(n)) <= n < 2 * Pow2(Log2(n))
    decreases n
  {
    if n > 1 {
      Log2Is(n / 2);
    }
  }

  lemma {:induction false} Log2Monotone(m: int, n: int)
    requires m <= n
    ensures Log2(m) <= Log2(n)
    decreases n
  {
    if m > 1 {
      Log2Monotone(m / 2, n / 2);
    }
  }

  lemma Log2Doubles(n: int)
    requires n >= 1
    ensures Log2(2 * n) == Log2(n) + 1
  {
    assert 2 * n / 2 == n;
  }

  /** n (log2 n + 1), what sorting costs up to a constant factor. */
  ghost function NLogN(n: int): int {
    n * (Log2(n) + 1)
  }

  /** Between two powers of two, the factor is one more than the exponent of the lower one. */
  lemma {:induction false} NLogNOf(n: nat, k: nat)
    requires Pow2(k) <= n < 2 * Pow2(k)
    ensures Log2(n) == k && NLogN(n) == n * (k + 1)
    decreases k
  {
    if k > 0 {
      NLogNOf(n / 2, k - 1);
    }
  }

  lemma NLogNMonotone(m: int, n: int)
    requires 0 <= m <= n
    ensures 0 <= NLogN(m) <= NLogN(n)
  {
    hide Log2;
    Log2Monotone(m, n);
    MulOrder(Log2(m) + 1, Log2(n) + 1, m);
    MulOrder(m, n, Log2(n) + 1);
    MulOrder(0, Log2(m) + 1, m);
  }

  /** How often n can be halved, rounding down, before nothing is left. */
  ghost function Halvings(n: int): (h: int)
    ensures 0 <= h
  {
    if n <= 0 then 0 else 1 + Halvings(n / 2)
  }

  lemma {:induction false} HalvingsMonotone(m: int, n: int)
    requires m <= n
    ensures Halvings(m) <= Halvings(n)
    decreases n
  {
    if m > 0 {
      HalvingsMonotone(m / 2, n / 2);
    }
  }

  /** Half of what is left, or less, takes a halving away. */
  lemma HalvingsStep(m: int, n: int)
    requires 0 < n && m <= n / 2
    ensures Halvings(m) + 1 <= Halvings(n)
  {
    HalvingsMonotone(m, n / 2);
  }

  lemma {:induction false} HalvingsIsLog(n: int)
    requires 1 <= n
    ensures Halvings(n) == Log2(n) + 1
    decreases n
  {
    if n > 1 {
      HalvingsIsLog(n / 2);
    }
  }

  /** ceil(log2 n), the number of times n can be halved, rounding up, before one is left. */
  ghost function CeilLog2(n: nat): nat {
    if n <= 1 then 0 else 1 + CeilLog2((n + 1) / 2)
  }

  /** Two to the power of it is the first power of two that reaches n. */
  lemma {:induction false} CeilLog2Is(n: nat)
    requires 1 <= n
    ensures n <= Pow2(CeilLog2(n)) && (1 < n ==> Pow2(CeilLog2(n)) < 2 * n)
    decreases n
  {
    if n > 1 {
      CeilLog2Is((n + 1) / 2);
    }
  }

  lemma {:induction false} CeilLog2Monotone(m: nat, n: nat)
    requires m <= n
    ensures CeilLog2(m) <= CeilLog2(n)
    decreases n
  {
    if m > 1 {
      CeilLog2Monotone((m + 1) / 2, (n + 1) / 2);
    }
  }

  lemma CeilLog2Halved(m: nat, n: nat)
    requires n >= 2 && m <= (n + 1) / 2
    ensures CeilLog2(m) + 1 <= CeilLog2(n)
  {
    CeilLog2Monotone(m, (n + 1) / 2);
  }

  /** How often width can be doubled before it reaches n. */
  ghost function Doublings(width: nat, n: nat): (p: nat)
    requires 0 < width
    decreases n - width
  {
    if width >= n then 0 else 1 + Doublings(2 * width, n)
  }

  lemma {:induction false} DoublingsHalved(width: nat, n: nat)
    requires 0 < width
    ensures Doublings(2 * width, n) == Doublings(width, (n + 1) / 2)
    decreases n - width
  {
    if width < n {
      DoublingsHalved(2 * width, n);
    }
  }

  /** Runs of one become a single run of n in ceil(log2 n) doublings. */
  lemma {:induction false} DoublingsIsLog(n: nat)
    ensures Doublings(1, n) == CeilLog2(n)
    decreases n
  {
    if n > 1 {
      DoublingsHalved(1, n);
      DoublingsIsLog((n + 1) / 2);
    }
  }

  lemma MulOrder(a: int, b: int, c: int)
    requires a <= b && 0 <= c
    ensures c * a <= c * b
  {
  }
}
