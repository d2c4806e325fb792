/** Rounding to a power of two (src/internal/ptr.h). */
module Alignment {
  import opened Bits

  /** tda_align_up: (val + (alignment - 1)) & ~(alignment - 1). */
  function AlignUp(val: nat, alignment: nat): nat
    requires 0 < alignment
  {
    And(val + (alignment - 1), Not(alignment - 1))
  }

  /** tda_align_down. */
  function AlignDown(val: nat, alignment: nat): nat
    requires 0 < alignment
  {
    And(val, Not(alignment - 1))
  }

  /** tda_ptr_is_aligned, of an address. */
  predicate IsAligned(addr: nat, alignment: nat)
    requires 0 < alignment
  {
    And(addr, alignment - 1) == 0
  }

  lemma MaskedIs(val: nat, alignment: nat)
    requires PowerOfTwo(alignment) && val <= SizeMax() && 0 < alignment
    ensures And(val, Not(alignment - 1)) == val - val % alignment
    ensures And(val, alignment - 1) == val % alignment
  {
    var k: nat :| k < WORD && alignment == Pow2(k);
    ClearLow(val, k);
    MaskIsRemainder(val, k);
  }

  /** r is the least multiple of d that is not less than val. */
  ghost predicate LeastMultiple(r: int, val: int, d: int)
    requires 0 < d
  {
    r % d == 0 && val <= r < val + d && forall m: int :: m % d == 0 && val <= m ==> r <= m
  }

  /** r is the greatest multiple of d that is not greater than val. */
  ghost predicate GreatestMultiple(r: int, val: int, d: int)
    requires 0 < d
  {
    r % d == 0 && val - d < r <= val && forall m: int :: m % d == 0 && m <= val ==> m <= r
  }

  /** As long as the sum fits, rounding up gives the least multiple that is not less. */
  lemma AlignUpIsLeast(val: nat, alignment: nat)
    requires PowerOfTwo(alignment) && 0 < alignment && val + (alignment - 1) <= SizeMax()
    ensures LeastMultiple(AlignUp(val, alignment), val, alignment)
  {
    hide *;
    MaskedIs(val + (alignment - 1), alignment);
    LeastIs(val, alignment);
    AlignUpIs(val, alignment);
  }

  lemma AlignUpIs(val: nat, alignment: nat)
    requires 0 < alignment
    ensures AlignUp(val, alignment) == And(val + (alignment - 1), Not(alignment - 1))
  {
  }

  lemma AlignDownIsGreatest(val: nat, alignment: nat)
    requires PowerOfTwo(alignment) && 0 < alignment && val <= SizeMax()
    ensures GreatestMultiple(AlignDown(val, alignment), val, alignment)
  {
    MaskedIs(val, alignment);
    GreatestIs(val, alignment);
  }

  lemma GreatestIs(s: int, d: int)
    requires 0 < d
    ensures GreatestMultiple(s - s % d, s, d)
  {
    var r := s - s % d;
    RestIsMultiple(s, d);
    forall m: int | m % d == 0 && m <= s ensures m <= r {
      MultiplesApart(m, r, d);
    }
  }

  lemma LeastIs(val: int, d: int)
    requires 0 < d
    ensures LeastMultiple((val + (d - 1)) - (val + (d - 1)) % d, val, d)
  {
    var r := (val + (d - 1)) - (val + (d - 1)) % d;
    RestIsMultiple(val + (d - 1), d);
    forall m: int | m % d == 0 && val <= m ensures r <= m {
      MultiplesApart(r, m, d);
    }
  }

  lemma IsAlignedIff(addr: nat, alignment: nat)
    requires PowerOfTwo(alignment) && 0 < alignment && addr <= SizeMax()
    ensures IsAligned(addr, alignment) <==> addr % alignment == 0
  {
    MaskedIs(addr, alignment);
  }

  lemma RestIsMultiple(s: int, d: int)
    requires 0 < d
    ensures (s - s % d) % d == 0
  {
    QuotientIs(s - s % d, d, s / d, 0);
  }

  /** Two multiples of d that differ, differ by at least d. */
  lemma MultiplesApart(a: int, b: int, d: int)
    requires 0 < d && a % d == 0 && b % d == 0
    ensures b < a ==> b + d <= a
  {
    var p, q := a / d, b / d;
    assert a == p * d && b == q * d;
    Product(p - q, d);
    assert (p - q) * d == p * d - q * d;
  }

  lemma SumIsMultiple(a: int, b: int, d: int)
    requires 0 < d && a % d == 0 && b % d == 0
    ensures (a + b) % d == 0
  {
    var p, q := a / d, b / d;
    assert a == p * d && b == q * d;
    assert a + b == (p + q) * d;
    QuotientIs(a + b, d, p + q, 0);
  }
}
