/** Unsigned words, as numbers below 2^64 whose bits are read by halving; what the mask expressions of
    src/internal/ptr.h, src/ds/hmap.c and src/ds/bitset.c come to. */
module Bits {

  const WORD: nat := 64

  function Pow2(n: nat): (r: nat)
    ensures r > 0
  {
    if n == 0 then 1 else 2 * Pow2(n - 1)
  }

  /** The largest size_t. */
  function SizeMax(): nat { Pow2(WORD) - 1 }

  /** A power of two that size_t holds. */
  ghost predicate PowerOfTwo(n: int) {
    exists k: nat :: k < WORD && n == Pow2(k)
  }

  function Bit(x: nat, i: nat): bool {
    if i == 0 then x % 2 == 1 else Bit(x / 2, i - 1)
  }

  /** The number of w bits whose bit i is op of the bits i of x and y. */
  function Combine(op: (bool, bool) -> bool, w: nat, x: nat, y: nat): (r: nat) {
    if w == 0 then 0
    else (if op(x % 2 == 1, y % 2 == 1) then 1 else 0) + 2 * Combine(op, w - 1, x / 2, y / 2)
  }

  function Both(a: bool, b: bool): bool { a && b }

  function Either(a: bool, b: bool): bool { a || b }

  function Differ(a: bool, b: bool): bool { a != b }

  function Negated(a: bool, b: bool): bool { !a }

  function And(x: nat, y: nat): nat { Combine(Both, WORD, x, y) }

  function Or(x: nat, y: nat): nat { Combine(Either, WORD, x, y) }

  function Xor(x: nat, y: nat): nat { Combine(Differ, WORD, x, y) }

  function Not(x: nat): nat { Combine(Negated, WORD, x, 0) }

  /** (1 << k) - 1. */
  function Mask(k: nat): nat { Pow2(k) - 1 }

  lemma {:induction false} CombineBit(op: (bool, bool) -> bool, w: nat, x: nat, y: nat, i: nat)
    requires i < w
    ensures Bit(Combine(op, w, x, y), i) == op(Bit(x, i), Bit(y, i))
    decreases w
  {
    if i > 0 {
      CombineBit(op, w - 1, x / 2, y / 2, i - 1);
    }
  }

  lemma {:induction false} CombineFits(op: (bool, bool) -> bool, w: nat, x: nat, y: nat)
    ensures Combine(op, w, x, y) < Pow2(w)
  {
    if w > 0 {
      CombineFits(op, w - 1, x / 2, y / 2);
    }
  }

  /** What the word operations do to every bit of a word. */
  lemma WordBits(x: nat, y: nat, i: nat)
    requires i < WORD
    ensures Bit(And(x, y), i) == (Bit(x, i) && Bit(y, i))
    ensures Bit(Or(x, y), i) == (Bit(x, i) || Bit(y, i))
    ensures Bit(Xor(x, y), i) == (Bit(x, i) != Bit(y, i))
    ensures Bit(Not(x), i) == !Bit(x, i)
  {
    CombineBit(Both, WORD, x, y, i);
    CombineBit(Either, WORD, x, y, i);
    CombineBit(Differ, WORD, x, y, i);
    CombineBit(Negated, WORD, x, 0, i);
  }

  lemma WordsFit(x: nat, y: nat)
    ensures And(x, y) < Pow2(WORD) && Or(x, y) < Pow2(WORD) && Xor(x, y) < Pow2(WORD) && Not(x) < Pow2(WORD)
  {
    CombineFits(Both, WORD, x, y);
    CombineFits(Either, WORD, x, y);
    CombineFits(Differ, WORD, x, y);
    CombineFits(Negated, WORD, x, 0);
  }

  /** Numbers of w bits are equal when their bits are. */
  lemma {:induction false} SameBits(x: nat, y: nat, w: nat)
    requires x < Pow2(w) && y < Pow2(w) && forall i :: 0 <= i < w ==> Bit(x, i) == Bit(y, i)
    ensures x == y
    decreases w
  {
    if w > 0 {
      forall i | 0 <= i < w - 1 ensures Bit(x / 2, i) == Bit(y / 2, i) {
        assert Bit(x, i + 1) == Bit(y, i + 1);
      }
      SameBits(x / 2, y / 2, w - 1);
      assert Bit(x, 0) == Bit(y, 0);
    }
  }

  lemma {:induction false} MaskBit(k: nat, i: nat)
    ensures Bit(Mask(k), i) == (i < k)
    decreases k
  {
    if k == 0 {
      ZeroBit(i);
    } else {
      assert Mask(k) == 2 * Mask(k - 1) + 1;
      if i > 0 {
        MaskBit(k - 1, i - 1);
      }
    }
  }

  lemma {:induction false} ZeroBit(i: nat)
    ensures !Bit(0, i)
  {
    if i > 0 {
      ZeroBit(i - 1);
    }
  }

  lemma {:induction false} PowBit(k: nat, i: nat)
    ensures Bit(Pow2(k), i) == (i == k)
    decreases k
  {
    if k == 0 {
      if i > 0 {
        ZeroBit(i - 1);
      }
    } else if i > 0 {
      PowBit(k - 1, i - 1);
    }
  }

  lemma {:induction false} Pow2Grows(a: nat, b: nat)
    requires a <= b
    ensures Pow2(a) <= Pow2(b)
    decreases b
  {
    if a < b {
      Pow2Grows(a, b - 1);
    }
  }

  // ---------- masks ----------

  /** Masking with 2^k - 1 is the remainder on division by 2^k. */
  lemma {:induction false} CombineMask(w: nat, x: nat, k: nat)
    requires k <= w
    ensures Combine(Both, w, x, Mask(k)) == x % Pow2(k)
    decreases w
  {
    if k > 0 {
      HalfMask(k);
      CombineMask(w - 1, x / 2, k - 1);
      HalfRemainder(x, k);
      hide Pow2, Mask, Combine;
      CombineUnfolds(Both, w, x, Mask(k));
    } else {
      CombineZero(w, x);
    }
  }

  lemma HalfMask(k: nat)
    requires k > 0
    ensures Mask(k) % 2 == 1 && Mask(k) / 2 == Mask(k - 1)
  {
    assert Mask(k) == 2 * Mask(k - 1) + 1;
  }

  lemma CombineUnfolds(op: (bool, bool) -> bool, w: nat, x: nat, y: nat)
    requires w > 0
    ensures Combine(op, w, x, y) == (if op(x % 2 == 1, y % 2 == 1) then 1 else 0) + 2 * Combine(op, w - 1, x / 2, y / 2)
  {
  }

  /** The lowest bit of a word, and the rest of it. */
  lemma CombineHalves(op: (bool, bool) -> bool, w: nat, x: nat, y: nat)
    requires w > 0
    ensures (Combine(op, w, x, y) % 2 == 1) == op(x % 2 == 1, y % 2 == 1)
    ensures Combine(op, w, x, y) / 2 == Combine(op, w - 1, x / 2, y / 2)
  {
    hide *;
    CombineUnfolds(op, w, x, y);
    Halves(Combine(op, w, x, y), if op(x % 2 == 1, y % 2 == 1) then 1 else 0, Combine(op, w - 1, x / 2, y / 2));
  }

  lemma Halves(n: nat, low: nat, rest: nat)
    requires n == low + 2 * rest && low <= 1
    ensures n % 2 == low && n / 2 == rest
  {
  }

  lemma {:induction false} CombineZero(w: nat, x: nat)
    ensures Combine(Both, w, x, 0) == 0
  {
    if w > 0 {
      CombineZero(w - 1, x / 2);
    }
  }

  lemma HalfRemainder(x: nat, k: nat)
    requires k > 0
    ensures x % Pow2(k) == x % 2 + 2 * ((x / 2) % Pow2(k - 1))
  {
    var p, h := Pow2(k - 1), x / 2;
    var q, r := h / p, h % p;
    assert x == 2 * (q * p + r) + x % 2 == q * (2 * p) + (2 * r + x % 2);
    assert 0 <= 2 * r + x % 2 < 2 * p;
    QuotientIs(x, 2 * p, q, 2 * r + x % 2);
  }

  lemma QuotientIs(x: int, d: int, q: int, r: int)
    requires d > 0 && x == q * d + r && 0 <= r < d
    ensures x / d == q && x % d == r
  {
    var q', r' := x / d, x % d;
    assert x == q' * d + r';
    assert q * d - q' * d == r' - r;
    Product(q - q', d);
    assert (q - q') * d == q * d - q' * d;
  }

  /** A multiple of d that is not zero is at least d away from it. */
  lemma Product(a: int, d: int)
    requires d > 0
    ensures a >= 1 ==> a * d >= d
    ensures a <= -1 ==> a * d <= -d
  {
    if a >= 1 {
      assert (a - 1) * d >= 0;
      assert a * d == (a - 1) * d + d;
    } else if a <= -1 {
      assert (-1 - a) * d >= 0;
      assert a * d == -((-1 - a) * d) - d;
    }
  }

  lemma MaskIsRemainder(x: nat, k: nat)
    requires k <= WORD
    ensures And(x, Mask(k)) == x % Pow2(k)
  {
    CombineMask(WORD, x, k);
  }

  /** Clearing the low k bits of a word takes the remainder away. */
  lemma {:induction false} CombineNot(w: nat, x: nat, m: nat)
    requires x < Pow2(w)
    ensures Combine(Both, w, x, Combine(Negated, w, m, 0)) + Combine(Both, w, x, m) == x
    decreases w
  {
    if w > 0 {
      CombineNot(w - 1, x / 2, m / 2);
      hide Combine, Pow2;
      var n := Combine(Negated, w, m, 0);
      CombineHalves(Negated, w, m, 0);
      CombineUnfolds(Both, w, x, n);
      CombineUnfolds(Both, w, x, m);
    }
  }

  lemma ClearLow(x: nat, k: nat)
    requires k <= WORD && x < Pow2(WORD)
    ensures And(x, Not(Mask(k))) == x - x % Pow2(k)
  {
    CombineNot(WORD, x, Mask(k));
    MaskIsRemainder(x, k);
  }
}
