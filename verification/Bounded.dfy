/** Bounded integer draws by Lemire's method (src/core/rng.c). A word x below m = 2^32 or 2^64 is carried into [0, r) by
    the top half of x * r; which words are kept is read off the bottom half, so that every answer is given equally
    often. */
module Bounded {
  import opened Generator
  import opened Cycles

  const TWO_32: int := 0x1_0000_0000
  const TWO_64: int := 0x1_0000_0000_0000_0000

  function High(m: int, r: int, x: int): int
    requires 0 < m
  {
    x * r / m
  }

  function LowHalf(m: int, r: int, x: int): int
    requires 0 < m
  {
    x * r % m
  }

  /** The word is kept: its bottom half is not below m mod r. */
  ghost predicate Accepted(m: int, r: int, x: int)
    requires 0 < m && 0 < r
  {
    LowHalf(m, r, x) >= m % r
  }

  // ---------- counting ----------

  ghost function Interval(a: int, b: int): set<int>
    decreases b - a
  {
    if a >= b then {} else Interval(a, b - 1) + {b - 1}
  }

  lemma {:induction false} IntervalSize(a: int, b: int)
    requires a <= b
    ensures |Interval(a, b)| == b - a
    ensures forall x :: x in Interval(a, b) <==> a <= x < b
    decreases b - a
  {
    if a < b {
      IntervalSize(a, b - 1);
    }
  }

  /** The words that are kept and answer v. */
  ghost function WordsFor(m: int, r: int, v: int): set<int>
    requires 0 < m && 0 < r
  {
    set x: int | 0 <= x < m && High(m, r, x) == v && Accepted(m, r, x)
  }

  /** A product lies in the accepted part of slot v exactly when it is at least v m + m mod r and below (v + 1) m. */
  lemma InSlot(m: int, r: int, x: int, v: int)
    requires 0 < m && 0 < r
    ensures High(m, r, x) == v && Accepted(m, r, x) <==> v * m + m % r <= x * r < (v + 1) * m
  {
    var p := x * r;
    assert p == p / m * m + p % m;
    assert (v + 1) * m == v * m + m;
    if v * m + m % r <= p < (v + 1) * m {
      SameQuotient(p, m, v);
    }
  }

  lemma MulMono(x: int, y: int, r: int)
    requires 0 <= r
    ensures x <= y ==> x * r <= y * r
  {
  }

  lemma Apart(x: int, y: int, r: int)
    requires 0 < r
    ensures x < y ==> x * r + r <= y * r
  {
    MulMono(x + 1, y, r);
    assert (x + 1) * r == x * r + r;
  }

  lemma SameQuotient(p: int, m: int, v: int)
    requires 0 < m && v * m <= p < v * m + m
    ensures p / m == v && p % m == p - v * m
  {
    var q := p / m;
    assert p == q * m + p % m;
    Apart(q, v, m);
    Apart(v, q, m);
  }

  /** The least x with x r >= a. */
  ghost function CeilDiv(a: int, r: int): int
    requires 0 < r
  {
    (a + r - 1) / r
  }

  lemma CeilDivIsLeast(a: int, r: int, x: int)
    requires 0 < r
    ensures a <= x * r <==> CeilDiv(a, r) <= x
  {
    var c := CeilDiv(a, r);
    assert a + r - 1 == c * r + (a + r - 1) % r;
    MulMono(c, x, r);
    Apart(x, c, r);
  }

  /** Exactly m / r words answer v. */
  lemma Uniform(m: int, r: int, v: int)
    requires 0 < r <= m && 0 <= v < r
    ensures |WordsFor(m, r, v)| == m / r
  {
    hide WordsFor, CeilDiv, Interval;
    var q := m / r;
    var c := CeilDiv(v * m + m % r, r);
    Apart(q, 0, r);
    assert 0 <= q;
    WordsAre(m, r, v, c, q);
    IntervalSize(c, c + q);
  }

  lemma WordsAre(m: int, r: int, v: int, c: int, q: int)
    requires 0 < r <= m && 0 <= v < r && c == CeilDiv(v * m + m % r, r) && q == m / r && 0 <= q
    ensures WordsFor(m, r, v) == Interval(c, c + q)
  {
    hide WordsFor, CeilDiv, Interval;
    IntervalSize(c, c + q);
    forall x ensures x in WordsFor(m, r, v) <==> x in Interval(c, c + q) {
      OneWord(m, r, v, x);
    }
  }

  lemma OneWord(m: int, r: int, v: int, x: int)
    requires 0 < r <= m && 0 <= v < r
    ensures x in WordsFor(m, r, v) <==> CeilDiv(v * m + m % r, r) <= x < CeilDiv(v * m + m % r, r) + m / r
  {
    var q, t := m / r, m % r;
    var a := v * m + t;
    InSlot(m, r, x, v);
    CeilDivIsLeast(a, r, x);
    CeilDivIsLeast(a, r, x - q);
    assert m == q * r + t;
    assert (v + 1) * m == a + q * r;
    assert (x - q) * r == x * r - q * r;
    if a <= x * r < a + q * r {
      WithinWords(m, r, v, x);
    }
  }

  /** A product in slot v comes from a word in range. */
  lemma WithinWords(m: int, r: int, v: int, x: int)
    requires 0 < r && 0 < m && 0 <= v < r && v * m <= x * r < (v + 1) * m
    ensures 0 <= x < m
  {
    MulMono(0, v, m);
    Apart(x, 0, r);
    MulMono(v + 1, r, m);
    MulMono(m, x, r);
  }

  /** The words kept at all. */
  ghost function Kept(m: int, r: int, below: int): set<int>
    requires 0 < m && 0 < r
  {
    set x: int | 0 <= x < m && High(m, r, x) < below && Accepted(m, r, x)
  }

  lemma {:induction false} KeptCount(m: int, r: int, v: int)
    requires 0 < r <= m && 0 <= v <= r
    ensures |Kept(m, r, v)| == v * (m / r)
    decreases v
  {
    if v == 0 {
      forall x | 0 <= x < m ensures High(m, r, x) >= 0 {
        NonNegative(m, r, x);
      }
      assert Kept(m, r, 0) == {};
    } else {
      KeptCount(m, r, v - 1);
      Uniform(m, r, v - 1);
      assert Kept(m, r, v) == Kept(m, r, v - 1) + WordsFor(m, r, v - 1);
      assert Kept(m, r, v - 1) !! WordsFor(m, r, v - 1);
      NextMultiple(v, m / r);
    }
  }

  lemma NextMultiple(v: int, q: int)
    ensures v * q == (v - 1) * q + q
  {
  }

  lemma NonNegative(m: int, r: int, x: int)
    requires 0 < m && 0 < r && 0 <= x
    ensures High(m, r, x) >= 0
  {
    assert 0 <= x * r;
  }

  /** Every word below m answers a value below r. */
  lemma HighBound(m: int, r: int, x: int)
    requires 0 < m && 0 < r && 0 <= x < m
    ensures 0 <= High(m, r, x) < r
  {
    NonNegative(m, r, x);
    var p := x * r;
    Apart(x, m, r);
    assert p == p / m * m + p % m;
    MulMono(r, p / m, m);
  }

  /** More than half of all words are kept. */
  lemma MostAreKept(m: int, r: int)
    requires 0 < r <= m
    ensures 2 * |Kept(m, r, r)| > m
    ensures Kept(m, r, r) == set x: int | 0 <= x < m && Accepted(m, r, x)
  {
    KeptCount(m, r, r);
    var q, t := m / r, m % r;
    assert m == q * r + t && t < r;
    MulMono(q, 0, r);
    MulMono(1, q, r);
    forall x | 0 <= x < m ensures High(m, r, x) < r {
      HighBound(m, r, x);
    }
  }

  /** The division is put off until low < r, and that misses no word: the words to reject all have low < r, and the
      threshold computed in the word's own arithmetic is m mod r. */
  lemma ShortcutIsExact(m: int, r: int, x: int)
    requires 0 < r < m
    ensures !Accepted(m, r, x) ==> LowHalf(m, r, x) < r
    ensures (m - r) % m % r == m % r
  {
    assert m % r < r;
    var q := m / r;
    assert m == q * r + m % r;
    assert (q - 1) * r == q * r - r;
    SameQuotient(m - r, r, q - 1);
    SameQuotient(m - r, m, 0);
  }

  // ---------- the draws ----------

  /** What the n-th draw from state s on gives: the whole word, or its top half. */
  ghost function Word(s: State, n: nat, half: bool): int {
    var w := Output(After(s, n)) as int;
    if half then w / TWO_32 else w
  }

  ghost function Modulus(half: bool): int {
    if half then TWO_32 else TWO_64
  }

  /** The whole word, and half of it: the top one. */
  lemma WordIsTop(s: State, n: nat, half: bool)
    ensures TopOf(Output(After(s, n)) as int, half, Word(s, n, half))
  {
  }

  lemma FullWord()
    ensures Modulus(false) == TWO_64
  {
  }

  lemma WordBound(s: State, n: nat, half: bool)
    ensures 0 <= Word(s, n, half) < Modulus(half)
  {
  }

  /** One word from the generator. */
  method DrawWord(rng: Rng, half: bool) returns (x: int)
    modifies rng
    ensures x == Word(old(rng.s), 0, half) && rng.s == Step(old(rng.s))
    ensures TopOf(Output(old(rng.s)) as int, half, x)
    ensures half ==> x * 0x1_0000_0000 <= Output(old(rng.s)) as int < (x + 1) * 0x1_0000_0000
    ensures !half ==> x == Output(old(rng.s)) as int
  {
    hide Output, Step;
    var w := rng.NextU64();
    x := if half then w as int / 0x1_0000_0000 else w as int;
    assert After(old(rng.s), 0) == old(rng.s);
  }

  lemma WordAdd(s: State, a: nat, b: nat, half: bool)
    ensures Word(After(s, a), b, half) == Word(s, a + b, half)
  {
    hide After, Output;
    AfterAdd(s, a, b);
  }

  /** The n-th word is the first that is kept. */
  ghost predicate FirstKept(s: State, half: bool, r: int, n: nat)
    requires 0 < r
  {
    Accepted(Modulus(half), r, Word(s, n, half)) &&
    forall i: nat :: i < n ==> !Accepted(Modulus(half), r, Word(s, i, half))
  }

  /** The whole word, or the top half of it. */
  ghost predicate TopOf(w: int, half: bool, x: int) {
    if half then x * TWO_32 <= w < (x + 1) * TWO_32 else x == w
  }

  /** What v in [0, max] owes to the 64-bit word w: v / (max + 1) is where x stands in [0, m), and x is w for m = 2^64,
      the top half of w for m = 2^32. */
  ghost predicate Whence(w: int, half: bool, max: int, v: int) {
    exists x :: TopOf(w, half, x) && v * Modulus(half) <= x * (max + 1) < (v + 1) * Modulus(half)
  }

  lemma HighIs(m: int, r: int, x: int)
    requires 0 < m
    ensures High(m, r, x) * m <= x * r < (High(m, r, x) + 1) * m
    ensures r == m ==> High(m, r, x) == x
  {
    if r == m {
      SameQuotient(x * m, m, x);
    }
  }

  lemma ModulusPositive(half: bool)
    ensures 0 < Modulus(half)
  {
  }

  /** That leaves no choice: v is determined by the word. */
  lemma WhenceDecides(w: int, half: bool, max: int, v: int)
    requires Whence(w, half, max, v)
    ensures v == if half then w / 0x1_0000_0000 * (max + 1) / 0x1_0000_0000 else w * (max + 1) / 0x1_0000_0000_0000_0000
  {
    var m := Modulus(half);
    var x :| TopOf(w, half, x) && v * m <= x * (max + 1) < (v + 1) * m;
    if half {
      SameQuotient(w, TWO_32, x);
    }
    SameQuotient(x * (max + 1), m, v);
  }

  lemma WhenceOf(w: int, half: bool, max: int, v: int, x: int)
    requires TopOf(w, half, x) && v * Modulus(half) <= x * (max + 1) < (v + 1) * Modulus(half)
    ensures Whence(w, half, max, v)
  {
  }

  lemma WhenceIs(s: State, n: nat, half: bool, max: int, v: int)
    requires 0 <= max < Modulus(half)
    requires if max + 1 == Modulus(half) then v == Word(s, n, half)
             else v == High(Modulus(half), max + 1, Word(s, n, half))
    ensures Whence(Output(After(s, n)) as int, half, max, v)
  {
    hide *;
    var m, x := Modulus(half), Word(s, n, half);
    ModulusPositive(half);
    WordIsTop(s, n, half);
    HighIs(m, max + 1, x);
    WhenceOf(Output(After(s, n)) as int, half, max, v, x);
  }

  /** Some word the generator will give is kept. */
  ghost predicate GivesKept(s: State, half: bool, r: int)
    requires 0 < r
  {
    exists k: nat :: Accepted(Modulus(half), r, Word(s, k, half))
  }

  lemma KeptWord(s: State, half: bool, r: int) returns (k: nat)
    requires 0 < r && GivesKept(s, half, r)
    ensures Accepted(Modulus(half), r, Word(s, k, half))
  {
    hide Accepted, Word;
    k :| Accepted(Modulus(half), r, Word(s, k, half));
  }

  /** That does not change with the words already used: the stream comes round to a word that is kept again and
      again. */
  lemma KeptForEver(s: State, half: bool, r: int, n: nat)
    requires 0 < r
    ensures GivesKept(s, half, r) <==> GivesKept(After(s, n), half, r)
  {
    hide Accepted, Word;
    if GivesKept(s, half, r) {
      var k := KeptWord(s, half, r);
      var m := ComesRound(s, n);
      WordAdd(s, m, k, half);
      WordAdd(s, n, m - n + k, half);
      assert Accepted(Modulus(half), r, Word(After(s, n), m - n + k, half));
    }
    if GivesKept(After(s, n), half, r) {
      var k := KeptWord(After(s, n), half, r);
      WordAdd(s, n, k, half);
      assert Accepted(Modulus(half), r, Word(s, n + k, half));
    }
  }

  /** The loop of a draw ends exactly when the stream has a word that is kept. */
  lemma EndsExactly(s: State, half: bool, r: int)
    requires 0 < r
    ensures GivesKept(s, half, r) <==> exists n: nat :: FirstKept(s, half, r, n)
  {
    hide Accepted, Word;
    if GivesKept(s, half, r) {
      var n := KeptWord(s, half, r);
      FirstOne(s, half, r, n);
    }
  }

  lemma {:induction false} FirstOne(s: State, half: bool, r: int, k: nat)
    requires 0 < r && Accepted(Modulus(half), r, Word(s, k, half))
    ensures exists n: nat :: FirstKept(s, half, r, n)
  {
    hide Accepted, Word;
    if i: nat :| i < k && Accepted(Modulus(half), r, Word(s, i, half)) {
      FirstOne(s, half, r, i);
    } else {
      assert FirstKept(s, half, r, k);
    }
  }

  /** tda_rng_u32_max (half) and tda_rng_u64_max: draws until a word is kept and answers its top half. The ghost result
      is how many words were thrown away. */
  method DrawMax(rng: Rng, half: bool, max: int) returns (v: int, ghost n: nat)
    requires 0 <= max < Modulus(half)
    requires max + 1 < Modulus(half) ==> GivesKept(rng.s, half, max + 1)
    modifies rng
    ensures 0 <= v <= max && rng.s == After(old(rng.s), n + 1)
    ensures max + 1 == Modulus(half) ==> n == 0 && v == Word(old(rng.s), 0, half)
    ensures max + 1 < Modulus(half) ==>
      FirstKept(old(rng.s), half, max + 1, n) && v == High(Modulus(half), max + 1, Word(old(rng.s), n, half))
    ensures Whence(Output(After(old(rng.s), n)) as int, half, max, v)
  {
    ghost var s := rng.s;
    var m := if half then 0x1_0000_0000 else 0x1_0000_0000_0000_0000;
    assert m == Modulus(half);
    hide *;
    n := 0;
    AfterZero(s);
    WordBound(s, 0, half);
    if max + 1 == m {
      v := DrawWord(rng, half);
      WhenceIs(s, 0, half, max, v);
      return;
    }
    var range := max + 1;
    var x := DrawWord(rng, half);
    assert range < m;
    ghost var k := KeptWord(s, half, range);
    v, n := KeepDrawing(rng, half, m, range, x, s, k);
    WhenceIs(s, n, half, max, v);
  }

  lemma AfterZero(s: State)
    ensures After(s, 0) == s && After(s, 1) == Step(s)
  {
    hide Step;
    assert After(s, 1) == Step(After(s, 0));
  }

  method KeepDrawing(rng: Rng, half: bool, m: int, range: int, x0: int, ghost s: State, ghost k: nat)
    returns (v: int, ghost n: nat)
    requires 0 < range < m == Modulus(half)
    requires rng.s == After(s, 1) && x0 == Word(s, 0, half)
    requires Accepted(m, range, Word(s, k, half))
    modifies rng
    ensures 0 <= v < range && rng.s == After(s, n + 1)
    ensures FirstKept(s, half, range, n) && v == High(m, range, Word(s, n, half))
  {
    hide *;
    n := 0;
    var x := x0;
    var low := LowHalf(m, range, x);
    ShortcutIsExact(m, range, x);
    AcceptedIs(m, range, x);
    if low < range {
      var threshold := (m - range) % m % range;
      while low < threshold
        invariant n <= k && rng.s == After(s, n + 1) && x == Word(s, n, half) && low == LowHalf(m, range, x)
        invariant forall i: nat :: i < n ==> !Accepted(m, range, Word(s, i, half))
        decreases k - n
      {
        AcceptedIs(m, range, x);
        assert n != k;
        x := DrawWord(rng, half);
        NextWord(s, n + 1, half);
        n := n + 1;
        low := LowHalf(m, range, x);
      }
    }
    AcceptedIs(m, range, x);
    FirstKeptIs(s, half, range, n);
    WordBound(s, n, half);
    HighBound(m, range, x);
    v := High(m, range, x);
  }

  lemma AcceptedIs(m: int, r: int, x: int)
    requires 0 < m && 0 < r
    ensures Accepted(m, r, x) <==> LowHalf(m, r, x) >= m % r
  {
  }

  lemma FirstKeptIs(s: State, half: bool, r: int, n: nat)
    requires 0 < r && Accepted(Modulus(half), r, Word(s, n, half))
    requires forall i: nat :: i < n ==> !Accepted(Modulus(half), r, Word(s, i, half))
    ensures FirstKept(s, half, r, n)
  {
  }

  lemma NextWord(s: State, n: nat, half: bool)
    ensures Word(After(s, n), 0, half) == Word(s, n, half) && Step(After(s, n)) == After(s, n + 1)
  {
    hide Step, Output;
  }

  // ---------- runs of draws ----------

  /** A draw from [0, r) that finds the stream of s at word from answers v and leaves the stream at word to: the words
      before to - 1 are thrown away, and that one is kept. */
  ghost predicate Answers(s: State, r: int, from: nat, v: int, to: nat) {
    && 0 < r < TWO_64 && from < to
    && Accepted(TWO_64, r, Word(s, to - 1, false)) && v == High(TWO_64, r, Word(s, to - 1, false))
    && forall i: nat :: from <= i < to - 1 ==> !Accepted(TWO_64, r, Word(s, i, false))
  }

  /** tda_rng_idx: a position below len. The generator has used the words of s before from. */
  method DrawIdx(rng: Rng, len: int, ghost s: State, ghost from: nat) returns (v: int, ghost to: nat)
    requires 0 < len < TWO_64 && rng.s == After(s, from) && GivesKept(s, false, len)
    modifies rng
    ensures 0 <= v < len && Answers(s, len, from, v, to) && rng.s == After(s, to)
  {
    hide *;
    FullWord();
    KeptForEver(s, false, len, from);
    ghost var n;
    v, n := DrawMax(rng, false, len - 1);
    AfterAdd(s, from, n + 1);
    to := from + n + 1;
    AnswerIs(s, len, from, v, n);
  }

  /** What the draw tells about its own stream, told about the stream it is part of. */
  lemma AnswerIs(s: State, r: int, from: nat, v: int, n: nat)
    requires 0 < r < TWO_64 && FirstKept(After(s, from), false, r, n)
    requires v == High(TWO_64, r, Word(After(s, from), n, false))
    ensures Answers(s, r, from, v, from + n + 1)
  {
    hide Accepted, High, Word, After;
    WordAdd(s, from, n, false);
    forall i: nat | from <= i < from + n ensures !Accepted(TWO_64, r, Word(s, i, false)) {
      WordAdd(s, from, i - from, false);
    }
  }

  /** A draw's answer, and where it leaves the stream, depend on nothing but the stream. */
  lemma AnswersAreDetermined(s: State, r: int, from: nat, v: int, to: nat, v': int, to': nat)
    requires Answers(s, r, from, v, to) && Answers(s, r, from, v', to')
    ensures v == v' && to == to'
  {
    hide Accepted, High, Word;
  }

  // ---------- ranges of signed ints ----------

  /** The two's-complement value of an unsigned word. */
  function Signed(m: int, x: int): int {
    if x < m / 2 then x else x - m
  }

  /** hi - lo in unsigned arithmetic. */
  function Width(m: int, lo: int, hi: int): int
    requires 0 < m
  {
    (hi % m - lo % m) % m
  }

  /** lo + d in unsigned arithmetic, read as a signed value. */
  function Offset(m: int, lo: int, d: int): int
    requires 0 < m
  {
    Signed(m, (lo % m + d) % m)
  }

  /** Width and offset are taken in unsigned arithmetic; the value comes back exact, for every lo <= hi. */
  lemma SignedOffset(m: int, lo: int, hi: int, d: int)
    requires 0 < m && m % 2 == 0 && -(m / 2) <= lo <= hi < m / 2
    requires 0 <= d <= Width(m, lo, hi)
    ensures Width(m, lo, hi) == hi - lo && Offset(m, lo, d) == lo + d
  {
    SmallMod(m, lo);
    SmallMod(m, hi);
    SmallMod(m, hi % m - lo % m);
    SmallMod(m, lo % m + d - m);
  }

  lemma SmallMod(m: int, x: int)
    requires 0 < m && -m <= x < m
    ensures x % m == if 0 <= x then x else if x == -m then 0 else x + m
    ensures (x + m) % m == x % m
  {
    if 0 <= x {
      SameQuotient(x, m, 0);
      SameQuotient(x + m, m, 1);
    } else {
      SameQuotient(x, m, -1);
      SameQuotient(x + m, m, 0);
    }
  }

  /** tda_rng_i32_range (half) and tda_rng_i64_range: in [lo, hi], and the kept word that answers lo + d is one that
      answers d in [0, hi - lo]. */
  method DrawRange(rng: Rng, half: bool, lo: int, hi: int) returns (v: int, ghost n: nat)
    requires -(Modulus(half) / 2) <= lo <= hi < Modulus(half) / 2
    requires hi - lo + 1 < Modulus(half) ==> GivesKept(rng.s, half, hi - lo + 1)
    modifies rng
    ensures lo <= v <= hi && rng.s == After(old(rng.s), n + 1)
    ensures hi - lo + 1 == Modulus(half) ==> v - lo == Word(old(rng.s), 0, half)
    ensures hi - lo + 1 < Modulus(half) ==>
      FirstKept(old(rng.s), half, hi - lo + 1, n) && v - lo == High(Modulus(half), hi - lo + 1,
        Word(old(rng.s), n, half))
    ensures Whence(Output(After(old(rng.s), n)) as int, half, hi - lo, v - lo)
  {
    var m := if half then 0x1_0000_0000 else 0x1_0000_0000_0000_0000;
    assert m == Modulus(half) && m % 2 == 0;
    hide *;
    var width := Width(m, lo, hi);
    SignedOffset(m, lo, hi, 0);
    var d;
    d, n := DrawMax(rng, half, width);
    SignedOffset(m, lo, hi, d);
    v := Offset(m, lo, d);
  }
}
