/** The stream of words comes round. The step of the generator loses nothing (src/core/rng.c), and there are only so
    many states, so every state is met again and nothing leads into a cycle from outside. */
module Cycles {
  import opened Generator
  import opened Universes

  const BASE: int := 0x1_0000_0000_0000_0000

  ghost function Num(x: bv64): int {
    x as int
  }

  /** A number of its own for each state. */
  ghost function Code(s: State): int {
    Pair(Pair(Pair(Num(s.s0), Num(s.s1)), Num(s.s2)), Num(s.s3))
  }

  ghost function Pair(x: int, y: int): int {
    x * BASE + y
  }

  /** How many states there are. */
  ghost function Many(): nat {
    BASE * BASE * BASE * BASE
  }

  lemma PairBound(x: int, y: int, n: int)
    requires 0 <= x < n && 0 <= y < BASE
    ensures 0 <= Pair(x, y) < n * BASE
  {
  }

  lemma PairIs(x: int, y: int, x': int, y': int)
    requires 0 <= y < BASE && 0 <= y' < BASE && Pair(x, y) == Pair(x', y')
    ensures x == x' && y == y'
  {
  }

  lemma CodeBound(s: State)
    ensures 0 <= Code(s) < Many()
  {
    hide Pair, Num;
    WordsBound(s);
    var a, b := Pair(Num(s.s0), Num(s.s1)), Pair(Pair(Num(s.s0), Num(s.s1)), Num(s.s2));
    PairBound(Num(s.s0), Num(s.s1), BASE);
    PairBound(a, Num(s.s2), BASE * BASE);
    PairBound(b, Num(s.s3), BASE * BASE * BASE);
  }

  lemma WordsBound(s: State)
    ensures 0 <= Num(s.s0) < BASE && 0 <= Num(s.s1) < BASE && 0 <= Num(s.s2) < BASE && 0 <= Num(s.s3) < BASE
  {
    hide Num;
    NumBound(s.s0);
    NumBound(s.s1);
    NumBound(s.s2);
    NumBound(s.s3);
  }

  lemma NumBound(x: bv64)
    ensures 0 <= Num(x) < BASE
  {
  }

  lemma NumIs(x: bv64, y: bv64)
    requires Num(x) == Num(y)
    ensures x == y
  {
    assert (x as int) as bv64 == (y as int) as bv64;
  }

  lemma FourAre(a: int, b: int, c: int, d: int, a': int, b': int, c': int, d': int)
    requires 0 <= b < BASE && 0 <= c < BASE && 0 <= d < BASE
    requires 0 <= b' < BASE && 0 <= c' < BASE && 0 <= d' < BASE
    requires Pair(Pair(Pair(a, b), c), d) == Pair(Pair(Pair(a', b'), c'), d')
    ensures a == a' && b == b' && c == c' && d == d'
  {
    hide Pair;
    PairIs(Pair(Pair(a, b), c), d, Pair(Pair(a', b'), c'), d');
    PairIs(Pair(a, b), c, Pair(a', b'), c');
    PairIs(a, b, a', b');
  }

  lemma CodeIs(s: State, t: State)
    requires Code(s) == Code(t)
    ensures s == t
  {
    hide Pair, Num;
    WordsBound(s);
    WordsBound(t);
    FourAre(Num(s.s0), Num(s.s1), Num(s.s2), Num(s.s3), Num(t.s0), Num(t.s1), Num(t.s2), Num(t.s3));
    NumIs(s.s0, t.s0);
    NumIs(s.s1, t.s1);
    NumIs(s.s2, t.s2);
    NumIs(s.s3, t.s3);
  }

  /** The numbers of the first n states met from s on. */
  ghost function Met(s: State, n: nat): set<int> {
    if n == 0 then {} else Met(s, n - 1) + {Code(After(s, n - 1))}
  }

  lemma {:induction false} MetBound(s: State, n: nat)
    ensures forall c :: c in Met(s, n) ==> 0 <= c < Many()
  {
    hide Code, After;
    if n > 0 {
      MetBound(s, n - 1);
      CodeBound(After(s, n - 1));
    }
  }

  lemma {:induction false} MetAt(s: State, n: nat, c: int) returns (i: nat)
    requires c in Met(s, n)
    ensures i < n && Code(After(s, i)) == c
  {
    hide Code, After;
    i := n - 1;
    if Code(After(s, i)) != c {
      i := MetAt(s, n - 1, c);
    }
  }

  ghost predicate MetTwice(s: State, i: nat, j: nat) {
    i < j && After(s, i) == After(s, j)
  }

  lemma TwiceIs(s: State, i: nat, j: nat)
    requires MetTwice(s, i, j)
    ensures i < j && After(s, i) == After(s, j)
  {
  }

  /** Until a state is met twice, there is a new one at every step. */
  lemma {:induction false} NewOrTwice(s: State, n: nat)
    ensures |Met(s, n)| == n || exists i: nat, j: nat :: MetTwice(s, i, j)
  {
    hide Code, After;
    if n > 0 {
      NewOrTwice(s, n - 1);
      if Code(After(s, n - 1)) in Met(s, n - 1) {
        var i := MetAt(s, n - 1, Code(After(s, n - 1)));
        CodeIs(After(s, i), After(s, n - 1));
        assert MetTwice(s, i, n - 1);
      }
    }
  }

  /** Every state is met again. */
  lemma Returns(s: State) returns (p: nat)
    ensures 0 < p && After(s, p) == s
  {
    hide *;
    var n := Many() + 1;
    NewOrTwice(s, n);
    MetBound(s, n);
    SizeDecides(Met(s, n), Many());
    var i: nat, j: nat :| MetTwice(s, i, j);
    TwiceIs(s, i, j);
    p := j - i;
    AfterAdd(s, p, i);
    AfterInjective(After(s, p), s, i);
  }

  /** And again, later than any given step. */
  lemma {:induction false} ComesRound(s: State, n: nat) returns (m: nat)
    ensures n <= m && After(s, m) == s
  {
    hide After;
    if n == 0 {
      m := 0;
      AfterNone(s);
    } else {
      var p := Returns(s);
      var k := ComesRound(s, n - 1);
      m := p + k;
      AfterAdd(s, p, k);
    }
  }

  lemma AfterNone(s: State)
    ensures After(s, 0) == s
  {
  }
}
