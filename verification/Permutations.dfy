/** Walking through the arrangements of a span in lexicographic order (tda_span_next_permutation and
    tda_span_prev_permutation in src/algo/permute.c). */
module Permutations {
  import opened Ordering
  import opened Ranks
  import opened Spans
  import Permute

  // ---------- lexicographic order ----------

  /** The first difference between s and t is at k, and s is the smaller there. */
  ghost predicate LessAt<T>(cmp: (T, T) -> int, s: seq<T>, t: seq<T>, k: int) {
    |s| == |t| && 0 <= k < |s| && cmp(s[k], t[k]) < 0 && forall i :: 0 <= i < k ==> cmp(s[i], t[i]) == 0
  }

  ghost predicate LexLess<T>(cmp: (T, T) -> int, s: seq<T>, t: seq<T>) {
    exists k :: LessAt(cmp, s, t, k)
  }

  ghost predicate LexLe<T>(cmp: (T, T) -> int, s: seq<T>, t: seq<T>) {
    LexLess(cmp, s, t) || LexEq(cmp, s, t)
  }

  /** s and t hold every class of equal elems equally often. */
  ghost predicate SameClasses<T(!new)>(cmp: (T, T) -> int, s: seq<T>, t: seq<T>) {
    |s| == |t| && forall x :: SameCount(cmp, x, s, t)
  }

  ghost predicate SameCount<T>(cmp: (T, T) -> int, x: T, s: seq<T>, t: seq<T>) {
    |Low(cmp, x, s)| == |Low(cmp, x, t)|
  }

  lemma PermHasSameClasses<T(!new)>(cmp: (T, T) -> int, s: seq<T>, t: seq<T>)
    requires multiset(s) == multiset(t)
    ensures SameClasses(cmp, s, t)
  {
    assert |multiset(s)| == |s| && |multiset(t)| == |t|;
    forall x ensures SameCount(cmp, x, s, t) {
      LowPerm(cmp, x, s, t);
    }
  }

  lemma LexTotal<T(!new)>(cmp: (T, T) -> int, s: seq<T>, t: seq<T>)
    requires IsOrder(cmp) && |s| == |t|
    ensures LexLess(cmp, s, t) || LexLess(cmp, t, s) || LexEq(cmp, s, t)
  {
    if !LexEq(cmp, s, t) {
      var k := FirstDifference(cmp, s, t, 0);
      assert LessAt(cmp, s, t, k) || LessAt(cmp, t, s, k);
    }
  }

  lemma {:induction false} FirstDifference<T(!new)>(cmp: (T, T) -> int, s: seq<T>, t: seq<T>, i: int) returns (k: int)
    requires IsOrder(cmp) && |s| == |t| && 0 <= i <= |s| && !LexEq(cmp, s, t)
    requires forall j :: 0 <= j < i ==> cmp(s[j], t[j]) == 0
    ensures 0 <= k < |s| && cmp(s[k], t[k]) != 0 && forall j :: 0 <= j < k ==> cmp(s[j], t[j]) == 0
    decreases |s| - i
  {
    if i < |s| && cmp(s[i], t[i]) == 0 {
      k := FirstDifference(cmp, s, t, i + 1);
    } else {
      k := i;
    }
  }

  lemma LexNotBoth<T(!new)>(cmp: (T, T) -> int, s: seq<T>, t: seq<T>)
    requires IsOrder(cmp) && LexLess(cmp, s, t)
    ensures !LexLe(cmp, t, s)
  {
    var k :| LessAt(cmp, s, t, k);
    assert cmp(t[k], s[k]) > 0;
    if LexLess(cmp, t, s) {
      var l :| LessAt(cmp, t, s, l);
    }
  }

  lemma LexTrans<T(!new)>(cmp: (T, T) -> int, s: seq<T>, t: seq<T>, u: seq<T>)
    requires IsOrder(cmp) && LexLess(cmp, s, t) && LexLe(cmp, t, u)
    ensures LexLess(cmp, s, u)
  {
    var k :| LessAt(cmp, s, t, k);
    if LexEq(cmp, t, u) {
      forall i | 0 <= i <= k ensures cmp(s[i], u[i]) == 0 || (i == k && cmp(s[i], u[i]) < 0) {
        assert cmp(t[i], u[i]) == 0;
        EqualThrough(cmp, s[i], t[i], u[i]);
      }
      assert LessAt(cmp, s, u, k);
    } else {
      var l :| LessAt(cmp, t, u, l);
      var m := if k < l then k else l;
      forall i | 0 <= i <= m ensures cmp(s[i], u[i]) == 0 || (i == m && cmp(s[i], u[i]) < 0) {
        assert i < l ==> cmp(t[i], u[i]) == 0;
        assert i < k ==> cmp(s[i], t[i]) == 0;
        EqualThrough(cmp, s[i], t[i], u[i]);
      }
      assert LessAt(cmp, s, u, m);
    }
  }

  lemma EqualThrough<T(!new)>(cmp: (T, T) -> int, x: T, y: T, z: T)
    requires IsOrder(cmp)
    ensures cmp(x, y) == 0 && cmp(y, z) == 0 ==> cmp(x, z) == 0
    ensures cmp(x, y) < 0 && cmp(y, z) <= 0 ==> cmp(x, z) < 0
    ensures cmp(x, y) <= 0 && cmp(y, z) < 0 ==> cmp(x, z) < 0
  {
    assert cmp(z, x) <= 0 && cmp(x, y) <= 0 ==> cmp(z, y) <= 0;
    assert cmp(y, z) <= 0 && cmp(z, x) <= 0 ==> cmp(y, x) <= 0;
  }

  // ---------- what is left behind an equal prefix ----------

  /** Where two arrangements agree up to k, what follows holds the same classes. */
  lemma SameTail<T(!new)>(cmp: (T, T) -> int, s: seq<T>, t: seq<T>, k: int, x: T)
    requires IsOrder(cmp) && SameClasses(cmp, s, t) && 0 <= k <= |s|
    requires forall i :: 0 <= i < k ==> cmp(s[i], t[i]) == 0
    ensures |Low(cmp, x, s[k..])| == |Low(cmp, x, t[k..])|
  {
    assert SameCount(cmp, x, s, t);
    assert s == s[..k] + s[k..] && t == t[..k] + t[k..];
    LowConcat(cmp, x, s[..k], s[k..]);
    LowConcat(cmp, x, t[..k], t[k..]);
    assert LexEq(cmp, s[..k], t[..k]);
    LowLexEq(cmp, x, s[..k], t[..k]);
  }

  /** Behind a non-increasing tail no arrangement comes later: the first difference cannot fall inside it. */
  lemma NothingAbove<T(!new)>(cmp: (T, T) -> int, s: seq<T>, t: seq<T>, k: int)
    requires IsOrder(cmp) && SameClasses(cmp, s, t) && 0 <= k < |s|
    requires forall i :: k <= i < |s| ==> cmp(s[i], s[k]) <= 0
    ensures !LessAt(cmp, s, t, k)
  {
    if LessAt(cmp, s, t, k) {
      var x := s[k];
      var u := t[k..];
      assert u[0] == t[k] && Low(cmp, x, u) == Low(cmp, x, u[1..]);
      LowMost(cmp, x, u[1..], |u| - 1);
      SameTail(cmp, s, t, k, x);
      LowLeast(cmp, x, s[k..], |s| - k);
    }
  }

  /** A tail in ascending order comes first among the arrangements of the tail. */
  lemma NothingBelow<T(!new)>(cmp: (T, T) -> int, r: seq<T>, t: seq<T>, k: int)
    requires IsOrder(cmp) && SameClasses(cmp, r, t) && 0 <= k < |r|
    requires forall i :: k <= i < |r| ==> cmp(r[k], r[i]) <= 0
    ensures !LessAt(cmp, t, r, k)
  {
    if LessAt(cmp, t, r, k) {
      var x := t[k];
      forall i | 0 <= i < k ensures cmp(r[i], t[i]) == 0 {
        assert cmp(t[i], r[i]) == 0;
      }
      forall i | 0 <= i < |r[k..]| ensures cmp(r[k..][i], x) > 0 {
        EqualThrough(cmp, x, r[k], r[k + i]);
      }
      LowLeast(cmp, x, t[k..], 1);
      SameTail(cmp, r, t, k, x);
      LowMost(cmp, x, r[k..], 0);
    }
  }

  // ---------- the step ----------

  /** The last position at or before i whose elem is less than the one after it, or -1. */
  function Pivot<T>(cmp: (T, T) -> int, s: seq<T>, i: int): int
    requires i < |s|
    decreases i
  {
    if i <= 0 then -1 else if cmp(s[i - 1], s[i]) < 0 then i - 1 else Pivot(cmp, s, i - 1)
  }

  /** The last position from i down to p whose elem is greater than the one at p; p itself if there is none. */
  function Mate<T>(cmp: (T, T) -> int, s: seq<T>, p: int, i: int): int
    requires 0 <= p <= i < |s|
    decreases i
  {
    if i == p || cmp(s[i], s[p]) > 0 then i else Mate(cmp, s, p, i - 1)
  }

  /** Whether there is a later arrangement. */
  ghost predicate HasNext<T>(cmp: (T, T) -> int, s: seq<T>) {
    s != [] && Pivot(cmp, s, |s| - 1) >= 0
  }

  /** The arrangement one step leaves: the elem at p traded for its mate, and the tail behind it turned round; or, when
      there is no later one, the whole sequence turned round. */
  ghost function Next<T>(cmp: (T, T) -> int, s: seq<T>): (r: seq<T>)
    ensures |r| == |s|
  {
    if !HasNext(cmp, s) then Permute.Reversed(s)
    else
      var p := Pivot(cmp, s, |s| - 1);
      PivotBounds(cmp, s, |s| - 1);
      MateBounds(cmp, s, p, |s| - 1);
      var u := Swap(s, p, Mate(cmp, s, p, |s| - 1));
      Turned(u, p)
  }

  lemma {:induction false} PivotBounds<T>(cmp: (T, T) -> int, s: seq<T>, i: int)
    requires i < |s|
    ensures var p := Pivot(cmp, s, i);
            -1 <= p && (p >= 0 ==> p < i && cmp(s[p], s[p + 1]) < 0)
            && forall j :: p < j < i ==> cmp(s[j], s[j + 1]) >= 0
    decreases i
  {
    if i > 0 && cmp(s[i - 1], s[i]) >= 0 {
      PivotBounds(cmp, s, i - 1);
    }
  }

  lemma {:induction false} MateBounds<T>(cmp: (T, T) -> int, s: seq<T>, p: int, i: int)
    requires 0 <= p <= i < |s|
    ensures var m := Mate(cmp, s, p, i);
            p <= m <= i && (m > p ==> cmp(s[m], s[p]) > 0)
            && forall j :: m < j <= i ==> cmp(s[j], s[p]) <= 0
    decreases i
  {
    if i != p && cmp(s[i], s[p]) <= 0 {
      MateBounds(cmp, s, p, i - 1);
    }
  }

  /** Neighbours that never ascend make a non-increasing tail. */
  lemma {:induction false} Descends<T(!new)>(cmp: (T, T) -> int, s: seq<T>, k: int, i: int)
    requires IsOrder(cmp) && 0 <= k <= i < |s|
    requires forall j :: k <= j < |s| - 1 ==> cmp(s[j], s[j + 1]) >= 0
    ensures cmp(s[i], s[k]) <= 0
    decreases i
  {
    if k < i {
      Descends(cmp, s, k, i - 1);
      assert cmp(s[i - 1], s[i]) >= 0;
    }
  }

  /** How the step changes s: p is the pivot and m its mate. */
  ghost predicate Step<T>(cmp: (T, T) -> int, s: seq<T>, r: seq<T>, p: int, m: int) {
    && |r| == |s| && 0 <= p < m < |s|
    && cmp(s[p], s[m]) < 0
    && (forall j :: p < j <= m ==> cmp(s[m], s[j]) <= 0)
    && (forall j :: m < j < |s| ==> cmp(s[j], s[p]) <= 0)
    && (forall i, j :: p < i <= j < |s| ==> cmp(s[j], s[i]) <= 0)
    && (forall i :: 0 <= i < p ==> r[i] == s[i]) && r[p] == s[m]
    && (forall i, j :: p < i <= j < |s| ==> cmp(r[i], r[j]) <= 0)
  }

  lemma NextIsStep<T(!new)>(cmp: (T, T) -> int, s: seq<T>) returns (p: int, m: int)
    requires IsOrder(cmp) && HasNext(cmp, s)
    ensures Step(cmp, s, Next(cmp, s), p, m)
    ensures multiset(Next(cmp, s)) == multiset(s)
  {
    hide IsOrder, Step;
    p := Pivot(cmp, s, |s| - 1);
    PivotBounds(cmp, s, |s| - 1);
    m := Mate(cmp, s, p, |s| - 1);
    MateBounds(cmp, s, p, |s| - 1);
    forall i, j | p < i <= j < |s| ensures cmp(s[j], s[i]) <= 0 {
      Descends(cmp, s, i, j);
    }
    StepOf(cmp, s, p, m);
  }

  lemma StepOf<T(!new)>(cmp: (T, T) -> int, s: seq<T>, p: int, m: int)
    requires IsOrder(cmp) && 0 <= p <= m < |s| && p + 1 < |s| && cmp(s[p], s[p + 1]) < 0
    requires p < m ==> cmp(s[m], s[p]) > 0
    requires forall j :: m < j < |s| ==> cmp(s[j], s[p]) <= 0
    requires forall i, j :: p < i <= j < |s| ==> cmp(s[j], s[i]) <= 0
    ensures Step(cmp, s, Turned(Swap(s, p, m), p), p, m)
    ensures multiset(Turned(Swap(s, p, m), p)) == multiset(s)
  {
    assert cmp(s[p + 1], s[p]) > 0;
    TradedTail(cmp, s, p, m);
    TurnedTail(cmp, Swap(s, p, m), p);
  }

  /** u with everything behind p turned round. */
  ghost function Turned<T>(u: seq<T>, p: int): (r: seq<T>)
    requires 0 <= p < |u|
    ensures |r| == |u|
    ensures forall i :: 0 <= i < |u| ==> r[i] == if i <= p then u[i] else u[|u| + p - i]
  {
    u[..p + 1] + Permute.Reversed(u[p + 1..])
  }

  lemma TurnedTail<T>(cmp: (T, T) -> int, u: seq<T>, p: int)
    requires 0 <= p < |u| && forall i, j :: p < i <= j < |u| ==> cmp(u[j], u[i]) <= 0
    ensures multiset(Turned(u, p)) == multiset(u)
    ensures forall i, j :: p < i <= j < |u| ==> cmp(Turned(u, p)[i], Turned(u, p)[j]) <= 0
  {
    Permute.ReversedPerm(u[p + 1..]);
    assert u == u[..p + 1] + u[p + 1..];
  }

  /** Trading the pivot for its mate keeps the tail non-increasing. */
  lemma TradedTail<T(!new)>(cmp: (T, T) -> int, s: seq<T>, p: int, m: int)
    requires IsOrder(cmp) && 0 <= p < m < |s| && cmp(s[m], s[p]) > 0
    requires forall j :: m < j < |s| ==> cmp(s[j], s[p]) <= 0
    requires forall i, j :: p < i <= j < |s| ==> cmp(s[j], s[i]) <= 0
    ensures var u := Swap(s, p, m); forall i, j :: p < i <= j < |s| ==> cmp(u[j], u[i]) <= 0
  {
    var u := Swap(s, p, m);
    forall i, j | p < i <= j < |s| ensures cmp(u[j], u[i]) <= 0 {
      assert cmp(s[j], s[i]) <= 0;
      if i < m {
        assert cmp(s[m], s[i]) <= 0;
      }
    }
  }

  /** No elem of the tail lies strictly between the pivot and its mate, so no arrangement fits between s and the next.
      */
  lemma NoneBetween<T(!new)>(cmp: (T, T) -> int, s: seq<T>, r: seq<T>, t: seq<T>, p: int, m: int)
    requires IsOrder(cmp) && Step(cmp, s, r, p, m) && SameClasses(cmp, s, t)
    requires forall i :: 0 <= i < p ==> cmp(s[i], t[i]) == 0
    requires cmp(s[p], t[p]) < 0
    ensures cmp(t[p], s[m]) >= 0
  {
    if cmp(t[p], s[m]) < 0 {
      var x, y, a, b := s[p], t[p], s[p..], t[p..];
      forall i | 0 <= i < |a| ensures cmp(a[i], y) <= 0 ==> cmp(a[i], x) <= 0 {
        assert a[i] == s[p + i];
        if 0 < i && p + i <= m {
          EqualThrough(cmp, y, s[m], s[p + i]);
        }
      }
      LowWithin(cmp, y, x, a);
      SameTail(cmp, s, t, p, x);
      SameTail(cmp, s, t, p, y);
      forall i | 0 <= i < |b| && cmp(b[i], x) <= 0 ensures cmp(b[i], y) <= 0 {
        EqualThrough(cmp, b[i], x, y);
      }
      assert b[0] == y && cmp(y, y) == 0;
      LowGrows(cmp, x, y, b, 0);
    }
  }

  // ---------- the theorems ----------

  /** The next arrangement is one, comes later, and no arrangement lies between. */
  lemma NextIsLeast<T(!new)>(cmp: (T, T) -> int, s: seq<T>)
    requires IsOrder(cmp) && HasNext(cmp, s)
    ensures multiset(Next(cmp, s)) == multiset(s)
    ensures LexLess(cmp, s, Next(cmp, s))
    ensures forall t :: multiset(t) == multiset(s) && LexLess(cmp, s, t) ==> LexLe(cmp, Next(cmp, s), t)
  {
    hide Next, IsOrder, HasNext;
    var p, m := NextIsStep(cmp, s);
    var r := Next(cmp, s);
    assert LessAt(cmp, s, r, p) by {
      StepIsLater(cmp, s, r, p, m);
    }
    forall t | multiset(t) == multiset(s) && LexLess(cmp, s, t) ensures LexLe(cmp, r, t) {
      NothingSkipped(cmp, s, r, p, m, t);
    }
  }

  lemma StepIsLater<T(!new)>(cmp: (T, T) -> int, s: seq<T>, r: seq<T>, p: int, m: int)
    requires IsOrder(cmp) && Step(cmp, s, r, p, m)
    ensures LessAt(cmp, s, r, p)
  {
  }

  lemma NothingSkipped<T(!new)>(cmp: (T, T) -> int, s: seq<T>, r: seq<T>, p: int, m: int, t: seq<T>)
    requires IsOrder(cmp) && Step(cmp, s, r, p, m) && multiset(r) == multiset(s)
    requires multiset(t) == multiset(s) && LexLess(cmp, s, t)
    ensures LexLe(cmp, r, t)
  {
    PermHasSameClasses(cmp, s, t);
    PermHasSameClasses(cmp, r, t);
    var k :| LessAt(cmp, s, t, k);
    if p < k {
      NothingAbove(cmp, s, t, k);
    } else if k < p {
      assert LessAt(cmp, r, t, k);
    } else {
      NoneBetween(cmp, s, r, t, p, m);
      LexTotal(cmp, r, t);
      if LexLess(cmp, t, r) {
        var l :| LessAt(cmp, t, r, l);
        NotLater(cmp, s, r, t, p, m, l);
      }
    }
  }

  lemma NotLater<T(!new)>(cmp: (T, T) -> int, s: seq<T>, r: seq<T>, t: seq<T>, p: int, m: int, l: int)
    requires IsOrder(cmp) && Step(cmp, s, r, p, m) && SameClasses(cmp, r, t) && LessAt(cmp, s, t, p)
    requires cmp(t[p], s[m]) >= 0
    ensures !LessAt(cmp, t, r, l)
  {
    if p < l < |r| {
      NothingBelow(cmp, r, t, l);
    } else if 0 <= l < p {
      assert cmp(s[l], t[l]) == 0 && r[l] == s[l];
    }
  }

  /** There is a next arrangement exactly when one comes later; on the last the step wraps to the sorted one. */
  lemma NextExists<T(!new)>(cmp: (T, T) -> int, s: seq<T>)
    requires IsOrder(cmp)
    ensures HasNext(cmp, s) <==> exists t :: multiset(t) == multiset(s) && LexLess(cmp, s, t)
    ensures !HasNext(cmp, s) ==> Sorted(cmp, Next(cmp, s)) && multiset(Next(cmp, s)) == multiset(s)
  {
    hide Next, IsOrder, LexLess;
    if HasNext(cmp, s) {
      NextIsLeast(cmp, s);
    } else {
      LastIsGreatest(cmp, s);
    }
  }

  lemma LastIsGreatest<T(!new)>(cmp: (T, T) -> int, s: seq<T>)
    requires IsOrder(cmp) && !HasNext(cmp, s)
    ensures Sorted(cmp, Next(cmp, s)) && multiset(Next(cmp, s)) == multiset(s)
    ensures forall t :: multiset(t) == multiset(s) ==> !LexLess(cmp, s, t)
  {
    forall i, j | 0 <= i <= j < |s| ensures cmp(s[j], s[i]) <= 0 {
      PivotBounds(cmp, s, |s| - 1);
      Descends(cmp, s, i, j);
    }
    Permute.ReversedPerm(s);
    forall t | multiset(t) == multiset(s) ensures !LexLess(cmp, s, t) {
      NoneLater(cmp, s, t);
    }
  }

  lemma NoneLater<T(!new)>(cmp: (T, T) -> int, s: seq<T>, t: seq<T>)
    requires IsOrder(cmp) && multiset(t) == multiset(s)
    requires forall i, j :: 0 <= i <= j < |s| ==> cmp(s[j], s[i]) <= 0
    ensures !LexLess(cmp, s, t)
  {
    PermHasSameClasses(cmp, s, t);
    forall k ensures !LessAt(cmp, s, t, k) {
      if 0 <= k < |s| {
        NothingAbove(cmp, s, t, k);
      }
    }
  }

  /** Nothing comes before the sorted arrangement. */
  lemma SortedIsFirst<T(!new)>(cmp: (T, T) -> int, s: seq<T>, t: seq<T>)
    requires IsOrder(cmp) && Sorted(cmp, s) && multiset(t) == multiset(s)
    ensures LexLe(cmp, s, t)
  {
    PermHasSameClasses(cmp, s, t);
    forall k ensures !LessAt(cmp, t, s, k) {
      if 0 <= k < |s| {
        NothingBelow(cmp, s, t, k);
      }
    }
    LexTotal(cmp, s, t);
  }

  // ---------- the previous arrangement ----------

  lemma FlipOrder<T(!new)>(cmp: (T, T) -> int)
    requires IsOrder(cmp)
    ensures IsOrder(Flip(cmp))
    ensures forall s: seq<T>, t: seq<T> :: LexLess(Flip(cmp), s, t) <==> LexLess(cmp, t, s)
    ensures forall s: seq<T>, t: seq<T> :: LexEq(Flip(cmp), s, t) <==> LexEq(cmp, s, t)
  {
    var f := Flip(cmp);
    forall s: seq<T>, t: seq<T> ensures LexLess(f, s, t) <==> LexLess(cmp, t, s) {
      forall k ensures LessAt(f, s, t, k) <==> LessAt(cmp, t, s, k) {
      }
      if k :| LessAt(f, s, t, k) {
        assert LessAt(cmp, t, s, k);
      }
      if k :| LessAt(cmp, t, s, k) {
        assert LessAt(f, s, t, k);
      }
    }
  }

  /** prev_permutation undoes next_permutation up to cmp-equality, across the wrap as well. */
  lemma PrevUndoesNext<T(!new)>(cmp: (T, T) -> int, s: seq<T>)
    requires IsOrder(cmp)
    ensures LexEq(cmp, Next(Flip(cmp), Next(cmp, s)), s)
    ensures HasNext(Flip(cmp), Next(cmp, s)) <==> HasNext(cmp, s)
  {
    hide Next, HasNext, Flip;
    if HasNext(cmp, s) {
      PrevOfLater(cmp, s);
    } else {
      PrevOfWrapped(cmp, s);
    }
  }

  lemma PrevOfLater<T(!new)>(cmp: (T, T) -> int, s: seq<T>)
    requires IsOrder(cmp) && HasNext(cmp, s)
    ensures LexEq(cmp, Next(Flip(cmp), Next(cmp, s)), s) && HasNext(Flip(cmp), Next(cmp, s))
  {
    hide *;
    var f, r := Flip(cmp), Next(cmp, s);
    var q := Next(f, r);
    FlipOrder(cmp);
    NextIsLeast(cmp, s);
    assert LexLess(f, r, s);
    NextExists(f, r);
    NextIsLeast(f, r);
    Sandwiched(cmp, f, s, r, q);
  }

  /** q is no later than s, and s no later than q, for nothing lies between s and r. */
  lemma Sandwiched<T(!new)>(cmp: (T, T) -> int, f: (T, T) -> int, s: seq<T>, r: seq<T>, q: seq<T>)
    requires IsOrder(cmp) && LexLe(f, q, s) && LexLess(f, r, q) && multiset(q) == multiset(s)
    requires forall s: seq<T>, t: seq<T> :: LexLess(f, s, t) <==> LexLess(cmp, t, s)
    requires forall s: seq<T>, t: seq<T> :: LexEq(f, s, t) <==> LexEq(cmp, s, t)
    requires forall t :: multiset(t) == multiset(s) && LexLess(cmp, s, t) ==> LexLe(cmp, r, t)
    ensures LexEq(cmp, q, s)
  {
    hide LexLess, LexEq, IsOrder;
    assert LexLess(cmp, q, r);
    LexNotBoth(cmp, q, r);
    assert !LexLess(cmp, s, q);
  }

  lemma PrevOfWrapped<T(!new)>(cmp: (T, T) -> int, s: seq<T>)
    requires IsOrder(cmp) && !HasNext(cmp, s)
    ensures LexEq(cmp, Next(Flip(cmp), Next(cmp, s)), s) && !HasNext(Flip(cmp), Next(cmp, s))
  {
    hide IsOrder, LexLess, LexEq, Sorted, Pivot, Flip;
    var f, r := Flip(cmp), Next(cmp, s);
    FlipOrder(cmp);
    NextExists(cmp, s);
    if HasNext(f, r) {
      var q := Next(f, r);
      NextIsLeast(f, r);
      SortedIsFirst(cmp, r, q);
      LexNotBoth(cmp, q, r);
    }
    assert Next(f, r) == Permute.Reversed(Permute.Reversed(s)) == s;
    LexRefl(cmp, s);
  }

  lemma LexRefl<T(!new)>(cmp: (T, T) -> int, s: seq<T>)
    requires IsOrder(cmp)
    ensures LexEq(cmp, s, s)
  {
  }

  // ---------- the walk through all arrangements ----------

  /** The arrangement after k steps. */
  ghost function Walk<T>(cmp: (T, T) -> int, s: seq<T>, k: nat): seq<T> {
    if k == 0 then s else Next(cmp, Walk(cmp, s, k - 1))
  }

  /** The first k steps all found a next arrangement: the do-while loop gets as far as Walk(s, k). */
  ghost predicate Walked<T>(cmp: (T, T) -> int, s: seq<T>, k: nat) {
    forall i: nat :: i < k ==> HasNext(cmp, Walk(cmp, s, i))
  }

  lemma {:induction false} WalkRearranges<T(!new)>(cmp: (T, T) -> int, s: seq<T>, k: nat)
    requires IsOrder(cmp)
    ensures multiset(Walk(cmp, s, k)) == multiset(s)
  {
    hide IsOrder, HasNext, Next, Sorted, LexLess;
    if k > 0 {
      WalkRearranges(cmp, s, k - 1);
      NextExists(cmp, Walk(cmp, s, k - 1));
      if HasNext(cmp, Walk(cmp, s, k - 1)) {
        NextIsLeast(cmp, Walk(cmp, s, k - 1));
      }
    }
  }

  /** Every step goes on to a later arrangement, so none is visited twice. */
  lemma {:induction false} WalkAscends<T(!new)>(cmp: (T, T) -> int, s: seq<T>, i: nat, j: nat)
    requires IsOrder(cmp) && i < j && Walked(cmp, s, j)
    ensures LexLess(cmp, Walk(cmp, s, i), Walk(cmp, s, j))
    ensures !LexEq(cmp, Walk(cmp, s, i), Walk(cmp, s, j))
    decreases j
  {
    hide IsOrder, HasNext, LexLess, LexEq, Next;
    var u := Walk(cmp, s, j - 1);
    assert HasNext(cmp, u);
    NextIsLeast(cmp, u);
    if i < j - 1 {
      WalkAscends(cmp, s, i, j - 1);
      LexTrans(cmp, Walk(cmp, s, i), u, Walk(cmp, s, j));
    }
    LexNotBoth(cmp, Walk(cmp, s, i), Walk(cmp, s, j));
    if LexEq(cmp, Walk(cmp, s, i), Walk(cmp, s, j)) {
      LexEqSym(cmp, Walk(cmp, s, i), Walk(cmp, s, j));
    }
  }

  lemma LexEqSym<T(!new)>(cmp: (T, T) -> int, s: seq<T>, t: seq<T>)
    requires IsOrder(cmp) && LexEq(cmp, s, t)
    ensures LexEq(cmp, t, s)
  {
    forall i | 0 <= i < |s| ensures cmp(t[i], s[i]) == 0 {
      assert cmp(s[i], t[i]) == 0;
    }
  }

  // A number that grows with every step: the ranks of the elems, read as digits.

  ghost function Pow(b: nat, n: nat): (p: nat)
    ensures b > 0 ==> p > 0
  {
    if n == 0 then 1 else b * Pow(b, n - 1)
  }

  ghost function Value<T>(cmp: (T, T) -> int, s0: seq<T>, s: seq<T>): nat {
    if s == [] then 0 else |Low(cmp, s[0], s0)| * Pow(|s0| + 1, |s| - 1) + Value(cmp, s0, s[1..])
  }

  lemma {:induction false} LowShort<T>(cmp: (T, T) -> int, x: T, s: seq<T>)
    ensures |Low(cmp, x, s)| <= |s|
  {
    if s != [] {
      LowShort(cmp, x, s[1..]);
    }
  }

  lemma {:induction false} ValueBound<T>(cmp: (T, T) -> int, s0: seq<T>, s: seq<T>)
    ensures Value(cmp, s0, s) < Pow(|s0| + 1, |s|)
  {
    if s != [] {
      LowShort(cmp, s[0], s0);
      ValueBound(cmp, s0, s[1..]);
      DigitFits(|Low(cmp, s[0], s0)|, |s0|, Pow(|s0| + 1, |s| - 1), Value(cmp, s0, s[1..]));
    }
  }

  lemma DigitFits(d: nat, n: nat, p: nat, v: nat)
    requires d <= n && v < p
    ensures d * p + v < (n + 1) * p
  {
    assert d * p <= n * p;
    assert (n + 1) * p == n * p + p;
  }

  lemma LeadingDigit(d: nat, e: nat, p: nat, v: nat, w: nat)
    requires d < e && v < p
    ensures d * p + v < e * p + w
  {
    assert (d + 1) * p <= e * p;
    assert (d + 1) * p == d * p + p;
  }

  /** A later arrangement has the greater number. */
  lemma {:induction false} ValueAscends<T(!new)>(cmp: (T, T) -> int, s0: seq<T>, s: seq<T>, t: seq<T>, k: int)
    requires IsOrder(cmp) && LessAt(cmp, s, t, k) && forall i :: 0 <= i < |t| ==> t[i] in s0
    ensures Value(cmp, s0, s) < Value(cmp, s0, t)
    decreases |s|
  {
    hide IsOrder, Low, Pow;
    var p := Pow(|s0| + 1, |s| - 1);
    if k == 0 {
      DigitAscends(cmp, s0, s[0], t[0]);
      ValueBound(cmp, s0, s[1..]);
      LeadingDigit(|Low(cmp, s[0], s0)|, |Low(cmp, t[0], s0)|, p, Value(cmp, s0, s[1..]), Value(cmp, s0, t[1..]));
    } else {
      DigitSame(cmp, s0, s[0], t[0]);
      assert LessAt(cmp, s[1..], t[1..], k - 1);
      ValueAscends(cmp, s0, s[1..], t[1..], k - 1);
    }
  }

  lemma DigitAscends<T(!new)>(cmp: (T, T) -> int, s0: seq<T>, x: T, y: T)
    requires IsOrder(cmp) && cmp(x, y) < 0 && y in s0
    ensures |Low(cmp, x, s0)| < |Low(cmp, y, s0)|
  {
    var k :| 0 <= k < |s0| && s0[k] == y;
    forall i | 0 <= i < |s0| && cmp(s0[i], x) <= 0 ensures cmp(s0[i], y) <= 0 {
      EqualThrough(cmp, s0[i], x, y);
    }
    assert cmp(y, y) == 0 && cmp(y, x) > 0;
    LowGrows(cmp, x, y, s0, k);
  }

  lemma DigitSame<T(!new)>(cmp: (T, T) -> int, s0: seq<T>, x: T, y: T)
    requires IsOrder(cmp) && cmp(x, y) == 0
    ensures |Low(cmp, x, s0)| == |Low(cmp, y, s0)|
  {
    forall i | 0 <= i < |s0| ensures cmp(s0[i], x) <= 0 <==> cmp(s0[i], y) <= 0 {
      assert cmp(y, x) == 0;
    }
    LowWithin(cmp, x, y, s0);
    LowWithin(cmp, y, x, s0);
  }

  /** From any arrangement not after t, the walk gets to t. */
  lemma {:induction false} WalkReaches<T(!new)>(cmp: (T, T) -> int, s: seq<T>, t: seq<T>, i: nat) returns (k: nat)
    requires IsOrder(cmp) && multiset(t) == multiset(s) && Walked(cmp, s, i) && LexLe(cmp, Walk(cmp, s, i), t)
    ensures i <= k && Walked(cmp, s, k) && LexEq(cmp, Walk(cmp, s, k), t)
    decreases Value(cmp, s, t) - Value(cmp, s, Walk(cmp, s, i))
  {
    hide IsOrder, HasNext, Next, LexLess, LexEq;
    var u := Walk(cmp, s, i);
    if LexEq(cmp, u, t) {
      return i;
    }
    WalkRearranges(cmp, s, i);
    WalkRearranges(cmp, s, i + 1);
    NextExists(cmp, u);
    NextIsLeast(cmp, u);
    ValueGrows(cmp, s, u, Walk(cmp, s, i + 1));
    ValueGrows(cmp, s, u, t);
    k := WalkReaches(cmp, s, t, i + 1);
  }

  lemma ValueGrows<T(!new)>(cmp: (T, T) -> int, s0: seq<T>, s: seq<T>, t: seq<T>)
    requires IsOrder(cmp) && LexLess(cmp, s, t) && multiset(t) == multiset(s0)
    ensures Value(cmp, s0, s) < Value(cmp, s0, t)
  {
    var k :| LessAt(cmp, s, t, k);
    forall i | 0 <= i < |t| ensures t[i] in s0 {
      assert t[i] in multiset(s0);
    }
    ValueAscends(cmp, s0, s, t, k);
  }

  /** A do-while over next_permutation from a sorted span visits every arrangement, each exactly once up to cmp. */
  lemma VisitsEach<T(!new)>(cmp: (T, T) -> int, s: seq<T>, t: seq<T>) returns (k: nat)
    requires IsOrder(cmp) && Sorted(cmp, s) && multiset(t) == multiset(s)
    ensures Walked(cmp, s, k) && LexEq(cmp, Walk(cmp, s, k), t)
    ensures forall j: nat :: Walked(cmp, s, j) && LexEq(cmp, Walk(cmp, s, j), t) ==> j == k
  {
    hide IsOrder, HasNext, Next, LexLess, LexEq, Sorted;
    SortedIsFirst(cmp, s, t);
    k := WalkReaches(cmp, s, t, 0);
    forall j: nat | Walked(cmp, s, j) && LexEq(cmp, Walk(cmp, s, j), t) ensures j == k {
      SameVisit(cmp, s, t, j, k);
    }
  }

  lemma SameVisit<T(!new)>(cmp: (T, T) -> int, s: seq<T>, t: seq<T>, j: nat, k: nat)
    requires IsOrder(cmp) && Walked(cmp, s, j) && Walked(cmp, s, k)
    requires LexEq(cmp, Walk(cmp, s, j), t) && LexEq(cmp, Walk(cmp, s, k), t)
    ensures j == k
  {
    hide HasNext, Next, Walk;
    var u, v := Walk(cmp, s, j), Walk(cmp, s, k);
    if j < k {
      WalkAscends(cmp, s, j, k);
      LexEqTrans(cmp, u, t, v);
    } else if k < j {
      WalkAscends(cmp, s, k, j);
      LexEqTrans(cmp, v, t, u);
    }
  }

  lemma LexEqTrans<T(!new)>(cmp: (T, T) -> int, s: seq<T>, t: seq<T>, u: seq<T>)
    requires IsOrder(cmp) && LexEq(cmp, s, t) && LexEq(cmp, u, t)
    ensures LexEq(cmp, s, u)
  {
    forall i | 0 <= i < |s| ensures cmp(s[i], u[i]) == 0 {
      assert cmp(s[i], t[i]) == 0 && cmp(u[i], t[i]) == 0;
      EqualThrough(cmp, s[i], t[i], u[i]);
    }
  }

  /** The walk ends: after the visit of the last arrangement the step answers false and leaves the sorted one. */
  lemma WalkEnds<T(!new)>(cmp: (T, T) -> int, s: seq<T>) returns (k: nat)
    requires IsOrder(cmp) && Sorted(cmp, s)
    ensures Walked(cmp, s, k) && !HasNext(cmp, Walk(cmp, s, k))
    ensures Sorted(cmp, Walk(cmp, s, k + 1)) && multiset(Walk(cmp, s, k + 1)) == multiset(s)
  {
    hide IsOrder, HasNext, Next, LexLess, LexEq, Sorted, Pivot;
    k := WalkEnd(cmp, s, 0);
    WalkRearranges(cmp, s, k + 1);
    NextExists(cmp, Walk(cmp, s, k));
  }

  lemma {:induction false} WalkEnd<T(!new)>(cmp: (T, T) -> int, s: seq<T>, i: nat) returns (k: nat)
    requires IsOrder(cmp) && Walked(cmp, s, i)
    ensures Walked(cmp, s, k) && !HasNext(cmp, Walk(cmp, s, k))
    decreases Pow(|s| + 1, |s|) - Value(cmp, s, Walk(cmp, s, i))
  {
    hide IsOrder, HasNext, Next, LexLess, LexEq, Pow, Value;
    var u := Walk(cmp, s, i);
    if !HasNext(cmp, u) {
      return i;
    }
    NextIsLeast(cmp, u);
    WalkRearranges(cmp, s, i + 1);
    var v := Walk(cmp, s, i + 1);
    assert |multiset(v)| == |v| && |multiset(s)| == |s|;
    ValueGrows(cmp, s, u, v);
    ValueBound(cmp, s, v);
    k := WalkEnd(cmp, s, i + 1);
  }

  // ---------- the code ----------

  /** The order a step follows: cmp going up, cmp read backwards going down. */
  ghost function Direction<T>(cmp: (T, T) -> int, asc: bool): (T, T) -> int {
    if asc then cmp else Flip(cmp)
  }

  lemma DirectionTest<T(!new)>(cmp: (T, T) -> int, asc: bool, x: T, y: T)
    requires IsOrder(cmp)
    ensures (if asc then cmp(x, y) < 0 else cmp(x, y) > 0) <==> Direction(cmp, asc)(x, y) < 0
    ensures (if asc then cmp(x, y) > 0 else cmp(x, y) < 0) <==> Direction(cmp, asc)(x, y) > 0
  {
  }

  lemma PivotStep<T>(dir: (T, T) -> int, s: seq<T>, i: int)
    requires 0 < i < |s|
    ensures Pivot(dir, s, i) == if dir(s[i - 1], s[i]) < 0 then i - 1 else Pivot(dir, s, i - 1)
    ensures Pivot(dir, s, 0) == -1
  {
  }

  lemma MateStep<T>(dir: (T, T) -> int, s: seq<T>, p: int, i: int)
    requires 0 <= p < i < |s|
    ensures Mate(dir, s, p, i) == if dir(s[i], s[p]) > 0 then i else Mate(dir, s, p, i - 1)
  {
  }

  /** The pivot scan: from the end towards the front. */
  method FindPivot<T(!new)>(a: array<T>, lo: int, hi: int, cmp: (T, T) -> int, asc: bool, ghost h: seq<T>)
    returns (p: int)
    requires IsOrder(cmp)
    requires 0 <= lo && lo + 2 <= hi <= a.Length && |h| == hi - lo
    requires forall k :: 0 <= k < |h| ==> a[lo + k] == h[k]
    ensures -1 <= p < |h| && p == Pivot(Direction(cmp, asc), h, |h| - 1)
  {
    hide *;
    ghost var dir := Direction(cmp, asc);
    var pivot := hi - lo - 1;
    while pivot > 0
      invariant 0 <= pivot < |h|
      invariant Pivot(dir, h, pivot) == Pivot(dir, h, |h| - 1)
    {
      assert a[lo + (pivot - 1)] == h[pivot - 1] && a[lo + pivot] == h[pivot];
      var c := cmp(a[lo + pivot - 1], a[lo + pivot]);
      DirectionTest(cmp, asc, h[pivot - 1], h[pivot]);
      PivotStep(dir, h, pivot);
      if if asc then c < 0 else c > 0 {
        break;
      }
      pivot := pivot - 1;
    }
    if pivot > 0 {
      PivotStep(dir, h, pivot);
    } else {
      PivotStep(dir, h, 1);
    }
    p := pivot - 1;
  }

  /** The mate scan: it stops at the latest at the elem behind the pivot. */
  method FindMate<T(!new)>(a: array<T>, lo: int, hi: int, p: int, cmp: (T, T) -> int, asc: bool, ghost h: seq<T>)
    returns (m: int)
    requires IsOrder(cmp)
    requires 0 <= lo <= hi <= a.Length && |h| == hi - lo && 0 <= p < |h| - 1
    requires forall k :: 0 <= k < |h| ==> a[lo + k] == h[k]
    requires Direction(cmp, asc)(h[p + 1], h[p]) > 0
    ensures p < m < |h| && m == Mate(Direction(cmp, asc), h, p, |h| - 1)
  {
    hide *;
    ghost var dir := Direction(cmp, asc);
    m := hi - lo - 1;
    while true
      invariant p < m < |h|
      invariant Mate(dir, h, p, m) == Mate(dir, h, p, |h| - 1)
      decreases m
    {
      assert a[lo + m] == h[m] && a[lo + p] == h[p];
      var c := cmp(a[lo + m], a[lo + p]);
      DirectionTest(cmp, asc, h[m], h[p]);
      MateStep(dir, h, p, m);
      if if asc then c > 0 else c < 0 {
        break;
      }
      m := m - 1;
    }
  }

  lemma NextUnfolds<T(!new)>(dir: (T, T) -> int, h: seq<T>)
    requires h != [] && IsOrder(dir)
    ensures Pivot(dir, h, |h| - 1) < 0 ==> !HasNext(dir, h) && Next(dir, h) == Permute.Reversed(h)
    ensures Pivot(dir, h, |h| - 1) >= 0 ==>
      var p := Pivot(dir, h, |h| - 1);
      p < |h| - 1 && dir(h[p + 1], h[p]) > 0 && HasNext(dir, h)
    ensures Pivot(dir, h, |h| - 1) >= 0 ==>
      var p := Pivot(dir, h, |h| - 1);
      var m := Mate(dir, h, p, |h| - 1);
      0 <= m < |h| && Next(dir, h) == Turned(Swap(h, p, m), p)
  {
    var p := Pivot(dir, h, |h| - 1);
    PivotBounds(dir, h, |h| - 1);
    if p >= 0 {
      assert dir(h[p], h[p + 1]) < 0;
      assert dir(h[p + 1], h[p]) > 0;
      MateBounds(dir, h, p, |h| - 1);
    }
  }

  lemma DirectionOrder<T(!new)>(cmp: (T, T) -> int, asc: bool)
    requires IsOrder(cmp)
    ensures IsOrder(Direction(cmp, asc))
  {
    FlipOrder(cmp);
  }

  lemma TooShort<T(!new)>(cmp: (T, T) -> int, h: seq<T>)
    requires |h| < 2
    ensures !HasNext(cmp, h) && Next(cmp, h) == h
  {
    assert Permute.Reversed(h) == h;
  }

  /** One step in either direction. */
  method PermuteStep<T(!new)>(a: array<T>, lo: int, hi: int, cmp: (T, T) -> int, asc: bool) returns (more: bool)
    requires IsOrder(cmp)
    requires 0 <= lo <= hi <= a.Length
    modifies a
    ensures more <==> HasNext(Direction(cmp, asc), old(a[lo..hi]))
    ensures a[lo..hi] == Next(Direction(cmp, asc), old(a[lo..hi]))
    ensures forall k :: 0 <= k < lo || hi <= k < a.Length ==> a[k] == old(a[k])
  {
    hide *;
    ghost var h, dir := a[lo..hi], Direction(cmp, asc);
    SpanElems(a, lo, hi, h);
    DirectionOrder(cmp, asc);
    if hi - lo < 2 {
      TooShort(dir, h);
      return false;
    }
    NextUnfolds(dir, h);
    var p := FindPivot(a, lo, hi, cmp, asc, h);
    if p < 0 {
      ghost var _ := Permute.Reverse(a, lo, hi);
      return false;
    }
    var m := FindMate(a, lo, hi, p, cmp, asc, h);
    ghost var u := SwapElems(a, lo, p, m, h);
    ReverseTail(a, lo, hi, p, u);
    return true;
  }

  method ReverseTail<T>(a: array<T>, lo: int, hi: int, p: int, ghost u: seq<T>)
    requires 0 <= lo <= hi <= a.Length && |u| == hi - lo && 0 <= p < |u|
    requires forall k :: 0 <= k < |u| ==> a[lo + k] == u[k]
    modifies a
    ensures a[lo..hi] == Turned(u, p)
    ensures forall k :: 0 <= k < lo || hi <= k < a.Length ==> a[k] == old(a[k])
  {
    hide *;
    SubSpan(a, lo, u, p + 1, |u|);
    assert u[p + 1..|u|] == u[p + 1..];
    ghost var _ := Permute.Reverse(a, lo + p + 1, hi);
    TailReversed(a, lo, hi, p, u);
  }

  lemma TailReversed<T>(a: array<T>, lo: int, hi: int, p: int, u: seq<T>)
    requires 0 <= lo <= hi <= a.Length && |u| == hi - lo && 0 <= p < |u|
    requires forall k :: 0 <= k <= p ==> a[lo + k] == u[k]
    requires a[lo + p + 1..hi] == Permute.Reversed(u[p + 1..])
    ensures a[lo..hi] == Turned(u, p)
  {
    assert a[lo..hi] == a[lo..lo + p + 1] + a[lo + p + 1..hi];
    assert a[lo..lo + p + 1] == u[..p + 1];
  }

  method NextPermutation<T(!new)>(a: array<T>, lo: int, hi: int, cmp: (T, T) -> int) returns (more: bool)
    requires IsOrder(cmp)
    requires 0 <= lo <= hi <= a.Length
    modifies a
    ensures more <==> HasNext(cmp, old(a[lo..hi]))
    ensures a[lo..hi] == Next(cmp, old(a[lo..hi]))
    ensures forall k :: 0 <= k < lo || hi <= k < a.Length ==> a[k] == old(a[k])
  {
    more := PermuteStep(a, lo, hi, cmp, true);
  }

  method PrevPermutation<T(!new)>(a: array<T>, lo: int, hi: int, cmp: (T, T) -> int) returns (more: bool)
    requires IsOrder(cmp)
    requires 0 <= lo <= hi <= a.Length
    modifies a
    ensures more <==> HasNext(Flip(cmp), old(a[lo..hi]))
    ensures a[lo..hi] == Next(Flip(cmp), old(a[lo..hi]))
    ensures forall k :: 0 <= k < lo || hi <= k < a.Length ==> a[k] == old(a[k])
  {
    more := PermuteStep(a, lo, hi, cmp, false);
  }
}
