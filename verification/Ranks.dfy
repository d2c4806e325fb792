/** Counting the elems of a sequence that are not greater than a given one. Two sequences that agree in all these counts
    hold the same classes of equal elems equally often. */
module Ranks {
  import opened Ordering

  /** The elems of s not greater than x. */
  ghost function Low<T>(cmp: (T, T) -> int, x: T, s: seq<T>): seq<T> {
    if s == [] then []
    else if cmp(s[0], x) <= 0 then [s[0]] + Low(cmp, x, s[1..])
    else Low(cmp, x, s[1..])
  }

  lemma {:induction false} LowCount<T>(cmp: (T, T) -> int, x: T, s: seq<T>, y: T)
    ensures multiset(Low(cmp, x, s))[y] == if cmp(y, x) <= 0 then multiset(s)[y] else 0
  {
    if s != [] {
      LowCount(cmp, x, s[1..], y);
      assert s == [s[0]] + s[1..];
    }
  }

  lemma LowPerm<T(!new)>(cmp: (T, T) -> int, x: T, r: seq<T>, s: seq<T>)
    requires multiset(r) == multiset(s)
    ensures |Low(cmp, x, r)| == |Low(cmp, x, s)|
  {
    var l, m := Low(cmp, x, r), Low(cmp, x, s);
    forall y ensures multiset(l)[y] == multiset(m)[y] {
      LowCount(cmp, x, r, y);
      LowCount(cmp, x, s, y);
    }
    assert multiset(l) == multiset(m);
    assert |multiset(l)| == |l| && |multiset(m)| == |m|;
  }

  lemma {:induction false} LowLeast<T>(cmp: (T, T) -> int, x: T, s: seq<T>, n: int)
    requires 0 <= n <= |s| && forall i :: 0 <= i < n ==> cmp(s[i], x) <= 0
    ensures |Low(cmp, x, s)| >= n
  {
    if n > 0 {
      LowLeast(cmp, x, s[1..], n - 1);
    }
  }

  lemma {:induction false} LowMost<T>(cmp: (T, T) -> int, x: T, s: seq<T>, n: int)
    requires 0 <= n <= |s| && forall i :: n <= i < |s| ==> cmp(s[i], x) > 0
    ensures |Low(cmp, x, s)| <= n
  {
    if s != [] {
      LowMost(cmp, x, s[1..], if n > 0 then n - 1 else 0);
    }
  }

  lemma {:induction false} LowConcat<T>(cmp: (T, T) -> int, x: T, s: seq<T>, t: seq<T>)
    ensures |Low(cmp, x, s + t)| == |Low(cmp, x, s)| + |Low(cmp, x, t)|
  {
    if s == [] {
      assert s + t == t;
    } else {
      assert (s + t)[0] == s[0] && (s + t)[1..] == s[1..] + t;
      LowConcat(cmp, x, s[1..], t);
    }
  }

  /** r and s agree elem by elem, up to cmp. */
  ghost predicate LexEq<T>(cmp: (T, T) -> int, s: seq<T>, t: seq<T>) {
    |s| == |t| && forall i :: 0 <= i < |s| ==> cmp(s[i], t[i]) == 0
  }

  lemma {:induction false} LowLexEq<T(!new)>(cmp: (T, T) -> int, x: T, s: seq<T>, t: seq<T>)
    requires IsOrder(cmp) && LexEq(cmp, s, t)
    ensures |Low(cmp, x, s)| == |Low(cmp, x, t)|
  {
    if s != [] {
      assert cmp(s[0], x) <= 0 <==> cmp(t[0], x) <= 0 by {
        assert cmp(s[0], t[0]) == 0;
      }
      assert LexEq(cmp, s[1..], t[1..]);
      LowLexEq(cmp, x, s[1..], t[1..]);
    }
  }

  lemma {:induction false} LowWithin<T(!new)>(cmp: (T, T) -> int, x: T, y: T, s: seq<T>)
    requires forall i :: 0 <= i < |s| && cmp(s[i], x) <= 0 ==> cmp(s[i], y) <= 0
    ensures |Low(cmp, x, s)| <= |Low(cmp, y, s)|
  {
    if s != [] {
      LowWithin(cmp, x, y, s[1..]);
      assert cmp(s[0], x) <= 0 ==> cmp(s[0], y) <= 0;
    }
  }

  /** Counting up to y finds more than counting up to x when y itself is there and x is less. */
  lemma {:induction false} LowGrows<T(!new)>(cmp: (T, T) -> int, x: T, y: T, s: seq<T>, k: int)
    requires forall i :: 0 <= i < |s| && cmp(s[i], x) <= 0 ==> cmp(s[i], y) <= 0
    requires 0 <= k < |s| && cmp(s[k], y) <= 0 && cmp(s[k], x) > 0
    ensures |Low(cmp, x, s)| < |Low(cmp, y, s)|
    decreases k
  {
    if k == 0 {
      LowWithin(cmp, x, y, s[1..]);
    } else {
      LowGrows(cmp, x, y, s[1..], k - 1);
      assert cmp(s[0], x) <= 0 ==> cmp(s[0], y) <= 0;
    }
  }
}
