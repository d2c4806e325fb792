/** Binary searches over a sorted read-only span (src/algo/search.c). A read-only span is a sequence. */
module Search {
  import opened Ordering
  import opened Counting

  /** Everything before lo is less than key, and nothing from hi on is. */
  ghost predicate Narrowed<T>(cmp: (T, T) -> int, s: seq<T>, key: T, lo: int, hi: int) {
    && 0 <= lo <= hi <= |s|
    && (forall i :: 0 <= i < lo ==> cmp(s[i], key) < 0)
    && (forall i :: hi <= i < |s| ==> cmp(s[i], key) >= 0)
  }

  lemma Narrow<T(!new)>(cmp: (T, T) -> int, s: seq<T>, key: T, lo: int, mid: int, hi: int)
    requires IsOrder(cmp) && Sorted(cmp, s) && Narrowed(cmp, s, key, lo, hi) && lo <= mid < hi
    ensures 0 <= mid < |s|
    ensures if cmp(s[mid], key) < 0 then Narrowed(cmp, s, key, mid + 1, hi) else Narrowed(cmp, s, key, lo, mid)
  {
    if cmp(s[mid], key) < 0 {
      forall i | 0 <= i < mid ensures cmp(s[i], key) < 0 {
        LessThrough(cmp, s[i], s[mid], key);
      }
    } else {
      forall i | mid < i < |s| ensures cmp(s[i], key) >= 0 {
        LessThrough(cmp, s[mid], s[i], key);
      }
    }
  }

  lemma NarrowedEnds<T>(cmp: (T, T) -> int, s: seq<T>, key: T, lo: int)
    ensures Narrowed(cmp, s, key, 0, |s|)
    ensures Narrowed(cmp, s, key, lo, lo) ==>
      && (forall i :: 0 <= i < lo ==> cmp(s[i], key) < 0)
      && (forall i :: lo <= i < |s| ==> cmp(s[i], key) >= 0)
  {
  }

  /** The first position whose elem is not less than key. */
  method LowerBound<T(!new)>(s: seq<T>, key: T, cmp: (T, T) -> int) returns (pos: nat, ghost cost: int)
    requires IsOrder(cmp) && Sorted(cmp, s)
    ensures pos <= |s| && 0 <= cost <= Halvings(|s|) && (s != [] ==> 1 <= cost)
    ensures forall i :: 0 <= i < pos ==> cmp(s[i], key) < 0
    ensures forall i :: pos <= i < |s| ==> cmp(s[i], key) >= 0
  {
    hide *;
    var lo, hi := 0, |s|;
    cost := 0;
    NarrowedEnds(cmp, s, key, lo);
    while lo < hi
      invariant 0 <= lo <= hi <= |s| && Narrowed(cmp, s, key, lo, hi)
      invariant 0 <= cost && cost + Halvings(hi - lo) <= Halvings(|s|) && (hi - lo < |s| ==> 1 <= cost)
    {
      var mid := lo + (hi - lo) / 2;
      Narrow(cmp, s, key, lo, mid, hi);
      cost := cost + 1;
      HalvingsStep(hi - (mid + 1), hi - lo);
      HalvingsStep(mid - lo, hi - lo);
      if cmp(s[mid], key) < 0 {
        lo := mid + 1;
      } else {
        hi := mid;
      }
    }
    NarrowedEnds(cmp, s, key, lo);
    return lo, cost;
  }

  /** Nothing before lo is greater than key, and everything from hi on is. */
  ghost predicate NarrowedUp<T>(cmp: (T, T) -> int, s: seq<T>, key: T, lo: int, hi: int) {
    && 0 <= lo <= hi <= |s|
    && (forall i :: 0 <= i < lo ==> cmp(s[i], key) <= 0)
    && (forall i :: hi <= i < |s| ==> cmp(s[i], key) > 0)
  }

  lemma NarrowUp<T(!new)>(cmp: (T, T) -> int, s: seq<T>, key: T, lo: int, mid: int, hi: int)
    requires IsOrder(cmp) && Sorted(cmp, s) && NarrowedUp(cmp, s, key, lo, hi) && lo <= mid < hi
    ensures 0 <= mid < |s|
    ensures if cmp(s[mid], key) <= 0 then NarrowedUp(cmp, s, key, mid + 1, hi) else NarrowedUp(cmp, s, key, lo, mid)
  {
    if cmp(s[mid], key) > 0 {
      forall i | mid < i < |s| ensures cmp(s[i], key) > 0 {
        NotGreaterThrough(cmp, s[mid], s[i], key);
      }
    }
  }

  lemma NotGreaterThrough<T(!new)>(cmp: (T, T) -> int, x: T, y: T, z: T)
    requires IsOrder(cmp) && cmp(x, y) <= 0
    ensures cmp(y, z) <= 0 ==> cmp(x, z) <= 0
  {
  }

  lemma NarrowedUpEnds<T>(cmp: (T, T) -> int, s: seq<T>, key: T, lo: int)
    ensures NarrowedUp(cmp, s, key, 0, |s|)
    ensures NarrowedUp(cmp, s, key, lo, lo) ==>
      && (forall i :: 0 <= i < lo ==> cmp(s[i], key) <= 0)
      && (forall i :: lo <= i < |s| ==> cmp(s[i], key) > 0)
  {
  }

  /** The first position whose elem is greater than key. */
  method UpperBound<T(!new)>(s: seq<T>, key: T, cmp: (T, T) -> int) returns (pos: nat, ghost cost: int)
    requires IsOrder(cmp) && Sorted(cmp, s)
    ensures pos <= |s| && 0 <= cost <= Halvings(|s|) && (s != [] ==> 1 <= cost)
    ensures forall i :: 0 <= i < pos ==> cmp(s[i], key) <= 0
    ensures forall i :: pos <= i < |s| ==> cmp(s[i], key) > 0
  {
    hide *;
    var lo, hi := 0, |s|;
    cost := 0;
    NarrowedUpEnds(cmp, s, key, lo);
    while lo < hi
      invariant 0 <= lo <= hi <= |s| && NarrowedUp(cmp, s, key, lo, hi)
      invariant 0 <= cost && cost + Halvings(hi - lo) <= Halvings(|s|) && (hi - lo < |s| ==> 1 <= cost)
    {
      var mid := lo + (hi - lo) / 2;
      NarrowUp(cmp, s, key, lo, mid, hi);
      cost := cost + 1;
      HalvingsStep(hi - (mid + 1), hi - lo);
      HalvingsStep(mid - lo, hi - lo);
      if cmp(s[mid], key) <= 0 {
        lo := mid + 1;
      } else {
        hi := mid;
      }
    }
    NarrowedUpEnds(cmp, s, key, lo);
    return lo, cost;
  }

  lemma LessThrough<T(!new)>(cmp: (T, T) -> int, x: T, y: T, z: T)
    requires IsOrder(cmp) && cmp(x, y) <= 0
    ensures cmp(y, z) < 0 ==> cmp(x, z) < 0
    ensures cmp(x, z) >= 0 ==> cmp(y, z) >= 0
  {
    if cmp(z, x) <= 0 {
      assert cmp(z, y) <= 0;
    }
  }

  /** Whether some elem equals key, and the least position of such an elem. */
  method BinarySearch<T(!new)>(s: seq<T>, key: T, cmp: (T, T) -> int)
    returns (found: bool, idx: nat, ghost cost: int)
    requires IsOrder(cmp) && Sorted(cmp, s)
    ensures 0 <= cost <= Halvings(|s|) + 1 && (found ==> 2 <= cost)
    ensures found <==> exists i :: 0 <= i < |s| && cmp(s[i], key) == 0
    ensures found ==> idx < |s| && cmp(s[idx], key) == 0 && forall i :: 0 <= i < idx ==> cmp(s[i], key) != 0
  {
    idx, cost := LowerBound(s, key, cmp);
    if idx >= |s| {
      return false, idx, cost;
    }
    cost := cost + 1;
    if cmp(s[idx], key) == 0 {
      return true, idx, cost;
    }
    forall i | idx <= i < |s| ensures cmp(s[i], key) != 0 {
      LessThrough(cmp, key, s[idx], s[i]);
      assert cmp(s[idx], s[i]) <= 0 || i == idx;
    }
    return false, idx, cost;
  }

  /** The elems equal to key stand together, and [lo, hi) is exactly where. */
  method EqualRange<T(!new)>(s: seq<T>, key: T, cmp: (T, T) -> int)
    returns (lo: nat, hi: nat, ghost cost: int)
    requires IsOrder(cmp) && Sorted(cmp, s)
    ensures lo <= hi <= |s| && 0 <= cost <= Halvings(|s|) + Halvings(|s| - lo) <= 2 * Halvings(|s|)
    ensures lo < |s| ==> 2 <= cost
    ensures forall i :: 0 <= i < |s| ==> (cmp(s[i], key) == 0 <==> lo <= i < hi)
  {
    lo, cost := LowerBound(s, key, cmp);
    assert Sorted(cmp, s[lo..]) by {
      SortedSlice(cmp, s, lo, |s|);
    }
    var past;
    ghost var more;
    past, more := UpperBound(s[lo..], key, cmp);
    hi := lo + past;
    HalvingsMonotone(|s| - lo, |s|);
    cost := cost + more;
    forall i | lo <= i < |s| ensures cmp(s[i], key) == 0 <==> i < hi {
      assert s[i] == s[lo..][i - lo];
    }
  }

  lemma SameOfThree<T>(cmp: (T, T) -> int, x: T, l: seq<T>, m: seq<T>, r: seq<T>)
    requires forall i :: 0 <= i < |l| ==> cmp(l[i], x) != 0
    requires forall i :: 0 <= i < |m| ==> cmp(m[i], x) == 0
    requires forall i :: 0 <= i < |r| ==> cmp(r[i], x) != 0
    ensures Same(cmp, x, l + m + r) == m
  {
    SameConcat(cmp, x, l + m, r);
    SameConcat(cmp, x, l, m);
    SameNone(cmp, x, l);
    SameNone(cmp, x, r);
    SameAll(cmp, x, m);
  }

  /** What stands in that range is the class of x, in order. */
  lemma SameIsSlice<T>(cmp: (T, T) -> int, x: T, s: seq<T>, lo: nat, hi: nat)
    requires lo <= hi <= |s|
    requires forall i :: 0 <= i < |s| ==> (cmp(s[i], x) == 0 <==> lo <= i < hi)
    ensures Same(cmp, x, s) == s[lo..hi]
  {
    hide Same;
    var l, m, r := s[..lo], s[lo..hi], s[hi..];
    forall i | 0 <= i < |l| ensures cmp(l[i], x) != 0 {
      assert l[i] == s[i];
    }
    forall i | 0 <= i < |m| ensures cmp(m[i], x) == 0 {
      assert m[i] == s[lo + i];
    }
    forall i | 0 <= i < |r| ensures cmp(r[i], x) != 0 {
      assert r[i] == s[hi + i];
    }
    SameOfThree(cmp, x, l, m, r);
    assert s == l + m + r;
  }
}
