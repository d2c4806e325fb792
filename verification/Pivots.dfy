/** How good the pivot of quicksort is at its worst (ninther in src/algo/sort.c): at least four of the elems it was
    sampled from are not greater than it, and at least four are not less, so no split leaves fewer than three elems of
    the range on either side of the pivot, the pivot's equals counted in. */
module Pivots {
  import opened Ordering
  import opened Ranks
  import opened Spans
  import opened Sorting

  /** Positions in ascending order, all with elems not greater than x. */
  ghost predicate LowAt<T>(cmp: (T, T) -> int, x: T, s: seq<T>, ps: seq<int>) {
    && (forall i :: 0 <= i < |ps| ==> 0 <= ps[i] < |s| && cmp(s[ps[i]], x) <= 0)
    && (forall i, j :: 0 <= i < j < |ps| ==> ps[i] < ps[j])
  }

  lemma {:induction false} LowPositions<T>(cmp: (T, T) -> int, x: T, s: seq<T>, ps: seq<int>)
    requires LowAt(cmp, x, s, ps)
    ensures |Low(cmp, x, s)| >= |ps|
    decreases |ps|
  {
    if ps != [] {
      var front, p := ps[..|ps| - 1], ps[|ps| - 1];
      assert s == s[..p] + s[p..];
      LowConcat(cmp, x, s[..p], s[p..]);
      LowPositions(cmp, x, s[..p], front);
      LowLeast(cmp, x, s[p..], 1);
    }
  }

  /** Two of three positions, the lower one first, whose elems are not greater than x. */
  lemma TwoOf<T(!new)>(cmp: (T, T) -> int, x: T, h: seq<T>, m: int, i: int, j: int, k: int) returns (p: int, q: int)
    requires IsOrder(cmp) && IsMedian(cmp, h, m, i, j, k) && cmp(h[m], x) <= 0 && i < j < k
    ensures (p == i || p == j) && (q == j || q == k) && p < q && cmp(h[p], x) <= 0 && cmp(h[q], x) <= 0
  {
    p := if cmp(h[i], h[m]) <= 0 then i else j;
    q := if cmp(h[k], h[m]) <= 0 then k else j;
  }

  lemma FlipMedian<T(!new)>(cmp: (T, T) -> int, h: seq<T>, m: int, i: int, j: int, k: int)
    requires IsMedian(cmp, h, m, i, j, k)
    ensures IsMedian(Flip(cmp), h, m, i, j, k)
  {
  }

  lemma FlipNinther<T(!new)>(cmp: (T, T) -> int, h: seq<T>, m: int, left: int, right: int)
    requires IsNinther(cmp, h, m, left, right)
    ensures IsNinther(Flip(cmp), h, m, left, right)
  {
    hide IsMedian;
    var len := right - left + 1;
    var mid, step := left + len / 2, len / 8;
    var l, c, r :|
      && IsMedian(cmp, h, l, left, left + step, left + 2 * step)
      && IsMedian(cmp, h, c, mid - step, mid, mid + step)
      && IsMedian(cmp, h, r, right - 2 * step, right - step, right)
      && IsMedian(cmp, h, m, l, c, r);
    FlipMedian(cmp, h, l, left, left + step, left + 2 * step);
    FlipMedian(cmp, h, c, mid - step, mid, mid + step);
    FlipMedian(cmp, h, r, right - 2 * step, right - step, right);
    FlipMedian(cmp, h, m, l, c, r);
    NintherIs(Flip(cmp), h, m, left, right, l, c, r);
  }

  /** The three medians the pivot is the median of. */
  lemma Parts<T>(cmp: (T, T) -> int, h: seq<T>, m: int, left: int, right: int, mid: int, step: int)
    returns (l: int, c: int, r: int)
    requires IsNinther(cmp, h, m, left, right)
    requires mid == left + (right - left + 1) / 2 && step == (right - left + 1) / 8
    ensures IsMedian(cmp, h, l, left, left + step, left + 2 * step) && IsMedian(cmp, h, c, mid - step, mid, mid + step)
    ensures IsMedian(cmp, h, r, right - 2 * step, right - step, right) && IsMedian(cmp, h, m, l, c, r)
  {
    hide IsMedian;
    l, c, r :|
      && IsMedian(cmp, h, l, left, left + step, left + 2 * step)
      && IsMedian(cmp, h, c, mid - step, mid, mid + step)
      && IsMedian(cmp, h, r, right - 2 * step, right - step, right)
      && IsMedian(cmp, h, m, l, c, r);
  }

  /** Four of the sampled positions hold elems not greater than the pivot. */
  lemma FourLow<T(!new)>(cmp: (T, T) -> int, h: seq<T>, m: int, left: int, right: int) returns (ps: seq<int>)
    requires IsOrder(cmp) && IsNinther(cmp, h, m, left, right) && 17 <= right - left + 1 && 0 <= left && right < |h|
    requires 0 <= m < |h|
    ensures LowAt(cmp, h[m], h, ps) && |ps| == 4 && forall i :: 0 <= i < 4 ==> left <= ps[i] <= right
  {
    var len := right - left + 1;
    var mid, step := left + len / 2, len / 8;
    assert left + step < left + 2 * step < mid - step < mid < mid + step < right - 2 * step < right - step < right;
    hide *;
    var l, c, r := Parts(cmp, h, m, left, right, mid, step);
    ps := FourOf(cmp, h, m, l, c, r, left, right, mid, step);
  }

  lemma FourOf<T(!new)>(cmp: (T, T) -> int, h: seq<T>, m: int, l: int, c: int, r: int, left: int, right: int, mid: int,
                        step: int)
    returns (ps: seq<int>)
    requires IsOrder(cmp) && IsMedian(cmp, h, m, l, c, r)
    requires IsMedian(cmp, h, l, left, left + step, left + 2 * step) && IsMedian(cmp, h, c, mid - step, mid, mid + step)
    requires IsMedian(cmp, h, r, right - 2 * step, right - step, right)
    requires 0 <= left && right < |h| && 0 <= m < |h|
    requires left + step < left + 2 * step < mid - step < mid < mid + step < right - 2 * step < right - step < right
    ensures LowAt(cmp, h[m], h, ps) && |ps| == 4 && forall i :: 0 <= i < 4 ==> left <= ps[i] <= right
  {
    hide *;
    var x := h[m];
    MedianOf(cmp, h, l, left, left + step, left + 2 * step);
    MedianOf(cmp, h, c, mid - step, mid, mid + step);
    MedianOf(cmp, h, r, right - 2 * step, right - step, right);
    Reflexive(cmp, x);
    var a, b := TwoOf(cmp, x, h, m, l, c, r);
    if a == l && b == c {
      ps := FromTwo(cmp, x, h, l, left, left + step, left + 2 * step, c, mid - step, mid, mid + step);
    } else if a == l {
      ps := FromTwo(cmp, x, h, l, left, left + step, left + 2 * step, r, right - 2 * step, right - step, right);
    } else {
      ps := FromTwo(cmp, x, h, c, mid - step, mid, mid + step, r, right - 2 * step, right - step, right);
    }
  }

  /** Two positions of each of two triples, one behind the other, whose medians are not greater than x. */
  lemma FromTwo<T(!new)>(cmp: (T, T) -> int, x: T, h: seq<T>, m: int, i: int, j: int, k: int, m': int, i': int, j': int,
                         k': int)
    returns (ps: seq<int>)
    requires IsOrder(cmp) && IsMedian(cmp, h, m, i, j, k) && IsMedian(cmp, h, m', i', j', k')
    requires 0 <= m < |h| && 0 <= m' < |h| && cmp(h[m], x) <= 0 && cmp(h[m'], x) <= 0
    requires 0 <= i < j < k < i' < j' < k' < |h|
    ensures LowAt(cmp, x, h, ps) && |ps| == 4 && forall n :: 0 <= n < 4 ==> i <= ps[n] <= k'
  {
    hide *;
    var p, q := TwoOf(cmp, x, h, m, i, j, k);
    var p', q' := TwoOf(cmp, x, h, m', i', j', k');
    ps := [p, q, p', q'];
    FourAre(cmp, x, h, p, q, p', q');
  }

  lemma MedianOf<T>(cmp: (T, T) -> int, h: seq<T>, m: int, i: int, j: int, k: int)
    requires IsMedian(cmp, h, m, i, j, k)
    ensures 0 <= m < |h| && (m == i || m == j || m == k)
  {
  }

  lemma Reflexive<T(!new)>(cmp: (T, T) -> int, x: T)
    requires IsOrder(cmp)
    ensures cmp(x, x) <= 0
  {
  }

  lemma FourAre<T>(cmp: (T, T) -> int, x: T, h: seq<T>, p: int, q: int, p': int, q': int)
    requires 0 <= p < q < p' < q' < |h|
    requires cmp(h[p], x) <= 0 && cmp(h[q], x) <= 0 && cmp(h[p'], x) <= 0 && cmp(h[q'], x) <= 0
    ensures LowAt(cmp, x, h, [p, q, p', q'])
  {
  }

  /** The same in the slice that holds the range alone. */
  lemma FourInSlice<T(!new)>(cmp: (T, T) -> int, h0: seq<T>, m: int, left: int, right: int)
    requires IsOrder(cmp) && IsNinther(cmp, h0, m, left, right) && 17 <= right - left + 1 && 0 <= left
    requires right < |h0| && 0 <= m < |h0|
    ensures |Low(cmp, h0[m], h0[left..right + 1])| >= 4
  {
    hide IsNinther, IsOrder, Low;
    var ps := FourLow(cmp, h0, m, left, right);
    var w := h0[left..right + 1];
    var qs := [ps[0] - left, ps[1] - left, ps[2] - left, ps[3] - left];
    assert ps == [ps[0], ps[1], ps[2], ps[3]];
    LowPositions(cmp, h0[m], w, qs);
  }

  /** However the data lie, a split of at least 17 elems puts at least four of them up to gt, and four from lt on. */
  lemma PivotIsInside<T(!new)>(cmp: (T, T) -> int, h: seq<T>, h0: seq<T>, left: int, right: int, m: int, lt: int,
                               gt: int)
    requires IsOrder(cmp) && 17 <= right - left + 1 && 0 <= m < |h0| && IsNinther(cmp, h0, m, left, right)
    requires Within(h, h0, left, right) && Split3(cmp, h, left, lt, gt, right) && cmp(h[lt], h0[m]) == 0
    requires 0 <= left && right < |h| == |h0|
    ensures 4 <= gt - left + 1 && 4 <= right - lt + 1
  {
    hide *;
    var x, w, w0 := h0[m], h[left..right + 1], h0[left..right + 1];
    WithinRange(h, h0, left, right);
    SplitSides(cmp, h, left, right, x, lt, gt);
    FourInSlice(cmp, h0, m, left, right);
    FourBefore(cmp, x, w, w0, gt - left + 1);
    FlipNinther(cmp, h0, m, left, right);
    FlipIsOrder(cmp);
    FourInSlice(Flip(cmp), h0, m, left, right);
    FourAfter(Flip(cmp), x, w, w0, lt - left);
  }

  lemma FourBefore<T(!new)>(cmp: (T, T) -> int, x: T, w: seq<T>, w0: seq<T>, n: int)
    requires multiset(w) == multiset(w0) && |Low(cmp, x, w0)| >= 4
    requires 0 <= n <= |w| && forall i :: n <= i < |w| ==> cmp(w[i], x) > 0
    ensures 4 <= n
  {
    LowPerm(cmp, x, w, w0);
    LowMost(cmp, x, w, n);
  }

  lemma FourAfter<T(!new)>(cmp: (T, T) -> int, x: T, w: seq<T>, w0: seq<T>, n: int)
    requires multiset(w) == multiset(w0) && |Low(cmp, x, w0)| >= 4
    requires 0 <= n <= |w| && forall i :: 0 <= i < n ==> cmp(w[i], x) > 0
    ensures 4 <= |w| - n
  {
    var w1, w2 := w[..n], w[n..];
    LowPerm(cmp, x, w, w0);
    assert w == w1 + w2;
    LowConcat(cmp, x, w1, w2);
    LowMost(cmp, x, w1, 0);
    LowMost(cmp, x, w2, |w2|);
  }

  lemma SplitSides<T(!new)>(cmp: (T, T) -> int, h: seq<T>, left: int, right: int, x: T, lt: int, gt: int)
    requires IsOrder(cmp) && Split3(cmp, h, left, lt, gt, right) && cmp(h[lt], x) == 0
    ensures var w := h[left..right + 1];
            && 0 <= left <= lt <= gt <= right < |h|
            && (forall i :: gt - left + 1 <= i < |w| ==> cmp(w[i], x) > 0)
            && (forall i :: 0 <= i < lt - left ==> Flip(cmp)(w[i], x) > 0)
  {
    var w := h[left..right + 1];
    forall i | gt - left + 1 <= i < |w| ensures cmp(w[i], x) > 0 {
      EqualRight(cmp, h[left + i], h[lt], x);
    }
    forall i | 0 <= i < lt - left ensures Flip(cmp)(w[i], x) > 0 {
      EqualRight(cmp, h[left + i], h[lt], x);
    }
  }
}
