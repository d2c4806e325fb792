/** The unstable sort and the selections built on the same split (src/algo/sort.c): quicksort with a depth budget,
    an insertion-sort leaf and a heapsort fallback; nth_elem; partial_sort. */
module Introsort {
  import opened Ordering
  import opened Counting
  import opened Ranks
  import opened Spans
  import opened Sorting
  import opened Pivots
  import Heaps

  ghost predicate SortedRange<T>(cmp: (T, T) -> int, h: seq<T>, left: int, right: int) {
    0 <= left && right < |h| && forall i, j :: left <= i < j <= right ==> cmp(h[i], h[j]) <= 0
  }

  /** Within [first, last] every pair of elems is in order, but for pairs inside the window [left, right]. */
  ghost predicate SortedBut<T>(cmp: (T, T) -> int, h: seq<T>, first: int, left: int, right: int, last: int) {
    && 0 <= first <= left && right <= last < |h|
    && forall i, j :: first <= i < j <= last && !(left <= i && j <= right) ==> cmp(h[i], h[j]) <= 0
  }

  // ---------- what a rearrangement of the window keeps ----------

  lemma WithinElem<T>(h: seq<T>, h0: seq<T>, left: int, right: int, k: int) returns (m: int)
    requires Within(h, h0, left, right) && 0 <= left <= k <= right < |h|
    ensures left <= m <= right && h0[m] == h[k]
  {
    WithinRange(h, h0, left, right);
    var w, w0 := h[left..right + 1], h0[left..right + 1];
    assert w[k - left] in multiset(w0);
    var n :| 0 <= n < |w0| && w0[n] == w[k - left];
    m := left + n;
  }

  lemma WithinTrans<T>(h: seq<T>, h1: seq<T>, h0: seq<T>, left: int, right: int, first: int, last: int)
    requires Within(h, h1, left, right) && Within(h1, h0, first, last) && first <= left && right <= last
    ensures Within(h, h0, first, last)
  {
  }

  lemma SortedButKept<T>(cmp: (T, T) -> int, h: seq<T>, h0: seq<T>, first: int, left: int, right: int, last: int)
    requires SortedBut(cmp, h0, first, left, right, last) && Within(h, h0, left, right)
    ensures SortedBut(cmp, h, first, left, right, last)
  {
    forall i, j | first <= i < j <= last && !(left <= i && j <= right) ensures cmp(h[i], h[j]) <= 0 {
      var i0, j0 := i, j;
      if left <= i <= right {
        i0 := WithinElem(h, h0, left, right, i);
      }
      if left <= j <= right {
        j0 := WithinElem(h, h0, left, right, j);
      }
      assert cmp(h0[i0], h0[j0]) <= 0;
    }
  }

  lemma Split3KeptLeft<T>(cmp: (T, T) -> int, h: seq<T>, h0: seq<T>, left: int, lt: int, gt: int, right: int)
    requires Split3(cmp, h0, left, lt, gt, right) && Within(h, h0, left, lt - 1)
    ensures Split3(cmp, h, left, lt, gt, right)
  {
    forall k | left <= k < lt ensures cmp(h[k], h[lt]) < 0 {
      var m := WithinElem(h, h0, left, lt - 1, k);
      assert cmp(h0[m], h0[lt]) < 0;
    }
  }

  lemma Split3KeptRight<T>(cmp: (T, T) -> int, h: seq<T>, h0: seq<T>, left: int, lt: int, gt: int, right: int)
    requires Split3(cmp, h0, left, lt, gt, right) && Within(h, h0, gt + 1, right)
    ensures Split3(cmp, h, left, lt, gt, right)
  {
    forall k | gt < k <= right ensures cmp(h[k], h[lt]) > 0 {
      var m := WithinElem(h, h0, gt + 1, right, k);
      assert cmp(h0[m], h0[lt]) > 0;
    }
  }

  /** All elems of the range compare equal. */
  ghost predicate AllSame<T>(cmp: (T, T) -> int, h: seq<T>, left: int, right: int) {
    && 0 <= left && right < |h|
    && forall i, j :: left <= i <= right && left <= j <= right ==> cmp(h[i], h[j]) == 0
  }

  /** A split leaves nothing of them on either side. */
  lemma SameSplit<T>(cmp: (T, T) -> int, h: seq<T>, h0: seq<T>, left: int, lt: int, gt: int, right: int)
    requires AllSame(cmp, h0, left, right) && Within(h, h0, left, right) && Split3(cmp, h, left, lt, gt, right)
    ensures lt == left && gt == right
  {
    var n := WithinElem(h, h0, left, right, lt);
    var m := WithinElem(h, h0, left, right, left);
    var k := WithinElem(h, h0, left, right, right);
    assert cmp(h0[m], h0[n]) == 0 && cmp(h0[k], h0[n]) == 0;
  }

  /** They are the same wherever they went, and in any part of the range. */
  lemma SameKept<T>(cmp: (T, T) -> int, h: seq<T>, h0: seq<T>, left: int, right: int, first: int, last: int)
    requires AllSame(cmp, h0, left, right) && Within(h, h0, left, right) && left <= first && last <= right
    ensures AllSame(cmp, h, first, last)
  {
    forall i, j | first <= i <= last && first <= j <= last ensures cmp(h[i], h[j]) == 0 {
      var m := WithinElem(h, h0, left, right, i);
      var n := WithinElem(h, h0, left, right, j);
    }
  }

  lemma SameSlice<T>(cmp: (T, T) -> int, h: seq<T>, left: int, right: int)
    requires AllSame(cmp, h, left, right) && left <= right
    ensures AllSame(cmp, h[left..right + 1], 0, right - left)
  {
  }

  lemma SameIsSorted<T>(cmp: (T, T) -> int, h: seq<T>, left: int, right: int)
    requires AllSame(cmp, h, left, right) && left <= right
    ensures Sorted(cmp, h[left..right + 1])
  {
  }

  // ---------- how the window shrinks ----------

  lemma LeftDone<T(!new)>(cmp: (T, T) -> int, h: seq<T>, first: int, left: int, lt: int, gt: int, right: int, last: int)
    requires IsOrder(cmp) && SortedBut(cmp, h, first, left, right, last) && Split3(cmp, h, left, lt, gt, right)
    requires SortedRange(cmp, h, left, lt - 1)
    ensures SortedBut(cmp, h, first, gt + 1, right, last)
  {
    forall i, j | first <= i < j <= last && !(gt + 1 <= i && j <= right) ensures cmp(h[i], h[j]) <= 0 {
      if left <= i && j <= right && lt <= j {
        AcrossSplit(cmp, h, left, lt, gt, right, i, j);
      }
    }
  }

  lemma RightDone<T(!new)>(cmp: (T, T) -> int, h: seq<T>, first: int, left: int, lt: int, gt: int, right: int,
                           last: int)
    requires IsOrder(cmp) && SortedBut(cmp, h, first, left, right, last) && Split3(cmp, h, left, lt, gt, right)
    requires SortedRange(cmp, h, gt + 1, right)
    ensures SortedBut(cmp, h, first, left, lt - 1, last)
  {
    forall i, j | first <= i < j <= last && !(left <= i && j <= lt - 1) ensures cmp(h[i], h[j]) <= 0 {
      if left <= i <= gt && j <= right {
        AcrossSplit(cmp, h, left, lt, gt, right, i, j);
      }
    }
  }

  lemma AcrossSplit<T(!new)>(cmp: (T, T) -> int, h: seq<T>, left: int, lt: int, gt: int, right: int, i: int, j: int)
    requires IsOrder(cmp) && Split3(cmp, h, left, lt, gt, right)
    requires left <= i <= gt && i < j && lt <= j <= right
    ensures cmp(h[i], h[j]) <= 0
  {
    assert cmp(h[i], h[lt]) <= 0;
    assert cmp(h[j], h[lt]) >= 0;
  }

  lemma AllDone<T>(cmp: (T, T) -> int, h: seq<T>, first: int, left: int, right: int, last: int)
    requires SortedBut(cmp, h, first, left, right, last) && (left >= right || SortedRange(cmp, h, left, right))
    ensures SortedRange(cmp, h, first, last)
  {
  }

  // ---------- what it costs ----------

  /** A bound on the comparisons spent on m elems with d partition levels left, each log at most l. */
  ghost function CostBound(m: int, d: int, l: int): int {
    m * (2 * d + 8 + 2 * l)
  }

  lemma CostPositive(m: int, d: int, l: int)
    requires 0 <= m && 0 <= d && 0 <= l
    ensures 0 <= CostBound(m, d, l)
    ensures 8 * m <= CostBound(m, d, l)
    ensures 2 * m + 2 * (m * l) <= CostBound(m, d, l)
  {
    assert m * (2 * d + 8 + 2 * l) == m * (2 * d) + 8 * m + 2 * (m * l);
    assert 0 <= m * (2 * d) && 0 <= m * l;
  }

  lemma CostSplit(m: int, p: int, q: int, d: int, l: int)
    requires 17 <= m && 0 <= p && 0 <= q && p + q <= m - 1 && 1 <= d && 0 <= l
    ensures 12 + (m - 1) + CostBound(p, d - 1, l) + CostBound(q, d - 1, l) <= CostBound(m, d, l)
  {
    var k := 2 * (d - 1) + 8 + 2 * l;
    assert p * k + q * k == (p + q) * k;
    assert (p + q) * k <= m * k;
    assert m * (k + 2) == m * k + 2 * m;
  }

  // ---------- the leaf and the fallback ----------

  /** h with the elems from left on replaced by sub. */
  ghost function Splice<T>(h: seq<T>, left: int, sub: seq<T>): (r: seq<T>)
    requires 0 <= left && left + |sub| <= |h|
    ensures |r| == |h|
    ensures forall k :: 0 <= k < |h| ==> r[k] == if left <= k < left + |sub| then sub[k - left] else h[k]
  {
    h[..left] + sub + h[left + |sub|..]
  }

  lemma SpliceSorted<T>(cmp: (T, T) -> int, h: seq<T>, left: int, right: int, sub: seq<T>)
    requires 0 <= left <= right < |h| && |sub| == right - left + 1
    requires multiset(sub) == multiset(h[left..right + 1]) && Sorted(cmp, sub)
    ensures Within(Splice(h, left, sub), h, left, right) && SortedRange(cmp, Splice(h, left, sub), left, right)
  {
    var l, w, r := h[..left], h[left..right + 1], h[right + 1..];
    assert h == l + w + r;
    assert Splice(h, left, sub) == l + sub + r;
    SamePerm(l, w, sub, r);
  }

  lemma SamePerm<T>(l: seq<T>, w: seq<T>, w0: seq<T>, r: seq<T>)
    requires multiset(w) == multiset(w0)
    ensures multiset(l + w + r) == multiset(l + w0 + r)
  {
    assert multiset(l + w + r) == multiset(l) + multiset(w) + multiset(r);
    assert multiset(l + w0 + r) == multiset(l) + multiset(w0) + multiset(r);
  }

  /** h with [left, right] stably sorted. */
  ghost function Leaf<T(!new)>(cmp: (T, T) -> int, h: seq<T>, left: int, right: int): (r: seq<T>)
    requires 0 <= left <= right < |h|
  {
    Splice(h, left, StableSorted(cmp, h[left..right + 1]))
  }

  lemma LeafIs<T(!new)>(cmp: (T, T) -> int, h: seq<T>, left: int, right: int, t: seq<T>)
    requires 0 <= left <= right < |h| && t == StableSorted(cmp, h[left..right + 1])
    ensures |t| == right - left + 1 && Leaf(cmp, h, left, right) == Splice(h, left, t)
  {
  }

  lemma WholeLeaf<T(!new)>(cmp: (T, T) -> int, h: seq<T>)
    ensures h != [] ==> Leaf(cmp, h, 0, |h| - 1) == StableSorted(cmp, h)
    ensures |h| < 2 ==> StableSorted(cmp, h) == h
  {
    assert h[0..|h|] == h;
    hide StableSorted;
    if h != [] {
      assert Splice(h, 0, StableSorted(cmp, h)) == StableSorted(cmp, h);
    }
    if |h| < 2 {
      SortedOne(cmp, h);
    }
  }

  /** Sorts [left, right] by insertion. */
  method SortLeaf<T(!new)>(a: array<T>, base: int, left: int, right: int, cmp: (T, T) -> int, elemSize: nat,
                           ghost h0: seq<T>)
    returns (ghost h: seq<T>, ghost cost: int)
    requires IsOrder(cmp)
    requires 0 <= base && base + |h0| <= a.Length && 0 <= left <= right < |h0|
    requires forall k :: 0 <= k < |h0| ==> a[base + k] == h0[k]
    modifies a
    ensures |h| == |h0| && Within(h, h0, left, right) && SortedRange(cmp, h, left, right)
    ensures forall k :: 0 <= k < |h| ==> a[base + k] == h[k]
    ensures forall k :: 0 <= k < base || base + |h| <= k < a.Length ==> a[k] == old(a[k])
    ensures right - left <= cost <= Pairs(right - left + 1)
    ensures AllSame(cmp, h0, left, right) ==> cost <= right - left + 1
    ensures h == Leaf(cmp, h0, left, right)
  {
    hide *;
    ghost var sub := h0[left..right + 1];
    if AllSame(cmp, h0, left, right) {
      SameIsSorted(cmp, h0, left, right);
    }
    forall k | 0 <= k < |sub| ensures a[base + left + k] == sub[k] {
      assert h0[left + k] == sub[k];
    }
    ghost var t;
    t, cost := InsertionSort(a, base + left, base + right + 1, cmp, elemSize, sub);
    StableSortedIsPerm(cmp, sub);
    SpliceSorted(cmp, h0, left, right, t);
    h := Splice(h0, left, t);
    SplicedInto(a, base, left, h0, t);
    LeafIs(cmp, h0, left, right, t);
  }

  /** Sorts [left, right] by heapsort: make_heap and then sort_heap. */
  method SortByHeap<T(!new)>(a: array<T>, base: int, left: int, right: int, cmp: (T, T) -> int, ghost h0: seq<T>)
    returns (ghost h: seq<T>, ghost cost: int)
    requires IsOrder(cmp)
    requires 0 <= base && base + |h0| <= a.Length && 0 <= left <= right < |h0|
    requires forall k :: 0 <= k < |h0| ==> a[base + k] == h0[k]
    modifies a
    ensures |h| == |h0| && Within(h, h0, left, right) && SortedRange(cmp, h, left, right)
    ensures forall k :: 0 <= k < |h| ==> a[base + k] == h[k]
    ensures forall k :: 0 <= k < base || base + |h| <= k < a.Length ==> a[k] == old(a[k])
    ensures right - left <= cost <= 2 * (right - left + 1) + 2 * ((right - left + 1) * Log2(right - left + 1))
  {
    hide *;
    ghost var sub := h0[left..right + 1];
    forall k | 0 <= k < |sub| ensures a[base + left + k] == sub[k] {
      assert h0[left + k] == sub[k];
    }
    ghost var t, t', c, c';
    t, c := Heaps.MakeHeap(a, base + left, base + right + 1, cmp, sub);
    t', c' := Heaps.SortHeap(a, base + left, base + right + 1, cmp, t);
    cost := c + c';
    TwiceOver(|sub|, Log2(|sub|));
    SpliceSorted(cmp, h0, left, right, t');
    h := Splice(h0, left, t');
    SplicedInto(a, base, left, h0, t');
  }

  lemma TwiceOver(n: int, l: int)
    ensures n * (2 * l) == 2 * (n * l)
  {
  }

  lemma SplicedInto<T>(a: array<T>, base: int, left: int, h0: seq<T>, sub: seq<T>)
    requires 0 <= base && base + |h0| <= a.Length && 0 <= left && left + |sub| <= |h0|
    requires forall k :: 0 <= k < |sub| ==> a[base + left + k] == sub[k]
    requires forall k :: 0 <= k < |h0| && !(left <= k < left + |sub|) ==> a[base + k] == h0[k]
    ensures forall k :: 0 <= k < |h0| ==> a[base + k] == Splice(h0, left, sub)[k]
  {
    forall k | 0 <= k < |h0| ensures a[base + k] == Splice(h0, left, sub)[k] {
      if left <= k < left + |sub| {
        assert a[base + left + (k - left)] == sub[k - left];
      }
    }
  }

  // ---------- quicksort ----------

  /** One partition level: the pivot is sampled and [left, right] split around it. */
  method SplitOnce<T(!new)>(a: array<T>, base: int, left: int, right: int, cmp: (T, T) -> int, ghost h0: seq<T>)
    returns (lt: int, gt: int, ghost h: seq<T>, ghost cost: int)
    requires IsOrder(cmp)
    requires 0 <= base && base + |h0| <= a.Length && 0 <= left < right < |h0|
    requires forall k :: 0 <= k < |h0| ==> a[base + k] == h0[k]
    modifies a
    ensures |h| == |h0| && Within(h, h0, left, right) && Split3(cmp, h, left, lt, gt, right)
    ensures left <= lt <= gt <= right && cost == 12 + (right - left)
    ensures AllSame(cmp, h0, left, right) ==> lt == left && gt == right
    ensures 17 <= right - left + 1 ==> 4 <= gt - left + 1 && 4 <= right - lt + 1
    ensures forall k :: 0 <= k < |h| ==> a[base + k] == h[k]
    ensures forall k :: 0 <= k < base || base + |h| <= k < a.Length ==> a[k] == old(a[k])
  {
    hide *;
    var pivot;
    ghost var c;
    pivot, c := Ninther(a, base, left, right, cmp, h0);
    lt, gt, h, cost := Partition3(a, base, left, right, pivot, cmp, h0);
    cost := cost + c;
    if AllSame(cmp, h0, left, right) {
      SameSplit(cmp, h, h0, left, lt, gt, right);
    }
    if 17 <= right - left + 1 {
      PivotIsInside(cmp, h, h0, left, right, pivot, lt, gt);
    }
  }

  lemma QuicksortStart<T>(cmp: (T, T) -> int, h: seq<T>, left: int, right: int)
    requires 0 <= left <= right < |h|
    ensures Within(h, h, left, right) && SortedBut(cmp, h, left, left, right, right)
  {
  }

  /** The window is in order: so is everything. */
  lemma WindowSorted<T>(cmp: (T, T) -> int, h1: seq<T>, h: seq<T>, h0: seq<T>, first: int, left: int, right: int,
                        last: int)
    requires Within(h, h0, first, last) && SortedBut(cmp, h, first, left, right, last)
    requires Within(h1, h, left, right) && SortedRange(cmp, h1, left, right)
    ensures Within(h1, h0, first, last) && SortedRange(cmp, h1, first, last)
  {
    hide SortedRange, Within;
    SortedButKept(cmp, h1, h, first, left, right, last);
    WithinTrans(h1, h, h0, left, right, first, last);
    AllDone(cmp, h1, first, left, right, last);
  }

  /** One side of the split is sorted: the window shrinks to the other side. */
  lemma LeftSorted<T(!new)>(cmp: (T, T) -> int, h2: seq<T>, h1: seq<T>, h: seq<T>, h0: seq<T>,
                            first: int, left: int, lt: int, gt: int, right: int, last: int)
    requires IsOrder(cmp) && Within(h, h0, first, last) && SortedBut(cmp, h, first, left, right, last)
    requires Within(h1, h, left, right) && Split3(cmp, h1, left, lt, gt, right)
    requires Within(h2, h1, left, lt - 1) && SortedRange(cmp, h2, left, lt - 1)
    ensures Within(h2, h0, first, last) && SortedBut(cmp, h2, first, gt + 1, right, last)
  {
    hide IsOrder, SortedRange, Within;
    Split3KeptLeft(cmp, h2, h1, left, lt, gt, right);
    WithinTrans(h2, h1, h, left, lt - 1, left, right);
    WithinTrans(h2, h, h0, left, right, first, last);
    SortedButKept(cmp, h2, h, first, left, right, last);
    LeftDone(cmp, h2, first, left, lt, gt, right, last);
  }

  lemma RightSorted<T(!new)>(cmp: (T, T) -> int, h2: seq<T>, h1: seq<T>, h: seq<T>, h0: seq<T>,
                             first: int, left: int, lt: int, gt: int, right: int, last: int)
    requires IsOrder(cmp) && Within(h, h0, first, last) && SortedBut(cmp, h, first, left, right, last)
    requires Within(h1, h, left, right) && Split3(cmp, h1, left, lt, gt, right)
    requires Within(h2, h1, gt + 1, right) && SortedRange(cmp, h2, gt + 1, right)
    ensures Within(h2, h0, first, last) && SortedBut(cmp, h2, first, left, lt - 1, last)
  {
    hide IsOrder, SortedRange, Within;
    Split3KeptRight(cmp, h2, h1, left, lt, gt, right);
    WithinTrans(h2, h1, h, gt + 1, right, left, right);
    WithinTrans(h2, h, h0, left, right, first, last);
    SortedButKept(cmp, h2, h, first, left, right, last);
    RightDone(cmp, h2, first, left, lt, gt, right, last);
  }

  lemma NothingToSort<T>(cmp: (T, T) -> int, h: seq<T>, left: int, right: int)
    requires 0 <= left && right < |h| && right <= left
    ensures Within(h, h, left, right) && SortedRange(cmp, h, left, right)
  {
  }

  lemma ShorterHalves(p: int, m: int)
    requires 1 <= p && 2 * p + 1 <= m
    ensures 1 + Log2(p) <= Log2(m)
  {
    Log2Doubles(p);
    Log2Monotone(2 * p, m);
  }

  /** Sorts [left0, right0]. The ghost results are the comparisons made and how deep the recursion went. */
  method Quicksort<T(!new)>(a: array<T>, base: int, left0: int, right0: int, depth0: int, cmp: (T, T) -> int,
                            elemSize: nat, ghost h0: seq<T>, ghost logn: int)
    returns (ghost h: seq<T>, ghost cost: int, ghost stack: int)
    requires IsOrder(cmp)
    requires 0 <= base && base + |h0| <= a.Length && 0 <= left0 <= right0 < |h0| && 0 <= depth0
    requires Log2(right0 - left0 + 1) <= logn
    requires forall k :: 0 <= k < |h0| ==> a[base + k] == h0[k]
    modifies a
    ensures |h| == |h0| && Within(h, h0, left0, right0) && SortedRange(cmp, h, left0, right0)
    ensures forall k :: 0 <= k < |h| ==> a[base + k] == h[k]
    ensures forall k :: 0 <= k < base || base + |h| <= k < a.Length ==> a[k] == old(a[k])
    ensures right0 - left0 <= cost <= CostBound(right0 - left0 + 1, depth0, logn)
    ensures 0 <= stack <= Log2(right0 - left0 + 1)
    ensures AllSame(cmp, h0, left0, right0) && (0 < depth0 || right0 - left0 + 1 <= INSERTION_THRESHOLD) ==>
              cost <= right0 - left0 + 12
    ensures left0 < right0 && right0 - left0 + 1 <= INSERTION_THRESHOLD ==> h == Leaf(cmp, h0, left0, right0)
    decreases right0 - left0 + 1, 1
  {
    hide *;
    var left, right, depth := left0, right0, depth0;
    h, cost, stack := h0, 0, 0;
    QuicksortStart(cmp, h0, left0, right0);
    while left < right
      invariant left0 <= left && right <= right0 && left <= right + 1 && 0 <= depth && |h| == |h0|
      invariant Within(h, h0, left0, right0) && SortedBut(cmp, h, left0, left, right, right0)
      invariant forall k :: 0 <= k < |h| ==> a[base + k] == h[k]
      invariant forall k :: 0 <= k < base || base + |h| <= k < a.Length ==> a[k] == old(a[k])
      invariant 0 <= cost && cost + CostBound(right - left + 1, depth, logn) <= CostBound(right0 - left0 + 1, depth0,
                logn)
      invariant 0 <= stack <= Log2(right0 - left0 + 1)
      invariant AllSame(cmp, h0, left0, right0) && (0 < depth0 || right0 - left0 + 1 <= INSERTION_THRESHOLD) ==>
                  (left == left0 && right == right0 && h == h0 && depth == depth0 && cost == 0)
                  || (right < left && cost <= right0 - left0 + 12)
      invariant right0 - left0 <= cost + (right - left)
      invariant right0 - left0 + 1 <= INSERTION_THRESHOLD ==> left == left0 && right == right0 && h == h0
      decreases right - left
    {
      Log2Monotone(right - left + 1, right0 - left0 + 1);
      if right - left + 1 <= INSERTION_THRESHOLD || depth == 0 {
        ghost var h1, c := SettleWindow(a, base, left, right, depth, cmp, elemSize, h, logn);
        WindowSorted(cmp, h1, h, h0, left0, left, right, right0);
        h, cost := h1, cost + c;
        return;
      }
      depth := depth - 1;
      ghost var h2, c, d;
      left, right, h2, c, d := SortShorter(a, base, left, right, depth, cmp, elemSize, h, logn, h0, left0, right0);
      h, cost, stack := h2, cost + c, if d < stack then stack else d;
    }
    AllDone(cmp, h, left0, left, right, right0);
    CostPositive(right - left + 1, depth, logn);
  }

  /** A short window goes to insertion sort; one whose depth budget is spent, to heapsort. */
  method SettleWindow<T(!new)>(a: array<T>, base: int, left: int, right: int, depth: int, cmp: (T, T) -> int,
                               elemSize: nat, ghost h0: seq<T>, ghost logn: int)
    returns (ghost h: seq<T>, ghost cost: int)
    requires IsOrder(cmp)
    requires 0 <= base && base + |h0| <= a.Length && 0 <= left < right < |h0| && 0 <= depth
    requires right - left + 1 <= INSERTION_THRESHOLD || depth == 0
    requires 0 <= Log2(right - left + 1) <= logn
    requires forall k :: 0 <= k < |h0| ==> a[base + k] == h0[k]
    modifies a
    ensures |h| == |h0| && Within(h, h0, left, right) && SortedRange(cmp, h, left, right)
    ensures forall k :: 0 <= k < |h| ==> a[base + k] == h[k]
    ensures forall k :: 0 <= k < base || base + |h| <= k < a.Length ==> a[k] == old(a[k])
    ensures right - left <= cost <= CostBound(right - left + 1, depth, logn)
    ensures AllSame(cmp, h0, left, right) && right - left + 1 <= INSERTION_THRESHOLD ==> cost <= right - left + 1
    ensures right - left + 1 <= INSERTION_THRESHOLD ==> h == Leaf(cmp, h0, left, right)
  {
    hide *;
    Threshold();
    ghost var m := right - left + 1;
    CostPositive(m, depth, logn);
    if right - left + 1 <= INSERTION_THRESHOLD {
      h, cost := SortLeaf(a, base, left, right, cmp, elemSize, h0);
      PairsPositive(m);
    } else {
      h, cost := SortByHeap(a, base, left, right, cmp, h0);
      MoreLevels(m, Log2(m), logn);
    }
  }

  lemma Threshold()
    ensures INSERTION_THRESHOLD == 16
  {
  }

  lemma MoreLevels(m: int, l: int, logn: int)
    requires 0 <= m && l <= logn
    ensures m * l <= m * logn
  {
  }

  /** One level of the window: its shorter side is sorted by a nested call, its longer side is the next window. */
  method SortShorter<T(!new)>(a: array<T>, base: int, left: int, right: int, depth: int, cmp: (T, T) -> int,
                              elemSize: nat, ghost h: seq<T>, ghost logn: int, ghost h0: seq<T>, ghost first: int,
                              ghost last: int)
    returns (left': int, right': int, ghost h2: seq<T>, ghost cost: int, ghost stack: int)
    requires IsOrder(cmp)
    requires 0 <= base && base + |h| <= a.Length && 0 <= left < right < |h| && 0 <= depth
    requires right - left + 1 > INSERTION_THRESHOLD && 0 <= Log2(right - left + 1) <= logn
    requires forall k :: 0 <= k < |h| ==> a[base + k] == h[k]
    requires Within(h, h0, first, last) && SortedBut(cmp, h, first, left, right, last)
    modifies a
    ensures left <= left' && right' <= right && left' <= right' + 1 && right' - left' <= right - left - 4
    ensures |h2| == |h|
    ensures AllSame(cmp, h, left, right) ==> right' < left' && cost <= right - left + 12
    ensures right - left <= cost + (right' - left')
    ensures Within(h2, h0, first, last) && SortedBut(cmp, h2, first, left', right', last)
    ensures forall k :: 0 <= k < |h2| ==> a[base + k] == h2[k]
    ensures forall k :: 0 <= k < base || base + |h2| <= k < a.Length ==> a[k] == old(a[k])
    ensures 0 <= cost && cost + CostBound(right' - left' + 1, depth, logn) <= CostBound(right - left + 1, depth + 1,
            logn)
    ensures 0 <= stack <= Log2(right - left + 1)
    decreases right - left + 1, 0
  {
    hide *;
    Threshold();
    var lt, gt;
    ghost var h1, c1, c2;
    lt, gt, h1, c1 := SplitOnce(a, base, left, right, cmp, h);
    if lt - left < right - gt {
      h2, c2, stack := SortSide(a, base, left, lt - 1, depth, cmp, elemSize, h1, logn, right - left + 1);
      LeftSorted(cmp, h2, h1, h, h0, first, left, lt, gt, right, last);
      CostSplit(right - left + 1, lt - left, right - gt, depth + 1, logn);
      left', right' := gt + 1, right;
    } else {
      h2, c2, stack := SortSide(a, base, gt + 1, right, depth, cmp, elemSize, h1, logn, right - left + 1);
      RightSorted(cmp, h2, h1, h, h0, first, left, lt, gt, right, last);
      CostSplit(right - left + 1, right - gt, lt - left, depth + 1, logn);
      left', right' := left, lt - 1; // an empty window when lt == left
    }
    cost := c1 + c2;
  }

  /** Sorts the shorter side, when there is anything on it. */
  method SortSide<T(!new)>(a: array<T>, base: int, l: int, r: int, depth: int, cmp: (T, T) -> int, elemSize: nat,
                           ghost h0: seq<T>, ghost logn: int, ghost m: int)
    returns (ghost h: seq<T>, ghost cost: int, ghost stack: int)
    requires IsOrder(cmp)
    requires 0 <= base && base + |h0| <= a.Length && 0 <= l <= r + 1 <= |h0| && 0 <= depth
    requires 2 * (r - l + 1) + 1 <= m && 0 <= Log2(m) <= logn
    requires forall k :: 0 <= k < |h0| ==> a[base + k] == h0[k]
    modifies a
    ensures |h| == |h0| && Within(h, h0, l, r) && SortedRange(cmp, h, l, r)
    ensures forall k :: 0 <= k < |h| ==> a[base + k] == h[k]
    ensures forall k :: 0 <= k < base || base + |h| <= k < a.Length ==> a[k] == old(a[k])
    ensures 0 <= cost <= CostBound(r - l + 1, depth, logn)
    ensures 0 <= stack <= Log2(m)
    ensures r < l ==> cost == 0
    decreases r - l + 1, 2
  {
    hide *;
    h, cost, stack := h0, 0, 0;
    CostPositive(r - l + 1, depth, logn);
    if l <= r {
      ShorterHalves(r - l + 1, m);
      h, cost, stack := Quicksort(a, base, l, r, depth, cmp, elemSize, h0, logn);
      stack := stack + 1;
    } else {
      NothingToSort(cmp, h, l, r);
    }
  }

  // ---------- sort ----------

  /** How many times a window may be split before heapsort takes over: twice floor(log2 len). */
  method DepthLimit(len: int) returns (d: int)
    requires len > 1
    ensures d == 2 * Log2(len) && 0 < d
  {
    var width, n := 0, len;
    while n > 1
      invariant 1 <= n <= len && 0 <= width
      invariant width + Log2(n) == Log2(len)
    {
      width, n := width + 1, n / 2;
    }
    d := 2 * width;
  }

  lemma SortBound(n: int)
    requires 0 <= n
    ensures 0 <= CostBound(n, 2 * Log2(n), Log2(n)) <= 8 * NLogN(n)
  {
    hide Log2;
    SortBoundOf(n, Log2(n));
  }

  lemma SortBoundOf(n: int, l: int)
    requires 0 <= n && 0 <= l
    ensures 0 <= CostBound(n, 2 * l, l) <= 8 * (n * (l + 1))
  {
    assert n * (2 * (2 * l) + 8 + 2 * l) == 6 * (n * l) + 8 * n;
    assert n * (l + 1) == n * l + n;
    assert 0 <= n * l;
  }

  /** Sorts the span a[lo..hi]: whatever the order and the data, a sorted rearrangement, in at most
      8 n (log2 n + 1) comparisons and log2 n nested calls. */
  method SpanSort<T(!new)>(a: array<T>, lo: int, hi: int, cmp: (T, T) -> int, elemSize: nat)
    returns (ghost cost: int, ghost stack: int)
    requires IsOrder(cmp)
    requires 0 <= lo <= hi <= a.Length
    modifies a
    ensures Sorted(cmp, a[lo..hi]) && multiset(a[lo..hi]) == multiset(old(a[lo..hi]))
    ensures forall k :: 0 <= k < lo || hi <= k < a.Length ==> a[k] == old(a[k])
    ensures 0 <= cost <= 8 * NLogN(hi - lo) && hi - lo - 1 <= cost
    ensures 0 <= stack <= Log2(hi - lo)
    ensures AllSame(cmp, old(a[lo..hi]), 0, hi - lo - 1) ==> cost <= hi - lo + 11
    ensures hi - lo <= 16 ==> a[lo..hi] == StableSorted(cmp, old(a[lo..hi]))
  {
    hide *;
    ghost var h0 := a[lo..hi];
    SpanElems(a, lo, hi, h0);
    ghost var h;
    h, cost, stack := SortElems(a, lo, hi - lo, cmp, elemSize, h0);
    SubSpan(a, lo, h, 0, |h|);
    assert h[0..|h|] == h;
  }

  /** tda_span_sort, told in the elems of the span. */
  method SortElems<T(!new)>(a: array<T>, lo: int, len: int, cmp: (T, T) -> int, elemSize: nat, ghost h0: seq<T>)
    returns (ghost h: seq<T>, ghost cost: int, ghost stack: int)
    requires IsOrder(cmp)
    requires 0 <= lo && lo + len <= a.Length && len == |h0|
    requires forall k :: 0 <= k < |h0| ==> a[lo + k] == h0[k]
    modifies a
    ensures |h| == |h0| && Sorted(cmp, h) && multiset(h) == multiset(h0)
    ensures forall k :: 0 <= k < |h| ==> a[lo + k] == h[k]
    ensures forall k :: 0 <= k < lo || lo + |h| <= k < a.Length ==> a[k] == old(a[k])
    ensures 0 <= cost <= 8 * NLogN(|h|) && |h| - 1 <= cost
    ensures 0 <= stack <= Log2(|h|)
    ensures AllSame(cmp, h0, 0, |h0| - 1) ==> cost <= |h| + 11
    ensures |h0| <= 16 ==> h == StableSorted(cmp, h0)
  {
    hide *;
    WholeLeaf(cmp, h0);
    Threshold();
    SortBound(len);
    ShortSorted(cmp, h0);
    h, cost, stack := h0, 0, 0;
    if len < 2 {
      return;
    }
    var d := DepthLimit(len);
    h, cost, stack := Quicksort(a, lo, 0, len - 1, d, cmp, elemSize, h0, Log2(len));
    SortedRangeAll(cmp, h, h0);
  }

  lemma ShortSorted<T>(cmp: (T, T) -> int, h: seq<T>)
    ensures |h| < 2 ==> Sorted(cmp, h)
    ensures 0 <= Log2(|h|)
  {
  }

  lemma SortedRangeAll<T>(cmp: (T, T) -> int, h: seq<T>, h0: seq<T>)
    requires Within(h, h0, 0, |h0| - 1) && SortedRange(cmp, h, 0, |h| - 1)
    ensures Sorted(cmp, h) && multiset(h) == multiset(h0)
  {
  }

  // ---------- nth_elem ----------

  /** Nothing before the window is greater than anything from it on, and nothing behind it less than anything up to it.
      */
  ghost predicate Bracketed<T>(cmp: (T, T) -> int, h: seq<T>, left: int, right: int) {
    && 0 <= left && right < |h|
    && forall i, j :: 0 <= i < j < |h| && (i < left <= j || i <= right < j) ==> cmp(h[i], h[j]) <= 0
  }

  /** The elem at nth stands where sorting could have put it: every elem before it is at most as great, every one behind
      it at least. */
  ghost predicate NthSettled<T>(cmp: (T, T) -> int, h: seq<T>, nth: int) {
    && 0 <= nth < |h|
    && (forall i :: 0 <= i < nth ==> cmp(h[i], h[nth]) <= 0)
    && (forall j :: nth < j < |h| ==> cmp(h[nth], h[j]) <= 0)
  }

  lemma BracketedKept<T>(cmp: (T, T) -> int, h: seq<T>, h0: seq<T>, left: int, right: int)
    requires Bracketed(cmp, h0, left, right) && Within(h, h0, left, right)
    ensures Bracketed(cmp, h, left, right)
  {
    forall i, j | 0 <= i < j < |h| && (i < left <= j || i <= right < j) ensures cmp(h[i], h[j]) <= 0 {
      var i0, j0 := i, j;
      if left <= i <= right {
        i0 := WithinElem(h, h0, left, right, i);
      }
      if left <= j <= right {
        j0 := WithinElem(h, h0, left, right, j);
      }
      assert cmp(h0[i0], h0[j0]) <= 0;
    }
  }

  /** The window moves to the side of the split nth is on. */
  lemma BracketedSplit<T(!new)>(cmp: (T, T) -> int, h: seq<T>, left: int, lt: int, gt: int, right: int)
    requires IsOrder(cmp) && Bracketed(cmp, h, left, right) && Split3(cmp, h, left, lt, gt, right)
    ensures Bracketed(cmp, h, left, lt - 1)
    ensures Bracketed(cmp, h, gt + 1, right)
    ensures forall nth :: lt <= nth <= gt ==> NthSettled(cmp, h, nth)
  {
    forall i, j | 0 <= i < j < |h| && (i < left <= j || i <= lt - 1 < j) ensures cmp(h[i], h[j]) <= 0 {
      if left <= i && j <= right {
        AcrossSplit(cmp, h, left, lt, gt, right, i, j);
      }
    }
    forall i, j | 0 <= i < j < |h| && (i < gt + 1 <= j || i <= right < j) ensures cmp(h[i], h[j]) <= 0 {
      if left <= i <= gt && j <= right {
        AcrossSplit(cmp, h, left, lt, gt, right, i, j);
      }
    }
    forall nth | lt <= nth <= gt ensures NthSettled(cmp, h, nth) {
      forall i | 0 <= i < nth ensures cmp(h[i], h[nth]) <= 0 {
        if left <= i {
          AcrossSplit(cmp, h, left, lt, gt, right, i, nth);
        }
      }
      forall j | nth < j < |h| ensures cmp(h[nth], h[j]) <= 0 {
        if j <= right {
          AcrossSplit(cmp, h, left, lt, gt, right, nth, j);
        }
      }
    }
  }

  lemma BracketedSorted<T>(cmp: (T, T) -> int, h: seq<T>, left: int, right: int, nth: int)
    requires Bracketed(cmp, h, left, right) && left <= nth <= right && SortedRange(cmp, h, left, right)
    ensures NthSettled(cmp, h, nth)
  {
  }

  lemma BracketedStart<T>(cmp: (T, T) -> int, h: seq<T>)
    ensures Bracketed(cmp, h, 0, |h| - 1) && Within(h, h, 0, |h| - 1)
  {
  }

  /** Settles position nth by quickselect, in at most 22 n (log2 n + 1) comparisons however bad the pivots are. */
  method NthElem<T(!new)>(a: array<T>, lo: int, hi: int, nth: int, cmp: (T, T) -> int, elemSize: nat)
    returns (ghost cost: int)
    requires IsOrder(cmp)
    requires 0 <= lo < hi <= a.Length && 0 <= nth < hi - lo
    modifies a
    ensures NthSettled(cmp, a[lo..hi], nth) && multiset(a[lo..hi]) == multiset(old(a[lo..hi]))
    ensures forall k :: 0 <= k < lo || hi <= k < a.Length ==> a[k] == old(a[k])
    ensures hi - lo - 1 <= cost <= 22 * NLogN(hi - lo)
    ensures AllSame(cmp, old(a[lo..hi]), 0, hi - lo - 1) ==> cost <= hi - lo + 11
    ensures Within(a[lo..hi], old(a[lo..hi]), 0, hi - lo - 1)
  {
    hide *;
    ghost var h0 := a[lo..hi];
    ghost var h;
    h, cost := Quickselect(a, lo, hi, nth, cmp, elemSize, h0);
    assert a[lo..hi] == h;
  }

  /** The quickselect loop: one side of the split is dropped every round, and when the depth budget is spent what is
      left is sorted. */
  method Quickselect<T(!new)>(a: array<T>, lo: int, hi: int, nth: int, cmp: (T, T) -> int, elemSize: nat,
                              ghost h0: seq<T>)
    returns (ghost h: seq<T>, ghost cost: int)
    requires IsOrder(cmp)
    requires 0 <= lo < hi <= a.Length && |h0| == hi - lo && 0 <= nth < |h0|
    requires forall k :: 0 <= k < |h0| ==> a[lo + k] == h0[k]
    modifies a
    ensures |h| == |h0| && NthSettled(cmp, h, nth) && multiset(h) == multiset(h0)
    ensures forall k :: 0 <= k < |h| ==> a[lo + k] == h[k]
    ensures forall k :: 0 <= k < lo || hi <= k < a.Length ==> a[k] == old(a[k])
    ensures hi - lo - 1 <= cost <= 22 * NLogN(hi - lo)
    ensures AllSame(cmp, h0, 0, |h0| - 1) ==> cost <= |h0| + 11
    ensures Within(h, h0, 0, |h0| - 1)
  {
    hide *;
    h, cost := h0, 0;
    ghost var n, l := hi - lo, Log2(hi - lo);
    BracketedStart(cmp, h0);
    var left, right, depth := 0, hi - lo - 1, 0;
    if hi - lo >= 2 {
      depth := DepthLimit(hi - lo);
    }
    RoundsStart(n, l);
    while left < right
      invariant 0 <= left <= nth <= right < |h| == |h0|
      invariant Bracketed(cmp, h, left, right) && multiset(h) == multiset(h0) && Within(h, h0, 0, |h0| - 1)
      invariant |h0| - 1 <= cost + (right - left)
      invariant AllSame(cmp, h0, 0, |h0| - 1) ==>
                  left == 0 && right == |h0| - 1 && h == h0 && cost == 0 && (left < right ==> 0 < depth)
      invariant 0 <= depth && 0 <= cost && cost + 7 * (n * depth) <= 14 * (n * l)
      invariant forall k :: 0 <= k < |h| ==> a[lo + k] == h[k]
      invariant forall k :: 0 <= k < lo || hi <= k < a.Length ==> a[k] == old(a[k])
      decreases right - left
    {
      if depth == 0 {
        ghost var h1, c := SortWindow(a, lo, left, right, cmp, elemSize, h);
        BracketedKept(cmp, h1, h, left, right);
        BracketedSorted(cmp, h1, left, right, nth);
        WithinPerm(h1, h, left, right);
        WithinTrans(h1, h, h0, left, right, 0, |h0| - 1);
        RoundsEnd(n, l, right - left + 1, cost, c);
        h, cost := h1, cost + c;
        return;
      }
      depth := depth - 1;
      var lt, gt;
      ghost var h1, c;
      lt, gt, h1, c := SplitOnce(a, lo, left, right, cmp, h);
      BracketedKept(cmp, h1, h, left, right);
      BracketedSplit(cmp, h1, left, lt, gt, right);
      WithinPerm(h1, h, left, right);
      WithinTrans(h1, h, h0, left, right, 0, |h0| - 1);
      OneRound(n, depth, cost, c, right - left, l);
      h, cost := h1, cost + c;
      if nth < lt {
        right := lt - 1;
      } else if nth > gt {
        left := gt + 1;
      } else {
        RoundsStop(n, depth, l, cost);
        return;
      }
    }
    RoundsStop(n, depth, l, cost);
    NothingToSort(cmp, h, left, right);
    BracketedSorted(cmp, h, left, right, nth);
  }

  lemma RoundsStart(n: int, l: int)
    requires 0 <= n && 0 <= l
    ensures n * 0 == 0 && 0 <= n * l && n * (2 * l) == 2 * (n * l)
  {
  }

  /** A round costs at most seven comparisons per elem, and takes one off the depth budget. */
  lemma OneRound(n: int, depth: int, cost: int, c: int, width: int, l: int)
    requires 1 <= width < n && c <= 12 + width && 0 <= depth && cost + 7 * (n * (depth + 1)) <= 14 * (n * l)
    ensures cost + c + 7 * (n * depth) <= 14 * (n * l)
  {
    assert n * (depth + 1) == n * depth + n;
  }

  lemma RoundsStop(n: int, depth: int, l: int, cost: int)
    requires 0 <= n && 0 <= depth && 0 <= l == Log2(n) && cost + 7 * (n * depth) <= 14 * (n * l)
    ensures cost <= 14 * (n * l) && cost <= 22 * NLogN(n)
  {
    hide Log2;
    NLogNIs(n, l);
    RoundsStopOf(n, depth, l);
  }

  lemma RoundsStopOf(n: int, depth: int, l: int)
    requires 0 <= n && 0 <= depth && 0 <= l
    ensures 0 <= n * depth && 14 * (n * l) <= 22 * (n * l + n)
  {
    assert 0 <= n * depth && 0 <= n * l;
  }

  lemma NLogNIs(n: int, l: int)
    requires l == Log2(n)
    ensures NLogN(n) == n * l + n
  {
    hide Log2;
    assert NLogN(n) == n * (l + 1);
    Distributed(n, l);
  }

  lemma Distributed(n: int, l: int)
    ensures n * (l + 1) == n * l + n
  {
  }

  /** With the budget spent, what is left is sorted. */
  lemma RoundsEnd(n: int, l: int, m: int, cost: int, c: int)
    requires 0 <= m <= n && l == Log2(n) && cost + 7 * (n * 0) <= 14 * (n * l) && c <= 8 * NLogN(m)
    ensures cost + c <= 22 * NLogN(n)
  {
    hide Log2, NLogN;
    NLogNMonotone(m, n);
    NLogNIs(n, l);
    hide *;
  }

  lemma WithinPerm<T>(h: seq<T>, h0: seq<T>, left: int, right: int)
    requires Within(h, h0, left, right)
    ensures multiset(h) == multiset(h0)
  {
  }

  /** tda_span_sort over the sub-span [left, right]. */
  method SortWindow<T(!new)>(a: array<T>, base: int, left: int, right: int, cmp: (T, T) -> int, elemSize: nat,
                             ghost h0: seq<T>)
    returns (ghost h: seq<T>, ghost cost: int)
    requires IsOrder(cmp)
    requires 0 <= base && base + |h0| <= a.Length && 0 <= left <= right < |h0|
    requires forall k :: 0 <= k < |h0| ==> a[base + k] == h0[k]
    modifies a
    ensures |h| == |h0| && Within(h, h0, left, right) && SortedRange(cmp, h, left, right)
    ensures forall k :: 0 <= k < |h| ==> a[base + k] == h[k]
    ensures forall k :: 0 <= k < base || base + |h| <= k < a.Length ==> a[k] == old(a[k])
    ensures right - left <= cost <= 8 * NLogN(right - left + 1)
    ensures AllSame(cmp, h0, left, right) ==> cost <= right - left + 12
  {
    hide *;
    ghost var sub := h0[left..right + 1];
    if AllSame(cmp, h0, left, right) {
      SameSlice(cmp, h0, left, right);
    }
    assert a[base + left..base + right + 1] == sub;
    ghost var stack;
    cost, stack := SpanSort(a, base + left, base + right + 1, cmp, elemSize);
    ghost var t := a[base + left..base + right + 1];
    SpliceSorted(cmp, h0, left, right, t);
    SplicedInto(a, base, left, h0, t);
    h := Splice(h0, left, t);
  }

  // ---------- what settling a position means ----------

  lemma GreaterThrough<T(!new)>(cmp: (T, T) -> int, y: T, z: T, x: T)
    requires IsOrder(cmp) && cmp(y, z) <= 0 && cmp(y, x) > 0
    ensures cmp(z, x) > 0
  {
    assert cmp(z, x) <= 0 ==> cmp(y, x) <= 0;
  }

  lemma NotAfter<T(!new)>(cmp: (T, T) -> int, r: seq<T>, s: seq<T>, n: int)
    requires IsOrder(cmp) && NthSettled(cmp, r, n) && NthSettled(cmp, s, n) && multiset(r) == multiset(s)
    ensures cmp(s[n], r[n]) <= 0
  {
    var x := r[n];
    if cmp(s[n], x) > 0 {
      forall j | n <= j < |s| ensures cmp(s[j], x) > 0 {
        assert cmp(s[n], s[n]) == 0;
        GreaterThrough(cmp, s[n], s[j], x);
      }
      LowPerm(cmp, x, r, s);
      LowLeast(cmp, x, r, n + 1);
      LowMost(cmp, x, s, n);
    }
  }

  /** Two arrangements of the same elems that settle position n agree there up to cmp. */
  lemma SettledAgree<T(!new)>(cmp: (T, T) -> int, r: seq<T>, s: seq<T>, n: int)
    requires IsOrder(cmp) && NthSettled(cmp, r, n) && NthSettled(cmp, s, n) && multiset(r) == multiset(s)
    ensures cmp(r[n], s[n]) == 0
  {
    NotAfter(cmp, r, s, n);
    NotAfter(cmp, s, r, n);
  }

  /** What nth_elem leaves at nth is, up to cmp, what sorting would have put there. */
  lemma NthIsSortedNth<T(!new)>(cmp: (T, T) -> int, h: seq<T>, s: seq<T>, nth: int)
    requires IsOrder(cmp) && NthSettled(cmp, h, nth) && multiset(h) == multiset(s)
    ensures |h| == |s| && cmp(h[nth], StableSorted(cmp, s)[nth]) == 0
  {
    StableSortedIsPerm(cmp, s);
    assert |multiset(h)| == |h| && |multiset(s)| == |s|;
    SettledAgree(cmp, h, StableSorted(cmp, s), nth);
  }

  // ---------- partial sort ----------

  /** Every pair of elems is in order whose first one stands before position count. */
  ghost predicate FrontSorted<T>(cmp: (T, T) -> int, h: seq<T>, count: int) {
    0 <= count <= |h| && forall i, j :: 0 <= i < j < |h| && i < count ==> cmp(h[i], h[j]) <= 0
  }

  lemma FrontAfterNth<T(!new)>(cmp: (T, T) -> int, h0: seq<T>, h: seq<T>, count: int)
    requires IsOrder(cmp) && NthSettled(cmp, h0, count)
    requires Within(h, h0, 0, count - 1) && SortedRange(cmp, h, 0, count - 1)
    ensures FrontSorted(cmp, h, count)
  {
    forall i, j | 0 <= i < j < |h| && i < count ensures cmp(h[i], h[j]) <= 0 {
      if count <= j {
        var m := WithinElem(h, h0, 0, count - 1, i);
        assert cmp(h0[m], h0[count]) <= 0;
        assert j > count ==> cmp(h0[count], h0[j]) <= 0;
      }
    }
  }

  /** Sorts the front of the span once nth_elem has brought the right elems there. */
  method PartialSort<T(!new)>(a: array<T>, lo: int, hi: int, count: int, cmp: (T, T) -> int, elemSize: nat)
    returns (ghost cost: int)
    requires IsOrder(cmp)
    requires 0 <= lo <= hi <= a.Length && 0 <= count <= hi - lo
    modifies a
    ensures FrontSorted(cmp, a[lo..hi], count) && multiset(a[lo..hi]) == multiset(old(a[lo..hi]))
    ensures forall k :: 0 <= k < lo || hi <= k < a.Length ==> a[k] == old(a[k])
    ensures 0 <= cost <= 22 * NLogN(hi - lo) + 8 * NLogN(count)
    ensures 0 < count ==> hi - lo - 1 <= cost
    ensures AllSame(cmp, old(a[lo..hi]), 0, hi - lo - 1) ==> cost <= hi - lo + count + 22
  {
    hide *;
    ShortFront(cmp, a[lo..hi], count);
    cost := 0;
    NLogNMonotone(0, hi - lo);
    NLogNMonotone(0, count);
    if count == 0 || hi - lo < 2 {
      return;
    }
    if count >= hi - lo {
      ghost var stack;
      cost, stack := SpanSort(a, lo, hi, cmp, elemSize);
      SortedFront(cmp, a[lo..hi], count);
      return;
    }
    ghost var h0 := a[lo..hi];
    SpanElems(a, lo, hi, h0);
    ghost var h;
    h, cost := SelectThenSort(a, lo, hi, count, cmp, elemSize, h0);
    SubSpan(a, lo, h, 0, |h|);
    assert h[0..|h|] == h;
  }

  /** A front shorter than the span: nth_elem brings its elems there, and then they are sorted. */
  method SelectThenSort<T(!new)>(a: array<T>, lo: int, hi: int, count: int, cmp: (T, T) -> int, elemSize: nat,
                                 ghost h0: seq<T>)
    returns (ghost h: seq<T>, ghost cost: int)
    requires IsOrder(cmp)
    requires 0 <= lo <= hi <= a.Length && |h0| == hi - lo && 0 < count < |h0|
    requires forall k :: 0 <= k < |h0| ==> a[lo + k] == h0[k]
    modifies a
    ensures |h| == |h0| && FrontSorted(cmp, h, count) && multiset(h) == multiset(h0)
    ensures forall k :: 0 <= k < |h| ==> a[lo + k] == h[k]
    ensures forall k :: 0 <= k < lo || hi <= k < a.Length ==> a[k] == old(a[k])
    ensures |h| - 1 <= cost <= 22 * NLogN(|h|) + 8 * NLogN(count)
    ensures AllSame(cmp, h0, 0, |h0| - 1) ==> cost <= |h0| + count + 22
  {
    hide *;
    ghost var h1, more;
    h1, cost := Quickselect(a, lo, hi, count, cmp, elemSize, h0);
    if AllSame(cmp, h0, 0, |h0| - 1) {
      SameKept(cmp, h1, h0, 0, |h0| - 1, 0, count - 1);
    }
    h, more := SortWindow(a, lo, 0, count - 1, cmp, elemSize, h1);
    cost := cost + more;
    FrontAfterNth(cmp, h1, h, count);
    WithinPerm(h, h1, 0, count - 1);
  }

  lemma ShortFront<T>(cmp: (T, T) -> int, h: seq<T>, count: int)
    requires 0 <= count <= |h|
    ensures count == 0 || |h| < 2 ==> FrontSorted(cmp, h, count)
  {
  }

  lemma SortedFront<T>(cmp: (T, T) -> int, h: seq<T>, count: int)
    requires 0 <= count <= |h| && Sorted(cmp, h)
    ensures FrontSorted(cmp, h, count)
  {
  }

  /** The front partial_sort leaves is, elem by elem and up to cmp, the front of the sorted span. */
  lemma FrontIsSortedFront<T(!new)>(cmp: (T, T) -> int, h: seq<T>, s: seq<T>, count: int)
    requires IsOrder(cmp) && FrontSorted(cmp, h, count) && multiset(h) == multiset(s)
    ensures |h| == |s| && forall k :: 0 <= k < count ==> cmp(h[k], StableSorted(cmp, s)[k]) == 0
  {
    StableSortedIsPerm(cmp, s);
    assert |multiset(h)| == |h| && |multiset(s)| == |s|;
    forall k | 0 <= k < count ensures cmp(h[k], StableSorted(cmp, s)[k]) == 0 {
      assert NthSettled(cmp, h, k);
      SettledAgree(cmp, h, StableSorted(cmp, s), k);
    }
  }
}
