/** Sorting a span in place (src/algo/sort.c). As in Heaps, the argument runs over the sequence h of the span's elems
    and the methods keep that sequence and the array in step; ghost results count comparisons and recursion levels. */
module Sorting {
  import opened Ordering
  import opened Counting
  import opened Spans
  import Merging

  const INSERTION_THRESHOLD := 16
  const INSERTION_HELD_MAX := 256

  // ---------- insertion sort ----------

  /** The elem at i set down at slot, those from slot on moved up by one. */
  ghost function MoveDown<T>(h: seq<T>, slot: int, i: int): (r: seq<T>)
    requires 0 <= slot <= i < |h|
    ensures |r| == |h|
    ensures forall k :: 0 <= k < |h| ==> r[k] == if slot < k <= i then h[k - 1] else if k == slot then h[i] else h[k]
  {
    h[..slot] + [h[i]] + h[slot..i] + h[i + 1..]
  }

  /** Between slot and i everything is greater than the elem at i, and what stands before slot is not. */
  ghost predicate SlotFor<T>(cmp: (T, T) -> int, h: seq<T>, i: int, slot: int) {
    && 0 <= slot <= i < |h|
    && (forall k :: slot <= k < i ==> cmp(h[k], h[i]) > 0)
    && (slot > 0 ==> cmp(h[slot - 1], h[i]) <= 0)
  }

  /** Scans down from idx to the slot of the elem there; one comparison for every elem it passes, and one that stops it.
      */
  method InsertionSlot<T>(a: array<T>, lo: int, idx: int, cmp: (T, T) -> int, ghost h: seq<T>)
    returns (slot: int, ghost cost: int)
    requires 0 <= lo && lo + |h| <= a.Length && 0 <= idx < |h|
    requires forall k :: 0 <= k < |h| ==> a[lo + k] == h[k]
    ensures 0 <= slot <= idx && SlotFor(cmp, h, idx, slot)
    ensures 0 <= cost <= idx && cost <= idx - slot + 1 && (0 < idx ==> 1 <= cost)
  {
    slot, cost := idx, 0;
    assert a[lo + idx] == h[idx];
    while slot > 0
      invariant 0 <= slot <= idx && cost == idx - slot
      invariant forall k :: slot <= k < idx ==> cmp(h[k], h[idx]) > 0
    {
      assert a[lo + (slot - 1)] == h[slot - 1];
      cost := cost + 1;
      if cmp(a[lo + slot - 1], a[lo + idx]) <= 0 {
        break;
      }
      slot := slot - 1;
    }
  }

  /** Puts the elem at i into slot: big elems by swapping down, others by holding the elem while the run
      above the slot moves up. */
  method ShiftInto<T>(a: array<T>, lo: int, slot: int, i: int, elemSize: nat, ghost h: seq<T>)
    requires 0 <= lo && lo + |h| <= a.Length && 0 <= slot <= i < |h|
    requires forall k :: 0 <= k < |h| ==> a[lo + k] == h[k]
    modifies a
    ensures forall k :: 0 <= k < |h| ==> a[lo + k] == MoveDown(h, slot, i)[k]
    ensures forall k :: 0 <= k < lo || lo + |h| <= k < a.Length ==> a[k] == old(a[k])
  {
    if elemSize > INSERTION_HELD_MAX {
      SwapDown(a, lo, slot, i, h);
    } else if slot != i {
      HoldAndMove(a, lo, slot, i, h);
    }
  }

  method SwapDown<T>(a: array<T>, lo: int, slot: int, i: int, ghost h: seq<T>)
    requires 0 <= lo && lo + |h| <= a.Length && 0 <= slot <= i < |h|
    requires forall k :: 0 <= k < |h| ==> a[lo + k] == h[k]
    modifies a
    ensures forall k :: 0 <= k < |h| ==> a[lo + k] == MoveDown(h, slot, i)[k]
    ensures forall k :: 0 <= k < lo || lo + |h| <= k < a.Length ==> a[k] == old(a[k])
  {
    var k := i;
    ghost var g := h;
    while k > slot
      invariant slot <= k <= i && |g| == |h|
      invariant g == MoveDown(h, k, i)
      invariant forall j :: 0 <= j < |g| ==> a[lo + j] == g[j]
      invariant forall j :: 0 <= j < lo || lo + |h| <= j < a.Length ==> a[j] == old(a[j])
    {
      g := SwapElems(a, lo, k - 1, k, g);
      k := k - 1;
    }
  }

  method HoldAndMove<T>(a: array<T>, lo: int, slot: int, i: int, ghost h: seq<T>)
    requires 0 <= lo && lo + |h| <= a.Length && 0 <= slot < i < |h|
    requires forall k :: 0 <= k < |h| ==> a[lo + k] == h[k]
    modifies a
    ensures forall k :: 0 <= k < |h| ==> a[lo + k] == MoveDown(h, slot, i)[k]
    ensures forall k :: 0 <= k < lo || lo + |h| <= k < a.Length ==> a[k] == old(a[k])
  {
    var held := a[lo + i];
    assert held == h[i];
    forall k | slot < k <= i {
      a[lo + k] := a[lo + k - 1];
    }
    assert forall k :: slot < k <= i ==> a[lo + k] == MoveDown(h, slot, i)[k];
    a[lo + slot] := held;
  }

  /** The first i elems are stably sorted and the others untouched. */
  ghost predicate PrefixSorted<T(!new)>(cmp: (T, T) -> int, h: seq<T>, h0: seq<T>, i: int) {
    0 <= i <= |h| == |h0| && h[i..] == h0[i..] && Sorted(cmp, h[..i]) && StablePerm(cmp, h[..i], h0[..i])
  }

  lemma PrefixGrows<T(!new)>(cmp: (T, T) -> int, h: seq<T>, h0: seq<T>, i: int, slot: int)
    requires IsOrder(cmp) && PrefixSorted(cmp, h, h0, i) && 0 <= slot <= i < |h| && SlotFor(cmp, h, i, slot)
    ensures PrefixSorted(cmp, MoveDown(h, slot, i), h0, i + 1)
  {
    hide IsOrder, Sorted, StablePerm;
    var x, s, t := h[i], h[..slot], h[slot..i];
    SignsFlip(cmp, t, x);
    var r := MoveDown(h, slot, i);
    assert h[..i] == s + t && h[i] == h0[i] && h0[..i + 1] == h0[..i] + [x] by {
      assert h[i..][0] == h0[i..][0];
    }
    assert r[..i + 1] == s + ([x] + t);
    assert r[i + 1..] == h0[i + 1..] by {
      assert r[i + 1..] == h[i..][1..] == h0[i..][1..];
    }
    SlotIsSorted(cmp, s, x, t);
    StablePermRefl(cmp, [x]);
    StablePermConcat(cmp, s + t, h0[..i], [x], [x]);
    MoveInto(cmp, s, x, t);
    StablePermTrans(cmp, s + ([x] + t), s + t + [x], h0[..i + 1]);
  }

  lemma SignsFlip<T(!new)>(cmp: (T, T) -> int, s: seq<T>, x: T)
    requires IsOrder(cmp) && forall k :: 0 <= k < |s| ==> cmp(s[k], x) > 0
    ensures forall k :: 0 <= k < |s| ==> cmp(x, s[k]) < 0
  {
  }

  lemma SlotIsSorted<T(!new)>(cmp: (T, T) -> int, s: seq<T>, x: T, t: seq<T>)
    requires IsOrder(cmp) && Sorted(cmp, s + t)
    requires forall k :: 0 <= k < |t| ==> cmp(x, t[k]) < 0
    requires s != [] ==> cmp(s[|s| - 1], x) <= 0
    ensures Sorted(cmp, s + ([x] + t))
  {
    Merging.SortedSplit(cmp, s, t);
    BelowLast(cmp, s, x);
    SortedConcat(cmp, [x], t);
    SortedConcat(cmp, s, [x] + t);
  }

  /** Sorts by insertion; stable, in at most n (n - 1) / 2 comparisons, and n on a span that is sorted already. */
  method InsertionSort<T(!new)>(a: array<T>, lo: int, hi: int, cmp: (T, T) -> int, elemSize: nat, ghost h0: seq<T>)
    returns (ghost h: seq<T>, ghost cost: int)
    requires IsOrder(cmp)
    requires 0 <= lo <= hi <= a.Length && |h0| == hi - lo
    requires forall k :: 0 <= k < |h0| ==> a[lo + k] == h0[k]
    modifies a
    ensures h == StableSorted(cmp, h0) && |h| == |h0|
    ensures forall k :: 0 <= k < |h| ==> a[lo + k] == h[k]
    ensures forall k :: 0 <= k < lo || hi <= k < a.Length ==> a[k] == old(a[k])
    ensures 0 <= cost <= Pairs(|h|) && |h| - 1 <= cost
    ensures Sorted(cmp, h0) ==> cost <= |h|
  {
    hide *;
    h, cost := h0, 0;
    PrefixStart(cmp, h0);
    PairsStart();
    var i := 1;
    while i < hi - lo
      invariant 1 <= i && (if |h| == 0 then i == 1 else i <= |h|) && |h| == |h0|
      invariant PrefixSorted(cmp, h, h0, if |h| == 0 then 0 else i)
      invariant forall k :: 0 <= k < |h| ==> a[lo + k] == h[k]
      invariant forall k :: 0 <= k < lo || hi <= k < a.Length ==> a[k] == old(a[k])
      invariant i - 1 <= cost <= Pairs(i)
      invariant Sorted(cmp, h0) ==> h == h0 && cost < i
    {
      var slot;
      ghost var c;
      slot, c := InsertionSlot(a, lo, i, cmp, h);
      PrefixGrows(cmp, h, h0, i, slot);
      StaysPut(cmp, h, i, slot);
      ShiftInto(a, lo, slot, i, elemSize, h);
      h := MoveDown(h, slot, i);
      PairsStep(i);
      i, cost := i + 1, cost + c;
    }
    assert i - 1 <= |h|;
    PrefixDone(cmp, h, h0);
    PairsPositive(|h|);
  }

  lemma StaysPut<T>(cmp: (T, T) -> int, h: seq<T>, i: int, slot: int)
    requires 0 <= slot <= i < |h| && SlotFor(cmp, h, i, slot)
    ensures Sorted(cmp, h) ==> slot == i && MoveDown(h, slot, i) == h
  {
    var x, y := h[slot], h[i];
    assert cmp(x, y) <= 0 || cmp(x, y) > 0;
  }

  lemma PrefixStart<T(!new)>(cmp: (T, T) -> int, h: seq<T>)
    ensures PrefixSorted(cmp, h, h, if |h| == 0 then 0 else 1)
  {
    StablePermRefl(cmp, h[..if |h| == 0 then 0 else 1]);
  }

  lemma PrefixDone<T(!new)>(cmp: (T, T) -> int, h: seq<T>, h0: seq<T>)
    requires IsOrder(cmp) && PrefixSorted(cmp, h, h0, |h|)
    ensures h == StableSorted(cmp, h0)
  {
    assert h[..|h|] == h && h0[..|h|] == h0;
    StableSortedIff(cmp, h, h0);
  }

  /** How many pairs n things form. */
  ghost function Pairs(n: int): int {
    n * (n - 1) / 2
  }

  lemma PairsStart()
    ensures Pairs(0) == 0 && Pairs(1) == 0
  {
  }

  lemma PairsStep(n: int)
    ensures Pairs(n + 1) == Pairs(n) + n
  {
    assert (n + 1) * n == n * (n - 1) + 2 * n;
  }

  lemma PairsPositive(n: int)
    requires 0 <= n
    ensures 0 <= Pairs(n)
    ensures n <= 16 ==> Pairs(n) <= 8 * n
  {
    if 0 < n {
      MulOrder(0, n - 1, n);
    }
    if n <= 16 {
      MulOrder(n - 1, 15, n);
    }
  }

  // ---------- the pivot ----------

  /** The position, among the three, of an elem that is neither greater than both others nor less than both. */
  method Median3<T(!new)>(a: array<T>, lo: int, i: int, j: int, k: int, cmp: (T, T) -> int, ghost h: seq<T>)
    returns (m: int, ghost cost: int)
    requires IsOrder(cmp)
    requires 0 <= lo && lo + |h| <= a.Length && 0 <= i < |h| && 0 <= j < |h| && 0 <= k < |h|
    requires forall n :: 0 <= n < |h| ==> a[lo + n] == h[n]
    ensures m == i || m == j || m == k
    ensures cost == 3 && IsMedian(cmp, h, m, i, j, k)
    ensures Below(cmp, h[m], h[i], h[j], h[k]) && Below(Flip(cmp), h[m], h[i], h[j], h[k])
  {
    cost := 3;
    assert a[lo + i] == h[i] && a[lo + j] == h[j] && a[lo + k] == h[k];
    var ij, ik, jk := cmp(a[lo + i], a[lo + j]), cmp(a[lo + i], a[lo + k]), cmp(a[lo + j], a[lo + k]);
    if (ij <= 0 && ik >= 0) || (ij >= 0 && ik <= 0) {
      return i, cost;
    }
    if (ij <= 0 && jk <= 0) || (ij >= 0 && jk >= 0) {
      return j, cost;
    }
    return k, cost;
  }

  /** At least two of the three are not less than m. */
  ghost predicate Below<T>(cmp: (T, T) -> int, m: T, x: T, y: T, z: T) {
    || (cmp(m, x) <= 0 && cmp(m, y) <= 0)
    || (cmp(m, x) <= 0 && cmp(m, z) <= 0)
    || (cmp(m, y) <= 0 && cmp(m, z) <= 0)
  }

  /** m is where Median3 may point to among three positions. */
  ghost predicate IsMedian<T>(cmp: (T, T) -> int, h: seq<T>, m: int, i: int, j: int, k: int) {
    && 0 <= m < |h| && 0 <= i < |h| && 0 <= j < |h| && 0 <= k < |h|
    && (m == i || m == j || m == k)
    && Below(cmp, h[m], h[i], h[j], h[k]) && Below(Flip(cmp), h[m], h[i], h[j], h[k])
  }

  /** m is a median of medians of the nine positions sampled: three at either end of [left, right] and three in its
      middle, an eighth of the range apart. */
  ghost predicate IsNinther<T>(cmp: (T, T) -> int, h: seq<T>, m: int, left: int, right: int) {
    var len := right - left + 1;
    var mid, step := left + len / 2, len / 8;
    exists l, c, r ::
      && IsMedian(cmp, h, l, left, left + step, left + 2 * step)
      && IsMedian(cmp, h, c, mid - step, mid, mid + step)
      && IsMedian(cmp, h, r, right - 2 * step, right - step, right)
      && IsMedian(cmp, h, m, l, c, r)
  }

  /** A median of three medians; every position sampled lies in [left, right]. */
  method Ninther<T(!new)>(a: array<T>, lo: int, left: int, right: int, cmp: (T, T) -> int, ghost h: seq<T>)
    returns (m: int, ghost cost: int)
    requires IsOrder(cmp)
    requires 0 <= lo && lo + |h| <= a.Length && 0 <= left < right < |h|
    requires forall n :: 0 <= n < |h| ==> a[lo + n] == h[n]
    ensures left <= m <= right && IsNinther(cmp, h, m, left, right)
    ensures cost == 12
  {
    hide *;
    var len := right - left + 1;
    var mid := left + len / 2;
    var step := len / 8;
    SampleBounds(left, right);
    var l, c, r;
    ghost var c1, c2, c3, c4;
    l, c1 := Median3(a, lo, left, left + step, left + 2 * step, cmp, h);
    c, c2 := Median3(a, lo, mid - step, mid, mid + step, cmp, h);
    r, c3 := Median3(a, lo, right - 2 * step, right - step, right, cmp, h);
    m, c4 := Median3(a, lo, l, c, r, cmp, h);
    cost := c1 + c2 + c3 + c4;
    NintherIs(cmp, h, m, left, right, l, c, r);
  }

  lemma NintherIs<T>(cmp: (T, T) -> int, h: seq<T>, m: int, left: int, right: int, l: int, c: int, r: int)
    requires var len := right - left + 1;
             var mid, step := left + len / 2, len / 8;
             && IsMedian(cmp, h, l, left, left + step, left + 2 * step)
             && IsMedian(cmp, h, c, mid - step, mid, mid + step)
             && IsMedian(cmp, h, r, right - 2 * step, right - step, right)
             && IsMedian(cmp, h, m, l, c, r)
    ensures IsNinther(cmp, h, m, left, right)
  {
    hide IsMedian;
  }

  lemma SampleBounds(left: int, right: int)
    requires left < right
    ensures var len := right - left + 1; var mid, step := left + len / 2, len / 8;
            0 <= step && left + 2 * step <= right && left <= mid - step && mid + step <= right
              && left <= right - 2 * step
  {
  }

  // ---------- the three-way split ----------

  /** Below lt everything is less than the elem at lt, in [lt, gt] equal to it, above gt greater. */
  ghost predicate Split3<T>(cmp: (T, T) -> int, h: seq<T>, left: int, lt: int, gt: int, right: int) {
    && 0 <= left <= lt <= gt <= right < |h|
    && (forall k :: left <= k < lt ==> cmp(h[k], h[lt]) < 0)
    && (forall k :: lt <= k <= gt ==> cmp(h[k], h[lt]) == 0)
    && (forall k :: gt < k <= right ==> cmp(h[k], h[lt]) > 0)
  }

  /** The loop's picture half way: [left, lo) less, [lo, i) equal, [i, hi] untouched, (hi, right] greater. */
  ghost predicate Splitting<T>(cmp: (T, T) -> int, h: seq<T>, left: int, l: int, i: int, hi: int, right: int) {
    && 0 <= left <= l < i <= hi + 1 <= right + 1 <= |h|
    && (forall k :: left <= k < l ==> cmp(h[k], h[l]) < 0)
    && (forall k :: l <= k < i ==> cmp(h[k], h[l]) == 0)
    && (forall k :: hi < k <= right ==> cmp(h[k], h[l]) > 0)
  }

  lemma SplittingLess<T(!new)>(cmp: (T, T) -> int, h: seq<T>, left: int, l: int, i: int, hi: int, right: int)
    requires IsOrder(cmp) && Splitting(cmp, h, left, l, i, hi, right) && i <= hi && cmp(h[i], h[l]) < 0
    ensures Splitting(cmp, Swap(h, i, l), left, l + 1, i + 1, hi, right)
  {
    var r := Swap(h, i, l);
    assert r[l + 1] == if l + 1 == i then h[l] else h[l + 1];
    assert cmp(h[l + 1], h[l]) == 0 || l + 1 == i;
    forall k | left <= k < l + 1 ensures cmp(r[k], r[l + 1]) < 0 {
      assert k < l ==> cmp(h[k], h[l]) < 0;
      EqualRight(cmp, if k == l then h[i] else h[k], h[l], r[l + 1]);
    }
    forall k | l + 1 <= k < i + 1 ensures cmp(r[k], r[l + 1]) == 0 {
      assert r[k] == if k == i then h[l] else h[k];
      EqualRight(cmp, r[k], h[l], r[l + 1]);
    }
    forall k | hi < k <= right ensures cmp(r[k], r[l + 1]) > 0 {
      EqualRight(cmp, h[k], h[l], r[l + 1]);
    }
  }

  lemma EqualRight<T(!new)>(cmp: (T, T) -> int, x: T, y: T, z: T)
    requires IsOrder(cmp) && cmp(z, y) == 0
    ensures cmp(x, y) < 0 <==> cmp(x, z) < 0
    ensures cmp(x, y) > 0 <==> cmp(x, z) > 0
  {
    assert cmp(x, y) <= 0 ==> cmp(x, z) <= 0;
    assert cmp(x, z) <= 0 ==> cmp(x, y) <= 0;
    assert cmp(y, x) <= 0 ==> cmp(z, x) <= 0;
    assert cmp(z, x) <= 0 ==> cmp(y, x) <= 0;
  }

  lemma SplittingGreater<T>(cmp: (T, T) -> int, h: seq<T>, left: int, l: int, i: int, hi: int, right: int)
    requires Splitting(cmp, h, left, l, i, hi, right) && i <= hi && cmp(h[i], h[l]) > 0
    ensures Splitting(cmp, Swap(h, i, hi), left, l, i, hi - 1, right)
  {
  }

  lemma SplittingEqual<T>(cmp: (T, T) -> int, h: seq<T>, left: int, l: int, i: int, hi: int, right: int)
    requires Splitting(cmp, h, left, l, i, hi, right) && i <= hi && cmp(h[i], h[l]) == 0
    ensures Splitting(cmp, h, left, l, i + 1, hi, right)
  {
  }

  lemma SplittingEnds<T(!new)>(cmp: (T, T) -> int, h: seq<T>, left: int, l: int, i: int, hi: int, right: int)
    requires IsOrder(cmp) && 0 <= left <= right < |h|
    ensures l == left && i == left + 1 && hi == right ==> Splitting(cmp, h, left, l, i, hi, right)
    ensures Splitting(cmp, h, left, l, i, hi, right) && i > hi ==> Split3(cmp, h, left, l, hi, right)
  {
  }

  lemma PivotFirst<T(!new)>(cmp: (T, T) -> int, h: seq<T>, left: int, pivot: int)
    requires IsOrder(cmp) && 0 <= left < |h| && 0 <= pivot < |h|
    ensures cmp(Swap(h, left, pivot)[left], h[pivot]) == 0
  {
  }

  lemma Elsewhere<T>(h: seq<T>, i: int, j: int, k: int)
    requires 0 <= i < |h| && 0 <= j < |h| && 0 <= k < |h| && k != i && k != j
    ensures Swap(h, i, j)[k] == h[k]
  {
  }

  /** A step of the split moves the pivot's run along, and nothing else into it. */
  lemma PivotMoves<T(!new)>(cmp: (T, T) -> int, h: seq<T>, left: int, l: int, i: int, hi: int, right: int, x: T)
    requires IsOrder(cmp) && Splitting(cmp, h, left, l, i, hi, right) && i <= hi && cmp(h[l], x) == 0
    ensures cmp(Swap(h, i, l)[l + 1], x) == 0
  {
    var y := Swap(h, i, l)[l + 1];
    assert l + 1 < i ==> cmp(h[l + 1], h[l]) == 0;
    assert cmp(h[l], h[l]) == 0;
    EqualRight(cmp, y, h[l], x);
  }

  /** Splits [left, right] into less, equal and greater than the elem at pivot; one comparison for every other elem. */
  method Partition3<T(!new)>(a: array<T>, base: int, left: int, right: int, pivot: int, cmp: (T, T) -> int,
                             ghost h0: seq<T>)
    returns (lt: int, gt: int, ghost h: seq<T>, ghost cost: int)
    requires IsOrder(cmp)
    requires 0 <= base && base + |h0| <= a.Length && 0 <= left <= pivot <= right < |h0|
    requires forall k :: 0 <= k < |h0| ==> a[base + k] == h0[k]
    modifies a
    ensures |h| == |h0| && Within(h, h0, left, right) && Split3(cmp, h, left, lt, gt, right)
    ensures left <= lt <= gt <= right && cost == right - left
    ensures cmp(h[lt], h0[pivot]) == 0
    ensures forall k :: 0 <= k < |h| ==> a[base + k] == h[k]
    ensures forall k :: 0 <= k < base || base + |h| <= k < a.Length ==> a[k] == old(a[k])
  {
    hide *;
    assert Within(h0, h0, left, right) by {
      WithinRefl(h0, left, right);
    }
    WithinSwap(h0, h0, left, right, left, pivot);
    h := SwapElems(a, base, left, pivot, h0);
    ghost var x := h0[pivot];
    PivotFirst(cmp, h0, left, pivot);
    cost := 0;
    var l, i, hi := left, left + 1, right;
    SplittingEnds(cmp, h, left, l, i, hi, right);
    while i <= hi
      invariant left <= l < i <= hi + 1 <= right + 1 && |h| == |h0|
      invariant cost + (hi + 1 - i) == right - left
      invariant Within(h, h0, left, right) && Splitting(cmp, h, left, l, i, hi, right)
      invariant cmp(h[l], x) == 0
      invariant forall k :: 0 <= k < |h| ==> a[base + k] == h[k]
      invariant forall k :: 0 <= k < base || base + |h| <= k < a.Length ==> a[k] == old(a[k])
    {
      assert a[base + i] == h[i] && a[base + l] == h[l];
      var c := cmp(a[base + i], a[base + l]);
      cost := cost + 1;
      if c < 0 {
        PivotMoves(cmp, h, left, l, i, hi, right, x);
        SplittingLess(cmp, h, left, l, i, hi, right);
        WithinSwap(h, h0, left, right, i, l);
        h := SwapElems(a, base, i, l, h);
        l, i := l + 1, i + 1;
      } else if c > 0 {
        SplittingGreater(cmp, h, left, l, i, hi, right);
        Elsewhere(h, i, hi, l);
        WithinSwap(h, h0, left, right, i, hi);
        h := SwapElems(a, base, i, hi, h);
        hi := hi - 1;
      } else {
        SplittingEqual(cmp, h, left, l, i, hi, right);
        i := i + 1;
      }
    }
    SplittingEnds(cmp, h, left, l, i, hi, right);
    lt, gt := l, hi;
  }
}
