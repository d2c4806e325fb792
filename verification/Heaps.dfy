/** Heaps kept in spans, a greatest elem first (src/algo/heap.c). The heap argument is carried out on the sequence h of
    the span's elems; the array methods keep that sequence and the span in step. Ghost results count the comparisons
    made. */
module Heaps {
  import opened Ordering
  import opened Counting
  import opened Spans

  function Parent(c: int): int {
    (c - 1) / 2
  }

  /** Among the first len elems every parent is at least as great as its children, as far as parents from `from` on are
      concerned. */
  ghost predicate HeapFrom<T>(cmp: (T, T) -> int, h: seq<T>, len: int, from: int) {
    len <= |h| && forall c :: 1 <= c < len && from <= Parent(c) ==> cmp(h[Parent(c)], h[c]) >= 0
  }

  ghost predicate IsHeap<T>(cmp: (T, T) -> int, h: seq<T>) {
    HeapFrom(cmp, h, |h|, 0)
  }

  /** The heap but for the elem at hole, which may be too small for its children. */
  ghost predicate HeapBut<T>(cmp: (T, T) -> int, h: seq<T>, len: int, from: int, hole: int) {
    && from <= hole < len <= |h|
    && (forall c :: 1 <= c < len && from <= Parent(c) != hole ==> cmp(h[Parent(c)], h[c]) >= 0)
    && (from <= Parent(hole) && 1 <= hole ==>
         forall c :: 1 <= c < len && Parent(c) == hole ==> cmp(h[Parent(hole)], h[c]) >= 0)
  }

  /** The root of a heap is a greatest elem. */
  lemma {:induction false} HeapTop<T(!new)>(cmp: (T, T) -> int, h: seq<T>, len: int, k: int)
    requires IsOrder(cmp) && HeapFrom(cmp, h, len, 0) && 0 <= k < len
    ensures cmp(h[k], h[0]) <= 0
    decreases k
  {
    if k > 0 {
      HeapTop(cmp, h, len, Parent(k));
    }
  }

  /** best is a greatest child of hole. */
  ghost predicate IsBestChild<T>(cmp: (T, T) -> int, h: seq<T>, len: int, hole: int, best: int) {
    0 <= hole < best < len <= |h| && Parent(best) == hole
    && forall c :: 1 <= c < len && Parent(c) == hole ==> cmp(h[c], h[best]) <= 0
  }

  lemma SiftDownStart<T>(cmp: (T, T) -> int, h: seq<T>, len: int, from: int)
    requires 0 <= from <= len <= |h| && HeapFrom(cmp, h, len, from + 1)
    ensures from < len ==> HeapBut(cmp, h, len, from, from)
    ensures from == len ==> HeapFrom(cmp, h, len, from)
  {
  }

  lemma SiftDownStep<T(!new)>(cmp: (T, T) -> int, h: seq<T>, len: int, from: int, hole: int, best: int)
    requires IsOrder(cmp) && 0 <= from && HeapBut(cmp, h, len, from, hole)
    requires IsBestChild(cmp, h, len, hole, best) && cmp(h[hole], h[best]) < 0
    ensures HeapBut(cmp, Swap(h, hole, best), len, from, best)
  {
    var r := Swap(h, hole, best);
    forall c | 1 <= c < len && from <= Parent(c) != best ensures cmp(r[Parent(c)], r[c]) >= 0 {
      assert cmp(h[best], h[c]) >= 0 || Parent(c) != hole;
      assert Parent(c) != hole ==> cmp(h[Parent(c)], h[c]) >= 0;
    }
    forall c | 1 <= c < len && Parent(c) == best ensures cmp(r[Parent(best)], r[c]) >= 0 {
      assert cmp(h[Parent(c)], h[c]) >= 0;
    }
  }

  lemma SiftDownStop<T(!new)>(cmp: (T, T) -> int, h: seq<T>, len: int, from: int, hole: int, best: int)
    requires IsOrder(cmp) && HeapBut(cmp, h, len, from, hole)
    requires IsBestChild(cmp, h, len, hole, best) && cmp(h[hole], h[best]) >= 0
    ensures HeapFrom(cmp, h, len, from)
  {
    forall c | 1 <= c < len && from <= Parent(c) ensures cmp(h[Parent(c)], h[c]) >= 0 {
      if Parent(c) == hole {
        assert cmp(h[c], h[best]) <= 0 && cmp(h[best], h[hole]) <= 0;
      }
    }
  }

  lemma SiftDownLeaf<T>(cmp: (T, T) -> int, h: seq<T>, len: int, from: int, hole: int)
    requires HeapBut(cmp, h, len, from, hole) && 2 * hole + 1 >= len
    ensures HeapFrom(cmp, h, len, from)
  {
  }

  /** How many levels lie below the i-th elem of a heap of n, counting elems from 1: its children are the elems 2 i and
      2 i + 1. */
  ghost function Height(i: int, n: int): (h: int)
    requires 0 < i
    ensures 0 <= h
    decreases n - i
  {
    if 2 * i > n then 0 else 1 + Height(2 * i, n)
  }

  lemma {:induction false} HeightMonotone(i: int, j: int, n: int)
    requires 0 < i <= j
    ensures Height(j, n) <= Height(i, n)
    decreases n - i
  {
    if 2 * j <= n {
      HeightMonotone(2 * i, 2 * j, n);
    }
  }

  /** Going from hole to a child takes one level off the height that is left. */
  lemma LevelDown(hole: int, best: int, len: int)
    requires 0 <= hole && 2 * hole + 1 <= best < len
    ensures Height(best + 1, len) + 1 <= Height(hole + 1, len)
  {
    HeightMonotone(2 * (hole + 1), best + 1, len);
  }

  lemma {:induction false} HeightHalved(i: int, n: int)
    requires 0 < i
    ensures Height(2 * i, n) == Height(i, n / 2)
    decreases n - i
  {
    if 4 * i <= n {
      HeightHalved(2 * i, n);
    }
  }

  /** The root has floor(log2 n) levels below it. */
  lemma {:induction false} RootHeight(n: int)
    ensures Height(1, n) == Log2(n)
    decreases n
  {
    if n > 1 {
      HeightHalved(1, n);
      RootHeight(n / 2);
    }
  }

  /** The heights of the first k elems together. */
  ghost function Heights(n: int, k: int): (r: int)
    ensures 0 <= r
  {
    if k <= 0 then 0 else Heights(n, k - 1) + Height(k, n)
  }

  lemma {:induction false} HeightsHalved(n: int, k: int)
    requires 0 <= k <= n / 2
    ensures Heights(n, k) == k + Heights(n / 2, k)
    decreases k
  {
    if k > 0 {
      HeightsHalved(n, k - 1);
      HeightHalved(k, n);
    }
  }

  lemma {:induction false} LeavesAdd(n: int, k: int)
    requires 0 <= n && n / 2 <= k
    ensures Heights(n, k) == Heights(n, n / 2)
    decreases k
  {
    if n / 2 < k {
      LeavesAdd(n, k - 1);
    }
  }

  /** All heights together are no more than the elems: most of a heap is near its leaves. */
  lemma {:induction false} HeightsAreFew(n: int)
    requires 0 <= n
    ensures Heights(n, n / 2) <= n
    decreases n
  {
    if n > 1 {
      HeightsHalved(n, n / 2);
      HeightsAreFew(n / 2);
      LeavesAdd(n / 2, n / 2);
    }
  }

  /** A child of hole that is not less than the other; the left one when the two are equal. */
  method PickChild<T(!new)>(a: array<T>, lo: int, hole: int, len: int, cmp: (T, T) -> int, ghost h: seq<T>)
    returns (best: int)
    requires IsOrder(cmp)
    requires 0 <= lo && lo + |h| <= a.Length && 0 <= hole && 2 * hole + 1 < len <= |h|
    requires forall k :: 0 <= k < |h| ==> a[lo + k] == h[k]
    ensures 2 * hole + 1 <= best < len && best <= 2 * hole + 2 && IsBestChild(cmp, h, len, hole, best)
    ensures cmp(h[2 * hole + 1], h[best]) == 0 ==> best == 2 * hole + 1
  {
    best := 2 * hole + 1;
    var right := best + 1;
    assert a[lo + best] == h[best];
    if right < len && cmp(a[lo + best], a[lo + right]) < 0 {
      best := right;
    }
    forall c | 1 <= c < len && Parent(c) == hole ensures cmp(h[c], h[best]) <= 0 {
      assert c == 2 * hole + 1 || c == 2 * hole + 2;
    }
  }

  /** Where the order holds already, the elem at from is not less than its best child. */
  lemma InPlace<T>(cmp: (T, T) -> int, h: seq<T>, len: int, from: int, best: int)
    requires HeapFrom(cmp, h, len, from) && 0 <= from && 2 * from + 1 <= best <= 2 * from + 2 && best < len
    ensures cmp(h[from], h[best]) >= 0
  {
    assert Parent(best) == from;
  }

  lemma HeapFromLater<T>(cmp: (T, T) -> int, h: seq<T>, len: int, from: int)
    requires HeapFrom(cmp, h, len, 0) && 0 <= from
    ensures HeapFrom(cmp, h, len, from)
  {
  }

  /** Extends the heap order of the first len elems from the parents behind idx to idx itself; at most two comparisons
      for every level below idx. */
  method SiftDown<T(!new)>(a: array<T>, lo: int, idx: int, len: int, cmp: (T, T) -> int, ghost h0: seq<T>)
    returns (ghost h: seq<T>, ghost cost: int)
    requires IsOrder(cmp)
    requires 0 <= lo && lo + |h0| <= a.Length && 0 <= idx <= len <= |h0|
    requires forall k :: 0 <= k < |h0| ==> a[lo + k] == h0[k]
    requires HeapFrom(cmp, h0, len, idx + 1)
    modifies a
    ensures |h| == |h0| && multiset(h) == multiset(h0)
    ensures HeapFrom(cmp, h, len, idx)
    ensures HeapFrom(cmp, h0, len, idx) ==> h == h0
    ensures forall k :: 0 <= k < |h| ==> a[lo + k] == h[k]
    ensures forall k :: len <= k < |h| ==> h[k] == h0[k]
    ensures forall k :: 0 <= k < lo || lo + |h| <= k < a.Length ==> a[k] == old(a[k])
    ensures 0 <= cost <= 2 * Height(idx + 1, len) && (2 * idx + 1 < len ==> 2 <= cost)
  {
    hide *;
    h, cost := h0, 0;
    SiftDownStart(cmp, h, len, idx);
    if idx == len {
      return;
    }
    var hole := idx;
    while 2 * hole + 1 < len
      invariant idx <= hole < len && |h| == |h0| && multiset(h) == multiset(h0)
      invariant HeapBut(cmp, h, len, idx, hole)
      invariant HeapFrom(cmp, h0, len, idx) ==> h == h0 && hole == idx
      invariant forall k :: 0 <= k < |h| ==> a[lo + k] == h[k]
      invariant forall k :: len <= k < |h| ==> h[k] == h0[k]
      invariant forall k :: 0 <= k < lo || lo + |h| <= k < a.Length ==> a[k] == old(a[k])
      invariant 0 <= cost && cost + 2 * Height(hole + 1, len) <= 2 * Height(idx + 1, len)
      invariant hole == idx || 2 <= cost
      decreases len - hole
    {
      var best := PickChild(a, lo, hole, len, cmp, h);
      LevelDown(hole, best, len);
      if HeapFrom(cmp, h0, len, idx) {
        InPlace(cmp, h, len, hole, best);
      }
      cost := cost + 2;
      assert a[lo + hole] == h[hole] && a[lo + best] == h[best];
      if cmp(a[lo + hole], a[lo + best]) >= 0 {
        SiftDownStop(cmp, h, len, idx, hole, best);
        return;
      }
      SiftDownStep(cmp, h, len, idx, hole, best);
      h := SwapElems(a, lo, hole, best, h);
      hole := best;
    }
    SiftDownLeaf(cmp, h, len, idx, hole);
  }

  /** Rearranges the whole span a[lo..hi] into a heap by sifting down every elem that is not a leaf, the root last: at
      most two comparisons per elem. */
  method MakeHeap<T(!new)>(a: array<T>, lo: int, hi: int, cmp: (T, T) -> int, ghost h0: seq<T>)
    returns (ghost h: seq<T>, ghost cost: int)
    requires IsOrder(cmp)
    requires 0 <= lo <= hi <= a.Length && |h0| == hi - lo
    requires forall k :: 0 <= k < |h0| ==> a[lo + k] == h0[k]
    modifies a
    ensures |h| == |h0| && multiset(h) == multiset(h0) && HeapFrom(cmp, h, |h|, 0)
    ensures HeapFrom(cmp, h0, |h0|, 0) ==> h == h0
    ensures forall k :: 0 <= k < |h| ==> a[lo + k] == h[k]
    ensures forall k :: 0 <= k < lo || hi <= k < a.Length ==> a[k] == old(a[k])
    ensures |h| - 1 <= cost <= 2 * |h| && 0 <= cost
  {
    hide *;
    h, cost := h0, 0;
    var i := (hi - lo) / 2;
    LeavesAreHeaps(cmp, h);
    while i > 0
      invariant 0 <= i <= |h| / 2 && |h| == |h0| && multiset(h) == multiset(h0)
      invariant HeapFrom(cmp, h, |h|, i)
      invariant HeapFrom(cmp, h0, |h0|, 0) ==> h == h0
      invariant forall k :: 0 <= k < |h| ==> a[lo + k] == h[k]
      invariant forall k :: 0 <= k < lo || hi <= k < a.Length ==> a[k] == old(a[k])
      invariant 2 * (|h| / 2 - i) <= cost && cost + 2 * Heights(|h|, i) <= 2 * Heights(|h|, |h| / 2)
    {
      if HeapFrom(cmp, h0, |h0|, 0) {
        HeapFromLater(cmp, h0, |h0|, i - 1);
      }
      ghost var c;
      h, c := SiftDown(a, lo, i - 1, hi - lo, cmp, h);
      HeightsStep(|h|, i);
      cost := cost + c;
      i := i - 1;
    }
    HeightsAreFew(|h|);
    HeightsStep(|h|, i);
  }

  lemma HeightsStep(n: int, k: int)
    ensures 0 < k ==> Heights(n, k) == Heights(n, k - 1) + Height(k, n)
    ensures 0 <= Heights(n, k)
  {
  }

  lemma LeavesAreHeaps<T>(cmp: (T, T) -> int, h: seq<T>)
    ensures HeapFrom(cmp, h, |h|, |h| / 2)
  {
  }

  lemma AddOne(cost: int, n: int, each: int, c: int)
    requires cost <= n * each && c <= each
    ensures cost + c <= (n + 1) * each
  {
    assert (n + 1) * each == n * each + each;
  }

  // ---------- push and pop ----------

  /** The heap but for the elem at hole, which may be too great for its parent. */
  ghost predicate HeapButUp<T>(cmp: (T, T) -> int, h: seq<T>, hole: int) {
    && 0 <= hole < |h|
    && (forall c :: 1 <= c < |h| && c != hole ==> cmp(h[Parent(c)], h[c]) >= 0)
    && (1 <= hole ==> forall c :: 1 <= c < |h| && Parent(c) == hole ==> cmp(h[Parent(hole)], h[c]) >= 0)
  }

  lemma SiftUpStart<T>(cmp: (T, T) -> int, h: seq<T>)
    requires h != [] && HeapFrom(cmp, h, |h| - 1, 0)
    ensures HeapButUp(cmp, h, |h| - 1)
  {
  }

  lemma SiftUpStep<T(!new)>(cmp: (T, T) -> int, h: seq<T>, hole: int)
    requires IsOrder(cmp) && HeapButUp(cmp, h, hole) && 0 < hole && cmp(h[Parent(hole)], h[hole]) < 0
    ensures HeapButUp(cmp, Swap(h, hole, Parent(hole)), Parent(hole))
  {
    var p := Parent(hole);
    var r := Swap(h, hole, p);
    forall c | 1 <= c < |h| && c != p ensures cmp(r[Parent(c)], r[c]) >= 0 {
      assert c != hole ==> cmp(h[Parent(c)], h[c]) >= 0;
    }
    if 1 <= p {
      forall c | 1 <= c < |h| && Parent(c) == p ensures cmp(r[Parent(p)], r[c]) >= 0 {
        assert cmp(h[Parent(p)], h[p]) >= 0;
        assert c != hole ==> cmp(h[p], h[c]) >= 0;
      }
    }
  }

  lemma SiftUpStop<T>(cmp: (T, T) -> int, h: seq<T>, hole: int)
    requires HeapButUp(cmp, h, hole) && (hole > 0 ==> cmp(h[Parent(hole)], h[hole]) >= 0)
    ensures HeapFrom(cmp, h, |h|, 0)
  {
  }

  /** Takes the last elem into the heap the others form: one comparison for every level above it at most. */
  method PushHeap<T(!new)>(a: array<T>, lo: int, hi: int, cmp: (T, T) -> int, ghost h0: seq<T>)
    returns (ghost h: seq<T>, ghost cost: int)
    requires IsOrder(cmp)
    requires 0 <= lo < hi <= a.Length && |h0| == hi - lo
    requires forall k :: 0 <= k < |h0| ==> a[lo + k] == h0[k]
    requires HeapFrom(cmp, h0, |h0| - 1, 0)
    modifies a
    ensures |h| == |h0| && multiset(h) == multiset(h0) && HeapFrom(cmp, h, |h|, 0)
    ensures HeapFrom(cmp, h0, |h0|, 0) ==> h == h0 && cost <= 1
    ensures 0 <= cost <= Log2(|h|) && (1 < |h| ==> 1 <= cost)
    ensures forall k :: 0 <= k < |h| ==> a[lo + k] == h[k]
    ensures forall k :: 0 <= k < lo || hi <= k < a.Length ==> a[k] == old(a[k])
  {
    hide HeapFrom, HeapButUp, IsOrder, Swap, Log2;
    h, cost := h0, 0;
    SiftUpStart(cmp, h);
    var idx := hi - lo - 1;
    while idx > 0
      invariant 0 <= idx < |h| == |h0| && multiset(h) == multiset(h0)
      invariant HeapButUp(cmp, h, idx)
      invariant HeapFrom(cmp, h0, |h0|, 0) ==> h == h0 && idx == |h| - 1 && cost == 0
      invariant 0 <= cost && cost + Log2(idx + 1) <= Log2(|h|) && (idx < |h| - 1 ==> 1 <= cost)
      invariant forall k :: 0 <= k < |h| ==> a[lo + k] == h[k]
      invariant forall k :: 0 <= k < lo || hi <= k < a.Length ==> a[k] == old(a[k])
    {
      var parent := Parent(idx);
      LevelUp(idx);
      if HeapFrom(cmp, h0, |h0|, 0) {
        InPlaceUp(cmp, h, idx);
      }
      cost := cost + 1;
      assert a[lo + idx] == h[idx] && a[lo + parent] == h[parent];
      if cmp(a[lo + parent], a[lo + idx]) >= 0 {
        break;
      }
      SiftUpStep(cmp, h, idx);
      h := SwapElems(a, lo, idx, parent, h);
      idx := parent;
    }
    SiftUpStop(cmp, h, idx);
  }

  lemma InPlaceUp<T>(cmp: (T, T) -> int, h: seq<T>, idx: int)
    requires HeapFrom(cmp, h, |h|, 0) && 0 < idx < |h|
    ensures cmp(h[Parent(idx)], h[idx]) >= 0
  {
  }

  lemma LevelUp(idx: int)
    requires 0 < idx
    ensures Log2(Parent(idx) + 1) + 1 == Log2(idx + 1)
    ensures 0 <= Log2(Parent(idx) + 1)
  {
    assert (idx + 1) / 2 == Parent(idx) + 1;
  }

  /** Puts the root at position len - 1 and makes a heap of the len - 1 elems before it; what stands behind is not
      touched. */
  method PopHeap<T(!new)>(a: array<T>, lo: int, len: int, cmp: (T, T) -> int, ghost h0: seq<T>)
    returns (ghost h: seq<T>, ghost cost: int)
    requires IsOrder(cmp)
    requires 0 <= lo && lo + |h0| <= a.Length && 0 < len <= |h0|
    requires forall k :: 0 <= k < |h0| ==> a[lo + k] == h0[k]
    requires HeapFrom(cmp, h0, len, 0)
    modifies a
    ensures |h| == |h0| && multiset(h) == multiset(h0) && HeapFrom(cmp, h, len - 1, 0)
    ensures forall k :: 0 <= k < |h| ==> a[lo + k] == h[k]
    ensures h[len - 1] == h0[0] && forall k :: len <= k < |h| ==> h[k] == h0[k]
    ensures forall k :: 0 <= k < lo || lo + |h| <= k < a.Length ==> a[k] == old(a[k])
    ensures 0 <= cost <= 2 * Log2(len) && (2 < len ==> 2 <= cost)
  {
    hide HeapFrom, IsOrder, Swap, Log2, Height;
    h, cost := h0, 0;
    PopStart(cmp, h, len);
    Log2Monotone(len - 1, len);
    RootHeight(len - 1);
    if len > 1 {
      h := SwapElems(a, lo, 0, len - 1, h);
      h, cost := SiftDown(a, lo, 0, len - 1, cmp, h);
    }
  }

  lemma PopStart<T>(cmp: (T, T) -> int, h: seq<T>, len: int)
    requires 0 < len <= |h| && HeapFrom(cmp, h, len, 0)
    ensures HeapFrom(cmp, Swap(h, 0, len - 1), len - 1, 1)
    ensures len == 1 ==> HeapFrom(cmp, h, 0, 0)
  {
    var r := Swap(h, 0, len - 1);
    forall c | 1 <= c < len - 1 && 1 <= Parent(c) ensures cmp(r[Parent(c)], r[c]) >= 0 {
      assert cmp(h[Parent(c)], h[c]) >= 0;
    }
  }

  // ---------- sorting by repeated pop ----------

  /** From position len on, no elem is less than one that stands before it. */
  ghost predicate Settled<T>(cmp: (T, T) -> int, h: seq<T>, len: int) {
    forall i, j :: 0 <= i < j < |h| && len <= j ==> cmp(h[i], h[j]) <= 0
  }

  lemma PopSettles<T(!new)>(cmp: (T, T) -> int, h0: seq<T>, h: seq<T>, len: int)
    requires IsOrder(cmp) && 0 < len <= |h| == |h0| && multiset(h) == multiset(h0)
    requires HeapFrom(cmp, h0, len, 0) && Settled(cmp, h0, len)
    requires h[len - 1] == h0[0] && forall k :: len <= k < |h| ==> h[k] == h0[k]
    ensures Settled(cmp, h, len - 1)
  {
    PrefixPerm(h0, h, len);
    forall i, j | 0 <= i < j < |h| && len - 1 <= j ensures cmp(h[i], h[j]) <= 0 {
      if i < len {
        assert h[..len][i] == h[i];
        assert h[i] in multiset(h0[..len]);
        var k :| 0 <= k < len && h0[k] == h[i];
        HeapTop(cmp, h0, len, k);
      }
    }
  }

  lemma PrefixPerm<T>(s: seq<T>, t: seq<T>, n: int)
    requires 0 <= n <= |s| == |t| && multiset(s) == multiset(t)
    requires forall k :: n <= k < |s| ==> s[k] == t[k]
    ensures multiset(s[..n]) == multiset(t[..n])
  {
    assert s[n..] == t[n..];
    assert s == s[..n] + s[n..] && t == t[..n] + t[n..];
    assert multiset(s[..n]) == multiset(s) - multiset(s[n..]);
    assert multiset(t[..n]) == multiset(t) - multiset(t[n..]);
  }

  /** Sorts the heap a[lo..hi] by repeated popping, in at most 2 n log2 n comparisons. */
  method SortHeap<T(!new)>(a: array<T>, lo: int, hi: int, cmp: (T, T) -> int, ghost h0: seq<T>)
    returns (ghost h: seq<T>, ghost cost: int)
    requires IsOrder(cmp)
    requires 0 <= lo <= hi <= a.Length && |h0| == hi - lo
    requires forall k :: 0 <= k < |h0| ==> a[lo + k] == h0[k]
    requires HeapFrom(cmp, h0, |h0|, 0)
    modifies a
    ensures |h| == |h0| && multiset(h) == multiset(h0) && Sorted(cmp, h)
    ensures forall k :: 0 <= k < |h| ==> a[lo + k] == h[k]
    ensures forall k :: 0 <= k < lo || hi <= k < a.Length ==> a[k] == old(a[k])
    ensures 0 <= cost <= |h| * (2 * Log2(|h|)) && 2 * (|h| - 2) <= cost
  {
    hide *;
    h, cost := h0, 0;
    var len := hi - lo;
    ghost var each := 2 * Log2(|h|);
    assert Settled(cmp, h, |h|) by {
      SettledAtEnd(cmp, h);
    }
    while len > 1
      invariant 0 <= len <= |h| == |h0| && multiset(h) == multiset(h0) && (0 < len || |h| == 0)
      invariant HeapFrom(cmp, h, len, 0)
      invariant Settled(cmp, h, len)
      invariant forall k :: 0 <= k < |h| ==> a[lo + k] == h[k]
      invariant forall k :: 0 <= k < lo || hi <= k < a.Length ==> a[k] == old(a[k])
      invariant 0 <= cost <= (|h| - len) * each && 2 * (|h| - if len < 2 then 2 else len) <= cost
    {
      ghost var r, c := PopHeap(a, lo, len, cmp, h);
      PopSettles(cmp, h, r, len);
      Log2Monotone(len, |h|);
      AddOne(cost, |h| - len, each, c);
      h, cost, len := r, cost + c, len - 1;
    }
    SettledIsSorted(cmp, h, len);
    Fewer(|h| - len, |h|, each);
  }

  lemma SettledAtEnd<T>(cmp: (T, T) -> int, h: seq<T>)
    ensures Settled(cmp, h, |h|)
  {
  }

  lemma SettledIsSorted<T>(cmp: (T, T) -> int, h: seq<T>, len: int)
    requires len <= 1 && Settled(cmp, h, len)
    ensures Sorted(cmp, h)
  {
  }

  lemma Fewer(m: int, n: int, each: int)
    requires m <= n && 0 <= each
    ensures m * each <= n * each
  {
  }

  // ---------- the predicate ----------

  /** The length of the longest prefix of s that is a heap. */
  method IsHeapUntil<T>(s: seq<T>, cmp: (T, T) -> int) returns (n: nat)
    ensures n <= |s| && HeapFrom(cmp, s, n, 0)
    ensures forall m :: n < m <= |s| ==> !HeapFrom(cmp, s, m, 0)
  {
    var child := 1;
    while child < |s|
      invariant 1 <= child && (child <= |s| || |s| == 0)
      invariant HeapFrom(cmp, s, if child <= |s| then child else 0, 0)
    {
      var parent := (child - 1) / 2;
      if cmp(s[parent], s[child]) < 0 {
        forall m | child < m <= |s| ensures !HeapFrom(cmp, s, m, 0) {
          assert Parent(child) == parent;
        }
        return child;
      }
      child := child + 1;
    }
    return |s|;
  }
}
