/** The stable sort of a span (tda_span_sort_stable in src/algo/sort.c): passes that merge neighbouring runs, to and
    fro between the span and one buffer of its size. */
module MergeSort {
  import opened Ordering
  import opened Counting
  import opened Bits
  import opened Spans
  import Merging

  /** The largest ptrdiff_t. */
  function PtrdiffMax(): nat { Pow2(WORD - 1) - 1 }

  /** Cut into runs of w elems, the last one possibly shorter, every run is sorted. */
  ghost predicate RunsSorted<T>(cmp: (T, T) -> int, s: seq<T>, w: int)
    decreases |s|
  {
    if |s| <= w || w <= 0 then Sorted(cmp, s)
    else Sorted(cmp, s[..w]) && RunsSorted(cmp, s[w..], w)
  }

  /** Only whole runs of w elems, each sorted. */
  ghost predicate WholeRuns<T>(cmp: (T, T) -> int, s: seq<T>, w: int)
    decreases |s|
  {
    s == [] || (0 < w <= |s| && Sorted(cmp, s[..w]) && WholeRuns(cmp, s[w..], w))
  }

  lemma {:induction false} RunsOfOne<T>(cmp: (T, T) -> int, s: seq<T>)
    ensures RunsSorted(cmp, s, 1)
    decreases |s|
  {
    if |s| > 1 {
      RunsOfOne(cmp, s[1..]);
    }
  }

  lemma {:induction false} AppendRun<T>(cmp: (T, T) -> int, s: seq<T>, c: seq<T>, w: int)
    requires 0 < w && WholeRuns(cmp, s, w) && Sorted(cmp, c) && |c| <= w
    ensures RunsSorted(cmp, s + c, w)
    ensures |c| == w ==> WholeRuns(cmp, s + c, w)
    decreases |s|
  {
    if s == [] {
      assert s + c == c;
      assert c[..|c|] == c && c[|c|..] == [];
    } else {
      AppendRun(cmp, s[w..], c, w);
      assert (s + c)[..w] == s[..w] && (s + c)[w..] == s[w..] + c;
      if |s + c| <= w {
        assert c == [] && s + c == s == s[..w];
      }
    }
  }

  /** The two runs at the front, and the runs behind them. */
  lemma FrontRuns<T>(cmp: (T, T) -> int, s: seq<T>, w: int)
    requires 0 < w && RunsSorted(cmp, s, w)
    ensures var mid := if w < |s| then w else |s|;
            var end := if 2 * w < |s| then 2 * w else |s|;
            Sorted(cmp, s[..mid]) && Sorted(cmp, s[mid..end]) && RunsSorted(cmp, s[end..], w)
  {
    hide Sorted, RunsSorted;
    RunsUnfold(cmp, s, w);
    if |s| <= w {
      assert s[..|s|] == s && s[|s|..] == [];
      RunsUnfold(cmp, s[|s|..], w);
    } else {
      var t := s[w..];
      RunsUnfold(cmp, t, w);
      if |t| <= w {
        assert s[w..|s|] == t && s[|s|..] == [];
        RunsUnfold(cmp, s[|s|..], w);
      } else {
        Subslice(s, w, 0, w);
        Subslice(s, w, w, |t|);
        assert t[w..|t|] == t[w..] && s[2 * w..|s|] == s[2 * w..];
      }
    }
  }

  lemma RunsUnfold<T>(cmp: (T, T) -> int, s: seq<T>, w: int)
    requires 0 < w
    ensures |s| <= w ==> (RunsSorted(cmp, s, w) <==> Sorted(cmp, s))
    ensures s == [] ==> RunsSorted(cmp, s, w)
    ensures w < |s| ==> (RunsSorted(cmp, s, w) <==> Sorted(cmp, s[..w]) && RunsSorted(cmp, s[w..], w))
  {
  }

  lemma Subslice<T>(s: seq<T>, from: int, i: int, j: int)
    requires 0 <= from <= |s| && 0 <= i <= j <= |s| - from
    ensures s[from..][i..j] == s[from + i..from + j]
  {
  }

  /** While fewer than PTRDIFF_MAX elems are sorted, no index a pass computes wraps round. */
  lemma IndexesFit(n: int, width: int, i: int)
    requires n <= PtrdiffMax() && 1 <= width < n && 0 <= i < n && (i == 0 || 2 * width <= i)
    ensures 2 * width <= SizeMax() && i + width <= SizeMax() && i + 2 * width <= SizeMax()
  {
    hide Pow2;
    HalfOfRange();
  }

  lemma HalfOfRange()
    ensures SizeMax() == 2 * PtrdiffMax() + 1
  {
  }

  /** How many runs of w elems there are among n, the last one possibly shorter. */
  ghost function Runs(n: int, w: int): (r: int)
    ensures 0 <= r && (0 < w && 0 < n ==> 1 <= r)
    decreases n
  {
    if n <= 0 || w <= 0 then 0 else 1 + Runs(n - w, w)
  }

  lemma {:induction false} RunsOfOneAre(n: int)
    requires 0 <= n
    ensures Runs(n, 1) == n
  {
    if n > 0 {
      RunsOfOneAre(n - 1);
    }
  }

  /** Two runs become one. */
  lemma RunsMerge(n: int, w: int)
    requires 0 < w
    ensures 0 < n ==> Runs(n, 2 * w) == 1 + Runs(n - 2 * w, 2 * w)
    ensures 0 < n ==> Runs(n, w) == if n <= w then 1 else 2 + Runs(n - 2 * w, w)
    ensures n <= 0 ==> Runs(n, w) == 0 == Runs(n, 2 * w)
    ensures 0 < n <= w ==> Runs(n, w) == 1
  {
  }

  /** The invariant of one pass: dst holds the merged runs of everything before i. */
  ghost predicate Passed<T(!new)>(cmp: (T, T) -> int, h: seq<T>, g: seq<T>, width: int, i: int) {
    && 0 <= i <= |h| && |g| == i
    && RunsSorted(cmp, h[i..], width)
    && StablePerm(cmp, g, h[..i])
    && RunsSorted(cmp, g, 2 * width)
    && (i < |h| ==> WholeRuns(cmp, g, 2 * width))
  }

  lemma PassStart<T(!new)>(cmp: (T, T) -> int, h: seq<T>, width: int)
    requires 0 < width && RunsSorted(cmp, h, width)
    ensures Passed(cmp, h, [], width, 0)
  {
    assert h[0..] == h && h[..0] == [];
    StablePermRefl<T>(cmp, []);
  }

  lemma PassStep<T(!new)>(cmp: (T, T) -> int, h: seq<T>, g: seq<T>, width: int, i: int, mid: int, end: int)
    requires IsOrder(cmp) && 0 < width && i < |h| && Passed(cmp, h, g, width, i)
    requires mid == if i + width < |h| then i + width else |h|
    requires end == if i + 2 * width < |h| then i + 2 * width else |h|
    ensures Passed(cmp, h, g + Merge(cmp, h[i..mid], h[mid..end]), width, end)
  {
    hide IsOrder, Sorted, StablePerm, Merge, RunsSorted, WholeRuns;
    var s, t := h[i..mid], h[mid..end];
    var c := Merge(cmp, s, t);
    var rest := h[i..];
    FrontRuns(cmp, rest, width);
    Subslice(h, i, 0, mid - i);
    Subslice(h, i, mid - i, end - i);
    Subslice(h, i, end - i, |rest|);
    assert rest[end - i..] == rest[end - i..|rest|] && h[end..] == h[end..|h|];
    MergeIsStable(cmp, s, t);
    StablePermConcat(cmp, g, h[..i], c, s + t);
    assert h[..end] == h[..i] + (s + t);
    AppendRun(cmp, g, c, 2 * width);
  }

  lemma PassEnd<T(!new)>(cmp: (T, T) -> int, h: seq<T>, g: seq<T>, width: int)
    requires Passed(cmp, h, g, width, |h|)
    ensures |g| == |h| && StablePerm(cmp, g, h) && RunsSorted(cmp, g, 2 * width)
  {
    assert h[..|h|] == h;
  }

  /** One pass: every pair of neighbouring runs of src is merged into dst. */
  method MergePass<T(!new)>(src: array<T>, so: int, dst: array<T>, d: int, n: int, width: int, cmp: (T, T) -> int,
                            ghost h: seq<T>)
    returns (ghost g: seq<T>, ghost cost: int)
    requires IsOrder(cmp)
    requires src != dst && 0 <= so && so + n <= src.Length && 0 <= d && d + n <= dst.Length && |h| == n
             && 1 <= width < n
    requires forall k :: 0 <= k < n ==> src[so + k] == h[k]
    requires RunsSorted(cmp, h, width)
    modifies dst
    ensures |g| == n && StablePerm(cmp, g, h) && RunsSorted(cmp, g, 2 * width)
    ensures forall k :: 0 <= k < n ==> dst[d + k] == g[k]
    ensures forall k :: 0 <= k < d || d + n <= k < dst.Length ==> dst[k] == old(dst[k])
    ensures 0 <= cost <= n && Runs(n, width) <= cost + Runs(n, 2 * width)
  {
    hide *;
    g, cost := [], 0;
    PassStart(cmp, h, width);
    var i := 0;
    while i < n
      invariant 0 <= i && (i == 0 || 2 * width <= i)
      invariant (i < n || |g| == n) && 0 <= cost <= |g|
      invariant Runs(n, width) + Runs(n - i, 2 * width) <= cost + Runs(n - i, width) + Runs(n, 2 * width)
      invariant |g| <= n && Passed(cmp, h, g, width, |g|) && (i < n ==> |g| == i)
      invariant forall k :: 0 <= k < |g| ==> dst[d + k] == g[k]
      invariant forall k :: 0 <= k < d || d + n <= k < dst.Length ==> dst[k] == old(dst[k])
      decreases n - i
    {
      if n <= PtrdiffMax() {
        IndexesFit(n, width, i);
      }
      var mid := if i + width < n then i + width else n;
      var end := if i + 2 * width < n then i + 2 * width else n;
      ghost var c;
      g, c := MergeRuns(src, so, dst, d, i, mid, end, cmp, h, g);
      PassStep(cmp, h, g[..i], width, i, mid, end);
      RunsMerge(n - i, width);
      i, cost := i + 2 * width, cost + c;
    }
    RunsMerge(n - i, width);
    PassEnd(cmp, h, g, width);
  }

  method MergeRuns<T(!new)>(src: array<T>, so: int, dst: array<T>, d: int, i: int, mid: int, end: int,
                            cmp: (T, T) -> int, ghost h: seq<T>, ghost g0: seq<T>)
    returns (ghost g: seq<T>, ghost cost: int)
    requires src != dst && 0 <= so && so + |h| <= src.Length && 0 <= d && d + |h| <= dst.Length
    requires 0 <= i <= mid <= end <= |h| && |g0| == i
    requires forall k :: 0 <= k < |h| ==> src[so + k] == h[k]
    requires forall k :: 0 <= k < |g0| ==> dst[d + k] == g0[k]
    modifies dst
    ensures g == g0 + Merge(cmp, h[i..mid], h[mid..end]) && |g| == end && g[..i] == g0
    ensures 0 <= cost <= end - i && (i < mid < end ==> 1 <= cost)
    ensures forall k :: 0 <= k < |g| ==> dst[d + k] == g[k]
    ensures forall k :: 0 <= k < d || d + end <= k < dst.Length ==> dst[k] == old(dst[k])
  {
    ghost var c := Merge(cmp, h[i..mid], h[mid..end]);
    assert |c| == end - i;
    hide *;
    cost := MergeSlices(src, so, dst, d, i, mid, end, cmp, h, c);
    g := g0 + c;
    forall k | 0 <= k < |g| ensures dst[d + k] == g[k] {
      if i <= k {
        assert dst[d + i + (k - i)] == c[k - i];
      }
    }
  }

  method MergeSlices<T(!new)>(src: array<T>, so: int, dst: array<T>, d: int, i: int, mid: int, end: int,
                              cmp: (T, T) -> int, ghost h: seq<T>, ghost c: seq<T>)
    returns (ghost cost: int)
    requires src != dst && 0 <= so && so + |h| <= src.Length && 0 <= d && d + |h| <= dst.Length
    requires 0 <= i <= mid <= end <= |h| && c == Merge(cmp, h[i..mid], h[mid..end]) && |c| == end - i
    requires forall k :: 0 <= k < |h| ==> src[so + k] == h[k]
    modifies dst
    ensures 0 <= cost <= end - i && (i < mid < end ==> 1 <= cost)
    ensures forall k :: 0 <= k < |c| ==> dst[d + i + k] == c[k]
    ensures forall k :: 0 <= k < d + i || d + end <= k < dst.Length ==> dst[k] == old(dst[k])
  {
    hide *;
    SubSpan(src, so, h, i, mid);
    SubSpan(src, so, h, mid, end);
    cost := Merging.SpanMerge(dst, d + i, d + end, src, so + i, so + mid, src, so + mid, so + end, cmp);
    SpanElems(dst, d + i, d + end, c);
  }

  /** Sorts the span a[lo..hi] keeping equal elems in order, in at most n ceil(log2 n) comparisons. The buffer may be
      refused, and then nothing has changed. */
  method SpanSortStable<T(0, !new)>(a: array<T>, lo: int, hi: int, cmp: (T, T) -> int, granted: bool)
    returns (ok: bool, ghost cost: int)
    requires IsOrder(cmp)
    requires 0 <= lo <= hi <= a.Length
    modifies a
    ensures ok <==> hi - lo < 2 || granted
    ensures ok ==> a[lo..hi] == StableSorted(cmp, old(a[lo..hi]))
    ensures ok ==> forall k :: 0 <= k < lo || hi <= k < a.Length ==> a[k] == old(a[k])
    ensures 0 <= cost <= (hi - lo) * CeilLog2(hi - lo) && (ok ==> hi - lo - 1 <= cost)
    ensures !ok ==> a[..] == old(a[..])
  {
    ghost var h0 := a[lo..hi];
    assert |h0| < 2 ==> Sorted(cmp, h0);
    StablePermRefl(cmp, h0);
    StableSortedIff(cmp, h0, h0);
    hide *;
    cost := 0;
    MulOrder(0, CeilLog2(hi - lo), hi - lo);
    if hi - lo < 2 {
      return true, cost;
    }
    if !granted {
      return false, cost;
    }
    var buf := new T[hi - lo];
    cost := BottomUp(a, lo, hi, buf, cmp, h0);
    assert a[lo..hi] == StableSorted(cmp, h0);
    return true, cost;
  }

  method BottomUp<T(!new)>(a: array<T>, lo: int, hi: int, buf: array<T>, cmp: (T, T) -> int, ghost h0: seq<T>)
    returns (ghost cost: int)
    requires IsOrder(cmp)
    requires 0 <= lo <= hi <= a.Length && buf.Length == hi - lo == |h0| >= 2 && buf != a
    requires forall k :: 0 <= k < |h0| ==> a[lo + k] == h0[k]
    modifies a, buf
    ensures hi - lo - 1 <= cost <= (hi - lo) * CeilLog2(hi - lo)
    ensures |StableSorted(cmp, h0)| == hi - lo
    ensures forall k :: 0 <= k < hi - lo ==> a[lo + k] == StableSorted(cmp, h0)[k]
    ensures forall k :: 0 <= k < lo || hi <= k < a.Length ==> a[k] == old(a[k])
  {
    hide *;
    var n := hi - lo;
    var src, so, dst, d := a, lo, buf, 0;
    ghost var h := h0;
    StablePermRefl(cmp, h0);
    RunsOfOne(cmp, h0);
    var width := 1;
    cost := 0;
    DoublingsIsLog(n);
    RunsOfOneAre(n);
    while width < n
      invariant 1 <= width && |h| == n
      invariant 0 <= cost && cost + n * Doublings(width, n) <= n * CeilLog2(n) && n <= cost + Runs(n, width)
      invariant (src == a && so == lo && dst == buf && d == 0) || (src == buf && so == 0 && dst == a && d == lo)
      invariant StablePerm(cmp, h, h0) && RunsSorted(cmp, h, width)
      invariant forall k :: 0 <= k < n ==> src[so + k] == h[k]
      invariant forall k :: 0 <= k < lo || hi <= k < a.Length ==> a[k] == old(a[k])
      decreases n - width
    {
      ghost var g, c := MergePass(src, so, dst, d, n, width, cmp, h);
      StablePermTrans(cmp, g, h, h0);
      h := g;
      src, so, dst, d := dst, d, src, so;
      OnePass(n, width, cost, c);
      width, cost := 2 * width, cost + c;
    }
    MulOrder(0, Doublings(width, n), n);
    RunsMerge(n, width);
    OneRun(cmp, h, h0, width);
    if src != a {
      forall k | 0 <= k < n {
        a[lo + k] := src[k];
      }
    }
    forall k | 0 <= k < n ensures a[lo + k] == h[k] {
    }
  }

  /** A pass pays for one of the doublings that are left. */
  lemma OnePass(n: nat, width: nat, cost: int, c: int)
    requires 0 < width < n && c <= n && cost + n * Doublings(width, n) <= n * CeilLog2(n)
    ensures cost + c + n * Doublings(2 * width, n) <= n * CeilLog2(n)
  {
    hide CeilLog2;
    OneLess(n, Doublings(width, n), Doublings(2 * width, n));
  }

  lemma OneLess(n: int, p: int, q: int)
    requires p == q + 1
    ensures n * p == n * q + n
  {
  }

  lemma OneRun<T(!new)>(cmp: (T, T) -> int, h: seq<T>, h0: seq<T>, width: int)
    requires IsOrder(cmp) && StablePerm(cmp, h, h0) && RunsSorted(cmp, h, width) && |h| <= width
    ensures h == StableSorted(cmp, h0) && |StableSorted(cmp, h0)| == |h|
  {
    StableSortedIff(cmp, h, h0);
  }
}
