/** Splitting a span by a predicate (tda_span_partition and its kin in src/algo/permute.c). */
module Partitioning {
  import opened Ordering
  import opened Spans

  /** The elems among the first n of s for which pred is want, in order. */
  ghost function Chosen<T>(pred: T -> bool, want: bool, s: seq<T>, n: int): (r: seq<T>)
    requires n <= |s|
    ensures 0 <= n ==> |r| <= n
    decreases n
  {
    if n <= 0 then [] else Chosen(pred, want, s, n - 1) + if pred(s[n - 1]) == want then [s[n - 1]] else []
  }

  lemma {:induction false} ChosenAll<T>(pred: T -> bool, want: bool, s: seq<T>, n: int)
    requires n <= |s|
    ensures forall k :: 0 <= k < |Chosen(pred, want, s, n)| ==> pred(Chosen(pred, want, s, n)[k]) == want
    decreases n
  {
    if n > 0 {
      ChosenAll(pred, want, s, n - 1);
    }
  }

  lemma {:induction false} ChosenSplit<T>(pred: T -> bool, s: seq<T>, n: int)
    requires 0 <= n <= |s|
    ensures Split(Chosen(pred, true, s, n), Chosen(pred, false, s, n), s[..n])
    decreases n
  {
    hide *;
    if n == 0 {
      ChosenNone(pred, true, s);
      ChosenNone(pred, false, s);
      assert s[..0] == [];
      NothingSplit<T>();
    } else {
      ChosenSplit(pred, s, n - 1);
      ChosenStep(pred, true, s, n - 1);
      ChosenStep(pred, false, s, n - 1);
      var k, d, x := Chosen(pred, true, s, n - 1), Chosen(pred, false, s, n - 1), s[n - 1];
      assert s[..n] == s[..n - 1] + [x];
      OneMore(k, d, s[..n - 1], x);
      if pred(x) {
        assert Chosen(pred, true, s, n) == k + [x] && Chosen(pred, false, s, n) == d;
      } else {
        assert Chosen(pred, true, s, n) == k && Chosen(pred, false, s, n) == d + [x];
      }
    }
  }

  /** k and d together hold what t holds. */
  ghost predicate Split<T>(k: seq<T>, d: seq<T>, t: seq<T>) {
    multiset(k) + multiset(d) == multiset(t) && |k| + |d| == |t|
  }

  lemma SplitSize<T>(k: seq<T>, d: seq<T>, t: seq<T>)
    requires Split(k, d, t)
    ensures |k| + |d| == |t|
  {
  }

  lemma NothingSplit<T>()
    ensures Split<T>([], [], [])
  {
  }

  lemma OneMore<T>(k: seq<T>, d: seq<T>, t: seq<T>, x: T)
    requires Split(k, d, t)
    ensures Split(k + [x], d, t + [x]) && Split(k, d + [x], t + [x])
  {
  }

  lemma ChosenNone<T>(pred: T -> bool, want: bool, s: seq<T>)
    ensures Chosen(pred, want, s, 0) == []
  {
  }

  lemma ChosenStep<T>(pred: T -> bool, want: bool, s: seq<T>, i: int)
    requires 0 <= i < |s|
    ensures Chosen(pred, want, s, i + 1) == Chosen(pred, want, s, i) + if pred(s[i]) == want then [s[i]] else []
    ensures |Chosen(pred, want, s, i)| <= i
  {
  }

  /** Accepted before rejected: the order the predicate puts on the elems. */
  ghost function ByPred<T>(pred: T -> bool): (T, T) -> int {
    (x, y) => (if pred(x) then 0 else 1) - (if pred(y) then 0 else 1)
  }

  lemma ByPredIs<T>(pred: T -> bool, x: T, y: T)
    ensures ByPred(pred)(x, y) == 0 <==> pred(x) == pred(y)
    ensures ByPred(pred)(x, y) <= 0 <==> pred(x) || !pred(y)
  {
  }

  lemma {:induction false} SameChosen<T(!new)>(pred: T -> bool, s: seq<T>, n: int, x: T)
    requires 0 <= n <= |s|
    ensures Same(ByPred(pred), x, s[..n]) == Chosen(pred, pred(x), s, n)
    decreases n
  {
    hide ByPred;
    if n > 0 {
      SameChosen(pred, s, n - 1, x);
      var y := s[n - 1];
      assert s[..n] == s[..n - 1] + [y];
      SameConcat(ByPred(pred), x, s[..n - 1], [y]);
      SameSingle(ByPred(pred), x, y);
      ByPredIs(pred, y, x);
    }
  }

  lemma SameSingle<T>(cmp: (T, T) -> int, x: T, y: T)
    ensures Same(cmp, x, [y]) == if cmp(y, x) == 0 then [y] else []
  {
    assert [y][1..] == [];
  }

  lemma ByPredIsOrder<T(!new)>(pred: T -> bool)
    ensures IsOrder(ByPred(pred))
  {
  }

  lemma ChosenSorted<T>(pred: T -> bool, k: seq<T>, d: seq<T>)
    requires (forall i :: 0 <= i < |k| ==> pred(k[i])) && forall i :: 0 <= i < |d| ==> !pred(d[i])
    ensures Sorted(ByPred(pred), k + d)
  {
    var r := k + d;
    forall i, j | 0 <= i < j < |r| ensures ByPred(pred)(r[i], r[j]) <= 0 {
      ByPredIs(pred, r[i], r[j]);
    }
  }

  lemma ChosenAgrees<T(!new)>(pred: T -> bool, s: seq<T>, x: T)
    ensures Agree(ByPred(pred), x, Chosen(pred, true, s, |s|) + Chosen(pred, false, s, |s|), s)
  {
    hide ByPred, Chosen, Same;
    var c, k, d := ByPred(pred), Chosen(pred, true, s, |s|), Chosen(pred, false, s, |s|);
    SameChosen(pred, s, |s|, x);
    assert s[..|s|] == s;
    SameConcat(c, x, k, d);
    ChosenSame(pred, true, s, x);
    ChosenSame(pred, false, s, x);
    assert k + [] == k && [] + d == d;
  }

  /** The chosen elems are a whole class, or none of it. */
  lemma ChosenSame<T>(pred: T -> bool, want: bool, s: seq<T>, x: T)
    ensures Same(ByPred(pred), x, Chosen(pred, want, s, |s|)) == if pred(x) == want then Chosen(pred, want, s, |s|)
            else []
  {
    hide ByPred, Chosen, Same;
    var r := Chosen(pred, want, s, |s|);
    ChosenAll(pred, want, s, |s|);
    forall i | 0 <= i < |r| ensures ByPred(pred)(r[i], x) == 0 <==> pred(x) == want {
      ByPredIs(pred, r[i], x);
    }
    if pred(x) == want {
      SameAll(ByPred(pred), x, r);
    } else {
      SameNone(ByPred(pred), x, r);
    }
  }

  /** The stable partition is the stable sort by the predicate. */
  lemma PartitionIsStableSort<T(!new)>(pred: T -> bool, s: seq<T>)
    ensures Chosen(pred, true, s, |s|) + Chosen(pred, false, s, |s|) == StableSorted(ByPred(pred), s)
  {
    hide ByPred, Sorted, IsOrder, Agree, Chosen;
    var k, d := Chosen(pred, true, s, |s|), Chosen(pred, false, s, |s|);
    ChosenAll(pred, true, s, |s|);
    ChosenAll(pred, false, s, |s|);
    ChosenSorted(pred, k, d);
    ByPredIsOrder(pred);
    forall x ensures Agree(ByPred(pred), x, k + d, s) {
      ChosenAgrees(pred, s, x);
    }
    StableSortedIff(ByPred(pred), k + d, s);
  }

  // ---------- by swapping ----------

  /** Where tda_span_partition stands before it looks at position i. */
  ghost predicate Parting<T>(pred: T -> bool, h: seq<T>, h0: seq<T>, boundary: int, i: int) {
    && |h| == |h0| && 0 <= boundary <= i <= |h| && multiset(h) == multiset(h0)
    && h[..boundary] == Chosen(pred, true, h0, i)
    && (forall k :: boundary <= k < i ==> !pred(h[k]))
    && (forall k :: i <= k < |h| ==> h[k] == h0[k])
  }

  lemma PartingStep<T>(pred: T -> bool, h: seq<T>, h0: seq<T>, boundary: int, i: int)
    requires Parting(pred, h, h0, boundary, i) && i < |h|
    ensures pred(h[i]) ==> Parting(pred, Swap(h, i, boundary), h0, boundary + 1, i + 1)
    ensures pred(h[i]) && i == boundary ==> Swap(h, i, boundary) == h
    ensures !pred(h[i]) ==> Parting(pred, h, h0, boundary, i + 1)
  {
    if pred(h[i]) {
      var r := Swap(h, i, boundary);
      assert r[..boundary] == h[..boundary];
      assert r[..boundary + 1] == r[..boundary] + [r[boundary]];
    }
  }

  lemma PartingStart<T>(pred: T -> bool, h: seq<T>)
    ensures Parting(pred, h, h, 0, 0)
  {
  }

  /** Accepted elems come first, in the order they stood in; how many there are is the answer. */
  method Partition<T>(a: array<T>, lo: int, hi: int, pred: T -> bool, ghost h0: seq<T>)
    returns (boundary: int, ghost h: seq<T>, ghost asked: int)
    requires 0 <= lo <= hi <= a.Length && |h0| == hi - lo
    requires forall k :: 0 <= k < |h0| ==> a[lo + k] == h0[k]
    modifies a
    ensures Parting(pred, h, h0, boundary, |h0|) && asked == |h0|
    ensures forall k :: 0 <= k < |h| ==> a[lo + k] == h[k]
    ensures forall k :: 0 <= k < lo || hi <= k < a.Length ==> a[k] == old(a[k])
  {
    hide *;
    boundary, h, asked := 0, h0, 0;
    PartingStart(pred, h);
    var i := 0;
    while i < hi - lo
      invariant 0 <= boundary <= i <= |h| == hi - lo && Parting(pred, h, h0, boundary, i) && asked == i
      invariant forall k :: 0 <= k < |h| ==> a[lo + k] == h[k]
      invariant forall k :: 0 <= k < lo || hi <= k < a.Length ==> a[k] == old(a[k])
    {
      PartingStep(pred, h, h0, boundary, i);
      assert a[lo + i] == h[i];
      asked := asked + 1;
      if pred(a[lo + i]) {
        if i != boundary {
          h := SwapElems(a, lo, i, boundary, h);
        }
        boundary := boundary + 1;
      }
      i := i + 1;
    }
  }

  // ---------- through a buffer ----------

  /** Both parts keep their order; a refused buffer leaves the span as it was. */
  method PartitionStable<T(!new)>(a: array<T>, lo: int, hi: int, pred: T -> bool, granted: bool, ghost h0: seq<T>)
    returns (ok: bool, boundary: int, ghost h: seq<T>, ghost asked: int)
    requires 0 <= lo <= hi <= a.Length && |h0| == hi - lo
    requires forall k :: 0 <= k < |h0| ==> a[lo + k] == h0[k]
    modifies a
    ensures ok == (lo == hi || granted)
    ensures h == if ok then StableSorted(ByPred(pred), h0) else h0
    ensures |h| == |h0| && (ok ==> boundary == |Chosen(pred, true, h0, |h0|)|)
    ensures asked == if ok then |h0| else 0
    ensures forall k :: 0 <= k < |h| ==> a[lo + k] == h[k]
    ensures forall k :: 0 <= k < lo || hi <= k < a.Length ==> a[k] == old(a[k])
  {
    hide *;
    var n := hi - lo;
    h, boundary := h0, 0;
    PartitionIsStableSort(pred, h0);
    ChosenSplit(pred, h0, n);
    SplitSize(Chosen(pred, true, h0, n), Chosen(pred, false, h0, n), h0[..n]);
    if n == 0 {
      return true, 0, h0, 0;
    }
    if !granted {
      return false, 0, h0, 0;
    }
    var filler := a[lo];
    var rejected := new T[n](_ => filler);
    var kept, dropped;
    kept, dropped, asked := KeepAndReject(a, lo, n, pred, rejected, h0);
    ghost var k, d := Chosen(pred, true, h0, n), Chosen(pred, false, h0, n);
    h := k + d;
    CopyBack(a, lo + kept, rejected, dropped);
    forall j | 0 <= j < |h| ensures a[lo + j] == h[j] {
      if kept <= j {
        assert rejected[j - kept] == d[j - kept];
      }
    }
    return true, kept, h, asked;
  }

  method KeepAndReject<T>(a: array<T>, lo: int, n: int, pred: T -> bool, rejected: array<T>, ghost h0: seq<T>)
    returns (kept: int, dropped: int, ghost asked: int)
    requires 0 <= lo && lo + n <= a.Length && n == |h0| == rejected.Length && a != rejected
    requires forall k :: 0 <= k < |h0| ==> a[lo + k] == h0[k]
    modifies a, rejected
    ensures kept == |Chosen(pred, true, h0, n)| && dropped == |Chosen(pred, false, h0, n)|
    ensures 0 <= kept <= n && 0 <= dropped <= n && asked == n
    ensures forall k :: 0 <= k < kept ==> a[lo + k] == Chosen(pred, true, h0, n)[k]
    ensures forall k :: 0 <= k < dropped ==> rejected[k] == Chosen(pred, false, h0, n)[k]
    ensures forall k :: 0 <= k < lo || lo + n <= k < a.Length ==> a[k] == old(a[k])
  {
    hide *;
    kept, dropped, asked := 0, 0, 0;
    ChosenNone(pred, true, h0);
    ChosenNone(pred, false, h0);
    ghost var ks: seq<T>, ds: seq<T> := [], [];
    var i := 0;
    while i < n
      invariant 0 <= i <= n && 0 <= kept <= i && 0 <= dropped <= i && asked == i
      invariant ks == Chosen(pred, true, h0, i) && ds == Chosen(pred, false, h0, i) && |ks| == kept && |ds| == dropped
      invariant forall k :: 0 <= k < |ks| ==> a[lo + k] == ks[k]
      invariant forall k :: 0 <= k < |ds| ==> rejected[k] == ds[k]
      invariant forall k :: i <= k < |h0| ==> a[lo + k] == h0[k]
      invariant forall k :: 0 <= k < lo || lo + n <= k < a.Length ==> a[k] == old(a[k])
    {
      ChosenStep(pred, true, h0, i);
      ChosenStep(pred, false, h0, i);
      var elem := a[lo + i];
      assert elem == h0[i];
      asked := asked + 1;
      if pred(elem) {
        if kept != i {
          a[lo + kept] := elem;
        }
        kept := kept + 1;
        ks := ks + [elem];
        ds := ds + [];
      } else {
        rejected[dropped] := elem;
        dropped := dropped + 1;
        ds := ds + [elem];
        ks := ks + [];
      }
      i := i + 1;
    }
  }

  method CopyBack<T>(a: array<T>, at: int, src: array<T>, n: int)
    requires a != src && 0 <= at && 0 <= n <= src.Length && at + n <= a.Length
    modifies a
    ensures forall k :: 0 <= k < n ==> a[at + k] == src[k]
    ensures forall k :: 0 <= k < at || at + n <= k < a.Length ==> a[k] == old(a[k])
  {
    forall k | 0 <= k < n {
      a[at + k] := src[k];
    }
  }

  /** Whether no accepted elem follows a rejected one. */
  method IsPartitioned<T>(s: seq<T>, pred: T -> bool) returns (r: bool)
    ensures r <==> forall i, j :: 0 <= i < j < |s| && pred(s[j]) ==> pred(s[i])
  {
    var i := 0;
    while i < |s| && pred(s[i])
      invariant 0 <= i <= |s| && forall k :: 0 <= k < i ==> pred(s[k])
    {
      i := i + 1;
    }
    ghost var b := i;
    while i < |s| && !pred(s[i])
      invariant b <= i <= |s| && (forall k :: b <= k < i ==> !pred(s[k])) && (i < |s| && pred(s[i]) ==> b < i)
    {
      i := i + 1;
    }
    return i == |s|;
  }
}
