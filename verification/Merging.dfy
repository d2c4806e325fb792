/** Joining two sorted runs (src/algo/merge.c): the merge into a second span, the merge through a half-size buffer
    in either direction, and the merge that needs no memory. All are proved to compute the one stable merge. */
module Merging {
  import opened Ordering
  import opened Counting
  import opened Spans
  import Search
  import Permute

  /** m from n on is the merge of what is left of the two runs, s from i on and t from j on. */
  ghost predicate Pending<T>(cmp: (T, T) -> int, m: seq<T>, n: int, s: seq<T>, i: int, t: seq<T>, j: int) {
    From(m, n) == Merge(cmp, From(s, i), From(t, j))
  }

  ghost function From<T>(s: seq<T>, i: int): seq<T> {
    if 0 <= i <= |s| then s[i..] else []
  }

  lemma PendingStart<T>(cmp: (T, T) -> int, s: seq<T>, t: seq<T>)
    ensures Pending(cmp, Merge(cmp, s, t), 0, s, 0, t, 0)
  {
    var m := Merge(cmp, s, t);
    assert m[0..] == m && s[0..] == s && t[0..] == t;
  }

  /** One step of a merge: the smaller head goes next, the left one on a tie. */
  lemma PendingStep<T>(cmp: (T, T) -> int, m: seq<T>, n: int, s: seq<T>, i: int, t: seq<T>, j: int)
    requires 0 <= i < |s| && 0 <= j < |t| && Pending(cmp, m, n, s, i, t, j)
    ensures 0 <= n < |m|
    ensures cmp(s[i], t[j]) <= 0 ==> m[n] == s[i] && Pending(cmp, m, n + 1, s, i + 1, t, j)
    ensures cmp(s[i], t[j]) > 0 ==> m[n] == t[j] && Pending(cmp, m, n + 1, s, i, t, j + 1)
  {
    var u, v := s[i..], t[j..];
    assert u[0] == s[i] && u[1..] == s[i + 1..] && v[0] == t[j] && v[1..] == t[j + 1..];
    assert m[n..][0] == m[n] && m[n..][1..] == m[n + 1..];
  }

  /** When one run has been taken whole, the merge goes on as the other does. */
  lemma PendingRest<T>(cmp: (T, T) -> int, m: seq<T>, n: int, s: seq<T>, i: int, t: seq<T>, j: int)
    requires 0 <= n <= |m| && 0 <= i <= |s| && 0 <= j <= |t| && Pending(cmp, m, n, s, i, t, j)
    requires i == |s| || j == |t|
    ensures |m| == n + (|s| - i) + (|t| - j)
    ensures forall k :: i <= k < |s| ==> m[n + (k - i)] == s[k]
    ensures forall k :: j <= k < |t| ==> m[n + (|s| - i) + (k - j)] == t[k]
  {
    assert m[n..] == s[i..] + t[j..];
    forall k | i <= k < |s| ensures m[n + (k - i)] == s[k] {
      assert m[n..][k - i] == s[i..][k - i];
    }
    forall k | j <= k < |t| ensures m[n + (|s| - i) + (k - j)] == t[k] {
      assert m[n..][(|s| - i) + (k - j)] == t[j..][k - j];
    }
  }

  /** Writes the runs a[alo..ahi] and b[blo..bhi] into dst as one, with at most one comparison per elem written. The
      sources may lie in dst's own array, but not in the part that is written. */
  method SpanMerge<T>(dst: array<T>, dlo: nat, dhi: nat, a: array<T>, alo: nat, ahi: nat, b: array<T>, blo: nat,
                      bhi: nat, cmp: (T, T) -> int)
    returns (ghost cost: int)
    requires dlo <= dhi <= dst.Length && alo <= ahi <= a.Length && blo <= bhi <= b.Length
    requires dhi - dlo == (ahi - alo) + (bhi - blo)
    requires dst != a || ahi <= dlo || dhi <= alo
    requires dst != b || bhi <= dlo || dhi <= blo
    modifies dst
    ensures dst[dlo..dhi] == Merge(cmp, old(a[alo..ahi]), old(b[blo..bhi]))
    ensures forall k :: 0 <= k < dlo || dhi <= k < dst.Length ==> dst[k] == old(dst[k])
    ensures 0 <= cost <= dhi - dlo && (ahi - alo <= cost || bhi - blo <= cost)
  {
    ghost var s, t := a[alo..ahi], b[blo..bhi];
    ghost var m := Merge(cmp, s, t);
    PendingStart(cmp, s, t);
    hide *;
    SpanElems(a, alo, ahi, s);
    SpanElems(b, blo, bhi, t);
    var i, j, out;
    i, j, out, cost := EmitSmaller(dst, dlo, dhi, a, alo, ahi, b, blo, bhi, cmp, s, t, m);
    EmitBoth(dst, dlo, dhi, out, a, i, ahi, b, j, bhi, m);
    assert dst[dlo..dhi] == m;
  }

  /** Emits the smaller of the two heads for as long as both runs have one. */
  method EmitSmaller<T>(dst: array<T>, dlo: int, dhi: int, a: array<T>, alo: int, ahi: int, b: array<T>, blo: int,
                        bhi: int, cmp: (T, T) -> int, ghost s: seq<T>, ghost t: seq<T>, ghost m: seq<T>)
    returns (i: int, j: int, out: int, ghost cost: int)
    requires 0 <= dlo <= dhi <= dst.Length && 0 <= alo <= ahi <= a.Length && 0 <= blo <= bhi <= b.Length
    requires dst != a || ahi <= dlo || dhi <= alo
    requires dst != b || bhi <= dlo || dhi <= blo
    requires |s| == ahi - alo && |t| == bhi - blo && |m| == |s| + |t| == dhi - dlo
    requires forall k :: 0 <= k < |s| ==> a[alo + k] == s[k]
    requires forall k :: 0 <= k < |t| ==> b[blo + k] == t[k]
    requires Pending(cmp, m, 0, s, 0, t, 0)
    modifies dst
    ensures alo <= i <= ahi && blo <= j <= bhi && out == dlo + (i - alo) + (j - blo)
    ensures forall k :: i <= k < ahi ==> m[out - dlo + (k - i)] == a[k]
    ensures forall k :: j <= k < bhi ==> m[out - dlo + (ahi - i) + (k - j)] == b[k]
    ensures forall k :: dlo <= k < out ==> dst[k] == m[k - dlo]
    ensures forall k :: 0 <= k < dlo || dhi <= k < dst.Length ==> dst[k] == old(dst[k])
    ensures 0 <= cost == out - dlo && (i == ahi || j == bhi)
  {
    hide *;
    i, j, out, cost := alo, blo, dlo, 0;
    while i < ahi && j < bhi
      invariant alo <= i <= ahi && blo <= j <= bhi && out == dlo + (i - alo) + (j - blo) && cost == out - dlo
      invariant Pending(cmp, m, out - dlo, s, i - alo, t, j - blo)
      invariant forall k :: dlo <= k < out ==> dst[k] == m[k - dlo]
      invariant forall k :: 0 <= k < dlo || dhi <= k < dst.Length ==> dst[k] == old(dst[k])
      invariant forall k :: 0 <= k < |s| ==> a[alo + k] == s[k]
      invariant forall k :: 0 <= k < |t| ==> b[blo + k] == t[k]
    {
      PendingStep(cmp, m, out - dlo, s, i - alo, t, j - blo);
      assert a[alo + (i - alo)] == s[i - alo] && b[blo + (j - blo)] == t[j - blo];
      cost := cost + 1;
      if cmp(a[i], b[j]) <= 0 {
        dst[out] := a[i];
        i := i + 1;
      } else {
        dst[out] := b[j];
        j := j + 1;
      }
      out := out + 1;
    }
    PendingRest(cmp, m, out - dlo, s, i - alo, t, j - blo);
    forall k | i <= k < ahi ensures m[out - dlo + (k - i)] == a[k] {
      assert a[alo + (k - alo)] == s[k - alo];
    }
    forall k | j <= k < bhi ensures m[out - dlo + (ahi - i) + (k - j)] == b[k] {
      assert b[blo + (k - blo)] == t[k - blo];
    }
  }

  method EmitBoth<T>(dst: array<T>, dlo: int, dhi: int, from: int, a: array<T>, i: int, ahi: int, b: array<T>, j: int,
                     bhi: int, ghost m: seq<T>)
    requires 0 <= dlo <= from <= dhi <= dst.Length && 0 <= i <= ahi <= a.Length && 0 <= j <= bhi <= b.Length
    requires dst != a || ahi <= dlo || dhi <= i
    requires dst != b || bhi <= dlo || dhi <= j
    requires from + (ahi - i) + (bhi - j) == dlo + |m| == dhi
    requires forall k :: dlo <= k < from ==> dst[k] == m[k - dlo]
    requires forall k :: i <= k < ahi ==> m[from - dlo + (k - i)] == a[k]
    requires forall k :: j <= k < bhi ==> m[from - dlo + (ahi - i) + (k - j)] == b[k]
    modifies dst
    ensures forall k :: dlo <= k < dhi ==> dst[k] == m[k - dlo]
    ensures forall k :: 0 <= k < dlo || dhi <= k < dst.Length ==> dst[k] == old(dst[k])
  {
    var out := EmitRest(dst, from, a, i, ahi);
    out := EmitRest(dst, out, b, j, bhi);
    forall k | dlo <= k < dhi ensures dst[k] == m[k - dlo] {
      if from <= k < from + (ahi - i) {
        assert m[from - dlo + (i + (k - from) - i)] == old(a[i + (k - from)]);
      } else if from <= k {
        assert m[from - dlo + (ahi - i) + (k - from - (ahi - i))] == old(b[j + (k - from - (ahi - i))]);
      }
    }
  }

  /** Copies src[from..to] to the write position out, where the other run left off. */
  method EmitRest<T>(dst: array<T>, out: nat, src: array<T>, from: nat, to: nat) returns (next: nat)
    requires from <= to <= src.Length && out + (to - from) <= dst.Length
    requires dst != src || to <= out || out + (to - from) <= from
    modifies dst
    ensures next == out + (to - from)
    ensures forall k :: out <= k < next ==> dst[k] == old(src[from + (k - out)])
    ensures forall k :: 0 <= k < out || next <= k < dst.Length ==> dst[k] == old(dst[k])
  {
    if from >= to {
      return out;
    }
    forall k | 0 <= k < to - from {
      dst[out + k] := src[from + k];
    }
    next := out + (to - from);
    forall k | out <= k < next ensures dst[k] == old(src[from + (k - out)]) {
      assert dst[out + (k - out)] == old(src[from + (k - out)]);
    }
  }

  /** The linear merge back over the span, with the shorter run set aside in buf. */
  method MergeBuffered<T(!new)>(a: array<T>, lo: nat, hi: nat, mid: nat, cmp: (T, T) -> int, buf: array<T>)
    returns (ghost cost: int)
    requires IsOrder(cmp)
    requires lo <= mid <= hi <= a.Length && buf != a
    requires buf.Length == if mid - lo <= hi - mid then mid - lo else hi - mid
    requires Sorted(cmp, a[lo..mid]) && Sorted(cmp, a[mid..hi])
    modifies a, buf
    ensures a[lo..hi] == Merge(cmp, old(a[lo..mid]), old(a[mid..hi]))
    ensures forall k :: 0 <= k < lo || hi <= k < a.Length ==> a[k] == old(a[k])
    ensures 0 <= cost <= hi - lo && (mid - lo <= cost || hi - mid <= cost)
  {
    if mid - lo <= hi - mid {
      cost := MergeForward(a, lo, hi, mid, cmp, buf);
    } else {
      cost := MergeBackward(a, lo, hi, mid, cmp, buf);
    }
  }

  /** Left run parked, merging forward: the write position w never overtakes the read position r. */
  method MergeForward<T(!new)>(a: array<T>, lo: nat, hi: nat, mid: nat, cmp: (T, T) -> int, buf: array<T>)
    returns (ghost cost: int)
    requires IsOrder(cmp)
    requires lo <= mid <= hi <= a.Length && buf != a && buf.Length == mid - lo
    modifies a, buf
    ensures a[lo..hi] == Merge(cmp, old(a[lo..mid]), old(a[mid..hi]))
    ensures forall k :: 0 <= k < lo || hi <= k < a.Length ==> a[k] == old(a[k])
    ensures 0 <= cost <= hi - lo && (mid - lo <= cost || hi - mid <= cost)
  {
    ghost var s, t := a[lo..mid], a[mid..hi];
    ghost var m := Merge(cmp, s, t);
    assert |m| == hi - lo;
    PendingStart(cmp, s, t);
    hide *;
    SpanElems(a, lo, mid, s);
    SpanElems(a, mid, hi, t);
    Park(buf, a, lo);
    var w, b, r;
    w, b, r, cost := WeaveForward(a, lo, hi, mid, cmp, buf, s, t, m);
    UnparkForward(a, lo, hi, w, r, buf, b, m);
    SpanIs(a, lo, hi, m);
  }

  /** Writes the smaller of the two heads while both runs have one: the write position w never overtakes r. */
  method WeaveForward<T(!new)>(a: array<T>, lo: int, hi: int, mid: int, cmp: (T, T) -> int, buf: array<T>,
                               ghost s: seq<T>, ghost t: seq<T>, ghost m: seq<T>)
    returns (w: int, b: int, r: int, ghost cost: int)
    requires IsOrder(cmp)
    requires 0 <= lo <= mid <= hi <= a.Length && buf != a && buf.Length == mid - lo
    requires |s| == mid - lo && |t| == hi - mid && |m| == hi - lo
    requires forall k :: 0 <= k < |s| ==> buf[k] == s[k]
    requires forall k :: 0 <= k < |t| ==> a[mid + k] == t[k]
    requires Pending(cmp, m, 0, s, 0, t, 0)
    modifies a
    ensures 0 <= b <= buf.Length && mid <= r <= hi && w == lo + b + (r - mid)
    ensures forall k :: b <= k < buf.Length ==> m[w - lo + (k - b)] == buf[k]
    ensures forall k :: lo <= k < w || r <= k < hi ==> a[k] == m[k - lo]
    ensures forall k :: 0 <= k < lo || hi <= k < a.Length ==> a[k] == old(a[k])
    ensures 0 <= cost <= hi - lo && (mid - lo <= cost || hi - mid <= cost)
  {
    hide *;
    w, b, r, cost := lo, 0, mid, 0;
    while b < buf.Length && r < hi
      invariant 0 <= b <= buf.Length && mid <= r <= hi && w == lo + b + (r - mid) && cost == w - lo
      invariant Pending(cmp, m, w - lo, s, b, t, r - mid)
      invariant forall k :: lo <= k < w ==> a[k] == m[k - lo]
      invariant forall k :: 0 <= k < lo || r <= k < a.Length ==> a[k] == old(a[k])
    {
      assert a[mid + (r - mid)] == t[r - mid];
      cost := cost + 1;
      PendingStep(cmp, m, w - lo, s, b, t, r - mid);
      SignFlips(cmp, a[r], buf[b]);
      if cmp(a[r], buf[b]) < 0 {
        a[w] := a[r];
        r := r + 1;
      } else {
        a[w] := buf[b];
        b := b + 1;
      }
      w := w + 1;
    }
    PendingRest(cmp, m, w - lo, s, b, t, r - mid);
    forall k | r <= k < hi ensures a[k] == m[k - lo] {
      assert a[mid + (k - mid)] == t[k - mid];
    }
  }

  /** Moves the parked elems from b on to [w, r), which is as many places; from r on the merge is in place. */
  method UnparkForward<T>(a: array<T>, lo: int, hi: int, w0: int, r: int, buf: array<T>, b0: int, ghost m: seq<T>)
    requires 0 <= lo <= w0 <= r <= hi <= a.Length && buf != a && 0 <= b0 <= buf.Length
    requires |m| == hi - lo && r - w0 == buf.Length - b0
    requires forall k :: b0 <= k < buf.Length ==> m[w0 - lo + (k - b0)] == buf[k]
    requires forall k :: lo <= k < w0 || r <= k < hi ==> a[k] == m[k - lo]
    modifies a
    ensures forall k :: lo <= k < hi ==> a[k] == m[k - lo]
    ensures forall k :: 0 <= k < lo || hi <= k < a.Length ==> a[k] == old(a[k])
  {
    var w, b := w0, b0;
    while b < buf.Length
      invariant b0 <= b <= buf.Length && w == w0 + (b - b0)
      invariant forall k :: lo <= k < w || r <= k < hi ==> a[k] == m[k - lo]
      invariant forall k :: 0 <= k < lo || hi <= k < a.Length ==> a[k] == old(a[k])
    {
      a[w] := buf[b];
      b, w := b + 1, w + 1;
    }
  }

  /** Sets buf.Length elems of a aside, from position from on. */
  method Park<T>(buf: array<T>, a: array<T>, from: nat)
    requires from + buf.Length <= a.Length && buf != a
    modifies buf
    ensures forall k :: 0 <= k < buf.Length ==> buf[k] == a[from + k]
  {
    forall k | 0 <= k < buf.Length {
      buf[k] := a[from + k];
    }
  }

  lemma SignFlips<T(!new)>(cmp: (T, T) -> int, x: T, y: T)
    requires IsOrder(cmp)
    ensures cmp(x, y) < 0 <==> cmp(y, x) > 0
  {
  }

  /** Right run parked, merging backward from the end of the span. */
  method MergeBackward<T(!new)>(a: array<T>, lo: nat, hi: nat, mid: nat, cmp: (T, T) -> int, buf: array<T>)
    returns (ghost cost: int)
    requires IsOrder(cmp)
    requires lo <= mid <= hi <= a.Length && buf != a && buf.Length == hi - mid
    requires Sorted(cmp, a[lo..mid]) && Sorted(cmp, a[mid..hi])
    modifies a, buf
    ensures a[lo..hi] == Merge(cmp, old(a[lo..mid]), old(a[mid..hi]))
    ensures forall k :: 0 <= k < lo || hi <= k < a.Length ==> a[k] == old(a[k])
    ensures 0 <= cost <= hi - lo && (mid - lo <= cost || hi - mid <= cost)
  {
    ghost var s, t := a[lo..mid], a[mid..hi];
    ghost var m := Merge(cmp, s, t);
    assert |m| == hi - lo;
    PrecedingStart(cmp, s, t);
    hide *;
    SpanElems(a, lo, mid, s);
    SpanElems(a, mid, hi, t);
    Park(buf, a, mid);
    var l, b;
    l, b, cost := WeaveBackward(a, lo, hi, mid, cmp, buf, s, t, m);
    UnparkBackward(a, lo, hi, l, buf, b, m);
    SpanIs(a, lo, hi, m);
  }

  /** Writes the greater of the two last elems, from the end of the span, while both runs have one. */
  method WeaveBackward<T(!new)>(a: array<T>, lo: int, hi: int, mid: int, cmp: (T, T) -> int, buf: array<T>,
                                ghost s: seq<T>, ghost t: seq<T>, ghost m: seq<T>)
    returns (l: int, b: int, ghost cost: int)
    requires IsOrder(cmp)
    requires 0 <= lo <= mid <= hi <= a.Length && buf != a && buf.Length == hi - mid
    requires |s| == mid - lo && |t| == hi - mid && |m| == hi - lo
    requires Sorted(cmp, s) && Sorted(cmp, t)
    requires forall k :: 0 <= k < |t| ==> buf[k] == t[k]
    requires forall k :: 0 <= k < |s| ==> a[lo + k] == s[k]
    requires Preceding(cmp, m, |m|, s, |s|, t, |t|)
    modifies a
    ensures lo <= l <= mid && 0 <= b <= buf.Length
    ensures forall k :: 0 <= k < b ==> m[l - lo + k] == buf[k]
    ensures forall k :: lo <= k < l || l + b <= k < hi ==> a[k] == m[k - lo]
    ensures forall k :: 0 <= k < lo || hi <= k < a.Length ==> a[k] == old(a[k])
    ensures 0 <= cost <= hi - lo && (mid - lo <= cost || hi - mid <= cost)
  {
    hide *;
    l, b, cost := mid, buf.Length, 0;
    var w := hi;
    while l > lo && b > 0
      invariant 0 <= b <= buf.Length && lo <= l <= mid && w == l + b && cost == hi - w
      invariant Preceding(cmp, m, w - lo, s, l - lo, t, b)
      invariant forall k :: w <= k < hi ==> a[k] == m[k - lo]
      invariant forall k :: 0 <= k < l || hi <= k < a.Length ==> a[k] == old(a[k])
    {
      assert a[lo + (l - 1 - lo)] == s[l - 1 - lo];
      cost := cost + 1;
      PrecedingStep(cmp, m, w - lo, s, l - lo, t, b);
      w := w - 1;
      if cmp(a[l - 1], buf[b - 1]) > 0 {
        l := l - 1;
        a[w] := a[l];
      } else {
        b := b - 1;
        a[w] := buf[b];
      }
    }
    PrecedingRest(cmp, m, w - lo, s, l - lo, t, b);
    forall k | lo <= k < l ensures a[k] == m[k - lo] {
      assert a[lo + (k - lo)] == s[k - lo];
    }
  }

  /** Moves the parked elems before b to [l, l + b); before l the merge is in place. */
  method UnparkBackward<T>(a: array<T>, lo: int, hi: int, l: int, buf: array<T>, b0: int, ghost m: seq<T>)
    requires 0 <= lo <= l && l + b0 <= hi <= a.Length && buf != a && 0 <= b0 <= buf.Length
    requires |m| == hi - lo
    requires forall k :: 0 <= k < b0 ==> m[l - lo + k] == buf[k]
    requires forall k :: lo <= k < l || l + b0 <= k < hi ==> a[k] == m[k - lo]
    modifies a
    ensures forall k :: lo <= k < hi ==> a[k] == m[k - lo]
    ensures forall k :: 0 <= k < lo || hi <= k < a.Length ==> a[k] == old(a[k])
  {
    var b, w := b0, l + b0;
    while b > 0
      invariant 0 <= b <= b0 && w == l + b
      invariant forall k :: lo <= k < l || w <= k < hi ==> a[k] == m[k - lo]
      invariant forall k :: 0 <= k < lo || hi <= k < a.Length ==> a[k] == old(a[k])
    {
      b, w := b - 1, w - 1;
      a[w] := buf[b];
    }
  }

  /** The first n elems of m are the merge of the first i of s and the first j of t. */
  ghost predicate Preceding<T>(cmp: (T, T) -> int, m: seq<T>, n: int, s: seq<T>, i: int, t: seq<T>, j: int) {
    UpTo(m, n) == Merge(cmp, UpTo(s, i), UpTo(t, j))
  }

  ghost function UpTo<T>(s: seq<T>, i: int): seq<T> {
    if 0 <= i <= |s| then s[..i] else []
  }

  lemma PrecedingStart<T>(cmp: (T, T) -> int, s: seq<T>, t: seq<T>)
    ensures Preceding(cmp, Merge(cmp, s, t), |s| + |t|, s, |s|, t, |t|)
  {
    var m := Merge(cmp, s, t);
    assert m[..|m|] == m && s[..|s|] == s && t[..|t|] == t;
  }

  lemma PrecedingStep<T(!new)>(cmp: (T, T) -> int, m: seq<T>, n: int, s: seq<T>, i: int, t: seq<T>, j: int)
    requires IsOrder(cmp) && Sorted(cmp, s) && Sorted(cmp, t)
    requires 0 <= n <= |m| && 0 < i <= |s| && 0 < j <= |t| && Preceding(cmp, m, n, s, i, t, j)
    ensures 0 < n
    ensures cmp(s[i - 1], t[j - 1]) > 0 ==> m[n - 1] == s[i - 1] && Preceding(cmp, m, n - 1, s, i - 1, t, j)
    ensures cmp(s[i - 1], t[j - 1]) <= 0 ==> m[n - 1] == t[j - 1] && Preceding(cmp, m, n - 1, s, i, t, j - 1)
  {
    hide IsOrder, Sorted, Merge;
    var x, y, s', t' := s[i - 1], t[j - 1], s[..i - 1], t[..j - 1];
    SortedSlice(cmp, s, 0, i);
    SortedSlice(cmp, t, 0, j);
    assert s[0..i] == s[..i] == s' + [x] && t[0..j] == t[..j] == t' + [y];
    if cmp(x, y) > 0 {
      MergeBackLeft(cmp, s', x, t' + [y]);
    } else {
      MergeBackRight(cmp, s' + [x], t', y);
    }
    assert m[..n - 1] == m[..n][..n - 1] && m[n - 1] == m[..n][n - 1];
  }

  lemma PrecedingRest<T>(cmp: (T, T) -> int, m: seq<T>, n: int, s: seq<T>, i: int, t: seq<T>, j: int)
    requires 0 <= n <= |m| && 0 <= i <= |s| && 0 <= j <= |t| && Preceding(cmp, m, n, s, i, t, j)
    requires i == 0 || j == 0
    ensures n == i + j
    ensures forall k :: 0 <= k < i ==> m[k] == s[k]
    ensures forall k :: 0 <= k < j ==> m[i + k] == t[k]
  {
    assert m[..n] == s[..i] + t[..j];
    forall k | 0 <= k < i ensures m[k] == s[k] {
      assert m[..n][k] == s[..i][k];
    }
    forall k | 0 <= k < j ensures m[i + k] == t[k] {
      assert m[..n][i + k] == t[..j][k];
    }
  }

  // ---------- the merge that needs no memory ----------

  /** Every elem of t orders strictly before every elem of s. */
  ghost predicate Separated<T>(cmp: (T, T) -> int, s: seq<T>, t: seq<T>) {
    forall i, j :: 0 <= i < |s| && 0 <= j < |t| ==> cmp(t[j], s[i]) < 0
  }

  /** A pair of cuts whose inner pieces do not interleave splits one merge into two. */
  lemma MergeSplit<T(!new)>(cmp: (T, T) -> int, s: seq<T>, s': seq<T>, t: seq<T>, t': seq<T>)
    requires IsOrder(cmp) && Sorted(cmp, s + s') && Sorted(cmp, t + t')
    requires Separated(cmp, s', t)
    requires AllLe(cmp, s, t')
    ensures Merge(cmp, s + s', t + t') == Merge(cmp, s, t) + Merge(cmp, s', t')
  {
    SortedSplit(cmp, s, s');
    SortedSplit(cmp, t, t');
    var l, r := Merge(cmp, s, t), Merge(cmp, s', t');
    MergeIsStable(cmp, s, t);
    MergeIsStable(cmp, s', t');
    MergedBelow(cmp, s, s', t, t');
    SortedConcat(cmp, l, r);
    SplitIsStable(cmp, s, s', t, t', l, r);
    MergeSuffices(cmp, s + s', t + t', l + r, s + s' + (t + t'));
  }

  lemma SortedSplit<T>(cmp: (T, T) -> int, s: seq<T>, t: seq<T>)
    requires Sorted(cmp, s + t)
    ensures Sorted(cmp, s) && Sorted(cmp, t) && AllLe(cmp, s, t)
  {
    var u := s + t;
    SortedSlice(cmp, u, 0, |s|);
    SortedSlice(cmp, u, |s|, |u|);
    assert u[0..|s|] == s && u[|s|..|u|] == t;
    forall i, j | 0 <= i < |s| && 0 <= j < |t| ensures cmp(s[i], t[j]) <= 0 {
      assert u[i] == s[i] && u[|s| + j] == t[j];
    }
  }

  lemma MergedBelow<T(!new)>(cmp: (T, T) -> int, s: seq<T>, s': seq<T>, t: seq<T>, t': seq<T>)
    requires IsOrder(cmp) && Sorted(cmp, s) && Sorted(cmp, t) && Sorted(cmp, s') && Sorted(cmp, t')
    requires AllLe(cmp, s, s') && AllLe(cmp, s, t') && AllLe(cmp, t, s') && AllLe(cmp, t, t')
    ensures AllLe(cmp, Merge(cmp, s, t), Merge(cmp, s', t'))
  {
    hide IsOrder, Sorted, StablePerm, Merge;
    MergeIsStable(cmp, s, t);
    MergeIsStable(cmp, s', t');
    StablePermIsPerm(cmp, Merge(cmp, s, t), s + t);
    StablePermIsPerm(cmp, Merge(cmp, s', t'), s' + t');
    AllLePerm(cmp, Merge(cmp, s, t), s + t, Merge(cmp, s', t'), s' + t');
  }

  lemma AllLePerm<T>(cmp: (T, T) -> int, r: seq<T>, s: seq<T>, r': seq<T>, s': seq<T>)
    requires multiset(r) == multiset(s) && multiset(r') == multiset(s') && AllLe(cmp, s, s')
    ensures AllLe(cmp, r, r')
  {
    forall i, j | 0 <= i < |r| && 0 <= j < |r'| ensures cmp(r[i], r'[j]) <= 0 {
      assert r[i] in multiset(s) && r'[j] in multiset(s');
      var k :| 0 <= k < |s| && s[k] == r[i];
      var l :| 0 <= l < |s'| && s'[l] == r'[j];
    }
  }

  lemma SplitIsStable<T(!new)>(cmp: (T, T) -> int, s: seq<T>, s': seq<T>, t: seq<T>, t': seq<T>, l: seq<T>, r: seq<T>)
    requires IsOrder(cmp)
    requires Separated(cmp, s', t)
    requires StablePerm(cmp, l, s + t) && StablePerm(cmp, r, s' + t')
    ensures StablePerm(cmp, l + r, s + s' + (t + t'))
  {
    StablePermConcat(cmp, l, s + t, r, s' + t');
    StablePermSwap(cmp, s', t);
    StablePermRefl(cmp, s);
    StablePermRefl(cmp, t');
    StablePermConcat(cmp, s, s, t + s', s' + t);
    StablePermConcat(cmp, s + (t + s'), s + (s' + t), t', t');
    assert s + t + (s' + t') == s + (t + s') + t';
    assert s + s' + (t + t') == s + (s' + t) + t';
    StablePermTrans(cmp, l + r, s + t + (s' + t'), s + s' + (t + t'));
  }

  /** How many comparisons merging n elems by rotation takes at most. */
  ghost function CompareBound(n: int): int {
    if n <= 0 then 0 else (n - 1) * Halvings(n)
  }

  /** And how many swaps: one per elem and level. */
  ghost function SwapBound(left: nat, right: nat): int {
    (left + right) * (CeilLog2(left) + CeilLog2(right) + 1)
  }

  lemma BoundsPositive(left: nat, right: nat)
    ensures 0 <= CompareBound(left + right) && 0 <= SwapBound(left, right)
  {
  }

  lemma PairBounds()
    ensures CompareBound(2) == 2 && SwapBound(1, 1) == 2
  {
    assert Halvings(2) == 1 + Halvings(1) && Halvings(1) == 1;
  }

  /** The halves have the elems of the whole between them. */
  lemma CompareSplit(m: int, k: int, n: int)
    requires 1 <= m && 1 <= k && m + k == n
    ensures Halvings(n) + CompareBound(m) + CompareBound(k) <= CompareBound(n)
  {
    hide Halvings;
    HalvingsMonotone(m, n);
    HalvingsMonotone(k, n);
    LogsAdd(m, k, n, Halvings(m), Halvings(k), Halvings(n));
  }

  lemma LogsAdd(m: int, k: int, n: int, a: int, b: int, h: int)
    requires 1 <= m && 1 <= k && m + k == n && a <= h && b <= h
    ensures (m - 1) * a + (k - 1) * b + h <= (n - 1) * h
  {
    MulOrder(a, h, m - 1);
    MulOrder(b, h, k - 1);
    assert (m - 1) * h + (k - 1) * h + h == (n - 1) * h;
  }

  /** And a level less each. */
  lemma SwapSplit(left: nat, right: nat, l: nat, r: nat)
    requires 0 < left && 0 < right && left + right > 2 && l <= left && r <= right
    requires if left > right then l == left / 2 else r == right / 2
    ensures left + right + SwapBound(l, r) + SwapBound(left - l, right - r) <= SwapBound(left, right)
  {
    hide CeilLog2;
    CutsHalve(l, left, r, right);
    LevelsAdd(l + r, left - l + right - r, left + right, CeilLog2(l) + CeilLog2(r),
              CeilLog2(left - l) + CeilLog2(right - r), CeilLog2(left) + CeilLog2(right));
  }

  lemma LevelsAdd(m: int, k: int, n: int, a: int, b: int, d: int)
    requires 1 <= m && 1 <= k && m + k == n && a + 1 <= d && b + 1 <= d
    ensures n + m * (a + 1) + k * (b + 1) <= n * (d + 1)
  {
    MulOrder(a + 1, d, m);
    MulOrder(b + 1, d, k);
    assert m * d + k * d + n == n * (d + 1);
  }

  /** Merges by rotation and recursion alone. The ghost results are how deep the recursion went, the comparisons and the
      swaps. */
  method MergeInPlace<T(!new)>(a: array<T>, lo: int, hi: int, mid: int, cmp: (T, T) -> int)
    returns (ghost depth: int, ghost cost: int, ghost swaps: int)
    requires IsOrder(cmp)
    requires 0 <= lo <= mid <= hi <= a.Length
    requires Sorted(cmp, a[lo..mid]) && Sorted(cmp, a[mid..hi])
    modifies a
    ensures a[lo..hi] == Merge(cmp, old(a[lo..mid]), old(a[mid..hi]))
    ensures forall k :: 0 <= k < lo || hi <= k < a.Length ==> a[k] == old(a[k])
    ensures 0 <= depth <= CeilLog2(mid - lo) + CeilLog2(hi - mid)
    ensures 0 <= cost <= CompareBound(hi - lo) && 0 <= swaps <= SwapBound(mid - lo, hi - mid)
    ensures lo < mid < hi ==> 1 <= cost
    decreases hi - lo, 2
  {
    hide *;
    if mid == lo || mid == hi {
      MergeNothing(cmp, a[lo..mid], a[mid..hi]);
      SpanSplit(a, lo, mid, hi);
      depth, cost, swaps := 0, 0, 0;
      BoundsPositive(mid - lo, hi - mid);
    } else if hi - lo == 2 {
      assert a[lo..mid] == [a[lo]] && a[mid..hi] == [a[lo + 1]];
      swaps := MergePair(a, lo, cmp);
      depth, cost := 0, 1;
      PairBounds();
    } else {
      depth, cost, swaps := MergeByCutting(a, lo, hi, mid, cmp);
    }
  }

  method MergeByCutting<T(!new)>(a: array<T>, lo: int, hi: int, mid: int, cmp: (T, T) -> int)
    returns (ghost depth: int, ghost cost: int, ghost swaps: int)
    requires IsOrder(cmp)
    requires 0 <= lo < mid < hi <= a.Length && hi - lo > 2
    requires Sorted(cmp, a[lo..mid]) && Sorted(cmp, a[mid..hi])
    modifies a
    ensures a[lo..hi] == Merge(cmp, old(a[lo..mid]), old(a[mid..hi]))
    ensures forall k :: 0 <= k < lo || hi <= k < a.Length ==> a[k] == old(a[k])
    ensures 0 <= depth <= CeilLog2(mid - lo) + CeilLog2(hi - mid)
    ensures 0 <= cost <= CompareBound(hi - lo) && 0 <= swaps <= SwapBound(mid - lo, hi - mid)
    ensures 1 <= cost
    decreases hi - lo, 1
  {
    hide *;
    var s, t := a[lo..mid], a[mid..hi];
    var l, r;
    ghost var search;
    l, r, search := CutPoints(s, t, cmp);
    assert s[..l] + s[l..] == s && t[..r] + t[r..] == t;
    CutsHalve(l, |s|, r, |t|);
    depth, cost, swaps := MergeHalves(a, lo, hi, mid, lo + l, mid + r, cmp, s[..l], s[l..], t[..r], t[r..]);
    CompareSplit(l + r, |s| - l + (|t| - r), hi - lo);
    SwapSplit(|s|, |t|, l, r);
    cost := cost + search;
  }

  method MergePair<T(!new)>(a: array<T>, lo: nat, cmp: (T, T) -> int) returns (ghost swaps: int)
    requires IsOrder(cmp)
    requires lo + 2 <= a.Length
    modifies a
    ensures a[lo..lo + 2] == Merge(cmp, [old(a[lo])], [old(a[lo + 1])])
    ensures forall k :: 0 <= k < lo || lo + 2 <= k < a.Length ==> a[k] == old(a[k])
    ensures swaps == if cmp(old(a[lo + 1]), old(a[lo])) < 0 then 1 else 0
  {
    var x, y := a[lo], a[lo + 1];
    swaps := 0;
    SignFlips(cmp, y, x);
    if cmp(y, x) < 0 {
      a[lo], a[lo + 1] := y, x;
      swaps := 1;
    }
    assert a[lo..lo + 2] == [a[lo], a[lo + 1]];
  }

  /** The four pieces s1 s2 t1 t2 become s1 t1 s2 t2 by one rotation, and the two halves are merged on their own. */
  method MergeHalves<T(!new)>(a: array<T>, lo: int, hi: int, mid: int, leftCut: int, rightCut: int, cmp: (T, T) -> int,
                              ghost s1: seq<T>, ghost s2: seq<T>, ghost t1: seq<T>, ghost t2: seq<T>)
    returns (ghost depth: nat, ghost cost: int, ghost swaps: int)
    requires IsOrder(cmp)
    requires 0 <= lo <= leftCut <= mid <= rightCut <= hi <= a.Length
    requires lo < leftCut || mid < rightCut
    requires leftCut < mid || rightCut < hi
    requires |s1| == leftCut - lo && |s2| == mid - leftCut && |t1| == rightCut - mid && |t2| == hi - rightCut
    requires a[lo..mid] == s1 + s2 && a[mid..hi] == t1 + t2
    requires Sorted(cmp, s1 + s2) && Sorted(cmp, t1 + t2) && Separated(cmp, s2, t1) && AllLe(cmp, s1, t2)
    modifies a
    ensures a[lo..hi] == Merge(cmp, s1 + s2, t1 + t2)
    ensures forall k :: 0 <= k < lo || hi <= k < a.Length ==> a[k] == old(a[k])
    ensures var d := CeilLog2(|s1|) + CeilLog2(|t1|);
            var d' := CeilLog2(|s2|) + CeilLog2(|t2|);
            depth <= 1 + if d < d' then d' else d
    ensures 0 <= cost <= CompareBound(|s1| + |t1|) + CompareBound(|s2| + |t2|)
    ensures 0 <= swaps <= hi - lo + SwapBound(|s1|, |t1|) + SwapBound(|s2|, |t2|)
    decreases hi - lo, 0
  {
    hide *;
    SortedSplit(cmp, s1, s2);
    SortedSplit(cmp, t1, t2);
    MergeSplit(cmp, s1, s2, t1, t2);
    var newMid := leftCut + (rightCut - mid);
    ghost var turned := RotateInner(a, lo, hi, mid, leftCut, rightCut, s1, s2, t1, t2);
    ghost var d1, c1, w1 := MergeInPlace(a, lo, newMid, leftCut, cmp);
    assert a[newMid..rightCut] == s2;
    assert a[rightCut..hi] == t2;
    ghost var d2, c2, w2 := MergeInPlace(a, newMid, hi, rightCut, cmp);
    ghost var r1, r2 := Merge(cmp, s1, t1), Merge(cmp, s2, t2);
    assert a[lo..newMid] == r1;
    SpanSplit(a, lo, newMid, hi);
    depth, cost, swaps := 1 + if d1 < d2 then d2 else d1, c1 + c2, turned + w1 + w2;
  }

  method RotateInner<T>(a: array<T>, lo: nat, hi: nat, mid: nat, leftCut: nat, rightCut: nat,
                        ghost s1: seq<T>, ghost s2: seq<T>, ghost t1: seq<T>, ghost t2: seq<T>)
    returns (ghost swaps: int)
    requires lo <= leftCut <= mid <= rightCut <= hi <= a.Length
    requires |s1| == leftCut - lo && |s2| == mid - leftCut && |t1| == rightCut - mid && |t2| == hi - rightCut
    requires a[lo..mid] == s1 + s2 && a[mid..hi] == t1 + t2
    modifies a
    ensures a[lo..leftCut] == s1 && a[rightCut..hi] == t2
    ensures a[leftCut..leftCut + |t1|] == t1 && a[leftCut + |t1|..rightCut] == s2
    ensures forall k :: 0 <= k < lo || hi <= k < a.Length ==> a[k] == old(a[k])
    ensures 0 <= swaps <= hi - lo
  {
    hide *;
    SpanHalves(a, lo, leftCut, mid, s1, s2);
    SpanHalves(a, mid, rightCut, hi, t1, t2);
    SpanElems(a, lo, leftCut, s1);
    SpanElems(a, rightCut, hi, t2);
    swaps := Permute.Rotate(a, leftCut, rightCut, mid);
    SubSpan(a, lo, s1, 0, |s1|);
    SubSpan(a, rightCut, t2, 0, |t2|);
    assert s1[0..|s1|] == s1 && t2[0..|t2|] == t2;
    SpanHalves(a, leftCut, leftCut + |t1|, rightCut, t1, s2);
  }

  /** Where to cut the two runs, and what the binary search tells about the four pieces. */
  method CutPoints<T(!new)>(s: seq<T>, t: seq<T>, cmp: (T, T) -> int) returns (l: nat, r: nat, ghost cost: int)
    requires IsOrder(cmp) && Sorted(cmp, s) && Sorted(cmp, t)
    requires 0 < |s| && 0 < |t| && |s| + |t| > 2
    ensures l <= |s| && r <= |t| && 1 <= cost <= Halvings(|s| + |t|)
    ensures if |s| > |t| then l == |s| / 2 else r == |t| / 2
    ensures Separated(cmp, s[l..], t[..r])
    ensures AllLe(cmp, s[..l], t[r..])
  {
    hide IsOrder, Sorted, Separated, AllLe;
    HalvingsMonotone(|s|, |s| + |t|);
    HalvingsMonotone(|t|, |s| + |t|);
    if |s| > |t| {
      l := |s| / 2;
      r, cost := Search.LowerBound(t, s[l], cmp);
      CutByLeft(cmp, s, t, l, r);
    } else {
      r := |t| / 2;
      l, cost := Search.UpperBound(s, t[r], cmp);
      CutByRight(cmp, s, t, l, r);
    }
  }

  lemma CutByLeft<T(!new)>(cmp: (T, T) -> int, s: seq<T>, t: seq<T>, m: nat, k: nat)
    requires IsOrder(cmp) && Sorted(cmp, s) && m < |s| && k <= |t|
    requires forall i :: 0 <= i < k ==> cmp(t[i], s[m]) < 0
    requires forall i :: k <= i < |t| ==> cmp(t[i], s[m]) >= 0
    ensures Separated(cmp, s[m..], t[..k])
    ensures AllLe(cmp, s[..m], t[k..])
  {
    var key := s[m];
    forall i, j | 0 <= i < |s| - m && 0 <= j < k ensures cmp(t[..k][j], s[m..][i]) < 0 {
      assert t[..k][j] == t[j] && s[m..][i] == s[m + i];
      assert cmp(key, s[m + i]) <= 0;
      Strict(cmp, t[j], key, s[m + i]);
    }
    forall i, j | 0 <= i < m && 0 <= j < |t| - k ensures cmp(s[..m][i], t[k..][j]) <= 0 {
      assert t[k..][j] == t[k + j] && cmp(t[k + j], key) >= 0 && cmp(s[i], key) <= 0;
    }
  }

  lemma CutByRight<T(!new)>(cmp: (T, T) -> int, s: seq<T>, t: seq<T>, k: nat, m: nat)
    requires IsOrder(cmp) && Sorted(cmp, t) && m < |t| && k <= |s|
    requires forall i :: 0 <= i < k ==> cmp(s[i], t[m]) <= 0
    requires forall i :: k <= i < |s| ==> cmp(s[i], t[m]) > 0
    ensures Separated(cmp, s[k..], t[..m])
    ensures AllLe(cmp, s[..k], t[m..])
  {
    var key := t[m];
    forall i, j | 0 <= i < |s| - k && 0 <= j < m ensures cmp(t[..m][j], s[k..][i]) < 0 {
      assert t[..m][j] == t[j] && s[k..][i] == s[k + i];
      assert cmp(t[j], key) <= 0 && cmp(s[k + i], key) > 0;
      Strict'(cmp, t[j], key, s[k + i]);
    }
    forall i, j | 0 <= i < k && 0 <= j < |t| - m ensures cmp(s[..k][i], t[m..][j]) <= 0 {
      assert t[m..][j] == t[m + j] && cmp(key, t[m + j]) <= 0 && cmp(s[i], key) <= 0;
    }
  }

  lemma Strict<T(!new)>(cmp: (T, T) -> int, x: T, y: T, z: T)
    requires IsOrder(cmp) && cmp(x, y) < 0 && cmp(y, z) <= 0
    ensures cmp(x, z) < 0
  {
    assert cmp(z, x) <= 0 ==> cmp(y, x) <= 0;
  }

  lemma Strict'<T(!new)>(cmp: (T, T) -> int, x: T, y: T, z: T)
    requires IsOrder(cmp) && cmp(x, y) <= 0 && cmp(z, y) > 0
    ensures cmp(x, z) < 0
  {
    assert cmp(z, x) <= 0 ==> cmp(z, y) <= 0;
  }

  /** Halving the longer run takes one level off the sum of the two logarithms, on both sides. */
  lemma CutsHalve(l: nat, left: nat, r: nat, right: nat)
    requires l <= left && r <= right && left + right > 2
    requires if left > right then l == left / 2 else r == right / 2
    ensures 0 < l || 0 < r
    ensures l < left || r < right
    ensures CeilLog2(l) + CeilLog2(r) < CeilLog2(left) + CeilLog2(right)
    ensures CeilLog2(left - l) + CeilLog2(right - r) < CeilLog2(left) + CeilLog2(right)
  {
    if left > right {
      CeilLog2Halved(l, left);
      CeilLog2Halved(left - l, left);
      CeilLog2Monotone(r, right);
      CeilLog2Monotone(right - r, right);
    } else {
      CeilLog2Halved(r, right);
      CeilLog2Halved(right - r, right);
      CeilLog2Monotone(l, left);
      CeilLog2Monotone(left - l, left);
    }
  }

  /** Joins the sorted runs a[lo..mid] and a[mid..hi]. Whether a buffer is asked for and whether the allocator
      grants it, room for the shorter run, does not show in the answer. */
  method InplaceMerge<T(0, !new)>(a: array<T>, lo: nat, hi: nat, mid: nat, cmp: (T, T) -> int, hasAl: bool,
                                  grant: nat -> bool)
    returns (ghost cost: int, ghost swaps: int)
    requires IsOrder(cmp)
    requires lo <= mid <= hi <= a.Length
    requires Sorted(cmp, a[lo..mid]) && Sorted(cmp, a[mid..hi])
    modifies a
    ensures a[lo..hi] == StableSorted(cmp, old(a[lo..hi]))
    ensures forall k :: 0 <= k < lo || hi <= k < a.Length ==> a[k] == old(a[k])
    ensures 0 <= cost && 0 <= swaps && (if lo < mid < hi then 1 <= cost else cost == swaps == 0)
    ensures if hasAl && grant(if mid - lo < hi - mid then mid - lo else hi - mid) then cost <= hi - lo && swaps == 0
            else cost <= CompareBound(hi - lo) && swaps <= SwapBound(mid - lo, hi - mid)
  {
    hide *;
    ghost var s, t := a[lo..mid], a[mid..hi];
    SpanSplit(a, lo, mid, hi);
    MergeIsStableSort(cmp, s, t);
    cost, swaps := 0, 0;
    BoundsPositive(mid - lo, hi - mid);
    var leftLen, rightLen := mid - lo, hi - mid;
    if leftLen == 0 || rightLen == 0 {
      MergeNothing(cmp, s, t);
      return;
    }
    var bufLen := if leftLen < rightLen then leftLen else rightLen;
    if !hasAl || !grant(bufLen) {
      ghost var depth;
      depth, cost, swaps := MergeInPlace(a, lo, hi, mid, cmp);
      return;
    }
    var buf := new T[bufLen];
    cost := MergeBuffered(a, lo, hi, mid, cmp, buf);
  }
}
