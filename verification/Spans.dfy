/** Writable spans (include/tda/core/span.h). A span is a range of an array, and its value is the sequence h of its
    elems, h[k] standing at base + k. */
module Spans {

  ghost function Swap<T>(h: seq<T>, i: int, j: int): (r: seq<T>)
    requires 0 <= i < |h| && 0 <= j < |h|
    ensures |r| == |h| && multiset(r) == multiset(h)
    ensures forall k :: 0 <= k < |h| ==> r[k] == if k == i then h[j] else if k == j then h[i] else h[k]
  {
    h[i := h[j]][j := h[i]]
  }

  /** Exchanges two elems of the span. */
  method SwapElems<T>(a: array<T>, base: int, i: int, j: int, ghost h: seq<T>) returns (ghost r: seq<T>)
    requires 0 <= base && base + |h| <= a.Length && 0 <= i < |h| && 0 <= j < |h|
    requires forall k :: 0 <= k < |h| ==> a[base + k] == h[k]
    modifies a
    ensures r == Swap(h, i, j)
    ensures forall k :: 0 <= k < |r| ==> a[base + k] == r[k]
    ensures forall k :: 0 <= k < base || base + |h| <= k < a.Length ==> a[k] == old(a[k])
  {
    assert a[base + i] == h[i] && a[base + j] == h[j];
    a[base + i], a[base + j] := a[base + j], a[base + i];
    r := Swap(h, i, j);
  }

  /** The value of a subspan. */
  lemma SubSpan<T>(a: array<T>, base: int, h: seq<T>, i: int, j: int)
    requires 0 <= base && base + |h| <= a.Length && 0 <= i <= j <= |h|
    requires forall k :: 0 <= k < |h| ==> a[base + k] == h[k]
    ensures a[base + i..base + j] == h[i..j]
  {
    forall k | 0 <= k < j - i ensures a[base + i..base + j][k] == h[i..j][k] {
      assert a[base + (i + k)] == h[i + k];
    }
  }

  lemma SpanElems<T>(a: array<T>, lo: int, hi: int, s: seq<T>)
    requires 0 <= lo <= hi <= a.Length && a[lo..hi] == s
    ensures forall k :: 0 <= k < |s| ==> a[lo + k] == s[k]
  {
    forall k | 0 <= k < |s| ensures a[lo + k] == s[k] {
      assert a[lo..hi][k] == s[k];
    }
  }

  lemma SpanIs<T>(a: array<T>, lo: int, hi: int, s: seq<T>)
    requires 0 <= lo <= hi <= a.Length && |s| == hi - lo && forall k :: lo <= k < hi ==> a[k] == s[k - lo]
    ensures a[lo..hi] == s
  {
  }

  lemma SpanSplit<T>(a: array<T>, lo: int, mid: int, hi: int)
    requires 0 <= lo <= mid <= hi <= a.Length
    ensures a[lo..hi] == a[lo..mid] + a[mid..hi]
  {
  }

  lemma SpanHalves<T>(a: array<T>, lo: int, mid: int, hi: int, u: seq<T>, v: seq<T>)
    requires 0 <= lo <= mid <= hi <= a.Length && a[lo..hi] == u + v && |u| == mid - lo
    ensures a[lo..mid] == u && a[mid..hi] == v
  {
    var w := a[lo..hi];
    assert a[lo..mid] == w[..mid - lo] && a[mid..hi] == w[mid - lo..];
  }

  /** h rearranges h0 within [left, right] and nowhere else. */
  ghost predicate Within<T>(h: seq<T>, h0: seq<T>, left: int, right: int) {
    && |h| == |h0| && multiset(h) == multiset(h0)
    && forall k :: 0 <= k < |h| && !(left <= k <= right) ==> h[k] == h0[k]
  }

  lemma WithinRefl<T>(h: seq<T>, left: int, right: int)
    ensures Within(h, h, left, right)
  {
  }

  lemma WithinSwap<T>(h: seq<T>, h0: seq<T>, left: int, right: int, i: int, j: int)
    requires Within(h, h0, left, right) && 0 <= left <= i <= right < |h| && left <= j <= right
    ensures Within(Swap(h, i, j), h0, left, right)
  {
  }

  lemma WithinRange<T>(h: seq<T>, h0: seq<T>, left: int, right: int)
    requires Within(h, h0, left, right) && 0 <= left <= right + 1 <= |h|
    ensures multiset(h[left..right + 1]) == multiset(h0[left..right + 1])
  {
    WithinParts(h, h0, left, right);
    ThreeParts(h, left, right + 1);
    ThreeParts(h0, left, right + 1);
    hide *;
    MiddlePerm(h[..left], h[left..right + 1], h0[left..right + 1], h[right + 1..]);
  }

  lemma ThreeParts<T>(h: seq<T>, i: int, j: int)
    requires 0 <= i <= j <= |h|
    ensures h == h[..i] + h[i..j] + h[j..]
  {
  }

  lemma WithinParts<T>(h: seq<T>, h0: seq<T>, left: int, right: int)
    requires Within(h, h0, left, right) && 0 <= left <= right + 1 <= |h|
    ensures |h| == |h0| && multiset(h) == multiset(h0)
    ensures h[..left] == h0[..left] && h[right + 1..] == h0[right + 1..]
  {
  }

  lemma MiddlePerm<T>(l: seq<T>, w: seq<T>, w0: seq<T>, r: seq<T>)
    requires multiset(l + w + r) == multiset(l + w0 + r)
    ensures multiset(w) == multiset(w0)
  {
    var a, b, c, d := multiset(l), multiset(w), multiset(r), multiset(w0);
    assert multiset(l + w + r) == a + b + c && multiset(l + w0 + r) == a + d + c;
    assert forall x :: a[x] + b[x] + c[x] == (a + b + c)[x] && a[x] + d[x] + c[x] == (a + d + c)[x];
    assert forall x :: b[x] == d[x];
  }
}
