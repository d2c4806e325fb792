/** In-place moves over a span (src/algo/permute.c). A writable span is a range [lo, hi) of an array. */
module Permute {

  function Reversed<T>(s: seq<T>): (r: seq<T>)
    ensures |r| == |s|
    ensures forall i :: 0 <= i < |s| ==> r[i] == s[|s| - 1 - i]
  {
    seq(|s|, i requires 0 <= i < |s| => s[|s| - 1 - i])
  }

  lemma {:induction false} ReversedPerm<T>(s: seq<T>)
    ensures multiset(Reversed(s)) == multiset(s)
    decreases |s|
  {
    if s != [] {
      var front, last := s[..|s| - 1], s[|s| - 1];
      ReversedPerm(front);
      assert s == front + [last];
      assert Reversed(s) == [last] + Reversed(front);
    }
  }

  /** The elems of the span in reverse order, with half as many swaps as elems. */
  method Reverse<T>(a: array<T>, lo: nat, hi: nat) returns (ghost swaps: nat)
    requires lo <= hi <= a.Length
    modifies a
    ensures a[lo..hi] == Reversed(old(a[lo..hi]))
    ensures forall k :: 0 <= k < lo || hi <= k < a.Length ==> a[k] == old(a[k])
    ensures swaps == (hi - lo) / 2
  {
    swaps := 0;
    if hi - lo < 2 {
      return;
    }
    var left, right := lo, hi - 1;
    while left < right
      invariant lo <= left <= right + 1 <= hi && lo <= right < hi
      invariant left - lo == hi - 1 - right == swaps
      invariant forall i :: lo <= i < left ==> a[i] == old(a[lo + hi - 1 - i]) && a[lo + hi - 1 - i] == old(a[i])
      invariant forall i :: left <= i <= right ==> a[i] == old(a[i])
      invariant forall k :: 0 <= k < lo || hi <= k < a.Length ==> a[k] == old(a[k])
    {
      a[left], a[right] := a[right], a[left];
      left, right, swaps := left + 1, right - 1, swaps + 1;
    }
    ghost var was := old(a[lo..hi]);
    forall i | 0 <= i < |was| ensures a[lo..hi][i] == Reversed(was)[i] {
      var j := lo + hi - 1 - (lo + i);
      assert Reversed(was)[i] == old(a[j]);
      if lo + i < left {
        assert a[lo + i] == old(a[j]);
      } else if right < lo + i {
        assert lo <= j < left;
        assert a[lo + hi - 1 - j] == old(a[j]);
      } else {
        assert a[lo + i] == old(a[lo + i]);
      }
    }
  }

  lemma RotateIsThreeReversals<T>(s: seq<T>, t: seq<T>)
    ensures Reversed(Reversed(s) + Reversed(t)) == t + s
  {
  }

  /** The part from mid on trades places with the part before it, in at most one swap per elem. */
  method Rotate<T>(a: array<T>, lo: nat, hi: nat, mid: nat) returns (ghost swaps: nat)
    requires lo <= mid <= hi <= a.Length
    modifies a
    ensures a[lo..hi] == old(a[mid..hi]) + old(a[lo..mid])
    ensures forall k :: 0 <= k < lo || hi <= k < a.Length ==> a[k] == old(a[k])
    ensures swaps <= hi - lo
  {
    ghost var l, r := a[lo..mid], a[mid..hi];
    assert a[lo..hi] == l + r;
    if mid == lo || mid == hi {
      return 0;
    }
    ghost var first := Reverse(a, lo, mid);
    assert a[mid..hi] == r;
    ghost var second := Reverse(a, mid, hi);
    assert a[lo..hi] == a[lo..mid] + a[mid..hi] == Reversed(l) + Reversed(r);
    ghost var third := Reverse(a, lo, hi);
    swaps := first + second + third;
    RotateIsThreeReversals(l, r);
  }
}
