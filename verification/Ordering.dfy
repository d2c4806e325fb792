/** Comparators, sorted sequences and rearrangements: the vocabulary every algorithm below is specified in. */
module Ordering {

  /** A comparator answers negative, zero or positive. The law it must obey is that of a total preorder:
      swapping the operands flips the sign, and "not greater" is transitive. Elems that compare equal
      may still be different values. */
  ghost predicate IsOrder<T(!new)>(cmp: (T, T) -> int) {
    && (forall x, y :: cmp(x, y) < 0 <==> cmp(y, x) > 0)
    && (forall x, y, z :: cmp(x, y) <= 0 && cmp(y, z) <= 0 ==> cmp(x, z) <= 0)
  }

  /** Comparing by a number is such an order, and elems with the same number are equal in it. */
  lemma ByNumber<T(!new)>(f: T -> int)
    ensures IsOrder((x, y) => (if f(x) > f(y) then 1 else 0) - (if f(x) < f(y) then 1 else 0))
  {
  }

  /** The same order read backwards. */
  function Flip<T>(cmp: (T, T) -> int): (T, T) -> int {
    (x, y) => cmp(y, x)
  }

  lemma FlipIsOrder<T(!new)>(cmp: (T, T) -> int)
    requires IsOrder(cmp)
    ensures IsOrder(Flip(cmp))
  {
    var f := Flip(cmp);
    forall x, y ensures f(x, y) < 0 <==> f(y, x) > 0 {
      assert cmp(x, y) < 0 <==> cmp(y, x) > 0;
    }
  }

  ghost predicate Sorted<T>(cmp: (T, T) -> int, s: seq<T>) {
    forall i, j :: 0 <= i < j < |s| ==> cmp(s[i], s[j]) <= 0
  }

  /** No elem of s orders after any elem of t. */
  ghost predicate AllLe<T>(cmp: (T, T) -> int, s: seq<T>, t: seq<T>) {
    forall i, j :: 0 <= i < |s| && 0 <= j < |t| ==> cmp(s[i], t[j]) <= 0
  }

  /** The elems of s that compare equal to x, in the order they stand in. */
  ghost function Same<T>(cmp: (T, T) -> int, x: T, s: seq<T>): seq<T> {
    if s == [] then []
    else if cmp(s[0], x) == 0 then [s[0]] + Same(cmp, x, s[1..])
    else Same(cmp, x, s[1..])
  }

  /** r rearranges s without ever moving one elem past another it compares equal to. */
  ghost predicate StablePerm<T(!new)>(cmp: (T, T) -> int, r: seq<T>, s: seq<T>) {
    forall x :: Agree(cmp, x, r, s)
  }

  /** r and s hold the same elems of the class of x, in the same order. */
  ghost predicate Agree<T>(cmp: (T, T) -> int, x: T, r: seq<T>, s: seq<T>) {
    Same(cmp, x, r) == Same(cmp, x, s)
  }

  // ---------- Same ----------

  lemma {:induction false} SameConcat<T>(cmp: (T, T) -> int, x: T, s: seq<T>, t: seq<T>)
    ensures Same(cmp, x, s + t) == Same(cmp, x, s) + Same(cmp, x, t)
  {
    if s == [] {
      assert s + t == t;
    } else {
      var u := s + t;
      assert u[0] == s[0] && u[1..] == s[1..] + t;
      SameConcat(cmp, x, s[1..], t);
      var v, w := Same(cmp, x, s[1..]), Same(cmp, x, t);
      assert [s[0]] + (v + w) == [s[0]] + v + w;
    }
  }

  lemma {:induction false} SameNone<T>(cmp: (T, T) -> int, x: T, s: seq<T>)
    requires forall i :: 0 <= i < |s| ==> cmp(s[i], x) != 0
    ensures Same(cmp, x, s) == []
  {
    if s != [] {
      SameNone(cmp, x, s[1..]);
    }
  }

  lemma {:induction false} SameAll<T>(cmp: (T, T) -> int, x: T, s: seq<T>)
    requires forall i :: 0 <= i < |s| ==> cmp(s[i], x) == 0
    ensures Same(cmp, x, s) == s
  {
    if s != [] {
      SameAll(cmp, x, s[1..]);
      assert s == [s[0]] + s[1..];
    }
  }

  lemma {:induction false} SameMember<T>(cmp: (T, T) -> int, x: T, s: seq<T>, y: T)
    ensures y in Same(cmp, x, s) <==> y in s && cmp(y, x) == 0
  {
    if s != [] {
      SameMember(cmp, x, s[1..], y);
      assert s == [s[0]] + s[1..];
    }
  }

  lemma {:induction false} SameCount<T>(cmp: (T, T) -> int, x: T, s: seq<T>)
    requires cmp(x, x) == 0
    ensures multiset(Same(cmp, x, s))[x] == multiset(s)[x]
  {
    if s != [] {
      SameCount(cmp, x, s[1..]);
      assert s == [s[0]] + s[1..];
    }
  }

  lemma StablePermConcat<T(!new)>(cmp: (T, T) -> int, r: seq<T>, s: seq<T>, r': seq<T>, s': seq<T>)
    requires StablePerm(cmp, r, s) && StablePerm(cmp, r', s')
    ensures StablePerm(cmp, r + r', s + s')
  {
    forall x ensures Agree(cmp, x, r + r', s + s') {
      assert Agree(cmp, x, r, s) && Agree(cmp, x, r', s');
      SameConcat(cmp, x, r, r');
      SameConcat(cmp, x, s, s');
    }
  }

  /** A stable rearrangement is a rearrangement. */
  lemma StablePermIsPerm<T(!new)>(cmp: (T, T) -> int, r: seq<T>, s: seq<T>)
    requires IsOrder(cmp) && StablePerm(cmp, r, s)
    ensures multiset(r) == multiset(s)
    ensures |r| == |s|
  {
    forall x ensures multiset(r)[x] == multiset(s)[x] {
      assert Agree(cmp, x, r, s);
      SameCount(cmp, x, r);
      SameCount(cmp, x, s);
    }
    assert multiset(r) == multiset(s);
    assert |multiset(r)| == |r| && |multiset(s)| == |s|;
  }

  lemma StablePermRefl<T(!new)>(cmp: (T, T) -> int, s: seq<T>)
    ensures StablePerm(cmp, s, s)
  {
    forall x ensures Agree(cmp, x, s, s) {
    }
  }

  lemma StablePermSym<T(!new)>(cmp: (T, T) -> int, r: seq<T>, s: seq<T>)
    requires StablePerm(cmp, r, s)
    ensures StablePerm(cmp, s, r)
  {
    forall x ensures Agree(cmp, x, s, r) {
      assert Agree(cmp, x, r, s);
    }
  }

  lemma StablePermTrans<T(!new)>(cmp: (T, T) -> int, r: seq<T>, s: seq<T>, t: seq<T>)
    requires StablePerm(cmp, r, s) && StablePerm(cmp, s, t)
    ensures StablePerm(cmp, r, t)
  {
    forall x ensures Agree(cmp, x, r, t) {
      assert Agree(cmp, x, r, s) && Agree(cmp, x, s, t);
    }
  }

  /** Two runs that have no elem in common up to cmp may trade places. */
  lemma StablePermSwap<T(!new)>(cmp: (T, T) -> int, s: seq<T>, t: seq<T>)
    requires IsOrder(cmp)
    requires forall i, j :: 0 <= i < |s| && 0 <= j < |t| ==> cmp(t[j], s[i]) < 0
    ensures StablePerm(cmp, t + s, s + t)
  {
    forall x ensures Agree(cmp, x, t + s, s + t) {
      SameConcat(cmp, x, s, t);
      SameConcat(cmp, x, t, s);
      if i :| 0 <= i < |s| && cmp(s[i], x) == 0 {
        forall j | 0 <= j < |t| ensures cmp(t[j], x) != 0 {
          assert cmp(t[j], s[i]) < 0;
        }
        SameNone(cmp, x, t);
      } else {
        SameNone(cmp, x, s);
      }
    }
  }

  /** An elem less than all of s may be moved in front of s. */
  lemma MoveFront<T(!new)>(cmp: (T, T) -> int, s: seq<T>, y: T, t: seq<T>)
    requires IsOrder(cmp)
    requires forall i :: 0 <= i < |s| ==> cmp(y, s[i]) < 0
    ensures StablePerm(cmp, [y] + (s + t), s + ([y] + t))
  {
    StablePermSwap(cmp, s, [y]);
    StablePermRefl(cmp, t);
    StablePermConcat(cmp, [y] + s, s + [y], t, t);
    assert [y] + (s + t) == [y] + s + t;
    assert s + ([y] + t) == s + [y] + t;
  }

  /** An elem greater than all of t may be moved behind t. */
  lemma MoveBack<T(!new)>(cmp: (T, T) -> int, s: seq<T>, x: T, t: seq<T>)
    requires IsOrder(cmp)
    requires forall i :: 0 <= i < |t| ==> cmp(t[i], x) < 0
    ensures StablePerm(cmp, s + t + [x], s + [x] + t)
  {
    StablePermSwap(cmp, [x], t);
    StablePermRefl(cmp, s);
    StablePermConcat(cmp, s, s, t + [x], [x] + t);
    assert s + (t + [x]) == s + t + [x];
    assert s + ([x] + t) == s + [x] + t;
  }

  /** An elem less than all of t may be moved in front of t. */
  lemma MoveInto<T(!new)>(cmp: (T, T) -> int, s: seq<T>, x: T, t: seq<T>)
    requires IsOrder(cmp)
    requires forall i :: 0 <= i < |t| ==> cmp(x, t[i]) < 0
    ensures StablePerm(cmp, s + ([x] + t), s + t + [x])
  {
    StablePermSwap(cmp, t, [x]);
    StablePermRefl(cmp, s);
    StablePermConcat(cmp, s, s, [x] + t, t + [x]);
    assert s + (t + [x]) == s + t + [x];
  }

  // ---------- sorted sequences ----------

  lemma SortedConcat<T>(cmp: (T, T) -> int, s: seq<T>, t: seq<T>)
    requires Sorted(cmp, s) && Sorted(cmp, t) && AllLe(cmp, s, t)
    ensures Sorted(cmp, s + t)
  {
  }

  lemma SortedSlice<T>(cmp: (T, T) -> int, s: seq<T>, lo: nat, hi: nat)
    requires Sorted(cmp, s) && lo <= hi <= |s|
    ensures Sorted(cmp, s[lo..hi])
  {
    forall i, j | 0 <= i < j < hi - lo ensures cmp(s[lo..hi][i], s[lo..hi][j]) <= 0 {
      assert s[lo..hi][i] == s[lo + i] && s[lo..hi][j] == s[lo + j];
    }
  }

  lemma SortedTail<T>(cmp: (T, T) -> int, s: seq<T>)
    requires Sorted(cmp, s) && s != []
    ensures Sorted(cmp, s[1..])
    ensures forall i :: 0 <= i < |s| - 1 ==> cmp(s[0], s[1..][i]) <= 0
  {
    forall i, j | 0 <= i < j < |s| - 1 ensures cmp(s[1..][i], s[1..][j]) <= 0 {
      assert s[1..][i] == s[i + 1] && s[1..][j] == s[j + 1];
    }
    forall i | 0 <= i < |s| - 1 ensures cmp(s[0], s[1..][i]) <= 0 {
      assert s[1..][i] == s[i + 1];
    }
  }

  /** A sorted run starts with the first elem of its least class, whatever else it holds. */
  lemma SortedHead<T(!new)>(cmp: (T, T) -> int, r: seq<T>, s: seq<T>)
    requires IsOrder(cmp) && Sorted(cmp, r) && Sorted(cmp, s) && StablePerm(cmp, r, s)
    requires r != []
    ensures s != [] && r[0] == s[0]
  {
    var x := r[0];
    assert Agree(cmp, x, r, s);
    SameMember(cmp, x, r, x);
    SameMember(cmp, x, s, x);
    var k :| 0 <= k < |s| && s[k] == x;
    var y := s[0];
    assert Agree(cmp, y, r, s);
    SameMember(cmp, y, s, y);
    SameMember(cmp, y, r, y);
    var l :| 0 <= l < |r| && r[l] == y;
    assert cmp(x, y) <= 0 && cmp(y, x) <= 0;
    assert Same(cmp, x, r)[0] == r[0] && Same(cmp, x, s)[0] == s[0];
  }

  lemma StablePermTail<T(!new)>(cmp: (T, T) -> int, r: seq<T>, s: seq<T>)
    requires r != [] && s != [] && r[0] == s[0] && StablePerm(cmp, r, s)
    ensures StablePerm(cmp, r[1..], s[1..])
  {
    forall x ensures Agree(cmp, x, r[1..], s[1..]) {
      assert Agree(cmp, x, r, s);
      if cmp(r[0], x) == 0 {
        assert Same(cmp, x, r)[1..] == Same(cmp, x, r[1..]);
        assert Same(cmp, x, s)[1..] == Same(cmp, x, s[1..]);
      }
    }
  }

  /** The stable sort of a sequence is unique: sortedness together with the order inside every class of
      equal elems leaves nothing open. */
  lemma {:induction false} StableSortUnique<T(!new)>(cmp: (T, T) -> int, r: seq<T>, s: seq<T>)
    requires IsOrder(cmp) && Sorted(cmp, r) && Sorted(cmp, s) && StablePerm(cmp, r, s)
    ensures r == s
    decreases |r|
  {
    if r == [] {
      if s != [] {
        assert Agree(cmp, s[0], r, s);
        SameMember(cmp, s[0], s, s[0]);
        SameMember(cmp, s[0], r, s[0]);
      }
    } else {
      SortedHead(cmp, r, s);
      StablePermTail(cmp, r, s);
      SortedTail(cmp, r);
      SortedTail(cmp, s);
      StableSortUnique(cmp, r[1..], s[1..]);
      assert r == [r[0]] + r[1..] && s == [s[0]] + s[1..];
    }
  }

  lemma PrependLeast<T(!new)>(cmp: (T, T) -> int, x: T, r: seq<T>, u: seq<T>)
    requires IsOrder(cmp) && Sorted(cmp, r) && StablePerm(cmp, r, u)
    requires forall i :: 0 <= i < |u| ==> cmp(x, u[i]) <= 0
    ensures Sorted(cmp, [x] + r)
    ensures StablePerm(cmp, [x] + r, [x] + u)
  {
    StablePermIsPerm(cmp, r, u);
    forall i | 0 <= i < |r| ensures cmp(x, r[i]) <= 0 {
      assert r[i] in multiset(u);
    }
    StablePermRefl(cmp, [x]);
    StablePermConcat(cmp, [x], [x], r, u);
  }

  // ---------- the stable sort and the stable merge, as functions ----------

  /** The stable sort of s, by insertion in front of the first elem not less than the new one. */
  ghost function StableSorted<T>(cmp: (T, T) -> int, s: seq<T>): (r: seq<T>)
    ensures |r| == |s|
  {
    if s == [] then [] else Insert(cmp, s[0], StableSorted(cmp, s[1..]))
  }

  lemma SortedOne<T>(cmp: (T, T) -> int, s: seq<T>)
    requires |s| <= 1
    ensures StableSorted(cmp, s) == s
  {
    if s != [] {
      assert StableSorted(cmp, s[1..]) == [];
    }
  }

  ghost function Insert<T>(cmp: (T, T) -> int, x: T, s: seq<T>): (r: seq<T>)
    ensures |r| == |s| + 1
  {
    if s == [] || cmp(x, s[0]) <= 0 then [x] + s else [s[0]] + Insert(cmp, x, s[1..])
  }

  lemma {:induction false} InsertIsStable<T(!new)>(cmp: (T, T) -> int, x: T, s: seq<T>)
    requires IsOrder(cmp) && Sorted(cmp, s)
    ensures Sorted(cmp, Insert(cmp, x, s))
    ensures StablePerm(cmp, Insert(cmp, x, s), [x] + s)
  {
    if s == [] || cmp(x, s[0]) <= 0 {
      StablePermRefl(cmp, [x] + s);
    } else {
      SortedTail(cmp, s);
      InsertIsStable(cmp, x, s[1..]);
      MergeTakesRight(cmp, [x], s[0], s[1..], Insert(cmp, x, s[1..]));
      assert s == [s[0]] + s[1..];
    }
  }

  lemma {:induction false} StableSortedIsStable<T(!new)>(cmp: (T, T) -> int, s: seq<T>)
    requires IsOrder(cmp)
    ensures Sorted(cmp, StableSorted(cmp, s))
    ensures StablePerm(cmp, StableSorted(cmp, s), s)
  {
    if s == [] {
      StablePermRefl(cmp, s);
    } else {
      var t := StableSorted(cmp, s[1..]);
      StableSortedIsStable(cmp, s[1..]);
      InsertIsStable(cmp, s[0], t);
      StablePermRefl(cmp, [s[0]]);
      StablePermConcat(cmp, [s[0]], [s[0]], t, s[1..]);
      assert s == [s[0]] + s[1..];
      StablePermTrans(cmp, StableSorted(cmp, s), [s[0]] + t, s);
    }
  }

  /** What a stable sort is: the one sorted sequence that keeps every class of equal elems in order. */
  lemma StableSortedIff<T(!new)>(cmp: (T, T) -> int, r: seq<T>, s: seq<T>)
    requires IsOrder(cmp)
    ensures r == StableSorted(cmp, s) <==> Sorted(cmp, r) && StablePerm(cmp, r, s)
  {
    StableSortedIsStable(cmp, s);
    if Sorted(cmp, r) && StablePerm(cmp, r, s) {
      StablePermSym(cmp, StableSorted(cmp, s), s);
      StablePermTrans(cmp, r, s, StableSorted(cmp, s));
      StableSortUnique(cmp, r, StableSorted(cmp, s));
    }
  }

  /** Sequences that agree class by class have the same stable sort. */
  lemma StableSortedCong<T(!new)>(cmp: (T, T) -> int, r: seq<T>, s: seq<T>)
    requires IsOrder(cmp) && StablePerm(cmp, r, s)
    ensures StableSorted(cmp, r) == StableSorted(cmp, s)
  {
    hide IsOrder;
    StableSortedIsStable(cmp, r);
    StablePermTrans(cmp, StableSorted(cmp, r), r, s);
    StableSortedIff(cmp, StableSorted(cmp, r), s);
  }

  lemma StableSortedIsPerm<T(!new)>(cmp: (T, T) -> int, s: seq<T>)
    requires IsOrder(cmp)
    ensures multiset(StableSorted(cmp, s)) == multiset(s)
    ensures |StableSorted(cmp, s)| == |s|
    ensures Sorted(cmp, StableSorted(cmp, s))
  {
    StableSortedIsStable(cmp, s);
    StablePermIsPerm(cmp, StableSorted(cmp, s), s);
  }

  /** The merge of two runs that takes from the left one on a tie. */
  ghost function Merge<T>(cmp: (T, T) -> int, s: seq<T>, t: seq<T>): (r: seq<T>)
    ensures |r| == |s| + |t|
  {
    if s == [] then t
    else if t == [] then s
    else if cmp(s[0], t[0]) <= 0 then [s[0]] + Merge(cmp, s[1..], t)
    else [t[0]] + Merge(cmp, s, t[1..])
  }

  lemma MergeNothing<T>(cmp: (T, T) -> int, s: seq<T>, t: seq<T>)
    requires s == [] || t == []
    ensures Merge(cmp, s, t) == s + t
  {
  }

  lemma MergeTakesLeft<T(!new)>(cmp: (T, T) -> int, x: T, s: seq<T>, t: seq<T>, r: seq<T>)
    requires IsOrder(cmp) && Sorted(cmp, r) && StablePerm(cmp, r, s + t)
    requires forall i :: 0 <= i < |s| ==> cmp(x, s[i]) <= 0
    requires forall i :: 0 <= i < |t| ==> cmp(x, t[i]) <= 0
    ensures Sorted(cmp, [x] + r)
    ensures StablePerm(cmp, [x] + r, [x] + s + t)
  {
    PrependLeast(cmp, x, r, s + t);
    assert [x] + (s + t) == [x] + s + t;
  }

  lemma MergeTakesRight<T(!new)>(cmp: (T, T) -> int, s: seq<T>, y: T, t: seq<T>, r: seq<T>)
    requires IsOrder(cmp) && Sorted(cmp, r) && StablePerm(cmp, r, s + t)
    requires forall i :: 0 <= i < |s| ==> cmp(y, s[i]) < 0
    requires forall i :: 0 <= i < |t| ==> cmp(y, t[i]) <= 0
    ensures Sorted(cmp, [y] + r)
    ensures StablePerm(cmp, [y] + r, s + ([y] + t))
  {
    PrependLeast(cmp, y, r, s + t);
    MoveFront(cmp, s, y, t);
    StablePermTrans(cmp, [y] + r, [y] + (s + t), s + ([y] + t));
  }

  lemma {:induction false} MergeIsStable<T(!new)>(cmp: (T, T) -> int, s: seq<T>, t: seq<T>)
    requires IsOrder(cmp) && Sorted(cmp, s) && Sorted(cmp, t)
    ensures Sorted(cmp, Merge(cmp, s, t))
    ensures StablePerm(cmp, Merge(cmp, s, t), s + t)
    decreases |s| + |t|
  {
    if s == [] {
      assert s + t == t;
      StablePermRefl(cmp, t);
    } else if t == [] {
      assert s + t == s;
      StablePermRefl(cmp, s);
    } else if cmp(s[0], t[0]) <= 0 {
      SortedTail(cmp, s);
      MergeIsStable(cmp, s[1..], t);
      MergeTakesLeft(cmp, s[0], s[1..], t, Merge(cmp, s[1..], t));
      assert s == [s[0]] + s[1..];
    } else {
      SortedTail(cmp, t);
      MergeIsStable(cmp, s, t[1..]);
      MergeTakesRight(cmp, s, t[0], t[1..], Merge(cmp, s, t[1..]));
      assert t == [t[0]] + t[1..];
    }
  }

  /** Merging two sorted runs is stably sorting their concatenation. */
  lemma MergeIsStableSort<T(!new)>(cmp: (T, T) -> int, s: seq<T>, t: seq<T>)
    requires IsOrder(cmp) && Sorted(cmp, s) && Sorted(cmp, t)
    ensures Merge(cmp, s, t) == StableSorted(cmp, s + t)
  {
    MergeIsStable(cmp, s, t);
    StableSortedIff(cmp, Merge(cmp, s, t), s + t);
  }

  lemma MergeSuffices<T(!new)>(cmp: (T, T) -> int, s: seq<T>, t: seq<T>, r: seq<T>, u: seq<T>)
    requires IsOrder(cmp) && Sorted(cmp, s) && Sorted(cmp, t)
    requires u == s + t && Sorted(cmp, r) && StablePerm(cmp, r, u)
    ensures r == Merge(cmp, s, t)
  {
    MergeIsStableSort(cmp, s, t);
    StableSortedIff(cmp, r, u);
  }

  lemma SortedSnoc<T>(cmp: (T, T) -> int, s: seq<T>, x: T)
    requires Sorted(cmp, s + [x])
    ensures Sorted(cmp, s)
    ensures forall i :: 0 <= i < |s| ==> cmp(s[i], x) <= 0
  {
    var u := s + [x];
    forall i | 0 <= i < |s| ensures cmp(s[i], x) <= 0 {
      assert u[i] == s[i] && u[|s|] == x;
    }
    forall i, j | 0 <= i < j < |s| ensures cmp(s[i], s[j]) <= 0 {
      assert u[i] == s[i] && u[j] == s[j];
    }
  }

  lemma StrictlyBelowLast<T(!new)>(cmp: (T, T) -> int, s: seq<T>, x: T)
    requires IsOrder(cmp) && Sorted(cmp, s)
    requires s != [] && cmp(x, s[|s| - 1]) > 0
    ensures forall i :: 0 <= i < |s| ==> cmp(s[i], x) < 0
  {
    var y := s[|s| - 1];
    forall i | 0 <= i < |s| ensures cmp(s[i], x) < 0 {
      assert cmp(s[i], y) <= 0;
      assert cmp(x, s[i]) <= 0 ==> cmp(x, y) <= 0;
    }
  }

  lemma BelowLast<T(!new)>(cmp: (T, T) -> int, s: seq<T>, x: T)
    requires IsOrder(cmp) && Sorted(cmp, s)
    requires s != [] ==> cmp(s[|s| - 1], x) <= 0
    ensures forall i :: 0 <= i < |s| ==> cmp(s[i], x) <= 0
  {
  }

  /** The same merge, read from the back: a left elem strictly greater than the last right one goes last. */
  lemma MergeBackLeft<T(!new)>(cmp: (T, T) -> int, s: seq<T>, x: T, t: seq<T>)
    requires IsOrder(cmp) && Sorted(cmp, s + [x]) && Sorted(cmp, t)
    requires t != [] && cmp(x, t[|t| - 1]) > 0
    ensures Merge(cmp, s + [x], t) == Merge(cmp, s, t) + [x]
  {
    SortedSnoc(cmp, s, x);
    StrictlyBelowLast(cmp, t, x);
    var r := Merge(cmp, s, t);
    MergeIsStable(cmp, s, t);
    AppendGreatest(cmp, r, s + t, x);
    MoveBack(cmp, s, x, t);
    StablePermTrans(cmp, r + [x], s + t + [x], s + [x] + t);
    MergeSuffices(cmp, s + [x], t, r + [x], s + [x] + t);
  }

  /** And the last right elem goes last when no left one is greater. */
  lemma MergeBackRight<T(!new)>(cmp: (T, T) -> int, s: seq<T>, t: seq<T>, y: T)
    requires IsOrder(cmp) && Sorted(cmp, s) && Sorted(cmp, t + [y])
    requires s != [] ==> cmp(s[|s| - 1], y) <= 0
    ensures Merge(cmp, s, t + [y]) == Merge(cmp, s, t) + [y]
  {
    SortedSnoc(cmp, t, y);
    BelowLast(cmp, s, y);
    var r := Merge(cmp, s, t);
    MergeIsStable(cmp, s, t);
    AppendGreatest(cmp, r, s + t, y);
    MergeSuffices(cmp, s, t + [y], r + [y], s + t + [y]);
  }

  lemma AppendGreatest<T(!new)>(cmp: (T, T) -> int, r: seq<T>, u: seq<T>, x: T)
    requires IsOrder(cmp) && Sorted(cmp, r) && StablePerm(cmp, r, u)
    requires forall i :: 0 <= i < |u| ==> cmp(u[i], x) <= 0
    ensures Sorted(cmp, r + [x])
    ensures StablePerm(cmp, r + [x], u + [x])
  {
    StablePermIsPerm(cmp, r, u);
    forall i | 0 <= i < |r| ensures cmp(r[i], x) <= 0 {
      assert r[i] in multiset(u);
    }
    StablePermRefl(cmp, [x]);
    StablePermConcat(cmp, r, u, [x], [x]);
  }
}
