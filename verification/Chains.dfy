/** Chains of nodes (src/ds/list.c). The nodes a routine may touch are a fixed sequence ns of different objects, and a
    link is written as a position in ns: link[k] is where ns[k].next points, -1 standing for null. A chain is then a
    sequence of positions, and relinking is arithmetic on link. */
module Chains {
  import opened Ordering
  import opened Sequences
  import opened Counting

  class Node<T> {
    var next: Node?<T>
    var prev: Node?<T>
    var elem: T

    constructor (val: T)
      ensures next == null && prev == null && elem == val
    {
      next, prev, elem := null, null, val;
    }
  }

  ghost function At<T>(ns: seq<Node<T>>, k: int): Node?<T> {
    if 0 <= k < |ns| then ns[k] else null
  }

  /** The next pointers of ns are the ones link describes. */
  ghost predicate Tied<T>(ns: seq<Node<T>>, link: seq<int>)
    reads ns`next
  {
    |link| == |ns| && forall k {:trigger ns[k].next} :: 0 <= k < |ns| ==> ns[k].next == At(ns, link[k])
  }

  /** The elems of ns are es. */
  ghost predicate Holds<T>(ns: seq<Node<T>>, es: seq<T>)
    reads ns`elem
  {
    |es| == |ns| && forall k {:trigger ns[k].elem} :: 0 <= k < |ns| ==> ns[k].elem == es[k]
  }

  /** The order cmp puts on the positions of es; positions there are none of count as the first. */
  ghost function ByElem<T>(cmp: (T, T) -> int, es: seq<T>): (int, int) -> int {
    (i, j) => if es == [] then 0 else cmp(es[Clamp(i, |es|)], es[Clamp(j, |es|)])
  }

  ghost function Clamp(i: int, n: int): (r: int)
    ensures 0 < n ==> 0 <= r < n
  {
    if 0 <= i < n then i else 0
  }

  lemma ByElemIsOrder<T(!new)>(cmp: (T, T) -> int, es: seq<T>)
    requires IsOrder(cmp)
    ensures IsOrder(ByElem(cmp, es))
  {
    hide Clamp;
    var c := ByElem(cmp, es);
    if es != [] {
      forall x, y ensures c(x, y) < 0 <==> c(y, x) > 0 {
        assert c(x, y) == cmp(es[Clamp(x, |es|)], es[Clamp(y, |es|)]);
        assert c(y, x) == cmp(es[Clamp(y, |es|)], es[Clamp(x, |es|)]);
      }
      forall x, y, z | c(x, y) <= 0 && c(y, z) <= 0 ensures c(x, z) <= 0 {
        assert cmp(es[Clamp(x, |es|)], es[Clamp(y, |es|)]) <= 0;
        assert cmp(es[Clamp(y, |es|)], es[Clamp(z, |es|)]) <= 0;
      }
    }
  }

  // ---------- positions ----------

  /** Every position of s links to the one after it. */
  ghost predicate Links(link: seq<int>, s: seq<int>) {
    && (forall i :: 0 <= i < |s| ==> 0 <= s[i] < |link|)
    && (forall i {:trigger link[s[i]]} :: 0 <= i < |s| - 1 ==> link[s[i]] == s[i + 1])
  }

  /** And the last one links to nothing. */
  ghost predicate Path(link: seq<int>, s: seq<int>) {
    Links(link, s) && (s != [] ==> link[s[|s| - 1]] == -1)
  }

  ghost function First(s: seq<int>): int {
    if s == [] then -1 else s[0]
  }

  ghost predicate Apart(s: seq<int>, t: seq<int>) {
    forall i, j :: 0 <= i < |s| && 0 <= j < |t| ==> s[i] != t[j]
  }

  ghost predicate InRange(s: seq<int>, lo: int, hi: int) {
    forall i :: 0 <= i < |s| ==> lo <= s[i] < hi
  }

  ghost predicate UnchangedOutside(link: seq<int>, was: seq<int>, lo: int, hi: int) {
    |link| == |was| && forall k :: 0 <= k < |link| && !(lo <= k < hi) ==> link[k] == was[k]
  }

  /** The chain done is linked up to its last node; s and t are what is left of the chains being merged into it. */
  ghost predicate Weaving(link: seq<int>, done: seq<int>, s: seq<int>, t: seq<int>) {
    && Links(link, done) && Path(link, s) && Path(link, t)
    && Distinct(done) && Distinct(s) && Distinct(t)
    && Apart(done, s) && Apart(done, t) && Apart(s, t)
  }

  ghost function Append(link: seq<int>, done: seq<int>, k: int): (r: seq<int>)
    ensures |r| == |link|
  {
    if done == [] || !(0 <= done[|done| - 1] < |link|) then link else link[done[|done| - 1] := k]
  }

  lemma LinksKept(link: seq<int>, s: seq<int>, done: seq<int>, k: int)
    requires Path(link, s) && Apart(done, s)
    ensures Path(Append(link, done, k), s)
  {
  }

  lemma LinkedOn(link: seq<int>, done: seq<int>, k: int)
    requires Links(link, done) && Distinct(done) && 0 <= k < |link|
    ensures Links(Append(link, done, k), done + [k])
  {
    var l := Append(link, done, k);
    var d := done + [k];
    forall i | 0 <= i < |d| - 1 ensures l[d[i]] == d[i + 1] {
      if i < |done| - 1 {
        assert link[done[i]] == done[i + 1];
      }
    }
  }

  lemma PathTail(link: seq<int>, s: seq<int>)
    requires Path(link, s) && s != []
    ensures 0 <= s[0] < |link| && Path(link, s[1..]) && link[s[0]] == First(s[1..])
  {
    var t := s[1..];
    assert link[s[0]] == First(t);
    forall i | 0 <= i < |t| - 1 ensures link[t[i]] == t[i + 1] {
      assert link[s[i + 1]] == s[i + 2];
    }
  }

  lemma DistinctTail(s: seq<int>)
    requires Distinct(s) && s != []
    ensures Distinct(s[1..]) && Apart([s[0]], s[1..])
  {
  }

  lemma ApartMove(done: seq<int>, s: seq<int>, t: seq<int>)
    requires s != [] && Distinct(s) && Distinct(done) && Apart(done, s) && Apart(done, t) && Apart(s, t)
    ensures Apart(done + [s[0]], s[1..]) && Apart(done + [s[0]], t) && Apart(s[1..], t) && Distinct(done + [s[0]])
  {
  }

  /** One round of the merge: the first of s goes behind done. */
  lemma Take(link: seq<int>, done: seq<int>, s: seq<int>, t: seq<int>)
    requires Weaving(link, done, s, t) && s != []
    ensures Weaving(Append(link, done, s[0]), done + [s[0]], s[1..], t) && Path(Append(link, done, s[0]), s)
  {
    hide Links, Path, Apart, Distinct, Append;
    LinksKept(link, s, done, s[0]);
    PathTail(link, s);
    DistinctTail(s);
    ApartMove(done, s, t);
    ApartTail(done, s);
    LinksKept(link, s[1..], done, s[0]);
    LinksKept(link, t, done, s[0]);
    LinkedOn(link, done, s[0]);
  }

  lemma ApartTail(done: seq<int>, s: seq<int>)
    requires Apart(done, s) && s != []
    ensures Apart(done, s[1..])
  {
  }

  lemma WeavingFlip(link: seq<int>, done: seq<int>, s: seq<int>, t: seq<int>)
    requires Weaving(link, done, s, t)
    ensures Weaving(link, done, t, s)
  {
  }

  /** The last link of all: what is left of one chain follows as it is. */
  lemma Close(link: seq<int>, done: seq<int>, s: seq<int>)
    requires Weaving(link, done, s, [])
    ensures Path(Append(link, done, First(s)), done + s) && Distinct(done + s)
  {
    var l := Append(link, done, First(s));
    var d := done + s;
    LinksKept(link, s, done, First(s));
    forall i | 0 <= i < |d| - 1 ensures l[d[i]] == d[i + 1] {
      if i < |done| - 1 {
        assert link[done[i]] == done[i + 1];
      } else if |done| <= i {
        assert l[s[i - |done|]] == s[i - |done| + 1];
      }
    }
  }

  // ---------- merging ----------

  /** Where merge_chains stands: done is linked up, s and t are still to come, and nothing outside [lo, hi) was touched.
      */
  ghost predicate Merging(c: (int, int) -> int, was: seq<int>, all: seq<int>, link: seq<int>, done: seq<int>,
                          s: seq<int>, t: seq<int>, lo: int, hi: int) {
    && Weaving(link, done, s, t) && all == done + Merge(c, s, t)
    && UnchangedOutside(link, was, lo, hi) && InRange(done, lo, hi) && InRange(s, lo, hi) && InRange(t, lo, hi)
  }

  lemma MergeStarts(c: (int, int) -> int, link: seq<int>, s: seq<int>, t: seq<int>, lo: int, mid: int, hi: int)
    requires Path(link, s) && Path(link, t) && Distinct(s) && Distinct(t) && lo <= mid <= hi
    requires InRange(s, lo, mid) && InRange(t, mid, hi)
    ensures Merging(c, link, Merge(c, s, t), link, [], s, t, lo, hi)
  {
    assert [] + Merge(c, s, t) == Merge(c, s, t);
  }

  lemma TakeLeft(c: (int, int) -> int, was: seq<int>, all: seq<int>, link: seq<int>, done: seq<int>, s: seq<int>,
                 t: seq<int>, lo: int, hi: int)
    requires Merging(c, was, all, link, done, s, t, lo, hi) && s != [] && t != [] && c(s[0], t[0]) <= 0
    ensures Merging(c, was, all, Append(link, done, s[0]), done + [s[0]], s[1..], t, lo, hi)
    ensures Path(Append(link, done, s[0]), s)
  {
    hide Weaving, Append, Merge;
    Take(link, done, s, t);
    AppendOutside(link, was, done, s[0], lo, hi);
    assert Merge(c, s, t) == [s[0]] + Merge(c, s[1..], t) by { MergeUnfolds(c, s, t); }
    assert done + ([s[0]] + Merge(c, s[1..], t)) == done + [s[0]] + Merge(c, s[1..], t);
  }

  lemma TakeRight(c: (int, int) -> int, was: seq<int>, all: seq<int>, link: seq<int>, done: seq<int>, s: seq<int>,
                  t: seq<int>, lo: int, hi: int)
    requires Merging(c, was, all, link, done, s, t, lo, hi) && s != [] && t != [] && c(s[0], t[0]) > 0
    ensures Merging(c, was, all, Append(link, done, t[0]), done + [t[0]], s, t[1..], lo, hi)
    ensures Path(Append(link, done, t[0]), t)
  {
    hide Weaving, Append, Merge;
    WeavingFlip(link, done, s, t);
    Take(link, done, t, s);
    WeavingFlip(Append(link, done, t[0]), done + [t[0]], t[1..], s);
    AppendOutside(link, was, done, t[0], lo, hi);
    assert Merge(c, s, t) == [t[0]] + Merge(c, s, t[1..]) by { MergeUnfolds(c, s, t); }
    assert done + ([t[0]] + Merge(c, s, t[1..])) == done + [t[0]] + Merge(c, s, t[1..]);
  }

  lemma MergeUnfolds(c: (int, int) -> int, s: seq<int>, t: seq<int>)
    ensures s == [] ==> Merge(c, s, t) == t
    ensures t == [] ==> Merge(c, s, t) == s
    ensures s != [] && t != [] ==>
      Merge(c, s, t) == if c(s[0], t[0]) <= 0 then [s[0]] + Merge(c, s[1..], t) else [t[0]] + Merge(c, s, t[1..])
  {
  }

  lemma AppendOutside(link: seq<int>, was: seq<int>, done: seq<int>, k: int, lo: int, hi: int)
    requires UnchangedOutside(link, was, lo, hi) && InRange(done, lo, hi)
    ensures UnchangedOutside(Append(link, done, k), was, lo, hi)
  {
  }

  lemma MergeEnds(c: (int, int) -> int, was: seq<int>, all: seq<int>, link: seq<int>, done: seq<int>, s: seq<int>,
                  t: seq<int>, lo: int, hi: int)
    returns (rest: seq<int>)
    requires Merging(c, was, all, link, done, s, t, lo, hi) && (s == [] || t == [])
    ensures rest == (if s != [] then s else t) && all == done + rest
    ensures Path(Append(link, done, First(rest)), all) && Distinct(all) && InRange(all, lo, hi)
    ensures UnchangedOutside(Append(link, done, First(rest)), was, lo, hi)
  {
    hide Weaving, Append, Merge, Path, Distinct;
    MergeUnfolds(c, s, t);
    rest := if s != [] then s else t;
    WeavingFlip(link, done, s, t);
    Close(link, done, rest);
    AppendOutside(link, was, done, First(rest), lo, hi);
  }

  method SetNext<T>(node: Node<T>, to: Node?<T>, ghost ns: seq<Node<T>>, ghost k: int, ghost j: int,
                    ghost link: seq<int>)
    returns (ghost r: seq<int>)
    requires Tied(ns, link) && Distinct(ns) && 0 <= k < |ns| && ns[k] == node && to == At(ns, j)
    modifies node`next
    ensures |link| == |ns| && r == link[k := j] && Tied(ns, r)
  {
    node.next := to;
    r := link[k := j];
  }

  /** Writes through tail: into the last node of done, or into the head while done is empty. */
  method Attach<T>(head: Node?<T>, last: Node?<T>, to: Node?<T>, ghost ns: seq<Node<T>>, ghost done: seq<int>,
                   ghost k: int, ghost link: seq<int>)
    returns (h: Node?<T>, ghost r: seq<int>)
    requires Tied(ns, link) && Distinct(ns) && to == At(ns, k)
    requires head == At(ns, First(done)) && last == At(ns, Last(done)) && InRange(done, 0, |ns|)
    modifies ns`next
    ensures Tied(ns, r) && r == Append(link, done, k) && h == At(ns, First(done + [k]))
  {
    if last == null {
      h, r := to, link;
    } else {
      h := head;
      r := SetNext(last, to, ns, Last(done), k, link);
    }
  }

  ghost function Last(s: seq<int>): int {
    if s == [] then -1 else s[|s| - 1]
  }

  lemma NextOf<T>(ns: seq<Node<T>>, link: seq<int>, s: seq<int>)
    requires Tied(ns, link) && Path(link, s) && s != []
    ensures At(ns, s[0]) != null && At(ns, s[0]).next == At(ns, First(s[1..]))
  {
    PathTail(link, s);
  }

  lemma ElemsOf<T>(cmp: (T, T) -> int, ns: seq<Node<T>>, es: seq<T>, i: int, j: int)
    requires Holds(ns, es) && At(ns, i) != null && At(ns, j) != null
    ensures cmp(At(ns, i).elem, At(ns, j).elem) == ByElem(cmp, es)(i, j)
  {
    assert ns[i].elem == es[i] && ns[j].elem == es[j];
    ByElemAt(cmp, es, i, j);
  }

  /** Two chains become one, the left node first on a tie, with at most one comparison per node. */
  method MergeChains<T(!new)>(first: Node?<T>, second: Node?<T>, cmp: (T, T) -> int, ghost ns: seq<Node<T>>,
                              ghost es: seq<T>, ghost was: seq<int>, ghost left: seq<int>, ghost right: seq<int>,
                              ghost lo: int, ghost mid: int, ghost hi: int)
    returns (head: Node?<T>, ghost link: seq<int>, ghost cost: int)
    requires Tied(ns, was) && Holds(ns, es) && Distinct(ns) && 0 <= lo <= mid <= hi <= |ns|
    requires Path(was, left) && Distinct(left) && InRange(left, lo, mid) && first == At(ns, First(left))
    requires Path(was, right) && Distinct(right) && InRange(right, mid, hi) && second == At(ns, First(right))
    modifies ns`next
    ensures Tied(ns, link) && UnchangedOutside(link, was, lo, hi)
    ensures 0 <= cost <= |left| + |right| && (|left| <= cost || |right| <= cost)
    ensures var merged := Merge(ByElem(cmp, es), left, right);
            head == At(ns, First(merged)) && Path(link, merged) && Distinct(merged) && InRange(merged, lo, hi)
  {
    hide *;
    ghost var c := ByElem(cmp, es);
    ghost var all := Merge(c, left, right);
    ghost var done: seq<int>, s, t := [], left, right;
    MergeStarts(c, was, left, right, lo, mid, hi);
    link := was;
    head, cost := null, 0;
    var a, b, last: Node?<T> := first, second, null;
    NoneAt(ns);
    MergingSpan(c, was, all, link, done, s, t, lo, hi, ns);
    while a != null && b != null
      invariant Tied(ns, link) && Holds(ns, es)
      invariant Merging(c, was, all, link, done, s, t, lo, hi)
      invariant a == At(ns, First(s)) && b == At(ns, First(t))
      invariant head == At(ns, First(done)) && last == At(ns, Last(done))
      invariant (a == null <==> s == []) && (b == null <==> t == [])
      invariant 0 <= cost && cost + |s| + |t| == |left| + |right| && |s| <= |left| && |t| <= |right|
      decreases |s| + |t|
    {
      cost := cost + 1;
      Heads(s, t);
      ElemsOf(cmp, ns, es, s[0], t[0]);
      MergingSpan(c, was, all, link, done, s, t, lo, hi, ns);
      if cmp(a.elem, b.elem) <= 0 {
        TakeLeft(c, was, all, link, done, s, t, lo, hi);
        head, link := Attach(head, last, a, ns, done, s[0], link);
        NextOf(ns, link, s);
        LastOf(done, s[0]);
        last := a;
        a := a.next;
        done, s := done + [s[0]], s[1..];
      } else {
        TakeRight(c, was, all, link, done, s, t, lo, hi);
        head, link := Attach(head, last, b, ns, done, t[0], link);
        NextOf(ns, link, t);
        LastOf(done, t[0]);
        last := b;
        b := b.next;
        done, t := done + [t[0]], t[1..];
      }
      MergingSpan(c, was, all, link, done, s, t, lo, hi, ns);
    }
    MergingSpan(c, was, all, link, done, s, t, lo, hi, ns);
    ghost var rest := MergeEnds(c, was, all, link, done, s, t, lo, hi);
    head, link := Attach(head, last, if a != null then a else b, ns, done, First(rest), link);
    JoinFirst(done, rest);
  }

  lemma NoneAt<T>(ns: seq<Node<T>>)
    ensures At(ns, First([])) == null && At(ns, Last([])) == null
  {
  }

  lemma Heads(s: seq<int>, t: seq<int>)
    requires s != [] && t != []
    ensures First(s) == s[0] && First(t) == t[0]
  {
  }

  lemma LastOf(done: seq<int>, k: int)
    ensures Last(done + [k]) == k
  {
  }

  lemma JoinFirst(done: seq<int>, rest: seq<int>)
    ensures First(done + rest) == First(done + [First(rest)])
  {
  }

  lemma MergingSpan<T>(c: (int, int) -> int, was: seq<int>, all: seq<int>, link: seq<int>, done: seq<int>, s: seq<int>,
                       t: seq<int>, lo: int, hi: int, ns: seq<Node<T>>)
    requires Merging(c, was, all, link, done, s, t, lo, hi) && 0 <= lo <= hi <= |ns|
    ensures s == [] <==> At(ns, First(s)) == null
    ensures t == [] <==> At(ns, First(t)) == null
    ensures InRange(done, 0, |ns|)
  {
  }

  // ---------- sorting ----------

  ghost function Ids(lo: int, hi: int): (r: seq<int>) {
    if hi <= lo then [] else seq(hi - lo, i => lo + i)
  }

  lemma IdsSplit(lo: int, mid: int, hi: int)
    requires lo <= mid <= hi
    ensures Ids(lo, mid) + Ids(mid, hi) == Ids(lo, hi)
  {
  }

  lemma IdsFacts(lo: int, hi: int)
    ensures Distinct(Ids(lo, hi)) && InRange(Ids(lo, hi), lo, hi)
    ensures lo < hi ==> First(Ids(lo, hi)) == lo && |Ids(lo, hi)| == hi - lo
  {
  }

  lemma IdsSize(lo: int, hi: int)
    ensures lo <= hi ==> |Ids(lo, hi)| == hi - lo
  {
  }

  lemma HalvesMerge<T(!new)>(cmp: (T, T) -> int, s: seq<T>, t: seq<T>)
    requires IsOrder(cmp)
    ensures Merge(cmp, StableSorted(cmp, s), StableSorted(cmp, t)) == StableSorted(cmp, s + t)
  {
    hide *;
    var u, v := StableSorted(cmp, s), StableSorted(cmp, t);
    StableSortedIsStable(cmp, s);
    StableSortedIsStable(cmp, t);
    MergeIsStableSort(cmp, u, v);
    StablePermConcat(cmp, u, s, v, t);
    StableSortedCong(cmp, u + v, s + t);
  }

  lemma StepAlong<T>(ns: seq<Node<T>>, link: seq<int>, lo: int, hi: int, k: int)
    requires Tied(ns, link) && Path(link, Ids(lo, hi)) && 0 <= lo <= k < hi <= |ns|
    ensures ns[k].next == At(ns, if k + 1 < hi then k + 1 else -1)
  {
    var s := Ids(lo, hi);
    assert s[k - lo] == k;
    if k + 1 < hi {
      assert link[s[k - lo]] == s[k - lo + 1];
    }
  }

  /** The chain cut in two behind position mid - 1. */
  lemma Cut(link: seq<int>, lo: int, mid: int, hi: int)
    requires 0 <= lo < mid <= hi && Path(link, Ids(lo, hi))
    ensures mid <= |link| && Path(link[mid - 1 := -1], Ids(lo, mid)) && Path(link[mid - 1 := -1], Ids(mid, hi))
    ensures UnchangedOutside(link[mid - 1 := -1], link, lo, hi)
  {
    var s, l, r := Ids(lo, hi), Ids(lo, mid), Ids(mid, hi);
    assert s[mid - 1 - lo] == mid - 1;
    var link' := link[mid - 1 := -1];
    forall i | 0 <= i < |l| - 1 ensures link'[l[i]] == l[i + 1] {
      assert l[i] == s[i] && l[i + 1] == s[i + 1] && link[s[i]] == s[i + 1];
    }
    forall i | 0 <= i < |r| ensures 0 <= r[i] < |link'| && (i < |r| - 1 ==> link'[r[i]] == r[i + 1]) {
      assert r[i] == s[mid - lo + i];
      if i < |r| - 1 {
        assert r[i + 1] == s[mid - lo + i + 1] && link[s[mid - lo + i]] == s[mid - lo + i + 1];
      }
    }
    if r != [] {
      assert r[|r| - 1] == s[|s| - 1];
    }
  }

  lemma PathOutside(link: seq<int>, was: seq<int>, s: seq<int>, lo: int, hi: int, from: int, to: int)
    requires UnchangedOutside(link, was, lo, hi) && Path(was, s) && InRange(s, from, to) && (to <= lo || hi <= from)
    ensures Path(link, s)
  {
    forall i | 0 <= i < |s| - 1 ensures link[s[i]] == s[i + 1] {
      assert was[s[i]] == s[i + 1];
    }
  }

  lemma OutsideTwice(link: seq<int>, mid: seq<int>, was: seq<int>, lo: int, hi: int, from: int, to: int)
    requires UnchangedOutside(link, mid, from, to) && UnchangedOutside(mid, was, lo, hi) && lo <= from && to <= hi
    ensures UnchangedOutside(link, was, lo, hi)
  {
  }

  /** Sorts the chain of the positions lo, lo + 1, .. by cutting it, sorting the halves and merging them, in at most
      n ceil(log2 n) comparisons. */
  method SortChain<T(!new)>(head: Node<T>, len: int, cmp: (T, T) -> int, ghost ns: seq<Node<T>>, ghost es: seq<T>,
                            ghost was: seq<int>, ghost lo: int)
    returns (sorted: Node?<T>, ghost link: seq<int>, ghost cost: int)
    requires Tied(ns, was) && Holds(ns, es) && Distinct(ns) && IsOrder(cmp)
    requires 1 <= len && 0 <= lo && lo + len <= |ns| && head == ns[lo] && Path(was, Ids(lo, lo + len))
    modifies ns`next
    ensures Tied(ns, link) && UnchangedOutside(link, was, lo, lo + len)
    ensures len - 1 <= cost <= len * CeilLog2(len)
    ensures var order := StableSorted(ByElem(cmp, es), Ids(lo, lo + len));
            sorted == At(ns, First(order)) && Path(link, order) && Distinct(order) && InRange(order, lo, lo + len)
    decreases len
  {
    hide *;
    ghost var hi, c := lo + len, ByElem(cmp, es);
    IdsFacts(lo, hi);
    ByElemIsOrder(cmp, es);
    if len < 2 {
      SortedOne(c, Ids(lo, hi));
      sorted, link, cost := head, was, 0;
      MulOrder(0, CeilLog2(len), len);
      SameOutside(was, lo, hi);
      AtLo(ns, lo);
      return;
    }
    var half := len / 2;
    ghost var mid := lo + half;
    var leftTail := head;
    var i := 1;
    while i < half
      invariant 1 <= i <= half && leftTail == ns[lo + i - 1] && Tied(ns, was)
    {
      StepAlong(ns, was, lo, hi, lo + i - 1);
      AtLo(ns, lo + i);
      leftTail := leftTail.next;
      i := i + 1;
    }
    StepAlong(ns, was, lo, hi, mid - 1);
    AtLo(ns, mid);
    var right := leftTail.next;
    Cut(was, lo, mid, hi);
    NoneAt(ns);
    AtNone(ns);
    link := SetNext(leftTail, null, ns, mid - 1, -1, was);
    ghost var cut := link;
    IdsFacts(lo, mid);
    IdsFacts(mid, hi);
    var l, r;
    ghost var costL, costR;
    l, link, costL := SortChain(head, half, cmp, ns, es, cut, lo);
    PathOutside(link, cut, Ids(mid, hi), lo, mid, mid, hi);
    ghost var one := link;
    r, link, costR := SortChain(right, len - half, cmp, ns, es, one, mid);
    ghost var u, v := StableSorted(c, Ids(lo, mid)), StableSorted(c, Ids(mid, hi));
    PathOutside(link, one, u, mid, hi, lo, mid);
    ghost var two := link;
    sorted, link, cost := MergeChains(l, r, cmp, ns, es, two, u, v, lo, mid, hi);
    HalvesCost(len, half, costL, costR, cost, |u|, |v|);
    cost := cost + costL + costR;
    OutsideTwice(one, cut, was, lo, hi, lo, mid);
    OutsideTwice(two, one, was, lo, hi, mid, hi);
    OutsideTwice(link, two, was, lo, hi, lo, hi);
    HalvesMerge(c, Ids(lo, mid), Ids(mid, hi));
    IdsSplit(lo, mid, hi);
  }

  /** A level costs one comparison per node, and the halves have a level less. */
  lemma HalvesCost(n: nat, half: nat, left: int, right: int, merge: int, s: int, t: int)
    requires n >= 2 && half == n / 2 && s == half && t == n - half && merge <= s + t
    requires left <= half * CeilLog2(half) && right <= (n - half) * CeilLog2(n - half)
    ensures merge + left + right <= n * CeilLog2(n)
  {
    hide CeilLog2;
    CeilLog2Halved(half, n);
    CeilLog2Halved(n - half, n);
    LevelCost(half, n - half, n, CeilLog2(half), CeilLog2(n - half), CeilLog2(n));
  }

  lemma LevelCost(m: int, k: int, n: int, a: int, b: int, d: int)
    requires 0 <= m && 0 <= k && m + k == n && a + 1 <= d && b + 1 <= d
    ensures n + m * a + k * b <= n * d
  {
    MulOrder(a, d - 1, m);
    MulOrder(b, d - 1, k);
    assert m * (d - 1) + k * (d - 1) + n == n * d;
  }

  lemma SameOutside(link: seq<int>, lo: int, hi: int)
    ensures UnchangedOutside(link, link, lo, hi)
  {
  }

  lemma AtLo<T>(ns: seq<Node<T>>, k: int)
    requires 0 <= k < |ns|
    ensures At(ns, k) == ns[k]
  {
  }

  lemma AtNone<T>(ns: seq<Node<T>>)
    ensures At(ns, -1) == null
  {
  }

  // ---------- what the new order of the positions says about nodes and elems ----------

  ghost function Picked<A>(s: seq<A>, order: seq<int>): (r: seq<A>)
    requires InRange(order, 0, |s|)
    ensures |r| == |order|
    ensures forall k :: 0 <= k < |order| ==> r[k] == s[order[k]]
  {
    seq(|order|, k requires 0 <= k < |order| => s[order[k]])
  }

  lemma PickedIds<A>(s: seq<A>, lo: int, hi: int)
    requires 0 <= lo <= hi <= |s|
    ensures InRange(Ids(lo, hi), 0, |s|) && Picked(s, Ids(lo, hi)) == s[lo..hi]
  {
  }

  lemma PickedFirst<A>(s: seq<A>, order: seq<int>)
    requires InRange(order, 0, |s|) && order != []
    ensures 0 <= order[0] < |s| && InRange(order[1..], 0, |s|)
    ensures Picked(s, order) == [s[order[0]]] + Picked(s, order[1..])
    ensures Picked(s, order)[0] == s[order[0]] && Picked(s, order)[1..] == Picked(s, order[1..])
  {
  }

  lemma ByElemAt<T>(cmp: (T, T) -> int, es: seq<T>, i: int, j: int)
    requires 0 <= i < |es| && 0 <= j < |es|
    ensures ByElem(cmp, es)(i, j) == cmp(es[i], es[j])
  {
    assert Clamp(i, |es|) == i && Clamp(j, |es|) == j;
    assert es != [];
  }

  lemma {:induction false} InsertPicked<T>(cmp: (T, T) -> int, es: seq<T>, x: int, order: seq<int>)
    requires InRange(order, 0, |es|) && 0 <= x < |es|
    ensures InRange(Insert(ByElem(cmp, es), x, order), 0, |es|)
    ensures Picked(es, Insert(ByElem(cmp, es), x, order)) == Insert(cmp, es[x], Picked(es, order))
  {
    var c, r := ByElem(cmp, es), Insert(ByElem(cmp, es), x, order);
    if order != [] {
      ByElemAt(cmp, es, x, order[0]);
      PickedFirst(es, order);
    }
    if order == [] || c(x, order[0]) <= 0 {
      PickedFirst(es, r);
      assert r[1..] == order;
    } else {
      InsertPicked(cmp, es, x, order[1..]);
      PickedFirst(es, order);
      PickedFirst(es, r);
      assert r[1..] == Insert(c, x, order[1..]);
    }
  }

  /** Sorting positions by the elems they stand for is sorting the elems. */
  lemma {:induction false} SortedPicked<T>(cmp: (T, T) -> int, es: seq<T>, order: seq<int>)
    requires InRange(order, 0, |es|)
    ensures InRange(StableSorted(ByElem(cmp, es), order), 0, |es|)
    ensures Picked(es, StableSorted(ByElem(cmp, es), order)) == StableSorted(cmp, Picked(es, order))
  {
    if order != [] {
      hide ByElem;
      PickedFirst(es, order);
      SortedPicked(cmp, es, order[1..]);
      InsertPicked(cmp, es, order[0], StableSorted(ByElem(cmp, es), order[1..]));
    }
  }

  lemma {:induction false} MergedPicked<T>(cmp: (T, T) -> int, es: seq<T>, s: seq<int>, t: seq<int>)
    requires InRange(s, 0, |es|) && InRange(t, 0, |es|)
    ensures InRange(Merge(ByElem(cmp, es), s, t), 0, |es|)
    ensures Picked(es, Merge(ByElem(cmp, es), s, t)) == Merge(cmp, Picked(es, s), Picked(es, t))
    decreases |s| + |t|
  {
    var c, r := ByElem(cmp, es), Merge(ByElem(cmp, es), s, t);
    if s != [] && t != [] {
      PickedFirst(es, s);
      PickedFirst(es, t);
      ByElemAt(cmp, es, s[0], t[0]);
      if c(s[0], t[0]) <= 0 {
        MergedPicked(cmp, es, s[1..], t);
        MergeTaken(c, es, s[0], Merge(c, s[1..], t), r);
      } else {
        MergedPicked(cmp, es, s, t[1..]);
        MergeTaken(c, es, t[0], Merge(c, s, t[1..]), r);
      }
    }
  }

  lemma MergeTaken<T>(c: (int, int) -> int, es: seq<T>, k: int, rest: seq<int>, r: seq<int>)
    requires 0 <= k < |es| && InRange(rest, 0, |es|) && r == [k] + rest
    ensures InRange(r, 0, |es|) && Picked(es, r) == [es[k]] + Picked(es, rest)
  {
    PickedFirst(es, r);
    assert r[1..] == rest;
  }

  lemma {:induction false} MergeIsPerm<T>(cmp: (T, T) -> int, s: seq<T>, t: seq<T>)
    ensures multiset(Merge(cmp, s, t)) == multiset(s) + multiset(t)
    decreases |s| + |t|
  {
    if s != [] && t != [] {
      assert s == [s[0]] + s[1..] && t == [t[0]] + t[1..];
      if cmp(s[0], t[0]) <= 0 {
        MergeIsPerm(cmp, s[1..], t);
      } else {
        MergeIsPerm(cmp, s, t[1..]);
      }
    }
  }

  /** The order in which the positions of es come when es is stably sorted. */
  ghost function SortingOrder<T>(cmp: (T, T) -> int, es: seq<T>): seq<int> {
    StableSorted(ByElem(cmp, es), Ids(0, |es|))
  }

  /** The order in which the positions of es + fs come when the two are merged. */
  ghost function MergingOrder<T>(cmp: (T, T) -> int, es: seq<T>, fs: seq<T>): seq<int> {
    Merge(ByElem(cmp, es + fs), Ids(0, |es|), Ids(|es|, |es| + |fs|))
  }

  lemma SortingOrderIs<T(!new)>(cmp: (T, T) -> int, es: seq<T>)
    requires IsOrder(cmp)
    ensures InRange(SortingOrder(cmp, es), 0, |es|) && multiset(SortingOrder(cmp, es)) == multiset(Ids(0, |es|))
    ensures Picked(es, SortingOrder(cmp, es)) == StableSorted(cmp, es)
  {
    hide ByElem, InRange, Picked, IsOrder;
    ByElemIsOrder(cmp, es);
    PickedIds(es, 0, |es|);
    StableSortedIsPerm(ByElem(cmp, es), Ids(0, |es|));
    SortedPicked(cmp, es, Ids(0, |es|));
    assert es[0..|es|] == es;
  }

  ghost predicate Ascending(s: seq<int>) {
    forall i, j :: 0 <= i < j < |s| ==> s[i] < s[j]
  }

  lemma {:induction false} SameAscending(c: (int, int) -> int, x: int, s: seq<int>)
    requires Ascending(s)
    ensures Ascending(Same(c, x, s))
  {
    if s != [] {
      SameAscending(c, x, s[1..]);
      forall k | 0 <= k < |Same(c, x, s[1..])| ensures s[0] < Same(c, x, s[1..])[k] {
        SameMember(c, x, s[1..], Same(c, x, s[1..])[k]);
      }
    }
  }

  /** Where the k-th elem of s stands in its class: not before one that stands before it in s. */
  lemma {:induction false} SameInOrder(c: (int, int) -> int, x: int, s: seq<int>, k: int, l: int)
    returns (i: int, j: int)
    requires 0 <= k < l < |s| && c(s[k], x) == 0 && c(s[l], x) == 0
    ensures 0 <= i < j < |Same(c, x, s)| && Same(c, x, s)[i] == s[k] && Same(c, x, s)[j] == s[l]
    decreases |s|
  {
    if k > 0 {
      i, j := SameInOrder(c, x, s[1..], k - 1, l - 1);
      if c(s[0], x) == 0 {
        i, j := i + 1, j + 1;
      }
    } else {
      SameMember(c, x, s[1..], s[l]);
      assert s[1..][l - 1] == s[l];
      i := 0;
      j :| 0 <= j < |Same(c, x, s[1..])| && Same(c, x, s[1..])[j] == s[l];
      j := j + 1;
    }
  }

  /** Nodes whose elems compare equal keep their order. */
  lemma SortingKeepsTies<T(!new)>(cmp: (T, T) -> int, es: seq<T>, k: int, l: int)
    requires IsOrder(cmp) && 0 <= k < l < |es|
    ensures var order := SortingOrder(cmp, es);
            && |order| == |es| && 0 <= order[k] < |es| && 0 <= order[l] < |es|
            && (cmp(es[order[k]], es[order[l]]) == 0 ==> order[k] < order[l])
  {
    hide ByElem, IsOrder, StableSorted, Same, Picked;
    var c, ids, order := ByElem(cmp, es), Ids(0, |es|), SortingOrder(cmp, es);
    ByElemIsOrder(cmp, es);
    SortingOrderIs(cmp, es);
    StableSortedIsStable(c, ids);
    assert |order| == |es|;
    var x := order[k];
    if cmp(es[order[k]], es[order[l]]) == 0 {
      TiesInOrder(cmp, es, c, order, ids, k, l);
    }
  }

  lemma TiesInOrder<T(!new)>(cmp: (T, T) -> int, es: seq<T>, c: (int, int) -> int, order: seq<int>, ids: seq<int>,
                             k: int, l: int)
    requires c == ByElem(cmp, es) && IsOrder(c) && StablePerm(c, order, ids) && Ascending(ids)
             && InRange(order, 0, |es|)
    requires 0 <= k < l < |order| && cmp(es[order[k]], es[order[l]]) == 0
    ensures order[k] < order[l]
  {
    hide ByElem, StableSorted, Same;
    var x := order[k];
    ByElemAt(cmp, es, order[k], order[l]);
    assert c(order[l], x) == 0 && c(order[k], x) == 0;
    var i, j := SameInOrder(c, x, order, k, l);
    assert Agree(c, x, order, ids);
    SameAscending(c, x, ids);
  }

  lemma MergingOrderIs<T>(cmp: (T, T) -> int, es: seq<T>, fs: seq<T>)
    ensures var order := MergingOrder(cmp, es, fs);
            && InRange(order, 0, |es + fs|) && multiset(order) == multiset(Ids(0, |es + fs|))
            && Picked(es + fs, order) == Merge(cmp, es, fs)
  {
    hide ByElem, InRange, Picked;
    var all, s, t := es + fs, Ids(0, |es|), Ids(|es|, |es| + |fs|);
    PickedIds(all, 0, |es|);
    PickedIds(all, |es|, |all|);
    MergedPicked(cmp, all, s, t);
    MergeIsPerm(ByElem(cmp, all), s, t);
    IdsSplit(0, |es|, |all|);
    assert all[0..|es|] == es && all[|es|..|all|] == fs;
  }

  /** A permutation of the positions is a permutation of the nodes. */
  lemma PickedAll<A>(s: seq<A>, order: seq<int>)
    requires InRange(order, 0, |s|) && multiset(order) == multiset(Ids(0, |s|)) && Distinct(s) && Distinct(order)
    ensures Distinct(Picked(s, order)) && forall x :: x in Picked(s, order) <==> x in s
    ensures |order| == |s|
  {
    assert |multiset(order)| == |multiset(Ids(0, |s|))|;
    var r := Picked(s, order);
    forall x | x in s ensures x in r {
      var k :| 0 <= k < |s| && s[k] == x;
      assert Ids(0, |s|)[k] == k;
      assert k in multiset(order);
      var l :| 0 <= l < |order| && order[l] == k;
      assert r[l] == x;
    }
  }

  /** A path, read through the nodes, is a chain. */
  lemma PathIsChain<T>(ns: seq<Node<T>>, link: seq<int>, order: seq<int>)
    requires Tied(ns, link) && Path(link, order) && InRange(order, 0, |ns|)
    ensures forall i {:trigger Picked(ns, order)[i].next} :: 0 <= i < |order| ==>
      Picked(ns, order)[i].next == At(Picked(ns, order), i + 1)
  {
    var r := Picked(ns, order);
    forall i | 0 <= i < |order| ensures r[i].next == At(r, i + 1) {
      assert r[i] == ns[order[i]] && ns[order[i]].next == At(ns, link[order[i]]);
      if i + 1 < |order| {
        assert link[order[i]] == order[i + 1];
      }
    }
  }

  lemma HoldsPicked<T>(ns: seq<Node<T>>, es: seq<T>, order: seq<int>)
    requires Holds(ns, es) && InRange(order, 0, |ns|)
    ensures |es| == |ns| && Holds(Picked(ns, order), Picked(es, order))
  {
  }
}
