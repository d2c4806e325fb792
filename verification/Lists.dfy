/** The doubly linked list (src/ds/list.c). A list is its nodes in order, and the elems they hold; every operation is an
    edit of those two sequences. */
module Lists {
  import opened Allocators
  import opened Ordering
  import opened Chains
  import opened Sequences
  import opened Counting
  import opened Permute

  /** Each node's next is the node after it. */
  ghost predicate Forward<T>(ns: seq<Node<T>>)
    reads ns`next
  {
    forall i {:trigger ns[i].next} :: 0 <= i < |ns| ==> ns[i].next == At(ns, i + 1)
  }

  /** Each node's prev is the node before it. */
  ghost predicate Backward<T>(ns: seq<Node<T>>)
    reads ns`prev
  {
    forall i {:trigger ns[i].prev} :: 0 <= i < |ns| ==> ns[i].prev == At(ns, i - 1)
  }

  /** What the next pointers of ns are, one by one. */
  ghost predicate Nexts<T>(ns: seq<Node<T>>, to: seq<Node?<T>>)
    reads ns`next
  {
    |to| == |ns| && forall k {:trigger ns[k].next} :: 0 <= k < |ns| ==> ns[k].next == to[k]
  }

  ghost predicate Prevs<T>(ns: seq<Node<T>>, to: seq<Node?<T>>)
    reads ns`prev
  {
    |to| == |ns| && forall k {:trigger ns[k].prev} :: 0 <= k < |ns| ==> ns[k].prev == to[k]
  }

  ghost function After<T>(ns: seq<Node<T>>): (r: seq<Node?<T>>)
    ensures |r| == |ns|
  {
    seq(|ns|, i => At(ns, i + 1))
  }

  ghost function Before<T>(ns: seq<Node<T>>): (r: seq<Node?<T>>)
    ensures |r| == |ns|
  {
    seq(|ns|, i => At(ns, i - 1))
  }

  lemma NextsAfter<T>(ns: seq<Node<T>>)
    ensures Forward(ns) <==> Nexts(ns, After(ns))
    ensures Backward(ns) <==> Prevs(ns, Before(ns))
  {
    if Nexts(ns, After(ns)) {
      forall i | 0 <= i < |ns| ensures ns[i].next == At(ns, i + 1) {
        assert ns[i].next == After(ns)[i];
      }
    }
    if Prevs(ns, Before(ns)) {
      forall i | 0 <= i < |ns| ensures ns[i].prev == At(ns, i - 1) {
        assert ns[i].prev == Before(ns)[i];
      }
    }
  }

  method WriteNext<T>(x: Node<T>, to: Node?<T>, ghost ns: seq<Node<T>>, ghost was: seq<Node?<T>>, ghost k: int)
    requires Nexts(ns, was) && Distinct(ns) && 0 <= k < |ns| && ns[k] == x
    modifies x`next
    ensures x.next == to && |was| == |ns| && Nexts(ns, was[k := to])
  {
    x.next := to;
  }

  method WritePrev<T>(x: Node<T>, to: Node?<T>, ghost ns: seq<Node<T>>, ghost was: seq<Node?<T>>, ghost k: int)
    requires Prevs(ns, was) && Distinct(ns) && 0 <= k < |ns| && ns[k] == x
    modifies x`prev
    ensures x.prev == to && |was| == |ns| && Prevs(ns, was[k := to])
  {
    x.prev := to;
  }

  lemma ForwardInserted<T>(ns: seq<Node<T>>, i: int, node: Node<T>)
    requires 0 <= i <= |ns| && node.next == At(ns, i)
    requires Nexts(ns, if 0 < i then After(ns)[i - 1 := node] else After(ns))
    ensures Forward(InsertAt(ns, i, node))
  {
    var r := InsertAt(ns, i, node);
    forall k | 0 <= k < |r| ensures r[k].next == At(r, k + 1) {
      if k < i {
        assert r[k] == ns[k];
        assert k != i - 1 ==> ns[k].next == After(ns)[k];
      } else if k > i {
        assert r[k] == ns[k - 1] && ns[k - 1].next == After(ns)[k - 1];
      }
    }
  }

  lemma BackwardInserted<T>(ns: seq<Node<T>>, i: int, node: Node<T>)
    requires 0 <= i <= |ns| && node.prev == At(ns, i - 1)
    requires Prevs(ns, if i < |ns| then Before(ns)[i := node] else Before(ns))
    ensures Backward(InsertAt(ns, i, node))
  {
    var r := InsertAt(ns, i, node);
    forall k | 0 <= k < |r| ensures r[k].prev == At(r, k - 1) {
      if k < i {
        assert r[k] == ns[k] && ns[k].prev == Before(ns)[k];
      } else if k > i {
        assert r[k] == ns[k - 1];
        assert k - 1 != i ==> ns[k - 1].prev == Before(ns)[k - 1];
      }
    }
  }

  lemma ForwardRemoved<T>(ns: seq<Node<T>>, i: int)
    requires 0 <= i < |ns| && Nexts(ns, if 0 < i then After(ns)[i - 1 := At(ns, i + 1)] else After(ns))
    ensures Forward(RemoveAt(ns, i))
  {
    var r := RemoveAt(ns, i);
    forall k | 0 <= k < |r| ensures r[k].next == At(r, k + 1) {
      if k < i {
        assert r[k] == ns[k];
        assert k != i - 1 ==> ns[k].next == After(ns)[k];
      } else {
        assert r[k] == ns[k + 1] && ns[k + 1].next == After(ns)[k + 1];
      }
    }
  }

  lemma BackwardRemoved<T>(ns: seq<Node<T>>, i: int)
    requires 0 <= i < |ns| && Prevs(ns, if i + 1 < |ns| then Before(ns)[i + 1 := At(ns, i - 1)] else Before(ns))
    ensures Backward(RemoveAt(ns, i))
  {
    var r := RemoveAt(ns, i);
    forall k | 0 <= k < |r| ensures r[k].prev == At(r, k - 1) {
      if k < i {
        assert r[k] == ns[k] && ns[k].prev == Before(ns)[k];
      } else {
        assert r[k] == ns[k + 1];
        assert k + 1 != i + 1 ==> ns[k + 1].prev == Before(ns)[k + 1];
      }
    }
  }

  ghost predicate Separate<A>(s: seq<A>, t: seq<A>) {
    forall i, j :: 0 <= i < |s| && 0 <= j < |t| ==> s[i] != t[j]
  }

  /** A whole chain of different nodes, and what they hold. */
  ghost predicate Chained<T>(ns: seq<Node<T>>, es: seq<T>)
    reads ns`next, ns`prev, ns`elem
  {
    Forward(ns) && Backward(ns) && Distinct(ns) && Holds(ns, es)
  }

  lemma ChainedParts<T>(ns: seq<Node<T>>, es: seq<T>)
    ensures Chained(ns, es) <==> Forward(ns) && Backward(ns) && Distinct(ns) && Holds(ns, es)
    ensures Holds(ns, es) ==> |es| == |ns|
  {
  }

  lemma InsertDistinct<A>(s: seq<A>, i: int, x: A)
    requires Distinct(s) && x !in s && 0 <= i <= |s|
    ensures Distinct(InsertAt(s, i, x))
  {
  }

  lemma SeparateInsert<A>(s: seq<A>, t: seq<A>, i: int, x: A)
    requires Separate(s, t) && 0 <= i <= |s| && x !in t
    ensures Separate(InsertAt(s, i, x), t)
  {
  }

  lemma SeparateRemove<A>(s: seq<A>, t: seq<A>, i: int)
    requires Separate(s, t) && 0 <= i < |t|
    ensures Separate(s, RemoveAt(t, i)) && t[i] !in s
  {
  }

  lemma RemoveMembers<A>(s: seq<A>, i: int)
    requires 0 <= i < |s|
    ensures forall k :: 0 <= k < |RemoveAt(s, i)| ==> RemoveAt(s, i)[k] in s
  {
  }

  lemma RemoveDistinct<A>(s: seq<A>, i: int)
    requires Distinct(s) && 0 <= i < |s|
    ensures Distinct(RemoveAt(s, i)) && s[i] !in RemoveAt(s, i)
  {
  }

  lemma AtFacts<T>(ns: seq<Node<T>>, i: int)
    ensures 0 <= i < |ns| ==> At(ns, i) == ns[i]
    ensures !(0 <= i < |ns|) ==> At(ns, i) == null
  {
  }

  lemma InsertHolds<T>(ns: seq<Node<T>>, es: seq<T>, i: int, node: Node<T>)
    requires Holds(ns, es) && 0 <= i <= |ns|
    ensures |es| == |ns| && Holds(InsertAt(ns, i, node), InsertAt(es, i, node.elem))
  {
  }

  lemma RemoveHolds<T>(ns: seq<Node<T>>, es: seq<T>, i: int)
    requires Holds(ns, es) && 0 <= i < |ns|
    ensures |es| == |ns| && Holds(RemoveAt(ns, i), RemoveAt(es, i))
  {
  }

  lemma Ends<T>(ns: seq<Node<T>>, i: int, node: Node<T>)
    requires 0 <= i <= |ns|
    ensures var r := InsertAt(ns, i, node);
            && At(r, 0) == (if i == 0 then node else At(ns, 0))
            && At(r, |r| - 1) == (if i == |ns| then node else At(ns, |ns| - 1))
  {
  }

  lemma EndsWithout<T>(ns: seq<Node<T>>, i: int)
    requires 0 <= i < |ns|
    ensures var r := RemoveAt(ns, i);
            && At(r, 0) == (if i == 0 then At(ns, 1) else At(ns, 0))
            && At(r, |r| - 1) == (if i == |ns| - 1 then At(ns, i - 1) else At(ns, |ns| - 1))
  {
  }

  lemma Neighbours<T>(ns: seq<Node<T>>, i: int)
    requires Forward(ns) && Backward(ns) && 0 <= i < |ns|
    ensures ns[i].next == At(ns, i + 1) && ns[i].prev == At(ns, i - 1)
  {
  }

  // ---------- whole chains ----------

  lemma JoinedLinks<T>(ns: seq<Node<T>>, ms: seq<Node<T>>)
    requires ns != [] && ms != []
    requires Nexts(ns, After(ns)[|ns| - 1 := ms[0]]) && Forward(ms)
    requires Prevs(ms, Before(ms)[0 := ns[|ns| - 1]]) && Backward(ns)
    ensures Forward(ns + ms) && Backward(ns + ms)
  {
    var r := ns + ms;
    forall k | 0 <= k < |r| ensures r[k].next == At(r, k + 1) {
      if k < |ns| {
        assert r[k] == ns[k] && ns[k].next == After(ns)[|ns| - 1 := ms[0]][k];
      } else {
        assert r[k] == ms[k - |ns|] && ms[k - |ns|].next == At(ms, k - |ns| + 1);
      }
    }
    forall k | 0 <= k < |r| ensures r[k].prev == At(r, k - 1) {
      if k < |ns| {
        assert r[k] == ns[k] && ns[k].prev == At(ns, k - 1);
      } else {
        assert r[k] == ms[k - |ns|] && ms[k - |ns|].prev == Before(ms)[0 := ns[|ns| - 1]][k - |ns|];
      }
    }
  }

  lemma JoinedRest<T>(ns: seq<Node<T>>, ms: seq<Node<T>>, es: seq<T>, fs: seq<T>)
    requires Distinct(ns) && Distinct(ms) && Separate(ns, ms) && Holds(ns, es) && Holds(ms, fs)
    ensures Distinct(ns + ms) && Holds(ns + ms, es + fs)
    ensures At(ns + ms, 0) == (if ns == [] then At(ms, 0) else At(ns, 0))
    ensures At(ns + ms, |ns + ms| - 1) == (if ms == [] then At(ns, |ns| - 1) else At(ms, |ms| - 1))
  {
  }

  lemma JoinedNothing<T>(ns: seq<Node<T>>, es: seq<T>, ms: seq<Node<T>>, fs: seq<T>)
    requires ns == [] && Chained(ns, es) && Chained(ms, fs)
    ensures Chained(ns + ms, es + fs) && Chained(ms + ns, fs + es)
  {
    assert es == [] && ns + ms == ms && ms + ns == ms && es + fs == fs && fs + es == fs;
  }

  lemma JoinedEnds<T>(ns: seq<Node<T>>, ms: seq<Node<T>>)
    ensures At(ns + ms, 0) == (if ns == [] then At(ms, 0) else At(ns, 0))
    ensures At(ms + ns, 0) == (if ms == [] then At(ns, 0) else At(ms, 0))
    ensures At(ns + ms, |ns| + |ms| - 1) == (if ms == [] then At(ns, |ns| - 1) else At(ms, |ms| - 1))
    ensures At(ms + ns, |ns| + |ms| - 1) == (if ns == [] then At(ms, |ms| - 1) else At(ns, |ns| - 1))
  {
  }

  lemma SeparateFlip<A>(s: seq<A>, t: seq<A>)
    requires Separate(s, t)
    ensures Separate(t, s)
  {
  }

  /** Links the chain ns, ending in left, to the chain ms, starting with right. */
  method Join<T>(left: Node<T>, right: Node<T>, ghost ns: seq<Node<T>>, ghost ms: seq<Node<T>>, ghost es: seq<T>,
                 ghost fs: seq<T>)
    requires Chained(ns, es) && Chained(ms, fs) && Separate(ns, ms)
    requires ns != [] && left == ns[|ns| - 1] && ms != [] && right == ms[0]
    modifies left`next, right`prev
    ensures Chained(ns + ms, es + fs)
  {
    hide Chained, Forward, Backward, Nexts, Prevs, Distinct, Holds, After, Before, At;
    ChainedParts(ns, es);
    ChainedParts(ms, fs);
    NextsAfter(ns);
    NextsAfter(ms);
    WriteNext(left, right, ns, After(ns), |ns| - 1);
    WritePrev(right, left, ms, Before(ms), 0);
    JoinedLinks(ns, ms);
    JoinedRest(ns, ms, es, fs);
    ChainedParts(ns + ms, es + fs);
  }

  /** The first i pointers rewritten as back says, the others as they were. */
  ghost function Turned<T>(ns: seq<Node<T>>, to: seq<Node?<T>>, back: seq<Node?<T>>, i: int): (r: seq<Node?<T>>)
    requires 0 <= i <= |ns| == |to| == |back|
  {
    back[..i] + to[i..]
  }

  lemma TurnOne<T>(ns: seq<Node<T>>, to: seq<Node?<T>>, back: seq<Node?<T>>, i: int)
    requires 0 <= i < |ns| == |to| == |back|
    ensures |Turned(ns, to, back, i)| == |ns| && Turned(ns, to, back, i)[i] == to[i]
    ensures Turned(ns, to, back, i)[i := back[i]] == Turned(ns, to, back, i + 1)
  {
  }

  lemma TurnedEnds<T>(ns: seq<Node<T>>, to: seq<Node?<T>>, back: seq<Node?<T>>)
    requires |ns| == |to| == |back|
    ensures Turned(ns, to, back, 0) == to && Turned(ns, to, back, |ns|) == back
  {
  }

  lemma AllTurned<T>(ns: seq<Node<T>>, es: seq<T>)
    requires Nexts(ns, Before(ns)) && Prevs(ns, After(ns)) && Distinct(ns) && Holds(ns, es)
    ensures Forward(Reversed(ns)) && Backward(Reversed(ns)) && Distinct(Reversed(ns))
            && Holds(Reversed(ns), Reversed(es))
    ensures |es| == |ns| && At(Reversed(ns), 0) == At(ns, |ns| - 1) && At(Reversed(ns), |ns| - 1) == At(ns, 0)
  {
    var r := Reversed(ns);
    forall k | 0 <= k < |r| ensures r[k].next == At(r, k + 1) {
      assert r[k] == ns[|ns| - 1 - k] && ns[|ns| - 1 - k].next == Before(ns)[|ns| - 1 - k];
    }
    forall k | 0 <= k < |r| ensures r[k].prev == At(r, k - 1) {
      assert r[k] == ns[|ns| - 1 - k] && ns[|ns| - 1 - k].prev == After(ns)[|ns| - 1 - k];
    }
    ReversedRest(ns, es);
  }

  lemma ReversedRest<T>(ns: seq<Node<T>>, es: seq<T>)
    requires Distinct(ns) && Holds(ns, es)
    ensures Distinct(Reversed(ns)) && Holds(Reversed(ns), Reversed(es))
    ensures |es| == |ns| && At(Reversed(ns), 0) == At(ns, |ns| - 1) && At(Reversed(ns), |ns| - 1) == At(ns, 0)
  {
    var r, q := Reversed(ns), Reversed(es);
    forall k | 0 <= k < |r| ensures r[k].elem == q[k] {
      assert r[k] == ns[|ns| - 1 - k] && ns[|ns| - 1 - k].elem == es[|ns| - 1 - k];
    }
    forall i, j | 0 <= i < j < |r| ensures r[i] != r[j] {
      assert r[i] == ns[|ns| - 1 - i] && r[j] == ns[|ns| - 1 - j];
    }
  }

  /** Next and prev of one node exchanged. */
  method Turn<T>(x: Node<T>, ghost ns: seq<Node<T>>, ghost i: int)
    requires Distinct(ns) && 0 <= i < |ns| && ns[i] == x
    requires Nexts(ns, Turned(ns, After(ns), Before(ns), i)) && Prevs(ns, Turned(ns, Before(ns), After(ns), i))
    modifies x`next, x`prev
    ensures Nexts(ns, Turned(ns, After(ns), Before(ns), i + 1)) && Prevs(ns, Turned(ns, Before(ns), After(ns), i + 1))
    ensures old(x.next) == At(ns, i + 1)
  {
    hide Turned, Distinct, Before, After, At;
    TurnOne(ns, After(ns), Before(ns), i);
    TurnOne(ns, Before(ns), After(ns), i);
    AfterAt(ns, i);
    var next := x.next;
    assert x.prev == Before(ns)[i] && next == After(ns)[i];
    hide Nexts, Prevs;
    WriteNext(x, x.prev, ns, Turned(ns, After(ns), Before(ns), i), i);
    WritePrev(x, next, ns, Turned(ns, Before(ns), After(ns), i), i);
  }

  lemma AfterAt<T>(ns: seq<Node<T>>, i: int)
    requires 0 <= i < |ns|
    ensures After(ns)[i] == At(ns, i + 1)
  {
  }

  // ---------- the links the sort reads ----------

  lemma ForwardIsPath<T>(ns: seq<Node<T>>)
    requires Forward(ns)
    ensures Tied(ns, SideBySide(|ns|, 0)) && Path(SideBySide(|ns|, 0), Ids(0, |ns|))
  {
    TwoTied(ns, []);
    TwoPaths(|ns|, 0);
    assert ns + [] == ns;
  }

  /** The links of two chains laid side by side: each still ends where it did. */
  ghost function SideBySide(n: nat, m: nat): (r: seq<int>)
    ensures |r| == n + m
    ensures forall k :: 0 <= k < n + m ==> r[k] == if k + 1 == n || k + 1 == n + m then -1 else k + 1
  {
    seq(n + m, k => if k + 1 == n || k + 1 == n + m then -1 else k + 1)
  }

  lemma TwoTied<T>(ns: seq<Node<T>>, ms: seq<Node<T>>)
    requires Forward(ns) && Forward(ms)
    ensures Tied(ns + ms, SideBySide(|ns|, |ms|))
  {
    var n, all, link := |ns|, ns + ms, SideBySide(|ns|, |ms|);
    forall k | 0 <= k < |all| ensures all[k].next == At(all, link[k]) {
      if k < n {
        assert all[k] == ns[k] && ns[k].next == At(ns, k + 1);
      } else {
        assert all[k] == ms[k - n] && ms[k - n].next == At(ms, k - n + 1);
      }
    }
  }

  lemma TwoPaths(n: nat, m: nat)
    ensures Path(SideBySide(n, m), Ids(0, n)) && Path(SideBySide(n, m), Ids(n, n + m))
  {
    IdsPath(SideBySide(n, m), 0, n);
    IdsPath(SideBySide(n, m), n, n + m);
  }

  lemma IdsPath(link: seq<int>, lo: int, hi: int)
    requires 0 <= lo <= hi <= |link| && forall k :: lo <= k < hi ==> link[k] == if k + 1 == hi then -1 else k + 1
    ensures Path(link, Ids(lo, hi))
  {
    var s := Ids(lo, hi);
    forall i | 0 <= i < |s| - 1 ensures link[s[i]] == s[i + 1] {
      assert s[i] == lo + i;
    }
  }

  lemma Snapshot<T>(ns: seq<Node<T>>) returns (to: seq<Node?<T>>)
    ensures |to| == |ns| && Prevs(ns, to)
  {
    if ns == [] {
      to := [];
    } else {
      var front := ns[..|ns| - 1];
      var rest := Snapshot(front);
      to := rest + [ns[|ns| - 1].prev];
      forall k | 0 <= k < |ns| ensures ns[k].prev == to[k] {
        if k < |ns| - 1 {
          assert front[k] == ns[k];
        }
      }
    }
  }

  /** sort_chain over a whole list, told in nodes instead of positions. */
  method SortNodes<T(!new)>(head: Node<T>, len: int, cmp: (T, T) -> int, ghost ns: seq<Node<T>>, ghost es: seq<T>)
    returns (first: Node?<T>, ghost r: seq<Node<T>>, ghost rs: seq<T>, ghost cost: int)
    requires Forward(ns) && Distinct(ns) && Holds(ns, es) && |es| == |ns| && IsOrder(cmp) && 1 <= len == |ns|
             && head == ns[0]
    modifies ns`next
    ensures InRange(SortingOrder(cmp, es), 0, |ns|) && r == Picked(ns, SortingOrder(cmp, es))
            && rs == StableSorted(cmp, es)
    ensures Forward(r) && Distinct(r) && Holds(r, rs) && first == At(r, 0) && |r| == |ns|
    ensures |ns| - 1 <= cost <= |ns| * CeilLog2(|ns|)
    ensures forall x :: x in r <==> x in ns
    ensures forall k :: 0 <= k < |r| ==> r[k] in ns
  {
    hide *;
    ghost var order := SortingOrder(cmp, es);
    SortingOrderIs(cmp, es);
    SortingOrderUnfolds(cmp, es);
    ForwardIsPath(ns);
    EndNodes(ns);
    ghost var link;
    first, link, cost := SortChain(head, len, cmp, ns, es, SideBySide(|ns|, 0), 0);
    Rechained(ns, es, link, order);
    PickedAll(ns, order);
    r, rs := Picked(ns, order), Picked(es, order);
    assert ns + [] == ns;
    MembersAt(r, ns, []);
  }

  /** merge_chains over two whole lists, told in nodes instead of positions. */
  method MergeNodes<T(!new)>(head: Node?<T>, other: Node?<T>, cmp: (T, T) -> int, ghost ns: seq<Node<T>>,
                             ghost es: seq<T>, ghost ms: seq<Node<T>>, ghost fs: seq<T>)
    returns (first: Node?<T>, ghost r: seq<Node<T>>, ghost rs: seq<T>, ghost cost: int)
    requires Forward(ns) && Distinct(ns) && Holds(ns, es) && |es| == |ns| && head == At(ns, 0)
    requires Forward(ms) && Distinct(ms) && Holds(ms, fs) && |fs| == |ms| && other == At(ms, 0) && Separate(ns, ms)
    modifies ns`next, ms`next
    ensures var order := MergingOrder(cmp, es, fs);
            InRange(order, 0, |ns + ms|) && r == Picked(ns + ms, order) && rs == Merge(cmp, es, fs)
    ensures Forward(r) && Distinct(r) && Holds(r, rs) && first == At(r, 0) && |r| == |ns| + |ms|
    ensures 0 <= cost <= |ns| + |ms| && (|ns| <= cost || |ms| <= cost)
    ensures forall x :: x in r <==> x in ns + ms
    ensures forall k :: 0 <= k < |r| ==> r[k] in ns || r[k] in ms
  {
    hide *;
    ghost var n, m, all := |ns|, |ms|, ns + ms;
    ghost var order := MergingOrder(cmp, es, fs);
    MergingOrderIs(cmp, es, fs);
    MergingOrderUnfolds(cmp, es, fs);
    JoinedRest(ns, ms, es, fs);
    TwoTied(ns, ms);
    TwoPaths(n, m);
    IdsFacts(0, n);
    IdsFacts(n, n + m);
    FirstOf(ns, ms);
    ghost var link;
    IdsSize(0, n);
    IdsSize(n, n + m);
    first, link, cost := MergeChains(head, other, cmp, all, es + fs, SideBySide(n, m), Ids(0, n), Ids(n, n + m), 0, n,
      n + m);
    Rechained(all, es + fs, link, order);
    PickedAll(all, order);
    r, rs := Picked(all, order), Picked(es + fs, order);
    MembersAt(r, ns, ms);
  }

  lemma MembersAt<A>(r: seq<A>, s: seq<A>, t: seq<A>)
    requires forall x :: x in r <==> x in s + t
    ensures forall k :: 0 <= k < |r| ==> r[k] in s || r[k] in t
  {
    forall k | 0 <= k < |r| ensures r[k] in s || r[k] in t {
      assert r[k] in s + t;
    }
  }

  lemma SortingOrderUnfolds<T>(cmp: (T, T) -> int, es: seq<T>)
    ensures SortingOrder(cmp, es) == StableSorted(ByElem(cmp, es), Ids(0, |es|))
  {
  }

  lemma MergingOrderUnfolds<T>(cmp: (T, T) -> int, es: seq<T>, fs: seq<T>)
    ensures MergingOrder(cmp, es, fs) == Merge(ByElem(cmp, es + fs), Ids(0, |es|), Ids(|es|, |es| + |fs|))
  {
  }

  lemma FirstOf<T>(ns: seq<Node<T>>, ms: seq<Node<T>>)
    ensures At(ns + ms, First(Ids(0, |ns|))) == At(ns, 0)
    ensures At(ns + ms, First(Ids(|ns|, |ns| + |ms|))) == At(ms, 0)
  {
  }

  class List<T(!new)> {
    var head: Node?<T>
    var tail: Node?<T>
    var len: nat
    const al: Allocator
    ghost var nodes: seq<Node<T>>
    ghost var elems: seq<T>

    ghost predicate Valid()
      reads this, nodes
    {
      && Chained(nodes, elems)
      && head == At(nodes, 0) && tail == At(nodes, |nodes| - 1) && len == |nodes|
    }

    /** Every node is a block its allocator has lent. */
    ghost predicate Owned()
      reads `nodes, al
    {
      Blocks(nodes) <= al.lent
    }

    /** What its allocator has lent to others. */
    ghost function Others(): (r: set<object>)
      reads `nodes, al
    {
      al.lent - Blocks(nodes)
    }

    constructor (allocator: Allocator)
      ensures Valid() && nodes == [] && elems == [] && al == allocator
    {
      head, tail, len, al, nodes, elems := null, null, 0, allocator, [], [];
    }

    method LinkNode(node: Node<T>, prev: Node?<T>, next: Node?<T>, ghost i: int)
      requires Valid() && 0 <= i <= |nodes| && prev == At(nodes, i - 1) && next == At(nodes, i) && node !in nodes
      modifies this, node`next, node`prev, nodes`next, nodes`prev
      ensures Valid() && nodes == InsertAt(old(nodes), i, node) && elems == InsertAt(old(elems), i, node.elem)
    {
      hide Forward, Backward, Nexts, Prevs, Distinct, Holds, At, InsertAt, After, Before;
      ghost var ns, es := nodes, elems;
      AtFacts(ns, i);
      AtFacts(ns, i - 1);
      NextsAfter(ns);
      Ends(ns, i, node);
      InsertDistinct(ns, i, node);
      InsertHolds(ns, es, i, node);
      nodes, elems, len := InsertAt(ns, i, node), InsertAt(es, i, node.elem), len + 1;
      node.prev := prev;
      node.next := next;
      if prev != null {
        WriteNext(prev, node, ns, After(ns), i - 1);
      } else {
        head := node;
      }
      if next != null {
        WritePrev(next, node, ns, Before(ns), i);
      } else {
        tail := node;
      }
      ForwardInserted(ns, i, node);
      BackwardInserted(ns, i, node);
    }

    method UnlinkNode(node: Node<T>, ghost i: int)
      requires Valid() && 0 <= i < |nodes| && node == nodes[i]
      modifies this, nodes`next, nodes`prev
      ensures Valid() && nodes == RemoveAt(old(nodes), i) && elems == RemoveAt(old(elems), i)
      ensures node !in nodes
    {
      hide Forward, Backward, Nexts, Prevs, Distinct, Holds, At, RemoveAt, After, Before;
      ghost var ns, es := nodes, elems;
      AtFacts(ns, i + 1);
      AtFacts(ns, i - 1);
      Neighbours(ns, i);
      NextsAfter(ns);
      EndsWithout(ns, i);
      RemoveDistinct(ns, i);
      RemoveHolds(ns, es, i);
      nodes, elems, len := RemoveAt(ns, i), RemoveAt(es, i), len - 1;
      if node.prev != null {
        WriteNext(node.prev, node.next, ns, After(ns), i - 1);
      } else {
        head := node.next;
      }
      if node.next != null {
        WritePrev(node.next, node.prev, ns, Before(ns), i + 1);
      } else {
        tail := node.prev;
      }
      ForwardRemoved(ns, i);
      BackwardRemoved(ns, i);
    }

    /** A new node between two neighbours, null standing for an end of the list; a refusal changes nothing. */
    method InsertBetween(prev: Node?<T>, next: Node?<T>, val: T, granted: bool, ghost i: int)
      returns (ok: bool, ghost node: Node?<T>)
      requires Valid() && 0 <= i <= |nodes| && prev == At(nodes, i - 1) && next == At(nodes, i)
      modifies this, nodes`next, nodes`prev, al
      ensures Valid() && ok == granted
      ensures !ok ==> nodes == old(nodes) && elems == old(elems) && al.lent == old(al.lent)
      ensures ok ==> al.lent == old(al.lent) + {node}
      ensures ok ==> node != null && fresh(node)
      ensures ok ==> nodes == InsertAt(old(nodes), i, node as Node<T>) && elems == InsertAt(old(elems), i, val)
    {
      hide Forward, Backward, Distinct, Holds, At, InsertAt;
      if !granted {
        return false, null;
      }
      var created := new Node(val);
      al.Lend(created);
      LinkNode(created, prev, next, i);
      return true, created;
    }

    method PushFront(val: T, granted: bool) returns (ok: bool, ghost node: Node?<T>)
      requires Valid()
      modifies this, nodes`next, nodes`prev, al
      ensures Valid() && ok == granted
      ensures !ok ==> nodes == old(nodes) && elems == old(elems) && al.lent == old(al.lent)
      ensures ok ==> al.lent == old(al.lent) + {node}
      ensures ok ==> node != null && fresh(node) && nodes == [node] + old(nodes) && elems == [val] + old(elems)
    {
      SameLength();
      AtFacts(nodes, -1);
      ok, node := InsertBetween(null, head, val, granted, 0);
    }

    method PushBack(val: T, granted: bool) returns (ok: bool, ghost node: Node?<T>)
      requires Valid()
      modifies this, nodes`next, nodes`prev, al
      ensures Valid() && ok == granted
      ensures !ok ==> nodes == old(nodes) && elems == old(elems) && al.lent == old(al.lent)
      ensures ok ==> al.lent == old(al.lent) + {node}
      ensures ok ==> node != null && fresh(node) && nodes == old(nodes) + [node] && elems == old(elems) + [val]
    {
      SameLength();
      AtFacts(nodes, |nodes|);
      ok, node := InsertBetween(tail, null, val, granted, |nodes|);
    }

    lemma SameLength()
      requires Valid()
      ensures |elems| == |nodes| == len
    {
    }

    method InsertBefore(at: Node<T>, val: T, granted: bool, ghost i: int) returns (ok: bool, ghost node: Node?<T>)
      requires Valid() && 0 <= i < |nodes| && nodes[i] == at
      modifies this, nodes`next, nodes`prev, al
      ensures Valid() && ok == granted
      ensures !ok ==> nodes == old(nodes) && elems == old(elems) && al.lent == old(al.lent)
      ensures ok ==> al.lent == old(al.lent) + {node}
      ensures ok ==> node != null && fresh(node)
      ensures ok ==> nodes == InsertAt(old(nodes), i, node as Node<T>) && elems == InsertAt(old(elems), i, val)
    {
      hide Forward, Backward, Distinct, Holds, At, InsertAt;
      Neighbours(nodes, i);
      AtFacts(nodes, i);
      ok, node := InsertBetween(at.prev, at, val, granted, i);
    }

    method InsertAfter(at: Node<T>, val: T, granted: bool, ghost i: int) returns (ok: bool, ghost node: Node?<T>)
      requires Valid() && 0 <= i < |nodes| && nodes[i] == at
      modifies this, nodes`next, nodes`prev, al
      ensures Valid() && ok == granted
      ensures !ok ==> nodes == old(nodes) && elems == old(elems) && al.lent == old(al.lent)
      ensures ok ==> al.lent == old(al.lent) + {node}
      ensures ok ==> node != null && fresh(node)
      ensures ok ==> nodes == InsertAt(old(nodes), i + 1, node as Node<T>) && elems == InsertAt(old(elems), i + 1, val)
    {
      hide Forward, Backward, Distinct, Holds, At, InsertAt;
      Neighbours(nodes, i);
      AtFacts(nodes, i);
      ok, node := InsertBetween(at, at.next, val, granted, i + 1);
    }

    /** remove_node: out of the list, and handed back. */
    method Remove(node: Node<T>, ghost i: int)
      requires Valid() && 0 <= i < |nodes| && nodes[i] == node && node in al.lent
      modifies this, nodes`next, nodes`prev, al
      ensures Valid() && nodes == RemoveAt(old(nodes), i) && elems == RemoveAt(old(elems), i)
      ensures al.lent == old(al.lent) - {node}
    {
      UnlinkNode(node, i);
      al.TakeBack(node);
    }

    /** Moves node, which stands at position i of src, in front of at, or to the back when at is null; j is where at
        stands. A node cannot leave its allocator, so between lists of different ones the elem moves into a new node. */
    method SpliceNode(at: Node?<T>, src: List<T>, node: Node<T>, granted: bool, ghost i: int, ghost j: int)
      returns (ok: bool, ghost moved: Node<T>)
      requires Valid() && src.Valid() && (src == this || Separate(nodes, src.nodes))
      requires 0 <= i < |src.nodes| && src.nodes[i] == node && 0 <= j <= |nodes| && at == At(nodes, j) && at != node
      requires node in src.al.lent
      modifies this, src, nodes`next, nodes`prev, src.nodes`next, src.nodes`prev, al, src.al
      ensures Valid() && src.Valid() && (src == this || Separate(nodes, src.nodes))
      ensures ok == (al == src.al || granted)
      ensures !ok ==> nodes == old(nodes) && elems == old(elems)
      ensures !ok ==> src.nodes == old(src.nodes) && src.elems == old(src.elems)
      ensures if al == src.al then moved == node else ok ==> fresh(moved)
      ensures if ok && al != src.al then al.lent == old(al.lent) + {moved} && src.al.lent == old(src.al.lent) - {node}
              else al.lent == old(al.lent) && src.al.lent == old(src.al.lent)
      ensures ok && src == this ==>
        var k := if i < j then j - 1 else j;
        && nodes == InsertAt(RemoveAt(old(nodes), i), k, node)
        && |old(elems)| == |old(nodes)| && elems == InsertAt(RemoveAt(old(elems), i), k, old(elems)[i])
      ensures ok && src != this ==>
        && nodes == InsertAt(old(nodes), j, moved) && src.nodes == RemoveAt(old(src.nodes), i)
        && |old(src.elems)| == |old(src.nodes)| && |old(elems)| == |old(nodes)|
        && elems == InsertAt(old(elems), j, old(src.elems)[i]) && src.elems == RemoveAt(old(src.elems), i)
    {
      hide Chained, Forward, Backward, Distinct, Holds, At, InsertAt, RemoveAt;
      SameLength();
      src.SameLength();
      src.ElemAt(i);
      moved := node;
      AtFacts(nodes, j);
      if al != src.al {
        var prev: Node?<T>;
        if at != null {
          ChainedParts(nodes, elems);
          Neighbours(nodes, j);
          prev := at.prev;
        } else {
          prev := tail;
        }
        ghost var created;
        ok, created := InsertBetween(prev, at, node.elem, granted, j);
        if !ok {
          return;
        }
        moved := created;
        SeparateInsert(old(nodes), src.nodes, j, moved);
        SeparateRemove(nodes, src.nodes, i);
        src.Remove(node, i);
        return;
      }
      if src != this {
        SeparateRemove(nodes, src.nodes, i);
      } else {
        ChainedParts(nodes, elems);
        AtRemoved(nodes, i, j);
        RemoveMembers(nodes, i);
      }
      src.UnlinkNode(node, i);
      ghost var k := if src == this && i < j then j - 1 else j;
      AtFacts(nodes, k);
      if src != this {
        SeparateInsert(nodes, src.nodes, k, node);
      }
      var prev: Node?<T>;
      if at != null {
        ChainedParts(nodes, elems);
        Neighbours(nodes, k);
        prev := at.prev;
      } else {
        prev := tail;
      }
      LinkNode(node, prev, at, k);
      ok := true;
    }

    lemma ElemAt(i: int)
      requires Valid() && 0 <= i < |nodes|
      ensures |elems| == |nodes| && elems[i] == nodes[i].elem
    {
    }

    /** Every node of src goes to one end, without one being made. */
    method SpliceNodes(src: List<T>, front: bool)
      requires Valid() && src.Valid() && src != this && Separate(nodes, src.nodes) && al == src.al && 0 < src.len
      modifies this, src, nodes`next, nodes`prev, src.nodes`next, src.nodes`prev
      ensures Valid() && src.Valid() && src.nodes == [] && src.elems == []
      ensures nodes == if front then old(src.nodes) + old(nodes) else old(nodes) + old(src.nodes)
      ensures elems == if front then old(src.elems) + old(elems) else old(elems) + old(src.elems)
    {
      hide Chained, Separate, At;
      ghost var ns, es, ms, fs := nodes, elems, src.nodes, src.elems;
      SeparateFlip(ns, ms);
      JoinedEnds(ns, ms);
      EndNodes(ns);
      EndNodes(ms);
      if len == 0 {
        JoinedNothing(ns, es, ms, fs);
        head := src.head;
        tail := src.tail;
      } else if front {
        Join(src.tail, head, ms, ns, fs, es);
        head := src.head;
      } else {
        Join(tail, src.head, ns, ms, es, fs);
        tail := src.tail;
      }
      len := len + src.len;
      nodes, elems := if front then ms + ns else ns + ms, if front then fs + es else es + fs;
      src.Forget();
    }

    /** Exchanges next and prev in every node, and the two ends. */
    method Reverse()
      requires Valid()
      modifies this, nodes`next, nodes`prev
      ensures Valid() && nodes == Reversed(old(nodes)) && elems == Reversed(old(elems))
    {
      hide Forward, Backward, Distinct, Holds, Nexts, Prevs, At, After, Before, Turned, Reversed;
      ghost var ns, es := nodes, elems;
      NextsAfter(ns);
      TurnedEnds(ns, After(ns), Before(ns));
      TurnedEnds(ns, Before(ns), After(ns));
      var cur := head;
      ghost var i := 0;
      AtFacts(ns, 0);
      while cur != null
        invariant 0 <= i <= |ns| && cur == At(ns, i) && (cur == null <==> i == |ns|)
        invariant Nexts(ns, Turned(ns, After(ns), Before(ns), i)) && Prevs(ns, Turned(ns, Before(ns), After(ns), i))
        invariant Distinct(ns) && Holds(ns, es) && nodes == ns && elems == es
        invariant head == At(ns, 0) && tail == At(ns, |ns| - 1) && len == |ns|
        decreases |ns| - i
      {
        AtFacts(ns, i);
        AtFacts(ns, i + 1);
        var next := cur.next;
        Turn(cur, ns, i);
        cur := next;
        i := i + 1;
      }
      AllTurned(ns, es);
      head, tail := tail, head;
      nodes, elems := Reversed(ns), Reversed(es);
    }

    /** Walks the chain from head and makes every prev, and the tail, agree with it again. */
    method RelinkPrev()
      requires Forward(nodes) && Distinct(nodes) && head == At(nodes, 0)
      modifies this`tail, nodes`prev
      ensures Backward(nodes) && tail == At(nodes, |nodes| - 1)
    {
      hide *;
      ghost var ns := nodes;
      ghost var was := Snapshot(ns);
      NextsAfter(ns);
      AtFacts(ns, 0);
      AtFacts(ns, -1);
      var prev: Node?<T> := null;
      var node := head;
      ghost var i := 0;
      TurnedEnds(ns, was, Before(ns));
      while node != null
        invariant 0 <= i <= |ns| && node == At(ns, i) && prev == At(ns, i - 1) && (node == null <==> i == |ns|)
        invariant |was| == |ns| && Prevs(ns, Turned(ns, was, Before(ns), i)) && Nexts(ns, After(ns))
        invariant nodes == ns && head == At(ns, 0)
        decreases |ns| - i
      {
        AtFacts(ns, i);
        AtFacts(ns, i + 1);
        TurnOne(ns, was, Before(ns), i);
        BeforeAt(ns, i);
        WritePrev(node, prev, ns, Turned(ns, was, Before(ns), i), i);
        prev := node;
        NextAt(ns, i);
        node := node.next;
        i := i + 1;
      }
      TurnedEnds(ns, was, Before(ns));
      NextsAfter(ns);
      tail := prev;
    }

    /** The stable sort, by relinking alone: the nodes take the order their elems have when stably sorted, and keep
        them. */
    method Sort(cmp: (T, T) -> int) returns (ghost cost: int)
      requires Valid() && IsOrder(cmp)
      modifies this, nodes`next, nodes`prev
      ensures Valid() && elems == StableSorted(cmp, old(elems))
      ensures |old(elems)| == |old(nodes)| && InRange(SortingOrder(cmp, old(elems)), 0, |old(nodes)|)
      ensures nodes == Picked(old(nodes), SortingOrder(cmp, old(elems)))
      ensures 0 <= cost <= |nodes| * CeilLog2(|nodes|) && |nodes| - 1 <= cost && |nodes| == |old(nodes)|
      ensures forall x :: x in nodes <==> x in old(nodes)
    {
      hide Forward, Backward, Distinct, Holds, At, SortingOrder, InRange, Picked, IsOrder, StableSorted, CeilLog2;
      cost := 0;
      MulOrder(0, CeilLog2(|nodes|), |nodes|);
      SameLength();
      SortingOrderIs(cmp, elems);
      if len < 2 {
        OneNode(cmp, nodes, elems);
        return;
      }
      EndNodes(nodes);
      head, nodes, elems, cost := SortNodes(head, len, cmp, nodes, elems);
      RelinkPrev();
    }

    /** The stable merge of the two chains, by relinking alone; src is left empty. */
    method MergeInto(src: List<T>, cmp: (T, T) -> int) returns (ghost cost: int)
      requires Valid() && src.Valid() && src != this && Separate(nodes, src.nodes) && al == src.al && 0 < src.len
      modifies this, src, nodes`next, nodes`prev, src.nodes`next, src.nodes`prev
      ensures Valid() && src.Valid() && src.nodes == [] && src.elems == []
      ensures 0 <= cost <= |old(elems)| + |old(src.elems)|
      ensures |old(elems)| <= cost || |old(src.elems)| <= cost
      ensures elems == Merge(cmp, old(elems), old(src.elems))
      ensures var all := old(nodes) + old(src.nodes);
              var order := MergingOrder(cmp, old(elems), old(src.elems));
              InRange(order, 0, |all|) && nodes == Picked(all, order) && forall x :: x in nodes <==> x in all
    {
      hide Chained, Forward, Backward, Distinct, Holds, At, MergingOrder, InRange, Picked, Separate, Merge;
      ChainedParts(nodes, elems);
      ChainedParts(src.nodes, src.elems);
      MergingOrderIs(cmp, elems, src.elems);
      head, nodes, elems, cost := MergeNodes(head, src.head, cmp, nodes, elems, src.nodes, src.elems);
      len := len + src.len;
      RelinkPrev();
      ChainedParts(nodes, elems);
      src.Forget();
    }

    /** Hands every node back, its next read before it goes. */
    method Clear()
      requires Valid() && Owned()
      modifies this, al
      ensures Valid() && nodes == [] && elems == [] && al.lent == old(al.lent) - Blocks(old(nodes))
    {
      hide *;
      ghost var ns, was := nodes, al.lent;
      NodesChained();
      AtFacts(ns, 0);
      NoBlocks(ns[..0]);
      var node := head;
      ghost var i := 0;
      while node != null
        invariant 0 <= i <= |ns| && node == At(ns, i) && (node == null <==> i == |ns|)
        invariant nodes == ns && Forward(ns) && Distinct(ns)
        invariant Blocks(ns) <= was && al.lent == was - Blocks(ns[..i])
        decreases |ns| - i
      {
        AtFacts(ns, i);
        AtFacts(ns, i + 1);
        OneBlock(ns, i);
        NextIs(ns, i);
        var next := node.next;
        al.TakeBack(node);
        node := next;
        i := i + 1;
      }
      assert ns[..i] == ns;
      Forget();
    }

    lemma NodesChained()
      requires Valid() && Owned()
      ensures Forward(nodes) && Distinct(nodes) && head == At(nodes, 0) && Blocks(nodes) <= al.lent
    {
    }

    /** tda_list_drop: the nodes, then the list itself. */
    method Drop()
      requires Valid() && Owned() && this in al.lent
      modifies this, al
      ensures al.lent == old(al.lent) - Blocks(old(nodes)) - {this}
    {
      hide *;
      NotANode(nodes);
      Clear();
      al.TakeBack(this);
    }

    lemma NotANode(ns: seq<Node<T>>)
      ensures (this as object) !in Blocks(ns)
    {
    }

    /** Empty, whatever it held: the nodes are someone else's now. */
    method Forget()
      modifies this
      ensures Valid() && nodes == [] && elems == []
    {
      nodes, elems := [], [];
      head, tail, len := null, null, 0;
    }

    /** The two lists exchange their nodes. */
    method Swap(other: List<T>)
      requires Valid() && other.Valid() && al == other.al
      modifies this, other
      ensures Valid() && other.Valid()
      ensures nodes == old(other.nodes) && elems == old(other.elems)
      ensures other.nodes == old(nodes) && other.elems == old(elems)
    {
      hide Chained, At;
      if this == other {
        return;
      }
      head, other.head := other.head, head;
      tail, other.tail := other.tail, tail;
      len, other.len := other.len, len;
      nodes, other.nodes := other.nodes, nodes;
      elems, other.elems := other.elems, elems;
    }

    /** Pushes what the chain from node on holds to the back of obj, as long as the allocator grants it. */
    method AppendTo(obj: List<T>, first: Node?<T>, ghost from: int, grants: nat) returns (ok: bool)
      requires Valid() && obj.Valid() && obj != this && Separate(nodes, obj.nodes) && obj.Owned()
      requires 0 <= from <= |nodes| && first == At(nodes, from)
      modifies obj, obj.nodes`next, obj.nodes`prev, obj.al
      ensures Valid() && obj.Valid() && Separate(nodes, obj.nodes)
      ensures obj.al.lent == old(obj.al.lent) + Blocks(obj.nodes)
      ensures ok == (|nodes| - from <= grants)
      ensures |elems| == |nodes|
      ensures ok ==> obj.elems == old(obj.elems) + elems[from..]
      ensures NewOrOld(obj.nodes, old(obj.nodes))
    {
      hide Chained, Forward, Backward, Distinct, Holds, At;
      SameLength();
      var left := grants;
      var node := first;
      ghost var i := from;
      ghost var was, wasElems := obj.nodes, obj.elems;
      AtFacts(nodes, i);
      LentAlready(obj);
      assert wasElems + elems[from..from] == wasElems;
      while node != null
        invariant from <= i <= |nodes| == |elems| && node == At(nodes, i) && (node == null <==> i == |nodes|)
        invariant Valid() && obj.Valid() && Separate(nodes, obj.nodes) && NewOrOld(obj.nodes, was)
        invariant obj.elems == wasElems + elems[from..i]
        invariant obj.al.lent == old(obj.al.lent) + Blocks(obj.nodes)
        invariant 0 <= left && left + i - from == grants
        decreases |nodes| - i
      {
        AtFacts(nodes, i);
        AtFacts(nodes, i + 1);
        ChainedParts(nodes, elems);
        Neighbours(nodes, i);
        ElemAt(i);
        ghost var before := obj.nodes;
        var ok, made := obj.PushBack(node.elem, 0 < left);
        if !ok {
          return false;
        }
        assert made !in nodes;
        SeparateAppend(nodes, before, made);
        BlocksAppend(before, made);
        assert elems[from..i + 1] == elems[from..i] + [elems[i]];
        node := node.next;
        left := left - 1;
        i := i + 1;
      }
      assert elems[from..i] == elems[from..];
      return true;
    }

    lemma LentAlready(obj: List<T>)
      requires obj.Owned()
      ensures obj.al.lent == obj.al.lent + Blocks(obj.nodes)
    {
    }

    /** A list of the same elems from another allocator, which grants so many more requests: one for the list, one for
        each node. After a refusal, all that was lent for it has been handed back. */
    method CopyWith(allocator: Allocator, grants: nat) returns (r: List?<T>)
      requires Valid()
      modifies allocator
      ensures r != null <==> 1 + |elems| <= grants
      ensures r == null ==> allocator.lent == old(allocator.lent)
      ensures r != null ==> r.Owned() && r.Others() == old(allocator.lent) + {r}
      ensures r != null ==> fresh(r) && r.Valid() && r.al == allocator && r.elems == elems && NewOrOld(r.nodes, [])
    {
      hide Chained, Forward, Backward, Distinct, Holds, At;
      SameLength();
      if grants == 0 {
        return null;
      }
      var obj := new List(allocator);
      allocator.Lend(obj);
      EndNodes(nodes);
      AtFacts(nodes, 0);
      NoBlocks(obj.nodes);
      var ok := AppendTo(obj, head, 0, grants - 1);
      assert [] + elems[0..] == elems;
      if ok {
        return obj;
      }
      FreshBlocks(obj.nodes);
      obj.Drop();
      return null;
    }

    /** New nodes are none of the blocks that were out. */
    twostate lemma FreshBlocks(new ns: seq<Node<T>>)
      requires NewOrOld(ns, [])
      ensures forall x :: x in Blocks(ns) ==> fresh(x)
    {
    }

    /** Nodes are either new or were there before. */
    twostate predicate NewOrOld(new ns: seq<Node<T>>, was: seq<Node<T>>) {
      forall i :: 0 <= i < |ns| ==> fresh(ns[i]) || ns[i] in was
    }

    /** Makes other hold what this list holds, in the nodes it has as far as they go. The missing ones are made before
        anything is written, so a refusal leaves other as it was. */
    method CopyAssign(other: List<T>, grants: nat) returns (ok: bool)
      requires Valid() && other.Valid() && (this == other || Separate(nodes, other.nodes)) && other.Owned()
      modifies other, other.nodes`next, other.nodes`prev, other.nodes`elem, other.al
      ensures Valid() && other.Valid() && nodes == old(nodes) && elems == old(elems)
      ensures ok == (this == other || |old(elems)| <= |old(other.elems)| + grants)
      ensures !ok ==> other.nodes == old(other.nodes) && other.elems == old(other.elems)
      ensures !ok ==> other.al.lent == old(other.al.lent)
      ensures other.Owned() && other.Others() == old(other.Others())
      ensures ok ==> other.elems == elems
      ensures ok && this != other ==>
        var kept := if |old(nodes)| < |old(other.nodes)| then |old(nodes)| else |old(other.nodes)|;
        |other.nodes| == |nodes| && other.nodes[..kept] == old(other.nodes)[..kept]
    {
      hide Chained, At;
      SameLength();
      other.SameLength();
      if this == other {
        return true;
      }
      ghost var kept := if |nodes| < |other.nodes| then |nodes| else |other.nodes|;
      var src := FirstMissing(other);
      var spare := new List(other.al);
      NoBlocks(spare.nodes);
      ok := AppendTo(spare, src, kept, grants);
      FreshBlocks(spare.nodes);
      if !ok {
        spare.Clear();
        return;
      }
      assert [] + elems[kept..] == elems[kept..];
      Overwrite(other, spare, kept);
    }

    /** The part of copy_assign that cannot fail: spare holds the elems other has no nodes for. */
    method Overwrite(other: List<T>, spare: List<T>, ghost kept: int)
      requires Valid() && other.Valid() && spare.Valid() && this != other && this != spare && other != spare
      requires Separate(nodes, other.nodes) && Separate(nodes, spare.nodes) && Separate(other.nodes, spare.nodes)
      requires kept == (if |nodes| < |other.nodes| then |nodes| else |other.nodes|) && other.al == spare.al
      requires |elems| == |nodes| && spare.elems == elems[kept..] && other.Owned() && spare.Owned()
      modifies other, other.nodes`next, other.nodes`prev, other.nodes`elem, spare, spare.nodes`next, spare.nodes`prev
      modifies other.al
      ensures other.Owned() && other.Others() == old(other.Others()) - old(Blocks(spare.nodes))
      ensures Valid() && other.Valid() && other.elems == elems
      ensures |other.nodes| == |nodes| && other.nodes[..kept] == old(other.nodes)[..kept]
    {
      hide Chained, At;
      SameLength();
      other.SameLength();
      spare.SameLength();
      ghost var ms, fs := other.nodes, other.elems;
      SeparateBlocks(ms, spare.nodes);
      assert Blocks(spare.nodes) <= other.Others();
      CopyElems(other, kept);
      other.SameLength();
      other.DropBack(len, kept);
      assert Blocks(spare.nodes) <= other.Others();
      AssignedElems(elems, fs, kept);
      SeparateCut(ms, spare.nodes, other.nodes);
      BlocksJoin(other.nodes, spare.nodes);
      if spare.len > 0 {
        other.SpliceNodes(spare, false);
      }
      other.SameLength();
    }

    /** The first node of this list that other has none for. */
    method FirstMissing(other: List<T>) returns (src: Node?<T>)
      requires Valid() && other.Valid()
      ensures src == At(nodes, if |nodes| < |other.nodes| then |nodes| else |other.nodes|)
    {
      hide Chained, Forward, Backward, Distinct, Holds, At;
      ChainedParts(nodes, elems);
      ChainedParts(other.nodes, other.elems);
      src := head;
      var dst := other.head;
      ghost var i := 0;
      AtFacts(nodes, 0);
      AtFacts(other.nodes, 0);
      while src != null && dst != null
        invariant 0 <= i <= |nodes| && i <= |other.nodes|
        invariant src == At(nodes, i) && (src == null <==> i == |nodes|)
        invariant dst == At(other.nodes, i) && (dst == null <==> i == |other.nodes|)
        decreases |nodes| - i
      {
        AtFacts(nodes, i);
        AtFacts(nodes, i + 1);
        AtFacts(other.nodes, i);
        AtFacts(other.nodes, i + 1);
        Neighbours(nodes, i);
        Neighbours(other.nodes, i);
        src := src.next;
        dst := dst.next;
        i := i + 1;
      }
    }

    /** Overwrites the elems of other with those of this list, as far as both go. */
    method CopyElems(other: List<T>, ghost kept: int)
      requires Valid() && other.Valid() && this != other && Separate(nodes, other.nodes)
      requires kept == if |nodes| < |other.nodes| then |nodes| else |other.nodes|
      modifies other`elems, other.nodes`elem
      ensures Valid() && other.Valid() && |elems| == |nodes| && |old(other.elems)| == |other.nodes|
      ensures other.elems == elems[..kept] + old(other.elems)[kept..]
    {
      hide Chained, Forward, Backward, Distinct, Holds, At;
      ChainedParts(nodes, elems);
      ChainedParts(other.nodes, other.elems);
      ghost var ms, fs := other.nodes, other.elems;
      var from, to := head, other.head;
      ghost var i := 0;
      AtFacts(nodes, 0);
      AtFacts(ms, 0);
      assert elems[..0] + fs[0..] == fs;
      while to != null && from != null
        invariant 0 <= i <= kept
        invariant from == At(nodes, i) && (from == null <==> i == |nodes|)
        invariant to == At(ms, i) && (to == null <==> i == |ms|)
        invariant Forward(ms) && Backward(ms) && Distinct(ms) && Holds(ms, elems[..i] + fs[i..])
        invariant Forward(nodes) && Holds(nodes, elems) && Valid()
        invariant other.nodes == ms && other.elems == fs
        decreases |ms| - i
      {
        AtFacts(nodes, i);
        AtFacts(nodes, i + 1);
        AtFacts(ms, i);
        AtFacts(ms, i + 1);
        Neighbours(nodes, i);
        Neighbours(ms, i);
        ElemAt(i);
        OneCopied(elems, fs, i);
        WriteElem(to, from.elem, ms, elems[..i] + fs[i..], i);
        to := to.next;
        from := from.next;
        i := i + 1;
      }
      other.elems := elems[..i] + fs[i..];
      ChainedParts(ms, other.elems);
    }

    /** Hands nodes back, the last one first, until no more than wanted are left. */
    method DropBack(wanted: int, ghost kept: int)
      requires Valid() && 0 <= wanted && kept == (if wanted < len then wanted else len) && Owned()
      modifies this, nodes`next, nodes`prev, al
      ensures Owned() && Others() == old(Others())
      ensures Valid() && |old(elems)| == |old(nodes)| && nodes == old(nodes)[..kept] && elems == old(elems)[..kept]
    {
      hide Chained, At;
      SameLength();
      ghost var ns, es := nodes, elems;
      assert ns[..|ns|] == ns && es[..|es|] == es;
      while len > wanted
        invariant Valid() && kept <= len <= |ns| == |es| && nodes == ns[..len] && elems == es[..len]
        invariant Owned() && Others() == old(Others())
        invariant wanted < len ==> kept == wanted
        decreases len
      {
        SameLength();
        EndNodes(nodes);
        ghost var n := len - 1;
        LastRemoved(ns, n);
        LastRemoved(es, n);
        ChainedParts(nodes, elems);
        OneBlock(nodes, n);
        Remove(tail, n);
      }
    }

    /** All of src goes to one end: its nodes themselves, or copies of them when the allocators differ. */
    method SpliceAll(src: List<T>, front: bool, grants: nat) returns (ok: bool)
      requires Valid() && src.Valid() && src != this && Separate(nodes, src.nodes) && Owned() && src.Owned()
      modifies this, src, nodes`next, nodes`prev, src.nodes`next, src.nodes`prev, al, src.al
      ensures al == src.al ==> al.lent == old(al.lent)
      ensures al != src.al ==> Owned() && Others() == old(Others())
      ensures al != src.al ==> src.Owned() && src.Others() == old(src.Others())
      ensures !ok ==> al.lent == old(al.lent) && src.al.lent == old(src.al.lent)
      ensures Valid() && src.Valid()
      ensures ok == (|old(src.elems)| == 0 || al == src.al || 1 + |old(src.elems)| <= grants)
      ensures !ok ==> nodes == old(nodes) && elems == old(elems)
      ensures !ok ==> src.nodes == old(src.nodes) && src.elems == old(src.elems)
      ensures ok ==> src.nodes == [] && src.elems == []
      ensures ok ==> elems == if front then old(src.elems) + old(elems) else old(elems) + old(src.elems)
      ensures ok && al == src.al ==> nodes == if front then old(src.nodes) + old(nodes) else old(nodes) + old(src.nodes)
    {
      hide Chained, At;
      SameLength();
      src.SameLength();
      if src.len == 0 {
        return true;
      }
      if al == src.al {
        SpliceNodes(src, front);
        return true;
      }
      var copy := src.CopyWith(al, grants);
      if copy == null {
        return false;
      }
      copy.SameLength();
      BlocksJoin(nodes, copy.nodes);
      SpliceNodes(copy, front);
      copy.Drop();
      src.Clear();
      return true;
    }

    /** The stable merge with src, which is left empty: its nodes are relinked, or copies of them when the allocators
        differ. */
    method MergeList(src: List<T>, cmp: (T, T) -> int, grants: nat) returns (ok: bool, ghost cost: int)
      requires Valid() && src.Valid() && src != this && Separate(nodes, src.nodes) && Owned() && src.Owned()
      modifies this, src, nodes`next, nodes`prev, src.nodes`next, src.nodes`prev, al, src.al
      ensures al == src.al ==> al.lent == old(al.lent)
      ensures al != src.al ==> Owned() && Others() == old(Others())
      ensures al != src.al ==> src.Owned() && src.Others() == old(src.Others())
      ensures !ok ==> al.lent == old(al.lent) && src.al.lent == old(src.al.lent)
      ensures Valid() && src.Valid()
      ensures ok == (|old(src.elems)| == 0 || al == src.al || 1 + |old(src.elems)| <= grants)
      ensures 0 <= cost <= |old(elems)| + |old(src.elems)|
      ensures !ok ==> nodes == old(nodes) && elems == old(elems)
      ensures !ok ==> src.nodes == old(src.nodes) && src.elems == old(src.elems)
      ensures ok ==> elems == Merge(cmp, old(elems), old(src.elems)) && src.nodes == [] && src.elems == []
      ensures ok && al == src.al ==> forall x :: x in nodes <==> x in old(nodes) + old(src.nodes)
    {
      hide Chained, At, Merge;
      cost := 0;
      SameLength();
      src.SameLength();
      if src.len == 0 {
        MergeNothing(cmp, elems, src.elems);
        assert elems + src.elems == elems;
        return true, cost;
      }
      if al == src.al {
        cost := MergeInto(src, cmp);
        return true, cost;
      }
      var copy := src.CopyWith(al, grants);
      if copy == null {
        return false, cost;
      }
      copy.SameLength();
      cost := TakeCopy(copy, cmp);
      src.Clear();
      return true, cost;
    }

    /** Merges in a list on the same allocator, and drops what is left of it: the list without its nodes. */
    method TakeCopy(copy: List<T>, cmp: (T, T) -> int) returns (ghost cost: int)
      requires Valid() && copy.Valid() && copy != this && Separate(nodes, copy.nodes) && al == copy.al && 0 < copy.len
      requires Owned() && copy.Owned() && copy in al.lent
      modifies this, copy, nodes`next, nodes`prev, copy.nodes`next, copy.nodes`prev, al
      ensures Valid() && elems == Merge(cmp, old(elems), old(copy.elems))
      ensures Blocks(nodes) == old(Blocks(nodes) + Blocks(copy.nodes)) && al.lent == old(al.lent) - {copy}
      ensures 0 <= cost <= |old(elems)| + |old(copy.elems)|
    {
      hide Chained, At, Merge;
      BlocksJoin(nodes, copy.nodes);
      cost := MergeInto(copy, cmp);
      copy.Drop();
    }

    /** Gives everything to other, whose own nodes are handed back; between allocators, copies of the elems. */
    method MoveAssign(other: List<T>, grants: nat) returns (ok: bool)
      requires Valid() && other.Valid() && Owned() && other.Owned()
      modifies this, other, al, other.al
      ensures this == other || !ok ==> al.lent == old(al.lent) && other.al.lent == old(other.al.lent)
      ensures ok && this != other && al == other.al ==> al.lent == old(other.Others())
      ensures ok && al != other.al ==>
        al.lent == old(Others()) && other.Owned() && other.Others() == old(other.Others())
      ensures Valid() && other.Valid()
      ensures ok == (this == other || al == other.al || 1 + |old(elems)| <= grants)
      ensures this == other || !ok ==>
        nodes == old(nodes) && elems == old(elems) && other.nodes == old(other.nodes) && other.elems == old(other.elems)
      ensures ok && this != other ==> other.elems == old(elems) && elems == [] && nodes == []
      ensures ok && al == other.al ==> other.nodes == old(nodes)
    {
      hide Chained, At;
      if this == other {
        return true;
      }
      if al == other.al {
        Swap(other);
        Clear();
        return true;
      }
      var obj := CopyWith(other.al, grants);
      if obj == null {
        return false;
      }
      FreshBlocks(obj.nodes);
      other.Swap(obj);
      obj.Drop();
      Clear();
      return true;
    }
  }

  /** The nodes as blocks of memory. */
  ghost function Blocks<T>(ns: seq<Node<T>>): (r: set<object>) {
    set x: object | x in ns
  }

  lemma NoBlocks<T>(ns: seq<Node<T>>)
    requires ns == []
    ensures Blocks(ns) == {}
  {
  }

  /** The i-th node is still out when those before it are back. */
  lemma OneBlock<T>(ns: seq<Node<T>>, i: int)
    requires Distinct(ns) && 0 <= i < |ns|
    ensures ns[i] in Blocks(ns) && ns[i] !in Blocks(ns[..i]) && Blocks(ns[..i + 1]) == Blocks(ns[..i]) + {ns[i]}
  {
  }

  lemma BlocksAppend<T>(ns: seq<Node<T>>, node: Node?<T>)
    requires node != null
    ensures Blocks(ns + [node]) == Blocks(ns) + {node}
  {
  }

  lemma BlocksJoin<T>(ns: seq<Node<T>>, ms: seq<Node<T>>)
    ensures Blocks(ns + ms) == Blocks(ns) + Blocks(ms) == Blocks(ms + ns)
  {
  }

  lemma SeparateBlocks<T>(ns: seq<Node<T>>, ms: seq<Node<T>>)
    requires Separate(ns, ms)
    ensures Blocks(ns) !! Blocks(ms)
  {
  }

  lemma NextIs<T>(ns: seq<Node<T>>, i: int)
    requires Forward(ns) && 0 <= i < |ns|
    ensures ns[i].next == At(ns, i + 1)
  {
  }

  lemma BeforeAt<T>(ns: seq<Node<T>>, i: int)
    ensures 0 <= i < |ns| ==> Before(ns)[i] == At(ns, i - 1)
  {
  }

  lemma NextAt<T>(ns: seq<Node<T>>, i: int)
    requires Nexts(ns, After(ns)) && 0 <= i < |ns|
    ensures ns[i].next == At(ns, i + 1)
  {
  }

  lemma OneNode<T(!new)>(cmp: (T, T) -> int, ns: seq<Node<T>>, es: seq<T>)
    requires |ns| == |es| <= 1
    ensures InRange(SortingOrder(cmp, es), 0, |ns|) && Picked(ns, SortingOrder(cmp, es)) == ns
    ensures StableSorted(cmp, es) == es
  {
    SortedOne(cmp, es);
    SortedOne(ByElem(cmp, es), Ids(0, |es|));
  }

  /** What sorting or merging positions leaves is a chain of the same nodes. */
  lemma Rechained<T>(ns: seq<Node<T>>, es: seq<T>, link: seq<int>, order: seq<int>)
    requires Tied(ns, link) && Path(link, order) && InRange(order, 0, |ns|) && Holds(ns, es)
    ensures Forward(Picked(ns, order)) && |es| == |ns| && Holds(Picked(ns, order), Picked(es, order))
    ensures At(ns, First(order)) == At(Picked(ns, order), 0)
  {
    PathIsChain(ns, link, order);
    HoldsPicked(ns, es, order);
  }

  lemma SeparateAppend<T>(ns: seq<Node<T>>, ms: seq<Node<T>>, node: Node?<T>)
    requires Separate(ns, ms) && node != null && node !in ns
    ensures Separate(ns, ms + [node])
  {
  }

  method WriteElem<T>(x: Node<T>, val: T, ghost ns: seq<Node<T>>, ghost was: seq<T>, ghost k: int)
    requires Holds(ns, was) && Distinct(ns) && 0 <= k < |ns| && ns[k] == x
    modifies x`elem
    ensures |was| == |ns| && Holds(ns, was[k := val])
  {
    x.elem := val;
  }

  lemma OneCopied<A>(es: seq<A>, fs: seq<A>, i: int)
    requires 0 <= i < |es| && i < |fs|
    ensures (es[..i] + fs[i..])[i := es[i]] == es[..i + 1] + fs[i + 1..]
  {
  }

  lemma LastRemoved<A>(s: seq<A>, n: int)
    requires 0 <= n < |s|
    ensures RemoveAt(s[..n + 1], n) == s[..n]
  {
  }

  lemma AssignedElems<A>(es: seq<A>, fs: seq<A>, kept: int)
    requires kept == if |es| < |fs| then |es| else |fs|
    ensures (es[..kept] + fs[kept..])[..kept] + es[kept..] == es
  {
  }

  lemma SeparateCut<A>(s: seq<A>, t: seq<A>, r: seq<A>)
    requires Separate(s, t) && r <= s
    ensures Separate(r, t)
  {
  }

  lemma EndNodes<T>(ns: seq<Node<T>>)
    ensures ns != [] ==> At(ns, 0) == ns[0] && At(ns, |ns| - 1) == ns[|ns| - 1]
    ensures ns == [] ==> At(ns, 0) == null && At(ns, |ns| - 1) == null
  {
  }

  lemma AtRemoved<T>(ns: seq<Node<T>>, i: int, j: int)
    requires 0 <= i < |ns| && 0 <= j <= |ns| && Distinct(ns) && At(ns, j) != ns[i]
    ensures At(RemoveAt(ns, i), if i < j then j - 1 else j) == At(ns, j)
  {
  }
}
