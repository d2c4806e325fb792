/** Bucket arrays of singly linked nodes (src/ds/hmap.c). A table is n chains, one to a bucket, that hold every node of
    a set exactly once, each in the bucket its hash names. */
module Tables {
  import opened Bits
  import opened Sequences

  class Node<K, V> {
    const hash: nat
    const key: K
    var val: V
    var next: Node?<K, V>

    constructor (h: nat, k: K, v: V)
      ensures hash == h && key == k && val == v && next == null
    {
      hash, key, val, next := h, k, v, null;
    }
  }

  /** bucket_of: the hash masked with one less than the number of buckets. */
  function BucketOf(hash: nat, count: nat): (b: nat)
    requires count > 0
  {
    And(hash, count - 1)
  }

  /** The mask is the remainder, so it never leaves the array. */
  lemma BucketIsRemainder(hash: nat, count: nat)
    requires count > 0 && PowerOfTwo(count)
    ensures BucketOf(hash, count) == hash % count < count
  {
    var k: nat :| k < WORD && count == Pow2(k);
    MaskIsRemainder(hash, k);
  }

  // ---------- chains ----------

  ghost function Nth<K, V>(ch: seq<Node<K, V>>, k: int): Node?<K, V> {
    if 0 <= k < |ch| then ch[k] else null
  }

  /** The nodes of ch are linked in that order, from first on. */
  ghost predicate Linked<K, V>(ch: seq<Node<K, V>>, first: Node?<K, V>)
    reads ch`next
  {
    first == Nth(ch, 0) && forall i {:trigger ch[i].next} :: 0 <= i < |ch| ==> ch[i].next == Nth(ch, i + 1)
  }

  /** The chain of bucket b holds exactly the nodes of s that hash there, once each. */
  ghost predicate Bucket<K, V>(ch: seq<Node<K, V>>, b: int, n: int, s: set<Node<K, V>>) {
    && Distinct(ch) && 0 < n
    && (forall i :: 0 <= i < |ch| ==> ch[i] in s && BucketOf(ch[i].hash, n) == b)
    && (forall x :: x in s && BucketOf(x.hash, n) == b ==> x in ch)
  }

  ghost predicate Table<K, V>(chains: seq<seq<Node<K, V>>>, heads: seq<Node?<K, V>>, n: int, s: set<Node<K, V>>)
    reads s`next
  {
    && |chains| == |heads| == n
    && (forall x :: x in s ==> 0 < n && BucketOf(x.hash, n) < n)
    && (forall b {:trigger chains[b]} :: 0 <= b < n ==> Bucket(chains[b], b, n, s))
    && (forall b {:trigger heads[b]} :: 0 <= b < n ==> Linked(chains[b], heads[b]))
  }

  lemma BucketPushed<K, V>(ch: seq<Node<K, V>>, b: int, n: int, s: set<Node<K, V>>, x: Node<K, V>)
    requires Bucket(ch, b, n, s) && x !in s
    ensures BucketOf(x.hash, n) == b ==> Bucket([x] + ch, b, n, s + {x})
    ensures BucketOf(x.hash, n) != b ==> Bucket(ch, b, n, s + {x})
  {
    if BucketOf(x.hash, n) == b {
      var c := [x] + ch;
      forall i, j | 0 <= i < j < |c| ensures c[i] != c[j] {
        assert c[j] == ch[j - 1];
      }
    }
  }

  lemma BucketDropped<K, V>(ch: seq<Node<K, V>>, b: int, n: int, s: set<Node<K, V>>, i: int, x: Node<K, V>)
    requires Bucket(ch, b, n, s)
    ensures BucketOf(x.hash, n) == b && 0 <= i < |ch| && ch[i] == x ==> Bucket(ch[..i] + ch[i + 1..], b, n, s - {x})
    ensures BucketOf(x.hash, n) != b ==> Bucket(ch, b, n, s - {x})
  {
    if BucketOf(x.hash, n) == b && 0 <= i < |ch| && ch[i] == x {
      var c := ch[..i] + ch[i + 1..];
      forall y | y in s - {x} && BucketOf(y.hash, n) == b ensures y in c {
        var k :| 0 <= k < |ch| && ch[k] == y;
        assert c[if k < i then k else k - 1] == y;
      }
    }
  }

  lemma LinkedPushed<K, V>(ch: seq<Node<K, V>>, first: Node?<K, V>, x: Node<K, V>)
    requires Linked(ch, first) && x.next == first
    ensures Linked([x] + ch, x)
  {
    var c := [x] + ch;
    forall i | 0 <= i < |c| ensures c[i].next == Nth(c, i + 1) {
      if i > 0 {
        assert c[i] == ch[i - 1];
      }
    }
  }

  lemma LinkedPopped<K, V>(ch: seq<Node<K, V>>, first: Node<K, V>)
    requires Linked(ch, first)
    ensures ch != [] && ch[0] == first && Linked(ch[1..], first.next)
  {
    var c := ch[1..];
    forall i | 0 <= i < |c| ensures c[i].next == Nth(c, i + 1) {
      assert c[i] == ch[i + 1];
    }
  }

  /** A node linked in front of the chain its hash names. */
  lemma Pushed<K, V>(chains: seq<seq<Node<K, V>>>, heads: seq<Node?<K, V>>, n: int, s: set<Node<K, V>>, x: Node<K, V>,
                     b: int)
    requires Table(chains, heads, n, s) && x !in s && 0 < n && b == BucketOf(x.hash, n) < n && x.next == heads[b]
    ensures Table(chains[b := [x] + chains[b]], heads[b := x], n, s + {x})
  {
    hide Bucket, Linked, BucketOf;
    var cs, hs, t := chains[b := [x] + chains[b]], heads[b := x], s + {x};
    LinkedPushed(chains[b], heads[b], x);
    forall d | 0 <= d < n ensures Bucket(cs[d], d, n, t) {
      BucketPushed(chains[d], d, n, s, x);
    }
    forall d | 0 <= d < n ensures Linked(cs[d], hs[d]) {
      assert d != b ==> Linked(chains[d], heads[d]);
    }
  }

  /** The first node of a chain taken off it. */
  lemma Popped<K, V>(chains: seq<seq<Node<K, V>>>, heads: seq<Node?<K, V>>, n: int, s: set<Node<K, V>>, x: Node<K, V>,
                     b: int)
    requires Table(chains, heads, n, s) && 0 <= b < n && heads[b] == x
    ensures chains[b] != [] && chains[b][0] == x && x in s && BucketOf(x.hash, n) == b
    ensures Table(chains[b := chains[b][1..]], heads[b := x.next], n, s - {x})
  {
    var ch := chains[b];
    LinkedPopped(ch, x);
    FirstIsIn(ch, b, n, s);
    hide Bucket, Linked, BucketOf;
    var cs, hs, t := chains[b := ch[1..]], heads[b := x.next], s - {x};
    assert ch[..0] + ch[1..] == ch[1..];
    forall d | 0 <= d < n ensures Bucket(cs[d], d, n, t) {
      BucketDropped(chains[d], d, n, s, 0, x);
    }
    forall d | 0 <= d < n ensures Linked(cs[d], hs[d]) {
      assert d != b ==> Linked(chains[d], heads[d]);
    }
  }

  lemma FirstIsIn<K, V>(ch: seq<Node<K, V>>, b: int, n: int, s: set<Node<K, V>>)
    requires Bucket(ch, b, n, s) && ch != []
    ensures ch[0] in s && BucketOf(ch[0].hash, n) == b
  {
  }

  lemma NoChains<K, V>(n: int, s: set<Node<K, V>>)
    requires s == {} && 0 <= n
    ensures Table(seq(n, _ => []), seq(n, _ => null), n, s)
  {
  }

  lemma EmptyBucket<K, V>(ch: seq<Node<K, V>>, b: int, n: int, s: set<Node<K, V>>, x: Node<K, V>)
    requires Bucket(ch, b, n, s) && Linked(ch, null)
    ensures BucketOf(x.hash, n) == b ==> x !in s
  {
    assert ch == [];
  }

  /** Nothing hangs from empty buckets. */
  lemma AllTaken<K, V>(chains: seq<seq<Node<K, V>>>, heads: seq<Node?<K, V>>, n: int, s: set<Node<K, V>>)
    requires Table(chains, heads, n, s) && forall d :: 0 <= d < n ==> heads[d] == null
    ensures s == {}
  {
    hide BucketOf, Linked, Bucket;
    forall x: Node<K, V> ensures x !in s {
      if 0 < n && BucketOf(x.hash, n) < n {
        var b := BucketOf(x.hash, n);
        assert Bucket(chains[b], b, n, s) && Linked(chains[b], heads[b]);
        EmptyBucket(chains[b], b, n, s, x);
      }
    }
  }

  // ---------- rehashing ----------

  /** Where rehash stands: rest still hangs from the old heads, done hangs from the new ones. */
  ghost predicate Halfway<K, V>(cs: seq<seq<Node<K, V>>>, hs: seq<Node?<K, V>>, n: int, rest: set<Node<K, V>>,
                                ds: seq<seq<Node<K, V>>>, gs: seq<Node?<K, V>>, m: int, done: set<Node<K, V>>,
                                s: set<Node<K, V>>)
    reads rest`next, done`next
  {
    Table(cs, hs, n, rest) && Table(ds, gs, m, done) && done + rest == s && done !! rest
  }

  /** One node moved: taken off its old chain and put in front of its new one. */
  method MoveNode<K, V>(node: Node<K, V>, ontop: Node?<K, V>, ghost i: int, ghost b: int,
                        ghost cs: seq<seq<Node<K, V>>>, ghost hs: seq<Node?<K, V>>, ghost n: int,
                        ghost rest: set<Node<K, V>>, ghost ds: seq<seq<Node<K, V>>>, ghost gs: seq<Node?<K, V>>,
                        ghost m: int, ghost done: set<Node<K, V>>, ghost s: set<Node<K, V>>)
    requires Halfway(cs, hs, n, rest, ds, gs, m, done, s) && 0 <= i < n && hs[i] == node && 0 < m
    requires b == BucketOf(node.hash, m) < m && ontop == gs[b]
    modifies node`next
    ensures node in rest && |cs| == |hs| == n && |ds| == |gs| == m && cs[i] != []
    ensures Halfway(cs[i := cs[i][1..]], hs[i := old(node.next)], n, rest - {node},
                    ds[b := [node] + ds[b]], gs[b := node], m, done + {node}, s)
  {
    hide Table, Bucket, Linked, BucketOf;
    Popped(cs, hs, n, rest, node, i);
    Lengths(cs, hs, n, rest);
    Lengths(ds, gs, m, done);
    node.next := ontop;
    Pushed(ds, gs, m, done, node, b);
  }

  lemma Lengths<K, V>(chains: seq<seq<Node<K, V>>>, heads: seq<Node?<K, V>>, n: int, s: set<Node<K, V>>)
    requires Table(chains, heads, n, s)
    ensures |chains| == |heads| == n
  {
  }

  lemma HalfwayFacts<K, V>(cs: seq<seq<Node<K, V>>>, hs: seq<Node?<K, V>>, n: int, rest: set<Node<K, V>>,
                           ds: seq<seq<Node<K, V>>>, gs: seq<Node?<K, V>>, m: int, done: set<Node<K, V>>,
                           s: set<Node<K, V>>)
    requires Halfway(cs, hs, n, rest, ds, gs, m, done, s)
    ensures |cs| == |hs| == n && |ds| == |gs| == m && rest <= s
    ensures (forall d :: 0 <= d < n ==> hs[d] == null) ==> Table(ds, gs, m, s)
    ensures forall d {:trigger hs[d]} :: 0 <= d < n && hs[d] != null ==> hs[d] in s
  {
    Lengths(cs, hs, n, rest);
    Lengths(ds, gs, m, done);
    if forall d :: 0 <= d < n ==> hs[d] == null {
      AllTaken(cs, hs, n, rest);
      assert done == s;
    }
    forall d | 0 <= d < n && hs[d] != null ensures hs[d] in s {
      Popped(cs, hs, n, rest, hs[d], d);
    }
  }

  /** The inner loop of rehash: bucket i is moved, node by node. */
  method MoveChain<K, V>(first: Node?<K, V>, newBuckets: array<Node?<K, V>>, newCount: nat, ghost i: int,
                         ghost cs0: seq<seq<Node<K, V>>>, ghost hs0: seq<Node?<K, V>>, ghost n: int,
                         ghost rest0: set<Node<K, V>>, ghost ds0: seq<seq<Node<K, V>>>, ghost gs0: seq<Node?<K, V>>,
                         ghost done0: set<Node<K, V>>, ghost s: set<Node<K, V>>)
    returns (ghost cs: seq<seq<Node<K, V>>>, ghost hs: seq<Node?<K, V>>, ghost rest: set<Node<K, V>>,
             ghost ds: seq<seq<Node<K, V>>>, ghost gs: seq<Node?<K, V>>, ghost done: set<Node<K, V>>)
    requires Halfway(cs0, hs0, n, rest0, ds0, gs0, newCount, done0, s)
    requires 0 <= i < n == |hs0| && hs0[i] == first && 0 < newCount == newBuckets.Length == |gs0|
             && PowerOfTwo(newCount)
    requires forall d :: 0 <= d < newCount ==> newBuckets[d] == gs0[d]
    modifies newBuckets, s`next
    ensures Halfway(cs, hs, n, rest, ds, gs, newCount, done, s)
    ensures |hs| == n && hs == hs0[i := null] && |gs| == newCount
    ensures forall d :: 0 <= d < newCount ==> newBuckets[d] == gs[d]
  {
    hide *;
    cs, hs, rest, ds, gs, done := cs0, hs0, rest0, ds0, gs0, done0;
    var node := first;
    assert hs == hs0[i := node];
    while node != null
      invariant |hs| == n && hs == hs0[i := node] && |gs| == newCount
      invariant Halfway(cs, hs, n, rest, ds, gs, newCount, done, s)
      invariant forall d :: 0 <= d < newCount ==> newBuckets[d] == gs[d]
      decreases |rest|
    {
      HalfwayFacts(cs, hs, n, rest, ds, gs, newCount, done, s);
      BucketIsRemainder(node.hash, newCount);
      assert hs[i] == node;
      var next := node.next;
      var bucket := BucketOf(node.hash, newCount);
      MoveNode(node, newBuckets[bucket], i, bucket, cs, hs, n, rest, ds, gs, newCount, done, s);
      newBuckets[bucket] := node;
      cs, hs, rest := cs[i := cs[i][1..]], hs[i := next], rest - {node};
      ds, gs, done := ds[bucket := [node] + ds[bucket]], gs[bucket := node], done + {node};
      node := next;
    }
  }

  /** The loop of rehash: every node moves to the bucket its hash names among newCount, and only its link changes. */
  method Relink<K, V>(buckets: array<Node?<K, V>>, count: nat, newBuckets: array<Node?<K, V>>, newCount: nat,
                      ghost chains: seq<seq<Node<K, V>>>, ghost heads: seq<Node?<K, V>>, ghost nodes: set<Node<K, V>>)
    returns (ghost moved: seq<seq<Node<K, V>>>, ghost gs: seq<Node?<K, V>>)
    requires buckets != newBuckets && count == buckets.Length && 0 < newCount == newBuckets.Length
             && PowerOfTwo(newCount)
    requires Table(chains, heads, count, nodes) && |heads| == count
    requires forall d :: 0 <= d < count ==> buckets[d] == heads[d]
    requires forall d :: 0 <= d < newCount ==> newBuckets[d] == null
    modifies newBuckets, nodes`next
    ensures Table(moved, gs, newCount, nodes) && |gs| == newCount
    ensures forall d :: 0 <= d < newCount ==> newBuckets[d] == gs[d]
  {
    ghost var cs, hs, rest := chains, heads, nodes;
    ghost var ds: seq<seq<Node<K, V>>>;
    ds, gs := seq(newCount, _ => []), seq(newCount, _ => null);
    ghost var done: set<Node<K, V>> := {};
    NoChains(newCount, done);
    assert Halfway(cs, hs, count, rest, ds, gs, newCount, done, nodes);
    hide *;
    var i := 0;
    while i < count
      invariant 0 <= i <= count && |hs| == count && |gs| == newCount
      invariant Halfway(cs, hs, count, rest, ds, gs, newCount, done, nodes)
      invariant forall d :: 0 <= d < i ==> hs[d] == null
      invariant forall d :: i <= d < count ==> hs[d] == buckets[d]
      invariant forall d :: 0 <= d < newCount ==> newBuckets[d] == gs[d]
    {
      cs, hs, rest, ds, gs, done := MoveChain(buckets[i], newBuckets, newCount, i, cs, hs, count, rest, ds, gs, done,
        nodes);
      i := i + 1;
    }
    HalfwayFacts(cs, hs, count, rest, ds, gs, newCount, done, nodes);
    moved := ds;
  }

  // ---------- one chain ----------

  /** Walks a chain for a node of this hash whose key answers to key. Nodes of
      other hashes are passed over without asking eq. */
  method FindLink<K, V>(first: Node?<K, V>, hash: nat, key: K, eq: (K, K) -> bool, ghost ch: seq<Node<K, V>>)
    returns (prev: Node?<K, V>, found: Node?<K, V>, ghost i: int)
    requires Linked(ch, first)
    ensures 0 <= i <= |ch| && prev == Nth(ch, i - 1) && found == Nth(ch, i) && (found == null <==> i == |ch|)
    ensures found != null ==> found.hash == hash && eq(found.key, key)
    ensures forall j :: 0 <= j < i ==> !(ch[j].hash == hash && eq(ch[j].key, key))
  {
    prev, found, i := null, first, 0;
    while found != null && !(found.hash == hash && eq(found.key, key))
      invariant 0 <= i <= |ch| && prev == Nth(ch, i - 1) && found == Nth(ch, i) && (found == null <==> i == |ch|)
      invariant forall j :: 0 <= j < i ==> !(ch[j].hash == hash && eq(ch[j].key, key))
      decreases |ch| - i
    {
      assert ch[i].next == Nth(ch, i + 1);
      prev, found := found, found.next;
      i := i + 1;
    }
  }

  /** Walks a chain for one node of it. */
  method FindNodeLink<K, V>(first: Node?<K, V>, node: Node<K, V>, ghost ch: seq<Node<K, V>>)
    returns (prev: Node?<K, V>, ghost i: int)
    requires Linked(ch, first) && node in ch
    ensures 0 <= i < |ch| && prev == Nth(ch, i - 1) && ch[i] == node
  {
    var cur := first;
    prev, i := null, 0;
    while cur != node
      invariant 0 <= i < |ch| && prev == Nth(ch, i - 1) && cur == Nth(ch, i) && node in ch[i..]
      decreases |ch| - i
    {
      assert ch[i].next == Nth(ch, i + 1);
      assert ch[i..] == [ch[i]] + ch[i + 1..];
      prev, cur := cur, cur.next;
      i := i + 1;
    }
  }

  lemma LinkedCut<K, V>(ch: seq<Node<K, V>>, first: Node?<K, V>, i: int)
    requires 0 < i < |ch| && first == Nth(ch, 0) && ch[i - 1].next == Nth(ch, i + 1)
    requires forall j {:trigger ch[j].next} :: 0 <= j < |ch| && j != i - 1 ==> ch[j].next == Nth(ch, j + 1)
    ensures Linked(ch[..i] + ch[i + 1..], first)
  {
    var c := ch[..i] + ch[i + 1..];
    forall j | 0 <= j < |c| ensures c[j].next == Nth(c, j + 1) {
      assert c[j] == ch[if j < i then j else j + 1];
    }
  }

  /** Takes the node at position i of chain b out from behind prev. */
  method CutAfter<K, V>(prev: Node<K, V>, dead: Node<K, V>, ghost chains: seq<seq<Node<K, V>>>,
                        ghost heads: seq<Node?<K, V>>, ghost n: int, ghost s: set<Node<K, V>>, ghost b: int,
                        ghost i: int)
    requires Table(chains, heads, n, s) && 0 <= b < n && 0 < i < |chains[b]| && chains[b][i - 1] == prev
             && chains[b][i] == dead
    modifies prev`next
    ensures |chains| == n && dead in s && Table(chains[b := chains[b][..i] + chains[b][i + 1..]], heads, n, s - {dead})
  {
    ghost var ch, cs := chains[b], chains[b := chains[b][..i] + chains[b][i + 1..]];
    assert Bucket(ch, b, n, s) && Linked(ch, heads[b]);
    InBucket(ch, b, n, s, i);
    InBucket(ch, b, n, s, i - 1);
    forall d | 0 <= d < n && d != b ensures prev !in chains[d] && Linked(chains[d], heads[d]) {
      assert Bucket(chains[d], d, n, s);
      NotIn(chains[d], d, n, s, prev);
    }
    CutFacts(ch, heads[b], i);
    hide Bucket, BucketOf, Distinct;
    prev.next := dead.next;
    LinkedCut(ch, heads[b], i);
    hide Linked;
    forall d | 0 <= d < n ensures Bucket(cs[d], d, n, s - {dead}) {
      BucketDropped(chains[d], d, n, s, i, dead);
    }
    forall d | 0 <= d < n ensures Linked(cs[d], heads[d]) {
      assert d != b ==> prev !in chains[d];
    }
  }

  lemma InBucket<K, V>(ch: seq<Node<K, V>>, b: int, n: int, s: set<Node<K, V>>, i: int)
    requires Bucket(ch, b, n, s) && 0 <= i < |ch|
    ensures ch[i] in s && BucketOf(ch[i].hash, n) == b
  {
  }

  lemma NotIn<K, V>(ch: seq<Node<K, V>>, b: int, n: int, s: set<Node<K, V>>, x: Node<K, V>)
    requires Bucket(ch, b, n, s)
    ensures BucketOf(x.hash, n) != b ==> x !in ch
  {
  }

  lemma CutFacts<K, V>(ch: seq<Node<K, V>>, first: Node?<K, V>, i: int)
    requires Linked(ch, first) && 0 < i < |ch|
    ensures first == Nth(ch, 0) && ch[i].next == Nth(ch, i + 1)
  {
  }

  // ---------- walking the whole table ----------

  /** All nodes from bucket b on, in the order a walk meets them. */
  ghost function Rest<K, V>(chains: seq<seq<Node<K, V>>>, b: int): seq<Node<K, V>>
    decreases |chains| - b
  {
    if 0 <= b < |chains| then chains[b] + Rest(chains, b + 1) else []
  }

  ghost function Skipped<K, V>(chains: seq<seq<Node<K, V>>>, b: int): (r: nat)
    requires 0 <= b <= |chains|
  {
    if b == 0 then 0 else Skipped(chains, b - 1) + |chains[b - 1]|
  }

  lemma {:induction false} RestAt<K, V>(chains: seq<seq<Node<K, V>>>, b: int)
    requires 0 <= b <= |chains|
    ensures Skipped(chains, b) <= |Rest(chains, 0)| && Rest(chains, 0)[Skipped(chains, b)..] == Rest(chains, b)
    decreases b
  {
    if b > 0 {
      RestAt(chains, b - 1);
      var all, k := Rest(chains, 0), Skipped(chains, b - 1);
      assert all[k..][|chains[b - 1]|..] == all[k + |chains[b - 1]|..];
    }
  }

  lemma {:induction false} RestMembers<K, V>(chains: seq<seq<Node<K, V>>>, n: int, s: set<Node<K, V>>, b: int)
    requires |chains| == n && 0 <= b && forall d {:trigger chains[d]} :: 0 <= d < n ==> Bucket(chains[d], d, n, s)
    ensures Distinct(Rest(chains, b))
    ensures forall x :: x in Rest(chains, b) <==> x in s && 0 < n && b <= BucketOf(x.hash, n) < n
    decreases n - b
  {
    hide BucketOf;
    if b < n {
      var ch, rest := chains[b], Rest(chains, b + 1);
      RestMembers(chains, n, s, b + 1);
      assert Bucket(ch, b, n, s);
      forall i, j | 0 <= i < |ch| && 0 <= j < |rest| ensures ch[i] != rest[j] {
        assert rest[j] in rest;
      }
      assert Rest(chains, b) == ch + rest;
    }
  }

  /** A walk meets every node of the table exactly once. */
  lemma WalkIsOnce<K, V>(chains: seq<seq<Node<K, V>>>, heads: seq<Node?<K, V>>, n: int, s: set<Node<K, V>>)
    requires Table(chains, heads, n, s)
    ensures Distinct(Rest(chains, 0)) && forall x :: x in Rest(chains, 0) <==> x in s
    ensures |Rest(chains, 0)| == |s|
  {
    hide BucketOf, Bucket, Linked;
    RestMembers(chains, n, s, 0);
    var all := Rest(chains, 0);
    forall x | x in s ensures x in all {
      assert 0 < n && BucketOf(x.hash, n) < n;
    }
    DistinctSize(all, s);
  }

  lemma {:induction false} DistinctSize<A>(s: seq<A>, t: set<A>)
    requires Distinct(s) && forall x :: x in t <==> x in s
    ensures |t| == |s|
  {
    if s != [] {
      assert s[0] in t;
      assert forall x :: x in s[1..] ==> x in s && x != s[0];
      assert forall x :: x in s && x != s[0] ==> x in s[1..];
      DistinctSize(s[1..], t - {s[0]});
    } else {
      assert t == {};
    }
  }

  /** What follows a node in the walk: the rest of its chain, or the first node of a later bucket. */
  lemma WalkStep<K, V>(chains: seq<seq<Node<K, V>>>, b: int, i: int, k: int)
    requires 0 <= b < |chains| && 0 <= i < |chains[b]| && Distinct(Rest(chains, 0))
    requires 0 <= k < |Rest(chains, 0)| && Rest(chains, 0)[k] == chains[b][i]
    ensures Nth(Rest(chains, 0), k + 1) == if i + 1 < |chains[b]| then chains[b][i + 1] else Nth(Rest(chains, b + 1), 0)
  {
    var all, at, ch := Rest(chains, 0), Skipped(chains, b), chains[b];
    RestAt(chains, b);
    RestAt(chains, b + 1);
    assert all[at..] == ch + Rest(chains, b + 1);
    assert all[at..][i] == ch[i] && all[at + i] == ch[i];
    assert k == at + i;
    if i + 1 < |ch| {
      assert all[at..][i + 1] == ch[i + 1];
    } else {
      assert all[at + i + 1..] == Rest(chains, b + 1);
      if Rest(chains, b + 1) != [] {
        assert all[at + i + 1..][0] == all[k + 1];
      }
    }
  }
}
