/** The chained hash map (src/ds/hmap.c): a bucket array of nodes that stands for a finite map from classes of equal
    keys to values. */
module HMaps {
  import opened Allocators
  import opened Bits
  import opened Sequences
  import opened Tables

  datatype Option<V> = None | Some(value: V)

  const BASE: nat := 8

  /** What a hasher and a key equality owe the map. */
  ghost predicate Lawful<K(!new)>(hasher: K -> nat, eq: (K, K) -> bool) {
    && (forall x :: eq(x, x))
    && (forall x, y :: eq(x, y) ==> eq(y, x) && hasher(x) == hasher(y))
    && (forall x, y, z :: eq(x, y) && eq(y, z) ==> eq(x, z))
  }

  /** Any hasher goes with plain equality; and keys may be equal that are not the same, if they hash alike. */
  lemma LawfulPairs<K(!new)>(h: K -> nat, f: K -> int, g: int -> nat)
    ensures Lawful(h, (x, y) => x == y)
    ensures Lawful(x => g(f(x)), (x, y) => f(x) == f(y))
  {
  }

  /** No two nodes have equal keys. */
  ghost predicate Unique<K, V>(s: set<Node<K, V>>, eq: (K, K) -> bool) {
    forall x, y :: x in s && y in s && eq(x.key, y.key) ==> x == y
  }

  /** Each node keeps the hash of its key. */
  ghost predicate Hashed<K, V>(s: set<Node<K, V>>, hasher: K -> nat) {
    forall x :: x in s ==> x.hash == hasher(x.key)
  }

  ghost predicate Has<K, V>(s: set<Node<K, V>>, eq: (K, K) -> bool, key: K) {
    exists x :: x in s && eq(x.key, key)
  }

  /** The map the nodes stand for: the value of the one node whose key equals key. */
  ghost function Get<K, V>(s: set<Node<K, V>>, eq: (K, K) -> bool, key: K): Option<V>
    reads s`val
  {
    if Has(s, eq, key) then
      var x :| x in s && eq(x.key, key);
      Some(x.val)
    else None
  }

  lemma GetIs<K(!new), V>(s: set<Node<K, V>>, hasher: K -> nat, eq: (K, K) -> bool, x: Node<K, V>, key: K)
    requires Lawful(hasher, eq) && Unique(s, eq) && x in s && eq(x.key, key)
    ensures Has(s, eq, key) && Get(s, eq, key) == Some(x.val)
  {
  }

  lemma GetNone<K, V>(s: set<Node<K, V>>, eq: (K, K) -> bool, key: K)
    requires forall x :: x in s ==> !eq(x.key, key)
    ensures !Has(s, eq, key) && Get(s, eq, key) == None
  {
  }

  /** A node for a key that had none adds that one entry. */
  lemma GetAdded<K(!new), V>(s: set<Node<K, V>>, hasher: K -> nat, eq: (K, K) -> bool, x: Node<K, V>)
    requires Lawful(hasher, eq) && Unique(s, eq) && !Has(s, eq, x.key)
    ensures Unique(s + {x}, eq) && x !in s
    ensures forall k :: Get(s + {x}, eq, k) == if eq(x.key, k) then Some(x.val) else Get(s, eq, k)
  {
    assert eq(x.key, x.key);
    forall y | y in s ensures !eq(y.key, x.key) && !eq(x.key, y.key) {
      assert !(y in s && eq(y.key, x.key));
    }
    assert Unique(s + {x}, eq);
    forall k ensures Get(s + {x}, eq, k) == if eq(x.key, k) then Some(x.val) else Get(s, eq, k) {
      if eq(x.key, k) {
        GetIs(s + {x}, hasher, eq, x, k);
      } else if Has(s, eq, k) {
        var y :| y in s && eq(y.key, k);
        GetIs(s, hasher, eq, y, k);
        GetIs(s + {x}, hasher, eq, y, k);
      } else {
        GetNone(s + {x}, eq, k);
      }
    }
  }

  /** Without a node its entry is gone, and only that. */
  lemma GetRemoved<K(!new), V>(s: set<Node<K, V>>, hasher: K -> nat, eq: (K, K) -> bool, x: Node<K, V>)
    requires Lawful(hasher, eq) && Unique(s, eq) && x in s
    ensures Unique(s - {x}, eq)
    ensures forall k :: Get(s - {x}, eq, k) == if eq(x.key, k) then None else Get(s, eq, k)
  {
    assert Unique(s - {x}, eq);
    forall k ensures Get(s - {x}, eq, k) == if eq(x.key, k) then None else Get(s, eq, k) {
      if eq(x.key, k) {
        forall y | y in s && eq(y.key, k) ensures y == x {
          assert eq(k, x.key) && eq(y.key, x.key);
        }
        GetNone(s - {x}, eq, k);
      } else if Has(s, eq, k) {
        var y :| y in s && eq(y.key, k);
        GetIs(s, hasher, eq, y, k);
        GetIs(s - {x}, hasher, eq, y, k);
      } else {
        GetNone(s - {x}, eq, k);
      }
    }
  }

  /** Writes the value of one entry. */
  method Put<K(!new), V>(node: Node<K, V>, val: V, ghost s: set<Node<K, V>>, ghost hasher: K -> nat,
                         ghost eq: (K, K) -> bool)
    requires Lawful(hasher, eq) && Unique(s, eq) && node in s
    modifies node`val
    ensures forall k :: Get(s, eq, k) == if eq(node.key, k) then Some(val) else old(Get(s, eq, k))
  {
    ghost var was := map x | x in s :: x.val;
    forall k ensures Get(s, eq, k) == if Has(s, eq, k) then Some(was[Owner(s, eq, k)]) else None {
      if Has(s, eq, k) {
        GetIs(s, hasher, eq, Owner(s, eq, k), k);
      }
    }
    node.val := val;
    forall k ensures Get(s, eq, k) == if eq(node.key, k) then Some(val) else old(Get(s, eq, k)) {
      if eq(node.key, k) {
        GetIs(s, hasher, eq, node, k);
      } else if Has(s, eq, k) {
        var y := Owner(s, eq, k);
        GetIs(s, hasher, eq, y, k);
        assert y != node;
        assert old(Get(s, eq, k)) == Some(was[y]);
      }
    }
  }

  ghost function Owner<K, V>(s: set<Node<K, V>>, eq: (K, K) -> bool, key: K): (x: Node<K, V>)
    requires Has(s, eq, key)
    ensures x in s && eq(x.key, key)
  {
    var x :| x in s && eq(x.key, key);
    x
  }

  lemma NextPower(k: nat, p: int)
    requires PowerOfTwo(p) && Pow2(k) < p
    ensures 2 * Pow2(k) <= p
  {
    var j: nat :| j < WORD && p == Pow2(j);
    if j <= k {
      Pow2Grows(j, k);
    } else {
      Pow2Grows(k + 1, j);
    }
  }

  lemma BaseIs()
    ensures BASE == Pow2(3) && 3 < WORD
  {
    assert Pow2(1) == 2 && Pow2(2) == 4;
  }

  lemma IsPower(k: nat)
    requires k < WORD
    ensures PowerOfTwo(Pow2(k)) && Pow2(k) <= Pow2(WORD - 1) && Pow2(k + 1) == 2 * Pow2(k)
  {
    Pow2Grows(k, WORD - 1);
  }

  lemma Doubled(want: int, k: nat)
    requires Pow2(k) < want
    requires forall p :: PowerOfTwo(p) && BASE <= p && want <= p ==> Pow2(k) <= p
    ensures forall p :: PowerOfTwo(p) && BASE <= p && want <= p ==> 2 * Pow2(k) <= p
  {
    forall p | PowerOfTwo(p) && BASE <= p && want <= p ensures 2 * Pow2(k) <= p {
      NextPower(k, p);
    }
  }

  /** The fewest buckets, 8 or more and a power of two, that want entries fit into. */
  ghost predicate LeastCount(n: int, want: int) {
    PowerOfTwo(n) && 8 <= n && want <= n && forall p :: PowerOfTwo(p) && 8 <= p && want <= p ==> n <= p
  }

  /** The least bucket count that want entries fit into; 0 says that size_t holds none. */
  method RoundUpPow2(want: nat) returns (n: nat)
    ensures n == 0 <==> Pow2(WORD - 1) < want
    ensures n != 0 ==> PowerOfTwo(n) && BASE <= n && want <= n
    ensures n != 0 ==> LeastCount(n, want)
  {
    BaseIs();
    hide *;
    IsPower(3);
    IsPower(WORD - 1);
    n := BASE;
    ghost var k: nat := 3;
    while n < want
      invariant k < WORD && n == Pow2(k) && BASE <= n <= Pow2(WORD - 1) && PowerOfTwo(n)
      invariant forall p :: PowerOfTwo(p) && BASE <= p && want <= p ==> n <= p
      decreases want - n
    {
      if n * 2 > SizeMax() {
        AtLimit(k);
        return 0;
      }
      IsPower(k);
      NotAtLimit(k);
      Doubled(want, k);
      n := n * 2;
      k := k + 1;
      IsPower(k);
    }
    LeastIs(n, want);
  }

  lemma LeastIs(n: int, want: int)
    ensures LeastCount(n, want) <==>
            PowerOfTwo(n) && BASE <= n && want <= n && forall p :: PowerOfTwo(p) && BASE <= p && want <= p ==> n <= p
  {
  }

  lemma AtLimit(k: nat)
    requires k < WORD && 2 * Pow2(k) > SizeMax()
    ensures Pow2(k) == Pow2(WORD - 1)
  {
    if k < WORD - 1 {
      Pow2Grows(k + 1, WORD - 1);
    }
  }

  lemma NotAtLimit(k: nat)
    requires k < WORD && 2 * Pow2(k) <= SizeMax()
    ensures k + 1 < WORD
  {
  }

  lemma LastPower(n: int)
    requires PowerOfTwo(n)
    ensures 0 < n <= Pow2(WORD - 1) && (2 * n <= SizeMax() ==> PowerOfTwo(2 * n))
  {
    var k: nat :| k < WORD && n == Pow2(k);
    IsPower(k);
    if 2 * n <= SizeMax() {
      NotAtLimit(k);
      assert 2 * n == Pow2(k + 1);
    }
  }

  /** A key that no node of its bucket answers to has no node at all. */
  lemma NotElsewhere<K(!new), V>(chains: seq<seq<Node<K, V>>>, heads: seq<Node?<K, V>>, n: int, s: set<Node<K, V>>,
                                 hasher: K -> nat, eq: (K, K) -> bool, key: K)
    requires Table(chains, heads, n, s) && Lawful(hasher, eq) && Hashed(s, hasher) && 0 < n
    requires BucketOf(hasher(key), n) < n
    requires var ch := chains[BucketOf(hasher(key), n)];
             forall j :: 0 <= j < |ch| ==> !(ch[j].hash == hasher(key) && eq(ch[j].key, key))
    ensures forall x :: x in s ==> !eq(x.key, key)
  {
    hide BucketOf;
    var b := BucketOf(hasher(key), n);
    assert Bucket(chains[b], b, n, s);
    forall x | x in s ensures !eq(x.key, key) {
      if x.hash == hasher(key) {
        assert x in chains[b];
      } else {
        assert x.hash == hasher(x.key);
      }
    }
  }

  lemma ChainOf<K, V>(chains: seq<seq<Node<K, V>>>, heads: seq<Node?<K, V>>, n: int, s: set<Node<K, V>>, b: int)
    requires Table(chains, heads, n, s) && 0 <= b < n
    ensures |chains| == |heads| == n && Linked(chains[b], heads[b]) && Bucket(chains[b], b, n, s)
    ensures forall i :: 0 <= i < |chains[b]| ==> chains[b][i] in s
    ensures forall i :: 0 <= i < |chains[b]| ==> Nth(chains[b], i) == chains[b][i]
  {
    hide BucketOf, Linked;
    assert Bucket(chains[b], b, n, s);
  }

  lemma Kept<K, V>(s: set<Node<K, V>>, t: set<Node<K, V>>, hasher: K -> nat, eq: (K, K) -> bool)
    requires Unique(t, eq) && Hashed(t, hasher) && s <= t
    ensures Unique(s, eq) && Hashed(s, hasher)
  {
  }

  lemma NthBefore<K, V>(ch: seq<Node<K, V>>, first: Node?<K, V>, i: int)
    requires Linked(ch, first) && 0 <= i < |ch|
    ensures Nth(ch, i - 1) == null <==> i == 0
    ensures i == 0 ==> first == ch[i]
    ensures 0 < i ==> Nth(ch, i - 1) == ch[i - 1]
  {
  }

  lemma HasBuckets<K, V>(s: set<Node<K, V>>, x: Node<K, V>)
    requires x in s
    ensures 0 < |s|
  {
  }

  /** Keys that are equal answer alike. */
  lemma SameAnswer<K(!new)>(hasher: K -> nat, eq: (K, K) -> bool, x: K, y: K)
    requires Lawful(hasher, eq) && eq(x, y)
    ensures forall k :: eq(x, k) == eq(y, k)
  {
    forall k ensures eq(x, k) == eq(y, k) {
      assert eq(y, x);
    }
  }

  lemma AbsentFor<K(!new), V>(s: set<Node<K, V>>, hasher: K -> nat, eq: (K, K) -> bool, key: K)
    requires Lawful(hasher, eq) && forall x :: x in s ==> !eq(x.key, key)
    ensures forall k :: eq(key, k) ==> Get(s, eq, k) == None
    ensures Get(s, eq, key) == None
  {
    assert eq(key, key);
    forall k | eq(key, k) ensures Get(s, eq, k) == None {
      forall x | x in s ensures !eq(x.key, k) {
        assert eq(k, key);
      }
      GetNone(s, eq, k);
    }
  }

  lemma RestUnfolds<K, V>(chains: seq<seq<Node<K, V>>>, b: int)
    requires 0 <= b
    ensures Rest(chains, b) == if b < |chains| then chains[b] + Rest(chains, b + 1) else []
    ensures |chains| <= b ==> Nth(Rest(chains, b), 0) == null
  {
  }

  lemma FirstOfRest<K, V>(ch: seq<Node<K, V>>, first: Node?<K, V>, rest: seq<Node<K, V>>)
    requires Linked(ch, first)
    ensures first != null ==> Nth(ch + rest, 0) == first
    ensures first == null ==> ch + rest == rest
  {
  }

  lemma NextInChain<K, V>(ch: seq<Node<K, V>>, first: Node?<K, V>, i: int)
    requires Linked(ch, first) && 0 <= i < |ch|
    ensures ch[i].next == if i + 1 < |ch| then ch[i + 1] else null
  {
  }

  lemma NthIs<K, V>(ns: seq<Node<K, V>>, k: int)
    ensures Nth(ns, k) == if 0 <= k < |ns| then ns[k] else null
  {
  }

  lemma StartOf<K, V>(ch: seq<Node<K, V>>, first: Node?<K, V>)
    requires Linked(ch, first)
    ensures first == Nth(ch, 0) && (first == null <==> |ch| == 0)
  {
  }

  lemma EveryNode<K, V>(chains: seq<seq<Node<K, V>>>, heads: seq<Node?<K, V>>, n: int, s: set<Node<K, V>>)
    requires Table(chains, heads, n, s)
    ensures |chains| == n
    ensures forall x :: x in s ==> exists d, i :: 0 <= d < n && 0 <= i < |chains[d]| && chains[d][i] == x
  {
    hide BucketOf, Linked;
    forall x | x in s ensures exists d, i :: 0 <= d < n && 0 <= i < |chains[d]| && chains[d][i] == x {
      var d := BucketOf(x.hash, n);
      assert Bucket(chains[d], d, n, s);
      var i :| 0 <= i < |chains[d]| && chains[d][i] == x;
    }
  }

  lemma NothingIn<K, V>(s: set<Node<K, V>>, t: set<Node<K, V>>, eq: (K, K) -> bool)
    requires s == {} && t == {}
    ensures forall k :: Get(s, eq, k) == Get(t, eq, k)
  {
  }

  lemma SeenMore<K, V>(walk: seq<Node<K, V>>, seen: set<Node<K, V>>, k: int)
    requires Distinct(walk) && 0 <= k < |walk| && forall x :: x in seen <==> x in walk[..k]
    ensures walk[k] !in seen && forall x :: x in seen + {walk[k]} <==> x in walk[..k + 1]
  {
    assert walk[..k + 1] == walk[..k] + [walk[k]];
  }

  lemma AllSeen<K, V>(walk: seq<Node<K, V>>, seen: set<Node<K, V>>, s: set<Node<K, V>>)
    requires (forall x :: x in seen <==> x in walk[..|walk|]) && forall x :: x in walk <==> x in s
    ensures seen == s
  {
    assert walk[..|walk|] == walk;
  }

  lemma NotSeen<K(!new), V>(seen: set<Node<K, V>>, s: set<Node<K, V>>, hasher: K -> nat, eq: (K, K) -> bool,
                            x: Node<K, V>)
    requires Lawful(hasher, eq) && Unique(s, eq) && seen <= s && x in s && x !in seen
    ensures Unique(seen, eq) && !Has(seen, eq, x.key) && Get(seen, eq, x.key) == None
  {
  }

  lemma OneRequest(len: nat, count: nat)
    requires len < count
    ensures Requests(len, count) == 1 && forall grants: nat :: CountFor(len, count, grants) == count
  {
  }

  class HMap<K(!new), V(!new)> {
    var buckets: array<Node?<K, V>>
    var bucketCount: nat
    var len: nat
    var hasher: K -> nat
    var eq: (K, K) -> bool
    const al: Allocator
    ghost var chains: seq<seq<Node<K, V>>>
    ghost var heads: seq<Node?<K, V>>
    ghost var nodes: set<Node<K, V>>

    ghost predicate Valid()
      reads this, buckets, nodes`next
    {
      && Table(chains, heads, bucketCount, nodes) && |heads| == bucketCount == buckets.Length
      && (forall d :: 0 <= d < bucketCount ==> buckets[d] == heads[d])
      && (bucketCount == 0 || (BASE <= bucketCount && PowerOfTwo(bucketCount)))
      && len == |nodes| <= bucketCount
      && Lawful(hasher, eq) && Unique(nodes, eq) && Hashed(nodes, hasher)
    }

    /** What the map holds of its allocator besides itself: the nodes, and the bucket array when there is one. */
    ghost function Blocks(): (r: set<object>)
      reads this
    {
      Objects(nodes) + if bucketCount == 0 then {} else {buckets}
    }

    ghost predicate Owned()
      reads this, al
    {
      Blocks() <= al.lent
    }

    /** What its allocator has lent to others. No method touches it, so none loses or steals a block. */
    ghost function Others(): (r: set<object>)
      reads this, al
    {
      al.lent - Blocks()
    }

    lemma BlocksAre()
      ensures Blocks() == Objects(nodes) + if bucketCount == 0 then {} else {buckets}
      ensures nodes == {} ==> Objects(nodes) == {}
      ensures (buckets as object) !in Objects(nodes) && (this as object) !in Blocks()
      ensures Owned() <==> Blocks() <= al.lent
      ensures Others() == al.lent - Blocks()
    {
    }

    constructor (h: K -> nat, e: (K, K) -> bool, allocator: Allocator)
      requires Lawful(h, e)
      ensures Valid() && fresh(buckets) && nodes == {} && bucketCount == 0 && hasher == h && eq == e && al == allocator
    {
      NoChains<K, V>(0, {});
      buckets := new Node?<K, V>[0];
      bucketCount, len, hasher, eq, al := 0, 0, h, e, allocator;
      chains, heads, nodes := [], [], {};
    }

    /** What the map answers for a key. */
    ghost function Lookup(key: K): Option<V>
      reads this, nodes`val
    {
      Get(nodes, eq, key)
    }

    method FindNode(key: K) returns (found: Node?<K, V>)
      requires Valid()
      ensures found != null ==> found in nodes && eq(found.key, key) && Lookup(key) == Some(found.val)
      ensures found == null ==> Lookup(key) == None && !Has(nodes, eq, key)
    {
      hide Table, Lawful, Unique, Hashed, BucketOf, Bucket, PowerOfTwo, Linked, Nth, Get, Has;
      if bucketCount == 0 {
        assert nodes == {};
        GetNone(nodes, eq, key);
        return null;
      }
      var hash := hasher(key);
      BucketIsRemainder(hash, bucketCount);
      var b := BucketOf(hash, bucketCount);
      ChainOf(chains, heads, bucketCount, nodes, b);
      var prev;
      ghost var i;
      prev, found, i := FindLink(buckets[b], hash, key, eq, chains[b]);
      if found == null {
        NotElsewhere(chains, heads, bucketCount, nodes, hasher, eq, key);
        GetNone(nodes, eq, key);
      } else {
        GetIs(nodes, hasher, eq, found, key);
      }
    }

    /** A bucket array of another size, with the very same nodes hanging from it; the old array is handed back. */
    method Rehash(newCount: nat, granted: bool) returns (ok: bool)
      requires Valid() && Owned() && PowerOfTwo(newCount) && BASE <= newCount && len <= newCount
      modifies this, nodes`next, al
      ensures Valid() && ok == granted
      ensures Owned() && Others() == old(Others())
      ensures nodes == old(nodes) && hasher == old(hasher) && eq == old(eq) && len == old(len)
      ensures forall k :: Lookup(k) == old(Lookup(k))
      ensures if ok then bucketCount == newCount && fresh(buckets)
              else bucketCount == old(bucketCount) && buckets == old(buckets)
    {
      hide *;
      BlocksAre();
      LookupIs();
      if !granted {
        return false;
      }
      Opened();
      BaseIs();
      var newBuckets := new Node?<K, V>[newCount](_ => null);
      ghost var moved, gs := Relink(buckets, bucketCount, newBuckets, newCount, chains, heads, nodes);
      Replace(newBuckets, newCount, moved, gs);
      LookupIs();
      return true;
    }

    /** The bucket array goes back, and another one with the same nodes takes its place. */
    method Replace(b: array<Node?<K, V>>, count: nat, ghost cs: seq<seq<Node<K, V>>>, ghost hs: seq<Node?<K, V>>)
      requires Table(cs, hs, count, nodes) && |hs| == count == b.Length && forall d :: 0 <= d < count ==> b[d] == hs[d]
      requires BASE <= count && 0 < count && PowerOfTwo(count) && len == |nodes| <= count
      requires Lawful(hasher, eq) && Unique(nodes, eq) && Hashed(nodes, hasher)
      requires Blocks() <= al.lent && b !in al.lent
      modifies this, al
      ensures Valid() && nodes == old(nodes) && hasher == old(hasher) && eq == old(eq) && len == old(len)
      ensures buckets == b && bucketCount == count
      ensures Owned() && Others() == old(Others())
    {
      hide *;
      BlocksAre();
      ghost var lent, held: set<object> := al.lent, if bucketCount == 0 then {} else {buckets};
      al.Lend(b);
      if bucketCount > 0 {
        al.TakeBack(buckets);
      }
      Become(b, count, len, hasher, eq, cs, hs, nodes);
      Rebucketed(lent, Objects(nodes), held, b);
      BlocksAre();
    }

    /** Makes len less than the number of buckets, by doubling it when they are equal. */
    method ReserveOne(granted: bool) returns (ok: bool)
      requires Valid() && Owned()
      modifies this, nodes`next, al
      ensures Valid() && nodes == old(nodes) && hasher == old(hasher) && eq == old(eq) && len == old(len)
      ensures Owned() && Others() == old(Others())
      ensures ok == (old(len) < old(bucketCount) || (granted && CanDouble(old(bucketCount))))
      ensures ok ==> len < bucketCount
      ensures buckets == old(buckets) || fresh(buckets)
      ensures if old(len) < old(bucketCount) || !ok then buckets == old(buckets) && bucketCount == old(bucketCount)
              else bucketCount == if old(bucketCount) == 0 then 8 else 2 * old(bucketCount)
    {
      hide Table, Lawful, Unique, Hashed, BucketOf, Bucket, PowerOfTwo;
      BaseIs();
      IsPower(3);
      if len < bucketCount {
        return true;
      }
      if bucketCount == 0 {
        ok := Rehash(BASE, granted);
        return;
      }
      if bucketCount * 2 > SizeMax() {
        return false;
      }
      LastPower(bucketCount);
      ok := Rehash(bucketCount * 2, granted);
    }

    /** A new node for a key that has none, at the front of its bucket. A refusal, of the buckets or of the node, leaves
        every entry as it was. */
    method AddNode(key: K, val: V, grants: nat) returns (ok: bool, node: Node?<K, V>)
      requires Valid() && Owned() && !Has(nodes, eq, key)
      modifies this, buckets, nodes`next, al
      ensures Valid() && hasher == old(hasher) && eq == old(eq)
      ensures Owned() && Others() == old(Others())
      ensures ok == (Requests(old(len), old(bucketCount)) <= grants
              && (old(len) < old(bucketCount) || CanDouble(old(bucketCount))))
      ensures buckets == old(buckets) || fresh(buckets)
      ensures bucketCount == CountFor(old(len), old(bucketCount), grants)
      ensures !ok ==> nodes == old(nodes) && node == null
      ensures ok ==> node != null && fresh(node) && node.key == key && node.val == val && nodes == old(nodes) + {node}
      ensures forall k :: Lookup(k) == if ok && eq(key, k) then Some(val) else old(Lookup(k))
    {
      hide Table, Lawful, Unique, Hashed, BucketOf, Bucket, PowerOfTwo, Linked, Get, Has;
      var needed := len >= bucketCount;
      node := null;
      ok := ReserveOne(0 < grants);
      if !ok {
        return;
      }
      if grants < (if needed then 2 else 1) {
        ok := false;
        return;
      }
      var hash := hasher(key);
      var made := new Node(hash, key, val);
      al.Lend(made);
      LinkNew(made);
      node := made;
    }

    method LinkNew(made: Node<K, V>)
      requires Valid() && !Has(nodes, eq, made.key) && made !in nodes && made.hash == hasher(made.key)
               && len < bucketCount
      modifies this, buckets, made`next
      ensures Valid() && hasher == old(hasher) && eq == old(eq) && nodes == old(nodes) + {made}
      ensures buckets == old(buckets) && bucketCount == old(bucketCount)
      ensures forall k :: Lookup(k) == if eq(made.key, k) then Some(made.val) else old(Lookup(k))
    {
      hide *;
      Opened();
      GetAdded(nodes, hasher, eq, made);
      AddHashed(nodes, hasher, made);
      LookupIs();
      BucketIsRemainder(made.hash, bucketCount);
      var bucket := BucketOf(made.hash, bucketCount);
      ChainOf(chains, heads, bucketCount, nodes, bucket);
      made.next := buckets[bucket];
      Pushed(chains, heads, bucketCount, nodes, made, bucket);
      buckets[bucket] := made;
      chains, heads := chains[bucket := [made] + chains[bucket]], heads[bucket := made];
      nodes := nodes + {made};
      len := len + 1;
      Closed();
      LookupIs();
    }

    /** Sets the value of a key, in the node it has or in a new one. */
    method Insert(key: K, val: V, grants: nat) returns (ok: bool, isNew: bool)
      requires Valid() && Owned()
      modifies this, buckets, nodes`next, nodes`val, al
      ensures Valid() && hasher == old(hasher) && eq == old(eq)
      ensures Owned() && Others() == old(Others())
      ensures isNew == (ok && old(Lookup(key)) == None)
      ensures ok == (old(Lookup(key)) != None
                     || (Requests(old(len), old(bucketCount)) <= grants
                         && (old(len) < old(bucketCount) || CanDouble(old(bucketCount)))))
      ensures buckets == old(buckets) || fresh(buckets)
      ensures bucketCount == if old(Lookup(key)) != None then old(bucketCount)
                             else CountFor(old(len), old(bucketCount), grants)
      ensures if isNew then exists x :: fresh(x) && nodes == old(nodes) + {x} else nodes == old(nodes)
      ensures forall k :: Lookup(k) == if ok && eq(key, k) then Some(val) else old(Lookup(k))
    {
      hide Table, Hashed, BucketOf, Bucket, PowerOfTwo, Linked, Get, Has, Unique;
      var found := FindNode(key);
      if found != null {
        SameAnswer(hasher, eq, found.key, key);
        Put(found, val, nodes, hasher, eq);
        return true, false;
      }
      var node;
      ok, node := AddNode(key, val, grants);
      isNew := ok;
    }

    /** The node of a key, made with val when it has none; one that is there keeps its value. */
    method GetOrInsert(key: K, val: V, grants: nat) returns (ok: bool, node: Node?<K, V>)
      requires Valid() && Owned()
      modifies this, buckets, nodes`next, al
      ensures Valid() && hasher == old(hasher) && eq == old(eq)
      ensures Owned() && Others() == old(Others())
      ensures ok == (old(Lookup(key)) != None
                     || (Requests(old(len), old(bucketCount)) <= grants
                         && (old(len) < old(bucketCount) || CanDouble(old(bucketCount)))))
      ensures buckets == old(buckets) || fresh(buckets)
      ensures bucketCount == if old(Lookup(key)) != None then old(bucketCount)
                             else CountFor(old(len), old(bucketCount), grants)
      ensures if ok then node != null && node in nodes && eq(node.key, key) else node == null
      ensures nodes == if ok && old(Lookup(key)) == None then old(nodes) + {node} else old(nodes)
      ensures forall k :: Lookup(k) == if ok && old(Lookup(key)) == None && eq(key, k) then Some(val)
              else old(Lookup(k))
    {
      hide Table, Hashed, BucketOf, Bucket, PowerOfTwo, Linked, Get, Has, Unique;
      node := FindNode(key);
      if node != null {
        return true, node;
      }
      ok, node := AddNode(key, val, grants);
    }

    /** Unlinks a node from its bucket, writing through the link that leads to it. */
    method UnlinkNode(prev: Node?<K, V>, dead: Node<K, V>, b: int, ghost i: int)
      requires Valid() && 0 <= b < |chains| && |chains| == buckets.Length
      requires 0 <= i < |chains[b]| && chains[b][i] == dead && prev == Nth(chains[b], i - 1)
      modifies this, buckets, nodes`next
      ensures Valid() && hasher == old(hasher) && eq == old(eq) && bucketCount == old(bucketCount)
              && buckets == old(buckets)
      ensures dead in old(nodes) && nodes == old(nodes) - {dead}
      ensures forall k :: Lookup(k) == if eq(dead.key, k) then None else old(Lookup(k))
    {
      hide *;
      Opened();
      LookupIs();
      ChainOf(chains, heads, bucketCount, nodes, b);
      GetRemoved(nodes, hasher, eq, dead);
      NthBefore(chains[b], heads[b], i);
      if prev == null {
        Popped(chains, heads, bucketCount, nodes, dead, b);
        buckets[b] := dead.next;
        chains, heads := chains[b := chains[b][1..]], heads[b := dead.next];
      } else {
        CutAfter(prev, dead, chains, heads, bucketCount, nodes, b, i);
        chains := chains[b := chains[b][..i] + chains[b][i + 1..]];
      }
      Kept(nodes - {dead}, nodes, hasher, eq);
      nodes := nodes - {dead};
      len := len - 1;
      Closed();
      LookupIs();
    }

    /** Unlinks a node and hands it back. */
    method DropNode(prev: Node?<K, V>, dead: Node<K, V>, b: int, ghost i: int)
      requires Valid() && Owned() && 0 <= b < |chains| && |chains| == buckets.Length
      requires 0 <= i < |chains[b]| && chains[b][i] == dead && prev == Nth(chains[b], i - 1)
      modifies this, buckets, nodes`next, al
      ensures Owned() && Others() == old(Others())
      ensures Valid() && hasher == old(hasher) && eq == old(eq) && bucketCount == old(bucketCount)
              && buckets == old(buckets)
      ensures dead in old(nodes) && nodes == old(nodes) - {dead}
      ensures forall k :: Lookup(k) == if eq(dead.key, k) then None else old(Lookup(k))
    {
      hide *;
      BlocksAre();
      ghost var was := nodes;
      UnlinkNode(prev, dead, b, i);
      OneObject(was, dead);
      al.TakeBack(dead);
      BlocksAre();
      LookupIs();
    }

    /** Takes a key out, if it is there, and hands its node back. */
    method Remove(key: K) returns (removed: bool)
      requires Valid() && Owned()
      modifies this, buckets, nodes`next, al
      ensures Owned() && Others() == old(Others())
      ensures Valid() && hasher == old(hasher) && eq == old(eq) && bucketCount == old(bucketCount)
      ensures removed == (old(Lookup(key)) != None)
      ensures if removed then exists x :: x in old(nodes) && eq(x.key, key) && nodes == old(nodes) - {x}
              else nodes == old(nodes)
      ensures forall k :: Lookup(k) == if eq(key, k) then None else old(Lookup(k))
    {
      hide Table, Hashed, BucketOf, Bucket, PowerOfTwo, Linked, Nth, Get, Has, Unique, Lawful, Blocks, Owned, Others;
      if bucketCount == 0 {
        assert nodes == {};
        forall k ensures Lookup(k) == None {
          GetNone(nodes, eq, k);
        }
        return false;
      }
      var hash := hasher(key);
      BucketIsRemainder(hash, bucketCount);
      var b := BucketOf(hash, bucketCount);
      ChainOf(chains, heads, bucketCount, nodes, b);
      var prev, found;
      ghost var i;
      prev, found, i := FindLink(buckets[b], hash, key, eq, chains[b]);
      if found == null {
        NotElsewhere(chains, heads, bucketCount, nodes, hasher, eq, key);
        AbsentFor(nodes, hasher, eq, key);
        return false;
      }
      GetIs(nodes, hasher, eq, found, key);
      SameAnswer(hasher, eq, found.key, key);
      DropNode(prev, found, b, i);
      return true;
    }

    /** Takes out the entry of a node of this map, and hands the node back. */
    method RemoveNode(node: Node<K, V>)
      requires Valid() && Owned() && node in nodes
      modifies this, buckets, nodes`next, al
      ensures Owned() && Others() == old(Others())
      ensures Valid() && hasher == old(hasher) && eq == old(eq) && bucketCount == old(bucketCount)
      ensures nodes == old(nodes) - {node}
      ensures forall k :: Lookup(k) == if eq(node.key, k) then None else old(Lookup(k))
    {
      hide Table, Hashed, BucketOf, PowerOfTwo, Linked, Nth, Get, Has, Unique, Lawful, Blocks, Owned, Others;
      HasBuckets(nodes, node);
      BucketIsRemainder(node.hash, bucketCount);
      var b := BucketOf(node.hash, bucketCount);
      ChainOf(chains, heads, bucketCount, nodes, b);
      ghost var i;
      var prev;
      prev, i := FindNodeLink(buckets[b], node, chains[b]);
      DropNode(prev, node, b, i);
    }

    /** The entries in the order a walk meets them. */
    ghost function Walk(): seq<Node<K, V>>
      reads this
    {
      Rest(chains, 0)
    }

    lemma WalkVisitsAll()
      requires Valid()
      ensures Distinct(Walk()) && |Walk()| == len && forall x :: x in Walk() <==> x in nodes
    {
      WalkIsOnce(chains, heads, bucketCount, nodes);
    }

    /** The first node of bucket idx or a later one. */
    method FirstFrom(idx: nat) returns (first: Node?<K, V>)
      requires Valid()
      ensures first == Nth(Rest(chains, idx), 0)
    {
      hide Table, Hashed, BucketOf, Bucket, PowerOfTwo, Linked, Get, Has, Unique, Lawful, Nth, Rest;
      var i := idx;
      Opened();
      Lengths(chains, heads, bucketCount, nodes);
      RestUnfolds(chains, i);
      while i < bucketCount
        invariant Rest(chains, idx) == Rest(chains, i)
        decreases bucketCount - i
      {
        ChainOf(chains, heads, bucketCount, nodes, i);
        RestUnfolds(chains, i);
        FirstOfRest(chains[i], heads[i], Rest(chains, i + 1));
        if buckets[i] != null {
          return buckets[i];
        }
        i := i + 1;
      }
      RestUnfolds(chains, i);
      return null;
    }

    method FirstNode() returns (first: Node?<K, V>)
      requires Valid()
      ensures first == Nth(Walk(), 0)
    {
      first := FirstFrom(0);
    }

    /** The node a walk meets after this one. */
    method NodeNext(node: Node<K, V>, ghost k: int) returns (next: Node?<K, V>)
      requires Valid() && 0 <= k < |Walk()| && Walk()[k] == node
      ensures next == Nth(Walk(), k + 1)
    {
      hide Table, Hashed, BucketOf, PowerOfTwo, Linked, Get, Has, Unique, Lawful, Nth, Rest, Distinct;
      WalkVisitsAll();
      HasBuckets(nodes, node);
      BucketIsRemainder(node.hash, bucketCount);
      ghost var b := BucketOf(node.hash, bucketCount);
      ChainOf(chains, heads, bucketCount, nodes, b);
      ghost var i :| 0 <= i < |chains[b]| && chains[b][i] == node;
      WalkStep(chains, b, i, k);
      NextInChain(chains[b], heads[b], i);
      if node.next != null {
        return node.next;
      }
      next := FirstFrom(BucketOf(node.hash, bucketCount) + 1);
    }

    /** clear_nodes: hands every node back. */
    method ClearNodes()
      requires Valid() && Owned()
      modifies al
      ensures al.lent == old(al.lent) - Objects(nodes)
    {
      hide *;
      AllToGo();
      ghost var others := al.lent - Objects(nodes);
      var i := 0;
      while i < bucketCount
        invariant 0 <= i <= bucketCount && ToGo(al.lent, others, Rest(chains, i))
      {
        BucketChain(i);
        ClearChain(buckets[i], al, chains[i], Rest(chains, i + 1), others);
        i := i + 1;
      }
      NoneToGo(al.lent, others, Rest(chains, i));
    }

    lemma AllToGo()
      requires Valid() && Owned()
      ensures ToGo(al.lent, al.lent - Objects(nodes), Rest(chains, 0))
      ensures bucketCount == |chains| == buckets.Length && Rest(chains, bucketCount) == []
    {
      hide *;
      Opened();
      WalkVisitsAll();
      WalkIs();
      BlocksAre();
      WalkBlocks();
      Lengths(chains, heads, bucketCount, nodes);
      RestUnfolds(chains, bucketCount);
      Apart(al.lent, Objects(nodes), Walk());
    }

    lemma BucketChain(b: nat)
      requires Valid() && b < bucketCount
      ensures |chains| == buckets.Length == bucketCount && Linked(chains[b], buckets[b])
      ensures Rest(chains, b) == chains[b] + Rest(chains, b + 1)
    {
      hide *;
      Opened();
      ChainOf(chains, heads, bucketCount, nodes, b);
      RestUnfolds(chains, b);
    }

    lemma WalkBlocks()
      requires forall x :: x in Walk() <==> x in nodes
      ensures AsBlocks(Walk()) == Objects(nodes)
    {
      SameBlocks(Walk(), nodes);
    }

    /** Drops every entry and keeps the buckets. */
    method Clear()
      requires Valid() && Owned()
      modifies this, buckets, al
      ensures Owned() && Others() == old(Others())
      ensures buckets == old(buckets)
      ensures Valid() && nodes == {} && bucketCount == old(bucketCount) && hasher == old(hasher) && eq == old(eq)
    {
      hide *;
      BlocksAre();
      NodesGone(al.lent, Objects(nodes), if bucketCount == 0 then {} else {buckets});
      ClearNodes();
      Unhang();
      BlocksAre();
    }

    /** Every bucket empty: what hung from them is no longer an entry. */
    method Unhang()
      requires Valid()
      modifies this, buckets
      ensures Valid() && nodes == {} && Objects(nodes) == {} && buckets == old(buckets)
      ensures bucketCount == old(bucketCount) && hasher == old(hasher) && eq == old(eq)
    {
      hide *;
      Opened();
      Kept({}, nodes, hasher, eq);
      ghost var cs, hs := AllEmpty<K, V>(bucketCount, {});
      NullAll(buckets, bucketCount);
      Become(buckets, bucketCount, 0, hasher, eq, cs, hs, {});
    }

    /** Hands back the nodes and the buckets. */
    method ReleaseBuckets()
      requires Valid() && Owned()
      modifies this, al
      ensures al.lent == old(al.lent - Blocks()) && Blocks() == {}
      ensures Valid() && nodes == {} && bucketCount == 0 && hasher == old(hasher) && eq == old(eq)
    {
      hide *;
      Opened();
      BlocksAre();
      ClearNodes();
      if bucketCount > 0 {
        al.TakeBack(buckets);
      }
      Kept({}, nodes, hasher, eq);
      ghost var cs, hs := AllEmpty<K, V>(0, {});
      var none := new Node?<K, V>[0];
      Become(none, 0, 0, hasher, eq, cs, hs, {});
      BlocksAre();
    }

    /** Room for cap entries, by relinking the nodes into more buckets. */
    method Reserve(cap: nat, granted: bool) returns (ok: bool)
      requires Valid() && Owned()
      modifies this, nodes`next, al
      ensures Owned() && Others() == old(Others())
      ensures Valid() && nodes == old(nodes) && hasher == old(hasher) && eq == old(eq)
      ensures forall k :: Lookup(k) == old(Lookup(k))
      ensures ok == (cap <= old(bucketCount) || (cap <= Pow2(WORD - 1) && granted))
      ensures ok ==> cap <= bucketCount
      ensures if ok && old(bucketCount) < cap then fresh(buckets) && LeastCount(bucketCount, cap)
              else buckets == old(buckets) && bucketCount == old(bucketCount)
    {
      hide Table, Hashed, BucketOf, Bucket, PowerOfTwo, Linked, Get, Has, Unique, Lawful, Pow2;
      if cap <= bucketCount {
        return true;
      }
      var want := RoundUpPow2(cap);
      if want == 0 {
        return false;
      }
      ok := Rehash(want, granted);
    }

    /** The fewest buckets that hold the entries; none at all when there are none. */
    method ShrinkToFit(granted: bool) returns (ok: bool)
      requires Valid() && Owned()
      modifies this, nodes`next, al
      ensures Owned() && Others() == old(Others())
      ensures Valid() && nodes == old(nodes) && hasher == old(hasher) && eq == old(eq)
      ensures forall k :: Lookup(k) == old(Lookup(k))
      ensures ok == (granted || len == 0 || LeastCount(old(bucketCount), len))
      ensures if !ok then bucketCount == old(bucketCount) && buckets == old(buckets)
              else if len == 0 then bucketCount == 0 else LeastCount(bucketCount, len)
      ensures LeastCount(old(bucketCount), old(len)) && len != 0 ==> buckets == old(buckets)
    {
      hide Table, Hashed, BucketOf, Bucket, PowerOfTwo, Linked, Get, Has, Unique, Lawful, Pow2;
      Opened();
      if len == 0 {
        ReleaseBuckets();
        return true;
      }
      LastPower(bucketCount);
      var want := RoundUpPow2(len);
      if want == 0 || want >= bucketCount {
        return true;
      }
      ok := Rehash(want, granted);
    }

    /** Overwrites every field but the allocator. */
    method Become(b: array<Node?<K, V>>, count: nat, l: nat, h: K -> nat, e: (K, K) -> bool,
                  ghost cs: seq<seq<Node<K, V>>>, ghost hs: seq<Node?<K, V>>, ghost s: set<Node<K, V>>)
      requires Table(cs, hs, count, s) && |hs| == count == b.Length && forall d :: 0 <= d < count ==> b[d] == hs[d]
      requires count == 0 || (BASE <= count && 0 < count && PowerOfTwo(count))
      requires l == |s| <= count && Lawful(h, e) && Unique(s, e) && Hashed(s, h)
      modifies this
      ensures Valid() && nodes == s && hasher == h && eq == e && buckets == b && bucketCount == count && len == l
    {
      hide *;
      buckets, bucketCount, len, hasher, eq := b, count, l, h, e;
      chains, heads, nodes := cs, hs, s;
      Closed();
    }

    /** Everything changes hands, hasher and equality included. */
    method Swap(other: HMap<K, V>)
      requires Valid() && other.Valid() && al == other.al
      modifies this, other
      ensures Valid() && other.Valid()
      ensures nodes == old(other.nodes) && hasher == old(other.hasher) && eq == old(other.eq)
              && buckets == old(other.buckets)
      ensures other.nodes == old(nodes) && other.hasher == old(hasher) && other.eq == old(eq)
              && other.buckets == old(buckets)
      ensures bucketCount == old(other.bucketCount) && other.bucketCount == old(bucketCount)
    {
      hide *;
      if this == other {
        return;
      }
      Opened();
      other.Opened();
      var b, count, l, h, e := buckets, bucketCount, len, hasher, eq;
      ghost var cs, hs, s := chains, heads, nodes;
      Become(other.buckets, other.bucketCount, other.len, other.hasher, other.eq, other.chains, other.heads,
        other.nodes);
      other.Become(b, count, l, h, e, cs, hs, s);
    }

    /** A map of the same entries from another allocator. Nothing grows on the way: it asks for the map, for the buckets
        when there are entries, and for one node per entry. */
    method CopyWith(allocator: Allocator, grants: nat) returns (r: HMap?<K, V>)
      requires Valid()
      modifies allocator
      ensures r == null ==> allocator.lent == old(allocator.lent)
      ensures r != null ==> r.Owned() && r.Others() == old(allocator.lent) + {r}
      ensures r != null <==> (if len == 0 then 1 else 2 + len) <= grants
      ensures r != null ==> fresh(r) && fresh(r.buckets) && r.Valid()
      ensures r != null ==> if len == 0 then r.bucketCount == 0 else LeastCount(r.bucketCount, len)
      ensures r != null ==> r.al == allocator && r.hasher == hasher && r.eq == eq
      ensures r != null ==> (forall x :: x in r.nodes ==> fresh(x)) && forall k :: r.Lookup(k) == Lookup(k)
    {
      hide *;
      Opened();
      if bucketCount > 0 {
        LastPower(bucketCount);
      }
      var obj := NewCap(len, hasher, eq, allocator, grants);
      if obj == null {
        return null;
      }
      var ok := CopyEntries(obj, grants - if len == 0 then 1 else 2);
      obj.BlocksAre();
      if !ok {
        obj.Drop();
        return null;
      }
      return obj;
    }

    /** tda_hmap_drop: the nodes, the buckets, and the map itself. */
    method Drop()
      requires Valid() && Owned() && this in al.lent
      modifies this, al
      ensures al.lent == old(Others()) - {this}
    {
      hide *;
      BlocksAre();
      ReleaseBuckets();
      al.TakeBack(this);
    }

    /** The loop of copy_with: obj has no entries yet, and as many buckets as will be needed. */
    method CopyEntries(obj: HMap<K, V>, grants: nat) returns (ok: bool)
      requires Valid() && obj.Valid() && obj != this && obj.nodes == {} && len <= obj.bucketCount
      requires obj.hasher == hasher && obj.eq == eq && obj.buckets != buckets && obj.Owned()
      modifies obj, obj.buckets, obj.al
      ensures obj.Owned() && obj.Others() == old(obj.Others())
      ensures ok == (len <= grants) && obj.Valid() && obj.hasher == hasher && obj.eq == eq
      ensures obj.bucketCount == old(obj.bucketCount)
      ensures obj.buckets == old(obj.buckets) || fresh(obj.buckets)
      ensures forall x :: x in obj.nodes ==> fresh(x)
      ensures ok ==> forall k :: obj.Lookup(k) == Lookup(k)
    {
      hide *;
      Opened();
      WalkVisitsAll();
      WalkIs();
      var left := grants;
      ghost var k, seen: set<Node<K, V>> := 0, {};
      NthIs(Walk(), 0);
      obj.LookupIs();
      NothingIn(obj.nodes, seen, eq);
      var node := FirstNode();
      while node != null
        invariant 0 <= k <= |Walk()| && node == Nth(Walk(), k) && (node == null <==> k == |Walk()|)
        invariant 0 <= left && left + k == grants && |obj.nodes| == k && seen <= nodes
        invariant forall x :: x in seen <==> x in Walk()[..k]
        invariant Valid() && obj.Valid() && obj.hasher == hasher && obj.eq == eq && len <= obj.bucketCount
        invariant obj.buckets == old(obj.buckets) || fresh(obj.buckets)
        invariant obj.Owned() && obj.Others() == old(obj.Others()) && obj.bucketCount == old(obj.bucketCount)
        invariant forall x :: x in obj.nodes ==> fresh(x)
        invariant forall key :: obj.Lookup(key) == Get(seen, eq, key)
        decreases |Walk()| - k
      {
        NthIs(Walk(), k);
        NthIs(Walk(), k + 1);
        SeenMore(Walk(), seen, k);
        NotSeen(seen, nodes, hasher, eq, node);
        ok := obj.CopyOne(node, 0 < left, seen);
        if !ok {
          return;
        }
        seen := seen + {node};
        left := left - 1;
        node := NodeNext(node, k);
        k := k + 1;
      }
      AllSeen(Walk(), seen, nodes);
      LookupIs();
      return true;
    }

    method CopyOne(node: Node<K, V>, granted: bool, ghost seen: set<Node<K, V>>) returns (ok: bool)
      requires Valid() && |nodes| < bucketCount && node !in nodes && Unique(seen, eq) && !Has(seen, eq, node.key)
      requires Owned()
      requires forall k :: Lookup(k) == Get(seen, eq, k)
      requires Get(seen, eq, node.key) == None
      modifies this, buckets, nodes`next, nodes`val, al
      ensures Owned() && Others() == old(Others())
      ensures Valid() && hasher == old(hasher) && eq == old(eq) && bucketCount == old(bucketCount) && ok == granted
      ensures buckets == old(buckets) || fresh(buckets)
      ensures forall x :: x in nodes ==> x in old(nodes) || fresh(x)
      ensures ok ==> |nodes| == old(|nodes|) + 1 && forall k :: Lookup(k) == old(Get(seen + {node}, eq, k))
    {
      hide *;
      Opened();
      GetAdded(seen, hasher, eq, node);
      OneRequest(len, bucketCount);
      var isNew;
      ok, isNew := Insert(node.key, node.val, if granted then 1 else 0);
    }

    lemma WalkIs()
      ensures Walk() == Rest(chains, 0)
    {
    }

    /** Makes other answer like this map, by the same hasher and equality; nothing of it has changed when a request is
        refused. */
    method CopyAssign(other: HMap<K, V>, grants: nat) returns (ok: bool)
      requires Valid() && other.Valid() && other.Owned()
      modifies other, other.al
      ensures !ok ==> other.al.lent == old(other.al.lent)
      ensures other.Owned() && other.Others() == old(other.Others())
      ensures Valid() && other.Valid()
      ensures ok == (this == other || (if old(len) == 0 then 1 else 2 + old(len)) <= grants)
      ensures !ok || this == other ==> other.nodes == old(other.nodes)
      ensures !ok || this == other ==> other.eq == old(other.eq) && other.hasher == old(other.hasher)
      ensures ok ==> other.eq == eq && other.hasher == hasher && forall k :: other.Lookup(k) == old(Lookup(k))
      ensures ok && this != other ==> if len == 0 then other.bucketCount == 0 else LeastCount(other.bucketCount, len)
    {
      hide *;
      LookupIs();
      if this == other {
        return true;
      }
      other.BlocksAre();
      var clone := CopyWith(other.al, grants);
      other.BlocksAre();
      if clone == null {
        return false;
      }
      clone.LookupIs();
      clone.BlocksAre();
      other.Swap(clone);
      clone.BlocksAre();
      clone.Drop();
      other.BlocksAre();
      other.LookupIs();
      return true;
    }

    /** Hands everything over: the nodes themselves within one allocator, copies between two. This map is left without
        buckets; within one allocator it is left with the hasher and equality other had. */
    method MoveAssign(other: HMap<K, V>, grants: nat) returns (ok: bool)
      requires Valid() && other.Valid() && Owned() && other.Owned()
      modifies this, other, al, other.al
      ensures this == other || !ok ==> al.lent == old(al.lent) && other.al.lent == old(other.al.lent)
      ensures ok && this != other && al == other.al ==> al.lent == old(other.Others())
      ensures ok && al != other.al ==>
        al.lent == old(Others()) && other.Owned() && other.Others() == old(other.Others())
      ensures Valid() && other.Valid()
      ensures ok == (this == other || al == other.al || (if old(len) == 0 then 1 else 2 + old(len)) <= grants)
      ensures !ok || this == other ==>
        nodes == old(nodes) && eq == old(eq) && other.nodes == old(other.nodes) && other.eq == old(other.eq)
      ensures ok && this != other ==> nodes == {} && bucketCount == 0
      ensures ok && al == other.al ==> other.nodes == old(nodes) && other.buckets == old(buckets)
      ensures ok && al != other.al ==>
        if old(len) == 0 then other.bucketCount == 0 else LeastCount(other.bucketCount, old(len))
      ensures ok ==> other.eq == old(eq) && other.hasher == old(hasher) && forall k :: other.Lookup(k) == old(Lookup(k))
    {
      hide *;
      LookupIs();
      if this == other {
        return true;
      }
      BlocksAre();
      other.BlocksAre();
      if al == other.al {
        Swap(other);
        BlocksAre();
        ReleaseBuckets();
        other.LookupIs();
        return true;
      }
      var obj := CopyWith(other.al, grants);
      if obj == null {
        return false;
      }
      obj.LookupIs();
      obj.BlocksAre();
      other.Swap(obj);
      obj.BlocksAre();
      obj.Drop();
      other.BlocksAre();
      BlocksAre();
      ReleaseBuckets();
      other.LookupIs();
      return true;
    }

    /** Whether the entry of a node has its like in other. */
    ghost predicate Matched(node: Node<K, V>, other: HMap<K, V>, valEq: (V, V) -> bool)
      reads node`val, other, other.nodes`val
    {
      other.Lookup(node.key).Some? && valEq(node.val, other.Lookup(node.key).value)
    }

    /** Looks every entry of this map up in other. */
    method EqImpl(other: HMap<K, V>, valEq: (V, V) -> bool) returns (same: bool)
      requires Valid() && other.Valid()
      ensures same <==> this == other || (len == other.len && forall x :: x in nodes ==> Matched(x, other, valEq))
    {
      hide Table, Hashed, BucketOf, PowerOfTwo, Get, Has, Unique, Lawful, Linked, Nth, Distinct, Matched;
      if this == other {
        return true;
      }
      if len != other.len {
        return false;
      }
      Opened();
      Lengths(chains, heads, bucketCount, nodes);
      var i := 0;
      while i < bucketCount
        invariant 0 <= i <= bucketCount
        invariant forall d :: 0 <= d < i ==> AllMatched(chains[d], other, valEq)
      {
        ChainOf(chains, heads, bucketCount, nodes, i);
        ghost var ch, j := chains[i], 0;
        var node := buckets[i];
        StartOf(ch, heads[i]);
        while node != null
          invariant 0 <= j <= |ch| && node == Nth(ch, j) && (node == null <==> j == |ch|)
          invariant forall d :: 0 <= d < j ==> Matched(ch[d], other, valEq)
          decreases |ch| - j
        {
          NthIs(ch, j);
          NthIs(ch, j + 1);
          NextInChain(ch, heads[i], j);
          var found := other.FindNode(node.key);
          MatchedIs(node, other, valEq);
          if found == null || !valEq(node.val, found.val) {
            assert node in nodes && !Matched(node, other, valEq);
            return false;
          }
          node := node.next;
          j := j + 1;
        }
        i := i + 1;
      }
      EveryNode(chains, heads, bucketCount, nodes);
      return true;
    }

    ghost predicate AllMatched(ch: seq<Node<K, V>>, other: HMap<K, V>, valEq: (V, V) -> bool)
      reads ch`val, other, other.nodes`val
    {
      forall d :: 0 <= d < |ch| ==> Matched(ch[d], other, valEq)
    }

    lemma MatchedIs(node: Node<K, V>, other: HMap<K, V>, valEq: (V, V) -> bool)
      ensures Matched(node, other, valEq)
         <==> other.Lookup(node.key).Some? && valEq(node.val, other.Lookup(node.key).value)
    {
    }

    lemma Opened()
      requires Valid()
      ensures Table(chains, heads, bucketCount, nodes) && |heads| == bucketCount == buckets.Length
      ensures forall d :: 0 <= d < bucketCount ==> buckets[d] == heads[d]
      ensures bucketCount == 0 || (BASE <= bucketCount && 0 < bucketCount && PowerOfTwo(bucketCount))
      ensures len == |nodes| <= bucketCount
      ensures Lawful(hasher, eq) && Unique(nodes, eq) && Hashed(nodes, hasher)
    {
    }

    lemma Closed()
      requires Table(chains, heads, bucketCount, nodes) && |heads| == bucketCount == buckets.Length
      requires forall d :: 0 <= d < bucketCount ==> buckets[d] == heads[d]
      requires bucketCount == 0 || (BASE <= bucketCount && 0 < bucketCount && PowerOfTwo(bucketCount))
      requires len == |nodes| <= bucketCount
      requires Lawful(hasher, eq) && Unique(nodes, eq) && Hashed(nodes, hasher)
      ensures Valid()
    {
    }

    lemma LookupIs()
      ensures forall k :: Lookup(k) == Get(nodes, eq, k)
    {
    }
  }

  /** Nodes as blocks of memory. */
  ghost function Objects<K, V>(s: set<Node<K, V>>): (r: set<object>) {
    s
  }

  lemma OneObject<K, V>(s: set<Node<K, V>>, x: Node<K, V>)
    requires x in s
    ensures x in Objects(s) && Objects(s - {x}) == Objects(s) - {x}
  {
  }

  /** One bucket array for another. */
  lemma Rebucketed(lent: set<object>, ns: set<object>, b: set<object>, nb: object)
    requires ns + b <= lent && ns !! b && nb !in lent
    ensures lent + {nb} - b - (ns + {nb}) == lent - (ns + b)
  {
  }

  method NullAll<K, V>(buckets: array<Node?<K, V>>, count: nat)
    requires count == buckets.Length
    modifies buckets
    ensures forall d :: 0 <= d < count ==> buckets[d] == null
  {
    var i := 0;
    while i < count
      invariant 0 <= i <= count && forall d :: 0 <= d < i ==> buckets[d] == null
    {
      buckets[i] := null;
      i := i + 1;
    }
  }

  lemma NodesGone(lent: set<object>, ns: set<object>, held: set<object>)
    requires ns + held <= lent && ns !! held
    ensures lent - ns - ({} + held) == lent - (ns + held)
  {
  }

  lemma SameBlocks<K, V>(ns: seq<Node<K, V>>, s: set<Node<K, V>>)
    requires forall x :: x in ns <==> x in s
    ensures AsBlocks(ns) == Objects(s)
  {
    forall x | x in ns ensures (x as object) in Objects(s) {
    }
    forall x | x in s ensures (x as object) in AsBlocks(ns) {
    }
  }

  lemma AllEmpty<K, V>(n: nat, s: set<Node<K, V>>) returns (chains: seq<seq<Node<K, V>>>, heads: seq<Node?<K, V>>)
    requires s == {}
    ensures Table(chains, heads, n, s) && Objects(s) == {}
    ensures |heads| == n && forall d :: 0 <= d < n ==> heads[d] == null
  {
    NoChains<K, V>(n, s);
    chains, heads := seq(n, _ => []), seq(n, _ => null);
  }

  /** A map with no entries and room for cap: a request for the map, and one for the buckets when cap is not 0. */
  method NewCap<K(!new), V(!new)>(cap: nat, hasher: K -> nat, eq: (K, K) -> bool, al: Allocator, grants: nat)
    returns (r: HMap?<K, V>)
    requires Lawful(hasher, eq)
    modifies al
    ensures r != null <==> if cap == 0 then 1 <= grants else cap <= Pow2(WORD - 1) && 2 <= grants
    ensures r == null ==> al.lent == old(al.lent)
    ensures r != null ==> fresh(r) && fresh(r.buckets) && r.Valid() && r.nodes == {} && cap <= r.bucketCount
    ensures r != null ==> r.al == al && r.hasher == hasher && r.eq == eq
    ensures r != null ==> if cap == 0 then r.bucketCount == 0 else LeastCount(r.bucketCount, cap)
    ensures r != null ==> r.Owned() && r.Others() == old(al.lent) + {r}
  {
    hide *;
    r := null;
    if grants == 0 {
      return;
    }
    var obj := new HMap(hasher, eq, al);
    obj.BlocksAre();
    al.Lend(obj);
    obj.BlocksAre();
    if cap > 0 {
      var ok := obj.Reserve(cap, 1 < grants);
      obj.BlocksAre();
      if !ok {
        assert obj.Blocks() == {} && obj.Others() == al.lent;
        al.TakeBack(obj);
        return;
      }
    }
    return obj;
  }

  ghost function AsBlocks<K, V>(ns: seq<Node<K, V>>): (r: set<object>) {
    set x: object | x in ns
  }

  /** Of the blocks that are out, others stay and the nodes ns still have to be handed back. */
  ghost predicate ToGo<K, V>(lent: set<object>, others: set<object>, ns: seq<Node<K, V>>) {
    Distinct(ns) && lent == others + AsBlocks(ns) && others !! AsBlocks(ns)
  }

  lemma Apart<K, V>(lent: set<object>, objects: set<object>, ns: seq<Node<K, V>>)
    requires Distinct(ns) && AsBlocks(ns) == objects <= lent
    ensures ToGo(lent, lent - objects, ns)
  {
  }

  lemma NoneToGo<K, V>(lent: set<object>, others: set<object>, ns: seq<Node<K, V>>)
    requires ToGo(lent, others, ns) && ns == []
    ensures lent == others
  {
  }

  lemma FirstGoes<K, V>(lent: set<object>, others: set<object>, ns: seq<Node<K, V>>)
    requires ToGo(lent, others, ns) && ns != []
    ensures ns[0] in lent && ToGo(lent - {ns[0]}, others, ns[1..])
  {
    var rest := ns[1..];
    assert ns == [ns[0]] + rest;
    forall i | 0 <= i < |rest| ensures rest[i] == ns[i + 1] {
    }
  }

  /** Hands back the nodes of one chain, reading the next of each before it goes. */
  method ClearChain<K, V>(first: Node?<K, V>, al: Allocator, ghost ch: seq<Node<K, V>>, ghost rest: seq<Node<K, V>>,
                          ghost others: set<object>)
    requires Linked(ch, first) && ToGo(al.lent, others, ch + rest)
    modifies al
    ensures ToGo(al.lent, others, rest)
  {
    hide *;
    ghost var j := 0;
    var node := first;
    StartOf(ch, first);
    assert ch[0..] + rest == ch + rest;
    while node != null
      invariant 0 <= j <= |ch| && node == Nth(ch, j) && (node == null <==> j == |ch|)
      invariant Linked(ch, first) && ToGo(al.lent, others, ch[j..] + rest)
      decreases |ch| - j
    {
      NthIs(ch, j);
      NthIs(ch, j + 1);
      NextInChain(ch, first, j);
      FirstGoes(al.lent, others, ch[j..] + rest);
      assert (ch[j..] + rest)[1..] == ch[j + 1..] + rest;
      var next := node.next;
      al.TakeBack(node);
      node := next;
      j := j + 1;
    }
    assert ch[j..] + rest == rest;
  }

  /** How many requests one more entry makes of the allocator. */
  ghost function Requests(len: nat, count: nat): nat {
    if len < count then 1 else 2
  }

  /** How many buckets there are after one more entry has been asked for. */
  ghost function CountFor(len: nat, count: nat, grants: nat): nat {
    if len < count || grants == 0 || !CanDouble(count) then count else if count == 0 then 8 else 2 * count
  }

  ghost predicate CanDouble(count: nat) {
    2 * count <= SizeMax()
  }

  lemma AddHashed<K, V>(s: set<Node<K, V>>, hasher: K -> nat, x: Node<K, V>)
    requires Hashed(s, hasher) && x.hash == hasher(x.key)
    ensures Hashed(s + {x}, hasher)
  {
  }

  // ---------- equality of maps ----------

  /** Pigeonhole on unequal keys: when every key of s is one of t, s is no larger, and if it is as large every key of t
      is one of s. */
  lemma {:induction false} Pigeonhole<K(!new), V>(s: set<Node<K, V>>, t: set<Node<K, V>>, hasher: K -> nat,
                                                  eq: (K, K) -> bool)
    requires Lawful(hasher, eq) && Unique(s, eq) && Unique(t, eq) && forall x :: x in s ==> Has(t, eq, x.key)
    ensures |s| <= |t|
    ensures |s| == |t| ==> forall y :: y in t ==> Has(s, eq, y.key)
    decreases |s|
  {
    hide Lawful, Unique, Has;
    if s == {} {
      assert |t| == 0 ==> t == {};
    } else {
      var x :| x in s;
      var y := Owner(t, eq, x.key);
      var s', t' := s - {x}, t - {y};
      StillOwned(s, t, hasher, eq, x, y);
      Pigeonhole(s', t', hasher, eq);
      if |s| == |t| {
        OwnedToo(s, t, hasher, eq, x, y);
      }
    }
  }

  /** A pair of nodes with equal keys taken away, one from each side. */
  lemma StillOwned<K(!new), V>(s: set<Node<K, V>>, t: set<Node<K, V>>, hasher: K -> nat, eq: (K, K) -> bool,
                               x: Node<K, V>, y: Node<K, V>)
    requires Lawful(hasher, eq) && Unique(s, eq) && Unique(t, eq) && x in s && y in t && eq(y.key, x.key)
    requires forall z :: z in s ==> Has(t, eq, z.key)
    ensures Unique(s - {x}, eq) && Unique(t - {y}, eq)
    ensures forall z :: z in s - {x} ==> Has(t - {y}, eq, z.key)
  {
    hide Lawful;
    forall z | z in s - {x} ensures Has(t - {y}, eq, z.key) {
      var w :| w in t && eq(w.key, z.key);
      if w == y {
        Chained(hasher, eq, z.key, y.key, x.key);
      }
    }
  }

  lemma OwnedToo<K(!new), V>(s: set<Node<K, V>>, t: set<Node<K, V>>, hasher: K -> nat, eq: (K, K) -> bool,
                             x: Node<K, V>, y: Node<K, V>)
    requires Lawful(hasher, eq) && x in s && y in t && eq(y.key, x.key)
    requires forall z :: z in t - {y} ==> Has(s - {x}, eq, z.key)
    ensures forall z :: z in t ==> Has(s, eq, z.key)
  {
    hide Lawful;
    Chained(hasher, eq, y.key, x.key, x.key);
    forall z | z in t ensures Has(s, eq, z.key) {
      if z != y {
        assert z in t - {y};
        var w :| w in s - {x} && eq(w.key, z.key);
        assert w in s;
      }
    }
  }

  lemma Chained<K(!new)>(hasher: K -> nat, eq: (K, K) -> bool, x: K, y: K, z: K)
    requires Lawful(hasher, eq)
    ensures eq(x, x) && (eq(x, y) ==> eq(y, x)) && (eq(y, x) ==> eq(x, y))
    ensures eq(x, y) && eq(y, z) ==> eq(x, z)
    ensures eq(y, x) && eq(y, z) ==> eq(x, z)
  {
  }

  /** Both keys absent, or values that valEq accepts. */
  predicate Alike<V>(p: Option<V>, q: Option<V>, valEq: (V, V) -> bool) {
    match (p, q)
    case (Some(v), Some(w)) => valEq(v, w)
    case (None, None) => true
    case _ => false
  }

  /** For maps with one key equality the scan of eq_impl, which looks the entries of one map up in the other, together
      with the comparison of lengths, decides whether they answer alike for every key. */
  lemma OneScanDecides<K(!new), V(!new)>(a: HMap<K, V>, b: HMap<K, V>, valEq: (V, V) -> bool)
    requires a.Valid() && b.Valid() && a.eq == b.eq
    ensures (a.len == b.len && forall x :: x in a.nodes ==> a.Matched(x, b, valEq))
       <==> forall k :: Alike(a.Lookup(k), b.Lookup(k), valEq)
  {
    hide Table, PowerOfTwo, Hashed;
    if a.len == b.len && forall x :: x in a.nodes ==> a.Matched(x, b, valEq) {
      ScanSuffices(a, b, valEq);
    }
    if forall k :: Alike(a.Lookup(k), b.Lookup(k), valEq) {
      ScanSucceeds(a, b, valEq);
    }
  }

  lemma ScanSuffices<K(!new), V(!new)>(a: HMap<K, V>, b: HMap<K, V>, valEq: (V, V) -> bool)
    requires a.Valid() && b.Valid() && a.eq == b.eq && a.len == b.len
    requires forall x :: x in a.nodes ==> a.Matched(x, b, valEq)
    ensures forall k :: Alike(a.Lookup(k), b.Lookup(k), valEq)
  {
    hide Table, PowerOfTwo, Hashed, Get, Lawful, Unique;
    var eq := a.eq;
    forall x | x in a.nodes ensures Has(b.nodes, eq, x.key) {
      assert a.Matched(x, b, valEq);
      LookupSome(b.nodes, eq, x.key);
    }
    Pigeonhole(a.nodes, b.nodes, a.hasher, eq);
    hide Has, a.Matched;
    forall k ensures Alike(a.Lookup(k), b.Lookup(k), valEq) {
      LookupSome(a.nodes, eq, k);
      if Has(a.nodes, eq, k) {
        var x := Owner(a.nodes, eq, k);
        assert a.Matched(x, b, valEq);
        SharedKey(a, b, x, k, valEq);
      } else {
        NoKey(a.nodes, b.nodes, a.hasher, eq, k);
        LookupSome(b.nodes, eq, k);
      }
    }
  }

  lemma SharedKey<K(!new), V(!new)>(a: HMap<K, V>, b: HMap<K, V>, x: Node<K, V>, k: K, valEq: (V, V) -> bool)
    requires a.Valid() && b.Valid() && a.eq == b.eq && x in a.nodes && a.eq(x.key, k) && a.Matched(x, b, valEq)
    ensures Alike(a.Lookup(k), b.Lookup(k), valEq)
  {
    hide Table, PowerOfTwo, Hashed, Get, Lawful, Unique, Has;
    GetIs(a.nodes, a.hasher, a.eq, x, k);
    LookupSome(b.nodes, b.eq, x.key);
    var y := Owner(b.nodes, b.eq, x.key);
    GetIs(b.nodes, b.hasher, b.eq, y, x.key);
    Chained(b.hasher, b.eq, y.key, x.key, k);
    GetIs(b.nodes, b.hasher, b.eq, y, k);
  }

  lemma NoKey<K(!new), V>(s: set<Node<K, V>>, t: set<Node<K, V>>, hasher: K -> nat, eq: (K, K) -> bool, k: K)
    requires Lawful(hasher, eq) && !Has(s, eq, k) && forall y :: y in t ==> Has(s, eq, y.key)
    ensures !Has(t, eq, k)
  {
    hide Lawful;
    if Has(t, eq, k) {
      var y :| y in t && eq(y.key, k);
      var x :| x in s && eq(x.key, y.key);
      Chained(hasher, eq, x.key, y.key, k);
    }
  }

  lemma ScanSucceeds<K(!new), V(!new)>(a: HMap<K, V>, b: HMap<K, V>, valEq: (V, V) -> bool)
    requires a.Valid() && b.Valid() && a.eq == b.eq
    requires forall k :: Alike(a.Lookup(k), b.Lookup(k), valEq)
    ensures a.len == b.len && forall x :: x in a.nodes ==> a.Matched(x, b, valEq)
  {
    hide Table, PowerOfTwo, Hashed, Get, Has, Unique;
    var eq := a.eq;
    forall x | x in a.nodes ensures Has(b.nodes, eq, x.key) && a.Matched(x, b, valEq) {
      GetIs(a.nodes, a.hasher, eq, x, x.key);
      assert Alike(a.Lookup(x.key), b.Lookup(x.key), valEq);
      LookupSome(b.nodes, eq, x.key);
    }
    forall y | y in b.nodes ensures Has(a.nodes, eq, y.key) {
      GetIs(b.nodes, b.hasher, eq, y, y.key);
      assert Alike(a.Lookup(y.key), b.Lookup(y.key), valEq);
      LookupSome(a.nodes, eq, y.key);
    }
    Pigeonhole(a.nodes, b.nodes, a.hasher, eq);
    Pigeonhole(b.nodes, a.nodes, a.hasher, eq);
  }

  lemma LookupSome<K, V>(s: set<Node<K, V>>, eq: (K, K) -> bool, key: K)
    ensures Get(s, eq, key).Some? <==> Has(s, eq, key)
  {
  }
}
