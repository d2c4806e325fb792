/** The pool allocator (src/alloc/pool.c): blocks of one size, the free ones of which form a list kept inside the blocks
    themselves. A block is known by its number; link is what the first word of each block reads as a free-list pointer,
    -1 standing for null. */
module Pools {
  import opened Bits
  import opened Sequences
  import opened Alignment
  import opened Chains

  datatype Pointer = Null | At(offset: nat)

  /** The free list with its first block taken off, or with one more in front. */
  lemma Taken(link: seq<int>, free: seq<int>)
    requires Path(link, free) && Distinct(free) && free != []
    ensures 0 <= free[0] < |link| && link[free[0]] == First(free[1..]) && Path(link, free[1..]) && Distinct(free[1..])
    ensures free[0] !in free[1..]
  {
    PathTail(link, free);
    DistinctTail(free);
  }

  lemma GivenBack(link: seq<int>, free: seq<int>, b: int)
    requires Path(link, free) && Distinct(free) && 0 <= b < |link| && b !in free
    ensures Path(link[b := First(free)], [b] + free) && Distinct([b] + free)
  {
    var l, f := link[b := First(free)], [b] + free;
    forall i | 0 <= i < |f| - 1 ensures l[f[i]] == f[i + 1] {
      if i > 0 {
        assert link[free[i - 1]] == free[i];
      }
    }
    if free != [] {
      assert l[f[|f| - 1]] == link[free[|free| - 1]];
    }
  }

  /** Words of blocks that are lent may hold anything. */
  lemma LentWritten(link: seq<int>, free: seq<int>, b: int, v: int)
    requires Path(link, free) && 0 <= b < |link| && b !in free
    ensures Path(link[b := v], free)
  {
    var l := link[b := v];
    forall i | 0 <= i < |free| - 1 ensures l[free[i]] == free[i + 1] {
      assert link[free[i]] == free[i + 1];
    }
  }

  /** No two blocks overlap, and each starts where pool_owns says a block starts. */
  lemma BlocksAreApart(b: int, c: int, size: int)
    requires 0 < size
    ensures b < c ==> b * size + size <= c * size
    ensures 0 <= b ==> 0 <= b * size
  {
    Product(c - b, size);
    assert (c - b) * size == c * size - b * size;
    Product(b, size);
  }

  /** pool_owns: an address is a block's exactly when it lies inside and a whole number of blocks from the start. */
  lemma OwnsIff(addr: int, begin: int, size: int, count: int)
    requires 0 < size && 0 <= count
    ensures begin <= addr < begin + size * count && (addr - begin) % size == 0
       <==> exists b {:trigger b * size} :: 0 <= b < count && addr == begin + b * size
  {
    if begin <= addr < begin + size * count && (addr - begin) % size == 0 {
      OwnedIsBlock(addr - begin, size, count);
      assert addr == begin + ((addr - begin) / size) * size;
    }
    if b :| 0 <= b < count && addr == begin + b * size {
      BlocksAreApart(b, count, size);
      QuotientIs(addr - begin, size, b, 0);
    }
  }

  lemma OwnedIsBlock(at: int, size: int, count: int)
    requires 0 < size && 0 <= count && 0 <= at < size * count && at % size == 0
    ensures 0 <= at / size < count && at == (at / size) * size
  {
    var b := at / size;
    assert at == b * size;
    Product(b, size);
    Product(b - count, size);
    assert (b - count) * size == b * size - size * count;
  }

  class Pool {
    const blockSize: nat
    const blockCount: nat
    const link: array<int>
    var freeHead: int
    var used: nat
    ghost var free: seq<int>

    ghost predicate Valid()
      reads this, link
    {
      && 0 < blockSize && link.Length == blockCount && Path(link[..], free) && Distinct(free)
      && freeHead == First(free) && used + |free| == blockCount
    }

    /** The blocks that are out. */
    ghost predicate Lent(b: int)
      reads this
    {
      0 <= b < blockCount && b !in free
    }

    /** No pool when a size does not fit; size is what a block really takes, room for a free-list pointer at least. */
    static method New(size: nat, count: nat, pointerSize: nat, alignment: nat, granted: bool) returns (r: Pool?)
      requires 0 < size <= SizeMax() && 0 < count && 0 < pointerSize <= SizeMax() && 0 < alignment
               && PowerOfTwo(alignment)
      ensures r != null <==>
        var want := if size < pointerSize then pointerSize else size;
        granted && want + (alignment - 1) <= SizeMax() && AlignUp(want, alignment) * count <= SizeMax()
      ensures r != null ==> fresh(r) && fresh(r.link) && r.Valid() && r.used == 0 && r.blockCount == count
      ensures r != null ==> r.free == Ids(0, count)
      ensures r != null ==> LeastMultiple(r.blockSize, if size < pointerSize then pointerSize else size, alignment)
    {
      hide AlignUp, SizeMax, PowerOfTwo, Path, Distinct, Ids;
      var want := if size < pointerSize then pointerSize else size;
      if want > SizeMax() - (alignment - 1) {
        return null;
      }
      var blockSize := AlignUp(want, alignment);
      AlignUpIsLeast(want, alignment);
      if blockSize * count > SizeMax() || !granted {
        return null;
      }
      var pool := new Pool(blockSize, count);
      pool.BuildFreeList();
      return pool;
    }

    constructor (size: nat, count: nat)
      ensures blockSize == size && blockCount == count && used == 0 && fresh(link) && link.Length == count
    {
      blockSize, blockCount, link := size, count, new int[count];
      freeHead, used, free := -1, 0, [];
    }

    /** Chains all blocks from the last to the first, so that they are lent from the first on. */
    method BuildFreeList()
      requires 0 < blockSize && link.Length == blockCount && used == 0
      modifies this`freeHead, this`free, link
      ensures Valid() && free == Ids(0, blockCount)
    {
      hide Path, Distinct, Ids;
      freeHead, free := -1, [];
      NoneFree(link[..], blockCount);
      var i := blockCount;
      while i > 0
        invariant 0 <= i <= blockCount && free == Ids(i, blockCount) && freeHead == First(free)
        invariant Path(link[..], free) && Distinct(free)
      {
        ghost var l := link[..];
        OneMore(free, i - 1, blockCount);
        GivenBack(l, free, i - 1);
        link[i - 1] := freeHead;
        assert link[..] == l[i - 1 := freeHead];
        free := [i - 1] + free;
        freeHead := i - 1;
        i := i - 1;
      }
      IdsFacts(0, blockCount);
      IdsSize(0, blockCount);
    }

    method Alloc(size: nat) returns (ptr: Pointer)
      requires Valid()
      modifies this
      ensures Valid()
      ensures ptr.At? <==> 0 < size <= blockSize && old(free) != []
      ensures ptr.At? ==>
        var b := old(free)[0];
        && ptr.offset == b * blockSize && free == old(free)[1..] && used == old(used) + 1
        && Lent(b) && !old(Lent(b)) && forall c :: c != b ==> Lent(c) == old(Lent(c))
      ensures ptr.Null? ==> free == old(free) && used == old(used)
    {
      hide Path, Distinct, First;
      if size == 0 || size > blockSize {
        return Null;
      }
      FirstOrNone(free);
      if free != [] {
        Taken(link[..], free);
      }
      if freeHead == -1 {
        return Null;
      }
      var node := freeHead;
      BlocksAreApart(node, node + 1, blockSize);
      freeHead := link[node];
      used := used + 1;
      free := free[1..];
      ptr := At(node * blockSize);
    }

    /** A lent block goes to the front of the free list; null is ignored. */
    method Dealloc(b: int)
      requires Valid() && (b == -1 || Lent(b))
      modifies this, link
      ensures Valid() && free == if b == -1 then old(free) else [b] + old(free)
      ensures b != -1 ==> used == old(used) - 1
      ensures forall c :: Lent(c) == (old(Lent(c)) && c != b)
    {
      hide Path, Distinct;
      if b == -1 {
        return;
      }
      ghost var l := link[..];
      GivenBack(l, free, b);
      MoreThanFree(free, b, blockCount, l);
      link[b] := freeHead;
      assert link[..] == l[b := freeHead];
      freeHead := b;
      used := used - 1;
      free := [b] + free;
    }

    /** The client writes into a block it was lent. */
    method ClientWrites(b: int, v: int)
      requires Valid() && Lent(b)
      modifies link
      ensures Valid() && free == old(free) && link[..] == old(link[..])[b := v]
    {
      hide Path, Distinct;
      LentWritten(link[..], free, b, v);
      ghost var l := link[..];
      link[b] := v;
      assert link[..] == l[b := v];
    }

    /** Every block is taken back. */
    method Reset()
      requires Valid()
      modifies this, link
      ensures Valid() && used == 0 && free == Ids(0, blockCount) && forall b :: !Lent(b)
    {
      used := 0;
      BuildFreeList();
      AllFree(blockCount);
    }
  }

  lemma NoneFree(link: seq<int>, n: int)
    ensures Path(link, []) && Distinct<int>([]) && Ids(n, n) == []
  {
  }

  lemma OneMore(free: seq<int>, b: int, n: int)
    requires b < n && free == Ids(b + 1, n)
    ensures [b] + free == Ids(b, n) && b !in free
  {
  }

  lemma AllFree(n: nat)
    ensures forall b :: 0 <= b < n ==> b in Ids(0, n)
  {
    forall b | 0 <= b < n ensures b in Ids(0, n) {
      assert Ids(0, n)[b] == b;
    }
  }

  lemma FirstOrNone(s: seq<int>)
    ensures s == [] ==> First(s) == -1
    ensures s != [] ==> First(s) == s[0]
  {
  }

  /** A lent block is missing from the free list, so the list is shorter than the pool. */
  lemma MoreThanFree(free: seq<int>, b: int, n: int, link: seq<int>)
    requires Path(link, free) && Distinct(free) && |link| == n && 0 <= b < n && b !in free
    ensures |free| < n
  {
    DistinctInRange([b] + free, n);
  }

  lemma {:induction false} DistinctInRange(s: seq<int>, n: nat)
    requires Distinct(s) && forall i :: 0 <= i < |s| ==> 0 <= s[i] < n
    ensures |s| <= n
    decreases n
  {
    if s != [] {
      assert 0 <= s[0] < n;
      if i :| 0 <= i < |s| && s[i] == n - 1 {
        DistinctInRange(s[..i] + s[i + 1..], n - 1);
      } else {
        DistinctInRange(s, n - 1);
      }
    }
  }
}
