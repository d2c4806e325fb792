/** The priority queue (src/ds/pqueue.c): a vec kept as a heap under the comparator it was built with. */
module PQueues {
  import opened Allocators
  import opened Ordering
  import opened Heaps
  import opened Vecs
  import opened Growth
  import opened Introsort

  /** The front elems of a block, one by one. */
  ghost predicate Front<T>(data: array<T>, h: seq<T>)
    reads data
  {
    |h| <= data.Length && forall k :: 0 <= k < |h| ==> data[0 + k] == h[k]
  }

  lemma FrontSlice<T>(data: array<T>, h: seq<T>, n: int)
    requires 0 <= n <= data.Length
    ensures Front(data, data[..n])
    ensures Front(data, h) && |h| == n ==> data[..n] == h
  {
  }

  lemma HeapFront<T>(cmp: (T, T) -> int, h: seq<T>, n: int)
    requires 0 <= n <= |h| && HeapFrom(cmp, h, n, 0)
    ensures IsHeap(cmp, h[..n])
  {
  }

  lemma HeapGrown<T>(cmp: (T, T) -> int, h: seq<T>, x: T)
    requires IsHeap(cmp, h)
    ensures HeapFrom(cmp, h + [x], |h|, 0)
  {
  }

  lemma HeapIs<T>(cmp: (T, T) -> int, h: seq<T>)
    ensures IsHeap(cmp, h) <==> HeapFrom(cmp, h, |h|, 0)
    ensures h == [] ==> IsHeap(cmp, h)
  {
  }

  /** What is left when the greatest elem has been parked at the end and dropped. */
  lemma Dropped<T>(h0: seq<T>, h: seq<T>)
    requires 0 < |h0| == |h| && multiset(h) == multiset(h0) && h[|h| - 1] == h0[0]
    ensures multiset(h[..|h| - 1]) == multiset(h0) - multiset{h0[0]}
  {
    assert h == h[..|h| - 1] + [h[|h| - 1]];
  }

  /** A greatest elem of a bag. */
  ghost predicate IsTop<T>(cmp: (T, T) -> int, x: T, bag: multiset<T>) {
    x in bag && forall y :: y in bag ==> cmp(y, x) <= 0
  }

  lemma RootIsTop<T(!new)>(cmp: (T, T) -> int, h: seq<T>)
    requires IsOrder(cmp) && IsHeap(cmp, h) && h != []
    ensures IsTop(cmp, h[0], multiset(h))
  {
    forall y | y in multiset(h) ensures cmp(y, h[0]) <= 0 {
      var k :| 0 <= k < |h| && h[k] == y;
      HeapTop(cmp, h, |h|, k);
    }
  }

  class PQueue<T(!new)> {
    var vec: Vec<T>
    var cmp: (T, T) -> int

    ghost predicate Valid()
      reads this, vec, vec.data
    {
      vec.Valid() && IsOrder(cmp) && IsHeap(cmp, vec.Elems())
    }

    /** Everything the queue holds. */
    ghost function Bag(): multiset<T>
      reads this, vec, vec.data
    {
      multiset(vec.Elems())
    }

    /** What the queue holds of its allocator besides itself. */
    ghost function Blocks(): (r: set<object>)
      reads this, vec
    {
      {vec as object} + vec.Blocks()
    }

    ghost predicate Owned()
      reads this, vec, vec.al
    {
      Blocks() <= vec.al.lent
    }

    ghost function Others(): (r: set<object>)
      reads this, vec, vec.al
    {
      vec.al.lent - Blocks()
    }

    lemma BlocksAre()
      ensures vec !in vec.Blocks() && Others() == vec.Others() - {vec}
      ensures Owned() <==> vec.Owned() && vec in vec.Others()
    {
    }

    /** A queue around a vec that is a heap already. */
    constructor Wrap(v: Vec<T>, order: (T, T) -> int)
      requires v.Valid() && IsOrder(order) && IsHeap(order, v.Elems())
      ensures Valid() && vec == v && cmp == order
    {
      vec, cmp := v, order;
    }

    /** A queue of the given elems, made a heap in place. The vec asks the allocator for itself and for its block, the
        queue for itself; a refusal of any leaves no queue. */
    static method FromData(elems: array<T>, elemSize: nat, order: (T, T) -> int, al: Allocator, grants: nat,
                           grant: nat -> bool) returns (r: PQueue?<T>)
      requires IsOrder(order) && 0 < elemSize && elems.Length <= Bits.SizeMax()
      modifies al
      ensures r != null <==> 2 <= grants && (elems.Length == 0 || Fits(elems.Length, elemSize, grant))
      ensures r == null ==> al.lent == old(al.lent)
      ensures r != null ==> r.vec.al == al && r.Owned() && r.Others() == old(al.lent) + {r}
      ensures r != null ==> fresh(r) && fresh(r.vec) && fresh(r.vec.data) && r.Valid() && r.cmp == order
      ensures r != null ==> r.Bag() == multiset(elems[..])
    {
      hide Fits;
      var v := Vec.FromData(elems, elems.Length, elemSize, al, 1 <= grants, grant);
      if v == null {
        return null;
      }
      assert elems[..elems.Length] == elems[..];
      Heapify(v, order);
      r := NewAround(v, order, 2 <= grants);
    }

    /** wrap: the queue takes the vec over, or, when the request for the queue is refused, the vec is dropped. */
    static method NewAround(v: Vec<T>, order: (T, T) -> int, granted: bool) returns (r: PQueue?<T>)
      requires v.Valid() && IsOrder(order) && IsHeap(order, v.Elems()) && v.Owned() && v in v.al.lent
      modifies v, v.al
      ensures r != null <==> granted
      ensures r == null ==> v.al.lent == old(v.Others()) - {v}
      ensures r != null ==> fresh(r) && r.Valid() && r.vec == v && r.cmp == order && v.data == old(v.data)
      ensures r != null ==> v.Elems() == old(v.Elems()) && v.al.lent == old(v.al.lent) + {r} && r.Owned()
    {
      hide IsHeap, IsOrder;
      if !granted {
        v.Drop();
        return null;
      }
      r := new PQueue.Wrap(v, order);
      v.al.Lend(r);
    }

    /** tda_pqueue_drop: the vec, then the queue itself. */
    method Drop()
      requires Valid() && Owned() && this in vec.al.lent
      modifies vec, vec.al
      ensures vec.al.lent == old(Others()) - {this}
    {
      vec.Drop();
      vec.al.TakeBack(this);
    }

    static method Heapify(v: Vec<T>, order: (T, T) -> int)
      requires v.Valid() && IsOrder(order)
      modifies v.data
      ensures v.Valid() && IsHeap(order, v.Elems()) && multiset(v.Elems()) == multiset(old(v.Elems()))
    {
      hide IsHeap, HeapFrom, IsOrder;
      FrontSlice(v.data, [], v.len);
      ghost var h, cost := MakeHeap(v.data, 0, v.len, order, v.Elems());
      assert Front(v.data, h);
      FrontSlice(v.data, h, v.len);
      HeapIs(order, h);
    }

    method Top() returns (x: T)
      requires Valid() && 0 < vec.len
      ensures IsTop(cmp, x, Bag()) && x == vec.Elems()[0]
    {
      RootIsTop(cmp, vec.Elems());
      return vec.data[0];
    }

    method Push(val: T, grant: nat -> bool) returns (ok: bool)
      requires Valid() && Owned()
      modifies this, vec, vec.data, vec.al
      ensures Owned() && Others() == old(Others())
      ensures Valid() && vec == old(vec) && cmp == old(cmp) && (vec.data == old(vec.data) || fresh(vec.data))
      ensures ok == (old(vec.len) < old(vec.data.Length)
                     || old(vec.data.Length) < Grown(old(vec.data.Length), vec.elemSize, grant))
      ensures Bag() == if ok then old(Bag()) + multiset{val} else old(Bag())
      ensures !ok ==> vec.Elems() == old(vec.Elems())
    {
      hide IsHeap, HeapFrom, IsOrder, Grown, Fits;
      ghost var h0 := vec.Elems();
      BlocksAre();
      ok := vec.Push(val, grant);
      BlocksAre();
      if ok {
        Raise(vec, cmp, h0, val);
      }
    }

    /** The last elem finds its place in the heap before it. */
    static method Raise(v: Vec<T>, order: (T, T) -> int, ghost h0: seq<T>, ghost val: T)
      requires v.Valid() && IsOrder(order) && IsHeap(order, h0) && v.Elems() == h0 + [val]
      modifies v.data
      ensures v.Valid() && IsHeap(order, v.Elems()) && multiset(v.Elems()) == multiset(h0) + multiset{val}
    {
      hide IsHeap, HeapFrom, IsOrder, Counting.Log2;
      HeapGrown(order, h0, val);
      FrontSlice(v.data, [], v.len);
      ghost var h, cost := PushHeap(v.data, 0, v.len, order, h0 + [val]);
      assert Front(v.data, h);
      FrontSlice(v.data, h, v.len);
      HeapIs(order, h);
      assert multiset(h0 + [val]) == multiset(h0) + multiset{val};
    }

    /** Takes out the elem top showed. */
    method Pop()
      requires Valid() && 0 < vec.len
      modifies vec, vec.data
      ensures Valid() && vec.data == old(vec.data) && vec.len == old(vec.len) - 1
      ensures Bag() == old(Bag()) - multiset{old(vec.Elems()[0])}
    {
      hide IsHeap, HeapFrom, IsOrder, Counting.Log2;
      ghost var h0 := vec.Elems();
      FrontSlice(vec.data, [], vec.len);
      HeapIs(cmp, h0);
      ghost var h, cost := PopHeap(vec.data, 0, vec.len, cmp, h0);
      assert Front(vec.data, h);
      FrontSlice(vec.data, h, vec.len);
      HeapFront(cmp, h, vec.len - 1);
      Dropped(h0, h);
      vec.Pop();
    }

    method Clear()
      requires Valid()
      modifies vec
      ensures Valid() && Bag() == multiset{} && vec.data == old(vec.data)
    {
      HeapIs<T>(cmp, []);
      hide IsHeap, IsOrder;
      vec.Clear();
    }

    /** A queue with the same arrangement of the same elems under the same comparator. */
    method CopyWith(al: Allocator, grants: nat, grant: nat -> bool) returns (r: PQueue?<T>)
      requires Valid()
      modifies al
      ensures r != null <==> 2 <= grants && (vec.len == 0 || Fits(vec.len, vec.elemSize, grant))
      ensures r == null ==> al.lent == old(al.lent)
      ensures r != null ==> r.vec.al == al && r.Owned() && r.Others() == old(al.lent) + {r}
      ensures r != null ==> fresh(r) && fresh(r.vec) && fresh(r.vec.data) && r.Valid()
      ensures r != null ==> r.cmp == cmp && r.vec.Elems() == vec.Elems()
    {
      hide IsHeap, IsOrder, Fits;
      var v := vec.CopyWith(al, 1 <= grants, grant);
      if v == null {
        return null;
      }
      r := NewAround(v, cmp, 2 <= grants);
    }

    /** Elems and comparator are taken over together, so the heap order that held here holds there. */
    method CopyAssign(other: PQueue<T>, grant: nat -> bool) returns (ok: bool)
      requires Valid() && other.Valid() && vec.elemSize == other.vec.elemSize
      requires this == other || (vec != other.vec && vec.data != other.vec.data)
      requires other.Owned()
      modifies other, other.vec, other.vec.data, other.vec.al
      ensures other.Owned() && other.Others() == old(other.Others())
      ensures Valid() && other.Valid() && vec.Elems() == old(vec.Elems()) && other.vec == old(other.vec)
      ensures other.vec.data == old(other.vec.data) || fresh(other.vec.data)
      ensures ok == (this == other || vec.len <= old(other.vec.data.Length) || Fits(vec.len, vec.elemSize, grant))
      ensures ok ==> other.vec.Elems() == vec.Elems() && other.cmp == cmp
      ensures !ok ==> other.vec.Elems() == old(other.vec.Elems()) && other.cmp == old(other.cmp)
    {
      hide IsHeap, IsOrder, Fits;
      if this == other {
        return true;
      }
      other.BlocksAre();
      ok := vec.CopyAssign(other.vec, grant);
      other.BlocksAre();
      if !ok {
        return;
      }
      other.cmp := cmp;
    }

    /** Elems and comparator are handed over together; this queue keeps its comparator and no elems. */
    method MoveAssign(other: PQueue<T>, granted: bool, grant: nat -> bool) returns (ok: bool)
      requires Valid() && other.Valid() && vec.elemSize == other.vec.elemSize
      requires this == other || (vec != other.vec && vec.data != other.vec.data)
      requires Owned() && other.Owned()
      modifies other, vec, other.vec, vec.al, other.vec.al
      ensures this == other || !ok ==> vec.al.lent == old(vec.al.lent) && other.vec.al.lent == old(other.vec.al.lent)
      ensures ok && this != other && vec.al == other.vec.al ==> vec.al.lent == old(other.vec.Others())
      ensures ok && vec.al != other.vec.al ==>
        Owned() && Others() == old(Others()) && other.Owned() && other.Others() == old(other.Others())
      ensures Valid() && other.Valid() && vec == old(vec) && other.vec == old(other.vec) && cmp == old(cmp)
      ensures ok == (this == other || vec.al == other.vec.al
                     || (granted && (old(vec.len) == 0 || Fits(old(vec.len), vec.elemSize, grant))))
      ensures ok && this != other ==> Bag() == multiset{} && other.vec.Elems() == old(vec.Elems()) && other.cmp == cmp
      ensures this == other || !ok ==>
        vec.Elems() == old(vec.Elems()) && other.vec.Elems() == old(other.vec.Elems()) && other.cmp == old(other.cmp)
    {
      HeapIs<T>(cmp, []);
      hide IsHeap, IsOrder, vec.Elems, Fits;
      if this == other {
        return true;
      }
      BlocksAre();
      other.BlocksAre();
      ok := vec.MoveAssign(other.vec, granted, grant);
      BlocksAre();
      other.BlocksAre();
      if !ok {
        return;
      }
      other.cmp := cmp;
    }

    /** Buffers and comparators trade places together. */
    method Swap(other: PQueue<T>)
      requires Valid() && other.Valid() && vec.elemSize == other.vec.elemSize && vec.al == other.vec.al
      requires this == other || (vec != other.vec && vec.data != other.vec.data)
      modifies this, other, vec, other.vec
      ensures Valid() && other.Valid() && vec == old(vec) && other.vec == old(other.vec)
      ensures vec.Elems() == old(other.vec.Elems()) && cmp == old(other.cmp)
      ensures other.vec.Elems() == old(vec.Elems()) && other.cmp == old(cmp)
    {
      hide IsHeap, IsOrder;
      if this == other {
        return;
      }
      vec.Swap(other.vec);
      cmp, other.cmp := other.cmp, cmp;
    }

    /** Serving until nothing is left: every elem once, the greatest first. */
    method Drain() returns (served: seq<T>)
      requires Valid()
      modifies vec, vec.data
      ensures Valid() && Bag() == multiset{}
      ensures multiset(served) == old(Bag()) && Sorted(Flip(cmp), served)
    {
      hide IsHeap, IsOrder, Sorted;
      served := [];
      ghost var all := Bag();
      NothingServed(cmp, all);
      while 0 < vec.len
        invariant Valid() && vec.data == old(vec.data) && vec == old(vec) && cmp == old(cmp)
        invariant multiset(served) + Bag() == all && Serving(cmp, served, Bag())
        decreases vec.len
      {
        var x := Top();
        ServeOne(cmp, served, x, Bag());
        Pop();
        served := served + [x];
      }
      assert vec.Elems() == [];
    }
  }

  /** What was served so far is in order, and none of it is less than what is still there. */
  ghost predicate Serving<T>(cmp: (T, T) -> int, served: seq<T>, bag: multiset<T>) {
    Sorted(Flip(cmp), served) && forall i, y :: 0 <= i < |served| && y in bag ==> cmp(y, served[i]) <= 0
  }

  lemma NothingServed<T>(cmp: (T, T) -> int, bag: multiset<T>)
    ensures Serving(cmp, [], bag)
  {
  }

  lemma ServeOne<T>(cmp: (T, T) -> int, served: seq<T>, x: T, bag: multiset<T>)
    requires Serving(cmp, served, bag) && IsTop(cmp, x, bag)
    ensures Serving(cmp, served + [x], bag - multiset{x})
    ensures multiset(served + [x]) + (bag - multiset{x}) == multiset(served) + bag
  {
  }

  /** Under one order, queues that hold the same elems serve elems that compare equal at every step. */
  lemma DrainsAgree<T(!new)>(cmp: (T, T) -> int, r: seq<T>, s: seq<T>, n: int)
    requires IsOrder(cmp) && Sorted(Flip(cmp), r) && Sorted(Flip(cmp), s) && multiset(r) == multiset(s) && 0 <= n < |r|
    ensures |r| == |s| && cmp(r[n], s[n]) == 0
  {
    assert |multiset(r)| == |r| && |multiset(s)| == |s|;
    var d := Flip(cmp);
    assert IsOrder(d) by {
      forall x, y ensures d(x, y) < 0 <==> d(y, x) > 0 {
        assert cmp(x, y) < 0 <==> cmp(y, x) > 0;
      }
    }
    assert NthSettled(d, r, n) && NthSettled(d, s, n);
    SettledAgree(d, r, s, n);
  }
}
