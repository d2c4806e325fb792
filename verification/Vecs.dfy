/** The growable buffer under the priority queue (src/ds/vec.c): the front of a block that can be exchanged for a larger
    one. */
module Vecs {
  import opened Allocators
  import opened Bits
  import opened Growth

  class Vec<T> {
    var data: array<T>
    var len: nat
    const elemSize: nat
    const al: Allocator

    ghost predicate Valid()
      reads this
    {
      len <= data.Length <= SizeMax() && 0 < elemSize
    }

    ghost function Elems(): seq<T>
      reads this, data
    {
      if len <= data.Length then data[..len] else data[..]
    }

    /** What the vec holds of its allocator besides itself: the block, when it has one. */
    ghost function Blocks(): (r: set<object>)
      reads `data
    {
      if data.Length == 0 then {} else {data}
    }

    ghost predicate Owned()
      reads `data, al
    {
      Blocks() <= al.lent
    }

    /** What its allocator has lent to others. No method touches it, so none loses or steals a block. */
    ghost function Others(): (r: set<object>)
      reads `data, al
    {
      al.lent - Blocks()
    }

    constructor (block: array<T>, size: nat, allocator: Allocator)
      requires 0 < size && block.Length <= SizeMax()
      ensures Valid() && data == block && len == block.Length && elemSize == size && al == allocator
    {
      data, len, elemSize, al := block, block.Length, size, allocator;
    }

    /** A vec of the first n elems of src: one request for it, and one for the block when n is not 0. When the second is
        refused the first is handed back. */
    static method FromData(src: array<T>, n: nat, size: nat, al: Allocator, granted: bool, grant: nat -> bool)
      returns (r: Vec?<T>)
      requires 0 < size && n <= src.Length && n <= SizeMax()
      modifies al
      ensures r != null <==> granted && (n == 0 || Fits(n, size, grant))
      ensures r == null ==> al.lent == old(al.lent)
      ensures r != null ==> fresh(r) && fresh(r.data) && r.Valid() && r.al == al && r.elemSize == size
      ensures r != null ==> r.Elems() == src[..n] && r.len == n == r.data.Length
      ensures r != null ==> r.Owned() && r.Others() == old(al.lent) + {r}
    {
      hide SizeMax;
      if !granted {
        return null;
      }
      var block := new T[n](i requires 0 <= i < src.Length reads src => src[i]);
      assert block[..] == src[..n];
      r := new Vec(block, size, al);
      al.Lend(r);
      if n > 0 {
        if n * size > SizeMax() || !grant(n) {
          al.TakeBack(r);
          return null;
        }
        al.Lend(block);
      }
    }

    /** tda_vec_drop: the block, then the vec itself. */
    method Drop()
      requires Valid() && Owned() && this in al.lent
      modifies this, al
      ensures al.lent == old(Others()) - {this}
    {
      ReleaseData();
      al.TakeBack(this);
    }

    /** Exchanges the block for one of newCap slots and keeps the elems; fill is what the new slots hold until they are
        written. */
    method Reserve(newCap: nat, fill: T, grant: nat -> bool) returns (ok: bool)
      requires Valid() && Owned() && newCap <= SizeMax()
      modifies this, al
      ensures Owned() && Others() == old(Others())
      ensures Valid() && Elems() == old(Elems()) && len == old(len)
      ensures ok == (newCap <= old(data.Length) || Fits(newCap, elemSize, grant))
      ensures if ok && old(data.Length) < newCap then fresh(data) && data.Length == newCap else data == old(data)
    {
      hide SizeMax;
      if newCap <= data.Length {
        return true;
      }
      if newCap * elemSize > SizeMax() || !grant(newCap) {
        return false;
      }
      var block := new T[newCap](_ => fill);
      forall i | 0 <= i < len {
        block[i] := data[i];
      }
      assert block[..len] == data[..len];
      al.Lend(block);
      if data.Length > 0 {
        al.TakeBack(data);
      }
      data := block;
      return true;
    }

    method Push(val: T, grant: nat -> bool) returns (ok: bool)
      requires Valid() && Owned()
      modifies this, data, al
      ensures Owned() && Others() == old(Others())
      ensures Valid() && (data == old(data) || fresh(data))
      ensures ok == (old(len) < old(data.Length) || old(data.Length) < Grown(old(data.Length), elemSize, grant))
      ensures if ok && old(len) == old(data.Length) then data.Length == Grown(old(data.Length), elemSize, grant)
              else data == old(data)
      ensures Elems() == if ok then old(Elems()) + [val] else old(Elems())
    {
      ok := true;
      if len == data.Length {
        ok := Grow(val, grant);
      }
      if !ok {
        return;
      }
      ghost var es := Elems();
      data[len] := val;
      len := len + 1;
      assert data[..len] == es + [val];
    }

    method Grow(fill: T, grant: nat -> bool) returns (ok: bool)
      requires Valid() && Owned() && len == data.Length
      modifies this, al
      ensures Owned() && Others() == old(Others())
      ensures Valid() && Elems() == old(Elems()) && len == old(len)
      ensures ok == (old(data.Length) < Grown(old(data.Length), elemSize, grant))
      ensures if ok then fresh(data) && data.Length == Grown(old(data.Length), elemSize, grant) else data == old(data)
    {
      if data.Length == SizeMax() {
        return false;
      }
      var cap := data.Length;
      var wanted := NextCap(cap);
      hide Elems;
      ok := Reserve(wanted, fill, grant);
      if ok || wanted <= cap + 1 {
        return;
      }
      ok := Reserve(cap + 1, fill, grant);
    }

    method Pop()
      requires Valid() && 0 < len
      modifies this
      ensures Valid() && data == old(data) && Elems() == old(Elems())[..old(len) - 1]
    {
      len := len - 1;
    }

    method Clear()
      requires Valid()
      modifies this
      ensures Valid() && data == old(data) && Elems() == []
    {
      len := 0;
    }

    /** Two vecs of one allocator trade everything. */
    method Swap(other: Vec<T>)
      requires Valid() && other.Valid() && elemSize == other.elemSize && al == other.al
      modifies this, other
      ensures Valid() && other.Valid()
      ensures Elems() == old(other.Elems()) && data == old(other.data)
      ensures other.Elems() == old(Elems()) && other.data == old(data)
    {
      data, other.data := other.data, data;
      len, other.len := other.len, len;
    }

    /** A refusal leaves other as it was. */
    method CopyAssign(other: Vec<T>, grant: nat -> bool) returns (ok: bool)
      requires Valid() && other.Valid() && elemSize == other.elemSize && (this == other || data != other.data)
      requires other.Owned()
      modifies other, other.data, other.al
      ensures other.Owned() && other.Others() == old(other.Others())
      ensures Valid() && other.Valid() && (other.data == old(other.data) || fresh(other.data))
              && Elems() == old(Elems())
      ensures ok == (this == other || len <= old(other.data.Length) || Fits(len, elemSize, grant))
      ensures other.Elems() == if ok then Elems() else old(other.Elems())
      ensures if ok && this != other && old(other.data.Length) < len then other.data.Length == len
              else other.data == old(other.data)
    {
      hide SizeMax, Fits;
      if this == other {
        return true;
      }
      ok := true;
      if len > other.data.Length {
        ok := other.Reserve(len, data[0], grant);
      }
      if !ok {
        return;
      }
      forall i | 0 <= i < len {
        other.data[i] := data[i];
      }
      other.len := len;
      assert other.data[..len] == data[..len];
    }

    /** A vec of the same elems from another allocator: one request for it and one for the block. */
    method CopyWith(allocator: Allocator, granted: bool, grant: nat -> bool) returns (r: Vec?<T>)
      requires Valid()
      modifies allocator
      ensures r != null <==> granted && (len == 0 || Fits(len, elemSize, grant))
      ensures r == null ==> allocator.lent == old(allocator.lent)
      ensures r != null ==> fresh(r) && fresh(r.data) && r.Valid()
      ensures r != null ==> r.al == allocator && r.elemSize == elemSize && r.Elems() == Elems() && r.data.Length == len
      ensures r != null ==> r.Owned() && r.Others() == old(allocator.lent) + {r}
    {
      hide SizeMax, Fits;
      r := FromData(data, len, elemSize, allocator, granted, grant);
    }

    /** Hands everything over: the block within one allocator, a copy between two. */
    method MoveAssign(other: Vec<T>, granted: bool, grant: nat -> bool) returns (ok: bool)
      requires Valid() && other.Valid() && elemSize == other.elemSize && Owned() && other.Owned()
      modifies this, other, al, other.al
      ensures Valid() && other.Valid()
      ensures ok == (this == other || al == other.al
                     || (granted && (old(len) == 0 || Fits(old(len), elemSize, grant))))
      ensures this == other || !ok ==> al.lent == old(al.lent) && other.al.lent == old(other.al.lent)
      ensures ok && this != other && al == other.al ==> al.lent == old(other.Others())
      ensures ok && al != other.al ==>
        al.lent == old(Others()) && other.Owned() && other.Others() == old(other.Others())
      ensures ok && this != other ==> Blocks() == {}
      ensures this == other || !ok ==> Elems() == old(Elems()) && other.Elems() == old(other.Elems())
      ensures ok && this != other ==> Elems() == [] && other.Elems() == old(Elems())
      ensures data == old(data) || fresh(data)
      ensures other.data == old(other.data) || other.data == old(data) || fresh(other.data)
      ensures ok && this != other ==> fresh(data)
    {
      hide SizeMax, Elems, Fits;
      if this == other {
        return true;
      }
      if al == other.al {
        Swap(other);
        ReleaseData();
        return true;
      }
      var obj := CopyWith(other.al, granted, grant);
      if obj == null {
        return false;
      }
      other.Swap(obj);
      obj.Drop();
      ReleaseData();
      return true;
    }

    /** Hands the block back. */
    method ReleaseData()
      requires Valid() && Owned()
      modifies this, al
      ensures al.lent == old(Others()) && Blocks() == {}
      ensures Valid() && Elems() == [] && fresh(data)
    {
      if data.Length > 0 {
        al.TakeBack(data);
      }
      data := new T[0];
      len := 0;
    }
  }
}
