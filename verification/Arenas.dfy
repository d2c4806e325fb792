/** The arena allocator (src/alloc/arena.c): blocks cut off the front of one buffer, the last of which can still grow,
    shrink, or be taken back with all the others at once. A pointer is the index of a byte of the buffer. */
module Arenas {
  import opened Bits
  import opened Alignment

  datatype Pointer = Null | At(start: nat)

  /** tda_ckd_align_up: whether the rounding overflows, and the result when it does not. */
  method CkdAlignUp(val: nat, alignment: nat) returns (overflow: bool, out: nat)
    requires PowerOfTwo(alignment) && 0 < alignment && val <= SizeMax()
    ensures overflow <==> val + (alignment - 1) > SizeMax()
    ensures !overflow ==> out == AlignUp(val, alignment) && LeastMultiple(out, val, alignment)
  {
    hide *;
    if val + (alignment - 1) > SizeMax() {
      return true, 0;
    }
    AlignUpIsLeast(val, alignment);
    return false, AlignUp(val, alignment);
  }

  /** Every lent block starts aligned, has bytes, and lies below offset with its padding. */
  ghost predicate Placed(live: map<int, int>, offset: int, alignment: nat)
    requires 0 < alignment
  {
    forall s {:trigger live[s]} :: s in live ==>
      0 <= s && s % alignment == 0 && 0 < live[s] && live[s] + (alignment - 1) <= SizeMax()
      && s + AlignUp(live[s], alignment) <= offset
  }

  /** No two lent blocks overlap. */
  ghost predicate Separate(live: map<int, int>, alignment: nat)
    requires 0 < alignment
  {
    forall s, t :: s in live && t in live && s < t ==> 0 <= live[s] && s + AlignUp(live[s], alignment) <= t
  }

  lemma BlockCut(live: map<int, int>, offset: nat, alignment: nat, size: nat)
    requires 0 < alignment && Placed(live, offset, alignment) && Separate(live, alignment)
    requires PowerOfTwo(alignment) && offset % alignment == 0 && 0 < size && size + (alignment - 1) <= SizeMax()
    requires LeastMultiple(AlignUp(size, alignment), size, alignment)
    ensures var end := offset + AlignUp(size, alignment);
            && Placed(live[offset := size], end, alignment) && Separate(live[offset := size], alignment)
            && end % alignment == 0 && offset !in live && offset + size <= end
  {
    hide AlignUp, SizeMax, PowerOfTwo;
    SumIsMultiple(offset, AlignUp(size, alignment), alignment);
    forall s | s in live ensures s < offset {
      assert 0 < live[s];
      RoomIsPositive(live[s], alignment);
    }
  }

  lemma RoomIsPositive(size: nat, alignment: nat)
    requires 0 < alignment && 0 < size && size + (alignment - 1) <= SizeMax()
    ensures PowerOfTwo(alignment) ==> size <= AlignUp(size, alignment)
  {
    if PowerOfTwo(alignment) {
      AlignUpIsLeast(size, alignment);
    }
  }

  lemma BlockResized(live: map<int, int>, offset: nat, alignment: nat, start: nat, size: nat)
    requires 0 < alignment && PowerOfTwo(alignment) && Placed(live, offset, alignment) && Separate(live, alignment)
    requires start in live && start + AlignUp(live[start], alignment) == offset
    requires 0 < size && size + (alignment - 1) <= SizeMax()
    requires LeastMultiple(AlignUp(size, alignment), size, alignment)
    ensures var end := start + AlignUp(size, alignment);
            && Placed(live[start := size], end, alignment) && Separate(live[start := size], alignment)
            && end % alignment == 0 && start + size <= end
  {
    hide AlignUp, SizeMax, PowerOfTwo;
    SumIsMultiple(start, AlignUp(size, alignment), alignment);
    assert 0 < live[start];
    forall s | s in live && s != start ensures s < start {
      assert 0 < live[s];
      RoomIsPositive(live[s], alignment);
    }
  }

  lemma BlockGone(live: map<int, int>, offset: int, alignment: nat, start: int)
    requires 0 < alignment && Placed(live, offset, alignment) && Separate(live, alignment)
    ensures Placed(live - {start}, offset, alignment) && Separate(live - {start}, alignment)
  {
  }

  class Arena {
    const data: array<int>
    const alignment: nat
    var offset: nat
    ghost var live: map<int, int>

    ghost predicate Valid()
      reads this
    {
      && 0 < alignment && PowerOfTwo(alignment) && offset <= data.Length <= SizeMax() && offset % alignment == 0
      && Placed(live, offset, alignment) && Separate(live, alignment)
    }

    constructor (cap: nat, align: nat)
      requires 0 < cap <= SizeMax() && 0 < align && PowerOfTwo(align)
      ensures Valid() && fresh(data) && data.Length == cap && alignment == align && offset == 0 && live == map[]
    {
      data := new int[cap];
      alignment, offset, live := align, 0, map[];
    }

    /** Blocks lent at the same time share no byte, and stay inside the buffer. */
    lemma BlocksAreApart(s: int, t: int)
      requires Valid() && s in live && t in live
      ensures 0 <= s && s % alignment == 0 && s + live[s] <= offset <= data.Length
      ensures s < t ==> s + live[s] <= t
    {
      hide AlignUp, SizeMax;
      assert 0 < live[s];
      RoomIsPositive(live[s], alignment);
    }

    method Alloc(size: nat) returns (ptr: Pointer)
      requires Valid() && size <= SizeMax()
      modifies this
      ensures Valid()
      ensures ptr.At? <==>
        0 < size && size + (alignment - 1) <= SizeMax() && old(offset) + AlignUp(size, alignment) <= data.Length
      ensures ptr.At? ==> ptr.start == old(offset) && ptr.start !in old(live) && live == old(live)[ptr.start := size]
                          && ptr.start + size <= offset == ptr.start + AlignUp(size, alignment)
      ensures ptr.Null? ==> live == old(live) && offset == old(offset)
    {
      hide SizeMax, PowerOfTwo, Placed, Separate, LeastMultiple, AlignUp;
      if size == 0 {
        return Null;
      }
      var overflow, alignedSize := CkdAlignUp(size, alignment);
      if overflow || offset + alignedSize > SizeMax() || offset + alignedSize > data.Length {
        return Null;
      }
      BlockCut(live, offset, alignment, size);
      ptr := At(offset);
      live := live[offset := size];
      offset := offset + alignedSize;
    }

    method IsLastBlock(ptr: nat, size: nat) returns (r: bool)
      requires Valid() && ptr in live && live[ptr] == size
      ensures r <==> ptr + AlignUp(size, alignment) == offset
      ensures r ==> forall t :: t in live ==> t <= ptr
    {
      hide SizeMax, AlignUp;
      forall t | t in live ensures ptr + AlignUp(size, alignment) == offset ==> t <= ptr {
        assert 0 < live[t];
        RoomIsPositive(live[t], alignment);
      }
      return ptr + AlignUp(size, alignment) == offset;
    }

    /** The last block grows or shrinks where it stands; any other one moves to the end, with as many of its bytes as
        fit. The bytes of every other lent block are left alone. */
    method Realloc(ptr: Pointer, oldSize: nat, newSize: nat) returns (r: Pointer)
      requires Valid() && 0 < newSize <= SizeMax() && (ptr.At? ==> ptr.start in live && live[ptr.start] == oldSize)
      modifies this, data
      ensures Valid()
      ensures r.At? <==>
        newSize + (alignment - 1) <= SizeMax()
        && (if ptr.At? && ptr.start + AlignUp(oldSize, alignment) == old(offset) then ptr.start else old(offset))
           + AlignUp(newSize, alignment) <= data.Length
      ensures r.At? ==>
        && r.start == (if ptr.At? && ptr.start + AlignUp(oldSize, alignment) == old(offset) then ptr.start
                       else old(offset))
        && offset == r.start + AlignUp(newSize, alignment)
      ensures r.Null? ==> live == old(live) && offset == old(offset) && data[..] == old(data[..])
      ensures r.At? ==> live == (if ptr.At? then old(live) - {ptr.start} else old(live))[r.start := newSize]
      ensures r.At? && ptr.At? ==>
        var n := if oldSize < newSize then oldSize else newSize;
        && r.start + n <= data.Length && ptr.start + n <= data.Length
        && data[r.start..r.start + n] == old(data[..])[ptr.start..ptr.start + n]
      ensures forall s, k {:trigger live[s], data[k]} :: s in live && r != At(s) && s <= k < s + live[s] ==>
        k < data.Length && data[k] == old(data[k])
    {
      hide SizeMax, PowerOfTwo, Placed, Separate, LeastMultiple, AlignUp;
      EveryBlockInside();
      if ptr.Null? {
        r := Alloc(newSize);
        EveryBlockInside();
        return;
      }
      var last := IsLastBlock(ptr.start, oldSize);
      if last {
        r := ResizeLast(ptr.start, newSize);
        EveryBlockInside();
        return;
      }
      r := Alloc(newSize);
      EveryBlockInside();
      if r.At? {
        MoveOut(ptr.start, r.start, if oldSize < newSize then oldSize else newSize);
      }
    }

    /** The last block takes another size where it stands. */
    method ResizeLast(start: nat, newSize: nat) returns (r: Pointer)
      requires Valid() && 0 < newSize <= SizeMax() && start in live && 0 <= live[start]
      requires start + AlignUp(live[start], alignment) == offset
      modifies this
      ensures Valid()
      ensures r.At? <==> newSize + (alignment - 1) <= SizeMax() && start + AlignUp(newSize, alignment) <= data.Length
      ensures if r.At? then r.start == start && live == (old(live) - {start})[start := newSize]
                            && offset == start + AlignUp(newSize, alignment)
              else live == old(live) && offset == old(offset)
    {
      hide SizeMax, PowerOfTwo, Placed, Separate, LeastMultiple, AlignUp;
      ghost var was := live;
      var overflow, alignedSize := CkdAlignUp(newSize, alignment);
      if overflow || start + alignedSize > SizeMax() || start + alignedSize > data.Length {
        return Null;
      }
      BlockResized(live, offset, alignment, start, newSize);
      live := live[start := newSize];
      assert live == (was - {start})[start := newSize];
      offset := start + alignedSize;
      return At(start);
    }

    /** The first n bytes of one block go to another, and the first block is given up. */
    method MoveOut(from: nat, to: nat, n: nat)
      requires Valid() && from in live && to in live && from != to && n <= live[from] && n <= live[to]
      modifies this`live, data
      ensures Valid() && offset == old(offset) && live == old(live) - {from}
      ensures from + n <= data.Length && to + n <= data.Length && data[to..to + n] == old(data[..])[from..from + n]
      ensures forall k :: 0 <= k < data.Length && !(to <= k < to + n) ==> data[k] == old(data[k])
    {
      hide SizeMax, PowerOfTwo, Placed, Separate, LeastMultiple, AlignUp;
      BlocksAreApart(from, to);
      BlocksAreApart(to, from);
      forall k | 0 <= k < n {
        data[to + k] := data[from + k];
      }
      BlockGone(live, offset, alignment, from);
      live := live - {from};
    }

    lemma EveryBlockInside()
      requires Valid()
      ensures forall s {:trigger live[s]} :: s in live ==> 0 <= s && s + live[s] <= offset <= data.Length
      ensures forall s, t {:trigger live[s], live[t]} :: s in live && t in live && s < t ==> s + live[s] <= t
    {
      forall s | s in live ensures 0 <= s && s + live[s] <= offset <= data.Length {
        BlocksAreApart(s, s);
      }
      forall s, t | s in live && t in live && s < t ensures s + live[s] <= t {
        BlocksAreApart(s, t);
      }
    }

    /** Individual blocks are not taken back: only the owner forgets this one. */
    ghost method Dealloc(ptr: Pointer)
      requires Valid() && (ptr.At? ==> ptr.start in live)
      modifies this`live
      ensures Valid() && live == if ptr.At? then old(live) - {ptr.start} else old(live)
    {
      if ptr.At? {
        BlockGone(live, offset, alignment, ptr.start);
        live := live - {ptr.start};
      }
    }

    /** All blocks are taken back at once. */
    method Reset()
      requires Valid()
      modifies this
      ensures Valid() && offset == 0 && live == map[]
    {
      offset := 0;
      live := map[];
    }
  }
}
