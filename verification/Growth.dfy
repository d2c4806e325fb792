/** The growth policy the vec and the deque share (next_cap and grow in src/ds/vec.c and src/ds/deque.c). */
module Growth {
  import opened Bits

  /** Twice the capacity, as long as size_t holds it. */
  function NextCap(cap: nat): nat {
    if cap == 0 then 1 else if 2 * cap > SizeMax() then SizeMax() else 2 * cap
  }

  /** Whether a block of cap elems has a size, and the allocator grants it. */
  ghost predicate Fits(cap: nat, elemSize: nat, grant: nat -> bool) {
    cap * elemSize <= SizeMax() && grant(cap)
  }

  /** The capacity after growing a full ring: doubled, or one more when that is refused, or the same when both are. */
  ghost function Grown(cap: nat, elemSize: nat, grant: nat -> bool): (r: nat)
    ensures cap <= SizeMax() ==> cap <= r <= SizeMax()
  {
    if cap >= SizeMax() then cap
    else if Fits(NextCap(cap), elemSize, grant) then NextCap(cap)
    else if cap + 1 < NextCap(cap) && Fits(cap + 1, elemSize, grant) then cap + 1
    else cap
  }

  /** The three outcomes of growing a full block: twice the slots (one for none, and SIZE_MAX when size_t holds no
      double), else one slot more, else no block. */
  lemma GrownIs(cap: nat, elemSize: nat, grant: nat -> bool)
    requires cap <= SizeMax()
    ensures var twice := if cap == 0 then 1 else if cap + cap <= SizeMax() then cap + cap else SizeMax();
            var eager := twice * elemSize <= SizeMax() && grant(twice);
            var exact := (cap + 1) * elemSize <= SizeMax() && grant(cap + 1);
            && (cap < SizeMax() && eager ==> Grown(cap, elemSize, grant) == twice)
            && (cap < SizeMax() && !eager && exact ==> Grown(cap, elemSize, grant) == cap + 1)
            && (cap == SizeMax() || (!eager && !exact) ==> Grown(cap, elemSize, grant) == cap)
  {
  }

  /** The capacity after making room for newLen elems at once: doubled when that is more and is granted, else exactly
      newLen, else as it was. */
  ghost function Sized(cap: nat, newLen: nat, elemSize: nat, grant: nat -> bool): (r: nat) {
    if newLen <= cap then cap
    else if NextCap(cap) > newLen && Fits(NextCap(cap), elemSize, grant) then NextCap(cap)
    else if Fits(newLen, elemSize, grant) then newLen
    else cap
  }

  lemma SizedIs(cap: nat, newLen: nat, elemSize: nat, grant: nat -> bool)
    requires cap < newLen <= SizeMax()
    ensures var twice := if cap + cap <= SizeMax() then cap + cap else SizeMax();
            var eager := newLen < twice && twice * elemSize <= SizeMax() && grant(twice);
            var exact := newLen * elemSize <= SizeMax() && grant(newLen);
            && (eager ==> Sized(cap, newLen, elemSize, grant) == twice)
            && (!eager && exact ==> Sized(cap, newLen, elemSize, grant) == newLen)
            && (!eager && !exact ==> Sized(cap, newLen, elemSize, grant) == cap)
  {
  }
}
