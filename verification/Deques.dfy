/** The ring buffer (src/ds/deque.c): a sequence kept in a block that it may wrap around in. */
module Deques {
  import opened Allocators
  import opened Bits
  import opened Sequences
  import opened Growth

  /** The ring one slot back or on: what its slots read when head moves. */
  ghost function TurnedBack<A>(ring: seq<A>): (r: seq<A>)
    requires 0 < |ring|
    ensures |r| == |ring|
    ensures forall k :: 0 <= k < |r| ==> r[k] == if k == 0 then ring[|ring| - 1] else ring[k - 1]
  {
    [ring[|ring| - 1]] + ring[..|ring| - 1]
  }

  ghost function TurnedOn<A>(ring: seq<A>): (r: seq<A>)
    requires 0 < |ring|
    ensures |r| == |ring|
    ensures forall k :: 0 <= k < |r| ==> r[k] == if k + 1 < |ring| then ring[k + 1] else ring[0]
  {
    ring[1..] + [ring[0]]
  }

  function Min(a: int, b: int): int {
    if a < b then a else b
  }

  // ---------- shifting inside the ring ----------

  /** ring with the elems of [from + 1, from + n] one place to the front. */
  ghost function ShiftedDown<A>(ring: seq<A>, from: int, n: int): (r: seq<A>)
    requires 0 <= from && 0 <= n && from + n < |ring|
    ensures |r| == |ring|
    ensures forall k :: 0 <= k < |r| ==> r[k] == if from <= k < from + n then ring[k + 1] else ring[k]
  {
    seq(|ring|, k requires 0 <= k < |ring| => if from <= k < from + n then ring[k + 1] else ring[k])
  }

  /** ring with the elems of [from, from + n) one place to the back. */
  ghost function ShiftedUp<A>(ring: seq<A>, from: int, n: int): (r: seq<A>)
    requires 0 <= from && 0 <= n && from + n < |ring|
    ensures |r| == |ring|
    ensures forall k :: 0 <= k < |r| ==> r[k] == if from < k <= from + n then ring[k - 1] else ring[k]
  {
    seq(|ring|, k requires 0 <= k < |ring| => if from < k <= from + n then ring[k - 1] else ring[k])
  }

  lemma DownStep<A>(ring: seq<A>, from: int, n: int)
    requires 0 <= from && 0 <= n && from + n + 1 < |ring|
    ensures var r := ShiftedDown(ring, from, n); r[from + n := r[from + n + 1]] == ShiftedDown(ring, from, n + 1)
    ensures ShiftedDown(ring, from, 0) == ring
  {
  }

  lemma UpStep<A>(ring: seq<A>, from: int, n: int)
    requires 0 < from && 0 <= n && from + n < |ring|
    ensures var r := ShiftedUp(ring, from, n); r[from := r[from - 1]] == ShiftedUp(ring, from - 1, n + 1)
    ensures ShiftedUp(ring, from, 0) == ring
  {
  }

  lemma DownNone<A>(ring: seq<A>, from: int)
    requires 0 <= from < |ring|
    ensures ShiftedDown(ring, from, 0) == ring
  {
  }

  lemma UpNone<A>(ring: seq<A>, from: int)
    requires 0 <= from < |ring|
    ensures ShiftedUp(ring, from, 0) == ring
  {
  }

  /** Shifting the front side or the back side of the gap: the elems come out the same. */
  lemma InsertedFront<A>(ring: seq<A>, len: int, i: int, x: A)
    requires 0 <= i <= len < |ring|
    ensures ShiftedDown(TurnedBack(ring), 0, i)[i := x][..len + 1] == InsertAt(ring[..len], i, x)
  {
    var l, r := ShiftedDown(TurnedBack(ring), 0, i)[i := x][..len + 1], InsertAt(ring[..len], i, x);
    forall k | 0 <= k < |l| ensures l[k] == r[k] {
    }
  }

  lemma InsertedBack<A>(ring: seq<A>, len: int, i: int, x: A)
    requires 0 <= i <= len < |ring|
    ensures ShiftedUp(ring, i, len - i)[i := x][..len + 1] == InsertAt(ring[..len], i, x)
  {
  }

  lemma RemovedFront<A>(ring: seq<A>, len: int, i: int)
    requires 0 <= i < len <= |ring|
    ensures TurnedOn(ShiftedUp(ring, 0, i))[..len - 1] == RemoveAt(ring[..len], i)
  {
    var l, r := TurnedOn(ShiftedUp(ring, 0, i))[..len - 1], RemoveAt(ring[..len], i);
    forall k | 0 <= k < |l| ensures l[k] == r[k] {
    }
  }

  lemma RemovedBack<A>(ring: seq<A>, len: int, i: int)
    requires 0 <= i < len <= |ring|
    ensures ShiftedDown(ring, i, len - 1 - i)[..len - 1] == RemoveAt(ring[..len], i)
  {
  }

  /** The slot of a ring position, one lap back when it runs past the end. */
  function SlotOf(head: int, cap: int, idx: int): (slot: int)
    requires 0 <= head < cap && 0 <= idx < cap
    ensures 0 <= slot < cap
  {
    if head + idx < cap then head + idx else head + idx - cap
  }

  /** Position k of the ring is in its slot of the block. */
  ghost predicate Laid<T>(data: array<T>, head: int, ring: seq<T>)
    reads data
  {
    && |ring| == data.Length && (data.Length == 0 || 0 <= head < data.Length)
    && forall k {:trigger ring[k]} :: 0 <= k < |ring| ==> data[SlotOf(head, data.Length, k)] == ring[k]
  }

  lemma LaidBack<T>(data: array<T>, head: int, ring: seq<T>)
    requires Laid(data, head, ring) && 0 < data.Length
    ensures Laid(data, if head == 0 then data.Length - 1 else head - 1, TurnedBack(ring))
  {
    var h, r, cap := if head == 0 then data.Length - 1 else head - 1, TurnedBack(ring), data.Length;
    forall k | 0 <= k < cap ensures data[SlotOf(h, cap, k)] == r[k] {
      var l := if k == 0 then cap - 1 else k - 1;
      assert SlotOf(h, cap, k) == SlotOf(head, cap, l);
      assert r[k] == ring[l];
    }
  }

  lemma LaidOn<T>(data: array<T>, head: int, ring: seq<T>)
    requires Laid(data, head, ring) && 0 < data.Length
    ensures Laid(data, if head + 1 == data.Length then 0 else head + 1, TurnedOn(ring))
  {
    var h, r, cap := if head + 1 == data.Length then 0 else head + 1, TurnedOn(ring), data.Length;
    forall k | 0 <= k < cap ensures data[SlotOf(h, cap, k)] == r[k] {
      var l := if k + 1 == cap then 0 else k + 1;
      assert SlotOf(h, cap, k) == SlotOf(head, cap, l);
      assert r[k] == ring[l];
    }
  }

  lemma LaidFlat<T>(data: array<T>)
    ensures Laid(data, 0, data[..])
  {
  }

  /** Writes a ring position. */
  method WriteSlot<T>(data: array<T>, head: int, idx: int, val: T, ghost ring: seq<T>)
    requires Laid(data, head, ring) && 0 <= idx < |ring|
    modifies data
    ensures |ring| == data.Length && Laid(data, head, ring[idx := val])
  {
    var slot := SlotOf(head, data.Length, idx);
    data[slot] := val;
    ghost var r := ring[idx := val];
    forall k | 0 <= k < |r| ensures data[SlotOf(head, data.Length, k)] == r[k] {
      assert k != idx ==> SlotOf(head, data.Length, k) != slot;
      assert k != idx ==> r[k] == ring[k];
    }
  }

  lemma SlotReads<T>(data: array<T>, head: int, ring: seq<T>, idx: int)
    requires Laid(data, head, ring) && 0 <= idx < |ring|
    ensures |ring| == data.Length && data[SlotOf(head, data.Length, idx)] == ring[idx]
  {
  }

  /** memcpy between two blocks. */
  method CopyRun<T>(dst: array<T>, to: int, src: array<T>, from: int, n: int)
    requires dst != src && 0 <= to && 0 <= from && 0 <= n && to + n <= dst.Length && from + n <= src.Length
    modifies dst
    ensures forall k :: 0 <= k < dst.Length ==> dst[k] == if to <= k < to + n then src[from + k - to] else old(dst[k])
  {
    forall k | 0 <= k < n {
      dst[to + k] := src[from + k];
    }
  }

  // ---------- growth ----------

  /** The length, the capacity, and how many elems growth has moved so far. */
  datatype Load = Load(len: nat, cap: nat, moved: nat)

  /** One more elem, at either end or in between. */
  ghost function Pushed(l: Load, elemSize: nat, grant: nat -> bool): Load {
    if l.len < l.cap then l.(len := l.len + 1)
    else if l.cap < Grown(l.cap, elemSize, grant) then Load(l.len + 1, Grown(l.cap, elemSize, grant), l.moved + l.len)
    else l
  }

  ghost function Popped(l: Load): Load {
    if l.len == 0 then l else l.(len := l.len - 1)
  }

  /** The length set to newLen. */
  ghost function Resized(l: Load, newLen: nat, elemSize: nat, grant: nat -> bool): Load {
    if newLen <= l.cap then l.(len := newLen)
    else if l.cap < Sized(l.cap, newLen, elemSize, grant)
    then Load(newLen, Sized(l.cap, newLen, elemSize, grant), l.moved + l.len)
    else l
  }

  /** A run of pushes, pops and resizes from an empty deque, every request being granted. */
  datatype Op = Push | Pop | Resize(newLen: nat)

  ghost function Run(ops: seq<Op>, elemSize: nat): Load {
    if ops == [] then Load(0, 0, 0) else Done(Run(ops[..|ops| - 1], elemSize), ops[|ops| - 1], elemSize)
  }

  ghost function Done(l: Load, op: Op, elemSize: nat): Load {
    match op
    case Push => Pushed(l, elemSize, _ => true)
    case Pop => Popped(l)
    case Resize(newLen) => Resized(l, newLen, elemSize, _ => true)
  }

  /** How many elems the run adds, one by one or at once. */
  ghost function Added(ops: seq<Op>, elemSize: nat): nat {
    if ops == [] then 0
    else
      var front := ops[..|ops| - 1];
      Added(front, elemSize) + Adds(Run(front, elemSize), ops[|ops| - 1])
  }

  ghost function Adds(l: Load, op: Op): nat {
    match op
    case Push => 1
    case Pop => 0
    case Resize(newLen) => if l.len < newLen then newLen - l.len else 0
  }

  /** A push adds one elem, a pop none, and a resize those between the old length and the new one. */
  lemma AddedAre(ops: seq<Op>, elemSize: nat, newLen: nat)
    ensures Added([], elemSize) == 0
    ensures Added(ops + [Push], elemSize) == Added(ops, elemSize) + 1
    ensures Added(ops + [Pop], elemSize) == Added(ops, elemSize)
    ensures var n := Run(ops, elemSize).len;
            && (newLen <= n ==> Added(ops + [Resize(newLen)], elemSize) == Added(ops, elemSize))
            && (n <= newLen ==> Added(ops + [Resize(newLen)], elemSize) == Added(ops, elemSize) + (newLen - n))
  {
    assert (ops + [Push])[..|ops|] == ops && (ops + [Pop])[..|ops|] == ops && (ops + [Resize(newLen)])[..|ops|] == ops;
  }

  /** What growth has cost when n elems have been added. */
  ghost predicate Amortized(l: Load, n: nat) {
    l.len <= n && l.len <= l.cap <= 2 * n && l.moved <= (if l.cap == 0 then 0 else l.cap - 1)
  }

  /** Growth is amortized: while n elems are added, one by one or by resizing, and however many are taken out again,
      growth moves fewer than 2n elems. */
  lemma {:induction false} GrowthIsAmortized(ops: seq<Op>, elemSize: nat)
    requires 2 * Added(ops, elemSize) * elemSize <= SizeMax() && 0 < elemSize
    ensures Amortized(Run(ops, elemSize), Added(ops, elemSize))
    ensures var l, n := Run(ops, elemSize), Added(ops, elemSize); l.len <= n && l.cap <= 2 * n && l.moved <= 2 * n
    ensures ops != [] && 0 < Added(ops, elemSize) ==> Run(ops, elemSize).moved < 2 * Added(ops, elemSize)
    decreases |ops|
  {
    if ops != [] {
      var front := ops[..|ops| - 1];
      var n := Added(front, elemSize);
      MulOrder(2 * n, 2 * Added(ops, elemSize), elemSize);
      GrowthIsAmortized(front, elemSize);
      GrowsOnce(Run(front, elemSize), ops[|ops| - 1], n, elemSize);
    }
  }

  /** A request for at most m slots is granted when m elems have a size. */
  lemma RoomFor(cap: nat, m: nat, elemSize: nat)
    requires cap <= m && 0 < elemSize && m * elemSize <= SizeMax()
    ensures m <= SizeMax() && Fits(cap, elemSize, _ => true)
  {
    MulOrder(m, m * elemSize, 1);
    MulOrder(cap, m, elemSize);
    MulOrder(m, m, elemSize);
  }

  /** One step of such a run. */
  lemma GrowsOnce(l: Load, op: Op, n: nat, elemSize: nat)
    requires Amortized(l, n) && 0 < elemSize && 2 * (n + Adds(l, op)) * elemSize <= SizeMax()
    ensures Amortized(Done(l, op, elemSize), n + Adds(l, op))
  {
    hide Fits, SizeMax;
    var m := 2 * (n + Adds(l, op));
    RoomFor(0, m, elemSize);
    match op
    case Push =>
      if l.len >= l.cap {
        RoomFor(NextCap(l.cap), m, elemSize);
      }
    case Pop =>
    case Resize(newLen) =>
      if newLen > l.cap {
        RoomFor(newLen, m, elemSize);
        RoomFor(NextCap(l.cap), m, elemSize);
      }
  }

  /** When nothing was resized, growth has moved exactly one elem less than there are slots. */
  lemma {:induction false} PushesMove(ops: seq<Op>, elemSize: nat)
    requires 2 * Added(ops, elemSize) * elemSize <= SizeMax() && 0 < elemSize
    requires forall i :: 0 <= i < |ops| ==> !ops[i].Resize?
    ensures var l := Run(ops, elemSize); l.moved == if l.cap == 0 then 0 else l.cap - 1
    decreases |ops|
  {
    if ops != [] {
      var front := ops[..|ops| - 1];
      var n := Added(front, elemSize);
      MulOrder(2 * n, 2 * Added(ops, elemSize), elemSize);
      GrowthIsAmortized(front, elemSize);
      PushesMove(front, elemSize);
      var l := Run(front, elemSize);
      assert ops[|ops| - 1] in ops;
      if ops[|ops| - 1].Push? && l.len >= l.cap {
        RoomFor(0, 2 * Added(ops, elemSize), elemSize);
        RoomFor(NextCap(l.cap), 2 * Added(ops, elemSize), elemSize);
      }
    }
  }

  lemma MulOrder(a: nat, b: nat, c: nat)
    ensures a <= b ==> a * c <= b * c
    ensures 0 < c ==> a <= a * c
  {
    if a <= b {
      assert (b - a) * c >= 0;
    }
  }

  class Deque<T> {
    var data: array<T>
    var len: nat
    var head: nat
    const elemSize: nat
    const zero: T
    const al: Allocator
    ghost var ring: seq<T>
    ghost var moved: nat

    ghost predicate Valid()
      reads this, data
    {
      && Laid(data, head, ring) && len <= data.Length <= SizeMax() && 0 < elemSize
        && data.Length * elemSize <= SizeMax()
      && (data.Length == 0 ==> head == 0)
    }

    ghost function Elems(): seq<T>
      reads this
    {
      if len <= |ring| then ring[..len] else ring
    }

    /** What the deque holds of its allocator besides itself: the block, when it has one. */
    ghost function Blocks(): (r: set<object>)
      reads `data
    {
      if data.Length == 0 then {} else {data}
    }

    ghost predicate Owned()
      reads `data, al
    {
      Blocks() <= al.lent
    }

    /** What its allocator has lent to others. No method touches it, so none loses or steals a block. */
    ghost function Others(): (r: set<object>)
      reads `data, al
    {
      al.lent - Blocks()
    }

    constructor (size: nat, zeroElem: T, allocator: Allocator)
      requires 0 < size
      ensures Valid() && fresh(data) && Elems() == [] && data.Length == 0 && moved == 0
      ensures elemSize == size && zero == zeroElem && al == allocator
    {
      data := new T[0];
      len, head, elemSize, zero, al := 0, 0, size, zeroElem, allocator;
      ring, moved := [], 0;
    }

    ghost function LoadOf(): Load
      reads this, data
    {
      Load(len, data.Length, moved)
    }

    /** copy_out: the elems unrolled into dst, in at most two runs. */
    method CopyOut(dst: array<T>)
      requires Valid() && dst != data && len <= dst.Length
      modifies dst
      ensures dst[..len] == Elems()
      ensures forall k :: len <= k < dst.Length ==> dst[k] == old(dst[k])
    {
      if len == 0 {
        return;
      }
      var toEnd := data.Length - head;
      var run := if toEnd < len then toEnd else len;
      CopyRun(dst, 0, data, head, run);
      if run < len {
        CopyRun(dst, run, data, 0, len - run);
      }
      forall k | 0 <= k < len ensures dst[k] == ring[k] {
        SlotReads(data, head, ring, k);
      }
    }

    /** copy_in: the elems of src rolled into the ring, where copy_out finds them again. */
    method CopyIn(src: array<T>)
      requires Valid() && src != data && len == src.Length
      modifies this`ring, data
      ensures Valid() && Elems() == src[..]
    {
      if len == 0 {
        return;
      }
      forall k | 0 <= k < |ring| ensures data[SlotOf(head, data.Length, k)] == ring[k] {
        SlotReads(data, head, ring, k);
      }
      var toEnd := data.Length - head;
      var run := if toEnd < len then toEnd else len;
      CopyRun(data, head, src, 0, run);
      if run < len {
        CopyRun(data, 0, src, run, len - run);
      }
      ghost var r := src[..] + ring[len..];
      forall k | 0 <= k < |r| ensures data[SlotOf(head, data.Length, k)] == r[k] {
        assert len <= k ==> old(data[SlotOf(head, data.Length, k)]) == ring[k];
      }
      ring := r;
    }

    /** A block of newCap slots, with the elems unrolled into it; a refusal changes nothing. */
    method Reserve(newCap: nat, grant: nat -> bool) returns (ok: bool)
      requires Valid() && Owned() && newCap <= SizeMax()
      modifies this, al
      ensures Owned() && Others() == old(Others())
      ensures Valid() && Elems() == old(Elems()) && len == old(len)
      ensures ok == (newCap <= old(data.Length) || Fits(newCap, elemSize, grant))
      ensures if ok && old(data.Length) < newCap
              then fresh(data) && data.Length == newCap && moved == old(moved) + len
              else data == old(data) && moved == old(moved) && head == old(head) && ring == old(ring)
    {
      hide Laid, SizeMax;
      if newCap <= data.Length {
        return true;
      }
      if newCap * elemSize > SizeMax() || !grant(newCap) {
        return false;
      }
      var block := new T[newCap](_ => zero);
      LaidSize(data, head, ring);
      CopyOut(block);
      al.Lend(block);
      if data.Length > 0 {
        al.TakeBack(data);
      }
      ghost var es := Elems();
      data, head := block, 0;
      LaidFlat(block);
      ring := block[..];
      assert ring[..len] == es;
      moved := moved + len;
      return true;
    }

    /** Makes len less than the capacity, growing a full ring. */
    method ReserveOne(grant: nat -> bool) returns (ok: bool)
      requires Valid() && Owned()
      modifies this, al
      ensures Owned() && Others() == old(Others())
      ensures Valid() && Elems() == old(Elems()) && len == old(len)
      ensures ok == (old(len) < old(data.Length) || old(data.Length) < Grown(old(data.Length), elemSize, grant))
      ensures ok ==> len < data.Length
      ensures if ok && old(len) == old(data.Length)
              then fresh(data) && data.Length == Grown(old(data.Length), elemSize, grant) && moved == old(moved) + len
              else data == old(data) && moved == old(moved)
    {
      if len < data.Length {
        return true;
      }
      if data.Length == SizeMax() {
        return false;
      }
      var wanted := NextCap(data.Length);
      hide Laid, Valid;
      var cap := data.Length;
      ok := Reserve(wanted, grant);
      if ok || wanted <= cap + 1 {
        return;
      }
      ok := Reserve(cap + 1, grant);
    }

    lemma LoadPushed(was: Load, grant: nat -> bool, ok: bool)
      requires was.len <= was.cap
      requires ok == (was.len < was.cap || was.cap < Grown(was.cap, elemSize, grant))
               && len == was.len + (if ok then 1 else 0)
      requires if ok && was.len == was.cap then data.Length == Grown(was.cap, elemSize, grant)
               && moved == was.moved + was.len
               else data.Length == was.cap && moved == was.moved
      ensures LoadOf() == Pushed(was, elemSize, grant)
    {
    }

    method PushFront(val: T, grant: nat -> bool) returns (ok: bool)
      requires Valid() && Owned()
      modifies this, data, al
      ensures Owned() && Others() == old(Others())
      ensures Valid() && (data == old(data) || fresh(data))
      ensures Elems() == if ok then [val] + old(Elems()) else old(Elems())
      ensures LoadOf() == Pushed(old(LoadOf()), elemSize, grant) && ok == (LoadOf() != old(LoadOf()))
    {
      hide Laid, SizeMax, Fits, Grown;
      ghost var was, es := LoadOf(), Elems();
      ok := ReserveOne(grant);
      if !ok {
        LoadPushed(was, grant, ok);
        return;
      }
      LaidSize(data, head, ring);
      LaidBack(data, head, ring);
      ring := TurnedBack(ring);
      head := if head == 0 then data.Length - 1 else head - 1;
      WriteSlot(data, head, 0, val, ring);
      ring := ring[0 := val];
      len := len + 1;
      LoadPushed(was, grant, ok);
      assert ring[..len] == [val] + es;
    }

    method PushBack(val: T, grant: nat -> bool) returns (ok: bool)
      requires Valid() && Owned()
      modifies this, data, al
      ensures Owned() && Others() == old(Others())
      ensures Valid() && (data == old(data) || fresh(data))
      ensures Elems() == if ok then old(Elems()) + [val] else old(Elems())
      ensures LoadOf() == Pushed(old(LoadOf()), elemSize, grant) && ok == (LoadOf() != old(LoadOf()))
    {
      hide Laid, SizeMax, Fits, Grown;
      ghost var was, es := LoadOf(), Elems();
      ok := ReserveOne(grant);
      if !ok {
        LoadPushed(was, grant, ok);
        return;
      }
      LaidSize(data, head, ring);
      WriteSlot(data, head, len, val, ring);
      ring := ring[len := val];
      len := len + 1;
      LoadPushed(was, grant, ok);
      assert ring[..len] == es + [val];
    }

    method PopFront()
      requires Valid() && 0 < len
      modifies this
      ensures Valid() && data == old(data) && Elems() == old(Elems())[1..] && LoadOf() == Popped(old(LoadOf()))
    {
      hide Laid, SizeMax;
      ghost var es := Elems();
      LaidSize(data, head, ring);
      LaidOn(data, head, ring);
      ring := TurnedOn(ring);
      head := if head + 1 == data.Length then 0 else head + 1;
      len := len - 1;
      assert ring[..len] == es[1..];
    }

    method PopBack()
      requires Valid() && 0 < len
      modifies this
      ensures Valid() && data == old(data) && Elems() == old(Elems())[..old(len) - 1]
              && LoadOf() == Popped(old(LoadOf()))
    {
      LaidSize(data, head, ring);
      len := len - 1;
    }

    /** Copies the elem at one position of the ring over another. */
    method MoveElem(to: int, from: int)
      requires Valid() && 0 <= to < data.Length && 0 <= from < data.Length
      modifies this`ring, data
      ensures Valid() && |old(ring)| == data.Length && ring == old(ring)[to := old(ring)[from]]
    {
      hide Laid, SizeMax;
      LaidSize(data, head, ring);
      SlotReads(data, head, ring, from);
      WriteSlot(data, head, to, data[SlotOf(head, data.Length, from)], ring);
      ring := ring[to := ring[from]];
    }

    /** Makes a gap at idx by shifting one side, whichever takes fewer moves. */
    method Insert(idx: nat, val: T, grant: nat -> bool)
      returns (ok: bool, ghost moves: int)
      requires Valid() && Owned() && idx <= len
      modifies this, data, al
      ensures Owned() && Others() == old(Others())
      ensures Valid() && (data == old(data) || fresh(data)) && idx <= |old(Elems())|
      ensures Elems() == if ok then InsertAt(old(Elems()), idx, val) else old(Elems())
      ensures LoadOf() == Pushed(old(LoadOf()), elemSize, grant) && ok == (LoadOf() != old(LoadOf()))
      ensures moves == if ok then Min(idx, old(len) - idx) else 0
    {
      hide Laid, SizeMax, Fits, Grown, ShiftedDown, ShiftedUp, TurnedBack, InsertAt, Owned, Others;
      ghost var was, es := LoadOf(), Elems();
      moves := 0;
      LaidSize(data, head, ring);
      ok := ReserveOne(grant);
      if !ok {
        LoadPushed(was, grant, ok);
        return;
      }
      LaidSize(data, head, ring);
      ghost var r := ring;
      assert r[..len] == es;
      if idx <= len / 2 {
        InsertedFront(r, len, idx, val);
        moves := OpenFront(idx);
      } else {
        InsertedBack(r, len, idx, val);
        moves := OpenBack(idx);
      }
      LaidSize(data, head, ring);
      WriteSlot(data, head, idx, val, ring);
      ring := ring[idx := val];
      LoadPushed(was, grant, ok);
    }

    method OpenFront(idx: nat) returns (ghost moves: int)
      requires Valid() && idx <= len < data.Length
      modifies this, data
      ensures Valid() && data == old(data) && len == old(len) + 1 && moved == old(moved) && |old(ring)| == data.Length
      ensures moves == idx
      ensures ring == ShiftedDown(TurnedBack(old(ring)), 0, idx)
    {
      hide Laid, SizeMax, ShiftedDown, TurnedBack;
      LaidSize(data, head, ring);
      LaidBack(data, head, ring);
      ring := TurnedBack(ring);
      head := if head == 0 then data.Length - 1 else head - 1;
      len := len + 1;
      ghost var r := ring;
      DownNone(r, 0);
      var i := 0;
      moves := 0;
      while i < idx
        invariant 0 <= i <= idx && idx < len && Valid() && data == old(data) && len == old(len) + 1
                  && moved == old(moved)
        invariant moves == i
        invariant |r| == data.Length && ring == ShiftedDown(r, 0, i)
      {
        DownStep(r, 0, i);
        MoveElem(i, i + 1);
        i, moves := i + 1, moves + 1;
      }
    }

    method OpenBack(idx: nat) returns (ghost moves: int)
      requires Valid() && idx <= len < data.Length
      modifies this, data
      ensures Valid() && data == old(data) && len == old(len) + 1 && moved == old(moved) && |old(ring)| == data.Length
      ensures moves == old(len) - idx
      ensures ring == ShiftedUp(old(ring), idx, old(len) - idx)
    {
      hide Laid, SizeMax, ShiftedUp;
      LaidSize(data, head, ring);
      ghost var r := ring;
      UpNone(r, len);
      len := len + 1;
      var i := len - 1;
      moves := 0;
      while i > idx
        invariant idx <= i <= len - 1 && Valid() && data == old(data) && len == old(len) + 1 && moved == old(moved)
        invariant moves == len - 1 - i
        invariant |r| == data.Length && ring == ShiftedUp(r, i, len - 1 - i)
      {
        UpStep(r, i, len - 1 - i);
        MoveElem(i, i - 1);
        i, moves := i - 1, moves + 1;
      }
    }

    /** Closes the gap at idx from one side, whichever takes fewer moves. */
    method Remove(idx: nat) returns (ghost moves: int)
      requires Valid() && idx < len
      modifies this, data
      ensures Valid() && data == old(data) && idx < |old(Elems())| && Elems() == RemoveAt(old(Elems()), idx)
      ensures LoadOf() == Popped(old(LoadOf())) && moves == Min(idx, old(len) - 1 - idx)
    {
      hide Laid, SizeMax, ShiftedDown, ShiftedUp, TurnedOn, RemoveAt;
      LaidSize(data, head, ring);
      ghost var r := ring;
      moves := 0;
      if idx < len - idx - 1 {
        RemovedFront(r, len, idx);
        UpNone(r, idx);
        var i := idx;
        while i > 0
          invariant 0 <= i <= idx && Valid() && data == old(data) && len == old(len) && moved == old(moved)
          invariant moves == idx - i
          invariant |r| == data.Length && ring == ShiftedUp(r, i, idx - i)
        {
          UpStep(r, i, idx - i);
          MoveElem(i, i - 1);
          i, moves := i - 1, moves + 1;
        }
        LaidOn(data, head, ring);
        ring := TurnedOn(ring);
        head := if head + 1 == data.Length then 0 else head + 1;
      } else {
        RemovedBack(r, len, idx);
        DownNone(r, idx);
        var i := idx;
        while i + 1 < len
          invariant idx <= i < len && Valid() && data == old(data) && len == old(len) && moved == old(moved)
          invariant moves == i - idx
          invariant |r| == data.Length && ring == ShiftedDown(r, idx, i - idx)
        {
          DownStep(r, idx, i - idx);
          MoveElem(i, i + 1);
          i, moves := i + 1, moves + 1;
        }
      }
      len := len - 1;
    }

    /** Room for newLen elems: the doubled capacity when that is more and is granted, else exactly newLen. */
    method ReserveFor(newLen: nat, grant: nat -> bool) returns (ok: bool)
      requires Valid() && Owned() && data.Length < newLen <= SizeMax()
      modifies this, al
      ensures Owned() && Others() == old(Others())
      ensures Valid() && Elems() == old(Elems()) && len == old(len)
      ensures ok == (old(data.Length) < Sized(old(data.Length), newLen, elemSize, grant))
      ensures if ok then fresh(data) && data.Length == Sized(old(data.Length), newLen, elemSize, grant)
                         && newLen <= data.Length && moved == old(moved) + len
              else data == old(data) && moved == old(moved)
    {
      var cap := data.Length;
      var eager := NextCap(cap);
      hide Laid, Valid, Fits;
      if eager > newLen {
        ok := Reserve(eager, grant);
        if ok {
          return;
        }
      }
      ok := Reserve(newLen, grant);
    }

    /** Cuts the deque off at newLen, or fills it up to newLen with zero elems. */
    method Resize(newLen: nat, grant: nat -> bool) returns (ok: bool)
      requires Valid() && Owned() && newLen <= SizeMax()
      modifies this, data, al
      ensures Owned() && Others() == old(Others())
      ensures Valid() && (data == old(data) || fresh(data)) && old(len) == |old(Elems())|
      ensures ok == (newLen <= old(data.Length)
                     || old(data.Length) < Sized(old(data.Length), newLen, elemSize, grant))
      ensures LoadOf() == Resized(old(LoadOf()), newLen, elemSize, grant)
      ensures Elems() == if !ok then old(Elems()) else if newLen <= old(len) then old(Elems())[..newLen]
                         else old(Elems()) + seq(newLen - old(len), _ => zero)
    {
      hide Laid, SizeMax, Fits, NextCap;
      LaidSize(data, head, ring);
      if newLen <= len {
        len := newLen;
        return true;
      }
      if newLen > data.Length {
        ok := ReserveFor(newLen, grant);
        if !ok {
          return;
        }
      }
      LaidSize(data, head, ring);
      ghost var r, n, block, cost := ring, len, data, moved;
      assert r[..n] == old(Elems());
      var i := len;
      while i < newLen
        invariant n <= i <= newLen <= data.Length && len == n && Valid()
        invariant (data == old(data) || fresh(data)) && Owned() && Others() == old(Others())
        invariant data == block && moved == cost
        invariant |r| == |ring| == data.Length && forall k :: 0 <= k < |ring| ==> ring[k] == if n <= k < i then zero
                  else r[k]
      {
        WriteSlot(data, head, i, zero, ring);
        ring := ring[i := zero];
        i := i + 1;
      }
      len := newLen;
      assert ring[..newLen] == r[..n] + seq(newLen - n, _ => zero);
      return true;
    }

    /** A block no larger than the contents, or none. */
    method ShrinkToFit(grant: nat -> bool) returns (ok: bool)
      requires Valid() && Owned()
      modifies this, al
      ensures Owned() && Others() == old(Others())
      ensures Valid() && Elems() == old(Elems()) && (data == old(data) || fresh(data))
      ensures ok == (old(len) == old(data.Length) || old(len) == 0 || grant(old(len)))
      ensures ok ==> data.Length == len
      ensures !ok ==> data == old(data) && head == old(head) && ring == old(ring)
    {
      hide Laid, SizeMax;
      LaidSize(data, head, ring);
      if len == data.Length {
        return true;
      }
      if len == 0 {
        al.TakeBack(data);
        data, head := new T[0], 0;
        LaidFlat(data);
        ring := data[..];
        return true;
      }
      if !grant(len) {
        return false;
      }
      MulOrder(len, data.Length, elemSize);
      var block := new T[len](_ => zero);
      CopyOut(block);
      al.Lend(block);
      al.TakeBack(data);
      ghost var es := Elems();
      data, head := block, 0;
      LaidFlat(block);
      ring := block[..];
      assert ring[..len] == es;
      return true;
    }

    /** Two deques of one allocator trade everything. */
    method Swap(other: Deque<T>)
      requires Valid() && other.Valid() && elemSize == other.elemSize && al == other.al
      modifies this, other
      ensures Valid() && other.Valid()
      ensures Elems() == old(other.Elems()) && data == old(other.data) && head == old(other.head)
      ensures other.Elems() == old(Elems()) && other.data == old(data) && other.head == old(head)
    {
      hide Laid, SizeMax;
      if this == other {
        return;
      }
      data, other.data := other.data, data;
      len, other.len := other.len, len;
      head, other.head := other.head, head;
      ring, other.ring := other.ring, ring;
      moved, other.moved := other.moved, moved;
    }

    /** A deque of the same elems, unrolled, from another allocator: one request for it and one for the block. */
    method CopyWith(allocator: Allocator, granted: bool, grant: nat -> bool) returns (r: Deque?<T>)
      requires Valid()
      modifies allocator
      ensures r == null ==> allocator.lent == old(allocator.lent)
      ensures r != null ==> r.Owned() && r.Others() == old(allocator.lent) + {r}
      ensures r != null <==> granted && (len == 0 || grant(len))
      ensures r != null ==> fresh(r) && r.Valid() && fresh(r.data) && r.al == allocator && r.Elems() == Elems()
      ensures r != null ==> r.elemSize == elemSize && r.zero == zero && r.data.Length == len
    {
      hide Laid, SizeMax;
      if !granted {
        return null;
      }
      LaidSize(data, head, ring);
      MulOrder(len, data.Length, elemSize);
      var copy := new Deque(elemSize, zero, allocator);
      allocator.Lend(copy);
      if len > 0 && !grant(len) {
        allocator.TakeBack(copy);
        return null;
      }
      var block := new T[len](_ => zero);
      if len > 0 {
        allocator.Lend(block);
      }
      CopyOut(block);
      copy.data, copy.len := block, len;
      LaidFlat(block);
      copy.ring := block[..];
      assert copy.ring[..len] == Elems();
      return copy;
    }

    /** Makes other hold what this deque holds, unrolled from slot 0; a refusal leaves other as it was. */
    method CopyAssign(other: Deque<T>, grant: nat -> bool) returns (ok: bool)
      requires Valid() && other.Valid() && elemSize == other.elemSize && (this == other || data != other.data)
      requires other.Owned()
      modifies other, other.data, other.al
      ensures other.Owned() && other.Others() == old(other.Others())
      ensures Valid() && other.Valid() && Elems() == old(Elems())
      ensures ok == (this == other || len <= old(other.data.Length) || Fits(len, elemSize, grant))
      ensures other.Elems() == if ok then Elems() else old(other.Elems())
      ensures if ok && this != other && old(other.data.Length) < len then other.data.Length == len
              else other.data == old(other.data)
    {
      hide Laid, SizeMax, Fits;
      if this == other {
        return true;
      }
      LaidSize(data, head, ring);
      ok := other.Reserve(len, grant);
      if !ok {
        return;
      }
      other.head, other.len := 0, len;
      CopyOut(other.data);
      LaidFlat(other.data);
      other.ring := other.data[..];
      assert other.ring[..len] == Elems();
    }

    /** Hands everything over: the block itself within one allocator, a copy of the elems between two. */
    method MoveAssign(other: Deque<T>, granted: bool, grant: nat -> bool) returns (ok: bool)
      requires Valid() && other.Valid() && elemSize == other.elemSize && Owned() && other.Owned()
      modifies this, other, al, other.al
      ensures this == other || !ok ==> al.lent == old(al.lent) && other.al.lent == old(other.al.lent)
      ensures ok && this != other && al == other.al ==> al.lent == old(other.Others())
      ensures ok && al != other.al ==>
        al.lent == old(Others()) && other.Owned() && other.Others() == old(other.Others())
      ensures Valid() && other.Valid()
      ensures ok == (this == other || al == other.al || (granted && (old(len) == 0 || grant(old(len)))))
      ensures this == other || !ok ==> Elems() == old(Elems()) && other.Elems() == old(other.Elems())
      ensures ok && this != other ==> Elems() == [] && data.Length == 0 && other.Elems() == old(Elems())
      ensures ok && this != other && al == other.al ==> other.data == old(data)
    {
      hide Laid, SizeMax, Valid, Elems;
      if this == other {
        return true;
      }
      if al == other.al {
        Swap(other);
        ReleaseData();
        return true;
      }
      var obj := CopyWith(other.al, granted, grant);
      if obj == null {
        return false;
      }
      other.Swap(obj);
      obj.Drop();
      ReleaseData();
      return true;
    }

    /** tda_deque_drop: the block, then the deque itself. */
    method Drop()
      requires Valid() && Owned() && this in al.lent
      modifies this, al
      ensures al.lent == old(Others()) - {this}
    {
      ReleaseData();
      al.TakeBack(this);
    }

    /** Hands the block back. */
    method ReleaseData()
      requires Valid() && Owned()
      modifies this, al
      ensures al.lent == old(Others())
      ensures Valid() && Elems() == [] && data.Length == 0
    {
      if data.Length > 0 {
        al.TakeBack(data);
      }
      data := new T[0];
      len, head := 0, 0;
      LaidFlat(data);
      ring := data[..];
    }

    /** Empties the deque and keeps the block. */
    method Clear()
      requires Valid()
      modifies this
      ensures Valid() && Elems() == [] && data == old(data)
    {
      LaidFlat(data);
      ring := data[..];
      len, head := 0, 0;
    }
  }

  lemma LaidSize<T>(data: array<T>, head: int, ring: seq<T>)
    requires Laid(data, head, ring)
    ensures |ring| == data.Length && (0 < data.Length ==> 0 <= head < data.Length)
  {
  }
}
