/** The bitset (src/ds/bitset.c): an array of 64-bit words that stands for a set of numbers below nbits. */
module Bitsets {
  import opened Allocators
  import opened Bits
  import opened Universes

  /** words_for: written so that it cannot overflow. */
  function WordsFor(nbits: nat): (n: nat)
    ensures 64 * (n - 1) < nbits <= 64 * n || n == nbits == 0
  {
    nbits / 64 + if nbits % 64 != 0 then 1 else 0
  }

  /** Bit i of a row of words. */
  ghost predicate In(ws: seq<nat>, i: int) {
    0 <= i && i / 64 < |ws| && Bit(ws[i / 64], i % 64)
  }

  /** The set a row of words stands for. */
  ghost function Below(ws: seq<nat>, n: int): set<int> {
    set i: int | 0 <= i < n && In(ws, i)
  }

  ghost predicate Words(ws: seq<nat>) {
    forall w :: 0 <= w < |ws| ==> ws[w] < Pow2(WORD)
  }

  /** No bit from n on is set. */
  ghost predicate ClearFrom(ws: seq<nat>, n: int) {
    forall i {:trigger In(ws, i)} :: n <= i ==> !In(ws, i)
  }

  /** tail_mask: ones for the positions below nbits that fall into the last word. */
  function TailMask(nbits: nat): nat {
    if nbits % 64 == 0 then Mask(64) else Mask(nbits % 64)
  }

  lemma InWord(ws: seq<nat>, i: int)
    requires 0 <= i
    ensures In(ws, i) <==> i / 64 < |ws| && Bit(ws[i / 64], i % 64)
  {
  }

  lemma Split(i: int, w: int, k: int)
    requires 0 <= k < 64
    ensures i == 64 * w + k <==> i / 64 == w && i % 64 == k
  {
  }

  /** One word rewritten: what happens to every bit of the row. */
  lemma RowUpdated(ws: seq<nat>, w: int, x: nat, i: int)
    requires 0 <= w < |ws| && 0 <= i
    ensures In(ws[w := x], i) == if i / 64 == w then Bit(x, i % 64) else In(ws, i)
  {
  }

  // ---------- one bit ----------

  lemma SetBit(ws: seq<nat>, idx: nat)
    requires idx / 64 < |ws| && Words(ws)
    ensures var r := ws[idx / 64 := Or(ws[idx / 64], Pow2(idx % 64))];
            Words(r) && forall i {:trigger In(r, i)} :: In(r, i) == (In(ws, i) || i == idx)
  {
    var x, k := ws[idx / 64], idx % 64;
    var r := ws[idx / 64 := Or(x, Pow2(k))];
    WordsFit(x, Pow2(k));
    forall i ensures In(r, i) == (In(ws, i) || i == idx) {
      if 0 <= i {
        RowUpdated(ws, idx / 64, Or(x, Pow2(k)), i);
        WordBits(x, Pow2(k), i % 64);
        PowBit(k, i % 64);
      }
    }
  }

  lemma ClearBit(ws: seq<nat>, idx: nat)
    requires idx / 64 < |ws| && Words(ws)
    ensures var r := ws[idx / 64 := And(ws[idx / 64], Not(Pow2(idx % 64)))];
            Words(r) && forall i {:trigger In(r, i)} :: In(r, i) == (In(ws, i) && i != idx)
  {
    var x, k := ws[idx / 64], idx % 64;
    var r := ws[idx / 64 := And(x, Not(Pow2(k)))];
    WordsFit(x, Not(Pow2(k)));
    forall i ensures In(r, i) == (In(ws, i) && i != idx) {
      if 0 <= i {
        RowUpdated(ws, idx / 64, And(x, Not(Pow2(k))), i);
        WordBits(x, Not(Pow2(k)), i % 64);
        WordBits(Pow2(k), 0, i % 64);
        PowBit(k, i % 64);
      }
    }
  }

  lemma FlipBit(ws: seq<nat>, idx: nat)
    requires idx / 64 < |ws| && Words(ws)
    ensures var r := ws[idx / 64 := Xor(ws[idx / 64], Pow2(idx % 64))];
            Words(r) && forall i {:trigger In(r, i)} :: In(r, i) == (In(ws, i) != (i == idx))
  {
    var x, k := ws[idx / 64], idx % 64;
    var r := ws[idx / 64 := Xor(x, Pow2(k))];
    WordsFit(x, Pow2(k));
    forall i ensures In(r, i) == (In(ws, i) != (i == idx)) {
      if 0 <= i {
        RowUpdated(ws, idx / 64, Xor(x, Pow2(k)), i);
        WordBits(x, Pow2(k), i % 64);
        PowBit(k, i % 64);
      }
    }
  }

  // ---------- counting ----------

  /** stdc_count_ones: how many of the low w bits of x are set. */
  function CountOnes(x: nat, w: nat): nat {
    if w == 0 then 0 else CountOnes(x, w - 1) + if Bit(x, w - 1) then 1 else 0
  }

  lemma BelowNext(ws: seq<nat>, n: nat)
    ensures |Below(ws, n + 1)| == |Below(ws, n)| + if In(ws, n) then 1 else 0
  {
    if In(ws, n) {
      assert Below(ws, n + 1) == Below(ws, n) + {n};
    } else {
      assert Below(ws, n + 1) == Below(ws, n);
    }
  }

  lemma {:induction false} CountWord(ws: seq<nat>, w: nat, k: nat)
    requires w < |ws| && k <= 64
    ensures |Below(ws, 64 * w + k)| == |Below(ws, 64 * w)| + CountOnes(ws[w], k)
    decreases k
  {
    if k > 0 {
      CountWord(ws, w, k - 1);
      BelowNext(ws, 64 * w + k - 1);
      Split(64 * w + k - 1, w, k - 1);
    }
  }

  // ---------- scanning ----------

  /** The position of the lowest one bit. */
  function FirstOne(x: nat): (k: nat)
    requires x > 0
  {
    if x % 2 == 1 then 0 else 1 + FirstOne(x / 2)
  }

  lemma {:induction false} FirstOneIs(x: nat, w: nat)
    requires 0 < x < Pow2(w)
    ensures FirstOne(x) < w && Bit(x, FirstOne(x)) && forall i :: 0 <= i < FirstOne(x) ==> !Bit(x, i)
    decreases w
  {
    if x % 2 == 0 {
      FirstOneIs(x / 2, w - 1);
      forall i | 0 <= i < FirstOne(x) ensures !Bit(x, i) {
        assert i > 0 ==> !Bit(x / 2, i - 1);
      }
    }
  }

  lemma NoBits(i: nat)
    ensures !Bit(0, i)
  {
    ZeroBit(i);
  }

  /** Word w, with the bits before position from masked off, has its first one bit where the next member is. */
  lemma FirstInWord(ws: seq<nat>, w: int, from: int, word: nat)
    requires 0 <= w < |ws| && 64 * w <= from < 64 * w + 64 && word < Pow2(WORD)
    requires forall k :: 0 <= k < 64 ==> Bit(word, k) == (from <= 64 * w + k && Bit(ws[w], k))
    ensures word == 0 ==> forall i {:trigger In(ws, i)} :: from <= i < 64 * w + 64 ==> !In(ws, i)
    ensures word != 0 ==>
      var idx := 64 * w + FirstOne(word);
      from <= idx < 64 * w + 64 && In(ws, idx) && forall i {:trigger In(ws, i)} :: from <= i < idx ==> !In(ws, i)
  {
    var end := 64 * w + 64;
    if word == 0 {
      forall i | from <= i < end ensures !In(ws, i) {
        Split(i, w, i - 64 * w);
        NoBits(i - 64 * w);
        assert Bit(word, i - 64 * w) == Bit(ws[w], i - 64 * w);
      }
    } else {
      FirstOneIs(word, WORD);
      var k := FirstOne(word);
      Split(64 * w + k, w, k);
      forall i | from <= i < 64 * w + k ensures !In(ws, i) {
        Split(i, w, i - 64 * w);
        assert !Bit(word, i - 64 * w);
      }
    }
  }

  /** word_from: word & (~0 << k) clears the bits below k. */
  lemma WordFrom(x: nat, k: nat)
    requires k < 64
    ensures And(x, Not(Mask(k))) < Pow2(WORD)
    ensures forall i {:trigger Bit(And(x, Not(Mask(k))), i)} ::
              0 <= i < 64 ==> Bit(And(x, Not(Mask(k))), i) == (k <= i && Bit(x, i))
  {
    WordsFit(x, Not(Mask(k)));
    forall i | 0 <= i < 64 ensures Bit(And(x, Not(Mask(k))), i) == (k <= i && Bit(x, i)) {
      WordBits(x, Not(Mask(k)), i);
      WordBits(Mask(k), 0, i);
      MaskBit(k, i);
    }
  }

  // ---------- whole rows ----------

  /** Every bit of r is op of the bits of x and y. */
  ghost predicate PairBits(op: (bool, bool) -> bool, r: nat, x: nat, y: nat) {
    r < Pow2(WORD) && forall k {:trigger Bit(r, k)} :: 0 <= k < 64 ==> Bit(r, k) == op(Bit(x, k), Bit(y, k))
  }

  lemma PairOps(x: nat, y: nat)
    ensures PairBits(Either, Or(x, y), x, y)
    ensures PairBits(Both, And(x, y), x, y)
    ensures PairBits(Differ, Xor(x, y), x, y)
    ensures PairBits(Without, And(x, Not(y)), x, y)
    ensures PairBits(Negated, Not(x), x, y)
  {
    WordsFit(x, y);
    WordsFit(x, Not(y));
    forall k | 0 <= k < 64
      ensures Bit(Or(x, y), k) == Either(Bit(x, k), Bit(y, k)) && Bit(And(x, y), k) == Both(Bit(x, k), Bit(y, k))
      ensures Bit(Xor(x, y), k) == Differ(Bit(x, k), Bit(y, k))
              && Bit(And(x, Not(y)), k) == Without(Bit(x, k), Bit(y, k))
      ensures Bit(Not(x), k) == Negated(Bit(x, k), Bit(y, k))
    {
      WordBits(x, y, k);
      WordBits(x, Not(y), k);
      WordBits(y, 0, k);
    }
  }

  function Without(a: bool, b: bool): bool { a && !b }

  ghost predicate PairRow(op: (bool, bool) -> bool, r: seq<nat>, x: seq<nat>, y: seq<nat>, n: int) {
    |r| == |x| == |y| && forall w {:trigger r[w]} :: 0 <= w < n && w < |r| ==> PairBits(op, r[w], x[w], y[w])
  }

  lemma PairIn(op: (bool, bool) -> bool, r: seq<nat>, x: seq<nat>, y: seq<nat>, i: int)
    requires PairRow(op, r, x, y, |r|) && 0 <= i < 64 * |r|
    ensures In(r, i) == op(In(x, i), In(y, i))
  {
    Split(i, i / 64, i % 64);
    assert PairBits(op, r[i / 64], x[i / 64], y[i / 64]);
  }

  /** Rows of clear tails combined by an op that leaves two clear bits clear. */
  lemma PairSets(op: (bool, bool) -> bool, r: seq<nat>, x: seq<nat>, y: seq<nat>, n: int)
    requires PairRow(op, r, x, y, |r|) && !op(false, false) && ClearFrom(x, n) && ClearFrom(y, n)
    ensures Words(r) && ClearFrom(r, n)
    ensures forall i {:trigger In(r, i)} :: In(r, i) == op(In(x, i), In(y, i))
  {
    hide PairBits;
    forall i ensures In(r, i) == op(In(x, i), In(y, i)) {
      if 0 <= i < 64 * |r| {
        hide In;
        PairIn(op, r, x, y, i);
      }
    }
    forall i | n <= i ensures !In(r, i) {
      assert !In(x, i) && !In(y, i);
    }
    forall w | 0 <= w < |r| ensures r[w] < Pow2(WORD) {
      PairFits(op, r[w], x[w], y[w]);
    }
  }

  lemma PairFits(op: (bool, bool) -> bool, r: nat, x: nat, y: nat)
    requires PairBits(op, r, x, y)
    ensures r < Pow2(WORD)
  {
  }

  /** clear_tail: the last word masked with tail_mask. */
  lemma TailCleared(ws: seq<nat>, nbits: nat)
    requires |ws| == WordsFor(nbits) && 0 < |ws| && Words(ws)
    ensures var n := |ws|; var r := ws[n - 1 := And(ws[n - 1], TailMask(nbits))];
            Words(r) && ClearFrom(r, nbits) && forall i {:trigger In(r, i)} :: i < nbits ==> In(r, i) == In(ws, i)
  {
    var n, m := |ws|, if nbits % 64 == 0 then 64 else nbits % 64;
    var x := And(ws[n - 1], TailMask(nbits));
    var r := ws[n - 1 := x];
    assert nbits == 64 * (n - 1) + m && TailMask(nbits) == Mask(m);
    WordsFit(ws[n - 1], TailMask(nbits));
    forall i ensures In(r, i) == (In(ws, i) && i < nbits) {
      if 0 <= i {
        RowUpdated(ws, n - 1, x, i);
        WordBits(ws[n - 1], Mask(m), i % 64);
        MaskBit(m, i % 64);
        Split(i, i / 64, i % 64);
      }
    }
  }

  lemma SameRow(x: seq<nat>, y: seq<nat>)
    requires Words(x) && Words(y) && |x| == |y|
    ensures x == y <==> forall i {:trigger In(x, i)} :: In(x, i) == In(y, i)
  {
    if forall i {:trigger In(x, i)} :: In(x, i) == In(y, i) {
      forall w | 0 <= w < |x| ensures x[w] == y[w] {
        forall k | 0 <= k < 64 ensures Bit(x[w], k) == Bit(y[w], k) {
          Split(64 * w + k, w, k);
          assert In(x, 64 * w + k) == In(y, 64 * w + k);
        }
        SameBits(x[w], y[w], WORD);
      }
    }
  }

  lemma BelowAll(ws: seq<nat>, n: int, m: int)
    requires n <= m && ClearFrom(ws, n)
    ensures Below(ws, m) == Below(ws, n)
  {
    forall i ensures i in Below(ws, m) <==> i in Below(ws, n) {
    }
  }

  /** A word is all clear, or has a member. */
  lemma WordClear(ws: seq<nat>, w: int)
    requires 0 <= w < |ws| && Words(ws)
    ensures ws[w] == 0 <==> forall i {:trigger In(ws, i)} :: 64 * w <= i < 64 * w + 64 ==> !In(ws, i)
  {
    if ws[w] == 0 {
      forall i | 64 * w <= i < 64 * w + 64 ensures !In(ws, i) {
        Split(i, w, i - 64 * w);
        NoBits(i - 64 * w);
      }
    } else {
      FirstOneIs(ws[w], WORD);
      Split(64 * w + FirstOne(ws[w]), w, FirstOne(ws[w]));
      assert In(ws, 64 * w + FirstOne(ws[w]));
    }
  }

  /** A word of m ones holds exactly its first m positions. */
  lemma WordFull(ws: seq<nat>, w: int, m: nat)
    requires 0 <= w < |ws| && Words(ws) && m <= 64
    requires forall i {:trigger In(ws, i)} :: 64 * w + m <= i < 64 * w + 64 ==> !In(ws, i)
    ensures ws[w] == Mask(m) <==> forall i {:trigger In(ws, i)} :: 64 * w <= i < 64 * w + m ==> In(ws, i)
  {
    if ws[w] == Mask(m) {
      forall i | 64 * w <= i < 64 * w + m ensures In(ws, i) {
        Split(i, w, i - 64 * w);
        MaskBit(m, i - 64 * w);
      }
    }
    if forall i {:trigger In(ws, i)} :: 64 * w <= i < 64 * w + m ==> In(ws, i) {
      forall k | 0 <= k < 64 ensures Bit(ws[w], k) == Bit(Mask(m), k) {
        Split(64 * w + k, w, k);
        MaskBit(m, k);
        assert In(ws, 64 * w + k) == (k < m);
      }
      MaskFits(m);
      SameBits(ws[w], Mask(m), WORD);
    }
  }

  lemma MaskFits(m: nat)
    requires m <= WORD
    ensures Mask(m) < Pow2(WORD)
  {
    Pow2Grows(m, WORD);
  }

  /** Two rows for one universe. */
  lemma SubsetWord(x: seq<nat>, y: seq<nat>, w: int)
    requires 0 <= w < |x| == |y|
    ensures And(x[w], Not(y[w])) == 0 <==>
              forall i {:trigger In(x, i)} :: 64 * w <= i < 64 * w + 64 && In(x, i) ==> In(y, i)
  {
    var r := x[w := And(x[w], Not(y[w]))];
    PairOps(x[w], y[w]);
    ZeroWhenEmpty(Without, r[w], x[w], y[w], x, y, w);
  }

  lemma MeetWord(x: seq<nat>, y: seq<nat>, w: int)
    requires 0 <= w < |x| == |y|
    ensures And(x[w], y[w]) == 0 <==>
              forall i {:trigger In(x, i)} :: 64 * w <= i < 64 * w + 64 && In(x, i) ==> !In(y, i)
  {
    PairOps(x[w], y[w]);
    ZeroWhenEmpty(Both, And(x[w], y[w]), x[w], y[w], x, y, w);
  }

  lemma ZeroWhenEmpty(op: (bool, bool) -> bool, r: nat, a: nat, b: nat, x: seq<nat>, y: seq<nat>, w: int)
    requires 0 <= w < |x| == |y| && a == x[w] && b == y[w] && PairBits(op, r, a, b)
    ensures r == 0 <==> forall i {:trigger In(x, i)} :: 64 * w <= i < 64 * w + 64 ==> !op(In(x, i), In(y, i))
  {
    if r == 0 {
      forall i | 64 * w <= i < 64 * w + 64 ensures !op(In(x, i), In(y, i)) {
        Split(i, w, i - 64 * w);
        NoBits(i - 64 * w);
        assert !Bit(r, i - 64 * w);
      }
    } else {
      FirstOneIs(r, WORD);
      var k := FirstOne(r);
      Split(64 * w + k, w, k);
      assert op(In(x, 64 * w + k), In(y, 64 * w + k));
    }
  }

  class BitSet {
    var words: array<nat>
    var nbits: nat
    var nwords: nat
    const al: Allocator

    ghost predicate Valid()
      reads this, words
    {
      nwords == words.Length == WordsFor(nbits) && Words(words[..]) && ClearFrom(words[..], nbits)
    }

    /** The set of numbers below nbits the words stand for. */
    ghost function Members(): set<int>
      reads this, words
    {
      Below(words[..], nbits)
    }

    /** What the set holds of its allocator besides itself: the words, when it has any. */
    ghost function Blocks(): (r: set<object>)
      reads `words
    {
      if words.Length == 0 then {} else {words}
    }

    ghost predicate Owned()
      reads `words, al
    {
      Blocks() <= al.lent
    }

    /** What its allocator has lent to others. No method touches it, so none loses or steals a block. */
    ghost function Others(): (r: set<object>)
      reads `words, al
    {
      al.lent - Blocks()
    }

    /** The empty subset of a universe: one request for it, and one for the words when there are any. When the second is
        refused the first is handed back. */
    static method New(n: nat, al: Allocator, grants: nat) returns (r: BitSet?)
      modifies al
      ensures r != null <==> (if n == 0 then 1 else 2) <= grants
      ensures r == null ==> al.lent == old(al.lent)
      ensures r != null ==> fresh(r) && fresh(r.words) && r.Valid() && r.al == al && r.nbits == n && r.Members() == {}
      ensures r != null ==> r.Owned() && r.Others() == old(al.lent) + {r}
    {
      if grants == 0 {
        return null;
      }
      r := new BitSet(n, al);
      al.Lend(r);
      if r.nwords > 0 {
        if grants == 1 {
          al.TakeBack(r);
          return null;
        }
        al.Lend(r.words);
      }
    }

    /** tda_bitset_drop: the words, then the set itself. */
    method Drop()
      requires Owned() && this in al.lent
      modifies this, al
      ensures al.lent == old(Others()) - {this}
    {
      ReleaseWords();
      al.TakeBack(this);
    }

    constructor (n: nat, allocator: Allocator)
      ensures Valid() && fresh(words) && nbits == n && Members() == {} && al == allocator
    {
      nbits, nwords, al := n, WordsFor(n), allocator;
      words := new nat[WordsFor(n)](_ => 0);
      new;
      EmptyRow(words[..], n);
    }

    method Test(idx: nat) returns (r: bool)
      requires Valid() && idx < nbits
      ensures r <==> idx in Members()
    {
      InWord(words[..], idx);
      var x, k := words[idx / 64], idx % 64;
      forall i: nat | i < 64 ensures Bit(And(x, Pow2(k)), i) == (Bit(x, k) && i == k) {
        WordBits(x, Pow2(k), i);
        PowBit(k, i);
      }
      r := And(x, Pow2(k)) != 0;
      WordsFit(x, Pow2(k));
      if r {
        FirstOneIs(And(x, Pow2(k)), WORD);
      } else {
        NoBits(k);
      }
    }

    method Set(idx: nat)
      requires Valid() && idx < nbits
      modifies words
      ensures Valid() && Members() == old(Members()) + {idx}
    {
      ghost var ws := words[..];
      SetBit(ws, idx);
      hide In, Words, Bit;
      words[idx / 64] := Or(words[idx / 64], Pow2(idx % 64));
      assert words[..] == ws[idx / 64 := Or(ws[idx / 64], Pow2(idx % 64))];
    }

    method ClearAt(idx: nat)
      requires Valid() && idx < nbits
      modifies words
      ensures Valid() && Members() == old(Members()) - {idx}
    {
      ghost var ws := words[..];
      ClearBit(ws, idx);
      hide In, Words, Bit;
      words[idx / 64] := And(words[idx / 64], Not(Pow2(idx % 64)));
      assert words[..] == ws[idx / 64 := And(ws[idx / 64], Not(Pow2(idx % 64)))];
    }

    method Flip(idx: nat)
      requires Valid() && idx < nbits
      modifies words
      ensures Valid() && Members() == if idx in old(Members()) then old(Members()) - {idx} else old(Members()) + {idx}
    {
      ghost var ws := words[..];
      FlipBit(ws, idx);
      hide In, Words, Bit;
      words[idx / 64] := Xor(words[idx / 64], Pow2(idx % 64));
      assert words[..] == ws[idx / 64 := Xor(ws[idx / 64], Pow2(idx % 64))];
    }

    /** Masks the last word, so that no bit outside the universe is set. */
    method ClearTail(ghost ws: seq<nat>)
      requires nwords == words.Length == WordsFor(nbits) && words[..] == ws && Words(ws)
      modifies words
      ensures Valid() && forall i {:trigger In(words[..], i)} :: i < nbits ==> In(words[..], i) == In(ws, i)
    {
      if nwords > 0 {
        TailCleared(ws, nbits);
        hide In, Words;
        words[nwords - 1] := And(words[nwords - 1], TailMask(nbits));
        assert words[..] == ws[nwords - 1 := And(ws[nwords - 1], TailMask(nbits))];
      }
    }

    method SetAll()
      requires Valid()
      modifies words
      ensures Valid() && Members() == Universe(nbits)
    {
      forall w | 0 <= w < words.Length {
        words[w] := Mask(64);
      }
      ghost var ws := words[..];
      FullRow(ws);
      ClearTail(ws);
    }

    method ClearAll()
      requires Valid()
      modifies words
      ensures Valid() && Members() == {}
    {
      forall w | 0 <= w < words.Length {
        words[w] := 0;
      }
      EmptyRow(words[..], nbits);
    }

    /** The complement. */
    method FlipAll()
      requires Valid()
      modifies words
      ensures Valid() && Members() == Universe(nbits) - old(Members())
    {
      ghost var ws := words[..];
      hide In, Words, ClearFrom, Not, Below, Bit;
      var w := 0;
      while w < nwords
        invariant 0 <= w <= nwords == words.Length
        invariant forall v :: 0 <= v < w ==> words[v] == Not(ws[v])
        invariant forall v :: w <= v < nwords ==> words[v] == ws[v]
      {
        words[w] := Not(words[w]);
        w := w + 1;
      }
      ghost var r := words[..];
      FlippedRow(r, ws);
      ClearTail(r);
      FlippedBelow(words[..], r, ws, nbits);
    }

    method Count() returns (count: nat)
      requires Valid()
      ensures count == |Members()|
    {
      ghost var ws := words[..];
      hide In, Words, ClearFrom, Bit, Below;
      count := 0;
      BelowNone(ws);
      var w := 0;
      while w < nwords
        invariant 0 <= w <= nwords && count == |Below(ws, 64 * w)|
      {
        CountWord(ws, w, 64);
        count := count + CountOnes(words[w], 64);
        w := w + 1;
      }
      BelowAll(ws, nbits, 64 * nwords);
    }

    method Any() returns (r: bool)
      requires Valid()
      ensures r <==> Members() != {}
    {
      ghost var ws := words[..];
      hide Words, ClearFrom, Bit, In;
      var w := 0;
      while w < nwords
        invariant 0 <= w <= nwords && forall i {:trigger In(ws, i)} :: 0 <= i < 64 * w ==> !In(ws, i)
      {
        WordClear(ws, w);
        if words[w] != 0 {
          ghost var i :| 64 * w <= i < 64 * w + 64 && In(ws, i);
          MemberBelow(ws, nbits, i);
          return true;
        }
        w := w + 1;
      }
      return false;
    }

    /** True exactly when every bit of the universe is set, which is when the count is the universe's size. */
    method All() returns (r: bool)
      requires Valid()
      ensures r <==> Members() == Universe(nbits)
      ensures r <==> |Members()| == nbits
    {
      ghost var ws := words[..];
      SizeDecides(Members(), nbits);
      hide Words, Bit, In, Mask, Universe;
      var w := 0;
      while w < nwords
        invariant 0 <= w <= nwords && forall i {:trigger In(ws, i)} :: 0 <= i < 64 * w && i < nbits ==> In(ws, i)
      {
        var want := if w + 1 == nwords then TailMask(nbits) else Mask(64);
        ghost var m := if w + 1 == nwords && nbits % 64 != 0 then nbits % 64 else 64;
        WordFull(ws, w, m);
        if words[w] != want {
          ghost var i :| 64 * w <= i < 64 * w + m && !In(ws, i);
          assert i !in Members() && i in Universe(nbits);
          return false;
        }
        w := w + 1;
      }
      AllBelow(ws, nbits);
      return true;
    }

    /** The least member that is not less than from. */
    method FindNext(from: nat) returns (found: bool, idx: int)
      requires Valid()
      ensures found ==> from <= idx && idx in Members() && forall i: int :: from <= i < idx ==> i !in Members()
      ensures !found ==> forall i: int :: from <= i ==> i !in Members()
    {
      ghost var ws := words[..];
      hide *;
      Opened();
      if from >= nbits {
        NoneBeyond(ws, nbits, from);
        return false, 0;
      }
      var w := from / 64;
      var word := And(words[w], Not(Mask(from % 64)));
      ScanStart(ws, w, from);
      while word == 0
        invariant from / 64 <= w < nwords && Scanned(ws, w, from, word)
        decreases nwords - w
      {
        w := w + 1;
        if w == nwords {
          ScanEmpty(ws, nbits, w - 1, from);
          return false, 0;
        }
        ScanNext(ws, w, from);
        word := words[w];
      }
      ScanHit(ws, nbits, w, from, word);
      return true, 64 * w + FirstOne(word);
    }

    /** The least position of the universe, not less than from, that is no member. */
    method FindNextClear(from: nat) returns (found: bool, idx: int)
      requires Valid()
      ensures found ==> from <= idx < nbits && idx !in Members() && forall i: int :: from <= i < idx ==> i in Members()
      ensures !found ==> forall i: int :: from <= i < nbits ==> i in Members()
    {
      ghost var ws := words[..];
      hide *;
      Opened();
      ghost var cs := Complement(ws);
      if from >= nbits {
        return false, 0;
      }
      var w := from / 64;
      var word := And(Not(words[w]), Not(Mask(from % 64)));
      ScanStart(cs, w, from);
      while word == 0
        invariant from / 64 <= w < nwords && Scanned(cs, w, from, word)
        decreases nwords - w
      {
        w := w + 1;
        if w == nwords {
          GapsEmpty(ws, cs, nbits, w - 1, from);
          return false, 0;
        }
        ScanNext(cs, w, from);
        word := Not(words[w]);
      }
      GapHit(ws, cs, nbits, w, from, word);
      var k := 64 * w + FirstOne(word);
      // positions from nbits on are gaps as well, but no part of the universe
      if k >= nbits {
        return false, 0;
      }
      return true, k;
    }

    lemma Opened()
      requires Valid()
      ensures nwords == words.Length == WordsFor(nbits) && Words(words[..]) && ClearFrom(words[..], nbits)
      ensures Members() == Below(words[..], nbits) && nbits <= 64 * nwords && (nbits % 64 == 0 || nbits / 64 < nwords)
      ensures forall i :: 0 <= i < nbits ==> i / 64 < nwords
    {
    }

    /** The loop that prints a set: repeated find_next lists exactly the members, in increasing order. */
    method Listed() returns (r: seq<int>)
      requires Valid()
      ensures forall i :: i in r <==> i in Members()
      ensures forall j, k :: 0 <= j < k < |r| ==> r[j] < r[k]
    {
      ghost var s := Members();
      InUniverse();
      hide *;
      r := [];
      var found, idx := FindNext(0);
      assert s == Members();
      var from := 0;
      while found
        invariant 0 <= from <= nbits
        invariant forall i :: i in r <==> i in s && i < from
        invariant forall j :: 0 <= j < |r| ==> r[j] < from
        invariant forall j, k :: 0 <= j < k < |r| ==> r[j] < r[k]
        invariant found ==> from <= idx && idx in s && forall i: int :: from <= i < idx ==> i !in s
        invariant !found ==> forall i: int :: from <= i ==> i !in s
        decreases nbits - from
      {
        r := r + [idx];
        from := idx + 1;
        found, idx := FindNext(from);
        assert s == Members();
      }
    }

    lemma InUniverse()
      ensures forall i :: i in Members() ==> 0 <= i < nbits
    {
    }

    /** The pairwise word loops; a set may be combined with itself. */
    method Union(other: BitSet)
      requires Valid() && other.Valid() && nbits == other.nbits && (this == other || words != other.words)
      modifies words
      ensures Valid() && Members() == old(Members()) + old(other.Members())
    {
      hide *;
      ghost var x, y := words[..], other.words[..];
      Opened();
      other.Opened();
      var w := 0;
      while w < nwords
        invariant 0 <= w <= nwords == words.Length == |x| && other.words.Length == |y| == nwords
        invariant forall v :: 0 <= v < w ==> words[v] == Or(x[v], y[v])
        invariant forall v :: w <= v < nwords ==> words[v] == x[v] && other.words[v] == y[v]
      {
        words[w] := Or(words[w], other.words[w]);
        w := w + 1;
      }
      forall v | 0 <= v < nwords ensures PairBits(Either, words[..][v], x[v], y[v]) {
        PairOps(x[v], y[v]);
      }
      PairedUp(Either, words[..], x, y, nbits);
      Closed();
    }

    method Intersect(other: BitSet)
      requires Valid() && other.Valid() && nbits == other.nbits && (this == other || words != other.words)
      modifies words
      ensures Valid() && Members() == old(Members()) * old(other.Members())
    {
      hide *;
      ghost var x, y := words[..], other.words[..];
      Opened();
      other.Opened();
      var w := 0;
      while w < nwords
        invariant 0 <= w <= nwords == words.Length == |x| && other.words.Length == |y| == nwords
        invariant forall v :: 0 <= v < w ==> words[v] == And(x[v], y[v])
        invariant forall v :: w <= v < nwords ==> words[v] == x[v] && other.words[v] == y[v]
      {
        words[w] := And(words[w], other.words[w]);
        w := w + 1;
      }
      forall v | 0 <= v < nwords ensures PairBits(Both, words[..][v], x[v], y[v]) {
        PairOps(x[v], y[v]);
      }
      PairedUp(Both, words[..], x, y, nbits);
      Closed();
    }

    method Difference(other: BitSet)
      requires Valid() && other.Valid() && nbits == other.nbits && (this == other || words != other.words)
      modifies words
      ensures Valid() && Members() == old(Members()) - old(other.Members())
    {
      hide *;
      ghost var x, y := words[..], other.words[..];
      Opened();
      other.Opened();
      var w := 0;
      while w < nwords
        invariant 0 <= w <= nwords == words.Length == |x| && other.words.Length == |y| == nwords
        invariant forall v :: 0 <= v < w ==> words[v] == And(x[v], Not(y[v]))
        invariant forall v :: w <= v < nwords ==> words[v] == x[v] && other.words[v] == y[v]
      {
        words[w] := And(words[w], Not(other.words[w]));
        w := w + 1;
      }
      forall v | 0 <= v < nwords ensures PairBits(Without, words[..][v], x[v], y[v]) {
        PairOps(x[v], y[v]);
      }
      PairedUp(Without, words[..], x, y, nbits);
      Closed();
    }

    method SymmetricDifference(other: BitSet)
      requires Valid() && other.Valid() && nbits == other.nbits && (this == other || words != other.words)
      modifies words
      ensures Valid() && Members() == (old(Members()) - old(other.Members())) + (old(other.Members()) - old(Members()))
    {
      hide *;
      ghost var x, y := words[..], other.words[..];
      Opened();
      other.Opened();
      var w := 0;
      while w < nwords
        invariant 0 <= w <= nwords == words.Length == |x| && other.words.Length == |y| == nwords
        invariant forall v :: 0 <= v < w ==> words[v] == Xor(x[v], y[v])
        invariant forall v :: w <= v < nwords ==> words[v] == x[v] && other.words[v] == y[v]
      {
        words[w] := Xor(words[w], other.words[w]);
        w := w + 1;
      }
      forall v | 0 <= v < nwords ensures PairBits(Differ, words[..][v], x[v], y[v]) {
        PairOps(x[v], y[v]);
      }
      PairedUp(Differ, words[..], x, y, nbits);
      Closed();
    }

    lemma Closed()
      requires nwords == words.Length == WordsFor(nbits) && Words(words[..]) && ClearFrom(words[..], nbits)
      ensures Valid() && Members() == Below(words[..], nbits)
    {
    }

    method Eq(other: BitSet) returns (r: bool)
      requires Valid() && other.Valid()
      ensures r <==> nbits == other.nbits && Members() == other.Members()
    {
      hide *;
      if this == other {
        return true;
      }
      if nbits != other.nbits {
        return false;
      }
      ghost var x, y := words[..], other.words[..];
      Opened();
      other.Opened();
      SameSet(x, y, nbits);
      var w := 0;
      while w < nwords
        invariant 0 <= w <= nwords && forall v :: 0 <= v < w ==> x[v] == y[v]
      {
        if words[w] != other.words[w] {
          assert x[w] != y[w];
          return false;
        }
        w := w + 1;
      }
      return true;
    }

    method IsSubset(other: BitSet) returns (r: bool)
      requires Valid() && other.Valid() && nbits == other.nbits
      ensures r <==> Members() <= other.Members()
    {
      hide *;
      ghost var x, y := words[..], other.words[..];
      Opened();
      other.Opened();
      NoWordsYet(x, y);
      var w := 0;
      while w < nwords
        invariant 0 <= w <= nwords && SubsetSoFar(x, y, w)
      {
        SubsetStep(x, y, w, nbits);
        if And(words[w], Not(other.words[w])) != 0 {
          return false;
        }
        w := w + 1;
      }
      SubsetEnd(x, y, nbits);
      return true;
    }

    method Intersects(other: BitSet) returns (r: bool)
      requires Valid() && other.Valid() && nbits == other.nbits
      ensures r <==> Members() * other.Members() != {}
    {
      hide *;
      ghost var x, y := words[..], other.words[..];
      Opened();
      other.Opened();
      NoWordsYet(x, y);
      var w := 0;
      while w < nwords
        invariant 0 <= w <= nwords && ApartSoFar(x, y, w)
      {
        ApartStep(x, y, w, nbits);
        if And(words[w], other.words[w]) != 0 {
          return true;
        }
        w := w + 1;
      }
      ApartEnd(x, y, nbits);
      return false;
    }

    method CopyWith(allocator: Allocator, grants: nat) returns (r: BitSet?)
      requires Valid()
      modifies allocator
      ensures r != null <==> (if nbits == 0 then 1 else 2) <= grants
      ensures r == null ==> allocator.lent == old(allocator.lent)
      ensures r != null ==> r.Owned() && r.Others() == old(allocator.lent) + {r}
      ensures r != null ==> fresh(r) && fresh(r.words) && r.Valid() && r.al == allocator
      ensures r != null ==> r.nbits == nbits && r.Members() == Members()
    {
      hide In, Words, ClearFrom, WordsFor;
      var copy := New(nbits, allocator, grants);
      if copy == null {
        return null;
      }
      Opened();
      ghost var ws := words[..];
      copy.Opened();
      forall w | 0 <= w < nwords {
        copy.words[w] := words[w];
      }
      assert copy.words[..] == ws && words[..] == ws;
      copy.Closed();
      return copy;
    }

    /** Makes other the same subset of the same universe; the words are reallocated only when their number differs. */
    method CopyAssign(other: BitSet, granted: bool) returns (ok: bool)
      requires Valid() && other.Valid() && (this == other || words != other.words) && other.Owned()
      modifies other, other.words, other.al
      ensures other.Owned() && other.Others() == old(other.Others())
      ensures Valid() && other.Valid() && (other.words == old(other.words) || fresh(other.words))
      ensures ok == (granted || nwords == old(other.nwords) || nwords == 0)
      ensures !ok || nwords == old(other.nwords) ==> other.words == old(other.words)
      ensures ok ==> other.nbits == nbits && other.Members() == Members()
      ensures !ok ==> other.nbits == old(other.nbits) && other.Members() == old(other.Members())
      ensures Members() == old(Members()) && nbits == old(nbits)
    {
      hide In, Words, ClearFrom, WordsFor;
      if this == other {
        return true;
      }
      if nwords != other.nwords {
        if nwords > 0 && !granted {
          return false;
        }
        var block := new nat[nwords](_ => 0);
        if nwords > 0 {
          other.al.Lend(block);
        }
        if other.nwords > 0 {
          other.al.TakeBack(other.words);
        }
        other.words := block;
        other.nwords := nwords;
      }
      other.nbits := nbits;
      forall w | 0 <= w < nwords {
        other.words[w] := words[w];
      }
      assert other.words[..] == words[..];
      return true;
    }

    /** Two sets of one allocator trade everything, the universe included. */
    method Swap(other: BitSet)
      requires Valid() && other.Valid() && al == other.al
      modifies this, other
      ensures Valid() && other.Valid()
      ensures words == old(other.words) && nbits == old(other.nbits) && Members() == old(other.Members())
      ensures other.words == old(words) && other.nbits == old(nbits) && other.Members() == old(Members())
    {
      hide In, Words, ClearFrom, WordsFor;
      words, other.words := other.words, words;
      nbits, other.nbits := other.nbits, nbits;
      nwords, other.nwords := other.nwords, nwords;
    }

    /** Hands everything over: the words within one allocator, a copy of them between two. */
    method MoveAssign(other: BitSet, grants: nat) returns (ok: bool)
      requires Valid() && other.Valid() && Owned() && other.Owned()
      modifies this, other, al, other.al
      ensures Valid() && other.Valid()
      ensures ok == (this == other || al == other.al || (if old(nbits) == 0 then 1 else 2) <= grants)
      ensures this == other || !ok ==> al.lent == old(al.lent) && other.al.lent == old(other.al.lent)
      ensures ok && this != other && al == other.al ==> al.lent == old(other.Others())
      ensures ok && al != other.al ==>
        al.lent == old(Others()) && other.Owned() && other.Others() == old(other.Others())
      ensures this == other || !ok ==>
        nbits == old(nbits) && Members() == old(Members()) && other.nbits == old(other.nbits)
          && other.Members() == old(other.Members())
      ensures ok && this != other ==> nbits == 0 && Members() == {}
      ensures ok && this != other ==> other.nbits == old(nbits) && other.Members() == old(Members())
    {
      hide Valid, Members;
      if this == other {
        return true;
      }
      if al == other.al {
        Swap(other);
        ReleaseWords();
        return true;
      }
      var obj := CopyWith(other.al, grants);
      if obj == null {
        return false;
      }
      other.Swap(obj);
      obj.Drop();
      ReleaseWords();
      return true;
    }

    /** No words and no numbers: what words there were are with the allocator again. */
    method ReleaseWords()
      requires Owned()
      modifies this, al
      ensures al.lent == old(Others())
      ensures Valid() && nbits == 0 && Members() == {}
    {
      if words.Length > 0 {
        al.TakeBack(words);
      }
      words, nbits, nwords := new nat[0], 0, 0;
    }
  }

  lemma PairedUp(op: (bool, bool) -> bool, r: seq<nat>, x: seq<nat>, y: seq<nat>, n: int)
    requires |r| == |x| == |y| && forall v :: 0 <= v < |r| ==> PairBits(op, r[v], x[v], y[v])
    requires op == Either || op == Both || op == Without || op == Differ
    requires ClearFrom(x, n) && ClearFrom(y, n)
    ensures Words(r) && ClearFrom(r, n)
    ensures op == Either ==> Below(r, n) == Below(x, n) + Below(y, n)
    ensures op == Both ==> Below(r, n) == Below(x, n) * Below(y, n)
    ensures op == Without ==> Below(r, n) == Below(x, n) - Below(y, n)
    ensures op == Differ ==> Below(r, n) == (Below(x, n) - Below(y, n)) + (Below(y, n) - Below(x, n))
  {
    hide PairBits;
    assert PairRow(op, r, x, y, |r|);
    assert !op(false, false);
    hide PairRow, In, ClearFrom, Words;
    PairSets(op, r, x, y, n);
    forall i ensures i in Below(r, n) <==> 0 <= i < n && op(i in Below(x, n), i in Below(y, n)) {
      assert In(r, i) == op(In(x, i), In(y, i));
    }
  }

  lemma SameSet(x: seq<nat>, y: seq<nat>, n: int)
    requires |x| == |y| && Words(x) && Words(y) && ClearFrom(x, n) && ClearFrom(y, n)
    ensures x == y <==> Below(x, n) == Below(y, n)
    ensures x == y <==> forall v :: 0 <= v < |x| ==> x[v] == y[v]
  {
    hide In;
    SameRow(x, y);
    if Below(x, n) == Below(y, n) {
      forall i ensures In(x, i) == In(y, i) {
        assert i in Below(x, n) <==> i in Below(y, n);
        assert 0 <= i < n ==> (In(x, i) <==> i in Below(x, n)) && (In(y, i) <==> i in Below(y, n));
        NegativeIn(x, i);
        NegativeIn(y, i);
      }
    }
  }

  lemma NegativeIn(ws: seq<nat>, i: int)
    ensures i < 0 ==> !In(ws, i)
  {
  }

  ghost predicate SubsetSoFar(x: seq<nat>, y: seq<nat>, w: int) {
    forall i {:trigger In(x, i)} :: 0 <= i < 64 * w && In(x, i) ==> In(y, i)
  }

  ghost predicate ApartSoFar(x: seq<nat>, y: seq<nat>, w: int) {
    forall i {:trigger In(x, i)} :: 0 <= i < 64 * w && In(x, i) ==> !In(y, i)
  }

  lemma NoWordsYet(x: seq<nat>, y: seq<nat>)
    ensures SubsetSoFar(x, y, 0) && ApartSoFar(x, y, 0)
  {
  }

  lemma SubsetStep(x: seq<nat>, y: seq<nat>, w: int, n: int)
    requires 0 <= w < |x| == |y| && SubsetSoFar(x, y, w) && ClearFrom(x, n)
    ensures if And(x[w], Not(y[w])) == 0 then SubsetSoFar(x, y, w + 1) else !(Below(x, n) <= Below(y, n))
  {
    hide In;
    SubsetWord(x, y, w);
    if And(x[w], Not(y[w])) != 0 {
      var i :| 64 * w <= i < 64 * w + 64 && In(x, i) && !In(y, i);
      MemberBelow(x, n, i);
      assert i !in Below(y, n);
    }
  }

  lemma SubsetEnd(x: seq<nat>, y: seq<nat>, n: int)
    requires |x| == |y| && n <= 64 * |x| && SubsetSoFar(x, y, |x|)
    ensures Below(x, n) <= Below(y, n)
  {
    hide In;
  }

  lemma ApartStep(x: seq<nat>, y: seq<nat>, w: int, n: int)
    requires 0 <= w < |x| == |y| && ApartSoFar(x, y, w) && ClearFrom(x, n) && ClearFrom(y, n)
    ensures if And(x[w], y[w]) == 0 then ApartSoFar(x, y, w + 1) else Below(x, n) * Below(y, n) != {}
  {
    hide In;
    MeetWord(x, y, w);
    if And(x[w], y[w]) != 0 {
      var i :| 64 * w <= i < 64 * w + 64 && In(x, i) && In(y, i);
      MemberBelow(x, n, i);
      MemberBelow(y, n, i);
      assert i in Below(x, n) * Below(y, n);
    }
  }

  lemma ApartEnd(x: seq<nat>, y: seq<nat>, n: int)
    requires |x| == |y| && n <= 64 * |x| && ApartSoFar(x, y, |x|)
    ensures Below(x, n) * Below(y, n) == {}
  {
    hide In;
    assert Below(x, n) * Below(y, n) == Universe(0);
  }

  /** Where a scan from a position stands at word w, whose bits from that position on are those of word: nothing before
      word w, and the lowest one bit of word is the next member. */
  ghost predicate Scanned(ws: seq<nat>, w: int, from: int, word: nat)
    requires 0 <= w < |ws|
  {
    && word < Pow2(WORD)
    && (word == 0 ==> forall i {:trigger In(ws, i)} :: from <= i < 64 * w + 64 ==> !In(ws, i))
    && (word != 0 ==>
          var k: int := 64 * w + FirstOne(word);
          from <= k && In(ws, k) && forall i {:trigger In(ws, i)} :: from <= i < k ==> !In(ws, i))
  }

  lemma ScanStart(ws: seq<nat>, w: int, from: int)
    requires 0 <= from && w == from / 64 < |ws|
    ensures Scanned(ws, w, from, And(ws[w], Not(Mask(from % 64))))
  {
    hide In, Bit, FirstOne, Mask, Pow2;
    WordFrom(ws[w], from % 64);
    FirstInWord(ws, w, from, And(ws[w], Not(Mask(from % 64))));
  }

  lemma ScanNext(ws: seq<nat>, w: int, from: int)
    requires 0 < w < |ws| && Words(ws) && from < 64 * w && Scanned(ws, w - 1, from, 0)
    ensures Scanned(ws, w, from, ws[w])
  {
    hide In, Bit, FirstOne, Pow2;
    FirstInWord(ws, w, 64 * w, ws[w]);
  }

  lemma ScanEmpty(ws: seq<nat>, n: int, w: int, from: int)
    requires 0 <= w == |ws| - 1 && n <= 64 * |ws| && Scanned(ws, w, from, 0)
    ensures forall i: int :: from <= i ==> i !in Below(ws, n)
  {
    hide In;
  }

  lemma NoneBeyond(ws: seq<nat>, n: int, from: int)
    requires n <= from
    ensures forall i: int :: from <= i ==> i !in Below(ws, n)
  {
  }

  lemma ScanHit(ws: seq<nat>, n: int, w: int, from: int, word: nat)
    requires 0 <= w < |ws| && ClearFrom(ws, n) && Scanned(ws, w, from, word) && word != 0
    ensures var k: int := 64 * w + FirstOne(word);
            from <= k && k in Below(ws, n) && forall i: int :: from <= i < k ==> i !in Below(ws, n)
  {
    hide FirstOne;
    MemberBelow(ws, n, 64 * w + FirstOne(word));
  }

  lemma Complement(ws: seq<nat>) returns (cs: seq<nat>)
    ensures |cs| == |ws| && (forall w :: 0 <= w < |ws| ==> cs[w] == Not(ws[w])) && Words(cs)
    ensures forall i {:trigger In(cs, i)} :: 0 <= i < 64 * |ws| ==> In(cs, i) == !In(ws, i)
  {
    cs := seq(|ws|, v requires 0 <= v < |ws| => Not(ws[v]));
    FlippedRow(cs, ws);
  }

  lemma GapsEmpty(ws: seq<nat>, cs: seq<nat>, n: int, w: int, from: int)
    requires 0 <= w == |cs| - 1 && |cs| == |ws| && n <= 64 * |ws| && Scanned(cs, w, from, 0) && 0 <= from
    requires forall i {:trigger In(cs, i)} :: 0 <= i < 64 * |ws| ==> In(cs, i) == !In(ws, i)
    ensures forall i: int :: from <= i < n ==> i in Below(ws, n)
  {
    hide In;
    GapFree(ws, cs, n, from, n);
  }

  lemma GapHit(ws: seq<nat>, cs: seq<nat>, n: int, w: int, from: int, word: nat)
    requires 0 <= w < |cs| == |ws| && n <= 64 * |ws| && 0 <= from && Scanned(cs, w, from, word) && word != 0
    requires forall i {:trigger In(cs, i)} :: 0 <= i < 64 * |ws| ==> In(cs, i) == !In(ws, i)
    ensures var k: int := 64 * w + FirstOne(word);
            && from <= k && (forall i: int :: from <= i < k && i < n ==> i in Below(ws, n))
              && (k < n ==> k !in Below(ws, n))
  {
    hide In, FirstOne;
    var k: int := 64 * w + FirstOne(word);
    GapFree(ws, cs, n, from, if k < n then k else n);
  }

  lemma BelowNone(ws: seq<nat>)
    ensures Below(ws, 0) == {}
  {
  }

  lemma MemberBelow(ws: seq<nat>, n: int, i: int)
    requires ClearFrom(ws, n) && In(ws, i)
    ensures 0 <= i < n && i in Below(ws, n)
  {
    assert n <= i ==> !In(ws, i);
  }

  lemma AllBelow(ws: seq<nat>, n: int)
    requires forall i {:trigger In(ws, i)} :: 0 <= i < n ==> In(ws, i)
    ensures Below(ws, n) == Universe(n)
  {
  }

  lemma GapFree(ws: seq<nat>, cs: seq<nat>, n: int, from: int, to: int)
    requires n <= 64 * |ws| && 0 <= from && to <= n
    requires forall i {:trigger In(cs, i)} :: 0 <= i < 64 * |ws| ==> In(cs, i) == !In(ws, i)
    requires forall i {:trigger In(cs, i)} :: from <= i < to ==> !In(cs, i)
    ensures forall i: int :: from <= i < to ==> i in Below(ws, n)
    ensures 0 <= to < n && In(cs, to) ==> to !in Below(ws, n)
  {
    forall i | from <= i < to ensures i in Below(ws, n) {
      assert !In(cs, i);
    }
  }

  lemma EmptyRow(ws: seq<nat>, n: int)
    requires forall w :: 0 <= w < |ws| ==> ws[w] == 0
    ensures Words(ws) && ClearFrom(ws, n) && Below(ws, n) == {}
  {
    forall i ensures !In(ws, i) {
      if 0 <= i < 64 * |ws| {
        NoBits(i % 64);
      }
    }
  }

  lemma FullRow(ws: seq<nat>)
    requires forall w :: 0 <= w < |ws| ==> ws[w] == Mask(64)
    ensures Words(ws) && forall i {:trigger In(ws, i)} :: 0 <= i < 64 * |ws| ==> In(ws, i)
  {
    MaskFits(64);
    forall i | 0 <= i < 64 * |ws| ensures In(ws, i) {
      MaskBit(64, i % 64);
    }
  }

  lemma FlippedRow(r: seq<nat>, ws: seq<nat>)
    requires |r| == |ws| && forall w :: 0 <= w < |ws| ==> r[w] == Not(ws[w])
    ensures Words(r) && forall i {:trigger In(r, i)} :: 0 <= i < 64 * |ws| ==> In(r, i) == !In(ws, i)
  {
    forall w | 0 <= w < |r| ensures PairBits(Negated, r[w], ws[w], ws[w]) {
      PairOps(ws[w], ws[w]);
    }
    forall i | 0 <= i < 64 * |ws| ensures In(r, i) == !In(ws, i) {
      PairIn(Negated, r, ws, ws, i);
    }
    forall w | 0 <= w < |r| ensures r[w] < Pow2(WORD) {
      WordsFit(ws[w], 0);
    }
  }

  lemma FlippedBelow(t: seq<nat>, r: seq<nat>, ws: seq<nat>, n: int)
    requires n <= 64 * |ws| && forall i {:trigger In(r, i)} :: 0 <= i < 64 * |ws| ==> In(r, i) == !In(ws, i)
    requires forall i {:trigger In(t, i)} :: i < n ==> In(t, i) == In(r, i)
    ensures Below(t, n) == Universe(n) - Below(ws, n)
  {
  }
}
