/** Fisher-Yates, whole and stopped early (tda_span_shuffle and tda_span_shuffle_prefix in src/algo/permute.c): what the
    generator's bounded draws do to a span. On distinct elems the vectors of draws correspond one to one to the orders.
    */
module Shuffling {
  import opened Sequences
  import opened Spans
  import opened Generator
  import opened Bounded

  lemma SwapDistinct<T>(s: seq<T>, i: int, j: int)
    requires Distinct(s) && 0 <= i < |s| && 0 <= j < |s|
    ensures Distinct(Swap(s, i, j))
  {
  }

  lemma SameElem<T>(s: seq<T>, i: int, j: int)
    requires Distinct(s) && 0 <= i < |s| && 0 <= j < |s| && s[i] == s[j]
    ensures i == j
  {
  }

  /** Two vectors of draws agree from the k-th draw on. */
  ghost predicate AgreeFrom(ds: seq<int>, es: seq<int>, k: int) {
    |ds| == |es| && forall j :: k <= j < |ds| && 0 <= j ==> ds[j] == es[j]
  }

  lemma AgreeOneMore(ds: seq<int>, es: seq<int>, k: int)
    requires AgreeFrom(ds, es, k + 1) && 0 <= k < |ds| && ds[k] == es[k]
    ensures AgreeFrom(ds, es, k)
  {
  }

  lemma NoneLeft(ds: seq<int>, es: seq<int>, k: int)
    requires |ds| == |es| <= k
    ensures AgreeFrom(ds, es, k)
  {
  }

  lemma AllAgree(ds: seq<int>, es: seq<int>)
    requires AgreeFrom(ds, es, 0)
    ensures ds == es
  {
  }

  /** The draws are the answers the generator gives one after the other, the j-th of them from [0, n - j): ats says
      where each finds the stream of words from state g and where the last one leaves it. */
  ghost predicate Drawn(g: State, n: int, draws: seq<int>, ats: seq<nat>) {
    && |ats| == |draws| + 1 && ats[0] == 0
    && forall j {:trigger draws[j]} :: 0 <= j < |draws| ==> Answers(g, n - j, ats[j], draws[j], ats[j + 1])
  }

  lemma NoneDrawn(g: State, n: int)
    ensures Drawn(g, n, [], [0]) && After(g, 0) == g
  {
  }

  lemma OneDrawn(g: State, n: int, draws: seq<int>, ats: seq<nat>, v: int, to: nat)
    requires Drawn(g, n, draws, ats) && Answers(g, n - |draws|, ats[|draws|], v, to)
    ensures Drawn(g, n, draws + [v], ats + [to])
  {
    hide Answers;
    var ds, ts := draws + [v], ats + [to];
    forall j | 0 <= j < |ds| ensures Answers(g, n - j, ts[j], ds[j], ts[j + 1]) {
      if j < |draws| {
        assert ds[j] == draws[j];
      }
    }
  }

  /** For each draw a span of n can need, the generator's stream has a word that is kept. */
  ghost predicate Endless(g: State, n: int) {
    forall r :: 0 < r <= n ==> GivesKept(g, false, r)
  }

  lemma EndlessFor(g: State, n: int, r: int)
    requires Endless(g, n) && 0 < r <= n
    ensures GivesKept(g, false, r)
  {
  }

  // ---------- the whole shuffle: settling positions from the back ----------

  /** The draws a shuffle of n elems makes: first from [0, n), then from [0, n - 1), down to [0, 2). */
  ghost predicate Draws(ds: seq<int>, n: int) {
    |ds| == (if n <= 1 then 0 else n - 1) && forall j :: 0 <= j < |ds| ==> 0 <= ds[j] < n - j
  }

  /** The draw numbered |s| - i settles position i - 1 (one out of range would leave it alone). */
  ghost function Settle<T>(s: seq<T>, i: int, ds: seq<int>): (r: seq<T>)
    ensures |r| == |s|
  {
    if 1 <= i <= |s| && |s| - i < |ds| && 0 <= ds[|s| - i] < i then Swap(s, i - 1, ds[|s| - i]) else s
  }

  /** All positions below i settled, from the back. */
  ghost function Shuffled<T>(s: seq<T>, i: int, ds: seq<int>): (r: seq<T>)
    ensures |r| == |s|
    decreases i
  {
    if i <= 1 then s else Shuffled(Settle(s, i, ds), i - 1, ds)
  }

  lemma SettleKeeps<T>(s: seq<T>, i: int, ds: seq<int>)
    ensures multiset(Settle(s, i, ds)) == multiset(s)
    ensures forall k :: 0 <= k < |s| && i <= k ==> Settle(s, i, ds)[k] == s[k]
  {
  }

  /** The positions from i on are settled already; and nothing is lost. */
  lemma {:induction false} ShuffledKeeps<T>(s: seq<T>, i: int, ds: seq<int>)
    ensures multiset(Shuffled(s, i, ds)) == multiset(s)
    ensures forall k :: 0 <= k < |s| && i <= k ==> Shuffled(s, i, ds)[k] == s[k]
    decreases i
  {
    hide Swap;
    if i > 1 {
      ShuffledKeeps(Settle(s, i, ds), i - 1, ds);
      SettleKeeps(s, i, ds);
    }
  }

  lemma ShuffledUnfolds<T>(s: seq<T>, i: int, ds: seq<int>)
    requires i <= |s| && Draws(ds, |s|)
    ensures i <= 1 ==> Shuffled(s, i, ds) == s
    ensures 1 < i ==> |s| - i < |ds| && 0 <= ds[|s| - i] < i
    ensures 1 < i ==> Shuffled(s, i, ds) == Shuffled(Swap(s, i - 1, ds[|s| - i]), i - 1, ds)
  {
  }

  /** The elem a draw settles. */
  lemma ShuffledAt<T>(s: seq<T>, i: int, ds: seq<int>)
    requires 1 < i <= |s| && Draws(ds, |s|)
    ensures |s| - i < |ds| && 0 <= ds[|s| - i] < i && Shuffled(s, i, ds)[i - 1] == s[ds[|s| - i]]
  {
    hide *;
    ShuffledUnfolds(s, i, ds);
    ShuffledKeeps(Swap(s, i - 1, ds[|s| - i]), i - 1, ds);
  }

  /** Different draws never give the same order. */
  lemma {:induction false} ShuffledInjective<T>(s: seq<T>, i: int, ds: seq<int>, es: seq<int>)
    requires Distinct(s) && i <= |s| && Draws(ds, |s|) && Draws(es, |s|)
    requires Shuffled(s, i, ds) == Shuffled(s, i, es)
    ensures AgreeFrom(ds, es, |s| - i)
    decreases i
  {
    hide *;
    if i > 1 {
      var u := SameDraw(s, i, ds, es);
      ShuffledInjective(u, i - 1, ds, es);
      AgreeOneMore(ds, es, |s| - i);
    } else {
      DrawsLength(ds, es, |s|);
      NoneLeft(ds, es, |s| - i);
    }
  }

  /** The elem at i - 1 tells the draw that put it there. */
  lemma SameDraw<T>(s: seq<T>, i: int, ds: seq<int>, es: seq<int>) returns (u: seq<T>)
    requires Distinct(s) && 1 < i <= |s| && Draws(ds, |s|) && Draws(es, |s|)
    requires Shuffled(s, i, ds) == Shuffled(s, i, es)
    ensures |s| - i < |ds| == |es| && ds[|s| - i] == es[|s| - i]
    ensures |u| == |s| && Distinct(u) && Shuffled(u, i - 1, ds) == Shuffled(u, i - 1, es)
  {
    hide *;
    DrawsLength(ds, es, |s|);
    ShuffledAt(s, i, ds);
    ShuffledAt(s, i, es);
    var d, e := ds[|s| - i], es[|s| - i];
    assert s[d] == s[e];
    SameElem(s, d, e);
    SwapDistinct(s, i - 1, d);
    u := Swap(s, i - 1, d);
    ShuffledUnfolds(s, i, ds);
    ShuffledUnfolds(s, i, es);
  }

  lemma DrawsLength(ds: seq<int>, es: seq<int>, n: int)
    requires Draws(ds, n) && Draws(es, n)
    ensures |ds| == |es| == if n <= 1 then 0 else n - 1
  {
  }

  /** Where an elem that the target has at i - 1 stands among the first i. */
  lemma FindBelow<T>(s: seq<T>, t: seq<T>, i: int) returns (d: int)
    requires 1 <= i <= |s| == |t| && multiset(s) == multiset(t) && s[i..] == t[i..]
    ensures 0 <= d < i && s[d] == t[i - 1]
  {
    assert s == s[..i] + s[i..] && t == t[..i] + t[i..];
    assert multiset(s[..i]) == multiset(s) - multiset(s[i..]);
    assert multiset(t[..i]) == multiset(t) - multiset(t[i..]);
    var x := t[i - 1];
    assert t[..i][i - 1] == x;
    assert x in multiset(t[..i]);
    assert x in multiset(s[..i]);
    d :| 0 <= d < i && s[..i][d] == x;
  }

  lemma SameSettle<T>(s: seq<T>, i: int, ds: seq<int>, es: seq<int>)
    requires 1 < i <= |s| && AgreeFrom(ds, es, |s| - i)
    ensures Settle(s, i, ds) == Settle(s, i, es) && AgreeFrom(ds, es, |s| - (i - 1))
  {
    hide Swap;
  }

  /** Draws not yet looked at do not matter. */
  lemma {:induction false} EarlierDraws<T>(s: seq<T>, i: int, ds: seq<int>, es: seq<int>)
    requires i <= |s| && AgreeFrom(ds, es, |s| - i)
    ensures Shuffled(s, i, ds) == Shuffled(s, i, es)
    decreases i
  {
    hide Swap, Settle, AgreeFrom;
    if i > 1 {
      SameSettle(s, i, ds, es);
      EarlierDraws(Settle(s, i, ds), i - 1, ds, es);
    }
  }

  /** Every order is given by some draws. */
  lemma {:induction false} ShuffledOnto<T>(s: seq<T>, t: seq<T>, i: int) returns (ds: seq<int>)
    requires 0 <= i <= |s| == |t| && multiset(s) == multiset(t) && s[i..] == t[i..]
    ensures Draws(ds, |s|) && Shuffled(s, i, ds) == t
    decreases i
  {
    hide *;
    if i <= 1 {
      ds := NoDraws(s, t, i);
    } else {
      var d := FindBelow(s, t, i);
      var u := Swap(s, i - 1, d);
      SameFrom(s, u, t, i);
      var rest := ShuffledOnto(u, t, i - 1);
      ds := DrawLast(s, i, d, t, rest);
    }
  }

  lemma NoDraws<T>(s: seq<T>, t: seq<T>, i: int) returns (ds: seq<int>)
    requires 0 <= i <= 1 && i <= |s| == |t| && multiset(s) == multiset(t) && s[i..] == t[i..]
    ensures Draws(ds, |s|) && Shuffled(s, i, ds) == t
  {
    ds := seq(if |s| <= 1 then 0 else |s| - 1, _ => 0);
    if i == 1 {
      var d := FindBelow(s, t, 1);
    }
    assert s == s[..i] + s[i..] && t == t[..i] + t[i..] && s[..i] == t[..i];
  }

  lemma DrawLast<T>(s: seq<T>, i: int, d: int, t: seq<T>, rest: seq<int>) returns (ds: seq<int>)
    requires 1 < i <= |s| && 0 <= d < i && Draws(rest, |s|) && Shuffled(Swap(s, i - 1, d), i - 1, rest) == t
    ensures Draws(ds, |s|) && Shuffled(s, i, ds) == t
  {
    hide Swap, Shuffled, Settle;
    ds := rest[|s| - i := d];
    EarlierDraws(Swap(s, i - 1, d), i - 1, rest, ds);
    ShuffledUnfolds(s, i, ds);
  }

  lemma SameFrom<T>(s: seq<T>, u: seq<T>, t: seq<T>, i: int)
    requires 1 <= i <= |s| == |u| == |t| && s[i..] == t[i..] && u[i - 1] == t[i - 1]
    requires forall k :: i <= k < |s| ==> u[k] == s[k]
    ensures u[i - 1..] == t[i - 1..]
  {
    assert u[i..] == s[i..];
    assert u[i - 1..] == [u[i - 1]] + u[i..] && t[i - 1..] == [t[i - 1]] + t[i..];
  }

  /** The draws ds turn s into t. */
  ghost predicate Gives<T>(s: seq<T>, ds: seq<int>, t: seq<T>) {
    Draws(ds, |s|) && Shuffled(s, |s|, ds) == t
  }

  /** Every order of the elems comes from some draws. */
  lemma ShuffleGivesAll<T>(s: seq<T>, t: seq<T>)
    requires multiset(s) == multiset(t)
    ensures exists ds :: Gives(s, ds, t)
  {
    assert |multiset(s)| == |s| && |multiset(t)| == |t|;
    hide Shuffled, Draws;
    var ds := ShuffledOnto(s, t, |s|);
    assert Gives(s, ds, t);
  }

  /** And from no others: the draws correspond one to one to the orders of distinct elems. */
  lemma ShuffleIsOneToOne<T>(s: seq<T>, t: seq<T>, ds: seq<int>, es: seq<int>)
    requires Distinct(s) && Gives(s, ds, t) && Gives(s, es, t)
    ensures ds == es && multiset(t) == multiset(s)
  {
    GivesIs(s, ds, t);
    GivesIs(s, es, t);
    hide *;
    ShuffledKeeps(s, |s|, ds);
    ShuffledInjective(s, |s|, es, ds);
    AllAgree(es, ds);
  }

  lemma GivesIs<T>(s: seq<T>, ds: seq<int>, t: seq<T>)
    ensures Gives(s, ds, t) <==> Draws(ds, |s|) && Shuffled(s, |s|, ds) == t
  {
  }

  /** With i positions to go, draws so far: however the rest is drawn, the same order comes out from h as from h0. */
  ghost predicate Settling<T>(h: seq<T>, h0: seq<T>, i: int, draws: seq<int>) {
    && |h| == |h0| && forall ds :: draws <= ds && Draws(ds, |h0|) ==> Shuffled(h, i, ds) == Shuffled(h0, |h0|, ds)
  }

  lemma SettlingStarts<T>(h: seq<T>)
    ensures Settling(h, h, |h|, [])
  {
  }

  lemma SettlingStep<T>(h: seq<T>, h0: seq<T>, i: int, draws: seq<int>, v: int)
    requires Settling(h, h0, i, draws) && 1 < i <= |h| && |draws| == |h| - i && 0 <= v < i
    ensures Settling(Swap(h, i - 1, v), h0, i - 1, draws + [v])
  {
    hide Shuffled, Draws, Swap;
    forall ds | draws + [v] <= ds && Draws(ds, |h0|)
      ensures Shuffled(Swap(h, i - 1, v), i - 1, ds) == Shuffled(h0, |h0|, ds)
    {
      assert draws <= ds && ds[|h| - i] == v;
      ShuffledUnfolds(h, i, ds);
    }
  }

  lemma SettlingEnds<T>(h: seq<T>, h0: seq<T>, i: int, draws: seq<int>)
    requires Settling(h, h0, i, draws) && i <= 1 && i <= |h| && Draws(draws, |h0|)
    ensures h == Shuffled(h0, |h0|, draws)
  {
    hide Draws;
    ShuffledUnfolds(h, i, draws);
  }

  /** Every draw is in range, as far as they go. */
  ghost predicate InReach(draws: seq<int>, n: int) {
    forall j :: 0 <= j < |draws| ==> 0 <= draws[j] < n - j
  }

  lemma ReachFurther(draws: seq<int>, n: int, v: int)
    requires InReach(draws, n) && 0 <= v < n - |draws|
    ensures InReach(draws + [v], n)
  {
  }

  lemma ReachDone(draws: seq<int>, n: int)
    requires InReach(draws, n)
    ensures |draws| == (if n <= 1 then 0 else n - 1) ==> Draws(draws, n)
    ensures PrefixDraws(draws, n, |draws|)
    ensures InReach([], n)
  {
  }

  /** Settles the positions from the back on, each by a draw that is made when its turn comes. */
  method Shuffle<T>(a: array<T>, lo: int, hi: int, rng: Rng) returns (ghost draws: seq<int>, ghost ats: seq<nat>)
    requires 0 <= lo <= hi <= a.Length && hi - lo < TWO_64 && Endless(rng.s, hi - lo)
    modifies a, rng
    ensures Draws(draws, hi - lo) && a[lo..hi] == Shuffled(old(a[lo..hi]), hi - lo, draws)
    ensures Drawn(old(rng.s), hi - lo, draws, ats) && rng.s == After(old(rng.s), ats[|draws|])
    ensures forall k :: 0 <= k < lo || hi <= k < a.Length ==> a[k] == old(a[k])
  {
    hide *;
    ghost var h0 := a[lo..hi];
    SpanElems(a, lo, hi, h0);
    ghost var h;
    h, draws, ats := SettleAll(a, lo, hi - lo, rng, h0);
    SubSpan(a, lo, h, 0, |h|);
    assert h[0..|h|] == h;
  }

  method SettleAll<T>(a: array<T>, lo: int, n: int, rng: Rng, ghost h0: seq<T>)
    returns (ghost h: seq<T>, ghost draws: seq<int>, ghost ats: seq<nat>)
    requires 0 <= lo && lo + n <= a.Length && n == |h0| && n < TWO_64 && Endless(rng.s, n)
    requires forall k :: 0 <= k < |h0| ==> a[lo + k] == h0[k]
    modifies a, rng
    ensures Draws(draws, n) && h == Shuffled(h0, n, draws) && |h| == n
    ensures |ats| == |draws| + 1 && Drawn(old(rng.s), n, draws, ats) && rng.s == After(old(rng.s), ats[|draws|])
    ensures forall k :: 0 <= k < |h| ==> a[lo + k] == h[k]
    ensures forall k :: 0 <= k < lo || lo + n <= k < a.Length ==> a[k] == old(a[k])
  {
    hide *;
    ghost var g := rng.s;
    h, draws, ats := h0, [], [0];
    SettlingStarts(h0);
    ReachDone([], n);
    NoneDrawn(g, n);
    var i := n;
    while i > 1
      invariant 0 <= i <= n == |h| && (n == 0 || 1 <= i) && |draws| == n - i && |ats| == |draws| + 1
      invariant Settling(h, h0, i, draws) && InReach(draws, n)
      invariant Drawn(g, n, draws, ats) && rng.s == After(g, ats[|draws|]) && Endless(g, n)
      invariant forall k :: 0 <= k < |h| ==> a[lo + k] == h[k]
      invariant forall k :: 0 <= k < lo || lo + n <= k < a.Length ==> a[k] == old(a[k])
    {
      EndlessFor(g, n, i);
      var v;
      ghost var to;
      v, to := DrawIdx(rng, i, g, ats[|draws|]);
      SettlingStep(h, h0, i, draws, v);
      ReachFurther(draws, n, v);
      OneDrawn(g, n, draws, ats, v, to);
      h := SwapElems(a, lo, i - 1, v, h);
      draws, ats := draws + [v], ats + [to];
      i := i - 1;
    }
    ReachDone(draws, n);
    SettlingEnds(h, h0, i, draws);
  }

  // ---------- stopped early: settling positions from the front ----------

  /** The draws that settle count positions out of n: the j-th is from [0, n - j). */
  ghost predicate PrefixDraws(ds: seq<int>, n: int, count: int) {
    |ds| == count && forall j :: 0 <= j < |ds| ==> 0 <= ds[j] < n - j
  }

  /** The draw numbered i settles position i (one out of range would leave it alone). */
  ghost function Pick<T>(s: seq<T>, i: int, ds: seq<int>): (r: seq<T>)
    ensures |r| == |s|
  {
    if 0 <= i < |ds| && 0 <= ds[i] < |s| - i then Swap(s, i, i + ds[i]) else s
  }

  /** All positions from i up to the number of draws settled, from the front. */
  ghost function Sampled<T>(s: seq<T>, i: int, ds: seq<int>): (r: seq<T>)
    ensures |r| == |s|
    decreases |ds| - i
  {
    if i >= |ds| then s else Sampled(Pick(s, i, ds), i + 1, ds)
  }

  lemma PickKeeps<T>(s: seq<T>, i: int, ds: seq<int>)
    ensures multiset(Pick(s, i, ds)) == multiset(s)
    ensures forall k :: 0 <= k < i && k < |s| ==> Pick(s, i, ds)[k] == s[k]
  {
  }

  /** The positions before i are settled already; and nothing is lost. */
  lemma {:induction false} SampledKeeps<T>(s: seq<T>, i: int, ds: seq<int>)
    requires 0 <= i
    ensures multiset(Sampled(s, i, ds)) == multiset(s)
    ensures forall k :: 0 <= k < i && k < |s| ==> Sampled(s, i, ds)[k] == s[k]
    decreases |ds| - i
  {
    hide Swap;
    if i < |ds| {
      SampledKeeps(Pick(s, i, ds), i + 1, ds);
      PickKeeps(s, i, ds);
    }
  }

  lemma SampledUnfolds<T>(s: seq<T>, i: int, ds: seq<int>, count: int)
    requires 0 <= i && count <= |s| && PrefixDraws(ds, |s|, count)
    ensures |ds| == count
    ensures count <= i ==> Sampled(s, i, ds) == s
    ensures i < count ==> 0 <= ds[i] < |s| - i
    ensures i < count ==> Pick(s, i, ds) == Swap(s, i, i + ds[i])
    ensures i < count ==> Sampled(s, i, ds) == Sampled(Swap(s, i, i + ds[i]), i + 1, ds)
  {
  }

  lemma SampledAt<T>(s: seq<T>, i: int, ds: seq<int>)
    requires 0 <= i < |ds| <= |s| && PrefixDraws(ds, |s|, |ds|)
    ensures 0 <= ds[i] < |s| - i && Sampled(s, i, ds)[i] == s[i + ds[i]]
  {
    hide *;
    SampledUnfolds(s, i, ds, |ds|);
    SampledKeeps(Swap(s, i, i + ds[i]), i + 1, ds);
  }

  /** Different draws never give the same front. */
  lemma {:induction false} SampledInjective<T>(s: seq<T>, i: int, ds: seq<int>, es: seq<int>)
    requires Distinct(s) && 0 <= i <= |ds| == |es| <= |s| && PrefixDraws(ds, |s|, |ds|) && PrefixDraws(es, |s|, |ds|)
    requires forall k :: i <= k < |ds| ==> Sampled(s, i, ds)[k] == Sampled(s, i, es)[k]
    ensures AgreeFrom(ds, es, i)
    decreases |ds| - i
  {
    hide *;
    if i < |ds| {
      SampledAt(s, i, ds);
      SampledAt(s, i, es);
      SameElem(s, i + ds[i], i + es[i]);
      SwapDistinct(s, i, i + ds[i]);
      var u := Swap(s, i, i + ds[i]);
      SampledUnfolds(s, i, ds, |ds|);
      SampledUnfolds(s, i, es, |ds|);
      SampledInjective(u, i + 1, ds, es);
      AgreeOneMore(ds, es, i);
    } else {
      NoneLeft(ds, es, i);
    }
  }

  /** The next elem of the selection is not among those already settled. */
  lemma Later<T>(s: seq<T>, i: int, p: seq<T>) returns (m: int)
    requires Distinct(p) && 0 <= i < |p| <= |s|
    requires forall k :: 0 <= k < i ==> p[k] == s[k]
    requires forall k :: 0 <= k < |p| ==> p[k] in s
    ensures i <= m < |s| && s[m] == p[i]
  {
    m :| 0 <= m < |s| && s[m] == p[i];
    SameElem(p, if m < i then m else i, i);
  }

  lemma SwapMembers<T>(s: seq<T>, i: int, m: int, p: seq<T>)
    requires 0 <= i < |s| && 0 <= m < |s| && forall k :: 0 <= k < |p| ==> p[k] in s
    ensures forall k :: 0 <= k < |p| ==> p[k] in Swap(s, i, m)
  {
    var u := Swap(s, i, m);
    forall k | 0 <= k < |p| ensures p[k] in u {
      var l :| 0 <= l < |s| && s[l] == p[k];
      assert u[if l == i then m else if l == m then i else l] == p[k];
    }
  }

  lemma SamePick<T>(s: seq<T>, i: int, ds: seq<int>, es: seq<int>)
    requires 0 <= i && AgreeFrom(ds, es, i)
    ensures Pick(s, i, ds) == Pick(s, i, es) && AgreeFrom(ds, es, i + 1)
  {
    hide Swap;
  }

  lemma {:induction false} LaterDraws<T>(s: seq<T>, i: int, ds: seq<int>, es: seq<int>)
    requires 0 <= i && |ds| == |es| && AgreeFrom(ds, es, i)
    ensures Sampled(s, i, ds) == Sampled(s, i, es)
    decreases |ds| - i
  {
    hide Swap, Pick, AgreeFrom;
    if i < |ds| {
      SamePick(s, i, ds, es);
      LaterDraws(Pick(s, i, ds), i + 1, ds, es);
    }
  }

  /** Every ordered selection of elems is given by some draws. */
  lemma {:induction false} SampledOnto<T>(s: seq<T>, i: int, p: seq<T>) returns (ds: seq<int>)
    requires Distinct(p) && 0 <= i <= |p| <= |s|
    requires forall k :: 0 <= k < i ==> p[k] == s[k]
    requires forall k :: 0 <= k < |p| ==> p[k] in s
    ensures PrefixDraws(ds, |s|, |p|) && forall k :: 0 <= k < |p| ==> Sampled(s, i, ds)[k] == p[k]
    decreases |p| - i
  {
    hide *;
    if i == |p| {
      ds := NoMoreDraws(s, p);
    } else {
      var m := Later(s, i, p);
      var u := Swap(s, i, m);
      assert forall k :: 0 <= k < i + 1 ==> p[k] == u[k];
      SwapMembers(s, i, m, p);
      var rest := SampledOnto(u, i + 1, p);
      ds := DrawFirst(s, i, m, p, rest);
    }
  }

  lemma NoMoreDraws<T>(s: seq<T>, p: seq<T>) returns (ds: seq<int>)
    requires |p| <= |s| && forall k :: 0 <= k < |p| ==> p[k] == s[k]
    ensures PrefixDraws(ds, |s|, |p|) && forall k :: 0 <= k < |p| ==> Sampled(s, |p|, ds)[k] == p[k]
  {
    ds := seq(|p|, _ => 0);
  }

  lemma DrawFirst<T>(s: seq<T>, i: int, m: int, p: seq<T>, rest: seq<int>) returns (ds: seq<int>)
    requires 0 <= i < |p| <= |s| && i <= m < |s| && PrefixDraws(rest, |s|, |p|)
    requires forall k :: 0 <= k < |p| ==> Sampled(Swap(s, i, m), i + 1, rest)[k] == p[k]
    ensures PrefixDraws(ds, |s|, |p|) && forall k :: 0 <= k < |p| ==> Sampled(s, i, ds)[k] == p[k]
  {
    hide Swap, Sampled, Pick;
    ds := rest[i := m - i];
    LaterDraws(Swap(s, i, m), i + 1, rest, ds);
    SampledUnfolds(s, i, ds, |p|);
  }

  /** The draws ds bring the selection p to the front of s. */
  ghost predicate Selects<T>(s: seq<T>, ds: seq<int>, p: seq<T>) {
    |p| <= |s| && PrefixDraws(ds, |s|, |p|) && Sampled(s, 0, ds)[..|p|] == p
  }

  /** The draws correspond one to one to the ordered selections of count distinct elems. */
  lemma PrefixIsOneToOne<T>(s: seq<T>, p: seq<T>)
    requires Distinct(s) && Distinct(p) && |p| <= |s| && forall k :: 0 <= k < |p| ==> p[k] in s
    ensures exists ds :: Selects(s, ds, p)
    ensures forall ds, es :: Selects(s, ds, p) && Selects(s, es, p) ==> ds == es
  {
    hide Distinct, Sampled;
    var ds := SampledOnto(s, 0, p);
    assert Selects(s, ds, p);
    forall ds, es | Selects(s, ds, p) && Selects(s, es, p) ensures ds == es {
      forall k | 0 <= k < |p| ensures Sampled(s, 0, es)[k] == Sampled(s, 0, ds)[k] {
        assert Sampled(s, 0, es)[..|p|][k] == p[k];
        assert Sampled(s, 0, ds)[..|p|][k] == p[k];
      }
      SampledInjective(s, 0, es, ds);
      AllAgree(es, ds);
    }
  }

  /** With the positions before |draws| settled: however the rest is drawn, the same order comes out from h as from h0.
      */
  ghost predicate Sampling<T>(h: seq<T>, h0: seq<T>, count: int, draws: seq<int>) {
    && |h| == |h0|
    && forall ds :: draws <= ds && PrefixDraws(ds, |h0|, count) ==> Sampled(h, |draws|, ds) == Sampled(h0, 0, ds)
  }

  lemma SamplingStarts<T>(h: seq<T>, count: int)
    ensures Sampling(h, h, count, [])
  {
  }

  lemma SamplingStep<T>(h: seq<T>, h0: seq<T>, count: int, draws: seq<int>, v: int)
    requires Sampling(h, h0, count, draws) && |draws| < count <= |h| && 0 <= v < |h| - |draws|
    ensures Sampling(Swap(h, |draws|, |draws| + v), h0, count, draws + [v])
  {
    hide Sampled, Pick, PrefixDraws, Swap;
    var i := |draws|;
    forall ds | draws + [v] <= ds && PrefixDraws(ds, |h0|, count)
      ensures Sampled(Swap(h, i, i + v), i + 1, ds) == Sampled(h0, 0, ds)
    {
      assert draws <= ds && ds[i] == v;
      SampledUnfolds(h, i, ds, count);
    }
  }

  lemma SamplingEnds<T>(h: seq<T>, h0: seq<T>, count: int, draws: seq<int>)
    requires Sampling(h, h0, count, draws) && |draws| == count <= |h| && PrefixDraws(draws, |h0|, count)
    ensures h == Sampled(h0, 0, draws)
  {
    hide PrefixDraws;
    SampledUnfolds(h, count, draws, count);
  }

  /** Settles count positions from the front on, each by a draw from what is not settled yet. */
  method ShufflePrefix<T>(a: array<T>, lo: int, hi: int, count: int, rng: Rng)
    returns (ghost draws: seq<int>, ghost ats: seq<nat>)
    requires 0 <= lo <= hi <= a.Length && 0 <= count <= hi - lo < TWO_64 && Endless(rng.s, hi - lo)
    modifies a, rng
    ensures PrefixDraws(draws, hi - lo, count) && a[lo..hi] == Sampled(old(a[lo..hi]), 0, draws)
    ensures Drawn(old(rng.s), hi - lo, draws, ats) && rng.s == After(old(rng.s), ats[|draws|])
    ensures forall k :: 0 <= k < lo || hi <= k < a.Length ==> a[k] == old(a[k])
  {
    hide *;
    ghost var h0 := a[lo..hi];
    SpanElems(a, lo, hi, h0);
    ghost var h;
    h, draws, ats := SettleFront(a, lo, hi - lo, count, rng, h0);
    SubSpan(a, lo, h, 0, |h|);
    assert h[0..|h|] == h;
  }

  method SettleFront<T>(a: array<T>, lo: int, n: int, count: int, rng: Rng, ghost h0: seq<T>)
    returns (ghost h: seq<T>, ghost draws: seq<int>, ghost ats: seq<nat>)
    requires 0 <= lo && lo + n <= a.Length && n == |h0| && 0 <= count <= n < TWO_64 && Endless(rng.s, n)
    requires forall k :: 0 <= k < |h0| ==> a[lo + k] == h0[k]
    modifies a, rng
    ensures PrefixDraws(draws, n, count) && h == Sampled(h0, 0, draws) && |h| == n
    ensures |ats| == |draws| + 1 && Drawn(old(rng.s), n, draws, ats) && rng.s == After(old(rng.s), ats[|draws|])
    ensures forall k :: 0 <= k < |h| ==> a[lo + k] == h[k]
    ensures forall k :: 0 <= k < lo || lo + n <= k < a.Length ==> a[k] == old(a[k])
  {
    hide *;
    ghost var g := rng.s;
    h, draws, ats := h0, [], [0];
    SamplingStarts(h0, count);
    ReachDone([], n);
    NoneDrawn(g, n);
    var i := 0;
    while i < count
      invariant 0 <= i <= count && n == |h| && |draws| == i && |ats| == |draws| + 1
      invariant Sampling(h, h0, count, draws) && InReach(draws, n)
      invariant Drawn(g, n, draws, ats) && rng.s == After(g, ats[|draws|]) && Endless(g, n)
      invariant forall k :: 0 <= k < |h| ==> a[lo + k] == h[k]
      invariant forall k :: 0 <= k < lo || lo + n <= k < a.Length ==> a[k] == old(a[k])
    {
      EndlessFor(g, n, n - i);
      var v;
      ghost var to;
      v, to := DrawIdx(rng, n - i, g, ats[|draws|]);
      SamplingStep(h, h0, count, draws, v);
      ReachFurther(draws, n, v);
      OneDrawn(g, n, draws, ats, v, to);
      h := SwapElems(a, lo, i, i + v, h);
      draws, ats := draws + [v], ats + [to];
      i := i + 1;
    }
    ReachDone(draws, n);
    SamplingEnds(h, h0, count, draws);
  }
}
