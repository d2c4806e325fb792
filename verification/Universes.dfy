/** The positions a bitset ranges over. */
module Universes {

  /** All of 0 .. n - 1. */
  ghost function Universe(n: int): (r: set<int>)
    ensures forall i :: i in r <==> 0 <= i < n
    ensures 0 <= n ==> |r| == n
  {
    if n <= 0 then {} else Universe(n - 1) + {n - 1}
  }

  lemma {:induction false} SizeDecides(s: set<int>, n: nat)
    requires forall i :: i in s ==> 0 <= i < n
    ensures |s| <= n
    ensures s == Universe(n) <==> |s| == n
    decreases n
  {
    if n == 0 {
      assert s == Universe(0);
    } else {
      SizeDecides(s - {n - 1}, n - 1);
      if n - 1 in s {
        assert s == s - {n - 1} + {n - 1};
      } else {
        assert s == s - {n - 1};
      }
    }
  }
}
