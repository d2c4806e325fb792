/** The generator's state and how it is seeded and advanced (src/core/rng.c), and the mixer that uses the same kind of
    step (src/core/hash.c). Words are 64-bit and wrap round. Every step that must lose nothing is given with the step
    that takes it back; the proofs put these together. */
module Generator {

  // ---------- steps on one word, and the steps that take them back ----------

  function Rotl64(val: bv64, count: bv7): bv64
    requires 0 < count < 64
  {
    (val << count) | (val >> (64 - count))
  }

  function ShlXor17(x: bv64): bv64 { x ^ (x << 17) }
  function UnShlXor17(y: bv64): bv64 { y ^ (y << 17) ^ (y << 34) ^ (y << 51) }

  function ShrXor27(x: bv64): bv64 { x ^ (x >> 27) }
  function UnShrXor27(y: bv64): bv64 { y ^ (y >> 27) ^ (y >> 54) }

  function ShrXor30(x: bv64): bv64 { x ^ (x >> 30) }
  function UnShrXor30(y: bv64): bv64 { y ^ (y >> 30) ^ (y >> 60) }

  function ShrXor31(x: bv64): bv64 { x ^ (x >> 31) }
  function UnShrXor31(y: bv64): bv64 { y ^ (y >> 31) ^ (y >> 62) }

  function ShrXor33(x: bv64): bv64 { x ^ (x >> 33) }
  function UnShrXor33(y: bv64): bv64 { y ^ (y >> 33) }

  // the multipliers of SplitMix64 and of MurmurHash3's finalizer are odd, so each has an inverse mod 2^64
  function MulSplit1(x: bv64): bv64 { x * 0xbf58476d1ce4e5b9 }
  function UnMulSplit1(x: bv64): bv64 { x * 0x96de1b173f119089 }
  function MulSplit2(x: bv64): bv64 { x * 0x94d049bb133111eb }
  function UnMulSplit2(x: bv64): bv64 { x * 0x319642b2d24d8ec3 }
  function MulFmix1(x: bv64): bv64 { x * 0xff51afd7ed558ccd }
  function UnMulFmix1(x: bv64): bv64 { x * 0x4f74430c22a54005 }
  function MulFmix2(x: bv64): bv64 { x * 0xc4ceb9fe1a85ec53 }
  function UnMulFmix2(x: bv64): bv64 { x * 0x9cb4b2f8129337db }
  function XorSeed(x: bv64): bv64 { x ^ 0xa0761d6478bd642f }

  /** Bit i of a rotated word is bit i - count of the word, counted round. */
  lemma Rotated23(x: bv64, i: bv7)
    requires i < 64
    ensures (Rotl64(x, 23) >> i) & 1 == (x >> (if 23 <= i then i - 23 else i + 41)) & 1
  {
    assert (((x << 23) | (x >> 41)) >> i) & 1 == (x >> (if 23 <= i then i - 23 else i + 41)) & 1;
    assert Rotl64(x, 23) == (x << 23) | (x >> 41);
  }

  lemma Rotated45(x: bv64, i: bv7)
    requires i < 64
    ensures (Rotl64(x, 45) >> i) & 1 == (x >> (if 45 <= i then i - 45 else i + 19)) & 1
  {
    assert (((x << 45) | (x >> 19)) >> i) & 1 == (x >> (if 45 <= i then i - 45 else i + 19)) & 1;
    assert Rotl64(x, 45) == (x << 45) | (x >> 19);
  }

  lemma RotationInverts(x: bv64)
    ensures Rotl64(Rotl64(x, 45), 19) == x
  {
  }

  lemma ShlXor17Inverts(x: bv64)
    ensures UnShlXor17(ShlXor17(x)) == x
  {
    assert UnShlXor17(x ^ (x << 17)) == x;
    hide UnShlXor17;
  }

  lemma ShrXor27Inverts(x: bv64)
    ensures UnShrXor27(ShrXor27(x)) == x
  {
    assert UnShrXor27(x ^ (x >> 27)) == x;
    hide UnShrXor27;
  }

  lemma ShrXor30Inverts(x: bv64)
    ensures UnShrXor30(ShrXor30(x)) == x
  {
    assert UnShrXor30(x ^ (x >> 30)) == x;
    hide UnShrXor30;
  }

  lemma ShrXor31Inverts(x: bv64)
    ensures UnShrXor31(ShrXor31(x)) == x
  {
    assert UnShrXor31(x ^ (x >> 31)) == x;
    hide UnShrXor31;
  }

  lemma ShrXor33Inverts(x: bv64)
    ensures UnShrXor33(ShrXor33(x)) == x
  {
    assert UnShrXor33(x ^ (x >> 33)) == x;
    hide UnShrXor33;
  }

  lemma MulSplit1Inverts(x: bv64)
    ensures UnMulSplit1(MulSplit1(x)) == x
  {
    assert UnMulSplit1(x * 0xbf58476d1ce4e5b9) == x;
    hide UnMulSplit1;
  }

  lemma MulSplit2Inverts(x: bv64)
    ensures UnMulSplit2(MulSplit2(x)) == x
  {
    assert UnMulSplit2(x * 0x94d049bb133111eb) == x;
    hide UnMulSplit2;
  }

  lemma MulFmix1Inverts(x: bv64)
    ensures UnMulFmix1(MulFmix1(x)) == x
  {
    assert UnMulFmix1(x * 0xff51afd7ed558ccd) == x;
    hide UnMulFmix1;
  }

  lemma MulFmix2Inverts(x: bv64)
    ensures UnMulFmix2(MulFmix2(x)) == x
  {
    assert UnMulFmix2(x * 0xc4ceb9fe1a85ec53) == x;
    hide UnMulFmix2;
  }

  lemma UnMulFmix1Inverts(x: bv64)
    ensures MulFmix1(UnMulFmix1(x)) == x
  {
    assert MulFmix1(x * 0x4f74430c22a54005) == x;
    hide MulFmix1;
  }

  lemma UnMulFmix2Inverts(x: bv64)
    ensures MulFmix2(UnMulFmix2(x)) == x
  {
    assert MulFmix2(x * 0x9cb4b2f8129337db) == x;
    hide MulFmix2;
  }

  lemma UnShrXor33Inverts(x: bv64)
    ensures ShrXor33(UnShrXor33(x)) == x
  {
    assert ShrXor33(x ^ (x >> 33)) == x;
    hide ShrXor33;
  }

  lemma XorSeedInverts(x: bv64)
    ensures XorSeed(XorSeed(x)) == x
  {
    assert XorSeed(x) == x ^ 0xa0761d6478bd642f;
    assert XorSeed(x ^ 0xa0761d6478bd642f) == x;
    hide XorSeed;
  }

  // ---------- the step of the generator ----------

  datatype State = State(s0: bv64, s1: bv64, s2: bv64, s3: bv64)

  const ZERO := State(0, 0, 0, 0)

  function Xor(x: bv64, y: bv64): bv64 { x ^ y }

  function Shl17(x: bv64): bv64 { x << 17 }

  /** The ++ scrambler: what one draw answers. */
  function Scramble(x: bv64, y: bv64): bv64 {
    Rotl64(x + y, 23) + x
  }

  function Output(s: State): bv64 {
    Scramble(s.s0, s.s3)
  }

  /** The state one draw leaves: each word in terms of the four before it. */
  function Step(s: State): State {
    State(Xor(s.s0, Xor(s.s3, s.s1)),
          Xor(s.s1, Xor(s.s2, s.s0)),
          Xor(Xor(s.s2, s.s0), Shl17(s.s1)),
          Rotl64(Xor(s.s3, s.s1), 45))
  }

  /** The state a draw came from. */
  function Unstep(t: State): State {
    var u := Rotl64(t.s3, 19);
    var s0 := Xor(t.s0, u);
    var s1 := UnShlXor17(Xor(t.s1, t.s2));
    State(s0, s1, Xor(Xor(t.s1, s1), s0), Xor(u, s1))
  }

  lemma Cancels(x: bv64, y: bv64)
    ensures Xor(Xor(x, y), y) == x
    ensures Xor(Xor(x, y), x) == y
  {
    assert Xor(x, y) == x ^ y;
    assert Xor(x ^ y, y) == x && Xor(x ^ y, x) == y;
    hide Xor;
  }

  lemma CancelsMiddle(x: bv64, v: bv64, w: bv64)
    ensures Xor(Xor(x, v), Xor(v, w)) == Xor(x, w)
  {
    assert Xor(x, v) == x ^ v && Xor(v, w) == v ^ w && Xor(x, w) == x ^ w;
    assert Xor(x ^ v, v ^ w) == x ^ w;
    hide Xor;
  }

  lemma ShiftedXor(x: bv64)
    ensures Xor(x, Shl17(x)) == ShlXor17(x)
  {
    assert Shl17(x) == x << 17;
    assert Xor(x, x << 17) == x ^ (x << 17);
    hide Xor;
  }

  /** No two states lead to the same one. */
  lemma StepInverts(s: State)
    ensures Unstep(Step(s)) == s
  {
    hide Rotl64, Xor, ShlXor17, UnShlXor17, Shl17;
    var u, v := Xor(s.s3, s.s1), Xor(s.s2, s.s0);
    RotationInverts(u);
    Cancels(s.s0, u);
    CancelsMiddle(s.s1, v, Shl17(s.s1));
    ShiftedXor(s.s1);
    ShlXor17Inverts(s.s1);
    Cancels(s.s1, v);
    Cancels(s.s2, s.s0);
    Cancels(s.s3, s.s1);
  }

  lemma ZeroStepsToZero()
    ensures Step(ZERO) == ZERO
  {
  }

  /** Only the zero state leads to the zero state. */
  lemma OnlyZeroStepsToZero(s: State)
    ensures Step(s) == ZERO <==> s == ZERO
  {
    hide *;
    ZeroStepsToZero();
    StepInverts(s);
    StepInverts(ZERO);
  }

  // ---------- seeding ----------

  function AddGamma(state: bv64): bv64 { state + 0x9e3779b97f4a7c15 }

  /** SplitMix64's output function. */
  function SplitMix(v: bv64): bv64 {
    ShrXor31(MulSplit2(ShrXor27(MulSplit1(ShrXor30(v)))))
  }

  function UnSplitMix(z: bv64): bv64 {
    UnShrXor30(UnMulSplit1(UnShrXor27(UnMulSplit2(UnShrXor31(z)))))
  }

  /** The output function is a bijection: its input can be told from its output. */
  lemma SplitMixInverts(v: bv64)
    ensures UnSplitMix(SplitMix(v)) == v
  {
    hide ShrXor30, UnShrXor30, MulSplit1, UnMulSplit1, ShrXor27, UnShrXor27, MulSplit2, UnMulSplit2, ShrXor31,
      UnShrXor31;
    var a := ShrXor30(v);
    var b := MulSplit1(a);
    var c := ShrXor27(b);
    var d := MulSplit2(c);
    ShrXor31Inverts(d);
    MulSplit2Inverts(c);
    ShrXor27Inverts(b);
    MulSplit1Inverts(a);
    ShrXor30Inverts(v);
  }

  /** The four words a seed gives. */
  function Seeded(seed: bv64): State {
    var a := AddGamma(seed);
    var b := AddGamma(a);
    var c := AddGamma(b);
    State(SplitMix(a), SplitMix(b), SplitMix(c), SplitMix(AddGamma(c)))
  }

  lemma GammaMoves(a: bv64)
    ensures a != AddGamma(a) && a != AddGamma(AddGamma(a)) && a != AddGamma(AddGamma(AddGamma(a)))
  {
    assert AddGamma(a) == a + 0x9e3779b97f4a7c15;
    assert AddGamma(a + 0x9e3779b97f4a7c15) == a + 0x3c6ef372fe94f82a;
    assert AddGamma(a + 0x3c6ef372fe94f82a) == a + 0xdaa66d2c7ddf743f;
    hide AddGamma;
  }

  /** The four words a seed gives all differ, so at most one of them is zero. */
  lemma SeededWordsDiffer(seed: bv64)
    ensures var s := Seeded(seed);
            s.s0 != s.s1 && s.s0 != s.s2 && s.s0 != s.s3 && s.s1 != s.s2 && s.s1 != s.s3 && s.s2 != s.s3
    ensures Seeded(seed) != ZERO
  {
    hide SplitMix, UnSplitMix, AddGamma;
    var a := AddGamma(seed);
    var b := AddGamma(a);
    var c := AddGamma(b);
    GammaMoves(a);
    GammaMoves(b);
    GammaMoves(c);
    SplitMixInverts(a);
    SplitMixInverts(b);
    SplitMixInverts(c);
    SplitMixInverts(AddGamma(c));
  }

  /** The state after n draws. */
  ghost function After(s: State, n: nat): State {
    if n == 0 then s else Step(After(s, n - 1))
  }

  /** No seed and no number of draws lead to the zero state. */
  lemma {:induction false} NeverAllZero(seed: bv64, n: nat)
    ensures After(Seeded(seed), n) != ZERO
  {
    hide Step, Seeded, ZERO;
    if n == 0 {
      SeededWordsDiffer(seed);
    } else {
      NeverAllZero(seed, n - 1);
      OnlyZeroStepsToZero(After(Seeded(seed), n - 1));
    }
  }

  /** Generators that agree after n draws agreed before: two different states never run together. */
  lemma {:induction false} AfterInjective(s: State, t: State, n: nat)
    requires After(s, n) == After(t, n)
    ensures s == t
  {
    hide Step, Unstep;
    if n > 0 {
      StepInverts(After(s, n - 1));
      StepInverts(After(t, n - 1));
      AfterInjective(s, t, n - 1);
    }
  }

  lemma {:induction false} AfterStep(s: State, n: nat)
    ensures After(Step(s), n) == After(s, n + 1)
  {
    hide Step;
    if n > 0 {
      AfterStep(s, n - 1);
    }
  }

  /** The stream of words from a later state is the rest of the stream. */
  lemma {:induction false} AfterAdd(s: State, a: nat, b: nat)
    ensures After(After(s, a), b) == After(s, a + b)
    decreases a
  {
    hide Step;
    if a > 0 {
      AfterStep(s, a - 1);
      AfterAdd(Step(s), a - 1, b);
      AfterStep(s, a + b - 1);
    }
  }

  // ---------- the generator ----------

  class Rng {
    var s: State

    /** A generator started from seed. */
    constructor (seed: bv64)
      ensures s == Seeded(seed) && s != ZERO
    {
      hide SplitMix, ZERO, AddGamma;
      SeededWordsDiffer(seed);
      var state := seed;
      var w0, w1, w2, w3;
      state, w0 := SplitMix64(state);
      state, w1 := SplitMix64(state);
      state, w2 := SplitMix64(state);
      state, w3 := SplitMix64(state);
      s := State(w0, w1, w2, w3);
    }

    /** Advances the seeder and mixes its state into one word. */
    static method SplitMix64(state: bv64) returns (state': bv64, val: bv64)
      ensures state' == AddGamma(state) && val == SplitMix(state')
    {
      hide ShrXor30, ShrXor27, ShrXor31, MulSplit1, MulSplit2, AddGamma;
      state' := AddGamma(state);
      val := MulSplit1(ShrXor30(state'));
      val := MulSplit2(ShrXor27(val));
      val := ShrXor31(val);
    }

    /** One draw: the words are updated one after the other, each from those already updated. */
    method NextU64() returns (result: bv64)
      modifies this
      ensures result == Output(old(s)) && s == Step(old(s))
      ensures old(s) != ZERO ==> s != ZERO
    {
      hide Rotl64, Xor, ZERO, Scramble, Shl17;
      OnlyZeroStepsToZero(s);
      result := Scramble(s.s0, s.s3);
      var tmp := Shl17(s.s1);
      s := s.(s2 := Xor(s.s2, s.s0));
      s := s.(s3 := Xor(s.s3, s.s1));
      s := s.(s1 := Xor(s.s1, s.s2));
      s := s.(s0 := Xor(s.s0, s.s3));
      s := s.(s2 := Xor(s.s2, tmp));
      s := s.(s3 := Rotl64(s.s3, 45));
    }
  }

  // ---------- the hash mixer ----------

  /** hash_mix_u64: what every integer key is hashed with. */
  function HashMix(x: bv64): bv64 {
    ShrXor33(MulFmix2(ShrXor33(MulFmix1(ShrXor33(XorSeed(x))))))
  }

  function UnHashMix(z: bv64): bv64 {
    XorSeed(UnShrXor33(UnMulFmix1(UnShrXor33(UnMulFmix2(UnShrXor33(z))))))
  }

  /** The mixer is a bijection: different keys have different hashes, and every word is some key's hash. */
  lemma HashMixInverts(x: bv64)
    ensures UnHashMix(HashMix(x)) == x
    ensures HashMix(UnHashMix(x)) == x
  {
    hide ShrXor33, UnShrXor33, MulFmix1, UnMulFmix1, MulFmix2, UnMulFmix2, XorSeed;
    var a := XorSeed(x);
    var b := ShrXor33(a);
    var c := MulFmix1(b);
    var d := ShrXor33(c);
    var e := MulFmix2(d);
    XorSeedInverts(x);
    ShrXor33Inverts(a);
    MulFmix1Inverts(b);
    ShrXor33Inverts(c);
    MulFmix2Inverts(d);
    ShrXor33Inverts(e);

    var f := UnShrXor33(x);
    var g := UnMulFmix2(f);
    var h := UnShrXor33(g);
    var i := UnMulFmix1(h);
    UnShrXor33Inverts(x);
    UnMulFmix2Inverts(f);
    UnShrXor33Inverts(g);
    UnMulFmix1Inverts(h);
    UnShrXor33Inverts(i);
    XorSeedInverts(UnShrXor33(i));
  }

  lemma HashMixInjective(x: bv64, y: bv64)
    requires HashMix(x) == HashMix(y)
    ensures x == y
  {
    hide *;
    HashMixInverts(x);
    HashMixInverts(y);
  }
}
