/** Known answers: the first words xoshiro256++ gives from two seeds in its authors' own version, and two hashes of the
    mixer. */
module KnownAnswers {
  import opened Generator
  import opened Bounded

  lemma NextAfter(s: State, n: nat)
    ensures After(s, 0) == s && After(s, n + 1) == Step(After(s, n))
  {
  }

  /** The four words seed 0 gives. */
  lemma SeedZero()
    ensures Seeded(0) == State(0xe220a8397b1dcdaf, 0x6e789e6aa1b965f4,
                              0x06c45d188009454f, 0xf88bb8a8724c81ec)
  {
  }

  lemma ZeroDraw0(s: State)
    requires s == State(0xe220a8397b1dcdaf, 0x6e789e6aa1b965f4,
                        0x06c45d188009454f, 0xf88bb8a8724c81ec)
    ensures Output(s) == 0x53175d61490b23df
    ensures Step(s) == State(0x74d38efba8e829b7, 0x8a9c6b4b5aaded14,
                             0xd831b65330fc88e0, 0xbc8312de64d85a7e)
  {
  }

  lemma ZeroDraw1(s: State)
    requires s == State(0x74d38efba8e829b7, 0x8a9c6b4b5aaded14,
                        0xd831b65330fc88e0, 0xbc8312de64d85a7e)
    ensures Output(s) == 0x61da6f3dc380d507
    ensures Step(s) == State(0x42ccf76e969d9edd, 0x267e53e3c2b94c43,
                             0x7a748df3423ca157, 0xb6ed46c3ef32a7ce)
  {
  }

  lemma ZeroDraw2(s: State)
    requires s == State(0x42ccf76e969d9edd, 0x267e53e3c2b94c43,
                        0x7a748df3423ca157, 0xb6ed46c3ef32a7ce)
    ensures Output(s) == 0x5c0fdf91ec9a7bfc
    ensures Step(s) == State(0xd25fe24ebb167550, 0x1ec6297e161873c9,
                             0x9f7fffef4c273f8a, 0x7d71b21262a405b1)
  {
  }

  lemma ZeroDraw3(s: State)
    requires s == State(0xd25fe24ebb167550, 0x1ec6297e161873c9,
                        0x9f7fffef4c273f8a, 0x7d71b21262a405b1)
    ensures Output(s) == 0x02eebf8c3bbe5e1a
    ensures Step(s) == State(0xb1e87922cfaa0328, 0x53e634dfe1293913,
                             0x1fdc319110a34ada, 0x8ecf0c76f36d8e97)
  {
  }

  lemma ZeroDraw4(s: State)
    requires s == State(0xb1e87922cfaa0328, 0x53e634dfe1293913,
                        0x1fdc319110a34ada, 0x8ecf0c76f36d8e97)
    ensures Output(s) == 0x7eca04ebaf4a5eea
  {
  }

  /** The first five draws from seed 0. */
  lemma StreamOfZero()
    ensures Output(After(Seeded(0), 0)) == 0x53175d61490b23df
    ensures Output(After(Seeded(0), 1)) == 0x61da6f3dc380d507
    ensures Output(After(Seeded(0), 2)) == 0x5c0fdf91ec9a7bfc
    ensures Output(After(Seeded(0), 3)) == 0x02eebf8c3bbe5e1a
    ensures Output(After(Seeded(0), 4)) == 0x7eca04ebaf4a5eea
  {
    hide *;
    var s := Seeded(0);
    SeedZero();
    NextAfter(s, 0);
    NextAfter(s, 1);
    NextAfter(s, 2);
    NextAfter(s, 3);
    ZeroDraw0(After(s, 0));
    ZeroDraw1(After(s, 1));
    ZeroDraw2(After(s, 2));
    ZeroDraw3(After(s, 3));
    ZeroDraw4(After(s, 4));
  }

  /** The four words seed 42 gives. */
  lemma SeedFortyTwo()
    ensures Seeded(42) == State(0xbdd732262feb6e95, 0x28efe333b266f103,
                              0x47526757130f9f52, 0x581ce1ff0e4ae394)
  {
  }

  lemma FortyTwoDraw0(s: State)
    requires s == State(0xbdd732262feb6e95, 0x28efe333b266f103,
                        0x47526757130f9f52, 0x581ce1ff0e4ae394)
    ensures Output(s) == 0xd0764d4f4476689f
    ensures Step(s) == State(0xcd2430ea93c77c02, 0xd26ab6428e8200c4,
                             0x3ce231bcdee2f1c7, 0x8252ee1e60599785)
  {
  }

  lemma FortyTwoDraw1(s: State)
    requires s == State(0xcd2430ea93c77c02, 0xd26ab6428e8200c4,
                        0x3ce231bcdee2f1c7, 0x8252ee1e60599785)
    ensures Output(s) == 0x519e4174576f3791
    ensures Step(s) == State(0x9d1c68b67d1ceb43, 0x23acb714c3a78d01,
                             0x9d431c524cad8dc5, 0x72e82a070b0b9ddb)
  {
  }

  lemma FortyTwoDraw2(s: State)
    requires s == State(0x9d1c68b67d1ceb43, 0x23acb714c3a78d01,
                        0x9d431c524cad8dc5, 0x72e82a070b0b9ddb)
    ensures Output(s) == 0xfbe07cfb0c24ed8c
    ensures Step(s) == State(0xcc58f5a5b5b0fb99, 0x23f3c3f0f216eb87,
                             0x6e76f3ab2bb36686, 0x821b4a2893a27915)
  {
  }

  lemma FortyTwoDraw3(s: State)
    requires s == State(0xcc58f5a5b5b0fb99, 0x23f3c3f0f216eb87,
                        0x6e76f3ab2bb36686, 0x821b4a2893a27915)
    ensures Output(s) == 0xb37d9f600cd835b8
    ensures Step(s) == State(0x6db07c7dd404690b, 0x81ddc5fe6c157698,
                             0x25cfe223490d9d1f, 0x9252543d113b0c36)
  {
  }

  lemma FortyTwoDraw4(s: State)
    requires s == State(0x6db07c7dd404690b, 0x81ddc5fe6c157698,
                        0x25cfe223490d9d1f, 0x9252543d113b0c36)
    ensures Output(s) == 0xcb231c3874846a73
  {
  }

  /** The first five draws from seed 42. */
  lemma StreamOfFortyTwo()
    ensures Output(After(Seeded(42), 0)) == 0xd0764d4f4476689f
    ensures Output(After(Seeded(42), 1)) == 0x519e4174576f3791
    ensures Output(After(Seeded(42), 2)) == 0xfbe07cfb0c24ed8c
    ensures Output(After(Seeded(42), 3)) == 0xb37d9f600cd835b8
    ensures Output(After(Seeded(42), 4)) == 0xcb231c3874846a73
  {
    hide *;
    var s := Seeded(42);
    SeedFortyTwo();
    NextAfter(s, 0);
    NextAfter(s, 1);
    NextAfter(s, 2);
    NextAfter(s, 3);
    FortyTwoDraw0(After(s, 0));
    FortyTwoDraw1(After(s, 1));
    FortyTwoDraw2(After(s, 2));
    FortyTwoDraw3(After(s, 3));
    FortyTwoDraw4(After(s, 4));
  }

  /** From seed 0, the 32-bit draw from [0, 9] keeps its first word, the top half of the first draw, and answers 3. */
  lemma FirstDrawOfZero()
    ensures Word(Seeded(0), 0, false) == 0x53175d61490b23df && Word(Seeded(0), 0, true) == 0x53175d61
    ensures FirstKept(Seeded(0), true, 10, 0) && High(TWO_32, 10, 0x53175d61) == 3
  {
    hide After, Seeded, Output;
    StreamOfZero();
    assert 0x53175d61490b23df as bv64 as int == 0x53175d61490b23df;
  }

  /** The hash of 0, the key that is asked for most, and of 1. */
  lemma KnownHashes()
    ensures HashMix(0) == 0x05f80708adb6c5a9
    ensures HashMix(1) == 0xeff403784106123e
  {
  }

  /** Only one key hashes to zero, and it is not zero: the seed of the mixer. */
  lemma ZeroMoves(x: bv64)
    ensures HashMix(x) == 0 <==> x == 0xa0761d6478bd642f
  {
    assert HashMix(0xa0761d6478bd642f) == 0;
    hide *;
    if HashMix(x) == 0 {
      HashMixInjective(x, 0xa0761d6478bd642f);
    }
  }
}
