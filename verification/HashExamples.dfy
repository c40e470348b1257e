/**
 Hashes of some inputs, in numbers, and how a byte enters the end cases (base/hash.cc:18-64).
 */
module HashExamples {
  import opened Hashing
  import opened HashCycles

  /** A byte is a signed char: from 0x80 up, 0x100 less than itself, modulo 2^32. */
  lemma SignedChar(b: Byte)
    ensures b < 0x80 ==> SignExtend(b) == b
    ensures b >= 0x80 ==> SignExtend(b) + 0x100 == b
  {
  }

  lemma FeedNext(h: bv32, w: seq<Byte>, rest: seq<Byte>, next: bv32)
    requires |w| == 4 && Round(h, w[0], w[1], w[2], w[3]) == next
    ensures Feed(h, w + rest) == Feed(next, rest)
  {
    assert (w + rest)[4..] == rest;
  }

  lemma LastByteIs(h: bv32, b: Byte, x: bv32, u: bv32)
    requires Add(h, SignExtend(b)) == x && Mix(x, 10, 1) == u
    ensures Feed(h, [b]) == u
  {
    assert Tail(h, [b]) == u;
  }

  lemma TailIs(h: bv32, rest: seq<Byte>, u: bv32)
    requires |rest| < 4 && Tail(h, rest) == u
    ensures Feed(h, rest) == u
  {
  }

  lemma OneByte()
    ensures Avalanche(Feed(0, [0xff])) == 0x7ffa_a939
  {
    hide Avalanche;
    LastByteIs(0x0000_0000, 0xff, 0xffff_ffff, 0x0000_05fe);
    LeftoverIs(0x0000_05fe, 0, 0x0000_05fe, 0x0000_2b5e, 0x0002_9ebf, 0x7ffa_a939);
  }

  lemma TwoBytes()
    ensures Avalanche(Feed(0, [0x81, 0xfe])) == 0xb617_6482
  {
    hide Avalanche;
    TailIs(0x0000_0000, [0x81, 0xfe], 0x07f4_fa7b);
    LeftoverIs(0x07f4_fa7b, 0, 0x07f4_fa7b, 0x3a15_c2f0, 0x9b4a_3b94, 0xb617_6482);
  }

  lemma ThreeBytes()
    ensures Avalanche(Feed(0, [0x81, 0xfe, 0xc3])) == 0x92d8_1e58
  {
    hide Avalanche;
    TailIs(0x0000_0000, [0x81, 0xfe, 0xc3], 0x018e_3040);
    LeftoverIs(0x018e_3040, 0, 0x018e_3040, 0x0e6f_afd2, 0xe895_c73c, 0x92d8_1e58);
  }

  lemma OneWord()
    ensures Avalanche(Feed(0, [0x01, 0x92, 0x73, 0x84])) == 0x8853_ae9f
  {
    hide Avalanche;
    FeedNext(0x0000_0000, [0x01, 0x92, 0x73, 0x84], [], 0x9634_ce42);
    TailIs(0x9634_ce42, [], 0x9634_ce42);
    LeftoverIs(0x9634_ce42, 0, 0x9634_ce42, 0x28cf_5234, 0xa43a_c391, 0x8853_ae9f);
  }

  lemma WordAndTail()
    ensures Avalanche(Feed(0, [0x01, 0x92, 0x73, 0x84, 0xc5, 0x66, 0xd7])) == 0x6068_ab3d
  {
    hide Avalanche;
    FeedNext(0x0000_0000, [0x01, 0x92, 0x73, 0x84], [0xc5, 0x66, 0xd7], 0x9634_ce42);
    TailIs(0x9634_ce42, [0xc5, 0x66, 0xd7], 0x5c79_c2cd);
    LeftoverIs(0x5c79_c2cd, 0, 0x5c79_c2cd, 0xc5b5_934a, 0x9eec_f760, 0x6068_ab3d);
  }
}
