/**
 Two hash states that are kept apart for ever (base/hash.cc:66-110): for each way in which a
 chunk can end inside a word, data on which the state of staged hashing and that of one-shot
 hashing go round in a circle, with different hashes wherever the data ends.
 */
module HashCycles {
  import opened Hashing

  function Zeros(n: nat): seq<Byte> {
    seq(n, i => 0)
  }

  /** What n bytes, or n of the last word's bytes, with a 1 at the end make of 0. */
  function EndState(n: nat): bv32
    requires n < 4
  {
    if n == 0 then 0x8_0100 else if n == 1 then 0x601 else if n == 2 then 0x8_0104 else 0x4_0080
  }

  // ---------- evaluation ----------

  function Mix(h: bv32, k: nat, l: nat): bv32
    requires k < 32 && l < 32
  {
    AddShr(XorShl(h, h, k), l)
  }

  /** What t zero bytes at the end of the data make of h. */
  function Leftover(h: bv32, t: nat): bv32
    requires t < 4
  {
    if t == 0 then h
    else if t == 1 then Mix(h, 10, 1)
    else if t == 2 then Mix(h, 11, 17)
    else Mix(h, 16, 11)
  }

  lemma ZerosAreLeftover(h: bv32, t: nat)
    requires t < 4
    ensures Feed(h, Zeros(t)) == Leftover(h, t)
  {
    assert Add(h, Get16(0, 0)) == h;
    assert SignExtend(0) == 0 && forall x :: XorShl(x, 0, 18) == x;
    assert Add(h, 0) == h;
  }

  predicate LeftoversDiffer(a: bv32, b: bv32) {
    forall t: nat :: t < 4 ==> Avalanche(Leftover(a, t)) != Avalanche(Leftover(b, t))
  }

  /** A hash from its intermediate values. */
  lemma LeftoverIs(h: bv32, t: nat, u: bv32, b: bv32, d: bv32, e: bv32)
    requires t < 4 && Leftover(h, t) == u && Mix(u, 3, 5) == b && Mix(b, 4, 17) == d && Mix(d, 25, 6) == e
    ensures Avalanche(Leftover(h, t)) == e
  {
  }

  // ---------- the circles ----------

  datatype Pair = Pair(staged: bv32, oneShot: bv32)

  function Period(r: nat): nat {
    if r == 3 then 4 else 3
  }

  function Next(r: nat, p: nat): nat {
    if p + 1 == Period(r) then 0 else p + 1
  }

  /** Where on the circle k words lead. */
  function Phase(r: nat, k: nat): (p: nat)
    ensures p < Period(r)
  {
    if k == 0 then 0 else Next(r, Phase(r, k - 1))
  }

  /** The two states after p words, for a chunk that ends r bytes into a word. */
  function At(r: nat, p: nat): Pair {
    if r == 1 then
      if p == 0 then Pair(0x0000_0601, 0x0008_0100)
      else if p == 1 then Pair(0x67d0_32e7, 0x583f_0bff)
      else Pair(0xd4f3_1d7a, 0xd2fa_1779)
    else if r == 2 then
      if p == 0 then Pair(0x0008_0104, 0x0008_0100)
      else if p == 1 then Pair(0x001c_1783, 0xf01e_17fe)
      else Pair(0xf81f_7fd1, 0xf81b_7fcd)
    else
      if p == 0 then Pair(0x0004_0080, 0x0008_0100)
      else if p == 1 then Pair(0x7c0d_2799, 0x8481_e690)
      else if p == 2 then Pair(0x5e0a_58da, 0x5b96_d96a)
      else Pair(0x3be1_7218, 0xc00d_7618)
  }

  /** The word that leads from there to the next two states. */
  function Word(r: nat, p: nat): (w: seq<Byte>)
    ensures |w| == 4
  {
    if r == 1 then
      if p == 0 then [0x7f, 0x5c, 0x6b, 0xa8]
      else if p == 1 then [0x83, 0x7f, 0x46, 0x2c]
      else [0x87, 0xb8, 0x5a, 0x5e]
    else if r == 2 then
      if p == 0 then [0xfc, 0xf6, 0x9c, 0xfe]
      else if p == 1 then [0x3f, 0xe8, 0xd0, 0xfb]
      else [0x33, 0x78, 0x7f, 0x02]
    else
      if p == 0 then [0x65, 0x7f, 0x9b, 0x83]
      else if p == 1 then [0x6e, 0xf9, 0xf7, 0x1e]
      else if p == 2 then [0x00, 0x0e, 0x32, 0x61]
      else [0xe8, 0xc5, 0xc7, 0x7c]
  }

  predicate IsStep(r: nat, p: nat) {
    var w, next := Word(r, p), At(r, Next(r, p));
    && Round(At(r, p).staged, w[0], w[1], w[2], w[3]) == next.staged
    && Round(At(r, p).oneShot, w[0], w[1], w[2], w[3]) == next.oneShot
  }

  lemma Steps1()
    ensures forall p: nat :: p < Period(1) ==> IsStep(1, p)
  {
    assert Round(0x0000_0601, 0x7f, 0x5c, 0x6b, 0xa8) == 0x67d0_32e7;
    assert Round(0x0008_0100, 0x7f, 0x5c, 0x6b, 0xa8) == 0x583f_0bff;
    assert Round(0x67d0_32e7, 0x83, 0x7f, 0x46, 0x2c) == 0xd4f3_1d7a;
    assert Round(0x583f_0bff, 0x83, 0x7f, 0x46, 0x2c) == 0xd2fa_1779;
    assert Round(0xd4f3_1d7a, 0x87, 0xb8, 0x5a, 0x5e) == 0x0000_0601;
    assert Round(0xd2fa_1779, 0x87, 0xb8, 0x5a, 0x5e) == 0x0008_0100;
  }

  lemma Steps2()
    ensures forall p: nat :: p < Period(2) ==> IsStep(2, p)
  {
    assert Round(0x0008_0104, 0xfc, 0xf6, 0x9c, 0xfe) == 0x001c_1783;
    assert Round(0x0008_0100, 0xfc, 0xf6, 0x9c, 0xfe) == 0xf01e_17fe;
    assert Round(0x001c_1783, 0x3f, 0xe8, 0xd0, 0xfb) == 0xf81f_7fd1;
    assert Round(0xf01e_17fe, 0x3f, 0xe8, 0xd0, 0xfb) == 0xf81b_7fcd;
    assert Round(0xf81f_7fd1, 0x33, 0x78, 0x7f, 0x02) == 0x0008_0104;
    assert Round(0xf81b_7fcd, 0x33, 0x78, 0x7f, 0x02) == 0x0008_0100;
  }

  lemma Steps3()
    ensures forall p: nat :: p < Period(3) ==> IsStep(3, p)
  {
    assert Round(0x0004_0080, 0x65, 0x7f, 0x9b, 0x83) == 0x7c0d_2799;
    assert Round(0x0008_0100, 0x65, 0x7f, 0x9b, 0x83) == 0x8481_e690;
    assert Round(0x7c0d_2799, 0x6e, 0xf9, 0xf7, 0x1e) == 0x5e0a_58da;
    assert Round(0x8481_e690, 0x6e, 0xf9, 0xf7, 0x1e) == 0x5b96_d96a;
    assert Round(0x5e0a_58da, 0x00, 0x0e, 0x32, 0x61) == 0x3be1_7218;
    assert Round(0x5b96_d96a, 0x00, 0x0e, 0x32, 0x61) == 0xc00d_7618;
    assert Round(0x3be1_7218, 0xe8, 0xc5, 0xc7, 0x7c) == 0x0004_0080;
    assert Round(0xc00d_7618, 0xe8, 0xc5, 0xc7, 0x7c) == 0x0008_0100;
  }

  /** k words, once round the circle and again. */
  function Words(r: nat, k: nat): (data: seq<Byte>)
    ensures |data| == 4 * k
  {
    if k == 0 then [] else Words(r, k - 1) + Word(r, Phase(r, k - 1))
  }

  lemma FeedWord(h: bv32, w: seq<Byte>)
    requires |w| == 4
    ensures Feed(h, w) == Round(h, w[0], w[1], w[2], w[3])
  {
    assert w[4..] == [];
  }

  lemma OneMoreWord(h: bv32, data: seq<Byte>, w: seq<Byte>)
    requires |data| % 4 == 0 && |w| == 4
    ensures Feed(h, data + w) == Round(Feed(h, data), w[0], w[1], w[2], w[3])
  {
    FeedConcat(h, data, w);
    FeedWord(Feed(h, data), w);
  }

  lemma StartsThere(r: nat)
    requires 1 <= r <= 3
    ensures Feed(EndState(r), []) == At(r, 0).staged && Feed(EndState(0), []) == At(r, 0).oneShot
  {
  }

  lemma {:induction false} GoesRound(r: nat, k: nat)
    requires 1 <= r <= 3
    ensures Feed(EndState(r), Words(r, k)) == At(r, Phase(r, k)).staged
    ensures Feed(EndState(0), Words(r, k)) == At(r, Phase(r, k)).oneShot
  {
    hide Round;
    hide Feed;
    hide At;
    hide Word;
    hide EndState;
    if k == 0 {
      StartsThere(r);
    } else {
      var p := Phase(r, k - 1);
      GoesRound(r, k - 1);
      OneMoreWord(EndState(r), Words(r, k - 1), Word(r, p));
      OneMoreWord(EndState(0), Words(r, k - 1), Word(r, p));
      AllSteps(r, p);
    }
  }

  lemma AllSteps(r: nat, p: nat)
    requires 1 <= r <= 3 && p < Period(r)
    ensures IsStep(r, p)
  {
    hide IsStep;
    Steps1();
    Steps2();
    Steps3();
  }

  /** For data of any length there are bytes that give different hashes from the two states. */
  lemma KeptApart(r: nat, n: nat) returns (data: seq<Byte>)
    requires 1 <= r <= 3
    ensures |data| == n && Avalanche(Feed(EndState(r), data)) != Avalanche(Feed(EndState(0), data))
  {
    hide Feed;
    hide Avalanche;
    hide Leftover;
    hide At;
    var k, t := n / 4, n % 4;
    data := Words(r, k) + Zeros(t);
    GoesRound(r, k);
    FeedConcat(EndState(r), Words(r, k), Zeros(t));
    FeedConcat(EndState(0), Words(r, k), Zeros(t));
    var p := At(r, Phase(r, k));
    ZerosAreLeftover(p.staged, t);
    ZerosAreLeftover(p.oneShot, t);
    HashesDiffer(r, Phase(r, k));
  }

  lemma HashesDiffer(r: nat, p: nat)
    requires 1 <= r <= 3 && p < Period(r)
    ensures LeftoversDiffer(At(r, p).staged, At(r, p).oneShot)
  {
    hide LeftoversDiffer;
    if r == 1 {
      Leftovers10();
      Leftovers11();
      Leftovers12();
    } else if r == 2 {
      Leftovers20();
      Leftovers21();
      Leftovers22();
    } else {
      Leftovers30();
      Leftovers31();
      Leftovers32();
      Leftovers33();
    }
  }

  lemma Leftovers10()
    ensures LeftoversDiffer(0x0000_0601, 0x0008_0100)
  {
    LeftoverIs(0x0000_0601, 0, 0x0000_0601, 0x0000_37b9, 0x0003_4c2a, 0x5553_595a);
    LeftoverIs(0x0008_0100, 0, 0x0008_0100, 0x004a_4948, 0x04ee_e03f, 0x7cda_9bbf);
    LeftoverIs(0x0000_0601, 1, 0x0024_0301, 0x010c_3be1, 0x11cf_8ed8, 0xa456_cd13);
    LeftoverIs(0x0008_0100, 1, 0x3012_0180, 0xb606_1dec, 0xd668_2e5f, 0x6a09_cf18);
    LeftoverIs(0x0000_0601, 2, 0x0030_0e19, 0x01be_02c7, 0x1a5e_3be6, 0xd9b7_b4d5);
    LeftoverIs(0x0008_0100, 2, 0x4000_2100, 0x4201_3248, 0x6212_47d1, 0xc312_90f0);
    LeftoverIs(0x0000_0601, 3, 0x0601_c621, 0x37c0_76e2, 0x4bc7_3ea5, 0x01ce_5b9f);
    LeftoverIs(0x0008_0100, 3, 0x0108_2200, 0x0993_7b90, 0x90a5_0ae2, 0x55f7_9f0d);
  }

  lemma Leftovers11()
    ensures LeftoversDiffer(0x67d0_32e7, 0x583f_0bff)
  {
    LeftoverIs(0x67d0_32e7, 0, 0x67d0_32e7, 0x5c1c_330d, 0x9ddf_52cc, 0x05f6_d017);
    LeftoverIs(0x583f_0bff, 0, 0x583f_0bff, 0x9e95_8ea7, 0x77cd_a0bd, 0x0e04_d73f);
    LeftoverIs(0x67d0_32e7, 1, 0x3aa9_865a, 0xf764_e22e, 0x812b_0163, 0x4847_ad68);
    LeftoverIs(0x583f_0bff, 1, 0xf619_73fe, 0x4909_836e, 0xd992_2256, 0x7768_6adf);
    LeftoverIs(0x67d0_32e7, 2, 0xe647_7e0a, 0xdb20_72cc, 0x6927_929f, 0x5884_30e9);
    LeftoverIs(0x583f_0bff, 2, 0xa061_442f, 0xa886_c081, 0x20ea_d906, 0x2d9e_846a);
    LeftoverIs(0x67d0_32e7, 3, 0x5541_d9cd, 0x0749_9062, 0x73d0_d02a, 0x2870_136a);
    LeftoverIs(0x583f_0bff, 3, 0x53ca_8400, 0xd40b_9920, 0x94b2_5579, 0x684d_1ece);
  }

  lemma Leftovers12()
    ensures LeftoversDiffer(0xd4f3_1d7a, 0xd2fa_1779)
  {
    LeftoverIs(0xd4f3_1d7a, 0, 0xd4f3_1d7a, 0x7707_565f, 0x0772_3768, 0xdad0_0045);
    LeftoverIs(0xd2fa_1779, 0, 0xd2fa_1779, 0x4754_0216, 0x3214_3c80, 0x32dc_8d72);
    LeftoverIs(0xd4f3_1d7a, 1, 0x24ca_7037, 0x02ae_c11b, 0x2842_e4cc, 0xb303_f05f);
    LeftoverIs(0xd2fa_1779, 1, 0x57fb_ed35, 0xef65_a8c1, 0x193f_3170, 0xfd24_2e35);
    LeftoverIs(0xd4f3_1d7a, 2, 0x4c18_f386, 0x2e46_6b33, 0xca21_3d13, 0xefd1_c207);
    LeftoverIs(0xd2fa_1779, 2, 0x0241_e099, 0x10d1_5b73, 0x1dc4_fb25, 0x5924_0f11);
    LeftoverIs(0xd4f3_1d7a, 3, 0xc9a2_4e9d, 0x88d5_bc48, 0x058e_7b8f, 0x1bfc_b57d);
    LeftoverIs(0xd2fa_1779, 3, 0xc59b_c7db, 0xf090_28cb, 0xf993_2144, 0x7359_6dc9);
  }

  lemma Leftovers20()
    ensures LeftoversDiffer(0x0008_0104, 0x0008_0100)
  {
    LeftoverIs(0x0008_0104, 0, 0x0008_0104, 0x004a_496d, 0x04ee_e234, 0x6ea2_9dbc);
    LeftoverIs(0x0008_0100, 0, 0x0008_0100, 0x004a_4948, 0x04ee_e03f, 0x7cda_9bbf);
    LeftoverIs(0x0008_0104, 1, 0x3012_1986, 0xb606_ec63, 0xd668_9587, 0xdbca_37dd);
    LeftoverIs(0x0008_0100, 1, 0x3012_0180, 0xb606_1dec, 0xd668_2e5f, 0x6a09_cf18);
    LeftoverIs(0x0008_0104, 2, 0x4000_4104, 0x4202_5b6d, 0x6228_1ed0, 0xc530_bf4b);
    LeftoverIs(0x0008_0100, 2, 0x4000_2100, 0x4201_3248, 0x6212_47d1, 0xc312_90f0);
    LeftoverIs(0x0008_0104, 3, 0x010c_2284, 0x09b8_a059, 0x9232_eee2, 0x578b_ba9d);
    LeftoverIs(0x0008_0100, 3, 0x0108_2200, 0x0993_7b90, 0x90a5_0ae2, 0x55f7_9f0d);
  }

  lemma Leftovers21()
    ensures LeftoversDiffer(0x001c_1783, 0xf01e_17fe)
  {
    LeftoverIs(0x001c_1783, 0, 0x001c_1783, 0x0104_90f7, 0x114d_a82d, 0x4c7a_decd);
    LeftoverIs(0xf01e_17fe, 0, 0xf01e_17fe, 0x7476_1d4e, 0x3317_e339, 0x421c_42c5);
    LeftoverIs(0x001c_1783, 1, 0xa863_2944, 0xf2d6_367f, 0xdfb5_c169, 0x0dec_986e);
    LeftoverIs(0xf01e_17fe, 1, 0xcc62_e7fd, 0xb4f1_86d5, 0xfbea_6979, 0x0a12_131e);
    LeftoverIs(0x001c_1783, 2, 0xe0a0_7fd3, 0xecd0_9d55, 0x21d9_58f1, 0xc6e8_be54);
    LeftoverIs(0xf01e_17fe, 2, 0x00a1_e84e, 0x05dc_1f8f, 0x581e_138d, 0x4326_8bdb);
    LeftoverIs(0x001c_1783, 3, 0x17a2_0b65, 0xb007_e2cf, 0xb07a_267b, 0x4794_0f14);
    LeftoverIs(0xf01e_17fe, 3, 0xe7fd_1400, 0xded6_61a0, 0x33b0_9578, 0xc6bf_57cd);
  }

  lemma Leftovers22()
    ensures LeftoversDiffer(0xf81f_7fd1, 0xf81b_7fcd)
  {
    LeftoverIs(0xf81f_7fd1, 0, 0xf81f_7fd1, 0x3aab_a563, 0x9012_3b5b, 0x26aa_8448);
    LeftoverIs(0xf81b_7fcd, 0, 0xf81b_7fcd, 0x3a86_85b2, 0x92ef_2809, 0x82f2_e4a9);
    LeftoverIs(0xf81f_7fd1, 1, 0xc8d0_59b9, 0x92c5_2914, 0xbe98_179f, 0x829a_77fd);
    LeftoverIs(0xf81b_7fcd, 1, 0xe0d6_71b3, 0xed99_2c0c, 0x340c_06d1, 0x9864_36ec);
    LeftoverIs(0xf81f_7fd1, 2, 0x03e1_f9c1, 0x1dd5_a987, 0xc08f_923e, 0xbf81_d086);
    LeftoverIs(0xf81b_7fcd, 2, 0x23e5_29bf, 0x3eb2_c769, 0xd59f_1cc8, 0x46b5_993b);
    LeftoverIs(0xf81f_7fd1, 3, 0x87df_79a0, 0xbeed_da45, 0x5030_a62d, 0x0a59_68c5);
    LeftoverIs(0xf81b_7fcd, 3, 0x87e7_7a9c, 0xbea3_93ef, 0x549a_d76c, 0x8ecd_42c9);
  }

  lemma Leftovers30()
    ensures LeftoversDiffer(0x0004_0080, 0x0008_0100)
  {
    LeftoverIs(0x0004_0080, 0, 0x0004_0080, 0x0025_24a4, 0x0277_701f, 0x3d69_4ddf);
    LeftoverIs(0x0008_0100, 0, 0x0008_0100, 0x004a_4948, 0x04ee_e03f, 0x7cda_9bbf);
    LeftoverIs(0x0004_0080, 1, 0x1809_00c0, 0xdf03_0ef6, 0x2f33_f92f, 0x72f8_c913);
    LeftoverIs(0x0008_0100, 1, 0x3012_0180, 0xb606_1dec, 0xd668_2e5f, 0x6a09_cf18);
    LeftoverIs(0x0004_0080, 2, 0x2000_1080, 0x2100_9924, 0x3109_23e8, 0xe48d_4877);
    LeftoverIs(0x0008_0100, 2, 0x4000_2100, 0x4201_3248, 0x6212_47d1, 0xc312_90f0);
    LeftoverIs(0x0004_0080, 3, 0x0084_1100, 0x04c9_bdc8, 0x4852_8571, 0xacfb_cf86);
    LeftoverIs(0x0008_0100, 3, 0x0108_2200, 0x0993_7b90, 0x90a5_0ae2, 0x55f7_9f0d);
  }

  lemma Leftovers31()
    ensures LeftoversDiffer(0x7c0d_2799, 0x8481_e690)
  {
    LeftoverIs(0x7c0d_2799, 0, 0x7c0d_2799, 0xa147_3c2b, 0xb535_5935, 0xe2b2_2e99);
    LeftoverIs(0x8481_e690, 0, 0x8481_e690, 0xa593_48a0, 0xfca8_40f3, 0x1b12_e1f6);
    LeftoverIs(0x7c0d_2799, 1, 0x6cdc_e565, 0x0a8d_acbf, 0xa257_b87a, 0x57b1_175b);
    LeftoverIs(0x8481_e690, 1, 0xc4a9_79d8, 0xe8f1_ccd0, 0x67ed_35c6, 0xef9c_ea9d);
    LeftoverIs(0x7c0d_2799, 2, 0x1531_fa31, 0xc2a4_1d16, 0xe8e6_40e8, 0x39c9_d9eb);
    LeftoverIs(0x8481_e690, 2, 0x8bb5_ac6a, 0xdcc9_95b3, 0x1050_d6ab, 0x476a_1a05);
    LeftoverIs(0x7c0d_2799, 3, 0x5b9f_9a1d, 0x8b9e_654c, 0x3278_4ac8, 0xa502_2bf3);
    LeftoverIs(0x8481_e690, 3, 0x621e_28cc, 0x7686_ea21, 0x1ee8_57a5, 0x563b_f903);
  }

  lemma Leftovers32()
    ensures LeftoversDiffer(0x5e0a_58da, 0x5b96_d96a)
  {
    LeftoverIs(0x5e0a_58da, 0, 0x5e0a_58da, 0xb3cb_62fa, 0x8f7d_9518, 0xc27b_8b6c);
    LeftoverIs(0x5b96_d96a, 0, 0x5b96_d96a, 0x8b59_12cb, 0x3ec8_5ddf, 0x82cb_7f56);
    LeftoverIs(0x5e0a_58da, 1, 0xb31d_c947, 0x2d53_1f9a, 0xf863_626b, 0x2f1c_eff4);
    LeftoverIs(0x5b96_d96a, 1, 0x016d_2a1f, 0x0a54_9ebe, 0xaf1d_ccec, 0x78fa_441f);
    LeftoverIs(0x5e0a_58da, 2, 0x0ccc_8f40, 0x6dfe_3cea, 0xb21e_4b58, 0x0226_c485);
    LeftoverIs(0x5b96_d96a, 2, 0xed5e_0018, 0x8beb_70de, 0x355c_97ec, 0xf112_0a4b);
    LeftoverIs(0x5e0a_58da, 3, 0x06d1_32e5, 0x31db_6afb, 0x2c6d_db81, 0x2f27_92ef);
    LeftoverIs(0x5b96_d96a, 3, 0x830d_3905, 0xa040_18b6, 0xa441_e5f6, 0x4962_ed8d);
  }

  lemma Leftovers33()
    ensures LeftoversDiffer(0x3be1_7218, 0xc00d_7618)
  {
    LeftoverIs(0x3be1_7218, 0, 0x3be1_7218, 0xec12_39ee, 0x2d31_bda6, 0x62b6_849c);
    LeftoverIs(0xc00d_7618, 0, 0xc00d_7618, 0xc669_fd0e, 0xa0f6_7e69, 0x74c2_5862);
    LeftoverIs(0x3be1_7218, 1, 0x1d3d_9b24, 0xfc77_cc14, 0x3b0b_2ad9, 0x8b2f_5784);
    LeftoverIs(0xc00d_7618, 1, 0x70bf_a124, 0xfcec_bd44, 0x3227_8217, 0x1c98_201f);
    LeftoverIs(0x3be1_7218, 2, 0x3071_ca50, 0xb99f_9596, 0x2066_dd29, 0x7430_789d);
    LeftoverIs(0xc00d_7618, 2, 0xabbe_0bf6, 0xfe00_c6e8, 0x1e0c_b76e, 0xc514_ea4b);
    LeftoverIs(0x3be1_7218, 3, 0x4a02_b146, 0x1ae7_f551, 0xb498_fa8d, 0xb153_5e77);
    LeftoverIs(0xc00d_7618, 3, 0xb62c_38c6, 0x0788_6eed, 0x7f0e_bfc4, 0xfaea_fac3);
  }
}
