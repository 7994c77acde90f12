/** A known answer: what main.c expects of its second message, "1234567890", followed round by round through
    the specification. */
module KnownAnswer {
  import opened Words
  import opened Fips180

  /** Four words of the schedule. */
  datatype Quad = Quad(a: word, b: word, c: word, d: word)

  /** The four words that come after sixteen. */
  function Following(p: Quad, q: Quad, r: Quad, s: Quad): Quad {
    var a := Expanded(s.b, r.a, p.c, p.a);
    Quad(a, Expanded(s.c, r.b, p.d, p.b), Expanded(s.d, r.c, q.a, p.c), Expanded(a, r.d, q.b, p.d))
  }

  function Four(g: Hash, t: nat, q: Quad): Hash {
    Round(Round(Round(Round(g, t, q.a), t + 1, q.b), t + 2, q.c), t + 3, q.d)
  }

  ghost predicate WordsAre(m: Block, t: nat, q: Quad) {
    W(m, t) == q.a && W(m, t + 1) == q.b && W(m, t + 2) == q.c && W(m, t + 3) == q.d
  }

  /** The working variables after `t` rounds and the next sixteen words. */
  ghost predicate Reached(m: Block, t: nat, g: Hash, p: Quad, q: Quad, r: Quad, s: Quad) {
    && Rounds(H0, m, t) == g && WordsAre(m, t, p) && WordsAre(m, t + 4, q)
    && WordsAre(m, t + 8, r) && WordsAre(m, t + 12, s)
  }

  lemma Advance(m: Block, t: nat, g: Hash, p: Quad, q: Quad, r: Quad, s: Quad)
    requires Reached(m, t, g, p, q, r, s)
    ensures Reached(m, t + 4, Four(g, t, p), q, r, s, Following(p, q, r, s))
  {
    hide Rounds, W, Expanded, Round;
    FourRounds(m, t, g, p);
    FourWords(m, t, p, q, r, s);
  }

  lemma FourRounds(m: Block, t: nat, g: Hash, q: Quad)
    requires Rounds(H0, m, t) == g && WordsAre(m, t, q)
    ensures Rounds(H0, m, t + 4) == Four(g, t, q)
  {
    hide Round, W;
    assert Rounds(H0, m, t + 2) == Round(Rounds(H0, m, t + 1), t + 1, W(m, t + 1));
    assert Rounds(H0, m, t + 3) == Round(Rounds(H0, m, t + 2), t + 2, W(m, t + 2));
  }

  lemma FourWords(m: Block, t: nat, p: Quad, q: Quad, r: Quad, s: Quad)
    requires WordsAre(m, t, p) && WordsAre(m, t + 4, q) && WordsAre(m, t + 8, r) && WordsAre(m, t + 12, s)
    ensures WordsAre(m, t + 16, Following(p, q, r, s))
  {
    hide W, Expanded;
    NextWordIs(m, t + 16);
    NextWordIs(m, t + 17);
    NextWordIs(m, t + 18);
    NextWordIs(m, t + 19);
  }

  lemma NextWordIs(m: Block, t: nat)
    requires t >= 16
    ensures W(m, t) == Expanded(W(m, t - 3), W(m, t - 8), W(m, t - 14), W(m, t - 16))
  {
    hide Expanded;
  }

  // ----- The schedule of the message and the working variables after every fourth round

  const W0 := Quad(0x3132_3334, 0x3536_3738, 0x3930_8000, 0x0000_0000)
  const W1 := Quad(0x0000_0000, 0x0000_0000, 0x0000_0000, 0x0000_0000)
  const W2 := Quad(0x0000_0000, 0x0000_0000, 0x0000_0000, 0x0000_0000)
  const W3 := Quad(0x0000_0000, 0x0000_0000, 0x0000_0000, 0x0000_0050)
  const W4 := Quad(0x1005_6668, 0x6a6c_6e70, 0x7261_00a0, 0x200a_ccd0)
  const W5 := Quad(0xd4d8_dce0, 0xe4c2_0140, 0x4015_99a0, 0xa9b1_b961)
  const W6 := Quad(0xe98e_ce51, 0x54f3_efa0, 0xb7a1_7383, 0x9308_0503)
  const W7 := Quad(0x0056_6681, 0xa6c6_e526, 0x8631_f597, 0x8717_6381)
  const W8 := Quad(0x5a58_9b7e, 0x3149_712f, 0x2c1f_9885, 0x1b30_a7da)
  const W9 := Quad(0x4ba4_a5dd, 0x8f55_8b05, 0x6934_0b78, 0x63e3_213a)
  const W10 := Quad(0x1645_5b53, 0x3f0d_21e9, 0xf017_597b, 0x7176_3958)
  const W11 := Quad(0xe59c_2e45, 0xbd26_a9b2, 0x8856_b993, 0x6042_3ba2)
  const W12 := Quad(0xba49_e235, 0x3a44_9d1f, 0xefdc_bf03, 0xbeb5_ef64)
  const W13 := Quad(0xfa90_3bff, 0x7c99_791d, 0x9324_0db8, 0x8c78_011d)
  const W14 := Quad(0x4105_3200, 0xce37_102d, 0xec5f_9240, 0x67c0_9b1c)
  const W15 := Quad(0xb2db_7808, 0x9b44_f29a, 0x8df7_9a05, 0xc94b_bf50)
  const W16 := Quad(0x1fa9_3b59, 0x8e63_f0a7, 0x60b1_53d8, 0x748a_6c79)
  const W17 := Quad(0xaa19_7dd0, 0x1629_b284, 0x56b9_9388, 0x423b_a760)
  const W18 := Quad(0x49b4_533b, 0xe25b_d03c, 0xf81c_3de0, 0x8374_ad89)
  const W19 := Quad(0xeedc_9fc2, 0x7875_855d, 0x8f27_3eba, 0xd79e_eeab)

  const G0 := Hash(0x6745_2301, 0xefcd_ab89, 0x98ba_dcfe, 0x1032_5476, 0xc3d2_e1f0)
  const G1 := Hash(0xd174_974c, 0xc04f_674e, 0xee30_204f, 0xf439_b2f9, 0x59d1_48c0)
  const G2 := Hash(0x3b50_6076, 0x73d7_a5b8, 0xfbee_1f0b, 0xb5c5_d73c, 0x345d_25d3)
  const G3 := Hash(0xfa7d_8f80, 0xd435_8960, 0xbfe1_de10, 0xfc2c_814f, 0x8ed4_181d)
  const G4 := Hash(0x92fc_8ba4, 0x9e34_ee67, 0x8c9f_6265, 0x3d4c_8279, 0x3e9f_63e0)
  const G5 := Hash(0x2480_fedf, 0x2ce6_8bb1, 0x54db_8d16, 0x2d85_46bc, 0x24bf_22e9)
  const G6 := Hash(0x9ad8_d6a5, 0x88bc_e9f9, 0xe171_3c7a, 0x5392_81da, 0xc920_3fb7)
  const G7 := Hash(0x1d39_8cf4, 0xe4f7_5742, 0x8452_e11c, 0x6dc0_c8ad, 0x66b6_35a9)
  const G8 := Hash(0xa76f_5065, 0x1b0c_11be, 0x7cdb_3e77, 0x629f_6950, 0x074e_633d)
  const G9 := Hash(0xf811_fd53, 0x18bd_6b36, 0x75a8_7975, 0x70ec_cf6a, 0x69db_d419)
  const G10 := Hash(0x8c17_6346, 0x3088_d595, 0xc34c_3338, 0xd124_fb4f, 0xfe04_7f54)
  const G11 := Hash(0xbe82_5dae, 0x0fd5_b1ca, 0x95cc_9eed, 0x7dd7_bcdc, 0xa305_d8d1)
  const G12 := Hash(0x3d0e_9736, 0xedde_aad2, 0x0771_54be, 0x4177_cda5, 0xafa0_976b)
  const G13 := Hash(0x5133_b169, 0xbf5d_2ce4, 0x951b_3f64, 0x7814_3a7e, 0x8f43_a5cd)
  const G14 := Hash(0x04ad_6ebc, 0x5be0_ac17, 0xca4f_7caf, 0xbf20_c28d, 0x544c_ec5a)
  const G15 := Hash(0x0b4c_9b39, 0x39df_c582, 0x64bd_39bd, 0x655f_27d1, 0x012b_5baf)
  const G16 := Hash(0xf31f_85ca, 0x26be_1a00, 0x6cfa_10ea, 0x080e_b627, 0x42d3_26ce)
  const G17 := Hash(0xb63a_431e, 0x4cd9_503d, 0x969c_b057, 0x34c6_a68a, 0xbcc7_e172)
  const G18 := Hash(0x8157_cc7c, 0x2d17_9588, 0x9ab7_4f01, 0xb9c3_f2f3, 0xad8e_90c7)
  const G19 := Hash(0x1ab5_72a8, 0x1bbd_8ad0, 0xf5dc_e9e0, 0xbec0_9778, 0x2055_f31f)
  const G20 := Hash(0x9a6d_e4ab, 0xca81_a96c, 0xc1f4_e63d, 0xa039_6780, 0x06ad_5caa)

  lemma Cycle0()
    ensures Four(G0, 0, W0) == G1 && Following(W0, W1, W2, W3) == W4
    ensures Four(G1, 4, W1) == G2 && Following(W1, W2, W3, W4) == W5
    ensures Four(G2, 8, W2) == G3 && Following(W2, W3, W4, W5) == W6
    ensures Four(G3, 12, W3) == G4 && Following(W3, W4, W5, W6) == W7
  {}

  lemma Cycle1()
    ensures Four(G4, 16, W4) == G5 && Following(W4, W5, W6, W7) == W8
    ensures Four(G5, 20, W5) == G6 && Following(W5, W6, W7, W8) == W9
    ensures Four(G6, 24, W6) == G7 && Following(W6, W7, W8, W9) == W10
    ensures Four(G7, 28, W7) == G8 && Following(W7, W8, W9, W10) == W11
  {}

  lemma Cycle2()
    ensures Four(G8, 32, W8) == G9 && Following(W8, W9, W10, W11) == W12
    ensures Four(G9, 36, W9) == G10 && Following(W9, W10, W11, W12) == W13
    ensures Four(G10, 40, W10) == G11 && Following(W10, W11, W12, W13) == W14
    ensures Four(G11, 44, W11) == G12 && Following(W11, W12, W13, W14) == W15
  {}

  lemma Cycle3()
    ensures Four(G12, 48, W12) == G13 && Following(W12, W13, W14, W15) == W16
    ensures Four(G13, 52, W13) == G14 && Following(W13, W14, W15, W16) == W17
    ensures Four(G14, 56, W14) == G15 && Following(W14, W15, W16, W17) == W18
    ensures Four(G15, 60, W15) == G16 && Following(W15, W16, W17, W18) == W19
  {}

  lemma Cycle4()
    ensures Four(G16, 64, W16) == G17
    ensures Four(G17, 68, W17) == G18
    ensures Four(G18, 72, W18) == G19
    ensures Four(G19, 76, W19) == G20
  {}

  lemma Reached1(m: Block)
    requires WordsAre(m, 0, W0) && WordsAre(m, 4, W1) && WordsAre(m, 8, W2) && WordsAre(m, 12, W3)
    ensures Reached(m, 16, G4, W4, W5, W6, W7)
  {
    hide *;
    Start(m);
    Cycle0();
    Advance(m, 0, G0, W0, W1, W2, W3);
    Advance(m, 4, G1, W1, W2, W3, W4);
    Advance(m, 8, G2, W2, W3, W4, W5);
    Advance(m, 12, G3, W3, W4, W5, W6);
  }

  lemma Reached2(m: Block)
    requires Reached(m, 16, G4, W4, W5, W6, W7)
    ensures Reached(m, 32, G8, W8, W9, W10, W11)
  {
    hide *;
    Cycle1();
    Advance(m, 16, G4, W4, W5, W6, W7);
    Advance(m, 20, G5, W5, W6, W7, W8);
    Advance(m, 24, G6, W6, W7, W8, W9);
    Advance(m, 28, G7, W7, W8, W9, W10);
  }

  lemma Reached3(m: Block)
    requires Reached(m, 32, G8, W8, W9, W10, W11)
    ensures Reached(m, 48, G12, W12, W13, W14, W15)
  {
    hide *;
    Cycle2();
    Advance(m, 32, G8, W8, W9, W10, W11);
    Advance(m, 36, G9, W9, W10, W11, W12);
    Advance(m, 40, G10, W10, W11, W12, W13);
    Advance(m, 44, G11, W11, W12, W13, W14);
  }

  lemma Reached4(m: Block)
    requires Reached(m, 48, G12, W12, W13, W14, W15)
    ensures Reached(m, 64, G16, W16, W17, W18, W19)
  {
    hide *;
    Cycle3();
    Advance(m, 48, G12, W12, W13, W14, W15);
    Advance(m, 52, G13, W13, W14, W15, W16);
    Advance(m, 56, G14, W14, W15, W16, W17);
    Advance(m, 60, G15, W15, W16, W17, W18);
  }

  lemma Start(m: Block)
    requires WordsAre(m, 0, W0) && WordsAre(m, 4, W1) && WordsAre(m, 8, W2) && WordsAre(m, 12, W3)
    ensures Reached(m, 0, G0, W0, W1, W2, W3)
  {}

  lemma Reached5(m: Block)
    requires Reached(m, 64, G16, W16, W17, W18, W19)
    ensures Rounds(H0, m, 80) == G20
  {
    hide W, Rounds, Four;
    Cycle4();
    FourRounds(m, 64, G16, W16);
    FourRounds(m, 68, G17, W17);
    FourRounds(m, 72, G18, W18);
    FourRounds(m, 76, G19, W19);
  }

  lemma EightyRounds(m: Block)
    requires WordsAre(m, 0, W0) && WordsAre(m, 4, W1) && WordsAre(m, 8, W2) && WordsAre(m, 12, W3)
    ensures Compress(H0, m) == Plus(H0, G20)
  {
    hide Rounds, WordsAre, Reached, Plus;
    Reached1(m);
    Reached2(m);
    Reached3(m);
    Reached4(m);
    Reached5(m);
  }

  // ----- The padded message

  /** The bytes "1234567890". */
  const TEN: seq<byte> := [0x31, 0x32, 0x33, 0x34, 0x35, 0x36, 0x37, 0x38, 0x39, 0x30]

  lemma LengthBytes()
    ensures Digits(80, 8) == [0, 0, 0, 0, 0, 0, 0, 80]
  {
    hide Digits;
    Halves(0, 80);
    Digits4(0);
    Digits4(80);
    LowBytes();
  }

  lemma LowBytes()
    ensures LowByte(0) == 0 && LowByte(80) == 80
  {
    assert Bits(10, 5) == 10;
  }

  lemma PaddedBytes(k: nat)
    requires k < 64
    ensures |Padded(TEN)| == 64
    ensures Padded(TEN)[k] == if k < 10 then TEN[k] else if k == 10 then 0x80 else if k == 63 then 80 else 0
  {
    hide Digits;
    LengthBytes();
    assert Padded(TEN) == TEN + ([0x80] + Zeros(45) + Digits(80, 8));
  }

  lemma WordAt(s: seq<byte>, k: nat)
    requires |s| == 64 && k < 16
    ensures WordsBE(s)[k] == LoadBE([s[4 * k], s[4 * k + 1], s[4 * k + 2], s[4 * k + 3]])
  {
    hide LoadBE;
    assert s[4 * k..4 * k + 4] == [s[4 * k], s[4 * k + 1], s[4 * k + 2], s[4 * k + 3]];
  }

  ghost predicate IsPaddedTen(s: seq<byte>) {
    && |s| == 64
    && forall k :: 0 <= k < 64 ==>
         s[k] == if k < 10 then TEN[k] else if k == 10 then 0x80 else if k == 63 then 80 else 0
  }

  lemma PaddedTen()
    ensures IsPaddedTen(Padded(TEN))
  {
    hide Padded;
    PaddedBytes(0);
    forall k | 0 <= k < 64
      ensures Padded(TEN)[k] == if k < 10 then TEN[k] else if k == 10 then 0x80 else if k == 63 then 80 else 0
    {
      PaddedBytes(k);
    }
  }

  lemma MessageWords(s: seq<byte>)
    requires IsPaddedTen(s)
    ensures var m := WordsBE(s);
            WordsAre(m, 0, W0) && WordsAre(m, 4, W1) && WordsAre(m, 8, W2) && WordsAre(m, 12, W3)
  {
    hide LoadBE, WordsBE;
    forall k | 0 <= k < 16 ensures WordsBE(s)[k] == LoadBE([s[4 * k], s[4 * k + 1], s[4 * k + 2], s[4 * k + 3]]) {
      WordAt(s, k);
    }
    Loads();
  }

  lemma Loads()
    ensures LoadBE([0x31, 0x32, 0x33, 0x34]) == 0x3132_3334 && LoadBE([0x35, 0x36, 0x37, 0x38]) == 0x3536_3738
    ensures LoadBE([0x39, 0x30, 0x80, 0x00]) == 0x3930_8000 && LoadBE([0, 0, 0, 0]) == 0 && LoadBE([0, 0, 0, 80]) == 80
  {}

  /** `t2_output`. */
  lemma DigestOfTen()
    ensures Sha1(TEN) ==
            [0x01, 0xb3, 0x07, 0xac, 0xba, 0x4f, 0x54, 0xf5, 0x5a, 0xaf,
             0xc3, 0x3b, 0xb0, 0x6b, 0xbb, 0xf6, 0xca, 0x80, 0x3e, 0x9a]
  {
    hide *;
    PaddedTen();
    var s := Padded(TEN);
    SizeOfPadded(s);
    MessageWords(s);
    EightyRounds(WordsBE(s));
    SingleBlock(s);
    Sha1OfFed(TEN);
    WholeIsDone(s);
    LastSum();
  }

  lemma SizeOfPadded(s: seq<byte>)
    requires IsPaddedTen(s)
    ensures |s| == 64
  {}

  lemma SingleBlock(s: seq<byte>)
    requires |s| == 64
    ensures Chain(s) == Compress(H0, WordsBE(s))
  {
    hide *;
    NothingDone();
    ChainStep(s, [], s);
  }

  lemma LastSum()
    ensures Digest(Plus(H0, G20)) ==
            [0x01, 0xb3, 0x07, 0xac, 0xba, 0x4f, 0x54, 0xf5, 0x5a, 0xaf,
             0xc3, 0x3b, 0xb0, 0x6b, 0xbb, 0xf6, 0xca, 0x80, 0x3e, 0x9a]
  {}
}
