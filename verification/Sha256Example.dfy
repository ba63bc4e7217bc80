/** The digest of "abc", the one-block example published with FIPS 180-4: every function takes part. */
module Sha256Example {
  import opened Sha256Spec

  const ABC: seq<Byte> := [0x61, 0x62, 0x63]

  /** Words t to t + 7 of the schedule. */
  predicate HasRow(block: seq<Byte>, t: nat, w0: Word, w1: Word, w2: Word, w3: Word, w4: Word, w5: Word, w6: Word,
                   w7: Word)
  {
    && |block| == 64
    && Schedule(block, t) == w0 && Schedule(block, t + 1) == w1 && Schedule(block, t + 2) == w2
    && Schedule(block, t + 3) == w3 && Schedule(block, t + 4) == w4 && Schedule(block, t + 5) == w5
    && Schedule(block, t + 6) == w6 && Schedule(block, t + 7) == w7
  }

  lemma NextWord(block: seq<Byte>, t: nat, w2: Word, w7: Word, w15: Word, w16: Word, w: Word)
    requires |block| == 64 && t >= 16 && w == Sum4(SmallSigma1(w2), w7, SmallSigma0(w15), w16)
    requires Schedule(block, t - 2) == w2 && Schedule(block, t - 7) == w7
    requires Schedule(block, t - 15) == w15 && Schedule(block, t - 16) == w16
    ensures Schedule(block, t) == w
  {
  }

  lemma Row2(block: seq<Byte>)
    requires HasRow(block, 0,
                    0x61626380, 0x00000000, 0x00000000, 0x00000000, 0x00000000, 0x00000000, 0x00000000, 0x00000000)
    requires HasRow(block, 8,
                    0x00000000, 0x00000000, 0x00000000, 0x00000000, 0x00000000, 0x00000000, 0x00000000, 0x00000018)
    ensures HasRow(block, 16,
                   0x61626380, 0x000f0000, 0x7da86405, 0x600003c6, 0x3e9d7b78, 0x0183fc00, 0x12dcbfdb, 0xe2e2c38e)
  {
    hide Schedule;
    NextWord(block, 16, 0x00000000, 0x00000000, 0x00000000, 0x61626380, 0x61626380);
    NextWord(block, 17, 0x00000018, 0x00000000, 0x00000000, 0x00000000, 0x000f0000);
    NextWord(block, 18, 0x61626380, 0x00000000, 0x00000000, 0x00000000, 0x7da86405);
    NextWord(block, 19, 0x000f0000, 0x00000000, 0x00000000, 0x00000000, 0x600003c6);
    NextWord(block, 20, 0x7da86405, 0x00000000, 0x00000000, 0x00000000, 0x3e9d7b78);
    NextWord(block, 21, 0x600003c6, 0x00000000, 0x00000000, 0x00000000, 0x0183fc00);
    NextWord(block, 22, 0x3e9d7b78, 0x00000018, 0x00000000, 0x00000000, 0x12dcbfdb);
    NextWord(block, 23, 0x0183fc00, 0x61626380, 0x00000000, 0x00000000, 0xe2e2c38e);
  }

  lemma Row3(block: seq<Byte>)
    requires HasRow(block, 8,
                    0x00000000, 0x00000000, 0x00000000, 0x00000000, 0x00000000, 0x00000000, 0x00000000, 0x00000018)
    requires HasRow(block, 16,
                    0x61626380, 0x000f0000, 0x7da86405, 0x600003c6, 0x3e9d7b78, 0x0183fc00, 0x12dcbfdb, 0xe2e2c38e)
    ensures HasRow(block, 24,
                   0xc8215c1a, 0xb73679a2, 0xe5bc3909, 0x32663c5b, 0x9d209d67, 0xec8726cb, 0x702138a4, 0xd3b7973b)
  {
    hide Schedule;
    NextWord(block, 24, 0x12dcbfdb, 0x000f0000, 0x00000000, 0x00000000, 0xc8215c1a);
    NextWord(block, 25, 0xe2e2c38e, 0x7da86405, 0x00000000, 0x00000000, 0xb73679a2);
    NextWord(block, 26, 0xc8215c1a, 0x600003c6, 0x00000000, 0x00000000, 0xe5bc3909);
    NextWord(block, 27, 0xb73679a2, 0x3e9d7b78, 0x00000000, 0x00000000, 0x32663c5b);
    NextWord(block, 28, 0xe5bc3909, 0x0183fc00, 0x00000000, 0x00000000, 0x9d209d67);
    NextWord(block, 29, 0x32663c5b, 0x12dcbfdb, 0x00000000, 0x00000000, 0xec8726cb);
    NextWord(block, 30, 0x9d209d67, 0xe2e2c38e, 0x00000018, 0x00000000, 0x702138a4);
    NextWord(block, 31, 0xec8726cb, 0xc8215c1a, 0x61626380, 0x00000018, 0xd3b7973b);
  }

  lemma Row4(block: seq<Byte>)
    requires HasRow(block, 16,
                    0x61626380, 0x000f0000, 0x7da86405, 0x600003c6, 0x3e9d7b78, 0x0183fc00, 0x12dcbfdb, 0xe2e2c38e)
    requires HasRow(block, 24,
                    0xc8215c1a, 0xb73679a2, 0xe5bc3909, 0x32663c5b, 0x9d209d67, 0xec8726cb, 0x702138a4, 0xd3b7973b)
    ensures HasRow(block, 32,
                   0x93f5997f, 0x3b68ba73, 0xaff4ffc1, 0xf10a5c62, 0x0a8b3996, 0x72af830a, 0x9409e33e, 0x24641522)
  {
    hide Schedule;
    NextWord(block, 32, 0x702138a4, 0xb73679a2, 0x000f0000, 0x61626380, 0x93f5997f);
    NextWord(block, 33, 0xd3b7973b, 0xe5bc3909, 0x7da86405, 0x000f0000, 0x3b68ba73);
    NextWord(block, 34, 0x93f5997f, 0x32663c5b, 0x600003c6, 0x7da86405, 0xaff4ffc1);
    NextWord(block, 35, 0x3b68ba73, 0x9d209d67, 0x3e9d7b78, 0x600003c6, 0xf10a5c62);
    NextWord(block, 36, 0xaff4ffc1, 0xec8726cb, 0x0183fc00, 0x3e9d7b78, 0x0a8b3996);
    NextWord(block, 37, 0xf10a5c62, 0x702138a4, 0x12dcbfdb, 0x0183fc00, 0x72af830a);
    NextWord(block, 38, 0x0a8b3996, 0xd3b7973b, 0xe2e2c38e, 0x12dcbfdb, 0x9409e33e);
    NextWord(block, 39, 0x72af830a, 0x93f5997f, 0xc8215c1a, 0xe2e2c38e, 0x24641522);
  }

  lemma Row5(block: seq<Byte>)
    requires HasRow(block, 24,
                    0xc8215c1a, 0xb73679a2, 0xe5bc3909, 0x32663c5b, 0x9d209d67, 0xec8726cb, 0x702138a4, 0xd3b7973b)
    requires HasRow(block, 32,
                    0x93f5997f, 0x3b68ba73, 0xaff4ffc1, 0xf10a5c62, 0x0a8b3996, 0x72af830a, 0x9409e33e, 0x24641522)
    ensures HasRow(block, 40,
                   0x9f47bf94, 0xf0a64f5a, 0x3e246a79, 0x27333ba3, 0x0c4763f2, 0x840abf27, 0x7a290d5d, 0x065c43da)
  {
    hide Schedule;
    NextWord(block, 40, 0x9409e33e, 0x3b68ba73, 0xb73679a2, 0xc8215c1a, 0x9f47bf94);
    NextWord(block, 41, 0x24641522, 0xaff4ffc1, 0xe5bc3909, 0xb73679a2, 0xf0a64f5a);
    NextWord(block, 42, 0x9f47bf94, 0xf10a5c62, 0x32663c5b, 0xe5bc3909, 0x3e246a79);
    NextWord(block, 43, 0xf0a64f5a, 0x0a8b3996, 0x9d209d67, 0x32663c5b, 0x27333ba3);
    NextWord(block, 44, 0x3e246a79, 0x72af830a, 0xec8726cb, 0x9d209d67, 0x0c4763f2);
    NextWord(block, 45, 0x27333ba3, 0x9409e33e, 0x702138a4, 0xec8726cb, 0x840abf27);
    NextWord(block, 46, 0x0c4763f2, 0x24641522, 0xd3b7973b, 0x702138a4, 0x7a290d5d);
    NextWord(block, 47, 0x840abf27, 0x9f47bf94, 0x93f5997f, 0xd3b7973b, 0x065c43da);
  }

  lemma Row6(block: seq<Byte>)
    requires HasRow(block, 32,
                    0x93f5997f, 0x3b68ba73, 0xaff4ffc1, 0xf10a5c62, 0x0a8b3996, 0x72af830a, 0x9409e33e, 0x24641522)
    requires HasRow(block, 40,
                    0x9f47bf94, 0xf0a64f5a, 0x3e246a79, 0x27333ba3, 0x0c4763f2, 0x840abf27, 0x7a290d5d, 0x065c43da)
    ensures HasRow(block, 48,
                   0xfb3e89cb, 0xcc7617db, 0xb9e66c34, 0xa9993667, 0x84badedd, 0xc21462bc, 0x1487472c, 0xb20f7a99)
  {
    hide Schedule;
    NextWord(block, 48, 0x7a290d5d, 0xf0a64f5a, 0x3b68ba73, 0x93f5997f, 0xfb3e89cb);
    NextWord(block, 49, 0x065c43da, 0x3e246a79, 0xaff4ffc1, 0x3b68ba73, 0xcc7617db);
    NextWord(block, 50, 0xfb3e89cb, 0x27333ba3, 0xf10a5c62, 0xaff4ffc1, 0xb9e66c34);
    NextWord(block, 51, 0xcc7617db, 0x0c4763f2, 0x0a8b3996, 0xf10a5c62, 0xa9993667);
    NextWord(block, 52, 0xb9e66c34, 0x840abf27, 0x72af830a, 0x0a8b3996, 0x84badedd);
    NextWord(block, 53, 0xa9993667, 0x7a290d5d, 0x9409e33e, 0x72af830a, 0xc21462bc);
    NextWord(block, 54, 0x84badedd, 0x065c43da, 0x24641522, 0x9409e33e, 0x1487472c);
    NextWord(block, 55, 0xc21462bc, 0xfb3e89cb, 0x9f47bf94, 0x24641522, 0xb20f7a99);
  }

  lemma Row7(block: seq<Byte>)
    requires HasRow(block, 40,
                    0x9f47bf94, 0xf0a64f5a, 0x3e246a79, 0x27333ba3, 0x0c4763f2, 0x840abf27, 0x7a290d5d, 0x065c43da)
    requires HasRow(block, 48,
                    0xfb3e89cb, 0xcc7617db, 0xb9e66c34, 0xa9993667, 0x84badedd, 0xc21462bc, 0x1487472c, 0xb20f7a99)
    ensures HasRow(block, 56,
                   0xef57b9cd, 0xebe6b238, 0x9fe3095e, 0x78bc8d4b, 0xa43fcf15, 0x668b2ff8, 0xeeaba2cc, 0x12b1edeb)
  {
    hide Schedule;
    NextWord(block, 56, 0x1487472c, 0xcc7617db, 0xf0a64f5a, 0x9f47bf94, 0xef57b9cd);
    NextWord(block, 57, 0xb20f7a99, 0xb9e66c34, 0x3e246a79, 0xf0a64f5a, 0xebe6b238);
    NextWord(block, 58, 0xef57b9cd, 0xa9993667, 0x27333ba3, 0x3e246a79, 0x9fe3095e);
    NextWord(block, 59, 0xebe6b238, 0x84badedd, 0x0c4763f2, 0x27333ba3, 0x78bc8d4b);
    NextWord(block, 60, 0x9fe3095e, 0xc21462bc, 0x840abf27, 0x0c4763f2, 0xa43fcf15);
    NextWord(block, 61, 0x78bc8d4b, 0x1487472c, 0x7a290d5d, 0x840abf27, 0x668b2ff8);
    NextWord(block, 62, 0xa43fcf15, 0xb20f7a99, 0x065c43da, 0x7a290d5d, 0xeeaba2cc);
    NextWord(block, 63, 0x668b2ff8, 0xef57b9cd, 0xfb3e89cb, 0x065c43da, 0x12b1edeb);
  }

  /** One round, which makes two new words and moves the others. */
  lemma OneRound(block: seq<Byte>, t: nat, v: Working, k: Word, w: Word, a: Word, e: Word) returns (r: Working)
    requires |block| == 64 && t < 64 && v == Rounds(block, ToWorking(INITIAL_HASH), t)
    requires K[t] == k && Schedule(block, t) == w && Round(v, k, w) == Working(a, v.a, v.b, v.c, e, v.e, v.f, v.g)
    ensures r == Rounds(block, ToWorking(INITIAL_HASH), t + 1) == Working(a, v.a, v.b, v.c, e, v.e, v.f, v.g)
  {
    r := Round(v, k, w);
  }

  lemma K0IsRow()
    ensures |K| == 64 && K[0] == K0[0] && K[1] == K0[1] && K[2] == K0[2] && K[3] == K0[3]
    ensures K[4] == K0[4] && K[5] == K0[5] && K[6] == K0[6] && K[7] == K0[7]
  {
  }

  lemma Rounds0(block: seq<Byte>)
    requires HasRow(block, 0,
                    0x61626380, 0x00000000, 0x00000000, 0x00000000, 0x00000000, 0x00000000, 0x00000000, 0x00000000)
    requires Rounds(block, ToWorking(INITIAL_HASH), 0)
          == Working(0x6a09e667, 0xbb67ae85, 0x3c6ef372, 0xa54ff53a, 0x510e527f, 0x9b05688c, 0x1f83d9ab, 0x5be0cd19)
    ensures Rounds(block, ToWorking(INITIAL_HASH), 8)
         == Working(0x85a07b5f, 0xe5030380, 0x2b4209f5, 0x04409a6a, 0x0c657a79, 0x9b27a401, 0x714260ad, 0x43ada245)
  {
    hide Schedule;
    hide Rounds;
    hide K;
    K0IsRow();
    var v := Working(0x6a09e667, 0xbb67ae85, 0x3c6ef372, 0xa54ff53a, 0x510e527f, 0x9b05688c, 0x1f83d9ab, 0x5be0cd19);
    v := OneRound(block, 0, v, K0[0], 0x61626380, 0x5d6aebcd, 0xfa2a4622);
    v := OneRound(block, 1, v, K0[1], 0x00000000, 0x5a6ad9ad, 0x78ce7989);
    v := OneRound(block, 2, v, K0[2], 0x00000000, 0xc8c347a7, 0xf92939eb);
    v := OneRound(block, 3, v, K0[3], 0x00000000, 0xd550f666, 0x24e00850);
    v := OneRound(block, 4, v, K0[4], 0x00000000, 0x04409a6a, 0x43ada245);
    v := OneRound(block, 5, v, K0[5], 0x00000000, 0x2b4209f5, 0x714260ad);
    v := OneRound(block, 6, v, K0[6], 0x00000000, 0xe5030380, 0x9b27a401);
    v := OneRound(block, 7, v, K0[7], 0x00000000, 0x85a07b5f, 0x0c657a79);
  }

  lemma K1IsRow()
    ensures |K| == 64 && K[8] == K1[0] && K[9] == K1[1] && K[10] == K1[2] && K[11] == K1[3]
    ensures K[12] == K1[4] && K[13] == K1[5] && K[14] == K1[6] && K[15] == K1[7]
  {
  }

  lemma Rounds1(block: seq<Byte>)
    requires HasRow(block, 8,
                    0x00000000, 0x00000000, 0x00000000, 0x00000000, 0x00000000, 0x00000000, 0x00000000, 0x00000018)
    requires Rounds(block, ToWorking(INITIAL_HASH), 8)
          == Working(0x85a07b5f, 0xe5030380, 0x2b4209f5, 0x04409a6a, 0x0c657a79, 0x9b27a401, 0x714260ad, 0x43ada245)
    ensures Rounds(block, ToWorking(INITIAL_HASH), 16)
         == Working(0xb0fa238e, 0xc0645fde, 0xd932eb16, 0x87912990, 0x07590dcd, 0x0b92f20c, 0x745a48de, 0x1e578218)
  {
    hide Schedule;
    hide Rounds;
    hide K;
    K1IsRow();
    var v := Working(0x85a07b5f, 0xe5030380, 0x2b4209f5, 0x04409a6a, 0x0c657a79, 0x9b27a401, 0x714260ad, 0x43ada245);
    v := OneRound(block, 8, v, K1[0], 0x00000000, 0x8e04ecb9, 0x32ca2d8c);
    v := OneRound(block, 9, v, K1[1], 0x00000000, 0x8c87346b, 0x1cc92596);
    v := OneRound(block, 10, v, K1[2], 0x00000000, 0x4798a3f4, 0x436b23e8);
    v := OneRound(block, 11, v, K1[3], 0x00000000, 0xf71fc5a9, 0x816fd6e9);
    v := OneRound(block, 12, v, K1[4], 0x00000000, 0x87912990, 0x1e578218);
    v := OneRound(block, 13, v, K1[5], 0x00000000, 0xd932eb16, 0x745a48de);
    v := OneRound(block, 14, v, K1[6], 0x00000000, 0xc0645fde, 0x0b92f20c);
    v := OneRound(block, 15, v, K1[7], 0x00000018, 0xb0fa238e, 0x07590dcd);
  }

  lemma K2IsRow()
    ensures |K| == 64 && K[16] == K2[0] && K[17] == K2[1] && K[18] == K2[2] && K[19] == K2[3]
    ensures K[20] == K2[4] && K[21] == K2[5] && K[22] == K2[6] && K[23] == K2[7]
  {
  }

  lemma Rounds2(block: seq<Byte>)
    requires HasRow(block, 16,
                    0x61626380, 0x000f0000, 0x7da86405, 0x600003c6, 0x3e9d7b78, 0x0183fc00, 0x12dcbfdb, 0xe2e2c38e)
    requires Rounds(block, ToWorking(INITIAL_HASH), 16)
          == Working(0xb0fa238e, 0xc0645fde, 0xd932eb16, 0x87912990, 0x07590dcd, 0x0b92f20c, 0x745a48de, 0x1e578218)
    ensures Rounds(block, ToWorking(INITIAL_HASH), 24)
         == Working(0xc5d53d8d, 0xa7a3623f, 0xc2606d6d, 0x9dc68b63, 0xaa47c347, 0x49f5114a, 0xe1257970, 0x8ada8930)
  {
    hide Schedule;
    hide Rounds;
    hide K;
    K2IsRow();
    var v := Working(0xb0fa238e, 0xc0645fde, 0xd932eb16, 0x87912990, 0x07590dcd, 0x0b92f20c, 0x745a48de, 0x1e578218);
    v := OneRound(block, 16, v, K2[0], 0x61626380, 0x21da9a9b, 0x8034229c);
    v := OneRound(block, 17, v, K2[1], 0x000f0000, 0xc2fbd9d1, 0x846ee454);
    v := OneRound(block, 18, v, K2[2], 0x7da86405, 0xfe777bbf, 0xcc899961);
    v := OneRound(block, 19, v, K2[3], 0x600003c6, 0xe1f20c33, 0xb0638179);
    v := OneRound(block, 20, v, K2[4], 0x3e9d7b78, 0x9dc68b63, 0x8ada8930);
    v := OneRound(block, 21, v, K2[5], 0x0183fc00, 0xc2606d6d, 0xe1257970);
    v := OneRound(block, 22, v, K2[6], 0x12dcbfdb, 0xa7a3623f, 0x49f5114a);
    v := OneRound(block, 23, v, K2[7], 0xe2e2c38e, 0xc5d53d8d, 0xaa47c347);
  }

  lemma K3IsRow()
    ensures |K| == 64 && K[24] == K3[0] && K[25] == K3[1] && K[26] == K3[2] && K[27] == K3[3]
    ensures K[28] == K3[4] && K[29] == K3[5] && K[30] == K3[6] && K[31] == K3[7]
  {
  }

  lemma Rounds3(block: seq<Byte>)
    requires HasRow(block, 24,
                    0xc8215c1a, 0xb73679a2, 0xe5bc3909, 0x32663c5b, 0x9d209d67, 0xec8726cb, 0x702138a4, 0xd3b7973b)
    requires Rounds(block, ToWorking(INITIAL_HASH), 24)
          == Working(0xc5d53d8d, 0xa7a3623f, 0xc2606d6d, 0x9dc68b63, 0xaa47c347, 0x49f5114a, 0xe1257970, 0x8ada8930)
    ensures Rounds(block, ToWorking(INITIAL_HASH), 32)
         == Working(0x73b33bf5, 0xea992a22, 0xa0060b30, 0x363482c9, 0xba591112, 0x0109ab3a, 0xade79437, 0x6112a3b7)
  {
    hide Schedule;
    hide Rounds;
    hide K;
    K3IsRow();
    var v := Working(0xc5d53d8d, 0xa7a3623f, 0xc2606d6d, 0x9dc68b63, 0xaa47c347, 0x49f5114a, 0xe1257970, 0x8ada8930);
    v := OneRound(block, 24, v, K3[0], 0xc8215c1a, 0x1c2c2838, 0x2823ef91);
    v := OneRound(block, 25, v, K3[1], 0xb73679a2, 0xcde8037d, 0x14383d8e);
    v := OneRound(block, 26, v, K3[2], 0xe5bc3909, 0xb62ec4bc, 0xc74c6516);
    v := OneRound(block, 27, v, K3[3], 0x32663c5b, 0x77d37528, 0xedffbff8);
    v := OneRound(block, 28, v, K3[4], 0x9d209d67, 0x363482c9, 0x6112a3b7);
    v := OneRound(block, 29, v, K3[5], 0xec8726cb, 0xa0060b30, 0xade79437);
    v := OneRound(block, 30, v, K3[6], 0x702138a4, 0xea992a22, 0x0109ab3a);
    v := OneRound(block, 31, v, K3[7], 0xd3b7973b, 0x73b33bf5, 0xba591112);
  }

  lemma K4IsRow()
    ensures |K| == 64 && K[32] == K4[0] && K[33] == K4[1] && K[34] == K4[2] && K[35] == K4[3]
    ensures K[36] == K4[4] && K[37] == K4[5] && K[38] == K4[6] && K[39] == K4[7]
  {
  }

  lemma Rounds4(block: seq<Byte>)
    requires HasRow(block, 32,
                    0x93f5997f, 0x3b68ba73, 0xaff4ffc1, 0xf10a5c62, 0x0a8b3996, 0x72af830a, 0x9409e33e, 0x24641522)
    requires Rounds(block, ToWorking(INITIAL_HASH), 32)
          == Working(0x73b33bf5, 0xea992a22, 0xa0060b30, 0x363482c9, 0xba591112, 0x0109ab3a, 0xade79437, 0x6112a3b7)
    ensures Rounds(block, ToWorking(INITIAL_HASH), 40)
         == Working(0x79ea687a, 0x6dc57a8a, 0x34df1604, 0x41a65cb1, 0x1efbc0a0, 0xf0781bc8, 0xa507a53d, 0x0772a26b)
  {
    hide Schedule;
    hide Rounds;
    hide K;
    K4IsRow();
    var v := Working(0x73b33bf5, 0xea992a22, 0xa0060b30, 0x363482c9, 0xba591112, 0x0109ab3a, 0xade79437, 0x6112a3b7);
    v := OneRound(block, 32, v, K4[0], 0x93f5997f, 0x98e12507, 0x9cd9f5f6);
    v := OneRound(block, 33, v, K4[1], 0x3b68ba73, 0xfe604df5, 0x59249dd3);
    v := OneRound(block, 34, v, K4[2], 0xaff4ffc1, 0xa9a7738c, 0x085f3833);
    v := OneRound(block, 35, v, K4[3], 0xf10a5c62, 0x65a0cfe4, 0xf4b002d6);
    v := OneRound(block, 36, v, K4[4], 0x0a8b3996, 0x41a65cb1, 0x0772a26b);
    v := OneRound(block, 37, v, K4[5], 0x72af830a, 0x34df1604, 0xa507a53d);
    v := OneRound(block, 38, v, K4[6], 0x9409e33e, 0x6dc57a8a, 0xf0781bc8);
    v := OneRound(block, 39, v, K4[7], 0x24641522, 0x79ea687a, 0x1efbc0a0);
  }

  lemma K5IsRow()
    ensures |K| == 64 && K[40] == K5[0] && K[41] == K5[1] && K[42] == K5[2] && K[43] == K5[3]
    ensures K[44] == K5[4] && K[45] == K5[5] && K[46] == K5[6] && K[47] == K5[7]
  {
  }

  lemma Rounds5(block: seq<Byte>)
    requires HasRow(block, 40,
                    0x9f47bf94, 0xf0a64f5a, 0x3e246a79, 0x27333ba3, 0x0c4763f2, 0x840abf27, 0x7a290d5d, 0x065c43da)
    requires Rounds(block, ToWorking(INITIAL_HASH), 40)
          == Working(0x79ea687a, 0x6dc57a8a, 0x34df1604, 0x41a65cb1, 0x1efbc0a0, 0xf0781bc8, 0xa507a53d, 0x0772a26b)
    ensures Rounds(block, ToWorking(INITIAL_HASH), 48)
         == Working(0x4172328d, 0xa14c14b0, 0x72ab4b91, 0x26628815, 0xfecf0bc6, 0xd57b94a9, 0xb7755da1, 0xa80f11f0)
  {
    hide Schedule;
    hide Rounds;
    hide K;
    K5IsRow();
    var v := Working(0x79ea687a, 0x6dc57a8a, 0x34df1604, 0x41a65cb1, 0x1efbc0a0, 0xf0781bc8, 0xa507a53d, 0x0772a26b);
    v := OneRound(block, 40, v, K5[0], 0x9f47bf94, 0xd6670766, 0x26352d63);
    v := OneRound(block, 41, v, K5[1], 0xf0a64f5a, 0xdf46652f, 0x838b2711);
    v := OneRound(block, 42, v, K5[2], 0x3e246a79, 0x17aa0dfe, 0xdecd4715);
    v := OneRound(block, 43, v, K5[3], 0x27333ba3, 0x9d4baf93, 0xfda24c2e);
    v := OneRound(block, 44, v, K5[4], 0x0c4763f2, 0x26628815, 0xa80f11f0);
    v := OneRound(block, 45, v, K5[5], 0x840abf27, 0x72ab4b91, 0xb7755da1);
    v := OneRound(block, 46, v, K5[6], 0x7a290d5d, 0xa14c14b0, 0xd57b94a9);
    v := OneRound(block, 47, v, K5[7], 0x065c43da, 0x4172328d, 0xfecf0bc6);
  }

  lemma K6IsRow()
    ensures |K| == 64 && K[48] == K6[0] && K[49] == K6[1] && K[50] == K6[2] && K[51] == K6[3]
    ensures K[52] == K6[4] && K[53] == K6[5] && K[54] == K6[6] && K[55] == K6[7]
  {
  }

  lemma Rounds6(block: seq<Byte>)
    requires HasRow(block, 48,
                    0xfb3e89cb, 0xcc7617db, 0xb9e66c34, 0xa9993667, 0x84badedd, 0xc21462bc, 0x1487472c, 0xb20f7a99)
    requires Rounds(block, ToWorking(INITIAL_HASH), 48)
          == Working(0x4172328d, 0xa14c14b0, 0x72ab4b91, 0x26628815, 0xfecf0bc6, 0xd57b94a9, 0xb7755da1, 0xa80f11f0)
    ensures Rounds(block, ToWorking(INITIAL_HASH), 56)
         == Working(0x38cc9913, 0x3ec45cdb, 0xf5702fdb, 0x101fd28f, 0x54cb266b, 0xe50e1b4f, 0x9f4787c3, 0x529e7d00)
  {
    hide Schedule;
    hide Rounds;
    hide K;
    K6IsRow();
    var v := Working(0x4172328d, 0xa14c14b0, 0x72ab4b91, 0x26628815, 0xfecf0bc6, 0xd57b94a9, 0xb7755da1, 0xa80f11f0);
    v := OneRound(block, 48, v, K6[0], 0xfb3e89cb, 0x05757ceb, 0xbd714038);
    v := OneRound(block, 49, v, K6[1], 0xcc7617db, 0xf11bfaa8, 0x6e5c390c);
    v := OneRound(block, 50, v, K6[2], 0xb9e66c34, 0x7a0508a1, 0x52f1ccf7);
    v := OneRound(block, 51, v, K6[3], 0xa9993667, 0x886e7a22, 0x49231c1e);
    v := OneRound(block, 52, v, K6[4], 0x84badedd, 0x101fd28f, 0x529e7d00);
    v := OneRound(block, 53, v, K6[5], 0xc21462bc, 0xf5702fdb, 0x9f4787c3);
    v := OneRound(block, 54, v, K6[6], 0x1487472c, 0x3ec45cdb, 0xe50e1b4f);
    v := OneRound(block, 55, v, K6[7], 0xb20f7a99, 0x38cc9913, 0x54cb266b);
  }

  lemma K7IsRow()
    ensures |K| == 64 && K[56] == K7[0] && K[57] == K7[1] && K[58] == K7[2] && K[59] == K7[3]
    ensures K[60] == K7[4] && K[61] == K7[5] && K[62] == K7[6] && K[63] == K7[7]
  {
  }

  lemma Rounds7(block: seq<Byte>)
    requires HasRow(block, 56,
                    0xef57b9cd, 0xebe6b238, 0x9fe3095e, 0x78bc8d4b, 0xa43fcf15, 0x668b2ff8, 0xeeaba2cc, 0x12b1edeb)
    requires Rounds(block, ToWorking(INITIAL_HASH), 56)
          == Working(0x38cc9913, 0x3ec45cdb, 0xf5702fdb, 0x101fd28f, 0x54cb266b, 0xe50e1b4f, 0x9f4787c3, 0x529e7d00)
    ensures Rounds(block, ToWorking(INITIAL_HASH), 64)
         == Working(0x506e3058, 0xd39a2165, 0x04d24d6c, 0xb85e2ce9, 0x5ef50f24, 0xfb121210, 0x948d25b6, 0x961f4894)
  {
    hide Schedule;
    hide Rounds;
    hide K;
    K7IsRow();
    var v := Working(0x38cc9913, 0x3ec45cdb, 0xf5702fdb, 0x101fd28f, 0x54cb266b, 0xe50e1b4f, 0x9f4787c3, 0x529e7d00);
    v := OneRound(block, 56, v, K7[0], 0xef57b9cd, 0xfcd1887b, 0x9b5e906c);
    v := OneRound(block, 57, v, K7[1], 0xebe6b238, 0xc062d46f, 0x7e44008e);
    v := OneRound(block, 58, v, K7[2], 0x9fe3095e, 0xffb70472, 0x6d83bfc6);
    v := OneRound(block, 59, v, K7[3], 0x78bc8d4b, 0xb6ae8fff, 0xb21bad3d);
    v := OneRound(block, 60, v, K7[4], 0xa43fcf15, 0xb85e2ce9, 0x961f4894);
    v := OneRound(block, 61, v, K7[5], 0x668b2ff8, 0x04d24d6c, 0x948d25b6);
    v := OneRound(block, 62, v, K7[6], 0xeeaba2cc, 0xd39a2165, 0xfb121210);
    v := OneRound(block, 63, v, K7[7], 0x12b1edeb, 0x506e3058, 0x5ef50f24);
  }

  // ---------------------------------------------------------------- the message

  lemma LengthBytes()
    ensures BigEndian(24, 8) == [0, 0, 0, 0, 0, 0, 0, 24]
  {
    assert BigEndian(0, 7) == [0, 0, 0, 0, 0, 0, 0];
  }

  lemma PaddedAbc()
    ensures var block := Padded(ABC);
      && |block| == 64 && block[0] == 0x61 && block[1] == 0x62 && block[2] == 0x63 && block[3] == 0x80
      && (forall i :: 4 <= i < 63 ==> block[i] == 0) && block[63] == 24
  {
    LengthBytes();
    var tail := Tail(3, 3);
    assert tail == [0x80] + Zeros(52) + [0, 0, 0, 0, 0, 0, 0, 24];
    assert Padded(ABC) == ABC + tail;
  }

  lemma WordOfBytes(block: seq<Byte>, t: nat, a: Byte, b: Byte, c: Byte, d: Byte, w: Word)
    requires |block| == 64 && t < 16 && block[4 * t] == a && block[4 * t + 1] == b && block[4 * t + 2] == c
    requires block[4 * t + 3] == d
    requires w == ((a as Word) << 24) | ((b as Word) << 16) | ((c as Word) << 8) | (d as Word)
    ensures Schedule(block, t) == w
  {
  }

  lemma FirstRows(block: seq<Byte>)
    requires block == Padded(ABC)
    ensures HasRow(block, 0, 0x61626380, 0, 0, 0, 0, 0, 0, 0) && HasRow(block, 8, 0, 0, 0, 0, 0, 0, 0, 24)
  {
    hide Padded;
    hide Schedule;
    PaddedAbc();
    WordOfBytes(block, 0, 0x61, 0x62, 0x63, 0x80, 0x61626380);
    forall t | 1 <= t < 15
      ensures Schedule(block, t) == 0
    {
      WordOfBytes(block, t, 0, 0, 0, 0, 0);
    }
    WordOfBytes(block, 15, 0, 0, 0, 24, 24);
  }

  lemma RoundsOfAbc(block: seq<Byte>)
    requires block == Padded(ABC)
    ensures |block| == 64
    ensures Rounds(block, ToWorking(INITIAL_HASH), 64)
         == Working(0x506e3058, 0xd39a2165, 0x04d24d6c, 0xb85e2ce9, 0x5ef50f24, 0xfb121210, 0x948d25b6, 0x961f4894)
  {
    hide Padded;
    hide Schedule;
    hide K;
    FirstRows(block);
    hide Rounds;
    Start(block);
    Row2(block);
    Row3(block);
    Row4(block);
    Row5(block);
    Row6(block);
    Row7(block);
    Rounds0(block);
    Rounds1(block);
    Rounds2(block);
    Rounds3(block);
    Rounds4(block);
    Rounds5(block);
    Rounds6(block);
    Rounds7(block);
  }

  lemma Start(block: seq<Byte>)
    requires |block| == 64
    ensures Rounds(block, ToWorking(INITIAL_HASH), 0)
         == Working(0x6a09e667, 0xbb67ae85, 0x3c6ef372, 0xa54ff53a, 0x510e527f, 0x9b05688c, 0x1f83d9ab, 0x5be0cd19)
  {
  }

  /** The digest of the three bytes is the published one. */
  lemma DigestOfAbc()
    ensures Digest(ABC) ==
      [0xba, 0x78, 0x16, 0xbf, 0x8f, 0x01, 0xcf, 0xea, 0x41, 0x41, 0x40, 0xde, 0x5d, 0xae, 0x22, 0x23] +
      [0xb0, 0x03, 0x61, 0xa3, 0x96, 0x17, 0x7a, 0x9c, 0xb4, 0x10, 0xff, 0x61, 0xf2, 0x00, 0x15, 0xad]
  {
    var block := Padded(ABC);
    RoundsOfAbc(block);
    hide Padded;
    hide Rounds;
    hide K;
    var words := Compress(INITIAL_HASH, block);
    assert words == [0xba7816bf, 0x8f01cfea, 0x414140de, 0x5dae2223, 0xb00361a3, 0x96177a9c, 0xb410ff61, 0xf20015ad];
    assert block[..64] == block && block[64..] == [];
    assert HashBlocks(INITIAL_HASH, block) == HashBlocks(words, []) == words;
    BytesOfDigest(words);
  }

  lemma BytesOfDigest(words: seq<Word>)
    requires words == [0xba7816bf, 0x8f01cfea, 0x414140de, 0x5dae2223, 0xb00361a3, 0x96177a9c, 0xb410ff61, 0xf20015ad]
    ensures WordsBytes(words) ==
      [0xba, 0x78, 0x16, 0xbf, 0x8f, 0x01, 0xcf, 0xea, 0x41, 0x41, 0x40, 0xde, 0x5d, 0xae, 0x22, 0x23] +
      [0xb0, 0x03, 0x61, 0xa3, 0x96, 0x17, 0x7a, 0x9c, 0xb4, 0x10, 0xff, 0x61, 0xf2, 0x00, 0x15, 0xad]
  {
    var h: seq<Word>, bytes: seq<Byte> := [], [];
    h, bytes := AppendWord(h, bytes, 0xba7816bf, [0xba, 0x78, 0x16, 0xbf]);
    h, bytes := AppendWord(h, bytes, 0x8f01cfea, [0x8f, 0x01, 0xcf, 0xea]);
    h, bytes := AppendWord(h, bytes, 0x414140de, [0x41, 0x41, 0x40, 0xde]);
    h, bytes := AppendWord(h, bytes, 0x5dae2223, [0x5d, 0xae, 0x22, 0x23]);
    h, bytes := AppendWord(h, bytes, 0xb00361a3, [0xb0, 0x03, 0x61, 0xa3]);
    h, bytes := AppendWord(h, bytes, 0x96177a9c, [0x96, 0x17, 0x7a, 0x9c]);
    h, bytes := AppendWord(h, bytes, 0xb410ff61, [0xb4, 0x10, 0xff, 0x61]);
    h, bytes := AppendWord(h, bytes, 0xf20015ad, [0xf2, 0x00, 0x15, 0xad]);
    assert h == words;
  }

  lemma AppendWord(h: seq<Word>, bytes: seq<Byte>, w: Word, last: seq<Byte>) returns (h': seq<Word>, bytes': seq<Byte>)
    requires WordsBytes(h) == bytes && WordBytes(w) == last
    ensures h' == h + [w] && bytes' == bytes + last && WordsBytes(h') == bytes'
  {
    h', bytes' := h + [w], bytes + last;
    assert h'[..|h|] == h;
  }
}
