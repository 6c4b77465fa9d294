/** The published example of SHA-256, worked through: the digest of "abc". */
module Sha256Example {
  import opened Bytes
  import opened Fips180
  import opened StreamingSha256

  /** The working variables after `t` rounds. */
  ghost predicate After(hash: HashValue, block: Block, t: nat, v: Working) {
    t <= 64 && Rounds(hash, block, t) == v
  }

  /** Eight words of the schedule, from word `t` on. */
  ghost predicate Words(block: Block, t: nat, w0: Word, w1: Word, w2: Word, w3: Word,
                        w4: Word, w5: Word, w6: Word, w7: Word)
  {
    && IsWord(block, t, w0) && IsWord(block, t + 1, w1) && IsWord(block, t + 2, w2) && IsWord(block, t + 3, w3)
    && IsWord(block, t + 4, w4) && IsWord(block, t + 5, w5) && IsWord(block, t + 6, w6) && IsWord(block, t + 7, w7)
  }

  ghost predicate IsWord(block: Block, t: nat, w: Word) {
    t < 64 && W(block, t) == w
  }

  lemma Next(block: Block, t: nat, w16: Word, w15: Word, w7: Word, w2: Word, w: Word)
    requires 16 <= t < 64
    requires IsWord(block, t - 16, w16) && IsWord(block, t - 15, w15) && IsWord(block, t - 7, w7)
    requires IsWord(block, t - 2, w2) && Expand(w2, w7, w15, w16) == w
    ensures IsWord(block, t, w)
  {
    hide Expand;
  }

  lemma Step(hash: HashValue, block: Block, t: nat, v: Working, k: Word, w: Word, a: Word, e: Word)
    returns (next: Working)
    requires After(hash, block, t, v) && IsWord(block, t, w) && K(t) == k
    requires Round(v, k, w) == Working(a, v.a, v.b, v.c, e, v.e, v.f, v.g)
    ensures next == Working(a, v.a, v.b, v.c, e, v.e, v.f, v.g) && After(hash, block, t + 1, next)
  {
    hide Round, W, K;
    next := Round(v, k, w);
  }

  lemma Words2(block: Block)
    requires Words(block, 0, 0x61626380, 0x00000000, 0x00000000, 0x00000000,
                   0x00000000, 0x00000000, 0x00000000, 0x00000000)
    requires Words(block, 8, 0x00000000, 0x00000000, 0x00000000, 0x00000000,
                   0x00000000, 0x00000000, 0x00000000, 0x00000018)
    ensures Words(block, 16, 0x61626380, 0x000f0000, 0x7da86405, 0x600003c6,
                  0x3e9d7b78, 0x0183fc00, 0x12dcbfdb, 0xe2e2c38e)
  {
    hide IsWord;
    Next(block, 16, 0x61626380, 0x00000000, 0x00000000, 0x00000000, 0x61626380);
    Next(block, 17, 0x00000000, 0x00000000, 0x00000000, 0x00000018, 0x000f0000);
    Next(block, 18, 0x00000000, 0x00000000, 0x00000000, 0x61626380, 0x7da86405);
    Next(block, 19, 0x00000000, 0x00000000, 0x00000000, 0x000f0000, 0x600003c6);
    Next(block, 20, 0x00000000, 0x00000000, 0x00000000, 0x7da86405, 0x3e9d7b78);
    Next(block, 21, 0x00000000, 0x00000000, 0x00000000, 0x600003c6, 0x0183fc00);
    Next(block, 22, 0x00000000, 0x00000000, 0x00000018, 0x3e9d7b78, 0x12dcbfdb);
    Next(block, 23, 0x00000000, 0x00000000, 0x61626380, 0x0183fc00, 0xe2e2c38e);
  }

  lemma Words3(block: Block)
    requires Words(block, 8, 0x00000000, 0x00000000, 0x00000000, 0x00000000,
                   0x00000000, 0x00000000, 0x00000000, 0x00000018)
    requires Words(block, 16, 0x61626380, 0x000f0000, 0x7da86405, 0x600003c6,
                   0x3e9d7b78, 0x0183fc00, 0x12dcbfdb, 0xe2e2c38e)
    ensures Words(block, 24, 0xc8215c1a, 0xb73679a2, 0xe5bc3909, 0x32663c5b,
                  0x9d209d67, 0xec8726cb, 0x702138a4, 0xd3b7973b)
  {
    hide IsWord;
    Next(block, 24, 0x00000000, 0x00000000, 0x000f0000, 0x12dcbfdb, 0xc8215c1a);
    Next(block, 25, 0x00000000, 0x00000000, 0x7da86405, 0xe2e2c38e, 0xb73679a2);
    Next(block, 26, 0x00000000, 0x00000000, 0x600003c6, 0xc8215c1a, 0xe5bc3909);
    Next(block, 27, 0x00000000, 0x00000000, 0x3e9d7b78, 0xb73679a2, 0x32663c5b);
    Next(block, 28, 0x00000000, 0x00000000, 0x0183fc00, 0xe5bc3909, 0x9d209d67);
    Next(block, 29, 0x00000000, 0x00000000, 0x12dcbfdb, 0x32663c5b, 0xec8726cb);
    Next(block, 30, 0x00000000, 0x00000018, 0xe2e2c38e, 0x9d209d67, 0x702138a4);
    Next(block, 31, 0x00000018, 0x61626380, 0xc8215c1a, 0xec8726cb, 0xd3b7973b);
  }

  lemma Words4(block: Block)
    requires Words(block, 16, 0x61626380, 0x000f0000, 0x7da86405, 0x600003c6,
                   0x3e9d7b78, 0x0183fc00, 0x12dcbfdb, 0xe2e2c38e)
    requires Words(block, 24, 0xc8215c1a, 0xb73679a2, 0xe5bc3909, 0x32663c5b,
                   0x9d209d67, 0xec8726cb, 0x702138a4, 0xd3b7973b)
    ensures Words(block, 32, 0x93f5997f, 0x3b68ba73, 0xaff4ffc1, 0xf10a5c62,
                  0x0a8b3996, 0x72af830a, 0x9409e33e, 0x24641522)
  {
    hide IsWord;
    Next(block, 32, 0x61626380, 0x000f0000, 0xb73679a2, 0x702138a4, 0x93f5997f);
    Next(block, 33, 0x000f0000, 0x7da86405, 0xe5bc3909, 0xd3b7973b, 0x3b68ba73);
    Next(block, 34, 0x7da86405, 0x600003c6, 0x32663c5b, 0x93f5997f, 0xaff4ffc1);
    Next(block, 35, 0x600003c6, 0x3e9d7b78, 0x9d209d67, 0x3b68ba73, 0xf10a5c62);
    Next(block, 36, 0x3e9d7b78, 0x0183fc00, 0xec8726cb, 0xaff4ffc1, 0x0a8b3996);
    Next(block, 37, 0x0183fc00, 0x12dcbfdb, 0x702138a4, 0xf10a5c62, 0x72af830a);
    Next(block, 38, 0x12dcbfdb, 0xe2e2c38e, 0xd3b7973b, 0x0a8b3996, 0x9409e33e);
    Next(block, 39, 0xe2e2c38e, 0xc8215c1a, 0x93f5997f, 0x72af830a, 0x24641522);
  }

  lemma Words5(block: Block)
    requires Words(block, 24, 0xc8215c1a, 0xb73679a2, 0xe5bc3909, 0x32663c5b,
                   0x9d209d67, 0xec8726cb, 0x702138a4, 0xd3b7973b)
    requires Words(block, 32, 0x93f5997f, 0x3b68ba73, 0xaff4ffc1, 0xf10a5c62,
                   0x0a8b3996, 0x72af830a, 0x9409e33e, 0x24641522)
    ensures Words(block, 40, 0x9f47bf94, 0xf0a64f5a, 0x3e246a79, 0x27333ba3,
                  0x0c4763f2, 0x840abf27, 0x7a290d5d, 0x065c43da)
  {
    hide IsWord;
    Next(block, 40, 0xc8215c1a, 0xb73679a2, 0x3b68ba73, 0x9409e33e, 0x9f47bf94);
    Next(block, 41, 0xb73679a2, 0xe5bc3909, 0xaff4ffc1, 0x24641522, 0xf0a64f5a);
    Next(block, 42, 0xe5bc3909, 0x32663c5b, 0xf10a5c62, 0x9f47bf94, 0x3e246a79);
    Next(block, 43, 0x32663c5b, 0x9d209d67, 0x0a8b3996, 0xf0a64f5a, 0x27333ba3);
    Next(block, 44, 0x9d209d67, 0xec8726cb, 0x72af830a, 0x3e246a79, 0x0c4763f2);
    Next(block, 45, 0xec8726cb, 0x702138a4, 0x9409e33e, 0x27333ba3, 0x840abf27);
    Next(block, 46, 0x702138a4, 0xd3b7973b, 0x24641522, 0x0c4763f2, 0x7a290d5d);
    Next(block, 47, 0xd3b7973b, 0x93f5997f, 0x9f47bf94, 0x840abf27, 0x065c43da);
  }

  lemma Words6(block: Block)
    requires Words(block, 32, 0x93f5997f, 0x3b68ba73, 0xaff4ffc1, 0xf10a5c62,
                   0x0a8b3996, 0x72af830a, 0x9409e33e, 0x24641522)
    requires Words(block, 40, 0x9f47bf94, 0xf0a64f5a, 0x3e246a79, 0x27333ba3,
                   0x0c4763f2, 0x840abf27, 0x7a290d5d, 0x065c43da)
    ensures Words(block, 48, 0xfb3e89cb, 0xcc7617db, 0xb9e66c34, 0xa9993667,
                  0x84badedd, 0xc21462bc, 0x1487472c, 0xb20f7a99)
  {
    hide IsWord;
    Next(block, 48, 0x93f5997f, 0x3b68ba73, 0xf0a64f5a, 0x7a290d5d, 0xfb3e89cb);
    Next(block, 49, 0x3b68ba73, 0xaff4ffc1, 0x3e246a79, 0x065c43da, 0xcc7617db);
    Next(block, 50, 0xaff4ffc1, 0xf10a5c62, 0x27333ba3, 0xfb3e89cb, 0xb9e66c34);
    Next(block, 51, 0xf10a5c62, 0x0a8b3996, 0x0c4763f2, 0xcc7617db, 0xa9993667);
    Next(block, 52, 0x0a8b3996, 0x72af830a, 0x840abf27, 0xb9e66c34, 0x84badedd);
    Next(block, 53, 0x72af830a, 0x9409e33e, 0x7a290d5d, 0xa9993667, 0xc21462bc);
    Next(block, 54, 0x9409e33e, 0x24641522, 0x065c43da, 0x84badedd, 0x1487472c);
    Next(block, 55, 0x24641522, 0x9f47bf94, 0xfb3e89cb, 0xc21462bc, 0xb20f7a99);
  }

  lemma Words7(block: Block)
    requires Words(block, 40, 0x9f47bf94, 0xf0a64f5a, 0x3e246a79, 0x27333ba3,
                   0x0c4763f2, 0x840abf27, 0x7a290d5d, 0x065c43da)
    requires Words(block, 48, 0xfb3e89cb, 0xcc7617db, 0xb9e66c34, 0xa9993667,
                   0x84badedd, 0xc21462bc, 0x1487472c, 0xb20f7a99)
    ensures Words(block, 56, 0xef57b9cd, 0xebe6b238, 0x9fe3095e, 0x78bc8d4b,
                  0xa43fcf15, 0x668b2ff8, 0xeeaba2cc, 0x12b1edeb)
  {
    hide IsWord;
    Next(block, 56, 0x9f47bf94, 0xf0a64f5a, 0xcc7617db, 0x1487472c, 0xef57b9cd);
    Next(block, 57, 0xf0a64f5a, 0x3e246a79, 0xb9e66c34, 0xb20f7a99, 0xebe6b238);
    Next(block, 58, 0x3e246a79, 0x27333ba3, 0xa9993667, 0xef57b9cd, 0x9fe3095e);
    Next(block, 59, 0x27333ba3, 0x0c4763f2, 0x84badedd, 0xebe6b238, 0x78bc8d4b);
    Next(block, 60, 0x0c4763f2, 0x840abf27, 0xc21462bc, 0x9fe3095e, 0xa43fcf15);
    Next(block, 61, 0x840abf27, 0x7a290d5d, 0x1487472c, 0x78bc8d4b, 0x668b2ff8);
    Next(block, 62, 0x7a290d5d, 0x065c43da, 0xb20f7a99, 0xa43fcf15, 0xeeaba2cc);
    Next(block, 63, 0x065c43da, 0xfb3e89cb, 0xef57b9cd, 0x668b2ff8, 0x12b1edeb);
  }

  lemma Rounds0(hash: HashValue, block: Block)
    requires After(hash, block, 0,
            Working(0x6a09e667, 0xbb67ae85, 0x3c6ef372, 0xa54ff53a, 0x510e527f, 0x9b05688c, 0x1f83d9ab, 0x5be0cd19))
    requires Words(block, 0, 0x61626380, 0x00000000, 0x00000000, 0x00000000,
                   0x00000000, 0x00000000, 0x00000000, 0x00000000)
    ensures After(hash, block, 8,
            Working(0x85a07b5f, 0xe5030380, 0x2b4209f5, 0x04409a6a, 0x0c657a79, 0x9b27a401, 0x714260ad, 0x43ada245))
  {
    hide After, IsWord, K;
    Constants0();
    var v := Working(0x6a09e667, 0xbb67ae85, 0x3c6ef372, 0xa54ff53a,
                     0x510e527f, 0x9b05688c, 0x1f83d9ab, 0x5be0cd19);
    v := Step(hash, block, 0, v, 0x428a2f98, 0x61626380, 0x5d6aebcd, 0xfa2a4622);
    v := Step(hash, block, 1, v, 0x71374491, 0x00000000, 0x5a6ad9ad, 0x78ce7989);
    v := Step(hash, block, 2, v, 0xb5c0fbcf, 0x00000000, 0xc8c347a7, 0xf92939eb);
    v := Step(hash, block, 3, v, 0xe9b5dba5, 0x00000000, 0xd550f666, 0x24e00850);
    v := Step(hash, block, 4, v, 0x3956c25b, 0x00000000, 0x04409a6a, 0x43ada245);
    v := Step(hash, block, 5, v, 0x59f111f1, 0x00000000, 0x2b4209f5, 0x714260ad);
    v := Step(hash, block, 6, v, 0x923f82a4, 0x00000000, 0xe5030380, 0x9b27a401);
    v := Step(hash, block, 7, v, 0xab1c5ed5, 0x00000000, 0x85a07b5f, 0x0c657a79);
  }

  lemma Constants0()
    ensures K(0) == 0x428a2f98 && K(1) == 0x71374491 && K(2) == 0xb5c0fbcf && K(3) == 0xe9b5dba5
    ensures K(4) == 0x3956c25b && K(5) == 0x59f111f1 && K(6) == 0x923f82a4 && K(7) == 0xab1c5ed5
  {
    TablesAreSquare();
  }

  lemma Rounds1(hash: HashValue, block: Block)
    requires After(hash, block, 8,
            Working(0x85a07b5f, 0xe5030380, 0x2b4209f5, 0x04409a6a, 0x0c657a79, 0x9b27a401, 0x714260ad, 0x43ada245))
    requires Words(block, 8, 0x00000000, 0x00000000, 0x00000000, 0x00000000,
                   0x00000000, 0x00000000, 0x00000000, 0x00000018)
    ensures After(hash, block, 16,
            Working(0xb0fa238e, 0xc0645fde, 0xd932eb16, 0x87912990, 0x07590dcd, 0x0b92f20c, 0x745a48de, 0x1e578218))
  {
    hide After, IsWord, K;
    Constants1();
    var v := Working(0x85a07b5f, 0xe5030380, 0x2b4209f5, 0x04409a6a,
                     0x0c657a79, 0x9b27a401, 0x714260ad, 0x43ada245);
    v := Step(hash, block, 8, v, 0xd807aa98, 0x00000000, 0x8e04ecb9, 0x32ca2d8c);
    v := Step(hash, block, 9, v, 0x12835b01, 0x00000000, 0x8c87346b, 0x1cc92596);
    v := Step(hash, block, 10, v, 0x243185be, 0x00000000, 0x4798a3f4, 0x436b23e8);
    v := Step(hash, block, 11, v, 0x550c7dc3, 0x00000000, 0xf71fc5a9, 0x816fd6e9);
    v := Step(hash, block, 12, v, 0x72be5d74, 0x00000000, 0x87912990, 0x1e578218);
    v := Step(hash, block, 13, v, 0x80deb1fe, 0x00000000, 0xd932eb16, 0x745a48de);
    v := Step(hash, block, 14, v, 0x9bdc06a7, 0x00000000, 0xc0645fde, 0x0b92f20c);
    v := Step(hash, block, 15, v, 0xc19bf174, 0x00000018, 0xb0fa238e, 0x07590dcd);
  }

  lemma Constants1()
    ensures K(8) == 0xd807aa98 && K(9) == 0x12835b01 && K(10) == 0x243185be && K(11) == 0x550c7dc3
    ensures K(12) == 0x72be5d74 && K(13) == 0x80deb1fe && K(14) == 0x9bdc06a7 && K(15) == 0xc19bf174
  {
    TablesAreSquare();
  }

  lemma Rounds2(hash: HashValue, block: Block)
    requires After(hash, block, 16,
            Working(0xb0fa238e, 0xc0645fde, 0xd932eb16, 0x87912990, 0x07590dcd, 0x0b92f20c, 0x745a48de, 0x1e578218))
    requires Words(block, 16, 0x61626380, 0x000f0000, 0x7da86405, 0x600003c6,
                   0x3e9d7b78, 0x0183fc00, 0x12dcbfdb, 0xe2e2c38e)
    ensures After(hash, block, 24,
            Working(0xc5d53d8d, 0xa7a3623f, 0xc2606d6d, 0x9dc68b63, 0xaa47c347, 0x49f5114a, 0xe1257970, 0x8ada8930))
  {
    hide After, IsWord, K;
    Constants2();
    var v := Working(0xb0fa238e, 0xc0645fde, 0xd932eb16, 0x87912990,
                     0x07590dcd, 0x0b92f20c, 0x745a48de, 0x1e578218);
    v := Step(hash, block, 16, v, 0xe49b69c1, 0x61626380, 0x21da9a9b, 0x8034229c);
    v := Step(hash, block, 17, v, 0xefbe4786, 0x000f0000, 0xc2fbd9d1, 0x846ee454);
    v := Step(hash, block, 18, v, 0x0fc19dc6, 0x7da86405, 0xfe777bbf, 0xcc899961);
    v := Step(hash, block, 19, v, 0x240ca1cc, 0x600003c6, 0xe1f20c33, 0xb0638179);
    v := Step(hash, block, 20, v, 0x2de92c6f, 0x3e9d7b78, 0x9dc68b63, 0x8ada8930);
    v := Step(hash, block, 21, v, 0x4a7484aa, 0x0183fc00, 0xc2606d6d, 0xe1257970);
    v := Step(hash, block, 22, v, 0x5cb0a9dc, 0x12dcbfdb, 0xa7a3623f, 0x49f5114a);
    v := Step(hash, block, 23, v, 0x76f988da, 0xe2e2c38e, 0xc5d53d8d, 0xaa47c347);
  }

  lemma Constants2()
    ensures K(16) == 0xe49b69c1 && K(17) == 0xefbe4786 && K(18) == 0x0fc19dc6 && K(19) == 0x240ca1cc
    ensures K(20) == 0x2de92c6f && K(21) == 0x4a7484aa && K(22) == 0x5cb0a9dc && K(23) == 0x76f988da
  {
    TablesAreSquare();
  }

  lemma Rounds3(hash: HashValue, block: Block)
    requires After(hash, block, 24,
            Working(0xc5d53d8d, 0xa7a3623f, 0xc2606d6d, 0x9dc68b63, 0xaa47c347, 0x49f5114a, 0xe1257970, 0x8ada8930))
    requires Words(block, 24, 0xc8215c1a, 0xb73679a2, 0xe5bc3909, 0x32663c5b,
                   0x9d209d67, 0xec8726cb, 0x702138a4, 0xd3b7973b)
    ensures After(hash, block, 32,
            Working(0x73b33bf5, 0xea992a22, 0xa0060b30, 0x363482c9, 0xba591112, 0x0109ab3a, 0xade79437, 0x6112a3b7))
  {
    hide After, IsWord, K;
    Constants3();
    var v := Working(0xc5d53d8d, 0xa7a3623f, 0xc2606d6d, 0x9dc68b63,
                     0xaa47c347, 0x49f5114a, 0xe1257970, 0x8ada8930);
    v := Step(hash, block, 24, v, 0x983e5152, 0xc8215c1a, 0x1c2c2838, 0x2823ef91);
    v := Step(hash, block, 25, v, 0xa831c66d, 0xb73679a2, 0xcde8037d, 0x14383d8e);
    v := Step(hash, block, 26, v, 0xb00327c8, 0xe5bc3909, 0xb62ec4bc, 0xc74c6516);
    v := Step(hash, block, 27, v, 0xbf597fc7, 0x32663c5b, 0x77d37528, 0xedffbff8);
    v := Step(hash, block, 28, v, 0xc6e00bf3, 0x9d209d67, 0x363482c9, 0x6112a3b7);
    v := Step(hash, block, 29, v, 0xd5a79147, 0xec8726cb, 0xa0060b30, 0xade79437);
    v := Step(hash, block, 30, v, 0x06ca6351, 0x702138a4, 0xea992a22, 0x0109ab3a);
    v := Step(hash, block, 31, v, 0x14292967, 0xd3b7973b, 0x73b33bf5, 0xba591112);
  }

  lemma Constants3()
    ensures K(24) == 0x983e5152 && K(25) == 0xa831c66d && K(26) == 0xb00327c8 && K(27) == 0xbf597fc7
    ensures K(28) == 0xc6e00bf3 && K(29) == 0xd5a79147 && K(30) == 0x06ca6351 && K(31) == 0x14292967
  {
    TablesAreSquare();
  }

  lemma Rounds4(hash: HashValue, block: Block)
    requires After(hash, block, 32,
            Working(0x73b33bf5, 0xea992a22, 0xa0060b30, 0x363482c9, 0xba591112, 0x0109ab3a, 0xade79437, 0x6112a3b7))
    requires Words(block, 32, 0x93f5997f, 0x3b68ba73, 0xaff4ffc1, 0xf10a5c62,
                   0x0a8b3996, 0x72af830a, 0x9409e33e, 0x24641522)
    ensures After(hash, block, 40,
            Working(0x79ea687a, 0x6dc57a8a, 0x34df1604, 0x41a65cb1, 0x1efbc0a0, 0xf0781bc8, 0xa507a53d, 0x0772a26b))
  {
    hide After, IsWord, K;
    Constants4();
    var v := Working(0x73b33bf5, 0xea992a22, 0xa0060b30, 0x363482c9,
                     0xba591112, 0x0109ab3a, 0xade79437, 0x6112a3b7);
    v := Step(hash, block, 32, v, 0x27b70a85, 0x93f5997f, 0x98e12507, 0x9cd9f5f6);
    v := Step(hash, block, 33, v, 0x2e1b2138, 0x3b68ba73, 0xfe604df5, 0x59249dd3);
    v := Step(hash, block, 34, v, 0x4d2c6dfc, 0xaff4ffc1, 0xa9a7738c, 0x085f3833);
    v := Step(hash, block, 35, v, 0x53380d13, 0xf10a5c62, 0x65a0cfe4, 0xf4b002d6);
    v := Step(hash, block, 36, v, 0x650a7354, 0x0a8b3996, 0x41a65cb1, 0x0772a26b);
    v := Step(hash, block, 37, v, 0x766a0abb, 0x72af830a, 0x34df1604, 0xa507a53d);
    v := Step(hash, block, 38, v, 0x81c2c92e, 0x9409e33e, 0x6dc57a8a, 0xf0781bc8);
    v := Step(hash, block, 39, v, 0x92722c85, 0x24641522, 0x79ea687a, 0x1efbc0a0);
  }

  lemma Constants4()
    ensures K(32) == 0x27b70a85 && K(33) == 0x2e1b2138 && K(34) == 0x4d2c6dfc && K(35) == 0x53380d13
    ensures K(36) == 0x650a7354 && K(37) == 0x766a0abb && K(38) == 0x81c2c92e && K(39) == 0x92722c85
  {
    TablesAreSquare();
  }

  lemma Rounds5(hash: HashValue, block: Block)
    requires After(hash, block, 40,
            Working(0x79ea687a, 0x6dc57a8a, 0x34df1604, 0x41a65cb1, 0x1efbc0a0, 0xf0781bc8, 0xa507a53d, 0x0772a26b))
    requires Words(block, 40, 0x9f47bf94, 0xf0a64f5a, 0x3e246a79, 0x27333ba3,
                   0x0c4763f2, 0x840abf27, 0x7a290d5d, 0x065c43da)
    ensures After(hash, block, 48,
            Working(0x4172328d, 0xa14c14b0, 0x72ab4b91, 0x26628815, 0xfecf0bc6, 0xd57b94a9, 0xb7755da1, 0xa80f11f0))
  {
    hide After, IsWord, K;
    Constants5();
    var v := Working(0x79ea687a, 0x6dc57a8a, 0x34df1604, 0x41a65cb1,
                     0x1efbc0a0, 0xf0781bc8, 0xa507a53d, 0x0772a26b);
    v := Step(hash, block, 40, v, 0xa2bfe8a1, 0x9f47bf94, 0xd6670766, 0x26352d63);
    v := Step(hash, block, 41, v, 0xa81a664b, 0xf0a64f5a, 0xdf46652f, 0x838b2711);
    v := Step(hash, block, 42, v, 0xc24b8b70, 0x3e246a79, 0x17aa0dfe, 0xdecd4715);
    v := Step(hash, block, 43, v, 0xc76c51a3, 0x27333ba3, 0x9d4baf93, 0xfda24c2e);
    v := Step(hash, block, 44, v, 0xd192e819, 0x0c4763f2, 0x26628815, 0xa80f11f0);
    v := Step(hash, block, 45, v, 0xd6990624, 0x840abf27, 0x72ab4b91, 0xb7755da1);
    v := Step(hash, block, 46, v, 0xf40e3585, 0x7a290d5d, 0xa14c14b0, 0xd57b94a9);
    v := Step(hash, block, 47, v, 0x106aa070, 0x065c43da, 0x4172328d, 0xfecf0bc6);
  }

  lemma Constants5()
    ensures K(40) == 0xa2bfe8a1 && K(41) == 0xa81a664b && K(42) == 0xc24b8b70 && K(43) == 0xc76c51a3
    ensures K(44) == 0xd192e819 && K(45) == 0xd6990624 && K(46) == 0xf40e3585 && K(47) == 0x106aa070
  {
    TablesAreSquare();
  }

  lemma Rounds6(hash: HashValue, block: Block)
    requires After(hash, block, 48,
            Working(0x4172328d, 0xa14c14b0, 0x72ab4b91, 0x26628815, 0xfecf0bc6, 0xd57b94a9, 0xb7755da1, 0xa80f11f0))
    requires Words(block, 48, 0xfb3e89cb, 0xcc7617db, 0xb9e66c34, 0xa9993667,
                   0x84badedd, 0xc21462bc, 0x1487472c, 0xb20f7a99)
    ensures After(hash, block, 56,
            Working(0x38cc9913, 0x3ec45cdb, 0xf5702fdb, 0x101fd28f, 0x54cb266b, 0xe50e1b4f, 0x9f4787c3, 0x529e7d00))
  {
    hide After, IsWord, K;
    Constants6();
    var v := Working(0x4172328d, 0xa14c14b0, 0x72ab4b91, 0x26628815,
                     0xfecf0bc6, 0xd57b94a9, 0xb7755da1, 0xa80f11f0);
    v := Step(hash, block, 48, v, 0x19a4c116, 0xfb3e89cb, 0x05757ceb, 0xbd714038);
    v := Step(hash, block, 49, v, 0x1e376c08, 0xcc7617db, 0xf11bfaa8, 0x6e5c390c);
    v := Step(hash, block, 50, v, 0x2748774c, 0xb9e66c34, 0x7a0508a1, 0x52f1ccf7);
    v := Step(hash, block, 51, v, 0x34b0bcb5, 0xa9993667, 0x886e7a22, 0x49231c1e);
    v := Step(hash, block, 52, v, 0x391c0cb3, 0x84badedd, 0x101fd28f, 0x529e7d00);
    v := Step(hash, block, 53, v, 0x4ed8aa4a, 0xc21462bc, 0xf5702fdb, 0x9f4787c3);
    v := Step(hash, block, 54, v, 0x5b9cca4f, 0x1487472c, 0x3ec45cdb, 0xe50e1b4f);
    v := Step(hash, block, 55, v, 0x682e6ff3, 0xb20f7a99, 0x38cc9913, 0x54cb266b);
  }

  lemma Constants6()
    ensures K(48) == 0x19a4c116 && K(49) == 0x1e376c08 && K(50) == 0x2748774c && K(51) == 0x34b0bcb5
    ensures K(52) == 0x391c0cb3 && K(53) == 0x4ed8aa4a && K(54) == 0x5b9cca4f && K(55) == 0x682e6ff3
  {
    TablesAreSquare();
  }

  lemma Rounds7(hash: HashValue, block: Block)
    requires After(hash, block, 56,
            Working(0x38cc9913, 0x3ec45cdb, 0xf5702fdb, 0x101fd28f, 0x54cb266b, 0xe50e1b4f, 0x9f4787c3, 0x529e7d00))
    requires Words(block, 56, 0xef57b9cd, 0xebe6b238, 0x9fe3095e, 0x78bc8d4b,
                   0xa43fcf15, 0x668b2ff8, 0xeeaba2cc, 0x12b1edeb)
    ensures After(hash, block, 64,
            Working(0x506e3058, 0xd39a2165, 0x04d24d6c, 0xb85e2ce9, 0x5ef50f24, 0xfb121210, 0x948d25b6, 0x961f4894))
  {
    hide After, IsWord, K;
    Constants7();
    var v := Working(0x38cc9913, 0x3ec45cdb, 0xf5702fdb, 0x101fd28f,
                     0x54cb266b, 0xe50e1b4f, 0x9f4787c3, 0x529e7d00);
    v := Step(hash, block, 56, v, 0x748f82ee, 0xef57b9cd, 0xfcd1887b, 0x9b5e906c);
    v := Step(hash, block, 57, v, 0x78a5636f, 0xebe6b238, 0xc062d46f, 0x7e44008e);
    v := Step(hash, block, 58, v, 0x84c87814, 0x9fe3095e, 0xffb70472, 0x6d83bfc6);
    v := Step(hash, block, 59, v, 0x8cc70208, 0x78bc8d4b, 0xb6ae8fff, 0xb21bad3d);
    v := Step(hash, block, 60, v, 0x90befffa, 0xa43fcf15, 0xb85e2ce9, 0x961f4894);
    v := Step(hash, block, 61, v, 0xa4506ceb, 0x668b2ff8, 0x04d24d6c, 0x948d25b6);
    v := Step(hash, block, 62, v, 0xbef9a3f7, 0xeeaba2cc, 0xd39a2165, 0xfb121210);
    v := Step(hash, block, 63, v, 0xc67178f2, 0x12b1edeb, 0x506e3058, 0x5ef50f24);
  }

  lemma Constants7()
    ensures K(56) == 0x748f82ee && K(57) == 0x78a5636f && K(58) == 0x84c87814 && K(59) == 0x8cc70208
    ensures K(60) == 0x90befffa && K(61) == 0xa4506ceb && K(62) == 0xbef9a3f7 && K(63) == 0xc67178f2
  {
    TablesAreSquare();
  }

  /** One block, from the initial hash value. */
  lemma BlockOfExample(hash: HashValue, block: Block)
    requires hash == InitialHash()
    requires Words(block, 0, 0x61626380, 0x00000000, 0x00000000, 0x00000000,
                   0x00000000, 0x00000000, 0x00000000, 0x00000000)
    requires Words(block, 8, 0x00000000, 0x00000000, 0x00000000, 0x00000000,
                   0x00000000, 0x00000000, 0x00000000, 0x00000018)
    ensures Compress(hash, block) ==
            [0xba7816bf, 0x8f01cfea, 0x414140de, 0x5dae2223,
             0xb00361a3, 0x96177a9c, 0xb410ff61, 0xf20015ad]
  {
    StartOfExample(hash, block);
    hide Words, After, Compress, InitialHash;
    Words2(block);
    Words3(block);
    Words4(block);
    Words5(block);
    Words6(block);
    Words7(block);
    Rounds0(hash, block);
    Rounds1(hash, block);
    Rounds2(hash, block);
    Rounds3(hash, block);
    Rounds4(hash, block);
    Rounds5(hash, block);
    Rounds6(hash, block);
    Rounds7(hash, block);
    EndOfExample(hash, block);
  }

  lemma StartOfExample(hash: HashValue, block: Block)
    requires hash == InitialHash()
    ensures After(hash, block, 0,
            Working(0x6a09e667, 0xbb67ae85, 0x3c6ef372, 0xa54ff53a, 0x510e527f, 0x9b05688c, 0x1f83d9ab, 0x5be0cd19))
  {
  }

  lemma EndOfExample(hash: HashValue, block: Block)
    requires hash == InitialHash()
    requires After(hash, block, 64,
            Working(0x506e3058, 0xd39a2165, 0x04d24d6c, 0xb85e2ce9, 0x5ef50f24, 0xfb121210, 0x948d25b6, 0x961f4894))
    ensures Compress(hash, block) ==
            [0xba7816bf, 0x8f01cfea, 0x414140de, 0x5dae2223,
             0xb00361a3, 0x96177a9c, 0xb410ff61, 0xf20015ad]
  {
    hide Rounds, W;
  }

  function Abc(): seq<byte> { [0x61, 0x62, 0x63] }

  lemma WordAt(block: Block, t: nat, a: byte, b: byte, c: byte, d: byte, w: Word)
    requires t < 16 && block[4 * t] == a && block[4 * t + 1] == b && block[4 * t + 2] == c && block[4 * t + 3] == d
    requires a as nat * 0x100_0000 + b as nat * 0x1_0000 + c as nat * 0x100 + d as nat == w as nat
    ensures IsWord(block, t, w)
  {
    hide WordOf, FromBigEndian;
    assert block[4 * t..4 * t + 4] == [a, b, c, d];
    FromBigEndianFour(a, b, c, d);
    WordIs([a, b, c, d], w);
  }

  lemma PaddedExample()
    ensures var block := PadWithLength(Abc(), 24);
            && |block| == 64 && block[0] == 0x61 && block[1] == 0x62 && block[2] == 0x63 && block[3] == 0x80
            && (forall i :: 4 <= i < 63 ==> block[i] == 0) && block[63] == 24
  {
    LengthOfExample();
    hide BigEndian;
  }

  lemma LengthOfExample()
    ensures BigEndian(24, 8) == [0, 0, 0, 0, 0, 0, 0, 24]
  {
    assert BigEndian(0, 7) == [0, 0, 0, 0, 0, 0, 0];
  }

  lemma WordsOfExample(block: Block)
    requires block == PadWithLength(Abc(), 24)
    ensures Words(block, 0, 0x61626380, 0x00000000, 0x00000000, 0x00000000,
                  0x00000000, 0x00000000, 0x00000000, 0x00000000)
    ensures Words(block, 8, 0x00000000, 0x00000000, 0x00000000, 0x00000000,
                  0x00000000, 0x00000000, 0x00000000, 0x00000018)
  {
    PaddedExample();
    hide PadWithLength, IsWord;
    WordAt(block, 0, 0x61, 0x62, 0x63, 0x80, 0x61626380);
    forall t | 1 <= t < 15 ensures IsWord(block, t, 0) {
      WordAt(block, t, 0, 0, 0, 0, 0);
    }
    WordAt(block, 15, 0, 0, 0, 24, 24);
  }

  lemma DigestOfExample(words: seq<Word>)
    requires words == [0xba7816bf, 0x8f01cfea, 0x414140de, 0x5dae2223,
                       0xb00361a3, 0x96177a9c, 0xb410ff61, 0xf20015ad]
    ensures DigestWords(words) == Published()
  {
    hide BigEndian, DigestWords;
    BigEndianFour(0xba, 0x78, 0x16, 0xbf);
    BigEndianFour(0x8f, 0x01, 0xcf, 0xea);
    BigEndianFour(0x41, 0x41, 0x40, 0xde);
    BigEndianFour(0x5d, 0xae, 0x22, 0x23);
    BigEndianFour(0xb0, 0x03, 0x61, 0xa3);
    BigEndianFour(0x96, 0x17, 0x7a, 0x9c);
    BigEndianFour(0xb4, 0x10, 0xff, 0x61);
    BigEndianFour(0xf2, 0x00, 0x15, 0xad);
    NothingGoesOut();
    WordGoesOut(words, 0);
    WordGoesOut(words, 1);
    WordGoesOut(words, 2);
    WordGoesOut(words, 3);
    assert DigestWords(words[..4]) == Published()[..16];
    WordGoesOut(words, 4);
    WordGoesOut(words, 5);
    WordGoesOut(words, 6);
    WordGoesOut(words, 7);
    assert words[..8] == words;
  }

  lemma WordGoesOut(words: seq<Word>, i: nat)
    requires i < |words|
    ensures DigestWords(words[..i + 1]) == DigestWords(words[..i]) + BigEndian(words[i] as nat, 4)
  {
    assert words[..i + 1][..i] == words[..i];
  }

  lemma NothingGoesOut()
    ensures DigestWords([]) == []
  {
  }

  function Published(): seq<byte> {
    [
      0xba, 0x78, 0x16, 0xbf, 0x8f, 0x01, 0xcf, 0xea, 0x41, 0x41, 0x40, 0xde, 0x5d, 0xae, 0x22, 0x23,
      0xb0, 0x03, 0x61, 0xa3, 0x96, 0x17, 0x7a, 0x9c, 0xb4, 0x10, 0xff, 0x61, 0xf2, 0x00, 0x15, 0xad
    ]
  }

  lemma LengthIsCounted()
    ensures Counter(8 * |Abc()|) == 24
  {
  }

  /** Appendix B.1 of FIPS 180-2: what the hasher returns for "abc". */
  lemma DigestOfAbc()
    ensures StreamDigest(Abc()) == Published()
  {
    hide HashBlocks, Compress, InitialHash, PadWithLength, DigestWords, Published, Counter, Words, Abc;
    PaddedExample();
    LengthIsCounted();
    var block: Block := PadWithLength(Abc(), 24);
    WordsOfExample(block);
    BlockOfExample(InitialHash(), block);
    BlocksAreChained(InitialHash(), block);
    DigestOfExample(Compress(InitialHash(), block));
  }
}
