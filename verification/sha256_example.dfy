/** SHA-256 of the three bytes "abc", the first example that NIST gives for
    FIPS 180-4, by the rules of the standard as they are stated here.  It fixes
    every constant, rotation and byte order of them at once. */
module Sha256Example {

  import opened Blocks
  import opened Sha256
  import opened Sha256Context
  import opened Sha256Core
  import opened Sha256Hash
  import opened Words32

  // ----- rounds -----

  /** One round with the constant `k` and the schedule word `x`. */
  function PlainRound(s: State, k: Word, x: Word): State {
    var t1 := Plus(Plus(Plus(Plus(s.h, BigSigma1(s.e)), Ch(s.e, s.f, s.g)), k), x);
    Vars(Plus(t1, Plus(BigSigma0(s.a), Maj(s.a, s.b, s.c))), s.a, s.b, s.c, Plus(s.d, t1), s.e, s.f, s.g)
  }

  function Run(k: seq<Word>, w: seq<Word>, s: State, t: nat): State
    requires t <= |k| == |w|
  {
    if t == 0 then s else PlainRound(Run(k, w, s, t - 1), k[t - 1], w[t - 1])
  }

  lemma {:induction false} RunIsRounds(w: seq<Word>, s: State, t: nat)
    requires |w| == 64 && t <= 64
    ensures Rounds(STANDARD, w, s, t) == Run(K, w, s, t)
  {
    if t > 0 {
      RunIsRounds(w, s, t - 1);
    }
  }

  /** The new first and fifth working variables are `a` and `e`. */
  predicate Turns(s: State, k: Word, x: Word, a: Word, e: Word) {
    var t1 := Plus(Plus(Plus(Plus(s.h, BigSigma1(s.e)), Ch(s.e, s.f, s.g)), k), x);
    a == Plus(t1, Plus(BigSigma0(s.a), Maj(s.a, s.b, s.c))) && e == Plus(s.d, t1)
  }

  lemma Turn(k: seq<Word>, w: seq<Word>, i: State, t: nat, s: State, a: Word, e: Word) returns (r: State)
    requires |k| == |w| > t && Run(k, w, i, t) == s && Turns(s, k[t], w[t], a, e)
    ensures r == Vars(a, s.a, s.b, s.c, e, s.e, s.f, s.g) && Run(k, w, i, t + 1) == r
  {
    r := PlainRound(s, k[t], w[t]);
  }

  lemma Rounds0(k: seq<Word>, w: seq<Word>, i: State)
    requires |k| == |w| == 64
    requires Run(k, w, i, 0) ==
            Vars(0x6a09e667, 0xbb67ae85, 0x3c6ef372, 0xa54ff53a, 0x510e527f, 0x9b05688c, 0x1f83d9ab, 0x5be0cd19)
    requires Row(k, 0, 0x428a2f98, 0x71374491, 0xb5c0fbcf, 0xe9b5dba5, 0x3956c25b, 0x59f111f1, 0x923f82a4, 0xab1c5ed5)
    requires Row(w, 0, 0x61626380, 0, 0, 0, 0, 0, 0, 0)
    ensures Run(k, w, i, 8) ==
            Vars(0x85a07b5f, 0xe5030380, 0x2b4209f5, 0x04409a6a, 0x0c657a79, 0x9b27a401, 0x714260ad, 0x43ada245)
  {
    var s := Run(k, w, i, 0);
    s := Turn(k, w, i, 0, s, 0x5d6aebcd, 0xfa2a4622);
    s := Turn(k, w, i, 1, s, 0x5a6ad9ad, 0x78ce7989);
    s := Turn(k, w, i, 2, s, 0xc8c347a7, 0xf92939eb);
    s := Turn(k, w, i, 3, s, 0xd550f666, 0x24e00850);
    s := Turn(k, w, i, 4, s, 0x04409a6a, 0x43ada245);
    s := Turn(k, w, i, 5, s, 0x2b4209f5, 0x714260ad);
    s := Turn(k, w, i, 6, s, 0xe5030380, 0x9b27a401);
    s := Turn(k, w, i, 7, s, 0x85a07b5f, 0x0c657a79);
  }

  lemma Rounds8(k: seq<Word>, w: seq<Word>, i: State)
    requires |k| == |w| == 64
    requires Run(k, w, i, 8) ==
            Vars(0x85a07b5f, 0xe5030380, 0x2b4209f5, 0x04409a6a, 0x0c657a79, 0x9b27a401, 0x714260ad, 0x43ada245)
    requires Row(k, 8, 0xd807aa98, 0x12835b01, 0x243185be, 0x550c7dc3, 0x72be5d74, 0x80deb1fe, 0x9bdc06a7, 0xc19bf174)
    requires Row(w, 8, 0, 0, 0, 0, 0, 0, 0, 0x00000018)
    ensures Run(k, w, i, 16) ==
            Vars(0xb0fa238e, 0xc0645fde, 0xd932eb16, 0x87912990, 0x07590dcd, 0x0b92f20c, 0x745a48de, 0x1e578218)
  {
    var s := Run(k, w, i, 8);
    s := Turn(k, w, i, 8, s, 0x8e04ecb9, 0x32ca2d8c);
    s := Turn(k, w, i, 9, s, 0x8c87346b, 0x1cc92596);
    s := Turn(k, w, i, 10, s, 0x4798a3f4, 0x436b23e8);
    s := Turn(k, w, i, 11, s, 0xf71fc5a9, 0x816fd6e9);
    s := Turn(k, w, i, 12, s, 0x87912990, 0x1e578218);
    s := Turn(k, w, i, 13, s, 0xd932eb16, 0x745a48de);
    s := Turn(k, w, i, 14, s, 0xc0645fde, 0x0b92f20c);
    s := Turn(k, w, i, 15, s, 0xb0fa238e, 0x07590dcd);
  }

  lemma Rounds16(k: seq<Word>, w: seq<Word>, i: State)
    requires |k| == |w| == 64
    requires Run(k, w, i, 16) ==
            Vars(0xb0fa238e, 0xc0645fde, 0xd932eb16, 0x87912990, 0x07590dcd, 0x0b92f20c, 0x745a48de, 0x1e578218)
    requires Row(k, 16, 0xe49b69c1, 0xefbe4786, 0x0fc19dc6, 0x240ca1cc, 0x2de92c6f, 0x4a7484aa, 0x5cb0a9dc, 0x76f988da)
    requires Row(w, 16, 0x61626380, 0x000f0000, 0x7da86405, 0x600003c6, 0x3e9d7b78, 0x0183fc00, 0x12dcbfdb, 0xe2e2c38e)
    ensures Run(k, w, i, 24) ==
            Vars(0xc5d53d8d, 0xa7a3623f, 0xc2606d6d, 0x9dc68b63, 0xaa47c347, 0x49f5114a, 0xe1257970, 0x8ada8930)
  {
    var s := Run(k, w, i, 16);
    s := Turn(k, w, i, 16, s, 0x21da9a9b, 0x8034229c);
    s := Turn(k, w, i, 17, s, 0xc2fbd9d1, 0x846ee454);
    s := Turn(k, w, i, 18, s, 0xfe777bbf, 0xcc899961);
    s := Turn(k, w, i, 19, s, 0xe1f20c33, 0xb0638179);
    s := Turn(k, w, i, 20, s, 0x9dc68b63, 0x8ada8930);
    s := Turn(k, w, i, 21, s, 0xc2606d6d, 0xe1257970);
    s := Turn(k, w, i, 22, s, 0xa7a3623f, 0x49f5114a);
    s := Turn(k, w, i, 23, s, 0xc5d53d8d, 0xaa47c347);
  }

  lemma Rounds24(k: seq<Word>, w: seq<Word>, i: State)
    requires |k| == |w| == 64
    requires Run(k, w, i, 24) ==
            Vars(0xc5d53d8d, 0xa7a3623f, 0xc2606d6d, 0x9dc68b63, 0xaa47c347, 0x49f5114a, 0xe1257970, 0x8ada8930)
    requires Row(k, 24, 0x983e5152, 0xa831c66d, 0xb00327c8, 0xbf597fc7, 0xc6e00bf3, 0xd5a79147, 0x06ca6351, 0x14292967)
    requires Row(w, 24, 0xc8215c1a, 0xb73679a2, 0xe5bc3909, 0x32663c5b, 0x9d209d67, 0xec8726cb, 0x702138a4, 0xd3b7973b)
    ensures Run(k, w, i, 32) ==
            Vars(0x73b33bf5, 0xea992a22, 0xa0060b30, 0x363482c9, 0xba591112, 0x0109ab3a, 0xade79437, 0x6112a3b7)
  {
    var s := Run(k, w, i, 24);
    s := Turn(k, w, i, 24, s, 0x1c2c2838, 0x2823ef91);
    s := Turn(k, w, i, 25, s, 0xcde8037d, 0x14383d8e);
    s := Turn(k, w, i, 26, s, 0xb62ec4bc, 0xc74c6516);
    s := Turn(k, w, i, 27, s, 0x77d37528, 0xedffbff8);
    s := Turn(k, w, i, 28, s, 0x363482c9, 0x6112a3b7);
    s := Turn(k, w, i, 29, s, 0xa0060b30, 0xade79437);
    s := Turn(k, w, i, 30, s, 0xea992a22, 0x0109ab3a);
    s := Turn(k, w, i, 31, s, 0x73b33bf5, 0xba591112);
  }

  lemma Rounds32(k: seq<Word>, w: seq<Word>, i: State)
    requires |k| == |w| == 64
    requires Run(k, w, i, 32) ==
            Vars(0x73b33bf5, 0xea992a22, 0xa0060b30, 0x363482c9, 0xba591112, 0x0109ab3a, 0xade79437, 0x6112a3b7)
    requires Row(k, 32, 0x27b70a85, 0x2e1b2138, 0x4d2c6dfc, 0x53380d13, 0x650a7354, 0x766a0abb, 0x81c2c92e, 0x92722c85)
    requires Row(w, 32, 0x93f5997f, 0x3b68ba73, 0xaff4ffc1, 0xf10a5c62, 0x0a8b3996, 0x72af830a, 0x9409e33e, 0x24641522)
    ensures Run(k, w, i, 40) ==
            Vars(0x79ea687a, 0x6dc57a8a, 0x34df1604, 0x41a65cb1, 0x1efbc0a0, 0xf0781bc8, 0xa507a53d, 0x0772a26b)
  {
    var s := Run(k, w, i, 32);
    s := Turn(k, w, i, 32, s, 0x98e12507, 0x9cd9f5f6);
    s := Turn(k, w, i, 33, s, 0xfe604df5, 0x59249dd3);
    s := Turn(k, w, i, 34, s, 0xa9a7738c, 0x085f3833);
    s := Turn(k, w, i, 35, s, 0x65a0cfe4, 0xf4b002d6);
    s := Turn(k, w, i, 36, s, 0x41a65cb1, 0x0772a26b);
    s := Turn(k, w, i, 37, s, 0x34df1604, 0xa507a53d);
    s := Turn(k, w, i, 38, s, 0x6dc57a8a, 0xf0781bc8);
    s := Turn(k, w, i, 39, s, 0x79ea687a, 0x1efbc0a0);
  }

  lemma Rounds40(k: seq<Word>, w: seq<Word>, i: State)
    requires |k| == |w| == 64
    requires Run(k, w, i, 40) ==
            Vars(0x79ea687a, 0x6dc57a8a, 0x34df1604, 0x41a65cb1, 0x1efbc0a0, 0xf0781bc8, 0xa507a53d, 0x0772a26b)
    requires Row(k, 40, 0xa2bfe8a1, 0xa81a664b, 0xc24b8b70, 0xc76c51a3, 0xd192e819, 0xd6990624, 0xf40e3585, 0x106aa070)
    requires Row(w, 40, 0x9f47bf94, 0xf0a64f5a, 0x3e246a79, 0x27333ba3, 0x0c4763f2, 0x840abf27, 0x7a290d5d, 0x065c43da)
    ensures Run(k, w, i, 48) ==
            Vars(0x4172328d, 0xa14c14b0, 0x72ab4b91, 0x26628815, 0xfecf0bc6, 0xd57b94a9, 0xb7755da1, 0xa80f11f0)
  {
    var s := Run(k, w, i, 40);
    s := Turn(k, w, i, 40, s, 0xd6670766, 0x26352d63);
    s := Turn(k, w, i, 41, s, 0xdf46652f, 0x838b2711);
    s := Turn(k, w, i, 42, s, 0x17aa0dfe, 0xdecd4715);
    s := Turn(k, w, i, 43, s, 0x9d4baf93, 0xfda24c2e);
    s := Turn(k, w, i, 44, s, 0x26628815, 0xa80f11f0);
    s := Turn(k, w, i, 45, s, 0x72ab4b91, 0xb7755da1);
    s := Turn(k, w, i, 46, s, 0xa14c14b0, 0xd57b94a9);
    s := Turn(k, w, i, 47, s, 0x4172328d, 0xfecf0bc6);
  }

  lemma Rounds48(k: seq<Word>, w: seq<Word>, i: State)
    requires |k| == |w| == 64
    requires Run(k, w, i, 48) ==
            Vars(0x4172328d, 0xa14c14b0, 0x72ab4b91, 0x26628815, 0xfecf0bc6, 0xd57b94a9, 0xb7755da1, 0xa80f11f0)
    requires Row(k, 48, 0x19a4c116, 0x1e376c08, 0x2748774c, 0x34b0bcb5, 0x391c0cb3, 0x4ed8aa4a, 0x5b9cca4f, 0x682e6ff3)
    requires Row(w, 48, 0xfb3e89cb, 0xcc7617db, 0xb9e66c34, 0xa9993667, 0x84badedd, 0xc21462bc, 0x1487472c, 0xb20f7a99)
    ensures Run(k, w, i, 56) ==
            Vars(0x38cc9913, 0x3ec45cdb, 0xf5702fdb, 0x101fd28f, 0x54cb266b, 0xe50e1b4f, 0x9f4787c3, 0x529e7d00)
  {
    var s := Run(k, w, i, 48);
    s := Turn(k, w, i, 48, s, 0x05757ceb, 0xbd714038);
    s := Turn(k, w, i, 49, s, 0xf11bfaa8, 0x6e5c390c);
    s := Turn(k, w, i, 50, s, 0x7a0508a1, 0x52f1ccf7);
    s := Turn(k, w, i, 51, s, 0x886e7a22, 0x49231c1e);
    s := Turn(k, w, i, 52, s, 0x101fd28f, 0x529e7d00);
    s := Turn(k, w, i, 53, s, 0xf5702fdb, 0x9f4787c3);
    s := Turn(k, w, i, 54, s, 0x3ec45cdb, 0xe50e1b4f);
    s := Turn(k, w, i, 55, s, 0x38cc9913, 0x54cb266b);
  }

  lemma Rounds56(k: seq<Word>, w: seq<Word>, i: State)
    requires |k| == |w| == 64
    requires Run(k, w, i, 56) ==
            Vars(0x38cc9913, 0x3ec45cdb, 0xf5702fdb, 0x101fd28f, 0x54cb266b, 0xe50e1b4f, 0x9f4787c3, 0x529e7d00)
    requires Row(k, 56, 0x748f82ee, 0x78a5636f, 0x84c87814, 0x8cc70208, 0x90befffa, 0xa4506ceb, 0xbef9a3f7, 0xc67178f2)
    requires Row(w, 56, 0xef57b9cd, 0xebe6b238, 0x9fe3095e, 0x78bc8d4b, 0xa43fcf15, 0x668b2ff8, 0xeeaba2cc, 0x12b1edeb)
    ensures Run(k, w, i, 64) ==
            Vars(0x506e3058, 0xd39a2165, 0x04d24d6c, 0xb85e2ce9, 0x5ef50f24, 0xfb121210, 0x948d25b6, 0x961f4894)
  {
    var s := Run(k, w, i, 56);
    s := Turn(k, w, i, 56, s, 0xfcd1887b, 0x9b5e906c);
    s := Turn(k, w, i, 57, s, 0xc062d46f, 0x7e44008e);
    s := Turn(k, w, i, 58, s, 0xffb70472, 0x6d83bfc6);
    s := Turn(k, w, i, 59, s, 0xb6ae8fff, 0xb21bad3d);
    s := Turn(k, w, i, 60, s, 0xb85e2ce9, 0x961f4894);
    s := Turn(k, w, i, 61, s, 0x04d24d6c, 0x948d25b6);
    s := Turn(k, w, i, 62, s, 0xd39a2165, 0xfb121210);
    s := Turn(k, w, i, 63, s, 0x506e3058, 0x5ef50f24);
  }

  // ----- constants and schedule -----

  lemma Constants0()
    ensures Row(K, 0, 0x428a2f98, 0x71374491, 0xb5c0fbcf, 0xe9b5dba5, 0x3956c25b, 0x59f111f1, 0x923f82a4, 0xab1c5ed5)
    ensures Row(K, 8, 0xd807aa98, 0x12835b01, 0x243185be, 0x550c7dc3, 0x72be5d74, 0x80deb1fe, 0x9bdc06a7, 0xc19bf174)
  {
  }

  lemma Constants16()
    ensures Row(K, 16, 0xe49b69c1, 0xefbe4786, 0x0fc19dc6, 0x240ca1cc, 0x2de92c6f, 0x4a7484aa, 0x5cb0a9dc, 0x76f988da)
    ensures Row(K, 24, 0x983e5152, 0xa831c66d, 0xb00327c8, 0xbf597fc7, 0xc6e00bf3, 0xd5a79147, 0x06ca6351, 0x14292967)
  {
  }

  lemma Constants32()
    ensures Row(K, 32, 0x27b70a85, 0x2e1b2138, 0x4d2c6dfc, 0x53380d13, 0x650a7354, 0x766a0abb, 0x81c2c92e, 0x92722c85)
    ensures Row(K, 40, 0xa2bfe8a1, 0xa81a664b, 0xc24b8b70, 0xc76c51a3, 0xd192e819, 0xd6990624, 0xf40e3585, 0x106aa070)
  {
  }

  lemma Constants48()
    ensures Row(K, 48, 0x19a4c116, 0x1e376c08, 0x2748774c, 0x34b0bcb5, 0x391c0cb3, 0x4ed8aa4a, 0x5b9cca4f, 0x682e6ff3)
    ensures Row(K, 56, 0x748f82ee, 0x78a5636f, 0x84c87814, 0x8cc70208, 0x90befffa, 0xa4506ceb, 0xbef9a3f7, 0xc67178f2)
  {
  }

  predicate Continues(w: seq<Word>, t: nat)
    requires 16 <= t < |w|
  {
    w[t] == Plus(Plus(Plus(SmallSigma1(w[t - 2]), w[t - 7]), SmallSigma0(w[t - 15])), w[t - 16])
  }

  predicate ContinuesAll(w: seq<Word>)
    requires |w| == 64
  {
    forall t {:trigger Continues(w, t)} :: 16 <= t < 64 ==> Continues(w, t)
  }

  lemma Schedule16(w: seq<Word>)
    requires |w| == 64 && ContinuesAll(w)
    requires Row(w, 0, 0x61626380, 0, 0, 0, 0, 0, 0, 0)
    requires Row(w, 8, 0, 0, 0, 0, 0, 0, 0, 0x00000018)
    ensures Row(w, 16, 0x61626380, 0x000f0000, 0x7da86405, 0x600003c6, 0x3e9d7b78, 0x0183fc00, 0x12dcbfdb, 0xe2e2c38e)
  {
    assert Continues(w, 16) && Continues(w, 17) && Continues(w, 18) && Continues(w, 19);
    assert Continues(w, 20) && Continues(w, 21) && Continues(w, 22) && Continues(w, 23);
  }

  lemma Schedule24(w: seq<Word>)
    requires |w| == 64 && ContinuesAll(w)
    requires Row(w, 8, 0, 0, 0, 0, 0, 0, 0, 0x00000018)
    requires Row(w, 16, 0x61626380, 0x000f0000, 0x7da86405, 0x600003c6, 0x3e9d7b78, 0x0183fc00, 0x12dcbfdb, 0xe2e2c38e)
    ensures Row(w, 24, 0xc8215c1a, 0xb73679a2, 0xe5bc3909, 0x32663c5b, 0x9d209d67, 0xec8726cb, 0x702138a4, 0xd3b7973b)
  {
    assert Continues(w, 24) && Continues(w, 25) && Continues(w, 26) && Continues(w, 27);
    assert Continues(w, 28) && Continues(w, 29) && Continues(w, 30) && Continues(w, 31);
  }

  lemma Schedule32(w: seq<Word>)
    requires |w| == 64 && ContinuesAll(w)
    requires Row(w, 16, 0x61626380, 0x000f0000, 0x7da86405, 0x600003c6, 0x3e9d7b78, 0x0183fc00, 0x12dcbfdb, 0xe2e2c38e)
    requires Row(w, 24, 0xc8215c1a, 0xb73679a2, 0xe5bc3909, 0x32663c5b, 0x9d209d67, 0xec8726cb, 0x702138a4, 0xd3b7973b)
    ensures Row(w, 32, 0x93f5997f, 0x3b68ba73, 0xaff4ffc1, 0xf10a5c62, 0x0a8b3996, 0x72af830a, 0x9409e33e, 0x24641522)
  {
    assert Continues(w, 32) && Continues(w, 33) && Continues(w, 34) && Continues(w, 35);
    assert Continues(w, 36) && Continues(w, 37) && Continues(w, 38) && Continues(w, 39);
  }

  lemma Schedule40(w: seq<Word>)
    requires |w| == 64 && ContinuesAll(w)
    requires Row(w, 24, 0xc8215c1a, 0xb73679a2, 0xe5bc3909, 0x32663c5b, 0x9d209d67, 0xec8726cb, 0x702138a4, 0xd3b7973b)
    requires Row(w, 32, 0x93f5997f, 0x3b68ba73, 0xaff4ffc1, 0xf10a5c62, 0x0a8b3996, 0x72af830a, 0x9409e33e, 0x24641522)
    ensures Row(w, 40, 0x9f47bf94, 0xf0a64f5a, 0x3e246a79, 0x27333ba3, 0x0c4763f2, 0x840abf27, 0x7a290d5d, 0x065c43da)
  {
    assert Continues(w, 40) && Continues(w, 41) && Continues(w, 42) && Continues(w, 43);
    assert Continues(w, 44) && Continues(w, 45) && Continues(w, 46) && Continues(w, 47);
  }

  lemma Schedule48(w: seq<Word>)
    requires |w| == 64 && ContinuesAll(w)
    requires Row(w, 32, 0x93f5997f, 0x3b68ba73, 0xaff4ffc1, 0xf10a5c62, 0x0a8b3996, 0x72af830a, 0x9409e33e, 0x24641522)
    requires Row(w, 40, 0x9f47bf94, 0xf0a64f5a, 0x3e246a79, 0x27333ba3, 0x0c4763f2, 0x840abf27, 0x7a290d5d, 0x065c43da)
    ensures Row(w, 48, 0xfb3e89cb, 0xcc7617db, 0xb9e66c34, 0xa9993667, 0x84badedd, 0xc21462bc, 0x1487472c, 0xb20f7a99)
  {
    assert Continues(w, 48) && Continues(w, 49) && Continues(w, 50) && Continues(w, 51);
    assert Continues(w, 52) && Continues(w, 53) && Continues(w, 54) && Continues(w, 55);
  }

  lemma Schedule56(w: seq<Word>)
    requires |w| == 64 && ContinuesAll(w)
    requires Row(w, 40, 0x9f47bf94, 0xf0a64f5a, 0x3e246a79, 0x27333ba3, 0x0c4763f2, 0x840abf27, 0x7a290d5d, 0x065c43da)
    requires Row(w, 48, 0xfb3e89cb, 0xcc7617db, 0xb9e66c34, 0xa9993667, 0x84badedd, 0xc21462bc, 0x1487472c, 0xb20f7a99)
    ensures Row(w, 56, 0xef57b9cd, 0xebe6b238, 0x9fe3095e, 0x78bc8d4b, 0xa43fcf15, 0x668b2ff8, 0xeeaba2cc, 0x12b1edeb)
  {
    assert Continues(w, 56) && Continues(w, 57) && Continues(w, 58) && Continues(w, 59);
    assert Continues(w, 60) && Continues(w, 61) && Continues(w, 62) && Continues(w, 63);
  }

  // ----- the message -----

  lemma LengthBytes()
    ensures BeBytes(24, 8) == [0, 0, 0, 0, 0, 0, 0, 24]
  {
    assert BeBytes(0, 1) == [0] && BeBytes(0, 2) == [0, 0] && BeBytes(0, 3) == [0, 0, 0];
    assert BeBytes(0, 4) == [0, 0, 0, 0] && BeBytes(0, 5) == [0, 0, 0, 0, 0];
    assert BeBytes(0, 6) == [0, 0, 0, 0, 0, 0] && BeBytes(0, 7) == [0, 0, 0, 0, 0, 0, 0];
  }

  /** The padded message is one block: the text, the bit 1 and the length. */
  lemma PaddedAbc(b: Bytes)
    requires b == Pad(ABC)
    ensures |b| == 64 && b[0] == 0x61 && b[1] == 0x62 && b[2] == 0x63 && b[3] == 0x80 && b[63] == 24
    ensures forall j :: 4 <= j < 63 ==> b[j] == 0
  {
    assert Bits(3) == 24 && ZeroCount(3) == 52;
    LengthBytes();
    PadParts(ABC + [0x80], BeBytes(24, 8), b);
  }

  lemma ByteWords()
    ensures Be32Dec(0x61, 0x62, 0x63, 0x80) == 0x61626380
    ensures Be32Dec(0, 0, 0, 0) == 0 && Be32Dec(0, 0, 0, 24) == 24
  {
  }

  lemma MessageWords(m: seq<Word>)
    requires |Pad(ABC)| == 64 && m == Parse(Be32Dec, Pad(ABC))
    ensures Row(m, 0, 0x61626380, 0, 0, 0, 0, 0, 0, 0) && Row(m, 8, 0, 0, 0, 0, 0, 0, 0, 24)
  {
    PaddedAbc(Pad(ABC));
    ByteWords();
  }

  lemma ScheduleOfAbc(m: seq<Word>, w: seq<Word>)
    requires |m| == 16 && w == Schedule(STANDARD, m)
    requires Row(m, 0, 0x61626380, 0, 0, 0, 0, 0, 0, 0) && Row(m, 8, 0, 0, 0, 0, 0, 0, 0, 24)
    ensures ContinuesAll(w)
    ensures Row(w, 0, 0x61626380, 0, 0, 0, 0, 0, 0, 0) && Row(w, 8, 0, 0, 0, 0, 0, 0, 0, 24)
  {
    forall t | 16 <= t < 64 ensures Continues(w, t) {
      ScheduleAt(STANDARD, m, 64, t);
    }
    forall t | 0 <= t < 16 ensures w[t] == m[t] {
      ScheduleAt(STANDARD, m, 64, t);
    }
  }

  lemma RunOfAbc(w: seq<Word>)
    requires |w| == 64 && ContinuesAll(w)
    requires Row(w, 0, 0x61626380, 0, 0, 0, 0, 0, 0, 0) && Row(w, 8, 0, 0, 0, 0, 0, 0, 0, 24)
    ensures Run(K, w, H0, 64) ==
            Vars(0x506e3058, 0xd39a2165, 0x04d24d6c, 0xb85e2ce9, 0x5ef50f24, 0xfb121210, 0x948d25b6, 0x961f4894)
  {
    Constants0();
    Constants16();
    Constants32();
    Constants48();
    Schedule16(w);
    Schedule24(w);
    Schedule32(w);
    Schedule40(w);
    Schedule48(w);
    Schedule56(w);
    Rounds0(K, w, H0);
    Rounds8(K, w, H0);
    Rounds16(K, w, H0);
    Rounds24(K, w, H0);
    Rounds32(K, w, H0);
    Rounds40(K, w, H0);
    Rounds48(K, w, H0);
    Rounds56(K, w, H0);
  }

  lemma SumOfAbc()
    ensures var v :=
              Vars(0x506e3058, 0xd39a2165, 0x04d24d6c, 0xb85e2ce9, 0x5ef50f24, 0xfb121210, 0x948d25b6, 0x961f4894);
            AddVars(STANDARD, H0, v) ==
            Vars(0xba7816bf, 0x8f01cfea, 0x414140de, 0x5dae2223, 0xb00361a3, 0x96177a9c, 0xb410ff61, 0xf20015ad)
  {
  }

  lemma DigestBytes()
    ensures Be32Enc(0xba7816bf) == [0xba, 0x78, 0x16, 0xbf] &&
            Be32Enc(0x8f01cfea) == [0x8f, 0x01, 0xcf, 0xea] &&
            Be32Enc(0x414140de) == [0x41, 0x41, 0x40, 0xde] &&
            Be32Enc(0x5dae2223) == [0x5d, 0xae, 0x22, 0x23] &&
            Be32Enc(0xb00361a3) == [0xb0, 0x03, 0x61, 0xa3] &&
            Be32Enc(0x96177a9c) == [0x96, 0x17, 0x7a, 0x9c] &&
            Be32Enc(0xb410ff61) == [0xb4, 0x10, 0xff, 0x61] &&
            Be32Enc(0xf20015ad) == [0xf2, 0x00, 0x15, 0xad]
  {
  }

  lemma EncodePush(s: seq<Word>, x: Word)
    ensures Encode(Be32Enc, s + [x]) == Encode(Be32Enc, s) + Be32Enc(x)
  {
    assert (s + [x])[..|s|] == s;
  }

  lemma EncodeEight(v: State)
    ensures Encode(Be32Enc, WordsOf(v)) ==
            Be32Enc(v.a) + Be32Enc(v.b) + Be32Enc(v.c) + Be32Enc(v.d) +
            Be32Enc(v.e) + Be32Enc(v.f) + Be32Enc(v.g) + Be32Enc(v.h)
  {
    var none: seq<Word> := [];
    var s := WordsOf(v);
    assert none + [v.a] == s[..1] && s[..1] + [v.b] == s[..2] && s[..2] + [v.c] == s[..3] && s[..3] + [v.d] == s[..4];
    assert s[..4] + [v.e] == s[..5] && s[..5] + [v.f] == s[..6] && s[..6] + [v.g] == s[..7] && s[..7] + [v.h] == s;
    EncodePush(none, v.a);
    EncodePush(s[..1], v.b);
    EncodePush(s[..2], v.c);
    EncodePush(s[..3], v.d);
    EncodePush(s[..4], v.e);
    EncodePush(s[..5], v.f);
    EncodePush(s[..6], v.g);
    EncodePush(s[..7], v.h);
    assert Encode(Be32Enc, none) == [] && [] + Be32Enc(v.a) == Be32Enc(v.a);
  }

  lemma CompressAbc(m: seq<Word>)
    requires |m| == 16
    requires Row(m, 0, 0x61626380, 0, 0, 0, 0, 0, 0, 0) && Row(m, 8, 0, 0, 0, 0, 0, 0, 0, 24)
    ensures Compress(STANDARD, H0, m) ==
            Vars(0xba7816bf, 0x8f01cfea, 0x414140de, 0x5dae2223, 0xb00361a3, 0x96177a9c, 0xb410ff61, 0xf20015ad)
  {
    var w := Schedule(STANDARD, m);
    ScheduleOfAbc(m, w);
    RunOfAbc(w);
    RunIsRounds(w, H0, 64);
    SumOfAbc();
  }

  lemma BlockOfAbc(b: Bytes)
    requires b == Pad(ABC) && |b| == 64
    ensures HashBlock(FIPS, H0, b) ==
            Vars(0xba7816bf, 0x8f01cfea, 0x414140de, 0x5dae2223, 0xb00361a3, 0x96177a9c, 0xb410ff61, 0xf20015ad)
  {
    MessageWords(Parse(Be32Dec, b));
    CompressAbc(Parse(Be32Dec, b));
  }

  lemma HashOfAbc()
    ensures HashBlocks(Hasher(FIPS), H0, Pad(ABC)) ==
            Vars(0xba7816bf, 0x8f01cfea, 0x414140de, 0x5dae2223, 0xb00361a3, 0x96177a9c, 0xb410ff61, 0xf20015ad)
  {
    var b := Pad(ABC);
    PaddedAbc(b);
    BlockOfAbc(b);
    OneBlock(Hasher(FIPS), H0, b);
  }

  /** SHA-256("abc") */
  lemma DigestOfAbc()
    ensures Digest(FIPS, H0, ABC) ==
            [0xba, 0x78, 0x16, 0xbf] + [0x8f, 0x01, 0xcf, 0xea] +
            [0x41, 0x41, 0x40, 0xde] + [0x5d, 0xae, 0x22, 0x23] +
            [0xb0, 0x03, 0x61, 0xa3] + [0x96, 0x17, 0x7a, 0x9c] +
            [0xb4, 0x10, 0xff, 0x61] + [0xf2, 0x00, 0x15, 0xad]
  {
    HashOfAbc();
    EncodeEight(HashBlocks(Hasher(FIPS), H0, Pad(ABC)));
    DigestBytes();
  }
}
