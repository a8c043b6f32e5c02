/** The digest of "abc", which FIPS 180-4 publishes, derived word by word and round by round. */
module Sha256Abc {
  import opened Bytes
  import opened Sha256

  const ABC: seq<byte> := [0x61, 0x62, 0x63]

  const START := Registers(0x6a09e667, 0xbb67ae85, 0x3c6ef372, 0xa54ff53a, 0x510e527f, 0x9b05688c, 0x1f83d9ab, 0x5be0cd19)

  predicate IsAbc(block: seq<byte>) {
    block == Padded(ABC) && |block| == 64
  }

  /** Eight words of the schedule. */
  predicate Row(block: seq<byte>, t: nat, w: seq<bv32>)
    requires |block| == 64 && t + 8 <= 64 && |w| == 8
  {
    && W(block, t) == w[0] && W(block, t + 1) == w[1] && W(block, t + 2) == w[2] && W(block, t + 3) == w[3]
    && W(block, t + 4) == w[4] && W(block, t + 5) == w[5] && W(block, t + 6) == w[6] && W(block, t + 7) == w[7]
  }

  // ----- the block -----

  lemma PaddedAbc() returns (block: seq<byte>)
    ensures IsAbc(block) && block[..3] == ABC && block[3] == 0x80
    ensures forall i :: 4 <= i < 63 ==> block[i] == 0
    ensures block[63] == 0x18
  {
    block := Padded(ABC);
    PaddedShape(ABC);
    hide Padded, FromBigEndian;
    LengthBytes(block[56..]);
    assert forall i :: 0 <= i < 8 ==> block[56 + i] == block[56..][i];
  }

  lemma LengthBytes(b: seq<byte>)
    requires |b| == 8 && FromBigEndian(b) == 24
    ensures b == [0, 0, 0, 0, 0, 0, 0, 24]
  {
    BigEndianOfBytes(b);
    hide FromBigEndian;
    ZeroBytes(7);
    assert BigEndian(24, 8) == BigEndian(0, 7) + [24];
  }

  lemma {:induction false} ZeroBytes(k: nat)
    ensures BigEndian(0, k) == Zeros(k)
  {
    if k > 0 {
      ZeroBytes(k - 1);
    }
  }

  lemma FirstWords(block: seq<byte>, t: nat)
    requires |block| == 64 && t < 16
    ensures W(block, t) == ToWord(((block[4 * t] as int * 256 + block[4 * t + 1] as int) * 256 + block[4 * t + 2] as int) * 256 + block[4 * t + 3] as int)
  {
    hide ToWord;
  }

  lemma Literals()
    ensures ToWord(0x61626380) == 0x61626380 && ToWord(0) == 0 && ToWord(0x18) == 0x18
  {
  }

  lemma ZeroWord(block: seq<byte>, t: nat)
    requires IsAbc(block) && 0 < t < 15
    ensures W(block, t) == 0
  {
    hide ToWord, Padded, W;
    Literals();
    var p := PaddedAbc();
    FirstWords(block, t);
  }

  lemma Row0(block: seq<byte>)
    requires IsAbc(block)
    ensures Row(block, 0, [0x61626380, 0, 0, 0, 0, 0, 0, 0])
  {
    hide ToWord, Padded, W;
    Literals();
    var p := PaddedAbc();
    assert block[0] == block[..3][0] && block[1] == block[..3][1] && block[2] == block[..3][2];
    FirstWords(block, 0);
    forall t | 0 < t < 8 ensures W(block, t) == 0 {
      ZeroWord(block, t);
    }
  }

  lemma Row8(block: seq<byte>)
    requires IsAbc(block)
    ensures Row(block, 8, [0, 0, 0, 0, 0, 0, 0, 0x18])
  {
    hide ToWord, Padded, W;
    Literals();
    var p := PaddedAbc();
    forall t | 8 <= t < 15 ensures W(block, t) == 0 {
      ZeroWord(block, t);
    }
    FirstWords(block, 15);
  }

  // ----- the schedule -----

  lemma NextW(block: seq<byte>, t: nat, w2: bv32, w7: bv32, w15: bv32, w16: bv32, next: bv32)
    requires |block| == 64 && 16 <= t < 64
    requires W(block, t - 2) == w2 && W(block, t - 7) == w7 && W(block, t - 15) == w15 && W(block, t - 16) == w16
    requires NextWord(w2, w7, w15, w16) == next
    ensures W(block, t) == next
  {
    hide NextWord;
  }

  lemma Row16(block: seq<byte>)
    requires IsAbc(block)
    ensures Row(block, 16, [0x61626380, 0x000f0000, 0x7da86405, 0x600003c6, 0x3e9d7b78, 0x0183fc00, 0x12dcbfdb, 0xe2e2c38e])
  {
    hide W, Padded;
    Row0(block);
    Row8(block);
    NextW(block, 16, 0x00000000, 0x00000000, 0x00000000, 0x61626380, 0x61626380);
    NextW(block, 17, 0x00000018, 0x00000000, 0x00000000, 0x00000000, 0x000f0000);
    NextW(block, 18, 0x61626380, 0x00000000, 0x00000000, 0x00000000, 0x7da86405);
    NextW(block, 19, 0x000f0000, 0x00000000, 0x00000000, 0x00000000, 0x600003c6);
    NextW(block, 20, 0x7da86405, 0x00000000, 0x00000000, 0x00000000, 0x3e9d7b78);
    NextW(block, 21, 0x600003c6, 0x00000000, 0x00000000, 0x00000000, 0x0183fc00);
    NextW(block, 22, 0x3e9d7b78, 0x00000018, 0x00000000, 0x00000000, 0x12dcbfdb);
    NextW(block, 23, 0x0183fc00, 0x61626380, 0x00000000, 0x00000000, 0xe2e2c38e);
  }

  lemma Row24(block: seq<byte>)
    requires IsAbc(block)
    ensures Row(block, 24, [0xc8215c1a, 0xb73679a2, 0xe5bc3909, 0x32663c5b, 0x9d209d67, 0xec8726cb, 0x702138a4, 0xd3b7973b])
  {
    hide W, Padded;
    Row8(block);
    Row16(block);
    NextW(block, 24, 0x12dcbfdb, 0x000f0000, 0x00000000, 0x00000000, 0xc8215c1a);
    NextW(block, 25, 0xe2e2c38e, 0x7da86405, 0x00000000, 0x00000000, 0xb73679a2);
    NextW(block, 26, 0xc8215c1a, 0x600003c6, 0x00000000, 0x00000000, 0xe5bc3909);
    NextW(block, 27, 0xb73679a2, 0x3e9d7b78, 0x00000000, 0x00000000, 0x32663c5b);
    NextW(block, 28, 0xe5bc3909, 0x0183fc00, 0x00000000, 0x00000000, 0x9d209d67);
    NextW(block, 29, 0x32663c5b, 0x12dcbfdb, 0x00000000, 0x00000000, 0xec8726cb);
    NextW(block, 30, 0x9d209d67, 0xe2e2c38e, 0x00000018, 0x00000000, 0x702138a4);
    NextW(block, 31, 0xec8726cb, 0xc8215c1a, 0x61626380, 0x00000018, 0xd3b7973b);
  }

  lemma Row32(block: seq<byte>)
    requires IsAbc(block)
    ensures Row(block, 32, [0x93f5997f, 0x3b68ba73, 0xaff4ffc1, 0xf10a5c62, 0x0a8b3996, 0x72af830a, 0x9409e33e, 0x24641522])
  {
    hide W, Padded;
    Row16(block);
    Row24(block);
    NextW(block, 32, 0x702138a4, 0xb73679a2, 0x000f0000, 0x61626380, 0x93f5997f);
    NextW(block, 33, 0xd3b7973b, 0xe5bc3909, 0x7da86405, 0x000f0000, 0x3b68ba73);
    NextW(block, 34, 0x93f5997f, 0x32663c5b, 0x600003c6, 0x7da86405, 0xaff4ffc1);
    NextW(block, 35, 0x3b68ba73, 0x9d209d67, 0x3e9d7b78, 0x600003c6, 0xf10a5c62);
    NextW(block, 36, 0xaff4ffc1, 0xec8726cb, 0x0183fc00, 0x3e9d7b78, 0x0a8b3996);
    NextW(block, 37, 0xf10a5c62, 0x702138a4, 0x12dcbfdb, 0x0183fc00, 0x72af830a);
    NextW(block, 38, 0x0a8b3996, 0xd3b7973b, 0xe2e2c38e, 0x12dcbfdb, 0x9409e33e);
    NextW(block, 39, 0x72af830a, 0x93f5997f, 0xc8215c1a, 0xe2e2c38e, 0x24641522);
  }

  lemma Row40(block: seq<byte>)
    requires IsAbc(block)
    ensures Row(block, 40, [0x9f47bf94, 0xf0a64f5a, 0x3e246a79, 0x27333ba3, 0x0c4763f2, 0x840abf27, 0x7a290d5d, 0x065c43da])
  {
    hide W, Padded;
    Row24(block);
    Row32(block);
    NextW(block, 40, 0x9409e33e, 0x3b68ba73, 0xb73679a2, 0xc8215c1a, 0x9f47bf94);
    NextW(block, 41, 0x24641522, 0xaff4ffc1, 0xe5bc3909, 0xb73679a2, 0xf0a64f5a);
    NextW(block, 42, 0x9f47bf94, 0xf10a5c62, 0x32663c5b, 0xe5bc3909, 0x3e246a79);
    NextW(block, 43, 0xf0a64f5a, 0x0a8b3996, 0x9d209d67, 0x32663c5b, 0x27333ba3);
    NextW(block, 44, 0x3e246a79, 0x72af830a, 0xec8726cb, 0x9d209d67, 0x0c4763f2);
    NextW(block, 45, 0x27333ba3, 0x9409e33e, 0x702138a4, 0xec8726cb, 0x840abf27);
    NextW(block, 46, 0x0c4763f2, 0x24641522, 0xd3b7973b, 0x702138a4, 0x7a290d5d);
    NextW(block, 47, 0x840abf27, 0x9f47bf94, 0x93f5997f, 0xd3b7973b, 0x065c43da);
  }

  lemma Row48(block: seq<byte>)
    requires IsAbc(block)
    ensures Row(block, 48, [0xfb3e89cb, 0xcc7617db, 0xb9e66c34, 0xa9993667, 0x84badedd, 0xc21462bc, 0x1487472c, 0xb20f7a99])
  {
    hide W, Padded;
    Row32(block);
    Row40(block);
    NextW(block, 48, 0x7a290d5d, 0xf0a64f5a, 0x3b68ba73, 0x93f5997f, 0xfb3e89cb);
    NextW(block, 49, 0x065c43da, 0x3e246a79, 0xaff4ffc1, 0x3b68ba73, 0xcc7617db);
    NextW(block, 50, 0xfb3e89cb, 0x27333ba3, 0xf10a5c62, 0xaff4ffc1, 0xb9e66c34);
    NextW(block, 51, 0xcc7617db, 0x0c4763f2, 0x0a8b3996, 0xf10a5c62, 0xa9993667);
    NextW(block, 52, 0xb9e66c34, 0x840abf27, 0x72af830a, 0x0a8b3996, 0x84badedd);
    NextW(block, 53, 0xa9993667, 0x7a290d5d, 0x9409e33e, 0x72af830a, 0xc21462bc);
    NextW(block, 54, 0x84badedd, 0x065c43da, 0x24641522, 0x9409e33e, 0x1487472c);
    NextW(block, 55, 0xc21462bc, 0xfb3e89cb, 0x9f47bf94, 0x24641522, 0xb20f7a99);
  }

  lemma Row56(block: seq<byte>)
    requires IsAbc(block)
    ensures Row(block, 56, [0xef57b9cd, 0xebe6b238, 0x9fe3095e, 0x78bc8d4b, 0xa43fcf15, 0x668b2ff8, 0xeeaba2cc, 0x12b1edeb])
  {
    hide W, Padded;
    Row40(block);
    Row48(block);
    NextW(block, 56, 0x1487472c, 0xcc7617db, 0xf0a64f5a, 0x9f47bf94, 0xef57b9cd);
    NextW(block, 57, 0xb20f7a99, 0xb9e66c34, 0x3e246a79, 0xf0a64f5a, 0xebe6b238);
    NextW(block, 58, 0xef57b9cd, 0xa9993667, 0x27333ba3, 0x3e246a79, 0x9fe3095e);
    NextW(block, 59, 0xebe6b238, 0x84badedd, 0x0c4763f2, 0x27333ba3, 0x78bc8d4b);
    NextW(block, 60, 0x9fe3095e, 0xc21462bc, 0x840abf27, 0x0c4763f2, 0xa43fcf15);
    NextW(block, 61, 0x78bc8d4b, 0x1487472c, 0x7a290d5d, 0x840abf27, 0x668b2ff8);
    NextW(block, 62, 0xa43fcf15, 0xb20f7a99, 0x065c43da, 0x7a290d5d, 0xeeaba2cc);
    NextW(block, 63, 0x668b2ff8, 0xef57b9cd, 0xfb3e89cb, 0x065c43da, 0x12b1edeb);
  }

  // ----- the rounds -----

  lemma Step(block: seq<byte>, t: nat, r: Registers, k: bv32, w: bv32, next: Registers)
    requires |block| == 64 && t < 64
    requires Rounds(START, block, t) == r && K(t) == k && W(block, t) == w && Round(r, k, w) == next
    ensures Rounds(START, block, t + 1) == next
  {
    hide Round;
  }

  lemma Numbers0()
    ensures ToWord(0x428a2f98) == 0x428a2f98 && ToWord(0x71374491) == 0x71374491
    ensures ToWord(0xb5c0fbcf) == 0xb5c0fbcf && ToWord(0xe9b5dba5) == 0xe9b5dba5
    ensures ToWord(0x3956c25b) == 0x3956c25b && ToWord(0x59f111f1) == 0x59f111f1
    ensures ToWord(0x923f82a4) == 0x923f82a4 && ToWord(0xab1c5ed5) == 0xab1c5ed5
  {
  }

  lemma Rounds0(block: seq<byte>)
    requires |block| == 64
    ensures Rounds(START, block, 0) == START
  {
  }

  lemma Constants0()
    ensures K(0) == 0x428a2f98 && K(1) == 0x71374491 && K(2) == 0xb5c0fbcf && K(3) == 0xe9b5dba5
    ensures K(4) == 0x3956c25b && K(5) == 0x59f111f1 && K(6) == 0x923f82a4 && K(7) == 0xab1c5ed5
  {
    hide ToWord;
    Numbers0();
  }

  lemma Rounds8(block: seq<byte>)
    requires IsAbc(block)
    ensures Rounds(START, block, 8) == Registers(0x85a07b5f, 0xe5030380, 0x2b4209f5, 0x04409a6a, 0x0c657a79, 0x9b27a401, 0x714260ad, 0x43ada245)
  {
    hide Rounds, W, K, Padded;
    Rounds0(block);
    Row0(block);
    Constants0();
    Step(block, 0, Registers(0x6a09e667, 0xbb67ae85, 0x3c6ef372, 0xa54ff53a, 0x510e527f, 0x9b05688c, 0x1f83d9ab, 0x5be0cd19), 0x428a2f98, 0x61626380,
         Registers(0x5d6aebcd, 0x6a09e667, 0xbb67ae85, 0x3c6ef372, 0xfa2a4622, 0x510e527f, 0x9b05688c, 0x1f83d9ab));
    Step(block, 1, Registers(0x5d6aebcd, 0x6a09e667, 0xbb67ae85, 0x3c6ef372, 0xfa2a4622, 0x510e527f, 0x9b05688c, 0x1f83d9ab), 0x71374491, 0x00000000,
         Registers(0x5a6ad9ad, 0x5d6aebcd, 0x6a09e667, 0xbb67ae85, 0x78ce7989, 0xfa2a4622, 0x510e527f, 0x9b05688c));
    Step(block, 2, Registers(0x5a6ad9ad, 0x5d6aebcd, 0x6a09e667, 0xbb67ae85, 0x78ce7989, 0xfa2a4622, 0x510e527f, 0x9b05688c), 0xb5c0fbcf, 0x00000000,
         Registers(0xc8c347a7, 0x5a6ad9ad, 0x5d6aebcd, 0x6a09e667, 0xf92939eb, 0x78ce7989, 0xfa2a4622, 0x510e527f));
    Step(block, 3, Registers(0xc8c347a7, 0x5a6ad9ad, 0x5d6aebcd, 0x6a09e667, 0xf92939eb, 0x78ce7989, 0xfa2a4622, 0x510e527f), 0xe9b5dba5, 0x00000000,
         Registers(0xd550f666, 0xc8c347a7, 0x5a6ad9ad, 0x5d6aebcd, 0x24e00850, 0xf92939eb, 0x78ce7989, 0xfa2a4622));
    Step(block, 4, Registers(0xd550f666, 0xc8c347a7, 0x5a6ad9ad, 0x5d6aebcd, 0x24e00850, 0xf92939eb, 0x78ce7989, 0xfa2a4622), 0x3956c25b, 0x00000000,
         Registers(0x04409a6a, 0xd550f666, 0xc8c347a7, 0x5a6ad9ad, 0x43ada245, 0x24e00850, 0xf92939eb, 0x78ce7989));
    Step(block, 5, Registers(0x04409a6a, 0xd550f666, 0xc8c347a7, 0x5a6ad9ad, 0x43ada245, 0x24e00850, 0xf92939eb, 0x78ce7989), 0x59f111f1, 0x00000000,
         Registers(0x2b4209f5, 0x04409a6a, 0xd550f666, 0xc8c347a7, 0x714260ad, 0x43ada245, 0x24e00850, 0xf92939eb));
    Step(block, 6, Registers(0x2b4209f5, 0x04409a6a, 0xd550f666, 0xc8c347a7, 0x714260ad, 0x43ada245, 0x24e00850, 0xf92939eb), 0x923f82a4, 0x00000000,
         Registers(0xe5030380, 0x2b4209f5, 0x04409a6a, 0xd550f666, 0x9b27a401, 0x714260ad, 0x43ada245, 0x24e00850));
    Step(block, 7, Registers(0xe5030380, 0x2b4209f5, 0x04409a6a, 0xd550f666, 0x9b27a401, 0x714260ad, 0x43ada245, 0x24e00850), 0xab1c5ed5, 0x00000000,
         Registers(0x85a07b5f, 0xe5030380, 0x2b4209f5, 0x04409a6a, 0x0c657a79, 0x9b27a401, 0x714260ad, 0x43ada245));
  }

  lemma Numbers8()
    ensures ToWord(0xd807aa98) == 0xd807aa98 && ToWord(0x12835b01) == 0x12835b01
    ensures ToWord(0x243185be) == 0x243185be && ToWord(0x550c7dc3) == 0x550c7dc3
    ensures ToWord(0x72be5d74) == 0x72be5d74 && ToWord(0x80deb1fe) == 0x80deb1fe
    ensures ToWord(0x9bdc06a7) == 0x9bdc06a7 && ToWord(0xc19bf174) == 0xc19bf174
  {
  }

  lemma Constants8()
    ensures K(8) == 0xd807aa98 && K(9) == 0x12835b01 && K(10) == 0x243185be && K(11) == 0x550c7dc3
    ensures K(12) == 0x72be5d74 && K(13) == 0x80deb1fe && K(14) == 0x9bdc06a7 && K(15) == 0xc19bf174
  {
    hide ToWord;
    Numbers8();
  }

  lemma Rounds16(block: seq<byte>)
    requires IsAbc(block)
    ensures Rounds(START, block, 16) == Registers(0xb0fa238e, 0xc0645fde, 0xd932eb16, 0x87912990, 0x07590dcd, 0x0b92f20c, 0x745a48de, 0x1e578218)
  {
    hide Rounds, W, K, Padded;
    Rounds8(block);
    Row8(block);
    Constants8();
    Step(block, 8, Registers(0x85a07b5f, 0xe5030380, 0x2b4209f5, 0x04409a6a, 0x0c657a79, 0x9b27a401, 0x714260ad, 0x43ada245), 0xd807aa98, 0x00000000,
         Registers(0x8e04ecb9, 0x85a07b5f, 0xe5030380, 0x2b4209f5, 0x32ca2d8c, 0x0c657a79, 0x9b27a401, 0x714260ad));
    Step(block, 9, Registers(0x8e04ecb9, 0x85a07b5f, 0xe5030380, 0x2b4209f5, 0x32ca2d8c, 0x0c657a79, 0x9b27a401, 0x714260ad), 0x12835b01, 0x00000000,
         Registers(0x8c87346b, 0x8e04ecb9, 0x85a07b5f, 0xe5030380, 0x1cc92596, 0x32ca2d8c, 0x0c657a79, 0x9b27a401));
    Step(block, 10, Registers(0x8c87346b, 0x8e04ecb9, 0x85a07b5f, 0xe5030380, 0x1cc92596, 0x32ca2d8c, 0x0c657a79, 0x9b27a401), 0x243185be, 0x00000000,
         Registers(0x4798a3f4, 0x8c87346b, 0x8e04ecb9, 0x85a07b5f, 0x436b23e8, 0x1cc92596, 0x32ca2d8c, 0x0c657a79));
    Step(block, 11, Registers(0x4798a3f4, 0x8c87346b, 0x8e04ecb9, 0x85a07b5f, 0x436b23e8, 0x1cc92596, 0x32ca2d8c, 0x0c657a79), 0x550c7dc3, 0x00000000,
         Registers(0xf71fc5a9, 0x4798a3f4, 0x8c87346b, 0x8e04ecb9, 0x816fd6e9, 0x436b23e8, 0x1cc92596, 0x32ca2d8c));
    Step(block, 12, Registers(0xf71fc5a9, 0x4798a3f4, 0x8c87346b, 0x8e04ecb9, 0x816fd6e9, 0x436b23e8, 0x1cc92596, 0x32ca2d8c), 0x72be5d74, 0x00000000,
         Registers(0x87912990, 0xf71fc5a9, 0x4798a3f4, 0x8c87346b, 0x1e578218, 0x816fd6e9, 0x436b23e8, 0x1cc92596));
    Step(block, 13, Registers(0x87912990, 0xf71fc5a9, 0x4798a3f4, 0x8c87346b, 0x1e578218, 0x816fd6e9, 0x436b23e8, 0x1cc92596), 0x80deb1fe, 0x00000000,
         Registers(0xd932eb16, 0x87912990, 0xf71fc5a9, 0x4798a3f4, 0x745a48de, 0x1e578218, 0x816fd6e9, 0x436b23e8));
    Step(block, 14, Registers(0xd932eb16, 0x87912990, 0xf71fc5a9, 0x4798a3f4, 0x745a48de, 0x1e578218, 0x816fd6e9, 0x436b23e8), 0x9bdc06a7, 0x00000000,
         Registers(0xc0645fde, 0xd932eb16, 0x87912990, 0xf71fc5a9, 0x0b92f20c, 0x745a48de, 0x1e578218, 0x816fd6e9));
    Step(block, 15, Registers(0xc0645fde, 0xd932eb16, 0x87912990, 0xf71fc5a9, 0x0b92f20c, 0x745a48de, 0x1e578218, 0x816fd6e9), 0xc19bf174, 0x00000018,
         Registers(0xb0fa238e, 0xc0645fde, 0xd932eb16, 0x87912990, 0x07590dcd, 0x0b92f20c, 0x745a48de, 0x1e578218));
  }

  lemma Numbers16()
    ensures ToWord(0xe49b69c1) == 0xe49b69c1 && ToWord(0xefbe4786) == 0xefbe4786
    ensures ToWord(0x0fc19dc6) == 0x0fc19dc6 && ToWord(0x240ca1cc) == 0x240ca1cc
    ensures ToWord(0x2de92c6f) == 0x2de92c6f && ToWord(0x4a7484aa) == 0x4a7484aa
    ensures ToWord(0x5cb0a9dc) == 0x5cb0a9dc && ToWord(0x76f988da) == 0x76f988da
  {
  }

  lemma Constants16()
    ensures K(16) == 0xe49b69c1 && K(17) == 0xefbe4786 && K(18) == 0x0fc19dc6 && K(19) == 0x240ca1cc
    ensures K(20) == 0x2de92c6f && K(21) == 0x4a7484aa && K(22) == 0x5cb0a9dc && K(23) == 0x76f988da
  {
    hide ToWord;
    Numbers16();
  }

  lemma Rounds24(block: seq<byte>)
    requires IsAbc(block)
    ensures Rounds(START, block, 24) == Registers(0xc5d53d8d, 0xa7a3623f, 0xc2606d6d, 0x9dc68b63, 0xaa47c347, 0x49f5114a, 0xe1257970, 0x8ada8930)
  {
    hide Rounds, W, K, Padded;
    Rounds16(block);
    Row16(block);
    Constants16();
    Step(block, 16, Registers(0xb0fa238e, 0xc0645fde, 0xd932eb16, 0x87912990, 0x07590dcd, 0x0b92f20c, 0x745a48de, 0x1e578218), 0xe49b69c1, 0x61626380,
         Registers(0x21da9a9b, 0xb0fa238e, 0xc0645fde, 0xd932eb16, 0x8034229c, 0x07590dcd, 0x0b92f20c, 0x745a48de));
    Step(block, 17, Registers(0x21da9a9b, 0xb0fa238e, 0xc0645fde, 0xd932eb16, 0x8034229c, 0x07590dcd, 0x0b92f20c, 0x745a48de), 0xefbe4786, 0x000f0000,
         Registers(0xc2fbd9d1, 0x21da9a9b, 0xb0fa238e, 0xc0645fde, 0x846ee454, 0x8034229c, 0x07590dcd, 0x0b92f20c));
    Step(block, 18, Registers(0xc2fbd9d1, 0x21da9a9b, 0xb0fa238e, 0xc0645fde, 0x846ee454, 0x8034229c, 0x07590dcd, 0x0b92f20c), 0x0fc19dc6, 0x7da86405,
         Registers(0xfe777bbf, 0xc2fbd9d1, 0x21da9a9b, 0xb0fa238e, 0xcc899961, 0x846ee454, 0x8034229c, 0x07590dcd));
    Step(block, 19, Registers(0xfe777bbf, 0xc2fbd9d1, 0x21da9a9b, 0xb0fa238e, 0xcc899961, 0x846ee454, 0x8034229c, 0x07590dcd), 0x240ca1cc, 0x600003c6,
         Registers(0xe1f20c33, 0xfe777bbf, 0xc2fbd9d1, 0x21da9a9b, 0xb0638179, 0xcc899961, 0x846ee454, 0x8034229c));
    Step(block, 20, Registers(0xe1f20c33, 0xfe777bbf, 0xc2fbd9d1, 0x21da9a9b, 0xb0638179, 0xcc899961, 0x846ee454, 0x8034229c), 0x2de92c6f, 0x3e9d7b78,
         Registers(0x9dc68b63, 0xe1f20c33, 0xfe777bbf, 0xc2fbd9d1, 0x8ada8930, 0xb0638179, 0xcc899961, 0x846ee454));
    Step(block, 21, Registers(0x9dc68b63, 0xe1f20c33, 0xfe777bbf, 0xc2fbd9d1, 0x8ada8930, 0xb0638179, 0xcc899961, 0x846ee454), 0x4a7484aa, 0x0183fc00,
         Registers(0xc2606d6d, 0x9dc68b63, 0xe1f20c33, 0xfe777bbf, 0xe1257970, 0x8ada8930, 0xb0638179, 0xcc899961));
    Step(block, 22, Registers(0xc2606d6d, 0x9dc68b63, 0xe1f20c33, 0xfe777bbf, 0xe1257970, 0x8ada8930, 0xb0638179, 0xcc899961), 0x5cb0a9dc, 0x12dcbfdb,
         Registers(0xa7a3623f, 0xc2606d6d, 0x9dc68b63, 0xe1f20c33, 0x49f5114a, 0xe1257970, 0x8ada8930, 0xb0638179));
    Step(block, 23, Registers(0xa7a3623f, 0xc2606d6d, 0x9dc68b63, 0xe1f20c33, 0x49f5114a, 0xe1257970, 0x8ada8930, 0xb0638179), 0x76f988da, 0xe2e2c38e,
         Registers(0xc5d53d8d, 0xa7a3623f, 0xc2606d6d, 0x9dc68b63, 0xaa47c347, 0x49f5114a, 0xe1257970, 0x8ada8930));
  }

  lemma Numbers24()
    ensures ToWord(0x983e5152) == 0x983e5152 && ToWord(0xa831c66d) == 0xa831c66d
    ensures ToWord(0xb00327c8) == 0xb00327c8 && ToWord(0xbf597fc7) == 0xbf597fc7
    ensures ToWord(0xc6e00bf3) == 0xc6e00bf3 && ToWord(0xd5a79147) == 0xd5a79147
    ensures ToWord(0x06ca6351) == 0x06ca6351 && ToWord(0x14292967) == 0x14292967
  {
  }

  lemma Constants24()
    ensures K(24) == 0x983e5152 && K(25) == 0xa831c66d && K(26) == 0xb00327c8 && K(27) == 0xbf597fc7
    ensures K(28) == 0xc6e00bf3 && K(29) == 0xd5a79147 && K(30) == 0x06ca6351 && K(31) == 0x14292967
  {
    hide ToWord;
    Numbers24();
  }

  lemma Rounds32(block: seq<byte>)
    requires IsAbc(block)
    ensures Rounds(START, block, 32) == Registers(0x73b33bf5, 0xea992a22, 0xa0060b30, 0x363482c9, 0xba591112, 0x0109ab3a, 0xade79437, 0x6112a3b7)
  {
    hide Rounds, W, K, Padded;
    Rounds24(block);
    Row24(block);
    Constants24();
    Step(block, 24, Registers(0xc5d53d8d, 0xa7a3623f, 0xc2606d6d, 0x9dc68b63, 0xaa47c347, 0x49f5114a, 0xe1257970, 0x8ada8930), 0x983e5152, 0xc8215c1a,
         Registers(0x1c2c2838, 0xc5d53d8d, 0xa7a3623f, 0xc2606d6d, 0x2823ef91, 0xaa47c347, 0x49f5114a, 0xe1257970));
    Step(block, 25, Registers(0x1c2c2838, 0xc5d53d8d, 0xa7a3623f, 0xc2606d6d, 0x2823ef91, 0xaa47c347, 0x49f5114a, 0xe1257970), 0xa831c66d, 0xb73679a2,
         Registers(0xcde8037d, 0x1c2c2838, 0xc5d53d8d, 0xa7a3623f, 0x14383d8e, 0x2823ef91, 0xaa47c347, 0x49f5114a));
    Step(block, 26, Registers(0xcde8037d, 0x1c2c2838, 0xc5d53d8d, 0xa7a3623f, 0x14383d8e, 0x2823ef91, 0xaa47c347, 0x49f5114a), 0xb00327c8, 0xe5bc3909,
         Registers(0xb62ec4bc, 0xcde8037d, 0x1c2c2838, 0xc5d53d8d, 0xc74c6516, 0x14383d8e, 0x2823ef91, 0xaa47c347));
    Step(block, 27, Registers(0xb62ec4bc, 0xcde8037d, 0x1c2c2838, 0xc5d53d8d, 0xc74c6516, 0x14383d8e, 0x2823ef91, 0xaa47c347), 0xbf597fc7, 0x32663c5b,
         Registers(0x77d37528, 0xb62ec4bc, 0xcde8037d, 0x1c2c2838, 0xedffbff8, 0xc74c6516, 0x14383d8e, 0x2823ef91));
    Step(block, 28, Registers(0x77d37528, 0xb62ec4bc, 0xcde8037d, 0x1c2c2838, 0xedffbff8, 0xc74c6516, 0x14383d8e, 0x2823ef91), 0xc6e00bf3, 0x9d209d67,
         Registers(0x363482c9, 0x77d37528, 0xb62ec4bc, 0xcde8037d, 0x6112a3b7, 0xedffbff8, 0xc74c6516, 0x14383d8e));
    Step(block, 29, Registers(0x363482c9, 0x77d37528, 0xb62ec4bc, 0xcde8037d, 0x6112a3b7, 0xedffbff8, 0xc74c6516, 0x14383d8e), 0xd5a79147, 0xec8726cb,
         Registers(0xa0060b30, 0x363482c9, 0x77d37528, 0xb62ec4bc, 0xade79437, 0x6112a3b7, 0xedffbff8, 0xc74c6516));
    Step(block, 30, Registers(0xa0060b30, 0x363482c9, 0x77d37528, 0xb62ec4bc, 0xade79437, 0x6112a3b7, 0xedffbff8, 0xc74c6516), 0x06ca6351, 0x702138a4,
         Registers(0xea992a22, 0xa0060b30, 0x363482c9, 0x77d37528, 0x0109ab3a, 0xade79437, 0x6112a3b7, 0xedffbff8));
    Step(block, 31, Registers(0xea992a22, 0xa0060b30, 0x363482c9, 0x77d37528, 0x0109ab3a, 0xade79437, 0x6112a3b7, 0xedffbff8), 0x14292967, 0xd3b7973b,
         Registers(0x73b33bf5, 0xea992a22, 0xa0060b30, 0x363482c9, 0xba591112, 0x0109ab3a, 0xade79437, 0x6112a3b7));
  }

  lemma Numbers32()
    ensures ToWord(0x27b70a85) == 0x27b70a85 && ToWord(0x2e1b2138) == 0x2e1b2138
    ensures ToWord(0x4d2c6dfc) == 0x4d2c6dfc && ToWord(0x53380d13) == 0x53380d13
    ensures ToWord(0x650a7354) == 0x650a7354 && ToWord(0x766a0abb) == 0x766a0abb
    ensures ToWord(0x81c2c92e) == 0x81c2c92e && ToWord(0x92722c85) == 0x92722c85
  {
  }

  lemma Constants32()
    ensures K(32) == 0x27b70a85 && K(33) == 0x2e1b2138 && K(34) == 0x4d2c6dfc && K(35) == 0x53380d13
    ensures K(36) == 0x650a7354 && K(37) == 0x766a0abb && K(38) == 0x81c2c92e && K(39) == 0x92722c85
  {
    hide ToWord;
    Numbers32();
  }

  lemma Rounds40(block: seq<byte>)
    requires IsAbc(block)
    ensures Rounds(START, block, 40) == Registers(0x79ea687a, 0x6dc57a8a, 0x34df1604, 0x41a65cb1, 0x1efbc0a0, 0xf0781bc8, 0xa507a53d, 0x0772a26b)
  {
    hide Rounds, W, K, Padded;
    Rounds32(block);
    Row32(block);
    Constants32();
    Step(block, 32, Registers(0x73b33bf5, 0xea992a22, 0xa0060b30, 0x363482c9, 0xba591112, 0x0109ab3a, 0xade79437, 0x6112a3b7), 0x27b70a85, 0x93f5997f,
         Registers(0x98e12507, 0x73b33bf5, 0xea992a22, 0xa0060b30, 0x9cd9f5f6, 0xba591112, 0x0109ab3a, 0xade79437));
    Step(block, 33, Registers(0x98e12507, 0x73b33bf5, 0xea992a22, 0xa0060b30, 0x9cd9f5f6, 0xba591112, 0x0109ab3a, 0xade79437), 0x2e1b2138, 0x3b68ba73,
         Registers(0xfe604df5, 0x98e12507, 0x73b33bf5, 0xea992a22, 0x59249dd3, 0x9cd9f5f6, 0xba591112, 0x0109ab3a));
    Step(block, 34, Registers(0xfe604df5, 0x98e12507, 0x73b33bf5, 0xea992a22, 0x59249dd3, 0x9cd9f5f6, 0xba591112, 0x0109ab3a), 0x4d2c6dfc, 0xaff4ffc1,
         Registers(0xa9a7738c, 0xfe604df5, 0x98e12507, 0x73b33bf5, 0x085f3833, 0x59249dd3, 0x9cd9f5f6, 0xba591112));
    Step(block, 35, Registers(0xa9a7738c, 0xfe604df5, 0x98e12507, 0x73b33bf5, 0x085f3833, 0x59249dd3, 0x9cd9f5f6, 0xba591112), 0x53380d13, 0xf10a5c62,
         Registers(0x65a0cfe4, 0xa9a7738c, 0xfe604df5, 0x98e12507, 0xf4b002d6, 0x085f3833, 0x59249dd3, 0x9cd9f5f6));
    Step(block, 36, Registers(0x65a0cfe4, 0xa9a7738c, 0xfe604df5, 0x98e12507, 0xf4b002d6, 0x085f3833, 0x59249dd3, 0x9cd9f5f6), 0x650a7354, 0x0a8b3996,
         Registers(0x41a65cb1, 0x65a0cfe4, 0xa9a7738c, 0xfe604df5, 0x0772a26b, 0xf4b002d6, 0x085f3833, 0x59249dd3));
    Step(block, 37, Registers(0x41a65cb1, 0x65a0cfe4, 0xa9a7738c, 0xfe604df5, 0x0772a26b, 0xf4b002d6, 0x085f3833, 0x59249dd3), 0x766a0abb, 0x72af830a,
         Registers(0x34df1604, 0x41a65cb1, 0x65a0cfe4, 0xa9a7738c, 0xa507a53d, 0x0772a26b, 0xf4b002d6, 0x085f3833));
    Step(block, 38, Registers(0x34df1604, 0x41a65cb1, 0x65a0cfe4, 0xa9a7738c, 0xa507a53d, 0x0772a26b, 0xf4b002d6, 0x085f3833), 0x81c2c92e, 0x9409e33e,
         Registers(0x6dc57a8a, 0x34df1604, 0x41a65cb1, 0x65a0cfe4, 0xf0781bc8, 0xa507a53d, 0x0772a26b, 0xf4b002d6));
    Step(block, 39, Registers(0x6dc57a8a, 0x34df1604, 0x41a65cb1, 0x65a0cfe4, 0xf0781bc8, 0xa507a53d, 0x0772a26b, 0xf4b002d6), 0x92722c85, 0x24641522,
         Registers(0x79ea687a, 0x6dc57a8a, 0x34df1604, 0x41a65cb1, 0x1efbc0a0, 0xf0781bc8, 0xa507a53d, 0x0772a26b));
  }

  lemma Numbers40()
    ensures ToWord(0xa2bfe8a1) == 0xa2bfe8a1 && ToWord(0xa81a664b) == 0xa81a664b
    ensures ToWord(0xc24b8b70) == 0xc24b8b70 && ToWord(0xc76c51a3) == 0xc76c51a3
    ensures ToWord(0xd192e819) == 0xd192e819 && ToWord(0xd6990624) == 0xd6990624
    ensures ToWord(0xf40e3585) == 0xf40e3585 && ToWord(0x106aa070) == 0x106aa070
  {
  }

  lemma Constants40()
    ensures K(40) == 0xa2bfe8a1 && K(41) == 0xa81a664b && K(42) == 0xc24b8b70 && K(43) == 0xc76c51a3
    ensures K(44) == 0xd192e819 && K(45) == 0xd6990624 && K(46) == 0xf40e3585 && K(47) == 0x106aa070
  {
    hide ToWord;
    Numbers40();
  }

  lemma Rounds48(block: seq<byte>)
    requires IsAbc(block)
    ensures Rounds(START, block, 48) == Registers(0x4172328d, 0xa14c14b0, 0x72ab4b91, 0x26628815, 0xfecf0bc6, 0xd57b94a9, 0xb7755da1, 0xa80f11f0)
  {
    hide Rounds, W, K, Padded;
    Rounds40(block);
    Row40(block);
    Constants40();
    Step(block, 40, Registers(0x79ea687a, 0x6dc57a8a, 0x34df1604, 0x41a65cb1, 0x1efbc0a0, 0xf0781bc8, 0xa507a53d, 0x0772a26b), 0xa2bfe8a1, 0x9f47bf94,
         Registers(0xd6670766, 0x79ea687a, 0x6dc57a8a, 0x34df1604, 0x26352d63, 0x1efbc0a0, 0xf0781bc8, 0xa507a53d));
    Step(block, 41, Registers(0xd6670766, 0x79ea687a, 0x6dc57a8a, 0x34df1604, 0x26352d63, 0x1efbc0a0, 0xf0781bc8, 0xa507a53d), 0xa81a664b, 0xf0a64f5a,
         Registers(0xdf46652f, 0xd6670766, 0x79ea687a, 0x6dc57a8a, 0x838b2711, 0x26352d63, 0x1efbc0a0, 0xf0781bc8));
    Step(block, 42, Registers(0xdf46652f, 0xd6670766, 0x79ea687a, 0x6dc57a8a, 0x838b2711, 0x26352d63, 0x1efbc0a0, 0xf0781bc8), 0xc24b8b70, 0x3e246a79,
         Registers(0x17aa0dfe, 0xdf46652f, 0xd6670766, 0x79ea687a, 0xdecd4715, 0x838b2711, 0x26352d63, 0x1efbc0a0));
    Step(block, 43, Registers(0x17aa0dfe, 0xdf46652f, 0xd6670766, 0x79ea687a, 0xdecd4715, 0x838b2711, 0x26352d63, 0x1efbc0a0), 0xc76c51a3, 0x27333ba3,
         Registers(0x9d4baf93, 0x17aa0dfe, 0xdf46652f, 0xd6670766, 0xfda24c2e, 0xdecd4715, 0x838b2711, 0x26352d63));
    Step(block, 44, Registers(0x9d4baf93, 0x17aa0dfe, 0xdf46652f, 0xd6670766, 0xfda24c2e, 0xdecd4715, 0x838b2711, 0x26352d63), 0xd192e819, 0x0c4763f2,
         Registers(0x26628815, 0x9d4baf93, 0x17aa0dfe, 0xdf46652f, 0xa80f11f0, 0xfda24c2e, 0xdecd4715, 0x838b2711));
    Step(block, 45, Registers(0x26628815, 0x9d4baf93, 0x17aa0dfe, 0xdf46652f, 0xa80f11f0, 0xfda24c2e, 0xdecd4715, 0x838b2711), 0xd6990624, 0x840abf27,
         Registers(0x72ab4b91, 0x26628815, 0x9d4baf93, 0x17aa0dfe, 0xb7755da1, 0xa80f11f0, 0xfda24c2e, 0xdecd4715));
    Step(block, 46, Registers(0x72ab4b91, 0x26628815, 0x9d4baf93, 0x17aa0dfe, 0xb7755da1, 0xa80f11f0, 0xfda24c2e, 0xdecd4715), 0xf40e3585, 0x7a290d5d,
         Registers(0xa14c14b0, 0x72ab4b91, 0x26628815, 0x9d4baf93, 0xd57b94a9, 0xb7755da1, 0xa80f11f0, 0xfda24c2e));
    Step(block, 47, Registers(0xa14c14b0, 0x72ab4b91, 0x26628815, 0x9d4baf93, 0xd57b94a9, 0xb7755da1, 0xa80f11f0, 0xfda24c2e), 0x106aa070, 0x065c43da,
         Registers(0x4172328d, 0xa14c14b0, 0x72ab4b91, 0x26628815, 0xfecf0bc6, 0xd57b94a9, 0xb7755da1, 0xa80f11f0));
  }

  lemma Numbers48()
    ensures ToWord(0x19a4c116) == 0x19a4c116 && ToWord(0x1e376c08) == 0x1e376c08
    ensures ToWord(0x2748774c) == 0x2748774c && ToWord(0x34b0bcb5) == 0x34b0bcb5
    ensures ToWord(0x391c0cb3) == 0x391c0cb3 && ToWord(0x4ed8aa4a) == 0x4ed8aa4a
    ensures ToWord(0x5b9cca4f) == 0x5b9cca4f && ToWord(0x682e6ff3) == 0x682e6ff3
  {
  }

  lemma Constants48()
    ensures K(48) == 0x19a4c116 && K(49) == 0x1e376c08 && K(50) == 0x2748774c && K(51) == 0x34b0bcb5
    ensures K(52) == 0x391c0cb3 && K(53) == 0x4ed8aa4a && K(54) == 0x5b9cca4f && K(55) == 0x682e6ff3
  {
    hide ToWord;
    Numbers48();
  }

  lemma Rounds56(block: seq<byte>)
    requires IsAbc(block)
    ensures Rounds(START, block, 56) == Registers(0x38cc9913, 0x3ec45cdb, 0xf5702fdb, 0x101fd28f, 0x54cb266b, 0xe50e1b4f, 0x9f4787c3, 0x529e7d00)
  {
    hide Rounds, W, K, Padded;
    Rounds48(block);
    Row48(block);
    Constants48();
    Step(block, 48, Registers(0x4172328d, 0xa14c14b0, 0x72ab4b91, 0x26628815, 0xfecf0bc6, 0xd57b94a9, 0xb7755da1, 0xa80f11f0), 0x19a4c116, 0xfb3e89cb,
         Registers(0x05757ceb, 0x4172328d, 0xa14c14b0, 0x72ab4b91, 0xbd714038, 0xfecf0bc6, 0xd57b94a9, 0xb7755da1));
    Step(block, 49, Registers(0x05757ceb, 0x4172328d, 0xa14c14b0, 0x72ab4b91, 0xbd714038, 0xfecf0bc6, 0xd57b94a9, 0xb7755da1), 0x1e376c08, 0xcc7617db,
         Registers(0xf11bfaa8, 0x05757ceb, 0x4172328d, 0xa14c14b0, 0x6e5c390c, 0xbd714038, 0xfecf0bc6, 0xd57b94a9));
    Step(block, 50, Registers(0xf11bfaa8, 0x05757ceb, 0x4172328d, 0xa14c14b0, 0x6e5c390c, 0xbd714038, 0xfecf0bc6, 0xd57b94a9), 0x2748774c, 0xb9e66c34,
         Registers(0x7a0508a1, 0xf11bfaa8, 0x05757ceb, 0x4172328d, 0x52f1ccf7, 0x6e5c390c, 0xbd714038, 0xfecf0bc6));
    Step(block, 51, Registers(0x7a0508a1, 0xf11bfaa8, 0x05757ceb, 0x4172328d, 0x52f1ccf7, 0x6e5c390c, 0xbd714038, 0xfecf0bc6), 0x34b0bcb5, 0xa9993667,
         Registers(0x886e7a22, 0x7a0508a1, 0xf11bfaa8, 0x05757ceb, 0x49231c1e, 0x52f1ccf7, 0x6e5c390c, 0xbd714038));
    Step(block, 52, Registers(0x886e7a22, 0x7a0508a1, 0xf11bfaa8, 0x05757ceb, 0x49231c1e, 0x52f1ccf7, 0x6e5c390c, 0xbd714038), 0x391c0cb3, 0x84badedd,
         Registers(0x101fd28f, 0x886e7a22, 0x7a0508a1, 0xf11bfaa8, 0x529e7d00, 0x49231c1e, 0x52f1ccf7, 0x6e5c390c));
    Step(block, 53, Registers(0x101fd28f, 0x886e7a22, 0x7a0508a1, 0xf11bfaa8, 0x529e7d00, 0x49231c1e, 0x52f1ccf7, 0x6e5c390c), 0x4ed8aa4a, 0xc21462bc,
         Registers(0xf5702fdb, 0x101fd28f, 0x886e7a22, 0x7a0508a1, 0x9f4787c3, 0x529e7d00, 0x49231c1e, 0x52f1ccf7));
    Step(block, 54, Registers(0xf5702fdb, 0x101fd28f, 0x886e7a22, 0x7a0508a1, 0x9f4787c3, 0x529e7d00, 0x49231c1e, 0x52f1ccf7), 0x5b9cca4f, 0x1487472c,
         Registers(0x3ec45cdb, 0xf5702fdb, 0x101fd28f, 0x886e7a22, 0xe50e1b4f, 0x9f4787c3, 0x529e7d00, 0x49231c1e));
    Step(block, 55, Registers(0x3ec45cdb, 0xf5702fdb, 0x101fd28f, 0x886e7a22, 0xe50e1b4f, 0x9f4787c3, 0x529e7d00, 0x49231c1e), 0x682e6ff3, 0xb20f7a99,
         Registers(0x38cc9913, 0x3ec45cdb, 0xf5702fdb, 0x101fd28f, 0x54cb266b, 0xe50e1b4f, 0x9f4787c3, 0x529e7d00));
  }

  lemma Numbers56()
    ensures ToWord(0x748f82ee) == 0x748f82ee && ToWord(0x78a5636f) == 0x78a5636f
    ensures ToWord(0x84c87814) == 0x84c87814 && ToWord(0x8cc70208) == 0x8cc70208
    ensures ToWord(0x90befffa) == 0x90befffa && ToWord(0xa4506ceb) == 0xa4506ceb
    ensures ToWord(0xbef9a3f7) == 0xbef9a3f7 && ToWord(0xc67178f2) == 0xc67178f2
  {
  }

  lemma Constants56()
    ensures K(56) == 0x748f82ee && K(57) == 0x78a5636f && K(58) == 0x84c87814 && K(59) == 0x8cc70208
    ensures K(60) == 0x90befffa && K(61) == 0xa4506ceb && K(62) == 0xbef9a3f7 && K(63) == 0xc67178f2
  {
    hide ToWord;
    Numbers56();
  }

  lemma Rounds64(block: seq<byte>)
    requires IsAbc(block)
    ensures Rounds(START, block, 64) == Registers(0x506e3058, 0xd39a2165, 0x04d24d6c, 0xb85e2ce9, 0x5ef50f24, 0xfb121210, 0x948d25b6, 0x961f4894)
  {
    hide Rounds, W, K, Padded;
    Rounds56(block);
    Row56(block);
    Constants56();
    Step(block, 56, Registers(0x38cc9913, 0x3ec45cdb, 0xf5702fdb, 0x101fd28f, 0x54cb266b, 0xe50e1b4f, 0x9f4787c3, 0x529e7d00), 0x748f82ee, 0xef57b9cd,
         Registers(0xfcd1887b, 0x38cc9913, 0x3ec45cdb, 0xf5702fdb, 0x9b5e906c, 0x54cb266b, 0xe50e1b4f, 0x9f4787c3));
    Step(block, 57, Registers(0xfcd1887b, 0x38cc9913, 0x3ec45cdb, 0xf5702fdb, 0x9b5e906c, 0x54cb266b, 0xe50e1b4f, 0x9f4787c3), 0x78a5636f, 0xebe6b238,
         Registers(0xc062d46f, 0xfcd1887b, 0x38cc9913, 0x3ec45cdb, 0x7e44008e, 0x9b5e906c, 0x54cb266b, 0xe50e1b4f));
    Step(block, 58, Registers(0xc062d46f, 0xfcd1887b, 0x38cc9913, 0x3ec45cdb, 0x7e44008e, 0x9b5e906c, 0x54cb266b, 0xe50e1b4f), 0x84c87814, 0x9fe3095e,
         Registers(0xffb70472, 0xc062d46f, 0xfcd1887b, 0x38cc9913, 0x6d83bfc6, 0x7e44008e, 0x9b5e906c, 0x54cb266b));
    Step(block, 59, Registers(0xffb70472, 0xc062d46f, 0xfcd1887b, 0x38cc9913, 0x6d83bfc6, 0x7e44008e, 0x9b5e906c, 0x54cb266b), 0x8cc70208, 0x78bc8d4b,
         Registers(0xb6ae8fff, 0xffb70472, 0xc062d46f, 0xfcd1887b, 0xb21bad3d, 0x6d83bfc6, 0x7e44008e, 0x9b5e906c));
    Step(block, 60, Registers(0xb6ae8fff, 0xffb70472, 0xc062d46f, 0xfcd1887b, 0xb21bad3d, 0x6d83bfc6, 0x7e44008e, 0x9b5e906c), 0x90befffa, 0xa43fcf15,
         Registers(0xb85e2ce9, 0xb6ae8fff, 0xffb70472, 0xc062d46f, 0x961f4894, 0xb21bad3d, 0x6d83bfc6, 0x7e44008e));
    Step(block, 61, Registers(0xb85e2ce9, 0xb6ae8fff, 0xffb70472, 0xc062d46f, 0x961f4894, 0xb21bad3d, 0x6d83bfc6, 0x7e44008e), 0xa4506ceb, 0x668b2ff8,
         Registers(0x04d24d6c, 0xb85e2ce9, 0xb6ae8fff, 0xffb70472, 0x948d25b6, 0x961f4894, 0xb21bad3d, 0x6d83bfc6));
    Step(block, 62, Registers(0x04d24d6c, 0xb85e2ce9, 0xb6ae8fff, 0xffb70472, 0x948d25b6, 0x961f4894, 0xb21bad3d, 0x6d83bfc6), 0xbef9a3f7, 0xeeaba2cc,
         Registers(0xd39a2165, 0x04d24d6c, 0xb85e2ce9, 0xb6ae8fff, 0xfb121210, 0x948d25b6, 0x961f4894, 0xb21bad3d));
    Step(block, 63, Registers(0xd39a2165, 0x04d24d6c, 0xb85e2ce9, 0xb6ae8fff, 0xfb121210, 0x948d25b6, 0x961f4894, 0xb21bad3d), 0xc67178f2, 0x12b1edeb,
         Registers(0x506e3058, 0xd39a2165, 0x04d24d6c, 0xb85e2ce9, 0x5ef50f24, 0xfb121210, 0x948d25b6, 0x961f4894));
  }

  // ----- the digest -----

  lemma Loaded()
    ensures Load(Initial()) == START
  {
    assert ToWord(0x6a09e667) == 0x6a09e667;
    assert ToWord(0xbb67ae85) == 0xbb67ae85;
    assert ToWord(0x3c6ef372) == 0x3c6ef372;
    assert ToWord(0xa54ff53a) == 0xa54ff53a;
    assert ToWord(0x510e527f) == 0x510e527f;
    assert ToWord(0x9b05688c) == 0x9b05688c;
    assert ToWord(0x1f83d9ab) == 0x1f83d9ab;
    assert ToWord(0x5be0cd19) == 0x5be0cd19;
    hide ToWord;
  }

  lemma HashOfAbc(block: seq<byte>)
    requires IsAbc(block)
    ensures Fold(Initial(), block) == [0xba7816bf, 0x8f01cfea, 0x414140de, 0x5dae2223, 0xb00361a3, 0x96177a9c, 0xb410ff61, 0xf20015ad]
  {
    hide Rounds, Padded, Initial;
    Loaded();
    Rounds64(block);
    FoldOfBlock(Initial(), block);
  }

  lemma WordBytesAre(w: bv32, n: nat, b: seq<byte>)
    requires |b| == 4 && FromWord(w) == n == ((b[0] as int * 256 + b[1] as int) * 256 + b[2] as int) * 256 + b[3] as int
    ensures WordBytes(w) == b
  {
    hide FromWord, BigEndian;
    BigEndianOfBytes(b);
    assert FromBigEndian([]) == 0;
    assert b[..3][..2] == [b[0], b[1]] && [b[0], b[1]][..1] == [b[0]] && [b[0]][..0] == [];
    assert FromBigEndian([b[0]]) == b[0] as int;
    assert FromBigEndian([b[0], b[1]]) == b[0] as int * 256 + b[1] as int;
    assert FromBigEndian(b[..3]) == (b[0] as int * 256 + b[1] as int) * 256 + b[2] as int;
  }

  /** The published digest. */
  lemma DigestOfAbc()
    ensures Digest(ABC) ==
      [0xba, 0x78, 0x16, 0xbf] + [0x8f, 0x01, 0xcf, 0xea] + [0x41, 0x41, 0x40, 0xde] + [0x5d, 0xae, 0x22, 0x23]
      + [0xb0, 0x03, 0x61, 0xa3] + [0x96, 0x17, 0x7a, 0x9c] + [0xb4, 0x10, 0xff, 0x61] + [0xf2, 0x00, 0x15, 0xad]
  {
    hide Fold, Initial, Output, WordBytes, Padded;
    var block := PaddedAbc();
    HashOfAbc(block);
    OutputOfAbc();
  }

  lemma OutputOfAbc()
    ensures Output([0xba7816bf, 0x8f01cfea, 0x414140de, 0x5dae2223, 0xb00361a3, 0x96177a9c, 0xb410ff61, 0xf20015ad]) ==
      [0xba, 0x78, 0x16, 0xbf] + [0x8f, 0x01, 0xcf, 0xea] + [0x41, 0x41, 0x40, 0xde] + [0x5d, 0xae, 0x22, 0x23]
      + [0xb0, 0x03, 0x61, 0xa3] + [0x96, 0x17, 0x7a, 0x9c] + [0xb4, 0x10, 0xff, 0x61] + [0xf2, 0x00, 0x15, 0xad]
  {
    hide WordBytes, Output;
    var h := [0xba7816bf, 0x8f01cfea, 0x414140de, 0x5dae2223, 0xb00361a3, 0x96177a9c, 0xb410ff61, 0xf20015ad];
    FirstHalf();
    SecondHalf();
    OutputWord(h, 0);
    OutputWord(h, 1);
    OutputWord(h, 2);
    OutputWord(h, 3);
    OutputWord(h, 4);
    OutputWord(h, 5);
    OutputWord(h, 6);
    OutputWord(h, 7);
    Joined(Output(h), [0xba, 0x78, 0x16, 0xbf], [0x8f, 0x01, 0xcf, 0xea], [0x41, 0x41, 0x40, 0xde], [0x5d, 0xae, 0x22, 0x23], [0xb0, 0x03, 0x61, 0xa3], [0x96, 0x17, 0x7a, 0x9c], [0xb4, 0x10, 0xff, 0x61], [0xf2, 0x00, 0x15, 0xad]);
  }

  lemma Joined(a: seq<byte>, w0: seq<byte>, w1: seq<byte>, w2: seq<byte>, w3: seq<byte>, w4: seq<byte>, w5: seq<byte>, w6: seq<byte>, w7: seq<byte>)
    requires |a| == 32
    requires a[0..4] == w0 && a[4..8] == w1 && a[8..12] == w2 && a[12..16] == w3
    requires a[16..20] == w4 && a[20..24] == w5 && a[24..28] == w6 && a[28..32] == w7
    ensures a == w0 + w1 + w2 + w3 + w4 + w5 + w6 + w7
  {
  }

  lemma FirstHalf()
    ensures WordBytes(0xba7816bf) == [0xba, 0x78, 0x16, 0xbf]
    ensures WordBytes(0x8f01cfea) == [0x8f, 0x01, 0xcf, 0xea]
    ensures WordBytes(0x414140de) == [0x41, 0x41, 0x40, 0xde]
    ensures WordBytes(0x5dae2223) == [0x5d, 0xae, 0x22, 0x23]
  {
    assert FromWord(0xba7816bf) == 0xba7816bf;
    assert FromWord(0x8f01cfea) == 0x8f01cfea;
    assert FromWord(0x414140de) == 0x414140de;
    assert FromWord(0x5dae2223) == 0x5dae2223;
    hide FromWord, WordBytes;
    WordBytesAre(0xba7816bf, 0xba7816bf, [0xba, 0x78, 0x16, 0xbf]);
    WordBytesAre(0x8f01cfea, 0x8f01cfea, [0x8f, 0x01, 0xcf, 0xea]);
    WordBytesAre(0x414140de, 0x414140de, [0x41, 0x41, 0x40, 0xde]);
    WordBytesAre(0x5dae2223, 0x5dae2223, [0x5d, 0xae, 0x22, 0x23]);
  }

  lemma SecondHalf()
    ensures WordBytes(0xb00361a3) == [0xb0, 0x03, 0x61, 0xa3]
    ensures WordBytes(0x96177a9c) == [0x96, 0x17, 0x7a, 0x9c]
    ensures WordBytes(0xb410ff61) == [0xb4, 0x10, 0xff, 0x61]
    ensures WordBytes(0xf20015ad) == [0xf2, 0x00, 0x15, 0xad]
  {
    assert FromWord(0xb00361a3) == 0xb00361a3;
    assert FromWord(0x96177a9c) == 0x96177a9c;
    assert FromWord(0xb410ff61) == 0xb410ff61;
    assert FromWord(0xf20015ad) == 0xf20015ad;
    hide FromWord, WordBytes;
    WordBytesAre(0xb00361a3, 0xb00361a3, [0xb0, 0x03, 0x61, 0xa3]);
    WordBytesAre(0x96177a9c, 0x96177a9c, [0x96, 0x17, 0x7a, 0x9c]);
    WordBytesAre(0xb410ff61, 0xb410ff61, [0xb4, 0x10, 0xff, 0x61]);
    WordBytesAre(0xf20015ad, 0xf20015ad, [0xf2, 0x00, 0x15, 0xad]);
  }
}
