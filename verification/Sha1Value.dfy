/** A digest printed with the standard, section A.1 of FIPS 180-2: that of "abc". */
module Sha1Value {
  import opened Words
  import opened Sha1Spec

  /** The only block of the padded message. */
  function Block(): (b: seq<byte>)
    ensures |b| == 64
  {
    [0x61, 0x62, 0x63, 0x80] + Zeros(59) + [0x18]
  }

  lemma IsPadded()
    ensures Padded([0x61, 0x62, 0x63]) == Block()
  {
    var m: seq<byte> := [0x61, 0x62, 0x63];
    assert m + [0x80] == [0x61, 0x62, 0x63, 0x80];
    LengthBytes();
    PaddedIs(m);
    hide BigEndian, Zeros, Padded;
    ZerosJoin(52, 7);
    Regrouped(m, [0x80], Zeros(52), Zeros(7), [0x18]);
  }

  lemma PaddedIs(m: seq<byte>)
    requires |m| == 3
    ensures Padded(m) == m + [0x80] + Zeros(52) + BigEndian(24, 8)
  {
    hide BigEndian, Zeros;
    assert ZeroCount(3) == 52;
  }

  lemma Regrouped(a: seq<byte>, b: seq<byte>, c: seq<byte>, d: seq<byte>, e: seq<byte>)
    ensures a + b + c + (d + e) == a + b + (c + d) + e
  {
  }

  lemma ZerosJoin(a: nat, b: nat)
    ensures Zeros(a) + Zeros(b) == Zeros(a + b)
  {
  }

  lemma LengthBytes()
    ensures BigEndian(24, 8) == Zeros(7) + [0x18]
  {
    assert Byte(8) == 8 && Byte(16) == 16 && Byte(24) == 24;
    hide Byte;
    ZeroBytes(7);
    assert BigEndian(24, 8) == BigEndian(0, 7) + [0x18];
  }

  lemma {:induction false} ZeroBytes(k: nat)
    ensures BigEndian(0, k) == Zeros(k)
  {
    assert Byte(0) == 0;
    hide Byte;
    if k > 0 {
      ZeroBytes(k - 1);
    }
  }

  lemma NextWords(b: seq<byte>, t: nat)
    requires |b| == 64 && t >= 16
    ensures W(b, t) == Rotl(Xor4(W(b, t - 3), W(b, t - 8), W(b, t - 14), W(b, t - 16)), 1)
    ensures W(b, t + 1) == Rotl(Xor4(W(b, t - 2), W(b, t - 7), W(b, t - 13), W(b, t - 15)), 1)
    ensures W(b, t + 2) == Rotl(Xor4(W(b, t - 1), W(b, t - 6), W(b, t - 12), W(b, t - 14)), 1)
    ensures W(b, t + 3) == Rotl(Xor4(W(b, t), W(b, t - 5), W(b, t - 11), W(b, t - 13)), 1)
  {
    hide Rotl, Xor4;
  }

  lemma NextRounds(b: seq<byte>, t: nat)
    requires |b| == 64
    ensures Rounds(b, INITIAL, t + 1) == Round(Rounds(b, INITIAL, t), t, W(b, t))
    ensures Rounds(b, INITIAL, t + 2) == Round(Rounds(b, INITIAL, t + 1), t + 1, W(b, t + 1))
    ensures Rounds(b, INITIAL, t + 3) == Round(Rounds(b, INITIAL, t + 2), t + 2, W(b, t + 2))
    ensures Rounds(b, INITIAL, t + 4) == Round(Rounds(b, INITIAL, t + 3), t + 3, W(b, t + 3))
  {
    hide Round, W;
  }

  lemma Words0(b: seq<byte>)
    requires b == Block()
    ensures W(b, 0) == 0x61626380 && W(b, 1) == 0x00000000 && W(b, 2) == 0x00000000 && W(b, 3) == 0x00000000 &&
      W(b, 4) == 0x00000000 && W(b, 5) == 0x00000000 && W(b, 6) == 0x00000000 && W(b, 7) == 0x00000000 &&
      W(b, 8) == 0x00000000 && W(b, 9) == 0x00000000 && W(b, 10) == 0x00000000 && W(b, 11) == 0x00000000 &&
      W(b, 12) == 0x00000000 && W(b, 13) == 0x00000000 && W(b, 14) == 0x00000000 && W(b, 15) == 0x00000018
  {
  }

  lemma Words1(b: seq<byte>)
    requires b == Block()
    ensures W(b, 16) == 0xc2c4c700 && W(b, 17) == 0x00000000 && W(b, 18) == 0x00000030 && W(b, 19) == 0x85898e01 &&
      W(b, 20) == 0x00000000 && W(b, 21) == 0x00000060 && W(b, 22) == 0x0b131c03 && W(b, 23) == 0x00000030 &&
      W(b, 24) == 0x85898ec1 && W(b, 25) == 0x16263806 && W(b, 26) == 0x00000000 && W(b, 27) == 0x00000180 &&
      W(b, 28) == 0x2c4c700c && W(b, 29) == 0x000000f0 && W(b, 30) == 0x93afb507 && W(b, 31) == 0x5898e048
  {
    Words0(b);
    hide W, Block;
    NextWords(b, 16);
    NextWords(b, 20);
    NextWords(b, 24);
    NextWords(b, 28);
  }

  lemma Words2(b: seq<byte>)
    requires b == Block()
    ensures W(b, 32) == 0x8e9a9202 && W(b, 33) == 0x00000600 && W(b, 34) == 0xb131c0f0 && W(b, 35) == 0x16263bc6 &&
      W(b, 36) == 0x4ebed41e && W(b, 37) == 0x626380a1 && W(b, 38) == 0x16263806 && W(b, 39) == 0x000018c0 &&
      W(b, 40) == 0xd2e138c4 && W(b, 41) == 0x00000f00 && W(b, 42) == 0x3afb5079 && W(b, 43) == 0x898e04e5 &&
      W(b, 44) == 0xe2ba3c2b && W(b, 45) == 0x000060c0 && W(b, 46) == 0x053a37cd && W(b, 47) == 0x74458547
  {
    Words1(b);
    hide W, Block;
    NextWords(b, 32);
    NextWords(b, 36);
    NextWords(b, 40);
    NextWords(b, 44);
  }

  lemma Words3(b: seq<byte>)
    requires b == Block()
    ensures W(b, 48) == 0xda9415ed && W(b, 49) == 0x26380a16 && W(b, 50) == 0x626383a1 && W(b, 51) == 0x4ebf54de &&
      W(b, 52) == 0x3835b44b && W(b, 53) == 0x0000f600 && W(b, 54) == 0x1e84c7a3 && W(b, 55) == 0x98e04d98 &&
      W(b, 56) == 0x651d16a0 && W(b, 57) == 0x62658ca1 && W(b, 58) == 0x458544d6 && W(b, 59) == 0x44584cb7 &&
      W(b, 60) == 0x7ba06619 && W(b, 61) == 0x6380aea2 && W(b, 62) == 0x0ae55269 && W(b, 63) == 0x627b49a1
  {
    Words2(b);
    hide W, Block;
    NextWords(b, 48);
    NextWords(b, 52);
    NextWords(b, 56);
    NextWords(b, 60);
  }

  lemma Words4(b: seq<byte>)
    requires b == Block()
    ensures W(b, 64) == 0x7cd45c9d && W(b, 65) == 0x000f0000 && W(b, 66) == 0xfb50753a && W(b, 67) == 0xec6765e8 &&
      W(b, 68) == 0xba3c2be2 && W(b, 69) == 0x0060c000 && W(b, 70) == 0x3a37cd05 && W(b, 71) == 0x458546f4 &&
      W(b, 72) == 0xb8599dd6 && W(b, 73) == 0x380a1a26 && W(b, 74) == 0x01e02203 && W(b, 75) == 0xe7cc3456 &&
      W(b, 76) == 0xe6e60b69 && W(b, 77) == 0x00f60a00 && W(b, 78) == 0x5795ef4f && W(b, 79) == 0x822e0879
  {
    Words3(b);
    hide W, Block;
    NextWords(b, 64);
    NextWords(b, 68);
    NextWords(b, 72);
    NextWords(b, 76);
  }

  lemma Rounds0(b: seq<byte>)
    requires b == Block()
    ensures Rounds(b, INITIAL, 16) == Vars(0x20bdd62f, 0x196bee77, 0x644a3da5, 0x1181ed99, 0x18c623f9)
  {
    Words0(b);
    assert Rounds(b, INITIAL, 0) == INITIAL;
    hide W, Block, Rounds;
    NextRounds(b, 0);
    assert Rounds(b, INITIAL, 4) == Vars(0xcdd8e11b, 0xa1390f08, 0x626414db, 0xc045bf0c, 0x59d148c0);
    NextRounds(b, 4);
    assert Rounds(b, INITIAL, 8) == Vars(0x9e8c07d4, 0x993e30c1, 0x0ff1f290, 0xb3f52677, 0xf3763846);
    NextRounds(b, 8);
    assert Rounds(b, INITIAL, 12) == Vars(0x63188fe4, 0xfbda9e89, 0x60d47e4a, 0x12dab8ca, 0x27a301f5);
    NextRounds(b, 12);
  }

  lemma Rounds1(b: seq<byte>)
    requires b == Block()
    ensures Rounds(b, INITIAL, 32) == Vars(0x3b845d33, 0x1267b407, 0x717eebd7, 0xa0dc2d4b, 0xd2aa1365)
  {
    Words1(b);
    Rounds0(b);
    hide W, Block, Rounds;
    NextRounds(b, 16);
    assert Rounds(b, INITIAL, 20) == Vars(0xfd9e1d7d, 0xdc64901d, 0x20aa99ca, 0xd3a49608, 0xc82f758b);
    NextRounds(b, 20);
    assert Rounds(b, INITIAL, 24) == Vars(0xd541f12d, 0x21283486, 0x0ce88eff, 0x868dec32, 0x7f67875f);
    NextRounds(b, 24);
    assert Rounds(b, INITIAL, 28) == Vars(0x4aa84d97, 0xbe35fbd5, 0x12104ee9, 0xb1d59f71, 0x75507c4b);
    NextRounds(b, 28);
  }

  lemma Rounds2(b: seq<byte>)
    requires b == Block()
    ensures Rounds(b, INITIAL, 48) == Vars(0xbead02ca, 0xa01b846c, 0x8714787c, 0x503ca382, 0xfb86c6ab)
  {
    Words2(b);
    Rounds1(b);
    hide W, Block, Rounds;
    NextRounds(b, 32);
    assert Rounds(b, INITIAL, 36) == Vars(0xdcbbb0cb, 0x21796ad4, 0x4b03af04, 0x811bea82, 0xcee1174c);
    NextRounds(b, 36);
    assert Rounds(b, INITIAL, 40) == Vars(0x32de1cba, 0x4c986405, 0xf718e5cf, 0x03d447f6, 0xf72eec32);
    NextRounds(b, 40);
    assert Rounds(b, INITIAL, 44) == Vars(0xee1b1aaf, 0x7f193dc5, 0x25c28357, 0xff21f7b7, 0x8cb7872e);
    NextRounds(b, 44);
  }

  lemma Rounds3(b: seq<byte>)
    requires b == Block()
    ensures Rounds(b, INITIAL, 64) == Vars(0x6b61c9e1, 0xb66c020b, 0x9523272c, 0xf5d5b051, 0x8fd4b796)
  {
    Words3(b);
    Rounds2(b);
    hide W, Block, Rounds;
    NextRounds(b, 48);
    assert Rounds(b, INITIAL, 52) == Vars(0x3847ad66, 0x641db2ce, 0x4481cc71, 0xeebce4cd, 0xafab40b2);
    NextRounds(b, 52);
    assert Rounds(b, INITIAL, 56) == Vars(0x5e6456af, 0x7b71f76d, 0x09fa7c76, 0x792410db, 0x8e11eb59);
    NextRounds(b, 56);
    assert Rounds(b, INITIAL, 60) == Vars(0x3f52de5a, 0x09d785fd, 0x3498bfd4, 0xf211824f, 0xd79915ab);
    NextRounds(b, 60);
  }

  lemma Rounds4(b: seq<byte>)
    requires b == Block()
    ensures Rounds(b, INITIAL, 80) == Vars(0x42541b35, 0x5738d5e1, 0x21834873, 0x681e6df6, 0xd8fdf6ad)
  {
    Words4(b);
    Rounds3(b);
    hide W, Block, Rounds;
    NextRounds(b, 64);
    assert Rounds(b, INITIAL, 68) == Vars(0x78dd4d2b, 0x0c3df2b4, 0x4405957e, 0x0677e9eb, 0x5ad87278);
    NextRounds(b, 68);
    assert Rounds(b, INITIAL, 72) == Vars(0x39859de7, 0xc199f8c7, 0x8fc96230, 0x125c24f0, 0xde37534a);
    NextRounds(b, 72);
    assert Rounds(b, INITIAL, 76) == Vars(0x63f7dab7, 0x5ee76897, 0xc45e4fdb, 0x3b6d0b79, 0xce616779);
    NextRounds(b, 76);
  }

  lemma OneBlock(b: seq<byte>)
    requires |b| == 64
    ensures Blocks(INITIAL, b) == Compress(INITIAL, b)
  {
    assert b[..64] == b && b[64..] == [];
    hide Compress;
  }

  lemma Bytes5(v: Vars)
    ensures VarsBytes(v) == WordBytes(v.a) + WordBytes(v.b) + WordBytes(v.c) + WordBytes(v.d) + WordBytes(v.e)
  {
    hide WordBytes;
    var a, b, c, d, e := v.a, v.b, v.c, v.d, v.e;
    assert [a, b, c, d, e][..4] == [a, b, c, d] && [a, b, c, d][..3] == [a, b, c];
    assert [a, b, c][..2] == [a, b] && [a, b][..1] == [a] && [a][..0] == [];
    assert WordsBytes([a]) == WordBytes(a);
    assert WordsBytes([a, b]) == WordsBytes([a]) + WordBytes(b);
    assert WordsBytes([a, b, c]) == WordsBytes([a, b]) + WordBytes(c);
    assert WordsBytes([a, b, c, d]) == WordsBytes([a, b, c]) + WordBytes(d);
  }

  lemma DigestWords(m: seq<byte>)
    requires Padded(m) == Block()
    ensures Digest(m) == WordBytes(0xa9993e36) + WordBytes(0x4706816a) + WordBytes(0xba3e2571)
      + WordBytes(0x7850c26c) + WordBytes(0x9cd0d89d)
  {
    var b := Block();
    OneBlock(b);
    CompressedIs(b);
    Bytes5(Compress(INITIAL, b));
    hide Rounds, Block, Padded, Blocks, Compress, VarsBytes, WordBytes;
  }

  lemma FiveWords()
    ensures WordBytes(0xa9993e36) == [0xa9, 0x99, 0x3e, 0x36]
    ensures WordBytes(0x4706816a) == [0x47, 0x6, 0x81, 0x6a]
    ensures WordBytes(0xba3e2571) == [0xba, 0x3e, 0x25, 0x71]
    ensures WordBytes(0x7850c26c) == [0x78, 0x50, 0xc2, 0x6c]
    ensures WordBytes(0x9cd0d89d) == [0x9c, 0xd0, 0xd8, 0x9d]
  {
  }

  lemma DigestOfAbc()
    ensures Digest([0x61, 0x62, 0x63])
      == [0xa9, 0x99, 0x3e, 0x36] + [0x47, 0x6, 0x81, 0x6a] + [0xba, 0x3e, 0x25, 0x71]
       + [0x78, 0x50, 0xc2, 0x6c] + [0x9c, 0xd0, 0xd8, 0x9d]
  {
    IsPadded();
    DigestWords([0x61, 0x62, 0x63]);
    FiveWords();
    hide Digest, Padded, WordBytes, Block;
  }

  lemma CompressedIs(b: seq<byte>)
    requires b == Block()
    ensures Compress(INITIAL, b) == Vars(0xa9993e36, 0x4706816a, 0xba3e2571, 0x7850c26c, 0x9cd0d89d)
  {
    Rounds4(b);
    hide Rounds, Block;
  }
}
