/** The example "abc" of FIPS PUB 180-1 (appendix A), which is also the first one of sha1test.c: all 80 rounds,
    and the digest. */
module Sha1Example {
  import opened Octets
  import opened Blocks
  import opened Sha1Standard
  import opened Sha1Digest

  const ABC: seq<byte> := [97, 98, 99]

  /** Sixteen words of the schedule. */
  ghost predicate Window(m: seq<byte>, t: nat, v: seq<word>) {
    && |m| == 64 && |v| == 16
    && W(m, t) == v[0] && W(m, t + 1) == v[1] && W(m, t + 2) == v[2] && W(m, t + 3) == v[3]
    && W(m, t + 4) == v[4] && W(m, t + 5) == v[5] && W(m, t + 6) == v[6] && W(m, t + 7) == v[7]
    && W(m, t + 8) == v[8] && W(m, t + 9) == v[9] && W(m, t + 10) == v[10] && W(m, t + 11) == v[11]
    && W(m, t + 12) == v[12] && W(m, t + 13) == v[13] && W(m, t + 14) == v[14] && W(m, t + 15) == v[15]
  }

  /** Those of the padded message. */
  ghost predicate Loaded(m: seq<byte>) {
    Window(m, 0, [
      0x61626380, 0, 0, 0, 0, 0, 0, 0,
      0, 0, 0, 0, 0, 0, 0, 24])
  }

  /** A round with the word w makes v of the register a. */
  lemma Next(m: seq<byte>, t: nat, r: Registers, w: word, v: word) returns (r': Registers)
    requires |m| == 64 && W(m, t) == w && Rounds(INITIAL, m, t) == r
    requires v == Plus(Plus(Plus(Plus(Rotl(r.a, 5), F(t, r.b, r.c, r.d)), r.e), w), K(t))
    ensures r' == Registers(v, r.a, Rotl(r.b, 30), r.c, r.d) == Rounds(INITIAL, m, t + 1)
  {
    hide Plus, Rotl, F, K, W, INITIAL;
    r' := Registers(v, r.a, Rotl(r.b, 30), r.c, r.d);
  }

  lemma NextWord(m: seq<byte>, t: nat, w: word)
    requires |m| == 64 && 16 <= t && w == Rotl(Xor4(W(m, t - 3), W(m, t - 8), W(m, t - 14), W(m, t - 16)), 1)
    ensures W(m, t) == w
  {
    hide Rotl, Xor4;
  }

  lemma Rounds0(m: seq<byte>)
    requires Loaded(m)
    ensures Rounds(INITIAL, m, 16) == Registers(0x20bdd62f, 0x196bee77, 0x644a3da5, 0x1181ed99, 0x18c623f9)
  {
    Start(m);
    hide Rounds, W;
    var r := Registers(0x67452301, 0xefcdab89, 0x98badcfe, 0x10325476, 0xc3d2e1f0);
    r := Next(m, 0, r, 0x61626380, 0x0116fc33);
    r := Next(m, 1, r, 0, 0x8990536d);
    r := Next(m, 2, r, 0, 0xa1390f08);
    r := Next(m, 3, r, 0, 0xcdd8e11b);
    r := Next(m, 4, r, 0, 0xcfd499de);
    r := Next(m, 5, r, 0, 0x3fc7ca40);
    r := Next(m, 6, r, 0, 0x993e30c1);
    r := Next(m, 7, r, 0, 0x9e8c07d4);
    r := Next(m, 8, r, 0, 0x4b6ae328);
    r := Next(m, 9, r, 0, 0x8351f929);
    r := Next(m, 10, r, 0, 0xfbda9e89);
    r := Next(m, 11, r, 0, 0x63188fe4);
    r := Next(m, 12, r, 0, 0x4607b664);
    r := Next(m, 13, r, 0, 0x9128f695);
    r := Next(m, 14, r, 0, 0x196bee77);
    r := Next(m, 15, r, 24, 0x20bdd62f);
  }

  lemma Words16(m: seq<byte>)
    requires Loaded(m)
    ensures Window(m, 16, [
      0xc2c4c700, 0, 0x00000030, 0x85898e01, 0, 0x00000060, 0x0b131c03, 0x00000030,
      0x85898ec1, 0x16263806, 0, 0x00000180, 0x2c4c700c, 0x000000f0, 0x93afb507, 0x5898e048])
  {
    hide W;
    NextWord(m, 16, 0xc2c4c700);
    NextWord(m, 17, 0);
    NextWord(m, 18, 0x00000030);
    NextWord(m, 19, 0x85898e01);
    NextWord(m, 20, 0);
    NextWord(m, 21, 0x00000060);
    NextWord(m, 22, 0x0b131c03);
    NextWord(m, 23, 0x00000030);
    NextWord(m, 24, 0x85898ec1);
    NextWord(m, 25, 0x16263806);
    NextWord(m, 26, 0);
    NextWord(m, 27, 0x00000180);
    NextWord(m, 28, 0x2c4c700c);
    NextWord(m, 29, 0x000000f0);
    NextWord(m, 30, 0x93afb507);
    NextWord(m, 31, 0x5898e048);
  }

  lemma Rounds16(m: seq<byte>)
    requires Loaded(m)
    ensures Rounds(INITIAL, m, 32) == Registers(0x3b845d33, 0x1267b407, 0x717eebd7, 0xa0dc2d4b, 0xd2aa1365)
  {
    Rounds0(m);
    Words16(m);
    hide Rounds, W;
    var r := Registers(0x20bdd62f, 0x196bee77, 0x644a3da5, 0x1181ed99, 0x18c623f9);
    r := Next(m, 16, r, 0xc2c4c700, 0x4e925823);
    r := Next(m, 17, r, 0, 0x82aa6728);
    r := Next(m, 18, r, 0x00000030, 0xdc64901d);
    r := Next(m, 19, r, 0x85898e01, 0xfd9e1d7d);
    r := Next(m, 20, r, 0, 0x1a37b0ca);
    r := Next(m, 21, r, 0x00000060, 0x33a23bfc);
    r := Next(m, 22, r, 0x0b131c03, 0x21283486);
    r := Next(m, 23, r, 0x00000030, 0xd541f12d);
    r := Next(m, 24, r, 0x85898ec1, 0xc7567dc6);
    r := Next(m, 25, r, 0x16263806, 0x48413ba4);
    r := Next(m, 26, r, 0, 0xbe35fbd5);
    r := Next(m, 27, r, 0x00000180, 0x4aa84d97);
    r := Next(m, 28, r, 0x2c4c700c, 0x8370b52e);
    r := Next(m, 29, r, 0x000000f0, 0xc5fbaf5d);
    r := Next(m, 30, r, 0x93afb507, 0x1267b407);
    r := Next(m, 31, r, 0x5898e048, 0x3b845d33);
  }

  lemma Words32(m: seq<byte>)
    requires Loaded(m)
    ensures Window(m, 32, [
      0x8e9a9202, 0x00000600, 0xb131c0f0, 0x16263bc6, 0x4ebed41e, 0x626380a1, 0x16263806, 0x000018c0,
      0xd2e138c4, 0x00000f00, 0x3afb5079, 0x898e04e5, 0xe2ba3c2b, 0x000060c0, 0x053a37cd, 0x74458547])
  {
    Words16(m);
    hide W;
    NextWord(m, 32, 0x8e9a9202);
    NextWord(m, 33, 0x00000600);
    NextWord(m, 34, 0xb131c0f0);
    NextWord(m, 35, 0x16263bc6);
    NextWord(m, 36, 0x4ebed41e);
    NextWord(m, 37, 0x626380a1);
    NextWord(m, 38, 0x16263806);
    NextWord(m, 39, 0x000018c0);
    NextWord(m, 40, 0xd2e138c4);
    NextWord(m, 41, 0x00000f00);
    NextWord(m, 42, 0x3afb5079);
    NextWord(m, 43, 0x898e04e5);
    NextWord(m, 44, 0xe2ba3c2b);
    NextWord(m, 45, 0x000060c0);
    NextWord(m, 46, 0x053a37cd);
    NextWord(m, 47, 0x74458547);
  }

  lemma Rounds32(m: seq<byte>)
    requires Loaded(m)
    ensures Rounds(INITIAL, m, 48) == Registers(0xbead02ca, 0xa01b846c, 0x8714787c, 0x503ca382, 0xfb86c6ab)
  {
    Rounds16(m);
    Words32(m);
    hide Rounds, W;
    var r := Registers(0x3b845d33, 0x1267b407, 0x717eebd7, 0xa0dc2d4b, 0xd2aa1365);
    r := Next(m, 32, r, 0x8e9a9202, 0x046faa0a);
    r := Next(m, 33, r, 0x00000600, 0x2c0ebc11);
    r := Next(m, 34, r, 0xb131c0f0, 0x21796ad4);
    r := Next(m, 35, r, 0x16263bc6, 0xdcbbb0cb);
    r := Next(m, 36, r, 0x4ebed41e, 0x0f511fd8);
    r := Next(m, 37, r, 0x626380a1, 0xdc63973f);
    r := Next(m, 38, r, 0x16263806, 0x4c986405);
    r := Next(m, 39, r, 0x000018c0, 0x32de1cba);
    r := Next(m, 40, r, 0xd2e138c4, 0xfc87dedf);
    r := Next(m, 41, r, 0x00000f00, 0x970a0d5c);
    r := Next(m, 42, r, 0x3afb5079, 0x7f193dc5);
    r := Next(m, 43, r, 0x898e04e5, 0xee1b1aaf);
    r := Next(m, 44, r, 0xe2ba3c2b, 0x40f28e09);
    r := Next(m, 45, r, 0x000060c0, 0x1c51e1f2);
    r := Next(m, 46, r, 0x053a37cd, 0xa01b846c);
    r := Next(m, 47, r, 0x74458547, 0xbead02ca);
  }

  lemma Words48(m: seq<byte>)
    requires Loaded(m)
    ensures Window(m, 48, [
      0xda9415ed, 0x26380a16, 0x626383a1, 0x4ebf54de, 0x3835b44b, 0x0000f600, 0x1e84c7a3, 0x98e04d98,
      0x651d16a0, 0x62658ca1, 0x458544d6, 0x44584cb7, 0x7ba06619, 0x6380aea2, 0x0ae55269, 0x627b49a1])
  {
    Words32(m);
    hide W;
    NextWord(m, 48, 0xda9415ed);
    NextWord(m, 49, 0x26380a16);
    NextWord(m, 50, 0x626383a1);
    NextWord(m, 51, 0x4ebf54de);
    NextWord(m, 52, 0x3835b44b);
    NextWord(m, 53, 0x0000f600);
    NextWord(m, 54, 0x1e84c7a3);
    NextWord(m, 55, 0x98e04d98);
    NextWord(m, 56, 0x651d16a0);
    NextWord(m, 57, 0x62658ca1);
    NextWord(m, 58, 0x458544d6);
    NextWord(m, 59, 0x44584cb7);
    NextWord(m, 60, 0x7ba06619);
    NextWord(m, 61, 0x6380aea2);
    NextWord(m, 62, 0x0ae55269);
    NextWord(m, 63, 0x627b49a1);
  }

  lemma Rounds48(m: seq<byte>)
    requires Loaded(m)
    ensures Rounds(INITIAL, m, 64) == Registers(0x6b61c9e1, 0xb66c020b, 0x9523272c, 0xf5d5b051, 0x8fd4b796)
  {
    Rounds32(m);
    Words48(m);
    hide Rounds, W;
    var r := Registers(0xbead02ca, 0xa01b846c, 0x8714787c, 0x503ca382, 0xfb86c6ab);
    r := Next(m, 48, r, 0xda9415ed, 0xbaf39337);
    r := Next(m, 49, r, 0x26380a16, 0x120731c5);
    r := Next(m, 50, r, 0x626383a1, 0x641db2ce);
    r := Next(m, 51, r, 0x4ebf54de, 0x3847ad66);
    r := Next(m, 52, r, 0x3835b44b, 0xe490436d);
    r := Next(m, 53, r, 0x0000f600, 0x27e9f1d8);
    r := Next(m, 54, r, 0x1e84c7a3, 0x7b71f76d);
    r := Next(m, 55, r, 0x98e04d98, 0x5e6456af);
    r := Next(m, 56, r, 0x651d16a0, 0xc846093f);
    r := Next(m, 57, r, 0x62658ca1, 0xd262ff50);
    r := Next(m, 58, r, 0x458544d6, 0x09d785fd);
    r := Next(m, 59, r, 0x44584cb7, 0x3f52de5a);
    r := Next(m, 60, r, 0x7ba06619, 0xd756c147);
    r := Next(m, 61, r, 0x6380aea2, 0x548c9cb2);
    r := Next(m, 62, r, 0x0ae55269, 0xb66c020b);
    r := Next(m, 63, r, 0x627b49a1, 0x6b61c9e1);
  }

  lemma Words64(m: seq<byte>)
    requires Loaded(m)
    ensures Window(m, 64, [
      0x7cd45c9d, 0x000f0000, 0xfb50753a, 0xec6765e8, 0xba3c2be2, 0x0060c000, 0x3a37cd05, 0x458546f4,
      0xb8599dd6, 0x380a1a26, 0x01e02203, 0xe7cc3456, 0xe6e60b69, 0x00f60a00, 0x5795ef4f, 0x822e0879])
  {
    Words48(m);
    hide W;
    NextWord(m, 64, 0x7cd45c9d);
    NextWord(m, 65, 0x000f0000);
    NextWord(m, 66, 0xfb50753a);
    NextWord(m, 67, 0xec6765e8);
    NextWord(m, 68, 0xba3c2be2);
    NextWord(m, 69, 0x0060c000);
    NextWord(m, 70, 0x3a37cd05);
    NextWord(m, 71, 0x458546f4);
    NextWord(m, 72, 0xb8599dd6);
    NextWord(m, 73, 0x380a1a26);
    NextWord(m, 74, 0x01e02203);
    NextWord(m, 75, 0xe7cc3456);
    NextWord(m, 76, 0xe6e60b69);
    NextWord(m, 77, 0x00f60a00);
    NextWord(m, 78, 0x5795ef4f);
    NextWord(m, 79, 0x822e0879);
  }

  lemma Rounds64(m: seq<byte>)
    requires Loaded(m)
    ensures Rounds(INITIAL, m, 80) == Registers(0x42541b35, 0x5738d5e1, 0x21834873, 0x681e6df6, 0xd8fdf6ad)
  {
    Rounds48(m);
    Words64(m);
    hide Rounds, W;
    var r := Registers(0x6b61c9e1, 0xb66c020b, 0x9523272c, 0xf5d5b051, 0x8fd4b796);
    r := Next(m, 64, r, 0x7cd45c9d, 0x19dfa7ac);
    r := Next(m, 65, r, 0x000f0000, 0x101655f9);
    r := Next(m, 66, r, 0xfb50753a, 0x0c3df2b4);
    r := Next(m, 67, r, 0xec6765e8, 0x78dd4d2b);
    r := Next(m, 68, r, 0xba3c2be2, 0x497093c0);
    r := Next(m, 69, r, 0x0060c000, 0x3f2588c2);
    r := Next(m, 70, r, 0x3a37cd05, 0xc199f8c7);
    r := Next(m, 71, r, 0x458546f4, 0x39859de7);
    r := Next(m, 72, r, 0xb8599dd6, 0xedb42de4);
    r := Next(m, 73, r, 0x380a1a26, 0x11793f6f);
    r := Next(m, 74, r, 0x01e02203, 0x5ee76897);
    r := Next(m, 75, r, 0xe7cc3456, 0x63f7dab7);
    r := Next(m, 76, r, 0xe6e60b69, 0xa079b7d9);
    r := Next(m, 77, r, 0x00f60a00, 0x860d21cc);
    r := Next(m, 78, r, 0x5795ef4f, 0x5738d5e1);
    r := Next(m, 79, r, 0x822e0879, 0x42541b35);
  }

  lemma Start(m: seq<byte>)
    requires Loaded(m)
    ensures Rounds(INITIAL, m, 0) == Registers(0x67452301, 0xefcdab89, 0x98badcfe, 0x10325476, 0xc3d2e1f0)
  {
  }

  lemma Compressed(m: seq<byte>)
    requires Loaded(m)
    ensures |m| == 64 && Compress(INITIAL, m) == Registers(0xa9993e36, 0x4706816a, 0xba3e2571, 0x7850c26c, 0x9cd0d89d)
  {
    Rounds64(m);
    hide Rounds, W;
  }

  lemma Count()
    ensures BigEndian64(24) == [0, 0, 0, 0, 0, 0, 0, 24]
  {
    assert BigEndian32(0) == [0, 0, 0, 0] && BigEndian32(24) == [0, 0, 0, 24];
    hide BigEndian32;
  }

  lemma EndWords(m: seq<byte>)
    requires m == [97, 98, 99, 0x80] + Zeros(52) + [0, 0, 0, 0, 0, 0, 0, 24]
    ensures BigEndianWord(m, 0) == 0x61626380 && BigEndianWord(m, 15) == 24
  {
  }

  lemma ZeroWords(m: seq<byte>)
    requires m == [97, 98, 99, 0x80] + Zeros(52) + [0, 0, 0, 0, 0, 0, 0, 24]
    ensures forall k :: 0 < k < 15 ==> BigEndianWord(m, k) == 0
  {
    forall k | 0 < k < 15 ensures BigEndianWord(m, k) == 0 {
      assert m[4 * k] == m[4 * k + 1] == m[4 * k + 2] == m[4 * k + 3] == 0;
    }
  }

  lemma Words(m: seq<byte>)
    requires m == [97, 98, 99, 0x80] + Zeros(52) + [0, 0, 0, 0, 0, 0, 0, 24]
    ensures Loaded(m)
  {
    EndWords(m);
    ZeroWords(m);
    hide BigEndianWord;
  }

  lemma Word0()
    ensures HighOctetFirst(0xa9993e36) == [0xa9, 0x99, 0x3e, 0x36]
  {
  }

  lemma Word1()
    ensures HighOctetFirst(0x4706816a) == [0x47, 0x06, 0x81, 0x6a]
  {
  }

  lemma Word2()
    ensures HighOctetFirst(0xba3e2571) == [0xba, 0x3e, 0x25, 0x71]
  {
  }

  lemma Word3()
    ensures HighOctetFirst(0x7850c26c) == [0x78, 0x50, 0xc2, 0x6c]
  {
  }

  lemma Word4()
    ensures HighOctetFirst(0x9cd0d89d) == [0x9c, 0xd0, 0xd8, 0x9d]
  {
  }

  lemma Digest()
    ensures DigestOctets(Registers(0xa9993e36, 0x4706816a, 0xba3e2571, 0x7850c26c, 0x9cd0d89d)) == [
      0xa9, 0x99, 0x3e, 0x36, 0x47, 0x06, 0x81, 0x6a, 0xba, 0x3e,
      0x25, 0x71, 0x78, 0x50, 0xc2, 0x6c, 0x9c, 0xd0, 0xd8, 0x9d]
  {
    Word0();
    Word1();
    Word2();
    Word3();
    Word4();
    hide HighOctetFirst;
  }

  lemma OneBlock(m: seq<byte>)
    requires |m| == 64
    ensures Fold(INITIAL, m) == Compress(INITIAL, m)
  {
    hide Compress;
    assert m[..0] == [] && m[0..] == m;
  }

  /** The padded message, which is one block. */
  function Message(): (m: seq<byte>)
    ensures |m| % 64 == 0
  {
    ABC + Padding(3, 24)
  }

  lemma Block()
    ensures Message() == [97, 98, 99, 0x80] + Zeros(52) + [0, 0, 0, 0, 0, 0, 0, 24]
  {
    Count();
    assert ZeroCount(3) == 52;
    hide BigEndian64, Zeros, ZeroCount;
    assert Padding(3, 24) == [0x80] + Zeros(52) + BigEndian64(24);
    assert ABC + [0x80] == [97, 98, 99, 0x80];
    Joins(ABC, [0x80], Zeros(52), BigEndian64(24));
  }

  lemma Joins<T>(a: seq<T>, b: seq<T>, c: seq<T>, d: seq<T>)
    ensures a + (b + c + d) == a + b + c + d
  {
  }

  lemma Whole()
    ensures Sha1(ABC) == DigestOctets(Fold(INITIAL, Message()))
  {
    Length();
    hide Fold, DigestOctets, Padding, ABC;
  }

  lemma Length()
    ensures |ABC| == 3 && 8 * 3 % TWO_64 == 24
  {
  }

  /** The digest of "abc". */
  lemma DigestOfAbc()
    ensures Sha1(ABC) == [
      0xa9, 0x99, 0x3e, 0x36, 0x47, 0x06, 0x81, 0x6a, 0xba, 0x3e,
      0x25, 0x71, 0x78, 0x50, 0xc2, 0x6c, 0x9c, 0xd0, 0xd8, 0x9d]
  {
    hide *;
    Whole();
    Block();
    Words(Message());
    Compressed(Message());
    OneBlock(Message());
    Digest();
  }
}
