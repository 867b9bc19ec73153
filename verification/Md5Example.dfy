/** The example "abc" of RFC 1321 (section A.5): all 64 steps, and the digest. */
module Md5Example {
  import opened Octets
  import opened Blocks
  import opened Md5Standard
  import opened Md5Body

  const ABC: seq<byte> := [97, 98, 99]

  /** The words of the padded message. */
  ghost predicate Loaded(m: seq<byte>) {
    && |m| == 64 && LittleEndianWord(m, 0) == 0x80636261 && LittleEndianWord(m, 14) == 24
    && forall k :: 0 < k < 16 && k != 14 ==> LittleEndianWord(m, k) == 0
  }

  /** Step i with word n of the block, the constant t and a rotation by s makes v of the register b. */
  lemma Next(m: seq<byte>, i: nat, r: Registers, n: nat, x: word, t: word, s: nat, v: word) returns (r': Registers)
    requires Loaded(m) && Row(i, n, t, s) && Steps(INITIAL, m, i) == r
    requires x == if n == 0 then 0x80636261 else if n == 14 then 24 else 0
    requires v == Plus(r.b, Rotl(Plus(Plus(Plus(r.a, Auxiliary(i, r.b, r.c, r.d)), x), t), s))
    ensures i < 64 && r' == Registers(r.d, v, r.b, r.c) == Steps(INITIAL, m, i + 1)
  {
    hide Plus, Rotl, Auxiliary, T, Index, Shift, LittleEndianWord, INITIAL;
    r' := Registers(r.d, v, r.b, r.c);
  }

  lemma Steps0(m: seq<byte>)
    requires Loaded(m)
    ensures Steps(INITIAL, m, 8) == Registers(0xc73741ef, 0x928d99f6, 0x207dc67b, 0x8bac3051)
  {
    Rows1First();
    hide Steps, Row, Loaded, T, Index, Shift;
    Start(m);
    var r := Registers(0x67452301, 0xefcdab89, 0x98badcfe, 0x10325476);
    r := Next(m, 0, r, 0, 0x80636261, 0xd76aa478, 7, 0xd6d117b4);
    r := Next(m, 1, r, 1, 0, 0xe8c7b756, 12, 0x344a8432);
    r := Next(m, 2, r, 2, 0, 0x242070db, 17, 0x2f6fbd72);
    r := Next(m, 3, r, 3, 0, 0xc1bdceee, 22, 0x7ad956f2);
    r := Next(m, 4, r, 4, 0, 0xf57c0faf, 7, 0xc73741ef);
    r := Next(m, 5, r, 5, 0, 0x4787c62a, 12, 0x8bac3051);
    r := Next(m, 6, r, 6, 0, 0xa8304613, 17, 0x207dc67b);
    r := Next(m, 7, r, 7, 0, 0xfd469501, 22, 0x928d99f6);
  }

  lemma Steps8(m: seq<byte>)
    requires Loaded(m) && Steps(INITIAL, m, 8) == Registers(0xc73741ef, 0x928d99f6, 0x207dc67b, 0x8bac3051)
    ensures Steps(INITIAL, m, 16) == Registers(0xdda9b9a6, 0x72aff2e0, 0xe396856b, 0xa1051895)
  {
    Rows1Last();
    hide Steps, Row, Loaded, T, Index, Shift;
    var r := Registers(0xc73741ef, 0x928d99f6, 0x207dc67b, 0x8bac3051);
    r := Next(m, 8, r, 8, 0, 0x698098d8, 7, 0x854b3712);
    r := Next(m, 9, r, 9, 0, 0x8b44f7af, 12, 0x74e2f284);
    r := Next(m, 10, r, 10, 0, 0xffff5bb1, 17, 0x3020401c);
    r := Next(m, 11, r, 11, 0, 0x895cd7be, 22, 0x5ed49596);
    r := Next(m, 12, r, 12, 0, 0x6b901122, 7, 0xdda9b9a6);
    r := Next(m, 13, r, 13, 0, 0xfd987193, 12, 0xa1051895);
    r := Next(m, 14, r, 14, 24, 0xa679438e, 17, 0xe396856b);
    r := Next(m, 15, r, 15, 0, 0x49b40821, 22, 0x72aff2e0);
  }

  lemma Steps16(m: seq<byte>)
    requires Loaded(m) && Steps(INITIAL, m, 16) == Registers(0xdda9b9a6, 0x72aff2e0, 0xe396856b, 0xa1051895)
    ensures Steps(INITIAL, m, 24) == Registers(0x59a8ffda, 0x47092c07, 0xabfc7920, 0x6d002f1e)
  {
    Rows2First();
    hide Steps, Row, Loaded, T, Index, Shift;
    var r := Registers(0xdda9b9a6, 0x72aff2e0, 0xe396856b, 0xa1051895);
    r := Next(m, 16, r, 1, 0, 0xf61e2562, 5, 0x3e9e9126);
    r := Next(m, 17, r, 6, 0, 0xc040b340, 9, 0x4a1d804e);
    r := Next(m, 18, r, 11, 0, 0x265e5a51, 14, 0xe25e1652);
    r := Next(m, 19, r, 0, 0x80636261, 0xe9b6c7aa, 20, 0xb5b204e4);
    r := Next(m, 20, r, 5, 0, 0xd62f105d, 5, 0x59a8ffda);
    r := Next(m, 21, r, 10, 0, 0x02441453, 9, 0x6d002f1e);
    r := Next(m, 22, r, 15, 0, 0xd8a1e681, 14, 0xabfc7920);
    r := Next(m, 23, r, 4, 0, 0xe7d3fbc8, 20, 0x47092c07);
  }

  lemma Steps24(m: seq<byte>)
    requires Loaded(m) && Steps(INITIAL, m, 24) == Registers(0x59a8ffda, 0x47092c07, 0xabfc7920, 0x6d002f1e)
    ensures Steps(INITIAL, m, 32) == Registers(0x790a77fb, 0x726342d3, 0xa62884aa, 0x9f47e4f8)
  {
    Rows2Last();
    hide Steps, Row, Loaded, T, Index, Shift;
    var r := Registers(0x59a8ffda, 0x47092c07, 0xabfc7920, 0x6d002f1e);
    r := Next(m, 24, r, 9, 0, 0x21e1cde6, 5, 0xb7f268cf);
    r := Next(m, 25, r, 14, 24, 0xc33707d6, 9, 0x09388eff);
    r := Next(m, 26, r, 3, 0, 0xf4d50d87, 14, 0xfe1623b1);
    r := Next(m, 27, r, 8, 0, 0x455a14ed, 20, 0x786acb8f);
    r := Next(m, 28, r, 13, 0, 0xa9e3e905, 5, 0x790a77fb);
    r := Next(m, 29, r, 2, 0, 0xfcefa3f8, 9, 0x9f47e4f8);
    r := Next(m, 30, r, 7, 0, 0x676f02d9, 14, 0xa62884aa);
    r := Next(m, 31, r, 12, 0, 0x8d2a4c8a, 20, 0x726342d3);
  }

  lemma Steps32(m: seq<byte>)
    requires Loaded(m) && Steps(INITIAL, m, 32) == Registers(0x790a77fb, 0x726342d3, 0xa62884aa, 0x9f47e4f8)
    ensures Steps(INITIAL, m, 40) == Registers(0x21b117b9, 0x5a2f5ea5, 0x3575227e, 0x6e7429d5)
  {
    Rows3First();
    hide Steps, Row, Loaded, T, Index, Shift;
    var r := Registers(0x790a77fb, 0x726342d3, 0xa62884aa, 0x9f47e4f8);
    r := Next(m, 32, r, 5, 0, 0xfffa3942, 4, 0xb3707ebf);
    r := Next(m, 33, r, 8, 0, 0x8771f681, 11, 0x60127b2e);
    r := Next(m, 34, r, 11, 0, 0x6d9d6122, 16, 0x8d212ff5);
    r := Next(m, 35, r, 14, 24, 0xfde5380c, 23, 0x3b0875c7);
    r := Next(m, 36, r, 1, 0, 0xa4beea44, 4, 0x21b117b9);
    r := Next(m, 37, r, 4, 0, 0x4bdecfa9, 11, 0x6e7429d5);
    r := Next(m, 38, r, 7, 0, 0xf6bb4b60, 16, 0x3575227e);
    r := Next(m, 39, r, 10, 0, 0xbebfbc70, 23, 0x5a2f5ea5);
  }

  lemma Steps40(m: seq<byte>)
    requires Loaded(m) && Steps(INITIAL, m, 40) == Registers(0x21b117b9, 0x5a2f5ea5, 0x3575227e, 0x6e7429d5)
    ensures Steps(INITIAL, m, 48) == Registers(0x7f2e507b, 0x7beb9700, 0x8fae6399, 0x99d9679d)
  {
    Rows3Last();
    hide Steps, Row, Loaded, T, Index, Shift;
    var r := Registers(0x21b117b9, 0x5a2f5ea5, 0x3575227e, 0x6e7429d5);
    r := Next(m, 40, r, 13, 0, 0x289b7ec6, 4, 0x11de1779);
    r := Next(m, 41, r, 0, 0x80636261, 0xeaa127fa, 11, 0xfadcaa38);
    r := Next(m, 42, r, 3, 0, 0xd4ef3085, 16, 0x31c465ca);
    r := Next(m, 43, r, 6, 0, 0x04881d05, 23, 0x4c6124f4);
    r := Next(m, 44, r, 9, 0, 0xd9d4d039, 4, 0x7f2e507b);
    r := Next(m, 45, r, 12, 0, 0xe6db99e5, 11, 0x99d9679d);
    r := Next(m, 46, r, 15, 0, 0x1fa27cf8, 16, 0x8fae6399);
    r := Next(m, 47, r, 2, 0, 0xc4ac5665, 23, 0x7beb9700);
  }

  lemma Steps48(m: seq<byte>)
    requires Loaded(m) && Steps(INITIAL, m, 48) == Registers(0x7f2e507b, 0x7beb9700, 0x8fae6399, 0x99d9679d)
    ensures Steps(INITIAL, m, 56) == Registers(0x06cc5e8a, 0x3bfa2c27, 0x7d632dd0, 0x5b0d97aa)
  {
    Rows4First();
    hide Steps, Row, Loaded, T, Index, Shift;
    var r := Registers(0x7f2e507b, 0x7beb9700, 0x8fae6399, 0x99d9679d);
    r := Next(m, 48, r, 0, 0x80636261, 0xf4292244, 6, 0x7b201df8);
    r := Next(m, 49, r, 7, 0, 0x432aff97, 10, 0xf4e8e96e);
    r := Next(m, 50, r, 14, 24, 0xab9423a7, 15, 0xb298cefd);
    r := Next(m, 51, r, 5, 0, 0xfc93a039, 21, 0x8bf025c4);
    r := Next(m, 52, r, 12, 0, 0x655b59c3, 6, 0x06cc5e8a);
    r := Next(m, 53, r, 3, 0, 0x8f0ccc92, 10, 0x5b0d97aa);
    r := Next(m, 54, r, 10, 0, 0xffeff47d, 15, 0x7d632dd0);
    r := Next(m, 55, r, 1, 0, 0x85845dd1, 21, 0x3bfa2c27);
  }

  lemma Steps56(m: seq<byte>)
    requires Loaded(m) && Steps(INITIAL, m, 56) == Registers(0x06cc5e8a, 0x3bfa2c27, 0x7d632dd0, 0x5b0d97aa)
    ensures Steps(INITIAL, m, 64) == Registers(0x310ade8f, 0xc08226b3, 0xe484b9d8, 0x624d8cb2)
  {
    Rows4Last();
    hide Steps, Row, Loaded, T, Index, Shift;
    var r := Registers(0x06cc5e8a, 0x3bfa2c27, 0x7d632dd0, 0x5b0d97aa);
    r := Next(m, 56, r, 8, 0, 0x6fa87e4f, 6, 0x7f81cc35);
    r := Next(m, 57, r, 15, 0, 0xfe2ce6e0, 10, 0x094454ab);
    r := Next(m, 58, r, 6, 0, 0xa3014314, 15, 0x4f9dbe3f);
    r := Next(m, 59, r, 13, 0, 0x4e0811a1, 21, 0x7327d604);
    r := Next(m, 60, r, 4, 0, 0xf7537e82, 6, 0x310ade8f);
    r := Next(m, 61, r, 11, 0, 0xbd3af235, 10, 0x624d8cb2);
    r := Next(m, 62, r, 2, 0, 0x2ad7d2bb, 15, 0xe484b9d8);
    r := Next(m, 63, r, 9, 0, 0xeb86d391, 21, 0xc08226b3);
  }

  lemma Start(m: seq<byte>)
    requires Loaded(m)
    ensures Steps(INITIAL, m, 0) == Registers(0x67452301, 0xefcdab89, 0x98badcfe, 0x10325476)
  {
  }

  lemma Compressed(m: seq<byte>)
    requires Loaded(m)
    ensures |m| == 64 && Compress(INITIAL, m) == Registers(0x98500190, 0xb04fd23c, 0x7d3f96d6, 0x727fe128)
  {
    Steps0(m);
    Steps8(m);
    Steps16(m);
    Steps24(m);
    Steps32(m);
    Steps40(m);
    Steps48(m);
    Steps56(m);
    hide Steps, Loaded;
  }

  lemma Count()
    ensures LittleEndian64(24) == [24, 0, 0, 0, 0, 0, 0, 0]
  {
    assert LittleEndian32(24) == [24, 0, 0, 0] && LittleEndian32(0) == [0, 0, 0, 0];
    hide LittleEndian32;
  }

  lemma Block()
    ensures Padded(ABC) == [97, 98, 99, 0x80] + Zeros(52) + [24, 0, 0, 0, 0, 0, 0, 0]
  {
    Count();
    Bits();
    hide LittleEndian64, Zeros, ZeroCount;
  }

  lemma Bits()
    ensures |ABC| == 3 && 8 * |ABC| % TWO_64 == 24 && ZeroCount(|ABC|) == 52 && ABC + [0x80] == [97, 98, 99, 0x80]
  {
  }

  lemma Words(m: seq<byte>)
    requires m == [97, 98, 99, 0x80] + Zeros(52) + [24, 0, 0, 0, 0, 0, 0, 0]
    ensures Loaded(m)
  {
    forall k | 0 < k < 16 && k != 14 ensures LittleEndianWord(m, k) == 0 {
      assert m[4 * k] == m[4 * k + 1] == m[4 * k + 2] == m[4 * k + 3] == 0;
    }
  }

  lemma Word0()
    ensures LowOctetFirst(0x98500190) == [0x90, 0x01, 0x50, 0x98]
  {
  }

  lemma Word1()
    ensures LowOctetFirst(0xb04fd23c) == [0x3c, 0xd2, 0x4f, 0xb0]
  {
  }

  lemma Word2()
    ensures LowOctetFirst(0x7d3f96d6) == [0xd6, 0x96, 0x3f, 0x7d]
  {
  }

  lemma Word3()
    ensures LowOctetFirst(0x727fe128) == [0x28, 0xe1, 0x7f, 0x72]
  {
  }

  lemma Digest()
    ensures DigestOctets(Registers(0x98500190, 0xb04fd23c, 0x7d3f96d6, 0x727fe128)) == [
      0x90, 0x01, 0x50, 0x98, 0x3c, 0xd2, 0x4f, 0xb0,
      0xd6, 0x96, 0x3f, 0x7d, 0x28, 0xe1, 0x7f, 0x72]
  {
    Word0();
    Word1();
    Word2();
    Word3();
    hide LowOctetFirst;
  }

  lemma OneBlock(m: seq<byte>)
    requires |m| == 64
    ensures Fold(INITIAL, m) == Compress(INITIAL, m)
  {
    hide Compress;
    assert m[..0] == [] && m[0..] == m;
  }

  lemma Whole()
    ensures Md5(ABC) == DigestOctets(Fold(INITIAL, Padded(ABC)))
  {
    hide Fold, DigestOctets, Padded;
  }

  /** The digest of "abc". */
  lemma DigestOfAbc()
    ensures Md5(ABC) == [
      0x90, 0x01, 0x50, 0x98, 0x3c, 0xd2, 0x4f, 0xb0,
      0xd6, 0x96, 0x3f, 0x7d, 0x28, 0xe1, 0x7f, 0x72]
  {
    hide *;
    Whole();
    Block();
    Words(Padded(ABC));
    Compressed(Padded(ABC));
    OneBlock(Padded(ABC));
    Digest();
  }
}
