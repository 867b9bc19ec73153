/** MD5 as RFC 1321 defines it (section 3). */
module Md5Standard {
  import opened Octets
  import opened Blocks
  import OctetLaws

  datatype Registers = Registers(a: word, b: word, c: word, d: word)

  /** Section 3.3. */
  const INITIAL := Registers(0x67452301, 0xefcdab89, 0x98badcfe, 0x10325476)

  /** Section 3.4: the auxiliary functions. */
  function F(x: word, y: word, z: word): word {
    (x & y) | (!x & z)
  }

  function G(x: word, y: word, z: word): word {
    (x & z) | (y & !z)
  }

  function H(x: word, y: word, z: word): word {
    x ^ y ^ z
  }

  function I(x: word, y: word, z: word): word {
    y ^ (x | !z)
  }

  function Auxiliary(i: nat, x: word, y: word, z: word): word {
    if i < 16 then F(x, y, z) else if i < 32 then G(x, y, z) else if i < 48 then H(x, y, z) else I(x, y, z)
  }

  /** Section 3.4: the table of 64 sines, here counted from 0. */
  function T(i: nat): word
    requires i < 64
  {
    if i < 16 then T1(i) else if i < 32 then T2(i - 16) else if i < 48 then T3(i - 32) else T4(i - 48)
  }

  function T1(i: nat): word
    requires i < 16
  {
    match i
    case 0 => 0xd76aa478
    case 1 => 0xe8c7b756
    case 2 => 0x242070db
    case 3 => 0xc1bdceee
    case 4 => 0xf57c0faf
    case 5 => 0x4787c62a
    case 6 => 0xa8304613
    case 7 => 0xfd469501
    case 8 => 0x698098d8
    case 9 => 0x8b44f7af
    case 10 => 0xffff5bb1
    case 11 => 0x895cd7be
    case 12 => 0x6b901122
    case 13 => 0xfd987193
    case 14 => 0xa679438e
    case _ => 0x49b40821
  }

  function T2(i: nat): word
    requires i < 16
  {
    match i
    case 0 => 0xf61e2562
    case 1 => 0xc040b340
    case 2 => 0x265e5a51
    case 3 => 0xe9b6c7aa
    case 4 => 0xd62f105d
    case 5 => 0x02441453
    case 6 => 0xd8a1e681
    case 7 => 0xe7d3fbc8
    case 8 => 0x21e1cde6
    case 9 => 0xc33707d6
    case 10 => 0xf4d50d87
    case 11 => 0x455a14ed
    case 12 => 0xa9e3e905
    case 13 => 0xfcefa3f8
    case 14 => 0x676f02d9
    case _ => 0x8d2a4c8a
  }

  function T3(i: nat): word
    requires i < 16
  {
    match i
    case 0 => 0xfffa3942
    case 1 => 0x8771f681
    case 2 => 0x6d9d6122
    case 3 => 0xfde5380c
    case 4 => 0xa4beea44
    case 5 => 0x4bdecfa9
    case 6 => 0xf6bb4b60
    case 7 => 0xbebfbc70
    case 8 => 0x289b7ec6
    case 9 => 0xeaa127fa
    case 10 => 0xd4ef3085
    case 11 => 0x04881d05
    case 12 => 0xd9d4d039
    case 13 => 0xe6db99e5
    case 14 => 0x1fa27cf8
    case _ => 0xc4ac5665
  }

  function T4(i: nat): word
    requires i < 16
  {
    match i
    case 0 => 0xf4292244
    case 1 => 0x432aff97
    case 2 => 0xab9423a7
    case 3 => 0xfc93a039
    case 4 => 0x655b59c3
    case 5 => 0x8f0ccc92
    case 6 => 0xffeff47d
    case 7 => 0x85845dd1
    case 8 => 0x6fa87e4f
    case 9 => 0xfe2ce6e0
    case 10 => 0xa3014314
    case 11 => 0x4e0811a1
    case 12 => 0xf7537e82
    case 13 => 0xbd3af235
    case 14 => 0x2ad7d2bb
    case _ => 0xeb86d391
  }

  /** Section 3.4: which word of the block step i takes. */
  function Index(i: nat): (k: nat)
    ensures k < 16
  {
    if i < 16 then i
    else if i < 32 then (5 * i + 1) % 16
    else if i < 48 then (3 * i + 5) % 16
    else 7 * i % 16
  }

  /** Section 3.4: how far step i rotates. */
  function Shift(i: nat): (s: nat)
    ensures 0 < s < 32
  {
    var k := i % 4;
    if i < 16 then (if k == 0 then 7 else if k == 1 then 12 else if k == 2 then 17 else 22)
    else if i < 32 then (if k == 0 then 5 else if k == 1 then 9 else if k == 2 then 14 else 20)
    else if i < 48 then (if k == 0 then 4 else if k == 1 then 11 else if k == 2 then 16 else 23)
    else (if k == 0 then 6 else if k == 1 then 10 else if k == 2 then 15 else 21)
  }

  /** Section 3.4: a = b + ((a + f(b,c,d) + X[k] + T[i]) <<< s). The next step works on the
      registers in the order d, a, b, c. */
  function Step(r: Registers, x: word, i: nat): Registers
    requires i < 64
  {
    var sum := Plus(Plus(Plus(r.a, Auxiliary(i, r.b, r.c, r.d)), x), T(i));
    Registers(r.d, Plus(r.b, Rotl(sum, Shift(i))), r.b, r.c)
  }

  /** The registers after the first n steps on a block. */
  function Steps(h: Registers, block: seq<byte>, n: nat): Registers
    requires |block| == 64 && n <= 64
  {
    if n == 0 then h else Step(Steps(h, block, n - 1), LittleEndianWord(block, Index(n - 1)), n - 1)
  }

  function AddRegisters(h: Registers, r: Registers): Registers {
    Registers(Plus(r.a, h.a), Plus(r.b, h.b), Plus(r.c, h.c), Plus(r.d, h.d))
  }

  /** Section 3.4: the whole treatment of one 64-octet block. */
  function Compress(h: Registers, block: seq<byte>): Registers
    requires |block| == 64
  {
    AddRegisters(h, Steps(h, block, 64))
  }

  function Fold(h: Registers, blocks: seq<byte>): Registers
    requires |blocks| % 64 == 0
  {
    if blocks == [] then h
    else Compress(Fold(h, blocks[..|blocks| - 64]), blocks[|blocks| - 64..])
  }

  lemma FoldOneMore(h: Registers, m: seq<byte>, k: nat)
    requires k % 64 == 0 && k + 64 <= |m|
    ensures Fold(h, m[..k + 64]) == Compress(Fold(h, m[..k]), m[k..k + 64])
  {
    hide Compress;
    assert m[..k + 64][..k] == m[..k] && m[..k + 64][k..] == m[k..k + 64];
  }

  /** Section 3.2: a 64-bit count as two words, low-order word and low-order octets first. */
  function LittleEndian64(n: nat): (s: seq<byte>)
    requires n < TWO_64
    ensures |s| == 8
  {
    LittleEndian32(n % TWO_32) + LittleEndian32(n / TWO_32)
  }

  lemma PaddedWhole(n: nat)
    requires n % 64 == 56
    ensures (n + 8) % 64 == 0
  {
  }

  /** Sections 3.1 and 3.2: the padded message. The count is the low-order 64 bits of the
      length in bits. */
  function Padded(message: seq<byte>): (s: seq<byte>)
    ensures |s| % 64 == 0
  {
    PaddedWhole(|message| + 1 + ZeroCount(|message|));
    message + [0x80] + Zeros(ZeroCount(|message|)) + LittleEndian64(8 * |message| % TWO_64)
  }

  lemma CountSum(bits: nat)
    requires bits < TWO_64
    ensures var s := LittleEndian64(bits);
            bits == (s[0] as int + 0x100 * s[1] as int + 0x1_0000 * s[2] as int + 0x100_0000 * s[3] as int)
                    + TWO_32 * (s[4] as int + 0x100 * s[5] as int + 0x1_0000 * s[6] as int + 0x100_0000 * s[7] as int)
  {
    OctetLaws.LittleEndianSums(bits / TWO_32, bits % TWO_32);
    hide LittleEndian32;
    assert bits == TWO_32 * (bits / TWO_32) + bits % TWO_32;
  }

  /** What the padded message is, octet by octet: an end mark, as few zeros as will do, and the number of bits
      in eight octets, the least significant one first. */
  lemma PaddedIs(message: seq<byte>)
    ensures var p, n := Padded(message), |message|;
            && n + 9 <= |p| <= n + 72 && |p| % 64 == 0 && message <= p && p[n] == 0x80
            && forall k :: n < k < |p| - 8 ==> p[k] == 0
    ensures var s := Padded(message)[|Padded(message)| - 8..];
            8 * |message| % TWO_64
            == (s[0] as int + 0x100 * s[1] as int + 0x1_0000 * s[2] as int + 0x100_0000 * s[3] as int)
               + TWO_32 * (s[4] as int + 0x100 * s[5] as int + 0x1_0000 * s[6] as int + 0x100_0000 * s[7] as int)
  {
    PaddedShape(message);
    CountSum(8 * |message| % TWO_64);
    hide *;
  }

  lemma PaddedShape(message: seq<byte>)
    ensures var p, n := Padded(message), |message|;
            && n + 9 <= |p| <= n + 72 && |p| % 64 == 0 && message <= p && p[n] == 0x80
            && (forall k :: n < k < |p| - 8 ==> p[k] == 0)
            && p[|p| - 8..] == LittleEndian64(8 * n % TWO_64)
  {
    hide LittleEndian64;
  }

  /** Section 3.5. */
  function DigestOctets(h: Registers): (s: seq<byte>)
    ensures |s| == 16
  {
    LowOctetFirst(h.a) + LowOctetFirst(h.b) + LowOctetFirst(h.c) + LowOctetFirst(h.d)
  }

  function Md5(message: seq<byte>): (s: seq<byte>)
    ensures |s| == 16
  {
    DigestOctets(Fold(INITIAL, Padded(message)))
  }
}
