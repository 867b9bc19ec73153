/** What octets and words mean as numbers, in either order. */
module OctetLaws {
  import opened Octets

  /** The widths are those of the word type. */
  lemma Widths()
    ensures (0xFFFF_FFFF as word) as int + 1 == TWO_32 && TWO_32 * TWO_32 == TWO_64 && 8 * TWO_61 == TWO_64
  {
  }

  lemma RepeatIs(b: byte, n: nat, k: nat)
    requires k < n
    ensures Repeat(b, n)[k] == b && Zeros(n)[k] == 0
  {
  }

  lemma CountOctetIs(n: uint32, k: nat)
    requires k < 4
    ensures CountOctet(n, 0) as int == n / 0x100_0000 && CountOctet(n, 1) as int == n / 0x1_0000 % 256
    ensures CountOctet(n, 2) as int == n / 0x100 % 256 && CountOctet(n, 3) as int == n % 256
  {
    assert n / 0x100_0000 < 256;
    ByteBack(n / 0x100_0000);
    ByteBack(n / 0x1_0000 % 256);
    ByteBack(n / 0x100 % 256);
    ByteBack(n % 256);
  }

  lemma ByteBack(x: nat)
    requires x < 256
    ensures (x as byte) as int == x
  {
    if x < 128 {
      if x < 64 {
      }
    } else if x < 192 {
    }
  }

  lemma Base256(n: nat)
    ensures n == 0x100_0000 * (n / 0x100_0000) + 0x1_0000 * (n / 0x1_0000 % 256) + 0x100 * (n / 0x100 % 256) + n % 256
  {
    var a, b := n / 256, n / 256 / 256;
    DivTwice(n, 256);
    DivTwice(n, 0x1_0000);
    assert n == 256 * a + n % 256;
    assert a == 256 * b + a % 256;
    assert b == 256 * (b / 256) + b % 256;
  }

  lemma DivTwice(n: nat, d: nat)
    requires d == 256 || d == 0x1_0000
    ensures n / d / 256 == n / (d * 256)
  {
    var q := n / d / 256;
    assert n == d * (n / d) + n % d && n / d == 256 * q + n / d % 256;
  }

  /** The most significant octet first, and the least significant one first. */
  lemma BigEndianSum(n: uint32)
    ensures var s := BigEndian32(n);
            n == 0x100_0000 * s[0] as int + 0x1_0000 * s[1] as int + 0x100 * s[2] as int + s[3] as int
  {
    CountOctetIs(n, 0);
    Base256(n);
    hide CountOctet;
  }

  lemma LittleEndianSum(n: uint32)
    ensures var s := LittleEndian32(n);
            n == s[0] as int + 0x100 * s[1] as int + 0x1_0000 * s[2] as int + 0x100_0000 * s[3] as int
  {
    CountOctetIs(n, 0);
    Base256(n);
    hide CountOctet;
  }

  /** Eight octets, in both orders: what a count of 64 bits is written as. */
  lemma BigEndianSums(hi: uint32, lo: uint32)
    ensures var s := BigEndian32(hi) + BigEndian32(lo);
            TWO_32 * hi + lo
            == TWO_32 * (0x100_0000 * s[0] as int + 0x1_0000 * s[1] as int + 0x100 * s[2] as int + s[3] as int)
               + (0x100_0000 * s[4] as int + 0x1_0000 * s[5] as int + 0x100 * s[6] as int + s[7] as int)
  {
    BigEndianSum(hi);
    BigEndianSum(lo);
    hide *;
  }

  lemma LittleEndianSums(hi: uint32, lo: uint32)
    ensures var s := LittleEndian32(lo) + LittleEndian32(hi);
            TWO_32 * hi + lo
            == (s[0] as int + 0x100 * s[1] as int + 0x1_0000 * s[2] as int + 0x100_0000 * s[3] as int)
               + TWO_32 * (s[4] as int + 0x100 * s[5] as int + 0x1_0000 * s[6] as int + 0x100_0000 * s[7] as int)
  {
    LittleEndianSum(hi);
    LittleEndianSum(lo);
    hide *;
  }

  /** The same for words, read from octets and written to them. */
  lemma BigEndianWordSum(s: seq<byte>, i: nat)
    requires 4 * i + 4 <= |s|
    ensures BigEndianWord(s, i) as int
            == 0x100_0000 * s[4 * i] as int + 0x1_0000 * s[4 * i + 1] as int + 0x100 * s[4 * i + 2] as int
               + s[4 * i + 3] as int
  {
    Joined(BigEndianWord(s, i), s[4 * i], s[4 * i + 1], s[4 * i + 2], s[4 * i + 3]);
  }

  lemma LittleEndianWordSum(s: seq<byte>, i: nat)
    requires 4 * i + 4 <= |s|
    ensures LittleEndianWord(s, i) as int
            == s[4 * i] as int + 0x100 * s[4 * i + 1] as int + 0x1_0000 * s[4 * i + 2] as int
               + 0x100_0000 * s[4 * i + 3] as int
  {
    Turned(s[4 * i], s[4 * i + 1], s[4 * i + 2], s[4 * i + 3]);
    Joined(LittleEndianWord(s, i), s[4 * i + 3], s[4 * i + 2], s[4 * i + 1], s[4 * i]);
  }

  lemma Joined(w: word, b0: byte, b1: byte, b2: byte, b3: byte)
    requires w == ((b0 as word) << 24) | ((b1 as word) << 16) | ((b2 as word) << 8) | (b3 as word)
    ensures w as int == 0x100_0000 * b0 as int + 0x1_0000 * b1 as int + 0x100 * b2 as int + b3 as int
  {
  }

  lemma Turned(b0: byte, b1: byte, b2: byte, b3: byte)
    ensures ((b3 as word) << 24) | ((b2 as word) << 16) | ((b1 as word) << 8) | (b0 as word)
            == (b0 as word) | ((b1 as word) << 8) | ((b2 as word) << 16) | ((b3 as word) << 24)
  {
  }

  lemma HighOctetSum(w: word)
    ensures var s := HighOctetFirst(w);
            w as int == s[3] as int + 0x100 * s[2] as int + 0x1_0000 * s[1] as int + 0x100_0000 * s[0] as int
  {
    hide *;
    LowOctetSum(w);
    OctetOrder(w);
  }

  lemma OctetOrder(w: word)
    ensures HighOctetFirst(w) == [WordOctet(w, 3), WordOctet(w, 2), WordOctet(w, 1), WordOctet(w, 0)]
    ensures LowOctetFirst(w) == [WordOctet(w, 0), WordOctet(w, 1), WordOctet(w, 2), WordOctet(w, 3)]
  {
    hide WordOctet;
  }

  lemma LowOctetSum(w: word)
    ensures var s := LowOctetFirst(w);
            w as int == s[0] as int + 0x100 * s[1] as int + 0x1_0000 * s[2] as int + 0x100_0000 * s[3] as int
  {
    hide *;
    OctetsSum(w);
    OctetOrder(w);
  }

  lemma OctetsSum(w: word)
    ensures w as int
            == WordOctet(w, 0) as int + 0x100 * WordOctet(w, 1) as int + 0x1_0000 * WordOctet(w, 2) as int
               + 0x100_0000 * WordOctet(w, 3) as int
  {
    hide *;
    WordFromOctets(w);
    Joined(w, WordOctet(w, 3), WordOctet(w, 2), WordOctet(w, 1), WordOctet(w, 0));
  }

  lemma WordFromOctets(w: word)
    ensures w == ((WordOctet(w, 3) as word) << 24) | ((WordOctet(w, 2) as word) << 16)
                 | ((WordOctet(w, 1) as word) << 8) | (WordOctet(w, 0) as word)
  {
    OctetZero(w);
    OctetOne(w);
    OctetTwo(w);
    OctetThree(w);
    hide WordOctet;
    OctetsJoin(w);
  }

  lemma OctetZero(w: word)
    ensures WordOctet(w, 0) == (w & 0xFF) as byte
  {
  }

  lemma OctetOne(w: word)
    ensures WordOctet(w, 1) == ((w >> 8) & 0xFF) as byte
  {
    var n: nat := 8 * 1;
    assert n == 8;
  }

  lemma OctetTwo(w: word)
    ensures WordOctet(w, 2) == ((w >> 16) & 0xFF) as byte
  {
    var n: nat := 8 * 2;
    assert n == 16;
  }

  lemma OctetThree(w: word)
    ensures WordOctet(w, 3) == ((w >> 24) & 0xFF) as byte
  {
    var n: nat := 8 * 3;
    assert n == 24;
  }

  lemma OctetsJoin(w: word)
    ensures w == ((((w >> 24) & 0xFF) as byte as word) << 24) | ((((w >> 16) & 0xFF) as byte as word) << 16)
                 | ((((w >> 8) & 0xFF) as byte as word) << 8) | ((w & 0xFF) as byte as word)
  {
  }
}
