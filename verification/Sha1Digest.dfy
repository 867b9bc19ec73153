/** SHA-1 of a whole message, as FIPS PUB 180-1 defines it (sections 4 and 7). */
module Sha1Digest {
  import opened Octets
  import opened Blocks
  import OctetLaws
  import opened Sha1Standard

  /** Section 7: the compression function folded over whole blocks. */
  function Fold(h: Registers, blocks: seq<byte>): Registers
    requires |blocks| % 64 == 0
  {
    if blocks == [] then h
    else Compress(Fold(h, blocks[..|blocks| - 64]), blocks[|blocks| - 64..])
  }

  /** A 64-bit count, most significant octet first. */
  function BigEndian64(n: nat): (s: seq<byte>)
    requires n < TWO_64
    ensures |s| == 8
  {
    var hi, lo := n / TWO_32, n % TWO_32;
    BigEndian32(hi) + BigEndian32(lo)
  }

  /** Section 4: the padding of a message of that many octets, with the given bit count at its end. */
  function Padding(length: nat, bits: nat): (p: seq<byte>)
    requires bits < TWO_64
    ensures (length + |p|) % 64 == 0
  {
    [0x80] + Zeros(ZeroCount(length)) + BigEndian64(bits)
  }

  lemma CountSum(bits: nat)
    requires bits < TWO_64
    ensures var s := BigEndian64(bits);
            bits == TWO_32 * (0x100_0000 * s[0] as int + 0x1_0000 * s[1] as int + 0x100 * s[2] as int + s[3] as int)
                    + (0x100_0000 * s[4] as int + 0x1_0000 * s[5] as int + 0x100 * s[6] as int + s[7] as int)
  {
    OctetLaws.BigEndianSums(bits / TWO_32, bits % TWO_32);
    hide BigEndian32;
    assert bits == TWO_32 * (bits / TWO_32) + bits % TWO_32;
  }

  /** What the padding is, octet by octet: a one bit, as few zeros as will do, and the count as a number of
      eight octets, the most significant one first. */
  lemma PaddingIs(length: nat, bits: nat)
    requires bits < TWO_64
    ensures var p := Padding(length, bits);
            9 <= |p| <= 72 && (length + |p|) % 64 == 0 && p[0] == 0x80 && forall k :: 0 < k < |p| - 8 ==> p[k] == 0
    ensures var s := Padding(length, bits)[|Padding(length, bits)| - 8..];
            bits == TWO_32 * (0x100_0000 * s[0] as int + 0x1_0000 * s[1] as int + 0x100 * s[2] as int + s[3] as int)
                    + (0x100_0000 * s[4] as int + 0x1_0000 * s[5] as int + 0x100 * s[6] as int + s[7] as int)
  {
    PaddingShape(length, bits);
    CountSum(bits);
    hide *;
  }

  lemma PaddingShape(length: nat, bits: nat)
    requires bits < TWO_64
    ensures var p := Padding(length, bits);
            && 9 <= |p| <= 72 && (length + |p|) % 64 == 0 && p[0] == 0x80
            && (forall k :: 0 < k < |p| - 8 ==> p[k] == 0)
            && p[|p| - 8..] == BigEndian64(bits)
  {
    hide BigEndian64;
  }

  /** Section 7: the message digest is the five words in order. */
  function DigestOctets(h: Registers): (s: seq<byte>)
    ensures |s| == 20
  {
    HighOctetFirst(h.a) + HighOctetFirst(h.b) + HighOctetFirst(h.c) + HighOctetFirst(h.d) + HighOctetFirst(h.e)
  }

  /** The digest of a message whose padding records the given bit count. */
  function DigestWithCount(message: seq<byte>, bits: nat): (s: seq<byte>)
    requires bits < TWO_64
    ensures |s| == 20
  {
    DigestOctets(Fold(INITIAL, message + Padding(|message|, bits)))
  }

  /** SHA-1. The standard defines it for fewer than 2^64 bits; beyond that the count wraps. */
  function Sha1(message: seq<byte>): (s: seq<byte>)
    ensures |s| == 20
  {
    DigestWithCount(message, 8 * |message| % TWO_64)
  }

  lemma FoldOneMore(h: Registers, m: seq<byte>, k: nat)
    requires k % 64 == 0 && k + 64 <= |m|
    ensures Fold(h, m[..k + 64]) == Compress(Fold(h, m[..k]), m[k..k + 64])
  {
    hide Compress;
    assert m[..k + 64][..k] == m[..k] && m[..k + 64][k..] == m[k..k + 64];
  }
}
