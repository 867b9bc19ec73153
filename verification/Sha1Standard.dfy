/** The compression function of FIPS PUB 180-1 (sections 5 to 7), written as the standard writes it:
    an 80-word message schedule and five registers that shift by one position each round. */
module Sha1Standard {
  import opened Octets

  datatype Registers = Registers(a: word, b: word, c: word, d: word, e: word)

  /** Section 7: the initial hash value. */
  const INITIAL := Registers(0x67452301, 0xEFCDAB89, 0x98BADCFE, 0x10325476, 0xC3D2E1F0)

  /** Section 5: the logical functions. */
  function Ch(b: word, c: word, d: word): word {
    (b & c) | (!b & d)
  }

  function Xor3(b: word, c: word, d: word): word {
    b ^ c ^ d
  }

  function Maj(b: word, c: word, d: word): word {
    (b & c) | (b & d) | (c & d)
  }

  function Xor4(x: word, y: word, z: word, u: word): word {
    x ^ y ^ z ^ u
  }

  function F(t: nat, b: word, c: word, d: word): word {
    if t < 20 then Ch(b, c, d)
    else if t < 40 then Xor3(b, c, d)
    else if t < 60 then Maj(b, c, d)
    else Xor3(b, c, d)
  }

  /** Section 6: the constants. */
  function K(t: nat): word {
    if t < 20 then 0x5A827999
    else if t < 40 then 0x6ED9EBA1
    else if t < 60 then 0x8F1BBCDC
    else 0xCA62C1D6
  }

  /** Section 7, steps a and b: the message schedule. */
  function W(block: seq<byte>, t: nat): word
    requires |block| == 64
  {
    if t < 16 then BigEndianWord(block, t)
    else Rotl(Xor4(W(block, t - 3), W(block, t - 8), W(block, t - 14), W(block, t - 16)), 1)
  }

  /** Section 7, step d: one round. */
  function Round(r: Registers, w: word, t: nat): Registers {
    var temp := Plus(Plus(Plus(Plus(Rotl(r.a, 5), F(t, r.b, r.c, r.d)), r.e), w), K(t));
    Registers(temp, r.a, Rotl(r.b, 30), r.c, r.d)
  }

  /** The registers after the first n rounds. */
  function Rounds(h: Registers, block: seq<byte>, n: nat): Registers
    requires |block| == 64
  {
    if n == 0 then h else Round(Rounds(h, block, n - 1), W(block, n - 1), n - 1)
  }

  function AddRegisters(h: Registers, r: Registers): Registers {
    Registers(Plus(h.a, r.a), Plus(h.b, r.b), Plus(h.c, r.c), Plus(h.d, r.d), Plus(h.e, r.e))
  }

  /** Section 7, steps c to e: the whole treatment of one 64-octet block. */
  function Compress(h: Registers, block: seq<byte>): Registers
    requires |block| == 64
  {
    AddRegisters(h, Rounds(h, block, 80))
  }
}
