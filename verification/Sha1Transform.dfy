/** sha1_transform: the unrolled compression function, with its 16-word schedule
    overwritten in place and register roles that rotate instead of register values. */
module Sha1Transform {
  import opened Octets
  import opened Sha1Standard

  /** memcpy of octets into uint32_t words on a machine of either byte order. */
  function LoadNative(s: seq<byte>, i: nat, littleEndian: bool): word
    requires 4 * i + 4 <= |s|
  {
    if littleEndian then LittleEndianWord(s, i) else BigEndianWord(s, i)
  }

  /** The circular schedule just before round t: the last sixteen schedule words that have
      been computed, and the words still as loaded. */
  ghost predicate Ring(ring: seq<word>, m: seq<byte>, t: nat, littleEndian: bool)
    requires |m| == 64
  {
    && |ring| == 16
    && (forall j: nat {:trigger W(m, j)} :: t - 16 <= j < t ==> ring[j % 16] == W(m, j))
    && (forall j: nat {:trigger ring[j]} :: t <= j < 16 ==> ring[j] == LoadNative(m, j, littleEndian))
  }

  lemma SwapIsBigEndian(b0: byte, b1: byte, b2: byte, b3: byte)
    ensures var x := (b0 as word) | ((b1 as word) << 8) | ((b2 as word) << 16) | ((b3 as word) << 24);
            (Rotl(x, 24) & 0xFF00FF00) | (Rotl(x, 8) & 0x00FF00FF)
            == ((b0 as word) << 24) | ((b1 as word) << 16) | ((b2 as word) << 8) | (b3 as word)
  {
  }

  /** The round functions as the macros R0 to R4 compute them. */
  function Choose(w: word, x: word, y: word): word {
    (w & (x ^ y)) ^ y
  }

  function Majority(w: word, x: word, y: word): word {
    ((w | x) & y) | (w & x)
  }

  lemma ChooseBits(w: word, x: word, y: word)
    ensures (w & (x ^ y)) ^ y == (w & x) | (!w & y)
  {
  }

  lemma MajorityBits(w: word, x: word, y: word)
    ensures ((w | x) & y) | (w & x) == (w & x) | (w & y) | (x & y)
  {
  }

  lemma ChooseIsCh(w: word, x: word, y: word)
    ensures Choose(w, x, y) == Ch(w, x, y)
  {
    ChooseBits(w, x, y);
  }

  lemma MajorityIsMaj(w: word, x: word, y: word)
    ensures Majority(w, x, y) == Maj(w, x, y)
  {
    MajorityBits(w, x, y);
  }

  /** The rewritten round functions are the standard's. */
  lemma RoundFunctions(t: nat, w: word, x: word, y: word)
    ensures t < 20 ==> Choose(w, x, y) == F(t, w, x, y)
    ensures 20 <= t < 40 || 60 <= t ==> Xor3(w, x, y) == F(t, w, x, y)
    ensures 40 <= t < 60 ==> Majority(w, x, y) == F(t, w, x, y)
  {
    hide Choose, Majority, Ch, Maj, Xor3;
    ChooseIsCh(w, x, y);
    MajorityIsMaj(w, x, y);
  }

  /** The byte swap of blk0. */
  function Swap(x: word): word {
    (Rotl(x, 24) & 0xFF00FF00) | (Rotl(x, 8) & 0x00FF00FF)
  }

  /** It makes the big-endian word of the little-endian one. */
  lemma Swapped(m: seq<byte>, i: nat)
    requires 4 * i + 4 <= |m|
    ensures Swap(LittleEndianWord(m, i)) == BigEndianWord(m, i)
  {
    SwapIsBigEndian(m[4 * i], m[4 * i + 1], m[4 * i + 2], m[4 * i + 3]);
  }

  /** A slot not reached yet holds its word as loaded. */
  lemma SlotLoaded(ring: seq<word>, m: seq<byte>, i: nat, littleEndian: bool)
    requires i < 16 && |m| == 64 && Ring(ring, m, i, littleEndian)
    ensures |ring| == 16 && ring[i] == LoadNative(m, i, littleEndian) && W(m, i) == BigEndianWord(m, i)
  {
    hide LoadNative, BigEndianWord;
  }

  /** Expanding it moves the window on by one round. */
  lemma RingExpands(ring: seq<word>, m: seq<byte>, i: nat, littleEndian: bool)
    requires i < 16 && |m| == 64 && Ring(ring, m, i, littleEndian)
    ensures Ring(ring[i := W(m, i)], m, i + 1, littleEndian)
  {
    hide LoadNative, W;
  }

  /** blk0: the first sixteen schedule words, byte-swapped in place where the machine needs it. */
  method Blk0(block: array<word>, i: nat, littleEndian: bool, ghost m: seq<byte>) returns (w: word)
    requires i < 16 && |m| == 64 && Ring(block[..], m, i, littleEndian)
    modifies block
    ensures w == W(m, i) && Ring(block[..], m, i + 1, littleEndian)
  {
    hide Ring, W, Swap, LittleEndianWord, BigEndianWord, Rotl;
    ghost var ring := block[..];
    SlotLoaded(ring, m, i, littleEndian);
    RingExpands(ring, m, i, littleEndian);
    Swapped(m, i);
    if littleEndian {
      block[i] := Swap(block[i]);
    }
    w := block[i];
    assert block[..] == ring[i := w];
  }

  lemma SlotBack(t: nat, d: nat)
    requires d <= 16 <= t
    ensures (t + (16 - d)) % 16 == (t - d) % 16
  {
    assert t + (16 - d) == t - d + 16;
  }

  /** Every slot blk(i) reads holds the schedule word the standard asks for. */
  lemma RingSlots(ring: seq<word>, m: seq<byte>, t: nat, littleEndian: bool)
    requires 16 <= t && |m| == 64 && Ring(ring, m, t, littleEndian)
    ensures ring[(t + 13) % 16] == W(m, t - 3) && ring[(t + 8) % 16] == W(m, t - 8)
    ensures ring[(t + 2) % 16] == W(m, t - 14) && ring[t % 16] == W(m, t - 16)
  {
    SlotBack(t, 3);
    SlotBack(t, 8);
    SlotBack(t, 14);
    SlotBack(t, 16);
    hide Ring, W;
    RingWord(ring, m, t, littleEndian, t - 3);
    RingWord(ring, m, t, littleEndian, t - 8);
    RingWord(ring, m, t, littleEndian, t - 14);
    RingWord(ring, m, t, littleEndian, t - 16);
  }

  lemma RingWord(ring: seq<word>, m: seq<byte>, t: nat, littleEndian: bool, j: nat)
    requires |m| == 64 && Ring(ring, m, t, littleEndian) && t - 16 <= j < t
    ensures |ring| == 16 && ring[j % 16] == W(m, j)
  {
    hide W, LoadNative;
  }

  lemma OtherSlot(j: nat, t: nat)
    requires t - 16 < j < t
    ensures j % 16 != t % 16
  {
  }

  /** Overwriting the oldest slot moves the window on by one round. */
  lemma RingAdvances(ring: seq<word>, m: seq<byte>, t: nat, littleEndian: bool)
    requires 16 <= t && |m| == 64 && Ring(ring, m, t, littleEndian)
    ensures Ring(ring[t % 16 := W(m, t)], m, t + 1, littleEndian)
  {
    hide W, LoadNative;
    var ring' := ring[t % 16 := W(m, t)];
    forall j: nat {:trigger W(m, j)} | t - 15 <= j < t + 1 ensures ring'[j % 16] == W(m, j) {
      if j < t {
        OtherSlot(j, t);
        RingWord(ring, m, t, littleEndian, j);
      }
    }
  }

  lemma NextWord(ring: seq<word>, m: seq<byte>, t: nat, littleEndian: bool)
    requires 16 <= t && |m| == 64 && Ring(ring, m, t, littleEndian)
    ensures W(m, t) == Rotl(Xor4(ring[(t + 13) % 16], ring[(t + 8) % 16], ring[(t + 2) % 16], ring[t % 16]), 1)
  {
    hide Ring, Xor4, Rotl;
    RingSlots(ring, m, t, littleEndian);
  }

  /** blk: every later schedule word, computed over the one it no longer needs. */
  method Blk(block: array<word>, i: nat, littleEndian: bool, ghost m: seq<byte>) returns (w: word)
    requires 16 <= i && |m| == 64 && Ring(block[..], m, i, littleEndian)
    modifies block
    ensures w == W(m, i) && Ring(block[..], m, i + 1, littleEndian)
  {
    NextWord(block[..], m, i, littleEndian);
    RingAdvances(block[..], m, i, littleEndian);
    RingSize(block[..], m, i, littleEndian);
    hide *;
    ghost var ring := block[..];
    w := Rotl(Xor4(block[(i + 13) % 16], block[(i + 8) % 16], block[(i + 2) % 16], block[i % 16]), 1);
    block[i % 16] := w;
    assert block[..] == ring[i % 16 := w];
  }

  lemma RingSize(ring: seq<word>, m: seq<byte>, t: nat, littleEndian: bool)
    requires |m| == 64 && Ring(ring, m, t, littleEndian)
    ensures |ring| == 16
  {
  }

  lemma SumReordered(z: word, f: word, next: word, k: word, r: word)
    ensures Plus(z, Plus(Plus(Plus(f, next), k), r)) == Plus(Plus(Plus(Plus(r, f), z), next), k)
  {
    hide Plus;
    PlusCommutes(Plus(Plus(f, next), k), r);
    PlusAssociates(r, Plus(f, next), k);
    PlusAssociates(r, f, next);
    PlusAssociates(z, Plus(Plus(r, f), next), k);
    PlusAssociates(z, Plus(r, f), next);
    PlusCommutes(z, Plus(r, f));
  }

  /** One macro call is one round of the standard, whatever the round function. */
  lemma RoundReordered(v: word, w: word, x: word, y: word, z: word, f: word, k: word, next: word, i: nat)
    requires f == F(i, w, x, y) && k == K(i)
    ensures Registers(Plus(z, Plus(Plus(Plus(f, next), k), Rotl(v, 5))), v, Rotl(w, 30), x, y)
            == Round(Registers(v, w, x, y, z), next, i)
  {
    hide Rotl, F, K, Plus;
    SumReordered(z, f, next, k, Rotl(v, 5));
  }

  lemma Constants(t: nat)
    ensures K(t) == if t < 20 then 0x5A827999 else if t < 40 then 0x6ED9EBA1
                    else if t < 60 then 0x8F1BBCDC else 0xCA62C1D6
  {
  }

  lemma NextRound(h: Registers, m: seq<byte>, n: nat)
    requires |m| == 64
    ensures Rounds(h, m, n + 1) == Round(Rounds(h, m, n), W(m, n), n)
  {
    hide Round, W;
  }

  method R0(block: array<word>, v: word, w: word, x: word, y: word, z: word, i: nat, littleEndian: bool,
            ghost m: seq<byte>, ghost h: Registers)
    returns (w': word, z': word)
    requires i < 16 && |m| == 64 && Ring(block[..], m, i, littleEndian)
    requires Registers(v, w, x, y, z) == Rounds(h, m, i)
    modifies block
    ensures Ring(block[..], m, i + 1, littleEndian)
    ensures Registers(z', v, w', x, y) == Rounds(h, m, i + 1)
  {
    hide *;
    var next := Blk0(block, i, littleEndian, m);
    z' := Plus(z, Plus(Plus(Plus(Choose(w, x, y), next), 0x5A827999), Rotl(v, 5)));
    w' := Rotl(w, 30);
    RoundFunctions(i, w, x, y);
    Constants(i);
    RoundReordered(v, w, x, y, z, Choose(w, x, y), 0x5A827999, next, i);
    NextRound(h, m, i);
  }

  method R1(block: array<word>, v: word, w: word, x: word, y: word, z: word, i: nat, littleEndian: bool,
            ghost m: seq<byte>, ghost h: Registers)
    returns (w': word, z': word)
    requires 16 <= i < 20 && |m| == 64 && Ring(block[..], m, i, littleEndian)
    requires Registers(v, w, x, y, z) == Rounds(h, m, i)
    modifies block
    ensures Ring(block[..], m, i + 1, littleEndian)
    ensures Registers(z', v, w', x, y) == Rounds(h, m, i + 1)
  {
    hide *;
    var next := Blk(block, i, littleEndian, m);
    z' := Plus(z, Plus(Plus(Plus(Choose(w, x, y), next), 0x5A827999), Rotl(v, 5)));
    w' := Rotl(w, 30);
    RoundFunctions(i, w, x, y);
    Constants(i);
    RoundReordered(v, w, x, y, z, Choose(w, x, y), 0x5A827999, next, i);
    NextRound(h, m, i);
  }

  method R2(block: array<word>, v: word, w: word, x: word, y: word, z: word, i: nat, littleEndian: bool,
            ghost m: seq<byte>, ghost h: Registers)
    returns (w': word, z': word)
    requires 20 <= i < 40 && |m| == 64 && Ring(block[..], m, i, littleEndian)
    requires Registers(v, w, x, y, z) == Rounds(h, m, i)
    modifies block
    ensures Ring(block[..], m, i + 1, littleEndian)
    ensures Registers(z', v, w', x, y) == Rounds(h, m, i + 1)
  {
    hide *;
    var next := Blk(block, i, littleEndian, m);
    z' := Plus(z, Plus(Plus(Plus(Xor3(w, x, y), next), 0x6ED9EBA1), Rotl(v, 5)));
    w' := Rotl(w, 30);
    RoundFunctions(i, w, x, y);
    Constants(i);
    RoundReordered(v, w, x, y, z, Xor3(w, x, y), 0x6ED9EBA1, next, i);
    NextRound(h, m, i);
  }

  method R3(block: array<word>, v: word, w: word, x: word, y: word, z: word, i: nat, littleEndian: bool,
            ghost m: seq<byte>, ghost h: Registers)
    returns (w': word, z': word)
    requires 40 <= i < 60 && |m| == 64 && Ring(block[..], m, i, littleEndian)
    requires Registers(v, w, x, y, z) == Rounds(h, m, i)
    modifies block
    ensures Ring(block[..], m, i + 1, littleEndian)
    ensures Registers(z', v, w', x, y) == Rounds(h, m, i + 1)
  {
    hide *;
    var next := Blk(block, i, littleEndian, m);
    z' := Plus(z, Plus(Plus(Plus(Majority(w, x, y), next), 0x8F1BBCDC), Rotl(v, 5)));
    w' := Rotl(w, 30);
    RoundFunctions(i, w, x, y);
    Constants(i);
    RoundReordered(v, w, x, y, z, Majority(w, x, y), 0x8F1BBCDC, next, i);
    NextRound(h, m, i);
  }

  method R4(block: array<word>, v: word, w: word, x: word, y: word, z: word, i: nat, littleEndian: bool,
            ghost m: seq<byte>, ghost h: Registers)
    returns (w': word, z': word)
    requires 60 <= i < 80 && |m| == 64 && Ring(block[..], m, i, littleEndian)
    requires Registers(v, w, x, y, z) == Rounds(h, m, i)
    modifies block
    ensures Ring(block[..], m, i + 1, littleEndian)
    ensures Registers(z', v, w', x, y) == Rounds(h, m, i + 1)
  {
    hide *;
    var next := Blk(block, i, littleEndian, m);
    z' := Plus(z, Plus(Plus(Plus(Xor3(w, x, y), next), 0xCA62C1D6), Rotl(v, 5)));
    w' := Rotl(w, 30);
    RoundFunctions(i, w, x, y);
    Constants(i);
    RoundReordered(v, w, x, y, z, Xor3(w, x, y), 0xCA62C1D6, next, i);
    NextRound(h, m, i);
  }

  /** Rounds 0 to 19, unrolled; after twenty rounds every register is back in its own role. */
  method Rounds0To19(block: array<word>, ra: word, rb: word, rc: word, rd: word, re: word, littleEndian: bool,
      ghost m: seq<byte>, ghost h: Registers)
    returns (a: word, b: word, c: word, d: word, e: word)
    requires |m| == 64 && Ring(block[..], m, 0, littleEndian)
    requires Registers(ra, rb, rc, rd, re) == Rounds(h, m, 0)
    modifies block
    ensures Ring(block[..], m, 20, littleEndian)
    ensures Registers(a, b, c, d, e) == Rounds(h, m, 20)
  {
    hide *;
    a, b, c, d, e := ra, rb, rc, rd, re;
    b, e := R0(block, a, b, c, d, e, 0, littleEndian, m, h);
    a, d := R0(block, e, a, b, c, d, 1, littleEndian, m, h);
    e, c := R0(block, d, e, a, b, c, 2, littleEndian, m, h);
    d, b := R0(block, c, d, e, a, b, 3, littleEndian, m, h);
    c, a := R0(block, b, c, d, e, a, 4, littleEndian, m, h);
    b, e := R0(block, a, b, c, d, e, 5, littleEndian, m, h);
    a, d := R0(block, e, a, b, c, d, 6, littleEndian, m, h);
    e, c := R0(block, d, e, a, b, c, 7, littleEndian, m, h);
    d, b := R0(block, c, d, e, a, b, 8, littleEndian, m, h);
    c, a := R0(block, b, c, d, e, a, 9, littleEndian, m, h);
    b, e := R0(block, a, b, c, d, e, 10, littleEndian, m, h);
    a, d := R0(block, e, a, b, c, d, 11, littleEndian, m, h);
    e, c := R0(block, d, e, a, b, c, 12, littleEndian, m, h);
    d, b := R0(block, c, d, e, a, b, 13, littleEndian, m, h);
    c, a := R0(block, b, c, d, e, a, 14, littleEndian, m, h);
    b, e := R0(block, a, b, c, d, e, 15, littleEndian, m, h);
    a, d := R1(block, e, a, b, c, d, 16, littleEndian, m, h);
    e, c := R1(block, d, e, a, b, c, 17, littleEndian, m, h);
    d, b := R1(block, c, d, e, a, b, 18, littleEndian, m, h);
    c, a := R1(block, b, c, d, e, a, 19, littleEndian, m, h);
  }

  /** Rounds 20 to 39, unrolled; after twenty rounds every register is back in its own role. */
  method Rounds20To39(block: array<word>, ra: word, rb: word, rc: word, rd: word, re: word, littleEndian: bool,
      ghost m: seq<byte>, ghost h: Registers)
    returns (a: word, b: word, c: word, d: word, e: word)
    requires |m| == 64 && Ring(block[..], m, 20, littleEndian)
    requires Registers(ra, rb, rc, rd, re) == Rounds(h, m, 20)
    modifies block
    ensures Ring(block[..], m, 40, littleEndian)
    ensures Registers(a, b, c, d, e) == Rounds(h, m, 40)
  {
    hide *;
    a, b, c, d, e := ra, rb, rc, rd, re;
    b, e := R2(block, a, b, c, d, e, 20, littleEndian, m, h);
    a, d := R2(block, e, a, b, c, d, 21, littleEndian, m, h);
    e, c := R2(block, d, e, a, b, c, 22, littleEndian, m, h);
    d, b := R2(block, c, d, e, a, b, 23, littleEndian, m, h);
    c, a := R2(block, b, c, d, e, a, 24, littleEndian, m, h);
    b, e := R2(block, a, b, c, d, e, 25, littleEndian, m, h);
    a, d := R2(block, e, a, b, c, d, 26, littleEndian, m, h);
    e, c := R2(block, d, e, a, b, c, 27, littleEndian, m, h);
    d, b := R2(block, c, d, e, a, b, 28, littleEndian, m, h);
    c, a := R2(block, b, c, d, e, a, 29, littleEndian, m, h);
    b, e := R2(block, a, b, c, d, e, 30, littleEndian, m, h);
    a, d := R2(block, e, a, b, c, d, 31, littleEndian, m, h);
    e, c := R2(block, d, e, a, b, c, 32, littleEndian, m, h);
    d, b := R2(block, c, d, e, a, b, 33, littleEndian, m, h);
    c, a := R2(block, b, c, d, e, a, 34, littleEndian, m, h);
    b, e := R2(block, a, b, c, d, e, 35, littleEndian, m, h);
    a, d := R2(block, e, a, b, c, d, 36, littleEndian, m, h);
    e, c := R2(block, d, e, a, b, c, 37, littleEndian, m, h);
    d, b := R2(block, c, d, e, a, b, 38, littleEndian, m, h);
    c, a := R2(block, b, c, d, e, a, 39, littleEndian, m, h);
  }

  /** Rounds 40 to 59, unrolled; after twenty rounds every register is back in its own role. */
  method Rounds40To59(block: array<word>, ra: word, rb: word, rc: word, rd: word, re: word, littleEndian: bool,
      ghost m: seq<byte>, ghost h: Registers)
    returns (a: word, b: word, c: word, d: word, e: word)
    requires |m| == 64 && Ring(block[..], m, 40, littleEndian)
    requires Registers(ra, rb, rc, rd, re) == Rounds(h, m, 40)
    modifies block
    ensures Ring(block[..], m, 60, littleEndian)
    ensures Registers(a, b, c, d, e) == Rounds(h, m, 60)
  {
    hide *;
    a, b, c, d, e := ra, rb, rc, rd, re;
    b, e := R3(block, a, b, c, d, e, 40, littleEndian, m, h);
    a, d := R3(block, e, a, b, c, d, 41, littleEndian, m, h);
    e, c := R3(block, d, e, a, b, c, 42, littleEndian, m, h);
    d, b := R3(block, c, d, e, a, b, 43, littleEndian, m, h);
    c, a := R3(block, b, c, d, e, a, 44, littleEndian, m, h);
    b, e := R3(block, a, b, c, d, e, 45, littleEndian, m, h);
    a, d := R3(block, e, a, b, c, d, 46, littleEndian, m, h);
    e, c := R3(block, d, e, a, b, c, 47, littleEndian, m, h);
    d, b := R3(block, c, d, e, a, b, 48, littleEndian, m, h);
    c, a := R3(block, b, c, d, e, a, 49, littleEndian, m, h);
    b, e := R3(block, a, b, c, d, e, 50, littleEndian, m, h);
    a, d := R3(block, e, a, b, c, d, 51, littleEndian, m, h);
    e, c := R3(block, d, e, a, b, c, 52, littleEndian, m, h);
    d, b := R3(block, c, d, e, a, b, 53, littleEndian, m, h);
    c, a := R3(block, b, c, d, e, a, 54, littleEndian, m, h);
    b, e := R3(block, a, b, c, d, e, 55, littleEndian, m, h);
    a, d := R3(block, e, a, b, c, d, 56, littleEndian, m, h);
    e, c := R3(block, d, e, a, b, c, 57, littleEndian, m, h);
    d, b := R3(block, c, d, e, a, b, 58, littleEndian, m, h);
    c, a := R3(block, b, c, d, e, a, 59, littleEndian, m, h);
  }

  /** Rounds 60 to 79, unrolled; after twenty rounds every register is back in its own role. */
  method Rounds60To79(block: array<word>, ra: word, rb: word, rc: word, rd: word, re: word, littleEndian: bool,
      ghost m: seq<byte>, ghost h: Registers)
    returns (a: word, b: word, c: word, d: word, e: word)
    requires |m| == 64 && Ring(block[..], m, 60, littleEndian)
    requires Registers(ra, rb, rc, rd, re) == Rounds(h, m, 60)
    modifies block
    ensures Ring(block[..], m, 80, littleEndian)
    ensures Registers(a, b, c, d, e) == Rounds(h, m, 80)
  {
    hide *;
    a, b, c, d, e := ra, rb, rc, rd, re;
    b, e := R4(block, a, b, c, d, e, 60, littleEndian, m, h);
    a, d := R4(block, e, a, b, c, d, 61, littleEndian, m, h);
    e, c := R4(block, d, e, a, b, c, 62, littleEndian, m, h);
    d, b := R4(block, c, d, e, a, b, 63, littleEndian, m, h);
    c, a := R4(block, b, c, d, e, a, 64, littleEndian, m, h);
    b, e := R4(block, a, b, c, d, e, 65, littleEndian, m, h);
    a, d := R4(block, e, a, b, c, d, 66, littleEndian, m, h);
    e, c := R4(block, d, e, a, b, c, 67, littleEndian, m, h);
    d, b := R4(block, c, d, e, a, b, 68, littleEndian, m, h);
    c, a := R4(block, b, c, d, e, a, 69, littleEndian, m, h);
    b, e := R4(block, a, b, c, d, e, 70, littleEndian, m, h);
    a, d := R4(block, e, a, b, c, d, 71, littleEndian, m, h);
    e, c := R4(block, d, e, a, b, c, 72, littleEndian, m, h);
    d, b := R4(block, c, d, e, a, b, 73, littleEndian, m, h);
    c, a := R4(block, b, c, d, e, a, 74, littleEndian, m, h);
    b, e := R4(block, a, b, c, d, e, 75, littleEndian, m, h);
    a, d := R4(block, e, a, b, c, d, 76, littleEndian, m, h);
    e, c := R4(block, d, e, a, b, c, 77, littleEndian, m, h);
    d, b := R4(block, c, d, e, a, b, 78, littleEndian, m, h);
    c, a := R4(block, b, c, d, e, a, 79, littleEndian, m, h);
  }

  lemma RingLoaded(ring: seq<word>, m: seq<byte>, littleEndian: bool)
    requires |m| == 64 && |ring| == 16
    requires forall j: nat :: j < 16 ==> ring[j] == LoadNative(m, j, littleEndian)
    ensures Ring(ring, m, 0, littleEndian)
  {
    hide W, LoadNative;
  }

  lemma NoRounds(h: Registers, m: seq<byte>)
    requires |m| == 64
    ensures Rounds(h, m, 0) == h
  {
  }

  lemma CompressIs(h: Registers, m: seq<byte>, r: Registers)
    requires |m| == 64 && r == Rounds(h, m, 80)
    ensures Compress(h, m) == Registers(Plus(h.a, r.a), Plus(h.b, r.b), Plus(h.c, r.c), Plus(h.d, r.d), Plus(h.e, r.e))
  {
    hide Rounds, Plus;
  }

  /** Hash a single 512-bit block: for every state and block, on a machine of either byte
      order, the result is the standard's compression function. */
  method Transform(state: Registers, buffer: seq<byte>, littleEndian: bool) returns (state': Registers)
    requires |buffer| == 64
    ensures state' == Compress(state, buffer)
  {
    var block := new word[16](i requires 0 <= i < 16 => LoadNative(buffer, i, littleEndian));
    RingLoaded(block[..], buffer, littleEndian);
    NoRounds(state, buffer);
    hide *;
    var a, b, c, d, e := state.a, state.b, state.c, state.d, state.e;
    a, b, c, d, e := Rounds0To19(block, a, b, c, d, e, littleEndian, buffer, state);
    a, b, c, d, e := Rounds20To39(block, a, b, c, d, e, littleEndian, buffer, state);
    a, b, c, d, e := Rounds40To59(block, a, b, c, d, e, littleEndian, buffer, state);
    a, b, c, d, e := Rounds60To79(block, a, b, c, d, e, littleEndian, buffer, state);
    state' := Registers(Plus(state.a, a), Plus(state.b, b), Plus(state.c, c), Plus(state.d, d), Plus(state.e, e));
    CompressIs(state, buffer, Registers(a, b, c, d, e));
  }
}
