/** body of md5.c: 64 unrolled steps per block, register roles rotating, block words either
    loaded straight from the data or stored once and read back. */
module Md5Body {
  import opened Octets
  import opened Md5Standard

  /** The macros F and G, rewritten for machines without an and-not instruction. */
  function FastF(x: word, y: word, z: word): word {
    z ^ (x & (y ^ z))
  }

  function FastG(x: word, y: word, z: word): word {
    y ^ (z & (x ^ y))
  }

  lemma FBits(x: word, y: word, z: word)
    ensures z ^ (x & (y ^ z)) == (x & y) | (!x & z)
  {
  }

  lemma GBits(x: word, y: word, z: word)
    ensures y ^ (z & (x ^ y)) == (x & z) | (y & !z)
  {
  }

  lemma FastFIsF(x: word, y: word, z: word)
    ensures FastF(x, y, z) == F(x, y, z)
  {
    FBits(x, y, z);
  }

  lemma FastGIsG(x: word, y: word, z: word)
    ensures FastG(x, y, z) == G(x, y, z)
  {
    GBits(x, y, z);
  }

  /** STEP: the new value of its first register, for a round function already applied. */
  function NewRegister(a: word, b: word, f: word, x: word, t: word, s: nat): word
    requires 0 < s < 32
  {
    Plus(Rotl(Plus(a, Plus(Plus(f, x), t)), s), b)
  }

  /** Row i of the standard's table: word n of the block, constant t, rotation s. */
  ghost predicate Row(i: nat, n: nat, t: word, s: nat) {
    i < 64 && n < 16 && 0 < s < 32 && Index(i) == n && T(i) == t && Shift(i) == s
  }

  /** One macro call is one step of the standard. */
  lemma OneStep(h: Registers, m: seq<byte>, i: nat, r: Registers, f: word, x: word, t: word, s: nat)
    requires |m| == 64 && i < 64 && r == Steps(h, m, i)
    requires f == Auxiliary(i, r.b, r.c, r.d) && x == LittleEndianWord(m, Index(i)) && t == T(i) && s == Shift(i)
    ensures Registers(r.d, NewRegister(r.a, r.b, f, x, t, s), r.b, r.c) == Steps(h, m, i + 1)
  {
    hide Plus, Rotl, Auxiliary, T, Shift, LittleEndianWord, Index;
    PlusAssociates(f, x, t);
    PlusAssociates(r.a, f, Plus(x, t));
    PlusAssociates(Plus(r.a, f), x, t);
    PlusCommutes(Rotl(Plus(r.a, Plus(Plus(f, x), t)), s), r.b);
  }

  method StepF(a: word, b: word, c: word, d: word, x: word, t: word, s: nat,
      ghost n: nat, ghost i: nat, ghost m: seq<byte>, ghost h: Registers)
    returns (a': word)
    requires |m| == 64 && 0 <= i < 16 && Registers(a, b, c, d) == Steps(h, m, i)
    requires Row(i, n, t, s) && x == LittleEndianWord(m, n)
    ensures Registers(d, a', b, c) == Steps(h, m, i + 1)
  {
    hide Plus, Rotl, T, Index, Shift, LittleEndianWord, Steps, NewRegister, FastF, FastG, F, G, H, I;
    FastFIsF(b, c, d);
    a' := NewRegister(a, b, FastF(b, c, d), x, t, s);
    OneStep(h, m, i, Registers(a, b, c, d), FastF(b, c, d), x, t, s);
  }

  method StepG(a: word, b: word, c: word, d: word, x: word, t: word, s: nat,
      ghost n: nat, ghost i: nat, ghost m: seq<byte>, ghost h: Registers)
    returns (a': word)
    requires |m| == 64 && 16 <= i < 32 && Registers(a, b, c, d) == Steps(h, m, i)
    requires Row(i, n, t, s) && x == LittleEndianWord(m, n)
    ensures Registers(d, a', b, c) == Steps(h, m, i + 1)
  {
    hide Plus, Rotl, T, Index, Shift, LittleEndianWord, Steps, NewRegister, FastF, FastG, F, G, H, I;
    FastGIsG(b, c, d);
    a' := NewRegister(a, b, FastG(b, c, d), x, t, s);
    OneStep(h, m, i, Registers(a, b, c, d), FastG(b, c, d), x, t, s);
  }

  method StepH(a: word, b: word, c: word, d: word, x: word, t: word, s: nat,
      ghost n: nat, ghost i: nat, ghost m: seq<byte>, ghost h: Registers)
    returns (a': word)
    requires |m| == 64 && 32 <= i < 48 && Registers(a, b, c, d) == Steps(h, m, i)
    requires Row(i, n, t, s) && x == LittleEndianWord(m, n)
    ensures Registers(d, a', b, c) == Steps(h, m, i + 1)
  {
    hide Plus, Rotl, T, Index, Shift, LittleEndianWord, Steps, NewRegister, FastF, FastG, F, G, H, I;
    a' := NewRegister(a, b, H(b, c, d), x, t, s);
    OneStep(h, m, i, Registers(a, b, c, d), H(b, c, d), x, t, s);
  }

  method StepI(a: word, b: word, c: word, d: word, x: word, t: word, s: nat,
      ghost n: nat, ghost i: nat, ghost m: seq<byte>, ghost h: Registers)
    returns (a': word)
    requires |m| == 64 && 48 <= i < 64 && Registers(a, b, c, d) == Steps(h, m, i)
    requires Row(i, n, t, s) && x == LittleEndianWord(m, n)
    ensures Registers(d, a', b, c) == Steps(h, m, i + 1)
  {
    hide Plus, Rotl, T, Index, Shift, LittleEndianWord, Steps, NewRegister, FastF, FastG, F, G, H, I;
    a' := NewRegister(a, b, I(b, c, d), x, t, s);
    OneStep(h, m, i, Registers(a, b, c, d), I(b, c, d), x, t, s);
  }

  /** The macros SET and GET. direct is true where the machine may load words from the data
      itself; elsewhere SET stores each word and GET reads it back. */
  method Set(block: array<word>, ptr: seq<byte>, n: nat, direct: bool) returns (x: word)
    requires block.Length == 16 && |ptr| == 64 && n < 16 && Cached(block[..], ptr, n, direct)
    modifies block
    ensures x == LittleEndianWord(ptr, n) && Cached(block[..], ptr, n + 1, direct)
  {
    hide LittleEndianWord;
    x := LittleEndianWord(ptr, n);
    if !direct {
      block[n] := x;
    }
  }

  ghost predicate Cached(block: seq<word>, ptr: seq<byte>, n: nat, direct: bool)
    requires |block| == 16 && |ptr| == 64 && n <= 16
  {
    !direct ==> forall k: nat {:trigger block[k]} :: k < n ==> block[k] == LittleEndianWord(ptr, k)
  }

  function Get(block: array<word>, ptr: seq<byte>, n: nat, direct: bool): (x: word)
    requires block.Length == 16 && |ptr| == 64 && n < 16 && Cached(block[..], ptr, 16, direct)
    reads block
    ensures x == LittleEndianWord(ptr, n)
  {
    if direct then LittleEndianWord(ptr, n) else block[n]
  }

  /** STEP(F, a, b, c, d, SET(n), t, s). */
  method StepSetF(block: array<word>, a: word, b: word, c: word, d: word, n: nat, t: word, s: nat,
      ghost i: nat, ptr: seq<byte>, direct: bool, ghost h: Registers)
    returns (a': word)
    requires block.Length == 16 && |ptr| == 64 && i < 16 && Row(i, n, t, s) && n == i
    requires Cached(block[..], ptr, n, direct) && Registers(a, b, c, d) == Steps(h, ptr, i)
    modifies block
    ensures Cached(block[..], ptr, n + 1, direct) && Registers(d, a', b, c) == Steps(h, ptr, i + 1)
  {
    hide Steps, Cached, LittleEndianWord, Row;
    var x := Set(block, ptr, n, direct);
    a' := StepF(a, b, c, d, x, t, s, n, i, ptr, h);
  }

  /** The constants of round 1 are the standard's. */
  lemma Rows1First()
    ensures Row(0, 0, 0xd76aa478, 7)
    ensures Row(1, 1, 0xe8c7b756, 12)
    ensures Row(2, 2, 0x242070db, 17)
    ensures Row(3, 3, 0xc1bdceee, 22)
    ensures Row(4, 4, 0xf57c0faf, 7)
    ensures Row(5, 5, 0x4787c62a, 12)
    ensures Row(6, 6, 0xa8304613, 17)
    ensures Row(7, 7, 0xfd469501, 22)
  {
  }

  lemma Rows1Last()
    ensures Row(8, 8, 0x698098d8, 7)
    ensures Row(9, 9, 0x8b44f7af, 12)
    ensures Row(10, 10, 0xffff5bb1, 17)
    ensures Row(11, 11, 0x895cd7be, 22)
    ensures Row(12, 12, 0x6b901122, 7)
    ensures Row(13, 13, 0xfd987193, 12)
    ensures Row(14, 14, 0xa679438e, 17)
    ensures Row(15, 15, 0x49b40821, 22)
  {
  }

  method Round1First(block: array<word>, ptr: seq<byte>, direct: bool, ra: word, rb: word, rc: word, rd: word,
      ghost h: Registers)
    returns (a: word, b: word, c: word, d: word)
    requires block.Length == 16 && |ptr| == 64 && Registers(ra, rb, rc, rd) == Steps(h, ptr, 0)
    modifies block
    ensures Cached(block[..], ptr, 8, direct) && Registers(a, b, c, d) == Steps(h, ptr, 8)
  {
    NothingCached(block[..], ptr, direct);
    Rows1First();
    hide *;
    a, b, c, d := ra, rb, rc, rd;
    a := StepSetF(block, a, b, c, d, 0, 0xd76aa478, 7, 0, ptr, direct, h);
    d := StepSetF(block, d, a, b, c, 1, 0xe8c7b756, 12, 1, ptr, direct, h);
    c := StepSetF(block, c, d, a, b, 2, 0x242070db, 17, 2, ptr, direct, h);
    b := StepSetF(block, b, c, d, a, 3, 0xc1bdceee, 22, 3, ptr, direct, h);
    a := StepSetF(block, a, b, c, d, 4, 0xf57c0faf, 7, 4, ptr, direct, h);
    d := StepSetF(block, d, a, b, c, 5, 0x4787c62a, 12, 5, ptr, direct, h);
    c := StepSetF(block, c, d, a, b, 6, 0xa8304613, 17, 6, ptr, direct, h);
    b := StepSetF(block, b, c, d, a, 7, 0xfd469501, 22, 7, ptr, direct, h);
  }

  method Round1Last(block: array<word>, ptr: seq<byte>, direct: bool, ra: word, rb: word, rc: word, rd: word,
      ghost h: Registers)
    returns (a: word, b: word, c: word, d: word)
    requires block.Length == 16 && |ptr| == 64 && Registers(ra, rb, rc, rd) == Steps(h, ptr, 8)
    requires Cached(block[..], ptr, 8, direct)
    modifies block
    ensures Cached(block[..], ptr, 16, direct) && Registers(a, b, c, d) == Steps(h, ptr, 16)
  {
    Rows1Last();
    hide *;
    a, b, c, d := ra, rb, rc, rd;
    a := StepSetF(block, a, b, c, d, 8, 0x698098d8, 7, 8, ptr, direct, h);
    d := StepSetF(block, d, a, b, c, 9, 0x8b44f7af, 12, 9, ptr, direct, h);
    c := StepSetF(block, c, d, a, b, 10, 0xffff5bb1, 17, 10, ptr, direct, h);
    b := StepSetF(block, b, c, d, a, 11, 0x895cd7be, 22, 11, ptr, direct, h);
    a := StepSetF(block, a, b, c, d, 12, 0x6b901122, 7, 12, ptr, direct, h);
    d := StepSetF(block, d, a, b, c, 13, 0xfd987193, 12, 13, ptr, direct, h);
    c := StepSetF(block, c, d, a, b, 14, 0xa679438e, 17, 14, ptr, direct, h);
    b := StepSetF(block, b, c, d, a, 15, 0x49b40821, 22, 15, ptr, direct, h);
  }

  /** The constants of round 2 are the standard's. */
  lemma Rows2First()
    ensures Row(16, 1, 0xf61e2562, 5)
    ensures Row(17, 6, 0xc040b340, 9)
    ensures Row(18, 11, 0x265e5a51, 14)
    ensures Row(19, 0, 0xe9b6c7aa, 20)
    ensures Row(20, 5, 0xd62f105d, 5)
    ensures Row(21, 10, 0x02441453, 9)
    ensures Row(22, 15, 0xd8a1e681, 14)
    ensures Row(23, 4, 0xe7d3fbc8, 20)
  {
  }

  lemma Rows2Last()
    ensures Row(24, 9, 0x21e1cde6, 5)
    ensures Row(25, 14, 0xc33707d6, 9)
    ensures Row(26, 3, 0xf4d50d87, 14)
    ensures Row(27, 8, 0x455a14ed, 20)
    ensures Row(28, 13, 0xa9e3e905, 5)
    ensures Row(29, 2, 0xfcefa3f8, 9)
    ensures Row(30, 7, 0x676f02d9, 14)
    ensures Row(31, 12, 0x8d2a4c8a, 20)
  {
  }

  method Round2(block: array<word>, ptr: seq<byte>, direct: bool, ra: word, rb: word, rc: word, rd: word,
      ghost h: Registers)
    returns (a: word, b: word, c: word, d: word)
    requires block.Length == 16 && |ptr| == 64 && Registers(ra, rb, rc, rd) == Steps(h, ptr, 16)
    requires Cached(block[..], ptr, 16, direct)
    ensures Registers(a, b, c, d) == Steps(h, ptr, 32)
  {
    Rows2First();
    Rows2Last();
    hide *;
    a, b, c, d := ra, rb, rc, rd;
    a := StepG(a, b, c, d, Get(block, ptr, 1, direct), 0xf61e2562, 5, 1, 16, ptr, h);
    d := StepG(d, a, b, c, Get(block, ptr, 6, direct), 0xc040b340, 9, 6, 17, ptr, h);
    c := StepG(c, d, a, b, Get(block, ptr, 11, direct), 0x265e5a51, 14, 11, 18, ptr, h);
    b := StepG(b, c, d, a, Get(block, ptr, 0, direct), 0xe9b6c7aa, 20, 0, 19, ptr, h);
    a := StepG(a, b, c, d, Get(block, ptr, 5, direct), 0xd62f105d, 5, 5, 20, ptr, h);
    d := StepG(d, a, b, c, Get(block, ptr, 10, direct), 0x02441453, 9, 10, 21, ptr, h);
    c := StepG(c, d, a, b, Get(block, ptr, 15, direct), 0xd8a1e681, 14, 15, 22, ptr, h);
    b := StepG(b, c, d, a, Get(block, ptr, 4, direct), 0xe7d3fbc8, 20, 4, 23, ptr, h);
    a := StepG(a, b, c, d, Get(block, ptr, 9, direct), 0x21e1cde6, 5, 9, 24, ptr, h);
    d := StepG(d, a, b, c, Get(block, ptr, 14, direct), 0xc33707d6, 9, 14, 25, ptr, h);
    c := StepG(c, d, a, b, Get(block, ptr, 3, direct), 0xf4d50d87, 14, 3, 26, ptr, h);
    b := StepG(b, c, d, a, Get(block, ptr, 8, direct), 0x455a14ed, 20, 8, 27, ptr, h);
    a := StepG(a, b, c, d, Get(block, ptr, 13, direct), 0xa9e3e905, 5, 13, 28, ptr, h);
    d := StepG(d, a, b, c, Get(block, ptr, 2, direct), 0xfcefa3f8, 9, 2, 29, ptr, h);
    c := StepG(c, d, a, b, Get(block, ptr, 7, direct), 0x676f02d9, 14, 7, 30, ptr, h);
    b := StepG(b, c, d, a, Get(block, ptr, 12, direct), 0x8d2a4c8a, 20, 12, 31, ptr, h);
  }

  /** The constants of round 3 are the standard's. */
  lemma Rows3First()
    ensures Row(32, 5, 0xfffa3942, 4)
    ensures Row(33, 8, 0x8771f681, 11)
    ensures Row(34, 11, 0x6d9d6122, 16)
    ensures Row(35, 14, 0xfde5380c, 23)
    ensures Row(36, 1, 0xa4beea44, 4)
    ensures Row(37, 4, 0x4bdecfa9, 11)
    ensures Row(38, 7, 0xf6bb4b60, 16)
    ensures Row(39, 10, 0xbebfbc70, 23)
  {
  }

  lemma Rows3Last()
    ensures Row(40, 13, 0x289b7ec6, 4)
    ensures Row(41, 0, 0xeaa127fa, 11)
    ensures Row(42, 3, 0xd4ef3085, 16)
    ensures Row(43, 6, 0x04881d05, 23)
    ensures Row(44, 9, 0xd9d4d039, 4)
    ensures Row(45, 12, 0xe6db99e5, 11)
    ensures Row(46, 15, 0x1fa27cf8, 16)
    ensures Row(47, 2, 0xc4ac5665, 23)
  {
  }

  method Round3(block: array<word>, ptr: seq<byte>, direct: bool, ra: word, rb: word, rc: word, rd: word,
      ghost h: Registers)
    returns (a: word, b: word, c: word, d: word)
    requires block.Length == 16 && |ptr| == 64 && Registers(ra, rb, rc, rd) == Steps(h, ptr, 32)
    requires Cached(block[..], ptr, 16, direct)
    ensures Registers(a, b, c, d) == Steps(h, ptr, 48)
  {
    Rows3First();
    Rows3Last();
    hide *;
    a, b, c, d := ra, rb, rc, rd;
    a := StepH(a, b, c, d, Get(block, ptr, 5, direct), 0xfffa3942, 4, 5, 32, ptr, h);
    d := StepH(d, a, b, c, Get(block, ptr, 8, direct), 0x8771f681, 11, 8, 33, ptr, h);
    c := StepH(c, d, a, b, Get(block, ptr, 11, direct), 0x6d9d6122, 16, 11, 34, ptr, h);
    b := StepH(b, c, d, a, Get(block, ptr, 14, direct), 0xfde5380c, 23, 14, 35, ptr, h);
    a := StepH(a, b, c, d, Get(block, ptr, 1, direct), 0xa4beea44, 4, 1, 36, ptr, h);
    d := StepH(d, a, b, c, Get(block, ptr, 4, direct), 0x4bdecfa9, 11, 4, 37, ptr, h);
    c := StepH(c, d, a, b, Get(block, ptr, 7, direct), 0xf6bb4b60, 16, 7, 38, ptr, h);
    b := StepH(b, c, d, a, Get(block, ptr, 10, direct), 0xbebfbc70, 23, 10, 39, ptr, h);
    a := StepH(a, b, c, d, Get(block, ptr, 13, direct), 0x289b7ec6, 4, 13, 40, ptr, h);
    d := StepH(d, a, b, c, Get(block, ptr, 0, direct), 0xeaa127fa, 11, 0, 41, ptr, h);
    c := StepH(c, d, a, b, Get(block, ptr, 3, direct), 0xd4ef3085, 16, 3, 42, ptr, h);
    b := StepH(b, c, d, a, Get(block, ptr, 6, direct), 0x04881d05, 23, 6, 43, ptr, h);
    a := StepH(a, b, c, d, Get(block, ptr, 9, direct), 0xd9d4d039, 4, 9, 44, ptr, h);
    d := StepH(d, a, b, c, Get(block, ptr, 12, direct), 0xe6db99e5, 11, 12, 45, ptr, h);
    c := StepH(c, d, a, b, Get(block, ptr, 15, direct), 0x1fa27cf8, 16, 15, 46, ptr, h);
    b := StepH(b, c, d, a, Get(block, ptr, 2, direct), 0xc4ac5665, 23, 2, 47, ptr, h);
  }

  /** The constants of round 4 are the standard's. */
  lemma Rows4First()
    ensures Row(48, 0, 0xf4292244, 6)
    ensures Row(49, 7, 0x432aff97, 10)
    ensures Row(50, 14, 0xab9423a7, 15)
    ensures Row(51, 5, 0xfc93a039, 21)
    ensures Row(52, 12, 0x655b59c3, 6)
    ensures Row(53, 3, 0x8f0ccc92, 10)
    ensures Row(54, 10, 0xffeff47d, 15)
    ensures Row(55, 1, 0x85845dd1, 21)
  {
  }

  lemma Rows4Last()
    ensures Row(56, 8, 0x6fa87e4f, 6)
    ensures Row(57, 15, 0xfe2ce6e0, 10)
    ensures Row(58, 6, 0xa3014314, 15)
    ensures Row(59, 13, 0x4e0811a1, 21)
    ensures Row(60, 4, 0xf7537e82, 6)
    ensures Row(61, 11, 0xbd3af235, 10)
    ensures Row(62, 2, 0x2ad7d2bb, 15)
    ensures Row(63, 9, 0xeb86d391, 21)
  {
  }

  method Round4(block: array<word>, ptr: seq<byte>, direct: bool, ra: word, rb: word, rc: word, rd: word,
      ghost h: Registers)
    returns (a: word, b: word, c: word, d: word)
    requires block.Length == 16 && |ptr| == 64 && Registers(ra, rb, rc, rd) == Steps(h, ptr, 48)
    requires Cached(block[..], ptr, 16, direct)
    ensures Registers(a, b, c, d) == Steps(h, ptr, 64)
  {
    Rows4First();
    Rows4Last();
    hide *;
    a, b, c, d := ra, rb, rc, rd;
    a := StepI(a, b, c, d, Get(block, ptr, 0, direct), 0xf4292244, 6, 0, 48, ptr, h);
    d := StepI(d, a, b, c, Get(block, ptr, 7, direct), 0x432aff97, 10, 7, 49, ptr, h);
    c := StepI(c, d, a, b, Get(block, ptr, 14, direct), 0xab9423a7, 15, 14, 50, ptr, h);
    b := StepI(b, c, d, a, Get(block, ptr, 5, direct), 0xfc93a039, 21, 5, 51, ptr, h);
    a := StepI(a, b, c, d, Get(block, ptr, 12, direct), 0x655b59c3, 6, 12, 52, ptr, h);
    d := StepI(d, a, b, c, Get(block, ptr, 3, direct), 0x8f0ccc92, 10, 3, 53, ptr, h);
    c := StepI(c, d, a, b, Get(block, ptr, 10, direct), 0xffeff47d, 15, 10, 54, ptr, h);
    b := StepI(b, c, d, a, Get(block, ptr, 1, direct), 0x85845dd1, 21, 1, 55, ptr, h);
    a := StepI(a, b, c, d, Get(block, ptr, 8, direct), 0x6fa87e4f, 6, 8, 56, ptr, h);
    d := StepI(d, a, b, c, Get(block, ptr, 15, direct), 0xfe2ce6e0, 10, 15, 57, ptr, h);
    c := StepI(c, d, a, b, Get(block, ptr, 6, direct), 0xa3014314, 15, 6, 58, ptr, h);
    b := StepI(b, c, d, a, Get(block, ptr, 13, direct), 0x4e0811a1, 21, 13, 59, ptr, h);
    a := StepI(a, b, c, d, Get(block, ptr, 4, direct), 0xf7537e82, 6, 4, 60, ptr, h);
    d := StepI(d, a, b, c, Get(block, ptr, 11, direct), 0xbd3af235, 10, 11, 61, ptr, h);
    c := StepI(c, d, a, b, Get(block, ptr, 2, direct), 0x2ad7d2bb, 15, 2, 62, ptr, h);
    b := StepI(b, c, d, a, Get(block, ptr, 9, direct), 0xeb86d391, 21, 9, 63, ptr, h);
  }

  lemma NothingCached(block: seq<word>, ptr: seq<byte>, direct: bool)
    requires |block| == 16 && |ptr| == 64
    ensures Cached(block, ptr, 0, direct)
  {
  }

  /** body: at least one whole block. The registers come out as the standard's fold over the
      data, whichever way the words are read. */
  method Body(h: Registers, block: array<word>, data: seq<byte>, direct: bool) returns (h': Registers)
    requires block.Length == 16 && 0 < |data| && |data| % 64 == 0
    modifies block
    ensures h' == Fold(h, data)
  {
    FoldNothing(h, data);
    hide *;
    var a, b, c, d := h.a, h.b, h.c, h.d;
    var at, size := 0, |data|;
    while true
      invariant 0 < size && at + size == |data| && at % 64 == 0 && size % 64 == 0
      invariant Registers(a, b, c, d) == Fold(h, data[..at])
      decreases size
    {
      ghost var saved := Registers(a, b, c, d);
      var savedA, savedB, savedC, savedD := a, b, c, d;
      var ptr := data[at..at + 64];
      NoSteps(saved, ptr);
      a, b, c, d := Round1First(block, ptr, direct, a, b, c, d, saved);
      a, b, c, d := Round1Last(block, ptr, direct, a, b, c, d, saved);
      a, b, c, d := Round2(block, ptr, direct, a, b, c, d, saved);
      a, b, c, d := Round3(block, ptr, direct, a, b, c, d, saved);
      a, b, c, d := Round4(block, ptr, direct, a, b, c, d, saved);
      CompressIs(saved, ptr, Registers(a, b, c, d));
      FoldOneMore(h, data, at);
      a, b, c, d := Plus(a, savedA), Plus(b, savedB), Plus(c, savedC), Plus(d, savedD);
      at, size := at + 64, size - 64;
      if size == 0 {
        break;
      }
    }
    assert data[..at] == data;
    h' := Registers(a, b, c, d);
  }

  lemma FoldNothing(h: Registers, data: seq<byte>)
    ensures Fold(h, data[..0]) == h
  {
  }

  lemma NoSteps(h: Registers, m: seq<byte>)
    requires |m| == 64
    ensures Steps(h, m, 0) == h
  {
  }

  lemma CompressIs(h: Registers, m: seq<byte>, r: Registers)
    requires |m| == 64 && r == Steps(h, m, 64)
    ensures Compress(h, m) == Registers(Plus(r.a, h.a), Plus(r.b, h.b), Plus(r.c, h.c), Plus(r.d, h.d))
  {
    hide Steps, Plus;
  }
}
