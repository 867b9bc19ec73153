/** PBKDF2 of pbkdf2.c against section 5.2 of RFC 2898, for every pseudorandom function. */
module Pbkdf2 {
  import opened Octets
  import opened HmacSha1
  import opened Sha1Stream

  /** An I2prf function pointer: the library's own I2HMACSha1, or any other function of key and text. */
  datatype Prf = Own | Other(f: (seq<byte>, seq<byte>) -> seq<byte>) {
    function Apply(pw: seq<byte>, text: seq<byte>): seq<byte> {
      match this
      case Own => OneCall(pw, text)
      case Other(f) => f(pw, text)
    }

    /** hLen, the length in octets of every output. */
    ghost predicate Produces(hlen: nat) {
      forall pw, text :: |Apply(pw, text)| == hlen
    }
  }

  /** Everything about a derivation but its length. */
  datatype Input = Input(prf: Prf, hlen: nat, pw: seq<byte>, salt: seq<byte>, count: nat) {
    ghost predicate Valid() {
      1 <= hlen && prf.Produces(hlen)
    }

    /** The iterates: U_1 = PRF(P, S || INT(i)) and U_j = PRF(P, U_{j-1}). */
    ghost function U(i: uint32, j: nat): (u: seq<byte>)
      requires Valid() && 1 <= j
      ensures |u| == hlen
    {
      if j == 1 then prf.Apply(pw, salt + BigEndian32(i)) else prf.Apply(pw, U(i, j - 1))
    }

    /** U_1 xor ... xor U_c. */
    ghost function XorSum(i: uint32, c: nat): (t: seq<byte>)
      requires Valid() && 1 <= c
      ensures |t| == hlen
    {
      if c == 1 then U(i, 1) else XorOctets(XorSum(i, c - 1), U(i, c))
    }

    /** F(P, S, c, i). The standard asks for a positive count; the code takes 0 for 1. */
    ghost function T(i: uint32): (t: seq<byte>)
      requires Valid()
      ensures |t| == hlen
    {
      XorSum(i, if count == 0 then 1 else count)
    }

    /** T_1 || ... || T_n. */
    ghost function Blocks(n: uint32): (s: seq<byte>)
      requires Valid()
      ensures |s| == n * hlen
    {
      if n == 0 then [] else
        assert n * hlen == (n - 1) * hlen + hlen;
        Blocks(n - 1) + T(n)
    }

    /** The derived key: the first dkLen octets of the blocks. */
    ghost function DerivedKey(dklen: uint32): (dk: seq<byte>)
      requires Valid()
      ensures |dk| == dklen
    {
      EnoughBlocks(dklen, hlen);
      Blocks(BlockCount(dklen, hlen))[..dklen]
    }
  }

  /** CEIL(dkLen / hLen). */
  function BlockCount(dklen: uint32, hlen: nat): (n: uint32)
    requires 1 <= hlen
  {
    RoundUp(dklen, hlen);
    if dklen % hlen == 0 then dklen / hlen else dklen / hlen + 1
  }

  lemma RoundUp(dklen: uint32, hlen: nat)
    requires 1 <= hlen
    ensures 0 <= dklen / hlen <= dklen
    ensures dklen % hlen != 0 ==> dklen / hlen + 1 <= dklen
  {
    MulUp(dklen / hlen, hlen);
    assert dklen == dklen / hlen * hlen + dklen % hlen;
  }

  lemma MulUp(l: nat, hlen: nat)
    requires 1 <= hlen
    ensures l <= l * hlen
  {
    assert l * hlen == l + l * (hlen - 1);
  }

  lemma EnoughBlocks(dklen: uint32, hlen: nat)
    requires 1 <= hlen
    ensures dklen <= BlockCount(dklen, hlen) * hlen
  {
    var l, r := dklen / hlen, dklen % hlen;
    assert dklen == l * hlen + r;
    assert (l + 1) * hlen == l * hlen + hlen;
  }

  /** A longer run of blocks begins with the shorter one. */
  lemma {:induction false} BlocksPrefix(p: Input, n: uint32, m: uint32)
    requires p.Valid() && n <= m
    ensures p.Blocks(n) <= p.Blocks(m)
    decreases m - n
  {
    hide Input.T;
    if n < m {
      BlocksPrefix(p, n, m - 1);
      assert p.Blocks(m) == p.Blocks(m - 1) + p.T(m);
    }
  }

  lemma MoreBlocks(small: uint32, large: uint32, hlen: nat)
    requires 1 <= hlen && small <= large
    ensures BlockCount(small, hlen) <= BlockCount(large, hlen)
  {
    var l, r, l', r' := small / hlen, small % hlen, large / hlen, large % hlen;
    assert l * hlen + r == small <= large == l' * hlen + r';
    if l' < l {
      assert (l' + 1) * hlen <= l * hlen;
    }
  }

  /** A shorter derived key is always a prefix of a longer one. */
  lemma DerivedKeyPrefix(p: Input, small: uint32, large: uint32)
    requires p.Valid() && small <= large
    ensures p.DerivedKey(small) == p.DerivedKey(large)[..small]
  {
    MoreBlocks(small, large, p.hlen);
    EnoughBlocks(small, p.hlen);
    EnoughBlocks(large, p.hlen);
    BlocksPrefix(p, BlockCount(small, p.hlen), BlockCount(large, p.hlen));
  }

  /** The test j <= count that keeps F iterating. */
  predicate LoopGuard(j: uint32, count: uint32) {
    j <= count
  }

  /** The loop counter after n passes: a uint32_t that starts at 2 and wraps. */
  function Counter(n: nat): uint32 {
    if n == 0 then 2 else Tick(Counter(n - 1))
  }

  lemma {:induction false} CounterIs(n: nat)
    requires n + 2 < TWO_32
    ensures Counter(n) == n + 2
  {
    if n > 0 {
      CounterIs(n - 1);
    }
  }

  /** The loop comes to an end if and only if count is not the largest uint32_t: with that count the
      counter wraps before the guard can fail. */
  lemma IterationEnds(count: uint32)
    ensures (exists n: nat :: !LoopGuard(Counter(n), count)) <==> count != 0xFFFF_FFFF
  {
    hide Counter;
    if count != 0xFFFF_FFFF {
      var n := if count < 2 then 0 else count - 1;
      CounterIs(n);
      assert !LoopGuard(Counter(n), count);
    }
  }

  lemma Iterates(p: Input, i: uint32)
    requires p.Valid()
    ensures p.prf.Own? ==> p.hlen == 20
    ensures p.XorSum(i, 1) == p.U(i, 1) == p.prf.Apply(p.pw, p.salt + BigEndian32(i))
  {
    hide BigEndian32, Hmac;
    assert |p.prf.Apply(p.pw, [])| == p.hlen;
  }

  lemma NextIterate(p: Input, i: uint32, j: nat)
    requires p.Valid() && 2 <= j
    ensures p.U(i, j) == p.prf.Apply(p.pw, p.U(i, j - 1))
    ensures p.XorSum(i, j) == XorOctets(p.XorSum(i, j - 1), p.U(i, j))
  {
    hide Prf.Apply, XorOctets;
  }

  /** A block is the sum of as many iterates as the count says, and of one if that is 0. The function is the
      one that was given, or what a call of I2HMACSha1 computes. */
  lemma BlockIs(p: Input, i: uint32, f: (seq<byte>, seq<byte>) -> seq<byte>, pw: seq<byte>, text: seq<byte>)
    requires p.Valid()
    ensures p.T(i) == p.XorSum(i, if p.count == 0 then 1 else p.count)
    ensures Other(f).Apply(pw, text) == f(pw, text) && Own.Apply(pw, text) == OneCall(pw, text)
  {
    hide Input.XorSum, OneCall;
  }

  // ---------------------------------------------------------------- the library's own function

  /** With I2HMACSha1 as the function, the iterates are those of HMAC-SHA1 if the password is hashed, if at
      all, and the text of the first call counted exactly; all other texts have 20 octets. */
  predicate Exact(p: Input) {
    && p.prf.Own? && p.hlen == 20 && |p.pw| < 0x2000_0000
    && |p.salt| + 4 < TWO_32 && Lost(Count(512, 0), |p.salt| + 4) == 0
  }

  /** The same derivation with the standard's function. */
  function Standard(p: Input): Input {
    p.(prf := Other(Hmac))
  }

  lemma StandardCall(pw: seq<byte>, text: seq<byte>)
    requires |pw| < 0x2000_0000 && (|text| == 20 || (|text| < TWO_32 && Lost(Count(512, 0), |text|) == 0))
    ensures Own.Apply(pw, text) == Other(Hmac).Apply(pw, text)
  {
    if |text| == 20 {
      assert Lost(Count(512, 0), 20) == 0;
    }
    hide OneCall, Hmac, Lost;
    OneCallExact(pw, text);
  }

  lemma StandardValid(p: Input)
    requires Exact(p)
    ensures p.Valid() && Standard(p).Valid()
  {
    hide OneCall, Hmac, Lost;
  }

  lemma {:induction false} StandardIterate(p: Input, i: uint32, j: nat)
    requires Exact(p) && 1 <= j
    ensures p.Valid() && Standard(p).Valid() && p.U(i, j) == Standard(p).U(i, j)
  {
    hide *;
    StandardValid(p);
    ExactParts(p);
    if j == 1 {
      Iterates(p, i);
      Iterates(Standard(p), i);
      StandardCall(p.pw, p.salt + BigEndian32(i));
    } else {
      StandardIterate(p, i, j - 1);
      NextIterate(p, i, j);
      NextIterate(Standard(p), i, j);
      StandardCall(p.pw, p.U(i, j - 1));
    }
  }

  lemma ExactParts(p: Input)
    requires Exact(p)
    ensures p.prf == Own && p.hlen == 20 && |p.pw| < 0x2000_0000
    ensures |p.salt| + 4 < TWO_32 && Lost(Count(512, 0), |p.salt| + 4) == 0
    ensures Standard(p).prf == Other(Hmac) && Standard(p).pw == p.pw && Standard(p).salt == p.salt
  {
  }

  lemma {:induction false} StandardSum(p: Input, i: uint32, c: nat)
    requires Exact(p) && 1 <= c
    ensures p.Valid() && Standard(p).Valid() && p.XorSum(i, c) == Standard(p).XorSum(i, c)
  {
    hide *;
    StandardIterate(p, i, c);
    if c == 1 {
      Iterates(p, i);
      Iterates(Standard(p), i);
    } else {
      StandardSum(p, i, c - 1);
      NextIterate(p, i, c);
      NextIterate(Standard(p), i, c);
    }
  }

  lemma {:induction false} StandardBlocks(p: Input, n: uint32)
    requires Exact(p)
    ensures p.Valid() && Standard(p).Valid() && p.Blocks(n) == Standard(p).Blocks(n)
  {
    hide *;
    StandardValid(p);
    StandardCount(p);
    if 0 < n {
      StandardBlocks(p, n - 1);
      NextBlock(p, n);
      NextBlock(Standard(p), n);
      BlockIs(p, n, Hmac, [], []);
      BlockIs(Standard(p), n, Hmac, [], []);
      StandardSum(p, n, if p.count == 0 then 1 else p.count);
    } else {
      NoBlocks(p);
      NoBlocks(Standard(p));
    }
  }

  lemma StandardCount(p: Input)
    ensures Standard(p).count == p.count
  {
  }

  lemma StandardKey(p: Input, dklen: uint32)
    requires Exact(p)
    ensures p.Valid() && Standard(p).Valid() && p.DerivedKey(dklen) == Standard(p).DerivedKey(dklen)
  {
    StandardBlocks(p, BlockCount(dklen, p.hlen));
    hide Exact, Input.Blocks, Input.Valid, BlockCount;
  }

  // ---------------------------------------------------------------- the code

  /** A call through the function pointer: the text is read from the buffer and the output is
      written to the same place. */
  method CallPrf(prf: Prf, ghost hlen: nat, pw: seq<byte>, buffer: array<byte>, n: nat, littleEndian: bool)
    requires prf.Produces(hlen) && hlen <= buffer.Length && n <= buffer.Length
    requires |pw| < TWO_32 && 0 < n < TWO_32
    modifies buffer
    ensures buffer[..hlen] == prf.Apply(pw, old(buffer[..n]))
  {
    hide Hmac;
    match prf {
      case Own =>
        assert |prf.Apply(pw, buffer[..n])| == 20;
        HmacOnce(pw, buffer, n, buffer, littleEndian);
      case Other(f) =>
        var out := f(pw, buffer[..n]);
        assert out == prf.Apply(pw, buffer[..n]);
        CopyInto(buffer, 0, out);
    }
  }

  /** The inputs the code accepts: the lengths, the scratch buffer's size and the iteration loop must fit
      uint32_t. */
  ghost predicate Accepts(p: Input) {
    && p.Valid()
    && p.hlen + 4 < TWO_32 && |p.pw| < TWO_32 && |p.salt| + 4 < TWO_32 && p.count < 0xFFFF_FFFF
  }

  /** F: one block, iterated in place in the scratch buffer and summed into u at the given offset. */
  method F(p: Input, i: uint32, buffer: array<byte>, u: array<byte>, at: nat, littleEndian: bool)
    requires Accepts(p)
    requires p.hlen <= buffer.Length && |p.salt| + 4 <= buffer.Length && buffer != u && at + p.hlen <= u.Length
    modifies buffer, u
    ensures u[..] == old(u[..at]) + p.T(i) + old(u[at + p.hlen..])
  {
    hide BigEndian32, XorOctets, Prf.Apply, Prf.Produces, Input.U, Input.XorSum;
    Iterates(p, i);
    CopyInto(buffer, 0, p.salt);
    CopyInto(buffer, |p.salt|, BigEndian32(i));
    assert buffer[..|p.salt| + 4] == p.salt + BigEndian32(i);
    CallPrf(p.prf, p.hlen, p.pw, buffer, |p.salt| + 4, littleEndian);
    CopyInto(u, at, buffer[..p.hlen]);
    var j: uint32 := 2;
    while LoopGuard(j, p.count)
      invariant 2 <= j && (j == 2 || j <= p.count + 1)
      invariant buffer[..p.hlen] == p.U(i, j - 1)
      invariant u[..] == old(u[..at]) + p.XorSum(i, j - 1) + old(u[at + p.hlen..])
      decreases p.count - j
    {
      Pass(p, i, j, buffer, u, at, littleEndian, old(u[..at]), old(u[at + p.hlen..]));
      j := Tick(j);
    }
  }

  /** One pass: the next iterate, and the sum with it. */
  method Pass(p: Input, ghost i: uint32, ghost j: nat, buffer: array<byte>, u: array<byte>, at: nat,
              littleEndian: bool, ghost front: seq<byte>, ghost back: seq<byte>)
    requires Accepts(p) && 2 <= j && p.hlen <= buffer.Length && buffer != u && at + p.hlen <= u.Length && |front| == at
    requires buffer[..p.hlen] == p.U(i, j - 1) && u[..] == front + p.XorSum(i, j - 1) + back
    modifies buffer, u
    ensures buffer[..p.hlen] == p.U(i, j) && u[..] == front + p.XorSum(i, j) + back
  {
    Iterates(p, i);
    NextIterate(p, i, j);
    hide *;
    Middle(front, p.XorSum(i, j - 1), back);
    CallPrf(p.prf, p.hlen, p.pw, buffer, p.hlen, littleEndian);
    XorAt(u, at, buffer, p.hlen);
  }

  lemma Middle<T>(a: seq<T>, b: seq<T>, c: seq<T>)
    ensures (a + b + c)[..|a|] == a && (a + b + c)[|a|..|a| + |b|] == b && (a + b + c)[|a| + |b|..] == c
  {
  }

  /** u[k] ^= buffer[k], for every octet of the block. */
  method XorAt(u: array<byte>, at: nat, buffer: array<byte>, n: nat)
    requires n <= buffer.Length && at + n <= u.Length && buffer != u
    modifies u
    ensures u[..] == old(u[..at]) + XorOctets(old(u[at..at + n]), buffer[..n]) + old(u[at + n..])
  {
    ghost var was := u[..];
    hide *;
    NoOctets(was, buffer[..], at);
    for k := 0 to n
      invariant XoredTo(u[..], was, buffer[..], at, k)
    {
      ghost var before := u[..];
      OneMoreOctet(before, was, buffer[..], at, k);
      u[at + k] := u[at + k] ^ buffer[k];
      assert u[..] == before[at + k := before[at + k] ^ buffer[k]];
    }
    AllOctets(u[..], was, buffer[..], at, n);
  }

  /** How far a block has been combined with the buffer. */
  predicate XoredTo(u: seq<byte>, was: seq<byte>, b: seq<byte>, at: nat, k: nat) {
    at + k <= |was| && k <= |b| && u == was[..at] + XorOctets(was[at..at + k], b[..k]) + was[at + k..]
  }

  lemma NoOctets(u: seq<byte>, b: seq<byte>, at: nat)
    requires at <= |u|
    ensures XoredTo(u, u, b, at, 0)
  {
    assert u == u[..at] + XorOctets(u[at..at], b[..0]) + u[at..];
  }

  lemma AllOctets(u: seq<byte>, was: seq<byte>, b: seq<byte>, at: nat, k: nat)
    requires XoredTo(u, was, b, at, k)
    ensures at + k <= |was| && k <= |b| && u == was[..at] + XorOctets(was[at..at + k], b[..k]) + was[at + k..]
  {
  }

  lemma OneMoreOctet(u: seq<byte>, was: seq<byte>, b: seq<byte>, at: nat, k: nat)
    requires XoredTo(u, was, b, at, k) && at + k < |was| && k < |b|
    ensures at + k < |u| && XoredTo(u[at + k := u[at + k] ^ b[k]], was, b, at, k + 1)
  {
    var a, x, c := was[..at], XorOctets(was[at..at + k], b[..k]), was[at + k..];
    XorNext(was, b, at, k);
    assert c[1..] == was[at + k + 1..];
    hide XorOctets;
    UpdateMiddle(a, x, c, was[at + k] ^ b[k]);
    assert u[at + k] == c[0];
  }

  lemma XorNext(u: seq<byte>, b: seq<byte>, at: nat, k: nat)
    requires at + k < |u| && k < |b|
    ensures XorOctets(u[at..at + k + 1], b[..k + 1]) == XorOctets(u[at..at + k], b[..k]) + [u[at + k] ^ b[k]]
  {
    var x, y := XorOctets(u[at..at + k + 1], b[..k + 1]), XorOctets(u[at..at + k], b[..k]) + [u[at + k] ^ b[k]];
    assert forall l :: 0 <= l < k ==> x[l] == u[at + l] ^ b[l] == y[l];
    assert x[k] == y[k];
  }

  lemma UpdateMiddle<T>(a: seq<T>, x: seq<T>, c: seq<T>, v: T)
    requires c != []
    ensures (a + x + c)[|a| + |x| := v] == a + (x + [v]) + c[1..]
  {
  }

  /** The complete blocks of I2pbkdf2, made in place in the caller's memory. */
  method CompleteBlocks(p: Input, l: uint32, scratch: array<byte>, dk: array<byte>, littleEndian: bool)
    requires Accepts(p) && l * p.hlen <= dk.Length && dk != scratch
    requires p.hlen <= scratch.Length && |p.salt| + 4 <= scratch.Length
    modifies scratch, dk
    ensures dk[..] == p.Blocks(l) + old(dk[l * p.hlen..])
  {
    hide Input.T, Input.Blocks, BigEndian32;
    NoBlocks(p);
    ghost var done: seq<byte> := [];
    var i := 0;
    while i < l
      invariant 0 <= i <= l && done == p.Blocks(i) && i * p.hlen == |done| <= dk.Length
      invariant dk[..] == done + old(dk[..])[|done|..]
    {
      BlockFits(i, l, p.hlen);
      F(p, i + 1, scratch, dk, i * p.hlen, littleEndian);
      NextBlock(p, i + 1);
      done := done + p.T(i + 1);
      assert dk[..] == done + old(dk[..])[|done|..];
      i := i + 1;
    }
  }

  /** I2pbkdf2: complete blocks first, then the last partial one in a buffer of its own. Exactly
      the first dklen octets are written. */
  method Derive(p: Input, dklen: uint32, dk: array<byte>, littleEndian: bool)
    requires Accepts(p) && dklen <= dk.Length
    modifies dk
    ensures dk[..dklen] == p.DerivedKey(dklen)
    ensures Exact(p) ==> Standard(p).Valid() && dk[..dklen] == Standard(p).DerivedKey(dklen)
    ensures dk[dklen..] == old(dk[dklen..])
  {
    hide Input.T, Input.Blocks, Input.DerivedKey, BlockCount, BigEndian32, Exact, Standard;
    if Exact(p) {
      StandardKey(p, dklen);
    }
    var scratch := new byte[(if |p.salt| > p.hlen then |p.salt| else p.hlen) + 4](_ => 0);
    var out := new byte[p.hlen](_ => 0);
    var l, r := dklen / p.hlen, dklen % p.hlen;
    Division(p, dklen);
    DerivedInParts(p, dklen, l, r);
    CompleteBlocks(p, l, scratch, dk, littleEndian);
    if r != 0 {
      F(p, l + 1, scratch, out, 0, littleEndian);
      assert out[..] == p.T(l + 1);
      CopyInto(dk, l * p.hlen, out[..r]);
    }
  }

  lemma Division(p: Input, dklen: uint32)
    requires p.Valid()
    ensures 0 <= dklen / p.hlen <= dklen && dklen == dklen / p.hlen * p.hlen + dklen % p.hlen
    ensures dklen % p.hlen != 0 ==> dklen / p.hlen + 1 <= dklen
  {
    RoundUp(dklen, p.hlen);
  }

  lemma BlockFits(i: nat, l: nat, hlen: nat)
    requires i < l
    ensures 0 <= i * hlen && i * hlen + hlen <= l * hlen
  {
    assert (i + 1) * hlen <= l * hlen;
    assert (i + 1) * hlen == i * hlen + hlen;
  }

  lemma NoBlocks(p: Input)
    requires p.Valid()
    ensures p.Blocks(0) == []
  {
  }

  lemma NextBlock(p: Input, n: uint32)
    requires p.Valid() && 0 < n
    ensures p.Blocks(n) == p.Blocks(n - 1) + p.T(n)
  {
    hide Input.T;
  }

  /** The derived key is the complete blocks, and the first octets of one more if it is not full. */
  lemma DerivedInParts(p: Input, dklen: uint32, l: uint32, r: nat)
    requires p.Valid() && l == dklen / p.hlen && r == dklen % p.hlen
    ensures r == 0 ==> p.DerivedKey(dklen) == p.Blocks(l)
    ensures r != 0 ==> l < dklen && p.DerivedKey(dklen) == p.Blocks(l) + p.T(l + 1)[..r]
  {
    hide Input.T, Input.Blocks;
    Division(p, dklen);
    EnoughBlocks(dklen, p.hlen);
    if r != 0 {
      NextBlock(p, l + 1);
    }
  }
}
