/** The streaming SHA-1 of sha1.c: a context with a 64-octet buffer and a split bit counter. */
module Sha1Stream {
  import opened Octets
  import opened Blocks
  import opened Sha1Standard
  import opened Sha1Digest
  import opened Sha1Transform

  /** The context's bit count: two uint32_t words. */
  datatype Count = Count(lo: uint32, hi: uint32) {
    function Value(): (n: nat)
      ensures n < TWO_64
    {
      TWO_32 * hi + lo
    }

    /** (count[0] >> 3) & 63: how much of the buffer is in use. */
    function BlockUse(): (n: nat)
      ensures n < 64
    {
      lo / 8 % 64
    }
  }

  /** The counter update of I2Sha1Append: the low word takes len << 3, and the high word is
      touched only when the low word wraps. */
  function CountAfter(c: Count, len: uint32): Count {
    var lo := (c.lo + 8 * len % TWO_32) % TWO_32;
    Count(lo, if lo < c.lo then (c.hi + len / 0x2000_0000 + 1) % TWO_32 else c.hi)
  }

  /** The part of a chunk's bit length, in units of 2^32, that the update drops. */
  function Lost(c: Count, len: uint32): nat {
    if CountAfter(c, len).lo < c.lo then 0 else len / 0x2000_0000
  }

  /** What the update adds, exactly. */
  lemma CountUpdate(c: Count, len: uint32)
    ensures CountAfter(c, len).lo == (c.lo + 8 * len) % TWO_32
    ensures CountAfter(c, len).Value() == (c.Value() + 8 * len - TWO_32 * Lost(c, len)) % TWO_64
  {
    var high, low := len / 0x2000_0000, len % 0x2000_0000;
    assert 8 * len == TWO_32 * high + 8 * low;
    DivMod32(high, 8 * low);
    LowWord(c.lo, 8 * low);
    var lo := CountAfter(c, len).lo;
    if lo < c.lo {
      SplitWrap(c.hi + high + 1, lo);
    } else {
      ModTwo64(0, c.Value() + 8 * low);
    }
    Wrap32(8 * len, c.lo);
  }

  lemma LowWord(x: uint32, y: uint32)
    ensures (x + y) % TWO_32 == if x + y < TWO_32 then x + y else x + y - TWO_32
  {
  }

  lemma SplitWrap(hi: nat, lo: uint32)
    ensures TWO_32 * (hi % TWO_32) + lo == (TWO_32 * hi + lo) % TWO_64
  {
    var q, r := hi / TWO_32, hi % TWO_32;
    assert TWO_32 * hi + lo == TWO_64 * q + (TWO_32 * r + lo);
  }

  /** The counter counts a chunk exactly if and only if the chunk is shorter than 2^29 octets
      or happens to make the low word wrap. */
  lemma CountExact(c: Count, len: uint32)
    ensures CountAfter(c, len).Value() == (c.Value() + 8 * len) % TWO_64
            <==> len < 0x2000_0000 || CountAfter(c, len).lo < c.lo
  {
    CountUpdate(c, len);
    var n, l := c.Value() + 8 * len, Lost(c, len);
    if 0 < l {
      assert l < 8;
      assert (n - TWO_32 * l) % TWO_64 != n % TWO_64;
    }
  }

  /** A chunk that a fresh context miscounts. */
  lemma CountLosesLongFirstChunk()
    ensures CountAfter(Count(0, 0), 0x2000_0000) == Count(0, 0)
    ensures 8 * 0x2000_0000 % TWO_64 == TWO_32
  {
  }

  /** The octets of the bit count, most significant first: finalcount in I2Sha1Finish. */
  lemma CountOctets(c: Count)
    ensures BigEndian64(c.Value()) == BigEndian32(c.hi) + BigEndian32(c.lo)
  {
  }

  class Sha1Context {
    var state: Registers
    var count: Count
    const buffer: array<byte>
    /** The byte order of the machine the library was built for. */
    const littleEndian: bool
    /** Everything appended since the last I2Sha1Init, and the carries its counter has dropped. */
    ghost var absorbed: seq<byte>
    ghost var dropped: nat

    /** I2Sha1Alloc: a zeroed record. */
    constructor (littleEndian: bool)
      ensures buffer.Length == 64 && fresh(buffer)
    {
      this.littleEndian := littleEndian;
      state := Registers(0, 0, 0, 0, 0);
      count := Count(0, 0);
      buffer := new byte[64](_ => 0);
      absorbed, dropped := [], 0;
    }

    /** The context stands for the octets it has absorbed. */
    ghost predicate Valid()
      reads this, buffer
    {
      && buffer.Length == 64
      && state == Fold(INITIAL, Whole(absorbed))
      && buffer[..|absorbed| % 64] == Tail(absorbed)
      && count.lo == 8 * |absorbed| % TWO_32
      && count.Value() == (8 * |absorbed| - TWO_32 * dropped) % TWO_64
    }

    method Init()
      requires buffer.Length == 64
      modifies this
      ensures Valid() && absorbed == [] && count == Count(0, 0) && dropped == 0
    {
      EmptyMessage();
      hide Fold, Compress, Count.Value, Whole, Tail;
      state := INITIAL;
      count := Count(0, 0);
      absorbed, dropped := [], 0;
    }

    /** The buffered block, completed from the data and taken. */
    method CompleteBlock(data: seq<byte>, used: nat)
      requires buffer.Length == 64 && state == Fold(INITIAL, Whole(absorbed))
      requires used == |absorbed| % 64 && buffer[..used] == Tail(absorbed) && 64 <= used + |data|
      modifies this`state, buffer
      ensures AtBlock(|absorbed|, 64 - used)
      ensures state == Fold(INITIAL, (absorbed + data)[..|absorbed| + (64 - used)])
    {
      hide Fold, Compress, Whole, Tail;
      CompletedBlock(absorbed, data, used);
      FoldOneMore(INITIAL, absorbed + data, |absorbed| - used);
      CopyInto(buffer, used, data[..64 - used]);
      assert buffer[..] == Tail(absorbed) + data[..64 - used];
      state := Transform(state, buffer[..], littleEndian);
    }

    /** The octets that complete no block are kept for the next call. */
    method KeepRest(j: nat, rest: seq<byte>)
      requires j + |rest| < 64 == buffer.Length
      modifies buffer
      ensures buffer[..j + |rest|] == old(buffer[..j]) + rest
    {
      CopyInto(buffer, j, rest);
    }

    /** The block part of I2Sha1Append: complete the buffered block, take whole blocks straight
        from the caller's data, keep the rest. */
    method TakeBlocks(data: seq<byte>, used: nat)
      requires buffer.Length == 64 && state == Fold(INITIAL, Whole(absorbed))
      requires used == |absorbed| % 64 && buffer[..used] == Tail(absorbed) && used + |data| < TWO_32
      modifies this`state, buffer
      ensures state == Fold(INITIAL, Whole(absorbed + data))
      ensures buffer[..|absorbed + data| % 64] == Tail(absorbed + data)
    {
      hide Fold, Compress, Whole, Tail;
      if Add32(used, |data|) > 63 {
        CompleteBlock(data, used);
        var i := TransformWhole(data, 64 - used);
        LeftOver(absorbed, data, i);
        KeepRest(0, data[i..]);
        assert [] + data[i..] == data[i..];
      } else {
        NoBlock(absorbed, data, used);
        KeepRest(used, data);
      }
    }

    /** The loop of I2Sha1Append over blocks that need no copy. */
    method TransformWhole(data: seq<byte>, start: nat) returns (i: nat)
      requires start <= |data| && AtBlock(|absorbed|, start) && |absorbed| % 64 + |data| < TWO_32
      requires state == Fold(INITIAL, (absorbed + data)[..|absorbed| + start])
      modifies this`state
      ensures i <= |data| < i + 64 && AtBlock(|absorbed|, i)
      ensures state == Fold(INITIAL, (absorbed + data)[..|absorbed| + i])
    {
      hide Fold, Compress, Add32, Valid;
      i := start;
      OffsetsFit(|absorbed|, i, |data|);
      while Add32(i, 63) < |data|
        invariant i <= |data| && AtBlock(|absorbed|, i) && Add32(i, 63) == i + 63
        invariant state == Fold(INITIAL, (absorbed + data)[..|absorbed| + i])
      {
        OneBlockMore(absorbed, data, i);
        OffsetsFit(|absorbed|, i + 64, |data|);
        state := Transform(state, data[i..i + 64], littleEndian);
        i := i + 64;
      }
    }

    /** I2Sha1Append. The sum of the buffer's use and len must stay inside uint32_t; then all offsets
        do. CopyFits shows that beyond it the octets would not fit the buffer. */
    method Append(data: seq<byte>)
      requires Valid() && count.BlockUse() + |data| < TWO_32
      modifies this, buffer
      ensures Valid() && absorbed == old(absorbed) + data
      ensures count == CountAfter(old(count), |data|)
      ensures dropped == old(dropped) + Lost(old(count), |data|)
    {
      hide Fold, Compress, Lost, Count.Value, Count.BlockUse, CountAfter, Whole, Tail;
      if |data| == 0 {
        CountUnmoved(count);
        assert absorbed == absorbed + data;
        return;
      }
      var c := count;
      count := CountAfter(count, |data|);
      CountedMore(c, |absorbed|, dropped, |data|);
      TakeBlocks(data, c.BlockUse());
      absorbed := absorbed + data;
      dropped := dropped + Lost(c, |data|);
    }

    /** How much of the buffer a valid context uses. */
    lemma UseIs()
      requires Valid()
      ensures count.BlockUse() == |absorbed| % 64
    {
      hide Fold, Whole, Tail, Count.BlockUse;
      BufferUse(absorbed, count);
    }

    /** One octet more, and the buffer's use after it. */
    method AppendOctet(b: byte)
      requires Valid()
      modifies this, buffer
      ensures Valid() && absorbed == old(absorbed) + [b] && count.BlockUse() == |absorbed| % 64
    {
      hide Valid, Count.BlockUse, CountAfter, Lost;
      UseIs();
      Append([b]);
      UseIs();
    }

    /** Zeros until 56 octets of the block are used. */
    method PadZeros(ghost message: seq<byte>)
      requires Valid() && absorbed == message + [0x80] && count.BlockUse() == |absorbed| % 64
      modifies this, buffer
      ensures Valid() && absorbed == message + [0x80] + Zeros(ZeroCount(|message|))
    {
      hide Valid, Count.BlockUse, Zeros;
      ghost var zeros := 0;
      NoZeros(message);
      while count.BlockUse() != 56
        invariant Valid() && zeros <= ZeroCount(|message|)
        invariant absorbed == message + [0x80] + Zeros(zeros)
        invariant count.BlockUse() == |absorbed| % 64
        decreases ZeroCount(|message|) - zeros
      {
        FewerZeros(|message|, zeros);
        AppendOctet(0);
        OneMoreZero(message, zeros);
        zeros := zeros + 1;
      }
      FewerZeros(|message|, zeros);
    }

    /** The padding half of I2Sha1Finish: 0x80, the zeros, and the count as it stood before. */
    method Pad()
      requires Valid()
      modifies this, buffer
      ensures Valid() && absorbed == old(absorbed) + Padding(|old(absorbed)|, old(count.Value()))
    {
      hide Valid, Count.Value, Count.BlockUse, CountAfter, Lost, BigEndian64, BigEndian32, Zeros, ZeroCount;
      ghost var message, bits := absorbed, count.Value();
      CountOctets(count);
      var finalCount := BigEndian32(count.hi) + BigEndian32(count.lo);
      AppendOctet(0x80);
      PadZeros(message);
      UseIs();
      Append(finalCount);
      PaddingParts(message, bits);
    }

    /** I2Sha1Finish: pad, hand out the digest and wipe the context. */
    method Finish(digest: array<byte>)
      requires Valid() && 20 <= digest.Length && digest != buffer
      modifies this, buffer, digest
      ensures digest[..20] == DigestWithCount(old(absorbed), old(count.Value()))
      ensures digest[20..] == old(digest[20..])
      ensures state == Registers(0, 0, 0, 0, 0) && count == Count(0, 0) && buffer[..] == Zeros(64)
    {
      hide Fold, Compress, Count.Value, BigEndian64, Zeros, ZeroCount, DigestOctets, Whole, Tail;
      Pad();
      AllWhole(absorbed);
      assert digest[20..] == old(digest[20..]);
      WriteDigest(state, digest);
      Wipe();
    }

    method Wipe()
      requires buffer.Length == 64
      modifies this, buffer
      ensures state == Registers(0, 0, 0, 0, 0) && count == Count(0, 0) && buffer[..] == Zeros(64)
    {
      state, count := Registers(0, 0, 0, 0, 0), Count(0, 0);
      Fill(buffer, 0, 64, 0);
      absorbed, dropped := [], 0;
    }
  }

  /** uint32_t addition. */
  function Add32(x: nat, y: nat): nat {
    (x + y) % TWO_32
  }

  /** Exactly while the sum stays inside uint32_t, the octets that do not complete a block fit the buffer. */
  lemma CopyFits(used: nat, len: uint32)
    requires used < 64
    ensures Add32(used, len) > 63 || used + len <= 64 <==> used + len < TWO_32
  {
  }

  /** One octet buffered and 2^32 - 1 more: the sum is 0, so that all of them would be copied. */
  lemma CopyOverruns()
    ensures Add32(1, 0xFFFF_FFFF) == 0 && 64 < 1 + 0xFFFF_FFFF
  {
  }

  /** Position i of the data falls on a block of the message. */
  predicate AtBlock(n: nat, i: nat) {
    (n + i) % 64 == 0
  }

  /** The next block of the data continues the fold over the message. */
  lemma OneBlockMore(message: seq<byte>, data: seq<byte>, i: nat)
    requires i + 64 <= |data| && AtBlock(|message|, i)
    ensures AtBlock(|message|, i + 64)
    ensures Fold(INITIAL, (message + data)[..|message| + (i + 64)])
            == Compress(Fold(INITIAL, (message + data)[..|message| + i]), data[i..i + 64])
  {
    hide Fold, Compress;
    LaterBlocks(message, data, i, 64);
    FoldOneMore(INITIAL, message + data, |message| + i);
  }

  /** No offset of the block loop leaves uint32_t. */
  lemma OffsetsFit(n: nat, i: nat, length: nat)
    requires AtBlock(n, i) && i <= length && n % 64 + length < TWO_32
    ensures Add32(i, 63) == i + 63
  {
    var q := n / 64;
    assert (n + i) == 64 * q + (n % 64 + i);
    Mod64(q, n % 64 + i);
    BelowLastBlock(n % 64 + i);
  }

  lemma BelowLastBlock(m: nat)
    requires m % 64 == 0 && m < TWO_32
    ensures m + 63 < TWO_32
  {
  }

  lemma EmptyMessage()
    ensures Fold(INITIAL, Whole([])) == INITIAL && Tail([]) == [] && Count(0, 0).Value() == 0
  {
  }

  lemma BufferUse(message: seq<byte>, c: Count)
    requires c.lo == 8 * |message| % TWO_32
    ensures c.BlockUse() == |message| % 64
  {
    BlockOffset(|message|);
  }

  lemma NoZeros(message: seq<byte>)
    ensures message + [0x80] == message + [0x80] + Zeros(0)
  {
  }

  lemma OneMoreZero(message: seq<byte>, zeros: nat)
    ensures message + [0x80] + Zeros(zeros) + [0] == message + [0x80] + Zeros(zeros + 1)
  {
    assert Zeros(zeros + 1) == Zeros(zeros) + [0];
  }

  lemma PaddingParts(message: seq<byte>, bits: nat)
    requires bits < TWO_64
    ensures message + [0x80] + Zeros(ZeroCount(|message|)) + BigEndian64(bits) == message + Padding(|message|, bits)
  {
    hide Zeros, ZeroCount, BigEndian64;
  }

  /** The padding loop stops after exactly the number of zeros the standard asks for. */
  lemma FewerZeros(length: nat, zeros: nat)
    requires zeros <= ZeroCount(length)
    ensures (length + 1 + zeros) % 64 == 56 <==> zeros == ZeroCount(length)
  {
  }

  function StateWord(h: Registers, i: nat): word {
    match i
    case 0 => h.a
    case 1 => h.b
    case 2 => h.c
    case 3 => h.d
    case _ => h.e
  }

  lemma DigestOctetAt(h: Registers, k: nat)
    requires k < 20
    ensures DigestOctets(h)[k] == WordOctet(StateWord(h, k / 4), 3 - k % 4)
  {
    hide WordOctet, DigestOctets;
    DigestIsFiveWords(h, k / 4);
    var word := HighOctetFirst(StateWord(h, k / 4));
    assert DigestOctets(h)[4 * (k / 4)..4 * (k / 4) + 4][k % 4] == word[k % 4];
  }

  lemma DigestIsFiveWords(h: Registers, i: nat)
    requires i < 5
    ensures DigestOctets(h)[4 * i..4 * i + 4] == HighOctetFirst(StateWord(h, i))
  {
    hide HighOctetFirst;
  }

  /** The digest loop of I2Sha1Finish. */
  method WriteDigest(state: Registers, digest: array<byte>)
    requires 20 <= digest.Length
    modifies digest
    ensures digest[..20] == DigestOctets(state)
    ensures digest[20..] == old(digest[20..])
  {
    hide DigestOctets, WordOctet, StateWord;
    for i := 0 to 20
      invariant forall k :: 0 <= k < i ==> digest[k] == DigestOctets(state)[k]
      invariant digest[20..] == old(digest[20..])
    {
      DigestOctetAt(state, i);
      digest[i] := WordOctet(StateWord(state, i / 4), 3 - i % 4);
    }
  }

  lemma OneChunk(len: uint32)
    ensures len < 0x2000_0000 ==> CountAfter(Count(0, 0), len).Value() == 8 * len % TWO_64
  {
    CountExact(Count(0, 0), len);
  }

  /** I2Sha1: one call does it all. The counter is exact for fewer than 2^29 octets. */
  method Sha1Once(data: seq<byte>, digest: array<byte>, littleEndian: bool)
    requires |data| < TWO_32 && 20 <= digest.Length
    modifies digest
    ensures digest[..20] == DigestWithCount(data, CountAfter(Count(0, 0), |data|).Value())
    ensures |data| < 0x2000_0000 ==> digest[..20] == Sha1(data)
    ensures digest[20..] == old(digest[20..])
  {
    OneChunk(|data|);
    hide DigestWithCount, Count.Value, CountAfter, Lost, Fold, Whole, Tail;
    var sha1 := new Sha1Context(littleEndian);
    sha1.Init();
    sha1.Append(data);
    assert sha1.absorbed == data;
    sha1.Finish(digest);
  }

  // ---------------------------------------------------------------- whole runs

  /** Each chunk, with what the ones before it leave in the buffer, has a length in uint32_t. */
  predicate Appendable(chunks: seq<seq<byte>>) {
    var n := |chunks| - 1;
    n < 0 || (Appendable(chunks[..n]) && |Concat(chunks[..n])| % 64 + |chunks[n]| < TWO_32)
  }

  lemma {:induction false} AppendablePrefix(chunks: seq<seq<byte>>, k: nat)
    requires Appendable(chunks) && k <= |chunks|
    ensures Appendable(chunks[..k])
    decreases |chunks|
  {
    if k < |chunks| {
      AppendablePrefix(chunks[..|chunks| - 1], k);
      assert chunks[..|chunks| - 1][..k] == chunks[..k];
    } else {
      assert chunks[..k] == chunks;
    }
  }

  lemma AppendableAt(chunks: seq<seq<byte>>, k: nat)
    requires Appendable(chunks) && k < |chunks|
    ensures Appendable(chunks[..k]) && Appendable(chunks[..k + 1])
    ensures |Concat(chunks[..k])| % 64 + |chunks[k]| < TWO_32 && chunks[..k + 1][..k] == chunks[..k]
    ensures Concat(chunks[..k + 1]) == Concat(chunks[..k]) + chunks[k]
  {
    AppendablePrefix(chunks, k);
    AppendablePrefix(chunks, k + 1);
    assert chunks[..k + 1][..k] == chunks[..k];
  }

  /** The counter after a run of appends, and what it dropped on the way. */
  function CountRun(c: Count, chunks: seq<seq<byte>>): Count
    requires Appendable(chunks)
  {
    if chunks == [] then c
    else CountAfter(CountRun(c, chunks[..|chunks| - 1]), |chunks[|chunks| - 1]|)
  }

  function LostRun(c: Count, chunks: seq<seq<byte>>): nat
    requires Appendable(chunks)
  {
    if chunks == [] then 0
    else LostRun(c, chunks[..|chunks| - 1]) + Lost(CountRun(c, chunks[..|chunks| - 1]), |chunks[|chunks| - 1]|)
  }

  /** Over any run of appends the counter is short by exactly the carries dropped. */
  lemma {:induction false} CountOfRun(c: Count, n: nat, chunks: seq<seq<byte>>)
    requires Appendable(chunks) && c.Value() == 8 * n % TWO_64
    ensures CountRun(c, chunks).Value() == (8 * (n + |Concat(chunks)|) - TWO_32 * LostRun(c, chunks)) % TWO_64
  {
    hide Count.Value, CountAfter, Lost;
    if chunks != [] {
      var before, chunk := chunks[..|chunks| - 1], chunks[|chunks| - 1];
      CountOfRun(c, n, before);
      CountUpdate(CountRun(c, before), |chunk|);
      Wrap64(8 * (n + |Concat(before)|) - TWO_32 * LostRun(c, before),
             8 * |chunk| - TWO_32 * Lost(CountRun(c, before), |chunk|));
    }
  }

  /** So from a counter that is right for n octets, the recorded length is right again if and only if the
      dropped carries add up to a multiple of 2^32. */
  lemma RunExact(c: Count, n: nat, chunks: seq<seq<byte>>)
    requires Appendable(chunks) && c.Value() == 8 * n % TWO_64
    ensures CountRun(c, chunks).Value() == 8 * (n + |Concat(chunks)|) % TWO_64 <==> LostRun(c, chunks) % TWO_32 == 0
  {
    CountOfRun(c, n, chunks);
    SameModulo(8 * (n + |Concat(chunks)|), LostRun(c, chunks));
  }

  lemma SameModulo(n: nat, l: nat)
    ensures (n - TWO_32 * l) % TWO_64 == n % TWO_64 <==> l % TWO_32 == 0
  {
    var q, r := l / TWO_32, l % TWO_32;
    assert TWO_32 * l == TWO_64 * q + TWO_32 * r;
    assert (n - TWO_32 * l) % TWO_64 == (n - TWO_32 * r) % TWO_64;
  }

  /** Chunks under 2^29 octets never drop a carry. */
  lemma {:induction false} ShortChunks(c: Count, chunks: seq<seq<byte>>)
    requires Appendable(chunks) && forall i :: 0 <= i < |chunks| ==> |chunks[i]| < 0x2000_0000
    ensures LostRun(c, chunks) == 0
  {
    if chunks != [] {
      ShortChunks(c, chunks[..|chunks| - 1]);
    }
  }

  lemma {:induction false} ShortAppendable(chunks: seq<seq<byte>>)
    requires forall i :: 0 <= i < |chunks| ==> |chunks[i]| < 0x2000_0000
    ensures Appendable(chunks)
  {
    if chunks != [] {
      ShortAppendable(chunks[..|chunks| - 1]);
    }
  }

  /** Feeding a message in any split into chunks digests the concatenation: with the count
      recorded for that run, and so with the message's own length when no carry is lost. */
  method DigestOfChunks(chunks: seq<seq<byte>>, littleEndian: bool) returns (digest: seq<byte>)
    requires Appendable(chunks)
    ensures digest == DigestWithCount(Concat(chunks), CountRun(Count(0, 0), chunks).Value())
    ensures LostRun(Count(0, 0), chunks) % TWO_32 == 0 ==> digest == Sha1(Concat(chunks))
  {
    NothingCounted();
    RunExact(Count(0, 0), 0, chunks);
    hide DigestWithCount, Count.Value, CountAfter, Lost, Fold, Whole, Tail, LostRun, Appendable, Sha1Context.Valid;
    var sha1 := new Sha1Context(littleEndian);
    sha1.Init();
    for k := 0 to |chunks|
      invariant sha1.Valid() && fresh(sha1) && fresh(sha1.buffer) && Appendable(chunks[..k])
      invariant sha1.absorbed == Concat(chunks[..k]) && sha1.count == CountRun(Count(0, 0), chunks[..k])
    {
      AppendableAt(chunks, k);
      sha1.UseIs();
      sha1.Append(chunks[k]);
    }
    assert chunks[..|chunks|] == chunks;
    var out := new byte[20];
    sha1.Finish(out);
    digest := out[..20];
  }

  lemma NothingCounted()
    ensures Count(0, 0).Value() == 0 && Appendable([])
  {
  }

  lemma CountUnmoved(c: Count)
    ensures CountAfter(c, 0) == c && Lost(c, 0) == 0
  {
  }

  lemma BlockOffset(n: nat)
    ensures 8 * n % TWO_32 / 8 % 64 == n % 64
  {
    var q, r := n / 0x2000_0000, n % 0x2000_0000;
    assert n == 0x2000_0000 * q + r;
    assert 8 * n == TWO_32 * q + 8 * r;
    DivMod32(q, 8 * r);
    Mod64(0x80_0000 * q, r);
  }

  lemma CountedMore(c: Count, n: nat, dropped: nat, len: uint32)
    requires c.lo == 8 * n % TWO_32 && c.Value() == (8 * n - TWO_32 * dropped) % TWO_64
    ensures c.BlockUse() == n % 64
    ensures CountAfter(c, len).lo == 8 * (n + len) % TWO_32
    ensures CountAfter(c, len).Value() == (8 * (n + len) - TWO_32 * (dropped + Lost(c, len))) % TWO_64
  {
    hide Count.Value, CountAfter, Lost;
    BlockOffset(n);
    CountUpdate(c, len);
    Wrap64(8 * n - TWO_32 * dropped, 8 * len - TWO_32 * Lost(c, len));
    Wrap32(8 * n, 8 * len);
  }

  lemma Wrap32(x: int, y: int)
    ensures (x % TWO_32 + y) % TWO_32 == (x + y) % TWO_32
  {
  }

  lemma Wrap64(x: int, y: int)
    ensures (x % TWO_64 + y) % TWO_64 == (x + y) % TWO_64
  {
  }
}
