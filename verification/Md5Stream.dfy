/** The streaming MD5 of md5.c. */
module Md5Stream {
  import opened Octets
  import opened Blocks
  import OctetLaws
  import opened Md5Standard
  import opened Md5Body

  const TWO_29 := 0x2000_0000

  /** The octet count, split into 29 low bits and 32 high bits. */
  datatype Count = Count(lo: uint32, hi: uint32) {
    predicate Valid() {
      lo < TWO_29
    }

    function Octets(): nat {
      TWO_29 * hi + lo
    }
  }

  /** The counter update of I2MD5Update: unsigned long sums masked to 29 bits, and the rest of
      the size added to the high word. */
  function CountAfter(c: Count, size: nat): Count
    requires size < TWO_64
  {
    var lo := (c.lo + size) % TWO_64 % TWO_29;
    var hi := if lo < c.lo then (c.hi + 1) % TWO_32 else c.hi;
    Count(lo, (hi + size / TWO_29) % TWO_32)
  }

  /** The split counter is exact modulo 2^61 for every size an unsigned long can hold. */
  lemma CountExact(c: Count, size: nat)
    requires c.Valid() && size < TWO_64
    ensures CountAfter(c, size).Valid()
    ensures CountAfter(c, size).Octets() == (c.Octets() + size) % TWO_61
  {
    var high, low := size / TWO_29, size % TWO_29;
    var lo := CountAfter(c, size).lo;
    assert size == TWO_29 * high + low;
    Masked(c.lo + size);
    Masked(c.lo + low);
    LowBits(c.lo + low, high);
    assert lo == (c.lo + low) % TWO_29;
    if lo < c.lo {
      assert c.lo + low == lo + TWO_29;
      HighWraps(c.hi + 1, high);
      SplitWrap(c.hi + 1 + high, lo);
    } else {
      assert c.lo + low == lo;
      HighWraps(c.hi, high);
      SplitWrap(c.hi + high, lo);
    }
  }

  /** Masking to 29 bits does not see a sum's wrap at 64. */
  lemma Masked(n: nat)
    ensures n % TWO_64 % TWO_29 == n % TWO_29
  {
    assert n == TWO_29 * (0x8_0000_0000 * (n / TWO_64)) + n % TWO_64;
    LowBits(n % TWO_64, 0x8_0000_0000 * (n / TWO_64));
  }

  lemma LowBits(x: nat, q: nat)
    ensures (x + TWO_29 * q) % TWO_29 == x % TWO_29
  {
  }

  lemma HighWraps(x: nat, y: nat)
    ensures (x % TWO_32 + y) % TWO_32 == (x + y) % TWO_32
  {
  }

  lemma SplitWrap(hi: nat, lo: nat)
    requires lo < TWO_29
    ensures TWO_29 * (hi % TWO_32) + lo == (TWO_29 * hi + lo) % TWO_61
  {
    var q, r := hi / TWO_32, hi % TWO_32;
    assert TWO_29 * hi + lo == TWO_61 * q + (TWO_29 * r + lo);
  }

  /** So the eight octets I2MD5Final writes are the number of bits modulo 2^64, low-order octet first. */
  lemma LengthField(c: Count, n: nat)
    requires c.Valid() && c.Octets() == n % TWO_61
    ensures LittleEndian32(8 * c.lo) + LittleEndian32(c.hi) == LittleEndian64(8 * n % TWO_64)
    ensures var s := LittleEndian32(8 * c.lo) + LittleEndian32(c.hi);
            8 * n % TWO_64
            == (s[0] as int + 0x100 * s[1] as int + 0x1_0000 * s[2] as int + 0x100_0000 * s[3] as int)
               + TWO_32 * (s[4] as int + 0x100 * s[5] as int + 0x1_0000 * s[6] as int + 0x100_0000 * s[7] as int)
  {
    CountField(c, n);
    hide *;
    OctetLaws.LittleEndianSums(c.hi, 8 * c.lo);
  }

  lemma CountField(c: Count, n: nat)
    requires c.Valid() && c.Octets() == n % TWO_61
    ensures 8 * n % TWO_64 == TWO_32 * c.hi + 8 * c.lo && 8 * c.lo < TWO_32
    ensures LittleEndian32(8 * c.lo) + LittleEndian32(c.hi) == LittleEndian64(8 * n % TWO_64)
  {
    hide LittleEndian32;
    var q := n / TWO_61;
    assert 8 * n == TWO_64 * q + (TWO_32 * c.hi + 8 * c.lo);
    ModTwo64(q, TWO_32 * c.hi + 8 * c.lo);
    DivMod32(c.hi, 8 * c.lo);
  }

  lemma BlockOffsetAt(q: nat, hi: nat, lo: nat, n: nat)
    requires n == 0x2000_0000_0000_0000 * q + 0x2000_0000 * hi + lo
    ensures lo % 64 == n % 64
  {
    Mod64(0x80_0000_0000_0000 * q + 0x80_0000 * hi, lo);
  }

  lemma BlockOffset(c: Count, n: nat)
    requires c.Valid() && c.Octets() == n % TWO_61
    ensures c.lo % 64 == n % 64
  {
    BlockOffsetAt(n / TWO_61, c.hi, c.lo, n);
  }

  class Md5Context {
    var h: Registers
    var count: Count
    const buffer: array<byte>
    const block: array<word>
    /** Whether this build loads words straight from the data. */
    const direct: bool
    ghost var absorbed: seq<byte>

    /** I2MD5Init, on a record of its own. */
    constructor (direct: bool)
      ensures Valid() && absorbed == [] && fresh(buffer) && fresh(block)
    {
      h := INITIAL;
      count := Count(0, 0);
      buffer := new byte[64];
      block := new word[16];
      this.direct := direct;
      absorbed := [];
      new;
      hide Fold, Whole, Tail;
      EmptyMessage();
    }

    ghost predicate Shape()
      reads this
    {
      buffer.Length == 64 && block.Length == 16
    }

    ghost predicate Valid()
      reads this, buffer
    {
      && Shape()
      && h == Fold(INITIAL, Whole(absorbed))
      && buffer[..|absorbed| % 64] == Tail(absorbed)
      && count.Valid() && count.Octets() == |absorbed| % TWO_61
    }

    /** The part of I2MD5Update that moves octets: fill the buffer, run body on it when it is
        full, run body on the whole blocks that follow, keep the rest. */
    method TakeBlocks(data: seq<byte>, used: nat)
      requires Shape() && h == Fold(INITIAL, Whole(absorbed))
      requires used == |absorbed| % 64 && buffer[..used] == Tail(absorbed)
      modifies this`h, buffer, block
      ensures h == Fold(INITIAL, Whole(absorbed + data))
      ensures buffer[..|absorbed + data| % 64] == Tail(absorbed + data)
    {
      hide Fold, Compress, Whole, Tail;
      var at := 0;
      if used != 0 {
        var free := 64 - used;
        if |data| < free {
          NoBlock(absorbed, data, used);
          CopyInto(buffer, used, data);
          return;
        }
        CompletedBlock(absorbed, data, used);
        CopyInto(buffer, used, data[..free]);
        assert buffer[..] == Tail(absorbed) + data[..free];
        FoldMore(INITIAL, absorbed + data, |absorbed| - used, 64);
        h := Body(h, block, buffer[..], direct);
        at := free;
      } else {
        AllWhole(absorbed);
        assert (absorbed + data)[..|absorbed|] == absorbed;
      }
      at := TakeWhole(data, at);
      LeftOver(absorbed, data, at);
      assert h == Fold(INITIAL, Whole(absorbed + data));
      CopyInto(buffer, 0, data[at..]);
    }

    /** Body on all whole blocks left in the caller's data: size & ~0x3f octets of them. */
    method TakeWhole(data: seq<byte>, at: nat) returns (at': nat)
      requires Shape() && at <= |data| && (|absorbed| + at) % 64 == 0
      requires h == Fold(INITIAL, (absorbed + data)[..|absorbed| + at])
      modifies this`h, block
      ensures at' <= |data| < at' + 64 && (|absorbed| + at') % 64 == 0
      ensures h == Fold(INITIAL, (absorbed + data)[..|absorbed| + at'])
    {
      hide Fold, Compress;
      var size := |data| - at;
      at' := at;
      if size >= 64 {
        var whole := size - size % 64;
        LaterBlocks(absorbed, data, at, whole);
        FoldMore(INITIAL, absorbed + data, |absorbed| + at, whole);
        h := Body(h, block, data[at..at + whole], direct);
        at' := at + whole;
      }
    }

    /** I2MD5Update, for every size an unsigned long can hold. */
    method Update(data: seq<byte>)
      requires Valid() && |data| < TWO_64
      modifies this, buffer, block
      ensures Valid() && absorbed == old(absorbed) + data
    {
      hide Fold, Compress, Whole, Tail, CountAfter, Count.Octets;
      BlockOffset(count, |absorbed|);
      CountExact(count, |data|);
      Wrap61(|absorbed|, |data|);
      var used := count.lo % 64;
      count := CountAfter(count, |data|);
      TakeBlocks(data, used);
      absorbed := absorbed + data;
    }

    /** The length is written into the last eight octets of the buffer, and the last block is taken. */
    method LastBlock(used: nat, ghost message: seq<byte>, ghost front: seq<byte>)
      requires Shape() && used <= 56 && front == buffer[..used]
      requires count.Valid() && count.Octets() == |message| % TWO_61
      modifies this`h, this`count, buffer, block
      ensures h == Compress(old(h), front + Zeros(56 - used) + LittleEndian64(8 * |message| % TWO_64))
    {
      LengthField(count, |message|);
      hide Fold, Compress, LittleEndian32, LittleEndian64, Count.Octets;
      Fill(buffer, used, 56 - used, 0);
      ghost var padded := buffer[..56];
      count := Count(8 * count.lo, count.hi);
      CopyInto(buffer, 56, LittleEndian32(count.lo) + LittleEndian32(count.hi));
      assert padded == front + Zeros(56 - used);
      assert buffer[..] == padded + LittleEndian64(8 * |message| % TWO_64);
      OneBlock(h, buffer[..]);
      h := Body(h, block, buffer[..], direct);
    }

    /** The padding half of I2MD5Final: one block if the mark and the length fit after the tail,
        otherwise two. */
    method Pad()
      requires Valid()
      modifies this, buffer, block
      ensures Shape() && h == Fold(INITIAL, Padded(old(absorbed)))
    {
      hide Fold, Compress, Whole, Tail, Padded, Repeat, LittleEndian64, Count.Octets;
      ghost var message := absorbed;
      BlockOffset(count, |message|);
      var used := count.lo % 64;
      buffer[used] := 0x80;
      assert buffer[..used + 1] == Tail(message) + [0x80];
      used := used + 1;
      var free := 64 - used;
      ghost var front := buffer[..used];
      if free < 8 {
        FoldsInTwoBlocks(INITIAL, message);
        Fill(buffer, used, free, 0);
        assert buffer[..] == MarkBlock(message);
        OneBlock(h, buffer[..]);
        h := Body(h, block, buffer[..], direct);
        used, free, front := 0, 64, [];
        assert [] + Zeros(56) == Zeros(56);
      } else {
        FoldsInOneBlock(INITIAL, message);
      }
      LastBlock(used, message, front);
    }

    /** I2MD5Final: pad, hand out the digest and wipe the context. */
    method Final(result: array<byte>)
      requires Valid() && 16 <= result.Length && result != buffer
      modifies this, buffer, block, result
      ensures result[..16] == Md5(old(absorbed))
      ensures result[16..] == old(result[16..])
      ensures h == Registers(0, 0, 0, 0) && count == Count(0, 0) && buffer[..] == Zeros(64)
    {
      hide Fold, Whole, Tail, Padded, Count.Octets, Repeat, DigestOctets;
      Pad();
      assert result[16..] == old(result[16..]);
      WriteDigest(h, result);
      h, count := Registers(0, 0, 0, 0), Count(0, 0);
      Fill(buffer, 0, 64, 0);
      forall i | 0 <= i < 16 {
        block[i] := 0;
      }
    }
  }

  /** The tail with its mark, zeros and length, where all of it fits one block. */
  function OnlyBlock(message: seq<byte>): (s: seq<byte>)
    requires |Tail(message)| + 1 <= 56
    ensures |s| == 64
  {
    Tail(message) + [0x80] + Zeros(55 - |Tail(message)|) + LittleEndian64(8 * |message| % TWO_64)
  }

  /** The tail with its mark, where the length does not fit any more. */
  function MarkBlock(message: seq<byte>): (s: seq<byte>)
    ensures |s| == 64
  {
    Tail(message) + [0x80] + Zeros(63 - |Tail(message)|)
  }

  function LengthBlock(message: seq<byte>): (s: seq<byte>)
    ensures |s| == 64
  {
    Zeros(56) + LittleEndian64(8 * |message| % TWO_64)
  }

  lemma PaddedInOneBlock(message: seq<byte>)
    requires |Tail(message)| + 1 <= 56
    ensures Padded(message) == Whole(message) + OnlyBlock(message)
  {
    hide LittleEndian64, Zeros;
    assert message == Whole(message) + Tail(message);
  }

  lemma PaddedInTwoBlocks(message: seq<byte>)
    requires |Tail(message)| + 1 > 56
    ensures Padded(message) == Whole(message) + MarkBlock(message) + LengthBlock(message)
  {
    hide LittleEndian64;
    assert message == Whole(message) + Tail(message);
    assert Zeros(ZeroCount(|message|)) == Zeros(63 - |Tail(message)|) + Zeros(56);
  }

  /** The padded message folds as its whole blocks and the one or two blocks that padding makes. */
  lemma FoldsInOneBlock(h: Registers, message: seq<byte>)
    requires |Tail(message)| + 1 <= 56
    ensures Fold(h, Padded(message)) == Compress(Fold(h, Whole(message)), OnlyBlock(message))
  {
    hide *;
    PaddedInOneBlock(message);
    FoldJoined(h, Whole(message), OnlyBlock(message));
    OneBlock(Fold(h, Whole(message)), OnlyBlock(message));
  }

  lemma FoldsInTwoBlocks(h: Registers, message: seq<byte>)
    requires |Tail(message)| + 1 > 56
    ensures Fold(h, Padded(message))
            == Compress(Compress(Fold(h, Whole(message)), MarkBlock(message)), LengthBlock(message))
  {
    hide *;
    PaddedInTwoBlocks(message);
    FoldJoined(h, Whole(message), MarkBlock(message));
    OneBlock(Fold(h, Whole(message)), MarkBlock(message));
    TwoWhole(message);
    FoldJoined(h, Whole(message) + MarkBlock(message), LengthBlock(message));
    OneBlock(Fold(h, Whole(message) + MarkBlock(message)), LengthBlock(message));
  }

  lemma TwoWhole(message: seq<byte>)
    ensures |Whole(message) + MarkBlock(message)| % 64 == 0
  {
    WholeSum(|Whole(message)|, 64);
  }

  lemma OneBlock(h: Registers, block: seq<byte>)
    requires |block| == 64
    ensures Fold(h, block) == Compress(h, block)
  {
    hide Compress;
    assert block[..0] == [] && block[0..] == block;
  }

  lemma FoldJoined(h: Registers, a: seq<byte>, b: seq<byte>)
    requires |a| % 64 == 0 && |b| % 64 == 0
    ensures Fold(h, a + b) == Fold(Fold(h, a), b)
  {
    hide Fold;
    FoldMore(h, a + b, |a|, |b|);
    assert (a + b)[..|a| + |b|] == a + b && (a + b)[..|a|] == a && (a + b)[|a|..|a| + |b|] == b;
  }

  /** Four stores of I2MD5Final. */
  method PutWord(result: array<byte>, at: nat, w: word)
    requires at + 4 <= result.Length
    modifies result
    ensures result[..] == old(result[..at]) + LowOctetFirst(w) + old(result[at + 4..])
  {
    hide WordOctet;
    result[at] := WordOctet(w, 0);
    result[at + 1] := WordOctet(w, 1);
    result[at + 2] := WordOctet(w, 2);
    result[at + 3] := WordOctet(w, 3);
  }

  method WriteDigest(h: Registers, result: array<byte>)
    requires 16 <= result.Length
    modifies result
    ensures result[..] == DigestOctets(h) + old(result[16..])
  {
    hide LowOctetFirst;
    ghost var was := result[..];
    PutWord(result, 0, h.a);
    Written(result[..], was, 0, [], LowOctetFirst(h.a));
    PutWord(result, 4, h.b);
    Written(result[..], was, 4, LowOctetFirst(h.a), LowOctetFirst(h.b));
    PutWord(result, 8, h.c);
    Written(result[..], was, 8, LowOctetFirst(h.a) + LowOctetFirst(h.b), LowOctetFirst(h.c));
    PutWord(result, 12, h.d);
    assert was[12..][4..] == was[16..];
  }

  /** Four octets more are written, and everything behind them is as it was. */
  lemma Written(s: seq<byte>, was: seq<byte>, at: nat, front: seq<byte>, octets: seq<byte>)
    requires at + 4 <= |s| == |was| && |front| == at && |octets| == 4 && s == front + octets + was[at + 4..]
    ensures s[..at + 4] == front + octets && s[at + 4..] == was[at + 4..]
    ensures at + 8 <= |was| ==> s[at + 8..] == was[at + 8..]
  {
    assert at + 8 <= |was| ==> was[at + 4..][4..] == was[at + 8..];
  }

  /** Feeding a message in any split into chunks digests the concatenation. */
  method DigestOfChunks(chunks: seq<seq<byte>>, direct: bool) returns (digest: seq<byte>)
    requires forall i :: 0 <= i < |chunks| ==> |chunks[i]| < TWO_64
    ensures digest == Md5(Concat(chunks))
  {
    hide Md5, Fold, Whole, Tail, Count.Octets;
    var ctx := new Md5Context(direct);
    for k := 0 to |chunks|
      invariant ctx.Valid() && fresh(ctx) && fresh(ctx.buffer) && fresh(ctx.block)
      invariant ctx.absorbed == Concat(chunks[..k])
    {
      assert chunks[..k + 1][..k] == chunks[..k];
      ctx.Update(chunks[k]);
    }
    assert chunks[..|chunks|] == chunks;
    var out := new byte[16];
    ctx.Final(out);
    digest := out[..16];
  }

  lemma EmptyMessage()
    ensures Fold(INITIAL, Whole([])) == INITIAL && Tail([]) == []
  {
  }

  lemma Wrap61(x: nat, y: nat)
    ensures (x % TWO_61 + y) % TWO_61 == (x + y) % TWO_61
  {
  }

  lemma WholeSum(k: nat, w: nat)
    requires k % 64 == 0 && w % 64 == 0
    ensures (k + w) % 64 == 0 && (0 < w ==> 64 <= w && (w - 64) % 64 == 0 && (k + (w - 64)) % 64 == 0)
  {
  }

  /** Folding more whole blocks onto a prefix. */
  lemma {:induction false} FoldMore(h: Registers, m: seq<byte>, k: nat, w: nat)
    requires k % 64 == 0 && w % 64 == 0 && k + w <= |m|
    ensures (k + w) % 64 == 0 && Fold(h, m[..k + w]) == Fold(Fold(h, m[..k]), m[k..k + w])
    decreases w
  {
    hide Compress;
    WholeSum(k, w);
    if w != 0 {
      FoldMore(h, m, k, w - 64);
      FoldOneMore(h, m, k + w - 64);
      var s := m[k..k + w];
      assert s[..|s| - 64] == m[k..k + w - 64] && s[|s| - 64..] == m[k + w - 64..k + w];
    }
  }
}
