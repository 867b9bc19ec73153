/** Octets and 32-bit words, as the C sources use them (uint8_t and uint32_t). */
module Octets {

  datatype Option<T> = None | Some(value: T)

  type byte = bv8
  type word = bv32

  /** uint32_t values used as counters: kept as integers, wrapped explicitly. */
  const TWO_32 := 0x1_0000_0000
  const TWO_61 := 0x2000_0000_0000_0000
  const TWO_64 := 0x1_0000_0000_0000_0000

  /** Addition of words, modulo 2^32. Named, so that proofs about rounds can treat it as a symbol. */
  function Plus(x: word, y: word): word {
    x + y
  }

  lemma PlusCommutes(x: word, y: word)
    ensures Plus(x, y) == Plus(y, x)
  {
  }

  lemma PlusAssociates(x: word, y: word, z: word)
    ensures Plus(Plus(x, y), z) == Plus(x, Plus(y, z))
  {
    calc {
      Plus(Plus(x, y), z);
      Plus(x, y) + z;
      (x + y) + z;
      x + (y + z);
      x + Plus(y, z);
      Plus(x, Plus(y, z));
    }
  }

  /** Circular left shift, the operation S^n of FIPS PUB 180-1 and <<< of RFC 1321. */
  function Rotl(x: word, n: nat): word
    requires 0 < n < 32
  {
    (x << n) | (x >> (32 - n))
  }

  /** Word number i of an octet string whose most significant octet comes first. */
  function BigEndianWord(s: seq<byte>, i: nat): word
    requires 4 * i + 4 <= |s|
  {
    ((s[4 * i] as word) << 24) | ((s[4 * i + 1] as word) << 16) | ((s[4 * i + 2] as word) << 8) | (s[4 * i + 3] as word)
  }

  /** Word number i of an octet string whose least significant octet comes first. */
  function LittleEndianWord(s: seq<byte>, i: nat): word
    requires 4 * i + 4 <= |s|
  {
    (s[4 * i] as word) | ((s[4 * i + 1] as word) << 8) | ((s[4 * i + 2] as word) << 16) | ((s[4 * i + 3] as word) << 24)
  }

  type uint32 = x: int | 0 <= x < TWO_32

  /** i++ on an unsigned int. */
  function Tick(i: uint32): uint32 {
    (i + 1) % TWO_32
  }

  lemma TickBelow(i: uint32, limit: nat)
    requires i < limit < TWO_32
    ensures Tick(i) == i + 1
  {
  }

  /** Such a counter after n passes of a loop. */
  function Ticks(n: nat): uint32 {
    if n == 0 then 0 else Tick(Ticks(n - 1))
  }

  lemma {:induction false} TicksAre(n: nat)
    requires n < TWO_32
    ensures Ticks(n) == n
  {
    if n > 0 {
      TicksAre(n - 1);
    }
  }

  /** A loop that runs while such a counter is below a size_t comes to an end if and only if that is
      below 2^32: otherwise the counter wraps before it gets there. */
  lemma LoopEnds(limit: nat)
    ensures (exists n: nat :: limit <= Ticks(n)) <==> limit < TWO_32
  {
    hide Ticks;
    if limit < TWO_32 {
      TicksAre(limit);
      assert limit <= Ticks(limit);
    }
  }

  function Repeat(b: byte, n: nat): (s: seq<byte>)
    ensures |s| == n
  {
    seq(n, _ => b)
  }

  function Zeros(n: nat): (s: seq<byte>)
    ensures |s| == n
  {
    Repeat(0, n)
  }

  /** Octet k of a word, least significant first, and its octets in both orders. */
  function WordOctet(w: word, k: nat): byte
    requires k < 4
  {
    ((w >> (8 * k)) & 0xFF) as byte
  }

  function LowOctetFirst(w: word): (s: seq<byte>)
    ensures |s| == 4
  {
    [WordOctet(w, 0), WordOctet(w, 1), WordOctet(w, 2), WordOctet(w, 3)]
  }

  function HighOctetFirst(w: word): (s: seq<byte>)
    ensures |s| == 4
  {
    [WordOctet(w, 3), WordOctet(w, 2), WordOctet(w, 1), WordOctet(w, 0)]
  }

  /** Remainders of numbers given by quotient and remainder. */
  lemma Mod64(q: int, r: int)
    ensures (64 * q + r) % 64 == r % 64
  {
  }

  lemma DivMod32(q: nat, r: nat)
    requires r < TWO_32
    ensures (TWO_32 * q + r) % TWO_32 == r && (TWO_32 * q + r) / TWO_32 == q
  {
  }

  lemma ModTwo64(q: nat, r: nat)
    requires r < TWO_64
    ensures (TWO_64 * q + r) % TWO_64 == r
  {
  }

  /** Octet k, most significant first, of a counter. */
  function CountOctet(n: uint32, k: nat): byte
    requires k < 4
  {
    if k == 0 then (n / 0x100_0000 % 256) as byte
    else if k == 1 then (n / 0x1_0000 % 256) as byte
    else if k == 2 then (n / 0x100 % 256) as byte
    else (n % 256) as byte
  }

  function BigEndian32(n: uint32): (s: seq<byte>)
    ensures |s| == 4
  {
    [CountOctet(n, 0), CountOctet(n, 1), CountOctet(n, 2), CountOctet(n, 3)]
  }

  function LittleEndian32(n: uint32): (s: seq<byte>)
    ensures |s| == 4
  {
    [CountOctet(n, 3), CountOctet(n, 2), CountOctet(n, 1), CountOctet(n, 0)]
  }

  /** memcpy into part of a buffer. */
  method CopyInto(buffer: array<byte>, at: nat, data: seq<byte>)
    requires at + |data| <= buffer.Length
    modifies buffer
    ensures buffer[..] == old(buffer[..at]) + data + old(buffer[at + |data|..])
  {
    forall k | 0 <= k < |data| {
      buffer[at + k] := data[k];
    }
  }

  /** memset of part of a buffer. */
  method Fill(buffer: array<byte>, at: nat, n: nat, b: byte)
    requires at + n <= buffer.Length
    modifies buffer
    ensures buffer[..] == old(buffer[..at]) + Repeat(b, n) + old(buffer[at + n..])
  {
    forall k | 0 <= k < n {
      buffer[at + k] := b;
    }
  }
}
