/** Messages cut into 64-octet blocks, as both digests buffer them. */
module Blocks {
  import opened Octets

  /** As few zeros as bring a message and its end mark to 56 octets modulo 64: section 4 of
      FIPS PUB 180-1, section 3.1 of RFC 1321. */
  function ZeroCount(length: nat): (k: nat)
    ensures k < 64 && (length + 1 + k) % 64 == 56
  {
    (119 - length % 64) % 64
  }

  /** The whole blocks of a message, and what is left over. */
  function Whole(message: seq<byte>): (s: seq<byte>)
    ensures |s| % 64 == 0
  {
    message[..|message| - |message| % 64]
  }

  function Tail(message: seq<byte>): (s: seq<byte>)
    ensures |s| < 64
  {
    message[|message| - |message| % 64..]
  }

  lemma AllWhole(message: seq<byte>)
    requires |message| % 64 == 0
    ensures Whole(message) == message && Tail(message) == []
  {
  }

  /** When a chunk completes the buffered block, that block is the next one of the message. */
  lemma CompletedBlock(message: seq<byte>, data: seq<byte>, used: nat)
    requires used == |message| % 64 && 64 <= used + |data|
    ensures Tail(message) + data[..64 - used] == (message + data)[|message| - used..|message| - used + 64]
    ensures Whole(message) == (message + data)[..|message| - used]
  {
  }

  lemma LaterBlocks(message: seq<byte>, data: seq<byte>, i: nat, w: nat)
    requires i + w <= |data|
    ensures data[i..i + w] == (message + data)[|message| + i..|message| + i + w]
  {
  }

  lemma LeftOver(message: seq<byte>, data: seq<byte>, i: nat)
    requires i <= |data| < i + 64 && (|message| + i) % 64 == 0
    ensures Whole(message + data) == (message + data)[..|message| + i] && Tail(message + data) == data[i..]
    ensures |message + data| % 64 == |data| - i
  {
    assert |message + data| % 64 == |data| - i;
  }

  lemma NoBlock(message: seq<byte>, data: seq<byte>, used: nat)
    requires used == |message| % 64 && used + |data| < 64
    ensures Whole(message + data) == Whole(message) && Tail(message + data) == Tail(message) + data
    ensures |message + data| % 64 == used + |data|
  {
    assert |message + data| % 64 == used + |data|;
  }

  /** The chunks of a message, joined. */
  function Concat(chunks: seq<seq<byte>>): seq<byte> {
    if chunks == [] then [] else Concat(chunks[..|chunks| - 1]) + chunks[|chunks| - 1]
  }
}
