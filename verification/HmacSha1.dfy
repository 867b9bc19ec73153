/** HMAC-SHA1 of hmac-sha1.c against section 2 of RFC 2104. */
module HmacSha1 {
  import opened Octets
  import opened Blocks
  import Sha1Standard
  import opened Sha1Digest
  import opened Sha1Stream

  function XorOctets(a: seq<byte>, b: seq<byte>): (s: seq<byte>)
    requires |a| == |b|
    ensures |s| == |a|
  {
    seq(|a|, i requires 0 <= i < |a| => a[i] ^ b[i])
  }

  /** Section 2 of RFC 2104: the key, hashed if it is longer than a block, padded with zeros. */
  function BlockKey(key: seq<byte>): (k: seq<byte>)
    ensures |k| == 64
  {
    if |key| > 64 then Sha1(key) + Zeros(44) else key + Zeros(64 - |key|)
  }

  /** Section 2 of RFC 2104: H(K XOR opad, H(K XOR ipad, text)). */
  function Hmac(key: seq<byte>, text: seq<byte>): (s: seq<byte>)
    ensures |s| == 20
  {
    var k := BlockKey(key);
    Sha1(XorOctets(Repeat(0x5c, 64), k) + Sha1(XorOctets(Repeat(0x36, 64), k) + text))
  }

  /** The key block as I2HMACSha1Init builds it: the hash of a long key carries the count that
      one I2Sha1 call records for it. */
  function StoredKey(key: seq<byte>): (k: seq<byte>)
    requires |key| < TWO_32
    ensures |k| == 64
  {
    if |key| > 64 then DigestWithCount(key, CountAfter(Count(0, 0), |key|).Value()) + Zeros(44)
    else key + Zeros(64 - |key|)
  }

  /** The two nested hashes over a given key block, the inner one recording a given bit count. */
  function HmacWith(k: seq<byte>, text: seq<byte>, bits: nat): (s: seq<byte>)
    requires |k| == 64 && bits < TWO_64
    ensures |s| == 20
  {
    Sha1(XorOctets(Repeat(0x5c, 64), k) + DigestWithCount(XorOctets(Repeat(0x36, 64), k) + text, bits))
  }

  /** What one call of I2HMACSha1 computes: the nested hashes with the counts that it records. Lengths
      are uint32_t. */
  function OneCall(key: seq<byte>, text: seq<byte>): (s: seq<byte>)
    ensures |s| == 20
  {
    if |key| < TWO_32 && |text| < TWO_32 then
      HmacWith(StoredKey(key), text, CountAfter(Count(512, 0), |text|).Value())
    else Hmac(key, text)
  }

  // ---------------------------------------------------------------- octet by octet

  /** The block key: the octets of the key, or of its hash, and zeros behind them. */
  lemma BlockKeyIs(key: seq<byte>, i: nat)
    requires i < 64
    ensures BlockKey(key)[i] == if |key| <= 64 then (if i < |key| then key[i] else 0)
                                else if i < 20 then Sha1(key)[i] else 0
    ensures |key| < TWO_32 ==>
              StoredKey(key)[i] == if |key| <= 64 then (if i < |key| then key[i] else 0)
                                   else if i < 20 then DigestWithCount(key, CountAfter(Count(0, 0), |key|).Value())[i]
                                   else 0
  {
    hide DigestWithCount, Sha1, CountAfter, Count.Value;
  }

  /** The two hashes: the inner one over the key block with 0x36 in front of the text, the outer one over the
      key block with 0x5c in front of the inner digest. */
  lemma NestedHashes(key: seq<byte>, k: seq<byte>, text: seq<byte>, bits: nat, ipad: seq<byte>, opad: seq<byte>)
    requires |k| == |ipad| == |opad| == 64 && bits < TWO_64
    requires forall i :: 0 <= i < 64 ==> ipad[i] == k[i] ^ 0x36 && opad[i] == k[i] ^ 0x5c
    ensures HmacWith(k, text, bits) == Sha1(opad + DigestWithCount(ipad + text, bits))
    ensures k == BlockKey(key) ==> Hmac(key, text) == Sha1(opad + Sha1(ipad + text))
  {
    XoredIs(k, opad, 0x5c);
    XoredIs(k, ipad, 0x36);
    hide XorOctets, Sha1, DigestWithCount, BlockKey, Repeat;
  }

  lemma XoredIs(k: seq<byte>, pad: seq<byte>, b: byte)
    requires |k| == |pad| == 64 && forall i :: 0 <= i < 64 ==> pad[i] == k[i] ^ b
    ensures XorOctets(Repeat(b, 64), k) == pad
  {
    var x := XorOctets(Repeat(b, 64), k);
    forall i | 0 <= i < 64 ensures x[i] == pad[i] {
      XorCommutes(b, k[i]);
    }
  }

  lemma XorCommutes(x: byte, y: byte)
    ensures x ^ y == y ^ x
  {
  }

  lemma XorOctetsAt(a: seq<byte>, b: seq<byte>, i: nat)
    requires i < |a| == |b|
    ensures XorOctets(a, b)[i] == a[i] ^ b[i]
  {
  }

  // ---------------------------------------------------------------- counts

  /** A key that is not hashed, or that its own hash counts exactly. */
  lemma KeyExact(key: seq<byte>)
    requires |key| < 0x2000_0000
    ensures StoredKey(key) == BlockKey(key)
  {
    hide DigestWithCount, Zeros, Count.Value, CountAfter;
    OneChunk(|key|);
  }

  lemma HmacExact(key: seq<byte>, text: seq<byte>, bits: nat)
    requires bits == 8 * (64 + |text|) % TWO_64
    ensures HmacWith(BlockKey(key), text, bits) == Hmac(key, text)
  {
    hide DigestWithCount, BlockKey, XorOctets, Repeat;
  }

  class HmacContext {
    const sha1: Sha1Context
    const opad: array<byte>
    ghost var blockKey: seq<byte>
    ghost var text: seq<byte>

    constructor (littleEndian: bool)
      ensures Separate() && fresh(sha1) && fresh(sha1.buffer) && fresh(opad)
    {
      sha1 := new Sha1Context(littleEndian);
      opad := new byte[64](_ => 0);
      blockKey, text := [], [];
    }

    ghost predicate Separate()
      reads this
    {
      opad.Length == 64 && sha1.buffer.Length == 64 && sha1.buffer != opad
    }

    /** opad waits for the outer hash; the SHA-1 context has taken the inner pad and the text. */
    ghost predicate Valid()
      reads this, opad, sha1, sha1.buffer
    {
      && Separate()
      && sha1.Valid()
      && |blockKey| == 64
      && opad[..] == XorOctets(Repeat(0x5c, 64), blockKey)
      && sha1.absorbed == XorOctets(Repeat(0x36, 64), blockKey) + text
    }

    /** I2HMACSha1Init, for every key length. */
    method Init(inkey: seq<byte>)
      requires Separate() && |inkey| < TWO_32
      modifies this, opad, sha1, sha1.buffer
      ensures Valid() && blockKey == StoredKey(inkey) && text == []
      ensures sha1.count == Count(512, 0) && sha1.dropped == 0
    {
      hide Sha1Context.Valid, DigestWithCount, Sha1, Lost, CountAfter, Count.Value, XorOctets;
      FirstBlockCounted();
      var ipad := new byte[64](_ => 0x36);
      var key := new byte[64](_ => 0);
      assert ipad[..] == Repeat(0x36, 64) && key[..] == Zeros(64);
      Fill(opad, 0, 64, 0x5c);
      assert opad[..] == Repeat(0x5c, 64);
      if |inkey| > 64 {
        Sha1Once(inkey, key, sha1.littleEndian);
        assert key[..] == key[..20] + key[20..] && Zeros(64)[20..] == Zeros(44);
      } else {
        CopyInto(key, 0, inkey);
      }
      assert key[..] == StoredKey(inkey);
      XorInto(ipad, key);
      XorInto(opad, key);
      sha1.Init();
      sha1.Append(ipad[..]);
      blockKey, text := StoredKey(inkey), [];
      assert [] + ipad[..] == ipad[..] + [];
    }

    lemma Separately()
      requires Valid()
      ensures Separate()
    {
    }

    /** How much of the SHA-1 buffer a valid context uses: the inner pad has filled a block. */
    lemma UseIs()
      requires Valid()
      ensures sha1.count.BlockUse() == |text| % 64
    {
      hide Sha1Context.Valid, Count.BlockUse, XorOctets, Repeat;
      sha1.UseIs();
      Mod64(1, |text|);
    }

    /** I2HMACSha1Append, which refuses an empty text. */
    method Append(txt: seq<byte>)
      requires Valid() && 0 < |txt| && sha1.count.BlockUse() + |txt| < TWO_32
      modifies this, sha1, sha1.buffer
      ensures Valid() && blockKey == old(blockKey) && text == old(text) + txt
      ensures sha1.count == CountAfter(old(sha1.count), |txt|)
      ensures sha1.dropped == old(sha1.dropped) + Lost(old(sha1.count), |txt|)
    {
      hide Sha1Context.Valid, Lost, CountAfter, XorOctets, Repeat;
      sha1.Append(txt);
      text := text + txt;
    }

    /** I2HMACSha1Finish: the one SHA-1 context, finished and wiped, is used again for the outer hash. */
    method Finish(digest: array<byte>)
      requires Valid() && 20 <= digest.Length && digest != sha1.buffer && digest != opad
      modifies sha1, sha1.buffer, digest
      ensures sha1.state == Sha1Standard.Registers(0, 0, 0, 0, 0) && sha1.count == Count(0, 0)
      ensures sha1.buffer[..] == Zeros(64)
      ensures digest[..20] == HmacWith(old(blockKey), old(text), old(sha1.count.Value()))
      ensures digest[20..] == old(digest[20..])
    {
      OuterHash();
      hide Sha1Context.Valid, DigestWithCount, Lost, CountAfter, Count.Value, XorOctets, Repeat;
      var inner := new byte[20];
      sha1.Finish(inner);
      assert inner[..20] == inner[..];
      sha1.Init();
      sha1.Append(opad[..]);
      sha1.Append(inner[..]);
      assert sha1.absorbed == opad[..] + inner[..];
      sha1.Finish(digest);
    }
  }

  lemma FirstBlockCounted()
    ensures CountAfter(Count(0, 0), 64) == Count(512, 0) && Lost(Count(0, 0), 64) == 0
  {
  }

  lemma OuterHash()
    ensures CountAfter(CountAfter(Count(0, 0), 64), 20).Value() == 8 * 84 % TWO_64
  {
    FirstBlockCounted();
    assert CountAfter(Count(512, 0), 20) == Count(672, 0);
  }

  /** How far a block has been combined with the key. */
  predicate XoredSoFar(pad: seq<byte>, was: seq<byte>, key: seq<byte>, i: nat) {
    i <= |pad| == |was| == |key| && pad[..i] == XorOctets(was[..i], key[..i]) && pad[i..] == was[i..]
  }

  lemma XoredMore(pad: seq<byte>, was: seq<byte>, key: seq<byte>, i: nat)
    requires XoredSoFar(pad, was, key, i) && i < |pad|
    ensures XoredSoFar(pad[i := pad[i] ^ key[i]], was, key, i + 1)
  {
    XorOneMore(was, key, i);
    assert pad[i..][0] == was[i..][0];
    hide XorOctets;
    NextWritten(pad, was, i, was[i] ^ key[i]);
  }

  lemma XorOneMore(a: seq<byte>, b: seq<byte>, i: nat)
    requires i < |a| == |b|
    ensures XorOctets(a[..i + 1], b[..i + 1]) == XorOctets(a[..i], b[..i]) + [a[i] ^ b[i]]
  {
    var x, y := XorOctets(a[..i + 1], b[..i + 1]), XorOctets(a[..i], b[..i]) + [a[i] ^ b[i]];
    assert forall k :: 0 <= k < i ==> x[k] == a[k] ^ b[k] == y[k];
    assert x[i] == y[i];
  }

  /** One element more has been written. */
  lemma NextWritten(s: seq<byte>, was: seq<byte>, i: nat, b: byte)
    requires i < |s| == |was| && s[i..] == was[i..]
    ensures s[i := b][..i + 1] == s[..i] + [b] && s[i := b][i + 1..] == was[i + 1..]
  {
    assert s[i..][1..] == was[i..][1..];
  }

  lemma XoredEnds(pad: seq<byte>, was: seq<byte>, key: seq<byte>)
    requires |pad| == |was| == |key|
    ensures XoredSoFar(was, was, key, 0)
    ensures XoredSoFar(pad, was, key, |pad|) ==> pad == XorOctets(was, key)
  {
    assert pad[..|pad|] == pad && was[..|was|] == was && key[..|key|] == key;
  }

  /** ipad[i] ^= key[i], for the whole block. */
  method XorInto(pad: array<byte>, blockKey: array<byte>)
    requires pad.Length == 64 == blockKey.Length && pad != blockKey
    modifies pad
    ensures pad[..] == XorOctets(old(pad[..]), blockKey[..])
  {
    hide XoredSoFar, XorOctets;
    ghost var was := pad[..];
    XoredEnds(was, was, blockKey[..]);
    for i := 0 to 64
      invariant XoredSoFar(pad[..], was, blockKey[..], i)
    {
      ghost var before := pad[..];
      XoredMore(before, was, blockKey[..], i);
      pad[i] := pad[i] ^ blockKey[i];
      assert pad[..] == before[i := before[i] ^ blockKey[i]];
    }
    XoredEnds(pad[..], was, blockKey[..]);
  }

  /** I2HMACSha1: one call does it all, for all lengths. The text is read before the digest is written,
      so the two may share memory. The digest is the standard's if the key is hashed, if at all, and the
      text counted exactly. */
  method HmacOnce(key: seq<byte>, txt: array<byte>, txtlen: nat, digest: array<byte>, littleEndian: bool)
    requires |key| < TWO_32 && 0 < txtlen <= txt.Length && txtlen < TWO_32 && 20 <= digest.Length
    modifies digest
    ensures digest[..20] == OneCall(key, old(txt[..txtlen]))
    ensures |key| < 0x2000_0000 && Lost(Count(512, 0), txtlen) == 0 ==> digest[..20] == Hmac(key, old(txt[..txtlen]))
    ensures digest[20..] == old(digest[20..])
  {
    hide *;
    ghost var text, rest := txt[..txtlen], digest[20..];
    OneCallExact(key, text);
    OneBlockUse();
    var hmac := new HmacContext(littleEndian);
    hmac.Init(key);
    hmac.Append(txt[..txtlen]);
    NothingBefore(text);
    hmac.Separately();
    assert digest[20..] == rest;
    hmac.Finish(digest);
  }

  lemma NothingBefore(text: seq<byte>)
    ensures [] + text == text
  {
  }

  lemma OneBlockUse()
    ensures Count(512, 0).BlockUse() == 0
  {
  }

  /** It is the standard's function if the key is hashed, if at all, and the text counted exactly. */
  lemma OneCallExact(key: seq<byte>, text: seq<byte>)
    requires |key| < TWO_32 && |text| < TWO_32
    ensures OneCall(key, text) == HmacWith(StoredKey(key), text, CountAfter(Count(512, 0), |text|).Value())
    ensures |key| < 0x2000_0000 && Lost(Count(512, 0), |text|) == 0 ==> OneCall(key, text) == Hmac(key, text)
  {
    hide HmacWith, StoredKey, Hmac, CountAfter, Lost;
    if |key| < 0x2000_0000 && Lost(Count(512, 0), |text|) == 0 {
      KeyExact(key);
      CountUpdate(Count(512, 0), |text|);
      HmacExact(key, text, CountAfter(Count(512, 0), |text|).Value());
    }
  }

  /** HMAC by any split of the text into non-empty chunks: the nested hashes with the count recorded for
      that run, and so the standard's function when no carry is lost. */
  method HmacOfChunks(key: seq<byte>, chunks: seq<seq<byte>>, littleEndian: bool) returns (digest: seq<byte>)
    requires |key| < TWO_32 && Appendable(chunks)
    requires forall i :: 0 <= i < |chunks| ==> 0 < |chunks[i]|
    ensures digest == HmacWith(StoredKey(key), Concat(chunks), CountRun(Count(512, 0), chunks).Value())
    ensures |key| < 0x2000_0000 && LostRun(Count(512, 0), chunks) % TWO_32 == 0 ==> digest == Hmac(key, Concat(chunks))
  {
    hide *;
    OneBlockCounted(chunks);
    RunGivesHmac(key, chunks);
    var hmac := new HmacContext(littleEndian);
    hmac.Init(key);
    for k := 0 to |chunks|
      invariant fresh(hmac) && fresh(hmac.opad) && fresh(hmac.sha1) && fresh(hmac.sha1.buffer)
      invariant hmac.Valid() && hmac.blockKey == StoredKey(key) && Appendable(chunks[..k])
      invariant hmac.text == Concat(chunks[..k]) && hmac.sha1.count == CountRun(Count(512, 0), chunks[..k])
    {
      AppendableAt(chunks, k);
      RunOneMore(Count(512, 0), chunks, k);
      hmac.UseIs();
      hmac.Append(chunks[k]);
    }
    assert chunks[..|chunks|] == chunks;
    var out := new byte[20];
    hmac.Finish(out);
    digest := out[..20];
  }

  /** The inner pad fills a block, which is counted. */
  lemma OneBlockCounted(chunks: seq<seq<byte>>)
    ensures Count(512, 0).Value() == 8 * 64 % TWO_64
    ensures Appendable(chunks[..0]) && Concat(chunks[..0]) == []
            && CountRun(Count(512, 0), chunks[..0]) == Count(512, 0)
  {
  }

  lemma RunOneMore(c: Count, chunks: seq<seq<byte>>, k: nat)
    requires k < |chunks| && Appendable(chunks[..k]) && Appendable(chunks[..k + 1])
    ensures |chunks[k]| < TWO_32
    ensures CountRun(c, chunks[..k + 1]) == CountAfter(CountRun(c, chunks[..k]), |chunks[k]|)
  {
    assert chunks[..k + 1][..k] == chunks[..k];
    hide CountAfter;
  }

  lemma RunGivesHmac(key: seq<byte>, chunks: seq<seq<byte>>)
    requires |key| < TWO_32 && Appendable(chunks)
    ensures |key| < 0x2000_0000 && LostRun(Count(512, 0), chunks) % TWO_32 == 0 ==>
              HmacWith(StoredKey(key), Concat(chunks), CountRun(Count(512, 0), chunks).Value())
              == Hmac(key, Concat(chunks))
  {
    OneBlockCounted(chunks);
    hide HmacWith, StoredKey, Hmac, CountRun, LostRun, Appendable, Concat;
    RunExact(Count(512, 0), 64, chunks);
    if |key| < 0x2000_0000 && LostRun(Count(512, 0), chunks) % TWO_32 == 0 {
      KeyExact(key);
      HmacExact(key, Concat(chunks), CountRun(Count(512, 0), chunks).Value());
    }
  }
}
