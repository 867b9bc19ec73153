/** The hex codec of hex.c, over memory that source and destination may share. */
module Hex {
  import opened Octets

  /** Digit characters, on values below 16. */
  function Digit(v: byte): byte {
    if v < 10 then 48 + v else 87 + v
  }

  /** tolower in the C locale. */
  function Lower(c: byte): byte {
    if 65 <= c <= 90 then c + 32 else c
  }

  /** The value of a hex digit of either case. */
  function Value(c: byte): Option<byte> {
    var a := Lower(c);
    if 48 <= a <= 57 then Some(a - 48)
    else if 97 <= a <= 102 then Some(a - 87)
    else None
  }

  function Encode(bytes: seq<byte>): (s: seq<byte>)
    ensures |s| == 2 * |bytes|
  {
    if bytes == [] then [] else
      var b := bytes[|bytes| - 1];
      Encode(bytes[..|bytes| - 1]) + [Digit(b >> 4), Digit(b & 15)]
  }

  /** One output octet: two digits, or what is left of them when the text runs out. */
  function DecodePair(s: seq<byte>, k: nat): Option<byte>
  {
    if 2 * k >= |s| then Some(0)
    else
      match Value(s[2 * k])
      case None => None
      case Some(hi) =>
        if 2 * k + 1 == |s| then Some(hi << 4)
        else match Value(s[2 * k + 1])
             case None => None
             case Some(lo) => Some((hi << 4) | lo)
  }

  function Decode(s: seq<byte>, n: nat): (r: Option<seq<byte>>)
    ensures r.Some? ==> |r.value| == n
  {
    if n == 0 then Some([]) else
      match (Decode(s, n - 1), DecodePair(s, n - 1))
      case (Some(front), Some(b)) => Some(front + [b])
      case _ => None
  }

  function LowerAll(s: seq<byte>): (r: seq<byte>)
    ensures |r| == |s|
  {
    seq(|s|, i requires 0 <= i < |s| => Lower(s[i]))
  }

  /** The characters 0 to 9 and a to f. */
  lemma Digits()
    ensures Digit(0) == 48 && Digit(1) == 49 && Digit(2) == 50 && Digit(3) == 51 && Digit(4) == 52 && Digit(5) == 53
    ensures Digit(6) == 54 && Digit(7) == 55 && Digit(8) == 56 && Digit(9) == 57 && Digit(10) == 97 && Digit(11) == 98
    ensures Digit(12) == 99 && Digit(13) == 100 && Digit(14) == 101 && Digit(15) == 102
  {
  }

  /** A character has a value if and only if it is one of these or an upper-case letter of theirs. */
  lemma ValueIs(c: byte, v: byte)
    ensures Value(c) == Some(v) <==> v < 16 && (c == Digit(v) || (10 <= v && c + 32 == Digit(v)))
  {
  }

  /** Letters from A to Z, and no other characters, move by 32. */
  lemma LowerIs(c: byte)
    ensures 65 <= c <= 90 ==> Lower(c) == c + 32
    ensures c < 65 || 90 < c ==> Lower(c) == c
  {
  }

  lemma NibblesJoin(b: byte)
    ensures ((b >> 4) << 4) | (b & 15) == b && b >> 4 < 16 && b & 15 < 16
  {
  }

  lemma DigitHasValue(v: byte)
    requires v < 16
    ensures Value(Digit(v)) == Some(v)
  {
  }

  lemma ValueHasDigit(c: byte)
    requires Value(c).Some?
    ensures Value(c).value < 16 && Digit(Value(c).value) == Lower(c)
  {
  }

  lemma NibblesSplit(hi: byte, lo: byte)
    requires hi < 16 && lo < 16
    ensures ((hi << 4) | lo) >> 4 == hi && ((hi << 4) | lo) & 15 == lo
  {
  }

  /** Decoding succeeds exactly when every character it reads is a hex digit. */
  lemma {:induction false} DecodeSucceeds(s: seq<byte>, n: nat)
    ensures Decode(s, n).Some? <==> forall i :: 0 <= i < |s| && i < 2 * n ==> Value(s[i]).Some?
  {
    hide Value;
    if n > 0 {
      DecodeSucceeds(s, n - 1);
    }
  }

  /** Octet k becomes two digits, the one of its high half first. */
  lemma {:induction false} EncodedAt(bytes: seq<byte>, k: nat)
    requires k < |bytes|
    ensures Encode(bytes)[2 * k] == Digit(bytes[k] >> 4) && Encode(bytes)[2 * k + 1] == Digit(bytes[k] & 15)
  {
    hide Digit;
    if k < |bytes| - 1 {
      EncodedAt(bytes[..|bytes| - 1], k);
    }
  }

  lemma PairBack(bytes: seq<byte>, rest: seq<byte>, k: nat)
    requires k < |bytes|
    ensures DecodePair(Encode(bytes) + rest, k) == Some(bytes[k])
  {
    var b, s := bytes[k], Encode(bytes) + rest;
    EncodedAt(bytes, k);
    hide Value, Digit, Encode;
    NibblesJoin(b);
    DigitHasValue(b >> 4);
    DigitHasValue(b & 15);
    assert s[2 * k] == Digit(b >> 4) && s[2 * k + 1] == Digit(b & 15);
  }

  /** Decoding undoes encoding, whatever follows the encoded text. */
  lemma {:induction false} DecodeEncode(bytes: seq<byte>, rest: seq<byte>, n: nat)
    requires n <= |bytes|
    ensures Decode(Encode(bytes) + rest, n) == Some(bytes[..n])
  {
    hide DecodePair, Encode;
    if n > 0 {
      DecodeEncode(bytes, rest, n - 1);
      PairBack(bytes, rest, n - 1);
      assert bytes[..n] == bytes[..n - 1] + [bytes[n - 1]];
    }
  }

  lemma PairEncodes(hi: byte, lo: byte)
    requires Value(hi).Some? && Value(lo).Some?
    ensures var b := (Value(hi).value << 4) | Value(lo).value;
            Digit(b >> 4) == Lower(hi) && Digit(b & 15) == Lower(lo)
  {
    ValueHasDigit(hi);
    ValueHasDigit(lo);
    NibblesSplit(Value(hi).value, Value(lo).value);
    hide Value, Digit, Lower;
  }

  lemma DecodeSucceedsAt(s: seq<byte>, n: nat)
    requires 0 < n && 2 * n <= |s| && Decode(s, n).Some?
    ensures Value(s[2 * n - 2]).Some? && Value(s[2 * n - 1]).Some?
    ensures DecodePair(s, n - 1) == Some((Value(s[2 * n - 2]).value << 4) | Value(s[2 * n - 1]).value)
  {
    hide Value;
  }

  lemma {:induction false} LongEncodeDecode(s: seq<byte>, n: nat)
    requires 2 * n <= |s| && Decode(s, n).Some?
    ensures Encode(Decode(s, n).value) == LowerAll(s[..2 * n])
  {
    hide Value, Digit, Lower, LowerAll, DecodePair;
    if n > 0 {
      LongEncodeDecode(s, n - 1);
      DecodeSucceedsAt(s, n);
      PairEncodes(s[2 * n - 2], s[2 * n - 1]);
      var front, r := Decode(s, n - 1).value, Decode(s, n).value;
      assert r[..n - 1] == front;
      LowerTwoMore(s, n);
    }
  }

  lemma LowerTwoMore(s: seq<byte>, n: nat)
    requires 0 < n && 2 * n <= |s|
    ensures LowerAll(s[..2 * n]) == LowerAll(s[..2 * n - 2]) + [Lower(s[2 * n - 2]), Lower(s[2 * n - 1])]
  {
    hide Lower;
  }

  /** A text with the digit 0 behind it for what it lacks. */
  const ZERO: byte := 48

  lemma ZeroPair(s: seq<byte>, z: nat, k: nat)
    requires 2 * k + 2 <= |s| + z
    ensures DecodePair(s, k) == DecodePair(s + Repeat(ZERO, z), k)
  {
    var t := s + Repeat(ZERO, z);
    ZeroDigit();
    hide Value;
    if 2 * k + 1 == |s| {
      if Value(s[2 * k]).Some? {
        ZeroLow(Value(s[2 * k]).value);
      }
    }
  }

  lemma ZeroDigit()
    ensures Value(ZERO) == Some(0) && (0 << 4) | 0 == 0 as byte
  {
  }

  lemma ZeroLow(hi: byte)
    ensures (hi << 4) | 0 == hi << 4
  {
  }

  lemma {:induction false} DecodeZeros(s: seq<byte>, z: nat, n: nat)
    requires 2 * n <= |s| + z
    ensures Decode(s, n) == Decode(s + Repeat(ZERO, z), n)
  {
    hide DecodePair;
    if n > 0 {
      DecodeZeros(s, z, n - 1);
      ZeroPair(s, z, n - 1);
    }
  }

  /** Encoding what a text decodes to lower-cases it, cuts it off, or fills it up with zeros. */
  lemma {:induction false} EncodeDecode(s: seq<byte>, n: nat)
    requires Decode(s, n).Some?
    ensures Encode(Decode(s, n).value) == LowerAll((s + Repeat(ZERO, 2 * n))[..2 * n])
  {
    hide *;
    DecodeZeros(s, 2 * n, n);
    LongEncodeDecode(s + Repeat(ZERO, 2 * n), n);
  }

  /** The table both functions of hex.c spell out, with the nul that ends it. */
  function Table(k: nat): byte
    requires k < 17
  {
    match k
    case 0 => 48
    case 1 => 49
    case 2 => 50
    case 3 => 51
    case 4 => 52
    case 5 => 53
    case 6 => 54
    case 7 => 55
    case 8 => 56
    case 9 => 57
    case 10 => 97
    case 11 => 98
    case 12 => 99
    case 13 => 100
    case 14 => 101
    case 15 => 102
    case _ => 0
  }

  lemma TableDigit(v: byte)
    requires v < 16
    ensures (v as int) < 16 && Table(v as int) == Digit(v)
  {
  }

  /** How far an encoding has come: two characters for each of the first i octets. */
  ghost predicate EncodedSoFar(memory: seq<byte>, was: seq<byte>, bytes: seq<byte>, i: nat) {
    && i <= |bytes| && 2 * i <= |was| == |memory|
    && memory[..2 * i] == Encode(bytes[..i]) && memory[2 * i..] == was[2 * i..]
  }

  lemma EncodedMore(memory: seq<byte>, was: seq<byte>, bytes: seq<byte>, i: nat)
    requires EncodedSoFar(memory, was, bytes, i) && i < |bytes| && 2 * i + 2 <= |was|
    ensures EncodedSoFar(memory[2 * i := Digit(bytes[i] >> 4)][2 * i + 1 := Digit(bytes[i] & 15)], was, bytes, i + 1)
  {
    EncodeOneMore(bytes, i);
    hide *;
    TwoWritten(memory, was, 2 * i, Digit(bytes[i] >> 4), Digit(bytes[i] & 15));
  }

  lemma EncodeOneMore(bytes: seq<byte>, i: nat)
    requires i < |bytes|
    ensures Encode(bytes[..i + 1]) == Encode(bytes[..i]) + [Digit(bytes[i] >> 4), Digit(bytes[i] & 15)]
  {
    hide Digit;
    assert bytes[..i + 1][..i] == bytes[..i];
  }

  lemma TwoWritten(s: seq<byte>, was: seq<byte>, n: nat, x: byte, y: byte)
    requires n + 2 <= |s| == |was| && s[n..] == was[n..]
    ensures s[n := x][n + 1 := y][..n + 2] == s[..n] + [x, y]
    ensures s[n := x][n + 1 := y][n + 2..] == was[n + 2..]
  {
    assert s[n..][2..] == was[n..][2..];
  }

  lemma EncodedAll(memory: seq<byte>, was: seq<byte>, bytes: seq<byte>, n: nat)
    requires EncodedSoFar(memory, was, bytes, |bytes|) && n == 2 * |bytes| < |was|
    ensures memory[n := 0][..n + 1] == Encode(bytes) + [0] && memory[n := 0][n + 1..] == was[n + 1..]
  {
    AllEncoded(memory, was, bytes);
    hide *;
    Terminate(memory, was, n);
  }

  lemma AllEncoded(memory: seq<byte>, was: seq<byte>, bytes: seq<byte>)
    requires EncodedSoFar(memory, was, bytes, |bytes|)
    ensures memory[..2 * |bytes|] == Encode(bytes)
  {
    assert bytes[..|bytes|] == bytes;
  }

  lemma Terminate(memory: seq<byte>, was: seq<byte>, n: nat)
    requires n < |was| == |memory| && memory[n..] == was[n..]
    ensures memory[n := 0][..n + 1] == memory[..n] + [0] && memory[n := 0][n + 1..] == was[n + 1..]
  {
    assert memory[n..][1..] == was[n..][1..];
  }

  /** I2HexEncode: two characters for each octet, and a terminating nul. */
  method HexEncode(buff: array<byte>, bytes: seq<byte>)
    requires 2 * |bytes| + 1 <= buff.Length
    modifies buff
    ensures buff[..2 * |bytes| + 1] == Encode(bytes) + [0]
    ensures buff[2 * |bytes| + 1..] == old(buff[2 * |bytes| + 1..])
  {
    ghost var was := buff[..];
    assert EncodedSoFar(was, was, bytes, 0);
    hide Digit, Table, EncodedSoFar, Encode;
    var at := 0;
    for i := 0 to |bytes|
      invariant at == 2 * i && EncodedSoFar(buff[..], was, bytes, i)
    {
      ghost var memory := buff[..];
      TableDigit(bytes[i] >> 4);
      TableDigit(bytes[i] & 15);
      EncodedMore(memory, was, bytes, i);
      buff[at] := Table((bytes[i] >> 4) as int);
      buff[at + 1] := Table((bytes[i] & 15) as int);
      assert buff[..] == memory[at := Digit(bytes[i] >> 4)][at + 1 := Digit(bytes[i] & 15)];
      at := at + 2;
    }
    EncodedAll(buff[..], was, bytes, at);
    ghost var memory := buff[..];
    buff[at] := 0;
    assert buff[..] == memory[at := 0];
  }

  /** What the search through the table finds, and what it means if it finds nothing. */
  lemma TableHit(c: byte, k: nat)
    requires c != 0 && k < 17 && Table(k) == Lower(c)
    ensures k < 16 && Value(c) == Some(k as byte)
  {
  }

  lemma TableMiss(c: byte)
    requires forall k {:trigger Table(k)} :: 0 <= k < 17 ==> Table(k) != Lower(c)
    ensures Value(c) == None
  {
    if Value(c).Some? {
      ValueHasDigit(c);
      TableDigit(Value(c).value);
    }
  }

  /** The search of I2HexDecode; 17 when the character is no digit. */
  method FindDigit(a: byte) returns (offset: nat)
    requires a != 0
    ensures offset <= 17 && (offset < 17 ==> offset < 16 && Value(a) == Some(offset as byte))
    ensures offset == 17 ==> Value(a) == None
  {
    hide Table, Value, Lower;
    var c := Lower(a);
    offset := 0;
    while offset < 17
      invariant offset <= 17 && forall k {:trigger Table(k)} :: 0 <= k < offset ==> Table(k) != c
    {
      if c == Table(offset) {
        TableHit(a, offset);
        return;
      }
      offset := offset + 1;
    }
    TableMiss(a);
  }

  /** Memory holds the C string s at an offset. */
  ghost predicate HoldsString(memory: seq<byte>, at: nat, s: seq<byte>) {
    at + |s| < |memory| && memory[at..at + |s|] == s && memory[at + |s|] == 0
  }

  /** What is left of the string after k pairs. */
  function Unread(s: seq<byte>, k: nat): seq<byte> {
    if 2 * k <= |s| then s[2 * k..] else []
  }

  /** The inner loop of I2HexDecode: up to two characters of the string make one octet. */
  method DecodeOne(src: array<byte>, p: nat, ghost s: seq<byte>, ghost k: nat) returns (ok: bool, b: byte, p': nat)
    requires 0 !in s && HoldsString(src[..], p, Unread(s, k))
    ensures ok <==> DecodePair(s, k).Some?
    ensures ok ==> DecodePair(s, k) == Some(b) && p' == p + |Unread(s, k)| - |Unread(s, k + 1)|
  {
    hide Value;
    b, p' := 0, p;
    ghost var rest := Unread(s, k);
    assert forall x :: 0 <= x < |rest| ==> src[p + x] == rest[x];
    if src[p'] != 0 {
      var offset := FindDigit(src[p']);
      if offset == 17 {
        return false, b, p';
      }
      b := b | offset as byte;
      b := b << 4;
      p' := p' + 1;
      OrZero(offset as byte);
      if src[p'] != 0 {
        offset := FindDigit(src[p']);
        if offset == 17 {
          return false, b, p';
        }
        b := b | offset as byte;
        p' := p' + 1;
      }
    }
    return true, b, p';
  }

  lemma OrZero(b: byte)
    ensures 0 | b == b
  {
  }

  /** I2HexDecode, with source and destination possibly in the same memory: then the destination
      must not start inside the text past its beginning. On success exactly n octets are written. The
      loop counter is an unsigned int: by LoopEnds, n must be below 2^32. */
  method HexDecode(src: array<byte>, from: nat, dst: array<byte>, to: nat, n: nat, ghost s: seq<byte>)
    returns (ok: bool)
    requires 0 !in s && HoldsString(src[..], from, s) && to + n <= dst.Length && n < TWO_32
    requires src == dst ==> to <= from || from + |s| < to
    modifies dst
    ensures ok <==> Decode(s, n).Some?
    ensures ok ==> dst[to..to + n] == Decode(s, n).value
    ensures dst[..to] == old(dst[..to]) && dst[to + n..] == old(dst[to + n..])
  {
    ghost var was := dst[..];
    var i: uint32 := 0;
    hide *;
    NothingDecoded(s, was, to);
    Start(s, src[..], from);
    var p := from;
    while i < n
      invariant i <= n && DecodedSoFar(dst[..], was, s, to, i) && Reading(src[..], from, s, i, p)
    {
      var good, b, p' := DecodeOne(src, p, s, i);
      if !good {
        NoDigit(dst[..], was, s, to, i, n);
        return false;
      }
      Advance(s, i, src[..], from, p, p');
      PutDecoded(src, from, dst, to, i, b, s, was, p');
      p := p';
      TickBelow(i, n);
      i := Tick(i);
    }
    DecodedParts(dst[..], was, s, to, n, n);
    return true;
  }

  /** The pointer p stands where i pairs have been read, and the rest of the string is there. */
  ghost predicate Reading(memory: seq<byte>, from: nat, s: seq<byte>, i: nat, p: nat) {
    p == from + |s| - |Unread(s, i)| && HoldsString(memory, p, Unread(s, i))
  }

  /** *bytes = byte, also where the destination is the memory that is read. */
  method PutDecoded(src: array<byte>, from: nat, dst: array<byte>, to: nat, i: nat, b: byte, ghost s: seq<byte>,
                    ghost was: seq<byte>, ghost p: nat)
    requires DecodedSoFar(dst[..], was, s, to, i) && to + i < dst.Length && DecodePair(s, i) == Some(b)
    requires Reading(src[..], from, s, i + 1, p) && (src == dst ==> to <= from || from + |s| < to)
    modifies dst
    ensures DecodedSoFar(dst[..], was, s, to, i + 1) && Reading(src[..], from, s, i + 1, p)
  {
    hide *;
    ghost var memory := dst[..];
    SizeOf(memory, was, s, to, i);
    DecodedMore(memory, was, s, to, i, b);
    if src == dst {
      WriteTrails(s, i, b, memory, from, to + i, p);
    }
    dst[to + i] := b;
    assert dst[..] == memory[to + i := b];
  }

  lemma SizeOf(memory: seq<byte>, was: seq<byte>, s: seq<byte>, to: nat, i: nat)
    requires DecodedSoFar(memory, was, s, to, i)
    ensures |memory| == |was|
  {
  }

  lemma NoDigit(memory: seq<byte>, was: seq<byte>, s: seq<byte>, to: nat, i: nat, n: nat)
    requires DecodedSoFar(memory, was, s, to, i) && i < n && to + n <= |was| && DecodePair(s, i).None?
    ensures Decode(s, n).None? && |memory| == |was| && memory[..to] == was[..to] && memory[to + n..] == was[to + n..]
  {
    hide DecodePair, Decode;
    OneMoreDecoded(s, i);
    DecodedPrefix(s, i + 1, n);
    DecodedParts(memory, was, s, to, i, n);
  }

  /** How far a decoding has come: i octets written, nothing else. */
  ghost predicate DecodedSoFar(memory: seq<byte>, was: seq<byte>, s: seq<byte>, to: nat, i: nat) {
    && to + i <= |was| == |memory|
    && Decode(s, i).Some? && memory[to..to + i] == Decode(s, i).value
    && memory[..to] == was[..to] && memory[to + i..] == was[to + i..]
  }

  lemma DecodedMore(memory: seq<byte>, was: seq<byte>, s: seq<byte>, to: nat, i: nat, b: byte)
    requires DecodedSoFar(memory, was, s, to, i) && to + i < |was| && DecodePair(s, i) == Some(b)
    ensures DecodedSoFar(memory[to + i := b], was, s, to, i + 1)
  {
    OneMoreDecoded(s, i);
    hide DecodePair, Decode;
    var m := memory[to + i := b];
    assert m[to..to + i + 1] == memory[to..to + i] + [b];
    assert m[to + i + 1..] == memory[to + i..][1..] == was[to + i..][1..];
    assert m[..to] == memory[..to];
  }

  lemma DecodedParts(memory: seq<byte>, was: seq<byte>, s: seq<byte>, to: nat, i: nat, n: nat)
    requires DecodedSoFar(memory, was, s, to, i) && i <= n && to + n <= |was|
    ensures Decode(s, i).Some? && |memory| == |was| && memory[to..to + i] == Decode(s, i).value
    ensures memory[..to] == was[..to] && memory[to + n..] == was[to + n..]
  {
    hide Decode;
    assert memory[to + i..][n - i..] == memory[to + n..] && was[to + i..][n - i..] == was[to + n..];
  }

  lemma Start(s: seq<byte>, memory: seq<byte>, from: nat)
    requires HoldsString(memory, from, s)
    ensures Reading(memory, from, s, 0, from)
  {
    assert s[0..] == s;
  }

  lemma NothingDecoded(s: seq<byte>, was: seq<byte>, to: nat)
    requires to <= |was|
    ensures DecodedSoFar(was, was, s, to, 0)
  {
  }

  lemma OneMoreDecoded(s: seq<byte>, n: nat)
    ensures Decode(s, n + 1).Some? <==> Decode(s, n).Some? && DecodePair(s, n).Some?
    ensures Decode(s, n + 1).Some? ==> Decode(s, n + 1).value == Decode(s, n).value + [DecodePair(s, n).value]
  {
  }

  lemma {:induction false} DecodedPrefix(s: seq<byte>, k: nat, n: nat)
    requires k <= n
    ensures Decode(s, n).Some? ==> Decode(s, k).Some?
  {
    if k < n {
      DecodedPrefix(s, k, n - 1);
    }
  }

  lemma Advance(s: seq<byte>, i: nat, memory: seq<byte>, from: nat, p: nat, p': nat)
    requires Reading(memory, from, s, i, p) && p' == p + |Unread(s, i)| - |Unread(s, i + 1)|
    ensures Reading(memory, from, s, i + 1, p')
  {
  }

  /** Each write trails every unread character, or falls on the nul and leaves it a nul. */
  lemma WriteTrails(s: seq<byte>, i: nat, b: byte, memory: seq<byte>, from: nat, w: nat, p: nat)
    requires DecodePair(s, i) == Some(b) && Reading(memory, from, s, i + 1, p)
    requires w < |memory| && (w <= from + i || from + |s| < w)
    ensures Reading(memory[w := b], from, s, i + 1, p)
  {
  }
}
