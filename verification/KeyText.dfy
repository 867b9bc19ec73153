/** The key file of conf.c on text: records, the scan for one identity, the writer. */
module KeyText {
  import opened Octets
  import opened Lines
  import Hex

  /** I2MAXIDENTITYLEN and I2KEYLEN. */
  const MAX_ID := 16
  const KEY_LEN := 16

  datatype Record = Record(id: seq<byte>, key: seq<byte>)

  /** A buffer read as a C string ends at its first nul. */
  function CString(s: seq<byte>): (t: seq<byte>)
    ensures |t| <= |s| && t == s[..|t|] && 0 !in t
    ensures |t| < |s| ==> s[|t|] == 0
  {
    if s == [] || s[0] == 0 then []
    else
      assert s[..1 + |CString(s[1..])|] == [s[0]] + s[1..][..|CString(s[1..])|];
      [s[0]] + CString(s[1..])
  }

  /** The first word of a line, what follows it and its white space, and what follows that word
      and its white space. */
  function FirstWord(t: seq<byte>): seq<byte> {
    t[..WordLength(t)]
  }

  function AfterWord(t: seq<byte>): seq<byte> {
    Ink(t[WordLength(t)..])
  }

  /** A line of the key file: an identity, white space, a key in hex, and nothing else but white
      space and a comment. */
  function ParseRecord(line: seq<byte>): (r: Option<Record>)
    ensures r.Some? ==> |r.value.key| == KEY_LEN && |r.value.id| <= MAX_ID
  {
    var id, code := FirstWord(CString(line)), AfterWord(CString(line));
    var tail := AfterWord(code);
    if MAX_ID < |id| || |FirstWord(code)| != 2 * KEY_LEN || (tail != [] && tail[0] != HASH) then None
    else match Hex.Decode(code, KEY_LEN)
         case Some(key) => Some(Record(id, key))
         case None => None
  }

  /** strncmp(id, query, I2MAXIDENTITYLEN) == 0, for an identity no longer than that. */
  predicate Matches(id: seq<byte>, query: seq<byte>) {
    id == if |query| <= MAX_ID then query else query[..MAX_ID]
  }

  /** Where I2ParseKeyFile stops: what it returns, the record if it returns one, what is left to
      read, and what has been copied. */
  datatype KeyScan = KeyScan(ret: int, rec: Option<Record>, rest: seq<byte>, out: seq<byte>) {
    function Prepend(o: seq<byte>): KeyScan {
      this.(out := o + out)
    }
  }

  /** I2ParseKeyFile on the text from the start of a line on. */
  function ScanKeys(s: seq<byte>, row: nat, query: Option<seq<byte>>): KeyScan
    decreases |s|
  {
    var r := ScanLine(s, 0, row);
    if !r.kind.Found? then KeyScan(r.Returned(), None, r.rest, r.out)
    else
      ScanShrinks(s, 0, row);
      match ParseRecord(r.line)
      case None => KeyScan(0 - r.rc, None, r.rest, r.out)
      case Some(rec) =>
        if query.Some? && !Matches(rec.id, query.value) then
          ScanKeys(r.rest, r.rc, query).Prepend(r.out + CString(r.line) + [NL])
        else KeyScan(r.rc, Some(rec), r.rest, r.out)
  }

  lemma {:induction false} ScanShrinks(s: seq<byte>, ns: nat, rc: nat)
    ensures var r := ScanLine(s, ns, rc);
            rc <= r.rc && |r.rest| <= |s| && (r.kind.Found? ==> 0 < r.rc && |r.rest| < |s|)
    decreases |s|
  {
    hide Leading, AfterLine, Newline, Repeat, IsSpace, LineEnd;
    if s != [] {
      if Ink(FirstLine(s)) == [] {
        ScanShrinks(AfterLine(s), 0, rc + 1);
      } else if Ink(FirstLine(s))[0] == HASH {
        ScanShrinks(AfterLine(s), ns + Leading(FirstLine(s)), rc + |Newline(s)|);
      }
    }
  }

  /** What a scan finds is no longer than the text, and it counts no more rows than that has characters. */
  lemma {:induction false} ScanFits(s: seq<byte>, ns: nat, rc: nat)
    ensures var r := ScanLine(s, ns, rc); |r.line| + |r.rest| <= |s| && r.rc + |r.rest| <= rc + |s|
    decreases |s|
  {
    LineFits(s);
    hide Leading, AfterLine, Newline, FirstLine, Repeat, IsSpace, LineEnd;
    if s != [] {
      if Ink(FirstLine(s)) == [] {
        ScanFits(AfterLine(s), 0, rc + 1);
      } else if Ink(FirstLine(s))[0] == HASH {
        ScanFits(AfterLine(s), ns + Leading(FirstLine(s)), rc + |Newline(s)|);
      }
    }
  }

  lemma LineFits(s: seq<byte>)
    ensures |FirstLine(s)| + |Newline(s)| + |AfterLine(s)| == |s| && |Newline(s)| <= 1
  {
  }

  /** So row numbers, which are of type int, stay inside it where the sum of the row to start from and the
      size of the file does. */
  lemma {:induction false} RowsFit(s: seq<byte>, row: nat, query: Option<seq<byte>>)
    ensures var k := ScanKeys(s, row, query); 0 - row - |s| <= k.ret <= row + |s|
    decreases |s|
  {
    hide ParseRecord, ScanLine, CString, Matches;
    var r := ScanLine(s, 0, row);
    ScanFits(s, 0, row);
    if r.kind.Found? {
      ScanShrinks(s, 0, row);
      RowsFit(r.rest, r.rc, query);
    }
  }

  /** The line I2WriteKeyLine writes. */
  const TAB: byte := 9

  function KeyLine(rec: Record): seq<byte> {
    rec.id + [TAB] + Hex.Encode(rec.key)
  }

  /** What I2WriteKeyLine accepts for an identity. */
  predicate Accepted(id: seq<byte>) {
    0 < |id| <= MAX_ID
  }

  /** An identity whose line reads back as it was written. */
  predicate Readable(id: seq<byte>) {
    id != [] && id[0] != HASH && forall k :: 0 <= k < |id| ==> !IsSpace(id[k])
  }

  // ---------------------------------------------------------------- one written line

  lemma {:induction false} CStringWhole(s: seq<byte>)
    requires 0 !in s
    ensures CString(s) == s
  {
    if s != [] {
      CStringWhole(s[1..]);
    }
  }

  lemma {:induction false} WordLengthIs(s: seq<byte>, n: nat)
    requires n <= |s| && (forall k :: 0 <= k < n ==> !IsSpace(s[k])) && (n < |s| ==> IsSpace(s[n]))
    ensures WordLength(s) == n
  {
    hide IsSpace;
    if 0 < n {
      WordLengthIs(s[1..], n - 1);
    }
  }

  lemma DigitsAreInk(key: seq<byte>)
    ensures forall k :: 0 <= k < |Hex.Encode(key)| ==> !IsSpace(Hex.Encode(key)[k]) && Hex.Encode(key)[k] != 0
  {
    forall k | 0 <= k < |Hex.Encode(key)| ensures !IsSpace(Hex.Encode(key)[k]) && Hex.Encode(key)[k] != 0 {
      Hex.EncodedAt(key, k / 2);
      InkDigit(key[k / 2] >> 4);
      InkDigit(key[k / 2] & 15);
      Hex.NibblesJoin(key[k / 2]);
    }
  }

  lemma InkDigit(v: byte)
    requires v < 16
    ensures !IsSpace(Hex.Digit(v)) && Hex.Digit(v) != 0
  {
  }

  /** A written line parses back to the identity and the key it was written for. */
  lemma LineReadsBack(rec: Record)
    requires Accepted(rec.id) && Readable(rec.id) && 0 !in rec.id && |rec.key| == KEY_LEN
    ensures ParseRecord(KeyLine(rec)) == Some(rec)
  {
    hide IsSpace, Hex.Encode, Hex.Decode, ParseRecord;
    var code := Hex.Encode(rec.key);
    DigitsAreInk(rec.key);
    ParseParts(rec.id, code);
    Hex.DecodeEncode(rec.key, [], KEY_LEN);
    assert code + [] == code && rec.key[..KEY_LEN] == rec.key;
  }

  /** The record of a line that has just its two words, and a tab between them. */
  lemma ParseParts(id: seq<byte>, code: seq<byte>)
    requires |id| <= MAX_ID && |code| == 2 * KEY_LEN
    requires forall k :: 0 <= k < |id| ==> !IsSpace(id[k]) && id[k] != 0
    requires forall k :: 0 <= k < |code| ==> !IsSpace(code[k]) && code[k] != 0
    ensures ParseRecord(id + [TAB] + code)
            == match Hex.Decode(code, KEY_LEN) case Some(key) => Some(Record(id, key)) case None => None
  {
    var line := id + [TAB] + code;
    TabIsSpace();
    hide IsSpace, Hex.Decode, CString, FirstWord, AfterWord;
    CStringWhole(line);
    TwoWords(id, code);
    OneWord(code);
  }

  lemma TwoWords(id: seq<byte>, code: seq<byte>)
    requires forall k :: 0 <= k < |id| ==> !IsSpace(id[k])
    requires code != [] && !IsSpace(code[0])
    ensures FirstWord(id + [TAB] + code) == id && AfterWord(id + [TAB] + code) == code
  {
    var line, n := id + [TAB] + code, |id|;
    TabIsSpace();
    hide IsSpace, WordLength, Leading;
    WordLengthIs(line, n);
    assert line[n..] == [TAB] + code && line[..n] == id;
    LeadingOne([TAB] + code);
    assert ([TAB] + code)[1..] == code;
  }

  lemma OneWord(code: seq<byte>)
    requires forall k :: 0 <= k < |code| ==> !IsSpace(code[k])
    ensures FirstWord(code) == code && AfterWord(code) == []
  {
    hide IsSpace, WordLength;
    WordLengthIs(code, |code|);
    assert code[|code|..] == [];
  }

  lemma TabIsSpace()
    ensures IsSpace(TAB) && TAB != 0
  {
  }

  lemma LeadingOne(s: seq<byte>)
    requires |s| > 1 && IsSpace(s[0]) && !IsSpace(s[1])
    ensures Leading(s) == 1
  {
  }

  /** Whatever a scan returns is a record with a readable identity. */
  lemma {:induction false} ScanReturnsReadable(s: seq<byte>, row: nat, query: Option<seq<byte>>)
    ensures var k := ScanKeys(s, row, query); k.rec.Some? ==> Readable(k.rec.value.id)
    decreases |s|
  {
    hide ParseRecord, ScanLine, Readable;
    var r := ScanLine(s, 0, row);
    if r.kind.Found? {
      ScanShrinks(s, 0, row);
      FoundStartsWithInk(s, 0, row);
      if ParseRecord(r.line).Some? {
        ParsedIsReadable(r.line);
        ScanReturnsReadable(r.rest, r.rc, query);
      }
    }
  }

  lemma {:induction false} FoundStartsWithInk(s: seq<byte>, ns: nat, rc: nat)
    ensures var r := ScanLine(s, ns, rc);
            r.kind.Found? ==> r.line != [] && r.line[0] != HASH && !IsSpace(r.line[0])
    decreases |s|
  {
    hide AfterLine, Newline, Repeat, IsSpace, LineEnd;
    if s != [] {
      if Ink(FirstLine(s)) == [] {
        FoundStartsWithInk(AfterLine(s), 0, rc + 1);
      } else if Ink(FirstLine(s))[0] == HASH {
        FoundStartsWithInk(AfterLine(s), ns + Leading(FirstLine(s)), rc + |Newline(s)|);
      }
    }
  }

  lemma ParsedIsReadable(line: seq<byte>)
    requires line != [] && line[0] != HASH && !IsSpace(line[0]) && ParseRecord(line).Some?
    ensures Readable(ParseRecord(line).value.id)
  {
    var t := CString(line);
    hide IsSpace, Hex.Decode, CString, WordLength, AfterWord;
    if t == [] {
      NoWords();
    }
  }

  lemma NoWords()
    ensures FirstWord([]) == [] == AfterWord([])
  {
  }

  /** A file of one written line gives the record back if and only if the identity is readable:
      the writer also accepts identities that start a comment or hold white space. */
  lemma WrittenLineReads(rec: Record)
    requires Accepted(rec.id) && 0 !in rec.id && |rec.key| == KEY_LEN
    ensures ScanKeys(KeyLine(rec) + [NL], 0, None).rec == Some(rec) <==> Readable(rec.id)
  {
    hide ParseRecord, ScanLine, KeyLine, Readable;
    ScanReturnsReadable(KeyLine(rec) + [NL], 0, None);
    if Readable(rec.id) {
      LineReadsBack(rec);
      WrittenLineIsContent(rec);
      ContentLine(KeyLine(rec), [], 0);
      assert KeyLine(rec) + [NL] == KeyLine(rec) + [NL] + [];
    }
  }

  lemma WrittenLineIsContent(rec: Record)
    requires Readable(rec.id) && 0 !in rec.id
    ensures var l := KeyLine(rec); l != [] && NL !in l && 0 !in l && l[0] != HASH && !IsSpace(l[0])
  {
    TabIsSpace();
    DigitsAreInk(rec.key);
    hide Hex.Encode;
  }

  /** A line of content at the start of a text is found as it stands. */
  lemma ContentLine(line: seq<byte>, rest: seq<byte>, row: nat)
    requires line != [] && NL !in line && line[0] != HASH && !IsSpace(line[0])
    ensures ScanLine(line + [NL] + rest, 0, row) == Scan(Found, row + 1, line, rest, [])
  {
    var s := line + [NL] + rest;
    LineAtStart(line, rest);
    ScanContent(s, 0, row);
  }
}
