/** What a line of the key file and of the pass-phrase file looks like, character by character. */
module KeySyntax {
  import opened Octets
  import opened Lines
  import opened KeyText
  import Hex

  /** The characters with a meaning of their own, and the white space of the C locale: blank, tab, newline,
      vertical tab, form feed and carriage return. */
  lemma Characters(c: byte)
    ensures NL as int == '\n' as int && HASH as int == '#' as int
    ensures BLANK as int == ' ' as int && TAB as int == '\t' as int
    ensures IsSpace(c) <==> c == 0x20 || c == 0x09 || c == 0x0A || c == 0x0B || c == 0x0C || c == 0x0D
  {
  }

  // ---------------------------------------------------------------- words

  predicate AllSpace(s: seq<byte>) {
    forall k :: 0 <= k < |s| ==> IsSpace(s[k])
  }

  predicate NoSpace(s: seq<byte>) {
    forall k :: 0 <= k < |s| ==> !IsSpace(s[k])
  }

  /** A word, white space, and something else. */
  lemma WordFirst(word: seq<byte>, space: seq<byte>, more: seq<byte>)
    requires NoSpace(word) && AllSpace(space) && (space == [] ==> more == []) && (more != [] ==> !IsSpace(more[0]))
    ensures FirstWord(word + space + more) == word && AfterWord(word + space + more) == more
  {
    var t, rest := word + space + more, space + more;
    hide IsSpace;
    assert t[|word|..] == rest;
    if rest != [] {
      assert t[|word|] == space[0];
    }
    WordLengthIs(t, |word|);
    if more == [] {
      AllSpaceLeads(rest);
    } else {
      LeadingIs(rest, |space|);
    }
  }

  /** The white space behind the first word. */
  function Between(t: seq<byte>): seq<byte> {
    var rest := t[WordLength(t)..];
    rest[..Leading(rest)]
  }

  /** Every text has that form. */
  lemma WordParts(t: seq<byte>)
    ensures t == FirstWord(t) + Between(t) + AfterWord(t) && NoSpace(FirstWord(t)) && AllSpace(Between(t))
    ensures Between(t) == [] ==> AfterWord(t) == []
    ensures AfterWord(t) != [] ==> !IsSpace(AfterWord(t)[0])
  {
    hide IsSpace;
    var n := WordLength(t);
    var rest := t[n..];
    var l := Leading(rest);
    assert t == t[..n] + rest[..l] + rest[l..];
    assert rest != [] ==> rest[0] == t[n];
  }

  lemma {:induction false} DecodeFront(s: seq<byte>, rest: seq<byte>, n: nat)
    requires 2 * n <= |s|
    ensures Hex.Decode(s + rest, n) == Hex.Decode(s, n)
  {
    hide Hex.DecodePair;
    if 0 < n {
      DecodeFront(s, rest, n - 1);
      SamePair(s, rest, n - 1);
    }
  }

  lemma SamePair(s: seq<byte>, rest: seq<byte>, k: nat)
    requires 2 * k + 2 <= |s|
    ensures Hex.DecodePair(s + rest, k) == Hex.DecodePair(s, k)
  {
    hide Hex.Value;
  }

  /** Hex digits are no white space. */
  lemma DigitsNoSpace(code: seq<byte>, n: nat)
    requires |code| == 2 * n && Hex.Decode(code, n).Some?
    ensures NoSpace(code)
  {
    Hex.DecodeSucceeds(code, n);
    forall k | 0 <= k < |code| ensures !IsSpace(code[k]) {
      SpaceNoDigit(code[k]);
    }
  }

  lemma SpaceNoDigit(c: byte)
    requires Hex.Value(c).Some?
    ensures !IsSpace(c)
  {
  }

  // ---------------------------------------------------------------- the key file

  /** An identity of at most 16 characters without white space, white space, 32 hex digits, and then nothing but
      white space and a comment behind it. */
  predicate KeyParts(t: seq<byte>, rec: Record, id: seq<byte>, space: seq<byte>, code: seq<byte>, gap: seq<byte>,
                     comment: seq<byte>) {
    && t == id + space + code + gap + comment
    && id == rec.id && |id| <= MAX_ID && NoSpace(id) && space != [] && AllSpace(space)
    && |code| == 2 * KEY_LEN && Hex.Decode(code, KEY_LEN) == Some(rec.key)
    && AllSpace(gap) && (comment == [] || (gap != [] && comment[0] == HASH))
  }

  /** Spelled out. */
  lemma KeyPartsAre(t: seq<byte>, rec: Record, id: seq<byte>, space: seq<byte>, code: seq<byte>, gap: seq<byte>,
                    comment: seq<byte>)
    ensures KeyParts(t, rec, id, space, code, gap, comment)
            <==> && t == id + space + code + gap + comment
                 && id == rec.id && |id| <= 16 && (forall k :: 0 <= k < |id| ==> !IsSpace(id[k]))
                 && space != [] && (forall k :: 0 <= k < |space| ==> IsSpace(space[k]))
                 && |code| == 32 && Hex.Decode(code, 16) == Some(rec.key)
                 && (forall k :: 0 <= k < |gap| ==> IsSpace(gap[k]))
                 && (comment == [] || (gap != [] && comment[0] == 35))
  {
    hide IsSpace, Hex.Decode;
  }

  /** A line parses as a record if and only if its text up to the first nul has these parts. */
  lemma RecordSyntax(line: seq<byte>, rec: Record)
    ensures ParseRecord(line) == Some(rec)
            <==> exists id, space, code, gap, comment :: KeyParts(CString(line), rec, id, space, code, gap, comment)
  {
    hide *;
    if ParseRecord(line) == Some(rec) {
      HasParts(line, rec);
    }
    if id, space, code, gap, comment :| KeyParts(CString(line), rec, id, space, code, gap, comment) {
      Parses(line, rec, id, space, code, gap, comment);
    }
  }

  lemma Parses(line: seq<byte>, rec: Record, id: seq<byte>, space: seq<byte>, code: seq<byte>, gap: seq<byte>,
               comment: seq<byte>)
    requires KeyParts(CString(line), rec, id, space, code, gap, comment)
    ensures ParseRecord(line) == Some(rec)
  {
    PartsFacts(CString(line), rec, id, space, code, gap, comment);
    hide *;
    var more := code + (gap + comment);
    DigitsNoSpace(code, KEY_LEN);
    Joins(id, space, code, gap, comment);
    TwoJoin(code, gap, comment);
    WordFirst(id, space, more);
    WordFirst(code, gap, comment);
    DecodeFront(code, gap + comment, KEY_LEN);
    ParsesAs(line, more);
  }

  lemma PartsFacts(t: seq<byte>, rec: Record, id: seq<byte>, space: seq<byte>, code: seq<byte>, gap: seq<byte>,
                   comment: seq<byte>)
    requires KeyParts(t, rec, id, space, code, gap, comment)
    ensures t == id + space + code + gap + comment && id == rec.id && |id| <= 16 && NoSpace(id) && AllSpace(space)
    ensures space != [] && KEY_LEN == 16 && |code| == 2 * KEY_LEN && Hex.Decode(code, 16) == Some(rec.key)
    ensures AllSpace(gap) && (gap == [] ==> comment == []) && (comment == [] || comment[0] == 35)
    ensures comment == [] || !IsSpace(comment[0])
    ensures !IsSpace((code + (gap + comment))[0])
  {
    DigitsNoSpace(code, KEY_LEN);
    HashIsInk();
    hide IsSpace, Hex.Decode, AllSpace;
    assert (code + (gap + comment))[0] == code[0];
  }

  /** ParseRecord in terms of the words. */
  lemma ParsesAs(line: seq<byte>, more: seq<byte>)
    requires more == AfterWord(CString(line))
    ensures var id, tail := FirstWord(CString(line)), AfterWord(more);
            ParseRecord(line)
            == if |id| <= 16 && |FirstWord(more)| == 32 && (tail == [] || tail[0] == 35)
                  && Hex.Decode(more, 16).Some? then
                 Some(Record(id, Hex.Decode(more, 16).value))
               else None
  {
    hide IsSpace, Hex.Decode, FirstWord, AfterWord, CString;
  }

  lemma HasParts(line: seq<byte>, rec: Record)
    requires ParseRecord(line) == Some(rec)
    ensures exists id, space, code, gap, comment :: KeyParts(CString(line), rec, id, space, code, gap, comment)
  {
    hide *;
    var t := CString(line);
    var more := AfterWord(t);
    ParsesAs(line, more);
    ParsedSize(line);
    WordParts(t);
    WordParts(more);
    Joins(FirstWord(t), Between(t), FirstWord(more), Between(more), AfterWord(more));
    TwoJoin(FirstWord(more), Between(more), AfterWord(more));
    DecodeFront(FirstWord(more), Between(more) + AfterWord(more), KEY_LEN);
    MakeParts(t, rec, FirstWord(t), Between(t), FirstWord(more), Between(more), AfterWord(more));
  }

  lemma ParsedSize(line: seq<byte>)
    requires ParseRecord(line).Some?
    ensures |FirstWord(AfterWord(CString(line)))| == 2 * KEY_LEN && KEY_LEN == 16
  {
    hide IsSpace, Hex.Decode, FirstWord, AfterWord, CString;
  }

  lemma TwoJoin<T>(a: seq<T>, b: seq<T>, c: seq<T>)
    ensures a + b + c == a + (b + c)
  {
  }

  lemma MakeParts(t: seq<byte>, rec: Record, id: seq<byte>, space: seq<byte>, code: seq<byte>, gap: seq<byte>,
                  comment: seq<byte>)
    requires t == id + space + code + gap + comment && id == rec.id && |id| <= 16 && NoSpace(id)
    requires AllSpace(space) && (space == [] ==> code + gap + comment == [])
    requires |code| == 32 && Hex.Decode(code, 16) == Some(rec.key)
    requires AllSpace(gap) && (gap == [] ==> comment == []) && (comment == [] || comment[0] == 35)
    ensures KeyParts(t, rec, id, space, code, gap, comment)
  {
    hide IsSpace, Hex.Decode, NoSpace, AllSpace;
  }

  lemma Joins<T>(a: seq<T>, b: seq<T>, c: seq<T>, d: seq<T>, e: seq<T>)
    ensures a + b + (c + d + e) == a + b + c + d + e
  {
  }

  /** An identity matches a query if they agree in the first 16 characters, nuls behind the end included: for
      identities of at most 16 characters, what strncmp says. */
  lemma MatchesIs(id: seq<byte>, query: seq<byte>)
    requires |id| <= 16 && 0 !in id && 0 !in query
    ensures Matches(id, query) <==> (id + Zeros(16))[..16] == (query + Zeros(16))[..16]
  {
    var a, b := (id + Zeros(16))[..16], (query + Zeros(16))[..16];
    if |id| < |query| && |id| < 16 {
      assert a[|id|] == 0 && b[|id|] == query[|id|];
    }
    if |query| < |id| {
      assert a[|query|] == id[|query|] && b[|query|] == 0;
    }
    assert forall k :: 0 <= k < |id| ==> id[k] == a[k];
    assert forall k :: 0 <= k < 16 && k < |query| ==> query[k] == b[k];
  }
}
