/** The pass-phrase file of conf.c on text: records, the lookup by the shorter identity, the writer. */
module PassText {
  import opened Octets
  import opened Lines
  import opened KeyText
  import opened FileLines
  import Hex

  datatype Pass = Pass(id: seq<byte>, phrase: seq<byte>)

  /** What follows the identity: one word of hex digits, two for each octet, and nothing else. */
  function ParsePhrase(code: seq<byte>): (r: Option<seq<byte>>)
    ensures r.Some? ==> r.value != []
  {
    var n := |FirstWord(code)|;
    if n == 0 || n % 2 != 0 || AfterWord(code) != [] then None else Hex.Decode(FirstWord(code), n / 2)
  }

  /** strncmp up to the shorter of the two: one identity is the beginning of the other. */
  predicate Agree(id: seq<byte>, query: seq<byte>) {
    id <= query || query <= id
  }

  /** Which lines a query takes; the empty one takes none. */
  predicate Selects(query: Option<seq<byte>>, id: seq<byte>) {
    query.Some? ==> query.value != [] && Agree(id, query.value)
  }

  datatype PassScan = PassScan(ret: int, rec: Option<Pass>, rest: seq<byte>, out: seq<byte>) {
    function Prepend(o: seq<byte>): PassScan {
      this.(out := o + out)
    }
  }

  /** What I2ParsePFFile does with one line: an error, a line to pass over, or a record. */
  datatype Verdict = Bad | Skip | Take(rec: Pass)

  function Judge(line: seq<byte>, query: Option<seq<byte>>): Verdict {
    var t := CString(line);
    if |FirstWord(t)| == |t| then Bad
    else if !Selects(query, FirstWord(t)) then Skip
    else match ParsePhrase(AfterWord(t))
         case Some(phrase) => Take(Pass(FirstWord(t), phrase))
         case None => Bad
  }

  /** I2ParsePFFile on the text from the start of a line on. */
  function ScanPass(s: seq<byte>, row: nat, query: Option<seq<byte>>): PassScan
    decreases |s|
  {
    var r := ScanLine(s, 0, row);
    if !r.kind.Found? then PassScan(r.Returned(), None, r.rest, r.out)
    else
      ScanShrinks(s, 0, row);
      match Judge(r.line, query)
      case Bad => PassScan(0 - r.rc, None, r.rest, r.out)
      case Skip => ScanPass(r.rest, r.rc, query).Prepend(r.out + CString(r.line) + [NL])
      case Take(rec) => PassScan(r.rc, Some(rec), r.rest, r.out)
  }

  /** The line I2WritePFLine writes. */
  function PassLine(rec: Pass): seq<byte> {
    rec.id + [TAB] + Hex.Encode(rec.phrase)
  }

  // ---------------------------------------------------------------- one written line

  /** A written line gives its record to every query that agrees with the identity. */
  lemma LineTaken(rec: Pass, query: Option<seq<byte>>)
    requires Readable(rec.id) && 0 !in rec.id && rec.phrase != [] && Selects(query, rec.id)
    ensures Judge(PassLine(rec), query) == Take(rec)
  {
    var code := Hex.Encode(rec.phrase);
    WrittenIsWhole(rec);
    PhraseReadsBack(rec.phrase);
    DigitsAreInk(rec.phrase);
    TwoWords(rec.id, code);
    hide *;
    JudgeWords(PassLine(rec), rec, query);
  }

  lemma JudgeWords(line: seq<byte>, rec: Pass, query: Option<seq<byte>>)
    requires CString(line) == line && FirstWord(line) == rec.id && |rec.id| < |line| && Selects(query, rec.id)
    requires ParsePhrase(AfterWord(line)) == Some(rec.phrase)
    ensures Judge(line, query) == Take(rec)
  {
    hide CString, FirstWord, AfterWord, ParsePhrase, Selects;
  }

  lemma PhraseReadsBack(phrase: seq<byte>)
    requires phrase != []
    ensures ParsePhrase(Hex.Encode(phrase)) == Some(phrase)
  {
    var code := Hex.Encode(phrase);
    DigitsAreInk(phrase);
    hide IsSpace, FirstWord, AfterWord, Hex.Encode, Hex.Decode;
    OneWord(code);
    Hex.DecodeEncode(phrase, [], |phrase|);
    assert code + [] == code && phrase[..|phrase|] == phrase;
  }

  lemma WrittenIsWhole(rec: Pass)
    requires Readable(rec.id) && 0 !in rec.id
    ensures var l := PassLine(rec);
            CString(l) == l && l != [] && NL !in l && l[0] != HASH && !IsSpace(l[0])
  {
    TabIsSpace();
    DigitsAreInk(rec.phrase);
    hide Hex.Encode, CString;
    CStringWhole(PassLine(rec));
  }

  /** Whatever is taken from a line of content has a readable identity and a pass-phrase. */
  lemma TakenIsReadable(line: seq<byte>, query: Option<seq<byte>>)
    requires line != [] && line[0] != HASH && !IsSpace(line[0])
    ensures Judge(line, query).Take? ==> Readable(Judge(line, query).rec.id) && Judge(line, query).rec.phrase != []
  {
    hide IsSpace, CString, WordLength, AfterWord, ParsePhrase;
    if CString(line) == [] {
      NoWords();
    }
  }

  lemma {:induction false} ScanReturnsPass(s: seq<byte>, row: nat, query: Option<seq<byte>>)
    ensures var k := ScanPass(s, row, query);
            k.rec.Some? ==> Readable(k.rec.value.id) && k.rec.value.phrase != []
    decreases |s|
  {
    hide Judge, ScanLine, Readable;
    var r := ScanLine(s, 0, row);
    if r.kind.Found? {
      ScanShrinks(s, 0, row);
      FoundStartsWithInk(s, 0, row);
      TakenIsReadable(r.line, query);
      if Judge(r.line, query).Skip? {
        ScanReturnsPass(r.rest, r.rc, query);
      }
    }
  }

  /** A file of one written line gives the record back if and only if the identity is readable and
      the pass-phrase is not empty. */
  lemma WrittenPassReads(rec: Pass)
    requires rec.id != [] && 0 !in rec.id
    ensures ScanPass(PassLine(rec) + [NL], 0, None).rec == Some(rec) <==> Readable(rec.id) && rec.phrase != []
  {
    hide Judge, ScanLine, PassLine, Readable;
    var line := PassLine(rec);
    ScanReturnsPass(line + [NL], 0, None);
    if Readable(rec.id) && rec.phrase != [] {
      LineTaken(rec, None);
      WrittenIsWhole(rec);
      ContentLine(line, [], 0);
      assert line + [NL] == line + [NL] + [];
    }
  }

  // ---------------------------------------------------------------- lines

  /** The record of a line, if it has one. */
  function PassOf(line: seq<byte>): Option<Pass> {
    if IsContent(line) && Judge(line, None).Take? then Some(Judge(line, None).rec) else None
  }

  /** A line of content is a record from the first column on, and no white space is carried to it. */
  predicate ValidPass(line: seq<byte>, ns: nat) {
    IsContent(line) ==> ns + Leading(line) == 0 && PassOf(line).Some?
  }

  predicate ValidPasses(lines: seq<seq<byte>>, ns: nat) {
    lines == [] || (ValidPass(lines[0], ns) && ValidPasses(lines[1..], Carried(lines[0], ns)))
  }

  predicate IsTaken(line: seq<byte>, query: Option<seq<byte>>) {
    PassOf(line).Some? && Selects(query, PassOf(line).value.id)
  }

  /** The first line a query takes, or the number of lines. */
  function FirstTaken(lines: seq<seq<byte>>, query: Option<seq<byte>>): (p: nat)
    ensures p <= |lines| && (p < |lines| ==> IsTaken(lines[p], query))
    ensures forall i :: 0 <= i < p ==> !IsTaken(lines[i], query)
  {
    FirstWhere(lines, line => IsTaken(line, query))
  }

  lemma JudgeValid(line: seq<byte>, query: Option<seq<byte>>)
    requires PassOf(line).Some?
    ensures Judge(line, query) == if IsTaken(line, query) then Take(PassOf(line).value) else Skip
  {
    hide CString, FirstWord, AfterWord, ParsePhrase, IsSpace, Agree;
  }

  // ---------------------------------------------------------------- one line of a lookup

  /** I2ParsePFFile with ns leading spaces already counted. */
  function PassFrom(s: seq<byte>, ns: nat, row: nat, query: Option<seq<byte>>): PassScan {
    var r := ScanLine(s, ns, row);
    if !r.kind.Found? then PassScan(r.Returned(), None, r.rest, r.out)
    else match Judge(r.line, query)
         case Bad => PassScan(0 - r.rc, None, r.rest, r.out)
         case Skip => ScanPass(r.rest, r.rc, query).Prepend(r.out + CString(r.line) + [NL])
         case Take(rec) => PassScan(r.rc, Some(rec), r.rest, r.out)
  }

  lemma PassIs(s: seq<byte>, row: nat, query: Option<seq<byte>>)
    ensures ScanPass(s, row, query) == PassFrom(s, 0, row, query)
  {
    hide ScanLine, Judge, CString;
  }

  lemma NoPassFrom(ns: nat, row: nat, query: Option<seq<byte>>)
    ensures PassFrom([], ns, row, query) == PassScan(0, None, [], [])
  {
  }

  lemma PassOn(s: seq<byte>, ns: nat, row: nat, o: seq<byte>, rest: seq<byte>, ns': nat, row': nat,
               query: Option<seq<byte>>)
    requires ScanLine(s, ns, row) == ScanLine(rest, ns', row').Prepend(o)
    ensures PassFrom(s, ns, row, query) == PassFrom(rest, ns', row', query).Prepend(o)
  {
    hide ScanLine, Judge, CString, ScanPass;
    var r := ScanLine(rest, ns', row');
    var line := CString(r.line);
    assert o + r.out + line + [NL] == o + (r.out + line + [NL]);
    if r.kind.Found? && Judge(r.line, query).Skip? {
      var k := ScanPass(r.rest, r.rc, query);
      assert (o + r.out + line + [NL]) + k.out == o + ((r.out + line + [NL]) + k.out);
    }
  }

  lemma PassOther(s: seq<byte>, ns: nat, row: nat, query: Option<seq<byte>>)
    requires s != [] && !IsContent(FirstLine(s))
    ensures PassFrom(s, ns, row, query)
            == PassFrom(AfterLine(s), Carried(FirstLine(s), ns), row + 1, query).Prepend(Kept(s, ns))
  {
    hide *;
    var ns' := Carried(FirstLine(s), ns);
    OtherLine(s, ns, row);
    NewlineIs(s);
    PassOn(s, ns, row, Kept(s, ns), AfterLine(s), ns', row + |Newline(s)|, query);
    if Newline(s) == [] {
      NoPassFrom(ns', row + |Newline(s)|, query);
      NoPassFrom(ns', row + 1, query);
    }
  }

  lemma PassRecord(s: seq<byte>, row: nat, query: Option<seq<byte>>)
    requires s != [] && IsContent(FirstLine(s)) && ValidPass(FirstLine(s), 0)
    ensures PassFrom(s, 0, row, query)
            == if IsTaken(FirstLine(s), query) then PassScan(row + 1, PassOf(FirstLine(s)), AfterLine(s), [])
               else PassFrom(AfterLine(s), 0, row + 1, query).Prepend(Kept(s, 0))
  {
    var line := FirstLine(s);
    OneLine(s, 0, row);
    ValidPassIs(line);
    KeptRecord(s);
    hide *;
    FoundPass(s, line, AfterLine(s), row, query);
  }

  lemma ValidPassIs(line: seq<byte>)
    requires IsContent(line) && ValidPass(line, 0)
    ensures Ink(line) != [] && !IsComment(line) && 0 + Leading(line) == 0 && PassOf(line).Some?
  {
    hide PassOf;
  }

  lemma KeptRecord(s: seq<byte>)
    requires IsContent(FirstLine(s))
    ensures Kept(s, 0) == CString(FirstLine(s)) + [NL]
  {
    hide Ink, FirstLine, Leading;
  }

  lemma FoundPass(s: seq<byte>, line: seq<byte>, rest: seq<byte>, row: nat, query: Option<seq<byte>>)
    requires ScanLine(s, 0, row) == Scan(Found, row + 1, line, rest, []) && PassOf(line).Some?
    ensures PassFrom(s, 0, row, query)
            == if IsTaken(line, query) then PassScan(row + 1, PassOf(line), rest, [])
               else PassFrom(rest, 0, row + 1, query).Prepend(CString(line) + [NL])
  {
    hide PassOf, Judge, CString, ScanLine, ScanPass, IsTaken;
    JudgeValid(line, query);
    PassIs(rest, row + 1, query);
    assert [] + CString(line) + [NL] == CString(line) + [NL];
  }

  lemma ScanFirst(s: seq<byte>, ns: nat, row: nat, query: Option<seq<byte>>)
    requires s != [] && ValidPass(FirstLine(s), ns)
    ensures PassFrom(s, ns, row, query)
            == if IsTaken(FirstLine(s), query) then PassScan(row + 1, PassOf(FirstLine(s)), AfterLine(s), [])
               else PassFrom(AfterLine(s), Carried(FirstLine(s), ns), row + 1, query).Prepend(Kept(s, ns))
  {
    hide Judge, PassFrom, FirstLine, AfterLine, Leading, Ink, Kept;
    if IsContent(FirstLine(s)) {
      PassRecord(s, row, query);
    } else {
      PassOther(s, ns, row, query);
    }
  }

  // ---------------------------------------------------------------- lookup

  /** Every line before the first one taken as it is written, and the row after it; or the whole file. */
  function Taken(lines: seq<seq<byte>>, closed: bool, ns: nat, row: nat, query: Option<seq<byte>>): PassScan {
    var p := FirstTaken(lines, query);
    if p == |lines| then PassScan(0, None, [], Text(WrittenAll(lines, ns), Closes(lines, closed)))
    else PassScan(row + p + 1, PassOf(lines[p]), Text(lines[p + 1..], closed), Text(WrittenAll(lines[..p], ns), true))
  }

  /** The lookup in a file of valid lines writes every line before the first one that agrees with the query,
      and returns that one. */
  lemma {:induction false} ScanPassLines(lines: seq<seq<byte>>, closed: bool, ns: nat, row: nat,
                                         query: Option<seq<byte>>)
    requires LinesOf(lines, closed) && ValidPasses(lines, ns)
    ensures PassFrom(Text(lines, closed), ns, row, query) == Taken(lines, closed, ns, row, query)
  {
    hide LinesOf, Text, ValidPass, PassOf, IsTaken, PassFrom, Carried, Written, Kept, Taken, IsContent;
    if lines == [] {
      NoneTaken(closed, ns, row, query);
    } else {
      var s := Text(lines, closed);
      TextFirst(lines, closed);
      ScanFirst(s, ns, row, query);
      ScanPassLines(lines[1..], closed, Carried(lines[0], ns), row + 1, query);
      TakenNext(lines, closed, ns, row, query);
      KeptIs(s, lines, closed, ns);
    }
  }

  lemma NoneTaken(closed: bool, ns: nat, row: nat, query: Option<seq<byte>>)
    ensures PassFrom(Text([], closed), ns, row, query) == Taken([], closed, ns, row, query)
  {
    NoPassFrom(ns, row, query);
    hide PassFrom, PassOf;
  }

  lemma TakenNext(lines: seq<seq<byte>>, closed: bool, ns: nat, row: nat, query: Option<seq<byte>>)
    requires lines != []
    ensures var line, rest := lines[0], lines[1..];
            Taken(lines, closed, ns, row, query)
            == if IsTaken(line, query) then PassScan(row + 1, PassOf(line), Text(rest, closed), [])
               else Taken(rest, closed, Carried(line, ns), row + 1, query)
                    .Prepend(Written(line, ns) + Ending(|lines|, closed || IsContent(line)))
  {
    hide *;
    var rest := lines[1..];
    var p, q := FirstTaken(lines, query), FirstTaken(rest, query);
    FirstTakenNext(lines, query);
    TakenIs(lines, closed, ns, row, query);
    TakenIs(rest, closed, Carried(lines[0], ns), row + 1, query);
    PrependedTo(Taken(rest, closed, Carried(lines[0], ns), row + 1, query),
                Written(lines[0], ns) + Ending(|lines|, closed || IsContent(lines[0])));
    if IsTaken(lines[0], query) {
      assert lines[..0] == [];
      NoneWritten(ns);
    } else if q < |rest| {
      assert rest[q + 1..] == lines[p + 1..] && lines[..p][1..] == rest[..q] && lines[..p][0] == lines[0];
      WrittenFirst(lines[..p], lines[p..], closed, ns);
      assert lines[..p] + lines[p..] == lines && lines[p..] != [];
    } else {
      WrittenFirst(lines, [], closed, ns);
      assert lines + [] == lines;
    }
  }

  lemma PrependedTo(k: PassScan, o: seq<byte>)
    ensures k.Prepend(o) == PassScan(k.ret, k.rec, k.rest, o + k.out)
  {
  }

  lemma NoneWritten(ns: nat)
    ensures Text(WrittenAll([], ns), true) == []
  {
  }

  lemma FirstTakenNext(lines: seq<seq<byte>>, query: Option<seq<byte>>)
    requires lines != []
    ensures FirstTaken(lines, query) == if IsTaken(lines[0], query) then 0 else 1 + FirstTaken(lines[1..], query)
  {
    hide IsTaken;
  }

  lemma TakenIs(lines: seq<seq<byte>>, closed: bool, ns: nat, row: nat, query: Option<seq<byte>>)
    ensures var p := FirstTaken(lines, query);
            Taken(lines, closed, ns, row, query)
            == if p == |lines| then PassScan(0, None, [], Text(WrittenAll(lines, ns), Closes(lines, closed)))
               else PassScan(row + p + 1, PassOf(lines[p]), Text(lines[p + 1..], closed),
                             Text(WrittenAll(lines[..p], ns), true))
  {
    hide PassOf, IsTaken, Text, WrittenAll, Closes;
  }

  /** Comparing only the shorter length, a lookup gives the record of exactly the identity asked for
      if and only if no record before it has an identity that agrees with it. */
  lemma LookupAgrees(lines: seq<seq<byte>>, closed: bool, query: seq<byte>, j: nat)
    requires LinesOf(lines, closed) && ValidPasses(lines, 0) && query != [] && j < |lines|
    requires PassOf(lines[j]).Some? && PassOf(lines[j]).value.id == query
    ensures ScanPass(Text(lines, closed), 0, Some(query)).ret == j + 1
            <==> forall i :: 0 <= i < j && PassOf(lines[i]).Some? ==> !Agree(PassOf(lines[i]).value.id, query)
  {
    ScanPassLines(lines, closed, 0, 0, Some(query));
    PassIs(Text(lines, closed), 0, Some(query));
    hide PassOf, LinesOf, ValidPasses, ScanPass, PassFrom, Text, WrittenAll, Agree;
    assert Agree(query, query);
  }

  /** If only the identity itself agrees with the query, a lookup is a map lookup. */
  lemma LookupDistinct(lines: seq<seq<byte>>, closed: bool, query: seq<byte>)
    requires LinesOf(lines, closed) && ValidPasses(lines, 0) && query != []
    requires forall i :: 0 <= i < |lines| && PassOf(lines[i]).Some? && Agree(PassOf(lines[i]).value.id, query)
                         ==> PassOf(lines[i]).value.id == query
    ensures var k := ScanPass(Text(lines, closed), 0, Some(query));
            match k.rec
            case Some(rec) => rec.id == query && exists i :: 0 <= i < |lines| && PassOf(lines[i]) == Some(rec)
            case None =>
              && k.out == Text(WrittenAll(lines, 0), Closes(lines, closed))
              && forall i :: 0 <= i < |lines| && PassOf(lines[i]).Some? ==> PassOf(lines[i]).value.id != query
  {
    ScanPassLines(lines, closed, 0, 0, Some(query));
    PassIs(Text(lines, closed), 0, Some(query));
    hide PassOf, LinesOf, ValidPasses, ScanPass, PassFrom, Text, WrittenAll, Agree, Closes;
    assert Agree(query, query);
  }
}
