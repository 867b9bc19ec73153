/** What a line of the pass-phrase file looks like, character by character, and which lines a lookup takes. */
module PassSyntax {
  import opened Octets
  import opened Lines
  import opened KeyText
  import opened KeySyntax
  import opened FileLines
  import opened PassText
  import Hex

  /** An identity without white space, white space, hex digits, an even number of them, and nothing but white
      space behind them. */
  predicate PassParts(t: seq<byte>, rec: Pass, id: seq<byte>, space: seq<byte>, code: seq<byte>, gap: seq<byte>) {
    && t == id + space + code + gap && id == rec.id && NoSpace(id) && space != [] && AllSpace(space)
    && code != [] && |code| % 2 == 0 && Hex.Decode(code, |code| / 2) == Some(rec.phrase) && AllSpace(gap)
  }

  /** Spelled out. */
  lemma PassPartsAre(t: seq<byte>, rec: Pass, id: seq<byte>, space: seq<byte>, code: seq<byte>, gap: seq<byte>)
    ensures PassParts(t, rec, id, space, code, gap)
            <==> && t == id + space + code + gap && id == rec.id && (forall k :: 0 <= k < |id| ==> !IsSpace(id[k]))
                 && space != [] && (forall k :: 0 <= k < |space| ==> IsSpace(space[k]))
                 && code != [] && |code| % 2 == 0 && Hex.Decode(code, |code| / 2) == Some(rec.phrase)
                 && (forall k :: 0 <= k < |gap| ==> IsSpace(gap[k]))
  {
    hide IsSpace, Hex.Decode;
  }

  /** A line is taken without a query if and only if its text up to the first nul has these parts. */
  lemma PassSyntax(line: seq<byte>, rec: Pass)
    ensures Judge(line, None) == Take(rec)
            <==> exists id, space, code, gap :: PassParts(CString(line), rec, id, space, code, gap)
  {
    hide *;
    if Judge(line, None) == Take(rec) {
      HasPassParts(line, rec);
    }
    if id, space, code, gap :| PassParts(CString(line), rec, id, space, code, gap) {
      Taken(line, rec, id, space, code, gap);
    }
  }

  /** Judge in terms of the words. */
  lemma JudgesAs(line: seq<byte>, more: seq<byte>)
    requires more == AfterWord(CString(line))
    ensures var id, n := FirstWord(CString(line)), |FirstWord(more)|;
            Judge(line, None)
            == if |id| == |CString(line)| || n == 0 || n % 2 != 0 || AfterWord(more) != [] then Bad
               else match Hex.Decode(FirstWord(more), n / 2)
                    case Some(phrase) => Take(Pass(id, phrase))
                    case None => Bad
  {
    hide IsSpace, Hex.Decode, FirstWord, AfterWord, CString;
  }

  lemma Taken(line: seq<byte>, rec: Pass, id: seq<byte>, space: seq<byte>, code: seq<byte>, gap: seq<byte>)
    requires PassParts(CString(line), rec, id, space, code, gap)
    ensures Judge(line, None) == Take(rec)
  {
    var more := code + gap;
    DigitsNoSpace(code, |code| / 2);
    hide IsSpace, Hex.Decode, FirstWord, AfterWord, CString, Judge;
    assert id + space + code + gap == id + space + more && more == code + gap + [];
    assert more[0] == code[0];
    WordFirst(id, space, more);
    WordFirst(code, gap, []);
    hide *;
    JudgesAs(line, more);
  }

  lemma HasPassParts(line: seq<byte>, rec: Pass)
    requires Judge(line, None) == Take(rec)
    ensures exists id, space, code, gap :: PassParts(CString(line), rec, id, space, code, gap)
  {
    hide *;
    var t := CString(line);
    var more := AfterWord(t);
    JudgesAs(line, more);
    WordParts(t);
    WordParts(more);
    TwoJoin(FirstWord(t), Between(t), more);
    MakePassParts(t, rec, FirstWord(t), Between(t), FirstWord(more), Between(more), more);
  }

  lemma MakePassParts(t: seq<byte>, rec: Pass, id: seq<byte>, space: seq<byte>, code: seq<byte>, gap: seq<byte>,
                      more: seq<byte>)
    requires t == id + space + more && more == code + gap + [] && id == rec.id && NoSpace(id)
    requires AllSpace(space) && (space == [] ==> more == []) && AllSpace(gap)
    requires |code| != 0 && |code| % 2 == 0 && Hex.Decode(code, |code| / 2) == Some(rec.phrase)
    ensures PassParts(t, rec, id, space, code, gap)
  {
    hide IsSpace, Hex.Decode, NoSpace, AllSpace;
    assert id + space + (code + gap + []) == id + space + code + gap;
  }

  // ---------------------------------------------------------------- queries

  /** Comparing the shorter length: no character in both is different. */
  lemma AgreeIs(id: seq<byte>, query: seq<byte>)
    ensures Agree(id, query) <==> forall k :: 0 <= k < |id| && k < |query| ==> id[k] == query[k]
  {
  }

  /** A line without white space is an error. A line whose identity differs from the query in the shorter
      length, and every line if the query is empty, is passed over, whatever stands behind the identity. Every
      other line is what it is without a query. */
  lemma JudgeIs(line: seq<byte>, query: seq<byte>)
    ensures var t := CString(line);
            var id := FirstWord(t);
            Judge(line, Some(query))
            == if forall k :: 0 <= k < |t| ==> !IsSpace(t[k]) then Bad
               else if query == [] || (exists k :: 0 <= k < |id| && k < |query| && id[k] != query[k]) then Skip
               else Judge(line, None)
  {
    var t := CString(line);
    OneWordIs(t);
    AgreeIs(FirstWord(t), query);
    hide IsSpace, CString, FirstWord, AfterWord, ParsePhrase, Agree;
  }

  lemma OneWordIs(t: seq<byte>)
    ensures |FirstWord(t)| == |t| <==> forall k :: 0 <= k < |t| ==> !IsSpace(t[k])
  {
    hide IsSpace;
  }

  /** What counts as the record of a line, and which lines a query takes. */
  lemma RecordOfLine(line: seq<byte>, rec: Pass, query: seq<byte>)
    ensures PassOf(line) == Some(rec) <==> IsContent(line) && Judge(line, None) == Take(rec)
    ensures IsTaken(line, None) <==> PassOf(line).Some?
    ensures IsTaken(line, Some(query))
            <==> PassOf(line).Some? && query != []
                 && forall k :: 0 <= k < |PassOf(line).value.id| && k < |query| ==> PassOf(line).value.id[k] == query[k]
  {
    if PassOf(line).Some? {
      AgreeIs(PassOf(line).value.id, query);
    }
    hide Judge, Agree;
  }

  /** A lookup returns the first record whose identity has no character different from the query in the shorter
      length: also when the query is a proper beginning of it, or it of the query. */
  lemma LookupFirst(lines: seq<seq<byte>>, closed: bool, query: seq<byte>, j: nat)
    requires LinesOf(lines, closed) && ValidPasses(lines, 0) && query != [] && j < |lines| && PassOf(lines[j]).Some?
    requires var id := PassOf(lines[j]).value.id; forall k :: 0 <= k < |id| && k < |query| ==> id[k] == query[k]
    requires forall i :: 0 <= i < j && PassOf(lines[i]).Some? ==>
               var id := PassOf(lines[i]).value.id; exists k :: 0 <= k < |id| && k < |query| && id[k] != query[k]
    ensures ScanPass(Text(lines, closed), 0, Some(query))
            == PassScan(j + 1, PassOf(lines[j]), Text(lines[j + 1..], closed), Text(WrittenAll(lines[..j], 0), true))
  {
    AgreeIs(PassOf(lines[j]).value.id, query);
    forall i | 0 <= i < j && PassOf(lines[i]).Some? ensures !Agree(PassOf(lines[i]).value.id, query) {
      AgreeIs(PassOf(lines[i]).value.id, query);
    }
    hide PassOf, LinesOf, ValidPasses, ScanPass, Text, Agree;
    LookupAt(lines, closed, query, j);
  }

  lemma LookupAt(lines: seq<seq<byte>>, closed: bool, query: seq<byte>, j: nat)
    requires LinesOf(lines, closed) && ValidPasses(lines, 0) && query != [] && j < |lines| && PassOf(lines[j]).Some?
    requires Agree(PassOf(lines[j]).value.id, query)
    requires forall i :: 0 <= i < j && PassOf(lines[i]).Some? ==> !Agree(PassOf(lines[i]).value.id, query)
    ensures ScanPass(Text(lines, closed), 0, Some(query))
            == PassScan(j + 1, PassOf(lines[j]), Text(lines[j + 1..], closed), Text(WrittenAll(lines[..j], 0), true))
  {
    hide *;
    ScanPassLines(lines, closed, 0, 0, Some(query));
    PassIs(Text(lines, closed), 0, Some(query));
    TakenIs(lines, closed, 0, 0, Some(query));
    FirstTakenAt(lines, query, j);
  }

  lemma FirstTakenAt(lines: seq<seq<byte>>, query: seq<byte>, j: nat)
    requires query != [] && j < |lines| && PassOf(lines[j]).Some? && Agree(PassOf(lines[j]).value.id, query)
    requires forall i :: 0 <= i < j && PassOf(lines[i]).Some? ==> !Agree(PassOf(lines[i]).value.id, query)
    ensures FirstTaken(lines, Some(query)) == j
  {
    hide PassOf, Agree;
  }

  /** It returns the record of exactly the identity asked for if and only if every record before it differs from
      it in a character that both have. */
  lemma LookupExact(lines: seq<seq<byte>>, closed: bool, query: seq<byte>, j: nat)
    requires LinesOf(lines, closed) && ValidPasses(lines, 0) && query != [] && j < |lines|
    requires PassOf(lines[j]).Some? && PassOf(lines[j]).value.id == query
    ensures ScanPass(Text(lines, closed), 0, Some(query)).ret == j + 1
            <==> forall i :: 0 <= i < j && PassOf(lines[i]).Some? ==>
                   var id := PassOf(lines[i]).value.id; exists k :: 0 <= k < |id| && k < |query| && id[k] != query[k]
  {
    forall i | 0 <= i < j && PassOf(lines[i]).Some?
      ensures var id := PassOf(lines[i]).value.id;
              Agree(id, query) <==> forall k :: 0 <= k < |id| && k < |query| ==> id[k] == query[k]
    {
      AgreeIs(PassOf(lines[i]).value.id, query);
    }
    hide PassOf, LinesOf, ValidPasses, ScanPass, Text, Agree;
    LookupAgrees(lines, closed, query, j);
  }

  /** So with identities of which none is the beginning of another, a lookup is a map lookup. */
  lemma LookupPrefixFree(lines: seq<seq<byte>>, closed: bool, query: seq<byte>)
    requires LinesOf(lines, closed) && ValidPasses(lines, 0) && query != []
    requires forall i :: 0 <= i < |lines| && PassOf(lines[i]).Some? && PassOf(lines[i]).value.id != query ==>
               var id := PassOf(lines[i]).value.id; exists k :: 0 <= k < |id| && k < |query| && id[k] != query[k]
    ensures var k := ScanPass(Text(lines, closed), 0, Some(query));
            match k.rec
            case Some(rec) => rec.id == query && exists i :: 0 <= i < |lines| && PassOf(lines[i]) == Some(rec)
            case None =>
              && k.out == Text(WrittenAll(lines, 0), Closes(lines, closed))
              && forall i :: 0 <= i < |lines| && PassOf(lines[i]).Some? ==> PassOf(lines[i]).value.id != query
  {
    forall i | 0 <= i < |lines| && PassOf(lines[i]).Some? && Agree(PassOf(lines[i]).value.id, query)
      ensures PassOf(lines[i]).value.id == query
    {
      AgreeIs(PassOf(lines[i]).value.id, query);
    }
    hide PassOf, LinesOf, ValidPasses, ScanPass, Text, Agree, WrittenAll, Closes;
    LookupDistinct(lines, closed, query);
  }
}
