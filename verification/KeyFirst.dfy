/** The first line of a key file: an error there does not show, and what an edit run makes of it. */
module KeyFirst {
  import opened Octets
  import opened Lines
  import opened KeyText
  import opened FileLines
  import opened KeyLines
  import opened KeyEdit
  import opened KeyMap

  /** An indented record is an error, returned as the negated number of rows before it. So the one
      error that does not show, because it reads as the end of the file, is on the first line. */
  lemma ErrorShows(s: seq<byte>)
    ensures var r := ScanLine(s, 0, 0);
            r.Returned() == 0 <==> r.kind.Ended? || IndentedContent(FirstLine(s))
  {
    hide FirstLine, Ink, AfterLine, Newline, Repeat, IsSpace, Leading;
    if s != [] {
      if Ink(FirstLine(s)) == [] {
        if Newline(s) != [] {
          ScanShrinks(AfterLine(s), 0, 1);
        }
      } else if Ink(FirstLine(s))[0] == HASH {
        ScanShrinks(AfterLine(s), Leading(FirstLine(s)), |Newline(s)|);
        NewlineIs(s);
      }
    }
  }

  /** What is left to read behind an indented first line: the scan has taken its white space and its
      first character of content. */
  function BehindFirst(s: seq<byte>): seq<byte>
    requires IndentedContent(FirstLine(s))
  {
    s[Leading(FirstLine(s)) + 1..]
  }

  /** White space and a character c of content in front of any text. */
  lemma IndentedFront(indent: seq<byte>, c: byte, t: seq<byte>)
    requires indent != [] && forall k :: 0 <= k < |indent| ==> IsSpace(indent[k]) && indent[k] != NL
    requires !IsSpace(c) && c != HASH
    ensures var s := indent + [c] + t;
            IndentedContent(FirstLine(s)) && BehindFirst(s) == t
  {
    var s, first := indent + [c] + t, indent + [c] + FirstLine(t);
    assert NL !in first by {
      assert IsSpace(NL);
    }
    assert s[..|first|] == first;
    LineEndIs(s, |first|);
    LeadingIs(first, |indent|);
    hide Leading, FirstLine;
    assert s[|indent| + 1..] == t;
  }

  lemma FirstScanStops(s: seq<byte>, query: Option<seq<byte>>)
    requires IndentedContent(FirstLine(s))
    ensures ScanKeys(s, 0, query) == KeyScan(0, None, BehindFirst(s), [])
  {
    assert s != [];
    hide FirstLine, Ink, AfterLine, Newline, Repeat, Leading, ParseRecord, CString, Matches;
  }

  /** So the second parse of a run goes on behind that character. */
  lemma SecondGoesOn(s: seq<byte>, rec: Record, delete: bool)
    requires IndentedContent(FirstLine(s))
    ensures var second := ScanKeys(BehindFirst(s), 0, Some(rec.id));
            Edit(s, rec, delete)
            == if !delete && Accepted(rec.id) && second.ret == 0 then Done(KeyLine(rec) + [NL] + second.out) else Failed
  {
    FirstScanStops(s, Some(rec.id));
    hide ScanKeys, BehindFirst, KeyLine, Accepted;
    assert [] + (KeyLine(rec) + [NL]) == KeyLine(rec) + [NL];
  }

  /** What a run makes of every file with such a first line. It cannot delete. If what is left of the line
      is indented content again, everything behind the new record is lost. Otherwise the run succeeds if and
      only if the rest is valid and does not have the identity, and that first character is lost. */
  lemma IndentedFirstLine(s: seq<byte>, lines: seq<seq<byte>>, closed: bool, rec: Record, delete: bool)
    requires LinesOf(lines, closed) && IndentedContent(FirstLine(s)) && BehindFirst(s) == Text(lines, closed)
    ensures Edit(s, rec, delete)
            == if delete || !Accepted(rec.id) then Failed
               else if lines != [] && IndentedContent(lines[0]) then Done(KeyLine(rec) + [NL])
               else if ValidLines(lines, 0) && Absent(lines, Some(rec.id)) then
                 Done(KeyLine(rec) + [NL] + Text(WrittenAll(lines, 0), Closes(lines, closed)))
               else Failed
  {
    hide *;
    var t, query := Text(lines, closed), Some(rec.id);
    SecondGoesOn(s, rec, delete);
    if lines != [] && IndentedContent(lines[0]) {
      TextFirst(lines, closed);
      FirstScanStops(t, query);
      assert KeyLine(rec) + [NL] + [] == KeyLine(rec) + [NL];
    } else {
      KeysFrom(t, 0, query);
      EndsIff(lines, closed, 0, 0, query);
      if ValidLines(lines, 0) && Absent(lines, query) {
        PassAll(lines, closed, 0, 0, query);
      }
    }
  }

  /** So a record behind a blank keeps its key and loses the first character of its identity. */
  lemma RecordRenamed(c: byte, was: Record, rec: Record)
    requires !IsSpace(c) && c != HASH && Storable(was) && Storable(rec) && rec.id != was.id
    ensures var run := Edit([BLANK, c] + (KeyLine(was) + [NL]), rec, false);
            run == Done(KeyLine(rec) + [NL] + (KeyLine(was) + [NL]))
            && ReadAll(run.text, 0) == Some([rec, was])
  {
    hide *;
    var line := KeyLine(was);
    BlankIsSpace();
    IndentedFront([BLANK], c, line + [NL]);
    assert [BLANK] + [c] == [BLANK, c];
    RenamedRun([BLANK, c] + (line + [NL]), was, rec);
    TwoRead(rec, was);
  }

  lemma RenamedRun(s: seq<byte>, was: Record, rec: Record)
    requires IndentedContent(FirstLine(s)) && BehindFirst(s) == KeyLine(was) + [NL]
    requires Storable(was) && Storable(rec) && rec.id != was.id
    ensures Edit(s, rec, false) == Done(KeyLine(rec) + [NL] + (KeyLine(was) + [NL]))
  {
    hide *;
    StoredLine(was);
    StoredParts(was);
    StoredParts(rec);
    OnlyOther(KeyLine(was), was, rec.id);
    StoredWhole(was);
    OneLineText(KeyLine(was));
    ClosedOne(KeyLine(was));
    IndentedFirstLine(s, [KeyLine(was)], true, rec, false);
  }

  lemma StoredWhole(rec: Record)
    requires Storable(rec)
    ensures WrittenAll([KeyLine(rec)], 0) == [KeyLine(rec)] && ValidLines([KeyLine(rec)], 0)
  {
    var line := KeyLine(rec);
    StoredLine(rec);
    OneValid(line, 0);
    WrittenLineIsContent(rec);
    CStringWhole(line);
    StoredValid(line, 0);
    hide KeyLine, ParseRecord, Leading, CString;
    assert [line][1..] == [];
  }

  lemma OneLineText(line: seq<byte>)
    requires NL !in line
    ensures LinesOf([line], true) && Text([line], true) == line + [NL]
  {
    assert [line][1..] == [];
  }

  lemma ClosedOne(line: seq<byte>)
    ensures Closes([line], true)
  {
  }

  lemma OnlyOther(line: seq<byte>, rec: Record, id: seq<byte>)
    requires RecordOf(line) == [rec] && Leading(line) == 0 && rec.id != id && |id| <= MAX_ID
    ensures Absent([line], Some(id)) && !IndentedContent([line][0])
  {
    hide ParseRecord;
  }

  lemma TwoValid(x: seq<byte>, y: seq<byte>)
    requires IsContent(x) && Leading(x) == 0 && RecordOf(x) != []
    requires IsContent(y) && Leading(y) == 0 && RecordOf(y) != []
    ensures ValidLines([x, y], 0) && Records([x, y]) == RecordOf(x) + RecordOf(y)
  {
    hide *;
    OneRecord(x);
    OneRecord(y);
    RecordsAppend([x], [y]);
    OneValid(x, 0);
    OneValid(y, 0);
    StoredValid(x, 0);
    StoredValid(y, 0);
    ValidAppend([x], [y], 0);
    assert [x] + [y] == [x, y];
  }

  lemma TwoRead(a: Record, b: Record)
    requires Storable(a) && Storable(b)
    ensures ReadAll(KeyLine(a) + [NL] + (KeyLine(b) + [NL]), 0) == Some([a, b])
  {
    hide *;
    StoredLine(a);
    StoredLine(b);
    TwoLines(KeyLine(a), KeyLine(b));
    TwoValid(KeyLine(a), KeyLine(b));
    FirstOf([KeyLine(a), KeyLine(b)]);
    ReadLines([KeyLine(a), KeyLine(b)], true, 0);
    assert [a] + [b] == [a, b];
  }

  lemma TwoLines(x: seq<byte>, y: seq<byte>)
    requires NL !in x && NL !in y
    ensures LinesOf([x, y], true) && Text([x, y], true) == x + [NL] + (y + [NL])
  {
    OneLineText(y);
    assert [x, y][1..] == [y];
  }
}
