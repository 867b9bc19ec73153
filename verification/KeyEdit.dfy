/** The edit run of aespasswd: parse up to the named record, write, parse the rest. When it succeeds,
    and what it makes of the file, for every file. */
module KeyEdit {
  import opened Octets
  import opened Lines
  import opened KeyText
  import opened FileLines
  import opened KeyLines

  // ---------------------------------------------------------------- the run

  datatype Outcome = Failed | Done(text: seq<byte>)

  /** The two parses of aespasswd, with the write between them. Deleting fails unless the identity
      was found; whatever the second parse returns but the end of the file is an error. */
  function Edit(text: seq<byte>, rec: Record, delete: bool): Outcome {
    var first := ScanKeys(text, 0, Some(rec.id));
    if first.ret < 0 || (delete && first.ret == 0) || (!delete && !Accepted(rec.id)) then Failed
    else
      var written := if delete then [] else KeyLine(rec) + [NL];
      var second := ScanKeys(first.rest, first.ret, Some(rec.id));
      if second.ret != 0 then Failed else Done(first.out + written + second.out)
  }

  /** A run that fails in one of its parses. */
  lemma EditFails(text: seq<byte>, rec: Record, delete: bool)
    requires var k := ScanKeys(text, 0, Some(rec.id));
             k.ret < 0 || (0 < k.ret && ScanKeys(k.rest, k.ret, Some(rec.id)).ret != 0)
    ensures Edit(text, rec, delete) == Failed
  {
    hide ScanKeys, KeyLine, Accepted;
  }

  lemma NothingToScan(row: nat, query: Option<seq<byte>>)
    ensures ScanKeys([], row, query) == KeyScan(0, None, [], [])
  {
  }

  /** A run whose first parse reaches the end of the file, and one whose first parse finds the record. */
  lemma EditAtEnd(text: seq<byte>, rec: Record, delete: bool, out: seq<byte>)
    requires ScanKeys(text, 0, Some(rec.id)) == KeyScan(0, None, [], out)
    ensures Edit(text, rec, delete)
            == if !delete && Accepted(rec.id) then Done(out + (KeyLine(rec) + [NL])) else Failed
  {
    NothingToScan(0, Some(rec.id));
    hide ScanKeys, KeyLine, Accepted;
    assert out + (KeyLine(rec) + [NL]) + [] == out + (KeyLine(rec) + [NL]);
  }

  lemma EditAtName(text: seq<byte>, rec: Record, delete: bool, row: nat, found: Option<Record>,
                   rest: seq<byte>, out: seq<byte>)
    requires ScanKeys(text, 0, Some(rec.id)) == KeyScan(row, found, rest, out) && 0 < row
    ensures var second := ScanKeys(rest, row, Some(rec.id));
            Edit(text, rec, delete)
            == if (!delete && !Accepted(rec.id)) || second.ret != 0 then Failed
               else Done(out + Added(rec, delete) + second.out)
  {
    hide ScanKeys, KeyLine, Accepted;
  }

  // ---------------------------------------------------------------- the edited file

  /** One record at most, to delete it it must be there, and to store it the identity must be
      acceptable to the writer. */
  predicate Editable(lines: seq<seq<byte>>, id: seq<byte>, delete: bool) {
    var p := Find(lines, Some(id));
    && (p < |lines| ==> Absent(lines[p + 1..], Some(id)))
    && (if delete then p < |lines| else Accepted(id))
  }

  lemma EditableIs(lines: seq<seq<byte>>, id: seq<byte>, delete: bool)
    ensures var p := Find(lines, Some(id));
            Editable(lines, id, delete)
            <==> (p < |lines| ==> Absent(lines[p + 1..], Some(id))) && (if delete then p < |lines| else Accepted(id))
  {
  }

  function Added(rec: Record, delete: bool): seq<byte> {
    if delete then [] else KeyLine(rec) + [NL]
  }

  /** The lines as they are written, with that of the record replaced where it stands, or left out; the
      new record stands at the end if the identity was absent. */
  function EditedText(lines: seq<seq<byte>>, closed: bool, rec: Record, delete: bool): seq<byte> {
    var p := Find(lines, Some(rec.id));
    if p == |lines| then Text(WrittenAll(lines, 0), Closes(lines, closed)) + Added(rec, delete)
    else Join(WrittenAll(lines[..p], 0)) + Added(rec, delete)
         + Text(WrittenAll(lines[p + 1..], 0), Closes(lines[p + 1..], closed))
  }

  /** A run succeeds if and only if no line is malformed, no white space is carried to a record, and the
      identity occurs once at most and is there to be deleted or fit to be stored. What it leaves is the
      edited text. An indented first line is the subject of KeyFirst. */
  lemma EditEvery(lines: seq<seq<byte>>, closed: bool, rec: Record, delete: bool)
    requires LinesOf(lines, closed) && (lines != [] ==> !IndentedContent(lines[0]))
    ensures Edit(Text(lines, closed), rec, delete)
            == if ValidLines(lines, 0) && Editable(lines, rec.id, delete) then
                 Done(EditedText(lines, closed, rec, delete))
               else Failed
  {
    var p := Find(lines, Some(rec.id));
    FindAbsent(lines, Some(rec.id));
    BeforeFind(lines, Some(rec.id));
    hide LinesOf, ValidLines, Text, Names, Absent, Edit, IndentedContent, KeyLine, Accepted, WrittenAll, Join, Closes,
         Find;
    if !ValidLines(lines, 0) {
      InvalidFails(lines, closed, rec, delete);
    } else if p == |lines| {
      KeysFrom(Text(lines, closed), 0, Some(rec.id));
      PassAll(lines, closed, 0, 0, Some(rec.id));
      EditAtEnd(Text(lines, closed), rec, delete, Text(WrittenAll(lines, 0), Closes(lines, closed)));
    } else {
      Around(lines, p);
      EditNamed(lines[..p], lines[p], lines[p + 1..], closed, rec, delete);
    }
  }

  lemma Around<T>(s: seq<T>, p: nat)
    requires p < |s|
    ensures s == s[..p] + ([s[p]] + s[p + 1..]) == s[..p] + [s[p]] + s[p + 1..]
  {
  }

  /** No run succeeds on a file with a line that is malformed or has white space carried to it. */
  lemma InvalidFails(lines: seq<seq<byte>>, closed: bool, rec: Record, delete: bool)
    requires LinesOf(lines, closed) && (lines != [] ==> !IndentedContent(lines[0])) && !ValidLines(lines, 0)
    ensures Edit(Text(lines, closed), rec, delete) == Failed
  {
    hide *;
    var text, query := Text(lines, closed), Some(rec.id);
    KeysFrom(text, 0, query);
    EndsIff(lines, closed, 0, 0, query);
    if 0 < ScanKeys(text, 0, query).ret {
      SecondFails(lines, closed, 0, 0, query);
    }
    EditFails(text, rec, delete);
  }

  /** If the first parse stops at the record, the second one meets the malformed line. */
  lemma {:induction false} SecondFails(lines: seq<seq<byte>>, closed: bool, ns: nat, row: nat, query: Option<seq<byte>>)
    requires LinesOf(lines, closed) && !ValidLines(lines, ns)
    requires 0 < ScanFrom(Text(lines, closed), ns, row, query).ret
    ensures var k := ScanFrom(Text(lines, closed), ns, row, query); ScanKeys(k.rest, k.ret, query).ret != 0
  {
    hide LinesOf, Names, ScanFrom, ScanKeys, ValidLine, Carried, Written, IndentedContent, Text, ParseRecord;
    if ValidLine(lines[0], ns) && !Names(lines[0], query) {
      OverFirst(lines, closed, ns, row, query);
      SecondFails(lines[1..], closed, Carried(lines[0], ns), row + 1, query);
    } else {
      StopsFirst(lines, closed, ns, row, query);
      var rest := Text(lines[1..], closed);
      NothingCarried(lines[0], ns, query);
      KeysFrom(rest, row + 1, query);
      EndsIff(lines[1..], closed, 0, row + 1, query);
    }
  }

  lemma NothingCarried(line: seq<byte>, ns: nat, query: Option<seq<byte>>)
    ensures Names(line, query) ==> Carried(line, ns) == 0
  {
    hide Ink, Leading, ParseRecord;
  }

  /** A run that finds the record. */
  lemma EditNamed(head: seq<seq<byte>>, line: seq<byte>, more: seq<seq<byte>>, closed: bool, rec: Record, delete: bool)
    requires var lines := head + ([line] + more);
             LinesOf(lines, closed) && ValidLines(lines, 0)
    requires Absent(head, Some(rec.id)) && Names(line, Some(rec.id))
    ensures Edit(Text(head + ([line] + more), closed), rec, delete)
            == if Absent(more, Some(rec.id)) && (delete || Accepted(rec.id)) then
                 Done(Join(WrittenAll(head, 0)) + Added(rec, delete) + Text(WrittenAll(more, 0), Closes(more, closed)))
               else Failed
  {
    hide *;
    var text, row, rest, query := Text(head + ([line] + more), closed), |head| + 1, Text(more, closed), Some(rec.id);
    ValidAround(head, line, more, query);
    KeysFrom(text, 0, query);
    PassToName(head, line, more, closed, 0, 0, query);
    EditAtName(text, rec, delete, row, ParseRecord(line), rest, Join(WrittenAll(head, 0)));
    KeysFrom(rest, row, query);
    EndsIff(more, closed, 0, row, query);
    if Absent(more, query) {
      PassAll(more, closed, 0, row, query);
    }
  }

  /** Nothing is carried to a record or away from it. */
  lemma ValidAround(head: seq<seq<byte>>, line: seq<byte>, more: seq<seq<byte>>, query: Option<seq<byte>>)
    requires ValidLines(head + ([line] + more), 0) && Names(line, query)
    ensures ValidLines(head, 0) && ValidLine(line, 0) && ValidLines(more, 0)
    ensures CarriedAll(head, 0) == 0 == CarriedAll(head + [line], 0)
  {
    ValidAppend(head, [line] + more, 0);
    CarriedAppend(head, [line], 0);
    var ns := CarriedAll(head, 0);
    NothingCarried(line, ns, query);
    hide Ink, Leading, ParseRecord, Carried;
    assert ([line] + more)[1..] == more && [line][1..] == [];
  }

  // ---------------------------------------------------------------- the edited lines

  /** The same as lines. */
  function Edited(lines: seq<seq<byte>>, rec: Record, delete: bool): seq<seq<byte>> {
    var p := Find(lines, Some(rec.id));
    WrittenAll(lines[..p], 0) + (if delete then [] else [KeyLine(rec)])
    + if p < |lines| then WrittenAll(lines[p + 1..], 0) else []
  }

  /** If the file ends with a newline or with a record, all lines of the edited file have their newline. */
  lemma EditLines(lines: seq<seq<byte>>, closed: bool, rec: Record, delete: bool)
    requires LinesOf(lines, closed) && (lines != [] ==> !IndentedContent(lines[0])) && Closes(lines, closed)
    ensures Edit(Text(lines, closed), rec, delete)
            == if ValidLines(lines, 0) && Editable(lines, rec.id, delete) then Done(Join(Edited(lines, rec, delete)))
               else Failed
  {
    EditEvery(lines, closed, rec, delete);
    hide *;
    JoinEdited(lines, closed, rec, delete);
  }

  lemma JoinEdited(lines: seq<seq<byte>>, closed: bool, rec: Record, delete: bool)
    requires Closes(lines, closed)
    ensures EditedText(lines, closed, rec, delete) == Join(Edited(lines, rec, delete))
  {
    var p := Find(lines, Some(rec.id));
    ClosesBehind(lines, closed, p);
    hide Names, KeyLine, Join, Text, WrittenAll, Closes;
    JoinNone();
    JoinOne(KeyLine(rec));
    JoinThree(WrittenAll(lines[..p], 0), if delete then [] else [KeyLine(rec)],
              if p < |lines| then WrittenAll(lines[p + 1..], 0) else []);
    if p == |lines| {
      assert lines[..p] == lines;
      TextJoin(WrittenAll(lines, 0));
      assert Join(WrittenAll(lines, 0)) + Added(rec, delete) + [] == Join(WrittenAll(lines, 0)) + Added(rec, delete);
    } else {
      TextJoin(WrittenAll(lines[p + 1..], 0));
    }
  }

  lemma ClosesBehind(lines: seq<seq<byte>>, closed: bool, p: nat)
    requires Closes(lines, closed)
    ensures p < |lines| ==> var more := lines[p + 1..];
                            Text(WrittenAll(more, 0), Closes(more, closed)) == Text(WrittenAll(more, 0), true)
  {
    hide IsContent, Written;
  }

  lemma JoinThree(a: seq<seq<byte>>, b: seq<seq<byte>>, c: seq<seq<byte>>)
    ensures Join(a + b + c) == Join(a) + Join(b) + Join(c)
  {
    hide *;
    JoinAppend(a, b);
    JoinAppend(a + b, c);
  }
}
