/** Exactly when an edit run stores what it was given, for every file of valid lines. */
module KeyLimits {
  import opened Octets
  import opened Lines
  import opened KeyText
  import opened FileLines
  import opened KeyLines
  import opened KeyEdit
  import opened KeyMap

  /** Whatever is read from a key file has a readable identity. */
  lemma {:induction false} ReadReadable(text: seq<byte>, row: nat)
    ensures ReadAll(text, row).Some? ==> forall r :: r in ReadAll(text, row).value ==> Readable(r.id)
    decreases |text|
  {
    hide ScanKeys, Readable;
    KeysShrink(text, row, None);
    ScanReturnsReadable(text, row, None);
    var k := ScanKeys(text, row, None);
    if k.ret > 0 {
      ReadReadable(k.rest, k.ret);
    }
  }

  /** The text gives this identity this key. */
  predicate Gives(text: seq<byte>, rec: Record) {
    var all := ReadAll(text, 0);
    all.Some? && rec.id in AsMap(all.value) && AsMap(all.value)[rec.id] == rec.key
  }

  lemma GivesReadable(text: seq<byte>, rec: Record)
    ensures Gives(text, rec) ==> Readable(rec.id)
  {
    hide ReadAll, Readable, AsMap;
    ReadReadable(text, 0);
    if ReadAll(text, 0).Some? {
      InMap(ReadAll(text, 0).value, rec.id);
    }
  }

  /** What the writer is given. */
  predicate Writable(rec: Record) {
    Accepted(rec.id) && 0 !in rec.id && |rec.key| == KEY_LEN
  }

  lemma ReadableStorable(rec: Record)
    requires Writable(rec)
    ensures |rec.id| <= MAX_ID && Accepted(rec.id) && (Readable(rec.id) <==> Storable(rec))
  {
  }

  // ---------------------------------------------------------------- files that end with a newline or a record

  lemma StoredClosed(lines: seq<seq<byte>>, closed: bool, rec: Record)
    requires LinesOf(lines, closed) && Closes(lines, closed) && ValidLines(lines, 0) && Distinct(Records(lines))
    requires Writable(rec)
    ensures var run := Edit(Text(lines, closed), rec, false);
            && run.Done?
            && (Gives(run.text, rec)
                <==> Readable(rec.id) && (!Absent(lines, Some(rec.id)) || CarriedAll(lines, 0) == 0))
  {
    FirstOf(lines);
    ReadableStorable(rec);
    hide *;
    EditLines(lines, closed, rec, false);
    OnceEditable(lines, rec, false);
    GivesReadable(Join(Edited(lines, rec, false)), rec);
    if Readable(rec.id) {
      AbsentIs(lines, rec.id);
      EditUpdatesMap(lines, closed, rec, false);
      GivesIs(Join(Edited(lines, rec, false)), rec);
    }
  }

  lemma GivesIs(text: seq<byte>, rec: Record)
    ensures var all := ReadAll(text, 0);
            Gives(text, rec)
            <==> all.Some? && rec.id in AsMap(all.value) && AsMap(all.value)[rec.id] == rec.key
  {
  }

  /** A run makes of an unterminated record what it makes of the record with its newline. */
  lemma LastRecordLine(lines: seq<seq<byte>>, rec: Record, delete: bool)
    requires LinesOf(lines, false) && lines != [] && IsContent(lines[|lines| - 1]) && !IndentedContent(lines[0])
    ensures Edit(Text(lines, false), rec, delete) == Edit(Text(lines, true), rec, delete)
  {
    hide ValidLines, Text, IsContent, IndentedContent, Editable, Edited, Edit;
    EditLines(lines, false, rec, delete);
    EditLines(lines, true, rec, delete);
  }

  // ---------------------------------------------------------------- other last lines

  /** A run makes of an unterminated last line that is no record what it makes of the file without it, and
      puts the line back at the end; but a record that would be appended is written behind it, on its line. */
  lemma LastOtherLine(lines: seq<seq<byte>>, last: seq<byte>, rec: Record, delete: bool)
    requires LinesOf(lines + [last], false) && !IsContent(last) && (lines != [] ==> !IndentedContent(lines[0]))
    ensures LinesOf(lines, true)
    ensures var end := Written(last, CarriedAll(lines, 0));
            Edit(Text(lines + [last], false), rec, delete)
            == match Edit(Text(lines, true), rec, delete)
               case Failed => Failed
               case Done(text) =>
                 Done(if Absent(lines, Some(rec.id)) then Join(WrittenAll(lines, 0)) + end + Added(rec, delete)
                      else text + end)
  {
    FrontOf(lines, last);
    OtherPasses(lines, last, Some(rec.id));
    FindAbsent(lines, Some(rec.id));
    hide *;
    EditEvery(lines + [last], false, rec, delete);
    EditEvery(lines, true, rec, delete);
    SameEditable(lines, last, rec.id, delete);
    if ValidLines(lines, 0) && Editable(lines, rec.id, delete) {
      if Absent(lines, Some(rec.id)) {
        OtherAppended(lines, last, rec, delete);
      } else {
        OtherKept(lines, last, rec, delete);
      }
    }
  }

  lemma FrontOf(lines: seq<seq<byte>>, last: seq<byte>)
    requires LinesOf(lines + [last], false) && !IsContent(last) && (lines != [] ==> !IndentedContent(lines[0]))
    ensures LinesOf(lines, true) && !IndentedContent((lines + [last])[0])
  {
    hide Ink, Leading;
    var all := lines + [last];
    assert forall i :: 0 <= i < |lines| ==> lines[i] == all[i];
  }

  lemma OtherPasses(lines: seq<seq<byte>>, last: seq<byte>, query: Option<seq<byte>>)
    requires !IsContent(last)
    ensures ValidLines(lines + [last], 0) <==> ValidLines(lines, 0)
    ensures Find(lines + [last], query)
            == if Find(lines, query) < |lines| then Find(lines, query) else |lines| + 1
  {
    ValidAppend(lines, [last], 0);
    OneValid(last, CarriedAll(lines, 0));
    hide IsContent, ParseRecord, ValidLines;
    var all, p, q := lines + [last], Find(lines, query), Find(lines + [last], query);
    assert forall i :: 0 <= i < |lines| ==> lines[i] == all[i];
    assert !Names(all[|lines|], query);
  }

  lemma SameEditable(lines: seq<seq<byte>>, last: seq<byte>, id: seq<byte>, delete: bool)
    requires !IsContent(last)
    ensures Editable(lines + [last], id, delete) <==> Editable(lines, id, delete)
  {
    hide *;
    var p := Find(lines, Some(id));
    OtherPasses(lines, last, Some(id));
    EditableIs(lines, id, delete);
    EditableIs(lines + [last], id, delete);
    if p < |lines| {
      assert (lines + [last])[p + 1..] == lines[p + 1..] + [last];
      AbsentFront(lines[p + 1..], last, Some(id));
    }
  }

  lemma AbsentFront(lines: seq<seq<byte>>, last: seq<byte>, query: Option<seq<byte>>)
    requires !IsContent(last)
    ensures Absent(lines + [last], query) <==> Absent(lines, query)
  {
    hide *;
    OtherPasses(lines, last, query);
    FindAbsent(lines, query);
    FindAbsent(lines + [last], query);
  }

  lemma WrittenOther(lines: seq<seq<byte>>, last: seq<byte>)
    requires !IsContent(last)
    ensures var all := lines + [last];
            Text(WrittenAll(all, 0), Closes(all, false))
            == Join(WrittenAll(lines, 0)) + Written(last, CarriedAll(lines, 0))
  {
    var w, x := WrittenAll(lines, 0), Written(last, CarriedAll(lines, 0));
    LastOpen(lines, last);
    hide *;
    WrittenAppend(lines, [last], 0);
    WrittenOne(last, CarriedAll(lines, 0));
    TextSplit(w, [x], false);
    TextOne(x);
  }

  lemma LastOpen(lines: seq<seq<byte>>, last: seq<byte>)
    requires !IsContent(last)
    ensures !Closes(lines + [last], false)
  {
    hide IsContent;
  }

  lemma WrittenOne(line: seq<byte>, ns: nat)
    ensures WrittenAll([line], ns) == [Written(line, ns)]
  {
    hide Written;
    assert [line][1..] == [];
  }

  lemma TextOne(x: seq<byte>)
    ensures Text([x], false) == x
  {
    assert [x][1..] == [] && x + [] + [] == x;
  }

  lemma OtherAppended(lines: seq<seq<byte>>, last: seq<byte>, rec: Record, delete: bool)
    requires !IsContent(last) && Absent(lines, Some(rec.id))
    ensures EditedText(lines + [last], false, rec, delete)
            == Join(WrittenAll(lines, 0)) + Written(last, CarriedAll(lines, 0)) + Added(rec, delete)
  {
    FindAbsent(lines, Some(rec.id));
    OtherPasses(lines, last, Some(rec.id));
    WrittenOther(lines, last);
    hide Find, WrittenAll, Written, Text, Closes, Join, Added, Absent;
  }

  lemma OtherKept(lines: seq<seq<byte>>, last: seq<byte>, rec: Record, delete: bool)
    requires !IsContent(last) && !Absent(lines, Some(rec.id)) && ValidLines(lines, 0)
    ensures EditedText(lines + [last], false, rec, delete)
            == EditedText(lines, true, rec, delete) + Written(last, CarriedAll(lines, 0))
  {
    hide *;
    var p := Find(lines, Some(rec.id));
    FindAbsent(lines, Some(rec.id));
    OtherPasses(lines, last, Some(rec.id));
    Named(lines, true, rec, delete);
    Named(lines + [last], false, rec, delete);
    assert (lines + [last])[..p] == lines[..p] && (lines + [last])[p + 1..] == lines[p + 1..] + [last];
    WrittenOther(lines[p + 1..], last);
    CarriedBehind(lines, Some(rec.id));
    JoinIs(WrittenAll(lines[p + 1..], 0), lines[p + 1..]);
    var o, more, end := Join(WrittenAll(lines[..p], 0)) + Added(rec, delete), Join(WrittenAll(lines[p + 1..], 0)),
                        Written(last, CarriedAll(lines, 0));
    assert o + (more + end) == o + more + end;
  }

  lemma JoinIs(w: seq<seq<byte>>, lines: seq<seq<byte>>)
    ensures Text(w, Closes(lines, true)) == Join(w)
  {
    TextJoin(w);
  }

  lemma Named(lines: seq<seq<byte>>, closed: bool, rec: Record, delete: bool)
    ensures var p := Find(lines, Some(rec.id));
            p < |lines| ==> EditedText(lines, closed, rec, delete)
                            == Join(WrittenAll(lines[..p], 0)) + Added(rec, delete)
                               + Text(WrittenAll(lines[p + 1..], 0), Closes(lines[p + 1..], closed))
  {
    hide Find, WrittenAll, Text, Closes, Join, Added;
  }

  lemma CarriedBehind(lines: seq<seq<byte>>, query: Option<seq<byte>>)
    requires ValidLines(lines, 0)
    ensures var p := Find(lines, query); p < |lines| ==> CarriedAll(lines[p + 1..], 0) == CarriedAll(lines, 0)
  {
    hide *;
    var p := Find(lines, query);
    if p < |lines| {
      Around(lines, p);
      ValidAround(lines[..p], lines[p], lines[p + 1..], query);
      CarriedAppend(lines[..p] + [lines[p]], lines[p + 1..], 0);
    }
  }

  /** So behind a line of white space a record is stored as it is without that line, but behind a comment
      it is stored only if it replaces another one. */
  lemma StoredOpen(lines: seq<seq<byte>>, last: seq<byte>, rec: Record)
    requires LinesOf(lines + [last], false) && !IsContent(last) && ValidLines(lines, 0) && Distinct(Records(lines))
    requires Writable(rec)
    ensures var run := Edit(Text(lines + [last], false), rec, false);
            && run.Done?
            && (Gives(run.text, rec)
                <==> Readable(rec.id)
                     && (!Absent(lines, Some(rec.id)) || (Ink(last) == [] && CarriedAll(lines, 0) == 0)))
  {
    FirstOf(lines);
    ReadableStorable(rec);
    ClosedEnds(lines);
    hide *;
    LastOtherLine(lines, last, rec, false);
    StoredClosed(lines, true, rec);
    var run := Edit(Text(lines + [last], false), rec, false);
    GivesReadable(run.text, rec);
    if Readable(rec.id) {
      if Ink(last) == [] {
        BlankWritten(last, CarriedAll(lines, 0));
        BlankLast(lines, rec, Written(last, CarriedAll(lines, 0)));
      } else if Absent(lines, Some(rec.id)) {
        Swallowed(lines, last, rec);
      } else {
        KeptReads(lines, last, rec);
      }
    }
  }

  lemma ClosedEnds(lines: seq<seq<byte>>)
    ensures Closes(lines, true)
  {
  }

  lemma BlankWritten(last: seq<byte>, ns: nat)
    requires Ink(last) == []
    ensures Written(last, ns) == []
  {
  }

  lemma BlankLast(lines: seq<seq<byte>>, rec: Record, end: seq<byte>)
    requires LinesOf(lines, true) && (lines != [] ==> !IndentedContent(lines[0])) && end == []
    requires Edit(Text(lines, true), rec, false).Done?
    ensures var text := Edit(Text(lines, true), rec, false).text;
            text == if Absent(lines, Some(rec.id)) then Join(WrittenAll(lines, 0)) + end + Added(rec, false)
                    else text + end
  {
    hide *;
    EditEvery(lines, true, rec, false);
    FindAbsent(lines, Some(rec.id));
    Unnamed(lines, true, rec, false);
    JoinIs(WrittenAll(lines, 0), lines);
    assert forall s: seq<byte> :: s + end == s;
  }

  lemma Unnamed(lines: seq<seq<byte>>, closed: bool, rec: Record, delete: bool)
    ensures Find(lines, Some(rec.id)) == |lines|
            ==> EditedText(lines, closed, rec, delete)
                == Text(WrittenAll(lines, 0), Closes(lines, closed)) + Added(rec, delete)
  {
    hide Find, WrittenAll, Text, Closes, Join, Added;
  }

  /** The line of a comment with something written behind it is a comment. */
  lemma CommentExtended(line: seq<byte>, more: seq<byte>)
    requires IsComment(line)
    ensures IsComment(line + more) && !IsContent(line + more)
  {
    var n := Leading(line);
    hide Leading, IsSpace;
    var all := line + more;
    assert forall k :: 0 <= k < n ==> all[k] == line[k];
    assert all[n] == line[n] == HASH;
    LeadingIs(all, n);
  }

  lemma CommentRecords(lines: seq<seq<byte>>, line: seq<byte>)
    requires !IsContent(line)
    ensures Records(lines + [line]) == Records(lines)
    ensures ValidLines(lines, 0) ==> ValidLines(lines + [line], 0)
  {
    RecordsAppend(lines, [line]);
    OneRecord(line);
    ValidAppend(lines, [line], 0);
    OneValid(line, CarriedAll(lines, 0));
    hide Records, ParseRecord, ValidLines, IsContent;
    assert Records(lines) + [] == Records(lines);
  }

  lemma OneMoreLine(lines: seq<seq<byte>>, line: seq<byte>, closed: bool)
    requires LinesOf(lines, true) && NL !in line && (!closed ==> line != [])
    ensures LinesOf(lines + [line], closed)
  {
  }

  /** Reading lines with a comment at the end. */
  lemma CommentRead(lines: seq<seq<byte>>, line: seq<byte>, closed: bool)
    requires LinesOf(lines, true) && ValidLines(lines, 0) && IsComment(line) && NL !in line
    ensures ReadAll(Text(lines + [line], closed), 0) == Some(Records(lines))
  {
    CommentIs(line);
    CommentRecords(lines, line);
    OneMoreLine(lines, line, closed);
    FirstOf(lines + [line]);
    hide *;
    ReadLines(lines + [line], closed, 0);
  }

  lemma CommentIs(line: seq<byte>)
    requires IsComment(line)
    ensures line != [] && !IsContent(line)
  {
    hide Leading;
  }

  lemma Swallowed(lines: seq<seq<byte>>, last: seq<byte>, rec: Record)
    requires LinesOf(lines + [last], false) && !IsContent(last) && Ink(last) != [] && ValidLines(lines, 0)
    requires Absent(lines, Some(rec.id)) && Storable(rec)
    ensures !Gives(Join(WrittenAll(lines, 0)) + Written(last, CarriedAll(lines, 0)) + Added(rec, false), rec)
  {
    var w, x, line := WrittenAll(lines, 0), Written(last, CarriedAll(lines, 0)), KeyLine(rec);
    StoredLine(rec);
    StoredParts(rec);
    CommentLast(last, CarriedAll(lines, 0));
    SwallowedText(w, x, rec);
    LastOfLines(lines, last);
    hide *;
    WrittenInLine(last, CarriedAll(lines, 0));
    WrittenLines(lines, true);
    WrittenRecords(lines, 0, 0);
    CommentExtended(x, line);
    JoinedFree(x, line);
    CommentRead(w, x + line, true);
    AbsentIs(lines, rec.id);
    GivesIs(Text(w + [x + line], true), rec);
  }

  lemma JoinedFree(a: seq<byte>, b: seq<byte>)
    requires NL !in a && NL !in b
    ensures NL !in a + b
  {
  }

  lemma LastOfLines(lines: seq<seq<byte>>, last: seq<byte>)
    requires LinesOf(lines + [last], false)
    ensures LinesOf(lines, true) && NL !in last
  {
    var all := lines + [last];
    assert all[|lines|] == last && forall i :: 0 <= i < |lines| ==> lines[i] == all[i];
  }

  lemma CommentLast(last: seq<byte>, ns: nat)
    requires !IsContent(last) && Ink(last) != []
    ensures IsComment(last) && IsComment(Written(last, ns))
  {
    CommentWritten(last, ns);
  }

  lemma SwallowedText(w: seq<seq<byte>>, x: seq<byte>, rec: Record)
    ensures Join(w) + x + Added(rec, false) == Text(w + [x + KeyLine(rec)], true)
  {
    var line := KeyLine(rec);
    hide KeyLine, Text;
    TextJoin(w + [x + line]);
    JoinAppend(w, [x + line]);
    JoinOne(x + line);
    hide Join;
    assert Join(w) + x + (line + [NL]) == Join(w) + (x + line + [NL]);
  }

  lemma KeptReads(lines: seq<seq<byte>>, last: seq<byte>, rec: Record)
    requires LinesOf(lines + [last], false) && !IsContent(last) && Ink(last) != [] && ValidLines(lines, 0)
    requires !Absent(lines, Some(rec.id)) && Storable(rec) && Distinct(Records(lines))
    ensures LinesOf(lines, true)
    ensures var run := Edit(Text(lines, true), rec, false);
            run.Done? && Gives(run.text + Written(last, CarriedAll(lines, 0)), rec)
  {
    var x, after := Written(last, CarriedAll(lines, 0)), Edited(lines, rec, false);
    StoredLine(rec);
    StoredParts(rec);
    CommentLast(last, CarriedAll(lines, 0));
    LastOfLines(lines, last);
    FirstOf(lines);
    ClosedEnds(lines);
    FindAbsent(lines, Some(rec.id));
    hide *;
    WrittenInLine(last, CarriedAll(lines, 0));
    EditUpdatesMap(lines, true, rec, false);
    EditedValid(lines, rec, false);
    EditedInLines(lines, true, rec, false);
    CommentRead(after, x, false);
    TextSplit(after, [x], false);
    TextOne(x);
    GivesIs(Text(after + [x], false), rec);
  }

  // ---------------------------------------------------------------- every file

  /** A record appended to the file would stand on a line of its own, with nothing carried to it. */
  predicate Room(lines: seq<seq<byte>>, closed: bool) {
    if lines == [] || Closes(lines, closed) then CarriedAll(lines, 0) == 0
    else Ink(lines[|lines| - 1]) == [] && CarriedAll(lines[..|lines| - 1], 0) == 0
  }

  /** On every file of valid lines without a repeated identity, a run with an identity that the writer
      accepts succeeds, and what it stores is read back if and only if the identity is readable (no white
      space in it, and no comment character before it) and was there already or had room at the end. */
  lemma StoredIff(lines: seq<seq<byte>>, closed: bool, rec: Record)
    requires LinesOf(lines, closed) && ValidLines(lines, 0) && Distinct(Records(lines)) && Writable(rec)
    ensures var run := Edit(Text(lines, closed), rec, false);
            && run.Done?
            && (Gives(run.text, rec) <==> Readable(rec.id) && (!Absent(lines, Some(rec.id)) || Room(lines, closed)))
  {
    if lines == [] {
      ClosedEnds(lines);
      NoLines(closed);
      NoLines(true);
      StoredClosed(lines, true, rec);
      hide *;
      RoomIs(lines, closed);
    } else {
      hide *;
      RoomIs(lines, closed);
      if Closes(lines, closed) {
        StoredClosed(lines, closed, rec);
      } else {
        OpenLast(lines, closed);
        LastSplit(lines);
        StoredLast(lines, lines[..|lines| - 1], lines[|lines| - 1], rec);
      }
    }
  }

  lemma RoomIs(lines: seq<seq<byte>>, closed: bool)
    ensures Room(lines, closed)
            <==> if lines == [] || Closes(lines, closed) then CarriedAll(lines, 0) == 0
                 else Ink(lines[|lines| - 1]) == [] && CarriedAll(lines[..|lines| - 1], 0) == 0
  {
  }

  lemma LastSplit(lines: seq<seq<byte>>)
    requires lines != []
    ensures lines == lines[..|lines| - 1] + [lines[|lines| - 1]]
  {
  }

  lemma StoredLast(lines: seq<seq<byte>>, front: seq<seq<byte>>, last: seq<byte>, rec: Record)
    requires lines == front + [last] && !IsContent(last)
    requires LinesOf(lines, false) && ValidLines(lines, 0) && Distinct(Records(lines)) && Writable(rec)
    ensures var run := Edit(Text(lines, false), rec, false);
            && run.Done?
            && (Gives(run.text, rec)
                <==> Readable(rec.id)
                     && (!Absent(lines, Some(rec.id)) || (Ink(last) == [] && CarriedAll(front, 0) == 0)))
  {
    hide *;
    StoredOther(front, last, rec);
  }

  lemma StoredOther(lines: seq<seq<byte>>, last: seq<byte>, rec: Record)
    requires var all := lines + [last]; LinesOf(all, false) && ValidLines(all, 0) && Distinct(Records(all))
    requires !IsContent(last) && Writable(rec)
    ensures var all := lines + [last];
            var run := Edit(Text(all, false), rec, false);
            && run.Done?
            && (Gives(run.text, rec)
                <==> Readable(rec.id)
                     && (!Absent(all, Some(rec.id)) || (Ink(last) == [] && CarriedAll(lines, 0) == 0)))
  {
    hide *;
    OtherPasses(lines, last, Some(rec.id));
    AbsentFront(lines, last, Some(rec.id));
    CommentRecords(lines, last);
    StoredOpen(lines, last, rec);
  }

  lemma OpenLast(lines: seq<seq<byte>>, closed: bool)
    requires lines != [] && !Closes(lines, closed)
    ensures !closed && !IsContent(lines[|lines| - 1])
  {
  }
}
