/** The edit run on plain files, text by text: every line but the one of the identity stays as it is. */
module KeyPlain {
  import opened Octets
  import opened Lines
  import opened KeyText
  import opened FileLines
  import opened KeyLines
  import opened KeyEdit
  import Hex

  /** An empty line; or a comment or a record without a nul from the first column on. */
  predicate PlainLine(line: seq<byte>) {
    NL !in line
    && (line == [] || line[0] == HASH || (!IsSpace(line[0]) && 0 !in line && ParseRecord(line).Some?))
  }

  predicate PlainLines(lines: seq<seq<byte>>) {
    forall i :: 0 <= i < |lines| ==> PlainLine(lines[i])
  }

  lemma PlainLinesAre(lines: seq<seq<byte>>)
    ensures PlainLines(lines)
            <==> forall i :: 0 <= i < |lines| ==>
                   var l := lines[i];
                   10 !in l && (l == [] || l[0] == 35 || (!IsSpace(l[0]) && 0 !in l && ParseRecord(l).Some?))
  {
    hide ParseRecord, IsSpace;
  }

  /** The record of a plain line. */
  function RecordIn(line: seq<byte>): Option<Record> {
    if line == [] || line[0] == HASH then None else ParseRecord(line)
  }

  lemma RecordInIs(line: seq<byte>)
    ensures RecordIn(line) == if line == [] || line[0] == 35 then None else ParseRecord(line)
  {
    hide ParseRecord;
  }

  lemma PlainKept(line: seq<byte>)
    requires PlainLine(line)
    ensures ValidLine(line, 0) && Carried(line, 0) == 0 && Written(line, 0) == line
    ensures forall id :: |id| <= MAX_ID ==>
              (Names(line, Some(id)) <==> RecordIn(line).Some? && RecordIn(line).value.id == id)
  {
    HashIsInk();
    hide IsSpace, ParseRecord;
    if line != [] {
      OtherLineIs([], line[0], line[1..], 0);
      assert [] + [line[0]] + line[1..] == line;
      assert Repeat(32, 0) + [line[0]] + line[1..] == line;
      if line[0] != HASH {
        CStringWhole(line);
      }
    }
  }

  lemma {:induction false} PlainAll(lines: seq<seq<byte>>)
    requires PlainLines(lines)
    ensures ValidLines(lines, 0) && CarriedAll(lines, 0) == 0 && WrittenAll(lines, 0) == lines && LinesOf(lines, true)
  {
    hide PlainLine, ValidLine, Written, Carried, Names, RecordIn;
    if lines != [] {
      PlainKept(lines[0]);
      PlainAll(lines[1..]);
    }
    PlainFree(lines);
  }

  lemma PlainFree(lines: seq<seq<byte>>)
    requires PlainLines(lines)
    ensures LinesOf(lines, true)
  {
    hide ParseRecord, IsSpace;
  }

  lemma PlainNames(lines: seq<seq<byte>>, id: seq<byte>)
    requires PlainLines(lines) && |id| <= MAX_ID
    ensures Absent(lines, Some(id))
            <==> forall i :: 0 <= i < |lines| ==> RecordIn(lines[i]).None? || RecordIn(lines[i]).value.id != id
  {
    forall i | 0 <= i < |lines|
      ensures Names(lines[i], Some(id)) <==> RecordIn(lines[i]).Some? && RecordIn(lines[i]).value.id == id
    {
      PlainKept(lines[i]);
    }
    hide PlainLine, Names, RecordIn;
  }

  /** No record of this identity. */
  predicate Without(lines: seq<seq<byte>>, id: seq<byte>) {
    forall i :: 0 <= i < |lines| ==> RecordIn(lines[i]).None? || RecordIn(lines[i]).value.id != id
  }

  lemma WithoutIs(lines: seq<seq<byte>>, id: seq<byte>)
    ensures Without(lines, id)
            <==> forall i, rec :: 0 <= i < |lines| && RecordIn(lines[i]) == Some(rec) ==> rec.id != id
  {
    hide RecordIn;
  }

  /** The one record of the identity is replaced where it stands, or removed, and all other text stays; if there
      are two, the run fails. */
  lemma EditInPlace(head: seq<seq<byte>>, line: seq<byte>, tail: seq<seq<byte>>, rec: Record)
    requires PlainLines(head) && PlainLines([line]) && PlainLines(tail) && 0 < |rec.id| <= 16
    requires Without(head, rec.id) && RecordIn(line).Some? && RecordIn(line).value.id == rec.id
    ensures var text := Join(head) + (line + [10] + Join(tail));
            if Without(tail, rec.id) then
              && Edit(text, rec, false) == Done(Join(head) + (rec.id + [9] + Hex.Encode(rec.key) + [10]) + Join(tail))
              && Edit(text, rec, true) == Done(Join(head) + Join(tail))
            else Edit(text, rec, false) == Failed == Edit(text, rec, true)
  {
    WriterAccepts(rec);
    hide *;
    PlainReplaced(head, line, tail, rec, false);
    PlainReplaced(head, line, tail, rec, true);
    assert Join(head) + [] + Join(tail) == Join(head) + Join(tail);
  }

  lemma PlainReplaced(head: seq<seq<byte>>, line: seq<byte>, tail: seq<seq<byte>>, rec: Record, delete: bool)
    requires PlainLines(head) && PlainLines([line]) && PlainLines(tail) && 0 < |rec.id| <= 16
    requires Without(head, rec.id) && RecordIn(line).Some? && RecordIn(line).value.id == rec.id
    ensures Edit(Join(head) + (line + [10] + Join(tail)), rec, delete)
            == if Without(tail, rec.id) then Done(Join(head) + Added(rec, delete) + Join(tail)) else Failed
  {
    PlainOne(line, rec.id);
    hide *;
    WriterAccepts(rec);
    PlainAll(head);
    PlainAll(tail);
    PlainThree(head, line, tail);
    PlainWithout(head, rec.id);
    PlainWithout(tail, rec.id);
    ThreeTexts(head, line, tail);
    EditNamed(head, line, tail, true, rec, delete);
    TailText(tail);
  }

  lemma PlainWithout(lines: seq<seq<byte>>, id: seq<byte>)
    requires PlainLines(lines) && |id| <= MAX_ID
    ensures Absent(lines, Some(id)) <==> Without(lines, id)
  {
    PlainNames(lines, id);
    hide PlainLine, Names, RecordIn;
  }

  lemma PlainOne(line: seq<byte>, id: seq<byte>)
    requires PlainLines([line]) && |id| <= 16 && RecordIn(line).Some? && RecordIn(line).value.id == id
    ensures Names(line, Some(id)) && |id| <= MAX_ID
  {
    assert PlainLine([line][0]);
    PlainKept(line);
    hide PlainLine, Names, RecordIn;
  }

  lemma WriterAccepts(rec: Record)
    ensures Accepted(rec.id) <==> 0 < |rec.id| <= 16
    ensures Added(rec, false) == rec.id + [9] + Hex.Encode(rec.key) + [10] && Added(rec, true) == []
    ensures KeyLine(rec) + [NL] == Added(rec, false)
  {
    hide Hex.Encode;
  }

  lemma PlainThree(head: seq<seq<byte>>, line: seq<byte>, tail: seq<seq<byte>>)
    requires PlainLines(head) && PlainLines([line]) && PlainLines(tail)
    ensures var all := head + ([line] + tail); LinesOf(all, true) && ValidLines(all, 0)
  {
    hide *;
    PlainJoined([line], tail);
    PlainJoined(head, [line] + tail);
    PlainAll(head + ([line] + tail));
  }

  lemma PlainJoined(a: seq<seq<byte>>, b: seq<seq<byte>>)
    requires PlainLines(a) && PlainLines(b)
    ensures PlainLines(a + b)
  {
    hide PlainLine;
  }

  lemma ThreeTexts(head: seq<seq<byte>>, line: seq<byte>, tail: seq<seq<byte>>)
    ensures Text(head + ([line] + tail), true) == Join(head) + (line + [10] + Join(tail))
  {
    TextJoin(head + ([line] + tail));
    JoinAppend(head, [line] + tail);
    assert ([line] + tail)[1..] == tail;
  }

  lemma TailText(tail: seq<seq<byte>>)
    ensures Text(tail, Closes(tail, true)) == Join(tail) && Closes(tail, true)
  {
    TextJoin(tail);
  }

  /** A record of another identity is appended, and cannot be deleted. */
  lemma EditAppends(lines: seq<seq<byte>>, rec: Record)
    requires PlainLines(lines) && Without(lines, rec.id) && 0 < |rec.id| <= 16
    ensures Edit(Join(lines), rec, false) == Done(Join(lines) + (rec.id + [9] + Hex.Encode(rec.key) + [10]))
    ensures Edit(Join(lines), rec, true) == Failed
  {
    WriterAccepts(rec);
    SameLimit();
    hide *;
    PlainAll(lines);
    PlainWithout(lines, rec.id);
    TailText(lines);
    KeysFrom(Join(lines), 0, Some(rec.id));
    TextJoin(lines);
    PassAll(lines, true, 0, 0, Some(rec.id));
    EditAtEnd(Join(lines), rec, false, Join(lines));
    EditAtEnd(Join(lines), rec, true, Join(lines));
  }

  lemma SameLimit()
    ensures MAX_ID == 16
  {
  }
}
