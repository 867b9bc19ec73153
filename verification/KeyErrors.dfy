/** Malformed lines: which row a parse reports, and what that makes of an edit run. */
module KeyErrors {
  import opened Octets
  import opened Lines
  import opened KeyText
  import opened FileLines
  import opened KeyLines
  import opened KeyEdit

  /** A parse for an identity that is not in front reports the first line that is malformed or has white
      space carried to it: by its own row, or by the row before it if there is white space. The lines in front
      have been written, and if there is no white space those behind are left to read. */
  lemma BadLineReported(head: seq<seq<byte>>, bad: seq<byte>, more: seq<seq<byte>>, closed: bool, row: nat,
                        id: seq<byte>)
    requires LinesOf(head + ([bad] + more), closed) && ValidLines(head, 0) && Absent(head, Some(id))
    requires !ValidLine(bad, CarriedAll(head, 0))
    ensures var k := ScanKeys(Text(head + ([bad] + more), closed), row, Some(id));
            && k.rec == None && k.out == Join(WrittenAll(head, 0))
            && if CarriedAll(head, 0) + Leading(bad) == 0 then
                 k.ret == 0 - row - |head| - 1 && k.rest == Text(more, closed)
               else k.ret == 0 - row - |head|
  {
    hide *;
    KeysFrom(Text(head + ([bad] + more), closed), row, Some(id));
    PassOver(head, [bad] + more, closed, 0, row, Some(id));
    StopsFirst([bad] + more, closed, CarriedAll(head, 0), row + |head|, Some(id));
    assert ([bad] + more)[1..] == more;
    TextJoin(WrittenAll(head, 0));
    Prepended(ScanFrom(Text([bad] + more, closed), CarriedAll(head, 0), row + |head|, Some(id)),
              Join(WrittenAll(head, 0)));
  }

  lemma Prepended(k: KeyScan, o: seq<byte>)
    ensures k.Prepend(o).ret == k.ret && k.Prepend(o).rec == k.rec && k.Prepend(o).rest == k.rest
    ensures k.out == [] ==> k.Prepend(o).out == o
  {
    assert o + [] == o;
  }

  /** So the white space in front of a comment, which is allowed, makes a record directly behind the
      comment an error. */
  lemma BehindIndentedComment(comment: seq<byte>, line: seq<byte>, more: seq<seq<byte>>, closed: bool, id: seq<byte>)
    requires LinesOf([comment] + ([line] + more), closed)
    requires IsComment(comment) && 0 < Leading(comment) && IsContent(line)
    ensures ScanKeys(Text([comment] + ([line] + more), closed), 0, Some(id)).ret == -1
  {
    CommentValid(comment, line, Some(id));
    hide *;
    BadLineReported([comment], line, more, closed, 0, id);
  }

  lemma CommentValid(comment: seq<byte>, line: seq<byte>, query: Option<seq<byte>>)
    requires IsComment(comment) && 0 < Leading(comment) && IsContent(line)
    ensures ValidLines([comment], 0) && Absent([comment], query)
    ensures 0 < CarriedAll([comment], 0) && !ValidLine(line, CarriedAll([comment], 0))
  {
    hide Leading, Ink;
    assert [comment][1..] == [];
  }

  /** For example behind ` #`, whatever the record is. */
  lemma BlankComment(line: seq<byte>, id: seq<byte>)
    requires NL !in line && IsContent(line)
    ensures ScanKeys([BLANK, HASH, NL] + line + [NL], 0, Some(id)).ret == -1
  {
    var comment := [BLANK, HASH];
    assert Leading([HASH]) == 0 && comment[1..] == [HASH];
    hide Leading, Ink, IsContent, ScanKeys;
    BehindIndentedComment(comment, line, [], true, id);
    TwoLines(comment, line);
    assert [BLANK, HASH, NL] + line + [NL] == comment + [NL] + (line + [NL]);
  }

  lemma TwoLines(a: seq<byte>, b: seq<byte>)
    ensures Text([a] + ([b] + []), true) == a + [NL] + (b + [NL])
  {
    var all := [a] + ([b] + []);
    assert all[1..] == [b] && [b][1..] == [];
    assert Text([b], true) == b + [NL];
  }

  /** A run fails on every file with a line that is malformed or has white space carried to it, whatever it
      is asked to do, wherever that line and the identity are, and also if the last line lacks its newline. */
  lemma EditRefuses(lines: seq<seq<byte>>, closed: bool, rec: Record, delete: bool, b: nat)
    requires b < |lines| && LinesOf(lines, closed) && !IndentedContent(lines[0])
    requires !ValidLine(lines[b], CarriedAll(lines[..b], 0))
    ensures Edit(Text(lines, closed), rec, delete) == Failed
  {
    hide *;
    InvalidAt(lines, 0, b);
    InvalidFails(lines, closed, rec, delete);
  }

  lemma InvalidAt(lines: seq<seq<byte>>, ns: nat, b: nat)
    requires b < |lines| && !ValidLine(lines[b], CarriedAll(lines[..b], ns))
    ensures !ValidLines(lines, ns)
  {
    ValidAppend(lines[..b], lines[b..], ns);
    hide ValidLine, Carried;
    assert lines == lines[..b] + lines[b..];
  }
}
