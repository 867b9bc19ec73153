/** Exactly when a parse reaches the end of a key file, and when it copies it character for character. */
module KeyCopy {
  import opened Octets
  import opened Lines
  import opened KeyText
  import opened FileLines
  import opened KeyLines

  /** A line that is copied as it stands: empty; or a comment behind blanks only, with nothing carried
      over to it; or a record without a nul. */
  predicate CopiedLine(line: seq<byte>, ns: nat) {
    if Ink(line) == [] then line == []
    else if IsComment(line) then ns == 0 && line[..Leading(line)] == Repeat(BLANK, Leading(line))
    else 0 !in line
  }

  predicate Copied(lines: seq<seq<byte>>, ns: nat) {
    lines == [] || (CopiedLine(lines[0], ns) && Copied(lines[1..], Carried(lines[0], ns)))
  }

  /** The end of the file is copied too, unless a newline is added to a record there. */
  predicate EndCopied(lines: seq<seq<byte>>, closed: bool) {
    closed || lines == [] || !IsContent(lines[|lines| - 1])
  }

  lemma CopiedIs(line: seq<byte>, ns: nat)
    requires NL !in line
    ensures NL !in Written(line, ns)
    ensures Written(line, ns) == line <==> CopiedLine(line, ns)
  {
    hide Leading;
    if IsComment(line) {
      BlanksFirst(line, Leading(line), ns);
    } else if Ink(line) != [] && 0 !in line {
      CStringWhole(line);
    }
  }

  lemma BlanksFirst(line: seq<byte>, w: nat, ns: nat)
    requires w < |line|
    ensures Repeat(BLANK, ns + w) + line[w..] == line <==> ns == 0 && line[..w] == Repeat(BLANK, w)
  {
    var b := Repeat(BLANK, ns + w);
    if b + line[w..] == line {
      assert |b| == w;
      assert (b + line[w..])[..w] == b;
    }
    if ns == 0 && line[..w] == b {
      assert line == line[..w] + line[w..];
    }
  }

  /** Two texts agree up to a newline and behind it, or they differ. */
  lemma FirstLines(x: seq<byte>, a: seq<byte>, y: seq<byte>, b: seq<byte>)
    requires NL !in x && NL !in y
    ensures x + [NL] + a == y + [NL] + b <==> x == y && a == b
  {
    LineAtStart(x, a);
    LineAtStart(y, b);
    hide FirstLine, AfterLine;
  }

  lemma {:induction false} TextCopied(lines: seq<seq<byte>>, closed: bool, ns: nat)
    requires LinesOf(lines, closed)
    ensures Text(WrittenAll(lines, ns), Closes(lines, closed)) == Text(lines, closed)
            <==> Copied(lines, ns) && EndCopied(lines, closed)
  {
    hide Written, CopiedLine, Carried, IsContent;
    if lines != [] {
      var line, rest, ns' := lines[0], lines[1..], Carried(lines[0], ns);
      var w := WrittenAll(rest, ns');
      CopiedIs(line, ns);
      assert WrittenAll(lines, ns)[1..] == w;
      if closed || 1 < |lines| {
        TextCopied(rest, closed, ns');
        FirstLines(Written(line, ns), Text(w, Closes(lines, closed)), line, Text(rest, closed));
      } else {
        LastCopied(line, ns);
      }
    }
  }

  lemma LastCopied(line: seq<byte>, ns: nat)
    requires NL !in line
    ensures var end := if IsContent(line) then [NL] else [];
            Written(line, ns) + end + [] == line + [] + [] <==> CopiedLine(line, ns) && !IsContent(line)
  {
    CopiedIs(line, ns);
    hide Written, CopiedLine, IsContent;
    var end := if IsContent(line) then [NL] else [];
    assert Written(line, ns) + end + [] == Written(line, ns) + end && line + [] + [] == line;
    if IsContent(line) {
      assert (Written(line, ns) + [NL])[|Written(line, ns)|] == NL;
    } else {
      assert Written(line, ns) + [] == Written(line, ns);
    }
  }

  /** A parse for one identity reaches the end of the file if and only if every line is valid where it
      stands and none names the identity. Then it has copied the file as it stood if and only if every
      line is one that is copied. Only an indented first line is excluded, which reads as the end of the
      file. */
  lemma CopiesVerbatim(lines: seq<seq<byte>>, closed: bool, id: seq<byte>)
    requires LinesOf(lines, closed) && (lines != [] ==> !IndentedContent(lines[0]))
    ensures var k := ScanKeys(Text(lines, closed), 0, Some(id));
            && (k.ret == 0 <==> ValidLines(lines, 0) && Absent(lines, Some(id)))
            && (ValidLines(lines, 0) && Absent(lines, Some(id)) ==>
                  (k.out == Text(lines, closed) <==> Copied(lines, 0) && EndCopied(lines, closed)))
  {
    hide *;
    KeysFrom(Text(lines, closed), 0, Some(id));
    EndsIff(lines, closed, 0, 0, Some(id));
    if ValidLines(lines, 0) && Absent(lines, Some(id)) {
      PassAll(lines, closed, 0, 0, Some(id));
      TextCopied(lines, closed, 0);
    }
  }
}
