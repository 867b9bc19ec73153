/** A key or pass-phrase file as lines, and what is written for a line that is passed over. */
module FileLines {
  import opened Octets
  import opened Lines
  import opened KeyText

  // ---------------------------------------------------------------- lines

  /** A line is white space only, or a comment, or content. */
  predicate IsComment(line: seq<byte>) {
    Ink(line) != [] && Ink(line)[0] == HASH
  }

  predicate IsContent(line: seq<byte>) {
    Ink(line) != [] && Ink(line)[0] != HASH
  }

  /** Content behind leading white space. */
  predicate IndentedContent(line: seq<byte>) {
    0 < Leading(line) && IsContent(line)
  }

  /** The lines of a text; closed says whether the last one has its newline too. */
  predicate LinesOf(lines: seq<seq<byte>>, closed: bool) {
    && (forall i :: 0 <= i < |lines| ==> NL !in lines[i])
    && (!closed && lines != [] ==> lines[|lines| - 1] != [])
  }

  function Ending(n: nat, closed: bool): seq<byte> {
    if closed || 1 < n then [NL] else []
  }

  function Text(lines: seq<seq<byte>>, closed: bool): seq<byte> {
    if lines == [] then [] else lines[0] + Ending(|lines|, closed) + Text(lines[1..], closed)
  }

  lemma TextFirst(lines: seq<seq<byte>>, closed: bool)
    requires LinesOf(lines, closed) && lines != []
    ensures var s := Text(lines, closed);
            s != [] && FirstLine(s) == lines[0] && AfterLine(s) == Text(lines[1..], closed)
            && Newline(s) == Ending(|lines|, closed) && LinesOf(lines[1..], closed)
  {
    var line := lines[0];
    if closed || 1 < |lines| {
      LineAtStart(line, Text(lines[1..], closed));
    } else {
      LastAlone(line);
      assert line + [] + [] == line;
    }
  }

  lemma LastAlone(line: seq<byte>)
    requires NL !in line
    ensures FirstLine(line) == line && AfterLine(line) == [] == Newline(line)
  {
    assert line[..|line|] == line;
    LineEndIs(line, |line|);
  }

  /** Every text is the text of its lines. */
  lemma {:induction false} EveryText(s: seq<byte>)
    ensures exists lines, closed :: LinesOf(lines, closed) && Text(lines, closed) == s
    decreases |s|
  {
    if s == [] {
      assert LinesOf([], true) && Text([], true) == s;
    } else if AfterLine(s) == [] {
      LastOfText(s);
    } else {
      EveryText(AfterLine(s));
      var lines, closed :| LinesOf(lines, closed) && Text(lines, closed) == AfterLine(s);
      FrontOfText(s);
      var all := [FirstLine(s)] + lines;
      assert lines != [] && all[1..] == lines;
      assert LinesOf(all, closed) && Text(all, closed) == s;
    }
  }

  lemma LastOfText(s: seq<byte>)
    requires s != [] && AfterLine(s) == []
    ensures exists lines, closed :: LinesOf(lines, closed) && Text(lines, closed) == s
  {
    var line, closed := FirstLine(s), LineEnd(s) < |s|;
    assert s == line + if closed then [NL] else [];
    assert [line][1..] == [];
    assert Text([line], closed) == s;
  }

  lemma FrontOfText(s: seq<byte>)
    requires AfterLine(s) != []
    ensures s == FirstLine(s) + [NL] + AfterLine(s)
  {
  }

  /** Lines that all have their newline are the lines of Join. */
  lemma {:induction false} TextJoin(lines: seq<seq<byte>>)
    ensures Text(lines, true) == Join(lines)
  {
    if lines != [] {
      TextJoin(lines[1..]);
    }
  }

  lemma {:induction false} TextSplit(a: seq<seq<byte>>, b: seq<seq<byte>>, closed: bool)
    requires b != []
    ensures Text(a + b, closed) == Join(a) + Text(b, closed)
  {
    if a == [] {
      assert a + b == b;
    } else {
      TextSplit(a[1..], b, closed);
      assert (a + b)[1..] == a[1..] + b;
      assert a[0] + [NL] + (Join(a[1..]) + Text(b, closed)) == a[0] + [NL] + Join(a[1..]) + Text(b, closed);
    }
  }

  lemma NoLines(closed: bool)
    ensures Text([], closed) == []
  {
  }

  // ---------------------------------------------------------------- what becomes of a line

  /** White space carried over from a line to the next one. */
  function Carried(line: seq<byte>, ns: nat): nat {
    if IsComment(line) then ns + Leading(line) else 0
  }

  /** What is written for a line. */
  function Written(line: seq<byte>, ns: nat): seq<byte> {
    if Ink(line) == [] then []
    else if IsComment(line) then Repeat(BLANK, ns + Leading(line)) + Ink(line)
    else CString(line)
  }

  function CarriedAll(lines: seq<seq<byte>>, ns: nat): nat {
    if lines == [] then ns else CarriedAll(lines[1..], Carried(lines[0], ns))
  }

  function WrittenAll(lines: seq<seq<byte>>, ns: nat): (w: seq<seq<byte>>)
    ensures |w| == |lines|
  {
    if lines == [] then [] else [Written(lines[0], ns)] + WrittenAll(lines[1..], Carried(lines[0], ns))
  }

  /** Whether the lines as they are written end with a newline: a record always gets one. */
  predicate Closes(lines: seq<seq<byte>>, closed: bool) {
    closed || (lines != [] && IsContent(lines[|lines| - 1]))
  }

  lemma {:induction false} CarriedAppend(a: seq<seq<byte>>, b: seq<seq<byte>>, ns: nat)
    ensures CarriedAll(a + b, ns) == CarriedAll(b, CarriedAll(a, ns))
  {
    hide Carried;
    if a == [] {
      assert a + b == b;
    } else {
      CarriedAppend(a[1..], b, Carried(a[0], ns));
      assert (a + b)[1..] == a[1..] + b;
    }
  }

  lemma {:induction false} WrittenAppend(a: seq<seq<byte>>, b: seq<seq<byte>>, ns: nat)
    ensures WrittenAll(a + b, ns) == WrittenAll(a, ns) + WrittenAll(b, CarriedAll(a, ns))
  {
    hide Written, Carried;
    if a == [] {
      assert a + b == b;
    } else {
      var w, w' := WrittenAll(a[1..], Carried(a[0], ns)), WrittenAll(b, CarriedAll(a, ns));
      WrittenAppend(a[1..], b, Carried(a[0], ns));
      assert (a + b)[1..] == a[1..] + b;
      assert [Written(a[0], ns)] + (w + w') == [Written(a[0], ns)] + w + w';
    }
  }

  lemma WrittenFirst(head: seq<seq<byte>>, more: seq<seq<byte>>, closed: bool, ns: nat)
    requires head != []
    ensures var rest := WrittenAll(head[1..], Carried(head[0], ns));
            Text(WrittenAll(head, ns), more != [] || Closes(head, closed))
            == Written(head[0], ns) + Ending(|head + more|, closed || IsContent(head[0]))
               + Text(rest, more != [] || Closes(head[1..], closed))
  {
    hide Written, Carried, IsContent;
    assert WrittenAll(head, ns)[1..] == WrittenAll(head[1..], Carried(head[0], ns));
  }

  // ---------------------------------------------------------------- character by character

  /** White space only: written as an empty line, and nothing is carried on. */
  lemma BlankLineIs(w: seq<byte>, ns: nat)
    requires forall k :: 0 <= k < |w| ==> IsSpace(w[k])
    ensures !IsComment(w) && !IsContent(w) && Written(w, ns) == [] && Carried(w, ns) == 0
  {
    AllSpaceLeads(w);
    hide Leading, IsSpace;
  }

  /** White space and a character that is none: a comment if that is #, written with as many blanks in front as
      there was white space, and what was carried to it; otherwise content, written up to its first nul. */
  lemma OtherLineIs(w: seq<byte>, c: byte, x: seq<byte>, ns: nat)
    requires (forall k :: 0 <= k < |w| ==> IsSpace(w[k])) && !IsSpace(c)
    ensures var line := w + [c] + x;
            if c as int == '#' as int then
              && IsComment(line) && !IsContent(line) && Carried(line, ns) == ns + |w|
              && Written(line, ns) == Repeat(32, ns + |w|) + [c] + x
            else
              && !IsComment(line) && IsContent(line) && Carried(line, ns) == 0 && Written(line, ns) == CString(line)
              && (IndentedContent(line) <==> w != [])
  {
    var line := w + [c] + x;
    hide IsSpace;
    assert line[|w|] == c && forall k :: 0 <= k < |w| ==> line[k] == w[k];
    LeadingIs(line, |w|);
    hide Leading;
    assert line[|w|..] == [c] + x;
    assert Repeat(BLANK, ns + |w|) + ([c] + x) == Repeat(32, ns + |w|) + [c] + x;
  }

  // ---------------------------------------------------------------- the first line of a text

  lemma OneLine(s: seq<byte>, ns: nat, row: nat)
    requires s != []
    ensures var l := FirstLine(s);
            if Ink(l) == [] then
              ScanLine(s, ns, row) == if Newline(s) == [] then Scan(Ended, row, [], [], [])
                                      else ScanLine(AfterLine(s), 0, row + 1).Prepend([NL])
            else if IsComment(l) then
              ScanLine(s, ns, row)
              == ScanLine(AfterLine(s), ns + Leading(l), row + |Newline(s)|)
                 .Prepend(Repeat(BLANK, ns + Leading(l)) + Ink(l) + Newline(s))
            else if 0 < ns + Leading(l) then ScanLine(s, ns, row) == Scan(Indented, row, [], s[Leading(l) + 1..], [])
            else ScanLine(s, ns, row) == Scan(Found, row + 1, l, AfterLine(s), [])
  {
    hide FirstLine, AfterLine, Newline, Leading, Ink, Repeat, IsSpace;
  }

  /** What is written for the first line of a text. */
  function Kept(s: seq<byte>, ns: nat): seq<byte> {
    Written(FirstLine(s), ns) + if IsContent(FirstLine(s)) then [NL] else Newline(s)
  }

  lemma NewlineIs(s: seq<byte>)
    ensures if Newline(s) == [] then AfterLine(s) == [] else Newline(s) == [NL]
  {
    hide LineEnd;
  }

  /** A line that is no content is passed over, and leaves the white space in front of a comment behind. */
  lemma OtherLine(s: seq<byte>, ns: nat, row: nat)
    requires s != [] && !IsContent(FirstLine(s))
    ensures ScanLine(s, ns, row)
            == ScanLine(AfterLine(s), Carried(FirstLine(s), ns), row + |Newline(s)|).Prepend(Kept(s, ns))
  {
    if Ink(FirstLine(s)) == [] {
      BlankFirst(s, ns, row);
    } else {
      CommentFirst(s, ns, row);
    }
  }

  lemma BlankFirst(s: seq<byte>, ns: nat, row: nat)
    requires s != [] && Ink(FirstLine(s)) == []
    ensures ScanLine(s, ns, row)
            == ScanLine(AfterLine(s), Carried(FirstLine(s), ns), row + |Newline(s)|).Prepend(Kept(s, ns))
  {
    hide *;
    OneLine(s, ns, row);
    NewlineIs(s);
    BlankKept(s, ns);
    NothingThere(0, row);
  }

  lemma BlankKept(s: seq<byte>, ns: nat)
    requires Ink(FirstLine(s)) == []
    ensures Carried(FirstLine(s), ns) == 0 && Kept(s, ns) == Newline(s)
  {
    hide FirstLine, Newline, Ink;
    assert [] + Newline(s) == Newline(s);
  }

  lemma CommentFirst(s: seq<byte>, ns: nat, row: nat)
    requires s != [] && IsComment(FirstLine(s))
    ensures ScanLine(s, ns, row)
            == ScanLine(AfterLine(s), Carried(FirstLine(s), ns), row + |Newline(s)|).Prepend(Kept(s, ns))
  {
    OneLine(s, ns, row);
    hide ScanLine, FirstLine, AfterLine, Newline, Leading, Ink, Repeat;
  }

  lemma NothingThere(ns: nat, row: nat)
    ensures ScanLine([], ns, row) == Scan(Ended, row, [], [], [])
    ensures ScanLine([], ns, row).Prepend([]) == Scan(Ended, row, [], [], [])
  {
  }

  lemma KeptIs(s: seq<byte>, lines: seq<seq<byte>>, closed: bool, ns: nat)
    requires lines != [] && FirstLine(s) == lines[0] && Newline(s) == Ending(|lines|, closed)
    ensures Kept(s, ns) == Written(lines[0], ns) + Ending(|lines|, closed || IsContent(lines[0]))
  {
    hide Written, IsContent, FirstLine, Newline;
  }
}
