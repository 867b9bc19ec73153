/** What a lookup in a pass-phrase file does line by line: which lines it passes over, and where it stops. */
module PassLines {
  import opened Octets
  import opened Lines
  import opened KeyText
  import opened FileLines
  import opened PassText

  /** No error, and not taken: no content, or content without white space in front or carried to it which is of
      another identity. */
  predicate Passed(line: seq<byte>, ns: nat, query: Option<seq<byte>>) {
    IsContent(line) ==> ns + Leading(line) == 0 && Judge(line, query).Skip?
  }

  predicate AllPassed(lines: seq<seq<byte>>, ns: nat, query: Option<seq<byte>>) {
    lines == [] || (Passed(lines[0], ns, query) && AllPassed(lines[1..], Carried(lines[0], ns), query))
  }

  // ---------------------------------------------------------------- one line

  lemma OverContent(s: seq<byte>, row: nat, query: Option<seq<byte>>)
    requires s != [] && IsContent(FirstLine(s)) && Passed(FirstLine(s), 0, query)
    ensures PassFrom(s, 0, row, query) == PassFrom(AfterLine(s), 0, row + 1, query).Prepend(Kept(s, 0))
  {
    var line := FirstLine(s);
    OneLine(s, 0, row);
    ContentPassed(line, query);
    KeptRecord(s);
    hide *;
    FoundSkipped(s, line, AfterLine(s), row, query);
  }

  lemma ContentPassed(line: seq<byte>, query: Option<seq<byte>>)
    requires IsContent(line) && Passed(line, 0, query)
    ensures Ink(line) != [] && !IsComment(line) && 0 + Leading(line) == 0 && Judge(line, query).Skip?
  {
    hide Judge, Leading;
  }

  lemma FoundSkipped(s: seq<byte>, line: seq<byte>, rest: seq<byte>, row: nat, query: Option<seq<byte>>)
    requires ScanLine(s, 0, row) == Scan(Found, row + 1, line, rest, []) && Judge(line, query).Skip?
    ensures PassFrom(s, 0, row, query) == PassFrom(rest, 0, row + 1, query).Prepend(CString(line) + [NL])
  {
    hide Judge, CString, ScanLine, ScanPass;
    PassIs(rest, row + 1, query);
    assert [] + CString(line) + [NL] == CString(line) + [NL];
  }

  lemma OverLine(s: seq<byte>, ns: nat, row: nat, query: Option<seq<byte>>)
    requires s != [] && Passed(FirstLine(s), ns, query)
    ensures PassFrom(s, ns, row, query)
            == PassFrom(AfterLine(s), Carried(FirstLine(s), ns), row + 1, query).Prepend(Kept(s, ns))
  {
    hide Judge, PassFrom, FirstLine, AfterLine, Leading, Ink, Kept;
    if IsContent(FirstLine(s)) {
      OverContent(s, row, query);
    } else {
      PassOther(s, ns, row, query);
    }
  }

  /** It stops behind a line that it takes or that is malformed, and where there is white space in front of the
      line or carried to it behind its first character. */
  lemma StopsAt(s: seq<byte>, ns: nat, row: nat, query: Option<seq<byte>>)
    requires s != [] && !Passed(FirstLine(s), ns, query)
    ensures var k, line := PassFrom(s, ns, row, query), FirstLine(s);
            if 0 < ns + Leading(line) then k == PassScan(0 - row, None, s[Leading(line) + 1..], [])
            else if Judge(line, query).Take? then k == PassScan(row + 1, Some(Judge(line, query).rec), AfterLine(s), [])
            else k == PassScan(0 - row - 1, None, AfterLine(s), [])
  {
    OneLine(s, ns, row);
    hide Judge, CString, ScanLine, ScanPass, FirstLine, AfterLine, Leading, Ink;
  }

  // ---------------------------------------------------------------- many lines

  lemma Twice(k: PassScan, a: seq<byte>, b: seq<byte>)
    ensures k.Prepend([]) == k && k.Prepend(b).Prepend(a) == k.Prepend(a + b)
  {
    assert [] + k.out == k.out && a + (b + k.out) == a + b + k.out;
  }

  /** A lookup writes the lines that it passes over, and goes on behind them. */
  lemma {:induction false} PassOver(head: seq<seq<byte>>, more: seq<seq<byte>>, closed: bool, ns: nat, row: nat,
                                    query: Option<seq<byte>>)
    requires LinesOf(head + more, closed) && AllPassed(head, ns, query)
    ensures LinesOf(more, closed)
    ensures PassFrom(Text(head + more, closed), ns, row, query)
            == PassFrom(Text(more, closed), CarriedAll(head, ns), row + |head|, query)
               .Prepend(Text(WrittenAll(head, ns), more != [] || Closes(head, closed)))
  {
    hide LinesOf, PassFrom, Passed, Carried, Written, IsContent, Closes;
    if head == [] {
      assert head + more == more;
      Twice(PassFrom(Text(more, closed), ns, row, query), [], []);
    } else {
      var lines, rest, ns' := head + more, head[1..], Carried(head[0], ns);
      assert lines[1..] == rest + more && lines[0] == head[0];
      OverFirst(lines, closed, ns, row, query);
      PassOver(rest, more, closed, ns', row + 1, query);
      WrittenFirst(head, more, closed, ns);
      Twice(PassFrom(Text(more, closed), CarriedAll(head, ns), row + |head|, query),
            Written(head[0], ns) + Ending(|lines|, closed || IsContent(head[0])),
            Text(WrittenAll(rest, ns'), more != [] || Closes(rest, closed)));
    }
  }

  lemma OverFirst(lines: seq<seq<byte>>, closed: bool, ns: nat, row: nat, query: Option<seq<byte>>)
    requires LinesOf(lines, closed) && lines != [] && Passed(lines[0], ns, query)
    ensures LinesOf(lines[1..], closed)
    ensures PassFrom(Text(lines, closed), ns, row, query)
            == PassFrom(Text(lines[1..], closed), Carried(lines[0], ns), row + 1, query)
               .Prepend(Written(lines[0], ns) + Ending(|lines|, closed || IsContent(lines[0])))
  {
    var s := Text(lines, closed);
    TextFirst(lines, closed);
    hide *;
    OverLine(s, ns, row, query);
    KeptIs(s, lines, closed, ns);
  }

  /** A file without an error and without a record for the query is written and read to its end. */
  lemma LookupEnds(lines: seq<seq<byte>>, closed: bool, row: nat, query: Option<seq<byte>>)
    requires LinesOf(lines, closed) && AllPassed(lines, 0, query)
    ensures ScanPass(Text(lines, closed), row, query)
            == PassScan(0, None, [], Text(WrittenAll(lines, 0), Closes(lines, closed)))
  {
    hide *;
    assert lines + [] == lines;
    PassIs(Text(lines, closed), row, query);
    PassOver(lines, [], closed, 0, row, query);
    NoLines(closed);
    NoPassFrom(CarriedAll(lines, 0), row + |lines|, query);
    StoppedThen(0, None, [], Text(WrittenAll(lines, 0), Closes(lines, closed)));
  }

  lemma StoppedThen(ret: int, rec: Option<Pass>, rest: seq<byte>, o: seq<byte>)
    ensures PassScan(ret, rec, rest, []).Prepend(o) == PassScan(ret, rec, rest, o)
  {
    assert o + [] == o;
  }

  /** On every other file a lookup stops at the first line that is not passed over: a record that it returns with
      the row, or an error that gives back the negated row of the line, or of the line before if there is white
      space in front or carried to it. Everything in front has been written. */
  lemma LookupStops(head: seq<seq<byte>>, line: seq<byte>, more: seq<seq<byte>>, closed: bool, row: nat,
                    query: Option<seq<byte>>)
    requires LinesOf(head + ([line] + more), closed) && AllPassed(head, 0, query)
    requires !Passed(line, CarriedAll(head, 0), query)
    ensures var k, n := ScanPass(Text(head + ([line] + more), closed), row, query), row + |head|;
            && k.out == Join(WrittenAll(head, 0))
            && if 0 < CarriedAll(head, 0) + Leading(line) then k.ret == 0 - n && k.rec == None
               else if Judge(line, query).Take? then
                 k.ret == n + 1 && k.rec == Some(Judge(line, query).rec) && k.rest == Text(more, closed)
               else k.ret == 0 - n - 1 && k.rec == None && k.rest == Text(more, closed)
  {
    hide *;
    var tail, ns := [line] + more, CarriedAll(head, 0);
    PassIs(Text(head + tail, closed), row, query);
    PassOver(head, tail, closed, 0, row, query);
    assert tail[1..] == more && tail[0] == line;
    TextFirst(tail, closed);
    StopsAt(Text(tail, closed), ns, row + |head|, query);
    TextJoin(WrittenAll(head, 0));
    var k := PassFrom(Text(tail, closed), ns, row + |head|, query);
    StoppedThen(k.ret, k.rec, k.rest, Join(WrittenAll(head, 0)));
  }

  /** These are all files: either every line is passed over, or there is a first one that is not. */
  lemma EveryFile(lines: seq<seq<byte>>, query: Option<seq<byte>>)
    ensures AllPassed(lines, 0, query) || exists p :: 0 <= p < |lines| && StopsIn(lines, 0, query, p)
  {
    if !AllPassed(lines, 0, query) {
      var p := FirstStop(lines, 0, query);
    }
  }

  predicate StopsIn(lines: seq<seq<byte>>, ns: nat, query: Option<seq<byte>>, p: nat)
    requires p < |lines|
  {
    AllPassed(lines[..p], ns, query) && !Passed(lines[p], CarriedAll(lines[..p], ns), query)
  }

  lemma {:induction false} FirstStop(lines: seq<seq<byte>>, ns: nat, query: Option<seq<byte>>) returns (p: nat)
    requires !AllPassed(lines, ns, query)
    ensures p < |lines| && StopsIn(lines, ns, query, p)
  {
    hide Passed, Carried;
    if !Passed(lines[0], ns, query) {
      p := 0;
      assert lines[..0] == [];
    } else {
      p := FirstStop(lines[1..], Carried(lines[0], ns), query);
      p := p + 1;
      assert lines[..p][1..] == lines[1..][..p - 1];
    }
  }
}
