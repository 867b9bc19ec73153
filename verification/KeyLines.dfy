/** Which lines of a key file a parse passes over, what it writes for them, and where it stops. */
module KeyLines {
  import opened Octets
  import opened Lines
  import opened KeyText
  import opened FileLines

  // ---------------------------------------------------------------- valid lines

  /** No error: a line of content is a record from the first column on, and nothing is carried to it. */
  predicate ValidLine(line: seq<byte>, ns: nat) {
    IsContent(line) ==> ns + Leading(line) == 0 && ParseRecord(line).Some?
  }

  /** This line is a record that the query asks for. */
  predicate Names(line: seq<byte>, query: Option<seq<byte>>) {
    IsContent(line) && ParseRecord(line).Some?
    && (query.Some? ==> Matches(ParseRecord(line).value.id, query.value))
  }

  predicate ValidLines(lines: seq<seq<byte>>, ns: nat) {
    lines == [] || (ValidLine(lines[0], ns) && ValidLines(lines[1..], Carried(lines[0], ns)))
  }

  predicate Absent(lines: seq<seq<byte>>, query: Option<seq<byte>>) {
    forall i :: 0 <= i < |lines| ==> !Names(lines[i], query)
  }

  /** The first line that names the identity, or the number of lines. */
  function Find(lines: seq<seq<byte>>, query: Option<seq<byte>>): (p: nat)
    ensures p <= |lines| && (p < |lines| ==> Names(lines[p], query))
    ensures forall i :: 0 <= i < p ==> !Names(lines[i], query)
  {
    FirstWhere(lines, line => Names(line, query))
  }

  /** What these two say of a line of content, and of any other. */
  lemma ContentIsRecord(line: seq<byte>, ns: nat, query: Option<seq<byte>>)
    ensures !IsContent(line) ==> ValidLine(line, ns) && !Names(line, query)
    ensures IsContent(line) ==> (ValidLine(line, ns) <==> ns == 0 && !IndentedContent(line) && ParseRecord(line).Some?)
    ensures IsContent(line) ==>
              (Names(line, query)
               <==> exists rec :: ParseRecord(line) == Some(rec) && (query.Some? ==> Matches(rec.id, query.value)))
  {
    hide Leading, Ink, ParseRecord;
  }

  lemma AbsentFirst(lines: seq<seq<byte>>, query: Option<seq<byte>>)
    requires lines != []
    ensures Absent(lines, query) <==> !Names(lines[0], query) && Absent(lines[1..], query)
  {
    hide Names;
    assert forall i :: 0 < i < |lines| ==> lines[i] == lines[1..][i - 1];
  }

  lemma FindAbsent(lines: seq<seq<byte>>, query: Option<seq<byte>>)
    ensures Find(lines, query) == |lines| <==> Absent(lines, query)
  {
    hide Names;
  }

  lemma BeforeFind(lines: seq<seq<byte>>, query: Option<seq<byte>>)
    ensures Absent(lines[..Find(lines, query)], query)
  {
    hide Names;
  }

  lemma {:induction false} ValidAppend(a: seq<seq<byte>>, b: seq<seq<byte>>, ns: nat)
    ensures ValidLines(a + b, ns) <==> ValidLines(a, ns) && ValidLines(b, CarriedAll(a, ns))
  {
    hide ValidLine, Carried;
    if a == [] {
      assert a + b == b;
    } else {
      ValidAppend(a[1..], b, Carried(a[0], ns));
      assert (a + b)[1..] == a[1..] + b;
    }
  }

  // ---------------------------------------------------------------- one line of a parse

  /** I2ParseKeyFile with ns leading spaces already counted, which comment lines leave behind. */
  function ScanFrom(s: seq<byte>, ns: nat, row: nat, query: Option<seq<byte>>): KeyScan {
    var r := ScanLine(s, ns, row);
    if !r.kind.Found? then KeyScan(r.Returned(), None, r.rest, r.out)
    else match ParseRecord(r.line)
         case None => KeyScan(0 - r.rc, None, r.rest, r.out)
         case Some(rec) =>
           if query.Some? && !Matches(rec.id, query.value) then
             ScanKeys(r.rest, r.rc, query).Prepend(r.out + CString(r.line) + [NL])
           else KeyScan(r.rc, Some(rec), r.rest, r.out)
  }

  lemma KeysFrom(s: seq<byte>, row: nat, query: Option<seq<byte>>)
    ensures ScanKeys(s, row, query) == ScanFrom(s, 0, row, query)
  {
    hide ParseRecord, ScanLine, CString, Matches;
  }

  lemma EndFrom(ns: nat, row: nat, query: Option<seq<byte>>)
    ensures ScanFrom([], ns, row, query) == KeyScan(0, None, [], [])
  {
  }

  lemma ScanOn(s: seq<byte>, ns: nat, row: nat, o: seq<byte>, rest: seq<byte>, ns': nat, row': nat,
               query: Option<seq<byte>>)
    requires ScanLine(s, ns, row) == ScanLine(rest, ns', row').Prepend(o)
    ensures ScanFrom(s, ns, row, query) == ScanFrom(rest, ns', row', query).Prepend(o)
  {
    hide ScanLine, ParseRecord, CString, Matches, ScanKeys;
    var r := ScanLine(rest, ns', row');
    var line := CString(r.line);
    assert o + r.out + line + [NL] == o + (r.out + line + [NL]);
    if r.kind.Found? && ParseRecord(r.line).Some? && query.Some?
       && !Matches(ParseRecord(r.line).value.id, query.value) {
      var k := ScanKeys(r.rest, r.rc, query);
      assert (o + r.out + line + [NL]) + k.out == o + ((r.out + line + [NL]) + k.out);
    }
  }

  lemma RowAtEnd(rest: seq<byte>, ns: nat, row: nat, row': nat, query: Option<seq<byte>>)
    requires rest == [] || row == row'
    ensures ScanFrom(rest, ns, row, query) == ScanFrom(rest, ns, row', query)
  {
    if rest == [] {
      EndFrom(ns, row, query);
      EndFrom(ns, row', query);
    }
    hide *;
  }

  lemma OverOther(s: seq<byte>, ns: nat, row: nat, query: Option<seq<byte>>)
    requires s != [] && !IsContent(FirstLine(s))
    ensures ScanFrom(s, ns, row, query)
            == ScanFrom(AfterLine(s), Carried(FirstLine(s), ns), row + 1, query).Prepend(Kept(s, ns))
  {
    hide *;
    var ns' := Carried(FirstLine(s), ns);
    OtherLine(s, ns, row);
    NewlineIs(s);
    ScanOn(s, ns, row, Kept(s, ns), AfterLine(s), ns', row + |Newline(s)|, query);
    RowAtEnd(AfterLine(s), ns', row + |Newline(s)|, row + 1, query);
  }

  lemma OverRecord(s: seq<byte>, row: nat, query: Option<seq<byte>>)
    requires s != [] && IsContent(FirstLine(s)) && ValidLine(FirstLine(s), 0) && !Names(FirstLine(s), query)
    ensures ScanFrom(s, 0, row, query)
            == ScanFrom(AfterLine(s), 0, row + 1, query).Prepend(CString(FirstLine(s)) + [NL])
  {
    var line := FirstLine(s);
    OneLine(s, 0, row);
    hide *;
    ContentIs(line);
    FoundOther(s, line, AfterLine(s), row, query);
  }

  lemma ContentIs(line: seq<byte>)
    requires IsContent(line)
    ensures Ink(line) != [] && !IsComment(line)
    ensures ValidLine(line, 0) ==> 0 + Leading(line) == 0
  {
  }

  lemma FoundOther(s: seq<byte>, line: seq<byte>, rest: seq<byte>, row: nat, query: Option<seq<byte>>)
    requires ScanLine(s, 0, row) == Scan(Found, row + 1, line, rest, [])
    requires IsContent(line) && ValidLine(line, 0) && !Names(line, query)
    ensures ScanFrom(s, 0, row, query) == ScanFrom(rest, 0, row + 1, query).Prepend(CString(line) + [NL])
  {
    hide ParseRecord, CString, Matches, ScanLine, ScanKeys, IsContent;
    KeysFrom(rest, row + 1, query);
    assert [] + CString(line) + [NL] == CString(line) + [NL];
  }

  /** A parse passes over every valid line that the query does not ask for. */
  lemma Over(s: seq<byte>, ns: nat, row: nat, query: Option<seq<byte>>)
    requires s != [] && ValidLine(FirstLine(s), ns) && !Names(FirstLine(s), query)
    ensures ScanFrom(s, ns, row, query)
            == ScanFrom(AfterLine(s), Carried(FirstLine(s), ns), row + 1, query).Prepend(Kept(s, ns))
  {
    var line := FirstLine(s);
    hide FirstLine, AfterLine, Newline, Leading, ScanFrom, ParseRecord, Matches, Repeat, CString;
    if IsContent(line) {
      OverRecord(s, row, query);
    } else {
      OverOther(s, ns, row, query);
    }
  }

  /** It stops at every other one: behind the line, or if that has white space in front or carried to it behind
      its first character. The row it returns for a malformed line is that of the line, or in the second case the
      row before it. */
  lemma StopsAt(s: seq<byte>, ns: nat, row: nat, query: Option<seq<byte>>)
    requires s != [] && (!ValidLine(FirstLine(s), ns) || Names(FirstLine(s), query))
    ensures var k, line := ScanFrom(s, ns, row, query), FirstLine(s);
            if ValidLine(line, ns) then k == KeyScan(row + 1, ParseRecord(line), AfterLine(s), [])
            else if ns + Leading(line) == 0 then k == KeyScan(0 - row - 1, None, AfterLine(s), [])
            else k == KeyScan(0 - row, None, s[Leading(line) + 1..], [])
  {
    OneLine(s, ns, row);
    hide ParseRecord, CString, Matches, ScanLine, ScanKeys, FirstLine, AfterLine, Leading, Ink;
  }

  // ---------------------------------------------------------------- many lines of a parse

  lemma PrependTwice(k: KeyScan, a: seq<byte>, b: seq<byte>)
    ensures k.Prepend(b).Prepend(a) == k.Prepend(a + b)
  {
    assert a + (b + k.out) == a + b + k.out;
  }

  lemma PrependNone(k: KeyScan)
    ensures k.Prepend([]) == k
  {
    assert [] + k.out == k.out;
  }

  /** The same for a first line of several. */
  lemma OverFirst(lines: seq<seq<byte>>, closed: bool, ns: nat, row: nat, query: Option<seq<byte>>)
    requires LinesOf(lines, closed) && lines != [] && ValidLine(lines[0], ns) && !Names(lines[0], query)
    ensures LinesOf(lines[1..], closed)
    ensures ScanFrom(Text(lines, closed), ns, row, query)
            == ScanFrom(Text(lines[1..], closed), Carried(lines[0], ns), row + 1, query)
               .Prepend(Written(lines[0], ns) + Ending(|lines|, closed || IsContent(lines[0])))
  {
    var s := Text(lines, closed);
    TextFirst(lines, closed);
    hide *;
    Over(s, ns, row, query);
    KeptIs(s, lines, closed, ns);
  }

  lemma StopsFirst(lines: seq<seq<byte>>, closed: bool, ns: nat, row: nat, query: Option<seq<byte>>)
    requires LinesOf(lines, closed) && lines != [] && (!ValidLine(lines[0], ns) || Names(lines[0], query))
    ensures LinesOf(lines[1..], closed)
    ensures var k, line := ScanFrom(Text(lines, closed), ns, row, query), lines[0];
            if ValidLine(line, ns) then k == KeyScan(row + 1, ParseRecord(line), Text(lines[1..], closed), [])
            else if ns + Leading(line) == 0 then k == KeyScan(0 - row - 1, None, Text(lines[1..], closed), [])
            else k == KeyScan(0 - row, None, k.rest, [])
  {
    TextFirst(lines, closed);
    hide *;
    StopsAt(Text(lines, closed), ns, row, query);
  }

  /** A parse writes the valid lines that it is not asked for, and goes on behind them. */
  lemma {:induction false} PassOver(head: seq<seq<byte>>, more: seq<seq<byte>>, closed: bool, ns: nat, row: nat,
                                    query: Option<seq<byte>>)
    requires LinesOf(head + more, closed) && ValidLines(head, ns) && Absent(head, query)
    ensures LinesOf(more, closed)
    ensures ScanFrom(Text(head + more, closed), ns, row, query)
            == ScanFrom(Text(more, closed), CarriedAll(head, ns), row + |head|, query)
               .Prepend(Text(WrittenAll(head, ns), more != [] || Closes(head, closed)))
  {
    var last := more != [] || Closes(head, closed);
    hide LinesOf, Names, ScanFrom, ValidLine, Carried, Written, IsContent, Closes;
    if head == [] {
      assert head + more == more;
      PrependNone(ScanFrom(Text(more, closed), ns, row, query));
    } else {
      var lines, rest, ns' := head + more, head[1..], Carried(head[0], ns);
      assert lines[1..] == rest + more && lines[0] == head[0];
      AbsentFirst(head, query);
      OverFirst(lines, closed, ns, row, query);
      PassOver(rest, more, closed, ns', row + 1, query);
      WrittenFirst(head, more, closed, ns);
      PrependTwice(ScanFrom(Text(more, closed), CarriedAll(head, ns), row + |head|, query),
                   Written(head[0], ns) + Ending(|lines|, closed || IsContent(head[0])),
                   Text(WrittenAll(rest, ns'), more != [] || Closes(rest, closed)));
    }
  }

  /** A parse reaches the end of the file if and only if there is no error and the query is not met.
      An indented first line is excluded: its error reads as the end of the file. */
  lemma {:induction false} EndsIff(lines: seq<seq<byte>>, closed: bool, ns: nat, row: nat, query: Option<seq<byte>>)
    requires LinesOf(lines, closed)
    requires row == 0 ==> ns == 0 && (lines != [] ==> !IndentedContent(lines[0]))
    ensures ScanFrom(Text(lines, closed), ns, row, query).ret == 0 <==> ValidLines(lines, ns) && Absent(lines, query)
  {
    hide LinesOf, Names, ScanFrom, ValidLine, Carried, Written, IndentedContent, Absent;
    if lines == [] {
      EndFrom(ns, row, query);
      NoneAbsent(query);
    } else {
      AbsentFirst(lines, query);
      if ValidLine(lines[0], ns) && !Names(lines[0], query) {
        OverFirst(lines, closed, ns, row, query);
        EndsIff(lines[1..], closed, Carried(lines[0], ns), row + 1, query);
      } else {
        StopsFirst(lines, closed, ns, row, query);
        InvalidLine(lines[0], ns);
      }
    }
  }

  lemma NoneAbsent(query: Option<seq<byte>>)
    ensures Absent([], query)
  {
  }

  lemma InvalidLine(line: seq<byte>, ns: nat)
    ensures !ValidLine(line, ns) ==> ns + Leading(line) == 0 || 0 < ns || IndentedContent(line)
  {
    hide Leading, Ink;
  }

  /** What such a parse writes. */
  lemma PassAll(lines: seq<seq<byte>>, closed: bool, ns: nat, row: nat, query: Option<seq<byte>>)
    requires LinesOf(lines, closed) && ValidLines(lines, ns) && Absent(lines, query)
    ensures ScanFrom(Text(lines, closed), ns, row, query)
            == KeyScan(0, None, [], Text(WrittenAll(lines, ns), Closes(lines, closed)))
  {
    hide *;
    assert lines + [] == lines;
    PassOver(lines, [], closed, ns, row, query);
    NoLines(closed);
    EndFrom(CarriedAll(lines, ns), row + |lines|, query);
    StopPrepended(0, None, [], Text(WrittenAll(lines, ns), Closes(lines, closed)));
  }

  lemma StopPrepended(ret: int, rec: Option<Record>, rest: seq<byte>, o: seq<byte>)
    ensures KeyScan(ret, rec, rest, []).Prepend(o) == KeyScan(ret, rec, rest, o)
  {
    assert o + [] == o;
  }

  /** Where a parse stops that meets its query: behind the first line that does. */
  lemma PassToName(head: seq<seq<byte>>, line: seq<byte>, more: seq<seq<byte>>, closed: bool, ns: nat, row: nat,
                   query: Option<seq<byte>>)
    requires LinesOf(head + ([line] + more), closed) && ValidLines(head, ns) && Absent(head, query)
    requires Names(line, query) && ValidLine(line, CarriedAll(head, ns))
    ensures LinesOf(more, closed)
    ensures ScanFrom(Text(head + ([line] + more), closed), ns, row, query)
            == KeyScan(row + |head| + 1, ParseRecord(line), Text(more, closed), Join(WrittenAll(head, ns)))
  {
    hide *;
    PassOver(head, [line] + more, closed, ns, row, query);
    StopsFirst([line] + more, closed, CarriedAll(head, ns), row + |head|, query);
    assert ([line] + more)[1..] == more;
    TextJoin(WrittenAll(head, ns));
    StopPrepended(row + |head| + 1, ParseRecord(line), Text(more, closed), Join(WrittenAll(head, ns)));
  }
}
