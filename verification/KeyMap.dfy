/** A key file as a finite map from identities to keys: what reading all of it gives, and what the
    edit run of aespasswd does to that. */
module KeyMap {
  import opened Octets
  import opened Lines
  import opened KeyText
  import opened FileLines
  import opened KeyLines
  import opened KeyEdit

  function RecordOf(line: seq<byte>): seq<Record> {
    if IsContent(line) && ParseRecord(line).Some? then [ParseRecord(line).value] else []
  }

  lemma RecordOfIs(line: seq<byte>, rec: Record)
    ensures RecordOf(line) == [rec] <==> IsContent(line) && ParseRecord(line) == Some(rec)
    ensures RecordOf(line) == [] <==> !IsContent(line) || ParseRecord(line) == None
  {
    hide ParseRecord;
  }

  /** The records of a file, in order. */
  function Records(lines: seq<seq<byte>>): seq<Record> {
    if lines == [] then [] else RecordOf(lines[0]) + Records(lines[1..])
  }

  /** Reading a whole key file: I2ParseKeyFile without a query until it returns no more rows. */
  function ReadAll(text: seq<byte>, row: nat): Option<seq<Record>>
    decreases |text|
  {
    KeysShrink(text, row, None);
    var k := ScanKeys(text, row, None);
    if k.ret < 0 then None
    else if k.ret == 0 then Some([])
    else match ReadAll(k.rest, k.ret)
         case Some(more) => Some([k.rec.value] + more)
         case None => None
  }

  /** A map; of two records for one identity the first counts, as it does for a query. */
  function AsMap(records: seq<Record>): map<seq<byte>, seq<byte>> {
    if records == [] then map[] else AsMap(records[1..])[records[0].id := records[0].key]
  }

  /** No identity twice. */
  predicate Distinct(records: seq<Record>) {
    forall i, j :: 0 <= i < j < |records| ==> records[i].id != records[j].id
  }

  lemma {:induction false} KeysShrink(text: seq<byte>, row: nat, query: Option<seq<byte>>)
    ensures var k := ScanKeys(text, row, query);
            |k.rest| <= |text| && (k.ret > 0 <==> k.rec.Some?) && (k.ret > 0 ==> |k.rest| < |text|)
    decreases |text|
  {
    hide ScanLine, ParseRecord, CString, Matches;
    var r := ScanLine(text, 0, row);
    ScanShrinks(text, 0, row);
    if r.kind.Found? {
      KeysShrink(r.rest, r.rc, query);
    }
  }

  /** Reading with white space carried over from the lines before. */
  function ReadFrom(text: seq<byte>, ns: nat, row: nat): Option<seq<Record>> {
    var k := ScanFrom(text, ns, row, None);
    if k.ret <= 0 || k.rec.None? then (if k.ret == 0 then Some([]) else None)
    else match ReadAll(k.rest, k.ret)
         case Some(more) => Some([k.rec.value] + more)
         case None => None
  }

  lemma ReadIs(text: seq<byte>, row: nat)
    ensures ReadAll(text, row) == ReadFrom(text, 0, row)
  {
    hide ScanKeys, ScanFrom;
    KeysFrom(text, row, None);
    KeysShrink(text, row, None);
  }

  lemma ReadOn(s: seq<byte>, ns: nat, row: nat, o: seq<byte>, rest: seq<byte>, ns': nat, row': nat)
    requires ScanFrom(s, ns, row, None) == ScanFrom(rest, ns', row', None).Prepend(o)
    ensures ReadFrom(s, ns, row) == ReadFrom(rest, ns', row')
  {
    hide ScanFrom, ReadAll;
  }

  /** Reading a file without a query gives exactly its records, in order, if every line is valid where it
      stands, and fails otherwise. */
  lemma ReadLines(lines: seq<seq<byte>>, closed: bool, row: nat)
    requires LinesOf(lines, closed) && (row == 0 && lines != [] ==> !IndentedContent(lines[0]))
    ensures ReadAll(Text(lines, closed), row) == if ValidLines(lines, 0) then Some(Records(lines)) else None
  {
    hide *;
    ReadIs(Text(lines, closed), row);
    ReadLinesFrom(lines, closed, 0, row);
  }

  lemma {:induction false} ReadLinesFrom(lines: seq<seq<byte>>, closed: bool, ns: nat, row: nat)
    requires LinesOf(lines, closed)
    requires row == 0 ==> ns == 0 && (lines != [] ==> !IndentedContent(lines[0]))
    ensures ReadFrom(Text(lines, closed), ns, row) == if ValidLines(lines, ns) then Some(Records(lines)) else None
  {
    hide LinesOf, Text, Names, ScanFrom, ValidLine, IndentedContent, RecordOf, ReadAll, ReadFrom, ParseRecord, Carried;
    if lines == [] {
      NothingRead(ns, row, closed);
    } else {
      var s, rest, line := Text(lines, closed), lines[1..], lines[0];
      if ValidLine(line, ns) && !Names(line, None) {
        OverFirst(lines, closed, ns, row, None);
        ReadOn(s, ns, row, Written(line, ns) + Ending(|lines|, closed || IsContent(line)),
               Text(rest, closed), Carried(line, ns), row + 1);
        ReadLinesFrom(rest, closed, Carried(line, ns), row + 1);
        UnnamedRecord(line);
        assert [] + Records(rest) == Records(rest);
      } else {
        StopsFirst(lines, closed, ns, row, None);
        InvalidLine(line, ns);
        if ValidLine(line, ns) {
          NothingCarried(line, ns, None);
          ReadLinesFrom(rest, closed, 0, row + 1);
          ReadIs(Text(rest, closed), row + 1);
          ReadFirst(s, ns, row, line, Text(rest, closed));
        } else {
          ReadError(s, ns, row);
        }
      }
    }
  }

  lemma NothingRead(ns: nat, row: nat, closed: bool)
    ensures ReadFrom(Text([], closed), ns, row) == Some([])
  {
    EndFrom(ns, row, None);
    hide ScanFrom;
  }

  lemma UnnamedRecord(line: seq<byte>)
    requires !Names(line, None)
    ensures RecordOf(line) == []
  {
    hide ParseRecord;
  }

  lemma ReadError(s: seq<byte>, ns: nat, row: nat)
    requires ScanFrom(s, ns, row, None).ret < 0
    ensures ReadFrom(s, ns, row) == None
  {
    hide ScanFrom;
  }

  lemma ReadFirst(s: seq<byte>, ns: nat, row: nat, line: seq<byte>, rest: seq<byte>)
    requires ScanFrom(s, ns, row, None) == KeyScan(row + 1, ParseRecord(line), rest, []) && Names(line, None)
    ensures ReadFrom(s, ns, row)
            == match ReadAll(rest, row + 1) case Some(more) => Some(RecordOf(line) + more) case None => None
  {
    hide ScanFrom, ParseRecord, ReadAll;
  }

  lemma RecordsFirst(lines: seq<seq<byte>>)
    requires lines != []
    ensures Records(lines) == RecordOf(lines[0]) + Records(lines[1..])
  {
    hide RecordOf;
  }

  lemma {:induction false} RecordsAppend(a: seq<seq<byte>>, b: seq<seq<byte>>)
    ensures Records(a + b) == Records(a) + Records(b)
  {
    hide *;
    if a == [] {
      NoRecords();
      assert a + b == b && [] + Records(b) == Records(b);
    } else {
      RecordsAppend(a[1..], b);
      RecordsFirst(a);
      RecordsFirst(a + b);
      assert (a + b)[1..] == a[1..] + b;
      ThreeParts(RecordOf(a[0]), Records(a[1..]), Records(b));
    }
  }

  lemma ThreeParts<T>(a: seq<T>, b: seq<T>, c: seq<T>)
    ensures a + (b + c) == a + b + c
  {
  }

  lemma {:induction false} AsMapAppend(a: seq<Record>, b: seq<Record>)
    ensures AsMap(a + b) == AsMap(b) + AsMap(a)
  {
    if a == [] {
      assert a + b == b;
    } else {
      AsMapAppend(a[1..], b);
      assert (a + b)[1..] == a[1..] + b;
    }
  }

  lemma {:induction false} InMap(records: seq<Record>, id: seq<byte>)
    ensures id in AsMap(records) <==> exists i :: 0 <= i < |records| && records[i].id == id
  {
    if records != [] {
      InMap(records[1..], id);
      assert forall i :: 0 < i < |records| ==> records[i] == records[1..][i - 1];
    }
  }

  /** A file names exactly the identities of its map. */
  lemma {:induction false} AbsentIs(lines: seq<seq<byte>>, id: seq<byte>)
    requires |id| <= MAX_ID
    ensures Absent(lines, Some(id)) <==> id !in AsMap(Records(lines))
  {
    hide ParseRecord, IsContent;
    if lines != [] {
      AbsentIs(lines[1..], id);
      AsMapAppend(RecordOf(lines[0]), Records(lines[1..]));
      assert Names(lines[0], Some(id)) <==> id in AsMap(RecordOf(lines[0]));
      AbsentFirst(lines, Some(id));
    }
  }

  // ---------------------------------------------------------------- written lines

  /** What is written for a line reads as the line did. */
  lemma WrittenReads(line: seq<byte>, ns: nat, ns': nat)
    requires ValidLine(line, ns) && (ns == 0 <==> ns' == 0)
    ensures ValidLine(Written(line, ns), ns') && RecordOf(Written(line, ns)) == RecordOf(line)
    ensures Carried(Written(line, ns), ns') == 0 <==> Carried(line, ns) == 0
  {
    hide Leading, ParseRecord;
    if IsComment(line) {
      CommentWritten(line, ns);
    } else if IsContent(line) {
      RecordWritten(line);
    }
  }

  lemma CommentWritten(line: seq<byte>, ns: nat)
    requires IsComment(line)
    ensures var w := Written(line, ns); IsComment(w) && !IsContent(w) && Leading(w) == ns + Leading(line)
  {
    var n, ink := ns + Leading(line), Ink(line);
    var w := Repeat(BLANK, n) + ink;
    BlankIsSpace();
    hide Leading;
    hide IsSpace;
    LeadingIs(w, n);
    assert w[n..] == ink;
  }

  lemma BlankIsSpace()
    ensures IsSpace(BLANK) && BLANK != NL && !IsSpace(HASH)
  {
  }

  lemma RecordWritten(line: seq<byte>)
    requires IsContent(line) && Leading(line) == 0 && ParseRecord(line).Some?
    ensures var w := CString(line); IsContent(w) && Leading(w) == 0 && ParseRecord(w) == ParseRecord(line)
  {
    var w := CString(line);
    CStringWhole(w);
    hide ParseRecord, CString;
    SameRecord(w, line);
    ParsedNotEmpty(line);
    assert line[0..] == line;
    InkAtStart(w);
  }

  lemma SameRecord(a: seq<byte>, b: seq<byte>)
    requires CString(a) == CString(b)
    ensures ParseRecord(a) == ParseRecord(b)
  {
    hide Hex.Decode, CString, FirstWord, AfterWord;
  }

  lemma ParsedNotEmpty(line: seq<byte>)
    requires ParseRecord(line).Some?
    ensures CString(line) != []
  {
    NoWords();
    hide Hex.Decode, CString, FirstWord, AfterWord;
  }

  lemma InkAtStart(w: seq<byte>)
    requires w != [] && !IsSpace(w[0]) && w[0] != HASH
    ensures IsContent(w) && Leading(w) == 0
  {
    hide IsSpace;
    assert w[0..] == w;
  }

  lemma {:induction false} WrittenRecords(lines: seq<seq<byte>>, ns: nat, ns': nat)
    requires ValidLines(lines, ns) && (ns == 0 <==> ns' == 0)
    ensures ValidLines(WrittenAll(lines, ns), ns') && Records(WrittenAll(lines, ns)) == Records(lines)
    ensures CarriedAll(WrittenAll(lines, ns), ns') == 0 <==> CarriedAll(lines, ns) == 0
  {
    hide ValidLine, Written, Carried, RecordOf;
    if lines != [] {
      var line := lines[0];
      WrittenReads(line, ns, ns');
      WrittenRecords(lines[1..], Carried(line, ns), Carried(Written(line, ns), ns'));
      assert WrittenAll(lines, ns)[1..] == WrittenAll(lines[1..], Carried(line, ns));
    }
  }

  /** The records around the edited line, before and after a run. */
  lemma RecordsAround(lines: seq<seq<byte>>, rec: Record, delete: bool)
    requires ValidLines(lines, 0) && (delete || RecordOf(KeyLine(rec)) == [rec])
    ensures var p := Find(lines, Some(rec.id));
            var tail := if p < |lines| then lines[p + 1..] else [];
            var was, now := if p < |lines| then [ParseRecord(lines[p]).value] else [], if delete then [] else [rec];
            && Records(lines) == Records(lines[..p]) + was + Records(tail)
            && Records(Edited(lines, rec, delete)) == Records(lines[..p]) + now + Records(tail)
  {
    var p := Find(lines, Some(rec.id));
    var head, tail := lines[..p], if p < |lines| then lines[p + 1..] else [];
    if p < |lines| {
      NamedRecord(lines[p], Some(rec.id));
    }
    hide *;
    NoRecords();
    OneRecord(KeyLine(rec));
    if p < |lines| {
      OneRecord(lines[p]);
      Around(lines, p);
      ValidAround(head, lines[p], tail, Some(rec.id));
      WrittenRecords(tail, 0, 0);
    } else {
      AllBefore(lines);
    }
    WrittenRecords(head, 0, 0);
    EditedParts(lines, rec, delete);
    RecordsThree(head, if p < |lines| then [lines[p]] else [], tail);
    RecordsThree(WrittenAll(head, 0), if delete then [] else [KeyLine(rec)],
                 if p < |lines| then WrittenAll(tail, 0) else []);
  }

  lemma EditedParts(lines: seq<seq<byte>>, rec: Record, delete: bool)
    ensures var p := Find(lines, Some(rec.id));
            Edited(lines, rec, delete)
            == WrittenAll(lines[..p], 0) + (if delete then [] else [KeyLine(rec)])
               + if p < |lines| then WrittenAll(lines[p + 1..], 0) else []
  {
  }

  lemma NamedRecord(line: seq<byte>, query: Option<seq<byte>>)
    requires Names(line, query)
    ensures RecordOf(line) == [ParseRecord(line).value]
  {
  }

  lemma AllBefore<T>(s: seq<T>)
    ensures s[..|s|] + [] + [] == s
  {
  }

  lemma OneRecord(line: seq<byte>)
    ensures Records([line]) == RecordOf(line)
  {
    assert [line][1..] == [];
  }

  lemma NoRecords()
    ensures Records([]) == []
  {
  }

  lemma RecordsThree(a: seq<seq<byte>>, b: seq<seq<byte>>, c: seq<seq<byte>>)
    ensures Records(a + b + c) == Records(a) + Records(b) + Records(c)
  {
    hide *;
    RecordsAppend(a, b);
    RecordsAppend(a + b, c);
  }

  /** Changing the one place an identity has changes the map at that identity. */
  lemma MapChange(a: seq<Record>, was: seq<Record>, now: seq<Record>, b: seq<Record>, id: seq<byte>)
    requires |was| <= 1 && |now| <= 1 && (was != [] ==> was[0].id == id) && (now != [] ==> now[0].id == id)
    requires id !in AsMap(a) && id !in AsMap(b)
    ensures var m := AsMap(a + was + b);
            AsMap(a + now + b) == if now == [] then m - {id} else m[id := now[0].key]
  {
    MapOne(was);
    MapOne(now);
    hide *;
    MapThree(a, was, b);
    MapThree(a, now, b);
    Rebuilt(AsMap(a), AsMap(was), AsMap(now), AsMap(b), id);
  }

  lemma Rebuilt<K(!new), V(!new)>(a: map<K, V>, was: map<K, V>, now: map<K, V>, b: map<K, V>, id: K)
    requires id !in a && id !in b && was.Keys <= {id} && now.Keys <= {id}
    ensures var m := b + (was + a);
            b + (now + a) == if id in now then m[id := now[id]] else m - {id}
  {
    var m, r := b + (was + a), b + (now + a);
    assert forall x :: x in r && x != id ==> x in m && r[x] == m[x];
    assert forall x :: x in m && x != id ==> x in r;
  }

  lemma MapThree(a: seq<Record>, b: seq<Record>, c: seq<Record>)
    ensures AsMap(a + b + c) == AsMap(c) + (AsMap(b) + AsMap(a))
  {
    hide *;
    AsMapAppend(a, b);
    AsMapAppend(a + b, c);
  }

  lemma MapOne(r: seq<Record>)
    requires |r| <= 1
    ensures AsMap(r) == if r == [] then map[] else map[r[0].id := r[0].key]
  {
  }

  lemma DistinctAround(a: seq<Record>, was: seq<Record>, b: seq<Record>, id: seq<byte>)
    requires Distinct(a + was + b) && |was| <= 1 && (was != [] ==> was[0].id == id)
    requires id !in AsMap(a) && (was == [] ==> b == [])
    ensures id !in AsMap(b)
  {
    InMap(b, id);
    hide AsMap;
    forall i | 0 <= i < |b| ensures b[i].id != id {
      var all := a + was + b;
      assert all[|a|] == was[0] && all[|a| + 1 + i] == b[i];
    }
  }

  lemma DistinctChange(a: seq<Record>, was: seq<Record>, now: seq<Record>, b: seq<Record>, id: seq<byte>)
    requires Distinct(a + was + b) && |was| <= 1 && |now| <= 1 && (now != [] ==> now[0].id == id)
    requires id !in AsMap(a) && id !in AsMap(b)
    ensures Distinct(a + now + b)
  {
    InMap(a, id);
    InMap(b, id);
    hide AsMap;
    var all, changed := a + was + b, a + now + b;
    forall i, j | 0 <= i < j < |changed| ensures changed[i].id != changed[j].id {
      Elsewhere(a, was, now, b, i);
      Elsewhere(a, was, now, b, j);
    }
  }

  /** An element outside the changed part stands elsewhere in the other sequence. */
  lemma Elsewhere<T>(a: seq<T>, was: seq<T>, now: seq<T>, b: seq<T>, i: nat)
    requires i < |a + now + b| && |now| <= 1
    ensures var x := (a + now + b)[i];
            if i < |a| then x == a[i] == (a + was + b)[i]
            else if i < |a| + |now| then x == now[0]
            else x == b[i - |a| - |now|] == (a + was + b)[i - |now| + |was|]
  {
  }

  // ---------------------------------------------------------------- the run is a map update

  /** What may be stored so that it reads back. */
  predicate Storable(rec: Record) {
    Accepted(rec.id) && Readable(rec.id) && 0 !in rec.id && |rec.key| == KEY_LEN
  }

  lemma StoredLine(rec: Record)
    requires Storable(rec)
    ensures var l := KeyLine(rec); NL !in l && IsContent(l) && Leading(l) == 0 && RecordOf(l) == [rec]
  {
    hide KeyLine, ParseRecord, Readable, IsSpace;
    LineReadsBack(rec);
    WrittenLineIsContent(rec);
    assert KeyLine(rec)[0..] == KeyLine(rec);
  }

  lemma {:induction false} WrittenInLines(lines: seq<seq<byte>>, ns: nat)
    requires forall i :: 0 <= i < |lines| ==> NL !in lines[i]
    ensures forall i :: 0 <= i < |lines| ==> NL !in WrittenAll(lines, ns)[i]
  {
    hide Written, Carried;
    if lines != [] {
      WrittenInLine(lines[0], ns);
      WrittenInLines(lines[1..], Carried(lines[0], ns));
    }
  }

  lemma WrittenInLine(line: seq<byte>, ns: nat)
    requires NL !in line
    ensures NL !in Written(line, ns)
  {
    hide Leading;
  }

  lemma ThreeLines(a: seq<seq<byte>>, b: seq<seq<byte>>, c: seq<seq<byte>>)
    requires LinesOf(a, true) && LinesOf(b, true) && LinesOf(c, true)
    ensures LinesOf(a + b + c, true)
  {
  }

  lemma WrittenLines(lines: seq<seq<byte>>, closed: bool)
    requires LinesOf(lines, closed)
    ensures LinesOf(WrittenAll(lines, 0), true)
  {
    WrittenInLines(lines, 0);
    hide WrittenAll;
  }

  lemma PartsOfLines(lines: seq<seq<byte>>, closed: bool, p: nat)
    requires LinesOf(lines, closed) && p <= |lines|
    ensures LinesOf(lines[..p], true) && LinesOf(lines[p..], true)
  {
  }

  lemma OneOfLines(line: seq<byte>)
    ensures LinesOf([line], true) <==> NL !in line
    ensures LinesOf([], true)
  {
    assert [line][0] == line;
  }

  lemma EditedInLines(lines: seq<seq<byte>>, closed: bool, rec: Record, delete: bool)
    requires LinesOf(lines, closed) && (delete || NL !in KeyLine(rec))
    ensures LinesOf(Edited(lines, rec, delete), true)
  {
    hide *;
    var p := Find(lines, Some(rec.id));
    EditedParts(lines, rec, delete);
    OneOfLines(KeyLine(rec));
    PartsOfLines(lines, closed, p);
    WrittenLines(lines[..p], true);
    if p < |lines| {
      PartsOfLines(lines, closed, p + 1);
      WrittenLines(lines[p + 1..], true);
    }
    ThreeLines(WrittenAll(lines[..p], 0), if delete then [] else [KeyLine(rec)],
               if p < |lines| then WrittenAll(lines[p + 1..], 0) else []);
  }

  lemma ThreeValid(a: seq<seq<byte>>, b: seq<seq<byte>>, c: seq<seq<byte>>)
    requires CarriedAll(a, 0) == 0 == CarriedAll(b, 0)
    ensures ValidLines(a + b + c, 0) <==> ValidLines(a, 0) && ValidLines(b, 0) && ValidLines(c, 0)
  {
    hide *;
    ValidAppend(a, b, 0);
    CarriedAppend(a, b, 0);
    ValidAppend(a + b, c, 0);
  }

  lemma OneValid(line: seq<byte>, ns: nat)
    ensures ValidLines([line], ns) <==> ValidLine(line, ns)
    ensures CarriedAll([line], ns) == Carried(line, ns)
  {
    hide ValidLine, Carried;
    assert [line][1..] == [];
  }

  lemma NoneValid(ns: nat)
    ensures ValidLines([], ns) && CarriedAll([], ns) == ns && WrittenAll([], ns) == []
  {
  }

  lemma StoredValid(line: seq<byte>, ns: nat)
    requires IsContent(line) && Leading(line) == 0 && RecordOf(line) != []
    ensures ValidLine(line, ns) <==> ns == 0
    ensures Carried(line, ns) == 0
  {
    hide Leading, Ink, ParseRecord;
  }

  /** The edited file is valid again, unless a record was appended with white space carried to it. */
  lemma EditedValid(lines: seq<seq<byte>>, rec: Record, delete: bool)
    requires ValidLines(lines, 0)
    requires delete || (IsContent(KeyLine(rec)) && Leading(KeyLine(rec)) == 0 && RecordOf(KeyLine(rec)) != [])
    ensures ValidLines(Edited(lines, rec, delete), 0)
            <==> delete || Find(lines, Some(rec.id)) < |lines| || CarriedAll(lines, 0) == 0
  {
    var p, line := Find(lines, Some(rec.id)), KeyLine(rec);
    hide *;
    var added := if delete then [] else [line];
    EditedParts(lines, rec, delete);
    NoneValid(0);
    OneValid(line, 0);
    if !delete {
      StoredValid(line, 0);
    }
    if p < |lines| {
      Around(lines, p);
      ValidAround(lines[..p], lines[p], lines[p + 1..], Some(rec.id));
      WrittenRecords(lines[..p], 0, 0);
      WrittenRecords(lines[p + 1..], 0, 0);
      ThreeValid(WrittenAll(lines[..p], 0), added, WrittenAll(lines[p + 1..], 0));
    } else {
      WrittenRecords(lines, 0, 0);
      AllBefore(lines);
      AppendedValid(lines, added, line, delete);
    }
  }

  lemma AppendedValid(lines: seq<seq<byte>>, added: seq<seq<byte>>, line: seq<byte>, delete: bool)
    requires var w := WrittenAll(lines, 0);
             ValidLines(w, 0) && (CarriedAll(w, 0) == 0 <==> CarriedAll(lines, 0) == 0)
    requires added == if delete then [] else [line]
    requires delete || (IsContent(line) && Leading(line) == 0 && RecordOf(line) != [])
    ensures ValidLines(WrittenAll(lines, 0) + added + [], 0) <==> delete || CarriedAll(lines, 0) == 0
  {
    hide *;
    var w := WrittenAll(lines, 0);
    assert w + added + [] == w + added;
    ValidAppend(w, added, 0);
    NoneValid(CarriedAll(w, 0));
    OneValid(line, CarriedAll(w, 0));
    if !delete {
      StoredValid(line, CarriedAll(w, 0));
    }
  }

  lemma FirstNotIndented(lines: seq<seq<byte>>)
    requires lines != [] && ValidLines(lines, 0)
    ensures !IndentedContent(lines[0])
  {
    hide Leading, Ink, ParseRecord;
  }

  lemma EditedFirst(lines: seq<seq<byte>>, rec: Record, delete: bool)
    requires ValidLines(lines, 0) && (delete || Leading(KeyLine(rec)) == 0)
    ensures var e := Edited(lines, rec, delete); e != [] ==> !IndentedContent(e[0])
  {
    var p := Find(lines, Some(rec.id));
    if p < |lines| {
      Around(lines, p);
      ValidAround(lines[..p], lines[p], lines[p + 1..], Some(rec.id));
      WrittenRecords(lines[p + 1..], 0, 0);
      FirstOf(WrittenAll(lines[p + 1..], 0));
    } else {
      assert lines[..p] == lines;
    }
    WrittenRecords(lines[..p], 0, 0);
    FirstOf(WrittenAll(lines[..p], 0));
    hide Names, ValidLines, WrittenAll, KeyLine, Leading, Ink, Find;
  }

  lemma FirstOf(lines: seq<seq<byte>>)
    requires ValidLines(lines, 0)
    ensures lines != [] ==> !IndentedContent(lines[0])
  {
    if lines != [] {
      FirstNotIndented(lines);
    }
  }

  /** Both for the one place an identity has, or for the end. */
  lemma Changed(a: seq<Record>, was: seq<Record>, now: seq<Record>, b: seq<Record>, id: seq<byte>)
    requires Distinct(a + was + b) && |was| <= 1 && |now| <= 1
    requires (was != [] ==> was[0].id == id) && (now != [] ==> now[0].id == id)
    requires id !in AsMap(a) && (was == [] ==> b == [])
    ensures Distinct(a + now + b)
    ensures var m := AsMap(a + was + b); AsMap(a + now + b) == if now == [] then m - {id} else m[id := now[0].key]
  {
    hide *;
    DistinctAround(a, was, b, id);
    MapChange(a, was, now, b, id);
    DistinctChange(a, was, now, b, id);
  }

  lemma NamedIs(line: seq<byte>, id: seq<byte>)
    requires Names(line, Some(id)) && |id| <= MAX_ID
    ensures ParseRecord(line).Some? && ParseRecord(line).value.id == id
  {
    hide ParseRecord;
  }

  /** The map of the edited records. */
  lemma EditedMap(lines: seq<seq<byte>>, rec: Record, delete: bool)
    requires ValidLines(lines, 0) && Distinct(Records(lines)) && |rec.id| <= MAX_ID
    requires delete || RecordOf(KeyLine(rec)) == [rec]
    ensures var m, after := AsMap(Records(lines)), Records(Edited(lines, rec, delete));
            && Distinct(after)
            && AsMap(after) == if delete then m - {rec.id} else m[rec.id := rec.key]
  {
    hide *;
    var p := Find(lines, Some(rec.id));
    var head, tail := lines[..p], if p < |lines| then lines[p + 1..] else [];
    if p < |lines| {
      NamedIs(lines[p], rec.id);
    }
    NoRecords();
    BeforeFind(lines, Some(rec.id));
    AbsentIs(head, rec.id);
    RecordsAround(lines, rec, delete);
    Changed(Records(head), if p < |lines| then [ParseRecord(lines[p]).value] else [], if delete then [] else [rec],
            Records(tail), rec.id);
  }

  /** On a file of valid lines without a repeated identity, that ends with a newline or with a record, an
      edit run fails only if it is to delete what is not there. Otherwise the records it leaves are the old
      map with the identity set, or without it, and without repetition again. They are read back unless a
      record was appended behind a comment with white space in front, which makes the file unreadable. */
  lemma EditUpdatesMap(lines: seq<seq<byte>>, closed: bool, rec: Record, delete: bool)
    requires LinesOf(lines, closed) && Closes(lines, closed) && ValidLines(lines, 0) && Distinct(Records(lines))
    requires |rec.id| <= MAX_ID && (!delete ==> Storable(rec))
    ensures var m, after := AsMap(Records(lines)), Edited(lines, rec, delete);
            if delete && rec.id !in m then Edit(Text(lines, closed), rec, delete) == Failed
            else Edit(Text(lines, closed), rec, delete) == Done(Join(after))
                 && Distinct(Records(after))
                 && AsMap(Records(after)) == (if delete then m - {rec.id} else m[rec.id := rec.key])
                 && ReadAll(Join(after), 0)
                    == if delete || rec.id in m || CarriedAll(lines, 0) == 0 then Some(Records(after)) else None
  {
    var after := Edited(lines, rec, delete);
    if !delete {
      StoredLine(rec);
      StoredParts(rec);
    }
    FirstOf(lines);
    hide *;
    EditedMap(lines, rec, delete);
    EditLines(lines, closed, rec, delete);
    OnceEditable(lines, rec, delete);
    AbsentIs(lines, rec.id);
    FindAbsent(lines, Some(rec.id));
    EditedInLines(lines, closed, rec, delete);
    EditedValid(lines, rec, delete);
    EditedFirst(lines, rec, delete);
    TextJoin(after);
    ReadLines(after, true, 0);
  }

  lemma StoredParts(rec: Record)
    requires Storable(rec)
    ensures Accepted(rec.id) && |rec.id| <= MAX_ID
  {
  }

  /** Without repetition, only the identity matters. */
  lemma OnceEditable(lines: seq<seq<byte>>, rec: Record, delete: bool)
    requires ValidLines(lines, 0) && Distinct(Records(lines)) && |rec.id| <= MAX_ID && (!delete ==> Accepted(rec.id))
    ensures Editable(lines, rec.id, delete) <==> !delete || Find(lines, Some(rec.id)) < |lines|
  {
    hide *;
    var p := Find(lines, Some(rec.id));
    EditableIs(lines, rec.id, delete);
    if p < |lines| {
      var head, tail := lines[..p], lines[p + 1..];
      BeforeFind(lines, Some(rec.id));
      AbsentIs(head, rec.id);
      AbsentIs(tail, rec.id);
      NamedIs(lines[p], rec.id);
      NamedRecord(lines[p], Some(rec.id));
      OneRecord(lines[p]);
      Around(lines, p);
      RecordsThree(head, [lines[p]], tail);
      DistinctAround(Records(head), RecordOf(lines[p]), Records(tail), rec.id);
    }
  }
}
