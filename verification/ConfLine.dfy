/** I2GetConfLine: the next line of a configuration file, without comments, blank lines and leading
    white space, and with continued lines joined. */
module ConfLine {
  import opened Octets
  import opened Lines
  import opened LineReader
  import Blocks

  const BACKSLASH: byte := 92

  /** A line, the rows read with it, and whether a newline closed it; the end of the file, or a
      backslash that continues nothing. */
  datatype Conf = Content(line: seq<byte>, rc: nat, rest: seq<byte>, closed: bool) | EndOfFile
                  | BadEscape(rc: nat, rest: seq<byte>) {
    function Prepend(s: seq<byte>): Conf {
      if Content? then Content(s + line, rc, rest, closed) else this
    }

    /** What the function returns: an error gives back the negated row, which is 0 on the first row. */
    function Returned(): int {
      match this
      case Content(_, rc, _, _) => rc
      case EndOfFile => 0
      case BadEscape(rc, _) => 0 - rc as int
    }
  }

  /** In front of the content: white space, blank lines, comment lines and continued empty lines. */
  function Lead(s: seq<byte>, rc: nat): Conf
    decreases |s|
  {
    if s == [] then EndOfFile
    else if s[0] == NL then Lead(s[1..], rc + 1)
    else if s[0] == HASH then Lead(AfterLine(s), rc + |Newline(s)|)
    else if IsSpace(s[0]) then Lead(s[1..], rc)
    else if s[0] == BACKSLASH then
      if |s| > 1 && s[1] == NL then Lead(s[2..], rc + 1) else BadEscape(rc, s[if |s| > 1 then 2 else 1..])
    else Body(s[1..], rc).Prepend([s[0]])
  }

  /** The content, up to a newline that no backslash continues. */
  function Body(s: seq<byte>, rc: nat): Conf
    decreases |s|
  {
    if s == [] then Content([], rc + 1, [], false)
    else if s[0] == NL then Content([], rc + 1, s[1..], true)
    else if s[0] == BACKSLASH then
      if |s| > 1 && s[1] == NL then Body(s[2..], rc + 1) else BadEscape(rc, s[if |s| > 1 then 2 else 1..])
    else Body(s[1..], rc).Prepend([s[0]])
  }

  // ---------------------------------------------------------------- the method

  /** The text the loop still has to read, with the content it has. */
  ghost function Left(line: seq<byte>, s: seq<byte>, rc: nat): Conf {
    if line == [] then Lead(s, rc) else Body(s, rc).Prepend(line)
  }

  /** The loop that swallows a comment. */
  method SwallowComment(fp: InFile, rc: nat) returns (rc': nat)
    requires fp.Valid()
    modifies fp
    ensures fp.Valid()
    ensures var s := [HASH] + old(fp.Rest()); fp.Rest() == AfterLine(s) && rc' == rc + |Newline(s)|
  {
    hide FirstLine, AfterLine, Newline;
    ghost var rest, k := fp.Rest(), 0;
    rc' := rc;
    while true
      invariant fp.Valid() && k <= |rest| && fp.Rest() == rest[k..] && NL !in rest[..k] && rc' == rc
      decreases |rest| - k
    {
      var eof, c := fp.Getc();
      if eof || c == NL {
        CommentParts(rest, k);
        return if eof then rc else rc + 1;
      }
      k := k + 1;
      assert rest[..k] == rest[..k - 1] + [c];
    }
  }

  lemma PrependTwice(r: Conf, a: seq<byte>, b: seq<byte>)
    ensures r.Prepend(b).Prepend(a) == r.Prepend(a + b) && r.Prepend([]) == r
  {
    assert r.Content? ==> a + (b + r.line) == a + b + r.line;
  }

  /** One character of the loop. */
  lemma LeftStep(line: seq<byte>, s: seq<byte>, rc: nat)
    ensures var r := Left(line, s, rc);
            if s == [] then r == if line == [] then EndOfFile else Content(line, rc + 1, [], false)
            else if s[0] == NL then
              r == if line == [] then Left([], s[1..], rc + 1) else Content(line, rc + 1, s[1..], true)
            else if line == [] && s[0] == HASH then r == Left([], AfterLine(s), rc + |Newline(s)|)
            else if line == [] && IsSpace(s[0]) then r == Left([], s[1..], rc)
            else if s[0] == BACKSLASH then
              r == if |s| > 1 && s[1] == NL then Left(line, s[2..], rc + 1)
                   else BadEscape(rc, s[if |s| > 1 then 2 else 1..])
            else r == Left(line + [s[0]], s[1..], rc)
  {
    hide FirstLine, AfterLine, Newline, IsSpace;
    assert line + [] == line;
    if s != [] {
      PrependTwice(Body(s[1..], rc), line, [s[0]]);
      assert [] + [s[0]] == [s[0]];
    }
  }

  /** I2GetConfLine. */
  method GetConfLine(fp: InFile, row: nat, lbuf: LineBuf) returns (ret: int, ghost r: Conf)
    requires fp.Valid()
    modifies fp, lbuf, lbuf.buf
    ensures fp.Valid() && r == Lead(old(fp.Rest()), row) && ret == r.Returned()
    ensures r.Content? ==> Holds(lbuf.buf[..], r.line) && fp.Rest() == r.rest
    ensures r.Content? ==> |r.line| < lbuf.buf.Length && lbuf.buf[..|r.line|] == r.line && lbuf.buf[|r.line|] == 0
    ensures r.BadEscape? ==> fp.Rest() == r.rest
    ensures lbuf.buf == old(lbuf.buf) || fresh(lbuf.buf)
  {
    hide FirstLine, AfterLine, Newline, IsSpace, Body;
    r := Lead(fp.Rest(), row);
    var rc, i := row, 0;
    ghost var line: seq<byte> := [];
    var eof, c := false, 0;
    while true
      invariant fp.Valid() && r == Left(line, fp.Rest(), rc)
      invariant |line| == i <= lbuf.buf.Length && lbuf.buf[..i] == line && (0 < i ==> i < lbuf.buf.Length)
      invariant lbuf.buf == old(lbuf.buf) || fresh(lbuf.buf)
      decreases |fp.Rest()|
    {
      ghost var s := fp.Rest();
      LeftStep(line, s, rc);
      eof, c := fp.Getc();
      if eof {
        break;
      }
      if c == NL {
        rc := rc + 1;
        if i > 0 {
          break;
        }
        continue;
      }
      if i == 0 && c == HASH {
        assert s == [HASH] + s[1..];
        rc := SwallowComment(fp, rc);
        continue;
      }
      if i == 0 && IsSpace(c) {
        continue;
      }
      if c == BACKSLASH {
        var end, d := fp.Getc();
        if !end && d == NL {
          rc := rc + 1;
          continue;
        }
        ret := rc;
        return -ret, r;
      }
      lbuf.Append(i, c);
      line := line + [c];
      i := i + 1;
    }
    if i == 0 {
      return 0, r;
    }
    lbuf.buf[i] := 0;
    if eof {
      rc := rc + 1;
    }
    return rc, r;
  }

  // ---------------------------------------------------------------- what a line is

  function Newlines(s: seq<byte>): (n: nat) {
    if s == [] then 0 else (if s[0] == NL then 1 else 0) + Newlines(s[1..])
  }

  lemma {:induction false} NewlinesAppend(a: seq<byte>, b: seq<byte>)
    ensures Newlines(a + b) == Newlines(a) + Newlines(b)
  {
    if a == [] {
      assert a + b == b;
    } else {
      NewlinesAppend(a[1..], b);
      assert (a + b)[1..] == a[1..] + b;
    }
  }

  /** The rows rise by the newlines read, and by one more when the line ends with the file. */
  predicate CountsRows(s: seq<byte>, rc: nat, r: Conf) {
    match r
    case EndOfFile => true
    case BadEscape(rc', rest) => IsTail(rest, s) && rc' + Newlines(rest) == rc + Newlines(s)
    case Content(_, rc', rest, closed) =>
      && IsTail(rest, s) && (!closed ==> rest == [])
      && rc' + Newlines(rest) == rc + Newlines(s) + if closed then 0 else 1
  }

  predicate IsTail(rest: seq<byte>, s: seq<byte>) {
    |rest| <= |s| && rest == s[|s| - |rest|..]
  }

  lemma {:induction false} BodyRows(s: seq<byte>, rc: nat)
    ensures CountsRows(s, rc, Body(s, rc))
    decreases |s|
  {
    if s != [] && s[0] != NL {
      if s[0] == BACKSLASH {
        if |s| > 1 {
          assert s[1..][1..] == s[2..];
          if s[1] == NL {
            BodyRows(s[2..], rc + 1);
          }
        }
      } else {
        BodyRows(s[1..], rc);
      }
    }
  }

  lemma TailOfTail(rest: seq<byte>, mid: seq<byte>, s: seq<byte>)
    requires IsTail(rest, mid) && IsTail(mid, s)
    ensures IsTail(rest, s)
  {
    assert s[|s| - |mid|..][|mid| - |rest|..] == s[|s| - |rest|..];
  }

  /** Rows counted behind a part of the text count behind the whole of it. */
  lemma RowsBefore(mid: seq<byte>, s: seq<byte>, rc: nat, n: nat, r: Conf)
    requires CountsRows(mid, rc + n, r) && IsTail(mid, s) && Newlines(s) == n + Newlines(mid)
    ensures CountsRows(s, rc, r)
  {
    hide Newlines, IsTail;
    if !r.EndOfFile? {
      TailOfTail(r.rest, mid, s);
    }
  }

  lemma NewlinesFirst(s: seq<byte>)
    requires s != []
    ensures Newlines(s) == (if s[0] == NL then 1 else 0) + Newlines(s[1..]) && IsTail(s[1..], s)
  {
  }

  /** Every line that is returned accounts for all the rows it was read from. */
  lemma {:induction false} LeadRows(s: seq<byte>, rc: nat)
    ensures CountsRows(s, rc, Lead(s, rc))
    decreases |s|
  {
    hide IsSpace, CountsRows, Newlines, IsTail, LineEnd, AfterLine, Newline;
    if s == [] {
      NoRows(rc);
    } else {
      NewlinesFirst(s);
      if s[0] == HASH {
        var n := |Newline(s)|;
        CommentRows(s);
        LeadRows(AfterLine(s), rc + n);
        RowsBefore(AfterLine(s), s, rc, n, Lead(s, rc));
      } else if s[0] == NL {
        LeadRows(s[1..], rc + 1);
        RowsBefore(s[1..], s, rc, 1, Lead(s, rc));
      } else if IsSpace(s[0]) {
        LeadRows(s[1..], rc);
        RowsBefore(s[1..], s, rc, 0, Lead(s, rc));
      } else {
        Escaped(s, rc);
        if s[0] == BACKSLASH && |s| > 1 && s[1] == NL {
          LeadRows(s[2..], rc + 1);
          RowsBefore(s[2..], s, rc, 1, Lead(s, rc));
        }
      }
    }
  }

  lemma NoRows(rc: nat)
    ensures CountsRows([], rc, Lead([], rc))
  {
  }

  lemma Escaped(s: seq<byte>, rc: nat)
    requires s != [] && s[0] != NL && s[0] != HASH && !IsSpace(s[0])
    ensures if s[0] == BACKSLASH && |s| > 1 && s[1] == NL then Newlines(s) == 1 + Newlines(s[2..]) && IsTail(s[2..], s)
            else CountsRows(s, rc, Lead(s, rc))
  {
    hide IsSpace;
    BodyRows(s, rc);
    if s[0] == BACKSLASH && |s| > 1 {
      assert s[1..][1..] == s[2..];
    }
  }

  lemma CommentRows(s: seq<byte>)
    ensures IsTail(AfterLine(s), s) && Newlines(s) == |Newline(s)| + Newlines(AfterLine(s))
  {
    var e := LineEnd(s);
    AfterLineIs(s);
    NewlineIs(s);
    hide FirstLine, AfterLine, Newline, Newlines;
    NoNewlines(s[..e]);
    NewlinesAppend(s[..e], s[e..]);
    assert s == s[..e] + s[e..];
    if e < |s| {
      NewlinesFirst(s[e..]);
      assert s[e..][1..] == s[e + 1..];
    } else {
      NoNewlines([]);
    }
  }

  lemma NewlineIs(s: seq<byte>)
    ensures Newline(s) == if LineEnd(s) < |s| then [NL] else []
  {
  }

  lemma {:induction false} NoNewlines(s: seq<byte>)
    requires NL !in s
    ensures Newlines(s) == 0
  {
    if s != [] {
      NoNewlines(s[1..]);
    }
  }

  // ---------------------------------------------------------------- which errors show

  /** A backslash that is not followed by the newline of its line. */
  predicate Stray(line: seq<byte>, newline: seq<byte>) {
    exists k :: 0 <= k < |line| && line[k] == BACKSLASH && (k < |line| - 1 || newline == [])
  }

  /** The first line is content with such a backslash. */
  predicate StrayFirst(s: seq<byte>) {
    Ink(FirstLine(s)) != [] && Ink(FirstLine(s))[0] != HASH && Stray(FirstLine(s), Newline(s))
  }

  /** An error that is reported on the row the reading started from. */
  predicate BadAt(r: Conf, rc: nat) {
    r.BadEscape? && r.rc == rc
  }

  lemma {:induction false} BodyRises(s: seq<byte>, rc: nat)
    ensures var r := Body(s, rc); !r.EndOfFile? && rc <= r.rc && (r.Content? ==> rc < r.rc)
    decreases |s|
  {
    if s != [] && s[0] != NL {
      if s[0] != BACKSLASH {
        BodyRises(s[1..], rc);
      } else if |s| > 1 && s[1] == NL {
        BodyRises(s[2..], rc + 1);
      }
    }
  }

  lemma {:induction false} LeadRises(s: seq<byte>, rc: nat)
    ensures var r := Lead(s, rc); r.EndOfFile? || (rc <= r.rc && (r.Content? ==> rc < r.rc))
    decreases |s|
  {
    hide IsSpace, AfterLine, Newline, FirstLine;
    if s != [] {
      if s[0] == NL {
        LeadRises(s[1..], rc + 1);
      } else if s[0] == HASH {
        LeadRises(AfterLine(s), rc + |Newline(s)|);
      } else if IsSpace(s[0]) {
        LeadRises(s[1..], rc);
      } else if s[0] != BACKSLASH {
        BodyRises(s[1..], rc);
      } else if |s| > 1 && s[1] == NL {
        LeadRises(s[2..], rc + 1);
      }
    }
  }

  /** A first line without its first character. */
  lemma LineBehind(s: seq<byte>)
    requires s != [] && s[0] != NL
    ensures FirstLine(s) == [s[0]] + FirstLine(s[1..]) && Newline(s) == Newline(s[1..])
    ensures Ink(FirstLine(s)) == if IsSpace(s[0]) then Ink(FirstLine(s[1..])) else FirstLine(s)
  {
    var l, l' := FirstLine(s), FirstLine(s[1..]);
    assert l == [s[0]] + l';
    hide FirstLine, LineEnd, IsSpace;
    assert l[1..] == l';
    if IsSpace(s[0]) {
      assert l[1 + Leading(l')..] == l'[Leading(l')..];
    } else {
      assert l[0..] == l;
    }
  }

  lemma StrayBehind(c: byte, line: seq<byte>, newline: seq<byte>)
    ensures Stray([c] + line, newline) <==> (c == BACKSLASH && (line != [] || newline == [])) || Stray(line, newline)
  {
    var all := [c] + line;
    if Stray(line, newline) {
      var k :| 0 <= k < |line| && line[k] == BACKSLASH && (k < |line| - 1 || newline == []);
      assert all[k + 1] == line[k];
    }
    if Stray(all, newline) {
      var k :| 0 <= k < |all| && all[k] == BACKSLASH && (k < |all| - 1 || newline == []);
      assert k > 0 ==> line[k - 1] == all[k];
    }
    assert all[0] == c;
  }

  /** A backslash at the front, and what the two functions make of it. */
  lemma BackslashFirst(s: seq<byte>)
    requires s != [] && s[0] == BACKSLASH
    ensures (|s| > 1 && s[1] == NL) ==> !Stray(FirstLine(s), Newline(s))
    ensures !(|s| > 1 && s[1] == NL) ==> Stray(FirstLine(s), Newline(s))
  {
    var l := FirstLine(s[1..]);
    LineBehind(s);
    StrayBehind(BACKSLASH, l, Newline(s));
    NewlineIs(s[1..]);
  }

  lemma {:induction false} BodyBad(s: seq<byte>, rc: nat)
    ensures BadAt(Body(s, rc), rc) <==> Stray(FirstLine(s), Newline(s))
    decreases |s|
  {
    if s == [] || s[0] == NL {
      EmptyLine(s);
    } else if s[0] == BACKSLASH {
      BackslashFirst(s);
      hide Stray, FirstLine, Newline;
      if |s| > 1 && s[1] == NL {
        BodyRises(s[2..], rc + 1);
      }
    } else {
      LineBehind(s);
      hide FirstLine, Newline, Stray;
      StrayBehind(s[0], FirstLine(s[1..]), Newline(s));
      BodyBad(s[1..], rc);
    }
  }

  lemma EmptyLine(s: seq<byte>)
    requires s == [] || s[0] == NL
    ensures FirstLine(s) == []
  {
  }

  lemma {:induction false} LeadBad(s: seq<byte>, rc: nat)
    ensures BadAt(Lead(s, rc), rc) <==> StrayFirst(s)
    decreases |s|
  {
    if s == [] || s[0] == NL {
      EmptyLine(s);
      if s != [] {
        LeadRises(s[1..], rc + 1);
      }
    } else {
      LineBehind(s);
      hide FirstLine, Newline, Stray, AfterLine, IsSpace, Ink;
      StrayBehind(s[0], FirstLine(s[1..]), Newline(s));
      if s[0] != HASH && IsSpace(s[0]) {
        SpaceIsNoBackslash(s[0]);
        LeadBad(s[1..], rc);
      } else {
        LeadBadInLine(s, rc);
      }
    }
  }

  lemma LeadBadInLine(s: seq<byte>, rc: nat)
    requires s != [] && s[0] != NL && (s[0] == HASH || !IsSpace(s[0]))
    ensures BadAt(Lead(s, rc), rc) <==> StrayFirst(s)
  {
    LineBehind(s);
    if s[0] == HASH {
      HashIsInk();
      NewlineIs(s);
      AfterLineIs(s);
      LeadRises(AfterLine(s), rc + |Newline(s)|);
    } else if s[0] == BACKSLASH {
      BackslashFirst(s);
      if |s| > 1 && s[1] == NL {
        LeadRises(s[2..], rc + 1);
      }
    } else {
      hide FirstLine, Newline, Stray, Ink;
      StrayBehind(s[0], FirstLine(s[1..]), Newline(s));
      BodyBad(s[1..], rc);
    }
  }

  lemma SpaceIsNoBackslash(c: byte)
    requires IsSpace(c)
    ensures c != BACKSLASH
  {
  }

  /** From the first row on, the return value 0 means the end of the file, unless the first line is
      content with a stray backslash: that one error reads as the end of the file. */
  lemma BadShows(s: seq<byte>)
    ensures Lead(s, 0).Returned() == 0 <==> Lead(s, 0).EndOfFile? || StrayFirst(s)
  {
    LeadRises(s, 0);
    LeadBad(s, 0);
    hide Lead, StrayFirst;
  }

  /** The file of the one line a\b. */
  lemma StrayHidden()
    ensures Lead([97, BACKSLASH, 98, NL], 0) == BadEscape(0, [NL]) && Lead([97, BACKSLASH, 98, NL], 0).Returned() == 0
  {
    var s: seq<byte> := [97, BACKSLASH, 98, NL];
    assert s[1..] == [BACKSLASH, 98, NL] && s[1..][2..] == [NL];
  }

  // ---------------------------------------------------------------- a line written over several rows

  /** Pieces of a line, each but the last continued by a backslash in front of its newline. */
  function Continued(pieces: seq<seq<byte>>): seq<byte>
    requires pieces != []
  {
    var n := |pieces| - 1;
    if n == 0 then pieces[0] else Continued(pieces[..n]) + [BACKSLASH, NL] + pieces[n]
  }

  predicate Plain(s: seq<byte>) {
    NL !in s && BACKSLASH !in s
  }

  /** A blank line or a comment, behind white space or not. */
  predicate Skipped(line: seq<byte>) {
    NL !in line && (Ink(line) != [] ==> Ink(line)[0] == HASH)
  }

  lemma {:induction false} BodyPlain(p: seq<byte>, s: seq<byte>, rc: nat)
    requires Plain(p)
    ensures Body(p + s, rc) == Body(s, rc).Prepend(p)
  {
    if p == [] {
      assert p + s == s;
      PrependTwice(Body(s, rc), [], []);
    } else {
      assert (p + s)[1..] == p[1..] + s;
      BodyPlain(p[1..], s, rc);
      PrependTwice(Body(s, rc), p[..1], p[1..]);
      assert p[..1] + p[1..] == p;
    }
  }

  lemma {:induction false} BodyContinued(pieces: seq<seq<byte>>, s: seq<byte>, rc: nat)
    requires pieces != [] && forall i :: 0 <= i < |pieces| ==> Plain(pieces[i])
    ensures Body(Continued(pieces) + s, rc) == Body(s, rc + |pieces| - 1).Prepend(Blocks.Concat(pieces))
  {
    hide Plain, Body;
    var n := |pieces| - 1;
    var head, last := pieces[..n], pieces[n];
    BodyPlain(last, s, rc + n);
    if n == 0 {
      assert [] + last == last && head == [];
    } else {
      var more := [BACKSLASH, NL] + (last + s);
      BodyContinued(head, more, rc);
      assert Continued(pieces) + s == Continued(head) + more;
      BodyEscape(last + s, rc + n - 1);
      PrependTwice(Body(s, rc + n), Blocks.Concat(head), last);
    }
  }

  lemma BodyEscape(s: seq<byte>, rc: nat)
    ensures Body([BACKSLASH, NL] + s, rc) == Body(s, rc + 1)
  {
    assert ([BACKSLASH, NL] + s)[2..] == s;
  }

  lemma {:induction false} LeadSpaces(w: seq<byte>, s: seq<byte>, rc: nat)
    requires forall k :: 0 <= k < |w| ==> IsSpace(w[k]) && w[k] != NL
    ensures Lead(w + s, rc) == Lead(s, rc)
  {
    if w == [] {
      assert w + s == s;
    } else {
      assert (w + s)[1..] == w[1..] + s;
      LeadSpaces(w[1..], s, rc);
    }
  }

  lemma LeadSkips(line: seq<byte>, s: seq<byte>, rc: nat)
    requires Skipped(line)
    ensures Lead(line + [NL] + s, rc) == Lead(s, rc + 1)
  {
    var w, tail := line[..Leading(line)], Ink(line);
    hide Leading;
    assert line + [NL] + s == w + (tail + [NL] + s);
    LeadSpaces(w, tail + [NL] + s, rc);
    LineAtStart(tail, s);
    hide IsSpace, LineEnd, AfterLine, Newline;
    if tail == [] {
      assert (tail + [NL] + s)[1..] == s;
    }
  }

  lemma {:induction false} LeadSkipsAll(lines: seq<seq<byte>>, s: seq<byte>, rc: nat)
    requires forall i :: 0 <= i < |lines| ==> Skipped(lines[i])
    ensures Lead(Join(lines) + s, rc) == Lead(s, rc + |lines|)
  {
    hide Skipped, Lead;
    if lines == [] {
      assert Join(lines) + s == s;
    } else {
      var rest := Join(lines[1..]) + s;
      assert Join(lines) + s == lines[0] + [NL] + rest;
      LeadSkips(lines[0], rest, rc);
      LeadSkipsAll(lines[1..], s, rc + 1);
    }
  }

  /** What stands behind a line: its newline and the rest of the file, or nothing. */
  function Behind(rest: seq<byte>, closed: bool): seq<byte> {
    if closed then [NL] + rest else []
  }

  /** Behind any blank and comment lines and any white space, a line comes back whole, over however
      many rows it was continued, with the rows counted; also if it ends with the file. */
  lemma ReadsContinued(skipped: seq<seq<byte>>, indent: seq<byte>, pieces: seq<seq<byte>>, rest: seq<byte>,
                       closed: bool, rc: nat)
    requires forall i :: 0 <= i < |skipped| ==> Skipped(skipped[i])
    requires forall k :: 0 <= k < |indent| ==> IsSpace(indent[k]) && indent[k] != NL
    requires pieces != [] && forall i :: 0 <= i < |pieces| ==> Plain(pieces[i])
    requires pieces[0] != [] && pieces[0][0] != HASH && !IsSpace(pieces[0][0])
    ensures Lead(Join(skipped) + (indent + (Continued(pieces) + Behind(rest, closed))), rc)
            == Content(Blocks.Concat(pieces), rc + |skipped| + |pieces|, if closed then rest else [], closed)
  {
    var row, body := rc + |skipped|, Continued(pieces) + Behind(rest, closed);
    LeadBody(pieces, Behind(rest, closed), row);
    hide *;
    LeadSkipsAll(skipped, indent + body, rc);
    LeadSpaces(indent, body, row);
    BodyContinued(pieces, Behind(rest, closed), row);
    LineEnds(rest, closed, row + |pieces| - 1, Blocks.Concat(pieces));
  }

  /** The words of this statement: a piece has no newline and no backslash, one goes on behind a backslash and a
      newline, and a skipped line is white space or a comment behind white space. */
  lemma Pieces(pieces: seq<seq<byte>>, p: seq<byte>, w: seq<byte>, c: byte, x: seq<byte>, rest: seq<byte>)
    ensures BACKSLASH as int == '\\' as int && (Plain(p) <==> forall k :: 0 <= k < |p| ==> p[k] != 10 && p[k] != 92)
    ensures Continued([p]) == p && Blocks.Concat([p]) == p
    ensures pieces != [] ==> Continued(pieces + [p]) == Continued(pieces) + [92, 10] + p
    ensures Blocks.Concat(pieces + [p]) == Blocks.Concat(pieces) + p
    ensures Behind(rest, true) == [10] + rest && Behind(rest, false) == []
  {
    assert (pieces + [p])[..|pieces|] == pieces;
    assert [p][..0] == [] && [] + p == p;
  }

  lemma SkippedLines(w: seq<byte>, c: byte, x: seq<byte>)
    requires forall k :: 0 <= k < |w| ==> IsSpace(w[k]) && w[k] != NL
    requires !IsSpace(c) && NL !in x
    ensures Skipped(w) && (Skipped(w + [c] + x) <==> c as int == '#' as int)
  {
    var line := w + [c] + x;
    NewlineIsSpace();
    hide IsSpace;
    AllSpaceLeads(w);
    assert line[|w|] == c && forall k :: 0 <= k < |w| ==> line[k] == w[k];
    LeadingIs(line, |w|);
  }

  lemma NewlineIsSpace()
    ensures IsSpace(NL)
  {
  }

  /** A backslash that no newline follows, in such a line, is an error reported by the row in front of it; the
      character behind it has been read too. */
  lemma StrayStops(skipped: seq<seq<byte>>, indent: seq<byte>, pieces: seq<seq<byte>>, behind: seq<byte>, rc: nat)
    requires forall i :: 0 <= i < |skipped| ==> Skipped(skipped[i])
    requires forall k :: 0 <= k < |indent| ==> IsSpace(indent[k]) && indent[k] != NL
    requires pieces != [] && forall i :: 0 <= i < |pieces| ==> Plain(pieces[i])
    requires pieces[0] != [] && pieces[0][0] != HASH && !IsSpace(pieces[0][0])
    requires behind != [] ==> behind[0] != NL
    ensures Lead(Join(skipped) + (indent + (Continued(pieces) + ([92] + behind))), rc)
            == BadEscape(rc + |skipped| + |pieces| - 1, if behind == [] then [] else behind[1..])
  {
    var row, body := rc + |skipped|, Continued(pieces) + ([92] + behind);
    LeadBody(pieces, [92] + behind, row);
    hide *;
    LeadSkipsAll(skipped, indent + body, rc);
    LeadSpaces(indent, body, row);
    BodyContinued(pieces, [92] + behind, row);
    StrayBody(behind, row + |pieces| - 1, Blocks.Concat(pieces));
  }

  lemma StrayBody(behind: seq<byte>, rc: nat, line: seq<byte>)
    requires behind != [] ==> behind[0] != NL
    ensures Body([92] + behind, rc).Prepend(line) == BadEscape(rc, if behind == [] then [] else behind[1..])
  {
    assert ([92] + behind)[1..] == behind;
    if behind != [] {
      assert ([92] + behind)[2..] == behind[1..];
    }
  }

  /** With nothing else in the file, its end; and a backslash at the beginning of a line, with its newline, only
      counts as a row. */
  lemma NothingElse(skipped: seq<seq<byte>>, last: seq<byte>, rc: nat, s: seq<byte>)
    requires forall i :: 0 <= i < |skipped| ==> Skipped(skipped[i])
    requires Skipped(last)
    ensures Lead(Join(skipped) + last, rc) == EndOfFile
    ensures Lead([92, 10] + s, rc) == Lead(s, rc + 1)
  {
    assert ([92, 10] + s)[2..] == s;
    LastSkipped(last, rc + |skipped|);
    hide *;
    LeadSkipsAll(skipped, last, rc);
  }

  lemma LastSkipped(last: seq<byte>, rc: nat)
    requires Skipped(last)
    ensures Lead(last, rc) == EndOfFile
  {
    var w, tail := last[..Leading(last)], Ink(last);
    hide Leading;
    assert last == w + tail;
    LeadSpaces(w, tail, rc);
    if tail != [] {
      NoLineBehind(tail);
    }
    hide IsSpace, AfterLine, Newline;
  }

  lemma NoLineBehind(s: seq<byte>)
    requires NL !in s
    ensures AfterLine(s) == []
  {
    LineEndIs(s, |s|);
  }

  lemma LeadBody(pieces: seq<seq<byte>>, s: seq<byte>, rc: nat)
    requires pieces != [] && pieces[0] != [] && Plain(pieces[0]) && pieces[0][0] != HASH && !IsSpace(pieces[0][0])
    ensures Lead(Continued(pieces) + s, rc) == Body(Continued(pieces) + s, rc)
  {
    StartsAs(pieces);
    var body := Continued(pieces) + s;
    assert body != [] && body[0] == Continued(pieces)[..|pieces[0]|][0];
    hide Continued, IsSpace;
  }

  lemma LineEnds(rest: seq<byte>, closed: bool, rc: nat, line: seq<byte>)
    ensures Body(Behind(rest, closed), rc).Prepend(line) == Content(line, rc + 1, if closed then rest else [], closed)
  {
    assert ([NL] + rest)[1..] == rest && line + [] == line;
  }

  lemma {:induction false} StartsAs(pieces: seq<seq<byte>>)
    requires pieces != []
    ensures |pieces[0]| <= |Continued(pieces)| && Continued(pieces)[..|pieces[0]|] == pieces[0]
  {
    if |pieces| > 1 {
      StartsAs(pieces[..|pieces| - 1]);
    }
  }
}
