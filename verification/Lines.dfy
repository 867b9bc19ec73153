/** parsefileline of conf.c on text: which line comes next, and what is copied on the way. */
module Lines {
  import opened Octets

  const NL: byte := 10
  const HASH: byte := 35
  const BLANK: byte := 32

  /** isspace in the C locale. */
  predicate IsSpace(c: byte) {
    c == 32 || 9 <= c <= 13
  }

  /** How many characters of leading white space. */
  function Leading(s: seq<byte>): (n: nat)
    ensures n <= |s| && forall k :: 0 <= k < n ==> IsSpace(s[k])
    ensures n < |s| ==> !IsSpace(s[n])
  {
    if s == [] || !IsSpace(s[0]) then 0 else 1 + Leading(s[1..])
  }

  lemma {:induction false} LeadingIs(s: seq<byte>, n: nat)
    requires n < |s| && (forall k :: 0 <= k < n ==> IsSpace(s[k])) && !IsSpace(s[n])
    ensures Leading(s) == n
  {
    hide IsSpace;
    if 0 < n {
      LeadingIs(s[1..], n - 1);
    }
  }

  lemma {:induction false} AllSpaceLeads(s: seq<byte>)
    requires forall k :: 0 <= k < |s| ==> IsSpace(s[k])
    ensures Leading(s) == |s|
  {
    hide IsSpace;
    if s != [] {
      AllSpaceLeads(s[1..]);
    }
  }

  lemma HashIsInk()
    ensures !IsSpace(HASH) && HASH != 0
  {
  }

  /** How many characters before the first white space. */
  function WordLength(s: seq<byte>): (n: nat)
    ensures n <= |s| && forall k :: 0 <= k < n ==> !IsSpace(s[k])
    ensures n < |s| ==> IsSpace(s[n])
  {
    if s == [] || IsSpace(s[0]) then 0 else 1 + WordLength(s[1..])
  }

  /** Where the first line ends: at its newline, or at the end of the text. */
  function LineEnd(s: seq<byte>): (n: nat)
    ensures n <= |s| && NL !in s[..n]
    ensures n < |s| ==> s[n] == NL
  {
    if s == [] || s[0] == NL then 0
    else
      assert s[..1 + LineEnd(s[1..])] == [s[0]] + s[1..][..LineEnd(s[1..])];
      1 + LineEnd(s[1..])
  }

  function FirstLine(s: seq<byte>): seq<byte> {
    s[..LineEnd(s)]
  }

  /** A line without its leading white space. */
  function Ink(line: seq<byte>): seq<byte> {
    line[Leading(line)..]
  }

  /** The text after the first line and its newline. */
  function AfterLine(s: seq<byte>): (r: seq<byte>)
    ensures s != [] ==> |r| < |s|
  {
    var e := LineEnd(s);
    if e < |s| then s[e + 1..] else []
  }

  /** The newline that ends the first line, if there is one. */
  function Newline(s: seq<byte>): seq<byte> {
    if LineEnd(s) < |s| then [NL] else []
  }

  /** A line of content; the end of the file; or content behind leading white space. */
  datatype Kind = Found | Ended | Indented

  datatype Scan = Scan(kind: Kind, rc: nat, line: seq<byte>, rest: seq<byte>, out: seq<byte>) {
    function Prepend(o: seq<byte>): Scan {
      this.(out := o + out)
    }

    /** What the function returns. An error gives back the negated row, which is 0 on the first
        row: there it cannot be told from the end of the file. */
    function Returned(): int {
      match kind
      case Found => rc
      case Ended => 0
      case Indented => 0 - rc as int
    }
  }

  /** The scan of a text from the start of a line on, ns leading spaces having been counted and
      rc rows read. Blank lines are copied as bare newlines; comment lines are copied with their
      white space as blanks, and leave the count of it behind. */
  function ScanLine(s: seq<byte>, ns: nat, rc: nat): Scan
    decreases |s|
  {
    if s == [] then Scan(Ended, rc, [], [], [])
    else if Ink(FirstLine(s)) == [] then
      if Newline(s) == [] then Scan(Ended, rc, [], [], [])
      else ScanLine(AfterLine(s), 0, rc + 1).Prepend([NL])
    else if Ink(FirstLine(s))[0] == HASH then
      ScanLine(AfterLine(s), ns + Leading(FirstLine(s)), rc + |Newline(s)|)
      .Prepend(Repeat(BLANK, ns + Leading(FirstLine(s))) + Ink(FirstLine(s)) + Newline(s))
    else if 0 < ns + Leading(FirstLine(s)) then
      Scan(Indented, rc, [], s[Leading(FirstLine(s)) + 1..], [])
    else
      Scan(Found, rc + 1, FirstLine(s), AfterLine(s), [])
  }

  /** Leading white space may be taken off one character at a time. */
  lemma ScanSpace(s: seq<byte>, ns: nat, rc: nat)
    requires s != [] && s[0] != NL && IsSpace(s[0])
    ensures ScanLine(s, ns, rc) == ScanLine(s[1..], ns + 1, rc)
  {
    hide *;
    SpaceFirst(s);
    NoLine();
    SameScan(s, s[1..], ns, rc);
  }

  lemma SameScan(s: seq<byte>, t: seq<byte>, ns: nat, rc: nat)
    requires s != [] && Ink(FirstLine(s)) == Ink(FirstLine(t)) && Leading(FirstLine(s)) == 1 + Leading(FirstLine(t))
    requires AfterLine(s) == AfterLine(t) && Newline(s) == Newline(t)
    requires Ink(FirstLine(s)) != [] ==> s[Leading(FirstLine(s)) + 1..] == t[Leading(FirstLine(t)) + 1..]
    requires t == [] ==> Ink(FirstLine(t)) == [] && Newline(t) == []
    ensures ScanLine(s, ns, rc) == ScanLine(t, ns + 1, rc)
  {
    hide LineEnd, FirstLine, Leading, Ink, AfterLine, Newline, Repeat, IsSpace;
  }

  lemma NoLine()
    ensures Ink(FirstLine([])) == [] && Newline([]) == []
  {
    var s: seq<byte> := [];
    assert LineEnd(s) == 0 && FirstLine(s) == [];
    hide LineEnd, FirstLine, Leading;
  }

  lemma SpaceFirst(s: seq<byte>)
    requires s != [] && s[0] != NL && IsSpace(s[0])
    ensures var t := s[1..];
            Ink(FirstLine(s)) == Ink(FirstLine(t)) && Leading(FirstLine(s)) == 1 + Leading(FirstLine(t))
            && AfterLine(s) == AfterLine(t) && Newline(s) == Newline(t)
            && (Ink(FirstLine(s)) != [] ==> s[Leading(FirstLine(s)) + 1..] == t[Leading(FirstLine(t)) + 1..])
  {
    var l, t := FirstLine(s), s[1..];
    assert l[0] == s[0] && l[1..] == FirstLine(t);
    hide IsSpace, LineEnd;
    var n := Leading(l[1..]);
    assert l[1 + n..] == l[1..][n..];
    assert n < |t| ==> s[2 + n..] == t[1 + n..];
  }

  lemma ScanNewline(s: seq<byte>, ns: nat, rc: nat)
    requires s != [] && s[0] == NL
    ensures ScanLine(s, ns, rc) == ScanLine(s[1..], 0, rc + 1).Prepend([NL])
  {
    assert LineEnd(s) == 0 && s[..0] == [];
  }

  lemma ScanComment(s: seq<byte>, ns: nat, rc: nat)
    requires s != [] && s[0] == HASH
    ensures ScanLine(s, ns, rc)
            == ScanLine(AfterLine(s), ns, rc + |Newline(s)|).Prepend(Repeat(BLANK, ns) + FirstLine(s) + Newline(s))
  {
    InkFirst(s);
    hide LineEnd, FirstLine, Leading, Ink, AfterLine, Newline, Repeat, IsSpace;
  }

  lemma ScanContent(s: seq<byte>, ns: nat, rc: nat)
    requires s != [] && s[0] != NL && s[0] != HASH && !IsSpace(s[0])
    ensures ScanLine(s, ns, rc)
            == if 0 < ns then Scan(Indented, rc, [], s[1..], [])
               else Scan(Found, rc + 1, FirstLine(s), AfterLine(s), [])
  {
    InkFirst(s);
    hide LineEnd, FirstLine, Leading, Ink, AfterLine, Newline, Repeat, IsSpace;
  }

  lemma InkFirst(s: seq<byte>)
    requires s != [] && s[0] != NL && !IsSpace(s[0])
    ensures var l := FirstLine(s); l != [] && l[0] == s[0] && Leading(l) == 0 && Ink(l) == l
  {
    assert FirstLine(s)[0..] == FirstLine(s);
  }

  lemma {:induction false} LineEndIs(s: seq<byte>, n: nat)
    requires n <= |s| && NL !in s[..n] && (n < |s| ==> s[n] == NL)
    ensures LineEnd(s) == n
  {
    if 0 < n {
      assert s[0] == s[..n][0] && s[1..][..n - 1] == s[..n][1..];
      LineEndIs(s[1..], n - 1);
    }
  }

  lemma LineAtStart(line: seq<byte>, rest: seq<byte>)
    requires NL !in line
    ensures var s := line + [NL] + rest;
            s != [] && FirstLine(s) == line && AfterLine(s) == rest && Newline(s) == [NL]
  {
    var s := line + [NL] + rest;
    assert s[..|line|] == line;
    LineEndIs(s, |line|);
    assert s[|line| + 1..] == rest;
  }

  /** The first element of a kind, or the number of elements. */
  function FirstWhere<T>(s: seq<T>, kind: T -> bool): (n: nat)
    ensures n <= |s| && (n < |s| ==> kind(s[n]))
    ensures forall i :: 0 <= i < n ==> !kind(s[i])
  {
    if s == [] || kind(s[0]) then 0 else 1 + FirstWhere(s[1..], kind)
  }

  /** Lines as a file holds them: each with its newline. */
  function Join(lines: seq<seq<byte>>): seq<byte> {
    if lines == [] then [] else lines[0] + [NL] + Join(lines[1..])
  }

  lemma {:induction false} JoinAppend(a: seq<seq<byte>>, b: seq<seq<byte>>)
    ensures Join(a + b) == Join(a) + Join(b)
  {
    if a == [] {
      assert a + b == b;
    } else {
      JoinAppend(a[1..], b);
      assert (a + b)[1..] == a[1..] + b;
      assert a[0] + [NL] + (Join(a[1..]) + Join(b)) == a[0] + [NL] + Join(a[1..]) + Join(b);
    }
  }

  lemma JoinOne(line: seq<byte>)
    ensures Join([line]) == line + [NL]
  {
    assert Join([]) == [] && [line][1..] == [];
  }

  lemma JoinNone()
    ensures Join([]) == []
  {
  }
}
