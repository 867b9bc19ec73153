/** parsefileline of conf.c on streams: characters in, characters out, and a growing line buffer. */
module LineReader {
  import opened Octets
  import opened Lines

  /** A FILE open for reading. */
  class InFile {
    const data: seq<byte>
    var pos: nat

    constructor (data: seq<byte>)
      ensures Valid() && Rest() == data
    {
      this.data := data;
      pos := 0;
    }

    ghost predicate Valid()
      reads this
    {
      pos <= |data|
    }

    ghost function Rest(): seq<byte>
      requires Valid()
      reads this
    {
      data[pos..]
    }

    /** fgetc. */
    method Getc() returns (eof: bool, c: byte)
      requires Valid()
      modifies this
      ensures Valid() && (eof <==> old(Rest()) == [])
      ensures if eof then Rest() == [] else c == old(Rest())[0] && Rest() == old(Rest())[1..]
    {
      if pos == |data| {
        return true, 0;
      }
      eof, c := false, data[pos];
      pos := pos + 1;
    }
  }

  /** What stays of a file when n octets are written over its beginning. */
  function Leftover(was: seq<byte>, n: nat): seq<byte> {
    if n < |was| then was[n..] else []
  }

  /** A FILE open for reading and writing from its beginning, without truncating it: what the file held
      and the text written over it. */
  class OutFile {
    const was: seq<byte>
    var text: seq<byte>

    constructor (was: seq<byte>)
      ensures this.was == was && text == []
    {
      this.was := was;
      text := [];
    }

    /** What the file holds. */
    ghost function Content(): seq<byte>
      reads this
    {
      text + Leftover(was, |text|)
    }

    method Put(s: seq<byte>)
      modifies this
      ensures text == old(text) + s
    {
      text := text + s;
    }
  }

  /** The growth increment of line buffers, I2LINEBUFINC. */
  const INCREMENT := 120

  /** A line buffer and its size: the caller's lbuf and lbuf_max. */
  class LineBuf {
    var buf: array<byte>

    constructor ()
      ensures buf.Length == 0 && fresh(buf)
    {
      buf := new byte[0];
    }

    /** The realloc of every function that fills a line buffer: the contents stay. */
    method Reserve(n: nat)
      modifies this
      ensures n <= buf.Length && (buf == old(buf) || fresh(buf))
      ensures old(buf.Length) <= buf.Length && buf[..old(buf.Length)] == old(buf[..])
      ensures if n <= old(buf.Length) then buf == old(buf)
              else buf.Length < n + 120 && (buf.Length - old(buf.Length)) % 120 == 0
    {
      if n > buf.Length {
        var size := buf.Length;
        while n > size
          invariant buf.Length <= size && (size - buf.Length) % 120 == 0
          invariant n <= buf.Length || size < n + 120
          decreases n - size
        {
          size := size + INCREMENT;
        }
        var b := new byte[size](i requires 0 <= i < size reads this, buf => if i < buf.Length then buf[i] else 0);
        assert b[..buf.Length] == buf[..];
        buf := b;
      }
    }

    /** line[nc] = c, with room for it and for the terminator. */
    method Append(nc: nat, c: byte)
      requires nc <= buf.Length
      modifies this, buf
      ensures nc + 2 <= buf.Length && (buf == old(buf) || fresh(buf))
      ensures buf[..nc + 1] == old(buf[..nc]) + [c]
    {
      ghost var kept := buf[..nc];
      Reserve(nc + 2);
      assert buf[..nc] == kept;
      buf[nc] := c;
    }
  }

  /** A C string stands at the front of a buffer. */
  ghost predicate Holds(buf: seq<byte>, s: seq<byte>) {
    |s| < |buf| && buf[..|s|] == s && buf[|s|] == 0
  }

  lemma PrependTwice(r: Scan, a: seq<byte>, b: seq<byte>)
    ensures r.Prepend(b).Prepend(a) == r.Prepend(a + b)
  {
    assert a + (b + r.out) == (a + b) + r.out;
  }

  /** The leading white space of a comment is written back as blanks. */
  method PutBlanks(tofp: OutFile, ns: nat)
    modifies tofp
    ensures tofp.text == old(tofp.text) + Repeat(BLANK, ns)
  {
    for i := 0 to ns
      invariant tofp.text == old(tofp.text) + Repeat(BLANK, i)
    {
      tofp.Put([BLANK]);
    }
  }

  /** The comment loop: everything up to and including the newline is copied. */
  method CopyComment(fp: InFile, tofp: OutFile?, ns: nat) returns (newline: bool, ghost out: seq<byte>)
    requires fp.Valid()
    modifies fp, tofp
    ensures fp.Valid()
    ensures var s := [HASH] + old(fp.Rest());
            fp.Rest() == AfterLine(s) && newline == (Newline(s) != []) &&
            out == Repeat(BLANK, ns) + FirstLine(s) + Newline(s)
    ensures tofp != null ==> tofp.text == old(tofp.text) + out
  {
    hide FirstLine, AfterLine, Newline, Repeat;
    ghost var rest := fp.Rest();
    ghost var k := 0;
    newline := false;
    if tofp != null {
      PutBlanks(tofp, ns);
      tofp.Put([HASH]);
    }
    ghost var front := Repeat(BLANK, ns);
    out := front + [HASH];
    assert [HASH] + rest[..0] == [HASH];
    while true
      invariant fp.Valid() && k <= |rest| && fp.Rest() == rest[k..] && NL !in rest[..k]
      invariant out == front + ([HASH] + rest[..k])
      invariant tofp != null ==> tofp.text == old(tofp.text) + out
      decreases |rest| - k
    {
      var eof, c := fp.Getc();
      if eof {
        CommentParts(rest, k);
        return;
      }
      if tofp != null {
        tofp.Put([c]);
      }
      if c == NL {
        CommentParts(rest, k);
        out := out + [c];
        return true, out;
      }
      k := k + 1;
      assert rest[..k] == rest[..k - 1] + [c];
      out := out + [c];
    }
  }

  lemma CommentParts(rest: seq<byte>, k: nat)
    requires k <= |rest| && NL !in rest[..k] && (k < |rest| ==> rest[k] == NL)
    ensures var s := [HASH] + rest;
            FirstLine(s) == [HASH] + rest[..k]
            && AfterLine(s) == (if k < |rest| then rest[k + 1..] else [])
            && Newline(s) == if k < |rest| then [NL] else []
  {
    var s := [HASH] + rest;
    assert s[..k + 1] == [HASH] + rest[..k];
    LineEndIs(s, k + 1);
  }

  /** The passes of parsefileline's loop while it has no content yet: blank lines and comments are
      copied, leading white space is counted. It ends with the first character of content. */
  method LeadIn(fp: InFile, row: nat, tofp: OutFile?)
    returns (eof: bool, c: byte, ns: nat, rc: nat, ghost start: seq<byte>, ghost out: seq<byte>)
    requires fp.Valid()
    modifies fp, tofp
    ensures fp.Valid() && ScanLine(old(fp.Rest()), 0, row) == ScanLine(start, ns, rc).Prepend(out)
    ensures tofp != null ==> tofp.text == old(tofp.text) + out
    ensures eof ==> start == [] == fp.Rest()
    ensures !eof ==> start != [] && c == start[0] != NL && c != HASH && !IsSpace(c) && fp.Rest() == start[1..]
  {
    hide FirstLine, AfterLine, Newline, Repeat, ScanLine, IsSpace;
    ghost var whole := ScanLine(fp.Rest(), 0, row);
    rc, ns, out := row, 0, [];
    while true
      invariant fp.Valid() && whole == ScanLine(fp.Rest(), ns, rc).Prepend(out)
      invariant tofp != null ==> tofp.text == old(tofp.text) + out
      decreases |fp.Rest()|
    {
      start := fp.Rest();
      eof, c := fp.Getc();
      if eof {
        return;
      }
      if c == NL {
        rc := rc + 1;
        if tofp != null {
          tofp.Put([NL]);
        }
        ScanNewline(start, ns, rc - 1);
        PrependTwice(ScanLine(start[1..], 0, rc), out, [NL]);
        out := out + [NL];
        ns := 0;
      } else if c == HASH {
        var newline;
        ghost var copied;
        assert start == [HASH] + start[1..];
        newline, copied := CopyComment(fp, tofp, ns);
        ScanComment(start, ns, rc);
        rc := if newline then rc + 1 else rc;
        NewlineSize(start);
        PrependTwice(ScanLine(fp.Rest(), ns, rc), out, copied);
        out := out + copied;
      } else if IsSpace(c) {
        ScanSpace(start, ns, rc);
        ns := ns + 1;
      } else {
        return;
      }
    }
  }

  /** The passes once there is content: everything up to the newline goes into the buffer. */
  method ReadContent(fp: InFile, c0: byte, lbuf: LineBuf, ghost start: seq<byte>)
    requires fp.Valid() && start != [] && c0 == start[0] != NL && fp.Rest() == start[1..]
    modifies fp, lbuf, lbuf.buf
    ensures fp.Valid() && fp.Rest() == AfterLine(start)
    ensures Holds(lbuf.buf[..], FirstLine(start))
    ensures lbuf.buf == old(lbuf.buf) || fresh(lbuf.buf)
  {
    hide LineEnd, AfterLine;
    lbuf.Append(0, c0);
    var nc := 1;
    assert start[..1] == [c0];
    while true
      invariant fp.Valid() && (lbuf.buf == old(lbuf.buf) || fresh(lbuf.buf))
      invariant 0 < nc <= |start| && NL !in start[..nc] && fp.Rest() == start[nc..]
      invariant nc + 1 <= lbuf.buf.Length && lbuf.buf[..nc] == start[..nc]
      decreases |start| - nc
    {
      var eof, c := fp.Getc();
      if eof || c == NL {
        break;
      }
      lbuf.Append(nc, c);
      InLineLonger(start, nc);
      nc := nc + 1;
    }
    LineEndIs(start, nc);
    AfterLineIs(start);
    lbuf.buf[nc] := 0;
  }

  /** parsefileline. */
  method ParseFileLine(fp: InFile, row: nat, lbuf: LineBuf, tofp: OutFile?) returns (ret: int, ghost r: Scan)
    requires fp.Valid()
    modifies fp, lbuf, lbuf.buf, tofp
    ensures fp.Valid() && r == ScanLine(old(fp.Rest()), 0, row)
    ensures ret == r.Returned() && fp.Rest() == r.rest
    ensures tofp != null ==> tofp.text == old(tofp.text) + r.out
    ensures r.kind.Found? ==> Holds(lbuf.buf[..], r.line)
    ensures r.kind.Found? ==>
              |r.line| < lbuf.buf.Length && lbuf.buf[..|r.line|] == r.line && lbuf.buf[|r.line|] == 0
    ensures lbuf.buf == old(lbuf.buf) || fresh(lbuf.buf)
  {
    hide LineEnd, AfterLine, ScanLine, IsSpace;
    r := ScanLine(fp.Rest(), 0, row);
    ghost var start, out;
    var eof, c, ns, rc;
    eof, c, ns, rc, start, out := LeadIn(fp, row, tofp);
    assert out + [] == out;
    ret := rc;
    if eof {
      ScanEnd(ns, rc);
      return 0, r;
    }
    ScanContent(start, ns, rc);
    if ns > 0 {
      return -ret, r;
    }
    ReadContent(fp, c, lbuf, start);
    return ret + 1, r;
  }

  lemma AfterLineIs(s: seq<byte>)
    ensures AfterLine(s) == if LineEnd(s) < |s| then s[LineEnd(s) + 1..] else []
  {
  }

  lemma InLineLonger(start: seq<byte>, nc: nat)
    requires nc < |start|
    ensures start[..nc + 1] == start[..nc] + [start[nc]]
  {
  }

  lemma ScanEnd(ns: nat, rc: nat)
    ensures ScanLine([], ns, rc) == Scan(Ended, rc, [], [], [])
  {
  }

  lemma NewlineSize(s: seq<byte>)
    ensures |Newline(s)| == if Newline(s) != [] then 1 else 0
  {
  }
}
