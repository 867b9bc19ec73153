/** Walking over C strings in buffers, as the parsers of conf.c do. */
module Walk {
  import opened Octets
  import opened Lines
  import opened LineReader
  import opened KeyText
  import opened Hex

  /** while (isspace(*line)) line++ */
  method SkipSpace(buf: array<byte>, from: nat, ghost s: seq<byte>) returns (at: nat)
    requires HoldsString(buf[..], from, s)
    ensures at == from + Leading(s)
  {
    hide IsSpace;
    NulIsInk();
    at := from;
    CharAt(buf[..], from, s, 0);
    while IsSpace(buf[at])
      invariant from <= at <= from + |s| && Leading(s) == at - from + Leading(s[at - from..])
      invariant buf[at] == if at < from + |s| then s[at - from] else 0
      decreases from + |s| - at
    {
      assert s[at - from..][1..] == s[at - from + 1..];
      at := at + 1;
      CharAt(buf[..], from, s, at - from);
    }
  }

  /** Walking to the next white space or to the end: also strcspn(line, I2WSPACESET). */
  method SkipWord(buf: array<byte>, from: nat, ghost s: seq<byte>) returns (at: nat)
    requires HoldsString(buf[..], from, s) && 0 !in s
    ensures at == from + WordLength(s)
  {
    hide IsSpace;
    at := from;
    CharAt(buf[..], from, s, 0);
    while buf[at] != 0 && !IsSpace(buf[at])
      invariant from <= at <= from + |s| && WordLength(s) == at - from + WordLength(s[at - from..])
      invariant buf[at] == if at < from + |s| then s[at - from] else 0
      decreases from + |s| - at
    {
      assert s[at - from..][1..] == s[at - from + 1..];
      at := at + 1;
      CharAt(buf[..], from, s, at - from);
    }
  }

  lemma NulIsInk()
    ensures !IsSpace(0)
  {
  }

  lemma CharAt(memory: seq<byte>, from: nat, s: seq<byte>, k: nat)
    requires HoldsString(memory, from, s) && k <= |s|
    ensures memory[from + k] == if k < |s| then s[k] else 0
  {
    if k < |s| {
      assert memory[from + k] == memory[from..from + |s|][k];
    }
  }

  /** A held line is held as a C string, and so is the rest of a string behind any position. */
  lemma HoldsCString(memory: seq<byte>, line: seq<byte>)
    requires Holds(memory, line)
    ensures HoldsString(memory, 0, CString(line))
  {
    var t := CString(line);
    assert memory[0..|t|] == memory[..|line|][..|t|];
    if |t| < |line| {
      assert memory[|t|] == memory[..|line|][|t|];
    }
  }

  lemma HoldsRest(memory: seq<byte>, from: nat, s: seq<byte>, k: nat)
    requires HoldsString(memory, from, s) && 0 !in s && k <= |s|
    ensures 0 !in s[k..] && HoldsString(memory, from + k, s[k..])
  {
    assert memory[from + k..from + |s|] == memory[from..from + |s|][k..];
  }

  /** What printf("%s") finds where a string is held. */
  lemma {:induction false} CStringInside(memory: seq<byte>, s: seq<byte>)
    requires 0 !in s && HoldsString(memory, 0, s)
    ensures CString(memory) == s
  {
    CharAt(memory, 0, s, 0);
    if s != [] {
      assert memory[1..][0..|s| - 1] == memory[0..|s|][1..] && memory[1..][|s| - 1] == memory[|s|];
      CStringInside(memory[1..], s[1..]);
    }
  }

  /** fprintf("%s\n", *lbuf) */
  method PutLine(tofp: OutFile, buf: array<byte>, ghost line: seq<byte>)
    requires Holds(buf[..], line)
    modifies tofp
    ensures tofp.text == old(tofp.text) + (CString(line) + [NL])
  {
    HoldsCString(buf[..], line);
    CStringInside(buf[..], CString(line));
    tofp.Put(CString(buf[..]) + [NL]);
  }
}
