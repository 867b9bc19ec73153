/** The pass-phrase file functions of conf.c: lines cut in place, and octets decoded behind them in the
    same growing buffer. */
module PassFile {
  import opened Octets
  import opened Lines
  import opened LineReader
  import opened KeyText
  import opened PassText
  import opened Walk
  import opened Hex

  // ---------------------------------------------------------------- I2ParsePFFile

  /** Trailing white space is overwritten with nuls. */
  method CutSpace(buf: array<byte>, from: nat, ghost s: seq<byte>) returns (ts: nat)
    requires HoldsString(buf[..], from, s)
    modifies buf
    ensures ts == from + Leading(s)
    ensures buf[ts] == if Leading(s) < |s| then s[Leading(s)] else 0
    ensures buf[..from] == old(buf[..from])
    ensures from < ts ==> buf[from] == 0
  {
    hide IsSpace, Leading, CutSoFar;
    NulIsInk();
    ts := from;
    ghost var was := buf[..];
    NothingCut(was, from, s);
    while IsSpace(buf[ts])
      invariant ts < buf.Length && CutSoFar(buf[..], was, from, s, ts)
      decreases buf.Length - ts
    {
      ghost var memory := buf[..];
      CutMore(memory, was, from, s, ts);
      buf[ts] := 0;
      assert buf[..] == memory[ts := 0];
      ts := ts + 1;
    }
    CutDone(buf[..], was, from, s, ts);
  }

  /** How far the white space behind a word has been overwritten. */
  ghost predicate CutSoFar(memory: seq<byte>, was: seq<byte>, from: nat, s: seq<byte>, ts: nat) {
    && |memory| == |was| && HoldsString(was, from, s)
    && from <= ts <= from + |s| && Leading(s) == ts - from + Leading(s[ts - from..])
    && memory[..from] == was[..from] && memory[ts..] == was[ts..]
    && (from < ts ==> memory[from] == 0)
  }

  lemma NothingCut(was: seq<byte>, from: nat, s: seq<byte>)
    requires HoldsString(was, from, s)
    ensures CutSoFar(was, was, from, s, from) && from < |was|
  {
    assert s[0..] == s;
  }

  lemma CutAt(memory: seq<byte>, was: seq<byte>, from: nat, s: seq<byte>, ts: nat)
    requires CutSoFar(memory, was, from, s, ts)
    ensures ts < |memory| && memory[ts] == if ts < from + |s| then s[ts - from] else 0
  {
    CharAt(was, from, s, ts - from);
    assert memory[ts] == memory[ts..][0] == was[ts..][0];
  }

  lemma CutMore(memory: seq<byte>, was: seq<byte>, from: nat, s: seq<byte>, ts: nat)
    requires CutSoFar(memory, was, from, s, ts) && ts < |memory| && IsSpace(memory[ts])
    ensures ts + 1 < |memory| && CutSoFar(memory[ts := 0], was, from, s, ts + 1)
  {
    CutAt(memory, was, from, s, ts);
    NulIsInk();
    var k, m := ts - from, memory[ts := 0];
    assert s[k..][1..] == s[k + 1..];
    assert m[ts + 1..] == memory[ts..][1..] == was[ts..][1..];
    assert m[..from] == memory[..from];
    hide IsSpace;
  }

  lemma CutDone(memory: seq<byte>, was: seq<byte>, from: nat, s: seq<byte>, ts: nat)
    requires CutSoFar(memory, was, from, s, ts) && ts < |memory| && !IsSpace(memory[ts])
    ensures ts == from + Leading(s) && memory[ts] == (if Leading(s) < |s| then s[Leading(s)] else 0)
    ensures memory[..from] == was[..from] && (from < ts ==> memory[from] == 0)
  {
    CutAt(memory, was, from, s, ts);
    hide IsSpace;
  }

  /** Ending the identity with a nul leaves what is behind it. */
  lemma Ended(memory: seq<byte>, t: seq<byte>, i: nat)
    requires HoldsString(memory, 0, t) && i < |t|
    ensures HoldsString(memory[i := 0], 0, t[..i]) && HoldsString(memory[i := 0], i + 1, t[i + 1..])
  {
    var m := memory[i := 0];
    assert m[0..0 + i] == memory[0..0 + |t|][..i];
    assert m[i + 1..|t|] == memory[0..0 + |t|][i + 1..];
  }

  lemma AfterCut(t: seq<byte>, i: nat)
    requires i == WordLength(t) < |t|
    ensures AfterWord(t) == t[i + 1..][Leading(t[i + 1..])..]
  {
    assert t[i..][0] == t[i] && t[i..][1..] == t[i + 1..];
  }

  /** A string in front of what was written is still held. */
  lemma StillHeld(was: seq<byte>, memory: seq<byte>, from: nat, s: seq<byte>, bound: nat)
    requires HoldsString(was, from, s) && from + |s| < bound <= |was| && bound <= |memory|
    requires memory[..bound] == was[..bound]
    ensures HoldsString(memory, from, s)
  {
    assert memory[from..from + |s|] == memory[..bound][from..from + |s|];
    assert memory[from + |s|] == memory[..bound][from + |s|];
  }

  lemma WordHeld(was: seq<byte>, memory: seq<byte>, from: nat, s: seq<byte>, n: nat)
    requires HoldsString(was, from, s) && n <= |s| && |memory| == |was|
    requires memory[..from + n] == was[..from + n] && memory[from + n] == 0
    ensures HoldsString(memory, from, s[..n])
  {
    assert memory[from..from + n] == memory[..from + n][from..];
    assert was[from..from + |s|][..n] == was[..from + n][from..];
  }

  /** The number of digits is right and nothing but white space follows them. */
  predicate PhraseShaped(code: seq<byte>) {
    var n := |FirstWord(code)|;
    n != 0 && n % 2 == 0 && AfterWord(code) == []
  }

  /** The identity is ended with a nul; where the digits behind it start and how many there are. */
  method CutIdentity(buf: array<byte>, i: nat, ghost t: seq<byte>) returns (hex: nat, hexLen: nat)
    requires HoldsString(buf[..], 0, t) && 0 !in t && i == WordLength(t) < |t|
    modifies buf
    ensures i < hex && HoldsString(buf[..], 0, FirstWord(t))
    ensures HoldsString(buf[..], hex, AfterWord(t)) && 0 !in AfterWord(t) && hexLen == |FirstWord(AfterWord(t))|
  {
    hide WordLength, Leading, HoldsString;
    ghost var memory := buf[..];
    HoldsRest(memory, 0, t, i + 1);
    Ended(memory, t, i);
    AfterCut(t, i);
    buf[i] := 0;
    assert buf[..] == memory[i := 0];
    hex := SkipSpace(buf, i + 1, t[i + 1..]);
    HoldsRest(buf[..], i + 1, t[i + 1..], hex - i - 1);
    var end := SkipWord(buf, hex, AfterWord(t));
    hexLen := end - hex;
  }

  /** The white space behind the digits is cut off; nothing else may be there. */
  method CutDigits(buf: array<byte>, hex: nat, hexLen: nat, ghost code: seq<byte>) returns (ok: bool, ts: nat)
    requires HoldsString(buf[..], hex, code) && 0 !in code && hexLen == |FirstWord(code)|
    modifies buf
    ensures ok <==> PhraseShaped(code)
    ensures buf[..hex + hexLen] == old(buf[..hex + hexLen])
    ensures ok ==> HoldsString(buf[..], hex, FirstWord(code)) && hex + hexLen <= ts < buf.Length
  {
    hide *;
    ghost var memory := buf[..];
    Shape(code, hexLen);
    HoldsBounds(memory, hex, code);
    HoldsRest(memory, hex, code, hexLen);
    ts := CutSpace(buf, hex + hexLen, code[hexLen..]);
    if hexLen == 0 || hexLen % 2 != 0 || buf[ts] != 0 {
      return false, ts;
    }
    WordHeld(memory, buf[..], hex, code, hexLen);
    return true, ts;
  }

  lemma Shape(code: seq<byte>, n: nat)
    requires 0 !in code && n == |FirstWord(code)|
    ensures n <= |code| && FirstWord(code) == code[..n]
    ensures Leading(code[n..]) < |code[n..]| ==> code[n..][Leading(code[n..])] != 0
    ensures PhraseShaped(code) <==> n != 0 && n % 2 == 0 && Leading(code[n..]) == |code[n..]|
  {
    hide WordLength, Leading;
  }

  lemma HoldsBounds(memory: seq<byte>, from: nat, s: seq<byte>)
    requires HoldsString(memory, from, s)
    ensures from + |s| < |memory|
  {
  }

  /** The octets are decoded behind the text of the line, in the same buffer, which may have to move
      to make room. The identity in front stays what it was. */
  method TakePhrase(lbuf: LineBuf, i: nat, ghost t: seq<byte>) returns (ok: bool, pf: nat, n: nat)
    requires HoldsString(lbuf.buf[..], 0, t) && 0 !in t && i == WordLength(t) < |t| < 2 * TWO_32
    modifies lbuf, lbuf.buf
    ensures lbuf.buf == old(lbuf.buf) || fresh(lbuf.buf)
    ensures ok <==> ParsePhrase(AfterWord(t)).Some?
    ensures ok ==> PhraseAt(lbuf.buf[..], FirstWord(t), pf, n, ParsePhrase(AfterWord(t)).value)
  {
    hide WordLength, AfterWord, HoldsString, ParsePhrase, PhraseShaped, PhraseAt;
    pf, n := 0, 0;
    ghost var word := FirstWord(AfterWord(t));
    WordsHaveNoNul(t);
    WordFits(t);
    ShapedParses(AfterWord(t));
    var hex, hexLen := CutIdentity(lbuf.buf, i, t);
    ghost var was := lbuf.buf[..];
    HoldsBounds(was, hex, AfterWord(t));
    var ts;
    ok, ts := CutDigits(lbuf.buf, hex, hexLen, AfterWord(t));
    if !ok {
      return;
    }
    StillHeld(was, lbuf.buf[..], 0, FirstWord(t), hex);
    n := hexLen / 2;
    ok, pf := DecodeBehind(lbuf, hex, ts + 1, n, FirstWord(t), word);
  }

  lemma WordFits(t: seq<byte>)
    ensures |FirstWord(AfterWord(t))| <= |t|
  {
    hide WordLength, Leading;
  }

  lemma ShapedParses(code: seq<byte>)
    ensures ParsePhrase(code) == if PhraseShaped(code) then Decode(FirstWord(code), |FirstWord(code)| / 2) else None
  {
    hide WordLength, AfterWord, Decode;
  }

  /** Room is made behind the used part of the buffer, and the digits are decoded into it. */
  method DecodeBehind(lbuf: LineBuf, hex: nat, used: nat, n: nat, ghost id: seq<byte>, ghost word: seq<byte>)
    returns (ok: bool, pf: nat)
    requires HoldsString(lbuf.buf[..], 0, id) && HoldsString(lbuf.buf[..], hex, word) && 0 !in word
    requires |id| < hex && hex + |word| < used <= lbuf.buf.Length && n < TWO_32
    modifies lbuf, lbuf.buf
    ensures lbuf.buf == old(lbuf.buf) || fresh(lbuf.buf)
    ensures ok <==> Decode(word, n).Some?
    ensures ok ==> PhraseAt(lbuf.buf[..], id, pf, n, Decode(word, n).value)
  {
    hide Decode, HoldsString;
    ghost var was := lbuf.buf[..];
    lbuf.Reserve(used + n);
    assert lbuf.buf[..used] == lbuf.buf[..|was|][..used];
    StillHeld(was, lbuf.buf[..], 0, id, used);
    StillHeld(was, lbuf.buf[..], hex, word, used);
    pf := used;
    was := lbuf.buf[..];
    ok := HexDecode(lbuf.buf, hex, lbuf.buf, pf, n, word);
    StillHeld(was, lbuf.buf[..], 0, id, used);
  }

  /** The identity at the front of the buffer, and the octets behind it without touching it. */
  ghost predicate PhraseAt(memory: seq<byte>, id: seq<byte>, pf: nat, n: nat, phrase: seq<byte>) {
    HoldsString(memory, 0, id) && |id| < pf && pf + n <= |memory| && memory[pf..pf + n] == phrase
  }

  lemma WordsHaveNoNul(t: seq<byte>)
    requires 0 !in t
    ensures 0 !in FirstWord(AfterWord(t))
  {
    hide WordLength, Leading;
  }

  lemma PassStopsAt(s: seq<byte>, row: nat, query: Option<seq<byte>>)
    ensures var r, k := ScanLine(s, 0, row), ScanPass(s, row, query);
            if !r.kind.Found? then k == PassScan(r.Returned(), None, r.rest, r.out)
            else match Judge(r.line, query)
                 case Bad => k == PassScan(0 - r.rc, None, r.rest, r.out)
                 case Skip => k == ScanPass(r.rest, r.rc, query).Prepend(r.out + CString(r.line) + [NL])
                 case Take(rec) => k == PassScan(r.rc, Some(rec), r.rest, r.out)
  {
    hide ScanLine, Judge, CString;
  }

  lemma PrependBoth(k: PassScan, a: seq<byte>, b: seq<byte>)
    ensures k.Prepend(b).Prepend(a) == k.Prepend(a + b)
  {
    assert a + (b + k.out) == a + b + k.out;
  }

  /** The checks of I2ParsePFFile on one line. */
  method JudgeLine(lbuf: LineBuf, query: Option<seq<byte>>, ghost line: seq<byte>)
    returns (bad: bool, skip: bool, pf: nat, n: nat)
    requires Holds(lbuf.buf[..], line) && |line| < 2 * TWO_32
    modifies lbuf, lbuf.buf
    ensures lbuf.buf == old(lbuf.buf) || fresh(lbuf.buf)
    ensures bad <==> Judge(line, query).Bad?
    ensures skip <==> Judge(line, query).Skip?
    ensures skip ==> Holds(lbuf.buf[..], line)
    ensures !bad && !skip ==> PhraseAt(lbuf.buf[..], Judge(line, query).rec.id, pf, n, Judge(line, query).rec.phrase)
  {
    ghost var t := CString(line);
    HoldsCString(lbuf.buf[..], line);
    hide CString, AfterWord, ParsePhrase, IsSpace, HoldsString, Holds, PhraseAt;
    bad, skip, pf, n := false, false, 0, 0;
    var i := SkipWord(lbuf.buf, 0, t);
    WordAt(lbuf.buf[..], t, i);
    if !IsSpace(lbuf.buf[i]) {
      bad := true;
      return;
    }
    if query.Some? && (query.value == [] || !Agree(lbuf.buf[..i], query.value)) {
      skip := true;
      return;
    }
    var ok;
    ok, pf, n := TakePhrase(lbuf, i, t);
    bad := !ok;
  }

  lemma WordAt(memory: seq<byte>, t: seq<byte>, i: nat)
    requires HoldsString(memory, 0, t) && i == WordLength(t)
    ensures memory[..i] == FirstWord(t) && (IsSpace(memory[i]) <==> i < |t|)
  {
    CharAt(memory, 0, t, i);
    NulIsInk();
    assert memory[0..0 + |t|][..i] == memory[..i];
  }

  /** One pass of the loop of I2ParsePFFile. */
  method ParsePass(fp: InFile, tofp: OutFile?, row: nat, query: Option<seq<byte>>, lbuf: LineBuf)
    returns (more: bool, ret: int, pf: nat, n: nat, ghost out: seq<byte>, ghost rec: Option<Pass>)
    requires fp.Valid() && |fp.Rest()| < 2 * TWO_32
    modifies fp, lbuf, lbuf.buf, tofp
    ensures fp.Valid() && (lbuf.buf == old(lbuf.buf) || fresh(lbuf.buf))
    ensures tofp != null ==> tofp.text == old(tofp.text) + out
    ensures more ==> 0 < ret && |fp.Rest()| < |old(fp.Rest())|
                     && ScanPass(old(fp.Rest()), row, query) == ScanPass(fp.Rest(), ret, query).Prepend(out)
    ensures !more ==> ScanPass(old(fp.Rest()), row, query) == PassScan(ret, rec, fp.Rest(), out)
    ensures !more && rec.Some? ==> PhraseAt(lbuf.buf[..], rec.value.id, pf, n, rec.value.phrase)
  {
    hide ScanLine, ScanPass, Judge, CString, PhraseAt, Holds;
    PassStopsAt(fp.Rest(), row, query);
    ScanShrinks(fp.Rest(), 0, row);
    ScanFits(fp.Rest(), 0, row);
    ghost var r;
    more, pf, n, rec := false, 0, 0, None;
    ret, r := ParseFileLine(fp, row, lbuf, tofp);
    out := r.out;
    if ret <= 0 {
      return;
    }
    var bad, skip;
    bad, skip, pf, n := JudgeLine(lbuf, query, r.line);
    if bad {
      ret := -ret;
      return;
    }
    if !skip {
      rec := Some(Judge(r.line, query).rec);
      return;
    }
    if tofp != null {
      PutLine(tofp, lbuf.buf, r.line);
    }
    out := out + CString(r.line) + [NL];
    more := true;
  }

  lemma PrependStop(k: PassScan, out: seq<byte>, o: seq<byte>)
    ensures k.(out := o).Prepend(out) == k.(out := out + o)
  {
  }

  /** I2ParsePFFile. The identity it returns stands at the front of the buffer and the pass-phrase at
      pf, n octets long. A file below 2^33 octets has no more digits on a line than the decoder counts. */
  method ParsePFFile(fp: InFile?, tofp: OutFile?, row: nat, query: Option<seq<byte>>, lbuf: LineBuf)
    returns (ret: int, pf: nat, n: nat, ghost k: PassScan)
    requires fp != null ==> fp.Valid() && |fp.Rest()| < 2 * TWO_32
    modifies fp, lbuf, lbuf.buf, tofp
    ensures k == if fp == null then PassScan(0, None, [], []) else ScanPass(old(fp.Rest()), row, query)
    ensures ret == k.ret && (fp != null ==> fp.Valid() && fp.Rest() == k.rest)
    ensures tofp != null ==> tofp.text == old(tofp.text) + k.out
    ensures k.rec.Some? ==>
              var id, phrase := k.rec.value.id, k.rec.value.phrase;
              && |id| < pf && pf + n <= lbuf.buf.Length && lbuf.buf[..|id|] == id && lbuf.buf[|id|] == 0
              && lbuf.buf[pf..pf + n] == phrase
    ensures lbuf.buf == old(lbuf.buf) || fresh(lbuf.buf)
  {
    hide *;
    pf, n := 0, 0;
    if fp == null {
      return 0, pf, n, PassScan(0, None, [], []);
    }
    k := ScanPass(fp.Rest(), row, query);
    ghost var out, rec: Option<Pass> := [], None;
    PrependNothing(k);
    ret := row;
    var more := true;
    while more
      invariant fp.Valid() && (lbuf.buf == old(lbuf.buf) || fresh(lbuf.buf))
      invariant more ==> |fp.Rest()| < 2 * TWO_32 && ret >= 0
      invariant more ==> k == ScanPass(fp.Rest(), ret, query).Prepend(out)
      invariant !more ==> k == PassScan(ret, rec, fp.Rest(), out)
      invariant !more && rec.Some? ==> PhraseAt(lbuf.buf[..], rec.value.id, pf, n, rec.value.phrase)
      invariant tofp != null ==> tofp.text == old(tofp.text) + out
      decreases more, |fp.Rest()|
    {
      ghost var o;
      more, ret, pf, n, o, rec := ParsePass(fp, tofp, ret, query, lbuf);
      PrependStop(PassScan(ret, rec, fp.Rest(), []), out, o);
      PrependBoth(ScanPass(fp.Rest(), if ret < 0 then 0 else ret, query), out, o);
      out := out + o;
    }
    if rec.Some? {
      PhraseIs(lbuf.buf[..], rec.value.id, pf, n, rec.value.phrase);
    }
  }

  lemma PhraseIs(memory: seq<byte>, id: seq<byte>, pf: nat, n: nat, phrase: seq<byte>)
    requires PhraseAt(memory, id, pf, n, phrase)
    ensures |id| < pf && pf + n <= |memory| && memory[..|id|] == id && memory[|id|] == 0 && memory[pf..pf + n] == phrase
  {
    assert memory[0..0 + |id|] == memory[..|id|];
  }

  lemma PrependNothing(k: PassScan)
    ensures k.Prepend([]) == k
  {
  }

  // ---------------------------------------------------------------- I2WritePFLine

  /** I2WritePFLine, on a stream that does not fail. */
  method WritePFLine(fp: OutFile, id: Option<seq<byte>>, bytes: seq<byte>, lbuf: LineBuf) returns (ret: int)
    modifies fp, lbuf, lbuf.buf
    ensures ret == if id.Some? && id.value != [] then 0 else -1
    ensures fp.text == old(fp.text) + if ret == 0 then id.value + [9] + Encode(bytes) + [10] else []
    ensures ret == 0 ==> PassLine(Pass(id.value, bytes)) + [NL] == id.value + [9] + Encode(bytes) + [10]
    ensures lbuf.buf == old(lbuf.buf) || fresh(lbuf.buf)
  {
    hide Encode, CString;
    if id.None? || id.value == [] {
      return -1;
    }
    lbuf.Reserve(2 * |bytes| + 1);
    HexEncode(lbuf.buf, bytes);
    ghost var code := Encode(bytes);
    DigitsAreInk(bytes);
    assert lbuf.buf[..|code| + 1][..|code|] == code && lbuf.buf[..|code| + 1][|code|] == 0;
    assert HoldsString(lbuf.buf[..], 0, code);
    CStringInside(lbuf.buf[..], code);
    fp.Put(id.value + [TAB] + CString(lbuf.buf[..]) + [NL]);
    return 0;
  }
}
