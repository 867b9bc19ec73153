/** The key file functions of conf.c on streams and buffers, and the edit run of aespasswd. */
module KeyFile {
  import opened Octets
  import opened Lines
  import opened LineReader
  import opened KeyText
  import opened Walk
  import opened Hex
  import KeyEdit
  import KeyLines

  // ---------------------------------------------------------------- I2ParseKeyFile

  /** What follows the key: white space up to the end or a comment. */
  method TrailingOk(buf: array<byte>, from: nat, ghost s: seq<byte>) returns (ok: bool)
    requires HoldsString(buf[..], from, s) && 0 !in s
    ensures ok <==> Leading(s) == |s| || s[Leading(s)] == HASH
  {
    hide IsSpace;
    HashIsInk();
    var at := from;
    CharAt(buf[..], from, s, 0);
    while buf[at] != 0
      invariant from <= at <= from + |s| && Leading(s) == at - from + Leading(s[at - from..])
      invariant buf[at] == if at < from + |s| then s[at - from] else 0
      decreases from + |s| - at
    {
      if buf[at] == HASH {
        return true;
      }
      if !IsSpace(buf[at]) {
        return false;
      }
      assert s[at - from..][1..] == s[at - from + 1..];
      at := at + 1;
      CharAt(buf[..], from, s, at - from);
    }
    return true;
  }

  /** The identity goes to rbuf; one character too many is seen before it would be terminated. */
  method CopyIdentity(buf: array<byte>, rbuf: array<byte>, ghost t: seq<byte>) returns (i: nat)
    requires HoldsString(buf[..], 0, t) && 0 !in t && rbuf.Length == MAX_ID + 1 && rbuf != buf
    modifies rbuf
    ensures MAX_ID < i <==> MAX_ID < |FirstWord(t)|
    ensures i <= MAX_ID ==> i == |FirstWord(t)| && rbuf[..i] == FirstWord(t) && rbuf[i] == 0
  {
    hide IsSpace;
    i := 0;
    while i <= MAX_ID
      invariant i <= MAX_ID + 1 && i <= WordLength(t) && rbuf[..i] == t[..i]
    {
      CharAt(buf[..], 0, t, i);
      if IsSpace(buf[i]) || buf[i] == 0 {
        break;
      }
      rbuf[i] := buf[i];
      i := i + 1;
    }
    if i <= MAX_ID {
      rbuf[i] := 0;
    }
  }

  /** The key is a word of the right length with nothing behind it but white space and a comment. */
  predicate KeyShaped(code: seq<byte>) {
    var tail := AfterWord(code);
    |FirstWord(code)| == 2 * KEY_LEN && (tail == [] || tail[0] == HASH)
  }

  /** The checks of I2ParseKeyFile behind the identity. */
  method FindKey(buf: array<byte>, i: nat, ghost t: seq<byte>) returns (ok: bool, keystart: nat)
    requires HoldsString(buf[..], 0, t) && 0 !in t && i == WordLength(t)
    ensures ok <==> KeyShaped(AfterWord(t))
    ensures HoldsString(buf[..], keystart, AfterWord(t)) && 0 !in AfterWord(t)
  {
    hide WordLength, Leading, HoldsString;
    HoldsRest(buf[..], 0, t, i);
    keystart := SkipSpace(buf, i, t[i..]);
    ghost var code := AfterWord(t);
    HoldsRest(buf[..], i, t[i..], keystart - i);
    var at := SkipWord(buf, keystart, code);
    HoldsRest(buf[..], keystart, code, at - keystart);
    if at - keystart != 2 * KEY_LEN {
      return false, keystart;
    }
    ok := TrailingOk(buf, at, code[at - keystart..]);
  }

  /** The checks of I2ParseKeyFile on one line, in the order it makes them. */
  method ParseLine(buf: array<byte>, rbuf: array<byte>, kbuf: array<byte>, ghost line: seq<byte>)
    returns (ok: bool, n: nat)
    requires Holds(buf[..], line) && rbuf.Length == MAX_ID + 1 && kbuf.Length == KEY_LEN
    requires rbuf != buf && kbuf != buf && kbuf != rbuf
    modifies rbuf, kbuf
    ensures n <= MAX_ID && ParseRecord(line) == if ok then Some(Record(rbuf[..n], kbuf[..])) else None
    ensures ok ==> rbuf[n] == 0
  {
    ghost var t := CString(line);
    HoldsCString(buf[..], line);
    hide CString, WordLength, AfterWord, Decode, HoldsString, Holds;
    ok, n := false, 0;
    var i := CopyIdentity(buf, rbuf, t);
    if i > MAX_ID {
      return;
    }
    n := i;
    var found, keystart := FindKey(buf, i, t);
    if !found {
      return;
    }
    ok := HexDecode(buf, keystart, kbuf, 0, KEY_LEN, AfterWord(t));
    assert kbuf[0..0 + KEY_LEN] == kbuf[..];
  }

  /** strncpy: the string, and nuls behind it up to the size. */
  method StrNCpy(dst: array<byte>, s: seq<byte>)
    requires |s| <= dst.Length && 0 !in s
    modifies dst
    ensures dst[..] == s + Zeros(dst.Length - |s|)
  {
    forall i | 0 <= i < dst.Length {
      dst[i] := if i < |s| then s[i] else 0;
    }
    assert dst[..] == s + Zeros(dst.Length - |s|);
  }

  lemma NoNul(line: seq<byte>)
    ensures ParseRecord(line).Some? ==> 0 !in ParseRecord(line).value.id
  {
    hide CString, WordLength, AfterWord, Decode;
  }

  lemma StopsAt(s: seq<byte>, row: nat, query: Option<seq<byte>>)
    ensures var r, k := ScanLine(s, 0, row), ScanKeys(s, row, query);
            if !r.kind.Found? then k == KeyScan(r.Returned(), None, r.rest, r.out)
            else match ParseRecord(r.line)
                 case None => k == KeyScan(0 - r.rc, None, r.rest, r.out)
                 case Some(rec) =>
                   if query.Some? && !Matches(rec.id, query.value) then
                     k == ScanKeys(r.rest, r.rc, query).Prepend(r.out + CString(r.line) + [NL])
                   else k == KeyScan(r.rc, Some(rec), r.rest, r.out)
  {
    hide ScanLine, ParseRecord, CString, Matches;
  }

  /** One pass of the loop of I2ParseKeyFile. */
  method ParseRow(fp: InFile, row: nat, lbuf: LineBuf, tofp: OutFile?, query: Option<seq<byte>>,
                  rbuf: array<byte>, kbuf: array<byte>)
    returns (more: bool, ret: int, n: nat, ghost out: seq<byte>)
    requires fp.Valid() && rbuf.Length == MAX_ID + 1 && kbuf.Length == KEY_LEN
    requires rbuf != lbuf.buf && kbuf != lbuf.buf && kbuf != rbuf
    modifies fp, lbuf, lbuf.buf, tofp, rbuf, kbuf
    ensures fp.Valid() && (lbuf.buf == old(lbuf.buf) || fresh(lbuf.buf))
    ensures tofp != null ==> tofp.text == old(tofp.text) + out
    ensures more ==> 0 < ret && |fp.Rest()| < |old(fp.Rest())|
                     && ScanKeys(old(fp.Rest()), row, query) == ScanKeys(fp.Rest(), ret, query).Prepend(out)
    ensures n <= MAX_ID && (0 < ret ==> 0 !in rbuf[..n])
    ensures !more ==> ScanKeys(old(fp.Rest()), row, query)
                      == KeyScan(ret, if 0 < ret then Some(Record(rbuf[..n], kbuf[..])) else None, fp.Rest(), out)
  {
    hide ScanLine, ScanKeys, ParseRecord, CString, Matches;
    StopsAt(fp.Rest(), row, query);
    ScanShrinks(fp.Rest(), 0, row);
    ghost var r;
    more, n := false, 0;
    ret, r := ParseFileLine(fp, row, lbuf, tofp);
    out := r.out;
    if ret <= 0 {
      return;
    }
    var ok;
    ok, n := ParseLine(lbuf.buf, rbuf, kbuf, r.line);
    if !ok {
      ret := -ret;
      return;
    }
    NoNul(r.line);
    if query.Some? && !Matches(rbuf[..n], query.value) {
      if tofp != null {
        PutLine(tofp, lbuf.buf, r.line);
      }
      out := out + CString(r.line) + [NL];
      more := true;
    }
  }

  /** I2ParseKeyFile: rows are read until one has the record asked for, is no record, or is the
      last. The record goes to the buffers the caller gave. */
  method ParseKeyFile(fp: InFile?, row: nat, lbuf: LineBuf, tofp: OutFile?, query: Option<seq<byte>>,
                      idRet: array?<byte>, keyRet: array?<byte>)
    returns (ret: int, ghost k: KeyScan)
    requires fp != null ==> fp.Valid()
    requires idRet != null ==> idRet.Length == MAX_ID + 1 && idRet != lbuf.buf
    requires keyRet != null ==> keyRet.Length == KEY_LEN && keyRet != lbuf.buf && keyRet != idRet
    modifies fp, lbuf, lbuf.buf, tofp, idRet, keyRet
    ensures k == if fp == null then KeyScan(0, None, [], []) else ScanKeys(old(fp.Rest()), row, query)
    ensures ret == k.ret && (fp != null ==> fp.Valid() && fp.Rest() == k.rest)
    ensures tofp != null ==> tofp.text == old(tofp.text) + k.out
    ensures k.rec.Some? && idRet != null ==>
              |k.rec.value.id| <= 16 && idRet[..] == k.rec.value.id + Zeros(17 - |k.rec.value.id|)
    ensures k.rec.Some? && keyRet != null ==> keyRet[..] == k.rec.value.key
    ensures lbuf.buf == old(lbuf.buf) || fresh(lbuf.buf)
  {
    hide ScanKeys, Zeros;
    if fp == null {
      return 0, KeyScan(0, None, [], []);
    }
    var rbuf, kbuf := new byte[MAX_ID + 1], new byte[KEY_LEN];
    k := ScanKeys(fp.Rest(), row, query);
    ghost var out: seq<byte> := [];
    ret := row;
    var more, n: nat := true, 0;
    while more
      invariant fp.Valid() && (lbuf.buf == old(lbuf.buf) || fresh(lbuf.buf))
      invariant n <= MAX_ID && (!more && 0 < ret ==> 0 !in rbuf[..n])
      invariant more ==> ret >= 0 && k == ScanKeys(fp.Rest(), ret, query).Prepend(out)
      invariant !more ==> k == KeyScan(ret, if 0 < ret then Some(Record(rbuf[..n], kbuf[..])) else None, fp.Rest(), out)
      invariant tofp != null ==> tofp.text == old(tofp.text) + out
      invariant lbuf.buf != rbuf && lbuf.buf != kbuf && lbuf.buf != idRet && lbuf.buf != keyRet
      decreases more, |fp.Rest()|
    {
      ghost var o;
      more, ret, n, o := ParseRow(fp, ret, lbuf, tofp, query, rbuf, kbuf);
      KeyLines.PrependTwice(ScanKeys(fp.Rest(), if ret < 0 then 0 else ret, query), out, o);
      out := out + o;
    }
    if ret > 0 && idRet != null {
      StrNCpy(idRet, rbuf[..n]);
    }
    if ret > 0 && keyRet != null {
      CopyInto(keyRet, 0, kbuf[..]);
    }
  }

  // ---------------------------------------------------------------- I2WriteKeyLine

  /** I2WriteKeyLine, on a stream that does not fail. */
  method WriteKeyLine(fp: OutFile, id: Option<seq<byte>>, key: seq<byte>) returns (ret: int)
    requires |key| == KEY_LEN
    modifies fp
    ensures ret == if id.Some? && 0 < |id.value| <= 16 then 0 else -1
    ensures fp.text == old(fp.text) + if ret == 0 then id.value + [9] + Encode(key) + [10] else []
    ensures ret == 0 <==> id.Some? && Accepted(id.value)
    ensures ret == 0 ==> KeyLine(Record(id.value, key)) + [NL] == id.value + [9] + Encode(key) + [10]
  {
    hide Encode, CString;
    if id.None? || id.value == [] || |id.value| > MAX_ID {
      return -1;
    }
    var hbuf := new byte[2 * KEY_LEN + 1];
    HexEncode(hbuf, key);
    ghost var code := Encode(key);
    DigitsAreInk(key);
    assert hbuf[..] == code + [0];
    CStringInside(hbuf[..], code);
    fp.Put(id.value + [TAB] + CString(hbuf[..]) + [NL]);
    return 0;
  }

  // ---------------------------------------------------------------- the edit run

  lemma Overwritten(text: seq<byte>, was: seq<byte>)
    ensures text + Leftover(was, |text|) == text <==> |was| <= |text|
    ensures Leftover(was, |text|) == if |text| < |was| then was[|text|..] else []
  {
  }

  /** aespasswd from the first parse to the last: keyfile is null when it is to be created, and the
      passphrase has been digested to a key. */
  method EditText(fromfp: InFile?, tofp: OutFile, idname: seq<byte>, aeskey: seq<byte>, delete: bool)
    returns (ok: bool)
    requires |aeskey| == KEY_LEN && tofp.text == [] && (fromfp != null ==> fromfp.Valid())
    modifies fromfp, tofp
    ensures var run := KeyEdit.Edit(if fromfp == null then [] else old(fromfp.Rest()), Record(idname, aeskey), delete);
            ok == run.Done? && (ok ==> tofp.text == run.text)
  {
    hide ScanKeys, KeyLine;
    ghost var first, second;
    var rc;
    var lbuf := new LineBuf();
    KeyEdit.NothingToScan(0, Some(idname));
    rc, first := ParseKeyFile(fromfp, 0, lbuf, tofp, Some(idname), null, null);
    if rc < 0 {
      return false;
    }
    if delete {
      if rc == 0 {
        return false;
      }
    } else {
      var ret := WriteKeyLine(tofp, Some(idname), aeskey);
      if ret < 0 {
        return false;
      }
    }
    rc, second := ParseKeyFile(fromfp, rc, lbuf, tofp, Some(idname), null, null);
    return rc == 0;
  }

  /** The run on its files. The lock file it writes to may hold what an earlier run has left there; the
      result is the edited file if and only if that is not longer. */
  method EditRun(fromfp: InFile?, tofp: OutFile, idname: seq<byte>, aeskey: seq<byte>, delete: bool)
    returns (ok: bool)
    requires |aeskey| == KEY_LEN && tofp.text == [] && (fromfp != null ==> fromfp.Valid())
    modifies fromfp, tofp
    ensures var run := KeyEdit.Edit(if fromfp == null then [] else old(fromfp.Rest()), Record(idname, aeskey), delete);
            ok == run.Done?
            && (ok ==> tofp.text == run.text
                       && tofp.Content() == run.text + (if |run.text| < |tofp.was| then tofp.was[|run.text|..] else [])
                       && (tofp.Content() == run.text <==> |tofp.was| <= |run.text|))
  {
    hide KeyEdit.Edit, Leftover;
    ok := EditText(fromfp, tofp, idname, aeskey, delete);
    Overwritten(tofp.text, tofp.was);
  }
}
