/** I2StrToNum and I2StrToByte of conf.c: decimal numbers with a scale suffix, in 64 bits. */
module Numbers {
  import opened Octets
  import Hex

  /** What a call leaves the caller with; Undefined where the C code divides by zero. */
  datatype Outcome = Accepted(value: nat) | Rejected | Undefined

  predicate IsDigit(c: byte) {
    48 <= c <= 57
  }

  predicate AllDigits(s: seq<byte>) {
    forall k :: 0 <= k < |s| ==> IsDigit(s[k])
  }

  function Decimal(s: seq<byte>): nat
    requires AllDigits(s)
  {
    if s == [] then 0 else 10 * Decimal(s[..|s| - 1]) + (s[|s| - 1] - 48) as nat
  }

  function Power(base: nat, n: nat): nat {
    if n == 0 then 1 else base * Power(base, n - 1)
  }

  /** How many times the fall-through switch scales for a suffix: k, m, g, t, p, e, z in either
      case; 0 for any other character. */
  function Level(c: byte): (n: nat)
    ensures n <= 7
  {
    var a := Hex.Lower(c);
    if a == 107 then 1 else if a == 109 then 2 else if a == 103 then 3 else if a == 116 then 4
    else if a == 112 then 5 else if a == 101 then 6 else if a == 122 then 7 else 0
  }

  /** A number as both functions read it: digits, and at most one suffix character. */
  predicate Numeral(s: seq<byte>) {
    AllDigits(s) || (AllDigits(s[..|s| - 1]) && 0 < Level(s[|s| - 1]))
  }

  function Mantissa(s: seq<byte>): nat
    requires Numeral(s)
  {
    if AllDigits(s) then Decimal(s) else Decimal(s[..|s| - 1])
  }

  function Scale(s: seq<byte>): (n: nat)
    requires Numeral(s)
    ensures n <= 7
  {
    if AllDigits(s) then 0 else Level(s[|s| - 1])
  }

  /** What the number means: its scaled value if that fits 64 bits. */
  function Meaning(s: seq<byte>, base: nat): Outcome {
    if !Numeral(s) then Rejected else
      var v := Mantissa(s) * Power(base, Scale(s));
      if v < TWO_64 then Accepted(v) else Rejected
  }

  /** uint64_t multiplication. */
  function Times64(x: nat, y: nat): nat {
    x * y % TWO_64
  }

  /** The multiplier after the fall-through switch. */
  function Multiplier(base: nat, level: nat): nat {
    if level == 0 then 1 else Times64(Multiplier(base, level - 1), base)
  }

  /** strtoull, which saturates. */
  function Saturated(v: nat): nat {
    if v < TWO_64 then v else TWO_64 - 1
  }

  /** The divide-back test catches every wrap, and nothing else. */
  lemma DivideBack(r: nat, mult: nat)
    requires 0 < mult
    ensures Times64(r, mult) / mult == r <==> r * mult < TWO_64
  {
    var p, q := r * mult, r * mult / TWO_64;
    assert p == TWO_64 * q + Times64(r, mult);
    if p < TWO_64 {
      Cancel(r, mult);
    } else {
      var d := Times64(r, mult) / mult;
      assert d * mult <= Times64(r, mult) < p;
      assert d == r ==> d * mult == p;
    }
  }

  lemma Cancel(r: nat, m: nat)
    requires 0 < m
    ensures r * m / m == r
  {
    var d := r * m / m;
    assert d * m <= r * m < (d + 1) * m;
    assert d < r ==> (d + 1) * m <= r * m;
    assert r < d ==> (r + 1) * m <= d * m;
  }

  /** What the code makes of a string: the wrapped product, tested by dividing back. */
  function Computed(s: seq<byte>, base: nat): Outcome {
    if !Numeral(s) then Rejected else
      var r, mult := Saturated(Mantissa(s)), Multiplier(base, Scale(s));
      if r == 0 then Accepted(0)
      else if mult == 0 then Undefined
      else if Times64(r, mult) / mult != r then Rejected
      else Accepted(Times64(r, mult))
  }

  /** I2StrToNum with base 1000, I2StrToByte with base 1024: count the digits, look at what
      follows, scale, convert, multiply and divide back. */
  method StrToScaled(s: seq<byte>, base: nat) returns (r: Outcome)
    requires base == 1000 || base == 1024
    ensures r == Computed(s, base)
  {
    var silen := 0;
    while silen < |s| && IsDigit(s[silen])
      invariant silen <= |s| && AllDigits(s[..silen])
    {
      silen := silen + 1;
    }
    DigitsThenRest(s, silen);
    var mult := 1;
    if |s| != silen {
      if |s| - silen > 1 {
        return Rejected;
      }
      var level := Level(s[silen]);
      if level == 0 {
        return Rejected;
      }
      var i := 0;
      while i < level
        invariant 0 <= i <= level && mult == Multiplier(base, i)
      {
        mult := Times64(mult, base);
        i := i + 1;
      }
    }
    var ret := Saturated(Decimal(s[..silen]));
    if ret == 0 {
      return Accepted(0);
    }
    var limnum: int := Times64(ret, mult);
    if mult == 0 {
      return Undefined;
    }
    return if limnum / mult != ret then Rejected else Accepted(limnum);
  }

  /** The digits at the front of a string decide whether it is a numeral. */
  lemma DigitsThenRest(s: seq<byte>, n: nat)
    requires n <= |s| && AllDigits(s[..n]) && (n < |s| ==> !IsDigit(s[n]))
    ensures AllDigits(s) <==> n == |s|
    ensures Numeral(s) <==> n == |s| || (n + 1 == |s| && 0 < Level(s[n]))
    ensures Numeral(s) ==> Mantissa(s) == Decimal(s[..n]) && Scale(s) == if n == |s| then 0 else Level(s[n])
  {
    hide IsDigit, Level;
    if n == |s| {
      assert s[..n] == s;
    } else {
      assert !AllDigits(s);
      if n + 1 < |s| {
        assert s[..|s| - 1][n] == s[n];
        assert !AllDigits(s[..|s| - 1]);
      } else {
        assert s[..|s| - 1] == s[..n];
      }
    }
  }

  /** Up to the suffix e the multiplier is the scale itself; with z it leaves 64 bits. */
  lemma Multipliers(level: nat)
    requires level <= 7
    ensures level <= 6 ==> Multiplier(1000, level) == Power(1000, level)
    ensures level <= 6 ==> Multiplier(1024, level) == Power(1024, level)
    ensures level == 7 ==> Multiplier(1000, level) == 3875820019684212736 && Multiplier(1024, level) == 0
    ensures 0 < level ==> 1000 <= Power(1000, level) && 1024 <= Power(1024, level)
    ensures level == 7 ==> TWO_64 <= Power(1000, level) && TWO_64 <= Power(1024, level)
    ensures level == 0 ==> Power(1000, level) == 1 == Power(1024, level)
    ensures level <= 6 ==> Power(1000, level) < TWO_64 && Power(1024, level) < TWO_64
  {
    assert Power(1000, 1) == 1000 && Power(1024, 1) == 1024;
    assert Power(1000, 2) == 1000000 && Power(1024, 2) == 1048576;
    assert Power(1000, 3) == 1000000000 && Power(1024, 3) == 1073741824;
    assert Power(1000, 4) == 1000000000000 && Power(1024, 4) == 1099511627776;
    assert Power(1000, 5) == 1000000000000000 && Power(1024, 5) == 1125899906842624;
    assert Power(1000, 6) == 1000000000000000000 && Power(1024, 6) == 1152921504606846976;
    assert Power(1000, 7) == 1000000000000000000000 && Power(1024, 7) == 1180591620717411303424;
    assert Multiplier(1000, 1) == 1000 && Multiplier(1024, 1) == 1024;
    assert Multiplier(1000, 2) == 1000000 && Multiplier(1024, 2) == 1048576;
    assert Multiplier(1000, 3) == 1000000000 && Multiplier(1024, 3) == 1073741824;
    assert Multiplier(1000, 4) == 1000000000000 && Multiplier(1024, 4) == 1099511627776;
    assert Multiplier(1000, 5) == 1000000000000000 && Multiplier(1024, 5) == 1125899906842624;
    assert Multiplier(1000, 6) == 1000000000000000000 && Multiplier(1024, 6) == 1152921504606846976;
  }

  /** With an exact multiplier, saturation is caught by the same test. */
  lemma Product(v: nat, mult: nat)
    requires 0 < v && 2 <= mult
    ensures Times64(Saturated(v), mult) / mult == Saturated(v) <==> v * mult < TWO_64
    ensures v * mult < TWO_64 ==> Saturated(v) == v && Times64(v, mult) == v * mult
  {
    DivideBack(Saturated(v), mult);
    assert v <= v * mult;
    assert TWO_64 <= 2 * (TWO_64 - 1) <= (TWO_64 - 1) * mult;
    if TWO_64 <= v {
      assert (TWO_64 - 1) * mult <= v * mult;
    }
  }

  lemma BigScale(v: nat, scale: nat)
    requires 0 < v && TWO_64 <= scale
    ensures TWO_64 <= v * scale
  {
  }

  lemma Unscaled(v: nat)
    ensures Times64(Saturated(v), 1) == Saturated(v)
  {
  }

  /** I2StrToNum gives every string its meaning, but for digits alone that leave 64 bits (they
      saturate) and for the suffix z after a number from 1 to 4 (the wrapped multiplier fits). */
  lemma NumExact(s: seq<byte>)
    ensures Computed(s, 1000) == Meaning(s, 1000)
            <==> !(Numeral(s) && ((Scale(s) == 0 && TWO_64 <= Mantissa(s)) || (Scale(s) == 7 && 1 <= Mantissa(s) <= 4)))
  {
    hide Numeral, Mantissa, Scale, Multiplier, Power;
    if Numeral(s) {
      var v, level := Mantissa(s), Scale(s);
      Multipliers(level);
      if v > 0 {
        if level == 0 {
          Unscaled(v);
        } else if level <= 6 {
          Product(v, Multiplier(1000, level));
        } else {
          BigScale(v, Power(1000, level));
          DivideBack(Saturated(v), 3875820019684212736);
        }
      }
    }
  }

  /** I2StrToByte likewise; there the multiplier of z wraps to 0, so that every number but 0
      leads to a division by zero. */
  lemma ByteExact(s: seq<byte>)
    ensures Computed(s, 1024) == Meaning(s, 1024)
            <==> !(Numeral(s) && ((Scale(s) == 0 && TWO_64 <= Mantissa(s)) || (Scale(s) == 7 && 1 <= Mantissa(s))))
    ensures Computed(s, 1024) == Undefined <==> Numeral(s) && Scale(s) == 7 && 1 <= Mantissa(s)
    ensures Computed(s, 1000) != Undefined
  {
    hide Numeral, Mantissa, Scale, Multiplier, Power;
    if Numeral(s) {
      var v, level := Mantissa(s), Scale(s);
      Multipliers(level);
      if v > 0 {
        if level == 0 {
          Unscaled(v);
        } else if level <= 6 {
          Product(v, Multiplier(1024, level));
        } else {
          BigScale(v, Power(1024, level));
        }
      }
    }
  }

  // ---------------------------------------------------------------- every string

  /** What digits mean. */
  lemma DecimalIs(d: seq<byte>, c: byte)
    requires AllDigits(d) && 48 <= c <= 57
    ensures AllDigits([]) && Decimal([]) == 0
    ensures AllDigits(d + [c]) && Decimal(d + [c]) == 10 * Decimal(d) + (c - 48) as int
  {
    assert (d + [c])[..|d|] == d;
    assert forall k :: 0 <= k < |d| ==> IsDigit(d[k]);
  }

  lemma AllDigitsIs(d: seq<byte>)
    ensures AllDigits(d) <==> forall k :: 0 <= k < |d| ==> 48 <= d[k] <= 57
  {
  }

  /** A scaled value, if it fits 64 bits. */
  function Fitting(v: nat): Outcome {
    if v < 0x1_0000_0000_0000_0000 then Accepted(v) else Rejected
  }

  lemma FittingIs(v: nat)
    ensures Fitting(v) == if v < 18446744073709551616 then Accepted(v) else Rejected
  {
  }

  /** Digits alone: the number, or the largest one of 64 bits. */
  lemma NoSuffix(d: seq<byte>, base: nat)
    requires AllDigits(d)
    ensures Computed(d, base)
            == Accepted(if Decimal(d) < 0x1_0000_0000_0000_0000 then Decimal(d) else 0xFFFF_FFFF_FFFF_FFFF)
  {
    assert Numeral(d) && Mantissa(d) == Decimal(d) && Scale(d) == 0 && Multiplier(base, 0) == 1;
    hide Numeral, Mantissa, Scale, Multiplier, Decimal;
    Unscaled(Decimal(d));
  }

  /** Something behind the first character that is no digit: rejected. */
  lemma TooLong(d: seq<byte>, c: byte, rest: seq<byte>, base: nat)
    requires AllDigits(d) && !(48 <= c <= 57) && rest != []
    ensures Computed(d + [c] + rest, base) == Rejected
  {
    var s := d + [c] + rest;
    assert s[..|d|] == d && s[|d|] == c;
    DigitsThenRest(s, |d|);
  }

  /** Digits and a suffix in I2StrToNum: k, m, g, t, p and e in either case are the powers of 1000; z is not, and
      wraps; every other character is rejected. */
  lemma NumSuffix(d: seq<byte>, c: byte)
    requires AllDigits(d) && !(48 <= c <= 57)
    ensures var v := Decimal(d);
            Computed(d + [c], 1000)
            == if c == 107 || c == 75 then Fitting(v * 1000)
               else if c == 109 || c == 77 then Fitting(v * 1000000)
               else if c == 103 || c == 71 then Fitting(v * 1000000000)
               else if c == 116 || c == 84 then Fitting(v * 1000000000000)
               else if c == 112 || c == 80 then Fitting(v * 1000000000000000)
               else if c == 101 || c == 69 then Fitting(v * 1000000000000000000)
               else if c == 122 || c == 90 then
                 if v <= 4 then Accepted(v * 3875820019684212736) else Rejected
               else Rejected
  {
    Suffixes(c);
    WithSuffix(d, c, 1000);
    hide Computed, Decimal, Level, Fitting;
    if Level(c) == 7 {
      WithZ(d, c, Decimal(d));
    } else if 0 < Level(c) {
      Scaled(d, c, 1000, Decimal(d), Level(c));
      Powers();
    }
  }

  /** The same in I2StrToByte, with powers of 1024; z makes it divide by zero, but for the number 0. */
  lemma ByteSuffix(d: seq<byte>, c: byte)
    requires AllDigits(d) && !(48 <= c <= 57)
    ensures var v := Decimal(d);
            Computed(d + [c], 1024)
            == if c == 107 || c == 75 then Fitting(v * 1024)
               else if c == 109 || c == 77 then Fitting(v * 1048576)
               else if c == 103 || c == 71 then Fitting(v * 1073741824)
               else if c == 116 || c == 84 then Fitting(v * 1099511627776)
               else if c == 112 || c == 80 then Fitting(v * 1125899906842624)
               else if c == 101 || c == 69 then Fitting(v * 1152921504606846976)
               else if c == 122 || c == 90 then
                 if v == 0 then Accepted(0) else Undefined
               else Rejected
  {
    Suffixes(c);
    WithSuffix(d, c, 1024);
    hide Computed, Decimal, Level, Fitting;
    if Level(c) == 7 {
      WithZByte(d, c, Decimal(d));
    } else if 0 < Level(c) {
      Scaled(d, c, 1024, Decimal(d), Level(c));
      Powers();
    }
  }

  lemma Suffixes(c: byte)
    ensures Level(c) == if c == 107 || c == 75 then 1 else if c == 109 || c == 77 then 2
                        else if c == 103 || c == 71 then 3 else if c == 116 || c == 84 then 4
                        else if c == 112 || c == 80 then 5
                        else if c == 101 || c == 69 then 6 else if c == 122 || c == 90 then 7 else 0
  {
  }

  lemma WithSuffix(d: seq<byte>, c: byte, base: nat)
    requires AllDigits(d) && !(48 <= c <= 57)
    ensures Level(c) == 0 ==> Computed(d + [c], base) == Rejected
    ensures 0 < Level(c) ==> Numeral(d + [c]) && Mantissa(d + [c]) == Decimal(d) && Scale(d + [c]) == Level(c)
  {
    var s := d + [c];
    assert s[..|d|] == d && s[|d|] == c;
    DigitsThenRest(s, |d|);
    hide Level, Decimal, Mantissa, Scale;
  }

  lemma Scaled(d: seq<byte>, c: byte, base: nat, v: nat, level: nat)
    requires Numeral(d + [c]) && Mantissa(d + [c]) == v && Scale(d + [c]) == level && 0 < level <= 6
    requires base == 1000 || base == 1024
    ensures Computed(d + [c], base) == Fitting(v * Power(base, level))
  {
    Multipliers(level);
    var mult := Multiplier(base, level);
    if 0 < v {
      Product(v, mult);
    }
    hide Numeral, Mantissa, Scale, Multiplier, Power;
  }

  lemma WithZ(d: seq<byte>, c: byte, v: nat)
    requires Numeral(d + [c]) && Mantissa(d + [c]) == v && Scale(d + [c]) == 7
    ensures Computed(d + [c], 1000) == if v <= 4 then Accepted(v * 3875820019684212736) else Rejected
  {
    Multipliers(7);
    hide Numeral, Mantissa, Scale, Multiplier, Power;
    if 0 < v {
      DivideBack(Saturated(v), 3875820019684212736);
      SmallProduct(Saturated(v));
    }
  }

  lemma SmallProduct(r: nat)
    requires 0 < r
    ensures r * 3875820019684212736 < TWO_64 <==> r <= 4
    ensures r <= 4 ==> Times64(r, 3875820019684212736) == r * 3875820019684212736
  {
  }

  lemma WithZByte(d: seq<byte>, c: byte, v: nat)
    requires Numeral(d + [c]) && Mantissa(d + [c]) == v && Scale(d + [c]) == 7
    ensures Computed(d + [c], 1024) == if v == 0 then Accepted(0) else Undefined
  {
    Multipliers(7);
    hide Numeral, Mantissa, Scale, Multiplier, Power;
  }

  lemma Powers()
    ensures Power(1000, 1) == 1000 && Power(1000, 2) == 1000000 && Power(1000, 3) == 1000000000
    ensures Power(1000, 4) == 1000000000000 && Power(1000, 5) == 1000000000000000
    ensures Power(1000, 6) == 1000000000000000000
    ensures Power(1024, 1) == 1024 && Power(1024, 2) == 1048576 && Power(1024, 3) == 1073741824
    ensures Power(1024, 4) == 1099511627776 && Power(1024, 5) == 1125899906842624
    ensures Power(1024, 6) == 1152921504606846976
  {
  }

  /** "1z" is accepted with a wrong value by one function and traps in the other. */
  lemma OneZ()
    ensures Computed([49, 122], 1000) == Accepted(3875820019684212736) && Meaning([49, 122], 1000) == Rejected
    ensures Computed([49, 122], 1024) == Undefined
  {
    var d: seq<byte> := [49];
    OneDigit();
    assert d + [122] == [49, 122];
    NumSuffix(d, 122);
    ByteSuffix(d, 122);
    WithSuffix(d, 122, 1000);
    Suffixes(122);
    hide *;
    BigMeaning(d + [122]);
  }

  lemma OneDigit()
    ensures AllDigits([49]) && Decimal([49]) == 1
  {
    var none: seq<byte> := [];
    DecimalIs(none, 49);
    assert none + [49] == [49];
  }

  lemma BigMeaning(s: seq<byte>)
    requires Numeral(s) && Mantissa(s) == 1 && Scale(s) == 7
    ensures Meaning(s, 1000) == Rejected
  {
    Multipliers(7);
    hide Numeral, Mantissa, Scale, Power;
  }
}
