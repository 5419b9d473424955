/** What FlagValue::ParseFrom accepts, stated against a grammar that does not scan, and the
    printer/parser round trip. */
module ValueProofs {
  import opened Text
  import opened Values

  // ----- The grammar -----

  predicate Decimal(s: string) {
    s != "" && AllDigits(s, 10)
  }

  /** `s` is an optionally signed decimal number with sign `negative` and absolute value `m`. */
  predicate SignedDecimal(s: string, negative: bool, m: nat) {
    var digits := s[SignLength(s)..];
    && negative == (s != "" && s[0] == '-')
    && Decimal(digits)
    && m == Magnitude(digits, 10)
  }

  /** `s` is 0x or 0X followed by hexadecimal digits denoting `m`. */
  predicate Hexadecimal(s: string, m: nat) {
    HasHexPrefix(s) && |s| > 2 && AllDigits(s[2..], 16) && m == Magnitude(s[2..], 16)
  }

  predicate SpaceFree(s: string) {
    forall i | 0 <= i < |s| :: !IsSpace(s[i])
  }

  /** The mathematical integers a space-free text may denote for a signed or an unsigned flag. */
  predicate Denotes(s: string, signed: bool, x: int) {
    || (x >= 0 && Hexadecimal(s, x))
    || (x >= 0 && SignedDecimal(s, false, x))
    || (signed && x <= 0 && SignedDecimal(s, true, -x))
  }

  // ----- The scanner meets the grammar -----

  lemma DigitRunAll(s: string, base: nat)
    ensures DigitRun(s, base) == |s| <==> AllDigits(s, base)
  {
  }

  lemma ScanDecimal(s: string, m: nat, negative: bool)
    requires s != ""
    ensures ScanSubject(s, 10) == Subject(|s|, negative, m) <==>
            SignedDecimal(SkipSpace(s), negative, m)
  {
    var t := SkipSpace(s);
    var u := t[SignLength(t)..];
    DigitRunAll(u, 10);
    ScannedDecimal(s);
    hide ScanSubject, DigitRun, Magnitude, AllDigits, SkipSpace;
    assert u[..|u|] == u;
  }

  lemma ScannedDecimal(s: string)
    ensures var t := SkipSpace(s);
            var u := t[SignLength(t)..];
            var n := DigitRun(u, 10);
            ScanSubject(s, 10) ==
              if n == 0 then Subject(0, false, 0)
              else Subject(|s| - |t| + SignLength(t) + n, t[0] == '-', Magnitude(u[..n], 10))
  {
    hide DigitRun, Magnitude, SkipSpace;
    var t := SkipSpace(s);
    var u := t[SignLength(t)..];
    assert u[0..] == u;
  }

  lemma ScanHexadecimal(s: string, m: nat, negative: bool)
    requires HasHexPrefix(s)
    ensures ScanSubject(s, 16) == Subject(|s|, negative, m) <==> !negative && Hexadecimal(s, m)
  {
    assert !IsSpace(s[0]) && SkipSpace(s) == s && s[0..] == s;
    var v := s[2..];
    DigitRunAll(v, 16);
    assert v[..|v|] == v;
    if |s| == 2 || DigitValue(s[2]) >= 16 {
      assert s[0..][0..] == s && s[1..][0] == s[1];
      assert DigitRun(s[1..], 16) == 0;
      assert DigitRun(s, 16) == 1;
    }
  }

  lemma HexNotDecimal(s: string)
    requires HasHexPrefix(s)
    ensures forall neg, m :: !SignedDecimal(s, neg, m)
  {
    assert DigitValue(s[1]) == 16;
  }

  // ----- Exact acceptance, for every text -----

  lemma StrToInt64Exact(s: string, base: nat, x: int)
    ensures StrToInt64(s, base) == Some(x) <==>
              && -0x8000_0000_0000_0000 <= x < 0x8000_0000_0000_0000
              && (|| (x >= 0 && ScanSubject(s, base) == Subject(|s|, false, x))
                  || (x <= 0 && ScanSubject(s, base) == Subject(|s|, true, -x)))
  {
  }

  lemma StrToUint64Exact(s: string, base: nat, x: int)
    ensures StrToUint64(s, base) == Some(x) <==>
              && 0 <= x < 0x1_0000_0000_0000_0000
              && (|| ScanSubject(s, base) == Subject(|s|, false, x)
                  || ScanSubject(s, base) == Subject(|s|, true, (0x1_0000_0000_0000_0000 - x) % 0x1_0000_0000_0000_0000))
  {
  }

  /** Signed integers: leading white space is skipped, but hides a hexadecimal prefix. */
  lemma SignedExact(s: string, x: int)
    ensures ParseSigned(s) == Some(x) <==>
              && -0x8000_0000_0000_0000 <= x < 0x8000_0000_0000_0000
              && if HasHexPrefix(s) then x >= 0 && Hexadecimal(s, x)
                 else || (x >= 0 && SignedDecimal(SkipSpace(s), false, x))
                      || (x <= 0 && SignedDecimal(SkipSpace(s), true, -x))
  {
    var m := if x < 0 then -x else x;
    StrToInt64Exact(s, BaseOf(s), x);
    if HasHexPrefix(s) {
      ScanHexadecimal(s, m, false);
      ScanHexadecimal(s, m, true);
    } else if s != "" {
      ScanDecimal(s, m, false);
      ScanDecimal(s, m, true);
    }
  }

  /** Unsigned integers: only blanks are stripped before the test for '-'. What remains may be
      empty, which reads as 0, or start with another white-space character, behind which strtoull
      does accept a minus sign and wraps around. */
  lemma UnsignedExact(s: string, x: int)
    ensures ParseUnsigned(s) == Some(x) <==>
              && s != ""
              && 0 <= x < 0x1_0000_0000_0000_0000
              && var u := SkipBlanks(s);
                 if HasHexPrefix(s) then Hexadecimal(s, x)
                 else if u == "" then x == 0
                 else && u[0] != '-'
                      && (|| SignedDecimal(SkipSpace(u), false, x)
                          || SignedDecimal(SkipSpace(u), true, (0x1_0000_0000_0000_0000 - x) % 0x1_0000_0000_0000_0000))
  {
    var u := SkipBlanks(s);
    StrToUint64Exact(u, BaseOf(s), x);
    if 0 <= x < 0x1_0000_0000_0000_0000 {
      if HasHexPrefix(s) {
        ScanHexadecimal(s, x, false);
        ScanHexadecimal(s, (0x1_0000_0000_0000_0000 - x) % 0x1_0000_0000_0000_0000, true);
      } else if u != "" {
        ScanDecimal(u, x, false);
        ScanDecimal(u, (0x1_0000_0000_0000_0000 - x) % 0x1_0000_0000_0000_0000, true);
      }
    }
  }

  /** On space-free text every integer type accepts exactly the numbers of its range, with no
      minus sign for the unsigned types and no octal reading of leading zeros. */
  lemma IntegerExact(s: string, x: int)
    requires SpaceFree(s)
    ensures -0x8000_0000 <= x < 0x8000_0000 ==>
              (ParseValue(FvInt32, s) == Some(Int32Value(x)) <==> Denotes(s, true, x))
    ensures -0x8000_0000_0000_0000 <= x < 0x8000_0000_0000_0000 ==>
              (ParseValue(FvInt64, s) == Some(Int64Value(x)) <==> Denotes(s, true, x))
    ensures 0 <= x < 0x1_0000_0000 ==>
              (ParseValue(FvUint32, s) == Some(Uint32Value(x)) <==> Denotes(s, false, x))
    ensures 0 <= x < 0x1_0000_0000_0000_0000 ==>
              (ParseValue(FvUint64, s) == Some(Uint64Value(x)) <==> Denotes(s, false, x))
  {
    SpaceFreeSkips(s);
    if HasHexPrefix(s) { HexNotDecimal(s); }
    SignedExact(s, x);
    UnsignedExact(s, x);
  }

  /** A text that denotes a number out of a type's range is refused. */
  lemma OutOfRange(s: string, x: int)
    requires SpaceFree(s) && Denotes(s, true, x)
    ensures !(-0x8000_0000 <= x < 0x8000_0000) ==> ParseValue(FvInt32, s) == None
    ensures !(-0x8000_0000_0000_0000 <= x < 0x8000_0000_0000_0000) ==> ParseValue(FvInt64, s) == None
    ensures !(0 <= x < 0x1_0000_0000) ==> ParseValue(FvUint32, s) == None
    ensures !(0 <= x < 0x1_0000_0000_0000_0000) ==> ParseValue(FvUint64, s) == None
  {
    SpaceFreeSkips(s);
    if HasHexPrefix(s) { HexNotDecimal(s); }
    if ParseSigned(s).Some? { SignedExact(s, ParseSigned(s).value); }
    if ParseUnsigned(s).Some? { UnsignedExact(s, ParseUnsigned(s).value); }
    hide SpaceFree, HasHexPrefix, Hexadecimal, SignLength, AllDigits, Magnitude, SkipSpace, SkipBlanks, ParseSigned,
      ParseUnsigned;
    if ParseSigned(s).Some? { OneNumber(s, x, ParseSigned(s).value); }
    if ParseUnsigned(s).Some? { OneNumber(s, x, ParseUnsigned(s).value); }
  }

  /** A text denotes one number at most. */
  lemma OneNumber(s: string, x: int, y: int)
    requires Denotes(s, true, x) && Denotes(s, true, y)
    ensures x == y
  {
    if HasHexPrefix(s) { HexNotDecimal(s); }
  }

  lemma SpaceFreeSkips(s: string)
    requires SpaceFree(s)
    ensures SkipSpace(s) == s && SkipBlanks(s) == s
  {
  }

  lemma {:induction false} SkipBlanksThenSpace(s: string)
    ensures SkipSpace(SkipBlanks(s)) == SkipSpace(s)
    ensures s != "" && s[0] == '0' ==> SkipBlanks(s) == s
  {
    if s != "" && s[0] == ' ' { SkipBlanksThenSpace(s[1..]); }
  }

  lemma NegativeDecimal(t: string, negative: bool, m: nat)
    requires t != "" && t[0] == '-'
    ensures SignedDecimal(t, negative, m) <==>
              negative && Decimal(t[1..]) && m == Magnitude(t[1..], 10)
  {
  }

  /** A text whose first visible character is '-' should never be an unsigned number. It is one
      exactly when that sign does not follow directly on the leading blanks, some other white-space
      character coming between, and decimal digits in range follow; the value wraps around. */
  lemma NegativeUnsigned(s: string, x: int)
    requires var t := SkipSpace(s); t != "" && t[0] == '-'
    ensures ParseUnsigned(s) == Some(x) <==>
              && 0 <= x < 0x1_0000_0000_0000_0000
              && !SignFollowsBlanks(s)
              && Decimal(SkipSpace(s)[1..])
              && Magnitude(SkipSpace(s)[1..], 10) == (0x1_0000_0000_0000_0000 - x) % 0x1_0000_0000_0000_0000
  {
    SkipBlanksThenSpace(s);
    UnsignedExact(s, x);
    if 0 <= x < 0x1_0000_0000_0000_0000 {
      NegativeDecimal(SkipSpace(s), false, x);
      NegativeDecimal(SkipSpace(s), true, (0x1_0000_0000_0000_0000 - x) % 0x1_0000_0000_0000_0000);
    }
  }

  /** The guard of the refusing branch: the sign is the first character after the blanks. */
  predicate SignFollowsBlanks(s: string) {
    SkipBlanks(s) != "" && SkipBlanks(s)[0] == '-'
  }

  /** The two surprising acceptances, on concrete texts. */
  lemma UnsignedSurprises()
    ensures ParseValue(FvUint32, "  ") == Some(Uint32Value(0))
    ensures ParseValue(FvUint64, [9 as char, '-', '5']) == Some(Uint64Value(0x1_0000_0000_0000_0000 - 5))
  {
    assert SkipBlanks("  "[1..]) == "";
    UnsignedExact("  ", 0);
    var s := [9 as char, '-', '5'];
    assert SkipBlanks(s) == s;
    assert s[1..] == "-5" && SkipSpace("-5") == "-5" && SkipSpace(s) == "-5";
    assert "-5"[1..] == "5" && Magnitude("5", 10) == 5 by { assert "5"[..0] == ""; }
    assert SignedDecimal("-5", true, 5);
    UnsignedExact(s, 0x1_0000_0000_0000_0000 - 5);
  }

  // ----- Printing, then parsing -----

  lemma {:induction false} PrintNatDenotes(n: nat)
    ensures Magnitude(PrintNat(n), 10) == n
  {
    var p := PrintNat(n);
    if n < 10 {
      assert p[..|p| - 1] == "";
    } else {
      PrintNatDenotes(n / 10);
      assert p[..|p| - 1] == PrintNat(n / 10);
    }
  }

  lemma PrintIntDenotes(x: int)
    ensures SpaceFree(PrintInt(x)) && Denotes(PrintInt(x), true, x)
    ensures x >= 0 ==> Denotes(PrintInt(x), false, x)
  {
    var d := PrintNat(if x < 0 then -x else x);
    PrintNatDenotes(if x < 0 then -x else x);
    DigitsVisible(d);
    hide PrintNat, Magnitude, AllDigits, SpaceFree, Hexadecimal;
    if x < 0 {
      assert PrintInt(x) == "-" + d && PrintInt(x)[1..] == d;
    } else {
      assert PrintInt(x) == d && d[0..] == d;
    }
  }

  /** Decimal digits, with a sign or without, are free of white space and begin with no sign of their own. */
  lemma DigitsVisible(d: string)
    requires d != "" && AllDigits(d, 10)
    ensures SpaceFree(d) && SpaceFree("-" + d) && SignLength(d) == 0 && d[0] != '-'
  {
    assert DigitValue(d[0]) < 10;
    assert forall i | 0 < i < |d| + 1 :: ("-" + d)[i] == d[i - 1];
  }

  /** Parsing what was printed, through c_str(), gives back every value of every type, except exactly the
      strings that contain NUL. */
  lemma ParsePrinted(v: Value)
    ensures ParseValue(TypeOf(v), CStr(ToString(v))) == Some(v) <==> (v.StringValue? ==> NUL !in v.s)
  {
    ParsePrintedText(v);
    if !v.StringValue? { PrintedHasNoNul(v); }
    hide ParseValue, ToString;
    if v.StringValue? { PrintedString(v.s); }
  }

  /** Truth values are printed as words, numbers in decimal with a sign only if negative, strings as they are. */
  lemma PrintedForms(v: Value)
    ensures v.BoolValue? ==> ToString(v) == if v.b then "true" else "false"
    ensures v.Int64Value? && v.i64 >= 0 ==> ToString(v) == ToString(Uint64Value(v.i64))
    ensures v.Int64Value? && v.i64 < 0 ==> ToString(v) == var m: int := v.i64; "-" + ToString(Uint64Value(-m))
    ensures v.Int32Value? ==> ToString(v) == ToString(Int64Value(v.i32))
    ensures v.Uint32Value? ==> ToString(v) == ToString(Uint64Value(v.u32))
    ensures v.Uint64Value? ==> ToString(v) == PrintNat(v.u64)
    ensures v.StringValue? ==> ToString(v) == v.s
  {
  }

  /** What stands behind a NUL is lost. */
  lemma NulIsLost()
    ensures var v := StringValue(['a', NUL, 'b']);
            ParseValue(TypeOf(v), CStr(ToString(v))) == Some(StringValue("a"))
  {
    var s := ['a', NUL, 'b'];
    assert s[1..][0] == NUL;
    assert IndexOf(s, NUL) == 1;
    assert s[..1] == "a";
  }

  lemma PrintedString(s: string)
    ensures ToString(StringValue(s)) == s
    ensures ParseValue(FvString, CStr(s)) == Some(StringValue(CStr(s)))
  {
  }

  lemma PrintedHasNoNul(v: Value)
    requires !v.StringValue?
    ensures NUL !in ToString(v)
  {
    match v
    case BoolValue(_) =>
    case Int32Value(x) => IntHasNoNul(x);
    case Uint32Value(x) => IntHasNoNul(x);
    case Int64Value(x) => IntHasNoNul(x);
    case Uint64Value(x) => IntHasNoNul(x);
  }

  lemma IntHasNoNul(x: int)
    ensures NUL !in PrintInt(x)
  {
    assert DigitValue(NUL) == 16;
  }

  lemma ParsePrintedText(v: Value)
    ensures ParseValue(TypeOf(v), ToString(v)) == Some(v)
  {
    match v
    case BoolValue(b) =>
      assert EqualIgnoringCase("true", TRUE_WORDS[2]);
      assert EqualIgnoringCase("false", FALSE_WORDS[2]);
      forall i | 0 <= i < 5 ensures !EqualIgnoringCase("false", TRUE_WORDS[i]) {
        assert |TRUE_WORDS[i]| != 5;
      }
    case StringValue(_) =>
    case Int32Value(x) => PrintIntDenotes(x); IntegerExact(PrintInt(x), x);
    case Uint32Value(x) => PrintIntDenotes(x); IntegerExact(PrintInt(x), x);
    case Int64Value(x) => PrintIntDenotes(x); IntegerExact(PrintInt(x), x);
    case Uint64Value(x) => PrintIntDenotes(x); IntegerExact(PrintInt(x), x);
  }

  // ----- The digits and words themselves -----

  const DIGITS: string := "0123456789abcdef"
  const CAPITALS: string := "0123456789ABCDEF"

  /** The sixteen digits and their values; no other character is one. */
  lemma DigitTable(c: char)
    ensures forall d | 0 <= d < 16 :: DigitValue(DIGITS[d]) == d && DigitValue(CAPITALS[d]) == d
    ensures c !in DIGITS && c !in CAPITALS ==> DigitValue(c) >= 16
  {
    if '0' <= c <= '9' {
      assert DIGITS[c as int - '0' as int] == c;
    } else if 'a' <= c <= 'f' {
      assert DIGITS[c as int - 'a' as int + 10] == c;
    } else if 'A' <= c <= 'F' {
      assert CAPITALS[c as int - 'A' as int + 10] == c;
    }
  }

  /** Positional notation, in the values that are read: one more digit behind a numeral. */
  lemma Positional(ds: string, d: nat)
    requires d < 16
    ensures Magnitude(ds + [DIGITS[d]], 16) == Magnitude(ds + [CAPITALS[d]], 16) == 16 * Magnitude(ds, 16) + d
    ensures d < 10 ==> Magnitude(ds + [DIGITS[d]], 10) == 10 * Magnitude(ds, 10) + d
    ensures Magnitude("", 16) == Magnitude("", 10) == 0
  {
    DigitTable('0');
    OneMoreDigit(ds, DIGITS[d]);
    OneMoreDigit(ds, CAPITALS[d]);
    hide Magnitude, DigitValue;
    NoDigits();
  }

  lemma NoDigits()
    ensures Magnitude("", 16) == Magnitude("", 10) == 0
  {
  }

  lemma OneMoreDigit(ds: string, c: char)
    ensures Magnitude(ds + [c], 16) == 16 * Magnitude(ds, 16) + DigitValue(c)
    ensures Magnitude(ds + [c], 10) == 10 * Magnitude(ds, 10) + DigitValue(c)
  {
    hide DigitValue;
    assert (ds + [c])[..|ds|] == ds;
  }

  /** And in those that are printed. */
  lemma PrintedPositional(d: nat, n: nat)
    requires d < 10
    ensures PrintNat(d) == [DIGITS[d]]
    ensures n > 0 ==> PrintNat(10 * n + d) == PrintNat(n) + [DIGITS[d]]
  {
    DigitCharacter(d);
    assert (10 * n + d) / 10 == n && (10 * n + d) % 10 == d;
  }

  lemma DigitCharacter(d: nat)
    requires d < 10
    ensures DIGITS[d] == (d + '0' as int) as char
  {
  }

  /** A sign, or none, before decimal digits; leading zeros change nothing. */
  lemma DecimalText(ds: string, m: int)
    requires ds != "" && AllDigits(ds, 10) && m == Magnitude(ds, 10)
    ensures m < 0x8000_0000_0000_0000 ==>
      ParseValue(FvInt64, ds) == ParseValue(FvInt64, "+" + ds) == Some(Int64Value(m))
    ensures m <= 0x8000_0000_0000_0000 ==> ParseValue(FvInt64, "-" + ds) == Some(Int64Value(-m))
    ensures Magnitude("0" + ds, 10) == m
  {
    hide ParseValue, Magnitude, AllDigits;
    NumeralFree(ds);
    SignsDenote(ds, m);
    IntegerExact(ds, m);
    IntegerExact("+" + ds, m);
    IntegerExact("-" + ds, -m);
    ZeroFirst(ds);
  }

  lemma SignsDenote(ds: string, m: int)
    requires ds != "" && AllDigits(ds, 10) && m == Magnitude(ds, 10) && ds[0] != '+' && ds[0] != '-'
    ensures Denotes(ds, true, m) && Denotes("+" + ds, true, m) && Denotes("-" + ds, true, -m)
  {
    hide Magnitude, AllDigits;
    assert ("+" + ds)[1..] == ds && ("-" + ds)[1..] == ds && ds[0..] == ds;
  }

  lemma NumeralFree(ds: string)
    requires AllDigits(ds, 10)
    ensures SpaceFree(ds) && SpaceFree("+" + ds) && SpaceFree("-" + ds)
    ensures ds != "" ==> ds[0] != '+' && ds[0] != '-'
  {
    assert forall i | 0 <= i < |ds| :: DigitValue(ds[i]) < 10;
  }

  lemma {:induction false} ZeroFirst(ds: string)
    ensures Magnitude("0" + ds, 10) == Magnitude(ds, 10)
  {
    if ds == "" {
      assert ("0" + ds)[..0] == "" && "0" + ds == "0";
    } else {
      var n := |ds| - 1;
      assert ("0" + ds)[..n + 1] == "0" + ds[..n] && ("0" + ds)[n + 1] == ds[n];
      ZeroFirst(ds[..n]);
    }
  }

  /** 0x or 0X before hexadecimal digits. */
  lemma HexadecimalText(hs: string)
    requires hs != "" && AllDigits(hs, 16)
    ensures var m := Magnitude(hs, 16);
            && (m < 0x8000_0000_0000_0000 ==>
                  ParseValue(FvInt64, "0x" + hs) == ParseValue(FvInt64, "0X" + hs) == Some(Int64Value(m)))
            && (m < 0x1_0000_0000_0000_0000 ==>
                  ParseValue(FvUint64, "0x" + hs) == ParseValue(FvUint64, "0X" + hs) == Some(Uint64Value(m)))
  {
    var m := Magnitude(hs, 16);
    assert ("0x" + hs)[2..] == hs && ("0X" + hs)[2..] == hs;
    HexFree(hs);
    IntegerExact("0x" + hs, m);
    IntegerExact("0X" + hs, m);
  }

  lemma HexFree(hs: string)
    requires AllDigits(hs, 16)
    ensures SpaceFree("0x" + hs) && SpaceFree("0X" + hs)
  {
    assert forall i | 0 <= i < |hs| :: DigitValue(hs[i]) < 16;
  }

  /** `s` is one of five words, whatever the case of its letters. */
  predicate OneOf(s: string, a: string, b: string, c: string, d: string, e: string) {
    || EqualIgnoringCase(s, a) || EqualIgnoringCase(s, b) || EqualIgnoringCase(s, c)
    || EqualIgnoringCase(s, d) || EqualIgnoringCase(s, e)
  }

  /** The words for true and for false; every other text is refused. */
  lemma BoolWords(s: string)
    ensures ParseValue(FvBool, s) == Some(BoolValue(true)) <==> OneOf(s, "1", "t", "true", "y", "yes")
    ensures ParseValue(FvBool, s) == Some(BoolValue(false)) <==> OneOf(s, "0", "f", "false", "n", "no")
  {
    AmongFive(s, "1", "t", "true", "y", "yes");
    AmongFive(s, "0", "f", "false", "n", "no");
    DifferentWords(s);
    hide EqualIgnoringCase;
  }

  lemma AmongFive(s: string, a: string, b: string, c: string, d: string, e: string)
    ensures Among(s, [a, b, c, d, e]) <==> OneOf(s, a, b, c, d, e)
  {
    hide EqualIgnoringCase;
    var words := [a, b, c, d, e];
    assert words[0] == a && words[1] == b && words[2] == c && words[3] == d && words[4] == e;
  }

  lemma DifferentWords(s: string)
    ensures OneOf(s, "0", "f", "false", "n", "no") ==> !OneOf(s, "1", "t", "true", "y", "yes")
  {
    if OneOf(s, "0", "f", "false", "n", "no") {
      FirstLetter(s, "0");
      FirstLetter(s, "f");
      FirstLetter(s, "false");
      FirstLetter(s, "n");
      FirstLetter(s, "no");
      FirstLetter(s, "1");
      FirstLetter(s, "t");
      FirstLetter(s, "true");
      FirstLetter(s, "y");
      FirstLetter(s, "yes");
    }
  }

  lemma FirstLetter(s: string, word: string)
    requires word != ""
    ensures EqualIgnoringCase(s, word) ==> s != "" && ToLower(s[0]) == ToLower(word[0])
  {
  }
}
