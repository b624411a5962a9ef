/**
 C strings and the C library's number conversions.

 A `char` stands for one C `char`, and a C string for the characters before its terminating NUL.
 `long` has 64 bits and `int` has 32 bits.
 */
module CText {
  const CRLF: string := "\r\n"
  const INT64_MAX: int := 0x7FFF_FFFF_FFFF_FFFF
  const INT64_MIN: int := -0x8000_0000_0000_0000
  const INT32_MAX: int := 0x7FFF_FFFF
  const INT32_MIN: int := -0x8000_0000

  predicate IsInt64(n: int) { INT64_MIN <= n <= INT64_MAX }

  predicate IsInt32(n: int) { INT32_MIN <= n <= INT32_MAX }

  /** The two's-complement reading of the low 32 bits. */
  function ToInt32(n: int): int {
    (n + 0x8000_0000) % 0x1_0000_0000 - 0x8000_0000
  }

  /** The two's-complement reading of the low 64 bits. */
  function ToInt64(n: int): int {
    (n + 0x8000_0000_0000_0000) % 0x1_0000_0000_0000_0000 - 0x8000_0000_0000_0000
  }

  // ---- NUL-terminated strings ----

  predicate IsCString(s: string) { '\0' !in s }

  /** What `strlen`, `strdup` and `strndup` see of a stretch of memory. */
  function CutAtNul(s: string): (r: string)
    ensures IsCString(r)
    ensures r <= s
    ensures IsCString(s) ==> r == s
    ensures |r| < |s| ==> s[|r|] == '\0'
  {
    if s == [] || s[0] == '\0' then [] else [s[0]] + CutAtNul(s[1..])
  }

  // ---- Reading numbers ----

  predicate IsSpace(c: char) { c == ' ' || '\t' <= c <= '\r' }

  predicate IsDigit(c: char) { '0' <= c <= '9' }

  function SkipSpaces(s: string): (r: string)
    ensures r != [] ==> !IsSpace(r[0])
  {
    if s != [] && IsSpace(s[0]) then SkipSpaces(s[1..]) else s
  }

  /** The length of the longest prefix of digits. */
  function DigitRun(s: string): (n: nat)
    ensures n <= |s|
    ensures forall i | 0 <= i < n :: IsDigit(s[i])
    ensures n < |s| ==> !IsDigit(s[n])
  {
    if s != [] && IsDigit(s[0]) then 1 + DigitRun(s[1..]) else 0
  }

  predicate AllDigits(s: string) { forall i | 0 <= i < |s| :: IsDigit(s[i]) }

  function DigitsValue(s: string): int {
    if s == [] then 0 else DigitsValue(s[..|s| - 1]) * 10 + (s[|s| - 1] as int - '0' as int)
  }

  predicate IsSign(c: char) { c == '+' || c == '-' }

  datatype Number = NoNumber | Number(value: int, rest: string)

  /** The digits at the head of `s`, as a number of the given sign, and what follows them. */
  function ScanDigits(negative: bool, s: string): Number {
    var n := DigitRun(s);
    if n == 0 then NoNumber
    else
      var magnitude := DigitsValue(s[..n]);
      Number(if negative then -magnitude else magnitude, s[n..])
  }

  /** The number at the head of a text, as the C library recognises it, and what follows it. */
  function ScanNumber(text: string): Number {
    ScanSigned(SkipSpaces(text))
  }

  function ScanSigned(s: string): Number {
    if s != [] && IsSign(s[0]) then ScanDigits(s[0] == '-', s[1..]) else ScanDigits(false, s)
  }

  /** The value `strtoll` returns: 0 without digits, saturated when out of range. */
  function StrToLL(text: string): (v: int)
    ensures IsInt64(v)
  {
    match ScanNumber(text)
    case NoNumber => 0
    case Number(v, _) => if v > INT64_MAX then INT64_MAX else if v < INT64_MIN then INT64_MIN else v
  }

  /** `atoi` is `strtol` cut to 32 bits. */
  function Atoi(text: string): int { ToInt32(StrToLL(text)) }

  // ---- Printing numbers ----

  function Digit(n: nat): (c: char)
    requires n < 10
    ensures IsDigit(c) && c as int - '0' as int == n
  {
    (n + '0' as int) as char
  }

  function PrintNat(n: nat): (s: string)
    ensures s != [] && AllDigits(s)
  {
    if n < 10 then [Digit(n)] else PrintNat(n / 10) + [Digit(n % 10)]
  }

  /** `%lld`, `%zu` and `%d`. */
  function Print(n: int): (s: string)
    ensures s != []
    ensures if n < 0 then s[0] == '-' && |s| > 1 && AllDigits(s[1..]) else AllDigits(s)
  {
    if n < 0 then ['-'] + PrintNat(-n) else PrintNat(n)
  }

  // ---- Print and scan are inverse ----

  lemma {:induction false} PrintNatValue(n: nat)
    ensures DigitsValue(PrintNat(n)) == n
  {
    if n < 10 {
    } else {
      PrintNatValue(n / 10);
      var s := PrintNat(n);
      assert s[..|s| - 1] == PrintNat(n / 10);
    }
  }

  lemma {:induction false} DigitRunSplit(s: string, x: string)
    requires x == [] || !IsDigit(x[0])
    ensures DigitRun(s + x) == DigitRun(s)
  {
    if s == [] {
      assert s + x == x;
    } else {
      assert (s + x)[1..] == s[1..] + x;
      DigitRunSplit(s[1..], x);
    }
  }

  lemma ScanDigitsSplit(negative: bool, s: string, x: string)
    requires x == [] || !IsDigit(x[0])
    ensures ScanDigits(negative, s + x) ==
            match ScanDigits(negative, s)
            case NoNumber => NoNumber
            case Number(v, rest) => Number(v, rest + x)
  {
    DigitRunSplit(s, x);
    var n := DigitRun(s);
    assert (s + x)[..n] == s[..n];
    assert (s + x)[n..] == s[n..] + x;
  }

  lemma ScanPrintedNat(negative: bool, n: nat, x: string)
    requires x == [] || !IsDigit(x[0])
    ensures ScanDigits(negative, PrintNat(n) + x) == Number(if negative then -(n as int) else n, x)
  {
    var digits := PrintNat(n);
    ScanDigitsSplit(negative, digits, x);
    assert digits[..|digits|] == digits;
    PrintNatValue(n);
    assert digits[|digits|..] + x == x;
  }

  /** A printed number is read back, whatever non-digit follows it. */
  lemma ScanPrinted(n: int, x: string)
    requires x == [] || !IsDigit(x[0])
    ensures ScanNumber(Print(n) + x) == Number(n, x)
  {
    if n < 0 {
      ScanPrintedNegative(-n, x);
      assert Print(n) == ['-'] + PrintNat(-n);
    } else {
      ScanPrintedNonNegative(n, x);
    }
  }

  lemma ScanPrintedNonNegative(n: nat, x: string)
    requires x == [] || !IsDigit(x[0])
    ensures ScanNumber(PrintNat(n) + x) == Number(n, x)
  {
    var s := PrintNat(n) + x;
    ScanPrintedNat(false, n, x);
    assert SkipSpaces(s) == s by { assert IsDigit(s[0]); }
  }

  lemma ScanPrintedNegative(n: nat, x: string)
    requires x == [] || !IsDigit(x[0])
    ensures ScanNumber(['-'] + PrintNat(n) + x) == Number(-(n as int), x)
  {
    var s := ['-'] + PrintNat(n) + x;
    assert s[1..] == PrintNat(n) + x;
    ScanPrintedNat(true, n, x);
    assert SkipSpaces(s) == s;
  }

  lemma {:induction false} StrToLLPrinted(n: int, x: string)
    requires IsInt64(n)
    requires x == [] || !IsDigit(x[0])
    ensures StrToLL(Print(n) + x) == n
  {
    ScanPrinted(n, x);
  }

  lemma ToInt32Identity(n: int)
    requires IsInt32(n)
    ensures ToInt32(n) == n
  {}

  lemma ToInt64Identity(n: int)
    requires IsInt64(n)
    ensures ToInt64(n) == n
  {}

  // ---- How long a printed number is ----

  function Pow10(k: nat): nat { if k == 0 then 1 else 10 * Pow10(k - 1) }

  lemma {:induction false} PrintNatLength(n: nat, k: nat)
    requires k > 0 && n < Pow10(k)
    ensures |PrintNat(n)| <= k
    decreases k
  {
    if n >= 10 {
      PrintNatLength(n / 10, k - 1);
    }
  }

  // ---- A header line's number field ----

  /** Nothing but white space: `strtoll` then reads on past the end of the line. */
  predicate Blank(field: string) { SkipSpaces(field) == [] }

  lemma {:induction false} SkipSpacesAppend(s: string, x: string)
    ensures SkipSpaces(s + x) == if Blank(s) then SkipSpaces(x) else SkipSpaces(s) + x
  {
    if s == [] {
      assert s + x == x;
    } else if IsSpace(s[0]) {
      assert (s + x)[1..] == s[1..] + x;
      SkipSpacesAppend(s[1..], x);
    } else {
    }
  }

  lemma NonBlankFieldIsLocal(field: string, rest: string)
    requires !Blank(field)
    ensures StrToLL(field + CRLF + rest) == StrToLL(field)
  {
    var x := CRLF + rest;
    assert field + CRLF + rest == field + x;
    SkipSpacesAppend(field, x);
    var s := SkipSpaces(field);
    ScanSignedSplit(s, x);
  }

  lemma ScanSignedSplit(s: string, x: string)
    requires s != []
    requires x == [] || !IsDigit(x[0])
    ensures ScanSigned(s + x) ==
            match ScanSigned(s)
            case NoNumber => NoNumber
            case Number(v, rest) => Number(v, rest + x)
  {
    if IsSign(s[0]) {
      assert (s + x)[1..] == s[1..] + x;
      ScanDigitsSplit(s[0] == '-', s[1..], x);
    } else {
      ScanDigitsSplit(false, s, x);
    }
  }

  lemma BlankFieldReadsOn(field: string, rest: string)
    requires Blank(field)
    ensures StrToLL(field + CRLF + rest) == StrToLL(rest)
  {
    SkipBlankLine(field, rest);
    SameNumber(field + CRLF + rest, rest);
  }

  lemma SkipBlankLine(field: string, rest: string)
    requires Blank(field)
    ensures SkipSpaces(field + CRLF + rest) == SkipSpaces(rest)
  {
    var lf := ['\n'] + rest;
    assert field + CRLF + rest == field + (['\r'] + lf);
    SkipSpacesAppend(field, ['\r'] + lf);
    SkipOneSpace('\r', lf);
    SkipOneSpace('\n', rest);
  }

  lemma SameNumber(a: string, b: string)
    requires SkipSpaces(a) == SkipSpaces(b)
    ensures StrToLL(a) == StrToLL(b)
  {}

  lemma SkipOneSpace(c: char, s: string)
    requires IsSpace(c)
    ensures SkipSpaces([c] + s) == SkipSpaces(s)
  {
    assert ([c] + s)[1..] == s;
  }

  /**
   The number in a header line is decided by the line alone exactly when the field is not blank;
   otherwise the bytes after the line take part.
   */
  lemma NumberFieldIsLocalIffNonBlank(field: string)
    ensures (forall rest: string :: StrToLL(field + CRLF + rest) == StrToLL(field)) <==> !Blank(field)
  {
    if Blank(field) {
      BlankFieldReadsOn(field, "7");
      StrToLLPrinted(7, []);
      assert Print(7) + [] == "7";
      assert StrToLL(field + CRLF + "7") == 7;
      assert StrToLL(field) == 0;
    } else {
      forall rest: string ensures StrToLL(field + CRLF + rest) == StrToLL(field) {
        NonBlankFieldIsLocal(field, rest);
      }
    }
  }

  /** A number ends at a NUL. */
  lemma NumberEndsAtNul(text: string, rest: string)
    ensures StrToLL(text + ['\0'] + rest) == StrToLL(text)
  {
    var x := ['\0'] + rest;
    assert text + ['\0'] + rest == text + x;
    SkipSpacesAppend(text, x);
    if Blank(text) {
      assert SkipSpaces(x) == x;
    } else {
      ScanSignedSplit(SkipSpaces(text), x);
    }
  }
}
