/**
 Numbers as texts, without a scanner: a numeral is white space, at most one sign, and digits, each weighed by its
 position. The scanning functions recognise exactly these, and the printed form is the one without anything to spare.
 */
module Decimal {
  import opened CText

  // ---- Numerals ----

  predicate White(s: string) { forall i | 0 <= i < |s| :: s[i] == ' ' || '\t' <= s[i] <= '\r' }

  predicate Digits(s: string) { s != [] && forall i | 0 <= i < |s| :: '0' <= s[i] <= '9' }

  /** Every digit counts as often as its position from the right says. */
  function Weigh(s: string): int {
    if s == [] then 0 else (s[0] as int - '0' as int) * Pow10(|s| - 1) + Weigh(s[1..])
  }

  function Signed(sign: string, digits: string): int {
    if sign == "-" then -Weigh(digits) else Weigh(digits)
  }

  /** A text that starts with a numeral, cut into its pieces; `rest` does not go on with a digit. */
  predicate Numeral(text: string, space: string, sign: string, digits: string, rest: string) {
    && text == space + (sign + (digits + rest))
    && White(space) && (sign == "" || sign == "+" || sign == "-") && Digits(digits)
    && (rest == [] || rest[0] < '0' || '9' < rest[0])
  }

  /** The whole text is a numeral, leading zeros included, whose value `n` fits 64 bits. */
  ghost predicate Denotes(text: string, n: int) {
    && -0x8000_0000_0000_0000 <= n <= 0x7FFF_FFFF_FFFF_FFFF
    && exists space: string, sign: string, digits: string ::
         Numeral(text, space, sign, digits, []) && n == Signed(sign, digits)
  }

  /** The nearest 64-bit integer. */
  function Nearest(n: int): int {
    if n > 0x7FFF_FFFF_FFFF_FFFF then 0x7FFF_FFFF_FFFF_FFFF
    else if n < -0x8000_0000_0000_0000 then -0x8000_0000_0000_0000
    else n
  }

  /** A text starts with a numeral, whatever follows it, and `n` is nearest to its value; without one `n` is 0. */
  ghost predicate Reads(text: string, n: int) {
    if exists space: string, sign: string, digits: string, rest: string :: Numeral(text, space, sign, digits, rest)
    then exists space: string, sign: string, digits: string, rest: string ::
           Numeral(text, space, sign, digits, rest) && n == Nearest(Signed(sign, digits))
    else n == 0
  }

  /** Nothing to spare: no white space, no plus, no leading zeros, and no minus in front of zero. */
  predicate Canonical(s: string) {
    || s == "0"
    || (Digits(s) && s[0] != '0')
    || (s != [] && s[0] == '-' && Digits(s[1..]) && s[1] != '0')
  }

  // ---- The weight of digits ----

  lemma {:induction false} WeighLast(s: string, c: char)
    ensures Weigh(s + [c]) == Weigh(s) * 10 + (c as int - '0' as int)
  {
    if s == [] {
      assert s + [c] == [c] && Weigh([c][1..]) == 0 && Pow10(0) == 1;
    } else {
      assert (s + [c])[1..] == s[1..] + [c];
      WeighLast(s[1..], c);
      assert Pow10(|s|) == 10 * Pow10(|s| - 1);
    }
  }

  /** The value computed from the left is the sum of the weighed digits. */
  lemma {:induction false} ValueIsWeight(s: string)
    ensures DigitsValue(s) == Weigh(s)
  {
    if s != [] {
      var m := |s| - 1;
      assert s == s[..m] + [s[m]];
      ValueIsWeight(s[..m]);
      WeighLast(s[..m], s[m]);
    }
  }

  // ---- Scanning recognises exactly the numerals ----

  lemma {:induction false} WhiteIsBlank(s: string)
    ensures White(s) <==> Blank(s)
  {
    if s != [] {
      WhiteIsBlank(s[1..]);
      assert White(s) <==> IsSpace(s[0]) && White(s[1..]) by {
        if White(s[1..]) && IsSpace(s[0]) {
          forall i | 0 <= i < |s| ensures IsSpace(s[i]) {
            assert i == 0 || s[i] == s[1..][i - 1];
          }
        }
      }
    }
  }

  lemma {:induction false} AllAreDigits(s: string)
    requires AllDigits(s)
    ensures DigitRun(s) == |s|
  {
    if s != [] {
      AllAreDigits(s[1..]);
    }
  }

  lemma DigitsScanned(negative: bool, digits: string, rest: string)
    requires Digits(digits) && (rest == [] || !IsDigit(rest[0]))
    ensures ScanDigits(negative, digits + rest) == Number(if negative then -Weigh(digits) else Weigh(digits), rest)
  {
    ScanDigitsSplit(negative, digits, rest);
    AllAreDigits(digits);
    ValueIsWeight(digits);
    assert digits[..|digits|] == digits && digits[|digits|..] + rest == rest;
  }

  lemma NumeralScanned(text: string, space: string, sign: string, digits: string, rest: string)
    requires Numeral(text, space, sign, digits, rest)
    ensures ScanNumber(text) == Number(Signed(sign, digits), rest)
  {
    var s := sign + (digits + rest);
    WhiteIsBlank(space);
    SkipSpacesAppend(space, s);
    assert SkipSpaces(s) == s by { assert s[0] == if sign == "" then digits[0] else sign[0]; }
    DigitsScanned(sign == "-", digits, rest);
    if sign == "" {
      assert s == digits + rest && !IsSign(s[0]) by { assert s[0] == digits[0]; }
    } else {
      assert s[1..] == digits + rest;
    }
  }

  /** The pieces of what a scan has recognised. */
  lemma ScannedPieces(text: string) returns (space: string, sign: string, digits: string)
    requires ScanNumber(text).Number?
    ensures Numeral(text, space, sign, digits, ScanNumber(text).rest)
  {
    hide SkipSpaces, White, Digits, ScanDigits;
    var s := SkipSpaces(text);
    SkippedWhite(text);
    NothingScanned();
    space := text[..|text| - |s|];
    sign := if IsSign(s[0]) then [s[0]] else [];
    var t := if IsSign(s[0]) then s[1..] else s;
    digits := ScannedDigits(IsSign(s[0]) && s[0] == '-', t);
    assert s == sign + t;
  }

  lemma NothingScanned()
    ensures ScanDigits(false, []) == NoNumber
  {}

  lemma ScannedDigits(negative: bool, s: string) returns (digits: string)
    requires ScanDigits(negative, s).Number?
    ensures Digits(digits) && s == digits + ScanDigits(negative, s).rest
    ensures ScanDigits(negative, s).rest == [] || !IsDigit(ScanDigits(negative, s).rest[0])
  {
    digits := s[..DigitRun(s)];
  }

  lemma {:induction false} SkippedWhite(s: string)
    ensures |SkipSpaces(s)| <= |s| && SkipSpaces(s) == s[|s| - |SkipSpaces(s)|..]
    ensures White(s[..|s| - |SkipSpaces(s)|])
  {
    if s != [] && IsSpace(s[0]) {
      SkippedWhite(s[1..]);
      var n := |s| - |SkipSpaces(s)|;
      assert s[..n] == [s[0]] + s[1..][..n - 1];
    }
  }

  /** `strtoll` reads the numeral at the head of a text. */
  lemma StrToLLExact(text: string, n: int)
    ensures StrToLL(text) == n <==> Reads(text, n)
  {
    hide Numeral, ScanNumber, Signed;
    forall space, sign, digits, rest | Numeral(text, space, sign, digits, rest)
      ensures ScanNumber(text) == Number(Signed(sign, digits), rest)
    {
      NumeralScanned(text, space, sign, digits, rest);
    }
    if ScanNumber(text).Number? {
      var space, sign, digits := ScannedPieces(text);
    }
  }

  /** A text denotes a number if the scan takes all of it and the value fits. */
  lemma DenotesExact(text: string, n: int)
    ensures Denotes(text, n) <==> ScanNumber(text) == Number(n, []) && IsInt64(n)
  {
    hide Numeral, ScanNumber, Signed;
    forall space, sign, digits | Numeral(text, space, sign, digits, [])
      ensures ScanNumber(text) == Number(Signed(sign, digits), [])
    {
      NumeralScanned(text, space, sign, digits, []);
    }
    if ScanNumber(text) == Number(n, []) {
      var space, sign, digits := ScannedPieces(text);
      NumeralScanned(text, space, sign, digits, []);
    }
  }

  /** A text denotes one number at most, and `strtoll` reads it. */
  lemma DenotedOnce(text: string, n: int)
    requires Denotes(text, n)
    ensures StrToLL(text) == n
    ensures forall m: int :: Denotes(text, m) <==> m == n
  {
    hide Denotes, ScanNumber;
    DenotesExact(text, n);
    forall m: int ensures Denotes(text, m) <==> m == n {
      DenotesExact(text, m);
    }
  }

  // ---- Printing gives the canonical numeral ----

  lemma {:induction false} PrintNatCanonical(n: nat)
    requires n > 0
    ensures PrintNat(n)[0] != '0'
  {
    if n >= 10 {
      PrintNatCanonical(n / 10);
    }
  }

  lemma {:induction false} PrintNatOfValue(s: string)
    requires Digits(s) && s[0] != '0'
    ensures DigitsValue(s) > 0 && PrintNat(DigitsValue(s)) == s
  {
    var m := |s| - 1;
    if m == 0 {
      assert DigitsValue(s[..0]) == 0;
    } else {
      PrintNatOfValue(s[..m]);
      var d := s[m] as int - '0' as int;
      assert DigitsValue(s) == DigitsValue(s[..m]) * 10 + d;
      assert DigitsValue(s) / 10 == DigitsValue(s[..m]) && DigitsValue(s) % 10 == d;
      assert s == s[..m] + [Digit(d)];
    }
  }

  lemma PrintIsCanonical(n: int)
    ensures Canonical(Print(n))
  {
    if n != 0 {
      PrintNatCanonical(if n < 0 then -n else n);
    }
  }

  lemma CanonicalIsPrinted(s: string)
    requires Canonical(s)
    ensures ScanNumber(s).Number? && s == Print(ScanNumber(s).value)
  {
    if s == "0" {
      ScanPrinted(0, []);
      assert Print(0) + [] == s;
    } else if s[0] == '-' {
      PrintNatOfValue(s[1..]);
      var n := DigitsValue(s[1..]);
      ScanPrinted(-n, []);
      assert Print(-n) == ['-'] + s[1..] == s == s + [];
    } else {
      PrintNatOfValue(s);
      ScanPrinted(DigitsValue(s), []);
      assert s + [] == s;
    }
  }

  /** The printed form of a 64-bit integer is its one canonical numeral. */
  lemma PrintExact(n: int, s: string)
    requires IsInt64(n)
    ensures s == Print(n) <==> Canonical(s) && Denotes(s, n)
  {
    hide Print, Denotes, ScanNumber, Canonical;
    DenotesExact(s, n);
    if s == Print(n) {
      PrintIsCanonical(n);
      ScanPrinted(n, []);
      assert s + [] == s;
    } else if Canonical(s) {
      CanonicalIsPrinted(s);
    }
  }

  // ---- Cutting to fewer bits ----

  /** `m` is the 32-bit integer that differs from `n` by a multiple of 2^32. */
  predicate CutTo32(n: int, m: int) {
    -0x8000_0000 <= m <= 0x7FFF_FFFF && (n - m) % 0x1_0000_0000 == 0
  }

  lemma ToInt32Exact(n: int, m: int)
    ensures ToInt32(n) == m <==> CutTo32(n, m)
  {}
}
