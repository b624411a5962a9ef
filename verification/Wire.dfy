/** The wire format byte by byte: what is written for each kind of value, and what each kind of header line means. */
module Wire {
  import opened Wrappers
  import opened CText
  import opened Decimal
  import opened Resp

  // ---- Writing ----

  lemma WrittenText(s: string)
    ensures Write(SimpleString(s)) == "+" + s + "\r\n"
    ensures Write(Error(s)) == "-" + s + "\r\n"
  {}

  lemma WrittenNil()
    ensures Write(Nil) == "$-1\r\n"
  {
    assert Print(-1) == "-1";
  }

  /** Numbers are written as canonical numerals. */
  lemma WrittenNumbers(n: int, numeral: string, s: string, items: seq<Value>)
    requires IsInt64(n) && Canonical(numeral) && Denotes(numeral, n)
    ensures Write(Integer(n)) == ":" + numeral + "\r\n"
    ensures n == |s| ==> Write(BulkString(s)) == "$" + numeral + "\r\n" + s + "\r\n"
    ensures n == |items| ==> Write(Array(items)) == "*" + numeral + "\r\n" + WriteAll(items)
  {
    hide Print, Canonical, Denotes, WriteAll;
    PrintExact(n, numeral);
    if n == |s| {
      assert WriteBulk(s) == "$" + numeral + "\r\n" + s + "\r\n";
    }
  }

  // ---- Parsing ----

  /** Without the end of a header line a buffer is incomplete, whatever it starts with. */
  lemma NoLineEnd(buf: string, tail: Tail)
    requires forall i | 0 <= i && i + 1 < |buf| :: !(buf[i] == '\r' && buf[i + 1] == '\n')
    ensures Parse(buf, tail) == Incomplete
  {}

  /** A text that goes on for a whole header line, and what follows the line. */
  function Headed(kind: char, line: string, rest: string): string { [kind] + line + "\r\n" + rest }

  predicate OneLine(kind: char, line: string) {
    var s := [kind] + line;
    forall i | 0 <= i && i + 1 < |s| :: !(s[i] == '\r' && s[i + 1] == '\n')
  }

  lemma LineEnd(kind: char, line: string, rest: string)
    requires OneLine(kind, line)
    ensures var buf := Headed(kind, line, rest);
            FindCrlf(buf) == Some(|line| + 1) && buf[0] == kind && buf[1..|line| + 1] == line
            && buf[|line| + 3..] == rest
  {
    var buf := Headed(kind, line, rest);
    var s := [kind] + line;
    assert CrlfAt(buf, |line| + 1);
    forall j: nat | j < |line| + 1 ensures !CrlfAt(buf, j) {
      assert buf[j] == s[j];
      if j + 1 < |s| {
        assert buf[j + 1] == s[j + 1];
      } else {
        assert buf[j + 1] == '\r';
      }
    }
  }

  /** The lines without a number: strings and errors end at the line, and other kinds are refused. */
  lemma TextLine(kind: char, line: string, rest: string, tail: Tail)
    requires OneLine(kind, line)
    ensures var v := Parse(Headed(kind, line, rest), tail);
            && (kind == '+' ==> v == Complete(SimpleString(CutAtNul(line)), |line| + 3))
            && (kind == '-' ==> v == Complete(Error(CutAtNul(line)), |line| + 3))
            && (kind !in "+-:$*" ==> v == Malformed)
  {
    hide Headed, FindCrlf, NumberText, ParseNumbered;
    LineEnd(kind, line, rest);
  }

  lemma NumberLineVerdict(kind: char, line: string, rest: string, tail: Tail, num: int)
    requires OneLine(kind, line) && IsNumbered(kind) && !White(line) && Reads(line, num)
    ensures Parse(Headed(kind, line, rest), tail) == ParseNumbered(Headed(kind, line, rest), |line| + 3, num, tail)
  {
    hide Reads, ParseNumbered, FindCrlf, White, Blank, StrToLL, Headed;
    var buf := Headed(kind, line, rest);
    LineEnd(kind, line, rest);
    WhiteIsBlank(line);
    StrToLLExact(line, num);
    if tail.Seen? {
      SeenNumber(buf, |line| + 1, tail.bytes);
    }
  }

  /**
   The lines with a number that is not blank: an integer is the nearest of 64 bits; a length or count is cut to 32
   bits, -1 stands for NIL and what is below is refused; a bulk string has that many bytes and two more, whatever
   these are, and is cut at a NUL.
   */
  lemma NumberLine(kind: char, line: string, rest: string, tail: Tail, num: int, n: int)
    requires OneLine(kind, line) && !White(line) && Reads(line, num) && CutTo32(num, n)
    ensures var v := Parse(Headed(kind, line, rest), tail);
            && (kind == ':' ==> v == Complete(Integer(num), |line| + 3))
            && (kind == '$' || kind == '*' ==>
                  && (n == -1 ==> v == Complete(Nil, |line| + 3))
                  && (n < -1 ==> v == Malformed))
            && (kind == '$' && n >= 0 ==>
                  v == if |rest| < n + 2 then Incomplete
                       else Complete(BulkString(CutAtNul(rest[..n])), |line| + 3 + n + 2))
            && (kind == '*' && n == 0 ==> v == Complete(Array([]), |line| + 3))
  {
    hide Reads, FindCrlf, White, StrToLL, Headed, CutAtNul, Parse, ToInt32, CutTo32;
    if IsNumbered(kind) {
      var buf := Headed(kind, line, rest);
      LineEnd(kind, line, rest);
      NumberLineVerdict(kind, line, rest, tail, num);
      ToInt32Exact(num, n);
      HeadedLength(kind, line, rest);
      if kind == '$' && 0 <= n && n + 2 <= |rest| {
        assert buf[|line| + 3..|line| + 3 + n] == rest[..n];
      }
    }
  }

  lemma HeadedLength(kind: char, line: string, rest: string)
    ensures |Headed(kind, line, rest)| == |line| + 3 + |rest|
  {}

  /**
   An array with a count above zero is its first element followed by what the rest of it would be as an array of one
   element less; the first element that is not complete settles the verdict.
   */
  lemma ArrayLine(line: string, less: string, rest: string, tail: Tail, num: int, n: int)
    requires OneLine('*', line) && !White(line) && Reads(line, num) && CutTo32(num, n) && n > 0
    requires OneLine('*', less) && !White(less) && Reads(less, n - 1)
    ensures var v := Parse(Headed('*', line, rest), tail);
            var first := Parse(rest, tail);
            if !first.Complete? then v == first
            else
              var others := Parse(Headed('*', less, rest[first.consumed..]), tail);
              if !others.Complete? then v == others
              else
                && others.value.Array? && v.Complete? && v.value == Array([first.value] + others.value.items)
                && v.consumed - (|line| + 3) == first.consumed + others.consumed - (|less| + 3)
  {
    hide Reads, FindCrlf, White, StrToLL, Headed, Parse, ToInt32, CutTo32, OneLine;
    LineEnd('*', line, rest);
    NumberLineVerdict('*', line, rest, tail, num);
    ToInt32Exact(num, n);
    var first := Parse(rest, tail);
    if first.Complete? {
      var after := rest[first.consumed..];
      LineEnd('*', less, after);
      NumberLineVerdict('*', less, after, tail, n - 1);
      Cut32(n);
      ToInt32Exact(n - 1, n - 1);
    }
  }

  lemma Cut32(n: int)
    requires 0 < n && exists num: int :: CutTo32(num, n)
    ensures CutTo32(n - 1, n - 1)
  {}
}
