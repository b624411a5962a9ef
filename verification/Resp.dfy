/**
 The RESP2 wire format: values, their written form, and the restartable parser.

 The parser is run again from the start of the buffer whenever bytes arrive, so what matters is how its
 verdict on a buffer relates to its verdict on a longer one.
 */
module Resp {
  import opened Wrappers
  import opened CText

  datatype Value =
    | SimpleString(text: string)
    | Error(text: string)
    | Integer(num: int)
    | BulkString(text: string)
    | Array(items: seq<Value>)
    | Nil

  // ---- Writing ----

  function WriteHeader(kind: char, n: int): string { [kind] + Print(n) + CRLF }

  function WriteBulk(s: string): string { WriteHeader('$', |s|) + (s + CRLF) }

  function Write(v: Value): string
    decreases v, 0
  {
    match v
    case SimpleString(s) => ['+'] + s + CRLF
    case Error(s) => ['-'] + s + CRLF
    case Integer(n) => WriteHeader(':', n)
    case BulkString(s) => WriteBulk(s)
    case Array(items) => WriteHeader('*', |items|) + WriteAll(items)
    case Nil => WriteHeader('$', -1)
  }

  function WriteAll(vs: seq<Value>): string
    decreases vs, 1
  {
    if vs == [] then [] else Write(vs[0]) + WriteAll(vs[1..])
  }

  // ---- Formatted lines ----

  const SCRATCH_SIZE: nat := 128

  /** What `snprintf` leaves of a text as a C string in a buffer of `size` bytes. */
  function Stored(text: string, size: nat): (r: string)
    requires size > 0
    ensures r <= text && |r| < size
  {
    if |text| < size then text else text[..size - 1]
  }

  /**
   A formatted line goes through a scratch buffer of 128 bytes, of which as many bytes are copied as the line has.
   A longer line is cut, and its NUL and the memory `behind` the scratch buffer are copied in place of its end.
   */
  function Formatted(line: string, behind: nat -> char): (r: string)
    ensures |r| == |line|
    ensures |line| < SCRATCH_SIZE ==> r == line
  {
    if |line| < SCRATCH_SIZE then line
    else Stored(line, SCRATCH_SIZE) + ['\0'] + seq(|line| - SCRATCH_SIZE, i requires 0 <= i => behind(i))
  }

  /** Texts as bulk strings. */
  function Bulks(items: seq<string>): (vs: seq<Value>)
    ensures |vs| == |items| && forall i | 0 <= i < |vs| :: vs[i] == BulkString(items[i])
  {
    seq(|items|, i requires 0 <= i < |items| => BulkString(items[i]))
  }

  // ---- Parsing ----

  predicate CrlfAt(s: string, i: nat) { i + 1 < |s| && s[i] == '\r' && s[i + 1] == '\n' }

  /** The position of the first CRLF. */
  function FindCrlf(buf: string): (r: Option<nat>)
    ensures r.Some? ==> CrlfAt(buf, r.value) && forall j: nat | j < r.value :: !CrlfAt(buf, j)
    ensures r.None? ==> forall j: nat :: !CrlfAt(buf, j)
  {
    if |buf| < 2 then None
    else if CrlfAt(buf, 0) then Some(0)
    else
      var r := FindCrlf(buf[1..]);
      assert forall j: nat | j > 0 && CrlfAt(buf, j) :: CrlfAt(buf[1..], j - 1);
      if r.None? then None else Some(1 + r.value)
  }

  /**
   The bytes in memory behind the buffer. `strtoll` is not told where the buffer ends, so when a number
   field is blank it skips the line end and converts whatever follows.
   */
  datatype Tail = Unseen | Seen(bytes: string)

  /** `Ambiguous`: a blank number field whose value depends on bytes behind the header line. */
  datatype Verdict = Incomplete | Malformed | Ambiguous | Complete(value: Value, consumed: nat)

  /** The text a number conversion gets to see in a header line ending at `k`, if that settles its value. */
  function NumberText(buf: string, k: nat, tail: Tail): Option<string>
    requires 1 <= k <= |buf|
  {
    if tail.Seen? then Some(buf[1..] + tail.bytes)
    else if Blank(buf[1..k]) then None
    else Some(buf[1..k])
  }

  predicate IsNumbered(kind: char) { kind == ':' || kind == '$' || kind == '*' }

  function Parse(buf: string, tail: Tail): (v: Verdict)
    ensures v.Complete? ==> 3 <= v.consumed <= |buf|
    ensures v.Ambiguous? ==> tail.Unseen?
    decreases |buf|, 0
  {
    match FindCrlf(buf)
    case None => Incomplete
    case Some(k) =>
      if buf[0] == '+' then Complete(SimpleString(CutAtNul(buf[1..k])), k + 2)
      else if buf[0] == '-' then Complete(Error(CutAtNul(buf[1..k])), k + 2)
      else if IsNumbered(buf[0]) then
        match NumberText(buf, k, tail)
        case None => Ambiguous
        case Some(t) => ParseNumbered(buf, k + 2, StrToLL(t), tail)
      else Malformed
  }

  /** The rest of a value whose header line ends before `c` and holds the number `num`. */
  function ParseNumbered(buf: string, c: nat, num: int, tail: Tail): (v: Verdict)
    requires 3 <= c <= |buf|
    ensures v.Complete? ==> 3 <= v.consumed <= |buf|
    ensures v.Ambiguous? ==> tail.Unseen?
    decreases |buf| - c, 2
  {
    var n := ToInt32(num);
    if buf[0] == ':' then Complete(Integer(num), c)
    else if n == -1 then Complete(Nil, c)
    else if n < 0 then Malformed
    else if buf[0] == '$' then ParseBulk(buf, c, n)
    else Shift(ParseItems(buf[c..], n, tail), c)
  }

  function ParseBulk(buf: string, c: nat, n: nat): Verdict
    requires c <= |buf|
  {
    if c + n + 2 > |buf| then Incomplete
    else Complete(BulkString(CutAtNul(buf[c..c + n])), c + n + 2)
  }

  function Shift(v: Verdict, c: nat): Verdict {
    if v.Complete? then Complete(v.value, c + v.consumed) else v
  }

  /** The next `count` values of the buffer, as an array value. */
  function ParseItems(buf: string, count: nat, tail: Tail): (v: Verdict)
    ensures v.Complete? ==> v.value.Array? && |v.value.items| == count && 3 * count <= v.consumed <= |buf|
    ensures v.Ambiguous? ==> tail.Unseen?
    decreases |buf|, 1
  {
    if count == 0 then Complete(Array([]), 0)
    else
      var first := Parse(buf, tail);
      if !first.Complete? then first
      else Prepend(first.value, first.consumed, ParseItems(buf[first.consumed..], count - 1, tail))
  }

  function Prepend(v: Value, n: nat, items: Verdict): Verdict
    requires items.Complete? ==> items.value.Array?
  {
    if items.Complete? then Complete(Array([v] + items.value.items), n + items.consumed) else items
  }

  // ---- Stability of verdicts ----

  lemma FindCrlfExtends(buf: string, ext: string)
    requires FindCrlf(buf).Some?
    ensures FindCrlf(buf + ext) == FindCrlf(buf)
  {
    var k := FindCrlf(buf).value;
    assert CrlfAt(buf + ext, k);
    assert forall j: nat | j < k && CrlfAt(buf + ext, j) :: CrlfAt(buf, j);
  }

  /** Any verdict but `Incomplete` is final: more bytes change neither it, nor the value, nor the length. */
  lemma {:induction false} ParseStable(buf: string, ext: string)
    requires !Parse(buf, Unseen).Incomplete?
    ensures Parse(buf + ext, Unseen) == Parse(buf, Unseen)
    decreases |buf|, 0
  {
    FindCrlfExtends(buf, ext);
    var k := FindCrlf(buf).value;
    assert (buf + ext)[0] == buf[0];
    if k > 0 {
      assert (buf + ext)[1..k] == buf[1..k];
      if IsNumbered(buf[0]) && !Blank(buf[1..k]) {
        ParseNumberedStable(buf, k + 2, StrToLL(buf[1..k]), ext);
      }
    }
  }

  lemma {:induction false} ParseNumberedStable(buf: string, c: nat, num: int, ext: string)
    requires 3 <= c <= |buf|
    requires !ParseNumbered(buf, c, num, Unseen).Incomplete?
    ensures ParseNumbered(buf + ext, c, num, Unseen) == ParseNumbered(buf, c, num, Unseen)
    decreases |buf| - c, 2
  {
    var n := ToInt32(num);
    if n >= 0 && buf[0] == '$' {
      ParseBulkStable(buf, c, n, ext);
    } else if n >= 0 && buf[0] != ':' {
      assert (buf + ext)[c..] == buf[c..] + ext;
      ParseItemsStable(buf[c..], n, ext);
    }
  }

  lemma ParseBulkStable(buf: string, c: nat, n: nat, ext: string)
    requires c <= |buf| && !ParseBulk(buf, c, n).Incomplete?
    ensures ParseBulk(buf + ext, c, n) == ParseBulk(buf, c, n)
  {
    assert (buf + ext)[c..c + n] == buf[c..c + n];
  }

  lemma {:induction false} ParseItemsStable(buf: string, count: nat, ext: string)
    requires !ParseItems(buf, count, Unseen).Incomplete?
    ensures ParseItems(buf + ext, count, Unseen) == ParseItems(buf, count, Unseen)
    decreases |buf|, 1
  {
    hide Parse;
    if count > 0 {
      ParseStable(buf, ext);
      var first := Parse(buf, Unseen);
      if first.Complete? {
        assert (buf + ext)[first.consumed..] == buf[first.consumed..] + ext;
        ParseItemsStable(buf[first.consumed..], count - 1, ext);
      }
    }
  }

  // ---- What lies behind the buffer ----

  /** Unless a blank number field is met, the bytes behind the buffer play no part. */
  lemma {:induction false} ParseIgnoresTail(buf: string, bytes: string)
    requires !Parse(buf, Unseen).Ambiguous?
    ensures Parse(buf, Seen(bytes)) == Parse(buf, Unseen)
    decreases |buf|, 0
  {
    var r := FindCrlf(buf);
    if r.Some? && IsNumbered(buf[0]) {
      SeenNumber(buf, r.value, bytes);
      ParseNumberedIgnoresTail(buf, r.value + 2, StrToLL(buf[1..r.value]), bytes);
    }
  }

  lemma {:induction false} ParseNumberedIgnoresTail(buf: string, c: nat, num: int, bytes: string)
    requires 3 <= c <= |buf|
    requires !ParseNumbered(buf, c, num, Unseen).Ambiguous?
    ensures ParseNumbered(buf, c, num, Seen(bytes)) == ParseNumbered(buf, c, num, Unseen)
    decreases |buf| - c, 2
  {
    if buf[0] != ':' && buf[0] != '$' && ToInt32(num) >= 0 {
      ParseItemsIgnoresTail(buf[c..], ToInt32(num), bytes);
    }
  }

  lemma SeenNumber(buf: string, k: nat, bytes: string)
    requires 1 <= k && CrlfAt(buf, k) && !Blank(buf[1..k])
    ensures StrToLL(buf[1..] + bytes) == StrToLL(buf[1..k])
  {
    assert buf[1..] + bytes == buf[1..k] + CRLF + (buf[k + 2..] + bytes);
    NonBlankFieldIsLocal(buf[1..k], buf[k + 2..] + bytes);
  }

  lemma {:induction false} ParseItemsIgnoresTail(buf: string, count: nat, bytes: string)
    requires !ParseItems(buf, count, Unseen).Ambiguous?
    ensures ParseItems(buf, count, Seen(bytes)) == ParseItems(buf, count, Unseen)
    decreases |buf|, 1
  {
    hide Parse;
    if count > 0 {
      ParseIgnoresTail(buf, bytes);
      var first := Parse(buf, Unseen);
      if first.Complete? {
        ParseItemsIgnoresTail(buf[first.consumed..], count - 1, bytes);
      }
    }
  }

  /** A header line with a blank number field, somewhere in the bytes. */
  ghost predicate BlankHeader(buf: string, i: nat, k: nat) {
    && i < k && CrlfAt(buf, k) && (forall j: nat | i <= j < k :: !CrlfAt(buf, j))
    && IsNumbered(buf[i]) && Blank(buf[i + 1..k])
  }

  ghost predicate HasBlankHeader(buf: string) { exists i: nat, k: nat :: BlankHeader(buf, i, k) }

  lemma BlankHeaderBehind(buf: string, c: nat)
    requires c <= |buf| && HasBlankHeader(buf[c..])
    ensures HasBlankHeader(buf)
  {
    hide Blank;
    var rest := buf[c..];
    var i: nat, k: nat :| BlankHeader(rest, i, k);
    forall j: nat ensures CrlfAt(rest, j) <==> CrlfAt(buf, c + j) {}
    forall j: nat | c + i <= j < c + k ensures !CrlfAt(buf, j) {
      assert !CrlfAt(rest, j - c);
    }
    assert rest[i + 1..k] == buf[c + i + 1..c + k];
    assert BlankHeader(buf, c + i, c + k);
  }

  /** Only a blank number field makes a verdict depend on the bytes behind the buffer. */
  lemma {:induction false} AmbiguousMeansBlank(buf: string)
    requires Parse(buf, Unseen).Ambiguous?
    ensures HasBlankHeader(buf)
    decreases |buf|, 0
  {
    hide Blank, ToInt32, StrToLL;
    var k := FindCrlf(buf).value;
    if Blank(buf[1..k]) {
      assert BlankHeader(buf, 0, k);
    } else {
      ItemsAmbiguous(buf[k + 2..], ToInt32(StrToLL(buf[1..k])));
      BlankHeaderBehind(buf, k + 2);
    }
  }

  lemma {:induction false} ItemsAmbiguous(buf: string, count: nat)
    requires ParseItems(buf, count, Unseen).Ambiguous?
    ensures HasBlankHeader(buf)
    decreases |buf|, 1
  {
    hide Parse, HasBlankHeader;
    var first := Parse(buf, Unseen);
    if first.Complete? {
      ItemsAmbiguous(buf[first.consumed..], count - 1);
      BlankHeaderBehind(buf, first.consumed);
    } else {
      AmbiguousMeansBlank(buf);
    }
  }

  // ---- Round trip ----

  predicate CrlfFree(s: string) { forall j: nat | j < |s| :: !CrlfAt(s, j) }

  /** A value that C strings, `int64_t` and `int` lengths can hold, and whose line strings fit on a line. */
  predicate WellFormed(v: Value) {
    match v
    case SimpleString(s) => IsCString(s) && CrlfFree(s)
    case Error(s) => IsCString(s) && CrlfFree(s)
    case Integer(n) => IsInt64(n)
    case BulkString(s) => IsCString(s) && |s| <= INT32_MAX
    case Array(items) => |items| <= INT32_MAX && forall v | v in items :: WellFormed(v)
    case Nil => true
  }

  lemma FindCrlfAfterLine(kind: char, line: string, rest: string)
    requires kind != '\r' && CrlfFree(line)
    ensures FindCrlf([kind] + line + CRLF + rest) == Some(1 + |line|)
  {
    var buf := [kind] + line + CRLF + rest;
    var k := 1 + |line|;
    assert CrlfAt(buf, k);
    assert forall j: nat | 0 < j < k && CrlfAt(buf, j) :: CrlfAt(line, j - 1);
    assert FindCrlf(buf).value == k;
  }

  lemma PrintedHasNoCrlf(n: int)
    ensures CrlfFree(Print(n))
  {
    var p := Print(n);
    forall j: nat | j < |p| ensures p[j] != '\r' {
      if n < 0 && j > 0 {
        assert p[j] == p[1..][j - 1];
      }
    }
  }

  /** A written header is found again, with its number. */
  lemma HeaderRead(kind: char, n: int, rest: string)
    requires IsNumbered(kind) && IsInt64(n)
    ensures var header := WriteHeader(kind, n);
            && |header| >= 3 && header[0] == kind
            && Parse(header + rest, Unseen) == ParseNumbered(header + rest, |header|, n, Unseen)
  {
    hide Print, FindCrlf, ParseNumbered, StrToLL;
    PrintedHasNoCrlf(n);
    FindCrlfAfterLine(kind, Print(n), rest);
    var buf := WriteHeader(kind, n) + rest;
    assert buf == [kind] + Print(n) + CRLF + rest;
    assert buf[1..1 + |Print(n)|] == Print(n) + [] == Print(n);
    StrToLLPrinted(n, []);
    PrintedNotBlank(n);
  }

  lemma PrintedNotBlank(n: int)
    ensures !Blank(Print(n))
  {
    assert !IsSpace(Print(n)[0]);
  }

  lemma LineRoundTrip(kind: char, s: string, rest: string)
    requires kind == '+' || kind == '-'
    requires IsCString(s) && CrlfFree(s)
    ensures Parse([kind] + s + CRLF + rest, Unseen) ==
            Complete(if kind == '+' then SimpleString(s) else Error(s), |s| + 3)
  {
    var buf := [kind] + s + CRLF + rest;
    FindCrlfAfterLine(kind, s, rest);
    assert buf[1..1 + |s|] == s;
  }

  lemma IntegerRoundTrip(n: int, rest: string)
    requires IsInt64(n)
    ensures Parse(WriteHeader(':', n) + rest, Unseen) == Complete(Integer(n), |WriteHeader(':', n)|)
  {
    HeaderRead(':', n, rest);
  }

  lemma NilRoundTrip(rest: string)
    ensures Parse(WriteHeader('$', -1) + rest, Unseen) == Complete(Nil, |WriteHeader('$', -1)|)
  {
    hide Parse, WriteHeader;
    HeaderRead('$', -1, rest);
  }

  lemma BulkRoundTrip(s: string, rest: string)
    requires IsCString(s) && |s| <= INT32_MAX
    ensures Parse(WriteBulk(s) + rest, Unseen) == Complete(BulkString(s), |WriteBulk(s)|)
  {
    hide Parse, WriteHeader;
    var header := WriteHeader('$', |s|);
    assert WriteBulk(s) + rest == header + (s + (CRLF + rest));
    HeaderRead('$', |s|, s + (CRLF + rest));
    BulkBody(header, s, CRLF + rest);
  }

  lemma BulkBody(header: string, s: string, after: string)
    requires |header| >= 3 && header[0] == '$'
    requires IsCString(s) && |s| <= INT32_MAX && |after| >= 2
    ensures ParseNumbered(header + (s + after), |header|, |s|, Unseen) ==
            Complete(BulkString(s), |header| + |s| + 2)
  {
    ToInt32Identity(|s|);
    ParseBulkBody(header, s, after);
  }

  lemma ParseBulkBody(header: string, s: string, after: string)
    requires IsCString(s) && |after| >= 2
    ensures ParseBulk(header + (s + after), |header|, |s|) == Complete(BulkString(s), |header| + |s| + 2)
  {
    var buf := header + (s + after);
    assert buf[|header|..|header| + |s|] == s;
  }

  lemma ArrayHeaderParsed(n: int, rest: string)
    requires 0 <= n <= INT32_MAX
    ensures Parse(WriteHeader('*', n) + rest, Unseen) ==
            Shift(ParseItems(rest, n, Unseen), |WriteHeader('*', n)|)
  {
    HeaderRead('*', n, rest);
    ArrayBody(WriteHeader('*', n), n, rest);
  }

  lemma ArrayBody(header: string, n: int, rest: string)
    requires |header| >= 3 && header[0] == '*' && 0 <= n <= INT32_MAX
    ensures ParseNumbered(header + rest, |header|, n, Unseen) == Shift(ParseItems(rest, n, Unseen), |header|)
  {
    ToInt32Identity(n);
    assert (header + rest)[|header|..] == rest;
  }

  /** Parsing the written form of a value, with anything behind it, gives the value and its length. */
  lemma {:induction false} RoundTrip(v: Value, rest: string)
    requires WellFormed(v)
    ensures Parse(Write(v) + rest, Unseen) == Complete(v, |Write(v)|)
    decreases v, 0
  {
    hide Parse, ParseItems, WriteHeader, WriteBulk;
    match v
    case SimpleString(s) => LineRoundTrip('+', s, rest);
    case Error(s) => LineRoundTrip('-', s, rest);
    case Integer(n) => IntegerRoundTrip(n, rest);
    case Nil => NilRoundTrip(rest);
    case BulkString(s) => BulkRoundTrip(s, rest);
    case Array(items) =>
      var header := WriteHeader('*', |items|);
      assert Write(v) + rest == header + (WriteAll(items) + rest);
      ArrayHeaderParsed(|items|, WriteAll(items) + rest);
      RoundTripAll(items, rest);
  }

  lemma {:induction false} RoundTripAll(vs: seq<Value>, rest: string)
    requires forall v | v in vs :: WellFormed(v)
    ensures ParseItems(WriteAll(vs) + rest, |vs|, Unseen) == Complete(Array(vs), |WriteAll(vs)|)
    decreases vs, 1
  {
    hide Parse, Write, WellFormed, ParseItems;
    if vs == [] {
      NoItems(WriteAll(vs) + rest, Unseen);
    } else {
      var w := Write(vs[0]);
      var after := WriteAll(vs[1..]) + rest;
      assert WriteAll(vs) + rest == w + after;
      assert (w + after)[|w|..] == after;
      RoundTrip(vs[0], after);
      RoundTripAll(vs[1..], rest);
      ItemsNext(w + after, vs[0], |w|, |vs| - 1);
      assert [vs[0]] + vs[1..] == vs;
    }
  }

  lemma NoItems(buf: string, tail: Tail)
    ensures ParseItems(buf, 0, tail) == Complete(Array([]), 0)
  {}

  lemma ItemsNext(buf: string, v: Value, n: nat, count: nat)
    requires Parse(buf, Unseen) == Complete(v, n)
    ensures n <= |buf|
    ensures ParseItems(buf, count + 1, Unseen) == Prepend(v, n, ParseItems(buf[n..], count, Unseen))
  {
    hide Parse;
  }

  /** The round trip does not depend on what lies behind the buffer either. */
  lemma RoundTripInMemory(v: Value, rest: string, tail: Tail)
    requires WellFormed(v)
    ensures Parse(Write(v) + rest, tail) == Complete(v, |Write(v)|)
  {
    RoundTrip(v, rest);
    if tail.Seen? {
      ParseIgnoresTail(Write(v) + rest, tail.bytes);
    }
  }

  /** Every strict prefix of a written value is incomplete, whatever lies behind it in memory. */
  lemma StrictPrefixIncomplete(v: Value, n: nat, tail: Tail)
    requires WellFormed(v) && n < |Write(v)|
    ensures Parse(Write(v)[..n], tail) == Incomplete
  {
    var w := Write(v);
    RoundTrip(v, []);
    assert w + [] == w && w[..n] + w[n..] == w;
    if !Parse(w[..n], Unseen).Incomplete? {
      ParseStable(w[..n], w[n..]);
    }
    if tail.Seen? {
      ParseIgnoresTail(w[..n], tail.bytes);
    }
  }

  lemma {:induction false} WriteAllSnoc(vs: seq<Value>, v: Value)
    ensures WriteAll(vs + [v]) == WriteAll(vs) + Write(v)
  {
    hide Write;
    if vs == [] {
      assert vs + [v] == [v] && [v][1..] == [];
      assert WriteAll([]) == [];
    } else {
      assert (vs + [v])[1..] == vs[1..] + [v];
      WriteAllSnoc(vs[1..], v);
    }
  }

  lemma NothingWritten()
    ensures WriteAll([]) == []
  {}

  // ---- Size of what is built ----

  function Nodes(v: Value): nat
    decreases v, 0
  {
    if v.Array? then 1 + NodesAll(v.items) else 1
  }

  function NodesAll(vs: seq<Value>): nat
    decreases vs, 1
  {
    if vs == [] then 0 else Nodes(vs[0]) + NodesAll(vs[1..])
  }

  /** A parse allocates at most one value for every three bytes it consumes. */
  lemma {:induction false} ParseAllocation(buf: string, tail: Tail)
    requires Parse(buf, tail).Complete?
    ensures 3 * Nodes(Parse(buf, tail).value) <= Parse(buf, tail).consumed
    decreases |buf|, 0
  {
    var v := Parse(buf, tail);
    if v.value.Array? {
      var k := FindCrlf(buf).value;
      var n := Atoi(NumberText(buf, k, tail).value);
      var items := ParseItems(buf[k + 2..], n, tail);
      assert v == Shift(items, k + 2);
      ParseItemsAllocation(buf[k + 2..], n, tail);
    }
  }

  lemma {:induction false} ParseItemsAllocation(buf: string, count: nat, tail: Tail)
    requires ParseItems(buf, count, tail).Complete?
    ensures 3 * NodesAll(ParseItems(buf, count, tail).value.items) <= ParseItems(buf, count, tail).consumed
    decreases |buf|, 1
  {
    hide Parse;
    if count > 0 {
      var first := Parse(buf, tail);
      ParseAllocation(buf, tail);
      ParseItemsAllocation(buf[first.consumed..], count - 1, tail);
      var items := ParseItems(buf, count, tail).value.items;
      assert items[1..] == ParseItems(buf[first.consumed..], count - 1, tail).value.items;
    }
  }

  // ---- A value tells its length ----

  lemma NumberOfCut(s: string, t: string, x: string)
    requires |t| < |s| && s[..|t|] == t && s[|t|] == '\0'
    ensures StrToLL(s + x) == StrToLL(t)
  {
    hide StrToLL;
    NumberEndsAtNul(t, s[|t| + 1..] + x);
    assert s + x == t + ['\0'] + (s[|t| + 1..] + x);
  }

  /** A number read off two texts of different lengths that are cut to the same text ends at the NUL that cuts them. */
  lemma SameCutNumber(s: string, ext: string, m: nat, n: nat, x: string, y: string)
    requires m < |s| && n < |s + ext| && m != n
    requires CutAtNul(s[..m]) == CutAtNul((s + ext)[..n])
    ensures StrToLL(s + x) == StrToLL(s + ext + y)
  {
    hide StrToLL;
    var t := CutAtNul(s[..m]);
    assert s[..|t|] == t && (s + ext)[..|t|] == t;
    assert |t| < |s| && s[|t|] == '\0';
    NumberOfCut(s, t, x);
    NumberOfCut(s + ext, t, y);
  }

  /** The number of a header line as it is read with memory behind: the field's own, or what follows the line. */
  lemma SeenField(buf: string, k: nat, bytes: string)
    requires 1 <= k && CrlfAt(buf, k)
    ensures StrToLL(buf[1..] + bytes) ==
            if Blank(buf[1..k]) then StrToLL(buf[k + 2..] + bytes) else StrToLL(buf[1..k])
  {
    hide StrToLL, Blank;
    if Blank(buf[1..k]) {
      assert buf[1..] + bytes == buf[1..k] + CRLF + (buf[k + 2..] + bytes);
      BlankFieldReadsOn(buf[1..k], buf[k + 2..] + bytes);
    } else {
      SeenNumber(buf, k, bytes);
    }
  }

  /**
   Bytes and more bytes behind them that parse to one value, whatever memory lies behind each, parse to it with
   one length.
   */
  lemma {:induction false} SameValueSameLength(a: string, ext: string, x: string, y: string)
    requires Parse(a, Seen(x)).Complete? && Parse(a + ext, Seen(y)).Complete?
    requires Parse(a, Seen(x)).value == Parse(a + ext, Seen(y)).value
    ensures Parse(a, Seen(x)).consumed == Parse(a + ext, Seen(y)).consumed
    decreases |a|, 0
  {
    hide StrToLL, ToInt32, Blank, ParseNumbered;
    FindCrlfExtends(a, ext);
    var b := a + ext;
    var k := FindCrlf(a).value;
    assert b[0] == a[0];
    if IsNumbered(a[0]) {
      var c := k + 2;
      var p, q := StrToLL(a[1..] + x), StrToLL(b[1..] + y);
      assert Parse(a, Seen(x)) == ParseNumbered(a, c, p, Seen(x));
      assert Parse(b, Seen(y)) == ParseNumbered(b, c, q, Seen(y));
      SeenField(a, k, x);
      SeenField(b, k, y);
      assert b[1..k] == a[1..k];
      assert b[c..] == a[c..] + ext;
      if a[0] == '*' {
        SameArrayLength(a, ext, c, p, q, x, y);
      } else {
        SameNumberedLength(a, ext, c, p, q, x, y);
      }
    }
  }

  lemma SameNumberedLength(a: string, ext: string, c: nat, p: int, q: int, x: string, y: string)
    requires 3 <= c <= |a| && a[0] != '*'
    requires p == q || (p == StrToLL(a[c..] + x) && q == StrToLL(a[c..] + ext + y))
    requires ParseNumbered(a, c, p, Seen(x)).Complete? && ParseNumbered(a + ext, c, q, Seen(y)).Complete?
    requires ParseNumbered(a, c, p, Seen(x)).value == ParseNumbered(a + ext, c, q, Seen(y)).value
    requires IsNumbered(a[0])
    ensures ParseNumbered(a, c, p, Seen(x)).consumed == ParseNumbered(a + ext, c, q, Seen(y)).consumed
  {
    hide StrToLL, ToInt32, ParseBulk, ParseItems;
    assert (a + ext)[0] == a[0];
    if a[0] == '$' {
      if ToInt32(p) >= 0 {
        BulkIsText(a, c, ToInt32(p));
      }
      if ToInt32(q) >= 0 {
        BulkIsText(a + ext, c, ToInt32(q));
      }
      if ToInt32(p) >= 0 && ToInt32(q) >= 0 {
        SameBulkLength(a, ext, c, p, q, x, y);
      }
    }
  }

  lemma BulkIsText(buf: string, c: nat, n: nat)
    requires c <= |buf|
    ensures ParseBulk(buf, c, n).Complete? ==> ParseBulk(buf, c, n).value.BulkString?
  {}

  lemma SameBulkLength(a: string, ext: string, c: nat, p: int, q: int, x: string, y: string)
    requires c <= |a| && ToInt32(p) >= 0 && ToInt32(q) >= 0
    requires p == q || (p == StrToLL(a[c..] + x) && q == StrToLL(a[c..] + ext + y))
    requires ParseBulk(a, c, ToInt32(p)).Complete? && ParseBulk(a + ext, c, ToInt32(q)).Complete?
    requires ParseBulk(a, c, ToInt32(p)).value == ParseBulk(a + ext, c, ToInt32(q)).value
    ensures ParseBulk(a, c, ToInt32(p)).consumed == ParseBulk(a + ext, c, ToInt32(q)).consumed
  {
    hide StrToLL, ToInt32, CutAtNul;
    var m, n := ToInt32(p), ToInt32(q);
    var s := a[c..];
    if m != n {
      SlicedAt(a, c, m);
      SlicedAt(a + ext, c, n);
      assert (a + ext)[c..] == s + ext;
      SameCutNumber(s, ext, m, n, x, y);
    }
  }

  lemma SlicedAt(s: string, c: nat, n: nat)
    requires c + n <= |s|
    ensures s[c..c + n] == s[c..][..n]
  {}

  lemma {:induction false} SameArrayLength(a: string, ext: string, c: nat, p: int, q: int, x: string, y: string)
    requires 3 <= c <= |a| && a[0] == '*'
    requires ParseNumbered(a, c, p, Seen(x)).Complete? && ParseNumbered(a + ext, c, q, Seen(y)).Complete?
    requires ParseNumbered(a, c, p, Seen(x)).value == ParseNumbered(a + ext, c, q, Seen(y)).value
    ensures ParseNumbered(a, c, p, Seen(x)).consumed == ParseNumbered(a + ext, c, q, Seen(y)).consumed
    decreases |a| - c, 2
  {
    hide ToInt32, ParseItems;
    var m, n := ToInt32(p), ToInt32(q);
    assert (a + ext)[0] == a[0] && (a + ext)[c..] == a[c..] + ext;
    if m >= 0 && n >= 0 {
      SameItemsSameLength(a[c..], ext, m, n, x, y);
    }
  }

  lemma {:induction false} SameItemsSameLength(a: string, ext: string, m: nat, n: nat, x: string, y: string)
    requires ParseItems(a, m, Seen(x)).Complete? && ParseItems(a + ext, n, Seen(y)).Complete?
    requires ParseItems(a, m, Seen(x)).value == ParseItems(a + ext, n, Seen(y)).value
    ensures ParseItems(a, m, Seen(x)).consumed == ParseItems(a + ext, n, Seen(y)).consumed
    decreases |a|, 1
  {
    hide Parse;
    assert m == n;
    if m > 0 {
      var first, other := Parse(a, Seen(x)), Parse(a + ext, Seen(y));
      var items := ParseItems(a, m, Seen(x)).value.items;
      assert items[0] == first.value == other.value;
      SameValueSameLength(a, ext, x, y);
      var c := first.consumed;
      assert (a + ext)[c..] == a[c..] + ext;
      assert items[1..] == ParseItems(a[c..], m - 1, Seen(x)).value.items;
      assert items[1..] == ParseItems(a[c..] + ext, n - 1, Seen(y)).value.items;
      SameItemsSameLength(a[c..], ext, m - 1, n - 1, x, y);
    }
  }
}
