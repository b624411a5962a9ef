/** The command-line client: cutting a line into tokens and sending them as one command. */
module Cli {
  import opened CText
  import opened Resp
  import opened ReplyBuffer

  const MAX_TOKENS: nat := 128
  const LINE_SIZE: nat := 4096
  const OUT_SIZE: nat := 65536

  // ---- Tokens ----

  predicate IsBlank(c: char) { c == ' ' || c == '\t' }

  function SkipBlanks(s: string): (r: string)
    ensures |r| <= |s|
  {
    if s != [] && IsBlank(s[0]) then SkipBlanks(s[1..]) else s
  }

  /** How many characters come before the next quote. */
  function UntilQuote(s: string): (n: nat)
    ensures n <= |s|
  {
    if s == [] || s[0] == '"' then 0 else 1 + UntilQuote(s[1..])
  }

  function UntilBlank(s: string): (n: nat)
    ensures n <= |s|
  {
    if s == [] || IsBlank(s[0]) then 0 else 1 + UntilBlank(s[1..])
  }

  /** The text behind the closing quote; at the end of the line there is none to skip. */
  function AfterQuote(s: string): string { if s == [] then s else s[1..] }

  /** The token at the head of a text that does not start with a blank, and what follows it. */
  function Cut(s: string): (r: (string, string))
    requires s != []
  {
    if s[0] == '"' then
      var n := UntilQuote(s[1..]);
      (s[1..][..n], AfterQuote(s[1..][n..]))
    else
      var n := UntilBlank(s);
      (s[..n], s[n..])
  }

  /** At most `room` tokens: quoted ones run to the next quote, others to the next blank. */
  function Tokens(line: string, room: nat): (ts: seq<string>)
    ensures |ts| <= room
    decreases room
  {
    var s := SkipBlanks(line);
    if room == 0 || s == [] then []
    else
      var (t, rest) := Cut(s);
      [t] + Tokens(rest, room - 1)
  }

  /** What is sent for a line: nothing, or the array of its tokens. */
  function Command(line: string): string {
    var ts := Tokens(line, MAX_TOKENS);
    if ts == [] then [] else Write(Array(Bulks(ts)))
  }

  // ---- What the server reads ----

  lemma {:induction false} SkipBlanksSuffix(s: string)
    ensures |SkipBlanks(s)| <= |s| && SkipBlanks(s) == s[|s| - |SkipBlanks(s)|..]
  {
    if s != [] && IsBlank(s[0]) {
      SkipBlanksSuffix(s[1..]);
    }
  }

  /** The total length of the tokens. */
  function Total(ts: seq<string>): nat {
    if ts == [] then 0 else |ts[0]| + Total(ts[1..])
  }

  lemma CutClean(s: string)
    requires s != [] && IsCString(s)
    ensures var (t, rest) := Cut(s); IsCString(t) && IsCString(rest) && |t| + |rest| <= |s|
  {
    hide IsCString;
    if s[0] == '"' {
      var n := UntilQuote(s[1..]);
      var m := if n == |s| - 1 then |s| else n + 2;
      PartIsCString(s, 1, n + 1);
      PartIsCString(s, m, |s|);
      assert s[1..][..n] == s[1..n + 1] && AfterQuote(s[1..][n..]) == s[m..|s|];
    } else {
      var n := UntilBlank(s);
      PartIsCString(s, 0, n);
      PartIsCString(s, n, |s|);
      assert s[..n] == s[0..n] && s[n..] == s[n..|s|];
    }
  }

  lemma SkippedClean(s: string)
    requires IsCString(s)
    ensures IsCString(SkipBlanks(s)) && |SkipBlanks(s)| <= |s|
  {
    hide IsCString;
    SkipBlanksSuffix(s);
    PartIsCString(s, |s| - |SkipBlanks(s)|, |s|);
    assert SkipBlanks(s) == s[|s| - |SkipBlanks(s)|..|s|];
  }

  /** Tokens are disjoint pieces of the line. */
  lemma {:induction false} TokensClean(line: string, room: nat)
    requires IsCString(line)
    ensures forall t | t in Tokens(line, room) :: IsCString(t) && |t| <= |line|
    ensures Total(Tokens(line, room)) <= |line|
    decreases room
  {
    hide Cut, SkipBlanks, IsCString, Total;
    SkippedClean(line);
    NoTotal();
    var s := SkipBlanks(line);
    if room > 0 && s != [] {
      CutClean(s);
      var (t, rest) := Cut(s);
      TokensClean(rest, room - 1);
      TotalCons(t, Tokens(rest, room - 1));
    }
  }

  lemma NoTotal()
    ensures Total([]) == 0
  {}

  lemma PartIsCString(s: string, a: nat, b: nat)
    requires IsCString(s) && a <= b <= |s|
    ensures IsCString(s[a..b])
  {
    assert forall c | c in s[a..b] :: c in s;
  }

  lemma TotalCons(t: string, ts: seq<string>)
    ensures Total([t] + ts) == |t| + Total(ts)
  {
    assert ([t] + ts)[1..] == ts;
  }

  lemma BulksWellFormed(ts: seq<string>)
    requires |ts| <= INT32_MAX && forall t | t in ts :: IsCString(t) && |t| <= INT32_MAX
    ensures WellFormed(Array(Bulks(ts)))
  {
    forall v | v in Bulks(ts) ensures WellFormed(v) {
      var i :| 0 <= i < |ts| && Bulks(ts)[i] == v;
      assert ts[i] in ts;
    }
  }

  /**
   For any line with a token, the server's parser reads exactly the tokens, as an array of bulk strings, and
   consumes exactly what was sent, whatever follows it.
   */
  lemma ServerReadsTokens(line: string, rest: string, tail: Tail)
    requires IsCString(line) && |line| <= INT32_MAX && Tokens(line, MAX_TOKENS) != []
    ensures Parse(Command(line) + rest, tail) ==
            Complete(Array(Bulks(Tokens(line, MAX_TOKENS))), |Command(line)|)
  {
    hide Write, Parse, Tokens, WellFormed;
    TokensClean(line, MAX_TOKENS);
    BulksWellFormed(Tokens(line, MAX_TOKENS));
    RoundTripInMemory(Array(Bulks(Tokens(line, MAX_TOKENS))), rest, tail);
  }

  // ---- Quoting ----

  function Quoted(t: string): string { "\"" + t + "\"" }

  function QuoteAll(ts: seq<string>): string {
    if ts == [] then []
    else if |ts| == 1 then Quoted(ts[0])
    else Quoted(ts[0]) + " " + QuoteAll(ts[1..])
  }

  lemma {:induction false} UntilQuoteOf(t: string, rest: string)
    requires '"' !in t
    ensures UntilQuote(t + "\"" + rest) == |t|
  {
    var s := t + "\"" + rest;
    if t != [] {
      assert s[1..] == t[1..] + "\"" + rest;
      UntilQuoteOf(t[1..], rest);
    }
  }

  /** The first quoted token of a line is cut off exactly. */
  lemma FirstQuoted(t: string, rest: string, room: nat)
    requires '"' !in t && room > 0
    ensures Tokens(Quoted(t) + rest, room) == [t] + Tokens(rest, room - 1)
  {
    hide Cut;
    CutQuoted(t, rest);
    assert SkipBlanks(Quoted(t) + rest) == Quoted(t) + rest;
  }

  lemma CutQuoted(t: string, rest: string)
    requires '"' !in t
    ensures Cut(Quoted(t) + rest) == (t, rest)
  {
    hide UntilQuote, UntilBlank;
    var s := Quoted(t) + rest;
    assert s[1..] == t + "\"" + rest;
    UntilQuoteOf(t, rest);
    assert s[1..][..|t|] == t;
    assert AfterQuote(s[1..][|t|..]) == rest;
  }

  lemma SpaceSkipped(rest: string, room: nat)
    ensures Tokens(" " + rest, room) == Tokens(rest, room)
  {
    hide Cut;
    assert (" " + rest)[1..] == rest;
    assert SkipBlanks(" " + rest) == SkipBlanks(rest);
  }

  /** Quoting tokens and joining them with spaces is undone by the tokeniser, empty tokens and blanks included. */
  lemma {:induction false} QuotedRoundTrip(ts: seq<string>, room: nat)
    requires |ts| <= room && forall t | t in ts :: '"' !in t
    ensures Tokens(QuoteAll(ts), room) == ts
    decreases |ts|
  {
    hide Tokens, Quoted;
    if ts == [] {
      NoTokens(room);
    } else {
      assert ts[0] in ts;
      QuotedRoundTrip(ts[1..], room - 1);
      assert [ts[0]] + ts[1..] == ts;
      if |ts| == 1 {
        assert Quoted(ts[0]) + [] == Quoted(ts[0]);
        FirstQuoted(ts[0], [], room);
      } else {
        assert QuoteAll(ts) == Quoted(ts[0]) + (" " + QuoteAll(ts[1..]));
        FirstQuoted(ts[0], " " + QuoteAll(ts[1..]), room);
        SpaceSkipped(QuoteAll(ts[1..]), room - 1);
      }
    }
  }

  lemma NoTokens(room: nat)
    ensures Tokens([], room) == []
  {}

  /** From the user's tokens to the server's arguments and back. */
  lemma ClientToServer(ts: seq<string>, rest: string, tail: Tail)
    requires 1 <= |ts| <= MAX_TOKENS && |QuoteAll(ts)| <= INT32_MAX
    requires forall t | t in ts :: IsCString(t) && '"' !in t
    ensures Parse(Command(QuoteAll(ts)) + rest, tail) == Complete(Array(Bulks(ts)), |Command(QuoteAll(ts))|)
  {
    hide Command, Parse, Tokens, QuoteAll;
    QuotedRoundTrip(ts, MAX_TOKENS);
    QuotedIsCString(ts);
    ServerReadsTokens(QuoteAll(ts), rest, tail);
  }

  lemma {:induction false} QuotedIsCString(ts: seq<string>)
    requires forall t | t in ts :: IsCString(t)
    ensures IsCString(QuoteAll(ts))
    decreases |ts|
  {
    if ts != [] {
      assert ts[0] in ts;
      QuotedIsCString(ts[1..]);
    }
  }

  // ---- The output fits ----

  lemma {:induction false} WriteAllBound(ts: seq<string>)
    requires forall t | t in ts :: |t| < LINE_SIZE
    ensures |WriteAll(Bulks(ts))| <= Total(ts) + 9 * |ts|
    decreases |ts|
  {
    hide Total;
    if ts != [] {
      assert ts[0] in ts;
      WriteAllBound(ts[1..]);
      assert Bulks(ts)[1..] == Bulks(ts[1..]);
      assert [ts[0]] + ts[1..] == ts;
      TotalCons(ts[0], ts[1..]);
      ShortHeader('$', |ts[0]|);
      assert Write(Bulks(ts)[0]) == WriteBulk(ts[0]);
    } else {
      assert Bulks(ts) == [];
    }
  }

  lemma ShortHeader(kind: char, n: nat)
    requires n < 10000
    ensures |WriteHeader(kind, n)| <= 7
  {
    assert Pow10(4) == 10000;
    PrintNatLength(n, 4);
  }

  /** A line that fits the input buffer never overruns the output buffer. */
  lemma CommandFits(line: string)
    requires IsCString(line) && |line| < LINE_SIZE
    ensures |Command(line)| <= OUT_SIZE
  {
    hide Tokens, WriteAll, WriteHeader;
    var ts := Tokens(line, MAX_TOKENS);
    TokensClean(line, MAX_TOKENS);
    WriteAllBound(ts);
    ShortHeader('*', |ts|);
  }

  // ---- As written ----

  /** A token as noted by the cursor loop: where it starts and how long it is. */
  datatype Piece = Piece(start: nat, len: nat)

  function TextAt(line: string, p: Piece): string {
    if p.start + p.len <= |line| then line[p.start..p.start + p.len] else []
  }

  function TextsAt(line: string, ps: seq<Piece>): (ts: seq<string>)
    ensures |ts| == |ps|
  {
    seq(|ps|, i requires 0 <= i < |ps| => TextAt(line, ps[i]))
  }

  /** Moves a cursor over blanks. */
  method PassBlanks(line: string, p: nat) returns (q: nat)
    requires p <= |line|
    ensures p <= q <= |line| && line[q..] == SkipBlanks(line[p..])
  {
    q := p;
    while q < |line| && IsBlank(line[q])
      invariant p <= q <= |line| && SkipBlanks(line[q..]) == SkipBlanks(line[p..])
    {
      assert line[q..][1..] == line[q + 1..];
      q := q + 1;
    }
  }

  method PassUntilQuote(line: string, p: nat) returns (q: nat)
    requires p <= |line|
    ensures p <= q <= |line| && q - p == UntilQuote(line[p..])
    ensures '"' !in line[p..q] && (q < |line| ==> line[q] == '"')
  {
    q := p;
    while q < |line| && line[q] != '"'
      invariant p <= q <= |line| && UntilQuote(line[p..]) == q - p + UntilQuote(line[q..])
      invariant forall i | p <= i < q :: line[i] != '"'
    {
      assert line[q..][1..] == line[q + 1..];
      q := q + 1;
    }
  }

  method PassUntilBlank(line: string, p: nat) returns (q: nat)
    requires p <= |line|
    ensures p <= q <= |line| && q - p == UntilBlank(line[p..])
    ensures ' ' !in line[p..q] && '\t' !in line[p..q] && (q < |line| ==> line[q] == ' ' || line[q] == '\t')
  {
    q := p;
    while q < |line| && !IsBlank(line[q])
      invariant p <= q <= |line| && UntilBlank(line[p..]) == q - p + UntilBlank(line[q..])
      invariant forall i | p <= i < q :: line[i] != ' ' && line[i] != '\t'
    {
      assert line[q..][1..] == line[q + 1..];
      q := q + 1;
    }
  }

  /** One token from cursor `p`, which is not at a blank nor at the end, and the cursor behind it. */
  method TakeToken(line: string, p: nat) returns (piece: Piece, q: nat)
    requires p < |line| && !IsBlank(line[p])
    ensures q <= |line| && piece.start + piece.len <= |line|
    ensures (TextAt(line, piece), line[q..]) == Cut(line[p..])
    ensures var end := piece.start + piece.len;
            if line[p] == '"' then
              && piece.start == p + 1 && '"' !in TextAt(line, piece)
              && (q == end == |line| || (q == end + 1 && line[end] == '"'))
            else
              && piece.start == p && q == end && ' ' !in TextAt(line, piece) && '\t' !in TextAt(line, piece)
              && (q == |line| || line[q] == ' ' || line[q] == '\t')
  {
    hide UntilQuote, UntilBlank;
    ghost var s := line[p..];
    if line[p] == '"' {
      var start := p + 1;
      assert s[1..] == line[start..];
      q := PassUntilQuote(line, start);
      piece := Piece(start, q - start);
      assert s[1..][..q - start] == TextAt(line, piece) && s[1..][q - start..] == line[q..];
      if q < |line| {
        assert line[q..][1..] == line[q + 1..];
        q := q + 1;
      }
    } else {
      q := PassUntilBlank(line, p);
      piece := Piece(p, q - p);
      assert s[..q - p] == TextAt(line, piece) && s[q - p..] == line[q..];
    }
  }

  /** The cursor loop over the line. */
  method Tokenise(line: string) returns (pieces: array<Piece>, argc: nat)
    ensures argc <= pieces.Length == MAX_TOKENS && TextsAt(line, pieces[..argc]) == Tokens(line, MAX_TOKENS)
  {
    hide Tokens, SkipBlanks, Cut, TextAt;
    pieces := new Piece[MAX_TOKENS](_ => Piece(0, 0));
    argc := 0;
    var p: nat := 0;
    assert line[0..] == line && TextsAt(line, pieces[..0]) == [];
    while p < |line| && argc < MAX_TOKENS
      invariant p <= |line| && argc <= MAX_TOKENS
      invariant Tokens(line, MAX_TOKENS) == TextsAt(line, pieces[..argc]) + Tokens(line[p..], MAX_TOKENS - argc)
      decreases MAX_TOKENS - argc, |line| - p
    {
      ghost var before := line[p..];
      p := PassBlanks(line, p);
      if p == |line| {
        TokensStep(before, MAX_TOKENS - argc);
        NothingLeft(line[p..], MAX_TOKENS - argc);
        break;
      }
      NotBlank(before);
      TokensStep(before, MAX_TOKENS - argc);
      var piece, q := TakeToken(line, p);
      ghost var noted := pieces[..argc];
      pieces[argc] := piece;
      assert pieces[..argc + 1] == noted + [piece];
      TextsAtSnoc(line, noted, piece);
      p := q;
      argc := argc + 1;
    }
    NothingLeft(line[p..], MAX_TOKENS - argc);
  }

  lemma TokensStep(s: string, room: nat)
    requires room > 0
    ensures Tokens(s, room) ==
            if SkipBlanks(s) == [] then []
            else [Cut(SkipBlanks(s)).0] + Tokens(Cut(SkipBlanks(s)).1, room - 1)
  {
    hide Cut, SkipBlanks;
  }

  lemma {:induction false} NotBlank(s: string)
    ensures SkipBlanks(s) != [] ==> !IsBlank(SkipBlanks(s)[0])
  {
    if s != [] && IsBlank(s[0]) {
      NotBlank(s[1..]);
    }
  }

  lemma NothingLeft(s: string, room: nat)
    requires s == [] || room == 0
    ensures Tokens(s, room) == []
  {}

  lemma TextsAtSnoc(line: string, ps: seq<Piece>, p: Piece)
    ensures TextsAt(line, ps + [p]) == TextsAt(line, ps) + [TextAt(line, p)]
  {
    hide TextAt;
  }

  /** Builds the command for a line in the output buffer and returns its length; 0 without tokens. */
  method BuildCommand(line: string, out: array<char>) returns (offset: nat)
    requires IsCString(line) && |line| < LINE_SIZE && out.Length == OUT_SIZE
    modifies out
    ensures offset <= out.Length && out[..offset] == Command(line)
  {
    hide Tokens, Command, IsCString;
    var pieces, argc := Tokenise(line);
    ghost var ts := Tokens(line, MAX_TOKENS);
    CommandFits(line);
    CommandOf(line);
    if argc == 0 {
      return 0;
    }
    offset := WriteTokens(line, pieces, argc, ts, out);
  }

  lemma CommandOf(line: string)
    ensures var ts := Tokens(line, MAX_TOKENS);
            Command(line) == if ts == [] then [] else WriteHeader('*', |ts|) + WriteAll(Bulks(ts))
  {
    hide Tokens;
  }

  /** The output loop. */
  method WriteTokens(line: string, pieces: array<Piece>, argc: nat, ghost ts: seq<string>, out: array<char>)
    returns (offset: nat)
    requires argc <= pieces.Length && ts == TextsAt(line, pieces[..argc])
    requires |WriteHeader('*', argc) + WriteAll(Bulks(ts))| <= out.Length
    modifies out
    ensures offset <= out.Length && out[..offset] == WriteHeader('*', argc) + WriteAll(Bulks(ts))
  {
    hide WriteHeader, WriteBulk, WriteAll, TextAt;
    var header := WriteHeader('*', argc);
    ghost var all := Bulks(ts);
    PrefixFits(all, 0);
    NothingWritten();
    Copy(out, 0, header);
    offset := |header|;
    for i := 0 to argc
      invariant offset <= out.Length && out[..offset] == header + WriteAll(all[..i])
      invariant |header + WriteAll(all)| <= out.Length
    {
      PrefixFits(all, i + 1);
      WriteAllSnoc(all[..i], all[i]);
      assert all[..i + 1] == all[..i] + [all[i]];
      var text := TextAt(line, pieces[i]);
      assert all[i] == BulkString(text);
      offset := WriteBulkAt(out, offset, text);
    }
    assert all[..argc] == all;
  }

  /** Header, text and line end of one argument at an offset. */
  method WriteBulkAt(out: array<char>, offset: nat, text: string) returns (end: nat)
    requires offset + |WriteBulk(text)| <= out.Length
    modifies out
    ensures end <= out.Length && out[..end] == old(out[..offset]) + WriteBulk(text)
  {
    hide WriteHeader;
    var length := WriteHeader('$', |text|);
    Copy(out, offset, length);
    Copy(out, offset + |length|, text);
    Copy(out, offset + |length| + |text|, CRLF);
    end := offset + |length| + |text| + 2;
  }

  lemma {:induction false} PrefixFits(vs: seq<Value>, i: nat)
    requires i <= |vs|
    ensures |WriteAll(vs[..i])| <= |WriteAll(vs)|
    decreases i
  {
    hide Write;
    if i > 0 {
      PrefixFits(vs[1..], i - 1);
      assert vs[..i][1..] == vs[1..][..i - 1];
    }
  }
}
