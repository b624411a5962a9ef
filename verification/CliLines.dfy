/**
 Lines of the command-line client, written out: blanks, and tokens that are quoted or plain. Every line is laid out
 like that, and the tokeniser gives the texts of its tokens.
 */
module CliLines {
  import opened CText
  import opened Resp
  import opened Cli

  /** A token in quotes, one without, or one whose quote is not closed before the line ends. */
  datatype Word = Closed(text: string) | Plain(text: string) | Open(text: string)

  function Spell(w: Word): string {
    match w
    case Closed(t) => "\"" + t + "\""
    case Plain(t) => t
    case Open(t) => "\"" + t
  }

  /** No quote in a quoted token; no blank in a plain one, which is not empty and does not start with a quote. */
  predicate Spellable(w: Word) {
    if w.Plain? then w.text != [] && ' ' !in w.text && '\t' !in w.text && w.text[0] != '"'
    else '"' !in w.text
  }

  predicate Blanks(s: string) { forall i | 0 <= i < |s| :: s[i] == ' ' || s[i] == '\t' }

  /** Words, each behind a gap, and what is behind the last. */
  function Laid(gaps: seq<string>, ws: seq<Word>, end: string): string
    requires |gaps| == |ws|
  {
    if ws == [] then end else gaps[0] + (Spell(ws[0]) + Laid(gaps[1..], ws[1..], end))
  }

  /** Gaps are blanks. One behind a plain word is not empty, and nothing follows an open quote. */
  predicate Layout(gaps: seq<string>, ws: seq<Word>, end: string) {
    && |gaps| == |ws| && Blanks(end)
    && (forall i | 0 <= i < |ws| :: Blanks(gaps[i]) && Spellable(ws[i]))
    && (forall i | 0 < i < |ws| :: ws[i - 1].Plain? ==> gaps[i] != [])
    && (forall i | 0 <= i < |ws| :: ws[i].Open? ==> i + 1 == |ws| && end == [])
  }

  predicate LaidAs(line: string, gaps: seq<string>, ws: seq<Word>, end: string) {
    |gaps| == |ws| && Layout(gaps, ws, end) && line == Laid(gaps, ws, end)
  }

  function TextsOf(ws: seq<Word>): (ts: seq<string>)
    ensures |ts| == |ws|
  {
    seq(|ws|, i requires 0 <= i < |ws| => ws[i].text)
  }

  // ---- Tokens of a layout ----

  lemma {:induction false} BlanksSkipped(gap: string, rest: string)
    requires Blanks(gap) && (rest == [] || !IsBlank(rest[0]))
    ensures SkipBlanks(gap + rest) == rest
  {
    if gap == [] {
      assert gap + rest == rest;
    } else {
      assert (gap + rest)[1..] == gap[1..] + rest;
      BlanksSkipped(gap[1..], rest);
    }
  }

  lemma {:induction false} UntilBlankOf(t: string, rest: string)
    requires ' ' !in t && '\t' !in t && (rest == [] || IsBlank(rest[0]))
    ensures UntilBlank(t + rest) == |t|
  {
    if t == [] {
      assert t + rest == rest;
    } else {
      assert t[0] in t;
      assert (t + rest)[1..] == t[1..] + rest;
      UntilBlankOf(t[1..], rest);
    }
  }

  lemma {:induction false} NoQuoteAhead(t: string)
    requires '"' !in t
    ensures UntilQuote(t) == |t|
  {
    if t != [] {
      assert t[0] in t;
      NoQuoteAhead(t[1..]);
    }
  }

  lemma WordCut(w: Word, rest: string)
    requires Spellable(w)
    requires (w.Plain? ==> rest == [] || IsBlank(rest[0])) && (w.Open? ==> rest == [])
    ensures Spell(w) + rest != [] && !IsBlank((Spell(w) + rest)[0]) && Cut(Spell(w) + rest) == (w.text, rest)
  {
    hide UntilQuote, UntilBlank;
    var s := Spell(w) + rest;
    match w
    case Closed(t) => CutQuoted(t, rest);
    case Plain(t) =>
      assert t[0] in t && s[0] == t[0];
      UntilBlankOf(t, rest);
      assert s[..|t|] == t && s[|t|..] == rest;
    case Open(t) =>
      assert s[1..] == t;
      NoQuoteAhead(t);
      assert t[..|t|] == t && t[|t|..] == [];
  }

  lemma RestOfLayout(gaps: seq<string>, ws: seq<Word>, end: string)
    requires Layout(gaps, ws, end) && ws != []
    ensures Layout(gaps[1..], ws[1..], end)
    ensures var rest := Laid(gaps[1..], ws[1..], end);
            (ws[0].Plain? ==> rest == [] || IsBlank(rest[0])) && (ws[0].Open? ==> rest == [])
  {
    if |ws| == 1 {
      assert gaps[1..] == [] && ws[1..] == [];
    } else {
      assert gaps[1..][0] == gaps[1] && ws[1..][0] == ws[1];
    }
  }

  /** The tokens of a line are the texts of its words, as many as there is room for. */
  lemma {:induction false} TokensOfLayout(gaps: seq<string>, ws: seq<Word>, end: string, room: nat)
    requires Layout(gaps, ws, end)
    ensures Tokens(Laid(gaps, ws, end), room) == if room < |ws| then TextsOf(ws)[..room] else TextsOf(ws)
    decreases |ws|
  {
    hide Cut, SkipBlanks, Spell, Spellable, Tokens;
    var line := Laid(gaps, ws, end);
    if room == 0 {
      NothingLeft(line, room);
    } else {
      TokensStep(line, room);
      if ws == [] {
        assert end + [] == end;
        BlanksSkipped(end, []);
      } else {
        var rest := Laid(gaps[1..], ws[1..], end);
        RestOfLayout(gaps, ws, end);
        WordCut(ws[0], rest);
        BlanksSkipped(gaps[0], Spell(ws[0]) + rest);
        TokensOfLayout(gaps[1..], ws[1..], end, room - 1);
        assert TextsOf(ws) == [ws[0].text] + TextsOf(ws[1..]);
      }
    }
  }

  // ---- Every line has a layout ----

  lemma OneMoreBlank(s: string, gap: string, rest: string)
    requires s != [] && IsBlank(s[0]) && s[1..] == gap + rest && Blanks(gap)
    ensures s[..|s| - |rest|] == [s[0]] + gap && s == s[..|s| - |rest|] + rest && Blanks(s[..|s| - |rest|])
  {
    assert s == [s[0]] + gap + rest;
  }

  lemma {:induction false} SkippedAreBlanks(s: string)
    ensures |SkipBlanks(s)| <= |s| && s == s[..|s| - |SkipBlanks(s)|] + SkipBlanks(s)
    ensures Blanks(s[..|s| - |SkipBlanks(s)|])
    ensures s != [] && IsBlank(s[0]) ==> |SkipBlanks(s)| < |s|
  {
    if s != [] && IsBlank(s[0]) {
      var rest := SkipBlanks(s[1..]);
      SkippedAreBlanks(s[1..]);
      OneMoreBlank(s, s[1..][..|s| - 1 - |rest|], rest);
    }
  }

  lemma {:induction false} QuoteFree(s: string)
    ensures '"' !in s[..UntilQuote(s)] && (UntilQuote(s) < |s| ==> s[UntilQuote(s)] == '"')
  {
    if s != [] && s[0] != '"' {
      QuoteFree(s[1..]);
      assert s[..UntilQuote(s)] == [s[0]] + s[1..][..UntilQuote(s) - 1];
    }
  }

  lemma {:induction false} BlankFree(s: string)
    ensures ' ' !in s[..UntilBlank(s)] && '\t' !in s[..UntilBlank(s)]
    ensures UntilBlank(s) < |s| ==> IsBlank(s[UntilBlank(s)])
  {
    if s != [] && !IsBlank(s[0]) {
      BlankFree(s[1..]);
      assert s[..UntilBlank(s)] == [s[0]] + s[1..][..UntilBlank(s) - 1];
    }
  }

  /** The first word of a text that does not start with a blank. */
  lemma FirstWord(s: string) returns (w: Word, rest: string)
    requires s != [] && !IsBlank(s[0])
    ensures s == Spell(w) + rest && Spellable(w) && |rest| < |s|
    ensures (w.Plain? ==> rest == [] || IsBlank(rest[0])) && (w.Open? ==> rest == [])
  {
    if s[0] == '"' {
      var t := s[1..];
      var n := UntilQuote(t);
      QuoteFree(t);
      w := if n == |t| then Open(t) else Closed(t[..n]);
      rest := if n == |t| then [] else t[n + 1..];
      assert n == |t| ==> t[..n] == t;
      assert n < |t| ==> t == t[..n] + "\"" + rest;
      assert s == ['"'] + t;
    } else {
      BlankFree(s);
      var n := UntilBlank(s);
      w, rest := Plain(s[..n]), s[n..];
    }
  }

  lemma {:induction false} EveryLineIsLaidOut(line: string) returns (gaps: seq<string>, ws: seq<Word>, end: string)
    ensures Layout(gaps, ws, end) && line == Laid(gaps, ws, end)
    ensures line != [] && IsBlank(line[0]) && ws != [] ==> gaps[0] != []
    ensures line == [] ==> ws == [] && end == []
    decreases |line|
  {
    hide SkipBlanks, Spell, Spellable, Blanks, Layout;
    var s := SkipBlanks(line);
    SkippedAreBlanks(line);
    var gap := line[..|line| - |s|];
    if s == [] {
      gaps, ws, end := [], [], line;
      assert gap == line;
      EmptyLayout(line);
    } else {
      NotBlank(line);
      var w, rest := FirstWord(s);
      var gs, us, e := EveryLineIsLaidOut(rest);
      gaps, ws, end := [gap] + gs, [w] + us, e;
      assert gaps[1..] == gs && ws[1..] == us;
      LayoutFirst(gap, w, gs, us, e);
    }
  }

  lemma EmptyLayout(end: string)
    requires Blanks(end)
    ensures Layout([], [], end)
  {}

  lemma LayoutFirst(gap: string, w: Word, gaps: seq<string>, ws: seq<Word>, end: string)
    requires Layout(gaps, ws, end) && Blanks(gap) && Spellable(w)
    requires w.Plain? && ws != [] ==> gaps[0] != []
    requires w.Open? ==> ws == [] && end == []
    ensures Layout([gap] + gaps, [w] + ws, end)
  {
    hide Blanks, Spellable;
  }

  /** A line gives exactly these tokens if and only if it is laid out with words of these texts. */
  lemma TokensExact(line: string, ts: seq<string>)
    ensures Tokens(line, |line|) == ts <==>
            exists gaps: seq<string>, ws: seq<Word>, end: string :: LaidAs(line, gaps, ws, end) && TextsOf(ws) == ts
  {
    hide Tokens, TextsOf, Layout;
    forall gaps: seq<string>, ws: seq<Word>, end: string | LaidAs(line, gaps, ws, end)
      ensures Tokens(line, |line|) == TextsOf(ws)
    {
      FewWords(gaps, ws, end);
      TokensOfLayout(gaps, ws, end, |line|);
    }
    var gaps, ws, end := EveryLineIsLaidOut(line);
    SameCount(gaps, ws, end);
    assert LaidAs(line, gaps, ws, end);
  }

  lemma SameCount(gaps: seq<string>, ws: seq<Word>, end: string)
    requires Layout(gaps, ws, end)
    ensures |gaps| == |ws|
  {}

  lemma {:induction false} FewWords(gaps: seq<string>, ws: seq<Word>, end: string)
    requires Layout(gaps, ws, end)
    ensures |ws| <= |Laid(gaps, ws, end)|
    decreases |ws|
  {
    if ws != [] {
      RestOfLayout(gaps, ws, end);
      FewWords(gaps[1..], ws[1..], end);
      assert |Spell(ws[0])| >= 1;
    }
  }

  /** What a line's first 128 words are is what the server's parser reads from what is sent for it. */
  lemma LineReachesServer(gaps: seq<string>, ws: seq<Word>, end: string, rest: string, tail: Tail)
    requires Layout(gaps, ws, end) && ws != []
    requires IsCString(Laid(gaps, ws, end)) && |Laid(gaps, ws, end)| <= INT32_MAX
    ensures var line := Laid(gaps, ws, end);
            var ts := if |ws| > 128 then TextsOf(ws)[..128] else TextsOf(ws);
            Parse(Command(line) + rest, tail) == Complete(Array(Bulks(ts)), |Command(line)|)
  {
    hide Tokens, Layout, TextsOf, Command, Parse, Laid;
    SameCount(gaps, ws, end);
    TokensOfLayout(gaps, ws, end, MAX_TOKENS);
    ServerReadsTokens(Laid(gaps, ws, end), rest, tail);
  }
}
