/**
 When a cut in the stream is invisible, with number conversions running into whatever memory lies behind the
 bytes received so far.
 */
module ChunkExactness {
  import opened CText
  import opened Resp
  import opened Pump

  /** Draining at the cut behind `a`, and again when `rest` has arrived, is draining all of it at once. */
  ghost predicate CutInvisible<S>(exec: (S, Value) -> (S, string), s: S, a: string, rest: string, bytes: string) {
    Drain(exec, s, a + rest, Seen(bytes)) == Resume(exec, Drain(exec, s, a, Seen(bytes)), rest, Seen(bytes))
  }

  /** Each command that the parser hands over before the cut, it would hand over with the rest there as well. */
  predicate SameVerdicts(a: string, rest: string, bytes: string)
    decreases |a|
  {
    match Parse(a, Seen(bytes))
    case Complete(v, n) => Parse(a + rest, Seen(bytes)) == Complete(v, n) && SameVerdicts(a[n..], rest, bytes)
    case _ => true
  }

  lemma AfterIsOneToOne<S>(v: Value, reply: string, d: Drained<S>, e: Drained<S>)
    ensures After(v, reply, d) == After(v, reply, e) <==> d == e
  {
    if After(v, reply, d) == After(v, reply, e) {
      assert (reply + d.replies)[|reply|..] == d.replies && (reply + e.replies)[|reply|..] == e.replies;
      assert ([v] + d.commands)[1..] == d.commands && ([v] + e.commands)[1..] == e.commands;
    }
  }

  /** What is drained at once starts with another command, or none. */
  lemma OtherHead<S>(exec: (S, Value) -> (S, string), s: S, a: string, rest: string, bytes: string, v: Value, n: nat)
    requires Parse(a, Seen(bytes)) == Complete(v, n) && Parse(a + rest, Seen(bytes)) != Complete(v, n)
    ensures !([v] <= Drain(exec, s, a + rest, Seen(bytes)).commands)
  {
    hide Parse, Drain;
    var whole := Parse(a + rest, Seen(bytes));
    if whole.Complete? {
      DrainOne(exec, s, a + rest, whole.value, whole.consumed, Seen(bytes));
      assert Drain(exec, s, a + rest, Seen(bytes)).commands[0] == whole.value;
      if whole.value == v {
        SameValueSameLength(a, rest, bytes, bytes);
      }
    } else {
      DrainNone(exec, s, a + rest, Seen(bytes));
    }
  }

  /** A cut is invisible if and only if it changes no verdict of the parser, for every stream, cut and memory. */
  lemma {:induction false} CutExact<S>(exec: (S, Value) -> (S, string), s: S, a: string, rest: string, bytes: string)
    ensures CutInvisible(exec, s, a, rest, bytes) <==> SameVerdicts(a, rest, bytes)
    decreases |a|
  {
    hide Parse, Drain, Resume, After;
    var tail := Seen(bytes);
    if Parse(a, tail).Complete? {
      var v, n := Parse(a, tail).value, Parse(a, tail).consumed;
      var (s', reply) := exec(s, v);
      DrainOne(exec, s, a, v, n, tail);
      var d := Drain(exec, s', a[n..], tail);
      ResumeAfter(exec, v, reply, d, rest, tail);
      if Parse(a + rest, tail) == Complete(v, n) {
        DrainOne(exec, s, a + rest, v, n, tail);
        assert (a + rest)[n..] == a[n..] + rest;
        AfterIsOneToOne(v, reply, Drain(exec, s', a[n..] + rest, tail), Resume(exec, d, rest, tail));
        CutExact(exec, s', a[n..], rest, bytes);
      } else {
        OtherHead(exec, s, a, rest, bytes, v, n);
        AfterHead(v, reply, Resume(exec, d, rest, tail));
      }
    } else {
      DrainNone(exec, s, a, tail);
      var stop :| Drain(exec, s, a, tail) == Drained(s, [], [], a, stop);
      ResumeNone(exec, s, a, stop, rest, tail);
    }
  }

  lemma AfterHead<S>(v: Value, reply: string, d: Drained<S>)
    ensures [v] <= After(v, reply, d).commands
  {}

  // ---- Clear streams ----

  /** No verdict on the way through the bytes depends on memory behind them. */
  predicate Clear(a: string)
    decreases |a|
  {
    match Parse(a, Unseen)
    case Complete(_, n) => Clear(a[n..])
    case Ambiguous => false
    case _ => true
  }

  lemma {:induction false} ClearIsNotUnclear<S>(exec: (S, Value) -> (S, string), s: S, a: string)
    ensures Clear(a) <==> !Drain(exec, s, a, Unseen).stop.Unclear?
    decreases |a|
  {
    hide Parse;
    match Parse(a, Unseen)
    case Complete(v, n) => ClearIsNotUnclear(exec, exec(s, v).0, a[n..]);
    case _ =>
  }

  /** Bytes without a blank number field are clear. */
  lemma {:induction false} NoBlankIsClear(a: string)
    requires !HasBlankHeader(a)
    ensures Clear(a)
    decreases |a|
  {
    hide Parse, HasBlankHeader;
    match Parse(a, Unseen)
    case Complete(_, n) =>
      if HasBlankHeader(a[n..]) {
        BlankHeaderBehind(a, n);
      }
      NoBlankIsClear(a[n..]);
    case Ambiguous => AmbiguousMeansBlank(a);
    case _ =>
  }

  lemma {:induction false} ClearIsSame(a: string, rest: string, bytes: string)
    requires Clear(a)
    ensures SameVerdicts(a, rest, bytes)
    decreases |a|
  {
    hide Parse;
    ParseIgnoresTail(a, bytes);
    if Parse(a, Unseen).Complete? {
      ParseStable(a, rest);
      ParseIgnoresTail(a + rest, bytes);
      ClearIsSame(a[Parse(a, Unseen).consumed..], rest, bytes);
    }
  }

  /** A cut behind clear bytes is invisible, whatever the rest of the stream is and whatever lies in memory. */
  lemma ClearCut<S>(exec: (S, Value) -> (S, string), s: S, a: string, rest: string, bytes: string)
    requires Clear(a)
    ensures CutInvisible(exec, s, a, rest, bytes)
  {
    hide Clear, SameVerdicts, CutInvisible;
    ClearIsSame(a, rest, bytes);
    CutExact(exec, s, a, rest, bytes);
  }

  lemma {:induction false} ClearPrefix(a: string, b: string)
    requires Clear(a + b)
    ensures Clear(a)
    decreases |a|
  {
    hide Parse;
    if !Parse(a, Unseen).Incomplete? {
      ParseStable(a, b);
      if Parse(a, Unseen).Complete? {
        var n := Parse(a, Unseen).consumed;
        assert (a + b)[n..] == a[n..] + b;
        ClearPrefix(a[n..], b);
      }
    }
  }

  /**
   With `strtoll` reading from memory as it does, chunking is invisible if the bytes in front of the last chunk
   are clear.
   */
  lemma {:induction false} ChunkingInvisibleInMemory<S>(exec: (S, Value) -> (S, string), s: S, chunks: seq<string>, bytes: string)
    requires chunks != [] ==> Clear(Concat(chunks[..|chunks| - 1]))
    ensures Feed(exec, s, chunks, Seen(bytes)) == Drain(exec, s, Concat(chunks), Seen(bytes))
  {
    hide Parse, Clear, Drain, Resume;
    if chunks == [] {
      NothingDrained(exec, s, Seen(bytes));
    } else {
      var before := chunks[..|chunks| - 1];
      if before != [] {
        ClearPrefix(Concat(before[..|before| - 1]), before[|before| - 1]);
      }
      ChunkingInvisibleInMemory(exec, s, before, bytes);
      ClearCut(exec, s, Concat(before), chunks[|chunks| - 1], bytes);
    }
  }

  lemma NothingDrained<S>(exec: (S, Value) -> (S, string), s: S, tail: Tail)
    ensures Drain(exec, s, [], tail) == Drained(s, [], [], [], Starved)
  {
    hide Parse;
    EmptyIncomplete(tail);
  }

  // ---- A cut behind a header line ----

  /** Nothing but whole commands, all of them clear. */
  predicate Whole(a: string)
    decreases |a|
  {
    a == [] || (Parse(a, Unseen).Complete? && Whole(a[Parse(a, Unseen).consumed..]))
  }

  /** Whole commands in front of a cut change nothing about it. */
  lemma {:induction false} SameBehindWhole(front: string, a: string, rest: string, bytes: string)
    requires Whole(front)
    ensures SameVerdicts(front + a, rest, bytes) <==> SameVerdicts(a, rest, bytes)
    decreases |front|
  {
    hide Parse;
    if front == [] {
      assert front + a == a;
    } else {
      var n := Parse(front, Unseen).consumed;
      ParseStable(front, a);
      ParseIgnoresTail(front + a, bytes);
      ParseStable(front, a + rest);
      assert front + (a + rest) == front + a + rest;
      ParseIgnoresTail(front + a + rest, bytes);
      assert (front + a)[n..] == front[n..] + a;
      SameBehindWhole(front[n..], a, rest, bytes);
    }
  }

  function Header(kind: char, field: string): string { [kind] + field + CRLF }

  /** A header line in front of other bytes, with memory behind. */
  lemma HeaderSeen(kind: char, field: string, rest: string, bytes: string)
    requires IsNumbered(kind) && CrlfFree(field)
    ensures var h := Header(kind, field);
            && |h| >= 3
            && Parse(h + rest, Seen(bytes)) ==
               ParseNumbered(h + rest, |h|,
                             if Blank(field) then StrToLL(rest + bytes) else StrToLL(field), Seen(bytes))
  {
    hide StrToLL, Blank, ParseNumbered, FindCrlf;
    var h := Header(kind, field);
    var buf := h + rest;
    var k := 1 + |field|;
    assert buf == [kind] + field + CRLF + rest;
    FindCrlfAfterLine(kind, field, rest);
    assert CrlfAt(buf, k) && buf[1..k] == field && buf[k + 2..] == rest;
    SeenField(buf, k, bytes);
  }

  /** A header line with a number is clear. */
  lemma NumberedLineIsClear(kind: char, field: string)
    requires IsNumbered(kind) && CrlfFree(field) && !Blank(field)
    ensures Clear(Header(kind, field))
  {
    hide StrToLL, Blank, FindCrlf, ToInt32;
    var h := Header(kind, field);
    var k := 1 + |field|;
    FindCrlfAfterLine(kind, field, []);
    assert h + [] == h && h[1..k] == field && h[k + 2..] == [];
    EmptyIncomplete(Unseen);
    assert Parse(h, Unseen) == ParseNumbered(h, k + 2, StrToLL(field), Unseen);
    if Parse(h, Unseen).Complete? {
      NothingBehind(h, k + 2, StrToLL(field));
      assert h[|h|..] == [];
    }
  }

  lemma NothingBehind(h: string, c: nat, num: int)
    requires 3 <= c == |h|
    ensures !ParseNumbered(h, c, num, Unseen).Ambiguous?
    ensures ParseNumbered(h, c, num, Unseen).Complete? ==> ParseNumbered(h, c, num, Unseen).consumed == |h|
  {
    hide ToInt32;
    assert h[c..] == [];
    EmptyIncomplete(Unseen);
  }

  /** A digit behind a blank length or count that was read as -1 makes the parser wait. */
  lemma WaitsForSeven(h: string, kind: char)
    requires |h| >= 3 && h[0] == kind && (kind == '$' || kind == '*')
    ensures ParseNumbered(h + "7", |h|, 7, Seen("-1")) == Incomplete
  {
    hide Parse;
    ToInt32Identity(7);
    assert (h + "7")[|h|..] == "7";
    ShortIncomplete("7", Seen("-1"));
  }

  lemma ShortIncomplete(buf: string, tail: Tail)
    requires |buf| < 2
    ensures Parse(buf, tail) == Incomplete
  {}

  lemma SevenAndMinusOne()
    ensures StrToLL("7") == 7 && StrToLL("7-1") == 7 && StrToLL("-1") == -1 && StrToLL([]) == 0
  {
    hide StrToLL;
    assert Print(7) == "7" && Print(-1) == "-1" by { SmallPrints(); }
    StrToLLPrinted(7, []);
    StrToLLPrinted(7, "-1");
    StrToLLPrinted(-1, []);
    assert "7" + [] == "7" && "-1" + [] == "-1" && "7" + "-1" == "7-1";
    NoText();
  }

  lemma SmallPrints()
    ensures Print(7) == "7" && Print(-1) == "-1"
  {}

  lemma NoText()
    ensures StrToLL([]) == 0
  {}

  /** A digit behind a blank integer joins it. */
  lemma BlankIntegerChanges(field: string)
    requires CrlfFree(field) && Blank(field)
    ensures !SameVerdicts(Header(':', field), "7", [])
  {
    hide StrToLL, Blank, Parse, ToInt32;
    var h := Header(':', field);
    var none: string := [];
    HeaderSeen(':', field, none, none);
    HeaderSeen(':', field, "7", none);
    assert h + none == h && none + none == none && "7" + none == "7";
    SevenAndMinusOne();
  }

  /** A digit behind a blank length or count takes the place of what memory held. */
  lemma BlankLengthChanges(kind: char, field: string)
    requires (kind == '$' || kind == '*') && CrlfFree(field) && Blank(field)
    ensures !SameVerdicts(Header(kind, field), "7", "-1")
  {
    hide StrToLL, Blank, Parse, ToInt32;
    var h := Header(kind, field);
    HeaderSeen(kind, field, [], "-1");
    HeaderSeen(kind, field, "7", "-1");
    assert h + [] == h && [] + "-1" == "-1" && "7" + "-1" == "7-1";
    SevenAndMinusOne();
    ToInt32Identity(-1);
    WaitsForSeven(h, kind);
  }

  /** The cut behind a blank header line is visible for some rest of the stream and some memory. */
  lemma BlankLineShowsCut(kind: char, field: string)
    requires IsNumbered(kind) && CrlfFree(field) && Blank(field)
    ensures exists rest: string, bytes: string :: !SameVerdicts(Header(kind, field), rest, bytes)
  {
    hide SameVerdicts, Header;
    if kind == ':' {
      BlankIntegerChanges(field);
    } else {
      BlankLengthChanges(kind, field);
    }
  }

  /**
   Behind whole commands and a header line, a cut is invisible for every rest of the stream and every memory if
   and only if the number field of the line is not blank.
   */
  lemma HeaderCutIffNonBlank<S>(exec: (S, Value) -> (S, string), s: S, front: string, kind: char, field: string)
    requires Whole(front) && IsNumbered(kind) && CrlfFree(field)
    ensures (forall rest: string, bytes: string ::
               CutInvisible(exec, s, front + Header(kind, field), rest, bytes)) <==> !Blank(field)
  {
    hide CutInvisible, SameVerdicts, Clear, Whole, Blank, Header;
    var h := Header(kind, field);
    forall rest: string, bytes: string
      ensures CutInvisible(exec, s, front + h, rest, bytes) <==> SameVerdicts(h, rest, bytes)
    {
      CutExact(exec, s, front + h, rest, bytes);
      SameBehindWhole(front, h, rest, bytes);
    }
    if Blank(field) {
      BlankLineShowsCut(kind, field);
      var rest: string, bytes: string :| !SameVerdicts(h, rest, bytes);
      assert !CutInvisible(exec, s, front + h, rest, bytes);
    } else {
      NumberedLineIsClear(kind, field);
      forall rest: string, bytes: string ensures CutInvisible(exec, s, front + h, rest, bytes) {
        ClearIsSame(h, rest, bytes);
      }
    }
  }
}
