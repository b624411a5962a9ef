/** From the bytes a client sends to the bytes it gets back: one reply per command, in order. */
module Pipeline {
  import opened CText
  import opened Resp
  import opened Pump
  import opened Keyspace
  import opened Commands
  import opened Replies

  /** The keyspace and the number of commands run so far, which picks the clock reading of the next one. */
  datatype State = State(db: Db, count: nat)

  /** One value: the `count`-th command runs in environment `clock(count)`. What cannot be run does not matter here. */
  function Serve(clock: nat -> Env, s: State, v: Value): (State, Value) {
    if Handled(v) then
      var (db, reply) := ExecValue(s.db, v, clock(s.count));
      (State(db, s.count + 1), reply)
    else (s, Nil)
  }

  /** The command processor as the pump sees it. */
  function Server(clock: nat -> Env): (State, Value) -> (State, string) {
    (s: State, v: Value) =>
      (Serve(clock, s, v).0, ReplyBytes(v, Serve(clock, s, v).1, clock(s.count)))
  }

  /** The replies to a sequence of commands, as values. */
  function ReplyValues(clock: nat -> Env, s: State, cmds: seq<Value>): (vs: seq<Value>)
    ensures |vs| == |cmds|
    decreases |cmds|
  {
    if cmds == [] then []
    else
      var (s', reply) := Serve(clock, s, cmds[0]);
      [reply] + ReplyValues(clock, s', cmds[1..])
  }

  /**
   Commands that are answered with one value each. When one of them runs, the keyspace has room for all its
   arguments: no more keys, and no longer lists, than 64 bits can count.
   */
  predicate Answered(clock: nat -> Env, s: State, cmds: seq<Value>)
    decreases |cmds|
  {
    cmds == [] ||
    (&& Served(cmds[0]) && ShortTexts(cmds[0])
     && Weight(cmds[0]) <= INT32_MAX && Bounded(s.db, INT64_MAX - Weight(cmds[0]))
     && Answered(clock, Serve(clock, s, cmds[0]).0, cmds[1..]))
  }

  /** The strings in an array have fewer than 2 GiB, as those in a read buffer do. */
  predicate ShortTexts(v: Value) { v.Array? ==> forall item | item in v.items && IsText(item) :: |item.text| <= INT32_MAX }

  ghost predicate SaneClocks(clock: nat -> Env) { forall k: nat :: SaneClock(clock(k).now) }

  // ---- What the parser can hand over ----

  /** Parsed strings are C strings. */
  lemma ParsedText(buf: string)
    requires Parse(buf, Unseen).Complete? && IsText(Parse(buf, Unseen).value)
    ensures IsCString(Parse(buf, Unseen).value.text)
  {
    hide StrToLL, Atoi, ParseItems;
  }

  lemma {:induction false} ParsedTexts(buf: string, count: nat)
    requires ParseItems(buf, count, Unseen).Complete?
    ensures forall v | v in ParseItems(buf, count, Unseen).value.items && IsText(v) :: IsCString(v.text)
    decreases |buf|, 1
  {
    hide Parse;
    if count > 0 {
      var first := Parse(buf, Unseen);
      if IsText(first.value) {
        ParsedText(buf);
      }
      ParsedTexts(buf[first.consumed..], count - 1);
    }
  }

  /** A parsed value has clean arguments if they are short, and fewer of them than a third of its bytes. */
  lemma ParsedClean(buf: string)
    requires Parse(buf, Unseen).Complete?
    ensures var v := Parse(buf, Unseen);
            (ShortTexts(v.value) ==> CleanValue(v.value)) && 3 * Weight(v.value) <= v.consumed
  {
    hide CleanArgs;
    var v := Parse(buf, Unseen);
    if v.value.Array? {
      ParsedArray(buf);
      if ShortTexts(v.value) {
        TextsClean(v.value.items);
      }
    }
  }

  lemma ParsedArray(buf: string)
    requires Parse(buf, Unseen).Complete? && Parse(buf, Unseen).value.Array?
    ensures var v := Parse(buf, Unseen);
            && 3 * |v.value.items| <= v.consumed
            && forall w | w in v.value.items && IsText(w) :: IsCString(w.text)
  {
    hide StrToLL, ToInt32, ParseItems;
    var k := FindCrlf(buf).value;
    var num := StrToLL(NumberText(buf, k, Unseen).value);
    ParsedTexts(buf[k + 2..], ToInt32(num));
  }

  lemma TextsClean(items: seq<Value>)
    requires forall v | v in items && IsText(v) :: IsCString(v.text) && |v.text| <= INT32_MAX
    ensures CleanArgs(Texts(items))
  {
    forall a | a in Texts(items) ensures CleanText(a) {
      var i :| 0 <= i < |items| && Texts(items)[i] == a;
      assert items[i] in items;
    }
  }

  // ---- Draining ----

  /** Draining writes exactly the replies of the commands it ran, one each, in order, all well formed. */
  lemma {:induction false} DrainReplies(clock: nat -> Env, s: State, buf: string)
    requires SaneClocks(clock) && Clean(s.db)
    requires Answered(clock, s, Drain(Server(clock), s, buf, Unseen).commands)
    ensures var d := Drain(Server(clock), s, buf, Unseen);
            var vs := ReplyValues(clock, s, d.commands);
            && d.replies == WriteAll(vs)
            && (forall v | v in vs :: WellFormed(v))
            && Clean(d.state.db)
    decreases |buf|
  {
    hide Parse, Clean, Bounded, Serve, WellFormed, Served, ShortTexts, Weight, Write, CleanValue, SaneClocks, ReplyBytes;
    match Parse(buf, Unseen)
    case Complete(v, m) =>
      var d := Drain(Server(clock), s, buf, Unseen);
      assert d.commands[0] == v;
      var (s', reply) := Serve(clock, s, v);
      ParsedClean(buf);
      ServeGood(clock, s, v);
      var rest := Drain(Server(clock), s', buf[m..], Unseen);
      assert d.commands[1..] == rest.commands && d.commands == [v] + rest.commands;
      DrainReplies(clock, s', buf[m..]);
      WriteAllCons(reply, ReplyValues(clock, s', rest.commands));
    case _ =>
  }

  lemma ServeGood(clock: nat -> Env, s: State, v: Value)
    requires Served(v) && CleanValue(v) && SaneClocks(clock) && Clean(s.db)
    requires Weight(v) <= INT32_MAX && Bounded(s.db, INT64_MAX - Weight(v))
    ensures var (s', reply) := Serve(clock, s, v);
            Clean(s'.db) && WellFormed(reply) && ReplyBytes(v, reply, clock(s.count)) == Write(reply)
  {
    hide Good, Clean, Bounded, ExecValue, WellFormed, CleanValue, SaneClock, Recognise, IsCommand, ReplyBytes, Write;
    var n := INT64_MAX - Weight(v);
    GoodParts(s.db, n);
    ExecValueGood(s.db, v, clock(s.count), n);
    GoodParts(Serve(clock, s, v).0.db, INT64_MAX);
    UnknownValue(s.db, v, clock(s.count));
    ServedBytes(v, Serve(clock, s, v).1, clock(s.count));
  }

  lemma UnknownValue(db: Db, v: Value, env: Env)
    requires Handled(v)
    ensures IsUnknown(v) ==> ExecValue(db, v, env).1 == Error(UnknownText(TextOfValue(v.items[0])))
  {
    hide Recognise, UnknownText;
  }

  lemma WriteAllCons(v: Value, vs: seq<Value>)
    ensures WriteAll([v] + vs) == Write(v) + WriteAll(vs)
  {
    hide Write;
    assert ([v] + vs)[1..] == vs;
  }

  /**
   Pipelining is one-to-one and ordered. However the client's bytes are chunked, the reply stream parses into
   exactly one RESP value per command run, in order, with nothing left over.
   */
  lemma PipelineOneToOne(clock: nat -> Env, db: Db, chunks: seq<string>)
    requires SaneClocks(clock) && Clean(db)
    requires Answered(clock, State(db, 0), Feed(Server(clock), State(db, 0), chunks, Unseen).commands)
    ensures var d := Feed(Server(clock), State(db, 0), chunks, Unseen);
            && ParseItems(d.replies, |d.commands|, Unseen) ==
               Complete(Array(ReplyValues(clock, State(db, 0), d.commands)), |d.replies|)
            && d == Drain(Server(clock), State(db, 0), Concat(chunks), Unseen)
  {
    hide ParseItems, WriteAll, Clean, SaneClocks, WellFormed, Answered, Drain, Feed;
    ChunkingInvisible(Server(clock), State(db, 0), chunks);
    DrainReplies(clock, State(db, 0), Concat(chunks));
    var d := Drain(Server(clock), State(db, 0), Concat(chunks), Unseen);
    RoundTripAll(ReplyValues(clock, State(db, 0), d.commands), []);
    assert d.replies + [] == d.replies;
  }

  /** A stream of written values is drained completely, value by value. */
  lemma {:induction false} DrainWritten<S>(exec: (S, Value) -> (S, string), s: S, vs: seq<Value>)
    requires forall v | v in vs :: WellFormed(v)
    ensures var d := Drain(exec, s, WriteAll(vs), Unseen);
            d.commands == vs && d.left == [] && d.stop == Starved
    decreases |vs|
  {
    hide Parse, Write, WellFormed;
    if vs == [] {
      EmptyIncomplete(Unseen);
    } else {
      var w := Write(vs[0]);
      RoundTrip(vs[0], WriteAll(vs[1..]));
      assert WriteAll(vs) == w + WriteAll(vs[1..]);
      assert WriteAll(vs)[|w|..] == WriteAll(vs[1..]);
      DrainWritten(exec, exec(s, vs[0]).0, vs[1..]);
    }
  }

  /**
   End to end: a client that writes served commands, in whatever chunks they arrive, has every one of them run
   in order and reads back exactly one reply for each.
   */
  lemma EndToEnd(clock: nat -> Env, db: Db, cmds: seq<Value>, chunks: seq<string>)
    requires SaneClocks(clock) && Clean(db) && Answered(clock, State(db, 0), cmds)
    requires forall v | v in cmds :: WellFormed(v)
    requires Concat(chunks) == WriteAll(cmds)
    ensures var d := Feed(Server(clock), State(db, 0), chunks, Unseen);
            && d.commands == cmds && d.left == []
            && ParseItems(d.replies, |cmds|, Unseen) ==
               Complete(Array(ReplyValues(clock, State(db, 0), cmds)), |d.replies|)
  {
    hide ParseItems, WriteAll, Clean, SaneClocks, WellFormed, Answered, Drain, Feed, ReplyValues;
    DrainWritten(Server(clock), State(db, 0), cmds);
    ChunkingInvisible(Server(clock), State(db, 0), chunks);
    PipelineOneToOne(clock, db, chunks);
  }
}
