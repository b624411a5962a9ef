/**
 The pump around the parser: drain every complete command from the pending bytes, run it, queue its reply,
 keep the rest. `exec` stands for the command processor; its state `S` may hold the database, the clock and
 anything else that decides a reply.
 */
module Pump {
  import opened Resp
  import opened CText

  /** Why the pump stopped: it waits for bytes, or the parser refused the head of the buffer. */
  datatype Stop = Starved | Refused | Unclear

  /** What draining did: the new state, the reply bytes, the commands run, the bytes left, and why it stopped. */
  datatype Drained<S> = Drained(state: S, replies: string, commands: seq<Value>, left: string, stop: Stop)

  function Drain<S>(exec: (S, Value) -> (S, string), s: S, buf: string, tail: Tail): (d: Drained<S>)
    ensures |d.left| <= |buf|
    decreases |buf|
  {
    match Parse(buf, tail)
    case Incomplete => Drained(s, [], [], buf, Starved)
    case Malformed => Drained(s, [], [], buf, Refused)
    case Ambiguous => Drained(s, [], [], buf, Unclear)
    case Complete(v, n) =>
      var (s', reply) := exec(s, v);
      After(v, reply, Drain(exec, s', buf[n..], tail))
  }

  /** One executed command in front of what was drained after it. */
  function After<S>(v: Value, reply: string, d: Drained<S>): Drained<S> {
    d.(replies := reply + d.replies, commands := [v] + d.commands)
  }

  /** More bytes arrive behind what an earlier drain left. */
  function Resume<S>(exec: (S, Value) -> (S, string), d: Drained<S>, chunk: string, tail: Tail): Drained<S> {
    var e := Drain(exec, d.state, d.left + chunk, tail);
    e.(replies := d.replies + e.replies, commands := d.commands + e.commands)
  }

  /** A block of memory after `n` of its first `len` bytes were dropped and the others of them moved to the front. */
  function Moved(block: string, n: nat, len: nat): (r: string)
    requires n <= len <= |block|
    ensures |r| == |block| && r[..len - n] == block[n..len]
  {
    block[n..len] + block[len - n..]
  }

  /**
   Draining the first `len` bytes of a block of memory, as written: a number conversion may run into the bytes
   behind them, and after each command the pending bytes are moved to the front of the block.
   */
  function DrainBlock<S>(exec: (S, Value) -> (S, string), s: S, block: string, len: nat): Drained<S>
    requires len <= |block|
    decreases len
  {
    match Parse(block[..len], Seen(block[len..]))
    case Malformed => Drained(s, [], [], block[..len], Refused)
    case Complete(v, n) =>
      var (s', reply) := exec(s, v);
      After(v, reply, DrainBlock(exec, s', Moved(block, n, len), len - n))
    case _ => Drained(s, [], [], block[..len], Starved)
  }

  /** A connection that receives its bytes in chunks, draining after each one. */
  function Feed<S>(exec: (S, Value) -> (S, string), s: S, chunks: seq<string>, tail: Tail): Drained<S> {
    if chunks == [] then Drained(s, [], [], [], Starved)
    else Resume(exec, Feed(exec, s, chunks[..|chunks| - 1], tail), chunks[|chunks| - 1], tail)
  }

  function Concat(chunks: seq<string>): string {
    if chunks == [] then [] else Concat(chunks[..|chunks| - 1]) + chunks[|chunks| - 1]
  }

  // ---- Chunking is invisible ----

  /** One command at the head of a drain. */
  lemma DrainOne<S>(exec: (S, Value) -> (S, string), s: S, buf: string, v: Value, n: nat, tail: Tail)
    requires Parse(buf, tail) == Complete(v, n)
    ensures n <= |buf|
    ensures Drain(exec, s, buf, tail) ==
            After(v, exec(s, v).1, Drain(exec, exec(s, v).0, buf[n..], tail))
  {
    hide Parse;
  }

  /** A drain that runs nothing. */
  lemma DrainNone<S>(exec: (S, Value) -> (S, string), s: S, buf: string, tail: Tail)
    requires !Parse(buf, tail).Complete?
    ensures exists stop :: Drain(exec, s, buf, tail) == Drained(s, [], [], buf, stop)
  {
    hide Parse;
  }

  lemma ResumeNone<S>(exec: (S, Value) -> (S, string), s: S, buf: string, stop: Stop, chunk: string, tail: Tail)
    ensures Resume(exec, Drained(s, [], [], buf, stop), chunk, tail) == Drain(exec, s, buf + chunk, tail)
  {
    hide Drain;
    var e := Drain(exec, s, buf + chunk, tail);
    assert [] + e.replies == e.replies && [] + e.commands == e.commands;
  }

  lemma ResumeAfter<S>(exec: (S, Value) -> (S, string), v: Value, reply: string, d: Drained<S>, chunk: string, tail: Tail)
    ensures Resume(exec, After(v, reply, d), chunk, tail) == After(v, reply, Resume(exec, d, chunk, tail))
  {
    hide Drain;
    var e := Drain(exec, d.state, d.left + chunk, tail);
    assert [v] + (d.commands + e.commands) == ([v] + d.commands) + e.commands;
    assert reply + (d.replies + e.replies) == (reply + d.replies) + e.replies;
  }

  /** Draining in two steps is draining at once. */
  lemma {:induction false} DrainSplit<S>(exec: (S, Value) -> (S, string), s: S, a: string, b: string)
    ensures Drain(exec, s, a + b, Unseen) == Resume(exec, Drain(exec, s, a, Unseen), b, Unseen)
    decreases |a|
  {
    hide Parse, Drain, Resume, After;
    if Parse(a, Unseen).Complete? {
      var v, n := Parse(a, Unseen).value, Parse(a, Unseen).consumed;
      var (s', reply) := exec(s, v);
      ParseStable(a, b);
      DrainOne(exec, s, a, v, n, Unseen);
      DrainOne(exec, s, a + b, v, n, Unseen);
      assert (a + b)[n..] == a[n..] + b;
      DrainSplit(exec, s', a[n..], b);
      ResumeAfter(exec, v, reply, Drain(exec, s', a[n..], Unseen), b, Unseen);
    } else {
      DrainNone(exec, s, a, Unseen);
      var stop :| Drain(exec, s, a, Unseen) == Drained(s, [], [], a, stop);
      ResumeNone(exec, s, a, stop, b, Unseen);
    }
  }

  /**
   However a stream is cut into chunks, the same commands run in the same order, the same reply bytes are
   queued, and the same bytes are left over for the same reason as when it arrives at once.
   */
  lemma {:induction false} ChunkingInvisible<S>(exec: (S, Value) -> (S, string), s: S, chunks: seq<string>)
    ensures Feed(exec, s, chunks, Unseen) == Drain(exec, s, Concat(chunks), Unseen)
  {
    hide Parse;
    if chunks == [] {
      assert Parse([], Unseen).Incomplete? by { EmptyIncomplete(Unseen); }
    } else {
      var before := chunks[..|chunks| - 1];
      ChunkingInvisible(exec, s, before);
      DrainSplit(exec, s, Concat(before), chunks[|chunks| - 1]);
    }
  }

  lemma EmptyIncomplete(tail: Tail)
    ensures Parse([], tail) == Incomplete
  {}

  /** Unless a blank number field is met, the bytes behind the buffer change nothing about a drain. */
  lemma {:induction false} DrainIgnoresTail<S>(exec: (S, Value) -> (S, string), s: S, buf: string, bytes: string)
    requires !Drain(exec, s, buf, Unseen).stop.Unclear?
    ensures Drain(exec, s, buf, Seen(bytes)) == Drain(exec, s, buf, Unseen)
    decreases |buf|
  {
    hide Parse;
    ParseIgnoresTail(buf, bytes);
    match Parse(buf, Unseen)
    case Complete(v, n) => DrainIgnoresTail(exec, exec(s, v).0, buf[n..], bytes);
    case _ =>
  }

  /** So what is drained from a block of memory is what is drained from its pending bytes. */
  lemma {:induction false} DrainBlockIsDrain<S>(exec: (S, Value) -> (S, string), s: S, block: string, len: nat)
    requires len <= |block| && !Drain(exec, s, block[..len], Unseen).stop.Unclear?
    ensures DrainBlock(exec, s, block, len) == Drain(exec, s, block[..len], Unseen)
    decreases len
  {
    hide Parse;
    var buf := block[..len];
    ParseIgnoresTail(buf, block[len..]);
    match Parse(buf, Unseen)
    case Complete(v, n) =>
      assert Moved(block, n, len)[..len - n] == buf[n..];
      DrainBlockIsDrain(exec, exec(s, v).0, Moved(block, n, len), len - n);
    case _ =>
  }

  /** A drain is unclear only if some header line has a blank number field. */
  lemma {:induction false} UnclearMeansBlank<S>(exec: (S, Value) -> (S, string), s: S, buf: string)
    requires Drain(exec, s, buf, Unseen).stop.Unclear?
    ensures HasBlankHeader(buf)
    decreases |buf|
  {
    hide Parse, HasBlankHeader;
    match Parse(buf, Unseen)
    case Complete(v, n) =>
      UnclearMeansBlank(exec, exec(s, v).0, buf[n..]);
      BlankHeaderBehind(buf, n);
    case Ambiguous => AmbiguousMeansBlank(buf);
  }

  /** A refused or unclear head of the buffer stays where it is: the connection is stuck. */
  lemma {:induction false} StaysUnclear<S>(exec: (S, Value) -> (S, string), s: S, a: string, b: string)
    requires !Drain(exec, s, a, Unseen).stop.Starved?
    ensures Drain(exec, s, a + b, Unseen) ==
            var d := Drain(exec, s, a, Unseen); d.(left := d.left + b)
    decreases |a|
  {
    hide Parse;
    ParseStable(a, b);
    match Parse(a, Unseen)
    case Complete(v, n) =>
      assert (a + b)[n..] == a[n..] + b;
      StaysUnclear(exec, exec(s, v).0, a[n..], b);
    case _ =>
  }

  /**
   A blank number field makes chunking visible. After the bytes `*CRLF` the server answers an empty command;
   when `1CRLF` arrives in the same read, the count is 1 and the stream is refused without an answer.
   */
  lemma BlankFieldShowsChunking<S>(exec: (S, Value) -> (S, string), s: S)
    ensures Feed(exec, s, ["*\r\n", "1\r\n"], Seen([])).commands == [Array([])]
    ensures Drain(exec, s, Concat(["*\r\n", "1\r\n"]), Seen([])).commands == []
  {
    hide Parse;
    var first, second := "*\r\n", "1\r\n";
    var one: seq<string> := [first];
    var two: seq<string> := [first, second];
    assert one[..0] == [] && two[..1] == one;
    assert [] + first == first && [] + second == second;
    EmptyIncomplete(Seen([]));
    BlankCountAlone();
    DrainWhole(exec, s, first, Array([]), Seen([]));
    var d := Feed(exec, s, one, Seen([]));
    assert d == Resume(exec, Feed(exec, s, [], Seen([])), first, Seen([]));
    assert d.left == [] && d.commands == [Array([])];
    DigitLineRefused();
    assert Feed(exec, s, two, Seen([])) == Resume(exec, d, second, Seen([]));
    BlankCountJoined();
    assert Concat(one) == first;
    assert Concat(two) == first + second;
  }

  lemma DrainWhole<S>(exec: (S, Value) -> (S, string), s: S, buf: string, v: Value, tail: Tail)
    requires Parse(buf, tail) == Complete(v, |buf|)
    ensures Drain(exec, s, buf, tail) == Drained(exec(s, v).0, exec(s, v).1, [v], [], Starved)
  {
    hide Parse;
    EmptyIncomplete(tail);
    assert buf[|buf|..] == [];
  }

  lemma BlankCountAlone()
    ensures Parse("*\r\n", Seen([])) == Complete(Array([]), 3)
  {
    var buf := "*\r\n";
    assert CrlfAt(buf, 1) && !CrlfAt(buf, 0);
    assert FindCrlf(buf) == Wrappers.Some(1);
    BlankFieldReadsOn([], []);
    assert buf[1..] + [] == [] + CRLF + [];
    assert StrToLL([]) == 0;
    ToInt32Identity(0);
    assert ParseItems(buf[3..], 0, Seen([])) == Complete(Array([]), 0);
  }

  lemma DigitLineRefused()
    ensures Parse("1\r\n", Seen([])) == Malformed
  {
    var buf := "1\r\n";
    assert CrlfAt(buf, 1) && !CrlfAt(buf, 0);
    assert FindCrlf(buf) == Wrappers.Some(1);
  }

  lemma BlankCountJoined()
    ensures Parse("*\r\n" + "1\r\n", Seen([])) == Malformed
  {
    var buf := "*\r\n" + "1\r\n";
    assert CrlfAt(buf, 1) && !CrlfAt(buf, 0);
    assert FindCrlf(buf) == Wrappers.Some(1);
    OneReadAcrossLines();
    assert buf[1..] + [] == [] + CRLF + "1\r\n";
    assert Parse(buf, Seen([])) == ParseNumbered(buf, 3, 1, Seen([]));
    OneRefusedItem(buf);
  }

  lemma OneReadAcrossLines()
    ensures StrToLL([] + CRLF + "1\r\n") == 1
  {
    BlankFieldReadsOn([], "1\r\n");
    StrToLLPrinted(1, CRLF);
    assert Print(1) + CRLF == "1\r\n";
  }

  lemma OneRefusedItem(buf: string)
    requires buf == "*\r\n" + "1\r\n"
    ensures ParseNumbered(buf, 3, 1, Seen([])) == Malformed
  {
    ToInt32Identity(1);
    assert buf[3..] == "1\r\n";
    DigitLineRefused();
    assert ParseItems(buf[3..], 1, Seen([])) == Malformed;
  }
}
