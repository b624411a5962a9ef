/** A client connection as written: a fixed read buffer drained by the pump, and a growing write buffer. */
module Connection {
  import opened Resp
  import opened RespParser
  import opened ReplyBuffer
  import opened Pump
  import opened Commands
  import opened Pipeline
  import CommandHandlers
  import Store = Database

  const CLIENT_BUF_SIZE: nat := 65536

  /** `memmove` of the bytes from `n` to `len` to the front. */
  method MoveDown(buf: array<char>, n: nat, len: nat)
    requires n <= len <= buf.Length
    modifies buf
    ensures buf[..] == Moved(old(buf[..]), n, len)
  {
    forall i | 0 <= i < len - n {
      buf[i] := buf[n + i];
    }
  }

  class Client {
    var readBuf: array<char>
    var readLen: nat
    var writeBuf: array<char>
    var writeLen: nat
    var writeCap: nat
    var writePos: nat
    /** How many commands this connection has run, which stands for the time the next one will read. */
    var served: nat
    /** All reply bytes ever queued, and all bytes ever sent. */
    ghost var queued: string
    ghost var sent: string

    /** What was sent, followed by what waits in the write buffer, is every reply byte so far. */
    ghost predicate Valid()
      reads this, readBuf, writeBuf
    {
      && readBuf != writeBuf
      && readBuf.Length == CLIENT_BUF_SIZE && readLen <= CLIENT_BUF_SIZE
      && writeBuf.Length == writeCap > 0 && writePos <= writeLen <= writeCap
      && queued == sent + writeBuf[writePos..writeLen]
    }

    /** The bytes received but not consumed. */
    ghost function Pending(): string
      requires Valid()
      reads this, readBuf, writeBuf
    {
      readBuf[..readLen]
    }

    constructor ()
      ensures Valid() && fresh(readBuf) && fresh(writeBuf)
      ensures Pending() == [] && queued == [] && sent == [] && served == 0
    {
      readBuf := new char[CLIENT_BUF_SIZE](_ => '\0');
      readLen := 0;
      writeCap := 1024;
      writeBuf := new char[1024];
      writeLen := 0;
      writePos := 0;
      queued, sent, served := [], [], 0;
    }

    /** Room for `extra` more bytes in the write buffer, by doubling. */
    method GrowWrite(extra: nat)
      requires Valid()
      modifies this`writeBuf, this`writeCap
      ensures Valid() && (writeBuf == old(writeBuf) || fresh(writeBuf)) && writeLen + extra <= writeCap
      ensures writeBuf[..writeLen] == old(writeBuf[..writeLen])
    {
      ghost var before := writeBuf[..writeLen];
      while writeLen + extra > writeCap
        invariant writeBuf.Length == writeCap > 0 && writePos <= writeLen <= writeCap
        invariant (writeBuf == old(writeBuf) || fresh(writeBuf)) && writeBuf != readBuf
        invariant writeBuf[..writeLen] == before
        decreases writeLen + extra - writeCap
      {
        writeBuf := Realloc(writeBuf, writeLen, writeCap * 2);
        writeCap := writeCap * 2;
      }
      assert writeBuf[writePos..writeLen] == before[writePos..];
    }

    method QueueWrite(data: string)
      requires Valid()
      modifies this`writeBuf, this`writeLen, this`writeCap, this`queued, writeBuf
      ensures Valid() && (writeBuf == old(writeBuf) || fresh(writeBuf))
      ensures queued == old(queued) + data && Pending() == old(Pending())
    {
      ghost var before := writeBuf[..writeLen];
      assert writeBuf[writePos..writeLen] == before[writePos..];
      GrowWrite(|data|);
      Copy(writeBuf, writeLen, data);
      writeLen := writeLen + |data|;
      queued := queued + data;
      Window(before, data, writePos);
      assert writeBuf[writePos..writeLen] == writeBuf[..writeLen][writePos..];
    }

    /** One `send` that accepted `n` bytes; a fully sent buffer starts over. */
    method Send(n: nat)
      requires Valid() && 0 < n <= writeLen - writePos
      modifies this`writePos, this`writeLen, this`sent
      ensures Valid() && queued == old(queued) && Pending() == old(Pending())
      ensures sent == old(sent) + old(writeBuf[writePos..writePos + n])
    {
      ghost var out := writeBuf[writePos..writePos + n];
      assert writeBuf[writePos..writeLen] == out + writeBuf[writePos + n..writeLen];
      sent := sent + out;
      writePos := writePos + n;
      if writePos >= writeLen {
        writePos := 0;
        writeLen := 0;
      }
    }

    /** One `recv` into the free part of the read buffer. */
    method Receive(chunk: string)
      requires Valid() && readLen + |chunk| <= CLIENT_BUF_SIZE
      modifies this`readLen, readBuf
      ensures Valid() && Pending() == old(Pending()) + chunk
    {
      Copy(readBuf, readLen, chunk);
      readLen := readLen + |chunk|;
    }

    /** What draining the pending bytes will do. */
    ghost function Plan(db: Store.Database, clock: nat -> Env): Drained<State>
      requires Valid()
      reads this, readBuf, writeBuf, db
    {
      DrainBlock(Server(clock), State(db.table, served), readBuf[..], readLen)
    }

    /** The loop that runs every complete command and keeps the rest. */
    method ProcessInput(db: Store.Database, clock: nat -> Env)
      requires Valid() && forall v | v in Plan(db, clock).commands :: Handled(v)
      modifies this`readLen, this`writeBuf, this`writeLen, this`writeCap, this`queued, this`served
      modifies readBuf, writeBuf, db`table
      ensures Valid() && (writeBuf == old(writeBuf) || fresh(writeBuf)) && sent == old(sent)
      ensures var d := old(Plan(db, clock));
              && queued == old(queued) + d.replies
              && Pending() == d.left
              && State(db.table, served) == d.state
    {
      hide DrainBlock, Parse, Handled, ExecValue, ReplyBytes, Server, Moved, Serve;
      ghost var plan := Plan(db, clock);
      ghost var done: string := [];
      while readLen > 0
        invariant Valid() && (writeBuf == old(writeBuf) || fresh(writeBuf)) && sent == old(sent)
        invariant forall v | v in Plan(db, clock).commands :: Handled(v)
        invariant plan.left == Plan(db, clock).left && plan.state == Plan(db, clock).state
        invariant plan.replies == done + Plan(db, clock).replies && queued == old(queued) + done
        decreases readLen
      {
        ghost var s := State(db.table, served);
        assert readBuf[0..0 + readLen] == readBuf[..][..readLen];
        assert readBuf[0 + readLen..] == readBuf[..][readLen..];
        BlockHead(Server(clock), s, readBuf[..], readLen);
        var consumed, cmd := ParseValue(readBuf, 0, readLen);
        if consumed <= 0 {
          break;
        }
        BlockStep(clock, s, readBuf[..], readLen, cmd.value, consumed);
        ghost var reply := ReplyBytes(cmd.value, Serve(clock, s, cmd.value).1, clock(served));
        RunCommand(db, clock(served), cmd.value, consumed);
        done := done + reply;
      }
      EmptyBlock(Server(clock), State(db.table, served), readBuf[..]);
    }

    /** Drops the first `n` pending bytes. */
    method DropFirst(n: nat)
      requires Valid() && n <= readLen
      modifies this`readLen, readBuf
      ensures Valid() && readBuf[..] == Moved(old(readBuf[..]), n, old(readLen)) && readLen == old(readLen) - n
    {
      hide Moved;
      MoveDown(readBuf, n, readLen);
      readLen := readLen - n;
    }

    /** Executes one command, queues its reply and shifts the read buffer over its `consumed` bytes. */
    method RunCommand(db: Store.Database, env: Env, cmd: Value, consumed: nat)
      requires Valid() && Handled(cmd) && 0 < consumed <= readLen
      modifies this`readLen, this`writeBuf, this`writeLen, this`writeCap, this`queued, this`served
      modifies readBuf, writeBuf, db`table
      ensures Valid() && (writeBuf == old(writeBuf) || fresh(writeBuf)) && sent == old(sent)
      ensures var (t, v) := ExecValue(old(db.table), cmd, env);
              && db.table == t && queued == old(queued) + ReplyBytes(cmd, v, env)
              && readBuf[..] == Moved(old(readBuf[..]), consumed, old(readLen))
              && served == old(served) + 1 && readLen == old(readLen) - consumed
    {
      hide Handled, ExecValue, ReplyBytes, Moved;
      var reply := new Buffer(env.behind);
      CommandHandlers.Execute(db, cmd, env, reply);
      QueueWrite(reply.buf[..reply.len]);
      DropFirst(consumed);
      served := served + 1;
    }
  }

  lemma Window(a: string, b: string, p: nat)
    requires p <= |a|
    ensures (a + b)[p..] == a[p..] + b
  {}

  /** What the parser says of a block of memory decides how its drain begins. */
  lemma BlockHead(exec: (State, Value) -> (State, string), s: State, block: string, len: nat)
    requires len <= |block|
    ensures !Parse(block[..len], Seen(block[len..])).Ambiguous?
    ensures !Parse(block[..len], Seen(block[len..])).Complete? ==>
            var d := DrainBlock(exec, s, block, len);
            d.replies == [] && d.commands == [] && d.left == block[..len] && d.state == s
  {
    hide Parse;
  }

  /** One command of a drain. */
  lemma BlockStep(clock: nat -> Env, s: State, block: string, len: nat, v: Value, n: nat)
    requires len <= |block| && Parse(block[..len], Seen(block[len..])) == Complete(v, n)
    requires forall w | w in DrainBlock(Server(clock), s, block, len).commands :: Handled(w)
    ensures n <= len && Handled(v)
    ensures var (t, r) := ExecValue(s.db, v, clock(s.count));
            Serve(clock, s, v) == (State(t, s.count + 1), r) &&
            DrainBlock(Server(clock), s, block, len) ==
            After(v, ReplyBytes(v, r, clock(s.count)),
                  DrainBlock(Server(clock), State(t, s.count + 1), Moved(block, n, len), len - n))
  {
    hide Parse, Handled, ExecValue, ReplyBytes;
    assert DrainBlock(Server(clock), s, block, len).commands[0] == v;
  }

  lemma EmptyBlock(exec: (State, Value) -> (State, string), s: State, block: string)
    ensures DrainBlock(exec, s, block, 0) == Drained(s, [], [], [], Starved)
  {
    hide Parse;
    EmptyIncomplete(Seen(block));
    assert block[0..] == block;
  }

  // ---- One connection over its life ----

  /** Every chunk fits the free part of the read buffer when it arrives. */
  ghost predicate ChunksFit(exec: (State, Value) -> (State, string), s: State, chunks: seq<string>) {
    forall i | 0 <= i < |chunks| ::
      |Feed(exec, s, chunks[..i], Unseen).left| + |chunks[i]| <= CLIENT_BUF_SIZE
  }

  /** What a prefix of a stream drains is part of what the whole stream drains. */
  lemma PrefixDrains(exec: (State, Value) -> (State, string), s: State, a: string, b: string)
    requires !Drain(exec, s, a + b, Unseen).stop.Unclear?
    ensures !Drain(exec, s, a, Unseen).stop.Unclear?
    ensures var d := Drain(exec, s, a, Unseen);
            && d.commands <= Drain(exec, s, a + b, Unseen).commands
            && (forall v | v in Drain(exec, d.state, d.left + b, Unseen).commands ::
                  v in Drain(exec, s, a + b, Unseen).commands)
            && !Drain(exec, d.state, d.left + b, Unseen).stop.Unclear?
  {
    hide Drain;
    DrainSplit(exec, s, a, b);
    if Drain(exec, s, a, Unseen).stop.Unclear? {
      StaysUnclear(exec, s, a, b);
    }
  }

  lemma ConcatSplit(chunks: seq<string>, i: nat)
    requires i <= |chunks|
    ensures exists rest :: Concat(chunks) == Concat(chunks[..i]) + rest
    decreases |chunks| - i
  {
    hide Concat;
    if i == |chunks| {
      assert chunks[..i] == chunks && Concat(chunks) == Concat(chunks[..i]) + [];
    } else {
      ConcatSplit(chunks, i + 1);
      var rest :| Concat(chunks) == Concat(chunks[..i + 1]) + rest;
      ConcatNext(chunks, i);
      assert Concat(chunks[..i]) + chunks[i] + rest == Concat(chunks[..i]) + (chunks[i] + rest);
    }
  }

  lemma ConcatNext(chunks: seq<string>, i: nat)
    requires i < |chunks|
    ensures Concat(chunks[..i + 1]) == Concat(chunks[..i]) + chunks[i]
  {
    assert chunks[..i + 1][..i] == chunks[..i];
  }

  /**
   A connection that receives its chunks and drains after each one has queued, at the end, the replies to the
   whole stream, and its database is the one after all its commands.
   */
  method ServeChunks(db: Store.Database, clock: nat -> Env, chunks: seq<string>) returns (c: Client)
    requires ChunksFit(Server(clock), State(db.table, 0), chunks)
    requires var d := Drain(Server(clock), State(db.table, 0), Concat(chunks), Unseen);
             !d.stop.Unclear? && forall v | v in d.commands :: Handled(v)
    modifies db`table
    ensures fresh(c) && c.Valid()
    ensures var d := Drain(Server(clock), State(old(db.table), 0), Concat(chunks), Unseen);
            && c.queued == d.replies && c.Pending() == d.left && State(db.table, c.served) == d.state
  {
    hide Drain, DrainBlock, Handled, Server, ChunksFit;
    c := new Client();
    ghost var s := State(db.table, 0);
    ghost var exec := Server(clock);
    EmptyDrain(exec, s);
    for i := 0 to |chunks|
      invariant fresh(c) && c.Valid() && fresh(c.readBuf) && fresh(c.writeBuf)
      invariant var d := Drain(exec, s, Concat(chunks[..i]), Unseen);
                && c.queued == d.replies && c.Pending() == d.left && State(db.table, c.served) == d.state
    {
      ghost var seen := Concat(chunks[..i]);
      assert chunks[..i + 1][..i] == chunks[..i];
      FitsNow(exec, s, chunks, i);
      c.Receive(chunks[i]);
      DrainSplit(exec, s, seen, chunks[i]);
      PrefixHandled(exec, s, chunks, i);
      assert c.readBuf[..][..c.readLen] == c.Pending();
      DrainBlockIsDrain(exec, State(db.table, c.served), c.readBuf[..], c.readLen);
      c.ProcessInput(db, clock);
    }
    assert chunks[..|chunks|] == chunks;
  }

  lemma EmptyDrain(exec: (State, Value) -> (State, string), s: State)
    ensures Drain(exec, s, [], Unseen) == Drained(s, [], [], [], Starved)
    ensures Concat([]) == []
  {
    hide Parse;
    EmptyIncomplete(Unseen);
  }

  lemma FitsNow(exec: (State, Value) -> (State, string), s: State, chunks: seq<string>, i: nat)
    requires ChunksFit(exec, s, chunks) && i < |chunks|
    ensures |Drain(exec, s, Concat(chunks[..i]), Unseen).left| + |chunks[i]| <= CLIENT_BUF_SIZE
  {
    hide Drain;
    ChunkingInvisible(exec, s, chunks[..i]);
  }

  /** The drain after the next chunk can be run and is settled if the whole stream is. */
  lemma PrefixHandled(exec: (State, Value) -> (State, string), s: State, chunks: seq<string>, i: nat)
    requires i < |chunks|
    requires var d := Drain(exec, s, Concat(chunks), Unseen);
             !d.stop.Unclear? && forall v | v in d.commands :: Handled(v)
    ensures var d := Drain(exec, s, Concat(chunks[..i]), Unseen);
            var e := Drain(exec, d.state, d.left + chunks[i], Unseen);
            !e.stop.Unclear? && forall v | v in e.commands :: Handled(v)
  {
    hide Drain, Handled;
    ConcatSplit(chunks, i + 1);
    var rest :| Concat(chunks) == Concat(chunks[..i + 1]) + rest;
    PrefixDrains(exec, s, Concat(chunks[..i + 1]), rest);
    assert chunks[..i + 1][..i] == chunks[..i];
    PrefixDrains(exec, s, Concat(chunks[..i]), chunks[i]);
  }
}
