/** The command processor as written: handlers with argument loops that append to a reply buffer. */
module CommandHandlers {
  import opened Wrappers
  import opened CText
  import opened Resp
  import opened Keyspace
  import opened Commands
  import opened Replies
  import opened ReplyBuffer
  import Store = Database

  /** Lines of at most 124 bytes of text are sent as they are. */
  method WriteValue(reply: Buffer, v: Value)
    requires reply.Valid() && (v.Error? || v.SimpleString? ==> |v.text| <= 124) && !v.Array?
    modifies reply, reply.buf
    ensures reply.Valid() && (reply.buf == old(reply.buf) || fresh(reply.buf))
    ensures reply.Contents() == old(reply.Contents()) + Write(v)
  {
    match v
    case SimpleString(s) => reply.WriteSimpleString(s);
    case Error(s) => reply.WriteError(s);
    case Integer(n) => reply.WriteInteger(n);
    case BulkString(s) => reply.WriteBulkString(s);
    case Nil => reply.WriteNil();
  }

  method CmdSet(db: Store.Database, args: seq<string>, now: int)
    requires |args| >= 3
    modifies db`table
    ensures db.table == SetOptions(Step(old(db.table), Set(args[1], args[2]), now).0, args, 3, now)
  {
    hide StrToLL, SameName, TryParseInt;
    db.Set(args[1], args[2]);
    var i := 3;
    ghost var target := SetOptions(db.table, args, 3, now);
    while i + 1 < |args|
      invariant SetOptions(db.table, args, i, now) == target
    {
      if SameName(args[i], "EX") {
        var secs := StrToLL(args[i + 1]);
        if secs > 0 {
          var _ := db.Expire(args[1], secs, now);
        }
      }
      i := i + 2;
    }
  }

  method CmdDel(db: Store.Database, keys: seq<string>, now: int) returns (deleted: int)
    modifies db`table
    ensures (db.table, deleted) == DelAll(old(db.table), keys, now)
  {
    deleted := 0;
    for i := 0 to |keys|
      invariant var (t, n) := DelAll(db.table, keys[i..], now);
                DelAll(old(db.table), keys, now) == (t, deleted + n)
    {
      assert keys[i..][0] == keys[i] && keys[i..][1..] == keys[i + 1..];
      var gone := db.Del(keys[i], now);
      if gone {
        deleted := deleted + 1;
      }
    }
  }

  method CmdMSet(db: Store.Database, pairs: seq<string>, now: int)
    modifies db`table
    ensures db.table == SetAll(old(db.table), pairs, now)
  {
    hide TryParseInt;
    var i := 0;
    while i + 1 < |pairs|
      invariant i <= |pairs| && SetAll(db.table, pairs[i..], now) == SetAll(old(db.table), pairs, now)
    {
      assert pairs[i..][2..] == pairs[i + 2..];
      db.Set(pairs[i], pairs[i + 1]);
      i := i + 2;
    }
  }

  /** The header promises one element per key, and the loop writes one for each. */
  method CmdMGet(db: Store.Database, keys: seq<string>, now: int, reply: Buffer)
    requires reply.Valid()
    modifies db`table, reply, reply.buf
    ensures reply.Valid() && (reply.buf == old(reply.buf) || fresh(reply.buf))
    ensures var (t, vs) := GetAll(old(db.table), keys, now);
            db.table == t && reply.Contents() == old(reply.Contents()) + Write(Array(vs))
  {
    hide Write, WriteAll, GetAll, MGetReply, Step, Buffer.Valid, Buffer.Contents;
    reply.WriteArrayHeader(|keys|);
    ghost var (t, vs) := GetAll(db.table, keys, now);
    ghost var start := reply.Contents();
    NothingWritten();
    assert vs[..0] == [] && keys[0..] == keys && vs[0..] == vs;
    for i := 0 to |keys|
      invariant reply.Valid() && (reply.buf == old(reply.buf) || fresh(reply.buf))
      invariant GetAll(db.table, keys[i..], now) == (t, vs[i..])
      invariant reply.Contents() == start + WriteAll(vs[..i])
    {
      GetAllStep(db.table, keys, i, now);
      WriteAllSnoc(vs[..i], vs[i]);
      assert vs[..i + 1] == vs[..i] + [vs[i]] && vs[i..][1..] == vs[i + 1..];
      MGetOne(db, keys[i], now, reply);
    }
    assert vs[..|keys|] == vs;
    GetAllNothing(db.table, keys[|keys|..], now);
    ArrayWritten(vs);
  }

  lemma GetAllNothing(t: Db, keys: seq<string>, now: int)
    requires keys == []
    ensures GetAll(t, keys, now) == (t, [])
  {}

  lemma GetAllStep(t: Db, keys: seq<string>, i: nat, now: int)
    requires i < |keys|
    ensures var (t', obj) := GetObj(t, keys[i], now);
            var (t'', rest) := GetAll(t', keys[i + 1..], now);
            GetAll(t, keys[i..], now) == (t'', [MGetReply(obj)] + rest)
  {
    hide Step;
    assert keys[i..][0] == keys[i] && keys[i..][1..] == keys[i + 1..];
  }

  method MGetOne(db: Store.Database, key: string, now: int, reply: Buffer)
    requires reply.Valid()
    modifies db`table, reply, reply.buf
    ensures reply.Valid() && (reply.buf == old(reply.buf) || fresh(reply.buf))
    ensures var (t, obj) := GetObj(old(db.table), key, now);
            db.table == t && reply.Contents() == old(reply.Contents()) + Write(MGetReply(obj))
  {
    hide Write, Step;
    var obj := db.Get(key, now);
    WriteValue(reply, MGetReply(obj));
  }

  lemma ArrayWritten(vs: seq<Value>)
    ensures Write(Array(vs)) == WriteHeader('*', |vs|) + WriteAll(vs)
  {}

  method CmdPush(db: Store.Database, key: string, values: seq<string>, left: bool, now: int) returns (result: int)
    modifies db`table
    ensures (db.table, result) == PushAll(old(db.table), key, values, left, now, 0)
  {
    hide Step;
    result := 0;
    for i := 0 to |values|
      invariant PushAll(db.table, key, values[i..], left, now, result) ==
                PushAll(old(db.table), key, values, left, now, 0)
    {
      assert values[i..][0] == values[i] && values[i..][1..] == values[i + 1..];
      result := db.Push(key, values[i], left, now);
      if result < 0 {
        return;
      }
    }
  }

  /** The count in the header is the number of elements written. */
  method WriteItems(items: seq<string>, reply: Buffer)
    requires reply.Valid()
    modifies reply, reply.buf
    ensures reply.Valid() && (reply.buf == old(reply.buf) || fresh(reply.buf))
    ensures reply.Contents() == old(reply.Contents()) + Write(Array(Bulks(items)))
  {
    hide Write, WriteAll, Buffer.Valid, Buffer.Contents;
    reply.WriteArrayHeader(|items|);
    ghost var vs := Bulks(items);
    ghost var start := reply.Contents();
    NothingWritten();
    assert vs[..0] == [];
    for i := 0 to |items|
      invariant reply.Valid() && (reply.buf == old(reply.buf) || fresh(reply.buf))
      invariant reply.Contents() == start + WriteAll(vs[..i])
    {
      WriteAllSnoc(vs[..i], vs[i]);
      assert vs[..i + 1] == vs[..i] + [vs[i]];
      reply.WriteBulkString(items[i]);
    }
    assert vs[..|items|] == vs;
    ArrayWritten(vs);
  }

  method WritePopped(s: Option<string>, reply: Buffer)
    requires reply.Valid()
    modifies reply, reply.buf
    ensures reply.Valid() && (reply.buf == old(reply.buf) || fresh(reply.buf))
    ensures reply.Contents() == old(reply.Contents()) + Write(PoppedReply(s))
  {
    hide Write;
    WriteValue(reply, PoppedReply(s));
  }

  method WriteFlag(b: bool, reply: Buffer)
    requires reply.Valid()
    modifies reply, reply.buf
    ensures reply.Valid() && (reply.buf == old(reply.buf) || fresh(reply.buf))
    ensures reply.Contents() == old(reply.Contents()) + Write(OfBool(b))
  {
    hide Write;
    reply.WriteInteger(if b then 1 else 0);
  }

  /** The commands that are a single database call. */
  method CmdSimple(db: Store.Database, c: Command, args: seq<string>, now: int, reply: Buffer)
    requires IsSimple(c) && |args| >= MinArgs(c) && reply.Valid()
    modifies db`table, reply, reply.buf
    ensures reply.Valid() && (reply.buf == old(reply.buf) || fresh(reply.buf))
    ensures var (t, r) := Step(old(db.table), SimpleOp(c, args), now);
            db.table == t && reply.Contents() == old(reply.Contents()) + Write(SimpleReply(r))
  {
    hide Step, Write, StrToLL, Atoi, WRONG_TYPE, GetReply, PoppedReply, OfBool, Bulks, Buffer.Valid, Buffer.Contents;
    match c {
      case CGet =>
        var obj := db.Get(args[1], now);
        ShortGetReply(obj);
        WriteValue(reply, GetReply(obj));
      case CExists =>
        var b := db.Exists(args[1], now);
        WriteFlag(b, reply);
      case CLPop =>
        var s := db.Pop(args[1], true, now);
        WritePopped(s, reply);
      case CRPop =>
        var s := db.Pop(args[1], false, now);
        WritePopped(s, reply);
      case CLRange =>
        var items := db.LRange(args[1], Atoi(args[2]), Atoi(args[3]), now);
        WriteItems(items, reply);
      case CExpire =>
        var b := db.Expire(args[1], StrToLL(args[2]), now);
        WriteFlag(b, reply);
      case CTtl =>
        var n := db.Ttl(args[1], now);
        reply.WriteInteger(n);
      case CPersist =>
        var b := db.Persist(args[1], now);
        WriteFlag(b, reply);
      case CDbSize =>
        SizeStep(db.table, now);
        reply.WriteInteger(|db.table|);
      case CFlushDb =>
        SizeStep(db.table, now);
        db.Flush();
        WriteValue(reply, SimpleString("OK"));
    }
  }

  lemma SizeStep(t: Db, now: int)
    ensures Step(t, Size, now) == (t, Num(|t|)) && Step(t, Flush, now) == (map[], Done)
  {}

  lemma ShortGetReply(obj: Option<Obj>)
    ensures !GetReply(obj).Array? && !GetReply(obj).SimpleString?
    ensures GetReply(obj).Error? ==> |GetReply(obj).text| <= 124
  {}

  method CmdIncr(db: Store.Database, key: string, delta: int, now: int, reply: Buffer)
    requires reply.Valid()
    modifies db`table, reply, reply.buf
    ensures reply.Valid() && (reply.buf == old(reply.buf) || fresh(reply.buf))
    ensures var (t, r) := Step(old(db.table), Incr(key, delta), now);
            db.table == t && reply.Contents() == old(reply.Contents()) + Write(IncrReply(r))
  {
    hide Step, Write;
    TextLengths();
    var n := db.Incr(key, delta, now);
    WriteValue(reply, if n == INT64_MIN then Error(NOT_INTEGER) else Integer(n));
  }

  /** A list length, or the error for a key that holds no list. */
  method WriteLength(n: int, reply: Buffer)
    requires reply.Valid()
    modifies reply, reply.buf
    ensures reply.Valid() && (reply.buf == old(reply.buf) || fresh(reply.buf))
    ensures reply.Contents() == old(reply.Contents()) + Write(PushReply(n))
  {
    hide Write;
    TextLengths();
    WriteValue(reply, if n < 0 then Error(WRONG_TYPE) else Integer(n));
  }

  method Dispatch(db: Store.Database, c: Command, args: seq<string>, env: Env, reply: Buffer)
    requires |args| >= MinArgs(c) && reply.Valid()
    modifies db`table, reply, reply.buf
    ensures reply.Valid() && (reply.buf == old(reply.buf) || fresh(reply.buf))
    ensures var (t, v) := Handle(old(db.table), c, args, env);
            db.table == t && reply.Contents() == old(reply.Contents()) + Write(v)
  {
    hide Step, Write, WriteHeader, SetOptions, DelAll, SetAll, GetAll, PushAll, SimpleReply, SimpleOp, InfoText;
    hide IncrReply, PushReply, Buffer.Valid, Buffer.Contents;
    TextLengths();
    match c {
      case CPing =>
        WriteValue(reply, if |args| > 1 then BulkString(args[1]) else SimpleString("PONG"));
      case CSet =>
        CmdSet(db, args, env.now);
        WriteValue(reply, SimpleString("OK"));
      case CDel =>
        var n := CmdDel(db, args[1..], env.now);
        reply.WriteInteger(n);
      case CIncr =>
        CmdIncr(db, args[1], 1, env.now, reply);
      case CDecr =>
        CmdIncr(db, args[1], -1, env.now, reply);
      case CMSet =>
        CmdMSet(db, args[1..], env.now);
        WriteValue(reply, SimpleString("OK"));
      case CMGet =>
        CmdMGet(db, args[1..], env.now, reply);
      case CLPush =>
        var n := CmdPush(db, args[1], args[2..], true, env.now);
        WriteLength(n, reply);
      case CRPush =>
        var n := CmdPush(db, args[1], args[2..], false, env.now);
        WriteLength(n, reply);
      case CLLen =>
        var n := db.LLen(args[1], env.now);
        WriteLength(n, reply);
      case CInfo =>
        reply.WriteBulkString(InfoText(|db.table|));
      case CSave =>
        WriteValue(reply, if env.saved then SimpleString("OK") else Error(SAVE_FAILED));
      case CShutdown =>
        WriteValue(reply, SimpleString("OK"));
      case _ =>
        CmdSimple(db, c, args, env.now, reply);
    }
  }

  lemma TextLengths()
    ensures |NOT_INTEGER| <= 124 && |WRONG_TYPE| <= 124 && |SAVE_FAILED| <= 124
    ensures |BAD_FORMAT| <= 124 && |BAD_COMMAND| <= 124
  {}

  /** Executes a parsed value: its reply bytes are appended and the database becomes what the command makes of it. */
  method Execute(db: Store.Database, cmd: Value, env: Env, reply: Buffer)
    requires Handled(cmd) && reply.Valid() && reply.behind == env.behind
    modifies db`table, reply, reply.buf
    ensures reply.Valid() && (reply.buf == old(reply.buf) || fresh(reply.buf))
    ensures var (t, v) := ExecValue(old(db.table), cmd, env);
            db.table == t && reply.Contents() == old(reply.Contents()) + ReplyBytes(cmd, v, env)
  {
    hide Handle, Write, SameName, NameOf, Handled, WrongCountText, UnknownText, Buffer.Valid, Buffer.Contents;
    TextLengths();
    if !cmd.Array? || cmd.items == [] {
      WriteValue(reply, Error(BAD_FORMAT));
      return;
    }
    if !IsText(cmd.items[0]) {
      WriteValue(reply, Error(BAD_COMMAND));
      return;
    }
    var args := Texts(cmd.items);
    var i := 0;
    while i < |COMMAND_TABLE|
      invariant i <= |COMMAND_TABLE| && Recognise(args[0]) == Recognise(args[0], i)
    {
      if SameName(args[0], NameOf(COMMAND_TABLE[i])) {
        var c := COMMAND_TABLE[i];
        assert Recognise(args[0]) == Some(c);
        if WrongCount(c, |args|) {
          ShortWrongCount(c);
          WriteValue(reply, Error(WrongCountText(c)));
        } else {
          Dispatch(db, c, args, env, reply);
        }
        return;
      }
      i := i + 1;
    }
    var err := Stored(UnknownText(args[0]), ERROR_SIZE);
    reply.WriteError(err);
  }

  lemma ShortWrongCount(c: Command)
    ensures |WrongCountText(c)| <= 124
  {
    hide NameOf;
    NamePlain(c);
  }
}
