/** Every reply is one well-formed RESP value, in every reachable keyspace. */
module Replies {
  import opened Wrappers
  import opened CText
  import opened Resp
  import opened Keyspace
  import opened Commands
  import LinkedList

  // ---- What runs keep ----

  predicate CleanText(s: string) { IsCString(s) && |s| <= INT32_MAX }

  predicate CleanObj(obj: Obj, n: nat) {
    match obj
    case Str(s) => CleanText(s)
    case Int(num) => IsInt64(num)
    case List(items) => |items| <= n && forall s | s in items :: CleanText(s)
  }

  /** At most `n` keys and at most `n` elements in a list; C strings and 64-bit numbers throughout. */
  predicate Good(db: Db, n: nat) {
    |db| <= n && forall k | k in db :: CleanObj(db[k].obj, n) && IsInt64(db[k].expire)
  }

  /** C strings and 64-bit numbers throughout. */
  predicate Clean(db: Db) {
    forall k | k in db ::
      IsInt64(db[k].expire) &&
      match db[k].obj
      case Str(s) => CleanText(s)
      case Int(num) => IsInt64(num)
      case List(items) => forall s | s in items :: CleanText(s)
  }

  /** At most `n` keys and at most `n` elements in a list. */
  predicate Bounded(db: Db, n: nat) {
    |db| <= n && forall k | k in db && db[k].obj.List? :: |db[k].obj.items| <= n
  }

  lemma GoodParts(db: Db, n: nat)
    ensures Good(db, n) <==> Clean(db) && Bounded(db, n)
  {
    hide CleanText;
  }

  predicate CleanOp(op: Op) {
    match op
    case Set(_, text) => CleanText(text)
    case Incr(_, delta) => IsInt64(delta)
    case LPush(_, value) => CleanText(value)
    case RPush(_, value) => CleanText(value)
    case _ => true
  }

  predicate CleanReply(r: Reply, n: nat) {
    match r
    case Object(obj) => obj.Some? ==> CleanObj(obj.value, n)
    case Num(num) => IsInt64(num)
    case Popped(s) => s.Some? ==> CleanText(s.value)
    case Items(items) => |items| <= INT32_MAX && forall s | s in items :: CleanText(s)
    case _ => true
  }

  lemma ToInt64InRange(n: int)
    ensures IsInt64(ToInt64(n))
  {}

  lemma BindSize(db: Db, k: string, e: Entry)
    ensures |db[k := e]| <= |db| + 1 && |db - {k}| <= |db|
  {
    assert db[k := e].Keys == db.Keys + {k};
    assert (db - {k}).Keys == db.Keys - {k};
  }

  lemma GoodBind(db: Db, k: string, e: Entry, n: nat)
    requires Good(db, n) && CleanObj(e.obj, n + 1) && IsInt64(e.expire)
    ensures Good(db[k := e], n + 1) && Good(db - {k}, n)
  {
    BindSize(db, k, e);
  }

  /** One operation adds at most one key or one element, and its reply is clean. */
  lemma StepGood(db: Db, op: Op, now: int, n: nat)
    requires Good(db, n) && CleanOp(op) && 0 <= now <= INT64_MAX && n <= INT64_MAX
    ensures var (db', r) := Step(db, op, now);
            Good(db', n + 1) && CleanReply(r, n + 1)
  {
    hide TryParseInt, ToInt64, Good, CleanText, StepKey, CleanObj;
    GoodSize(db, n);
    if op.Set? {
      ObjOfClean(op.text, n + 1);
      GoodBind(db, op.key, Entry(ObjOf(op.text), -1), n);
    } else if op.Flush? || op.Size? {
    } else {
      GoodDrop(db, op.key, now, n);
      StepKeyGood(DropExpired(db, op.key, now), op, now, n);
    }
  }

  lemma GoodSize(db: Db, n: nat)
    requires Good(db, n)
    ensures |db| <= n && Good(db, n + 1) && Good(map[], n + 1)
  {}

  lemma ObjOfClean(text: string, n: nat)
    requires CleanText(text)
    ensures CleanObj(ObjOf(text), n)
  {
    hide ScanNumber;
  }

  lemma GoodDrop(db: Db, k: string, now: int, n: nat)
    requires Good(db, n)
    ensures Good(DropExpired(db, k, now), n)
  {
    BindSize(db, k, Entry(Int(0), 0));
  }

  lemma GoodAt(db: Db, k: string, n: nat)
    requires Good(db, n) && k in db
    ensures CleanObj(db[k].obj, n) && CleanObj(db[k].obj, n + 1) && IsInt64(db[k].expire)
  {}

  lemma StepKeyGood(db: Db, op: Op, now: int, n: nat)
    requires !op.Set? && !op.Size? && !op.Flush?
    requires Good(db, n) && CleanOp(op) && 0 <= now <= INT64_MAX && n <= INT64_MAX
    ensures var (db', r) := StepKey(db, op, now);
            Good(db', n + 1) && CleanReply(r, n + 1)
  {
    hide TryParseInt, ToInt64, Good, CleanText, StepIncr, StepPush, StepPop;
    var k := op.key;
    GoodSize(db, n);
    match op
    case Incr(_, delta) => IncrGood(db, k, delta, n);
    case LPush(_, v) => PushGood(db, k, v, true, n);
    case RPush(_, v) => PushGood(db, k, v, false, n);
    case LPop(_) => PopGood(db, k, true, n);
    case RPop(_) => PopGood(db, k, false, n);
    case Expire(_, _) => DeadlineGood(db, op, now, n);
    case Persist(_) => DeadlineGood(db, op, now, n);
    case Del(_) =>
      GoodBind(db, k, Entry(Int(0), 0), n);
      GoodSize(db - {k}, n);
    case _ => ReadGood(db, op, now, n);
  }

  lemma DeadlineGood(db: Db, op: Op, now: int, n: nat)
    requires (op.Expire? || op.Persist?) && Good(db, n)
    ensures Good(StepKey(db, op, now).0, n + 1)
  {
    hide Good, ToInt64;
    GoodSize(db, n);
    if op.key in db {
      GoodDeadline(db, op.key, if op.Expire? then now + op.seconds * 1000 else -1, n);
    }
  }

  lemma GoodDeadline(db: Db, k: string, expire: int, n: nat)
    requires Good(db, n) && k in db
    ensures Good(db[k := db[k].(expire := ToInt64(expire))], n + 1)
    ensures Good(db[k := db[k].(expire := -1)], n + 1)
  {
    hide Good, ToInt64, CleanObj;
    GoodAt(db, k, n);
    ToInt64InRange(expire);
    GoodBind(db, k, db[k].(expire := ToInt64(expire)), n);
    GoodBind(db, k, db[k].(expire := -1), n);
  }

  lemma ReadGood(db: Db, op: Op, now: int, n: nat)
    requires op.Get? || op.Exists? || op.LLen? || op.LRange? || op.Ttl?
    requires Good(db, n) && 0 <= now <= INT64_MAX && n <= INT64_MAX
    ensures StepKey(db, op, now).0 == db && CleanReply(StepKey(db, op, now).1, n + 1)
  {
    hide Good, CleanText;
    var k := op.key;
    if k in db {
      GoodAt(db, k, n);
      if op.LRange? && db[k].obj.List? {
        SliceClean(db[k].obj.items, op.start, op.stop);
      }
    }
  }

  lemma IncrGood(db: Db, k: string, delta: int, n: nat)
    requires Good(db, n) && IsInt64(delta)
    ensures var (db', r) := StepIncr(db, k, delta);
            Good(db', n + 1) && CleanReply(r, n + 1)
  {
    hide TryParseInt, StoreSum, Good, CleanObj, IsInt64;
    GoodSize(db, n);
    TypeErrorClean(n + 1);
    match Lookup(db, k)
    case None => GoodNumber(db, k, delta, n);
    case Some(e) =>
      GoodAt(db, k, n);
      var parsed := if e.obj.Str? then TryParseInt(e.obj.text) else None;
      var m := if e.obj.Int? then e.obj.num else if parsed.Some? then parsed.value else 0;
      SumGood(db, k, e, m + delta, n);
  }

  lemma TypeErrorClean(n: nat)
    ensures CleanReply(Num(TYPE_ERROR), n)
  {}

  lemma GoodNumber(db: Db, k: string, num: int, n: nat)
    requires Good(db, n) && IsInt64(num)
    ensures Good(db[k := Entry(Int(num), -1)], n + 1) && CleanReply(Num(num), n + 1)
  {
    hide Good;
    GoodBind(db, k, Entry(Int(num), -1), n);
  }

  lemma SumGood(db: Db, k: string, e: Entry, sum: int, n: nat)
    requires Good(db, n) && IsInt64(e.expire)
    ensures var (db', r) := StoreSum(db, k, e, sum);
            Good(db', n + 1) && CleanReply(r, n + 1)
  {
    hide ToInt64, Good;
    ToInt64InRange(sum);
    GoodBind(db, k, e.(obj := Int(ToInt64(sum))), n);
  }

  lemma PushGood(db: Db, k: string, v: string, left: bool, n: nat)
    requires Good(db, n) && CleanText(v) && n <= INT64_MAX
    ensures var (db', r) := StepPush(db, k, v, left);
            Good(db', n + 1) && CleanReply(r, n + 1)
  {
    hide Good, CleanText;
    GoodSize(db, n);
    if k in db {
      GoodAt(db, k, n);
      if db[k].obj.List? {
        var items := if left then [v] + db[k].obj.items else db[k].obj.items + [v];
        GoodBind(db, k, db[k].(obj := List(items)), n);
      }
    } else {
      GoodBind(db, k, Entry(List([v]), -1), n);
    }
  }

  lemma PopGood(db: Db, k: string, left: bool, n: nat)
    requires Good(db, n)
    ensures var (db', r) := StepPop(db, k, left);
            Good(db', n + 1) && CleanReply(r, n + 1)
  {
    hide Good, CleanText, CleanReply;
    GoodSize(db, n);
    NothingPopped(n + 1);
    if k in db && db[k].obj.List? {
      GoodRemove(db, k, n);
      if |db[k].obj.items| > 0 {
        PoppedGood(db, k, left, n);
      }
    }
  }

  lemma NothingPopped(n: nat)
    ensures CleanReply(Popped(None), n)
  {}

  lemma PoppedGood(db: Db, k: string, left: bool, n: nat)
    requires Good(db, n) && k in db && db[k].obj.List? && |db[k].obj.items| > 0
    ensures var items := db[k].obj.items;
            var rest := if left then items[1..] else items[..|items| - 1];
            && CleanReply(Popped(Some(items[if left then 0 else |items| - 1])), n + 1)
            && Good(db[k := db[k].(obj := List(rest))], n + 1)
  {
    hide Good, CleanText;
    GoodAt(db, k, n);
    var items := db[k].obj.items;
    if left {
      assert items == [items[0]] + items[1..];
      PartClean(items, items[1..], items[0]);
      GoodList(db, k, items[1..], n);
    } else {
      var last := |items| - 1;
      assert items == items[..last] + [items[last]];
      PartClean(items, items[..last], items[last]);
      GoodList(db, k, items[..last], n);
    }
  }

  lemma GoodList(db: Db, k: string, items: seq<string>, n: nat)
    requires Good(db, n) && k in db && |items| <= n + 1 && forall s | s in items :: CleanText(s)
    ensures Good(db[k := db[k].(obj := List(items))], n + 1)
  {
    hide Good, CleanText;
    GoodAt(db, k, n);
    GoodBind(db, k, db[k].(obj := List(items)), n);
  }

  lemma GoodRemove(db: Db, k: string, n: nat)
    requires Good(db, n)
    ensures Good(db - {k}, n + 1)
  {
    hide Good;
    GoodBind(db, k, Entry(Int(0), 0), n);
    GoodSize(db - {k}, n);
  }

  lemma PartClean(items: seq<string>, rest: seq<string>, popped: string)
    requires items == [popped] + rest || items == rest + [popped]
    requires forall s | s in items :: CleanText(s)
    ensures CleanText(popped) && forall s | s in rest :: CleanText(s)
  {
    hide CleanText;
    assert popped in items;
    assert forall s | s in rest :: s in items;
  }

  lemma SliceClean(items: seq<string>, start: int, stop: int)
    requires forall s | s in items :: CleanText(s)
    ensures |LinkedList.ListRange(items, start, stop)| <= INT32_MAX
    ensures forall s | s in LinkedList.ListRange(items, start, stop) :: CleanText(s)
  {
    hide CleanText;
    LinkedList.CutIsShorter(|items|);
  }

  // ---- Replies are well formed ----

  /** Text that fits a simple line: no CR, no NUL, and short enough for the formatting scratch buffer. */
  predicate PlainText(s: string) { '\r' !in s && '\0' !in s && |s| <= 124 }

  lemma PlainIsWellFormed(s: string)
    requires PlainText(s)
    ensures WellFormed(Error(s)) && WellFormed(SimpleString(s))
  {}

  lemma PlainParts(a: string, b: string)
    requires PlainText(a) && PlainText(b) && |a| + |b| <= 124
    ensures PlainText(a + b)
  {}

  lemma FixedTextsPlain()
    ensures PlainText(WRONG_TYPE) && PlainText(NOT_INTEGER) && PlainText(BAD_FORMAT)
    ensures PlainText(BAD_COMMAND) && PlainText(SAVE_FAILED) && PlainText("OK") && PlainText("PONG")
  {
    hide PlainText;
    WrongTypePlain();
    NotIntegerPlain();
    ShortTextsPlain();
    BadFormatPlain();
    SaveFailedPlain();
  }

  lemma WrongTypePlain()
    ensures PlainText(WRONG_TYPE)
  {
    hide PlainText;
    WrongTypeParts();
    PlainParts("WRONGTYPE Operation against a key ", "holding the wrong kind of value");
  }

  lemma WrongTypeParts()
    ensures PlainText("WRONGTYPE Operation against a key ") && PlainText("holding the wrong kind of value")
  {
    hide PlainText;
    WrongTypeHead();
    WrongTypeTail();
  }

  lemma WrongTypeHead()
    ensures PlainText("WRONGTYPE Operation against a key ")
  {}

  lemma WrongTypeTail()
    ensures PlainText("holding the wrong kind of value")
  {}

  lemma NotIntegerPlain()
    ensures PlainText(NOT_INTEGER)
  {
    hide PlainText;
    NotIntegerParts();
    PlainParts("ERR value is not an ", "integer or out of range");
  }

  lemma NotIntegerParts()
    ensures PlainText("ERR value is not an ") && PlainText("integer or out of range")
  {}

  lemma ShortTextsPlain()
    ensures PlainText(BAD_COMMAND) && PlainText("OK") && PlainText("PONG")
  {}

  lemma BadFormatPlain()
    ensures PlainText(BAD_FORMAT)
  {}

  lemma SaveFailedPlain()
    ensures PlainText(SAVE_FAILED)
  {}

  lemma NamePlain(c: Command)
    ensures '\r' !in NameOf(c) && '\0' !in NameOf(c) && |NameOf(c)| <= 8
  {}

  lemma NameIsPlain(c: Command)
    ensures PlainText(NameOf(c))
  {
    hide NameOf;
    NamePlain(c);
  }

  lemma WrongCountParts()
    ensures PlainText("ERR wrong number of arguments for '") && PlainText("' command")
  {}

  lemma WrongCountPlain(c: Command)
    ensures PlainText(WrongCountText(c))
  {
    hide NameOf, PlainText;
    NamePlain(c);
    WrongCountParts();
    NameIsPlain(c);
    PlainParts("ERR wrong number of arguments for '", NameOf(c));
    PlainParts("ERR wrong number of arguments for '" + NameOf(c), "' command");
  }

  lemma PrintLength(n: int)
    requires IsInt64(n)
    ensures |Print(n)| <= 20 && IsCString(Print(n))
  {
    assert Pow10(10) == 10_000_000_000 by { assert Pow10(5) == 100_000; }
    assert Pow10(19) == 10_000_000_000_000_000_000 by { assert Pow10(15) == 1_000_000_000_000_000; }
    PrintNatLength(if n < 0 then -n else n, 19);
    PrintedIsCString(n);
  }

  lemma PrintedIsCString(n: int)
    ensures IsCString(Print(n))
  {
    var p := Print(n);
    forall j: nat | j < |p| ensures p[j] != '\0' {
      if n < 0 && j > 0 {
        assert p[j] == p[1..][j - 1];
      }
    }
  }

  lemma InfoWellFormed(keys: nat)
    requires keys <= INT64_MAX
    ensures WellFormed(BulkString(InfoText(keys)))
  {
    hide Print, IsCString;
    PrintLength(keys);
    var a, b, c, d, e := "# Server\r\n", "inmemdb_version:1.0.0\r\n", "# Keyspace\r\n", "db0:keys=", "\r\n";
    InfoPartsClean();
    CStringParts(a, b);
    CStringParts(a + b, c);
    CStringParts(a + b + c, d);
    CStringParts(a + b + c + d, Print(keys));
    CStringParts(a + b + c + d + Print(keys), e);
  }

  lemma CStringParts(a: string, b: string)
    ensures IsCString(a + b) <==> IsCString(a) && IsCString(b)
  {
    if IsCString(a + b) {
      assert forall c | c in a || c in b :: c in a + b;
    }
  }

  lemma InfoPartsClean()
    ensures IsCString("# Server\r\n") && IsCString("inmemdb_version:1.0.0\r\n") && IsCString("# Keyspace\r\n")
    ensures IsCString("db0:keys=") && IsCString("\r\n")
  {}

  lemma GetReplyWellFormed(obj: Option<Obj>, n: nat)
    requires obj.Some? ==> CleanObj(obj.value, n)
    ensures WellFormed(GetReply(obj)) && WellFormed(MGetReply(obj))
  {
    hide PlainText, Print;
    FixedTextsPlain();
    PlainIsWellFormed(WRONG_TYPE);
    if obj.Some? && obj.value.Int? {
      PrintLength(obj.value.num);
    }
  }

  lemma SimpleReplyWellFormed(r: Reply, n: nat)
    requires CleanReply(r, n)
    ensures WellFormed(SimpleReply(r))
  {
    hide PlainText, GetReply;
    FixedTextsPlain();
    PlainIsWellFormed("OK");
    match r
    case Object(obj) => GetReplyWellFormed(obj, n);
    case Items(xs) =>
      forall v | v in Bulks(xs) ensures WellFormed(v) {
        var i :| 0 <= i < |xs| && Bulks(xs)[i] == v;
        assert xs[i] in xs;
      }
    case _ =>
  }

  predicate CleanArgs(args: seq<string>) { forall a | a in args :: CleanText(a) }

  predicate SaneClock(now: int) { 0 <= now <= INT64_MAX }

  // ---- The argument loops ----

  lemma {:induction false} GoodUp(db: Db, n: nat, m: nat)
    requires Good(db, n) && n <= m
    ensures Good(db, m)
  {}

  lemma {:induction false} SetOptionsGood(db: Db, args: seq<string>, i: nat, now: int, n: nat)
    requires |args| > 1 && i <= |args| && Good(db, n) && SaneClock(now) && n + (|args| - i) <= INT64_MAX
    ensures Good(SetOptions(db, args, i, now), n + (|args| - i))
    decreases |args| - i
  {
    hide Good, Step, SameName, StrToLL;
    if i + 1 >= |args| {
      GoodUp(db, n, n + (|args| - i));
    } else {
      var secs := StrToLL(args[i + 1]);
      StepGood(db, Expire(args[1], secs), now, n);
      GoodUp(db, n, n + 1);
      var db' := if SameName(args[i], "EX") && secs > 0 then Step(db, Expire(args[1], secs), now).0 else db;
      SetOptionsGood(db', args, i + 2, now, n + 1);
      GoodUp(SetOptions(db', args, i + 2, now), n + 1 + (|args| - (i + 2)), n + (|args| - i));
    }
  }

  lemma {:induction false} DelAllGood(db: Db, keys: seq<string>, now: int, n: nat)
    requires Good(db, n) && SaneClock(now) && n + |keys| <= INT64_MAX
    ensures var (db', count) := DelAll(db, keys, now);
            Good(db', n + |keys|) && 0 <= count <= |keys|
    decreases |keys|
  {
    hide Good, Step;
    if keys != [] {
      StepGood(db, Del(keys[0]), now, n);
      DelAllGood(DelOne(db, keys[0], now).0, keys[1..], now, n + 1);
    }
  }

  lemma {:induction false} SetAllGood(db: Db, pairs: seq<string>, now: int, n: nat)
    requires Good(db, n) && CleanArgs(pairs) && SaneClock(now) && n + |pairs| <= INT64_MAX
    ensures Good(SetAll(db, pairs, now), n + |pairs|)
    decreases |pairs|
  {
    hide Good, Step, CleanText;
    if |pairs| < 2 {
      GoodUp(db, n, n + |pairs|);
    } else {
      assert pairs[1] in pairs;
      StepGood(db, Set(pairs[0], pairs[1]), now, n);
      var db' := Step(db, Set(pairs[0], pairs[1]), now).0;
      assert forall a | a in pairs[2..] :: a in pairs;
      SetAllGood(db', pairs[2..], now, n + 1);
      GoodUp(SetAll(db', pairs[2..], now), n + 1 + |pairs[2..]|, n + |pairs|);
    }
  }

  lemma {:induction false} GetAllGood(db: Db, keys: seq<string>, now: int, n: nat)
    requires Good(db, n) && SaneClock(now) && n + |keys| <= INT64_MAX
    ensures var (db', replies) := GetAll(db, keys, now);
            Good(db', n + |keys|) && forall v | v in replies :: WellFormed(v)
    decreases |keys|
  {
    hide Good, Step, MGetReply, CleanObj, WellFormed;
    if keys != [] {
      StepGood(db, Get(keys[0]), now, n);
      var (db', obj) := GetObj(db, keys[0], now);
      GetReplyWellFormed(obj, n + 1);
      GetAllGood(db', keys[1..], now, n + 1);
    }
  }

  lemma {:induction false} PushAllGood(db: Db, key: string, values: seq<string>, left: bool, now: int, last: int, n: nat)
    requires Good(db, n) && CleanArgs(values) && SaneClock(now) && n + |values| <= INT64_MAX && IsInt64(last)
    ensures var (db', r) := PushAll(db, key, values, left, now, last);
            Good(db', n + |values|) && IsInt64(r)
    decreases |values|
  {
    hide Good, Step, CleanText, IsInt64;
    if values != [] {
      assert values[0] in values;
      StepGood(db, if left then LPush(key, values[0]) else RPush(key, values[0]), now, n);
      var (db', r) := PushOne(db, key, values[0], left, now);
      assert IsInt64(0) by { ZeroIsInt64(); }
      if r < 0 {
        GoodUp(db', n + 1, n + |values|);
      } else {
        assert forall a | a in values[1..] :: a in values;
        PushAllGood(db', key, values[1..], left, now, r, n + 1);
      }
    }
  }

  lemma ZeroIsInt64()
    ensures IsInt64(0) && IsInt64(1)
  {}

  // ---- One command, one reply ----

  lemma HandleGood(db: Db, c: Command, args: seq<string>, env: Env, n: nat)
    requires |args| >= MinArgs(c) && Good(db, n) && CleanArgs(args) && SaneClock(env.now)
    requires n + |args| <= INT64_MAX && |args| <= INT32_MAX
    ensures var (db', reply) := Handle(db, c, args, env);
            Good(db', n + |args|) && WellFormed(reply)
  {
    hide Good, Step, CleanText, PlainText, GetReply, WellFormed, SetOptions, DelAll, SetAll, GetAll, PushAll;
    hide StrToLL, Atoi, InfoText, PushReply, IncrReply, SimpleReply, SimpleOp, CleanOp, CleanArgs, SaneClock;
    OkReplies();
    SimpleOpClean(c, args);
    GoodUp(db, n, n + |args|);
    match c
    case CPing => PingGood(args);
    case CSet => SetGood(db, args, env.now, n);
    case CDel =>
      DelAllGood(db, args[1..], env.now, n);
      GoodUp(DelAll(db, args[1..], env.now).0, n + |args[1..]|, n + |args|);
      IntegerWellFormed(DelAll(db, args[1..], env.now).1);
    case CIncr => IncrCommandGood(db, args[1], 1, env.now, n, |args|);
    case CDecr => IncrCommandGood(db, args[1], -1, env.now, n, |args|);
    case CMSet =>
      CleanTail(args, 1);
      SetAllGood(db, args[1..], env.now, n);
      GoodUp(SetAll(db, args[1..], env.now), n + |args[1..]|, n + |args|);
    case CMGet =>
      GetAllGood(db, args[1..], env.now, n);
      GoodUp(GetAll(db, args[1..], env.now).0, n + |args[1..]|, n + |args|);
      ArrayWellFormed(GetAll(db, args[1..], env.now).1);
    case CLPush => PushCommandGood(db, args, true, env.now, n);
    case CRPush => PushCommandGood(db, args, false, env.now, n);
    case CLLen => LLenGood(db, args[1], env.now, n, |args|);
    case CInfo =>
      GoodSize(db, n);
      InfoWellFormed(|db|);
    case CSave =>
    case CShutdown =>
    case _ => SimpleGood(db, SimpleOp(c, args), env.now, n, |args|);
  }

  lemma SimpleOpClean(c: Command, args: seq<string>)
    requires |args| >= MinArgs(c)
    ensures IsSimple(c) ==> CleanOp(SimpleOp(c, args))
  {
    hide Atoi, StrToLL;
  }

  lemma CleanTail(args: seq<string>, k: nat)
    requires CleanArgs(args) && k <= |args|
    ensures CleanArgs(args[k..])
  {
    hide CleanText;
    assert forall a | a in args[k..] :: a in args;
  }

  lemma OkReplies()
    ensures WellFormed(SimpleString("OK")) && WellFormed(SimpleString("PONG")) && WellFormed(Error(SAVE_FAILED))
    ensures WellFormed(Error(WRONG_TYPE)) && WellFormed(Error(NOT_INTEGER))
  {
    hide PlainText, WellFormed;
    FixedTextsPlain();
    PlainIsWellFormed("OK");
    PlainIsWellFormed("PONG");
    PlainIsWellFormed(SAVE_FAILED);
    PlainIsWellFormed(WRONG_TYPE);
    PlainIsWellFormed(NOT_INTEGER);
  }

  lemma IntegerWellFormed(n: int)
    requires 0 <= n <= INT32_MAX || IsInt64(n)
    ensures WellFormed(Integer(n))
  {}

  lemma ArrayWellFormed(vs: seq<Value>)
    requires |vs| <= INT32_MAX && forall v | v in vs :: WellFormed(v)
    ensures WellFormed(Array(vs))
  {}

  lemma PingGood(args: seq<string>)
    requires CleanArgs(args) && |args| > 0
    ensures |args| > 1 ==> WellFormed(BulkString(args[1]))
  {
    if |args| > 1 {
      assert args[1] in args;
    }
  }

  lemma SetGood(db: Db, args: seq<string>, now: int, n: nat)
    requires |args| >= 3 && Good(db, n) && CleanArgs(args) && SaneClock(now) && n + |args| <= INT64_MAX
    ensures Good(SetOptions(Step(db, Set(args[1], args[2]), now).0, args, 3, now), n + |args|)
  {
    hide Good, Step, CleanText, SetOptions;
    assert args[2] in args;
    StepGood(db, Set(args[1], args[2]), now, n);
    var db' := Step(db, Set(args[1], args[2]), now).0;
    SetOptionsGood(db', args, 3, now, n + 1);
    GoodUp(SetOptions(db', args, 3, now), n + 1 + (|args| - 3), n + |args|);
  }

  lemma IncrCommandGood(db: Db, key: string, delta: int, now: int, n: nat, m: nat)
    requires Good(db, n) && (delta == 1 || delta == -1) && SaneClock(now) && m > 0 && n + m <= INT64_MAX
    ensures var (db', r) := Step(db, Incr(key, delta), now);
            Good(db', n + m) && WellFormed(IncrReply(r))
  {
    hide Good, Step;
    OkReplies();
    StepGood(db, Incr(key, delta), now, n);
    GoodUp(Step(db, Incr(key, delta), now).0, n + 1, n + m);
  }

  lemma PushCommandGood(db: Db, args: seq<string>, left: bool, now: int, n: nat)
    requires |args| >= 3 && Good(db, n) && CleanArgs(args) && SaneClock(now) && n + |args| <= INT64_MAX
    ensures var (db', r) := PushAll(db, args[1], args[2..], left, now, 0);
            Good(db', n + |args|) && WellFormed(PushReply(r))
  {
    hide Good, Step, CleanText, PushAll;
    OkReplies();
    assert forall a | a in args[2..] :: a in args;
    PushAllGood(db, args[1], args[2..], left, now, 0, n);
    GoodUp(PushAll(db, args[1], args[2..], left, now, 0).0, n + |args[2..]|, n + |args|);
  }

  lemma LLenGood(db: Db, key: string, now: int, n: nat, m: nat)
    requires Good(db, n) && SaneClock(now) && m > 0 && n + m <= INT64_MAX
    ensures var (db', r) := Step(db, LLen(key), now);
            Good(db', n + m) && WellFormed(PushReply(if r.Num? then r.n else 0))
  {
    hide Good, Step;
    OkReplies();
    StepGood(db, LLen(key), now, n);
    GoodUp(Step(db, LLen(key), now).0, n + 1, n + m);
  }

  lemma SimpleGood(db: Db, op: Op, now: int, n: nat, m: nat)
    requires Good(db, n) && CleanOp(op) && SaneClock(now) && m > 0 && n + m <= INT64_MAX
    ensures var (db', r) := Step(db, op, now);
            Good(db', n + m) && WellFormed(SimpleReply(r))
  {
    hide Good, Step, SimpleReply;
    StepGood(db, op, now, n);
    GoodUp(Step(db, op, now).0, n + 1, n + m);
    SimpleReplyWellFormed(Step(db, op, now).1, n + 1);
  }

  // ---- The reply to an unknown command ----

  const UNKNOWN_HEAD: string := "ERR unknown command '"

  /** Behind a head without CR, the CRLFs of a text are its own. */
  lemma CrlfBehind(head: string, text: string)
    requires '\r' !in head
    ensures forall j: nat :: CrlfAt(head + text, j) <==> j >= |head| && CrlfAt(text, j - |head|)
  {
    forall j: nat ensures CrlfAt(head + text, j) <==> j >= |head| && CrlfAt(text, j - |head|) {
      if j < |head| {
        assert (head + text)[j] == head[j];
        assert head[j] in head;
      }
    }
  }

  lemma UnknownTextLine(name: string)
    ensures CrlfFree(UnknownText(name)) <==> CrlfFree(name)
    ensures IsCString(name) ==> IsCString(UnknownText(name))
    ensures UnknownText(name) == UNKNOWN_HEAD + name + "'" && |UNKNOWN_HEAD| == 21
  {
    hide CrlfAt;
    assert '\r' !in UNKNOWN_HEAD && '\0' !in UNKNOWN_HEAD;
    assert UnknownText(name) == UNKNOWN_HEAD + (name + "'");
    CrlfBehind(UNKNOWN_HEAD, name + "'");
    CrlfInFront(name, "'");
    OwnCrlfs(UNKNOWN_HEAD, name + "'");
  }

  lemma OwnCrlfs(head: string, text: string)
    requires '\r' !in head
    ensures CrlfFree(head + text) <==> CrlfFree(text)
  {
    CrlfBehind(head, text);
    if !CrlfFree(text) {
      var j: nat :| j < |text| && CrlfAt(text, j);
      assert CrlfAt(head + text, |head| + j);
    }
  }

  /** In front of a text without CR and LF, the CRLFs are those of what is there. */
  lemma CrlfInFront(text: string, end: string)
    requires '\r' !in end && '\n' !in end
    ensures CrlfFree(text + end) <==> CrlfFree(text)
  {
    var s := text + end;
    forall j: nat ensures CrlfAt(s, j) <==> CrlfAt(text, j) {
      if j + 1 < |s| && j + 1 >= |text| {
        assert s[j + 1] in end;
      }
    }
  }

  /** The bytes are one RESP value, whatever the stream goes on with. */
  ghost predicate OneValue(w: string, rest: string) {
    exists v: Value :: Parse(w + rest, Unseen) == Complete(v, |w|)
  }

  /** The bytes are one whole error line. */
  predicate OneErrorLine(w: string) { |w| >= 3 && w[0] == '-' && FindCrlf(w) == Some(|w| - 2) }

  lemma ErrorLineParsed(buf: string)
    requires buf != [] && buf[0] == '-'
    ensures Parse(buf, Unseen) ==
            match FindCrlf(buf)
            case None => Incomplete
            case Some(k) => Complete(Error(CutAtNul(buf[1..k])), k + 2)
  {
    hide FindCrlf;
  }

  /** Bytes that start like an error are one RESP value if and only if they are one error line. */
  lemma ErrorLineIsValue(w: string, rest: string)
    requires |w| >= 3 && w[0] == '-'
    ensures OneValue(w, rest) <==> OneErrorLine(w)
  {
    hide Parse, FindCrlf;
    var buf := w + rest;
    assert buf[0] == '-';
    ErrorLineParsed(buf);
    if OneErrorLine(w) {
      FindCrlfExtends(w, rest);
    }
    if OneValue(w, rest) {
      var k := FindCrlf(buf).value;
      assert k == |w| - 2;
      LineEndsWithin(w, rest);
    }
  }

  lemma LineEndsWithin(w: string, rest: string)
    requires |w| >= 2 && FindCrlf(w + rest) == Some(|w| - 2)
    ensures FindCrlf(w) == Some(|w| - 2)
  {
    assert CrlfAt(w, |w| - 2);
    assert forall j: nat | j < |w| - 2 && CrlfAt(w, j) :: CrlfAt(w + rest, j);
  }

  /** A line is one error line if and only if its text has no CRLF. */
  lemma WholeLine(text: string)
    ensures OneErrorLine(['-'] + text + CRLF) <==> CrlfFree(text)
  {
    var w := ['-'] + text + CRLF;
    if CrlfFree(text) {
      FindCrlfAfterLine('-', text, []);
      assert w + [] == w;
    } else {
      var j: nat :| j < |text| && CrlfAt(text, j);
      assert CrlfAt(w, 1 + j);
    }
  }

  /** A line that was cut is one error line if and only if the memory behind happens to end it. */
  lemma CutLine(text: string, behind: string)
    requires |behind| <= 2
    ensures OneErrorLine(['-'] + text + ['\0'] + behind) <==> CrlfFree(text) && behind == CRLF
  {
    var w := ['-'] + text + ['\0'] + behind;
    var n := 1 + |text|;
    assert w[n] == '\0' && w[n + 1..] == behind;
    forall j: nat | j < n ensures CrlfAt(w, j) <==> j > 0 && CrlfAt(text, j - 1) {}
    if behind == CRLF {
      assert CrlfAt(w, n + 1) && !CrlfAt(w, n);
      if CrlfFree(text) {
        assert forall j: nat | j < n + 1 :: !CrlfAt(w, j);
      } else {
        var j: nat :| j < |text| && CrlfAt(text, j);
        assert CrlfAt(w, j + 1);
      }
    }
  }

  /** What is sent for an unknown command whose line does not fit the scratch buffer. */
  lemma LongUnknownReply(name: string, behind: nat -> char)
    requires |name| > 102
    ensures var w := UnknownReply(name, behind);
            && |w| >= 128
            && (|name| < 105 ==> |w| < 130)
            && (|name| >= 105 ==> w == ['-'] + (UNKNOWN_HEAD + name[..105]) + ['\0'] + [behind(0), behind(1)])
            && (|name| < 105 ==> exists text: string, end: string :: |end| < 2 && w == ['-'] + text + ['\0'] + end)
  {
    UnknownTextLine(name);
    var line := Write(Error(Stored(UnknownText(name), ERROR_SIZE)));
    var text := line[1..127];
    var w := UnknownReply(name, behind);
    assert line == ['-'] + Stored(UnknownText(name), ERROR_SIZE) + CRLF;
    assert line[..127] == ['-'] + text;
    var end := seq(|line| - SCRATCH_SIZE, i requires 0 <= i => behind(i));
    assert w == ['-'] + text + ['\0'] + end;
    if |name| >= 105 {
      assert |line| == 130 && end == [behind(0), behind(1)];
      assert text == UnknownText(name)[..126] == UNKNOWN_HEAD + name[..105];
    }
  }

  /**
   When the reply to an unknown command is one RESP value. Its line fits for names of at most 102 bytes. Longer
   ones lose their line end to a NUL and the memory behind, which would have to hold one itself.
   */
  lemma UnknownReplyIsValue(name: string, behind: nat -> char, rest: string)
    ensures OneValue(UnknownReply(name, behind), rest) <==>
            if |name| <= 102 then CrlfFree(name)
            else |name| >= 105 && CrlfFree(name[..105]) && [behind(0), behind(1)] == CRLF
  {
    hide CrlfFree, OneValue, OneErrorLine, Write;
    var w := UnknownReply(name, behind);
    UnknownTextLine(name);
    UnknownReplyStarts(name, behind);
    ErrorLineIsValue(w, rest);
    if |name| <= 102 {
      ShortUnknownReply(name, behind);
      WholeLine(UnknownText(name));
    } else {
      LongUnknownReply(name, behind);
      if |name| >= 105 {
        assert '\r' !in UNKNOWN_HEAD;
        OwnCrlfs(UNKNOWN_HEAD, name[..105]);
        CutLine(UNKNOWN_HEAD + name[..105], [behind(0), behind(1)]);
      } else {
        var text: string, end: string :| |end| < 2 && w == ['-'] + text + ['\0'] + end;
        CutLine(text, end);
      }
    }
  }

  lemma UnknownReplyStarts(name: string, behind: nat -> char)
    ensures var w := UnknownReply(name, behind); |w| >= 3 && w[0] == '-'
  {}

  lemma ShortUnknownReply(name: string, behind: nat -> char)
    requires |name| <= 102
    ensures UnknownReply(name, behind) == Write(Error(UnknownText(name))) == ['-'] + UnknownText(name) + CRLF
  {
    UnknownTextLine(name);
  }

  /**
   The reply to an unknown command is sure to be one RESP value if and only if its name has no CRLF and at most
   102 bytes.
   */
  lemma UnknownReplyFraming(name: string)
    ensures (forall behind: nat -> char, rest: string :: OneValue(UnknownReply(name, behind), rest)) <==>
            CrlfFree(name) && |name| <= 102
  {
    hide OneValue, UnknownReply, CrlfFree;
    forall behind: nat -> char, rest: string
      ensures OneValue(UnknownReply(name, behind), rest) <==>
              if |name| <= 102 then CrlfFree(name)
              else |name| >= 105 && CrlfFree(name[..105]) && [behind(0), behind(1)] == CRLF
    {
      UnknownReplyIsValue(name, behind, rest);
    }
    var zeros: nat -> char := _ => '\0';
    assert OneValue(UnknownReply(name, zeros), []) ==> |name| <= 102 && CrlfFree(name) by {
      assert [zeros(0), zeros(1)][0] != CRLF[0];
    }
  }

  /** The name is known, or short and harmless in an error line. */
  predicate ServedName(name: string) { Recognise(name).Some? || (CrlfFree(name) && |name| <= 102) }

  /** What the server answers with one reply: rejected values, and commands with a served name. */
  predicate Served(v: Value) {
    IsRejected(v) || (IsCommand(v) && ServedName(TextOfValue(v.items[0])))
  }

  /** To a served value the bytes sent are those of the reply. */
  lemma ServedBytes(v: Value, reply: Value, env: Env)
    requires Served(v) && (IsUnknown(v) ==> reply == Error(UnknownText(TextOfValue(v.items[0]))))
    ensures ReplyBytes(v, reply, env) == Write(reply)
  {
    hide Recognise, Write, IsCommand;
    if IsUnknown(v) {
      ShortUnknownReply(TextOfValue(v.items[0]), env.behind);
    }
  }

  /** How many keys or elements running a value may add at most. */
  function Weight(v: Value): nat { if v.Array? then |v.items| else 0 }

  /** The strings in an array are C strings of fewer than 2 GiB. */
  predicate CleanValue(v: Value) { v.Array? ==> CleanArgs(Texts(v.items)) }

  /** Every served value gets exactly one well-formed reply, and the keyspace stays good. */
  lemma ExecValueGood(db: Db, v: Value, env: Env, n: nat)
    requires Served(v) && CleanValue(v) && Good(db, n) && SaneClock(env.now) && n + Weight(v) <= INT64_MAX
    requires Weight(v) <= INT32_MAX
    ensures var (db', reply) := ExecValue(db, v, env);
            Good(db', n + Weight(v)) && WellFormed(reply)
  {
    hide Good, Handle, WellFormed, PlainText, CleanArgs, ServedName, Recognise;
    GoodUp(db, n, n + Weight(v));
    FixedTextsPlain();
    PlainIsWellFormed(BAD_FORMAT);
    PlainIsWellFormed(BAD_COMMAND);
    if !IsRejected(v) {
      ExecGood(db, Texts(v.items), env, n);
    }
  }

  lemma ExecGood(db: Db, args: seq<string>, env: Env, n: nat)
    requires args != [] && ServedName(args[0]) && CleanArgs(args)
    requires Good(db, n) && SaneClock(env.now) && n + |args| <= INT64_MAX && |args| <= INT32_MAX
    ensures var (db', reply) := Exec(db, args, env);
            Good(db', n + |args|) && WellFormed(reply)
  {
    hide Good, Handle, WellFormed, PlainText, Recognise, UnknownText, WrongCountText;
    GoodUp(db, n, n + |args|);
    match Recognise(args[0])
    case None =>
      assert args[0] in args;
      UnknownTextLine(args[0]);
      LineWellFormed(UnknownText(args[0]));
    case Some(c) =>
      if WrongCount(c, |args|) {
        WrongCountPlain(c);
        PlainIsWellFormed(WrongCountText(c));
      } else {
        HandleGood(db, c, args, env, n);
      }
  }

  lemma LineWellFormed(s: string)
    requires IsCString(s) && CrlfFree(s)
    ensures WellFormed(Error(s))
  {}
}
