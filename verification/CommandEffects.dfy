/**
 What each command leaves in the keyspace and answers, by its name and in terms of the entries alone: for every
 keyspace, every argument list the handler accepts, and every clock reading.
 */
module CommandEffects {
  import opened Wrappers
  import opened CText
  import opened Decimal
  import opened Resp
  import opened Keyspace
  import opened Commands
  import CommandMeaning
  import LinkedList

  // ---- Names ----

  /** A name spells a word in capitals, or with some of its letters small. */
  predicate Names(name: string, word: string) {
    |name| == |word| && forall i | 0 <= i < |word| :: name[i] == word[i] || name[i] as int == word[i] as int + 32
  }

  /** The names the server knows, each with the fewest arguments it takes, the name included. */
  const KNOWN: seq<(string, nat)> := [
    ("PING", 1), ("SET", 3), ("GET", 2), ("DEL", 2), ("EXISTS", 2), ("INCR", 2), ("DECR", 2), ("MSET", 3), ("MGET", 2),
    ("LPUSH", 3), ("RPUSH", 3), ("LPOP", 2), ("RPOP", 2), ("LLEN", 2), ("LRANGE", 4), ("EXPIRE", 3), ("TTL", 2),
    ("PERSIST", 2), ("DBSIZE", 1), ("FLUSHDB", 1), ("INFO", 1), ("SAVE", 1), ("SHUTDOWN", 1)]

  lemma NameExact(name: string, c: Command)
    ensures Recognise(name) == Some(c) <==> Names(name, NameOf(c))
  {
    hide Recognise, NameOf;
    RecogniseExact(name, c);
    NameUpper(c);
    SameNameExact(name, NameOf(c));
  }

  lemma SameNameExact(name: string, word: string)
    requires forall i | 0 <= i < |word| :: 'A' <= word[i] <= 'Z'
    ensures SameName(name, word) <==> Names(name, word)
  {
    forall i | 0 <= i < |word| && i < |name|
      ensures Lower(name[i]) == Lower(word[i]) <==> name[i] == word[i] || name[i] as int == word[i] as int + 32
    {}
  }

  lemma KnownIsTable(i: nat)
    requires i < |KNOWN|
    ensures |COMMAND_TABLE| == |KNOWN|
    ensures KNOWN[i] == (NameOf(COMMAND_TABLE[i]), MinArgs(COMMAND_TABLE[i]))
  {}

  /** With too few arguments, or an odd number of them for MSET, a command answers an error and changes nothing. */
  lemma WrongCountAnswers(db: Db, args: seq<string>, env: Env, i: nat)
    requires i < |KNOWN| && args != [] && Names(args[0], KNOWN[i].0)
    requires |args| < KNOWN[i].1 || (KNOWN[i].0 == "MSET" && |args| % 2 == 0)
    ensures Exec(db, args, env) ==
            (db, Error("ERR wrong number of arguments for '" + KNOWN[i].0 + "' command"))
  {
    hide Recognise, COMMAND_TABLE, Handle;
    KnownIsTable(i);
    NameExact(args[0], COMMAND_TABLE[i]);
    assert KNOWN[i].0 == "MSET" ==> COMMAND_TABLE[i] == CMSet;
  }

  /** A name that spells none of the known words answers an error and changes nothing. */
  lemma UnknownAnswers(db: Db, args: seq<string>, env: Env)
    requires args != [] && forall i | 0 <= i < |KNOWN| :: !Names(args[0], KNOWN[i].0)
    ensures Exec(db, args, env) == (db, Error("ERR unknown command '" + args[0] + "'"))
  {
    hide Recognise, COMMAND_TABLE, Handle, KNOWN;
    if Recognise(args[0]).Some? {
      var c := Recognise(args[0]).value;
      NameExact(args[0], c);
      InTable(c);
      var j: nat :| j < |COMMAND_TABLE| && COMMAND_TABLE[j] == c;
      SameSize();
      KnownIsTable(j);
      assert false;
    }
  }

  lemma SameSize()
    ensures |COMMAND_TABLE| == |KNOWN|
  {}

  /** A name and enough arguments lead to the handler. */
  lemma Runs(db: Db, args: seq<string>, env: Env, c: Command)
    requires args != [] && Names(args[0], NameOf(c)) && !WrongCount(c, |args|)
    ensures |args| >= MinArgs(c) && Exec(db, args, env) == Handle(db, c, args, env)
  {
    hide Recognise, Handle;
    NameExact(args[0], c);
  }

  /** An array of bulk strings is run as the arguments it holds. */
  lemma BulksRun(db: Db, args: seq<string>, env: Env)
    requires args != []
    ensures Handled(Array(Bulks(args))) && ExecValue(db, Array(Bulks(args)), env) == Exec(db, args, env)
  {
    hide Recognise, Exec;
    assert Texts(Bulks(args)) == args;
  }

  /** Whatever is no array, or an array that does not start with a string, answers an error and changes nothing. */
  lemma RejectedAnswers(db: Db, v: Value, env: Env)
    requires !v.Array? || v.items == [] || !(v.items[0].BulkString? || v.items[0].SimpleString?)
    ensures Handled(v)
    ensures ExecValue(db, v, env) ==
            (db, Error(if !v.Array? || v.items == [] then "ERR invalid command format" else "ERR invalid command"))
  {}

  // ---- Entries ----

  /** The key is stored, and its deadline, if it has one, has not passed. */
  predicate Alive(db: Db, k: string, now: int) { k in db && (db[k].expire < 0 || now <= db[k].expire) }

  /** The keyspace without the key if its deadline has passed. */
  function Tidy(db: Db, k: string, now: int): Db { if Alive(db, k, now) then db else db - {k} }

  lemma DropIsTidy(db: Db, k: string, now: int)
    ensures DropExpired(db, k, now) == Tidy(db, k, now)
    ensures k in Tidy(db, k, now) <==> Alive(db, k, now)
    ensures Alive(db, k, now) ==> Tidy(db, k, now) == db
  {
    if k !in db {
      assert db - {k} == db;
    }
  }

  lemma StepTidied(db: Db, op: Op, now: int)
    requires !op.Set? && !op.Size? && !op.Flush?
    ensures Step(db, op, now) == StepKey(Tidy(db, op.key, now), op, now)
    ensures Lookup(Tidy(db, op.key, now), op.key) == if Alive(db, op.key, now) then Some(db[op.key]) else None
    ensures Alive(db, op.key, now) ==> Tidy(db, op.key, now) == db
  {
    hide StepKey;
    DropIsTidy(db, op.key, now);
  }

  function WrongType(): Value { Error("WRONGTYPE Operation against a key " + "holding the wrong kind of value") }

  function NotInteger(): Value { Error("ERR value is not an " + "integer or out of range") }

  // ---- Strings ----

  lemma PingAnswers(db: Db, args: seq<string>, env: Env)
    requires args != [] && Names(args[0], "PING")
    ensures Exec(db, args, env) == (db, if |args| == 1 then SimpleString("PONG") else BulkString(args[1]))
  {
    Runs(db, args, env, CPing);
  }

  /** How GET and MGET show an entry: integers as canonical numerals. */
  ghost predicate Shows(reply: Value, obj: Obj) {
    match obj
    case Str(s) => reply == BulkString(s)
    case Int(n) => reply.BulkString? && (IsInt64(n) ==> Canonical(reply.text) && Denotes(reply.text, n))
    case List(_) => false
  }

  lemma ShownInt(n: int)
    ensures Shows(BulkString(Print(n)), Int(n))
  {
    if IsInt64(n) {
      PrintExact(n, Print(n));
    }
  }

  lemma GetAnswers(db: Db, args: seq<string>, env: Env)
    requires |args| >= 2 && Names(args[0], "GET")
    ensures var (after, reply) := Exec(db, args, env);
            && after == Tidy(db, args[1], env.now)
            && if !Alive(db, args[1], env.now) then reply == Nil
               else if db[args[1]].obj.List? then reply == WrongType()
               else Shows(reply, db[args[1]].obj)
  {
    hide Step, Canonical, Denotes;
    Runs(db, args, env, CGet);
    StepTidied(db, Get(args[1]), env.now);
    if Alive(db, args[1], env.now) && db[args[1]].obj.Int? {
      ShownInt(db[args[1]].obj.num);
    }
  }

  /** An option pair of SET: `EX` and a text that reads as a positive number. */
  ghost predicate OptionAt(args: seq<string>, j: nat, seconds: int) {
    && 3 <= j && j % 2 == 1 && j + 1 < |args|
    && Names(args[j], "EX") && Reads(args[j + 1], seconds) && seconds > 0
  }

  ghost predicate LastOption(args: seq<string>, j: nat, seconds: int) {
    OptionAt(args, j, seconds) && forall i: nat, t: int | OptionAt(args, i, t) :: i <= j
  }

  lemma OptionExact(args: seq<string>, j: nat, s: int)
    ensures OptionAt(args, j, s) <==> CommandMeaning.Deadline(args, 3, j) && s == StrToLL(args[j + 1])
  {
    hide StrToLL, Reads, SameName, Names;
    if j + 1 < |args| {
      SameNameExact(args[j], "EX");
      StrToLLExact(args[j + 1], s);
    }
  }

  lemma OptionsExact(args: seq<string>, now: int)
    requires forall j: nat, s: int | OptionAt(args, j, s) :: now + s * 1000 <= INT64_MAX
    ensures CommandMeaning.DeadlinesFit(args, 3, now)
    ensures (forall j: nat, s: int :: !OptionAt(args, j, s)) ==> CommandMeaning.NoDeadline(args, 3)
    ensures forall j: nat, s: int | LastOption(args, j, s) ::
              CommandMeaning.LastDeadline(args, 3, j) && j + 1 < |args| && s == StrToLL(args[j + 1])
  {
    hide StrToLL, Reads, SameName, Names, OptionAt;
    forall j: nat | CommandMeaning.Deadline(args, 3, j) ensures OptionAt(args, j, StrToLL(args[j + 1])) {
      OptionExact(args, j, StrToLL(args[j + 1]));
    }
    forall j: nat, s: int | OptionAt(args, j, s)
      ensures CommandMeaning.Deadline(args, 3, j) && s == StrToLL(args[j + 1])
    {
      OptionExact(args, j, s);
    }
  }

  /**
   SET binds the key to the number its text denotes, or to the text if it denotes none: until the deadline of the
   last `EX` with a positive number of seconds, or for good without one.
   */
  lemma SetBindsUntil(db: Db, args: seq<string>, env: Env)
    requires |args| >= 3 && Names(args[0], "SET") && env.now >= 0
    requires forall j: nat, s: int | OptionAt(args, j, s) :: env.now + s * 1000 <= INT64_MAX
    ensures var (after, reply) := Exec(db, args, env);
            && reply == SimpleString("OK")
            && args[1] in after && StoredAs(args[2], after[args[1]].obj)
            && after == db[args[1] := after[args[1]]]
            && ((forall j: nat, s: int :: !OptionAt(args, j, s)) ==> after[args[1]].expire == -1)
            && (forall j: nat, s: int | LastOption(args, j, s) :: after[args[1]].expire == env.now + s * 1000)
  {
    hide StrToLL, Names, ObjOf, StoredAs, Handle, Exec, LastOption, OptionAt;
    hide CommandMeaning.Deadline, CommandMeaning.LastDeadline, CommandMeaning.NoDeadline, CommandMeaning.DeadlinesFit;
    Runs(db, args, env, CSet);
    ObjOfExact(args[2], ObjOf(args[2]));
    OptionsExact(args, env.now);
    CommandMeaning.SetBinds(db, args, env);
    SetReply(db, args, env);
    OptionOrNot(args);
  }

  /** There is a last option, or none. */
  lemma OptionOrNot(args: seq<string>)
    ensures (forall j: nat, s: int :: !OptionAt(args, j, s)) || exists j: nat, s: int :: LastOption(args, j, s)
  {
    hide Reads, Names;
    if exists j: nat, s: int :: OptionAt(args, j, s) {
      var j: nat, s: int :| OptionAt(args, j, s);
      var j', s' := LastFrom(args, j, s);
    }
  }

  lemma {:induction false} LastFrom(args: seq<string>, j: nat, s: int) returns (last: nat, seconds: int)
    requires OptionAt(args, j, s)
    ensures LastOption(args, last, seconds)
    decreases |args| - j
  {
    hide Reads, Names;
    if i: nat, t: int :| OptionAt(args, i, t) && i > j {
      last, seconds := LastFrom(args, i, t);
    } else {
      last, seconds := j, s;
    }
  }

  lemma SetReply(db: Db, args: seq<string>, env: Env)
    requires |args| >= 3
    ensures Handle(db, CSet, args, env).1 == SimpleString("OK")
  {
    hide Step, SetOptions;
  }

  /** DEL removes the keys it names, and counts those that were alive, each once. */
  lemma DelRemovesKeys(db: Db, args: seq<string>, env: Env)
    requires |args| >= 2 && Names(args[0], "DEL")
    ensures Exec(db, args, env) ==
            (db - (set k | k in args[1..]), Integer(|set k | k in args[1..] && Alive(db, k, env.now)|))
  {
    hide Step;
    Runs(db, args, env, CDel);
    DelAllExact(db, args[1..], env.now);
  }

  function AliveAmong(db: Db, keys: seq<string>, now: int): set<string> { set k | k in keys && Alive(db, k, now) }

  lemma {:induction false} DelAllExact(db: Db, keys: seq<string>, now: int)
    ensures DelAll(db, keys, now) == (db - (set k | k in keys), |AliveAmong(db, keys, now)|)
    decreases |keys|
  {
    hide Step, Alive;
    if keys == [] {
      assert db - (set k | k in keys) == db;
    } else {
      var k, rest := keys[0], keys[1..];
      DelOneExact(db, k, now);
      DelAllExact(db - {k}, rest, now);
      assert keys == [k] + rest;
      AliveFirst(db, k, rest, now);
      assert db - (set x | x in keys) == db - {k} - (set x | x in rest);
    }
  }

  lemma DelOneExact(db: Db, k: string, now: int)
    ensures DelOne(db, k, now) == (db - {k}, if Alive(db, k, now) then 1 else 0)
  {
    hide Step;
    StepTidied(db, Del(k), now);
    assert db - {k} - {k} == db - {k};
  }

  lemma AliveFirst(db: Db, k: string, rest: seq<string>, now: int)
    ensures |AliveAmong(db, [k] + rest, now)| ==
            (if Alive(db, k, now) then 1 else 0) + |AliveAmong(db - {k}, rest, now)|
  {
    var others := AliveAmong(db - {k}, rest, now);
    assert k !in others;
    assert AliveAmong(db, [k] + rest, now) == if Alive(db, k, now) then others + {k} else others;
  }

  lemma ExistsAnswers(db: Db, args: seq<string>, env: Env)
    requires |args| >= 2 && Names(args[0], "EXISTS")
    ensures Exec(db, args, env) ==
            (Tidy(db, args[1], env.now), Integer(if Alive(db, args[1], env.now) then 1 else 0))
  {
    hide Step, Recognise, Exec, Alive, Tidy;
    Runs(db, args, env, CExists);
    StepTidied(db, Op.Exists(args[1]), env.now);
  }

  // ---- Several keys ----

  /** The pair at `j` binds the key `k`. */
  predicate Binds(pairs: seq<string>, k: string, j: nat) { j % 2 == 0 && j + 1 < |pairs| && pairs[j] == k }

  ghost predicate LastBinds(pairs: seq<string>, k: string, j: nat) {
    Binds(pairs, k, j) && forall i: nat | Binds(pairs, k, i) :: i <= j
  }

  ghost predicate BoundBy(pairs: seq<string>, k: string, j: nat, after: Db) {
    j + 1 < |pairs| && k in after && after[k].expire == -1 && StoredAs(pairs[j + 1], after[k].obj)
  }

  /** Every key is bound by the last pair that names it, without deadline, and the others are as they were. */
  ghost predicate Bound(db: Db, pairs: seq<string>, after: Db) {
    && (forall k: string | forall j: nat :: !Binds(pairs, k, j) ::
          (k in after <==> k in db) && (k in db ==> after[k] == db[k]))
    && (forall k: string, j: nat | LastBinds(pairs, k, j) :: BoundBy(pairs, k, j, after))
  }

  lemma MSetBindsAll(db: Db, args: seq<string>, env: Env)
    requires |args| >= 3 && |args| % 2 == 1 && Names(args[0], "MSET")
    ensures var (after, reply) := Exec(db, args, env);
            reply == SimpleString("OK") && Bound(db, args[1..], after)
  {
    hide Step, Bound, SetAll;
    Runs(db, args, env, CMSet);
    SetAllBinds(db, args[1..], env.now);
  }

  lemma {:induction false} SetAllBinds(db: Db, pairs: seq<string>, now: int)
    ensures Bound(db, pairs, SetAll(db, pairs, now))
    decreases |pairs|
  {
    hide ObjOf, StoredAs;
    if |pairs| >= 2 {
      var first := Entry(ObjOf(pairs[1]), -1);
      ObjOfExact(pairs[1], ObjOf(pairs[1]));
      SetAllBinds(db[pairs[0] := first], pairs[2..], now);
      BoundFirst(db, pairs, first, SetAll(db, pairs, now));
    }
  }

  lemma BindsShift(pairs: seq<string>, k: string, j: nat)
    requires |pairs| >= 2
    ensures Binds(pairs[2..], k, j) <==> Binds(pairs, k, j + 2)
  {}

  lemma BoundFirst(db: Db, pairs: seq<string>, first: Entry, after: Db)
    requires |pairs| >= 2 && first.expire == -1 && StoredAs(pairs[1], first.obj)
    requires Bound(db[pairs[0] := first], pairs[2..], after)
    ensures Bound(db, pairs, after)
  {
    hide StoredAs, Bound;
    forall k: string | forall j: nat :: !Binds(pairs, k, j)
      ensures (k in after <==> k in db) && (k in db ==> after[k] == db[k])
    {
      UnboundBehind(db, pairs, first, after, k);
    }
    forall k: string, j: nat | LastBinds(pairs, k, j) ensures BoundBy(pairs, k, j, after) {
      if j == 0 {
        BoundHere(db, pairs, first, after, k);
      } else {
        BoundBehind(db, pairs, first, after, k, j);
      }
    }
    BoundParts(db, pairs, after);
  }

  lemma BoundParts(db: Db, pairs: seq<string>, after: Db)
    requires forall k: string | forall j: nat :: !Binds(pairs, k, j) ::
               (k in after <==> k in db) && (k in db ==> after[k] == db[k])
    requires forall k: string, j: nat | LastBinds(pairs, k, j) :: BoundBy(pairs, k, j, after)
    ensures Bound(db, pairs, after)
  {
    hide Binds, StoredAs;
  }

  lemma UnboundBehind(db: Db, pairs: seq<string>, first: Entry, after: Db, k: string)
    requires |pairs| >= 2 && Bound(db[pairs[0] := first], pairs[2..], after)
    requires forall j: nat :: !Binds(pairs, k, j)
    ensures (k in after <==> k in db) && (k in db ==> after[k] == db[k])
  {
    hide StoredAs, LastBinds, BoundBy;
    assert !Binds(pairs, k, 0);
    forall j: nat ensures !Binds(pairs[2..], k, j) {
      BindsShift(pairs, k, j);
    }
  }

  lemma BoundHere(db: Db, pairs: seq<string>, first: Entry, after: Db, k: string)
    requires |pairs| >= 2 && first.expire == -1 && StoredAs(pairs[1], first.obj)
    requires Bound(db[pairs[0] := first], pairs[2..], after) && LastBinds(pairs, k, 0)
    ensures BoundBy(pairs, k, 0, after)
  {
    hide StoredAs;
    forall j: nat ensures !Binds(pairs[2..], k, j) {
      BindsShift(pairs, k, j);
    }
  }

  lemma BoundBehind(db: Db, pairs: seq<string>, first: Entry, after: Db, k: string, j: nat)
    requires |pairs| >= 2 && j > 0
    requires Bound(db[pairs[0] := first], pairs[2..], after) && LastBinds(pairs, k, j)
    ensures BoundBy(pairs, k, j, after)
  {
    hide StoredAs;
    assert j >= 2;
    BindsShift(pairs, k, j - 2);
    forall i: nat | Binds(pairs[2..], k, i) ensures i <= j - 2 {
      BindsShift(pairs, k, i);
    }
    assert LastBinds(pairs[2..], k, j - 2);
    assert pairs[2..][j - 2 + 1] == pairs[j + 1];
  }

  /** The keyspace without those of the keys whose deadlines have passed. */
  function TidyAll(db: Db, keys: seq<string>, now: int): Db {
    map k | k in db && (k in keys ==> Alive(db, k, now)) :: db[k]
  }

  /** MGET answers each key in order as GET does, but shows a list like a missing key. */
  lemma MGetAnswers(db: Db, args: seq<string>, env: Env)
    requires |args| >= 2 && Names(args[0], "MGET")
    ensures var (after, reply) := Exec(db, args, env);
            && after == TidyAll(db, args[1..], env.now)
            && reply.Array? && |reply.items| == |args| - 1
            && forall i | 1 <= i < |args| ::
                 if Alive(db, args[i], env.now) && !db[args[i]].obj.List?
                 then Shows(reply.items[i - 1], db[args[i]].obj)
                 else reply.items[i - 1] == Nil
  {
    hide Step, Alive, GetAll, TidyAll, Shows;
    Runs(db, args, env, CMGet);
    GetAllExact(db, args[1..], env.now);
    forall i | 1 <= i < |args|
      ensures args[i] == args[1..][i - 1]
    {}
  }

  ghost predicate MShows(reply: Value, db: Db, k: string, now: int) {
    if Alive(db, k, now) && !db[k].obj.List? then Shows(reply, db[k].obj) else reply == Nil
  }

  lemma {:induction false} GetAllExact(db: Db, keys: seq<string>, now: int)
    ensures GetAll(db, keys, now).0 == TidyAll(db, keys, now)
    ensures forall i | 0 <= i < |keys| :: MShows(GetAll(db, keys, now).1[i], db, keys[i], now)
    decreases |keys|
  {
    hide Step, MShows, MGetReply, TidyAll;
    if keys == [] {
      NothingTidied(db, now);
    } else {
      GetOneExact(db, keys[0], now);
      var db' := Tidy(db, keys[0], now);
      GetAllExact(db', keys[1..], now);
      TidyFirst(db, keys, now);
      forall i | 0 < i < |keys| ensures MShows(GetAll(db, keys, now).1[i], db, keys[i], now) {
        assert keys[i] == keys[1..][i - 1];
        SameShown(GetAll(db, keys, now).1[i], db, keys[0], keys[i], now);
      }
    }
  }

  lemma GetOneExact(db: Db, k: string, now: int)
    ensures var (db', obj) := GetObj(db, k, now);
            db' == Tidy(db, k, now) && MShows(MGetReply(obj), db, k, now)
  {
    hide Step, Canonical, Denotes;
    StepTidied(db, Get(k), now);
    if Alive(db, k, now) && db[k].obj.Int? {
      ShownInt(db[k].obj.num);
    }
  }

  lemma NothingTidied(db: Db, now: int)
    ensures TidyAll(db, [], now) == db
  {}

  lemma TidyFirst(db: Db, keys: seq<string>, now: int)
    requires keys != []
    ensures TidyAll(Tidy(db, keys[0], now), keys[1..], now) == TidyAll(db, keys, now)
  {
    assert keys == [keys[0]] + keys[1..];
  }

  lemma SameShown(reply: Value, db: Db, gone: string, k: string, now: int)
    ensures MShows(reply, Tidy(db, gone, now), k, now) <==> MShows(reply, db, k, now)
  {
    hide Shows;
  }

  // ---- Counters ----

  /** What adding `delta` to a key leaves and answers; INT64_MIN is the code's sentinel for a type error. */
  ghost predicate Adds(db: Db, k: string, delta: int, now: int, after: Db, reply: Value) {
    if !Alive(db, k, now) then after == db[k := Entry(Int(delta), -1)] && reply == Integer(delta)
    else
      match db[k].obj
      case Int(n) => AddsTo(db, k, n + delta, after, reply)
      case Str(s) =>
        if exists n: int :: Denotes(s, n) then exists n: int :: Denotes(s, n) && AddsTo(db, k, n + delta, after, reply)
        else after == db && reply == NotInteger()
      case List(_) => after == db && reply == NotInteger()
  }

  /** A sum of 64 bits is stored under the deadline there was, and answered unless it is INT64_MIN. */
  ghost predicate AddsTo(db: Db, k: string, sum: int, after: Db, reply: Value)
    requires k in db
  {
    IsInt64(sum) ==>
      && after == db[k := Entry(Int(sum), db[k].expire)]
      && reply == if sum == INT64_MIN then NotInteger() else Integer(sum)
  }

  lemma StepAdds(db: Db, k: string, delta: int, now: int)
    requires delta == 1 || delta == -1
    ensures var (after, r) := Step(db, Incr(k, delta), now); Adds(db, k, delta, now, after, IncrReply(r))
  {
    hide Step, Denotes, TryParseInt, ToInt64;
    StepTidied(db, Incr(k, delta), now);
    if !Alive(db, k, now) {
      assert (db - {k})[k := Entry(Int(delta), -1)] == db[k := Entry(Int(delta), -1)];
    } else if db[k].obj.Int? {
      SumFits(db[k].obj.num + delta);
    } else if db[k].obj.Str? {
      var s := db[k].obj.text;
      UnparsedExact(s);
      if TryParseInt(s).Some? {
        TryParseExact(s, TryParseInt(s).value);
        SumFits(TryParseInt(s).value + delta);
      }
    }
  }

  lemma SumFits(n: int)
    ensures IsInt64(n) ==> ToInt64(n) == n
  {
    if IsInt64(n) {
      ToInt64Identity(n);
    }
  }

  /** INCR adds 1 to an integer, or to a missing key as if it were 0, and keeps the deadline. */
  lemma IncrAdds(db: Db, args: seq<string>, env: Env)
    requires |args| >= 2 && Names(args[0], "INCR")
    ensures var (after, reply) := Exec(db, args, env); Adds(db, args[1], 1, env.now, after, reply)
  {
    hide Step, Adds;
    Runs(db, args, env, CIncr);
    StepAdds(db, args[1], 1, env.now);
  }

  /** DECR subtracts 1 likewise. */
  lemma DecrSubtracts(db: Db, args: seq<string>, env: Env)
    requires |args| >= 2 && Names(args[0], "DECR")
    ensures var (after, reply) := Exec(db, args, env); Adds(db, args[1], -1, env.now, after, reply)
  {
    hide Step, Adds;
    Runs(db, args, env, CDecr);
    StepAdds(db, args[1], -1, env.now);
  }

  /**
   On a live integer whose neighbour fits 64 bits, INCR always answers the sum, and DECR answers the difference if and
   only if that is not INT64_MIN; there it stores the difference and answers an error.
   */
  lemma CountersAnswer(db: Db, up: string, down: string, k: string, env: Env)
    requires Names(up, "INCR") && Names(down, "DECR") && Alive(db, k, env.now) && db[k].obj.Int?
    ensures var n := db[k].obj.num;
            && (INT64_MIN <= n < INT64_MAX ==>
                  Exec(db, [up, k], env) == (db[k := Entry(Int(n + 1), db[k].expire)], Integer(n + 1)))
            && (INT64_MIN < n <= INT64_MAX ==>
                  && Exec(db, [down, k], env).0 == db[k := Entry(Int(n - 1), db[k].expire)]
                  && (Exec(db, [down, k], env).1 == Integer(n - 1) <==> n != INT64_MIN + 1))
  {
    hide Exec;
    IncrAdds(db, [up, k], env);
    DecrSubtracts(db, [down, k], env);
  }

  // ---- Lists ----

  /** The values put at one end of a list, one after the other. */
  function Joined(items: seq<string>, values: seq<string>, left: bool): seq<string> {
    if left then seq(|values|, i requires 0 <= i < |values| => values[|values| - 1 - i]) + items
    else items + values
  }

  /** A length of which the low 32 bits, as an `int`, are negative. */
  predicate NegativeInt(len: nat) { len % 0x1_0000_0000 >= 0x8000_0000 }

  predicate StaysInt(len: nat, more: nat) { !NegativeInt(len + more) }

  /**
   How many of `count` values go to a list of `len` elements: all, or those up to the first that makes the length
   negative as an `int`.
   */
  predicate Accepted(len: nat, count: nat, c: nat) {
    && 1 <= c <= count
    && (forall i: nat | 1 <= i < c :: StaysInt(len, i))
    && (c < count ==> NegativeInt(len + c))
  }

  /** A push of `c` values on a keyspace, and the length it answers, cut to an `int`. */
  ghost predicate PushesTo(db: Db, k: string, values: seq<string>, left: bool, now: int, after: Db, n: int) {
    if Alive(db, k, now) && !db[k].obj.List? then after == db && n == -1
    else
      var items := if Alive(db, k, now) then db[k].obj.items else [];
      var expire := if Alive(db, k, now) then db[k].expire else -1;
      exists c: nat ::
        && Accepted(|items|, |values|, c) && c <= |values| && CutTo32(|items| + c, n)
        && after == db[k := Entry(List(Joined(items, values[..c], left)), expire)]
  }

  lemma PushOneExact(db: Db, k: string, v: string, left: bool, now: int)
    ensures var (after, n) := PushOne(db, k, v, left, now);
            if Alive(db, k, now) && !db[k].obj.List? then after == db && n == -1
            else
              var items := if Alive(db, k, now) then db[k].obj.items else [];
              var expire := if Alive(db, k, now) then db[k].expire else -1;
              && after == db[k := Entry(List(Joined(items, [v], left)), expire)]
              && n == ToInt32(|items| + 1)
  {
    hide Step, ToInt32;
    StepTidied(db, if left then LPush(k, v) else RPush(k, v), now);
    var items := if Alive(db, k, now) && db[k].obj.List? then db[k].obj.items else [];
    assert Joined(items, [v], left) == if left then [v] + items else items + [v];
    assert [v] + [] == [v] == [] + [v];
    assert (db - {k})[k := Entry(List([v]), -1)] == db[k := Entry(List([v]), -1)];
  }

  lemma JoinedTwice(items: seq<string>, v: string, rest: seq<string>, left: bool)
    ensures Joined(Joined(items, [v], left), rest, left) == Joined(items, [v] + rest, left)
    ensures |Joined(items, [v], left)| == |items| + 1
  {
    if left {
      FrontTwice(v, rest);
      var front := Joined([], rest, true);
      assert Joined(items, [v], true) == [v] + items;
      assert Joined([v] + items, rest, true) == front + ([v] + items);
      assert Joined(items, [v] + rest, true) == Joined([], [v] + rest, true) + items;
    } else {
      assert items + [v] + rest == items + ([v] + rest);
    }
  }

  lemma FrontTwice(v: string, rest: seq<string>)
    ensures Joined([], [v] + rest, true) == Joined([], rest, true) + [v]
  {}

  lemma NegativeExact(len: nat)
    ensures ToInt32(len) < 0 <==> NegativeInt(len)
  {}

  lemma AcceptedMore(len: nat, count: nat, c: nat)
    requires count >= 2 && !NegativeInt(len + 1) && Accepted(len + 1, count - 1, c)
    ensures Accepted(len, count, c + 1)
  {
    hide NegativeInt;
    forall i: nat | 1 <= i < c + 1 ensures StaysInt(len, i) {
      assert i == 1 || StaysInt(len + 1, i - 1);
    }
    assert len + 1 + c == len + (c + 1);
  }

  lemma {:induction false} PushAllExact(db: Db, k: string, values: seq<string>, left: bool, now: int, last: int)
    requires values != []
    ensures var (after, n) := PushAll(db, k, values, left, now, last); PushesTo(db, k, values, left, now, after, n)
    decreases |values|
  {
    hide Step, ToInt32, Joined, CutTo32, Accepted, NegativeInt, PushOne;
    var v, rest := values[0], values[1..];
    assert values == [v] + rest && values[..1] == [v];
    PushOneExact(db, k, v, left, now);
    var (db', n) := PushOne(db, k, v, left, now);
    if !Alive(db, k, now) || db[k].obj.List? {
      var items := if Alive(db, k, now) then db[k].obj.items else [];
      ToInt32Exact(|items| + 1, n);
      NegativeExact(|items| + 1);
      if n < 0 || rest == [] {
        AcceptedOne(|items|, |values|);
        if n >= 0 {
          assert PushAll(db', k, rest, left, now, n) == (db', n);
        }
      } else {
        PushAllExact(db', k, rest, left, now, n);
        var (after, m) := PushAll(db', k, rest, left, now, n);
        PushFurther(db, k, values, left, now, after, m);
      }
    }
  }

  lemma AcceptedOne(len: nat, count: nat)
    requires count >= 1 && (count == 1 || NegativeInt(len + 1))
    ensures Accepted(len, count, 1)
  {}

  lemma PushFurther(db: Db, k: string, values: seq<string>, left: bool, now: int, after: Db, n: int)
    requires |values| >= 2 && (!Alive(db, k, now) || db[k].obj.List?)
    requires var items := if Alive(db, k, now) then db[k].obj.items else [];
             var expire := if Alive(db, k, now) then db[k].expire else -1;
             var longer := List(Joined(items, [values[0]], left));
             && !NegativeInt(|items| + 1)
             && PushesTo(db[k := Entry(longer, expire)], k, values[1..], left, now, after, n)
    ensures PushesTo(db, k, values, left, now, after, n)
  {
    hide ToInt32, Joined, CutTo32, Accepted, NegativeInt;
    var items := if Alive(db, k, now) then db[k].obj.items else [];
    var expire := if Alive(db, k, now) then db[k].expire else -1;
    var longer := Joined(items, [values[0]], left);
    JoinedTwice(items, values[0], [], left);
    var c: nat :| Accepted(|longer|, |values[1..]|, c) && c <= |values[1..]| && CutTo32(|longer| + c, n)
                  && after == db[k := Entry(List(longer), expire)]
                              [k := Entry(List(Joined(longer, values[1..][..c], left)), expire)];
    AcceptedMore(|items|, |values|, c);
    JoinedTwice(items, values[0], values[1..][..c], left);
    assert values[..c + 1] == [values[0]] + values[1..][..c];
    assert |longer| + c == |items| + (c + 1);
  }

  ghost predicate PushAnswers(db: Db, k: string, values: seq<string>, left: bool, now: int, after: Db, reply: Value) {
    exists n: int ::
      PushesTo(db, k, values, left, now, after, n) && reply == if n < 0 then WrongType() else Integer(n)
  }

  /** LPUSH puts its values in front, the last one foremost. */
  lemma LPushPrepends(db: Db, args: seq<string>, env: Env)
    requires |args| >= 3 && Names(args[0], "LPUSH")
    ensures var (after, reply) := Exec(db, args, env);
            PushAnswers(db, args[1], args[2..], true, env.now, after, reply)
  {
    hide PushAll, PushesTo;
    Runs(db, args, env, CLPush);
    PushAllExact(db, args[1], args[2..], true, env.now, 0);
  }

  /** RPUSH puts its values behind, in order. */
  lemma RPushAppends(db: Db, args: seq<string>, env: Env)
    requires |args| >= 3 && Names(args[0], "RPUSH")
    ensures var (after, reply) := Exec(db, args, env);
            PushAnswers(db, args[1], args[2..], false, env.now, after, reply)
  {
    hide PushAll, PushesTo;
    Runs(db, args, env, CRPush);
    PushAllExact(db, args[1], args[2..], false, env.now, 0);
  }

  /** As long as the length fits an `int`, all values are accepted. */
  lemma AllAccepted(len: nat, count: nat, c: nat, total: nat)
    requires Accepted(len, count, c) && total == len + count <= 0x7FFF_FFFF
    ensures c == count && forall n: int :: CutTo32(total, n) <==> n == total
  {
    hide ToInt32;
    ToInt32Identity(len + c);
    NegativeExact(len + c);
    ToInt32Identity(total);
    forall n: int ensures CutTo32(total, n) <==> n == total {
      ToInt32Exact(total, n);
    }
  }

  /** The elements from `start` to `stop`, negative bounds counted from the end, of the first `len`. */
  function Part(xs: seq<string>, len: int, start: int, stop: int): (ys: seq<string>)
    requires len <= |xs|
  {
    var from := if start < 0 then len + start else start;
    var to := if stop < 0 then len + stop else stop;
    var first := if from < 0 then 0 else from;
    var last := if to < len then to else len - 1;
    if 0 <= first <= last then xs[first..last + 1] else []
  }

  lemma LRangeSelects(db: Db, args: seq<string>, env: Env, a: int, b: int, start: int, stop: int)
    requires |args| >= 4 && Names(args[0], "LRANGE")
    requires Reads(args[2], a) && CutTo32(a, start) && Reads(args[3], b) && CutTo32(b, stop)
    ensures var (after, reply) := Exec(db, args, env);
            var k := args[1];
            && after == Tidy(db, k, env.now) && reply.Array?
            && if !Alive(db, k, env.now) || !db[k].obj.List? then reply.items == []
               else
                 forall len: int | CutTo32(|db[k].obj.items|, len) ::
                   len <= |db[k].obj.items| && reply.items == Bulks(Part(db[k].obj.items, len, start, stop))
  {
    hide Step, StrToLL, Reads, ToInt32, CutTo32, Recognise, Part, LinkedList.ListRange, Tidy, Alive;
    Runs(db, args, env, CLRange);
    StrToLLExact(args[2], a);
    StrToLLExact(args[3], b);
    ToInt32Exact(a, start);
    ToInt32Exact(b, stop);
    RangeStep(db, args[1], start, stop, env.now);
  }

  lemma RangeStep(db: Db, k: string, start: int, stop: int, now: int)
    ensures var (after, r) := Step(db, LRange(k, start, stop), now);
            && after == Tidy(db, k, now) && r.Items?
            && if !Alive(db, k, now) || !db[k].obj.List? then r.items == []
               else
                 forall len: int | CutTo32(|db[k].obj.items|, len) ::
                   len <= |db[k].obj.items| && r.items == Part(db[k].obj.items, len, start, stop)
  {
    hide Step, Part, LinkedList.ListRange, CutTo32;
    StepTidied(db, LRange(k, start, stop), now);
    if Alive(db, k, now) && db[k].obj.List? {
      forall len: int | CutTo32(|db[k].obj.items|, len)
        ensures len <= |db[k].obj.items| &&
                LinkedList.ListRange(db[k].obj.items, start, stop) == Part(db[k].obj.items, len, start, stop)
      {
        PartIsRange(db[k].obj.items, len, start, stop);
      }
    }
  }

  lemma PartIsRange(xs: seq<string>, len: int, start: int, stop: int)
    requires CutTo32(|xs|, len)
    ensures len <= |xs| && LinkedList.ListRange(xs, start, stop) == Part(xs, len, start, stop)
  {
    hide ToInt32;
    ToInt32Exact(|xs|, len);
    LinkedList.CutIsShorter(|xs|);
    LinkedList.SliceCases(LinkedList.Visible(xs), start, stop);
  }

  lemma LPopTakesFirst(db: Db, args: seq<string>, env: Env)
    requires |args| >= 2 && Names(args[0], "LPOP")
    ensures var k := args[1];
            Exec(db, args, env) ==
            if !Alive(db, k, env.now) || !db[k].obj.List? then (Tidy(db, k, env.now), Nil)
            else
              var xs := db[k].obj.items;
              if |xs| == 0 then (db - {k}, Nil)
              else if |xs| == 1 then (db - {k}, BulkString(xs[0]))
              else (db[k := Entry(List(xs[1..]), db[k].expire)], BulkString(xs[0]))
  {
    hide Step, Recognise, Exec, Alive, Tidy;
    Runs(db, args, env, CLPop);
    StepTidied(db, LPop(args[1]), env.now);
  }

  lemma RPopTakesLast(db: Db, args: seq<string>, env: Env)
    requires |args| >= 2 && Names(args[0], "RPOP")
    ensures var k := args[1];
            Exec(db, args, env) ==
            if !Alive(db, k, env.now) || !db[k].obj.List? then (Tidy(db, k, env.now), Nil)
            else
              var xs := db[k].obj.items;
              if |xs| == 0 then (db - {k}, Nil)
              else if |xs| == 1 then (db - {k}, BulkString(xs[0]))
              else (db[k := Entry(List(xs[..|xs| - 1]), db[k].expire)], BulkString(xs[|xs| - 1]))
  {
    hide Step, Recognise, Exec, Alive, Tidy;
    Runs(db, args, env, CRPop);
    StepTidied(db, RPop(args[1]), env.now);
  }

  lemma LLenCounts(db: Db, args: seq<string>, env: Env)
    requires |args| >= 2 && Names(args[0], "LLEN")
    ensures var k := args[1];
            Exec(db, args, env) ==
            if !Alive(db, k, env.now) then (Tidy(db, k, env.now), Integer(0))
            else if db[k].obj.List? then (db, Integer(|db[k].obj.items|))
            else (db, WrongType())
  {
    hide Step, Recognise, Exec, Alive, Tidy;
    Runs(db, args, env, CLLen);
    StepTidied(db, LLen(args[1]), env.now);
  }

  // ---- Deadlines ----

  lemma ExpireSets(db: Db, args: seq<string>, env: Env, seconds: int)
    requires |args| >= 3 && Names(args[0], "EXPIRE") && Reads(args[2], seconds)
    requires IsInt64(env.now + seconds * 1000)
    ensures var k := args[1];
            Exec(db, args, env) ==
            if Alive(db, k, env.now)
            then (db[k := Entry(db[k].obj, env.now + seconds * 1000)], Integer(1))
            else (Tidy(db, k, env.now), Integer(0))
  {
    hide Step, StrToLL, Reads, Alive, Tidy, Recognise, Exec, IsInt64;
    Runs(db, args, env, CExpire);
    StrToLLExact(args[2], seconds);
    ExpireStep(db, args[1], seconds, env.now);
    assert Handle(db, CExpire, args, env).0 == Step(db, Op.Expire(args[1], seconds), env.now).0;
  }

  lemma ExpireStep(db: Db, k: string, seconds: int, now: int)
    requires IsInt64(now + seconds * 1000)
    ensures Step(db, Op.Expire(k, seconds), now) ==
            if Alive(db, k, now) then (db[k := Entry(db[k].obj, now + seconds * 1000)], Flag(true))
            else (Tidy(db, k, now), Flag(false))
  {
    hide Step, ToInt64;
    StepTidied(db, Op.Expire(k, seconds), now);
    ToInt64Identity(now + seconds * 1000);
  }

  /** Whole seconds that are left; -1 without a deadline, -2 without the key. */
  lemma TtlAnswers(db: Db, args: seq<string>, env: Env)
    requires |args| >= 2 && Names(args[0], "TTL")
    ensures var k := args[1];
            Exec(db, args, env) ==
            (Tidy(db, k, env.now),
             Integer(if !Alive(db, k, env.now) then -2 else if db[k].expire < 0 then -1
                     else (db[k].expire - env.now) / 1000))
  {
    hide Step, Recognise, Exec, Tidy;
    Runs(db, args, env, CTtl);
    StepTidied(db, Ttl(args[1]), env.now);
  }

  lemma PersistClears(db: Db, args: seq<string>, env: Env)
    requires |args| >= 2 && Names(args[0], "PERSIST")
    ensures var k := args[1];
            Exec(db, args, env) ==
            if Alive(db, k, env.now) && db[k].expire >= 0 then (db[k := Entry(db[k].obj, -1)], Integer(1))
            else (Tidy(db, k, env.now), Integer(0))
  {
    hide Step, Recognise, Exec, Alive, Tidy;
    Runs(db, args, env, CPersist);
    StepTidied(db, Persist(args[1]), env.now);
  }

  // ---- The server ----

  lemma DbSizeCounts(db: Db, args: seq<string>, env: Env)
    requires args != [] && Names(args[0], "DBSIZE")
    ensures Exec(db, args, env) == (db, Integer(|db|))
  {
    Runs(db, args, env, CDbSize);
  }

  lemma FlushDbEmpties(db: Db, args: seq<string>, env: Env)
    requires args != [] && Names(args[0], "FLUSHDB")
    ensures Exec(db, args, env) == (map[], SimpleString("OK"))
  {
    Runs(db, args, env, CFlushDb);
  }

  lemma InfoCounts(db: Db, args: seq<string>, env: Env)
    requires args != [] && Names(args[0], "INFO")
    ensures var (after, reply) := Exec(db, args, env);
            && after == db && reply.BulkString?
            && reply.text ==
               "# Server\r\n" + "inmemdb_version:1.0.0\r\n" + "# Keyspace\r\n" + "db0:keys=" + Print(|db|) + "\r\n"
  {
    hide Print;
    Runs(db, args, env, CInfo);
  }

  lemma SaveAnswers(db: Db, args: seq<string>, env: Env)
    requires args != [] && Names(args[0], "SAVE")
    ensures Exec(db, args, env) ==
            (db, if env.saved then SimpleString("OK") else Error("ERR failed to save database"))
  {
    Runs(db, args, env, CSave);
  }

  lemma ShutdownAnswers(db: Db, args: seq<string>, env: Env)
    requires args != [] && Names(args[0], "SHUTDOWN")
    ensures Exec(db, args, env) == (db, SimpleString("OK"))
  {
    Runs(db, args, env, CShutdown);
  }
}
