/** The command processor as a function: arguments and keyspace in, keyspace and one reply value out. */
module Commands {
  import opened Wrappers
  import opened CText
  import opened Resp
  import opened Keyspace

  datatype Command =
    | CPing | CSet | CGet | CDel | CExists | CIncr | CDecr | CMSet | CMGet
    | CLPush | CRPush | CLPop | CRPop | CLLen | CLRange
    | CExpire | CTtl | CPersist | CDbSize | CFlushDb | CInfo | CSave | CShutdown

  /**
   What a command sees of the outside: the clock, whether the snapshot file could be written, and the memory
   behind the scratch buffer that long lines run into.
   */
  datatype Env = Env(now: int, saved: bool, behind: nat -> char)

  // ---- Dispatch ----

  function Lower(c: char): char {
    if 'A' <= c <= 'Z' then (c as int + 32) as char else c
  }

  /** Equality of names up to the case of ASCII letters. */
  predicate SameName(a: string, b: string) {
    |a| == |b| && forall i | 0 <= i < |a| :: Lower(a[i]) == Lower(b[i])
  }

  const COMMAND_TABLE: seq<Command> := [
    CPing, CSet, CGet, CDel, CExists, CIncr, CDecr, CMSet, CMGet, CLPush, CRPush, CLPop, CRPop, CLLen,
    CLRange, CExpire, CTtl, CPersist, CDbSize, CFlushDb, CInfo, CSave, CShutdown]

  function NameOf(c: Command): string {
    match c
    case CPing => "PING" case CSet => "SET" case CGet => "GET" case CDel => "DEL"
    case CExists => "EXISTS" case CIncr => "INCR" case CDecr => "DECR"
    case CMSet => "MSET" case CMGet => "MGET"
    case CLPush => "LPUSH" case CRPush => "RPUSH" case CLPop => "LPOP" case CRPop => "RPOP"
    case CLLen => "LLEN" case CLRange => "LRANGE"
    case CExpire => "EXPIRE" case CTtl => "TTL" case CPersist => "PERSIST"
    case CDbSize => "DBSIZE" case CFlushDb => "FLUSHDB" case CInfo => "INFO"
    case CSave => "SAVE" case CShutdown => "SHUTDOWN"
  }

  /** The first table entry from position `i` on whose name matches. */
  function Recognise(name: string, i: nat := 0): Option<Command>
    decreases name, |COMMAND_TABLE| - i
  {
    if i >= |COMMAND_TABLE| then None
    else if SameName(name, NameOf(COMMAND_TABLE[i])) then Some(COMMAND_TABLE[i])
    else Recognise(name, i + 1)
  }

  lemma NameUpper(c: Command)
    ensures forall i | 0 <= i < |NameOf(c)| :: 'A' <= NameOf(c)[i] <= 'Z'
  {}

  function LetterAt(s: string, i: nat): char { if i < |s| then s[i] else ' ' }

  /** A few letters that tell the names apart. */
  function Signature(s: string): (nat, char, char, char, char) {
    (|s|, LetterAt(s, 0), LetterAt(s, 1), LetterAt(s, 2), LetterAt(s, 4))
  }

  lemma NamesDiffer(a: Command, b: Command)
    requires a != b
    ensures NameOf(a) != NameOf(b)
  {
    var x, y := NameOf(a), NameOf(b);
    match a case _ => assert Signature(x) != Signature(y);
  }

  lemma OneName(name: string, a: Command, b: Command)
    requires SameName(name, NameOf(a)) && SameName(name, NameOf(b))
    ensures a == b
  {
    hide NameOf;
    var x, y := NameOf(a), NameOf(b);
    NameUpper(a);
    NameUpper(b);
    forall i | 0 <= i < |x| ensures x[i] == y[i] {
      assert Lower(name[i]) == Lower(x[i]) == Lower(y[i]);
    }
    if a != b {
      NamesDiffer(a, b);
    }
  }

  lemma {:induction false} FirstMatch(name: string, c: Command, i: nat)
    requires SameName(name, NameOf(c)) && i <= |COMMAND_TABLE|
    requires exists j :: i <= j < |COMMAND_TABLE| && COMMAND_TABLE[j] == c
    ensures Recognise(name, i) == Some(c)
    decreases |COMMAND_TABLE| - i
  {
    hide NameOf, COMMAND_TABLE, SameName;
    if SameName(name, NameOf(COMMAND_TABLE[i])) {
      OneName(name, COMMAND_TABLE[i], c);
    } else {
      FirstMatch(name, c, i + 1);
    }
  }

  lemma {:induction false} MatchNamed(name: string, i: nat)
    requires Recognise(name, i).Some?
    ensures SameName(name, NameOf(Recognise(name, i).value))
    decreases |COMMAND_TABLE| - i
  {
    hide NameOf, COMMAND_TABLE, SameName;
    if !SameName(name, NameOf(COMMAND_TABLE[i])) {
      MatchNamed(name, i + 1);
    }
  }

  lemma InTable(c: Command)
    ensures exists j :: 0 <= j < |COMMAND_TABLE| && COMMAND_TABLE[j] == c
  {
    assert c in COMMAND_TABLE;
  }

  /** No table entry shadows another: a name reaches a command exactly when it is its name up to case. */
  lemma RecogniseExact(name: string, c: Command)
    ensures Recognise(name) == Some(c) <==> SameName(name, NameOf(c))
  {
    hide NameOf, COMMAND_TABLE, SameName;
    InTable(c);
    if SameName(name, NameOf(c)) {
      FirstMatch(name, c, 0);
    } else if Recognise(name) == Some(c) {
      MatchNamed(name, 0);
    }
  }

  /** The fewest arguments, the name included, that a handler accepts. */
  function MinArgs(c: Command): nat {
    match c
    case CPing | CDbSize | CFlushDb | CInfo | CSave | CShutdown => 1
    case CGet | CDel | CExists | CIncr | CDecr | CMGet | CLPop | CRPop | CLLen | CTtl | CPersist => 2
    case CSet | CMSet | CLPush | CRPush | CExpire => 3
    case CLRange => 4
  }

  predicate WrongCount(c: Command, argc: nat)
    requires argc > 0
  {
    argc < MinArgs(c) || (c == CMSet && (argc - 1) % 2 != 0)
  }

  // ---- Reply texts ----

  function WrongCountText(c: Command): string { "ERR wrong number of arguments for '" + NameOf(c) + "' command" }

  function UnknownText(name: string): string { "ERR unknown command '" + name + "'" }

  const WRONG_TYPE: string := "WRONGTYPE Operation against a key " + "holding the wrong kind of value"
  const NOT_INTEGER: string := "ERR value is not an " + "integer or out of range"
  const BAD_FORMAT: string := "ERR invalid command format"
  const BAD_COMMAND: string := "ERR invalid command"
  const SAVE_FAILED: string := "ERR failed to save database"

  function InfoText(keys: nat): string {
    "# Server\r\n" + "inmemdb_version:1.0.0\r\n" + "# Keyspace\r\n" + "db0:keys=" + Print(keys) + "\r\n"
  }

  // ---- Handlers ----

  function OfBool(b: bool): Value { Integer(if b then 1 else 0) }

  /** How GET shows an object, or its absence. */
  function GetReply(obj: Option<Obj>): Value {
    match obj
    case None => Nil
    case Some(Str(s)) => BulkString(s)
    case Some(Int(n)) => BulkString(Print(n))
    case Some(List(_)) => Error(WRONG_TYPE)
  }

  /** MGET shows a list like a missing key. */
  function MGetReply(obj: Option<Obj>): Value {
    if obj.Some? && obj.value.List? then Nil else GetReply(obj)
  }

  function PoppedReply(s: Option<string>): Value {
    match s case None => Nil case Some(text) => BulkString(text)
  }

  function GetObj(db: Db, key: string, now: int): (Db, Option<Obj>) {
    var (db', r) := Step(db, Get(key), now);
    (db', if r.Object? then r.obj else None)
  }

  function DelOne(db: Db, key: string, now: int): (Db, int) {
    var (db', r) := Step(db, Del(key), now);
    (db', if r == Flag(true) then 1 else 0)
  }

  /** The options of SET from position `i` on: each `EX` with a positive number of seconds sets the deadline. */
  function SetOptions(db: Db, args: seq<string>, i: nat, now: int): Db
    requires |args| > 1
    decreases |args| - i
  {
    if i + 1 >= |args| then db
    else
      var secs := StrToLL(args[i + 1]);
      var db' := if SameName(args[i], "EX") && secs > 0 then Step(db, Expire(args[1], secs), now).0 else db;
      SetOptions(db', args, i + 2, now)
  }

  function DelAll(db: Db, keys: seq<string>, now: int): (Db, int)
    decreases |keys|
  {
    if keys == [] then (db, 0)
    else
      var (db', n) := DelOne(db, keys[0], now);
      var (db'', m) := DelAll(db', keys[1..], now);
      (db'', n + m)
  }

  function SetAll(db: Db, pairs: seq<string>, now: int): Db
    decreases |pairs|
  {
    if |pairs| < 2 then db else SetAll(Step(db, Set(pairs[0], pairs[1]), now).0, pairs[2..], now)
  }

  function GetAll(db: Db, keys: seq<string>, now: int): (r: (Db, seq<Value>))
    ensures |r.1| == |keys|
    decreases |keys|
  {
    if keys == [] then (db, [])
    else
      var (db', obj) := GetObj(db, keys[0], now);
      var (db'', replies) := GetAll(db', keys[1..], now);
      (db'', [MGetReply(obj)] + replies)
  }

  function PushOne(db: Db, key: string, v: string, left: bool, now: int): (Db, int) {
    var (db', r) := Step(db, if left then LPush(key, v) else RPush(key, v), now);
    (db', if r.Num? then r.n else 0)
  }

  /** Pushes values one by one until one is refused; the result is the last reply number. */
  function PushAll(db: Db, key: string, values: seq<string>, left: bool, now: int, last: int): (Db, int)
    decreases |values|
  {
    if values == [] then (db, last)
    else
      var (db', n) := PushOne(db, key, values[0], left, now);
      if n < 0 then (db', n) else PushAll(db', key, values[1..], left, now, n)
  }

  function PushReply(n: int): Value { if n < 0 then Error(WRONG_TYPE) else Integer(n) }

  function IncrReply(r: Reply): Value {
    if r == Num(INT64_MIN) then Error(NOT_INTEGER) else Integer(if r.Num? then r.n else 0)
  }

  /** The single-key commands and their replies. */
  function SimpleReply(r: Reply): Value {
    match r
    case Done => SimpleString("OK")
    case Object(obj) => GetReply(obj)
    case Flag(b) => OfBool(b)
    case Num(n) => Integer(n)
    case Popped(s) => PoppedReply(s)
    case Items(xs) => Array(Bulks(xs))
  }

  function Handle(db: Db, c: Command, args: seq<string>, env: Env): (Db, Value)
    requires |args| >= MinArgs(c)
  {
    var now := env.now;
    match c
    case CPing => (db, if |args| > 1 then BulkString(args[1]) else SimpleString("PONG"))
    case CSet => (SetOptions(Step(db, Set(args[1], args[2]), now).0, args, 3, now), SimpleString("OK"))
    case CDel => var (db', n) := DelAll(db, args[1..], now); (db', Integer(n))
    case CIncr => var (db', r) := Step(db, Incr(args[1], 1), now); (db', IncrReply(r))
    case CDecr => var (db', r) := Step(db, Incr(args[1], -1), now); (db', IncrReply(r))
    case CMSet => (SetAll(db, args[1..], now), SimpleString("OK"))
    case CMGet => var (db', replies) := GetAll(db, args[1..], now); (db', Array(replies))
    case CLPush => var (db', n) := PushAll(db, args[1], args[2..], true, now, 0); (db', PushReply(n))
    case CRPush => var (db', n) := PushAll(db, args[1], args[2..], false, now, 0); (db', PushReply(n))
    case CLLen => var (db', r) := Step(db, LLen(args[1]), now); (db', PushReply(if r.Num? then r.n else 0))
    case CInfo => (db, BulkString(InfoText(|db|)))
    case CSave => (db, if env.saved then SimpleString("OK") else Error(SAVE_FAILED))
    case CShutdown => (db, SimpleString("OK"))
    case _ => var (db', r) := Step(db, SimpleOp(c, args), now); (db', SimpleReply(r))
  }

  predicate IsSimple(c: Command) {
    c in {CGet, CExists, CLPop, CRPop, CLRange, CExpire, CTtl, CPersist, CDbSize, CFlushDb}
  }

  /** The database operation behind a command that is one operation with its plain reply. */
  function SimpleOp(c: Command, args: seq<string>): Op
    requires IsSimple(c) && |args| >= MinArgs(c)
  {
    match c
    case CGet => Get(args[1])
    case CExists => Exists(args[1])
    case CLPop => LPop(args[1])
    case CRPop => RPop(args[1])
    case CLRange => LRange(args[1], Atoi(args[2]), Atoi(args[3]))
    case CExpire => Expire(args[1], StrToLL(args[2]))
    case CTtl => Ttl(args[1])
    case CPersist => Persist(args[1])
    case CDbSize => Size
    case _ => Flush
  }

  /** Runs a command given as its arguments, the name first. */
  function Exec(db: Db, args: seq<string>, env: Env): (Db, Value)
    requires args != []
  {
    match Recognise(args[0])
    case None => (db, Error(UnknownText(args[0])))
    case Some(c) => if WrongCount(c, |args|) then (db, Error(WrongCountText(c))) else Handle(db, c, args, env)
  }

  // ---- Commands as they arrive ----

  predicate IsText(v: Value) { v.BulkString? || v.SimpleString? }

  /** Whether the handler of a command uses its argument at position `i` as a string. */
  predicate UsesArg(c: Command, i: nat) {
    match c
    case CDbSize | CFlushDb | CInfo | CSave | CShutdown => false
    case CDel | CMSet | CMGet | CLPush | CRPush => i >= 1
    case CLRange => 1 <= i <= 3
    case CSet | CExpire => 1 <= i <= 2
    case _ => i == 1
  }

  /** An array that starts with a string, and with strings wherever its handler uses one. */
  predicate IsCommand(v: Value) {
    && v.Array? && v.items != [] && IsText(v.items[0])
    && match Recognise(TextOfValue(v.items[0]))
       case None => true
       case Some(c) =>
         !WrongCount(c, |v.items|) ==> forall i: nat | i < |v.items| && UsesArg(c, i) :: IsText(v.items[i])
  }

  /** Not an array, empty, or not starting with a string: answered with an error. */
  predicate IsRejected(v: Value) { !v.Array? || v.items == [] || !IsText(v.items[0]) }

  function TextOfValue(v: Value): string { if IsText(v) then v.text else [] }

  function Texts(items: seq<Value>): (args: seq<string>)
    ensures |args| == |items|
  {
    seq(|items|, i requires 0 <= i < |items| => TextOfValue(items[i]))
  }

  /** What the server can run. A handler that uses an argument which is no string runs into a null pointer. */
  predicate Handled(v: Value) { IsCommand(v) || IsRejected(v) }

  /** Runs a parsed value. */
  function ExecValue(db: Db, v: Value, env: Env): (Db, Value)
    requires Handled(v)
  {
    if !v.Array? || v.items == [] then (db, Error(BAD_FORMAT))
    else if !IsText(v.items[0]) then (db, Error(BAD_COMMAND))
    else Exec(db, Texts(v.items), env)
  }

  // ---- Replies as bytes ----

  const ERROR_SIZE: nat := 128

  predicate IsUnknown(v: Value) { !IsRejected(v) && Recognise(TextOfValue(v.items[0])) == None }

  /** The answer to an unknown command: its name is printed to one buffer of 128 bytes, and the line to another. */
  function UnknownReply(name: string, behind: nat -> char): string {
    Formatted(Write(Error(Stored(UnknownText(name), ERROR_SIZE))), behind)
  }

  /** The bytes a value is answered with. */
  function ReplyBytes(v: Value, reply: Value, env: Env): string {
    if IsUnknown(v) then UnknownReply(TextOfValue(v.items[0]), env.behind) else Write(reply)
  }
}
