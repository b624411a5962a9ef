/**
 The keyspace with time-to-live, as a value: what each database operation does to it at a clock reading, with
 expired entries still stored until something touches or sweeps them.
 */
module Keyspace {
  import opened Wrappers
  import opened CText
  import opened Decimal
  import LinkedList

  datatype Obj = Str(text: string) | Int(num: int) | List(items: seq<string>)

  /** A value with its deadline in milliseconds; a negative deadline means none. */
  datatype Entry = Entry(obj: Obj, expire: int)

  type Db = map<string, Entry>

  // ---- Objects ----

  /** Succeeds when `strtoll` consumes the whole, non-empty text without overflow. */
  function TryParseInt(s: string): Option<int> {
    match ScanNumber(s)
    case NoNumber => None
    case Number(v, rest) => if rest == [] && IsInt64(v) then Some(v) else None
  }

  /** The object a text is stored as. */
  function ObjOf(text: string): Obj {
    match TryParseInt(text)
    case Some(n) => Int(n)
    case None => Str(text)
  }

  /** A text parses if and only if all of it is a numeral that fits 64 bits; nothing may be left over. */
  lemma TryParseExact(s: string, n: int)
    ensures TryParseInt(s) == Some(n) <==> Denotes(s, n)
  {
    hide ScanNumber, Denotes;
    DenotesExact(s, n);
  }

  lemma UnparsedExact(s: string)
    ensures TryParseInt(s) == None <==> forall n: int :: !Denotes(s, n)
  {
    hide TryParseInt, Denotes;
    forall n: int ensures TryParseInt(s) == Some(n) <==> Denotes(s, n) {
      TryParseExact(s, n);
    }
    if TryParseInt(s).Some? {
      assert Denotes(s, TryParseInt(s).value);
    }
  }

  /** What a text is stored as: the number it denotes, or the text if it denotes none. */
  ghost predicate StoredAs(text: string, obj: Obj) {
    match obj
    case Int(n) => Denotes(text, n)
    case Str(s) => s == text && forall n: int :: !Denotes(text, n)
    case List(_) => false
  }

  lemma ObjOfExact(text: string, obj: Obj)
    ensures obj == ObjOf(text) <==> StoredAs(text, obj)
  {
    hide TryParseInt, Denotes;
    UnparsedExact(text);
    forall n: int ensures TryParseInt(text) == Some(n) <==> Denotes(text, n) {
      TryParseExact(text, n);
    }
  }

  /** The text a string or integer object is shown as. */
  function TextOf(obj: Obj): Option<string> {
    match obj
    case Str(s) => Some(s)
    case Int(n) => Some(Print(n))
    case List(_) => None
  }

  // ---- Operations ----

  predicate IsExpired(e: Entry, now: int) { e.expire >= 0 && now > e.expire }

  datatype Op =
    | Set(key: string, text: string)
    | Get(key: string)
    | Del(key: string)
    | Exists(key: string)
    | Incr(key: string, delta: int)
    | LPush(key: string, value: string)
    | RPush(key: string, value: string)
    | LPop(key: string)
    | RPop(key: string)
    | LLen(key: string)
    | LRange(key: string, start: int, stop: int)
    | Expire(key: string, seconds: int)
    | Ttl(key: string)
    | Persist(key: string)
    | Size
    | Flush

  datatype Reply =
    | Done
    | Object(obj: Option<Obj>)
    | Flag(yes: bool)
    | Num(n: int)
    | Popped(value: Option<string>)
    | Items(items: seq<string>)

  /** The sentinel that `db_incr` returns on a type error. */
  const TYPE_ERROR: int := INT64_MIN

  function Lookup(db: Db, key: string): Option<Entry> {
    if key in db then Some(db[key]) else None
  }

  /** Removes the key if its entry is expired. */
  function DropExpired(db: Db, key: string, now: int): Db {
    if key in db && IsExpired(db[key], now) then db - {key} else db
  }

  /** One database operation at clock reading `now`, as written: drop the key if it is expired, then act. */
  function Step(db: Db, op: Op, now: int): (Db, Reply) {
    match op
    case Set(k, text) => (db[k := Entry(ObjOf(text), -1)], Done)
    case Size => (db, Num(|db|))
    case Flush => (map[], Done)
    case _ => StepKey(DropExpired(db, op.key, now), op, now)
  }

  /** The operations that look at one key, once it is known not to be expired. */
  function StepKey(db: Db, op: Op, now: int): (Db, Reply)
    requires !op.Set? && !op.Size? && !op.Flush?
  {
    var k := op.key;
    var e := Lookup(db, k);
    match op
    case Get(_) => (db, Object(if e.Some? then Some(e.value.obj) else None))
    case Del(_) => (db - {k}, Flag(e.Some?))
    case Exists(_) => (db, Flag(e.Some?))
    case Incr(_, delta) => StepIncr(db, k, delta)
    case LPush(_, value) => StepPush(db, k, value, true)
    case RPush(_, value) => StepPush(db, k, value, false)
    case LPop(_) => StepPop(db, k, true)
    case RPop(_) => StepPop(db, k, false)
    case LLen(_) =>
      (db, Num(if e == None then 0 else if e.value.obj.List? then |e.value.obj.items| else -1))
    case LRange(_, start, stop) =>
      (db, Items(if e.Some? && e.value.obj.List? then LinkedList.ListRange(e.value.obj.items, start, stop) else []))
    case Expire(_, seconds) =>
      if e == None then (db, Flag(false))
      else (db[k := e.value.(expire := ToInt64(now + seconds * 1000))], Flag(true))
    case Ttl(_) =>
      (db, Num(if e == None then -2 else if e.value.expire < 0 then -1 else Remaining(e.value.expire, now)))
    case Persist(_) =>
      if e == None || e.value.expire < 0 then (db, Flag(false))
      else (db[k := e.value.(expire := -1)], Flag(true))
  }

  /** Whole seconds left, rounded towards zero and never negative. */
  function Remaining(expire: int, now: int): int {
    if expire > now then (expire - now) / 1000 else 0
  }

  /** Adds to an integer; a missing key counts as 0 without deadline. Addition wraps at 64 bits. */
  function StepIncr(db: Db, k: string, delta: int): (Db, Reply) {
    match Lookup(db, k)
    case None => (db[k := Entry(Int(delta), -1)], Num(delta))
    case Some(e) =>
      match e.obj
      case Int(n) => StoreSum(db, k, e, n + delta)
      case Str(s) =>
        (match TryParseInt(s)
         case Some(n) => StoreSum(db, k, e, n + delta)
         case None => (db, Num(TYPE_ERROR)))
      case List(_) => (db, Num(TYPE_ERROR))
  }

  function StoreSum(db: Db, k: string, e: Entry, sum: int): (Db, Reply) {
    (db[k := e.(obj := Int(ToInt64(sum)))], Num(ToInt64(sum)))
  }

  /** The reply is the length, cut to an `int`. */
  function StepPush(db: Db, k: string, value: string, left: bool): (Db, Reply) {
    match Lookup(db, k)
    case None => (db[k := Entry(List([value]), -1)], Num(ToInt32(1)))
    case Some(e) =>
      if !e.obj.List? then (db, Num(-1))
      else
        var items := if left then [value] + e.obj.items else e.obj.items + [value];
        (db[k := e.(obj := List(items))], Num(ToInt32(|items|)))
  }

  /** Pops at one end; a list that becomes empty is deleted with its key. */
  function StepPop(db: Db, k: string, left: bool): (Db, Reply) {
    match Lookup(db, k)
    case None => (db, Popped(None))
    case Some(e) =>
      if !e.obj.List? then (db, Popped(None))
      else if |e.obj.items| == 0 then (db - {k}, Popped(None))
      else
        var n := |e.obj.items| - 1;
        var popped := e.obj.items[if left then 0 else n];
        var items := if left then e.obj.items[1..] else e.obj.items[..n];
        (if items == [] then db - {k} else db[k := e.(obj := List(items))], Popped(Some(popped)))
  }

  // ---- Reachable keyspaces are well typed ----

  /** Texts that parse as integers are stored as integers, and no empty list is stored. */
  predicate WellTypedObj(obj: Obj) {
    match obj
    case Str(s) => TryParseInt(s) == None
    case Int(n) => IsInt64(n)
    case List(items) => items != []
  }

  predicate WellTyped(db: Db) { forall k | k in db :: WellTypedObj(db[k].obj) && IsInt64(db[k].expire) }

  lemma ObjOfWellTyped(text: string)
    ensures WellTypedObj(ObjOf(text))
  {}

  lemma StepWellTyped(db: Db, op: Op, now: int)
    requires WellTyped(db) && (op.Incr? ==> IsInt64(op.delta))
    ensures WellTyped(Step(db, op, now).0)
  {
    hide TryParseInt;
    if op.Set? {
      ObjOfWellTyped(op.text);
    } else if !op.Size? && !op.Flush? {
      StepKeyWellTyped(DropExpired(db, op.key, now), op, now);
    }
  }

  lemma StepKeyWellTyped(db: Db, op: Op, now: int)
    requires !op.Set? && !op.Size? && !op.Flush?
    requires WellTyped(db) && (op.Incr? ==> IsInt64(op.delta))
    ensures WellTyped(StepKey(db, op, now).0)
  {
    hide TryParseInt;
  }

  /** Incrementing a string is always a type error and changes nothing: the parsing branch is never taken. */
  lemma IncrOnStringFails(db: Db, k: string, delta: int, now: int)
    requires WellTyped(db) && k in db && !IsExpired(db[k], now) && db[k].obj.Str?
    ensures Step(db, Incr(k, delta), now) == (db, Num(TYPE_ERROR))
  {}

  // ---- SET then GET ----

  /** What GET shows of a text once it is stored. */
  function Normal(text: string): string {
    match TryParseInt(text)
    case Some(n) => Print(n)
    case None => text
  }

  /** A stored text is shown as the canonical numeral of the number it denotes, or as it is if it denotes none. */
  ghost predicate ShownAs(text: string, shown: string) {
    if exists n: int :: Denotes(text, n) then Canonical(shown) && exists n: int :: Denotes(text, n) && Denotes(shown, n)
    else shown == text
  }

  lemma NormalExact(text: string, shown: string)
    ensures shown == Normal(text) <==> ShownAs(text, shown)
  {
    hide TryParseInt, Denotes, Print, Canonical;
    UnparsedExact(text);
    if TryParseInt(text).Some? {
      var n := TryParseInt(text).value;
      TryParseExact(text, n);
      DenotedOnce(text, n);
      PrintExact(n, shown);
    }
  }

  /** GET after SET shows the canonical decimal of a text that is an integer, and any other text unchanged. */
  lemma GetAfterSet(db: Db, k: string, text: string, now: int, later: int)
    ensures var stored := Step(db, Set(k, text), now).0;
            var (db', r) := Step(stored, Get(k), later);
            && db' == stored
            && r.Object? && r.obj.Some? && StoredAs(text, r.obj.value)
            && TextOf(r.obj.value) == Some(Normal(text))
            && forall shown: string :: TextOf(r.obj.value) == Some(shown) <==> ShownAs(text, shown)
  {
    hide TryParseInt, StoredAs, ShownAs;
    ObjOfExact(text, ObjOf(text));
    forall shown: string ensures shown == Normal(text) <==> ShownAs(text, shown) {
      NormalExact(text, shown);
    }
  }

  /** Storing what GET shows stores the same object again. */
  lemma NormalStores(text: string)
    ensures ObjOf(Normal(text)) == ObjOf(text)
    ensures Normal(Normal(text)) == Normal(text)
  {
    match TryParseInt(text)
    case Some(n) =>
      ScanPrinted(n, []);
      assert Print(n) + [] == Print(n);
    case None =>
  }
}
