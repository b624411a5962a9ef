/**
 The simple map that a caller may think of: entries are gone the moment their deadline has passed. Lazy expiry
 with sampling sweeps refines it.
 */
module TimedMap {
  import opened Wrappers
  import opened CText
  import opened Keyspace
  import LinkedList

  /** The entries whose deadline has not passed. */
  function Live(db: Db, now: int): Db {
    map k | k in db && !IsExpired(db[k], now) :: db[k]
  }

  // ---- The specification: operations on a map of live entries only ----

  function ListAt(m: Db, k: string): Option<seq<string>> {
    if k in m && m[k].obj.List? then Some(m[k].obj.items) else None
  }

  /** Rebinds a key to another object under the deadline it has, if any. */
  function Rebind(m: Db, k: string, obj: Obj): Db {
    m[k := Entry(obj, if k in m then m[k].expire else -1)]
  }

  function StoreList(m: Db, k: string, items: seq<string>): Db {
    if items == [] then m - {k} else Rebind(m, k, List(items))
  }

  /** The integer an object counts as when it is incremented. */
  function Countable(m: Db, k: string): Option<int> {
    if k !in m then Some(0)
    else match m[k].obj
      case Int(n) => Some(n)
      case Str(s) => TryParseInt(s)
      case List(_) => None
  }

  /** An operation on the simple map at clock reading `now`. */
  function SpecStep(m: Db, op: Op, now: int): (Db, Reply) {
    match op
    case Set(k, text) => (m[k := Entry(ObjOf(text), -1)], Done)
    case Get(k) => (m, Object(if k in m then Some(m[k].obj) else None))
    case Del(k) => (m - {k}, Flag(k in m))
    case Exists(k) => (m, Flag(k in m))
    case Incr(k, delta) =>
      (match Countable(m, k)
       case None => (m, Num(TYPE_ERROR))
       case Some(n) =>
         var sum := if k in m then ToInt64(n + delta) else delta;
         (Rebind(m, k, Int(sum)), Num(sum)))
    case LPush(k, v) =>
      if k in m && !m[k].obj.List? then (m, Num(-1))
      else
        var items := [v] + (if k in m then m[k].obj.items else []);
        (Rebind(m, k, List(items)), Num(ToInt32(|items|)))
    case RPush(k, v) =>
      if k in m && !m[k].obj.List? then (m, Num(-1))
      else
        var items := (if k in m then m[k].obj.items else []) + [v];
        (Rebind(m, k, List(items)), Num(ToInt32(|items|)))
    case LPop(k) =>
      (match ListAt(m, k)
       case None => (m, Popped(None))
       case Some(xs) =>
         if xs == [] then (m - {k}, Popped(None)) else (StoreList(m, k, xs[1..]), Popped(Some(xs[0]))))
    case RPop(k) =>
      (match ListAt(m, k)
       case None => (m, Popped(None))
       case Some(xs) =>
         if xs == [] then (m - {k}, Popped(None))
         else (StoreList(m, k, xs[..|xs| - 1]), Popped(Some(xs[|xs| - 1]))))
    case LLen(k) =>
      (m, Num(if k !in m then 0 else match ListAt(m, k) case None => -1 case Some(xs) => |xs|))
    case LRange(k, start, stop) =>
      (m, Items(match ListAt(m, k) case None => [] case Some(xs) => LinkedList.ListRange(xs, start, stop)))
    case Expire(k, seconds) =>
      if k !in m then (m, Flag(false))
      else (Live(m[k := m[k].(expire := ToInt64(now + seconds * 1000))], now), Flag(true))
    case Ttl(k) =>
      (m, Num(if k !in m then -2 else if m[k].expire < 0 then -1 else (m[k].expire - now) / 1000))
    case Persist(k) =>
      if k in m && m[k].expire >= 0 then (m[k := m[k].(expire := -1)], Flag(true)) else (m, Flag(false))
    case Size => (m, Num(|m|))
    case Flush => (map[], Done)
  }

  // ---- One operation refines the simple map ----

  lemma LiveLookup(db: Db, k: string, now: int)
    ensures var dropped := DropExpired(db, k, now);
            && Live(dropped, now) == Live(db, now)
            && Lookup(dropped, k) == Lookup(Live(db, now), k)
            && (k in dropped ==> !IsExpired(dropped[k], now))
  {}

  /** Binding a key in the store binds it in the live view, unless the new entry is expired already. */
  lemma LiveBind(db: Db, k: string, e: Entry, now: int)
    ensures Live(db[k := e], now) == if IsExpired(e, now) then Live(db, now) - {k} else Live(db, now)[k := e]
    ensures Live(db - {k}, now) == Live(db, now) - {k}
  {}

  /** No expired entry is stored. */
  predicate Settled(db: Db, now: int) { forall k | k in db :: !IsExpired(db[k], now) }

  lemma LiveCount(db: Db, now: int)
    ensures |Live(db, now)| == |db| <==> Settled(db, now)
  {
    var live := Live(db, now).Keys;
    if Settled(db, now) {
      assert live == db.Keys;
    } else {
      var k :| k in db && IsExpired(db[k], now);
      assert live <= db.Keys - {k};
      Shrinks(live, db.Keys - {k});
    }
  }

  lemma Shrinks(a: set<string>, b: set<string>)
    requires a <= b
    ensures |a| <= |b| && (a != b ==> |a| < |b|)
  {
    assert b == a + (b - a);
  }

  /**
   Every operation leaves the live view that the simple map leaves. Its reply is that of the simple map if and
   only if it does not ask for the size, or no expired entry is stored.
   */
  lemma StepRefines(db: Db, op: Op, now: int)
    ensures var (db', r) := Step(db, op, now);
            var (m', r') := SpecStep(Live(db, now), op, now);
            Live(db', now) == m' && (r == r' <==> (op.Size? ==> Settled(db, now)))
  {
    hide TryParseInt, Live, ToInt64, Settled, StepKey;
    if op.Set? {
      LiveBind(db, op.key, Entry(ObjOf(op.text), -1), now);
    } else if op.Size? {
      LiveCount(db, now);
    } else if op.Flush? {
      EmptyLive(now);
    } else {
      LiveLookup(db, op.key, now);
      StepKeyRefines(DropExpired(db, op.key, now), op, now);
    }
  }

  /**
   EXPIRE with a negative number of seconds makes the key go away at once if and only if the deadline is not before
   the epoch. An earlier deadline is negative, which stands for none: the key then stays for good.
   */
  lemma NegativeExpire(db: Db, k: string, seconds: int, now: int)
    requires k in Live(db, now) && seconds < 0 && IsInt64(now + seconds * 1000)
    ensures var after := Step(db, Op.Expire(k, seconds), now).0;
            && (k !in Live(after, now) <==> now + seconds * 1000 >= 0)
            && (now + seconds * 1000 < 0 ==> forall later: int :: k in Live(after, later))
  {
    ToInt64Identity(now + seconds * 1000);
    hide ToInt64;
  }

  lemma EmptyLive(now: int)
    ensures Live(map[], now) == map[]
  {}

  lemma StepKeyRefines(db: Db, op: Op, now: int)
    requires !op.Set? && !op.Size? && !op.Flush?
    requires op.key in db ==> !IsExpired(db[op.key], now)
    ensures var (db', r) := StepKey(db, op, now);
            var (m', r') := SpecStep(Live(db, now), op, now);
            r == r' && Live(db', now) == m'
  {
    hide TryParseInt, Live, ToInt64, ToInt32, StepIncr, StepPush, StepPop;
    var k := op.key;
    SameAtKey(db, k, now);
    match op
    case Incr(_, delta) => IncrRefines(db, k, delta, now);
    case LPush(_, v) => PushRefines(db, k, v, true, now);
    case RPush(_, v) => PushRefines(db, k, v, false, now);
    case LPop(_) => PopRefines(db, k, true, now);
    case RPop(_) => PopRefines(db, k, false, now);
    case Expire(_, _) => ReboundRefines(db, op, now);
    case Persist(_) => ReboundRefines(db, op, now);
    case Del(_) => LiveBind(db, k, Entry(Int(0), -1), now);
    case _ =>
  }

  lemma ReboundRefines(db: Db, op: Op, now: int)
    requires op.Expire? || op.Persist?
    requires op.key in db ==> !IsExpired(db[op.key], now)
    ensures var (db', r) := StepKey(db, op, now);
            var (m', r') := SpecStep(Live(db, now), op, now);
            r == r' && Live(db', now) == m'
  {
    hide TryParseInt, Live, ToInt64;
    var k := op.key;
    SameAtKey(db, k, now);
    var db' := StepKey(db, op, now).0;
    var e := if k in db' then db'[k] else Entry(Int(0), -1);
    LiveBind(db, k, e, now);
    LiveBind(Live(db, now), k, e, now);
    LiveTwice(db, now, now);
  }

  lemma IncrRefines(db: Db, k: string, delta: int, now: int)
    requires k in db ==> !IsExpired(db[k], now)
    ensures var (db', r) := StepIncr(db, k, delta);
            var (m', r') := SpecStep(Live(db, now), Incr(k, delta), now);
            r == r' && Live(db', now) == m'
  {
    hide TryParseInt, Live, ToInt64;
    SameAtKey(db, k, now);
    var db' := StepIncr(db, k, delta).0;
    LiveBind(db, k, if k in db' then db'[k] else Entry(Int(0), -1), now);
  }

  lemma PushRefines(db: Db, k: string, v: string, left: bool, now: int)
    requires k in db ==> !IsExpired(db[k], now)
    ensures var (db', r) := StepPush(db, k, v, left);
            var (m', r') := SpecStep(Live(db, now), if left then LPush(k, v) else RPush(k, v), now);
            r == r' && Live(db', now) == m'
  {
    hide TryParseInt, Live, ToInt32;
    SameAtKey(db, k, now);
    var db' := StepPush(db, k, v, left).0;
    LiveBind(db, k, if k in db' then db'[k] else Entry(Int(0), -1), now);
    assert [v] + [] == [] + [v] == [v];
  }

  lemma PopRefines(db: Db, k: string, left: bool, now: int)
    requires k in db ==> !IsExpired(db[k], now)
    ensures var (db', r) := StepPop(db, k, left);
            var (m', r') := SpecStep(Live(db, now), if left then LPop(k) else RPop(k), now);
            r == r' && Live(db', now) == m'
  {
    hide TryParseInt, Live;
    SameAtKey(db, k, now);
    var db' := StepPop(db, k, left).0;
    LiveBind(db, k, if k in db' then db'[k] else Entry(Int(0), -1), now);
  }

  /** A later live view can be computed from an earlier one. */
  lemma LiveTwice(db: Db, now: int, later: int)
    requires now <= later
    ensures Live(Live(db, now), later) == Live(db, later)
  {}

  lemma SameAtKey(db: Db, k: string, now: int)
    requires k in db ==> !IsExpired(db[k], now)
    ensures Lookup(Live(db, now), k) == Lookup(db, k)
  {}

  // ---- Whole runs, with sweeps anywhere ----

  /** A call of an operation, or a sweep that removes some expired entries, at a clock reading. */
  datatype Event = Call(op: Op, now: int) | Sweep(removed: set<string>, now: int)

  /** A sweep may remove any expired entries and nothing else. */
  predicate Sweepable(db: Db, removed: set<string>, now: int) {
    forall k | k in removed :: k in db && IsExpired(db[k], now)
  }

  function Act(db: Db, ev: Event): Db {
    match ev
    case Call(op, now) => Step(db, op, now).0
    case Sweep(removed, _) => db - removed
  }

  /** The clock does not run backwards and sweeps remove expired entries only. */
  predicate Possible(db: Db, start: int, events: seq<Event>)
    decreases |events|
  {
    events == [] ||
    (&& start <= events[0].now
     && (events[0].Sweep? ==> Sweepable(db, events[0].removed, events[0].now))
     && Possible(Act(db, events[0]), events[0].now, events[1..]))
  }

  /** The replies of the calls of a run. */
  function Replies(db: Db, events: seq<Event>): seq<Reply>
    decreases |events|
  {
    if events == [] then []
    else
      var rest := Replies(Act(db, events[0]), events[1..]);
      match events[0]
      case Call(op, now) => [Step(db, op, now).1] + rest
      case Sweep(_, _) => rest
  }

  /** The same calls on the simple map, without any sweep. */
  function SpecReplies(m: Db, events: seq<Event>): seq<Reply>
    decreases |events|
  {
    if events == [] then []
    else
      match events[0]
      case Call(op, now) =>
        var (m', r) := SpecStep(Live(m, now), op, now);
        [r] + SpecReplies(m', events[1..])
      case Sweep(_, _) => SpecReplies(m, events[1..])
  }

  /** The calls of a run. */
  function Calls(events: seq<Event>): seq<Event> {
    if events == [] then []
    else if events[0].Call? then [events[0]] + Calls(events[1..])
    else Calls(events[1..])
  }

  /** Whenever a run asks for the size, no expired entry is stored. */
  predicate SizesSettled(db: Db, events: seq<Event>)
    decreases |events|
  {
    events == [] ||
    (&& (events[0].Call? && events[0].op.Size? ==> Settled(db, events[0].now))
     && SizesSettled(Act(db, events[0]), events[1..]))
  }

  lemma ActRefines(db: Db, m: Db, t: int, ev: Event)
    requires t <= ev.now && Live(db, t) == Live(m, t)
    requires ev.Sweep? ==> Sweepable(db, ev.removed, ev.now)
    ensures match ev
            case Call(op, now) =>
              && Live(Act(db, ev), now) == Live(SpecStep(Live(m, now), op, now).0, now)
              && (Step(db, op, now).1 == SpecStep(Live(m, now), op, now).1 <==> (op.Size? ==> Settled(db, now)))
            case Sweep(_, now) => Live(Act(db, ev), now) == Live(m, now)
  {
    hide Live, Step, SpecStep, Settled;
    LiveTwice(db, t, ev.now);
    LiveTwice(m, t, ev.now);
    match ev
    case Call(op, now) =>
      StepRefines(db, op, now);
      LiveTwice(Act(db, ev), now, now);
    case Sweep(removed, now) => SweptLive(db, removed, now);
  }

  lemma SweptLive(db: Db, removed: set<string>, now: int)
    requires Sweepable(db, removed, now)
    ensures Live(db - removed, now) == Live(db, now)
  {}

  /**
   Lazy expiry and sweeping are invisible: over every run, with sweeps removing any expired entries at any
   point, the replies are those of the simple map on the calls alone, if and only if no expired entry is stored
   whenever the run asks for the size.
   */
  lemma {:induction false} RunRefines(db: Db, m: Db, start: int, events: seq<Event>)
    requires Possible(db, start, events) && Live(db, start) == Live(m, start)
    ensures Replies(db, events) == SpecReplies(m, events) <==> SizesSettled(db, events)
    ensures |Replies(db, events)| == |SpecReplies(m, events)|
    decreases |events|
  {
    hide Live, Step, SpecStep, Settled;
    if events != [] {
      var ev := events[0];
      ActRefines(db, m, start, ev);
      var m' := if ev.Call? then SpecStep(Live(m, ev.now), ev.op, ev.now).0 else m;
      RunRefines(Act(db, ev), m', ev.now, events[1..]);
      if ev.Call? {
        HeadAndTail(Step(db, ev.op, ev.now).1, Replies(Act(db, ev), events[1..]),
                    SpecStep(Live(m, ev.now), ev.op, ev.now).1, SpecReplies(m', events[1..]));
      }
    }
  }

  lemma HeadAndTail<T>(a: T, x: seq<T>, b: T, y: seq<T>)
    ensures [a] + x == [b] + y <==> a == b && x == y
  {
    assert ([a] + x)[1..] == x && ([b] + y)[1..] == y;
    assert ([a] + x)[0] == a && ([b] + y)[0] == b;
  }

  lemma {:induction false} SpecIgnoresSweeps(m: Db, events: seq<Event>)
    ensures SpecReplies(m, events) == SpecReplies(m, Calls(events))
    decreases |events|
  {
    hide Live, SpecStep;
    if events != [] {
      var ev := events[0];
      var m' := if ev.Call? then SpecStep(Live(m, ev.now), ev.op, ev.now).0 else m;
      SpecIgnoresSweeps(m', events[1..]);
    }
  }

  /**
   Sweeps show nowhere but in the size. A run that is settled whenever it asks for the size replies like any
   other run of the same calls if and only if that one is settled too.
   */
  lemma SweepsInvisible(db: Db, start: int, a: seq<Event>, b: seq<Event>)
    requires Possible(db, start, a) && Possible(db, start, b) && Calls(a) == Calls(b)
    requires SizesSettled(db, b)
    ensures Replies(db, a) == Replies(db, b) <==> SizesSettled(db, a)
  {
    RunRefines(db, db, start, a);
    RunRefines(db, db, start, b);
    SpecIgnoresSweeps(db, a);
    SpecIgnoresSweeps(db, b);
  }

  /** Well-typedness holds over whole runs. */
  lemma {:induction false} RunWellTyped(db: Db, events: seq<Event>)
    requires WellTyped(db)
    requires forall ev | ev in events && ev.Call? && ev.op.Incr? :: IsInt64(ev.op.delta)
    ensures WellTyped(Final(db, events))
    decreases |events|
  {
    hide Step, WellTypedObj;
    if events != [] {
      match events[0] {
        case Call(op, now) =>
          assert events[0] in events;
          StepWellTyped(db, op, now);
        case Sweep(_, _) =>
      }
      RunWellTyped(Act(db, events[0]), events[1..]);
    }
  }

  function Final(db: Db, events: seq<Event>): Db
    decreases |events|
  {
    if events == [] then db else Final(Act(db, events[0]), events[1..])
  }
}
