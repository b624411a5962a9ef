/**
 What the commands with argument loops mean on the live entries, without their loops: DEL is set difference,
 MSET is a map union, MGET looks keys up, LPUSH and RPUSH extend a list at one end, and SET with EX sets a
 deadline.
 */
module CommandMeaning {
  import opened Wrappers
  import opened CText
  import opened Keyspace
  import opened TimedMap
  import opened Commands
  import opened CommandView
  import LinkedList

  /** The refinement of one operation, with the arguments spelled out. */
  lemma StepOnLive(db: Db, op: Op, now: int)
    requires !op.Size?
    ensures Live(Step(db, op, now).0, now) == SpecStep(Live(db, now), op, now).0
    ensures Step(db, op, now).1 == SpecStep(Live(db, now), op, now).1
  {
    hide Live, Step, SpecStep;
    StepRefines(db, op, now);
  }

  // ---- DEL ----

  function KeySet(keys: seq<string>): set<string> { set k | k in keys }

  function Without(m: Db, keys: seq<string>): Db { m - KeySet(keys) }

  /** How many of the given keys a map has, each counted once. */
  function CountOf(m: Db, keys: seq<string>): nat { |m.Keys * KeySet(keys)| }

  lemma DelSpec(m: Db, k: string, now: int)
    ensures SpecStep(m, Del(k), now) == (m - {k}, Flag(k in m))
  {}

  /** DEL removes the given keys and counts the live ones among them, each once however often it is named. */
  lemma {:induction false} DelRemoves(db: Db, keys: seq<string>, now: int)
    ensures Live(DelAll(db, keys, now).0, now) == Without(Live(db, now), keys)
    ensures DelAll(db, keys, now).1 == CountOf(Live(db, now), keys)
    decreases |keys|
  {
    hide Live, Step, KeySet, DelOne, Without, CountOf;
    if keys == [] {
      NoKeys(Live(db, now));
    } else {
      var k, rest := keys[0], keys[1..];
      assert keys == [k] + rest;
      var (db', n) := DelOne(db, k, now);
      var (db'', m) := DelAll(db', rest, now);
      DelFirst(db, k, now);
      DelRemoves(db', rest, now);
      RemoveOneMore(Live(db, now), k, rest);
      assert DelAll(db, keys, now) == (db'', n + m);
    }
  }

  lemma NoKeys(m: Db)
    ensures Without(m, []) == m && CountOf(m, []) == 0
  {
    assert m.Keys * KeySet([]) == {};
  }

  lemma DelFirst(db: Db, k: string, now: int)
    ensures var (db', n) := DelOne(db, k, now);
            Live(db', now) == Live(db, now) - {k} && n == if k in Live(db, now) then 1 else 0
  {
    hide Live, Step, SpecStep;
    StepOnLive(db, Del(k), now);
    DelSpec(Live(db, now), k, now);
  }

  lemma RemoveOneMore(m: Db, k: string, rest: seq<string>)
    ensures Without(m - {k}, rest) == Without(m, [k] + rest)
    ensures CountOf(m, [k] + rest) == (if k in m then 1 else 0) + CountOf(m - {k}, rest)
  {
    KeySetFirst(k, rest);
    KeysWithout(m, k, KeySet(rest));
    CountOneMore(m.Keys, k, KeySet(rest));
  }

  lemma KeySetFirst(k: string, rest: seq<string>)
    ensures KeySet([k] + rest) == {k} + KeySet(rest)
  {}

  lemma KeysWithout(m: Db, k: string, rest: set<string>)
    ensures m - ({k} + rest) == (m - {k}) - rest
    ensures (m - {k}).Keys == m.Keys - {k}
  {}

  lemma CountOneMore(a: set<string>, k: string, rest: set<string>)
    ensures |a * ({k} + rest)| == (if k in a then 1 else 0) + |(a - {k}) * rest|
  {
    var smaller := (a - {k}) * rest;
    if k in a {
      assert a * ({k} + rest) == smaller + {k};
    } else {
      assert a * ({k} + rest) == smaller;
    }
  }

  // ---- MSET and MGET ----

  /** The bindings of an argument list of pairs; of two for the same key the later counts. */
  function Bindings(pairs: seq<string>): Db
    decreases |pairs|
  {
    if |pairs| < 2 then map[]
    else map[pairs[0] := Entry(ObjOf(pairs[1]), -1)] + Bindings(pairs[2..])
  }

  lemma SetSpec(m: Db, k: string, text: string, now: int)
    ensures SpecStep(m, Op.Set(k, text), now) == (m[k := Entry(ObjOf(text), -1)], Done)
  {}

  lemma BindFirst(m: Db, k: string, e: Entry, rest: Db)
    ensures m[k := e] + rest == m + (map[k := e] + rest)
  {}

  /** MSET overrides the live entries with its bindings. */
  lemma {:induction false} MSetBinds(db: Db, pairs: seq<string>, now: int)
    ensures Live(SetAll(db, pairs, now), now) == Live(db, now) + Bindings(pairs)
    decreases |pairs|
  {
    hide Live, Step, SpecStep, ObjOf;
    if |pairs| >= 2 {
      var op := Op.Set(pairs[0], pairs[1]);
      StepOnLive(db, op, now);
      SetSpec(Live(db, now), pairs[0], pairs[1], now);
      MSetBinds(Step(db, op, now).0, pairs[2..], now);
      BindFirst(Live(db, now), pairs[0], Entry(ObjOf(pairs[1]), -1), Bindings(pairs[2..]));
    }
  }

  function ObjAt(m: Db, k: string): Option<Obj> { if k in m then Some(m[k].obj) else None }

  lemma GetSpec(m: Db, k: string, now: int)
    ensures SpecStep(m, Get(k), now) == (m, Object(ObjAt(m, k)))
  {}

  /** MGET answers each key from the live entries and changes none of them. */
  lemma {:induction false} MGetLooksUp(db: Db, keys: seq<string>, now: int)
    ensures SameView(GetAll(db, keys, now).0, db, now)
    ensures forall i | 0 <= i < |keys| ::
              GetAll(db, keys, now).1[i] == MGetReply(ObjAt(Live(db, now), keys[i]))
    decreases |keys|
  {
    hide Live, Step, SpecStep, MGetReply;
    if keys != [] {
      var m := Live(db, now);
      StepOnLive(db, Get(keys[0]), now);
      GetSpec(m, keys[0], now);
      MGetLooksUp(GetObj(db, keys[0], now).0, keys[1..], now);
      assert forall i | 0 < i < |keys| :: keys[i] == keys[1..][i - 1];
    }
  }

  // ---- Pushing ----

  function Reversed(xs: seq<string>): seq<string> { if xs == [] then [] else Reversed(xs[1..]) + [xs[0]] }

  /** The list after pushing values one by one at one end. */
  function Extended(items: seq<string>, values: seq<string>, left: bool): seq<string> {
    if left then Reversed(values) + items else items + values
  }

  /** The items under a key, if a push would be accepted; a missing key counts as an empty list. */
  function Pushable(m: Db, k: string): Option<seq<string>> {
    if k !in m then Some([]) else ListAt(m, k)
  }

  function PushOp(k: string, v: string, left: bool): Op { if left then LPush(k, v) else RPush(k, v) }

  lemma PushSpec(m: Db, k: string, v: string, left: bool, now: int)
    ensures SpecStep(m, PushOp(k, v, left), now) ==
            match Pushable(m, k)
            case None => (m, Num(-1))
            case Some(items) =>
              var longer := Extended(items, [v], left);
              (Rebind(m, k, List(longer)), Num(ToInt32(|longer|)))
  {
    assert Reversed([v]) == [v] by { assert Reversed([]) == []; }
  }

  lemma ExtendedTwice(items: seq<string>, v: string, rest: seq<string>, left: bool)
    ensures Extended(Extended(items, [v], left), rest, left) == Extended(items, [v] + rest, left)
  {
    assert Reversed([v]) == [v] by { assert Reversed([]) == []; }
    assert ([v] + rest)[1..] == rest;
  }

  lemma RebindTwice(m: Db, k: string, a: seq<string>, b: seq<string>)
    ensures Rebind(Rebind(m, k, List(a)), k, List(b)) == Rebind(m, k, List(b))
    ensures Pushable(Rebind(m, k, List(a)), k) == Some(a)
  {}

  /** A push answers the new length if and only if that fits an `int`. */
  lemma PushAnswersLength(db: Db, k: string, v: string, left: bool, now: int)
    requires Pushable(Live(db, now), k).Some?
    ensures var n := |Pushable(Live(db, now), k).value| + 1;
            Step(db, PushOp(k, v, left), now).1 == Num(n) <==> n <= INT32_MAX
  {
    hide Live, Step, SpecStep, Pushable;
    StepOnLive(db, PushOp(k, v, left), now);
    PushSpec(Live(db, now), k, v, left, now);
    var items := Pushable(Live(db, now), k).value;
    ExtendedLength(items, [v], left);
    LinkedList.CutIsShorter(|items| + 1);
    if |items| + 1 <= INT32_MAX {
      ToInt32Identity(|items| + 1);
    }
  }

  lemma {:induction false} ExtendedLength(items: seq<string>, values: seq<string>, left: bool)
    ensures |Extended(items, values, left)| == |items| + |values|
  {
    ReversedLength(values);
  }

  lemma {:induction false} ReversedLength(xs: seq<string>)
    ensures |Reversed(xs)| == |xs|
  {
    if xs != [] {
      ReversedLength(xs[1..]);
    }
  }

  /**
   How many of `count` values are pushed to a list of `len` elements: all, up to the first that makes the length
   negative as an `int`.
   */
  function Pushed(len: nat, count: nat): (m: nat)
    ensures m <= count
    ensures count > 0 ==> m > 0
    decreases count
  {
    if count == 0 then 0
    else if ToInt32(len + 1) < 0 then 1
    else 1 + Pushed(len + 1, count - 1)
  }

  /** All values are pushed, and the length answered, if it fits an `int` in the end. */
  lemma {:induction false} PushedAll(len: nat, count: nat)
    requires len + count <= INT32_MAX
    ensures Pushed(len, count) == count && ToInt32(len + count) == len + count
    decreases count
  {
    hide ToInt32;
    ToInt32Identity(len + count);
    if count > 0 {
      ToInt32Identity(len + 1);
      PushedAll(len + 1, count - 1);
    }
  }

  /** Of values that take a list beyond `int`, the one that does is pushed, those after it are not. */
  lemma {:induction false} PushedUntilTooLong(len: nat, count: nat)
    requires len <= INT32_MAX < len + count
    ensures Pushed(len, count) == INT32_MAX + 1 - len
    ensures ToInt32(len + Pushed(len, count)) == INT32_MIN
    decreases count
  {
    if len < INT32_MAX {
      ToInt32Identity(len + 1);
      PushedUntilTooLong(len + 1, count - 1);
    }
  }

  /**
   LPUSH and RPUSH put their values at one end, LPUSH in reverse order, keep the deadline and answer the new length as
   an `int`, stopping where that is negative. On a key that holds no list they change nothing and answer an error.
   */
  lemma {:induction false} PushExtends(db: Db, k: string, values: seq<string>, left: bool, now: int, last: int)
    requires values != []
    ensures var m := Live(db, now);
            var (db', n) := PushAll(db, k, values, left, now, last);
            match Pushable(m, k)
            case None => Live(db', now) == m && n == -1
            case Some(items) =>
              var count := Pushed(|items|, |values|);
              && Live(db', now) == Rebind(m, k, List(Extended(items, values[..count], left)))
              && n == ToInt32(|items| + count)
    decreases |values|
  {
    hide Live, Step, SpecStep, Rebind, Pushable, Extended, ToInt32;
    var m := Live(db, now);
    var v, rest := values[0], values[1..];
    assert values == [v] + rest;
    StepOnLive(db, PushOp(k, v, left), now);
    PushSpec(m, k, v, left, now);
    if Pushable(m, k).Some? {
      var items := Pushable(m, k).value;
      var longer := Extended(items, [v], left);
      ExtendedLength(items, [v], left);
      var (db', n) := PushOne(db, k, v, left, now);
      assert n == ToInt32(|items| + 1);
      if n < 0 {
        assert values[..1] == [v];
      } else if rest == [] {
        assert values[..1] == [v] && PushAll(db', k, rest, left, now, n) == (db', n);
        assert Pushed(|items| + 1, 0) == 0;
      } else {
        var count := Pushed(|items| + 1, |rest|);
        RebindTwice(m, k, longer, Extended(longer, rest[..count], left));
        PushExtends(db', k, rest, left, now, n);
        ExtendedTwice(items, v, rest[..count], left);
        assert values[..count + 1] == [v] + rest[..count];
      }
    }
  }

  // ---- SET with EX ----

  /** The arguments from position `i` on come in pairs; the pair at `j` is an `EX` with a positive number. */
  predicate Deadline(args: seq<string>, i: nat, j: nat) {
    && i <= j && (j - i) % 2 == 0 && j + 1 < |args|
    && SameName(args[j], "EX") && StrToLL(args[j + 1]) > 0
  }

  /** The last deadline of a command. */
  ghost predicate LastDeadline(args: seq<string>, i: nat, j: nat) {
    Deadline(args, i, j) && forall other: nat | Deadline(args, i, other) :: other <= j
  }

  ghost predicate DeadlinesFit(args: seq<string>, i: nat, now: int) {
    forall j: nat | Deadline(args, i, j) :: now + StrToLL(args[j + 1]) * 1000 <= INT64_MAX
  }

  ghost predicate NoDeadline(args: seq<string>, i: nat) { forall j: nat :: !Deadline(args, i, j) }

  /** The pairs from `i` on are the pair at `i` and those behind it. */
  lemma PairsSplit(args: seq<string>, i: nat, next: nat, now: int)
    requires next == i + 2
    ensures Deadline(args, i, i) ==> !Deadline(args, next, i)
    ensures DeadlinesFit(args, i, now) ==> DeadlinesFit(args, next, now)
    ensures NoDeadline(args, i) <==> NoDeadline(args, next) && !Deadline(args, i, i)
    ensures forall j: nat | LastDeadline(args, i, j) ::
              LastDeadline(args, next, j) || (j == i && Deadline(args, i, i) && NoDeadline(args, next))
  {
    hide StrToLL, SameName;
    forall j: nat ensures Deadline(args, i, j) <==> Deadline(args, next, j) || (j == i && Deadline(args, i, i)) {}
  }

  lemma OnePair(db: Db, args: seq<string>, i: nat, now: int)
    requires now >= 0 && |args| > 1 && args[1] in db && !IsExpired(db[args[1]], now)
    requires Deadline(args, i, i) && now + StrToLL(args[i + 1]) * 1000 <= INT64_MAX
    ensures var deadline := now + StrToLL(args[i + 1]) * 1000;
            Step(db, Op.Expire(args[1], StrToLL(args[i + 1])), now).0 ==
            db[args[1] := db[args[1]].(expire := deadline)]
  {
    hide StrToLL, SameName;
    ToInt64Identity(now + StrToLL(args[i + 1]) * 1000);
  }

  /**
   The options of SET give the key the deadline of the last `EX` with a positive number of seconds; without one
   they change nothing.
   */
  lemma {:induction false} OptionsSetDeadline(db: Db, args: seq<string>, i: nat, now: int)
    requires now >= 0 && |args| > 1 && args[1] in db && !IsExpired(db[args[1]], now) && DeadlinesFit(args, i, now)
    ensures NoDeadline(args, i) ==> SetOptions(db, args, i, now) == db
    ensures forall j: nat | LastDeadline(args, i, j) ::
              SetOptions(db, args, i, now) ==
              db[args[1] := db[args[1]].(expire := now + StrToLL(args[j + 1]) * 1000)]
    decreases |args| - i
  {
    hide StrToLL, SameName, Step, NoDeadline, DeadlinesFit;
    if i + 1 < |args| {
      var next := i + 2;
      PairsSplit(args, i, next, now);
      if Deadline(args, i, i) {
        FitsHere(args, i, now);
        OnePair(db, args, i, now);
        var db' := db[args[1] := db[args[1]].(expire := now + StrToLL(args[i + 1]) * 1000)];
        OptionsSetDeadline(db', args, next, now);
      } else {
        OptionsSetDeadline(db, args, next, now);
      }
    } else {
      NoPairs(args, i);
    }
  }

  lemma FitsHere(args: seq<string>, i: nat, now: int)
    requires DeadlinesFit(args, i, now) && Deadline(args, i, i)
    ensures now + StrToLL(args[i + 1]) * 1000 <= INT64_MAX
  {}

  lemma NoPairs(args: seq<string>, i: nat)
    requires i + 1 >= |args|
    ensures NoDeadline(args, i)
  {}

  /**
   SET binds the key to the text's object, until the deadline of the last positive `EX`, or for good if there is
   none, as long as the deadlines fit 64 bits.
   */
  lemma SetBinds(db: Db, args: seq<string>, env: Env)
    requires |args| >= 3 && env.now >= 0 && DeadlinesFit(args, 3, env.now)
    ensures var after := Handle(db, CSet, args, env).0;
            && (NoDeadline(args, 3) ==> after == db[args[1] := Entry(ObjOf(args[2]), -1)])
            && (forall j: nat | LastDeadline(args, 3, j) ::
                  after == db[args[1] := Entry(ObjOf(args[2]), env.now + StrToLL(args[j + 1]) * 1000)])
  {
    hide StrToLL, SameName, ObjOf, SetOptions, NoDeadline, DeadlinesFit;
    var stored := db[args[1] := Entry(ObjOf(args[2]), -1)];
    OptionsSetDeadline(stored, args, 3, env.now);
    forall j: nat | LastDeadline(args, 3, j)
      ensures Handle(db, CSet, args, env).0 ==
              db[args[1] := Entry(ObjOf(args[2]), env.now + StrToLL(args[j + 1]) * 1000)]
    {
      var deadline := env.now + StrToLL(args[j + 1]) * 1000;
      assert stored[args[1] := stored[args[1]].(expire := deadline)] == db[args[1] := Entry(ObjOf(args[2]), deadline)];
    }
  }
}
