/**
 What a command does depends on the live entries only: two keyspaces that show the same live view answer every
 command alike and go on showing the same view, whatever expired entries each still stores.
 */
module CommandView {
  import opened Wrappers
  import opened CText
  import opened Resp
  import opened Keyspace
  import opened TimedMap
  import opened Commands

  /** Two keyspaces that nobody can tell apart at `now`, except by counting what is stored. */
  predicate SameView(a: Db, b: Db, now: int) { Live(a, now) == Live(b, now) }

  /** The commands that report how many keys are stored, expired ones included. */
  predicate CountsStored(c: Command) { c == CDbSize || c == CInfo }

  lemma StepAgrees(a: Db, b: Db, op: Op, now: int)
    requires SameView(a, b, now) && !op.Size?
    ensures SameView(Step(a, op, now).0, Step(b, op, now).0, now)
    ensures Step(a, op, now).1 == Step(b, op, now).1
  {
    hide Live, Step, SpecStep;
    StepRefines(a, op, now);
    StepRefines(b, op, now);
  }

  // ---- The argument loops ----

  lemma {:induction false} SetOptionsAgree(a: Db, b: Db, args: seq<string>, i: nat, now: int)
    requires SameView(a, b, now) && |args| > 1
    ensures SameView(SetOptions(a, args, i, now), SetOptions(b, args, i, now), now)
    decreases |args| - i
  {
    hide SameView, Step, StrToLL;
    if i + 1 < |args| {
      var secs := StrToLL(args[i + 1]);
      var op := Op.Expire(args[1], secs);
      StepAgrees(a, b, op, now);
      if SameName(args[i], "EX") && secs > 0 {
        SetOptionsAgree(Step(a, op, now).0, Step(b, op, now).0, args, i + 2, now);
      } else {
        SetOptionsAgree(a, b, args, i + 2, now);
      }
    }
  }

  lemma {:induction false} DelAllAgree(a: Db, b: Db, keys: seq<string>, now: int)
    requires SameView(a, b, now)
    ensures SameView(DelAll(a, keys, now).0, DelAll(b, keys, now).0, now)
    ensures DelAll(a, keys, now).1 == DelAll(b, keys, now).1
    decreases |keys|
  {
    hide SameView, Step;
    if keys != [] {
      StepAgrees(a, b, Del(keys[0]), now);
      DelAllAgree(DelOne(a, keys[0], now).0, DelOne(b, keys[0], now).0, keys[1..], now);
    }
  }

  lemma {:induction false} SetAllAgree(a: Db, b: Db, pairs: seq<string>, now: int)
    requires SameView(a, b, now)
    ensures SameView(SetAll(a, pairs, now), SetAll(b, pairs, now), now)
    decreases |pairs|
  {
    hide SameView, Step;
    if |pairs| >= 2 {
      var op := Op.Set(pairs[0], pairs[1]);
      StepAgrees(a, b, op, now);
      SetAllAgree(Step(a, op, now).0, Step(b, op, now).0, pairs[2..], now);
    }
  }

  lemma {:induction false} GetAllAgree(a: Db, b: Db, keys: seq<string>, now: int)
    requires SameView(a, b, now)
    ensures SameView(GetAll(a, keys, now).0, GetAll(b, keys, now).0, now)
    ensures GetAll(a, keys, now).1 == GetAll(b, keys, now).1
    decreases |keys|
  {
    hide SameView, Step;
    if keys != [] {
      StepAgrees(a, b, Get(keys[0]), now);
      GetAllAgree(GetObj(a, keys[0], now).0, GetObj(b, keys[0], now).0, keys[1..], now);
    }
  }

  lemma {:induction false} PushAllAgree(a: Db, b: Db, key: string, values: seq<string>, left: bool, now: int, last: int)
    requires SameView(a, b, now)
    ensures SameView(PushAll(a, key, values, left, now, last).0, PushAll(b, key, values, left, now, last).0, now)
    ensures PushAll(a, key, values, left, now, last).1 == PushAll(b, key, values, left, now, last).1
    decreases |values|
  {
    hide SameView, Step;
    if values != [] {
      StepAgrees(a, b, if left then LPush(key, values[0]) else RPush(key, values[0]), now);
      var (a', n) := PushOne(a, key, values[0], left, now);
      var (b', _) := PushOne(b, key, values[0], left, now);
      if n >= 0 {
        PushAllAgree(a', b', key, values[1..], left, now, n);
      }
    }
  }

  // ---- Whole commands ----

  lemma HandleAgrees(a: Db, b: Db, c: Command, args: seq<string>, env: Env)
    requires |args| >= MinArgs(c) && !CountsStored(c) && SameView(a, b, env.now)
    ensures SameView(Handle(a, c, args, env).0, Handle(b, c, args, env).0, env.now)
    ensures Handle(a, c, args, env).1 == Handle(b, c, args, env).1
  {
    hide SameView, Step, StrToLL, Atoi, SetOptions, DelAll, SetAll, GetAll, PushAll;
    var now := env.now;
    if IsSimple(c) {
      StepAgrees(a, b, SimpleOp(c, args), now);
    } else {
      match c
      case CSet =>
        var op := Op.Set(args[1], args[2]);
        StepAgrees(a, b, op, now);
        SetOptionsAgree(Step(a, op, now).0, Step(b, op, now).0, args, 3, now);
      case CDel => DelAllAgree(a, b, args[1..], now);
      case CIncr => StepAgrees(a, b, Incr(args[1], 1), now);
      case CDecr => StepAgrees(a, b, Incr(args[1], -1), now);
      case CMSet => SetAllAgree(a, b, args[1..], now);
      case CMGet => GetAllAgree(a, b, args[1..], now);
      case CLPush => PushAllAgree(a, b, args[1], args[2..], true, now, 0);
      case CRPush => PushAllAgree(a, b, args[1], args[2..], false, now, 0);
      case CLLen => StepAgrees(a, b, LLen(args[1]), now);
      case _ =>
    }
  }

  /** The command a parsed value names, if it gets as far as being looked up. */
  function NamedCommand(v: Value): Option<Command> {
    if IsRejected(v) then None else Recognise(TextOfValue(v.items[0]))
  }

  predicate Counting(v: Value) { NamedCommand(v).Some? && CountsStored(NamedCommand(v).value) }

  lemma CountReplies(db: Db, c: Command, args: seq<string>, env: Env)
    requires CountsStored(c) && |args| >= 1
    ensures !WrongCount(c, |args|) && Handle(db, c, args, env).0 == db
    ensures Handle(db, c, args, env).1 == if c == CDbSize then Integer(|db|) else BulkString(InfoText(|db|))
  {
    hide InfoText;
  }

  lemma PrintIsOneToOne(a: int, b: int)
    ensures Print(a) == Print(b) <==> a == b
  {
    ScanPrinted(a, []);
    ScanPrinted(b, []);
    assert Print(a) + [] == Print(a) && Print(b) + [] == Print(b);
  }

  lemma InfoIsOneToOne(a: nat, b: nat)
    ensures InfoText(a) == InfoText(b) <==> a == b
  {
    hide Print;
    PrintIsOneToOne(a, b);
    SameMiddle("# Server\r\n" + "inmemdb_version:1.0.0\r\n" + "# Keyspace\r\n" + "db0:keys=", Print(a), Print(b), "\r\n");
  }

  lemma SameMiddle(head: string, x: string, y: string, tail: string)
    ensures head + x + tail == head + y + tail <==> x == y
  {
    var a, b := head + x + tail, head + y + tail;
    assert a[|head|..|a| - |tail|] == x && b[|head|..|b| - |tail|] == y;
  }

  /** The commands that count answer alike if and only if as many keys are stored. */
  lemma CountsAgree(a: Db, b: Db, c: Command, args: seq<string>, env: Env)
    requires CountsStored(c) && |args| >= 1
    ensures Handle(a, c, args, env).1 == Handle(b, c, args, env).1 <==> |a| == |b|
  {
    hide Handle, InfoText;
    CountReplies(a, c, args, env);
    CountReplies(b, c, args, env);
    InfoIsOneToOne(|a|, |b|);
  }

  /**
   Every command acts on the live view alone. Its reply depends on that view alone too, except for DBSIZE and
   INFO, which answer alike if and only if as many keys are stored.
   */
  lemma ExecAgrees(a: Db, b: Db, v: Value, env: Env)
    requires Handled(v) && SameView(a, b, env.now)
    ensures SameView(ExecValue(a, v, env).0, ExecValue(b, v, env).0, env.now)
    ensures ExecValue(a, v, env).1 == ExecValue(b, v, env).1 <==> (Counting(v) ==> |a| == |b|)
  {
    hide SameView, Handle, Recognise, WrongCount, MinArgs;
    if !IsRejected(v) {
      var args := Texts(v.items);
      var c := Recognise(args[0]);
      if c.Some? {
        if CountsStored(c.value) {
          CountReplies(a, c.value, args, env);
          CountReplies(b, c.value, args, env);
          CountsAgree(a, b, c.value, args, env);
        } else if !WrongCount(c.value, |args|) {
          EnoughArgs(c.value, |args|);
          HandleAgrees(a, b, c.value, args, env);
        }
      }
    }
  }

  lemma EnoughArgs(c: Command, argc: nat)
    requires argc > 0 && !WrongCount(c, argc)
    ensures argc >= MinArgs(c)
  {}

  /** DBSIZE and INFO count the live keys if and only if no expired entry is stored. */
  lemma CountsLiveIffSettled(db: Db, v: Value, env: Env)
    requires IsCommand(v) && Counting(v)
    ensures ExecValue(db, v, env).1 == ExecValue(Live(db, env.now), v, env).1 <==> Settled(db, env.now)
  {
    hide Live, Settled, ExecValue, IsCommand, Counting;
    LiveTwice(db, env.now, env.now);
    LiveCount(db, env.now);
    ExecAgrees(db, Live(db, env.now), v, env);
  }

  // ---- Commands keep the keyspace well typed ----

  lemma {:induction false} SetOptionsWellTyped(db: Db, args: seq<string>, i: nat, now: int)
    requires WellTyped(db) && |args| > 1
    ensures WellTyped(SetOptions(db, args, i, now))
    decreases |args| - i
  {
    hide WellTyped, Step, StrToLL;
    if i + 1 < |args| {
      var op := Op.Expire(args[1], StrToLL(args[i + 1]));
      StepWellTyped(db, op, now);
      SetOptionsWellTyped(Step(db, op, now).0, args, i + 2, now);
      SetOptionsWellTyped(db, args, i + 2, now);
    }
  }

  lemma {:induction false} DelAllWellTyped(db: Db, keys: seq<string>, now: int)
    requires WellTyped(db)
    ensures WellTyped(DelAll(db, keys, now).0)
    decreases |keys|
  {
    hide WellTyped, Step;
    if keys != [] {
      StepWellTyped(db, Del(keys[0]), now);
      DelAllWellTyped(DelOne(db, keys[0], now).0, keys[1..], now);
    }
  }

  lemma {:induction false} SetAllWellTyped(db: Db, pairs: seq<string>, now: int)
    requires WellTyped(db)
    ensures WellTyped(SetAll(db, pairs, now))
    decreases |pairs|
  {
    hide WellTyped, Step;
    if |pairs| >= 2 {
      StepWellTyped(db, Op.Set(pairs[0], pairs[1]), now);
      SetAllWellTyped(Step(db, Op.Set(pairs[0], pairs[1]), now).0, pairs[2..], now);
    }
  }

  lemma {:induction false} GetAllWellTyped(db: Db, keys: seq<string>, now: int)
    requires WellTyped(db)
    ensures WellTyped(GetAll(db, keys, now).0)
    decreases |keys|
  {
    hide WellTyped, Step;
    if keys != [] {
      StepWellTyped(db, Get(keys[0]), now);
      GetAllWellTyped(GetObj(db, keys[0], now).0, keys[1..], now);
    }
  }

  lemma {:induction false} PushAllWellTyped(db: Db, key: string, values: seq<string>, left: bool, now: int, last: int)
    requires WellTyped(db)
    ensures WellTyped(PushAll(db, key, values, left, now, last).0)
    decreases |values|
  {
    hide WellTyped, Step;
    if values != [] {
      StepWellTyped(db, if left then LPush(key, values[0]) else RPush(key, values[0]), now);
      var (db', n) := PushOne(db, key, values[0], left, now);
      PushAllWellTyped(db', key, values[1..], left, now, n);
    }
  }

  lemma HandleWellTyped(db: Db, c: Command, args: seq<string>, env: Env)
    requires |args| >= MinArgs(c) && WellTyped(db)
    ensures WellTyped(Handle(db, c, args, env).0)
  {
    hide WellTyped, Step, StrToLL, Atoi, SetOptions, DelAll, SetAll, GetAll, PushAll;
    var now := env.now;
    if IsSimple(c) {
      StepWellTyped(db, SimpleOp(c, args), now);
    } else {
      match c
      case CSet =>
        StepWellTyped(db, Op.Set(args[1], args[2]), now);
        SetOptionsWellTyped(Step(db, Op.Set(args[1], args[2]), now).0, args, 3, now);
      case CDel => DelAllWellTyped(db, args[1..], now);
      case CIncr => StepWellTyped(db, Incr(args[1], 1), now);
      case CDecr => StepWellTyped(db, Incr(args[1], -1), now);
      case CMSet => SetAllWellTyped(db, args[1..], now);
      case CMGet => GetAllWellTyped(db, args[1..], now);
      case CLPush => PushAllWellTyped(db, args[1], args[2..], true, now, 0);
      case CRPush => PushAllWellTyped(db, args[1], args[2..], false, now, 0);
      case CLLen => StepWellTyped(db, LLen(args[1]), now);
      case _ =>
    }
  }

  lemma ExecWellTyped(db: Db, v: Value, env: Env)
    requires Handled(v) && WellTyped(db)
    ensures WellTyped(ExecValue(db, v, env).0)
  {
    hide WellTyped, Handle, Recognise;
    if !IsRejected(v) {
      var args := Texts(v.items);
      var c := Recognise(args[0]);
      if c.Some? && !WrongCount(c.value, |args|) {
        HandleWellTyped(db, c.value, args, env);
      }
    }
  }
}
