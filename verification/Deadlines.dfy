/**
 How long a key lives, in plain arithmetic: from the command that gives it a deadline to a GET at any later clock
 reading, with any sweeps, and restarts from a complete snapshot, in between.
 */
module Deadlines {
  import opened Wrappers
  import opened CText
  import opened Decimal
  import opened Resp
  import opened Keyspace
  import opened TimedMap
  import opened Commands
  import opened CommandView
  import opened CommandEffects
  import opened ServerRuns
  import Snapshot

  // ---- A command, upkeep, and a GET ----

  function Then(v: Value, first: Env, upkeep: seq<Turn>, k: string, second: Env): seq<Turn> {
    [Ran(v, first)] + upkeep + [Ran(Cmd(["GET", k]), second)]
  }

  /** What a GET answers on a keyspace. */
  ghost predicate GetReplies(db: Db, k: string, now: int, reply: Value) {
    if !Alive(db, k, now) then reply == Nil
    else if db[k].obj.List? then reply == WrongType()
    else Shows(reply, db[k].obj)
  }

  lemma LiveIsAlive(db: Db, k: string, now: int)
    ensures Alive(Live(db, now), k, now) <==> Alive(db, k, now)
    ensures Alive(db, k, now) ==> Live(db, now)[k] == db[k]
    ensures k in Live(db, now) <==> Alive(db, k, now)
  {}

  /** The run answers the command as it does on the live entries, and the GET from what the command leaves there. */
  lemma ThenGet(db: Db, start: int, v: Value, k: string, upkeep: seq<Turn>, first: Env, second: Env)
    requires ServerRuns.Possible(db, start, Then(v, first, upkeep, k, second)) && forall t | t in upkeep :: !t.Ran?
    requires Handled(v) && !Counting(v)
    ensures forall t | t in Then(v, first, upkeep, k, second) && t.Ran? :: Handled(t.cmd)
    ensures var (after, reply) := ExecValue(Live(db, first.now), v, first);
            var replies := RunReplies(db, Then(v, first, upkeep, k, second));
            |replies| == 2 && replies[0] == reply && GetReplies(after, k, second.now, replies[1])
  {
    hide Recognise, Handled, ServerRuns.Possible, Exec, Counting, Live, GetReplies, Alive;
    var turns := Then(v, first, upkeep, k, second);
    var put, get := Ran(v, first), Ran(Cmd(["GET", k]), second);
    PossibleIsHandled(db, start, turns);
    GetUncounted(k);
    UncountedIsSettled(db, turns);
    RunOnView(db, db, start, turns);
    OnlyCommandsAround(put, upkeep, get);
    var after := ExecValue(Live(db, first.now), v, first).0;
    GetOnLive(after, k, second);
    assert [put, get][1..] == [get] && [get][1..] == [];
    var last := Next(Live(after, second.now), get);
    assert LiveReplies(last, []) == [];
    assert LiveReplies(after, [get]) == [ExecValue(Live(after, second.now), get.cmd, second).1] + [];
  }

  lemma GetUncounted(k: string)
    ensures Handled(Cmd(["GET", k])) && !Counting(Cmd(["GET", k]))
  {
    hide Recognise;
    NameExact("GET", CGet);
    CmdParts(["GET", k]);
  }

  lemma GetOnLive(db: Db, k: string, env: Env)
    ensures Handled(Cmd(["GET", k]))
    ensures GetReplies(db, k, env.now, ExecValue(Live(db, env.now), Cmd(["GET", k]), env).1)
  {
    hide Exec, Live, Shows, Recognise;
    BulksRun(Live(db, env.now), ["GET", k], env);
    GetAnswers(Live(db, env.now), ["GET", k], env);
    LiveIsAlive(db, k, env.now);
  }

  // ---- SET with EX, and EXPIRE ----

  /** A key set with `EX` shows its text as long as no more than `s` seconds have passed, and nothing afterwards. */
  lemma SetWithDeadline(db: Db, start: int, k: string, text: string, secs: string, s: int, upkeep: seq<Turn>,
                        first: Env, second: Env)
    requires var turns := Then(Cmd(["SET", k, text, "EX", secs]), first, upkeep, k, second);
             ServerRuns.Possible(db, start, turns) && forall t | t in upkeep :: !t.Ran?
    requires Denotes(secs, s) && s > 0 && first.now >= 0 && first.now + s * 1000 <= INT64_MAX
    ensures var turns := Then(Cmd(["SET", k, text, "EX", secs]), first, upkeep, k, second);
            && (forall t | t in turns && t.Ran? :: Handled(t.cmd))
            && forall shown: string | ShownAs(text, shown) ::
                 RunReplies(db, turns) ==
                 [SimpleString("OK"), if second.now <= first.now + s * 1000 then BulkString(shown) else Nil]
  {
    hide ServerRuns.Possible, Exec, Live, Recognise, Handled, Counting, Denotes, ShownAs, Reads, RunReplies, GetReplies;
    var args := ["SET", k, text, "EX", secs];
    SetUncounted(args);
    ThenGet(db, start, Cmd(args), k, upkeep, first, second);
    BulksRun(Live(db, first.now), args, first);
    OneOption(args, s);
    SetBindsUntil(Live(db, first.now), args, first);
    var after := Exec(Live(db, first.now), args, first).0;
    var replies := RunReplies(db, Then(Cmd(args), first, upkeep, k, second));
    assert after[k].expire == first.now + s * 1000;
    SetShows(after, k, text, second.now, replies[1]);
  }

  lemma SetUncounted(args: seq<string>)
    requires |args| >= 3 && args[0] == "SET"
    ensures Handled(Cmd(args)) && !Counting(Cmd(args))
  {
    hide Recognise;
    NameExact("SET", CSet);
    CmdParts(args);
  }

  lemma OneOption(args: seq<string>, s: int)
    requires |args| == 5 && args[3] == "EX" && Denotes(args[4], s) && s > 0
    ensures LastOption(args, 3, s)
    ensures forall j: nat, t: int | OptionAt(args, j, t) :: t == s
  {
    hide Reads, Denotes, StrToLL;
    DenotedOnce(args[4], s);
    forall t: int ensures Reads(args[4], t) <==> t == s {
      StrToLLExact(args[4], t);
    }
  }

  /** What GET answers for a stored text. */
  lemma SetShows(db: Db, k: string, text: string, now: int, reply: Value)
    requires k in db && StoredAs(text, db[k].obj) && GetReplies(db, k, now, reply)
    ensures forall shown: string | ShownAs(text, shown) :: reply == if Alive(db, k, now) then BulkString(shown) else Nil
  {
    hide Denotes, Canonical;
    if Alive(db, k, now) && db[k].obj.Int? {
      var n := db[k].obj.num;
      DenotedOnce(text, n);
      Within(text, n);
      forall shown: string | ShownAs(text, shown) ensures reply == BulkString(shown) {
        PrintExact(n, shown);
        PrintExact(n, reply.text);
      }
    }
  }

  lemma Within(text: string, n: int)
    requires Denotes(text, n)
    ensures IsInt64(n)
  {}

  /** EXPIRE on a live key: its value is shown until the deadline, or for good if that is negative. */
  lemma ExpireThenGet(db: Db, start: int, k: string, secs: string, s: int, upkeep: seq<Turn>, first: Env, second: Env)
    requires var turns := Then(Cmd(["EXPIRE", k, secs]), first, upkeep, k, second);
             ServerRuns.Possible(db, start, turns) && forall t | t in upkeep :: !t.Ran?
    requires Denotes(secs, s) && IsInt64(first.now + s * 1000)
    requires k in db && (db[k].expire < 0 || first.now <= db[k].expire)
    ensures var turns := Then(Cmd(["EXPIRE", k, secs]), first, upkeep, k, second);
            var deadline := first.now + s * 1000;
            && (forall t | t in turns && t.Ran? :: Handled(t.cmd))
            && var replies := RunReplies(db, turns);
               && |replies| == 2 && replies[0] == Integer(1)
               && if 0 <= deadline < second.now then replies[1] == Nil
                  else if db[k].obj.List? then replies[1] == WrongType()
                  else Shows(replies[1], db[k].obj)
  {
    hide ServerRuns.Possible, Exec, Live, Recognise, Handled, Counting, Denotes, Reads, RunReplies, Shows;
    var args := ["EXPIRE", k, secs];
    ExpireUncounted(args);
    ThenGet(db, start, Cmd(args), k, upkeep, first, second);
    BulksRun(Live(db, first.now), args, first);
    DenotedOnce(secs, s);
    StrToLLExact(secs, s);
    LiveIsAlive(db, k, first.now);
    ExpireSets(Live(db, first.now), args, first, s);
  }

  lemma ExpireUncounted(args: seq<string>)
    requires |args| >= 3 && args[0] == "EXPIRE"
    ensures Handled(Cmd(args)) && !Counting(Cmd(args))
  {
    hide Recognise;
    NameExact("EXPIRE", CExpire);
    CmdParts(args);
  }

  // ---- Entries from a snapshot ----

  /**
   A saved entry is there after a load if and only if its deadline has not passed by then, and is shown by GET as long
   as it has not passed since.
   */
  lemma LoadedUntil(db: Db, es: Snapshot.Listing, k: string, now: int, later: Env)
    requires Snapshot.Lists(es, db) && Snapshot.Fits(es)
    ensures var loaded := Snapshot.Load(map[], now, Snapshot.Save(es));
            && loaded.Some?
            && (k in loaded.value <==> k in db && (db[k].expire < 0 || now <= db[k].expire))
            && (k in loaded.value ==> loaded.value[k] == db[k])
            && var reply := Exec(loaded.value, ["GET", k], later).1;
               if k in db && (db[k].expire < 0 || (now <= db[k].expire && later.now <= db[k].expire))
               then if db[k].obj.List? then reply == WrongType() else Shows(reply, db[k].obj)
               else reply == Nil
  {
    hide Exec, Live, Shows, Snapshot.Load, Snapshot.Save, Snapshot.Lists, Snapshot.Fits;
    Snapshot.SnapshotRoundTrip(db, es, now);
    LiveIsAlive(db, k, now);
    GetAnswers(Live(db, now), ["GET", k], later);
  }
}
