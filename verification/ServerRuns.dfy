/**
 Whole runs of the server: commands from any clients, with expiry sweeps, and restarts from a complete snapshot,
 anywhere in between. Only the commands show in the replies.
 */
module ServerRuns {
  import opened Wrappers
  import opened Resp
  import opened Keyspace
  import opened TimedMap
  import opened Commands
  import opened CommandView
  import Snapshot

  /**
   A command; a sweep that removes some expired entries; or a restart, which saves the keyspace in the
   table's order `es` and loads the file into an empty one at a later clock reading.
   */
  datatype Turn =
    | Ran(cmd: Value, env: Env)
    | Swept(removed: set<string>, at: int)
    | Restarted(es: Snapshot.Listing, at: int)

  function Time(t: Turn): int { if t.Ran? then t.env.now else t.at }

  function Next(db: Db, t: Turn): Db
    requires t.Ran? ==> Handled(t.cmd)
  {
    match t
    case Ran(cmd, env) => ExecValue(db, cmd, env).0
    case Swept(removed, _) => db - removed
    case Restarted(es, now) =>
      match Snapshot.Load(map[], now, Snapshot.Save(es))
      case Some(loaded) => loaded
      case None => map[]
  }

  /** What can happen next: commands the server can run, sweeps of expired entries, and files the format can hold. */
  ghost predicate CanHappen(db: Db, t: Turn) {
    match t
    case Ran(cmd, _) => Handled(cmd)
    case Swept(removed, now) => Sweepable(db, removed, now)
    case Restarted(es, _) => Snapshot.Lists(es, db) && Snapshot.Fits(es)
  }

  /** A run from `db` in which the clock never goes back. */
  ghost predicate Possible(db: Db, start: int, turns: seq<Turn>)
    decreases |turns|
  {
    turns == [] ||
    (start <= Time(turns[0]) && CanHappen(db, turns[0]) && Possible(Next(db, turns[0]), Time(turns[0]), turns[1..]))
  }

  /** The replies of a run, one for each command. */
  function RunReplies(db: Db, turns: seq<Turn>): seq<Value>
    requires forall t | t in turns && t.Ran? :: Handled(t.cmd)
    decreases |turns|
  {
    if turns == [] then []
    else
      assert turns[0] in turns;
      var rest := RunReplies(Next(db, turns[0]), turns[1..]);
      if turns[0].Ran? then [ExecValue(db, turns[0].cmd, turns[0].env).1] + rest else rest
  }

  function Last(db: Db, turns: seq<Turn>): Db
    requires forall t | t in turns && t.Ran? :: Handled(t.cmd)
    decreases |turns|
  {
    if turns == [] then db else Last(Next(db, turns[0]), turns[1..])
  }

  /** The commands of a run alone. */
  function OnlyCommands(turns: seq<Turn>): (cmds: seq<Turn>)
    ensures forall t | t in cmds :: t in turns && t.Ran?
  {
    if turns == [] then []
    else if turns[0].Ran? then [turns[0]] + OnlyCommands(turns[1..])
    else OnlyCommands(turns[1..])
  }

  /** Whenever a run asks how many keys are stored, no expired entry is among them. */
  predicate CountsSettled(db: Db, turns: seq<Turn>)
    requires forall t | t in turns && t.Ran? :: Handled(t.cmd)
    decreases |turns|
  {
    turns == [] ||
    (assert turns[0] in turns;
     && (turns[0].Ran? && Counting(turns[0].cmd) ==> Settled(db, turns[0].env.now))
     && CountsSettled(Next(db, turns[0]), turns[1..]))
  }

  /** The replies to commands alone, each run on the live entries only. */
  function LiveReplies(m: Db, cmds: seq<Turn>): seq<Value>
    requires forall t | t in cmds :: t.Ran? && Handled(t.cmd)
    decreases |cmds|
  {
    if cmds == [] then []
    else
      assert cmds[0] in cmds;
      var (m', reply) := ExecValue(Live(m, cmds[0].env.now), cmds[0].cmd, cmds[0].env);
      [reply] + LiveReplies(m', cmds[1..])
  }

  // ---- Upkeep is invisible ----

  lemma LaterView(a: Db, b: Db, now: int, later: int)
    requires SameView(a, b, now) && now <= later
    ensures SameView(a, b, later)
  {
    hide Live;
    LiveTwice(a, now, later);
    LiveTwice(b, now, later);
  }

  /** Sweeps and restarts leave the live view alone. */
  lemma UpkeepKeepsView(db: Db, t: Turn)
    requires !t.Ran? && CanHappen(db, t)
    ensures SameView(Next(db, t), db, Time(t))
  {
    hide Live, Snapshot.Load, Snapshot.Save, Snapshot.Lists, Snapshot.Fits;
    match t
    case Swept(removed, now) => SweptLive(db, removed, now);
    case Restarted(es, now) =>
      Snapshot.SnapshotRoundTrip(db, es, now);
      LiveTwice(db, now, now);
  }

  lemma ViewTransitive(a: Db, b: Db, c: Db, now: int)
    requires SameView(a, b, now) && SameView(b, c, now)
    ensures SameView(a, c, now)
  {}

  /** One command on a keyspace and on the live entries of one with the same view. */
  lemma CommandOnView(db: Db, m: Db, v: Value, env: Env)
    requires Handled(v) && SameView(db, m, env.now)
    ensures SameView(ExecValue(db, v, env).0, ExecValue(Live(m, env.now), v, env).0, env.now)
    ensures ExecValue(db, v, env).1 == ExecValue(Live(m, env.now), v, env).1 <==>
            (Counting(v) ==> Settled(db, env.now))
  {
    hide Live, Settled, ExecValue, Handled, Counting;
    var live := Live(m, env.now);
    assert live == Live(db, env.now);
    LiveTwice(m, env.now, env.now);
    LiveCount(db, env.now);
    ExecAgrees(db, live, v, env);
  }

  /**
   A possible run replies as its commands alone would on the live entries, if and only if no expired entry is
   stored whenever it asks how many keys there are.
   */
  lemma {:induction false} RunOnView(db: Db, m: Db, start: int, turns: seq<Turn>)
    requires Possible(db, start, turns) && SameView(db, m, start)
    requires forall t | t in turns && t.Ran? :: Handled(t.cmd)
    ensures RunReplies(db, turns) == LiveReplies(m, OnlyCommands(turns)) <==> CountsSettled(db, turns)
    decreases |turns|
  {
    hide SameView, ExecValue, Handled, Counting, Snapshot.Load, Sweepable, Snapshot.Lists, Snapshot.Fits, Live, Settled;
    if turns != [] {
      var t, rest := turns[0], turns[1..];
      LaterView(db, m, start, Time(t));
      if t.Ran? {
        assert t in turns;
        CommandOnView(db, m, t.cmd, t.env);
        var live := Live(m, t.env.now);
        RunOnView(Next(db, t), Next(live, t), Time(t), rest);
        assert ([t] + OnlyCommands(rest))[1..] == OnlyCommands(rest);
        HeadAndTail(ExecValue(db, t.cmd, t.env).1, RunReplies(Next(db, t), rest),
                    ExecValue(live, t.cmd, t.env).1, LiveReplies(Next(live, t), OnlyCommands(rest)));
      } else {
        UpkeepKeepsView(db, t);
        ViewTransitive(Next(db, t), db, m, Time(t));
        RunOnView(Next(db, t), m, Time(t), rest);
      }
    }
  }

  lemma {:induction false} PossibleIsHandled(db: Db, start: int, turns: seq<Turn>)
    requires Possible(db, start, turns)
    ensures forall t | t in turns && t.Ran? :: Handled(t.cmd)
    decreases |turns|
  {
    hide Handled, ExecValue, Snapshot.Load, Sweepable, Snapshot.Lists, Snapshot.Fits;
    if turns != [] {
      PossibleIsHandled(Next(db, turns[0]), Time(turns[0]), turns[1..]);
    }
  }

  /**
   Upkeep is invisible to clients, except that DBSIZE and INFO count what is stored. A run that is settled
   whenever it counts replies like any other run of the same commands if and only if that one is settled too,
   wherever the server swept, whatever it removed, and however often it was restarted from a complete snapshot,
   in whatever order that was written.
   */
  lemma UpkeepInvisible(db: Db, start: int, a: seq<Turn>, b: seq<Turn>)
    requires Possible(db, start, a) && Possible(db, start, b) && OnlyCommands(a) == OnlyCommands(b)
    requires (PossibleIsHandled(db, start, b); CountsSettled(db, b))
    ensures forall t | t in a + b && t.Ran? :: Handled(t.cmd)
    ensures RunReplies(db, a) == RunReplies(db, b) <==> CountsSettled(db, a)
  {
    hide Handled, Possible, CountsSettled;
    PossibleIsHandled(db, start, a);
    PossibleIsHandled(db, start, b);
    RunOnView(db, db, start, a);
    RunOnView(db, db, start, b);
  }

  /** A run that never counts is settled whenever it counts. */
  lemma {:induction false} UncountedIsSettled(db: Db, turns: seq<Turn>)
    requires forall t | t in turns && t.Ran? :: Handled(t.cmd) && !Counting(t.cmd)
    ensures CountsSettled(db, turns)
    decreases |turns|
  {
    hide Handled, Counting, Next;
    if turns != [] {
      assert turns[0] in turns;
      UncountedIsSettled(Next(db, turns[0]), turns[1..]);
    }
  }

  // ---- Every reachable keyspace is well typed ----

  lemma NextWellTyped(db: Db, t: Turn)
    requires WellTyped(db) && CanHappen(db, t)
    ensures WellTyped(Next(db, t))
  {
    hide Snapshot.Load, Snapshot.Save, Snapshot.Lists, Snapshot.Fits, ExecValue, WellTypedObj;
    match t
    case Ran(cmd, env) =>
      ExecWellTyped(db, cmd, env);
    case Swept(removed, now) =>
    case Restarted(es, now) => Snapshot.SnapshotWellTyped(db, es, now);
  }

  /** No run of commands, sweeps and restarts stores a string that parses as an integer, or an empty list. */
  lemma {:induction false} RunStaysWellTyped(db: Db, start: int, turns: seq<Turn>)
    requires Possible(db, start, turns) && WellTyped(db)
    requires forall t | t in turns && t.Ran? :: Handled(t.cmd)
    ensures WellTyped(Last(db, turns))
    decreases |turns|
  {
    hide WellTyped, Handled, ExecValue, Snapshot.Load, Sweepable, Snapshot.Lists, Snapshot.Fits;
    if turns != [] {
      assert turns[0] in turns;
      NextWellTyped(db, turns[0]);
      RunStaysWellTyped(Next(db, turns[0]), Time(turns[0]), turns[1..]);
    }
  }

  // ---- What clients see ----

  function Cmd(args: seq<string>): Value { Array(Bulks(args)) }

  lemma CmdParts(args: seq<string>)
    requires args != [] && Recognise(args[0]).Some?
    ensures IsCommand(Cmd(args)) && Handled(Cmd(args))
    ensures Texts(Cmd(args).items) == args
    ensures NamedCommand(Cmd(args)) == Recognise(args[0])
  {
    hide Recognise;
  }

  /** The names in these lemmas are found in the table. */
  lemma Recognised()
    ensures Recognise("SET") == Some(CSet) && Recognise("GET") == Some(CGet)
    ensures Recognise("INCR") == Some(CIncr) && Recognise("DECR") == Some(CDecr)
  {
    hide Recognise;
    RecogniseExact("SET", CSet);
    RecogniseExact("GET", CGet);
    RecogniseExact("INCR", CIncr);
    RecogniseExact("DECR", CDecr);
  }

  lemma SetExec(db: Db, k: string, text: string, env: Env)
    ensures Exec(db, ["SET", k, text], env) == (Step(db, Op.Set(k, text), env.now).0, SimpleString("OK"))
  {
    hide Recognise, Step;
    Recognised();
  }

  lemma GetExec(db: Db, k: string, env: Env)
    ensures Exec(db, ["GET", k], env) ==
            (Step(db, Get(k), env.now).0, SimpleReply(Step(db, Get(k), env.now).1))
  {
    hide Recognise, Step, SimpleReply;
    Recognised();
  }

  /**
   GET after SET, with any sweeps and restarts in between, answers the canonical numeral of the number that all of the
   text denotes, and any other text unchanged.
   */
  lemma SetThenGet(db: Db, start: int, k: string, text: string, upkeep: seq<Turn>, first: Env, second: Env)
    requires var turns := [Ran(Cmd(["SET", k, text]), first)] + upkeep + [Ran(Cmd(["GET", k]), second)];
             Possible(db, start, turns) && forall t | t in upkeep :: !t.Ran?
    ensures var turns := [Ran(Cmd(["SET", k, text]), first)] + upkeep + [Ran(Cmd(["GET", k]), second)];
            && (forall t | t in turns && t.Ran? :: Handled(t.cmd))
            && RunReplies(db, turns) == [SimpleString("OK"), BulkString(Normal(text))]
            && forall shown: string ::
                 RunReplies(db, turns) == [SimpleString("OK"), BulkString(shown)] <==> ShownAs(text, shown)
  {
    hide Recognise, Handled, Possible, Exec, Step, Normal, Counting, ShownAs;
    forall shown: string ensures shown == Normal(text) <==> ShownAs(text, shown) {
      NormalExact(text, shown);
    }
    var put, get := Ran(Cmd(["SET", k, text]), first), Ran(Cmd(["GET", k]), second);
    var turns := [put] + upkeep + [get];
    PossibleIsHandled(db, start, turns);
    SetGetUncounted(k, text);
    UncountedIsSettled(db, turns);
    RunOnView(db, db, start, turns);
    OnlyCommandsAround(put, upkeep, get);
    TwoReplies(db, k, text, first, second);
  }

  lemma SetGetUncounted(k: string, text: string)
    ensures !Counting(Cmd(["SET", k, text])) && !Counting(Cmd(["GET", k]))
  {
    hide Recognise;
    Recognised();
    CmdParts(["SET", k, text]);
    CmdParts(["GET", k]);
  }

  lemma {:induction false} OnlyCommandsAround(a: Turn, upkeep: seq<Turn>, b: Turn)
    requires a.Ran? && b.Ran? && forall t | t in upkeep :: !t.Ran?
    ensures OnlyCommands([a] + upkeep + [b]) == [a, b]
  {
    assert ([a] + upkeep + [b])[1..] == upkeep + [b];
    OnlyCommandsLast(upkeep, b);
  }

  lemma {:induction false} OnlyCommandsLast(upkeep: seq<Turn>, b: Turn)
    requires b.Ran? && forall t | t in upkeep :: !t.Ran?
    ensures OnlyCommands(upkeep + [b]) == [b]
  {
    if upkeep == [] {
      assert upkeep + [b] == [b] && [b][1..] == [];
      assert OnlyCommands([]) == [];
    } else {
      assert (upkeep + [b])[0] in upkeep;
      assert (upkeep + [b])[1..] == upkeep[1..] + [b];
      OnlyCommandsLast(upkeep[1..], b);
    }
  }

  lemma TwoReplies(db: Db, k: string, text: string, first: Env, second: Env)
    ensures Handled(Cmd(["SET", k, text])) && Handled(Cmd(["GET", k]))
    ensures LiveReplies(db, [Ran(Cmd(["SET", k, text]), first), Ran(Cmd(["GET", k]), second)]) ==
            [SimpleString("OK"), BulkString(Normal(text))]
  {
    hide Recognise, Handled, Exec, Step, TextOf, Normal, Live;
    Recognised();
    CmdParts(["SET", k, text]);
    CmdParts(["GET", k]);
    var put, get := Ran(Cmd(["SET", k, text]), first), Ran(Cmd(["GET", k]), second);
    SetExec(Live(db, first.now), k, text, first);
    var stored := Next(Live(db, first.now), put);
    GetExec(Live(stored, second.now), k, second);
    StoredText(Live(db, first.now), k, text, first.now, second.now);
    assert [put, get][1..] == [get] && [get][1..] == [];
    assert LiveReplies(Next(Live(stored, second.now), get), []) == [];
    assert LiveReplies(stored, [get]) == [BulkString(Normal(text))] + [];
  }

  lemma StoredText(db: Db, k: string, text: string, now: int, later: int)
    ensures SimpleReply(Step(Live(Step(db, Op.Set(k, text), now).0, later), Get(k), later).1) ==
            BulkString(Normal(text))
  {
    hide TryParseInt, Live;
    LiveBind(db, k, Entry(ObjOf(text), -1), later);
    GetAfterSet(Live(db, later), k, text, later, later);
  }

  /** In every reachable keyspace, INCR and DECR on a string answer with an error and change nothing. */
  lemma IncrOnStringAnswers(db: Db, k: string, env: Env)
    requires WellTyped(db) && k in db && !IsExpired(db[k], env.now) && db[k].obj.Str?
    ensures Exec(db, ["INCR", k], env) == (db, Error(NOT_INTEGER))
    ensures Exec(db, ["DECR", k], env) == (db, Error(NOT_INTEGER))
  {
    hide Recognise, Step, WellTyped;
    Recognised();
    IncrOnStringFails(db, k, 1, env.now);
    IncrOnStringFails(db, k, -1, env.now);
  }
}
