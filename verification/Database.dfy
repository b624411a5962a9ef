/** The database object: a table of entries updated in place, and the sampling expiry sweep. */
module Database {
  import opened Wrappers
  import opened CText
  import opened Keyspace
  import opened TimedMap
  import LinkedList

  const SWEEP_INTERVAL: int := 100
  const SWEEP_SAMPLES: nat := 20

  /** The keys whose entries have expired. */
  ghost function ExpiredKeys(db: Db, now: int): set<string> {
    set k | k in db && IsExpired(db[k], now)
  }

  /** What a sweep may do: remove expired entries, and nothing else. */
  ghost predicate SweptTo(before: Db, after: Db, now: int) {
    after.Keys <= before.Keys &&
    forall k | k in before :: if k in after then after[k] == before[k] else 0 <= before[k].expire < now
  }

  /** At most 20 entries are gone. */
  ghost predicate FewRemoved(before: Db, after: Db) { |before| <= |after| + 20 }

  /** 20 samples are enough to come to every expired entry. */
  ghost predicate FewEnough(db: Db, now: int) { |ExpiredKeys(db, now)| * (|Live(db, now)| + 1) <= 20 }

  /** A sweep is one of the steps that runs may interleave with calls. */
  lemma SweptIsSweep(before: Db, after: Db, now: int)
    requires SweptTo(before, after, now)
    ensures var removed := before.Keys - after.Keys;
            Sweepable(before, removed, now) && after == Act(before, Sweep(removed, now))
  {}

  class Database {
    var table: Db
    var lastSweep: int

    constructor (now: int)
      ensures table == map[] && lastSweep == now
    {
      table := map[];
      lastSweep := now;
    }

    /** Removes the key if it is expired, and says whether it was. */
    method CheckExpired(key: string, now: int) returns (expired: bool)
      modifies this`table
      ensures table == DropExpired(old(table), key, now)
      ensures expired <==> key in old(table) && 0 <= old(table)[key].expire < now
      ensures table == if expired then old(table) - {key} else old(table)
    {
      if key !in table {
        return false;
      }
      var entry := table[key];
      if entry.expire >= 0 && now > entry.expire {
        table := table - {key};
        return true;
      }
      return false;
    }

    method Set(key: string, text: string)
      modifies this`table
      ensures table == Step(old(table), Op.Set(key, text), 0).0
    {
      var n := TryParseInt(text);
      var obj := if n.Some? then Int(n.value) else Str(text);
      table := table[key := Entry(obj, -1)];
    }

    method GetEntry(key: string, now: int) returns (r: Option<Entry>)
      modifies this`table
      ensures table == DropExpired(old(table), key, now) && r == Lookup(table, key)
    {
      var expired := CheckExpired(key, now);
      if expired {
        return None;
      }
      return Lookup(table, key);
    }

    method Get(key: string, now: int) returns (r: Option<Obj>)
      modifies this`table
      ensures (table, Object(r)) == Step(old(table), Op.Get(key), now)
    {
      var entry := GetEntry(key, now);
      r := if entry.Some? then Some(entry.value.obj) else None;
    }

    method Del(key: string, now: int) returns (r: bool)
      modifies this`table
      ensures (table, Flag(r)) == Step(old(table), Op.Del(key), now)
    {
      var _ := CheckExpired(key, now);
      r := key in table;
      table := table - {key};
    }

    method Exists(key: string, now: int) returns (r: bool)
      modifies this`table
      ensures (table, Flag(r)) == Step(old(table), Op.Exists(key), now)
    {
      var expired := CheckExpired(key, now);
      if expired {
        return false;
      }
      return key in table;
    }

    method Incr(key: string, delta: int, now: int) returns (r: int)
      modifies this`table
      ensures (table, Num(r)) == Step(old(table), Op.Incr(key, delta), now)
    {
      hide TryParseInt, ToInt64;
      var expired := CheckExpired(key, now);
      if expired || key !in table {
        table := table[key := Entry(Int(delta), -1)];
        return delta;
      }
      var entry := table[key];
      match entry.obj {
        case Int(n) =>
          r := ToInt64(n + delta);
          table := table[key := entry.(obj := Int(r))];
          return r;
        case Str(s) =>
          var n := TryParseInt(s);
          if n.Some? {
            r := ToInt64(n.value + delta);
            table := table[key := entry.(obj := Int(r))];
            return r;
          }
        case List(_) =>
      }
      return INT64_MIN;
    }

    /** The entry of a key, made an empty list if the key is missing. */
    method GetOrCreateList(key: string, now: int) returns (entry: Entry)
      modifies this`table
      ensures var dropped := DropExpired(old(table), key, now);
              if key in dropped then table == dropped && entry == dropped[key]
              else entry == Entry(List([]), -1) && table == dropped[key := entry]
    {
      var _ := CheckExpired(key, now);
      if key !in table {
        table := table[key := Entry(List([]), -1)];
      }
      entry := table[key];
    }

    method Push(key: string, value: string, left: bool, now: int) returns (r: int)
      modifies this`table
      ensures (table, Num(r)) ==
              Step(old(table), if left then LPush(key, value) else RPush(key, value), now)
    {
      var entry := GetOrCreateList(key, now);
      if !entry.obj.List? {
        return -1;
      }
      var items := if left then [value] + entry.obj.items else entry.obj.items + [value];
      assert [value] + [] == [] + [value] == [value];
      assert table[key := entry.(obj := List(items))] ==
             DropExpired(old(table), key, now)[key := entry.(obj := List(items))];
      table := table[key := entry.(obj := List(items))];
      return ToInt32(|items|);
    }

    method Pop(key: string, left: bool, now: int) returns (r: Option<string>)
      modifies this`table
      ensures (table, Popped(r)) == Step(old(table), if left then LPop(key) else RPop(key), now)
    {
      var expired := CheckExpired(key, now);
      if expired || key !in table || !table[key].obj.List? {
        return None;
      }
      var entry := table[key];
      var items := entry.obj.items;
      if items == [] {
        r := None;
      } else if left {
        r, items := Some(items[0]), items[1..];
      } else {
        r, items := Some(items[|items| - 1]), items[..|items| - 1];
      }
      table := table[key := entry.(obj := List(items))];
      if |items| == 0 {
        table := table - {key};
        assert table == DropExpired(old(table), key, now) - {key};
      }
    }

    method LLen(key: string, now: int) returns (r: int)
      modifies this`table
      ensures (table, Num(r)) == Step(old(table), Op.LLen(key), now)
    {
      var expired := CheckExpired(key, now);
      if expired || key !in table {
        return 0;
      }
      var obj := table[key].obj;
      return if obj.List? then |obj.items| else -1;
    }

    method LRange(key: string, start: int, stop: int, now: int) returns (r: seq<string>)
      modifies this`table
      ensures (table, Items(r)) == Step(old(table), Op.LRange(key, start, stop), now)
    {
      var expired := CheckExpired(key, now);
      if expired || key !in table || !table[key].obj.List? {
        return [];
      }
      return LinkedList.ListRange(table[key].obj.items, start, stop);
    }

    method Expire(key: string, seconds: int, now: int) returns (r: bool)
      modifies this`table
      ensures (table, Flag(r)) == Step(old(table), Op.Expire(key, seconds), now)
    {
      var entry := GetEntry(key, now);
      if entry == None {
        return false;
      }
      table := table[key := entry.value.(expire := ToInt64(now + seconds * 1000))];
      return true;
    }

    method Ttl(key: string, now: int) returns (r: int)
      modifies this`table
      ensures (table, Num(r)) == Step(old(table), Op.Ttl(key), now)
    {
      var entry := GetEntry(key, now);
      if entry == None {
        return -2;
      }
      if entry.value.expire < 0 {
        return -1;
      }
      var remaining := (entry.value.expire - now) / 1000;
      return if remaining > 0 then remaining else 0;
    }

    method Persist(key: string, now: int) returns (r: bool)
      modifies this`table
      ensures (table, Flag(r)) == Step(old(table), Op.Persist(key), now)
    {
      var entry := GetEntry(key, now);
      if entry == None || entry.value.expire < 0 {
        return false;
      }
      table := table[key := entry.value.(expire := -1)];
      return true;
    }

    method Flush()
      modifies this`table
      ensures table == map[]
    {
      table := map[];
    }

    /**
     Samples up to 20 entries in an order nobody knows, restarting after each removal, at most every 100 ms.
     It removes expired entries only. Before each removal it looks at most once at every live entry, so it removes
     every expired one when there are enough samples for that.
     */
    method ExpireSweep(now: int)
      modifies this
      ensures if now - old(lastSweep) < 100 then table == old(table) && lastSweep == old(lastSweep)
              else lastSweep == now
      ensures SweptTo(old(table), table, now) && |old(table)| <= |table| + 20
      ensures now - old(lastSweep) >= 100 &&
              |ExpiredKeys(old(table), now)| * (|Live(old(table), now)| + 1) <= 20 ==>
              table == Live(old(table), now)
    {
      if now - lastSweep < SWEEP_INTERVAL {
        return;
      }
      lastSweep := now;
      if |table| == 0 {
        return;
      }
      Sample(now);
    }

    /** The sampling loop of a sweep. */
    method Sample(now: int)
      modifies this`table
      ensures SweptTo(old(table), table, now) && FewRemoved(old(table), table)
      ensures FewEnough(old(table), now) ==> table == Live(old(table), now)
    {
      hide SweptTo, ExpiredKeys, Sampled, Live, FewEnough, FewRemoved;
      ghost var before := table;
      ghost var removed: set<string> := {};
      var checked := 0;
      var visited: set<string> := {};
      NothingSampled(before, now);
      while checked < SWEEP_SAMPLES && table.Keys - visited != {}
        invariant Sampled(before, table, removed, visited, checked, now) && checked <= SWEEP_SAMPLES
        decreases SWEEP_SAMPLES - checked
      {
        var k :| k in table.Keys - visited;
        var entry := table[k];
        SampleOne(before, table, removed, visited, checked, now, k);
        if entry.expire >= 0 && now > entry.expire {
          removed := removed + {k};
          table := table - {k};
          visited := {};
        } else {
          visited := visited + {k};
        }
        checked := checked + 1;
      }
      SweepComplete(before, table, removed, visited, checked, now);
    }
  }

  /** What holds after `checked` samples, `visited` being those since the last removal. */
  ghost predicate Sampled(before: Db, table: Db, removed: set<string>, visited: set<string>, checked: nat, now: int) {
    && SweptTo(before, table, now) && table.Keys == before.Keys - removed
    && removed <= ExpiredKeys(before, now)
    && visited <= table.Keys && (forall k | k in visited :: !IsExpired(table[k], now))
    && |removed| <= checked <= |removed| * (|Live(before, now)| + 1) + |visited|
  }

  lemma NothingSampled(before: Db, now: int)
    ensures Sampled(before, before, {}, {}, 0, now)
  {
    assert before.Keys - {} == before.Keys;
    ZeroTimes(|Live(before, now)| + 1);
  }

  lemma ZeroTimes(n: nat)
    ensures 0 * n == 0
  {}

  lemma SampleOne(before: Db, table: Db, removed: set<string>, visited: set<string>, checked: nat, now: int, k: string)
    requires Sampled(before, table, removed, visited, checked, now) && k in table.Keys - visited
    ensures if IsExpired(table[k], now) then Sampled(before, table - {k}, removed + {k}, {}, checked + 1, now)
            else Sampled(before, table, removed, visited + {k}, checked + 1, now)
  {
    hide Live;
    if IsExpired(table[k], now) {
      FewVisited(before, table, removed, visited, checked, now);
      OneMore(|removed|, |Live(before, now)| + 1);
      assert |removed + {k}| == |removed| + 1;
    } else {
      assert |visited + {k}| == |visited| + 1;
    }
  }

  /** Only live entries are visited without being removed. */
  lemma FewVisited(before: Db, table: Db, removed: set<string>, visited: set<string>, checked: nat, now: int)
    requires Sampled(before, table, removed, visited, checked, now)
    ensures |visited| <= |Live(before, now)|
  {
    forall k | k in visited ensures k in Live(before, now) {
      assert k in table && table[k] == before[k];
    }
    Shrinks(visited, Live(before, now).Keys);
    assert |Live(before, now).Keys| == |Live(before, now)|;
  }

  lemma OneMore(n: nat, m: nat)
    ensures (n + 1) * m == n * m + m
  {}

  lemma SweepComplete(before: Db, after: Db, removed: set<string>, visited: set<string>, checked: nat, now: int)
    requires Sampled(before, after, removed, visited, checked, now)
    requires checked <= SWEEP_SAMPLES && (checked == SWEEP_SAMPLES || after.Keys - visited == {})
    ensures SweptTo(before, after, now) && FewRemoved(before, after)
    ensures FewEnough(before, now) ==> after == Live(before, now)
  {
    RemovedCount(before.Keys, removed);
    assert |before| == |before.Keys| && |after| == |after.Keys|;
    if FewEnough(before, now) {
      if after.Keys - visited == {} {
        VisitedAll(before, after, removed, visited, checked, now);
      } else {
        RemovedAll(before, after, removed, visited, checked, now);
      }
      AllExpiredRemoved(before, after, now);
    }
  }

  lemma RemovedCount(all: set<string>, removed: set<string>)
    ensures |all| <= |all - removed| + |removed|
  {
    assert all == (all - removed) + (all * removed);
    Shrinks(all * removed, removed);
  }

  /** When every stored entry has been visited, none of them is expired. */
  lemma VisitedAll(before: Db, after: Db, removed: set<string>, visited: set<string>, checked: nat, now: int)
    requires Sampled(before, after, removed, visited, checked, now) && after.Keys - visited == {}
    ensures removed == ExpiredKeys(before, now)
  {
    forall k | k in ExpiredKeys(before, now) ensures k in removed {
      if k in after {
        assert k !in after.Keys - visited;
        assert k in visited && after[k] == before[k];
      }
    }
  }

  /** Samples that did not reach every entry were spent on removing all expired ones. */
  lemma RemovedAll(before: Db, after: Db, removed: set<string>, visited: set<string>, checked: nat, now: int)
    requires Sampled(before, after, removed, visited, checked, now)
    requires FewEnough(before, now) && SWEEP_SAMPLES <= checked
    ensures removed == ExpiredKeys(before, now)
  {
    hide ExpiredKeys, SweptTo, IsExpired, Live;
    FewVisited(before, after, removed, visited, checked, now);
    if removed != ExpiredKeys(before, now) {
      Shrinks(removed, ExpiredKeys(before, now));
      AtLeastOneMore(|removed|, |ExpiredKeys(before, now)|, |Live(before, now)| + 1);
    }
  }

  lemma AllExpiredRemoved(before: Db, after: Db, now: int)
    requires SweptTo(before, after, now) && after.Keys == before.Keys - ExpiredKeys(before, now)
    ensures after == Live(before, now)
  {}

  lemma {:induction false} AtLeastOneMore(a: nat, b: nat, m: nat)
    requires a < b
    ensures a * m + m <= b * m
  {
    OneMore(b - 1, m);
    if a < b - 1 {
      AtLeastOneMore(a, b - 1, m);
    }
  }
}
