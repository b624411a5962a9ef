/** What holds of the table after every run of sets and deletes on a fresh table. */
module TableRuns {
  import opened Wrappers
  import opened Probe
  import opened RobinHood
  import opened TableModel

  datatype Op<V> = SetOp(key: string, value: V) | DeleteOp(key: string)

  ghost function Apply<V>(t: Table<V>, hash: string -> nat, op: Op<V>): (r: Table<V>)
    requires Valid(t)
    ensures Valid(r)
  {
    match op
    case SetOp(k, v) => SetValid(t, hash, k, v); Set(t, hash, k, v).0
    case DeleteOp(k) => DeleteValid(t, hash, k); Delete(t, hash, k).0
  }

  /** The table after a run; its result type says that every reachable table is valid. */
  ghost function Run<V>(hash: string -> nat, ops: seq<Op<V>>): (t: Table<V>)
    ensures Valid(t)
  {
    if ops == [] then CreateValid<V>(); Create()
    else Apply(Run(hash, ops[..|ops| - 1]), hash, ops[|ops| - 1])
  }

  lemma CreateValid<V>()
    ensures Valid<V>(Create())
  {
    BlankCounts<V>(MIN_CAPACITY);
    assert IsPowerOfTwo(2) && IsPowerOfTwo(4) && IsPowerOfTwo(8) && IsPowerOfTwo(16) && IsPowerOfTwo(32);
  }

  // ---- Space ----

  /** What bounds the capacity by the size, and what makes that bound survive a growth. */
  ghost predicate Spacious<V>(t: Table<V>) {
    && (|t.slots| <= 128 || |t.slots| <= 10 * t.size)
    && (|t.slots| == MIN_CAPACITY || t.tombstones == 0 || 5 * t.size >= |t.slots|)
  }

  lemma SetKeepsSpacious<V>(t: Table<V>, hash: string -> nat, key: string, value: V)
    requires Valid(t) && Spacious(t)
    ensures Spacious(Set(t, hash, key, value).0)
  {
    hide Resize, Insert, IsPowerOfTwo;
    LoadThresholds(t);
    InsertCounts(MadeRoom(t), key, value, hash(key));
  }

  lemma DeleteKeepsSpacious<V>(t: Table<V>, hash: string -> nat, key: string)
    requires Valid(t) && Spacious(t)
    ensures Spacious(Delete(t, hash, key).0)
  {
    hide Find, Resize, IsPowerOfTwo;
    match Find(t.slots, key, hash(key), 0)
    case None =>
    case Some(p) =>
      BuryCounts(t, p);
      LoadThresholds(Bury(t, p));
      if Underloaded(Bury(t, p)) {
        HalfIsPowerOfTwo(|t.slots|);
      }
  }

  /** After any run the capacity is at most ten times the number of stored entries, or 128. */
  lemma {:induction false} SpaceBound<V>(hash: string -> nat, ops: seq<Op<V>>)
    ensures Spacious(Run(hash, ops))
  {
    hide Set, Delete;
    if ops != [] {
      var before := Run(hash, ops[..|ops| - 1]);
      SpaceBound(hash, ops[..|ops| - 1]);
      match ops[|ops| - 1]
      case SetOp(k, v) => SetKeepsSpacious(before, hash, k, v);
      case DeleteOp(k) => DeleteKeepsSpacious(before, hash, k);
    }
  }

  // ---- Conservation ----

  /** Resizing a table keeps the bag of its entries, whatever the new capacity. */
  lemma ResizeConserves<V>(t: Table<V>, capacity: nat, e: Entry<V>)
    requires t.size == Stored(t.slots) && t.size < AtLeastMin(capacity)
    ensures multiset(Resize(t, capacity).slots)[Occupied(e)] == multiset(t.slots)[Occupied(e)]
  {
    StoredToIsStored(t.slots, |t.slots|);
    assert t.slots[..|t.slots|] == t.slots;
    RehashConserves(t.slots, |t.slots|, AtLeastMin(capacity), e);
  }

  lemma MadeRoomConserves<V>(t: Table<V>, e: Entry<V>)
    requires Valid(t)
    ensures multiset(MadeRoom(t).slots)[Occupied(e)] == multiset(t.slots)[Occupied(e)]
  {
    hide Resize, IsPowerOfTwo;
    LoadThresholds(t);
    if Overloaded(t) {
      ResizeConserves(t, 2 * |t.slots|, e);
    }
  }

  ghost predicate HashUnused<V>(s: seq<Slot<V>>, h: nat) {
    forall p | 0 <= p < |s| && s[p].Occupied? :: s[p].entry.hash != h
  }

  /** Setting a key whose full hash no stored entry has adds exactly that one entry, displacements and all. */
  lemma SetAddsOne<V>(t: Table<V>, hash: string -> nat, key: string, value: V, e: Entry<V>)
    requires Valid(t) && WellHashed(t.slots, hash) && HashUnused(t.slots, hash(key))
    ensures var (r, isNew) := Set(t, hash, key, value);
            && isNew
            && multiset(r.slots)[Occupied(e)] ==
               multiset(t.slots)[Occupied(e)] + (if e == Entry(key, value, hash(key)) then 1 else 0)
  {
    hide Place, Resize, IsPowerOfTwo;
    var room := MadeRoom(t);
    var added := Entry(key, value, hash(key));
    MadeRoomConserves(t, e);
    forall x: Entry<V> ensures Occupied(x) in room.slots <==> Occupied(x) in t.slots {
      MadeRoomConserves(t, x);
      assert Occupied(x) in multiset(room.slots) <==> Occupied(x) in room.slots;
      assert Occupied(x) in multiset(t.slots) <==> Occupied(x) in t.slots;
    }
    StoredIn(t.slots, room.slots, hash, key);
    FreshHashReplacesNothing(room.slots, Some(key), added, 0, hash(key));
    PlaceConserves(room.slots, Some(key), added, 0);
    var r := Place(room.slots, Some(key), added, 0);
    var filled: Slot<V> := if r.outcome == FilledEmpty then Empty else Tombstone;
    BagCount(multiset(r.slots), filled, multiset(room.slots), Occupied(added), Occupied(e));
  }

  lemma StoredIn<V>(s: seq<Slot<V>>, s': seq<Slot<V>>, hash: string -> nat, key: string)
    requires WellHashed(s, hash) && HashUnused(s, hash(key))
    requires forall e: Entry<V> :: Occupied(e) in s' <==> Occupied(e) in s
    ensures forall p | 0 <= p < |s'| && s'[p].Occupied? ::
              s'[p].entry.hash == hash(s'[p].entry.key) && s'[p].entry.hash != hash(key)
  {
    forall p | 0 <= p < |s'| && s'[p].Occupied?
      ensures s'[p].entry.hash == hash(s'[p].entry.key) && s'[p].entry.hash != hash(key)
    {
      assert Occupied(s'[p].entry) in s';
      assert Occupied(s'[p].entry) in s;
    }
  }

  /** Every stored hash stays the hash of its key. */
  lemma {:induction false} RunWellHashed<V>(hash: string -> nat, ops: seq<Op<V>>)
    ensures WellHashed(Run(hash, ops).slots, hash)
  {
    hide Place, Find, Resize, IsPowerOfTwo;
    if ops != [] {
      var before := Run(hash, ops[..|ops| - 1]);
      RunWellHashed(hash, ops[..|ops| - 1]);
      match ops[|ops| - 1]
      case SetOp(k, v) =>
        SetKeepsHashes(before, hash, k, v);
      case DeleteOp(k) =>
        DeleteKeepsHashes(before, hash, k);
    }
  }

  lemma ResizeKeepsHashes<V>(t: Table<V>, capacity: nat, hash: string -> nat)
    requires t.size == Stored(t.slots) && t.size < AtLeastMin(capacity) && WellHashed(t.slots, hash)
    ensures WellHashed(Resize(t, capacity).slots, hash)
  {
    StoredToIsStored(t.slots, |t.slots|);
    assert t.slots[..|t.slots|] == t.slots;
    RehashKeepsHashes(t.slots, |t.slots|, AtLeastMin(capacity), hash);
  }

  lemma SetKeepsHashes<V>(t: Table<V>, hash: string -> nat, key: string, value: V)
    requires Valid(t) && WellHashed(t.slots, hash)
    ensures WellHashed(Set(t, hash, key, value).0.slots, hash)
  {
    hide Place, Resize, IsPowerOfTwo;
    LoadThresholds(t);
    if Overloaded(t) {
      ResizeKeepsHashes(t, 2 * |t.slots|, hash);
    }
    PlaceKeepsHashes(MadeRoom(t).slots, Some(key), Entry(key, value, hash(key)), 0, hash);
  }

  lemma DeleteKeepsHashes<V>(t: Table<V>, hash: string -> nat, key: string)
    requires Valid(t) && WellHashed(t.slots, hash)
    ensures WellHashed(Delete(t, hash, key).0.slots, hash)
  {
    hide Find, Resize, IsPowerOfTwo;
    match Find(t.slots, key, hash(key), 0)
    case None =>
    case Some(p) =>
      BuryCounts(t, p);
      LoadThresholds(Bury(t, p));
      if Underloaded(Bury(t, p)) {
        ResizeKeepsHashes(Bury(t, p), |t.slots| / 2, hash);
      }
  }

  // ---- Deleting is removal ----

  /** Deleting a key makes the table shrink. */
  ghost predicate Shrinks<V>(t: Table<V>, hash: string -> nat, key: string)
    requires Valid(t)
  {
    Find(t.slots, key, hash(key), 0).Some? && |t.slots| > MIN_CAPACITY && 100 * (t.size - 1) < 20 * |t.slots|
  }

  /** On a good table, delete without a shrink removes the key, says whether it was there, and keeps the table good. */
  lemma DeleteIsRemoval<V>(t: Table<V>, hash: string -> nat, key: string)
    requires Valid(t) && GoodTable(t.slots, hash) && !Shrinks(t, hash, key)
    ensures var (r, found) := Delete(t, hash, key);
            && (found <==> key in Contents(t.slots))
            && GoodTable(r.slots, hash) && Contents(r.slots) == Contents(t.slots) - {key}
  {
    hide Find, Resize, IsPowerOfTwo, GoodTable, Contents;
    GoodIsUnique(t.slots, hash);
    FindIsMapLookup(t.slots, hash, key);
    match Find(t.slots, key, hash(key), 0)
    case None =>
    case Some(p) =>
      BuryCounts(t, p);
      LoadThresholds(Bury(t, p));
      TombstoneRemoves(t.slots, hash, p);
  }

  lemma GoodIsUnique<V>(s: seq<Slot<V>>, hash: string -> nat)
    requires GoodTable(s, hash)
    ensures UniqueKeys(s)
  {}

  /** The value a lookup returns. */
  ghost function Get<V>(t: Table<V>, hash: string -> nat, key: string): Option<V> {
    match Find(t.slots, key, hash(key), 0)
    case None => None
    case Some(p) => Some(t.slots[p].entry.value)
  }

  lemma RunStep<V>(hash: string -> nat, ops: seq<Op<V>>, op: Op<V>)
    ensures Run(hash, ops + [op]) == Apply(Run(hash, ops), hash, op)
  {
    hide Apply;
    assert (ops + [op])[..|ops|] == ops;
  }

  lemma ApplySet<V>(t: Table<V>, hash: string -> nat, key: string, value: V)
    requires Valid(t)
    ensures Apply(t, hash, SetOp(key, value)) == Set(t, hash, key, value).0
  {}

  lemma ApplyDelete<V>(t: Table<V>, hash: string -> nat, key: string)
    requires Valid(t)
    ensures Apply(t, hash, DeleteOp(key)) == Delete(t, hash, key).0
  {}
}
