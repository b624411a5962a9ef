/**
 The whole table as a value: the slot array with its two counters, resizing, and what every run of sets and
 deletes keeps.
 */
module TableModel {
  import opened Wrappers
  import opened Probe
  import opened RobinHood

  const MIN_CAPACITY: nat := 64

  datatype Table<V> = Table(slots: seq<Slot<V>>, size: nat, tombstones: nat)

  /** The number of occupied slots. */
  ghost function Stored<V>(s: seq<Slot<V>>): int {
    |s| - multiset(s)[Empty] - multiset(s)[Tombstone]
  }

  // ---- Resizing ----

  ghost function StoredTo<V>(s: seq<Slot<V>>, n: nat): (c: nat)
    requires n <= |s|
    ensures c <= n
  {
    if n == 0 then 0 else StoredTo(s, n - 1) + (if s[n - 1].Occupied? then 1 else 0)
  }

  lemma {:induction false} StoredToIsStored<V>(s: seq<Slot<V>>, n: nat)
    requires n <= |s|
    ensures StoredTo(s, n) == Stored(s[..n])
  {
    if n > 0 {
      StoredToIsStored(s, n - 1);
      assert s[..n] == s[..n - 1] + [s[n - 1]];
    }
  }

  lemma {:induction false} StoredToMonotone<V>(s: seq<Slot<V>>, n: nat, m: nat)
    requires n <= m <= |s|
    ensures StoredTo(s, n) <= StoredTo(s, m)
    decreases m - n
  {
    if n < m {
      StoredToMonotone(s, n, m - 1);
    }
  }

  function Blank<V>(n: nat): (s: seq<Slot<V>>) {
    seq(n, _ => Empty)
  }

  lemma {:induction false} BlankCounts<V>(n: nat)
    ensures multiset(Blank<V>(n)) == multiset{}[Empty := n]
  {
    if n > 0 {
      BlankCounts<V>(n - 1);
      assert Blank<V>(n) == Blank<V>(n - 1) + [Empty];
    }
  }

  /** No tombstones, exactly `stored` occupied slots, and room for one more. */
  ghost predicate Growing<V>(s: seq<Slot<V>>, capacity: nat, stored: nat) {
    |s| == capacity && multiset(s)[Tombstone] == 0 && multiset(s)[Empty] == capacity - stored
  }

  lemma EmptyIsFree<V>(s: seq<Slot<V>>)
    requires multiset(s)[Empty] > 0
    ensures HasFree(s) && exists p :: 0 <= p < |s| && s[p] == Empty
  {
    assert Empty in multiset(s);
    assert Empty in s;
  }

  lemma FreeSlotIsCounted<V>(s: seq<Slot<V>>, p: nat)
    requires p < |s|
    ensures s[p] in multiset(s)
  {
    assert s[p] in s;
  }

  /** Placing into a growing table fills an empty slot. */
  lemma PlaceGrows<V>(s: seq<Slot<V>>, e: Entry<V>, stored: nat)
    requires Growing(s, |s|, stored) && stored < |s|
    ensures HasFree(s)
    ensures var r := Place(s, None, e, 0);
            && Growing(r.slots, |s|, stored + 1)
            && multiset(r.slots) + multiset{Empty} == multiset(s) + multiset{Occupied(e)}
  {
    hide Place;
    EmptyIsFree(s);
    PlaceConserves(s, None, e, 0);
    NothingReplaced(s, e, 0);
    var before, after := multiset(s), multiset(Place(s, None, e, 0).slots);
    BagCount(after, Empty, before, Occupied(e), Empty);
    BagCount(after, Empty, before, Occupied(e), Tombstone);
  }

  lemma BagCount<T>(a: multiset<T>, x: T, b: multiset<T>, y: T, z: T)
    requires a + multiset{x} == b + multiset{y}
    ensures a[z] + (if z == x then 1 else 0) == b[z] + (if z == y then 1 else 0)
  {
    assert (a + multiset{x})[z] == (b + multiset{y})[z];
  }

  lemma {:induction false} NothingReplaced<V>(s: seq<Slot<V>>, e: Entry<V>, d: nat)
    requires HasFree(s) && d < |s| && multiset(s)[Tombstone] == 0
    ensures Place(s, None, e, d).outcome == FilledEmpty
    decreases Room(s), Gap(s, SlotAt(|s|, e.hash, d))
  {
    hide Home, Room;
    var p := SlotAt(|s|, e.hash, d);
    FreeSlotIsCounted(s, p);
    if s[p].Occupied? {
      if d > DistAt(s, p) {
        SwapProgress(s, p, e);
        SwapBag(s, p, e);
        NothingReplaced(s[p := Occupied(e)], s[p].entry, Next(|s|, d));
      } else {
        MoveProgress(s, e.hash, d);
        NothingReplaced(s, e, Next(|s|, d));
      }
    }
  }

  /** The first `n` old slots re-inserted, in order, into an empty array of `capacity` slots. */
  ghost function Rehash<V>(src: seq<Slot<V>>, n: nat, capacity: nat): (s: seq<Slot<V>>)
    requires n <= |src| && StoredTo(src, n) < capacity
    ensures Growing(s, capacity, StoredTo(src, n))
  {
    if n == 0 then
      BlankCounts<V>(capacity);
      Blank(capacity)
    else
      var s := Rehash(src, n - 1, capacity);
      match src[n - 1]
      case Occupied(e) =>
        PlaceGrows(s, e, StoredTo(src, n - 1));
        Place(s, None, e, 0).slots
      case _ => s
  }

  /** Resizing keeps every entry as often as it was stored, through all displacements. */
  lemma {:induction false} RehashConserves<V>(src: seq<Slot<V>>, n: nat, capacity: nat, e: Entry<V>)
    requires n <= |src| && StoredTo(src, n) < capacity
    ensures multiset(Rehash(src, n, capacity))[Occupied(e)] == multiset(src[..n])[Occupied(e)]
  {
    hide Place;
    if n == 0 {
      BlankCounts<V>(capacity);
    } else {
      RehashConserves(src, n - 1, capacity, e);
      assert src[..n] == src[..n - 1] + [src[n - 1]];
      if src[n - 1].Occupied? {
        var s, x := Rehash(src, n - 1, capacity), src[n - 1].entry;
        PlaceGrows(s, x, StoredTo(src, n - 1));
        BagCount(multiset(Place(s, None, x, 0).slots), Empty, multiset(s), Occupied(x), Occupied(e));
      }
    }
  }

  lemma {:induction false} RehashKeepsHashes<V>(src: seq<Slot<V>>, n: nat, capacity: nat, hash: string -> nat)
    requires n <= |src| && StoredTo(src, n) < capacity && WellHashed(src, hash)
    ensures WellHashed(Rehash(src, n, capacity), hash)
  {
    hide Place;
    if n > 0 {
      RehashKeepsHashes(src, n - 1, capacity, hash);
      if src[n - 1].Occupied? {
        PlaceGrows(Rehash(src, n - 1, capacity), src[n - 1].entry, StoredTo(src, n - 1));
        PlaceKeepsHashes(Rehash(src, n - 1, capacity), None, src[n - 1].entry, 0, hash);
      }
    }
  }

  // ---- The operations ----

  /** The counters are exact, the capacity is a power of two of at least 64, and the load stays below 71%. */
  ghost predicate Valid<V>(t: Table<V>) {
    && IsPowerOfTwo(|t.slots|) && |t.slots| >= MIN_CAPACITY
    && t.size == Stored(t.slots)
    && t.tombstones == multiset(t.slots)[Tombstone]
    && 100 * (t.size + t.tombstones) < 71 * |t.slots|
  }

  /** A valid table always has a truly empty slot, so probing ends. */
  lemma ValidHasEmpty<V>(t: Table<V>)
    requires Valid(t)
    ensures HasFree(t.slots) && exists p :: 0 <= p < |t.slots| && t.slots[p] == Empty
  {
    EmptyIsFree(t.slots);
  }

  predicate Overloaded<V>(t: Table<V>)
    requires |t.slots| > 0
  {
    (t.size + t.tombstones + 1) * 100 / |t.slots| > 70
  }

  predicate Underloaded<V>(t: Table<V>)
    requires |t.slots| > 0
  {
    |t.slots| > MIN_CAPACITY && t.size * 100 / |t.slots| < 20
  }

  lemma LoadThresholds<V>(t: Table<V>)
    requires |t.slots| > 0
    ensures Overloaded(t) <==> 100 * (t.size + t.tombstones + 1) >= 71 * |t.slots|
    ensures Underloaded(t) <==> |t.slots| > MIN_CAPACITY && 100 * t.size < 20 * |t.slots|
  {
    QuotientAbove((t.size + t.tombstones + 1) * 100, |t.slots|, 70);
    QuotientAbove(t.size * 100, |t.slots|, 19);
  }

  function AtLeastMin(capacity: nat): nat {
    if capacity < MIN_CAPACITY then MIN_CAPACITY else capacity
  }

  ghost function Resize<V>(t: Table<V>, capacity: nat): (r: Table<V>)
    requires t.size == Stored(t.slots) && t.size < AtLeastMin(capacity)
    ensures |r.slots| == AtLeastMin(capacity)
    ensures r.size == t.size == Stored(r.slots) && r.tombstones == 0 == multiset(r.slots)[Tombstone]
  {
    StoredToIsStored(t.slots, |t.slots|);
    assert t.slots[..|t.slots|] == t.slots;
    Table(Rehash(t.slots, |t.slots|, AtLeastMin(capacity)), t.size, 0)
  }

  ghost function Create<V>(): Table<V> { Table(Blank(MIN_CAPACITY), 0, 0) }

  /** The probe loop of set, with its counter updates; the flag says whether an entry was added. */
  ghost function Insert<V>(t: Table<V>, key: string, value: V, hash: nat): (Table<V>, bool)
    requires HasFree(t.slots) && |t.slots| > 0
  {
    var r := Place(t.slots, Some(key), Entry(key, value, hash), 0);
    match r.outcome
    case FilledEmpty => (Table(r.slots, t.size + 1, t.tombstones), true)
    case FilledTombstone => (Table(r.slots, t.size + 1, if t.tombstones > 0 then t.tombstones - 1 else 0), true)
    case Replaced => (Table(r.slots, t.size, t.tombstones), false)
  }

  /** The table that set probes: grown first when one more entry would load it too much. */
  ghost function MadeRoom<V>(t: Table<V>): (r: Table<V>)
    requires Valid(t)
    ensures Valid(r) && HasFree(r.slots) && 100 * (r.size + r.tombstones + 1) < 71 * |r.slots|
    ensures r.size == t.size && r.tombstones <= t.tombstones
  {
    LoadThresholds(t);
    if Overloaded(t) then
      DoubledIsValid(t);
      Resize(t, 2 * |t.slots|)
    else
      ValidHasEmpty(t);
      t
  }

  lemma DoubledIsValid<V>(t: Table<V>)
    requires Valid(t)
    ensures var r := Resize(t, 2 * |t.slots|);
            Valid(r) && HasFree(r.slots) && 100 * (r.size + r.tombstones + 1) < 71 * |r.slots|
  {
    hide Resize;
    assert IsPowerOfTwo(2 * |t.slots|);
    ValidHasEmpty(Resize(t, 2 * |t.slots|));
  }

  ghost function Set<V>(t: Table<V>, hash: string -> nat, key: string, value: V): (Table<V>, bool)
    requires Valid(t)
  {
    Insert(MadeRoom(t), key, value, hash(key))
  }

  ghost function Bury<V>(t: Table<V>, p: nat): Table<V>
    requires p < |t.slots| && t.size > 0
  {
    Table(t.slots[p := Tombstone], t.size - 1, t.tombstones + 1)
  }

  ghost function Delete<V>(t: Table<V>, hash: string -> nat, key: string): (Table<V>, bool)
    requires Valid(t)
  {
    match Find(t.slots, key, hash(key), 0)
    case None => (t, false)
    case Some(p) =>
      BuryCounts(t, p);
      LoadThresholds(Bury(t, p));
      var buried := Bury(t, p);
      (if Underloaded(buried) then Resize(buried, |t.slots| / 2) else buried, true)
  }

  lemma BuryCounts<V>(t: Table<V>, p: nat)
    requires t.size == Stored(t.slots) && t.tombstones == multiset(t.slots)[Tombstone]
    requires p < |t.slots| && t.slots[p].Occupied?
    ensures t.size > 0
    ensures var r := Bury(t, p);
            r.size == Stored(r.slots) && r.tombstones == multiset(r.slots)[Tombstone]
  {
    var s, s' := t.slots, t.slots[p := Tombstone];
    assert multiset(s') + multiset{s[p]} == multiset(s) + multiset{Tombstone};
    BagCount(multiset(s'), s[p], multiset(s), Tombstone, Tombstone);
    BagCount(multiset(s'), s[p], multiset(s), Tombstone, Empty);
    OccupiedIsStored(s, p);
  }

  lemma OccupiedIsStored<V>(s: seq<Slot<V>>, p: nat)
    requires p < |s| && s[p].Occupied?
    ensures Stored(s) > 0
  {
    var m := multiset(s);
    FreeSlotIsCounted(s, p);
    var two := multiset{}[Empty := m[Empty]][Tombstone := m[Tombstone]];
    assert two + multiset{s[p]} <= m;
    assert |two| == m[Empty] + m[Tombstone];
    var rest := m - (two + multiset{s[p]});
    assert m == two + multiset{s[p]} + rest;
  }

  // ---- What the operations keep ----

  lemma InsertCounts<V>(t: Table<V>, key: string, value: V, hash: nat)
    requires Valid(t) && 100 * (t.size + t.tombstones + 1) < 71 * |t.slots|
    ensures HasFree(t.slots)
    ensures var (r, isNew) := Insert(t, key, value, hash);
            Valid(r) && |r.slots| == |t.slots| && r.tombstones <= t.tombstones &&
            r.size == t.size + (if isNew then 1 else 0)
  {
    hide Place;
    ValidHasEmpty(t);
    var e := Entry(key, value, hash);
    PlaceConserves(t.slots, Some(key), e, 0);
    var r := Place(t.slots, Some(key), e, 0);
    if r.outcome != Replaced {
      var filled: Slot<V> := if r.outcome == FilledEmpty then Empty else Tombstone;
      BagCount(multiset(r.slots), filled, multiset(t.slots), Occupied(e), Empty);
      BagCount(multiset(r.slots), filled, multiset(t.slots), Occupied(e), Tombstone);
    }
  }

  lemma SetValid<V>(t: Table<V>, hash: string -> nat, key: string, value: V)
    requires Valid(t)
    ensures Valid(Set(t, hash, key, value).0)
  {
    hide Insert;
    InsertCounts(MadeRoom(t), key, value, hash(key));
  }

  lemma DeleteValid<V>(t: Table<V>, hash: string -> nat, key: string)
    requires Valid(t)
    ensures Valid(Delete(t, hash, key).0)
  {
    hide Find, Resize;
    match Find(t.slots, key, hash(key), 0)
    case None =>
    case Some(p) =>
      BuryCounts(t, p);
      LoadThresholds(Bury(t, p));
      if Underloaded(Bury(t, p)) {
        HalfIsPowerOfTwo(|t.slots|);
      }
  }

  lemma HalfIsPowerOfTwo(n: nat)
    requires IsPowerOfTwo(n) && n > MIN_CAPACITY
    ensures IsPowerOfTwo(n / 2) && n == 2 * (n / 2) && n / 2 >= MIN_CAPACITY
  {
    if n / 2 < 64 {
      assert n < 128;
      assert !IsPowerOfTwo(n) by { NoPowerBetween(n, 64); }
    }
  }

  lemma {:induction false} NoPowerBetween(n: nat, k: nat)
    requires IsPowerOfTwo(k) && k < n < 2 * k
    ensures !IsPowerOfTwo(n)
  {
    if IsPowerOfTwo(n) && k > 1 {
      NoPowerBetween(n / 2, k / 2);
    }
  }
}
