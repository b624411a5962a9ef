/** The hash table as written: probe loops that swap slots of an array in place. */
module HashTable {
  import opened Wrappers
  import opened Probe
  import opened RobinHood
  import opened TableModel

  class Table<V> {
    var entries: array<Slot<V>>
    var capacity: nat
    var size: nat
    var tombstones: nat
    /** The hash function; nothing here depends on which one it is. */
    const hash: string -> nat

    ghost function Model(): TableModel.Table<V>
      reads this, entries
    {
      TableModel.Table(entries[..], size, tombstones)
    }

    ghost predicate Valid()
      reads this, entries
    {
      capacity == entries.Length && TableModel.Valid(Model())
    }

    /** A table of at least `initialCapacity` slots, rounded up to a power of two. */
    constructor (initialCapacity: nat, hash: string -> nat)
      ensures Valid() && fresh(entries) && this.hash == hash
      ensures entries[..] == Blank(capacity) && capacity >= initialCapacity
      ensures initialCapacity <= MIN_CAPACITY ==> Model() == Create()
    {
      var wanted := if initialCapacity < MIN_CAPACITY then MIN_CAPACITY else initialCapacity;
      var cap := 1;
      while cap < wanted
        invariant IsPowerOfTwo(cap)
        invariant cap < 2 * wanted
      {
        cap := cap * 2;
      }
      if cap < 128 && cap != 64 {
        NoPowerBetween(cap, 64);
      }
      BlankCounts<V>(cap);
      this.hash := hash;
      entries := new Slot<V>[cap](_ => Empty);
      capacity := cap;
      size := 0;
      tombstones := 0;
      new;
      assert entries[..] == Blank(cap);
    }

    method Set(key: string, value: V) returns (isNew: bool)
      requires Valid()
      modifies this, entries
      ensures Valid() && (entries == old(entries) || fresh(entries))
      ensures (Model(), isNew) == TableModel.Set(old(Model()), hash, key, value)
    {
      hide IsPowerOfTwo, BitAnd, Place, Stored, Insert, TableModel.Resize;
      LoadThresholds(Model());
      if (size + tombstones + 1) * 100 / capacity > 70 {
        DoubledIsValid(Model());
        Resize(capacity * 2);
      }
      assert Model() == MadeRoom(old(Model()));
      ValidHasEmpty(Model());
      InsertCounts(Model(), key, value, hash(key));
      isNew := Probe(key, value);
    }

    /** The probe loop of set. */
    method Probe(key: string, value: V) returns (isNew: bool)
      requires capacity == entries.Length > 1 && IsPowerOfTwo(capacity) && HasFree(entries[..])
      requires forall p | 0 <= p < entries.Length && entries[p] == Tombstone :: tombstones > 0
      modifies this`size, this`tombstones, entries
      ensures (Model(), isNew) == Insert(old(Model()), key, value, hash(key))
    {
      hide IsPowerOfTwo, BitAnd, ProbeDistance, ProbeIndex, SlotAt, Dist, Gap, Room, Place;
      var h := hash(key);
      var newKey, newValue := key, value;
      isNew := true;
      ghost var placed := Place(entries[..], Some(key), Entry(key, value, h), 0);
      ZeroMod(capacity);
      var i := 0;
      while true
        invariant size == old(size) && tombstones == old(tombstones) && isNew
        invariant HasFree(entries[..])
        invariant forall p | 0 <= p < entries.Length && entries[p] == Tombstone :: tombstones > 0
        invariant placed == Place(entries[..], Some(key), Entry(newKey, newValue, h), i % capacity)
        decreases Room(entries[..]), Gap(entries[..], SlotAt(capacity, h, i % capacity))
      {
        ghost var before := entries[..];
        var idx := ProbeIndex(capacity, h, i);
        ProbeIndexIsSlotAt(capacity, h, i);
        NextStep(i, capacity);
        PlaceUnfold(before, Some(key), Entry(newKey, newValue, h), i % capacity);
        match entries[idx] {
          case Empty =>
            entries[idx] := Occupied(Entry(newKey, newValue, h));
            assert entries[..] == before[idx := Occupied(Entry(newKey, newValue, h))];
            size := size + 1;
            return isNew;
          case Tombstone =>
            tombstones := tombstones - 1;
            entries[idx] := Occupied(Entry(newKey, newValue, h));
            assert entries[..] == before[idx := Occupied(Entry(newKey, newValue, h))];
            size := size + 1;
            return isNew;
          case Occupied(e) =>
            if e.hash == h && e.key == key {
              entries[idx] := Occupied(e.(value := newValue));
              assert entries[..] == before[idx := Occupied(e.(value := newValue))];
              return false;
            }
            Distances(capacity, e.hash, h, i, idx);
            var curDist := ProbeDistance(capacity, e.hash, idx);
            var newDist := ProbeDistance(capacity, h, idx);
            if newDist > curDist {
              SwapProgress(before, idx, Entry(newKey, newValue, h));
              entries[idx] := Occupied(Entry(newKey, newValue, h));
              assert entries[..] == before[idx := Occupied(Entry(newKey, newValue, h))];
              newKey, newValue, h := e.key, e.value, e.hash;
            } else {
              MoveProgress(before, h, i % capacity);
            }
        }
        i := i + 1;
      }
    }

    /** The slot of a key; the walk ends within `capacity` steps because a truly empty slot exists. */
    method FindEntry(key: string) returns (r: Option<nat>)
      requires Valid()
      ensures r == Find(entries[..], key, hash(key), 0)
    {
      hide IsPowerOfTwo, BitAnd, Home, ProbeIndex, ProbeDistance, SlotAt, Dist;
      var h := hash(key);
      ValidHasEmpty(Model());
      ghost var s := entries[..];
      ghost var free: nat :| free < |s| && s[free] == Empty;
      ghost var end := Dist(capacity, h, free);
      var i := 0;
      while true
        invariant i <= end
        invariant Find(s, key, h, 0) == Find(s, key, h, i)
        decreases end - i
      {
        ModSmall(i, capacity);
        ProbeIndexIsSlotAt(capacity, h, i);
        var idx := ProbeIndex(capacity, h, i);
        match entries[idx] {
          case Empty =>
            return None;
          case Tombstone =>
          case Occupied(e) =>
            ProbeDistanceIsDist(capacity, e.hash, idx);
            var dist := ProbeDistance(capacity, e.hash, idx);
            if i > dist {
              return None;
            }
            if e.hash == h && e.key == key {
              return Some(idx);
            }
        }
        i := i + 1;
      }
    }

    method Get(key: string) returns (r: Option<V>)
      requires Valid()
      ensures r == match Find(entries[..], key, hash(key), 0)
                   case None => None
                   case Some(p) => Some(entries[p].entry.value)
    {
      var e := FindEntry(key);
      match e
      case None => r := None;
      case Some(p) => r := Some(entries[p].entry.value);
    }

    method Delete(key: string) returns (found: bool)
      requires Valid()
      modifies this, entries
      ensures Valid() && (entries == old(entries) || fresh(entries))
      ensures (Model(), found) == TableModel.Delete(old(Model()), hash, key)
    {
      hide IsPowerOfTwo, Find;
      DeleteValid(Model(), hash, key);
      var e := FindEntry(key);
      if e == None {
        return false;
      }
      var p := e.value;
      ghost var before := entries[..];
      BuryCounts(Model(), p);
      entries[p] := Tombstone;
      assert entries[..] == before[p := Tombstone];
      size := size - 1;
      tombstones := tombstones + 1;
      assert Model() == Bury(old(Model()), p);
      LoadThresholds(Model());
      if capacity > MIN_CAPACITY && size * 100 / capacity < 20 {
        Resize(capacity / 2);
      }
      return true;
    }

    /** Re-inserts every entry into a fresh array. */
    method Resize(newCapacity: nat)
      requires capacity == entries.Length && size == Stored(entries[..]) && size < AtLeastMin(newCapacity)
      requires IsPowerOfTwo(AtLeastMin(newCapacity))
      modifies this`entries, this`capacity, this`size, this`tombstones
      ensures capacity == entries.Length && fresh(entries)
      ensures Model() == TableModel.Resize(old(Model()), newCapacity)
    {
      hide IsPowerOfTwo, Place, Rehash, Stored;
      var newCap := if newCapacity < MIN_CAPACITY then MIN_CAPACITY else newCapacity;
      var oldEntries, oldCap := entries, capacity;
      ghost var from := oldEntries[..];
      StoredToIsStored(from, oldCap);
      assert from[..oldCap] == from;
      entries := new Slot<V>[newCap](_ => Empty);
      capacity := newCap;
      size := 0;
      tombstones := 0;
      assert entries[..] == Blank(newCap);
      RehashNothing(from, newCap);
      for i := 0 to oldCap
        invariant fresh(entries) && capacity == entries.Length == newCap
        invariant oldEntries[..] == from && tombstones == 0
        invariant size == StoredTo(from, i) < newCap
        invariant entries[..] == Rehash(from, i, newCap)
      {
        StoredToMonotone(from, i + 1, oldCap);
        RehashStep(from, i, newCap);
        match oldEntries[i] {
          case Occupied(e) =>
            Reinsert(e);
          case _ =>
        }
      }
    }

    /** The inner loop of resize. */
    method Reinsert(e: Entry<V>)
      requires capacity == entries.Length > 1 && IsPowerOfTwo(capacity)
      requires HasFree(entries[..]) && multiset(entries[..])[Tombstone] == 0
      modifies this`size, entries
      ensures entries[..] == Place(old(entries[..]), None, e, 0).slots
      ensures size == old(size) + 1
    {
      hide IsPowerOfTwo, BitAnd, ProbeDistance, ProbeIndex, SlotAt, Dist, Gap, Room, Place;
      var k, v, h := e.key, e.value, e.hash;
      ghost var placed := Place(entries[..], None, e, 0);
      ZeroMod(capacity);
      var j := 0;
      while true
        invariant size == old(size) && HasFree(entries[..]) && multiset(entries[..])[Tombstone] == 0
        invariant placed == Place(entries[..], None, Entry(k, v, h), j % capacity)
        decreases Room(entries[..]), Gap(entries[..], SlotAt(capacity, h, j % capacity))
      {
        ghost var before := entries[..];
        var idx := ProbeIndex(capacity, h, j);
        ProbeIndexIsSlotAt(capacity, h, j);
        NextStep(j, capacity);
        PlaceUnfold(before, None, Entry(k, v, h), j % capacity);
        FreeSlotIsCounted(before, idx);
        if entries[idx] == Empty {
          entries[idx] := Occupied(Entry(k, v, h));
          assert entries[..] == before[idx := Occupied(Entry(k, v, h))];
          size := size + 1;
          return;
        }
        var x := entries[idx].entry;
        Distances(capacity, x.hash, h, j, idx);
        var curDist := ProbeDistance(capacity, x.hash, idx);
        var newDist := ProbeDistance(capacity, h, idx);
        if newDist > curDist {
          SwapProgress(before, idx, Entry(k, v, h));
          SwapBag(before, idx, Entry(k, v, h));
          entries[idx] := Occupied(Entry(k, v, h));
          assert entries[..] == before[idx := Occupied(Entry(k, v, h))];
          k, v, h := x.key, x.value, x.hash;
        } else {
          MoveProgress(before, h, j % capacity);
        }
        j := j + 1;
      }
    }
  }

  lemma RehashNothing<V>(src: seq<Slot<V>>, capacity: nat)
    requires capacity > 0
    ensures Rehash(src, 0, capacity) == Blank(capacity)
  {}

  lemma RehashStep<V>(src: seq<Slot<V>>, i: nat, capacity: nat)
    requires i < |src| && StoredTo(src, i + 1) < capacity
    ensures var s := Rehash(src, i, capacity);
            match src[i]
            case Occupied(e) =>
              && HasFree(s) && multiset(s)[Tombstone] == 0
              && Rehash(src, i + 1, capacity) == Place(s, None, e, 0).slots
              && StoredTo(src, i + 1) == StoredTo(src, i) + 1
            case _ =>
              Rehash(src, i + 1, capacity) == s && StoredTo(src, i + 1) == StoredTo(src, i)
  {
    hide Place;
    var s := Rehash(src, i, capacity);
    if src[i].Occupied? {
      PlaceGrows(s, src[i].entry, StoredTo(src, i));
    }
  }

  /** The two distances compared at probe step `i`, on offsets. */
  lemma Distances(capacity: nat, stored: nat, carried: nat, i: nat, p: nat)
    requires IsPowerOfTwo(capacity) && p == SlotAt(capacity, carried, i % capacity)
    ensures BitAnd(stored, capacity - 1) <= p + capacity && BitAnd(carried, capacity - 1) <= p + capacity
    ensures ProbeDistance(capacity, stored, p) == Dist(capacity, stored, p)
    ensures ProbeDistance(capacity, carried, p) == Dist(capacity, carried, p) == i % capacity
  {
    ProbeDistanceIsDist(capacity, stored, p);
    ProbeDistanceIsDist(capacity, carried, p);
    DistOfSlotAt(capacity, carried, i % capacity);
  }

  lemma ZeroMod(n: nat)
    requires n > 0
    ensures 0 % n == 0
  {}

  lemma ModSmall(i: nat, n: nat)
    requires i < n
    ensures i % n == i
  {
    ModUnique(i, n, 0, i);
  }
}
