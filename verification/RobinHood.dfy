/**
 The slot array of the Robin Hood hash table as a value: what placing an entry does to it, and what a lookup
 can then find.
 */
module RobinHood {
  import opened Wrappers
  import opened Probe

  datatype Entry<V> = Entry(key: string, value: V, hash: nat)

  datatype Slot<V> = Empty | Tombstone | Occupied(entry: Entry<V>)

  /** The distance of the entry in slot `p` from its ideal slot. */
  function DistAt<V>(s: seq<Slot<V>>, p: nat): (d: nat)
    requires p < |s| && s[p].Occupied?
    ensures d < |s|
  {
    Dist(|s|, s[p].entry.hash, p)
  }

  // ---- Placing an entry ----

  ghost predicate HasFree<V>(s: seq<Slot<V>>) {
    exists p :: 0 <= p < |s| && !s[p].Occupied?
  }

  ghost function SomeFree<V>(s: seq<Slot<V>>): (p: nat)
    requires HasFree(s)
    ensures p < |s| && !s[p].Occupied?
  {
    var p :| 0 <= p < |s| && !s[p].Occupied?;
    p
  }

  /** The offset after `d`. */
  function Next(capacity: nat, d: nat): (r: nat)
    requires d < capacity
    ensures r < capacity
  {
    Wrap(capacity, d + 1)
  }

  /** How many probe steps lie between slot `p` and a free slot. */
  ghost function Gap<V>(s: seq<Slot<V>>, p: nat): nat
    requires HasFree(s) && p < |s|
  {
    var f := SomeFree(s);
    if f >= p then f - p else f + |s| - p
  }

  /** How much farther from their ideal slots the entries in the first `n` slots could still get. */
  ghost function RoomTo<V>(s: seq<Slot<V>>, n: nat): nat
    requires n <= |s|
  {
    if n == 0 then 0
    else RoomTo(s, n - 1) + (if s[n - 1].Occupied? then |s| - 1 - DistAt(s, n - 1) else 0)
  }

  ghost function Room<V>(s: seq<Slot<V>>): nat { RoomTo(s, |s|) }

  lemma {:induction false} RoomToUpdate<V>(s: seq<Slot<V>>, p: nat, e: Entry<V>, n: nat)
    requires p < |s| && s[p].Occupied? && n <= |s|
    requires Dist(|s|, e.hash, p) > DistAt(s, p)
    ensures RoomTo(s[p := Occupied(e)], n) ==
            RoomTo(s, n) - (if p < n then Dist(|s|, e.hash, p) - DistAt(s, p) else 0)
  {
    hide Dist;
    if n > 0 {
      RoomToUpdate(s, p, e, n - 1);
    }
  }

  /** A swap pushes the swapped-in entry farther out than the one it displaces was. */
  lemma SwapProgress<V>(s: seq<Slot<V>>, p: nat, e: Entry<V>)
    requires p < |s| && s[p].Occupied? && HasFree(s)
    requires Dist(|s|, e.hash, p) > DistAt(s, p)
    ensures var swapped := s[p := Occupied(e)]; HasFree(swapped) && Room(swapped) < Room(s)
  {
    RoomToUpdate(s, p, e, |s|);
    var f := SomeFree(s);
    assert !s[p := Occupied(e)][f].Occupied?;
  }

  /** Moving past an occupied slot brings the walk closer to a free one. */
  lemma MoveProgress<V>(s: seq<Slot<V>>, hash: nat, d: nat)
    requires HasFree(s) && d < |s| && s[SlotAt(|s|, hash, d)].Occupied?
    ensures Gap(s, SlotAt(|s|, hash, Next(|s|, d))) < Gap(s, SlotAt(|s|, hash, d))
  {
    hide Home;
  }

  datatype Outcome = FilledEmpty | FilledTombstone | Replaced

  datatype Placed<V> = Placed(slots: seq<Slot<V>>, outcome: Outcome)

  /**
   Carries `e` along its probe sequence from offset `d`, swapping it with entries closer to their ideal slot.
   After a swap the walk goes on with the displaced entry at the offset where the swapped-in entry was, not
   at its own. An entry with key `key` and the hash of the carried entry has its value replaced instead.
   */
  ghost function Place<V>(s: seq<Slot<V>>, key: Option<string>, e: Entry<V>, d: nat): (r: Placed<V>)
    requires HasFree(s) && d < |s|
    ensures |r.slots| == |s|
    decreases Room(s), Gap(s, SlotAt(|s|, e.hash, d))
  {
    var p := SlotAt(|s|, e.hash, d);
    match s[p]
    case Empty => Placed(s[p := Occupied(e)], FilledEmpty)
    case Tombstone => Placed(s[p := Occupied(e)], FilledTombstone)
    case Occupied(x) =>
      if key == Some(x.key) && x.hash == e.hash then
        Placed(s[p := Occupied(x.(value := e.value))], Replaced)
      else if d > DistAt(s, p) then
        SwapProgress(s, p, e);
        Place(s[p := Occupied(e)], key, x, Next(|s|, d))
      else
        MoveProgress(s, e.hash, d);
        Place(s, key, e, Next(|s|, d))
  }

  /** One step of placing. */
  lemma PlaceUnfold<V>(s: seq<Slot<V>>, key: Option<string>, e: Entry<V>, d: nat)
    requires HasFree(s) && d < |s|
    ensures var p := SlotAt(|s|, e.hash, d);
            match s[p]
            case Empty => Place(s, key, e, d) == Placed(s[p := Occupied(e)], FilledEmpty)
            case Tombstone => Place(s, key, e, d) == Placed(s[p := Occupied(e)], FilledTombstone)
            case Occupied(x) =>
              if key == Some(x.key) && x.hash == e.hash then
                Place(s, key, e, d) == Placed(s[p := Occupied(x.(value := e.value))], Replaced)
              else if d > DistAt(s, p) then
                && HasFree(s[p := Occupied(e)])
                && Place(s, key, e, d) == Place(s[p := Occupied(e)], key, x, Next(|s|, d))
              else
                Place(s, key, e, d) == Place(s, key, e, Next(|s|, d))
  {
    hide Home, Room;
    var p := SlotAt(|s|, e.hash, d);
    DistOfSlotAt(|s|, e.hash, d);
    if s[p].Occupied? && d > DistAt(s, p) {
      SwapProgress(s, p, e);
    }
  }

  // ---- What placing does to the bag of slots ----

  /** Placing turns one free slot into the placed entry and moves the others around. */
  lemma {:induction false} PlaceConserves<V>(s: seq<Slot<V>>, key: Option<string>, e: Entry<V>, d: nat)
    requires HasFree(s) && d < |s|
    ensures var r := Place(s, key, e, d);
            match r.outcome
            case FilledEmpty => multiset(r.slots) + multiset{Empty} == multiset(s) + multiset{Occupied(e)}
            case FilledTombstone => multiset(r.slots) + multiset{Tombstone} == multiset(s) + multiset{Occupied(e)}
            case Replaced =>
              && multiset(r.slots)[Empty] == multiset(s)[Empty]
              && multiset(r.slots)[Tombstone] == multiset(s)[Tombstone]
    decreases Room(s), Gap(s, SlotAt(|s|, e.hash, d))
  {
    hide Home, Room;
    var p := SlotAt(|s|, e.hash, d);
    if s[p].Occupied? && !(key == Some(s[p].entry.key) && s[p].entry.hash == e.hash) {
      if d > DistAt(s, p) {
        SwapProgress(s, p, e);
        SwapBag(s, p, e);
        PlaceConserves(s[p := Occupied(e)], key, s[p].entry, Next(|s|, d));
      } else {
        MoveProgress(s, e.hash, d);
        PlaceConserves(s, key, e, Next(|s|, d));
      }
    } else {
      SwapBag(s, p, if s[p].Occupied? then s[p].entry.(value := e.value) else e);
    }
  }

  lemma SwapBag<V>(s: seq<Slot<V>>, p: nat, e: Entry<V>)
    requires p < |s|
    ensures multiset(s[p := Occupied(e)]) + multiset{s[p]} == multiset(s) + multiset{Occupied(e)}
  {}

  /** Every stored hash is the hash of its key. */
  ghost predicate WellHashed<V>(s: seq<Slot<V>>, hash: string -> nat) {
    forall p | 0 <= p < |s| && s[p].Occupied? :: s[p].entry.hash == hash(s[p].entry.key)
  }

  lemma {:induction false} PlaceKeepsHashes<V>(s: seq<Slot<V>>, key: Option<string>, e: Entry<V>, d: nat, hash: string -> nat)
    requires HasFree(s) && d < |s|
    requires WellHashed(s, hash) && e.hash == hash(e.key)
    ensures WellHashed(Place(s, key, e, d).slots, hash)
    decreases Room(s), Gap(s, SlotAt(|s|, e.hash, d))
  {
    hide Home, Room;
    var p := SlotAt(|s|, e.hash, d);
    if s[p].Occupied? && !(key == Some(s[p].entry.key) && s[p].entry.hash == e.hash) {
      if d > DistAt(s, p) {
        SwapProgress(s, p, e);
        PlaceKeepsHashes(s[p := Occupied(e)], key, s[p].entry, Next(|s|, d), hash);
      } else {
        MoveProgress(s, e.hash, d);
        PlaceKeepsHashes(s, key, e, Next(|s|, d), hash);
      }
    }
  }

  /** At most one of the stored entries and the carried one has hash `h`. */
  ghost predicate Solo<V>(s: seq<Slot<V>>, e: Entry<V>, h: nat) {
    && (forall p, q | 0 <= p < |s| && 0 <= q < |s| && s[p].Occupied? && s[q].Occupied? ::
          s[p].entry.hash == h == s[q].entry.hash ==> p == q)
    && (e.hash == h ==> forall p | 0 <= p < |s| && s[p].Occupied? :: s[p].entry.hash != h)
  }

  /** Entries found under the searched key carry its hash `h`, stored or carried alike. */
  ghost predicate KeyHasHash<V>(s: seq<Slot<V>>, key: Option<string>, e: Entry<V>, h: nat) {
    && (forall p | 0 <= p < |s| && s[p].Occupied? && key == Some(s[p].entry.key) :: s[p].entry.hash == h)
    && (key == Some(e.key) ==> e.hash == h)
  }

  /** A key whose full hash matches no stored entry replaces nothing: its entry is added. */
  lemma {:induction false} FreshHashReplacesNothing<V>(s: seq<Slot<V>>, key: Option<string>, e: Entry<V>, d: nat, h: nat)
    requires HasFree(s) && d < |s|
    requires Solo(s, e, h) && KeyHasHash(s, key, e, h)
    ensures Place(s, key, e, d).outcome != Replaced
    decreases Room(s), Gap(s, SlotAt(|s|, e.hash, d))
  {
    hide Home, Room;
    var p := SlotAt(|s|, e.hash, d);
    if s[p].Occupied? {
      if d > DistAt(s, p) {
        SwapProgress(s, p, e);
        FreshHashReplacesNothing(s[p := Occupied(e)], key, s[p].entry, Next(|s|, d), h);
      } else {
        MoveProgress(s, e.hash, d);
        FreshHashReplacesNothing(s, key, e, Next(|s|, d), h);
      }
    }
  }

  // ---- Looking up ----

  /** The slot a lookup stops at with the key in hand, from offset `d` on. */
  function Find<V>(s: seq<Slot<V>>, key: string, hash: nat, d: nat): (r: Option<nat>)
    requires d <= |s|
    ensures r.Some? ==> r.value < |s| && s[r.value].Occupied? && s[r.value].entry.key == key
    decreases |s| - d
  {
    if d == |s| then None
    else
      var p := SlotAt(|s|, hash, d);
      match s[p]
      case Empty => None
      case Tombstone => Find(s, key, hash, d + 1)
      case Occupied(x) =>
        if d > DistAt(s, p) then None
        else if x.hash == hash && x.key == key then Some(p)
        else Find(s, key, hash, d + 1)
  }

  /** A lookup for `hash` walks past its slot at offset `j`. */
  ghost predicate Passable<V>(s: seq<Slot<V>>, hash: nat, j: nat)
    requires j < |s|
  {
    var p := SlotAt(|s|, hash, j);
    s[p] != Empty && (s[p].Occupied? ==> DistAt(s, p) >= j)
  }

  /** The way from the ideal slot of the entry in slot `p` to that slot is open to lookups. */
  ghost predicate Reaches<V>(s: seq<Slot<V>>, p: nat)
    requires p < |s| && s[p].Occupied?
  {
    forall j: nat | j < DistAt(s, p) :: Passable(s, s[p].entry.hash, j)
  }

  ghost predicate AllReachable<V>(s: seq<Slot<V>>) {
    forall p | 0 <= p < |s| && s[p].Occupied? :: Reaches(s, p)
  }

  ghost predicate UniqueKeys<V>(s: seq<Slot<V>>) {
    forall p, q | 0 <= p < |s| && 0 <= q < |s| && s[p].Occupied? && s[q].Occupied? ::
      s[p].entry.key == s[q].entry.key ==> p == q
  }

  /** The early exit is exact: an entry is found if and only if the way to it is open. */
  lemma FindExact<V>(s: seq<Slot<V>>, p: nat)
    requires p < |s| && s[p].Occupied? && UniqueKeys(s)
    ensures Find(s, s[p].entry.key, s[p].entry.hash, 0) == Some(p) <==> Reaches(s, p)
  {
    FindFrom(s, p, 0);
  }

  lemma {:induction false} FindFrom<V>(s: seq<Slot<V>>, p: nat, d: nat)
    requires p < |s| && s[p].Occupied? && UniqueKeys(s)
    requires d <= DistAt(s, p)
    ensures Find(s, s[p].entry.key, s[p].entry.hash, d) == Some(p) <==>
            forall j: nat | d <= j < DistAt(s, p) :: Passable(s, s[p].entry.hash, j)
    decreases |s| - d
  {
    hide Home;
    var h := s[p].entry.hash;
    var q := SlotAt(|s|, h, d);
    if d < DistAt(s, p) {
      assert q != p;
      FindFrom(s, p, d + 1);
      assert Passable(s, h, d) ==> Find(s, s[p].entry.key, h, d) == Find(s, s[p].entry.key, h, d + 1);
    }
  }

  /**
   Lookups answer for every stored key exactly when the table satisfies the Robin Hood condition; a key that
   is not stored is never found.
   */
  lemma LookupsExact<V>(s: seq<Slot<V>>, hash: string -> nat)
    requires UniqueKeys(s) && WellHashed(s, hash)
    ensures (forall p: nat | p < |s| && s[p].Occupied? ::
               Find(s, s[p].entry.key, hash(s[p].entry.key), 0) == Some(p)) <==> AllReachable(s)
  {
    forall p: nat | p < |s| && s[p].Occupied?
      ensures Find(s, s[p].entry.key, hash(s[p].entry.key), 0) == Some(p) <==> Reaches(s, p)
    {
      FindExact(s, p);
    }
  }

  // ---- The table as a map ----

  /** The key-value pairs stored in the array, as a full scan finds them. */
  ghost function Contents<V>(s: seq<Slot<V>>): (m: map<string, V>)
    requires UniqueKeys(s)
    ensures forall p | 0 <= p < |s| && s[p].Occupied? ::
              s[p].entry.key in m && m[s[p].entry.key] == s[p].entry.value
    ensures forall k | k in m :: exists p :: 0 <= p < |s| && s[p].Occupied? && s[p].entry.key == k
  {
    map p | 0 <= p < |s| && s[p].Occupied? :: s[p].entry.key := s[p].entry.value
  }

  ghost predicate GoodTable<V>(s: seq<Slot<V>>, hash: string -> nat) {
    UniqueKeys(s) && WellHashed(s, hash) && AllReachable(s)
  }

  /** On a good table, a lookup is a map lookup. */
  lemma FindIsMapLookup<V>(s: seq<Slot<V>>, hash: string -> nat, key: string)
    requires GoodTable(s, hash)
    ensures var r := Find(s, key, hash(key), 0);
            && (r.Some? <==> key in Contents(s))
            && (r.Some? ==> s[r.value].entry.value == Contents(s)[key])
  {
    if key in Contents(s) {
      var p: nat :| p < |s| && s[p].Occupied? && s[p].entry.key == key;
      FindExact(s, p);
    }
  }

  /** Turning an entry into a tombstone removes exactly its key and keeps every other entry findable. */
  lemma TombstoneRemoves<V>(s: seq<Slot<V>>, hash: string -> nat, p: nat)
    requires GoodTable(s, hash) && p < |s| && s[p].Occupied?
    ensures var s' := s[p := Tombstone];
            GoodTable(s', hash) && Contents(s') == Contents(s) - {s[p].entry.key}
  {
    hide Dist, SlotAt, Contents;
    var s' := s[p := Tombstone];
    forall q | 0 <= q < |s'| && s'[q].Occupied? ensures Reaches(s', q) {
      assert Reaches(s, q);
      assert forall j: nat | j < DistAt(s, q) && Passable(s, s[q].entry.hash, j) :: Passable(s', s[q].entry.hash, j);
    }
    ContentsWithout(s, p);
  }

  lemma ContentsWithout<V>(s: seq<Slot<V>>, p: nat)
    requires UniqueKeys(s) && p < |s| && s[p].Occupied?
    ensures UniqueKeys(s[p := Tombstone]) && Contents(s[p := Tombstone]) == Contents(s) - {s[p].entry.key}
  {
    hide Contents;
    var s', k := s[p := Tombstone], s[p].entry.key;
    var m, m' := Contents(s), Contents(s');
    forall key ensures key in m' <==> key in m && key != k {
      if key in m && key != k {
        var q :| 0 <= q < |s| && s[q].Occupied? && s[q].entry.key == key;
        assert s'[q] == s[q];
      }
    }
    assert forall key | key in m' :: m'[key] == m[key];
  }

  lemma ContentsWith<V>(s: seq<Slot<V>>, p: nat, e: Entry<V>)
    requires UniqueKeys(s) && p < |s|
    requires if s[p].Occupied? then s[p].entry.key == e.key else e.key !in Contents(s)
    ensures UniqueKeys(s[p := Occupied(e)]) && Contents(s[p := Occupied(e)]) == Contents(s)[e.key := e.value]
  {
    hide Contents;
    var s' := s[p := Occupied(e)];
    var m := Contents(s);
    assert forall q | 0 <= q < |s| && q != p && s[q].Occupied? :: s[q].entry.key != e.key;
    var m' := Contents(s');
    forall key ensures key in m' <==> key in m || key == e.key {
      if key in m && key != e.key {
        var q :| 0 <= q < |s| && s[q].Occupied? && s[q].entry.key == key;
        assert s'[q] == s[q];
      }
      if key == e.key {
        assert s'[p].entry.key == key;
      }
    }
    assert m'[e.key] == e.value by { assert s'[p].entry == e; }
    assert forall key | key in m' && key != e.key :: m'[key] == m[key];
  }

  // ---- When setting a key is a map update ----

  /** The first event on the walk of a new entry: a free slot, the key itself, or an entry it would displace. */
  datatype Stop = AtFree(d: nat) | AtKey(d: nat) | Displaces(d: nat) | Nowhere

  function FirstStop<V>(s: seq<Slot<V>>, key: string, hash: nat, d: nat): (r: Stop)
    requires d <= |s|
    ensures !r.Nowhere? ==> d <= r.d < |s|
    decreases |s| - d
  {
    if d == |s| then Nowhere
    else
      var p := SlotAt(|s|, hash, d);
      if !s[p].Occupied? then AtFree(d)
      else if s[p].entry.key == key && s[p].entry.hash == hash then AtKey(d)
      else if d > DistAt(s, p) then Displaces(d)
      else FirstStop(s, key, hash, d + 1)
  }

  /** What the walk has seen before its first stop. */
  lemma {:induction false} BeforeStop<V>(s: seq<Slot<V>>, key: string, hash: nat, d: nat, j: nat)
    requires d <= |s| && !FirstStop(s, key, hash, d).Nowhere?
    requires d <= j < FirstStop(s, key, hash, d).d
    ensures var p := SlotAt(|s|, hash, j);
            && s[p].Occupied? && DistAt(s, p) >= j
            && !(s[p].entry.key == key && s[p].entry.hash == hash)
    decreases |s| - d
  {
    hide Home;
    if d < j {
      BeforeStop(s, key, hash, d + 1, j);
    }
  }

  lemma {:induction false} AtStop<V>(s: seq<Slot<V>>, key: string, hash: nat, d: nat)
    requires d <= |s| && !FirstStop(s, key, hash, d).Nowhere?
    ensures var stop := FirstStop(s, key, hash, d);
            var p := SlotAt(|s|, hash, stop.d);
            match stop
            case AtFree(_) => !s[p].Occupied?
            case AtKey(_) => s[p].Occupied? && s[p].entry.key == key && s[p].entry.hash == hash
            case Displaces(_) => s[p].Occupied? && stop.d > DistAt(s, p) &&
                                 !(s[p].entry.key == key && s[p].entry.hash == hash)
    decreases |s| - d
  {
    hide Home;
    var p := SlotAt(|s|, hash, d);
    if s[p].Occupied? && !(s[p].entry.key == key && s[p].entry.hash == hash) && d <= DistAt(s, p) {
      AtStop(s, key, hash, d + 1);
    }
  }

  /** Placing an entry does nothing before the first stop. */
  lemma {:induction false} PlaceFromStop<V>(s: seq<Slot<V>>, key: string, e: Entry<V>, d: nat)
    requires HasFree(s) && d < |s| && !FirstStop(s, key, e.hash, d).Nowhere?
    ensures Place(s, Some(key), e, d) == Place(s, Some(key), e, FirstStop(s, key, e.hash, d).d)
    decreases |s| - d
  {
    hide Home;
    if FirstStop(s, key, e.hash, d).d != d {
      BeforeStop(s, key, e.hash, d, d);
      PlaceFromStop(s, key, e, d + 1);
    }
  }

  /** On the walk for a stored key nothing is displaced, and only a tombstone can stop it early. */
  lemma StopForStoredKey<V>(s: seq<Slot<V>>, hash: string -> nat, p: nat)
    requires GoodTable(s, hash) && p < |s| && s[p].Occupied?
    ensures var stop := FirstStop(s, s[p].entry.key, s[p].entry.hash, 0);
            || stop == AtKey(DistAt(s, p))
            || (stop.AtFree? && s[SlotAt(|s|, s[p].entry.hash, stop.d)] == Tombstone)
  {
    StopBeforeKey(s, p, 0);
  }

  lemma {:induction false} StopBeforeKey<V>(s: seq<Slot<V>>, p: nat, d: nat)
    requires UniqueKeys(s) && p < |s| && s[p].Occupied? && Reaches(s, p) && d <= DistAt(s, p)
    ensures var stop := FirstStop(s, s[p].entry.key, s[p].entry.hash, d);
            || stop == AtKey(DistAt(s, p))
            || (stop.AtFree? && s[SlotAt(|s|, s[p].entry.hash, stop.d)] == Tombstone)
    decreases |s| - d
  {
    hide Home;
    if d < DistAt(s, p) {
      assert Passable(s, s[p].entry.hash, d);
      assert SlotAt(|s|, s[p].entry.hash, d) != p;
      StopBeforeKey(s, p, d + 1);
    }
  }

  /** Slot `p` lies on the way to some stored entry, at an offset beyond `d`. */
  ghost predicate CrossedBeyond<V>(s: seq<Slot<V>>, p: nat, d: nat) {
    exists q: nat, j: nat :: q < |s| && s[q].Occupied? && d < j < DistAt(s, q) && SlotAt(|s|, s[q].entry.hash, j) == p
  }

  /**
   What a caller can check before setting `key`: the walk meets the key first, or an empty slot, or a
   tombstone that no stored copy of the key lies behind and that no other entry needs at a larger offset.
   */
  ghost predicate SafeToSet<V>(s: seq<Slot<V>>, key: string, hash: nat)
    requires UniqueKeys(s)
  {
    match FirstStop(s, key, hash, 0)
    case AtKey(_) => true
    case AtFree(d) =>
      var p := SlotAt(|s|, hash, d);
      s[p] == Empty || (key !in Contents(s) && !CrossedBeyond(s, p, d))
    case _ => false
  }
}
