/**
 Setting an absent key is a map update exactly when its walk is tame, for any number of displacements and with
 tombstones, as long as the walk does not come round to where it began.

 A walk that stays short of a full round never writes a slot twice. So an entry that jumped over a slot which
 stops its lookups is cut off for good, whatever the walk does later.
 */
module TameExactness {
  import opened Wrappers
  import opened Probe
  import opened RobinHood
  import opened SetExactness
  import opened TableModel
  import opened TableRuns
  import opened TameRuns

  // ---- How far a walk goes ----

  /** How many slots the walk of `e` from offset `d` moves on until it ends, jumps included. */
  ghost function Travel<V>(s: seq<Slot<V>>, key: Option<string>, e: Entry<V>, d: nat): nat
    requires HasFree(s) && d < |s|
    decreases Room(s), Gap(s, SlotAt(|s|, e.hash, d))
  {
    var p := SlotAt(|s|, e.hash, d);
    match s[p]
    case Occupied(x) =>
      if key == Some(x.key) && x.hash == e.hash then 0
      else if d > DistAt(s, p) then
        SwapProgress(s, p, e);
        d - DistAt(s, p) + 1 + Travel(s[p := Occupied(e)], key, x, Next(|s|, d))
      else
        MoveProgress(s, e.hash, d);
        1 + Travel(s, key, e, Next(|s|, d))
    case _ => 0
  }

  /** How many steps forward from slot `p` to slot `q`. */
  function Ahead(capacity: nat, p: nat, q: nat): (n: nat)
    requires p < capacity && q < capacity
    ensures n < capacity
  {
    if q >= p then q - p else q + capacity - p
  }

  lemma AheadFrom(capacity: nat, p: nat, q: nat, z: nat)
    requires p < capacity && q < capacity && z < capacity
    ensures Ahead(capacity, p, q) <= Ahead(capacity, p, z) ==>
            Ahead(capacity, q, z) == Ahead(capacity, p, z) - Ahead(capacity, p, q)
    ensures p != q ==> Ahead(capacity, q, p) == capacity - Ahead(capacity, p, q)
  {}

  lemma SlotsApart(capacity: nat, hash: nat, a: nat, b: nat)
    requires a <= b < capacity
    ensures Ahead(capacity, SlotAt(capacity, hash, a), SlotAt(capacity, hash, b)) == b - a
  {
    hide Home;
  }

  /** One step of a walk that does not come round. */
  lemma WalkStep<V>(s: seq<Slot<V>>, key: Option<string>, e: Entry<V>, d: nat)
    requires HasFree(s) && d < |s| && d + Travel(s, key, e, d) < |s|
    requires var p := SlotAt(|s|, e.hash, d);
             s[p].Occupied? && !(key == Some(s[p].entry.key) && s[p].entry.hash == e.hash)
    ensures var p := SlotAt(|s|, e.hash, d);
            var x, swapped := s[p].entry, s[p := Occupied(e)];
            && d + 1 < |s|
            && if d > DistAt(s, p) then
                 && HasFree(swapped) && Room(swapped) < Room(s)
                 && Place(s, key, e, d) == Place(swapped, key, x, d + 1)
                 && Travel(s, key, e, d) == d - DistAt(s, p) + 1 + Travel(swapped, key, x, d + 1)
                 && Ahead(|s|, p, SlotAt(|s|, x.hash, d + 1)) == d - DistAt(s, p) + 1
               else
                 && Gap(s, SlotAt(|s|, e.hash, d + 1)) < Gap(s, p)
                 && Place(s, key, e, d) == Place(s, key, e, d + 1)
                 && Travel(s, key, e, d) == 1 + Travel(s, key, e, d + 1)
                 && Ahead(|s|, p, SlotAt(|s|, e.hash, d + 1)) == 1
  {
    hide SlotAt, Place, Room, Gap, Ahead;
    var p := SlotAt(|s|, e.hash, d);
    PlaceUnfold(s, key, e, d);
    if d > DistAt(s, p) {
      SwapStep(s, e, d);
      SlotsApart(|s|, s[p].entry.hash, DistAt(s, p), d + 1);
    } else {
      MoveProgress(s, e.hash, d);
      SlotsApart(|s|, e.hash, d, d + 1);
    }
  }

  // ---- What a walk that does not come round leaves alone ----

  /** No slot from the walk's position to its end holds the key that is being set. */
  ghost predicate KeyBehind<V>(s: seq<Slot<V>>, key: Option<string>, p: nat, n: nat)
    requires p < |s|
  {
    forall z: nat | z < |s| && s[z].Occupied? && key == Some(s[z].entry.key) :: Ahead(|s|, p, z) > n
  }

  /** A walk that does not come round to the key replaces nothing. */
  lemma {:induction false} NothingMet<V>(s: seq<Slot<V>>, key: Option<string>, e: Entry<V>, d: nat)
    requires HasFree(s) && d < |s| && d + Travel(s, key, e, d) < |s|
    requires KeyBehind(s, key, SlotAt(|s|, e.hash, d), Travel(s, key, e, d))
    ensures Place(s, key, e, d).outcome != Replaced
    decreases Room(s), Gap(s, SlotAt(|s|, e.hash, d))
  {
    hide SlotAt, Place, Room, Gap, Travel, Dist;
    var p := SlotAt(|s|, e.hash, d);
    if s[p].Occupied? {
      assert Ahead(|s|, p, p) == 0;
      WalkStep(s, key, e, d);
      var x := s[p].entry;
      if d > DistAt(s, p) {
        var swapped, q := s[p := Occupied(e)], SlotAt(|s|, x.hash, d + 1);
        forall z: nat | z < |s| && swapped[z].Occupied? && key == Some(swapped[z].entry.key)
          ensures Ahead(|s|, q, z) > Travel(swapped, key, x, d + 1)
        {
          AheadFrom(|s|, p, q, z);
        }
        NothingMet(swapped, key, x, d + 1);
      } else {
        var q := SlotAt(|s|, e.hash, d + 1);
        forall z: nat | z < |s| && s[z].Occupied? && key == Some(s[z].entry.key)
          ensures Ahead(|s|, q, z) > Travel(s, key, e, d + 1)
        {
          AheadFrom(|s|, p, q, z);
        }
        NothingMet(s, key, e, d + 1);
      }
    } else {
      PlaceUnfold(s, key, e, d);
    }
  }

  /** Slots beyond the end of the walk stay as they are. */
  lemma {:induction false} Untouched<V>(s: seq<Slot<V>>, key: Option<string>, e: Entry<V>, d: nat, z: nat)
    requires HasFree(s) && d < |s| && d + Travel(s, key, e, d) < |s|
    requires Place(s, key, e, d).outcome != Replaced
    requires z < |s| && Ahead(|s|, SlotAt(|s|, e.hash, d), z) > Travel(s, key, e, d)
    ensures Place(s, key, e, d).slots[z] == s[z]
    decreases Room(s), Gap(s, SlotAt(|s|, e.hash, d))
  {
    hide SlotAt, Place, Room, Gap, Travel, Dist;
    var p := SlotAt(|s|, e.hash, d);
    PlaceUnfold(s, key, e, d);
    if s[p].Occupied? {
      WalkStep(s, key, e, d);
      var x := s[p].entry;
      if d > DistAt(s, p) {
        AheadFrom(|s|, p, SlotAt(|s|, x.hash, d + 1), z);
        Untouched(s[p := Occupied(e)], key, x, d + 1, z);
      } else {
        AheadFrom(|s|, p, SlotAt(|s|, e.hash, d + 1), z);
        Untouched(s, key, e, d + 1, z);
      }
    }
  }

  /** The carried entry ends up at its present offset or a later one. */
  lemma {:induction false} Lands<V>(s: seq<Slot<V>>, key: Option<string>, e: Entry<V>, d: nat) returns (f: nat)
    requires HasFree(s) && d < |s| && d + Travel(s, key, e, d) < |s|
    requires Place(s, key, e, d).outcome != Replaced
    ensures d <= f < |s| && Place(s, key, e, d).slots[SlotAt(|s|, e.hash, f)] == Occupied(e)
    decreases Room(s), Gap(s, SlotAt(|s|, e.hash, d))
  {
    hide SlotAt, Place, Room, Gap, Travel, Dist;
    var p := SlotAt(|s|, e.hash, d);
    PlaceUnfold(s, key, e, d);
    f := d;
    if s[p].Occupied? {
      WalkStep(s, key, e, d);
      var x := s[p].entry;
      if d > DistAt(s, p) {
        AheadFrom(|s|, p, SlotAt(|s|, x.hash, d + 1), p);
        Untouched(s[p := Occupied(e)], key, x, d + 1, p);
      } else {
        f := Lands(s, key, e, d + 1);
      }
    }
  }

  /** A slot that stops the carried entry's lookups, behind the walk, cuts that entry off. */
  lemma ClosedStaysClosed<V>(s: seq<Slot<V>>, key: Option<string>, e: Entry<V>, d: nat, j: nat)
    requires HasFree(s) && d < |s| && d + Travel(s, key, e, d) < |s|
    requires Place(s, key, e, d).outcome != Replaced
    requires j < d && !Passable(s, e.hash, j) && d - j + Travel(s, key, e, d) < |s|
    ensures !AllReachable(Place(s, key, e, d).slots)
  {
    hide SlotAt, Place, Room, Gap, Travel, Dist;
    var r := Place(s, key, e, d).slots;
    var p, z := SlotAt(|s|, e.hash, d), SlotAt(|s|, e.hash, j);
    SlotsApart(|s|, e.hash, j, d);
    AheadFrom(|s|, z, p, z);
    Untouched(s, key, e, d, z);
    assert !Passable(r, e.hash, j);
    var f := Lands(s, key, e, d);
    var q := SlotAt(|s|, e.hash, f);
    DistOfSlotAt(|s|, e.hash, f);
    assert DistAt(r, q) == f;
    assert !Reaches(r, q);
  }

  // ---- Exactness ----

  /** A walk that is not tame leaves an entry that no lookup reaches. */
  lemma {:induction false} WildBreaks<V>(s: seq<Slot<V>>, hash: string -> nat, key: Option<string>, e: Entry<V>, d: nat)
    requires GoodTable(s, hash) && e.hash == hash(e.key) && e.key !in Contents(s)
    requires HasFree(s) && d < |s| && OpenTo(s, e.hash, d) && d + Travel(s, key, e, d) < |s|
    requires Place(s, key, e, d).outcome != Replaced && !Tame(s, key, e, d)
    ensures !AllReachable(Place(s, key, e, d).slots)
    decreases Room(s), Gap(s, SlotAt(|s|, e.hash, d))
  {
    hide *;
    var p := SlotAt(|s|, e.hash, d);
    PlaceUnfold(s, key, e, d);
    WildStep(s, key, e, d);
    if !s[p].Occupied? {
      GoodParts(s, hash);
      OpenPassable(s, e.hash, d);
      FillKeepsReachable(s, p, e, d);
    } else {
      WalkStep(s, key, e, d);
      var x, swapped := s[p].entry, s[p := Occupied(e)];
      if d <= DistAt(s, p) {
        PassedBy(s, e.hash, d);
        WildBreaks(s, hash, key, e, d + 1);
      } else if OpenBetween(swapped, x.hash, DistAt(s, p), d) {
        SwapKeepsGood(s, hash, e, d);
        WildBreaks(swapped, hash, key, x, d + 1);
      } else {
        var j := FirstClosed(swapped, x.hash, DistAt(s, p), d);
        ClosedStaysClosed(swapped, key, x, d + 1, j);
      }
    }
  }

  lemma OpenPassable<V>(s: seq<Slot<V>>, hash: nat, d: nat)
    requires d <= |s| && OpenTo(s, hash, d)
    ensures forall j: nat | j < d :: Passable(s, hash, j)
  {}

  lemma FirstClosed<V>(s: seq<Slot<V>>, hash: nat, d: nat, to: nat) returns (j: nat)
    requires to < |s| && !OpenBetween(s, hash, d, to)
    ensures d < j <= to && !Passable(s, hash, j)
  {
    hide Passable;
    j :| d < j <= to && !Passable(s, hash, j);
  }

  /** Why a walk is not tame: here, or later. */
  lemma WildStep<V>(s: seq<Slot<V>>, key: Option<string>, e: Entry<V>, d: nat)
    requires HasFree(s) && d < |s| && d + Travel(s, key, e, d) < |s|
    requires Place(s, key, e, d).outcome != Replaced && !Tame(s, key, e, d)
    ensures var p := SlotAt(|s|, e.hash, d);
            var swapped := s[p := Occupied(e)];
            if !s[p].Occupied? then CrossedBeyond(s, p, d)
            else
              var x := s[p].entry;
              && !(key == Some(x.key) && x.hash == e.hash) && d + 1 < |s|
              && if d > DistAt(s, p) then
                   HasFree(swapped) && (OpenBetween(swapped, x.hash, DistAt(s, p), d) ==> !Tame(swapped, key, x, d + 1))
                 else !Tame(s, key, e, d + 1)
  {
    hide SlotAt, Place, Room, Gap, Travel, OpenBetween, CrossedBeyond, Dist;
    var p := SlotAt(|s|, e.hash, d);
    PlaceUnfold(s, key, e, d);
    if s[p].Occupied? {
      WalkStep(s, key, e, d);
    }
  }

  /** The key that is being set is stored nowhere. */
  lemma AbsentIsBehind<V>(s: seq<Slot<V>>, key: Option<string>, p: nat, n: nat)
    requires UniqueKeys(s) && p < |s| && (key.None? || key.value !in Contents(s))
    ensures KeyBehind(s, key, p, n)
  {
    hide Contents;
  }

  /**
   Placing an absent key is a map update if and only if its walk is tame, however many entries it displaces, as
   long as the walk does not come round to where it began.
   */
  lemma TameExact<V>(s: seq<Slot<V>>, hash: string -> nat, key: Option<string>, e: Entry<V>, d: nat)
    requires GoodTable(s, hash) && e.hash == hash(e.key) && e.key !in Contents(s)
    requires key.None? || key.value !in Contents(s)
    requires HasFree(s) && d < |s| && OpenTo(s, e.hash, d) && d + Travel(s, key, e, d) < |s|
    ensures IsUpdate(s, Place(s, key, e, d).slots, hash, e.key, e.value) <==> Tame(s, key, e, d)
  {
    hide *;
    GoodParts(s, hash);
    if Tame(s, key, e, d) {
      TamePlace(s, hash, key, e, d);
    } else {
      AbsentIsBehind(s, key, SlotAt(|s|, e.hash, d), Travel(s, key, e, d));
      NothingMet(s, key, e, d);
      WildBreaks(s, hash, key, e, d);
      UpdateIsReachable(s, Place(s, key, e, d).slots, hash, e.key, e.value);
    }
  }

  lemma UpdateIsReachable<V>(s: seq<Slot<V>>, s': seq<Slot<V>>, hash: string -> nat, key: string, value: V)
    requires UniqueKeys(s)
    ensures IsUpdate(s, s', hash, key, value) ==> AllReachable(s')
  {}

  // ---- One displacement, even on a walk that comes round ----

  /** In the slots that the displaced entry jumps over, the new entry makes no difference. */
  lemma SkippedUnchanged<V>(s: seq<Slot<V>>, p: nat, e: Entry<V>, d: nat)
    requires p < |s| && s[p].Occupied? && d < |s|
    ensures OpenBetween(s, s[p].entry.hash, DistAt(s, p), d) <==>
            OpenBetween(s[p := Occupied(e)], s[p].entry.hash, DistAt(s, p), d)
  {
    hide SlotAt, Dist;
    var h, swapped := s[p].entry.hash, s[p := Occupied(e)];
    forall j: nat | DistAt(s, p) < j <= d ensures Passable(s, h, j) <==> Passable(swapped, h, j) {
      DistOfSlotAt(|s|, h, j);
    }
  }

  /** An entry put at offset `f` is reachable, with all others, exactly if its way is open and nobody needs the slot. */
  lemma LandingExact<V>(s: seq<Slot<V>>, key: string, x: Entry<V>, d: nat, from: nat, f: nat)
    requires AllReachable(s) && from <= d && d + 1 <= f < |s| && !s[SlotAt(|s|, x.hash, f)].Occupied?
    requires OpenBetween(s, x.hash, from, d) ==> OpenTo(s, x.hash, d + 1)
    requires FirstStop(s, key, x.hash, d + 1) == AtFree(f)
    ensures var q := SlotAt(|s|, x.hash, f);
            AllReachable(s[q := Occupied(x)]) <==> OpenBetween(s, x.hash, from, d) && !CrossedBeyond(s, q, f)
  {
    hide SlotAt, Dist, AllReachable, CrossedBeyond, FirstStop;
    var q := SlotAt(|s|, x.hash, f);
    var r := s[q := Occupied(x)];
    if OpenBetween(s, x.hash, from, d) {
      forall j: nat | j < f ensures Passable(s, x.hash, j) {
        if j > d {
          BeforeStop(s, key, x.hash, d + 1, j);
        }
      }
      FillKeepsReachable(s, q, x, f);
    } else {
      var j := FirstClosed(s, x.hash, from, d);
      DistOfSlotAt(|s|, x.hash, j);
      DistOfSlotAt(|s|, x.hash, f);
      assert DistAt(r, q) == f && !Passable(r, x.hash, j);
      Unreached(r, q, j);
    }
  }

  lemma Unreached<V>(s: seq<Slot<V>>, q: nat, j: nat)
    requires q < |s| && s[q].Occupied? && j < DistAt(s, q) && !Passable(s, s[q].entry.hash, j)
    ensures !AllReachable(s)
  {
    assert !Reaches(s, q);
  }

  /**
   If the walk for a key displaces one entry, which then lands in a free slot, setting the key is a map update if
   and only if the slots the displaced entry jumped over are open to it and no other entry needs the slot where it
   lands at a larger offset. An empty slot nobody needs.
   */
  lemma SetWithOneDisplacement<V>(s: seq<Slot<V>>, hash: string -> nat, key: string, value: V)
    requires GoodTable(s, hash) && HasFree(s)
    requires FirstStop(s, key, hash(key), 0).Displaces?
    ensures var d := FirstStop(s, key, hash(key), 0).d;
            var p := SlotAt(|s|, hash(key), d);
            && s[p].Occupied? && d + 1 < |s|
            && var e, x := Entry(key, value, hash(key)), s[p].entry;
               var swapped := s[p := Occupied(e)];
               var stop := FirstStop(swapped, key, x.hash, d + 1);
               stop.AtFree? ==>
               (IsUpdate(s, Place(s, Some(key), e, 0).slots, hash, key, value) <==>
                OpenBetween(s, x.hash, DistAt(s, p), d) && !CrossedBeyond(swapped, SlotAt(|s|, x.hash, stop.d), stop.d))
  {
    hide *;
    var h := hash(key);
    var e := Entry(key, value, h);
    var d := FirstStop(s, key, h, 0).d;
    AtStop(s, key, h, 0);
    FreeBeyond(s, key, h);
    GoodParts(s, hash);
    AbsentIfDisplacing(s, hash, key);
    WayToStop(s, key, h);
    WayIsOpen(s, h, d);
    var p := SlotAt(|s|, h, d);
    var x, swapped := s[p].entry, s[p := Occupied(e)];
    SwapKeepsGood(s, hash, e, d);
    SkippedUnchanged(s, p, e, d);
    var stop := FirstStop(swapped, key, x.hash, d + 1);
    if stop.AtFree? {
      AtStop(swapped, key, x.hash, d + 1);
      PlaceDisplaces(s, key, e, d);
      var q := SlotAt(|s|, x.hash, stop.d);
      DisplacedIsSwap(s, p, e, q);
      GoodParts(swapped, hash);
      LandingExact(swapped, key, x, d, DistAt(s, p), stop.d);
      ContentsWith(swapped, q, x);
      var r := swapped[q := Occupied(x)];
      PutKeepsHashes(swapped, hash, q, x);
      GoodParts(r, hash);
      UpdateParts(s, r, hash, key, value);
    }
  }

  lemma WayIsOpen<V>(s: seq<Slot<V>>, hash: nat, d: nat)
    requires d <= |s| && forall j: nat | j < d :: Passable(s, hash, j)
    ensures OpenTo(s, hash, d)
  {}

  lemma DisplacedIsSwap<V>(s: seq<Slot<V>>, p: nat, e: Entry<V>, q: nat)
    requires p < |s| && q < |s| && s[p].Occupied?
    ensures Displaced(s, p, e, q) == s[p := Occupied(e)][q := Occupied(s[p].entry)]
  {}

  lemma PutKeepsHashes<V>(s: seq<Slot<V>>, hash: string -> nat, q: nat, x: Entry<V>)
    requires WellHashed(s, hash) && q < |s| && x.hash == hash(x.key)
    ensures WellHashed(s[q := Occupied(x)], hash)
  {}

  lemma UpdateParts<V>(s: seq<Slot<V>>, r: seq<Slot<V>>, hash: string -> nat, key: string, value: V)
    requires UniqueKeys(s) && UniqueKeys(r)
    ensures IsUpdate(s, r, hash, key, value) <==>
            GoodTable(r, hash) && Contents(r) == Contents(s)[key := value]
  {}

  // ---- Sets of any key ----

  /** Setting a stored key is a map update if and only if its walk meets the key, before any tombstone. */
  lemma StoredKeyExact<V>(s: seq<Slot<V>>, hash: string -> nat, key: string, value: V)
    requires GoodTable(s, hash) && HasFree(s) && key in Contents(s)
    ensures IsUpdate(s, Place(s, Some(key), Entry(key, value, hash(key)), 0).slots, hash, key, value) <==>
            FirstStop(s, key, hash(key), 0).AtKey?
    ensures Find(s, key, hash(key), 0).Some?
  {
    hide Contents, IsUpdate, Place, FirstStop, Find, AllReachable, WellHashed, SlotAt;
    FindIsMapLookup(s, hash, key);
    var p :| 0 <= p < |s| && s[p].Occupied? && s[p].entry.key == key;
    StopForStoredKey(s, hash, p);
    assert s[p].entry.hash == hash(key) by { HashOfStored(s, hash, p); }
    if FirstStop(s, key, hash(key), 0).AtKey? {
      SetAtKey(s, hash, key, value);
    } else {
      SetAtFree(s, hash, key, value);
    }
  }

  lemma HashOfStored<V>(s: seq<Slot<V>>, hash: string -> nat, p: nat)
    requires WellHashed(s, hash) && p < |s| && s[p].Occupied?
    ensures s[p].entry.hash == hash(s[p].entry.key)
  {}

  /** If the key is not stored, the walk of a set does not come round to its start. */
  ghost predicate StaysShort<V>(t: Table<V>, hash: string -> nat, key: string, value: V)
    requires Valid(t)
  {
    var r := MadeRoom(t).slots;
    Find(r, key, hash(key), 0) == None ==> Travel(r, Some(key), Entry(key, value, hash(key)), 0) < |r|
  }

  /**
   The table's set, whether or not it grows the table first, is a map update if and only if it is tame: on a stored
   key if its walk meets the key, and on an absent one, whose walk does not come round, if that walk is tame.
   */
  lemma SetExact<V>(t: Table<V>, hash: string -> nat, key: string, value: V)
    requires Valid(t) && GoodTable(t.slots, hash)
    requires Overloaded(t) ==> TameResize(t, 2 * |t.slots|)
    requires StaysShort(t, hash, key, value)
    ensures UniqueKeys(t.slots)
    ensures IsUpdate(t.slots, Set(t, hash, key, value).0.slots, hash, key, value) <==>
            TameOp(t, hash, SetOp(key, value))
  {
    hide GoodTable, Contents, MadeRoom, Tame, FirstStop, Find, OpenTo, UniqueKeys, Valid, Travel, Place;
    MadeRoomKeepsMap(t, hash);
    GoodParts(t.slots, hash);
    var r, h := MadeRoom(t).slots, hash(key);
    GoodParts(r, hash);
    FindIsMapLookup(r, hash, key);
    if key in Contents(r) {
      StoredKeyExact(r, hash, key, value);
    } else {
      NothingBehind(r, h);
      NotFoundIsNotMet(r, hash, key);
      TameExact(r, hash, Some(key), Entry(key, value, h), 0);
    }
  }

  lemma NotFoundIsNotMet<V>(s: seq<Slot<V>>, hash: string -> nat, key: string)
    requires GoodTable(s, hash) && key !in Contents(s)
    ensures !FirstStop(s, key, hash(key), 0).AtKey?
  {
    hide Contents, SlotAt;
    if FirstStop(s, key, hash(key), 0).AtKey? {
      AtStop(s, key, hash(key), 0);
    }
  }

  /**
   In a run that was tame so far, the next set leaves the map of the run if and only if the run stays tame. So a run
   that resurrects a key stops being tame where the second copy of the key is made.
   */
  lemma RunExact<V>(hash: string -> nat, ops: seq<Op<V>>, key: string, value: V)
    requires TameRun(hash, ops)
    requires var t := Run(hash, ops);
             (Overloaded(t) ==> TameResize(t, 2 * |t.slots|)) && StaysShort(t, hash, key, value)
    ensures var all := ops + [SetOp(key, value)];
            GoodTable(Run(hash, all).slots, hash) && Contents(Run(hash, all).slots) == MapRun(all) <==>
            TameRun(hash, all)
  {
    hide GoodTable, Contents, StaysShort, TameOp, Valid, Set, Run, TameResize;
    var op := SetOp(key, value);
    var all := ops + [op];
    var t := Run(hash, ops);
    assert all[..|ops|] == ops && all[|ops|] == op;
    TameRunIsMap(hash, ops, key);
    RunStep(hash, ops, op);
    SetExact(t, hash, key, value);
    ApplySet(t, hash, key, value);
  }
}
