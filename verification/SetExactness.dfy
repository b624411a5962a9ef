/**
 When setting a key in the slot array is a map update.

 The table promises that `GET` after `SET` finds the value and that other keys are left alone. The lemmas
 here say exactly when the probe loop, as written, keeps that promise.
 */
module SetExactness {
  import opened Wrappers
  import opened Probe
  import opened RobinHood

  /** The outcome a caller of set expects: a good table that maps the key to the value and is otherwise unchanged. */
  ghost predicate IsUpdate<V>(s: seq<Slot<V>>, s': seq<Slot<V>>, hash: string -> nat, key: string, value: V)
    requires UniqueKeys(s)
  {
    GoodTable(s', hash) && Contents(s') == Contents(s)[key := value]
  }

  /** A walk that meets the key replaces its value. */
  lemma SetAtKey<V>(s: seq<Slot<V>>, hash: string -> nat, key: string, value: V)
    requires GoodTable(s, hash) && HasFree(s)
    requires FirstStop(s, key, hash(key), 0).AtKey?
    ensures IsUpdate(s, Place(s, Some(key), Entry(key, value, hash(key)), 0).slots, hash, key, value)
  {
    hide Home, Contents;
    var h := hash(key);
    var d := FirstStop(s, key, h, 0).d;
    AtStop(s, key, h, 0);
    PlaceFromStop(s, key, Entry(key, value, h), 0);
    var p := SlotAt(|s|, h, d);
    var e := s[p].entry.(value := value);
    assert Place(s, Some(key), Entry(key, value, h), 0).slots == s[p := Occupied(e)];
    ContentsWith(s, p, e);
    ReplacedInPlace(s, p, e);
  }

  lemma ReplacedInPlace<V>(s: seq<Slot<V>>, p: nat, e: Entry<V>)
    requires AllReachable(s) && p < |s| && s[p].Occupied? && s[p].entry.hash == e.hash
    ensures AllReachable(s[p := Occupied(e)])
  {
    hide SlotAt;
    var s' := s[p := Occupied(e)];
    forall q | 0 <= q < |s'| && s'[q].Occupied? ensures Reaches(s', q) {
      assert Reaches(s, q);
      assert forall j: nat | j < DistAt(s, q) && Passable(s, s[q].entry.hash, j) :: Passable(s', s'[q].entry.hash, j);
    }
  }

  /**
   Filling a free slot at offset `d` of an open way keeps every entry findable, the new one included, exactly
   when no other entry needs that slot at a larger offset.
   */
  lemma FillKeepsReachable<V>(s: seq<Slot<V>>, p: nat, e: Entry<V>, d: nat)
    requires AllReachable(s) && d < |s| && p == SlotAt(|s|, e.hash, d) && !s[p].Occupied?
    requires forall j: nat | j < d :: Passable(s, e.hash, j)
    ensures AllReachable(s[p := Occupied(e)]) <==> !CrossedBeyond(s, p, d)
  {
    hide Home, SlotAt;
    var s' := s[p := Occupied(e)];
    DistOfSlotAt(|s|, e.hash, d);
    assert DistAt(s', p) == d;
    forall j: nat | j < d ensures Passable(s', e.hash, j) {
      assert Passable(s, e.hash, j);
    }
    assert Reaches(s', p);
    forall q: nat | q < |s| && q != p && s[q].Occupied?
      ensures Reaches(s', q) <==>
              forall j: nat | d < j < DistAt(s, q) :: SlotAt(|s|, s[q].entry.hash, j) != p
    {
      assert Reaches(s, q);
      forall j: nat | j < DistAt(s, q)
        ensures Passable(s', s[q].entry.hash, j) <==> (SlotAt(|s|, s[q].entry.hash, j) == p ==> j <= d)
      {
        assert Passable(s, s[q].entry.hash, j);
      }
    }
  }

  /** An empty slot lies on no stored entry's way. */
  lemma EmptyIsUncrossed<V>(s: seq<Slot<V>>, p: nat, d: nat)
    requires AllReachable(s) && p < |s| && s[p] == Empty
    ensures !CrossedBeyond(s, p, d)
  {
    hide SlotAt;
    forall q: nat, j: nat | q < |s| && s[q].Occupied? && d < j < DistAt(s, q)
      ensures SlotAt(|s|, s[q].entry.hash, j) != p
    {
      assert Reaches(s, q);
      assert Passable(s, s[q].entry.hash, j);
    }
  }

  lemma WayToStop<V>(s: seq<Slot<V>>, key: string, hash: nat)
    requires !FirstStop(s, key, hash, 0).Nowhere?
    ensures forall j: nat | j < FirstStop(s, key, hash, 0).d :: Passable(s, hash, j)
  {
    forall j: nat | j < FirstStop(s, key, hash, 0).d ensures Passable(s, hash, j) {
      BeforeStop(s, key, hash, 0, j);
    }
  }

  /** A walk that ends at a free slot is a map update exactly when it was safe to set the key. */
  lemma SetAtFree<V>(s: seq<Slot<V>>, hash: string -> nat, key: string, value: V)
    requires GoodTable(s, hash) && HasFree(s)
    requires FirstStop(s, key, hash(key), 0).AtFree?
    ensures IsUpdate(s, Place(s, Some(key), Entry(key, value, hash(key)), 0).slots, hash, key, value)
            <==> SafeToSet(s, key, hash(key))
  {
    hide Home, SlotAt, Contents;
    var h := hash(key);
    var e := Entry(key, value, h);
    var d := FirstStop(s, key, h, 0).d;
    var p := SlotAt(|s|, h, d);
    AtStop(s, key, h, 0);
    WayToStop(s, key, h);
    PlaceFromStop(s, key, e, 0);
    var s' := s[p := Occupied(e)];
    assert Place(s, Some(key), e, 0).slots == s';
    FillKeepsReachable(s, p, e, d);
    if key in Contents(s) {
      var q :| 0 <= q < |s| && s[q].Occupied? && s[q].entry.key == key;
      StopForStoredKey(s, hash, q);
      assert s'[q] == s[q] && s'[p].entry.key == key;
      assert !UniqueKeys(s');
    } else {
      if s[p] == Empty {
        EmptyIsUncrossed(s, p, d);
      }
      ContentsWith(s, p, e);
    }
  }

  /**
   If the walk for a key displaces nobody, setting the key is a map update if and only if it was safe: the
   key came first, or an empty slot, or a tombstone with no copy of the key behind it and no entry that needs
   the slot at a larger offset. Without tombstones it is always safe.
   */
  lemma SetWithoutDisplacement<V>(s: seq<Slot<V>>, hash: string -> nat, key: string, value: V)
    requires GoodTable(s, hash) && HasFree(s)
    requires FirstStop(s, key, hash(key), 0).AtFree? || FirstStop(s, key, hash(key), 0).AtKey?
    ensures IsUpdate(s, Place(s, Some(key), Entry(key, value, hash(key)), 0).slots, hash, key, value)
            <==> SafeToSet(s, key, hash(key))
    ensures Tombstone !in s ==> SafeToSet(s, key, hash(key))
  {
    hide Home, SlotAt, Place, Contents;
    if FirstStop(s, key, hash(key), 0).AtKey? {
      SetAtKey(s, hash, key, value);
    } else {
      SetAtFree(s, hash, key, value);
      AtStop(s, key, hash(key), 0);
    }
  }

  // ---- Displacing an entry ----

  /** The array after the new entry took slot `p` and the displaced entry `x` landed in slot `q`. */
  function Displaced<V>(s: seq<Slot<V>>, p: nat, e: Entry<V>, q: nat): seq<Slot<V>>
    requires p < |s| && q < |s| && s[p].Occupied?
  {
    s[p := Occupied(e)][q := Occupied(s[p].entry)]
  }

  lemma FreeBeyond<V>(s: seq<Slot<V>>, key: string, hash: nat)
    requires HasFree(s) && FirstStop(s, key, hash, 0).Displaces?
    ensures FirstStop(s, key, hash, 0).d + 1 < |s|
  {
    hide Home, SlotAt;
    var d := FirstStop(s, key, hash, 0).d;
    var free := SomeFree(s);
    var j := Dist(|s|, hash, free);
    AtStop(s, key, hash, 0);
    if j < d {
      BeforeStop(s, key, hash, 0, j);
    }
  }

  lemma AbsentIfDisplacing<V>(s: seq<Slot<V>>, hash: string -> nat, key: string)
    requires GoodTable(s, hash) && FirstStop(s, key, hash(key), 0).Displaces?
    ensures key !in Contents(s)
  {
    hide Contents;
    if key in Contents(s) {
      var r :| 0 <= r < |s| && s[r].Occupied? && s[r].entry.key == key;
      StopForStoredKey(s, hash, r);
    }
  }

  /** What the loop does when it displaces one entry that lands in a free slot. */
  lemma PlaceDisplaces<V>(s: seq<Slot<V>>, key: string, e: Entry<V>, d: nat)
    requires HasFree(s) && FirstStop(s, key, e.hash, 0) == Displaces(d) && d + 1 < |s|
    ensures var p := SlotAt(|s|, e.hash, d);
            && s[p].Occupied?
            && var stop := FirstStop(s[p := Occupied(e)], key, s[p].entry.hash, d + 1);
               stop.AtFree? ==>
               Place(s, Some(key), e, 0).slots == Displaced(s, p, e, SlotAt(|s|, s[p].entry.hash, stop.d))
  {
    hide Home, SlotAt, Place, FirstStop;
    AtStop(s, key, e.hash, 0);
    PlaceFromStop(s, key, e, 0);
    var p := SlotAt(|s|, e.hash, d);
    PlaceSwaps(s, key, e, d);
    if FirstStop(s[p := Occupied(e)], key, s[p].entry.hash, d + 1).AtFree? {
      PlaceLands(s[p := Occupied(e)], key, s[p].entry, d + 1);
    }
  }

  lemma PlaceSwaps<V>(s: seq<Slot<V>>, key: string, e: Entry<V>, d: nat)
    requires HasFree(s) && d + 1 < |s|
    requires var p := SlotAt(|s|, e.hash, d);
             && s[p].Occupied? && d > DistAt(s, p)
             && !(s[p].entry.key == key && s[p].entry.hash == e.hash)
    ensures var p := SlotAt(|s|, e.hash, d);
            && HasFree(s[p := Occupied(e)])
            && Place(s, Some(key), e, d) == Place(s[p := Occupied(e)], Some(key), s[p].entry, d + 1)
  {
    hide Home, SlotAt;
    DistOfSlotAt(|s|, e.hash, d);
    SwapProgress(s, SlotAt(|s|, e.hash, d), e);
  }

  lemma PlaceLands<V>(s: seq<Slot<V>>, key: string, e: Entry<V>, d: nat)
    requires HasFree(s) && d < |s| && FirstStop(s, key, e.hash, d).AtFree?
    ensures Place(s, Some(key), e, d).slots ==
            s[SlotAt(|s|, e.hash, FirstStop(s, key, e.hash, d).d) := Occupied(e)]
  {
    hide Home, SlotAt, FirstStop;
    AtStop(s, key, e.hash, d);
    PlaceFromStop(s, key, e, d);
  }
}
