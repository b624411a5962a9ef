/**
 When the hash table, as written, is a map over a whole run.

 The probe loop of set and resize goes wrong only where it jumps a displaced entry over a slot that would stop a
 lookup, or fills a tombstone that another entry needs. A run that never does is called tame here; nothing else
 is asked of it, and it may displace, grow and shrink as it likes.
 */
module TameRuns {
  import opened Wrappers
  import opened Probe
  import opened RobinHood
  import opened SetExactness
  import opened TableModel
  import opened TableRuns

  /** A lookup for `hash` gets at least to offset `d`. */
  ghost predicate OpenTo<V>(s: seq<Slot<V>>, hash: nat, d: nat)
    requires d <= |s|
  {
    forall j: nat | j < d :: Passable(s, hash, j)
  }

  /** A lookup for `hash` walks past the offsets after `d` up to `to`. */
  ghost predicate OpenBetween<V>(s: seq<Slot<V>>, hash: nat, d: nat, to: nat)
    requires to < |s|
  {
    forall j: nat | d < j <= to :: Passable(s, hash, j)
  }

  /** Every displaced entry jumps over open slots only, and the last one lands where no other entry's way goes. */
  ghost predicate Tame<V>(s: seq<Slot<V>>, key: Option<string>, e: Entry<V>, d: nat)
    requires HasFree(s) && d < |s|
    decreases Room(s), Gap(s, SlotAt(|s|, e.hash, d))
  {
    var p := SlotAt(|s|, e.hash, d);
    match s[p]
    case Empty => true
    case Tombstone => !CrossedBeyond(s, p, d)
    case Occupied(x) =>
      && !(key == Some(x.key) && x.hash == e.hash)
      && d + 1 < |s|
      && if d > DistAt(s, p) then
           var swapped := s[p := Occupied(e)];
           SwapProgress(s, p, e);
           OpenBetween(swapped, x.hash, DistAt(s, p), d) && Tame(swapped, key, x, d + 1)
         else
           MoveProgress(s, e.hash, d);
           Tame(s, key, e, d + 1)
  }

  /** A swap at offset `d` keeps the table good, and if it is tame, leaves the way of the displaced entry open. */
  lemma SwapKeepsGood<V>(s: seq<Slot<V>>, hash: string -> nat, e: Entry<V>, d: nat)
    requires GoodTable(s, hash) && e.hash == hash(e.key) && e.key !in Contents(s)
    requires d + 1 < |s| && OpenTo(s, e.hash, d)
    requires var p := SlotAt(|s|, e.hash, d); s[p].Occupied? && d > DistAt(s, p)
    ensures var p := SlotAt(|s|, e.hash, d);
            var x, swapped := s[p].entry, s[p := Occupied(e)];
            && GoodTable(swapped, hash) && x.hash == hash(x.key) && x.key !in Contents(swapped)
            && Contents(swapped)[x.key := x.value] == Contents(s)[e.key := e.value]
            && (OpenBetween(swapped, x.hash, DistAt(s, p), d) ==> OpenTo(swapped, x.hash, d + 1))
  {
    hide *;
    var p := SlotAt(|s|, e.hash, d);
    var x := s[p].entry;
    GoodParts(s, hash);
    SwapContents(s, hash, p, e);
    SwapReaches(s, hash, e, d);
    if OpenBetween(s[p := Occupied(e)], x.hash, DistAt(s, p), d) {
      SwapOpens(s, hash, e, d);
    }
    GoodParts(s[p := Occupied(e)], hash);
  }

  lemma GoodParts<V>(s: seq<Slot<V>>, hash: string -> nat)
    ensures GoodTable(s, hash) <==> UniqueKeys(s) && WellHashed(s, hash) && AllReachable(s)
  {}

  lemma SwapContents<V>(s: seq<Slot<V>>, hash: string -> nat, p: nat, e: Entry<V>)
    requires UniqueKeys(s) && WellHashed(s, hash) && e.hash == hash(e.key)
    requires p < |s| && s[p].Occupied? && e.key !in Contents(s)
    ensures var x, swapped := s[p].entry, s[p := Occupied(e)];
            && UniqueKeys(swapped) && WellHashed(swapped, hash) && x.hash == hash(x.key)
            && x.key !in Contents(swapped)
            && Contents(swapped)[x.key := x.value] == Contents(s)[e.key := e.value]
  {
    hide Contents;
    var x := s[p].entry;
    assert x.key in Contents(s);
    ContentsWithout(s, p);
    var removed := s[p := Tombstone];
    ContentsWith(removed, p, e);
    assert removed[p := Occupied(e)] == s[p := Occupied(e)];
  }

  lemma SwapReaches<V>(s: seq<Slot<V>>, hash: string -> nat, e: Entry<V>, d: nat)
    requires AllReachable(s) && d < |s| && OpenTo(s, e.hash, d)
    requires var p := SlotAt(|s|, e.hash, d); s[p].Occupied? && d > DistAt(s, p)
    ensures AllReachable(s[SlotAt(|s|, e.hash, d) := Occupied(e)])
  {
    hide Home, SlotAt;
    var p := SlotAt(|s|, e.hash, d);
    var s' := s[p := Occupied(e)];
    DistOfSlotAt(|s|, e.hash, d);
    assert DistAt(s', p) == d;
    forall r: nat | r < |s| && s'[r].Occupied? ensures Reaches(s', r) {
      assert r != p ==> Reaches(s, r);
      forall j: nat | j < DistAt(s', r) ensures Passable(s', s'[r].entry.hash, j) {
        assert Passable(s, s'[r].entry.hash, j);
      }
    }
  }

  lemma SwapOpens<V>(s: seq<Slot<V>>, hash: string -> nat, e: Entry<V>, d: nat)
    requires AllReachable(s) && d < |s|
    requires var p := SlotAt(|s|, e.hash, d); s[p].Occupied? && d > DistAt(s, p)
    requires var p := SlotAt(|s|, e.hash, d);
             OpenBetween(s[p := Occupied(e)], s[p].entry.hash, DistAt(s, p), d)
    ensures var p := SlotAt(|s|, e.hash, d);
            OpenTo(s[p := Occupied(e)], s[p].entry.hash, d + 1)
  {
    hide Home, SlotAt;
    var p := SlotAt(|s|, e.hash, d);
    var x, s' := s[p].entry, s[p := Occupied(e)];
    DistOfSlotAt(|s|, e.hash, d);
    assert DistAt(s', p) == d && Reaches(s, p);
    forall j: nat | j < d + 1 ensures Passable(s', x.hash, j) {
      DistOfSlotAt(|s|, x.hash, j);
      if j < DistAt(s, p) {
        assert Passable(s, x.hash, j);
      }
    }
  }

  /** The end of a tame walk. */
  lemma FillKeepsGood<V>(s: seq<Slot<V>>, hash: string -> nat, e: Entry<V>, d: nat)
    requires GoodTable(s, hash) && e.hash == hash(e.key) && e.key !in Contents(s)
    requires d < |s| && OpenTo(s, e.hash, d)
    requires var p := SlotAt(|s|, e.hash, d); s[p] == Empty || (s[p] == Tombstone && !CrossedBeyond(s, p, d))
    ensures IsUpdate(s, s[SlotAt(|s|, e.hash, d) := Occupied(e)], hash, e.key, e.value)
  {
    hide Home, SlotAt, Contents;
    var p := SlotAt(|s|, e.hash, d);
    if s[p] == Empty {
      EmptyIsUncrossed(s, p, d);
    }
    FillKeepsReachable(s, p, e, d);
    ContentsWith(s, p, e);
  }

  /** However many entries a tame walk displaces, placing an absent key is a map update. */
  lemma {:induction false} TamePlace<V>(s: seq<Slot<V>>, hash: string -> nat, key: Option<string>, e: Entry<V>, d: nat)
    requires GoodTable(s, hash) && e.hash == hash(e.key) && e.key !in Contents(s)
    requires HasFree(s) && d < |s| && OpenTo(s, e.hash, d) && Tame(s, key, e, d)
    ensures IsUpdate(s, Place(s, key, e, d).slots, hash, e.key, e.value)
    decreases Room(s), Gap(s, SlotAt(|s|, e.hash, d))
  {
    hide *;
    TameUnfold(s, key, e, d);
    var p := SlotAt(|s|, e.hash, d);
    if !s[p].Occupied? {
      FillKeepsGood(s, hash, e, d);
    } else if d > DistAt(s, p) {
      SwapKeepsGood(s, hash, e, d);
      var x, swapped := s[p].entry, s[p := Occupied(e)];
      TamePlace(swapped, hash, key, x, d + 1);
      GoodParts(s, hash);
      GoodParts(swapped, hash);
      UpdateTwice(s, swapped, Place(s, key, e, d).slots, hash, e, x);
    } else {
      PassedBy(s, e.hash, d);
      TamePlace(s, hash, key, e, d + 1);
    }
  }

  lemma UpdateTwice<V>(s: seq<Slot<V>>, mid: seq<Slot<V>>, s': seq<Slot<V>>, hash: string -> nat, e: Entry<V>, x: Entry<V>)
    requires UniqueKeys(s) && UniqueKeys(mid) && IsUpdate(mid, s', hash, x.key, x.value)
    requires Contents(mid)[x.key := x.value] == Contents(s)[e.key := e.value]
    ensures IsUpdate(s, s', hash, e.key, e.value)
  {
    hide Contents, GoodTable;
  }

  /** One step of a tame walk. */
  lemma TameUnfold<V>(s: seq<Slot<V>>, key: Option<string>, e: Entry<V>, d: nat)
    requires HasFree(s) && d < |s| && Tame(s, key, e, d)
    ensures var p := SlotAt(|s|, e.hash, d);
            var swapped := s[p := Occupied(e)];
            if !s[p].Occupied? then
              && (s[p] == Empty || (s[p] == Tombstone && !CrossedBeyond(s, p, d)))
              && Place(s, key, e, d).slots == swapped
            else
              && d + 1 < |s|
              && if d > DistAt(s, p) then
                   var x := s[p].entry;
                   && HasFree(swapped) && OpenBetween(swapped, x.hash, DistAt(s, p), d)
                   && Tame(swapped, key, x, d + 1)
                   && Place(s, key, e, d) == Place(swapped, key, x, d + 1)
                   && Room(swapped) < Room(s)
                 else
                   && Tame(s, key, e, d + 1) && Place(s, key, e, d) == Place(s, key, e, d + 1)
                   && Gap(s, SlotAt(|s|, e.hash, d + 1)) < Gap(s, p)
  {
    hide SlotAt, OpenBetween, CrossedBeyond, Room, Gap;
    var p := SlotAt(|s|, e.hash, d);
    if s[p].Occupied? {
      if d > DistAt(s, p) {
        SwapStep(s, e, d);
      } else {
        MoveProgress(s, e.hash, d);
      }
    }
  }

  lemma SwapStep<V>(s: seq<Slot<V>>, e: Entry<V>, d: nat)
    requires HasFree(s) && d < |s|
    requires var p := SlotAt(|s|, e.hash, d); s[p].Occupied? && d > DistAt(s, p)
    ensures var swapped := s[SlotAt(|s|, e.hash, d) := Occupied(e)];
            HasFree(swapped) && Room(swapped) < Room(s)
  {
    hide SlotAt, Room;
    DistOfSlotAt(|s|, e.hash, d);
    SwapProgress(s, SlotAt(|s|, e.hash, d), e);
  }

  lemma PassedBy<V>(s: seq<Slot<V>>, hash: nat, d: nat)
    requires d < |s|
    requires var p := SlotAt(|s|, hash, d); s[p].Occupied? && d <= DistAt(s, p)
    requires OpenTo(s, hash, d) && d + 1 < |s|
    ensures OpenTo(s, hash, d + 1)
  {
    hide SlotAt;
  }

  // ---- Resizing ----

  /** Every re-insertion of a resize is tame. */
  ghost predicate TameRehash<V>(src: seq<Slot<V>>, n: nat, capacity: nat)
    requires n <= |src| && StoredTo(src, n) < capacity
  {
    n == 0 ||
    (TameRehash(src, n - 1, capacity) &&
     (src[n - 1].Occupied? ==>
        var s := Rehash(src, n - 1, capacity);
        PlaceGrows(s, src[n - 1].entry, StoredTo(src, n - 1));
        Tame(s, None, src[n - 1].entry, 0)))
  }

  /** A tame resize moves the stored map, whole, into a good table. */
  lemma {:induction false} RehashKeepsMap<V>(src: seq<Slot<V>>, n: nat, capacity: nat, hash: string -> nat)
    requires n <= |src| && StoredTo(src, n) < capacity && TameRehash(src, n, capacity)
    requires UniqueKeys(src) && WellHashed(src, hash)
    ensures UniqueKeys(src[..n]) && GoodTable(Rehash(src, n, capacity), hash)
    ensures Contents(Rehash(src, n, capacity)) == Contents(src[..n])
  {
    hide GoodTable, UniqueKeys, Contents, Tame, Place, OpenTo;
    if n == 0 {
      NothingRehashed(src, capacity, hash);
    } else {
      RehashKeepsMap(src, n - 1, capacity, hash);
      var s := Rehash(src, n - 1, capacity);
      PrefixStep(src, n);
      if src[n - 1].Occupied? {
        var e := src[n - 1].entry;
        PlaceGrows(s, e, StoredTo(src, n - 1));
        NothingBehind(s, e.hash);
        TamePlace(s, hash, None, e, 0);
      }
    }
  }

  lemma NothingRehashed<V>(src: seq<Slot<V>>, capacity: nat, hash: string -> nat)
    requires capacity > 0
    ensures Rehash(src, 0, capacity) == Blank(capacity)
    ensures GoodTable(Rehash(src, 0, capacity), hash) && UniqueKeys(src[..0])
    ensures Contents(Rehash(src, 0, capacity)) == Contents(src[..0]) == map[]
  {}

  lemma NothingBehind<V>(s: seq<Slot<V>>, hash: nat)
    ensures OpenTo(s, hash, 0)
  {}

  /** One more slot of an array adds its entry, if any, to the map. */
  lemma PrefixStep<V>(src: seq<Slot<V>>, n: nat)
    requires UniqueKeys(src) && 0 < n <= |src|
    ensures UniqueKeys(src[..n]) && UniqueKeys(src[..n - 1])
    ensures match src[n - 1]
            case Occupied(e) =>
              e.key !in Contents(src[..n - 1]) && Contents(src[..n]) == Contents(src[..n - 1])[e.key := e.value]
            case _ => Contents(src[..n]) == Contents(src[..n - 1])
  {
    hide Contents, UniqueKeys;
    var a, b := src[..n - 1], src[..n];
    UniquePrefix(src, n);
    UniquePrefix(src, n - 1);
    assert b == a + [src[n - 1]];
    if src[n - 1].Occupied? {
      LastIsNew(a, src[n - 1].entry);
      AppendEntry(a, src[n - 1].entry);
    } else {
      AppendFree(a, src[n - 1]);
    }
  }

  lemma UniquePrefix<V>(src: seq<Slot<V>>, n: nat)
    requires UniqueKeys(src) && n <= |src|
    ensures UniqueKeys(src[..n])
  {}

  lemma LastIsNew<V>(a: seq<Slot<V>>, e: Entry<V>)
    requires UniqueKeys(a) && UniqueKeys(a + [Occupied(e)])
    ensures e.key !in Contents(a)
  {
    hide Contents;
    var b := a + [Occupied(e)];
    assert b[|a|] == Occupied(e);
    assert forall p | 0 <= p < |a| && a[p].Occupied? :: b[p] == a[p];
    assert forall p | 0 <= p < |a| && a[p].Occupied? :: a[p].entry.key != e.key;
  }

  lemma AppendEntry<V>(a: seq<Slot<V>>, e: Entry<V>)
    requires UniqueKeys(a) && UniqueKeys(a + [Occupied(e)])
    ensures Contents(a + [Occupied(e)]) == Contents(a)[e.key := e.value]
  {
    hide Contents, UniqueKeys;
    var b := a + [Occupied(e)];
    var m := Contents(a);
    assert b[|a|].entry == e;
    PrefixBindings(a, Occupied(e));
    forall k | k in Contents(b) && k !in m ensures k == e.key {
      var p: nat :| p < |b| && b[p].Occupied? && b[p].entry.key == k;
      assert p < |a| ==> a[p] == b[p];
    }
    assert Contents(b)[e.key] == e.value;
  }

  lemma AppendFree<V>(a: seq<Slot<V>>, free: Slot<V>)
    requires UniqueKeys(a) && UniqueKeys(a + [free]) && !free.Occupied?
    ensures Contents(a + [free]) == Contents(a)
  {
    hide Contents, UniqueKeys;
    var b := a + [free];
    PrefixBindings(a, free);
    forall k | k in Contents(b) ensures k in Contents(a) {
      var p: nat :| p < |b| && b[p].Occupied? && b[p].entry.key == k;
      assert p < |a| && a[p] == b[p];
    }
  }

  lemma PrefixBindings<V>(a: seq<Slot<V>>, last: Slot<V>)
    requires UniqueKeys(a) && UniqueKeys(a + [last])
    ensures forall k | k in Contents(a) :: k in Contents(a + [last]) && Contents(a + [last])[k] == Contents(a)[k]
  {
    hide Contents, UniqueKeys;
    var b := a + [last];
    forall k | k in Contents(a) ensures k in Contents(b) && Contents(b)[k] == Contents(a)[k] {
      var p: nat :| p < |a| && a[p].Occupied? && a[p].entry.key == k;
      assert b[p] == a[p];
    }
  }

  // ---- Whole tables ----

  ghost predicate TameResize<V>(t: Table<V>, capacity: nat)
    requires t.size == Stored(t.slots) && t.size < AtLeastMin(capacity)
  {
    StoredToIsStored(t.slots, |t.slots|);
    assert t.slots[..|t.slots|] == t.slots;
    TameRehash(t.slots, |t.slots|, AtLeastMin(capacity))
  }

  /** A tame resize is invisible. */
  lemma ResizeKeepsMap<V>(t: Table<V>, capacity: nat, hash: string -> nat)
    requires t.size == Stored(t.slots) && t.size < AtLeastMin(capacity) && TameResize(t, capacity)
    requires UniqueKeys(t.slots) && WellHashed(t.slots, hash)
    ensures var r := Resize(t, capacity);
            GoodTable(r.slots, hash) && Contents(r.slots) == Contents(t.slots)
  {
    hide GoodTable, UniqueKeys, WellHashed, Contents, Rehash, TameRehash;
    StoredToIsStored(t.slots, |t.slots|);
    assert t.slots[..|t.slots|] == t.slots;
    RehashKeepsMap(t.slots, |t.slots|, AtLeastMin(capacity), hash);
  }

  /**
   What a caller can check before an operation: its resize, if there is one, is tame, and set either meets the
   key first or does not find it and then places it tamely.
   */
  ghost predicate TameOp<V>(t: Table<V>, hash: string -> nat, op: Op<V>)
    requires Valid(t)
  {
    match op
    case SetOp(k, v) =>
      var r := MadeRoom(t);
      && (Overloaded(t) ==> TameResize(t, 2 * |t.slots|))
      && (FirstStop(r.slots, k, hash(k), 0).AtKey? ||
          (Find(r.slots, k, hash(k), 0) == None && Tame(r.slots, Some(k), Entry(k, v, hash(k)), 0)))
    case DeleteOp(k) =>
      match Find(t.slots, k, hash(k), 0)
      case None => true
      case Some(p) =>
        BuryCounts(t, p);
        LoadThresholds(Bury(t, p));
        Underloaded(Bury(t, p)) ==> TameResize(Bury(t, p), |t.slots| / 2)
  }

  lemma MadeRoomKeepsMap<V>(t: Table<V>, hash: string -> nat)
    requires Valid(t) && GoodTable(t.slots, hash)
    requires Overloaded(t) ==> TameResize(t, 2 * |t.slots|)
    ensures GoodTable(MadeRoom(t).slots, hash) && Contents(MadeRoom(t).slots) == Contents(t.slots)
  {
    hide GoodTable, Contents, Resize, TameResize, IsPowerOfTwo;
    GoodParts(t.slots, hash);
    LoadThresholds(t);
    if Overloaded(t) {
      ResizeKeepsMap(t, 2 * |t.slots|, hash);
    }
  }

  /** A tame set is a map update, and says whether the key is new. */
  lemma TameSet<V>(t: Table<V>, hash: string -> nat, key: string, value: V)
    requires Valid(t) && GoodTable(t.slots, hash) && TameOp(t, hash, SetOp(key, value))
    ensures UniqueKeys(t.slots) && IsUpdate(t.slots, Set(t, hash, key, value).0.slots, hash, key, value)
    ensures Set(t, hash, key, value).1 <==> key !in Contents(t.slots)
  {
    hide GoodTable, Contents, MadeRoom, Tame, FirstStop, Find, OpenTo, UniqueKeys, Valid;
    MadeRoomKeepsMap(t, hash);
    GoodParts(t.slots, hash);
    var r, h := MadeRoom(t).slots, hash(key);
    GoodParts(r, hash);
    FindIsMapLookup(r, hash, key);
    if FirstStop(r, key, h, 0).AtKey? {
      SetAtKey(r, hash, key, value);
      KeyMet(r, key, Entry(key, value, h));
    } else {
      NothingBehind(r, h);
      TamePlace(r, hash, Some(key), Entry(key, value, h), 0);
      TameIsNew(r, Some(key), Entry(key, value, h), 0);
    }
  }

  lemma KeyMet<V>(s: seq<Slot<V>>, key: string, e: Entry<V>)
    requires HasFree(s) && FirstStop(s, key, e.hash, 0).AtKey? && UniqueKeys(s)
    ensures Place(s, Some(key), e, 0).outcome == Replaced && key in Contents(s)
  {
    hide SlotAt, Contents;
    AtStop(s, key, e.hash, 0);
    PlaceFromStop(s, key, e, 0);
  }

  lemma {:induction false} TameIsNew<V>(s: seq<Slot<V>>, key: Option<string>, e: Entry<V>, d: nat)
    requires HasFree(s) && d < |s| && Tame(s, key, e, d)
    ensures Place(s, key, e, d).outcome != Replaced
    decreases Room(s), Gap(s, SlotAt(|s|, e.hash, d))
  {
    hide SlotAt, OpenBetween, CrossedBeyond, Room, Gap;
    TameUnfold(s, key, e, d);
    var p := SlotAt(|s|, e.hash, d);
    if s[p].Occupied? {
      if d > DistAt(s, p) {
        TameIsNew(s[p := Occupied(e)], key, s[p].entry, d + 1);
      } else {
        TameIsNew(s, key, e, d + 1);
      }
    }
  }

  /** A tame delete is removal, and says whether the key was there. */
  lemma TameDelete<V>(t: Table<V>, hash: string -> nat, key: string)
    requires Valid(t) && GoodTable(t.slots, hash) && TameOp(t, hash, DeleteOp(key))
    ensures UniqueKeys(t.slots)
    ensures var (r, found) := Delete(t, hash, key);
            && GoodTable(r.slots, hash) && Contents(r.slots) == Contents(t.slots) - {key}
            && (found <==> key in Contents(t.slots))
  {
    hide GoodTable, Contents, Find, UniqueKeys, Resize, TameResize, IsPowerOfTwo;
    GoodParts(t.slots, hash);
    FindIsMapLookup(t.slots, hash, key);
    match Find(t.slots, key, hash(key), 0)
    case None =>
    case Some(p) =>
      BuryCounts(t, p);
      LoadThresholds(Bury(t, p));
      TombstoneRemoves(t.slots, hash, p);
      GoodParts(Bury(t, p).slots, hash);
      if Underloaded(Bury(t, p)) {
        ResizeKeepsMap(Bury(t, p), |t.slots| / 2, hash);
      }
  }

  // ---- Whole runs ----

  /** The map that the same run makes of an empty one. */
  function MapRun<V>(ops: seq<Op<V>>): map<string, V> {
    if ops == [] then map[]
    else
      var m := MapRun(ops[..|ops| - 1]);
      match ops[|ops| - 1]
      case SetOp(k, v) => m[k := v]
      case DeleteOp(k) => m - {k}
  }

  ghost predicate TameRun<V>(hash: string -> nat, ops: seq<Op<V>>) {
    ops == [] ||
    (TameRun(hash, ops[..|ops| - 1]) && TameOp(Run(hash, ops[..|ops| - 1]), hash, ops[|ops| - 1]))
  }

  /**
   The hash table, as written, is a map over every tame run, through all its displacements, growths and shrinks:
   it stores the map's bindings, and every lookup answers as the map does.
   */
  lemma {:induction false} TameRunIsMap<V>(hash: string -> nat, ops: seq<Op<V>>, key: string)
    requires TameRun(hash, ops)
    ensures var t, m := Run(hash, ops), MapRun(ops);
            && GoodTable(t.slots, hash) && Contents(t.slots) == m
            && Get(t, hash, key) == if key in m then Some(m[key]) else None
  {
    hide GoodTable, Contents, Valid, TameOp, Set, Delete, Find;
    if ops == [] {
      FreshIsEmpty<V>(hash);
    } else {
      var before := Run(hash, ops[..|ops| - 1]);
      TameRunIsMap(hash, ops[..|ops| - 1], key);
      match ops[|ops| - 1]
      case SetOp(k, v) => TameSet(before, hash, k, v);
      case DeleteOp(k) => TameDelete(before, hash, k);
    }
    FindIsMapLookup(Run(hash, ops).slots, hash, key);
  }

  lemma FreshIsEmpty<V>(hash: string -> nat)
    ensures GoodTable(Create<V>().slots, hash) && Contents(Create<V>().slots) == map[]
  {}
}
