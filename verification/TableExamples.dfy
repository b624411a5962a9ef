/**
 Runs on a fresh table whose keys have their ideal slots next to each other: one that loses a key, one that brings
 a deleted key back, and one that displaces an entry and is a map all the same. Each is given for any such keys,
 and for keys that FNV-1a puts there.
 */
module TableExamples {
  import opened Wrappers
  import opened Probe
  import opened RobinHood
  import opened SetExactness
  import opened TableModel
  import opened TableRuns
  import opened TameRuns
  import Fnv

  // ---- Single steps ----

  /** On a lightly loaded table the probe loop decides alone what set does. */
  lemma SetLands<V>(t: Table<V>, hash: string -> nat, key: string, value: V)
    requires Valid(t) && |t.slots| == 64 && t.size + t.tombstones < 10
    requires FirstStop(t.slots, key, hash(key), 0).AtFree?
    ensures var p := SlotAt(64, hash(key), FirstStop(t.slots, key, hash(key), 0).d);
            && (t.slots[p] == Tombstone ==> t.tombstones > 0)
            && Set(t, hash, key, value).0 ==
               Table(t.slots[p := Occupied(Entry(key, value, hash(key)))], t.size + 1,
                     if t.slots[p] == Tombstone then t.tombstones - 1 else t.tombstones)
  {
    hide Place, Resize, IsPowerOfTwo, SlotAt, FirstStop;
    LoadThresholds(t);
    assert MadeRoom(t) == t;
    AtStop(t.slots, key, hash(key), 0);
    var e := Entry(key, value, hash(key));
    PlaceLandsOutcome(t.slots, key, e);
    FreeSlotIsCounted(t.slots, SlotAt(64, hash(key), FirstStop(t.slots, key, hash(key), 0).d));
  }

  lemma PlaceLandsOutcome<V>(s: seq<Slot<V>>, key: string, e: Entry<V>)
    requires HasFree(s) && FirstStop(s, key, e.hash, 0).AtFree?
    ensures var p := SlotAt(|s|, e.hash, FirstStop(s, key, e.hash, 0).d);
            Place(s, Some(key), e, 0) ==
            Placed(s[p := Occupied(e)], if s[p] == Empty then FilledEmpty else FilledTombstone)
  {
    hide SlotAt, FirstStop;
    AtStop(s, key, e.hash, 0);
    PlaceFromStop(s, key, e, 0);
  }

  lemma DeleteBuries<V>(t: Table<V>, hash: string -> nat, key: string, p: nat)
    requires Valid(t) && |t.slots| == 64 && Find(t.slots, key, hash(key), 0) == Some(p)
    ensures t.size > 0 && Delete(t, hash, key).0 == Bury(t, p)
  {
    hide Find, IsPowerOfTwo;
    BuryCounts(t, p);
  }

  /** A set that does not grow the table is its probe loop. */
  lemma SetUnresized<V>(t: Table<V>, hash: string -> nat, key: string, value: V)
    requires Valid(t) && |t.slots| == 64 && t.size + t.tombstones < 10
    ensures HasFree(t.slots)
    ensures Set(t, hash, key, value).0.slots == Place(t.slots, Some(key), Entry(key, value, hash(key)), 0).slots
  {
    hide Place, Resize, IsPowerOfTwo;
    LoadThresholds(t);
    ValidHasEmpty(t);
  }

  lemma PassesBy<V>(s: seq<Slot<V>>, key: string, hash: nat, d: nat)
    requires d < |s|
    requires var p := SlotAt(|s|, hash, d);
             s[p].Occupied? && s[p].entry.key != key && d <= DistAt(s, p)
    ensures FirstStop(s, key, hash, d) == FirstStop(s, key, hash, d + 1)
  {}

  lemma StopsAt<V>(s: seq<Slot<V>>, key: string, hash: nat, d: nat)
    requires d < |s|
    requires var p := SlotAt(|s|, hash, d);
             !s[p].Occupied? || (s[p].entry.key != key && d > DistAt(s, p))
    ensures FirstStop(s, key, hash, d) ==
            if s[SlotAt(|s|, hash, d)].Occupied? then Displaces(d) else AtFree(d)
  {}

  lemma FindPassesBy<V>(s: seq<Slot<V>>, key: string, hash: nat, d: nat)
    requires d < |s|
    requires var p := SlotAt(|s|, hash, d);
             s[p] != Empty && (s[p].Occupied? ==> s[p].entry.key != key && d <= DistAt(s, p))
    ensures Find(s, key, hash, d) == Find(s, key, hash, d + 1)
  {}

  lemma FindStops<V>(s: seq<Slot<V>>, key: string, hash: nat, d: nat)
    requires d < |s|
    requires var p := SlotAt(|s|, hash, d);
             s[p] == Empty || (s[p].Occupied? && s[p].entry.key == key && s[p].entry.hash == hash && d <= DistAt(s, p))
    ensures Find(s, key, hash, d) == if s[SlotAt(|s|, hash, d)] == Empty then None else Some(SlotAt(|s|, hash, d))
  {}

  // ---- Rows of entries ----

  /** The slot `i` places behind slot `p`. */
  function At(p: nat, i: nat): (q: nat)
    requires p < 64 && i < 64
    ensures q < 64
  {
    Wrap(64, p + i)
  }

  /** A fresh table's slots with entries side by side from slot `p` on. */
  function Row<V>(p: nat, es: seq<Entry<V>>): (s: seq<Slot<V>>)
    requires p < 64 && |es| <= 64
    ensures |s| == 64
  {
    if es == [] then Blank(64)
    else Row(p, es[..|es| - 1])[At(p, |es| - 1) := Occupied(es[|es| - 1])]
  }

  lemma {:induction false} RowAt<V>(p: nat, es: seq<Entry<V>>, i: nat)
    requires p < 64 && |es| <= 64 && i < 64
    ensures Row(p, es)[At(p, i)] == if i < |es| then Occupied(es[i]) else Empty
  {
    if es != [] {
      RowAt(p, es[..|es| - 1], i);
    }
  }

  lemma RowAppend<V>(p: nat, es: seq<Entry<V>>, e: Entry<V>)
    requires p < 64 && |es| < 64
    ensures Row(p, es + [e]) == Row(p, es)[At(p, |es|) := Occupied(e)]
  {
    assert (es + [e])[..|es|] == es;
  }

  /** The walk of a key whose ideal slot is `j` places behind `p`. */
  lemma WalkAt(hash: nat, p: nat, j: nat, d: nat)
    requires p < 64 && j + d < 64 && Home(64, hash) == At(p, j)
    ensures SlotAt(64, hash, d) == At(p, j + d) && Dist(64, hash, At(p, j + d)) == d
  {
    hide Home;
  }

  /** Entries with distinct keys, in the order of their ideal slots, none of them beyond its place in the row. */
  ghost predicate InOrder<V>(p: nat, es: seq<Entry<V>>, homes: seq<nat>, hash: string -> nat) {
    && p < 64 && |es| == |homes| < 10
    && (forall i | 0 <= i < |es| ::
          homes[i] <= i && es[i].hash == hash(es[i].key) && Home(64, es[i].hash) == At(p, homes[i]))
    && (forall i, j | 0 <= i < j < |es| :: homes[i] <= homes[j] && es[i].key != es[j].key)
  }

  /** A key that comes next in order walks past the whole row, displacing nobody. */
  lemma {:induction false} RowStop<V>(p: nat, es: seq<Entry<V>>, homes: seq<nat>, hash: string -> nat, e: Entry<V>, home: nat, d: nat)
    requires InOrder(p, es + [e], homes + [home], hash) && home + d <= |es| == |homes|
    ensures FirstStop(Row(p, es), e.key, e.hash, d) == AtFree(|es| - home)
    ensures HasFree(Row(p, es)) && Tame(Row(p, es), Some(e.key), e, d)
    decreases |es| - d
  {
    hide Home, SlotAt, At, FirstStop, Row, Dist, Tame;
    var s, i := Row(p, es), home + d;
    var n := |es|;
    assert (es + [e])[n] == e && (homes + [home])[n] == home;
    RowAt(p, es, n);
    RowAt(p, es, i);
    WalkAt(e.hash, p, home, d);
    if i < n {
      var x := (es + [e])[i];
      assert x == es[i] && (homes + [home])[i] == homes[i];
      WalkAt(x.hash, p, homes[i], i - homes[i]);
      PassesBy(s, e.key, e.hash, d);
      RowStop(p, es, homes, hash, e, home, d + 1);
      TamePassesBy(s, e.key, e, d);
    } else {
      StopsAt(s, e.key, e.hash, d);
      TameEnds(s, e.key, e, d);
    }
  }

  lemma TamePassesBy<V>(s: seq<Slot<V>>, key: string, e: Entry<V>, d: nat)
    requires HasFree(s) && d + 1 < |s| && Tame(s, Some(key), e, d + 1)
    requires var p := SlotAt(|s|, e.hash, d);
             s[p].Occupied? && s[p].entry.key != key && d <= DistAt(s, p)
    ensures Tame(s, Some(key), e, d)
  {
    hide SlotAt;
  }

  lemma TameEnds<V>(s: seq<Slot<V>>, key: string, e: Entry<V>, d: nat)
    requires HasFree(s) && d < |s| && s[SlotAt(|s|, e.hash, d)] == Empty
    ensures Tame(s, Some(key), e, d)
  {
    hide SlotAt;
  }

  /** So it is appended to the row. */
  lemma Appends<V>(t: Table<V>, p: nat, es: seq<Entry<V>>, homes: seq<nat>, hash: string -> nat, e: Entry<V>, home: nat)
    requires InOrder(p, es + [e], homes + [home], hash) && |es| == |homes| < 9
    requires Valid(t) && t == Table(Row(p, es), |es|, 0)
    ensures Set(t, hash, e.key, e.value).0 == Table(Row(p, es + [e]), |es| + 1, 0)
    ensures TameOp(t, hash, SetOp(e.key, e.value))
  {
    hide Home, SlotAt, At, FirstStop, Row, Dist, Tame, Set, Place, Resize, IsPowerOfTwo, Find;
    var n := |es|;
    assert (es + [e])[n] == e && (homes + [home])[n] == home;
    RowStop(p, es, homes, hash, e, home, 0);
    WalkAt(e.hash, p, home, n - home);
    RowAt(p, es, n);
    RowAppend(p, es, e);
    SetLands(t, hash, e.key, e.value);
    LoadThresholds(t);
    assert forall i | 0 <= i < n :: (es + [e])[i] == es[i];
    RowMisses(p, es, e.key, e.hash);
  }

  /** A key that is not in a row is not found. */
  lemma RowMisses<V>(p: nat, es: seq<Entry<V>>, key: string, hash: nat)
    requires p < 64 && |es| <= 64 && forall i | 0 <= i < |es| :: es[i].key != key
    ensures Find(Row(p, es), key, hash, 0) == None
  {
    hide Find, At, Row;
    var s := Row(p, es);
    forall q: nat | q < 64 && s[q].Occupied? ensures s[q].entry.key != key {
      var i := OffsetOf(p, q);
      RowAt(p, es, i);
    }
  }

  lemma OffsetOf(p: nat, q: nat) returns (i: nat)
    requires p < 64 && q < 64
    ensures i < 64 && At(p, i) == q
  {
    i := if q >= p then q - p else q + 64 - p;
  }

  function Sets<V>(es: seq<Entry<V>>): (ops: seq<Op<V>>)
    ensures |ops| == |es|
  {
    seq(|es|, i requires 0 <= i < |es| => SetOp(es[i].key, es[i].value))
  }

  /** Setting keys in the order of their ideal slots puts them side by side, and is tame. */
  lemma {:induction false} RowRun<V>(hash: string -> nat, p: nat, es: seq<Entry<V>>, homes: seq<nat>)
    requires InOrder(p, es, homes, hash)
    ensures Run(hash, Sets(es)) == Table(Row(p, es), |es|, 0)
    ensures TameRun(hash, Sets(es))
  {
    hide Run, Apply, TameOp, Home, At, Valid;
    if es == [] {
      EmptyRun<V>(hash);
    } else {
      var n := |es| - 1;
      var before, last := es[..n], es[n];
      assert before + [last] == es && homes[..n] + [homes[n]] == homes;
      RowRun(hash, p, before, homes[..n]);
      var op := SetOp(last.key, last.value);
      assert Sets(es) == Sets(before) + [op];
      assert Sets(es)[..n] == Sets(before);
      RunStep(hash, Sets(before), op);
      Appends(Run(hash, Sets(before)), p, before, homes[..n], hash, last, homes[n]);
      ApplySet(Run(hash, Sets(before)), hash, last.key, last.value);
    }
  }

  lemma EmptyRun<V>(hash: string -> nat)
    ensures Run<V>(hash, []) == Create() == Table(Row(0, []), 0, 0)
    ensures forall p | 0 <= p < 64 :: Row<V>(p, []) == Blank(64)
  {}

  // ---- A key is lost ----

  /** The entries of three keys, of which the first two share an ideal slot and the third has the next one. */
  function Three<V>(hash: string -> nat, a: string, b: string, c: string, va: V, vb: V, vc: V): seq<Entry<V>> {
    [Entry(a, va, hash(a)), Entry(b, vb, hash(b)), Entry(c, vc, hash(c))]
  }

  lemma ThreeInOrder<V>(hash: string -> nat, a: string, b: string, c: string, va: V, vb: V, vc: V)
    requires a != b && a != c && b != c
    requires var p := Home(64, hash(a)); Home(64, hash(b)) == p && Home(64, hash(c)) == At(p, 1)
    ensures InOrder(Home(64, hash(a)), Three(hash, a, b, c, va, vb, vc), [0, 0, 1], hash)
  {
    hide Home;
  }

  /** A fourth key at home in the first slot displaces the third, which jumps over the slot behind it. */
  lemma ThirdIsDisplaced<V>(hash: string -> nat, a: string, b: string, c: string, va: V, vb: V, vc: V, e: Entry<V>)
    requires a != b && a != c && b != c && e.key !in {a, b, c} && e.hash == hash(e.key)
    requires var p := Home(64, hash(a));
             Home(64, hash(b)) == p && Home(64, hash(c)) == At(p, 1) && Home(64, e.hash) == p
    ensures var p := Home(64, hash(a));
            var s := Row(p, Three(hash, a, b, c, va, vb, vc));
            && HasFree(s) && s[At(p, 2)].Occupied?
            && FirstStop(s, e.key, e.hash, 0) == Displaces(2)
            && Place(s, Some(e.key), e, 0).slots == Displaced(s, At(p, 2), e, At(p, 4))
  {
    hide Place, FirstStop, Home, SlotAt, At, Dist, Row;
    var p := Home(64, hash(a));
    var es := Three(hash, a, b, c, va, vb, vc);
    var s := Row(p, es);
    AtZero(p);
    Walks(e.hash, p, 0);
    Walks(hash(a), p, 0);
    Walks(hash(b), p, 0);
    Walks(hash(c), p, 1);
    RowAt(p, es, 0);
    RowAt(p, es, 1);
    RowAt(p, es, 2);
    RowAt(p, es, 4);
    assert !s[At(p, 4)].Occupied?;
    PassesBy(s, e.key, e.hash, 0);
    PassesBy(s, e.key, e.hash, 1);
    StopsAt(s, e.key, e.hash, 2);
    AtDiffers(p, 2, 4);
    StopsAt(s[At(p, 2) := Occupied(e)], e.key, hash(c), 3);
    PlaceDisplaces(s, e.key, e, 2);
  }

  lemma AtZero(p: nat)
    requires p < 64
    ensures At(p, 0) == p
  {}

  lemma AtDiffers(p: nat, i: nat, j: nat)
    requires p < 64 && i < 64 && j < 64 && i != j
    ensures At(p, i) != At(p, j)
  {}

  /** The first slots that the lookups of a key look at. */
  lemma Walks(hash: nat, p: nat, j: nat)
    requires p < 64 && j <= 1 && Home(64, hash) == At(p, j)
    ensures SlotAt(64, hash, 0) == At(p, j) && Dist(64, hash, At(p, j)) == 0
    ensures SlotAt(64, hash, 1) == At(p, j + 1) && Dist(64, hash, At(p, j + 1)) == 1
    ensures SlotAt(64, hash, 2) == At(p, j + 2) && Dist(64, hash, At(p, j + 2)) == 2
    ensures SlotAt(64, hash, 3) == At(p, j + 3) && Dist(64, hash, At(p, j + 3)) == 3
  {
    hide Home;
  }

  /** In the slots after that displacement, the lookup of the third key ends at the slot it jumped over. */
  lemma ThirdIsLost<V>(hash: string -> nat, a: string, b: string, c: string, va: V, vb: V, vc: V, e: Entry<V>)
    requires a != b && a != c && b != c && e.key !in {a, b, c}
    requires var p := Home(64, hash(a));
             Home(64, hash(b)) == p && Home(64, hash(c)) == At(p, 1) && Home(64, e.hash) == p
    ensures var p := Home(64, hash(a));
            var s := Row(p, Three(hash, a, b, c, va, vb, vc));
            && s[At(p, 2)].Occupied?
            && Find(Displaced(s, At(p, 2), e, At(p, 4)), c, hash(c), 0) == None
            && Displaced(s, At(p, 2), e, At(p, 4))[At(p, 4)] == Occupied(Entry(c, vc, hash(c)))
  {
    hide Find, Home, SlotAt, At, Dist, Row;
    var p := Home(64, hash(a));
    var es := Three(hash, a, b, c, va, vb, vc);
    AtZero(p);
    Walks(e.hash, p, 0);
    Walks(hash(b), p, 0);
    Walks(hash(c), p, 1);
    RowAt(p, es, 1);
    RowAt(p, es, 2);
    RowAt(p, es, 3);
    AtDiffers(p, 1, 2);
    AtDiffers(p, 1, 4);
    AtDiffers(p, 2, 4);
    AtDiffers(p, 3, 2);
    AtDiffers(p, 3, 4);
    var r := Displaced(Row(p, es), At(p, 2), e, At(p, 4));
    FindPassesBy(r, c, hash(c), 0);
    FindPassesBy(r, c, hash(c), 1);
    FindStops(r, c, hash(c), 2);
  }

  /**
   `GET` after `SET` fails. With `a`, `b` and `d` at home in one slot and `c` in the next, setting `d` displaces
   `c`, which jumps over an empty slot and is never found again although it is still stored.
   */
  lemma LostKey<V>(hash: string -> nat, a: string, b: string, c: string, d: string, va: V, vb: V, vc: V, vd: V)
    requires a != b && a != c && b != c && d !in {a, b, c}
    requires var p := Home(64, hash(a));
             Home(64, hash(b)) == p && Home(64, hash(c)) == At(p, 1) && Home(64, hash(d)) == p
    ensures var t := Run(hash, [SetOp(a, va), SetOp(b, vb), SetOp(c, vc), SetOp(d, vd)]);
            && Get(t, hash, c) == None
            && Occupied(Entry(c, vc, hash(c))) in t.slots
  {
    hide Home, At, Row, Run, Find, FirstStop, Place, Set, SlotAt, IsPowerOfTwo, Resize, Apply;
    var p, e := Home(64, hash(a)), Entry(d, vd, hash(d));
    var es := Three(hash, a, b, c, va, vb, vc);
    var three, all := Sets(es), [SetOp(a, va), SetOp(b, vb), SetOp(c, vc), SetOp(d, vd)];
    assert three + [SetOp(d, vd)] == all;
    ThreeInOrder(hash, a, b, c, va, vb, vc);
    RowRun(hash, p, es, [0, 0, 1]);
    var t := Run(hash, three);
    RunStep(hash, three, SetOp(d, vd));
    ApplySet(t, hash, d, vd);
    SetUnresized(t, hash, d, vd);
    ThirdIsDisplaced(hash, a, b, c, va, vb, vc, e);
    ThirdIsLost(hash, a, b, c, va, vb, vc, e);
  }

  // ---- A deleted key comes back ----

  function Two<V>(hash: string -> nat, a: string, b: string, va: V, vb: V): seq<Entry<V>> {
    [Entry(a, va, hash(a)), Entry(b, vb, hash(b))]
  }

  /** Slots that hold two keys with ideal slot `p` side by side, the first one replaced. */
  ghost predicate FirstReplaced<V>(s: seq<Slot<V>>, hash: string -> nat, p: nat, b: string, first: Slot<V>, vb: V) {
    && |s| == 64 && p < 64 && Home(64, hash(b)) == p
    && s[p] == first && s[At(p, 1)] == Occupied(Entry(b, vb, hash(b)))
  }

  lemma TwoStored<V>(hash: string -> nat, p: nat, a: string, b: string, va: V, vb: V, first: Slot<V>)
    requires p < 64 && Home(64, hash(b)) == p
    ensures FirstReplaced(Row(p, Two(hash, a, b, va, vb))[p := first], hash, p, b, first, vb)
    ensures Row(p, Two(hash, a, b, va, vb))[p] == Occupied(Entry(a, va, hash(a)))
  {
    hide Home, At, Row;
    AtZero(p);
    AtDiffers(p, 0, 1);
    RowAt(p, Two(hash, a, b, va, vb), 0);
    RowAt(p, Two(hash, a, b, va, vb), 1);
  }

  /** Behind a tombstone the second key is found. */
  lemma FoundBehind<V>(s: seq<Slot<V>>, hash: string -> nat, p: nat, b: string, vb: V)
    requires FirstReplaced(s, hash, p, b, Tombstone, vb)
    ensures Find(s, b, hash(b), 0) == Some(At(p, 1))
  {
    hide Find, Home, At, SlotAt, Dist;
    AtZero(p);
    Walks(hash(b), p, 0);
    FindPassesBy(s, b, hash(b), 0);
    FindStops(s, b, hash(b), 1);
  }

  /** A key in its ideal slot is found there. */
  lemma FoundAtHome<V>(s: seq<Slot<V>>, key: string, hash: nat, v: V)
    requires |s| == 64 && s[Home(64, hash)] == Occupied(Entry(key, v, hash))
    ensures Find(s, key, hash, 0) == Some(Home(64, hash))
  {
    hide Find, Home, At, SlotAt, Dist;
    var p := Home(64, hash);
    AtZero(p);
    Walks(hash, p, 0);
    FindStops(s, key, hash, 0);
  }

  /** Setting a key whose ideal slot is a tombstone fills it. */
  lemma FillsHome<V>(t: Table<V>, hash: string -> nat, key: string, v: V)
    requires Valid(t) && |t.slots| == 64 && t.size + t.tombstones < 10
    requires t.slots[Home(64, hash(key))] == Tombstone
    ensures var r := Set(t, hash, key, v).0;
            && r.slots == t.slots[Home(64, hash(key)) := Occupied(Entry(key, v, hash(key)))]
            && r.size + r.tombstones == t.size + t.tombstones
  {
    hide Home, At, SlotAt, Dist, Set, FirstStop, IsPowerOfTwo, Place;
    var p := Home(64, hash(key));
    AtZero(p);
    Walks(hash(key), p, 0);
    StopsAt(t.slots, key, hash(key), 0);
    SetLands(t, hash, key, v);
  }

  /**
   `DEL` does not delete. A tombstone in front of a stored key takes a second copy of it when the key is set
   again; deleting removes that copy, and the old value is there again.
   */
  lemma ResurrectedKey<V>(hash: string -> nat, a: string, b: string, va: V, vb: V, again: V)
    requires a != b && Home(64, hash(b)) == Home(64, hash(a))
    ensures var t := Run(hash, [SetOp(a, va), SetOp(b, vb), DeleteOp(a), SetOp(b, again), DeleteOp(b)]);
            Get(t, hash, b) == Some(vb)
  {
    hide Find, Set, Delete, Home, Run, Row, At, Apply, Valid, InOrder;
    var p := Home(64, hash(a));
    var es := Two(hash, a, b, va, vb);
    TwoInOrder(hash, a, b, va, vb);
    RowRun(hash, p, es, [0, 0]);
    TwoStored(hash, p, a, b, va, vb, Tombstone);
    var ops2 := Sets(es);
    var ops3 := ops2 + [DeleteOp(a)];
    var ops4 := ops3 + [SetOp(b, again)];
    RunStep(hash, ops2, DeleteOp(a));
    RunStep(hash, ops3, SetOp(b, again));
    RunStep(hash, ops4, DeleteOp(b));
    assert ops4 + [DeleteOp(b)] == [SetOp(a, va), SetOp(b, vb), DeleteOp(a), SetOp(b, again), DeleteOp(b)];
    var t2, t3, t4 := Run(hash, ops2), Run(hash, ops3), Run(hash, ops4);
    ApplyDelete(t2, hash, a);
    ApplySet(t3, hash, b, again);
    ApplyDelete(t4, hash, b);
    FoundAtHome(t2.slots, a, hash(a), va);
    DeleteBuries(t2, hash, a, p);
    FillsHome(t3, hash, b, again);
    FoundAtHome(t4.slots, b, hash(b), again);
    DeleteBuries(t4, hash, b, p);
    assert t4.slots[p := Tombstone] == t3.slots;
    FoundBehind(t3.slots, hash, p, b, vb);
  }

  lemma TwoInOrder<V>(hash: string -> nat, a: string, b: string, va: V, vb: V)
    requires a != b && Home(64, hash(b)) == Home(64, hash(a))
    ensures InOrder(Home(64, hash(a)), Two(hash, a, b, va, vb), [0, 0], hash)
  {
    hide Home;
  }

  // ---- A displacement that does no harm ----

  /**
   With one more key at home in the second slot, the displaced entry jumps over an occupied slot that its lookups
   pass. The run displaces an entry, is tame, and so is a map.
   */
  lemma TameDisplacement<V>(hash: string -> nat, a: string, b: string, c: string, f: string, d: string, v: V)
    requires a != b && a != c && b != c && f !in {a, b, c} && d !in {a, b, c, f}
    requires var p := Home(64, hash(a));
             && Home(64, hash(b)) == p && Home(64, hash(c)) == At(p, 1)
             && Home(64, hash(f)) == At(p, 1) && Home(64, hash(d)) == p
    ensures var ops := [SetOp(a, v), SetOp(b, v), SetOp(c, v), SetOp(f, v)];
            && TameRun(hash, ops + [SetOp(d, v)])
            && FirstStop(Run(hash, ops).slots, d, hash(d), 0).Displaces?
  {
    hide Place, Find, Resize, IsPowerOfTwo, FirstStop, Home, Run, Row, At, SlotAt, Dist, Tame, TameOp, InOrder;
    var p, e := Home(64, hash(a)), Entry(d, v, hash(d));
    var es := [Entry(a, v, hash(a)), Entry(b, v, hash(b)), Entry(c, v, hash(c)), Entry(f, v, hash(f))];
    var ops := [SetOp(a, v), SetOp(b, v), SetOp(c, v), SetOp(f, v)];
    FourInOrder(hash, a, b, c, f, v);
    RowRun(hash, p, es, [0, 0, 1, 1]);
    assert Sets(es) == ops;
    var t := Run(hash, ops);
    HarmlessJump(hash, a, b, c, f, v, e);
    assert es[0].key == a && es[1].key == b && es[2].key == c && es[3].key == f;
    RowMisses(p, es, d, hash(d));
    TameSetOp(t, hash, d, v);
    assert (ops + [SetOp(d, v)])[..4] == ops;
  }

  lemma FourInOrder<V>(hash: string -> nat, a: string, b: string, c: string, f: string, v: V)
    requires a != b && a != c && b != c && f !in {a, b, c}
    requires var p := Home(64, hash(a));
             Home(64, hash(b)) == p && Home(64, hash(c)) == At(p, 1) && Home(64, hash(f)) == At(p, 1)
    ensures InOrder(Home(64, hash(a)), [Entry(a, v, hash(a)), Entry(b, v, hash(b)), Entry(c, v, hash(c)),
                    Entry(f, v, hash(f))], [0, 0, 1, 1], hash)
  {
    hide Home;
  }

  lemma TameSetOp<V>(t: Table<V>, hash: string -> nat, key: string, value: V)
    requires Valid(t) && |t.slots| == 64 && t.size + t.tombstones < 10
    requires HasFree(t.slots) && Find(t.slots, key, hash(key), 0) == None
    requires Tame(t.slots, Some(key), Entry(key, value, hash(key)), 0)
    ensures TameOp(t, hash, SetOp(key, value))
  {
    hide Find, Tame, Resize, IsPowerOfTwo, FirstStop;
    LoadThresholds(t);
  }

  lemma HarmlessJump<V>(hash: string -> nat, a: string, b: string, c: string, f: string, v: V, e: Entry<V>)
    requires a != b && a != c && b != c && f !in {a, b, c} && e.key !in {a, b, c, f}
    requires var p := Home(64, hash(a));
             && Home(64, hash(b)) == p && Home(64, hash(c)) == At(p, 1)
             && Home(64, hash(f)) == At(p, 1) && Home(64, e.hash) == p
    ensures var s := Row(Home(64, hash(a)), [Entry(a, v, hash(a)), Entry(b, v, hash(b)), Entry(c, v, hash(c)),
                         Entry(f, v, hash(f))]);
            HasFree(s) && Tame(s, Some(e.key), e, 0) && FirstStop(s, e.key, e.hash, 0) == Displaces(2)
  {
    hide FirstStop, Home, SlotAt, At, Dist, Row, Tame;
    var p := Home(64, hash(a));
    var es := [Entry(a, v, hash(a)), Entry(b, v, hash(b)), Entry(c, v, hash(c)), Entry(f, v, hash(f))];
    var s := Row(p, es);
    AtZero(p);
    Walks(e.hash, p, 0);
    Walks(hash(a), p, 0);
    Walks(hash(b), p, 0);
    Walks(hash(c), p, 1);
    Walks(hash(f), p, 1);
    RowAt(p, es, 0);
    RowAt(p, es, 1);
    RowAt(p, es, 2);
    RowAt(p, es, 3);
    RowAt(p, es, 4);
    AtDiffers(p, 2, 3);
    AtDiffers(p, 2, 4);
    assert !s[At(p, 4)].Occupied?;
    PassesBy(s, e.key, e.hash, 0);
    PassesBy(s, e.key, e.hash, 1);
    StopsAt(s, e.key, e.hash, 2);
    var swapped := s[At(p, 2) := Occupied(e)];
    assert !swapped[At(p, 4)].Occupied?;
    TameEnds(swapped, e.key, es[2], 3);
    TameSwaps(s, e.key, e, 2);
    TamePassesBy(s, e.key, e, 1);
    TamePassesBy(s, e.key, e, 0);
  }

  lemma TameSwaps<V>(s: seq<Slot<V>>, key: string, e: Entry<V>, d: nat)
    requires HasFree(s) && d + 1 < |s|
    requires var p := SlotAt(|s|, e.hash, d);
             s[p].Occupied? && s[p].entry.key != key && DistAt(s, p) == d - 1
    requires var p := SlotAt(|s|, e.hash, d);
             var swapped := s[p := Occupied(e)];
             HasFree(swapped) && Passable(swapped, s[p].entry.hash, d) && Tame(swapped, Some(key), s[p].entry, d + 1)
    ensures Tame(s, Some(key), e, d)
  {
    hide SlotAt, Passable;
    DistOfSlotAt(|s|, e.hash, d);
  }

  // ---- Keys that FNV-1a puts there ----

  lemma RealHomes()
    ensures Home(64, Fnv.Hash("f")) == Home(64, Fnv.Hash("&")) == Home(64, Fnv.Hash("cq")) == 25
    ensures Home(64, Fnv.Hash(";")) == Home(64, Fnv.Hash("{")) == 26
  {
    RealHashes();
    hide Fnv.Hash;
  }

  lemma RealHashes()
    ensures Fnv.Hash("f") == 0xe30c2799 && Fnv.Hash("&") == 0x230c8c59 && Fnv.Hash(";") == 0x3e0cb6da
    ensures Fnv.Hash("{") == 0xfe0c521a && Fnv.Hash("cq") == 0x48297b19
  {
    hide Fnv.Hash, Fnv.Mix;
    Fnv.HashOfOne('f');
    Fnv.HashOfOne('&');
    Fnv.HashOfOne(';');
    Fnv.HashOfOne('{');
    Fnv.HashOfTwo('c', 'q');
    FirstMixes();
    SecondMix();
  }

  lemma FirstMixes()
    ensures Fnv.Mix(Fnv.OFFSET_BASIS, 'f') == 0xe30c2799 && Fnv.Mix(Fnv.OFFSET_BASIS, '&') == 0x230c8c59
    ensures Fnv.Mix(Fnv.OFFSET_BASIS, ';') == 0x3e0cb6da && Fnv.Mix(Fnv.OFFSET_BASIS, '{') == 0xfe0c521a
    ensures Fnv.Mix(Fnv.OFFSET_BASIS, 'c') == 0xe60c2c52
  {
    hide Fnv.XorByte;
    XorsOfF();
    XorsOfBraces();
    XorsOfC();
  }

  lemma SecondMix()
    ensures Fnv.Mix(0xe60c2c52, 'q') == 0x48297b19
  {
    hide Fnv.XorByte;
    XorsOfC();
  }

  lemma XorsOfF()
    ensures Fnv.XorByte(197, 102) == 163 && Fnv.XorByte(197, 38) == 227
  {}

  lemma XorsOfBraces()
    ensures Fnv.XorByte(197, 59) == 254 && Fnv.XorByte(197, 123) == 190
  {}

  lemma XorsOfC()
    ensures Fnv.XorByte(197, 99) == 166 && Fnv.XorByte(82, 113) == 35
  {}

  /** With its own hash, the table loses the key `;` when `f`, `&`, `;` and `cq` are set. */
  lemma RealLostKey()
    ensures var t := Run(Fnv.Hash, [SetOp("f", 1), SetOp("&", 2), SetOp(";", 3), SetOp("cq", 4)]);
            Get(t, Fnv.Hash, ";") == None && Occupied(Entry(";", 3, Fnv.Hash(";"))) in t.slots
  {
    hide Home, Fnv.Hash, Run, Get, At;
    RealHomes();
    assert At(25, 1) == 26 by { RealNext(); }
    LostKey(Fnv.Hash, "f", "&", ";", "cq", 1, 2, 3, 4);
  }

  lemma RealNext()
    ensures At(25, 1) == 26
  {}

  /** With its own hash, the table brings back the old value of the deleted key `&`. */
  lemma RealResurrectedKey()
    ensures var t := Run(Fnv.Hash, [SetOp("f", 1), SetOp("&", 2), DeleteOp("f"), SetOp("&", 5), DeleteOp("&")]);
            Get(t, Fnv.Hash, "&") == Some(2)
  {
    hide Home, Fnv.Hash, Run, Get;
    RealHomes();
    ResurrectedKey(Fnv.Hash, "f", "&", 1, 2, 5);
  }

  /** With its own hash, setting `cq` behind `f`, `&`, `;` and `{` displaces an entry and is tame. */
  lemma RealTameDisplacement()
    ensures var ops := [SetOp("f", 1), SetOp("&", 1), SetOp(";", 1), SetOp("{", 1)];
            && TameRun(Fnv.Hash, ops + [SetOp("cq", 1)])
            && FirstStop(Run(Fnv.Hash, ops).slots, "cq", Fnv.Hash("cq"), 0).Displaces?
  {
    hide Home, Fnv.Hash, Run, FirstStop, TameRun, At;
    RealHomes();
    assert At(25, 1) == 26 by { RealNext(); }
    TameDisplacement(Fnv.Hash, "f", "&", ";", "{", "cq", 1);
  }
}
