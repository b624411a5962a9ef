/** What loading makes of a snapshot file that was cut short. */
module SnapshotCut {
  import opened Wrappers
  import opened CText
  import opened Keyspace
  import opened Snapshot

  // ---- Reads of cut input ----

  lemma CutStringFails(s: string, n: nat)
    requires FitsString(s) && n < |WriteString(s)|
    ensures ReadString(WriteString(s)[..n]) == Eof
  {
    hide Encode, Decode;
    var w := WriteString(s);
    if n >= 4 {
      FittingString(s, []);
      assert w + [] == w;
      assert w[..n][..4] == w[..4];
    }
  }

  /** How many strings lie wholly within the first `n` bytes of their written form. */
  function Within(items: seq<string>, n: nat): (k: nat)
    ensures k <= |items|
  {
    if items == [] || n < |WriteString(items[0])| then 0
    else 1 + Within(items[1..], n - |WriteString(items[0])|)
  }

  /** The strings counted end within the bytes, and the next one does not. */
  lemma {:induction false} WithinIsWhole(items: seq<string>, n: nat)
    ensures var k := Within(items, n);
            && |WriteStrings(items[..k])| <= n
            && (k < |items| ==> n < |WriteStrings(items[..k + 1])|)
  {
    hide WriteString;
    var k := Within(items, n);
    if items == [] || n < |WriteString(items[0])| {
      assert items[..0] == [];
      if items != [] {
        FirstStrings(items, 1);
        assert items[1..][..0] == [];
      }
    } else {
      WithinIsWhole(items[1..], n - |WriteString(items[0])|);
      FirstStrings(items, k);
      if k < |items| {
        FirstStrings(items, k + 1);
      }
    }
  }

  lemma FirstStrings(items: seq<string>, k: nat)
    requires 0 < k <= |items|
    ensures WriteStrings(items[..k]) == WriteString(items[0]) + WriteStrings(items[1..][..k - 1])
  {
    hide WriteString;
    assert items[..k][1..] == items[1..][..k - 1];
  }

  /** Of cut strings, exactly those wholly within the cut are read, and the stream is then at its end. */
  lemma {:induction false} CutStringsPrefix(items: seq<string>, n: nat, count: nat)
    requires forall s | s in items :: FitsString(s)
    requires n < |WriteStrings(items)| && count >= |items|
    ensures ReadStrings(count, WriteStrings(items)[..n]) == (items[..Within(items, n)], [])
  {
    hide WriteString, ReadString, FitsString;
    var w := WriteStrings(items);
    var first := WriteString(items[0]);
    if n < |first| {
      assert w[..n] == first[..n];
      CutStringFails(items[0], n);
    } else {
      var m := n - |first|;
      var after := WriteStrings(items[1..])[..m];
      assert w[..n] == first + after;
      FittingString(items[0], after);
      CutStringsPrefix(items[1..], m, count - 1);
      assert [items[0]] + items[1..][..Within(items[1..], m)] == items[..Within(items, n)];
    }
  }

  lemma ShortReads(f: string)
    ensures |f| < 4 ==> ReadU32(f) == Eof && ReadString(f) == Eof
    ensures |f| < 8 ==> ReadI64(f) == Eof
  {}

  /** A cut value is skipped to the end; it is kept exactly if it is a list cut behind its count. */
  lemma CutObj(obj: Obj, n: nat)
    requires FitsObj(obj) && n < |WriteObj(obj)|
    ensures var f := WriteObj(obj)[..n];
            && SkipObj(TypeByte(obj), f) == []
            && ReadObj(TypeByte(obj), f) ==
               if obj.List? && n >= 4 then Keep(List(obj.items[..Within(obj.items, n - 4)]), []) else Stop
  {
    hide WriteString, ReadString, ReadU32, WriteU32, ReadI64, WriteI64, WriteStrings, ReadStrings, FitsString, Within;
    var f := WriteObj(obj)[..n];
    ShortReads(f);
    match obj
    case Str(s) => CutStringFails(s, n);
    case Int(_) =>
    case List(items) =>
      if n >= 4 {
        var rest := WriteStrings(items)[..n - 4];
        assert f == WriteU32(|items|) + rest;
        U32RoundTrip(|items|, rest);
        CutStringsPrefix(items, n - 4, |items|);
      }
  }

  /** A cut before the end of the key leaves no entry head to read. */
  lemma CutHead(key: string, e: Entry, tail: string, n: nat)
    requires FitsString(key) && IsInt64(e.expire)
    requires n < 9 + |WriteString(key)|
    ensures ReadHead(([TypeByte(e.obj)] + (WriteI64(e.expire) + (WriteString(key) + tail)))[..n]) == NoHead
  {
    hide WriteString, ReadString, ReadI64, WriteI64, FitsString;
    var w := [TypeByte(e.obj)] + (WriteI64(e.expire) + (WriteString(key) + tail));
    var f := w[..n];
    if n >= 9 {
      var cut := WriteString(key)[..n - 9];
      assert f[1..] == WriteI64(e.expire) + cut;
      I64RoundTrip(e.expire, cut);
      CutStringFails(key, n - 9);
    } else if n > 0 {
      ShortReads(f[1..]);
    }
  }

  /** Where the value of an entry starts, counted from the start of the entry. */
  function ValueStart(key: string): nat { 9 + |WriteString(key)| }

  /**
   What a cut inside an entry leaves of it: nothing, unless it is a live list and the cut lies at or behind the end
   of its 4-byte count; then the elements wholly within the cut.
   */
  function CutEntry(base: Db, key: string, e: Entry, now: int, n: nat): Db {
    var start := ValueStart(key) + 4;
    if e.obj.List? && !IsExpired(e, now) && n >= start then
      base[key := Entry(List(e.obj.items[..Within(e.obj.items, n - start)]), e.expire)]
    else base
  }

  lemma EntryCut(base: Db, now: int, key: string, e: Entry, n: nat)
    requires FitsString(key) && FitsObj(e.obj) && IsInt64(e.expire)
    requires n < |WriteEntry(key, e)|
    ensures LoadEntries(base, now, WriteEntry(key, e)[..n]) == CutEntry(base, key, e, now, n)
  {
    hide ReadHead, ReadObj, SkipObj, WriteObj, WriteString, WriteI64, FitsString, FitsObj, Within;
    var w := WriteEntry(key, e);
    var f := w[..n];
    var start := ValueStart(key);
    if n < start {
      CutHead(key, e, WriteObj(e.obj), n);
    } else {
      var value := WriteObj(e.obj)[..n - start];
      assert f == [TypeByte(e.obj)] + (WriteI64(e.expire) + (WriteString(key) + value));
      HeadRoundTrip(key, e, value);
      CutObj(e.obj, n - start);
      EndStops(base, now);
      match ReadObj(TypeByte(e.obj), value)
      case Stop =>
      case Keep(got, rest) => EndStops(base[key := Entry(got, e.expire)], now);
    }
  }

  // ---- The whole file ----

  /** `k` is the number of entries that lie wholly within the first `n` bytes. */
  predicate Whole(es: Listing, n: nat, k: nat) {
    k <= |es| && |WriteEntries(es[..k])| <= n && (k < |es| ==> n < |WriteEntries(es[..k + 1])|)
  }

  /** Where the `k`-th entry starts. */
  function Start(es: Listing, k: nat): nat
    requires k <= |es|
  {
    |WriteEntries(es[..k])|
  }

  /** The live part of the first `k` entries, and what a cut after `n` bytes leaves of the next one. */
  function PrefixLoaded(base: Db, es: Listing, now: int, n: nat, k: nat): Db
    requires Whole(es, n, k)
  {
    var before := Restore(base, es[..k], now);
    if k == |es| then before else CutEntry(before, es[k].0, es[k].1, now, n - Start(es, k))
  }

  /** Loading `n` bytes of the entries and the end mark: every whole entry counts. */
  ghost predicate CutLoaded(base: Db, es: Listing, now: int, n: nat, r: Db) {
    exists k: nat :: Whole(es, n, k) && r == PrefixLoaded(base, es, now, n, k)
  }

  lemma WholeNext(es: Listing, n: nat, k: nat)
    requires es != [] && n >= |WriteEntry(es[0].0, es[0].1)|
    requires Whole(es[1..], n - |WriteEntry(es[0].0, es[0].1)|, k)
    ensures Whole(es, n, k + 1)
  {
    hide WriteEntry;
    WriteFirst(es, k + 1);
    if k + 1 < |es| {
      WriteFirst(es, k + 2);
    }
  }

  lemma WriteFirst(es: Listing, k: nat)
    requires 0 < k <= |es|
    ensures WriteEntries(es[..k]) == WriteEntry(es[0].0, es[0].1) + WriteEntries(es[1..][..k - 1])
  {
    assert es[..k][1..] == es[1..][..k - 1];
  }

  lemma PrefixNext(base: Db, es: Listing, now: int, n: nat, k: nat)
    requires es != [] && n >= |WriteEntry(es[0].0, es[0].1)|
    requires Whole(es[1..], n - |WriteEntry(es[0].0, es[0].1)|, k)
    ensures Whole(es, n, k + 1)
    ensures var rest := if IsExpired(es[0].1, now) then base else base[es[0].0 := es[0].1];
            PrefixLoaded(base, es, now, n, k + 1) ==
            PrefixLoaded(rest, es[1..], now, n - |WriteEntry(es[0].0, es[0].1)|, k)
  {
    hide CutEntry, WriteEntry, WriteEntries, Whole;
    WholeNext(es, n, k);
    WholeBounds(es, n, k + 1);
    WholeBounds(es[1..], n - |WriteEntry(es[0].0, es[0].1)|, k);
    WriteFirst(es, k + 1);
    assert es[..k + 1][1..] == es[1..][..k];
  }

  lemma WholeBounds(es: Listing, n: nat, k: nat)
    requires Whole(es, n, k)
    ensures k <= |es| && Start(es, k) <= n && (k < |es| ==> n < Start(es, k + 1))
  {}

  lemma {:induction false} CutEntries(base: Db, es: Listing, now: int, n: nat)
    requires Fits(es) && n <= |WriteEntries(es)| + 1
    ensures CutLoaded(base, es, now, n, LoadEntries(base, now, (WriteEntries(es) + [END])[..n]))
    decreases |es|
  {
    hide LoadEntries, WriteEntry, FitsString, FitsObj, CutEntry;
    var w := WriteEntries(es) + [END];
    EndStops(base, now);
    assert es[..0] == [];
    if es == [] {
      assert w[..n] == if n == 0 then [] else [END];
      assert Whole(es, n, 0) && base == PrefixLoaded(base, es, now, n, 0);
    } else {
      var (key, e) := es[0];
      assert es[0] in es;
      var first := WriteEntry(key, e);
      if n < |first| {
        assert w[..n] == first[..n];
        EntryCut(base, now, key, e, n);
        WriteFirst(es, 1);
        assert Whole(es, n, 0) && LoadEntries(base, now, first[..n]) == PrefixLoaded(base, es, now, n, 0);
      } else {
        var after := (WriteEntries(es[1..]) + [END])[..n - |first|];
        assert w[..n] == first + after;
        EntryLoaded(base, now, key, e, after);
        var base' := if IsExpired(e, now) then base else base[key := e];
        CutEntries(base', es[1..], now, n - |first|);
        var r := LoadEntries(base', now, after);
        var k: nat :| Whole(es[1..], n - |first|, k) && r == PrefixLoaded(base', es[1..], now, n - |first|, k);
        PrefixNext(base, es, now, n, k);
      }
    }
  }

  /**
   Truncation loses a suffix and nothing else: loading any part of a saved file that still has its magic gives
   the live part of the entries that lie wholly within it, and if the cut lies in a live list, at or behind its
   count, that list with the elements wholly within the cut. Shorter parts load nothing.
   */
  lemma TruncatedLoad(base: Db, es: Listing, now: int, n: nat)
    requires Fits(es) && n <= |Save(es)|
    ensures var r := Load(base, now, Save(es)[..n]);
            if n < |MAGIC| then r == None
            else r.Some? && CutLoaded(base, es, now, n - |MAGIC|, r.value)
  {
    hide LoadEntries, WriteEntries, CutLoaded;
    if n >= |MAGIC| {
      var m := n - |MAGIC|;
      var body := WriteEntries(es) + [END];
      assert Save(es)[..n] == MAGIC + body[..m];
      assert (MAGIC + body[..m])[..|MAGIC|] == MAGIC && (MAGIC + body[..m])[|MAGIC|..] == body[..m];
      CutEntries(base, es, now, m);
    }
  }

  // ---- When a cut file leaves an empty list ----

  /** The cut lies in a live list, at or behind its count, and before the end of its first element. */
  predicate InFirstElement(es: Listing, now: int, n: nat) {
    exists i: nat :: i < |es| && CutsFirstElement(es, i, now, n)
  }

  predicate CutsFirstElement(es: Listing, i: nat, now: int, n: nat)
    requires i < |es|
  {
    var (key, e) := es[i];
    && e.obj.List? && !IsExpired(e, now) && e.obj.items != []
    && var start := Start(es, i) + ValueStart(key) + 4;
       start <= n < start + |WriteString(e.obj.items[0])|
  }

  lemma StartNext(es: Listing, i: nat)
    requires i < |es|
    ensures Start(es, i + 1) == Start(es, i) + |WriteEntry(es[i].0, es[i].1)|
  {
    hide WriteEntry;
    assert es[..i + 1] == es[..i] + [(es[i].0, es[i].1)];
    EntriesSnoc(es[..i], es[i].0, es[i].1);
  }

  lemma {:induction false} StartMonotone(es: Listing, i: nat, j: nat)
    requires i <= j <= |es|
    ensures Start(es, i) <= Start(es, j)
    decreases j - i
  {
    hide Start, WriteEntry;
    if i < j {
      StartNext(es, i);
      StartMonotone(es, i + 1, j);
    }
  }

  /** The first element of a list lies within its entry. */
  lemma FirstElementEnds(key: string, e: Entry)
    requires e.obj.List? && e.obj.items != []
    ensures |WriteEntry(key, e)| >= ValueStart(key) + 4 + |WriteString(e.obj.items[0])|
  {
    hide WriteString;
  }

  /** A cut in the first element of a list lies in the entry of that list. */
  lemma CutEntryIsNext(es: Listing, i: nat, k: nat, now: int, n: nat)
    requires i < |es| && CutsFirstElement(es, i, now, n) && Whole(es, n, k)
    ensures i == k
  {
    hide Start, WriteEntry, WriteString, Whole;
    WholeBounds(es, n, k);
    FirstElementEnds(es[i].0, es[i].1);
    StartNext(es, i);
    if i < k {
      StartMonotone(es, i + 1, k);
    } else if k < i {
      StartMonotone(es, k + 1, i);
    }
  }

  lemma {:induction false} RestoreWellTyped(base: Db, es: Listing, now: int)
    requires WellTyped(base) && forall e | e in es :: WellTypedObj(e.1.obj) && IsInt64(e.1.expire)
    ensures WellTyped(Restore(base, es, now))
    decreases |es|
  {
    hide WellTypedObj;
    if es != [] {
      assert es[0] in es;
      RestoreWellTyped(if IsExpired(es[0].1, now) then base else base[es[0].0 := es[0].1], es[1..], now);
    }
  }

  lemma CutEntryWellTyped(base: Db, es: Listing, k: nat, now: int, n: nat)
    requires WellTyped(base) && k < |es| && n >= Start(es, k)
    requires WellTypedObj(es[k].1.obj) && IsInt64(es[k].1.expire)
    ensures WellTyped(CutEntry(base, es[k].0, es[k].1, now, n - Start(es, k))) <==> !CutsFirstElement(es, k, now, n)
  {
    hide Start, WriteString, TryParseInt;
    var (key, e) := es[k];
    var r := CutEntry(base, key, e, now, n - Start(es, k));
    if CutsFirstElement(es, k, now, n) {
      assert key in r && r[key].obj == List([]);
    }
  }

  /**
   A cut file leaves the keyspace well typed if and only if the cut does not lie in a live list between its count
   and the end of its first element. Then, and only then, an empty list is left behind.
   */
  lemma CutKeepsWellTyped(base: Db, es: Listing, now: int, n: nat)
    requires Fits(es) && WellTyped(base) && forall e | e in es :: WellTypedObj(e.1.obj)
    requires |MAGIC| <= n <= |Save(es)|
    ensures var r := Load(base, now, Save(es)[..n]);
            r.Some? && (WellTyped(r.value) <==> !InFirstElement(es, now, n - |MAGIC|))
  {
    hide WellTyped, WellTypedObj, Whole, CutsFirstElement, Restore, CutEntry, Load, Save, FitsString, FitsObj;
    var m := n - |MAGIC|;
    TruncatedLoad(base, es, now, n);
    var r := Load(base, now, Save(es)[..n]).value;
    var k: nat :| Whole(es, m, k) && r == PrefixLoaded(base, es, now, m, k);
    WholeBounds(es, m, k);
    RestoreWellTyped(base, es[..k], now);
    if k < |es| {
      assert es[k] in es;
      CutEntryWellTyped(Restore(base, es[..k], now), es, k, now, m);
    }
    if InFirstElement(es, now, m) {
      var i: nat :| i < |es| && CutsFirstElement(es, i, now, m);
      CutEntryIsNext(es, i, k, now, m);
    }
  }

  /** Unlike a complete file, a cut one can leave an empty list behind. */
  lemma CutLeavesEmptyList(key: string, x: string, now: int)
    requires FitsString(key) && FitsString(x)
    ensures var e := Entry(List([x]), -1);
            var n := |MAGIC| + |WriteEntry(key, e)| - |WriteString(x)|;
            && n < |Save([(key, e)])|
            && Load(map[], now, Save([(key, e)])[..n]) == Some(map[key := Entry(List([]), -1)])
            && !WellTyped(map[key := Entry(List([]), -1)])
  {
    hide LoadEntries, WriteString, WriteI64, WriteU32, FitsString;
    var e := Entry(List([x]), -1);
    var w := WriteEntry(key, e);
    assert WriteStrings([x]) == WriteString(x) + [] by { assert WriteStrings([]) == []; }
    var head := [TypeByte(e.obj)] + (WriteI64(-1) + (WriteString(key) + WriteU32(1)));
    assert w == head + WriteString(x);
    var n := |MAGIC| + |head|;
    var es := [(key, e)];
    assert es[1..] == [] && WriteEntries(es[1..]) == [];
    assert Save(es) == MAGIC + (w + [END]);
    assert Save(es)[..n] == MAGIC + head;
    assert (MAGIC + head)[..|MAGIC|] == MAGIC && (MAGIC + head)[|MAGIC|..] == head;
    EmptyListLoaded(key, e, now);
    assert n < |Save(es)|;
    var m := map[key := Entry(List([]), -1)];
    assert key in m && !WellTypedObj(m[key].obj);
  }

  lemma EmptyListLoaded(key: string, e: Entry, now: int)
    requires FitsString(key) && e.obj.List? && e.expire == -1
    ensures LoadEntries(map[], now, [TypeByte(e.obj)] + (WriteI64(-1) + (WriteString(key) + WriteU32(1)))) ==
            map[key := Entry(List([]), -1)]
  {
    hide ReadHead, WriteString, ReadString, WriteI64, WriteU32, ReadU32, FitsString;
    HeadRoundTrip(key, e, WriteU32(1));
    U32RoundTrip(1, []);
    assert WriteU32(1) + [] == WriteU32(1);
    ShortReads([]);
    assert ReadStrings(1, []) == ([], []);
    EndStops(map[key := Entry(List([]), -1)], now);
  }
}
