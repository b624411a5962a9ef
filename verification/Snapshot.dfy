/** The snapshot format: a length-prefixed encoder of the keyspace and a decoder that tolerates truncation. */
module Snapshot {
  import opened Wrappers
  import opened CText
  import opened Keyspace
  import opened TimedMap

  // ---- Fixed-width integers ----

  const WORD: int := 0x1_0000_0000
  const DOUBLE_WORD: int := 0x1_0000_0000_0000_0000

  function Byte(n: nat): char
    requires n < 256
  {
    n as char
  }

  /** The low `k` bytes of a number, least significant first. */
  function Encode(n: nat, k: nat): (s: string)
    ensures |s| == k
    decreases k
  {
    if k == 0 then [] else [Byte(n % 256)] + Encode(n / 256, k - 1)
  }

  function Decode(s: string): nat {
    if s == [] then 0 else s[0] as nat % 256 + 256 * Decode(s[1..])
  }

  function Limit(k: nat): nat { if k == 0 then 1 else 256 * Limit(k - 1) }

  lemma {:induction false} DecodeEncode(n: nat, k: nat)
    requires n < Limit(k)
    ensures Decode(Encode(n, k)) == n
    decreases k
  {
    if k > 0 {
      DecodeEncode(n / 256, k - 1);
      assert Encode(n, k)[1..] == Encode(n / 256, k - 1);
    }
  }

  function WriteU32(n: nat): (s: string)
    ensures |s| == 4
  {
    Encode(n % WORD, 4)
  }

  function WriteI64(n: int): (s: string)
    ensures |s| == 8
  {
    Encode(n % DOUBLE_WORD, 8)
  }

  /** A read either fails, which leaves the stream at its end, or yields a value and the bytes after it. */
  datatype Read<T> = Eof | Got(value: T, rest: string)

  function ReadU32(f: string): Read<nat> {
    if |f| < 4 then Eof else Got(Decode(f[..4]), f[4..])
  }

  function ReadI64(f: string): Read<int> {
    if |f| < 8 then Eof else Got(ToInt64(Decode(f[..8])), f[8..])
  }

  lemma U32RoundTrip(n: nat, rest: string)
    requires n < WORD
    ensures ReadU32(WriteU32(n) + rest) == Got(n, rest)
  {
    hide Decode, Encode;
    LimitOfFour();
    DecodeEncode(n, 4);
    assert (WriteU32(n) + rest)[..4] == WriteU32(n);
  }

  lemma I64RoundTrip(n: int, rest: string)
    requires IsInt64(n)
    ensures ReadI64(WriteI64(n) + rest) == Got(n, rest)
  {
    hide Decode, Encode;
    LimitOfEight();
    DecodeEncode(n % DOUBLE_WORD, 8);
    assert (WriteI64(n) + rest)[..8] == WriteI64(n);
    WrapTwice(n);
  }

  lemma LimitOfFour()
    ensures Limit(4) == WORD
  {
    assert Limit(2) == 0x1_0000;
  }

  lemma LimitOfEight()
    ensures Limit(8) == DOUBLE_WORD
  {
    LimitOfFour();
    assert Limit(6) == 0x1_0000_0000_0000;
  }

  lemma WrapTwice(n: int)
    requires IsInt64(n)
    ensures ToInt64(n % DOUBLE_WORD) == n
  {
    assert n % DOUBLE_WORD == if n < 0 then n + DOUBLE_WORD else n;
  }

  // ---- Strings and values ----

  /** The length is cut to 32 bits, and that many bytes are written. */
  function WriteString(s: string): string { WriteU32(|s|) + s[..|s| % WORD] }

  /** A string read back is used up to its first NUL. */
  function ReadString(f: string): (r: Read<string>) {
    match ReadU32(f)
    case Eof => Eof
    case Got(len, rest) => if |rest| < len then Eof else Got(CutAtNul(rest[..len]), rest[len..])
  }

  /** How many bytes are allocated for a string of `len` bytes and its NUL; the sum has 32 bits. */
  function BlockSize(len: nat): nat { (len + 1) % WORD }

  /** A C string is read back, into a block that holds it, exactly when its length and NUL fit the 32-bit prefix. */
  lemma StringRoundTrip(s: string, rest: string)
    requires IsCString(s)
    ensures ReadString(WriteString(s) + rest) == Got(s, rest) && |s| < BlockSize(|s| % WORD) <==> |s| < WORD - 1
  {
    hide ReadString, WriteU32;
    var n := |s| % WORD;
    var body := s[..n];
    assert WriteString(s) == WriteU32(n) + body by { CutLength(|s|); }
    assert WriteString(s) + rest == WriteU32(n) + (body + rest);
    BodyRoundTrip(body, rest);
    if |s| < WORD {
      assert body == s;
    } else {
      assert |body| < |s|;
    }
  }

  lemma CutLength(n: nat)
    ensures WriteU32(n) == WriteU32(n % WORD)
  {
    hide Encode;
    assert n % WORD % WORD == n % WORD;
  }

  lemma BodyRoundTrip(body: string, rest: string)
    requires IsCString(body) && |body| < WORD
    ensures ReadString(WriteU32(|body|) + (body + rest)) == Got(body, rest)
  {
    hide ReadU32, WriteU32;
    U32RoundTrip(|body|, body + rest);
    assert (body + rest)[..|body|] == body && (body + rest)[|body|..] == rest;
  }

  function WriteStrings(items: seq<string>): string {
    if items == [] then [] else WriteString(items[0]) + WriteStrings(items[1..])
  }

  /** Up to `count` strings, stopping at the first that cannot be read, and the bytes after them. */
  function ReadStrings(count: nat, f: string): (seq<string>, string) {
    if count == 0 then ([], f)
    else
      match ReadString(f)
      case Eof => ([], [])
      case Got(s, rest) =>
        var (items, after) := ReadStrings(count - 1, rest);
        ([s] + items, after)
  }

  function TypeByte(obj: Obj): char {
    match obj
    case Str(_) => Byte(0)
    case Int(_) => Byte(1)
    case List(_) => Byte(2)
  }

  function WriteObj(obj: Obj): string {
    match obj
    case Str(s) => WriteString(s)
    case Int(n) => WriteI64(n)
    case List(items) => WriteU32(|items|) + WriteStrings(items)
  }

  function WriteEntry(key: string, e: Entry): string {
    [TypeByte(e.obj)] + (WriteI64(e.expire) + (WriteString(key) + WriteObj(e.obj)))
  }

  type Listing = seq<(string, Entry)>

  function WriteEntries(es: Listing): string {
    if es == [] then [] else WriteEntry(es[0].0, es[0].1) + WriteEntries(es[1..])
  }

  lemma {:induction false} EntriesSnoc(es: Listing, key: string, e: Entry)
    ensures WriteEntries(es + [(key, e)]) == WriteEntries(es) + WriteEntry(key, e)
    decreases |es|
  {
    hide WriteEntry;
    if es == [] {
      assert es + [(key, e)] == [(key, e)] && [(key, e)][1..] == [];
      assert WriteEntries([]) == [];
    } else {
      assert (es + [(key, e)])[1..] == es[1..] + [(key, e)];
      EntriesSnoc(es[1..], key, e);
    }
  }

  const MAGIC: string := "IMDB0001"
  const END: char := Byte(255)

  /** The saved file, with the entries in the table's order. */
  function Save(es: Listing): string { MAGIC + (WriteEntries(es) + [END]) }

  // ---- Loading ----

  /** The value after a key: an object, nothing to store but more to read, or the end of the useful input. */
  datatype Loaded = Stop | Keep(obj: Obj, rest: string)

  function ReadObj(kind: char, f: string): Loaded {
    if kind == Byte(0) then
      (match ReadString(f) case Eof => Stop case Got(s, rest) => Keep(Str(s), rest))
    else if kind == Byte(1) then
      (match ReadI64(f) case Eof => Stop case Got(n, rest) => Keep(Int(n), rest))
    else if kind == Byte(2) then
      (match ReadU32(f)
       case Eof => Stop
       case Got(count, rest) =>
         var (items, after) := ReadStrings(count, rest);
         Keep(List(items), after))
    else Stop
  }

  /** The bytes after the value of an expired entry; failed reads are not noticed here. */
  function SkipObj(kind: char, f: string): string {
    if kind == Byte(0) then
      (match ReadString(f) case Eof => [] case Got(_, rest) => rest)
    else if kind == Byte(1) then
      (match ReadI64(f) case Eof => [] case Got(_, rest) => rest)
    else if kind == Byte(2) then
      (match ReadU32(f)
       case Eof => []
       case Got(count, rest) => ReadStrings(count, rest).1)
    else f
  }

  /** What comes before a value: its type, deadline and key. */
  datatype Head = NoHead | Head(kind: char, expire: int, key: string, rest: string)

  function ReadHead(f: string): (h: Head) {
    if f == [] || f[0] == END then NoHead
    else
      match ReadI64(f[1..])
      case Eof => NoHead
      case Got(expire, rest) =>
        match ReadString(rest)
        case Eof => NoHead
        case Got(key, after) => Head(f[0], expire, key, after)
  }

  lemma ReadStringShrinks(f: string)
    requires ReadString(f).Got?
    ensures |ReadString(f).rest| < |f|
  {}

  lemma {:induction false} ReadStringsShrinks(count: nat, f: string)
    ensures |ReadStrings(count, f).1| <= |f|
  {
    hide ReadString;
    if count > 0 && ReadString(f).Got? {
      ReadStringShrinks(f);
      ReadStringsShrinks(count - 1, ReadString(f).rest);
    }
  }

  lemma ReadsShrink(h: Head, f: string)
    requires h == ReadHead(f) && h.Head?
    ensures |h.rest| < |f|
    ensures |SkipObj(h.kind, h.rest)| < |f|
    ensures ReadObj(h.kind, h.rest).Keep? ==> |ReadObj(h.kind, h.rest).rest| < |f|
  {
    hide ReadStrings;
    match ReadU32(h.rest)
    case Eof =>
    case Got(count, rest) => ReadStringsShrinks(count, rest);
  }

  /** The loading loop, from the bytes after the magic; live entries go into `db`. */
  function LoadEntries(db: Db, now: int, f: string): Db
    decreases |f|
  {
    var h := ReadHead(f);
    if h.NoHead? then db
    else
      ReadsShrink(h, f);
      if h.expire >= 0 && now > h.expire then LoadEntries(db, now, SkipObj(h.kind, h.rest))
      else
        match ReadObj(h.kind, h.rest)
        case Stop => db
        case Keep(obj, rest) => LoadEntries(db[h.key := Entry(obj, h.expire)], now, rest)
  }

  /** Loading a file; without the magic nothing is loaded and an error is reported. */
  function Load(db: Db, now: int, file: string): Option<Db> {
    if |file| < |MAGIC| || file[..|MAGIC|] != MAGIC then None
    else Some(LoadEntries(db, now, file[|MAGIC|..]))
  }

  // ---- Round trip ----

  predicate FitsString(s: string) { IsCString(s) && |s| < WORD - 1 }

  predicate FitsObj(obj: Obj) {
    match obj
    case Str(s) => FitsString(s)
    case Int(n) => IsInt64(n)
    case List(items) => |items| < WORD && forall s | s in items :: FitsString(s)
  }

  /** Entries the format can hold: C strings whose length and NUL fit 32 bits, and 64-bit numbers. */
  predicate Fits(es: Listing) {
    forall e | e in es :: FitsString(e.0) && FitsObj(e.1.obj) && IsInt64(e.1.expire)
  }

  /** A map with the live entries of a listing stored into it, in order. */
  function Restore(db: Db, es: Listing, now: int): Db
    decreases |es|
  {
    if es == [] then db
    else
      var (key, e) := es[0];
      Restore(if IsExpired(e, now) then db else db[key := e], es[1..], now)
  }

  lemma {:induction false} StringsRoundTrip(items: seq<string>, rest: string)
    requires forall s | s in items :: FitsString(s)
    ensures ReadStrings(|items|, WriteStrings(items) + rest) == (items, rest)
  {
    hide ReadString, WriteString, FitsString;
    if items == [] {
      assert WriteStrings(items) + rest == rest;
    } else {
      var after := WriteStrings(items[1..]) + rest;
      assert WriteStrings(items) + rest == WriteString(items[0]) + after;
      FittingString(items[0], after);
      StringsRoundTrip(items[1..], rest);
      assert [items[0]] + items[1..] == items;
    }
  }

  lemma FittingString(s: string, rest: string)
    requires FitsString(s)
    ensures ReadString(WriteString(s) + rest) == Got(s, rest)
  {
    StringRoundTrip(s, rest);
  }

  lemma ObjRoundTrip(obj: Obj, rest: string)
    requires FitsObj(obj)
    ensures ReadObj(TypeByte(obj), WriteObj(obj) + rest) == Keep(obj, rest)
    ensures SkipObj(TypeByte(obj), WriteObj(obj) + rest) == rest
  {
    hide ReadString, WriteString, ReadI64, WriteI64, ReadU32, WriteU32, ReadStrings, WriteStrings, FitsString;
    match obj
    case Str(s) => FittingString(s, rest);
    case Int(n) => I64RoundTrip(n, rest);
    case List(items) =>
      assert WriteObj(obj) + rest == WriteU32(|items|) + (WriteStrings(items) + rest);
      U32RoundTrip(|items|, WriteStrings(items) + rest);
      StringsRoundTrip(items, rest);
  }

  lemma HeadRoundTrip(key: string, e: Entry, rest: string)
    requires FitsString(key) && IsInt64(e.expire)
    ensures ReadHead([TypeByte(e.obj)] + (WriteI64(e.expire) + (WriteString(key) + rest))) ==
            Head(TypeByte(e.obj), e.expire, key, rest)
  {
    hide ReadString, WriteString, ReadI64, WriteI64, FitsString;
    I64RoundTrip(e.expire, WriteString(key) + rest);
    FittingString(key, rest);
    var body := WriteI64(e.expire) + (WriteString(key) + rest);
    assert ([TypeByte(e.obj)] + body)[1..] == body;
  }

  /** Loading past one written entry stores it if it is live. */
  lemma EntryLoaded(db: Db, now: int, key: string, e: Entry, rest: string)
    requires FitsString(key) && FitsObj(e.obj) && IsInt64(e.expire)
    ensures LoadEntries(db, now, WriteEntry(key, e) + rest) ==
            LoadEntries(if IsExpired(e, now) then db else db[key := e], now, rest)
  {
    hide ReadHead, ReadObj, SkipObj, WriteObj, WriteString, WriteI64;
    assert WriteEntry(key, e) + rest ==
           [TypeByte(e.obj)] + (WriteI64(e.expire) + (WriteString(key) + (WriteObj(e.obj) + rest)));
    HeadRoundTrip(key, e, WriteObj(e.obj) + rest);
    ObjRoundTrip(e.obj, rest);
  }

  lemma {:induction false} EntriesLoaded(db: Db, now: int, es: Listing, rest: string)
    requires Fits(es)
    ensures LoadEntries(db, now, WriteEntries(es) + rest) == LoadEntries(Restore(db, es, now), now, rest)
    decreases |es|
  {
    hide LoadEntries, WriteEntry, FitsObj, FitsString;
    if es == [] {
      assert WriteEntries(es) + rest == rest;
    } else {
      var (key, e) := es[0];
      assert es[0] in es;
      var after := WriteEntries(es[1..]) + rest;
      assert WriteEntries(es) + rest == WriteEntry(key, e) + after;
      EntryLoaded(db, now, key, e, after);
      EntriesLoaded(if IsExpired(e, now) then db else db[key := e], now, es[1..], rest);
    }
  }

  /** Saving any listing and loading it at `now` stores exactly its live entries, in order. */
  lemma SaveLoad(db: Db, now: int, es: Listing)
    requires Fits(es)
    ensures Load(db, now, Save(es)) == Some(Restore(db, es, now))
  {
    hide LoadEntries, WriteEntries, Restore;
    EntriesLoaded(db, now, es, [END]);
    EndStops(Restore(db, es, now), now);
    assert Save(es)[..|MAGIC|] == MAGIC;
    assert Save(es)[|MAGIC|..] == WriteEntries(es) + [END];
  }

  lemma EndStops(db: Db, now: int)
    ensures LoadEntries(db, now, [END]) == db
    ensures LoadEntries(db, now, []) == db
  {}

  // ---- A keyspace and its listings ----

  /** The table iterates over every key once, in an order nobody knows. */
  ghost predicate Lists(es: Listing, db: Db) {
    && (forall i, j | 0 <= i < j < |es| :: es[i].0 != es[j].0)
    && (forall e | e in es :: e.0 in db && db[e.0] == e.1)
    && (forall k | k in db :: (k, db[k]) in es)
  }

  /** The live part of a keyspace on top of another. */
  function Overlay(base: Db, db: Db, now: int): Db { base + Live(db, now) }

  lemma {:induction false} RestoreIsOverlay(base: Db, es: Listing, db: Db, now: int)
    requires Lists(es, db)
    ensures Restore(base, es, now) == Overlay(base, db, now)
    decreases |es|
  {
    if es == [] {
      assert forall k :: k !in db;
      assert Live(db, now) == map[];
    } else {
      var (key, e) := es[0];
      assert es[0] in es;
      ListsRest(es, db);
      RestoreIsOverlay(if IsExpired(e, now) then base else base[key := e], es[1..], db - {key}, now);
      OverlayFirst(base, db, key, now);
    }
  }

  lemma ListsRest(es: Listing, db: Db)
    requires es != [] && Lists(es, db)
    ensures Lists(es[1..], db - {es[0].0})
  {
    var key := es[0].0;
    forall e | e in es[1..] ensures e.0 in db - {key} {
      var i :| 0 <= i < |es[1..]| && es[1..][i] == e;
      assert es[i + 1] == e && e in es;
    }
    forall k | k in db - {key} ensures (k, db[k]) in es[1..] {
      var i :| 0 <= i < |es| && es[i] == (k, db[k]);
      assert es[1..][i - 1] == es[i];
    }
  }

  lemma OverlayFirst(base: Db, db: Db, key: string, now: int)
    requires key in db
    ensures Overlay(if IsExpired(db[key], now) then base else base[key := db[key]], db - {key}, now) ==
            Overlay(base, db, now)
  {}

  /**
   The round trip commutes with expiry: whatever order the table is iterated in, loading at `now` the bytes
   saved from a keyspace yields its live entries at `now`, with types, values, list order and deadlines.
   */
  lemma SnapshotRoundTrip(db: Db, es: Listing, now: int)
    requires Lists(es, db) && Fits(es)
    ensures Load(map[], now, Save(es)) == Some(Live(db, now))
  {
    hide Load, Save, Restore, Fits, Lists;
    SaveLoad(map[], now, es);
    RestoreIsOverlay(map[], es, db, now);
    assert map[] + Live(db, now) == Live(db, now);
  }

  /** A complete save and load keeps the keyspace well typed. */
  lemma SnapshotWellTyped(db: Db, es: Listing, now: int)
    requires Lists(es, db) && Fits(es) && WellTyped(db)
    ensures Load(map[], now, Save(es)).Some? && WellTyped(Load(map[], now, Save(es)).value)
  {
    hide WellTypedObj;
    SnapshotRoundTrip(db, es, now);
  }

  // ---- The bytes of a file ----

  /**
   The file of a string without deadline, a number that expires at 300, and a list: types 0, 1 and 2, deadlines of
   eight bytes, and lengths and counts of four, least significant byte first.
   */
  lemma SavedBytes()
    ensures Save([]) == "IMDB0001" + [255 as char]
    ensures WriteEntry("k", Entry(Str("v"), -1)) ==
            Bytes([0, 255, 255, 255, 255, 255, 255, 255, 255, 1, 0, 0, 0]) + "k" + Bytes([1, 0, 0, 0]) + "v"
    ensures WriteEntry("n", Entry(Int(2), 300)) ==
            Bytes([1, 44, 1, 0, 0, 0, 0, 0, 0, 1, 0, 0, 0]) + "n" + Bytes([2, 0, 0, 0, 0, 0, 0, 0])
    ensures WriteObj(List(["a"])) == Bytes([1, 0, 0, 0, 1, 0, 0, 0]) + "a" && TypeByte(List(["a"])) == Byte(2)
  {
    hide Encode;
    EncodedBytes();
    OneText("k");
    OneText("v");
    OneText("n");
    OneText("a");
    assert WriteEntries([]) == [];
    assert WriteStrings([]) == [];
    assert WriteStrings(["a"]) == WriteString("a") by { assert ["a"][1..] == []; }
  }

  lemma OneText(s: string)
    requires |s| == 1
    ensures WriteString(s) == Encode(1, 4) + s
  {
    hide Encode;
    assert s[..1] == s;
  }

  lemma {:induction false} EncodeZero(k: nat)
    ensures forall i | 0 <= i < k :: Encode(0, k)[i] == Byte(0)
  {
    if k > 0 {
      EncodeZero(k - 1);
    }
  }

  lemma {:induction false} EncodeOnes(n: nat, k: nat)
    requires n + 1 == Limit(k)
    ensures forall i | 0 <= i < k :: Encode(n, k)[i] == Byte(255)
  {
    if k > 0 {
      assert n / 256 + 1 == Limit(k - 1) && n % 256 == 255;
      EncodeOnes(n / 256, k - 1);
    }
  }

  lemma EncodeSmall(n: nat, k: nat)
    requires n < 256 && k > 0
    ensures Encode(n, k)[0] == Byte(n) && forall i | 0 < i < k :: Encode(n, k)[i] == Byte(0)
  {
    EncodeZero(k - 1);
  }

  lemma EncodedBytes()
    ensures Encode(1, 4) == Bytes([1, 0, 0, 0])
    ensures WriteI64(-1) == Bytes([255, 255, 255, 255, 255, 255, 255, 255])
    ensures WriteI64(300) == Bytes([44, 1, 0, 0, 0, 0, 0, 0])
    ensures WriteI64(2) == Bytes([2, 0, 0, 0, 0, 0, 0, 0])
  {
    hide Encode, Limit;
    EncodeSmall(1, 4);
    EncodeSmall(2, 8);
    ThreeHundred();
    LimitOfEight();
    EncodeOnes(DOUBLE_WORD - 1, 8);
  }

  lemma ThreeHundred()
    ensures Encode(300, 8) == Bytes([44, 1, 0, 0, 0, 0, 0, 0])
  {
    EncodeSmall(1, 7);
    var after := Encode(1, 7);
    assert Encode(300, 8) == [Byte(44)] + after;
    hide Encode;
  }

  function Bytes(ns: seq<nat>): (s: string)
    requires forall i | 0 <= i < |ns| :: ns[i] < 256
    ensures |s| == |ns| && forall i | 0 <= i < |ns| :: s[i] == ns[i] as char
  {
    seq(|ns|, i requires 0 <= i < |ns| => Byte(ns[i]))
  }
}
