/** Saving to and loading from a byte stream, as written: sequential reads and writes in loops. */
module SnapshotFile {
  import opened Wrappers
  import opened CText
  import opened Keyspace
  import opened Snapshot
  import Db = Database
  import TimedMap

  /** A file with its read position; writes go to the end. */
  class File {
    var data: string
    var pos: nat

    ghost predicate Valid()
      reads this
    {
      pos <= |data|
    }

    /** The bytes still to be read. */
    function Rest(): string
      requires Valid()
      reads this
    {
      data[pos..]
    }

    constructor (data: string)
      ensures Valid() && this.data == data && pos == 0
    {
      this.data := data;
      pos := 0;
    }

    method Write(s: string)
      requires Valid()
      modifies this`data
      ensures Valid() && data == old(data) + s
    {
      data := data + s;
    }

    /** `fread` of `n` bytes; on failure what was left has been consumed. */
    method Read(n: nat) returns (r: Option<string>)
      requires Valid()
      modifies this`pos
      ensures Valid()
      ensures var f := old(Rest());
              if |f| < n then r == None && Rest() == [] else r == Some(f[..n]) && Rest() == f[n..]
    {
      if |data| - pos < n {
        pos := |data|;
        return None;
      }
      assert data[pos..][..n] == data[pos..pos + n] && data[pos..][n..] == data[pos + n..];
      r := Some(data[pos..pos + n]);
      pos := pos + n;
    }

    method ReadWord() returns (r: Option<nat>)
      requires Valid()
      modifies this`pos
      ensures Valid()
      ensures match ReadU32(old(Rest()))
              case Eof => r == None && Rest() == []
              case Got(v, rest) => r == Some(v) && Rest() == rest
    {
      var bytes := Read(4);
      r := if bytes == None then None else Some(Decode(bytes.value));
    }

    method ReadLong() returns (r: Option<int>)
      requires Valid()
      modifies this`pos
      ensures Valid()
      ensures match ReadI64(old(Rest()))
              case Eof => r == None && Rest() == []
              case Got(v, rest) => r == Some(v) && Rest() == rest
    {
      var bytes := Read(8);
      r := if bytes == None then None else Some(ToInt64(Decode(bytes.value)));
    }

    method ReadText() returns (r: Option<string>)
      requires Valid()
      modifies this`pos
      ensures Valid()
      ensures match ReadString(old(Rest()))
              case Eof => r == None && Rest() == []
              case Got(v, rest) => r == Some(v) && Rest() == rest
    {
      var len := ReadWord();
      if len == None {
        return None;
      }
      var bytes := Read(len.value);
      r := if bytes == None then None else Some(CutAtNul(bytes.value));
    }

    /** Reads the elements of a list until one is missing. */
    method ReadElements(count: nat) returns (items: seq<string>)
      requires Valid()
      modifies this`pos
      ensures Valid() && (items, Rest()) == ReadStrings(count, old(Rest()))
    {
      hide ReadString;
      items := [];
      assert [] + ReadStrings(count, Rest()).0 == ReadStrings(count, Rest()).0;
      for i := 0 to count
        invariant Valid()
        invariant var (more, after) := ReadStrings(count - i, Rest());
                  ReadStrings(count, old(Rest())) == (items + more, after)
      {
        ghost var before := Rest();
        var s := ReadText();
        if s == None {
          assert items + [] == items;
          return items;
        }
        items := items + [s.value];
        ghost var more := ReadStrings(count - i - 1, Rest()).0;
        assert items + more == (items[..|items| - 1] + ([s.value] + more));
      }
      assert items + [] == items;
    }

    method WriteText(s: string)
      requires Valid()
      modifies this`data
      ensures Valid() && data == old(data) + WriteString(s)
    {
      hide WriteU32;
      var len := |s| % WORD;
      Write(WriteU32(len));
      if len > 0 {
        Write(s[..len]);
      }
      CutLength(|s|);
    }

    method WriteElements(items: seq<string>)
      requires Valid()
      modifies this`data
      ensures Valid() && data == old(data) + WriteStrings(items)
    {
      hide WriteString;
      assert items[..0] == [];
      for i := 0 to |items|
        invariant Valid() && data == old(data) + WriteStrings(items[..i])
      {
        StringsSnoc(items[..i], items[i]);
        assert items[..i + 1] == items[..i] + [items[i]];
        WriteText(items[i]);
      }
      assert items[..|items|] == items;
    }

    method WriteOne(key: string, e: Entry)
      requires Valid()
      modifies this`data
      ensures Valid() && data == old(data) + WriteEntry(key, e)
    {
      hide WriteString, WriteStrings, WriteI64, WriteU32;
      Write([TypeByte(e.obj)]);
      Write(WriteI64(e.expire));
      WriteText(key);
      match e.obj
      case Str(s) => WriteText(s);
      case Int(n) => Write(WriteI64(n));
      case List(items) =>
        Write(WriteU32(|items|));
        WriteElements(items);
    }
  }

  lemma {:induction false} StringsSnoc(items: seq<string>, s: string)
    ensures WriteStrings(items + [s]) == WriteStrings(items) + WriteString(s)
  {
    hide WriteString;
    if items == [] {
      assert items + [s] == [s] && [s][1..] == [];
      assert WriteStrings([]) == [];
    } else {
      assert (items + [s])[1..] == items[1..] + [s];
      StringsSnoc(items[1..], s);
    }
  }

  /** Writes the magic, every entry in the table's order, and the end mark. */
  method SaveTo(db: Db.Database) returns (f: File)
    ensures fresh(f) && f.Valid() && f.pos == 0
    ensures exists es: Listing :: Lists(es, db.table) && f.data == Save(es)
  {
    hide WriteEntry, Lists;
    f := new File([]);
    NothingListed();
    f.Write(MAGIC);
    ghost var es: Listing := [];
    assert WriteEntries(es) == [];
    ghost var done: Keyspace.Db := map[];
    var todo := db.table.Keys;
    while todo != {}
      invariant f.Valid() && f.pos == 0 && f.data == MAGIC + WriteEntries(es)
      invariant todo <= db.table.Keys && done == db.table - todo
      invariant Lists(es, done)
    {
      var key :| key in todo;
      var e := db.table[key];
      f.WriteOne(key, e);
      EntriesSnoc(es, key, e);
      ListsSnoc(es, done, key, e);
      es := es + [(key, e)];
      todo := todo - {key};
      done := done[key := e];
    }
    f.Write([END]);
    assert done == db.table;
    assert f.data == Save(es);
  }

  lemma NothingListed()
    ensures Lists([], map[]) && WriteEntries([]) == []
  {}

  lemma ListsSnoc(es: Listing, db: Keyspace.Db, key: string, e: Entry)
    requires Lists(es, db) && key !in db
    ensures Lists(es + [(key, e)], db[key := e])
  {
    var es', db' := es + [(key, e)], db[key := e];
    forall i | 0 <= i < |es| ensures es[i].0 != key {
      assert es[i] in es;
    }
    forall k | k in db' ensures (k, db'[k]) in es' {
      if k == key {
        assert es'[|es|] == (k, db'[k]);
      }
    }
  }

  /** Loads into `db`; `false` means the magic was missing and nothing was touched. */
  method LoadFrom(db: Db.Database, f: File, now: int) returns (ok: bool)
    requires f.Valid()
    modifies db`table, f`pos
    ensures f.Valid()
    ensures match Load(old(db.table), now, old(f.Rest()))
            case None => !ok && db.table == old(db.table)
            case Some(t) => ok && db.table == t
  {
    hide LoadEntries;
    var magic := f.Read(|MAGIC|);
    if magic == None || magic.value != MAGIC {
      return false;
    }
    LoadLoop(db, f, now);
    return true;
  }

  method LoadLoop(db: Db.Database, f: File, now: int)
    requires f.Valid()
    modifies db`table, f`pos
    ensures f.Valid() && db.table == LoadEntries(old(db.table), now, old(f.Rest()))
  {
    hide ReadHead, ReadObj, SkipObj;
    ghost var target := LoadEntries(db.table, now, f.Rest());
    while true
      invariant f.Valid() && LoadEntries(db.table, now, f.Rest()) == target
      decreases |f.Rest()|
    {
      ghost var before := f.Rest();
      ghost var h := ReadHead(before);
      var head := ReadEntryHead(f);
      if head == NoHead {
        break;
      }
      ReadsShrink(h, before);
      if head.expire >= 0 && now > head.expire {
        SkipValue(f, head.kind);
        continue;
      }
      var obj := ReadValue(f, head.kind);
      if obj == None {
        break;
      }
      db.table := db.table[head.key := Entry(obj.value, head.expire)];
    }
  }

  method ReadEntryHead(f: File) returns (h: Head)
    requires f.Valid()
    modifies f`pos
    ensures f.Valid()
    ensures match ReadHead(old(f.Rest()))
            case NoHead => h == NoHead
            case Head(kind, expire, key, rest) => h == Head(kind, expire, key, rest) && f.Rest() == rest
  {
    hide ReadString, ReadI64;
    var kind := f.Read(1);
    if kind == None || kind.value[0] == END {
      return NoHead;
    }
    var expire := f.ReadLong();
    if expire == None {
      return NoHead;
    }
    var key := f.ReadText();
    if key == None {
      return NoHead;
    }
    return Head(kind.value[0], expire.value, key.value, f.Rest());
  }

  method SkipValue(f: File, kind: char)
    requires f.Valid()
    modifies f`pos
    ensures f.Valid() && f.Rest() == SkipObj(kind, old(f.Rest()))
  {
    hide ReadString, ReadI64, ReadU32, ReadStrings;
    if kind == Byte(0) {
      var _ := f.ReadText();
    } else if kind == Byte(1) {
      var _ := f.ReadLong();
    } else if kind == Byte(2) {
      var count := f.ReadWord();
      if count != None {
        var _ := f.ReadElements(count.value);
      }
    }
  }

  method ReadValue(f: File, kind: char) returns (r: Option<Obj>)
    requires f.Valid()
    modifies f`pos
    ensures f.Valid()
    ensures match ReadObj(kind, old(f.Rest()))
            case Stop => r == None
            case Keep(obj, rest) => r == Some(obj) && f.Rest() == rest
  {
    hide ReadString, ReadI64, ReadU32, ReadStrings;
    if kind == Byte(0) {
      var s := f.ReadText();
      r := if s == None then None else Some(Str(s.value));
    } else if kind == Byte(1) {
      var n := f.ReadLong();
      r := if n == None then None else Some(Int(n.value));
    } else if kind == Byte(2) {
      var count := f.ReadWord();
      if count == None {
        return None;
      }
      var items := f.ReadElements(count.value);
      r := Some(List(items));
    } else {
      r := None;
    }
  }

  /**
   Saving a database and loading the file into a fresh one at `now` restores exactly the live entries, and
   nothing depends on the order in which the table was saved.
   */
  method SaveAndReload(db: Db.Database, now: int) returns (loaded: Db.Database)
    requires forall k | k in db.table :: FitsString(k) && FitsObj(db.table[k].obj) && IsInt64(db.table[k].expire)
    ensures fresh(loaded) && loaded.table == TimedMap.Live(db.table, now)
  {
    hide Load, Save;
    var f := SaveTo(db);
    ghost var es: Listing :| Lists(es, db.table) && f.data == Save(es);
    SnapshotRoundTrip(db.table, es, now);
    loaded := new Db.Database(now);
    assert f.Rest() == f.data;
    var ok := LoadFrom(loaded, f, now);
  }
}
