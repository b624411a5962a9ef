/** The parser as written: a recursive scan over a read-only buffer, with C's return convention. */
module RespParser {
  import opened Wrappers
  import opened CText
  import opened Resp

  /** The offset of the first CRLF among the `len` bytes at `off`. */
  method FindCrlfIn(buf: array<char>, off: nat, len: nat) returns (r: Option<nat>)
    requires off + len <= buf.Length
    ensures r == FindCrlf(buf[off..off + len])
  {
    ghost var s := buf[off..off + len];
    var i := 0;
    while i + 1 < len
      invariant forall j: nat | j < i :: !CrlfAt(s, j)
    {
      if buf[off + i] == '\r' && buf[off + i + 1] == '\n' {
        assert CrlfAt(s, i);
        return Some(i);
      }
      i := i + 1;
    }
    assert forall j: nat | j < |s| :: !CrlfAt(s, j);
    return None;
  }

  lemma NoLineIncomplete(s: string, tail: Tail)
    requires FindCrlf(s) == None
    ensures Parse(s, tail) == Incomplete
  {}

  lemma HeaderVerdict(s: string, k: nat, bytes: string)
    requires FindCrlf(s) == Some(k)
    ensures Parse(s, Seen(bytes)) ==
            if s[0] == '+' then Complete(SimpleString(CutAtNul(s[1..k])), k + 2)
            else if s[0] == '-' then Complete(Error(CutAtNul(s[1..k])), k + 2)
            else if IsNumbered(s[0]) then ParseNumbered(s, k + 2, StrToLL(s[1..] + bytes), Seen(bytes))
            else Malformed
  {}

  lemma Slice(buf: array<char>, off: nat, len: nat, a: nat, b: nat)
    requires off + len <= buf.Length && a <= b <= len
    ensures buf[off..off + len][a..b] == buf[off + a..off + b]
  {
    var s := buf[off..off + len];
    assert forall i | a <= i < b :: s[i] == buf[off + i];
  }

  lemma Suffix(buf: array<char>, a: nat, m: nat, b: nat)
    requires a + m <= b <= buf.Length
    ensures buf[a..b][m..] == buf[a + m..b]
  {}

  /** The body of a bulk string whose header takes `consumed` bytes. */
  method ReadBulk(buf: array<char>, off: nat, len: nat, consumed: nat, bulkLen: nat)
    returns (n: int, out: Option<Value>)
    requires off + len <= buf.Length && consumed <= len
    ensures Returned(ParseBulk(buf[off..off + len], consumed, bulkLen), n, out)
  {
    hide CutAtNul;
    var need := consumed + bulkLen + 2;
    if need > len {
      return 0, None;
    }
    Slice(buf, off, len, consumed, consumed + bulkLen);
    var body := buf[off + consumed..off + consumed + bulkLen];
    BulkVerdict(buf[off..off + len], consumed, bulkLen, body);
    return need, Some(BulkString(CutAtNul(body)));
  }

  lemma BulkVerdict(s: string, consumed: nat, bulkLen: nat, body: string)
    requires consumed + bulkLen + 2 <= |s| && body == s[consumed..consumed + bulkLen]
    ensures ParseBulk(s, consumed, bulkLen) == Complete(BulkString(CutAtNul(body)), consumed + bulkLen + 2)
  {}

  /** The values in front of a verdict on the items after them. */
  ghost function PrependAll(vs: seq<Value>, n: nat, rest: Verdict): Verdict
    requires rest.Complete? ==> rest.value.Array?
  {
    if rest.Complete? then Complete(Array(vs + rest.value.items), n + rest.consumed) else rest
  }

  ghost predicate Returned(v: Verdict, n: int, out: Option<Value>) {
    match v
    case Incomplete => n == 0 && out == None
    case Malformed => n == -1 && out == None
    case Ambiguous => false
    case Complete(value, consumed) => n == consumed && out == Some(value)
  }

  /** Parses the `len` bytes at `off`; the rest of `buf` is what a number conversion may run into. */
  method ParseValue(buf: array<char>, off: nat, len: nat) returns (n: int, out: Option<Value>)
    requires off + len <= buf.Length && len <= INT32_MAX
    ensures Returned(Parse(buf[off..off + len], Seen(buf[off + len..])), n, out)
    decreases len, 0
  {
    hide Parse, ParseNumbered, FindCrlf;
    ghost var s, tail := buf[off..off + len], Seen(buf[off + len..]);
    if len == 0 {
      EmptyHasNoLine();
      NoLineIncomplete(s, tail);
      return 0, None;
    }
    var crlf := FindCrlfIn(buf, off, len);
    if crlf == None {
      NoLineIncomplete(s, tail);
      return 0, None;
    }
    var lineLen := crlf.value;
    var consumed := lineLen + 2;
    HeaderVerdict(s, lineLen, tail.bytes);
    match buf[off]
    case '+' =>
      Slice(buf, off, len, 1, lineLen);
      return consumed, Some(SimpleString(CutAtNul(buf[off + 1..off + lineLen])));
    case '-' =>
      Slice(buf, off, len, 1, lineLen);
      return consumed, Some(Error(CutAtNul(buf[off + 1..off + lineLen])));
    case ':' | '$' | '*' =>
      NumberSeen(buf, off, len);
      n, out := ParseNumber(buf, off, len, consumed);
    case _ =>
      return -1, None;
  }

  lemma EmptyHasNoLine()
    ensures FindCrlf([]) == None
  {}

  /** What a number conversion sees: everything from the second byte of the value on. */
  lemma NumberSeen(buf: array<char>, off: nat, len: nat)
    requires off + len <= buf.Length && len > 0
    ensures buf[off..off + len][1..] + buf[off + len..] == buf[off + 1..]
  {
    Slice(buf, off, len, 1, len);
    assert buf[off..off + len][1..] == buf[off..off + len][1..len];
    assert buf[off + 1..] == buf[off + 1..off + len] + buf[off + len..];
  }

  /** A value whose header line holds a number. */
  method ParseNumber(buf: array<char>, off: nat, len: nat, consumed: nat) returns (n: int, out: Option<Value>)
    requires off + len <= buf.Length && 3 <= consumed <= len <= INT32_MAX
    requires IsNumbered(buf[off])
    ensures Returned(ParseNumbered(buf[off..off + len], consumed, StrToLL(buf[off + 1..]), Seen(buf[off + len..])), n, out)
    decreases len - consumed, 2
  {
    hide StrToLL, ToInt32, ParseBulk, ParseItems;
    if buf[off] == ':' {
      return consumed, Some(Integer(StrToLL(buf[off + 1..])));
    }
    var count := Atoi(buf[off + 1..]);
    if count == -1 {
      return consumed, Some(Nil);
    }
    if count < 0 {
      return -1, None;
    }
    if buf[off] == '$' {
      n, out := ReadBulk(buf, off, len, consumed, count);
    } else {
      Slice(buf, off, len, consumed, len);
      assert buf[off..off + len][consumed..] == buf[off..off + len][consumed..len];
      n, out := ParseElements(buf, off, len, consumed, count);
    }
  }

  /** The loop over the elements of an array whose header takes `consumed` bytes. */
  method ParseElements(buf: array<char>, off: nat, len: nat, consumed: nat, arrCount: nat)
    returns (n: int, out: Option<Value>)
    requires off + len <= buf.Length && len <= INT32_MAX
    requires 0 < consumed <= len
    ensures var items := ParseItems(buf[off + consumed..off + len], arrCount, Seen(buf[off + len..]));
            Returned(Shift(items, consumed), n, out)
    decreases len - consumed, 1
  {
    hide Parse, ParseItems, Prepend, PrependAll;
    ghost var tail := Seen(buf[off + len..]);
    NothingInFront(ParseItems(buf[off + consumed..off + len], arrCount, tail));
    ghost var all := ParseItems(buf[off + consumed..off + len], arrCount, tail);
    var items := new Value[arrCount](_ => Nil);
    var total := consumed;
    for i := 0 to arrCount
      invariant consumed <= total <= len
      invariant all == PrependAll(items[..i], total - consumed,
                                  ParseItems(buf[off + total..off + len], arrCount - i, tail))
    {
      ghost var here := buf[off + total..off + len];
      ghost var before := items[..i];
      var m, item := ParseValue(buf, off + total, len - total);
      assert tail == Seen(buf[off + total + (len - total)..]);
      ItemsAdvance(here, arrCount - i - 1, tail);
      if m <= 0 {
        NoneInFront(before, total - consumed, Parse(here, tail));
        return m, None;
      }
      Suffix(buf, off + total, m, off + len);
      PrependStep(before, total - consumed, item.value, m, ParseItems(here[m..], arrCount - i - 1, tail));
      items[i] := item.value;
      assert items[..i + 1] == items[..i] + [item.value] && items[..i] == before;
      total := total + m;
    }
    NoItems(buf[off + total..off + len], tail);
    AllInFront(items[..], total - consumed);
    assert items[..arrCount] == items[..];
    return total, Some(Array(items[..]));
  }

  lemma ItemsAdvance(s: string, count: nat, tail: Tail)
    ensures var first := Parse(s, tail);
            ParseItems(s, count + 1, tail) ==
            if first.Complete? then Prepend(first.value, first.consumed, ParseItems(s[first.consumed..], count, tail))
            else first
  {
    hide Parse;
  }

  lemma NothingInFront(items: Verdict)
    requires items.Complete? ==> items.value.Array?
    ensures PrependAll([], 0, items) == items
  {
    if items.Complete? {
      assert [] + items.value.items == items.value.items;
    }
  }

  lemma NoneInFront(vs: seq<Value>, n: nat, rest: Verdict)
    requires !rest.Complete?
    ensures PrependAll(vs, n, rest) == rest
  {}

  lemma AllInFront(vs: seq<Value>, n: nat)
    ensures PrependAll(vs, n, Complete(Array([]), 0)) == Complete(Array(vs), n)
  {
    assert vs + [] == vs;
  }

  lemma PrependStep(vs: seq<Value>, total: nat, v: Value, n: nat, rest: Verdict)
    requires rest.Complete? ==> rest.value.Array?
    ensures PrependAll(vs, total, Prepend(v, n, rest)) == PrependAll(vs + [v], total + n, rest)
  {
    if rest.Complete? {
      assert vs + ([v] + rest.value.items) == (vs + [v]) + rest.value.items;
    }
  }
}
