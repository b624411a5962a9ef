/** The growable byte buffer that command replies are written into. */
module ReplyBuffer {
  import opened CText
  import opened Resp

  /** `realloc`: a block of `capacity` bytes that keeps the first `len`. */
  method Realloc(block: array<char>, len: nat, capacity: nat) returns (r: array<char>)
    requires len <= block.Length && len <= capacity
    ensures fresh(r) && r.Length == capacity
    ensures r[..len] == block[..len]
  {
    r := new char[capacity](_ => '\0');
    for i := 0 to len
      invariant r[..i] == block[..i]
    {
      r[i] := block[i];
      assert r[..i + 1] == r[..i] + [block[i]] && block[..i + 1] == block[..i] + [block[i]];
    }
  }

  /** `memcpy` of a string to offset `at`. */
  method Copy(block: array<char>, at: nat, data: string)
    requires at + |data| <= block.Length
    modifies block
    ensures block[..at + |data|] == old(block[..at]) + data
    ensures block[at + |data|..] == old(block[at + |data|..])
  {
    forall i | 0 <= i < |data| {
      block[at + i] := data[i];
    }
  }

  class Buffer {
    var buf: array<char>
    var len: nat
    var cap: nat
    /** The memory behind the scratch buffer of formatted lines. */
    const behind: nat -> char

    ghost predicate Valid()
      reads this
    {
      buf.Length == cap && len <= cap && cap > 0
    }

    /** The bytes written so far. */
    ghost function Contents(): string
      requires Valid()
      reads this, buf
    {
      buf[..len]
    }

    constructor (behind: nat -> char)
      ensures Valid() && fresh(buf) && this.behind == behind
      ensures Contents() == []
    {
      this.behind := behind;
      cap := 256;
      buf := new char[256];
      len := 0;
    }

    /** Room for `extra` more bytes, by doubling. */
    method Ensure(extra: nat)
      requires Valid()
      modifies this`buf, this`cap
      ensures Valid() && len + extra <= cap
      ensures buf == old(buf) || fresh(buf)
      ensures Contents() == old(Contents())
    {
      while len + extra > cap
        invariant Valid() && (buf == old(buf) || fresh(buf))
        invariant Contents() == old(Contents())
        decreases len + extra - cap
      {
        buf := Realloc(buf, len, cap * 2);
        cap := cap * 2;
      }
    }

    method Append(data: string)
      requires Valid()
      modifies this, buf
      ensures Valid() && (buf == old(buf) || fresh(buf))
      ensures Contents() == old(Contents()) + data
    {
      Ensure(|data|);
      Copy(buf, len, data);
      len := len + |data|;
    }

    /** A line printed to the scratch buffer, and as many bytes copied from there as the line has. */
    method AppendFormatted(line: string)
      requires Valid()
      modifies this, buf
      ensures Valid() && (buf == old(buf) || fresh(buf))
      ensures Contents() == old(Contents()) + Formatted(line, behind)
    {
      var tmp := Stored(line, SCRATCH_SIZE);
      var n := |line|;
      if n < SCRATCH_SIZE {
        Append(tmp);
      } else {
        Append(tmp + ['\0'] + seq(n - SCRATCH_SIZE, i requires 0 <= i => behind(i)));
      }
    }

    method WriteSimpleString(s: string)
      requires Valid()
      modifies this, buf
      ensures Valid() && (buf == old(buf) || fresh(buf))
      ensures Contents() == old(Contents()) + Formatted(Write(SimpleString(s)), behind)
    {
      AppendFormatted(['+'] + s + CRLF);
    }

    method WriteError(s: string)
      requires Valid()
      modifies this, buf
      ensures Valid() && (buf == old(buf) || fresh(buf))
      ensures Contents() == old(Contents()) + Formatted(Write(Error(s)), behind)
    {
      AppendFormatted(['-'] + s + CRLF);
    }

    method WriteInteger(n: int)
      requires Valid()
      modifies this, buf
      ensures Valid() && (buf == old(buf) || fresh(buf))
      ensures Contents() == old(Contents()) + Write(Integer(n))
    {
      Append([':'] + Print(n) + CRLF);
    }

    method WriteBulkString(s: string)
      requires Valid()
      modifies this, buf
      ensures Valid() && (buf == old(buf) || fresh(buf))
      ensures Contents() == old(Contents()) + Write(BulkString(s))
    {
      Append(['$'] + Print(|s|) + CRLF);
      Append(s);
      Append(CRLF);
      assert Write(BulkString(s)) == WriteHeader('$', |s|) + (s + CRLF);
    }

    method WriteNil()
      requires Valid()
      modifies this, buf
      ensures Valid() && (buf == old(buf) || fresh(buf))
      ensures Contents() == old(Contents()) + Write(Nil)
    {
      assert PrintNat(1) == "1";
      assert Write(Nil) == "$-1\r\n";
      Append("$-1\r\n");
    }

    method WriteArrayHeader(count: nat)
      requires Valid()
      modifies this, buf
      ensures Valid() && (buf == old(buf) || fresh(buf))
      ensures Contents() == old(Contents()) + WriteHeader('*', count)
    {
      Append(['*'] + Print(count) + CRLF);
    }
  }
}
