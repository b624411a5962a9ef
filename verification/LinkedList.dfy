/** The doubly linked list of strings behind list values. */
module LinkedList {
  import opened Wrappers
  import opened CText

  class Node {
    var prev: Node?
    var next: Node?
    const value: string
    /** The node's place in its list, counted so that pushes and pops at either end move no other node. */
    ghost const pos: int

    constructor (value: string, ghost pos: int)
      ensures this.value == value && this.pos == pos && prev == null && next == null
    {
      this.value := value;
      this.pos := pos;
      prev := null;
      next := null;
    }
  }

  /** The node at a position, or null beyond the ends. */
  ghost function NodeAt(spine: seq<Node>, i: int): Node? {
    if 0 <= i < |spine| then spine[i] else null
  }

  ghost function ValuesOf(spine: seq<Node>): (vs: seq<string>)
    ensures |vs| == |spine|
  {
    seq(|spine|, i requires 0 <= i < |spine| => spine[i].value)
  }

  lemma ValuesAppend(a: seq<Node>, b: seq<Node>)
    ensures ValuesOf(a + b) == ValuesOf(a) + ValuesOf(b)
  {}

  lemma ValuesTake(s: seq<Node>, n: nat)
    requires n <= |s|
    ensures ValuesOf(s[..n]) == ValuesOf(s)[..n]
    ensures ValuesOf(s[n..]) == ValuesOf(s)[n..]
  {}

  lemma ValueAt(s: seq<Node>, i: nat)
    requires i < |s|
    ensures ValuesOf(s)[i] == s[i].value
  {}

  class List {
    var head: Node?
    var tail: Node?
    var length: nat
    /** The nodes in order. */
    ghost var spine: seq<Node>
    /** The place of the first node. */
    ghost var base: int
    /** Every node the list has had, which covers those on the spine. */
    ghost var nodes: set<Node>

    /** Forward links spell the spine, backward links spell it reversed, and `length` is its size. */
    ghost predicate Valid()
      reads this, nodes
    {
      && length == |spine|
      && (forall i {:trigger spine[i]} | 0 <= i < |spine| :: spine[i] in nodes && spine[i].pos == base + i)
      && head == NodeAt(spine, 0)
      && tail == NodeAt(spine, |spine| - 1)
      && (forall i {:trigger spine[i].next} | 0 <= i < |spine| :: spine[i].next == NodeAt(spine, i + 1))
      && (forall i {:trigger spine[i].prev} | 0 <= i < |spine| :: spine[i].prev == NodeAt(spine, i - 1))
    }

    /** The list as a sequence of strings. */
    ghost function Values(): seq<string>
      reads this
    {
      ValuesOf(spine)
    }

    constructor ()
      ensures Valid() && Values() == [] && nodes == {}
    {
      head, tail, length := null, null, 0;
      spine, base, nodes := [], 0, {};
    }

    method LPush(value: string)
      requires Valid()
      modifies this, nodes
      ensures Valid() && Values() == [value] + old(Values()) && fresh(nodes - old(nodes))
    {
      var n := new Node(value, base - 1);
      ValuesAppend([n], spine);
      LinkFirst(n);
    }

    method LinkFirst(n: Node)
      requires Valid() && n !in nodes && n.prev == n.next == null && n.pos == base - 1
      modifies this, nodes, n
      ensures Valid() && spine == [n] + old(spine) && nodes == old(nodes) + {n}
    {
      ghost var s := spine;
      if head != null {
        assert head == s[0];
        n.next := head;
        head.prev := n;
        head := n;
      } else {
        head := n;
        tail := n;
      }
      length := length + 1;
      spine, base, nodes := [n] + s, base - 1, nodes + {n};
      forall i | 0 <= i < |spine|
        ensures spine[i] in nodes && spine[i].pos == base + i
        ensures spine[i].next == NodeAt(spine, i + 1) && spine[i].prev == NodeAt(spine, i - 1)
      {
        if i > 0 {
          assert spine[i] == s[i - 1];
          assert s[i - 1] in old(nodes) && s[i - 1].pos == base + i;
          assert i > 1 ==> s[0].pos == base + 1;
        }
      }
    }

    method RPush(value: string)
      requires Valid()
      modifies this, nodes
      ensures Valid() && Values() == old(Values()) + [value] && fresh(nodes - old(nodes))
    {
      var n := new Node(value, base + |spine|);
      ValuesAppend(spine, [n]);
      LinkLast(n);
    }

    method LinkLast(n: Node)
      requires Valid() && n !in nodes && n.prev == n.next == null && n.pos == base + |spine|
      modifies this, nodes, n
      ensures Valid() && spine == old(spine) + [n] && nodes == old(nodes) + {n}
    {
      ghost var s := spine;
      if tail != null {
        assert tail == s[|s| - 1];
        n.prev := tail;
        tail.next := n;
        tail := n;
      } else {
        head := n;
        tail := n;
      }
      length := length + 1;
      spine, nodes := s + [n], nodes + {n};
      forall i | 0 <= i < |spine|
        ensures spine[i] in nodes && spine[i].pos == base + i
        ensures spine[i].next == NodeAt(spine, i + 1) && spine[i].prev == NodeAt(spine, i - 1)
      {
        if i < |s| {
          assert spine[i] == s[i];
        }
      }
    }

    method LPop() returns (r: Option<string>)
      requires Valid()
      modifies this, nodes
      ensures Valid() && nodes == old(nodes)
      ensures var vs := old(Values());
              if vs == [] then r == None && Values() == []
              else r == Some(vs[0]) && Values() == vs[1..]
    {
      if head == null {
        return None;
      }
      ValuesTake(spine, 1);
      ValueAt(spine, 0);
      var n := UnlinkFirst();
      r := Some(n.value);
    }

    method UnlinkFirst() returns (n: Node)
      requires Valid() && head != null
      modifies this, nodes
      ensures Valid() && old(spine) == [n] + spine && nodes == old(nodes)
    {
      ghost var s := spine;
      n := head;
      assert n == s[0];
      head := n.next;
      assert head == NodeAt(s, 1);
      if head != null {
        assert head == s[1];
        head.prev := null;
      } else {
        tail := null;
      }
      length := length - 1;
      spine, base := s[1..], base + 1;
      forall i | 0 <= i < |spine|
        ensures spine[i] in nodes && spine[i].pos == base + i
        ensures spine[i].next == NodeAt(spine, i + 1) && spine[i].prev == NodeAt(spine, i - 1)
      {
        assert spine[i] == s[i + 1];
      }
    }

    method RPop() returns (r: Option<string>)
      requires Valid()
      modifies this, nodes
      ensures Valid() && nodes == old(nodes)
      ensures var vs := old(Values());
              if vs == [] then r == None && Values() == []
              else r == Some(vs[|vs| - 1]) && Values() == vs[..|vs| - 1]
    {
      if tail == null {
        return None;
      }
      ValuesTake(spine, |spine| - 1);
      ValueAt(spine, |spine| - 1);
      var n := UnlinkLast();
      r := Some(n.value);
    }

    method UnlinkLast() returns (n: Node)
      requires Valid() && tail != null
      modifies this, nodes
      ensures Valid() && old(spine) == spine + [n] && nodes == old(nodes)
    {
      ghost var s := spine;
      ghost var last := |s| - 1;
      n := tail;
      assert n == s[last];
      tail := n.prev;
      assert tail == NodeAt(s, last - 1);
      if tail != null {
        assert tail == s[last - 1];
        tail.next := null;
      } else {
        head := null;
      }
      length := length - 1;
      spine := s[..last];
      forall i | 0 <= i < |spine|
        ensures spine[i] in nodes && spine[i].pos == base + i
        ensures spine[i].next == NodeAt(spine, i + 1) && spine[i].prev == NodeAt(spine, i - 1)
      {
        assert spine[i] == s[i];
        assert i < last - 1 ==> s[i].pos != s[last - 1].pos;
      }
    }

    /**
     The clamped slice from `start` to `stop`, both inclusive and counted from the end when negative. The length
     is cut to an `int` first, so of a list of 2^31 or more elements only a part is visible.
     */
    method Range(start: int, stop: int) returns (r: seq<string>)
      requires Valid() && IsInt32(start) && IsInt32(stop)
      ensures r == Slice(Visible(Values()), start, stop)
    {
      hide ToInt32, Valid, Slice, Between, Visible, ValuesOf;
      CutLength(Values());
      SliceCases(Visible(Values()), start, stop);
      LengthIsSize();
      var len := ToInt32(length);
      var first := if start < 0 then ToInt32(len + start) else start;
      var last := if stop < 0 then ToInt32(len + stop) else stop;
      SumsFit(len, start);
      SumsFit(len, stop);
      SumsFit(len, -1);
      if first < 0 {
        first := 0;
      }
      if last >= len {
        last := ToInt32(len - 1);
      }
      if first > last || first >= len {
        return [];
      }
      r := CopyOut(first, last - first + 1);
    }

    lemma LengthIsSize()
      requires Valid()
      ensures length == |spine| == |Values()|
    {}

    /** The node reached by following `i` forward links. */
    method WalkTo(i: nat) returns (node: Node?)
      requires Valid() && i <= |spine|
      ensures node == NodeAt(spine, i)
    {
      node := head;
      for k := 0 to i
        invariant node == NodeAt(spine, k)
      {
        assert node == spine[k];
        node := node.next;
      }
    }

    lemma NextOf(i: nat)
      requires Valid() && i < |spine|
      ensures NodeAt(spine, i) == spine[i] && spine[i].next == NodeAt(spine, i + 1)
    {}

    /** Walks to the first node of a range, then copies from its `n` nodes. */
    method CopyOut(first: nat, n: nat) returns (r: seq<string>)
      requires Valid() && first + n <= |spine|
      ensures r == Values()[first..first + n]
    {
      hide ValuesOf, Copied, Valid;
      var result := new string[n](_ => []);
      var node := WalkTo(first);
      NoneCopied(spine, first);
      assert result[..0] == [];
      for i := 0 to n
        invariant Valid() && node == NodeAt(spine, first + i)
        invariant Copied(result[..i], spine, first)
      {
        CopyOne(result[..i], spine, first);
        NextOf(first + i);
        result[i] := node.value;
        assert result[..i + 1] == result[..i] + [node.value];
        node := node.next;
      }
      r := result[..n];
      AllCopied(r, spine, first);
    }
  }

  ghost predicate Copied(r: seq<string>, s: seq<Node>, first: nat) {
    first + |r| <= |s| && r == ValuesOf(s[first..first + |r|])
  }

  lemma NoneCopied(s: seq<Node>, first: nat)
    requires first <= |s|
    ensures Copied([], s, first)
  {}

  lemma CopyOne(r: seq<string>, s: seq<Node>, first: nat)
    requires Copied(r, s, first) && first + |r| < |s|
    ensures Copied(r + [s[first + |r|].value], s, first)
  {
    var part := s[first..first + |r|];
    var node := s[first + |r|];
    assert s[first..first + |r| + 1] == part + [node];
    ValuesAppend(part, [node]);
  }

  lemma AllCopied(r: seq<string>, s: seq<Node>, first: nat)
    requires Copied(r, s, first)
    ensures r == ValuesOf(s)[first..first + |r|]
  {
    ValuesTake(s, first + |r|);
    ValuesTake(s[..first + |r|], first);
  }

  // ---- What a range is ----

  /** The elements that a range can reach: all of them, unless the length does not fit an `int`. */
  function Visible(vs: seq<string>): (r: seq<string>)
    ensures r <= vs
  {
    var len := ToInt32(|vs|);
    if len < 0 then [] else CutIsShorter(|vs|); vs[..len]
  }

  lemma CutIsShorter(n: nat)
    ensures ToInt32(n) <= n && ToInt32(n) <= INT32_MAX
  {}

  /** A range reaches every element if and only if the length fits an `int`. */
  lemma VisibleAll(vs: seq<string>)
    ensures Visible(vs) == vs <==> |vs| <= INT32_MAX
  {
    CutIsShorter(|vs|);
    if |vs| <= INT32_MAX {
      ToInt32Identity(|vs|);
    }
  }

  lemma CutLength(vs: seq<string>)
    ensures IsInt32(ToInt32(|vs|))
    ensures if ToInt32(|vs|) < 0 then Visible(vs) == [] else |Visible(vs)| == ToInt32(|vs|)
  {}

  /** An index counted from the end of a list does not leave `int`. */
  lemma SumsFit(len: int, i: int)
    requires IsInt32(len) && IsInt32(i)
    ensures len >= 0 && i < 0 ==> ToInt32(len + i) == len + i
  {}

  /** An index argument resolved against a length. */
  function Resolve(len: nat, i: int): int { if i < 0 then len + i else i }

  /** The part of `vs` with indices from `first` to `last`. */
  function Between(vs: seq<string>, first: int, last: int): seq<string> {
    var lo := if first < 0 then 0 else first;
    var hi := if last >= |vs| then |vs| - 1 else last;
    if lo > hi then [] else vs[lo..hi + 1]
  }

  function Slice(vs: seq<string>, start: int, stop: int): seq<string> {
    Between(vs, Resolve(|vs|, start), Resolve(|vs|, stop))
  }

  /** What a client asks for with LRANGE. */
  function ListRange(vs: seq<string>, start: int, stop: int): seq<string> { Slice(Visible(vs), start, stop) }

  lemma SliceCases(vs: seq<string>, start: int, stop: int)
    ensures var lo := if Resolve(|vs|, start) < 0 then 0 else Resolve(|vs|, start);
            var hi := if Resolve(|vs|, stop) >= |vs| then |vs| - 1 else Resolve(|vs|, stop);
            Slice(vs, start, stop) == if lo > hi then [] else vs[lo..hi + 1]
  {}

  /** The elements of a list whose index satisfies a test, in order. */
  function Select(vs: seq<string>, keep: int -> bool): seq<string> {
    if vs == [] then []
    else
      var n := |vs| - 1;
      Select(vs[..n], keep) + if keep(n) then [vs[n]] else []
  }

  /** A range holds exactly the elements whose index lies between the resolved bounds. */
  lemma {:induction false} SliceSelects(vs: seq<string>, start: int, stop: int)
    ensures var first, last := Resolve(|vs|, start), Resolve(|vs|, stop);
            Slice(vs, start, stop) == Select(vs, i => first <= i <= last)
  {
    var first, last := Resolve(|vs|, start), Resolve(|vs|, stop);
    SelectInterval(vs, first, last);
  }

  lemma {:induction false} SelectInterval(vs: seq<string>, first: int, last: int)
    ensures Select(vs, i => first <= i <= last) == Between(vs, first, last)
  {
    if vs != [] {
      var n := |vs| - 1;
      SelectInterval(vs[..n], first, last);
      BetweenLast(vs, first, last);
    }
  }

  lemma BetweenLast(vs: seq<string>, first: int, last: int)
    requires vs != []
    ensures var n := |vs| - 1;
            Between(vs, first, last) == Between(vs[..n], first, last) + if first <= n <= last then [vs[n]] else []
  {
    var n := |vs| - 1;
    var lo := if first < 0 then 0 else first;
    if first <= n <= last {
      assert vs[lo..n + 1] == vs[lo..n] + [vs[n]];
      assert vs[..n][lo..n] == vs[lo..n];
      assert Between(vs, first, last) == vs[lo..n + 1];
    } else if lo <= last < n {
      assert vs[..n][lo..last + 1] == vs[lo..last + 1];
    }
  }
}
