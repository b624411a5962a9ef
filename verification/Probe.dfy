/** Index arithmetic of open addressing over a power-of-two capacity. */
module Probe {
  predicate IsPowerOfTwo(n: nat) {
    n == 1 || (n > 1 && n % 2 == 0 && IsPowerOfTwo(n / 2))
  }

  /** Bitwise conjunction of unsigned numbers. */
  function BitAnd(x: nat, y: nat): nat
    decreases y
  {
    if y == 0 then 0 else (x % 2) * (y % 2) + 2 * BitAnd(x / 2, y / 2)
  }

  /** The slot probed at step `i`, as written. */
  function ProbeIndex(capacity: nat, hash: nat, i: nat): nat
    requires capacity > 0
  {
    BitAnd(hash + i, capacity - 1)
  }

  /** How far `slot` lies from the ideal slot of `hash`, as written. */
  function ProbeDistance(capacity: nat, hash: nat, slot: nat): nat
    requires capacity > 0 && BitAnd(hash, capacity - 1) <= slot + capacity
  {
    BitAnd(slot + capacity - BitAnd(hash, capacity - 1), capacity - 1)
  }

  // ---- The same, on offsets below the capacity and without division ----

  function Home(capacity: nat, hash: nat): (p: nat)
    requires capacity > 0
    ensures p < capacity
  {
    hash % capacity
  }

  function Wrap(capacity: nat, x: nat): nat {
    if x < capacity then x else x - capacity
  }

  /** The slot at offset `d` from the ideal slot. */
  function SlotAt(capacity: nat, hash: nat, d: nat): (p: nat)
    requires d < capacity
    ensures p < capacity
  {
    Wrap(capacity, Home(capacity, hash) + d)
  }

  function Dist(capacity: nat, hash: nat, p: nat): (d: nat)
    requires p < capacity
    ensures d < capacity
    ensures SlotAt(capacity, hash, d) == p
  {
    var home := Home(capacity, hash);
    if p >= home then p - home else p + capacity - home
  }

  lemma DistOfSlotAt(capacity: nat, hash: nat, d: nat)
    requires d < capacity
    ensures Dist(capacity, hash, SlotAt(capacity, hash, d)) == d
  {}

  lemma {:induction false} MulAtLeast(k: int, n: nat)
    requires k >= 1
    ensures k * n >= n
  {
    if k > 1 {
      MulAtLeast(k - 1, n);
      assert k * n == (k - 1) * n + n;
    }
  }

  lemma Distribute(a: int, b: int, n: int)
    ensures (a - b) * n == a * n - b * n
  {}

  lemma ModUnique(x: int, n: nat, q: int, r: nat)
    requires n > 0 && x == q * n + r && r < n
    ensures x % n == r
  {
    var q' := x / n;
    var r' := x - q' * n;
    assert r' == x % n;
    Distribute(q, q', n);
    if q > q' {
      MulAtLeast(q - q', n);
    } else if q < q' {
      MulAtLeast(q' - q, n);
      Distribute(q', q, n);
    }
  }

  /** Masking with `capacity - 1` is the remainder. */
  lemma {:induction false} MaskIsMod(x: nat, capacity: nat)
    requires IsPowerOfTwo(capacity)
    ensures BitAnd(x, capacity - 1) == x % capacity
    decreases capacity
  {
    if capacity > 1 {
      var m := capacity / 2;
      var y, b := x / 2, x % 2;
      MaskIsMod(y, m);
      assert (capacity - 1) % 2 == 1 && (capacity - 1) / 2 == m - 1;
      DoubledMod(y, b, m);
    }
  }

  lemma DoubledMod(y: nat, b: nat, m: nat)
    requires m > 0 && b < 2
    ensures (2 * y + b) % (2 * m) == 2 * (y % m) + b
  {
    var q := y / m;
    assert y == q * m + y % m;
    Double(q, m);
    ModUnique(2 * y + b, 2 * m, q, 2 * (y % m) + b);
  }

  lemma Double(q: int, m: int)
    ensures 2 * (q * m) == q * (2 * m)
  {}

  lemma ModAdd(a: nat, b: nat, n: nat)
    requires n > 0
    ensures (a + b) % n == Wrap(n, a % n + b % n)
  {
    var s := a % n + b % n;
    assert a + b == (a / n + b / n) * n + s;
    if s < n {
      ModUnique(a + b, n, a / n + b / n, s);
    } else {
      assert a + b == (a / n + b / n + 1) * n + (s - n);
      ModUnique(a + b, n, a / n + b / n + 1, s - n);
    }
  }

  lemma ProbeIndexIsSlotAt(capacity: nat, hash: nat, i: nat)
    requires IsPowerOfTwo(capacity)
    ensures ProbeIndex(capacity, hash, i) == SlotAt(capacity, hash, i % capacity)
  {
    hide BitAnd;
    MaskIsMod(hash + i, capacity);
    ModAdd(hash, i, capacity);
  }

  lemma ProbeDistanceIsDist(capacity: nat, hash: nat, p: nat)
    requires IsPowerOfTwo(capacity) && p < capacity
    ensures BitAnd(hash, capacity - 1) <= p + capacity
    ensures ProbeDistance(capacity, hash, p) == Dist(capacity, hash, p)
  {
    MaskIsMod(hash, capacity);
    var home := Home(capacity, hash);
    var x := p + capacity - home;
    MaskIsMod(x, capacity);
    ModUnique(x, capacity, if p >= home then 1 else 0, Dist(capacity, hash, p));
  }

  /** One more probe step, on offsets. */
  lemma NextStep(i: nat, capacity: nat)
    requires capacity > 1
    ensures (i + 1) % capacity == Wrap(capacity, i % capacity + 1)
  {
    ModAdd(i, 1, capacity);
    ModUnique(1, capacity, 0, 1);
  }

  /** Integer division compares like multiplication. */
  lemma QuotientAbove(x: nat, n: nat, k: nat)
    requires n > 0
    ensures x / n > k <==> x >= (k + 1) * n
  {
    var q := x / n;
    assert x == q * n + x % n;
    if q > k {
      assert q * n >= (k + 1) * n;
    } else {
      assert q * n <= k * n;
      assert (k + 1) * n == k * n + n;
    }
  }
}
