/** Where the element with unbounded index k lives in a ring of a power-of-two size, and why
    64-bit positions that wrap around name the same slots and distances. */
module Slots {
  import opened Powers
  import opened Bits

  function Min(a: nat, b: nat): nat {
    if a <= b then a else b
  }

  /** The slot of an unbounded position. */
  function Slot(k: nat, capacity: nat): (s: nat)
    requires capacity > 0
    ensures s < capacity
  {
    k % capacity
  }

  /** pos & (capacity - 1). */
  function Masked(pos: nat, capacity: nat): nat
    requires capacity > 0
  {
    And(pos, capacity - 1)
  }

  /** a - b on 64-bit unsigned integers. */
  function Distance(a: nat, b: nat): (d: nat)
    ensures d < WORD
  {
    (a - b) % WORD
  }

  ghost predicate ValidCapacity(c: nat) {
    IsPow2(c) && 0 < c <= WORD / 2
  }

  lemma WordIsPow2()
    ensures WORD == Pow2(64)
  {
    assert Pow2(8) == 0x100;
    Pow2Add(8, 8);
    Pow2Add(16, 16);
    Pow2Add(32, 32);
  }

  lemma CapacityDividesWord(c: nat) returns (q: nat)
    requires ValidCapacity(c)
    ensures WORD == q * c
  {
    var p: nat :| c == Pow2(p);
    WordIsPow2();
    if p > 64 {
      Pow2Monotone(64, p);
    }
    Pow2Add(64 - p, p);
    q := Pow2(64 - p);
  }

  lemma AddMultiple(x: nat, q: nat, c: nat)
    requires c > 0
    ensures (x + q * c) % c == x % c
  {
    assert (x / c + q) * c == (x / c) * c + q * c;
    RemainderIs(x + q * c, c, x / c + q, x % c);
  }

  /** Masking a wrapped position gives the slot of the unbounded one. */
  lemma WrappedSlot(k: nat, c: nat)
    requires ValidCapacity(c)
    ensures Masked(k % WORD, c) == Slot(k, c)
  {
    var q := CapacityDividesWord(c);
    var p: nat :| c == Pow2(p);
    var m, x := k / WORD, k % WORD;
    MaskIsRemainder(x, p);
    assert k == x + (m * q) * c by {
      assert m * (q * c) == (m * q) * c;
    }
    AddMultiple(x, m * q, c);
  }

  /** pos + n on 64-bit unsigned integers. */
  function Advance(pos: nat, n: nat): (p: nat)
    ensures p < WORD
  {
    (pos + n) % WORD
  }

  lemma WrappedAdvance(k: nat, n: nat)
    ensures Advance(k % WORD, n) == (k + n) % WORD
  {
    AddMultiple(k % WORD + n, k / WORD, WORD);
  }

  /** Unbounded positions less than 2^64 apart: wrapping keeps their distance. */
  lemma WrappedDistance(w: nat, r: nat)
    requires r <= w < r + WORD
    ensures Distance(w % WORD, r % WORD) == w - r
  {
    var d := w % WORD - r % WORD;
    assert w - r == (w / WORD - r / WORD) * WORD + d;
  }

  lemma MultipleOrder(q: int, c: nat)
    ensures q <= 0 ==> q * c <= 0
    ensures q >= 1 ==> q * c >= c
  {
  }

  /** Indices less than a capacity apart share no slot. */
  lemma DistinctSlots(a: nat, b: nat, c: nat)
    requires c > 0 && a < b < a + c
    ensures Slot(a, c) != Slot(b, c)
  {
    var q := b / c - a / c;
    assert q * c == b - a - (b % c - a % c);
    MultipleOrder(q, c);
  }

  /** The slot of the i-th element from k on: straight, or round the corner. */
  lemma SlotFrom(k: nat, i: nat, c: nat)
    requires c > 0 && i < c
    ensures Slot(k + i, c) == if i < c - Slot(k, c) then Slot(k, c) + i else i - (c - Slot(k, c))
  {
    var x := k % c + i;
    if x < c {
      RemainderIs(k + i, c, k / c, x);
    } else {
      RemainderIs(k + i, c, k / c + 1, x - c) by {
        assert (k / c + 1) * c == (k / c) * c + c;
      }
    }
  }
}

/** The ring buffer as one thread sees it: each call is one step. */
module RingBuffer {
  import opened Powers
  import opened Bits
  import opened Slots

  ghost predicate Smeared(x: nat, l: nat, s: nat) {
    TopOnes(x, l, if s <= l then s else l)
  }

  lemma SmearDoubles(x: nat, l: nat, s: nat)
    requires Smeared(x, l, s)
    ensures Smeared(Or(x, Shr(x, s)), l, 2 * s)
  {
    if s <= l {
      SmearStep(x, l, s);
    } else {
      ShrOfMask(l, l);
      ShrAdd(x, l, s - l);
      ShrZero(s - l);
      OrZero(x);
    }
  }

  lemma {:induction false} ShrZero(k: nat)
    ensures Shr(0, k) == 0
  {
    if k > 0 {
      ShrZero(k - 1);
    }
  }

  lemma SmallBitLength(m: nat, k: nat)
    ensures m < Pow2(k) <==> BitLength(m) <= k
  {
    BitLengthBounds(m);
    if BitLength(m) <= k {
      Pow2Monotone(BitLength(m), k);
    } else {
      Pow2Monotone(k, BitLength(m) - 1);
    }
  }

  /** One `n |= n >> s` on a run of s ones at the top of the l bits of n. */
  method Smear(x: nat, s: nat, ghost l: nat) returns (y: nat)
    requires Smeared(x, l, s)
    ensures Smeared(y, l, 2 * s)
  {
    SmearDoubles(x, l, s);
    y := Or(x, Shr(x, s));
  }

  lemma SmearedThroughout(y: nat, l: nat, s: nat)
    requires l <= s && Smeared(y, l, s)
    ensures y + 1 == Pow2(l)
  {
  }

  lemma TopBitIsARun(x: nat)
    ensures Smeared(x, BitLength(x), 1)
  {
    BitLengthBounds(x);
  }

  /** Setting every bit below the top one, by six doublings. */
  method FillBelowTopBit(x: nat) returns (m: nat)
    requires x < WORD
    ensures m + 1 == Pow2(BitLength(x))
  {
    hide Smeared, BitLength, Pow2;
    TopBitIsARun(x);
    var s := 1;
    m := x;
    ghost var l := BitLength(m);
    WordIsPow2();
    SmallBitLength(m, 64);
    m := Smear(m, s, l);
    s := 2 * s;
    m := Smear(m, s, l);
    s := 2 * s;
    m := Smear(m, s, l);
    s := 2 * s;
    m := Smear(m, s, l);
    s := 2 * s;
    m := Smear(m, s, l);
    s := 2 * s;
    m := Smear(m, s, l);
    SmearedThroughout(m, l, 2 * s);
  }

  lemma WrappedRoundUp(n: nat, p: nat)
    requires 0 < n < WORD && p == Pow2(BitLength(n - 1))
    ensures if n <= WORD / 2 then p % WORD == p && IsLeastPow2AtLeast(p, n) else p == WORD
  {
    var l := BitLength(n - 1);
    LeastPow2(n - 1);
    WordIsPow2();
    assert Pow2(63) == WORD / 2;
    SmallBitLength(n - 1, 63);
    SmallBitLength(n - 1, 64);
    if l <= 63 {
      Pow2Monotone(l, 63);
    }
  }

  /** Rounds up to a power of two on 64-bit integers; beyond 2^63 the sum wraps to zero. */
  method NextPowerOfTwo(n: nat) returns (r: nat)
    requires n < WORD
    ensures n == 0 ==> r == 1
    ensures 0 < n <= WORD / 2 ==> IsLeastPow2AtLeast(r, n)
    ensures WORD / 2 < n ==> r == 0
  {
    if n == 0 {
      return 1;
    }
    var m := FillBelowTopBit(n - 1);
    WrappedRoundUp(n, m + 1);
    r := (m + 1) % WORD;
  }

  class RingBuffer<T(0)> {
    const capacity: nat
    const buffer: array<T>
    // Free-running positions, modulo 2^64.
    var writePos: nat
    var readPos: nat
    // The same positions, unbounded.
    ghost var written: nat
    ghost var taken: nat

    ghost predicate Valid()
      reads this
    {
      && ValidCapacity(capacity) && buffer.Length == capacity
      && taken <= written <= taken + capacity
      && writePos == written % WORD && readPos == taken % WORD
    }

    /** What has been written and not yet read, oldest first. */
    ghost function Contents(): (s: seq<T>)
      reads this, buffer
      requires Valid()
      ensures |s| == written - taken
    {
      seq(written - taken, i requires 0 <= i reads this, buffer requires Valid() =>
        buffer[Slot(taken + i, capacity)])
    }

    /** A request beyond 2^63 makes a buffer without slots, because its capacity wraps to 0. */
    constructor (requested: nat)
      requires requested < WORD
      ensures fresh(buffer)
      ensures requested <= WORD / 2 ==> Valid() && Contents() == [] && capacity >= requested
      ensures 0 < requested <= WORD / 2 ==> IsLeastPow2AtLeast(capacity, requested)
      ensures requested == 0 ==> capacity == 1
      ensures requested > WORD / 2 ==> capacity == buffer.Length == 0
    {
      var c := NextPowerOfTwo(requested);
      assert c == Pow2(0) || requested > 0;
      if 0 < requested <= WORD / 2 {
        WordIsPow2();
        assert Pow2(63) == WORD / 2;
      }
      capacity := c;
      buffer := new T[c];
      writePos, readPos := 0, 0;
      written, taken := 0, 0;
    }

    method AvailableToRead() returns (n: nat)
      requires Valid()
      ensures n == |Contents()|
    {
      WrappedDistance(written, taken);
      n := Distance(writePos, readPos);
    }

    method AvailableToWrite() returns (n: nat)
      requires Valid()
      ensures n == capacity - |Contents()|
    {
      WrappedDistance(written, taken);
      n := capacity - Distance(writePos, readPos);
    }

    /** Copies n elements to the slots from the write position on, in one or two runs. */
    method CopyIn(data: seq<T>, n: nat)
      requires Valid() && n <= |data| && written + n <= taken + capacity
      modifies buffer
      ensures forall i | 0 <= i < n :: buffer[Slot(written + i, capacity)] == data[i]
      ensures forall i: nat | taken <= i < written :: buffer[Slot(i, capacity)] == old(buffer[Slot(i, capacity)])
    {
      hide Masked, Slot;
      WrappedSlot(written, capacity);
      var writeIndex := Masked(writePos, capacity);
      var first := Min(n, capacity - writeIndex);
      var second := n - first;
      forall i | 0 <= i < first {
        buffer[writeIndex + i] := data[i];
      }
      forall i | 0 <= i < second {
        buffer[i] := data[first + i];
      }
      forall i | 0 <= i < n ensures buffer[Slot(written + i, capacity)] == data[i] {
        SlotFrom(written, i, capacity);
      }
      forall i: nat | taken <= i < written
        ensures buffer[Slot(i, capacity)] == old(buffer[Slot(i, capacity)])
      {
        KeptSlot(i, written, n, first, writeIndex, capacity);
      }
    }

    /** Appends as much of the data as fits. */
    method Write(data: seq<T>) returns (n: nat)
      requires Valid() && |data| < WORD
      modifies this`writePos, this`written, buffer
      ensures Valid()
      ensures n == Min(|data|, capacity - |old(Contents())|)
      ensures Contents() == old(Contents()) + data[..n]
    {
      hide Advance, Distance, Slot;
      WrappedDistance(written, taken);
      var available := capacity - Distance(writePos, readPos);
      n := Min(|data|, available);
      if n == 0 {
        return;
      }
      CopyIn(data, n);
      WrappedAdvance(written, n);
      writePos := Advance(writePos, n);
      written := written + n;
    }

    /** The first n unread elements, from one or two runs of slots. */
    method CopyOut(n: nat) returns (data: seq<T>)
      requires Valid() && n <= written - taken
      ensures data == Contents()[..n]
    {
      hide Masked, Slot;
      WrappedSlot(taken, capacity);
      var readIndex := Masked(readPos, capacity);
      var first := Min(n, capacity - readIndex);
      var second := n - first;
      data := buffer[readIndex..readIndex + first] + buffer[..second];
      forall i | 0 <= i < n ensures data[i] == buffer[Slot(taken + i, capacity)] {
        if i < capacity {
          SlotFrom(taken, i, capacity);
        }
      }
    }

    /** Removes up to count elements, oldest first. */
    method Read(count: nat) returns (data: seq<T>)
      requires Valid() && count < WORD
      modifies this`readPos, this`taken
      ensures Valid()
      ensures |data| == Min(count, |old(Contents())|)
      ensures old(Contents()) == data + Contents()
    {
      hide Advance, Distance, Slot;
      WrappedDistance(written, taken);
      var available := Distance(writePos, readPos);
      var n := Min(count, available);
      if n == 0 {
        return [];
      }
      data := CopyOut(n);
      ghost var rest := Contents()[n..];
      WrappedAdvance(taken, n);
      readPos := Advance(readPos, n);
      taken := taken + n;
      assert Contents() == rest;
    }

    method Clear()
      requires Valid()
      modifies this
      ensures Valid() && Contents() == []
    {
      writePos, readPos := 0, 0;
      written, taken := 0, 0;
    }
  }

  /** Slots of unread elements are not among the ones a write fills. */
  lemma KeptSlot(i: nat, w: nat, n: nat, first: nat, index: nat, c: nat)
    requires c > 0 && i < w && w + n <= i + c
    requires index == Slot(w, c) && first == Min(n, c - index)
    ensures !(index <= Slot(i, c) < index + first)
    ensures !(Slot(i, c) < n - first)
  {
    var s := Slot(i, c);
    if index <= s < index + first {
      SlotFrom(w, s - index, c);
      DistinctSlots(i, w + (s - index), c);
    } else if s < n - first {
      SlotFrom(w, first + s, c);
      DistinctSlots(i, w + (first + s), c);
    }
  }
}
