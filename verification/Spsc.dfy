/** The ring buffer between one producer and one consumer thread. Every load, every element
    copied and every store is a step of its own, and steps of the two threads interleave
    freely. `written` and `taken` are the whole history of what was published. */
module Spsc {
  import opened Powers
  import opened Bits
  import opened Slots

  datatype Producer<T> =
    | Idle
    | LoadedOwn(data: seq<T>, w: nat)
    | Copying(data: seq<T>, w: nat, n: nat, done: nat)

  datatype Consumer<T> =
    | Resting
    | LoadedRead(count: nat, r: nat)
    | Taking(r: nat, n: nat, got: seq<T>)

  datatype Ring<T> = Ring(
    slots: seq<T>, writePos: nat, readPos: nat,
    producer: Producer<T>, consumer: Consumer<T>,
    written: seq<T>, taken: seq<T>)

  datatype Step<T> =
    | BeginWrite(data: seq<T>)
    | LoadReadPos
    | CopyOneIn
    | PublishWrite
    | BeginRead(count: nat)
    | LoadWritePos
    | CopyOneOut
    | PublishRead

  /** Where the i-th element of a copy that starts at position pos goes: up to the end of the
      slots first, then from the beginning. */
  function CopyIndex(pos: nat, i: nat, capacity: nat): int
    requires capacity > 0
  {
    var index := Masked(pos, capacity);
    if i < capacity - index then index + i else i - (capacity - index)
  }

  predicate Enabled<T>(s: Ring<T>, a: Step<T>) {
    match a
    case BeginWrite(_) => s.producer.Idle?
    case LoadReadPos => s.producer.LoadedOwn?
    case CopyOneIn => s.producer.Copying? && s.producer.done < s.producer.n
    case PublishWrite => s.producer.Copying? && s.producer.done == s.producer.n
    case BeginRead(_) => s.consumer.Resting?
    case LoadWritePos => s.consumer.LoadedRead?
    case CopyOneOut => s.consumer.Taking? && |s.consumer.got| < s.consumer.n
    case PublishRead => s.consumer.Taking? && |s.consumer.got| == s.consumer.n
  }

  /** No step of the code reaches outside the buffer. */
  ghost predicate InBounds<T>(s: Ring<T>) {
    && |s.slots| > 0
    && (s.producer.Copying? ==>
          && s.producer.done <= s.producer.n <= |s.producer.data|
          && forall i: nat | i < s.producer.n :: 0 <= CopyIndex(s.producer.w, i, |s.slots|) < |s.slots|)
    && (s.consumer.Taking? ==>
          && |s.consumer.got| <= s.consumer.n
          && forall i: nat | i < s.consumer.n :: 0 <= CopyIndex(s.consumer.r, i, |s.slots|) < |s.slots|)
  }

  ghost function Next<T>(s: Ring<T>, a: Step<T>): Ring<T>
    requires InBounds(s) && Enabled(s, a)
  {
    var c := |s.slots|;
    match a
    case BeginWrite(data) => s.(producer := LoadedOwn(data, s.writePos))
    case LoadReadPos =>
      var p := s.producer;
      var available := Distance(c, Distance(p.w, s.readPos));
      var n := Min(|p.data|, available);
      s.(producer := if n == 0 then Idle else Copying(p.data, p.w, n, 0))
    case CopyOneIn =>
      var p := s.producer;
      s.(slots := s.slots[CopyIndex(p.w, p.done, c) := p.data[p.done]],
         producer := p.(done := p.done + 1))
    case PublishWrite =>
      var p := s.producer;
      s.(writePos := Advance(p.w, p.n), written := s.written + p.data[..p.n], producer := Idle)
    case BeginRead(count) => s.(consumer := LoadedRead(count, s.readPos))
    case LoadWritePos =>
      var n := Min(s.consumer.count, Distance(s.writePos, s.consumer.r));
      s.(consumer := if n == 0 then Resting else Taking(s.consumer.r, n, []))
    case CopyOneOut =>
      var k := s.consumer;
      s.(consumer := k.(got := k.got + [s.slots[CopyIndex(k.r, |k.got|, c)]]))
    case PublishRead =>
      var k := s.consumer;
      s.(readPos := Advance(k.r, k.n), taken := s.taken + k.got, consumer := Resting)
  }

  // ---- the invariant ----

  ghost predicate Positions<T>(s: Ring<T>) {
    && ValidCapacity(|s.slots|)
    && s.writePos == |s.written| % WORD && s.readPos == |s.taken| % WORD
    && |s.taken| <= |s.written| <= |s.taken| + |s.slots|
    && s.taken == s.written[..|s.taken|]
  }

  /** Every element published and not yet taken is in its slot. */
  ghost predicate Stored<T>(s: Ring<T>)
    requires Positions(s)
  {
    forall k | |s.taken| <= k < |s.written| :: s.slots[k % |s.slots|] == s.written[k]
  }

  ghost predicate ProducerInv<T>(s: Ring<T>)
    requires Positions(s)
  {
    match s.producer
    case Idle => true
    case LoadedOwn(_, w) => w == s.writePos
    case Copying(data, w, n, done) =>
      && w == s.writePos && 0 < n <= |data| && done <= n
      && |s.written| + n <= |s.taken| + |s.slots|
      && forall i | 0 <= i < done :: s.slots[(|s.written| + i) % |s.slots|] == data[i]
  }

  ghost predicate ConsumerInv<T>(s: Ring<T>)
    requires Positions(s)
  {
    match s.consumer
    case Resting => true
    case LoadedRead(_, r) => r == s.readPos
    case Taking(r, n, got) =>
      && r == s.readPos && 0 < n && |got| <= n
      && |s.taken| + n <= |s.written|
      && got == s.written[|s.taken|..|s.taken| + |got|]
  }

  ghost predicate Inv<T>(s: Ring<T>) {
    Positions(s) && Stored(s) && ProducerInv(s) && ConsumerInv(s)
  }

  /** A copy from a wrapped position visits the slots of the unbounded indices in order. */
  lemma CopySlot(k: nat, i: nat, c: nat)
    requires ValidCapacity(c) && i < c
    ensures CopyIndex(k % WORD, i, c) == (k + i) % c
  {
    WrappedSlot(k, c);
    SlotFrom(k, i, c);
  }

  lemma InvIsInBounds<T>(s: Ring<T>)
    requires Inv(s)
    ensures InBounds(s)
  {
    var c := |s.slots|;
    if s.producer.Copying? {
      forall i: nat | i < s.producer.n ensures 0 <= CopyIndex(s.producer.w, i, c) < c {
        CopySlot(|s.written|, i, c);
      }
    }
    if s.consumer.Taking? {
      forall i: nat | i < s.consumer.n ensures 0 <= CopyIndex(s.consumer.r, i, c) < c {
        CopySlot(|s.taken|, i, c);
      }
    }
  }

  lemma PublishWriteKeepsInv<T>(s: Ring<T>)
    requires Inv(s) && InBounds(s) && Enabled(s, PublishWrite)
    ensures Inv(Next(s, PublishWrite))
  {
    hide ValidCapacity, Advance, Distance;
    var n, c, t := s.producer.n, |s.slots|, Next(s, PublishWrite);
    WrappedAdvance(|s.written|, n);
    forall k | |t.taken| <= k < |t.written| ensures t.slots[k % c] == t.written[k] {
      if k >= |s.written| {
        var i := k - |s.written|;
        assert s.slots[(|s.written| + i) % c] == s.producer.data[i];
      }
    }
  }

  lemma WriteStepKeepsInv<T>(s: Ring<T>, a: Step<T>)
    requires Inv(s) && InBounds(s) && Enabled(s, a)
    requires a.BeginWrite? || a.LoadReadPos? || a.PublishWrite?
    ensures Inv(Next(s, a))
  {
    WrappedDistance(|s.written|, |s.taken|);
    if a.PublishWrite? {
      PublishWriteKeepsInv(s);
    }
  }

  lemma CopyInKeepsInv<T>(s: Ring<T>)
    requires Inv(s) && InBounds(s) && Enabled(s, CopyOneIn)
    ensures Inv(Next(s, CopyOneIn))
  {
    var p, c, w := s.producer, |s.slots|, |s.written|;
    CopySlot(w, p.done, c);
    forall k: nat | |s.taken| <= k < w + p.done ensures k % c != (w + p.done) % c {
      DistinctSlots(k, w + p.done, c);
    }
  }

  lemma ReadStepKeepsInv<T>(s: Ring<T>, a: Step<T>)
    requires Inv(s) && InBounds(s) && Enabled(s, a)
    requires a.BeginRead? || a.LoadWritePos? || a.CopyOneOut? || a.PublishRead?
    ensures Inv(Next(s, a))
  {
    WrappedDistance(|s.written|, |s.taken|);
    if a.CopyOneOut? {
      CopySlot(|s.taken|, |s.consumer.got|, |s.slots|);
    } else if a.PublishRead? {
      WrappedAdvance(|s.taken|, s.consumer.n);
    }
  }

  lemma StepKeepsInv<T>(s: Ring<T>, a: Step<T>)
    requires Inv(s) && Enabled(s, a)
    ensures InBounds(s) && Inv(Next(s, a))
  {
    InvIsInBounds(s);
    match a
    case BeginWrite(_) => WriteStepKeepsInv(s, a);
    case LoadReadPos => WriteStepKeepsInv(s, a);
    case PublishWrite => WriteStepKeepsInv(s, a);
    case CopyOneIn => CopyInKeepsInv(s);
    case _ => ReadStepKeepsInv(s, a);
  }

  // ---- every interleaving ----

  /** A fresh ring: nothing written, nothing taken, both threads outside the calls. */
  ghost predicate Initial<T>(s: Ring<T>) {
    && ValidCapacity(|s.slots|) && s.writePos == s.readPos == 0
    && s.producer.Idle? && s.consumer.Resting? && s.written == s.taken == []
  }

  /** t follows from s by some schedule of steps of the two threads. */
  ghost predicate Reaches<T>(s: Ring<T>, schedule: seq<Step<T>>, t: Ring<T>)
    decreases |schedule|
  {
    if schedule == [] then s == t
    else InBounds(s) && Enabled(s, schedule[0]) && Reaches(Next(s, schedule[0]), schedule[1..], t)
  }

  lemma {:induction false} RunKeepsInv<T>(s: Ring<T>, schedule: seq<Step<T>>, t: Ring<T>)
    requires Inv(s) && Reaches(s, schedule, t)
    ensures Inv(t)
    decreases |schedule|
  {
    if schedule != [] {
      StepKeepsInv(s, schedule[0]);
      RunKeepsInv(Next(s, schedule[0]), schedule[1..], t);
    }
  }

  /** A write settles, when it loads the read position, for as much of its data as fits then. */
  lemma WriteTakesWhatFits<T>(s: Ring<T>)
    requires Inv(s) && InBounds(s) && s.producer.LoadedOwn?
    ensures var data, free, p := s.producer.data, |s.slots| - (|s.written| - |s.taken|), Next(s, LoadReadPos).producer;
            if data == [] || free == 0 then p.Idle?
            else p == Copying(data, s.writePos, if |data| <= free then |data| else free, 0)
  {
    WrappedDistance(|s.written|, |s.taken|);
  }

  /** A read settles, when it loads the write position, for as many elements as are there then. */
  lemma ReadTakesWhatIsThere<T>(s: Ring<T>)
    requires Inv(s) && InBounds(s) && s.consumer.LoadedRead?
    ensures var count, fill, k := s.consumer.count, |s.written| - |s.taken|, Next(s, LoadWritePos).consumer;
            if count == 0 || fill == 0 then k.Resting?
            else k == Taking(s.readPos, if count <= fill then count else fill, [])
  {
    WrappedDistance(|s.written|, |s.taken|);
  }

  /** Under every interleaving, what was read is a prefix of what was written, in order, the
      rest is at most a capacity behind, and every read in progress holds the right elements. */
  lemma ReadsArePrefixOfWrites<T>(s: Ring<T>, schedule: seq<Step<T>>, t: Ring<T>)
    requires Initial(s) && Reaches(s, schedule, t)
    ensures t.taken <= t.written
    ensures |t.written| - |t.taken| <= |t.slots|
    ensures t.consumer.Taking? ==> t.taken + t.consumer.got <= t.written
    ensures InBounds(t)
  {
    RunKeepsInv(s, schedule, t);
    InvIsInBounds(t);
  }

  ghost function SlotsWritten<T>(s: Ring<T>): set<int>
    requires |s.slots| > 0
  {
    if s.producer.Copying? then set i: nat | i < s.producer.n :: CopyIndex(s.producer.w, i, |s.slots|) else {}
  }

  ghost function SlotsRead<T>(s: Ring<T>): set<int>
    requires |s.slots| > 0
  {
    if s.consumer.Taking? then set i: nat | i < s.consumer.n :: CopyIndex(s.consumer.r, i, |s.slots|) else {}
  }

  /** The two threads never touch the same slot at the same time. */
  lemma NoSlotIsShared<T>(s: Ring<T>, schedule: seq<Step<T>>, t: Ring<T>)
    requires Initial(s) && Reaches(s, schedule, t)
    ensures |t.slots| > 0 && SlotsWritten(t) !! SlotsRead(t)
  {
    RunKeepsInv(s, schedule, t);
    if t.producer.Copying? && t.consumer.Taking? {
      var c, w, r := |t.slots|, |t.written|, |t.taken|;
      forall i: nat, j: nat | i < t.producer.n && j < t.consumer.n
        ensures CopyIndex(t.producer.w, i, c) != CopyIndex(t.consumer.r, j, c)
      {
        CopySlot(w, i, c);
        CopySlot(r, j, c);
        DistinctSlots(r + j, w + i, c);
      }
    }
  }
}
