/** The in-place transform: bit-reversal permutation, butterfly stages, division by n. */
module Fft {
  import opened Powers
  import opened Bits
  import opened Algebra
  import opened Fourier

  // ---- bit reversal ----

  /** The low b bits of i in reverse order. */
  function Reversed(i: nat, b: nat): nat {
    if b == 0 then 0 else (if i % 2 == 1 then Pow2(b - 1) else 0) + Reversed(i / 2, b - 1)
  }

  lemma {:induction false} ReversedBound(i: nat, b: nat)
    ensures Reversed(i, b) < Pow2(b)
  {
    if b > 0 {
      ReversedBound(i / 2, b - 1);
    }
  }

  /** The top bit of the argument is the lowest bit of its reversal. */
  lemma {:induction false} ReversedTopBit(x: nat, top: bool, b: nat)
    requires b > 0 && x < Pow2(b - 1)
    ensures Reversed(x + if top then Pow2(b - 1) else 0, b)
         == 2 * Reversed(x, b - 1) + if top then 1 else 0
    decreases b
  {
    if b > 1 {
      ReversedTopBit(x / 2, top, b - 1);
    }
  }

  /** Reversing twice gives the original back. */
  lemma {:induction false} ReversedTwice(i: nat, b: nat)
    requires i < Pow2(b)
    ensures Reversed(i, b) < Pow2(b)
    ensures Reversed(Reversed(i, b), b) == i
  {
    ReversedBound(i, b);
    if b > 0 {
      ReversedTwice(i / 2, b - 1);
      ReversedTopBit(Reversed(i / 2, b - 1), i % 2 == 1, b);
    }
  }

  lemma EvensFirstStep<T>(a: seq<T>, s: nat, x: nat)
    requires s > 0 && |a| == Pow2(s) && x < Pow2(s - 1)
    ensures EvensFirst(a, s)[x] == EvensFirst(Evens(a), s - 1)[x]
    ensures EvensFirst(a, s)[x + Pow2(s - 1)] == EvensFirst(Odds(a), s - 1)[x]
  {
  }

  /** Taking even-indexed elements first at every level is the bit-reversal permutation. */
  lemma {:induction false} EvensFirstReverses<T>(a: seq<T>, s: nat, i: nat)
    requires |a| == Pow2(s) && i < |a|
    ensures Reversed(i, s) < |a|
    ensures EvensFirst(a, s)[i] == a[Reversed(i, s)]
    decreases s
  {
    ReversedBound(i, s);
    if s > 0 {
      hide EvensFirst;
      var h := Pow2(s - 1);
      if i < h {
        EvensFirstStep(a, s, i);
        ReversedTopBit(i, false, s);
        EvensFirstReverses(Evens(a), s - 1, i);
      } else {
        EvensFirstStep(a, s, i - h);
        ReversedTopBit(i - h, true, s);
        EvensFirstReverses(Odds(a), s - 1, i - h);
      }
    }
  }

  /** The permutation is its own inverse. */
  lemma EvensFirstTwice<T>(a: seq<T>, s: nat)
    requires |a| == Pow2(s)
    ensures EvensFirst(EvensFirst(a, s), s) == a
  {
    var p := EvensFirst(a, s);
    forall i | 0 <= i < |a| ensures EvensFirst(p, s)[i] == a[i] {
      ReversedTwice(i, s);
      EvensFirstReverses(p, s, i);
      EvensFirstReverses(a, s, Reversed(i, s));
    }
  }

  /** The top bit of a reversed counter, and what adding one does below it. */
  lemma ReversedNext(m: nat, c: nat)
    requires c > 0
    ensures var top, j := Pow2(c - 1), Reversed(m, c);
            j < 2 * top && (j >= top <==> m % 2 == 1)
            && if m % 2 == 1
               then j - top == Reversed(m / 2, c - 1) && Reversed(m + 1, c) == Reversed(m / 2 + 1, c - 1)
               else j + top == Reversed(m + 1, c)
  {
    ReversedBound(m, c);
    ReversedBound(m / 2, c - 1);
    assert m % 2 == 1 ==> (m + 1) / 2 == m / 2 + 1;
    assert m % 2 == 0 ==> (m + 1) / 2 == m / 2;
  }

  /** Adds one to a counter that is kept bit-reversed: carries run from the top bit down and end
      at a bit that is there to be set. */
  method NextReversed(j0: nat, n: nat, ghost i: nat, ghost s: nat) returns (j: nat, bit: nat)
    requires n == Pow2(s) && 0 < i < n
    requires j0 == Reversed(i - 1, s)
    ensures j == Reversed(i, s)
    ensures bit > 0 && IsPow2(bit) && And(j, bit) == bit
  {
    hide And, Xor, Reversed;
    j, bit := j0, n / 2;
    ghost var c: nat, m: nat := s, i - 1;
    while And(j, bit) != 0
      invariant 0 < c <= s && bit == Pow2(c - 1)
      invariant m + 1 < Pow2(c)
      invariant j == Reversed(m, c)
      invariant Reversed(i, s) == Reversed(m + 1, c)
      decreases c
    {
      ReversedNext(m, c);
      TopBit(j, c - 1);
      j := Xor(j, bit);
      bit := bit / 2;
      c, m := c - 1, m / 2;
    }
    ReversedNext(m, c);
    TopBit(j, c - 1);
    j := Xor(j, bit);
    TopBit(j, c - 1);
  }

  method BitReverse<T>(a: array<T>, ghost s: nat)
    requires a.Length == Pow2(s)
    modifies a
    ensures a[..] == EvensFirst(old(a[..]), s)
  {
    var n := a.Length;
    ghost var a0 := a[..];
    forall k: nat | k < n ensures Reversed(k, s) < n && Reversed(Reversed(k, s), s) == k {
      ReversedTwice(k, s);
    }
    assert Reversed(0, s) == 0 by { ReversedZero(s); }
    var i, j := 1, 0;
    while i < n
      invariant 1 <= i <= n
      invariant j == Reversed(i - 1, s)
      invariant forall k: nat | k < n ::
        a[k] == if k < i || Reversed(k, s) < i then a0[Reversed(k, s)] else a0[k]
    {
      var next, _ := NextReversed(j, n, i, s);
      j := next;
      if i < j {
        a[i], a[j] := a[j], a[i];
      }
      i := i + 1;
    }
    forall k: nat | k < n ensures a[k] == EvensFirst(a0, s)[k] {
      EvensFirstReverses(a0, s, k);
    }
  }

  lemma {:induction false} ReversedZero(b: nat)
    ensures Reversed(0, b) == 0
  {
    if b > 0 {
      ReversedZero(b - 1);
    }
  }

  // ---- butterfly stages ----

  /** x after the first j butterflies of the block of length 2h at i. */
  ghost function AfterButterflies<T>(r: Ring<T>, x: seq<T>, i: nat, h: nat, wn: T, j: nat): (y: seq<T>)
    requires i + 2 * h <= |x| && j <= h
    ensures |y| == |x|
  {
    if j == 0 then x
    else
      var p, q := i + j - 1, i + h + j - 1;
      var v := Mul(r, x[q], Pow(r, wn, j - 1));
      AfterButterflies(r, x, i, h, wn, j - 1)[p := Add(r, x[p], v)][q := Sub(r, x[p], v)]
  }

  lemma {:induction false} AfterButterfliesAt<T>(r: Ring<T>, x: seq<T>, i: nat, h: nat, wn: T, j: nat, k: nat)
    requires i + 2 * h <= |x| && j <= h && k < |x|
    ensures AfterButterflies(r, x, i, h, wn, j)[k] ==
      if i <= k < i + j then Add(r, x[k], Mul(r, x[k + h], Pow(r, wn, k - i)))
      else if i + h <= k < i + h + j then Sub(r, x[k - h], Mul(r, x[k], Pow(r, wn, k - i - h)))
      else x[k]
  {
    if j > 0 {
      AfterButterfliesAt(r, x, i, h, wn, j - 1, k);
    }
  }

  lemma AfterOneMore<T>(r: Ring<T>, x: seq<T>, i: nat, h: nat, wn: T, j: nat)
    requires i + 2 * h <= |x| && j < h
    ensures var y, p, q := AfterButterflies(r, x, i, h, wn, j), i + j, i + h + j;
            var v := Mul(r, y[q], Pow(r, wn, j));
            AfterButterflies(r, x, i, h, wn, j + 1) == y[p := Add(r, y[p], v)][q := Sub(r, y[p], v)]
  {
    AfterButterfliesAt(r, x, i, h, wn, j, i + j);
    AfterButterfliesAt(r, x, i, h, wn, j, i + h + j);
  }

  lemma AfterAllButterflies<T>(r: Ring<T>, x: seq<T>, i: nat, h: nat, wn: T)
    requires i + 2 * h <= |x|
    ensures AfterButterflies(r, x, i, h, wn, h)
         == x[..i] + Combine(r, wn, x[i..i + h], x[i + h..i + 2 * h]) + x[i + 2 * h..]
  {
    var y := AfterButterflies(r, x, i, h, wn, h);
    forall k | 0 <= k < |x|
      ensures y[k] == (x[..i] + Combine(r, wn, x[i..i + h], x[i + h..i + 2 * h]) + x[i + 2 * h..])[k]
    {
      AfterButterfliesAt(r, x, i, h, wn, h, k);
    }
  }

  /** Butterfly j of the block of length 2h at i, in place. */
  method Butterfly<T>(r: Ring<T>, a: array<T>, ghost x: seq<T>, i: nat, h: nat, ghost wn: T, j: nat, w: T)
    requires i + 2 * h <= a.Length == |x| && j < h
    requires a[..] == AfterButterflies(r, x, i, h, wn, j) && w == Pow(r, wn, j)
    modifies a
    ensures a[..] == AfterButterflies(r, x, i, h, wn, j + 1)
  {
    hide AfterButterflies, Pow, Mul, Add, Sub;
    AfterOneMore(r, x, i, h, wn, j);
    ghost var y := a[..];
    var p, q := i + j, i + h + j;
    var u := a[p];
    var v := Mul(r, a[q], w);
    assert u == y[p] && a[q] == y[q];
    a[p] := Add(r, u, v);
    a[q] := Sub(r, u, v);
    assert a[..] == y[p := Add(r, u, v)][q := Sub(r, u, v)];
  }

  /** Multiplying a power of w by w once more gives the next power. */
  ghost predicate PowersBuildUp<T>(r: Ring<T>, w: T) {
    forall j: nat {:trigger Mul(r, Pow(r, w, j), w)} :: Mul(r, Pow(r, w, j), w) == Pow(r, w, j + 1)
  }

  lemma PowersDoBuildUp<T(!new)>(r: Ring<T>, w: T)
    requires IsCommutativeRing(r)
    ensures PowersBuildUp(r, w)
  {
    forall j: nat ensures Mul(r, Pow(r, w, j), w) == Pow(r, w, j + 1) {
      PowNext(r, w, j);
    }
  }

  lemma NextPower<T>(r: Ring<T>, w: T, j: nat)
    requires PowersBuildUp(r, w)
    ensures Mul(r, Pow(r, w, j), w) == Pow(r, w, j + 1)
  {
  }

  /** The inner loop: one block of a stage, in place. */
  method ButterflyBlock<T>(r: Ring<T>, a: array<T>, i: nat, len: nat, wn: T)
    requires PowersBuildUp(r, wn)
    requires len % 2 == 0 && i + len <= a.Length
    modifies a
    ensures a[..] == AfterButterflies(r, old(a[..]), i, len / 2, wn, len / 2)
  {
    ghost var x := a[..];
    assert AfterButterflies(r, x, i, len / 2, wn, 0) == x && Pow(r, wn, 0) == r.one;
    hide AfterButterflies, PowersBuildUp, Pow, Mul, Add, Sub;
    var h := len / 2;
    var w, j := r.one, 0;
    while j < h
      invariant j <= h && w == Pow(r, wn, j)
      invariant a[..] == AfterButterflies(r, x, i, h, wn, j)
    {
      NextPower(r, wn, j);
      Butterfly(r, a, x, i, h, wn, j, w);
      w := Mul(r, w, wn);
      j := j + 1;
    }
  }

  // ---- stages ----

  /** n is a whole number of blocks of length len. */
  ghost predicate Whole(n: nat, len: nat)
    requires len > 0
  {
    n == 0 || (n >= len && Whole(n - len, len))
  }

  lemma {:induction false} WholeAdd(m: nat, n: nat, len: nat)
    requires len > 0 && Whole(m, len) && Whole(n, len)
    ensures Whole(m + n, len)
    decreases m
  {
    if m > 0 {
      WholeAdd(m - len, n, len);
    }
  }

  lemma {:induction false} WholePow2(s: nat, c: nat)
    requires c <= s
    ensures Whole(Pow2(s), Pow2(c))
    decreases s
  {
    if c < s {
      WholePow2(s - 1, c);
      WholeAdd(Pow2(s - 1), Pow2(s - 1), Pow2(c));
    } else {
      assert Whole(0, Pow2(c));
    }
  }

  lemma {:induction false} WholeHalves(n: nat, h: nat)
    requires h > 0 && Whole(n, 2 * h)
    ensures Whole(n, h)
  {
    if n > 0 {
      WholeHalves(n - 2 * h, h);
      assert Whole(n - h, h);
    }
  }

  /** One stage over x: every block of length 2h combined. */
  ghost function StageOf<T>(r: Ring<T>, w: T, x: seq<T>, h: nat): (y: seq<T>)
    requires h > 0 && Whole(|x|, 2 * h)
    ensures |y| == |x|
  {
    if x == [] then []
    else Combine(r, w, x[..h], x[h..2 * h]) + StageOf(r, w, x[2 * h..], h)
  }

  /** All stages up to blocks of length 2^c: the butterflies of each block of p. */
  ghost function Blocks<T>(r: Ring<T>, w: T, p: seq<T>, c: nat): (y: seq<T>)
    requires Whole(|p|, Pow2(c))
    ensures |y| == |p|
    decreases |p|
  {
    if p == [] then []
    else Butterflies(r, w, p[..Pow2(c)], c) + Blocks(r, w, p[Pow2(c)..], c)
  }

  /** Blocks of one element are finished to begin with. */
  lemma {:induction false} BlocksOfOne<T>(r: Ring<T>, w: T, p: seq<T>)
    ensures Whole(|p|, 1)
    ensures Blocks(r, w, p, 0) == p
  {
    if p != [] {
      BlocksOfOne(r, w, p[1..]);
      assert p == p[..1] + p[1..];
    }
  }

  lemma BlocksInPairs<T>(r: Ring<T>, w: T, p: seq<T>, c: nat)
    requires var h := Pow2(c); |p| >= 2 * h && Whole(|p| - 2 * h, h)
    ensures var h := Pow2(c);
            && Whole(|p|, h)
            && Blocks(r, w, p, c) == Butterflies(r, w, p[..h], c) + Butterflies(r, w, p[h..2 * h], c)
                                   + Blocks(r, w, p[2 * h..], c)
  {
    var h := Pow2(c);
    var q := p[h..];
    assert q[..h] == p[h..2 * h] && q[h..] == p[2 * h..];
    assert Whole(|q|, h);
  }

  lemma HalvesOfWhole<T>(r: Ring<T>, w: T, p: seq<T>, c: nat)
    requires c > 0 && |p| == Pow2(c)
    ensures var h, w2 := Pow2(c - 1), r.mul(w, w);
            (Butterflies(r, w, p, c)
          == Combine(r, w, Butterflies(r, w2, p[..h], c - 1), Butterflies(r, w2, p[h..], c - 1)))
  {
  }

  lemma StageOfFirst<T>(r: Ring<T>, w: T, e: seq<T>, o: seq<T>, rest: seq<T>, h: nat)
    requires h > 0 && |e| == |o| == h && Whole(|rest|, 2 * h)
    ensures Whole(|e + o + rest|, 2 * h)
    ensures StageOf(r, w, e + o + rest, h) == Combine(r, w, e, o) + StageOf(r, w, rest, h)
  {
    var x := e + o + rest;
    assert x[..h] == e && x[h..2 * h] == o && x[2 * h..] == rest;
  }

  /** A stage over finished half-blocks finishes the blocks. */
  lemma {:induction false} StageFinishesBlocks<T>(r: Ring<T>, w: T, p: seq<T>, c: nat)
    requires c > 0 && Whole(|p|, Pow2(c))
    ensures Whole(|p|, Pow2(c - 1))
    ensures StageOf(r, w, Blocks(r, r.mul(w, w), p, c - 1), Pow2(c - 1)) == Blocks(r, w, p, c)
    decreases |p|
  {
    var h, w2 := Pow2(c - 1), r.mul(w, w);
    WholeHalves(|p|, h);
    if p != [] {
      var first, rest := p[..2 * h], p[2 * h..];
      StageFinishesBlocks(r, w, rest, c);
      BlocksInPairs(r, w2, p, c - 1);
      HalvesOfWhole(r, w, first, c);
      assert first[..h] == p[..h] && first[h..] == p[h..2 * h];
      StageOfFirst(r, w, Butterflies(r, w2, p[..h], c - 1), Butterflies(r, w2, p[h..2 * h], c - 1),
        Blocks(r, w2, rest, c - 1), h);
    }
  }

  lemma ButterfliesAfter<T>(r: Ring<T>, w: T, done: seq<T>, e: seq<T>, o: seq<T>, rest: seq<T>, h: nat)
    requires |e| == |o| == h
    ensures AfterButterflies(r, done + (e + o + rest), |done|, h, w, h) == done + Combine(r, w, e, o) + rest
  {
    var y, i := done + (e + o + rest), |done|;
    AfterAllButterflies(r, y, i, h, w);
    assert y[..i] == done && y[i..i + h] == e && y[i + h..i + 2 * h] == o && y[i + 2 * h..] == rest;
  }

  lemma Associative<T>(x: seq<T>, y: seq<T>, z: seq<T>)
    ensures x + (y + z) == x + y + z
  {
  }

  /** One block further: what a stage does to it, and what it leaves to do. */
  lemma StageStep<T>(r: Ring<T>, w: T, done: seq<T>, todo: seq<T>, h: nat) returns (next: seq<T>, rest: seq<T>)
    requires todo != [] && h > 0 && Whole(|todo|, 2 * h)
    ensures |next| == |done| + 2 * h && |rest| == |todo| - 2 * h && Whole(|rest|, 2 * h)
    ensures AfterButterflies(r, done + todo, |done|, h, w, h) == next + rest
    ensures done + StageOf(r, w, todo, h) == next + StageOf(r, w, rest, h)
  {
    var e, o := todo[..h], todo[h..2 * h];
    rest := todo[2 * h..];
    var c := Combine(r, w, e, o);
    next := done + c;
    assert todo == e + o + rest;
    ButterfliesAfter(r, w, done, e, o, rest, h);
    StageOfFirst(r, w, e, o, rest, h);
    Associative(done, c, StageOf(r, w, rest, h));
  }

  /** The middle loop: one stage over the whole array, in place. */
  method Stage<T>(r: Ring<T>, a: array<T>, len: nat, wn: T, ghost h: nat)
    requires h > 0 && len == 2 * h && Whole(a.Length, len)
    requires PowersBuildUp(r, wn)
    modifies a
    ensures a[..] == StageOf(r, wn, old(a[..]), h)
  {
    ghost var x := a[..];
    ghost var done, todo := [], x;
    var i := 0;
    while i < a.Length
      invariant i == |done| && i + |todo| == a.Length && Whole(|todo|, len)
      invariant a[..] == done + todo
      invariant StageOf(r, wn, x, h) == done + StageOf(r, wn, todo, h)
    {
      ghost var next, rest := StageStep(r, wn, done, todo, h);
      ghost var cur := done + todo;
      assert cur == a[..] && len / 2 == h && i + len <= a.Length;
      ButterflyBlock(r, a, i, len, wn);
      assert a[..] == AfterButterflies(r, cur, i, h, wn, h);
      done, todo := next, rest;
      i := i + len;
    }
  }

  // ---- the whole transform ----

  function BlockCount(n: nat, len: nat): nat
    requires len > 0
  {
    n / len
  }

  lemma StageSizes(s: nat, c: nat)
    requires 2 * Pow2(c) <= Pow2(s)
    ensures c < s && BlockCount(Pow2(s), 2 * Pow2(c)) == Pow2(s - c - 1)
    ensures Whole(Pow2(s), Pow2(c)) && Whole(Pow2(s), 2 * Pow2(c))
  {
    if c >= s {
      Pow2Monotone(s, c);
    }
    WholePow2(s, c);
    WholePow2(s, c + 1);
    Pow2Add(s - c - 1, c + 1);
    RemainderIs(Pow2(s), Pow2(c + 1), Pow2(s - c - 1), 0);
  }

  /** The root of one stage is the square of the root of the next. */
  ghost predicate StageRoots<T>(r: Ring<T>, w: T, d: nat) {
    PowersBuildUp(r, Pow(r, w, d)) && r.mul(Pow(r, w, d), Pow(r, w, d)) == Pow(r, w, 2 * d)
  }

  lemma StageRootsHold<T(!new)>(r: Ring<T>, w: T)
    requires IsCommutativeRing(r)
    ensures Pow(r, w, 1) == w
    ensures forall d: nat {:trigger StageRoots(r, w, d)} :: StageRoots(r, w, d)
  {
    PowFirst(r, w);
    forall d: nat ensures StageRoots(r, w, d) {
      PowersDoBuildUp(r, Pow(r, w, d));
      PowAdd(r, w, d, d);
    }
  }

  lemma NextStage<T>(r: Ring<T>, w: T, p: seq<T>, s: nat, c: nat, k: nat, x: seq<T>) returns (y: seq<T>)
    requires |p| == Pow2(s) && 2 * Pow2(c) <= Pow2(s)
    requires k == BlockCount(Pow2(s), 2 * Pow2(c)) && StageRoots(r, w, k)
    requires c <= s && Whole(|p|, Pow2(c)) && x == Blocks(r, Pow(r, w, Pow2(s - c)), p, c)
    ensures c < s && Whole(|p|, Pow2(c + 1)) && |x| == |p|
    ensures PowersBuildUp(r, Pow(r, w, k))
    ensures y == StageOf(r, Pow(r, w, k), x, Pow2(c))
    ensures y == Blocks(r, Pow(r, w, Pow2(s - (c + 1))), p, c + 1)
  {
    StageSizes(s, c);
    StageFinishesBlocks(r, Pow(r, w, k), p, c + 1);
    y := StageOf(r, Pow(r, w, k), x, Pow2(c));
  }

  /** All stages, in place. The stage of blocks of length len uses the root w^(n/len). */
  method Stages<T>(r: Ring<T>, a: array<T>, w: T, ghost s: nat)
    requires forall d: nat {:trigger StageRoots(r, w, d)} :: StageRoots(r, w, d)
    requires Pow(r, w, 1) == w
    requires a.Length == Pow2(s)
    modifies a
    ensures a[..] == Butterflies(r, w, old(a[..]), s)
  {
    ghost var p := a[..];
    var n, len := a.Length, 2;
    ghost var c: nat, done := 0, p;
    BlocksOfOne(r, Pow(r, w, n), p);
    while len <= n
      invariant c <= s && len == 2 * Pow2(c) && Whole(n, Pow2(c))
      invariant a[..] == done == Blocks(r, Pow(r, w, Pow2(s - c)), p, c)
      decreases s - c
    {
      var k := BlockCount(n, len);
      assert StageRoots(r, w, k);
      var wn := Pow(r, w, k);
      done := NextStage(r, w, p, s, c, k, done);
      Stage(r, a, len, wn, Pow2(c));
      len := len * 2;
      c := c + 1;
    }
    LastStage(r, w, p, s, c);
  }

  lemma LastStage<T>(r: Ring<T>, w: T, p: seq<T>, s: nat, c: nat)
    requires Pow(r, w, 1) == w
    requires |p| == Pow2(s) && c <= s && 2 * Pow2(c) > Pow2(s) && Whole(|p|, Pow2(c))
    ensures Blocks(r, Pow(r, w, Pow2(s - c)), p, c) == Butterflies(r, w, p, s)
  {
    hide Butterflies;
    if c < s {
      Pow2Monotone(c + 1, s);
    }
    assert p[..Pow2(s)] == p && p[Pow2(s)..] == [];
  }

  method DivideAll<T>(r: Ring<T>, a: array<T>, nInverse: T)
    modifies a
    ensures a[..] == Scaled(r, nInverse, old(a[..]))
  {
    ghost var x := a[..];
    var k := 0;
    while k < a.Length
      invariant 0 <= k <= a.Length
      invariant a[..k] == Scaled(r, nInverse, x)[..k] && a[k..] == x[k..]
    {
      a[k] := Mul(r, a[k], nInverse);
      k := k + 1;
    }
  }

  /** The transform of a, or with `invert` the inverse transform, in place. The forward transform
      needs the root alone; only the inverse needs 1/n. */
  method Compute<T(!new)>(r: Ring<T>, a: array<T>, invert: bool, roots: Roots<T>, ghost s: nat)
    requires IsCommutativeRing(r) && a.Length == Pow2(s)
    requires HalfTurn(r, if invert then roots.wInverse else roots.w, a.Length)
    requires invert ==> IsOneOver(r, a.Length, roots.nInverse)
    modifies a
    ensures a[..] == if invert then Scaled(r, roots.nInverse, Dft(r, roots.wInverse, old(a[..])))
                     else Dft(r, roots.w, old(a[..]))
  {
    ghost var x := a[..];
    var root := if invert then roots.wInverse else roots.w;
    if a.Length == 1 {
      TransformOfOne(r, root, roots.nInverse, x);
      return;
    }
    StageRootsHold(r, root);
    ButterfliesAreDft(r, root, x, s);
    BitReverse(a, s);
    Stages(r, a, root, s);
    if invert {
      DivideAll(r, a, roots.nInverse);
    }
  }

  /** A single element is its own transform, both ways. */
  lemma TransformOfOne<T(!new)>(r: Ring<T>, w: T, nInverse: T, x: seq<T>)
    requires IsCommutativeRing(r) && |x| == 1
    ensures Dft(r, w, x) == x
    ensures IsOneOver(r, 1, nInverse) ==> Scaled(r, nInverse, Dft(r, w, x)) == x
  {
    DftOfOne(r, w, x);
    assert Times(r, 1) == r.add(Times(r, 0), r.one);
    Laws(r, r.one, r.one, r.one);
    Laws(r, nInverse, r.one, r.one);
    Laws(r, x[0], r.one, r.one);
  }

  /** Computing the transform and then its inverse leaves the array as it was. */
  method ComputeAndInvert<T(!new)>(r: Ring<T>, a: array<T>, roots: Roots<T>, ghost s: nat)
    requires IsCommutativeRing(r)
    requires a.Length == Pow2(s) && ValidRoots(r, roots, a.Length)
    modifies a
    ensures a[..] == old(a[..])
  {
    InverseUndoesTransform(r, roots, a[..], s);
    InverseHalfTurn(r, roots, a.Length);
    Compute(r, a, false, roots, s);
    Compute(r, a, true, roots, s);
  }

  lemma InverseHalfTurn<T(!new)>(r: Ring<T>, roots: Roots<T>, n: nat)
    requires IsCommutativeRing(r) && ValidRoots(r, roots, n)
    ensures HalfTurn(r, roots.wInverse, n)
  {
    if n >= 2 {
      InverseRoot(r, roots.w, roots.wInverse, n / 2);
    }
  }
}
