/** Commutative rings as values, with the finite sums, powers and geometric series
    that the transform in `Fft` is about. */
module Algebra {
  /** A carrier with its operations. `IsCommutativeRing` says when they obey the laws. */
  datatype Ring<!T> = Ring(zero: T, one: T, add: (T, T) -> T, mul: (T, T) -> T, neg: T -> T)

  /** The laws, at one triple. The verifier uses them only at triples that a proof names:
      associativity and commutativity as free-running equations would never stop matching. */
  ghost predicate RingLaws<T>(r: Ring<T>, a: T, b: T, c: T) {
    && r.add(r.add(a, b), c) == r.add(a, r.add(b, c))
    && r.add(a, b) == r.add(b, a)
    && r.add(a, r.zero) == a
    && r.add(a, r.neg(a)) == r.zero
    && r.mul(r.mul(a, b), c) == r.mul(a, r.mul(b, c))
    && r.mul(a, b) == r.mul(b, a)
    && r.mul(a, r.one) == a
    && r.mul(a, r.add(b, c)) == r.add(r.mul(a, b), r.mul(a, c))
  }

  ghost predicate IsCommutativeRing<T(!new)>(r: Ring<T>) {
    forall a, b, c :: RingLaws(r, a, b, c)
  }

  lemma Laws<T(!new)>(r: Ring<T>, a: T, b: T, c: T)
    requires IsCommutativeRing(r)
    ensures r.add(r.add(a, b), c) == r.add(a, r.add(b, c))
    ensures r.add(a, b) == r.add(b, a)
    ensures r.add(a, r.zero) == a && r.add(r.zero, a) == a
    ensures r.add(a, r.neg(a)) == r.zero
    ensures r.mul(r.mul(a, b), c) == r.mul(a, r.mul(b, c))
    ensures r.mul(a, b) == r.mul(b, a)
    ensures r.mul(a, r.one) == a && r.mul(r.one, a) == a
    ensures r.mul(a, r.add(b, c)) == r.add(r.mul(a, b), r.mul(a, c))
    ensures r.mul(r.add(b, c), a) == r.add(r.mul(b, a), r.mul(c, a))
  {
    assert RingLaws(r, a, b, c);
    assert RingLaws(r, a, r.zero, c) && RingLaws(r, r.zero, a, c);
    assert RingLaws(r, a, r.one, c) && RingLaws(r, r.one, a, c);
    assert RingLaws(r, r.add(b, c), a, a) && RingLaws(r, b, a, a) && RingLaws(r, c, a, a);
  }

  /** The operations by name. Code that updates arrays uses these rather than the function
      values in the ring, because nothing then depends on the heap. */
  function Add<T>(r: Ring<T>, a: T, b: T): T {
    r.add(a, b)
  }

  function Mul<T>(r: Ring<T>, a: T, b: T): T {
    r.mul(a, b)
  }

  function Sub<T>(r: Ring<T>, a: T, b: T): T {
    r.add(a, r.neg(b))
  }

  /** Cancellation: what is added on both sides can be removed. */
  lemma Cancel<T(!new)>(r: Ring<T>, a: T, b: T, c: T)
    requires IsCommutativeRing(r)
    requires r.add(a, c) == r.add(b, c)
    ensures a == b
  {
    Laws(r, a, c, r.neg(c));
    Laws(r, b, c, r.neg(c));
    Laws(r, c, a, b);
  }

  lemma MulZero<T(!new)>(r: Ring<T>, a: T)
    requires IsCommutativeRing(r)
    ensures r.mul(a, r.zero) == r.zero && r.mul(r.zero, a) == r.zero
  {
    var p := r.mul(a, r.zero);
    Laws(r, a, r.zero, r.zero);
    Laws(r, r.zero, a, a);
    Laws(r, p, a, a);
    Cancel(r, p, r.zero, p);
  }

  /** A product with a negated factor is the negated product. */
  lemma MulNeg<T(!new)>(r: Ring<T>, a: T, b: T)
    requires IsCommutativeRing(r)
    ensures r.mul(a, r.neg(b)) == r.neg(r.mul(a, b))
    ensures r.mul(r.neg(b), a) == r.neg(r.mul(a, b))
  {
    var p, q := r.mul(a, b), r.mul(a, r.neg(b));
    Laws(r, a, r.neg(b), b);
    Laws(r, b, r.neg(b), a);
    Laws(r, p, r.neg(p), a);
    MulZero(r, a);
    Cancel(r, q, r.neg(p), p);
  }

  lemma NegNeg<T(!new)>(r: Ring<T>, a: T)
    requires IsCommutativeRing(r)
    ensures r.neg(r.neg(a)) == a
  {
    Laws(r, r.neg(a), a, a);
    Laws(r, a, r.neg(a), a);
    Laws(r, r.neg(r.neg(a)), r.neg(a), a);
    Cancel(r, r.neg(r.neg(a)), a, r.neg(a));
  }

  /** Four summands may be regrouped. */
  lemma Interchange<T(!new)>(r: Ring<T>, a: T, b: T, c: T, d: T)
    requires IsCommutativeRing(r)
    ensures r.add(r.add(a, b), r.add(c, d)) == r.add(r.add(a, c), r.add(b, d))
  {
    Laws(r, a, b, r.add(c, d));
    Laws(r, b, c, d);
    Laws(r, c, b, d);
    Laws(r, a, c, r.add(b, d));
  }

  // ---- powers ----

  function Pow<T>(r: Ring<T>, x: T, k: nat): T {
    if k == 0 then r.one else r.mul(x, Pow(r, x, k - 1))
  }

  lemma PowNext<T(!new)>(r: Ring<T>, x: T, k: nat)
    requires IsCommutativeRing(r)
    ensures Mul(r, Pow(r, x, k), x) == Pow(r, x, k + 1)
  {
    Laws(r, Pow(r, x, k), x, x);
  }

  lemma PowFirst<T(!new)>(r: Ring<T>, x: T)
    requires IsCommutativeRing(r)
    ensures Pow(r, x, 1) == x
  {
    assert Pow(r, x, 1) == r.mul(x, Pow(r, x, 0));
    Laws(r, x, x, x);
  }

  lemma {:induction false} PowAdd<T(!new)>(r: Ring<T>, x: T, j: nat, k: nat)
    requires IsCommutativeRing(r)
    ensures Pow(r, x, j + k) == r.mul(Pow(r, x, j), Pow(r, x, k))
    decreases j
  {
    if j == 0 {
      Laws(r, Pow(r, x, k), x, x);
    } else {
      PowAdd(r, x, j - 1, k);
      Laws(r, x, Pow(r, x, j - 1), Pow(r, x, k));
    }
  }

  lemma {:induction false} PowMul<T(!new)>(r: Ring<T>, x: T, j: nat, k: nat)
    requires IsCommutativeRing(r)
    ensures Pow(r, x, j * k) == Pow(r, Pow(r, x, j), k)
    decreases k
  {
    if k == 0 {
      assert j * k == 0;
    } else {
      PowMul(r, x, j, k - 1);
      assert j * k == j + j * (k - 1);
      PowAdd(r, x, j, j * (k - 1));
    }
  }

  lemma {:induction false} PowProduct<T(!new)>(r: Ring<T>, x: T, y: T, k: nat)
    requires IsCommutativeRing(r)
    ensures Pow(r, r.mul(x, y), k) == r.mul(Pow(r, x, k), Pow(r, y, k))
  {
    if k == 0 {
      Laws(r, r.one, r.one, r.one);
    } else {
      PowProduct(r, x, y, k - 1);
      var p, q := Pow(r, x, k - 1), Pow(r, y, k - 1);
      Laws(r, x, y, r.mul(p, q));
      Laws(r, y, p, q);
      Laws(r, p, y, q);
      Laws(r, x, p, r.mul(y, q));
    }
  }

  lemma {:induction false} PowOne<T(!new)>(r: Ring<T>, k: nat)
    requires IsCommutativeRing(r)
    ensures Pow(r, r.one, k) == r.one
  {
    if k > 0 {
      PowOne(r, k - 1);
      Laws(r, r.one, r.one, r.one);
    }
  }

  /** Odd powers of -1 are -1. */
  lemma {:induction false} PowMinusOne<T(!new)>(r: Ring<T>, k: nat)
    requires IsCommutativeRing(r)
    ensures Pow(r, r.neg(r.one), 2 * k + 1) == r.neg(r.one)
  {
    var m := r.neg(r.one);
    Laws(r, m, r.one, r.one);
    if k == 0 {
      assert Pow(r, m, 1) == r.mul(m, Pow(r, m, 0));
    } else {
      PowMinusOne(r, k - 1);
      assert Pow(r, m, 2 * k + 1) == r.mul(m, r.mul(m, Pow(r, m, 2 * (k - 1) + 1)));
      MulNeg(r, m, r.one);
      NegNeg(r, r.one);
      Laws(r, r.one, m, m);
    }
  }

  // ---- geometric series and roots of unity ----

  /** 1 + x + ... + x^(n-1). */
  function Geometric<T>(r: Ring<T>, x: T, n: nat): T {
    if n == 0 then r.zero else r.add(Geometric(r, x, n - 1), Pow(r, x, n - 1))
  }

  /** n copies of 1. */
  function Times<T>(r: Ring<T>, n: nat): T {
    if n == 0 then r.zero else r.add(Times(r, n - 1), r.one)
  }

  lemma {:induction false} GeometricOfOne<T(!new)>(r: Ring<T>, n: nat)
    requires IsCommutativeRing(r)
    ensures Geometric(r, r.one, n) == Times(r, n)
  {
    if n > 0 {
      GeometricOfOne(r, n - 1);
      PowOne(r, n - 1);
    }
  }

  lemma {:induction false} GeometricSplit<T(!new)>(r: Ring<T>, x: T, m: nat, n: nat)
    requires IsCommutativeRing(r)
    ensures Geometric(r, x, m + n)
         == r.add(Geometric(r, x, m), r.mul(Pow(r, x, m), Geometric(r, x, n)))
    decreases n
  {
    var g, p := Geometric(r, x, m), Pow(r, x, m);
    if n == 0 {
      MulZero(r, p);
      Laws(r, g, p, p);
    } else {
      GeometricSplit(r, x, m, n - 1);
      PowAdd(r, x, m, n - 1);
      Laws(r, p, Geometric(r, x, n - 1), Pow(r, x, n - 1));
      Laws(r, g, r.mul(p, Geometric(r, x, n - 1)), Pow(r, x, m + n - 1));
    }
  }

  /** If x^h is -1, the first 2h powers of x cancel in pairs. */
  lemma GeometricCancels<T(!new)>(r: Ring<T>, x: T, h: nat)
    requires IsCommutativeRing(r)
    requires Pow(r, x, h) == r.neg(r.one)
    ensures Geometric(r, x, 2 * h) == r.zero
  {
    var g := Geometric(r, x, h);
    GeometricSplit(r, x, h, h);
    MulNeg(r, g, r.one);
    Laws(r, g, r.one, r.one);
  }

  /** A block of powers that sums to zero still does when repeated. */
  lemma {:induction false} GeometricRepeats<T(!new)>(r: Ring<T>, x: T, m: nat, k: nat)
    requires IsCommutativeRing(r)
    requires Geometric(r, x, m) == r.zero
    ensures Geometric(r, x, m * k) == r.zero
    decreases k
  {
    if k == 0 {
      assert m * k == 0;
    } else {
      GeometricRepeats(r, x, m, k - 1);
      assert m * k == m * (k - 1) + m;
      GeometricSplit(r, x, m * (k - 1), m);
      MulZero(r, Pow(r, x, m * (k - 1)));
      Laws(r, r.zero, r.zero, r.zero);
    }
  }
}
