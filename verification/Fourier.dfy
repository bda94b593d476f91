/** The discrete Fourier transform over any commutative ring with a suitable root of
    unity, and the recursive form that the in-place algorithm in `Fft` works out. */
module Fourier {
  import opened Algebra
  import opened Powers

  /** The first m terms of the sum over j of a[j] * w^(j*k). */
  function DftSum<T>(r: Ring<T>, w: T, a: seq<T>, k: nat, m: nat): T
    requires m <= |a|
  {
    if m == 0 then r.zero
    else r.add(DftSum(r, w, a, k, m - 1), r.mul(a[m - 1], Pow(r, w, (m - 1) * k)))
  }

  /** The transform itself, one O(n) sum for each of the n coefficients. */
  function Dft<T>(r: Ring<T>, w: T, a: seq<T>): seq<T> {
    seq(|a|, k requires 0 <= k => DftSum(r, w, a, k, |a|))
  }

  function Scaled<T>(r: Ring<T>, c: T, a: seq<T>): seq<T> {
    seq(|a|, k requires 0 <= k < |a| => r.mul(a[k], c))
  }

  /** The roots a transform of size n uses: one for each direction, and 1/n. */
  datatype Roots<T> = Roots(w: T, wInverse: T, nInverse: T)

  /** w is a root of the right order: half a turn is -1. */
  ghost predicate HalfTurn<T>(r: Ring<T>, w: T, n: nat) {
    n >= 2 ==> Pow(r, w, n / 2) == r.neg(r.one)
  }

  ghost predicate IsOneOver<T>(r: Ring<T>, n: nat, c: T) {
    r.mul(Times(r, n), c) == r.one
  }

  ghost predicate ValidRoots<T>(r: Ring<T>, roots: Roots<T>, n: nat) {
    HalfTurn(r, roots.w, n) && r.mul(roots.w, roots.wInverse) == r.one && IsOneOver(r, n, roots.nInverse)
  }

  // ---- splitting a sum into even and odd terms ----

  /** The polynomial with coefficients a[..m], at x. */
  function Evaluate<T>(r: Ring<T>, a: seq<T>, x: T, m: nat): T
    requires m <= |a|
  {
    if m == 0 then r.zero
    else r.add(Evaluate(r, a, x, m - 1), r.mul(a[m - 1], Pow(r, x, m - 1)))
  }

  lemma {:induction false} SumIsEvaluation<T(!new)>(r: Ring<T>, w: T, a: seq<T>, k: nat, m: nat)
    requires IsCommutativeRing(r)
    requires m <= |a|
    ensures DftSum(r, w, a, k, m) == Evaluate(r, a, Pow(r, w, k), m)
  {
    if m > 0 {
      SumIsEvaluation(r, w, a, k, m - 1);
      assert k * (m - 1) == (m - 1) * k;
      PowMul(r, w, k, m - 1);
    }
  }

  function Evens<T>(a: seq<T>): (e: seq<T>)
    requires |a| % 2 == 0
    ensures |e| == |a| / 2
  {
    seq(|a| / 2, i requires 0 <= i < |a| / 2 => a[2 * i])
  }

  function Odds<T>(a: seq<T>): (o: seq<T>)
    requires |a| % 2 == 0
    ensures |o| == |a| / 2
  {
    seq(|a| / 2, i requires 0 <= i < |a| / 2 => a[2 * i + 1])
  }

  lemma PowEven<T(!new)>(r: Ring<T>, x: T, m: nat)
    requires IsCommutativeRing(r)
    ensures Pow(r, x, 2 * m) == Pow(r, r.mul(x, x), m)
  {
    PowProduct(r, x, x, m);
    PowAdd(r, x, m, m);
  }

  /** Adding one even and one odd term to a sum that is already split. */
  lemma SplitStep<T(!new)>(r: Ring<T>, e: T, o: T, ce: T, co: T, p: T, x: T)
    requires IsCommutativeRing(r)
    ensures r.add(r.add(r.add(e, r.mul(o, x)), r.mul(ce, p)), r.mul(co, r.mul(x, p)))
         == r.add(r.add(e, r.mul(ce, p)), r.mul(r.add(o, r.mul(co, p)), x))
  {
    Laws(r, x, o, r.mul(co, p));
    Laws(r, co, p, x);
    Laws(r, p, x, x);
    Laws(r, r.add(e, r.mul(o, x)), r.mul(ce, p), r.mul(co, r.mul(x, p)));
    Interchange(r, e, r.mul(o, x), r.mul(ce, p), r.mul(co, r.mul(x, p)));
  }

  lemma LastTwoTerms<T(!new)>(r: Ring<T>, a: seq<T>, x: T, m: nat)
    requires IsCommutativeRing(r)
    requires 2 * m + 2 <= |a|
    ensures var p := Pow(r, r.mul(x, x), m);
            Evaluate(r, a, x, 2 * m + 2)
            == r.add(r.add(Evaluate(r, a, x, 2 * m), r.mul(a[2 * m], p)), r.mul(a[2 * m + 1], r.mul(x, p)))
  {
    PowEven(r, x, m);
    assert Evaluate(r, a, x, 2 * m + 1) == r.add(Evaluate(r, a, x, 2 * m), r.mul(a[2 * m], Pow(r, x, 2 * m)));
    assert Pow(r, x, 2 * m + 1) == r.mul(x, Pow(r, x, 2 * m));
  }

  lemma {:induction false} EvaluateSplits<T(!new)>(r: Ring<T>, a: seq<T>, x: T, m: nat)
    requires IsCommutativeRing(r)
    requires |a| % 2 == 0 && 2 * m <= |a|
    ensures Evaluate(r, a, x, 2 * m)
         == r.add(Evaluate(r, Evens(a), r.mul(x, x), m),
                  r.mul(Evaluate(r, Odds(a), r.mul(x, x), m), x))
  {
    hide IsCommutativeRing;
    if m == 0 {
      MulZero(r, x);
      Laws(r, r.zero, r.zero, r.zero);
    } else {
      var x2, k := r.mul(x, x), m - 1;
      EvaluateSplits(r, a, x, k);
      LastTwoTerms(r, a, x, k);
      var e, o, p := Evaluate(r, Evens(a), x2, k), Evaluate(r, Odds(a), x2, k), Pow(r, x2, k);
      assert Evaluate(r, Evens(a), x2, m) == r.add(e, r.mul(a[2 * k], p));
      assert Evaluate(r, Odds(a), x2, m) == r.add(o, r.mul(a[2 * k + 1], p));
      SplitStep(r, e, o, a[2 * k], a[2 * k + 1], p, x);
    }
  }

  // ---- the recursive form ----

  /** One butterfly layer: from the transforms of the even and odd halves to the whole. */
  function Combine<T>(r: Ring<T>, w: T, e: seq<T>, o: seq<T>): (c: seq<T>)
    requires |e| == |o|
    ensures |c| == 2 * |e|
  {
    seq(2 * |e|, k requires 0 <= k < 2 * |e| =>
      if k < |e| then r.add(e[k], r.mul(o[k], Pow(r, w, k)))
      else Sub(r, e[k - |e|], r.mul(o[k - |e|], Pow(r, w, k - |e|))))
  }

  /** All layers over a block whose even half comes first, at every level. */
  function Butterflies<T>(r: Ring<T>, w: T, p: seq<T>, s: nat): (c: seq<T>)
    requires |p| == Pow2(s)
    ensures |c| == |p|
    decreases s
  {
    if s == 0 then p
    else
      var h := Pow2(s - 1);
      Combine(r, w, Butterflies(r, r.mul(w, w), p[..h], s - 1),
                    Butterflies(r, r.mul(w, w), p[h..], s - 1))
  }

  /** Even-indexed elements first, then odd-indexed ones, at every level. */
  function EvensFirst<T>(a: seq<T>, s: nat): (p: seq<T>)
    requires |a| == Pow2(s)
    ensures |p| == |a|
    decreases s
  {
    if s == 0 then a else EvensFirst(Evens(a), s - 1) + EvensFirst(Odds(a), s - 1)
  }

  /** Coefficient k of the whole transform, from coefficient k of its two halves. */
  lemma CombineStep<T(!new)>(r: Ring<T>, w: T, a: seq<T>, h: nat, k: nat)
    requires IsCommutativeRing(r)
    requires |a| == 2 * h && k < h
    requires Pow(r, w, h) == r.neg(r.one)
    ensures var e := DftSum(r, r.mul(w, w), Evens(a), k, h);
            var o := DftSum(r, r.mul(w, w), Odds(a), k, h);
            && DftSum(r, w, a, k, 2 * h) == r.add(e, r.mul(o, Pow(r, w, k)))
            && DftSum(r, w, a, h + k, 2 * h) == Sub(r, e, r.mul(o, Pow(r, w, k)))
  {
    hide IsCommutativeRing, Evaluate, DftSum, Evens, Odds, Pow;
    var x, y, w2 := Pow(r, w, k), Pow(r, w, h + k), r.mul(w, w);
    SumIsEvaluation(r, w, a, k, 2 * h);
    SumIsEvaluation(r, w, a, h + k, 2 * h);
    SumIsEvaluation(r, w2, Evens(a), k, h);
    SumIsEvaluation(r, w2, Odds(a), k, h);
    EvaluateSplits(r, a, x, h);
    EvaluateSplits(r, a, y, h);
    PowProduct(r, w, w, k);
    var o := Evaluate(r, Odds(a), r.mul(x, x), h);
    assert y == r.neg(x) by {
      PowAdd(r, w, h, k);
      MulNeg(r, x, r.one);
      Laws(r, x, r.one, r.one);
    }
    assert r.mul(y, y) == r.mul(x, x) by {
      MulNeg(r, x, x);
      MulNeg(r, y, x);
      NegNeg(r, r.mul(x, x));
    }
    MulNeg(r, o, x);
  }

  /** A layer over the transforms of the two halves is the transform of the whole. */
  lemma CombineIsDft<T(!new)>(r: Ring<T>, w: T, a: seq<T>, h: nat)
    requires IsCommutativeRing(r)
    requires |a| == 2 * h
    requires Pow(r, w, h) == r.neg(r.one)
    ensures Combine(r, w, Dft(r, r.mul(w, w), Evens(a)), Dft(r, r.mul(w, w), Odds(a))) == Dft(r, w, a)
  {
    hide IsCommutativeRing, DftSum, Evens, Odds, Pow;
    var w2 := r.mul(w, w);
    var e, o, d := Dft(r, w2, Evens(a)), Dft(r, w2, Odds(a)), Dft(r, w, a);
    var c := Combine(r, w, e, o);
    forall k | 0 <= k < |a| ensures c[k] == d[k] {
      var i := if k < h then k else k - h;
      CombineStep(r, w, a, h, i);
      assert e[i] == DftSum(r, w2, Evens(a), i, h) && o[i] == DftSum(r, w2, Odds(a), i, h);
      assert d[i] == DftSum(r, w, a, i, 2 * h) && d[h + i] == DftSum(r, w, a, h + i, 2 * h);
    }
  }

  lemma DftOfOne<T(!new)>(r: Ring<T>, w: T, a: seq<T>)
    requires IsCommutativeRing(r)
    requires |a| == 1
    ensures Dft(r, w, a) == a
  {
    assert Pow(r, w, 0) == r.one;
    assert DftSum(r, w, a, 0, 1) == r.add(DftSum(r, w, a, 0, 0), r.mul(a[0], Pow(r, w, 0 * 0)));
    Laws(r, a[0], a[0], a[0]);
  }

  /** The recursive form over the rearranged input is the transform of the input. */
  lemma {:induction false} ButterfliesAreDft<T(!new)>(r: Ring<T>, w: T, a: seq<T>, s: nat)
    requires IsCommutativeRing(r)
    requires |a| == Pow2(s)
    requires s > 0 ==> Pow(r, w, Pow2(s - 1)) == r.neg(r.one)
    ensures Butterflies(r, w, EvensFirst(a, s), s) == Dft(r, w, a)
    decreases s
  {
    if s == 0 {
      DftOfOne(r, w, a);
    } else {
      var h, w2 := Pow2(s - 1), r.mul(w, w);
      if s > 1 {
        PowEven(r, w, Pow2(s - 2));
      }
      ButterfliesAreDft(r, w2, Evens(a), s - 1);
      ButterfliesAreDft(r, w2, Odds(a), s - 1);
      var p := EvensFirst(a, s);
      assert p[..h] == EvensFirst(Evens(a), s - 1);
      assert p[h..] == EvensFirst(Odds(a), s - 1);
      CombineIsDft(r, w, a, h);
    }
  }

  // ---- the inverse transform ----

  /** The first c terms of the inverse sum at m, over transforms cut after j inputs. */
  function InverseSum<T>(r: Ring<T>, w: T, v: T, a: seq<T>, j: nat, m: nat, c: nat): T
    requires j <= |a|
  {
    if c == 0 then r.zero
    else r.add(InverseSum(r, w, v, a, j, m, c - 1),
               r.mul(DftSum(r, w, a, c - 1, j), Pow(r, v, (c - 1) * m)))
  }

  lemma ContributionStep<T(!new)>(r: Ring<T>, s: T, g: T, d: T, q: T, c: T, v: T)
    requires IsCommutativeRing(r)
    ensures r.add(r.add(s, r.mul(c, g)), r.mul(r.add(d, r.mul(c, q)), v))
         == r.add(r.add(s, r.mul(d, v)), r.mul(c, r.add(g, r.mul(q, v))))
  {
    Laws(r, v, d, r.mul(c, q));
    Laws(r, c, q, v);
    Laws(r, c, g, r.mul(q, v));
    Interchange(r, s, r.mul(c, g), r.mul(d, v), r.mul(c, r.mul(q, v)));
  }

  lemma ProductOfPowers<T(!new)>(r: Ring<T>, w: T, v: T, j: nat, m: nat, k: nat)
    requires IsCommutativeRing(r)
    ensures r.mul(Pow(r, w, j * k), Pow(r, v, k * m)) == Pow(r, r.mul(Pow(r, w, j), Pow(r, v, m)), k)
  {
    assert k * m == m * k;
    PowMul(r, w, j, k);
    PowMul(r, v, m, k);
    PowProduct(r, Pow(r, w, j), Pow(r, v, m), k);
  }

  /** Input j contributes a[j] times a geometric series in w^j * v^m. */
  lemma {:induction false} InverseSumStep<T(!new)>(r: Ring<T>, w: T, v: T, a: seq<T>, j: nat, m: nat, c: nat)
    requires IsCommutativeRing(r)
    requires j < |a|
    ensures InverseSum(r, w, v, a, j + 1, m, c)
         == r.add(InverseSum(r, w, v, a, j, m, c),
                  r.mul(a[j], Geometric(r, r.mul(Pow(r, w, j), Pow(r, v, m)), c)))
    decreases c
  {
    var x := r.mul(Pow(r, w, j), Pow(r, v, m));
    if c == 0 {
      MulZero(r, a[j]);
      Laws(r, r.zero, r.zero, r.zero);
    } else {
      var k := c - 1;
      var jk: nat, km: nat := j * k, k * m;
      InverseSumStep(r, w, v, a, j, m, k);
      ProductOfPowers(r, w, v, j, m, k);
      ContributionStep(r, InverseSum(r, w, v, a, j, m, k), Geometric(r, x, k),
        DftSum(r, w, a, k, j), Pow(r, w, jk), a[j], Pow(r, v, km));
    }
  }

  /** Orthogonality: x^d sums to zero over n powers when 0 < d < n and x^(n/2) is -1. */
  lemma {:induction false} RootsCancel<T(!new)>(r: Ring<T>, x: T, d: nat, s: nat)
    requires IsCommutativeRing(r)
    requires s > 0 && Pow(r, x, Pow2(s - 1)) == r.neg(r.one)
    requires 0 < d < Pow2(s)
    ensures Geometric(r, Pow(r, x, d), Pow2(s)) == r.zero
    decreases s
  {
    hide IsCommutativeRing;
    var h := Pow2(s - 1);
    if d % 2 == 1 {
      PowMul(r, x, d, h);
      PowMul(r, x, h, d);
      assert d * h == h * d;
      PowMinusOne(r, d / 2);
      GeometricCancels(r, Pow(r, x, d), h);
    } else {
      assert s > 1;
      var x2, q := r.mul(x, x), Pow2(s - 2);
      PowAdd(r, x, q, q);
      PowProduct(r, x, x, q);
      RootsCancel(r, x2, d / 2, s - 1);
      PowProduct(r, x, x, d / 2);
      PowAdd(r, x, d / 2, d / 2);
      GeometricRepeats(r, Pow(r, x, d), h, 2);
    }
  }

  /** The inverse root satisfies the same condition as the root. */
  lemma InverseRoot<T(!new)>(r: Ring<T>, w: T, v: T, h: nat)
    requires IsCommutativeRing(r)
    requires r.mul(w, v) == r.one && Pow(r, w, h) == r.neg(r.one)
    ensures Pow(r, v, h) == r.neg(r.one)
  {
    var p := Pow(r, v, h);
    PowProduct(r, w, v, h);
    PowOne(r, h);
    MulNeg(r, p, r.one);
    Laws(r, p, r.one, r.one);
    NegNeg(r, p);
  }

  /** w^j * v^m is a power of one of the two roots, and it is 1 when j is m. */
  lemma RootQuotient<T(!new)>(r: Ring<T>, w: T, v: T, j: nat, m: nat)
    requires IsCommutativeRing(r)
    requires r.mul(w, v) == r.one
    ensures r.mul(Pow(r, w, j), Pow(r, v, m))
         == if j >= m then Pow(r, w, j - m) else Pow(r, v, m - j)
  {
    var i := if j >= m then m else j;
    PowProduct(r, w, v, i);
    PowOne(r, i);
    if j >= m {
      PowAdd(r, w, j - m, m);
      Laws(r, Pow(r, w, j - m), Pow(r, w, m), Pow(r, v, m));
    } else {
      PowAdd(r, v, j, m - j);
      Laws(r, Pow(r, w, j), Pow(r, v, j), Pow(r, v, m - j));
    }
    var x := if j >= m then Pow(r, w, j - m) else Pow(r, v, m - j);
    Laws(r, x, x, x);
  }

  /** The series that multiplies input i in the inverse sum at m: n copies of 1, or nothing. */
  lemma Orthogonality<T(!new)>(r: Ring<T>, w: T, v: T, s: nat, i: nat, m: nat)
    requires IsCommutativeRing(r)
    requires i < Pow2(s) && m < Pow2(s)
    requires r.mul(w, v) == r.one
    requires s > 0 ==> Pow(r, w, Pow2(s - 1)) == r.neg(r.one)
    ensures Geometric(r, r.mul(Pow(r, w, i), Pow(r, v, m)), Pow2(s))
         == if i == m then Times(r, Pow2(s)) else r.zero
  {
    RootQuotient(r, w, v, i, m);
    if i == m {
      GeometricOfOne(r, Pow2(s));
    } else if i > m {
      RootsCancel(r, w, i - m, s);
    } else {
      InverseRoot(r, w, v, Pow2(s - 1));
      RootsCancel(r, v, m - i, s);
    }
  }

  /** What input i contributes to the inverse sum at m. */
  lemma Contribution<T(!new)>(r: Ring<T>, w: T, v: T, a: seq<T>, s: nat, i: nat, m: nat)
    requires IsCommutativeRing(r)
    requires |a| == Pow2(s) && i < |a| && m < |a|
    requires r.mul(w, v) == r.one
    requires s > 0 ==> Pow(r, w, Pow2(s - 1)) == r.neg(r.one)
    ensures InverseSum(r, w, v, a, i + 1, m, |a|)
         == if i == m then r.add(InverseSum(r, w, v, a, i, m, |a|), r.mul(a[m], Times(r, |a|)))
            else InverseSum(r, w, v, a, i, m, |a|)
  {
    InverseSumStep(r, w, v, a, i, m, |a|);
    Orthogonality(r, w, v, s, i, m);
    MulZero(r, a[i]);
    Laws(r, InverseSum(r, w, v, a, i, m, |a|), r.zero, r.zero);
  }

  /** Only input m survives the double sum, n times over. */
  lemma {:induction false} InverseSumIsInput<T(!new)>(r: Ring<T>, w: T, v: T, a: seq<T>, s: nat, j: nat, m: nat)
    requires IsCommutativeRing(r)
    requires |a| == Pow2(s) && j <= |a| && m < |a|
    requires r.mul(w, v) == r.one
    requires s > 0 ==> Pow(r, w, Pow2(s - 1)) == r.neg(r.one)
    ensures InverseSum(r, w, v, a, j, m, |a|)
         == if j <= m then r.zero else r.mul(a[m], Times(r, |a|))
    decreases j
  {
    if j == 0 {
      InverseSumOfNothing(r, w, v, a, m, |a|);
    } else {
      InverseSumIsInput(r, w, v, a, s, j - 1, m);
      Contribution(r, w, v, a, s, j - 1, m);
      var t := r.mul(a[m], Times(r, |a|));
      Laws(r, t, t, t);
    }
  }

  lemma {:induction false} InverseSumOfNothing<T(!new)>(r: Ring<T>, w: T, v: T, a: seq<T>, m: nat, c: nat)
    requires IsCommutativeRing(r)
    ensures InverseSum(r, w, v, a, 0, m, c) == r.zero
  {
    if c > 0 {
      InverseSumOfNothing(r, w, v, a, m, c - 1);
      var p := Pow(r, v, (c - 1) * m);
      MulZero(r, p);
      Laws(r, r.zero, r.zero, r.zero);
    }
  }

  /** The inverse sum over the transform is a second transform, read with the inverse root. */
  lemma {:induction false} InverseSumIsDft<T(!new)>(r: Ring<T>, w: T, v: T, a: seq<T>, m: nat, c: nat)
    requires c <= |a|
    ensures DftSum(r, v, Dft(r, w, a), m, c) == InverseSum(r, w, v, a, |a|, m, c)
  {
    if c > 0 {
      InverseSumIsDft(r, w, v, a, m, c - 1);
    }
  }

  /** Transforming with w, then with its inverse, then dividing by n, changes nothing. */
  lemma InverseUndoesTransform<T(!new)>(r: Ring<T>, roots: Roots<T>, a: seq<T>, s: nat)
    requires IsCommutativeRing(r)
    requires |a| == Pow2(s) && ValidRoots(r, roots, |a|)
    ensures Scaled(r, roots.nInverse, Dft(r, roots.wInverse, Dft(r, roots.w, a))) == a
  {
    var b := Dft(r, roots.w, a);
    var c := Scaled(r, roots.nInverse, Dft(r, roots.wInverse, b));
    forall m | 0 <= m < |a| ensures c[m] == a[m] {
      InverseSumIsDft(r, roots.w, roots.wInverse, a, m, |a|);
      InverseSumIsInput(r, roots.w, roots.wInverse, a, s, |a|, m);
      Laws(r, a[m], Times(r, |a|), roots.nInverse);
    }
  }
}
