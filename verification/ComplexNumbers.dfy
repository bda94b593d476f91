/** Complex numbers with exact real parts: the ring the transform is used over. */
module ComplexNumbers {
  import opened Algebra
  import opened Fourier

  datatype Complex = Complex(re: real, im: real)

  function Plus(a: Complex, b: Complex): Complex {
    Complex(a.re + b.re, a.im + b.im)
  }

  /** The product of two real numbers. The proofs below use the laws of `MulLaws` and hide the rest. */
  function Mul(x: real, y: real): real {
    x * y
  }

  function Product(a: Complex, b: Complex): Complex {
    Complex(Mul(a.re, b.re) - Mul(a.im, b.im), Mul(a.re, b.im) + Mul(a.im, b.re))
  }

  function Minus(a: Complex): Complex {
    Complex(-a.re, -a.im)
  }

  function Conjugate(a: Complex): Complex {
    Complex(a.re, -a.im)
  }

  const ComplexRing: Ring<Complex> :=
    Ring(Complex(0.0, 0.0), Complex(1.0, 0.0), Plus, Product, Minus)

  lemma MulLaws(x: real, y: real, z: real)
    ensures Mul(x, y) == Mul(y, x)
    ensures Mul(Mul(x, y), z) == Mul(x, Mul(y, z))
    ensures Mul(x, y + z) == Mul(x, y) + Mul(x, z)
    ensures Mul(x, y - z) == Mul(x, y) - Mul(x, z)
    ensures Mul(x, -y) == -Mul(x, y)
    ensures Mul(x, 1.0) == x && Mul(x, 0.0) == 0.0
  {
    assert x * (y - z) == x * y - x * z;
  }

  lemma Distributes(x: real, y: real, z: real)
    ensures Mul(x, y + z) == Mul(x, y) + Mul(x, z) && Mul(x, y - z) == Mul(x, y) - Mul(x, z)
    ensures Mul(y + z, x) == Mul(y, x) + Mul(z, x) && Mul(y - z, x) == Mul(y, x) - Mul(z, x)
  {
    hide Mul;
    MulLaws(x, y, z);
    MulLaws(y + z, x, x);
    MulLaws(y - z, x, x);
    MulLaws(y, x, x);
    MulLaws(z, x, x);
  }

  lemma Associates(a: Complex, b: Complex, c: Complex)
    ensures Product(Product(a, b), c) == Product(a, Product(b, c))
  {
    hide Mul;
    var p, q := Product(a, b), Product(b, c);
    Distributes(c.re, Mul(a.re, b.re), Mul(a.im, b.im));
    Distributes(c.im, Mul(a.re, b.re), Mul(a.im, b.im));
    Distributes(c.re, Mul(a.re, b.im), Mul(a.im, b.re));
    Distributes(c.im, Mul(a.re, b.im), Mul(a.im, b.re));
    Distributes(a.re, Mul(b.re, c.re), Mul(b.im, c.im));
    Distributes(a.re, Mul(b.re, c.im), Mul(b.im, c.re));
    Distributes(a.im, Mul(b.re, c.re), Mul(b.im, c.im));
    Distributes(a.im, Mul(b.re, c.im), Mul(b.im, c.re));
    MulLaws(a.re, b.re, c.re);
    MulLaws(a.re, b.re, c.im);
    MulLaws(a.re, b.im, c.re);
    MulLaws(a.re, b.im, c.im);
    MulLaws(a.im, b.re, c.re);
    MulLaws(a.im, b.re, c.im);
    MulLaws(a.im, b.im, c.re);
    MulLaws(a.im, b.im, c.im);
  }

  lemma ProductLaws(a: Complex, b: Complex, c: Complex)
    ensures Product(Product(a, b), c) == Product(a, Product(b, c))
    ensures Product(a, b) == Product(b, a)
    ensures Product(a, Plus(b, c)) == Plus(Product(a, b), Product(a, c))
    ensures Product(a, Complex(1.0, 0.0)) == a
  {
    hide Mul;
    Associates(a, b, c);
    MulLaws(a.re, b.re, c.re);
    MulLaws(a.re, b.im, c.im);
    MulLaws(a.im, b.re, c.re);
    MulLaws(a.im, b.im, c.im);
  }

  lemma ComplexLaws(a: Complex, b: Complex, c: Complex)
    ensures RingLaws(ComplexRing, a, b, c)
  {
    hide Product;
    ProductLaws(a, b, c);
  }

  lemma ComplexIsRing()
    ensures IsCommutativeRing(ComplexRing)
  {
    forall a: Complex, b: Complex, c: Complex ensures RingLaws(ComplexRing, a, b, c) {
      ComplexLaws(a, b, c);
    }
  }

  lemma {:induction false} TimesIsReal(n: nat)
    ensures Times(ComplexRing, n) == Complex(n as real, 0.0)
  {
    if n > 0 {
      TimesIsReal(n - 1);
    }
  }

  lemma UnitTimesConjugate(w: Complex)
    requires Mul(w.re, w.re) + Mul(w.im, w.im) == 1.0
    ensures Product(w, Conjugate(w)) == Complex(1.0, 0.0)
  {
    hide Mul;
    MulLaws(w.re, w.im, w.im);
    MulLaws(w.im, w.im, w.im);
  }

  lemma RealTimesInverse(n: nat)
    requires n > 0
    ensures Product(Complex(n as real, 0.0), Complex(1.0 / n as real, 0.0)) == Complex(1.0, 0.0)
  {
    var x, d := n as real, 1.0 / n as real;
    assert Mul(x, d) == 1.0;
    hide Mul;
    MulLaws(x, d, d);
    MulLaws(d, d, d);
    MulLaws(0.0, 0.0, 0.0);
    MulLaws(0.0, d, d);
  }

  /** A unit-length root with w^(n/2) = -1, its conjugate (the opposite angle) and 1/n are
      what both directions of a transform of size n need. */
  lemma UnitRootsAreValid(w: Complex, n: nat)
    requires n > 0 && w.re * w.re + w.im * w.im == 1.0
    requires n >= 2 ==> Pow(ComplexRing, w, n / 2) == Complex(-1.0, 0.0)
    ensures ValidRoots(ComplexRing, Roots(w, Conjugate(w), Complex(1.0 / n as real, 0.0)), n)
  {
    hide Pow, Product;
    TimesIsReal(n);
    UnitTimesConjugate(w);
    RealTimesInverse(n);
  }

  lemma SquareOf(w: Complex)
    ensures Pow(ComplexRing, w, 2) == Product(w, w)
  {
    ComplexIsRing();
    PowFirst(ComplexRing, w);
    assert Pow(ComplexRing, w, 2) == ComplexRing.mul(w, Pow(ComplexRing, w, 1));
  }

  /** The transform of size four, with w = i. */
  lemma FourthRoot(n: nat)
    requires n == 4
    ensures var i := Complex(0.0, 1.0);
            ValidRoots(ComplexRing, Roots(i, Conjugate(i), Complex(1.0 / n as real, 0.0)), n)
  {
    var i := Complex(0.0, 1.0);
    SquareOf(i);
    assert Product(i, i) == Complex(-1.0, 0.0);
    UnitRootsAreValid(i, n);
  }
}
