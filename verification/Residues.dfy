/** For every power of two n there is a ring with what a transform of size n needs: the residues
    modulo m = 2^(n/2) + 1, with w = 2. So that the ring laws hold of every value of a type, the
    residues are the numbers below m in a ring on all natural numbers: to the base m, the lowest
    digit is a residue, and the other digits are a vector over the residues whose products are 0. */
module Residues {
  import opened Powers
  import opened Bits
  import opened Algebra
  import opened Fourier

  type Modulus = m: nat | m > 1 witness 2

  // ---- residues ----

  function Mod(m: Modulus, x: nat): (r: nat)
    ensures r < m
  {
    x % m
  }

  lemma ModPlusMultiple(m: Modulus, x: nat, q: nat)
    ensures q * m >= 0 && Mod(m, x + q * m) == Mod(m, x)
  {
    var p := x / m;
    assert x == p * m + Mod(m, x);
    assert q * m >= 0;
    assert x + q * m == (p + q) * m + Mod(m, x);
    RemainderIs(x + q * m, m, p + q, Mod(m, x));
  }

  lemma ModOfSum(m: Modulus, x: nat, y: nat)
    ensures Mod(m, Mod(m, x) + y) == Mod(m, x + y)
  {
    var p := x / m;
    assert x + y == Mod(m, x) + y + p * m;
    ModPlusMultiple(m, Mod(m, x) + y, p);
  }

  lemma ModOfProduct(m: Modulus, x: nat, y: nat)
    ensures x * y >= 0 && Mod(m, x) * y >= 0 && Mod(m, Mod(m, x) * y) == Mod(m, x * y)
  {
    var p := x / m;
    assert x * y == (Mod(m, x) + p * m) * y == Mod(m, x) * y + p * y * m;
    assert p * y >= 0;
    ModPlusMultiple(m, Mod(m, x) * y, p * y);
  }

  lemma ModOfResidue(m: Modulus, x: nat)
    requires x < m
    ensures Mod(m, x) == x
  {
    RemainderIs(x, m, 0, x);
  }

  function AddR(m: Modulus, x: nat, y: nat): (r: nat)
    ensures r < m
  {
    Mod(m, x + y)
  }

  function MulR(m: Modulus, x: nat, y: nat): (r: nat)
    ensures r < m
  {
    Mod(m, x * y)
  }

  lemma Products(x: nat, y: nat, z: nat)
    ensures x * y == y * x && x * y * z == y * z * x && (y + z) * x == x * y + x * z
    ensures x * y >= 0 && y * z >= 0 && x * z >= 0 && x * y * z >= 0
  {
  }

  lemma MulIsAssociative(m: Modulus, x: nat, y: nat, z: nat)
    ensures MulR(m, MulR(m, x, y), z) == MulR(m, x, MulR(m, y, z))
  {
    hide Mod;
    Products(x, y, z);
    Products(x, Mod(m, y * z), z);
    ModOfProduct(m, x * y, z);
    ModOfProduct(m, y * z, x);
  }

  lemma MulDistributes(m: Modulus, x: nat, y: nat, z: nat)
    ensures MulR(m, x, AddR(m, y, z)) == AddR(m, MulR(m, x, y), MulR(m, x, z))
  {
    hide Mod;
    Products(x, y, z);
    Products(x, Mod(m, y + z), z);
    ModOfProduct(m, y + z, x);
    ModOfSum(m, x * y, Mod(m, x * z));
    ModOfSum(m, x * z, x * y);
  }

  lemma AddIsAssociative(m: Modulus, x: nat, y: nat, z: nat)
    ensures AddR(m, AddR(m, x, y), z) == AddR(m, x, AddR(m, y, z))
    ensures AddR(m, x, y) == AddR(m, y, x)
  {
    hide Mod;
    ModOfSum(m, x + y, z);
    ModOfSum(m, y + z, x);
  }

  lemma Units(m: Modulus, x: nat)
    ensures x < m ==> AddR(m, x, 0) == x && MulR(m, 1, x) == x && MulR(m, x, 1) == x
    ensures MulR(m, 0, x) == 0 && AddR(m, 1, m - 1) == 0
  {
    hide Mod;
    if x < m {
      ModOfResidue(m, x);
    }
    ModOfResidue(m, 0);
    ModPlusMultiple(m, 0, 1);
  }

  lemma MulIsCommutative(m: Modulus, x: nat, y: nat)
    ensures MulR(m, x, y) == MulR(m, y, x)
  {
    hide Mod;
    Products(x, y, 0);
  }

  lemma ResidueLaws(m: Modulus, x: nat, y: nat, z: nat)
    ensures AddR(m, AddR(m, x, y), z) == AddR(m, x, AddR(m, y, z))
    ensures AddR(m, x, y) == AddR(m, y, x)
    ensures MulR(m, MulR(m, x, y), z) == MulR(m, x, MulR(m, y, z))
    ensures MulR(m, x, y) == MulR(m, y, x)
    ensures MulR(m, x, AddR(m, y, z)) == AddR(m, MulR(m, x, y), MulR(m, x, z))
    ensures MulR(m, AddR(m, y, z), x) == AddR(m, MulR(m, y, x), MulR(m, z, x))
    ensures x < m ==> AddR(m, x, 0) == x && MulR(m, 1, x) == x && MulR(m, x, 1) == x
    ensures MulR(m, 0, x) == 0 && AddR(m, 1, m - 1) == 0
  {
    hide AddR, MulR;
    AddIsAssociative(m, x, y, z);
    MulIsAssociative(m, x, y, z);
    MulIsCommutative(m, x, y);
    MulIsCommutative(m, x, z);
    MulIsCommutative(m, x, AddR(m, y, z));
    MulDistributes(m, x, y, z);
    Units(m, x);
  }

  // ---- digits ----

  function Low(m: Modulus, a: nat): (r: nat)
    ensures r < m
  {
    a % m
  }

  function High(m: Modulus, a: nat): (x: nat)
    ensures x <= a && (a > 0 ==> x < a)
  {
    HighIsSmaller(m, a);
    a / m
  }

  lemma HighIsSmaller(m: Modulus, a: nat)
    ensures 0 <= a / m <= a && (a > 0 ==> a / m < a)
  {
    var q := a / m;
    assert a == q * m + a % m;
    if q > 0 {
      assert q * m >= q * 2;
    }
  }

  function Digits(m: Modulus, d: nat, x: nat): (a: nat)
    requires d < m
  {
    assert x * m >= 0;
    x * m + d
  }

  lemma DigitsParts(m: Modulus, d: nat, x: nat)
    requires d < m
    ensures Low(m, Digits(m, d, x)) == d && High(m, Digits(m, d, x)) == x
  {
    RemainderIs(Digits(m, d, x), m, x, d);
  }

  lemma PartsDigits(m: Modulus, a: nat)
    ensures Digits(m, Low(m, a), High(m, a)) == a
  {
  }

  lemma ResidueParts(m: Modulus, a: nat)
    requires a < m
    ensures Low(m, a) == a && High(m, a) == 0 && Digits(m, a, 0) == a
  {
    RemainderIs(a, m, 0, a);
  }

  // ---- vectors ----

  function Sum(m: Modulus, a: nat, b: nat): nat
    decreases a + b
  {
    if a == 0 && b == 0 then 0
    else Digits(m, AddR(m, Low(m, a), Low(m, b)), Sum(m, High(m, a), High(m, b)))
  }

  function Scale(m: Modulus, k: nat, a: nat): nat {
    if a == 0 then 0 else Digits(m, MulR(m, k, Low(m, a)), Scale(m, k, High(m, a)))
  }

  lemma SumParts(m: Modulus, a: nat, b: nat)
    ensures Low(m, Sum(m, a, b)) == AddR(m, Low(m, a), Low(m, b))
    ensures High(m, Sum(m, a, b)) == Sum(m, High(m, a), High(m, b))
    ensures a == 0 && b == 0 ==> Sum(m, a, b) == 0
  {
    hide Mod, AddR, Low, High, Digits;
    if a == 0 && b == 0 {
      ResidueParts(m, 0);
      ResidueLaws(m, 0, 0, 0);
    } else {
      DigitsParts(m, AddR(m, Low(m, a), Low(m, b)), Sum(m, High(m, a), High(m, b)));
    }
  }

  lemma ScaleParts(m: Modulus, k: nat, a: nat)
    ensures Low(m, Scale(m, k, a)) == MulR(m, k, Low(m, a))
    ensures High(m, Scale(m, k, a)) == Scale(m, k, High(m, a))
    ensures a == 0 ==> Scale(m, k, a) == 0
  {
    hide Mod, MulR, Low, High, Digits;
    if a == 0 {
      ResidueParts(m, 0);
      ResidueLaws(m, 0, k, 0);
      ResidueLaws(m, k, 0, 0);
    } else {
      DigitsParts(m, MulR(m, k, Low(m, a)), Scale(m, k, High(m, a)));
    }
  }

  /** Numbers with the same digits are equal. */
  lemma SameParts(m: Modulus, a: nat, b: nat)
    requires Low(m, a) == Low(m, b) && High(m, a) == High(m, b)
    ensures a == b
  {
    hide Low, High, Digits;
    PartsDigits(m, a);
    PartsDigits(m, b);
  }

  lemma {:induction false} SumIsCommutative(m: Modulus, a: nat, b: nat)
    ensures Sum(m, a, b) == Sum(m, b, a)
    decreases a + b
  {
    hide Low, High, AddR, Sum;
    SumParts(m, a, b);
    SumParts(m, b, a);
    ResidueLaws(m, Low(m, a), Low(m, b), 0);
    if a + b > 0 {
      SumIsCommutative(m, High(m, a), High(m, b));
      SameParts(m, Sum(m, a, b), Sum(m, b, a));
    }
  }

  lemma {:induction false} SumIsAssociative(m: Modulus, a: nat, b: nat, c: nat)
    ensures Sum(m, Sum(m, a, b), c) == Sum(m, a, Sum(m, b, c))
    decreases a + b + c
  {
    hide Low, High, AddR, Sum;
    SumParts(m, a, b);
    SumParts(m, b, c);
    SumParts(m, Sum(m, a, b), c);
    SumParts(m, a, Sum(m, b, c));
    ResidueLaws(m, Low(m, a), Low(m, b), Low(m, c));
    if a + b + c > 0 {
      SumIsAssociative(m, High(m, a), High(m, b), High(m, c));
      SameParts(m, Sum(m, Sum(m, a, b), c), Sum(m, a, Sum(m, b, c)));
    }
  }

  lemma {:induction false} SumWithZero(m: Modulus, a: nat)
    ensures Sum(m, a, 0) == a
  {
    hide Low, High, AddR, Sum;
    SumParts(m, a, 0);
    ResidueParts(m, 0);
    ResidueLaws(m, Low(m, a), 0, 0);
    if a > 0 {
      SumWithZero(m, High(m, a));
      SameParts(m, Sum(m, a, 0), a);
    }
  }

  lemma {:induction false} ScaleOfSum(m: Modulus, k: nat, a: nat, b: nat)
    ensures Scale(m, k, Sum(m, a, b)) == Sum(m, Scale(m, k, a), Scale(m, k, b))
    decreases a + b
  {
    hide Low, High, AddR, MulR, Sum, Scale;
    SumParts(m, a, b);
    ScaleParts(m, k, a);
    ScaleParts(m, k, b);
    ScaleParts(m, k, Sum(m, a, b));
    SumParts(m, Scale(m, k, a), Scale(m, k, b));
    ResidueLaws(m, k, Low(m, a), Low(m, b));
    if a + b > 0 {
      ScaleOfSum(m, k, High(m, a), High(m, b));
      SameParts(m, Scale(m, k, Sum(m, a, b)), Sum(m, Scale(m, k, a), Scale(m, k, b)));
    }
  }

  lemma {:induction false} ScaleBySum(m: Modulus, j: nat, k: nat, a: nat)
    ensures Scale(m, AddR(m, j, k), a) == Sum(m, Scale(m, j, a), Scale(m, k, a))
    decreases a
  {
    hide Low, High, AddR, MulR, Sum, Scale;
    ScaleParts(m, j, a);
    ScaleParts(m, k, a);
    ScaleParts(m, AddR(m, j, k), a);
    SumParts(m, Scale(m, j, a), Scale(m, k, a));
    ResidueLaws(m, Low(m, a), j, k);
    if a > 0 {
      ScaleBySum(m, j, k, High(m, a));
      SameParts(m, Scale(m, AddR(m, j, k), a), Sum(m, Scale(m, j, a), Scale(m, k, a)));
    }
  }

  lemma {:induction false} ScaleByProduct(m: Modulus, j: nat, k: nat, a: nat)
    ensures Scale(m, MulR(m, j, k), a) == Scale(m, j, Scale(m, k, a))
    decreases a
  {
    hide Low, High, AddR, MulR, Sum, Scale;
    ScaleParts(m, k, a);
    ScaleParts(m, j, Scale(m, k, a));
    ScaleParts(m, MulR(m, j, k), a);
    ResidueLaws(m, j, k, Low(m, a));
    if a > 0 {
      ScaleByProduct(m, j, k, High(m, a));
      SameParts(m, Scale(m, MulR(m, j, k), a), Scale(m, j, Scale(m, k, a)));
    }
  }

  lemma {:induction false} ScaleByUnits(m: Modulus, a: nat)
    ensures Scale(m, 1, a) == a && Scale(m, 0, a) == 0
  {
    hide Low, High, AddR, MulR, Sum, Scale;
    ScaleParts(m, 1, a);
    ScaleParts(m, 0, a);
    ResidueParts(m, 0);
    ResidueLaws(m, Low(m, a), 0, 0);
    if a > 0 {
      ScaleByUnits(m, High(m, a));
      SameParts(m, Scale(m, 1, a), a);
      SameParts(m, Scale(m, 0, a), 0);
    }
  }

  // ---- the ring ----

  function Negative(m: Modulus, a: nat): nat {
    Scale(m, m - 1, a)
  }

  function Product(m: Modulus, a: nat, b: nat): nat {
    Digits(m, MulR(m, Low(m, a), Low(m, b)),
           Sum(m, Scale(m, Low(m, a), High(m, b)), Scale(m, Low(m, b), High(m, a))))
  }

  function ResidueRing(m: Modulus): Ring<nat> {
    Ring(0, 1, (a, b) => Sum(m, a, b), (a, b) => Product(m, a, b), a => Negative(m, a))
  }

  lemma ProductParts(m: Modulus, a: nat, b: nat)
    ensures Low(m, Product(m, a, b)) == MulR(m, Low(m, a), Low(m, b))
    ensures High(m, Product(m, a, b))
         == Sum(m, Scale(m, Low(m, a), High(m, b)), Scale(m, Low(m, b), High(m, a)))
  {
    hide Low, High, Digits, MulR, Sum, Scale;
    DigitsParts(m, MulR(m, Low(m, a), Low(m, b)),
      Sum(m, Scale(m, Low(m, a), High(m, b)), Scale(m, Low(m, b), High(m, a))));
  }

  lemma ProductIsCommutative(m: Modulus, a: nat, b: nat)
    ensures Product(m, a, b) == Product(m, b, a)
  {
    hide Low, High, MulR, Sum, Scale, Product;
    ProductParts(m, a, b);
    ProductParts(m, b, a);
    ResidueLaws(m, Low(m, a), Low(m, b), 0);
    SumIsCommutative(m, Scale(m, Low(m, a), High(m, b)), Scale(m, Low(m, b), High(m, a)));
    SameParts(m, Product(m, a, b), Product(m, b, a));
  }

  lemma ProductIsAssociative(m: Modulus, a: nat, b: nat, c: nat)
    ensures Product(m, Product(m, a, b), c) == Product(m, a, Product(m, b, c))
  {
    hide Low, High, AddR, MulR, Sum, Scale, Product;
    var p, q, r := Low(m, a), Low(m, b), Low(m, c);
    var x, y, z := High(m, a), High(m, b), High(m, c);
    ProductParts(m, a, b);
    ProductParts(m, b, c);
    ProductParts(m, Product(m, a, b), c);
    ProductParts(m, a, Product(m, b, c));
    ResidueLaws(m, p, q, r);
    ResidueLaws(m, r, p, q);
    ResidueLaws(m, r, q, p);
    ScaleByProduct(m, p, q, z);
    ScaleOfSum(m, r, Scale(m, p, y), Scale(m, q, x));
    ScaleOfSum(m, p, Scale(m, q, z), Scale(m, r, y));
    ScaleByProduct(m, r, p, y);
    ScaleByProduct(m, p, r, y);
    ScaleByProduct(m, r, q, x);
    ScaleByProduct(m, q, r, x);
    SumIsAssociative(m, Scale(m, p, Scale(m, q, z)), Scale(m, p, Scale(m, r, y)), Scale(m, MulR(m, q, r), x));
    SameParts(m, Product(m, Product(m, a, b), c), Product(m, a, Product(m, b, c)));
  }

  lemma FourSums(m: Modulus, a: nat, b: nat, c: nat, d: nat)
    ensures Sum(m, Sum(m, a, b), Sum(m, c, d)) == Sum(m, Sum(m, a, c), Sum(m, b, d))
  {
    hide Sum;
    SumIsAssociative(m, a, b, Sum(m, c, d));
    SumIsAssociative(m, b, c, d);
    SumIsCommutative(m, b, c);
    SumIsAssociative(m, c, b, d);
    SumIsAssociative(m, a, c, Sum(m, b, d));
  }

  lemma ProductDistributes(m: Modulus, a: nat, b: nat, c: nat)
    ensures Product(m, a, Sum(m, b, c)) == Sum(m, Product(m, a, b), Product(m, a, c))
  {
    hide Low, High, AddR, MulR, Sum, Scale, Product;
    var p, q, r := Low(m, a), Low(m, b), Low(m, c);
    var x, y, z := High(m, a), High(m, b), High(m, c);
    SumParts(m, b, c);
    ProductParts(m, a, Sum(m, b, c));
    ProductParts(m, a, b);
    ProductParts(m, a, c);
    SumParts(m, Product(m, a, b), Product(m, a, c));
    ResidueLaws(m, p, q, r);
    ScaleOfSum(m, p, y, z);
    ScaleBySum(m, q, r, x);
    FourSums(m, Scale(m, p, y), Scale(m, p, z), Scale(m, q, x), Scale(m, r, x));
    SameParts(m, Product(m, a, Sum(m, b, c)), Sum(m, Product(m, a, b), Product(m, a, c)));
  }

  lemma ProductWithOne(m: Modulus, a: nat)
    ensures Product(m, a, 1) == a
  {
    hide Low, High, AddR, MulR, Sum, Scale, Product;
    var x := High(m, a);
    ResidueParts(m, 1);
    ProductParts(m, a, 1);
    ResidueLaws(m, Low(m, a), 0, 0);
    ScaleParts(m, Low(m, a), 0);
    ScaleByUnits(m, x);
    SumIsCommutative(m, 0, x);
    SumWithZero(m, x);
    SameParts(m, Product(m, a, 1), a);
  }

  lemma SumWithNegative(m: Modulus, a: nat)
    ensures Sum(m, a, Negative(m, a)) == 0
  {
    hide AddR, Sum, Scale;
    ScaleByUnits(m, a);
    ScaleBySum(m, 1, m - 1, a);
    ResidueLaws(m, 0, 0, 0);
  }

  lemma ResidueRingLaws(m: Modulus, a: nat, b: nat, c: nat)
    ensures RingLaws(ResidueRing(m), a, b, c)
  {
    hide Sum, Product, Negative;
    SumIsAssociative(m, a, b, c);
    SumIsCommutative(m, a, b);
    SumWithZero(m, a);
    SumWithNegative(m, a);
    ProductIsAssociative(m, a, b, c);
    ProductIsCommutative(m, a, b);
    ProductWithOne(m, a);
    ProductDistributes(m, a, b, c);
  }

  lemma ResiduesAreARing(m: Modulus)
    ensures IsCommutativeRing(ResidueRing(m))
  {
    hide RingLaws;
    forall a: nat, b: nat, c: nat ensures RingLaws(ResidueRing(m), a, b, c) {
      ResidueRingLaws(m, a, b, c);
    }
  }

  /** Below m, the ring works as arithmetic modulo m. */
  lemma OnResidues(m: Modulus, a: nat, b: nat)
    requires a < m && b < m
    ensures Sum(m, a, b) == Mod(m, a + b) && Product(m, a, b) == Mod(m, a * b)
  {
    hide Low, High, Sum, Scale, Product, Mod;
    ResidueParts(m, a);
    ResidueParts(m, b);
    SumParts(m, a, b);
    SumParts(m, 0, 0);
    ProductParts(m, a, b);
    ScaleParts(m, a, 0);
    ScaleParts(m, b, 0);
    ResidueParts(m, Mod(m, a + b));
    SameParts(m, Sum(m, a, b), Mod(m, a + b));
    Products(a, b, 0);
    ResidueParts(m, Mod(m, a * b));
    SameParts(m, Product(m, a, b), Mod(m, a * b));
  }

  // ---- roots ----

  lemma {:induction false} TimesAdd<T(!new)>(r: Ring<T>, j: nat, k: nat)
    requires IsCommutativeRing(r)
    ensures Times(r, j + k) == r.add(Times(r, j), Times(r, k))
    decreases k
  {
    var t := Times(r, j);
    Laws(r, t, t, t);
    if k > 0 {
      TimesAdd(r, j, k - 1);
      Laws(r, t, Times(r, k - 1), r.one);
    }
  }

  /** 2^s ones are the s-th power of two ones. */
  lemma {:induction false} TimesPower<T(!new)>(r: Ring<T>, s: nat)
    requires IsCommutativeRing(r)
    ensures Times(r, Pow2(s)) == Pow(r, r.add(r.one, r.one), s)
  {
    if s == 0 {
      assert Times(r, 1) == r.add(Times(r, 0), r.one);
      Laws(r, r.one, r.one, r.one);
    } else {
      var n := Pow2(s - 1);
      var t := Times(r, n);
      TimesPower(r, s - 1);
      TimesAdd(r, n, n);
      Laws(r, t, r.one, r.one);
    }
  }

  lemma {:induction false} PowerOfTwo(m: Modulus, k: nat)
    requires Pow2(k) < m && m > 2
    ensures Pow(ResidueRing(m), 2, k) == Pow2(k)
  {
    hide Sum, Product, Negative, Mod;
    if k > 0 {
      PowerOfTwo(m, k - 1);
      OnResidues(m, 2, Pow2(k - 1));
      ModOfResidue(m, Pow2(k));
    }
  }

  lemma MinusOne(m: Modulus)
    ensures Negative(m, 1) == m - 1
  {
    hide Low, High, Scale, MulR;
    ResidueParts(m, 1);
    ResidueParts(m, m - 1);
    ScaleParts(m, m - 1, 1);
    ScaleParts(m, m - 1, 0);
    ResidueLaws(m, m - 1, 0, 0);
    SameParts(m, Scale(m, m - 1, 1), m - 1);
  }

  /** The half turn of a transform of size 2^s: 2 to this power is -1. */
  function HalfSize(s: nat): (h: nat)
    ensures h > 0
  {
    if s == 0 then 1 else Pow2(s - 1)
  }

  function ModulusFor(s: nat): Modulus {
    Pow2(HalfSize(s)) + 1
  }

  function RootsFor(s: nat): Roots<nat> {
    var half := Pow2(HalfSize(s) - 1) + 1;
    Roots(2, half, Pow(ResidueRing(ModulusFor(s)), half, s))
  }

  lemma TwoTimesHalf(s: nat)
    ensures Product(ModulusFor(s), 2, RootsFor(s).wInverse) == 1
    ensures Sum(ModulusFor(s), 1, 1) == 2
  {
    hide Sum, Product, Mod, Pow;
    var h, m, half := HalfSize(s), ModulusFor(s), RootsFor(s).wInverse;
    assert Pow2(h) == 2 * Pow2(h - 1);
    assert 2 * half == 1 + 1 * m;
    OnResidues(m, 2, half);
    ModPlusMultiple(m, 1, 1);
    ModOfResidue(m, 1);
    OnResidues(m, 1, 1);
    ModOfResidue(m, 2);
  }

  lemma HalfTurnOfTwo(s: nat)
    ensures HalfTurn(ResidueRing(ModulusFor(s)), 2, Pow2(s))
  {
    hide Sum, Product, Negative, Pow;
    var m := ModulusFor(s);
    PowerOfTwo(m, HalfSize(s));
    MinusOne(m);
    assert s > 0 ==> Pow2(s) / 2 == HalfSize(s);
  }

  /** Where 2 has an inverse, its s-th power is the inverse of 2^s. */
  lemma OneOverPower<T(!new)>(r: Ring<T>, half: T, s: nat)
    requires IsCommutativeRing(r) && r.mul(r.add(r.one, r.one), half) == r.one
    ensures IsOneOver(r, Pow2(s), Pow(r, half, s))
  {
    hide IsCommutativeRing, Pow, Pow2, Times;
    TimesPower(r, s);
    PowProduct(r, r.add(r.one, r.one), half, s);
    PowOne(r, s);
  }

  lemma HalfInTheRing(s: nat)
    ensures var r := ResidueRing(ModulusFor(s));
            r.mul(r.add(r.one, r.one), RootsFor(s).wInverse) == r.one && r.mul(2, RootsFor(s).wInverse) == r.one
  {
    hide Sum, Product, Negative, Pow, Pow2;
    TwoTimesHalf(s);
  }

  /** For every power of two n = 2^s, the residues modulo 2^(n/2) + 1 with w = 2, its inverse and
      1/n meet what a transform of size n and its inverse need. */
  lemma RootsOfEverySize(s: nat)
    ensures IsCommutativeRing(ResidueRing(ModulusFor(s)))
    ensures ValidRoots(ResidueRing(ModulusFor(s)), RootsFor(s), Pow2(s))
  {
    hide IsCommutativeRing, HalfTurn, IsOneOver, ResidueRing, Pow, Pow2;
    var r := ResidueRing(ModulusFor(s));
    ResiduesAreARing(ModulusFor(s));
    HalfInTheRing(s);
    HalfTurnOfTwo(s);
    OneOverPower(r, RootsFor(s).wInverse, s);
  }
}
