/** Bitwise operators on unsigned integers, as functions on natural numbers. */
module Bits {
  import opened Powers

  function And(x: nat, y: nat): nat {
    if x == 0 || y == 0 then 0
    else 2 * And(x / 2, y / 2) + if x % 2 == 1 && y % 2 == 1 then 1 else 0
  }

  function Or(x: nat, y: nat): nat
    decreases x
  {
    if x == 0 then y
    else 2 * Or(x / 2, y / 2) + if x % 2 == 1 || y % 2 == 1 then 1 else 0
  }

  function Xor(x: nat, y: nat): nat
    decreases x
  {
    if x == 0 then y
    else 2 * Xor(x / 2, y / 2) + if x % 2 != y % 2 then 1 else 0
  }

  /** x & (2^k - 1) is the remainder modulo 2^k. */
  lemma {:induction false} MaskIsRemainder(x: nat, k: nat)
    ensures And(x, Pow2(k) - 1) == x % Pow2(k)
    decreases k
  {
    if k == 0 {
      assert x % 1 == 0;
    } else {
      var p := Pow2(k - 1);
      assert Pow2(k) == 2 * p;
      AndOddMask(x, p);
      MaskIsRemainder(x / 2, k - 1);
      assert And(x / 2, p - 1) == x / 2 % p;
      RemainderOfDouble(x, p);
    }
  }

  lemma AndOddMask(x: nat, p: nat)
    requires p > 0
    ensures And(x, 2 * p - 1) == 2 * And(x / 2, p - 1) + x % 2
  {
    assert (2 * p - 1) / 2 == p - 1 && (2 * p - 1) % 2 == 1;
  }

  lemma RemainderOfDouble(x: nat, p: nat)
    requires p > 0
    ensures x % (2 * p) == 2 * (x / 2 % p) + x % 2
  {
    var q := x / 2;
    RemainderIs(x, 2 * p, q / p, 2 * (q % p) + x % 2);
  }

  lemma RemainderIs(x: nat, d: nat, q: nat, m: nat)
    requires m < d && x == q * d + m
    ensures x % d == m && x / d == q
  {
    var e := q - x / d;
    assert e * d == x % d - m;
    assert e == 0;
  }

  /** x & y and x ^ y when y is the topmost bit that x can have. */
  lemma {:induction false} TopBit(x: nat, k: nat)
    requires x < 2 * Pow2(k)
    ensures And(x, Pow2(k)) == if x >= Pow2(k) then Pow2(k) else 0
    ensures Xor(x, Pow2(k)) == if x >= Pow2(k) then x - Pow2(k) else x + Pow2(k)
  {
    if k > 0 && x > 0 {
      TopBit(x / 2, k - 1);
    }
  }

  function Shr(x: nat, k: nat): nat
    decreases k
  {
    if k == 0 then x else Shr(x / 2, k - 1)
  }

  lemma {:induction false} ShrAdd(x: nat, j: nat, k: nat)
    ensures Shr(Shr(x, j), k) == Shr(x, j + k)
    decreases j
  {
    if j > 0 {
      ShrAdd(x / 2, j - 1, k);
    }
  }

  function BitLength(x: nat): nat {
    if x == 0 then 0 else 1 + BitLength(x / 2)
  }

  lemma {:induction false} BitLengthBounds(x: nat)
    ensures x < Pow2(BitLength(x))
    ensures x > 0 ==> Pow2(BitLength(x) - 1) <= x
    ensures x > 0 ==> Shr(x, BitLength(x) - 1) == 1
  {
    if x > 1 {
      BitLengthBounds(x / 2);
    }
  }

  lemma {:induction false} ShrOfMask(j: nat, k: nat)
    requires k <= j
    ensures Shr(Pow2(j) - 1, k) == Pow2(j - k) - 1
    decreases k
  {
    if k > 0 {
      assert (Pow2(j) - 1) / 2 == Pow2(j - 1) - 1;
      ShrOfMask(j - 1, k - 1);
    }
  }

  lemma TwiceProduct(q: nat, p: nat)
    ensures q * (2 * p) == 2 * (q * p)
  {
  }

  lemma OrOddMask(x: nat, m: nat)
    ensures Or(x, 2 * m + 1) == 2 * Or(x / 2, m) + 1
  {
    assert (2 * m + 1) / 2 == m && (2 * m + 1) % 2 == 1;
  }

  /** x | (2^d - 1) sets the d low bits and keeps the rest. */
  lemma {:induction false} OrMask(x: nat, d: nat)
    ensures Shr(Or(x, Pow2(d) - 1), d) == Shr(x, d)
    ensures Or(x, Pow2(d) - 1) + 1 == (Shr(x, d) + 1) * Pow2(d)
    decreases d
  {
    if d == 0 {
      OrZero(x);
    } else {
      var m := Pow2(d - 1) - 1;
      OrMask(x / 2, d - 1);
      OrOddMask(x, m);
      assert (2 * Or(x / 2, m) + 1) / 2 == Or(x / 2, m);
      TwiceProduct(Shr(x, d) + 1, m + 1);
    }
  }

  lemma {:induction false} OrZero(x: nat)
    ensures Or(x, 0) == x
  {
    if x > 0 {
      OrZero(x / 2);
    }
  }

  // ---- rounding up to a power of two ----

  /** The top t of the low l bits of x are all set. */
  ghost predicate TopOnes(x: nat, l: nat, t: nat)
    requires t <= l
  {
    Shr(x, l - t) == Pow2(t) - 1
  }

  /** x | (x >> s) doubles the run of ones at the top. */
  lemma {:induction false} SmearStep(x: nat, l: nat, s: nat)
    requires s <= l && TopOnes(x, l, s)
    ensures TopOnes(Or(x, Shr(x, s)), l, if 2 * s <= l then 2 * s else l)
    decreases l
  {
    var y := Shr(x, s);
    if 2 * s < l {
      SmearStep(x / 2, l - 1, s);
      ShrAdd(x, 1, s);
      ShrAdd(x, s, 1);
      assert y / 2 == Shr(y, 1) == Shr(x / 2, s);
      OrHalves(x, y);
    } else {
      var d := l - s;
      ShrAdd(x, d, s - d);
      ShrOfMask(s, s - d);
      OrMask(x, d);
      assert y == Pow2(d) - 1;
      Pow2Add(s, d);
    }
  }

  lemma OrHalves(x: nat, y: nat)
    ensures Or(x, y) / 2 == Or(x / 2, y / 2)
  {
  }

  const WORD := 0x1_0000_0000_0000_0000

  ghost predicate IsPow2(x: nat) {
    exists k: nat :: x == Pow2(k)
  }

  ghost predicate IsLeastPow2AtLeast(r: nat, n: nat) {
    IsPow2(r) && n <= r && forall k: nat | n <= Pow2(k) :: r <= Pow2(k)
  }

  lemma LeastPow2(m: nat)
    ensures IsLeastPow2AtLeast(Pow2(BitLength(m)), m + 1)
  {
    var l := BitLength(m);
    BitLengthBounds(m);
    forall k: nat | m + 1 <= Pow2(k) ensures Pow2(l) <= Pow2(k) {
      if k < l {
        Pow2Monotone(k, l - 1);
      } else {
        Pow2Monotone(l, k);
      }
    }
  }
}
