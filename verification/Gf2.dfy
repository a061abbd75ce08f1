/** Polynomials over GF(2), coded by the bits of a number: sum is xor, bit i is the coefficient of w^i. */
module Gf2 {
  import opened NatArith
  import opened Bits

  /** y if the bit is set. */
  function Pick(bit: nat, y: nat): nat {
    if bit == 1 then y else 0
  }

  /** The product of two polynomials: carry-less multiplication. */
  function Mul(x: nat, y: nat): nat
    decreases x
  {
    if x == 0 then 0 else Xor(Pick(x % 2, y), 2 * Mul(x / 2, y))
  }

  lemma MulStep(x: nat, y: nat)
    ensures Mul(x, y) == Xor(Pick(x % 2, y), 2 * Mul(x / 2, y))
  {
  }

  lemma XorDouble(x: nat, y: nat)
    ensures Xor(2 * x, 2 * y) == 2 * Xor(x, y)
  {
    XorLow(0, x, 0, y);
  }

  lemma {:induction false} MulXorRight(x: nat, y: nat, z: nat)
    ensures Mul(x, Xor(y, z)) == Xor(Mul(x, y), Mul(x, z))
  {
    hide Xor;
    if x == 0 {
      XorZero(0);
    } else {
      MulXorRight(x / 2, y, z);
      XorZero(0);
      XorDouble(Mul(x / 2, y), Mul(x / 2, z));
      var b := x % 2;
      XorShuffle(Pick(b, y), Pick(b, z), 2 * Mul(x / 2, y), 2 * Mul(x / 2, z));
      assert Pick(b, Xor(y, z)) == Xor(Pick(b, y), Pick(b, z));
    }
  }

  lemma {:induction false} MulXorLeft(x: nat, y: nat, z: nat)
    ensures Mul(Xor(x, y), z) == Xor(Mul(x, z), Mul(y, z))
    decreases x + y
  {
    hide Xor, Mul;
    if x == 0 || y == 0 {
      XorZero(x);
      XorZero(y);
      ZeroTimes(z);
      XorZero(Mul(x, z));
      XorZero(Mul(y, z));
    } else {
      MulXorLeft(x / 2, y / 2, z);
      XorHalves(x, y);
      MulStep(Xor(x, y), z);
      MulStep(x, z);
      MulStep(y, z);
      XorDouble(Mul(x / 2, z), Mul(y / 2, z));
      XorShuffle(Pick(x % 2, z), Pick(y % 2, z), 2 * Mul(x / 2, z), 2 * Mul(y / 2, z));
      XorSelf(z);
      XorZero(0);
      XorZero(z);
    }
  }

  lemma ZeroTimes(z: nat)
    ensures Mul(0, z) == 0
  {
  }

  lemma {:induction false} TimesZero(x: nat)
    ensures Mul(x, 0) == 0
  {
    if x > 0 { TimesZero(x / 2); }
  }

  lemma {:induction false} MulDoubleRight(x: nat, y: nat)
    ensures Mul(x, 2 * y) == 2 * Mul(x, y)
  {
    if x > 0 {
      hide Xor;
      MulDoubleRight(x / 2, y);
      XorDouble(Pick(x % 2, y), 2 * Mul(x / 2, y));
    }
  }

  lemma MulDoubleLeft(x: nat, y: nat)
    ensures Mul(2 * x, y) == 2 * Mul(x, y)
  {
    hide Xor, Mul;
    MulStep(2 * x, y);
    XorZero(2 * Mul(x, y));
  }

  lemma {:induction false} MulOneRight(x: nat)
    ensures Mul(x, 1) == x
  {
    if x > 0 {
      MulOneRight(x / 2);
      assert Xor(x % 2, 2 * (x / 2)) == x by { XorLow(x % 2, 0, 0, x / 2); XorZero(x / 2); }
    }
  }

  lemma {:induction false} MulComm(x: nat, y: nat)
    ensures Mul(x, y) == Mul(y, x)
    decreases x
  {
    TimesZero(y);
    if x > 0 {
      hide Xor;
      var b, h := x % 2, x / 2;
      MulComm(h, y);
      assert x == Xor(b, 2 * h) by { XorLow(b, 0, 0, h); XorZero(h); }
      MulXorRight(y, b, 2 * h);
      MulDoubleRight(y, h);
      MulOneRight(y);
    }
  }

  lemma {:induction false} MulAssociates(x: nat, y: nat, z: nat)
    ensures Mul(Mul(x, y), z) == Mul(x, Mul(y, z))
    decreases x
  {
    hide Xor;
    ZeroTimes(z);
    if x > 0 {
      MulAssociates(x / 2, y, z);
      MulXorLeft(Pick(x % 2, y), 2 * Mul(x / 2, y), z);
      MulDoubleLeft(Mul(x / 2, y), z);
    }
  }

  lemma ShiftZero(x: nat)
    ensures Pow(2, 0) * x == x
  {
  }

  lemma PowStep(k: nat, x: nat)
    requires k > 0
    ensures Pow(2, k) * x == 2 * (Pow(2, k - 1) * x)
  {
    MulAssoc(2, Pow(2, k - 1), x);
  }

  /** Multiplying by w^k shifts. */
  lemma {:induction false} MulShift(x: nat, y: nat, k: nat)
    ensures Mul(Pow(2, k) * x, y) == Pow(2, k) * Mul(x, y)
    decreases k
  {
    hide Mul, Pow;
    ShiftZero(x);
    ShiftZero(Mul(x, y));
    if k > 0 {
      MulShift(x, y, k - 1);
      PowStep(k, x);
      PowStep(k, Mul(x, y));
      MulDoubleLeft(Pow(2, k - 1) * x, y);
    }
  }

  lemma MulPow(y: nat, k: nat)
    ensures Mul(Pow(2, k), y) == Pow(2, k) * y && Mul(y, Pow(2, k)) == Pow(2, k) * y
  {
    hide Mul;
    MulShift(1, y, k);
    MulOneRight(y);
    MulComm(1, y);
    MulComm(y, Pow(2, k));
  }

  lemma {:induction false} MulBound(x: nat, y: nat, i: nat, j: nat)
    requires x < Pow(2, i) && y < Pow(2, j)
    ensures Mul(x, y) < Pow(2, i + j)
    decreases i
  {
    hide Xor, Mul, Pow;
    PowPositive(2, i + j);
    ZeroTimes(y);
    if i == 0 {
      assert x == 0 by { assert Pow(2, 0) == 1 by { ShiftZero(1); } }
    } else {
      PowDouble(i);
      PowDouble(i + j);
      MulBound(x / 2, y, i - 1, j);
      MulStep(x, y);
      PowMonotone(2, j, i + j);
      XorBound(Pick(x % 2, y), 2 * Mul(x / 2, y), i + j);
    }
  }

  /** A non-zero multiple of a polynomial of degree n has at least that degree. */
  lemma {:induction false} MulLower(q: nat, y: nat, n: nat)
    requires q > 0 && Pow(2, n) <= y < Pow(2, n + 1)
    ensures Mul(q, y) >= Pow(2, n)
    decreases q
  {
    hide Xor;
    if q == 1 {
      ZeroTimes(y);
      XorZero(y);
    } else {
      MulLower(q / 2, y, n);
      HighStays(Pick(q % 2, y), 2 * Mul(q / 2, y), n + 1);
    }
  }

  lemma HighStays(y: nat, a: nat, n: nat)
    requires y < Pow(2, n) <= a
    ensures Xor(y, a) >= Pow(2, n)
  {
    hide Xor, Pow;
    if Xor(y, a) < Pow(2, n) {
      XorBound(y, Xor(y, a), n);
      XorCancel(y, a);
    }
  }

  /** a and b leave the same remainder on division by p. */
  ghost predicate PolyCong(a: nat, b: nat, p: nat) {
    exists q: nat :: Xor(a, b) == Mul(q, p)
  }

  lemma PolyQuotient(a: nat, b: nat, p: nat) returns (q: nat)
    requires PolyCong(a, b, p)
    ensures Xor(a, b) == Mul(q, p)
  {
    q :| Xor(a, b) == Mul(q, p);
  }

  lemma PolyFrom(a: nat, b: nat, p: nat, q: nat)
    requires Xor(a, b) == Mul(q, p)
    ensures PolyCong(a, b, p)
  {
  }

  lemma PolyRefl(a: nat, p: nat)
    ensures PolyCong(a, a, p)
  {
    XorSelf(a);
    PolyFrom(a, a, p, 0);
  }

  lemma PolySym(a: nat, b: nat, p: nat)
    requires PolyCong(a, b, p)
    ensures PolyCong(b, a, p)
  {
    XorComm(a, b);
  }

  lemma PolyAdd(a: nat, b: nat, c: nat, d: nat, p: nat)
    requires PolyCong(a, b, p) && PolyCong(c, d, p)
    ensures PolyCong(Xor(a, c), Xor(b, d), p)
  {
    hide Xor, Mul;
    var q := PolyQuotient(a, b, p);
    var r := PolyQuotient(c, d, p);
    XorShuffle(a, c, b, d);
    MulXorLeft(q, r, p);
    PolyFrom(Xor(a, c), Xor(b, d), p, Xor(q, r));
  }

  lemma PolyTrans(a: nat, b: nat, c: nat, p: nat)
    requires PolyCong(a, b, p) && PolyCong(b, c, p)
    ensures PolyCong(a, c, p)
  {
    hide Xor, Mul;
    var q := PolyQuotient(a, b, p);
    var r := PolyQuotient(b, c, p);
    MulXorLeft(q, r, p);
    XorAssoc(a, b, Xor(b, c));
    XorCancel(b, c);
    PolyFrom(a, c, p, Xor(q, r));
  }

  lemma PolyScale(a: nat, b: nat, c: nat, p: nat)
    requires PolyCong(a, b, p)
    ensures PolyCong(Mul(a, c), Mul(b, c), p) && PolyCong(Mul(c, a), Mul(c, b), p)
  {
    hide Xor, Mul;
    var q := PolyQuotient(a, b, p);
    MulXorLeft(a, b, c);
    MulComm(q, p);
    MulAssociates(p, q, c);
    MulComm(p, Mul(q, c));
    MulComm(a, c);
    MulComm(b, c);
    PolyFrom(Mul(a, c), Mul(b, c), p, Mul(q, c));
  }

  /** w can be cancelled modulo a polynomial with constant term 1. */
  lemma PolyHalf(a: nat, b: nat, p: nat)
    requires p % 2 == 1 && PolyCong(2 * a, 2 * b, p)
    ensures PolyCong(a, b, p)
  {
    hide Xor, Mul;
    var q := PolyQuotient(2 * a, 2 * b, p);
    XorDouble(a, b);
    MulStep(q, p);
    XorHalves(Pick(q % 2, p), 2 * Mul(q / 2, p));
    assert q % 2 == 0;
    XorZero(2 * Mul(q / 2, p));
    PolyFrom(a, b, p, q / 2);
  }

  lemma {:induction false} PolyCancel(a: nat, b: nat, k: nat, p: nat)
    requires p % 2 == 1 && PolyCong(Pow(2, k) * a, Pow(2, k) * b, p)
    ensures PolyCong(a, b, p)
    decreases k
  {
    if k > 0 {
      hide PolyCong;
      MulAssoc(2, Pow(2, k - 1), a);
      MulAssoc(2, Pow(2, k - 1), b);
      PolyHalf(Pow(2, k - 1) * a, Pow(2, k - 1) * b, p);
      PolyCancel(a, b, k - 1, p);
    }
  }

  /** Congruent polynomials below the degree of the modulus are equal. */
  lemma PolyUnique(a: nat, b: nat, n: nat, p: nat)
    requires Pow(2, n) <= p < Pow(2, n + 1) && a < Pow(2, n) && b < Pow(2, n) && PolyCong(a, b, p)
    ensures a == b
  {
    hide Xor, Mul, Pow;
    var q := PolyQuotient(a, b, p);
    XorBound(a, b, n);
    if q > 0 { MulLower(q, p, n); }
    ZeroTimes(p);
    XorCancel(a, b);
    XorZero(a);
  }
}
