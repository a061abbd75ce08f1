/** Words as bit strings: exclusive or, single bits, and how they meet shifts and truncation. */
module Bits {
  import opened NatArith

  /** Bitwise exclusive or. */
  function Xor(x: nat, y: nat): nat
    decreases x + y
  {
    if x == 0 then y
    else if y == 0 then x
    else (x % 2 + y % 2) % 2 + 2 * Xor(x / 2, y / 2)
  }

  /** Bit number i of x. */
  function Bit(x: nat, i: nat): (r: nat)
    ensures r <= 1
    decreases i
  {
    if i == 0 then x % 2 else Bit(x / 2, i - 1)
  }

  lemma XorStep(x: nat, y: nat)
    ensures Xor(x, y) == (x % 2 + y % 2) % 2 + 2 * Xor(x / 2, y / 2)
  {
  }

  lemma XorZero(x: nat)
    ensures Xor(x, 0) == x == Xor(0, x)
  {
  }

  /** Xor on numbers given by their lowest bit and the rest. */
  lemma XorLow(a: nat, x: nat, b: nat, y: nat)
    requires a <= 1 && b <= 1
    ensures Xor(a + 2 * x, b + 2 * y) == (if a == b then 0 else 1) + 2 * Xor(x, y)
  {
    hide Xor;
    XorStep(a + 2 * x, b + 2 * y);
  }

  lemma XorHalves(x: nat, y: nat)
    ensures Xor(x, y) % 2 == (if x % 2 == y % 2 then 0 else 1) && Xor(x, y) / 2 == Xor(x / 2, y / 2)
  {
    hide Xor;
    XorStep(x, y);
  }

  /** Each bit of the xor is the sum of the bits modulo two. */
  lemma {:induction false} BitXor(x: nat, y: nat, i: nat)
    ensures Bit(Xor(x, y), i) == (Bit(x, i) + Bit(y, i)) % 2
    decreases i
  {
    hide Xor;
    XorHalves(x, y);
    if i > 0 { BitXor(x / 2, y / 2, i - 1); }
  }

  lemma {:induction false} XorComm(x: nat, y: nat)
    ensures Xor(x, y) == Xor(y, x)
    decreases x + y
  {
    if x > 0 && y > 0 { XorComm(x / 2, y / 2); }
  }

  lemma {:induction false} XorSelf(x: nat)
    ensures Xor(x, x) == 0
  {
    if x > 0 { XorSelf(x / 2); }
  }

  lemma {:induction false} XorAssoc(x: nat, y: nat, z: nat)
    ensures Xor(Xor(x, y), z) == Xor(x, Xor(y, z))
    decreases x + y + z
  {
    hide Xor;
    if x > 0 && y > 0 && z > 0 {
      XorAssoc(x / 2, y / 2, z / 2);
      XorHalves(x, y);
      XorHalves(y, z);
      XorStep(Xor(x, y), z);
      XorStep(x, Xor(y, z));
    } else {
      XorZero(x);
      XorZero(y);
      XorZero(z);
      XorZero(Xor(x, y));
      XorZero(Xor(y, z));
    }
  }

  /** x ^ y ^ x = y. */
  lemma XorCancel(x: nat, y: nat)
    ensures Xor(x, Xor(x, y)) == y
  {
    XorAssoc(x, x, y);
    XorSelf(x);
  }

  /** The order of four terms does not matter. */
  lemma XorShuffle(a: nat, b: nat, c: nat, d: nat)
    ensures Xor(Xor(a, b), Xor(c, d)) == Xor(Xor(a, c), Xor(b, d))
  {
    XorAssoc(a, b, Xor(c, d));
    XorAssoc(b, c, d);
    XorComm(b, c);
    XorAssoc(c, b, d);
    XorAssoc(a, c, Xor(b, d));
  }

  /** A number from its low k bits and the rest. */
  function Join(low: nat, high: nat, k: nat): nat {
    low + Pow(2, k) * high
  }

  lemma JoinStep(low: nat, high: nat, k: nat)
    requires k > 0
    ensures Join(low, high, k) == low % 2 + 2 * Join(low / 2, high, k - 1)
  {
    MulAssoc(2, Pow(2, k - 1), high);
  }

  /** Xor works on the low k bits and on the rest separately. */
  lemma {:induction false} XorJoin(xl: nat, xh: nat, yl: nat, yh: nat, k: nat)
    requires xl < Pow(2, k) && yl < Pow(2, k)
    ensures Xor(Join(xl, xh, k), Join(yl, yh, k)) == Join(Xor(xl, yl), Xor(xh, yh), k)
    ensures Xor(xl, yl) < Pow(2, k)
  {
    if k > 0 {
      hide Join, Xor, Pow;
      PowDouble(k);
      XorJoin(xl / 2, xh, yl / 2, yh, k - 1);
      JoinStep(xl, xh, k);
      JoinStep(yl, yh, k);
      XorLow(xl % 2, Join(xl / 2, xh, k - 1), yl % 2, Join(yl / 2, yh, k - 1));
      XorHalves(xl, yl);
      JoinStep(Xor(xl, yl), Xor(xh, yh), k);
    }
  }

  lemma PowDouble(k: nat)
    requires k > 0
    ensures Pow(2, k) == 2 * Pow(2, k - 1)
  {
  }

  lemma JoinDivMod(x: nat, k: nat)
    ensures Pow(2, k) > 0 && 0 <= x / Pow(2, k) && x % Pow(2, k) < Pow(2, k)
    ensures x == Join(x % Pow(2, k), x / Pow(2, k), k)
  {
    hide Pow;
    PowPositive(2, k);
    DivModIdentity(x, Pow(2, k));
  }

  lemma DivModIdentity(x: nat, p: nat)
    requires p > 0
    ensures x == x % p + p * (x / p) && 0 <= x / p && x % p < p
  {
    QuotientSign(x / p, p, x % p);
  }

  lemma QuotientSign(q: int, p: int, r: int)
    requires 0 <= r < p && 0 <= p * q + r
    ensures 0 <= q
  {
    if q <= -1 { MulMonotone(p, q, -1); }
  }

  lemma JoinUnique(low: nat, high: nat, k: nat)
    requires low < Pow(2, k)
    ensures Join(low, high, k) / Pow(2, k) == high && Join(low, high, k) % Pow(2, k) == low
  {
    DivModUnique(Join(low, high, k), Pow(2, k), high, low);
  }

  /** Xor commutes with shifting right and with truncation. */
  lemma XorDivMod(x: nat, y: nat, k: nat)
    ensures Pow(2, k) > 0 && 0 <= x / Pow(2, k) && 0 <= y / Pow(2, k)
    ensures Xor(x, y) / Pow(2, k) == Xor(x / Pow(2, k), y / Pow(2, k))
    ensures Xor(x, y) % Pow(2, k) == Xor(x % Pow(2, k), y % Pow(2, k))
  {
    hide Join;
    JoinDivMod(x, k);
    JoinDivMod(y, k);
    var p := Pow(2, k);
    XorJoin(x % p, x / p, y % p, y / p, k);
    JoinUnique(Xor(x % p, y % p), Xor(x / p, y / p), k);
  }

  lemma XorBound(x: nat, y: nat, k: nat)
    requires x < Pow(2, k) && y < Pow(2, k)
    ensures Xor(x, y) < Pow(2, k)
  {
    XorJoin(x, 0, y, 0, k);
  }

  /** Xor commutes with shifting left. */
  lemma XorShift(x: nat, y: nat, k: nat)
    ensures Xor(Pow(2, k) * x, Pow(2, k) * y) == Pow(2, k) * Xor(x, y)
  {
    PowPositive(2, k);
    XorJoin(0, x, 0, y, k);
  }

  /** Xor of numbers without a common bit position is their sum. */
  lemma XorDisjoint(x: nat, y: nat, k: nat)
    requires x < Pow(2, k)
    ensures Xor(x, Pow(2, k) * y) == x + Pow(2, k) * y
  {
    XorJoin(x, 0, 0, y, k);
  }

  lemma LowHalf(x: nat, k: nat)
    requires k > 0
    ensures Pow(2, k) > 0 && Pow(2, k - 1) > 0
    ensures x % Pow(2, k) % 2 == x % 2 && x % Pow(2, k) / 2 == x / 2 % Pow(2, k - 1)
  {
    hide Pow;
    var p, h := Pow(2, k - 1), x / 2;
    PowDouble(k);
    PowPositive(2, k - 1);
    DivModIdentity(h, p);
    var q, r := h / p, h % p;
    assert q * (2 * p) == 2 * (p * q) by { MulAssoc(q, 2, p); }
    DivModUnique(x, 2 * p, q, 2 * r + x % 2);
  }

  /** Truncation keeps the bits below it. */
  lemma {:induction false} BitOfLow(x: nat, i: nat, k: nat)
    requires i < k
    ensures Pow(2, k) > 0 && Bit(x % Pow(2, k), i) == Bit(x, i)
    decreases i
  {
    hide Pow;
    LowHalf(x, k);
    if i > 0 { BitOfLow(x / 2, i - 1, k - 1); }
  }
}
