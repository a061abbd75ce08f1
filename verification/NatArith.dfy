/** Integer arithmetic shared by the models: powers, quotients, congruences and divisors. */
module NatArith {

  function Pow(b: nat, e: nat): nat {
    if e == 0 then 1 else b * Pow(b, e - 1)
  }

  lemma {:induction false} PowPositive(b: nat, e: nat)
    requires b > 0
    ensures Pow(b, e) > 0
  {
    if e > 0 {
      PowPositive(b, e - 1);
      MulPositive(b, Pow(b, e - 1));
    }
  }

  lemma MulPositive(x: int, y: int)
    requires x > 0 && y > 0
    ensures x * y > 0
  {
  }

  lemma {:induction false} PowAdd(b: nat, d: nat, e: nat)
    ensures Pow(b, d + e) == Pow(b, d) * Pow(b, e)
  {
    if d > 0 {
      PowAdd(b, d - 1, e);
      MulAssoc(b, Pow(b, d - 1), Pow(b, e));
    }
  }

  /** Multiplication under a name, so that a proof about many words can hide it. */
  ghost function Times(x: int, y: int): int {
    x * y
  }

  lemma MulAssoc(x: int, y: int, z: int)
    ensures x * (y * z) == (x * y) * z
  {
  }

  lemma {:induction false} PowPow(b: nat, d: nat, e: nat)
    ensures Pow(Pow(b, d), e) == Pow(b, d * e)
  {
    if e > 0 {
      PowPow(b, d, e - 1);
      assert d * e == d + d * (e - 1);
      PowAdd(b, d, d * (e - 1));
    } else {
      assert d * e == 0;
    }
  }

  lemma {:induction false} PowMul(a: nat, b: nat, e: nat)
    ensures Pow(a * b, e) == Pow(a, e) * Pow(b, e)
  {
    if e > 0 {
      PowMul(a, b, e - 1);
      var x, y := Pow(a, e - 1), Pow(b, e - 1);
      assert (a * b) * (x * y) == (a * x) * (b * y) by { Shuffle4(a, b, x, y); }
    }
  }

  lemma Shuffle4(a: int, b: int, x: int, y: int)
    ensures (a * b) * (x * y) == (a * x) * (b * y)
  {
    MulAssoc(a * b, x, y);
    MulAssoc(a, b, x);
    MulAssoc(a, x, b);
    MulAssoc(a * x, b, y);
  }

  lemma {:induction false} PowMonotone(b: nat, d: nat, e: nat)
    requires b > 0 && d <= e
    ensures Pow(b, d) <= Pow(b, e)
  {
    PowAdd(b, d, e - d);
    PowPositive(b, d);
    PowPositive(b, e - d);
    MulMonotone(Pow(b, d), 1, Pow(b, e - d));
  }

  lemma PowStrict(d: nat, e: nat)
    requires Pow(2, d) < Pow(2, e)
    ensures d < e
  {
    if d >= e { PowMonotone(2, e, d); }
  }

  lemma MulMonotone(a: int, x: int, y: int)
    requires 0 <= a && x <= y
    ensures a * x <= a * y
  {
  }

  lemma MulMonotone2(a: int, b: int, x: int, y: int)
    requires 0 <= a <= x && 0 <= b <= y
    ensures 0 <= a * b <= x * y
  {
    MulMonotone(a, b, y);
    MulMonotone(y, a, x);
    MulMonotone(a, 0, b);
  }

  lemma MulStrict(a: int, x: int, y: int)
    requires 0 < a && x < y
    ensures a * x < a * y
  {
  }

  lemma MulCancelLt(a: int, x: int, y: int)
    requires 0 < a && a * x < a * y
    ensures x < y
  {
    if x >= y { MulMonotone(a, y, x); }
  }

  lemma Distribute(a: int, x: int, y: int)
    ensures a * (x + y) == a * x + a * y
    ensures a * (x - y) == a * x - a * y
    ensures (x + y) * a == x * a + y * a
    ensures (x - y) * a == x * a - y * a
  {
  }

  /** Quotient and remainder are unique. */
  lemma DivModUnique(x: int, m: int, q: int, r: int)
    requires m > 0 && 0 <= r < m && x == q * m + r
    ensures x / m == q && x % m == r
  {
    var d := x / m - q;
    Distribute(m, x / m, q);
    assert d * m == r - x % m;
    if d >= 1 {
      MulMonotone(m, 1, d);
    } else if d <= -1 {
      MulMonotone(m, d, -1);
    }
  }

  lemma SmallMod(x: nat, m: nat)
    requires x < m
    ensures x % m == x && x / m == 0
  {
    DivModUnique(x, m, 0, x);
  }

  /** Reducing modulo a multiple of p first changes nothing modulo p. */
  lemma ModMod(z: nat, p: nat, k: nat)
    requires p > 0 && k > 0
    ensures p * k > 0 && z % (p * k) % p == z % p
  {
    MulPositive(p, k);
    var h, l := z / (p * k), z % (p * k);
    var c := h * k;
    assert h * (p * k) == c * p by { MulAssoc(h, k, p); }
    Distribute(p, c, l / p);
    DivModUnique(z, p, c + l / p, l % p);
  }

  /** a and b leave the same remainder on division by m. */
  ghost predicate Cong(a: int, b: int, m: int)
    requires m > 0
  {
    (a - b) % m == 0
  }

  lemma CongFrom(a: int, b: int, m: int, q: int)
    requires m > 0 && a - b == q * m
    ensures Cong(a, b, m)
  {
    DivModUnique(a - b, m, q, 0);
  }

  lemma CongQuotient(a: int, b: int, m: int) returns (q: int)
    requires m > 0 && Cong(a, b, m)
    ensures a - b == q * m
  {
    q := (a - b) / m;
  }

  lemma CongRefl(a: int, m: int)
    requires m > 0
    ensures Cong(a, a, m)
  {
  }

  lemma CongSym(a: int, b: int, m: int)
    requires m > 0 && Cong(a, b, m)
    ensures Cong(b, a, m)
  {
    var q := CongQuotient(a, b, m);
    CongFrom(b, a, m, -q);
  }

  lemma CongTrans(a: int, b: int, c: int, m: int)
    requires m > 0 && Cong(a, b, m) && Cong(b, c, m)
    ensures Cong(a, c, m)
  {
    var p := CongQuotient(a, b, m);
    var q := CongQuotient(b, c, m);
    Distribute(m, p, q);
    CongFrom(a, c, m, p + q);
  }

  lemma CongAdd(a: int, b: int, c: int, d: int, m: int)
    requires m > 0 && Cong(a, b, m) && Cong(c, d, m)
    ensures Cong(a + c, b + d, m) && Cong(a - c, b - d, m)
  {
    var p := CongQuotient(a, b, m);
    var q := CongQuotient(c, d, m);
    Distribute(m, p, q);
    CongFrom(a + c, b + d, m, p + q);
    CongFrom(a - c, b - d, m, p - q);
  }

  lemma CongScale(a: int, b: int, c: int, m: int)
    requires m > 0 && Cong(a, b, m)
    ensures Cong(a * c, b * c, m) && Cong(c * a, c * b, m)
  {
    var q := CongQuotient(a, b, m);
    Distribute(c, a, b);
    assert (q * m) * c == (q * c) * m by { MulAssoc(q, m, c); MulAssoc(q, c, m); }
    CongFrom(a * c, b * c, m, q * c);
  }

  lemma CongMul(a: int, b: int, c: int, d: int, m: int)
    requires m > 0 && Cong(a, b, m) && Cong(c, d, m)
    ensures Cong(a * c, b * d, m)
  {
    CongScale(a, b, c, m);
    CongScale(c, d, b, m);
    CongTrans(a * c, b * c, b * d, m);
  }

  lemma {:induction false} CongPow(a: nat, b: nat, e: nat, m: int)
    requires m > 0 && Cong(a, b, m)
    ensures Cong(Pow(a, e), Pow(b, e), m)
  {
    if e == 0 {
      CongRefl(1, m);
    } else {
      CongPow(a, b, e - 1, m);
      CongMul(a, b, Pow(a, e - 1), Pow(b, e - 1), m);
    }
  }

  lemma CongMod(a: int, m: int)
    requires m > 0
    ensures Cong(a, a % m, m) && Cong(a % m, a, m)
  {
    CongFrom(a, a % m, m, a / m);
    CongSym(a, a % m, m);
  }

  /** Congruent values in the canonical range are equal. */
  lemma CongUnique(a: int, b: int, m: int)
    requires 0 <= a < m && 0 <= b < m && Cong(a, b, m)
    ensures a == b
  {
    var q := CongQuotient(a, b, m);
    if q >= 1 { MulMonotone(m, 1, q); } else if q <= -1 { MulMonotone(m, q, -1); }
  }

  /** A factor with an inverse modulo m can be cancelled. */
  lemma CongCancel(a: int, b: int, x: int, y: int, m: int)
    requires m > 0 && Cong(x * y, 1, m) && Cong(a * x, b * x, m)
    ensures Cong(a, b, m)
  {
    CongScale(a * x, b * x, y, m);
    MulAssoc(a, x, y);
    MulAssoc(b, x, y);
    CongScale(x * y, 1, a, m);
    CongScale(x * y, 1, b, m);
    CongSym(a * (x * y), a * 1, m);
    CongTrans(a, a * x * y, b * x * y, m);
    CongTrans(a, b * x * y, b, m);
  }

  /** 2 is invertible modulo an odd m, and so is every power of two. */
  lemma {:induction false} PowTwoInverse(e: nat, m: int) returns (y: nat)
    requires m > 0 && m % 2 == 1
    ensures Cong(Pow(2, e) * y, 1, m)
  {
    if e == 0 {
      y := 1;
      CongRefl(1, m);
    } else {
      var z := PowTwoInverse(e - 1, m);
      var h := (m + 1) / 2;
      CongFrom(2 * h, 1, m, 1);
      y := h * z;
      CongMul(2 * h, 1, Pow(2, e - 1) * z, 1, m);
      Shuffle4(2, h, Pow(2, e - 1), z);
    }
  }

  lemma CongCancelPow2(a: int, b: int, e: nat, m: int)
    requires m > 0 && m % 2 == 1 && Cong(a * Pow(2, e), b * Pow(2, e), m)
    ensures Cong(a, b, m)
  {
    var y := PowTwoInverse(e, m);
    CongCancel(a, b, Pow(2, e), y, m);
  }

  lemma TimesSum(a: int, x: int, y: int)
    ensures Times(a, x + y) == Times(a, x) + Times(a, y)
    ensures Times(a, x - y) == Times(a, x) - Times(a, y)
    ensures Times(x + y, a) == Times(x, a) + Times(y, a)
    ensures Times(x - y, a) == Times(x, a) - Times(y, a)
  {
    Distribute(a, x, y);
  }

  lemma TimesDouble(x: int, y: int)
    ensures Times(x, 2 * y) == 2 * Times(x, y) && Times(2 * x, y) == 2 * Times(x, y)
  {
    TimesSum(x, y, y);
    TimesSum(y, x, x);
  }

  lemma EvenProduct(q: nat, d: nat)
    requires d % 2 == 0
    ensures q * d % 2 == 0
  {
    var h := d / 2;
    assert d == h + h;
    Distribute(q, h, h);
    DivModUnique(q * (h + h), 2, q * h, 0);
  }

  lemma BelowSquare(x: nat, y: nat, w: nat)
    requires x < w && y < w
    ensures x * y < w * w
  {
    MulMonotone2(x, y, w - 1, w - 1);
    Distribute(w - 1, w, 1);
    Distribute(w, w, 1);
  }

  lemma OddProduct(p: nat, d: nat)
    requires p % 2 == 1 && d % 2 == 1
    ensures p * d % 2 == 1
  {
    var i, j := p / 2, d / 2;
    Distribute(d, i, i);
    Distribute(d, i + i, 1);
    DivModUnique(p * d, 2, i * d + j, 1);
  }

  /** d divides x. */
  ghost predicate Divides(d: int, x: int)
    requires d > 0
  {
    x % d == 0
  }

  lemma DividesFrom(d: int, x: int, q: int)
    requires d > 0 && x == q * d
    ensures Divides(d, x)
  {
    DivModUnique(x, d, q, 0);
  }

  lemma DividesQuotient(d: nat, x: nat) returns (q: nat)
    requires d > 0 && Divides(d, x)
    ensures x == Times(q, d)
  {
    q := x / d;
  }

  lemma DividesTimes(d: nat, q: nat)
    requires d > 0
    ensures Divides(d, Times(q, d))
  {
    DividesFrom(d, q * d, q);
  }

  lemma TimesParity(q: nat, d: nat)
    ensures 0 <= Times(q, d) && (Times(q, d) % 2 == 1 <==> q % 2 == 1 && d % 2 == 1)
  {
    MulMonotone(q, 0, d);
    if q % 2 == 1 && d % 2 == 1 {
      OddProduct(q, d);
    } else if d % 2 == 0 {
      EvenProduct(q, d);
    } else {
      EvenProduct(d, q);
    }
  }

  /** The only common divisor of a and b is 1. */
  ghost predicate Coprime(a: int, b: int) {
    forall d: int :: d > 1 && Divides(d, a) ==> !Divides(d, b)
  }

  /** Number of bits of m. */
  function BitLen(m: nat): nat {
    if m == 0 then 0 else 1 + BitLen(m / 2)
  }

  lemma {:induction false} BitLenBounds(m: nat)
    requires m > 0
    ensures BitLen(m) > 0 && Pow(2, BitLen(m) - 1) <= m < Pow(2, BitLen(m))
  {
    if m > 1 { BitLenBounds(m / 2); }
  }
}
