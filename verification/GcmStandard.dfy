/** The functions of NIST SP 800-38D: the block multiplication of section 6.3, the hash of section 6.4,
    the increment of section 6.2 and the counter mode of section 6.5. */
module GcmStandard {
  import opened NatArith
  import opened Bits
  import opened Gf2
  import opened Ghash

  /** 11100001 followed by 120 zero bits. */
  function R(): nat {
    Pow(2, 120) * 0xE1
  }

  /** V_(i+1) from V_i. */
  function Step(v: nat): nat {
    Xor(v / 2, if v % 2 == 1 then R() else 0)
  }

  function V(y: nat, i: nat): nat {
    if i == 0 then y else Step(V(y, i - 1))
  }

  /** Z_i of Algorithm 1: the first bit of x is its most significant one. */
  function Z(x: nat, y: nat, i: nat): nat
    requires i <= 128
  {
    if i == 0 then 0
    else Xor(Z(x, y, i - 1), if Bit(x, 128 - i) == 1 then V(y, i - 1) else 0)
  }

  /** The block product of Algorithm 1. */
  function Mult(x: nat, y: nat): nat {
    Z(x, y, 128)
  }

  lemma PolyIsR()
    ensures Poly() == 1 + 2 * R() && R() < Pow(2, 128)
  {
    hide Pow;
    SmallPow();
    PowDouble(121);
    PowAdd(2, 121, 7);
    PowAdd(2, 120, 8);
    PowDouble(8);
    MulStrict(Pow(2, 120), 0xE1, 256) by { PowPositive(2, 120); }
  }

  /** One step divides by w. */
  lemma StepHalves(v: nat)
    ensures PolyCong(2 * Step(v), v, Poly()) && (v < Pow(2, 128) ==> Step(v) < Pow(2, 128))
  {
    hide Xor, Pow, Mul, Poly, R;
    PolyIsR();
    var h := v / 2;
    if v < Pow(2, 128) {
      XorBound(h, R(), 128);
    }
    XorZero(h);
    if v % 2 == 1 {
      XorLow(1, h, 1, R());
      XorComm(v, Poly());
      XorAssoc(Poly(), v, v);
      XorSelf(v);
      XorZero(Poly());
      MulComm(1, Poly());
      MulOneRight(Poly());
      PolyFrom(2 * Step(v), v, Poly(), 1);
    } else {
      PolyRefl(v, Poly());
    }
  }

  lemma ScaleW(a: nat, b: nat, k: nat)
    requires PolyCong(a, b, Poly())
    ensures PolyCong(W(k, a), W(k, b), Poly())
  {
    hide Pow, Mul, Poly, PolyCong;
    MulPow(a, k);
    MulPow(b, k);
    PolyScale(a, b, Pow(2, k), Poly());
  }

  lemma WAdd(j: nat, k: nat, x: nat)
    ensures W(j, W(k, x)) == W(j + k, x) && W(1, x) == 2 * x && W(0, x) == x
  {
    PowAdd(2, j, k);
    MulAssoc(Pow(2, j), Pow(2, k), x);
    assert Pow(2, 1) == 2 && Pow(2, 0) == 1;
  }

  lemma {:induction false} VScale(y: nat, i: nat)
    ensures PolyCong(W(i, V(y, i)), y, Poly()) && (y < Pow(2, 128) ==> V(y, i) < Pow(2, 128))
  {
    hide Pow, Poly, PolyCong, W, Step;
    if i == 0 {
      WAdd(0, 0, y);
      PolyRefl(y, Poly());
    } else {
      VScale(y, i - 1);
      var v := V(y, i - 1);
      StepHalves(v);
      ScaleW(2 * Step(v), v, i - 1);
      WAdd(i - 1, 1, Step(v));
      PolyTrans(W(i, Step(v)), W(i - 1, v), y, Poly());
    }
  }

  lemma {:induction false} BitIs(x: nat, i: nat)
    ensures Shr(x, i) == 2 * Shr(x, i + 1) + Bit(x, i)
    decreases i
  {
    if i == 0 {
      assert Pow(2, 1) == 2 && Pow(2, 0) == 1;
    } else {
      hide Pow, Shr;
      BitIs(x / 2, i - 1);
      ShrHalf(x, i - 1);
      ShrHalf(x, i);
    }
  }

  lemma ShrHalf(x: nat, i: nat)
    ensures Shr(x, i + 1) == Shr(x / 2, i)
  {
    hide Pow;
    var g := Shr(x / 2, i);
    JoinDivMod(x / 2, i);
    PowDouble(i + 1);
    DivModUnique(x, Pow(2, i + 1), g, 2 * (x / 2 % Pow(2, i)) + x % 2)
      by { MulAssoc(2, Pow(2, i), g); assert x == 2 * (x / 2) + x % 2; }
  }

  /** The partial product of the first i bits. */
  lemma {:induction false} ZScale(x: nat, y: nat, i: nat)
    requires x < Pow(2, 128) && i <= 128
    ensures PolyCong(W(127, Z(x, y, i)), Mul(W(128 - i, Shr(x, 128 - i)), y), Poly())
    ensures y < Pow(2, 128) ==> Z(x, y, i) < Pow(2, 128)
  {
    hide Pow, Poly, PolyCong, W, Mul, V, Shr, Xor;
    if i == 0 {
      NoBits(x, y);
      PowPositive(2, 128);
    } else {
      ZScale(x, y, i - 1);
      VScale(y, i - 1);
      ZStep(x, y, i, Z(x, y, i - 1));
      XorZero(Z(x, y, i - 1));
      if y < Pow(2, 128) { XorBound(Z(x, y, i - 1), V(y, i - 1), 128); }
    }
  }

  lemma NoBits(x: nat, y: nat)
    requires x < Pow(2, 128)
    ensures PolyCong(W(127, 0), Mul(W(128, Shr(x, 128)), y), Poly())
  {
    hide Pow, Poly, PolyCong, Mul;
    SmallMod(x, Pow(2, 128));
    ZeroTimes(y);
    PolyRefl(0, Poly());
  }

  lemma ZStep(x: nat, y: nat, i: nat, z: nat)
    requires 1 <= i <= 128
    requires PolyCong(W(127, z), Mul(W(129 - i, Shr(x, 129 - i)), y), Poly())
    requires PolyCong(W(i - 1, V(y, i - 1)), y, Poly())
    ensures var z' := Xor(z, if Bit(x, 128 - i) == 1 then V(y, i - 1) else 0);
            PolyCong(W(127, z'), Mul(W(128 - i, Shr(x, 128 - i)), y), Poly())
  {
    hide Pow, Poly, PolyCong, W, Mul, V, Shr, Xor;
    var k, v, g := 128 - i, V(y, i - 1), Shr(x, 129 - i);
    BitIs(x, k);
    WAdd(k, 1, g);
    if Bit(x, k) == 1 {
      XorLow(1, 0, 0, g);
      XorZero(g);
      XorW(1, 2 * g, k);
      XorW(z, v, 127);
      MulXorLeft(W(k, 1), W(k + 1, g), y);
      OneW(k, y);
      ScaleW(W(i - 1, v), y, k);
      WAdd(k, i - 1, v);
      PolyAdd(W(127, v), W(k, y), W(127, z), Mul(W(k + 1, g), y), Poly());
      XorComm(W(127, v), W(127, z));
    } else {
      XorZero(z);
    }
  }

  lemma XorW(x: nat, y: nat, k: nat)
    ensures W(k, Xor(x, y)) == Xor(W(k, x), W(k, y))
  {
    hide Pow, Xor;
    XorShift(x, y, k);
  }

  lemma OneW(k: nat, y: nat)
    ensures Mul(W(k, 1), y) == W(k, y)
  {
    hide Pow, Mul;
    MulPow(y, k);
  }

  /** The block product divided by w^127: what Algorithm 1 computes modulo the polynomial. */
  lemma MultMeaning(x: nat, y: nat)
    requires x < Pow(2, 128) && y < Pow(2, 128)
    ensures Mult(x, y) < Pow(2, 128) && PolyCong(W(127, Mult(x, y)), Mul(x, y), Poly())
  {
    hide Pow, Poly, PolyCong, W, Mul, V, Z;
    ZScale(x, y, 128);
    WAdd(0, 0, x);
    assert Shr(x, 0) == x by { assert Pow(2, 0) == 1 by { WAdd(0, 0, 1); PowOne(); } }
  }

  lemma PowOne()
    ensures Pow(2, 0) == 1
  {
  }

  lemma MultUnique(r: nat, x: nat, y: nat)
    requires r < Pow(2, 128) && x < Pow(2, 128) && y < Pow(2, 128) && PolyCong(W(127, r), Mul(x, y), Poly())
    ensures r == Mult(x, y)
  {
    hide Pow, Poly, PolyCong, Mul, Z, Mult, W;
    MultMeaning(x, y);
    PolyShape();
    PolySym(W(127, Mult(x, y)), Mul(x, y), Poly());
    PolyTrans(W(127, r), Mul(x, y), W(127, Mult(x, y)), Poly());
    CancelW(r, Mult(x, y), 127);
    PolyUnique(r, Mult(x, y), 128, Poly());
  }

  lemma CancelW(a: nat, b: nat, k: nat)
    requires PolyCong(W(k, a), W(k, b), Poly())
    ensures PolyCong(a, b, Poly())
  {
    hide Pow, Poly, PolyCong;
    PolyShape();
    PolyCancel(a, b, k, Poly());
  }

  /** Multiplication is linear. */
  lemma MultXor(x: nat, x': nat, y: nat)
    requires x < Pow(2, 128) && x' < Pow(2, 128) && y < Pow(2, 128)
    ensures Xor(x, x') < Pow(2, 128) && Mult(Xor(x, x'), y) == Xor(Mult(x, y), Mult(x', y))
  {
    hide Pow, Poly, PolyCong, W, Mul, Z, Xor, Mult;
    MultMeaning(x, y);
    MultMeaning(x', y);
    XorBound(x, x', 128);
    XorBound(Mult(x, y), Mult(x', y), 128);
    XorW(Mult(x, y), Mult(x', y), 127);
    MulXorLeft(x, x', y);
    PolyAdd(W(127, Mult(x, y)), Mul(x, y), W(127, Mult(x', y)), Mul(x', y), Poly());
    MultUnique(Xor(Mult(x, y), Mult(x', y)), Xor(x, x'), y);
  }

  lemma MultComm(x: nat, y: nat)
    requires x < Pow(2, 128) && y < Pow(2, 128)
    ensures Mult(x, y) == Mult(y, x)
  {
    hide Pow, Poly, PolyCong, W, Mul, Z, Mult;
    MultMeaning(x, y);
    MulComm(x, y);
    MultUnique(Mult(x, y), y, x);
  }

  /** Twice the scale, for a product of three. */
  lemma ThreeFactors(x: nat, y: nat, z: nat)
    requires x < Pow(2, 128) && y < Pow(2, 128) && z < Pow(2, 128)
    ensures Mult(x, y) < Pow(2, 128) && Mult(Mult(x, y), z) < Pow(2, 128)
    ensures PolyCong(W(127, W(127, Mult(Mult(x, y), z))), Mul(Mul(x, y), z), Poly())
  {
    hide Pow, Poly, PolyCong, Mul, Z, Mult, W;
    MultMeaning(x, y);
    var a := Mult(x, y);
    MultMeaning(a, z);
    ScaleW(W(127, Mult(a, z)), Mul(a, z), 127);
    WShift(a, z);
    PolyScale(W(127, a), Mul(x, y), z, Poly());
    PolyTrans(W(127, W(127, Mult(a, z))), W(127, Mul(a, z)), Mul(Mul(x, y), z), Poly());
  }

  lemma WShift(a: nat, z: nat)
    ensures W(127, Mul(a, z)) == Mul(W(127, a), z)
  {
    hide Pow, Mul;
    MulShift(a, z, 127);
  }

  lemma MultAssoc(x: nat, y: nat, z: nat)
    requires x < Pow(2, 128) && y < Pow(2, 128) && z < Pow(2, 128)
    ensures Mult(Mult(x, y), z) == Mult(x, Mult(y, z))
  {
    hide Pow, Poly, PolyCong, Mul, Z, Mult;
    var l, r := Mult(Mult(x, y), z), Mult(Mult(y, z), x);
    ThreeFactors(x, y, z);
    ThreeFactors(y, z, x);
    MulAssociates(x, y, z);
    MulComm(x, Mul(y, z));
    var t := Mul(Mul(x, y), z);
    PolySym(W(127, W(127, r)), t, Poly());
    PolyTrans(W(127, W(127, l)), t, W(127, W(127, r)), Poly());
    PolyShape();
    PolyCancel(W(127, l), W(127, r), 127, Poly());
    PolyCancel(l, r, 127, Poly());
    PolyUnique(l, r, 128, Poly());
    MultComm(Mult(y, z), x);
  }

  /** Every element is a block. */
  ghost predicate Blocks(xs: seq<nat>) {
    forall i :: 0 <= i < |xs| ==> xs[i] < Pow(2, 128)
  }

  /** The fold of section 6.4: y = (y xor x) * h for each block x in turn. */
  ghost function Hash(y: nat, xs: seq<nat>, h: nat): nat
    decreases |xs|
  {
    if |xs| == 0 then y else Hash(Mult(Xor(y, xs[0]), h), xs[1..], h)
  }

  lemma {:induction false} HashConcat(y: nat, xs: seq<nat>, zs: seq<nat>, h: nat)
    ensures Hash(y, xs + zs, h) == Hash(Hash(y, xs, h), zs, h)
    decreases |xs|
  {
    hide Mult, Xor;
    if |xs| == 0 {
      assert xs + zs == zs;
    } else {
      assert (xs + zs)[1..] == xs[1..] + zs;
      HashConcat(Mult(Xor(y, xs[0]), h), xs[1..], zs, h);
    }
  }

  /** h^i in the block field. */
  ghost function HPow(h: nat, i: nat): nat
    requires i > 0
  {
    if i == 1 then h else Mult(HPow(h, i - 1), h)
  }

  lemma {:induction false} HPowBlock(h: nat, i: nat)
    requires i > 0 && h < Pow(2, 128)
    ensures HPow(h, i) < Pow(2, 128)
  {
    if i > 1 {
      HPowBlock(h, i - 1);
      MultMeaning(HPow(h, i - 1), h);
    }
  }

  /** The expanded form: block j of n times h^(n-j), all summed. */
  ghost function Expanded(y: nat, xs: seq<nat>, h: nat): nat {
    if |xs| == 0 then y else Xor(Mult(Xor(y, xs[0]), HPow(h, |xs|)), Expanded(0, xs[1..], h))
  }

  /** Horner's rule: the fold equals the sum over powers of h. */
  lemma {:induction false} Horner(y: nat, xs: seq<nat>, h: nat)
    requires y < Pow(2, 128) && h < Pow(2, 128) && Blocks(xs)
    ensures Hash(y, xs, h) == Expanded(y, xs, h)
    decreases |xs|
  {
    hide Mult, Xor, Pow, HPow;
    if |xs| > 0 {
      var a := Xor(y, xs[0]);
      XorBound(y, xs[0], 128);
      MultMeaning(a, h);
      Horner(Mult(a, h), xs[1..], h);
      AddFront(Mult(a, h), xs[1..], h);
      FirstTerm(a, xs, h);
    }
  }

  /** The starting value enters as one more term. */
  lemma AddFront(y: nat, xs: seq<nat>, h: nat)
    requires y < Pow(2, 128) && h < Pow(2, 128) && Blocks(xs)
    ensures Expanded(y, xs, h)
         == if |xs| == 0 then y else Xor(Mult(y, HPow(h, |xs|)), Expanded(0, xs, h))
  {
    hide Mult, Xor, Pow, HPow;
    if |xs| > 0 {
      HPowBlock(h, |xs|);
      MultXor(y, xs[0], HPow(h, |xs|));
      XorZero(xs[0]);
      XorAssoc(Mult(y, HPow(h, |xs|)), Mult(xs[0], HPow(h, |xs|)), Expanded(0, xs[1..], h));
    }
  }

  lemma FirstTerm(a: nat, xs: seq<nat>, h: nat)
    requires |xs| > 0 && a < Pow(2, 128) && h < Pow(2, 128)
    ensures |xs| == 1 ==> Mult(a, HPow(h, 1)) == Mult(a, h) && Expanded(0, xs[1..], h) == 0
    ensures |xs| == 1 ==> Xor(Mult(a, h), 0) == Mult(a, h)
    ensures |xs| > 1 ==> Mult(a, HPow(h, |xs|)) == Mult(Mult(a, h), HPow(h, |xs| - 1))
  {
    hide Mult, Pow;
    if |xs| > 1 {
      HPowBlock(h, |xs| - 1);
      MultComm(HPow(h, |xs| - 1), h);
      MultAssoc(a, h, HPow(h, |xs| - 1));
    }
  }

  /** Section 6.2: the last 32 bits count modulo 2^32. */
  function Inc32(x: nat, n: nat): nat {
    x / 0x1_0000_0000 * 0x1_0000_0000 + (x % 0x1_0000_0000 + n) % 0x1_0000_0000
  }

  /** In plain arithmetic: the upper bits stay, the last 32 count on and wrap around. */
  lemma Inc32Meaning(x: nat, n: nat)
    ensures Inc32(x, n) / 0x1_0000_0000 == x / 0x1_0000_0000
    ensures Inc32(x, n) % 0x1_0000_0000 == (x + n) % 0x1_0000_0000
    ensures Inc32(x, n) == x / 0x1_0000_0000 * 0x1_0000_0000 + (x + n) % 0x1_0000_0000
  {
  }

  lemma Inc32Add(x: nat, a: nat, b: nat)
    ensures Inc32(Inc32(x, a), b) == Inc32(x, a + b) && Inc32(x, 0) == x
  {
  }
}
