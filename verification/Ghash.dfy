/** GHASH: the lazy reduction, the Karatsuba products and the aggregated hash of the AVX2 path, against the
    block multiplication of NIST SP 800-38D. A block is the number whose most significant bit is its first bit. */
module Ghash {
  import opened NatArith
  import opened Bits
  import opened Gf2

  /** w^128 + w^127 + w^126 + w^121 + 1: the GCM polynomial with its coefficients reversed. */
  function Poly(): nat {
    Pow(2, 128) + Pow(2, 121) * 0x61 + 1
  }

  lemma SmallPow()
    ensures Pow(2, 1) == 2 && Pow(2, 5) == 32 && Pow(2, 6) == 64 && Pow(2, 7) == 128
  {
    assert Pow(2, 3) == 8;
    PowAdd(2, 3, 3);
    PowAdd(2, 2, 3);
    PowAdd(2, 1, 6);
  }

  /** The middle terms of the polynomial lie between w^121 and w^128. */
  lemma PolyShape()
    ensures Pow(2, 128) == Pow(2, 121) * 128 && 1 + Pow(2, 121) * 0x61 < Pow(2, 128)
    ensures Poly() == Xor(Xor(1, Pow(2, 121) * 0x61), Pow(2, 128)) && Poly() % 2 == 1
    ensures Pow(2, 128) <= Poly() < Pow(2, 129)
  {
    hide Pow, Xor;
    SmallPow();
    PowAdd(2, 121, 7);
    PowMonotone(2, 1, 121);
    XorDisjoint(1, 0x61, 121);
    XorDisjoint(1 + Pow(2, 121) * 0x61, 1, 128);
    PowDouble(121);
    PowDouble(129);
    EvenProduct(0x61, Pow(2, 121));
    EvenProduct(128, Pow(2, 121));
  }

  /** w^k * x. */
  function W(k: nat, x: nat): nat {
    Pow(2, k) * x
  }

  /** The 64-bit lanes of a 128-bit register. */
  function Low(x: nat): (l: nat)
    ensures l < Pow(2, 64)
  {
    PowPositive(2, 64);
    x % Pow(2, 64)
  }

  function High(x: nat): nat {
    JoinDivMod(x, 64);
    x / Pow(2, 64)
  }

  lemma Lanes(x: nat)
    ensures x == Join(Low(x), High(x), 64) == Xor(Low(x), W(64, High(x)))
    ensures x < Pow(2, 128) ==> High(x) < Pow(2, 64)
  {
    hide Pow, Xor;
    JoinDivMod(x, 64);
    XorDisjoint(Low(x), High(x), 64);
    PowAdd(2, 64, 64);
    if x < Pow(2, 128) { MulCancelLt(Pow(2, 64), High(x), Pow(2, 64)); }
  }

  /** One lane of _mm_slli_epi64. */
  function Shl64(l: nat, s: nat): nat {
    PowPositive(2, 64);
    l * Pow(2, s) % Pow(2, 64)
  }

  /** One lane of _mm_srli_epi64. */
  function Shr(l: nat, s: nat): nat {
    JoinDivMod(l, s);
    l / Pow(2, s)
  }

  /** The product with w^6 + w^5 + 1. */
  lemma FoldIs(l: nat)
    ensures Mul(l, 0x61) == Xor(Xor(64 * l, 32 * l), l)
  {
    hide Xor, Mul;
    MulComm(l, 0x61);
    MulStep(0x61, l);
    MulDoubleLeft(0x18, l);
    MulDoubleLeft(0x0c, l);
    MulDoubleLeft(0x06, l);
    MulDoubleLeft(0x03, l);
    MulStep(3, l);
    MulStep(1, l);
    ZeroTimes(l);
    XorZero(l);
    SmallPow();
    XorShift(l, 2 * l, 5);
    XorComm(l, Xor(32 * l, 64 * l));
    XorComm(32 * l, 64 * l);
  }

  lemma ShlLow(l: nat, s: nat)
    requires 57 <= s <= 63
    ensures Pow(2, s - 57) > 0 && Shl64(l, s) == W(57, Pow(2, s - 57) * l % 128)
  {
    hide Pow;
    SmallPow();
    var p, x := Pow(2, 57), Pow(2, s - 57) * l;
    PowPositive(2, 57);
    PowPositive(2, s - 57);
    PowAdd(2, 57, s - 57);
    PowAdd(2, 57, 7);
    assert l * Pow(2, s) == p * x by { MulAssoc(p, Pow(2, s - 57), l); }
    ScaledMod(p, x);
  }

  lemma ScaledMod(p: nat, x: nat)
    requires p > 0
    ensures p * x % (p * 128) == p * (x % 128)
  {
    var q, r := x / 128, x % 128;
    MulMonotone(p, r + 1, 128);
    Distribute(p, r, 1);
    Distribute(p, q * 128, r);
    assert p * (q * 128) == q * (p * 128) by { MulAssoc(p, q, 128); MulAssoc(q, p, 128); }
    DivModUnique(p * x, p * 128, q, p * r);
  }

  /** The three packed left shifts keep the low seven bits of the folded lane. */
  lemma LeftShifts(l: nat)
    ensures Xor(Xor(Shl64(l, 63), Shl64(l, 62)), Shl64(l, 57)) == W(57, Mul(l, 0x61) % 128)
  {
    hide Xor, Mul, Pow, Shl64;
    SmallPow();
    ShlLow(l, 63);
    ShlLow(l, 62);
    ShlLow(l, 57);
    assert W(0, l) == l by { ShiftZero(l); }
    var a, b := 64 * l, 32 * l;
    XorShift(a % 128, b % 128, 57);
    XorShift(Xor(a % 128, b % 128), l % 128, 57);
    XorDivMod(a, b, 7);
    XorDivMod(Xor(a, b), l, 7);
    FoldIs(l);
  }

  /** The packed right shifts keep the other bits. */
  lemma RightShifts(l: nat)
    ensures Shr(Xor(Shr(Xor(Shr(l, 5), l), 1), l), 1) == Mul(l, 0x61) / 128
  {
    hide Xor, Mul, Pow;
    SmallPow();
    XorDivMod(l, 32 * l, 5);
    var t := Xor(l, 32 * l);
    XorDivMod(t, 64 * l, 6);
    FoldIs(l);
    XorComm(32 * l, l);
    XorAssoc(64 * l, 32 * l, l);
    XorComm(64 * l, t);
    assert Shr(Xor(Shr(l, 5), l), 1) == t / 64;
  }

  lemma XorFour(a: nat, u: nat, v: nat, q: nat)
    ensures Xor(Xor(a, Xor(u, v)), q) == Xor(Xor(q, Xor(a, v)), u)
  {
    hide Xor;
    XorComm(u, v);
    XorAssoc(a, v, u);
    XorComm(Xor(Xor(a, v), u), q);
    XorAssoc(q, Xor(a, v), u);
  }

  /** Splits off the low seven bits. */
  lemma SevenBits(s: nat)
    ensures s == Xor(s % 128, 128 * (s / 128))
  {
    hide Xor;
    SmallPow();
    XorDisjoint(s % 128, s / 128, 7);
  }

  /** w^121 times a folded lane: seven bits below w^128, the rest above. */
  lemma FoldedLane(s: nat)
    ensures W(121, s) == Xor(W(121, s % 128), W(128, s / 128))
  {
    hide Xor, Pow;
    PolyShape();
    SevenBits(s);
    XorShift(s % 128, 128 * (s / 128), 121);
    MulAssoc(Pow(2, 121), 128, s / 128);
  }

  /** The product of a two-lane quotient with the middle terms of the polynomial. */
  lemma MiddleTerms(ql: nat, qh: nat)
    requires ql < Pow(2, 64)
    ensures var sl, sh := Mul(ql, 0x61), Mul(qh, 0x61);
            Mul(Join(ql, qh, 64), W(121, 0x61))
            == Xor(W(121, sl % 128),
                   W(128, Xor(sl / 128, Xor(W(57, sh % 128), W(64, sh / 128)))))
  {
    hide Xor, Mul, Pow;
    var q := Join(ql, qh, 64);
    var sl, sh := Mul(ql, 0x61), Mul(qh, 0x61);
    var T := Pow(2, 128);
    MulComm(q, W(121, 0x61));
    MulShift(0x61, q, 121);
    MulComm(0x61, q);
    XorDisjoint(ql, qh, 64);
    MulXorLeft(ql, W(64, qh), 0x61);
    MulShift(qh, 0x61, 64);
    XorShift(sl, W(64, sh), 121);
    FoldedLane(sl);
    HighLane(sh);
    var Y := Xor(W(57, sh % 128), W(64, sh / 128));
    XorAssoc(W(121, sl % 128), W(128, sl / 128), W(128, Y));
    XorShift(sl / 128, Y, 128);
  }

  lemma HighLane(sh: nat)
    ensures W(121, W(64, sh))
         == W(128, Xor(W(57, sh % 128), W(64, sh / 128)))
  {
    hide Xor, Pow;
    var T := Pow(2, 128);
    PowAdd(2, 121, 64);
    PowAdd(2, 128, 57);
    MulAssoc(Pow(2, 121), Pow(2, 64), sh);
    MulAssoc(T, Pow(2, 57), sh);
    SmallPow();
    PowAdd(2, 57, 7);
    SevenBits(sh);
    XorShift(sh % 128, 128 * (sh / 128), 57);
    MulAssoc(Pow(2, 57), 128, sh / 128);
  }

  /** A multiple of the polynomial, split at w^128. */
  lemma TimesPoly(ql: nat, qh: nat)
    requires ql < Pow(2, 64)
    ensures var q, sl, sh := Join(ql, qh, 64), Mul(ql, 0x61), Mul(qh, 0x61);
            Mul(q, Poly()) == Xor(Xor(q, W(121, sl % 128)),
                                  W(128, Xor(Xor(q, Xor(sl / 128, W(64, sh / 128))),
                                                    W(57, sh % 128))))
  {
    hide Xor, Mul, Pow, Poly;
    var q, sl, sh := Join(ql, qh, 64), Mul(ql, 0x61), Mul(qh, 0x61);
    var T, A := Pow(2, 128), W(121, sl % 128);
    var u, v := W(57, sh % 128), W(64, sh / 128);
    var B := Xor(sl / 128, Xor(u, v));
    PolyShape();
    MulXorRight(q, Xor(1, W(121, 0x61)), T);
    MulXorRight(q, 1, W(121, 0x61));
    MulOneRight(q);
    MulPow(q, 128);
    MiddleTerms(ql, qh);
    XorAssoc(q, A, W(128, B));
    XorAssoc(Xor(q, A), W(128, B), W(128, q));
    XorShift(B, q, 128);
    XorFour(sl / 128, u, v, q);
  }

  /** What it means to reduce: r * w^128 = h modulo the polynomial, with r below w^128. */
  ghost predicate Reduced(r: nat, h: nat) {
    r < Pow(2, 128) && PolyCong(W(128, r), h, Poly())
  }

  /** There is exactly one such r. */
  lemma ReducedUnique(r: nat, r': nat, h: nat)
    requires Reduced(r, h) && Reduced(r', h)
    ensures r == r'
  {
    hide PolyCong, Poly, Pow;
    PolyShape();
    PolySym(W(128, r'), h, Poly());
    PolyTrans(W(128, r), h, W(128, r'), Poly());
    PolyCancel(r, r', 128, Poly());
    PolyUnique(r, r', 128, Poly());
  }

  /** Reduction is linear. */
  lemma ReducedXor(r: nat, h: nat, r': nat, h': nat)
    requires Reduced(r, h) && Reduced(r', h')
    ensures Reduced(Xor(r, r'), Xor(h, h'))
  {
    hide PolyCong, Poly, Pow, Xor;
    XorBound(r, r', 128);
    XorShift(r, r', 128);
    PolyAdd(W(128, r), h, W(128, r'), h', Poly());
  }

  /** The shifts of the first phase do not reach the seven bits that the second phase loses. */
  lemma LostBits(l: nat, t: nat)
    ensures Mul(Xor(l, W(57, t)), 0x61) % 128 == Mul(l, 0x61) % 128
  {
    hide Xor, Mul, Pow;
    SmallPow();
    MulXorLeft(l, W(57, t), 0x61);
    MulShift(t, 0x61, 57);
    PowAdd(2, 7, 50);
    var m := Mul(t, 0x61);
    MulAssoc(128, Pow(2, 50), m);
    XorDivMod(Mul(l, 0x61), W(57, m), 7);
    XorZero(Mul(l, 0x61) % 128);
  }

  lemma FoldBound(l: nat)
    requires l < Pow(2, 64)
    ensures Mul(l, 0x61) / 128 < Pow(2, 64)
  {
    hide Mul, Pow;
    SmallPow();
    MulBound(l, 0x61, 64, 7);
    PowAdd(2, 64, 7);
  }

  /** The value identity behind the two phases. */
  lemma PhasesReduce(h0: nat, l: nat, h: nat, qh: nat, r: nat)
    requires h0 < Pow(2, 128) && l < Pow(2, 64) && h < Pow(2, 64)
    requires qh == Xor(h, W(57, Mul(l, 0x61) % 128))
    requires var q := Join(l, qh, 64);
             r == Xor(h0, Xor(Xor(q, Join(Mul(l, 0x61) / 128, Mul(qh, 0x61) / 128, 64)),
                              W(57, Mul(h, 0x61) % 128)))
    ensures PolyCong(W(128, r), Xor(Join(l, h, 64), W(128, h0)), Poly())
  {
    hide Xor, Mul, Pow, Poly, PolyCong, Join;
    var q, sl := Join(l, qh, 64), Mul(l, 0x61);
    var T, h1 := Pow(2, 128), Join(l, h, 64);
    LostBits(h, sl % 128);
    FoldBound(l);
    TimesPoly(l, qh);
    assert Join(sl / 128, Mul(qh, 0x61) / 128, 64) == Xor(sl / 128, W(64, Mul(qh, 0x61) / 128)) by {
      XorDisjoint(sl / 128, Mul(qh, 0x61) / 128, 64);
      JoinIs(sl / 128, Mul(qh, 0x61) / 128);
    }
    var Z := Xor(Xor(q, Xor(sl / 128, W(64, Mul(qh, 0x61) / 128))), W(57, Mul(h, 0x61) % 128));
    LowPart(l, h, sl % 128);
    assert Mul(q, Poly()) == Xor(h1, W(128, Z));
    XorShift(h0, Z, 128);
    XorComm(W(128, h0), W(128, Z));
    XorComm(h1, W(128, h0));
    XorShuffle(W(128, Z), W(128, h0), W(128, h0), h1);
    XorSelf(W(128, h0));
    XorShuffle(W(128, Z), W(128, h0), h1, W(128, h0));
    XorComm(W(128, Z), h1);
    XorZero(Xor(h1, W(128, Z)));
    PolyFrom(W(128, r), Xor(h1, W(128, h0)), Poly(), q);
  }

  lemma JoinIs(low: nat, high: nat)
    ensures Join(low, high, 64) == low + W(64, high)
  {
  }

  /** The first phase restores the low register. */
  lemma LowPart(l: nat, h: nat, t: nat)
    requires l < Pow(2, 64)
    ensures Xor(Join(l, Xor(h, W(57, t)), 64), W(121, t)) == Join(l, h, 64)
  {
    hide Xor, Pow;
    var x := W(57, t);
    PowAdd(2, 64, 57);
    MulAssoc(Pow(2, 64), Pow(2, 57), t);
    PowPositive(2, 64);
    XorJoin(l, Xor(h, x), 0, x, 64);
    XorZero(l);
    XorAssoc(h, x, x);
    XorSelf(x);
    XorZero(h);
  }

  /** reduction: hash0 * w^128 + hash1, divided by w^128 modulo the polynomial, as the xor of both outputs. */
  method Reduction(hash0: nat, hash1: nat) returns (r0: nat, r1: nat)
    requires hash0 < Pow(2, 128) && hash1 < Pow(2, 128)
    ensures Reduced(Xor(r0, r1), Xor(hash1, W(128, hash0)))
  {
    hide Xor, Mul, Pow, Poly, Join, Low, High, PolyCong, Shr, Shl64;
    var l, h := Low(hash1), High(hash1);
    Lanes(hash1);
    var tl := Xor(Xor(Shl64(l, 63), Shl64(l, 62)), Shl64(l, 57));
    var th := Xor(Xor(Shl64(h, 63), Shl64(h, 62)), Shl64(h, 57));
    LeftShifts(l);
    LeftShifts(h);
    h := Xor(h, tl);
    r0 := Xor(hash0, th);
    var ul := Shr(Xor(Shr(Xor(Shr(l, 5), l), 1), l), 1);
    var uh := Shr(Xor(Shr(Xor(Shr(h, 5), h), 1), h), 1);
    RightShifts(l);
    RightShifts(h);
    r1 := Xor(Join(l, h, 64), Join(ul, uh, 64));
    XorAssoc(hash0, th, r1);
    XorComm(th, r1);
    FoldShift(l);
    FoldShift(High(hash1));
    XorBound(High(hash1), tl, 64);
    FoldBound(l);
    FoldBound(h);
    RegisterBounds(hash0, th, l, h, ul, uh);
    PhasesReduce(hash0, l, High(hash1), h, Xor(r0, r1));
  }

  lemma FoldShift(l: nat)
    ensures W(57, Mul(l, 0x61) % 128) < Pow(2, 64)
  {
    hide Mul, Pow;
    SmallPow();
    PowAdd(2, 57, 7);
    PowPositive(2, 57);
    MulStrict(Pow(2, 57), Mul(l, 0x61) % 128, 128);
  }

  lemma RegisterBounds(hash0: nat, t: nat, l: nat, h: nat, ul: nat, uh: nat)
    requires hash0 < Pow(2, 128) && t < Pow(2, 64)
    requires l < Pow(2, 64) && h < Pow(2, 64) && ul < Pow(2, 64) && uh < Pow(2, 64)
    ensures Xor(Xor(hash0, t), Xor(Join(l, h, 64), Join(ul, uh, 64))) < Pow(2, 128)
  {
    hide Xor, Pow, Join;
    PowMonotone(2, 64, 128);
    XorBound(hash0, t, 128);
    JoinBound(l, h);
    JoinBound(ul, uh);
    XorBound(Join(l, h, 64), Join(ul, uh, 64), 128);
    XorBound(Xor(hash0, t), Xor(Join(l, h, 64), Join(ul, uh, 64)), 128);
  }

  lemma JoinBound(l: nat, h: nat)
    requires l < Pow(2, 64) && h < Pow(2, 64)
    ensures Join(l, h, 64) < Pow(2, 128)
  {
    hide Pow;
    PowAdd(2, 64, 64);
    MulMonotone(Pow(2, 64), h + 1, Pow(2, 64));
    Distribute(Pow(2, 64), h, 1);
  }
}
