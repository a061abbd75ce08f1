/** Groups of blocks hashed with one reduction: Karatsuba products in two 128-bit lanes. */
module GhashGroups {
  import opened NatArith
  import opened Bits
  import opened Gf2
  import opened Ghash
  import opened GcmStandard

  /** A 256-bit register as two 128-bit lanes. */
  datatype Pair = Pair(lane0: nat, lane1: nat) {
    ghost predicate Valid() {
      lane0 < Pow(2, 128) && lane1 < Pow(2, 128)
    }
  }

  function XorPair(a: Pair, b: Pair): Pair {
    Pair(Xor(a.lane0, b.lane0), Xor(a.lane1, b.lane1))
  }

  /** _mm256_clmulepi64_epi128 with 0x11, and with 0x00. */
  function ClmulHigh(a: Pair, b: Pair): Pair {
    Pair(Mul(High(a.lane0), High(b.lane0)), Mul(High(a.lane1), High(b.lane1)))
  }

  function ClmulLow(a: Pair, b: Pair): Pair {
    Pair(Mul(Low(a.lane0), Low(b.lane0)), Mul(Low(a.lane1), Low(b.lane1)))
  }

  /** _mm256_shuffle_epi32 with SHUFD_MASK: the 64-bit halves of each lane change places. */
  function SwapHalves(a: Pair): Pair {
    Pair(Join(High(a.lane0), Low(a.lane0), 64), Join(High(a.lane1), Low(a.lane1), 64))
  }

  /** What the three accumulators of one lane stand for. */
  ghost function Combine(x0: nat, mid: nat, x5: nat): nat {
    Xor(Xor(x5, W(64, Xor(mid, Xor(x0, x5)))), W(128, x0))
  }

  /** Accumulators add up. */
  lemma CombineXor(x0: nat, mid: nat, x5: nat, y0: nat, m: nat, y5: nat)
    ensures Combine(Xor(x0, y0), Xor(mid, m), Xor(x5, y5)) == Xor(Combine(x0, mid, x5), Combine(y0, m, y5))
  {
    hide Xor, W, Pow;
    XorShuffle(x0, y0, x5, y5);
    XorShuffle(mid, m, Xor(x0, x5), Xor(y0, y5));
    var a, b := Xor(mid, Xor(x0, x5)), Xor(m, Xor(y0, y5));
    XorW(a, b, 64);
    XorShuffle(x5, y5, W(64, a), W(64, b));
    XorW(x0, y0, 128);
    XorShuffle(Xor(x5, W(64, a)), Xor(y5, W(64, b)), W(128, x0), W(128, y0));
  }

  /** Karatsuba: three products of halves make the whole product. */
  lemma Karatsuba(g: nat, k: nat)
    ensures Combine(Mul(High(g), High(k)), Mul(Xor(High(g), Low(g)), Xor(High(k), Low(k))), Mul(Low(g), Low(k)))
         == Mul(g, k)
  {
    hide Xor, Mul, W, Pow, Low, High;
    var gl, gh, kl, kh := Low(g), High(g), Low(k), High(k);
    var ll, hh, lh, hl := Mul(gl, kl), Mul(gh, kh), Mul(gl, kh), Mul(gh, kl);
    LanesW(g);
    LanesW(k);
    MulXorLeft(gl, W(64, gh), k);
    MulXorRight(gl, kl, W(64, kh));
    MulXorRight(gh, kl, W(64, kh));
    MulW(gl, kh, 64);
    MulW(gh, kh, 64);
    MulWLeft(gh, k, 64);
    XorW(hl, W(64, hh), 64);
    WAdd(64, 64, hh);
    assert Mul(g, k) == Xor(Xor(ll, W(64, lh)), Xor(W(64, hl), W(128, hh)));
    MulXorLeft(gh, gl, Xor(kh, kl));
    MulXorRight(gh, kh, kl);
    MulXorRight(gl, kh, kl);
    MiddleTerm(hh, hl, lh, ll);
    XorW(lh, hl, 64);
    XorAssoc(ll, W(64, lh), W(64, hl));
    XorAssoc(Xor(ll, W(64, lh)), W(64, hl), W(128, hh));
  }

  lemma LanesW(x: nat)
    ensures x == Xor(Low(x), W(64, High(x)))
  {
    hide Xor, Pow;
    Lanes(x);
  }

  lemma MulW(x: nat, y: nat, k: nat)
    ensures Mul(x, W(k, y)) == W(k, Mul(x, y))
  {
    hide Mul, Pow;
    MulComm(x, W(k, y));
    MulShift(y, x, k);
    MulComm(x, y);
  }

  lemma MulWLeft(x: nat, y: nat, k: nat)
    ensures Mul(W(k, x), y) == W(k, Mul(x, y))
  {
    hide Mul, Pow;
    MulShift(x, y, k);
  }

  lemma MiddleTerm(hh: nat, hl: nat, lh: nat, ll: nat)
    ensures Xor(Xor(Xor(hh, hl), Xor(lh, ll)), Xor(hh, ll)) == Xor(lh, hl)
  {
    hide Xor;
    XorComm(lh, ll);
    XorShuffle(hh, hl, ll, lh);
    XorComm(Xor(hh, ll), Xor(hl, lh));
    XorAssoc(Xor(hl, lh), Xor(hh, ll), Xor(hh, ll));
    XorSelf(Xor(hh, ll));
    XorZero(Xor(hl, lh));
    XorComm(hl, lh);
  }

  /** One lane's accumulators after i products hold the sum of the whole products. */
  ghost predicate Accumulated(x0: Pair, mid: Pair, x5: Pair, sum0: nat, sum1: nat) {
    && x0.Valid() && mid.Valid() && x5.Valid()
    && Combine(x0.lane0, mid.lane0, x5.lane0) == sum0
    && Combine(x0.lane1, mid.lane1, x5.lane1) == sum1
  }

  /** avx2_internal_mul: adds one product to the accumulators; the caller adds mid to the middle one, m. */
  method InternalMul(gh: Pair, hk: Pair, x0: Pair, x5: Pair, ghost m: Pair, ghost s0: nat, ghost s1: nat)
    returns (mid: Pair, x0': Pair, x5': Pair)
    requires gh.Valid() && hk.Valid() && Accumulated(x0, m, x5, s0, s1)
    ensures Accumulated(x0', XorPair(m, mid), x5', Xor(s0, Mul(gh.lane0, hk.lane0)), Xor(s1, Mul(gh.lane1, hk.lane1)))
  {
    hide Xor, Mul, Low, High, Pow, Combine, Join;
    var x2 := XorPair(SwapHalves(gh), gh);
    var x3 := XorPair(SwapHalves(hk), hk);
    var x4 := ClmulHigh(gh, hk);
    x0' := XorPair(x0, x4);
    x4 := ClmulLow(gh, hk);
    x5' := XorPair(x5, x4);
    mid := ClmulLow(x2, x3);
    LaneProduct(gh.lane0, hk.lane0, x0.lane0, m.lane0, x5.lane0);
    LaneProduct(gh.lane1, hk.lane1, x0.lane1, m.lane1, x5.lane1);
    CombineXor(x0.lane0, m.lane0, x5.lane0,
               Mul(High(gh.lane0), High(hk.lane0)), mid.lane0, Mul(Low(gh.lane0), Low(hk.lane0)));
    CombineXor(x0.lane1, m.lane1, x5.lane1,
               Mul(High(gh.lane1), High(hk.lane1)), mid.lane1, Mul(Low(gh.lane1), Low(hk.lane1)));
  }

  /** One lane of that product, from the halves as the code forms them. */
  lemma LaneProduct(g: nat, k: nat, x0: nat, m: nat, x5: nat)
    requires g < Pow(2, 128) && k < Pow(2, 128) && x0 < Pow(2, 128) && m < Pow(2, 128) && x5 < Pow(2, 128)
    ensures var mid := Mul(Low(Xor(Join(High(g), Low(g), 64), g)), Low(Xor(Join(High(k), Low(k), 64), k)));
            Combine(Mul(High(g), High(k)), mid, Mul(Low(g), Low(k))) == Mul(g, k) && Xor(m, mid) < Pow(2, 128)
    ensures Xor(x0, Mul(High(g), High(k))) < Pow(2, 128) && Xor(x5, Mul(Low(g), Low(k))) < Pow(2, 128)
  {
    hide Xor, Mul, Low, High, Pow, Combine, Join;
    Lanes(g);
    Lanes(k);
    SwappedLow(g);
    SwappedLow(k);
    Karatsuba(g, k);
    MulBound(High(g), High(k), 64, 64);
    MulBound(Low(g), Low(k), 64, 64);
    XorBound(x0, Mul(High(g), High(k)), 128);
    XorBound(x5, Mul(Low(g), Low(k)), 128);
    XorBound(High(g), Low(g), 64);
    XorBound(High(k), Low(k), 64);
    var mid := Mul(Xor(High(g), Low(g)), Xor(High(k), Low(k)));
    MulBound(Xor(High(g), Low(g)), Xor(High(k), Low(k)), 64, 64);
    XorBound(m, mid, 128);
  }

  lemma SwappedLow(g: nat)
    requires g < Pow(2, 128)
    ensures Low(Xor(Join(High(g), Low(g), 64), g)) == Xor(High(g), Low(g))
  {
    hide Xor, Pow, Join;
    Lanes(g);
    var s := Join(High(g), Low(g), 64);
    XorDivMod(s, g, 64);
    JoinUnique(High(g), Low(g), 64);
  }

  /** The sum of the products of one lane, pair i with key register g - 1 - i, from pair i on. */
  ghost function LaneSum(gh: seq<Pair>, hk: seq<Pair>, g: nat, i: nat, second: bool): nat
    requires i <= g <= |gh| && g <= |hk|
    decreases g - i
  {
    if i == g then 0
    else Xor(if second then Mul(gh[i].lane1, hk[g - 1 - i].lane1) else Mul(gh[i].lane0, hk[g - 1 - i].lane0),
             LaneSum(gh, hk, g, i + 1, second))
  }

  /** Where the middle accumulator joins the other two, in one lane. */
  function FoldLow(x0: nat, mid: nat, x5: nat): nat {
    Xor(x5, Join(0, Low(Xor(Xor(mid, x0), x5)), 64))
  }

  function FoldHigh(x0: nat, mid: nat, x5: nat): nat {
    Xor(x0, High(Xor(Xor(mid, x0), x5)))
  }

  lemma FoldValue(x0: nat, mid: nat, x5: nat)
    requires x0 < Pow(2, 128) && x5 < Pow(2, 128) && mid < Pow(2, 128)
    ensures Xor(FoldLow(x0, mid, x5), W(128, FoldHigh(x0, mid, x5))) == Combine(x0, mid, x5)
    ensures FoldLow(x0, mid, x5) < Pow(2, 128) && FoldHigh(x0, mid, x5) < Pow(2, 128)
  {
    hide Xor, Pow, Low, High, W, Join;
    XorAssoc(mid, x0, x5);
    var m := Xor(mid, Xor(x0, x5));
    XorBound(x0, x5, 128);
    XorBound(mid, Xor(x0, x5), 128);
    Lanes(m);
    LanesW(m);
    XorW(Low(m), W(64, High(m)), 64);
    WAdd(64, 64, High(m));
    JoinW(Low(m));
    XorW(x0, High(m), 128);
    var a, b, c := W(64, Low(m)), W(128, High(m)), W(128, x0);
    XorAssoc(x5, a, b);
    XorAssoc(Xor(x5, a), b, c);
    XorComm(b, c);
    PowMonotone(2, 64, 128);
    JoinBound(0, Low(m)) by { PowPositive(2, 64); }
    XorBound(x5, Join(0, Low(m), 64), 128);
    XorBound(x0, High(m), 128);
  }

  lemma JoinW(l: nat)
    ensures Join(0, l, 64) == W(64, l)
  {
  }

  /** The end of every avx2_clmul_gcm function: both lanes are added and reduced once. */
  method FoldAndReduce(x0: Pair, mid: Pair, x5: Pair, bothLanes: bool) returns (hash: nat)
    requires x0.Valid() && mid.Valid() && x5.Valid()
    ensures Reduced(hash, Xor(Combine(x0.lane0, mid.lane0, x5.lane0),
                              if bothLanes then Combine(x0.lane1, mid.lane1, x5.lane1) else 0))
  {
    hide Xor, Pow, Combine, Reduced, FoldLow, FoldHigh;
    FoldValue(x0.lane0, mid.lane0, x5.lane0);
    FoldValue(x0.lane1, mid.lane1, x5.lane1);
    var l0, h0 := FoldLow(x0.lane0, mid.lane0, x5.lane0), FoldHigh(x0.lane0, mid.lane0, x5.lane0);
    var l1, h1 := FoldLow(x0.lane1, mid.lane1, x5.lane1), FoldHigh(x0.lane1, mid.lane1, x5.lane1);
    var t0 := if bothLanes then Xor(h0, h1) else h0;
    var t1 := if bothLanes then Xor(l0, l1) else l0;
    XorBound(h0, h1, 128);
    XorBound(l0, l1, 128);
    SumOfLanes(l0, h0, l1, h1);
    XorZero(Combine(x0.lane0, mid.lane0, x5.lane0));
    t0, t1 := Reduction(t0, t1);
    hash := Xor(t1, t0);
    XorComm(t1, t0);
  }

  lemma SumOfLanes(l0: nat, h0: nat, l1: nat, h1: nat)
    ensures Xor(Xor(l0, l1), W(128, Xor(h0, h1))) == Xor(Xor(l0, W(128, h0)), Xor(l1, W(128, h1)))
  {
    hide Xor, W;
    XorW(h0, h1, 128);
    XorShuffle(l0, l1, W(128, h0), W(128, h1));
  }

  /** The first product of a group starts the accumulators. */
  method FirstMul(gh: Pair, hk: Pair) returns (mid: Pair, x0: Pair, x5: Pair)
    requires gh.Valid() && hk.Valid()
    ensures Accumulated(x0, mid, x5, Mul(gh.lane0, hk.lane0), Mul(gh.lane1, hk.lane1))
  {
    hide Xor, Mul, Low, High, Pow, Combine, Join;
    var x2 := XorPair(SwapHalves(gh), gh);
    var x3 := XorPair(SwapHalves(hk), hk);
    x0 := ClmulHigh(gh, hk);
    x5 := ClmulLow(gh, hk);
    mid := ClmulLow(x2, x3);
    PowPositive(2, 128);
    LaneProduct(gh.lane0, hk.lane0, 0, 0, 0);
    LaneProduct(gh.lane1, hk.lane1, 0, 0, 0);
    XorZero(x0.lane0);
    XorZero(x0.lane1);
    XorZero(x5.lane0);
    XorZero(x5.lane1);
    XorZero(mid.lane0);
    XorZero(mid.lane1);
  }

  ghost predicate ValidPairs(xs: seq<Pair>, n: nat) {
    n <= |xs| && forall i :: 0 <= i < n ==> xs[i].Valid()
  }

  /** avx2_clmul_gcm16, avx2_clmul_gcm8, avx2_clmul_gcm4 and avx2_clmul_gcm2: g = 8, 4, 2 or 1 pairs of blocks
      against the keys in descending order, unrolled there. GH[0] collects the middle products on the way. */
  method ClmulGroup(gh: array<Pair>, hk: seq<Pair>, g: nat) returns (hash: nat)
    requires 1 <= g <= gh.Length && ValidPairs(gh[..], g) && ValidPairs(hk, g)
    modifies gh
    ensures gh[0] == Pair(hash, 0) && forall i :: 1 <= i < gh.Length ==> gh[i] == old(gh[i])
    ensures Reduced(hash, Xor(LaneSum(old(gh[..]), hk, g, 0, false), LaneSum(old(gh[..]), hk, g, 0, true)))
  {
    hide Xor, Mul, Pow, Accumulated, Reduced, Pair.Valid;
    ghost var xs := gh[..];
    ghost var s0, s1 := Mul(xs[0].lane0, hk[g - 1].lane0), Mul(xs[0].lane1, hk[g - 1].lane1);
    var mid, x0, x5 := FirstMul(gh[0], hk[g - 1]);
    gh[0] := mid;
    for i := 1 to g
      invariant forall j :: 1 <= j < gh.Length ==> gh[j] == xs[j]
      invariant Accumulated(x0, gh[0], x5, s0, s1)
      invariant LaneSum(xs, hk, g, 0, false) == Xor(s0, LaneSum(xs, hk, g, i, false))
      invariant LaneSum(xs, hk, g, 0, true) == Xor(s1, LaneSum(xs, hk, g, i, true))
    {
      assert gh[i] == xs[i];
      ghost var p0, p1 := Mul(xs[i].lane0, hk[g - 1 - i].lane0), Mul(xs[i].lane1, hk[g - 1 - i].lane1);
      XorAssoc(s0, p0, LaneSum(xs, hk, g, i + 1, false));
      XorAssoc(s1, p1, LaneSum(xs, hk, g, i + 1, true));
      mid, x0, x5 := InternalMul(gh[i], hk[g - 1 - i], x0, x5, gh[0], s0, s1);
      gh[0] := XorPair(gh[0], mid);
      s0, s1 := Xor(s0, p0), Xor(s1, p1);
    }
    XorZero(s0);
    XorZero(s1);
    hash := FinishGroup(x0, gh[0], x5, s0, s1);
    gh[0] := Pair(hash, 0);
  }

  method FinishGroup(x0: Pair, mid: Pair, x5: Pair, ghost s0: nat, ghost s1: nat) returns (hash: nat)
    requires Accumulated(x0, mid, x5, s0, s1)
    ensures Reduced(hash, Xor(s0, s1))
  {
    hide Xor, Mul, Pow, Combine, Reduced;
    hash := FoldAndReduce(x0, mid, x5, true);
  }

  /** avx2_clmul_gcm: one block, in lane 0. */
  method ClmulOne(gh: array<Pair>, hk: Pair) returns (hash: nat)
    requires 1 <= gh.Length && gh[0].Valid() && hk.Valid()
    modifies gh
    ensures gh[0] == Pair(hash, 0) && forall i :: 1 <= i < gh.Length ==> gh[i] == old(gh[i])
    ensures Reduced(hash, Mul(old(gh[0].lane0), hk.lane0))
  {
    hide Xor, Mul, Pow, Combine, Reduced;
    var mid, x0, x5 := FirstMul(gh[0], hk);
    XorZero(Mul(gh[0].lane0, hk.lane0));
    hash := FoldAndReduce(x0, mid, x5, false);
    gh[0] := Pair(hash, 0);
  }

  /** A stored hash key: w times a power of the hash subkey. */
  ghost predicate KeyFor(k: nat, p: nat) {
    k < Pow(2, 128) && p < Pow(2, 128) && PolyCong(k, 2 * p, Poly())
  }

  /** Every power of the subkey has a stored key: one shift, and one subtraction when the shift overflows. */
  lemma KeyExists(p: nat) returns (k: nat)
    requires p < Pow(2, 128)
    ensures KeyFor(k, p)
  {
    hide Pow, Xor, Poly, Mul;
    k := 2 * p;
    PowDouble(128);
    PolyShape();
    if k < Pow(2, 128) {
      PolyRefl(k, Poly());
    } else {
      var T := Pow(2, 128);
      var a, b := 2 * p - T, Poly() - T;
      PowDouble(129);
      k := Xor(2 * p, Poly());
      XorJoin(a, 1, b, 1, 128);
      XorSelf(1);
      XorComm(2 * p, Poly());
      XorAssoc(Poly(), 2 * p, 2 * p);
      XorSelf(2 * p);
      XorZero(Poly());
      MulComm(1, Poly());
      MulOneRight(Poly());
      PolyFrom(k, 2 * p, Poly(), 1);
    }
  }

  /** Key register j holds the powers 2j + 2 and 2j + 1. */
  ghost predicate KeysFor(hk: seq<Pair>, h: nat, n: nat) {
    n <= |hk| && h < Pow(2, 128) &&
    forall j :: 0 <= j < n ==> KeyFor(hk[j].lane0, HPow(h, 2 * j + 2)) && KeyFor(hk[j].lane1, HPow(h, 2 * j + 1))
  }

  /** A product with a stored key, reduced, is the block product with the power. */
  lemma KeyProduct(x: nat, k: nat, p: nat)
    requires x < Pow(2, 128) && KeyFor(k, p)
    ensures Reduced(Mult(x, p), Mul(x, k))
  {
    hide Pow, Poly, PolyCong, Mul, Mult, W;
    MultMeaning(x, p);
    PolyScale(k, 2 * p, x, Poly());
    MulDoubleRight(x, p);
    ScaleW(W(127, Mult(x, p)), Mul(x, p), 1);
    WAdd(1, 127, Mult(x, p));
    WAdd(1, 127, Mul(x, p));
    PolySym(Mul(x, k), 2 * Mul(x, p), Poly());
    PolyTrans(W(128, Mult(x, p)), 2 * Mul(x, p), Mul(x, k), Poly());
  }

  /** The blocks of the pairs i to g - 1, in order. */
  ghost function Flat(gh: seq<Pair>, g: nat, i: nat): (xs: seq<nat>)
    requires i <= g <= |gh|
    ensures |xs| == 2 * (g - i)
    decreases g - i
  {
    if i == g then [] else [gh[i].lane0, gh[i].lane1] + Flat(gh, g, i + 1)
  }

  /** The sum of a group, reduced, is the expanded hash of its blocks. */
  lemma {:induction false} GroupSum(gh: seq<Pair>, hk: seq<Pair>, g: nat, i: nat, h: nat)
    requires i <= g && ValidPairs(gh, g) && KeysFor(hk, h, g)
    ensures Reduced(Expanded(0, Flat(gh, g, i), h), Xor(LaneSum(gh, hk, g, i, false), LaneSum(gh, hk, g, i, true)))
    decreases g - i
  {
    hide Xor, Mul, Pow, Reduced, HPow, Mult, KeyFor;
    if i == g {
      XorZero(0);
      NothingReduced();
    } else {
      GroupSum(gh, hk, g, i + 1, h);
      var j := g - 1 - i;
      var a, b, rest := gh[i].lane0, gh[i].lane1, Flat(gh, g, i + 1);
      KeyProduct(a, hk[j].lane0, HPow(h, 2 * j + 2));
      KeyProduct(b, hk[j].lane1, HPow(h, 2 * j + 1));
      TwoTerms(a, b, rest, h);
      var A, B, E := Mult(a, HPow(h, 2 * j + 2)), Mult(b, HPow(h, 2 * j + 1)), Expanded(0, rest, h);
      var pa, pb := Mul(a, hk[j].lane0), Mul(b, hk[j].lane1);
      var l0, l1 := LaneSum(gh, hk, g, i + 1, false), LaneSum(gh, hk, g, i + 1, true);
      ReducedXor(A, pa, B, pb);
      ReducedXor(Xor(A, B), Xor(pa, pb), E, Xor(l0, l1));
      XorShuffle(pa, pb, l0, l1);
      XorAssoc(A, B, E);
    }
  }

  lemma NothingReduced()
    ensures Reduced(0, 0)
  {
    hide Pow, PolyCong, Poly;
    PowPositive(2, 128);
    PolyRefl(0, Poly());
  }

  lemma TwoTerms(a: nat, b: nat, rest: seq<nat>, h: nat)
    ensures Expanded(0, [a, b] + rest, h)
         == Xor(Mult(a, HPow(h, |rest| + 2)), Xor(Mult(b, HPow(h, |rest| + 1)), Expanded(0, rest, h)))
  {
    hide Xor, Mult, HPow;
    var xs := [a, b] + rest;
    XorZero(a);
    XorZero(b);
    assert xs[1..] == [b] + rest;
    assert xs[1..][1..] == rest;
  }

  lemma {:induction false} FlatBlocks(gh: seq<Pair>, g: nat, i: nat)
    requires i <= g && ValidPairs(gh, g)
    ensures Blocks(Flat(gh, g, i))
    decreases g - i
  {
    hide Pow;
    if i < g { FlatBlocks(gh, g, i + 1); }
  }

  /** Aggregated hashing is the fold: the group's result, given that y was added to its first block. */
  lemma GroupHash(gh: seq<Pair>, hk: seq<Pair>, g: nat, h: nat, hash: nat, y: nat, xs: seq<nat>)
    requires 1 <= g && ValidPairs(gh, g) && KeysFor(hk, h, g) && |xs| == 2 * g
    requires Flat(gh, g, 0) == [Xor(xs[0], y)] + xs[1..]
    requires Reduced(hash, Xor(LaneSum(gh, hk, g, 0, false), LaneSum(gh, hk, g, 0, true)))
    ensures hash == Hash(y, xs, h)
  {
    hide Xor, Pow, Reduced, Mult, Expanded, KeysFor, LaneSum;
    var zs := Flat(gh, g, 0);
    SubkeyBlock(hk, h, g);
    GroupSum(gh, hk, g, 0, h);
    ReducedUnique(hash, Expanded(0, zs, h), Xor(LaneSum(gh, hk, g, 0, false), LaneSum(gh, hk, g, 0, true)));
    FlatBlocks(gh, g, 0);
    PowPositive(2, 128);
    Horner(0, zs, h);
    XorComm(xs[0], y);
    XorZero(Xor(y, xs[0]));
    assert zs[1..] == xs[1..];
  }

  lemma SubkeyBlock(hk: seq<Pair>, h: nat, n: nat)
    requires KeysFor(hk, h, n)
    ensures h < Pow(2, 128) && n <= |hk|
  {
  }
}
