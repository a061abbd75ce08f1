/** Two modular exponentiations from two engines: change of Montgomery domain, then the dual kernels. */
module DualExp {
  import opened NatArith
  import opened Words
  import opened Bits
  import opened Engine
  import opened Norm52
  import opened Amm52
  import Exp52
  import Inversion
  import MontDomain
  import Montgomery

  /** v in n base-b digits; regular_dig52 and dig52_regular by their integer meaning. */
  function Digits(b: nat, v: nat, n: nat): (s: seq<nat>)
    requires b > 0
    ensures |s| == n && (forall j :: 0 <= j < n ==> s[j] < b)
    decreases n
  {
    if n == 0 then [] else DivModIdentity(v, b); [v % b] + Digits(b, v / b, n - 1)
  }

  lemma {:induction false} DigitsValue(b: nat, v: nat, n: nat)
    requires b > 0 && v < Pow(b, n)
    ensures Val(b, Digits(b, v, n), 0, n) == v
    decreases n
  {
    hide Val, Digits, Pow;
    if n == 0 {
      NoDigits(b, v);
    } else {
      DivModIdentity(v, b);
      QuotientBelow(b, v, v / b, v % b, n);
      DigitsValue(b, v / b, n - 1);
      DigitsUp(b, v, n);
    }
  }

  lemma NoDigits(b: nat, v: nat)
    requires b > 0 && v < Pow(b, 0)
    ensures Val(b, Digits(b, v, 0), 0, 0) == v
  {
  }

  lemma QuotientBelow(b: nat, v: nat, q: nat, r: nat, n: nat)
    requires 0 < b && 0 < n && v < Pow(b, n) && v == r + b * q
    ensures q < Pow(b, n - 1)
  {
    MulCancelLt(b, q, Pow(b, n - 1));
  }

  lemma DigitsUp(b: nat, v: nat, n: nat)
    requires b > 0 && n > 0 && 0 <= v / b
    ensures Val(b, Digits(b, v, n), 0, n) == v % b + b * Val(b, Digits(b, v / b, n - 1), 0, n - 1)
  {
    hide Val;
    var s := Digits(b, v, n);
    ValLow(b, s, 0, n);
    ValAgree(b, Digits(b, v / b, n - 1), 0, s, 1, n - 1);
  }

  /** NUMBER_OF_DIGITS(modulusBitSize + 2, 52). */
  function RedLen(bits: nat): nat {
    (bits + 2 + 51) / 52
  }

  /** numofVariableBuff_avx512(redLen, 4): whole 256-bit registers. */
  function RedBufferLen(bits: nat): nat {
    (RedLen(bits) + 3) / 4 * 4
  }

  /** The sizes with a kernel. */
  predicate Supported(bits: nat) {
    bits == 1024 || bits == 1536 || bits == 2048
  }

  lemma SupportedSizes(bits: nat)
    ensures Supported(bits) <==> bits == 1024 || bits == 1536 || bits == 2048
  {
  }

  /** conv_coeff: how far the two AMMs have to shift. */
  function ConvCoeff(bits: nat): (c: int) {
    4 * (52 * RedLen(bits) - bits)
  }

  /** Digits, buffers and coefficients of the three sizes; each leaves two bits of room. */
  lemma SizesFit(bits: nat)
    requires Supported(bits)
    ensures bits + 2 <= 52 * RedLen(bits) && 0 < ConvCoeff(bits) < 52 * RedLen(bits)
    ensures 0 < RedLen(bits) <= RedBufferLen(bits) <= 64 && RedBufferLen(bits) <= MaskWidth(bits)
    ensures RedLen(1024) == 20 && RedBufferLen(1024) == 20 && ConvCoeff(1024) == 64 && MaskWidth(1024) == 32
    ensures RedLen(1536) == 30 && RedBufferLen(1536) == 32 && ConvCoeff(1536) == 96 && MaskWidth(1536) == 32
    ensures RedLen(2048) == 40 && RedBufferLen(2048) == 40 && ConvCoeff(2048) == 128 && MaskWidth(2048) == 64
  {
  }

  /** Width of the carry masks in the kernel for a size. */
  function MaskWidth(bits: nat): nat {
    if bits == 2048 then 64 else 32
  }

  /** redCoeff: one bit, at digit c / 52 and bit c % 52. */
  function Coefficient(c: nat, n: nat): (s: seq<nat>)
    requires c < 52 * n
    ensures |s| == n
  {
    seq(n, j requires 0 <= j < n => if j == c / 52 then Pow(2, c % 52) else 0)
  }

  lemma CoefficientValue(c: nat, n: nat, d: nat)
    requires c < 52 * d && d <= n
    ensures Normal(Coefficient(c, n)) && Num(Coefficient(c, n)) == Pow(2, c) < Pow(BASE, d)
  {
    hide Pow, Val, At;
    Exp52.PowTwoBase(1);
    PowZero(BASE);
    Inversion.BitPosition(52, c, n);
    Inversion.SingleWord(BASE, Coefficient(c, n), 0, n, c / 52);
    Exp52.PowTwoBase(d);
    PowMonotone(2, c + 1, 52 * d);
    Inversion.PowDouble(c);
  }

  /** Two almost Montgomery multiplications turn 2^(2N) into 2^(2L) modulo m. */
  lemma ConverterSteps(rr: nat, r1: nat, r2: nat, bits: nat, L: nat, R: nat, m: nat)
    requires m > 0 && R == Pow(2, L) && MontDomain.Radix(R, m) && bits <= L
    requires Cong(rr, Pow(2, 2 * bits), m)
    requires IsAmm(r1, rr * rr, R, m) && IsAmm(r2, r1 * Pow(2, 4 * (L - bits)), R, m)
    ensures Cong(r2, R * R, m)
  {
    hide MontDomain.Radix, Cong, Pow;
    var c := Pow(2, 4 * (L - bits));
    var x := Pow(2, 2 * bits);
    CongMul(rr, x, rr, x, m);
    CongTrans(r1 * R, rr * rr, x * x, m);
    CongScale(r1 * R, x * x, c, m);
    CongScale(r2 * R, r1 * c, R, m);
    SwapFactors(r1, c, R);
    CongTrans(r2 * R * R, r1 * R * c, x * x * c, m);
    PowAdd(2, 2 * bits, 2 * bits);
    PowAdd(2, 4 * bits, 4 * (L - bits));
    PowAdd(2, L, L);
    PowAdd(2, 2 * L, 2 * L);
    assert x * x * c == (R * R) * (R * R);
    MulAssoc(R * R, R, R);
    MontDomain.CancelRadix(r2 * R, R * R * R, R, m);
    MontDomain.CancelRadix(r2, R * R, R, m);
  }

  lemma SwapFactors(r: int, c: int, R: int)
    ensures r * c * R == r * R * c
  {
    MulAssoc(r, c, R);
    MulAssoc(r, R, c);
  }

  /** What the driver takes for granted about an engine: 64-bit words, and a modulus that fills them. */
  ghost predicate FullEngine(e: ModEngine, bits: nat)
    reads e, e.mem
  {
    e.wordBits == 64 && e.Ready() && e.modLen * 64 == bits
  }

  /** The kernel for the modulus of an engine. */
  function KernelOf(e: ModEngine, bits: nat): (ker: Kernel)
    requires e.pool <= e.mem.Length && e.modulus + e.modLen <= e.mem.Length
    reads e, e.mem
  {
    Kernel(Digits(BASE, Val(LANE, e.mem[..], e.modulus, e.modLen), RedBufferLen(bits)),
           e.k0, RedLen(bits), MaskWidth(bits))
  }

  lemma FactorOfWord(k0: nat, w: nat, m: nat, rest: nat)
    requires Montgomery.IsFactor(LANE, k0, w) && m == w + LANE * rest
    ensures Factor(k0, m)
  {
    var q := (k0 * w + 1) / LANE;
    Distribute(k0, w, LANE * rest);
    MulAssoc(k0, LANE, rest);
    assert k0 * (LANE * rest) == LANE * (k0 * rest) by { MulAssoc(LANE, k0, rest); }
    var t := q + k0 * rest;
    assert k0 * m + 1 == LANE * t;
    CongFrom(k0 * m, -1, BASE, 0x1000 * t);
  }

  lemma KernelReady(e: ModEngine, bits: nat)
    requires Supported(bits) && FullEngine(e, bits)
    ensures KernelOf(e, bits).Montgomery() && KernelOf(e, bits).M() == e.M()
    ensures KernelOf(e, bits).R() == Pow(2, 52 * RedLen(bits))
    ensures 4 * Pow(2, bits) <= KernelOf(e, bits).R() && e.M() < Pow(2, bits)
    ensures e.Num(e.mem[..], e.montR2) < e.M() && Cong(e.Num(e.mem[..], e.montR2), Pow(2, 2 * bits), e.M())
  {
    hide Pow, Val, Montgomery.IsFactor, Cong, Digits;
    SizesFit(bits);
    Exp52.PowTwoLane(e.modLen);
    var d, n := RedLen(bits), RedBufferLen(bits);
    var m := e.M();
    ValBound(LANE, e.mem[..], e.modulus, e.modLen);
    Exp52.PowTwoBase(d);
    PowAdd(2, bits, 2);
    assert Pow(2, 2) == 4 by { Exp52.SmallPowers(); }
    PowMonotone(2, bits + 2, 52 * d);
    PowMonotone(BASE, d, n);
    DigitsValue(BASE, m, n);
    ValLow(LANE, e.mem[..], e.modulus, e.modLen);
    FactorOfWord(e.k0, e.mem[e.modulus], m, Val(LANE, e.mem[..], e.modulus + 1, e.modLen - 1));
    PowAdd(2, bits, bits);
    CongMod(e.R() * e.R(), m);
  }

  /** RR' from RR: the loop body of the driver for one modulus. */
  method Convert(ker: Kernel, rr: seq<nat>, bits: nat) returns (redRR: seq<nat>)
    requires Supported(bits) && ker.Montgomery() && ker.rounds == RedLen(bits) && ker.Fits(rr)
    requires ker.R() == Pow(2, 52 * RedLen(bits)) && |ker.m| == RedBufferLen(bits)
    requires Num(rr) < ker.M() && Cong(Num(rr), Pow(2, 2 * bits), ker.M())
    ensures ker.Fits(redRR) && Num(redRR) < 2 * ker.M() && Cong(Num(redRR), ker.R() * ker.R(), ker.M())
  {
    hide Pow, Cong, Num, Rounds, Factor, Val;
    SizesFit(bits);
    var c := ConvCoeff(bits);
    var coeff := Coefficient(c, |ker.m|);
    CoefficientValue(c, |ker.m|, ker.rounds);
    CoefficientRoom(c, 52 * RedLen(bits));
    redRR := Amm(ker, rr, rr);
    ghost var first := redRR;
    Exp52.RangeProduct(Num(rr), Num(rr), ker.M(), ker.R());
    AmmMeaning(ker, first, rr, rr);
    redRR := Amm(ker, redRR, coeff);
    Exp52.RegularRange(Num(coeff), Num(first), ker.M(), ker.R());
    AmmMeaning(ker, redRR, first, coeff) by { assert Num(first) * Num(coeff) == Num(coeff) * Num(first); }
    Exp52.KernelRadix(ker);
    ConverterSteps(Num(rr), Num(first), Num(redRR), bits, 52 * RedLen(bits), ker.R(), ker.M());
  }

  lemma CoefficientRoom(c: nat, L: nat)
    requires c < L
    ensures 2 * Pow(2, c) <= Pow(2, L)
  {
    PowMonotone(2, c + 1, L);
  }

  /** cpNLZ_BNU on 64-bit words. */
  function Nlz(w: nat): (z: nat)
    requires w < LANE
    ensures z <= 64
  {
    WordBits(w);
    64 - BitLen(w)
  }

  lemma WordBits(w: nat)
    requires w < LANE
    ensures BitLen(w) <= 64
  {
    hide Pow;
    Exp52.PowTwoLane(1);
    if w > 0 {
      BitLenBounds(w);
      PowStrict(BitLen(w) - 1, 64);
    }
  }

  /** One operand in digits, and what the exponentiation needs to know about it. */
  method Prepare(e: ModEngine, x: seq<nat>, bits: nat) returns (ker: Kernel, redX: seq<nat>, redRR: seq<nat>)
    requires Supported(bits) && FullEngine(e, bits) && Lanes(x) && Val(LANE, x, 0, |x|) < Pow(2, bits)
    ensures Exp52.Operands(ker, redX, redRR) && ker.rounds == RedLen(bits) && ker.M() == e.M() < Pow(2, bits)
    ensures Num(redX) == Val(LANE, x, 0, |x|)
  {
    hide Pow, Val, Cong, Digits, Num, Factor;
    SizesFit(bits);
    KernelReady(e, bits);
    ker := KernelOf(e, bits);
    var n := RedBufferLen(bits);
    PowMonotone(BASE, RedLen(bits), n);
    redX := Digits(BASE, Val(LANE, x, 0, |x|), n);
    DigitsValue(BASE, Val(LANE, x, 0, |x|), n);
    var rr := Val(LANE, e.mem[..], e.montR2, e.modLen);
    Exp52.PowTwoLane(1);
    assert rr == e.Num(e.mem[..], e.montR2);
    redRR := Digits(BASE, rr, n);
    DigitsValue(BASE, rr, n);
    DigitsAreNum(BASE, rr, n);
    DigitsAreNum(BASE, Val(LANE, x, 0, |x|), n);
    redRR := Convert(ker, redRR, bits);
  }

  lemma DigitsAreNum(b: nat, v: nat, n: nat)
    requires b == BASE
    ensures Num(Digits(b, v, n)) == Val(BASE, Digits(b, v, n), 0, n)
  {
  }

  /** gsMontDualExpWin_BNU_sscm_avx512: 0 and no output for a size without a kernel, else
      y = x^exp modulo m for both engines. The size is read off the first modulus. */
  method DualExpWin(e: ModEngine, e': ModEngine, x: seq<nat>, x': seq<nat>, exp: seq<nat>, exp': seq<nat>)
    returns (written: nat, y: seq<nat>, y': seq<nat>)
    requires e.wordBits == 64 && e.Ready() && e'.wordBits == 64 && e'.Ready()
    requires var bits := 64 * e.modLen - (64 - BitLen(e.mem[e.modulus + e.modLen - 1]));
             bits == 1024 || bits == 1536 || bits == 2048 ==>
               && 64 * e.modLen == bits && 64 * e'.modLen == bits
               && 64 * |exp| == bits && 64 * |exp'| == bits
               && (forall j :: 0 <= j < |x| ==> x[j] < 0x1_0000_0000_0000_0000)
               && (forall j :: 0 <= j < |x'| ==> x'[j] < 0x1_0000_0000_0000_0000)
               && (forall j :: 0 <= j < |exp| ==> exp[j] < 0x1_0000_0000_0000_0000)
               && (forall j :: 0 <= j < |exp'| ==> exp'[j] < 0x1_0000_0000_0000_0000)
               && Val(LANE, x, 0, |x|) < Pow(2, bits) && Val(LANE, x', 0, |x'|) < Pow(2, bits)
    ensures var bits := 64 * e.modLen - (64 - BitLen(e.mem[e.modulus + e.modLen - 1]));
            if bits == 1024 || bits == 1536 || bits == 2048 then
              && written == e.modLen + e'.modLen
              && |y| == e.modLen && Val(LANE, y, 0, |y|) <= e.M()
              && Cong(Val(LANE, y, 0, |y|), Pow(Val(LANE, x, 0, |x|), Val(LANE, exp, 0, |exp|)), e.M())
              && |y'| == e'.modLen && Val(LANE, y', 0, |y'|) <= e'.M()
              && Cong(Val(LANE, y', 0, |y'|), Pow(Val(LANE, x', 0, |x'|), Val(LANE, exp', 0, |exp'|)), e'.M())
            else
              written == 0
  {
    hide Pow, Val, Cong, Supported, FullEngine;
    y, y' := [], [];
    Exp52.PowTwoLane(1);
    assert WordMem(LANE, e.mem[..]);
    var top := e.mem[e.modulus + e.modLen - 1];
    WordBits(top);
    var bits := e.modLen * 64 - Nlz(top);
    SupportedSizes(bits);
    if !Supported(bits) {
      return 0, [], [];
    }
    FullWhen(e, bits);
    FullWhen(e', bits);
    y, y' := BothPowers(e, e', x, x', exp, exp', bits);
    written := e.modLen + e'.modLen;
  }

  lemma FullWhen(e: ModEngine, bits: nat)
    requires e.wordBits == 64 && e.Ready() && e.modLen * 64 == bits
    ensures FullEngine(e, bits)
  {
  }

  /** What one side of the pair brings: an engine its modulus fills, a base below 2^bits, a full exponent. */
  ghost predicate SideReady(e: ModEngine, x: seq<nat>, exp: seq<nat>, bits: nat)
    reads e, e.mem
  {
    && FullEngine(e, bits) && Lanes(x) && Lanes(exp) && 64 * |exp| == bits
    && Val(LANE, x, 0, |x|) < Pow(2, bits)
  }

  /** What one side gets: the power, in the words of its modulus. */
  ghost predicate SideDone(e: ModEngine, x: seq<nat>, exp: seq<nat>, y: seq<nat>)
    requires e.Ready()
    reads e, e.mem
  {
    && |y| == e.modLen && Val(LANE, y, 0, |y|) <= e.M()
    && Cong(Val(LANE, y, 0, |y|), Pow(Val(LANE, x, 0, |x|), Val(LANE, exp, 0, |exp|)), e.M())
  }

  /** Conversions and dual exponentiation for a size with a kernel. */
  method BothPowers(e: ModEngine, e': ModEngine, x: seq<nat>, x': seq<nat>, exp: seq<nat>, exp': seq<nat>, bits: nat)
    returns (y: seq<nat>, y': seq<nat>)
    requires Supported(bits) && SideReady(e, x, exp, bits) && SideReady(e', x', exp', bits)
    ensures SideDone(e, x, exp, y) && SideDone(e', x', exp', y')
  {
    hide Pow, Val, Cong, Digits, Num, Exp52.Operands;
    var ker, redX, redRR := Prepare(e, x, bits);
    var ker', redX', redRR' := Prepare(e', x', bits);
    var out, out' := Exp52.ExpDual(ker, ker', redX, redX', exp, exp', redRR, redRR');
    y := Regular(out, e.modLen, bits);
    y' := Regular(out', e'.modLen, bits);
  }

  /** dig52_regular. */
  method Regular(digits: seq<nat>, n: nat, bits: nat) returns (y: seq<nat>)
    requires Normal(digits) && 64 * n == bits && Num(digits) < Pow(2, bits)
    ensures |y| == n && Lanes(y) && Val(LANE, y, 0, n) == Num(digits)
  {
    hide Pow, Val;
    Exp52.PowTwoLane(n);
    y := Digits(LANE, Val(BASE, digits, 0, |digits|), n);
    DigitsValue(LANE, Val(BASE, digits, 0, |digits|), n);
  }
}
