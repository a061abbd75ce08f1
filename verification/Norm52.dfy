/** Carry resolution on radix-2^52 digits held in 64-bit lanes. */
module Norm52 {
  import opened NatArith
  import opened Words
  import opened Bits

  /** EXP_DIGIT_SIZE_AVX512 bits a digit. */
  const BASE: nat := 0x10_0000_0000_0000
  const MASK: nat := BASE - 1
  /** 2^64, the lane modulus. */
  const LANE: nat := 0x1000 * BASE

  ghost predicate Lanes(r: seq<nat>) {
    forall j :: 0 <= j < |r| ==> r[j] < LANE
  }

  /** Every digit is below the base. */
  ghost predicate Normal(r: seq<nat>) {
    forall j :: 0 <= j < |r| ==> r[j] < BASE
  }

  /** The integer held by the digits. */
  ghost function Num(r: seq<nat>): nat {
    Val(BASE, r, 0, |r|)
  }

  /** The carry that ripples into digit j. */
  ghost function Ripple(t: seq<nat>, j: nat): (c: nat)
    requires j <= |t|
    ensures c <= 1
  {
    if j == 0 then 0 else if t[j - 1] + Ripple(t, j - 1) >= BASE then 1 else 0
  }

  /** _mm256_cmp_epu64_mask(MASK, t, LT) from lane i on: the digits that generate a carry. */
  function Generate(t: seq<nat>, i: nat): nat
    requires i <= |t|
    decreases |t| - i
  {
    if i == |t| then 0 else (if MASK < t[i] then 1 else 0) + 2 * Generate(t, i + 1)
  }

  /** _mm256_cmp_epu64_mask(MASK, t, EQ) from lane i on: the digits that propagate a carry. */
  function Propagate(t: seq<nat>, i: nat): nat
    requires i <= |t|
    decreases |t| - i
  {
    if i == |t| then 0 else (if MASK == t[i] then 1 else 0) + 2 * Propagate(t, i + 1)
  }

  /** One integer addition ripples all carries: bit j of (l + 2k + c) ^ l is the carry into digit i + j. */
  lemma {:induction false} RippleByAddition(t: seq<nat>, i: nat, j: nat)
    requires i + j < |t|
    ensures var l := Propagate(t, i);
            Bit(Xor(l + 2 * Generate(t, i) + Ripple(t, i), l), j) == Ripple(t, i + j)
    decreases |t| - i
  {
    hide Ripple, Propagate, Generate, Bit, Xor;
    MaskUnfold(t, i);
    RippleNext(t, i + 1);
    var p: nat, g: nat := if MASK == t[i] then 1 else 0, if MASK < t[i] then 1 else 0;
    RippleStep(p, g, Ripple(t, i), Ripple(t, i + 1), Propagate(t, i + 1), Generate(t, i + 1), j);
    if j > 0 { RippleByAddition(t, i + 1, j - 1); }
  }

  lemma MaskUnfold(t: seq<nat>, i: nat)
    requires i < |t|
    ensures Propagate(t, i) == (if MASK == t[i] then 1 else 0) + 2 * Propagate(t, i + 1)
    ensures Generate(t, i) == (if MASK < t[i] then 1 else 0) + 2 * Generate(t, i + 1)
  {
  }

  lemma RippleNext(t: seq<nat>, j: nat)
    requires 0 < j <= |t|
    ensures Ripple(t, j) == if t[j - 1] + Ripple(t, j - 1) >= BASE then 1 else 0
  {
  }

  /** One digit of that addition. */
  lemma RippleStep(p: nat, g: nat, c: nat, c': nat, l: nat, k: nat, j: nat)
    requires p + g <= 1 && c <= 1 && c' == if p == 1 then c else g
    ensures var b := Bit(Xor(p + 2 * l + 2 * (g + 2 * k) + c, p + 2 * l), j);
            b == if j == 0 then c else Bit(Xor(l + 2 * k + c', l), j - 1)
  {
    hide Xor;
    var sum := l + 2 * k + c';
    assert p + 2 * l + 2 * (g + 2 * k) + c == (p + c) % 2 + 2 * sum;
    XorLow((p + c) % 2, sum, p, l);
  }

  /** The mask of NORMALIZE_52x20/30/40, computed in a word of w bits. */
  function CarryMask(t: seq<nat>, w: nat): nat {
    PowPositive(2, w);
    Xor((Propagate(t, 0) + 2 * Generate(t, 0)) % Pow(2, w), Propagate(t, 0))
  }

  lemma {:induction false} PropagateBound(t: seq<nat>, i: nat)
    requires i <= |t|
    ensures Propagate(t, i) < Pow(2, |t| - i)
    decreases |t| - i
  {
    if i < |t| { PropagateBound(t, i + 1); }
  }

  /** Bit j of the mask is set exactly when a ripple-carry adder carries into digit j. */
  lemma CarryMaskIsRipple(t: seq<nat>, w: nat, j: nat)
    requires |t| <= w && j < |t|
    ensures Bit(CarryMask(t, w), j) == Ripple(t, j)
  {
    hide Pow;
    var l := Propagate(t, 0);
    var sum := l + 2 * Generate(t, 0);
    RippleByAddition(t, 0, j);
    XorDivMod(sum, l, w);
    PropagateBound(t, 0);
    PowMonotone(2, |t|, w);
    SmallMod(l, Pow(2, w));
    BitOfLow(Xor(sum, l), j, w);
  }

  /** The digits after the first pass: low part plus the overflow of the digit below. */
  ghost predicate Folded(r: seq<nat>, t: seq<nat>) {
    |t| == |r| && forall j {:trigger t[j]} ::
      0 <= j < |r| ==> t[j] == r[j] % BASE + (if j == 0 then 0 else r[j - 1] / BASE)
  }

  /** The digits after the last pass: the carry added, modulo the base. */
  ghost predicate Resolved(t: seq<nat>, x: seq<nat>) {
    |x| == |t| && forall j {:trigger x[j]} :: 0 <= j < |t| ==> x[j] == (t[j] + Ripple(t, j)) % BASE
  }

  lemma DigitStep(i: nat, x: nat, t: nat, r: nat, below: nat, c: nat, c': nat)
    requires t == r % BASE + below && below < 0x1000 && c <= 1
    requires c' == (if t + c >= BASE then 1 else 0) && x == (t + c) % BASE
    ensures At(BASE, x, i) + At(BASE, c' + r / BASE, i + 1) == At(BASE, r, i) + At(BASE, c + below, i)
  {
    var p := Pow(BASE, i);
    var top := c' + r / BASE;
    Distribute(p, x, top * BASE);
    Distribute(p, r, c + below);
    MulAssoc(top, BASE, p);
  }

  /** The low i digits keep their value, except for what left them upwards. */
  lemma {:induction false} NormalizePrefix(r: seq<nat>, t: seq<nat>, x: seq<nat>, i: nat)
    requires Lanes(r) && Folded(r, t) && Resolved(t, x) && i <= |r|
    ensures Val(BASE, x, 0, i) + At(BASE, Ripple(t, i) + (if i == 0 then 0 else r[i - 1] / BASE), i)
         == Val(BASE, r, 0, i)
  {
    hide Val, At, Ripple;
    if i == 0 {
      EmptyPrefix(r, t, x);
    } else {
      NormalizePrefix(r, t, x, i - 1);
      var below := if i == 1 then 0 else r[i - 2] / BASE;
      assert t[i - 1] == r[i - 1] % BASE + below;
      assert x[i - 1] == (t[i - 1] + Ripple(t, i - 1)) % BASE;
      hide Folded, Resolved;
      RippleNext(t, i);
      ValStep(BASE, x, 0, i);
      ValStep(BASE, r, 0, i);
      DigitStep(i - 1, x[i - 1], t[i - 1], r[i - 1], below, Ripple(t, i - 1), Ripple(t, i));
    }
  }

  lemma EmptyPrefix(r: seq<nat>, t: seq<nat>, x: seq<nat>)
    ensures Val(BASE, x, 0, 0) == 0 == Val(BASE, r, 0, 0) && At(BASE, Ripple(t, 0) + 0, 0) == 0
  {
  }

  lemma ReducedValue(x: nat, c: nat, i: nat, v: nat)
    requires x < Pow(BASE, i) && x + At(BASE, c, i) == v
    ensures Pow(BASE, i) > 0 && x == v % Pow(BASE, i)
  {
    DivModUnique(v, Pow(BASE, i), c, x);
  }

  /** NORMALIZE_52x20, NORMALIZE_52x30 and NORMALIZE_52x40 on |r| lanes with w-bit masks. */
  method Normalize(r: seq<nat>, w: nat) returns (x: seq<nat>)
    requires |r| <= w && forall j :: 0 <= j < |r| ==> r[j] < 0x1_0000_0000_0000_0000
    ensures |x| == |r| && Normal(x)
    ensures Pow(BASE, |r|) > 0 && Num(x) == Num(r) % Pow(BASE, |r|)
  {
    hide Val, Pow, At, Ripple, Bit, Xor, Propagate, Generate;
    var n := |r|;
    var t := seq(n, j requires 0 <= j < n => r[j] / BASE);
    x := seq(n, j requires 0 <= j < n => r[j] % BASE);
    t := seq(n, j requires 0 <= j < n => if j == 0 then 0 else t[j - 1]);
    x := seq(n, j requires 0 <= j < n => (x[j] + t[j]) % LANE);
    x := ResolveCarries(x, w, r);
    ghost var f :| Folded(r, f) && Resolved(f, x);
    NormalizePrefix(r, f, x, n);
    ValBound(BASE, x, 0, n);
    ReducedValue(Num(x), Ripple(f, n) + (if n == 0 then 0 else r[n - 1] / BASE), n, Num(r));
  }

  /** The second half of the macro: the masks, the addition, the masked subtraction. */
  method ResolveCarries(f: seq<nat>, w: nat, ghost r: seq<nat>) returns (x: seq<nat>)
    requires Lanes(r) && Folded(r, f) && |r| <= w
    ensures Resolved(f, x)
  {
    hide Pow, Ripple, Xor, Propagate, Generate, Bit;
    var n := |f|;
    PowPositive(2, w);
    var k, l := Generate(f, 0), Propagate(f, 0);
    k := (l + 2 * k) % Pow(2, w);
    k := Xor(k, l);
    forall j | 0 <= j < n ensures Bit(k, j) == Ripple(f, j) {
      CarryMaskIsRipple(f, w, j);
    }
    x := seq(n, j requires 0 <= j < n => MaskedSub(f[j], Bit(k, j)));
    x := seq(n, j requires 0 <= j < n => x[j] % BASE);
    forall j | 0 <= j < n ensures x[j] == (f[j] + Ripple(f, j)) % BASE {
      FoldedBound(r, f, j);
      MaskedDigit(f[j], Ripple(f, j));
    }
  }

  /** One lane of _mm256_mask_sub_epi64. */
  function MaskedSub(t: nat, bit: nat): nat {
    if bit == 1 then (LANE + t - MASK) % LANE else t
  }

  /** Taking the mask away modulo 2^64 adds one modulo 2^52. */
  lemma MaskedDigit(t: nat, bit: nat)
    requires t < 2 * BASE && bit <= 1
    ensures MaskedSub(t, bit) % BASE == (t + bit) % BASE
  {
  }

  lemma FoldedBound(r: seq<nat>, f: seq<nat>, j: nat)
    requires Lanes(r) && Folded(r, f) && j < |f|
    ensures f[j] < 2 * BASE
  {
  }
}
