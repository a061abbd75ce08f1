/** Almost Montgomery multiplication on radix-2^52 digits in 64-bit lanes. */
module Amm52 {
  import opened NatArith
  import opened Words
  import opened Norm52

  /** The multiple of m that clears the lowest digit of v + a * d. */
  ghost function Quotient(v: nat, a: nat, d: nat, k0: nat): (y: nat)
    ensures y < BASE
  {
    (v + a * d) * k0 % BASE
  }

  /** One round on integers: the next digit d of the second operand, then a shift by one digit. */
  ghost function Round(v: nat, a: nat, d: nat, m: nat, k0: nat): nat {
    (v + a * d + m * Quotient(v, a, d, k0)) / BASE
  }

  /** The first i rounds over the digits b. */
  ghost function Rounds(a: nat, b: seq<nat>, m: nat, k0: nat, i: nat): nat
    requires i <= |b|
  {
    if i == 0 then 0 else Round(Rounds(a, b, m, k0, i - 1), a, b[i - 1], m, k0)
  }

  /** k0 * m = -1 modulo the base. */
  ghost predicate Factor(k0: nat, m: nat) {
    Cong(k0 * m, -1, BASE)
  }

  /** With the right factor, the digit shifted out is zero. */
  lemma RoundExact(v: nat, a: nat, d: nat, m: nat, k0: nat)
    requires Factor(k0, m)
    ensures BASE * Round(v, a, d, m, k0) == v + a * d + m * Quotient(v, a, d, k0)
  {
    ClearsDigit(v + a * d, m, k0);
  }

  lemma ClearsDigit(z: nat, m: nat, k0: nat)
    requires Factor(k0, m)
    ensures (z + m * (z * k0 % BASE)) % BASE == 0
  {
    hide Cong;
    var y := z * k0 % BASE;
    CongMod(z * k0, BASE);
    CongScale(y, z * k0, m, BASE);
    CongScale(k0 * m, -1, z, BASE);
    MulAssoc(z, k0, m);
    CongTrans(m * y, z * k0 * m, 0 - z as int, BASE);
    CongRefl(z, BASE);
    CongAdd(z, z, m * y, 0 - z as int, BASE);
    CongZero(z + m * y);
  }

  lemma CongZero(x: int)
    requires Cong(x, 0, BASE)
    ensures x % BASE == 0
  {
  }

  /** The rounds divide a * b by BASE^i, up to a multiple q of m. */
  lemma {:induction false} RoundsIdentity(a: nat, b: seq<nat>, m: nat, k0: nat, i: nat) returns (q: nat)
    requires Factor(k0, m) && Normal(b) && i <= |b|
    ensures Pow(BASE, i) * Rounds(a, b, m, k0, i) == a * Val(BASE, b, 0, i) + q * m && q < Pow(BASE, i)
  {
    q := 0;
    if i > 0 {
      hide Quotient;
      var v, d := Rounds(a, b, m, k0, i - 1), b[i - 1];
      var q0 := RoundsIdentity(a, b, m, k0, i - 1);
      RoundExact(v, a, d, m, k0);
      var y := Quotient(v, a, d, k0);
      hide Factor, Rounds, Round, Pow, Val, At;
      q := q0 + At(BASE, y, i - 1);
      DigitBound(BASE, i - 1, q0, y);
      IdentityStep(Pow(BASE, i - 1), v, a, d, m, y, Round(v, a, d, m, k0), q0, Val(BASE, b, 0, i - 1));
      IdentityUnfold(b, i, y);
    }
  }

  lemma IdentityUnfold(b: seq<nat>, i: nat, y: nat)
    requires 0 < i <= |b|
    ensures Pow(BASE, i) == BASE * Pow(BASE, i - 1) && At(BASE, y, i - 1) == y * Pow(BASE, i - 1)
    ensures Val(BASE, b, 0, i) == Val(BASE, b, 0, i - 1) + b[i - 1] * Pow(BASE, i - 1)
  {
  }

  lemma IdentityStep(p: nat, v: nat, a: nat, d: nat, m: nat, y: nat, v': nat, q0: nat, bs: nat)
    requires p * v == a * bs + q0 * m && BASE * v' == v + a * d + m * y
    ensures BASE * p * v' == a * (bs + d * p) + (q0 + y * p) * m
  {
    calc {
      BASE * p * v';
      == { MulAssoc(p, BASE, v'); }
      p * (BASE * v');
      == { Distribute(p, v + a * d, m * y); Distribute(p, v, a * d); }
      p * v + p * (a * d) + p * (m * y);
      == { MulAssoc(a, d, p); MulAssoc(y, p, m); MulAssoc(p, m, y); }
      a * bs + q0 * m + a * (d * p) + (y * p) * m;
      == { Distribute(a, bs, d * p); Distribute(m, q0, y * p); }
      a * (bs + d * p) + (q0 + y * p) * m;
    }
  }

  /** r is a representative of x / R modulo m. */
  ghost predicate IsAmm(r: nat, x: nat, R: nat, m: nat)
    requires m > 0
  {
    Cong(r * R, x, m)
  }

  /** The result is congruent to a * b / R, below 2m when a * b <= m * R, and at most m when a * b < 2m. */
  lemma AmmCorrect(a: nat, b: seq<nat>, m: nat, k0: nat, d: nat)
    requires Factor(k0, m) && m > 0 && Normal(b) && d <= |b|
    ensures var r, x, R := Rounds(a, b, m, k0, d), a * Val(BASE, b, 0, d), Pow(BASE, d);
            IsAmm(r, x, R, m) && (x <= m * R ==> r < 2 * m) && (x < 2 * m <= R ==> r <= m)
  {
    hide Factor, Rounds, Pow, Val, Cong;
    var r, x, R := Rounds(a, b, m, k0, d), a * Val(BASE, b, 0, d), Pow(BASE, d);
    var q := RoundsIdentity(a, b, m, k0, d);
    CongFrom(r * R, x, m, q);
    MulMonotone(m, q, R - 1);
    Distribute(m, R, 1);
    if x <= m * R { AmmBelow(r, x, R, m, q); }
    if x < 2 * m <= R { AmmAtMost(r, x, R, m, q); }
  }

  lemma AmmBelow(r: nat, x: nat, R: nat, m: nat, q: nat)
    requires R * r == x + q * m && q * m <= m * R - m && m > 0 && R > 0 && x <= m * R
    ensures r < 2 * m
  {
    assert R * (2 * m) == 2 * (m * R);
    MulCancelLt(R, r, 2 * m);
  }

  lemma AmmAtMost(r: nat, x: nat, R: nat, m: nat, q: nat)
    requires R * r == x + q * m && q * m <= m * R - m && R > 0 && x < 2 * m <= R
    ensures r <= m
  {
    assert R * (m + 1) == m * R + R;
    MulCancelLt(R, r, m + 1);
  }

  /** mulx, ADD104 twice and SHRD52: the scalar accumulator after one round, and the digit y. */
  method ScalarStage(acc: nat, a0: nat, m0: nat, d: nat, k0: nat) returns (acc': nat, y: nat)
    requires acc < LANE && a0 < BASE && m0 < BASE && d < BASE
    ensures y == (acc + a0 * d) * k0 % BASE && y < BASE
    ensures acc' == (acc + a0 * d + m0 * y) / BASE
  {
    BelowSquare(a0, d, BASE);
    var t2, lo;
    t2, lo, y := QuotientDigit(acc, a0 * d, k0);
    BelowSquare(m0, y, BASE);
    acc' := ShiftOut(t2, lo, m0 * y, acc + a0 * d);
  }

  method QuotientDigit(acc: nat, p: nat, k0: nat) returns (t2: nat, lo: nat, y: nat)
    requires acc < LANE && p < BASE * BASE
    ensures t2 * LANE + lo == acc + p && lo < LANE && t2 < BASE
    ensures y == (acc + p) * k0 % BASE && y < BASE
  {
    t2, lo := Add104(0, acc, p);
    y := lo * k0 % LANE % BASE;
    LowDigit(acc + p, lo, k0);
  }

  method ShiftOut(t2: nat, lo: nat, p: nat, ghost z: nat) returns (acc: nat)
    requires t2 * LANE + lo == z && lo < LANE && t2 < BASE && p < BASE * BASE && z < LANE + BASE * BASE
    ensures acc == (z + p) / BASE
  {
    var h, l := Add104(t2, lo, p);
    acc := (l / BASE + h * 0x1000) % LANE;
    Shrd52(h, l, z + p);
  }

  /** (rh:rl) += p for a 104-bit product p, with the carry recovered from the wrapped low half. */
  method Add104(rh: nat, rl: nat, p: nat) returns (h: nat, l: nat)
    requires rl < LANE && p < BASE * BASE && rh < BASE
    ensures h * LANE + l == rh * LANE + rl + p && l < LANE
    ensures rh == 0 ==> h < BASE
  {
    hide Wrap, UpperWord;
    var ih, il := UpperWord(p), Wrap(p);
    TwoHalves(p);
    CarryOut(rl, il);
    l := Wrap(rl + il);
    NoWrap(rh + ih);
    h := Wrap(rh + ih);
    var c := if l < il then 1 else 0;
    NoWrap(h + c);
    h := Wrap(h + c);
  }

  /** 64-bit arithmetic. */
  function Wrap(x: nat): nat {
    x % LANE
  }

  /** The high half of a mulx product. */
  function UpperWord(p: nat): nat {
    p / LANE
  }

  lemma NoWrap(x: nat)
    ensures x < LANE ==> Wrap(x) == x
  {
  }

  lemma TwoHalves(p: nat)
    ensures p == UpperWord(p) * LANE + Wrap(p) && Wrap(p) < LANE
    ensures p < BASE * BASE ==> UpperWord(p) < MASK
  {
  }

  /** The wrapped sum is below an addend exactly when it wrapped. */
  lemma CarryOut(x: nat, y: nat)
    requires x < LANE && y < LANE
    ensures Wrap(x + y) < LANE && x + y == Wrap(x + y) + (if Wrap(x + y) < y then LANE else 0)
  {
  }

  /** The bits that SHRD52 keeps hold the whole quotient. */
  lemma Shrd52(h: nat, l: nat, z: nat)
    requires h * LANE + l == z && l < LANE && z < LANE + 2 * (BASE * BASE)
    ensures (l / BASE + h * 0x1000) % LANE == z / BASE
  {
    assert z / BASE == l / BASE + h * 0x1000;
    assert h < BASE;
  }

  lemma LowDigit(z: nat, lo: nat, k0: nat)
    requires lo == z % LANE
    ensures lo * k0 % LANE % BASE == z * k0 % BASE
  {
    var q := z / LANE;
    ModMod(lo * k0, BASE, 0x1000);
    CongFrom(z, lo, BASE, q * 0x1000);
    CongScale(z, lo, k0, BASE);
    SameRemainder(z * k0, lo * k0);
  }

  lemma SameRemainder(x: nat, z: nat)
    requires Cong(x, z, BASE)
    ensures x % BASE == z % BASE
  {
  }

  /** Low 52 bits of a product. */
  function Low(x: nat, d: nat): nat {
    x * d % BASE
  }

  /** The bits of a product above the low 52. */
  function High(x: nat, d: nat): nat {
    x * d / BASE
  }

  lemma HighBound(x: nat, d: nat)
    requires x < BASE && d < BASE
    ensures High(x, d) < BASE && Low(x, d) < BASE
  {
    BelowSquare(x, d, BASE);
  }

  /** _mm256_madd52lo_epu64 on all lanes; the factors are normal. */
  function MaddLo(r: seq<nat>, x: seq<nat>, d: nat): (s: seq<nat>)
    requires |x| == |r|
    ensures |s| == |r|
  {
    seq(|r|, j requires 0 <= j < |r| => (r[j] + Low(x[j], d)) % LANE)
  }

  /** _mm256_madd52hi_epu64 on all lanes. */
  function MaddHi(r: seq<nat>, x: seq<nat>, d: nat): (s: seq<nat>)
    requires |x| == |r|
    ensures |s| == |r|
  {
    seq(|r|, j requires 0 <= j < |r| => (r[j] + High(x[j], d)) % LANE)
  }

  /** shift64_imm over all registers: every lane moves down by one. */
  function ShiftLanes(r: seq<nat>): (s: seq<nat>)
    ensures |s| == |r|
  {
    seq(|r|, j requires 0 <= j < |r| => if j + 1 < |r| then r[j + 1] else 0)
  }

  /** After i rounds: lane 0 is stale, and no lane is near 2^64. */
  ghost predicate Bounded(acc: nat, r: seq<nat>, i: nat) {
    acc <= 5 * i * BASE && forall j :: 0 <= j < |r| ==> r[j] <= 4 * i * BASE
  }

  /** The number held by the accumulator and lanes 1 and up. */
  ghost function Held(acc: nat, r: seq<nat>): nat
    requires |r| > 0
  {
    Num(r[0 := acc])
  }

  /** The lanes before (r) and after (r', with s after the shift) one round, free of wrap-around. */
  ghost predicate LaneStep(r: seq<nat>, s: seq<nat>, r': seq<nat>, a: seq<nat>, m: seq<nat>, d: nat, y: nat) {
    && |r| == |s| == |r'| == |a| == |m|
    && (forall j {:trigger s[j]} :: 0 <= j < |r| ==>
          s[j] == if j + 1 < |r| then r[j + 1] + Low(a[j + 1], d) + Low(m[j + 1], y) else 0)
    && (forall j {:trigger r'[j]} :: 0 <= j < |r| ==> r'[j] == s[j] + High(a[j], d) + High(m[j], y))
  }

  lemma LaneAlgebra(p: nat, i: nat, r: nat, a: nat, d: nat, m: nat, y: nat, below: nat, s: nat, r': nat)
    requires below == r + Low(a, d) + Low(m, y) && r' == s + High(a, d) + High(m, y)
    ensures BASE * (r' * p) + below * p == r * p + d * (a * p) + y * (m * p) + s * (BASE * p)
  {
    calc {
      BASE * (r' * p) + below * p;
      == { MulAssoc(BASE, r', p); Distribute(p, BASE * r', below); }
      (BASE * r' + below) * p;
      == { assert BASE * r' + below == BASE * s + a * d + m * y + r; }
      (BASE * s + a * d + m * y + r) * p;
      == {
           Distribute(p, BASE * s + a * d + m * y, r);
           Distribute(p, BASE * s + a * d, m * y);
           Distribute(p, BASE * s, a * d);
         }
      (BASE * s) * p + (a * d) * p + (m * y) * p + r * p;
      == { MulAssoc(s, BASE, p); MulAssoc(d, a, p); MulAssoc(y, m, p); }
      r * p + d * (a * p) + y * (m * p) + s * (BASE * p);
    }
  }

  /** The low i lanes of one round: what is missing is the low part that moves down from lane i. */
  lemma {:induction false} LanePrefix(
      r: seq<nat>, s: seq<nat>, r': seq<nat>, a: seq<nat>, m: seq<nat>, d: nat, y: nat,
      acc: nat, acc': nat, rho: nat, i: nat)
    requires LaneStep(r, s, r', a, m, d, y) && 1 <= i <= |r|
    requires rho + BASE * acc' == acc + a[0] * d + m[0] * y + BASE * s[0]
    ensures rho + BASE * Val(BASE, r'[0 := acc'], 0, i)
         == Val(BASE, r[0 := acc], 0, i) + d * Val(BASE, a, 0, i) + y * Val(BASE, m, 0, i) + At(BASE, s[i - 1], i)
  {
    if i == 1 {
      FirstDigit(r'[0 := acc']);
      FirstDigit(r[0 := acc]);
      FirstDigit(a);
      FirstDigit(m);
      assert At(BASE, s[0], 1) == s[0] * BASE by { PowZero(BASE); }
    } else {
      LanePrefix(r, s, r', a, m, d, y, acc, acc', rho, i - 1);
      var p := Pow(BASE, i - 1);
      assert s[i - 2] == r[i - 1] + Low(a[i - 1], d) + Low(m[i - 1], y);
      LaneAlgebra(p, i - 1, r[i - 1], a[i - 1], d, m[i - 1], y, s[i - 2], s[i - 1], r'[i - 1]);
      NextDigit(r'[0 := acc'], i);
      NextDigit(r[0 := acc], i);
      NextDigit(a, i);
      NextDigit(m, i);
      hide Pow, Val, LaneStep;
      Distribute(BASE, Val(BASE, r'[0 := acc'], 0, i - 1), r'[i - 1] * p);
      Distribute(d, Val(BASE, a, 0, i - 1), a[i - 1] * p);
      Distribute(y, Val(BASE, m, 0, i - 1), m[i - 1] * p);
      PowUp(i);
    }
  }

  lemma FirstDigit(s: seq<nat>)
    requires |s| > 0
    ensures Val(BASE, s, 0, 1) == s[0]
  {
    assert Val(BASE, s, 0, 1) == Val(BASE, s, 0, 0) + At(BASE, s[0], 0);
  }

  lemma NextDigit(s: seq<nat>, i: nat)
    requires 0 < i <= |s|
    ensures Val(BASE, s, 0, i) == Val(BASE, s, 0, i - 1) + s[i - 1] * Pow(BASE, i - 1)
  {
  }

  lemma PowUp(i: nat)
    requires i > 0
    ensures Pow(BASE, i) == BASE * Pow(BASE, i - 1)
  {
  }

  /** One round on the lanes is one round on the number they hold. */
  lemma RoundValue(r: seq<nat>, s: seq<nat>, r': seq<nat>, a: seq<nat>, m: seq<nat>, d: nat, k0: nat,
                   y: nat, acc: nat, acc': nat)
    requires LaneStep(r, s, r', a, m, d, y) && |r| == |s| == |r'| == |a| == |m| > 0
    requires y == (acc + a[0] * d) * k0 % BASE
    requires acc' == (acc + a[0] * d + m[0] * y) / BASE + s[0]
    ensures Held(acc', r') == Round(Held(acc, r), Num(a), d, Num(m), k0)
  {
    hide Val, At, LaneStep, Quotient;
    var n := |r|;
    var rho := (acc + a[0] * d + m[0] * y) % BASE;
    LanePrefix(r, s, r', a, m, d, y, acc, acc', rho, n);
    LastLane(r, s, r', a, m, d, y, n);
    var v := Held(acc, r);
    LowestDigits(r, a, acc, d, k0, y);
    assert rho + BASE * Held(acc', r') == v + Num(a) * d + Num(m) * y;
    DivModUnique(v + Num(a) * d + Num(m) * y, BASE, Held(acc', r'), rho);
  }

  lemma LastLane(r: seq<nat>, s: seq<nat>, r': seq<nat>, a: seq<nat>, m: seq<nat>, d: nat, y: nat, n: nat)
    requires LaneStep(r, s, r', a, m, d, y) && |r| == n > 0
    ensures At(BASE, s[n - 1], n) == 0
  {
  }

  /** Only the lowest digits decide the quotient digit. */
  lemma LowestDigits(r: seq<nat>, a: seq<nat>, acc: nat, d: nat, k0: nat, y: nat)
    requires |r| == |a| > 0 && y == (acc + a[0] * d) * k0 % BASE
    ensures y == Quotient(Held(acc, r), Num(a), d, k0)
  {
    hide Val;
    var n := |r|;
    var r0 := r[0 := acc];
    ValLow(BASE, r0, 0, n);
    ValLow(BASE, a, 0, n);
    var x, z := Val(BASE, r0, 1, n - 1), Val(BASE, a, 1, n - 1);
    CongFrom(Held(acc, r), acc, BASE, x);
    CongFrom(Num(a), a[0], BASE, z);
    CongScale(Num(a), a[0], d, BASE);
    CongAdd(Held(acc, r), acc, Num(a) * d, a[0] * d, BASE);
    CongScale(Held(acc, r) + Num(a) * d, acc + a[0] * d, k0, BASE);
    SameRemainder((Held(acc, r) + Num(a) * d) * k0, (acc + a[0] * d) * k0);
  }

  lemma ProductBounds(a: seq<nat>, d: nat)
    requires Normal(a) && d < BASE
    ensures forall j :: 0 <= j < |a| ==> High(a[j], d) < BASE
    ensures forall j :: 0 <= j < |a| ==> Low(a[j], d) < BASE
  {
    hide High, Low;
    forall j | 0 <= j < |a|
      ensures High(a[j], d) < BASE && Low(a[j], d) < BASE
    {
      HighBound(a[j], d);
    }
  }

  /** The low halves and the shift of one round. */
  method LowStage(r: seq<nat>, a: seq<nat>, m: seq<nat>, d: nat, y: nat, ghost c: nat) returns (s: seq<nat>)
    requires |r| == |a| == |m| > 0 && Normal(a) && Normal(m) && d < BASE && y < BASE
    requires c < 0x800 * BASE && forall j :: 0 <= j < |r| ==> r[j] <= c
    ensures |s| == |r| && forall j {:trigger s[j]} :: 0 <= j < |r| ==>
              && s[j] <= c + 2 * MASK
              && s[j] == if j + 1 < |r| then r[j + 1] + Low(a[j + 1], d) + Low(m[j + 1], y) else 0
  {
    hide High, Low;
    ProductBounds(a, d);
    ProductBounds(m, y);
    s := MaddLo(r, a, d);
    s := MaddLo(s, m, y);
    s := ShiftLanes(s);
  }

  /** The high halves of one round. */
  method HighStage(s: seq<nat>, a: seq<nat>, m: seq<nat>, d: nat, y: nat, ghost c: nat) returns (r: seq<nat>)
    requires |s| == |a| == |m| > 0 && Normal(a) && Normal(m) && d < BASE && y < BASE
    requires c < 0x800 * BASE && forall j :: 0 <= j < |s| ==> s[j] <= c
    ensures |r| == |s| && forall j {:trigger r[j]} :: 0 <= j < |s| ==>
              r[j] <= c + 2 * MASK && r[j] == s[j] + High(a[j], d) + High(m[j], y)
  {
    hide High, Low;
    ProductBounds(a, d);
    ProductBounds(m, y);
    r := MaddHi(s, a, d);
    r := MaddHi(r, m, y);
  }

  /** One pass of the digit loop. */
  method DigitRound(r: seq<nat>, acc: nat, a: seq<nat>, m: seq<nat>, d: nat, k0: nat, ghost i: nat)
    returns (r': seq<nat>, acc': nat)
    requires |r| == |a| == |m| > 0 && Normal(a) && Normal(m) && d < BASE && i < 64
    requires Bounded(acc, r, i)
    ensures |r'| == |r| && Bounded(acc', r', i + 1)
    ensures Held(acc', r') == Round(Held(acc, r), Num(a), d, Num(m), k0)
  {
    hide High, Low, Held, Round, Val;
    var y;
    acc', y := ScalarStage(acc, a[0], m[0], d, k0);
    ScalarBound(acc, a[0], m[0], d, y, i);
    ghost var shifted := acc';
    var s := LowStage(r, a, m, d, y, 4 * i * BASE);
    acc' := (acc' + s[0]) % LANE;
    r' := HighStage(s, a, m, d, y, 4 * i * BASE + 2 * MASK);
    assert acc' == shifted + s[0];
    assert Bounded(acc', r', i + 1);
    assert LaneStep(r, s, r', a, m, d, y);
    RoundValue(r, s, r', a, m, d, k0, y, acc, acc');
  }

  lemma ScalarBound(acc: nat, a0: nat, m0: nat, d: nat, y: nat, i: nat)
    requires acc <= 5 * i * BASE && a0 < BASE && m0 < BASE && d < BASE && y < BASE
    ensures (acc + a0 * d + m0 * y) / BASE <= 5 * i + 2 * BASE
  {
    BelowSquare(a0, d, BASE);
    BelowSquare(m0, y, BASE);
  }

  /** What one modulus brings to the kernels: its digits, its factor, how many digits count, and the
      width of the carry masks. ifma256_amm52x20 has 20 lanes and rounds with 32-bit masks,
      ifma256_amm52x30 32 lanes and 30 rounds, ifma256_amm52x40 40 of both with 64-bit masks. */
  datatype Kernel = Kernel(m: seq<nat>, k0: nat, rounds: nat, w: nat) {
    ghost predicate Valid() {
      Normal(m) && 0 < rounds <= |m| <= w && rounds <= 64
    }

    ghost predicate Fits(x: seq<nat>) {
      |x| == |m| && Normal(x)
    }

    ghost function M(): nat {
      Num(m)
    }

    ghost function R(): nat {
      Pow(BASE, rounds)
    }

    /** The requirements of the algorithm: the right factor, and two bits of room. */
    ghost predicate Montgomery() {
      Valid() && M() > 0 && Factor(k0, M()) && 4 * M() <= R()
    }

    /** out is what the multiplication of a and b computes, whatever the modulus and the factor. */
    ghost predicate Computes(out: seq<nat>, a: seq<nat>, b: seq<nat>)
      requires Valid() && Fits(b)
    {
      Fits(out) && Pow(BASE, |m|) > 0 && Num(out) == Rounds(Num(a), b, M(), k0, rounds) % Pow(BASE, |m|)
    }
  }

  /** ifma256_amm52x20, ifma256_amm52x30 and ifma256_amm52x40. Lane 0 of the registers is stale; acc0
      takes its place at the end. */
  method Amm(ker: Kernel, a: seq<nat>, b: seq<nat>) returns (out: seq<nat>)
    requires ker.Valid() && ker.Fits(a) && ker.Fits(b)
    ensures ker.Computes(out, a, b)
  {
    hide Val, Pow, Round, Held, Num;
    var r: seq<nat> := seq(|a|, j => 0);
    var acc: nat := 0;
    HeldZero(r);
    for i := 0 to ker.rounds
      invariant |r| == |a| && Bounded(acc, r, i)
      invariant Held(acc, r) == Rounds(Num(a), b, ker.M(), ker.k0, i)
    {
      r, acc := DigitRound(r, acc, a, ker.m, b[i], ker.k0, i);
    }
    out := Store(ker, r, acc);
  }

  /** blend64, NORMALIZE and the stores. */
  method Store(ker: Kernel, r: seq<nat>, acc: nat) returns (out: seq<nat>)
    requires ker.Valid() && |r| == |ker.m| && Bounded(acc, r, ker.rounds)
    ensures ker.Fits(out) && Pow(BASE, |ker.m|) > 0 && Num(out) == Held(acc, r) % Pow(BASE, |ker.m|)
  {
    hide Pow, Val;
    out := Normalize(r[0 := acc], ker.w);
  }

  lemma HeldZero(r: seq<nat>)
    requires |r| > 0 && forall j :: 0 <= j < |r| ==> r[j] == 0
    ensures Held(0, r) == 0
  {
    ValZero(BASE, r[0 := 0], 0, |r|);
  }

  /** ifma256_ams52x20, ifma256_ams52x30 and ifma256_ams52x40. */
  method Ams(ker: Kernel, a: seq<nat>) returns (out: seq<nat>)
    requires ker.Valid() && ker.Fits(a)
    ensures ker.Computes(out, a, a)
  {
    out := Amm(ker, a, a);
  }

  /** ifma256_amm52x20_dual, ifma256_amm52x30_dual and ifma256_amm52x40_dual: two register sets and two
      accumulators in one loop. */
  method AmmDual(ker: Kernel, ker': Kernel, a: seq<nat>, b: seq<nat>, a': seq<nat>, b': seq<nat>)
    returns (out: seq<nat>, out': seq<nat>)
    requires ker.Valid() && ker'.Valid() && ker.rounds == ker'.rounds
    requires ker.Fits(a) && ker.Fits(b) && ker'.Fits(a') && ker'.Fits(b')
    ensures ker.Computes(out, a, b) && ker'.Computes(out', a', b')
  {
    hide Val, Pow, Round, Held, Num;
    var r: seq<nat> := seq(|a|, j => 0);
    var r': seq<nat> := seq(|a'|, j => 0);
    var acc: nat, acc': nat := 0, 0;
    HeldZero(r);
    HeldZero(r');
    for i := 0 to ker.rounds
      invariant |r| == |a| && Bounded(acc, r, i) && |r'| == |a'| && Bounded(acc', r', i)
      invariant Held(acc, r) == Rounds(Num(a), b, ker.M(), ker.k0, i)
      invariant Held(acc', r') == Rounds(Num(a'), b', ker'.M(), ker'.k0, i)
    {
      r, acc := DigitRound(r, acc, a, ker.m, b[i], ker.k0, i);
      r', acc' := DigitRound(r', acc', a', ker'.m, b'[i], ker'.k0, i);
    }
    out := Store(ker, r, acc);
    out' := Store(ker', r', acc');
  }

  /** ifma256_ams52x20_dual, ifma256_ams52x30_dual and ifma256_ams52x40_dual. */
  method AmsDual(ker: Kernel, ker': Kernel, a: seq<nat>, a': seq<nat>) returns (out: seq<nat>, out': seq<nat>)
    requires ker.Valid() && ker'.Valid() && ker.rounds == ker'.rounds && ker.Fits(a) && ker'.Fits(a')
    ensures ker.Computes(out, a, a) && ker'.Computes(out', a', a')
  {
    out, out' := AmmDual(ker, ker', a, a, a', a');
  }

  /** The product is determined digit by digit, so the interleaved kernel gives what two single runs give. */
  lemma ComputesUnique(ker: Kernel, x: seq<nat>, y: seq<nat>, a: seq<nat>, b: seq<nat>)
    requires ker.Valid() && ker.Fits(b) && ker.Computes(x, a, b) && ker.Computes(y, a, b)
    ensures x == y
  {
    forall j | 0 <= j < |x| ensures x[j] == y[j] {
      SameDigits(x, y, |x|, j);
    }
  }

  lemma {:induction false} SameDigits(x: seq<nat>, y: seq<nat>, i: nat, j: nat)
    requires Normal(x) && Normal(y) && j < i <= |x| == |y| && Val(BASE, x, 0, i) == Val(BASE, y, 0, i)
    ensures x[j] == y[j]
  {
    hide Pow;
    var p := Pow(BASE, i - 1);
    NextDigit(x, i);
    NextDigit(y, i);
    ValBound(BASE, x, 0, i - 1);
    ValBound(BASE, y, 0, i - 1);
    DivModUnique(Val(BASE, x, 0, i), p, x[i - 1], Val(BASE, x, 0, i - 1));
    DivModUnique(Val(BASE, y, 0, i), p, y[i - 1], Val(BASE, y, 0, i - 1));
    if j < i - 1 { SameDigits(x, y, i - 1, j); }
  }

  /** A number below BASE^rounds has only its low digits. */
  lemma LowDigits(x: seq<nat>, rounds: nat)
    requires rounds <= |x| && Num(x) < Pow(BASE, rounds)
    ensures Num(x) == Val(BASE, x, 0, rounds)
  {
    hide Pow, Val;
    ValSplit(BASE, x, 0, rounds, |x| - rounds);
    var rest := Val(BASE, x, rounds, |x| - rounds);
    if rest > 0 { MulMonotone(Pow(BASE, rounds), 1, rest); }
  }

  /** The padding lanes of the 30-digit kernels stay zero. */
  lemma PaddingIsZero(x: seq<nat>, rounds: nat)
    requires rounds <= |x| && Num(x) < Pow(BASE, rounds)
    ensures forall j :: rounds <= j < |x| ==> x[j] == 0
  {
    hide Pow, Val;
    LowDigits(x, rounds);
    ValSplit(BASE, x, 0, rounds, |x| - rounds);
    PowPositive(BASE, rounds);
    var rest := Val(BASE, x, rounds, |x| - rounds);
    if rest > 0 { MulPositive(Pow(BASE, rounds), rest); }
    ValZero(BASE, x, rounds, |x| - rounds);
  }

  /** Almost Montgomery multiplication is correct: a * b / R modulo m, below 2m while a * b <= m * R, and
      at most m when a * b < 2m. */
  lemma AmmMeaning(ker: Kernel, out: seq<nat>, a: seq<nat>, b: seq<nat>)
    requires ker.Montgomery() && ker.Fits(a) && ker.Fits(b) && ker.Computes(out, a, b)
    requires Num(b) < ker.R() && Num(a) * Num(b) <= ker.M() * ker.R()
    ensures IsAmm(Num(out), Num(a) * Num(b), ker.R(), ker.M()) && Num(out) < 2 * ker.M()
    ensures Num(a) * Num(b) < 2 * ker.M() ==> Num(out) <= ker.M()
  {
    hide Pow, Val, Rounds, Factor, Cong, Num;
    LowDigits(b, ker.rounds);
    AmmCorrect(Num(a), b, ker.M(), ker.k0, ker.rounds);
    var r := Rounds(Num(a), b, ker.M(), ker.k0, ker.rounds);
    PowMonotone(BASE, ker.rounds, |ker.m|);
    SmallMod(r, Pow(BASE, |ker.m|));
  }
}
