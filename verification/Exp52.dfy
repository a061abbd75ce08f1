/** Fixed-window exponentiation on almost Montgomery multiplication. */
module Exp52 {
  import opened NatArith
  import opened Words
  import opened Bits
  import opened Norm52
  import opened Amm52
  import MontDomain

  const EXP_WIN_SIZE: nat := 5
  /** 1 << EXP_WIN_SIZE. */
  const TABLE_LEN: nat := 32

  /** y is base^e in Montgomery form, below 2m. */
  ghost predicate PowForm(ker: Kernel, y: seq<nat>, base: nat, e: nat)
    requires ker.Montgomery()
  {
    ker.Fits(y) && Num(y) < 2 * ker.M() && Cong(Num(y), Pow(base, e) * ker.R(), ker.M())
  }

  lemma KernelRadix(ker: Kernel)
    requires ker.Montgomery()
    ensures MontDomain.Radix(ker.R(), ker.M())
  {
    var q := CongQuotient(ker.k0 * ker.M(), -1, BASE);
    if ker.M() % 2 == 0 { EvenProduct(ker.k0, ker.M()); }
    PowTwoBase(ker.rounds);
  }

  lemma PowTwoBase(n: nat)
    ensures Pow(BASE, n) == Pow(2, 52 * n)
  {
    assert Pow(2, 52) == BASE by { PowAdd(2, 26, 26); assert Pow(2, 26) == 0x400_0000 by { PowTwentySix(); } }
    PowPow(2, 52, n);
  }

  lemma PowTwentySix()
    ensures Pow(2, 26) == 0x400_0000
  {
    PowAdd(2, 13, 13);
    PowAdd(2, 6, 7);
    assert Pow(2, 6) == 64;
    assert Pow(2, 7) == 128;
  }

  /** A product of two powers is the power of the sum. */
  lemma FormProduct(ker: Kernel, out: seq<nat>, x: seq<nat>, y: seq<nat>, base: nat, d: nat, e: nat)
    requires ker.Montgomery() && PowForm(ker, x, base, d) && PowForm(ker, y, base, e) && ker.Computes(out, x, y)
    ensures PowForm(ker, out, base, d + e)
  {
    var m, R, a, b := ker.M(), ker.R(), Num(x), Num(y);
    hide Pow, Cong, Rounds, Factor, Num, MontDomain.Radix;
    RangeProduct(a, b, m, R);
    AmmMeaning(ker, out, x, y);
    KernelRadix(ker);
    PowAdd(base, d, e);
    FormAlgebra(Num(out), a, b, Pow(base, d), Pow(base, e), R, m);
  }

  lemma RangeProduct(a: nat, b: nat, m: nat, R: nat)
    requires a < 2 * m && b < 2 * m && 4 * m <= R
    ensures b < R && a * b <= m * R
  {
    MulMonotone2(a, b, 2 * m, 2 * m);
    MulMonotone(m, 4 * m, R);
    assert (2 * m) * (2 * m) == m * (4 * m);
  }

  lemma FormAlgebra(r: nat, a: nat, b: nat, p: nat, q: nat, R: nat, m: nat)
    requires MontDomain.Radix(R, m) && m > 0 && IsAmm(r, a * b, R, m) && Cong(a, p * R, m) && Cong(b, q * R, m)
    ensures Cong(r, p * q * R, m)
  {
    hide MontDomain.Radix, Cong;
    CongMul(a, p * R, b, q * R, m);
    CongTrans(r * R, a * b, (p * R) * (q * R), m);
    Shuffle4(p, R, q, R);
    MulAssoc(p * q, R, R);
    MontDomain.CancelRadix(r, p * q * R, R, m);
  }

  /** Bringing x into Montgomery form with R^2 mod m. */
  lemma FormFromRegular(ker: Kernel, out: seq<nat>, x: seq<nat>, toMont: seq<nat>, base: nat, e: nat)
    requires ker.Montgomery() && ker.Fits(x) && ker.Fits(toMont) && ker.Computes(out, x, toMont)
    requires Num(x) == Pow(base, e) && 2 * Num(x) <= ker.R()
    requires Num(toMont) < 2 * ker.M() && Cong(Num(toMont), ker.R() * ker.R(), ker.M())
    ensures PowForm(ker, out, base, e)
  {
    var m, R, a, b := ker.M(), ker.R(), Num(x), Num(toMont);
    hide Pow, Cong, Rounds, Factor, Num, MontDomain.Radix;
    RegularRange(a, b, m, R);
    AmmMeaning(ker, out, x, toMont);
    KernelRadix(ker);
    RegularAlgebra(Num(out), a, b, R, m);
  }

  lemma RegularAlgebra(r: nat, a: nat, b: nat, R: nat, m: nat)
    requires MontDomain.Radix(R, m) && m > 0 && IsAmm(r, a * b, R, m) && Cong(b, R * R, m)
    ensures Cong(r, a * R, m)
  {
    hide MontDomain.Radix, Cong;
    CongScale(b, R * R, a, m);
    CongTrans(r * R, a * b, a * (R * R), m);
    MulAssoc(a, R, R);
    MontDomain.CancelRadix(r, a * R, R, m);
  }

  lemma RegularRange(a: nat, b: nat, m: nat, R: nat)
    requires 2 * a <= R && b < 2 * m && 4 * m <= R
    ensures b < R && a * b <= m * R
  {
    MulMonotone2(a, b, a, 2 * m);
    MulMonotone(m, 2 * a, R);
    assert a * (2 * m) == m * (2 * a);
  }

  /** Multiplying by 1 leaves Montgomery form; the result is at most m. */
  lemma RegularFromForm(ker: Kernel, out: seq<nat>, y: seq<nat>, one: seq<nat>, base: nat, e: nat)
    requires ker.Montgomery() && PowForm(ker, y, base, e) && ker.Fits(one) && Num(one) == 1
    requires ker.Computes(out, y, one)
    ensures Num(out) <= ker.M() && Cong(Num(out), Pow(base, e), ker.M())
  {
    var m, R := ker.M(), ker.R();
    hide Pow, Cong, Rounds, Factor, Num, MontDomain.Radix;
    RangeProduct(Num(y), 1, m, R);
    AmmMeaning(ker, out, y, one);
    KernelRadix(ker);
    CongTrans(Num(out) * R, Num(y) * 1, Pow(base, e) * R, m);
    MontDomain.CancelRadix(Num(out), Pow(base, e), R, m);
  }

  /** A zeroed buffer with 1 in its lowest digit. */
  function One(n: nat): (s: seq<nat>)
    requires n > 0
    ensures |s| == n && Normal(s) && Num(s) == 1
  {
    var s: seq<nat> := seq(n, j requires 0 <= j < n => if j == 0 then 1 else 0);
    ValLow(BASE, s, 0, n);
    ValZero(BASE, s, 1, n - 1);
    s
  }

  /** _mm256_mask_xor_epi64 on all lanes. */
  function MaskXor(mask: bool, x: seq<nat>, y: seq<nat>): (s: seq<nat>)
    requires |x| == |y|
    ensures |s| == |x|
  {
    seq(|x|, j requires 0 <= j < |x| => if mask then Xor(x[j], y[j]) else x[j])
  }

  /** extract_multiplier: every row is read; the one whose number is idx is kept. */
  method ExtractMultiplier(table: array<seq<nat>>, idx: nat, n: nat) returns (row: seq<nat>)
    requires table.Length == TABLE_LEN && idx < TABLE_LEN
    requires forall i :: 0 <= i < TABLE_LEN ==> |table[i]| == n
    ensures row == table[idx]
  {
    row := seq(n, j => 0);
    for t := 0 to TABLE_LEN
      invariant |row| == n
      invariant row == if t <= idx then seq(n, j => 0) else table[idx]
    {
      row := MaskXor(idx == t, row, table[t]);
    }
  }

  /** The bits of e from number bit on. */
  ghost function Above(e: nat, bit: nat): nat {
    PowPositive(2, bit);
    var g := e / Pow(2, bit);
    if g < 0 then 0 else g
  }

  lemma AboveIs(e: nat, bit: nat)
    ensures Pow(2, bit) > 0 && 0 <= e / Pow(2, bit) == Above(e, bit)
  {
    hide Pow;
    JoinDivMod(e, bit);
  }

  lemma AboveUnique(e: nat, bit: nat, g: nat, low: nat)
    requires low < Pow(2, bit) && e == low + Pow(2, bit) * g
    ensures Above(e, bit) == g
  {
    AboveIs(e, bit);
    DivModUnique(e, Pow(2, bit), g, low);
  }

  /** Shifting twice is shifting by the sum. */
  lemma AboveTwice(e: nat, p: nat, q: nat)
    ensures Above(Above(e, p), q) == Above(e, p + q)
  {
    hide Pow;
    var x := Above(e, p);
    var g := Above(x, q);
    AboveParts(e, p);
    AboveParts(x, q);
    var P, Q := Pow(2, p), Pow(2, q);
    var l, h := e - P * x, x - Q * g;
    PowAdd(2, p, q);
    MulAssoc(P, Q, g);
    Distribute(P, h, Q * g);
    MulMonotone(P, h + 1, Q);
    Distribute(P, h, 1);
    AboveUnique(e, p + q, g, l + P * h);
  }

  lemma AboveParts(e: nat, bit: nat)
    ensures Pow(2, bit) * Above(e, bit) <= e < Pow(2, bit) * Above(e, bit) + Pow(2, bit)
  {
    hide Pow;
    AboveIs(e, bit);
    JoinDivMod(e, bit);
  }

  /** The five bits below a window continue the exponent. */
  lemma NextWindow(e: nat, bit: nat)
    ensures Above(e, bit) == 32 * Above(e, bit + EXP_WIN_SIZE) + Above(e, bit) % 32
  {
    AboveTwice(e, bit, 5);
    assert Pow(2, 5) == 32;
  }

  lemma PowTwoLane(c: nat)
    ensures Pow(LANE, c) == Pow(2, 64 * c) && Pow(2, 64) == LANE
  {
    PowTwoBase(1);
    PowZero(BASE);
    assert Pow(2, 12) == 0x1000 by { PowAdd(2, 6, 6); assert Pow(2, 6) == 64; }
    PowAdd(2, 52, 12);
    PowPow(2, 64, c);
  }

  /** Dropping the low c words of an exponent. */
  lemma WholeWords(e: seq<nat>, c: nat)
    requires Lanes(e) && c <= |e|
    ensures Above(Val(LANE, e, 0, |e|), 64 * c) == Val(LANE, e, c, |e| - c)
  {
    hide Pow, Val, Above;
    PowTwoLane(c);
    ValSplit(LANE, e, 0, c, |e| - c);
    ValBound(LANE, e, 0, c);
    AboveUnique(Val(LANE, e, 0, |e|), 64 * c, Val(LANE, e, c, |e| - c), Val(LANE, e, 0, c));
  }

  /** Two neighbouring words shifted into place: the xor of the parts has the bits of the exponent. */
  lemma WindowBits(w: nat, w': nat, rest: nat, s: nat)
    requires 0 < s < 64 && w < LANE && w' < LANE
    ensures Pow(2, s) > 0 && 0 <= w / Pow(2, s)
    ensures Xor(w / Pow(2, s), w' * Pow(2, 64 - s) % LANE) % 32 == Above(w + LANE * (w' + LANE * rest), s) % 32
  {
    hide Pow, Xor, Above, Join;
    var p, q := Pow(2, s), Pow(2, 64 - s);
    PowAdd(2, s, 64 - s);
    PowTwoLane(1);
    DivModIdentity(w, p);
    DivModIdentity(w', p);
    var u, low, l, h := w / p, w % p, w' % p, w' / p;
    TwoWords(w, w', rest, p, q, u, low, l, h);
    MulCancelLt(p, u, q);
    XorDisjoint(u, l, 64 - s);
    AboveUnique(w + LANE * (w' + LANE * rest), s, u + q * l + LANE * (h + q * rest), low);
    LowFive(u + q * l, h + q * rest);
  }

  lemma LowFive(x: nat, k: nat)
    ensures (x + LANE * k) % 32 == x % 32
  {
    var c := LANE / 32;
    assert LANE * k == c * k * 32 by { MulAssoc(32, c, k); }
    DivModUnique(x + LANE * k, 32, x / 32 + c * k, x % 32);
  }

  lemma TwoWords(w: nat, w': nat, rest: nat, p: nat, q: nat, u: nat, low: nat, l: nat, h: nat)
    requires p * q == LANE && w == low + p * u && w < LANE && w' == l + p * h && l < p
    ensures p * u < p * q && w' * q % LANE == q * l
    ensures w + LANE * (w' + LANE * rest) == low + p * (u + q * l + LANE * (h + q * rest))
  {
    assert w' * q == q * l + LANE * h by { Distribute(q, l, p * h); MulAssoc(h, p, q); }
    MulMonotone(q, l + 1, p);
    Distribute(q, l, 1);
    if q <= 0 { MulMonotone(p, q, 0); }
    DivModUnique(w' * q, LANE, h, q * l);
    var t := h + q * rest;
    assert p * (LANE * t) == LANE * (p * t) by { MulAssoc(p, LANE, t); MulAssoc(LANE, p, t); }
    assert p * t == p * h + LANE * rest by { Distribute(p, h, q * rest); MulAssoc(p, q, rest); }
    Distribute(p, u + q * l, LANE * t);
    Distribute(p, u, q * l);
    MulAssoc(p, q, l);
  }

  /** The window at a bit position, read from one word and its upper neighbour. */
  method WindowIndex(expz: seq<nat>, bit: nat) returns (idx: nat)
    requires Lanes(expz) && bit / 64 + 1 < |expz|
    ensures idx == Above(Val(LANE, expz, 0, |expz|), bit) % 32
  {
    hide Pow, Val, Xor, Above;
    var c, s := bit / 64, bit % 64;
    PowPositive(2, s);
    idx := expz[c];
    var t := expz[c + 1];
    DivModIdentity(idx, Pow(2, s));
    idx := idx / Pow(2, s);
    t := if s == 0 then 0 else t * Pow(2, 64 - s) % LANE;
    idx := Xor(idx, t) % 32;
    WholeWords(expz, c);
    AboveTwice(Val(LANE, expz, 0, |expz|), 64 * c, s);
    ValLow(LANE, expz, c, |expz| - c);
    ValLow(LANE, expz, c + 1, |expz| - c - 1);
    ghost var rest := Val(LANE, expz, c + 2, |expz| - c - 2);
    if s == 0 {
      AlignedWindow(expz[c], expz[c + 1] + LANE * rest);
    } else {
      WindowBits(expz[c], expz[c + 1], rest, s);
    }
  }

  lemma AlignedWindow(w: nat, high: nat)
    ensures Pow(2, 0) == 1 && Xor(w / Pow(2, 0), 0) % 32 == Above(w + LANE * high, 0) % 32
  {
    hide Pow, Xor, Above;
    PowZero(2);
    XorZero(w);
    AboveUnique(w + LANE * high, 0, w + LANE * high, 0);
    LowFive(w, high);
  }

  /** The size of the first window. */
  function FirstWindow(bits: nat): (delta: nat)
    ensures 1 <= delta <= EXP_WIN_SIZE && (bits > 0 ==> delta <= bits && (bits - delta) % EXP_WIN_SIZE == 0)
  {
    if bits % EXP_WIN_SIZE != 0 then bits % EXP_WIN_SIZE else EXP_WIN_SIZE
  }

  /** The first window is the top of the highest word, and needs no mask. */
  method FirstIndex(expz: seq<nat>, bits: nat) returns (idx: nat)
    requires Lanes(expz) && |expz| >= 2 && bits == 64 * (|expz| - 1) && expz[|expz| - 1] == 0
    ensures idx == Above(Val(LANE, expz, 0, |expz|), bits - FirstWindow(bits)) < TABLE_LEN
  {
    hide Pow, Val, Xor, Above;
    var bit := bits - FirstWindow(bits);
    var c, s := bit / 64, bit % 64;
    PowPositive(2, s);
    idx := expz[c];
    DivModIdentity(idx, Pow(2, s));
    idx := idx / Pow(2, s);
    WholeWords(expz, c);
    AboveTwice(Val(LANE, expz, 0, |expz|), 64 * c, s);
    assert c == |expz| - 2 && s == 64 - FirstWindow(bits);
    ValLow(LANE, expz, c, 2);
    ValLow(LANE, expz, c + 1, 1);
    assert Val(LANE, expz, c + 2, 0) == 0 by { EmptyVal(expz, c + 2); }
    AboveIs(expz[c], s);
    TopBits(expz[c], s);
  }

  lemma EmptyVal(e: seq<nat>, p: nat)
    requires p <= |e|
    ensures Val(LANE, e, p, 0) == 0
  {
  }

  lemma TopBits(w: nat, s: nat)
    requires 59 <= s < 64 && w < LANE
    ensures Above(w, s) < TABLE_LEN
  {
    hide Pow, Above;
    AboveParts(w, s);
    PowAdd(2, s, 64 - s);
    PowTwoLane(1);
    PowMonotone(2, 64 - s, 5);
    assert Pow(2, 5) == 32 by { PowAdd(2, 2, 3); SmallPowers(); }
    MulCancelLt(Pow(2, s), Above(w, s), Pow(2, 64 - s));
  }

  lemma SmallPowers()
    ensures Pow(2, 2) == 4 && Pow(2, 3) == 8
  {
  }

  /** What the exponentiation asks of its operands: room in the base, and the converter R^2 mod m. */
  ghost predicate Operands(ker: Kernel, base: seq<nat>, toMont: seq<nat>) {
    && ker.Montgomery() && ker.Fits(base) && ker.Fits(toMont) && 2 * Num(base) <= ker.R()
    && Num(toMont) < 2 * ker.M() && Cong(Num(toMont), ker.R() * ker.R(), ker.M())
  }

  /** The first rows hold base^0, base^1, ... in Montgomery form. */
  ghost predicate PowTable(ker: Kernel, rows: seq<seq<nat>>, base: nat, count: nat)
    requires ker.Montgomery()
  {
    count <= |rows| && forall i :: 0 <= i < count ==> PowForm(ker, rows[i], base, i)
  }

  /** One more row. */
  lemma TableGrows(ker: Kernel, rows: seq<seq<nat>>, rows': seq<seq<nat>>, base: nat, count: nat)
    requires ker.Montgomery() && PowTable(ker, rows, base, count) && |rows'| == |rows| && count < |rows|
    requires rows' == rows[count := rows'[count]] && PowForm(ker, rows'[count], base, count)
    ensures PowTable(ker, rows', base, count + 1)
  {
  }

  /** The table of base^0 to base^31 in Montgomery form. */
  method BuildTable(ker: Kernel, base: seq<nat>, toMont: seq<nat>) returns (table: array<seq<nat>>)
    requires Operands(ker, base, toMont)
    ensures fresh(table) && table.Length == TABLE_LEN && PowTable(ker, table[..], Num(base), TABLE_LEN)
  {
    hide Pow, Cong, Rounds, Factor, Num, PowForm;
    table := new seq<nat>[TABLE_LEN](i => []);
    ghost var x := Num(base);
    table[0] := Amm(ker, One(|ker.m|), toMont);
    table[1] := Amm(ker, base, toMont);
    FirstRows(ker, table[0], table[1], base, toMont);
    for idx := 1 to TABLE_LEN / 2
      invariant PowTable(ker, table[..], x, 2 * idx)
    {
      ghost var rows := table[..];
      table[2 * idx] := SquareOnce(ker, table[idx], x, idx);
      TableGrows(ker, rows, table[..], x, 2 * idx);
      rows := table[..];
      table[2 * idx + 1] := MulForm(ker, table[2 * idx], table[1], x, 2 * idx, 1);
      TableGrows(ker, rows, table[..], x, 2 * idx + 1);
    }
  }

  lemma FirstRows(ker: Kernel, row0: seq<nat>, row1: seq<nat>, base: seq<nat>, toMont: seq<nat>)
    requires Operands(ker, base, toMont)
    requires ker.Computes(row0, One(|ker.m|), toMont) && ker.Computes(row1, base, toMont)
    ensures PowForm(ker, row0, Num(base), 0) && PowForm(ker, row1, Num(base), 1)
  {
    hide Pow, Cong, Rounds, Factor, Num, PowForm;
    PowZero(Num(base));
    FormFromRegular(ker, row0, One(|ker.m|), toMont, Num(base), 0);
    FormFromRegular(ker, row1, base, toMont, Num(base), 1);
  }

  /** A multiplication of two powers. */
  method MulForm(ker: Kernel, x: seq<nat>, y: seq<nat>, ghost base: nat, ghost d: nat, ghost e: nat)
    returns (out: seq<nat>)
    requires ker.Montgomery() && PowForm(ker, x, base, d) && PowForm(ker, y, base, e)
    ensures PowForm(ker, out, base, d + e)
  {
    hide Cong, Pow, Num, Rounds;
    out := Amm(ker, x, y);
    FormProduct(ker, out, x, y, base, d, e);
  }

  /** The series of squarings between two windows. */
  method SquareFive(ker: Kernel, y: seq<nat>, ghost base: nat, ghost e: nat) returns (out: seq<nat>)
    requires ker.Montgomery() && PowForm(ker, y, base, e)
    ensures PowForm(ker, out, base, 32 * e)
  {
    hide PowForm, Kernel.Computes, Kernel.Montgomery;
    out := SquareOnce(ker, y, base, e);
    out := SquareOnce(ker, out, base, 2 * e);
    out := SquareOnce(ker, out, base, 4 * e);
    out := SquareOnce(ker, out, base, 8 * e);
    out := SquareOnce(ker, out, base, 16 * e);
  }

  method SquareOnce(ker: Kernel, y: seq<nat>, ghost base: nat, ghost e: nat) returns (out: seq<nat>)
    requires ker.Montgomery() && PowForm(ker, y, base, e)
    ensures PowForm(ker, out, base, 2 * e)
  {
    hide Cong, Pow, Num, Rounds;
    out := Ams(ker, y);
    FormProduct(ker, out, y, y, base, e, e);
  }

  /** expz: the exponent with one zero word above. */
  function Expand(e: seq<nat>): (z: seq<nat>)
    requires Lanes(e)
    ensures |z| == |e| + 1 && Lanes(z) && z[|e|] == 0 && Val(LANE, z, 0, |z|) == Val(LANE, e, 0, |e|)
  {
    var z := e + [0];
    ValAgree(LANE, e, 0, z, 0, |e|);
    z
  }

  /** One window: five squarings, then the multiplier for the window. */
  method WindowPass(ker: Kernel, table: array<seq<nat>>, expz: seq<nat>, redY: seq<nat>, bit: nat, ghost x: nat)
    returns (out: seq<nat>)
    requires ker.Montgomery() && table.Length == TABLE_LEN && PowTable(ker, table[..], x, TABLE_LEN)
    requires Lanes(expz) && bit / 64 + 1 < |expz|
    requires PowForm(ker, redY, x, Above(Val(LANE, expz, 0, |expz|), bit + EXP_WIN_SIZE))
    ensures PowForm(ker, out, x, Above(Val(LANE, expz, 0, |expz|), bit))
  {
    hide Val, Above, Kernel.Montgomery;
    ghost var e := Val(LANE, expz, 0, |expz|);
    out := SquareFive(ker, redY, x, Above(e, bit + EXP_WIN_SIZE));
    var idx := WindowIndex(expz, bit);
    var redX := ExtractMultiplier(table, idx, |ker.m|);
    hide PowForm, PowTable;
    out := MulForm(ker, out, redX, x, 32 * Above(e, bit + EXP_WIN_SIZE), idx);
    NextWindow(e, bit);
  }

  /** ifma256_exp52x20: out = base^e mod m, at most m. */
  method Exp(ker: Kernel, base: seq<nat>, e: seq<nat>, toMont: seq<nat>) returns (out: seq<nat>)
    requires Operands(ker, base, toMont) && Lanes(e) && |e| > 0
    ensures ker.Fits(out) && Num(out) <= ker.M()
    ensures Cong(Num(out), Pow(Num(base), Val(LANE, e, 0, |e|)), ker.M())
  {
    hide Pow, Cong, Num, Val, Above, Factor, Rounds, PowForm;
    ghost var x, exponent := Num(base), Val(LANE, e, 0, |e|);
    var table := BuildTable(ker, base, toMont);
    var expz := Expand(e);
    var bits := 64 * |e|;
    var bit: int := bits - FirstWindow(bits);
    var redY := FirstPass(ker, table, expz, bits, x);
    bit := bit - EXP_WIN_SIZE;
    while bit >= 0
      invariant 0 <= bit + EXP_WIN_SIZE && bit < bits - EXP_WIN_SIZE && bit % EXP_WIN_SIZE == 0
      invariant PowTable(ker, table[..], x, TABLE_LEN)
      invariant PowForm(ker, redY, x, Above(exponent, bit + EXP_WIN_SIZE))
      decreases bit
    {
      redY := WindowPass(ker, table, expz, redY, bit, x);
      bit := bit - EXP_WIN_SIZE;
    }
    AllBits(exponent);
    FormFits(ker, redY, x, exponent);
    out := Amm(ker, redY, One(|ker.m|));
    RegularFromForm(ker, out, redY, One(|ker.m|), x, exponent);
  }

  lemma FormFits(ker: Kernel, y: seq<nat>, base: nat, e: nat)
    requires ker.Montgomery() && PowForm(ker, y, base, e)
    ensures ker.Fits(y)
  {
  }

  lemma TableWidth(ker: Kernel, rows: seq<seq<nat>>, base: nat)
    requires ker.Montgomery() && PowTable(ker, rows, base, TABLE_LEN)
    ensures forall i :: 0 <= i < TABLE_LEN ==> |rows[i]| == |ker.m|
  {
  }

  lemma AllBits(e: nat)
    ensures Above(e, 0) == e
  {
    AboveUnique(e, 0, e, 0);
  }

  /** The squarings of the dual kernels. */
  method SquareFiveDual(ker: Kernel, ker': Kernel, y: seq<nat>, y': seq<nat>,
                        ghost base: nat, ghost base': nat, ghost e: nat, ghost e': nat)
    returns (out: seq<nat>, out': seq<nat>)
    requires ker.Montgomery() && ker'.Montgomery() && ker.rounds == ker'.rounds
    requires PowForm(ker, y, base, e) && PowForm(ker', y', base', e')
    ensures PowForm(ker, out, base, 32 * e) && PowForm(ker', out', base', 32 * e')
  {
    hide PowForm, Kernel.Computes, Kernel.Montgomery;
    out, out' := SquareDual(ker, ker', y, y', base, base', e, e');
    out, out' := SquareDual(ker, ker', out, out', base, base', 2 * e, 2 * e');
    out, out' := SquareDual(ker, ker', out, out', base, base', 4 * e, 4 * e');
    out, out' := SquareDual(ker, ker', out, out', base, base', 8 * e, 8 * e');
    out, out' := SquareDual(ker, ker', out, out', base, base', 16 * e, 16 * e');
  }

  method SquareDual(ker: Kernel, ker': Kernel, y: seq<nat>, y': seq<nat>,
                    ghost base: nat, ghost base': nat, ghost e: nat, ghost e': nat)
    returns (out: seq<nat>, out': seq<nat>)
    requires ker.Montgomery() && ker'.Montgomery() && ker.rounds == ker'.rounds
    requires PowForm(ker, y, base, e) && PowForm(ker', y', base', e')
    ensures PowForm(ker, out, base, 2 * e) && PowForm(ker', out', base', 2 * e')
  {
    hide Cong, Pow, Num, Rounds;
    out, out' := AmsDual(ker, ker', y, y');
    FormProduct(ker, out, y, y, base, e, e);
    FormProduct(ker', out', y', y', base', e', e');
  }

  method MulDual(ker: Kernel, ker': Kernel, x: seq<nat>, y: seq<nat>, x': seq<nat>, y': seq<nat>,
                 ghost base: nat, ghost base': nat, ghost d: nat, ghost e: nat, ghost d': nat, ghost e': nat)
    returns (out: seq<nat>, out': seq<nat>)
    requires ker.Montgomery() && ker'.Montgomery() && ker.rounds == ker'.rounds
    requires PowForm(ker, x, base, d) && PowForm(ker, y, base, e)
    requires PowForm(ker', x', base', d') && PowForm(ker', y', base', e')
    ensures PowForm(ker, out, base, d + e) && PowForm(ker', out', base', d' + e')
  {
    hide Cong, Pow, Num, Rounds;
    out, out' := AmmDual(ker, ker', x, y, x', y');
    FormProduct(ker, out, x, y, base, d, e);
    FormProduct(ker', out', x', y', base', d', e');
  }

  /** Both tables, row by row. */
  method BuildTableDual(ker: Kernel, ker': Kernel, base: seq<nat>, base': seq<nat>, toMont: seq<nat>, toMont': seq<nat>)
    returns (table: array<seq<nat>>, table': array<seq<nat>>)
    requires Operands(ker, base, toMont) && Operands(ker', base', toMont') && ker.rounds == ker'.rounds
    ensures fresh(table) && table.Length == TABLE_LEN && PowTable(ker, table[..], Num(base), TABLE_LEN)
    ensures fresh(table') && table'.Length == TABLE_LEN && PowTable(ker', table'[..], Num(base'), TABLE_LEN)
    ensures table != table'
  {
    hide Pow, Cong, Rounds, Factor, Num, PowForm;
    table := new seq<nat>[TABLE_LEN](i => []);
    table' := new seq<nat>[TABLE_LEN](i => []);
    ghost var x, x' := Num(base), Num(base');
    table[0], table'[0] := AmmDual(ker, ker', One(|ker.m|), toMont, One(|ker'.m|), toMont');
    table[1], table'[1] := AmmDual(ker, ker', base, toMont, base', toMont');
    FirstRows(ker, table[0], table[1], base, toMont);
    FirstRows(ker', table'[0], table'[1], base', toMont');
    hide Kernel.Montgomery, Kernel.Computes, PowTable, Operands, Kernel.Fits;
    assert PowTable(ker, table[..], x, 2) by { TwoRows(ker, table[..], x); }
    assert PowTable(ker', table'[..], x', 2) by { TwoRows(ker', table'[..], x'); }
    for idx := 1 to TABLE_LEN / 2
      invariant PowTable(ker, table[..], x, 2 * idx) && PowTable(ker', table'[..], x', 2 * idx)
    {
      RowPair(ker, ker', table, table', idx, x, x');
    }
  }

  lemma TwoRows(ker: Kernel, rows: seq<seq<nat>>, base: nat)
    requires ker.Montgomery() && |rows| >= 2 && PowForm(ker, rows[0], base, 0) && PowForm(ker, rows[1], base, 1)
    ensures PowTable(ker, rows, base, 2)
  {
    forall i | 0 <= i < 2 ensures PowForm(ker, rows[i], base, i) {
      if i == 0 {} else {}
    }
  }

  /** Rows 2 * idx and 2 * idx + 1 of both tables. */
  method RowPair(ker: Kernel, ker': Kernel, table: array<seq<nat>>, table': array<seq<nat>>, idx: nat,
                 ghost x: nat, ghost x': nat)
    requires ker.Montgomery() && ker'.Montgomery() && ker.rounds == ker'.rounds && table != table'
    requires 1 <= idx && 2 * idx + 1 < table.Length == table'.Length
    requires PowTable(ker, table[..], x, 2 * idx) && PowTable(ker', table'[..], x', 2 * idx)
    modifies table, table'
    ensures PowTable(ker, table[..], x, 2 * idx + 2) && PowTable(ker', table'[..], x', 2 * idx + 2)
  {
    hide Kernel.Montgomery, PowForm;
    ghost var rows, rows' := table[..], table'[..];
    table[2 * idx], table'[2 * idx] := SquareDual(ker, ker', table[idx], table'[idx], x, x', idx, idx);
    TableGrows(ker, rows, table[..], x, 2 * idx);
    TableGrows(ker', rows', table'[..], x', 2 * idx);
    rows, rows' := table[..], table'[..];
    table[2 * idx + 1], table'[2 * idx + 1] :=
      MulDual(ker, ker', table[2 * idx], table[1], table'[2 * idx], table'[1], x, x', 2 * idx, 1, 2 * idx, 1);
    TableGrows(ker, rows, table[..], x, 2 * idx + 1);
    TableGrows(ker', rows', table'[..], x', 2 * idx + 1);
  }

  /** One window of both exponents: here the multipliers are extracted before the squarings. */
  method WindowPassDual(ker: Kernel, ker': Kernel, table: array<seq<nat>>, table': array<seq<nat>>,
                        expz: seq<nat>, expz': seq<nat>, redY: seq<nat>, redY': seq<nat>, bit: nat,
                        ghost x: nat, ghost x': nat)
    returns (out: seq<nat>, out': seq<nat>)
    requires ker.Montgomery() && table.Length == TABLE_LEN && PowTable(ker, table[..], x, TABLE_LEN)
    requires ker'.Montgomery() && table'.Length == TABLE_LEN && PowTable(ker', table'[..], x', TABLE_LEN)
    requires ker.rounds == ker'.rounds && Lanes(expz) && Lanes(expz') && bit / 64 + 1 < |expz| == |expz'|
    requires PowForm(ker, redY, x, Above(Val(LANE, expz, 0, |expz|), bit + EXP_WIN_SIZE))
    requires PowForm(ker', redY', x', Above(Val(LANE, expz', 0, |expz'|), bit + EXP_WIN_SIZE))
    ensures PowForm(ker, out, x, Above(Val(LANE, expz, 0, |expz|), bit))
    ensures PowForm(ker', out', x', Above(Val(LANE, expz', 0, |expz'|), bit))
  {
    hide Val, Above, Kernel.Montgomery, PowForm;
    ghost var e, e' := Val(LANE, expz, 0, |expz|), Val(LANE, expz', 0, |expz'|);
    TableWidth(ker, table[..], x);
    TableWidth(ker', table'[..], x');
    var idx := WindowIndex(expz, bit);
    var redX := ExtractMultiplier(table, idx, |ker.m|);
    var idx' := WindowIndex(expz', bit);
    var redX' := ExtractMultiplier(table', idx', |ker'.m|);
    assert PowForm(ker, redX, x, idx) && PowForm(ker', redX', x', idx');
    hide PowTable;
    out, out' := SquareFiveDual(ker, ker', redY, redY', x, x',
                                Above(e, bit + EXP_WIN_SIZE), Above(e', bit + EXP_WIN_SIZE));
    out, out' := MulDual(ker, ker', out, redX, out', redX', x, x',
                         32 * Above(e, bit + EXP_WIN_SIZE), idx, 32 * Above(e', bit + EXP_WIN_SIZE), idx');
    NextWindow(e, bit);
    NextWindow(e', bit);
  }

  /** ifma256_exp52x20_dual, ifma256_exp52x30_dual and ifma256_exp52x40_dual: two exponentiations at once. */
  method ExpDual(ker: Kernel, ker': Kernel, base: seq<nat>, base': seq<nat>, e: seq<nat>, e': seq<nat>,
                 toMont: seq<nat>, toMont': seq<nat>) returns (out: seq<nat>, out': seq<nat>)
    requires Operands(ker, base, toMont) && Operands(ker', base', toMont') && ker.rounds == ker'.rounds
    requires Lanes(e) && Lanes(e') && |e| == |e'| > 0
    ensures ker.Fits(out) && Num(out) <= ker.M() && ker'.Fits(out') && Num(out') <= ker'.M()
    ensures Cong(Num(out), Pow(Num(base), Val(LANE, e, 0, |e|)), ker.M())
    ensures Cong(Num(out'), Pow(Num(base'), Val(LANE, e', 0, |e'|)), ker'.M())
  {
    hide Pow, Cong, Num, Val, Above, PowForm, Factor, Rounds, PowTable;
    ghost var x, x', exponent, exponent' := Num(base), Num(base'), Val(LANE, e, 0, |e|), Val(LANE, e', 0, |e'|);
    var table, table' := BuildTableDual(ker, ker', base, base', toMont, toMont');
    var expz, expz' := Expand(e), Expand(e');
    var bits := 64 * |e|;
    var bit: int := bits - FirstWindow(bits);
    var redY := FirstPass(ker, table, expz, bits, x);
    var redY' := FirstPass(ker', table', expz', bits, x');
    bit := bit - EXP_WIN_SIZE;
    while bit >= 0
      invariant 0 <= bit + EXP_WIN_SIZE && bit < bits - EXP_WIN_SIZE && bit % EXP_WIN_SIZE == 0
      invariant PowTable(ker, table[..], x, TABLE_LEN) && PowTable(ker', table'[..], x', TABLE_LEN)
      invariant PowForm(ker, redY, x, Above(exponent, bit + EXP_WIN_SIZE))
      invariant PowForm(ker', redY', x', Above(exponent', bit + EXP_WIN_SIZE))
      decreases bit
    {
      redY, redY' := WindowPassDual(ker, ker', table, table', expz, expz', redY, redY', bit, x, x');
      bit := bit - EXP_WIN_SIZE;
    }
    AllBits(exponent);
    AllBits(exponent');
    FormFits(ker, redY, x, exponent);
    FormFits(ker', redY', x', exponent');
    out, out' := AmmDual(ker, ker', redY, One(|ker.m|), redY', One(|ker'.m|));
    RegularFromForm(ker, out, redY, One(|ker.m|), x, exponent);
    RegularFromForm(ker', out', redY', One(|ker'.m|), x', exponent');
  }

  /** The first window just selects a row. */
  method FirstPass(ker: Kernel, table: array<seq<nat>>, expz: seq<nat>, bits: nat, ghost x: nat)
    returns (redY: seq<nat>)
    requires ker.Montgomery() && table.Length == TABLE_LEN && PowTable(ker, table[..], x, TABLE_LEN)
    requires Lanes(expz) && |expz| >= 2 && bits == 64 * (|expz| - 1) && expz[|expz| - 1] == 0
    ensures PowForm(ker, redY, x, Above(Val(LANE, expz, 0, |expz|), bits - FirstWindow(bits)))
  {
    hide Val, Above;
    TableWidth(ker, table[..], x);
    var idx := FirstIndex(expz, bits);
    redY := ExtractMultiplier(table, idx, |ker.m|);
  }
}
