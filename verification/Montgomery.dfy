/** The word loops of Montgomery multiplication and reduction, on words of any base b. */
module Montgomery {
  import opened NatArith
  import opened Words

  /** r is the canonical representative of x * R^-1 modulo m. */
  ghost predicate IsRedc(r: int, x: int, R: nat, m: nat)
    requires m > 0
  {
    0 <= r < m && Cong(r * R, x, m)
  }

  /** The halves of a word product. */
  lemma WordProduct(b: nat, x: nat, y: nat)
    requires x < b && y < b && 2 <= b
    ensures Times(x * y / b, b) + x * y % b == Times(x, y) && 0 <= x * y / b <= b - 2
  {
    MulMonotone2(x, y, b - 1, b - 1);
    HighHalf(b, x * y);
  }

  lemma HighHalf(b: nat, p: nat)
    requires 2 <= b && p <= (b - 1) * (b - 1)
    ensures 0 <= p / b <= b - 2 && p == p / b * b + p % b
  {
    Distribute(b - 1, b, 1);
    var h := p / b;
    if h < 0 { MulMonotone(b, h, -1); }
    if h > b - 2 { MulMonotone(b, b - 1, h); }
  }

  /** (hi, lo) = t + x * y + c: MUL_AB, ADD_ABC and the wrapped addition of the high half. */
  method MulAddWord(b: nat, t: nat, x: nat, y: nat, c: nat) returns (hi: nat, lo: nat)
    requires 2 <= b && t < b && x < b && y < b && c < b
    ensures Times(hi, b) + lo == t + Times(x, y) + c && hi < b && lo < b
  {
    hide Times;
    WordProduct(b, x, y);
    var h, l := x * y / b, x * y % b;
    var k, r := AddAbc(b, t, l, c);
    MulAddSum(b, t, x, y, c, h, l, k, r);
    hi, lo := (k + h) % b, r;
  }

  lemma MulAddSum(b: nat, t: nat, x: nat, y: nat, c: nat, h: nat, l: nat, k: nat, r: nat)
    requires 2 <= b && t < b && x < b && y < b && c < b && k <= 2
    requires Times(h, b) + l == Times(x, y) && t + l + c == r + Twice(k, b)
    ensures Times(h + k, b) + r == t + Times(x, y) + c && h + k < b
    ensures (k + h) % b == h + k
  {
    Distribute(b, h, k);
    MulAddFits(b, t, x, y, c, h + k, r);
    SmallMod(h + k, b);
  }

  /** A word product plus two words fits in two words, so the high half never wraps. */
  lemma MulAddFits(b: nat, t: nat, x: nat, y: nat, c: nat, hi: nat, lo: nat)
    requires 2 <= b && t < b && x < b && y < b && c < b
    requires hi * b + lo == t + x * y + c
    ensures hi < b
  {
    MulMonotone2(x, y, b - 1, b - 1);
    Distribute(b - 1, b, 1);
    if hi >= b { MulMonotone(b, b, hi); }
  }

  /** k0 is the Montgomery factor of m0: k0 * m0 = -1 modulo the word base. */
  ghost predicate IsFactor(b: nat, k0: nat, m0: nat)
    requires b > 0
  {
    k0 < b && (k0 * m0 + 1) % b == 0
  }

  /** The low word of x * k0. */
  function Digit(b: nat, x: nat, k0: nat): (u: nat)
    requires b > 0
    ensures u < b
  {
    x * k0 % b
  }

  /** The quotient digit x * k0 mod b makes the low word vanish. */
  lemma QuotientDigit(b: nat, x: nat, m0: nat, k0: nat)
    requires b > 0 && IsFactor(b, k0, m0)
    ensures (x + m0 * Digit(b, x, k0)) % b == 0
  {
    var u := x * k0 % b;
    CongMod(x * k0, b);
    CongScale(u, x * k0, m0, b);
    CongRefl(x, b);
    CongAdd(x, x, m0 * u, m0 * (x * k0), b);
    var z := x + m0 * (x * k0);
    assert z == x * (k0 * m0 + 1) by {
      MulAssoc(m0, x, k0); MulAssoc(x, k0, m0); MulAssoc(x, m0, k0); Distribute(x, k0 * m0, 1);
    }
    CongFrom(k0 * m0 + 1, 0, b, (k0 * m0 + 1) / b);
    CongScale(k0 * m0 + 1, 0, x, b);
    CongTrans(x + m0 * u, z, 0, b);
  }

  lemma LowWordVanishes(b: nat, x: nat, m0: nat, k0: nat, hi: nat, z: nat)
    requires b > 0 && IsFactor(b, k0, m0) && z < b
    requires Times(hi, b) + z == x + Times(m0, Digit(b, x, k0))
    ensures z == 0
  {
    QuotientDigit(b, x, m0, k0);
    DivModUnique(x + m0 * Digit(b, x, k0), b, hi, z);
  }

  /** One row step of gs_mont_mul, multiplied through by b^j. */
  lemma RowStep(b: nat, j: nat, low: int, w: nat, hi: nat, hi': nat, ex: nat, lo: nat,
                t: nat, tv: int, x: nat, xv: int, y: nat, m: nat, mv: int, u: nat, exMu: nat, exAb: nat)
    requires j > 0
    requires Times(hi, b) + lo == t + Times(x, y) + exAb
    requires Times(hi', b) + w == lo + Times(m, u) + exMu
    requires Times(low, b) + At(b, exAb + exMu, j) == tv + Times(xv, y) + Times(mv, u)
    ensures Times(low + At(b, w, j - 1), b) + At(b, hi + hi', j + 1)
         == tv + At(b, t, j) + Times(xv + At(b, x, j), y) + Times(mv + At(b, m, j), u)
  {
    var pw, e := Pow(b, j), exAb + exMu;
    assert Pow(b, j + 1) == b * pw;
    RowShift(b, j, low, w);
    assert (hi + hi') * b + w == t + x * y + m * u + e by { Distribute(b, hi, hi'); }
    RowScale(b, pw, w, hi + hi', t, x, y, m, u, e);
    Distribute(y, xv, x * pw);
    Distribute(u, mv, m * pw);
  }

  lemma RowScale(b: nat, pw: nat, lo: int, ex': int, t: int, x: int, y: int, m: int, u: int, ex: int)
    requires ex' * b + lo == t + x * y + m * u + ex
    ensures lo * pw + ex' * (b * pw) == t * pw + (x * pw) * y + (m * pw) * u + ex * pw
  {
    MulAssoc(ex', b, pw);
    Distribute(pw, lo, ex' * b);
    Distribute(pw, t + x * y + m * u, ex);
    Distribute(pw, t + x * y, m * u);
    Distribute(pw, t, x * y);
    assert (x * y) * pw == (x * pw) * y by { MulAssoc(x, y, pw); MulAssoc(x, pw, y); }
    assert (m * u) * pw == (m * pw) * u by { MulAssoc(m, u, pw); MulAssoc(m, pw, u); }
  }

  lemma RowShift(b: nat, j: nat, v: int, w: int)
    requires j > 0
    ensures (v + w * Pow(b, j - 1)) * b == v * b + w * Pow(b, j)
  {
    Distribute(b, v, w * Pow(b, j - 1));
    MulAssoc(w, Pow(b, j - 1), b);
  }

  /** The first word of a row. */
  lemma RowStart(b: nat, hi: nat, hi': nat, lo: nat, t: nat, x: nat, y: nat, m: nat, u: nat)
    requires Times(hi, b) + lo == t + Times(x, y)
    requires Times(hi', b) + 0 == lo + Times(m, u)
    ensures At(b, hi + hi', 1) == At(b, t, 0) + Times(At(b, x, 0), y) + Times(At(b, m, 0), u)
  {
    PowZero(b);
    Distribute(b, hi, hi');
  }

  /** The last word of a row: the two carries and the carry of the previous row. */
  lemma RowEnd(b: nat, n: nat, low: int, w: nat, carry': nat, exAb: nat, exMu: nat, carry: nat, rhs: int)
    requires n > 0 && carry' <= 1 && carry <= 1 && exAb + exMu + carry == w + Twice(carry', b)
    requires Times(low, b) + At(b, exAb + exMu, n) == rhs
    ensures Times(low + At(b, w, n - 1) + Carry(b, carry', n), b) == rhs + Carry(b, carry, n)
  {
    RowShift(b, n, low, w);
    var pw, c' := Pow(b, n), if carry' == 1 then b else 0;
    Distribute(pw, w, c');
    Distribute(pw, exAb + exMu, carry);
    Distribute(b, low + w * Pow(b, n - 1), Carry(b, carry', n));
  }

  /** One round divides by b: the accumulated identity moves from weight b^i to b^(i+1). */
  lemma RoundStep(b: nat, i: nat, x: int, x': int, a: int, yi: nat, yv: int, u: nat, q: int, m: int)
    requires Times(x', b) == x + Times(a, yi) + Times(m, u)
    requires Times(x, Pow(b, i)) == Times(a, yv) + Times(q, m)
    ensures Times(x', Pow(b, i + 1)) == Times(a, yv + At(b, yi, i)) + Times(q + At(b, u, i), m)
  {
    var pw := Pow(b, i);
    MulAssoc(x', b, pw);
    Distribute(pw, x + a * yi, u * m);
    Distribute(pw, x, a * yi);
    MulAssoc(a, yi, pw);
    Distribute(a, yv, yi * pw);
    assert (u * m) * pw == (u * pw) * m by { MulAssoc(u, m, pw); MulAssoc(u, pw, m); }
    Distribute(m, q, u * pw);
  }

  /** The row of gs_mont_mul: t + a * yi + u * m, divided by b except for the top word. */
  method MulRow(b: nat, mem: array<nat>, t: nat, a: nat, m: nat, n: nat, yi: nat, k0: nat)
    returns (exAb: nat, exMu: nat, ghost u: nat)
    requires b >= 2 && WordMem(b, mem[..]) && yi < b
    requires 0 < n && t + n <= mem.Length && a + n <= mem.Length && m + n <= mem.Length
    requires (t + n <= a || a + n <= t) && (t + n <= m || m + n <= t)
    requires IsFactor(b, k0, mem[m])
    modifies mem
    ensures WordMem(b, mem[..]) && Frame(old(mem[..]), mem[..], t, t + n - 1) && exAb < b && exMu < b && u < b
    ensures Times(Val(b, mem[..], t, n - 1), b) + At(b, exAb + exMu, n)
         == Val(b, old(mem[..]), t, n) + Times(Val(b, old(mem[..]), a, n), yi)
            + Times(Val(b, old(mem[..]), m, n), u)
  {
    hide At, Pow, Times, Carry, Digit, IsFactor;
    ghost var s0 := mem[..];
    var ab, z;
    exAb, ab := MulAddWord(b, mem[t], mem[a], yi, 0);
    var v := Digit(b, ab, k0);
    u := v;
    exMu, z := MulAddWord(b, ab, mem[m], v, 0);
    LowWordVanishes(b, ab, mem[m], k0, exMu, z);
    RowStart(b, exAb, exMu, ab, s0[t], s0[a], yi, s0[m], v);
    TimesZero(b);
    for j := 1 to n
      invariant WordMem(b, mem[..]) && Frame(s0, mem[..], t, t + j - 1) && exAb < b && exMu < b
      invariant Times(Val(b, mem[..], t, j - 1), b) + At(b, exAb + exMu, j)
             == Val(b, s0, t, j) + Times(Val(b, s0, a, j), yi) + Times(Val(b, s0, m, j), v)
    {
      ghost var before, ab0, mu0 := mem[..], exAb, exMu;
      assert mem[t + j] == before[t + j] == s0[t + j];
      assert mem[a + j] == before[a + j] == s0[a + j] && mem[m + j] == before[m + j] == s0[m + j];
      exAb, ab := MulAddWord(b, mem[t + j], mem[a + j], yi, exAb);
      ghost var mid := ab;
      exMu, ab := MulAddWord(b, ab, mem[m + j], v, exMu);
      mem[t + j - 1] := ab;
      ValAgree(b, before, t, mem[..], t, j - 1);
      RowStep(b, j, Val(b, before, t, j - 1), ab, exAb, exMu, 0, mid, s0[t + j], Val(b, s0, t, j),
              s0[a + j], Val(b, s0, a, j), yi, s0[m + j], Val(b, s0, m, j), v, mu0, ab0);
    }
  }

  /** One round of gs_mont_mul: the buffer t with its carry becomes (t + a * yi + u * m) / b. */
  method MulRound(b: nat, mem: array<nat>, t: nat, a: nat, m: nat, n: nat, yi: nat, k0: nat, carry: nat)
    returns (carry': nat, ghost u: nat)
    requires b >= 2 && WordMem(b, mem[..]) && yi < b && carry <= 1
    requires 0 < n && t + n <= mem.Length && a + n <= mem.Length && m + n <= mem.Length
    requires (t + n <= a || a + n <= t) && (t + n <= m || m + n <= t)
    requires IsFactor(b, k0, mem[m])
    modifies mem
    ensures WordMem(b, mem[..]) && Frame(old(mem[..]), mem[..], t, t + n) && carry' <= 1 && u < b
    ensures Times(Val(b, mem[..], t, n) + Carry(b, carry', n), b)
         == Val(b, old(mem[..]), t, n) + Carry(b, carry, n)
            + Times(Val(b, old(mem[..]), a, n), yi) + Times(Val(b, old(mem[..]), m, n), u)
  {
    hide At, Pow, Times, Carry, Digit, IsFactor;
    ghost var s0 := mem[..];
    var exAb: nat, exMu: nat;
    exAb, exMu, u := MulRow(b, mem, t, a, m, n, yi, k0);
    ghost var before := mem[..];
    var w;
    carry', w := AddAbc(b, exAb, exMu, carry);
    mem[t + n - 1] := w;
    ValAgree(b, before, t, mem[..], t, n - 1);
    RowEnd(b, n, Val(b, before, t, n - 1), w, carry', exAb, exMu, carry,
           Val(b, s0, t, n) + Times(Val(b, s0, a, n), yi) + Times(Val(b, s0, m, n), u));
  }

  lemma TimesZero(x: int)
    ensures Times(0, x) == 0 && Times(x, 0) == 0 && Times(x, 1) == x
  {
  }

  /** All rounds of gs_mont_mul: buffer and carry hold (a * y + q * m) / b^n, which is below a + m. */
  method MulRounds(b: nat, mem: array<nat>, t: nat, a: nat, y: nat, m: nat, n: nat, k0: nat)
    returns (carry: nat, ghost q: nat)
    requires b >= 2 && WordMem(b, mem[..])
    requires 0 < n && t + n <= mem.Length && a + n <= mem.Length && m + n <= mem.Length && y + n <= mem.Length
    requires (t + n <= a || a + n <= t) && (t + n <= m || m + n <= t) && (t + n <= y || y + n <= t)
    requires IsFactor(b, k0, mem[m])
    modifies mem
    ensures WordMem(b, mem[..]) && Frame(old(mem[..]), mem[..], t, t + n) && carry <= 1
    ensures var x := Val(b, mem[..], t, n) + Carry(b, carry, n);
            var av, yv, mv := Val(b, old(mem[..]), a, n), Val(b, old(mem[..]), y, n), Val(b, old(mem[..]), m, n);
            Times(x, Pow(b, n)) == Times(av, yv) + Times(q, mv) && (av + mv > 0 ==> x < av + mv)
  {
    hide At, Pow, Times, Carry, Digit, IsFactor;
    ghost var s0 := mem[..];
    ClearWords(b, mem, t, n);
    carry, q := 0, 0;
    ghost var av, mv := Val(b, s0, a, n), Val(b, s0, m, n);
    RoundsStart(b, n, av, mv);
    for i := 0 to n
      invariant WordMem(b, mem[..]) && Frame(s0, mem[..], t, t + n) && carry <= 1 && q < Pow(b, i)
      invariant Times(Val(b, mem[..], t, n) + Carry(b, carry, n), Pow(b, i))
             == Times(av, Val(b, s0, y, i)) + Times(q, mv)
    {
      ghost var s1 := mem[..];
      ghost var x := Val(b, s1, t, n) + Carry(b, carry, n);
      FrameVals(b, s0, s1, t, t + n);
      assert mem[y + i] == s1[y + i] == s0[y + i];
      assert mem[m] == s1[m] == s0[m];
      ghost var u;
      carry, u := MulRound(b, mem, t, a, m, n, mem[y + i], k0, carry);
      RoundStep(b, i, x, Val(b, mem[..], t, n) + Carry(b, carry, n), av, s0[y + i], Val(b, s0, y, i), u, q, mv);
      DigitBound(b, i, q, u);
      q := q + At(b, u, i);
    }
    ValBound(b, s0, y, n);
    AccumulatorBound(Pow(b, n), Val(b, mem[..], t, n) + Carry(b, carry, n), av, Val(b, s0, y, n), q, mv);
  }

  lemma RoundsStart(b: nat, n: nat, a: int, m: int)
    ensures Times(0 + Carry(b, 0, n), Pow(b, 0)) == Times(a, 0) + Times(0, m) && 0 < Pow(b, 0)
  {
  }

  lemma AccumulatorBound(R: nat, x: int, a: nat, y: nat, q: nat, m: nat)
    requires Times(x, R) == Times(a, y) + Times(q, m) && y < R && q < R
    ensures a + m > 0 ==> x < a + m
  {
    if x >= a + m && a + m > 0 {
      MulMonotone(R, a + m, x);
      Distribute(R, a, m);
      MulMonotone(a, y, R - 1);
      MulMonotone(m, q, R - 1);
      Distribute(a, R, 1);
      Distribute(m, R, 1);
    }
  }

  /** The row of gs_mont_red at word p: p + u * m with the low word cleared, except for the top word. */
  method RedRow(b: nat, mem: array<nat>, p: nat, m: nat, n: nat, k0: nat) returns (exMu: nat, ghost u: nat)
    requires b >= 2 && WordMem(b, mem[..])
    requires 0 < n && p + n <= mem.Length && m + n <= mem.Length && (p + n <= m || m + n <= p)
    requires IsFactor(b, k0, mem[m])
    modifies mem
    ensures WordMem(b, mem[..]) && Frame(old(mem[..]), mem[..], p + 1, p + n) && exMu < b && u < b
    ensures Times(Val(b, mem[..], p + 1, n - 1), b) + At(b, exMu, n)
         == Val(b, old(mem[..]), p, n) + Times(Val(b, old(mem[..]), m, n), u)
  {
    hide At, Pow, Times, Carry, Digit, IsFactor;
    ghost var s0 := mem[..];
    ghost var r := p + 1;
    var v := Digit(b, mem[p], k0);
    u := v;
    TimesZero(b);
    TimesZero(0);
    var z;
    exMu, z := RedWord(b, mem[p], mem[m], v, 0);
    LowWordVanishes(b, mem[p], mem[m], k0, exMu, z);
    RowStart(b, 0, exMu, s0[p], s0[p], 0, 0, s0[m], v);
    AtZero(b, 0);
    for j := 1 to n
      invariant WordMem(b, mem[..]) && Frame(s0, mem[..], r, r + j - 1) && exMu < b
      invariant Times(Val(b, mem[..], r, j - 1), b) + At(b, exMu, j)
             == Val(b, s0, p, j) + Times(Val(b, s0, m, j), v)
    {
      ghost var before, mu0 := mem[..], exMu;
      assert mem[p + j] == before[p + j] == s0[p + j] && mem[m + j] == before[m + j] == s0[m + j];
      var w;
      exMu, w := RedWord(b, mem[p + j], mem[m + j], v, exMu);
      mem[p + j] := w;
      ValAgree(b, before, r, mem[..], r, j - 1);
      assert Val(b, mem[..], r, j) == Val(b, before, r, j - 1) + At(b, w, j - 1);
      AtZero(b, j);
      RowStep(b, j, Val(b, before, r, j - 1), w, 0, exMu, 0, s0[p + j], s0[p + j], Val(b, s0, p, j),
              0, 0, 0, s0[m + j], Val(b, s0, m, j), v, mu0, 0);
    }
  }

  /** One round of gs_mont_red at word p: adds u * m there, which clears word p. */
  method RedRound(b: nat, mem: array<nat>, p: nat, m: nat, n: nat, k0: nat, carry: nat)
    returns (carry': nat, ghost u: nat)
    requires b >= 2 && WordMem(b, mem[..]) && carry <= 1
    requires 0 < n && p + n + 1 <= mem.Length && m + n <= mem.Length && (p + n + 1 <= m || m + n <= p)
    requires IsFactor(b, k0, mem[m])
    modifies mem
    ensures WordMem(b, mem[..]) && Frame(old(mem[..]), mem[..], p + 1, p + n + 1) && carry' <= 1 && u < b
    ensures Times(Val(b, mem[..], p + 1, n) + Carry(b, carry', n), b)
         == Val(b, old(mem[..]), p, n + 1) + Carry(b, carry, n) + Times(Val(b, old(mem[..]), m, n), u)
  {
    hide At, Pow, Times, Carry, Digit, IsFactor;
    ghost var s0 := mem[..];
    var exMu: nat;
    exMu, u := RedRow(b, mem, p, m, n, k0);
    ghost var before := mem[..];
    ghost var r := p + 1;
    assert mem[p + n] == before[p + n] == s0[p + n];
    var w;
    carry', w := AddAbc(b, mem[p + n], exMu, carry);
    mem[p + n] := w;
    ValAgree(b, before, r, mem[..], r, n - 1);
    assert Val(b, mem[..], r, n) == Val(b, before, r, n - 1) + At(b, w, n - 1);
    assert Val(b, s0, p, n + 1) == Val(b, s0, p, n) + At(b, s0[p + n], n);
    AtSum(b, n, s0[p + n], exMu);
    RowEnd(b, n, Val(b, before, r, n - 1), w, carry', s0[p + n], exMu, carry,
           Val(b, s0, p, n) + At(b, s0[p + n], n) + Times(Val(b, s0, m, n), u));
  }

  lemma AtZero(b: nat, i: nat)
    ensures At(b, 0, i) == 0
  {
  }

  lemma AtSum(b: nat, i: nat, x: nat, y: nat)
    ensures At(b, x + y, i) == At(b, x, i) + At(b, y, i)
  {
    Distribute(Pow(b, i), x, y);
  }

  /** (ex, w) = p + m * u + ex: MUL_AB and the two ADD_AB of gs_mont_red. */
  method RedWord(b: nat, p: nat, m: nat, u: nat, ex: nat) returns (ex': nat, w: nat)
    requires 2 <= b && p < b && m < b && u < b && ex < b
    ensures Times(ex', b) + w == p + Times(m, u) + ex && ex' < b && w < b
  {
    hide Times;
    WordProduct(b, m, u);
    var muH, muL := m * u / b, m * u % b;
    var e, t := AddAbc(b, p, ex, 0);
    var c, r := AddAbc(b, t, muL, 0);
    MulAddSum(b, p, m, u, ex, muH, muL, e + c, r);
    ex', w := (e + (muH + c)) % b, r;
  }

  /** One round of gs_mont_red in terms of the whole remaining product. */
  lemma RedStep(b: nat, n: nat, i: nat, v0: int, c: nat, v1: int, c': nat, tail: int, mv: int, u: nat, q: int, p0: int)
    requires Times(v1 + Carry(b, c', n), b) == v0 + Carry(b, c, n) + Times(mv, u)
    requires Times(v0 + Times(Pow(b, n + 1), tail) + Carry(b, c, n), Pow(b, i)) == p0 + Times(q, mv)
    ensures Times(v1 + Times(Pow(b, n), tail) + Carry(b, c', n), Pow(b, i + 1)) == p0 + Times(q + At(b, u, i), mv)
  {
    var pw, x, x' := Pow(b, i), v1 + Carry(b, c', n), v0 + Carry(b, c, n);
    var y, t := Pow(b, n) * tail, mv * u;
    assert Pow(b, n + 1) * tail == y * b by { MulAssoc(b, Pow(b, n), tail); }
    Distribute(b, x, y);
    assert (x + y) * b == x' + y * b + t;
    MulAssoc(x + y, b, pw);
    Distribute(pw, x' + y * b, t);
    assert t * pw == (u * pw) * mv by { MulAssoc(mv, u, pw); }
    Distribute(mv, q, u * pw);
  }

  lemma RedAdvance(b: nat, s1: seq<nat>, s2: seq<nat>, p: nat, n: nat, k: nat, i: nat, c: nat, c': nat,
                   mv: int, u: nat, q: int, p0: int)
    requires p + n + 1 + k <= |s1| && Frame(s1, s2, p + 1, p + n + 1)
    requires Times(Val(b, s2, p + 1, n) + Carry(b, c', n), b) == Val(b, s1, p, n + 1) + Carry(b, c, n) + Times(mv, u)
    requires Times(Val(b, s1, p, n + 1 + k) + Carry(b, c, n), Pow(b, i)) == p0 + Times(q, mv)
    ensures Times(Val(b, s2, p + 1, n + k) + Carry(b, c', n), Pow(b, i + 1)) == p0 + Times(q + At(b, u, i), mv)
  {
    hide At, Pow, Times, Carry, Val;
    SplitTail(b, s1, p, n + 1, k);
    SplitTail(b, s2, p + 1, n, k);
    ValAgree(b, s1, p + n + 1, s2, p + n + 1, k);
    RedStep(b, n, i, Val(b, s1, p, n + 1), c, Val(b, s2, p + 1, n), c', Val(b, s1, p + n + 1, k), mv, u, q, p0);
  }

  /** All rounds of gs_mont_red: the high half and its carry hold (p0 + q * m) / b^n. */
  method RedRounds(b: nat, mem: array<nat>, p: nat, m: nat, n: nat, k0: nat) returns (carry: nat, ghost q: nat)
    requires b >= 2 && WordMem(b, mem[..])
    requires 0 < n && p + 2 * n <= mem.Length && m + n <= mem.Length && (p + 2 * n <= m || m + n <= p)
    requires IsFactor(b, k0, mem[m])
    modifies mem
    ensures WordMem(b, mem[..]) && Frame(old(mem[..]), mem[..], p, p + 2 * n) && carry <= 1
    ensures var x := Val(b, mem[..], p + n, n) + Carry(b, carry, n);
            var p0, mv := Val(b, old(mem[..]), p, 2 * n), Val(b, old(mem[..]), m, n);
            && Times(x, Pow(b, n)) == p0 + Times(q, mv)
            && (p0 < Times(mv, Pow(b, n)) ==> x < 2 * mv)
  {
    hide At, Pow, Times, Carry, IsFactor;
    ghost var s0 := mem[..];
    ghost var p0, mv := Val(b, s0, p, 2 * n), Val(b, s0, m, n);
    carry, q := 0, 0;
    RedStart(b, n, p0, mv);
    for i := 0 to n
      invariant WordMem(b, mem[..]) && Frame(s0, mem[..], p, p + 2 * n) && carry <= 1 && q < Pow(b, i)
      invariant Times(Val(b, mem[..], p + i, 2 * n - i) + Carry(b, carry, n), Pow(b, i)) == p0 + Times(q, mv)
    {
      ghost var s1, c := mem[..], carry;
      FrameVals(b, s0, s1, p, p + 2 * n);
      assert mem[m] == s1[m] == s0[m];
      ghost var u;
      carry, u := RedRound(b, mem, p + i, m, n, k0, carry);
      RedAdvance(b, s1, mem[..], p + i, n, n - 1 - i, i, c, carry, mv, u, q, p0);
      DigitBound(b, i, q, u);
      q := q + At(b, u, i);
    }
    RedBound(Pow(b, n), Val(b, mem[..], p + n, n) + Carry(b, carry, n), p0, q, mv);
  }

  lemma SplitTail(b: nat, s: seq<nat>, p: nat, n: nat, k: nat)
    requires p + n + k <= |s|
    ensures Val(b, s, p, n + k) == Val(b, s, p, n) + Times(Pow(b, n), Val(b, s, p + n, k))
  {
    ValSplit(b, s, p, n, k);
  }

  lemma RedStart(b: nat, n: nat, p0: int, m: int)
    ensures Times(p0 + Carry(b, 0, n), Pow(b, 0)) == p0 + Times(0, m) && 0 < Pow(b, 0)
  {
  }

  lemma RedBound(R: nat, x: int, p0: int, q: nat, m: nat)
    requires Times(x, R) == p0 + Times(q, m) && q < R
    ensures p0 < Times(m, R) ==> x < 2 * m
  {
    if p0 < m * R && x >= 2 * m {
      MulAssoc(2, m, R);
      MulMonotone(m, q, R);
      MulMonotone(R, 2 * m, x);
    }
  }

  /** The masked final subtraction: r = x - m when x >= m, else x, where x is src with its carry. */
  method FinalSubtract(b: nat, mem: array<nat>, r: nat, src: nat, m: nat, n: nat, carry: nat)
    requires b >= 2 && WordMem(b, mem[..]) && carry <= 1
    requires r + n <= mem.Length && src + n <= mem.Length && m + n <= mem.Length
    requires (r + n <= src || src + n <= r) && (r + n <= m || m + n <= r)
    requires Val(b, mem[..], src, n) + Carry(b, carry, n) < 2 * Val(b, mem[..], m, n)
    modifies mem
    ensures WordMem(b, mem[..]) && Frame(old(mem[..]), mem[..], r, r + n)
    ensures var x, mv := Val(b, old(mem[..]), src, n) + Carry(b, carry, n), Val(b, old(mem[..]), m, n);
            Val(b, mem[..], r, n) == if x >= mv then x - mv else x
  {
    hide At, Pow;
    ghost var s0 := mem[..];
    ValBound(b, s0, src, n);
    ValBound(b, s0, m, n);
    var borrow := Sub(b, mem, r, src, m, n);
    ghost var s1 := mem[..];
    FrameVals(b, s0, s1, r, r + n);
    ValBound(b, s1, r, n);
    var extension := (b + carry - borrow) % b;
    ExtensionIsZero(b, carry, borrow);
    MaskedReplace(b, mem, r, src, n, extension != 0);
  }

  lemma ExtensionIsZero(b: nat, carry: nat, borrow: nat)
    requires b >= 2 && carry <= 1 && borrow <= 1
    ensures (b + carry - borrow) % b == 0 <==> carry == borrow
  {
    if carry == borrow {
      DivModUnique(b, b, 1, 0);
    } else if carry == 1 {
      DivModUnique(b + 1, b, 1, 1);
    } else {
      SmallMod(b - 1, b);
    }
  }

  /** A value x with x * R = y + q * m below 2m becomes canonical by at most one subtraction of m. */
  lemma RedcFromQuotient(x: nat, y: int, q: int, R: nat, m: nat)
    requires m > 0 && Times(x, R) == y + Times(q, m) && x < 2 * m
    ensures IsRedc(if x >= m then x - m else x, y, R, m)
  {
    var r := if x >= m then x - m else x;
    Distribute(R, x, m);
    Distribute(m, q, R);
    CongFrom(r * R, y, m, if x >= m then q - R else q);
  }

  /** Two canonical results for the same product are equal when R is invertible modulo m. */
  lemma RedcUnique(r: int, r': int, x: int, x': int, R: nat, y: int, m: nat)
    requires m > 0 && Cong(R * y, 1, m) && Cong(x, x', m)
    requires IsRedc(r, x, R, m) && IsRedc(r', x', R, m)
    ensures r == r'
  {
    CongTrans(r * R, x, x', m);
    CongSym(r' * R, x', m);
    CongTrans(r * R, x', r' * R, m);
    CongCancel(r, r', R, y, m);
    CongUnique(r, r', m);
  }

  /** One row of schoolbook multiplication: r = r + a * yi, returning the word carried out. */
  method MulAddRow(b: nat, mem: array<nat>, r: nat, a: nat, n: nat, yi: nat) returns (c: nat)
    requires b >= 2 && WordMem(b, mem[..]) && yi < b
    requires r + n <= mem.Length && a + n <= mem.Length && (r + n <= a || a + n <= r)
    modifies mem
    ensures WordMem(b, mem[..]) && Frame(old(mem[..]), mem[..], r, r + n) && c < b
    ensures Val(b, mem[..], r, n) + At(b, c, n) == Val(b, old(mem[..]), r, n) + Times(Val(b, old(mem[..]), a, n), yi)
  {
    hide At, Pow, Times;
    ghost var s0 := mem[..];
    c := 0;
    AtZero(b, 0);
    TimesZero(yi);
    for j := 0 to n
      invariant WordMem(b, mem[..]) && Frame(s0, mem[..], r, r + j) && c < b
      invariant Val(b, mem[..], r, j) + At(b, c, j) == Val(b, s0, r, j) + Times(Val(b, s0, a, j), yi)
    {
      ghost var before, c0 := mem[..], c;
      assert mem[r + j] == s0[r + j] && mem[a + j] == s0[a + j];
      var w;
      c, w := MulAddWord(b, mem[r + j], mem[a + j], yi, c);
      mem[r + j] := w;
      ValAgree(b, before, r, mem[..], r, j);
      RowAdd(b, j, w, c, s0[r + j], s0[a + j], Val(b, s0, a, j), yi, c0);
    }
  }

  lemma RowAdd(b: nat, j: nat, w: nat, c': nat, t: nat, x: nat, xv: int, y: nat, c: nat)
    requires Times(c', b) + w == t + Times(x, y) + c
    ensures At(b, w, j) + At(b, c', j + 1) + Times(xv, y)
         == At(b, t, j) + Times(xv + At(b, x, j), y) + At(b, c, j)
  {
    RowScale(b, Pow(b, j), w, c', t, x, y, 0, 0, c);
    Distribute(y, xv, x * Pow(b, j));
  }

  /** cpMulAdc_BNU_school by its integer meaning: the 2n-word product at p. */
  method MulSchool(b: nat, mem: array<nat>, p: nat, a: nat, y: nat, n: nat)
    requires b >= 2 && WordMem(b, mem[..])
    requires p + 2 * n <= mem.Length && a + n <= mem.Length && y + n <= mem.Length
    requires (p + 2 * n <= a || a + n <= p) && (p + 2 * n <= y || y + n <= p)
    modifies mem
    ensures WordMem(b, mem[..]) && Frame(old(mem[..]), mem[..], p, p + 2 * n)
    ensures Val(b, mem[..], p, 2 * n) == Times(Val(b, old(mem[..]), a, n), Val(b, old(mem[..]), y, n))
  {
    hide At, Pow, Times;
    ghost var s0 := mem[..];
    ghost var av := Val(b, s0, a, n);
    ClearWords(b, mem, p, n);
    TimesZero(av);
    for i := 0 to n
      invariant WordMem(b, mem[..]) && Frame(s0, mem[..], p, p + 2 * n)
      invariant Val(b, mem[..], p, i + n) == Times(av, Val(b, s0, y, i))
    {
      ghost var s1 := mem[..];
      FrameVals(b, s0, s1, p, p + 2 * n);
      assert mem[y + i] == s0[y + i];
      var c := MulAddRow(b, mem, p + i, a, n, mem[y + i]);
      ghost var s2 := mem[..];
      mem[p + i + n] := c;
      SchoolStep(b, s1, s2, mem[..], p, i, n, c, av, s0[y + i], Val(b, s0, y, i));
    }
  }

  lemma SchoolStep(b: nat, s1: seq<nat>, s2: seq<nat>, s3: seq<nat>, p: nat, i: nat, n: nat, c: nat,
                   av: int, yi: nat, yv: int)
    requires p + i + n < |s1| && Frame(s1, s2, p + i, p + i + n) && s3 == s2[p + i + n := c]
    requires Val(b, s2, p + i, n) + At(b, c, n) == Val(b, s1, p + i, n) + Times(av, yi)
    requires Val(b, s1, p, i + n) == Times(av, yv)
    ensures Val(b, s3, p, i + n + 1) == Times(av, yv + At(b, yi, i))
  {
    hide Pow;
    ValSplit(b, s1, p, i, n);
    ValSplit(b, s3, p, i, n + 1);
    ValAgree(b, s1, p, s3, p, i);
    ValAgree(b, s2, p + i, s3, p + i, n);
    Distribute(Pow(b, i), Val(b, s1, p + i, n), av * yi);
    MulAssoc(av, yi, Pow(b, i));
    Distribute(av, yv, yi * Pow(b, i));
  }
}
