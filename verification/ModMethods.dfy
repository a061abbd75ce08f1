/** The arithmetic methods of the engine: first their word work, then their use of the pool. */
module ModMethods {
  import opened NatArith
  import opened Words
  import opened Montgomery
  import opened Engine

  /** The canonical representative of x modulo m. */
  function Residue(x: int, m: nat): (r: int)
    requires m > 0
    ensures 0 <= r < m && Cong(r, x, m)
  {
    CongMod(x, m);
    x % m
  }

  /** A value below 2m, or from -m, needs one correction by m to become canonical. */
  lemma CorrectOnce(x: int, m: nat)
    requires m > 0 && -(m as int) <= x < 2 * m
    ensures x % m == if x >= m then x - m else if x < 0 then x + m else x
  {
    if x >= m {
      DivModUnique(x, m, 1, x - m);
    } else if x < 0 {
      DivModUnique(x, m, -1, x + m);
    } else {
      SmallMod(x, m);
    }
  }

  /** r = x + y mod m with scratch t. */
  method AddWords(b: nat, mem: array<nat>, r: nat, x: nat, y: nat, m: nat, t: nat, n: nat)
    requires b >= 2 && WordMem(b, mem[..])
    requires r + n <= mem.Length && x + n <= mem.Length && y + n <= mem.Length
    requires m + n <= mem.Length && t + n <= mem.Length
    requires Compatible(r, x, n) && Compatible(r, y, n)
    requires (r + n <= m || m + n <= r) && (r + n <= t || t + n <= r) && (t + n <= m || m + n <= t)
    requires Val(b, mem[..], x, n) < Val(b, mem[..], m, n) && Val(b, mem[..], y, n) < Val(b, mem[..], m, n)
    modifies mem
    ensures WordMem(b, mem[..]) && Frame2(old(mem[..]), mem[..], r, r + n, t, t + n)
    ensures Val(b, mem[..], r, n)
         == (Val(b, old(mem[..]), x, n) + Val(b, old(mem[..]), y, n)) % Val(b, old(mem[..]), m, n)
  {
    hide Val, Pow;
    ghost var s0 := mem[..];
    ValBound(b, s0, m, n);
    CorrectOnce(Val(b, s0, x, n) + Val(b, s0, y, n), Val(b, s0, m, n));
    var carry := Add(b, mem, r, x, y, n);
    FrameVals(b, s0, mem[..], r, r + n);
    ghost var s1 := mem[..];
    ValBound(b, s1, r, n);
    var borrow := Sub(b, mem, t, r, m, n);
    FrameVals(b, s1, mem[..], t, t + n);
    ValBound(b, mem[..], t, n);
    ExtensionIsZero(b, carry, borrow);
    MaskedReplace(b, mem, r, t, n, (b + carry - borrow) % b == 0);
  }

  /** r = x - y mod m with scratch t. */
  method SubWords(b: nat, mem: array<nat>, r: nat, x: nat, y: nat, m: nat, t: nat, n: nat)
    requires b >= 2 && WordMem(b, mem[..])
    requires r + n <= mem.Length && x + n <= mem.Length && y + n <= mem.Length
    requires m + n <= mem.Length && t + n <= mem.Length
    requires Compatible(r, x, n) && Compatible(r, y, n)
    requires (r + n <= m || m + n <= r) && (r + n <= t || t + n <= r) && (t + n <= m || m + n <= t)
    requires Val(b, mem[..], x, n) < Val(b, mem[..], m, n) && Val(b, mem[..], y, n) < Val(b, mem[..], m, n)
    modifies mem
    ensures WordMem(b, mem[..]) && Frame2(old(mem[..]), mem[..], r, r + n, t, t + n)
    ensures Val(b, mem[..], r, n)
         == (Val(b, old(mem[..]), x, n) as int - Val(b, old(mem[..]), y, n)) % Val(b, old(mem[..]), m, n)
  {
    hide Val, Pow;
    ghost var s0 := mem[..];
    ValBound(b, s0, m, n);
    CorrectOnce(Val(b, s0, x, n) as int - Val(b, s0, y, n), Val(b, s0, m, n));
    var borrow := Sub(b, mem, r, x, y, n);
    FrameVals(b, s0, mem[..], r, r + n);
    ghost var s1 := mem[..];
    ValBound(b, s1, r, n);
    var carry := Add(b, mem, t, r, m, n);
    FrameVals(b, s1, mem[..], t, t + n);
    ValBound(b, mem[..], t, n);
    MaskedReplace(b, mem, r, t, n, borrow != 0);
  }

  /** r = m - x mod m with scratch t. */
  method NegWords(b: nat, mem: array<nat>, r: nat, x: nat, m: nat, t: nat, n: nat)
    requires b >= 2 && WordMem(b, mem[..])
    requires r + n <= mem.Length && x + n <= mem.Length && m + n <= mem.Length && t + n <= mem.Length
    requires Compatible(r, x, n)
    requires (r + n <= m || m + n <= r) && (r + n <= t || t + n <= r) && (t + n <= m || m + n <= t)
    requires Val(b, mem[..], x, n) < Val(b, mem[..], m, n)
    modifies mem
    ensures WordMem(b, mem[..]) && Frame2(old(mem[..]), mem[..], r, r + n, t, t + n)
    ensures Val(b, mem[..], r, n) == (0 - Val(b, old(mem[..]), x, n) as int) % Val(b, old(mem[..]), m, n)
  {
    hide Val, Pow;
    ghost var s0 := mem[..];
    ValBound(b, s0, m, n);
    CorrectOnce(0 - Val(b, s0, x, n) as int, Val(b, s0, m, n));
    var borrow := Sub(b, mem, r, m, x, n);
    FrameVals(b, s0, mem[..], r, r + n);
    ghost var s1 := mem[..];
    ValBound(b, s1, r, n);
    var borrow' := Sub(b, mem, t, r, m, n);
    FrameVals(b, s1, mem[..], t, t + n);
    ValBound(b, mem[..], t, n);
    ExtensionIsZero(b, borrow, borrow');
    MaskedReplace(b, mem, r, t, n, (b + borrow - borrow') % b == 0);
  }

  /** t = m when the mask is all ones, else 0. */
  method MaskInto(b: nat, mem: array<nat>, t: nat, m: nat, n: nat, mask: bool)
    requires b >= 2 && WordMem(b, mem[..])
    requires m + n <= mem.Length && t + n <= mem.Length && (t + n <= m || m + n <= t)
    modifies mem
    ensures WordMem(b, mem[..]) && Frame(old(mem[..]), mem[..], t, t + n)
    ensures Val(b, mem[..], t, n) == if mask then Val(b, old(mem[..]), m, n) else 0
  {
    hide Pow, At;
    ghost var s0 := mem[..];
    for i := 0 to n
      invariant WordMem(b, mem[..]) && Frame(s0, mem[..], t, t + i)
      invariant Val(b, mem[..], t, i) == if mask then Val(b, s0, m, i) else 0
    {
      ghost var before := mem[..];
      assert mem[m + i] == s0[m + i];
      mem[t + i] := if mask then mem[m + i] else 0;
      ValAgree(b, before, t, mem[..], t, i);
      AtZero(b, i);
    }
  }

  /** r = x / 2 mod m, through n + 1 words of scratch at t. */
  method HalfWords(b: nat, mem: array<nat>, r: nat, x: nat, m: nat, t: nat, n: nat)
    requires b >= 2 && b % 2 == 0 && WordMem(b, mem[..]) && 0 < n
    requires r + n <= mem.Length && x + n <= mem.Length && m + n <= mem.Length && t + n + 1 <= mem.Length
    requires (r + n <= t || t + n + 1 <= r) && (x + n <= t || t + n + 1 <= x) && (t + n + 1 <= m || m + n <= t)
    requires Val(b, mem[..], x, n) < Val(b, mem[..], m, n) && Val(b, mem[..], m, n) % 2 == 1
    modifies mem
    ensures WordMem(b, mem[..]) && Frame2(old(mem[..]), mem[..], r, r + n, t, t + n + 1)
    ensures var h, mv := Val(b, mem[..], r, n), Val(b, old(mem[..]), m, n);
            h < mv && 2 * h % mv == Val(b, old(mem[..]), x, n)
  {
    hide Pow, At, Val;
    ghost var s0 := mem[..];
    ghost var xv, mv := Val(b, s0, x, n), Val(b, s0, m, n);
    WordParity(b, s0, x, n);
    var odd := mem[x] % 2 == 1;
    MaskInto(b, mem, t, m, n, odd);
    FrameVals(b, s0, mem[..], t, t + n);
    var carry := Add(b, mem, t, t, x, n);
    ghost var s2 := mem[..];
    mem[t + n] := carry;
    ValAgree(b, s2, t, mem[..], t, n);
    TopCarry(b, mem[..], t, n, carry);
    Words.Halve(b, mem, t, t, n + 1);
    HalfIsCanonical(xv, mv);
    ValBound(b, s0, m, n);
    TopWordZero(b, mem[..], t, n, mv);
    Copy(b, mem, r, t, n);
  }

  lemma TopCarry(b: nat, s: seq<nat>, p: nat, n: nat, carry: nat)
    requires p + n + 1 <= |s| && s[p + n] == carry <= 1
    ensures Val(b, s, p, n + 1) == Val(b, s, p, n) + Carry(b, carry, n)
  {
  }

  lemma WordParity(b: nat, s: seq<nat>, p: nat, n: nat)
    requires b > 0 && b % 2 == 0 && 0 < n && p + n <= |s|
    ensures Val(b, s, p, n) % 2 == s[p] % 2
  {
    ValAgree(b, s, p, s[p..p + n], 0, n);
    LowWordParity(b, s[p..p + n], n);
  }

  lemma HalfIsCanonical(x: nat, m: nat)
    requires x < m && m % 2 == 1
    ensures var h := (x + if x % 2 == 1 then m else 0) / 2; h < m && 2 * h % m == x
  {
    CorrectOnce(2 * ((x + if x % 2 == 1 then m else 0) / 2), m);
  }

  lemma TopWordZero(b: nat, s: seq<nat>, p: nat, n: nat, m: nat)
    requires p + n + 1 <= |s| && Val(b, s, p, n + 1) < m <= Pow(b, n)
    ensures Val(b, s, p, n + 1) == Val(b, s, p, n)
  {
    if s[p + n] > 0 { MulMonotone(Pow(b, n), 1, s[p + n]); }
  }

  /** gs_mont_mul in one pass: r = x * y / b^n mod m; y may exceed m. */
  method MulWords(b: nat, mem: array<nat>, r: nat, x: nat, y: nat, m: nat, t: nat, n: nat, k0: nat)
    requires b >= 2 && WordMem(b, mem[..]) && 0 < n
    requires r + n <= mem.Length && x + n <= mem.Length && y + n <= mem.Length
    requires m + n <= mem.Length && t + n <= mem.Length
    requires (r + n <= m || m + n <= r) && (r + n <= t || t + n <= r)
    requires (t + n <= m || m + n <= t) && (t + n <= x || x + n <= t) && (t + n <= y || y + n <= t)
    requires IsFactor(b, k0, mem[m]) && Val(b, mem[..], x, n) < Val(b, mem[..], m, n)
    modifies mem
    ensures WordMem(b, mem[..]) && Frame2(old(mem[..]), mem[..], r, r + n, t, t + n)
    ensures IsRedc(Val(b, mem[..], r, n), Val(b, old(mem[..]), x, n) * Val(b, old(mem[..]), y, n),
                   Pow(b, n), Val(b, old(mem[..]), m, n))
  {
    hide Val, Pow, IsFactor, IsRedc, Times, Carry;
    ghost var s0 := mem[..];
    var carry, q := MulRounds(b, mem, t, x, y, m, n, k0);
    FrameVals(b, s0, mem[..], t, t + n);
    ghost var v := Val(b, mem[..], t, n) + Carry(b, carry, n);
    RedcOfProduct(v, Val(b, s0, x, n), Val(b, s0, y, n), q, Pow(b, n), Val(b, s0, m, n));
    FinalSubtract(b, mem, r, t, m, n, carry);
  }

  lemma RedcOfProduct(v: nat, x: nat, y: nat, q: int, R: nat, m: nat)
    requires m > 0 && Times(v, R) == Times(x, y) + Times(q, m) && v < 2 * m
    ensures IsRedc(if v >= m then v - m else v, x * y, R, m)
  {
    RedcFromQuotient(v, x * y, q, R, m);
  }

  /** gs_mont_red: r = p / b^n mod m for any 2n-word p below m * b^n, which is consumed. */
  method RedWords(b: nat, mem: array<nat>, r: nat, p: nat, m: nat, n: nat, k0: nat)
    requires b >= 2 && WordMem(b, mem[..]) && 0 < n
    requires r + n <= mem.Length && m + n <= mem.Length && p + 2 * n <= mem.Length
    requires (r + n <= m || m + n <= r) && (r + n <= p || p + 2 * n <= r) && (p + 2 * n <= m || m + n <= p)
    requires IsFactor(b, k0, mem[m])
    requires Val(b, mem[..], p, 2 * n) < Times(Val(b, mem[..], m, n), Pow(b, n))
    modifies mem
    ensures WordMem(b, mem[..]) && Frame2(old(mem[..]), mem[..], r, r + n, p, p + 2 * n)
    ensures IsRedc(Val(b, mem[..], r, n), Val(b, old(mem[..]), p, 2 * n), Pow(b, n), Val(b, old(mem[..]), m, n))
  {
    hide Val, Pow, IsFactor, IsRedc, Times, Carry;
    ghost var s0 := mem[..];
    var carry, q := RedRounds(b, mem, p, m, n, k0);
    FrameVals(b, s0, mem[..], p, p + 2 * n);
    RedcFromQuotient(Val(b, mem[..], p + n, n) + Carry(b, carry, n), Val(b, s0, p, 2 * n), q,
                     Pow(b, n), Val(b, s0, m, n));
    FinalSubtract(b, mem, r, p + n, m, n, carry);
  }

  /** gs_mont_mul in two passes, product then reduction: the same result as in one pass. */
  method MulThenRedWords(b: nat, mem: array<nat>, r: nat, x: nat, y: nat, m: nat, p: nat, n: nat, k0: nat)
    requires b >= 2 && WordMem(b, mem[..]) && 0 < n
    requires r + n <= mem.Length && x + n <= mem.Length && y + n <= mem.Length
    requires m + n <= mem.Length && p + 2 * n <= mem.Length
    requires (r + n <= m || m + n <= r) && (r + n <= p || p + 2 * n <= r) && (p + 2 * n <= m || m + n <= p)
    requires (p + 2 * n <= x || x + n <= p) && (p + 2 * n <= y || y + n <= p)
    requires IsFactor(b, k0, mem[m])
    requires Val(b, mem[..], x, n) < Val(b, mem[..], m, n) || Val(b, mem[..], y, n) < Val(b, mem[..], m, n)
    modifies mem
    ensures WordMem(b, mem[..]) && Frame2(old(mem[..]), mem[..], r, r + n, p, p + 2 * n)
    ensures IsRedc(Val(b, mem[..], r, n), Val(b, old(mem[..]), x, n) * Val(b, old(mem[..]), y, n),
                   Pow(b, n), Val(b, old(mem[..]), m, n))
  {
    hide Val, Pow, IsFactor, IsRedc, Times;
    ghost var s0 := mem[..];
    ValBound(b, s0, x, n);
    ValBound(b, s0, y, n);
    ProductBelow(Val(b, s0, x, n), Val(b, s0, y, n), Val(b, s0, m, n), Pow(b, n));
    MulSchool(b, mem, p, x, y, n);
    FrameVals(b, s0, mem[..], p, p + 2 * n);
    assert mem[m] == s0[m];
    RedWords(b, mem, r, p, m, n, k0);
  }

  lemma ProductBelow(x: nat, y: nat, m: nat, R: nat)
    requires x < R && y < R && (x < m || y < m)
    ensures Times(x, y) < Times(m, R) && Times(x, y) == x * y
  {
    if x < m {
      MulMonotone2(x, y, m - 1, R);
      Distribute(R, m, 1);
    } else {
      MulMonotone2(x, y, R, m - 1);
      Distribute(R, m, 1);
    }
  }

  /** The reduction of x extended by zeros to 2n words. */
  method ExpandThenRedWords(b: nat, mem: array<nat>, r: nat, x: nat, m: nat, p: nat, n: nat, k0: nat)
    requires b >= 2 && WordMem(b, mem[..]) && 0 < n
    requires r + n <= mem.Length && x + n <= mem.Length && m + n <= mem.Length && p + 2 * n <= mem.Length
    requires (r + n <= m || m + n <= r) && (r + n <= p || p + 2 * n <= r) && (p + 2 * n <= m || m + n <= p)
    requires p + 2 * n <= x || x + n <= p
    requires IsFactor(b, k0, mem[m]) && Val(b, mem[..], m, n) > 0
    modifies mem
    ensures WordMem(b, mem[..]) && Frame2(old(mem[..]), mem[..], r, r + n, p, p + 2 * n)
    ensures IsRedc(Val(b, mem[..], r, n), Val(b, old(mem[..]), x, n), Pow(b, n), Val(b, old(mem[..]), m, n))
  {
    hide Val, Pow, IsFactor, IsRedc, Times;
    ghost var s0 := mem[..];
    Copy(b, mem, p, x, n);
    ghost var s1 := mem[..];
    FrameVals(b, s0, s1, p, p + n);
    ClearWords(b, mem, p + n, n);
    FrameVals(b, s1, mem[..], p + n, p + 2 * n);
    Extended(b, mem[..], p, n);
    ValBound(b, s0, x, n);
    BelowMultiple(Val(b, s0, x, n), Val(b, s0, m, n), Pow(b, n));
    assert mem[m] == s1[m] == s0[m];
    RedWords(b, mem, r, p, m, n, k0);
  }

  /** gs_mont_add. */
  method MontAdd(e: ModEngine, pr: nat, pa: nat, pb: nat) returns (ok: bool)
    requires e.Ready() && e.Writable(pr) && e.Held(pa) && e.Held(pb)
    requires Compatible(pr, pa, e.modLen) && Compatible(pr, pb, e.modLen)
    requires e.poolUsed + 1 <= e.poolLen ==> e.Num(e.mem[..], pa) < e.M() && e.Num(e.mem[..], pb) < e.M()
    modifies e.mem, e`poolUsed
    ensures e.poolUsed == old(e.poolUsed) && e.Ready() && e.M() == old(e.M())
    ensures e.Wrote(old(e.mem[..]), e.mem[..], pr) && (ok <==> e.poolUsed + 1 <= e.poolLen)
    ensures !ok ==> e.mem[..] == old(e.mem[..])
    ensures ok ==>
              e.Num(e.mem[..], pr) == Residue(e.Num(old(e.mem[..]), pa) + e.Num(old(e.mem[..]), pb), e.M())
  {
    hide Val, Pow, IsFactor, ModEngine.Slot;
    ghost var s0 := e.mem[..];
    var buffer := e.PoolAlloc(1);
    if buffer == None { return false; }
    e.TopBlock(1);
    AddWords(e.B(), e.mem, pr, pa, pb, e.modulus, buffer.value, e.modLen);
    e.PoolFree(1);
    e.Keeps(s0, e.mem[..], pr);
    ok := true;
  }

  /** gs_mont_sub. */
  method MontSub(e: ModEngine, pr: nat, pa: nat, pb: nat) returns (ok: bool)
    requires e.Ready() && e.Writable(pr) && e.Held(pa) && e.Held(pb)
    requires Compatible(pr, pa, e.modLen) && Compatible(pr, pb, e.modLen)
    requires e.Num(e.mem[..], pa) < e.M() && e.Num(e.mem[..], pb) < e.M()
    modifies e.mem, e`poolUsed
    ensures e.poolUsed == old(e.poolUsed) && e.Ready() && e.M() == old(e.M())
    ensures e.Wrote(old(e.mem[..]), e.mem[..], pr) && (ok <==> e.poolUsed + 1 <= e.poolLen)
    ensures !ok ==> e.mem[..] == old(e.mem[..])
    ensures ok ==> 
              e.Num(e.mem[..], pr) == Residue(e.Num(old(e.mem[..]), pa) as int - e.Num(old(e.mem[..]), pb), e.M())
  {
    hide Val, Pow, IsFactor, ModEngine.Slot;
    ghost var s0 := e.mem[..];
    var buffer := e.PoolAlloc(1);
    if buffer == None { return false; }
    e.TopBlock(1);
    SubWords(e.B(), e.mem, pr, pa, pb, e.modulus, buffer.value, e.modLen);
    e.PoolFree(1);
    e.Keeps(s0, e.mem[..], pr);
    ok := true;
  }

  /** gs_mont_neg. */
  method MontNeg(e: ModEngine, pr: nat, pa: nat) returns (ok: bool)
    requires e.Ready() && e.Writable(pr) && e.Held(pa) && Compatible(pr, pa, e.modLen)
    requires e.Num(e.mem[..], pa) < e.M()
    modifies e.mem, e`poolUsed
    ensures e.poolUsed == old(e.poolUsed) && e.Ready() && e.M() == old(e.M())
    ensures e.Wrote(old(e.mem[..]), e.mem[..], pr) && (ok <==> e.poolUsed + 1 <= e.poolLen)
    ensures !ok ==> e.mem[..] == old(e.mem[..])
    ensures ok ==> e.Num(e.mem[..], pr) == Residue(0 - e.Num(old(e.mem[..]), pa) as int, e.M())
  {
    hide Val, Pow, IsFactor, ModEngine.Slot;
    ghost var s0 := e.mem[..];
    var buffer := e.PoolAlloc(1);
    if buffer == None { return false; }
    e.TopBlock(1);
    NegWords(e.B(), e.mem, pr, pa, e.modulus, buffer.value, e.modLen);
    e.PoolFree(1);
    e.Keeps(s0, e.mem[..], pr);
    ok := true;
  }

  /** gs_mont_div2: one element is reserved, but the sum needs its carry word as well. That word is the
      first of the next element, which must therefore be free. */
  method MontDiv2(e: ModEngine, pr: nat, pa: nat) returns (ok: bool)
    requires e.Ready() && e.Writable(pr) && e.Held(pa)
    requires e.Num(e.mem[..], pa) < e.M()
    requires CarryWordFits(e)
    modifies e.mem, e`poolUsed
    ensures e.poolUsed == old(e.poolUsed) && e.Ready() && e.M() == old(e.M())
    ensures e.Wrote(old(e.mem[..]), e.mem[..], pr) && (ok <==> e.poolUsed + 1 <= e.poolLen)
    ensures !ok ==> e.mem[..] == old(e.mem[..])
    ensures ok ==> 
              e.Num(e.mem[..], pr) < e.M() && 2 * e.Num(e.mem[..], pr) % e.M() == e.Num(old(e.mem[..]), pa)
  {
    hide Val, Pow, IsFactor, ModEngine.Slot;
    ghost var s0 := e.mem[..];
    var buffer := e.PoolAlloc(1);
    if buffer == None { return false; }
    e.TopBlock(1);
    e.SlotOrder(e.poolUsed, e.poolLen);
    HalfWords(e.B(), e.mem, pr, pa, e.modulus, buffer.value, e.modLen);
    e.PoolFree(1);
    e.Keeps(s0, e.mem[..], pr);
    ok := true;
  }

  /** Either no element can be reserved, or a second one is left. */
  predicate CarryWordFits(e: ModEngine)
    reads e
  {
    e.poolUsed + 1 <= e.poolLen ==> e.poolUsed + 2 <= e.poolLen
  }

  /** The carry word of gs_mont_div2 stays inside the pool exactly under that condition. */
  lemma CarryWordIsInPool(e: ModEngine)
    requires e.Layout() && e.poolUsed + 1 <= e.poolLen
    ensures e.Slot(e.poolUsed) + e.modLen < e.Slot(e.poolLen) <==> CarryWordFits(e)
  {
    e.SlotOrder(e.poolUsed, e.poolUsed + 1);
    e.SlotMonotone(e.poolUsed + 1, e.poolLen);
    if e.poolUsed + 2 <= e.poolLen { e.SlotOrder(e.poolUsed + 1, e.poolLen); }
  }

  /** gs_mont_mul2. */
  method MontMul2(e: ModEngine, pr: nat, pa: nat) returns (ok: bool)
    requires e.Ready() && e.Writable(pr) && e.Held(pa) && Compatible(pr, pa, e.modLen)
    requires e.Num(e.mem[..], pa) < e.M()
    modifies e.mem, e`poolUsed
    ensures e.poolUsed == old(e.poolUsed) && e.Ready() && e.M() == old(e.M())
    ensures e.Wrote(old(e.mem[..]), e.mem[..], pr) && (ok <==> e.poolUsed + 1 <= e.poolLen)
    ensures !ok ==> e.mem[..] == old(e.mem[..])
    ensures ok ==> e.Num(e.mem[..], pr) == Residue(2 * e.Num(old(e.mem[..]), pa), e.M())
  {
    hide Val, Pow, IsFactor, ModEngine.Slot;
    ok := MontAdd(e, pr, pa, pa);
  }

  /** gs_mont_mul3: its two additions need a second element; without it the call reports success
      and leaves r as it was. */
  method MontMul3(e: ModEngine, pr: nat, pa: nat) returns (ok: bool)
    requires e.Ready() && e.Writable(pr) && e.Held(pa) && Compatible(pr, pa, e.modLen)
    requires e.Num(e.mem[..], pa) < e.M()
    modifies e.mem, e`poolUsed
    ensures e.poolUsed == old(e.poolUsed) && e.Ready() && e.M() == old(e.M())
    ensures e.Wrote(old(e.mem[..]), e.mem[..], pr) && (ok <==> e.poolUsed + 1 <= e.poolLen)
    ensures e.poolUsed + 2 > e.poolLen ==> e.mem[..] == old(e.mem[..])
    ensures e.poolUsed + 2 <= e.poolLen ==> e.Num(e.mem[..], pr) == Residue(3 * e.Num(old(e.mem[..]), pa), e.M())
  {
    hide Val, Pow, IsFactor, Residue, ModEngine.Slot;
    ghost var s0, a, m := e.mem[..], e.Num(e.mem[..], pa), e.M();
    var buffer := e.PoolAlloc(1);
    if buffer == None { return false; }
    var t := buffer.value;
    e.TopBlock(1);
    var first := MontAdd(e, t, pa, pa);
    ghost var s1 := e.mem[..];
    e.Keeps(s0, s1, t);
    Triple(a, m);
    var second := MontAdd(e, pr, pa, t);
    e.PoolFree(1);
    ok := true;
  }

  lemma Triple(a: nat, m: nat)
    requires m > 0
    ensures Residue(a + Residue(a + a, m), m) == Residue(3 * a, m)
  {
    CongMod(2 * a, m);
    CongRefl(a, m);
    CongAdd(a, a, 2 * a % m, 2 * a, m);
    ModOfCong(a + 2 * a % m, 3 * a, m);
  }

  lemma ModOfCong(x: int, y: int, m: nat)
    requires m > 0 && Cong(x, y, m)
    ensures x % m == y % m
  {
    CongMod(x, m);
    CongMod(y, m);
    CongTrans(x % m, x, y, m);
    CongTrans(x % m, y, y % m, m);
    CongUnique(x % m, y % m, m);
  }

  /** gs_mont_mul, one-pass build. */
  method MontMul(e: ModEngine, pr: nat, pa: nat, pb: nat) returns (ok: bool)
    requires e.Ready() && e.Writable(pr) && e.Held(pa) && e.Held(pb)
    requires e.Num(e.mem[..], pa) < e.M()
    modifies e.mem, e`poolUsed
    ensures e.poolUsed == old(e.poolUsed) && e.Ready() && e.M() == old(e.M())
    ensures e.Wrote(old(e.mem[..]), e.mem[..], pr) && (ok <==> e.poolUsed + 1 <= e.poolLen)
    ensures !ok ==> e.mem[..] == old(e.mem[..])
    ensures ok ==> IsRedc(e.Num(e.mem[..], pr), e.Num(old(e.mem[..]), pa) * e.Num(old(e.mem[..]), pb), e.R(), e.M())
  {
    hide Val, Pow, IsFactor, IsRedc, ModEngine.Slot;
    ghost var s0 := e.mem[..];
    var buffer := e.PoolAlloc(1);
    if buffer == None { return false; }
    e.TopBlock(1);
    MulWords(e.B(), e.mem, pr, pa, pb, e.modulus, buffer.value, e.modLen, e.k0);
    e.PoolFree(1);
    e.Keeps(s0, e.mem[..], pr);
    ok := true;
  }

  /** gs_mont_mul, product-then-reduction build. */
  method MontMulTwoPass(e: ModEngine, pr: nat, pa: nat, pb: nat) returns (ok: bool)
    requires e.Ready() && e.Writable(pr) && e.Held(pa) && e.Held(pb)
    requires e.Num(e.mem[..], pa) < e.M()
    modifies e.mem, e`poolUsed
    ensures e.poolUsed == old(e.poolUsed) && e.Ready() && e.M() == old(e.M())
    ensures e.Wrote(old(e.mem[..]), e.mem[..], pr) && (ok <==> e.poolUsed + 2 <= e.poolLen)
    ensures !ok ==> e.mem[..] == old(e.mem[..])
    ensures ok ==> IsRedc(e.Num(e.mem[..], pr), e.Num(old(e.mem[..]), pa) * e.Num(old(e.mem[..]), pb), e.R(), e.M())
  {
    hide Val, Pow, IsFactor, IsRedc, ModEngine.Slot;
    ghost var s0 := e.mem[..];
    var buffer := e.PoolAlloc(2);
    if buffer == None { return false; }
    e.TopBlock(2);
    MulThenRedWords(e.B(), e.mem, pr, pa, pb, e.modulus, buffer.value, e.modLen, e.k0);
    e.PoolFree(2);
    e.Keeps(s0, e.mem[..], pr);
    ok := true;
  }

  /** gs_mont_encode: a may be any modLen-word number. */
  method MontEncode(e: ModEngine, pr: nat, pa: nat) returns (ok: bool)
    requires e.Ready() && e.Writable(pr) && e.Held(pa)
    modifies e.mem, e`poolUsed
    ensures e.poolUsed == old(e.poolUsed) && e.Ready() && e.M() == old(e.M())
    ensures e.Wrote(old(e.mem[..]), e.mem[..], pr) && (ok <==> e.poolUsed + 2 <= e.poolLen)
    ensures !ok ==> e.mem[..] == old(e.mem[..])
    ensures ok ==> IsRedc(e.Num(e.mem[..], pr), e.Num(old(e.mem[..]), pa) * Residue(e.R() * e.R(), e.M()), e.R(), e.M())
  {
    hide Val, Pow, IsFactor, IsRedc, ModEngine.Slot;
    ghost var s0 := e.mem[..];
    var buffer := e.PoolAlloc(2);
    if buffer == None { return false; }
    e.TopBlock(2);
    MulThenRedWords(e.B(), e.mem, pr, pa, e.montR2, e.modulus, buffer.value, e.modLen, e.k0);
    e.PoolFree(2);
    e.Keeps(s0, e.mem[..], pr);
    ok := true;
  }

  /** gs_mont_decode: a may be any modLen-word number. */
  method MontDecode(e: ModEngine, pr: nat, pa: nat) returns (ok: bool)
    requires e.Ready() && e.Writable(pr) && e.Held(pa)
    modifies e.mem, e`poolUsed
    ensures e.poolUsed == old(e.poolUsed) && e.Ready() && e.M() == old(e.M())
    ensures e.Wrote(old(e.mem[..]), e.mem[..], pr) && (ok <==> e.poolUsed + 2 <= e.poolLen)
    ensures !ok ==> e.mem[..] == old(e.mem[..])
    ensures ok ==> IsRedc(e.Num(e.mem[..], pr), e.Num(old(e.mem[..]), pa), e.R(), e.M())
  {
    hide Val, Pow, IsFactor, IsRedc, ModEngine.Slot;
    ghost var s0 := e.mem[..];
    var buffer := e.PoolAlloc(2);
    if buffer == None { return false; }
    e.TopBlock(2);
    ExpandThenRedWords(e.B(), e.mem, pr, pa, e.modulus, buffer.value, e.modLen, e.k0);
    e.PoolFree(2);
    e.Keeps(s0, e.mem[..], pr);
    ok := true;
  }

  lemma Extended(b: nat, s: seq<nat>, p: nat, n: nat)
    requires p + 2 * n <= |s| && Val(b, s, p + n, n) == 0
    ensures Val(b, s, p, 2 * n) == Val(b, s, p, n)
  {
    ValSplit(b, s, p, n, n);
  }

  lemma BelowMultiple(x: nat, m: nat, R: nat)
    requires x < R && m > 0
    ensures x < Times(m, R)
  {
    MulMonotone(R, 1, m);
  }
}
