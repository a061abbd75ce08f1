/** Modular inversion from the almost inverse, by fixing up its power of two. */
module Inversion {
  import opened NatArith
  import opened Words
  import opened Montgomery
  import opened Engine
  import opened ModMethods
  import opened AlmostInverse
  import opened InverseLoops
  import MontDomain

  /** The words of a number are zero except word i. */
  lemma {:induction false} SingleWord(b: nat, s: seq<nat>, p: nat, n: nat, i: nat)
    requires p + n <= |s| && i < n && b > 0
    requires forall j {:trigger s[j]} :: p <= j < p + n && j != p + i ==> s[j] == 0
    ensures Val(b, s, p, n) == At(b, s[p + i], i)
  {
    hide At;
    if i == n - 1 {
      ValZero(b, s, p, n - 1);
    } else {
      SingleWord(b, s, p, n - 1, i);
      AtZero(b, n - 1);
    }
  }

  lemma WordOfBit(w: nat, bit: nat, n: nat)
    requires w > 0 && bit < n * w
    ensures 0 <= bit / w < n && bit == bit % w + w * (bit / w)
  {
    var q := bit / w;
    if q < 0 { MulMonotone(w, q, -1); }
    if q >= n { MulMonotone(w, n, q); }
  }

  /** Bit number bit, as a word value at a word position. */
  lemma BitPosition(w: nat, bit: nat, n: nat)
    requires w > 0 && bit < n * w
    ensures 0 <= bit / w < n && Pow(2, bit % w) < Pow(2, w)
    ensures At(Pow(2, w), Pow(2, bit % w), bit / w) == Pow(2, bit)
  {
    hide Pow;
    WordOfBit(w, bit, n);
    var q, r := bit / w, bit % w;
    PowMonotone(2, r + 1, w);
    PowDouble(r);
    PowPow(2, w, q);
    PowAdd(2, r, w * q);
  }

  lemma PowDouble(r: nat)
    ensures Pow(2, r) < Pow(2, r + 1)
  {
    PowPositive(2, r);
  }

  /** ZEXPAND_BNU(t, 0, n) and SET_BIT(t, bit). */
  method SetBit(w: nat, mem: array<nat>, t: nat, bit: nat, n: nat)
    requires w > 0 && WordMem(Pow(2, w), mem[..]) && t + n <= mem.Length && bit < n * w
    modifies mem
    ensures WordMem(Pow(2, w), mem[..]) && Frame(old(mem[..]), mem[..], t, t + n)
    ensures Val(Pow(2, w), mem[..], t, n) == Pow(2, bit)
  {
    hide Pow, At, Val;
    WordBase(w);
    BitPosition(w, bit, n);
    ClearWords(Pow(2, w), mem, t, n);
    mem[t + bit / w] := Pow(2, bit % w);
    SingleWord(Pow(2, w), mem[..], t, n, bit / w);
  }

  /** A bit number lies below len words exactly when its slot does. */
  lemma SlotInRange(w: nat, bit: nat, len: nat)
    requires w > 0
    ensures 0 <= bit / w && (bit < len * w <==> bit / w < len)
    ensures Pow(2, bit % w) < Pow(2, w)
  {
    hide Pow;
    WordOfBit(w, bit, bit + 1) by { MulMonotone(bit + 1, 1, w); }
    var q, r := bit / w, bit % w;
    if q < len { MulMonotone(w, q + 1, len); } else { MulMonotone(w, len, q); }
    Distribute(w, q, 1);
    PowMonotone(2, r + 1, w);
    PowDouble(r);
  }

  /** cpPow2_ct: every word is written through the comparison of its index with the slot. For slot == len the
      last word is left as it was; gs_mont_inv only asks for bits below len words. */
  method Pow2Ct(w: nat, mem: array<nat>, bit: nat, dst: nat, len: nat)
    requires w > 0 && WordMem(Pow(2, w), mem[..]) && dst + len <= mem.Length
    modifies mem
    ensures WordMem(Pow(2, w), mem[..]) && Frame(old(mem[..]), mem[..], dst, dst + len)
    ensures bit < len * w ==> Val(Pow(2, w), mem[..], dst, len) == Pow(2, bit)
    ensures bit / w > len ==> Val(Pow(2, w), mem[..], dst, len) == 0
    ensures bit / w == len > 0 ==>
              Val(Pow(2, w), mem[..], dst, len - 1) == 0 && mem[dst + len - 1] == old(mem[dst + len - 1])
  {
    hide Pow, At, Val;
    ghost var s0 := mem[..];
    WordBase(w);
    SlotInRange(w, bit, len);
    var slot, value := bit / w, Pow(2, bit % w);
    var n := if slot == len then len - 1 else len;
    var i: nat := 0;
    while i < n
      invariant i <= len && (0 < i ==> i <= n)
      invariant WordMem(Pow(2, w), mem[..]) && Frame(s0, mem[..], dst, dst + i)
      invariant forall j {:trigger mem[j]} :: dst <= j < dst + i ==> mem[j] == if j == dst + slot then value else 0
    {
      mem[dst + i] := if slot == i then value else 0;
      i := i + 1;
    }
    if slot < len {
      BitPosition(w, bit, len);
      SingleWord(Pow(2, w), mem[..], dst, len, slot);
    } else {
      ValZero(Pow(2, w), mem[..], dst, i);
    }
  }

  lemma BitLenAtMost(m: nat, bits: nat)
    requires 0 < m < Pow(2, bits)
    ensures BitLen(m) <= bits
  {
    BitLenBounds(m);
    PowStrict(BitLen(m) - 1, bits);
  }

  /** One Montgomery multiplication by y, where y = z * R, multiplies by z. */
  lemma MulShifts(r: int, r': int, y: int, z: int, R: nat, m: nat)
    requires MontDomain.Radix(R, m) && IsRedc(r', r * y, R, m) && Cong(y, z * R, m)
    ensures Cong(r', r * z, m)
  {
    CongScale(y, z * R, r, m);
    MulAssoc(r, z, R);
    CongTrans(r' * R, r * y, r * (z * R), m);
    MontDomain.CancelRadix(r', r * z, R, m);
  }

  /** One Montgomery multiplication by y, where y * z = R, divides by z. */
  lemma MulDivides(a: int, r: int, r': int, x: int, y: int, R: nat, m: nat)
    requires MontDomain.Radix(R, m) && IsRedc(r', r * y, R, m) && Cong(a * r, x, m)
    ensures Cong(a * r' * R, x * y, m)
  {
    MulAssoc(a, r', R);
    CongScale(r' * R, r * y, a, m);
    CongScale(a * r, x, y, m);
    MulAssoc(a, r, y);
    CongTrans(a * (r' * R), a * (r * y), x * y, m);
  }

  /** The base of the engine makes R a power of two. */
  lemma EngineRadix(e: ModEngine)
    requires e.Ready()
    ensures e.R() == Pow(2, e.wordBits * e.modLen) && MontDomain.Radix(e.R(), e.M())
  {
    PowPow(2, e.wordBits, e.modLen);
  }

  /** The steps of gs_inv: k > bits takes one extra multiplication by 1. */
  lemma InverseSteps(a: nat, r0: int, k: nat, r1: int, r2: int, bits: nat, R: nat, m: nat)
    requires R == Pow(2, bits) && MontDomain.Radix(R, m)
    requires Cong(a * r0, Pow(2, k), m) && 0 < k <= 2 * bits
    requires if k > bits then IsRedc(r1, r0 * 1, R, m) else r1 == r0
    requires var k' := if k > bits then k - bits else k; IsRedc(r2, r1 * Pow(2, bits - k'), R, m)
    ensures 0 <= r2 < m && Cong(a * r2, 1, m)
  {
    var k' := if k > bits then k - bits else k;
    if k > bits {
      MulDivides(a, r0, r1, Pow(2, k), 1, R, m);
      PowAdd(2, k', bits);
      MontDomain.CancelRadix(a * r1, Pow(2, k'), R, m);
    }
    MulDivides(a, r1, r2, Pow(2, k'), Pow(2, bits - k'), R, m);
    PowAdd(2, k', bits - k');
    assert R == 1 * R;
    MontDomain.CancelRadix(a * r2, 1, R, m);
  }

  /** The steps of gs_mont_inv: k <= bits takes one extra multiplication by R^2. */
  lemma MontInverseSteps(a: nat, r0: int, k: nat, r1: int, r2: int, bits: nat, R: nat, m: nat)
    requires R == Pow(2, bits) && MontDomain.Radix(R, m)
    requires Cong(a * r0, Pow(2, k), m) && 0 < k <= 2 * bits
    requires if k <= bits then IsRedc(r1, r0 * (R * R % m), R, m) else r1 == r0
    requires var k' := if k <= bits then k + bits else k; IsRedc(r2, r1 * Pow(2, 2 * bits - k'), R, m)
    ensures 0 <= r2 < m && Cong(a * r2, R, m)
  {
    var k' := if k <= bits then k + bits else k;
    if k <= bits {
      CongMod(R * R, m);
      MulShifts(r0, r1, R * R % m, R, R, m);
      CongScale(r1, r0 * R, a, m);
      MulAssoc(a, r0, R);
      CongScale(a * r0, Pow(2, k), R, m);
      PowAdd(2, k, bits);
      CongTrans(a * r1, a * r0 * R, Pow(2, k'), m);
    }
    MulDivides(a, r1, r2, Pow(2, k'), Pow(2, 2 * bits - k'), R, m);
    PowAdd(2, k', 2 * bits - k');
    PowAdd(2, bits, bits);
    MontDomain.CancelRadix(a * r2, R, R, m);
  }

  /** The almost inverse through either routine. */
  method AlmostInv(e: ModEngine, pr: nat, pa: nat, ct: bool) returns (k: nat)
    requires e.Ready() && e.Writable(pr) && e.Held(pa) && e.Num(e.mem[..], pa) < e.M()
    modifies e.mem, e`poolUsed
    ensures e.poolUsed == old(e.poolUsed) && e.Ready() && e.M() == old(e.M())
    ensures e.Wrote(old(e.mem[..]), e.mem[..], pr)
    ensures k > 0 <==> (if ct then e.poolUsed + 6 <= e.poolLen else e.poolUsed + 4 <= e.poolLen)
                       && e.M() > 1 && Coprime(e.Num(old(e.mem[..]), pa), e.M())
    ensures k > 0 ==> k <= 2 * (e.wordBits * e.modLen) && e.Num(e.mem[..], pr) < e.M()
                      && Cong(e.Num(old(e.mem[..]), pa) * e.Num(e.mem[..], pr), Pow(2, k), e.M())
  {
    hide Val, Pow, IsFactor, Result, Coprime, Cong;
    ghost var s0, a, m := e.mem[..], e.Num(e.mem[..], pa), e.M();
    if ct {
      k := AlmMontInvCt(e, pr, pa);
    } else {
      k := AlmMontInv(e, pr, pa);
    }
    if m > 1 {
      ResultCorrect(a, m);
      BitLenAtMost(m, e.bitSize);
    } else {
      UnitModulus(a);
    }
  }

  lemma UnitModulus(a: nat)
    requires a < 1
    ensures Result(a, 1).0 == 0
  {
  }

  /** t is the element reserved last, and another one is free. */
  ghost predicate Top(e: ModEngine, pr: nat, t: nat)
    reads e
  {
    && e.Layout() && 1 <= e.poolUsed < e.poolLen && t == e.Slot(e.poolUsed - 1)
    && pr + e.modLen <= e.mem.Length && (pr + e.modLen <= t || e.Slot(e.poolLen) <= pr)
    && (pr + e.modLen <= e.modulus || e.pool <= pr)
  }

  /** Multiplies by the number just put into t, given the memory s0 before that. */
  method MulByTop(e: ModEngine, pr: nat, t: nat, ghost s0: seq<nat>, ghost z: nat)
    requires e.ReadyIn(s0) && Top(e, pr, t) && WordMem(e.B(), e.mem[..])
    requires Frame(s0, e.mem[..], t, t + e.modLen) && e.Num(e.mem[..], t) == z
    requires e.Num(s0, pr) < e.Num(s0, e.modulus)
    modifies e.mem, e`poolUsed
    ensures e.poolUsed == old(e.poolUsed) && e.Ready() && e.M() == e.Num(s0, e.modulus)
    ensures e.Num(e.mem[..], e.montR2) == e.Num(s0, e.montR2)
    ensures Frame2(s0, e.mem[..], pr, pr + e.modLen, t, e.Slot(e.poolLen))
    ensures IsRedc(e.Num(e.mem[..], pr), e.Num(s0, pr) * z, e.R(), e.M())
  {
    hide Val, Pow, IsFactor, IsRedc, ModEngine.Slot;
    e.TopBlock(1);
    e.Keeps(s0, e.mem[..], t);
    ghost var s1 := e.mem[..];
    var done := MontMul(e, pr, pr, t);
    e.Keeps(s1, e.mem[..], pr);
  }

  /** The first fix-up of gs_inv: multiplication by 1. */
  method MulByOne(e: ModEngine, pr: nat, t: nat)
    requires e.Ready() && Top(e, pr, t) && e.Num(e.mem[..], pr) < e.M()
    modifies e.mem, e`poolUsed
    ensures e.poolUsed == old(e.poolUsed) && e.Ready() && e.M() == old(e.M())
    ensures Frame2(old(e.mem[..]), e.mem[..], pr, pr + e.modLen, t, e.Slot(e.poolLen))
    ensures IsRedc(e.Num(e.mem[..], pr), e.Num(old(e.mem[..]), pr) * 1, e.R(), e.M())
  {
    hide Val, Pow, IsFactor, IsRedc, ModEngine.Slot;
    e.TopBlock(1);
    ghost var s0 := e.mem[..];
    SetWord(e.B(), e.mem, t, e.modLen, 1);
    MulByTop(e, pr, t, s0, 1);
  }

  /** Multiplication by a power of two, set up either way. */
  method MulByPow2(e: ModEngine, pr: nat, t: nat, bit: nat, setBit: bool)
    requires e.Ready() && Top(e, pr, t) && e.Num(e.mem[..], pr) < e.M() && bit < e.modLen * e.wordBits
    modifies e.mem, e`poolUsed
    ensures e.poolUsed == old(e.poolUsed) && e.Ready() && e.M() == old(e.M())
    ensures Frame2(old(e.mem[..]), e.mem[..], pr, pr + e.modLen, t, e.Slot(e.poolLen))
    ensures IsRedc(e.Num(e.mem[..], pr), e.Num(old(e.mem[..]), pr) * Pow(2, bit), e.R(), e.M())
  {
    hide Val, Pow, IsFactor, IsRedc, ModEngine.Slot;
    e.TopBlock(1);
    ghost var s0 := e.mem[..];
    if setBit {
      SetBit(e.wordBits, e.mem, t, bit, e.modLen);
    } else {
      Pow2Ct(e.wordBits, e.mem, bit, t, e.modLen);
    }
    MulByTop(e, pr, t, s0, Pow(2, bit));
  }

  /** The first fix-up of gs_mont_inv: multiplication by R^2 mod m. */
  method MulByConverter(e: ModEngine, pr: nat, t: nat)
    requires e.Ready() && Top(e, pr, t) && e.Num(e.mem[..], pr) < e.M()
    modifies e.mem, e`poolUsed
    ensures e.poolUsed == old(e.poolUsed) && e.Ready() && e.M() == old(e.M())
    ensures Frame2(old(e.mem[..]), e.mem[..], pr, pr + e.modLen, t, e.Slot(e.poolLen))
    ensures IsRedc(e.Num(e.mem[..], pr), e.Num(old(e.mem[..]), pr) * (e.R() * e.R() % e.M()), e.R(), e.M())
  {
    hide Val, Pow, IsFactor, IsRedc, ModEngine.Slot;
    e.TopBlock(1);
    var done := MontMul(e, pr, pr, e.montR2);
  }

  lemma RedcBelow(r: int, x: int, R: nat, m: nat)
    requires m > 0 && IsRedc(r, x, R, m)
    ensures 0 <= r < m
  {
  }

  /** The multiplications of gs_inv: from 2^k / a to 1/a. */
  method FixInverse(e: ModEngine, pr: nat, t: nat, k: nat, ghost a: nat)
    requires e.Ready() && Top(e, pr, t) && e.Num(e.mem[..], pr) < e.M() && 0 < k <= 2 * (e.wordBits * e.modLen)
    requires Cong(a * e.Num(e.mem[..], pr), Pow(2, k), e.M())
    modifies e.mem, e`poolUsed
    ensures e.poolUsed == old(e.poolUsed) && e.Ready() && e.M() == old(e.M())
    ensures Frame2(old(e.mem[..]), e.mem[..], pr, pr + e.modLen, t, e.Slot(e.poolLen))
    ensures e.Num(e.mem[..], pr) < e.M() && Cong(a * e.Num(e.mem[..], pr), 1, e.M())
  {
    hide Val, Pow, IsFactor, Cong, IsRedc, ModEngine.Slot;
    var bits := e.wordBits * e.modLen;
    ghost var r0 := e.Num(e.mem[..], pr);
    EngineRadix(e);
    var k' := k;
    if k > bits {
      MulByOne(e, pr, t);
      RedcBelow(e.Num(e.mem[..], pr), r0 * 1, e.R(), e.M());
      k' := k - bits;
    }
    ghost var r1 := e.Num(e.mem[..], pr);
    MulByPow2(e, pr, t, bits - k', true);
    InverseSteps(a, r0, k, r1, e.Num(e.mem[..], pr), bits, e.R(), e.M());
  }

  /** gs_inv: r = 1/a mod m, or NULL without an inverse or without room in the pool. */
  method GsInv(e: ModEngine, pr: nat, pa: nat, ct: bool) returns (ok: bool)
    requires e.Ready() && e.Writable(pr) && e.Held(pa) && e.Num(e.mem[..], pa) < e.M()
    modifies e.mem, e`poolUsed
    ensures e.poolUsed == old(e.poolUsed) && e.Ready() && e.M() == old(e.M())
    ensures e.Wrote(old(e.mem[..]), e.mem[..], pr)
    ensures ok <==> (if ct then e.poolUsed + 6 <= e.poolLen else e.poolUsed + 4 <= e.poolLen)
                    && e.M() > 1 && Coprime(e.Num(old(e.mem[..]), pa), e.M())
    ensures ok ==> e.Num(e.mem[..], pr) < e.M()
                   && Cong(e.Num(old(e.mem[..]), pa) * e.Num(e.mem[..], pr), 1, e.M())
  {
    hide Val, Pow, IsFactor, Coprime, Cong, ModEngine.Slot;
    ghost var a := e.Num(e.mem[..], pa);
    var k := AlmostInv(e, pr, pa, ct);
    if k == 0 { return false; }
    var buffer := e.PoolAlloc(1);
    if buffer == None { return false; }
    e.TopBlock(1);
    FixInverse(e, pr, buffer.value, k, a);
    e.PoolFree(1);
    ok := true;
  }

  /** The multiplications of gs_mont_inv: from 2^k / a to R / a. */
  method FixMontInverse(e: ModEngine, pr: nat, t: nat, k: nat, ghost a: nat)
    requires e.Ready() && Top(e, pr, t) && e.Num(e.mem[..], pr) < e.M() && 0 < k <= 2 * (e.wordBits * e.modLen)
    requires Cong(a * e.Num(e.mem[..], pr), Pow(2, k), e.M())
    modifies e.mem, e`poolUsed
    ensures e.poolUsed == old(e.poolUsed) && e.Ready() && e.M() == old(e.M())
    ensures Frame2(old(e.mem[..]), e.mem[..], pr, pr + e.modLen, t, e.Slot(e.poolLen))
    ensures e.Num(e.mem[..], pr) < e.M() && Cong(a * e.Num(e.mem[..], pr), e.R(), e.M())
  {
    hide Val, Pow, IsFactor, Cong, IsRedc, ModEngine.Slot;
    var bits := e.wordBits * e.modLen;
    ghost var r0 := e.Num(e.mem[..], pr);
    EngineRadix(e);
    var k' := k;
    if k <= bits {
      MulByConverter(e, pr, t);
      RedcBelow(e.Num(e.mem[..], pr), r0 * (e.R() * e.R() % e.M()), e.R(), e.M());
      k' := k + bits;
    }
    ghost var r1 := e.Num(e.mem[..], pr);
    MulByPow2(e, pr, t, 2 * bits - k', false);
    MontInverseSteps(a, r0, k, r1, e.Num(e.mem[..], pr), bits, e.R(), e.M());
  }

  /** gs_mont_inv: r = R/a mod m, the Montgomery form of the inverse. */
  method GsMontInv(e: ModEngine, pr: nat, pa: nat, ct: bool) returns (ok: bool)
    requires e.Ready() && e.Writable(pr) && e.Held(pa) && e.Num(e.mem[..], pa) < e.M()
    modifies e.mem, e`poolUsed
    ensures e.poolUsed == old(e.poolUsed) && e.Ready() && e.M() == old(e.M())
    ensures e.Wrote(old(e.mem[..]), e.mem[..], pr)
    ensures ok <==> (if ct then e.poolUsed + 6 <= e.poolLen else e.poolUsed + 4 <= e.poolLen)
                    && e.M() > 1 && Coprime(e.Num(old(e.mem[..]), pa), e.M())
    ensures ok ==> e.Num(e.mem[..], pr) < e.M()
                   && Cong(e.Num(old(e.mem[..]), pa) * e.Num(e.mem[..], pr), e.R(), e.M())
  {
    hide Val, Pow, IsFactor, Coprime, Cong, ModEngine.Slot;
    ghost var a := e.Num(e.mem[..], pa);
    var k := AlmostInv(e, pr, pa, ct);
    if k == 0 { return false; }
    var buffer := e.PoolAlloc(1);
    if buffer == None { return false; }
    e.TopBlock(1);
    FixMontInverse(e, pr, buffer.value, k, a);
    e.PoolFree(1);
    ok := true;
  }
}
