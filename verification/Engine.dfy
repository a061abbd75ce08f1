/** The modular-arithmetic engine: its flat context, its set-up and its pool of scratch numbers. */
module Engine {
  import opened NatArith
  import opened Words
  import opened Montgomery

  datatype Option<+T> = None | Some(value: T)

  datatype Status = NoErr | LengthErr | BadModulusErr

  const MIN_POOL_SIZE: nat := 1

  /** BITS_BNU_CHUNK: words needed for a number of bits. */
  function Chunks(bits: nat, wordBits: nat): (n: nat)
    requires wordBits > 0
    ensures bits <= n * wordBits < bits + wordBits
  {
    (bits + wordBits - 1) / wordBits
  }

  /** The step of gsMontFactor: an inverse modulo p = 2^(i-1) extends to one modulo 2p. */
  lemma FactorStep(m0: nat, y: nat, p: nat, r: nat)
    requires p >= 2 && m0 % 2 == 1 && Cong(m0 * y, 1, p) && r == m0 * y % (2 * p)
    ensures r == 1 || r == 1 + p
    ensures Cong(m0 * (if p < r then y + p else y), 1, 2 * p)
  {
    ModMod(m0 * y, p, 2);
    SmallMod(1, p);
    var q := CongQuotient(m0 * y, 1, p);
    DivModUnique(m0 * y, p, q, 1);
    assert r % p == 1;
    var d := r / p;
    assert r == d * p + 1;
    if d <= -1 { MulMonotone(p, d, -1); }
    if d >= 2 { MulMonotone(p, 2, d); }
    CongMod(m0 * y, 2 * p);
    if d == 1 {
      OddMultiple(m0, p);
      CongAdd(m0 * y, 1 + p, m0 * p, -(p as int), 2 * p);
      Distribute(m0, y, p);
    }
  }

  lemma OddMultiple(m0: nat, p: nat)
    requires p > 0 && m0 % 2 == 1
    ensures Cong(m0 * p, -(p as int), 2 * p)
  {
    var h := (m0 + 1) / 2;
    Distribute(p, m0, 1);
    MulAssoc(h, 2, p);
    CongFrom(m0 * p, -(p as int), 2 * p, h);
  }

  /** gsMontFactor: the inverse of an odd word modulo the word base, one bit at a time, negated. */
  method MontFactor(wordBits: nat, m0: nat) returns (k0: nat)
    requires wordBits >= 1 && m0 < Pow(2, wordBits) && m0 % 2 == 1
    ensures IsFactor(Pow(2, wordBits), k0, m0)
  {
    var b := Pow(2, wordBits);
    PowZero(2);
    PowMonotone(2, 1, wordBits);
    var y: nat := 1;
    var x: nat := 2 % b;
    var mask: nat := (b + 2 * x - 1) % b;
    FactorStart(b, wordBits, m0);
    for i := 2 to wordBits + 1
      invariant 0 < y < Pow(2, i - 1) && Cong(m0 * y, 1, Pow(2, i - 1))
      invariant i <= wordBits ==> x == Pow(2, i - 1) && mask == Pow(2, i) - 1
    {
      var rL := m0 * y % b;
      var low := rL % (mask + 1);
      var p := Pow(2, i - 1);
      PowMonotone(2, 1, i - 1);
      PowMonotone(2, i, wordBits);
      LowBits(m0 * y, i, wordBits);
      FactorStep(m0, y, p, low);
      if x < low { y := y + x; }
      FactorShift(b, wordBits, i, x);
      x := 2 * x % b;
      mask := (mask + mask + 1) % b;
    }
    k0 := b - y;
    FactorNegate(b, m0, y);
  }

  lemma FactorStart(b: nat, wordBits: nat, m0: nat)
    requires wordBits >= 1 && b == Pow(2, wordBits) && b > 0
    ensures Pow(2, 1) == 2 && Cong(m0 * 1, 1, Pow(2, 1)) <==> m0 % 2 == 1
    ensures wordBits >= 2 ==> 2 % b == 2 && (b + 2 * 2 - 1) % b == 3 && Pow(2, 2) == 4
  {
    PowZero(2);
    assert Pow(2, 2) == 2 * Pow(2, 1);
    if wordBits >= 2 {
      PowMonotone(2, 2, wordBits);
      SmallMod(2, b);
      DivModUnique(b + 3, b, 1, 3);
    }
  }

  /** Low bits survive reduction modulo a larger power of two. */
  lemma LowBits(z: nat, i: nat, wordBits: nat)
    requires i <= wordBits && Pow(2, i) > 0 && Pow(2, wordBits) > 0
    ensures z % Pow(2, wordBits) % Pow(2, i) == z % Pow(2, i)
  {
    PowAdd(2, i, wordBits - i);
    PowPositive(2, wordBits - i);
    ModMod(z, Pow(2, i), Pow(2, wordBits - i));
  }

  lemma FactorShift(b: nat, wordBits: nat, i: nat, x: nat)
    requires 2 <= i <= wordBits && b == Pow(2, wordBits) && b > 0 && x == Pow(2, i - 1)
    ensures Pow(2, i) == 2 * x
    ensures i < wordBits ==> 2 * x % b == Pow(2, i) && (2 * (Pow(2, i) - 1) + 1) % b == Pow(2, i + 1) - 1
  {
    if i < wordBits {
      PowMonotone(2, i + 1, wordBits);
      PowPositive(2, i);
      SmallMod(2 * x, b);
      SmallMod(Pow(2, i + 1) - 1, b);
    }
  }

  lemma FactorNegate(b: nat, m0: nat, y: nat)
    requires 0 < y < b && Cong(m0 * y, 1, b)
    ensures IsFactor(b, b - y, m0)
  {
    var q := CongQuotient(m0 * y, 1, b);
    Distribute(m0, b, y);
    Distribute(b, m0, q);
    DivModUnique((b - y) * m0 + 1, b, m0 - q, 0);
  }

  /** Writes the n low words of v at p. */
  method PutVal(b: nat, mem: array<nat>, p: nat, n: nat, v: nat)
    requires b >= 2 && WordMem(b, mem[..]) && p + n <= mem.Length && v < Pow(b, n)
    modifies mem
    ensures WordMem(b, mem[..]) && Frame(old(mem[..]), mem[..], p, p + n)
    ensures Val(b, mem[..], p, n) == v
  {
    hide At, Pow;
    ghost var s0 := mem[..];
    var rest: nat := v;
    PutStart(b, v);
    for i := 0 to n
      invariant WordMem(b, mem[..]) && Frame(s0, mem[..], p, p + i)
      invariant Val(b, mem[..], p, i) + At(b, rest, i) == v
    {
      ghost var before := mem[..];
      PutStep(b, rest, i);
      mem[p + i] := rest % b;
      ValAgree(b, before, p, mem[..], p, i);
      rest := rest / b;
    }
    PutEnd(b, rest, n, v);
  }

  lemma PutStart(b: nat, v: nat)
    ensures At(b, v, 0) == v
  {
  }

  lemma PutStep(b: nat, rest: nat, i: nat)
    requires b > 0
    ensures 0 <= rest / b && At(b, rest % b, i) + At(b, rest / b, i + 1) == At(b, rest, i)
  {
    var pw := Pow(b, i);
    Distribute(pw, rest % b, b * (rest / b));
    MulAssoc(rest / b, b, pw);
  }

  lemma PutEnd(b: nat, rest: nat, n: nat, v: nat)
    requires v < Pow(b, n) && At(b, rest, n) <= v
    ensures rest == 0 && At(b, rest, n) == 0
  {
    if rest > 0 { MulMonotone(Pow(b, n), 1, rest); }
  }

  /** cpMod_BNU by its integer meaning: x mod m over the nx words at x, high words cleared. */
  method Mod(b: nat, mem: array<nat>, x: nat, nx: nat, m: nat, n: nat)
    requires b >= 2 && WordMem(b, mem[..]) && x + nx <= mem.Length && m + n <= mem.Length && n <= nx
    requires (x + nx <= m || m + n <= x) && Val(b, mem[..], m, n) > 0
    modifies mem
    ensures WordMem(b, mem[..]) && Frame(old(mem[..]), mem[..], x, x + nx)
    ensures Val(b, mem[..], x, n) == Val(b, old(mem[..]), x, nx) % Val(b, old(mem[..]), m, n)
  {
    hide Val;
    ghost var s0 := mem[..];
    var mv := Val(b, mem[..], m, n);
    var r := Val(b, mem[..], x, nx) % mv;
    ValBound(b, mem[..], m, n);
    PutVal(b, mem, x, n, r);
    ghost var s1 := mem[..];
    for i := n to nx
      invariant WordMem(b, mem[..]) && Frame(s0, mem[..], x, x + nx)
      invariant forall j {:trigger mem[j]} :: x <= j < x + n ==> mem[j] == s1[j]
    {
      mem[x + i] := 0;
    }
    ValAgree(b, s1, x, mem[..], x, n);
  }

  /** The context of gsModEngine: mem holds modulus, R, R^2 and the pool one after the other. */
  class ModEngine {
    const wordBits: nat
    const mem: array<nat>
    var bitSize: nat
    var modLen: nat
    var modulus: nat
    var montR: nat
    var montR2: nat
    var pool: nat
    var k0: nat
    var poolLen: nat
    var poolUsed: nat

    /** The word base. */
    function B(): (b: nat)
      ensures wordBits > 0 ==> b >= 2 && b % 2 == 0
    {
      if wordBits > 0 then WordBase(wordBits); Pow(2, wordBits) else 1
    }

    /** R = B^modLen. */
    ghost function R(): nat
      reads this
    {
      Pow(B(), modLen)
    }

    /** MOD_BUFFER: offset of pool element k. */
    function Slot(k: nat): nat
      reads `pool, `modLen
    {
      pool + k * modLen
    }

    lemma SlotOrder(j: nat, k: nat)
      requires j < k
      ensures Slot(j) + modLen == Slot(j + 1) && Slot(j + 1) <= Slot(k)
    {
      MulMonotone(modLen, j + 1, k);
      Distribute(modLen, j, 1);
    }

    lemma SlotMonotone(j: nat, k: nat)
      requires j <= k
      ensures Slot(0) == pool && Slot(j) <= Slot(k)
    {
      MulMonotone(modLen, j, k);
    }

    /** The k elements reserved last lie in the pool, right below the free part. */
    lemma TopBlock(k: nat)
      requires 1 <= k <= poolUsed <= poolLen
      ensures pool <= Slot(poolUsed - k)
      ensures Slot(poolUsed - k) + k * modLen == Slot(poolUsed) <= Slot(poolLen)
    {
      Distribute(modLen, poolUsed - k, k);
      SlotMonotone(poolUsed, poolLen);
      SlotMonotone(0, poolUsed - k);
    }

    ghost predicate Layout()
      reads this
    {
      && wordBits > 0 && modLen > 0 && bitSize <= modLen * wordBits
      && montR == modulus + modLen && montR2 == montR + modLen && pool == montR2 + modLen
      && Slot(poolLen) <= mem.Length && 1 <= poolLen && poolUsed <= poolLen
    }

    /** The number at offset p of memory s. */
    ghost function Num(s: seq<nat>, p: nat): nat
      requires p + modLen <= |s|
      reads this
    {
      Val(B(), s, p, modLen)
    }

    /** A set-up context in memory s: an odd modulus with its three Montgomery constants. */
    ghost predicate ReadyIn(s: seq<nat>)
      reads this
    {
      && Layout() && |s| == mem.Length && WordMem(B(), s) && pool <= |s|
      && var m := Num(s, modulus);
         && m % 2 == 1 && m < Pow(2, bitSize)
         && IsFactor(B(), k0, s[modulus])
         && Num(s, montR) == R() % m
         && Num(s, montR2) == R() * R() % m
    }

    ghost predicate Ready()
      reads this, mem
    {
      ReadyIn(mem[..])
    }

    /** The modulus. */
    ghost function M(): nat
      requires Ready()
      reads this, mem
    {
      Num(mem[..], modulus)
    }

    /** An operand that does not overlap the free part of the pool. */
    predicate Held(p: nat)
      reads this
    {
      p + modLen <= mem.Length && (p + modLen <= Slot(poolUsed) || Slot(poolLen) <= p)
    }

    /** An operand that, besides, does not overlap the constants of the context. */
    predicate Writable(p: nat)
      reads this
    {
      Held(p) && (p + modLen <= modulus || pool <= p)
    }

    /** Operands may lie outside the context or be any reserved element. */
    lemma OperandsAllowed(p: nat, k: nat)
      requires Layout() && p + modLen <= mem.Length
      requires p + modLen <= modulus || Slot(poolLen) <= p || (k < poolUsed && p == Slot(k))
      ensures Writable(p) && Held(modulus) && Held(montR) && Held(montR2)
    {
      SlotMonotone(0, poolUsed);
      SlotMonotone(poolUsed, poolLen);
      if k < poolUsed {
        SlotOrder(k, poolUsed);
        SlotMonotone(0, k);
      }
    }

    /** Only the result at p and the free part of the pool changed. */
    ghost predicate Wrote(s0: seq<nat>, s1: seq<nat>, p: nat)
      reads this
    {
      Frame2(s0, s1, p, p + modLen, Slot(poolUsed), Slot(poolLen))
    }

    /** Such a write keeps the context, and every operand apart from p. */
    lemma Keeps(s0: seq<nat>, s1: seq<nat>, p: nat)
      requires ReadyIn(s0) && WordMem(B(), s1) && Writable(p) && Wrote(s0, s1, p)
      ensures ReadyIn(s1) && Num(s1, modulus) == Num(s0, modulus)
      ensures Num(s1, montR2) == Num(s0, montR2)
      ensures forall x: nat {:trigger Num(s1, x)} ::
                Held(x) && (x + modLen <= p || p + modLen <= x) ==> Num(s1, x) == Num(s0, x)
    {
      hide IsFactor, Val, Pow;
      if poolUsed > 0 { SlotOrder(0, poolUsed); }
      assert Slot(0) == pool;
      Frame2Vals(B(), s0, s1, p, p + modLen, Slot(poolUsed), Slot(poolLen));
      assert s1[modulus] == s0[modulus];
    }

    /** gsModPoolAlloc: the next poolReq elements, or NULL with nothing reserved. */
    method PoolAlloc(poolReq: nat) returns (ptr: Option<nat>)
      requires Layout()
      modifies this`poolUsed
      ensures Layout()
      ensures poolUsed == old(poolUsed) + (if ptr.Some? then poolReq else 0)
      ensures ptr == (if old(poolUsed) + poolReq <= poolLen then Some(Slot(old(poolUsed))) else None)
    {
      ptr := Some(Slot(poolUsed));
      if poolUsed + poolReq > poolLen {
        ptr := None;
      } else {
        poolUsed := poolUsed + poolReq;
      }
    }

    /** gsModPoolFree: never gives back more than is reserved. */
    method PoolFree(poolReq: nat)
      requires Layout()
      modifies this`poolUsed
      ensures Layout()
      ensures poolUsed == if poolReq <= old(poolUsed) then old(poolUsed) - poolReq else 0
    {
      var req := poolReq;
      if poolUsed < req {
        req := poolUsed;
      }
      poolUsed := poolUsed - req;
    }

    constructor (wordBits: nat, mem: array<nat>)
      ensures this.wordBits == wordBits && this.mem == mem
    {
      this.wordBits, this.mem := wordBits, mem;
      bitSize, modLen, modulus, montR, montR2, pool, k0, poolLen, poolUsed := 0, 0, 0, 0, 0, 0, 0, 0, 0;
    }

    /** gsModEngineInit, with the context laid out at offset ctx. The word past R and the n words past
        R^2 are scratch: the first belongs to R^2, the others to pool element 0, which numpe >= 1 provides. */
    method Init(words: Option<seq<nat>>, modulusBitSize: int, numpe: int, ctx: nat) returns (st: Status)
      requires wordBits > 0 && WordMem(B(), mem[..])
      requires words.Some? ==> |words.value| > 0 && WordMem(B(), words.value)
      requires modulusBitSize >= 1 && words.Some? ==>
                 |words.value| == Chunks(modulusBitSize, wordBits)
                 && Val(B(), words.value, 0, |words.value|) < Pow(2, modulusBitSize)
      requires modulusBitSize >= 1 && numpe >= 0 ==>
                 ctx + (3 + numpe) * Chunks(modulusBitSize, wordBits) <= mem.Length
      modifies this, mem
      ensures st == (if modulusBitSize < 1 then LengthErr
                     else if words.Some? && words.value[0] % 2 == 0 then BadModulusErr
                     else if numpe < 1 then LengthErr else NoErr)
      ensures modulusBitSize >= 1 && (words.None? || words.value[0] % 2 == 1) ==> (st == NoErr <==> numpe >= 1)
      ensures st != NoErr ==> mem[..] == old(mem[..]) && poolUsed == old(poolUsed) && poolLen == old(poolLen)
      ensures st == NoErr ==>
                && Layout() && modulus == ctx && bitSize == modulusBitSize && poolLen == numpe && poolUsed == 0
                && modLen == Chunks(modulusBitSize, wordBits)
                && Frame(old(mem[..]), mem[..], ctx, Slot(poolLen))
      ensures st == NoErr && words.Some? ==> Ready() && M() == Val(B(), words.value, 0, |words.value|)
    {
      if modulusBitSize < 1 { return LengthErr; }
      if words.Some? && words.value[0] % 2 == 0 { return BadModulusErr; }
      if numpe < MIN_POOL_SIZE { return LengthErr; }
      var n := Chunks(modulusBitSize, wordBits);
      bitSize, modLen, poolLen, poolUsed := modulusBitSize, n, numpe, 0;
      modulus, montR, montR2, pool := ctx, ctx + n, ctx + 2 * n, ctx + 3 * n;
      Distribute(n, 3, numpe);
      MulMonotone(n, 1, numpe);
      if words.Some? {
        SetConstants(words.value);
      }
      st := NoErr;
    }

    /** The constants of the context for modulus words w. */
    method SetConstants(w: seq<nat>)
      requires Layout() && poolUsed == 0 && WordMem(B(), mem[..]) && WordMem(B(), w)
      requires |w| == modLen && w[0] % 2 == 1 && Val(B(), w, 0, modLen) < Pow(2, bitSize)
      modifies this`k0, mem
      ensures Ready() && M() == Val(B(), w, 0, |w|) && Frame(old(mem[..]), mem[..], modulus, Slot(poolLen))
    {
      hide Val, Pow, IsFactor;
      var b, n := B(), modLen;
      ghost var s0 := mem[..];
      SlotOrder(0, poolLen);
      assert Slot(0) == pool;
      Store(modulus, w);
      ghost var s1 := mem[..];
      ValAgree(b, s1, modulus, w, 0, n);
      ghost var m := Val(b, w, 0, n);
      LowWordParity(b, w, n);
      assert mem[modulus] == w[0];
      k0 := MontFactor(wordBits, mem[modulus]);
      SetIdentity();
      ghost var s2 := mem[..];
      FrameVals(b, s1, s2, montR, pool);
      SetConverter();
      FrameVals(b, s2, mem[..], montR2, pool + n);
      assert mem[modulus] == s2[modulus] == s1[modulus];
    }

    /** montgomery identity: R mod m; one word past the region is scratch. */
    method SetIdentity()
      requires Layout() && WordMem(B(), mem[..]) && pool <= mem.Length && Num(mem[..], modulus) > 0
      modifies mem
      ensures WordMem(B(), mem[..]) && Frame(old(mem[..]), mem[..], montR, pool)
      ensures Num(mem[..], montR) == R() % Num(old(mem[..]), modulus)
    {
      hide Val, Pow;
      ghost var s0 := mem[..];
      ClearThenOne(montR);
      FrameVals(B(), s0, mem[..], montR, montR + modLen + 1);
      Mod(B(), mem, montR, modLen + 1, modulus, modLen);
    }

    /** montgomery domain converter: R * (R mod m) mod m; modLen words past the region are scratch. */
    method SetConverter()
      requires Layout() && WordMem(B(), mem[..]) && pool + modLen <= mem.Length
      requires Num(mem[..], modulus) > 0 && Num(mem[..], montR) == R() % Num(mem[..], modulus)
      modifies mem
      ensures WordMem(B(), mem[..]) && Frame(old(mem[..]), mem[..], montR2, pool + modLen)
      ensures Num(mem[..], montR2) == R() * R() % Num(old(mem[..]), modulus)
    {
      hide Val, Pow;
      var b, n := B(), modLen;
      ghost var s0 := mem[..];
      SetWord(b, mem, montR2, n, 0);
      ghost var s1 := mem[..];
      FrameVals(b, s0, s1, montR2, montR2 + n);
      Copy(b, mem, pool, montR, n);
      ghost var s2 := mem[..];
      FrameVals(b, s1, s2, pool, pool + n);
      ShiftedByR(s2);
      Mod(b, mem, montR2, 2 * n, modulus, n);
      SquareOfR(R(), Num(s0, modulus));
    }

    method Store(p: nat, w: seq<nat>)
      requires Layout() && WordMem(B(), mem[..]) && WordMem(B(), w) && p + |w| <= mem.Length
      modifies mem
      ensures WordMem(B(), mem[..]) && Frame(old(mem[..]), mem[..], p, p + |w|)
      ensures forall i {:trigger mem[i]} :: p <= i < p + |w| ==> mem[i] == w[i - p]
    {
      ghost var s0 := mem[..];
      for i := 0 to |w|
        invariant WordMem(B(), mem[..]) && Frame(s0, mem[..], p, p + i)
        invariant forall j {:trigger mem[j]} :: p <= j < p + i ==> mem[j] == w[j - p]
      {
        mem[p + i] := w[i];
      }
    }

    /** ZEXPAND_BNU(p, 0, modLen) and p[modLen] = 1: the number R in modLen + 1 words. */
    method ClearThenOne(p: nat)
      requires Layout() && WordMem(B(), mem[..]) && p + modLen + 1 <= mem.Length
      modifies mem
      ensures WordMem(B(), mem[..]) && Frame(old(mem[..]), mem[..], p, p + modLen + 1)
      ensures Val(B(), mem[..], p, modLen + 1) == R()
    {
      hide Pow;
      var b := B();
      SetWord(b, mem, p, modLen, 0);
      ghost var s1 := mem[..];
      mem[p + modLen] := 1;
      ValAgree(b, s1, p, mem[..], p, modLen);
    }

    lemma ShiftedByR(s: seq<nat>)
      requires Layout() && pool + modLen <= |s| && Num(s, montR2) == 0
      ensures Val(B(), s, montR2, 2 * modLen) == R() * Num(s, pool)
    {
      ValSplit(B(), s, montR2, modLen, modLen);
    }
  }

  lemma WordBase(wordBits: nat)
    requires wordBits > 0
    ensures Pow(2, wordBits) >= 2 && Pow(2, wordBits) % 2 == 0
  {
    PowPositive(2, wordBits - 1);
  }

  lemma EvenMultiple(b: nat, v: nat)
    requires b % 2 == 0
    ensures b * v % 2 == 0
  {
    var h := b / 2;
    assert b * v == (h * v) * 2 by { MulAssoc(2, h, v); }
    DivModUnique(b * v, 2, h * v, 0);
  }

  lemma SumParity(x: nat, y: nat)
    requires y % 2 == 0
    ensures (x + y) % 2 == x % 2
  {
  }

  lemma LowWordParity(b: nat, w: seq<nat>, n: nat)
    requires b > 0 && b % 2 == 0 && 0 < n <= |w|
    ensures Val(b, w, 0, n) % 2 == w[0] % 2
  {
    ValLow(b, w, 0, n);
    EvenMultiple(b, Val(b, w, 1, n - 1));
    SumParity(w[0], b * Val(b, w, 1, n - 1));
  }

  lemma SquareOfR(R: nat, m: nat)
    requires m > 0
    ensures R * (R % m) % m == R * R % m
  {
    CongMod(R, m);
    CongScale(R % m, R, R, m);
    CongMod(R * (R % m), m);
    CongMod(R * R, m);
    CongTrans(R * (R % m) % m, R * (R % m), R * R, m);
    CongTrans(R * (R % m) % m, R * R, R * R % m, m);
    CongUnique(R * (R % m) % m, R * R % m, m);
  }
}
