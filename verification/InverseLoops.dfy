/** The two almost-inverse loops on words: the plain one, and the masked one of fixed length. */
module InverseLoops {
  import opened NatArith
  import opened Words
  import opened Engine
  import opened Montgomery
  import opened ModMethods
  import opened AlmostInverse

  /** The four numbers u, s, v, t, one after the other at p; the carry belongs to t. */
  ghost predicate Holds(b: nat, s: seq<nat>, p: nat, n: nat, st: State, carry: nat)
    requires p + 4 * n <= |s|
  {
    && Val(b, s, p, n) == st.u && Val(b, s, p + n, n) == st.s
    && Val(b, s, p + 2 * n, n) == st.v && Val(b, s, p + 3 * n, n) + Carry(b, carry, n) == st.t
  }

  /** u = u / 2; s = 2 * s. */
  method BranchEvenU(b: nat, mem: array<nat>, p: nat, n: nat, ghost st: State)
    requires b >= 2 && b % 2 == 0 && WordMem(b, mem[..]) && 0 < n && p + 4 * n <= mem.Length
    requires Holds(b, mem[..], p, n, st, 0) && 2 * st.s < Pow(b, n)
    modifies mem
    ensures WordMem(b, mem[..]) && Frame(old(mem[..]), mem[..], p, p + 4 * n)
    ensures Holds(b, mem[..], p, n, st.(u := st.u / 2, s := 2 * st.s), 0)
  {
    hide Val, Pow;
    ghost var s0 := mem[..];
    Words.Halve(b, mem, p, p, n);
    ghost var s1 := mem[..];
    FrameVals(b, s0, s1, p, p + n);
    var c := Add(b, mem, p + n, p + n, p + n, n);
    FrameVals(b, s1, mem[..], p + n, p + n + n);
  }

  /** v = v / 2; t = 2 * t. */
  method BranchEvenV(b: nat, mem: array<nat>, p: nat, n: nat, ghost st: State)
    requires b >= 2 && b % 2 == 0 && WordMem(b, mem[..]) && 0 < n && p + 4 * n <= mem.Length
    requires Holds(b, mem[..], p, n, st, 0) && 2 * st.t < Pow(b, n)
    modifies mem
    ensures WordMem(b, mem[..]) && Frame(old(mem[..]), mem[..], p, p + 4 * n)
    ensures Holds(b, mem[..], p, n, st.(v := st.v / 2, t := 2 * st.t), 0)
  {
    hide Val, Pow;
    ghost var s0 := mem[..];
    Words.Halve(b, mem, p + 2 * n, p + 2 * n, n);
    ghost var s1 := mem[..];
    FrameVals(b, s0, s1, p + 2 * n, p + 2 * n + n);
    var c := Add(b, mem, p + 3 * n, p + 3 * n, p + 3 * n, n);
    FrameVals(b, s1, mem[..], p + 3 * n, p + 3 * n + n);
  }

  /** u = (u - v) / 2; t = t + s; s = 2 * s. */
  method BranchReduceU(b: nat, mem: array<nat>, p: nat, n: nat, ghost st: State)
    requires b >= 2 && b % 2 == 0 && WordMem(b, mem[..]) && 0 < n && p + 4 * n <= mem.Length
    requires Holds(b, mem[..], p, n, st, 0) && st.u >= st.v && 2 * st.s < Pow(b, n) && st.t + st.s < Pow(b, n)
    modifies mem
    ensures WordMem(b, mem[..]) && Frame(old(mem[..]), mem[..], p, p + 4 * n)
    ensures Holds(b, mem[..], p, n, st.(u := (st.u - st.v) / 2, t := st.t + st.s, s := 2 * st.s), 0)
  {
    hide Val, Pow;
    ghost var s0 := mem[..];
    ValBound(b, s0, p, n);
    var c := Sub(b, mem, p, p, p + 2 * n, n);
    ghost var s1 := mem[..];
    FrameVals(b, s0, s1, p, p + n);
    ValBound(b, s1, p, n);
    Words.Halve(b, mem, p, p, n);
    ghost var s2 := mem[..];
    FrameVals(b, s1, s2, p, p + n);
    c := Add(b, mem, p + 3 * n, p + 3 * n, p + n, n);
    ghost var s3 := mem[..];
    FrameVals(b, s2, s3, p + 3 * n, p + 3 * n + n);
    c := Add(b, mem, p + n, p + n, p + n, n);
    FrameVals(b, s3, mem[..], p + n, p + n + n);
  }

  /** v = (v - u) / 2; s = s + t; t = 2 * t, the only step whose carry is kept. */
  method BranchReduceV(b: nat, mem: array<nat>, p: nat, n: nat, ghost st: State) returns (carry: nat)
    requires b >= 2 && b % 2 == 0 && WordMem(b, mem[..]) && 0 < n && p + 4 * n <= mem.Length
    requires Holds(b, mem[..], p, n, st, 0) && st.v >= st.u && st.s + st.t < Pow(b, n)
    modifies mem
    ensures WordMem(b, mem[..]) && Frame(old(mem[..]), mem[..], p, p + 4 * n) && carry <= 1
    ensures Holds(b, mem[..], p, n, st.(v := (st.v - st.u) / 2, s := st.s + st.t, t := 2 * st.t), carry)
  {
    hide Val, Pow;
    ghost var s0 := mem[..];
    ValBound(b, s0, p + 2 * n, n);
    var c := Sub(b, mem, p + 2 * n, p + 2 * n, p, n);
    ghost var s1 := mem[..];
    FrameVals(b, s0, s1, p + 2 * n, p + 2 * n + n);
    ValBound(b, s1, p + 2 * n, n);
    Words.Halve(b, mem, p + 2 * n, p + 2 * n, n);
    ghost var s2 := mem[..];
    FrameVals(b, s1, s2, p + 2 * n, p + 2 * n + n);
    c := Add(b, mem, p + n, p + n, p + 3 * n, n);
    ghost var s3 := mem[..];
    FrameVals(b, s2, s3, p + n, p + n + n);
    carry := Add(b, mem, p + 3 * n, p + 3 * n, p + 3 * n, n);
    FrameVals(b, s3, mem[..], p + 3 * n, p + 3 * n + n);
  }

  /** What one pass needs to know of a state with v > 0. */
  lemma PassBounds(b: nat, n: nat, st: State, a: nat, m: nat)
    requires Inv(st, a, m) && st.v > 0 && m < Pow(b, n)
    ensures st.u > 0 && st.s + st.t < Pow(b, n) && Step(st).s < Pow(b, n)
    ensures Step(st).v > 0 ==> Step(st).t < Pow(b, n)
    ensures Inv(Step(st), a, m) && Step(st).t < 2 * m && Step(st).u > 0
  {
    Positive(st, a, m);
    StepFits(st, a, m);
    InvStep(st, a, m);
    Positive(Step(st), a, m);
  }

  /** One pass of the plain loop is one step; a carry can only come with v = 0. */
  method PlainPass(b: nat, mem: array<nat>, p: nat, n: nat, ghost st: State, ghost a: nat, ghost m: nat)
    returns (carry: nat)
    requires b >= 2 && b % 2 == 0 && WordMem(b, mem[..]) && 0 < n && p + 4 * n <= mem.Length
    requires Holds(b, mem[..], p, n, st, 0) && Inv(st, a, m) && st.v > 0 && m < Pow(b, n)
    modifies mem
    ensures WordMem(b, mem[..]) && Frame(old(mem[..]), mem[..], p, p + 4 * n) && carry <= 1
    ensures Holds(b, mem[..], p, n, Step(st), carry)
  {
    hide Val, Pow, Inv;
    PassBounds(b, n, st, a, m);
    WordParity(b, mem[..], p, n);
    WordParity(b, mem[..], p + 2 * n, n);
    carry := 0;
    if mem[p] % 2 == 0 {
      BranchEvenU(b, mem, p, n, st);
    } else if mem[p + 2 * n] % 2 == 0 {
      BranchEvenV(b, mem, p, n, st);
    } else {
      var cmpRes := Compare(b, mem, p, p + 2 * n, n);
      if cmpRes > 0 {
        BranchReduceU(b, mem, p, n, st);
      } else {
        carry := BranchReduceV(b, mem, p, n, st);
      }
    }
  }

  /** The while loop of alm_mont_inv. */
  method PlainLoop(b: nat, mem: array<nat>, p: nat, n: nat, ghost a: nat, ghost m: nat) returns (k: nat, ext: nat)
    requires b >= 2 && b % 2 == 0 && WordMem(b, mem[..]) && 0 < n && p + 4 * n <= mem.Length
    requires m % 2 == 1 && m < Pow(b, n) && a < m && Holds(b, mem[..], p, n, Start(a, m), 0)
    modifies mem
    ensures WordMem(b, mem[..]) && Frame(old(mem[..]), mem[..], p, p + 4 * n) && ext <= 1
    ensures Holds(b, mem[..], p, n, Iterate(Start(a, m)), ext) && k == Iterate(Start(a, m)).k
  {
    hide Val, Pow, Inv, Carry;
    ghost var s0 := mem[..];
    ghost var st := Start(a, m);
    InvStart(a, m);
    k, ext := 0, 0;
    var done := EqualsWord(b, mem, p + 2 * n, n, 0);
    while !done
      invariant WordMem(b, mem[..]) && Frame(s0, mem[..], p, p + 4 * n) && ext <= 1
      invariant Holds(b, mem[..], p, n, st, ext) && Inv(st, a, m) && k == st.k && st.u > 0
      invariant Iterate(st) == Iterate(Start(a, m)) && (done <==> st.v == 0) && (st.v > 0 ==> ext == 0)
      decreases st.u + st.v
    {
      PassBounds(b, n, st, a, m);
      var carry := PlainPass(b, mem, p, n, st, a, m);
      ext := ext + carry;
      st := Step(st);
      k := k + 1;
      NoCarry(b, mem[..], p, n, st, ext);
      done := EqualsWord(b, mem, p + 2 * n, n, 0);
    }
  }

  lemma NoCarry(b: nat, s: seq<nat>, p: nat, n: nat, st: State, carry: nat)
    requires p + 4 * n <= |s| && Holds(b, s, p, n, st, carry) && carry <= 1
    ensures st.t < Pow(b, n) ==> carry == 0
  {
  }

  /** r = m - (t mod m) for t < 2m: the end of both loops. */
  method Finish(b: nat, mem: array<nat>, r: nat, t: nat, m: nat, n: nat, ext: nat)
    requires b >= 2 && WordMem(b, mem[..]) && ext <= 1
    requires r + n <= mem.Length && t + n <= mem.Length && m + n <= mem.Length
    requires (r + n <= t || t + n <= r) && (r + n <= m || m + n <= r)
    requires Val(b, mem[..], t, n) + Carry(b, ext, n) < 2 * Val(b, mem[..], m, n)
    modifies mem
    ensures WordMem(b, mem[..]) && Frame(old(mem[..]), mem[..], r, r + n)
    ensures var tv, mv := Val(b, old(mem[..]), t, n) + Carry(b, ext, n), Val(b, old(mem[..]), m, n);
            Val(b, mem[..], r, n) == mv - (if tv >= mv then tv - mv else tv)
  {
    hide Val, Pow;
    ghost var s0 := mem[..];
    ValBound(b, s0, m, n);
    FinalSubtract(b, mem, r, t, m, n, ext);
    ghost var s1 := mem[..];
    FrameVals(b, s0, s1, r, r + n);
    var borrow := Sub(b, mem, r, m, r, n);
    ValBound(b, mem[..], r, n);
  }

  /** u = modulus, v = a, t = 0, s = 1. */
  method LoadStart(b: nat, mem: array<nat>, p: nat, x: nat, m: nat, n: nat)
    requires b >= 2 && WordMem(b, mem[..]) && 0 < n
    requires p + 4 * n <= mem.Length && x + n <= mem.Length && m + n <= mem.Length
    requires (x + n <= p || p + 4 * n <= x) && (m + n <= p || p + 4 * n <= m)
    modifies mem
    ensures WordMem(b, mem[..]) && Frame(old(mem[..]), mem[..], p, p + 4 * n)
    ensures Holds(b, mem[..], p, n, Start(Val(b, old(mem[..]), x, n), Val(b, old(mem[..]), m, n)), 0)
  {
    hide Val, Pow;
    ghost var s0 := mem[..];
    Copy(b, mem, p, m, n);
    ghost var s1 := mem[..];
    FrameVals(b, s0, s1, p, p + n);
    SetWord(b, mem, p + n, n, 1);
    ghost var s2 := mem[..];
    FrameVals(b, s1, s2, p + n, p + n + n);
    Copy(b, mem, p + 2 * n, x, n);
    ghost var s3 := mem[..];
    FrameVals(b, s2, s3, p + 2 * n, p + 2 * n + n);
    ClearWords(b, mem, p + 3 * n, n);
    FrameVals(b, s3, mem[..], p + 3 * n, p + 3 * n + n);
  }

  /** alm_mont_inv on words: four scratch numbers at p. */
  method PlainInverse(b: nat, mem: array<nat>, r: nat, x: nat, m: nat, p: nat, n: nat) returns (k: nat)
    requires b >= 2 && b % 2 == 0 && WordMem(b, mem[..]) && 0 < n
    requires r + n <= mem.Length && x + n <= mem.Length && m + n <= mem.Length && p + 4 * n <= mem.Length
    requires (r + n <= m || m + n <= r) && (r + n <= p || p + 4 * n <= r)
    requires (x + n <= p || p + 4 * n <= x) && (m + n <= p || p + 4 * n <= m)
    requires Val(b, mem[..], m, n) % 2 == 1 && Val(b, mem[..], x, n) < Val(b, mem[..], m, n)
    modifies mem
    ensures WordMem(b, mem[..]) && Frame2(old(mem[..]), mem[..], r, r + n, p, p + 4 * n)
    ensures var res := Result(Val(b, old(mem[..]), x, n), Val(b, old(mem[..]), m, n));
            k == res.0 && (k != 0 ==> Val(b, mem[..], r, n) == res.1)
  {
    hide Val, Pow, Inv, Carry;
    ghost var s0 := mem[..];
    ghost var a, mv := Val(b, s0, x, n), Val(b, s0, m, n);
    ValBound(b, s0, m, n);
    LoadStart(b, mem, p, x, m, n);
    ghost var s1 := mem[..];
    var ext;
    k, ext := PlainLoop(b, mem, p, n, a, mv);
    ghost var s2 := mem[..];
    FrameVals(b, s0, s2, p, p + 4 * n);
    FinalInRange(Iterate(Start(a, mv)), a, mv);
    var found := EqualsWord(b, mem, p, n, 1);
    if !found {
      k := 0;
    } else {
      Finish(b, mem, r, p + 3 * n, m, n, ext);
    }
  }

  // ----- the masked loop: six scratch numbers, x and y being the last two, and r for s + t

  /** if(mask) { u = u/2; s = 2*s; } */
  method MaskedEvenU(b: nat, mem: array<nat>, p: nat, n: nat, mask: bool, ghost st: State, ghost carry: nat)
    requires b >= 2 && b % 2 == 0 && WordMem(b, mem[..]) && 0 < n && p + 6 * n <= mem.Length
    requires Holds(b, mem[..], p, n, st, carry) && (mask ==> 2 * st.s < Pow(b, n))
    modifies mem
    ensures WordMem(b, mem[..]) && Frame(old(mem[..]), mem[..], p, p + 6 * n)
    ensures Holds(b, mem[..], p, n, if mask then st.(u := st.u / 2, s := 2 * st.s) else st, carry)
  {
    hide Val, Pow, Carry;
    ghost var s0 := mem[..];
    Words.Halve(b, mem, p + 4 * n, p, n);
    ghost var s1 := mem[..];
    FrameVals(b, s0, s1, p + 4 * n, p + 4 * n + n);
    var c := Add(b, mem, p + 5 * n, p + n, p + n, n);
    ghost var s2 := mem[..];
    FrameVals(b, s1, s2, p + 5 * n, p + 5 * n + n);
    if mask { NoCarryOut(b, n, Val(b, s2, p + 5 * n, n), c, 2 * st.s); }
    MaskedReplace(b, mem, p, p + 4 * n, n, mask);
    ghost var s3 := mem[..];
    FrameVals(b, s2, s3, p, p + n);
    MaskedReplace(b, mem, p + n, p + 5 * n, n, mask);
    FrameVals(b, s3, mem[..], p + n, p + n + n);
  }

  lemma NoCarryOut(b: nat, n: nat, v: nat, c: nat, x: nat)
    requires v + Carry(b, c, n) == x && x < Pow(b, n)
    ensures v == x
  {
  }

  /** if(mask) { v = v/2; t = 2*t; } */
  method MaskedEvenV(b: nat, mem: array<nat>, p: nat, n: nat, mask: bool, ghost st: State, ghost carry: nat)
    requires b >= 2 && b % 2 == 0 && WordMem(b, mem[..]) && 0 < n && p + 6 * n <= mem.Length
    requires Holds(b, mem[..], p, n, st, carry) && (mask ==> carry == 0 && 2 * st.t < Pow(b, n))
    modifies mem
    ensures WordMem(b, mem[..]) && Frame(old(mem[..]), mem[..], p, p + 6 * n)
    ensures Holds(b, mem[..], p, n, if mask then st.(v := st.v / 2, t := 2 * st.t) else st, carry)
  {
    hide Val, Pow, Carry;
    ghost var s0 := mem[..];
    Words.Halve(b, mem, p + 4 * n, p + 2 * n, n);
    ghost var s1 := mem[..];
    FrameVals(b, s0, s1, p + 4 * n, p + 4 * n + n);
    var c := Add(b, mem, p + 5 * n, p + 3 * n, p + 3 * n, n);
    ghost var s2 := mem[..];
    FrameVals(b, s1, s2, p + 5 * n, p + 5 * n + n);
    ZeroCarry(b, n);
    if mask { NoCarryOut(b, n, Val(b, s2, p + 5 * n, n), c, 2 * st.t); }
    MaskedReplace(b, mem, p + 2 * n, p + 4 * n, n, mask);
    ghost var s3 := mem[..];
    FrameVals(b, s2, s3, p + 2 * n, p + 2 * n + n);
    MaskedReplace(b, mem, p + 3 * n, p + 5 * n, n, mask);
    FrameVals(b, s3, mem[..], p + 3 * n, p + 3 * n + n);
  }

  lemma ZeroCarry(b: nat, n: nat)
    ensures Carry(b, 0, n) == 0
  {
  }

  /** if(enabled and v >= u) { v = (v-u)/2; s = r; t = 2*t; ext += carry; } where r = s + t. */
  method MaskedReduceV(b: nat, mem: array<nat>, p: nat, r: nat, n: nat, enabled: bool, ghost st: State, ghost ext: nat)
    returns (mm: bool, carry: nat)
    requires b >= 2 && b % 2 == 0 && WordMem(b, mem[..]) && 0 < n && p + 6 * n <= mem.Length
    requires r + n <= mem.Length && (r + n <= p || p + 6 * n <= r)
    requires Holds(b, mem[..], p, n, st, ext)
    requires enabled ==> ext == 0 && Val(b, mem[..], r, n) == st.s + st.t
    modifies mem
    ensures WordMem(b, mem[..]) && Frame(old(mem[..]), mem[..], p, p + 6 * n) && carry <= 1
    ensures mm <==> enabled && st.v >= st.u
    ensures if mm then Holds(b, mem[..], p, n, st.(v := (st.v - st.u) / 2, s := st.s + st.t, t := 2 * st.t), carry)
            else carry == 0 && Holds(b, mem[..], p, n, st, ext)
  {
    hide Val, Pow, Carry;
    ghost var s0 := mem[..];
    var borrow := Sub(b, mem, p + 4 * n, p + 2 * n, p, n);
    ghost var s1 := mem[..];
    FrameVals(b, s0, s1, p + 4 * n, p + 4 * n + n);
    ValBound(b, s1, p + 4 * n, n);
    BorrowSign(b, n, Val(b, s1, p + 4 * n, n), borrow, st.v, st.u);
    mm := enabled && borrow == 0;
    Words.Halve(b, mem, p + 4 * n, p + 4 * n, n);
    ghost var s2 := mem[..];
    FrameVals(b, s1, s2, p + 4 * n, p + 4 * n + n);
    var c := Add(b, mem, p + 5 * n, p + 3 * n, p + 3 * n, n);
    carry := if mm then c else 0;
    ghost var s3 := mem[..];
    FrameVals(b, s2, s3, p + 5 * n, p + 5 * n + n);
    ZeroCarry(b, n);
    ReplaceThree(b, mem, p + 2 * n, p + n, p + 3 * n, p, p + 4 * n, r, p + 5 * n, p, p + 4 * n, n, mm);
  }

  /** Under the mask d1, d2, d3 = x, r, y; q is the fourth number, and [lo, hi) covers all destinations. */
  method ReplaceThree(b: nat, mem: array<nat>, d1: nat, d2: nat, d3: nat, q: nat, x: nat, r: nat, y: nat,
                      ghost lo: nat, ghost hi: nat, n: nat, mask: bool)
    requires WordMem(b, mem[..]) && hi <= mem.Length
    requires x + n <= mem.Length && r + n <= mem.Length && y + n <= mem.Length
    requires lo <= d1 && d1 + n <= hi && lo <= d2 && d2 + n <= hi && lo <= d3 && d3 + n <= hi && q + n <= hi
    requires (x + n <= lo || hi <= x) && (r + n <= lo || hi <= r) && (y + n <= lo || hi <= y)
    requires (d1 + n <= d2 || d2 + n <= d1) && (d1 + n <= d3 || d3 + n <= d1) && (d2 + n <= d3 || d3 + n <= d2)
    requires (q + n <= d1 || d1 + n <= q) && (q + n <= d2 || d2 + n <= q) && (q + n <= d3 || d3 + n <= q)
    modifies mem
    ensures WordMem(b, mem[..]) && Frame(old(mem[..]), mem[..], lo, hi)
    ensures !mask ==> mem[..] == old(mem[..])
    ensures mask ==>
              && Val(b, mem[..], d1, n) == Val(b, old(mem[..]), x, n)
              && Val(b, mem[..], d2, n) == Val(b, old(mem[..]), r, n)
              && Val(b, mem[..], d3, n) == Val(b, old(mem[..]), y, n)
              && Val(b, mem[..], q, n) == Val(b, old(mem[..]), q, n)
  {
    hide Val;
    ghost var s3 := mem[..];
    MaskedReplace(b, mem, d1, x, n, mask);
    ghost var s4 := mem[..];
    FrameVals(b, s3, s4, d1, d1 + n);
    MaskedReplace(b, mem, d2, r, n, mask);
    ghost var s5 := mem[..];
    FrameVals(b, s4, s5, d2, d2 + n);
    MaskedReplace(b, mem, d3, y, n, mask);
    FrameVals(b, s5, mem[..], d3, d3 + n);
  }

  lemma BorrowSign(b: nat, n: nat, d: nat, borrow: nat, x: nat, y: nat)
    requires d as int - Carry(b, borrow, n) == x - y && d < Pow(b, n) && borrow <= 1
    ensures borrow == 0 <==> x >= y
    ensures borrow == 0 ==> d == x - y
  {
  }

  /** if(mask) { u = (u-v)/2; t = r; s = 2*s; } where r = s + t. */
  method MaskedReduceU(b: nat, mem: array<nat>, p: nat, r: nat, n: nat, mask: bool, ghost st: State, ghost ext: nat)
    requires b >= 2 && b % 2 == 0 && WordMem(b, mem[..]) && 0 < n && p + 6 * n <= mem.Length
    requires r + n <= mem.Length && (r + n <= p || p + 6 * n <= r)
    requires Holds(b, mem[..], p, n, st, ext)
    requires mask ==> ext == 0 && Val(b, mem[..], r, n) == st.s + st.t && st.u >= st.v && 2 * st.s < Pow(b, n)
    modifies mem
    ensures WordMem(b, mem[..]) && Frame(old(mem[..]), mem[..], p, p + 6 * n)
    ensures Holds(b, mem[..], p, n,
                  if mask then st.(u := (st.u - st.v) / 2, t := st.t + st.s, s := 2 * st.s) else st, ext)
  {
    hide Val, Pow, Carry;
    ghost var s0 := mem[..];
    var borrow := Sub(b, mem, p + 4 * n, p, p + 2 * n, n);
    ghost var s1 := mem[..];
    FrameVals(b, s0, s1, p + 4 * n, p + 4 * n + n);
    ValBound(b, s1, p + 4 * n, n);
    BorrowSign(b, n, Val(b, s1, p + 4 * n, n), borrow, st.u, st.v);
    Words.Halve(b, mem, p + 4 * n, p + 4 * n, n);
    ghost var s2 := mem[..];
    FrameVals(b, s1, s2, p + 4 * n, p + 4 * n + n);
    var c := Add(b, mem, p + 5 * n, p + n, p + n, n);
    ghost var s3 := mem[..];
    FrameVals(b, s2, s3, p + 5 * n, p + 5 * n + n);
    if mask { NoCarryOut(b, n, Val(b, s3, p + 5 * n, n), c, 2 * st.s); }
    ZeroCarry(b, n);
    ReplaceThree(b, mem, p, p + 3 * n, p + n, p + 2 * n, p + 4 * n, r, p + 5 * n, p, p + 4 * n, n, mask);
  }

  /** One masked pass is one step while v > 0, and nothing afterwards. */
  method MaskedPass(b: nat, mem: array<nat>, p: nat, r: nat, n: nat, k: nat, ext: nat,
                    ghost st: State, ghost a: nat, ghost m: nat) returns (k': nat, ext': nat)
    requires b >= 2 && b % 2 == 0 && WordMem(b, mem[..]) && 0 < n && p + 6 * n <= mem.Length
    requires r + n <= mem.Length && (r + n <= p || p + 6 * n <= r)
    requires Holds(b, mem[..], p, n, st, ext) && Inv(st, a, m) && m < Pow(b, n)
    requires k == st.k && ext <= 1 && (st.v > 0 ==> ext == 0)
    modifies mem
    ensures WordMem(b, mem[..]) && Frame2(old(mem[..]), mem[..], r, r + n, p, p + 6 * n)
    ensures Holds(b, mem[..], p, n, MaskedStep(st), ext') && k' == MaskedStep(st).k && ext' <= 1
  {
    hide Val, Pow, Inv, Carry, Holds;
    ghost var s0 := mem[..];
    var update := PassStart(b, mem, p, r, n, st, ext);
    if st.v > 0 { PassBounds(b, n, st, a, m); }
    var even := FirstParity(b, mem, p, n, st, ext);
    var mask := update && even;
    ghost var s1 := mem[..];
    MaskedEvenU(b, mem, p, n, mask, st, ext);
    FrameVals(b, s1, mem[..], p, p + 6 * n);
    ghost var st1 := if mask then st.(u := st.u / 2, s := 2 * st.s) else st;
    even := ThirdParity(b, mem, p, n, st1, ext);
    var mm := update && !mask && even;
    ghost var s2 := mem[..];
    MaskedEvenV(b, mem, p, n, mm, st1, ext);
    FrameVals(b, s2, mem[..], p, p + 6 * n);
    ghost var st2 := if mm then st1.(v := st1.v / 2, t := 2 * st1.t) else st1;
    mask := mask || mm;
    var enabled := update && !mask;
    ghost var s3 := mem[..];
    var carry;
    mm, carry := MaskedReduceV(b, mem, p, r, n, enabled, st2, ext);
    ext' := ext + carry;
    FrameVals(b, s3, mem[..], p, p + 6 * n);
    ghost var st3 := if mm then st2.(v := (st2.v - st2.u) / 2, s := st2.s + st2.t, t := 2 * st2.t) else st2;
    MaskedReduceU(b, mem, p, r, n, update && !mask && !mm, st3, ext');
    k' := if update then k + 1 else k;
    ghost var st4 := if update && !mask && !mm
                     then st3.(u := (st3.u - st3.v) / 2, t := st3.t + st3.s, s := 2 * st3.s) else st3;
    KeepsK(b, mem[..], p, n, st4, ext', k');
    assert st4.(k := k') == MaskedStep(st);
  }

  lemma KeepsK(b: nat, s: seq<nat>, p: nat, n: nat, st: State, carry: nat, k: nat)
    requires p + 4 * n <= |s| && Holds(b, s, p, n, st, carry)
    ensures Holds(b, s, p, n, st.(k := k), carry)
  {
  }

  /** The update mask, and r = s + t. */
  method PassStart(b: nat, mem: array<nat>, p: nat, r: nat, n: nat, ghost st: State, ghost ext: nat)
    returns (update: bool)
    requires b >= 2 && WordMem(b, mem[..]) && 0 < n && p + 6 * n <= mem.Length
    requires r + n <= mem.Length && (r + n <= p || p + 6 * n <= r)
    requires Holds(b, mem[..], p, n, st, ext)
    modifies mem
    ensures WordMem(b, mem[..]) && Frame(old(mem[..]), mem[..], r, r + n) && (update <==> st.v > 0)
    ensures Holds(b, mem[..], p, n, st, ext)
    ensures ext == 0 && st.s + st.t < Pow(b, n) ==> Val(b, mem[..], r, n) == st.s + st.t
  {
    hide Val, Pow, Carry;
    ghost var s0 := mem[..];
    var zero := EqualsWord(b, mem, p + 2 * n, n, 0);
    update := !zero;
    var c := Add(b, mem, r, p + n, p + 3 * n, n);
    FrameVals(b, s0, mem[..], r, r + n);
    ZeroCarry(b, n);
    if ext == 0 && st.s + st.t < Pow(b, n) { NoCarryOut(b, n, Val(b, mem[..], r, n), c, st.s + st.t); }
  }

  method FirstParity(b: nat, mem: array<nat>, p: nat, n: nat, ghost st: State, ghost ext: nat) returns (even: bool)
    requires b >= 2 && b % 2 == 0 && WordMem(b, mem[..]) && 0 < n && p + 6 * n <= mem.Length
    requires Holds(b, mem[..], p, n, st, ext)
    ensures even <==> st.u % 2 == 0
  {
    WordParity(b, mem[..], p, n);
    even := mem[p] % 2 == 0;
  }

  method ThirdParity(b: nat, mem: array<nat>, p: nat, n: nat, ghost st: State, ghost ext: nat) returns (even: bool)
    requires b >= 2 && b % 2 == 0 && WordMem(b, mem[..]) && 0 < n && p + 6 * n <= mem.Length
    requires Holds(b, mem[..], p, n, st, ext)
    ensures even <==> st.v % 2 == 0
  {
    WordParity(b, mem[..], p + 2 * n, n);
    even := mem[p + 2 * n] % 2 == 0;
  }

  /** The for loop of alm_mont_inv_ct: 2 * bits masked passes reach the end state of the plain loop. */
  method MaskedLoop(b: nat, mem: array<nat>, p: nat, r: nat, n: nat, bits: nat, ghost a: nat, ghost m: nat)
    returns (k: nat, ext: nat)
    requires b >= 2 && b % 2 == 0 && WordMem(b, mem[..]) && 0 < n && p + 6 * n <= mem.Length
    requires r + n <= mem.Length && (r + n <= p || p + 6 * n <= r)
    requires m % 2 == 1 && m < Pow(b, n) && m < Pow(2, bits) && a < m && Holds(b, mem[..], p, n, Start(a, m), 0)
    modifies mem
    ensures WordMem(b, mem[..]) && Frame2(old(mem[..]), mem[..], r, r + n, p, p + 6 * n) && ext <= 1
    ensures Holds(b, mem[..], p, n, Iterate(Start(a, m)), ext) && k == Iterate(Start(a, m)).k
  {
    hide Val, Pow, Inv, Carry, Holds, Step;
    ghost var s0 := mem[..];
    ghost var st := Start(a, m);
    InvStart(a, m);
    k, ext := 0, 0;
    for i := 0 to 2 * bits
      invariant WordMem(b, mem[..]) && Frame2(s0, mem[..], r, r + n, p, p + 6 * n) && ext <= 1
      invariant Holds(b, mem[..], p, n, st, ext) && Inv(st, a, m) && k == st.k
      invariant Run(st, 2 * bits - i) == Run(Start(a, m), 2 * bits) && (st.v > 0 ==> ext == 0)
    {
      k, ext := MaskedPass(b, mem, p, r, n, k, ext, st, a, m);
      if st.v > 0 { PassBounds(b, n, st, a, m); }
      st := MaskedStep(st);
      NoCarry(b, mem[..], p, n, st, ext);
    }
    FixedStepsSuffice(a, m, bits);
  }

  /** alm_mont_inv_ct on words: six scratch numbers at p. */
  method MaskedInverse(b: nat, mem: array<nat>, r: nat, x: nat, m: nat, p: nat, n: nat, bits: nat) returns (k: nat)
    requires b >= 2 && b % 2 == 0 && WordMem(b, mem[..]) && 0 < n
    requires r + n <= mem.Length && x + n <= mem.Length && m + n <= mem.Length && p + 6 * n <= mem.Length
    requires (r + n <= m || m + n <= r) && (r + n <= p || p + 6 * n <= r)
    requires (x + n <= p || p + 6 * n <= x) && (m + n <= p || p + 6 * n <= m)
    requires Val(b, mem[..], m, n) % 2 == 1 && Val(b, mem[..], x, n) < Val(b, mem[..], m, n) < Pow(2, bits)
    modifies mem
    ensures WordMem(b, mem[..]) && Frame2(old(mem[..]), mem[..], r, r + n, p, p + 6 * n)
    ensures var res := Result(Val(b, old(mem[..]), x, n), Val(b, old(mem[..]), m, n));
            k == res.0 && (k != 0 ==> Val(b, mem[..], r, n) == res.1)
  {
    hide Val, Pow, Inv, Carry;
    ghost var s0 := mem[..];
    ghost var a, mv := Val(b, s0, x, n), Val(b, s0, m, n);
    ValBound(b, s0, m, n);
    LoadStart(b, mem, p, x, m, n);
    var ext;
    k, ext := MaskedLoop(b, mem, p, r, n, bits, a, mv);
    Frame2Vals(b, s0, mem[..], r, r + n, p, p + 6 * n);
    FinalInRange(Iterate(Start(a, mv)), a, mv);
    ghost var s2 := mem[..];
    Finish(b, mem, r, p + 3 * n, m, n, ext);
    FrameVals(b, s2, mem[..], r, r + n);
    var found := EqualsWord(b, mem, p, n, 1);
    k := if found then k else 0;
  }

  /** alm_mont_inv. */
  method AlmMontInv(e: ModEngine, pr: nat, pa: nat) returns (k: nat)
    requires e.Ready() && e.Writable(pr) && e.Held(pa) && e.Num(e.mem[..], pa) < e.M()
    modifies e.mem, e`poolUsed
    ensures e.poolUsed == old(e.poolUsed) && e.Ready() && e.M() == old(e.M())
    ensures e.Wrote(old(e.mem[..]), e.mem[..], pr)
    ensures e.poolUsed + 4 > e.poolLen ==> k == 0
    ensures e.poolUsed + 4 <= e.poolLen ==>
              var res := Result(e.Num(old(e.mem[..]), pa), e.M());
              k == res.0 && (k != 0 ==> e.Num(e.mem[..], pr) == res.1)
  {
    hide Val, Pow, Montgomery.IsFactor, ModEngine.Slot;
    ghost var s0 := e.mem[..];
    var buffer := e.PoolAlloc(4);
    if buffer == None { return 0; }
    e.TopBlock(4);
    k := PlainInverse(e.B(), e.mem, pr, pa, e.modulus, buffer.value, e.modLen);
    e.PoolFree(4);
    e.Keeps(s0, e.mem[..], pr);
  }

  /** alm_mont_inv_ct: the same result as alm_mont_inv, from two more scratch elements. */
  method AlmMontInvCt(e: ModEngine, pr: nat, pa: nat) returns (k: nat)
    requires e.Ready() && e.Writable(pr) && e.Held(pa) && e.Num(e.mem[..], pa) < e.M()
    modifies e.mem, e`poolUsed
    ensures e.poolUsed == old(e.poolUsed) && e.Ready() && e.M() == old(e.M())
    ensures e.Wrote(old(e.mem[..]), e.mem[..], pr)
    ensures e.poolUsed + 6 > e.poolLen ==> k == 0
    ensures e.poolUsed + 6 <= e.poolLen ==>
              var res := Result(e.Num(old(e.mem[..]), pa), e.M());
              k == res.0 && (k != 0 ==> e.Num(e.mem[..], pr) == res.1)
  {
    hide Val, Pow, Montgomery.IsFactor, ModEngine.Slot;
    ghost var s0 := e.mem[..];
    var buffer := e.PoolAlloc(6);
    if buffer == None { return 0; }
    e.TopBlock(6);
    k := MaskedInverse(e.B(), e.mem, pr, pa, e.modulus, buffer.value, e.modLen, e.bitSize);
    e.PoolFree(6);
    e.Keeps(s0, e.mem[..], pr);
  }
}
