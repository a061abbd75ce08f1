/** The mathematics of the almost Montgomery inverse: its steps on integers, their invariants and range. */
module AlmostInverse {
  import opened NatArith

  datatype State = State(u: nat, s: nat, v: nat, t: nat, k: nat)

  /** One pass of the loop. */
  function Step(st: State): State {
    if st.u % 2 == 0 then
      st.(u := st.u / 2, s := 2 * st.s, k := st.k + 1)
    else if st.v % 2 == 0 then
      st.(v := st.v / 2, t := 2 * st.t, k := st.k + 1)
    else if st.u > st.v then
      st.(u := (st.u - st.v) / 2, t := st.t + st.s, s := 2 * st.s, k := st.k + 1)
    else
      st.(v := (st.v - st.u) / 2, s := st.s + st.t, t := 2 * st.t, k := st.k + 1)
  }

  function Start(a: nat, m: nat): State {
    State(m, 1, a, 0, 0)
  }

  /** Steps until v = 0; u + v decreases strictly. */
  function Iterate(st: State): State
    requires st.u > 0
    decreases st.u + st.v
  {
    if st.v == 0 then st else Iterate(Step(st))
  }

  /** What the loop leaves behind: k, or 0 when there is no inverse, and r. */
  function Result(a: nat, m: nat): (int, int)
    requires m > 0
  {
    var f := Iterate(Start(a, m));
    if f.u != 1 then (0, 0) else (f.k, m - (if f.t >= m then f.t - m else f.t))
  }

  // ----- the linear invariant

  /** m = u * s + v * t, and a * s and a * t follow v and -u, scaled by 2^k. */
  ghost predicate Linear(st: State, a: nat, m: nat)
    requires m > 0
  {
    && st.u > 0 && st.s > 0 && m == Times(st.u, st.s) + Times(st.v, st.t)
    && Cong(Times(a, st.s), Times(st.v, Pow(2, st.k)), m)
    && Cong(Times(a, st.t), -Times(st.u, Pow(2, st.k)), m)
  }

  lemma LinearStart(a: nat, m: nat)
    requires m > 0
    ensures Linear(Start(a, m), a, m)
  {
    CongRefl(a, m);
    CongFrom(a * 0, -(m as int), m, 1);
  }

  lemma LinearStep(st: State, a: nat, m: nat)
    requires m > 0 && Linear(st, a, m) && st.v > 0
    ensures Linear(Step(st), a, m)
  {
    hide Times, Cong;
    var State(u, s, v, t, k) := st;
    var w := Pow(2, k);
    DoubleCong(a, s, Times(v, w), m);
    DoubleCong(a, t, -Times(u, w), m);
    SumCong(a, t, s, -Times(u, w), Times(v, w), m);
    TimesDouble(v, w);
    TimesDouble(u, w);
    if u % 2 == 0 {
      HalfTimes(u, s);
      HalfTimes(u, w);
    } else if v % 2 == 0 {
      HalfTimes(v, t);
      HalfTimes(v, w);
    } else if u > v {
      HalfDifference(u, v, s);
      HalfDifference(u, v, w);
      TimesSum(v, t, s);
    } else {
      HalfDifference(v, u, t);
      HalfDifference(v, u, w);
      TimesSum(u, s, t);
    }
  }

  lemma DoubleCong(a: int, x: int, y: int, m: nat)
    requires m > 0 && Cong(Times(a, x), y, m)
    ensures Cong(Times(a, 2 * x), 2 * y, m)
  {
    CongScale(a * x, y, 2, m);
    TimesDouble(a, x);
  }

  lemma SumCong(a: int, x: int, x': int, y: int, y': int, m: nat)
    requires m > 0 && Cong(Times(a, x), y, m) && Cong(Times(a, x'), y', m)
    ensures Cong(Times(a, x + x'), y + y', m) && Cong(Times(a, x' + x), y + y', m)
  {
    CongAdd(a * x, y, a * x', y', m);
    Distribute(a, x, x');
  }

  lemma HalfTimes(u: nat, s: int)
    requires u % 2 == 0
    ensures Times(u / 2, 2 * s) == Times(u, s)
  {
    TimesDouble(u / 2, s);
  }

  lemma HalfDifference(u: nat, v: nat, s: int)
    requires u >= v && u % 2 == 1 && v % 2 == 1
    ensures Times((u - v) / 2, 2 * s) == Times(u, s) - Times(v, s)
  {
    HalfTimes(u - v, s);
    TimesSum(s, u, v);
  }

  // ----- the common divisors

  ghost predicate SameDivisors(st: State, a: nat, m: nat) {
    && (st.u % 2 == 1 || st.v % 2 == 1)
    && forall d: nat :: d > 1 ==> (Divides(d, st.u) && Divides(d, st.v) <==> Divides(d, m) && Divides(d, a))
  }

  lemma HalfDivides(d: nat, x: nat, y: nat)
    requires d > 1 && x % 2 == 0 && y % 2 == 1 && Divides(d, y)
    ensures Divides(d, x / 2) <==> Divides(d, x)
  {
    hide Divides, Times;
    var i := DividesQuotient(d, y);
    TimesParity(i, d);
    if Divides(d, x / 2) {
      var q := DividesQuotient(d, x / 2);
      TimesDouble(q, d);
      DividesTimes(d, 2 * q);
    }
    if Divides(d, x) {
      var p := DividesQuotient(d, x);
      TimesParity(p, d);
      TimesDouble(p / 2, d);
      DividesTimes(d, p / 2);
    }
  }

  lemma DifferenceDivides(d: nat, x: nat, y: nat)
    requires d > 1 && x >= y && Divides(d, y)
    ensures Divides(d, x - y) <==> Divides(d, x)
  {
    hide Divides, Times;
    var q := DividesQuotient(d, y);
    if Divides(d, x) {
      var p := DividesQuotient(d, x);
      TimesSum(d, p, q);
      TimesOrder(d, p, q);
      DividesTimes(d, p - q);
    }
    if Divides(d, x - y) {
      var p := DividesQuotient(d, x - y);
      TimesSum(d, p, q);
      DividesTimes(d, p + q);
    }
  }

  lemma TimesOrder(d: nat, p: nat, q: nat)
    requires d > 0 && Times(p, d) >= Times(q, d)
    ensures p >= q
  {
    if p < q { MulStrict(d, p, q); }
  }

  lemma DivisorStep(st: State, d: nat)
    requires st.u > 0 && st.v > 0 && (st.u % 2 == 1 || st.v % 2 == 1) && d > 1
    ensures Divides(d, Step(st).u) && Divides(d, Step(st).v) <==> Divides(d, st.u) && Divides(d, st.v)
  {
    hide Divides;
    var State(u, s, v, t, k) := st;
    if u % 2 == 0 {
      if Divides(d, v) { HalfDivides(d, u, v); }
    } else if v % 2 == 0 {
      if Divides(d, u) { HalfDivides(d, v, u); }
    } else if u > v {
      if Divides(d, v) { HalfDivides(d, u - v, v); DifferenceDivides(d, u, v); }
    } else {
      if Divides(d, u) { HalfDivides(d, v - u, u); DifferenceDivides(d, v, u); }
    }
  }

  lemma DivisorsStep(st: State, a: nat, m: nat)
    requires SameDivisors(st, a, m) && st.u > 0 && st.v > 0
    ensures SameDivisors(Step(st), a, m)
  {
    hide Divides;
    forall d: nat | d > 1
      ensures Divides(d, Step(st).u) && Divides(d, Step(st).v) <==> Divides(d, m) && Divides(d, a)
    {
      DivisorStep(st, d);
    }
  }

  // ----- the range of k

  /** 2^k * u * v never grows, 2^k * (u + v) never shrinks. */
  ghost predicate Sized(st: State, a: nat, m: nat) {
    && Times(Pow(2, st.k), Times(st.u, st.v)) <= Times(m, a)
    && Times(Pow(2, st.k), st.u + st.v) >= m + a
    && (st.k > 0 ==> Pow(2, st.k - 1) <= Times(m, a))
  }

  lemma HalvedProduct(st: State)
    requires st.u > 0 && st.v > 0
    ensures 2 * Times(Step(st).u, Step(st).v) <= Times(st.u, st.v)
    ensures 2 * (Step(st).u + Step(st).v) >= st.u + st.v
  {
    hide Times;
    var State(u, s, v, t, k) := st;
    var u', v' := Step(st).u, Step(st).v;
    if v' == v && 2 * u' <= u {
      SmallerProduct(v, u', u);
    } else {
      SmallerProduct(u, v', v);
    }
  }

  lemma SmallerProduct(x: nat, y: nat, z: nat)
    requires 2 * y <= z
    ensures 2 * Times(x, y) <= Times(x, z) && 2 * Times(y, x) <= Times(z, x)
  {
    TimesDouble(x, y);
    MulMonotone(x, 2 * y, z);
  }

  lemma SizedStep(st: State, a: nat, m: nat)
    requires Sized(st, a, m) && st.u > 0 && st.v > 0
    ensures Sized(Step(st), a, m)
  {
    hide Times, Step;
    var w, p, p' := Pow(2, st.k), Times(st.u, st.v), Times(Step(st).u, Step(st).v);
    HalvedProduct(st);
    SizedBounds(w, p, p', st.u + st.v, Step(st).u + Step(st).v);
    assert Step(st).k == st.k + 1 by { Counts(st); }
    PowPositive(2, st.k);
    PairPositive(w, st.u, st.v);
  }

  lemma Counts(st: State)
    ensures Step(st).k == st.k + 1
  {
  }

  lemma SizedBounds(w: nat, p: int, p': int, x: int, x': int)
    requires 2 * p' <= p && 2 * x' >= x
    ensures Times(2 * w, p') <= Times(w, p) && Times(2 * w, x') >= Times(w, x)
  {
    TimesDouble(w, p');
    TimesDouble(w, x');
    MulMonotone(w, 2 * p', p);
    MulMonotone(w, x, 2 * x');
  }

  lemma PairPositive(w: nat, u: nat, v: nat)
    requires u > 0 && v > 0
    ensures w <= Times(w, Times(u, v))
  {
    MulPositive(u, v);
    MulMonotone(w, 1, u * v);
  }

  // ----- whole runs

  ghost predicate Inv(st: State, a: nat, m: nat) {
    m > 0 && Linear(st, a, m) && SameDivisors(st, a, m) && Sized(st, a, m)
  }

  lemma InvStart(a: nat, m: nat)
    requires m % 2 == 1
    ensures Inv(Start(a, m), a, m)
  {
    LinearStart(a, m);
  }

  lemma InvStep(st: State, a: nat, m: nat)
    requires Inv(st, a, m) && st.v > 0
    ensures Inv(Step(st), a, m)
  {
    hide Linear, SameDivisors, Sized;
    assert st.u > 0 by { Positive(st, a, m); }
    LinearStep(st, a, m);
    DivisorsStep(st, a, m);
    SizedStep(st, a, m);
  }

  lemma Positive(st: State, a: nat, m: nat)
    requires m > 0 && Linear(st, a, m)
    ensures st.u > 0 && st.s > 0
  {
  }

  lemma {:induction false} InvIterate(st: State, a: nat, m: nat)
    requires Inv(st, a, m) && st.u > 0
    ensures Inv(Iterate(st), a, m) && Iterate(st).v == 0
    decreases st.u + st.v
  {
    hide Inv;
    if st.v > 0 {
      InvStep(st, a, m);
      InvIterate(Step(st), a, m);
    }
  }

  /** Every value of the loop fits: s <= m always, t <= m while v > 0, and t < 2m in the end. */
  lemma StepFits(st: State, a: nat, m: nat)
    requires Inv(st, a, m) && st.v > 0
    ensures st.s + st.t <= m && Step(st).s <= m
    ensures Step(st).t < 2 * m && (Step(st).v > 0 ==> Step(st).t <= m)
    ensures Step(st).u <= m
  {
    InvStep(st, a, m);
    Fits(st, m);
    Fits(Step(st), m);
  }

  lemma Fits(st: State, m: nat)
    requires st.u > 0 && st.s > 0 && m == st.u * st.s + st.v * st.t
    ensures st.s <= m && st.u <= m && (st.v > 0 ==> st.s + st.t <= m)
  {
    MulMonotone(st.s, 1, st.u);
    MulMonotone(st.u, 1, st.s);
    MulMonotone(st.t, 0, st.v);
    if st.v > 0 { MulMonotone(st.t, 1, st.v); }
  }

  /** In the end u is a common divisor of m and a, and divides by all others. */
  lemma FinalGcd(f: State, a: nat, m: nat)
    requires Inv(f, a, m) && f.v == 0
    ensures f.u == 1 <==> Coprime(a, m)
  {
    var u := f.u;
    DividesFrom(u, u, 1);
    DividesFrom(u, 0, 0);
    if u > 1 {
      assert Divides(u, f.u) && Divides(u, f.v);
    } else {
      forall d: int | d > 1 && Divides(d, a) ensures !Divides(d, m) {
        SmallMod(1, d);
        assert !Divides(d, f.u);
      }
    }
  }

  /** The bounds on k at the end of a run for coprime numbers. */
  lemma FinalRange(f: State, a: nat, m: nat)
    requires Inv(f, a, m) && f.v == 0 && f.u == 1 && 0 < a < m
    ensures BitLen(m) <= f.k <= 2 * BitLen(m)
  {
    hide Inv, Pow, BitLen, Times;
    var n := BitLen(m);
    BitLenBounds(m);
    FinalSizes(f, a, m);
    if f.k < n { PowMonotone(2, f.k, n - 1); }
    SquareBound(a, m, n);
    if f.k > 2 * n { PowMonotone(2, 2 * n, f.k - 1); }
  }

  lemma FinalSizes(f: State, a: nat, m: nat)
    requires Inv(f, a, m) && f.v == 0 && f.u == 1
    ensures Pow(2, f.k) >= m + a && (f.k > 0 ==> Pow(2, f.k - 1) <= Times(m, a))
  {
    hide Pow, Linear, SameDivisors;
  }

  /** Correctness of the almost inverse, for every a below an odd m > 1. */
  lemma ResultCorrect(a: nat, m: nat)
    requires m % 2 == 1 && m > 1 && a < m
    ensures Result(a, m).0 == 0 <==> !Coprime(a, m)
    ensures Result(a, m).0 != 0 ==>
              && BitLen(m) <= Result(a, m).0 <= 2 * BitLen(m)
              && 0 < Result(a, m).1 < m
              && Cong(a * Result(a, m).1, Pow(2, Result(a, m).0), m)
  {
    hide Iterate, Inv, Cong, Coprime, Pow, BitLen;
    InvStart(a, m);
    InvIterate(Start(a, m), a, m);
    var f := Iterate(Start(a, m));
    FinalGcd(f, a, m);
    if f.u == 1 {
      ZeroHasNone(m);
      FinalRange(f, a, m);
      PositiveLen(m);
      FinalInRange(f, a, m);
      FinalCong(f, a, m);
      FinalT(a, m, f.t, Pow(2, f.k), f.k);
    }
  }

  lemma ZeroHasNone(m: nat)
    requires m > 1
    ensures Iterate(Start(0, m)).u != 1
  {
  }

  lemma PositiveLen(m: nat)
    requires m > 0
    ensures BitLen(m) > 0
  {
  }

  lemma FinalCong(f: State, a: nat, m: nat)
    requires m > 0 && Inv(f, a, m) && f.u == 1
    ensures Cong(a * f.t, -1 * Pow(2, f.k), m)
  {
    hide Cong, Pow;
  }

  lemma {:induction false} FinalBelow(st: State, a: nat, m: nat)
    requires Inv(st, a, m) && st.t <= m && st.u > 0
    ensures Iterate(st).t < 2 * m
    decreases st.u + st.v
  {
    if st.v > 0 {
      StepFits(st, a, m);
      InvStep(st, a, m);
      if Step(st).v > 0 { FinalBelow(Step(st), a, m); }
    }
  }

  lemma FinalInRange(f: State, a: nat, m: nat)
    requires m % 2 == 1 && f == Iterate(Start(a, m))
    ensures f.t < 2 * m
  {
    InvStart(a, m);
    FinalBelow(Start(a, m), a, m);
  }

  /** From a * t = -2^k and t < 2m to the result m - t, reduced. */
  lemma FinalT(a: nat, m: nat, t: nat, w: nat, k: nat)
    requires m % 2 == 1 && m > 1 && t < 2 * m && w == Pow(2, k) && Cong(a * t, -1 * w, m)
    ensures var r := m - (if t >= m then t - m else t); 0 < r < m && Cong(a * r, w, m)
  {
    var c := if t >= m then 1 else 0;
    var r := m - (t - c * m);
    assert a * r - w == -(a * t + w) + a * ((1 + c) * m) by { Distribute(a, (1 + c) * m, t); }
    var q := CongQuotient(a * t, -1 * w, m);
    MulAssoc(a, 1 + c, m);
    Distribute(m, a * (1 + c), q);
    CongFrom(a * r, w, m, a * (1 + c) - q);
    if r == m {
      MulAssoc(a, 1, m);
      CongFrom(a * r, 0, m, a);
      CongSym(a * r, w, m);
      CongTrans(w, a * r, 0, m);
      CongFrom(0, 0 * w, m, 0);
      assert 1 * w == w && 0 * w == 0;
      CongTrans(1 * w, 0, 0 * w, m);
      CongCancelPow2(1, 0, k, m);
      CongUnique(1, 0, m);
    }
  }

  // ----- the fixed number of masked steps

  /** A step when v > 0, nothing otherwise. */
  function MaskedStep(st: State): State {
    if st.v == 0 then st else Step(st)
  }

  function Run(st: State, n: nat): State
    decreases n
  {
    if n == 0 then st else Run(MaskedStep(st), n - 1)
  }

  /** Once v = 0 is reached, the run equals the loop. */
  lemma {:induction false} RunIsIterate(st: State, n: nat)
    requires st.u > 0 && Run(st, n).v == 0
    ensures Run(st, n) == Iterate(st)
    decreases n
  {
    if n > 0 {
      if st.v == 0 {
        RunIdle(st, n);
      } else {
        RunIsIterate(Step(st), n - 1);
      }
    }
  }

  lemma {:induction false} RunIdle(st: State, n: nat)
    requires st.v == 0
    ensures Run(st, n) == st
  {
    if n > 0 { RunIdle(st, n - 1); }
  }

  lemma {:induction false} RunCounts(st: State, n: nat, a: nat, m: nat)
    requires Inv(st, a, m)
    ensures Inv(Run(st, n), a, m) && (Run(st, n).v > 0 ==> Run(st, n).k == st.k + n)
    decreases n
  {
    hide Inv;
    if n > 0 {
      if st.v == 0 {
        RunIdle(st, n);
      } else {
        InvStep(st, a, m);
        RunCounts(Step(st), n - 1, a, m);
      }
    }
  }

  /** 2 * bits masked steps always suffice for a modulus of at most that many bits. */
  lemma FixedStepsSuffice(a: nat, m: nat, bits: nat)
    requires m % 2 == 1 && a < m < Pow(2, bits)
    ensures Run(Start(a, m), 2 * bits) == Iterate(Start(a, m))
  {
    InvStart(a, m);
    RunCounts(Start(a, m), 2 * bits, a, m);
    var f := Run(Start(a, m), 2 * bits);
    SquareBound(a, m, bits);
    if f.v > 0 { PowerBound(f, a, m); }
    RunIsIterate(Start(a, m), 2 * bits);
  }

  lemma PowerBound(f: State, a: nat, m: nat)
    requires Sized(f, a, m) && f.u > 0 && f.v > 0
    ensures Pow(2, f.k) <= Times(m, a)
  {
    MulPositive(f.u, f.v);
    PowPositive(2, f.k);
    MulMonotone(Pow(2, f.k), 1, f.u * f.v);
  }

  lemma SquareBound(a: nat, m: nat, bits: nat)
    requires a < m < Pow(2, bits)
    ensures Times(m, a) < Pow(2, 2 * bits)
  {
    PowAdd(2, bits, bits);
    BelowSquare(m, a, Pow(2, bits));
  }
}
