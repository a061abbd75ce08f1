/** Multi-word integers held in a flat memory of base-b words, least significant word first. */
module Words {
  import opened NatArith

  /** Every cell holds one word. */
  ghost predicate WordMem(b: nat, s: seq<nat>) {
    forall i :: 0 <= i < |s| ==> s[i] < b
  }

  /** The value of digit x at position i. */
  function At(b: nat, x: nat, i: nat): nat {
    x * Pow(b, i)
  }

  /** The integer held by the n words at offset p. */
  function Val(b: nat, s: seq<nat>, p: nat, n: nat): nat
    requires p + n <= |s|
  {
    if n == 0 then 0 else Val(b, s, p, n - 1) + At(b, s[p + n - 1], n - 1)
  }

  /** s1 differs from s0 at most on [lo, hi). */
  ghost predicate Frame(s0: seq<nat>, s1: seq<nat>, lo: nat, hi: nat) {
    |s0| == |s1| && forall i {:trigger s1[i]} :: 0 <= i < |s0| && (i < lo || hi <= i) ==> s1[i] == s0[i]
  }

  /** s1 differs from s0 at most on [lo, hi) and [lo', hi'). */
  ghost predicate Frame2(s0: seq<nat>, s1: seq<nat>, lo: nat, hi: nat, lo': nat, hi': nat) {
    |s0| == |s1| &&
    forall i {:trigger s1[i]} ::
      0 <= i < |s0| && (i < lo || hi <= i) && (i < lo' || hi' <= i) ==> s1[i] == s0[i]
  }

  /** Two n-word operands coincide or do not overlap. */
  predicate Compatible(p: nat, q: nat, n: nat) {
    p == q || p + n <= q || q + n <= p
  }

  lemma {:induction false} ValBound(b: nat, s: seq<nat>, p: nat, n: nat)
    requires b > 0 && p + n <= |s| && WordMem(b, s)
    ensures Val(b, s, p, n) < Pow(b, n)
  {
    if n > 0 {
      ValBound(b, s, p, n - 1);
      DigitBound(b, n - 1, Val(b, s, p, n - 1), s[p + n - 1]);
    }
  }

  lemma DigitBound(b: nat, i: nat, v: nat, w: nat)
    requires v < Pow(b, i) && w < b
    ensures v + At(b, w, i) < Pow(b, i + 1) && (At(b, w, i) == 0 <==> w == 0)
  {
    var pw := Pow(b, i);
    MulMonotone(pw, w + 1, b);
    Distribute(pw, w, 1);
    if w > 0 { MulPositive(w, pw); }
  }

  lemma {:induction false} ValAgree(b: nat, s0: seq<nat>, p: nat, s1: seq<nat>, q: nat, n: nat)
    requires p + n <= |s0| && q + n <= |s1|
    requires forall i {:trigger s0[i]} :: p <= i < p + n ==> s0[i] == s1[i - p + q]
    ensures Val(b, s0, p, n) == Val(b, s1, q, n)
  {
    if n > 0 { ValAgree(b, s0, p, s1, q, n - 1); }
  }

  /** Values outside the written range are kept. */
  lemma FrameVals(b: nat, s0: seq<nat>, s1: seq<nat>, lo: nat, hi: nat)
    requires Frame(s0, s1, lo, hi)
    ensures forall p: nat, n: nat {:trigger Val(b, s1, p, n)} ::
              p + n <= |s1| && (p + n <= lo || hi <= p) ==> Val(b, s1, p, n) == Val(b, s0, p, n)
  {
    forall p: nat, n: nat | p + n <= |s1| && (p + n <= lo || hi <= p)
      ensures Val(b, s1, p, n) == Val(b, s0, p, n)
    {
      ValAgree(b, s0, p, s1, p, n);
    }
  }

  lemma Frame2Vals(b: nat, s0: seq<nat>, s1: seq<nat>, lo: nat, hi: nat, lo': nat, hi': nat)
    requires Frame2(s0, s1, lo, hi, lo', hi')
    ensures forall p: nat, n: nat {:trigger Val(b, s1, p, n)} ::
              p + n <= |s1| && (p + n <= lo || hi <= p) && (p + n <= lo' || hi' <= p)
              ==> Val(b, s1, p, n) == Val(b, s0, p, n)
  {
    forall p: nat, n: nat | p + n <= |s1| && (p + n <= lo || hi <= p) && (p + n <= lo' || hi' <= p)
      ensures Val(b, s1, p, n) == Val(b, s0, p, n)
    {
      ValAgree(b, s0, p, s1, p, n);
    }
  }

  lemma {:induction false} ValSplit(b: nat, s: seq<nat>, p: nat, n: nat, k: nat)
    requires p + n + k <= |s|
    ensures Val(b, s, p, n + k) == Val(b, s, p, n) + Pow(b, n) * Val(b, s, p + n, k)
  {
    if k > 0 {
      ValSplit(b, s, p, n, k - 1);
      var w := s[p + n + k - 1];
      PowAdd(b, n, k - 1);
      MulAssoc(w, Pow(b, n), Pow(b, k - 1));
      MulAssoc(Pow(b, n), w, Pow(b, k - 1));
      Distribute(Pow(b, n), Val(b, s, p + n, k - 1), w * Pow(b, k - 1));
    }
  }

  lemma {:induction false} ValZero(b: nat, s: seq<nat>, p: nat, n: nat)
    requires b > 0 && p + n <= |s|
    ensures Val(b, s, p, n) == 0 <==> forall i :: p <= i < p + n ==> s[i] == 0
  {
    if n > 0 {
      ValZero(b, s, p, n - 1);
      PowPositive(b, n - 1);
      if s[p + n - 1] > 0 { MulPositive(s[p + n - 1], Pow(b, n - 1)); }
    }
  }

  lemma ValStep(b: nat, s: seq<nat>, p: nat, n: nat)
    requires 0 < n && p + n <= |s|
    ensures Val(b, s, p, n) == Val(b, s, p, n - 1) + At(b, s[p + n - 1], n - 1)
  {
  }

  /** The lowest word, and the rest. */
  lemma ValLow(b: nat, s: seq<nat>, p: nat, n: nat)
    requires b > 0 && 0 < n && p + n <= |s|
    ensures Val(b, s, p, n) == s[p] + b * Val(b, s, p + 1, n - 1)
  {
    ValSplit(b, s, p, 1, n - 1);
    assert Val(b, s, p, 1) == s[p] * Pow(b, 0) == s[p];
    assert Pow(b, 1) == b * Pow(b, 0) == b;
  }

  /** carry * b for a carry of at most two. */
  ghost function Twice(carry: nat, b: nat): nat {
    if carry == 0 then 0 else if carry == 1 then b else b + b
  }

  /** (carry, r) = x + y + c on words, carry counted from the two wrapped additions. */
  method AddAbc(b: nat, x: nat, y: nat, c: nat) returns (carry: nat, r: nat)
    requires x < b && y < b && c < b
    ensures x + y + c == r + Twice(carry, b)
    ensures r < b && carry <= 2 && (c <= 1 ==> carry <= 1)
  {
    var s := if x + y < b then x + y else x + y - b;
    var t1 := if s < x then 1 else 0;
    r := if s + c < b then s + c else s + c - b;
    var t2 := if r < s then 1 else 0;
    carry := t1 + t2;
  }

  /** A one-bit carry out of position n - 1. */
  ghost function Carry(b: nat, c: nat, n: nat): nat {
    if c == 0 then 0 else Pow(b, n)
  }

  lemma AddStep(b: nat, i: nat, w: nat, c': nat, x: nat, y: nat, c: nat)
    requires c <= 1 && c' <= 1 && w + (if c' == 1 then b else 0) == x + y + c
    ensures At(b, w, i) + Carry(b, c', i + 1) == At(b, x, i) + At(b, y, i) + Carry(b, c, i)
  {
    var pw := Pow(b, i);
    Distribute(pw, x + y, c);
    Distribute(pw, x, y);
    Distribute(pw, w, b);
  }

  /** cpAdd_BNU: r = x + y over n words, returning the carry out. */
  method Add(b: nat, mem: array<nat>, r: nat, x: nat, y: nat, n: nat) returns (carry: nat)
    requires b >= 2 && WordMem(b, mem[..])
    requires r + n <= mem.Length && x + n <= mem.Length && y + n <= mem.Length
    requires Compatible(r, x, n) && Compatible(r, y, n)
    modifies mem
    ensures WordMem(b, mem[..]) && Frame(old(mem[..]), mem[..], r, r + n)
    ensures carry <= 1
    ensures Val(b, mem[..], r, n) + Carry(b, carry, n)
         == Val(b, old(mem[..]), x, n) + Val(b, old(mem[..]), y, n)
  {
    hide At, Pow;
    carry := 0;
    ghost var s0 := mem[..];
    for i := 0 to n
      invariant WordMem(b, mem[..]) && Frame(s0, mem[..], r, r + i) && carry <= 1
      invariant Val(b, mem[..], r, i) + Carry(b, carry, i) == Val(b, s0, x, i) + Val(b, s0, y, i)
    {
      ghost var before := mem[..];
      assert mem[x + i] == before[x + i] == s0[x + i] && mem[y + i] == before[y + i] == s0[y + i];
      ghost var c := carry;
      var w;
      carry, w := AddAbc(b, mem[x + i], mem[y + i], carry);
      mem[r + i] := w;
      ValAgree(b, before, r, mem[..], r, i);
      AddStep(b, i, w, carry, s0[x + i], s0[y + i], c);
    }
  }

  lemma SubStep(b: nat, i: nat, w: nat, c': nat, x: nat, y: nat, c: nat)
    requires c <= 1 && c' <= 1 && w == x - y - c + (if c' == 1 then b else 0)
    ensures At(b, w, i) - Carry(b, c', i + 1) == At(b, x, i) - At(b, y, i) - Carry(b, c, i)
  {
    AddStep(b, i, x, c', w, y, c);
  }

  /** cpSub_BNU: r = x - y over n words, returning the borrow out. */
  method Sub(b: nat, mem: array<nat>, r: nat, x: nat, y: nat, n: nat) returns (borrow: nat)
    requires b >= 2 && WordMem(b, mem[..])
    requires r + n <= mem.Length && x + n <= mem.Length && y + n <= mem.Length
    requires Compatible(r, x, n) && Compatible(r, y, n)
    modifies mem
    ensures WordMem(b, mem[..]) && Frame(old(mem[..]), mem[..], r, r + n)
    ensures borrow <= 1
    ensures Val(b, mem[..], r, n) - Carry(b, borrow, n)
         == Val(b, old(mem[..]), x, n) - Val(b, old(mem[..]), y, n)
  {
    hide At, Pow;
    borrow := 0;
    ghost var s0 := mem[..];
    for i := 0 to n
      invariant WordMem(b, mem[..]) && Frame(s0, mem[..], r, r + i) && borrow <= 1
      invariant Val(b, mem[..], r, i) - Carry(b, borrow, i) == Val(b, s0, x, i) - Val(b, s0, y, i)
    {
      ghost var before := mem[..];
      assert mem[x + i] == before[x + i] == s0[x + i] && mem[y + i] == before[y + i] == s0[y + i];
      ghost var c := borrow;
      var d := mem[x + i] - mem[y + i] - borrow;
      borrow := if d < 0 then 1 else 0;
      var w := if d < 0 then d + b else d;
      mem[r + i] := w;
      ValAgree(b, before, r, mem[..], r, i);
      SubStep(b, i, w, borrow, s0[x + i], s0[y + i], c);
    }
  }

  /** cpLSR_BNU by one bit: r = x / 2. */
  method Halve(b: nat, mem: array<nat>, r: nat, x: nat, n: nat)
    requires b >= 2 && b % 2 == 0 && WordMem(b, mem[..])
    requires 0 < n && r + n <= mem.Length && x + n <= mem.Length && Compatible(r, x, n)
    modifies mem
    ensures WordMem(b, mem[..]) && Frame(old(mem[..]), mem[..], r, r + n)
    ensures Val(b, mem[..], r, n) == Val(b, old(mem[..]), x, n) / 2
  {
    hide At, Pow;
    ghost var s0 := mem[..];
    var lo := mem[x];
    PowZero(b);
    for i := 0 to n - 1
      invariant WordMem(b, mem[..]) && Frame(s0, mem[..], r, r + i) && lo == s0[x + i]
      invariant 2 * Val(b, mem[..], r, i) + s0[x] % 2 == Val(b, s0, x, i) + Carry(b, lo % 2, i)
    {
      ghost var before := mem[..];
      var hi := mem[x + i + 1];
      assert hi == before[x + i + 1] == s0[x + i + 1];
      var w := lo / 2 + (if hi % 2 == 1 then b / 2 else 0);
      mem[r + i] := w;
      ValAgree(b, before, r, mem[..], r, i);
      HalveStep(b, i, lo, hi, w);
      lo := hi;
    }
    ghost var before := mem[..];
    mem[r + n - 1] := lo / 2;
    ValAgree(b, before, r, mem[..], r, n - 1);
    HalveLast(b, n - 1, lo);
  }

  lemma PowZero(b: nat)
    ensures Pow(b, 0) == 1 && Pow(b, 1) == b
  {
    assert Pow(b, 1) == b * Pow(b, 0);
  }

  lemma HalveStep(b: nat, i: nat, lo: nat, hi: nat, w: nat)
    requires b % 2 == 0 && w == lo / 2 + (if hi % 2 == 1 then b / 2 else 0)
    ensures 2 * At(b, w, i) + Carry(b, lo % 2, i) == At(b, lo, i) + Carry(b, hi % 2, i + 1)
  {
    var pw := Pow(b, i);
    Distribute(pw, 2 * w, lo % 2);
    Distribute(pw, lo, b);
    assert 2 * (w * pw) == (2 * w) * pw;
  }

  lemma HalveLast(b: nat, i: nat, lo: nat)
    ensures 2 * At(b, lo / 2, i) + Carry(b, lo % 2, i) == At(b, lo, i)
  {
    var pw := Pow(b, i);
    Distribute(pw, 2 * (lo / 2), lo % 2);
    assert 2 * (lo / 2 * pw) == (2 * (lo / 2)) * pw;
  }

  /** cpMaskedReplace_ct: dst = src when the mask is all ones, else unchanged. */
  method MaskedReplace(b: nat, mem: array<nat>, dst: nat, src: nat, n: nat, mask: bool)
    requires WordMem(b, mem[..])
    requires dst + n <= mem.Length && src + n <= mem.Length && Compatible(dst, src, n)
    modifies mem
    ensures WordMem(b, mem[..]) && Frame(old(mem[..]), mem[..], dst, dst + n)
    ensures mask ==> Val(b, mem[..], dst, n) == Val(b, old(mem[..]), src, n)
    ensures !mask ==> mem[..] == old(mem[..])
  {
    ghost var s0 := mem[..];
    for i := 0 to n
      invariant WordMem(b, mem[..]) && Frame(s0, mem[..], dst, dst + i)
      invariant mask ==> forall j {:trigger mem[j]} :: dst <= j < dst + i ==> mem[j] == s0[j - dst + src]
      invariant !mask ==> mem[..] == s0
    {
      ghost var before := mem[..];
      assert mem[src + i] == before[src + i] == s0[src + i];
      assert mem[dst + i] == before[dst + i] == s0[dst + i];
      mem[dst + i] := if mask then mem[src + i] else mem[dst + i];
      assert !mask ==> mem[..] == before;
    }
    if mask { ValAgree(b, mem[..], dst, s0, src, n); }
  }

  /** COPY_BNU. */
  method Copy(b: nat, mem: array<nat>, dst: nat, src: nat, n: nat)
    requires WordMem(b, mem[..])
    requires dst + n <= mem.Length && src + n <= mem.Length && Compatible(dst, src, n)
    modifies mem
    ensures WordMem(b, mem[..]) && Frame(old(mem[..]), mem[..], dst, dst + n)
    ensures Val(b, mem[..], dst, n) == Val(b, old(mem[..]), src, n)
  {
    MaskedReplace(b, mem, dst, src, n, true);
  }

  /** ZEXPAND_BNU(dst, 0, n). */
  method ClearWords(b: nat, mem: array<nat>, dst: nat, n: nat)
    requires b > 0 && WordMem(b, mem[..]) && dst + n <= mem.Length
    modifies mem
    ensures WordMem(b, mem[..]) && Frame(old(mem[..]), mem[..], dst, dst + n)
    ensures Val(b, mem[..], dst, n) == 0
    ensures forall i :: dst <= i < dst + n ==> mem[i] == 0
  {
    ghost var s0 := mem[..];
    for i := 0 to n
      invariant WordMem(b, mem[..]) && Frame(s0, mem[..], dst, dst + n)
      invariant forall j :: dst <= j < dst + i ==> mem[j] == 0
    {
      mem[dst + i] := 0;
    }
    ValZero(b, mem[..], dst, n);
  }

  /** ZEXPAND_BNU(dst, 0, n) followed by dst[0] = w. */
  method SetWord(b: nat, mem: array<nat>, dst: nat, n: nat, w: nat)
    requires b > 0 && WordMem(b, mem[..]) && w < b && 0 < n && dst + n <= mem.Length
    modifies mem
    ensures WordMem(b, mem[..]) && Frame(old(mem[..]), mem[..], dst, dst + n)
    ensures Val(b, mem[..], dst, n) == w
    ensures forall i :: dst < i < dst + n ==> mem[i] == 0
  {
    ClearWords(b, mem, dst, n);
    mem[dst] := w;
    ValLow(b, mem[..], dst, n);
    ValZero(b, mem[..], dst + 1, n - 1);
  }

  /** cpEqu_BNU_CHUNK: the value equals the word w. */
  method EqualsWord(b: nat, mem: array<nat>, x: nat, n: nat, w: nat) returns (eq: bool)
    requires b > 0 && WordMem(b, mem[..]) && w < b && 0 < n && x + n <= mem.Length
    ensures eq <==> Val(b, mem[..], x, n) == w
  {
    eq := mem[x] == w;
    for i := 1 to n
      invariant eq <==> mem[x] == w && forall j :: x < j < x + i ==> mem[j] == 0
    {
      eq := eq && mem[x + i] == 0;
    }
    ValLow(b, mem[..], x, n);
    ValZero(b, mem[..], x + 1, n - 1);
    var rest := Val(b, mem[..], x + 1, n - 1);
    if rest > 0 { MulMonotone(b, 1, rest); }
  }

  /** cpCmp_BNU on equal lengths: the sign of x - y, from the borrow and the or of all differences. */
  method Compare(b: nat, mem: array<nat>, x: nat, y: nat, n: nat) returns (sign: int)
    requires b >= 2 && WordMem(b, mem[..]) && x + n <= mem.Length && y + n <= mem.Length
    ensures sign > 0 <==> Val(b, mem[..], x, n) > Val(b, mem[..], y, n)
    ensures sign < 0 <==> Val(b, mem[..], x, n) < Val(b, mem[..], y, n)
  {
    hide At, Pow;
    var borrow: nat, differ := 0, false;
    ghost var diff: nat := 0;
    PowZero(b);
    for i := 0 to n
      invariant borrow <= 1 && diff < Pow(b, i) && (differ <==> diff != 0)
      invariant diff - Carry(b, borrow, i) == Val(b, mem[..], x, i) - Val(b, mem[..], y, i)
    {
      var d: int := mem[x + i] - mem[y + i] - borrow;
      ghost var c := borrow;
      borrow := if d < 0 then 1 else 0;
      var w := if d < 0 then d + b else d;
      differ := differ || w != 0;
      SubStep(b, i, w, borrow, mem[x + i], mem[y + i], c);
      DigitBound(b, i, diff, w);
      diff := diff + At(b, w, i);
    }
    sign := if borrow == 1 then -1 else if differ then 1 else 0;
  }
}
