/** AES-GCM bulk encryption and decryption on the AVX2 path: the 16/8/4/2/1-block cascade. */
module Gcm {
  import opened NatArith
  import opened Bits
  import opened Gf2
  import opened Ghash
  import opened GcmStandard
  import opened GhashGroups

  const BLOCK_SIZE: nat := 16

  /** The part of the state that a call changes. */
  datatype View = View(hash: nat, counter: nat, ecounter: nat)

  /** Section 6.5: block i is xored with the cipher of the counter advanced i times. */
  ghost function Gctr(E: nat -> nat, c: nat, xs: seq<nat>): (ys: seq<nat>)
    ensures |ys| == |xs|
  {
    seq<nat>(|xs|, i requires 0 <= i < |xs| => Xor(xs[i], E(Inc32(c, i))))
  }

  /** What a call does to the state, given the ciphertext blocks. */
  ghost function After(E: nat -> nat, h: nat, v: View, text: seq<nat>): View {
    View(Hash(v.hash, text, h), Inc32(v.counter, |text|), E(Inc32(v.counter, |text|)))
  }

  /** Counter mode undoes itself. */
  lemma GctrTwice(E: nat -> nat, c: nat, xs: seq<nat>)
    ensures Gctr(E, c, Gctr(E, c, xs)) == xs
  {
    hide Xor;
    var ys := Gctr(E, c, xs);
    forall i | 0 <= i < |xs| ensures Xor(ys[i], E(Inc32(c, i))) == xs[i] {
      var k := E(Inc32(c, i));
      XorAssoc(xs[i], k, k);
      XorSelf(k);
      XorZero(xs[i]);
    }
  }

  /** Two runs of blocks follow each other. */
  lemma GctrConcat(E: nat -> nat, c: nat, xs: seq<nat>, zs: seq<nat>)
    ensures Gctr(E, c, xs + zs) == Gctr(E, c, xs) + Gctr(E, Inc32(c, |xs|), zs)
  {
    hide Inc32, Xor;
    forall i | 0 <= i < |zs| ensures Inc32(Inc32(c, |xs|), i) == Inc32(c, |xs| + i) {
      Inc32Add(c, |xs|, i);
    }
  }

  /** A block of counter mode, bit by bit and with the counter in plain arithmetic. */
  lemma GctrBit(E: nat -> nat, c: nat, xs: seq<nat>, i: nat, t: nat)
    requires i < |xs|
    ensures var y := c / 0x1_0000_0000 * 0x1_0000_0000 + (c + i) % 0x1_0000_0000;
            Bit(Gctr(E, c, xs)[i], t) == (Bit(xs[i], t) + Bit(E(y), t)) % 2
  {
    hide Xor, Bit, Inc32;
    Inc32Meaning(c, i);
    BitXor(xs[i], E(Inc32(c, i)), t);
  }

  /** IncrementRegister256. */
  function IncPair(p: Pair, n: nat): Pair {
    Pair(Inc32(p.lane0, n), Inc32(p.lane1, n))
  }

  /** The registers hold the counters c, c + 1 | c + 2, c + 3 | ... */
  ghost predicate Counters(ctr: seq<Pair>, n: nat, c: nat) {
    n <= |ctr| && forall i :: 0 <= i < n ==> ctr[i] == Pair(Inc32(c, 2 * i), Inc32(c, 2 * i + 1))
  }

  lemma CountersAdvance(ctr: seq<Pair>, ctr': seq<Pair>, n: nat, c: nat, step: nat)
    requires Counters(ctr, n, c) && |ctr'| >= n
    requires forall i {:trigger ctr'[i]} :: 0 <= i < n ==> ctr'[i] == IncPair(ctr[i], step)
    ensures Counters(ctr', n, Inc32(c, step))
  {
    hide Inc32;
    forall i | 0 <= i < n ensures ctr'[i] == Pair(Inc32(Inc32(c, step), 2 * i), Inc32(Inc32(c, step), 2 * i + 1)) {
      Inc32Add(c, step, 2 * i);
      Inc32Add(c, step, 2 * i + 1);
      Inc32Add(c, 2 * i, step);
      Inc32Add(c, 2 * i + 1, step);
    }
  }

  /** The text that is hashed: the ciphertext, which is the output of encryption and the input of decryption. */
  ghost function Text(E: nat -> nat, c: nat, xs: seq<nat>, encrypting: bool): (t: seq<nat>)
    ensures |t| == |xs|
  {
    if encrypting then Gctr(E, c, xs) else xs
  }

  /** After pos blocks of p, with the memory now s and d, and before that p and d0. */
  ghost predicate Done(E: nat -> nat, h: nat, v: View, encrypting: bool, p: seq<nat>, d0: seq<nat>,
                       s: seq<nat>, d: seq<nat>, hash: nat, pos: nat)
  {
    && |s| == |p| && |d| == |d0| && pos <= |p| && pos <= |d0|
    && d == Gctr(E, v.counter, p[..pos]) + d0[pos..] && s[pos..] == p[pos..]
    && hash == Hash(v.hash, Text(E, v.counter, p[..pos], encrypting), h)
  }

  /** k more blocks. */
  lemma DoneStep(E: nat -> nat, h: nat, v: View, encrypting: bool, p: seq<nat>, d0: seq<nat>,
                 s: seq<nat>, d: seq<nat>, hash: nat, pos: nat, k: nat, s': seq<nat>, d': seq<nat>, hash': nat)
    requires Done(E, h, v, encrypting, p, d0, s, d, hash, pos) && pos + k <= |p| && pos + k <= |d0|
    requires |s'| == |s| && s'[pos + k..] == s[pos + k..]
    requires var c := Inc32(v.counter, pos);
             && d' == d[..pos] + Gctr(E, c, s[pos..pos + k]) + d[pos + k..]
             && hash' == Hash(hash, Text(E, c, s[pos..pos + k], encrypting), h)
    ensures Done(E, h, v, encrypting, p, d0, s', d', hash', pos + k)
  {
    hide Gctr, Hash;
    var x, z := p[..pos], p[pos..pos + k];
    assert p[..pos + k] == x + z;
    assert s[pos..pos + k] == z by { assert s[pos..pos + k] == s[pos..][..k] == p[pos..][..k]; }
    GctrConcat(E, v.counter, x, z);
    HashConcat(v.hash, Text(E, v.counter, x, encrypting), Text(E, Inc32(v.counter, pos), z, encrypting), h);
    var head := Gctr(E, v.counter, x);
    assert d[..pos] == head;
    assert d[pos + k..] == d0[pos + k..];
    assert s'[pos + k..] == p[pos + k..] by {
      assert s[pos + k..] == s[pos..][k..];
      assert p[pos + k..] == p[pos..][k..];
    }
  }

  lemma {:induction false} FlatAt(gh: seq<Pair>, g: nat, i: nat, k: nat)
    requires i + k < g <= |gh|
    ensures Flat(gh, g, i)[2 * k] == gh[i + k].lane0 && Flat(gh, g, i)[2 * k + 1] == gh[i + k].lane1
    decreases k
  {
    if k > 0 { FlatAt(gh, g, i + 1, k - 1); }
  }

  lemma {:induction false} FlatAgree(a: seq<Pair>, b: seq<Pair>, g: nat, i: nat)
    requires i <= g <= |a| && g <= |b| && forall j :: i <= j < g ==> a[j] == b[j]
    ensures Flat(a, g, i) == Flat(b, g, i)
    decreases g - i
  {
    if i < g { FlatAgree(a, b, g, i + 1); }
  }

  /** A flattened group is its blocks in order. */
  lemma FlatIs(text: seq<Pair>, g: nat, xs: seq<nat>)
    requires g == |text| && |xs| == 2 * g
    requires forall i :: 0 <= i < g ==> text[i] == Pair(xs[2 * i], xs[2 * i + 1])
    ensures Flat(text, g, 0) == xs
  {
    forall j | 0 <= j < 2 * g ensures Flat(text, g, 0)[j] == xs[j] {
      FlatAt(text, g, 0, j / 2);
      assert j == 2 * (j / 2) || j == 2 * (j / 2) + 1;
    }
  }

  /** The counter part of one stage: g registers, two blocks each. */
  method CryptPairs(E: nat -> nat, src: array<nat>, dst: array<nat>, pos: nat, g: nat, ctr: array<Pair>,
                    encrypting: bool, ghost c: nat) returns (text: seq<Pair>)
    requires pos + 2 * g <= src.Length && pos + 2 * g <= dst.Length
    requires g <= ctr.Length && Counters(ctr[..], g, c)
    modifies dst, ctr
    ensures |text| == g && Counters(ctr[..], g, Inc32(c, 2 * g))
    ensures Flat(text, g, 0) == Text(E, c, old(src[pos..pos + 2 * g]), encrypting)
    ensures dst[..] == old(dst[..pos]) + Gctr(E, c, old(src[pos..pos + 2 * g])) + old(dst[pos + 2 * g..])
    ensures old(src[pos + 2 * g..]) == src[pos + 2 * g..]
  {
    hide Xor, Inc32, Flat;
    ghost var p, d0, r0 := src[..], dst[..], ctr[..];
    ghost var xs := p[pos..pos + 2 * g];
    ghost var out := Text(E, c, xs, true);
    ghost var hashed := Text(E, c, xs, encrypting);
    text := [];
    for i := 0 to g
      invariant |text| == i && forall j :: 0 <= j < i ==> text[j] == Pair(hashed[2 * j], hashed[2 * j + 1])
      invariant forall j {:trigger ctr[j]} :: 0 <= j < ctr.Length ==>
                  ctr[j] == if j < i then IncPair(r0[j], 2 * g) else r0[j]
      invariant forall j {:trigger dst[j]} :: 0 <= j < dst.Length ==>
                  dst[j] == if pos <= j < pos + 2 * i then out[j - pos] else d0[j]
      invariant forall j {:trigger src[j]} :: pos + 2 * i <= j < src.Length ==> src[j] == p[j]
    {
      assert ctr[i] == Pair(Inc32(c, 2 * i), Inc32(c, 2 * i + 1));
      var block := Pair(E(ctr[i].lane0), E(ctr[i].lane1));
      ctr[i] := IncPair(ctr[i], 2 * g);
      var input := Pair(src[pos + 2 * i], src[pos + 2 * i + 1]);
      assert input == Pair(xs[2 * i], xs[2 * i + 1]);
      var output := XorPair(input, block);
      assert output == Pair(out[2 * i], out[2 * i + 1]);
      dst[pos + 2 * i] := output.lane0;
      dst[pos + 2 * i + 1] := output.lane1;
      text := text + [if encrypting then output else input];
    }
    CountersAdvance(r0, ctr[..], g, c, 2 * g);
    FlatIs(text, g, hashed);
    assert dst[..] == d0[..pos] + out + d0[pos + 2 * g..];
  }

  /** The hash part of one stage. */
  method HashPairs(rp: array<Pair>, hk: seq<Pair>, g: nat, text: seq<Pair>, ghost h: nat, ghost y: nat)
    returns (hash: nat)
    requires rp.Length == 8 && 1 <= g <= 8 && |text| == g && rp[0] == Pair(y, 0) && y < Pow(2, 128)
    requires KeysFor(hk, h, g) && ValidPairs(text, g)
    modifies rp
    ensures hash == Hash(y, Flat(text, g, 0), h) && rp[0] == Pair(hash, 0) && hash < Pow(2, 128)
  {
    hide Xor, Pow, KeyFor, HPow, Hash, LaneSum;
    rp[0] := XorPair(rp[0], text[0]);
    for i := 1 to g
      invariant rp[0] == XorPair(Pair(y, 0), text[0])
      invariant forall j :: 1 <= j < i ==> rp[j] == text[j]
    {
      rp[i] := text[i];
    }
    ghost var gh, xs := rp[..], Flat(text, g, 0);
    XorZero(text[0].lane1);
    XorComm(y, text[0].lane0);
    XorBound(y, text[0].lane0, 128);
    FlatAgree(gh, text, g, 1);
    assert gh[0] == Pair(Xor(xs[0], y), xs[1]);
    assert Flat(gh, g, 0) == [Xor(xs[0], y)] + xs[1..];
    KeysValid(hk, h, g);
    hash := ClmulGroup(rp, hk, g);
    GroupHash(gh, hk, g, h, hash, y, xs);
  }

  lemma KeysValid(hk: seq<Pair>, h: nat, g: nat)
    requires KeysFor(hk, h, g)
    ensures ValidPairs(hk, g)
  {
  }

  ghost predicate BlockCipher(E: nat -> nat) {
    forall x :: E(x) < Pow(2, 128)
  }

  lemma TextBlocks(E: nat -> nat, c: nat, xs: seq<nat>, encrypting: bool)
    requires BlockCipher(E) && Blocks(xs)
    ensures Blocks(Text(E, c, xs, encrypting))
  {
    hide Pow, Xor;
    forall i | 0 <= i < |xs| ensures Text(E, c, xs, encrypting)[i] < Pow(2, 128) {
      XorBound(xs[i], E(Inc32(c, i)), 128);
    }
  }

  lemma FlatValid(text: seq<Pair>, g: nat)
    requires |text| == g && Blocks(Flat(text, g, 0))
    ensures ValidPairs(text, g)
  {
    hide Pow;
    forall i | 0 <= i < g ensures text[i].Valid() {
      FlatAt(text, g, 0, i);
      assert text[i].lane0 == Flat(text, g, 0)[2 * i];
    }
  }

  /** One stage of the cascade: 2 * g blocks. */
  method Stage(E: nat -> nat, src: array<nat>, dst: array<nat>, pos: nat, g: nat, ctr: array<Pair>, rp: array<Pair>,
               hk: seq<Pair>, encrypting: bool, ghost h: nat, ghost v: View, ghost p: seq<nat>, ghost d0: seq<nat>)
    returns (hash: nat)
    requires ctr != rp && ctr.Length == rp.Length == 8 && 1 <= g <= 8
    requires pos + 2 * g <= src.Length && pos + 2 * g <= dst.Length
    requires BlockCipher(E) && Blocks(p) && KeysFor(hk, h, 8)
    requires Counters(ctr[..], g, Inc32(v.counter, pos)) && rp[0].lane1 == 0 && rp[0].lane0 < Pow(2, 128)
    requires Done(E, h, v, encrypting, p, d0, src[..], dst[..], rp[0].lane0, pos)
    modifies dst, ctr, rp
    ensures Counters(ctr[..], g, Inc32(v.counter, pos + 2 * g)) && rp[0] == Pair(hash, 0) && hash < Pow(2, 128)
    ensures Done(E, h, v, encrypting, p, d0, src[..], dst[..], hash, pos + 2 * g)
  {
    hide Xor, Pow, KeyFor, HPow, Hash, Inc32, Gctr, Flat, Text;
    ghost var c, y, s, d := Inc32(v.counter, pos), rp[0].lane0, src[..], dst[..];
    ghost var xs := s[pos..pos + 2 * g];
    var text := CryptPairs(E, src, dst, pos, g, ctr, encrypting, c);
    assert xs == p[pos..pos + 2 * g] by { assert xs == s[pos..][..2 * g] == p[pos..][..2 * g]; }
    TextBlocks(E, c, xs, encrypting);
    FlatValid(text, g);
    hash := HashPairs(rp, hk, g, text, h, y);
    Inc32Add(v.counter, pos, 2 * g);
    DoneStep(E, h, v, encrypting, p, d0, s, d, y, pos, 2 * g, src[..], dst[..], hash);
  }

  /** The last single block: lane 0 of the first counter register, and the first key in both lanes. */
  method LastBlock(E: nat -> nat, src: array<nat>, dst: array<nat>, pos: nat, ctr: array<Pair>, rp: array<Pair>,
                   key: nat, encrypting: bool, ghost h: nat, ghost v: View, ghost p: seq<nat>, ghost d0: seq<nat>)
    returns (hash: nat)
    requires ctr != rp && ctr.Length == rp.Length == 8 && pos < src.Length && pos < dst.Length
    requires BlockCipher(E) && Blocks(p) && h < Pow(2, 128) && KeyFor(key, HPow(h, 1))
    requires ctr[0].lane0 == Inc32(v.counter, pos) && rp[0].lane1 == 0 && rp[0].lane0 < Pow(2, 128)
    requires Done(E, h, v, encrypting, p, d0, src[..], dst[..], rp[0].lane0, pos)
    modifies dst, ctr, rp
    ensures ctr[0].lane0 == Inc32(v.counter, pos + 1) && rp[0] == Pair(hash, 0)
    ensures Done(E, h, v, encrypting, p, d0, src[..], dst[..], hash, pos + 1)
  {
    hide Xor, Pow, Hash, Inc32, Mult, Mul, Reduced, KeyFor;
    ghost var c, y, s, d := ctr[0].lane0, rp[0].lane0, src[..], dst[..];
    ghost var xs := s[pos..pos + 1];
    var input := src[pos];
    var output := Xor(input, E(ctr[0].lane0));
    ctr[0] := IncPair(ctr[0], 1);
    dst[pos] := output;
    var text := if encrypting then output else input;
    rp[0] := Pair(Xor(rp[0].lane0, text), Xor(rp[0].lane1, text));
    assert s[pos] == p[pos] by { assert s[pos..][0] == p[pos..][0]; }
    Inc32Add(v.counter, pos, 1);
    assert Text(E, c, xs, encrypting) == [text] by { Inc32Add(c, 0, 0); }
    XorBound(input, E(c), 128);
    XorBound(y, text, 128);
    PowPositive(2, 128);
    XorZero(text);
    KeyValid(key, HPow(h, 1));
    hash := ClmulOne(rp, Pair(key, key));
    KeyProduct(Xor(y, text), key, HPow(h, 1));
    ReducedUnique(hash, Mult(Xor(y, text), h), Mul(Xor(y, text), key));
    OneBlockHash(y, text, h);
    assert dst[..] == d[..pos] + Gctr(E, c, xs) + d[pos + 1..] by { Inc32Add(c, 0, 0); }
    DoneStep(E, h, v, encrypting, p, d0, s, d, y, pos, 1, src[..], dst[..], hash);
  }

  lemma KeyValid(k: nat, p: nat)
    requires KeyFor(k, p)
    ensures k < Pow(2, 128)
  {
  }

  lemma OneBlockHash(y: nat, x: nat, h: nat)
    ensures Hash(y, [x], h) == Mult(Xor(y, x), h)
  {
    hide Mult, Xor;
    assert Hash(Mult(Xor(y, x), h), [], h) == Mult(Xor(y, x), h);
  }

  /** The state of the GCM context that the bulk routines read and write. The hash subkey h is not stored:
      hkeys holds its powers times w, as the key set-up leaves them. */
  class GcmState {
    var hash: nat
    var counter: nat
    var ecounter: nat
    const hkeys: seq<nat>
    const cipher: nat -> nat

    constructor (hash: nat, counter: nat, hkeys: seq<nat>, cipher: nat -> nat)
      ensures this.hash == hash && this.counter == counter && this.hkeys == hkeys && this.cipher == cipher
    {
      this.hash, this.counter, this.ecounter, this.hkeys, this.cipher := hash, counter, 0, hkeys, cipher;
    }

    ghost predicate Valid(h: nat)
      reads this
    {
      && hash < Pow(2, 128) && h < Pow(2, 128) && |hkeys| == 16
      && (forall i :: 0 <= i < 16 ==> KeyFor(hkeys[i], HPow(h, i + 1)))
      && BlockCipher(cipher)
    }

    /** Validity asks for no more than a hash and a subkey of 128 bits, a cipher on 128-bit blocks, and as
        stored keys w times the first sixteen powers of the subkey modulo the polynomial. */
    lemma ValidWhen(h: nat)
      requires hash < Pow(2, 128) && h < Pow(2, 128) && |hkeys| == 16
      requires forall i :: 0 <= i < 16 ==> hkeys[i] < Pow(2, 128) && PolyCong(hkeys[i], 2 * HPow(h, i + 1), Poly())
      requires forall x :: cipher(x) < Pow(2, 128)
      ensures Valid(h)
    {
      hide Pow, HPow, PolyCong, Poly;
      forall i | 0 <= i < 16 ensures KeyFor(hkeys[i], HPow(h, i + 1)) {
        HPowBlock(h, i + 1);
      }
    }

    ghost function Contents(): View
      reads this
    {
      View(hash, counter, ecounter)
    }

    /** The key registers: pairs of stored keys, the higher power first. */
    method LoadKeys(ghost h: nat) returns (hk: seq<Pair>)
      requires Valid(h)
      ensures |hk| == 8 && KeysFor(hk, h, 8)
    {
      hide Pow, KeyFor, HPow;
      hk := seq(8, i requires 0 <= i < 8 => Pair(hkeys[2 * i + 1], hkeys[2 * i]));
    }

    /** The counter registers; the counter in memory is left one ahead until the end of the call. */
    method LoadCounters() returns (ctr: array<Pair>)
      modifies this`counter
      ensures fresh(ctr) && ctr.Length == 8 && Counters(ctr[..], 8, old(counter))
    {
      var lo := counter;
      counter := Inc32(counter, 1);
      var last := Pair(lo, counter);
      Inc32Add(lo, 0, 0);
      ctr := new Pair[8](i => last);
      assert ctr[0] == Pair(Inc32(lo, 0), Inc32(lo, 1));
      for i := 1 to 8
        invariant Counters(ctr[..], i, lo) && last == ctr[i - 1] && counter == Inc32(lo, 1)
      {
        Inc32Add(lo, 2 * (i - 1), 2);
        Inc32Add(lo, 2 * (i - 1) + 1, 2);
        last := IncPair(last, 2);
        ctr[i] := last;
      }
    }

    /** The whole cascade over the len / 16 whole blocks; what is left of len is not touched here. */
    method Crypt(src: array<nat>, dst: array<nat>, len: nat, encrypting: bool, ghost h: nat)
      requires Valid(h) && len >= 256 && len / BLOCK_SIZE <= src.Length && len / BLOCK_SIZE <= dst.Length
      requires Blocks(src[..])
      modifies this`hash, this`counter, this`ecounter, dst
      ensures Valid(h)
      ensures var p := old(src[..len / BLOCK_SIZE]);
              && dst[..] == Gctr(cipher, old(counter), p) + old(dst[len / BLOCK_SIZE..])
              && Contents() == After(cipher, h, old(Contents()), Text(cipher, old(counter), p, encrypting))
    {
      hide Pow, KeyFor, HPow, Hash, Inc32, Gctr, Counters, KeysFor, After, Text, Blocks, BlockCipher;
      ghost var v := Contents();
      var hk := LoadKeys(h);
      var ctr := LoadCounters();
      var resultHash, last := Cascade(src, dst, len, ctr, hk, hash, encrypting, h, v);
      ecounter := cipher(last);
      counter := last;
      hash := resultHash;
    }

    /** Everything between loading the state and storing it. */
    method Cascade(src: array<nat>, dst: array<nat>, len: nat, ctr: array<Pair>, hk: seq<Pair>, hash0: nat,
                   encrypting: bool, ghost h: nat, ghost v: View) returns (resultHash: nat, last: nat)
      requires len >= 256 && len / BLOCK_SIZE <= src.Length && len / BLOCK_SIZE <= dst.Length
      requires ctr.Length == 8 && Blocks(src[..]) && BlockCipher(cipher) && KeysFor(hk, h, 8)
      requires |hkeys| == 16 && KeyFor(hkeys[0], HPow(h, 1)) && h < Pow(2, 128)
      requires hash0 == v.hash < Pow(2, 128) && Counters(ctr[..], 8, v.counter)
      modifies dst, ctr
      ensures var p := old(src[..len / BLOCK_SIZE]);
              && dst[..] == Gctr(cipher, v.counter, p) + old(dst[len / BLOCK_SIZE..])
              && View(resultHash, last, cipher(last)) == After(cipher, h, v, Text(cipher, v.counter, p, encrypting))
      ensures resultHash < Pow(2, 128)
    {
      hide Pow, KeyFor, HPow, Hash, Inc32, Gctr, Counters, KeysFor, Done, After, Text, Blocks, BlockCipher;
      ghost var p, d0 := src[..], dst[..];
      var rp := new Pair[8](i => Pair(0, 0));
      rp[0] := Pair(hash0, 0);
      NothingDone(cipher, h, v, encrypting, p, d0);
      var pos;
      resultHash, pos := MainLoop(src, dst, len, ctr, rp, hk, encrypting, h, v, p, d0);
      resultHash, pos := Tail(src, dst, pos, len - pos * BLOCK_SIZE, ctr, rp, hk, resultHash, encrypting, h, v, p, d0);
      last := ctr[0].lane0;
      AllDone(cipher, h, v, encrypting, p, d0, src[..], dst[..], resultHash, pos);
    }

    /** The loop over groups of sixteen blocks. */
    method MainLoop(src: array<nat>, dst: array<nat>, len: nat, ctr: array<Pair>, rp: array<Pair>, hk: seq<Pair>,
                    encrypting: bool, ghost h: nat, ghost v: View, ghost p: seq<nat>, ghost d0: seq<nat>)
      returns (resultHash: nat, pos: nat)
      requires ctr != rp && ctr.Length == rp.Length == 8 && len >= 16 * BLOCK_SIZE
      requires len / BLOCK_SIZE <= src.Length && len / BLOCK_SIZE <= dst.Length
      requires BlockCipher(cipher) && Blocks(p) && KeysFor(hk, h, 8)
      requires rp[0].lane1 == 0 && rp[0].lane0 < Pow(2, 128) && Counters(ctr[..], 8, Inc32(v.counter, 0))
      requires Done(cipher, h, v, encrypting, p, d0, src[..], dst[..], rp[0].lane0, 0)
      modifies dst, ctr, rp
      ensures 0 <= len - pos * BLOCK_SIZE < 16 * BLOCK_SIZE
      ensures rp[0] == Pair(resultHash, 0) && resultHash < Pow(2, 128)
      ensures Counters(ctr[..], 8, Inc32(v.counter, pos))
      ensures Done(cipher, h, v, encrypting, p, d0, src[..], dst[..], resultHash, pos)
    {
      hide Pow, Inc32, Counters, Blocks, KeysFor, Done, BlockCipher;
      pos := 0;
      var rest := len;
      resultHash := 0;
      while rest >= 16 * BLOCK_SIZE
        invariant pos * BLOCK_SIZE + rest == len && 0 <= rest
        invariant rp[0].lane1 == 0 && rp[0].lane0 < Pow(2, 128) && (rest < len ==> resultHash == rp[0].lane0)
        invariant Counters(ctr[..], 8, Inc32(v.counter, pos))
        invariant Done(cipher, h, v, encrypting, p, d0, src[..], dst[..], rp[0].lane0, pos)
        decreases rest
      {
        resultHash := Stage(cipher, src, dst, pos, 8, ctr, rp, hk, encrypting, h, v, p, d0);
        pos, rest := pos + 16, rest - 16 * BLOCK_SIZE;
      }
    }

    /** The four stages after the loop. */
    method Tail(src: array<nat>, dst: array<nat>, start: nat, left: nat, ctr: array<Pair>, rp: array<Pair>,
                hk: seq<Pair>, hash0: nat, encrypting: bool, ghost h: nat, ghost v: View,
                ghost p: seq<nat>, ghost d0: seq<nat>) returns (resultHash: nat, pos: nat)
      requires ctr != rp && ctr.Length == rp.Length == 8 && left < 16 * BLOCK_SIZE
      requires start + left / BLOCK_SIZE <= src.Length && start + left / BLOCK_SIZE <= dst.Length
      requires BlockCipher(cipher) && Blocks(p) && KeysFor(hk, h, 8)
      requires |hkeys| == 16 && KeyFor(hkeys[0], HPow(h, 1)) && h < Pow(2, 128)
      requires rp[0] == Pair(hash0, 0) && hash0 < Pow(2, 128)
      requires Counters(ctr[..], 8, Inc32(v.counter, start))
      requires Done(cipher, h, v, encrypting, p, d0, src[..], dst[..], hash0, start)
      modifies dst, ctr, rp
      ensures pos == start + left / BLOCK_SIZE && ctr[0].lane0 == Inc32(v.counter, pos)
      ensures Done(cipher, h, v, encrypting, p, d0, src[..], dst[..], resultHash, pos)
    {
      hide Pow, KeyFor, HPow, Hash, Inc32, Gctr, Done, Blocks, KeysFor, BlockCipher;
      var rest := left;
      resultHash, pos := hash0, start;
      if rest >= 8 * BLOCK_SIZE {
        resultHash := Stage(cipher, src, dst, pos, 4, ctr, rp, hk, encrypting, h, v, p, d0);
        pos, rest := pos + 8, rest - 8 * BLOCK_SIZE;
      }
      if rest >= 4 * BLOCK_SIZE {
        resultHash := Stage(cipher, src, dst, pos, 2, ctr, rp, hk, encrypting, h, v, p, d0);
        pos, rest := pos + 4, rest - 4 * BLOCK_SIZE;
      }
      if rest >= 2 * BLOCK_SIZE {
        resultHash := Stage(cipher, src, dst, pos, 1, ctr, rp, hk, encrypting, h, v, p, d0);
        pos, rest := pos + 2, rest - 2 * BLOCK_SIZE;
      }
      FirstCounter(ctr[..], Inc32(v.counter, pos));
      if rest >= BLOCK_SIZE {
        resultHash := LastBlock(cipher, src, dst, pos, ctr, rp, hkeys[0], encrypting, h, v, p, d0);
        pos, rest := pos + 1, rest - BLOCK_SIZE;
      }
    }

    /** AesGcmEnc_vaes_avx2 for len >= 256: a block is 16 bytes. The counter wraps in its last 32 bits. */
    method Encrypt(dst: array<nat>, src: array<nat>, len: nat, ghost h: nat)
      requires Valid(h) && len >= 256 && len / 16 <= src.Length && len / 16 <= dst.Length
      requires forall i :: 0 <= i < src.Length ==> src[i] < Pow(2, 128)
      modifies this`hash, this`counter, this`ecounter, dst
      ensures Valid(h)
      ensures forall i: nat, t: nat {:trigger Bit(dst[i], t)} :: i < len / 16 ==>
                var y := old(counter) / 0x1_0000_0000 * 0x1_0000_0000 + (old(counter) + i) % 0x1_0000_0000;
                Bit(dst[i], t) == (Bit(old(src[i]), t) + Bit(cipher(y), t)) % 2
      ensures forall i :: len / 16 <= i < dst.Length ==> dst[i] == old(dst[i])
      ensures counter / 0x1_0000_0000 == old(counter) / 0x1_0000_0000
      ensures counter % 0x1_0000_0000 == (old(counter) + len / 16) % 0x1_0000_0000
      ensures ecounter == cipher(counter)
      ensures hash == Hash(old(hash), dst[..len / 16], h)
      ensures dst[..len / 16] == Gctr(cipher, old(counter), old(src[..len / 16]))
      ensures Contents() == After(cipher, h, old(Contents()), dst[..len / 16])
    {
      hide Pow, KeyFor, HPow, Hash, Inc32, Gctr, Bit;
      ghost var c, p, d0 := counter, src[..len / 16], dst[..];
      Crypt(src, dst, len, true, h);
      ghost var out := Gctr(cipher, c, p);
      assert dst[..] == out + d0[len / 16..];
      Inc32Meaning(c, len / 16);
      forall i: nat, t: nat | i < len / 16
        ensures var y := c / 0x1_0000_0000 * 0x1_0000_0000 + (c + i) % 0x1_0000_0000;
                Bit(dst[i], t) == (Bit(p[i], t) + Bit(cipher(y), t)) % 2
      {
        GctrBit(cipher, c, p, i, t);
        assert dst[i] == dst[..][i] == out[i];
      }
      forall i | len / 16 <= i < dst.Length ensures dst[i] == d0[i] {
        assert dst[i] == dst[..][i] == d0[len / 16..][i - len / 16];
      }
    }

    /** AesGcmDec_vaes_avx2 for len >= 256: a block is 16 bytes. The counter wraps in its last 32 bits. */
    method Decrypt(dst: array<nat>, src: array<nat>, len: nat, ghost h: nat)
      requires Valid(h) && len >= 256 && len / 16 <= src.Length && len / 16 <= dst.Length
      requires forall i :: 0 <= i < src.Length ==> src[i] < Pow(2, 128)
      modifies this`hash, this`counter, this`ecounter, dst
      ensures Valid(h)
      ensures forall i: nat, t: nat {:trigger Bit(dst[i], t)} :: i < len / 16 ==>
                var y := old(counter) / 0x1_0000_0000 * 0x1_0000_0000 + (old(counter) + i) % 0x1_0000_0000;
                Bit(dst[i], t) == (Bit(old(src[i]), t) + Bit(cipher(y), t)) % 2
      ensures forall i :: len / 16 <= i < dst.Length ==> dst[i] == old(dst[i])
      ensures counter / 0x1_0000_0000 == old(counter) / 0x1_0000_0000
      ensures counter % 0x1_0000_0000 == (old(counter) + len / 16) % 0x1_0000_0000
      ensures ecounter == cipher(counter)
      ensures hash == Hash(old(hash), old(src[..len / 16]), h)
      ensures dst[..len / 16] == Gctr(cipher, old(counter), old(src[..len / 16]))
      ensures Contents() == After(cipher, h, old(Contents()), old(src[..len / 16]))
    {
      hide Pow, KeyFor, HPow, Hash, Inc32, Gctr, Bit;
      ghost var c, p, d0 := counter, src[..len / 16], dst[..];
      Crypt(src, dst, len, false, h);
      ghost var out := Gctr(cipher, c, p);
      assert dst[..] == out + d0[len / 16..];
      Inc32Meaning(c, len / 16);
      forall i: nat, t: nat | i < len / 16
        ensures var y := c / 0x1_0000_0000 * 0x1_0000_0000 + (c + i) % 0x1_0000_0000;
                Bit(dst[i], t) == (Bit(p[i], t) + Bit(cipher(y), t)) % 2
      {
        GctrBit(cipher, c, p, i, t);
        assert dst[i] == dst[..][i] == out[i];
      }
      forall i | len / 16 <= i < dst.Length ensures dst[i] == d0[i] {
        assert dst[i] == dst[..][i] == d0[len / 16..][i - len / 16];
      }
    }
  }

  lemma FirstCounter(ctr: seq<Pair>, c: nat)
    requires Counters(ctr, 1, c)
    ensures ctr[0].lane0 == c
  {
    Inc32Add(c, 0, 0);
  }

  lemma NothingDone(E: nat -> nat, h: nat, v: View, encrypting: bool, p: seq<nat>, d0: seq<nat>)
    ensures Done(E, h, v, encrypting, p, d0, p, d0, v.hash, 0) && Inc32(v.counter, 0) == v.counter
  {
    Inc32Add(v.counter, 0, 0);
    assert p[..0] == [];
    assert Gctr(E, v.counter, []) == [];
    assert [] + d0[0..] == d0;
  }

  lemma AllDone(E: nat -> nat, h: nat, v: View, encrypting: bool, p: seq<nat>, d0: seq<nat>,
                s: seq<nat>, d: seq<nat>, hash: nat, n: nat)
    requires Done(E, h, v, encrypting, p, d0, s, d, hash, n) && BlockCipher(E) && Blocks(p)
    requires v.hash < Pow(2, 128) && h < Pow(2, 128)
    ensures d == Gctr(E, v.counter, p[..n]) + d0[n..]
    ensures View(hash, Inc32(v.counter, n), E(Inc32(v.counter, n)))
         == After(E, h, v, Text(E, v.counter, p[..n], encrypting))
    ensures hash < Pow(2, 128)
  {
    hide Pow, Gctr, Hash;
    TextBlocks(E, v.counter, p[..n], encrypting);
    HashBlock(v.hash, Text(E, v.counter, p[..n], encrypting), h);
  }

  lemma {:induction false} HashBlock(y: nat, xs: seq<nat>, h: nat)
    requires y < Pow(2, 128) && h < Pow(2, 128) && Blocks(xs)
    ensures Hash(y, xs, h) < Pow(2, 128)
    decreases |xs|
  {
    hide Pow, Mult, Xor;
    if |xs| > 0 {
      XorBound(y, xs[0], 128);
      MultMeaning(Xor(y, xs[0]), h);
      HashBlock(Mult(Xor(y, xs[0]), h), xs[1..], h);
    }
  }

  /** Decrypting the ciphertext from an equal state returns the plaintext and leaves an equal state. */
  lemma RoundTrip(E: nat -> nat, h: nat, v: View, plain: seq<nat>)
    ensures var c := Gctr(E, v.counter, plain);
            && Gctr(E, v.counter, c) == plain
            && After(E, h, v, Text(E, v.counter, plain, true)) == After(E, h, v, Text(E, v.counter, c, false))
            && After(E, h, v, c).counter == Inc32(v.counter, |plain|)
  {
    GctrTwice(E, v.counter, plain);
  }
}
