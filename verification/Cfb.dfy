/** Multi-buffer AES-CFB: masked lanes, transposed registers, and the one-lane mode they must equal. */
module Cfb {
  import opened NatArith
  import opened Bits

  /** A 128-bit block as its two 64-bit words. */
  datatype Block = Block(lo: nat, hi: nat)

  function XorBlock(a: Block, b: Block): Block {
    Block(Xor(a.lo, b.lo), Xor(a.hi, b.hi))
  }

  /** Section 6.3 of NIST SP 800-38A with whole blocks: each block is xored with the cipher of the one before. */
  ghost function CfbEnc(E: Block -> Block, iv: Block, ps: seq<Block>): (cs: seq<Block>)
    ensures |cs| == |ps|
    decreases |ps|
  {
    if |ps| == 0 then []
    else var c := XorBlock(ps[0], E(iv)); [c] + CfbEnc(E, c, ps[1..])
  }

  /** The block that the next one is chained to. */
  ghost function Chain(E: Block -> Block, iv: Block, ps: seq<Block>): Block {
    if |ps| == 0 then iv else CfbEnc(E, iv, ps)[|ps| - 1]
  }

  lemma {:induction false} CfbConcat(E: Block -> Block, iv: Block, xs: seq<Block>, ys: seq<Block>)
    ensures CfbEnc(E, iv, xs + ys) == CfbEnc(E, iv, xs) + CfbEnc(E, Chain(E, iv, xs), ys)
    decreases |xs|
  {
    hide Xor, XorBlock;
    if |xs| == 0 {
      assert xs + ys == ys;
      assert CfbEnc(E, iv, xs) == [];
    } else {
      var c := XorBlock(xs[0], E(iv));
      assert (xs + ys)[1..] == xs[1..] + ys;
      CfbConcat(E, c, xs[1..], ys);
      assert Chain(E, iv, xs) == Chain(E, c, xs[1..]);
      assert CfbEnc(E, iv, xs + ys) == [c] + CfbEnc(E, c, xs[1..] + ys);
    }
  }

  lemma ChainConcat(E: Block -> Block, iv: Block, xs: seq<Block>, ys: seq<Block>)
    ensures Chain(E, iv, xs + ys) == Chain(E, Chain(E, iv, xs), ys)
  {
    hide CfbEnc;
    CfbConcat(E, iv, xs, ys);
    if |ys| == 0 { assert xs + ys == xs; }
  }

  /** _mm512_shuffle_i64x2: two lanes of a, then two of b. */
  function Shuffle(a: seq<Block>, b: seq<Block>, imm: nat): (r: seq<Block>)
    requires |a| == |b| == 4
    ensures |r| == 4
  {
    [a[imm % 4], a[imm / 4 % 4], b[imm / 16 % 4], b[imm / 64 % 4]]
  }

  /** TRANSPOSE_4x4_I128. */
  method Transpose(a0: seq<Block>, a1: seq<Block>, a2: seq<Block>, a3: seq<Block>)
    returns (x0: seq<Block>, x1: seq<Block>, x2: seq<Block>, x3: seq<Block>)
    requires |a0| == |a1| == |a2| == |a3| == 4
    ensures x0 == [a0[0], a1[0], a2[0], a3[0]] && x1 == [a0[1], a1[1], a2[1], a3[1]]
    ensures x2 == [a0[2], a1[2], a2[2], a3[2]] && x3 == [a0[3], a1[3], a2[3], a3[3]]
  {
    var t0 := Shuffle(a0, a1, 0x44);
    var t1 := Shuffle(a2, a3, 0x44);
    var t2 := Shuffle(a0, a1, 0xEE);
    var t3 := Shuffle(a2, a3, 0xEE);
    x0 := Shuffle(t0, t1, 0x88);
    x1 := Shuffle(t0, t1, 0xDD);
    x2 := Shuffle(t2, t3, 0x88);
    x3 := Shuffle(t2, t3, 0xDD);
  }

  /** AES_ENCRYPT_VAES_MB16 and the xor after it: every lane has its own key. */
  function ChainStep(E: seq<Block -> Block>, chip: seq<Block>, b: seq<Block>): (r: seq<Block>)
    requires |E| == |chip| == |b| == 4
    ensures |r| == 4
  {
    [XorBlock(b[0], E[0](chip[0])), XorBlock(b[1], E[1](chip[1])),
     XorBlock(b[2], E[2](chip[2])), XorBlock(b[3], E[3](chip[3]))]
  }

  lemma FourBlocks(E: Block -> Block, iv: Block, r: seq<Block>, o: seq<Block>)
    requires |r| == |o| == 4 && o[0] == XorBlock(r[0], E(iv)) && o[1] == XorBlock(r[1], E(o[0]))
    requires o[2] == XorBlock(r[2], E(o[1])) && o[3] == XorBlock(r[3], E(o[2]))
    ensures CfbEnc(E, iv, r) == o
  {
    hide XorBlock;
    assert CfbEnc(E, o[3], []) == [];
    assert CfbEnc(E, o[2], r[3..]) == [o[3]];
    assert r[2..][1..] == r[3..] && r[1..][1..] == r[2..];
    assert CfbEnc(E, o[1], r[2..]) == [o[2], o[3]];
    assert CfbEnc(E, o[0], r[1..]) == [o[1], o[2], o[3]];
  }

  /** One group of four lanes over four blocks each. */
  method GroupRound(E: seq<Block -> Block>, chip: seq<Block>,
                    r0: seq<Block>, r1: seq<Block>, r2: seq<Block>, r3: seq<Block>)
    returns (chip': seq<Block>, o0: seq<Block>, o1: seq<Block>, o2: seq<Block>, o3: seq<Block>)
    requires |E| == |chip| == |r0| == |r1| == |r2| == |r3| == 4
    ensures o0 == CfbEnc(E[0], chip[0], r0) && o1 == CfbEnc(E[1], chip[1], r1)
    ensures o2 == CfbEnc(E[2], chip[2], r2) && o3 == CfbEnc(E[3], chip[3], r3)
    ensures chip' == [o0[3], o1[3], o2[3], o3[3]]
  {
    hide XorBlock, CfbEnc;
    var b0, b1, b2, b3 := Transpose(r0, r1, r2, r3);
    b0 := ChainStep(E, chip, b0);
    b1 := ChainStep(E, b0, b1);
    b2 := ChainStep(E, b1, b2);
    b3 := ChainStep(E, b2, b3);
    chip' := b3;
    o0, o1, o2, o3 := Transpose(b0, b1, b2, b3);
    FourBlocks(E[0], chip[0], r0, o0);
    FourBlocks(E[1], chip[1], r1, o1);
    FourBlocks(E[2], chip[2], r2, o2);
    FourBlocks(E[3], chip[3], r3, o3);
  }

  /** All groups of one round; lane j belongs to group j / 4. */
  method AllGroups(E: seq<Block -> Block>, chip: seq<Block>, rows: seq<seq<Block>>, groups: nat)
    returns (chip': seq<Block>, outs: seq<seq<Block>>)
    requires |E| == |chip| == |rows| == 4 * groups && forall j :: 0 <= j < |rows| ==> |rows[j]| == 4
    ensures |chip'| == |outs| == 4 * groups
    ensures forall j {:trigger outs[j]} :: 0 <= j < 4 * groups ==>
              outs[j] == CfbEnc(E[j], chip[j], rows[j]) && chip'[j] == outs[j][3]
  {
    hide XorBlock, CfbEnc;
    chip', outs := [], [];
    for q := 0 to groups
      invariant |chip'| == |outs| == 4 * q
      invariant forall j {:trigger outs[j]} :: 0 <= j < 4 * q ==>
                  outs[j] == CfbEnc(E[j], chip[j], rows[j]) && chip'[j] == outs[j][3]
    {
      var l := 4 * q;
      var c, o0, o1, o2, o3 := GroupRound(E[l..l + 4], chip[l..l + 4], rows[l], rows[l + 1], rows[l + 2], rows[l + 3]);
      chip' := chip' + c;
      outs := outs + [o0, o1, o2, o3];
    }
  }

  /** The mask for n words left: the low min(8, n) bits, and none for n <= 0. */
  function MaskFor(n: int): nat {
    if n <= 0 then 0 else if n >= 8 then 0xFF else PowPositive(2, n); Pow(2, n) - 1
  }

  lemma {:induction false} OnesBits(n: nat, q: nat)
    ensures Pow(2, n) >= 1 && Bit(Pow(2, n) - 1, q) == if q < n then 1 else 0
    decreases n
  {
    PowPositive(2, n);
    if n == 0 {
      ZeroBits(q);
    } else {
      hide Pow;
      PowDouble(n);
      if q > 0 { OnesBits(n - 1, q - 1); }
    }
  }

  lemma {:induction false} ZeroBits(q: nat)
    ensures Bit(0, q) == 0
    decreases q
  {
    if q > 0 { ZeroBits(q - 1); }
  }

  /** A word is selected exactly when it lies before the end. */
  lemma MaskBits(n: int, q: nat)
    requires q < 8
    ensures Bit(MaskFor(n), q) == if q < n then 1 else 0
  {
    hide Bit, Pow;
    if n <= 0 {
      ZeroBits(q);
    } else if n < 8 {
      OnesBits(n, q);
    } else {
      OnesBits(8, q);
      assert Pow(2, 8) == 0x100 by { PowAdd(2, 4, 4); PowFour(); }
    }
  }

  lemma PowFour()
    ensures Pow(2, 4) == 16
  {
  }

  /** UPDATE_MASK. */
  method UpdateMask(len64: int, mask: nat) returns (mask': nat)
    requires mask == MaskFor(len64 + 8)
    ensures mask' == MaskFor(len64)
  {
    hide Pow;
    mask' := mask;
    if 0 <= len64 < 8 {
      PowPositive(2, len64);
      mask' := Pow(2, len64) - 1;
      assert len64 == 0 ==> mask' == 0 by { PowNone(); }
    } else if len64 < 0 {
      mask' := 0;
    }
  }

  lemma PowNone()
    ensures Pow(2, 0) == 1
  {
  }

  /** Two words are a block. */
  ghost function BlocksOf(s: seq<nat>): (bs: seq<Block>)
    ensures |bs| == |s| / 2
  {
    seq<Block>(|s| / 2, k requires 0 <= k < |s| / 2 => Block(s[2 * k], s[2 * k + 1]))
  }

  lemma BlocksConcat(s: seq<nat>, t: seq<nat>)
    requires |s| % 2 == 0
    ensures BlocksOf(s + t) == BlocksOf(s) + BlocksOf(t)
  {
  }

  function Word(s: seq<nat>, mask: nat, q: nat, i: nat): nat
    requires Bit(mask, q) == 1 ==> i < |s|
  {
    if Bit(mask, q) == 1 then s[i] else 0
  }

  /** _mm512_maskz_loadu_epi64: words outside the mask are not read. */
  function LoadMasked(s: seq<nat>, mask: nat, pos: nat): (row: seq<Block>)
    requires forall q :: 0 <= q < 8 && Bit(mask, q) == 1 ==> pos + q < |s|
    ensures |row| == 4
  {
    [Block(Word(s, mask, 0, pos), Word(s, mask, 1, pos + 1)),
     Block(Word(s, mask, 2, pos + 2), Word(s, mask, 3, pos + 3)),
     Block(Word(s, mask, 4, pos + 4), Word(s, mask, 5, pos + 5)),
     Block(Word(s, mask, 6, pos + 6), Word(s, mask, 7, pos + 7))]
  }

  /** One lane as the call finds it: its cipher and IV, its input and its output buffer, and its length in words. */
  datatype Lane = Lane(cipher: Block -> Block, iv: Block, input: seq<nat>, output: seq<nat>, len: nat) {
    ghost predicate Valid() {
      len <= |input| && len <= |output| && len % 2 == 0
    }
  }

  /** n words of a lane are done; s and d are what its buffers hold now. */
  ghost predicate LaneDone(l: Lane, s: seq<nat>, d: seq<nat>, n: nat, chip: Block) {
    && l.Valid() && |s| == |l.input| && |d| == |l.output| && n <= l.len && n % 2 == 0
    && BlocksOf(d[..n]) == CfbEnc(l.cipher, l.iv, BlocksOf(l.input[..n]))
    && d[n..] == l.output[n..] && s[n..] == l.input[n..]
    && (n < l.len ==> chip == Chain(l.cipher, l.iv, BlocksOf(l.input[..n])))
  }

  /** Word i of the blocks of a row. */
  ghost function RowWord(row: seq<Block>, i: nat): nat
    requires i / 2 < |row|
  {
    if i % 2 == 0 then row[i / 2].lo else row[i / 2].hi
  }

  /** d' is d with k words of the row at n. */
  ghost predicate Stored(d: seq<nat>, d': seq<nat>, n: nat, k: nat, row: seq<Block>) {
    |d'| == |d| && k <= 2 * |row| &&
    forall i {:trigger d'[i]} :: 0 <= i < |d| ==> d'[i] == if n <= i < n + k then RowWord(row, i - n) else d[i]
  }

  lemma StoredBlocks(d: seq<nat>, d': seq<nat>, n: nat, k: nat, row: seq<Block>)
    requires Stored(d, d', n, k, row) && n + k <= |d| && k % 2 == 0
    ensures d'[..n] == d[..n] && d'[n + k..] == d[n + k..] && BlocksOf(d'[n..n + k]) == row[..k / 2]
  {
    var w := d'[n..n + k];
    forall b | 0 <= b < k / 2 ensures BlocksOf(w)[b] == row[b] {
      assert w[2 * b] == d'[n + 2 * b] == RowWord(row, 2 * b);
      assert w[2 * b + 1] == d'[n + 2 * b + 1] == RowWord(row, 2 * b + 1);
    }
  }

  /** k more words of one lane, from a row whose first k / 2 blocks are the lane's next input. */
  lemma LaneStep(l: Lane, s: seq<nat>, d: seq<nat>, n: nat, chip: Block, k: nat, row: seq<Block>,
                 s': seq<nat>, d': seq<nat>)
    requires LaneDone(l, s, d, n, chip) && n + k <= l.len && k % 2 == 0 && k / 2 <= |row| && |row| > 0
    requires n + k < l.len ==> k == 2 * |row|
    requires row[..k / 2] == BlocksOf(s[n..n + k])
    requires Stored(d, d', n, k, CfbEnc(l.cipher, chip, row)) && |s'| == |s| && s'[n + k..] == s[n + k..]
    ensures LaneDone(l, s', d', n + k, Chain(l.cipher, chip, row))
  {
    hide CfbEnc, BlocksOf, Stored, Chain;
    var out := CfbEnc(l.cipher, chip, row);
    Tails(s, s', l.input, n, k);
    StoredTail(d, d', n, k, out);
    Tails(d, d', l.output, n, k);
    if k > 0 {
      assert n < l.len;
      NextBlocks(l.cipher, l.iv, l.input, d, d', n, chip, k, row);
    } else {
      assert d'[..n + k] == d[..n] && l.input[..n + k] == l.input[..n];
    }
  }

  lemma Tails(s: seq<nat>, s': seq<nat>, p: seq<nat>, n: nat, k: nat)
    requires |s| == |s'| == |p| && n + k <= |s| && s[n..] == p[n..] && s'[n + k..] == s[n + k..]
    ensures s'[n + k..] == p[n + k..] && s[n..n + k] == p[n..n + k]
  {
    assert s[n + k..] == s[n..][k..] && p[n + k..] == p[n..][k..];
    assert s[n..n + k] == s[n..][..k] && p[n..n + k] == p[n..][..k];
  }

  lemma StoredTail(d: seq<nat>, d': seq<nat>, n: nat, k: nat, row: seq<Block>)
    requires Stored(d, d', n, k, row) && n + k <= |d|
    ensures |d'| == |d| && d'[n + k..] == d[n + k..] && d'[..n] == d[..n]
  {
  }

  lemma NextBlocks(E: Block -> Block, iv: Block, p: seq<nat>, d: seq<nat>, d': seq<nat>, n: nat,
                   chip: Block, k: nat, row: seq<Block>)
    requires n + k <= |p| && n + k <= |d| && n % 2 == 0 && k % 2 == 0 && k / 2 <= |row|
    requires BlocksOf(d[..n]) == CfbEnc(E, iv, BlocksOf(p[..n])) && chip == Chain(E, iv, BlocksOf(p[..n]))
    requires row[..k / 2] == BlocksOf(p[n..n + k]) && Stored(d, d', n, k, CfbEnc(E, chip, row))
    ensures |d'| == |d| && BlocksOf(d'[..n + k]) == CfbEnc(E, iv, BlocksOf(p[..n + k]))
    ensures k == 2 * |row| ==> Chain(E, chip, row) == Chain(E, iv, BlocksOf(p[..n + k]))
  {
    hide CfbEnc, Chain, Stored, BlocksOf;
    var x, z, rest := BlocksOf(p[..n]), row[..k / 2], row[k / 2..];
    assert p[..n + k] == p[..n] + p[n..n + k];
    BlocksConcat(p[..n], p[n..n + k]);
    CfbConcat(E, iv, x, z);
    ChainConcat(E, iv, x, z);
    assert row == z + rest;
    CfbConcat(E, chip, z, rest);
    StoredBlocks(d, d', n, k, CfbEnc(E, chip, row));
    StoredTail(d, d', n, k, CfbEnc(E, chip, row));
    assert d'[..n + k] == d'[..n] + d'[n..n + k];
    BlocksConcat(d'[..n], d'[n..n + k]);
    assert k == 2 * |row| ==> z == row;
  }

  /** What every build promises for one lane: the one-lane mode on its whole blocks, nothing past its length. */
  ghost predicate LaneOut(l: Lane, d: seq<nat>) {
    && l.Valid() && |d| == |l.output|
    && BlocksOf(d[..l.len]) == CfbEnc(l.cipher, l.iv, BlocksOf(l.input[..l.len])) && d[l.len..] == l.output[l.len..]
  }

  /** The promise on the words themselves: word w of a lane is its input word xored with the same word of the
      encrypted block before, or of the encrypted IV in the first block. */
  lemma LaneWords(l: Lane, d: seq<nat>, w: nat)
    requires LaneOut(l, d) && w < l.len
    ensures var b := w - w % 2;
            var key := l.cipher(if b == 0 then l.iv else Block(d[b - 2], d[b - 1]));
            d[w] == Xor(l.input[w], if w % 2 == 0 then key.lo else key.hi)
  {
    hide Xor;
    var i := w / 2;
    var ps, cs := BlocksOf(l.input[..l.len]), BlocksOf(d[..l.len]);
    CfbBlock(l.cipher, l.iv, ps, i);
    assert ps[i] == Block(l.input[2 * i], l.input[2 * i + 1]);
    assert cs[i] == Block(d[2 * i], d[2 * i + 1]);
    if i > 0 { assert cs[i - 1] == Block(d[2 * i - 2], d[2 * i - 1]); }
  }

  /** One block of the mode, both halves in place. */
  lemma {:induction false} CfbBlock(E: Block -> Block, iv: Block, ps: seq<Block>, i: nat)
    requires i < |ps|
    ensures var cs := CfbEnc(E, iv, ps);
            var key := E(if i == 0 then iv else cs[i - 1]);
            cs[i] == Block(Xor(ps[i].lo, key.lo), Xor(ps[i].hi, key.hi))
    decreases i
  {
    hide Xor;
    if i > 0 { CfbBlock(E, XorBlock(ps[0], E(iv)), ps[1..], i - 1); }
  }

  /** The buffers of the lanes: outputs are separate, and an input may only be its own lane's output. */
  predicate Separate(srcs: seq<array<nat>>, dsts: seq<array<nat>>) {
    && |srcs| == |dsts|
    && forall i, j :: 0 <= i < |dsts| && 0 <= j < |dsts| && i != j ==> dsts[i] != dsts[j] && srcs[i] != dsts[j]
  }

  /** Words of a lane that are done when all lanes are at word pos. */
  function Before(pos: nat, len: nat): (n: nat)
    ensures n <= pos && n <= len
  {
    if pos < len then pos else len
  }

  ghost predicate LaneNow(l: Lane, src: array<nat>, dst: array<nat>, pos: nat, chip: Block)
    reads src, dst
  {
    LaneDone(l, src[..], dst[..], Before(pos, l.len), chip)
  }

  /** The row holds the lane's next input of up to w words. */
  ghost predicate RowNow(row: seq<Block>, src: array<nat>, len: nat, pos: nat, w: nat)
    reads src
  {
    var n, n' := Before(pos, len), Before(pos + w, len);
    |row| == w / 2 && n' <= src.Length && row[..(n' - n) / 2] == BlocksOf(src[n..n'])
  }

  /** The masked load reads exactly the words that are left. */
  method LoadRow(src: array<nat>, mask: nat, pos: nat, len: nat) returns (row: seq<Block>)
    requires mask == MaskFor(len - pos) && len <= src.Length && len % 2 == 0 && pos % 2 == 0
    ensures RowNow(row, src, len, pos, 8)
  {
    hide Bit, MaskFor;
    forall q | 0 <= q < 8 ensures Bit(mask, q) == if q < len - pos then 1 else 0 {
      MaskBits(len - pos, q);
    }
    row := LoadMasked(src[..], mask, pos);
    ghost var s, n, n' := src[..], Before(pos, len), Before(pos + 8, len);
    assert forall k {:trigger row[k]} :: 0 <= k < (n' - n) / 2 ==> row[k] == Block(s[n + 2 * k], s[n + 2 * k + 1]);
    EvenCount(pos, len, 8);
    RowBlocks(row, s, n, n');
    assert s[n..n'] == src[n..n'];
  }

  lemma RowBlocks(row: seq<Block>, s: seq<nat>, n: nat, n': nat)
    requires n <= n' <= |s| && (n' - n) % 2 == 0 && (n' - n) / 2 <= |row|
    requires forall k {:trigger row[k]} :: 0 <= k < (n' - n) / 2 ==> row[k] == Block(s[n + 2 * k], s[n + 2 * k + 1])
    ensures row[..(n' - n) / 2] == BlocksOf(s[n..n'])
  {
  }

  /** _mm512_mask_storeu_epi64: words outside the mask are not written. */
  method StoreMasked(a: array<nat>, mask: nat, pos: nat, row: seq<Block>, len: nat)
    requires |row| == 4 && mask == MaskFor(len - pos) && len <= a.Length
    modifies a
    ensures Stored(old(a[..]), a[..], Before(pos, len), Before(pos + 8, len) - Before(pos, len), row)
  {
    hide Bit, MaskFor;
    ghost var d := a[..];
    for q := 0 to 8
      invariant forall i {:trigger a[i]} :: 0 <= i < a.Length ==>
                  a[i] == if pos <= i < pos + q && i < len then RowWord(row, i - pos) else d[i]
    {
      MaskBits(len - pos, q);
      if Bit(mask, q) == 1 {
        a[pos + q] := if q % 2 == 0 then row[q / 2].lo else row[q / 2].hi;
      }
    }
  }

  /** The stores of one round: lane by lane, each to its own buffer, and the new masks. */
  method StoreLanes(ghost lanes: seq<Lane>, srcs: seq<array<nat>>, dsts: seq<array<nat>>, masks: seq<nat>,
                    lens: seq<nat>, pos: nat, outs: seq<seq<Block>>, ghost rows: seq<seq<Block>>,
                    ghost chip: seq<Block>, ghost chip': seq<Block>) returns (masks': seq<nat>)
    requires Separate(srcs, dsts) && pos % 2 == 0
    requires |lanes| == |srcs| == |masks| == |lens| == |outs| == |rows| == |chip| == |chip'|
    requires forall j :: 0 <= j < |lanes| ==> lens[j] == lanes[j].len && masks[j] == MaskFor(lens[j] - pos)
    requires forall j :: 0 <= j < |lanes| ==> LaneNow(lanes[j], srcs[j], dsts[j], pos, chip[j])
    requires forall j :: 0 <= j < |lanes| ==> RowNow(rows[j], srcs[j], lens[j], pos, 8)
    requires forall j {:trigger outs[j]} :: 0 <= j < |lanes| ==>
               outs[j] == CfbEnc(lanes[j].cipher, chip[j], rows[j]) && |outs[j]| == 4 && chip'[j] == outs[j][3]
    modifies dsts
    ensures |masks'| == |lanes| && forall j :: 0 <= j < |lanes| ==> masks'[j] == MaskFor(lens[j] - pos - 8)
    ensures forall j :: 0 <= j < |lanes| ==> LaneNow(lanes[j], srcs[j], dsts[j], pos + 8, chip'[j])
  {
    hide CfbEnc, MaskFor, LaneNow, RowNow;
    masks' := masks;
    for i := 0 to |dsts|
      invariant |masks'| == |masks|
      invariant forall j :: 0 <= j < |masks| ==> masks'[j] == MaskFor(lens[j] - pos - (if j < i then 8 else 0))
      invariant forall j :: 0 <= j < i ==> LaneNow(lanes[j], srcs[j], dsts[j], pos + 8, chip'[j])
      invariant forall j :: i <= j < |lanes| ==> LaneNow(lanes[j], srcs[j], dsts[j], pos, chip[j])
      invariant forall j :: i <= j < |lanes| ==> RowNow(rows[j], srcs[j], lens[j], pos, 8)
    {
      var m := StoreLane(lanes[i], srcs[i], dsts[i], masks'[i], lens[i], pos, outs[i], rows[i], chip[i]);
      masks' := masks'[i := m];
    }
  }

  /** The store, the new length and the new mask of one lane. */
  method StoreLane(ghost l: Lane, src: array<nat>, dst: array<nat>, mask: nat, len: nat, pos: nat, out: seq<Block>,
                   ghost row: seq<Block>, ghost chip: Block) returns (mask': nat)
    requires pos % 2 == 0 && len == l.len && mask == MaskFor(len - pos)
    requires LaneNow(l, src, dst, pos, chip) && RowNow(row, src, len, pos, 8)
    requires out == CfbEnc(l.cipher, chip, row) && |out| == 4
    modifies dst
    ensures mask' == MaskFor(len - pos - 8) && LaneNow(l, src, dst, pos + 8, out[3])
  {
    hide CfbEnc, MaskFor, LaneDone, BlocksOf, Stored;
    LaneFits(l, src[..], dst[..], Before(pos, len), chip);
    ghost var s, d := src[..], dst[..];
    StoreMasked(dst, mask, pos, out, len);
    EvenCount(pos, len, 8);
    ghost var n, k := Before(pos, len), Before(pos + 8, len) - Before(pos, len);
    InputTail(s, d, src[..], dst[..], n, k, out, src == dst);
    LaneStep(l, s, d, n, chip, k, row, src[..], dst[..]);
    ChainLast(l.cipher, chip, row);
    mask' := UpdateMask(len - pos - 8, mask);
  }

  lemma LaneFits(l: Lane, s: seq<nat>, d: seq<nat>, n: nat, chip: Block)
    requires LaneDone(l, s, d, n, chip)
    ensures l.len <= |d| && l.len <= |s| && l.len % 2 == 0
  {
  }

  lemma ChainLast(E: Block -> Block, iv: Block, row: seq<Block>)
    requires |row| > 0
    ensures Chain(E, iv, row) == CfbEnc(E, iv, row)[|row| - 1]
  {
  }

  lemma LaneEven(l: Lane, s: seq<nat>, d: seq<nat>, n: nat, chip: Block)
    requires LaneDone(l, s, d, n, chip) && n + 2 <= l.len
    ensures n + 2 < l.len ==> n + 4 <= l.len
  {
  }

  /** The words of one round: an even number, and all w unless the lane ends. */
  lemma EvenCount(pos: nat, len: nat, w: nat)
    requires pos % 2 == 0 && w % 2 == 0 && len % 2 == 0
    ensures var n, n' := Before(pos, len), Before(pos + w, len);
            n <= n' <= len && (n' - n) % 2 == 0 && n' - n <= w && (n' < len ==> n' - n == w)
  {
  }

  /** An input buffer is either its lane's output buffer or not written. */
  lemma InputTail(s: seq<nat>, d: seq<nat>, s': seq<nat>, d': seq<nat>, n: nat, k: nat, row: seq<Block>, inPlace: bool)
    requires Stored(d, d', n, k, row) && n + k <= |d| && n + k <= |s|
    requires if inPlace then s == d && s' == d' else s' == s
    ensures |s'| == |s| && s'[n + k..] == s[n + k..]
  {
    StoredTail(d, d', n, k, row);
  }

  /** The loads of one round. */
  method LoadRows(srcs: seq<array<nat>>, masks: seq<nat>, lens: seq<nat>, pos: nat) returns (rows: seq<seq<Block>>)
    requires |srcs| == |masks| == |lens| && pos % 2 == 0
    requires forall j :: 0 <= j < |srcs| ==> lens[j] <= srcs[j].Length && lens[j] % 2 == 0
    requires forall j :: 0 <= j < |srcs| ==> masks[j] == MaskFor(lens[j] - pos)
    ensures |rows| == |srcs| && forall j :: 0 <= j < |srcs| ==> RowNow(rows[j], srcs[j], lens[j], pos, 8)
    ensures forall j :: 0 <= j < |srcs| ==> |rows[j]| == 4
  {
    hide MaskFor, BlocksOf;
    rows := [];
    for i := 0 to |srcs|
      invariant |rows| == i && forall j :: 0 <= j < i ==> |rows[j]| == 4 && RowNow(rows[j], srcs[j], lens[j], pos, 8)
    {
      var row := LoadRow(srcs[i], masks[i], pos, lens[i]);
      rows := rows + [row];
    }
  }

  /** Lengths in words, the first masks, the chained blocks and the longest length. An empty lane gets mask 0. */
  method SetUp(lens: seq<nat>, ivs: seq<Block>)
    returns (masks: seq<nat>, len64: seq<nat>, chip: seq<Block>, maxLen: nat)
    requires |lens| == |ivs|
    ensures |masks| == |len64| == |chip| == |lens|
    ensures forall j :: 0 <= j < |lens| ==>
              len64[j] == lens[j] / 8 <= maxLen && masks[j] == MaskFor(len64[j]) && (len64[j] > 0 ==> chip[j] == ivs[j])
  {
    hide Pow;
    masks, len64, chip, maxLen := [], [], [], 0;
    for i := 0 to |lens|
      invariant |masks| == |len64| == |chip| == i
      invariant forall j :: 0 <= j < i ==>
                  && len64[j] == lens[j] / 8 <= maxLen && masks[j] == MaskFor(len64[j])
                  && (len64[j] > 0 ==> chip[j] == ivs[j])
    {
      if lens[i] == 0 {
        masks, len64, chip := masks + [0], len64 + [0], chip + [Block(0, 0)];
      } else {
        var n := lens[i] / 8;
        var mask: nat := 0xFF;
        if n < 8 {
          PowPositive(2, n);
          mask := Pow(2, n) - 1;
          assert n == 0 ==> mask == 0 by { PowNone(); }
        }
        masks, len64, chip := masks + [mask], len64 + [n], chip + [ivs[i]];
        if n > maxLen { maxLen := n; }
      }
    }
  }

  /** The lanes of a call. */
  ghost function LanesOf(E: seq<Block -> Block>, ivs: seq<Block>, srcs: seq<array<nat>>, dsts: seq<array<nat>>,
                         lens: seq<nat>): (ls: seq<Lane>)
    requires |E| == |ivs| == |srcs| == |dsts| == |lens|
    reads srcs, dsts
    ensures |ls| == |E|
  {
    seq(|E|, j requires 0 <= j < |E| reads srcs, dsts => Lane(E[j], ivs[j], srcs[j][..], dsts[j][..], lens[j] / 8))
  }

  /** What a caller has to provide: whole blocks that fit the buffers, and separate outputs. */
  ghost predicate Callable(E: seq<Block -> Block>, ivs: seq<Block>, srcs: seq<array<nat>>, dsts: seq<array<nat>>,
                           lens: seq<nat>)
  {
    && |E| == |ivs| == |srcs| == |dsts| == |lens| && Separate(srcs, dsts)
    && forall j :: 0 <= j < |lens| ==>
         lens[j] % 16 == 0 && lens[j] / 8 <= srcs[j].Length && lens[j] / 8 <= dsts[j].Length
  }

  lemma StartLane(l: Lane, chip: Block)
    requires l.Valid() && (l.len > 0 ==> chip == l.iv)
    ensures LaneDone(l, l.input, l.output, Before(0, l.len), chip)
  {
    assert BlocksOf(l.output[..0]) == [] == CfbEnc(l.cipher, l.iv, BlocksOf(l.input[..0]));
  }

  lemma EndLane(l: Lane, s: seq<nat>, d: seq<nat>, pos: nat, chip: Block)
    requires LaneDone(l, s, d, Before(pos, l.len), chip) && pos >= l.len
    ensures LaneOut(l, d)
  {
  }

  /** All lanes are at word pos. */
  ghost predicate AllNow(lanes: seq<Lane>, srcs: seq<array<nat>>, dsts: seq<array<nat>>, pos: nat, chip: seq<Block>)
    reads srcs, dsts
  {
    && |lanes| == |srcs| == |dsts| == |chip|
    && forall j :: 0 <= j < |lanes| ==> LaneNow(lanes[j], srcs[j], dsts[j], pos, chip[j])
  }

  lemma StartAll(E: seq<Block -> Block>, ivs: seq<Block>, srcs: seq<array<nat>>, dsts: seq<array<nat>>, lens: seq<nat>,
                 chip: seq<Block>)
    requires Callable(E, ivs, srcs, dsts, lens) && |chip| == |lens|
    requires forall j :: 0 <= j < |lens| && lens[j] / 8 > 0 ==> chip[j] == ivs[j]
    ensures AllNow(LanesOf(E, ivs, srcs, dsts, lens), srcs, dsts, 0, chip)
  {
    hide LaneDone;
    var lanes := LanesOf(E, ivs, srcs, dsts, lens);
    forall j | 0 <= j < |lens| ensures LaneNow(lanes[j], srcs[j], dsts[j], 0, chip[j]) {
      StartLane(lanes[j], chip[j]);
    }
  }

  lemma EndAll(lanes: seq<Lane>, srcs: seq<array<nat>>, dsts: seq<array<nat>>, pos: nat, chip: seq<Block>)
    requires AllNow(lanes, srcs, dsts, pos, chip) && forall j :: 0 <= j < |lanes| ==> lanes[j].len <= pos
    ensures AllOut(lanes, dsts)
  {
    hide LaneDone, LaneOut;
    forall j | 0 <= j < |lanes| ensures LaneOut(lanes[j], dsts[j][..]) {
      EndLane(lanes[j], srcs[j][..], dsts[j][..], pos, chip[j]);
    }
  }

  /** The promise for all lanes. */
  ghost predicate AllOut(lanes: seq<Lane>, dsts: seq<array<nat>>)
    reads dsts
  {
    |dsts| == |lanes| && forall j :: 0 <= j < |lanes| ==> LaneOut(lanes[j], dsts[j][..])
  }

  /** The promise for all lanes, word by word. */
  lemma AllWords(lanes: seq<Lane>, dsts: seq<array<nat>>)
    requires AllOut(lanes, dsts)
    ensures |lanes| == |dsts| && forall j :: 0 <= j < |dsts| ==> lanes[j].Valid() && dsts[j].Length == |lanes[j].output|
    ensures forall j, w {:trigger dsts[j][w]} :: 0 <= j < |dsts| && 0 <= w < lanes[j].len ==>
              var b := w - w % 2;
              var key := lanes[j].cipher(if b == 0 then lanes[j].iv else Block(dsts[j][b - 2], dsts[j][b - 1]));
              dsts[j][w] == Xor(lanes[j].input[w], if w % 2 == 0 then key.lo else key.hi)
    ensures forall j, w {:trigger dsts[j][w]} :: 0 <= j < |dsts| && lanes[j].len <= w < dsts[j].Length ==>
              dsts[j][w] == lanes[j].output[w]
  {
    hide Xor, CfbEnc, BlocksOf;
    forall j, w | 0 <= j < |dsts| && 0 <= w < lanes[j].len
      ensures var b := w - w % 2;
              var key := lanes[j].cipher(if b == 0 then lanes[j].iv else Block(dsts[j][b - 2], dsts[j][b - 1]));
              dsts[j][w] == Xor(lanes[j].input[w], if w % 2 == 0 then key.lo else key.hi)
    {
      LaneWords(lanes[j], dsts[j][..], w);
    }
    forall j, w | 0 <= j < |dsts| && lanes[j].len <= w < dsts[j].Length ensures dsts[j][w] == lanes[j].output[w] {
      var d, n := dsts[j][..], lanes[j].len;
      assert d[n..][w - n] == lanes[j].output[n..][w - n];
    }
  }

  /** The arguments that the rounds work with are those of the lanes. */
  ghost predicate Matches(lanes: seq<Lane>, E: seq<Block -> Block>, srcs: seq<array<nat>>, words: seq<nat>) {
    && |lanes| == |E| == |srcs| == |words|
    && forall j :: 0 <= j < |lanes| ==>
         E[j] == lanes[j].cipher && words[j] == lanes[j].len <= srcs[j].Length && words[j] % 2 == 0
  }

  ghost predicate MasksFor(masks: seq<nat>, words: seq<nat>, pos: nat) {
    |masks| == |words| && forall j :: 0 <= j < |masks| ==> masks[j] == MaskFor(words[j] - pos)
  }

  lemma LanesMatch(E: seq<Block -> Block>, ivs: seq<Block>, srcs: seq<array<nat>>, dsts: seq<array<nat>>,
                   lens: seq<nat>, words: seq<nat>)
    requires Callable(E, ivs, srcs, dsts, lens) && |words| == |lens|
    requires forall j :: 0 <= j < |lens| ==> words[j] == lens[j] / 8
    ensures Matches(LanesOf(E, ivs, srcs, dsts, lens), E, srcs, words)
  {
  }

  /** One pass of the loop: up to four blocks for every lane. */
  method VaesRound(ghost lanes: seq<Lane>, groups: nat, E: seq<Block -> Block>, srcs: seq<array<nat>>,
                   dsts: seq<array<nat>>, masks: seq<nat>, lens: seq<nat>, pos: nat, chip: seq<Block>)
    returns (chip': seq<Block>, masks': seq<nat>)
    requires Separate(srcs, dsts) && pos % 2 == 0 && |lanes| == 4 * groups
    requires Matches(lanes, E, srcs, lens) && MasksFor(masks, lens, pos) && AllNow(lanes, srcs, dsts, pos, chip)
    modifies dsts
    ensures MasksFor(masks', lens, pos + 8) && AllNow(lanes, srcs, dsts, pos + 8, chip')
  {
    hide CfbEnc, MaskFor, LaneDone, Separate;
    var rows := LoadRows(srcs, masks, lens, pos);
    var outs;
    chip', outs := AllGroups(E, chip, rows, groups);
    masks' := StoreLanes(lanes, srcs, dsts, masks, lens, pos, outs, rows, chip, chip');
  }

  /** The whole call on lanes: set-up and loop. */
  method VaesLanes(groups: nat, E: seq<Block -> Block>, ivs: seq<Block>, srcs: seq<array<nat>>, dsts: seq<array<nat>>,
                   lens: seq<nat>)
    requires Callable(E, ivs, srcs, dsts, lens) && |E| == 4 * groups
    modifies dsts
    ensures AllOut(old(LanesOf(E, ivs, srcs, dsts, lens)), dsts)
  {
    hide MaskFor, AllNow, AllOut, Separate, Matches, MasksFor;
    ghost var lanes := LanesOf(E, ivs, srcs, dsts, lens);
    var masks, len64, chip, longest := SetUp(lens, ivs);
    StartAll(E, ivs, srcs, dsts, lens, chip);
    LanesMatch(E, ivs, srcs, dsts, lens, len64);
    assert MasksFor(masks, len64, 0) by { FirstMasks(masks, len64); }
    var maxLen: int, pos: nat := longest, 0;
    while maxLen >= 0
      invariant pos % 8 == 0 && maxLen == longest - pos
      invariant MasksFor(masks, len64, pos) && AllNow(lanes, srcs, dsts, pos, chip)
      decreases maxLen
    {
      chip, masks := VaesRound(lanes, groups, E, srcs, dsts, masks, len64, pos, chip);
      pos, maxLen := pos + 8, maxLen - 8;
    }
    EndAll(lanes, srcs, dsts, pos, chip);
  }

  /** aes_cfb16_enc_vaes_mb4, aes_cfb16_enc_vaes_mb8 and aes_cfb16_enc_vaes_mb16: 1, 2 and 4 groups of four lanes.
      The loop also runs once more when the longest length is a multiple of eight words; all masks are 0 then. */
  method EncVaes(groups: nat, E: seq<Block -> Block>, ivs: seq<Block>, srcs: seq<array<nat>>, dsts: seq<array<nat>>,
                 lens: seq<nat>)
    requires |E| == 4 * groups && |E| == |ivs| == |srcs| == |dsts| == |lens|
    requires forall i, j :: 0 <= i < |E| && 0 <= j < |E| && i != j ==> dsts[i] != dsts[j] && srcs[i] != dsts[j]
    requires forall j :: 0 <= j < |E| ==>
               lens[j] % 16 == 0 && lens[j] / 8 <= srcs[j].Length && lens[j] / 8 <= dsts[j].Length
    modifies dsts
    ensures forall j, w {:trigger dsts[j][w]} :: 0 <= j < |E| && 0 <= w < lens[j] / 8 ==>
              var b := w - w % 2;
              var key := E[j](if b == 0 then ivs[j] else Block(dsts[j][b - 2], dsts[j][b - 1]));
              dsts[j][w] == Xor(old(srcs[j][w]), if w % 2 == 0 then key.lo else key.hi)
    ensures forall j, w {:trigger dsts[j][w]} :: 0 <= j < |E| && lens[j] / 8 <= w < dsts[j].Length ==>
              dsts[j][w] == old(dsts[j][w])
    ensures AllOut(old(LanesOf(E, ivs, srcs, dsts, lens)), dsts)
  {
    hide AllOut, Xor;
    ghost var lanes := LanesOf(E, ivs, srcs, dsts, lens);
    VaesLanes(groups, E, ivs, srcs, dsts, lens);
    AllWords(lanes, dsts);
  }

  lemma FirstMasks(masks: seq<nat>, words: seq<nat>)
    requires |masks| == |words| && forall j :: 0 <= j < |masks| ==> masks[j] == MaskFor(words[j])
    ensures MasksFor(masks, words, 0)
  {
  }

  /** aes_encrypt4_aesni_mb4: all blocks, each with its own key. */
  function EncryptAll(E: seq<Block -> Block>, blocks: seq<Block>): (r: seq<Block>)
    requires |E| == |blocks|
    ensures |r| == |E|
  {
    seq(|E|, j requires 0 <= j < |E| => E[j](blocks[j]))
  }

  /** nBlocks: whole blocks that each lane has left. */
  ghost predicate BlocksLeft(left: seq<nat>, words: seq<nat>, pos: nat) {
    |left| == |words| && forall j :: 0 <= j < |left| ==> left[j] == (words[j] - Before(pos, words[j])) / 2
  }

  /** The inner loop of the AES-NI build: one block for every lane that has one left. */
  method AesniRound(ghost lanes: seq<Lane>, E: seq<Block -> Block>, srcs: seq<array<nat>>, dsts: seq<array<nat>>,
                    lens: seq<nat>, left: seq<nat>, pos: nat, chip: seq<Block>)
    returns (chip': seq<Block>, left': seq<nat>)
    requires Separate(srcs, dsts) && pos % 2 == 0
    requires Matches(lanes, E, srcs, lens) && BlocksLeft(left, lens, pos)
    requires AllNow(lanes, srcs, dsts, pos, chip)
    modifies dsts
    ensures BlocksLeft(left', lens, pos + 2) && AllNow(lanes, srcs, dsts, pos + 2, chip')
  {
    hide CfbEnc, LaneDone, BlocksOf, XorBlock;
    var blocks := EncryptAll(E, chip);
    left' := left;
    for i := 0 to |dsts|
      invariant |blocks| == |left'| == |lanes|
      invariant forall j :: 0 <= j < i ==> left'[j] == (lens[j] - Before(pos + 2, lens[j])) / 2
      invariant forall j :: i <= j < |lanes| ==> left'[j] == left[j] && blocks[j] == E[j](chip[j])
      invariant forall j :: 0 <= j < i ==> LaneNow(lanes[j], srcs[j], dsts[j], pos + 2, blocks[j])
      invariant forall j :: i <= j < |lanes| ==> LaneNow(lanes[j], srcs[j], dsts[j], pos, chip[j])
    {
      LaneFits(lanes[i], srcs[i][..], dsts[i][..], Before(pos, lens[i]), chip[i]);
      if left'[i] > 0 {
        var block := AesniBlock(lanes[i], srcs[i], dsts[i], pos, blocks[i], chip[i]);
        blocks := blocks[i := block];
        left' := left'[i := left'[i] - 1];
      } else {
        Finished(lanes[i], srcs[i][..], dsts[i][..], pos, chip[i], blocks[i]);
      }
    }
    chip' := blocks;
  }

  /** One block of one lane: load, xor, store. */
  method AesniBlock(ghost l: Lane, src: array<nat>, dst: array<nat>, pos: nat, keyed: Block, ghost chip: Block)
    returns (block: Block)
    requires LaneNow(l, src, dst, pos, chip) && pos + 2 <= l.len && pos % 2 == 0
    requires l.len <= src.Length && l.len <= dst.Length && keyed == l.cipher(chip)
    modifies dst
    ensures LaneNow(l, src, dst, pos + 2, block)
  {
    hide LaneDone, Xor;
    ghost var s, d := src[..], dst[..];
    var plain := Block(src[pos], src[pos + 1]);
    block := XorBlock(keyed, plain);
    dst[pos] := block.lo;
    dst[pos + 1] := block.hi;
    XorComm(keyed.lo, plain.lo);
    XorComm(keyed.hi, plain.hi);
    OneBlock(l.cipher, chip, plain);
    assert BlocksOf(s[pos..pos + 2]) == [plain];
    assert Stored(d, dst[..], pos, 2, [block]);
    InputTail(s, d, src[..], dst[..], pos, 2, [block], src == dst);
    LaneEven(l, s, d, pos, chip);
    LaneStep(l, s, d, pos, chip, 2, [plain], src[..], dst[..]);
  }

  lemma OneBlock(E: Block -> Block, iv: Block, p: Block)
    ensures CfbEnc(E, iv, [p]) == [XorBlock(p, E(iv))] && Chain(E, iv, [p]) == XorBlock(p, E(iv))
  {
    hide XorBlock;
    assert CfbEnc(E, XorBlock(p, E(iv)), []) == [];
  }

  lemma Finished(l: Lane, s: seq<nat>, d: seq<nat>, pos: nat, chip: Block, chip': Block)
    requires LaneDone(l, s, d, Before(pos, l.len), chip) && (l.len - Before(pos, l.len)) / 2 == 0
    ensures LaneDone(l, s, d, Before(pos + 2, l.len), chip') && Before(pos + 2, l.len) == l.len
  {
  }

  /** The whole call on lanes: set-up and block loop. */
  method AesniLanes(E: seq<Block -> Block>, ivs: seq<Block>, srcs: seq<array<nat>>, dsts: seq<array<nat>>,
                    lens: seq<nat>)
    requires Callable(E, ivs, srcs, dsts, lens)
    modifies dsts
    ensures AllOut(old(LanesOf(E, ivs, srcs, dsts, lens)), dsts)
  {
    hide AllNow, AllOut, Separate, Matches, BlocksLeft;
    ghost var lanes := LanesOf(E, ivs, srcs, dsts, lens);
    var left, words, blocks, maxBlocks := SetUpAesni(lens, ivs);
    StartAll(E, ivs, srcs, dsts, lens, blocks);
    LanesMatch(E, ivs, srcs, dsts, lens, words);
    assert BlocksLeft(left, words, 0) by { AllLeft(left, words); }
    for block := 0 to maxBlocks
      invariant BlocksLeft(left, words, 2 * block) && AllNow(lanes, srcs, dsts, 2 * block, blocks)
    {
      blocks, left := AesniRound(lanes, E, srcs, dsts, words, left, 2 * block, blocks);
    }
    EndAll(lanes, srcs, dsts, 2 * maxBlocks, blocks);
  }

  /** aes_cfb16_enc_aesni_mb4: the plain loop, block by block; |E| is 4 there. */
  method EncAesni(E: seq<Block -> Block>, ivs: seq<Block>, srcs: seq<array<nat>>, dsts: seq<array<nat>>, lens: seq<nat>)
    requires |E| == |ivs| == |srcs| == |dsts| == |lens|
    requires forall i, j :: 0 <= i < |E| && 0 <= j < |E| && i != j ==> dsts[i] != dsts[j] && srcs[i] != dsts[j]
    requires forall j :: 0 <= j < |E| ==>
               lens[j] % 16 == 0 && lens[j] / 8 <= srcs[j].Length && lens[j] / 8 <= dsts[j].Length
    modifies dsts
    ensures forall j, w {:trigger dsts[j][w]} :: 0 <= j < |E| && 0 <= w < lens[j] / 8 ==>
              var b := w - w % 2;
              var key := E[j](if b == 0 then ivs[j] else Block(dsts[j][b - 2], dsts[j][b - 1]));
              dsts[j][w] == Xor(old(srcs[j][w]), if w % 2 == 0 then key.lo else key.hi)
    ensures forall j, w {:trigger dsts[j][w]} :: 0 <= j < |E| && lens[j] / 8 <= w < dsts[j].Length ==>
              dsts[j][w] == old(dsts[j][w])
    ensures AllOut(old(LanesOf(E, ivs, srcs, dsts, lens)), dsts)
  {
    hide AllOut, Xor;
    ghost var lanes := LanesOf(E, ivs, srcs, dsts, lens);
    AesniLanes(E, ivs, srcs, dsts, lens);
    AllWords(lanes, dsts);
  }

  lemma AllLeft(left: seq<nat>, words: seq<nat>)
    requires |left| == |words| && forall j :: 0 <= j < |left| ==> left[j] == words[j] / 2
    ensures BlocksLeft(left, words, 0)
  {
  }

  /** The first loop: blocks left in each lane, the chained blocks and the largest count. */
  method SetUpAesni(lens: seq<nat>, ivs: seq<Block>)
    returns (left: seq<nat>, words: seq<nat>, blocks: seq<Block>, maxBlocks: nat)
    requires |lens| == |ivs|
    ensures |left| == |blocks| == |words| == |lens|
    ensures forall j :: 0 <= j < |lens| ==>
              words[j] == lens[j] / 8 && left[j] == lens[j] / 16 <= maxBlocks && (left[j] > 0 ==> blocks[j] == ivs[j])
  {
    left, words, blocks, maxBlocks := [], [], [], 0;
    for i := 0 to |lens|
      invariant |left| == |blocks| == |words| == i
      invariant forall j :: 0 <= j < i ==>
                  && words[j] == lens[j] / 8 && left[j] == lens[j] / 16 <= maxBlocks
                  && (left[j] > 0 ==> blocks[j] == ivs[j])
    {
      var n := lens[i] / 16;
      left, words := left + [n], words + [lens[i] / 8];
      blocks := blocks + [if n > 0 then ivs[i] else Block(0, 0)];
      if n > maxBlocks { maxBlocks := n; }
    }
  }

  /** The promise leaves no freedom: two outputs of one lane are the same, whatever build wrote them. */
  lemma OutputUnique(l: Lane, d: seq<nat>, d': seq<nat>)
    requires LaneOut(l, d) && LaneOut(l, d')
    ensures d == d'
  {
    hide CfbEnc;
    forall i | 0 <= i < |d| ensures d[i] == d'[i] {
      if i < l.len {
        assert BlocksOf(d[..l.len])[i / 2] == BlocksOf(d'[..l.len])[i / 2];
        assert i == 2 * (i / 2) || i == 2 * (i / 2) + 1;
      } else {
        assert d[i] == d[l.len..][i - l.len] && d'[i] == d'[l.len..][i - l.len];
      }
    }
  }
}
