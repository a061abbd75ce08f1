/** What the Montgomery form means: decoding is a ring isomorphism and undoes encoding. */
module MontDomain {
  import opened NatArith
  import opened Montgomery
  import opened ModMethods

  /** R, a power of two, is invertible modulo an odd m. */
  ghost predicate Radix(R: nat, m: nat) {
    m % 2 == 1 && exists e: nat :: R == Pow(2, e)
  }

  lemma RadixInverse(R: nat, m: nat) returns (y: nat)
    requires Radix(R, m)
    ensures Cong(R * y, 1, m)
  {
    var e: nat :| R == Pow(2, e);
    y := PowTwoInverse(e, m);
  }

  /** R may be cancelled modulo m. */
  lemma CancelRadix(a: int, b: int, R: nat, m: nat)
    requires Radix(R, m) && Cong(a * R, b * R, m)
    ensures Cong(a, b, m)
  {
    var y := RadixInverse(R, m);
    CongCancel(a, b, R, y, m);
  }

  /** The result of the one-pass and of the two-pass build, and of any other correct build, is the same. */
  lemma BuildsAgree(r: int, r': int, x: int, R: nat, m: nat)
    requires Radix(R, m) && IsRedc(r, x, R, m) && IsRedc(r', x, R, m)
    ensures r == r'
  {
    var y := RadixInverse(R, m);
    CongRefl(x, m);
    RedcUnique(r, r', x, x, R, y, m);
  }

  /** decode(encode(a)) = a mod m, for any a. */
  lemma DecodeEncode(a: nat, x: int, d: int, R: nat, m: nat)
    requires Radix(R, m) && IsRedc(x, a * Residue(R * R, m), R, m) && IsRedc(d, x, R, m)
    ensures d == Residue(a, m)
  {
    hide Residue;
    var r2 := Residue(R * R, m);
    CongScale(r2, R * R, a, m);
    CongTrans(x * R, a * r2, a * (R * R), m);
    MulAssoc(a, R, R);
    CancelRadix(x, a * R, R, m);
    CongTrans(d * R, x, a * R, m);
    CancelRadix(d, a, R, m);
    CongSym(Residue(a, m), a, m);
    CongTrans(d, a, Residue(a, m), m);
    CongUnique(d, Residue(a, m), m);
  }

  /** encode(decode(x)) = x for every canonical x. */
  lemma EncodeDecode(x: nat, d: nat, x': int, R: nat, m: nat)
    requires Radix(R, m) && x < m && IsRedc(d, x, R, m) && IsRedc(x', d * Residue(R * R, m), R, m)
    ensures x' == x
  {
    hide Residue;
    var r2 := Residue(R * R, m);
    CongScale(r2, R * R, d, m);
    CongTrans(x' * R, d * r2, d * (R * R), m);
    MulAssoc(d, R, R);
    CancelRadix(x', d * R, R, m);
    CongTrans(x', d * R, x, m);
    CongUnique(x', x, m);
  }

  /** A representative of a linear combination decodes to the same combination: p, q = 1, 1 is addition,
      1, -1 subtraction, -1, 0 negation, 2, 0 doubling and 3, 0 tripling. */
  lemma DecodeLinear(a: int, b: int, r: int, da: int, db: int, dr: int, p: int, q: int, R: nat, m: nat)
    requires Radix(R, m) && IsRedc(da, a, R, m) && IsRedc(db, b, R, m) && IsRedc(dr, r, R, m)
    requires r == Residue(p * a + q * b, m)
    ensures dr == Residue(p * da + q * db, m)
  {
    hide Residue;
    var z, dz := p * a + q * b, p * da + q * db;
    CongTrans(dr * R, r, z, m);
    CongScale(da * R, a, p, m);
    CongScale(db * R, b, q, m);
    CongAdd(p * (da * R), p * a, q * (db * R), q * b, m);
    MulAssoc(p, da, R);
    MulAssoc(q, db, R);
    Distribute(R, p * da, q * db);
    CongSym(dz * R, z, m);
    CongTrans(dr * R, z, dz * R, m);
    CancelRadix(dr, dz, R, m);
    CongSym(Residue(dz, m), dz, m);
    CongTrans(dr, dz, Residue(dz, m), m);
    CongUnique(dr, Residue(dz, m), m);
  }

  /** Halving commutes with decoding. */
  lemma DecodeHalf(a: nat, h: nat, da: nat, dh: nat, R: nat, m: nat)
    requires Radix(R, m) && a < m && Residue(2 * h, m) == a && IsRedc(da, a, R, m) && IsRedc(dh, h, R, m)
    ensures Residue(2 * dh, m) == da
  {
    DecodeLinear(h, h, a, dh, dh, da, 2, 0, R, m);
  }

  /** Multiplication in Montgomery form is multiplication of the decoded numbers. */
  lemma DecodeProduct(a: int, b: int, r: int, da: int, db: int, dr: int, R: nat, m: nat)
    requires Radix(R, m) && IsRedc(da, a, R, m) && IsRedc(db, b, R, m) && IsRedc(dr, r, R, m)
    requires IsRedc(r, a * b, R, m)
    ensures dr == Residue(da * db, m)
  {
    hide Residue, Radix;
    var z := da * db;
    CongMul(da * R, a, db * R, b, m);
    Shuffle4(da, R, db, R);
    assert (da * R) * (db * R) == (z * R) * R by { Shuffle4(da, R, db, R); MulAssoc(z, R, R); }
    CongSym((z * R) * R, a * b, m);
    CongTrans(r * R, a * b, (z * R) * R, m);
    CancelRadix(r, z * R, R, m);
    CongTrans(dr * R, r, z * R, m);
    CancelRadix(dr, z, R, m);
    CongSym(Residue(z, m), z, m);
    CongTrans(dr, z, Residue(z, m), m);
    CongUnique(dr, Residue(z, m), m);
  }
}
