/**
 The table-free multiplications: shift-and-reduce, by-two from the top (`BYTWO_p`)
 and by-two from the bottom (`BYTWO_b`), on one word.
 All of them compute `Poly.Mul`, for every width and every modulus.
 */
module Multiply {
  import opened Bits
  import opened Poly

  // ----- one word

  lemma LowNext(a: nat, i: nat)
    ensures Low(a, i + 1) == if Bit(a, i) then Xor(Low(a, i), Pow2(i)) else Low(a, i)
  {
    BitLaws();
    BitExt(Low(a, i + 1), if Bit(a, i) then Xor(Low(a, i), Pow2(i)) else Low(a, i));
  }

  /** Adding the next partial product. */
  lemma PartialProduct(a: nat, b: nat, i: nat)
    ensures PMul(Low(a, i + 1), b) == if Bit(a, i) then Xor(PMul(Low(a, i), b), Shl(b, i)) else PMul(Low(a, i), b)
  {
    LowNext(a, i);
    PMulXorLeft(Low(a, i), Pow2(i), b);
    PMulPow2(b, i);
  }

  /** Clearing bit `i` of a product with a shifted modulus. */
  lemma ReduceBit(product: nat, i: nat, w: nat, p: nat)
    requires IsModulus(w, p) && w <= i && product < Pow2(i + 1)
    ensures var r := if Bit(product, i) then Xor(product, Shl(p, i - w)) else product;
            r < Pow2(i) && PMod(r, p) == PMod(product, p)
  {
    FitsLen(product, i + 1);
    if Bit(product, i) {
      if Len(product) <= i { FitsLen(product, i); FitsBit(product, i, i); assert false; }
      LenShl(p, i - w);
      XorLenSame(product, Shl(p, i - w));
      FitsLen(Xor(product, Shl(p, i - w)), i);
      ModAddShifted(product, i - w, p);
    } else {
      if Len(product) == i + 1 { LenBit(product); assert false; }
      FitsLen(product, i);
    }
  }

  lemma FullProduct(a: nat, b: nat, w: nat)
    requires w >= 1 && a < Pow2(w) && b < Pow2(w)
    ensures PMul(Low(a, w), b) == PMul(a, b) < Pow2(2 * w - 1)
  {
    hide *;
    LowId(a, w);
    PMulFits(a, b, w, w);
  }

  /** First loop: the carry-less product. */
  method CarrylessProduct(w: nat, a: nat, b: nat) returns (product: nat)
    requires w >= 1 && a < Pow2(w) && b < Pow2(w)
    ensures product == PMul(a, b) < Pow2(2 * w - 1)
  {
    product := 0;
    for i := 0 to w
      invariant product == PMul(Low(a, i), b)
    {
      PartialProduct(a, b, i);
      if Bit(a, i) { product := Xor(product, Shl(b, i)); }
    }
    FullProduct(a, b, w);
  }

  /** Second loop: clears the bits from `2w - 2` down to `w`. */
  method Reduce(w: nat, p: nat, product: nat) returns (r: nat)
    requires IsModulus(w, p) && product < Pow2(2 * w - 1)
    ensures r == PMod(product, p)
  {
    r := product;
    var i := 2 * w - 2;
    while i >= w
      invariant w - 1 <= i && r < Pow2(i + 1)
      invariant PMod(r, p) == PMod(product, p)
    {
      ReduceBit(r, i, w, p);
      if Bit(r, i) { r := Xor(r, Shl(p, i - w)); }
      i := i - 1;
    }
    ModFits(r, w, p);
  }

  method ShiftMultiply(w: nat, p: nat, a: nat, b: nat) returns (product: nat)
    requires IsModulus(w, p) && a < Pow2(w) && b < Pow2(w)
    ensures product == Mul(a, b, p)
  {
    var c := CarrylessProduct(w, a, b);
    product := Reduce(w, p, c);
  }

  /**
   Doubling as the routines write it. `pp` carries the leading bit of the modulus for
   w = 4, 8, 16, where nothing is truncated, and omits it for w = 32, 64.
   */
  function TimesTwo(b: nat, w: nat, pp: nat): (r: nat)
    requires w >= 1
  {
    if Bit(b, w - 1) then Low(Xor(2 * b, pp), w) else 2 * b
  }

  lemma TimesTwoIsMul(b: nat, w: nat, pp: nat, p: nat)
    requires IsModulus(w, p) && Low(pp, w) == Low(p, w) && b < Pow2(w)
    ensures TimesTwo(b, w, pp) == Mul(2, b, p) < Pow2(w)
    ensures pp == p && Bit(b, w - 1) ==> TimesTwo(b, w, pp) == Xor(2 * b, pp)
  {
    MulXTruncated(b, w, p, pp);
    MulXIsMul(b, w, p);
  }

  lemma ShrNext(a: nat, j: nat)
    ensures Shr(a, j) / 2 == Shr(a, j + 1)
    ensures Shr(a, j) % 2 == 1 <==> Bit(a, j)
  {
    ShrAdd(a, j, 1);
    BitShr(a, j, 0);
  }

  lemma HornerDouble(h: nat, b: nat, p: nat)
    requires p > 0
    ensures Mul(2 * h, b, p) == Mul(2, Mul(h, b, p), p)
  {
    PMulDoubleLeft(1, h); PMulOne(h);
    PMulAssoc(2, h, b);
    ModMul(2, PMul(h, b), p);
  }

  lemma HornerStep(a: nat, b: nat, j: nat, w: nat, p: nat)
    requires IsModulus(w, p) && b < Pow2(w)
    ensures var d := Mul(2, Mul(Shr(a, j + 1), b, p), p);
            Mul(Shr(a, j), b, p) == if Bit(a, j) then Xor(d, b) else d
  {
    var s := Shr(a, j);
    ShrNext(a, j);
    HornerDouble(s / 2, b, p);
    hide Shr, Mul, Xor, Bit;
    LowBit(s);
    MulXor(s % 2, 2 * (s / 2), b, p);
    MulOne(b, w, p); MulZero(b, p);
    var d := Mul(2 * (s / 2), b, p);
    XorComm(b, d); XorZero(d);
  }

  lemma TopShift(a: nat, b: nat, w: nat, p: nat)
    requires p > 0 && a < Pow2(w)
    ensures Mul(Shr(a, w), b, p) == 0 && Mul(Shr(a, 0), b, p) == Mul(a, b, p)
  {
    ShrFits(a, w, 0);
    MulZero(b, p);
  }

  method BytwoP(w: nat, pp: nat, a: nat, b: nat, ghost p: nat) returns (prod: nat)
    requires IsModulus(w, p) && Low(pp, w) == Low(p, w) && a < Pow2(w) && b < Pow2(w)
    ensures prod == Mul(a, b, p)
  {
    hide *;
    ModulusPositive(w, p);
    prod := 0;
    TopShift(a, b, w, p);
    var j: nat := w;
    while j > 0
      invariant j <= w && prod == Mul(Shr(a, j), b, p)
    {
      j := j - 1;
      MulFits(Shr(a, j + 1), b, w, p);
      TimesTwoIsMul(prod, w, pp, p);
      HornerStep(a, b, j, w, p);
      prod := TimesTwo(prod, w, pp);
      if Bit(a, j) { prod := Xor(prod, b); }
    }
  }

  /** Peeling the low bit of `a` while doubling `b`. */
  lemma PeelLowBit(a: nat, b: nat, w: nat, p: nat)
    requires IsModulus(w, p) && b < Pow2(w)
    ensures Mul(a, b, p) == Xor(if a % 2 == 1 then b else 0, Mul(a / 2, Mul(2, b, p), p))
  {
    PMulStep(a, b);
    ModXor(Masked(a, b), 2 * PMul(a / 2, b), p);
    ModFits(b, w, p); ModZero(p);
    PMulDoubleRight(a / 2, b);
    PMulDoubleLeft(1, b); PMulOne(b);
    ModMul(a / 2, 2 * b, p);
  }

  method BytwoB(w: nat, pp: nat, a0: nat, b0: nat, ghost p: nat) returns (prod: nat)
    requires IsModulus(w, p) && Low(pp, w) == Low(p, w) && a0 < Pow2(w) && b0 < Pow2(w)
    ensures prod == Mul(a0, b0, p)
  {
    hide *;
    ModulusPositive(w, p);
    prod := 0;
    var a: nat, b: nat := a0, b0;
    XorZero(Mul(a, b, p));
    while true
      invariant b < Pow2(w) && Xor(prod, Mul(a, b, p)) == Mul(a0, b0, p)
      decreases a
    {
      PeelLowBit(a, b, w, p);
      ghost var rest := Mul(a / 2, Mul(2, b, p), p);
      XorAssoc(prod, b, rest); XorZero(rest);
      if a % 2 == 1 { prod := Xor(prod, b); }
      a := a / 2;
      if a == 0 {
        MulZero(Mul(2, b, p), p);
        XorZero(prod);
        return;
      }
      TimesTwoIsMul(b, w, pp, p);
      b := TimesTwo(b, w, pp);
    }
  }
}
