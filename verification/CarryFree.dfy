/**
 Multiplications built on the carry-less multiply instruction: reduction by a
 precomputed quotient (`gf_w32_cfmgk_init`, `gf_w32_cfmgk_multiply`) and reduction by
 a fixed number of folds chosen from the polynomial (`gf_w*_clm_multiply_*`).
 The instruction itself is `PMul`.
 */
module CarryFree {
  import opened Bits
  import opened Poly
  import opened Multiply

  // ----- Barrett reduction

  /** Long division of `x^(2w)` in progress: quotient so far and exact remainder. */
  ghost predicate Dividing(w: nat, p: nat, q: nat, r: nat)
  {
    Pow2(2 * w) == Xor(PMul(q, p), r)
  }

  lemma DivideStart(w: nat, pp: nat)
    requires w >= 1 && pp < Pow2(w)
    ensures Dividing(w, Full(w, pp), Pow2(w), Shl(pp, w)) && Shl(pp, w) < Pow2(2 * w)
  {
    hide *;
    FullIsModulus(w, pp);
    PMulPow2(Full(w, pp), w);
    ShlXor(Pow2(w), pp, w);
    DoublePow2(w);
    ShlFits(pp, w, w);
    XorCancel(Pow2(2 * w), Shl(pp, w));
    DividingFold(w, Full(w, pp), Pow2(w), Shl(pp, w));
  }

  lemma DividingFold(w: nat, p: nat, q: nat, r: nat)
    requires Pow2(2 * w) == Xor(PMul(q, p), r)
    ensures Dividing(w, p, q, r)
  {
  }

  lemma DoublePow2(w: nat)
    ensures Shl(Pow2(w), w) == Pow2(2 * w)
  {
    hide Shl, Pow2;
    ShlPow2(w, w);
  }

  lemma DivideStep(w: nat, p: nat, q: nat, r: nat, i: nat)
    requires IsModulus(w, p) && Dividing(w, p, q, r) && w <= i && r < Pow2(i + 1) && Bit(r, i)
    ensures Dividing(w, p, Xor(q, Pow2(i - w)), Xor(r, Shl(p, i - w)))
  {
    PMulXorLeft(q, Pow2(i - w), p);
    PMulPow2(p, i - w);
    var s, m := Shl(p, i - w), PMul(q, p);
    hide Shl, PMul, Pow2, Xor;
    XorSwap(m, s, r, s);
    XorSelf(s); XorZero(Xor(m, r));
  }

  /** The routine's `tmp` keeps dirty high bits: only its low `i` bits are the remainder. */
  lemma DirtyStep(w: nat, pp: nat, tmp: nat, r: nat, i: nat)
    requires w >= 1 && pp < Pow2(w) && w <= i && Low(tmp, i + 1) == Low(r, i + 1)
    ensures Bit(tmp, i) == Bit(r, i) && Low(tmp, i) == Low(r, i)
    ensures Low(Xor(tmp, Shl(pp, i - w)), i) == Low(Xor(r, Shl(Full(w, pp), i - w)), i)
  {
    hide Full, Xor, Low, Shl, Pow2;
    FullIsModulus(w, pp);
    ShlXor(Pow2(w), pp, i - w);
    ShlPow2(w, i - w);
    BitLow(tmp, i + 1, i); BitLow(r, i + 1, i);
    DirtyBits(tmp, r, Shl(pp, i - w), i);
  }

  lemma DirtyBits(tmp: nat, r: nat, s: nat, i: nat)
    requires Low(tmp, i + 1) == Low(r, i + 1)
    ensures Low(tmp, i) == Low(r, i)
    ensures Low(Xor(tmp, s), i) == Low(Xor(r, Xor(Pow2(i), s)), i)
  {
    hide Xor, Low, Pow2;
    LowLow(tmp, i); LowLow(r, i);
    LowXor(tmp, s, i); LowXor(r, Xor(Pow2(i), s), i); LowXor(Pow2(i), s, i);
    LowOfPow2(i);
    XorZero(Low(s, i));
  }

  lemma LowLow(a: nat, i: nat)
    ensures Low(Low(a, i + 1), i) == Low(a, i)
  {
    BitLaws();
    BitExt(Low(Low(a, i + 1), i), Low(a, i));
  }

  lemma LowOfPow2(i: nat)
    ensures Low(Pow2(i), i) == 0
  {
    BitLaws();
    BitExt(Low(Pow2(i), i), 0);
  }

  /** The setup loop computes exactly the quotient of `x^(2w)` by the modulus. */
  method GkSetup(w: nat, pp: nat) returns (q: nat)
    requires w >= 1 && pp < Pow2(w)
    ensures q == PDiv(Pow2(2 * w), Full(w, pp))
  {
    hide *;
    ghost var p := Full(w, pp);
    FullIsModulus(w, pp);
    var tmp: nat := Shl(pp, w);
    q := Pow2(w);
    ghost var r: nat := tmp;
    DivideStart(w, pp);
    LowOfPow2(w);
    var i := 2 * w - 1;
    while i >= w
      invariant w - 1 <= i && Dividing(w, p, q, r) && r < Pow2(i + 1) && Low(tmp, i + 1) == Low(r, i + 1)
      invariant Low(q, i - w + 1) == 0
    {
      DirtyStep(w, pp, tmp, r, i);
      ReduceBit(r, i, w, p);
      ClearBelow(q, i - w);
      if Bit(tmp, i) {
        DivideStep(w, p, q, r, i);
        // the bit is still clear, so C's |= is an exclusive or
        assert !Bit(q, i - w);
        q := Xor(q, Pow2(i - w));
        tmp := Xor(tmp, Shl(pp, i - w));
        r := Xor(r, Shl(p, i - w));
      }
      i := i - 1;
    }
    QuotientDone(w, p, q, r);
  }

  lemma ClearBelow(q: nat, k: nat)
    requires Low(q, k + 1) == 0
    ensures !Bit(q, k) && Low(q, k) == 0 && Low(Xor(q, Pow2(k)), k) == 0
  {
    hide Xor, Low, Pow2;
    BitLow(q, k + 1, k); BitZero(k);
    LowLow(q, k);
    LowXor(q, Pow2(k), k);
    LowOfPow2(k);
    LowOfZero(k);
    XorZero(0);
  }

  lemma QuotientDone(w: nat, p: nat, q: nat, r: nat)
    requires IsModulus(w, p) && Dividing(w, p, q, r) && r < Pow2(w)
    ensures q == PDiv(Pow2(2 * w), p) && r == PMod(Pow2(2 * w), p)
  {
    FitsLen(r, w);
    DivModUnique(Pow2(2 * w), p, q, r);
  }

  /** The multiplication: one product, two more for the reduction, no correction step. */
  function GkMultiply(w: nat, q: nat, g: nat, a: nat, b: nat): (r: nat)
  {
    var c := PMul(a, b);
    var t := PMul(q, Shr(c, w));
    Low(Xor(c, PMul(g, Shr(t, w))), w)
  }

  /** Shifted by `w`, the error of the estimated quotient is a sum of three small terms. */
  lemma BarrettError(w: nat, p: nat, q: nat, r: nat, c: nat)
    requires Dividing(w, p, q, r)
    ensures var c1, c0, m := Shr(c, w), Low(c, w), PMul(q, Shr(c, w));
            Shl(Xor(c, PMul(Shr(m, w), p)), w)
            == Xor(Shl(c0, w), Xor(PMul(c1, r), PMul(Low(m, w), p)))
  {
    hide PMul, Shl, Shr, Low, Xor, Pow2;
    var c1, c0, m := Shr(c, w), Low(c, w), PMul(q, Shr(c, w));
    var t, s := Shr(m, w), Low(m, w);
    SplitAt(c, w); SplitAt(m, w);
    ShlXor(c, PMul(t, p), w);
    PMulShl(t, p, w);
    PMulXorLeft(Shl(t, w), s, p);
    // (c1 * q) * p == c1 * x^(2w) ^ c1 * r
    PMulComm(q, c1); PMulAssoc(c1, q, p);
    XorComm(PMul(q, p), r); XorCancel(r, PMul(q, p));
    PMulXorRight(c1, Pow2(2 * w), r);
    PMulPow2(c1, 2 * w);
    XorComm(Pow2(2 * w), r); XorCancel(PMul(q, p), r);
    ShlXor(Shl(c1, w), c0, w); ShlAdd(c1, w, w);
    BarrettXor(Shl(c1, 2 * w), Shl(c0, w), PMul(c1, r), PMul(s, p), PMul(Shl(t, w), p));
  }

  lemma BarrettXor(a: nat, b: nat, c: nat, d: nat, e: nat)
    requires Xor(a, c) == Xor(e, d)
    ensures Xor(Xor(a, b), e) == Xor(b, Xor(c, d))
  {
    hide Xor;
    XorAssoc(a, c, d); XorCancel(e, d); XorCancel(c, d);
    XorComm(a, b); XorAssoc(b, a, e);
    assert e == Xor(Xor(a, c), d);
    XorCancel(a, Xor(c, d));
  }

  /** Barrett reduction over GF(2) is exact. */
  lemma GkQuotient(w: nat, p: nat, c: nat)
    requires IsModulus(w, p) && c < Pow2(2 * w - 1)
    ensures Shr(PMul(PDiv(Pow2(2 * w), p), Shr(c, w)), w) == PDiv(c, p)
    ensures PMod(c, p) == Xor(c, PMul(PDiv(c, p), p))
  {
    hide *;
    ModulusPositive(w, p);
    var q, r := PDiv(Pow2(2 * w), p), PMod(Pow2(2 * w), p);
    DivMod(Pow2(2 * w), p);
    DividingFold(w, p, q, r);
    BarrettError(w, p, q, r, c);
    var c1, m := Shr(c, w), PMul(q, Shr(c, w));
    var t, s := Shr(m, w), Low(m, w);
    LowFits(c, w); LowFits(m, w);
    ShrFits(c, w, w - 1);
    ModFits(Pow2(2 * w), w, p);
    SmallTerms(w, p, Low(c, w), c1, r, s);
    var e := Xor(c, PMul(t, p));
    ShlFitsBack(e, w, w);
    FitsLen(e, w);
    ModulusLen(w, p);
    XorComm(c, PMul(t, p)); XorCancel(PMul(t, p), c);
    DivModUnique(c, p, t, e);
  }

  lemma ModulusLen(w: nat, p: nat)
    requires IsModulus(w, p)
    ensures Len(p) == w + 1
  {
  }

  lemma {:induction false} ShlFitsBack(e: nat, k: nat, n: nat)
    requires Shl(e, k) < Pow2(k + n)
    ensures e < Pow2(n)
  {
    if k > 0 { ShlFitsBack(e, k - 1, n); }
  }

  lemma SmallTerms(w: nat, p: nat, c0: nat, c1: nat, r: nat, s: nat)
    requires IsModulus(w, p) && c0 < Pow2(w) && c1 < Pow2(w - 1) && r < Pow2(w) && s < Pow2(w)
    ensures Xor(Shl(c0, w), Xor(PMul(c1, r), PMul(s, p))) < Pow2(w + w)
  {
    hide PMul, Xor, Shl, Pow2;
    ShlFits(c0, w, w);
    PMulFits(c1, r, w - 1, w);
    FitsLen(p, w + 1);
    PMulFits(s, p, w, w + 1);
    if w >= 2 { Pow2Mono(2 * w - 2, 2 * w); }
    Pow2Mono(0, 2 * w);
    XorFits(PMul(c1, r), PMul(s, p), 2 * w);
    XorFits(Shl(c0, w), Xor(PMul(c1, r), PMul(s, p)), 2 * w);
  }

  lemma GkMultiplyIsMul(w: nat, pp: nat, a: nat, b: nat)
    requires w >= 1 && pp < Pow2(w) && a < Pow2(w) && b < Pow2(w)
    ensures GkMultiply(w, PDiv(Pow2(2 * w), Full(w, pp)), pp, a, b) == Mul(a, b, Full(w, pp))
  {
    var p, c := Full(w, pp), PMul(a, b);
    FullIsModulus(w, pp);
    FullProduct(a, b, w); LowId(a, w);
    GkQuotient(w, p, c);
    var t := PDiv(c, p);
    hide PDiv, PMod, PMul, Low, Xor, Shl, Full;
    PMulXorRight(t, Pow2(w), pp); PMulPow2(t, w); PMulComm(t, pp);
    XorComm(Shl(t, w), PMul(pp, t));
    XorAssoc(c, PMul(pp, t), Shl(t, w));
    var u := Xor(c, PMul(pp, t));
    LowXor(u, Shl(t, w), w);
    LowOfShl(t, w);
    XorZero(Low(u, w));
    ModFits(c, w, p);
    LowId(PMod(c, p), w);
  }

  // ----- folding

  /** One fold: multiply the part above `x^w` by the modulus and add it. */
  function Fold(c: nat, w: nat, p: nat): (r: nat) {
    Xor(c, PMul(p, Shr(c, w)))
  }

  function Folds(c: nat, w: nat, p: nat, k: nat): (r: nat)
    decreases k
  {
    if k == 0 then c else Folds(Fold(c, w, p), w, p, k - 1)
  }

  /** The tail of the modulus: everything below its leading bit. */
  function Tail(w: nat, p: nat): nat {
    Low(p, w)
  }

  lemma TailSplit(w: nat, p: nat)
    requires IsModulus(w, p)
    ensures p == Xor(Pow2(w), Tail(w, p)) && Tail(w, p) < Pow2(w)
  {
    SplitAt(p, w);
    LowFits(p, w);
    FitsLen(p, w + 1);
    ShrFits(p, w, 1);
    ShlOne(w); ShlZero(w);
    if Shr(p, w) == 0 {
      XorZero(Low(p, w));
      FitsLen(p, w);
    }
  }

  lemma FoldParts(c: nat, w: nat, p: nat)
    requires IsModulus(w, p)
    ensures Fold(c, w, p) == Xor(Low(c, w), PMul(Tail(w, p), Shr(c, w)))
    ensures PMod(Fold(c, w, p), p) == PMod(c, p)
  {
    var h, g, l := Shr(c, w), Tail(w, p), Low(c, w);
    PMulComm(p, h);
    ModAddMultiple(c, h, p);
    TailSplit(w, p);
    hide PMod, PMul, Xor, Shr, Low, Tail;
    SplitAt(c, w);
    PMulXorLeft(Pow2(w), g, h); PMulPow2(h, w);
    var s, t := Shl(h, w), PMul(g, h);
    hide Shl;
    XorSwap(s, l, s, t);
    XorSelf(s); XorZero(Xor(l, t));
  }

  lemma {:induction false} FoldsMod(c: nat, w: nat, p: nat, k: nat)
    requires IsModulus(w, p)
    ensures PMod(Folds(c, w, p, k), p) == PMod(c, p)
    decreases k
  {
    hide PMod, Fold;
    if k > 0 {
      FoldParts(c, w, p);
      FoldsMod(Fold(c, w, p), w, p, k - 1);
    }
  }

  /** A fold shortens a long value by `w - d + 1`, where `d` is the length of the tail. */
  lemma FoldLen(c: nat, w: nat, p: nat)
    requires IsModulus(w, p)
    ensures var d := Len(Tail(w, p));
            && (Len(c) + d <= 2 * w + 1 || d == 0 ==> Len(Fold(c, w, p)) <= w)
            && (Len(c) + d > 2 * w + 1 && d >= 1 ==> Len(Fold(c, w, p)) == Len(c) + d - w - 1)
  {
    hide PMod, PMul, Xor, Shr, Low, Shl, Pow2, Fold, Tail;
    FoldParts(c, w, p);
    TailSplit(w, p);
    var h, g, l := Shr(c, w), Tail(w, p), Low(c, w);
    FitsLen(g, w);
    LowFits(c, w); FitsLen(l, w);
    if h == 0 || g == 0 {
      PMulNonZero(g, h);
      XorZero(l);
      ShrLen(c, w);
    } else {
      ShrLen(c, w);
      PMulLen(g, h);
      var m := PMul(g, h);
      if Len(m) > w { XorLenLess(l, m); } else { XorLenMax(l, m, w); }
    }
  }

  lemma ShrLen(c: nat, w: nat)
    ensures Shr(c, w) > 0 <==> Len(c) > w
    ensures Shr(c, w) > 0 ==> Len(Shr(c, w)) == Len(c) - w
  {
    hide Xor, Len;
    SplitAt(c, w);
    LowFits(c, w); FitsLen(Low(c, w), w);
    var h := Shr(c, w);
    if h > 0 {
      LenShl(h, w);
      LenPositive(h);
      XorLenLess(Low(c, w), Shl(h, w));
    } else {
      ShlZero(w);
    }
  }

  lemma {:induction false} FoldsLen(c: nat, w: nat, p: nat, k: nat)
    requires IsModulus(w, p)
    ensures var s := w + 1 - Len(Tail(w, p));
            && (Len(c) <= w + k * s ==> Len(Folds(c, w, p, k)) <= w)
            && (Len(Tail(w, p)) >= 1 && Len(c) > w + k * s ==> Len(Folds(c, w, p, k)) == Len(c) - k * s)
    decreases k
  {
    hide *;
    var d := Len(Tail(w, p));
    TailSplit(w, p); FitsLen(Tail(w, p), w);
    FoldsUnfold(c, w, p, k);
    Times(k, w + 1 - d);
    if k > 0 {
      FoldLen(c, w, p);
      FoldsLen(Fold(c, w, p), w, p, k - 1);
    }
  }

  lemma FoldsUnfold(c: nat, w: nat, p: nat, k: nat)
    ensures Folds(c, w, p, k) == if k == 0 then c else Folds(Fold(c, w, p), w, p, k - 1)
  {
  }

  lemma Times(k: nat, s: nat)
    ensures k == 0 ==> k * s == 0
    ensures k > 0 ==> k * s == (k - 1) * s + s && (k - 1) * s >= 0
  {
  }

  /**
   `k` folds reduce every product of two field elements exactly when
   `k * (w + 1 - d) >= w - 1`, with `d` the length of the modulus below its leading bit.
   */
  lemma FoldsExact(w: nat, p: nat, k: nat)
    requires IsModulus(w, p)
    ensures (forall a: nat, b: nat :: a < Pow2(w) && b < Pow2(w) ==> Folds(PMul(a, b), w, p, k) == Mul(a, b, p))
            <==> k * (w + 1 - Len(Tail(w, p))) >= w - 1
  {
    if k * (w + 1 - Len(Tail(w, p))) >= w - 1 {
      forall a: nat, b: nat | a < Pow2(w) && b < Pow2(w) ensures Folds(PMul(a, b), w, p, k) == Mul(a, b, p) {
        FoldsMultiply(w, p, k, a, b);
      }
    } else {
      FoldsTooFew(w, p, k);
    }
  }

  lemma FoldsMultiply(w: nat, p: nat, k: nat, a: nat, b: nat)
    requires IsModulus(w, p) && a < Pow2(w) && b < Pow2(w)
    requires k * (w + 1 - Len(Tail(w, p))) >= w - 1
    ensures Folds(PMul(a, b), w, p, k) == Mul(a, b, p)
  {
    hide PMul, PMod, Folds, Tail, Low;
    var c := PMul(a, b);
    FullProduct(a, b, w); LowId(a, w);
    FitsLen(c, 2 * w - 1);
    FoldsLen(c, w, p, k);
    FoldsMod(c, w, p, k);
    FitsLen(Folds(c, w, p, k), w);
    ModFits(Folds(c, w, p, k), w, p);
  }

  /** For the modulus x^w only zero folds are too few. */
  lemma NoFold(c: nat, w: nat, p: nat, k: nat)
    requires w >= 1 && Tail(w, p) == 0 && k * (w + 1 - Len(Tail(w, p))) < w - 1
    ensures k == 0 && Folds(c, w, p, k) == c
  {
    assert Len(0) == 0;
    Growing(k, w + 1);
  }

  lemma Growing(k: nat, n: nat)
    ensures k >= 1 ==> k * n >= n
  {
  }

  lemma FoldsTooFew(w: nat, p: nat, k: nat)
    requires IsModulus(w, p) && k * (w + 1 - Len(Tail(w, p))) < w - 1
    ensures Pow2(w - 1) < Pow2(w) && Folds(PMul(Pow2(w - 1), Pow2(w - 1)), w, p, k) != Mul(Pow2(w - 1), Pow2(w - 1), p)
  {
    hide PMul, PMod, Folds, Tail, Mul;
    var a := Pow2(w - 1);
    Pow2Mono(w - 1, w);
    FitsLen(a, w); FitsLen(a, w - 1);
    PMulLen(a, a);
    if Tail(w, p) == 0 {
      NoFold(PMul(a, a), w, p, k);
    } else {
      LenPositive(Tail(w, p));
      FoldsLen(PMul(a, a), w, p, k);
    }
    MulFits(a, a, w, p);
    FitsLen(Mul(a, a, p), w);
  }

  // ----- how the initialisation chooses the number of folds

  /** Fold count per width and polynomial; 0 where the initialisation refuses. */
  function FoldCount(w: nat, poly: nat): (k: nat) {
    if w == 4 then
      if And(0xc, poly) == 0 then 1 else 0
    else if w == 8 then
      if And(0xe0, poly) == 0 then 2 else if And(0xc0, poly) == 0 then 3 else if And(0x80, poly) == 0 then 4 else 0
    else if w == 16 then
      if And(0xfe00, poly) == 0 then 2 else if And(0xf000, poly) == 0 then 3 else if And(0xe000, poly) == 0 then 4 else 0
    else if w == 32 then
      if And(0xfffe0000, poly) == 0 then 2 else if And(0xffc00000, poly) == 0 then 3
      else if And(0xfe000000, poly) == 0 then 4 else 0
    else 0
  }

  /** The mask `2^w - 2^d` is clear exactly when the tail is no longer than `d`. */
  lemma MaskIsBound(w: nat, d: nat, p: nat)
    requires d <= w
    ensures And(Shl(Pow2(w - d) - 1, d), p) == 0 <==> Len(Tail(w, p)) <= d
  {
    if And(Shl(Pow2(w - d) - 1, d), p) == 0 { MaskBoundsTail(w, d, p); }
    if Len(Tail(w, p)) <= d { ShortTailMissesMask(w, d, p); }
  }

  lemma MaskBoundsTail(w: nat, d: nat, p: nat)
    requires d <= w && And(Shl(Pow2(w - d) - 1, d), p) == 0
    ensures Len(Tail(w, p)) <= d
  {
    hide And, Shl, Low;
    var m := Shl(Pow2(w - d) - 1, d);
    forall i: nat | d <= i ensures !Bit(Tail(w, p), i) {
      BitLow(p, w, i);
      BitAnd(m, p, i);
      BitZero(i);
      if i < w {
        BitShl(Pow2(w - d) - 1, d, i);
        OnesBit(w - d, i - d);
      }
    }
    BitsFit(Tail(w, p), d);
    FitsLen(Tail(w, p), d);
  }

  lemma ShortTailMissesMask(w: nat, d: nat, p: nat)
    requires d <= w && Len(Tail(w, p)) <= d
    ensures And(Shl(Pow2(w - d) - 1, d), p) == 0
  {
    hide And, Shl, Low;
    var m := Shl(Pow2(w - d) - 1, d);
    FitsLen(Tail(w, p), d);
    MaskFits(w, d);
    forall i: nat ensures !Bit(And(m, p), i) {
      BitAnd(m, p, i);
      BitShl(Pow2(w - d) - 1, d, i);
      BitLow(p, w, i);
      if i >= w { FitsBit(m, w, i); } else if i >= d { FitsBit(Tail(w, p), d, i); }
    }
    BitsFit(And(m, p), 0);
  }

  lemma MaskFits(w: nat, d: nat)
    requires d <= w
    ensures Shl(Pow2(w - d) - 1, d) < Pow2(w)
  {
    OnesShl(w - d, d);
  }

  lemma {:induction false} OnesBit(n: nat, i: nat)
    requires i < n
    ensures Bit(Pow2(n) - 1, i)
  {
    if i > 0 {
      assert (Pow2(n) - 1) / 2 == Pow2(n - 1) - 1;
      OnesBit(n - 1, i - 1);
    }
  }

  lemma {:induction false} OnesShl(n: nat, d: nat)
    ensures Shl(Pow2(n) - 1, d) == Pow2(n + d) - Pow2(d)
  {
    if d > 0 { OnesShl(n, d - 1); }
  }

  lemma Pow2Values()
    ensures Pow2(2) == 0x4 && Pow2(4) == 0x10 && Pow2(5) == 0x20 && Pow2(6) == 0x40 && Pow2(7) == 0x80 && Pow2(8) == 0x100
    ensures Pow2(9) == 0x200 && Pow2(12) == 0x1000 && Pow2(13) == 0x2000 && Pow2(16) == 0x10000
    ensures Pow2(17) == 0x20000 && Pow2(22) == 0x400000 && Pow2(25) == 0x2000000 && Pow2(32) == 0x100000000
  {
    assert Pow2(16) == 0x10000;
    assert Pow2(24) == 0x1000000;
    assert Pow2(32) == 0x100000000;
  }

  lemma Masks()
    ensures Shl(Pow2(2) - 1, 2) == 0xc
    ensures Shl(Pow2(3) - 1, 5) == 0xe0 && Shl(Pow2(2) - 1, 6) == 0xc0 && Shl(Pow2(1) - 1, 7) == 0x80
    ensures Shl(Pow2(7) - 1, 9) == 0xfe00 && Shl(Pow2(4) - 1, 12) == 0xf000 && Shl(Pow2(3) - 1, 13) == 0xe000
    ensures Shl(Pow2(15) - 1, 17) == 0xfffe0000 && Shl(Pow2(10) - 1, 22) == 0xffc00000 && Shl(Pow2(7) - 1, 25) == 0xfe000000
  {
    hide *;
    Pow2Values();
    OnesShl(2, 2); OnesShl(3, 5); OnesShl(2, 6); OnesShl(1, 7);
    OnesShl(7, 9); OnesShl(4, 12); OnesShl(3, 13);
    OnesShl(15, 17); OnesShl(10, 22); OnesShl(7, 25);
  }

  /** The longest tail for which the initialisation of width `w` picks at most `k` folds. */
  function LongestTail(w: nat, k: nat): nat
    requires w == 4 || w == 8 || w == 16 || w == 32
    requires if w == 4 then k == 1 else 2 <= k <= 4
  {
    if w == 4 then 2
    else if w == 8 then (if k == 2 then 5 else if k == 3 then 6 else 7)
    else if w == 16 then (if k == 2 then 9 else if k == 3 then 12 else 13)
    else (if k == 2 then 17 else if k == 3 then 22 else 25)
  }

  /** The masks are bounds on the length of the tail. */
  lemma FoldCountByTail(w: nat, p: nat, k: nat)
    requires w == 4 || w == 8 || w == 16 || w == 32
    requires if w == 4 then k == 1 else 2 <= k <= 4
    ensures 0 < FoldCount(w, p) <= k <==> Len(Low(p, w)) <= LongestTail(w, k)
    ensures FoldCount(w, p) == 0 || (if w == 4 then FoldCount(w, p) == 1 else 2 <= FoldCount(w, p) <= 4)
  {
    hide And, Shl, Tail, Len, Low;
    Masks();
    TailIsLow(w, p);
    if w == 4 {
      MaskIsBound(4, 2, p);
    } else if w == 8 {
      MaskIsBound(8, 5, p); MaskIsBound(8, 6, p); MaskIsBound(8, 7, p);
    } else if w == 16 {
      MaskIsBound(16, 9, p); MaskIsBound(16, 12, p); MaskIsBound(16, 13, p);
    } else {
      MaskIsBound(32, 17, p); MaskIsBound(32, 22, p); MaskIsBound(32, 25, p);
    }
  }

  lemma TailIsLow(w: nat, p: nat)
    ensures Tail(w, p) == Low(p, w)
  {
  }

  /** The bounds are the right ones: `k` folds are enough exactly for tails up to the longest. */
  lemma LongestTailExact(w: nat, k: nat, d: nat)
    requires w == 4 || w == 8 || w == 16 || w == 32
    requires (if w == 4 then k == 1 else 2 <= k <= 4) && d <= w
    ensures k * (w + 1 - d) >= w - 1 <==> d <= LongestTail(w, k)
  {
  }

  /**
   The initialisation picks the least number of folds that reduces every product, among
   those it can select, and refuses exactly when even the greatest is too few.
   */
  lemma FoldCountExact(w: nat, p: nat, k: nat)
    requires IsModulus(w, p) && (w == 4 || w == 8 || w == 16 || w == 32)
    requires if w == 4 then k == 1 else 2 <= k <= 4
    ensures (forall a: nat, b: nat :: a < Pow2(w) && b < Pow2(w) ==> Folds(PMul(a, b), w, p, k) == Mul(a, b, p))
            <==> 0 < FoldCount(w, p) <= k
  {
    hide FoldCount, Folds, Mul, Tail, Len, PMul, LongestTail, IsModulus;
    FoldsExact(w, p, k);
    FoldCountByTail(w, p, k);
    TailIsLow(w, p);
    TailShort(w, p);
    LongestTailExact(w, k, Len(Tail(w, p)));
  }

  lemma TailShort(w: nat, p: nat)
    ensures Len(Tail(w, p)) <= w
  {
    LowFits(p, w);
    FitsLen(Tail(w, p), w);
  }

  /** So whatever polynomial passes, the number of folds chosen for it is enough. */
  lemma FoldCountSuffices(w: nat, p: nat, a: nat, b: nat)
    requires IsModulus(w, p) && FoldCount(w, p) > 0 && a < Pow2(w) && b < Pow2(w)
    ensures Folds(PMul(a, b), w, p, FoldCount(w, p)) == Mul(a, b, p)
  {
    hide Folds, Mul, PMul, And, IsModulus;
    var k := FoldCount(w, p);
    FoldCountByTail(w, p, if w == 4 then 1 else 2);
    FoldCountExact(w, p, k);
  }
}
