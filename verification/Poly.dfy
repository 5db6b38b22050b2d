/**
 Polynomials over GF(2): bit `i` of a number is the coefficient of `x^i`.
 Addition is `Xor`; this module gives the product, division with remainder, the
 greatest common divisor and the ring of residues modulo a polynomial.
 */
module Poly {
  import opened Bits

  /** Carry-less product. */
  function PMul(a: nat, b: nat): (r: nat)
    decreases a
  {
    if a == 0 then 0 else Xor(if a % 2 == 1 then b else 0, 2 * PMul(a / 2, b))
  }

  // ----- ring laws

  lemma {:induction false} PMulZero(a: nat)
    ensures PMul(a, 0) == 0
  {
    if a > 0 { PMulZero(a / 2); }
  }

  lemma {:induction false} PMulOne(a: nat)
    ensures PMul(a, 1) == a && PMul(1, a) == a
  {
    XorZero(a);
    PMulOneRight(a);
  }

  lemma {:induction false} PMulOneRight(a: nat)
    ensures PMul(a, 1) == a
  {
    if a > 0 {
      PMulOneRight(a / 2);
      LowBit(a);
    }
  }

  lemma PMulStep(a: nat, b: nat)
    ensures PMul(a, b) == Xor(Masked(a, b), 2 * PMul(a / 2, b))
  {
  }

  lemma PMulDoubleLeft(a: nat, b: nat)
    ensures PMul(2 * a, b) == 2 * PMul(a, b)
  {
    PMulStep(2 * a, b);
    XorZero(2 * PMul(a, b));
  }

  /** `b` times the low coefficient of `a`. */
  function Masked(a: nat, b: nat): nat {
    if a % 2 == 1 then b else 0
  }

  lemma MaskedXor(a: nat, c: nat, b: nat)
    ensures Masked(Xor(a, c), b) == Xor(Masked(a, b), Masked(c, b))
  {
    XorHalves(a, c);
    if a % 2 == 0 {
      XorZero(Masked(c, b));
    } else if c % 2 == 0 {
      XorZero(b);
    } else {
      XorSelf(b);
    }
  }

  lemma {:induction false} PMulXorLeft(a: nat, c: nat, b: nat)
    ensures PMul(Xor(a, c), b) == Xor(PMul(a, b), PMul(c, b))
    decreases a + c
  {
    if a != 0 || c != 0 {
      PMulXorLeft(a / 2, c / 2, b);
      var p, q := PMul(a / 2, b), PMul(c / 2, b);
      XorHalves(a, c);
      PMulStep(Xor(a, c), b);
      MaskedXor(a, c, b);
      XorDouble(p, q);
      XorSwap(Masked(a, b), 2 * p, Masked(c, b), 2 * q);
      PMulStep(a, b); PMulStep(c, b);
    }
  }

  lemma {:induction false} PMulDoubleRight(a: nat, b: nat)
    ensures PMul(a, 2 * b) == 2 * PMul(a, b)
    decreases a
  {
    if a > 0 {
      PMulDoubleRight(a / 2, b);
      XorDouble(if a % 2 == 1 then b else 0, 2 * PMul(a / 2, b));
    }
  }

  lemma {:induction false} PMulXorRight(a: nat, b: nat, c: nat)
    ensures PMul(a, Xor(b, c)) == Xor(PMul(a, b), PMul(a, c))
    decreases a
  {
    if a == 0 {
    } else {
      PMulXorRight(a / 2, b, c);
      var odd := a % 2 == 1;
      var p, q := PMul(a / 2, b), PMul(a / 2, c);
      XorSwap(if odd then b else 0, 2 * p, if odd then c else 0, 2 * q);
      XorDouble(p, q);
      XorSelf(0);
    }
  }

  lemma PMulZeroLeft(b: nat)
    ensures PMul(0, b) == 0
  {
  }

  lemma MaskedIs(a: nat, b: nat)
    ensures Masked(a, b) == if a % 2 == 1 then b else 0
  {
  }

  lemma {:induction false} PMulComm(a: nat, b: nat)
    ensures PMul(a, b) == PMul(b, a)
    decreases a
  {
    hide *;
    PMulZero(b); PMulZeroLeft(b);
    PMulStep(a, b);
    MaskedIs(a, b);
    if a > 0 {
      PMulComm(a / 2, b);
      var l := a % 2;
      LowBit(a);
      PMulXorRight(b, l, 2 * (a / 2));
      PMulDoubleRight(b, a / 2);
      PMulZero(b); PMulOne(b);
    }
  }

  lemma {:induction false} PMulAssoc(a: nat, b: nat, c: nat)
    ensures PMul(PMul(a, b), c) == PMul(a, PMul(b, c))
    decreases a
  {
    if a > 0 {
      PMulAssoc(a / 2, b, c);
      PMulXorLeft(if a % 2 == 1 then b else 0, 2 * PMul(a / 2, b), c);
      PMulDoubleLeft(PMul(a / 2, b), c);
    }
  }

  lemma {:induction false} PMulPow2(a: nat, k: nat)
    ensures PMul(a, Pow2(k)) == Shl(a, k) == PMul(Pow2(k), a)
  {
    PMulComm(a, Pow2(k));
    if k == 0 {
      PMulOne(a);
    } else {
      PMulPow2(a, k - 1);
      PMulDoubleRight(a, Pow2(k - 1));
    }
  }

  lemma PMulShl(a: nat, b: nat, k: nat)
    ensures PMul(Shl(a, k), b) == Shl(PMul(a, b), k) == PMul(a, Shl(b, k))
  {
    PMulPow2(a, k); PMulPow2(b, k); PMulPow2(PMul(a, b), k);
    PMulAssoc(Pow2(k), a, b);
    PMulAssoc(a, b, Pow2(k));
  }

  /** Degrees add. */
  lemma {:induction false} PMulLen(a: nat, b: nat)
    requires a > 0 && b > 0
    ensures PMul(a, b) > 0 && Len(PMul(a, b)) == Len(a) + Len(b) - 1
    decreases a
  {
    if a == 1 {
      PMulOne(b);
    } else {
      PMulLen(a / 2, b);
      var q := 2 * PMul(a / 2, b);
      if a % 2 == 1 { XorLenLess(b, q); } else { XorZero(q); }
    }
  }

  lemma PMulFits(a: nat, b: nat, m: nat, n: nat)
    requires a < Pow2(m) && b < Pow2(n)
    ensures PMul(a, b) == 0 || (m + n >= 1 && PMul(a, b) < Pow2(m + n - 1))
  {
    hide *;
    PMulZero(a); PMulZeroLeft(b);
    if a > 0 && b > 0 {
      FitsLen(a, m); FitsLen(b, n);
      PMulLen(a, b);
      LenPositive(a); LenPositive(b);
      FitsLen(PMul(a, b), m + n - 1);
    }
  }

  lemma PMulNonZero(a: nat, b: nat)
    ensures PMul(a, b) == 0 <==> a == 0 || b == 0
  {
    if a > 0 && b > 0 { PMulLen(a, b); } else { PMulZero(a); }
  }

  // ----- division with remainder

  function PMod(a: nat, p: nat): (r: nat)
    requires p > 0
    decreases Len(a)
  {
    if Len(a) < Len(p) then a
    else
      StepShrinks(a, p);
      PMod(Xor(a, Shl(p, Len(a) - Len(p))), p)
  }

  function PDiv(a: nat, p: nat): (q: nat)
    requires p > 0
    decreases Len(a)
  {
    if Len(a) < Len(p) then 0
    else
      StepShrinks(a, p);
      Xor(Pow2(Len(a) - Len(p)), PDiv(Xor(a, Shl(p, Len(a) - Len(p))), p))
  }

  lemma StepShrinks(a: nat, p: nat)
    requires p > 0 && Len(a) >= Len(p)
    ensures Len(Xor(a, Shl(p, Len(a) - Len(p)))) < Len(a)
  {
    var k := Len(a) - Len(p);
    LenShl(p, k);
    XorLenSame(a, Shl(p, k));
  }

  lemma {:induction false} DivMod(a: nat, p: nat)
    requires p > 0
    ensures a == Xor(PMul(PDiv(a, p), p), PMod(a, p))
    ensures Len(PMod(a, p)) < Len(p)
    decreases Len(a)
  {
    if Len(a) < Len(p) {
      XorZero(a);
    } else {
      var k := Len(a) - Len(p);
      var s := Shl(p, k);
      StepShrinks(a, p);
      DivMod(Xor(a, s), p);
      var q, r := PDiv(Xor(a, s), p), PMod(Xor(a, s), p);
      PMulXorLeft(Pow2(k), q, p);
      PMulPow2(p, k);
      assert Xor(PMul(PDiv(a, p), p), r) == Xor(Xor(s, PMul(q, p)), r);
      XorAssoc(s, PMul(q, p), r);
      XorComm(a, s); XorCancel(s, a);
    }
  }

  /** Quotient and remainder are unique. */
  lemma DivModUnique(a: nat, p: nat, q: nat, r: nat)
    requires p > 0 && Len(r) < Len(p)
    requires a == Xor(PMul(q, p), r)
    ensures q == PDiv(a, p) && r == PMod(a, p)
  {
    DivMod(a, p);
    var q', r' := PDiv(a, p), PMod(a, p);
    var u, v := PMul(q, p), PMul(q', p);
    XorSwap(u, r, v, r');
    XorSelf(a);
    XorCancel(Xor(u, v), Xor(r, r'));
    PMulXorLeft(q, q', p);
    XorLenMax(r, r', Len(p) - 1);
    if Xor(q, q') != 0 {
      PMulLen(Xor(q, q'), p);
      assert false;
    }
    XorCancel(q, q');
    XorSelf(u);
    XorCancel(r, r');
  }

  lemma ModSmall(a: nat, p: nat)
    requires p > 0 && Len(a) < Len(p)
    ensures PMod(a, p) == a
  {
  }

  lemma ModZero(p: nat)
    requires p > 0
    ensures PMod(0, p) == 0
  {
  }

  lemma ModMultiple(q: nat, p: nat)
    requires p > 0
    ensures PMod(PMul(q, p), p) == 0
    ensures PMod(PMul(p, q), p) == 0
  {
    XorZero(PMul(q, p));
    DivModUnique(PMul(q, p), p, q, 0);
    PMulComm(p, q);
  }

  lemma ModXor(a: nat, b: nat, p: nat)
    requires p > 0
    ensures PMod(Xor(a, b), p) == Xor(PMod(a, p), PMod(b, p))
  {
    DivMod(a, p); DivMod(b, p);
    var qa, qb, ra, rb := PDiv(a, p), PDiv(b, p), PMod(a, p), PMod(b, p);
    XorSwap(PMul(qa, p), ra, PMul(qb, p), rb);
    PMulXorLeft(qa, qb, p);
    XorLenMax(ra, rb, Len(p) - 1);
    DivModUnique(Xor(a, b), p, Xor(qa, qb), Xor(ra, rb));
  }

  /** Adding a multiple of the modulus changes nothing. */
  lemma ModAddMultiple(a: nat, q: nat, p: nat)
    requires p > 0
    ensures PMod(Xor(a, PMul(q, p)), p) == PMod(a, p)
  {
    ModXor(a, PMul(q, p), p);
    ModMultiple(q, p);
    XorZero(PMod(a, p));
  }

  lemma ModAddShifted(a: nat, k: nat, p: nat)
    requires p > 0
    ensures PMod(Xor(a, Shl(p, k)), p) == PMod(a, p)
  {
    PMulPow2(p, k);
    ModAddMultiple(a, Pow2(k), p);
  }

  lemma ModIdem(a: nat, p: nat)
    requires p > 0
    ensures PMod(PMod(a, p), p) == PMod(a, p)
  {
    DivMod(a, p);
  }

  lemma ModMul(a: nat, b: nat, p: nat)
    requires p > 0
    ensures PMod(PMul(PMod(a, p), b), p) == PMod(PMul(a, b), p)
    ensures PMod(PMul(a, PMod(b, p)), p) == PMod(PMul(a, b), p)
  {
    ModMulLeft(a, b, p);
    ModMulLeft(b, a, p);
    PMulComm(a, PMod(b, p)); PMulComm(a, b);
  }

  lemma ModMulLeft(a: nat, b: nat, p: nat)
    requires p > 0
    ensures PMod(PMul(PMod(a, p), b), p) == PMod(PMul(a, b), p)
  {
    DivMod(a, p);
    var q, r := PDiv(a, p), PMod(a, p);
    PMulXorLeft(PMul(q, p), r, b);
    PMulAssoc(q, p, b); PMulComm(p, b); PMulAssoc(q, b, p);
    XorComm(PMul(PMul(q, p), b), PMul(r, b));
    ModAddMultiple(PMul(r, b), PMul(q, b), p);
  }

  // ----- greatest common divisor

  ghost predicate Divides(d: nat, a: nat)
  {
    exists q: nat :: PMul(q, d) == a
  }

  function PGcd(a: nat, b: nat): (g: nat)
    decreases Len(b)
  {
    if b == 0 then a else DivMod(a, b); PGcd(b, PMod(a, b))
  }

  lemma DividesXor(d: nat, a: nat, b: nat)
    requires Divides(d, a) && Divides(d, b)
    ensures Divides(d, Xor(a, b))
  {
    var q: nat :| PMul(q, d) == a;
    var r: nat :| PMul(r, d) == b;
    PMulXorLeft(q, r, d);
  }

  lemma DividesMul(d: nat, a: nat, k: nat)
    requires Divides(d, a)
    ensures Divides(d, PMul(k, a))
  {
    var q: nat :| PMul(q, d) == a;
    PMulAssoc(k, q, d);
  }

  lemma DividesRefl(a: nat)
    ensures Divides(a, a) && Divides(a, 0)
  {
    PMulOne(a);
    assert PMul(0, a) == 0;
  }

  /** `PGcd` is the greatest common divisor, up to nothing: the only unit is 1. */
  lemma {:induction false} GcdDivides(a: nat, b: nat)
    ensures Divides(PGcd(a, b), a) && Divides(PGcd(a, b), b)
    decreases Len(b)
  {
    DividesRefl(a);
    if b > 0 {
      DivMod(a, b);
      var r := PMod(a, b);
      GcdDivides(b, r);
      var g := PGcd(b, r);
      DividesMul(g, b, PDiv(a, b));
      DividesXor(g, PMul(PDiv(a, b), b), r);
    }
  }

  lemma {:induction false} GcdGreatest(a: nat, b: nat, d: nat)
    requires Divides(d, a) && Divides(d, b)
    ensures Divides(d, PGcd(a, b))
    decreases Len(b)
  {
    if b > 0 {
      DivMod(a, b);
      var r, m := PMod(a, b), PMul(PDiv(a, b), b);
      DividesMul(d, b, PDiv(a, b));
      DividesXor(d, a, m);
      XorComm(m, r); XorCancel(r, m);
      assert Xor(a, m) == r;
      GcdGreatest(b, r, d);
    }
  }

  /** Only 1 divides 1. */
  lemma DividesOne(d: nat)
    requires Divides(d, 1)
    ensures d == 1
  {
    var q: nat :| PMul(q, d) == 1;
    PMulNonZero(q, d);
    PMulLen(q, d);
    assert Len(q) == 1 && Len(d) == 1;
    FitsLen(d, 1);
  }

  // ----- the residue ring modulo p

  /** A modulus of degree `w`: the width-`w` words are its residues. */
  predicate IsModulus(w: nat, p: nat) {
    w >= 1 && Len(p) == w + 1
  }

  lemma ModulusPositive(w: nat, p: nat)
    requires IsModulus(w, p)
    ensures p > 0 && w >= 1
  {
  }

  /** The modulus whose leading bit the wide routines keep implicit. */
  function Full(w: nat, pp: nat): (p: nat)
  {
    Pow2(w) + pp
  }

  lemma FullIsModulus(w: nat, pp: nat)
    requires w >= 1 && pp < Pow2(w)
    ensures IsModulus(w, Full(w, pp)) && Low(Full(w, pp), w) == pp
    ensures Full(w, pp) == Xor(Pow2(w), pp)
  {
    ShlOne(w);
    XorDisjoint(1, pp, w);
    FitsLen(pp, w);
    LenShl(1, w);
    XorLenLess(pp, Pow2(w));
    BitLaws();
    forall i: nat ensures Bit(Low(Full(w, pp), w), i) == Bit(pp, i) {
      if i >= w { FitsBit(pp, w, i); }
    }
    BitExt(Low(Full(w, pp), w), pp);
  }

  /** The product every multiplication routine of the library must compute. */
  function Mul(a: nat, b: nat, p: nat): (r: nat)
    requires p > 0
  {
    PMod(PMul(a, b), p)
  }

  lemma MulFits(a: nat, b: nat, w: nat, p: nat)
    requires IsModulus(w, p)
    ensures Mul(a, b, p) < Pow2(w)
  {
    DivMod(PMul(a, b), p);
    FitsLen(Mul(a, b, p), w);
  }

  lemma ModFits(a: nat, w: nat, p: nat)
    requires IsModulus(w, p)
    ensures PMod(a, p) < Pow2(w)
    ensures a < Pow2(w) ==> PMod(a, p) == a
  {
    DivMod(a, p);
    FitsLen(PMod(a, p), w);
    FitsLen(a, w);
  }

  lemma MulComm(a: nat, b: nat, p: nat)
    requires p > 0
    ensures Mul(a, b, p) == Mul(b, a, p)
  {
    PMulComm(a, b);
  }

  lemma MulAssoc(a: nat, b: nat, c: nat, p: nat)
    requires p > 0
    ensures Mul(Mul(a, b, p), c, p) == Mul(a, Mul(b, c, p), p)
  {
    ModMul(PMul(a, b), c, p);
    ModMul(a, PMul(b, c), p);
    PMulAssoc(a, b, c);
  }

  lemma MulXor(a: nat, b: nat, c: nat, p: nat)
    requires p > 0
    ensures Mul(Xor(a, b), c, p) == Xor(Mul(a, c, p), Mul(b, c, p))
    ensures Mul(c, Xor(a, b), p) == Xor(Mul(c, a, p), Mul(c, b, p))
  {
    PMulXorLeft(a, b, c);
    PMulXorRight(c, a, b);
    ModXor(PMul(a, c), PMul(b, c), p);
    ModXor(PMul(c, a), PMul(c, b), p);
  }

  lemma MulOne(a: nat, w: nat, p: nat)
    requires IsModulus(w, p) && a < Pow2(w)
    ensures Mul(1, a, p) == a == Mul(a, 1, p)
  {
    PMulOne(a);
    ModFits(a, w, p);
  }

  lemma MulZero(a: nat, p: nat)
    requires p > 0
    ensures Mul(0, a, p) == 0 == Mul(a, 0, p)
  {
    PMulZero(a);
    ModZero(p);
  }

  /** Multiplication by `x`: shift, then subtract the modulus if the top bit was set. */
  function MulX(b: nat, w: nat, p: nat): (r: nat)
    requires w >= 1
  {
    if Bit(b, w - 1) then Xor(2 * b, p) else 2 * b
  }

  lemma MulXIsMul(b: nat, w: nat, p: nat)
    requires IsModulus(w, p) && b < Pow2(w)
    ensures MulX(b, w, p) == Mul(2, b, p) < Pow2(w)
  {
    PMulOne(b); PMulDoubleLeft(1, b);
    assert PMul(2, b) == 2 * b;
    FitsLen(b, w);
    if Bit(b, w - 1) {
      if Len(b) < w { FitsLen(b, w - 1); FitsBit(b, w - 1, w - 1); assert false; }
      XorLenSame(2 * b, p);
      PMulOne(p);
      ModAddMultiple(2 * b, 1, p);
      ModSmall(Xor(2 * b, p), p);
      FitsLen(Xor(2 * b, p), w);
    } else {
      if Len(b) == w { LenBit(b); assert false; }
      ModSmall(2 * b, p);
      FitsLen(2 * b, w);
    }
  }

  /** The same step on a word truncated to `w` bits, with or without the leading bit in `pp`. */
  lemma MulXTruncated(b: nat, w: nat, p: nat, pp: nat)
    requires IsModulus(w, p) && b < Pow2(w) && Low(pp, w) == Low(p, w)
    ensures MulX(b, w, p) == if Bit(b, w - 1) then Low(Xor(2 * b, pp), w) else 2 * b
    ensures Low(Xor(Low(2 * b, w), pp), w) == Low(Xor(2 * b, pp), w)
  {
    MulXIsMul(b, w, p);
    LowXor(2 * b, pp, w); LowXor(2 * b, p, w);
    LowXor(Low(2 * b, w), pp, w);
    LowFits(2 * b, w); LowId(Low(2 * b, w), w);
    if Bit(b, w - 1) { LowId(Xor(2 * b, p), w); }
  }

  /** An element has an inverse exactly when it is coprime to the modulus. */
  ghost predicate Invertible(a: nat, p: nat)
    requires p > 0
  {
    exists y: nat :: Mul(a, y, p) == 1
  }

  lemma InvertibleCoprime(a: nat, y: nat, w: nat, p: nat)
    requires IsModulus(w, p) && Mul(a, y, p) == 1
    ensures PGcd(p, a) == 1
  {
    var g := PGcd(p, a);
    GcdDivides(p, a);
    var c := PMul(a, y);
    DivMod(c, p);
    var m := PMul(PDiv(c, p), p);
    DividesMul(g, p, PDiv(c, p));
    DividesMul(g, a, y); PMulComm(y, a);
    DividesXor(g, c, m);
    XorCancel(m, 1); XorComm(m, 1); XorCancel(1, m);
    DividesOne(g);
  }

  /** Bezout coefficient of `b` in the extended Euclid recursion. */
  lemma {:induction false} Bezout(a: nat, b: nat) returns (s: nat, t: nat)
    ensures Xor(PMul(s, a), PMul(t, b)) == PGcd(a, b)
    decreases Len(b)
  {
    if b == 0 {
      s, t := 1, 0;
      PMulOne(a); XorZero(a);
    } else {
      DivMod(a, b);
      var q, r := PDiv(a, b), PMod(a, b);
      var s', t' := Bezout(b, r);
      // r == a ^ q*b
      XorComm(PMul(q, b), r); XorCancel(r, PMul(q, b));
      assert r == Xor(a, PMul(q, b));
      s, t := t', Xor(s', PMul(t', q));
      PMulXorRight(t', a, PMul(q, b));
      PMulAssoc(t', q, b);
      PMulXorLeft(s', PMul(t', q), b);
      var A, B, C := PMul(t', a), PMul(s', b), PMul(PMul(t', q), b);
      XorComm(A, C); XorAssoc(B, C, A); XorComm(Xor(B, C), A);
    }
  }

  lemma CoprimeInvertible(b: nat, w: nat, p: nat) returns (y: nat)
    requires IsModulus(w, p) && PGcd(p, b) == 1
    ensures y < Pow2(w) && Mul(b, y, p) == 1
  {
    var s, t := Bezout(p, b);
    XorComm(PMul(s, p), PMul(t, b));
    ModAddMultiple(PMul(t, b), s, p);
    y := PMod(t, p);
    ModFits(t, w, p);
    ModMul(b, t, p);
    PMulComm(b, t);
    FitsLen(1, w); Pow2Mono(1, w);
    assert PMod(1, p) == 1;
  }

  lemma InvertibleIffCoprime(b: nat, w: nat, p: nat)
    requires IsModulus(w, p)
    ensures Invertible(b, p) <==> PGcd(p, b) == 1
  {
    if Invertible(b, p) {
      var y: nat :| Mul(b, y, p) == 1;
      InvertibleCoprime(b, y, w, p);
    }
    if PGcd(p, b) == 1 { var y := CoprimeInvertible(b, w, p); }
  }

  ghost predicate Irreducible(p: nat) {
    p > 1 && forall a: nat, b: nat :: PMul(a, b) == p ==> a == 1 || b == 1
  }

  /** Modulo an irreducible polynomial every nonzero residue is coprime to it. */
  lemma IrreducibleCoprime(a: nat, w: nat, p: nat)
    requires IsModulus(w, p) && Irreducible(p) && 0 < a < Pow2(w)
    ensures PGcd(p, a) == 1
  {
    var g := PGcd(p, a);
    GcdDivides(p, a);
    var q: nat :| PMul(q, g) == p;
    var r: nat :| PMul(r, g) == a;
    if q == 1 {
      PMulOne(g);
      PMulNonZero(r, g);
      PMulLen(r, g);
      FitsLen(a, w);
      assert false;
    }
  }

  lemma MulUnfold(a: nat, b: nat, p: nat)
    requires p > 0
    ensures Mul(a, b, p) == PMod(PMul(a, b), p)
  {
  }
}
