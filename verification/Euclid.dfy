/**
 Inversion by the extended Euclidean algorithm (`gf_w4_euclid`, `gf_w8_euclid`,
 `gf_w32_euclid`, `gf_w64_euclid`, `gf_w128_euclid`), for every width and modulus.

 The narrow widths keep the leading bit of the modulus in the word; the 32- and
 64-bit routines drop it, so their first remainder step works on a truncated word;
 the 128-bit routine splits every value into two words.
 */
module Euclid {
  import opened Bits
  import opened Poly
  import opened WordPair

  /** What the routines promise: -1 for zero, the inverse of a unit, 0 for a non-unit. */
  ghost predicate IsInverseResult(w: nat, p: nat, b: nat, r: int)
    requires p > 0
  {
    && (b == 0 ==> r == -1)
    && (b != 0 && PGcd(p, b) == 1 ==> 0 < r < Pow2(w) && Mul(b, r, p) == 1)
    && (b != 0 && PGcd(p, b) != 1 ==> r == 0)
  }

  /** Inverses are unique, so the promise fixes the result. */
  lemma InverseResultUnique(w: nat, p: nat, b: nat, r: int, r': int)
    requires IsModulus(w, p)
    requires IsInverseResult(w, p, b, r) && IsInverseResult(w, p, b, r')
    ensures r == r'
  {
    if b != 0 && PGcd(p, b) == 1 {
      MulAssoc(r, b, r', p);
      MulComm(b, r, p);
      MulOne(r, w, p); MulOne(r', w, p);
    }
  }

  // ----- the algebra of one round

  /** `y` is a Bezout coefficient of the remainder `e`. */
  ghost predicate Tracks(y: nat, e: nat, b: nat, p: nat)
    requires p > 0
  {
    Mul(y, b, p) == PMod(e, p)
  }

  lemma TracksStep(y0: nat, e0: nat, y1: nat, e1: nat, c: nat, b: nat, p: nat)
    requires p > 0 && Tracks(y0, e0, b, p) && Tracks(y1, e1, b, p)
    ensures Tracks(Xor(y0, Mul(c, y1, p)), Xor(e0, PMul(c, e1)), b, p)
  {
    MulXor(y0, Mul(c, y1, p), b, p);
    MulAssoc(c, y1, b, p);
    ModMul(c, e1, p);
    ModXor(e0, PMul(c, e1), p);
  }

  /** A finished division is one step of the gcd recursion. */
  lemma RoundGcd(e0: nat, e1: nat, c: nat, r: nat)
    requires e1 > 0 && r == Xor(e0, PMul(c, e1)) && Len(r) < Len(e1)
    ensures PGcd(e0, e1) == PGcd(e1, r)
  {
    XorComm(PMul(c, e1), e0);
    XorCancel(e0, PMul(c, e1));
    XorComm(r, PMul(c, e1));
    DivModUnique(e0, e1, c, r);
  }

  /** An exact division of a non-unit ends the gcd recursion above 1. */
  lemma ExactGcd(e0: nat, e1: nat, c: nat)
    requires e1 > 1 && Xor(e0, PMul(c, e1)) == 0
    ensures PGcd(e0, e1) == e1
  {
    RoundGcd(e0, e1, c, 0);
  }

  /** The invariant of the division loop: `r` is what is left of `e0` after subtracting `c * e1`. */
  ghost predicate Partial(e0: nat, d0: nat, e1: nat, d1: nat, c: nat, r: nat)
    requires d1 <= d0
  {
    r == Xor(e0, PMul(c, e1)) && c < Pow2(d0 - d1 + 1)
  }

  /** One cancellation of the leading bit. */
  lemma CancelStep(e0: nat, d0: nat, e1: nat, d1: nat, c: nat, r: nat, d: nat)
    requires d1 <= d <= d0 && Partial(e0, d0, e1, d1, c, r)
    requires Len(e1) == d1 + 1 && Len(r) == d + 1
    ensures Partial(e0, d0, e1, d1, Xor(c, Shl(1, d - d1)), Xor(r, Shl(e1, d - d1)))
    ensures Len(Xor(r, Shl(e1, d - d1))) <= d
  {
    var k := d - d1;
    ShlOne(k);
    PMulXorLeft(c, Pow2(k), e1);
    PMulPow2(e1, k);
    XorAssoc(e0, PMul(c, e1), Shl(e1, k));
    StepShrinks(r, e1);
    Pow2Mono(k, d0 - d1 + 1);
    XorFits(c, Pow2(k), d0 - d1 + 1);
  }

  /** The invariant of the main loop: two consecutive remainders, their degrees and coefficients. */
  ghost predicate Round(w: nat, p: nat, b: nat, e0: nat, d0: nat, y0: nat, e1: nat, d1: nat, y1: nat)
    requires p > 0
  {
    && Len(e1) == d1 + 1 && Len(e0) == d0 + 1 && d1 < d0 <= w
    && Tracks(y0, e0, b, p) && Tracks(y1, e1, b, p)
    && y0 < Pow2(w) && y1 < Pow2(w)
    && PGcd(e0, e1) == PGcd(p, b)
  }

  /** One round keeps the invariant, and the quotient is a field element. */
  lemma NextRound(w: nat, p: nat, b: nat, e0: nat, d0: nat, y0: nat, e1: nat, d1: nat, y1: nat, c: nat, e2: nat, d2: nat)
    requires IsModulus(w, p) && Round(w, p, b, e0, d0, y0, e1, d1, y1) && e1 != 1
    requires e2 == Xor(e0, PMul(c, e1)) && c < Pow2(d0 - d1 + 1)
    requires Len(e2) == d2 + 1 && d2 < d1
    ensures c < Pow2(w)
    ensures Round(w, p, b, e1, d1, y1, e2, d2, Xor(y0, Mul(c, y1, p)))
  {
    FitsLen(e1, 1);
    Pow2Mono(d0 - d1 + 1, w);
    TracksStep(y0, e0, y1, e1, c, b, p);
    RoundGcd(e0, e1, c, e2);
    MulFits(c, y1, w, p);
    XorFits(y0, Mul(c, y1, p), w);
  }

  lemma StartFacts(w: nat, p: nat, b: nat)
    requires IsModulus(w, p) && b < Pow2(w)
    ensures Tracks(0, p, b, p) && Tracks(1, b, b, p)
    ensures 1 < Pow2(w) && Len(b) <= w
  {
    PMulOne(b);
    PMulOne(p); ModMultiple(1, p);
    MulZero(b, p);
    FitsLen(b, w);
    Pow2Mono(1, w);
  }

  lemma DoneFacts(w: nat, p: nat, b: nat, y: nat, e0: nat)
    requires IsModulus(w, p) && b > 0 && y < Pow2(w)
    requires Tracks(y, 1, b, p) && PGcd(e0, 1) == PGcd(p, b)
    ensures IsInverseResult(w, p, b, y)
  {
    MulComm(y, b, p);
    ModSmall(1, p);
    MulZero(b, p);
    DivMod(e0, 1);
    FitsLen(PMod(e0, 1), 0);
  }

  /** The `while` loops that move a degree down to the leading bit. */
  method ScanDown(e: nat, d: nat) returns (r: nat)
    requires e > 0 && Len(e) <= d + 1
    ensures Len(e) == r + 1
  {
    r := d;
    FitsLen(e, d + 1);
    while !Bit(e, r)
      invariant Len(e) <= r + 1
      decreases r
    {
      if r == 0 {
        LenBit(e);
        assert false;
      }
      if Len(e) == r + 1 { LenBit(e); }
      r := r - 1;
    }
    if Len(e) <= r { FitsLen(e, r); FitsBit(e, r, r); }
  }

  // ----- leading bit present (w = 4, 8, 16)

  /** Long division of `e0` by `e1`; `r == 0` makes the caller return 0. */
  method Divide(e0: nat, d0: nat, e1: nat, d1: nat) returns (c: nat, r: nat, d: nat)
    requires Len(e0) == d0 + 1 && Len(e1) == d1 + 1 && d1 <= d0
    ensures r == Xor(e0, PMul(c, e1)) && c < Pow2(d0 - d1 + 1)
    ensures r != 0 ==> Len(r) == d + 1 && d < d1
  {
    c, r, d := 0, e0, d0;
    XorZero(e0);
    while d >= d1
      invariant Partial(e0, d0, e1, d1, c, r)
      invariant Len(r) == d + 1 && d <= d0
      decreases d
    {
      CancelStep(e0, d0, e1, d1, c, r, d);
      c := Xor(c, Shl(1, d - d1));
      r := Xor(r, Shl(e1, d - d1));
      if r == 0 { return; }
      d := ScanDown(r, d);
    }
  }

  method Inverse(w: nat, p: nat, b: nat) returns (r: int)
    requires IsModulus(w, p) && b < Pow2(w)
    ensures IsInverseResult(w, p, b, r)
  {
    if b == 0 { return -1; }
    StartFacts(w, p, b);
    var e0, e1, d0 := p, b, w;
    var d1 := ScanDown(e1, d0);
    var y1: nat, y0: nat := 1, 0;
    while e1 != 1
      invariant Round(w, p, b, e0, d0, y0, e1, d1, y1)
      decreases d1
    {
      FitsLen(e1, 1);
      var c, e2, d2 := Divide(e0, d0, e1, d1);
      if e2 == 0 {
        ExactGcd(e0, e1, c);
        return 0;
      }
      NextRound(w, p, b, e0, d0, y0, e1, d1, y1, c, e2, d2);
      y0, y1 := y1, Xor(y0, Mul(c, y1, p));
      e0, d0, e1, d1 := e1, d1, e2, d2;
    }
    DoneFacts(w, p, b, y1, e0);
    r := y1;
  }

  // ----- leading bit dropped (w = 32, 64): words are truncated to w bits

  /** Truncated subtraction of a shifted word agrees with the exact one once it fits. */
  lemma TruncatedStep(full: nat, s: nat, w: nat)
    requires Len(Xor(full, s)) <= w
    ensures Xor(Low(full, w), Low(s, w)) == Xor(full, s) == Low(Xor(full, s), w)
  {
    LowXor(full, s, w);
    FitsLen(Xor(full, s), w);
    LowId(Xor(full, s), w);
  }

  method DivideTruncated(w: nat, t0: nat, d0: nat, e1: nat, d1: nat, ghost e0: nat) returns (c: nat, r: nat, d: nat)
    requires Len(e0) == d0 + 1 && t0 == Low(e0, w)
    requires Len(e1) == d1 + 1 && 1 <= d1 < d0 <= w
    ensures r == Xor(e0, PMul(c, e1)) && c < Pow2(d0 - d1 + 1)
    ensures r != 0 ==> Len(r) == d + 1 && d < d1
  {
    c, r, d := 0, t0, d0;
    ghost var full := e0;
    XorZero(e0);
    while d >= d1
      invariant Partial(e0, d0, e1, d1, c, full)
      invariant r == Low(full, w) && Len(full) == d + 1 && d <= d0
      invariant d < d0 ==> r == full
      decreases d
    {
      CancelStep(e0, d0, e1, d1, c, full, d);
      TruncatedStep(full, Shl(e1, d - d1), w);
      full := Xor(full, Shl(e1, d - d1));
      c := Xor(c, Shl(1, d - d1));
      r := Xor(r, Low(Shl(e1, d - d1), w));
      d := d - 1;
      if r == 0 { return; }
      d := ScanDown(r, d);
    }
  }

  method InverseImplicit(w: nat, pp: nat, b: nat) returns (r: int)
    requires w >= 1 && pp < Pow2(w) && b < Pow2(w)
    ensures IsInverseResult(w, Full(w, pp), b, r)
  {
    if b == 0 { return -1; }
    ghost var p := Full(w, pp);
    FullIsModulus(w, pp);
    StartFacts(w, p, b);
    var t0, e1, d0 := pp, b, w;
    ghost var e0 := p;
    var d1 := ScanDown(e1, d0 - 1);
    var y1: nat, y0: nat := 1, 0;
    while e1 != 1
      invariant Round(w, p, b, e0, d0, y0, e1, d1, y1)
      invariant t0 == Low(e0, w)
      decreases d1
    {
      FitsLen(e1, 1);
      var c, e2, d2 := DivideTruncated(w, t0, d0, e1, d1, e0);
      if e2 == 0 {
        ExactGcd(e0, e1, c);
        return 0;
      }
      NextRound(w, p, b, e0, d0, y0, e1, d1, y1, c, e2, d2);
      FitsLen(e1, w); LowId(e1, w);
      y0, y1 := y1, Xor(y0, Mul(c, y1, Full(w, pp)));
      t0, e0, d0, e1, d1 := e1, e1, d1, e2, d2;
    }
    DoneFacts(w, p, b, y1, e0);
    r := y1;
  }

  // ----- two-word values (w = 128): most significant word first

  /** The two loops that move the degree down over the high and then the low word. */
  method ScanDownPair(h: nat, e: Pair, d: nat) returns (r: nat)
    requires IsPair(h, e) && Join(h, e) > 0 && Len(Join(h, e)) <= d + 1
    ensures Len(Join(h, e)) == r + 1
  {
    ghost var v := Join(h, e);
    LenBit(v);
    r := d;
    while r >= h && !Bit(e.hi, r - h)
      invariant Len(v) <= r + 1
      decreases r
    {
      JoinBit(h, e, r);
      if r == 0 { assert false; }
      r := r - 1;
    }
    while r < h && !Bit(e.lo, r)
      invariant Len(v) <= r + 1
      invariant r >= h ==> Bit(e.hi, r - h)
      decreases r
    {
      JoinBit(h, e, r);
      if r == 0 { assert false; }
      r := r - 1;
    }
    JoinBit(h, e, r);
  }

  method DividePair(h: nat, t0: Pair, d0: nat, e1: Pair, d1: nat, ghost e0: nat) returns (c: Pair, r: Pair, d: nat)
    requires IsPair(h, t0) && IsPair(h, e1)
    requires Len(e0) == d0 + 1 && Join(h, t0) == Low(e0, 2 * h)
    requires Len(Join(h, e1)) == d1 + 1 && 1 <= d1 < d0 <= 2 * h
    ensures IsPair(h, c) && IsPair(h, r)
    ensures Join(h, r) == Xor(e0, PMul(Join(h, c), Join(h, e1))) && Join(h, c) < Pow2(d0 - d1 + 1)
    ensures Join(h, r) != 0 ==> Len(Join(h, r)) == d + 1 && d < d1
  {
    c, r, d := Pair(0, 0), t0, d0;
    ghost var full, m := e0, Join(h, e1);
    XorZero(e0); ShlZero(h);
    JoinFits(h, c);
    while d >= d1
      invariant IsPair(h, c) && IsPair(h, r)
      invariant Partial(e0, d0, m, d1, Join(h, c), full)
      invariant Join(h, r) == Low(full, 2 * h) && Len(full) == d + 1 && d <= d0
      invariant d < d0 ==> Join(h, r) == full
      decreases d
    {
      CancelStep(e0, d0, m, d1, Join(h, c), full, d);
      TruncatedStep(full, Shl(m, d - d1), 2 * h);
      PairStep(h, c, r, e1, d - d1);
      full := Xor(full, Shl(m, d - d1));
      if d - d1 >= h {
        c := Pair(Xor(c.hi, Shl(1, d - d1 - h)), c.lo);
      } else {
        c := Pair(c.hi, Xor(c.lo, Shl(1, d - d1)));
      }
      r := XorPair(r, ShiftPair(h, e1, d - d1));
      d := d - 1;
      JoinFits(h, r);
      if r.hi == 0 && r.lo == 0 { return; }
      d := ScanDownPair(h, r, d);
    }
  }

  /** One division step on two-word values, for a shift below `2h`. */
  lemma PairStep(h: nat, c: Pair, r: Pair, e1: Pair, k: nat)
    requires IsPair(h, c) && IsPair(h, r) && IsPair(h, e1) && k < 2 * h
    ensures var c' := if k >= h then Pair(Xor(c.hi, Shl(1, k - h)), c.lo) else Pair(c.hi, Xor(c.lo, Shl(1, k)));
            IsPair(h, c') && Join(h, c') == Xor(Join(h, c), Shl(1, k))
    ensures var r' := XorPair(r, ShiftPair(h, e1, k));
            IsPair(h, r') && Join(h, r') == Xor(Join(h, r), Low(Shl(Join(h, e1), k), 2 * h))
  {
    var one := if k >= h then Pair(Shl(1, k - h), 0) else Pair(0, Shl(1, k));
    ShlOne(k); XorZero(c.hi); XorZero(c.lo); ShlZero(h);
    XorZero(Shl(1, k));
    if k >= h {
      ShlOne(k - h); Pow2Mono(k - h, h); ShlAdd(1, k - h, h);
    } else {
      Pow2Mono(k, h);
    }
    JoinXor(h, c, one);
    ShiftPairFits(h, e1, k);
    ShiftPairValue(h, e1, k);
    JoinXor(h, r, ShiftPair(h, e1, k));
  }

  /** The caller's output buffer: written, or left alone when the input is zero. */
  datatype Output = Untouched | Written(value: Pair)

  /** The two searches for the leading bit of the input: high word, then low word. */
  method LeadingBitPair(h: nat, e: Pair) returns (d: nat)
    requires h >= 1 && IsPair(h, e) && Join(h, e) > 0
    ensures Len(Join(h, e)) == d + 1
  {
    JoinFits(h, e);
    FitsLen(Join(h, e), 2 * h);
    d := h - 1;
    while !Bit(e.hi, d) && d > 0
      invariant d < h && forall i: nat :: d < i < h ==> !Bit(e.hi, i)
    {
      d := d - 1;
    }
    if !Bit(e.hi, d) {
      assert d == 0;
      forall i: nat ensures !Bit(e.hi, i) { if i >= h { FitsBit(e.hi, h, i); } }
      BitsFit(e.hi, 0);
      ShlZero(h);
      d := h - 1;
      FitsLen(e.lo, h);
      d := ScanDown(e.lo, d);
    } else {
      forall i: nat | d + h < i ensures !Bit(Join(h, e), i) {
        JoinBit(h, e, i);
        if i - h >= h { FitsBit(e.hi, h, i - h); }
      }
      d := d + h;
      JoinBit(h, e, d);
      LenFromBits(Join(h, e), d);
    }
  }

  method InversePair(h: nat, pp: nat, a: Pair) returns (r: Output)
    requires h >= 1 && pp < Pow2(h) && IsPair(h, a)
    ensures var b := Join(h, a);
            (r.Untouched? <==> b == 0)
            && (r.Written? ==> IsPair(h, r.value) && IsInverseResult(2 * h, Full(2 * h, pp), b, Join(h, r.value)))
  {
    ghost var w, p, b := 2 * h, Full(2 * h, pp), Join(h, a);
    JoinFits(h, a);
    if a.hi == 0 && a.lo == 0 { return Untouched; }
    Pow2Mono(h, w);
    FullIsModulus(w, pp);
    StartFacts(w, p, b);
    var t0, e1, d0: nat := Pair(0, pp), a, 2 * h;
    ghost var e0 := p;
    JoinFits(h, t0); ShlZero(h);
    var d1 := LeadingBitPair(h, e1);
    var y1, y0 := Pair(0, 1), Pair(0, 0);
    Pow2Mono(1, h); JoinFits(h, y1); JoinFits(h, y0);
    while !(e1.hi == 0 && e1.lo == 1)
      invariant IsPair(h, t0) && IsPair(h, e1) && IsPair(h, y0) && IsPair(h, y1)
      invariant Round(w, p, b, e0, d0, Join(h, y0), Join(h, e1), d1, Join(h, y1))
      invariant Join(h, t0) == Low(e0, w)
      decreases d1
    {
      NotOne(h, e1);
      FitsLen(Join(h, e1), 1);
      var c, e2, d2 := DividePair(h, t0, d0, e1, d1, e0);
      JoinFits(h, e2);
      if e2.hi == 0 && e2.lo == 0 {
        ExactGcd(e0, Join(h, e1), Join(h, c));
        return Written(Pair(0, 0));
      }
      NextRound(w, p, b, e0, d0, Join(h, y0), Join(h, e1), d1, Join(h, y1), Join(h, c), Join(h, e2), d2);
      var m := Cut(h, Mul(Join(h, c), Join(h, y1), Full(2 * h, pp)));
      PairCoefficient(h, p, y0, y1, c, e1);
      y0, y1 := y1, XorPair(y0, m);
      t0, e0, d0, e1, d1 := e1, Join(h, e1), d1, e2, d2;
    }
    ShlZero(h);
    DoneFacts(w, p, b, Join(h, y1), e0);
    r := Written(y1);
  }

  /** The new coefficient, written back to two words. */
  lemma PairCoefficient(h: nat, p: nat, y0: Pair, y1: Pair, c: Pair, e1: Pair)
    requires IsModulus(2 * h, p) && IsPair(h, y0) && IsPair(h, y1) && IsPair(h, c) && IsPair(h, e1)
    ensures var m := Mul(Join(h, c), Join(h, y1), p);
            IsPair(h, Cut(h, m)) && IsPair(h, XorPair(y0, Cut(h, m)))
            && Join(h, XorPair(y0, Cut(h, m))) == Xor(Join(h, y0), m)
    ensures Low(Join(h, e1), 2 * h) == Join(h, e1)
  {
    var m := Mul(Join(h, c), Join(h, y1), p);
    MulFits(Join(h, c), Join(h, y1), 2 * h, p);
    JoinCut(h, m);
    JoinXor(h, y0, Cut(h, m));
    JoinFits(h, e1);
    LowId(Join(h, e1), 2 * h);
  }

  lemma NotOne(h: nat, e: Pair)
    requires IsPair(h, e) && !(e.hi == 0 && e.lo == 1)
    ensures Join(h, e) != 1
  {
    JoinFits(h, e);
    ShlZero(h); ShlOne(h);
    if e.hi > 0 { ShlMono(1, e.hi, h); }
  }
}
