/**
 Machine words as natural numbers, read bit by bit.

 Every operation is defined by recursion on the low bit, so that facts hold for
 all word widths. A `w`-bit word is a number below `Pow2(w)`; truncation to a
 width is written out with `Low`.
 */
module Bits {

  function Pow2(n: nat): (r: nat)
    ensures r >= 1
  {
    if n == 0 then 1 else 2 * Pow2(n - 1)
  }

  /** Exclusive or, the C operator `^`. */
  function Xor(a: nat, b: nat): (r: nat)
    decreases a + b
  {
    if a == 0 && b == 0 then 0 else (if a % 2 == b % 2 then 0 else 1) + 2 * Xor(a / 2, b / 2)
  }

  /** Bitwise and, the C operator `&`. */
  function And(a: nat, b: nat): (r: nat)
    decreases a
  {
    if a == 0 then 0 else (if a % 2 == 1 && b % 2 == 1 then 1 else 0) + 2 * And(a / 2, b / 2)
  }

  /** Left shift without truncation. */
  function Shl(a: nat, k: nat): (r: nat)
  {
    if k == 0 then a else 2 * Shl(a, k - 1)
  }

  /** Right shift, the C operator `>>` on an unsigned word. */
  function Shr(a: nat, k: nat): (r: nat)
    decreases k
  {
    if k == 0 then a else Shr(a / 2, k - 1)
  }

  /** The low `k` bits: truncation of `a` to a `k`-bit word. */
  function Low(a: nat, k: nat): (r: nat)
    decreases k
  {
    if k == 0 then 0 else a % 2 + 2 * Low(a / 2, k - 1)
  }

  predicate Bit(a: nat, i: nat)
    decreases i
  {
    if i == 0 then a % 2 == 1 else Bit(a / 2, i - 1)
  }

  /** Position of the leading bit plus one; `Len(0) == 0`. */
  function Len(a: nat): (r: nat)
  {
    if a == 0 then 0 else 1 + Len(a / 2)
  }

  // ----- single-bit views of the operations

  lemma {:induction false} BitZero(i: nat)
    ensures !Bit(0, i)
  {
    if i > 0 { BitZero(i - 1); }
  }

  lemma {:induction false} BitXor(a: nat, b: nat, i: nat)
    ensures Bit(Xor(a, b), i) == (Bit(a, i) != Bit(b, i))
    decreases i
  {
    if a == 0 && b == 0 {
      BitZero(i);
    } else if i > 0 {
      BitXor(a / 2, b / 2, i - 1);
    }
  }

  lemma {:induction false} BitAnd(a: nat, b: nat, i: nat)
    ensures Bit(And(a, b), i) == (Bit(a, i) && Bit(b, i))
    decreases i
  {
    if a == 0 {
      BitZero(i);
    } else {
      if i > 0 { BitAnd(a / 2, b / 2, i - 1); }
    }
  }

  lemma {:induction false} BitShl(a: nat, k: nat, i: nat)
    ensures Bit(Shl(a, k), i) == (i >= k && Bit(a, i - k))
  {
    if k > 0 && i > 0 { BitShl(a, k - 1, i - 1); }
  }

  lemma {:induction false} BitShr(a: nat, k: nat, i: nat)
    ensures Bit(Shr(a, k), i) == Bit(a, i + k)
    decreases k
  {
    if k > 0 { BitShr(a / 2, k - 1, i); }
  }

  lemma {:induction false} BitLow(a: nat, k: nat, i: nat)
    ensures Bit(Low(a, k), i) == (i < k && Bit(a, i))
    decreases k
  {
    if k == 0 {
      BitZero(i);
    } else if i > 0 {
      BitLow(a / 2, k - 1, i - 1);
    }
  }

  lemma {:induction false} BitPow2(n: nat, i: nat)
    ensures Bit(Pow2(n), i) == (i == n)
  {
    if n > 0 && i > 0 { BitPow2(n - 1, i - 1); }
    if n == 0 && i > 0 { BitZero(i - 1); }
  }

  /** All single-bit views at once; every right-hand side is strictly smaller. */
  lemma BitLaws()
    ensures forall i: nat {:trigger Bit(0, i)} :: !Bit(0, i)
    ensures forall a: nat, b: nat, i: nat {:trigger Bit(Xor(a, b), i)} :: Bit(Xor(a, b), i) == (Bit(a, i) != Bit(b, i))
    ensures forall a: nat, b: nat, i: nat {:trigger Bit(And(a, b), i)} :: Bit(And(a, b), i) == (Bit(a, i) && Bit(b, i))
    ensures forall a: nat, k: nat, i: nat {:trigger Bit(Shl(a, k), i)} :: Bit(Shl(a, k), i) == (i >= k && Bit(a, i - k))
    ensures forall a: nat, k: nat, i: nat {:trigger Bit(Shr(a, k), i)} :: Bit(Shr(a, k), i) == Bit(a, i + k)
    ensures forall a: nat, k: nat, i: nat {:trigger Bit(Low(a, k), i)} :: Bit(Low(a, k), i) == (i < k && Bit(a, i))
    ensures forall n: nat, i: nat {:trigger Bit(Pow2(n), i)} :: Bit(Pow2(n), i) == (i == n)
  {
    forall i: nat { BitZero(i); }
    forall a: nat, b: nat, i: nat { BitXor(a, b, i); }
    forall a: nat, b: nat, i: nat { BitAnd(a, b, i); }
    forall a: nat, k: nat, i: nat { BitShl(a, k, i); }
    forall a: nat, k: nat, i: nat { BitShr(a, k, i); }
    forall a: nat, k: nat, i: nat { BitLow(a, k, i); }
    forall n: nat, i: nat { BitPow2(n, i); }
  }

  /** Words with the same bits are equal. */
  lemma {:induction false} BitExt(a: nat, b: nat)
    requires forall i: nat :: Bit(a, i) == Bit(b, i)
    ensures a == b
    decreases a + b
  {
    if a != 0 || b != 0 {
      assert Bit(a, 0) == Bit(b, 0);
      forall i: nat ensures Bit(a / 2, i) == Bit(b / 2, i) {
        assert Bit(a, i + 1) == Bit(b, i + 1);
      }
      BitExt(a / 2, b / 2);
    }
  }

  // ----- widths

  lemma {:induction false} FitsBit(a: nat, w: nat, i: nat)
    requires a < Pow2(w) && w <= i
    ensures !Bit(a, i)
    decreases i
  {
    if w == 0 {
      BitZero(i);
    } else {
      FitsBit(a / 2, w - 1, i - 1);
    }
  }

  lemma {:induction false} BitsFit(a: nat, w: nat)
    requires forall i: nat :: w <= i ==> !Bit(a, i)
    ensures a < Pow2(w)
    decreases w
  {
    if w == 0 {
      forall i: nat ensures Bit(a, i) == Bit(0, i) { BitZero(i); }
      BitExt(a, 0);
    } else {
      forall i: nat | w - 1 <= i ensures !Bit(a / 2, i) { assert !Bit(a, i + 1); }
      BitsFit(a / 2, w - 1);
    }
  }

  lemma {:induction false} Pow2Mono(m: nat, n: nat)
    requires m <= n
    ensures Pow2(m) <= Pow2(n)
    ensures m < n ==> Pow2(m) < Pow2(n)
  {
    if m < n { Pow2Mono(m, n - 1); }
  }

  lemma {:induction false} FitsLen(a: nat, w: nat)
    ensures a < Pow2(w) <==> Len(a) <= w
    decreases w
  {
    if w > 0 && a > 0 { FitsLen(a / 2, w - 1); }
  }

  lemma {:induction false} LenBit(a: nat)
    requires a > 0
    ensures Bit(a, Len(a) - 1)
    ensures forall i: nat :: Len(a) <= i ==> !Bit(a, i)
  {
    LenTopBit(a);
    FitsLen(a, Len(a));
    forall i: nat | Len(a) <= i ensures !Bit(a, i) { FitsBit(a, Len(a), i); }
  }

  lemma {:induction false} LenTopBit(a: nat)
    requires a > 0
    ensures Bit(a, Len(a) - 1)
  {
    if a > 1 { LenTopBit(a / 2); }
  }

  /** A word whose leading bit is `d` has length `d + 1`. */
  lemma LenFromBits(a: nat, d: nat)
    requires Bit(a, d)
    requires forall i: nat :: d < i ==> !Bit(a, i)
    ensures a > 0 && Len(a) == d + 1
  {
    BitZero(d);
    LenBit(a);
  }

  lemma XorFits(a: nat, b: nat, w: nat)
    requires a < Pow2(w) && b < Pow2(w)
    ensures Xor(a, b) < Pow2(w)
  {
    forall i: nat | w <= i ensures !Bit(Xor(a, b), i) {
      BitXor(a, b, i); FitsBit(a, w, i); FitsBit(b, w, i);
    }
    BitsFit(Xor(a, b), w);
  }

  lemma XorLenMax(a: nat, b: nat, m: nat)
    requires Len(a) <= m && Len(b) <= m
    ensures Len(Xor(a, b)) <= m
  {
    FitsLen(a, m); FitsLen(b, m);
    XorFits(a, b, m);
    FitsLen(Xor(a, b), m);
  }

  /** The longer operand decides the length. */
  lemma XorLenLess(a: nat, b: nat)
    requires Len(a) < Len(b)
    ensures Len(Xor(a, b)) == Len(b)
    ensures Len(Xor(b, a)) == Len(b)
  {
    XorLenLonger(a, b);
    XorComm(a, b);
  }

  lemma {:induction false} XorLenLonger(a: nat, b: nat)
    requires Len(a) < Len(b)
    ensures Len(Xor(a, b)) == Len(b)
  {
    if a == 0 {
      XorZero(b);
    } else {
      XorLenLonger(a / 2, b / 2);
      XorHalves(a, b);
      LenStep(Xor(a, b));
    }
  }

  lemma LenPositive(h: nat)
    requires h > 0
    ensures Len(h) >= 1
  {
  }

  lemma LenStep(x: nat)
    ensures x > 0 ==> Len(x) == 1 + Len(x / 2)
    ensures Len(x / 2) > 0 ==> x > 1
  {
  }

  /** Equal leading bits cancel. */
  lemma {:induction false} XorLenSame(a: nat, b: nat)
    requires Len(a) == Len(b) > 0
    ensures Len(Xor(a, b)) < Len(b)
  {
    if a > 1 && b > 1 {
      XorLenSame(a / 2, b / 2);
      XorHalves(a, b);
      LenStep(Xor(a, b));
    } else {
      assert a == 1 && b == 1;
    }
  }

  lemma {:induction false} LenShl(a: nat, k: nat)
    requires a > 0
    ensures Shl(a, k) > 0 && Len(Shl(a, k)) == Len(a) + k
  {
    if k > 0 { LenShl(a, k - 1); }
  }

  lemma {:induction false} LowFits(a: nat, k: nat)
    ensures Low(a, k) < Pow2(k) && Low(a, k) <= a
    decreases k
  {
    if k > 0 { LowFits(a / 2, k - 1); }
  }

  lemma {:induction false} LowId(a: nat, k: nat)
    requires a < Pow2(k)
    ensures Low(a, k) == a
    decreases k
  {
    if k > 0 { LowId(a / 2, k - 1); }
  }

  lemma {:induction false} ShrFits(a: nat, k: nat, n: nat)
    requires a < Pow2(k + n)
    ensures Shr(a, k) < Pow2(n)
    decreases k
  {
    if k > 0 { ShrFits(a / 2, k - 1, n); }
  }

  lemma {:induction false} ShlFits(a: nat, k: nat, n: nat)
    requires a < Pow2(n)
    ensures Shl(a, k) < Pow2(k + n)
  {
    if k > 0 { ShlFits(a, k - 1, n); }
  }

  lemma {:induction false} ShlMono(a: nat, b: nat, k: nat)
    requires a <= b
    ensures Shl(a, k) <= Shl(b, k)
    ensures a < b ==> Shl(a, k) < Shl(b, k)
  {
    if k > 0 { ShlMono(a, b, k - 1); }
  }

  lemma {:induction false} ShlOne(k: nat)
    ensures Shl(1, k) == Pow2(k)
  {
    if k > 0 { ShlOne(k - 1); }
  }

  lemma {:induction false} ShlZero(k: nat)
    ensures Shl(0, k) == 0
  {
    if k > 0 { ShlZero(k - 1); }
  }

  lemma {:induction false} ShlAdd(a: nat, j: nat, k: nat)
    ensures Shl(Shl(a, j), k) == Shl(a, j + k)
  {
    if k > 0 { ShlAdd(a, j, k - 1); }
  }

  lemma {:induction false} ShrAdd(a: nat, j: nat, k: nat)
    ensures Shr(Shr(a, j), k) == Shr(a, j + k)
    decreases j
  {
    if j > 0 { ShrAdd(a / 2, j - 1, k); }
  }

  lemma {:induction false} ShrZero(k: nat)
    ensures Shr(0, k) == 0
  {
    if k > 0 { ShrZero(k - 1); }
  }

  /** A word splits into its high part and its low `k` bits. */
  lemma {:induction false} SplitAt(a: nat, k: nat)
    ensures a == Shl(Shr(a, k), k) + Low(a, k)
    ensures a == Xor(Shl(Shr(a, k), k), Low(a, k))
    decreases k
  {
    if k == 0 {
      XorZero(a);
    } else {
      SplitAt(a / 2, k - 1);
      XorAppend(Shl(Shr(a / 2, k - 1), k - 1), Low(a / 2, k - 1), a % 2);
    }
  }

  // ----- exclusive or is an abelian group of exponent two

  lemma XorStep(a: nat, b: nat)
    ensures Xor(a, b) == (if a % 2 == b % 2 then 0 else 1) + 2 * Xor(a / 2, b / 2)
  {
  }

  lemma Halves(x: nat, l: nat, h: nat)
    requires x == l + 2 * h && l < 2
    ensures x / 2 == h && x % 2 == l
  {
  }

  lemma XorHalves(a: nat, b: nat)
    ensures Xor(a, b) / 2 == Xor(a / 2, b / 2)
    ensures Xor(a, b) % 2 == 1 <==> a % 2 != b % 2
  {
    Halves(Xor(a, b), if a % 2 == b % 2 then 0 else 1, Xor(a / 2, b / 2));
  }

  lemma LowBit(a: nat)
    ensures Xor(a % 2, 2 * (a / 2)) == a
  {
    XorStep(a % 2, 2 * (a / 2));
    XorZero(a / 2);
  }

  lemma XorDouble(a: nat, b: nat)
    ensures Xor(2 * a, 2 * b) == 2 * Xor(a, b)
  {
    XorStep(2 * a, 2 * b);
    Halves(2 * a, 0, a);
    Halves(2 * b, 0, b);
  }

  /** Appending a low bit on the right-hand side. */
  lemma XorAppend(h: nat, l: nat, b: nat)
    requires b < 2
    ensures Xor(2 * h, b + 2 * l) == b + 2 * Xor(h, l)
  {
    Halves(2 * h, 0, h);
    Halves(b + 2 * l, b, l);
    XorStep(2 * h, b + 2 * l);
  }

  lemma {:induction false} XorZero(a: nat)
    ensures Xor(a, 0) == a == Xor(0, a)
  {
    if a > 0 { XorZero(a / 2); }
  }

  lemma {:induction false} XorSelf(a: nat)
    ensures Xor(a, a) == 0
  {
    if a > 0 { XorSelf(a / 2); }
  }

  lemma {:induction false} XorComm(a: nat, b: nat)
    ensures Xor(a, b) == Xor(b, a)
    decreases a + b
  {
    if a != 0 || b != 0 { XorComm(a / 2, b / 2); }
  }

  lemma XorAssoc(a: nat, b: nat, c: nat)
    ensures Xor(Xor(a, b), c) == Xor(a, Xor(b, c))
  {
    BitLaws();
    BitExt(Xor(Xor(a, b), c), Xor(a, Xor(b, c)));
  }

  lemma XorCancel(a: nat, b: nat)
    ensures Xor(Xor(a, b), b) == a
    ensures Xor(a, Xor(a, b)) == b
    ensures Xor(a, b) == 0 <==> a == b
  {
    XorAssoc(a, b, b); XorSelf(b); XorZero(a);
    XorAssoc(a, a, b); XorSelf(a); XorZero(b);
  }

  /** `(a ^ b) ^ (c ^ d) == (a ^ c) ^ (b ^ d)` */
  lemma XorSwap(a: nat, b: nat, c: nat, d: nat)
    ensures Xor(Xor(a, b), Xor(c, d)) == Xor(Xor(a, c), Xor(b, d))
  {
    BitLaws();
    BitExt(Xor(Xor(a, b), Xor(c, d)), Xor(Xor(a, c), Xor(b, d)));
  }

  lemma ShlXor(a: nat, b: nat, k: nat)
    ensures Shl(Xor(a, b), k) == Xor(Shl(a, k), Shl(b, k))
  {
    BitLaws();
    BitExt(Shl(Xor(a, b), k), Xor(Shl(a, k), Shl(b, k)));
  }

  lemma LowXor(a: nat, b: nat, k: nat)
    ensures Low(Xor(a, b), k) == Xor(Low(a, k), Low(b, k))
  {
    BitLaws();
    BitExt(Low(Xor(a, b), k), Xor(Low(a, k), Low(b, k)));
  }

  lemma ShrXor(a: nat, b: nat, k: nat)
    ensures Shr(Xor(a, b), k) == Xor(Shr(a, k), Shr(b, k))
  {
    BitLaws();
    BitExt(Shr(Xor(a, b), k), Xor(Shr(a, k), Shr(b, k)));
  }

  /** Disjoint words: `a ^ b == a + b`, so C's `|`, `^` and `+` agree. */
  lemma {:induction false} XorDisjoint(a: nat, b: nat, k: nat)
    requires b < Pow2(k)
    ensures Xor(Shl(a, k), b) == Shl(a, k) + b
    decreases k
  {
    if k == 0 {
      XorZero(a);
    } else {
      XorDisjoint(a, b / 2, k - 1);
      XorAppend(Shl(a, k - 1), b / 2, b % 2);
    }
  }

  // ----- reading a word from the low end

  lemma AllRead(a: nat, n: nat)
    requires Shr(a, n) == 0
    ensures Low(a, n) == a
  {
    SplitAt(a, n);
    ShlZero(n);
  }

  lemma NotAllRead(a: nat, n: nat, w: nat)
    requires a < Pow2(w) && Shr(a, n) != 0
    ensures n < w
  {
    if w <= n {
      Pow2Mono(w, n);
      ShrFits(a, n, 0);
    }
  }

  lemma SplitWindow(v: nat, n: nat, g: nat)
    ensures Low(v, n + g) == Xor(Shl(Low(Shr(v, n), g), n), Low(v, n))
  {
    hide Low, Shl, Shr, Xor;
    BitLaws();
    BitExt(Low(v, n + g), Xor(Shl(Low(Shr(v, n), g), n), Low(v, n)));
  }

  lemma {:induction false} ShlPow2(a: nat, k: nat)
    ensures Shl(Pow2(a), k) == Pow2(a + k)
  {
    if k > 0 { ShlPow2(a, k - 1); }
  }

  lemma ShrOfSum(l: nat, r: nat, w: nat)
    requires r < Pow2(w)
    ensures Shr(Xor(Shl(l, w), r), w) == l
  {
    BitLaws();
    forall i: nat ensures Bit(Shr(Xor(Shl(l, w), r), w), i) == Bit(l, i) { FitsBit(r, w, i + w); }
    BitExt(Shr(Xor(Shl(l, w), r), w), l);
  }

  lemma LowOfSum(x: nat, y: nat, k: nat)
    requires y < Pow2(k)
    ensures Low(Xor(Shl(x, k), y), k) == y
  {
    hide Xor, Shl, Low;
    BitLaws();
    forall i: nat | i >= k ensures !Bit(y, i) { FitsBit(y, k, i); }
    BitExt(Low(Xor(Shl(x, k), y), k), y);
  }

  lemma {:induction false} LowOfZero(k: nat)
    ensures Low(0, k) == 0
  {
    if k > 0 { LowOfZero(k - 1); }
  }

  lemma LowOfShl(a: nat, k: nat)
    ensures Low(Shl(a, k), k) == 0
  {
    hide Low, Shl;
    BitLaws();
    BitExt(Low(Shl(a, k), k), 0);
  }
}
