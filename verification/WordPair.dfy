/** Values held in two machine words of `h` bits, most significant word first. */
module WordPair {
  import opened Bits

  datatype Pair = Pair(hi: nat, lo: nat)

  predicate IsPair(h: nat, v: Pair) {
    v.hi < Pow2(h) && v.lo < Pow2(h)
  }

  /** The `2h`-bit number held in two `h`-bit words. */
  function Join(h: nat, v: Pair): (r: nat) {
    Xor(Shl(v.hi, h), v.lo)
  }

  function Cut(h: nat, a: nat): (v: Pair) {
    Pair(Shr(a, h), Low(a, h))
  }

  function XorPair(u: Pair, v: Pair): Pair {
    Pair(Xor(u.hi, v.hi), Xor(u.lo, v.lo))
  }

  lemma JoinBit(h: nat, v: Pair, i: nat)
    requires IsPair(h, v)
    ensures Bit(Join(h, v), i) == if i < h then Bit(v.lo, i) else Bit(v.hi, i - h)
  {
    BitXor(Shl(v.hi, h), v.lo, i);
    BitShl(v.hi, h, i);
    if i >= h { FitsBit(v.lo, h, i); }
  }

  lemma JoinCut(h: nat, a: nat)
    requires a < Pow2(2 * h)
    ensures IsPair(h, Cut(h, a)) && Join(h, Cut(h, a)) == a
  {
    SplitAt(a, h);
    LowFits(a, h);
    ShrFits(a, h, h);
  }

  lemma JoinFits(h: nat, v: Pair)
    requires IsPair(h, v)
    ensures Join(h, v) < Pow2(2 * h)
    ensures Join(h, v) == 0 <==> v.hi == 0 && v.lo == 0
    ensures Join(h, v) == Shl(v.hi, h) + v.lo
  {
    forall i: nat | 2 * h <= i ensures !Bit(Join(h, v), i) {
      JoinBit(h, v, i);
      FitsBit(v.hi, h, i - h);
    }
    BitsFit(Join(h, v), 2 * h);
    XorDisjoint(v.hi, v.lo, h);
    if v.hi > 0 { LenShl(v.hi, h); } else { ShlZero(h); }
  }

  lemma JoinXor(h: nat, u: Pair, v: Pair)
    requires IsPair(h, u) && IsPair(h, v)
    ensures IsPair(h, XorPair(u, v))
    ensures Join(h, XorPair(u, v)) == Xor(Join(h, u), Join(h, v))
  {
    XorFits(u.hi, v.hi, h); XorFits(u.lo, v.lo, h);
    ShlXor(u.hi, v.hi, h);
    XorSwap(Shl(u.hi, h), u.lo, Shl(v.hi, h), v.lo);
  }

  /** The statements that shift a two-word value left by `k`, dropping what overflows. */
  function ShiftPair(h: nat, v: Pair, k: nat): (r: Pair) {
    if k >= h then Pair(Low(Shl(v.lo, k - h), h), 0)
    else Pair(Xor(Low(Shl(v.hi, k), h), if k > 0 then Shr(v.lo, h - k) else 0), Low(Shl(v.lo, k), h))
  }

  lemma ShiftPairFits(h: nat, v: Pair, k: nat)
    requires IsPair(h, v)
    ensures IsPair(h, ShiftPair(h, v, k))
  {
    if k >= h {
      LowFits(Shl(v.lo, k - h), h);
    } else {
      LowFits(Shl(v.hi, k), h);
      LowFits(Shl(v.lo, k), h);
      var c := if k > 0 then Shr(v.lo, h - k) else 0;
      if k > 0 { ShrFits(v.lo, h - k, k); Pow2Mono(k, h); }
      XorFits(Low(Shl(v.hi, k), h), c, h);
    }
  }

  lemma ShiftPairValue(h: nat, v: Pair, k: nat)
    requires IsPair(h, v)
    ensures Join(h, ShiftPair(h, v, k)) == Low(Shl(Join(h, v), k), 2 * h)
  {
    ShiftPairFits(h, v, k);
    var x, y := Join(h, ShiftPair(h, v, k)), Low(Shl(Join(h, v), k), 2 * h);
    forall i: nat ensures Bit(x, i) == Bit(y, i) { ShiftPairBit(h, v, k, i); }
    BitExt(x, y);
  }

  lemma ShiftPairBit(h: nat, v: Pair, k: nat, i: nat)
    requires IsPair(h, v) && IsPair(h, ShiftPair(h, v, k))
    ensures Bit(Join(h, ShiftPair(h, v, k)), i) == Bit(Low(Shl(Join(h, v), k), 2 * h), i)
  {
    JoinBit(h, ShiftPair(h, v, k), i);
    BitLow(Shl(Join(h, v), k), 2 * h, i);
    BitShl(Join(h, v), k, i);
    if i >= k { JoinBit(h, v, i - k); }
    BitLaws();
    forall j: nat | h <= j ensures !Bit(v.lo, j) && !Bit(v.hi, j) { FitsBit(v.lo, h, j); FitsBit(v.hi, h, j); }
  }
}
