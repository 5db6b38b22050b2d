/**
 Tables of multiples `c * val`, filled by doubling: the upper half of each stage is
 the lower half plus the next power of `x` times `val`. The group and split
 multiplications build their tables this way.
 */
module Doubling {
  import opened Bits
  import opened Poly
  import opened Multiply

  /** The first `n` entries are the multiples of `val`. */
  ghost predicate Multiples(t: seq<nat>, n: nat, val: nat, p: nat)
    requires p > 0
  {
    n <= |t| && forall c :: 0 <= c < n ==> t[c] == Mul(c, val, p)
  }

  /** Entry `2^e + j` from entry `j`. */
  lemma NextMultiple(e: nat, j: nat, val: nat, p: nat)
    requires p > 0 && j < Pow2(e)
    ensures Mul(Pow2(e) + j, val, p) == Xor(Mul(j, val, p), Mul(Pow2(e), val, p))
  {
    hide Mul, Xor, Shl, Pow2;
    ShlOne(e);
    XorDisjoint(1, j, e);
    XorComm(Pow2(e), j);
    MulXor(j, Pow2(e), val, p);
  }

  lemma NextPower(v: nat, e: nat, val: nat, w: nat, pp: nat, p: nat)
    requires IsModulus(w, p) && Low(pp, w) == Low(p, w) && v == Mul(Pow2(e), val, p)
    ensures v < Pow2(w) && TimesTwo(v, w, pp) == Mul(Pow2(e + 1), val, p)
  {
    MulFits(Pow2(e), val, w, p);
    TimesTwoIsMul(v, w, pp, p);
    HornerDouble(Pow2(e), val, p);
  }

  lemma FirstPower(val: nat, w: nat, p: nat)
    requires IsModulus(w, p) && val < Pow2(w)
    ensures Mul(Pow2(0), val, p) == val && Mul(0, val, p) == 0
  {
    MulOne(val, w, p);
    MulZero(val, p);
  }

  /** `gf_w32_group_set_shift_tables`: multiples of `val` for all `g`-bit numbers. */
  method FillShift(shift: array<nat>, g: nat, val: nat, w: nat, pp: nat, ghost p: nat)
    requires IsModulus(w, p) && Low(pp, w) == Low(p, w) && val < Pow2(w) && shift.Length == Pow2(g)
    modifies shift
    ensures Multiples(shift[..], Pow2(g), val, p)
  {
    hide Mul, TimesTwo, Low;
    shift[0] := 0;
    var i: nat, v: nat := 1, val;
    ghost var e: nat := 0;
    FirstPower(val, w, p);
    while i < Pow2(g)
      invariant e <= g && i == Pow2(e) && v == Mul(Pow2(e), val, p)
      invariant Multiples(shift[..], i, val, p)
      decreases g - e
    {
      if e == g { assert false; }
      Pow2Mono(e + 1, g);
      for j := 0 to i
        invariant Multiples(shift[..], i + j, val, p)
      {
        NextMultiple(e, j, val, p);
        shift[i + j] := Xor(shift[j], v);
      }
      NextPower(v, e, val, w, pp, p);
      v := TimesTwo(v, w, pp);
      i := 2 * i;
      e := e + 1;
    }
    if e < g { Pow2Mono(e, g); }
  }
}
