/**
 Window ("group") multiplication for any pair of window sizes
 (`gf_w32_group_init`, `gf_w32_group_multiply`, `gf_w32_group_s_equals_r_multiply`,
 `gf_w64_group_multiply`). One table multiplies `g_s` bits at a time, the other
 reduces `g_r` bits at a time.
 */
module Group {
  import opened Bits
  import opened Poly
  import opened Multiply
  import opened WordPair
  import opened Doubling

  // ----- the reduce table

  /** Entry `l` is what `l * x^w` reduces to. */
  ghost predicate Reductions(t: seq<nat>, g: nat, w: nat, p: nat)
    requires p > 0
  {
    |t| == Pow2(g) && forall l :: 0 <= l < Pow2(g) ==> t[l] == PMod(Shl(l, w), p)
  }

  /** Index under which the multiple `i * p` of the modulus is stored. */
  function Index(i: nat, w: nat, p: nat): nat {
    Shr(PMul(i, p), w)
  }

  /** The multiple and its index determine each other: the index map is a bijection ... */
  lemma IndexInverse(i: nat, w: nat, p: nat)
    requires IsModulus(w, p)
    ensures PDiv(Shl(Index(i, w, p), w), p) == i
    ensures PMod(Shl(Index(i, w, p), w), p) == Low(PMul(i, p), w)
  {
    hide *;
    ModulusPositive(w, p);
    IndexUnfold(i, w, p);
    var m := PMul(i, p);
    SplitAt(m, w);
    LowFits(m, w); FitsLen(Low(m, w), w);
    XorCancel(Shl(Shr(m, w), w), Low(m, w));
    DivModUnique(Shl(Shr(m, w), w), p, i, Low(m, w));
  }

  lemma IndexUnfold(i: nat, w: nat, p: nat)
    requires IsModulus(w, p)
    ensures Index(i, w, p) == Shr(PMul(i, p), w) && Len(p) == w + 1
  {
  }

  /** ... on the `g`-bit numbers. */
  lemma IndexOnto(l: nat, g: nat, w: nat, p: nat)
    requires IsModulus(w, p) && l < Pow2(g)
    ensures PDiv(Shl(l, w), p) < Pow2(g)
    ensures Index(PDiv(Shl(l, w), p), w, p) == l
  {
    hide *;
    ModulusPositive(w, p);
    var m := Shl(l, w);
    var i, r := PDiv(m, p), PMod(m, p);
    DivMod(m, p);
    ModFits(m, w, p);
    XorCancel(PMul(i, p), r);
    XorDisjoint(l, r, w);
    IndexUnfold(i, w, p);
    ShrOfSum(l, r, w);
    IndexFits(i, g, l, r, w, p);
  }

  lemma IndexFits(i: nat, g: nat, l: nat, r: nat, w: nat, p: nat)
    requires IsModulus(w, p) && l < Pow2(g) && r < Pow2(w) && PMul(i, p) == Xor(Shl(l, w), r)
    ensures i < Pow2(g)
  {
    hide PMul, Xor, Shl, Len, Pow2;
    ModulusPositive(w, p);
    ShlFits(l, w, g);
    Pow2Mono(w, w + g);
    XorFits(Shl(l, w), r, w + g);
    FitsLen(PMul(i, p), w + g);
    if i > 0 { PMulLen(i, p); }
    FitsLen(i, g);
  }

  /** One more bit of `i`: what the inner loop adds to the entry and to the index. */
  lemma ReduceBitStep(i: nat, j: nat, w: nat, pp: nat)
    requires w >= 1 && pp < Pow2(w) && j <= w
    ensures var p := Full(w, pp);
            var m, m' := PMul(Low(i, j), p), PMul(Low(i, j + 1), p);
            && (!Bit(i, j) ==> m' == m)
            && (Bit(i, j) ==> Low(m', w) == Xor(Low(m, w), Low(Shl(pp, j), w))
                              && Shr(m', w) == Xor(Xor(Shr(m, w), Pow2(j)), Shr(pp, w - j)))
  {
    hide *;
    var p := Full(w, pp);
    var m := PMul(Low(i, j), p);
    PartialProduct(i, p, j);
    FullIsModulus(w, pp);
    LowXor(m, Shl(p, j), w);
    ShrXor(m, Shl(p, j), w);
    ShlXor(Pow2(w), pp, j);
    LowXor(Shl(Pow2(w), j), Shl(pp, j), w);
    ShrXor(Shl(Pow2(w), j), Shl(pp, j), w);
    TopParts(w, j, pp);
    XorZero(Low(Shl(pp, j), w));
    XorAssoc(Shr(m, w), Pow2(j), Shr(pp, w - j));
  }

  lemma TopParts(w: nat, j: nat, pp: nat)
    requires j <= w
    ensures Low(Shl(Pow2(w), j), w) == 0 && Shr(Shl(Pow2(w), j), w) == Pow2(j)
    ensures Shr(Shl(pp, j), w) == Shr(pp, w - j)
  {
    BitLaws();
    BitExt(Low(Shl(Pow2(w), j), w), 0);
    BitExt(Shr(Shl(Pow2(w), j), w), Pow2(j));
    BitExt(Shr(Shl(pp, j), w), Shr(pp, w - j));
  }

  /** The table is filled in the order of the multiples, not of the indices. */
  method FillReduce(reduce: array<nat>, g: nat, w: nat, pp: nat)
    requires w >= 1 && g <= w && pp < Pow2(w) && reduce.Length == Pow2(g)
    modifies reduce
    ensures Full(w, pp) > 0 && Reductions(reduce[..], g, w, Full(w, pp))
  {
    hide PMul, PMod, PDiv, Full, Index, Low, Shr, Shl, Xor;
    ghost var p := Full(w, pp);
    FullIsModulus(w, pp); ModulusPositive(w, p);
    reduce[0] := 0;
    for i := 0 to Pow2(g)
      invariant forall k :: 0 <= k < i ==> Stored(reduce[..], k, w, p)
    {
      var entry, index := ReduceEntry(i, g, w, pp);
      ghost var r := StoredStep(reduce[..], i, w, p, g);
      reduce[index] := entry;
      assert reduce[..] == r;
    }
    forall l | 0 <= l < Pow2(g) ensures reduce[l] == PMod(Shl(l, w), p) {
      IndexOnto(l, g, w, p);
      assert Stored(reduce[..], PDiv(Shl(l, w), p), w, p);
    }
  }

  ghost predicate Stored(t: seq<nat>, k: nat, w: nat, p: nat)
    requires p > 0
  {
    Index(k, w, p) < |t| && t[Index(k, w, p)] == PMod(Shl(Index(k, w, p), w), p)
  }

  lemma IndexSmall(i: nat, g: nat, w: nat, p: nat)
    requires IsModulus(w, p) && i < Pow2(g)
    ensures Index(i, w, p) < Pow2(g)
  {
    hide PMul, Shr;
    FitsLen(p, w + 1);
    PMulFits(i, p, g, w + 1);
    ShrZero(w);
    if PMul(i, p) != 0 { ShrFits(PMul(i, p), w, g); }
  }

  lemma StoredStep(t: seq<nat>, i: nat, w: nat, p: nat, g: nat) returns (t': seq<nat>)
    requires IsModulus(w, p) && i < Pow2(g) && |t| == Pow2(g)
    requires forall k :: 0 <= k < i ==> Stored(t, k, w, p)
    ensures Index(i, w, p) < Pow2(g) && t' == t[Index(i, w, p) := Low(PMul(i, p), w)]
    ensures forall k :: 0 <= k <= i ==> Stored(t', k, w, p)
  {
    hide PMul, PMod, Index, Low, Shl;
    IndexSmall(i, g, w, p);
    IndexInverse(i, w, p);
    t' := t[Index(i, w, p) := Low(PMul(i, p), w)];
    forall k | 0 <= k <= i ensures Stored(t', k, w, p) {
      if k < i { assert Stored(t, k, w, p); }
    }
  }

  /** The inner loop over the bits of `i`. */
  method ReduceEntry(i: nat, g: nat, w: nat, pp: nat) returns (entry: nat, index: nat)
    requires w >= 1 && g <= w && pp < Pow2(w) && i < Pow2(g)
    ensures entry == Low(PMul(i, Full(w, pp)), w) && index == Index(i, w, Full(w, pp))
  {
    hide *;
    ghost var p := Full(w, pp);
    entry, index := 0, 0;
    EntryStart(i, w, p);
    for j := 0 to g
      invariant entry == Low(PMul(Low(i, j), p), w) && index == Shr(PMul(Low(i, j), p), w)
    {
      ReduceBitStep(i, j, w, pp);
      if Bit(i, j) {
        entry := Xor(entry, Low(Shl(pp, j), w));
        index := Xor(index, Pow2(j));
        index := Xor(index, Shr(pp, w - j));
      }
    }
    LowId(i, g);
    FullIsModulus(w, pp);
    IndexUnfold(i, w, p);
  }

  lemma EntryStart(i: nat, w: nat, p: nat)
    ensures Low(PMul(Low(i, 0), p), w) == 0 && Shr(PMul(Low(i, 0), p), w) == 0
  {
    ShrZero(w);
    LowFits(0, w);
  }

  // ----- reading the operand window by window

  lemma {:induction false} NextWindow(a: nat, w: nat, i: nat, g: nat)
    requires a < Pow2(w) && g <= i <= w
    ensures var a32 := Low(Shl(a, w - i), w);
            && Shr(a32, w - g) == Low(Shr(a, i - g), g) < Pow2(g)
            && Low(Shl(a32, g), w) == Low(Shl(a, w - (i - g)), w)
  {
    var a32 := Low(Shl(a, w - i), w);
    BitLaws();
    LowFits(Shr(a, i - g), g);
    hide Low, Shl, Shr;
    BitExt(Shr(a32, w - g), Low(Shr(a, i - g), g));
    BitExt(Low(Shl(a32, g), w), Low(Shl(a, w - (i - g)), w));
  }

  lemma ModShl(y: nat, g: nat, p: nat)
    requires p > 0
    ensures PMod(Shl(PMod(y, p), g), p) == PMod(Shl(y, g), p)
  {
    hide PMod, PMul, Shl, Pow2;
    PMulPow2(PMod(y, p), g); PMulPow2(y, g);
    ModMul(y, Pow2(g), p);
  }

  /** Horner's rule with `g`-bit digits. */
  lemma WindowStep(a: nat, b: nat, i: nat, g: nat, p: nat)
    requires p > 0 && g <= i
    ensures Mul(Shr(a, i - g), b, p)
            == Xor(PMod(Shl(Mul(Shr(a, i), b, p), g), p), Mul(Low(Shr(a, i - g), g), b, p))
  {
    hide *;
    var s := Shr(a, i - g);
    ShrAdd(a, i - g, g);
    SplitAt(s, g);
    MulXor(Shl(Shr(a, i), g), Low(s, g), b, p);
    PMulShl(Shr(a, i), b, g);
    ModShl(PMul(Shr(a, i), b), g, p);
    MulUnfold(Shr(a, i), b, p); MulUnfold(Shl(Shr(a, i), g), b, p);
  }

  // ----- g_s == g_r: reduce after every window

  lemma SqueezeStep(v: nat, g: nat, w: nat, p: nat)
    requires IsModulus(w, p) && v < Pow2(w) && g <= w
    ensures Shr(v, w - g) < Pow2(g)
    ensures PMod(Shl(v, g), p) == Xor(PMod(Shl(Shr(v, w - g), w), p), Low(Shl(v, g), w))
  {
    hide *;
    ModulusPositive(w, p);
    ShrFits(v, w - g, g);
    var m := Shl(v, g);
    SplitAt(m, w);
    TopParts(w, g, v);
    ModXor(Shl(Shr(m, w), w), Low(m, w), p);
    LowFits(m, w);
    ModFits(Low(m, w), w, p);
  }

  function Leftover(w: nat, g: nat): (r: nat)
    requires g >= 1
    ensures 1 <= r <= g
  {
    if w % g == 0 then g else w % g
  }

  lemma LeftoverFits(w: nat, g: nat) returns (k: nat)
    requires 1 <= g <= w
    ensures Leftover(w, g) <= w && w - Leftover(w, g) == k * g
  {
    var q := w / g;
    assert w == q * g + w % g;
    if w % g == 0 {
      assert w - g == (q - 1) * g;
      k := q - 1;
    } else {
      assert w - w % g == q * g;
      k := q;
    }
  }

  /** One round: next window of `a`, top window of `v`, and their table entries. */
  lemma SameRound(w: nat, g: nat, p: nat, a: nat, b: nat, left: nat, v: nat, a32: nat, shift: seq<nat>, reduce: seq<nat>)
    requires IsModulus(w, p) && 1 <= g <= left <= w && a < Pow2(w) && b < Pow2(w)
    requires Multiples(shift, Pow2(g), b, p) && Reductions(reduce, g, w, p)
    requires v == Mul(Shr(a, left), b, p) && a32 == Low(Shl(a, w - left), w)
    ensures Shr(a32, w - g) < Pow2(g) <= |shift| && Shr(v, w - g) < Pow2(g) == |reduce|
    ensures Xor(Xor(shift[Shr(a32, w - g)], reduce[Shr(v, w - g)]), Low(Shl(v, g), w)) == Mul(Shr(a, left - g), b, p)
    ensures Low(Shl(a32, g), w) == Low(Shl(a, w - (left - g)), w)
  {
    hide Mul, PMod, Low, Shl, Shr, Xor, Pow2;
    NextWindow(a, w, left, g);
    WindowStep(a, b, left, g, p);
    MulFits(Shr(a, left), b, w, p);
    SqueezeStep(v, g, w, p);
    XorRotate(reduce[Shr(v, w - g)], Low(Shl(v, g), w), shift[Shr(a32, w - g)]);
  }

  method MultiplySame(w: nat, g: nat, shift: array<nat>, reduce: array<nat>, a: nat, b: nat, pp: nat, ghost p: nat) returns (v: nat)
    requires IsModulus(w, p) && Low(pp, w) == Low(p, w) && 1 <= g <= w && a < Pow2(w) && b < Pow2(w)
    requires shift != reduce && shift.Length == Pow2(g) && Reductions(reduce[..], g, w, p)
    modifies shift
    ensures v == Mul(a, b, p)
  {
    hide Mul, PMod, Low, Shl, Shr, Xor, Pow2, Multiples, Reductions, IsModulus, Leftover;
    ModulusPositive(w, p);
    FillShift(shift, g, b, w, pp, p);
    var leftover := Leftover(w, g);
    ghost var k := LeftoverFits(w, g);
    var rs: nat := w - leftover;
    FirstWindow(a, b, w, g, leftover, shift[..], p);
    var ind := Shr(a, rs);
    var a32 := Low(Shl(a, leftover), w);
    v := shift[ind];
    var left: nat := rs;
    rs := w - g;
    while left > 0
      invariant left == k * g <= w && v == Mul(Shr(a, left), b, p)
      invariant a32 == Low(Shl(a, w - left), w) && Multiples(shift[..], Pow2(g), b, p)
    {
      WindowCount(k, g);
      SameRound(w, g, p, a, b, left, v, a32, shift[..], reduce[..]);
      left := left - g;
      k := k - 1;
      ind := Shr(a32, rs);
      a32 := Low(Shl(a32, g), w);
      var l := Shr(v, rs);
      v := Xor(Xor(shift[ind], reduce[l]), Low(Shl(v, g), w));
    }
    ShrByZero(a);
  }

  lemma FirstWindow(a: nat, b: nat, w: nat, g: nat, leftover: nat, shift: seq<nat>, p: nat)
    requires p > 0 && leftover <= g && leftover <= w && a < Pow2(w) && Multiples(shift, Pow2(g), b, p)
    ensures Shr(a, w - leftover) < Pow2(g) <= |shift|
    ensures shift[Shr(a, w - leftover)] == Mul(Shr(a, w - leftover), b, p)
  {
    ShrFits(a, w - leftover, leftover);
    Pow2Mono(leftover, g);
  }

  lemma WindowCount(k: nat, g: nat)
    requires k * g > 0
    ensures k >= 1 && k * g >= g && k * g - g == (k - 1) * g
  {
  }

  lemma XorRotate(a: nat, b: nat, c: nat)
    ensures Xor(Xor(a, b), c) == Xor(Xor(c, a), b)
  {
    hide Xor;
    XorComm(Xor(a, b), c);
    XorAssoc(c, a, b);
  }

  lemma ShrByZero(a: nat)
    ensures Shr(a, 0) == a
  {
  }

  // ----- g_s != g_r: collect an unreduced product, then reduce it from the top

  /** `x` is congruent to the product and fits in `w + n` bits. */
  ghost predicate Unreduced(x: nat, target: nat, w: nat, n: nat, p: nat)
    requires p > 0
  {
    PMod(x, p) == PMod(target, p) && x < Pow2(w + n)
  }

  lemma CollectFirst(c: nat, w: nat, g: nat, p: nat)
    requires IsModulus(w, p) && c < Pow2(w)
    ensures Unreduced(Shl(c, g), Shl(c, g), w, g, p)
  {
    ShlFits(c, g, w);
  }

  /** Adding a window and shifting up. */
  lemma CollectRound(w: nat, g: nat, p: nat, a: nat, b: nat, i: nat, v: nat, n: nat, a32: nat, shift: seq<nat>)
    requires IsModulus(w, p) && 1 <= g <= i <= w && a < Pow2(w) && b < Pow2(w)
    requires Multiples(shift, Pow2(g), b, p) && a32 == Low(Shl(a, w - i), w)
    requires Unreduced(v, Shl(Mul(Shr(a, i), b, p), g), w, n, p)
    ensures Shr(a32, w - g) < Pow2(g) <= |shift|
    ensures var v' := Xor(v, shift[Shr(a32, w - g)]);
            && Unreduced(v', Mul(Shr(a, i - g), b, p), w, n, p)
            && Unreduced(Shl(v', g), Shl(Mul(Shr(a, i - g), b, p), g), w, n + g, p)
    ensures Low(Shl(a32, g), w) == Low(Shl(a, w - (i - g)), w)
  {
    hide Mul, PMod, Low, Shl, Shr, Xor, Pow2;
    NextWindow(a, w, i, g);
    WindowStep(a, b, i, g, p);
    var s := shift[Shr(a32, w - g)];
    var m := Mul(Shr(a, i - g), b, p);
    MulFits(Low(Shr(a, i - g), g), b, w, p);
    MulFits(Shr(a, i - g), b, w, p);
    ModXor(v, s, p);
    ModFits(s, w, p); ModFits(m, w, p);
    Pow2Mono(w, w + n);
    XorFits(v, s, w + n);
    var v' := Xor(v, s);
    ModShl(v', g, p); ModShl(m, g, p);
    ShlFits(v', g, w + n);
  }

  /**
   One reduction step at position `i`. Bits at and above `w + i + g` are left over from
   earlier steps and are ignored; this step makes those from `w + i` on stale too.
   */
  lemma ReduceWindow(v: nat, target: nat, i: nat, g: nat, w: nat, p: nat, reduce: seq<nat>)
    requires IsModulus(w, p) && Reductions(reduce, g, w, p)
    requires PMod(Low(v, w + i + g), p) == target
    ensures Low(Shr(v, w + i), g) < Pow2(g) == |reduce|
    ensures PMod(Low(Xor(v, Shl(reduce[Low(Shr(v, w + i), g)], i)), w + i), p) == target
  {
    hide PMod, Low, Shl, Shr, Xor, Pow2;
    var l := Low(Shr(v, w + i), g);
    LowFits(Shr(v, w + i), g);
    var r := reduce[l];
    ModFits(Shl(l, w), w, p);
    ShlFits(r, i, w);
    LowId(Shl(r, i), w + i);
    LowXor(v, Shl(r, i), w + i);
    SplitWindow(v, w + i, g);
    ModXor(Shl(l, w + i), Low(v, w + i), p);
    ModXor(Low(v, w + i), Shl(r, i), p);
    ShlAdd(l, w, i);
    ModShl(Shl(l, w), i, p);
    XorComm(PMod(Shl(l, w + i), p), PMod(Low(v, w + i), p));
  }

  /** First position from which windows of `g` bits cover `n >= 1` excess bits. */
  function TopShift(n: nat, g: nat): (t: nat)
    requires n >= 1 && g >= 1
  {
    TopShiftBounds(n, g);
    ((n - 1) / g) * g
  }

  lemma TopShiftBounds(n: nat, g: nat)
    requires n >= 1 && g >= 1
    ensures 0 <= ((n - 1) / g) * g <= n - 1 < ((n - 1) / g) * g + g
  {
    var q := (n - 1) / g;
    assert n - 1 == q * g + (n - 1) % g;
  }

  /** The reduction loop, from `tshift` down to 0. */
  method ReduceWindows(w: nat, g: nat, reduce: array<nat>, v0: nat, n: nat, ghost p: nat) returns (v: nat)
    requires IsModulus(w, p) && g >= 1 && n >= 1 && Reductions(reduce[..], g, w, p) && v0 < Pow2(w + n)
    ensures v == PMod(v0, p)
  {
    hide PMod, Low, Shl, Shr, Xor, Pow2, Reductions, IsModulus;
    ModulusPositive(w, p);
    TopShiftBounds(n, g);
    v := v0;
    var i: int := TopShift(n, g);
    ghost var k: int := (n - 1) / g;
    Pow2Mono(w + n, w + i + g);
    LowId(v0, w + i + g);
    while i >= 0
      invariant -1 <= k && i == k * g && w + i + g >= 0 && PMod(Low(v, w + i + g), p) == PMod(v0, p)
      decreases k
    {
      NextPosition(k, g);
      ReduceWindow(v, PMod(v0, p), i, g, w, p, reduce[..]);
      var l := Low(Shr(v, w + i), g);
      v := Xor(v, Shl(reduce[l], i));
      i := i - g;
      k := k - 1;
    }
    LastPosition(k, g);
    LowFits(v, w);
    ModFits(Low(v, w), w, p);
    v := Low(v, w);
  }

  lemma NextPosition(k: int, g: nat)
    requires g >= 1 && k * g >= 0 && k >= -1
    ensures k >= 0 && k * g - g == (k - 1) * g && (k - 1) * g + g >= 0
  {
  }

  lemma LastPosition(k: int, g: nat)
    requires g >= 1 && k >= -1 && k * g < 0
    ensures k * g + g == 0
  {
  }

  method MultiplyMixed(w: nat, gs: nat, gr: nat, shift: array<nat>, reduce: array<nat>, a: nat, b: nat, pp: nat, ghost p: nat)
    returns (r: nat)
    requires IsModulus(w, p) && Low(pp, w) == Low(p, w) && 1 <= gs < w && 1 <= gr && a < Pow2(w) && b < Pow2(w)
    requires shift != reduce && shift.Length == Pow2(gs) && Reductions(reduce[..], gr, w, p)
    modifies shift
    ensures r == Mul(a, b, p)
  {
    hide Mul, PMod, Low, Shl, Shr, Xor, Pow2, Multiples, Reductions, IsModulus, Leftover, Unreduced;
    ModulusPositive(w, p);
    FillShift(shift, gs, b, w, pp, p);
    var leftover := Leftover(w, gs);
    ghost var k := LeftoverFits(w, gs);
    FirstWindow(a, b, w, gs, leftover, shift[..], p);
    var ind := Shr(a, w - leftover);
    var v := shift[ind];
    MulFits(Shr(a, w - leftover), b, w, p);
    CollectFirst(v, w, gs, p);
    v := Shl(v, gs);
    var a32 := Low(Shl(a, leftover), w);
    var i: nat := w - leftover;
    AtLeastOne(k, gs, i);
    while i > gs
      invariant gs <= i == k * gs <= w - leftover && a32 == Low(Shl(a, w - i), w) && Multiples(shift[..], Pow2(gs), b, p)
      invariant Unreduced(v, Shl(Mul(Shr(a, i), b, p), gs), w, w - leftover - i + gs, p)
    {
      CollectRound(w, gs, p, a, b, i, v, w - leftover - i + gs, a32, shift[..]);
      ind := Shr(a32, w - gs);
      v := Xor(v, shift[ind]);
      a32 := Low(Shl(a32, gs), w);
      v := Shl(v, gs);
      WindowCount(k, gs);
      i := i - gs;
      k := k - 1;
      AtLeastOne(k, gs, i);
    }
    CollectRound(w, gs, p, a, b, i, v, w - leftover - i + gs, a32, shift[..]);
    ind := Shr(a32, w - gs);
    v := Xor(v, shift[ind]);
    CollectDone(v, a, b, w, w - leftover, p);
    r := ReduceWindows(w, gr, reduce, v, w - leftover, p);
  }

  lemma AtLeastOne(k: nat, g: nat, i: nat)
    requires i == k * g && i > 0
    ensures i >= g
  {
  }

  lemma CollectDone(v: nat, a: nat, b: nat, w: nat, n: nat, p: nat)
    requires IsModulus(w, p) && Unreduced(v, Mul(Shr(a, 0), b, p), w, n, p)
    ensures v < Pow2(w + n) && PMod(v, p) == Mul(a, b, p)
  {
    MulFits(a, b, w, p);
    ModFits(Mul(a, b, p), w, p);
  }

  // ----- w = 64: low window first, unreduced product in two words

  /** `tp << l` spread over two words and added to them. */
  lemma AddSpread(top: nat, bot: nat, tp: nat, l: nat, w: nat)
    requires l <= w
    ensures Join(w, Pair(Xor(top, Shr(tp, w - l)), Xor(bot, Low(Shl(tp, l), w)))) == Xor(Join(w, Pair(top, bot)), Shl(tp, l))
  {
    hide Low, Shl, Shr, Xor;
    var x, y := Shr(tp, w - l), Low(Shl(tp, l), w);
    SplitAt(Shl(tp, l), w);
    TopParts(w, l, tp);
    ShlXor(top, x, w);
    XorSwap(Shl(top, w), Shl(x, w), bot, y);
  }

  lemma BotFits(bot: nat, tp: nat, l: nat, w: nat)
    requires bot < Pow2(w)
    ensures Xor(bot, Low(Shl(tp, l), w)) < Pow2(w)
  {
    LowFits(Shl(tp, l), w);
    XorFits(bot, Low(Shl(tp, l), w), w);
  }

  /** The next window of `a`, counted from the low end. */
  lemma LowWindow(a: nat, n: nat, g: nat, b: nat, w: nat, p: nat, v: nat, shift: seq<nat>)
    requires IsModulus(w, p) && g >= 1 && Multiples(shift, Pow2(g), b, p)
    requires Unreduced(v, PMul(Low(a, n), b), w, n, p)
    ensures Low(Shr(a, n), g) < Pow2(g) <= |shift|
    ensures Unreduced(Xor(v, Shl(shift[Low(Shr(a, n), g)], n)), PMul(Low(a, n + g), b), w, n, p)
  {
    hide *;
    ModulusPositive(w, p);
    var c := Low(Shr(a, n), g);
    LowFits(Shr(a, n), g);
    MultiplesAt(shift, g, b, p, c);
    var s := shift[c];
    UnreducedParts(v, PMul(Low(a, n), b), w, n, p);
    SplitWindow(a, n, g);
    PMulXorLeft(Shl(c, n), Low(a, n), b);
    PMulShl(c, b, n);
    MulUnfold(c, b, p);
    ModShl(PMul(c, b), n, p);
    ModXor(v, Shl(s, n), p);
    ModXor(Shl(PMul(c, b), n), PMul(Low(a, n), b), p);
    XorComm(PMod(v, p), PMod(Shl(s, n), p));
    MulFits(c, b, w, p);
    ShlFits(s, n, w);
    XorFits(v, Shl(s, n), w + n);
    UnreducedJoin(Xor(v, Shl(s, n)), PMul(Low(a, n + g), b), w, n, p);
  }

  lemma MultiplesAt(t: seq<nat>, g: nat, b: nat, p: nat, c: nat)
    requires p > 0 && Multiples(t, Pow2(g), b, p) && c < Pow2(g)
    ensures Pow2(g) <= |t| && t[c] == Mul(c, b, p)
  {
  }

  lemma UnreducedParts(x: nat, target: nat, w: nat, n: nat, p: nat)
    requires p > 0 && Unreduced(x, target, w, n, p)
    ensures PMod(x, p) == PMod(target, p) && x < Pow2(w + n)
  {
  }

  lemma UnreducedJoin(x: nat, target: nat, w: nat, n: nat, p: nat)
    requires p > 0 && PMod(x, p) == PMod(target, p) && x < Pow2(w + n)
    ensures Unreduced(x, target, w, n, p)
  {
  }

  lemma UnreducedGrow(x: nat, target: nat, w: nat, n: nat, m: nat, p: nat)
    requires p > 0 && Unreduced(x, target, w, n, p) && n <= m
    ensures Unreduced(x, target, w, m, p)
  {
    Pow2Mono(w + n, w + m);
  }

  /** First window: nothing to shift yet. */
  lemma LowStart(a: nat, b: nat, g: nat, w: nat, p: nat, shift: seq<nat>)
    requires IsModulus(w, p) && g >= 1 && Multiples(shift, Pow2(g), b, p)
    ensures Low(a, g) < Pow2(g) <= |shift| && shift[Low(a, g)] < Pow2(w)
    ensures shift[Low(a, g)] == Mul(Low(a, g), b, p)
    ensures Unreduced(Join(w, Pair(0, shift[Low(a, g)])), PMul(Low(a, g), b), w, 0, p)
  {
    LowFits(a, g);
    MulFits(Low(a, g), b, w, p);
    ShlZero(w);
    XorZero(shift[Low(a, g)]);
    ModIdem(PMul(Low(a, g), b), p);
  }

  lemma TopWindow(top: nat, bot: nat, w: nat, i: nat)
    requires bot < Pow2(w)
    ensures Shr(Join(w, Pair(top, bot)), w + i) == Shr(top, i)
    ensures Low(Join(w, Pair(top, bot)), w) == bot
  {
    hide Xor, Shl, Shr, Low;
    BitLaws();
    forall k: nat ensures Bit(Shr(Join(w, Pair(top, bot)), w + i), k) == Bit(Shr(top, i), k)
                       && Bit(Low(Join(w, Pair(top, bot)), w), k) == Bit(bot, k) {
      FitsBit(bot, w, k + w + i);
      if k >= w { FitsBit(bot, w, k); }
    }
    BitExt(Shr(Join(w, Pair(top, bot)), w + i), Shr(top, i));
    BitExt(Low(Join(w, Pair(top, bot)), w), bot);
  }

  /** The second loop; the shift by `w` in its last round is undefined in C, so its effect on `top` is arbitrary. */
  method ReducePair(w: nat, g: nat, reduce: array<nat>, top0: nat, bot0: nat, n: nat, ghost p: nat) returns (bot: nat)
    requires IsModulus(w, p) && g >= 1 && 1 <= n <= w && Reductions(reduce[..], g, w, p)
    requires bot0 < Pow2(w) && Join(w, Pair(top0, bot0)) < Pow2(w + n)
    ensures bot == PMod(Join(w, Pair(top0, bot0)), p)
  {
    hide PMod, Low, Shl, Shr, Xor, Pow2, Reductions, IsModulus, Join;
    ModulusPositive(w, p);
    ghost var v0 := Join(w, Pair(top0, bot0));
    var top: nat := top0;
    bot := bot0;
    TopShiftBounds(n, g);
    var i: int := TopShift(n, g);
    ghost var k: int := (n - 1) / g;
    Pow2Mono(w + n, w + i + g);
    LowId(v0, w + i + g);
    while i >= 0
      invariant -1 <= k && i == k * g && i < w && w + i + g >= 0 && bot < Pow2(w)
      invariant PMod(Low(Join(w, Pair(top, bot)), w + i + g), p) == PMod(v0, p)
      decreases k
    {
      NextPosition(k, g);
      TopWindow(top, bot, w, i);
      ReduceWindow(Join(w, Pair(top, bot)), PMod(v0, p), i, g, w, p, reduce[..]);
      var tp := reduce[Low(Shr(top, i), g)];
      AddSpread(top, bot, tp, i, w);
      BotFits(bot, tp, i, w);
      TopWindow(Xor(top, Shr(tp, w - i)), Xor(bot, Low(Shl(tp, i), w)), w, 0);
      bot := Xor(bot, Low(Shl(tp, i), w));
      if i == 0 {
        top := *;
        TopWindow(top, bot, w, 0);
      } else {
        top := Xor(top, Shr(tp, w - i));
      }
      i := i - g;
      k := k - 1;
      if i < 0 { LastPosition(k, g); LowAgain(w, g, k, i); }
    }
    LastPosition(k, g);
    TopWindow(top, bot, w, 0);
    ModFits(bot, w, p);
  }

  lemma LowAgain(w: nat, g: nat, k: int, i: int)
    requires k * g + g == 0 && i == k * g
    ensures w + i + g == w
  {
  }

  method MultiplyLowFirst(w: nat, gs: nat, gr: nat, shift: array<nat>, reduce: array<nat>, a0: nat, b: nat, pp: nat, ghost p: nat)
    returns (r: nat)
    requires IsModulus(w, p) && Low(pp, w) == Low(p, w) && 1 <= gs <= w && 1 <= gr && a0 < Pow2(w) && b < Pow2(w)
    requires shift != reduce && shift.Length == Pow2(gs) && Reductions(reduce[..], gr, w, p)
    modifies shift
    ensures r == Mul(a0, b, p)
  {
    hide Mul, PMod, PMul, Low, Shl, Shr, Xor, Pow2, Multiples, Reductions, IsModulus, Unreduced, Join;
    ModulusPositive(w, p);
    FillShift(shift, gs, b, w, pp, p);
    LowStart(a0, b, gs, w, p, shift[..]);
    var top: nat, bot: nat := 0, shift[Low(a0, gs)];
    var a := Shr(a0, gs);
    if a == 0 { AllRead(a0, gs); return bot; }
    var lshift: nat, rshift: nat := 0, w;
    while true
      invariant lshift + rshift == w && a == Shr(a0, lshift + gs) != 0 && bot < Pow2(w) && Multiples(shift[..], Pow2(gs), b, p)
      invariant Unreduced(Join(w, Pair(top, bot)), PMul(Low(a0, lshift + gs), b), w, lshift, p)
      decreases rshift
    {
      NotAllRead(a0, lshift + gs, w);
      lshift, rshift := lshift + gs, rshift - gs;
      UnreducedGrow(Join(w, Pair(top, bot)), PMul(Low(a0, lshift), b), w, lshift - gs, lshift, p);
      LowWindow(a0, lshift, gs, b, w, p, Join(w, Pair(top, bot)), shift[..]);
      var tp := shift[Low(a, gs)];
      AddSpread(top, bot, tp, lshift, w);
      BotFits(bot, tp, lshift, w);
      top := Xor(top, Shr(tp, rshift));
      bot := Xor(bot, Low(Shl(tp, lshift), w));
      ShrAdd(a0, lshift, gs);
      a := Shr(a, gs);
      if a == 0 { break; }
    }
    AllRead(a0, lshift + gs);
    UnreducedParts(Join(w, Pair(top, bot)), PMul(a0, b), w, lshift, p);
    MulUnfold(a0, b, p);
    r := ReducePair(w, gr, reduce, top, bot, lshift, p);
  }
}
