/**
 Several field elements side by side in one machine word: the `AB2` macro doubles every
 lane at once, and the by-two region routines of w = 4, 8, 16, 32 are built on it
 (`gf_w8_bytwo_init`, `gf_w8_bytwo_p_nosse_multiply_region`,
 `gf_w8_bytwo_b_nosse_multiply_region`, `gf_w4_bytwo_b_nosse_multiply_region`).
 Everything holds for any lane width `w` and any number of lanes `n`.
 */
module Lanes {
  import opened Bits
  import opened Poly
  import opened Multiply
  import opened WordList

  /** The lanes of a word, lowest first. */
  function Split(word: nat, w: nat, n: nat): (ls: seq<nat>)
    ensures |ls| == n
    decreases n
  {
    if n == 0 then [] else [Low(word, w)] + Split(Shr(word, w), w, n - 1)
  }

  lemma {:induction false} SplitValue(word: nat, w: nat, n: nat)
    requires word < Pow2(Width(w, n))
    ensures AreWords(w, Split(word, w, n)) && Value(w, Split(word, w, n)) == word
    decreases n
  {
    if n > 0 {
      ShrFits(word, w, Width(w, n - 1));
      SplitValue(Shr(word, w), w, n - 1);
      LowFits(word, w);
      SplitAt(word, w);
      assert Split(word, w, n)[1..] == Split(Shr(word, w), w, n - 1);
    }
  }

  // ----- the macro

  /** Subtraction of `W`-bit unsigned words, with wrap-around. */
  function Sub(a: nat, b: nat, W: nat): nat
    requires b < Pow2(W)
  {
    if a >= b then a - b else a + Pow2(W) - b
  }

  /** `AB2(ip, am1, am2, b, t1, t2)` on `W`-bit words with lanes of `w` bits. */
  function Ab2(b: nat, ip: nat, m1: nat, m2: nat, w: nat, W: nat): (r: nat)
    requires w >= 1 && b < Pow2(W)
  {
    AndFits(b, m2, W);
    ShrSmaller(And(b, m2), w - 1);
    var t1 := And(Low(2 * b, W), m1);
    var t2 := And(b, m2);
    var t3 := Sub(Low(2 * t2, W), Shr(t2, w - 1), W);
    Xor(t1, And(t3, ip))
  }

  lemma AndFits(a: nat, b: nat, W: nat)
    requires a < Pow2(W)
    ensures And(a, b) < Pow2(W)
  {
    forall i: nat | W <= i ensures !Bit(And(a, b), i) { BitAnd(a, b, i); FitsBit(a, W, i); }
    BitsFit(And(a, b), W);
  }

  lemma {:induction false} ShrSmaller(a: nat, k: nat)
    ensures Shr(a, k) <= a
    decreases k
  {
    if k > 0 { ShrSmaller(a / 2, k - 1); }
  }

  // ----- lists of lanes

  /** `n` copies of the same lane. */
  function Copies(l: nat, n: nat): (ls: seq<nat>)
    ensures |ls| == n
  {
    if n == 0 then [] else [l] + Copies(l, n - 1)
  }

  function AndLanes(u: seq<nat>, v: seq<nat>): (r: seq<nat>)
    requires |u| == |v|
    ensures |r| == |u|
  {
    if u == [] then [] else [And(u[0], v[0])] + AndLanes(u[1..], v[1..])
  }

  /** Top bit of each lane, as 0 or 1. */
  function Tops(ls: seq<nat>, w: nat): (r: seq<nat>)
    requires w >= 1
    ensures |r| == |ls|
  {
    if ls == [] then [] else [if Bit(ls[0], w - 1) then 1 else 0] + Tops(ls[1..], w)
  }

  /** All ones in the lanes whose flag is set. */
  function Spread(flags: seq<nat>, w: nat): (r: seq<nat>)
    ensures |r| == |flags|
  {
    if flags == [] then [] else [if flags[0] == 1 then Pow2(w) - 1 else 0] + Spread(flags[1..], w)
  }

  function ShlLanes(ls: seq<nat>, k: nat): (r: seq<nat>)
    ensures |r| == |ls|
  {
    if ls == [] then [] else [Shl(ls[0], k)] + ShlLanes(ls[1..], k)
  }

  function Doubled(ls: seq<nat>, w: nat, p: nat): (r: seq<nat>)
    requires w >= 1
    ensures |r| == |ls|
  {
    if ls == [] then [] else [MulX(ls[0], w, p)] + Doubled(ls[1..], w, p)
  }

  lemma {:induction false} CopiesWords(l: nat, n: nat, w: nat)
    requires l < Pow2(w)
    ensures AreWords(w, Copies(l, n))
  {
    if n > 0 { CopiesWords(l, n - 1, w); }
  }

  lemma {:induction false} ValueAnd(w: nat, u: seq<nat>, v: seq<nat>)
    requires |u| == |v| && AreWords(w, u) && AreWords(w, v)
    ensures AreWords(w, AndLanes(u, v))
    ensures Value(w, AndLanes(u, v)) == And(Value(w, u), Value(w, v))
  {
    if u == [] {
    } else {
      ValueAnd(w, u[1..], v[1..]);
      assert AndLanes(u, v)[1..] == AndLanes(u[1..], v[1..]);
      AndFits(u[0], v[0], w);
      AndParts(w, Value(w, u[1..]), u[0], Value(w, v[1..]), v[0]);
    }
  }

  lemma AndParts(w: nat, x: nat, l: nat, y: nat, m: nat)
    requires l < Pow2(w) && m < Pow2(w)
    ensures Xor(Shl(And(x, y), w), And(l, m)) == And(Xor(Shl(x, w), l), Xor(Shl(y, w), m))
  {
    var a, b := Xor(Shl(And(x, y), w), And(l, m)), And(Xor(Shl(x, w), l), Xor(Shl(y, w), m));
    AndFits(l, m, w);
    hide Xor, Shl, And;
    forall i: nat ensures Bit(a, i) == Bit(b, i) {
      BitAnd(Xor(Shl(x, w), l), Xor(Shl(y, w), m), i);
      PartBit(w, x, l, i); PartBit(w, y, m, i); PartBit(w, And(x, y), And(l, m), i);
      BitAnd(l, m, i);
      if i >= w { BitAnd(x, y, i - w); }
    }
    BitExt(a, b);
  }

  lemma {:induction false} ValueShlLanes(w: nat, ls: seq<nat>, k: nat)
    ensures Value(w, ShlLanes(ls, k)) == Shl(Value(w, ls), k)
  {
    if ls == [] {
      ShlZero(k);
    } else {
      ValueShlLanes(w, ls[1..], k);
      assert ShlLanes(ls, k)[1..] == ShlLanes(ls[1..], k);
      var x := Value(w, ls[1..]);
      ShlAdd(x, k, w); ShlAdd(x, w, k);
      ShlXor(Shl(x, w), ls[0], k);
    }
  }

  // ----- the three masks

  lemma {:induction false} LowBitMask(x: nat, w: nat)
    requires w >= 1 && x < Pow2(w)
    ensures And(x, Pow2(w) - 2) == x - x % 2
    decreases w
  {
    if w == 1 {
      assert Pow2(1) == 2;
      AndZero(x);
    } else if x > 0 {
      assert (Pow2(w) - 2) / 2 == Pow2(w - 1) - 1;
      OnesMask(x / 2, w - 1);
    }
  }

  lemma {:induction false} AndZero(x: nat)
    ensures And(x, 0) == 0
  {
    if x > 0 { AndZero(x / 2); }
  }

  lemma {:induction false} OnesMask(x: nat, w: nat)
    requires x < Pow2(w)
    ensures And(x, Pow2(w) - 1) == x && And(Pow2(w) - 1, x) == x
    decreases w
  {
    if w == 0 {
      AndZero(0);
    } else {
      assert (Pow2(w) - 1) / 2 == Pow2(w - 1) - 1;
      OnesMask(x / 2, w - 1);
    }
  }

  lemma TopMask(x: nat, w: nat)
    requires w >= 1 && x < Pow2(w)
    ensures And(x, Pow2(w - 1)) == if Bit(x, w - 1) then Pow2(w - 1) else 0
  {
    hide And, Pow2;
    var r := if Bit(x, w - 1) then Pow2(w - 1) else 0;
    forall i: nat ensures Bit(And(x, Pow2(w - 1)), i) == Bit(r, i) {
      BitAnd(x, Pow2(w - 1), i);
      BitPow2(w - 1, i);
      BitZero(i);
    }
    BitExt(And(x, Pow2(w - 1)), r);
  }

  /** `(b << 1) & mask1`: every lane shifted, the bit carried in from below removed. */
  lemma {:induction false} ShiftedLanes(w: nat, ls: seq<nat>, carry: nat)
    requires w >= 1 && AreWords(w, ls) && carry < 2
    ensures AndLanes(ShiftLeft(w, ls, carry), Copies(Pow2(w) - 2, |ls|)) == DroppedTops(ls, w)
  {
    if ls != [] {
      var c := if Bit(ls[0], w - 1) then 1 else 0;
      ShiftedLanes(w, ls[1..], c);
      assert ShiftLeft(w, ls, carry)[1..] == ShiftLeft(w, ls[1..], c);
      assert Copies(Pow2(w) - 2, |ls|)[1..] == Copies(Pow2(w) - 2, |ls| - 1);
      ClearCarry(ls[0], carry, w);
    }
  }

  function DroppedTops(ls: seq<nat>, w: nat): (r: seq<nat>)
    ensures |r| == |ls|
  {
    if ls == [] then [] else [Low(2 * ls[0], w)] + DroppedTops(ls[1..], w)
  }

  lemma ClearCarry(l: nat, carry: nat, w: nat)
    requires w >= 1 && carry < 2
    ensures And(Xor(Low(2 * l, w), carry), Pow2(w) - 2) == Low(2 * l, w)
  {
    var x := Low(2 * l, w);
    LowFits(2 * l, w);
    Pow2Mono(1, w);
    XorFits(x, carry, w);
    assert x == 2 * Low(l, w - 1);
    XorAppend(Low(l, w - 1), 0, carry);
    XorZero(Low(l, w - 1));
    LowBitMask(Xor(x, carry), w);
    Halves(carry + 2 * Low(l, w - 1), carry, Low(l, w - 1));
  }

  /** `b & mask2`, as shifted flags. */
  lemma {:induction false} TopLanes(w: nat, ls: seq<nat>)
    requires w >= 1 && AreWords(w, ls)
    ensures AndLanes(ls, Copies(Pow2(w - 1), |ls|)) == ShlLanes(Tops(ls, w), w - 1)
  {
    if ls != [] {
      TopLanes(w, ls[1..]);
      assert Copies(Pow2(w - 1), |ls|)[1..] == Copies(Pow2(w - 1), |ls| - 1);
      TopMask(ls[0], w);
      ShlOne(w - 1); ShlZero(w - 1);
    }
  }

  lemma {:induction false} ShlPlus(a: nat, b: nat, k: nat)
    ensures Shl(a + b, k) == Shl(a, k) + Shl(b, k)
  {
    if k > 0 { ShlPlus(a, b, k - 1); }
  }

  lemma {:induction false} FlagsAreWords(w: nat, ls: seq<nat>)
    requires w >= 1
    ensures AreWords(w, Tops(ls, w)) && AreWords(w, Spread(Tops(ls, w), w))
    ensures forall i :: 0 <= i < |ls| ==> Tops(ls, w)[i] < 2
  {
    Pow2Mono(1, w);
    if ls != [] { FlagsAreWords(w, ls[1..]); }
  }

  /** The subtraction never borrows across lanes: `flags << w` minus `flags` is the spread mask. */
  lemma {:induction false} SpreadValue(w: nat, flags: seq<nat>)
    requires w >= 1 && AreWords(w, flags) && AreWords(w, Spread(flags, w)) && forall i :: 0 <= i < |flags| ==> flags[i] < 2
    ensures Value(w, Spread(flags, w)) + Value(w, flags) == Shl(Value(w, flags), w)
  {
    hide Xor, Shl;
    if flags == [] {
      ShlZero(w);
    } else {
      var t := flags[1..];
      assert Spread(flags, w)[1..] == Spread(t, w);
      SpreadValue(w, t);
      ValueStep(w, flags); ValueStep(w, Spread(flags, w));
      var x, y := Value(w, t), Value(w, Spread(t, w));
      ShlPlus(y, x, w);
      ShlPlus(Shl(x, w), flags[0], w);
      ShlOne(w); ShlZero(w);
    }
  }

  lemma {:induction false} LowCarry(a: nat, W: nat)
    requires a < Pow2(W + 1)
    ensures Low(a, W) == if a < Pow2(W) then a else a - Pow2(W)
    decreases W
  {
    if W > 0 { LowCarry(a / 2, W - 1); }
  }

  /** Wrap-around in the top lane cancels out. */
  lemma WrapSub(m: nat, f: nat, W: nat)
    requires m < Pow2(W) && f < Pow2(W)
    ensures Sub(Low(m + f, W), f, W) == m
  {
    LowCarry(m + f, W);
  }

  /** `t2 & ip` keeps the modulus in the flagged lanes; together with the shift that doubles every lane. */
  lemma {:induction false} CombineLanes(w: nat, ls: seq<nat>, p: nat)
    requires IsModulus(w, p) && AreWords(w, ls)
    ensures XorWords(DroppedTops(ls, w), AndLanes(Spread(Tops(ls, w), w), Copies(Low(p, w), |ls|))) == Doubled(ls, w, p)
  {
    if ls != [] {
      CombineLanes(w, ls[1..], p);
      assert Copies(Low(p, w), |ls|)[1..] == Copies(Low(p, w), |ls| - 1);
      assert Spread(Tops(ls, w), w)[1..] == Spread(Tops(ls[1..], w), w);
      CombineLane(w, ls[0], p);
    }
  }

  lemma CombineLane(w: nat, l: nat, p: nat)
    requires IsModulus(w, p) && l < Pow2(w)
    ensures Xor(Low(2 * l, w), And(if Bit(l, w - 1) then Pow2(w) - 1 else 0, Low(p, w))) == MulX(l, w, p)
  {
    hide Xor, And, Low, PMod, PMul;
    LowFits(p, w); LowLowId(p, w);
    OnesMask(Low(p, w), w);
    AndOfZero(Low(p, w));
    MulXTruncated(l, w, p, Low(p, w));
    LowXor(2 * l, Low(p, w), w);
    XorZero(Low(2 * l, w));
    if !Bit(l, w - 1) {
      MulXIsMul(l, w, p);
      LowId(2 * l, w);
    }
  }

  lemma AndOfZero(x: nat)
    ensures And(0, x) == 0
  {
  }

  lemma LowLowId(p: nat, w: nat)
    ensures Low(Low(p, w), w) == Low(p, w)
  {
    LowFits(p, w);
    LowId(Low(p, w), w);
  }

  /** The words the initialisation replicates over the lanes. */
  ghost predicate Masks(ip: nat, m1: nat, m2: nat, w: nat, n: nat, p: nat)
    requires w >= 1
  {
    && ip == Value(w, Copies(Low(p, w), n))
    && m1 == Value(w, Copies(Pow2(w) - 2, n))
    && m2 == Value(w, Copies(Pow2(w - 1), n))
  }

  /** `AB2` multiplies every lane by `x`. */
  lemma Ab2Doubles(ls: seq<nat>, ip: nat, m1: nat, m2: nat, w: nat, p: nat)
    requires IsModulus(w, p) && AreWords(w, ls) && Masks(ip, m1, m2, w, |ls|, p)
    ensures Value(w, ls) < Pow2(Width(w, |ls|))
    ensures Ab2(Value(w, ls), ip, m1, m2, w, Width(w, |ls|)) == Value(w, Doubled(ls, w, p))
  {
    hide *;
    ModulusPositive(w, p);
    var n, b, W := |ls|, Value(w, ls), Width(w, |ls|);
    ValueFits(w, ls);
    MaskParts(ip, m1, m2, w, n, p);
    // t1
    ShiftLeftWords(w, ls, 0); ShiftLeftValue(w, ls, 0);
    ValueAnd(w, ShiftLeft(w, ls, 0), Copies(Pow2(w) - 2, n));
    ShiftedLanes(w, ls, 0);
    // t2
    var flags := Tops(ls, w);
    ValueAnd(w, ls, Copies(Pow2(w - 1), n));
    TopLanes(w, ls);
    ValueShlLanes(w, flags, w - 1);
    var f := Value(w, flags);
    ShrOfShl(f, w - 1);
    DoubleShl(f, w);
    FlagsAreWords(w, ls);
    SpreadValue(w, flags);
    ValueFits(w, flags); ValueFits(w, Spread(flags, w));
    WrapSub(Value(w, Spread(flags, w)), f, W);
    // t2 & ip, and the sum
    ValueAnd(w, Spread(flags, w), Copies(Low(p, w), n));
    ValueXor(w, DroppedTops(ls, w), AndLanes(Spread(flags, w), Copies(Low(p, w), n)));
    CombineLanes(w, ls, p);
    Ab2Unfold(b, ip, m1, m2, w, W);
  }

  lemma Ab2Unfold(b: nat, ip: nat, m1: nat, m2: nat, w: nat, W: nat)
    requires w >= 1 && b < Pow2(W)
    ensures And(b, m2) < Pow2(W) && Shr(And(b, m2), w - 1) < Pow2(W)
    ensures Ab2(b, ip, m1, m2, w, W)
            == Xor(And(Low(2 * b, W), m1), And(Sub(Low(2 * And(b, m2), W), Shr(And(b, m2), w - 1), W), ip))
  {
    AndFits(b, m2, W);
    ShrSmaller(And(b, m2), w - 1);
  }

  lemma ShrOfShl(f: nat, k: nat)
    ensures Shr(Shl(f, k), k) == f
  {
    hide Shl, Shr;
    BitLaws();
    BitExt(Shr(Shl(f, k), k), f);
  }

  lemma DoubleShl(f: nat, w: nat)
    requires w >= 1
    ensures 2 * Shl(f, w - 1) == Shl(f, w)
  {
  }

  lemma MaskParts(ip: nat, m1: nat, m2: nat, w: nat, n: nat, p: nat)
    requires IsModulus(w, p) && Masks(ip, m1, m2, w, n, p)
    ensures ip == Value(w, Copies(Low(p, w), n)) && AreWords(w, Copies(Low(p, w), n))
    ensures Pow2(w) >= 2 && m1 == Value(w, Copies(Pow2(w) - 2, n)) && AreWords(w, Copies(Pow2(w) - 2, n))
    ensures m2 == Value(w, Copies(Pow2(w - 1), n)) && AreWords(w, Copies(Pow2(w - 1), n))
  {
    LowFits(p, w);
    Pow2Mono(1, w); Pow2Mono(w - 1, w);
    CopiesWords(Low(p, w), n, w); CopiesWords(Pow2(w) - 2, n, w); CopiesWords(Pow2(w - 1), n, w);
  }

  // ----- initialisation

  /** The data of the by-two implementations: modulus and masks, replicated. */
  datatype Bytwo = Bytwo(w: nat, n: nat, ip: nat, m1: nat, m2: nat)

  function Wide(l: nat, w: nat, t: nat): nat {
    Value(w, Copies(l, t))
  }

  lemma {:induction false} CopiesAppend(l: nat, n: nat)
    ensures Copies(l, n) + [l] == Copies(l, n + 1)
  {
    if n > 0 {
      CopiesAppend(l, n - 1);
      assert Copies(l, n) + [l] == [l] + (Copies(l, n - 1) + [l]);
    }
  }

  /** Setting one more copy; the bits were clear, so C's `|=` is an exclusive or. */
  lemma WideNext(l: nat, w: nat, t: nat)
    requires l < Pow2(w)
    ensures Wide(l, w, t + 1) == Xor(Wide(l, w, t), Shl(l, Width(w, t)))
    ensures Wide(l, w, t) < Pow2(Width(w, t))
  {
    var c := Copies(l, t);
    CopiesWords(l, t, w); CopiesWords(l, t + 1, w);
    CopiesAppend(l, t);
    assert (c + [l])[..t] == c && (c + [l])[t..] == [l];
    ValueSplit(w, c + [l], t);
    ValueOne(w, l);
    XorComm(Shl(l, Width(w, t)), Value(w, c));
    ValueFits(w, c);
  }

  /** The shifted pattern: exact while it fits, gone after the last lane. */
  lemma PatternNext(l: nat, w: nat, t: nat, n: nat)
    requires l < Pow2(w) && t < n
    ensures Low(Shl(Shl(l, Width(w, t)), w), Width(w, n)) == if t + 1 < n then Shl(l, Width(w, t + 1)) else 0
    ensures Shl(l, Width(w, t)) == 0 <==> l == 0
  {
    hide Shl, Low, Pow2;
    ShlAdd(l, Width(w, t), w);
    ShlZero(Width(w, t));
    if l > 0 { LenShl(l, Width(w, t)); }
    if t + 1 < n {
      ShlFits(l, Width(w, t + 1), w);
      WidthGrows(w, t + 2, n);
      Pow2Mono(Width(w, t + 2), Width(w, n));
      LowId(Shl(l, Width(w, t + 1)), Width(w, n));
    } else {
      LowOfShl(l, Width(w, n));
    }
  }

  lemma {:induction false} WidthGrows(w: nat, i: nat, j: nat)
    requires i <= j
    ensures Width(w, i) <= Width(w, j)
  {
    if i < j { WidthGrows(w, i, j - 1); }
  }

  /** `gf_w8_bytwo_init`: the loop runs until the modulus pattern has left the word. */
  method Init(w: nat, n: nat, p: nat) returns (d: Bytwo)
    requires IsModulus(w, p) && n >= 1
    ensures d.w == w && d.n == n
    ensures Low(p, w) != 0 ==> Masks(d.ip, d.m1, d.m2, w, n, p)
    ensures Low(p, w) == 0 ==> d.ip == d.m1 == d.m2 == 0
  {
    hide Value, Low, Shl, Xor, Copies, Wide, PMod, PMul, Width, IsModulus;
    ModulusPositive(w, p);
    ghost var W := Width(w, n);
    ghost var l, a, b := Low(p, w), Pow2(w) - 2, Pow2(w - 1);
    LowFits(p, w); Pow2Mono(w - 1, w);
    var ip, m1, m2 := Low(p, w), Pow2(w) - 2, Pow2(w - 1);
    var rip: nat, r1: nat, r2: nat := 0, 0, 0;
    ghost var t: nat := 0;
    WideZero(l, w); WideZero(a, w); WideZero(b, w);
    while ip != 0
      invariant t <= n && (l == 0 ==> t == 0)
      invariant t < n ==> ip == Shl(l, Width(w, t)) && m1 == Shl(a, Width(w, t)) && m2 == Shl(b, Width(w, t))
      invariant t == n ==> ip == 0
      invariant rip == Wide(l, w, t) && r1 == Wide(a, w, t) && r2 == Wide(b, w, t)
      decreases n - t
    {
      WideNext(l, w, t); WideNext(a, w, t); WideNext(b, w, t);
      PatternNext(l, w, t, n); PatternNext(a, w, t, n); PatternNext(b, w, t, n);
      rip := Xor(rip, ip);
      r1 := Xor(r1, m1);
      r2 := Xor(r2, m2);
      ip := Low(Shl(ip, w), Width(w, n));
      m1 := Low(Shl(m1, w), Width(w, n));
      m2 := Low(Shl(m2, w), Width(w, n));
      t := t + 1;
    }
    if t < n { PatternNext(l, w, t, n); }
    WideMasks(w, n, p);
    d := Bytwo(w, n, rip, r1, r2);
  }

  lemma WideZero(l: nat, w: nat)
    ensures Wide(l, w, 0) == 0 && Shl(l, Width(w, 0)) == l
  {
  }

  lemma WideMasks(w: nat, n: nat, p: nat)
    requires IsModulus(w, p)
    ensures Pow2(w) >= 2 && Masks(Wide(Low(p, w), w, n), Wide(Pow2(w) - 2, w, n), Wide(Pow2(w - 1), w, n), w, n, p)
  {
  }

  /**
   For the polynomial `x^w`, whose low bits are all zero, the loop does not run at all
   and `AB2` clears the word: the initialisation is right exactly when the low bits of
   the polynomial are not all zero.
   */
  lemma InitExact(d: Bytwo, p: nat)
    requires IsModulus(d.w, p) && d.w >= 2 && d.n >= 1
    requires if Low(p, d.w) != 0 then Masks(d.ip, d.m1, d.m2, d.w, d.n, p) else d.ip == d.m1 == d.m2 == 0
    ensures (forall ls :: |ls| == d.n && AreWords(d.w, ls) ==> DoublesLanes(d, ls, p)) <==> Low(p, d.w) != 0
  {
    if Low(p, d.w) != 0 {
      forall ls | |ls| == d.n && AreWords(d.w, ls) ensures DoublesLanes(d, ls, p) {
        Ab2Doubles(ls, d.ip, d.m1, d.m2, d.w, p);
      }
    } else {
      var ls := Copies(1, d.n);
      Pow2Mono(1, d.w);
      CopiesWords(1, d.n, d.w);
      ZeroMasks(d, ls, p);
      assert !DoublesLanes(d, ls, p);
    }
  }

  ghost predicate DoublesLanes(d: Bytwo, ls: seq<nat>, p: nat)
    requires d.w >= 1
  {
    var W := Width(d.w, |ls|);
    Value(d.w, ls) < Pow2(W) && Ab2(Value(d.w, ls), d.ip, d.m1, d.m2, d.w, W) == Value(d.w, Doubled(ls, d.w, p))
  }

  lemma ZeroMasks(d: Bytwo, ls: seq<nat>, p: nat)
    requires d.w >= 2 && ls == Copies(1, |ls|) && |ls| >= 1 && AreWords(d.w, ls) && d.ip == d.m1 == d.m2 == 0
    requires IsModulus(d.w, p)
    ensures !DoublesLanes(d, ls, p)
  {
    hide Value, Width, Ab2, Doubled, Copies;
    var W, b := Width(d.w, |ls|), Value(d.w, ls);
    if b < Pow2(W) {
      ClearedByZeroMasks(b, d.w, W);
      FirstCopy(|ls|);
      DoubledFirst(ls, d.w, p);
    }
  }

  lemma FirstCopy(n: nat)
    requires n >= 1
    ensures Copies(1, n)[0] == 1
  {
  }

  lemma ClearedByZeroMasks(b: nat, w: nat, W: nat)
    requires w >= 1 && b < Pow2(W)
    ensures Ab2(b, 0, 0, 0, w, W) == 0
  {
    hide *;
    Ab2Unfold(b, 0, 0, 0, w, W);
    AndZero(Low(2 * b, W));
    AndZero(Sub(Low(2 * And(b, 0), W), Shr(And(b, 0), w - 1), W));
    XorZero(0);
  }

  lemma DoubledFirst(ls: seq<nat>, w: nat, p: nat)
    requires w >= 2 && |ls| >= 1 && ls[0] == 1 && AreWords(w, ls) && IsModulus(w, p)
    ensures Value(w, Doubled(ls, w, p)) != 0
  {
    DoubledWords(ls, w, p);
    if Value(w, Doubled(ls, w, p)) == 0 {
      ZeroValue(w, Doubled(ls, w, p));
      BitZero(w - 2);
      assert !Bit(1, w - 1);
    }
  }

  lemma {:induction false} DoubledWords(ls: seq<nat>, w: nat, p: nat)
    requires IsModulus(w, p) && AreWords(w, ls)
    ensures AreWords(w, Doubled(ls, w, p))
  {
    if ls != [] {
      DoubledWords(ls[1..], w, p);
      MulXIsMul(ls[0], w, p);
    }
  }

  // ----- whole words as lists of multiples

  function Scaled(ls: seq<nat>, c: nat, p: nat): (r: seq<nat>)
    requires p > 0
    ensures |r| == |ls|
  {
    if ls == [] then [] else [Mul(c, ls[0], p)] + Scaled(ls[1..], c, p)
  }

  lemma {:induction false} ScaledWords(ls: seq<nat>, c: nat, w: nat, p: nat)
    requires IsModulus(w, p)
    ensures AreWords(w, Scaled(ls, c, p))
  {
    if ls != [] {
      ScaledWords(ls[1..], c, w, p);
      MulFits(c, ls[0], w, p);
    }
  }

  lemma {:induction false} ScaledDouble(ls: seq<nat>, c: nat, w: nat, p: nat)
    requires IsModulus(w, p)
    ensures Doubled(Scaled(ls, c, p), w, p) == Scaled(ls, 2 * c, p)
  {
    if ls != [] {
      ScaledDouble(ls[1..], c, w, p);
      assert Scaled(ls, c, p)[1..] == Scaled(ls[1..], c, p);
      MulFits(c, ls[0], w, p);
      MulXIsMul(Mul(c, ls[0], p), w, p);
      HornerDouble(c, ls[0], p);
    }
  }

  lemma {:induction false} ScaledXor(ls: seq<nat>, a: nat, b: nat, p: nat)
    requires p > 0
    ensures XorWords(Scaled(ls, a, p), Scaled(ls, b, p)) == Scaled(ls, Xor(a, b), p)
  {
    if ls != [] {
      ScaledXor(ls[1..], a, b, p);
      assert Scaled(ls, a, p)[1..] == Scaled(ls[1..], a, p);
      assert Scaled(ls, b, p)[1..] == Scaled(ls[1..], b, p);
      MulXor(a, b, ls[0], p);
    }
  }

  lemma {:induction false} ScaledOne(ls: seq<nat>, w: nat, p: nat)
    requires IsModulus(w, p) && AreWords(w, ls)
    ensures Scaled(ls, 1, p) == ls
  {
    if ls != [] {
      ScaledOne(ls[1..], w, p);
      MulOne(ls[0], w, p);
    }
  }

  lemma {:induction false} ScaledZero(ls: seq<nat>, w: nat, p: nat)
    requires p > 0
    ensures Value(w, Scaled(ls, 0, p)) == 0
  {
    if ls != [] {
      ScaledZero(ls[1..], w, p);
      assert Scaled(ls, 0, p)[1..] == Scaled(ls[1..], 0, p);
      MulZero(ls[0], p);
      ShlZero(w); XorZero(0);
    }
  }

  /** The word whose lanes are `c` times the lanes of `word`. */
  function Times(word: nat, c: nat, w: nat, n: nat, p: nat): (r: nat)
    requires p > 0
  {
    Value(w, Scaled(Split(word, w, n), c, p))
  }

  ghost predicate Ready(d: Bytwo, p: nat) {
    IsModulus(d.w, p) && Masks(d.ip, d.m1, d.m2, d.w, d.n, p)
  }

  function Double(d: Bytwo, b: nat): nat
    requires d.w >= 1 && b < Pow2(Width(d.w, d.n))
  {
    Ab2(b, d.ip, d.m1, d.m2, d.w, Width(d.w, d.n))
  }

  /** Exclusive or and `AB2` act on the factor alone, without reduction. */
  lemma TimesLaws(d: Bytwo, p: nat, word: nat, a: nat, b: nat)
    requires Ready(d, p) && word < Pow2(Width(d.w, d.n))
    ensures d.w >= 1 && p > 0 && Times(word, a, d.w, d.n, p) < Pow2(Width(d.w, d.n))
    ensures Double(d, Times(word, a, d.w, d.n, p)) == Times(word, 2 * a, d.w, d.n, p)
    ensures Xor(Times(word, a, d.w, d.n, p), Times(word, b, d.w, d.n, p)) == Times(word, Xor(a, b), d.w, d.n, p)
    ensures Times(word, 1, d.w, d.n, p) == word && Times(word, 0, d.w, d.n, p) == 0
  {
    var w, ls := d.w, Split(word, d.w, d.n);
    SplitValue(word, w, d.n);
    ScaledWords(ls, a, w, p); ScaledWords(ls, b, w, p);
    Ab2Doubles(Scaled(ls, a, p), d.ip, d.m1, d.m2, w, p);
    ScaledDouble(ls, a, w, p);
    ValueXor(w, Scaled(ls, a, p), Scaled(ls, b, p));
    ScaledXor(ls, a, b, p);
    ScaledOne(ls, w, p);
    ScaledZero(ls, w, p);
  }

  // ----- one word of the by-two regions

  /** `BYTWO_p`: high bit of the multiplier first. */
  method WordFromTop(d: Bytwo, ghost p: nat, word: nat, val: nat) returns (prod: nat)
    requires Ready(d, p) && word < Pow2(Width(d.w, d.n)) && val < Pow2(d.w)
    ensures p > 0 && prod == Times(word, val, d.w, d.n, p)
  {
    hide *;
    TimesLaws(d, p, word, 0, 0);
    prod := 0;
    var j: nat := d.w;
    ShrFits(val, d.w, 0); BottomStart(val);
    while j > 0
      invariant j <= d.w && prod == Times(word, Shr(val, j), d.w, d.n, p)
    {
      j := j - 1;
      ghost var c := Shr(val, j + 1);
      TimesLaws(d, p, word, c, 0);
      TimesLaws(d, p, word, 2 * c, 1);
      NextBit(val, j);
      prod := Double(d, prod);
      if Bit(val, j) { prod := Xor(prod, word); }
    }
  }

  lemma NextBit(val: nat, j: nat)
    ensures Shr(val, j) == if Bit(val, j) then Xor(2 * Shr(val, j + 1), 1) else 2 * Shr(val, j + 1)
  {
    var s := Shr(val, j);
    ShrNext(val, j);
    LowBit(s);
    XorComm(s % 2, 2 * (s / 2));
    XorZero(2 * (s / 2));
  }

  /** `BYTWO_b`: low bit first, stopping when the multiplier is used up. */
  method WordFromBottom(d: Bytwo, ghost p: nat, word: nat, val: nat, acc: nat) returns (prod: nat)
    requires Ready(d, p) && word < Pow2(Width(d.w, d.n))
    ensures p > 0 && prod == Xor(acc, Times(word, val, d.w, d.n, p))
  {
    hide *;
    TimesLaws(d, p, word, 1, 0);
    prod := acc;
    var ta: nat, tb: nat := word, val;
    ghost var j: nat := 0;
    BottomStart(val);
    XorZero(acc);
    while true
      invariant ta == Times(word, Pow2(j), d.w, d.n, p) && tb == Shr(val, j)
      invariant prod == Xor(acc, Times(word, Low(val, j), d.w, d.n, p))
      decreases tb
    {
      TimesLaws(d, p, word, Low(val, j), Pow2(j));
      LowNext(val, j);
      ShrNext(val, j);
      XorAssoc(acc, Times(word, Low(val, j), d.w, d.n, p), ta);
      if tb % 2 == 1 { prod := Xor(prod, ta); }
      tb := tb / 2;
      if tb == 0 {
        AllRead(val, j + 1);
        return;
      }
      TimesLaws(d, p, word, Pow2(j), 0);
      Pow2Next(j);
      ta := Double(d, ta);
      j := j + 1;
    }
  }

  lemma BottomStart(val: nat)
    ensures Low(val, 0) == 0 && Shr(val, 0) == val && Pow2(0) == 1
  {
  }

  lemma Pow2Next(j: nat)
    ensures Pow2(j + 1) == 2 * Pow2(j)
  {
  }

  /** The hand-unrolled cases of w = 4, statement by statement; other multipliers do not occur. */
  method WordUnrolled(d: Bytwo, ghost p: nat, word: nat, val: nat) returns (r: nat)
    requires Ready(d, p) && word < Pow2(Width(d.w, d.n)) && 2 <= val < 16
    ensures p > 0 && r == Times(word, val, d.w, d.n, p)
  {
    hide *;
    ghost var n, w := d.n, d.w;
    var ta := word;
    TimesLaws(d, p, word, 1, 2);
    TimesLaws(d, p, word, 2, 1); TimesLaws(d, p, word, 4, 1); TimesLaws(d, p, word, 4, 2); TimesLaws(d, p, word, 4, 3);
    TimesLaws(d, p, word, 8, 1); TimesLaws(d, p, word, 8, 2); TimesLaws(d, p, word, 8, 3); TimesLaws(d, p, word, 8, 4);
    TimesLaws(d, p, word, 8, 5); TimesLaws(d, p, word, 8, 6); TimesLaws(d, p, word, 8, 7);
    TimesLaws(d, p, word, 3, 4); TimesLaws(d, p, word, 1, 4); TimesLaws(d, p, word, 2, 4);
    XorTable();
    var x2 := Double(d, ta);
    if val == 2 { return x2; }
    if val == 3 { return Xor(x2, ta); }
    var x4 := Double(d, x2);
    if val == 4 { return x4; }
    if val == 5 { return Xor(x4, ta); }
    if val == 6 { return Xor(x4, x2); }
    if val == 7 { return Xor(x4, Xor(ta, x2)); }
    var x8 := Double(d, x4);
    if val == 8 { return x8; }
    if val == 9 { return Xor(x8, ta); }
    if val == 10 { return Xor(x8, x2); }
    if val == 11 { return Xor(x8, Xor(ta, x2)); }
    if val == 12 { return Xor(x8, x4); }
    if val == 13 { return Xor(x8, Xor(ta, x4)); }
    if val == 14 { return Xor(x8, Xor(x2, x4)); }
    r := Xor(x8, Xor(Xor(ta, x2), x4));
  }

  lemma XorTable()
    ensures Xor(2, 1) == 3 == Xor(1, 2) && Xor(4, 1) == 5 == Xor(1, 4) && Xor(4, 2) == 6 == Xor(2, 4) && Xor(4, 3) == 7 == Xor(3, 4)
    ensures Xor(8, 1) == 9 && Xor(8, 2) == 10 && Xor(8, 3) == 11 && Xor(8, 4) == 12 && Xor(8, 5) == 13 && Xor(8, 6) == 14 && Xor(8, 7) == 15
  {
  }

  // ----- regions of words

  /** The word loop shared by the by-two regions; `top` selects `BYTWO_p`. */
  method MultiplyRegion(d: Bytwo, ghost p: nat, src: array<nat>, dest: array<nat>, val: nat, xor: bool, top: bool)
    requires Ready(d, p) && val < Pow2(d.w) && src.Length == dest.Length
    requires forall i :: 0 <= i < src.Length ==> src[i] < Pow2(Width(d.w, d.n))
    modifies dest
    ensures p > 0
    ensures forall i :: 0 <= i < dest.Length ==>
              dest[i] == if xor then Xor(old(dest[i]), Times(old(src[i]), val, d.w, d.n, p)) else Times(old(src[i]), val, d.w, d.n, p)
  {
    hide *;
    ReadyPositive(d, p);
    for i := 0 to dest.Length
      invariant forall j :: i <= j < dest.Length ==> dest[j] == old(dest[j]) && src[j] == old(src[j])
      invariant forall j :: 0 <= j < i ==>
                  dest[j] == if xor then Xor(old(dest[j]), Times(old(src[j]), val, d.w, d.n, p)) else Times(old(src[j]), val, d.w, d.n, p)
    {
      var r;
      XorZero(Times(src[i], val, d.w, d.n, p));
      if top {
        r := WordFromTop(d, p, src[i], val);
        if xor { r := Xor(dest[i], r); }
      } else {
        r := WordFromBottom(d, p, src[i], val, if xor then dest[i] else 0);
      }
      dest[i] := r;
    }
  }

  lemma ReadyPositive(d: Bytwo, p: nat)
    requires Ready(d, p)
    ensures p > 0
  {
  }
}
