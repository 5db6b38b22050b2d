/**
 Powers of `x` modulo a polynomial, and when they run through every nonzero residue.
 This is what the log-table builders rely on when they walk `1, 2, 4, ...`.
 */
module Powers {
  import opened Bits
  import opened Poly
  import opened Lists

  // ----- counting

  /** A list of distinct positive numbers below `m` that is one short of being complete ... */
  ghost predicate OneShort(t: seq<nat>, m: nat) {
    Distinct(t) && Below(t, m) && 0 !in t && |t| == m - 2
  }

  /** ... misses some number ... */
  lemma {:induction false} Missing(t: seq<nat>, m: nat) returns (u: nat)
    requires Distinct(t) && |t| + 1 < m
    ensures 0 < u < m && u !in t
    decreases m
  {
    if k :| 0 <= k < |t| && t[k] == m - 1 {
      var t' := t[..k] + t[k + 1..];
      u := Missing(t', m - 1);
      assert forall i :: 0 <= i < |t| && i != k ==> t[i] in t' by {
        assert forall i :: 0 <= i < k ==> t[i] == t'[i];
        assert forall i :: k < i < |t| ==> t[i] == t'[i - 1];
      }
    } else {
      u := m - 1;
    }
  }

  /** ... and only one. */
  lemma MissingUnique(t: seq<nat>, m: nat, u: nat, v: nat)
    requires OneShort(t, m) && 0 < u < m && 0 < v < m && u !in t && v !in t
    ensures u == v
  {
    if u != v { Pigeonhole([0, u, v] + t, m); }
  }

  // ----- powers

  /** `x^i` as a residue. */
  function PowX(i: nat, p: nat): (r: nat)
    requires p > 0
  {
    PMod(Pow2(i), p)
  }

  lemma PowXFits(i: nat, w: nat, p: nat)
    requires IsModulus(w, p)
    ensures PowX(i, p) < Pow2(w)
  {
    ModFits(Pow2(i), w, p);
  }

  lemma PowXZero(w: nat, p: nat)
    requires IsModulus(w, p)
    ensures PowX(0, p) == 1
  {
  }

  lemma PowXNext(i: nat, w: nat, p: nat)
    requires IsModulus(w, p)
    ensures PowX(i + 1, p) == MulX(PowX(i, p), w, p)
  {
    PowXFits(i, w, p);
    MulXIsMul(PowX(i, p), w, p);
    ModMul(2, Pow2(i), p);
    PMulOne(Pow2(i)); PMulDoubleLeft(1, Pow2(i));
  }

  lemma PowXAdd(i: nat, j: nat, p: nat)
    requires p > 0
    ensures Mul(PowX(i, p), PowX(j, p), p) == PowX(i + j, p)
  {
    ModMul(Pow2(i), Pow2(j), p);
    ModMul(Pow2(i), PowX(j, p), p);
    PMulPow2(Pow2(i), j);
    ShlPow2(i, j);
  }

  /** Order of the multiplicative group of a field with `2^w` elements. */
  function GroupSize(w: nat): (n: nat) {
    Pow2(w) - 1
  }

  /** `x` has order `2^w - 1`. */
  ghost predicate Primitive(w: nat, p: nat)
    requires p > 0
  {
    PowX(GroupSize(w), p) == 1 && forall i :: 0 < i < GroupSize(w) ==> PowX(i, p) != 1
  }

  lemma PrimitiveDistinct(w: nat, p: nat, j: nat, k: nat)
    requires IsModulus(w, p) && Primitive(w, p) && j < k < GroupSize(w)
    ensures PowX(j, p) != PowX(k, p)
  {
    var n := GroupSize(w);
    PowXAdd(n - j, j, p);
    PowXAdd(n - j, k, p);
    PowXAdd(n, k - j, p);
    PowXFits(k - j, w, p);
    MulOne(PowX(k - j, p), w, p);
    assert n - j + k == n + (k - j);
  }

  lemma PrimitiveNonZero(w: nat, p: nat, i: nat)
    requires IsModulus(w, p) && Primitive(w, p) && i <= GroupSize(w)
    ensures 0 < PowX(i, p) < Pow2(w)
  {
    PowXFits(i, w, p);
    PowXAdd(i, GroupSize(w) - i, p);
    MulZero(PowX(GroupSize(w) - i, p), p);
  }

  /** Exponents only matter modulo the order. */
  lemma PrimitivePeriod(w: nat, p: nat, i: nat)
    requires IsModulus(w, p) && Primitive(w, p)
    ensures PowX(i + GroupSize(w), p) == PowX(i, p)
  {
    PowXAdd(i, GroupSize(w), p);
    PowXFits(i, w, p);
    MulOne(PowX(i, p), w, p);
  }

  /** The list `x^1, ..., x^(2^w - 2)` the builders walk after the initial 1. */
  ghost predicate PowerList(t: seq<nat>, w: nat, p: nat)
    requires p > 0
  {
    |t| == Pow2(w) - 2 && forall k :: 0 <= k < |t| ==> t[k] == PowX(k + 1, p)
  }

  lemma MakePowerList(w: nat, p: nat) returns (t: seq<nat>)
    requires IsModulus(w, p)
    ensures PowerList(t, w, p) && Below(t, Pow2(w))
  {
    t := seq(Pow2(w) - 2, k requires 0 <= k => PowX(k + 1, p));
    forall k | 0 <= k < |t| ensures t[k] < Pow2(w) { PowXFits(k + 1, w, p); }
  }

  /** The powers of a primitive `x` are all the nonzero residues. */
  lemma PrimitiveCovers(w: nat, p: nat, v: nat) returns (i: nat)
    requires IsModulus(w, p) && Primitive(w, p) && 0 < v < Pow2(w)
    ensures i < GroupSize(w) && PowX(i, p) == v
  {
    PowXZero(w, p);
    var t := MakePowerList(w, p);
    forall k | 0 <= k < |t| ensures t[k] > 0 && t[k] != 1 { PrimitiveNonZero(w, p, k + 1); }
    forall j, k | 0 <= j < k < |t| ensures t[j] != t[k] { PrimitiveDistinct(w, p, j + 1, k + 1); }
    if v in t {
      var k :| 0 <= k < |t| && t[k] == v;
      i := k + 1;
    } else {
      Pow2Mono(1, w);
      MissingUnique(t, Pow2(w), 1, v);
      i := 0;
    }
  }

  // ----- how the builders tell a polynomial is primitive

  /** Two equal powers among `x^1, ..., x^(2^w - 2)`. */
  ghost predicate Repeats(w: nat, p: nat)
    requires p > 0
  {
    exists j, k :: 1 <= j < k < GroupSize(w) && PowX(j, p) == PowX(k, p)
  }

  lemma PrimitiveNoRepeats(w: nat, p: nat)
    requires IsModulus(w, p) && Primitive(w, p)
    ensures !Repeats(w, p)
  {
    forall j, k | 1 <= j < k < GroupSize(w) ensures PowX(j, p) != PowX(k, p) { PrimitiveDistinct(w, p, j, k); }
  }

  lemma EvenPower(i: nat, w: nat, p: nat)
    requires IsModulus(w, p) && p % 2 == 0
    ensures PowX(i + 1, p) % 2 == 0
  {
    PowXNext(i, w, p);
    var b := PowX(i, p);
    XorHalves(2 * b, p);
    Halves(2 * b, 0, b);
  }

  /** An even modulus has too few even residues to avoid a repetition. */
  lemma NoRepeatsOdd(w: nat, p: nat)
    requires IsModulus(w, p) && w >= 3 && !Repeats(w, p)
    ensures p % 2 == 1
  {
    if p % 2 == 0 {
      Pow2Mono(2, w - 1);
      var t := MakePowerList(w, p);
      var s := seq(|t|, k requires 0 <= k < |t| => t[k] / 2);
      forall k | 0 <= k < |t| ensures s[k] < Pow2(w - 1) && 2 * s[k] == t[k] { EvenPower(k, w, p); }
      forall j, k | 0 <= j < k < |s| ensures s[j] != s[k] {
        assert t[j] == PowX(j + 1, p) && t[k] == PowX(k + 1, p);
      }
      Pigeonhole(s, Pow2(w - 1));
    }
  }

  /** For an odd modulus multiplication by `x` loses nothing. */
  lemma MulXInjective(a: nat, b: nat, w: nat, p: nat)
    requires IsModulus(w, p) && p % 2 == 1 && a < Pow2(w) && b < Pow2(w)
    requires MulX(a, w, p) == MulX(b, w, p)
    ensures a == b
  {
    XorHalves(2 * a, p); XorHalves(2 * b, p);
    Halves(2 * a, 0, a); Halves(2 * b, 0, b);
    assert Bit(a, w - 1) <==> MulX(a, w, p) % 2 == 1;
    assert Bit(b, w - 1) <==> MulX(b, w, p) % 2 == 1;
    if Bit(a, w - 1) {
      XorCancel(2 * a, p); XorCancel(2 * b, p);
    }
  }

  lemma MulXOfZero(w: nat, p: nat)
    requires w >= 1
    ensures MulX(0, w, p) == 0
  {
    BitZero(w - 1);
  }

  lemma {:induction false} OddPowersNonZero(i: nat, w: nat, p: nat)
    requires IsModulus(w, p) && p % 2 == 1
    ensures 0 < PowX(i, p) < Pow2(w)
  {
    PowXFits(i, w, p);
    if i == 0 {
      PowXZero(w, p);
    } else {
      OddPowersNonZero(i - 1, w, p);
      PowXNext(i - 1, w, p);
      MulXOfZero(w, p);
      if PowX(i, p) == 0 { MulXInjective(PowX(i - 1, p), 0, w, p); }
    }
  }

  lemma OddPowerList(w: nat, p: nat) returns (t: seq<nat>)
    requires IsModulus(w, p) && p % 2 == 1 && !Repeats(w, p)
    ensures PowerList(t, w, p) && OneShort(t, Pow2(w))
  {
    t := MakePowerList(w, p);
    forall k | 0 <= k < |t| ensures t[k] > 0 { OddPowersNonZero(k + 1, w, p); }
    forall j, k | 0 <= j < k < |t| ensures t[j] != t[k] {
      assert t[j] == PowX(j + 1, p) && t[k] == PowX(k + 1, p);
    }
  }

  /** If `x` returned to 1 one step early, multiplication by `x` would fix the residue it misses ... */
  lemma MissedFixed(w: nat, p: nat, t: seq<nat>, u: nat)
    requires IsModulus(w, p) && p % 2 == 1 && w >= 2
    requires PowerList(t, w, p) && OneShort(t, Pow2(w)) && 1 in t
    requires 0 < u < Pow2(w) && u !in t
    ensures MulX(u, w, p) == u
  {
    var u' := MulX(u, w, p);
    MulXIsMul(u, w, p);
    MulXOfZero(w, p);
    if u' == 0 { MulXInjective(u, 0, w, p); }
    if u' in t {
      var k :| 0 <= k < |t| && t[k] == u';
      PowXNext(k, w, p);
      PowXFits(k, w, p);
      PowXZero(w, p);
      assert PowX(k, p) in t by { if k > 0 { assert t[k - 1] == PowX(k, p); } }
      MulXInjective(PowX(k, p), u, w, p);
      assert false;
    }
    MissingUnique(t, Pow2(w), u, u');
  }

  lemma {:induction false} FixedByPowers(i: nat, w: nat, p: nat, u: nat)
    requires IsModulus(w, p) && u < Pow2(w) && MulX(u, w, p) == u
    ensures Mul(PowX(i, p), u, p) == u
  {
    if i == 0 {
      PowXZero(w, p);
      MulOne(u, w, p);
    } else {
      FixedByPowers(i - 1, w, p, u);
      PowXNext(i - 1, w, p);
      PowXFits(i - 1, w, p);
      MulXIsMul(PowX(i - 1, p), w, p);
      MulAssoc(2, PowX(i - 1, p), u, p);
      MulXIsMul(u, w, p);
    }
  }

  lemma ThreeSquared(w: nat, p: nat)
    requires IsModulus(w, p) && w >= 3
    ensures PMul(3, 3) != p && Pow2(w) >= 8
  {
    Pow2Mono(3, w);
    assert PMul(3, 3) == 5 && Len(5) == 3;
  }

  /** ... which would make the modulus `(x + 1) * u`, and 3 a power of `x` killing `u`. */
  lemma NoEarlyReturn(w: nat, p: nat, t: seq<nat>)
    requires IsModulus(w, p) && p % 2 == 1 && w >= 3
    requires PowerList(t, w, p) && OneShort(t, Pow2(w))
    ensures 1 !in t
  {
    hide PMul, Len, Pow2, MulX, Mul, IsModulus;
    ModulusPositive(w, p);
    ThreeSquared(w, p);
    if 1 in t {
      var u := Missing(t, Pow2(w));
      MissedFixed(w, p, t, u);
      FixedKilledByThree(w, p, u);
      if 3 in t {
        var k :| 0 <= k < |t| && t[k] == 3;
        FixedByPowers(k + 1, w, p, u);
        assert false;
      }
      MissingUnique(t, Pow2(w), u, 3);
    }
  }

  lemma FixedKilledByThree(w: nat, p: nat, u: nat)
    requires IsModulus(w, p) && 0 < u < Pow2(w) && MulX(u, w, p) == u
    ensures p == PMul(3, u) && Mul(3, u, p) == 0
  {
    XorCancel(2 * u, p);
    ThreeTimes(u);
    PMulOne(p);
    ModMultiple(1, p);
  }

  lemma ThreeTimes(u: nat)
    ensures PMul(3, u) == Xor(2 * u, u)
  {
    PMulXorLeft(2, 1, u);
    PMulOne(u); PMulDoubleLeft(1, u);
    assert Xor(2, 1) == 3;
  }

  lemma NoRepeatsPrimitive(w: nat, p: nat)
    requires IsModulus(w, p) && w >= 3 && !Repeats(w, p)
    ensures Primitive(w, p)
  {
    var n := GroupSize(w);
    Pow2Mono(3, w);
    NoRepeatsOdd(w, p);
    var t := OddPowerList(w, p);
    NoEarlyReturn(w, p, t);
    forall i | 0 < i < n ensures PowX(i, p) != 1 { assert t[i - 1] == PowX(i, p); }
    ReturnsHome(w, p, t);
  }

  lemma ReturnsHome(w: nat, p: nat, t: seq<nat>)
    requires IsModulus(w, p) && w >= 3 && p % 2 == 1
    requires PowerList(t, w, p) && OneShort(t, Pow2(w)) && 1 !in t
    ensures PowX(GroupSize(w), p) == 1
  {
    var n := GroupSize(w);
    Pow2Mono(3, w);
    PowXZero(w, p);
    var v := PowX(n, p);
    OddPowersNonZero(n, w, p);
    if v in t {
      var k :| 0 <= k < |t| && t[k] == v;
      PowXNext(k, w, p); PowXNext(n - 1, w, p);
      PowXFits(k, w, p); PowXFits(n - 1, w, p);
      assert t[n - 2] == PowX(n - 1, p);
      assert k > 0 ==> t[k - 1] == PowX(k, p);
      MulXInjective(PowX(k, p), PowX(n - 1, p), w, p);
      assert false;
    }
    MissingUnique(t, Pow2(w), 1, v);
  }

  /**
   A walk that sees no repetition among `x^1 .. x^(2^w - 2)` is a walk through the
   whole group, from width 3 on.
   */
  lemma NoRepeatsIffPrimitive(w: nat, p: nat)
    requires IsModulus(w, p) && w >= 3
    ensures !Repeats(w, p) <==> Primitive(w, p)
  {
    if Primitive(w, p) { PrimitiveNoRepeats(w, p); }
    if !Repeats(w, p) { NoRepeatsPrimitive(w, p); }
  }

  /** At width 2 the test accepts `x^2 + 1`, whose `x` has order 2. */
  lemma WidthTwoCounterexample()
    ensures IsModulus(2, 5) && !Repeats(2, 5) && !Primitive(2, 5)
  {
    assert GroupSize(2) == 3;
    assert PowX(1, 5) == 2;
    assert PowX(2, 5) == 1;
  }
}
