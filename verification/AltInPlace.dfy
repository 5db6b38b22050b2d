/**
 The composite ALTMAP multiplication word by word: five base-field products on the two
 halves of each word. With distinct buffers they make the composite product; with one
 buffer the later products read what the earlier ones wrote, and this module says for
 exactly which multipliers the result is still right.
 */
module AltInPlace {
  import opened Bits
  import opened Composite
  import P = Poly

  /** Distinct buffers: the five products make one in the composite field. */
  lemma HalvesWord(g: Gf, val: nat, a0: nat, a1: nat, d0: nat, d1: nat, xor: bool)
    requires Ring(g) && g.Tower? && In(g, val) && In(g.base, a0) && In(g.base, a1)
    ensures var f, v0, v1 := g.base, Lo(g, val), Hi(g, val);
            var lo := Product(f, v1, a1, Product(f, v0, a0, d0, xor), true);
            var hi := Product(f, Mul(f, g.s, v1), a1, Product(f, v0, a1, Product(f, v1, a0, d1, xor), true), true);
            Pack(g, lo, hi) == Product(g, val, Pack(g, a0, a1), Pack(g, d0, d1), xor)
  {
    hide Mul, Valid, Ring, In, Pack, Lo, Hi, Mul0, Mul1, Xor;
    var f, s, v0, v1 := g.base, g.s, Lo(g, val), Hi(g, val);
    TowerRing(g);
    HalvesFit(g, val);
    PackFits(g, a0, a1);
    TowerMul(g, val, Pack(g, a0, a1));
    PartsAre(f, s, v0, v1, a0, a1);
    // (s * v1) * a1 == (v1 * a1) * s
    MulComm(f, s, v1); MulAssoc(f, v1, s, a1); MulComm(f, s, a1); MulAssoc(f, v1, a1, s);
    var x, y := Mul(f, v0, a0), Mul(f, v1, a1);
    var t, u, z := Mul(f, v1, a0), Mul(f, v0, a1), Mul(f, Mul(f, v1, a1), s);
    XorAssoc(d0, x, y);
    XorAssoc(d1, t, u); XorAssoc(d1, Xor(t, u), z);
    PackXor(g, d0, d1, Xor(x, y), Xor(Xor(t, u), z));
  }

  // ----- one buffer

  /** The low part after the first two products. */
  function LowAfter(f: Gf, v0: nat, v1: nat, a0: nat, a1: nat, xor: bool): nat {
    Product(f, v1, a1, Product(f, v0, a0, a0, xor), true)
  }

  /** The high part after the last three, which read what they write. */
  function HighAfter(f: Gf, v0: nat, v1: nat, sv: nat, lo: nat, hi: nat, xor: bool): nat {
    var h1 := Product(f, v1, lo, hi, xor);
    var h2 := Product(f, v0, h1, h1, true);
    Product(f, sv, h2, h2, true)
  }

  /** What the five products leave in the word `(a0, a1)`. */
  function InPlace(g: Gf, val: nat, a0: nat, a1: nat, xor: bool): nat
    requires g.Tower?
  {
    var f, v0, v1 := g.base, Lo(g, val), Hi(g, val);
    var lo := LowAfter(f, v0, v1, a0, a1, xor);
    Pack(g, lo, HighAfter(f, v0, v1, Mul(f, g.s, v1), lo, a1, xor))
  }

  /** The multiplier works in place: right for every word. */
  ghost predicate WorksInPlace(g: Gf, val: nat, xor: bool)
    requires g.Tower?
  {
    forall a0: nat, a1: nat :: In(g.base, a0) && In(g.base, a1) ==>
      InPlace(g, val, a0, a1, xor) == Product(g, val, Pack(g, a0, a1), Pack(g, a0, a1), xor)
  }

  /** 1 when the old contents are kept, 0 when they are overwritten. */
  function Kept(xor: bool): nat {
    if xor then 1 else 0
  }

  lemma KeptTimes(f: Gf, x: nat, xor: bool)
    requires Ring(f) && In(f, x)
    ensures In(f, Kept(xor)) && Mul(f, Kept(xor), x) == if xor then x else 0
  {
    hide Mul, Ring;
    OneIn(f);
    MulOne(f, x);
    MulZero(f, x);
  }

  lemma OnePlus(f: Gf, c: nat, x: nat)
    requires Ring(f) && In(f, c) && In(f, x)
    ensures In(f, Xor(1, c)) && Xor(x, Mul(f, c, x)) == Mul(f, Xor(1, c), x)
  {
    hide Mul, Ring, In, Xor;
    OneIn(f);
    SumIn(f, 1, c);
    MulXor(f, 1, c, x);
    MulOne(f, x);
  }

  /** `x` kept or not, plus `c * x`. */
  lemma KeptPlus(f: Gf, c: nat, x: nat, y: nat, xor: bool)
    requires Ring(f) && In(f, c) && In(f, x) && In(f, y)
    ensures In(f, Xor(Kept(xor), c)) && Product(f, c, x, y, xor) == Xor(Mul(f, Kept(xor), y), Mul(f, c, x))
    ensures Product(f, c, x, x, xor) == Mul(f, Xor(Kept(xor), c), x)
  {
    hide Mul, Ring, In, Xor, Kept;
    KeptTimes(f, x, xor); KeptTimes(f, y, xor);
    SumIn(f, Kept(xor), c);
    MulXor(f, Kept(xor), c, x);
    XorZero(Mul(f, c, x));
  }

  /** The product of the factors the last two calls apply to the high part. */
  function Factor(f: Gf, s: nat, v0: nat, v1: nat): nat {
    Mul(f, Xor(1, Mul(f, s, v1)), Xor(1, v0))
  }

  lemma FactorIn(f: Gf, s: nat, v0: nat, v1: nat)
    requires Ring(f) && In(f, s) && In(f, v0) && In(f, v1)
    ensures In(f, Factor(f, s, v0, v1)) && In(f, Mul(f, s, v1)) && In(f, Xor(1, Mul(f, s, v1))) && In(f, Xor(1, v0))
  {
    hide Mul, Ring, In, Xor;
    MulFits(f, s, v1);
    OneIn(f);
    SumIn(f, 1, v0); SumIn(f, 1, Mul(f, s, v1));
    MulFits(f, Xor(1, Mul(f, s, v1)), Xor(1, v0));
  }

  /** Both parts as sums of multiples of `a0` and `a1`. */
  lemma LowIs(f: Gf, v0: nat, v1: nat, a0: nat, a1: nat, xor: bool)
    requires Ring(f) && In(f, v0) && In(f, v1) && In(f, a0) && In(f, a1)
    ensures var lo := LowAfter(f, v0, v1, a0, a1, xor);
            In(f, lo) && In(f, Xor(Kept(xor), v0)) && lo == Xor(Mul(f, Xor(Kept(xor), v0), a0), Mul(f, v1, a1))
  {
    hide Mul, Ring, In, Xor, Kept;
    KeptPlus(f, v0, a0, a0, xor);
    MulFits(f, Xor(Kept(xor), v0), a0); MulFits(f, v1, a1);
    SumIn(f, Mul(f, Xor(Kept(xor), v0), a0), Mul(f, v1, a1));
  }

  lemma HighIs(f: Gf, s: nat, v0: nat, v1: nat, lo: nat, a1: nat, xor: bool)
    requires Ring(f) && In(f, s) && In(f, v0) && In(f, v1) && In(f, lo) && In(f, a1)
    ensures var h1 := Xor(Mul(f, Kept(xor), a1), Mul(f, v1, lo));
            && In(f, h1) && In(f, Mul(f, Factor(f, s, v0, v1), h1))
            && HighAfter(f, v0, v1, Mul(f, s, v1), lo, a1, xor) == Mul(f, Factor(f, s, v0, v1), h1)
  {
    hide Mul, Ring, In, Xor, Kept;
    var h1 := Xor(Mul(f, Kept(xor), a1), Mul(f, v1, lo));
    KeptTimes(f, a1, xor);
    KeptPlus(f, v1, lo, a1, xor);
    MulFits(f, Kept(xor), a1); MulFits(f, v1, lo);
    SumIn(f, Mul(f, Kept(xor), a1), Mul(f, v1, lo));
    FactorIn(f, s, v0, v1);
    OnePlus(f, v0, h1);
    var h2 := Mul(f, Xor(1, v0), h1);
    MulFits(f, Xor(1, v0), h1);
    OnePlus(f, Mul(f, s, v1), h2);
    MulAssoc(f, Xor(1, Mul(f, s, v1)), Xor(1, v0), h1);
    MulFits(f, Factor(f, s, v0, v1), h1);
  }

  /** The two equations that the multiplier must meet, one per part of the word. */
  predicate Equations(f: Gf, s: nat, v0: nat, v1: nat, xor: bool) {
    var c, e := Factor(f, s, v0, v1), Kept(xor);
    && Mul(f, c, Mul(f, v1, Xor(e, v0))) == v1
    && Mul(f, c, Xor(e, Mul(f, v1, v1))) == Xor(Xor(e, v0), Mul(f, s, v1))
  }

  lemma HighParts(f: Gf, s: nat, v0: nat, v1: nat, a0: nat, a1: nat, xor: bool)
    requires Ring(f) && In(f, s) && In(f, v0) && In(f, v1) && In(f, a0) && In(f, a1)
    ensures var c, e := Factor(f, s, v0, v1), Kept(xor);
            var lo := LowAfter(f, v0, v1, a0, a1, xor);
            && Mul(f, c, Xor(Mul(f, e, a1), Mul(f, v1, lo)))
               == Xor(Mul(f, Mul(f, c, Mul(f, v1, Xor(e, v0))), a0), Mul(f, Mul(f, c, Xor(e, Mul(f, v1, v1))), a1))
            && Xor(if xor then a1 else 0, Mul1(f, s, v0, v1, a0, a1))
               == Xor(Mul(f, v1, a0), Mul(f, Xor(Xor(e, v0), Mul(f, s, v1)), a1))
  {
    hide Mul, Ring, In, Xor, Kept, LowAfter, Factor, Mul1;
    ActualHigh(f, s, v0, v1, a0, a1, xor);
    WantedHigh(f, s, v0, v1, a0, a1, xor);
  }

  lemma ActualHigh(f: Gf, s: nat, v0: nat, v1: nat, a0: nat, a1: nat, xor: bool)
    requires Ring(f) && In(f, s) && In(f, v0) && In(f, v1) && In(f, a0) && In(f, a1)
    ensures var c, e := Factor(f, s, v0, v1), Kept(xor);
            Mul(f, c, Xor(Mul(f, e, a1), Mul(f, v1, LowAfter(f, v0, v1, a0, a1, xor))))
            == Xor(Mul(f, Mul(f, c, Mul(f, v1, Xor(e, v0))), a0), Mul(f, Mul(f, c, Xor(e, Mul(f, v1, v1))), a1))
  {
    hide Mul, Ring, In, Xor, Kept, LowAfter, Factor;
    var c, e := Factor(f, s, v0, v1), Kept(xor);
    var u := Xor(e, v0);
    KeptTimes(f, a1, xor);
    LowIs(f, v0, v1, a0, a1, xor);
    FactorIn(f, s, v0, v1);
    MulXorRight(f, Mul(f, u, a0), Mul(f, v1, a1), v1);
    MulAssoc(f, v1, u, a0); MulAssoc(f, v1, v1, a1);
    MulFits(f, v1, u); MulFits(f, v1, v1);
    var x, y, z := Mul(f, Mul(f, v1, u), a0), Mul(f, Mul(f, v1, v1), a1), Mul(f, e, a1);
    XorComm(x, y); XorAssoc(z, y, x);
    XorComm(Xor(z, y), x);
    assert Xor(z, Xor(x, y)) == Xor(x, Xor(z, y));
    MulXor(f, e, Mul(f, v1, v1), a1);
    SumIn(f, e, Mul(f, v1, v1));
    MulXorRight(f, x, Xor(z, y), c);
    MulAssoc(f, c, Mul(f, v1, u), a0);
    MulAssoc(f, c, Xor(e, Mul(f, v1, v1)), a1);
  }

  lemma WantedHigh(f: Gf, s: nat, v0: nat, v1: nat, a0: nat, a1: nat, xor: bool)
    requires Ring(f) && In(f, s) && In(f, v0) && In(f, v1) && In(f, a0) && In(f, a1)
    ensures Xor(if xor then a1 else 0, Mul1(f, s, v0, v1, a0, a1))
            == Xor(Mul(f, v1, a0), Mul(f, Xor(Xor(Kept(xor), v0), Mul(f, s, v1)), a1))
  {
    hide Mul, Ring, In, Xor, Kept, Mul1;
    var e := Kept(xor);
    KeptTimes(f, a1, xor);
    PartsAre(f, s, v0, v1, a0, a1);
    MulXor(f, Xor(e, v0), Mul(f, s, v1), a1);
    MulXor(f, e, v0, a1);
    MulComm(f, s, v1); MulAssoc(f, v1, s, a1); MulComm(f, s, a1); MulAssoc(f, v1, a1, s);
    var k, p, q, r := (if xor then a1 else 0), Mul(f, v1, a0), Mul(f, v0, a1), Mul(f, Mul(f, v1, a1), s);
    XorAssoc(k, Xor(p, q), r); XorAssoc(k, p, q);
    XorComm(k, p); XorAssoc(p, k, q); XorAssoc(p, Xor(k, q), r);
  }

  lemma InPlaceWord(g: Gf, val: nat, a0: nat, a1: nat, xor: bool)
    requires Ring(g) && g.Tower? && In(g, val) && In(g.base, a0) && In(g.base, a1)
    ensures var f, v0, v1, e := g.base, Lo(g, val), Hi(g, val), Kept(xor);
            InPlace(g, val, a0, a1, xor) == Product(g, val, Pack(g, a0, a1), Pack(g, a0, a1), xor)
            <==> Mul(f, Factor(f, g.s, v0, v1), Xor(Mul(f, e, a1), Mul(f, v1, LowAfter(f, v0, v1, a0, a1, xor))))
                 == Xor(if xor then a1 else 0, Mul1(f, g.s, v0, v1, a0, a1))
  {
    hide Mul, Ring, In, Pack, Lo, Hi, Mul0, Mul1, Xor, Factor, Kept, LowAfter, HighAfter;
    var f, v0, v1 := g.base, Lo(g, val), Hi(g, val);
    TowerRing(g);
    HalvesFit(g, val);
    PackFits(g, a0, a1);
    TowerMul(g, val, Pack(g, a0, a1));
    PartsFit(f, g.s, v0, v1, a0, a1);
    LowIs(f, v0, v1, a0, a1, xor);
    var lo := LowAfter(f, v0, v1, a0, a1, xor);
    HighIs(f, g.s, v0, v1, lo, a1, xor);
    var hi := HighAfter(f, v0, v1, Mul(f, g.s, v1), lo, a1, xor);
    var lo', hi' := Mul0(f, v0, v1, a0, a1), Xor(if xor then a1 else 0, Mul1(f, g.s, v0, v1, a0, a1));
    LowRight(f, g.s, v0, v1, a0, a1, xor);
    PackXor(g, a0, a1, lo', Mul1(f, g.s, v0, v1, a0, a1));
    ZeroIn(f);
    SumIn(f, if xor then a1 else 0, Mul1(f, g.s, v0, v1, a0, a1));
    XorZero(Mul1(f, g.s, v0, v1, a0, a1));
    PackFits(g, lo, hi); PackFits(g, lo, hi');
  }

  /** The low part always comes out right. */
  lemma LowRight(f: Gf, s: nat, v0: nat, v1: nat, a0: nat, a1: nat, xor: bool)
    requires Ring(f) && In(f, s) && In(f, v0) && In(f, v1) && In(f, a0) && In(f, a1)
    ensures LowAfter(f, v0, v1, a0, a1, xor) == if xor then Xor(a0, Mul0(f, v0, v1, a0, a1)) else Mul0(f, v0, v1, a0, a1)
  {
    hide Mul, Ring, In, Xor;
    PartsAre(f, s, v0, v1, a0, a1);
    XorAssoc(a0, Mul(f, v0, a0), Mul(f, v1, a1));
  }

  /** A multiplier works in place exactly when it meets both equations. */
  lemma WorksIffEquations(g: Gf, val: nat, xor: bool)
    requires Ring(g) && g.Tower? && In(g, val)
    ensures WorksInPlace(g, val, xor) <==> Equations(g.base, g.s, Lo(g, val), Hi(g, val), xor)
  {
    hide Mul, Ring, In, Pack, Lo, Hi, Mul1, Xor, Factor, InPlace, Kept, LowAfter, Product;
    var f, s, v0, v1 := g.base, g.s, Lo(g, val), Hi(g, val);
    TowerRing(g);
    HalvesFit(g, val);
    if Equations(f, s, v0, v1, xor) {
      forall a0: nat, a1: nat | In(f, a0) && In(f, a1)
        ensures InPlace(g, val, a0, a1, xor) == Product(g, val, Pack(g, a0, a1), Pack(g, a0, a1), xor)
      {
        InPlaceWord(g, val, a0, a1, xor);
        HighParts(f, s, v0, v1, a0, a1, xor);
      }
    }
    if WorksInPlace(g, val, xor) {
      OneIn(f);
      ZeroIn(f);
      InPlaceWord(g, val, 1, 0, xor); HighParts(f, s, v0, v1, 1, 0, xor);
      InPlaceWord(g, val, 0, 1, xor); HighParts(f, s, v0, v1, 0, 1, xor);
      assert InPlace(g, val, 1, 0, xor) == Product(g, val, Pack(g, 1, 0), Pack(g, 1, 0), xor);
      assert InPlace(g, val, 0, 1, xor) == Product(g, val, Pack(g, 0, 1), Pack(g, 0, 1), xor);
      UnitWords(f, s, v0, v1, xor);
    }
  }

  lemma UnitWords(f: Gf, s: nat, v0: nat, v1: nat, xor: bool)
    requires Ring(f) && In(f, s) && In(f, v0) && In(f, v1)
    ensures var c, e := Factor(f, s, v0, v1), Kept(xor);
            var x, y := Mul(f, c, Mul(f, v1, Xor(e, v0))), Mul(f, c, Xor(e, Mul(f, v1, v1)));
            var w := Xor(Xor(e, v0), Mul(f, s, v1));
            && Xor(Mul(f, x, 1), Mul(f, y, 0)) == x && Xor(Mul(f, x, 0), Mul(f, y, 1)) == y
            && Xor(Mul(f, v1, 1), Mul(f, w, 0)) == v1 && Xor(Mul(f, v1, 0), Mul(f, w, 1)) == w
  {
    hide Mul, Ring, In, Xor, Factor, Kept;
    var c, e := Factor(f, s, v0, v1), Kept(xor);
    var w := Xor(Xor(e, v0), Mul(f, s, v1));
    FactorIn(f, s, v0, v1);
    KeptTimes(f, v0, xor);
    SumIn(f, e, v0); SumIn(f, Xor(e, v0), Mul(f, s, v1));
    MulFits(f, v1, Xor(e, v0)); MulFits(f, v1, v1);
    SumIn(f, e, Mul(f, v1, v1));
    var x, y := Mul(f, c, Mul(f, v1, Xor(e, v0))), Mul(f, c, Xor(e, Mul(f, v1, v1)));
    MulFits(f, c, Mul(f, v1, Xor(e, v0))); MulFits(f, c, Xor(e, Mul(f, v1, v1)));
    MulOne(f, x); MulOne(f, y); MulOne(f, v1); MulOne(f, w);
    MulZero(f, x); MulZero(f, y); MulZero(f, v1); MulZero(f, w);
    XorZero(x); XorZero(y); XorZero(v1); XorZero(w);
  }

  // ----- what the equations mean in a field

  lemma Cancel(f: Gf, a: nat, x: nat, y: nat)
    requires Valid(f) && In(f, a) && In(f, x) && In(f, y) && a != 0 && Mul(f, a, x) == Mul(f, a, y)
    ensures x == y
  {
    hide Mul, Valid, In, Xor;
    MulXorRight(f, x, y, a);
    XorSelf(Mul(f, a, x));
    SumIn(f, x, y);
    NoZeroDivisors(f, a, Xor(x, y));
    XorCancel(x, y);
  }

  /** `(a*b)*c == (a*c)*b` */
  lemma Exchange(f: Gf, a: nat, b: nat, c: nat)
    requires Ring(f) && In(f, a) && In(f, b) && In(f, c)
    ensures Mul(f, Mul(f, a, b), c) == Mul(f, Mul(f, a, c), b)
  {
    hide Mul, Ring, In;
    MulAssoc(f, a, b, c); MulComm(f, b, c); MulAssoc(f, a, c, b);
  }

  /** A solution of `v0^2 + s*v0*v1 + v1^2 == 0` with `v1 != 0` is a root of `x^2 + s*x + 1`. */
  lemma RootFrom(f: Gf, s: nat, v0: nat, v1: nat)
    requires Valid(f) && In(f, s) && In(f, v0) && In(f, v1) && v1 != 0
    requires Xor(Xor(Mul(f, v0, v0), Mul(f, Mul(f, s, v0), v1)), Mul(f, v1, v1)) == 0
    ensures !NoRoot(f, s)
  {
    hide Mul, Valid, Ring, In, Xor, Inv;
    ValidIsRing(f);
    InverseCorrect(f, v1);
    var i := Inv(f, v1);
    var r := Mul(f, v0, i);
    MulFits(f, v0, i);
    MulComm(f, v1, i);
    MulAssoc(f, v0, i, v1); MulOne(f, v0);
    assert Mul(f, r, v1) == v0;
    var q := Xor(Xor(Mul(f, r, r), Mul(f, s, r)), 1);
    ScaleRoot(f, s, r, v1);
    MulFits(f, r, r); MulFits(f, s, r); OneIn(f);
    SumIn(f, Mul(f, r, r), Mul(f, s, r)); SumIn(f, Xor(Mul(f, r, r), Mul(f, s, r)), 1);
    MulFits(f, v1, v1);
    assert Mul(f, q, Mul(f, v1, v1)) == 0;
    NoZeroDivisors(f, q, Mul(f, v1, v1));
    if Mul(f, v1, v1) == 0 { NoZeroDivisors(f, v1, v1); }
    assert q == 0;
  }

  /** `(r^2 + s*r + 1) * v^2 == (r*v)^2 + s*(r*v)*v + v^2` */
  lemma ScaleRoot(f: Gf, s: nat, r: nat, v: nat)
    requires Ring(f) && In(f, s) && In(f, r) && In(f, v)
    ensures var rv := Mul(f, r, v);
            Mul(f, Xor(Xor(Mul(f, r, r), Mul(f, s, r)), 1), Mul(f, v, v))
            == Xor(Xor(Mul(f, rv, rv), Mul(f, Mul(f, s, rv), v)), Mul(f, v, v))
  {
    hide Mul, Ring, In, Xor;
    var rv, vv := Mul(f, r, v), Mul(f, v, v);
    MulFits(f, v, v); MulFits(f, r, v); MulFits(f, r, r); MulFits(f, s, r); MulFits(f, s, rv);
    MulXor(f, Xor(Mul(f, r, r), Mul(f, s, r)), 1, vv);
    MulXor(f, Mul(f, r, r), Mul(f, s, r), vv);
    MulOne(f, vv);
    // (r*r)*(v*v) == (r*v)*(r*v)
    MulAssoc(f, r, r, vv); MulAssoc(f, r, v, v); MulComm(f, rv, v); MulAssoc(f, r, v, rv);
    // (s*r)*(v*v) == (s*(r*v))*v
    MulAssoc(f, Mul(f, s, r), v, v); MulAssoc(f, s, r, v);
  }

  /** Storing in place: the equations leave only the multiplier 0. */
  lemma StoreEquations(f: Gf, s: nat, v0: nat, v1: nat)
    requires Valid(f) && In(f, s) && NoRoot(f, s) && In(f, v0) && In(f, v1)
    requires Equations(f, s, v0, v1, false)
    ensures v0 == 0 && v1 == 0
  {
    hide Mul, Valid, Ring, In, Xor, Factor, NoRoot;
    ValidIsRing(f);
    var c := Factor(f, s, v0, v1);
    FactorIn(f, s, v0, v1);
    XorZero(v0); XorZero(Mul(f, v1, v1));
    MulFits(f, v1, v0); MulFits(f, v1, v1); MulFits(f, s, v1);
    if v1 == 0 {
      MulZero(f, 0); MulZero(f, c); MulZero(f, s); XorZero(v0);
    } else {
      var w := Xor(v0, Mul(f, s, v1));
      SumIn(f, v0, Mul(f, s, v1));
      // v1^2 == (c*(v1*v0))*v1 == (c*v1^2)*v0 == (v0 + s*v1)*v0
      Exchange(f, c, Mul(f, v1, v0), v1);
      MulAssoc(f, c, v1, Mul(f, v1, v0)); MulAssoc(f, v1, v1, v0); MulAssoc(f, c, Mul(f, v1, v1), v0);
      MulAssoc(f, c, v1, v1); MulFits(f, c, v1);
      assert Mul(f, v1, v1) == Mul(f, w, v0);
      MulXor(f, v0, Mul(f, s, v1), v0);
      Exchange(f, s, v1, v0);
      XorSelf(Mul(f, v1, v1));
      RootFrom(f, s, v0, v1);
    }
  }

  /** In a field, storing in place is right for multiplier 0 only. */
  lemma StoreInPlaceExact(g: Gf, val: nat)
    requires Valid(g) && g.Tower? && In(g, val)
    ensures WorksInPlace(g, val, false) <==> val == 0
  {
    hide Mul, Valid, Ring, In, Pack, Lo, Hi, Xor, WorksInPlace, Equations, NoRoot;
    ValidIsRing(g);
    TowerNoRoot(g);
    HalvesFit(g, val);
    WorksIffEquations(g, val, false);
    ZeroParts(g);
    if WorksInPlace(g, val, false) {
      StoreEquations(g.base, g.s, Lo(g, val), Hi(g, val));
    }
    if val == 0 { ZeroEquations(g.base, g.s); }
  }

  lemma TowerNoRoot(g: Gf)
    requires Valid(g) && g.Tower?
    ensures NoRoot(g.base, g.s)
  {
  }

  lemma ZeroParts(g: Gf)
    requires g.Tower?
    ensures Pack(g, 0, 0) == 0 && Lo(g, 0) == 0 && Hi(g, 0) == 0
  {
    ZeroHalves(g);
    LowOfZero(Width(g.base));
  }

  lemma ZeroEquations(f: Gf, s: nat)
    ensures Equations(f, s, 0, 0, false)
  {
    hide Mul, Xor;
    var c := Factor(f, s, 0, 0);
    XorZero(0);
    MulZero(f, 0); MulZero(f, c); MulZero(f, s);
  }

  // ----- adding in place

  /** The exceptional multipliers with a high part: with u = 1 + v0, v0 = s^2*u^3 and v1 = s*u*v0. */
  predicate Exceptional(f: Gf, s: nat, v0: nat, v1: nat) {
    var u := Xor(1, v0);
    v0 == Mul(f, Mul(f, s, s), Mul(f, u, Mul(f, u, u))) && v1 == Mul(f, Mul(f, s, u), v0)
  }

  lemma Square(f: Gf, v: nat)
    requires Ring(f) && In(f, v)
    ensures In(f, Xor(1, v)) && Mul(f, Xor(1, v), Xor(1, v)) == Xor(1, Mul(f, v, v))
  {
    hide Mul, Ring, In, Xor;
    var u := Xor(1, v);
    OnePlus(f, v, v);
    OneIn(f);
    MulXor(f, 1, v, u);
    MulOne(f, u);
    MulXorRight(f, 1, v, v);
    MulOne(f, v);
    MulFits(f, v, v);
    // u + (v + v^2) == 1 + v^2
    XorAssoc(u, v, Mul(f, v, v));
    XorCancel(1, v);
  }

  /** The pieces of both equations, for u = 1 + v0. */
  lemma Pieces(f: Gf, s: nat, v0: nat, v1: nat)
    requires Ring(f) && In(f, s) && In(f, v0) && In(f, v1)
    ensures var u, sv, c := Xor(1, v0), Mul(f, s, v1), Factor(f, s, v0, v1);
            var uu := Mul(f, u, u);
            && In(f, u) && In(f, sv) && In(f, c) && In(f, uu)
            && Mul(f, c, u) == Xor(uu, Mul(f, sv, uu))
            && Mul(f, u, Xor(u, sv)) == Xor(uu, Mul(f, u, sv))
            && Xor(Mul(f, sv, uu), Mul(f, u, sv)) == Mul(f, v1, Mul(f, Mul(f, s, u), v0))
  {
    hide Mul, Ring, In, Xor;
    var u, sv, c := Xor(1, v0), Mul(f, s, v1), Factor(f, s, v0, v1);
    FactorIn(f, s, v0, v1);
    var uu := Mul(f, u, u);
    MulFits(f, u, u);
    MulAssoc(f, Xor(1, sv), u, u);
    OnePlus(f, sv, uu);
    MulXorRight(f, u, sv, u);
    // sv*u^2 + u*sv == sv*(u^2 + u) == sv*(u*v0)
    MulComm(f, u, sv);
    MulXorRight(f, uu, u, sv);
    OneIn(f);
    MulXorRight(f, u, 1, u); MulOne(f, u);
    XorCancel(1, v0); XorComm(u, 1);
    assert Xor(uu, u) == Mul(f, u, v0);
    // (s*v1)*(u*v0) == v1*((s*u)*v0)
    MulFits(f, u, v0);
    MulComm(f, s, v1); MulAssoc(f, v1, s, Mul(f, u, v0)); MulAssoc(f, s, u, v0);
  }

  /** `(s*v1)*u^2 == (s^2*u^3)*v0` when `v1 == (s*u)*v0`. */
  lemma Substituted(f: Gf, s: nat, u: nat, v0: nat)
    requires Ring(f) && In(f, s) && In(f, u) && In(f, v0)
    ensures var uu := Mul(f, u, u);
            Mul(f, Mul(f, s, Mul(f, Mul(f, s, u), v0)), uu) == Mul(f, Mul(f, Mul(f, s, s), Mul(f, u, uu)), v0)
  {
    hide Mul, Ring, In;
    var ss, su, uu := Mul(f, s, s), Mul(f, s, u), Mul(f, u, u);
    MulFits(f, s, s); MulFits(f, s, u); MulFits(f, u, u); MulFits(f, ss, u);
    MulAssoc(f, s, su, v0); MulAssoc(f, s, s, u);
    Exchange(f, Mul(f, ss, u), v0, uu);
    MulAssoc(f, ss, u, uu);
  }

  /** The first equation, solved for c*u. */
  lemma FactorTimesU(f: Gf, c: nat, v1: nat, u: nat)
    requires Ring(f) && In(f, c) && In(f, v1) && In(f, u)
    ensures Mul(f, c, Mul(f, v1, u)) == Mul(f, v1, Mul(f, c, u))
  {
    hide Mul, Ring, In;
    MulAssoc(f, c, v1, u); MulComm(f, c, v1); MulAssoc(f, v1, c, u);
  }

  lemma AddEquationsForce(f: Gf, s: nat, v0: nat, v1: nat)
    requires Valid(f) && In(f, s) && In(f, v0) && In(f, v1) && v1 != 0 && Equations(f, s, v0, v1, true)
    ensures Exceptional(f, s, v0, v1)
  {
    hide Mul, Valid, Ring, In, Xor, Factor;
    ValidIsRing(f);
    var u, sv, c := Xor(1, v0), Mul(f, s, v1), Factor(f, s, v0, v1);
    var uu := Mul(f, u, u);
    Pieces(f, s, v0, v1);
    FactorTimesU(f, c, v1, u);
    OneIn(f); MulFits(f, c, u); MulOne(f, v1);
    Cancel(f, v1, Mul(f, c, u), 1);
    SecondTimesU(f, s, v0, v1);
    var p, q, vv := Mul(f, sv, uu), Mul(f, u, sv), Mul(f, v1, v1);
    Combine(uu, p, q, vv);
    MulFits(f, s, u); MulFits(f, Mul(f, s, u), v0);
    Cancel(f, v1, v1, Mul(f, Mul(f, s, u), v0));
    Square(f, v0);
    Substituted(f, s, u, v0);
    var k := Mul(f, Mul(f, s, s), Mul(f, u, uu));
    MulFits(f, s, s); MulFits(f, u, uu); MulFits(f, Mul(f, s, s), Mul(f, u, uu));
    SquareLeft(Mul(f, v0, v0), uu, p);
    MulComm(f, k, v0);
    MulZero(f, Mul(f, s, u));
    Cancel(f, v0, v0, k);
  }

  /** The second equation times u, given c*u == 1. */
  lemma SecondTimesU(f: Gf, s: nat, v0: nat, v1: nat)
    requires Ring(f) && In(f, s) && In(f, v0) && In(f, v1)
    requires Mul(f, Factor(f, s, v0, v1), Xor(1, v0)) == 1
    ensures Mul(f, Factor(f, s, v0, v1), Xor(1, Mul(f, v1, v1))) == Xor(Xor(1, v0), Mul(f, s, v1))
            <==> Xor(1, Mul(f, v1, v1)) == Mul(f, Xor(1, v0), Xor(Xor(1, v0), Mul(f, s, v1)))
  {
    hide Mul, Ring, In, Xor, Factor;
    var u, c, x, w := Xor(1, v0), Factor(f, s, v0, v1), Xor(1, Mul(f, v1, v1)), Xor(Xor(1, v0), Mul(f, s, v1));
    Pieces(f, s, v0, v1);
    MulFits(f, v1, v1);
    Square(f, v1);
    OneIn(f); SumIn(f, 1, Mul(f, v1, v1)); SumIn(f, u, Mul(f, s, v1));
    MulComm(f, c, u);
    MulAssoc(f, u, c, x); MulOne(f, x);
    MulAssoc(f, c, u, w); MulOne(f, w);
  }

  /** 1 == uu + p and 1 + vv == uu + q give vv == p + q. */
  lemma Combine(uu: nat, p: nat, q: nat, vv: nat)
    requires Xor(uu, p) == 1 && Xor(1, vv) == Xor(uu, q)
    ensures vv == Xor(p, q)
  {
    hide Xor;
    XorAssoc(uu, p, vv);
    XorCancel(uu, Xor(p, vv)); XorCancel(uu, q);
    XorCancel(p, vv);
  }

  /** uu == 1 + v and uu + p == 1 give p == v. */
  lemma SquareLeft(v: nat, uu: nat, p: nat)
    requires uu == Xor(1, v) && Xor(uu, p) == 1
    ensures p == v
  {
    hide Xor;
    XorCancel(uu, p); XorComm(1, v); XorCancel(v, 1);
    XorComm(uu, 1); XorCancel(1, v);
  }

  lemma ExceptionalWorks(f: Gf, s: nat, v0: nat, v1: nat)
    requires Ring(f) && In(f, s) && In(f, v0) && In(f, v1) && Exceptional(f, s, v0, v1)
    ensures Equations(f, s, v0, v1, true)
  {
    hide Mul, Ring, In, Xor, Factor;
    var u, sv, c := Xor(1, v0), Mul(f, s, v1), Factor(f, s, v0, v1);
    var uu := Mul(f, u, u);
    Pieces(f, s, v0, v1);
    Substituted(f, s, u, v0);
    Square(f, v0);
    var p, q, vv := Mul(f, sv, uu), Mul(f, u, sv), Mul(f, v0, v0);
    assert p == vv;
    XorCancel(1, vv);
    assert Mul(f, c, u) == 1;
    FactorTimesU(f, c, v1, u);
    MulOne(f, v1);
    SecondTimesU(f, s, v0, v1);
    // 1 + (p + q) == uu + q
    XorAssoc(1, p, q);
  }

  lemma NoHighWorks(f: Gf, s: nat, v0: nat)
    requires Ring(f) && In(f, s) && In(f, v0)
    ensures Equations(f, s, v0, 0, true)
  {
    hide Mul, Ring, In, Xor;
    var u, c := Xor(1, v0), Factor(f, s, v0, 0);
    ZeroIn(f);
    FactorIn(f, s, v0, 0);
    MulZero(f, s); MulZero(f, 0); MulZero(f, u); MulZero(f, c);
    XorZero(1); XorZero(u);
    MulOne(f, u);
  }

  /**
   In a field, adding in place is right for the multipliers from the base field, and beyond
   those exactly for the exceptional ones.
   */
  lemma AddInPlaceExact(g: Gf, val: nat)
    requires Valid(g) && g.Tower? && In(g, val)
    ensures WorksInPlace(g, val, true) <==> Hi(g, val) == 0 || Exceptional(g.base, g.s, Lo(g, val), Hi(g, val))
  {
    hide Mul, Valid, Ring, In, Pack, Lo, Hi, Xor, WorksInPlace, Equations, Exceptional;
    ValidIsRing(g);
    HalvesFit(g, val);
    var f, s, v0, v1 := g.base, g.s, Lo(g, val), Hi(g, val);
    WorksIffEquations(g, val, true);
    if v1 == 0 {
      NoHighWorks(f, s, v0);
    } else {
      if Equations(f, s, v0, v1, true) { AddEquationsForce(f, s, v0, v1); }
      if Exceptional(f, s, v0, v1) { ExceptionalWorks(f, s, v0, v1); }
    }
  }

  /** Exceptional multipliers with a high part exist: 11 in the field built over GF(4) with s = 2. */
  lemma ExceptionalExists()
    ensures var g := Tower(Base(2, 7), 2);
            Valid(g) && In(g, 11) && Hi(g, 11) == 2 && Lo(g, 11) == 3 && Exceptional(g.base, g.s, 3, 2)
  {
    hide Mul, NoRoot;
    SmallField();
    SevenIrreducible();
    NoRootOverGf4();
    assert Pow2(2) == 4 && Pow2(4) == 16;
    assert Xor(1, 3) == 2;
  }

  /** x^2+x+1 has no factor of degree 1. */
  lemma SevenIrreducible()
    ensures P.Irreducible(7)
  {
    hide P.PMul;
    forall a: nat, b: nat | P.PMul(a, b) == 7
      ensures a == 1 || b == 1
    {
      P.PMulNonZero(a, b);
      P.PMulLen(a, b);
      SmallModulus();
      ShortWord(a); ShortWord(b);
      SmallProducts();
      P.PMulComm(2, 3);
    }
  }

  lemma ShortWord(a: nat)
    ensures a > 1 ==> Len(a) >= 2
    ensures Len(a) == 2 ==> a == 2 || a == 3
  {
    LenStep(a); LenStep(a / 2); LenStep(a / 2 / 2);
  }

  lemma NoRootOverGf4()
    ensures NoRoot(Base(2, 7), 2)
  {
    hide Mul;
    var f := Base(2, 7);
    SmallField();
    MulZero(f, 2);
    MulZero(f, 0);
    MulOne(f, 2);
    MulOne(f, 1);
    assert Pow2(2) == 4;
    assert Xor(Xor(0, 0), 1) == 1 && Xor(Xor(1, 2), 1) == 2 && Xor(Xor(3, 3), 1) == 1 && Xor(Xor(2, 1), 1) == 2;
    forall x: nat | In(f, x) ensures Xor(Xor(Mul(f, x, x), Mul(f, 2, x)), 1) != 0 {
      assert x == 0 || x == 1 || x == 2 || x == 3;
    }
  }

  lemma SmallField()
    ensures var f := Base(2, 7);
            Ring(f) && Mul(f, 2, 2) == 3 && Mul(f, 3, 1) == 3 && Mul(f, 2, 3) == 1 && Mul(f, 3, 3) == 2
  {
    hide P.PMod, P.PMul, Xor;
    SmallModulus();
    SmallProducts();
    SmallSums();
    Reduced(2, 2, 1, 3); Reduced(3, 1, 0, 3); Reduced(2, 3, 1, 1); Reduced(3, 3, 1, 2);
  }

  lemma SmallModulus()
    ensures P.IsModulus(2, 7) && Len(7) == 3
  {
  }

  lemma SmallProducts()
    ensures P.PMul(2, 2) == 4 && P.PMul(3, 1) == 3 && P.PMul(2, 3) == 6 && P.PMul(3, 3) == 5 && P.PMul(1, 7) == 7 && P.PMul(0, 7) == 0
  {
    hide P.PMul, Xor;
    P.PMulOne(3); P.PMulOne(7);
    TimesX(2); TimesX(3); TimesX(7);
    ThreeTimesThree();
  }

  lemma TimesX(b: nat)
    ensures P.PMul(2, b) == 2 * b && P.PMul(0, b) == 0
  {
    P.PMulOne(b);
    XorZero(2 * b);
  }

  lemma ThreeTimesThree()
    ensures P.PMul(3, 3) == 5
  {
  }

  lemma SmallSums()
    ensures Xor(7, 3) == 4 && Xor(0, 3) == 3 && Xor(7, 1) == 6 && Xor(7, 2) == 5
  {
  }

  lemma Reduced(a: nat, b: nat, q: nat, r: nat)
    requires P.PMul(a, b) == Xor(P.PMul(q, 7), r) && r < 4 && Len(7) == 3
    ensures Mul(Base(2, 7), a, b) == r
  {
    hide P.PMod, P.PMul, Xor;
    assert Pow2(2) == 4;
    FitsLen(r, 2);
    P.DivModUnique(P.PMul(a, b), 7, q, r);
  }
}
