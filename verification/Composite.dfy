/**
 Composite fields (`gf_w8_composite_*`, `gf_w16_composite_*`, `gf_w128_composite_*`):
 a field of twice the width built on top of a base field as polynomials of degree one
 modulo `x^2 + s*x + 1`. A base field may itself be composite, so towers have any height.
 */
module Composite {
  import opened Bits
  import P = Poly

  /** The chain of handles: `Tower(base, s)` is a handle whose `base_gf` is `base`. */
  datatype Gf = Base(w: nat, p: nat) | Tower(base: Gf, s: nat)

  function Width(g: Gf): (w: nat) {
    match g
    case Base(w, _) => w
    case Tower(base, _) => 2 * Width(base)
  }

  predicate In(g: Gf, a: nat) {
    a < Pow2(Width(g))
  }

  /** Low and high half of an element. */
  function Lo(g: Gf, a: nat): nat
    requires g.Tower?
  {
    Low(a, Width(g.base))
  }

  function Hi(g: Gf, a: nat): nat
    requires g.Tower?
  {
    Shr(a, Width(g.base))
  }

  function Pack(g: Gf, lo: nat, hi: nat): nat
    requires g.Tower?
  {
    Xor(Shl(hi, Width(g.base)), lo)
  }

  /** `multiply`, recursively through the base field. */
  function Mul(g: Gf, a: nat, b: nat): (r: nat)
    decreases g, 0
  {
    match g
    case Base(_, p) => if p == 0 then 0 else P.Mul(a, b, p)
    case Tower(f, s) =>
      var a0, a1, b0, b1 := Lo(g, a), Hi(g, a), Lo(g, b), Hi(g, b);
      Pack(g, Mul0(f, a0, a1, b0, b1), Mul1(f, s, a0, a1, b0, b1))
  }

  /** `val` times an element, added to the old destination if asked. */
  function Product(g: Gf, val: nat, s: nat, d: nat, xor: bool): nat {
    if xor then Xor(d, Mul(g, val, s)) else Mul(g, val, s)
  }

  /** Constant and linear coefficient of `(a1*x + a0) * (b1*x + b0)` modulo `x^2 + s*x + 1`. */
  function Mul0(f: Gf, a0: nat, a1: nat, b0: nat, b1: nat): nat
    decreases f, 1
  {
    Xor(Mul(f, a0, b0), Mul(f, a1, b1))
  }

  function Mul1(f: Gf, s: nat, a0: nat, a1: nat, b0: nat, b1: nat): nat
    decreases f, 1
  {
    Xor(Xor(Mul(f, a1, b0), Mul(f, a0, b1)), Mul(f, Mul(f, a1, b1), s))
  }

  /** `x^2 + s*x + 1` has no root in the base field. */
  ghost predicate NoRoot(f: Gf, s: nat) {
    forall x: nat :: In(f, x) ==> Xor(Xor(Mul(f, x, x), Mul(f, s, x)), 1) != 0
  }

  /** What multiplication needs: a modulus at the bottom, and each `s` in its base. */
  ghost predicate Ring(g: Gf) {
    match g
    case Base(w, p) => P.IsModulus(w, p)
    case Tower(f, s) => Ring(f) && In(f, s)
  }

  /** What inversion needs on top of that. */
  ghost predicate Valid(g: Gf) {
    && Ring(g)
    && match g
       case Base(w, p) => P.Irreducible(p)
       case Tower(f, s) => Valid(f) && NoRoot(f, s)
  }

  lemma ValidIsRing(g: Gf)
    requires Valid(g)
    ensures Ring(g) && (g.Tower? ==> Valid(g.base) && Ring(g.base) && In(g.base, g.s))
  {
  }

  /** `inverse`: any inverse at the bottom, the three-branch formula above it. */
  ghost function Inv(g: Gf, a: nat): (r: nat)
    decreases g
  {
    match g
    case Base(w, p) => if y: nat :| y < Pow2(w) && p > 0 && P.Mul(a, y, p) == 1 then y else 0
    case Tower(f, s) =>
      var a0, a1 := Lo(g, a), Hi(g, a);
      if a0 == 0 then
        var a1inv := Inv(f, a1);
        Pack(g, Mul(f, a1inv, s), a1inv)
      else if a1 == 0 then
        Pack(g, Inv(f, a0), 0)
      else
        var a1inv, a0inv := Inv(f, a1), Inv(f, a0);
        var d := Mul(f, a1, a0inv);
        var tmp := Xor(Xor(Mul(f, a1, a0inv), Mul(f, a0, a1inv)), s);
        var tmpinv := Inv(f, tmp);
        var e := Mul(f, d, tmpinv);
        Pack(g, Mul(f, Xor(e, 1), a0inv), Mul(f, e, a1inv))
  }

  // ----- halves

  lemma HalvesFit(g: Gf, a: nat)
    requires g.Tower? && In(g, a)
    ensures In(g.base, Lo(g, a)) && In(g.base, Hi(g, a)) && Pack(g, Lo(g, a), Hi(g, a)) == a
  {
    var h := Width(g.base);
    LowFits(a, h);
    ShrFits(a, h, h);
    SplitAt(a, h);
  }

  lemma PackFits(g: Gf, lo: nat, hi: nat)
    requires g.Tower? && In(g.base, lo) && In(g.base, hi)
    ensures In(g, Pack(g, lo, hi)) && Lo(g, Pack(g, lo, hi)) == lo && Hi(g, Pack(g, lo, hi)) == hi
  {
    var h := Width(g.base);
    var v := Pack(g, lo, hi);
    hide Xor, Shl, Shr, Low;
    BitLaws();
    forall i: nat ensures i >= h ==> !Bit(lo, i) && !Bit(hi, i) {
      if i >= h { FitsBit(lo, h, i); FitsBit(hi, h, i); }
    }
    BitsFit(v, 2 * h);
    BitExt(Low(v, h), lo);
    BitExt(Shr(v, h), hi);
  }

  lemma PackXor(g: Gf, lo: nat, hi: nat, lo': nat, hi': nat)
    requires g.Tower?
    ensures Xor(Pack(g, lo, hi), Pack(g, lo', hi')) == Pack(g, Xor(lo, lo'), Xor(hi, hi'))
  {
    var h := Width(g.base);
    hide Xor, Shl;
    ShlXor(hi, hi', h);
    XorSwap(Shl(hi, h), lo, Shl(hi', h), lo');
  }

  lemma HalvesXor(g: Gf, a: nat, b: nat)
    requires g.Tower?
    ensures Lo(g, Xor(a, b)) == Xor(Lo(g, a), Lo(g, b)) && Hi(g, Xor(a, b)) == Xor(Hi(g, a), Hi(g, b))
  {
    LowXor(a, b, Width(g.base));
    ShrXor(a, b, Width(g.base));
  }

  lemma TowerMul(g: Gf, a: nat, b: nat)
    requires g.Tower?
    ensures Mul(g, a, b) == Pack(g, Mul0(g.base, Lo(g, a), Hi(g, a), Lo(g, b), Hi(g, b)),
                                 Mul1(g.base, g.s, Lo(g, a), Hi(g, a), Lo(g, b), Hi(g, b)))
  {
  }

  lemma PartsAre(f: Gf, s: nat, a0: nat, a1: nat, b0: nat, b1: nat)
    ensures Mul0(f, a0, a1, b0, b1) == Xor(Mul(f, a0, b0), Mul(f, a1, b1))
    ensures Mul1(f, s, a0, a1, b0, b1) == Xor(Xor(Mul(f, a1, b0), Mul(f, a0, b1)), Mul(f, Mul(f, a1, b1), s))
  {
  }

  // ----- field laws, by induction on the height of the tower

  lemma {:induction false} MulFits(g: Gf, a: nat, b: nat)
    requires Ring(g) && In(g, a) && In(g, b)
    ensures In(g, Mul(g, a, b))
    decreases g, 0
  {
    match g
    case Base(w, p) => P.MulFits(a, b, w, p);
    case Tower(f, s) =>
      HalvesFit(g, a); HalvesFit(g, b);
      PartsFit(f, s, Lo(g, a), Hi(g, a), Lo(g, b), Hi(g, b));
      PackFits(g, Mul0(f, Lo(g, a), Hi(g, a), Lo(g, b), Hi(g, b)), Mul1(f, s, Lo(g, a), Hi(g, a), Lo(g, b), Hi(g, b)));
  }

  lemma PartsFit(f: Gf, s: nat, a0: nat, a1: nat, b0: nat, b1: nat)
    requires Ring(f) && In(f, s) && In(f, a0) && In(f, a1) && In(f, b0) && In(f, b1)
    ensures In(f, Mul0(f, a0, a1, b0, b1)) && In(f, Mul1(f, s, a0, a1, b0, b1))
    decreases f, 1
  {
    hide Mul, Xor;
    MulFits(f, a0, b0); MulFits(f, a1, b1); MulFits(f, a1, b0); MulFits(f, a0, b1);
    MulFits(f, Mul(f, a1, b1), s);
    var w := Width(f);
    XorFits(Mul(f, a0, b0), Mul(f, a1, b1), w);
    XorFits(Mul(f, a1, b0), Mul(f, a0, b1), w);
    XorFits(Xor(Mul(f, a1, b0), Mul(f, a0, b1)), Mul(f, Mul(f, a1, b1), s), w);
  }

  lemma {:induction false} MulComm(g: Gf, a: nat, b: nat)
    ensures Mul(g, a, b) == Mul(g, b, a)
    decreases g
  {
    match g
    case Base(w, p) => if p > 0 { P.MulComm(a, b, p); }
    case Tower(f, s) =>
      var a0, a1, b0, b1 := Lo(g, a), Hi(g, a), Lo(g, b), Hi(g, b);
      MulComm(f, a0, b0); MulComm(f, a1, b1); MulComm(f, a1, b0); MulComm(f, a0, b1);
      XorComm(Mul(f, a1, b0), Mul(f, a0, b1));
  }

  lemma {:induction false} MulXor(g: Gf, a: nat, b: nat, c: nat)
    ensures Mul(g, Xor(a, b), c) == Xor(Mul(g, a, c), Mul(g, b, c))
    decreases g, 0
  {
    match g
    case Base(w, p) => if p > 0 { P.MulXor(a, b, c, p); } else { XorZero(0); }
    case Tower(f, s) =>
      hide Xor, Lo, Hi, Pack;
      HalvesXor(g, a, b);
      PartsXor(f, s, Lo(g, a), Hi(g, a), Lo(g, b), Hi(g, b), Lo(g, c), Hi(g, c));
      PackXor(g, Mul0(f, Lo(g, a), Hi(g, a), Lo(g, c), Hi(g, c)), Mul1(f, s, Lo(g, a), Hi(g, a), Lo(g, c), Hi(g, c)),
              Mul0(f, Lo(g, b), Hi(g, b), Lo(g, c), Hi(g, c)), Mul1(f, s, Lo(g, b), Hi(g, b), Lo(g, c), Hi(g, c)));
  }

  lemma PartsXor(f: Gf, s: nat, a0: nat, a1: nat, b0: nat, b1: nat, c0: nat, c1: nat)
    ensures Mul0(f, Xor(a0, b0), Xor(a1, b1), c0, c1) == Xor(Mul0(f, a0, a1, c0, c1), Mul0(f, b0, b1, c0, c1))
    ensures Mul1(f, s, Xor(a0, b0), Xor(a1, b1), c0, c1) == Xor(Mul1(f, s, a0, a1, c0, c1), Mul1(f, s, b0, b1, c0, c1))
    decreases f, 1
  {
    hide Mul, Xor;
    MulXor(f, a0, b0, c0); MulXor(f, a1, b1, c1); MulXor(f, a1, b1, c0); MulXor(f, a0, b0, c1);
    MulXor(f, Mul(f, a1, c1), Mul(f, b1, c1), s);
    XorSwap(Mul(f, a0, c0), Mul(f, b0, c0), Mul(f, a1, c1), Mul(f, b1, c1));
    XorSwap(Mul(f, a1, c0), Mul(f, b1, c0), Mul(f, a0, c1), Mul(f, b0, c1));
    XorSwap(Xor(Mul(f, a1, c0), Mul(f, a0, c1)), Xor(Mul(f, b1, c0), Mul(f, b0, c1)),
            Mul(f, Mul(f, a1, c1), s), Mul(f, Mul(f, b1, c1), s));
  }

  lemma MulXorRight(g: Gf, a: nat, b: nat, c: nat)
    ensures Mul(g, c, Xor(a, b)) == Xor(Mul(g, c, a), Mul(g, c, b))
  {
    hide Mul, Xor;
    MulComm(g, c, Xor(a, b)); MulComm(g, c, a); MulComm(g, c, b);
    MulXor(g, a, b, c);
  }

  lemma {:induction false} MulAssoc(g: Gf, a: nat, b: nat, c: nat)
    requires Ring(g) && In(g, a) && In(g, b) && In(g, c)
    ensures Mul(g, Mul(g, a, b), c) == Mul(g, a, Mul(g, b, c))
    decreases g, 0
  {
    match g
    case Base(w, p) => P.MulAssoc(a, b, c, p);
    case Tower(f, s) =>
      hide Xor, Lo, Hi, Pack, In, Mul, Mul0, Mul1;
      var a0, a1, b0, b1, c0, c1 := Lo(g, a), Hi(g, a), Lo(g, b), Hi(g, b), Lo(g, c), Hi(g, c);
      HalvesFit(g, a); HalvesFit(g, b); HalvesFit(g, c);
      PartsFit(f, s, a0, a1, b0, b1); PartsFit(f, s, b0, b1, c0, c1);
      TowerMul(g, a, b); TowerMul(g, b, c);
      PackFits(g, Mul0(f, a0, a1, b0, b1), Mul1(f, s, a0, a1, b0, b1));
      PackFits(g, Mul0(f, b0, b1, c0, c1), Mul1(f, s, b0, b1, c0, c1));
      TowerMul(g, Mul(g, a, b), c); TowerMul(g, a, Mul(g, b, c));
      AssocLow(f, s, a0, a1, b0, b1, c0, c1);
      AssocHigh(f, s, a0, a1, b0, b1, c0, c1);
  }

  /** `(x*y)*s)*z == ((x*y)*z)*s` and `x*((y*z)*s) == ((x*y)*z)*s` in the base field. */
  lemma ScalarOut(f: Gf, s: nat, x: nat, y: nat, z: nat)
    requires Ring(f) && In(f, s) && In(f, x) && In(f, y) && In(f, z)
    ensures Mul(f, Mul(f, Mul(f, x, y), s), z) == Mul(f, Mul(f, Mul(f, x, y), z), s)
    ensures Mul(f, x, Mul(f, Mul(f, y, z), s)) == Mul(f, Mul(f, Mul(f, x, y), z), s)
    decreases f, 1
  {
    hide Mul;
    MulFits(f, x, y); MulFits(f, y, z);
    MulAssoc(f, Mul(f, x, y), s, z); MulComm(f, s, z); MulAssoc(f, Mul(f, x, y), z, s);
    MulAssoc(f, x, Mul(f, y, z), s); MulAssoc(f, x, y, z);
  }

  /** The triple product of coefficients, associated to the left. */
  function Triple(f: Gf, x: nat, y: nat, z: nat): nat {
    Mul(f, Mul(f, x, y), z)
  }

  lemma AssocLow(f: Gf, s: nat, a0: nat, a1: nat, b0: nat, b1: nat, c0: nat, c1: nat)
    requires Ring(f) && In(f, s) && In(f, a0) && In(f, a1) && In(f, b0) && In(f, b1) && In(f, c0) && In(f, c1)
    ensures Mul0(f, Mul0(f, a0, a1, b0, b1), Mul1(f, s, a0, a1, b0, b1), c0, c1)
            == Mul0(f, a0, a1, Mul0(f, b0, b1, c0, c1), Mul1(f, s, b0, b1, c0, c1))
    decreases f, 3
  {
    hide *;
    var p0, p1 := Mul0(f, a0, a1, b0, b1), Mul1(f, s, a0, a1, b0, b1);
    var q0, q1 := Mul0(f, b0, b1, c0, c1), Mul1(f, s, b0, b1, c0, c1);
    PartsAre(f, s, p0, p1, c0, c1); PartsAre(f, s, a0, a1, q0, q1);
    LeftExpand(f, s, a0, a1, b0, b1, c0); LeftExpand(f, s, a0, a1, b0, b1, c1);
    RightExpand(f, s, a0, b0, b1, c0, c1); RightExpand(f, s, a1, b0, b1, c0, c1);
    XorFive(Triple(f, a0, b0, c0), Triple(f, a1, b1, c0), Triple(f, a1, b0, c1), Triple(f, a0, b1, c1),
            Mul(f, Triple(f, a1, b1, c1), s));
  }

  lemma XorFive(p: nat, q: nat, r: nat, t: nat, u: nat)
    ensures Xor(Xor(p, q), Xor(Xor(r, t), u)) == Xor(Xor(p, t), Xor(Xor(q, r), u))
  {
    BitLaws();
    hide Xor;
    BitExt(Xor(Xor(p, q), Xor(Xor(r, t), u)), Xor(Xor(p, t), Xor(Xor(q, r), u)));
  }

  /** Coefficients of a product times `z`, expanded. */
  lemma LeftExpand(f: Gf, s: nat, a0: nat, a1: nat, b0: nat, b1: nat, z: nat)
    requires Ring(f) && In(f, s) && In(f, a0) && In(f, a1) && In(f, b0) && In(f, b1) && In(f, z)
    ensures Mul(f, Mul0(f, a0, a1, b0, b1), z) == Xor(Triple(f, a0, b0, z), Triple(f, a1, b1, z))
    ensures Mul(f, Mul1(f, s, a0, a1, b0, b1), z)
            == Xor(Xor(Triple(f, a1, b0, z), Triple(f, a0, b1, z)), Mul(f, Triple(f, a1, b1, z), s))
    decreases f, 2
  {
    hide Mul, Xor, Ring, In;
    MulXor(f, Mul(f, a0, b0), Mul(f, a1, b1), z);
    MulXor(f, Xor(Mul(f, a1, b0), Mul(f, a0, b1)), Mul(f, Mul(f, a1, b1), s), z);
    MulXor(f, Mul(f, a1, b0), Mul(f, a0, b1), z);
    ScalarOut(f, s, a1, b1, z);
  }

  /** `x` times the coefficients of a product, expanded. */
  lemma RightExpand(f: Gf, s: nat, x: nat, b0: nat, b1: nat, c0: nat, c1: nat)
    requires Ring(f) && In(f, s) && In(f, x) && In(f, b0) && In(f, b1) && In(f, c0) && In(f, c1)
    ensures Mul(f, x, Mul0(f, b0, b1, c0, c1)) == Xor(Triple(f, x, b0, c0), Triple(f, x, b1, c1))
    ensures Mul(f, x, Mul1(f, s, b0, b1, c0, c1))
            == Xor(Xor(Triple(f, x, b1, c0), Triple(f, x, b0, c1)), Mul(f, Triple(f, x, b1, c1), s))
    decreases f, 2
  {
    hide Mul, Xor, Ring, In;
    MulXorRight(f, Mul(f, b0, c0), Mul(f, b1, c1), x);
    MulXorRight(f, Xor(Mul(f, b1, c0), Mul(f, b0, c1)), Mul(f, Mul(f, b1, c1), s), x);
    MulXorRight(f, Mul(f, b1, c0), Mul(f, b0, c1), x);
    MulAssoc(f, x, b0, c0); MulAssoc(f, x, b1, c1); MulAssoc(f, x, b1, c0); MulAssoc(f, x, b0, c1);
    ScalarOut(f, s, x, b1, c1);
  }

  lemma AssocHigh(f: Gf, s: nat, a0: nat, a1: nat, b0: nat, b1: nat, c0: nat, c1: nat)
    requires Ring(f) && In(f, s) && In(f, a0) && In(f, a1) && In(f, b0) && In(f, b1) && In(f, c0) && In(f, c1)
    ensures Mul1(f, s, Mul0(f, a0, a1, b0, b1), Mul1(f, s, a0, a1, b0, b1), c0, c1)
            == Mul1(f, s, a0, a1, Mul0(f, b0, b1, c0, c1), Mul1(f, s, b0, b1, c0, c1))
    decreases f, 3
  {
    hide *;
    var p0, p1 := Mul0(f, a0, a1, b0, b1), Mul1(f, s, a0, a1, b0, b1);
    var q0, q1 := Mul0(f, b0, b1, c0, c1), Mul1(f, s, b0, b1, c0, c1);
    PartsAre(f, s, p0, p1, c0, c1); PartsAre(f, s, a0, a1, q0, q1);
    LeftExpand(f, s, a0, a1, b0, b1, c0); LeftExpand(f, s, a0, a1, b0, b1, c1);
    RightExpand(f, s, a0, b0, b1, c0, c1); RightExpand(f, s, a1, b0, b1, c0, c1);
    var t100, t010, t001, t111 := Triple(f, a1, b0, c0), Triple(f, a0, b1, c0), Triple(f, a0, b0, c1), Triple(f, a1, b1, c1);
    var t110, t101, t011 := Triple(f, a1, b1, c0), Triple(f, a1, b0, c1), Triple(f, a0, b1, c1);
    var m := Mul(f, t111, s);
    // the terms multiplied by s
    MulXor(f, Xor(t101, t011), m, s); MulXor(f, t101, t011, s);
    MulXor(f, Xor(t110, t101), m, s); MulXor(f, t110, t101, s);
    XorEight(t100, t010, Mul(f, t110, s), t001, t111, Mul(f, t101, s), Mul(f, t011, s), Mul(f, m, s));
  }

  lemma XorEight(a: nat, b: nat, c: nat, d: nat, e: nat, x: nat, y: nat, z: nat)
    ensures Xor(Xor(Xor(Xor(a, b), c), Xor(d, e)), Xor(Xor(x, y), z))
            == Xor(Xor(Xor(a, e), Xor(Xor(b, d), y)), Xor(Xor(c, x), z))
  {
    BitLaws();
    hide Xor;
    BitExt(Xor(Xor(Xor(Xor(a, b), c), Xor(d, e)), Xor(Xor(x, y), z)),
           Xor(Xor(Xor(a, e), Xor(Xor(b, d), y)), Xor(Xor(c, x), z)));
  }

  lemma {:induction false} OneIn(g: Gf)
    requires Ring(g)
    ensures In(g, 1) && Width(g) >= 1
  {
    hide NoRoot;
    if g.Tower? { OneIn(g.base); }
    Pow2Mono(1, Width(g));
  }

  lemma {:induction false} MulZero(g: Gf, a: nat)
    ensures Mul(g, 0, a) == 0 && Mul(g, a, 0) == 0
  {
    MulXor(g, 0, 0, a);
    XorSelf(0); XorSelf(Mul(g, 0, a));
    MulComm(g, a, 0);
  }

  lemma {:induction false} MulOne(g: Gf, a: nat)
    requires Ring(g) && In(g, a)
    ensures Mul(g, 1, a) == a && Mul(g, a, 1) == a
  {
    MulComm(g, a, 1);
    match g
    case Base(w, p) => P.MulOne(a, w, p);
    case Tower(f, s) =>
      hide Xor, In, Pack, Lo, Hi, Mul, NoRoot;
      OneHalves(g);
      HalvesFit(g, a);
      OneIn(f);
      TowerMul(g, 1, a);
      MulOne(f, Lo(g, a)); MulOne(f, Hi(g, a));
      MulZero(f, Hi(g, a)); MulZero(f, Lo(g, a)); MulZero(f, s);
      XorZero(Lo(g, a)); XorZero(Hi(g, a));
  }

  lemma OneHalves(g: Gf)
    requires Ring(g) && g.Tower?
    ensures Lo(g, 1) == 1 && Hi(g, 1) == 0 && Pack(g, 1, 0) == 1
  {
    hide NoRoot;
    OneIn(g.base);
    LowId(1, Width(g.base));
    ShrFits(1, Width(g.base), 0);
    ShlZero(Width(g.base)); XorZero(1);
  }

  // ----- inversion

  /** The divisor of the general branch is never zero: a zero would be a root. */
  lemma DivisorNonZero(f: Gf, s: nat, u: nat, v: nat)
    requires Ring(f) && In(f, s) && NoRoot(f, s) && In(f, u) && In(f, v) && Mul(f, u, v) == 1
    ensures Xor(Xor(u, v), s) != 0
  {
    if Xor(Xor(u, v), s) == 0 {
      hide Mul, Xor, Ring;
      XorCancel(Xor(u, v), s);
      MulXorRight(f, u, v, u);
      MulComm(f, s, u);
      var q := Mul(f, u, u);
      // s*u == u*u ^ 1
      XorAssoc(q, Xor(q, 1), 1);
      XorCancel(q, 1); XorSelf(1);
      assert Xor(Xor(q, Mul(f, s, u)), 1) == 0;
    }
  }

  lemma {:induction false} InverseCorrect(g: Gf, a: nat)
    requires Valid(g) && In(g, a) && a != 0
    ensures In(g, Inv(g, a)) && Mul(g, a, Inv(g, a)) == 1
    decreases g
  {
    match g
    case Base(w, p) =>
      P.IrreducibleCoprime(a, w, p);
      var y := P.CoprimeInvertible(a, w, p);
    case Tower(f, s) =>
      HalvesFit(g, a);
      var a0, a1 := Lo(g, a), Hi(g, a);
      if a0 == 0 {
        HighNonZero(g, a);
        InverseCorrect(f, a1);
        InverseHigh(g, a);
      } else if a1 == 0 {
        InverseCorrect(f, a0);
        InverseLow(g, a);
      } else {
        InverseCorrect(f, a0); InverseCorrect(f, a1);
        var tmp := Divisor(g, a);
        DivisorFits(g, a);
        InverseCorrect(f, tmp);
        InverseBoth(g, a);
      }
  }

  lemma HighNonZero(g: Gf, a: nat)
    requires g.Tower? && In(g, a) && a != 0 && Lo(g, a) == 0
    ensures Hi(g, a) != 0
  {
    HalvesFit(g, a);
    ShlZero(Width(g.base)); XorZero(0);
  }

  /** To be one, a product must have coefficients 1 and 0. */
  lemma ProductIsOne(g: Gf, a: nat, c0: nat, c1: nat)
    requires Ring(g) && g.Tower? && In(g, a) && In(g.base, c0) && In(g.base, c1)
    requires Mul0(g.base, Lo(g, a), Hi(g, a), c0, c1) == 1 && Mul1(g.base, g.s, Lo(g, a), Hi(g, a), c0, c1) == 0
    ensures In(g, Pack(g, c0, c1)) && Mul(g, a, Pack(g, c0, c1)) == 1
  {
    hide Mul, Mul0, Mul1, Pack, Lo, Hi, NoRoot, In;
    PackFits(g, c0, c1);
    TowerMul(g, a, Pack(g, c0, c1));
    OneHalves(g);
  }

  lemma InverseHigh(g: Gf, a: nat)
    requires Valid(g) && g.Tower? && In(g, a) && Lo(g, a) == 0
    requires var i := Inv(g.base, Hi(g, a)); In(g.base, i) && Mul(g.base, Hi(g, a), i) == 1
    ensures In(g, Inv(g, a)) && Mul(g, a, Inv(g, a)) == 1
  {
    var f, s, a1 := g.base, g.s, Hi(g, a);
    var i := Inv(f, a1);
    InvHigh(g, a);
    hide Mul, Xor, Pack, Lo, Hi, NoRoot, In, Inv;
    HalvesFit(g, a);
    MulFits(f, i, s);
    var c0 := Mul(f, i, s);
    MulZero(f, c0); MulZero(f, i);
    MulAssoc(f, a1, i, s); MulOne(f, s);
    XorZero(1); XorZero(s); XorSelf(s);
    ProductIsOne(g, a, c0, i);
  }

  lemma InvHigh(g: Gf, a: nat)
    requires g.Tower? && Lo(g, a) == 0
    ensures Inv(g, a) == Pack(g, Mul(g.base, Inv(g.base, Hi(g, a)), g.s), Inv(g.base, Hi(g, a)))
  {
  }

  lemma InverseLow(g: Gf, a: nat)
    requires Valid(g) && g.Tower? && In(g, a) && Lo(g, a) != 0 && Hi(g, a) == 0
    requires var i := Inv(g.base, Lo(g, a)); In(g.base, i) && Mul(g.base, Lo(g, a), i) == 1
    ensures In(g, Inv(g, a)) && Mul(g, a, Inv(g, a)) == 1
  {
    var f, s, a0 := g.base, g.s, Lo(g, a);
    var i := Inv(f, a0);
    InvLow(g, a);
    hide Mul, Xor, Pack, Lo, Hi, NoRoot, Inv;
    MulZero(f, 0); MulZero(f, i); MulZero(f, a0); MulZero(f, s);
    XorZero(1); XorZero(0);
    ProductIsOne(g, a, i, 0);
  }

  lemma InvLow(g: Gf, a: nat)
    requires g.Tower? && Lo(g, a) != 0 && Hi(g, a) == 0
    ensures Inv(g, a) == Pack(g, Inv(g.base, Lo(g, a)), 0)
  {
  }

  /** The value inverted in the general branch. */
  ghost function Divisor(g: Gf, a: nat): nat
    requires g.Tower?
  {
    var f, a0, a1 := g.base, Lo(g, a), Hi(g, a);
    Xor(Xor(Mul(f, a1, Inv(f, a0)), Mul(f, a0, Inv(f, a1))), g.s)
  }

  ghost predicate BothInvertible(g: Gf, a: nat) {
    && Valid(g) && g.Tower? && In(g, a) && Lo(g, a) != 0 && Hi(g, a) != 0
    && var f, a0, a1 := g.base, Lo(g, a), Hi(g, a);
       In(f, Inv(f, a0)) && Mul(f, a0, Inv(f, a0)) == 1 && In(f, Inv(f, a1)) && Mul(f, a1, Inv(f, a1)) == 1
  }

  lemma DivisorFits(g: Gf, a: nat)
    requires BothInvertible(g, a)
    ensures In(g.base, Divisor(g, a)) && Divisor(g, a) != 0
  {
    var f, s, a0, a1 := g.base, g.s, Lo(g, a), Hi(g, a);
    HalvesFit(g, a);
    var i0, i1 := Inv(f, a0), Inv(f, a1);
    var u, v := Mul(f, a1, i0), Mul(f, a0, i1);
    MulFits(f, a1, i0); MulFits(f, a0, i1);
    RatiosInverse(f, a0, a1, i0, i1);
    DivisorNonZero(f, s, u, v);
    XorFits(u, v, Width(f)); XorFits(Xor(u, v), s, Width(f));
  }

  /** `(a1/a0) * (a0/a1) == 1` */
  lemma RatiosInverse(f: Gf, a0: nat, a1: nat, i0: nat, i1: nat)
    requires Ring(f) && In(f, a0) && In(f, a1) && In(f, i0) && In(f, i1)
    requires Mul(f, a0, i0) == 1 && Mul(f, a1, i1) == 1
    ensures Mul(f, Mul(f, a1, i0), Mul(f, a0, i1)) == 1
  {
    hide Mul, Ring, In;
    MulFits(f, a0, i1);
    MulAssoc(f, a1, i0, Mul(f, a0, i1));
    MulAssoc(f, i0, a0, i1);
    MulComm(f, i0, a0);
    MulOne(f, i1);
  }

  lemma InverseBoth(g: Gf, a: nat)
    requires BothInvertible(g, a)
    requires var t := Divisor(g, a); In(g.base, Inv(g.base, t)) && Mul(g.base, t, Inv(g.base, t)) == 1
    ensures In(g, Inv(g, a)) && Mul(g, a, Inv(g, a)) == 1
  {
    var f, s, a0, a1 := g.base, g.s, Lo(g, a), Hi(g, a);
    var i0, i1, j := Inv(f, a0), Inv(f, a1), Inv(f, Divisor(g, a));
    var e := Mul(f, Mul(f, a1, i0), j);
    InvBoth(g, a);
    HalvesFit(g, a);
    MulFits(f, a1, i0); MulFits(f, Mul(f, a1, i0), j);
    OneIn(f); XorFits(e, 1, Width(f));
    MulFits(f, Xor(e, 1), i0); MulFits(f, e, i1);
    InverseConstant(f, a0, a1, i0, i1, e);
    InverseLinear(f, s, a0, a1, i0, i1, j);
    ProductIsOne(g, a, Mul(f, Xor(e, 1), i0), Mul(f, e, i1));
  }

  lemma InvBoth(g: Gf, a: nat)
    requires g.Tower? && Lo(g, a) != 0 && Hi(g, a) != 0
    ensures var f, a0, a1 := g.base, Lo(g, a), Hi(g, a);
            var e := Mul(f, Mul(f, a1, Inv(f, a0)), Inv(f, Divisor(g, a)));
            Inv(g, a) == Pack(g, Mul(f, Xor(e, 1), Inv(f, a0)), Mul(f, e, Inv(f, a1)))
  {
  }

  /** `x * (y * (1/x)) == y` */
  lemma CancelOut(f: Gf, x: nat, i: nat, y: nat)
    requires Ring(f) && In(f, x) && In(f, i) && In(f, y) && Mul(f, x, i) == 1
    ensures Mul(f, x, Mul(f, y, i)) == y
  {
    hide Mul, Ring, In;
    MulComm(f, y, i);
    MulAssoc(f, x, i, y);
    MulOne(f, y);
  }

  lemma InverseConstant(f: Gf, a0: nat, a1: nat, i0: nat, i1: nat, e: nat)
    requires Ring(f) && In(f, a0) && In(f, a1) && In(f, i0) && In(f, i1) && In(f, e) && In(f, Xor(e, 1))
    requires Mul(f, a0, i0) == 1 && Mul(f, a1, i1) == 1
    ensures Mul0(f, a0, a1, Mul(f, Xor(e, 1), i0), Mul(f, e, i1)) == 1
  {
    hide Mul, Ring, In, Xor;
    CancelOut(f, a0, i0, Xor(e, 1));
    CancelOut(f, a1, i1, e);
    XorComm(e, 1);
    XorCancel(1, e);
  }

  lemma InverseLinear(f: Gf, s: nat, a0: nat, a1: nat, i0: nat, i1: nat, j: nat)
    requires Ring(f) && In(f, s) && In(f, a0) && In(f, a1) && In(f, i0) && In(f, i1) && In(f, j)
    requires Mul(f, a0, i0) == 1 && Mul(f, a1, i1) == 1
    requires Mul(f, Xor(Xor(Mul(f, a1, i0), Mul(f, a0, i1)), s), j) == 1
    ensures var e := Mul(f, Mul(f, a1, i0), j);
            Mul1(f, s, a0, a1, Mul(f, Xor(e, 1), i0), Mul(f, e, i1)) == 0
  {
    hide *;
    var u, v := Mul(f, a1, i0), Mul(f, a0, i1);
    var e := Mul(f, u, j);
    OneIn(f);
    MulFits(f, a1, i0); MulFits(f, a0, i1); MulFits(f, u, j);
    PartsAre(f, s, a0, a1, Mul(f, Xor(e, 1), i0), Mul(f, e, i1));
    // a1 * ((e + 1) * i0) == e*u + u
    RegroupSum(f, a1, i0, e);
    // a0 * (e * i1) == e*v,  (a1 * (e * i1)) * s == e*s
    Regroup(f, a0, i1, e);
    CancelOut(f, a1, i1, e);
    // e * (u + v + s) == u
    EtimesDivisor(f, s, u, v, j);
    MulXorRight(f, Xor(u, v), s, e); MulXorRight(f, u, v, e);
    LinearXor(Mul(f, e, u), Mul(f, e, v), Mul(f, e, s), u);
  }

  lemma Regroup(f: Gf, x: nat, i: nat, e: nat)
    requires Ring(f) && In(f, x) && In(f, i) && In(f, e)
    ensures Mul(f, x, Mul(f, e, i)) == Mul(f, e, Mul(f, x, i))
  {
    hide *;
    MulAssoc(f, x, e, i); MulComm(f, x, e); MulAssoc(f, e, x, i);
  }

  lemma RegroupSum(f: Gf, x: nat, i: nat, e: nat)
    requires Ring(f) && In(f, x) && In(f, i) && In(f, e) && In(f, 1)
    ensures Mul(f, x, Mul(f, Xor(e, 1), i)) == Xor(Mul(f, e, Mul(f, x, i)), Mul(f, x, i))
  {
    hide *;
    MulXor(f, e, 1, i);
    MulXorRight(f, Mul(f, e, i), Mul(f, 1, i), x);
    Regroup(f, x, i, e);
    MulOne(f, i);
  }

  lemma EtimesDivisor(f: Gf, s: nat, u: nat, v: nat, j: nat)
    requires Ring(f) && In(f, s) && In(f, u) && In(f, v) && In(f, j)
    requires Mul(f, Xor(Xor(u, v), s), j) == 1
    ensures Mul(f, Mul(f, u, j), Xor(Xor(u, v), s)) == u
  {
    hide *;
    var t := Xor(Xor(u, v), s);
    SumIn(f, u, v); SumIn(f, Xor(u, v), s);
    MulAssoc(f, u, j, t);
    MulComm(f, j, t);
    MulOne(f, u);
  }

  lemma SumIn(f: Gf, u: nat, v: nat)
    requires In(f, u) && In(f, v)
    ensures In(f, Xor(u, v))
  {
    XorFits(u, v, Width(f));
  }

  lemma LinearXor(a: nat, b: nat, c: nat, u: nat)
    requires Xor(Xor(a, b), c) == u
    ensures Xor(Xor(Xor(a, u), b), c) == 0
  {
    BitLaws();
    hide Xor;
    forall i: nat ensures Bit(Xor(Xor(Xor(a, u), b), c), i) == Bit(0, i) {
      assert Bit(u, i) == Bit(Xor(Xor(a, b), c), i);
    }
    BitExt(Xor(Xor(Xor(a, u), b), c), 0);
  }

  /** A composite field of any height has no zero divisors: it is again a field. */
  lemma NoZeroDivisors(g: Gf, a: nat, b: nat)
    requires Valid(g) && In(g, a) && In(g, b) && Mul(g, a, b) == 0
    ensures a == 0 || b == 0
  {
    hide Mul, Valid, In;
    ValidIsRing(g);
    if a != 0 {
      InverseCorrect(g, a);
      var i := Inv(g, a);
      MulComm(g, a, i);
      MulAssoc(g, i, a, b);
      MulZero(g, i);
      MulOne(g, b);
    }
  }

  lemma InverseUnique(g: Gf, a: nat, y: nat)
    requires Valid(g) && In(g, a) && In(g, y) && Mul(g, a, y) == 1
    ensures a != 0 && y == Inv(g, a)
  {
    hide Mul, Valid, In;
    ValidIsRing(g);
    MulZero(g, y);
    OneIn(g);
    InverseCorrect(g, a);
    var i := Inv(g, a);
    MulComm(g, a, i); MulAssoc(g, i, a, y);
    MulOne(g, y); MulOne(g, i);
  }

  /** The no-root condition is exact: a root `r` splits the modulus and breaks the field. */
  lemma RootMakesZeroDivisors(g: Gf, r: nat) returns (a: nat, b: nat)
    requires g.Tower? && Ring(g.base) && In(g.base, g.s) && In(g.base, r)
    requires Xor(Xor(Mul(g.base, r, r), Mul(g.base, g.s, r)), 1) == 0
    ensures In(g, a) && In(g, b) && a != 0 && b != 0 && Mul(g, a, b) == 0
  {
    hide *;
    var f, s := g.base, g.s;
    OneIn(f); SumIn(f, r, s);
    a, b := Pack(g, r, 1), Pack(g, Xor(r, s), 1);
    PackFits(g, r, 1); PackFits(g, Xor(r, s), 1);
    TowerMul(g, a, b);
    PartsAre(f, s, r, 1, Xor(r, s), 1);
    MulXorRight(f, r, s, r); MulComm(f, r, s);
    MulOne(f, 1); MulOne(f, Xor(r, s)); MulOne(f, r); MulOne(f, s);
    XorComm(r, s); XorCancel(s, r); XorSelf(s);
    ZeroHalves(g);
  }

  lemma ZeroHalves(g: Gf)
    requires g.Tower?
    ensures Pack(g, 0, 0) == 0 && Hi(g, 0) == 0
  {
    ShlZero(Width(g.base)); XorZero(0);
    ShrZero(Width(g.base));
  }

  // ----- the tower is the base field with a root of x^2 + s*x + 1 adjoined

  /** Elements of the base are elements of the tower with high half 0. */
  lemma Embedded(g: Gf, a: nat)
    requires g.Tower? && In(g.base, a)
    ensures In(g, a) && Lo(g, a) == a && Hi(g, a) == 0 && Pack(g, a, 0) == a
  {
    hide Xor, Lo, Hi, In;
    ShlZero(Width(g.base));
    XorZero(a);
    assert In(g.base, 0) by { ZeroIn(g.base); }
    PackFits(g, a, 0);
  }

  lemma ZeroIn(f: Gf)
    ensures In(f, 0)
  {
  }

  /** On the base the two products agree. */
  lemma EmbeddedMul(g: Gf, a: nat, b: nat)
    requires Ring(g) && g.Tower? && In(g.base, a) && In(g.base, b)
    ensures Mul(g, a, b) == Mul(g.base, a, b)
  {
    hide Mul, Mul0, Mul1, Ring, Xor, Lo, Hi, Pack, In;
    TowerRing(g);
    Embedded(g, a); Embedded(g, b);
    TowerMul(g, a, b);
    PartsAre(g.base, g.s, a, 0, b, 0);
    MulZero(g.base, a); MulZero(g.base, b); MulZero(g.base, 0); MulZero(g.base, g.s);
    XorZero(Mul(g.base, a, b)); XorZero(0);
    MulFits(g.base, a, b);
    Embedded(g, Mul(g.base, a, b));
  }

  lemma TowerRing(g: Gf)
    requires Ring(g) && g.Tower?
    ensures Ring(g.base) && In(g.base, g.s)
  {
  }

  /** With X the adjoined element, every element is `lo + hi*X` and `X*X == s*X + 1`. */
  lemma AdjoinedRoot(g: Gf, lo: nat, hi: nat)
    requires Ring(g) && g.Tower? && In(g.base, lo) && In(g.base, hi)
    ensures var x := Pack(g, 0, 1);
            Pack(g, lo, hi) == Xor(lo, Mul(g, hi, x)) && Mul(g, x, x) == Xor(Mul(g, g.s, x), 1)
  {
    hide Mul, Mul0, Mul1, Ring, Xor, Lo, Hi, Pack, In;
    TowerRing(g);
    ZeroIn(g.base); OneIn(g.base);
    TimesAdjoined(g, hi); TimesAdjoined(g, g.s);
    Embedded(g, lo); Embedded(g, 1);
    PackXor(g, lo, 0, 0, hi);
    XorZero(lo); XorZero(hi);
    var x := Pack(g, 0, 1);
    PackFits(g, 0, 1);
    TowerMul(g, x, x);
    PartsAre(g.base, g.s, 0, 1, 0, 1);
    MulZero(g.base, 0); MulZero(g.base, 1); MulOne(g.base, 1); MulOne(g.base, g.s);
    XorZero(1); XorZero(0); XorZero(g.s);
    PackXor(g, 0, g.s, 1, 0);
  }

  lemma TimesAdjoined(g: Gf, a: nat)
    requires Ring(g) && g.Tower? && In(g.base, a)
    ensures Mul(g, a, Pack(g, 0, 1)) == Pack(g, 0, a)
  {
    hide Mul, Mul0, Mul1, Ring, Xor, Lo, Hi, Pack, In;
    TowerRing(g);
    ZeroIn(g.base); OneIn(g.base);
    Embedded(g, a);
    PackFits(g, 0, 1);
    TowerMul(g, a, Pack(g, 0, 1));
    PartsAre(g.base, g.s, a, 0, 0, 1);
    MulZero(g.base, a); MulZero(g.base, 0); MulZero(g.base, 1); MulZero(g.base, g.s); MulOne(g.base, a);
    XorZero(a); XorZero(0);
  }
}
