/**
 Region multiplications over byte memory (`gf_set_region_data`,
 `gf_slow_multiply_region`, the initial and final alignment, and the word loop in
 between), against the word-by-word definition that `gf_general_do_region_check` uses.

 Addresses are indices into one memory, so source and destination may be the same
 region. A unit is the smallest piece handled alone: `wb` bytes holding `ln` elements of
 `w` bits (one element for w >= 8, two for w = 4).
 */
module Region {
  import opened Bits
  import opened Poly
  import C = Composite
  import opened WordList
  import opened Lanes

  /** The field, elements per unit, and bytes per unit. */
  datatype Layout = Layout(g: C.Gf, ln: nat, wb: nat) {
    function w(): nat {
      C.Width(g)
    }
  }

  ghost predicate IsLayout(f: Layout) {
    C.Ring(f.g) && f.ln >= 1 && f.wb >= 1 && Width(f.w(), f.ln) == Width(8, f.wb)
  }

  /** `c` times every lane. */
  function ScaledIn(ls: seq<nat>, c: nat, g: C.Gf): (r: seq<nat>)
    ensures |r| == |ls|
  {
    if ls == [] then [] else [C.Mul(g, c, ls[0])] + ScaledIn(ls[1..], c, g)
  }

  function TimesIn(word: nat, c: nat, g: C.Gf, n: nat): nat {
    Value(C.Width(g), ScaledIn(Lanes.Split(word, C.Width(g), n), c, g))
  }

  lemma {:induction false} ScaledInWords(ls: seq<nat>, c: nat, g: C.Gf)
    requires C.Ring(g) && C.In(g, c) && AreWords(C.Width(g), ls)
    ensures AreWords(C.Width(g), ScaledIn(ls, c, g))
  {
    hide C.Mul, C.Ring;
    if ls != [] {
      ScaledInWords(ls[1..], c, g);
      C.MulFits(g, c, ls[0]);
    }
  }

  /** In a plain field this is the lane product of the by-two code. */
  lemma {:induction false} ScaledInBase(ls: seq<nat>, c: nat, g: C.Gf)
    requires g.Base? && g.p > 0
    ensures ScaledIn(ls, c, g) == Scaled(ls, c, g.p)
  {
    if ls != [] { ScaledInBase(ls[1..], c, g); }
  }

  // ----- what a region multiplication means

  /** `val` times a unit, added to the old destination if asked. */
  function UnitProduct(f: Layout, s: nat, d: nat, val: nat, xor: bool): (r: nat)
  {
    if xor then Xor(d, TimesIn(s, val, f.g, f.ln)) else TimesIn(s, val, f.g, f.ln)
  }

  function UnitBytes(f: Layout, s: seq<nat>, d: seq<nat>, val: nat, xor: bool): (r: seq<nat>)
    ensures |r| == f.wb
  {
    Split(UnitProduct(f, Value(8, s), Value(8, d), val, xor), 8, f.wb)
  }

  /** Unit by unit over whole byte ranges. */
  function MulBytes(f: Layout, s: seq<nat>, d: seq<nat>, val: nat, xor: bool): (r: seq<nat>)
    requires f.wb >= 1 && |s| == |d|
    decreases |s|
  {
    if |s| < f.wb then []
    else UnitBytes(f, s[..f.wb], d[..f.wb], val, xor) + MulBytes(f, s[f.wb..], d[f.wb..], val, xor)
  }

  /** `k` units. */
  ghost predicate Units(f: Layout, len: int, k: nat) {
    len == Width(f.wb, k)
  }

  lemma {:induction false} MulBytesLen(f: Layout, s: seq<nat>, d: seq<nat>, val: nat, xor: bool, k: nat)
    requires f.wb >= 1 && |s| == |d| && Units(f, |s|, k)
    ensures |MulBytes(f, s, d, val, xor)| == |s|
    decreases k
  {
    if k > 0 { MulBytesLen(f, s[f.wb..], d[f.wb..], val, xor, k - 1); }
  }

  lemma WidthStep(h: nat, k: nat)
    ensures k == 0 ==> Width(h, k) == 0
    ensures k > 0 ==> Width(h, k) == h + Width(h, k - 1)
  {
  }

  /** Ranges may be processed piece by piece. */
  lemma {:induction false} MulBytesConcat(f: Layout, s: seq<nat>, s': seq<nat>, d: seq<nat>, d': seq<nat>, val: nat, xor: bool, k: nat)
    requires f.wb >= 1 && |s| == |d| && |s'| == |d'| && Units(f, |s|, k)
    ensures MulBytes(f, s + s', d + d', val, xor) == MulBytes(f, s, d, val, xor) + MulBytes(f, s', d', val, xor)
    decreases k
  {
    hide UnitBytes, Width;
    var wb := f.wb;
    WidthStep(wb, k);
    if k == 0 {
      assert s + s' == s' && d + d' == d';
    } else {
      MulBytesConcat(f, s[wb..], s', d[wb..], d', val, xor, k - 1);
      assert (s + s')[..wb] == s[..wb] && (d + d')[..wb] == d[..wb];
      assert (s + s')[wb..] == s[wb..] + s' && (d + d')[wb..] == d[wb..] + d';
    }
  }

  /** Memory with a range overwritten. */
  function Patch(m: seq<nat>, at: nat, bs: seq<nat>): (r: seq<nat>)
    requires at + |bs| <= |m|
    ensures |r| == |m|
  {
    m[..at] + bs + m[at + |bs|..]
  }

  /** Source and destination: the same range or disjoint ones. */
  predicate Compatible(src: nat, dest: nat, len: nat) {
    src == dest || src + len <= dest || dest + len <= src
  }

  ghost predicate IsMemory(m: seq<nat>) {
    AreWords(8, m)
  }

  // ----- splitting the region

  datatype RegionData = RegionData(sStart: int, dStart: int, sTop: int, dTop: int)
  datatype Setup = Ready(rd: RegionData) | Exit

  /** The C operator `%` on `int`: the remainder has the sign of the dividend. */
  function Rem(x: int, m: int): int
    requires m >= 1
  {
    if x >= 0 then x % m else -((-x) % m)
  }

  function WordBytes(w: nat): (wb: nat)
    ensures wb >= 1
  {
    if w / 8 == 0 then 1 else w / 8
  }

  /** Bytes from `src` to the next multiple of `a`. */
  function Gap(src: nat, a: nat): (g: nat)
    requires a >= 1
    ensures g < a && (src + g) % a == 0
  {
    GapAligns(src, a);
    if src % a != 0 then a - src % a else 0
  }

  lemma GapAligns(src: nat, a: nat)
    requires a >= 1
    ensures src % a != 0 ==> (src + (a - src % a)) % a == 0
  {
    var q, r := src / a, src % a;
    assert src == q * a + r;
    if r != 0 {
      assert src + (a - r) == (q + 1) * a;
      MultipleMod(q + 1, a);
    }
  }

  /** Quotient and remainder are determined by their defining equation. */
  lemma IntDivMod(x: int, a: nat, k: int, r: nat)
    requires a >= 1 && x == k * a + r && r < a
    ensures x / a == k && x % a == r
  {
    var k', r' := x / a, x % a;
    var m := k - k';
    assert m * a == k * a - k' * a;
    if m >= 1 {
      MulAtLeast(m, a);
    } else if m <= -1 {
      assert (-m) * a == k' * a - k * a;
      MulAtLeast(-m, a);
    }
  }

  lemma MulAtLeast(m: nat, a: nat)
    requires m >= 1
    ensures m * a >= a
  {
  }

  lemma MultipleMod(q: nat, a: nat)
    requires a >= 1
    ensures (q * a) % a == 0
  {
    IntDivMod(q * a, a, q, 0);
  }

  lemma SmallMod(x: nat, a: nat)
    requires x < a
    ensures x % a == x
  {
    IntDivMod(x, a, 0, x);
  }

  /** `gf_set_region_data`; `align == -1` is the Cauchy case, `Exit` the error exits. */
  function SetRegionData(w: nat, src: nat, dest: nat, bytes: nat, align: int): (r: Setup)
    requires w >= 1 && (align == -1 || align >= 1)
  {
    var wb := WordBytes(w);
    if align == -1 then
      if bytes % w != 0 then Exit else Ready(RegionData(src, dest, src + bytes, src + bytes))
    else
      var a := if align <= 16 then align else 16;
      if src % a != dest % a || src % wb != 0 || bytes % wb != 0 then Exit
      else
        var g := Gap(src, a);
        var rest := bytes - g;
        var len := rest - Rem(rest, align);
        Ready(RegionData(src + g, dest + g, src + g + len, dest + g + len))
  }

  /** When a call is accepted: both ends lie alike to the boundary, start and length are whole words. */
  lemma AcceptedExact(w: nat, src: nat, dest: nat, bytes: nat, align: nat)
    requires w >= 1 && align >= 1
    ensures var a, wb := if align <= 16 then align else 16, if w < 8 then 1 else w / 8;
            SetRegionData(w, src, dest, bytes, align).Ready?
            <==> src % a == dest % a && src % wb == 0 && bytes % wb == 0
    ensures SetRegionData(w, src, dest, bytes, -1).Ready? <==> bytes % w == 0
  {
  }

  ghost predicate Partition(rd: RegionData, src: nat, dest: nat, bytes: nat, align: int)
    requires align >= 1
  {
    && src <= rd.sStart <= rd.sTop <= src + bytes
    && dest <= rd.dStart <= rd.dTop <= dest + bytes
    && rd.sStart - src == rd.dStart - dest && rd.sTop - rd.sStart == rd.dTop - rd.dStart
    && (rd.sTop - rd.sStart) % align == 0
    && src + bytes - rd.sTop < align
  }

  /**
   Prefix, aligned middle and suffix partition the region exactly when the region is not
   shorter than its leading gap. A shorter region makes the prefix run past its end.
   */
  lemma PartitionExact(w: nat, src: nat, dest: nat, bytes: nat, align: int)
    requires w >= 1 && align >= 1 && SetRegionData(w, src, dest, bytes, align).Ready?
    ensures var a := if align <= 16 then align else 16;
            Partition(SetRegionData(w, src, dest, bytes, align).rd, src, dest, bytes, align) <==> Gap(src, a) <= bytes
    ensures var a := if align <= 16 then align else 16;
            var rd := SetRegionData(w, src, dest, bytes, align).rd;
            rd.sStart % a == 0 && rd.dStart % a == 0 && (Gap(src, a) > bytes ==> rd.sTop == rd.sStart > src + bytes)
  {
    hide SetRegionData, Partition, Gap;
    var a: nat := if align <= 16 then align else 16;
    var g := Gap(src, a);
    Fields(w, src, dest, bytes, align, a);
    if g <= bytes {
      LongEnough(src, dest, bytes, align, g);
    } else {
      TooShort(src, dest, bytes, align, g);
    }
  }

  function Placed(src: nat, dest: nat, bytes: nat, align: nat, g: nat): RegionData
    requires align >= 1
  {
    var len := (bytes - g) - Rem(bytes - g, align);
    RegionData(src + g, dest + g, src + g + len, dest + g + len)
  }

  lemma Fields(w: nat, src: nat, dest: nat, bytes: nat, align: nat, a: nat)
    requires w >= 1 && align >= 1 && SetRegionData(w, src, dest, bytes, align).Ready?
    requires a == if align <= 16 then align else 16
    ensures SetRegionData(w, src, dest, bytes, align).rd == Placed(src, dest, bytes, align, Gap(src, a))
    ensures (src + Gap(src, a)) % a == 0 && (dest + Gap(src, a)) % a == 0
  {
    SameGap(src, dest, a);
  }

  lemma LongEnough(src: nat, dest: nat, bytes: nat, align: nat, g: nat)
    requires align >= 1 && g <= bytes
    ensures Partition(Placed(src, dest, bytes, align, g), src, dest, bytes, align)
  {
    var rest := bytes - g;
    RemainderSplit(rest, align);
    var rd := Placed(src, dest, bytes, align, g);
    assert rd.sTop - rd.sStart == rest - rest % align;
  }

  lemma TooShort(src: nat, dest: nat, bytes: nat, align: nat, g: nat)
    requires align >= 1 && bytes < g < align
    ensures var rd := Placed(src, dest, bytes, align, g);
            rd.sTop == rd.sStart > src + bytes && !Partition(rd, src, dest, bytes, align)
  {
    SmallMod(g - bytes, align);
  }

  lemma SameGap(src: nat, dest: nat, a: nat)
    requires a >= 1 && src % a == dest % a
    ensures Gap(src, a) == Gap(dest, a)
  {
  }

  lemma RemainderSplit(rest: nat, align: nat)
    requires align >= 1
    ensures (rest - rest % align) % align == 0 && rest % align < align
  {
    var q := rest / align;
    assert rest - rest % align == q * align;
    MultipleMod(q, align);
  }

  /** In the Cauchy case the end of the destination is computed from the source. */
  lemma CauchyTop(w: nat, src: nat, dest: nat, bytes: nat)
    requires w >= 1 && SetRegionData(w, src, dest, bytes, -1).Ready?
    ensures var rd := SetRegionData(w, src, dest, bytes, -1).rd;
            rd.dTop == rd.dStart + bytes <==> src == dest
  {
  }

  // ----- single units (the prefix and the suffix)

  method WriteBytes(mem: array<nat>, at: nat, bs: seq<nat>)
    requires at + |bs| <= mem.Length
    modifies mem
    ensures mem[..] == Patch(old(mem[..]), at, bs)
  {
    for i := 0 to |bs|
      invariant forall j :: 0 <= j < mem.Length ==> mem[j] == if at <= j < at + i then bs[j - at] else old(mem[j])
    {
      mem[at + i] := bs[i];
    }
  }

  lemma PatchStep(m: seq<nat>, at: nat, a: seq<nat>, b: seq<nat>)
    requires at + |a| + |b| <= |m|
    ensures Patch(Patch(m, at, a), at + |a|, b) == Patch(m, at, a + b)
  {
  }

  lemma PatchMemory(m: seq<nat>, at: nat, bs: seq<nat>)
    requires at + |bs| <= |m| && IsMemory(m) && AreWords(8, bs)
    ensures IsMemory(Patch(m, at, bs))
  {
    var r := Patch(m, at, bs);
    forall i | 0 <= i < |r| ensures r[i] < Pow2(8) {
      if i < at { assert r[i] == m[i]; } else if i < at + |bs| { assert r[i] == bs[i - at]; } else { assert r[i] == m[i]; }
    }
  }

  /** What is still to be read has not been overwritten. */
  lemma PatchUnread(m: seq<nat>, src: nat, dest: nat, len: nat, done: seq<nat>, i: nat, c: nat)
    requires src + len <= |m| && dest + len <= |m| && Compatible(src, dest, len) && |done| == i && i + c <= len
    ensures var r := Patch(m, dest, done);
            r[src + i..src + i + c] == m[src + i..src + i + c] && r[dest + i..dest + i + c] == m[dest + i..dest + i + c]
  {
    var r := Patch(m, dest, done);
    assert forall j :: src + i <= j < src + i + c ==> r[j] == m[j];
    assert forall j :: dest + i <= j < dest + i + c ==> r[j] == m[j];
  }

  lemma {:induction false} SplitWords(x: nat, w: nat, n: nat)
    ensures AreWords(w, Lanes.Split(x, w, n))
    decreases n
  {
    LowFits(x, w);
    if n > 0 { SplitWords(Shr(x, w), w, n - 1); }
  }

  lemma UnitProductFits(f: Layout, s: nat, d: nat, val: nat, xor: bool)
    requires IsLayout(f) && C.In(f.g, val) && d < Pow2(Width(8, f.wb))
    ensures UnitProduct(f, s, d, val, xor) < Pow2(Width(8, f.wb))
  {
    hide C.Ring, C.Mul;
    var ls := ScaledIn(Lanes.Split(s, f.w(), f.ln), val, f.g);
    SplitWords(s, f.w(), f.ln);
    ScaledInWords(Lanes.Split(s, f.w(), f.ln), val, f.g);
    ValueFits(f.w(), ls);
    XorFits(d, Value(f.w(), ls), Width(8, f.wb));
  }

  lemma UnitBytesAre(f: Layout, s: seq<nat>, d: seq<nat>, val: nat, xor: bool)
    requires IsLayout(f) && C.In(f.g, val) && |d| == f.wb && AreWords(8, d)
    ensures AreWords(8, UnitBytes(f, s, d, val, xor))
    ensures Value(8, UnitBytes(f, s, d, val, xor)) == UnitProduct(f, Value(8, s), Value(8, d), val, xor)
  {
    hide UnitProduct, Value, Pow2, C.Ring, C.In;
    ValueFits(8, d);
    UnitProductFits(f, Value(8, s), Value(8, d), val, xor);
    SplitValue(UnitProduct(f, Value(8, s), Value(8, d), val, xor), 8, f.wb);
  }

  lemma {:induction false} MulBytesAreBytes(f: Layout, s: seq<nat>, d: seq<nat>, val: nat, xor: bool)
    requires IsLayout(f) && C.In(f.g, val) && |s| == |d| && AreWords(8, d)
    ensures AreWords(8, MulBytes(f, s, d, val, xor))
    decreases |s|
  {
    hide UnitBytes, Pow2, C.Ring, C.In;
    if |s| >= f.wb {
      UnitBytesAre(f, s[..f.wb], d[..f.wb], val, xor);
      MulBytesAreBytes(f, s[f.wb..], d[f.wb..], val, xor);
    }
  }

  lemma SingleUnit(f: Layout, s: seq<nat>, d: seq<nat>, val: nat, xor: bool)
    requires f.wb >= 1 && |s| == |d| == f.wb
    ensures MulBytes(f, s, d, val, xor) == UnitBytes(f, s, d, val, xor)
  {
    hide UnitBytes;
    assert s[..f.wb] == s && d[..f.wb] == d;
    assert MulBytes(f, s[f.wb..], d[f.wb..], val, xor) == [];
  }

  ghost predicate InBounds(m: seq<nat>, src: nat, dest: nat, len: nat) {
    IsMemory(m) && src + len <= |m| && dest + len <= |m| && Compatible(src, dest, len)
  }

  /** Memory after the first `i` bytes of the region. */
  ghost function After(f: Layout, m: seq<nat>, src: nat, dest: nat, i: nat, val: nat, xor: bool, k: nat): (r: seq<nat>)
    requires f.wb >= 1 && src + i <= |m| && dest + i <= |m| && Units(f, i, k)
    ensures |r| == |m|
  {
    MulBytesLen(f, m[src..src + i], m[dest..dest + i], val, xor, k);
    Patch(m, dest, MulBytes(f, m[src..src + i], m[dest..dest + i], val, xor))
  }

  lemma AfterStart(f: Layout, m: seq<nat>, src: nat, dest: nat, val: nat, xor: bool)
    requires f.wb >= 1 && src <= |m| && dest <= |m|
    ensures Units(f, 0, 0) && After(f, m, src, dest, 0, val, xor, 0) == m
  {
    assert MulBytes(f, m[src..src], m[dest..dest], val, xor) == [];
  }

  lemma AfterUnread(f: Layout, m: seq<nat>, src: nat, dest: nat, len: nat, i: nat, c: nat, val: nat, xor: bool, k: nat)
    requires IsLayout(f) && InBounds(m, src, dest, len) && i + c <= len && Units(f, i, k)
    ensures var r := After(f, m, src, dest, i, val, xor, k);
            r[src + i..src + i + c] == m[src + i..src + i + c] && r[dest + i..dest + i + c] == m[dest + i..dest + i + c]
  {
    hide MulBytes, IsMemory, Width, Patch;
    MulBytesLen(f, m[src..src + i], m[dest..dest + i], val, xor, k);
    PatchUnread(m, src, dest, len, MulBytes(f, m[src..src + i], m[dest..dest + i], val, xor), i, c);
  }

  lemma SliceJoin(m: seq<nat>, at: nat, i: nat, c: nat)
    requires at + i + c <= |m|
    ensures m[at..at + i] + m[at + i..at + i + c] == m[at..at + i + c]
  {
  }

  /** Writing the next piece continues the region. */
  lemma AfterStep(f: Layout, m: seq<nat>, src: nat, dest: nat, i: nat, c: nat, val: nat, xor: bool, k: nat, k': nat)
    requires f.wb >= 1 && src + i + c <= |m| && dest + i + c <= |m| && Units(f, i, k) && Units(f, i + c, k')
    ensures var piece := MulBytes(f, m[src + i..src + i + c], m[dest + i..dest + i + c], val, xor);
            |piece| == c && Patch(After(f, m, src, dest, i, val, xor, k), dest + i, piece) == After(f, m, src, dest, i + c, val, xor, k')
  {
    hide MulBytes, Width, Patch;
    var done := MulBytes(f, m[src..src + i], m[dest..dest + i], val, xor);
    var piece := MulBytes(f, m[src + i..src + i + c], m[dest + i..dest + i + c], val, xor);
    MulBytesLen(f, m[src..src + i], m[dest..dest + i], val, xor, k);
    SliceJoin(m, src, i, c); SliceJoin(m, dest, i, c);
    MulBytesConcat(f, m[src..src + i], m[src + i..src + i + c], m[dest..dest + i], m[dest + i..dest + i + c], val, xor, k);
    MulBytesLen(f, m[src..src + i + c], m[dest..dest + i + c], val, xor, k');
    assert |done + piece| == i + c;
    PatchStep(m, dest, done, piece);
  }

  lemma AfterMemory(f: Layout, m: seq<nat>, src: nat, dest: nat, len: nat, i: nat, val: nat, xor: bool, k: nat)
    requires IsLayout(f) && C.In(f.g, val) && InBounds(m, src, dest, len) && i <= len && Units(f, i, k)
    ensures IsMemory(After(f, m, src, dest, i, val, xor, k))
  {
    hide MulBytes, Pow2, Width, C.Ring, C.In;
    MulBytesLen(f, m[src..src + i], m[dest..dest + i], val, xor, k);
    MulBytesAreBytes(f, m[src..src + i], m[dest..dest + i], val, xor);
    PatchMemory(m, dest, MulBytes(f, m[src..src + i], m[dest..dest + i], val, xor));
  }

  /**
   `gf_slow_multiply_region`, continuing a region whose first `src - src0` bytes are done: unit
   by unit up to `stop`. A `stop` that lies before `src` means no work.
   */
  method SlowMultiply(f: Layout, mem: array<nat>, src: nat, dest: nat, stop: int, val: nat, xor: bool,
                      ghost m: seq<nat>, ghost src0: nat, ghost dest0: nat, ghost len: nat, ghost k0: nat, ghost k1: nat)
    requires IsLayout(f) && InBounds(m, src0, dest0, len) && src0 <= src <= src0 + len && stop <= src0 + len
    requires src - src0 == dest - dest0
    requires Units(f, src - src0, k0) && Units(f, Later(src, stop) - src0, k1) && k0 <= k1
    requires mem[..] == After(f, m, src0, dest0, src - src0, val, xor, k0)
    modifies mem
    ensures mem[..] == After(f, m, src0, dest0, Later(src, stop) - src0, val, xor, k1)
  {
    hide MulBytes, UnitBytes, Width, After, IsMemory, Patch, Units, Compatible, IsLayout;
    LayoutPositive(f);
    var s: nat, d: nat := src, dest;
    ghost var k: nat := k0;
    while s < stop
      invariant src <= s <= Later(src, stop) && s - src0 == d - dest0 && k <= k1 && Units(f, s - src0, k)
      invariant mem[..] == After(f, m, src0, dest0, s - src0, val, xor, k)
      decreases stop - s
    {
      UnitsLeft(f, s - src0, k, stop - src0, k1);
      ghost var i := s - src0;
      AfterUnread(f, m, src0, dest0, len, i, f.wb, val, xor, k);
      AfterStep(f, m, src0, dest0, i, f.wb, val, xor, k, k + 1);
      SingleUnit(f, m[s..s + f.wb], m[d..d + f.wb], val, xor);
      var bs := UnitBytes(f, mem[s..s + f.wb], mem[d..d + f.wb], val, xor);
      WriteBytes(mem, d, bs);
      s, d := s + f.wb, d + f.wb;
      k := k + 1;
    }
    UnitsEqual(f, Later(src, stop) - src0, k, k1);
  }

  function Later(a: nat, b: int): nat {
    if b < a then a else b
  }

  lemma LayoutPositive(f: Layout)
    requires IsLayout(f)
    ensures f.wb >= 1
  {
  }

  lemma {:induction false} WidthOrder(h: nat, i: nat, j: nat)
    requires h >= 1
    ensures i < j <==> Width(h, i) < Width(h, j)
    ensures i < j ==> Width(h, i + 1) == Width(h, i) + h <= Width(h, j)
  {
    if i < j {
      WidthGrows(h, i + 1, j);
    } else if j < i {
      WidthGrows(h, j + 1, i);
    }
  }

  lemma UnitsLeft(f: Layout, i: int, k: nat, j: int, k1: nat)
    requires f.wb >= 1 && Units(f, i, k) && Units(f, j, k1) && i < j
    ensures k < k1 && Units(f, i + f.wb, k + 1) && i + f.wb <= j
  {
    WidthOrder(f.wb, k, k1);
  }

  lemma UnitsEqual(f: Layout, i: int, k: nat, k1: nat)
    requires f.wb >= 1 && Units(f, i, k) && Units(f, i, k1)
    ensures k == k1
  {
    WidthOrder(f.wb, k, k1); WidthOrder(f.wb, k1, k);
  }

  // ----- several units in one machine word (the aligned middle)

  /** Lanes of a word are the lanes of its parts. */
  lemma {:induction false} SplitConcat(x: nat, y: nat, w: nat, ln: nat, n: nat)
    requires y < Pow2(Width(w, ln))
    ensures Lanes.Split(Xor(Shl(x, Width(w, ln)), y), w, ln + n) == Lanes.Split(y, w, ln) + Lanes.Split(x, w, n)
    decreases ln
  {
    hide Xor, Shl, Shr, Low, Lanes.Split, Width;
    SplitStep(y, w, ln);
    WidthStep(w, ln);
    if ln == 0 {
      XorZero(x); ShlByZero(x);
      assert [] + Lanes.Split(x, w, n) == Lanes.Split(x, w, n);
    } else {
      var u, l := Width(w, ln - 1), Low(y, w);
      var rest, top := Lanes.Split(Shr(y, w), w, ln - 1), Lanes.Split(x, w, n);
      ShrFits(y, w, u);
      SplitConcat(x, Shr(y, w), w, ln - 1, n);
      PeelLane(x, y, w, u);
      SplitStep(Xor(Shl(x, w + u), y), w, ln + n);
      assert [l] + (rest + top) == [l] + rest + top;
    }
  }

  lemma SplitStep(word: nat, w: nat, n: nat)
    ensures Lanes.Split(word, w, n) == if n == 0 then [] else [Low(word, w)] + Lanes.Split(Shr(word, w), w, n - 1)
  {
  }

  lemma PeelLane(x: nat, y: nat, w: nat, u: nat)
    ensures Low(Xor(Shl(x, w + u), y), w) == Low(y, w)
    ensures Shr(Xor(Shl(x, w + u), y), w) == Xor(Shl(x, u), Shr(y, w))
  {
    hide Xor, Shl, Shr, Low;
    BitLaws();
    BitExt(Low(Xor(Shl(x, w + u), y), w), Low(y, w));
    BitExt(Shr(Xor(Shl(x, w + u), y), w), Xor(Shl(x, u), Shr(y, w)));
  }

  lemma {:induction false} ScaledConcat(a: seq<nat>, b: seq<nat>, c: nat, g: C.Gf)
    ensures ScaledIn(a + b, c, g) == ScaledIn(a, c, g) + ScaledIn(b, c, g)
  {
    hide C.Mul;
    if a == [] {
      assert a + b == b;
    } else {
      ScaledConcat(a[1..], b, c, g);
      assert (a + b)[1..] == a[1..] + b && (a + b)[0] == a[0];
      var x := [C.Mul(g, c, a[0])];
      assert x + (ScaledIn(a[1..], c, g) + ScaledIn(b, c, g)) == (x + ScaledIn(a[1..], c, g)) + ScaledIn(b, c, g);
    }
  }

  lemma TimesConcat(x: nat, y: nat, c: nat, ln: nat, n: nat, g: C.Gf)
    requires C.Ring(g) && C.In(g, c) && y < Pow2(Width(C.Width(g), ln))
    ensures TimesIn(Xor(Shl(x, Width(C.Width(g), ln)), y), c, g, ln + n)
            == Xor(Shl(TimesIn(x, c, g, n), Width(C.Width(g), ln)), TimesIn(y, c, g, ln))
  {
    hide Xor, Shl, Lanes.Split, ScaledIn, Value, Width, Pow2, AreWords, C.Ring, C.In;
    var w := C.Width(g);
    SplitConcat(x, y, w, ln, n);
    var a, b := Lanes.Split(y, w, ln), Lanes.Split(x, w, n);
    ScaledConcat(a, b, c, g);
    var sa, sb := ScaledIn(a, c, g), ScaledIn(b, c, g);
    SplitWords(Xor(Shl(x, Width(w, ln)), y), w, ln + n);
    ScaledInWords(a + b, c, g);
    assert (sa + sb)[..ln] == sa && (sa + sb)[ln..] == sb;
    ValueSplit(w, sa + sb, ln);
  }

  lemma {:induction false} SplitOfValue(h: nat, ws: seq<nat>)
    requires AreWords(h, ws)
    ensures Lanes.Split(Value(h, ws), h, |ws|) == ws
  {
    if ws != [] {
      var x, l := Value(h, ws[1..]), ws[0];
      SplitOfValue(h, ws[1..]);
      PeelLane(x, l, h, 0);
      ShlByZero(x);
      LowId(l, h);
      ShrFits(l, h, 0);
      XorZero(x);
      assert Value(h, ws) == Xor(Shl(x, h), l);
    }
  }

  /** `m` units make `ln * m` lanes. */
  lemma {:induction false} LanesOfUnits(f: Layout, m: nat)
    requires IsLayout(f)
    ensures Width(f.w(), Width(f.ln, m)) == Width(8, Width(f.wb, m))
  {
    if m > 0 {
      LanesOfUnits(f, m - 1);
      WidthAdd(f.w(), f.ln, Width(f.ln, m - 1));
      WidthAdd(8, f.wb, Width(f.wb, m - 1));
    }
  }

  /** The product of a whole machine word, added to the old destination word if asked. */
  function WordProduct(f: Layout, s: nat, d: nat, val: nat, xor: bool, n: nat): nat
  {
    if xor then Xor(d, TimesIn(s, val, f.g, n)) else TimesIn(s, val, f.g, n)
  }

  lemma {:induction false} WordIsUnits(f: Layout, s: seq<nat>, d: seq<nat>, val: nat, xor: bool, m: nat)
    requires IsLayout(f) && C.In(f.g, val) && |s| == |d| && Units(f, |s|, m) && AreWords(8, s) && AreWords(8, d)
    ensures Value(8, MulBytes(f, s, d, val, xor)) == WordProduct(f, Value(8, s), Value(8, d), val, xor, Width(f.ln, m))
    decreases m
  {
    hide Value, Pow2, UnitBytes, TimesIn, Xor, Shl, C.Ring, C.In;
    LayoutPositive(f);
    WidthStep(f.wb, m); WidthStep(f.ln, m);
    if m == 0 {
      EmptyWord(f, val);
      return;
    }
    var wb, u := f.wb, Width(8, f.wb);
    var s0, s1, d0, d1 := s[..wb], s[wb..], d[..wb], d[wb..];
    WordIsUnits(f, s1, d1, val, xor, m - 1);
    UnitBytesAre(f, s0, d0, val, xor);
    MulBytesAreBytes(f, s1, d1, val, xor);
    ValueCut(8, s, wb); ValueCut(8, d, wb);
    var r0, r1 := UnitBytes(f, s0, d0, val, xor), MulBytes(f, s1, d1, val, xor);
    assert MulBytes(f, s, d, val, xor) == r0 + r1;
    assert (r0 + r1)[..wb] == r0 && (r0 + r1)[wb..] == r1;
    ValueCut(8, r0 + r1, wb);
    ValueFits(8, s0);
    TimesConcat(Value(8, s1), Value(8, s0), val, f.ln, Width(f.ln, m - 1), f.g);
    var x, y := TimesIn(Value(8, s1), val, f.g, Width(f.ln, m - 1)), TimesIn(Value(8, s0), val, f.g, f.ln);
    ShlXor(Value(8, d1), x, u);
    XorSwap(Shl(Value(8, d1), u), Value(8, d0), Shl(x, u), y);
  }

  lemma ValueCut(h: nat, ws: seq<nat>, k: nat)
    requires AreWords(h, ws) && k <= |ws|
    ensures Value(h, ws) == Xor(Shl(Value(h, ws[k..]), Width(h, k)), Value(h, ws[..k]))
  {
    ValueSplit(h, ws, k);
  }

  lemma EmptyWord(f: Layout, val: nat)
    ensures Value(8, []) == 0 && TimesIn(0, val, f.g, 0) == 0 && Xor(0, 0) == 0
  {
  }

  /** Multiplying a machine word lane by lane does exactly what its units need. */
  lemma WordMatchesUnits(f: Layout, s: seq<nat>, d: seq<nat>, val: nat, xor: bool, m: nat)
    requires IsLayout(f) && C.In(f.g, val) && |s| == |d| && Units(f, |s|, m) && AreWords(8, s) && AreWords(8, d)
    ensures Lanes.Split(WordProduct(f, Value(8, s), Value(8, d), val, xor, Width(f.ln, m)), 8, |s|) == MulBytes(f, s, d, val, xor)
  {
    hide Value, Pow2, MulBytes, WordProduct, Lanes.Split, AreWords, Width, C.Ring, C.In;
    LayoutPositive(f);
    WordIsUnits(f, s, d, val, xor, m);
    MulBytesLen(f, s, d, val, xor, m);
    MulBytesAreBytes(f, s, d, val, xor);
    SplitOfValue(8, MulBytes(f, s, d, val, xor));
  }

  /** The middle loop: `c` bytes, that is `m` units, per machine word. */
  method FastMultiply(f: Layout, b: Bytwo, mem: array<nat>, src: nat, dest: nat, stop: nat, c: nat, m: nat, val: nat, xor: bool,
                      ghost mem0: seq<nat>, ghost src0: nat, ghost dest0: nat, ghost len: nat, ghost k0: nat, ghost k1: nat, ghost t: nat)
    requires IsLayout(f) && InBounds(mem0, src0, dest0, len) && src0 <= src <= stop <= src0 + len && src - src0 == dest - dest0
    requires f.g.Base? && Lanes.Ready(b, f.g.p) && b.w == f.w() && b.n == Width(f.ln, m) && Units(f, c, m) && c >= 1 && C.In(f.g, val)
    requires Units(f, src - src0, k0) && Units(f, stop - src0, k1) && stop - src == Width(c, t)
    requires mem[..] == After(f, mem0, src0, dest0, src - src0, val, xor, k0)
    modifies mem
    ensures mem[..] == After(f, mem0, src0, dest0, stop - src0, val, xor, k1)
  {
    hide MulBytes, UnitBytes, Width, After, IsMemory, Patch, Units, Compatible, IsLayout, Lanes.Ready, Value, Times, TimesIn, Xor, Pow2, AreWords, Lanes.Split, C.Ring;
    LayoutPositive(f);
    BasePositive(f, b);
    var s: nat, d: nat := src, dest;
    ghost var k: nat, i: nat := k0, 0;
    WidthStep(c, 0);
    while s < stop
      invariant src <= s <= stop && s - src0 == d - dest0 && Units(f, s - src0, k)
      invariant i <= t && s - src == Width(c, i)
      invariant mem[..] == After(f, mem0, src0, dest0, s - src0, val, xor, k)
      decreases stop - s
    {
      WidthOrder(c, i, t);
      UnitsAdd(f, s - src0, k, c, m);
      ghost var o := s - src0;
      AfterUnread(f, mem0, src0, dest0, len, o, c, val, xor, k);
      AfterStep(f, mem0, src0, dest0, o, c, val, xor, k, k + m);
      MemorySlice(mem0, s, c); MemorySlice(mem0, d, c);
      WordMatchesUnits(f, mem0[s..s + c], mem0[d..d + c], val, xor, m);
      WordFits(f, mem0[s..s + c], m);
      var word := Value(8, mem[s..s + c]);
      TimesInBase(word, val, f.g, b.n);
      var r := WordFromTop(b, f.g.p, word, val);
      if xor { r := Xor(Value(8, mem[d..d + c]), r); }
      WriteBytes(mem, d, Lanes.Split(r, 8, c));
      s, d := s + c, d + c;
      k, i := k + m, i + 1;
    }
    UnitsEqual(f, stop - src0, k, k1);
  }

  lemma BasePositive(f: Layout, b: Bytwo)
    requires f.g.Base? && Lanes.Ready(b, f.g.p)
    ensures f.g.p > 0
  {
  }

  lemma TimesInBase(word: nat, c: nat, g: C.Gf, n: nat)
    requires g.Base? && g.p > 0
    ensures TimesIn(word, c, g, n) == Times(word, c, g.w, n, g.p)
  {
    ScaledInBase(Lanes.Split(word, g.w, n), c, g);
  }

  lemma UnitsAdd(f: Layout, i: int, k: nat, c: int, m: nat)
    requires Units(f, i, k) && Units(f, c, m)
    ensures Units(f, i + c, k + m)
  {
    WidthAdd(f.wb, k, m);
  }

  lemma MemorySlice(m: seq<nat>, at: nat, c: nat)
    requires IsMemory(m) && at + c <= |m|
    ensures AreWords(8, m[at..at + c])
  {
  }

  lemma WordFits(f: Layout, s: seq<nat>, m: nat)
    requires IsLayout(f) && Units(f, |s|, m) && AreWords(8, s)
    ensures Value(8, s) < Pow2(Width(f.w(), Width(f.ln, m)))
  {
    hide Value, Pow2, AreWords;
    ValueFits(8, s);
    LanesOfUnits(f, m);
  }

  // ----- the whole region

  lemma DividesTrans(x: nat, a: nat, d: nat)
    requires a >= 1 && d >= 1 && x % a == 0 && a % d == 0
    ensures x % d == 0
  {
    var q, r := x / a, a / d;
    assert x == q * a && a == r * d;
    assert x == (q * r) * d;
    MultipleMod(q * r, d);
  }

  lemma DividesDiff(x: nat, y: nat, d: nat)
    requires d >= 1 && y <= x && x % d == 0 && y % d == 0
    ensures (x - y) % d == 0
  {
    var q, r := x / d, y / d;
    assert x == q * d && y == r * d;
    assert x - y == (q - r) * d;
    if q < r { assert (r - q) * d >= 0; }
    IntDivMod(x - y, d, q - r, 0);
  }

  lemma {:induction false} WidthProduct(d: nat, k: nat)
    ensures Width(d, k) == k * d
  {
    if k > 0 {
      WidthProduct(d, k - 1);
      assert k * d == (k - 1) * d + d;
    }
  }

  lemma WidthOfMultiple(d: nat, x: nat) returns (k: nat)
    requires d >= 1 && x % d == 0
    ensures Width(d, k) == x
  {
    k := x / d;
    WidthProduct(d, k);
  }

  /** The three parts consist of whole units, the middle of whole machine words. */
  lemma PartsAreUnits(f: Layout, src: nat, dest: nat, bytes: nat, align: nat, a: nat) returns (k0: nat, k1: nat, k2: nat, t: nat)
    requires f.wb >= 1 && 8 % f.wb == 0 && align >= 1 && align % 8 == 0 && a == (if align <= 16 then align else 16)
    requires src % f.wb == 0 && bytes % f.wb == 0 && Gap(src, a) <= bytes
    ensures var g := Gap(src, a);
            var rd := Placed(src, dest, bytes, align, g);
            && Partition(rd, src, dest, bytes, align)
            && Units(f, g, k0) && Units(f, rd.sTop - src, k1) && Units(f, bytes, k2) && k0 <= k1 <= k2
            && rd.sTop - rd.sStart == Width(8, t)
  {
    hide Gap, Placed, Width;
    var g := Gap(src, a);
    LongEnough(src, dest, bytes, align, g);
    var rd := Placed(src, dest, bytes, align, g);
    PlacedStart(src, dest, bytes, align, g);
    DividesTrans(src + g, a, 8); DividesTrans(src + g, 8, f.wb);
    DividesDiff(src + g, src, f.wb);
    var len := rd.sTop - rd.sStart;
    DividesTrans(len, align, 8); DividesTrans(len, 8, f.wb);
    k0 := WidthOfMultiple(f.wb, g);
    var kl := WidthOfMultiple(f.wb, len);
    k1 := k0 + kl;
    WidthAdd(f.wb, k0, kl);
    k2 := WidthOfMultiple(f.wb, bytes);
    if k2 < k1 { WidthOrder(f.wb, k2, k1); }
    t := WidthOfMultiple(8, len);
  }

  lemma PlacedStart(src: nat, dest: nat, bytes: nat, align: nat, g: nat)
    requires align >= 1
    ensures Placed(src, dest, bytes, align, g).sStart == src + g && Placed(src, dest, bytes, align, g).dStart == dest + g
  {
  }

  lemma ReadyMeans(f: Layout, src: nat, dest: nat, bytes: nat, align: nat)
    requires f.w() >= 1 && align >= 1 && SetRegionData(f.w(), src, dest, bytes, align).Ready? && f.wb == WordBytes(f.w())
    ensures src % f.wb == 0 && bytes % f.wb == 0
  {
  }

  lemma UnitDivides(f: Layout, m: nat)
    requires f.wb >= 1 && Units(f, 8, m)
    ensures 8 % f.wb == 0
  {
    WidthProduct(f.wb, m);
    MultipleMod(m, f.wb);
  }

  lemma GapIsUnits(f: Layout, src: nat, a: nat) returns (k: nat)
    requires f.wb >= 1 && 8 % f.wb == 0 && a >= 1 && a % 8 == 0 && src % f.wb == 0
    ensures Units(f, Gap(src, a), k)
  {
    hide Gap, Width;
    DividesTrans(src + Gap(src, a), a, 8); DividesTrans(src + Gap(src, a), 8, f.wb);
    DividesDiff(src + Gap(src, a), src, f.wb);
    k := WidthOfMultiple(f.wb, Gap(src, a));
  }

  // ----- multipliers 0 and 1

  function Zeros(n: nat): seq<nat> {
    seq(n, _ => 0)
  }

  /** Memory after the first `i` bytes of a byte-wise exclusive or. */
  function Xored(m: seq<nat>, src: nat, dest: nat, i: nat): (r: seq<nat>)
    requires src + i <= |m| && dest + i <= |m|
    ensures |r| == |m|
  {
    Patch(m, dest, XorWords(m[dest..dest + i], m[src..src + i]))
  }

  lemma {:induction false} XorWordsAt(u: seq<nat>, v: seq<nat>, i: nat)
    requires |u| == |v| && i < |u|
    ensures XorWords(u, v)[i] == Xor(u[i], v[i])
  {
    if i > 0 { XorWordsAt(u[1..], v[1..], i - 1); }
  }

  lemma XoredAt(m: seq<nat>, src: nat, dest: nat, i: nat, j: nat)
    requires src + i <= |m| && dest + i <= |m| && j < |m|
    ensures Xored(m, src, dest, i)[j] == if dest <= j < dest + i then Xor(m[j], m[src + j - dest]) else m[j]
  {
    hide Xor, XorWords;
    if dest <= j < dest + i { XorWordsAt(m[dest..dest + i], m[src..src + i], j - dest); }
  }

  lemma XoredStep(m: seq<nat>, src: nat, dest: nat, len: nat, i: nat)
    requires src + len <= |m| && dest + len <= |m| && Compatible(src, dest, len) && i < len
    ensures var r := Xored(m, src, dest, i);
            r[dest + i := Xor(r[dest + i], r[src + i])] == Xored(m, src, dest, i + 1)
  {
    hide Xor, XorWords, Xored;
    var r, r' := Xored(m, src, dest, i), Xored(m, src, dest, i + 1);
    XoredAt(m, src, dest, i, dest + i); XoredAt(m, src, dest, i, src + i);
    forall j | 0 <= j < |m| ensures r[dest + i := Xor(r[dest + i], r[src + i])][j] == r'[j] {
      XoredAt(m, src, dest, i, j); XoredAt(m, src, dest, i + 1, j);
    }
  }

  /** One of the loops of `gf_multby_one`: bytes `from` up to `to` of the region. */
  method XorUpTo(mem: array<nat>, src: nat, dest: nat, from: nat, to: int, ghost m: seq<nat>, ghost len: nat)
    requires src + len <= |m| && dest + len <= |m| && Compatible(src, dest, len) && from <= len && to <= len
    requires mem[..] == Xored(m, src, dest, from)
    modifies mem
    ensures mem[..] == Xored(m, src, dest, Later(from, to))
  {
    hide Xor, Xored, Compatible;
    var i: nat := from;
    while i < to
      invariant from <= i <= Later(from, to) && mem[..] == Xored(m, src, dest, i)
    {
      XoredStep(m, src, dest, len, i);
      ghost var r := mem[..];
      mem[dest + i] := Xor(mem[dest + i], mem[src + i]);
      assert mem[..] == r[dest + i := Xor(r[dest + i], r[src + i])];
      i := i + 1;
    }
  }

  /** How far `gf_multby_one` reaches: a short region is overrun up to the alignment boundary. */
  function OneReach(src: nat, dest: nat, bytes: nat, xor: bool): nat {
    if !xor then bytes
    else if src % 8 == dest % 8 then Later(bytes, Gap(src, 8))
    else Later(bytes, Gap(dest, 16))
  }

  /** The last loop of the aligned form stops only on equality, which it has then passed. */
  predicate RunsAway(src: nat, dest: nat, bytes: nat, xor: bool) {
    xor && src % 8 == dest % 8 && Gap(src, 8) > bytes
  }

  /** `gf_multby_one` without vector instructions; false when its last loop does not stop. */
  method MultiplyByOne(mem: array<nat>, src: nat, dest: nat, bytes: nat, xor: bool) returns (done: bool)
    requires InBounds(mem[..], src, dest, OneReach(src, dest, bytes, xor))
    modifies mem
    ensures done <==> !RunsAway(src, dest, bytes, xor)
    ensures var m, len := old(mem[..]), OneReach(src, dest, bytes, xor);
            mem[..] == if xor then Xored(m, src, dest, len) else Patch(m, dest, m[src..src + len])
    ensures !xor ==> done && mem[..] == Patch(old(mem[..]), dest, old(mem[src..src + bytes]))
    ensures xor && (if src % 8 == dest % 8 then Gap(src, 8) else Gap(dest, 16)) <= bytes ==>
              done && mem[..] == Xored(old(mem[..]), src, dest, bytes)
  {
    hide Xored, Patch, IsMemory, Compatible, Gap;
    if !xor {
      WriteBytes(mem, dest, mem[src..src + bytes]);
      return true;
    }
    if src % 8 != dest % 8 {
      UnalignedXor(mem, src, dest, bytes);
      return true;
    }
    done := AlignedXor(mem, src, dest, bytes);
  }

  /** `gf_unaligned_xor` lines up the destination only. */
  method UnalignedXor(mem: array<nat>, src: nat, dest: nat, bytes: nat)
    requires InBounds(mem[..], src, dest, Later(bytes, Gap(dest, 16)))
    modifies mem
    ensures mem[..] == Xored(old(mem[..]), src, dest, Later(bytes, Gap(dest, 16)))
  {
    hide Xored, IsMemory, Compatible, Gap, SetRegionData;
    ghost var m, len := mem[..], Later(bytes, Gap(dest, 16));
    XoredNone(m, src, dest);
    AcceptedExact(8, dest, dest, bytes, 64);
    PartsOrdered(8, dest, dest, bytes, 64, 16);
    var rd := SetRegionData(8, dest, dest, bytes, 64).rd;
    XorUpTo(mem, src, dest, 0, rd.dStart - dest, m, len);
    XorUpTo(mem, src, dest, rd.dStart - dest, rd.dTop - dest, m, len);
    XorUpTo(mem, src, dest, rd.dTop - dest, bytes, m, len);
  }

  /** The aligned form; its last loop waits for the end of the region, which it may have passed. */
  method AlignedXor(mem: array<nat>, src: nat, dest: nat, bytes: nat) returns (done: bool)
    requires src % 8 == dest % 8 && InBounds(mem[..], src, dest, Later(bytes, Gap(src, 8)))
    modifies mem
    ensures done <==> Gap(src, 8) <= bytes
    ensures mem[..] == Xored(old(mem[..]), src, dest, Later(bytes, Gap(src, 8)))
  {
    hide Xored, IsMemory, Compatible, Gap, SetRegionData;
    ghost var m, len := mem[..], Later(bytes, Gap(src, 8));
    XoredNone(m, src, dest);
    AcceptedExact(8, src, dest, bytes, 8);
    PartsOrdered(8, src, dest, bytes, 8, 8);
    var rd := SetRegionData(8, src, dest, bytes, 8).rd;
    XorUpTo(mem, src, dest, 0, rd.dStart - dest, m, len);
    XorUpTo(mem, src, dest, rd.dStart - dest, rd.dTop - dest, m, len);
    if rd.dTop > dest + bytes {
      return false;
    }
    XorUpTo(mem, src, dest, rd.dTop - dest, bytes, m, len);
    return true;
  }

  /** The address the last loop has reached after `n` rounds. */
  function Advanced(d: nat, n: nat): nat {
    d + n
  }

  /** The aligned form runs away exactly if that address never equals the end of the region. */
  lemma NeverMeets(src: nat, dest: nat, bytes: nat)
    requires src % 8 == dest % 8
    ensures RunsAway(src, dest, bytes, true)
            <==> forall n: nat :: Advanced(SetRegionData(8, src, dest, bytes, 8).rd.dTop, n) != dest + bytes
  {
    hide SetRegionData, Gap;
    AcceptedExact(8, src, dest, bytes, 8);
    PartsOrdered(8, src, dest, bytes, 8, 8);
    var d := SetRegionData(8, src, dest, bytes, 8).rd.dTop;
    if d <= dest + bytes { assert Advanced(d, dest + bytes - d) == dest + bytes; }
  }

  lemma XoredNone(m: seq<nat>, src: nat, dest: nat)
    requires src <= |m| && dest <= |m|
    ensures Xored(m, src, dest, 0) == m
  {
  }

  /** The three parts follow one another; a short region has only the first, past its end. */
  lemma PartsOrdered(w: nat, src: nat, dest: nat, bytes: nat, align: nat, a: nat)
    requires w >= 1 && align >= 1 && a == (if align <= 16 then align else 16)
    requires SetRegionData(w, src, dest, bytes, align).Ready?
    ensures var rd, g := SetRegionData(w, src, dest, bytes, align).rd, Gap(src, a);
            && rd.sStart == src + g && rd.dStart == dest + g && rd.sTop - src == rd.dTop - dest
            && (g <= bytes ==> rd.dStart <= rd.dTop <= dest + bytes)
            && (g > bytes ==> rd.dTop == rd.dStart > dest + bytes)
  {
    hide SetRegionData, Gap, Placed;
    Fields(w, src, dest, bytes, align, a);
    PlacedStart(src, dest, bytes, align, Gap(src, a));
    if Gap(src, a) <= bytes {
      LongEnough(src, dest, bytes, align, Gap(src, a));
    } else {
      TooShort(src, dest, bytes, align, Gap(src, a));
      PlacedTop(src, dest, bytes, align, Gap(src, a));
    }
  }

  lemma PlacedTop(src: nat, dest: nat, bytes: nat, align: nat, g: nat)
    requires align >= 1
    ensures var rd := Placed(src, dest, bytes, align, g); rd.sTop - src == rd.dTop - dest
  {
  }

  // ----- the whole region

  datatype Outcome = Done | Refused | Runaway

  /** How many bytes from `src` and `dest` on a call reads and writes. */
  function Reach(w: nat, src: nat, dest: nat, bytes: nat, val: nat, xor: bool, align: nat): nat
    requires w >= 1 && align >= 1
  {
    if val == 0 then bytes
    else if val == 1 then OneReach(src, dest, bytes, xor)
    else if SetRegionData(w, src, dest, bytes, align).Exit? then 0
    else Later(bytes, Gap(src, if align <= 16 then align else 16))
  }

  /** The shortcuts for 0 and 1 come before any alignment test. */
  function Result(w: nat, src: nat, dest: nat, bytes: nat, val: nat, xor: bool, align: nat): Outcome
    requires w >= 1 && align >= 1
  {
    if val == 0 then Done
    else if val == 1 then if RunsAway(src, dest, bytes, xor) then Runaway else Done
    else if SetRegionData(w, src, dest, bytes, align).Ready? then Done else Refused
  }

  /**
   The outcome: a call is refused exactly if its multiplier is neither 0 nor 1 and the set-up
   does not accept it, and runs away exactly if it is xored with multiplier 1, source and
   destination lie alike to 8 bytes, and the region ends before the next 8-byte boundary.
   */
  lemma ResultExact(w: nat, src: nat, dest: nat, bytes: nat, val: nat, xor: bool, align: nat)
    requires w >= 1 && align >= 1
    ensures var a, wb, r := if align <= 16 then align else 16, if w < 8 then 1 else w / 8, Result(w, src, dest, bytes, val, xor, align);
            && (r.Refused? <==> val >= 2 && !(src % a == dest % a && src % wb == 0 && bytes % wb == 0))
            && (r.Runaway? <==> val == 1 && xor && src % 8 == dest % 8 && exists b :: src + bytes < b < src + 8 && src % 8 != 0 && b % 8 == 0)
  {
    hide SetRegionData, Gap;
    AcceptedExact(w, src, dest, bytes, align);
    NextBoundary(src, bytes);
  }

  lemma NextBoundary(src: nat, bytes: nat)
    ensures Gap(src, 8) > bytes <==> exists b :: src + bytes < b < src + 8 && src % 8 != 0 && b % 8 == 0
  {
    assert (src + Gap(src, 8)) % 8 == 0;
  }

  /** What is accessed lies in memory; the source only if it is read. */
  ghost predicate Accessible(m: seq<nat>, src: nat, dest: nat, len: nat, val: nat) {
    IsMemory(m) && dest + len <= |m| && (val != 0 ==> InBounds(m, src, dest, len))
  }

  /** The new contents of the `len` destination bytes. */
  function Effect(f: Layout, m: seq<nat>, src: nat, dest: nat, len: nat, val: nat, xor: bool): seq<nat>
    requires f.wb >= 1 && dest + len <= |m| && (val != 0 ==> src + len <= |m|)
  {
    var d := m[dest..dest + len];
    if val == 0 then if xor then d else Zeros(len)
    else if val == 1 then if xor then XorWords(d, m[src..src + len]) else m[src..src + len]
    else MulBytes(f, m[src..src + len], d, val, xor)
  }

  /**
   The bytes a call changes, and to what: with multiplier 0 or a plain copy exactly the region,
   in the other cases exactly the region too unless it ends before the first boundary.
   */
  lemma EffectExact(f: Layout, m: seq<nat>, src: nat, dest: nat, bytes: nat, val: nat, xor: bool, align: nat)
    requires f.wb >= 1 && f.w() >= 1 && align >= 1
    requires Accessible(m, src, dest, Reach(f.w(), src, dest, bytes, val, xor, align), val)
    requires !Result(f.w(), src, dest, bytes, val, xor, align).Refused?
    ensures var len := Reach(f.w(), src, dest, bytes, val, xor, align);
            var a := if val >= 2 then if align <= 16 then align else 16 else if src % 8 == dest % 8 then 8 else 16;
            var g := Gap(if val == 1 && src % 8 != dest % 8 then dest else src, a);
            && len >= bytes && (val == 0 || (val == 1 && !xor) || g <= bytes ==> len == bytes)
            && (val >= 1 && (val >= 2 || xor) && g > bytes ==> len == g)
    ensures var e := Effect(f, m, src, dest, Reach(f.w(), src, dest, bytes, val, xor, align), val, xor);
            && (val == 0 && xor ==> e == m[dest..dest + bytes])
            && (val == 0 && !xor ==> |e| == bytes && forall i :: 0 <= i < bytes ==> e[i] == 0)
            && (val == 1 && !xor ==> e == m[src..src + bytes])
  {
    hide SetRegionData, Gap, MulBytes;
  }

  /** Set-up, prefix, middle and suffix for a multiplier that is neither 0 nor 1. */
  method MultiplyParts(f: Layout, b: Bytwo, m: nat, mem: array<nat>, src: nat, dest: nat, bytes: nat, val: nat, xor: bool, align: nat)
    returns (ok: bool, ghost k: nat)
    requires IsLayout(f) && f.wb == WordBytes(f.w()) && Units(f, 8, m) && f.w() >= 1
    requires f.g.Base? && Lanes.Ready(b, f.g.p) && b.w == f.w() && b.n == Width(f.ln, m) && C.In(f.g, val)
    requires align >= 8 && align % 8 == 0
    requires SetRegionData(f.w(), src, dest, bytes, align).Ready? ==>
               InBounds(mem[..], src, dest, Later(bytes, Gap(src, if align <= 16 then align else 16)))
    modifies mem
    ensures ok <==> SetRegionData(f.w(), src, dest, bytes, align).Ready?
    ensures var a, wb := if align <= 16 then align else 16, if f.w() < 8 then 1 else f.w() / 8;
            ok <==> src % a == dest % a && src % wb == 0 && bytes % wb == 0
    ensures !ok ==> mem[..] == old(mem[..])
    ensures var len := Later(bytes, Gap(src, if align <= 16 then align else 16));
            ok ==> Units(f, len, k) && mem[..] == After(f, old(mem[..]), src, dest, len, val, xor, k)
  {
    hide MulBytes, UnitBytes, Width, After, IsMemory, Patch, Units, Compatible, IsLayout, Lanes.Ready, SetRegionData, Gap, Placed;
    LayoutPositive(f);
    ghost var m0 := mem[..];
    AcceptedExact(f.w(), src, dest, bytes, align);
    var setup := SetRegionData(f.w(), src, dest, bytes, align);
    if setup.Exit? { return false, 0; }
    var rd := setup.rd;
    ghost var a: nat := if align <= 16 then align else 16;
    ghost var len := Later(bytes, Gap(src, a));
    ReadyMeans(f, src, dest, bytes, align);
    UnitDivides(f, m);
    PartsOrdered(f.w(), src, dest, bytes, align, a);
    AfterStart(f, m0, src, dest, val, xor);
    ghost var k0, k1, t;
    if Gap(src, a) <= bytes {
      Fields(f.w(), src, dest, bytes, align, a);
      k0, k1, k, t := PartsAreUnits(f, src, dest, bytes, align, a);
    } else {
      k := GapIsUnits(f, src, a);
      k0, k1, t := k, k, 0;
      WidthStep(8, 0);
    }
    SlowMultiply(f, mem, src, dest, rd.sStart, val, xor, m0, src, dest, len, 0, k0);
    FastMultiply(f, b, mem, rd.sStart, rd.dStart, rd.sTop, 8, m, val, xor, m0, src, dest, len, k0, k1, t);
    SlowMultiply(f, mem, rd.sTop, rd.dTop, src + bytes, val, xor, m0, src, dest, len, k1, k);
    ok := true;
  }

  /**
   A whole region multiplication. Exactly the first `Reach` bytes of the destination change,
   each as `Effect` says, and memory stays memory, so calls can follow one another.
   */
  method MultiplyRegion(f: Layout, b: Bytwo, m: nat, mem: array<nat>, src: nat, dest: nat, bytes: nat, val: nat, xor: bool, align: nat)
    returns (r: Outcome)
    requires IsLayout(f) && f.wb == WordBytes(f.w()) && Units(f, 8, m) && f.w() >= 1
    requires f.g.Base? && Lanes.Ready(b, f.g.p) && b.w == f.w() && b.n == Width(f.ln, m) && C.In(f.g, val)
    requires align >= 8 && align % 8 == 0
    requires Accessible(mem[..], src, dest, Reach(f.w(), src, dest, bytes, val, xor, align), val)
    modifies mem
    ensures r == Result(f.w(), src, dest, bytes, val, xor, align)
    ensures r.Refused? ==> mem[..] == old(mem[..])
    ensures var len := Reach(f.w(), src, dest, bytes, val, xor, align);
            r.Done? ==> |Effect(f, old(mem[..]), src, dest, len, val, xor)| == len
                        && mem[..] == Patch(old(mem[..]), dest, Effect(f, old(mem[..]), src, dest, len, val, xor))
    ensures IsMemory(mem[..])
  {
    hide MulBytes, UnitBytes, Width, After, Patch, IsMemory, Xored, Units, Compatible, IsLayout, Lanes.Ready, SetRegionData, Gap, RunsAway, OneReach, XorWords, C.In;
    LayoutPositive(f);
    ghost var m0 := mem[..];
    if val == 0 {
      PatchSame(m0, dest, bytes);
      if !xor { WriteBytes(mem, dest, Zeros(bytes)); }
      ZerosMemory(m0, dest, bytes);
      return Done;
    }
    ghost var len := Reach(f.w(), src, dest, bytes, val, xor, align);
    if val == 1 {
      var done := MultiplyByOne(mem, src, dest, bytes, xor);
      OneEffect(m0, src, dest, len);
      return if done then Done else Runaway;
    }
    var ok, k := MultiplyParts(f, b, m, mem, src, dest, bytes, val, xor, align);
    if !ok { return Refused; }
    AfterDone(f, m0, src, dest, len, val, xor, k);
    AfterMemory(f, m0, src, dest, len, len, val, xor, k);
    return Done;
  }

  lemma PatchSame(m: seq<nat>, at: nat, len: nat)
    requires at + len <= |m|
    ensures Patch(m, at, m[at..at + len]) == m
  {
  }

  lemma ZerosMemory(m: seq<nat>, at: nat, len: nat)
    requires at + len <= |m| && IsMemory(m)
    ensures IsMemory(Patch(m, at, Zeros(len)))
  {
    PatchMemory(m, at, Zeros(len));
  }

  lemma OneEffect(m: seq<nat>, src: nat, dest: nat, len: nat)
    requires IsMemory(m) && src + len <= |m| && dest + len <= |m|
    ensures Xored(m, src, dest, len) == Patch(m, dest, XorWords(m[dest..dest + len], m[src..src + len]))
    ensures IsMemory(Xored(m, src, dest, len)) && IsMemory(Patch(m, dest, m[src..src + len]))
  {
    ValueXor(8, m[dest..dest + len], m[src..src + len]);
    PatchMemory(m, dest, XorWords(m[dest..dest + len], m[src..src + len]));
    PatchMemory(m, dest, m[src..src + len]);
  }

  lemma AfterDone(f: Layout, m: seq<nat>, src: nat, dest: nat, bytes: nat, val: nat, xor: bool, k: nat)
    requires f.wb >= 1 && src + bytes <= |m| && dest + bytes <= |m| && Units(f, bytes, k)
    ensures var r := MulBytes(f, m[src..src + bytes], m[dest..dest + bytes], val, xor);
            |r| == bytes && After(f, m, src, dest, bytes, val, xor, k) == Patch(m, dest, r)
  {
    hide MulBytes, Patch, Width;
    MulBytesLen(f, m[src..src + bytes], m[dest..dest + bytes], val, xor, k);
  }
}
