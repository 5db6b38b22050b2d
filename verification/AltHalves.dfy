/**
 The half-and-half ALTMAP layout of composite fields (`gf_w16_composite_multiply_region_alt`,
 `gf_w8_composite_multiply_region_alt` and their `extract_word`): in the aligned middle of a
 region, all low parts and then all high parts, each a region of the base field.
 Words of `wb` bytes, `wb` in {1, 2, 4, 8}; base elements of half that size.
 */
module AltHalves {
  import opened Bits
  import C = Composite
  import opened WordList
  import opened Region
  import opened RegionCheck
  import opened AltInPlace

  /** How elements of the base field lie in bytes: two per byte if they are half a byte. */
  function BaseLayout(g: C.Gf, wb: nat): Layout
    requires g.Tower?
  {
    if wb == 1 then Layout(g.base, 2, 1) else Layout(g.base, 1, wb / 2)
  }

  predicate Size(wb: nat) {
    wb == 1 || wb == 2 || wb == 4 || wb == 8
  }

  ghost predicate IsComposite(g: C.Gf, wb: nat) {
    C.Ring(g) && g.Tower? && C.Width(g) == 8 * wb && Size(wb)
  }

  lemma {:induction false} WidthTimes(h: nat, i: nat)
    ensures Width(h, i) == h * i
  {
    if i > 0 {
      WidthTimes(h, i - 1);
      assert h * i == h * (i - 1) + h;
    }
  }

  lemma LayoutsFit(g: C.Gf, wb: nat)
    requires IsComposite(g, wb)
    ensures IsLayout(BaseLayout(g, wb)) && IsLayout(Layout(g, 1, wb)) && BaseLayout(g, wb).g == g.base && BaseLayout(g, wb).wb >= 1
  {
    hide Width;
    C.TowerRing(g);
    var b := BaseLayout(g, wb);
    WidthTimes(C.Width(g.base), b.ln); WidthTimes(8, b.wb); WidthTimes(C.Width(g), 1); WidthTimes(8, wb);
  }

  // ----- the middle

  /** One of the five base-field region calls; both ranges start on 16-byte boundaries there. */
  method BaseCall(f: Layout, mem: array<nat>, src: nat, dest: nat, len: nat, val: nat, xor: bool, ghost k: nat)
    requires IsLayout(f) && C.In(f.g, val) && InBounds(mem[..], src, dest, len) && Units(f, len, k)
    modifies mem
    ensures IsMemory(mem[..]) && SameOutside(old(mem[..]), mem[..], dest, dest + len)
    ensures CallDone(f, old(mem[..]), mem[..], src, dest, len, val, xor)
  {
    hide IsLayout, IsMemory, Compatible, After, C.In, Width, MulBytes;
    LayoutPositive(f);
    ghost var m := mem[..];
    AfterStart(f, m, src, dest, val, xor);
    SlowMultiply(f, mem, src, dest, src + len, val, xor, m, src, dest, len, 0, k);
    AfterMemory(f, m, src, dest, len, len, val, xor, k);
    AfterDone(f, m, src, dest, len, val, xor, k);
    SliceOfPatch(m, dest, MulBytes(f, m[src..src + len], m[dest..dest + len], val, xor), 0, len);
  }

  ghost predicate CallDone(f: Layout, m: seq<nat>, m': seq<nat>, src: nat, dest: nat, len: nat, val: nat, xor: bool) {
    && f.wb >= 1 && |m| == |m'| && src + len <= |m| && dest + len <= |m|
    && m'[dest..dest + len] == MulBytes(f, m[src..src + len], m[dest..dest + len], val, xor)
  }

  /** Word `j` of a middle given as low half and high half. */
  function Joined(g: C.Gf, lo: seq<nat>, hi: seq<nat>, j: nat): nat
    requires g.Tower?
  {
    C.Pack(g, Element(lo, C.Width(g.base), j), Element(hi, C.Width(g.base), j))
  }

  /** The calls' results on the two halves, with distinct buffers. */
  ghost predicate HalvesAre(f: Layout, sv: nat, v0: nat, v1: nat, sl: seq<nat>, sh: seq<nat>, dl: seq<nat>, dh: seq<nat>,
                            lo: seq<nat>, hi: seq<nat>, xor: bool)
    requires f.wb >= 1 && |sl| == |sh| == |dl| == |dh|
  {
    var l1 := MulBytes(f, sl, dl, v0, xor);
    var h1 := MulBytes(f, sl, dh, v1, xor);
    && |l1| == |h1| == |sl| && lo == MulBytes(f, sh, l1, v1, true)
    && var h2 := MulBytes(f, sh, h1, v0, true);
       |h2| == |sl| && hi == MulBytes(f, sh, h2, sv, true)
  }

  ghost predicate FromHalves(g: C.Gf, sl: seq<nat>, sh: seq<nat>, dl: seq<nat>, dh: seq<nat>, lo: seq<nat>, hi: seq<nat>,
                             n: nat, val: nat, xor: bool)
    requires g.Tower?
  {
    forall j: nat :: j < n ==> Joined(g, lo, hi, j) == C.Product(g, val, Joined(g, sl, sh, j), Joined(g, dl, dh, j), xor)
  }

  lemma HalvesWords(g: C.Gf, wb: nat, sl: seq<nat>, sh: seq<nat>, dl: seq<nat>, dh: seq<nat>, lo: seq<nat>, hi: seq<nat>,
                    val: nat, xor: bool, k: nat)
    requires IsComposite(g, wb) && C.In(g, val)
    requires |sl| == |sh| == |dl| == |dh| && Units(BaseLayout(g, wb), |sl|, k)
    requires AreWords(8, sl) && AreWords(8, sh) && AreWords(8, dl) && AreWords(8, dh)
    requires BaseLayout(g, wb).wb >= 1
             && HalvesAre(BaseLayout(g, wb), C.Mul(g.base, g.s, C.Hi(g, val)), C.Lo(g, val), C.Hi(g, val), sl, sh, dl, dh, lo, hi, xor)
    ensures FromHalves(g, sl, sh, dl, dh, lo, hi, Width(BaseLayout(g, wb).ln, k), val, xor)
  {
    hide MulBytes, C.Mul, C.In, C.Ring, C.Lo, C.Hi, C.Pack, Element, AreWords, Width, IsLayout, Units, BaseLayout;
    LayoutsFit(g, wb);
    C.TowerRing(g);
    C.HalvesFit(g, val);
    var f, v0, v1 := BaseLayout(g, wb), C.Lo(g, val), C.Hi(g, val);
    var sv, w := C.Mul(g.base, g.s, v1), C.Width(g.base);
    C.MulFits(g.base, g.s, v1);
    var l1, h1 := MulBytes(f, sl, dl, v0, xor), MulBytes(f, sl, dh, v1, xor);
    var h2 := MulBytes(f, sh, h1, v0, true);
    MulBytesAreBytes(f, sl, dl, v0, xor); MulBytesAreBytes(f, sl, dh, v1, xor); MulBytesAreBytes(f, sh, h1, v0, true);
    forall j: nat | j < Width(f.ln, k)
      ensures Joined(g, lo, hi, j) == C.Product(g, val, Joined(g, sl, sh, j), Joined(g, dl, dh, j), xor)
    {
      CheckPasses(f, sl, dl, v0, xor, k, j); CheckPasses(f, sh, l1, v1, true, k, j);
      CheckPasses(f, sl, dh, v1, xor, k, j); CheckPasses(f, sh, h1, v0, true, k, j); CheckPasses(f, sh, h2, sv, true, k, j);
      ElementInField(g.base, sl, j); ElementInField(g.base, sh, j);
      HalvesWord(g, val, Element(sl, w, j), Element(sh, w, j), Element(dl, w, j), Element(dh, w, j), xor);
    }
  }

  lemma ElementInField(f: C.Gf, bs: seq<nat>, j: nat)
    ensures C.In(f, Element(bs, C.Width(f), j))
  {
    LowFits(Shr(Value(8, bs), Width(C.Width(f), j)), C.Width(f));
  }

  ghost predicate LowDone(f: Layout, m: seq<nat>, m': seq<nat>, src: nat, dest: nat, sub: nat, v0: nat, v1: nat, xor: bool) {
    && f.wb >= 1 && |m| == |m'| && src + 2 * sub <= |m| && dest + 2 * sub <= |m|
    && var l1 := MulBytes(f, m[src..src + sub], m[dest..dest + sub], v0, xor);
       |l1| == sub && m'[dest..dest + sub] == MulBytes(f, m[src + sub..src + 2 * sub], l1, v1, true)
  }

  ghost predicate HighDone(f: Layout, m: seq<nat>, m': seq<nat>, src: nat, dest: nat, sub: nat, v0: nat, v1: nat, sv: nat, xor: bool) {
    && f.wb >= 1 && |m| == |m'| && src + 2 * sub <= |m| && dest + 2 * sub <= |m|
    && var sh := m[src + sub..src + 2 * sub];
       var h1 := MulBytes(f, m[src..src + sub], m[dest + sub..dest + 2 * sub], v1, xor);
       |h1| == sub
       && var h2 := MulBytes(f, sh, h1, v0, true);
          |h2| == sub && m'[dest + sub..dest + 2 * sub] == MulBytes(f, sh, h2, sv, true)
  }

  /** The first two calls, into the low half. */
  method LowCalls(f: Layout, mem: array<nat>, src: nat, dest: nat, sub: nat, v0: nat, v1: nat, xor: bool, ghost k: nat)
    requires IsLayout(f) && C.In(f.g, v0) && C.In(f.g, v1) && Units(f, sub, k) && f.wb >= 1
    requires Apart(mem[..], src, dest, sub)
    modifies mem
    ensures Apart(mem[..], src, dest, sub) && SameOutside(old(mem[..]), mem[..], dest, dest + sub)
    ensures LowDone(f, old(mem[..]), mem[..], src, dest, sub, v0, v1, xor)
  {
    hide MulBytes, IsLayout, Units, C.In, IsMemory, SameOutside, InBounds, Apart, CallDone, LowDone;
    ghost var m0 := mem[..];
    ApartBounds(m0, src, dest, sub);
    BaseCall(f, mem, src, dest, sub, v0, xor, k);
    ghost var m1 := mem[..];
    FarApart(m0, m1, src, dest, sub, dest, dest + sub);
    BaseCall(f, mem, src + sub, dest, sub, v1, true, k);
    FarApart(m1, mem[..], src, dest, sub, dest, dest + sub);
    SameTwice(m0, m1, mem[..], dest, dest + sub);
    TwoCalls(f, m0, m1, mem[..], src, dest, sub, v0, v1, xor);
  }

  lemma TwoCalls(f: Layout, m0: seq<nat>, m1: seq<nat>, m2: seq<nat>, src: nat, dest: nat, sub: nat, v0: nat, v1: nat, xor: bool)
    requires src + 2 * sub <= |m0| && dest + 2 * sub <= |m0|
    requires CallDone(f, m0, m1, src, dest, sub, v0, xor) && CallDone(f, m1, m2, src + sub, dest, sub, v1, true)
    requires m1[src + sub..src + 2 * sub] == m0[src + sub..src + 2 * sub]
    ensures LowDone(f, m0, m2, src, dest, sub, v0, v1, xor)
  {
    hide MulBytes;
    assert src + sub + sub == src + 2 * sub;
  }

  /** The last three, into the high half. */
  method HighCalls(f: Layout, mem: array<nat>, src: nat, dest: nat, sub: nat, v0: nat, v1: nat, sv: nat, xor: bool, ghost k: nat)
    requires IsLayout(f) && C.In(f.g, v0) && C.In(f.g, v1) && C.In(f.g, sv) && Units(f, sub, k) && f.wb >= 1
    requires Apart(mem[..], src, dest, sub)
    modifies mem
    ensures Apart(mem[..], src, dest, sub) && SameOutside(old(mem[..]), mem[..], dest + sub, dest + 2 * sub)
    ensures HighDone(f, old(mem[..]), mem[..], src, dest, sub, v0, v1, sv, xor)
  {
    hide MulBytes, IsLayout, Units, C.In, IsMemory, SameOutside, InBounds, Apart, CallDone, HighDone;
    ghost var m0 := mem[..];
    ApartBounds(m0, src, dest, sub);
    BaseCall(f, mem, src, dest + sub, sub, v1, xor, k);
    ghost var m1 := mem[..];
    FarApart(m0, m1, src, dest, sub, dest + sub, dest + 2 * sub);
    BaseCall(f, mem, src + sub, dest + sub, sub, v0, true, k);
    ghost var m2 := mem[..];
    FarApart(m1, m2, src, dest, sub, dest + sub, dest + 2 * sub);
    SameTwice(m0, m1, m2, dest + sub, dest + 2 * sub);
    BaseCall(f, mem, src + sub, dest + sub, sub, sv, true, k);
    FarApart(m2, mem[..], src, dest, sub, dest + sub, dest + 2 * sub);
    SameTwice(m0, m2, mem[..], dest + sub, dest + 2 * sub);
    ThreeCalls(f, m0, m1, m2, mem[..], src, dest, sub, v0, v1, sv, xor);
  }

  lemma ThreeCalls(f: Layout, m0: seq<nat>, m1: seq<nat>, m2: seq<nat>, m3: seq<nat>, src: nat, dest: nat, sub: nat,
                   v0: nat, v1: nat, sv: nat, xor: bool)
    requires src + 2 * sub <= |m0| && dest + 2 * sub <= |m0|
    requires CallDone(f, m0, m1, src, dest + sub, sub, v1, xor)
    requires CallDone(f, m1, m2, src + sub, dest + sub, sub, v0, true) && CallDone(f, m2, m3, src + sub, dest + sub, sub, sv, true)
    requires m1[src + sub..src + 2 * sub] == m0[src + sub..src + 2 * sub] && m2[src + sub..src + 2 * sub] == m1[src + sub..src + 2 * sub]
    ensures HighDone(f, m0, m3, src, dest, sub, v0, v1, sv, xor)
  {
    hide MulBytes;
    assert src + sub + sub == src + 2 * sub && dest + sub + sub == dest + 2 * sub;
  }

  /** Source and destination, of `2 * sub` bytes each, do not overlap. */
  ghost predicate Apart(m: seq<nat>, src: nat, dest: nat, sub: nat) {
    && IsMemory(m) && src + 2 * sub <= |m| && dest + 2 * sub <= |m|
    && (src + 2 * sub <= dest || dest + 2 * sub <= src)
  }

  lemma ApartBounds(m: seq<nat>, src: nat, dest: nat, sub: nat)
    requires Apart(m, src, dest, sub)
    ensures IsMemory(m) && src + 2 * sub <= |m| && dest + 2 * sub <= |m|
    ensures InBounds(m, src, dest, sub) && InBounds(m, src + sub, dest, sub)
    ensures InBounds(m, src, dest + sub, sub) && InBounds(m, src + sub, dest + sub, sub)
  {
  }

  lemma SameTwice(m: seq<nat>, m': seq<nat>, m'': seq<nat>, lo: int, hi: int)
    requires SameOutside(m, m', lo, hi) && SameOutside(m', m'', lo, hi)
    ensures SameOutside(m, m'', lo, hi)
  {
  }

  /** Five calls: two into the low half, three into the high half. */
  method MultiplyHalves(g: C.Gf, wb: nat, mem: array<nat>, src: nat, dest: nat, sub: nat, val: nat, xor: bool, ghost k: nat)
    requires IsComposite(g, wb) && C.In(g, val) && Apart(mem[..], src, dest, sub) && Units(BaseLayout(g, wb), sub, k)
    modifies mem
    ensures Apart(mem[..], src, dest, sub) && SameOutside(old(mem[..]), mem[..], dest, dest + 2 * sub)
    ensures MiddleDone(g, wb, old(mem[..]), mem[..], src, dest, sub, k, val, xor)
  {
    hide MulBytes, C.Mul, C.In, C.Ring, C.Lo, C.Hi, IsLayout, Units, BaseLayout, IsMemory, MiddleDone, Width, SameOutside, LowDone, HighDone, Apart, InBounds;
    LayoutsFit(g, wb);
    C.TowerRing(g);
    C.HalvesFit(g, val);
    var f, v0, v1 := BaseLayout(g, wb), C.Lo(g, val), C.Hi(g, val);
    var sv := C.Mul(g.base, g.s, v1);
    C.MulFits(g.base, g.s, v1);
    ghost var m0 := mem[..];
    ApartBounds(m0, src, dest, sub);
    LowCalls(f, mem, src, dest, sub, v0, v1, xor, k);
    ghost var m1 := mem[..];
    ApartBounds(m1, src, dest, sub);
    HighCalls(f, mem, src, dest, sub, v0, v1, sv, xor, k);
    ApartBounds(mem[..], src, dest, sub);
    SameBoth(m0, m1, mem[..], dest, sub);
    HalvesDone(g, wb, m0, m1, mem[..], src, dest, sub, val, xor, k);
  }

  lemma HalvesDone(g: C.Gf, wb: nat, m0: seq<nat>, m1: seq<nat>, m2: seq<nat>, src: nat, dest: nat, sub: nat, val: nat, xor: bool, k: nat)
    requires IsComposite(g, wb) && C.In(g, val) && Apart(m0, src, dest, sub) && Units(BaseLayout(g, wb), sub, k)
    requires IsMemory(m1) && IsMemory(m2)
    requires SameOutside(m0, m1, dest, dest + sub) && SameOutside(m1, m2, dest + sub, dest + 2 * sub)
    requires var v0, v1 := C.Lo(g, val), C.Hi(g, val);
             && LowDone(BaseLayout(g, wb), m0, m1, src, dest, sub, v0, v1, xor)
             && HighDone(BaseLayout(g, wb), m1, m2, src, dest, sub, v0, v1, C.Mul(g.base, g.s, v1), xor)
    ensures MiddleDone(g, wb, m0, m2, src, dest, sub, k, val, xor)
  {
    hide MulBytes, C.Mul, C.In, C.Ring, C.Lo, C.Hi, IsLayout, Units, BaseLayout, IsMemory, FromHalves, Width, SameOutside, HalvesAre, Apart, InBounds, IsComposite;
    TowerOf(g, wb);
    LayoutsFit(g, wb);
    ApartBounds(m0, src, dest, sub);
    FarApart(m0, m1, src, dest, sub, dest, dest + sub);
    FarApart(m1, m2, src, dest, sub, dest + sub, dest + 2 * sub);
    var f, v0, v1 := BaseLayout(g, wb), C.Lo(g, val), C.Hi(g, val);
    var sl, sh, dl, dh := m0[src..src + sub], m0[src + sub..src + 2 * sub], m0[dest..dest + sub], m0[dest + sub..dest + 2 * sub];
    var lo, hi, h1 := m2[dest..dest + sub], m2[dest + sub..dest + 2 * sub], MulBytes(f, sl, dh, v1, xor);
    MakeHalves(f, C.Mul(g.base, g.s, v1), v0, v1, sl, sh, dl, dh, MulBytes(f, sl, dl, v0, xor), lo, h1, MulBytes(f, sh, h1, v0, true), hi, xor);
    MemorySlice(m0, src, sub); MemorySlice(m0, src + sub, sub); MemorySlice(m0, dest, sub); MemorySlice(m0, dest + sub, sub);
    HalvesWords(g, wb, sl, sh, dl, dh, lo, hi, val, xor, k);
  }

  lemma TowerOf(g: C.Gf, wb: nat)
    requires IsComposite(g, wb)
    ensures g.Tower? && C.Ring(g) && Size(wb)
  {
  }

  /** Every word of the middle is the product of the two words before it. */
  ghost predicate MiddleDone(g: C.Gf, wb: nat, m: seq<nat>, m': seq<nat>, src: nat, dest: nat, sub: nat, k: nat, val: nat, xor: bool) {
    && g.Tower? && |m| == |m'| && src + 2 * sub <= |m| && dest + 2 * sub <= |m|
    && FromHalves(g, m[src..src + sub], m[src + sub..src + 2 * sub], m[dest..dest + sub], m[dest + sub..dest + 2 * sub],
                  m'[dest..dest + sub], m'[dest + sub..dest + 2 * sub], Width(BaseLayout(g, wb).ln, k), val, xor)
  }

  /** A change inside one half of the destination leaves the other half and the source alone. */
  lemma FarApart(m: seq<nat>, m': seq<nat>, src: nat, dest: nat, sub: nat, lo: nat, hi: nat)
    requires SameOutside(m, m', lo, hi) && IsMemory(m') && Apart(m, src, dest, sub)
    requires (lo == dest && hi == dest + sub) || (lo == dest + sub && hi == dest + 2 * sub)
    ensures |m'| == |m| && src + 2 * sub <= |m| && dest + 2 * sub <= |m| && Apart(m', src, dest, sub)
    ensures InBounds(m', src, dest, sub) && InBounds(m', src + sub, dest, sub)
    ensures InBounds(m', src, dest + sub, sub) && InBounds(m', src + sub, dest + sub, sub)
    ensures m'[src..src + sub] == m[src..src + sub] && m'[src + sub..src + 2 * sub] == m[src + sub..src + 2 * sub]
    ensures lo == dest ==> m'[dest + sub..dest + 2 * sub] == m[dest + sub..dest + 2 * sub]
    ensures lo == dest + sub ==> m'[dest..dest + sub] == m[dest..dest + sub]
  {
    SliceSame(m, m', lo, hi, src, sub); SliceSame(m, m', lo, hi, src + sub, sub);
    if lo == dest { SliceSame(m, m', lo, hi, dest + sub, sub); } else { SliceSame(m, m', lo, hi, dest, sub); }
  }

  lemma SameBoth(m0: seq<nat>, m1: seq<nat>, m2: seq<nat>, dest: nat, sub: nat)
    requires SameOutside(m0, m1, dest, dest + sub) && SameOutside(m1, m2, dest + sub, dest + 2 * sub)
    ensures SameOutside(m0, m2, dest, dest + 2 * sub)
  {
  }

  lemma MakeHalves(f: Layout, sv: nat, v0: nat, v1: nat, sl: seq<nat>, sh: seq<nat>, dl: seq<nat>, dh: seq<nat>,
                   l1: seq<nat>, lo: seq<nat>, h1: seq<nat>, h2: seq<nat>, hi: seq<nat>, xor: bool)
    requires f.wb >= 1 && |sl| == |sh| == |dl| == |dh| == |l1| == |h1| == |h2|
    requires l1 == MulBytes(f, sl, dl, v0, xor) && lo == MulBytes(f, sh, l1, v1, true)
    requires h1 == MulBytes(f, sl, dh, v1, xor) && h2 == MulBytes(f, sh, h1, v0, true) && hi == MulBytes(f, sh, h2, sv, true)
    ensures HalvesAre(f, sv, v0, v1, sl, sh, dl, dh, lo, hi, xor)
  {
  }

  // ----- whole regions

  predicate Extractable(wb: nat, start: nat, bytes: nat)
    requires wb >= 1
  {
    start % wb == 0 && bytes % wb == 0
  }

  /** The composite `extract_word`: word `i` of the region of `bytes` bytes at `start`. */
  function ExtractWord(g: C.Gf, wb: nat, m: seq<nat>, start: nat, bytes: nat, i: nat): nat
    requires g.Tower? && Size(wb) && Extractable(wb, start, bytes) && Width(wb, i) + wb <= bytes && start + bytes <= |m|
  {
    var rd, at := SetRegionData(8 * wb, start, start, bytes, 32).rd, start + Width(wb, i);
    if at < rd.dStart then Word(m, at, wb)
    else if at >= rd.dTop then Word(m, at, wb)
    else
      PlacesInside(wb, start, bytes, i);
      var sub, low: nat := (rd.dTop - rd.dStart) / 2, rd.dStart;
      Joined(g, m[low..low + sub], m[low + sub..low + 2 * sub], i - (rd.dStart - start) / wb)
  }

  lemma ReadyAlone(wb: nat, start: nat, bytes: nat)
    requires wb >= 1 && Extractable(wb, start, bytes)
    ensures SetRegionData(8 * wb, start, start, bytes, 32).Ready?
  {
    assert (8 * wb) / 8 == wb;
  }

  lemma PlacesInside(wb: nat, start: nat, bytes: nat, i: nat)
    requires Size(wb) && Extractable(wb, start, bytes) && Width(wb, i) + wb <= bytes
    requires var rd := SetRegionData(8 * wb, start, start, bytes, 32).rd; rd.dStart <= start + Width(wb, i) < rd.dTop
    ensures var rd := SetRegionData(8 * wb, start, start, bytes, 32).rd;
            && 0 <= (rd.dStart - start) / wb <= i && start <= rd.dStart <= rd.dTop <= start + bytes
            && 2 * ((rd.dTop - rd.dStart) / 2) <= rd.dTop - rd.dStart
  {
    hide SetRegionData, Gap, Width, Top;
    ReadyAlone(wb, start, bytes);
    TopIs(8 * wb, start, start, bytes, 32, 16);
    WidthTimes(wb, i);
    DivideBelow(wb, Gap(start, 16), i);
    Halving(Top(bytes, Gap(start, 16), 32) - Gap(start, 16));
  }

  lemma Halving(x: nat)
    ensures 2 * (x / 2) <= x
  {
  }

  lemma DivideBelow(wb: nat, g: nat, i: nat)
    requires Size(wb) && g <= wb * i
    ensures g / wb <= i
  {
    if wb == 1 {
      assert g <= i;
    } else if wb == 2 {
      assert g <= 2 * i;
    } else if wb == 4 {
      assert g <= 4 * i;
    } else {
      assert g <= 8 * i;
    }
  }

  /**
   Word `j` of the middle: its low half is element `j` of the first half of the middle, its
   high half element `j` of the second.
   */
  lemma LayoutMiddle(g: C.Gf, wb: nat, m: seq<nat>, start: nat, bytes: nat, blocks: nat, j: nat)
    requires IsComposite(g, wb) && Extractable(wb, start, bytes) && start + bytes <= |m|
    requires Gap(start, 16) + 32 * blocks <= bytes < Gap(start, 16) + 32 * blocks + 32 && Width(wb, j) + wb <= 32 * blocks
    ensures var gap, sub := Gap(start, 16), 16 * blocks;
            var i := gap / wb + j;
            && Width(wb, i) + wb <= bytes
            && ExtractWord(g, wb, m, start, bytes, i)
               == Element(m[start + gap..start + gap + sub], 4 * wb, j) + Shl(Element(m[start + gap + sub..start + gap + 2 * sub], 4 * wb, j), 4 * wb)
  {
    hide SetRegionData, Gap, Width, Element, C.Ring, Top, Xor, Shl;
    var gap, sub := Gap(start, 16), 16 * blocks;
    var i := gap / wb + j;
    MiddleTop(bytes, gap, blocks);
    ReadyAlone(wb, start, bytes);
    TopIs(8 * wb, start, start, bytes, 32, 16);
    Aligned(wb, start, start, bytes);
    GapWords(wb, start, j);
    ElementFits(m[start + gap..start + gap + sub], 4 * wb, j);
    XorDisjoint(Element(m[start + gap + sub..start + gap + 2 * sub], 4 * wb, j), Element(m[start + gap..start + gap + sub], 4 * wb, j), 4 * wb);
  }

  lemma MiddleTop(bytes: nat, gap: nat, blocks: nat)
    requires gap + 32 * blocks <= bytes < gap + 32 * blocks + 32
    ensures Top(bytes, gap, 32) == gap + 32 * blocks
  {
  }

  lemma GapWords(wb: nat, start: nat, j: nat)
    requires Size(wb) && start % wb == 0
    ensures Width(wb, Gap(start, 16) / wb + j) == Gap(start, 16) + Width(wb, j)
  {
    hide Gap, Width;
    var g := Gap(start, 16);
    WidthTimes(wb, g / wb + j); WidthTimes(wb, j);
    DividesTrans(start + g, 16, wb); DividesDiff(start + g, start, wb);
    MulSum(wb, g / wb, j);
  }

  lemma MulSum(a: nat, b: nat, c: nat)
    ensures a * (b + c) == a * b + a * c
  {
  }

  lemma ElementFits(bs: seq<nat>, w: nat, j: nat)
    ensures Element(bs, w, j) < Pow2(w)
  {
    LowFits(Shr(Value(8, bs), Width(w, j)), w);
  }

  /** Words before and after the middle are read as they are. */
  lemma LayoutEdge(g: C.Gf, wb: nat, m: seq<nat>, start: nat, bytes: nat, blocks: nat, i: nat)
    requires IsComposite(g, wb) && Extractable(wb, start, bytes) && start + bytes <= |m| && Width(wb, i) + wb <= bytes
    requires Width(wb, i) < Gap(start, 16) || Gap(start, 16) + 32 * blocks <= Width(wb, i) <= bytes < Gap(start, 16) + 32 * blocks + 32
    ensures ExtractWord(g, wb, m, start, bytes, i) == Value(8, m[start + Width(wb, i)..start + Width(wb, i) + wb])
  {
    hide SetRegionData, Gap, Width, Element, C.Ring, Top;
    var gap := Gap(start, 16);
    ReadyAlone(wb, start, bytes);
    TopIs(8 * wb, start, start, bytes, 32, 16);
    if Width(wb, i) >= gap { MiddleTop(bytes, gap, blocks); }
  }

  /** The promise: extraction commutes with the multiplication, at every index. */
  ghost predicate Commutes(g: C.Gf, wb: nat, m: seq<nat>, m': seq<nat>, src: nat, dest: nat, bytes: nat, val: nat, xor: bool) {
    && g.Tower? && Size(wb) && Extractable(wb, src, bytes) && Extractable(wb, dest, bytes)
    && |m'| == |m| && src + bytes <= |m| && dest + bytes <= |m|
    && forall i: nat :: Width(wb, i) + wb <= bytes ==>
         ExtractWord(g, wb, m', dest, bytes, i)
         == C.Product(g, val, ExtractWord(g, wb, m, src, bytes, i), ExtractWord(g, wb, m, dest, bytes, i), xor)
  }

  /** A region's numbers: gap, middle of two halves of `sub` bytes, and how many words each part has. */
  ghost predicate Geometry(g: C.Gf, wb: nat, start: nat, bytes: nat, gap: nat, sub: nat, k0: nat, k: nat, k2: nat)
    requires g.Tower?
  {
    var f, t := Layout(g, 1, wb), gap + 2 * sub;
    && Size(wb) && Extractable(wb, start, bytes) && gap == Gap(start, 16) && t == Top(bytes, gap, 32)
    && Units(f, gap, k0) && Units(BaseLayout(g, wb), sub, k) && Units(f, Later(bytes, t) - t, k2)
    && Later(bytes, t) == Later(bytes, gap)
    && SetRegionData(8 * wb, start, start, bytes, 32).rd == RegionData(start + gap, start + gap, start + t, start + t)
  }

  lemma FindGeometry(g: C.Gf, wb: nat, src: nat, dest: nat, bytes: nat) returns (gap: nat, sub: nat, k0: nat, k: nat, k2: nat)
    requires IsComposite(g, wb) && SetRegionData(8 * wb, src, dest, bytes, 32).Ready?
    ensures Geometry(g, wb, src, bytes, gap, sub, k0, k, k2) && Geometry(g, wb, dest, bytes, gap, sub, k0, k, k2)
    ensures var t := gap + 2 * sub;
            SetRegionData(8 * wb, src, dest, bytes, 32).rd == RegionData(src + gap, dest + gap, src + t, dest + t)
  {
    hide SetRegionData, Gap, Top, Units, C.Ring, C.Width;
    var f := Layout(g, 1, wb);
    LayoutsFit(g, wb);
    Aligned(wb, src, dest, bytes);
    TopIs(8 * wb, src, dest, bytes, 32, 16);
    ReadyAlone(wb, src, bytes); ReadyAlone(wb, dest, bytes);
    TopIs(8 * wb, src, src, bytes, 32, 16); TopIs(8 * wb, dest, dest, bytes, 32, 16);
    gap := Gap(src, 16);
    var t := Top(bytes, gap, 32);
    Halves(wb, t - gap);
    sub := (t - gap) / 2;
    k0, k2 := WordCounts(f, src, bytes, gap, t);
    k := BaseUnits(g, wb, sub);
  }

  lemma Aligned(wb: nat, src: nat, dest: nat, bytes: nat)
    requires Size(wb) && SetRegionData(8 * wb, src, dest, bytes, 32).Ready?
    ensures Extractable(wb, src, bytes) && Extractable(wb, dest, bytes) && 8 % wb == 0
  {
    hide SetRegionData, Gap;
    assert 8 % wb == 0 && 16 % wb == 0 && WordBytes(8 * wb) == wb;
    TopIs(8 * wb, src, dest, bytes, 32, 16);
    ReadyMeans(Layout(C.Base(8 * wb, 0), 1, wb), src, dest, bytes, 32);
    var g := Gap(src, 16);
    DividesTrans(src + g, 16, wb); DividesDiff(src + g, src, wb);
    DividesTrans(dest + g, 16, wb); DividesDiff(dest + g, g, wb);
  }

  lemma Halves(wb: nat, x: nat)
    requires x % 32 == 0
    ensures x == 2 * (x / 2) && (x / 2) % 16 == 0
  {
  }

  lemma BaseUnits(g: C.Gf, wb: nat, sub: nat) returns (k: nat)
    requires IsComposite(g, wb) && sub % 16 == 0
    ensures Units(BaseLayout(g, wb), sub, k)
  {
    hide C.Ring, C.Width, Width;
    var b := BaseLayout(g, wb).wb;
    assert b == 1 || b == 2 || b == 4;
    DividesTrans(sub, 16, b);
    k := WidthOfMultiple(b, sub);
  }

  /** The middle has as many words as each half has base elements. */
  lemma MiddleCount(g: C.Gf, wb: nat, sub: nat, k: nat)
    requires IsComposite(g, wb) && Units(BaseLayout(g, wb), sub, k)
    ensures Width(wb, Width(BaseLayout(g, wb).ln, k)) == 2 * sub
  {
    hide Width, C.Ring, C.Width;
    var b := BaseLayout(g, wb);
    WidthTimes(b.wb, k); WidthTimes(b.ln, k); WidthTimes(wb, Width(b.ln, k));
    if wb == 2 { assert 2 * (1 * k) == 2 * sub; }
  }

  /** Which part of the region word `i` lies in, and its number there. */
  lemma Located(g: C.Gf, wb: nat, start: nat, bytes: nat, gap: nat, sub: nat, k0: nat, k: nat, k2: nat, i: nat)
    requires IsComposite(g, wb) && Geometry(g, wb, start, bytes, gap, sub, k0, k, k2) && Width(wb, i) + wb <= bytes
    ensures var o, t, n := Width(wb, i), gap + 2 * sub, Width(BaseLayout(g, wb).ln, k);
            && (o < gap ==> i < k0)
            && (gap <= o < t ==> k0 <= i < k0 + n)
            && (t <= o ==> k0 + n <= i < k0 + n + k2 && o == t + Width(wb, i - (k0 + n)))
  {
    hide Width, C.Ring, C.Width, SetRegionData, Gap, Top, BaseLayout, Extractable, IsComposite;
    TowerOf(g, wb);
    var o, t, n := Width(wb, i), gap + 2 * sub, Width(BaseLayout(g, wb).ln, k);
    MiddleCount(g, wb, sub, k);
    WidthAdd(wb, k0, n);
    Compare(wb, i, k0); Compare(wb, i, k0 + n);
    if t <= o {
      WidthAdd(wb, k0 + n, i - (k0 + n));
      Compare(wb, i - (k0 + n), k2);
    }
  }

  lemma Compare(wb: nat, i: nat, j: nat)
    requires wb >= 1
    ensures Width(wb, i) < Width(wb, j) <==> i < j
  {
    WidthOrder(wb, i, j);
  }

  lemma OuterExtract(g: C.Gf, wb: nat, m: seq<nat>, start: nat, bytes: nat, gap: nat, sub: nat, k0: nat, k: nat, k2: nat, i: nat)
    requires IsComposite(g, wb) && Geometry(g, wb, start, bytes, gap, sub, k0, k, k2) && Width(wb, i) + wb <= bytes && start + bytes <= |m|
    requires Width(wb, i) < gap || gap + 2 * sub <= Width(wb, i)
    ensures ExtractWord(g, wb, m, start, bytes, i) == Word(m, start + Width(wb, i), wb)
  {
    hide Width, SetRegionData, Gap, Top, BaseLayout, Word, C.Ring, Units;
  }

  lemma MiddleExtract(g: C.Gf, wb: nat, m: seq<nat>, start: nat, bytes: nat, gap: nat, sub: nat, k0: nat, k: nat, k2: nat, i: nat)
    requires IsComposite(g, wb) && Geometry(g, wb, start, bytes, gap, sub, k0, k, k2) && Width(wb, i) + wb <= bytes && start + bytes <= |m|
    requires gap <= Width(wb, i) < gap + 2 * sub
    ensures k0 <= i && gap + 2 * sub <= bytes
    ensures ExtractWord(g, wb, m, start, bytes, i)
            == Joined(g, m[start + gap..start + gap + sub], m[start + gap + sub..start + gap + 2 * sub], i - k0)
  {
    hide Width, SetRegionData, Gap, Top, BaseLayout, Joined, C.Ring, Extractable;
    Located(g, wb, start, bytes, gap, sub, k0, k, k2, i);
    PlacesInside(wb, start, bytes, i);
    WidthTimes(wb, k0);
    ExactQuotient(wb, k0);
    assert (2 * sub) / 2 == sub;
  }

  lemma ExactQuotient(wb: nat, k: nat)
    requires Size(wb)
    ensures (wb * k) / wb == k
  {
    if wb == 1 {
      assert (1 * k) / 1 == k;
    } else if wb == 2 {
      assert (2 * k) / 2 == k;
    } else if wb == 4 {
      assert (4 * k) / 4 == k;
    } else {
      assert (8 * k) / 8 == k;
    }
  }

  lemma RegionCommutes(g: C.Gf, wb: nat, m0: seq<nat>, m1: seq<nat>, m2: seq<nat>, m3: seq<nat>, src: nat, dest: nat, bytes: nat,
                       gap: nat, sub: nat, k0: nat, k: nat, k2: nat, val: nat, xor: bool)
    requires IsComposite(g, wb) && Geometry(g, wb, src, bytes, gap, sub, k0, k, k2) && Geometry(g, wb, dest, bytes, gap, sub, k0, k, k2)
    requires Phases(Layout(g, 1, wb), m0, m1, m2, m3, src, dest, bytes, gap, gap + 2 * sub, k0, k2, val, xor)
    requires MiddleDone(g, wb, m1, m2, src + gap, dest + gap, sub, k, val, xor)
    ensures Commutes(g, wb, m0, m3, src, dest, bytes, val, xor)
  {
    hide Width, Geometry, Phases, MiddleDone, ExtractWord, C.Product, IsComposite, Extractable;
    TowerOf(g, wb);
    RegionBounds(g, wb, m0, m1, m2, m3, src, dest, bytes, gap, sub, k0, k, k2, val, xor);
    forall i: nat | Width(wb, i) + wb <= bytes
      ensures ExtractWord(g, wb, m3, dest, bytes, i)
              == C.Product(g, val, ExtractWord(g, wb, m0, src, bytes, i), ExtractWord(g, wb, m0, dest, bytes, i), xor)
    {
      if gap <= Width(wb, i) < gap + 2 * sub {
        MiddleWord(g, wb, m0, m1, m2, m3, src, dest, bytes, gap, sub, k0, k, k2, val, xor, i);
      } else {
        OuterWord(g, wb, m0, m1, m2, m3, src, dest, bytes, gap, sub, k0, k, k2, val, xor, i);
      }
    }
  }

  lemma RegionBounds(g: C.Gf, wb: nat, m0: seq<nat>, m1: seq<nat>, m2: seq<nat>, m3: seq<nat>, src: nat, dest: nat, bytes: nat,
                     gap: nat, sub: nat, k0: nat, k: nat, k2: nat, val: nat, xor: bool)
    requires g.Tower? && Geometry(g, wb, src, bytes, gap, sub, k0, k, k2) && Geometry(g, wb, dest, bytes, gap, sub, k0, k, k2)
    requires Phases(Layout(g, 1, wb), m0, m1, m2, m3, src, dest, bytes, gap, gap + 2 * sub, k0, k2, val, xor)
    ensures Size(wb) && Extractable(wb, src, bytes) && Extractable(wb, dest, bytes)
    ensures |m0| == |m3| && src + bytes <= |m0| && dest + bytes <= |m0|
  {
    hide SetRegionData, Gap, Top, Units, SlowPart, IsMemory;
  }

  lemma MiddleWord(g: C.Gf, wb: nat, m0: seq<nat>, m1: seq<nat>, m2: seq<nat>, m3: seq<nat>, src: nat, dest: nat, bytes: nat,
                   gap: nat, sub: nat, k0: nat, k: nat, k2: nat, val: nat, xor: bool, i: nat)
    requires IsComposite(g, wb) && Geometry(g, wb, src, bytes, gap, sub, k0, k, k2) && Geometry(g, wb, dest, bytes, gap, sub, k0, k, k2)
    requires Phases(Layout(g, 1, wb), m0, m1, m2, m3, src, dest, bytes, gap, gap + 2 * sub, k0, k2, val, xor)
    requires MiddleDone(g, wb, m1, m2, src + gap, dest + gap, sub, k, val, xor)
    requires Extractable(wb, src, bytes) && Extractable(wb, dest, bytes) && |m0| == |m3| && src + bytes <= |m0| && dest + bytes <= |m0|
    requires Width(wb, i) + wb <= bytes && gap <= Width(wb, i) < gap + 2 * sub
    ensures ExtractWord(g, wb, m3, dest, bytes, i)
            == C.Product(g, val, ExtractWord(g, wb, m0, src, bytes, i), ExtractWord(g, wb, m0, dest, bytes, i), xor)
  {
    hide Width, Geometry, Phases, MiddleDone, ExtractWord, C.Product, IsComposite, Extractable, Joined, BaseLayout;
    TowerOf(g, wb);
    var t := gap + 2 * sub;
    MiddleSame(Layout(g, 1, wb), m0, m1, m2, m3, src, dest, bytes, gap, t, k0, k2, val, xor);
    MiddleExtract(g, wb, m3, dest, bytes, gap, sub, k0, k, k2, i);
    MiddleExtract(g, wb, m0, src, bytes, gap, sub, k0, k, k2, i); MiddleExtract(g, wb, m0, dest, bytes, gap, sub, k0, k, k2, i);
    Located(g, wb, src, bytes, gap, sub, k0, k, k2, i);
    MiddleAt(g, wb, m1, m2, src + gap, dest + gap, sub, k, val, xor, i - k0);
    TwoHalves(m0, m1, src + gap, sub); TwoHalves(m0, m1, dest + gap, sub); TwoHalves(m2, m3, dest + gap, sub);
  }

  lemma MiddleAt(g: C.Gf, wb: nat, m: seq<nat>, m': seq<nat>, src: nat, dest: nat, sub: nat, k: nat, val: nat, xor: bool, j: nat)
    requires MiddleDone(g, wb, m, m', src, dest, sub, k, val, xor) && j < Width(BaseLayout(g, wb).ln, k)
    ensures Joined(g, m'[dest..dest + sub], m'[dest + sub..dest + 2 * sub], j)
            == C.Product(g, val, Joined(g, m[src..src + sub], m[src + sub..src + 2 * sub], j),
                         Joined(g, m[dest..dest + sub], m[dest + sub..dest + 2 * sub], j), xor)
  {
    hide Joined, Width, C.Product;
  }

  lemma TwoHalves(m: seq<nat>, m': seq<nat>, at: nat, sub: nat)
    requires |m| == |m'| && at + 2 * sub <= |m| && m'[at..at + 2 * sub] == m[at..at + 2 * sub]
    ensures m'[at..at + sub] == m[at..at + sub] && m'[at + sub..at + 2 * sub] == m[at + sub..at + 2 * sub]
  {
    SliceOfSlice(m, at, 2 * sub, 0, sub); SliceOfSlice(m, at, 2 * sub, sub, sub);
    SliceOfSlice(m', at, 2 * sub, 0, sub); SliceOfSlice(m', at, 2 * sub, sub, sub);
    assert at + sub + sub == at + 2 * sub;
  }

  lemma OuterWord(g: C.Gf, wb: nat, m0: seq<nat>, m1: seq<nat>, m2: seq<nat>, m3: seq<nat>, src: nat, dest: nat, bytes: nat,
                  gap: nat, sub: nat, k0: nat, k: nat, k2: nat, val: nat, xor: bool, i: nat)
    requires IsComposite(g, wb) && Geometry(g, wb, src, bytes, gap, sub, k0, k, k2) && Geometry(g, wb, dest, bytes, gap, sub, k0, k, k2)
    requires Phases(Layout(g, 1, wb), m0, m1, m2, m3, src, dest, bytes, gap, gap + 2 * sub, k0, k2, val, xor)
    requires Extractable(wb, src, bytes) && Extractable(wb, dest, bytes) && |m0| == |m3| && src + bytes <= |m0| && dest + bytes <= |m0|
    requires Width(wb, i) + wb <= bytes && (Width(wb, i) < gap || gap + 2 * sub <= Width(wb, i))
    ensures ExtractWord(g, wb, m3, dest, bytes, i)
            == C.Product(g, val, ExtractWord(g, wb, m0, src, bytes, i), ExtractWord(g, wb, m0, dest, bytes, i), xor)
  {
    hide Width, Geometry, Phases, ExtractWord, C.Product, IsComposite, Extractable, Word, BaseLayout;
    TowerOf(g, wb);
    var f, t, n := Layout(g, 1, wb), gap + 2 * sub, Width(BaseLayout(g, wb).ln, k);
    OuterExtract(g, wb, m3, dest, bytes, gap, sub, k0, k, k2, i);
    OuterExtract(g, wb, m0, src, bytes, gap, sub, k0, k, k2, i); OuterExtract(g, wb, m0, dest, bytes, gap, sub, k0, k, k2, i);
    Located(g, wb, src, bytes, gap, sub, k0, k, k2, i);
    if Width(wb, i) < gap {
      PrefixWord(f, m0, m1, m2, m3, src, dest, bytes, gap, t, k0, k2, val, xor, i);
    } else {
      SuffixWord(f, m0, m1, m2, m3, src, dest, bytes, gap, t, k0, k2, val, xor, i - (k0 + n));
    }
  }

  /** Prefix, five calls, suffix. */
  method MultiplyPhases(g: C.Gf, wb: nat, mem: array<nat>, src: nat, dest: nat, bytes: nat, gap: nat, sub: nat, val: nat, xor: bool,
                        ghost k0: nat, ghost k: nat, ghost k2: nat) returns (ghost m1: seq<nat>, ghost m2: seq<nat>)
    requires IsComposite(g, wb) && C.In(g, val) && Disjoint(mem[..], src, dest, Later(bytes, gap + 2 * sub))
    requires Units(Layout(g, 1, wb), gap, k0) && Units(BaseLayout(g, wb), sub, k)
    requires Units(Layout(g, 1, wb), Later(bytes, gap + 2 * sub) - (gap + 2 * sub), k2)
    modifies mem
    ensures IsMemory(mem[..])
    ensures Phases(Layout(g, 1, wb), old(mem[..]), m1, m2, mem[..], src, dest, bytes, gap, gap + 2 * sub, k0, k2, val, xor)
    ensures MiddleDone(g, wb, m1, m2, src + gap, dest + gap, sub, k, val, xor)
  {
    hide C.In, SlowPart, Phases, IsMemory, Compatible, IsLayout, Units, SameOutside, MiddleDone, InBounds, C.Mul, Later, IsComposite, Disjoint, Apart, BaseLayout;
    TowerOf(g, wb);
    LayoutsFit(g, wb);
    var f, t := Layout(g, 1, wb), gap + 2 * sub;
    LaterShift(src, gap, t, bytes);
    ghost var len: nat, rest: nat := Later(bytes, t), Later(bytes, t) - t;
    ghost var m0 := mem[..];
    DisjointPart(m0, m0, src, dest, len, 0, gap, 0);
    MultiplySlowly(f, mem, src, dest, src + gap, val, xor, gap, k0);
    m1 := mem[..];
    SameSize(m0, m1, dest, dest + gap);
    DisjointPart(m0, m1, src, dest, len, gap, 2 * sub, sub);
    MultiplyHalves(g, wb, mem, src + gap, dest + gap, sub, val, xor, k);
    m2 := mem[..];
    ApartBounds(m2, src + gap, dest + gap, sub);
    SameSize(m1, m2, dest + gap, dest + t);
    DisjointPart(m0, m2, src, dest, len, t, rest, 0);
    MultiplySlowly(f, mem, src + t, dest + t, src + bytes, val, xor, rest, k2);
    AllPhases(f, m0, m1, m2, mem[..], src, dest, bytes, gap, t, k0, k2, val, xor);
  }

  ghost predicate Disjoint(m: seq<nat>, src: nat, dest: nat, len: nat) {
    IsMemory(m) && src + len <= |m| && dest + len <= |m| && (src + len <= dest || dest + len <= src)
  }

  lemma DisjointPart(m: seq<nat>, m': seq<nat>, src: nat, dest: nat, len: nat, i: nat, c: nat, sub: nat)
    requires Disjoint(m, src, dest, len) && |m'| == |m| && (m' == m || IsMemory(m')) && i + c <= len && 2 * sub <= c
    ensures InBounds(m', src + i, dest + i, c) && InBounds(m, src, dest, len) && Apart(m', src + i, dest + i, sub) && IsMemory(m)
  {
  }

  /**
   The composite ALTMAP region multiplication as a whole, between distinct buffers: whenever
   the set-up succeeds, extraction commutes with it at every index of the region, and nothing
   beyond the bytes it reaches changes.
   */
  method MultiplyRegion(g: C.Gf, wb: nat, mem: array<nat>, src: nat, dest: nat, bytes: nat, val: nat, xor: bool) returns (ok: bool)
    requires IsComposite(g, wb) && C.In(g, val)
    requires SetRegionData(8 * wb, src, dest, bytes, 32).Ready? ==> Disjoint(mem[..], src, dest, Later(bytes, Gap(src, 16)))
    modifies mem
    ensures ok <==> src % 16 == dest % 16 && src % wb == 0 && bytes % wb == 0
    ensures !ok ==> mem[..] == old(mem[..])
    ensures ok ==> IsMemory(mem[..]) && SameOutside(old(mem[..]), mem[..], dest, dest + Later(bytes, Gap(src, 16)))
    ensures ok ==> Commutes(g, wb, old(mem[..]), mem[..], src, dest, bytes, val, xor)
  {
    hide SetRegionData, Gap, Phases, MiddleDone, Commutes, IsMemory, Disjoint, IsComposite, C.In, SameOutside, BaseLayout, Top, Later, Units;
    TowerOf(g, wb);
    AcceptedExact(8 * wb, src, dest, bytes, 32);
    WordSize(wb);
    var setup := SetRegionData(8 * wb, src, dest, bytes, 32);
    if setup.Exit? {
      return false;
    }
    ghost var gap', sub', k0, k, k2 := FindGeometry(g, wb, src, dest, bytes);
    GeometryParts(g, wb, src, bytes, gap', sub', k0, k, k2);
    var rd := setup.rd;
    var gap: nat, sub: nat := rd.dStart - dest, (rd.dTop - rd.dStart) / 2;
    assert gap == gap' && sub == sub';
    ghost var m0 := mem[..];
    ghost var m1, m2 := MultiplyPhases(g, wb, mem, src, dest, bytes, gap, sub, val, xor, k0, k, k2);
    MiddleSame(Layout(g, 1, wb), m0, m1, m2, mem[..], src, dest, bytes, gap, gap + 2 * sub, k0, k2, val, xor);
    RegionCommutes(g, wb, m0, m1, m2, mem[..], src, dest, bytes, gap, sub, k0, k, k2, val, xor);
    return true;
  }

  lemma WordSize(wb: nat)
    requires wb >= 1
    ensures 8 * wb >= 8 && (8 * wb) / 8 == wb
  {
  }

  lemma GeometryParts(g: C.Gf, wb: nat, start: nat, bytes: nat, gap: nat, sub: nat, k0: nat, k: nat, k2: nat)
    requires g.Tower? && Geometry(g, wb, start, bytes, gap, sub, k0, k, k2)
    ensures gap == Gap(start, 16) && Later(bytes, gap + 2 * sub) == Later(bytes, gap)
    ensures Units(Layout(g, 1, wb), gap, k0) && Units(BaseLayout(g, wb), sub, k)
    ensures Later(bytes, gap + 2 * sub) >= gap + 2 * sub
    ensures Units(Layout(g, 1, wb), Later(bytes, gap + 2 * sub) - (gap + 2 * sub), k2)
  {
  }

  // ----- one buffer

  ghost predicate OneBuffer(m: seq<nat>, at: nat, sub: nat) {
    IsMemory(m) && at + 2 * sub <= |m|
  }

  /** A change inside one half leaves the other half alone. */
  lemma HalfKept(m: seq<nat>, m': seq<nat>, at: nat, sub: nat, lo: nat, hi: nat)
    requires SameOutside(m, m', lo, hi) && IsMemory(m') && OneBuffer(m, at, sub)
    requires (lo == at && hi == at + sub) || (lo == at + sub && hi == at + 2 * sub)
    ensures |m'| == |m| && at + 2 * sub <= |m| && OneBuffer(m', at, sub) && SameOutside(m, m', at, at + 2 * sub)
    ensures InBounds(m', at, at, sub) && InBounds(m', at + sub, at, sub) && InBounds(m', at, at + sub, sub) && InBounds(m', at + sub, at + sub, sub)
    ensures lo == at ==> m'[at + sub..at + 2 * sub] == m[at + sub..at + 2 * sub]
    ensures lo == at + sub ==> m'[at..at + sub] == m[at..at + sub]
  {
    if lo == at { SliceSame(m, m', lo, hi, at + sub, sub); } else { SliceSame(m, m', lo, hi, at, sub); }
  }

  /** The byte strings that the five calls produce one after another. */
  ghost predicate Chain(f: Layout, lo: seq<nat>, hi: seq<nat>, l1: seq<nat>, l2: seq<nat>, h1: seq<nat>, h2: seq<nat>, h3: seq<nat>,
                        v0: nat, v1: nat, sv: nat, xor: bool) {
    && f.wb >= 1 && |lo| == |hi| == |l1| == |l2| == |h1| == |h2|
    && l1 == MulBytes(f, lo, lo, v0, xor) && l2 == MulBytes(f, hi, l1, v1, true)
    && h1 == MulBytes(f, l2, hi, v1, xor) && h2 == MulBytes(f, h1, h1, v0, true) && h3 == MulBytes(f, h2, h2, sv, true)
  }

  /** Each word of the buffer becomes what `InPlace` says. */
  ghost predicate DoneInPlace(g: C.Gf, wb: nat, m: seq<nat>, m': seq<nat>, at: nat, sub: nat, k: nat, val: nat, xor: bool) {
    && g.Tower? && |m| == |m'| && at + 2 * sub <= |m|
    && WordsInPlace(g, m[at..at + sub], m[at + sub..at + 2 * sub], m'[at..at + sub], m'[at + sub..at + 2 * sub],
                    Width(BaseLayout(g, wb).ln, k), val, xor)
  }

  ghost predicate WordsInPlace(g: C.Gf, lo: seq<nat>, hi: seq<nat>, lo': seq<nat>, hi': seq<nat>, n: nat, val: nat, xor: bool)
    requires g.Tower?
  {
    forall j: nat :: j < n ==>
      Joined(g, lo', hi', j) == InPlace(g, val, Element(lo, C.Width(g.base), j), Element(hi, C.Width(g.base), j), xor)
  }

  /** The five calls with source and destination the same buffer. */
  method MultiplyInPlace(g: C.Gf, wb: nat, mem: array<nat>, at: nat, sub: nat, val: nat, xor: bool, ghost k: nat)
    requires IsComposite(g, wb) && C.In(g, val) && OneBuffer(mem[..], at, sub) && Units(BaseLayout(g, wb), sub, k)
    modifies mem
    ensures DoneInPlace(g, wb, old(mem[..]), mem[..], at, sub, k, val, xor)
    ensures OneBuffer(mem[..], at, sub) && SameOutside(old(mem[..]), mem[..], at, at + 2 * sub)
  {
    hide MulBytes, C.Mul, C.In, C.Ring, C.Lo, C.Hi, IsLayout, Units, BaseLayout, IsMemory, Width, SameOutside, InBounds, CallDone, OneBuffer, DoneInPlace, IsComposite;
    TowerOf(g, wb);
    LayoutsFit(g, wb);
    C.TowerRing(g);
    C.HalvesFit(g, val);
    var f, v0, v1 := BaseLayout(g, wb), C.Lo(g, val), C.Hi(g, val);
    var sv := C.Mul(g.base, g.s, v1);
    C.MulFits(g.base, g.s, v1);
    ghost var m0 := mem[..];
    BufferBounds(m0, at, sub);
    BaseCall(f, mem, at, at, sub, v0, xor, k);
    ghost var m1 := mem[..];
    HalfKept(m0, m1, at, sub, at, at + sub);
    BaseCall(f, mem, at + sub, at, sub, v1, true, k);
    ghost var m2 := mem[..];
    HalfKept(m1, m2, at, sub, at, at + sub);
    SameTwice(m0, m1, m2, at, at + 2 * sub);
    BaseCall(f, mem, at, at + sub, sub, v1, xor, k);
    ghost var m3 := mem[..];
    HalfKept(m2, m3, at, sub, at + sub, at + 2 * sub);
    SameTwice(m0, m2, m3, at, at + 2 * sub);
    BaseCall(f, mem, at + sub, at + sub, sub, v0, true, k);
    ghost var m4 := mem[..];
    HalfKept(m3, m4, at, sub, at + sub, at + 2 * sub);
    SameTwice(m0, m3, m4, at, at + 2 * sub);
    BaseCall(f, mem, at + sub, at + sub, sub, sv, true, k);
    HalfKept(m4, mem[..], at, sub, at + sub, at + 2 * sub);
    SameTwice(m0, m4, mem[..], at, at + 2 * sub);
    FiveCalls(f, m0, m1, m2, m3, m4, mem[..], at, sub, v0, v1, sv, xor);
    ChainWords(g, wb, m0, mem[..], at, sub, m1[at..at + sub], m3[at + sub..at + 2 * sub], m4[at + sub..at + 2 * sub], val, xor, k);
  }

  lemma BufferBounds(m: seq<nat>, at: nat, sub: nat)
    requires OneBuffer(m, at, sub)
    ensures IsMemory(m) && at + 2 * sub <= |m| && InBounds(m, at, at, sub)
  {
  }

  lemma FiveCalls(f: Layout, m0: seq<nat>, m1: seq<nat>, m2: seq<nat>, m3: seq<nat>, m4: seq<nat>, m5: seq<nat>, at: nat, sub: nat,
                  v0: nat, v1: nat, sv: nat, xor: bool)
    requires |m0| == |m1| == |m2| == |m3| == |m4| == |m5| && at + 2 * sub <= |m0|
    requires CallDone(f, m0, m1, at, at, sub, v0, xor) && CallDone(f, m1, m2, at + sub, at, sub, v1, true)
    requires CallDone(f, m2, m3, at, at + sub, sub, v1, xor)
    requires CallDone(f, m3, m4, at + sub, at + sub, sub, v0, true) && CallDone(f, m4, m5, at + sub, at + sub, sub, sv, true)
    requires m1[at + sub..at + 2 * sub] == m0[at + sub..at + 2 * sub] && m2[at + sub..at + 2 * sub] == m1[at + sub..at + 2 * sub]
    requires m3[at..at + sub] == m2[at..at + sub] && m4[at..at + sub] == m3[at..at + sub] && m5[at..at + sub] == m4[at..at + sub]
    ensures Chain(f, m0[at..at + sub], m0[at + sub..at + 2 * sub], m1[at..at + sub], m5[at..at + sub],
                  m3[at + sub..at + 2 * sub], m4[at + sub..at + 2 * sub], m5[at + sub..at + 2 * sub], v0, v1, sv, xor)
  {
    hide MulBytes;
    assert at + sub + sub == at + 2 * sub;
  }

  lemma ChainWords(g: C.Gf, wb: nat, m: seq<nat>, m': seq<nat>, at: nat, sub: nat, l1: seq<nat>, h1: seq<nat>, h2: seq<nat>,
                   val: nat, xor: bool, k: nat)
    requires IsComposite(g, wb) && C.In(g, val) && OneBuffer(m, at, sub) && |m| == |m'| && Units(BaseLayout(g, wb), sub, k)
    requires at + 2 * sub <= |m| && Chain(BaseLayout(g, wb), m[at..at + sub], m[at + sub..at + 2 * sub], l1, m'[at..at + sub], h1, h2,
                                          m'[at + sub..at + 2 * sub], C.Lo(g, val), C.Hi(g, val), C.Mul(g.base, g.s, C.Hi(g, val)), xor)
    ensures DoneInPlace(g, wb, m, m', at, sub, k, val, xor)
  {
    hide MulBytes, C.Mul, C.In, C.Ring, C.Lo, C.Hi, C.Pack, Element, AreWords, Width, IsLayout, Units, BaseLayout, IsComposite, IsMemory;
    TowerOf(g, wb);
    LayoutsFit(g, wb);
    C.TowerRing(g);
    C.HalvesFit(g, val);
    var f, v0, v1 := BaseLayout(g, wb), C.Lo(g, val), C.Hi(g, val);
    var sv, w := C.Mul(g.base, g.s, v1), C.Width(g.base);
    C.MulFits(g.base, g.s, v1);
    var lo, hi, l2, h3 := m[at..at + sub], m[at + sub..at + 2 * sub], m'[at..at + sub], m'[at + sub..at + 2 * sub];
    MemorySlice(m, at, sub); MemorySlice(m, at + sub, sub);
    MulBytesAreBytes(f, lo, lo, v0, xor); MulBytesAreBytes(f, hi, l1, v1, true);
    MulBytesAreBytes(f, l2, hi, v1, xor); MulBytesAreBytes(f, h1, h1, v0, true);
    forall j: nat | j < Width(f.ln, k)
      ensures Joined(g, l2, h3, j) == InPlace(g, val, Element(lo, w, j), Element(hi, w, j), xor)
    {
      CheckPasses(f, lo, lo, v0, xor, k, j); CheckPasses(f, hi, l1, v1, true, k, j);
      CheckPasses(f, l2, hi, v1, xor, k, j); CheckPasses(f, h1, h1, v0, true, k, j); CheckPasses(f, h2, h2, sv, true, k, j);
    }
  }
}
