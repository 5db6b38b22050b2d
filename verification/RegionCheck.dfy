/**
 Region multiplications read back element by element, as `extract_word` and
 `gf_general_do_region_check` do, and the exact condition for a call to stay inside its
 region.
 */
module RegionCheck {
  import opened Bits
  import C = Composite
  import opened WordList
  import opened Lanes
  import opened Region

  // ----- element by element, as the library's own check reads a region

  /** `extract_word` in the standard layout: the `w` bits of element `i`. */
  function Element(bs: seq<nat>, w: nat, i: nat): nat {
    Low(Shr(Value(8, bs), Width(w, i)), w)
  }

  lemma {:induction false} SplitIndex(x: nat, w: nat, n: nat, i: nat)
    requires i < n
    ensures Lanes.Split(x, w, n)[i] == Low(Shr(x, Width(w, i)), w)
    decreases n
  {
    if i == 0 {
      ShrZeroBits(x);
    } else {
      SplitIndex(Shr(x, w), w, n - 1, i - 1);
      ShrAdd(x, w, Width(w, i - 1));
    }
  }

  lemma ShrZeroBits(x: nat)
    ensures Shr(x, 0) == x
  {
  }

  lemma {:induction false} ScaledIndex(ls: seq<nat>, c: nat, g: C.Gf, i: nat)
    requires i < |ls|
    ensures ScaledIn(ls, c, g)[i] == C.Mul(g, c, ls[i])
  {
    hide C.Mul;
    if i > 0 { ScaledIndex(ls[1..], c, g, i - 1); }
  }

  lemma ElementXor(x: nat, y: nat, w: nat, i: nat)
    ensures Low(Shr(Xor(x, y), Width(w, i)), w) == Xor(Low(Shr(x, Width(w, i)), w), Low(Shr(y, Width(w, i)), w))
  {
    ShrXor(x, y, Width(w, i));
    LowXor(Shr(x, Width(w, i)), Shr(y, Width(w, i)), w);
  }

  lemma TimesElement(x: nat, c: nat, g: C.Gf, n: nat, i: nat)
    requires C.Ring(g) && C.In(g, c) && i < n
    ensures Low(Shr(TimesIn(x, c, g, n), Width(C.Width(g), i)), C.Width(g)) == C.Mul(g, c, Low(Shr(x, Width(C.Width(g), i)), C.Width(g)))
  {
    hide C.Mul, C.Ring, C.In, Low, Shr, Value, Lanes.Split, AreWords;
    var w := C.Width(g);
    var ls := Lanes.Split(x, w, n);
    SplitWords(x, w, n);
    ScaledInWords(ls, c, g);
    SplitOfValue(w, ScaledIn(ls, c, g));
    SplitIndex(TimesIn(x, c, g, n), w, n, i);
    SplitIndex(x, w, n, i);
    ScaledIndex(ls, c, g, i);
  }

  /** The check's comparison: every element is `val` times the source element, plus the old one if asked. */
  lemma CheckPasses(f: Layout, s: seq<nat>, d: seq<nat>, val: nat, xor: bool, m: nat, i: nat)
    requires IsLayout(f) && C.In(f.g, val) && |s| == |d| && Units(f, |s|, m) && AreWords(8, s) && AreWords(8, d) && i < Width(f.ln, m)
    ensures Element(MulBytes(f, s, d, val, xor), f.w(), i) == C.Product(f.g, val, Element(s, f.w(), i), Element(d, f.w(), i), xor)
  {
    hide MulBytes, Value, TimesIn, C.Mul, C.Ring, C.In, Low, Shr, Xor, AreWords, Width;
    var w, n := f.w(), Width(f.ln, m);
    var x, y := Value(8, s), Value(8, d);
    WordIsUnits(f, s, d, val, xor, m);
    TimesElement(x, val, f.g, n, i);
    ElementXor(y, TimesIn(x, val, f.g, n), w, i);
  }

  /** Words of whole bytes: the bytes themselves, lowest first. */
  lemma ElementIsWord(bs: seq<nat>, wb: nat, i: nat)
    requires AreWords(8, bs) && Width(wb, i) + wb <= |bs|
    ensures Element(bs, Width(8, wb), i) == Value(8, bs[Width(wb, i)..Width(wb, i) + wb])
  {
    hide Value, Low, Shr, Shl, Xor, AreWords, Pow2;
    var o := Width(wb, i);
    BitsOfWords(wb, i);
    ValueCut(8, bs, o);
    assert AreWords(8, bs[..o]) && AreWords(8, bs[o..]) && AreWords(8, bs[o..][..wb]) by { PartsAreWords(bs, o, wb); }
    ValueFits(8, bs[..o]);
    ShrOfSum(Value(8, bs[o..]), Value(8, bs[..o]), Width(8, o));
    ValueCut(8, bs[o..], wb);
    ValueFits(8, bs[o..][..wb]);
    LowOfSum(Value(8, bs[o..][wb..]), Value(8, bs[o..][..wb]), Width(8, wb));
    assert bs[o..][..wb] == bs[o..o + wb];
  }

  lemma PartsAreWords(bs: seq<nat>, o: nat, wb: nat)
    requires AreWords(8, bs) && o + wb <= |bs|
    ensures AreWords(8, bs[..o]) && AreWords(8, bs[o..]) && AreWords(8, bs[o..][..wb])
  {
  }

  lemma {:induction false} BitsOfWords(wb: nat, i: nat)
    ensures Width(Width(8, wb), i) == Width(8, Width(wb, i))
  {
    if i > 0 {
      BitsOfWords(wb, i - 1);
      WidthAdd(8, wb, Width(wb, i - 1));
    }
  }

  /** Two elements per byte for w = 4: the low half first. */
  lemma ElementIsNibble(bs: seq<nat>, i: nat)
    requires AreWords(8, bs) && i / 2 < |bs|
    ensures Element(bs, 4, i) == if i % 2 == 0 then Low(bs[i / 2], 4) else Shr(bs[i / 2], 4)
  {
    hide Value, Low, Shr, AreWords, Pow2;
    var o, x := i / 2, Value(8, bs);
    Width4(o); Width4(i);
    WidthUnit(o);
    ElementIsWord(bs, 1, o);
    SingleByte(bs, o);
    NibbleOf(x, 8 * o);
  }

  lemma {:induction false} Width4(i: nat)
    ensures Width(4, i) == 4 * i && Width(8, i) == 8 * i
  {
    if i > 0 { Width4(i - 1); }
  }

  lemma {:induction false} WidthUnit(i: nat)
    ensures Width(1, i) == i && Width(8, 1) == 8
  {
    if i > 0 { WidthUnit(i - 1); }
  }

  lemma SingleByte(bs: seq<nat>, o: nat)
    requires o < |bs|
    ensures Value(8, bs[o..o + 1]) == bs[o]
  {
    assert bs[o..o + 1] == [bs[o]];
    ShlZero(8);
    XorZero(bs[o]);
  }

  lemma NibbleOf(x: nat, k: nat)
    ensures Low(Shr(x, k), 4) == Low(Low(Shr(x, k), 8), 4) && Low(Shr(x, k + 4), 4) == Shr(Low(Shr(x, k), 8), 4)
  {
    hide Low, Shr;
    BitLaws();
    BitExt(Low(Shr(x, k), 4), Low(Low(Shr(x, k), 8), 4));
    BitExt(Low(Shr(x, k + 4), 4), Shr(Low(Shr(x, k), 8), 4));
  }

  /** The shortcuts give the product too, wherever a product is defined. */
  lemma EffectIsProduct(f: Layout, m: seq<nat>, src: nat, dest: nat, len: nat, val: nat, xor: bool, k: nat)
    requires IsLayout(f) && C.In(f.g, val) && IsMemory(m) && src + len <= |m| && dest + len <= |m| && Units(f, len, k)
    ensures Effect(f, m, src, dest, len, val, xor) == MulBytes(f, m[src..src + len], m[dest..dest + len], val, xor)
  {
    hide MulBytes, TimesIn, Value, C.Ring, C.Mul, AreWords, Pow2, XorWords, Xor;
    var s, d := m[src..src + len], m[dest..dest + len];
    MemorySlice(m, src, len); MemorySlice(m, dest, len);
    WordIsUnits(f, s, d, val, xor, k);
    MulBytesLen(f, s, d, val, xor, k);
    MulBytesAreBytes(f, s, d, val, xor);
    WordFits(f, s, k);
    if val == 0 {
      TimesZero(Value(8, s), f.g, Width(f.ln, k));
      XorZero(Value(8, d));
      ZerosValue(len);
      SameBytes(MulBytes(f, s, d, val, xor), if xor then d else Zeros(len));
    } else if val == 1 {
      TimesOne(Value(8, s), f.g, Width(f.ln, k));
      ValueXor(8, d, s);
      SameBytes(MulBytes(f, s, d, val, xor), if xor then XorWords(d, s) else s);
    }
  }

  lemma SameBytes(a: seq<nat>, b: seq<nat>)
    requires AreWords(8, a) && AreWords(8, b) && |a| == |b| && Value(8, a) == Value(8, b)
    ensures a == b
  {
    SplitOfValue(8, a);
    SplitOfValue(8, b);
  }

  lemma {:induction false} ZerosValue(n: nat)
    ensures AreWords(8, Zeros(n)) && Value(8, Zeros(n)) == 0
  {
    if n > 0 {
      ZerosValue(n - 1);
      assert Zeros(n)[1..] == Zeros(n - 1);
      ShlZero(8); XorZero(0);
    }
  }

  lemma {:induction false} TimesZero(x: nat, g: C.Gf, n: nat)
    ensures TimesIn(x, 0, g, n) == 0
    decreases n
  {
    hide C.Mul;
    if n > 0 {
      TimesZero(Shr(x, C.Width(g)), g, n - 1);
      C.MulZero(g, Low(x, C.Width(g)));
      var ls := ScaledIn(Lanes.Split(x, C.Width(g), n), 0, g);
      assert ls[1..] == ScaledIn(Lanes.Split(Shr(x, C.Width(g)), C.Width(g), n - 1), 0, g);
      ShlZero(C.Width(g)); XorZero(0);
    }
  }

  lemma {:induction false} ScaledOneIn(ls: seq<nat>, g: C.Gf)
    requires C.Ring(g) && AreWords(C.Width(g), ls)
    ensures ScaledIn(ls, 1, g) == ls
  {
    hide C.Mul, C.Ring;
    if ls != [] {
      ScaledOneIn(ls[1..], g);
      C.MulOne(g, ls[0]);
    }
  }

  lemma TimesOne(x: nat, g: C.Gf, n: nat)
    requires C.Ring(g) && x < Pow2(Width(C.Width(g), n))
    ensures TimesIn(x, 1, g, n) == x
  {
    hide C.Mul, C.Ring, Pow2, Value;
    SplitValue(x, C.Width(g), n);
    ScaledOneIn(Lanes.Split(x, C.Width(g), n), g);
  }

  // ----- which calls stay inside the region

  /** No byte outside the `bytes` bytes from `dest` on changes. */
  ghost predicate Contained(f: Layout, m: seq<nat>, src: nat, dest: nat, bytes: nat, len: nat, val: nat, xor: bool)
    requires f.wb >= 1 && dest + len <= |m| && (val != 0 ==> src + len <= |m|) && |Effect(f, m, src, dest, len, val, xor)| == len
  {
    forall j :: 0 <= j < |m| && !(dest <= j < dest + bytes) ==> Patch(m, dest, Effect(f, m, src, dest, len, val, xor))[j] == m[j]
  }

  /** Memory that tells: all zero but for the element that starts where the region ends. */
  function Probe(src: nat, dest: nat, bytes: nat, len: nat): (m: seq<nat>)
    requires bytes < len
    ensures |m| == src + dest + len
  {
    seq(src + dest + len, j => if j == src + bytes then 1 else 0)
  }

  ghost predicate AlwaysContained(f: Layout, src: nat, dest: nat, bytes: nat, len: nat, val: nat, xor: bool, k: nat)
    requires f.wb >= 1 && Units(f, len, k) && val >= 2
  {
    forall m: seq<nat> :: InBounds(m, src, dest, len) ==> ContainedUnits(f, m, src, dest, bytes, len, val, xor, k)
  }

  lemma EffectLength(f: Layout, m: seq<nat>, src: nat, dest: nat, len: nat, val: nat, xor: bool, k: nat)
    requires f.wb >= 1 && Units(f, len, k) && val >= 2 && InBounds(m, src, dest, len)
    ensures |Effect(f, m, src, dest, len, val, xor)| == len
  {
    hide MulBytes, Width, IsMemory;
    MulBytesLen(f, m[src..src + len], m[dest..dest + len], val, xor, k);
  }

  ghost predicate ContainedUnits(f: Layout, m: seq<nat>, src: nat, dest: nat, bytes: nat, len: nat, val: nat, xor: bool, k: nat)
    requires f.wb >= 1 && Units(f, len, k) && val >= 2 && InBounds(m, src, dest, len)
  {
    EffectLength(f, m, src, dest, len, val, xor, k);
    Contained(f, m, src, dest, bytes, len, val, xor)
  }

  /**
   A call whose set-up succeeds changes nothing beyond its region, whatever memory holds,
   exactly when the region is not shorter than its leading gap.
   */
  lemma ContainedExact(f: Layout, src: nat, dest: nat, bytes: nat, val: nat, xor: bool, align: nat, k: nat)
    requires IsLayout(f) && C.In(f.g, val) && val >= 2 && f.wb == WordBytes(f.w()) && f.w() >= 1 && align >= 1
    requires SetRegionData(f.w(), src, dest, bytes, align).Ready?
    requires var len := Reach(f.w(), src, dest, bytes, val, xor, align); Units(f, len, k) && Compatible(src, dest, len)
    ensures AlwaysContained(f, src, dest, bytes, Reach(f.w(), src, dest, bytes, val, xor, align), val, xor, k)
            <==> Gap(src, if align <= 16 then align else 16) <= bytes
  {
    hide MulBytes, Gap, SetRegionData, Width, IsLayout, Units, ContainedUnits, C.In, Compatible;
    LayoutPositive(f);
    var a: nat := if align <= 16 then align else 16;
    var len := Reach(f.w(), src, dest, bytes, val, xor, align);
    if Gap(src, a) <= bytes {
      forall m: seq<nat> | InBounds(m, src, dest, len) ensures ContainedUnits(f, m, src, dest, bytes, len, val, xor, k) {
        FitsInside(f, m, src, dest, bytes, val, xor, k);
      }
    } else {
      ReadyMeans(f, src, dest, bytes, align);
      Overrun(f, src, dest, bytes, len, val, xor, k);
    }
  }

  lemma FitsInside(f: Layout, m: seq<nat>, src: nat, dest: nat, bytes: nat, val: nat, xor: bool, k: nat)
    requires f.wb >= 1 && val >= 2 && Units(f, bytes, k) && InBounds(m, src, dest, bytes)
    ensures ContainedUnits(f, m, src, dest, bytes, bytes, val, xor, k)
  {
    hide MulBytes, Width;
    MulBytesLen(f, m[src..src + bytes], m[dest..dest + bytes], val, xor, k);
  }

  lemma Overrun(f: Layout, src: nat, dest: nat, bytes: nat, len: nat, val: nat, xor: bool, k: nat)
    requires IsLayout(f) && C.In(f.g, val) && val >= 2 && bytes % f.wb == 0 && bytes < len && Units(f, len, k) && Compatible(src, dest, len)
    ensures InBounds(Probe(src, dest, bytes, len), src, dest, len)
    ensures !ContainedUnits(f, Probe(src, dest, bytes, len), src, dest, bytes, len, val, xor, k)
  {
    hide MulBytes, Width, IsLayout, C.In, Units, Compatible, Value, Xor, UnitProduct, Probe, IsMemory, ContainedUnits;
    LayoutPositive(f);
    var m := Probe(src, dest, bytes, len);
    ProbeMemory(src, dest, bytes, len);
    var u := WidthOfMultiple(f.wb, bytes);
    UnitBefore(f, u, bytes, len, k);
    ProbeUnits(f, src, dest, bytes, len);
    var s, d := m[src..src + len], m[dest..dest + len];
    MemorySlice(m, dest, len);
    MulBytesLen(f, s, d, val, xor, k);
    UnitPasses(f, s, d, val, xor, k, u);
    UnitInside(f.wb, u);
    ProbeChanges(f, if src == dest then 1 else 0, val, xor);
    if ContainedUnits(f, m, src, dest, bytes, len, val, xor, k) {
      KeptBeyond(f, m, src, dest, bytes, len, val, xor, k);
    }
  }

  lemma KeptBeyond(f: Layout, m: seq<nat>, src: nat, dest: nat, bytes: nat, len: nat, val: nat, xor: bool, k: nat)
    requires f.wb >= 1 && val >= 2 && Units(f, len, k) && InBounds(m, src, dest, len) && bytes + f.wb <= len
    requires ContainedUnits(f, m, src, dest, bytes, len, val, xor, k)
    ensures var s, d := m[src..src + len], m[dest..dest + len];
            |MulBytes(f, s, d, val, xor)| == len && MulBytes(f, s, d, val, xor)[bytes..bytes + f.wb] == d[bytes..bytes + f.wb]
  {
    hide MulBytes, Units, Compatible, IsMemory;
    var s, d := m[src..src + len], m[dest..dest + len];
    var r := MulBytes(f, s, d, val, xor);
    MulBytesLen(f, s, d, val, xor, k);
    var m' := Patch(m, dest, r);
    forall j | bytes <= j < bytes + f.wb ensures r[j] == d[j] {
      assert m'[dest + j] == r[j];
      assert m'[dest + j] == m[dest + j];
    }
  }

  lemma ProbeMemory(src: nat, dest: nat, bytes: nat, len: nat)
    requires bytes < len
    ensures IsMemory(Probe(src, dest, bytes, len))
  {
    assert Pow2(8) == 256;
  }

  lemma UnitBefore(f: Layout, u: nat, bytes: nat, len: nat, k: nat)
    requires f.wb >= 1 && Width(f.wb, u) == bytes < len && Units(f, len, k)
    ensures u < k && bytes + f.wb <= len
  {
    WidthOrder(f.wb, u, k);
  }

  /** The probed unit holds 1 in the source, and the same or 0 in the destination. */
  lemma ProbeUnits(f: Layout, src: nat, dest: nat, bytes: nat, len: nat)
    requires f.wb >= 1 && bytes + f.wb <= len && Compatible(src, dest, len)
    ensures var m := Probe(src, dest, bytes, len);
            && Value(8, m[src..src + len][bytes..bytes + f.wb]) == 1
            && Value(8, m[dest..dest + len][bytes..bytes + f.wb]) == if src == dest then 1 else 0
  {
    hide Value;
    var m := Probe(src, dest, bytes, len);
    var s, d := m[src..src + len][bytes..bytes + f.wb], m[dest..dest + len][bytes..bytes + f.wb];
    assert forall j :: 0 <= j < f.wb ==> s[j] == m[src + bytes + j] && d[j] == m[dest + bytes + j];
    assert s == [1] + Zeros(f.wb - 1);
    OneThenZeros(f.wb - 1);
    if src == dest {
      assert d == s;
    } else {
      assert d == Zeros(f.wb);
      ZerosValue(f.wb);
    }
  }

  lemma OneThenZeros(n: nat)
    ensures Value(8, [1] + Zeros(n)) == 1
  {
    ZerosValue(n);
    assert ([1] + Zeros(n))[1..] == Zeros(n);
    ShlZero(8); XorZero(1);
  }

  lemma ProbeChanges(f: Layout, d: nat, val: nat, xor: bool)
    requires IsLayout(f) && C.In(f.g, val) && val >= 2 && d < 2
    ensures UnitProduct(f, 1, d, val, xor) != d
  {
    hide TimesIn, C.In, C.Ring, Xor;
    UnitTimes(f, val);
    XorCancel(d, val);
    XorSelf(d);
    assert Xor(d, Xor(d, val)) == val && Xor(d, d) == 0;
  }

  lemma ShrOne(w: nat)
    requires 1 < Pow2(w)
    ensures Shr(1, w) == 0
  {
    ShrFits(1, w, 0);
  }

  /** `val` times a unit that holds 1 is `val`. */
  lemma UnitTimes(f: Layout, val: nat)
    requires IsLayout(f) && C.In(f.g, val)
    ensures TimesIn(1, val, f.g, f.ln) == val
  {
    hide C.Mul, C.Ring, Pow2;
    var w, g := f.w(), f.g;
    C.OneIn(g);
    var ls := Lanes.Split(1, w, f.ln);
    LowId(1, w);
    ShrOne(w);
    C.MulOne(g, val);
    var sc := ScaledIn(ls, val, g);
    assert sc[1..] == ScaledIn(Lanes.Split(0, w, f.ln - 1), val, g);
    ScaledZeros(w, f.ln - 1, val, g);
    ShlZero(w); XorZero(val);
  }

  lemma {:induction false} ScaledZeros(w: nat, n: nat, val: nat, g: C.Gf)
    ensures Value(w, ScaledIn(Lanes.Split(0, w, n), val, g)) == 0
    decreases n
  {
    hide C.Mul;
    if n > 0 {
      LowOfZero(w); ShrZero(w);
      ScaledZeros(w, n - 1, val, g);
      C.MulZero(g, val);
      assert ScaledIn(Lanes.Split(0, w, n), val, g)[1..] == ScaledIn(Lanes.Split(0, w, n - 1), val, g);
      ShlZero(w); XorZero(0);
    }
  }

  /** Such calls exist: one byte at an odd address, with 8-byte alignment. */
  lemma ShortRegionAccepted()
    ensures SetRegionData(8, 1, 1, 1, 8).Ready? && Gap(1, 8) == 7
  {
  }

  // ----- unit by unit

  function Extract(bs: seq<nat>, wb: nat, i: nat): nat
    requires Width(wb, i + 1) <= |bs|
  {
    UnitInside(wb, i);
    Value(8, bs[Width(wb, i)..Width(wb, i) + wb])
  }

  lemma UnitInside(wb: nat, i: nat)
    ensures Width(wb, i + 1) == Width(wb, i) + wb
  {
  }

  /** Unit `i` of the result is the product of the two units it comes from. */
  lemma {:induction false} UnitPasses(f: Layout, s: seq<nat>, d: seq<nat>, val: nat, xor: bool, k: nat, i: nat)
    requires IsLayout(f) && C.In(f.g, val) && |s| == |d| && Units(f, |s|, k) && AreWords(8, d) && i < k
    ensures var r := MulBytes(f, s, d, val, xor);
            && Width(f.wb, i + 1) <= |s| == |r|
            && Extract(r, f.wb, i) == UnitProduct(f, Extract(s, f.wb, i), Extract(d, f.wb, i), val, xor)
    decreases k
  {
    hide Value, Pow2, UnitBytes, UnitProduct, C.Ring, C.In;
    LayoutPositive(f);
    var wb := f.wb;
    MulBytesLen(f, s, d, val, xor, k);
    WidthGrows(wb, i + 1, k);
    WidthStep(wb, k); WidthStep(wb, i + 1);
    var u, r := UnitBytes(f, s[..wb], d[..wb], val, xor), MulBytes(f, s, d, val, xor);
    if i == 0 {
      WidthStep(wb, 0);
      UnitBytesAre(f, s[..wb], d[..wb], val, xor);
      assert r[..wb] == u;
    } else {
      UnitPasses(f, s[wb..], d[wb..], val, xor, k - 1, i - 1);
      WidthStep(wb, i);
      Shifted(s, wb, i); Shifted(d, wb, i); Shifted(r, wb, i);
      assert r[wb..] == MulBytes(f, s[wb..], d[wb..], val, xor);
    }
  }

  lemma Shifted(bs: seq<nat>, wb: nat, i: nat)
    requires i >= 1 && Width(wb, i + 1) <= |bs| && wb <= |bs|
    ensures Width(wb, i) <= |bs[wb..]| && Extract(bs, wb, i) == Extract(bs[wb..], wb, i - 1)
  {
    var o := Width(wb, i - 1);
    assert bs[wb..][o..o + wb] == bs[wb + o..wb + o + wb];
  }

  // ----- parts of a region, seen from outside

  ghost predicate SameOutside(m: seq<nat>, m': seq<nat>, lo: int, hi: int) {
    |m| == |m'| && forall j :: 0 <= j < |m| && !(lo <= j < hi) ==> m'[j] == m[j]
  }

  /** A range that does not meet the changed one is unchanged. */
  lemma SliceSame(m: seq<nat>, m': seq<nat>, lo: int, hi: int, at: nat, c: nat)
    requires SameOutside(m, m', lo, hi) && at + c <= |m| && (at + c <= lo || hi <= at)
    ensures m'[at..at + c] == m[at..at + c]
  {
  }

  /** The word of `wb` bytes at an address, lowest byte first. */
  function Word(m: seq<nat>, at: nat, wb: nat): nat
    requires at + wb <= |m|
  {
    Value(8, m[at..at + wb])
  }

  lemma OneLane(f: Layout, s: nat, d: nat, val: nat, xor: bool)
    requires IsLayout(f) && f.ln == 1 && s < Pow2(f.w())
    ensures UnitProduct(f, s, d, val, xor) == C.Product(f.g, val, s, d, xor)
  {
    hide C.Mul, C.Ring, Pow2;
    var w := f.w();
    LowId(s, w);
    var p := C.Mul(f.g, val, s);
    assert Lanes.Split(s, w, 1) == [s];
    assert ScaledIn([s], val, f.g) == [p];
    ShlZero(w); XorZero(p);
    assert Value(w, [p]) == p;
  }

  /** A part done word by word: every word is multiplied, nothing else changes. */
  lemma SlowWords(f: Layout, m: seq<nat>, src: nat, dest: nat, len: nat, val: nat, xor: bool, k: nat)
    requires IsLayout(f) && f.ln == 1 && C.In(f.g, val) && InBounds(m, src, dest, len) && Units(f, len, k)
    ensures var m' := After(f, m, src, dest, len, val, xor, k);
            && IsMemory(m') && SameOutside(m, m', dest, dest + len)
            && SlowPart(f, m, m', src, dest, k, val, xor)
  {
    hide MulBytes, Width, C.In, IsLayout, IsMemory, Compatible, SlowWord;
    AfterMemory(f, m, src, dest, len, len, val, xor, k);
    LayoutPositive(f);
    MulBytesLen(f, m[src..src + len], m[dest..dest + len], val, xor, k);
    forall i: nat | i < k ensures SlowWord(f, m, After(f, m, src, dest, len, val, xor, k), src, dest, i, val, xor) {
      SlowWordStep(f, m, src, dest, len, val, xor, k, i);
    }
  }

  ghost predicate SlowPart(f: Layout, m: seq<nat>, m': seq<nat>, src: nat, dest: nat, k: nat, val: nat, xor: bool) {
    forall i: nat :: i < k ==> SlowWord(f, m, m', src, dest, i, val, xor)
  }

  ghost predicate SlowWord(f: Layout, m: seq<nat>, m': seq<nat>, src: nat, dest: nat, i: nat, val: nat, xor: bool) {
    var o := Width(f.wb, i);
    && |m| == |m'| && src + o + f.wb <= |m| && dest + o + f.wb <= |m|
    && Word(m', dest + o, f.wb) == C.Product(f.g, val, Word(m, src + o, f.wb), Word(m, dest + o, f.wb), xor)
  }

  lemma SlowWordStep(f: Layout, m: seq<nat>, src: nat, dest: nat, len: nat, val: nat, xor: bool, k: nat, i: nat)
    requires IsLayout(f) && f.ln == 1 && C.In(f.g, val) && InBounds(m, src, dest, len) && Units(f, len, k) && i < k
    ensures SlowWord(f, m, After(f, m, src, dest, len, val, xor, k), src, dest, i, val, xor)
  {
    hide MulBytes, Width, C.In, C.Ring, C.Mul, Value, Pow2, UnitProduct, AreWords, Compatible, Patch;
    var s, d, o := m[src..src + len], m[dest..dest + len], Width(f.wb, i);
    LayoutPositive(f);
    MemorySlice(m, src, len); MemorySlice(m, dest, len);
    MulBytesLen(f, s, d, val, xor, k);
    UnitPasses(f, s, d, val, xor, k, i);
    UnitInside(f.wb, i);
    var m' := After(f, m, src, dest, len, val, xor, k);
    SliceOfPatch(m, dest, MulBytes(f, s, d, val, xor), o, f.wb);
    SliceOfSlice(m, src, len, o, f.wb); SliceOfSlice(m, dest, len, o, f.wb);
    MemorySlice(s, o, f.wb);
    WordInField(f, s[o..o + f.wb]);
    OneLane(f, Value(8, s[o..o + f.wb]), Value(8, d[o..o + f.wb]), val, xor);
  }

  lemma SliceOfSlice(m: seq<nat>, at: nat, len: nat, o: nat, c: nat)
    requires at + len <= |m| && o + c <= len
    ensures m[at..at + len][o..o + c] == m[at + o..at + o + c]
  {
    var s := m[at..at + len];
    assert forall j :: o <= j < o + c ==> s[j] == m[at + j];
  }

  lemma SliceOfPatch(m: seq<nat>, at: nat, bs: seq<nat>, o: nat, c: nat)
    requires at + |bs| <= |m| && o + c <= |bs|
    ensures Patch(m, at, bs)[at + o..at + o + c] == bs[o..o + c]
  {
    var r := Patch(m, at, bs);
    forall j | at + o <= j < at + o + c ensures r[j] == bs[j - at] {}
  }

  lemma WordInField(f: Layout, s: seq<nat>)
    requires IsLayout(f) && f.ln == 1 && |s| == f.wb && AreWords(8, s)
    ensures Value(8, s) < Pow2(f.w())
  {
    hide Value, Pow2, AreWords, C.Ring;
    ValueFits(8, s);
    WidthStep(f.w(), 1); WidthStep(f.w(), 0);
  }

  /**
   A region whose prefix of `g` bytes and suffix from `t` on are done word by word, and
   whose middle by some other routine: memory before, after the prefix, after the middle
   and at the end.
   */
  ghost predicate Phases(f: Layout, m0: seq<nat>, m1: seq<nat>, m2: seq<nat>, m3: seq<nat>,
                         src: nat, dest: nat, bytes: nat, g: nat, t: nat, k0: nat, k2: nat, val: nat, xor: bool) {
    && g <= t <= Later(bytes, t) && InBounds(m0, src, dest, Later(bytes, t))
    && SameOutside(m0, m1, dest, dest + g) && SameOutside(m1, m2, dest + g, dest + t)
    && SameOutside(m2, m3, dest + t, dest + Later(bytes, t))
    && Units(f, g, k0) && SlowPart(f, m0, m1, src, dest, k0, val, xor)
    && Units(f, Later(bytes, t) - t, k2) && SlowPart(f, m2, m3, src + t, dest + t, k2, val, xor)
  }

  /** Each word of the prefix is multiplied, seen over the whole call. */
  lemma PrefixWord(f: Layout, m0: seq<nat>, m1: seq<nat>, m2: seq<nat>, m3: seq<nat>,
                   src: nat, dest: nat, bytes: nat, g: nat, t: nat, k0: nat, k2: nat, val: nat, xor: bool, i: nat)
    requires f.wb >= 1 && Phases(f, m0, m1, m2, m3, src, dest, bytes, g, t, k0, k2, val, xor) && i < k0
    ensures SlowWord(f, m0, m3, src, dest, i, val, xor)
  {
    hide IsMemory, Compatible, C.Mul, Value, Width;
    var o := Width(f.wb, i);
    assert SlowWord(f, m0, m1, src, dest, i, val, xor);
    WidthOrder(f.wb, i, k0);
    SliceSame(m1, m2, dest + g, dest + t, dest + o, f.wb);
    SliceSame(m2, m3, dest + t, dest + Later(bytes, t), dest + o, f.wb);
  }

  lemma SuffixWord(f: Layout, m0: seq<nat>, m1: seq<nat>, m2: seq<nat>, m3: seq<nat>,
                   src: nat, dest: nat, bytes: nat, g: nat, t: nat, k0: nat, k2: nat, val: nat, xor: bool, i: nat)
    requires f.wb >= 1 && Phases(f, m0, m1, m2, m3, src, dest, bytes, g, t, k0, k2, val, xor) && i < k2
    ensures SlowWord(f, m0, m3, src + t, dest + t, i, val, xor)
  {
    hide IsMemory, C.Mul, Value, Width;
    var o := Width(f.wb, i);
    assert SlowWord(f, m2, m3, src + t, dest + t, i, val, xor);
    WidthOrder(f.wb, i, k2);
    SliceSame(m0, m1, dest, dest + g, dest + t + o, f.wb); SliceSame(m1, m2, dest + g, dest + t, dest + t + o, f.wb);
    SliceSame(m0, m1, dest, dest + g, src + t + o, f.wb); SliceSame(m1, m2, dest + g, dest + t, src + t + o, f.wb);
  }

  /** What the middle reads is untouched by the prefix, what it writes by the suffix. */
  lemma MiddleSame(f: Layout, m0: seq<nat>, m1: seq<nat>, m2: seq<nat>, m3: seq<nat>,
                   src: nat, dest: nat, bytes: nat, g: nat, t: nat, k0: nat, k2: nat, val: nat, xor: bool)
    requires Phases(f, m0, m1, m2, m3, src, dest, bytes, g, t, k0, k2, val, xor)
    ensures |m0| == |m1| == |m2| == |m3| && src + t <= |m0| && dest + t <= |m0|
    ensures m1[src + g..src + t] == m0[src + g..src + t] && m1[dest + g..dest + t] == m0[dest + g..dest + t]
    ensures m3[dest + g..dest + t] == m2[dest + g..dest + t]
    ensures SameOutside(m0, m3, dest, dest + Later(bytes, t))
  {
    hide IsMemory, SlowWord, Units;
    SliceSame(m0, m1, dest, dest + g, src + g, t - g); SliceSame(m0, m1, dest, dest + g, dest + g, t - g);
    SliceSame(m2, m3, dest + t, dest + Later(bytes, t), dest + g, t - g);
  }

  /** Relative end of the middle: whole blocks of `align` bytes from the gap on. */
  function Top(bytes: nat, g: nat, align: nat): (t: nat)
    requires align >= 1
    ensures g <= t
  {
    if g <= bytes then g + ((bytes - g) - (bytes - g) % align) else g
  }

  lemma TopIs(w: nat, src: nat, dest: nat, bytes: nat, align: nat, a: nat)
    requires w >= 1 && align >= 1 && a == (if align <= 16 then align else 16)
    requires SetRegionData(w, src, dest, bytes, align).Ready?
    ensures var rd, g := SetRegionData(w, src, dest, bytes, align).rd, Gap(src, a);
            var t := Top(bytes, g, align);
            && rd.sStart == src + g && rd.dStart == dest + g && rd.sTop == src + t && rd.dTop == dest + t
            && (g <= bytes ==> t <= bytes) && (t - g) % align == 0 && Gap(dest, a) == g
            && Later(bytes, t) == Later(bytes, g)
  {
    hide Gap;
    SameGap(src, dest, a);
    if Gap(src, a) <= bytes {
      RemainderSplit(bytes - Gap(src, a), align);
    } else {
      SmallMod(Gap(src, a) - bytes, align);
      MultipleMod(0, align);
    }
  }

  /** The prefix or the suffix of a call: word by word from `src` up to `stop`. */
  method MultiplySlowly(f: Layout, mem: array<nat>, src: nat, dest: nat, stop: int, val: nat, xor: bool, ghost len: nat, ghost k: nat)
    requires IsLayout(f) && f.ln == 1 && C.In(f.g, val) && InBounds(mem[..], src, dest, len)
    requires len == Later(src, stop) - src && Units(f, len, k)
    modifies mem
    ensures IsMemory(mem[..]) && SameOutside(old(mem[..]), mem[..], dest, dest + len)
    ensures SlowPart(f, old(mem[..]), mem[..], src, dest, k, val, xor)
  {
    hide IsLayout, IsMemory, Compatible, After, SlowPart, C.In, Width;
    LayoutPositive(f);
    ghost var m := mem[..];
    AfterStart(f, m, src, dest, val, xor);
    SlowMultiply(f, mem, src, dest, stop, val, xor, m, src, dest, len, 0, k);
    SlowWords(f, m, src, dest, len, val, xor, k);
  }

  /** Two regions that are one or disjoint remain so after a change elsewhere in memory. */
  lemma StillInBounds(m: seq<nat>, m': seq<nat>, src: nat, dest: nat, len: nat, i: nat, c: nat)
    requires InBounds(m, src, dest, len) && |m'| == |m| && IsMemory(m') && i + c <= len
    ensures InBounds(m', src + i, dest + i, c)
  {
  }

  /** Prefix and suffix consist of whole words. */
  lemma WordCounts(f: Layout, src: nat, bytes: nat, g: nat, t: nat) returns (k0: nat, k2: nat)
    requires f.wb >= 1 && 8 % f.wb == 0 && src % f.wb == 0 && bytes % f.wb == 0 && g == Gap(src, 16) && g <= t && (t - g) % 32 == 0
    requires bytes < g ==> t == g
    ensures Units(f, g, k0) && Units(f, Later(bytes, t) - t, k2)
  {
    hide Gap, Width;
    DividesTrans(src + g, 16, 8); DividesTrans(src + g, 8, f.wb);
    DividesDiff(src + g, src, f.wb);
    DividesTrans(t - g, 32, 8); DividesTrans(t - g, 8, f.wb);
    k0 := WidthOfMultiple(f.wb, g);
    SumDivides(g, t - g, f.wb);
    if t <= bytes {
      DividesDiff(bytes, t, f.wb);
      k2 := WidthOfMultiple(f.wb, bytes - t);
    } else {
      k2 := 0;
      WidthStep(f.wb, 0);
    }
  }

  lemma SumDivides(x: nat, y: nat, d: nat)
    requires d >= 1 && x % d == 0 && y % d == 0
    ensures (x + y) % d == 0
  {
    var q, r := x / d, y / d;
    assert x + y == (q + r) * d;
    MultipleMod(q + r, d);
  }

  lemma LaterShift(src: nat, g: nat, t: nat, bytes: nat)
    ensures Later(src, src + g) - src == g && Later(bytes, t) >= t && Later(src + t, src + bytes) - (src + t) == Later(bytes, t) - t
  {
  }

  lemma SameSize(m: seq<nat>, m': seq<nat>, lo: int, hi: int)
    requires SameOutside(m, m', lo, hi)
    ensures |m| == |m'|
  {
  }

  lemma AllPhases(f: Layout, m0: seq<nat>, m1: seq<nat>, m2: seq<nat>, m3: seq<nat>,
                  src: nat, dest: nat, bytes: nat, g: nat, t: nat, k0: nat, k2: nat, val: nat, xor: bool)
    requires g <= t && InBounds(m0, src, dest, Later(bytes, t))
    requires SameOutside(m0, m1, dest, dest + g) && SameOutside(m1, m2, dest + g, dest + t)
    requires SameOutside(m2, m3, dest + t, dest + t + (Later(bytes, t) - t))
    requires Units(f, g, k0) && SlowPart(f, m0, m1, src, dest, k0, val, xor)
    requires Units(f, Later(bytes, t) - t, k2) && SlowPart(f, m2, m3, src + t, dest + t, k2, val, xor)
    ensures Phases(f, m0, m1, m2, m3, src, dest, bytes, g, t, k0, k2, val, xor)
  {
  }

  lemma BoundsFacts(m: seq<nat>, src: nat, dest: nat, len: nat)
    requires InBounds(m, src, dest, len)
    ensures IsMemory(m) && src + len <= |m| && dest + len <= |m|
  {
  }
}
