/**
 The interleaved ALTMAP layout of w = 16 (`gf_w16_split_4_16_lazy_nosse_altmap_multiply_
 region`, `gf_w16_split_extract_word`): in the aligned middle of a region, blocks of 16
 high bytes and 16 low bytes. Multiplying a region commutes with `extract_word`, for every
 word of the region.
 */
module AltMap {
  import opened Bits
  import P = Poly
  import C = Composite
  import opened WordList
  import opened SplitTable
  import opened Region
  import opened RegionCheck

  // ----- 16 high bytes, then 16 low bytes

  /** Offset of the high byte of word `i`; the low byte is 16 further on. */
  function HighAt(i: nat): nat {
    (i - i % 16) * 2 + i % 16
  }

  /** `gf_w16_split_extract_word` on the aligned part of a region. */
  function Extract(r: seq<nat>, i: nat): nat
    requires HighAt(i) + 16 < |r|
  {
    Xor(Shl(r[HighAt(i)], 8), r[HighAt(i) + 16])
  }

  /** Different words use different bytes. */
  lemma PlacesDisjoint(i: nat, j: nat)
    requires i != j
    ensures HighAt(i) != HighAt(j) && HighAt(i) != HighAt(j) + 16
  {
  }

  lemma PlaceOf(block: nat, j: nat)
    requires j < 16
    ensures HighAt(16 * block + j) == 32 * block + j
  {
  }

  lemma PlaceInside(i: nat, blocks: nat)
    requires i < 16 * blocks
    ensures HighAt(i) + 16 < 32 * blocks
  {
  }

  /** `table[i][j] == (j << 4i) * val` */
  ghost predicate NibbleTables(table: seq<seq<nat>>, val: nat, p: nat)
    requires p > 0
  {
    && |table| == 4
    && (forall i :: 0 <= i < 4 ==> |table[i]| == 16)
    && (forall i, j :: 0 <= i < 4 && 0 <= j < 16 ==> Looked(table[i][j], i, j, val, p))
  }

  ghost predicate Looked(e: nat, i: nat, j: nat, val: nat, p: nat)
    requires p > 0
  {
    e == P.Mul(Shl(j, 4 * i), val, p)
  }

  /** Four lookups multiply a 16-bit word. */
  lemma FourLookups(table: seq<seq<nat>>, hi: nat, lo: nat, val: nat, p: nat)
    requires p > 0 && NibbleTables(table, val, p) && hi < 256 && lo < 256
    ensures Low(lo, 4) < 16 && Shr(lo, 4) < 16 && Low(hi, 4) < 16 && Shr(hi, 4) < 16
    ensures Xor(Xor(Xor(table[0][Low(lo, 4)], table[1][Shr(lo, 4)]), table[2][Low(hi, 4)]), table[3][Shr(hi, 4)])
            == P.Mul(val, Xor(Shl(hi, 8), lo), p)
  {
    Nibbles(hi); Nibbles(lo);
    hide Xor, Shl, Shr, Low, P.Mul;
    var l0, l1, h0, h1 := Low(lo, 4), Shr(lo, 4), Low(hi, 4), Shr(hi, 4);
    assert Looked(table[0][l0], 0, l0, val, p) && Looked(table[1][l1], 1, l1, val, p);
    assert Looked(table[2][h0], 2, h0, val, p) && Looked(table[3][h1], 3, h1, val, p);
    WordNibbles(l0, l1, h0, h1, hi, lo);
    P.MulXor(Xor(Xor(Shl(l0, 0), Shl(l1, 4)), Shl(h0, 8)), Shl(h1, 12), val, p);
    P.MulXor(Xor(Shl(l0, 0), Shl(l1, 4)), Shl(h0, 8), val, p);
    P.MulXor(Shl(l0, 0), Shl(l1, 4), val, p);
    P.MulComm(val, Xor(Shl(hi, 8), lo), p);
  }

  lemma Nibbles(b: nat)
    requires b < 256
    ensures Low(b, 4) < 16 && Shr(b, 4) < 16 && b == Xor(Shl(Shr(b, 4), 4), Low(b, 4))
  {
    assert Pow2(4) == 16 && Pow2(8) == 256;
    LowFits(b, 4);
    ShrFits(b, 4, 4);
    SplitAt(b, 4);
  }

  lemma WordNibbles(l0: nat, l1: nat, h0: nat, h1: nat, hi: nat, lo: nat)
    requires lo == Xor(Shl(l1, 4), l0) && hi == Xor(Shl(h1, 4), h0)
    ensures Xor(Xor(Xor(Shl(l0, 0), Shl(l1, 4)), Shl(h0, 8)), Shl(h1, 12)) == Xor(Shl(hi, 8), lo)
  {
    hide Xor;
    ShlByZero(l0);
    ShlXor(Shl(h1, 4), h0, 8);
    ShlAdd(h1, 4, 8);
    XorComm(l0, Shl(l1, 4));
    XorAssoc(lo, Shl(h0, 8), Shl(h1, 12));
    XorComm(Shl(h0, 8), Shl(h1, 12));
    XorComm(lo, Shl(hi, 8));
  }

  method MakeTables(val: nat, p: nat) returns (table: seq<seq<nat>>)
    requires p > 0
    ensures NibbleTables(table, val, p)
  {
    table := [];
    for i := 0 to 4
      invariant |table| == i && forall k :: 0 <= k < i ==> |table[k]| == 16
      invariant forall k, j :: 0 <= k < i && 0 <= j < 16 ==> Looked(table[k][j], k, j, val, p)
    {
      var row := seq(16, j requires 0 <= j < 16 => P.Mul(Shl(j, 4 * i), val, p));
      forall j | 0 <= j < 16 ensures Looked(row[j], i, j, val, p) {}
      table := table + [row];
    }
  }

  lemma WordBytes(v: nat)
    requires v < Pow2(16)
    ensures Shr(v, 8) < 256 && Low(v, 8) < 256 && Xor(Shl(Shr(v, 8), 8), Low(v, 8)) == v
  {
    assert Pow2(8) == 256;
    ShrFits(v, 8, 8);
    LowFits(v, 8);
    SplitAt(v, 8);
  }

  lemma JoinedFits(hi: nat, lo: nat)
    requires hi < 256 && lo < 256
    ensures Xor(Shl(hi, 8), lo) < Pow2(16)
  {
    assert Pow2(8) == 256;
    ShlFits(hi, 8, 8);
    Pow2Mono(8, 16);
    XorFits(Shl(hi, 8), lo, 16);
  }

  /** One word: two bytes in, two bytes out, 16 apart. */
  method MultiplyPair(table: seq<seq<nat>>, hi: nat, lo: nat, dhi: nat, dlo: nat, xor: bool, ghost val: nat, ghost p: nat)
    returns (rhi: nat, rlo: nat)
    requires P.IsModulus(16, p) && NibbleTables(table, val, p) && hi < 256 && lo < 256 && dhi < 256 && dlo < 256
    ensures rhi < 256 && rlo < 256
    ensures Xor(Shl(rhi, 8), rlo) == Product(val, Xor(Shl(hi, 8), lo), Xor(Shl(dhi, 8), dlo), xor, p)
  {
    hide Xor, Shl, Shr, Low, P.Mul, Pow2, P.IsModulus;
    P.ModulusPositive(16, p);
    FourLookups(table, hi, lo, val, p);
    var prod := if xor then Xor(Shl(dhi, 8), dlo) else 0;
    var t := Xor(Xor(Xor(table[0][Low(lo, 4)], table[1][Shr(lo, 4)]), table[2][Low(hi, 4)]), table[3][Shr(hi, 4)]);
    XorZero(t);
    prod := Xor(prod, t);
    P.MulFits(val, Xor(Shl(hi, 8), lo), 16, p);
    JoinedFits(dhi, dlo);
    XorFits(Xor(Shl(dhi, 8), dlo), t, 16);
    WordBytes(prod);
    rhi, rlo := Shr(prod, 8), Low(prod, 8);
  }

  lemma IsByte(m: seq<nat>, i: nat)
    requires IsMemory(m) && i < |m|
    ensures m[i] < 256
  {
    assert Pow2(8) == 256;
  }

  /** One round of the inner loop: word `i` of the middle, whose high byte is at offset `o`. */
  method MultiplyAt(table: seq<seq<nat>>, mem: array<nat>, src: nat, dest: nat, o: nat, xor: bool,
                    ghost i: nat, ghost n: nat, ghost len: nat, ghost s0: seq<nat>, ghost d0: seq<nat>, ghost val: nat, ghost p: nat)
    requires P.IsModulus(16, p) && NibbleTables(table, val, p) && InBounds(mem[..], src, dest, len)
    requires i < n && o == HighAt(i) && o + 16 < len
    requires Progress(s0, d0, mem[src..src + len], mem[dest..dest + len], i, n, val, xor, p)
    modifies mem
    ensures InBounds(mem[..], src, dest, len) && SameOutside(old(mem[..]), mem[..], dest, dest + len)
    ensures Progress(s0, d0, mem[src..src + len], mem[dest..dest + len], i + 1, n, val, xor, p)
  {
    hide Xor, Shl, P.Mul, P.IsModulus, NibbleTables, HighAt, InBounds, Progress, WordLeft, Product, SameOutside;
    P.ModulusPositive(16, p);
    ghost var m := mem[..];
    WordHere(m, src, dest, len, s0, d0, i, n, val, xor, p);
    var hi, lo := MultiplyPair(table, mem[src + o], mem[src + o + 16], mem[dest + o], mem[dest + o + 16], xor, val, p);
    mem[dest + o] := hi;
    mem[dest + o + 16] := lo;
    assert mem[..] == m[dest + o := hi][dest + o + 16 := lo];
    WordWritten(m, src, dest, len, i, n, hi, lo, s0, d0, val, xor, p);
  }

  /** Writing one word's two bytes advances the middle by that word and changes nothing else. */
  lemma WordWritten(m: seq<nat>, src: nat, dest: nat, len: nat, i: nat, n: nat, hi: nat, lo: nat,
                    s0: seq<nat>, d0: seq<nat>, val: nat, xor: bool, p: nat)
    requires p > 0 && InBounds(m, src, dest, len) && i < n && HighAt(i) + 16 < len && hi < 256 && lo < 256
    requires Progress(s0, d0, m[src..src + len], m[dest..dest + len], i, n, val, xor, p)
    requires HighAt(i) + 16 < |s0| && HighAt(i) + 16 < |d0|
    requires Xor(Shl(hi, 8), lo) == Product(val, Extract(s0, i), Extract(d0, i), xor, p)
    ensures var m' := m[dest + HighAt(i) := hi][dest + HighAt(i) + 16 := lo];
            && InBounds(m', src, dest, len) && SameOutside(m, m', dest, dest + len)
            && Progress(s0, d0, m'[src..src + len], m'[dest..dest + len], i + 1, n, val, xor, p)
  {
    hide Xor, Shl, P.Mul, Product, Extract, HighAt, IsMemory, Progress, WordDone, WordLeft;
    var o := HighAt(i);
    var m' := m[dest + o := hi][dest + o + 16 := lo];
    TwoBytes(m, m', dest + o, dest + o + 16);
    var s, d, s', d' := m[src..src + len], m[dest..dest + len], m'[src..src + len], m'[dest..dest + len];
    forall x | 0 <= x < len && x != o && x != o + 16 ensures d'[x] == d[x] && s'[x] == s[x] {
    }
    WordNow(s0, d0, d', i, hi, lo, val, xor, p);
    ProgressStep(s0, d0, s, d, s', d', i, n, val, xor, p);
  }

  lemma TwoBytes(m: seq<nat>, m': seq<nat>, a: nat, b: nat)
    requires IsMemory(m) && |m'| == |m| && a < |m| && b < |m| && m'[a] < 256 && m'[b] < 256
    requires forall x :: 0 <= x < |m| && x != a && x != b ==> m'[x] == m[x]
    ensures IsMemory(m')
  {
    assert Pow2(8) == 256;
  }

  /** What the loop body reads are bytes, and still the original word. */
  lemma WordHere(m: seq<nat>, src: nat, dest: nat, len: nat, s0: seq<nat>, d0: seq<nat>, i: nat, n: nat, val: nat, xor: bool, p: nat)
    requires p > 0 && i < n && InBounds(m, src, dest, len) && HighAt(i) + 16 < len
    requires Progress(s0, d0, m[src..src + len], m[dest..dest + len], i, n, val, xor, p)
    ensures var o := HighAt(i);
            && src + len <= |m| && dest + len <= |m| && o + 16 < |s0| && o + 16 < |d0|
            && m[src + o] == s0[o] < 256 && m[src + o + 16] == s0[o + 16] < 256
            && m[dest + o] == d0[o] < 256 && m[dest + o + 16] == d0[o + 16] < 256
  {
    hide HighAt, IsMemory, Progress, Compatible;
    var o := HighAt(i);
    WordUntouched(s0, d0, m[src..src + len], m[dest..dest + len], i, n, val, xor, p);
    IsByte(m, src + o); IsByte(m, src + o + 16); IsByte(m, dest + o); IsByte(m, dest + o + 16);
  }

  lemma WordUntouched(s0: seq<nat>, d0: seq<nat>, s: seq<nat>, d: seq<nat>, i: nat, n: nat, val: nat, xor: bool, p: nat)
    requires p > 0 && i < n && Progress(s0, d0, s, d, i, n, val, xor, p)
    ensures WordLeft(s0, d0, s, d, i)
  {
  }

  lemma WordNow(s0: seq<nat>, d0: seq<nat>, d: seq<nat>, i: nat, hi: nat, lo: nat, val: nat, xor: bool, p: nat)
    requires p > 0 && HighAt(i) + 16 < |s0| && HighAt(i) + 16 < |d0| && HighAt(i) + 16 < |d|
    requires d[HighAt(i)] == hi && d[HighAt(i) + 16] == lo
    requires Xor(Shl(hi, 8), lo) == Product(val, Extract(s0, i), Extract(d0, i), xor, p)
    ensures WordDone(s0, d0, d, i, val, xor, p)
  {
  }

  /** The aligned middle: `blocks` blocks of 32 bytes, in place or to a disjoint range. */
  method MultiplyInterleaved(mem: array<nat>, src: nat, dest: nat, blocks: nat, val: nat, xor: bool, p: nat)
    requires P.IsModulus(16, p) && InBounds(mem[..], src, dest, 32 * blocks)
    modifies mem
    ensures IsMemory(mem[..]) && SameOutside(old(mem[..]), mem[..], dest, dest + 32 * blocks)
    ensures p > 0 && MiddleDone(old(mem[..]), mem[..], src, dest, 32 * blocks, val, xor, p)
  {
    hide Xor, Shl, P.Mul, P.IsModulus, NibbleTables, IsMemory, HighAt, Progress, MiddleDone, Compatible, SameOutside;
    P.ModulusPositive(16, p);
    ghost var m := mem[..];
    ghost var len, n := 32 * blocks, 16 * blocks;
    ghost var s0, d0 := mem[src..src + len], mem[dest..dest + len];
    var table := MakeTables(val, p);
    ProgressStart(s0, d0, blocks, val, xor, p);
    OutsideSame(m, dest, dest + len);
    var o: nat := 0;
    ghost var b: nat := 0;
    while o < 32 * blocks
      invariant o == 32 * b && b <= blocks && InBounds(mem[..], src, dest, len) && SameOutside(m, mem[..], dest, dest + len)
      invariant Progress(s0, d0, mem[src..src + len], mem[dest..dest + len], 16 * b, n, val, xor, p)
    {
      ghost var m1 := mem[..];
      MultiplyBlock(table, mem, src, dest, o, xor, b, blocks, s0, d0, val, p);
      OutsideTrans(m, m1, mem[..], dest, dest + len);
      o := o + 32;
      b := b + 1;
    }
    assert s0 == m[src..src + len] && d0 == m[dest..dest + len] && mem[..][src..src + len] == mem[src..src + len];
    assert mem[..][dest..dest + len] == mem[dest..dest + len];
    AllFinished(m, mem[..], src, dest, blocks, val, xor, p);
  }

  /** One block of 16 words. */
  method MultiplyBlock(table: seq<seq<nat>>, mem: array<nat>, src: nat, dest: nat, o: nat, xor: bool,
                       ghost b: nat, ghost blocks: nat, ghost s0: seq<nat>, ghost d0: seq<nat>, ghost val: nat, ghost p: nat)
    requires P.IsModulus(16, p) && NibbleTables(table, val, p) && b < blocks && o == 32 * b
    requires InBounds(mem[..], src, dest, 32 * blocks)
    requires Progress(s0, d0, mem[src..src + 32 * blocks], mem[dest..dest + 32 * blocks], 16 * b, 16 * blocks, val, xor, p)
    modifies mem
    ensures InBounds(mem[..], src, dest, 32 * blocks) && SameOutside(old(mem[..]), mem[..], dest, dest + 32 * blocks)
    ensures Progress(s0, d0, mem[src..src + 32 * blocks], mem[dest..dest + 32 * blocks], 16 * b + 16, 16 * blocks, val, xor, p)
  {
    hide Xor, Shl, P.Mul, P.IsModulus, NibbleTables, IsMemory, HighAt, Progress, Compatible, SameOutside;
    ghost var m, len, n := mem[..], 32 * blocks, 16 * blocks;
    P.ModulusPositive(16, p);
    OutsideSame(m, dest, dest + len);
    for j := 0 to 16
      invariant InBounds(mem[..], src, dest, len) && SameOutside(m, mem[..], dest, dest + len)
      invariant Progress(s0, d0, mem[src..src + len], mem[dest..dest + len], 16 * b + j, n, val, xor, p)
    {
      PlaceOf(b, j);
      ghost var m1 := mem[..];
      MultiplyAt(table, mem, src, dest, o + j, xor, 16 * b + j, n, len, s0, d0, val, p);
      OutsideTrans(m, m1, mem[..], dest, dest + len);
    }
  }

  lemma OutsideSame(m: seq<nat>, lo: nat, hi: nat)
    ensures SameOutside(m, m, lo, hi)
  {
  }

  lemma OutsideTrans(m0: seq<nat>, m1: seq<nat>, m2: seq<nat>, lo: nat, hi: nat)
    requires SameOutside(m0, m1, lo, hi) && SameOutside(m1, m2, lo, hi)
    ensures SameOutside(m0, m2, lo, hi)
  {
  }

  /** Word `j` of the middle after the multiplication is the product of the two words before it. */
  ghost predicate MiddleDone(m: seq<nat>, m': seq<nat>, src: nat, dest: nat, len: nat, val: nat, xor: bool, p: nat)
    requires p > 0
  {
    && |m| == |m'| && src + len <= |m| && dest + len <= |m|
    && forall j: nat :: 2 * j < len ==> WordDone(m[src..src + len], m[dest..dest + len], m'[dest..dest + len], j, val, xor, p)
  }

  lemma AllFinished(m: seq<nat>, m': seq<nat>, src: nat, dest: nat, blocks: nat, val: nat, xor: bool, p: nat)
    requires p > 0 && |m| == |m'| && src + 32 * blocks <= |m| && dest + 32 * blocks <= |m|
    requires var len, n := 32 * blocks, 16 * blocks;
             Progress(m[src..src + len], m[dest..dest + len], m'[src..src + len], m'[dest..dest + len], n, n, val, xor, p)
    ensures MiddleDone(m, m', src, dest, 32 * blocks, val, xor, p)
  {
    hide WordDone;
  }

  ghost predicate WordDone(s0: seq<nat>, d0: seq<nat>, d: seq<nat>, i: nat, val: nat, xor: bool, p: nat)
    requires p > 0
  {
    && HighAt(i) + 16 < |s0| && HighAt(i) + 16 < |d0| && HighAt(i) + 16 < |d|
    && Extract(d, i) == Product(val, Extract(s0, i), Extract(d0, i), xor, p)
  }

  ghost predicate WordLeft(s0: seq<nat>, d0: seq<nat>, s: seq<nat>, d: seq<nat>, i: nat) {
    && HighAt(i) + 16 < |s0| == |s| && HighAt(i) + 16 < |d0| == |d|
    && s[HighAt(i)] == s0[HighAt(i)] && s[HighAt(i) + 16] == s0[HighAt(i) + 16]
    && d[HighAt(i)] == d0[HighAt(i)] && d[HighAt(i) + 16] == d0[HighAt(i) + 16]
  }

  ghost predicate Progress(s0: seq<nat>, d0: seq<nat>, s: seq<nat>, d: seq<nat>, done: nat, n: nat, val: nat, xor: bool, p: nat)
    requires p > 0
  {
    && (forall i :: 0 <= i < done ==> WordDone(s0, d0, d, i, val, xor, p))
    && (forall i :: done <= i < n ==> WordLeft(s0, d0, s, d, i))
  }

  lemma ProgressStart(s: seq<nat>, d: seq<nat>, blocks: nat, val: nat, xor: bool, p: nat)
    requires p > 0 && |s| == |d| == 32 * blocks
    ensures Progress(s, d, s, d, 0, 16 * blocks, val, xor, p)
  {
    forall i | 0 <= i < 16 * blocks ensures WordLeft(s, d, s, d, i) {
      PlaceInside(i, blocks);
    }
  }

  lemma ProgressStep(s0: seq<nat>, d0: seq<nat>, s: seq<nat>, d: seq<nat>, s': seq<nat>, d': seq<nat>, i: nat, n: nat, val: nat, xor: bool, p: nat)
    requires p > 0 && i < n && Progress(s0, d0, s, d, i, n, val, xor, p)
    requires |s| == |d| == |s'| == |d'|
    requires forall x :: 0 <= x < |d| && x != HighAt(i) && x != HighAt(i) + 16 ==> d'[x] == d[x] && s'[x] == s[x]
    requires WordDone(s0, d0, d', i, val, xor, p)
    ensures Progress(s0, d0, s', d', i + 1, n, val, xor, p)
  {
    hide HighAt, Product, Xor, Shl;
    forall j | 0 <= j < i + 1 ensures WordDone(s0, d0, d', j, val, xor, p) {
      if j < i {
        PlacesDisjoint(i, j); PlacesDisjoint(j, i);
        assert WordDone(s0, d0, d, j, val, xor, p);
      }
    }
    forall j | i + 1 <= j < n ensures WordLeft(s0, d0, s', d', j) {
      PlacesDisjoint(i, j); PlacesDisjoint(j, i);
      assert WordLeft(s0, d0, s, d, j);
    }
  }

  // ----- whole regions

  /** Where the low and the high byte of word `i` are, relative to the region's start. */
  function Places(g: nat, t: nat, i: nat): (nat, nat) {
    if 2 * i < g || t <= 2 * i then (2 * i, 2 * i + 1)
    else var j: nat := i - g / 2; (g + HighAt(j) + 16, g + HighAt(j))
  }

  lemma PlacesInside(g: nat, t: nat, bytes: nat, i: nat)
    requires g % 2 == 0 && g <= t && (t - g) % 32 == 0 && 2 * i + 2 <= bytes && (g <= bytes ==> t <= bytes) && (bytes < g ==> t == g)
    ensures Places(g, t, i).0 < bytes && Places(g, t, i).1 < bytes
    ensures g <= 2 * i < t ==> HighAt(i - g / 2) + 16 < t - g
  {
    if g <= 2 * i < t {
      PlaceInside(i - g / 2, (t - g) / 32);
    }
  }

  /** A region that `extract_word` accepts. */
  predicate Extractable(start: nat, bytes: nat) {
    start % 2 == 0 && bytes % 2 == 0
  }

  /** Both regions have the same gap and the same middle. */
  lemma Geometry(src: nat, dest: nat, bytes: nat)
    requires SetRegionData(16, src, dest, bytes, 32).Ready?
    ensures var rd, g := SetRegionData(16, src, dest, bytes, 32).rd, Gap(src, 16);
            var t := Top(bytes, g, 32);
            && rd == RegionData(src + g, dest + g, src + t, dest + t) && Gap(dest, 16) == g
            && g <= t && (g <= bytes ==> t <= bytes) && (bytes < g ==> t == g)
  {
    hide Gap, SetRegionData;
    TopIs(16, src, dest, bytes, 32, 16);
  }

  /** Prefix of whole words, middle of whole blocks. */
  lemma Blocks(src: nat, dest: nat, bytes: nat)
    requires SetRegionData(16, src, dest, bytes, 32).Ready?
    ensures var g := Gap(src, 16);
            var t := Top(bytes, g, 32);
            && Extractable(src, bytes) && Extractable(dest, bytes) && g % 2 == 0 && (t - g) % 32 == 0 && t == g + 32 * BlocksIn(t - g)
  {
    hide Gap, SetRegionData, Top;
    TopIs(16, src, dest, bytes, 32, 16);
    ReadyMeans(Layout(C.Base(16, 0), 1, 2), src, dest, bytes, 32);
    var g := Gap(src, 16);
    DividesTrans(src + g, 16, 2); DividesDiff(src + g, src, 2);
    DividesTrans(dest + g, 16, 2); DividesDiff(dest + g, g, 2);
    WholeBlocks(Top(bytes, g, 32) - g);
  }

  lemma WholeBlocks(x: nat)
    requires x % 32 == 0
    ensures x == 32 * (x / 32)
  {
  }

  /** `gf_w16_split_extract_word`: word `i` of the region of `bytes` bytes at `start`. */
  function ExtractWord(m: seq<nat>, start: nat, bytes: nat, i: nat): nat
    requires Extractable(start, bytes) && 2 * i + 2 <= bytes && start + bytes <= |m|
  {
    var rd := SetRegionData(16, start, start, bytes, 32).rd;
    if start + 2 * i < rd.dStart then Word(m, start + 2 * i, 2)
    else if start + 2 * i >= rd.dTop then Word(m, start + 2 * i, 2)
    else
      Geometry(start, start, bytes); Blocks(start, start, bytes);
      PlacesInside(Gap(start, 16), Top(bytes, Gap(start, 16), 32), bytes, i);
      Extract(m[rd.dStart..rd.dTop], i - (rd.dStart - start) / 2)
  }

  lemma TwoByteWord(m: seq<nat>, at: nat)
    requires at + 2 <= |m|
    ensures Word(m, at, 2) == Xor(Shl(m[at + 1], 8), m[at])
  {
    assert m[at..at + 2] == [m[at], m[at + 1]];
    ShlZero(8); XorZero(m[at + 1]);
    assert Value(8, [m[at + 1]]) == m[at + 1];
    assert [m[at], m[at + 1]][1..] == [m[at + 1]];
  }

  /** Every word is a high and a low byte at its two places. */
  lemma WordFromPlaces(m: seq<nat>, start: nat, bytes: nat, i: nat)
    requires Extractable(start, bytes) && 2 * i + 2 <= bytes && start + bytes <= |m|
    ensures var g := Gap(start, 16);
            var t := Top(bytes, g, 32);
            && Places(g, t, i).0 < bytes && Places(g, t, i).1 < bytes
            && ExtractWord(m, start, bytes, i) == Xor(Shl(m[start + Places(g, t, i).1], 8), m[start + Places(g, t, i).0])
  {
    hide Xor, Shl, Gap, SetRegionData, HighAt;
    ReadyAlone(start, bytes);
    Geometry(start, start, bytes); Blocks(start, start, bytes);
    PlacesInside(Gap(start, 16), Top(bytes, Gap(start, 16), 32), bytes, i);
    TwoByteWord(m, start + 2 * i);
  }

  /** Word `r` of block `b` of the middle: its high byte is byte `r` of the block, its low one 16 later. */
  lemma LayoutMiddle(m: seq<nat>, start: nat, bytes: nat, b: nat, r: nat)
    requires Extractable(start, bytes) && start + bytes <= |m| && IsMemory(m)
    requires r < 16 && Gap(start, 16) + 32 * b + 32 <= bytes
    ensures var g := Gap(start, 16);
            var i := g / 2 + 16 * b + r;
            2 * i + 2 <= bytes && ExtractWord(m, start, bytes, i) == 256 * m[start + g + 32 * b + r] + m[start + g + 32 * b + r + 16]
  {
    hide Xor, Shl, Gap, ExtractWord, Top, SetRegionData, HighAt;
    var g := Gap(start, 16);
    var i := g / 2 + 16 * b + r;
    ReadyAlone(start, bytes);
    Blocks(start, start, bytes);
    BlockInside(g, bytes, b, r);
    WordFromPlaces(m, start, bytes, i);
    PlaceOf(b, r);
    BytePair(m[start + g + 32 * b + r], m[start + g + 32 * b + r + 16]);
  }

  /** Every other word: low byte first. */
  lemma LayoutEdge(m: seq<nat>, start: nat, bytes: nat, blocks: nat, i: nat)
    requires Extractable(start, bytes) && start + bytes <= |m| && IsMemory(m) && 2 * i + 2 <= bytes
    requires 2 * i < Gap(start, 16) || Gap(start, 16) + 32 * blocks <= 2 * i <= bytes < Gap(start, 16) + 32 * blocks + 32
    ensures ExtractWord(m, start, bytes, i) == 256 * m[start + 2 * i + 1] + m[start + 2 * i]
  {
    hide Xor, Shl, Gap, ExtractWord, SetRegionData, HighAt;
    WordFromPlaces(m, start, bytes, i);
    BytePair(m[start + 2 * i + 1], m[start + 2 * i]);
  }

  lemma BlockInside(g: nat, bytes: nat, b: nat, r: nat)
    requires g + 32 * b + 32 <= bytes && r < 16
    ensures g + 32 * b + 32 <= Top(bytes, g, 32)
  {
  }

  lemma BytePair(h: nat, l: nat)
    requires l < Pow2(8)
    ensures Xor(Shl(h, 8), l) == 256 * h + l
  {
    hide Xor;
    XorDisjoint(h, l, 8);
    ShlEight(h);
  }

  lemma ShlEight(h: nat)
    ensures Shl(h, 8) == 256 * h
  {
    assert Shl(h, 1) == 2 * h;
    assert Shl(h, 3) == 8 * h;
    assert Shl(h, 5) == 32 * h;
    assert Shl(h, 7) == 128 * h;
  }

  lemma ReadyAlone(start: nat, bytes: nat)
    requires Extractable(start, bytes)
    ensures SetRegionData(16, start, start, bytes, 32).Ready?
  {
  }

  /** The promise: extraction commutes with the multiplication, at every index. */
  ghost predicate Commutes(m: seq<nat>, m': seq<nat>, src: nat, dest: nat, bytes: nat, val: nat, xor: bool, p: nat) {
    && p > 0 && Extractable(src, bytes) && Extractable(dest, bytes) && |m'| == |m| && src + bytes <= |m| && dest + bytes <= |m|
    && forall i: nat :: 2 * i + 2 <= bytes ==>
         ExtractWord(m', dest, bytes, i) == Product(val, ExtractWord(m, src, bytes, i), ExtractWord(m, dest, bytes, i), xor, p)
  }

  /** Multiplier 0. */
  lemma ZeroCommutes(m: seq<nat>, src: nat, dest: nat, bytes: nat, xor: bool, p: nat)
    requires p > 0 && Extractable(src, bytes) && Extractable(dest, bytes) && src + bytes <= |m| && dest + bytes <= |m|
    ensures Commutes(m, if xor then m else Patch(m, dest, Zeros(bytes)), src, dest, bytes, 0, xor, p)
  {
    hide Xor, Shl, Gap, SetRegionData, HighAt, ExtractWord, Places, P.Mul;
    var m' := if xor then m else Patch(m, dest, Zeros(bytes));
    forall i: nat | 2 * i + 2 <= bytes
      ensures ExtractWord(m', dest, bytes, i) == Product(0, ExtractWord(m, src, bytes, i), ExtractWord(m, dest, bytes, i), xor, p)
    {
      ProductZero(ExtractWord(m, src, bytes, i), ExtractWord(m, dest, bytes, i), xor, p);
      WordFromPlaces(m', dest, bytes, i);
      ShlZero(8); XorZero(0);
    }
  }

  /** Both regions are laid out alike: the same gap, or no middle in either. */
  predicate SameMap(src: nat, dest: nat, bytes: nat) {
    var g, g' := Gap(src, 16), Gap(dest, 16);
    g == g' || (Top(bytes, g, 32) == g && Top(bytes, g', 32) == g')
  }

  function PlacesIn(start: nat, bytes: nat, i: nat): (nat, nat) {
    Places(Gap(start, 16), Top(bytes, Gap(start, 16), 32), i)
  }

  lemma SamePlaces(src: nat, dest: nat, bytes: nat, i: nat)
    requires SameMap(src, dest, bytes)
    ensures PlacesIn(src, bytes, i) == PlacesIn(dest, bytes, i)
  {
  }

  /** Gaps that differ put the first word of a middle elsewhere. */
  lemma DifferAt(g: nat, t: nat, g': nat, t': nat)
    requires g % 2 == 0 && g' % 2 == 0 && g < 16 && g' < 16 && g != g' && g < t
    ensures Places(g, t, g / 2).0 != Places(g', t', g / 2).0
  {
    if g' <= g {
      assert HighAt(g / 2 - g' / 2) == g / 2 - g' / 2;
    }
  }

  lemma OtherPlaces(src: nat, dest: nat, bytes: nat) returns (i: nat)
    requires Extractable(src, bytes) && Extractable(dest, bytes) && !SameMap(src, dest, bytes)
    ensures 2 * i + 2 <= bytes && PlacesIn(src, bytes, i).0 != PlacesIn(dest, bytes, i).0
  {
    hide Gap, Places, SetRegionData;
    ReadyAlone(src, bytes); Geometry(src, src, bytes); Blocks(src, src, bytes);
    ReadyAlone(dest, bytes); Geometry(dest, dest, bytes); Blocks(dest, dest, bytes);
    var g, g' := Gap(src, 16), Gap(dest, 16);
    var t, t' := Top(bytes, g, 32), Top(bytes, g', 32);
    if g < t {
      i := g / 2;
      DifferAt(g, t, g', t');
    } else {
      i := g' / 2;
      DifferAt(g', t', g, t);
    }
  }

  /** What multiplier 1 leaves in memory. */
  function OneResult(m: seq<nat>, src: nat, dest: nat, len: nat, xor: bool): (r: seq<nat>)
    requires src + len <= |m| && dest + len <= |m|
    ensures |r| == |m|
  {
    if xor then Xored(m, src, dest, len) else Patch(m, dest, m[src..src + len])
  }

  /** Multiplier 1 between regions that are laid out alike. */
  lemma OneCommutes(m: seq<nat>, src: nat, dest: nat, bytes: nat, len: nat, xor: bool, p: nat)
    requires P.IsModulus(16, p) && Extractable(src, bytes) && Extractable(dest, bytes) && SameMap(src, dest, bytes)
    requires InBounds(m, src, dest, len) && bytes <= len
    ensures p > 0 && Commutes(m, OneResult(m, src, dest, len, xor), src, dest, bytes, 1, xor, p)
  {
    hide Xor, Shl, Gap, SetRegionData, HighAt, ExtractWord, PlacesIn, P.Mul, P.IsModulus, Xored, IsMemory, Compatible, SameMap;
    P.ModulusPositive(16, p);
    var m' := OneResult(m, src, dest, len, xor);
    forall i: nat | 2 * i + 2 <= bytes
      ensures ExtractWord(m', dest, bytes, i) == Product(1, ExtractWord(m, src, bytes, i), ExtractWord(m, dest, bytes, i), xor, p)
    {
      SamePlaces(src, dest, bytes, i);
      OneWord(m, m', src, dest, bytes, len, xor, p, i);
    }
  }

  ghost predicate OneAlways(src: nat, dest: nat, bytes: nat, len: nat, xor: bool, p: nat) {
    forall m: seq<nat> :: InBounds(m, src, dest, len) ==> OneRight(m, src, dest, bytes, len, xor, p)
  }

  ghost predicate OneRight(m: seq<nat>, src: nat, dest: nat, bytes: nat, len: nat, xor: bool, p: nat)
    requires InBounds(m, src, dest, len)
  {
    Commutes(m, OneResult(m, src, dest, len, xor), src, dest, bytes, 1, xor, p)
  }

  /**
   Multiplier 1 skips the alignment test. Between distinct regions extraction then commutes,
   whatever memory holds, exactly when the two are laid out alike.
   */
  lemma OneExact(src: nat, dest: nat, bytes: nat, len: nat, xor: bool, p: nat)
    requires P.IsModulus(16, p) && Extractable(src, bytes) && Extractable(dest, bytes) && bytes <= len
    requires src + len <= dest || dest + len <= src
    ensures OneAlways(src, dest, bytes, len, xor, p) <==> SameMap(src, dest, bytes)
  {
    hide Gap, Commutes, P.IsModulus, Extractable, SameMap, OneResult, IsMemory, Xor;
    if SameMap(src, dest, bytes) {
      forall m: seq<nat> | InBounds(m, src, dest, len) ensures OneRight(m, src, dest, bytes, len, xor, p) {
        OneCommutes(m, src, dest, bytes, len, xor, p);
      }
    } else {
      var m := OneWrong(src, dest, bytes, len, xor, p);
    }
  }

  /** One nonzero byte, where the source keeps the low half of a word and the destination does not. */
  lemma OneWrong(src: nat, dest: nat, bytes: nat, len: nat, xor: bool, p: nat) returns (m: seq<nat>)
    requires P.IsModulus(16, p) && Extractable(src, bytes) && Extractable(dest, bytes) && !SameMap(src, dest, bytes) && bytes <= len
    requires src + len <= dest || dest + len <= src
    ensures InBounds(m, src, dest, len) && !OneRight(m, src, dest, bytes, len, xor, p)
  {
    hide *;
    P.ModulusPositive(16, p);
    var i := OtherPlaces(src, dest, bytes);
    var lo, hi := PlacesIn(src, bytes, i).0, PlacesIn(src, bytes, i).1;
    var lo', hi' := PlacesIn(dest, bytes, i).0, PlacesIn(dest, bytes, i).1;
    var n := src + dest + len;
    m := Spike(n, src + lo);
    SpikeBounds(src, dest, len, src + lo);
    var m' := OneResult(m, src, dest, len, xor);
    PlacesOf(src, bytes, i); PlacesOf(dest, bytes, i);
    WordFromPlaces(m, src, bytes, i); WordFromPlaces(m, dest, bytes, i); WordFromPlaces(m', dest, bytes, i);
    PlacesApart(src, bytes, i);
    SpikeAt(n, src + lo, src + lo); SpikeAt(n, src + lo, src + hi); SpikeAt(n, src + lo, src + lo'); SpikeAt(n, src + lo, src + hi');
    SpikeAt(n, src + lo, dest + lo'); SpikeAt(n, src + lo, dest + hi');
    ArrivedByte(m, src, dest, len, lo', xor); ArrivedByte(m, src, dest, len, hi', xor);
    SmallWords();
    ProductOne(1, 0, xor, 16, p);
    XorZero(1);
    if OneRight(m, src, dest, bytes, len, xor, p) {
      RightAt(m, src, dest, bytes, len, xor, p, i);
    }
  }

  lemma RightAt(m: seq<nat>, src: nat, dest: nat, bytes: nat, len: nat, xor: bool, p: nat, i: nat)
    requires InBounds(m, src, dest, len) && OneRight(m, src, dest, bytes, len, xor, p) && 2 * i + 2 <= bytes && p > 0 && bytes <= len
    requires Extractable(src, bytes) && Extractable(dest, bytes)
    ensures ExtractWord(OneResult(m, src, dest, len, xor), dest, bytes, i)
            == Product(1, ExtractWord(m, src, bytes, i), ExtractWord(m, dest, bytes, i), xor, p)
  {
    hide ExtractWord, Product, OneResult;
  }

  /** All zero but for one byte. */
  function Spike(n: nat, at: nat): (m: seq<nat>)
    ensures |m| == n
  {
    seq(n, j => if j == at then 1 else 0)
  }

  lemma SpikeAt(n: nat, at: nat, j: nat)
    requires j < n
    ensures Spike(n, at)[j] == if j == at then 1 else 0
  {
  }

  lemma SpikeBounds(src: nat, dest: nat, len: nat, at: nat)
    requires src + len <= dest || dest + len <= src
    ensures InBounds(Spike(src + dest + len, at), src, dest, len)
  {
    assert Pow2(8) == 256;
  }

  lemma PlacesApart(start: nat, bytes: nat, i: nat)
    ensures PlacesIn(start, bytes, i).0 != PlacesIn(start, bytes, i).1
  {
  }

  lemma SmallWords()
    ensures Xor(Shl(0, 8), 1) == 1 && Xor(Shl(0, 8), 0) == 0 && Xor(Shl(1, 8), 0) != 1 && 1 < Pow2(16)
  {
    ShlZero(8);
    XorZero(1); XorZero(0); XorZero(Shl(1, 8));
    assert Shl(1, 8) == 2 * Shl(1, 7);
    Pow2Mono(1, 16);
  }

  lemma ArrivedByte(m: seq<nat>, src: nat, dest: nat, len: nat, j: nat, xor: bool)
    requires src + len <= |m| && dest + len <= |m| && j < len && m[dest + j] == 0
    ensures OneResult(m, src, dest, len, xor)[dest + j] == m[src + j]
  {
    hide Xored, Xor;
    if xor { XoredAt(m, src, dest, len, dest + j); XorZero(m[src + j]); } else { CopiedByte(m, src, dest, len, j); }
  }

  lemma OneWord(m: seq<nat>, m': seq<nat>, src: nat, dest: nat, bytes: nat, len: nat, xor: bool, p: nat, i: nat)
    requires P.IsModulus(16, p) && Extractable(src, bytes) && Extractable(dest, bytes) && PlacesIn(src, bytes, i) == PlacesIn(dest, bytes, i)
    requires InBounds(m, src, dest, len) && bytes <= len && 2 * i + 2 <= bytes
    requires m' == OneResult(m, src, dest, len, xor)
    ensures p > 0 && ExtractWord(m', dest, bytes, i) == Product(1, ExtractWord(m, src, bytes, i), ExtractWord(m, dest, bytes, i), xor, p)
  {
    hide *;
    P.ModulusPositive(16, p);
    BoundsFacts(m, src, dest, len);
    WordFromPlaces(m', dest, bytes, i); WordFromPlaces(m, dest, bytes, i); WordFromPlaces(m, src, bytes, i);
    PlacesOf(src, bytes, i); PlacesOf(dest, bytes, i);
    ResultIs(m, src, dest, len, xor);
    var pl := PlacesIn(src, bytes, i);
    var lo, hi := pl.0, pl.1;
    IsByte(m, src + lo); IsByte(m, src + hi);
    JoinedFits(m[src + hi], m[src + lo]);
    ProductOne(ExtractWord(m, src, bytes, i), ExtractWord(m, dest, bytes, i), xor, 16, p);
    if xor {
      XoredAt(m, src, dest, len, dest + lo); XoredAt(m, src, dest, len, dest + hi);
      XorJoined(m[dest + hi], m[dest + lo], m[src + hi], m[src + lo]);
    } else {
      CopiedByte(m, src, dest, len, lo); CopiedByte(m, src, dest, len, hi);
    }
  }

  lemma PlacesOf(start: nat, bytes: nat, i: nat)
    ensures PlacesIn(start, bytes, i) == Places(Gap(start, 16), Top(bytes, Gap(start, 16), 32), i)
  {
  }

  lemma ResultIs(m: seq<nat>, src: nat, dest: nat, len: nat, xor: bool)
    requires src + len <= |m| && dest + len <= |m|
    ensures OneResult(m, src, dest, len, xor) == if xor then Xored(m, src, dest, len) else Patch(m, dest, m[src..src + len])
  {
  }

  lemma XorJoined(dh: nat, dl: nat, sh: nat, sl: nat)
    ensures Xor(Shl(Xor(dh, sh), 8), Xor(dl, sl)) == Xor(Xor(Shl(dh, 8), dl), Xor(Shl(sh, 8), sl))
  {
    hide Xor, Shl;
    ShlXor(dh, sh, 8);
    XorSwap(Shl(dh, 8), dl, Shl(sh, 8), sl);
  }

  lemma CopiedByte(m: seq<nat>, src: nat, dest: nat, len: nat, j: nat)
    requires src + len <= |m| && dest + len <= |m| && j < len
    ensures Patch(m, dest, m[src..src + len])[dest + j] == m[src + j]
  {
  }

  /** The three parts, one after the other. */
  method MultiplyPhases(mem: array<nat>, src: nat, dest: nat, bytes: nat, g: nat, blocks: nat, val: nat, xor: bool, p: nat,
                        ghost k0: nat, ghost k2: nat) returns (ghost m1: seq<nat>, ghost m2: seq<nat>)
    requires P.IsModulus(16, p) && val < Pow2(16)
    requires InBounds(mem[..], src, dest, Later(bytes, g + 32 * blocks))
    requires Units(Layout(C.Base(16, p), 1, 2), g, k0)
    requires Units(Layout(C.Base(16, p), 1, 2), Later(bytes, g + 32 * blocks) - (g + 32 * blocks), k2)
    modifies mem
    ensures IsMemory(mem[..])
    ensures Phases(Layout(C.Base(16, p), 1, 2), old(mem[..]), m1, m2, mem[..], src, dest, bytes, g, g + 32 * blocks, k0, k2, val, xor)
    ensures var t := g + 32 * blocks;
            && |m1| == |m2| == mem.Length && src + t <= mem.Length && dest + t <= mem.Length
            && p > 0 && MiddleDone(m1, m2, src + g, dest + g, 32 * blocks, val, xor, p)
  {
    hide C.In, SlowPart, Phases, IsMemory, Compatible, P.IsModulus, IsLayout, Units, Extract, SameOutside, HighAt, MiddleDone, InBounds, Product, C.Mul,
         Later, Pow2;
    P.ModulusPositive(16, p);
    var f := Layout(C.Base(16, p), 1, 2);
    PlainLayout(p, val);
    var t := g + 32 * blocks;
    LaterShift(src, g, t, bytes);
    ghost var len: nat, rest: nat := Later(bytes, t), Later(bytes, t) - t;
    ghost var m0 := mem[..];
    BoundsFacts(m0, src, dest, len);
    StillInBounds(m0, m0, src, dest, len, 0, g);
    MultiplySlowly(f, mem, src, dest, src + g, val, xor, g, k0);
    m1 := mem[..];
    SameSize(m0, m1, dest, dest + g);
    StillInBounds(m0, m1, src, dest, len, g, 32 * blocks);
    MultiplyInterleaved(mem, src + g, dest + g, blocks, val, xor, p);
    m2 := mem[..];
    SameSize(m1, m2, dest + g, dest + t);
    StillInBounds(m0, m2, src, dest, len, t, rest);
    MultiplySlowly(f, mem, src + t, dest + t, src + bytes, val, xor, rest, k2);
    AllPhases(f, m0, m1, m2, mem[..], src, dest, bytes, g, t, k0, k2, val, xor);
  }

  /** Multipliers other than 0 and 1. */
  method MultiplyLong(mem: array<nat>, src: nat, dest: nat, bytes: nat, val: nat, xor: bool, p: nat)
    requires P.IsModulus(16, p) && val < Pow2(16) && SetRegionData(16, src, dest, bytes, 32).Ready?
    requires InBounds(mem[..], src, dest, Later(bytes, Gap(src, 16)))
    modifies mem
    ensures IsMemory(mem[..]) && SameOutside(old(mem[..]), mem[..], dest, dest + Later(bytes, Gap(src, 16)))
    ensures p > 0 && Commutes(old(mem[..]), mem[..], src, dest, bytes, val, xor, p)
  {
    hide Gap, SetRegionData, Phases, Commutes, IsMemory, P.IsModulus, Units, SameOutside, Top, MiddleDone, InBounds, Product, BlocksIn, Later, Pow2;
    P.ModulusPositive(16, p);
    Geometry(src, dest, bytes);
    var rd := SetRegionData(16, src, dest, bytes, 32).rd;
    var g: nat, blocks: nat := rd.sStart - src, BlocksIn(rd.sTop - rd.sStart);
    ghost var k0, k2 := Counts(src, dest, bytes, p);
    ghost var t := g + 32 * blocks;
    ghost var m0 := mem[..];
    ghost var m1, m2 := MultiplyPhases(mem, src, dest, bytes, g, blocks, val, xor, p, k0, k2);
    MiddleSame(Layout(C.Base(16, p), 1, 2), m0, m1, m2, mem[..], src, dest, bytes, g, t, k0, k2, val, xor);
    RegionCommutes(m0, m1, m2, mem[..], src, dest, bytes, g, t, k0, k2, val, xor, p);
  }

  function BlocksIn(len: nat): nat {
    len / 32
  }

  lemma Counts(src: nat, dest: nat, bytes: nat, p: nat) returns (k0: nat, k2: nat)
    requires SetRegionData(16, src, dest, bytes, 32).Ready?
    ensures var g := Gap(src, 16);
            var t := Top(bytes, g, 32);
            && t == g + 32 * BlocksIn(t - g) && Later(bytes, t) == Later(bytes, g)
            && Units(Layout(C.Base(16, p), 1, 2), g, k0) && Units(Layout(C.Base(16, p), 1, 2), Later(bytes, t) - t, k2)
  {
    hide Gap, SetRegionData, Top, Units;
    Geometry(src, dest, bytes); Blocks(src, dest, bytes);
    var f := Layout(C.Base(16, p), 1, 2);
    k0, k2 := WordCounts(f, src, bytes, Gap(src, 16), Top(bytes, Gap(src, 16), 32));
  }

  lemma PlainLayout(p: nat, val: nat)
    requires P.IsModulus(16, p) && val < Pow2(16)
    ensures IsLayout(Layout(C.Base(16, p), 1, 2)) && C.In(C.Base(16, p), val)
  {
  }

  lemma RegionCommutes(m0: seq<nat>, m1: seq<nat>, m2: seq<nat>, m3: seq<nat>,
                       src: nat, dest: nat, bytes: nat, g: nat, t: nat, k0: nat, k2: nat, val: nat, xor: bool, p: nat)
    requires p > 0 && SetRegionData(16, src, dest, bytes, 32).Ready? && g == Gap(src, 16) && t == Top(bytes, g, 32)
    requires Phases(Layout(C.Base(16, p), 1, 2), m0, m1, m2, m3, src, dest, bytes, g, t, k0, k2, val, xor)
    requires |m0| == |m1| == |m2| == |m3| && src + t <= |m0| && dest + t <= |m0| && MiddleDone(m1, m2, src + g, dest + g, t - g, val, xor, p)
    ensures Commutes(m0, m3, src, dest, bytes, val, xor, p)
  {
    hide SetRegionData, Gap, Phases, MiddleDone, Product, ExtractWord, HighAt, Top, Extractable;
    Geometry(src, dest, bytes); Blocks(src, dest, bytes);
    PhaseBounds(m0, m1, m2, m3, src, dest, bytes, g, t, k0, k2, val, xor, p);
    forall i: nat | 2 * i + 2 <= bytes
      ensures ExtractWord(m3, dest, bytes, i) == Product(val, ExtractWord(m0, src, bytes, i), ExtractWord(m0, dest, bytes, i), xor, p)
    {
      if g <= 2 * i < t {
        MiddleWord(m0, m1, m2, m3, src, dest, bytes, g, t, k0, k2, val, xor, p, i);
      } else {
        OuterWord(m0, m1, m2, m3, src, dest, bytes, g, t, k0, k2, val, xor, p, i);
      }
    }
  }

  lemma PhaseBounds(m0: seq<nat>, m1: seq<nat>, m2: seq<nat>, m3: seq<nat>,
                    src: nat, dest: nat, bytes: nat, g: nat, t: nat, k0: nat, k2: nat, val: nat, xor: bool, p: nat)
    requires Phases(Layout(C.Base(16, p), 1, 2), m0, m1, m2, m3, src, dest, bytes, g, t, k0, k2, val, xor)
    ensures |m3| == |m0| && src + bytes <= |m0| && dest + bytes <= |m0|
  {
  }

  lemma MiddleWord(m0: seq<nat>, m1: seq<nat>, m2: seq<nat>, m3: seq<nat>,
                   src: nat, dest: nat, bytes: nat, g: nat, t: nat, k0: nat, k2: nat, val: nat, xor: bool, p: nat, i: nat)
    requires p > 0 && SetRegionData(16, src, dest, bytes, 32).Ready? && g == Gap(src, 16) && t == Top(bytes, g, 32)
    requires Phases(Layout(C.Base(16, p), 1, 2), m0, m1, m2, m3, src, dest, bytes, g, t, k0, k2, val, xor)
    requires |m0| == |m1| == |m2| == |m3| && src + t <= |m0| && dest + t <= |m0| && MiddleDone(m1, m2, src + g, dest + g, t - g, val, xor, p)
    requires g <= 2 * i < t && 2 * i + 2 <= bytes && src + bytes <= |m0| && dest + bytes <= |m0|
    requires Extractable(src, bytes) && Extractable(dest, bytes)
    ensures ExtractWord(m3, dest, bytes, i) == Product(val, ExtractWord(m0, src, bytes, i), ExtractWord(m0, dest, bytes, i), xor, p)
  {
    hide SetRegionData, Gap, Phases, Product, HighAt, Top, Extract, ExtractWord, MiddleDone;
    Geometry(src, dest, bytes); Blocks(src, dest, bytes);
    MiddleSame(Layout(C.Base(16, p), 1, 2), m0, m1, m2, m3, src, dest, bytes, g, t, k0, k2, val, xor);
    MiddleExtract(m3, dest, bytes, g, t, i); MiddleExtract(m0, src, bytes, g, t, i); MiddleExtract(m0, dest, bytes, g, t, i);
    MiddleAt(m1, m2, src + g, dest + g, t - g, i - g / 2, val, xor, p);
    assert src + g + (t - g) == src + t && dest + g + (t - g) == dest + t;
  }

  lemma MiddleAt(m: seq<nat>, m': seq<nat>, src: nat, dest: nat, len: nat, j: nat, val: nat, xor: bool, p: nat)
    requires p > 0 && MiddleDone(m, m', src, dest, len, val, xor, p) && 2 * j < len
    ensures WordDone(m[src..src + len], m[dest..dest + len], m'[dest..dest + len], j, val, xor, p)
  {
  }

  lemma MiddleExtract(m: seq<nat>, start: nat, bytes: nat, g: nat, t: nat, i: nat)
    requires Extractable(start, bytes) && start + bytes <= |m| && g == Gap(start, 16) && t == Top(bytes, g, 32)
    requires g <= 2 * i < t && 2 * i + 2 <= bytes
    ensures t <= bytes && HighAt(i - g / 2) + 16 < t - g
    ensures ExtractWord(m, start, bytes, i) == Extract(m[start + g..start + t], i - g / 2)
  {
    hide SetRegionData, Gap, HighAt, Extract, Top;
    ReadyAlone(start, bytes);
    Geometry(start, start, bytes); Blocks(start, start, bytes);
    PlacesInside(g, t, bytes, i);
  }

  lemma OuterWord(m0: seq<nat>, m1: seq<nat>, m2: seq<nat>, m3: seq<nat>,
                  src: nat, dest: nat, bytes: nat, g: nat, t: nat, k0: nat, k2: nat, val: nat, xor: bool, p: nat, i: nat)
    requires p > 0 && SetRegionData(16, src, dest, bytes, 32).Ready? && g == Gap(src, 16) && t == Top(bytes, g, 32)
    requires Phases(Layout(C.Base(16, p), 1, 2), m0, m1, m2, m3, src, dest, bytes, g, t, k0, k2, val, xor)
    requires |m0| == |m3| && 2 * i + 2 <= bytes && src + bytes <= |m0| && dest + bytes <= |m0| && (2 * i < g || t <= 2 * i)
    requires Extractable(src, bytes) && Extractable(dest, bytes)
    ensures ExtractWord(m3, dest, bytes, i) == Product(val, ExtractWord(m0, src, bytes, i), ExtractWord(m0, dest, bytes, i), xor, p)
  {
    hide SetRegionData, Gap, Phases, P.Mul, Top, Word, ExtractWord, Extractable;
    Geometry(src, dest, bytes);
    OuterExtract(m3, dest, bytes, g, t, i); OuterExtract(m0, src, bytes, g, t, i); OuterExtract(m0, dest, bytes, g, t, i);
    var f := Layout(C.Base(16, p), 1, 2);
    UnitCounts(m0, m1, m2, m3, src, dest, bytes, g, t, k0, k2, val, xor, p);
    if 2 * i < g {
      PrefixWord(f, m0, m1, m2, m3, src, dest, bytes, g, t, k0, k2, val, xor, i);
      TwiceWidth(i);
    } else {
      EvenTop(src, dest, bytes);
      SuffixWord(f, m0, m1, m2, m3, src, dest, bytes, g, t, k0, k2, val, xor, i - t / 2);
      TwiceWidth(i - t / 2);
    }
  }

  lemma EvenTop(src: nat, dest: nat, bytes: nat)
    requires SetRegionData(16, src, dest, bytes, 32).Ready?
    ensures Top(bytes, Gap(src, 16), 32) == 2 * (Top(bytes, Gap(src, 16), 32) / 2)
  {
    hide SetRegionData, Gap, Top, BlocksIn;
    Blocks(src, dest, bytes);
    var g, t := Gap(src, 16), Top(bytes, Gap(src, 16), 32);
    EvenSum(g, BlocksIn(t - g), t);
  }

  lemma EvenSum(g: nat, b: nat, t: nat)
    requires g % 2 == 0 && t == g + 32 * b
    ensures t == 2 * (t / 2)
  {
  }

  lemma OuterExtract(m: seq<nat>, start: nat, bytes: nat, g: nat, t: nat, i: nat)
    requires Extractable(start, bytes) && start + bytes <= |m| && g == Gap(start, 16) && t == Top(bytes, g, 32)
    requires 2 * i + 2 <= bytes && (2 * i < g || t <= 2 * i)
    ensures ExtractWord(m, start, bytes, i) == Word(m, start + 2 * i, 2)
  {
    hide SetRegionData, Gap, Top, Word;
    ReadyAlone(start, bytes);
    Geometry(start, start, bytes);
  }

  lemma {:induction false} TwiceWidth(i: nat)
    ensures Width(2, i) == 2 * i
  {
    if i > 0 { TwiceWidth(i - 1); }
  }

  lemma UnitCounts(m0: seq<nat>, m1: seq<nat>, m2: seq<nat>, m3: seq<nat>,
                   src: nat, dest: nat, bytes: nat, g: nat, t: nat, k0: nat, k2: nat, val: nat, xor: bool, p: nat)
    requires Phases(Layout(C.Base(16, p), 1, 2), m0, m1, m2, m3, src, dest, bytes, g, t, k0, k2, val, xor)
    ensures g == 2 * k0 && Later(bytes, t) - t == 2 * k2
  {
    TwiceWidth(k0); TwiceWidth(k2);
  }

  /**
   `gf_w16_split_4_16_lazy_nosse_altmap_multiply_region` as a whole. Extraction commutes with
   the multiplication at every index of the region (multiplier 1, which skips the alignment
   test, needs regions laid out alike); nothing beyond the bytes it reaches changes.
   */
  method MultiplyRegion(mem: array<nat>, src: nat, dest: nat, bytes: nat, val: nat, xor: bool, p: nat) returns (r: Outcome)
    requires P.IsModulus(16, p) && val < Pow2(16)
    requires Accessible(mem[..], src, dest, Reach(16, src, dest, bytes, val, xor, 32), val)
    modifies mem
    ensures r == Result(16, src, dest, bytes, val, xor, 32)
    ensures r.Refused? <==> val >= 2 && !(src % 16 == dest % 16 && src % 2 == 0 && bytes % 2 == 0)
    ensures r.Refused? ==> mem[..] == old(mem[..])
    ensures IsMemory(mem[..])
    ensures SameOutside(old(mem[..]), mem[..], dest, dest + Reach(16, src, dest, bytes, val, xor, 32))
    ensures r.Done? && Extractable(src, bytes) && Extractable(dest, bytes) && src + bytes <= mem.Length
            && (val == 1 ==> SameMap(src, dest, bytes)) ==>
              p > 0 && Commutes(old(mem[..]), mem[..], src, dest, bytes, val, xor, p)
  {
    hide Gap, SetRegionData, Commutes, IsMemory, Compatible, P.IsModulus, RunsAway, OneReach, Xored, Patch, SameMap, Extractable;
    P.ModulusPositive(16, p);
    ResultExact(16, src, dest, bytes, val, xor, 32);
    ghost var m := mem[..];
    if val == 0 {
      if !xor { WriteBytes(mem, dest, Zeros(bytes)); }
      ZeroBytes(m, dest, bytes);
      if Extractable(src, bytes) && Extractable(dest, bytes) && src + bytes <= mem.Length { ZeroCommutes(m, src, dest, bytes, xor, p); }
      return Done;
    }
    if val == 1 {
      var done := MultiplyOne(mem, src, dest, bytes, xor, p);
      return if done then Done else Runaway;
    }
    if SetRegionData(16, src, dest, bytes, 32).Exit? {
      return Refused;
    }
    MultiplyLong(mem, src, dest, bytes, val, xor, p);
    return Done;
  }

  /** The shortcut for multiplier 1. */
  method MultiplyOne(mem: array<nat>, src: nat, dest: nat, bytes: nat, xor: bool, ghost p: nat) returns (done: bool)
    requires P.IsModulus(16, p) && InBounds(mem[..], src, dest, OneReach(src, dest, bytes, xor))
    modifies mem
    ensures done <==> !RunsAway(src, dest, bytes, xor)
    ensures IsMemory(mem[..]) && SameOutside(old(mem[..]), mem[..], dest, dest + OneReach(src, dest, bytes, xor))
    ensures Extractable(src, bytes) && Extractable(dest, bytes) && SameMap(src, dest, bytes) ==>
              p > 0 && Commutes(old(mem[..]), mem[..], src, dest, bytes, 1, xor, p)
  {
    hide Gap, SetRegionData, Commutes, IsMemory, Compatible, P.IsModulus, RunsAway, OneReach, Xored, Patch, SameMap, Extractable, SameOutside;
    P.ModulusPositive(16, p);
    ghost var m, len := mem[..], OneReach(src, dest, bytes, xor);
    done := Region.MultiplyByOne(mem, src, dest, bytes, xor);
    OneBytes(m, src, dest, bytes, len, xor);
    if Extractable(src, bytes) && Extractable(dest, bytes) && SameMap(src, dest, bytes) {
      OneCommutes(m, src, dest, bytes, len, xor, p);
    }
  }

  lemma ZeroBytes(m: seq<nat>, dest: nat, bytes: nat)
    requires IsMemory(m) && dest + bytes <= |m|
    ensures IsMemory(Patch(m, dest, Zeros(bytes))) && SameOutside(m, Patch(m, dest, Zeros(bytes)), dest, dest + bytes)
  {
    ZerosMemory(m, dest, bytes);
  }

  lemma OneBytes(m: seq<nat>, src: nat, dest: nat, bytes: nat, len: nat, xor: bool)
    requires InBounds(m, src, dest, len) && len == OneReach(src, dest, bytes, xor)
    ensures bytes <= len
    ensures var m' := if xor then Xored(m, src, dest, len) else Patch(m, dest, m[src..src + len]);
            IsMemory(m') && SameOutside(m, m', dest, dest + len)
  {
    hide IsMemory, Patch, SameOutside, Xored, XorWords, Compatible, Gap;
    OneEffect(m, src, dest, len);
    PatchOutside(m, dest, m[src..src + len]);
    PatchOutside(m, dest, XorWords(m[dest..dest + len], m[src..src + len]));
  }

  lemma PatchOutside(m: seq<nat>, at: nat, bs: seq<nat>)
    requires at + |bs| <= |m|
    ensures SameOutside(m, Patch(m, at, bs), at, at + |bs|)
  {
  }
}
