/**
 Lazy split tables (`gf_w32_split_*_32_lazy_multiply_region`,
 `gf_w64_split_*_64_lazy_multiply_region`, `gf_w128_split_4_128_multiply_region`):
 a word is cut into chunks of `k` bits and each chunk looks up its own table. The
 tables belong to the last multiplier used and are rebuilt only when it changes.
 */
module SplitTable {
  import opened Bits
  import opened Poly
  import opened Multiply
  import opened Doubling
  import opened WordList

  lemma RowEntry(c: nat, n: nat, val: nat, p: nat)
    requires p > 0
    ensures Mul(c, Mul(Pow2(n), val, p), p) == Mul(Shl(c, n), val, p)
  {
    hide Mul, PMul, PMod, Shl, Pow2;
    MulAssoc(c, Pow2(n), val, p);
    PMulPow2(c, n);
    MulOfMod(c, n, val, p);
  }

  lemma MulOfMod(c: nat, n: nat, val: nat, p: nat)
    requires p > 0 && PMul(c, Pow2(n)) == Shl(c, n)
    ensures Mul(Mul(c, Pow2(n), p), val, p) == Mul(Shl(c, n), val, p)
  {
    ModMul(Shl(c, n), val, p);
  }

  /** Adding the chunk at position `n`. */
  lemma ChunkStep(part: nat, n: nat, k: nat, base: nat, val: nat, p: nat, acc: nat)
    requires p > 0
    ensures var c := Low(Shr(part, n), k);
            Xor(Xor(acc, Mul(Shl(Low(part, n), base), val, p)), Mul(Shl(c, base + n), val, p))
            == Xor(acc, Mul(Shl(Low(part, n + k), base), val, p))
  {
    hide *;
    var c, l := Low(Shr(part, n), k), Low(part, n);
    SplitWindow(part, n, k);
    XorComm(Shl(c, n), l);
    ShlXor(l, Shl(c, n), base);
    ShlAdd(c, n, base);
    MulXor(Shl(l, base), Shl(c, base + n), val, p);
    XorAssoc(acc, Mul(Shl(l, base), val, p), Mul(Shl(c, base + n), val, p));
  }

  lemma ChunkStart(part: nat, base: nat, val: nat, p: nat, acc: nat)
    requires p > 0
    ensures Xor(acc, Mul(Shl(Low(part, 0), base), val, p)) == acc && Shr(part, 0) == part
  {
    ShlZero(base);
    MulZero(val, p);
    XorZero(acc);
  }

  lemma {:induction false} WidthMono(k: nat, i: nat, j: nat)
    requires k >= 1 && Width(k, i) < Width(k, j)
    ensures i < j
  {
    if j <= i { WidthAdd(k, j, i - j); }
  }

  /** Word-by-word meaning of a region multiplication. */
  function Product(val: nat, s: nat, d: nat, xor: bool, p: nat): (r: nat)
    requires p > 0
  {
    if xor then Xor(d, Mul(val, s, p)) else Mul(val, s, p)
  }

  /** Storing forgets the old word, adding to 0 is storing, and adding twice undoes itself. */
  lemma AddTwice(val: nat, s: nat, d: nat, p: nat)
    requires p > 0
    ensures Product(val, s, d, false, p) == Product(val, s, 0, true, p) == Mul(val, s, p)
    ensures Product(val, s, Product(val, s, d, true, p), true, p) == d
    ensures Product(val, s, d, true, p) == d <==> Mul(val, s, p) == 0
  {
    hide Mul;
    XorZero(Mul(val, s, p));
    XorCancel(d, Mul(val, s, p));
    XorCancel(d, d);
    XorZero(d);
  }

  lemma ProductZero(s: nat, d: nat, xor: bool, p: nat)
    requires p > 0
    ensures Product(0, s, d, xor, p) == if xor then d else 0
  {
    MulZero(s, p);
    XorZero(d);
  }

  lemma ProductOne(s: nat, d: nat, xor: bool, w: nat, p: nat)
    requires IsModulus(w, p) && s < Pow2(w)
    ensures Product(1, s, d, xor, p) == if xor then Xor(d, s) else s
  {
    MulOne(s, w, p);
  }

  /** `gf_multby_zero` */
  method MultiplyByZero(dest: array<nat>, xor: bool)
    modifies dest
    ensures forall i :: 0 <= i < dest.Length ==> dest[i] == if xor then old(dest[i]) else 0
  {
    if xor { return; }
    for i := 0 to dest.Length
      invariant forall j :: 0 <= j < i ==> dest[j] == 0
    {
      dest[i] := 0;
    }
  }

  /** `gf_multby_one`, word by word. */
  method MultiplyByOne(src: array<nat>, dest: array<nat>, xor: bool)
    requires src.Length == dest.Length
    modifies dest
    ensures forall i :: 0 <= i < dest.Length ==> dest[i] == if xor then Xor(old(dest[i]), old(src[i])) else old(src[i])
  {
    for i := 0 to dest.Length
      invariant forall j :: i <= j < dest.Length ==> dest[j] == old(dest[j]) && src[j] == old(src[j])
      invariant forall j :: 0 <= j < i ==> dest[j] == if xor then Xor(old(dest[j]), old(src[j])) else old(src[j])
    {
      dest[i] := if xor then Xor(dest[i], src[i]) else src[i];
    }
  }

  lemma ByZero(k: nat, s: nat, val: nat, p: nat)
    requires p > 0
    ensures Mul(Shl(s, Width(k, 0)), val, p) == Mul(val, s, p)
  {
    MulComm(s, val, p);
  }

  lemma HalvesSum(k: nat, lo: nat, hi: nat, h: nat, acc: nat, val: nat, p: nat)
    requires p > 0
    ensures Xor(Xor(acc, Mul(Shl(lo, Width(k, 0)), val, p)), Mul(Shl(hi, h), val, p)) == Xor(acc, Mul(val, Xor(Shl(hi, h), lo), p))
  {
    ByZero(k, lo, val, p);
    hide Mul, Xor, Shl, Width;
    MulComm(Shl(hi, h), val, p);
    MulXor(Shl(hi, h), lo, val, p);
    XorComm(Mul(val, Shl(hi, h), p), Mul(val, lo, p));
    XorAssoc(acc, Mul(val, lo, p), Mul(val, Shl(hi, h), p));
  }

  class LazyTables {
    const w: nat
    const k: nat
    const n: nat
    const pp: nat
    ghost const p: nat
    const tables: array2<nat>
    var lastValue: nat

    ghost predicate Shape() {
      && IsModulus(w, p) && Low(pp, w) == Low(p, w) && k >= 1 && Width(k, n) == w
      && tables.Length0 == n && tables.Length1 == Pow2(k)
    }

    /** The tables hold the multiples of `v`. */
    ghost predicate Holds(v: nat)
      requires Shape()
      reads tables
    {
      forall i, c :: 0 <= i < n && 0 <= c < Pow2(k) ==> Entry(tables[i, c], i, c, v)
    }

    ghost predicate Entry(e: nat, i: nat, c: nat, v: nat)
      requires Shape()
    {
      e == Mul(Shl(c, Width(k, i)), v, p)
    }

    /** The cache is never stale. */
    ghost predicate Valid()
      reads this, tables
    {
      Shape() && lastValue < Pow2(w) && (lastValue != 0 ==> Holds(lastValue))
    }

    constructor (w: nat, k: nat, n: nat, pp: nat, ghost p: nat)
      requires IsModulus(w, p) && Low(pp, w) == Low(p, w) && k >= 1 && Width(k, n) == w
      ensures Valid() && lastValue == 0 && fresh(tables)
      ensures this.w == w && this.k == k && this.n == n && this.pp == pp && this.p == p
    {
      this.w, this.k, this.n, this.pp, this.p := w, k, n, pp, p;
      tables := new nat[n, Pow2(k)];
      lastValue := 0;
    }

    /** Fills table `i` with the multiples of `v0`; returns `x^k * v0`. */
    method FillRow(i: nat, v0: nat) returns (v: nat)
      requires Shape() && i < n && v0 < Pow2(w)
      modifies tables
      ensures v == Mul(Pow2(k), v0, p) < Pow2(w)
      ensures forall c :: 0 <= c < Pow2(k) ==> tables[i, c] == Mul(c, v0, p)
      ensures forall r, c :: 0 <= r < n && 0 <= c < Pow2(k) && r != i ==> tables[r, c] == old(tables[r, c])
    {
      hide Mul, TimesTwo, Low, IsModulus;
      ModulusPositive(w, p);
      tables[i, 0] := 0;
      var j: nat := 1;
      v := v0;
      ghost var e: nat := 0;
      FirstPower(v0, w, p);
      while j < Pow2(k)
        invariant e <= k && j == Pow2(e) <= Pow2(k) && v == Mul(Pow2(e), v0, p)
        invariant forall c :: 0 <= c < j ==> tables[i, c] == Mul(c, v0, p)
        invariant forall r, c :: 0 <= r < n && 0 <= c < Pow2(k) && r != i ==> tables[r, c] == old(tables[r, c])
        decreases k - e
      {
        if e == k { assert false; }
        Pow2Mono(e + 1, k);
        for c := 0 to j
          invariant forall x :: 0 <= x < j + c ==> tables[i, x] == Mul(x, v0, p)
          invariant forall r, x :: 0 <= r < n && 0 <= x < Pow2(k) && r != i ==> tables[r, x] == old(tables[r, x])
        {
          NextMultiple(e, c, v0, p);
          XorComm(v, tables[i, c]);
          tables[i, j + c] := Xor(v, tables[i, c]);
        }
        NextPower(v, e, v0, w, pp, p);
        v := TimesTwo(v, w, pp);
        j := 2 * j;
        e := e + 1;
      }
      if e < k { Pow2Mono(e, k); }
      MulFits(Pow2(e), v0, w, p);
    }

    /** Rebuilds the tables if the multiplier changed. */
    method Prepare(val: nat)
      requires Valid() && 0 < val < Pow2(w)
      modifies this, tables
      ensures Valid() && lastValue == val
    {
      hide Mul, IsModulus;
      ModulusPositive(w, p);
      if lastValue != val {
        var v := val;
        FirstPower(val, w, p);
        for i := 0 to n
          invariant v < Pow2(w) && v == Mul(Pow2(Width(k, i)), val, p)
          invariant forall r, c :: 0 <= r < i && 0 <= c < Pow2(k) ==> Entry(tables[r, c], r, c, val)
        {
          ghost var v0 := v;
          v := FillRow(i, v);
          forall c | 0 <= c < Pow2(k) ensures Entry(tables[i, c], i, c, val) { RowEntry(c, Width(k, i), val, p); }
          NextRowBase(k, i, val, p);
        }
      }
      lastValue := val;
    }

    /** One word of the region. */
    method MultiplyWord(s: nat, acc: nat, val: nat) returns (r: nat)
      requires Shape() && Holds(val) && s < Pow2(w)
      ensures r == Xor(acc, Mul(val, s, p))
    {
      ModulusPositive(w, p);
      ByZero(k, s, val, p);
      r := Lookup(s, 0, acc, val);
    }

    /** A two-word element: the low word reads the first half of the tables, the high word the second. */
    method MultiplyHalves(lo: nat, hi: nat, half: nat, acc: nat, val: nat) returns (r: nat)
      requires Shape() && Holds(val) && n == half + half
      requires lo < Pow2(Width(k, half)) && hi < Pow2(Width(k, half))
      ensures r == Xor(acc, Mul(val, Xor(Shl(hi, Width(k, half)), lo), p))
    {
      hide Mul, IsModulus, Xor, Shl, Pow2, Width;
      ModulusPositive(w, p);
      WidthAdd(k, half, half);
      Pow2Mono(Width(k, half), Width(k, n));
      r := Lookup(lo, 0, acc, val);
      r := Lookup(hi, half, r, val);
      HalvesSum(k, lo, hi, Width(k, half), acc, val, p);
    }

    /**
     A region multiplication. `src` and `dest` may be the same buffer. Multipliers 0 and 1
     take the shortcuts of the library and leave the cache alone.
     */
    method MultiplyRegion(src: array<nat>, dest: array<nat>, val: nat, xor: bool)
      requires Valid() && val < Pow2(w) && src.Length == dest.Length
      requires forall i :: 0 <= i < src.Length ==> src[i] < Pow2(w)
      modifies this, tables, dest
      ensures Valid()
      ensures forall i :: 0 <= i < dest.Length ==> dest[i] == Product(val, old(src[i]), old(dest[i]), xor, p)
      ensures lastValue == if val < 2 then old(lastValue) else val
    {
      hide Mul, IsModulus, Xor, Pow2, Low, Width;
      ModulusPositive(w, p);
      if val == 0 {
        MultiplyByZero(dest, xor);
        forall i | 0 <= i < dest.Length ensures dest[i] == Product(0, old(src[i]), old(dest[i]), xor, p) {
          ProductZero(old(src[i]), old(dest[i]), xor, p);
        }
        return;
      }
      if val == 1 {
        MultiplyByOne(src, dest, xor);
        forall i | 0 <= i < dest.Length ensures dest[i] == Product(1, old(src[i]), old(dest[i]), xor, p) {
          ProductOne(old(src[i]), old(dest[i]), xor, w, p);
        }
        return;
      }
      Prepare(val);
      for i := 0 to dest.Length
        invariant Valid() && lastValue == val
        invariant forall j :: i <= j < dest.Length ==> dest[j] == old(dest[j]) && src[j] == old(src[j])
        invariant forall j :: 0 <= j < i ==> dest[j] == Product(val, old(src[j]), old(dest[j]), xor, p)
      {
        var r := MultiplyWord(src[i], if xor then dest[i] else 0, val);
        XorZero(Mul(val, src[i], p));
        dest[i] := r;
      }
    }

    /** The lookup loop: stops as soon as the remaining bits are zero. */
    method Lookup(part: nat, first: nat, acc: nat, val: nat) returns (r: nat)
      requires Shape() && Holds(val) && first <= n && part < Pow2(Width(k, n - first))
      ensures r == Xor(acc, Mul(Shl(part, Width(k, first)), val, p))
    {
      hide Mul, IsModulus, Xor, Shl, Shr, Low, Pow2, Width;
      ModulusPositive(w, p);
      r := acc;
      var a, i: nat := part, 0;
      ChunkStart(part, Width(k, first), val, p, acc);
      WidthZero(k);
      while a != 0
        invariant a == Shr(part, Width(k, i)) && r == Xor(acc, Mul(Shl(Low(part, Width(k, i)), Width(k, first)), val, p))
        decreases a
      {
        NotAllRead(part, Width(k, i), Width(k, n - first));
        WidthMono(k, i, n - first);
        WidthAdd(k, first, i); WidthAdd(k, i, 1); WidthOne(k);
        LowFits(a, k);
        ChunkStep(part, Width(k, i), k, Width(k, first), val, p, acc);
        assert Entry(tables[first + i, Low(a, k)], first + i, Low(a, k), val);
        r := Xor(r, tables[first + i, Low(a, k)]);
        ShrAdd(part, Width(k, i), k);
        ShrShrinks(a, k);
        a := Shr(a, k);
        i := i + 1;
      }
      AllRead(part, Width(k, i));
    }

  }

  lemma WidthOne(k: nat)
    ensures Width(k, 1) == k
  {
    Widths(k);
  }

  lemma {:induction false} ShrShrinks(a: nat, k: nat)
    requires a > 0 && k >= 1
    ensures Shr(a, k) < a
  {
    if k > 1 && a / 2 > 0 { ShrShrinks(a / 2, k - 1); }
    if a / 2 == 0 { ShrZero(k - 1); }
  }

  lemma NextRowBase(k: nat, i: nat, val: nat, p: nat)
    requires p > 0
    ensures Mul(Pow2(k), Mul(Pow2(Width(k, i)), val, p), p) == Mul(Pow2(Width(k, i + 1)), val, p)
  {
    hide Mul, Shl, Pow2;
    RowEntry(Pow2(k), Width(k, i), val, p);
    ShlPow2(k, Width(k, i));
  }

  // ----- runs

  /** One call: multiply buffer `src` by `val` into buffer `dest`; they may be the same. */
  datatype Call = Call(val: nat, xor: bool, src: nat, dest: nat)

  ghost predicate Proper(c: Call, bufs: seq<seq<nat>>, w: nat) {
    c.val < Pow2(w) && c.src < |bufs| && c.dest < |bufs| && |bufs[c.src]| == |bufs[c.dest]|
  }

  function Apply(c: Call, src: seq<nat>, dest: seq<nat>, p: nat): (r: seq<nat>)
    requires p > 0 && |src| == |dest|
    ensures |r| == |dest|
  {
    seq(|dest|, i requires 0 <= i < |dest| => Product(c.val, src[i], dest[i], c.xor, p))
  }

  ghost predicate AllProper(calls: seq<Call>, bufs: seq<seq<nat>>, w: nat) {
    forall k :: 0 <= k < |calls| ==> Proper(calls[k], bufs, w)
  }

  /** The buffers after a run, by the reference product. */
  ghost function ApplyAll(calls: seq<Call>, bufs: seq<seq<nat>>, w: nat, p: nat): (r: seq<seq<nat>>)
    requires p > 0 && AllProper(calls, bufs, w)
    ensures |r| == |bufs| && forall b :: 0 <= b < |bufs| ==> |r[b]| == |bufs[b]|
  {
    if calls == [] then bufs
    else
      var k := |calls| - 1;
      var st, c := ApplyAll(calls[..k], bufs, w, p), calls[k];
      assert Proper(c, bufs, w);
      st[c.dest := Apply(c, st[c.src], st[c.dest], p)]
  }

  ghost function Contents(bufs: seq<array<nat>>): (r: seq<seq<nat>>)
    reads bufs
    ensures |r| == |bufs|
  {
    seq(|bufs|, b requires 0 <= b < |bufs| reads bufs => bufs[b][..])
  }

  /** Every entry of every buffer is a word of the field. */
  ghost predicate Words(bufs: seq<seq<nat>>, w: nat) {
    forall b :: 0 <= b < |bufs| ==> AreWords(w, bufs[b])
  }

  lemma ApplyWords(c: Call, src: seq<nat>, dest: seq<nat>, w: nat, p: nat)
    requires IsModulus(w, p) && |src| == |dest| && AreWords(w, dest)
    ensures AreWords(w, Apply(c, src, dest, p))
  {
    hide Mul, Pow2, Xor;
    forall i | 0 <= i < |dest| ensures Product(c.val, src[i], dest[i], c.xor, p) < Pow2(w) {
      MulFits(c.val, src[i], w, p);
      XorFits(dest[i], Mul(c.val, src[i], p), w);
    }
  }

  ghost predicate Separate(bufs: seq<array<nat>>) {
    forall i, j :: 0 <= i < j < |bufs| ==> bufs[i] != bufs[j]
  }

  method RunCall(t: LazyTables, c: Call, bufs: seq<array<nat>>)
    requires t.Valid() && Separate(bufs) && Proper(c, Contents(bufs), t.w) && Words(Contents(bufs), t.w)
    modifies t, t.tables, bufs
    ensures t.Valid() && Words(Contents(bufs), t.w)
    ensures var st := old(Contents(bufs)); Contents(bufs) == st[c.dest := Apply(c, st[c.src], st[c.dest], t.p)]
  {
    hide Product, Pow2, Mul, IsModulus, LazyTables.Holds;
    ghost var st := Contents(bufs);
    assert st[c.src] == bufs[c.src][..] && st[c.dest] == bufs[c.dest][..];
    assert AreWords(t.w, st[c.src]) && AreWords(t.w, st[c.dest]);
    TableModulus(t);
    ApplyWords(c, st[c.src], st[c.dest], t.w, t.p);
    t.MultiplyRegion(bufs[c.src], bufs[c.dest], c.val, c.xor);
    assert bufs[c.dest][..] == Apply(c, st[c.src], st[c.dest], t.p);
    assert Contents(bufs) == st[c.dest := Apply(c, st[c.src], st[c.dest], t.p)];
  }

  lemma TableModulus(t: LazyTables)
    requires t.Valid()
    ensures IsModulus(t.w, t.p) && t.p > 0
  {
  }

  /**
   Any sequence of multiplications through one cache, between any buffers and in place, gives
   what fresh tables would give each time: the tables are never stale.
   */
  method Run(t: LazyTables, calls: seq<Call>, bufs: seq<array<nat>>)
    requires t.Valid() && Separate(bufs) && AllProper(calls, Contents(bufs), t.w) && Words(Contents(bufs), t.w)
    modifies t, t.tables, bufs
    ensures t.Valid() && Words(Contents(bufs), t.w)
    ensures Contents(bufs) == ApplyAll(calls, old(Contents(bufs)), t.w, t.p)
  {
    hide Apply, Words, Contents, LazyTables.Valid, Separate, Pow2;
    TableModulus(t);
    ghost var st0 := Contents(bufs);
    for k := 0 to |calls|
      invariant t.Valid() && Words(Contents(bufs), t.w)
      invariant AllProper(calls[..k], st0, t.w) && Contents(bufs) == ApplyAll(calls[..k], st0, t.w, t.p)
    {
      assert Proper(calls[k], st0, t.w);
      RunCall(t, calls[k], bufs);
      assert calls[..k + 1][..k] == calls[..k];
    }
    assert calls[..|calls|] == calls;
  }
}
