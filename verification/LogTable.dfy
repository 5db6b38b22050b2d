/**
 Discrete-logarithm tables (`gf_w8_log_init`, `gf_w16_log_init`, `gf_w4_log_init`,
 `gf_w16_log_zero_init`) and the multiplications, divisions and inverses that read them.
 */
module LogTable {
  import opened Bits
  import opened Poly
  import opened Powers
  import opened Lists

  /** What a finished pair of tables holds: `log` inverts `x^k`, `alt` lists two periods. */
  ghost predicate Tables(w: nat, p: nat, log: seq<int>, alt: seq<nat>)
    requires p > 0
  {
    && |log| == Pow2(w) && |alt| >= 2 * GroupSize(w)
    && IsLog(w, p, log) && IsAntilog(w, p, alt)
  }

  ghost predicate IsLog(w: nat, p: nat, log: seq<int>)
    requires p > 0 && |log| == Pow2(w)
  {
    forall v :: 0 < v < Pow2(w) ==> 0 <= log[v] < GroupSize(w) && PowX(log[v], p) == v
  }

  ghost predicate IsAntilog(w: nat, p: nat, alt: seq<nat>)
    requires p > 0 && |alt| >= 2 * GroupSize(w)
  {
    forall k :: 0 <= k < 2 * GroupSize(w) ==> alt[k] == PowX(k, p)
  }

  method ClearLogs(log: array<int>)
    modifies log
    ensures forall v :: 0 <= v < log.Length ==> log[v] == 0
  {
    for i := 0 to log.Length
      invariant forall v :: 0 <= v < i ==> log[v] == 0
    {
      log[i] := 0;
    }
  }

  method Bzero(a: array<nat>, lo: nat, hi: nat)
    requires lo <= hi <= a.Length
    modifies a
    ensures forall k :: 0 <= k < a.Length ==> a[k] == if lo <= k < hi then 0 else old(a[k])
  {
    for i := lo to hi
      invariant forall k :: 0 <= k < a.Length ==> a[k] == if lo <= k < i then 0 else old(a[k])
    {
      a[i] := 0;
    }
  }

  // ----- the builder of w = 8 and w = 16

  /** A walk up to `i` has written the logs it claims; `check` records a revisit. */
  ghost predicate Walked(w: nat, p: nat, log: seq<int>, z: int, i: nat, check: bool)
    requires p > 0
  {
    && |log| == Pow2(w)
    && (forall v :: 0 < v < Pow2(w) && log[v] != 0 ==> 0 < log[v] < i && PowX(log[v], p) == v)
    && (log[0] != z ==> 0 < log[0] < i && PowX(log[0], p) == 0)
    && (!check ==> forall k :: 0 < k < i ==> Logged(log, k, z, p))
    && (check ==> Repeats(w, p) || (z != 0 && VisitsZero(w, p)))
  }

  ghost predicate Logged(log: seq<int>, k: nat, z: int, p: nat)
    requires p > 0
  {
    && PowX(k, p) < |log| && log[PowX(k, p)] == k
    && (z != 0 ==> PowX(k, p) != 0)
  }

  ghost predicate VisitsZero(w: nat, p: nat)
    requires p > 0
  {
    exists k :: 0 < k < GroupSize(w) && PowX(k, p) == 0
  }

  lemma WalkStep(w: nat, p: nat, log: seq<int>, z: int, i: nat, check: bool)
    requires IsModulus(w, p) && Walked(w, p, log, z, i, check) && i < GroupSize(w)
    ensures var b := PowX(i, p);
            b < |log| && Walked(w, p, log[b := i], z, i + 1, check || log[b] != 0)
  {
    hide PowX, Mul;
    var b := PowX(i, p);
    PowXFits(i, w, p);
    PowXZero(w, p);
    var log', check' := log[b := i], check || log[b] != 0;
    if check' && !check && b != 0 {
      assert PowX(log[b], p) == PowX(i, p);
    }
    if check' && !check && b == 0 && log[0] != z {
      assert PowX(log[0], p) == PowX(i, p);
    }
    if !check' {
      forall k | 0 < k < i + 1 ensures Logged(log', k, z, p) {
        if k < i { assert Logged(log, k, z, p); }
      }
    }
  }

  lemma WalkDone(w: nat, p: nat, log: seq<int>, z: int, check: bool)
    requires IsModulus(w, p) && w >= 3 && Walked(w, p, log, z, GroupSize(w), check)
    ensures check <==> !Primitive(w, p)
    ensures !check ==> IsLog(w, p, log) && log[0] == z
  {
    hide PowX, Mul;
    var n := GroupSize(w);
    NoRepeatsIffPrimitive(w, p);
    if Primitive(w, p) {
      forall k | 0 < k < n ensures PowX(k, p) != 0 { PrimitiveNonZero(w, p, k); }
    }
    if !check {
      forall j, k | 1 <= j < k < n ensures PowX(j, p) != PowX(k, p) {
        assert Logged(log, j, z, p) && Logged(log, k, z, p);
      }
      PowXZero(w, p);
      forall v | 0 < v < Pow2(w) ensures 0 <= log[v] < n && PowX(log[v], p) == v {
        var k := PrimitiveCovers(w, p, v);
        if k > 0 { assert Logged(log, k, z, p); }
      }
    }
  }

  /**
   Fills the tables; `check` is the error flag. `z` is the value stored as the log of
   zero (0 for plain tables). The test accepts exactly the primitive polynomials,
   although it does not notice a return to 1 or a first visit to 0 when it happens.
   */
  method Build(w: nat, p: nat, log: array<int>, alt: array<nat>, z: int) returns (check: bool)
    requires IsModulus(w, p) && w >= 3
    requires log.Length == Pow2(w) && alt.Length >= 2 * GroupSize(w)
    modifies log, alt
    ensures check <==> !Primitive(w, p)
    ensures !check ==> Tables(w, p, log[..], alt[..]) && log[0] == z
    ensures forall j :: 2 * GroupSize(w) <= j < alt.Length ==> alt[j] == old(alt[j])
  {
    hide PowX, Mul, MulX, Pow2, Primitive, Repeats, VisitsZero, Logged;
    var n := GroupSize(w);
    ClearLogs(log);
    log[0] := z;
    check := false;
    var b: nat := 1;
    PowXZero(w, p);
    for i := 0 to n
      invariant b == PowX(i, p)
      invariant Walked(w, p, log[..], z, i, check)
      invariant Filled(alt[..], 0, n, i, p)
      invariant forall j :: 2 * n <= j < alt.Length ==> alt[j] == old(alt[j])
    {
      WalkStep(w, p, log[..], z, i, check);
      FilledStep(alt[..], 0, n, i, p);
      ghost var l, a := log[..][b := i], alt[..][0 + i := b][0 + (i + n) := b];
      if log[b] != 0 { check := true; }
      log[b] := i;
      alt[i] := b;
      alt[i + n] := b;
      assert log[..] == l && alt[..] == a;
      PowXNext(i, w, p);
      b := MulX(b, w, p);
    }
    WalkDone(w, p, log[..], z, check);
    if !check {
      TwoPeriods(w, p, alt[..], 0);
      assert alt[..][0..] == alt[..];
    }
  }

  /** Both copies of the first `i` powers have been written, from offset `base` on. */
  ghost predicate Filled(alt: seq<nat>, base: nat, n: nat, i: nat, p: nat)
    requires p > 0
  {
    && base + 2 * n <= |alt| && i <= n
    && (forall k :: 0 <= k < i ==> alt[base + k] == PowX(k, p) && alt[base + (k + n)] == PowX(k, p))
  }

  lemma FilledStep(alt: seq<nat>, base: nat, n: nat, i: nat, p: nat)
    requires p > 0 && Filled(alt, base, n, i, p) && i < n
    ensures Filled(alt[base + i := PowX(i, p)][base + (i + n) := PowX(i, p)], base, n, i + 1, p)
  {
    hide PowX;
  }

  lemma TwoPeriods(w: nat, p: nat, alt: seq<nat>, base: nat)
    requires IsModulus(w, p) && Primitive(w, p)
    requires Filled(alt, base, GroupSize(w), GroupSize(w), p)
    ensures IsAntilog(w, p, alt[base..])
  {
    hide PowX, Mul;
    var n := GroupSize(w);
    forall k | 0 <= k < 2 * n ensures alt[base..][k] == PowX(k, p) {
      if k >= n {
        PrimitivePeriod(w, p, k - n);
        assert alt[base + (k - n + n)] == PowX(k - n, p);
      }
    }
  }

  // ----- the builder of w = 4: stops at the first return to 1

  /**
   Walks until the power returns to 1, gives up on a revisit, and accepts if the walk
   took `2^w - 1` steps. Again exactly the primitive polynomials pass.
   */
  method BuildByCycle(w: nat, p: nat, log: array<int>, alt: array<nat>) returns (ok: bool)
    requires IsModulus(w, p)
    requires log.Length == Pow2(w) && alt.Length == 2 * Pow2(w)
    modifies log, alt
    ensures ok <==> Primitive(w, p)
    ensures ok ==> Tables(w, p, log[..], alt[..])
  {
    hide PowX, Mul, MulX, CycleSeen, Filled, Primitive;
    var n := GroupSize(w);
    ClearLogs(log);
    var b: nat, i: nat := 1, 0;
    PowXZero(w, p);
    Pow2Mono(1, w);
    log[1], alt[0], alt[n] := 0, 1, 1;
    PowXNext(0, w, p); PowXFits(1, w, p);
    b, i := MulX(b, w, p), 1;
    ghost var seen := [1];
    CycleStart(w, p, log[..], alt[..]);
    while b != 1
      invariant 1 <= i <= n + 1 && b == PowX(i, p) < Pow2(w)
      invariant CycleSeen(seen, w, p, log[..], i)
      invariant i <= n ==> Filled(alt[..], 0, n, i, p)
      decreases n + 1 - i
    {
      if log[b] != 0 && i != 0 {
        CycleRevisit(seen, w, p, log[..], i);
        return false;
      }
      CycleStep(seen, w, p, log[..], i);
      if i < n { FilledStep(alt[..], 0, n, i, p); }
      ghost var l, a := log[..][b := i], alt[..][0 + i := b][0 + (i + n) := b];
      log[b] := i;
      alt[i] := b;
      alt[i + n] := b;
      assert log[..] == l && alt[..] == a;
      seen := seen + [b];
      PowXNext(i, w, p); PowXFits(i + 1, w, p);
      b := MulX(b, w, p);
      i := i + 1;
    }
    CycleClosed(seen, w, p, log[..], i);
    if i != n { return false; }
    TwoPeriods(w, p, alt[..], 0);
    assert alt[..][0..] == alt[..];
    ok := true;
  }

  /** The first `i` powers: distinct, logged, and none but the first is 1. */
  ghost predicate CycleSeen(seen: seq<nat>, w: nat, p: nat, log: seq<int>, i: nat)
    requires p > 0
  {
    && |seen| == i && |log| == Pow2(w) && Below(seen, Pow2(w)) && Distinct(seen)
    && (forall k :: 0 <= k < i ==> seen[k] == PowX(k, p) && log[seen[k]] == k)
    && (forall v :: 0 <= v < Pow2(w) && log[v] != 0 ==> 0 < log[v] < i && PowX(log[v], p) == v)
  }

  lemma CycleStart(w: nat, p: nat, log: seq<int>, alt: seq<nat>)
    requires IsModulus(w, p) && |log| == Pow2(w) && |alt| == 2 * Pow2(w)
    requires forall v :: 0 <= v < Pow2(w) ==> log[v] == 0
    requires alt[0] == 1 && alt[GroupSize(w)] == 1
    ensures CycleSeen([1], w, p, log, 1) && Filled(alt, 0, GroupSize(w), 1, p)
  {
    Pow2Mono(1, w);
    PowXZero(w, p);
  }

  lemma CycleStep(seen: seq<nat>, w: nat, p: nat, log: seq<int>, i: nat)
    requires IsModulus(w, p) && i >= 1 && CycleSeen(seen, w, p, log, i)
    requires PowX(i, p) < Pow2(w) && log[PowX(i, p)] == 0 && PowX(i, p) != 1
    ensures CycleSeen(seen + [PowX(i, p)], w, p, log[PowX(i, p) := i], i + 1)
    ensures i <= GroupSize(w)
  {
    hide PowX, Mul;
    PowXZero(w, p);
    assert seen[0] == 1;
    var t := seen + [PowX(i, p)];
    assert Distinct(t);
    Pigeonhole(t, Pow2(w));
  }

  lemma SeenDistinct(seen: seq<nat>, w: nat, p: nat, log: seq<int>, i: nat, j: nat, k: nat)
    requires p > 0 && CycleSeen(seen, w, p, log, i) && j < k < i
    ensures PowX(j, p) != PowX(k, p)
  {
    assert seen[j] != seen[k];
  }

  /** A primitive `x` is back at 1 after `2^w - 1` steps, so the walk is never longer. */
  lemma CycleLength(seen: seq<nat>, w: nat, p: nat, log: seq<int>, i: nat)
    requires IsModulus(w, p) && CycleSeen(seen, w, p, log, i) && Primitive(w, p)
    ensures i <= GroupSize(w)
  {
    var n := GroupSize(w);
    Pow2Mono(1, w);
    PowXZero(w, p);
    if i > n { SeenDistinct(seen, w, p, log, i, 0, n); }
  }

  lemma CycleRevisit(seen: seq<nat>, w: nat, p: nat, log: seq<int>, i: nat)
    requires IsModulus(w, p) && CycleSeen(seen, w, p, log, i)
    requires PowX(i, p) < Pow2(w) && log[PowX(i, p)] != 0 && PowX(i, p) != 1
    ensures !Primitive(w, p)
  {
    if Primitive(w, p) {
      CycleLength(seen, w, p, log, i);
      PrimitiveDistinct(w, p, log[PowX(i, p)], i);
    }
  }

  lemma CycleClosed(seen: seq<nat>, w: nat, p: nat, log: seq<int>, i: nat)
    requires IsModulus(w, p) && i >= 1 && CycleSeen(seen, w, p, log, i) && PowX(i, p) == 1
    ensures Primitive(w, p) <==> i == GroupSize(w)
    ensures Primitive(w, p) ==> IsLog(w, p, log)
  {
    hide PowX, Mul;
    PowXZero(w, p);
    if i == GroupSize(w) {
      forall k | 0 < k < i ensures PowX(k, p) != 1 { assert seen[0] != seen[k]; }
    }
    if Primitive(w, p) {
      CycleLength(seen, w, p, log, i);
      forall v | 0 < v < Pow2(w) ensures 0 <= log[v] < GroupSize(w) && PowX(log[v], p) == v {
        var k := PrimitiveCovers(w, p, v);
        assert seen[k] == v;
      }
    }
  }

  // ----- arithmetic by table lookup

  lemma LogSum(w: nat, p: nat, log: seq<int>, alt: seq<nat>, a: nat, b: nat)
    requires IsModulus(w, p) && Tables(w, p, log, alt) && 0 < a < Pow2(w) && 0 < b < Pow2(w)
    ensures 0 <= log[a] + log[b] < 2 * GroupSize(w)
    ensures alt[log[a] + log[b]] == Mul(a, b, p)
  {
    hide PowX, Mul;
    PowXAdd(log[a], log[b], p);
  }

  lemma LogDifference(w: nat, p: nat, log: seq<int>, alt: seq<nat>, a: nat, b: nat)
    requires IsModulus(w, p) && Primitive(w, p) && Tables(w, p, log, alt) && 0 < a < Pow2(w) && 0 < b < Pow2(w)
    ensures 0 < log[a] - log[b] + GroupSize(w) < 2 * GroupSize(w)
    ensures Mul(alt[log[a] - log[b] + GroupSize(w)], b, p) == a && alt[log[a] - log[b] + GroupSize(w)] < Pow2(w)
  {
    hide PowX, Mul;
    PowXFits(log[a] - log[b] + GroupSize(w), w, p);
    PowXAdd(log[a] - log[b] + GroupSize(w), log[b], p);
    PrimitivePeriod(w, p, log[a]);
  }

  /** `gf_w4_log_multiply`, `gf_w8_log_multiply`, `gf_w16_log_multiply`. */
  function Multiply(w: nat, p: nat, log: seq<int>, alt: seq<nat>, a: nat, b: nat): (r: nat)
    requires IsModulus(w, p) && Tables(w, p, log, alt) && a < Pow2(w) && b < Pow2(w)
    ensures r == Mul(a, b, p)
  {
    MulZero(a, p); MulZero(b, p);
    if a == 0 || b == 0 then 0
    else
      LogSum(w, p, log, alt, a, b);
      alt[log[a] + log[b]]
  }

  /** `gf_w8_log_divide` and its w = 4, 16 forms: the quotient, or 0 when either side is 0. */
  function Divide(w: nat, p: nat, log: seq<int>, alt: seq<nat>, a: nat, b: nat): (r: nat)
    requires IsModulus(w, p) && Primitive(w, p) && Tables(w, p, log, alt) && a < Pow2(w) && b < Pow2(w)
    ensures r < Pow2(w) && (b != 0 ==> Mul(r, b, p) == a)
    ensures a == 0 || b == 0 ==> r == 0
  {
    MulZero(b, p);
    if a == 0 || b == 0 then 0
    else
      LogDifference(w, p, log, alt, a, b);
      alt[log[a] - log[b] + GroupSize(w)]
  }

  /** Entry `x^k` of the inverse table holds `x^(n-k)`. */
  lemma InverseEntry(w: nat, p: nat, k: nat)
    requires IsModulus(w, p) && Primitive(w, p) && k <= GroupSize(w)
    ensures Mul(PowX(k, p), PowX(GroupSize(w) - k, p), p) == 1 && PowX(GroupSize(w) - k, p) < Pow2(w)
  {
    PowXFits(GroupSize(w) - k, w, p);
    PowXAdd(k, GroupSize(w) - k, p);
  }

  /** The entries of the first `i` powers are inverses. */
  ghost predicate Inverted(inv: seq<nat>, i: nat, w: nat, p: nat)
    requires p > 0
  {
    |inv| == Pow2(w) && inv[0] == 0 && forall k :: 0 <= k < i ==> HasInverse(inv, PowX(k, p), p)
  }

  ghost predicate HasInverse(inv: seq<nat>, a: nat, p: nat)
    requires p > 0
  {
    a < |inv| && inv[a] < |inv| && Mul(a, inv[a], p) == 1
  }

  lemma InvertedStep(inv: seq<nat>, i: nat, w: nat, p: nat)
    requires IsModulus(w, p) && Primitive(w, p) && Inverted(inv, i, w, p) && i < GroupSize(w)
    ensures 0 < PowX(i, p) < Pow2(w)
    ensures Inverted(inv[PowX(i, p) := PowX(GroupSize(w) - i, p)], i + 1, w, p)
  {
    hide PowX, Mul;
    PrimitiveNonZero(w, p, i);
    InverseEntry(w, p, i);
    forall k | 0 <= k < i ensures PowX(k, p) != PowX(i, p) { PrimitiveDistinct(w, p, k, i); }
  }

  /** The inverse table of w = 8, filled by a `do .. while` walk through the powers of `x`. */
  method FillInverse(w: nat, p: nat, alt: array<nat>, inv: array<nat>, at: nat)
    requires IsModulus(w, p) && Primitive(w, p) && at + Pow2(w) <= inv.Length
    requires alt.Length >= 2 * GroupSize(w) && IsAntilog(w, p, alt[..]) && (alt == inv ==> at >= 2 * GroupSize(w))
    modifies inv
    ensures InvertsAll(inv[at..at + Pow2(w)], w, p)
    ensures forall j :: 0 <= j < inv.Length && !(at <= j < at + Pow2(w)) ==> inv[j] == old(inv[j])
  {
    hide PowX, Mul, MulX, IsAntilog, Inverted, InvertsAll, Primitive, IsModulus, Pow2, GroupSize;
    ModulusPositive(w, p);
    SizeFacts(w);
    var n := GroupSize(w);
    ghost var powers := alt[..];
    inv[at] := 0;
    NoneInverted(inv[at..at + Pow2(w)], w, p);
    PutInverse(w, p, alt, inv, at, 1, n, powers);
    PowXNext(0, w, p);
    var i, b: nat := MulX(1, w, p), n - 1;
    while i != 1
      invariant 0 <= b < n && i == PowX(n - b, p) && Inverted(inv[at..at + Pow2(w)], n - b, w, p)
      invariant forall j :: 0 <= j < inv.Length && !(at <= j < at + Pow2(w)) ==> inv[j] == old(inv[j])
      invariant forall j :: 0 <= j < 2 * n ==> alt[j] == powers[j]
      decreases b
    {
      LogLeft(inv[at..at + Pow2(w)], b, w, p);
      PutInverse(w, p, alt, inv, at, i, b, powers);
      PowXNext(n - b, w, p);
      i := MulX(i, w, p);
      b := b - 1;
    }
    InvertedAll(inv[at..at + Pow2(w)], n - b, w, p);
  }

  /** One entry: the inverse of the power `i` is the power `b`. */
  method PutInverse(w: nat, p: nat, alt: array<nat>, inv: array<nat>, at: nat, i: nat, b: nat, ghost powers: seq<nat>)
    requires IsModulus(w, p) && Primitive(w, p) && at + Pow2(w) <= inv.Length && (alt == inv ==> at >= 2 * GroupSize(w))
    requires 0 < b <= GroupSize(w) && i == PowX(GroupSize(w) - b, p)
    requires alt.Length == |powers| >= 2 * GroupSize(w) && IsAntilog(w, p, powers)
    requires forall j :: 0 <= j < 2 * GroupSize(w) ==> alt[j] == powers[j]
    requires Inverted(inv[at..at + Pow2(w)], GroupSize(w) - b, w, p)
    modifies inv
    ensures Inverted(inv[at..at + Pow2(w)], GroupSize(w) - b + 1, w, p)
    ensures forall j :: 0 <= j < inv.Length && !(at <= j < at + Pow2(w)) ==> inv[j] == old(inv[j])
    ensures forall j :: 0 <= j < 2 * GroupSize(w) ==> alt[j] == powers[j]
  {
    hide PowX, Mul, MulX, Primitive, IsModulus, Pow2, Inverted;
    ModulusPositive(w, p);
    InvertedStep(inv[at..at + Pow2(w)], GroupSize(w) - b, w, p);
    ghost var v := inv[at..at + Pow2(w)][i := PowX(b, p)];
    inv[at + i] := alt[b];
    assert inv[at..at + Pow2(w)] == v;
  }

  lemma SizeFacts(w: nat)
    requires w >= 1
    ensures GroupSize(w) == Pow2(w) - 1 && GroupSize(w) >= 1 && Pow2(w) >= 2
  {
    Pow2Mono(1, w);
  }

  lemma NoneInverted(inv: seq<nat>, w: nat, p: nat)
    requires IsModulus(w, p) && |inv| == Pow2(w) && inv[0] == 0
    ensures Inverted(inv, 0, w, p) && PowX(0, p) == 1
  {
    PowXZero(w, p);
  }

  /** The walk comes back to 1 no later than at the last power. */
  lemma LogLeft(inv: seq<nat>, b: nat, w: nat, p: nat)
    requires IsModulus(w, p) && Primitive(w, p) && b < GroupSize(w) && PowX(GroupSize(w) - b, p) != 1
    ensures b > 0
  {
  }

  /** A whole table of inverses. */
  ghost predicate InvertsAll(inv: seq<nat>, w: nat, p: nat)
    requires p > 0
  {
    |inv| == Pow2(w) && inv[0] == 0 && forall a :: 0 < a < Pow2(w) ==> inv[a] < Pow2(w) && Mul(a, inv[a], p) == 1
  }

  /** In the extended zero form the inverses live in the antilog array, clear of everything multiplication reads. */
  method FillInverseExt(w: nat, p: nat, log: array<int>, alt: array<nat>)
    requires IsModulus(w, p) && Primitive(w, p) && alt.Length == 4 * Pow2(w) + 1 && ExtZeroTables(w, p, log[..], alt[..])
    modifies alt
    ensures ExtZeroTables(w, p, log[..], alt[..])
    ensures InvertsAll(alt[3 * Pow2(w)..4 * Pow2(w)], w, p)
  {
    hide PowX, Mul, InvertsAll, IsLog, Primitive;
    ModulusPositive(w, p);
    SizeFacts(w);
    FillInverse(w, p, alt, alt, 3 * Pow2(w));
    assert 3 * Pow2(w) + Pow2(w) == 4 * Pow2(w);
  }

  lemma InvertedAll(inv: seq<nat>, i: nat, w: nat, p: nat)
    requires IsModulus(w, p) && Primitive(w, p) && 0 < i <= GroupSize(w)
    requires Inverted(inv, i, w, p) && PowX(i, p) == 1
    ensures InvertsAll(inv, w, p)
  {
    hide PowX, Mul;
    forall a | 0 < a < Pow2(w) ensures inv[a] < Pow2(w) && Mul(a, inv[a], p) == 1 {
      var k := PrimitiveCovers(w, p, a);
      assert HasInverse(inv, PowX(k, p), p);
    }
  }

  /** The inverse table of w = 16, filled by index. */
  method FillInverseByLog(w: nat, p: nat, log: array<int>, alt: array<nat>, inv: array<nat>)
    requires IsModulus(w, p) && Primitive(w, p) && alt != inv
    requires Tables(w, p, log[..], alt[..]) && inv.Length == Pow2(w)
    modifies inv
    ensures InvertsAll(inv[..], w, p)
  {
    hide PowX, Mul;
    Pow2Mono(1, w);
    inv[0] := 0;
    inv[1] := 1;
    MulOne(1, w, p);
    for i := 2 to Pow2(w)
      invariant inv[0] == 0 && forall a :: 0 < a < i ==> inv[a] < Pow2(w) && Mul(a, inv[a], p) == 1
    {
      InverseEntry(w, p, log[i]);
      inv[i] := alt[GroupSize(w) - log[i]];
    }
  }

  // ----- tables with a sentinel for the log of zero

  ghost predicate ZeroRange(alt: seq<nat>, lo: nat, hi: nat) {
    hi <= |alt| && forall k :: lo <= k < hi ==> alt[k] == 0
  }

  /** w = 8, `GF_MULT_LOG_ZERO`: log of 0 is `2n`, followed by `n` zeros. */
  ghost predicate SmallZeroTables(w: nat, p: nat, log: seq<int>, alt: seq<nat>)
    requires p > 0
  {
    && Tables(w, p, log, alt) && log[0] == 2 * GroupSize(w)
    && ZeroRange(alt, 2 * GroupSize(w), 3 * GroupSize(w))
  }

  function MultiplySmallZero(w: nat, p: nat, log: seq<int>, alt: seq<nat>, a: nat, b: nat): (r: nat)
    requires IsModulus(w, p) && SmallZeroTables(w, p, log, alt) && a < Pow2(w) && b < Pow2(w)
    ensures r == Mul(a, b, p)
  {
    MulZero(a, p); MulZero(b, p);
    if b == 0 then 0
    else
      assert a > 0 ==> 0 <= log[a] + log[b] < 2 * GroupSize(w) && alt[log[a] + log[b]] == Mul(a, b, p) by {
        if a > 0 { LogSum(w, p, log, alt, a, b); }
      }
      alt[log[a] + log[b]]
  }

  /** w = 8, `GF_MULT_LOG_ZERO_EXT`: log of 0 is `z = 2n + 2`, with zeros at `z .. z+n` and at `2z`. */
  ghost predicate ExtZeroTables(w: nat, p: nat, log: seq<int>, alt: seq<nat>)
    requires p > 0
  {
    var n, z := GroupSize(w), 2 * Pow2(w);
    && Tables(w, p, log, alt) && log[0] == z
    && ZeroRange(alt, z, z + n) && |alt| > 2 * z && alt[2 * z] == 0
  }

  function MultiplyExtZero(w: nat, p: nat, log: seq<int>, alt: seq<nat>, a: nat, b: nat): (r: nat)
    requires IsModulus(w, p) && ExtZeroTables(w, p, log, alt) && a < Pow2(w) && b < Pow2(w)
    ensures r == Mul(a, b, p)
  {
    MulZero(a, p); MulZero(b, p);
    assert a > 0 && b > 0 ==> 0 <= log[a] + log[b] < 2 * GroupSize(w) && alt[log[a] + log[b]] == Mul(a, b, p) by {
      if a > 0 && b > 0 { LogSum(w, p, log, alt, a, b); }
    }
    alt[log[a] + log[b]]
  }

  /** The w = 8 initialisation of both sentinel forms: `ext` selects the second. */
  method BuildZero(w: nat, p: nat, log: array<int>, alt: array<nat>, ext: bool) returns (check: bool)
    requires IsModulus(w, p) && w >= 3 && log.Length == Pow2(w)
    requires alt.Length == if ext then 4 * Pow2(w) + 1 else 3 * GroupSize(w)
    modifies log, alt
    ensures check <==> !Primitive(w, p)
    ensures !check && ext ==> ExtZeroTables(w, p, log[..], alt[..])
    ensures !check && !ext ==> SmallZeroTables(w, p, log[..], alt[..])
  {
    hide PowX, Mul;
    var n := GroupSize(w);
    var z := if ext then 2 * Pow2(w) else 2 * n;
    check := Build(w, p, log, alt, z);
    if check { return; }
    Bzero(alt, z, z + n);
    if ext { alt[2 * z] := 0; }
  }

  // ----- w = 16: a negative sentinel and a table entered in its middle

  /** `antilog_tbl` is a pointer to offset `base` of a cleared array. */
  ghost predicate NegZeroTables(w: nat, p: nat, log: seq<int>, arr: seq<nat>, base: nat, s: nat)
    requires p > 0
  {
    var n := GroupSize(w);
    && |log| == Pow2(w) && base + 2 * n <= |arr|
    && log[0] + s == 0 && IsLog(w, p, log) && IsAntilog(w, p, arr[base..])
    && ZeroRange(arr, 0, base)
  }

  /** The tables as `gf_w16_log_zero_init` fills them; it does not test the polynomial. */
  method BuildNegZero(w: nat, p: nat, log: array<int>, arr: array<nat>)
    requires IsModulus(w, p) && Primitive(w, p) && log.Length == Pow2(w) && arr.Length == 4 * Pow2(w)
    modifies log, arr
    ensures NegZeroTables(w, p, log[..], arr[..], 2 * Pow2(w), Pow2(w))
  {
    hide PowX, Mul, MulX, Pow2, Primitive;
    var n: nat, base: nat := GroupSize(w), 2 * Pow2(w);
    var size: int := Pow2(w);
    log[0] := -size - 1 + 1;
    Bzero(arr, 0, arr.Length);
    var b: nat := 1;
    PowXZero(w, p);
    PrimitiveNonZero(w, p, 0);
    for i := 0 to n
      invariant b == PowX(i, p) && 0 < b < Pow2(w) && log[0] + size == 0
      invariant forall k :: 0 <= k < i ==> PowX(k, p) < Pow2(w) && log[PowX(k, p)] == k
      invariant forall k :: 0 <= k < base ==> arr[k] == 0
      invariant Filled(arr[..], base, n, i, p)
    {
      forall k | 0 <= k < i ensures PowX(k, p) != b { PrimitiveDistinct(w, p, k, i); }
      FilledStep(arr[..], base, n, i, p);
      ghost var a := arr[..][base + i := b][base + (i + n) := b];
      log[b] := i;
      arr[base + i] := b;
      arr[base + (i + n)] := b;
      assert arr[..] == a;
      PowXNext(i, w, p); PrimitiveNonZero(w, p, i + 1);
      b := MulX(b, w, p);
    }
    forall v | 0 < v < Pow2(w) ensures 0 <= log[v] < n && PowX(log[v], p) == v {
      var k := PrimitiveCovers(w, p, v);
    }
    TwoPeriods(w, p, arr[..], base);
  }

  /** `gf_w16_log_zero_multiply`; every index stays inside the array. */
  function MultiplyNegZero(w: nat, p: nat, log: seq<int>, arr: seq<nat>, a: nat, b: nat): (r: nat)
    requires IsModulus(w, p) && NegZeroTables(w, p, log, arr, 2 * Pow2(w), Pow2(w)) && a < Pow2(w) && b < Pow2(w)
    ensures r == Mul(a, b, p)
  {
    var base := 2 * Pow2(w);
    MulZero(a, p); MulZero(b, p);
    assert a > 0 && b > 0 ==> 0 <= log[a] + log[b] < 2 * GroupSize(w) && arr[base..][log[a] + log[b]] == Mul(a, b, p) by {
      if a > 0 && b > 0 { LogSum(w, p, log, arr[base..], a, b); }
    }
    arr[base + log[a] + log[b]]
  }

  /**
   A sentinel `-s` gives 0 for every product with one zero operand exactly when
   `s >= 2^w - 1`. The unparenthesised macro makes it `-2^w`; the value the source
   appears to intend, `-(2^w - 1) + 1`, would be one too small.
   */
  lemma SentinelExact(w: nat, p: nat, log: seq<int>, arr: seq<nat>, base: nat, s: nat)
    requires IsModulus(w, p) && Primitive(w, p) && s <= base && NegZeroTables(w, p, log, arr, base, s)
    ensures (forall a :: 0 < a < Pow2(w) ==> arr[base + log[a] + log[0]] == 0) <==> s >= GroupSize(w)
  {
    hide PowX, Mul;
    if s < GroupSize(w) {
      PrimitiveNonZero(w, p, s);
      var a := PowX(s, p);
      PowXZero(w, p);
      if log[a] < s { PrimitiveDistinct(w, p, log[a], s); }
      if s < log[a] { PrimitiveDistinct(w, p, s, log[a]); }
      assert arr[base..][0] == arr[base] == 1;
      assert arr[base + log[a] + log[0]] == 1;
    }
  }
}
