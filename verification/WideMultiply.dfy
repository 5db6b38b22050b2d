/**
 Multiplications whose operands or products need several machine words
 (`gf_w64_shift_multiply`, `gf_w128_shift_multiply`, `gf_w128_bytwo_p_multiply`,
 `gf_w128_bytwo_b_multiply`). Bits are carried between words by hand, and some
 loops skip words known to be zero. The modulus keeps its leading bit implicit.
 */
module WideMultiply {
  import opened Bits
  import opened Poly
  import opened Multiply
  import opened WordList

  // ----- the two loops of shift-and-reduce, on word lists

  lemma AddShiftedStep(h: nat, aw: nat, i: nat, prod: seq<nat>, bw: seq<nat>, v: nat, p0: nat)
    requires h >= 1 && i < h && |prod| == |bw| && AreWords(h, prod) && AreWords(h, bw)
    requires Value(h, bw) == Shl(v, i) && Shl(v, h) < Pow2(Width(h, |bw|))
    requires Value(h, prod) == Xor(p0, PMul(Low(aw, i), v))
    ensures var prod' := if Bit(aw, i) then XorWords(prod, bw) else prod;
            AreWords(h, prod') && Value(h, prod') == Xor(p0, PMul(Low(aw, i + 1), v))
    ensures AreWords(h, ShiftLeft(h, bw, 0)) && Value(h, ShiftLeft(h, bw, 0)) == Shl(v, i + 1)
  {
    hide *;
    ValueXor(h, prod, bw);
    PartialProduct(aw, v, i);
    XorAssoc(p0, PMul(Low(aw, i), v), Shl(v, i));
    ShlNext(v, i, h);
    ShiftLeftDoubles(h, bw);
  }

  lemma ShlNext(v: nat, i: nat, h: nat)
    requires i < h
    ensures Shl(v, i + 1) == 2 * Shl(v, i) <= Shl(v, h)
  {
    ShlAdd(v, i + 1, h - (i + 1));
    ShlGrows(Shl(v, i + 1), h - (i + 1));
  }

  lemma {:induction false} ShlGrows(a: nat, k: nat)
    ensures a <= Shl(a, k)
  {
    if k > 0 { ShlGrows(a, k - 1); }
  }

  /** Adds `aw * v` to the product while shifting `v` left by one word. */
  method AddShifted(h: nat, aw: nat, prod0: seq<nat>, bw0: seq<nat>, ghost v: nat) returns (prod: seq<nat>, bw: seq<nat>)
    requires h >= 1 && aw < Pow2(h) && |prod0| == |bw0| && AreWords(h, prod0) && AreWords(h, bw0)
    requires Value(h, bw0) == v && Shl(v, h) < Pow2(Width(h, |bw0|))
    ensures |prod| == |bw| == |bw0| && AreWords(h, prod) && AreWords(h, bw)
    ensures Value(h, prod) == Xor(Value(h, prod0), PMul(aw, v)) && Value(h, bw) == Shl(v, h)
  {
    hide *;
    prod, bw := prod0, bw0;
    AddStart(h, aw, v, Value(h, prod0));
    for i := 0 to h
      invariant |prod| == |bw| == |bw0| && AreWords(h, prod) && AreWords(h, bw)
      invariant Value(h, prod) == Xor(Value(h, prod0), PMul(Low(aw, i), v)) && Value(h, bw) == Shl(v, i)
    {
      AddShiftedStep(h, aw, i, prod, bw, v, Value(h, prod0));
      if Bit(aw, i) { prod := XorWords(prod, bw); }
      bw := ShiftLeft(h, bw, 0);
    }
    LowId(aw, h);
  }

  lemma AddStart(h: nat, aw: nat, v: nat, p0: nat)
    ensures Xor(p0, PMul(Low(aw, 0), v)) == p0 && Shl(v, 0) == v
  {
    XorZero(p0);
  }

  lemma ReduceStep(h: nat, prod: seq<nat>, pw: seq<nat>, j: nat, s: nat, w: nat, p: nat)
    requires h >= 1 && IsModulus(w, p) && |prod| == |pw| >= 1 && AreWords(h, prod) && AreWords(h, pw) && j < h
    requires Width(h, |prod| - 1) == w + s && Value(h, pw) == Shl(p, s + j) && Value(h, prod) < Pow2(w + s + j + 1)
    ensures var prod' := if Bit(prod[|prod| - 1], j) then XorWords(prod, pw) else prod;
            AreWords(h, prod') && Value(h, prod') < Pow2(w + s + j) && PMod(Value(h, prod'), p) == PMod(Value(h, prod), p)
    ensures AreWords(h, ShiftRight(h, pw)) && (s + j >= 1 ==> Value(h, ShiftRight(h, pw)) == Shl(p, s + j - 1))
  {
    hide *;
    ModulusPositive(w, p);
    BitOfWord(h, prod, |prod| - 1, j);
    ValueXor(h, prod, pw);
    ReduceBit(Value(h, prod), w + s + j, w, p);
    ShiftRightValue(h, pw);
    if s + j >= 1 { ShlNext(p, s + j - 1, s + j); }
  }

  /** Clears the top word of the product from bit `j0` down; `pw` starts as the shifted modulus. */
  method ReduceTopWord(h: nat, prod0: seq<nat>, pw0: seq<nat>, j0: nat, ghost s: nat, ghost w: nat, ghost p: nat)
    returns (prod: seq<nat>, pw: seq<nat>)
    requires h >= 1 && IsModulus(w, p) && |prod0| == |pw0| >= 1 && AreWords(h, prod0) && AreWords(h, pw0) && j0 < h
    requires Width(h, |prod0| - 1) == w + s && Value(h, pw0) == Shl(p, s + j0) && Value(h, prod0) < Pow2(w + s + j0 + 1)
    ensures |prod| == |pw| == |pw0| && AreWords(h, prod) && AreWords(h, pw)
    ensures Value(h, prod) < Pow2(w + s) && PMod(Value(h, prod), p) == PMod(Value(h, prod0), p)
    ensures s >= 1 ==> Value(h, pw) == Shl(p, s - 1)
  {
    hide *;
    ModulusPositive(w, p);
    prod, pw := prod0, pw0;
    var j: int := j0;
    while j >= 0
      invariant -1 <= j < h && |prod| == |pw| == |pw0| && AreWords(h, prod) && AreWords(h, pw)
      invariant Value(h, prod) < Pow2(w + s + j + 1) && PMod(Value(h, prod), p) == PMod(Value(h, prod0), p)
      invariant s + j >= 0 ==> Value(h, pw) == Shl(p, s + j)
    {
      ReduceStep(h, prod, pw, j, s, w, p);
      if Bit(prod[|prod| - 1], j) { prod := XorWords(prod, pw); }
      pw := ShiftRight(h, pw);
      j := j - 1;
    }
  }

  /** `pp << (h - 2)` over two words. */
  lemma ShiftedModulus(h: nat, pp: nat)
    requires h >= 2 && pp < Pow2(h)
    ensures AreWords(h, [Low(Shl(pp, h - 2), h), Shr(pp, 2)])
    ensures Value(h, [Low(Shl(pp, h - 2), h), Shr(pp, 2)]) == Shl(pp, h - 2)
    ensures Shr(pp, 2) < Pow2(h - 2) < Pow2(h)
  {
    hide *;
    var c := Shl(pp, h - 2);
    SplitAt(c, h);
    ShrOfShl(pp, h);
    ShrFits(pp, 2, h - 2);
    Pow2Mono(h - 2, h);
    LowFits(c, h);
    ValueTwo(h, Low(c, h), Shr(pp, 2));
    TwoWords(h, Low(c, h), Shr(pp, 2));
  }

  lemma TwoWords(h: nat, a: nat, b: nat)
    requires a < Pow2(h) && b < Pow2(h)
    ensures AreWords(h, [a, b])
  {
  }

  lemma ShrOfShl(pp: nat, h: nat)
    requires h >= 2
    ensures Shr(Shl(pp, h - 2), h) == Shr(pp, 2)
  {
    BitLaws();
    BitExt(Shr(Shl(pp, h - 2), h), Shr(pp, 2));
  }

  // ----- w = 64

  lemma W64Modulus(h: nat, pp: nat)
    requires h >= 2 && pp < Pow2(h)
    ensures var pw := [Low(Shl(pp, h - 2), h), Xor(Shr(pp, 2), Pow2(h - 2))];
            AreWords(h, pw) && Value(h, pw) == Shl(Full(h, pp), h - 2)
  {
    hide *;
    var l, u, one := Low(Shl(pp, h - 2), h), Shr(pp, 2), Pow2(h - 2);
    ShiftedModulus(h, pp);
    ShiftedWords(h, pp);
    XorFits(u, one, h);
    TwoWords(h, l, Xor(u, one));
    ValueTwo(h, l, Xor(u, one)); ValueTwo(h, l, u);
    ShlXor(u, one, h);
    ShlPow2(h - 2, h); ShlPow2(h, h - 2);
    XorAssoc(Shl(u, h), Shl(one, h), l); XorComm(Shl(one, h), l); XorAssoc(Shl(u, h), l, Shl(one, h));
    FullIsModulus(h, pp);
    XorComm(Pow2(h), pp);
    ShlXor(pp, Pow2(h), h - 2);
  }

  lemma ShiftedWords(h: nat, pp: nat)
    requires h >= 2 && pp < Pow2(h)
    ensures Low(Shl(pp, h - 2), h) < Pow2(h)
  {
    LowFits(Shl(pp, h - 2), h);
  }

  /** The field is one word wide, the product two. */
  method ShiftMultiply64(h: nat, pp: nat, a: nat, b: nat) returns (r: nat)
    requires h >= 2 && pp < Pow2(h) && a < Pow2(h) && b < Pow2(h)
    ensures r == Mul(a, b, Full(h, pp))
  {
    hide *;
    ghost var p := Full(h, pp);
    FullIsModulus(h, pp);
    ModulusPositive(h, p);
    Widths(h);
    PadPair(h, b);
    ShlFits(b, h, h);
    var prod, bw := AddShifted(h, a, [0, 0], [b, 0], b);
    ZeroProduct(h, a, b);
    FullProduct(a, b, h); LowId(a, h);
    W64Modulus(h, pp);
    var pw := [Low(Shl(pp, h - 2), h), Xor(Shr(pp, 2), Pow2(h - 2))];
    prod, pw := ReduceTopWord(h, prod, pw, h - 2, 0, h, p);
    HighWordsZero(h, prod, 1);
    ValueOne(h, prod[0]);
    assert prod[..1] == [prod[0]];
    ModFits(prod[0], h, p);
    MulUnfold(a, b, p);
    r := prod[0];
  }

  lemma PadPair(h: nat, b: nat)
    requires b < Pow2(h)
    ensures AreWords(h, [b, 0]) && Value(h, [b, 0]) == b
    ensures AreWords(h, [0, 0]) && Value(h, [0, 0]) == 0
  {
    ValueTwo(h, b, 0); ValueTwo(h, 0, 0);
    ShlZero(h); XorZero(b); XorZero(0);
  }

  lemma ZeroProduct(h: nat, a: nat, b: nat)
    ensures Xor(0, PMul(a, b)) == PMul(a, b)
  {
    XorZero(PMul(a, b));
  }

  // ----- w = 128, shift-and-reduce

  /** The operand in two words and in one number. */
  ghost predicate Holds(h: nat, lo: nat, hi: nat, v: nat) {
    lo < Pow2(h) && hi < Pow2(h) && v == Xor(Shl(hi, h), lo)
  }

  lemma HoldsFits(h: nat, lo: nat, hi: nat, v: nat)
    requires Holds(h, lo, hi, v)
    ensures v < Pow2(2 * h) && AreWords(h, [lo, hi, 0]) && Value(h, [lo, hi, 0]) == v
    ensures v == 0 <==> lo == 0 && hi == 0
  {
    ValueTwo(h, lo, hi);
    PadZero(h, [lo, hi]);
    assert [lo, hi] + [0] == [lo, hi, 0];
    Widths(h);
    ValueFits(h, [lo, hi]);
    if v == 0 { ZeroValue(h, [lo, hi]); assert [lo, hi][0] == 0 && [lo, hi][1] == 0; }
    if lo == 0 && hi == 0 { ShlZero(h); XorZero(0); }
  }

  /** Dropping the lowest word of `b << h` leaves `b`. */
  lemma DropLowWord(h: nat, bw: seq<nat>, v: nat)
    requires |bw| == 3 && AreWords(h, bw) && Value(h, bw) == Shl(v, h) && v < Pow2(2 * h)
    ensures bw[0] == 0 && AreWords(h, [bw[1], bw[2], 0]) && Value(h, [bw[1], bw[2], 0]) == v
  {
    ValueStep(h, bw);
    var x := Value(h, bw[1..]);
    XorDisjoint(v, 0, h); XorZero(Shl(v, h));
    SplitUnique(h, x, bw[0], v, 0);
    assert [bw[1], bw[2]] + [0] == [bw[1], bw[2], 0];
    assert bw[1..] == [bw[1], bw[2]];
    PadZero(h, bw[1..]);
  }

  lemma {:induction false} SplitUnique(h: nat, x: nat, l: nat, y: nat, m: nat)
    requires l < Pow2(h) && m < Pow2(h) && Shl(x, h) + l == Shl(y, h) + m
    ensures x == y && l == m
  {
    if h > 0 {
      assert l % 2 == m % 2;
      SplitUnique(h - 1, x, l / 2, y, m / 2);
    }
  }

  /** The product after both halves of `a`: low word kept aside, three words above it. */
  lemma TwoHalves(h: nat, alo: nat, ahi: nat, a: nat, b: nat, low: seq<nat>, top: seq<nat>)
    requires Holds(h, alo, ahi, a) && |low| == 3 && |top| == 3 && AreWords(h, low) && AreWords(h, top)
    requires Value(h, low) == PMul(alo, b)
    requires Value(h, top) == Xor(Value(h, [low[1], low[2], 0]), PMul(ahi, b))
    ensures AreWords(h, [low[0]] + top) && Value(h, [low[0]] + top) == PMul(a, b)
  {
    hide *;
    HalvesUnfold(h, low, top);
    HoldsParts(h, alo, ahi, a);
    HalvesAlgebra(h, alo, ahi, b, low[0], Value(h, [low[1], low[2], 0]));
  }

  lemma HalvesUnfold(h: nat, low: seq<nat>, top: seq<nat>)
    requires |low| == 3 && |top| == 3 && AreWords(h, low) && AreWords(h, top)
    ensures AreWords(h, [low[0]] + top) && Value(h, [low[0]] + top) == Xor(Shl(Value(h, top), h), low[0])
    ensures Value(h, low) == Xor(Shl(Value(h, [low[1], low[2], 0]), h), low[0])
  {
    hide Xor, Shl, Pow2;
    assert ([low[0]] + top)[1..] == top;
    assert low[1..] + [0] == [low[1], low[2], 0];
    PadZero(h, low[1..]);
  }

  lemma HalvesAlgebra(h: nat, alo: nat, ahi: nat, b: nat, l: nat, x: nat)
    requires PMul(alo, b) == Xor(Shl(x, h), l)
    ensures PMul(Xor(Shl(ahi, h), alo), b) == Xor(Shl(Xor(x, PMul(ahi, b)), h), l)
  {
    hide *;
    var y := PMul(ahi, b);
    ShlXor(x, y, h);
    XorComm(Shl(x, h), Shl(y, h));
    XorAssoc(Shl(y, h), Shl(x, h), l);
    PMulXorLeft(Shl(ahi, h), alo, b);
    PMulShl(ahi, b, h);
  }

  /** The modulus shifted to the top of four words. */
  lemma W128Modulus(h: nat, pp: nat)
    requires h >= 2 && pp < Pow2(h)
    ensures var pw := [0, Low(Shl(pp, h - 2), h), Shr(pp, 2), Pow2(h - 2)];
            AreWords(h, pw) && Value(h, pw) == Shl(Full(2 * h, pp), 2 * h - 2)
  {
    hide *;
    var l, u, one := Low(Shl(pp, h - 2), h), Shr(pp, 2), Pow2(h - 2);
    ShiftedModulus(h, pp);
    ShiftedWords(h, pp);
    FourWords(h, l, u, one);
    ValueTwo(h, l, u);
    // pp * x^(2h - 2)
    ShlAdd(pp, h - 2, h);
    ShlXor(Shl(u, h), l, h);
    ShlAdd(u, h, h);
    // x^(2h) * x^(2h - 2)
    ShlPow2(h - 2, 3 * h); ShlPow2(2 * h, 2 * h - 2);
    Pow2Mono(h, 2 * h);
    FullIsModulus(2 * h, pp);
    ShlXor(Pow2(2 * h), pp, 2 * h - 2);
  }

  lemma FourWords(h: nat, l: nat, u: nat, t: nat)
    requires l < Pow2(h) && u < Pow2(h) && t < Pow2(h)
    ensures AreWords(h, [0, l, u, t])
    ensures Value(h, [0, l, u, t]) == Xor(Shl(t, 3 * h), Shl(Value(h, [l, u]), h))
  {
    var ws := [0, l, u, t];
    assert ws[1..] == [l, u, t];
    assert [l, u, t][..2] == [l, u] && [l, u, t][2..] == [t];
    ValueSplit(h, [l, u, t], 2);
    ValueOne(h, t);
    Widths(h);
    var x := Value(h, [l, u]);
    assert Value(h, [l, u, t]) == Xor(Shl(t, 2 * h), x);
    assert Value(h, ws) == Xor(Shl(Value(h, [l, u, t]), h), 0);
    XorZero(Shl(Value(h, [l, u, t]), h));
    ShlXor(Shl(t, 2 * h), x, h);
    ShlAdd(t, 2 * h, h);
  }

  /** Result words, most significant first as in the source. */
  method ShiftMultiply128(h: nat, pp: nat, a0: nat, a1: nat, b0: nat, b1: nat, ghost a: nat, ghost b: nat) returns (c0: nat, c1: nat)
    requires h >= 2 && pp < Pow2(h) && Holds(h, a1, a0, a) && Holds(h, b1, b0, b)
    ensures Holds(h, c1, c0, Mul(a, b, Full(2 * h, pp)))
  {
    hide *;
    ghost var w, p := 2 * h, Full(2 * h, pp);
    Pow2Mono(h, 2 * h);
    FullIsModulus(w, pp);
    ModulusPositive(w, p);
    HoldsFits(h, a1, a0, a); HoldsFits(h, b1, b0, b);
    if (a0 == 0 && a1 == 0) || (b0 == 0 && b1 == 0) {
      MulZero(a, p); MulZero(b, p);
      HoldsZero(h);
      return 0, 0;
    }
    Widths(h);
    HoldsParts(h, a1, a0, a);
    ShlFits(b, h, 2 * h);
    HoldsZero(h); HoldsFits(h, 0, 0, 0);
    var low, bw := AddShifted(h, a1, [0, 0, 0], [b1, b0, 0], b);
    ZeroProduct(h, a1, b);
    DropLowWord(h, bw, b);
    ThreeWords(h, low);
    var top, _ := AddShifted(h, a0, [low[1], low[2], 0], [bw[1], bw[2], 0], b);
    TwoHalves(h, a1, a0, a, b, low, top);
    FullProduct(a, b, w); LowId(a, w);
    MulUnfold(a, b, p);
    W128Modulus(h, pp);
    var pw := [0, Low(Shl(pp, h - 2), h), Shr(pp, 2), Pow2(h - 2)];
    var prod;
    prod, pw := ReduceTopWord(h, [low[0]] + top, pw, h - 2, h, w, p);
    ShortModulus(h, pw, w, p);
    HighWordsZero(h, prod, 3); HighWordsZero(h, pw, 3);
    SubWords(h, prod, 3); SubWords(h, pw, 3);
    prod, pw := ReduceTopWord(h, prod[..3], pw[..3], h - 1, 0, w, p);
    HighWordsZero(h, prod, 2);
    SubWords(h, prod, 2);
    assert prod[..2] == [prod[0], prod[1]];
    ValueTwo(h, prod[0], prod[1]);
    ModFits(Value(h, prod), w, p);
    HoldsWords(h, prod[..2]);
    c0, c1 := prod[1], prod[0];
  }

  lemma HoldsZero(h: nat)
    ensures Holds(h, 0, 0, 0)
  {
    ShlZero(h);
    XorZero(0);
  }

  lemma HoldsParts(h: nat, lo: nat, hi: nat, v: nat)
    requires Holds(h, lo, hi, v)
    ensures lo < Pow2(h) && hi < Pow2(h) && v == Xor(Shl(hi, h), lo)
  {
  }

  lemma HoldsWords(h: nat, ws: seq<nat>)
    requires |ws| == 2 && AreWords(h, ws)
    ensures Holds(h, ws[0], ws[1], Value(h, ws))
  {
    ValueTwo(h, ws[0], ws[1]);
    assert ws == [ws[0], ws[1]];
  }

  lemma ThreeWords(h: nat, ws: seq<nat>)
    requires |ws| == 3 && AreWords(h, ws)
    ensures AreWords(h, [ws[1], ws[2], 0])
  {
  }

  lemma SubWords(h: nat, ws: seq<nat>, k: nat)
    requires k <= |ws| && AreWords(h, ws)
    ensures AreWords(h, ws[..k])
  {
  }

  /** After the first reduction the modulus no longer reaches the fourth word. */
  lemma ShortModulus(h: nat, pw: seq<nat>, w: nat, p: nat)
    requires h >= 1 && w == 2 * h && IsModulus(w, p) && Value(h, pw) == Shl(p, h - 1)
    ensures Value(h, pw) < Pow2(Width(h, 3))
  {
    Widths(h);
    LenShl(p, h - 1);
    FitsLen(Shl(p, h - 1), 3 * h);
  }

  // ----- w = 128, by two

  /** Doubling a two-word element: carry from the low word, reduction into the low word. */
  function TimesTwoWords(h: nat, ws: seq<nat>, pp: nat): (r: seq<nat>)
    requires h >= 1 && |ws| == 2
    ensures |r| == 2
  {
    var s := ShiftLeft(h, ws, 0);
    if Bit(ws[1], h - 1) then [Xor(s[0], pp), s[1]] else s
  }

  lemma TimesTwoWordsIsMul(h: nat, ws: seq<nat>, pp: nat)
    requires h >= 1 && |ws| == 2 && AreWords(h, ws) && pp < Pow2(h)
    ensures IsModulus(2 * h, Full(2 * h, pp))
    ensures AreWords(h, TimesTwoWords(h, ws, pp))
    ensures Value(h, TimesTwoWords(h, ws, pp)) == Mul(2, Value(h, ws), Full(2 * h, pp))
  {
    hide *;
    var w, p, v, s := 2 * h, Full(2 * h, pp), Value(h, ws), ShiftLeft(h, ws, 0);
    Widths(h);
    Pow2Mono(h, w);
    FullIsModulus(w, pp); ModulusPositive(w, p);
    LowId(pp, w);
    ValueFits(h, ws);
    TimesTwoIsMul(v, w, pp, p);
    BitOfWord(h, ws, 1, h - 1);
    ShiftLeftWords(h, ws, 0);
    ShiftLeftValue(h, ws, 0);
    AddLowWord(h, s, pp);
    TimesTwoUnfold(h, ws, pp, v);
  }

  lemma TimesTwoUnfold(h: nat, ws: seq<nat>, pp: nat, v: nat)
    requires h >= 1 && |ws| == 2 && AreWords(h, ws) && pp < Pow2(2 * h) && v == Value(h, ws) < Pow2(2 * h)
    requires Bit(v, 2 * h - 1) == Bit(ws[1], h - 1)
    requires var s := ShiftLeft(h, ws, 0);
             AreWords(h, s) && Value(h, s) == Low(2 * v, 2 * h) && AreWords(h, [Xor(s[0], pp), s[1]])
             && Value(h, [Xor(s[0], pp), s[1]]) == Xor(Value(h, s), pp)
    ensures AreWords(h, TimesTwoWords(h, ws, pp)) && Value(h, TimesTwoWords(h, ws, pp)) == TimesTwo(v, 2 * h, pp)
  {
    hide Value, AreWords, ShiftLeft, Xor, Low, Pow2;
    LowXor(2 * v, pp, 2 * h);
    LowId(pp, 2 * h);
    if !Bit(v, 2 * h - 1) {
      DoubleFits(v, 2 * h);
      LowId(2 * v, 2 * h);
    }
  }

  lemma DoubleFits(v: nat, w: nat)
    requires w >= 1 && v < Pow2(w) && !Bit(v, w - 1)
    ensures 2 * v < Pow2(w)
  {
    FitsLen(v, w);
    if Len(v) == w { LenBit(v); }
    FitsLen(v, w - 1);
  }

  lemma AddLowWord(h: nat, s: seq<nat>, pp: nat)
    requires |s| == 2 && AreWords(h, s) && pp < Pow2(h)
    ensures AreWords(h, [Xor(s[0], pp), s[1]]) && Value(h, [Xor(s[0], pp), s[1]]) == Xor(Value(h, s), pp)
  {
    hide Xor, Shl, Value, Pow2;
    XorFits(s[0], pp, h);
    ValueTwo(h, s[0], s[1]);
    assert s == [s[0], s[1]];
    ValueTwo(h, Xor(s[0], pp), s[1]);
    XorAssoc(Shl(s[1], h), s[0], pp);
  }

  /** `aw` and `bw` are the operands, least significant word first. */
  method BytwoP128(h: nat, pp: nat, aw: seq<nat>, bw: seq<nat>) returns (prod: seq<nat>)
    requires h >= 1 && pp < Pow2(h) && |aw| == |bw| == 2 && AreWords(h, aw) && AreWords(h, bw)
    ensures |prod| == 2 && AreWords(h, prod)
    ensures Full(2 * h, pp) > 0 && Value(h, prod) == Mul(Value(h, aw), Value(h, bw), Full(2 * h, pp))
  {
    hide *;
    ghost var w, p, a, b := 2 * h, Full(2 * h, pp), Value(h, aw), Value(h, bw);
    Widths(h); WidthZero(h);
    ZeroPair(h);
    prod := [0, 0];
    TimesTwoWordsIsMul(h, prod, pp); ModulusPositive(w, p);
    ValueFits(h, aw); ValueFits(h, bw);
    TopShift(a, b, w, p);
    // the mask walks over the high word and then over the low word
    var word: nat, j: nat := 1, h;
    while word > 0 || j > 0
      invariant word < 2 && j <= h && |prod| == 2 && AreWords(h, prod)
      invariant Value(h, prod) == Mul(Shr(a, Width(h, word) + j), b, p)
      decreases word, j
    {
      if j == 0 { word, j := 0, h; }
      j := j - 1;
      ghost var k := Width(h, word) + j;
      BitOfWord(h, aw, word, j);
      TimesTwoWordsIsMul(h, prod, pp);
      HornerStep(a, b, k, w, p);
      prod := TimesTwoWords(h, prod, pp);
      ValueXor(h, prod, bw);
      if Bit(aw[word], j) { prod := XorWords(prod, bw); }
    }
  }

  lemma ZeroPair(h: nat)
    ensures AreWords(h, [0, 0]) && Value(h, [0, 0]) == 0
  {
    ValueTwo(h, 0, 0);
    ShlZero(h); XorZero(0);
  }

  method BytwoB128(h: nat, pp: nat, aw: seq<nat>, bw: seq<nat>) returns (c: seq<nat>)
    requires h >= 1 && pp < Pow2(h) && |aw| == |bw| == 2 && AreWords(h, aw) && AreWords(h, bw)
    ensures |c| == 2 && AreWords(h, c)
    ensures Full(2 * h, pp) > 0 && Value(h, c) == Mul(Value(h, aw), Value(h, bw), Full(2 * h, pp))
  {
    hide *;
    ghost var w, p := 2 * h, Full(2 * h, pp);
    Widths(h);
    ZeroPair(h);
    // the source swaps the roles of its arguments here
    var a, b := bw, aw;
    c := [0, 0];
    TimesTwoWordsIsMul(h, b, pp); ModulusPositive(w, p);
    MulComm(Value(h, aw), Value(h, bw), p);
    XorZero(Mul(Value(h, a), Value(h, b), p));
    while true
      invariant |a| == |b| == |c| == 2 && AreWords(h, a) && AreWords(h, b) && AreWords(h, c)
      invariant Xor(Value(h, c), Mul(Value(h, a), Value(h, b), p)) == Mul(Value(h, aw), Value(h, bw), p)
      decreases Value(h, a)
    {
      ghost var v, rest := Value(h, c), Mul(Value(h, a) / 2, Mul(2, Value(h, b), p), p);
      ValueFits(h, b);
      PeelLowBit(Value(h, a), Value(h, b), w, p);
      LowBitOfValue(h, a);
      XorAssoc(v, Value(h, b), rest); XorZero(rest);
      ValueXor(h, c, b);
      ghost var a' := Value(h, a);
      ShiftRightValue(h, a);
      if a[0] % 2 == 1 { c := XorWords(c, b); }
      a := ShiftRight(h, a);
      if a[0] == 0 && a[1] == 0 {
        assert a == [0, 0];
        MulZero(Mul(2, Value(h, b), p), p);
        XorZero(Value(h, c));
        return;
      }
      if a' == 0 { ZeroValue(h, a); }
      TimesTwoWordsIsMul(h, b, pp);
      b := TimesTwoWords(h, b, pp);
    }
  }
}
