/** Values spread over any number of `h`-bit words, least significant word first. */
module WordList {
  import opened Bits

  ghost predicate AreWords(h: nat, ws: seq<nat>) {
    forall i :: 0 <= i < |ws| ==> ws[i] < Pow2(h)
  }

  /** `h * n`, by repeated addition. */
  function Width(h: nat, n: nat): (r: nat) {
    if n == 0 then 0 else h + Width(h, n - 1)
  }

  function Value(h: nat, ws: seq<nat>): (r: nat) {
    if ws == [] then 0 else Xor(Shl(Value(h, ws[1..]), h), ws[0])
  }

  function XorWords(u: seq<nat>, v: seq<nat>): (r: seq<nat>)
    requires |u| == |v|
    ensures |r| == |u|
  {
    if u == [] then [] else [Xor(u[0], v[0])] + XorWords(u[1..], v[1..])
  }

  /** Shift left by one; each word takes the top bit of the word below it, the lowest takes `carry`. */
  function ShiftLeft(h: nat, ws: seq<nat>, carry: nat): (r: seq<nat>)
    requires h >= 1
    ensures |r| == |ws|
  {
    if ws == [] then []
    else [Xor(Low(2 * ws[0], h), carry)] + ShiftLeft(h, ws[1..], if Bit(ws[0], h - 1) then 1 else 0)
  }

  /** Shift right by one; each word takes the low bit of the word above it. */
  function ShiftRight(h: nat, ws: seq<nat>): (r: seq<nat>)
    requires h >= 1
    ensures |r| == |ws|
  {
    if ws == [] then []
    else [Xor(ws[0] / 2, if |ws| > 1 && ws[1] % 2 == 1 then Pow2(h - 1) else 0)] + ShiftRight(h, ws[1..])
  }

  lemma ValueStep(h: nat, ws: seq<nat>)
    requires ws != [] && AreWords(h, ws)
    ensures Value(h, ws) == Shl(Value(h, ws[1..]), h) + ws[0] == Xor(Shl(Value(h, ws[1..]), h), ws[0])
    ensures AreWords(h, ws[1..])
  {
    XorDisjoint(Value(h, ws[1..]), ws[0], h);
  }

  lemma {:induction false} ValueFits(h: nat, ws: seq<nat>)
    requires AreWords(h, ws)
    ensures Value(h, ws) < Pow2(Width(h, |ws|))
  {
    hide Xor, Shl, Pow2;
    if ws == [] { return; }
    var n := Width(h, |ws| - 1);
    ValueStep(h, ws);
    ValueFits(h, ws[1..]);
    ShlFits(Value(h, ws[1..]), h, n);
    Pow2Mono(h, h + n);
    XorFits(Shl(Value(h, ws[1..]), h), ws[0], h + n);
  }

  lemma {:induction false} ValueXor(h: nat, u: seq<nat>, v: seq<nat>)
    requires |u| == |v| && AreWords(h, u) && AreWords(h, v)
    ensures AreWords(h, XorWords(u, v))
    ensures Value(h, XorWords(u, v)) == Xor(Value(h, u), Value(h, v))
  {
    if u == [] {
    } else {
      ValueXor(h, u[1..], v[1..]);
      var x, y := Value(h, u[1..]), Value(h, v[1..]);
      assert XorWords(u, v)[1..] == XorWords(u[1..], v[1..]);
      XorFits(u[0], v[0], h);
      ShlXor(x, y, h);
      XorSwap(Shl(x, h), u[0], Shl(y, h), v[0]);
    }
  }

  /** Bits of a two-part value. */
  lemma PartBit(h: nat, x: nat, l: nat, i: nat)
    requires l < Pow2(h)
    ensures Bit(Xor(Shl(x, h), l), i) == if i < h then Bit(l, i) else Bit(x, i - h)
  {
    BitXor(Shl(x, h), l, i);
    BitShl(x, h, i);
    if i >= h { FitsBit(l, h, i); }
  }

  lemma {:induction false} ShiftLeftWords(h: nat, ws: seq<nat>, carry: nat)
    requires h >= 1 && AreWords(h, ws) && carry < 2
    ensures AreWords(h, ShiftLeft(h, ws, carry))
  {
    if ws != [] {
      LowFits(2 * ws[0], h);
      Pow2Mono(1, h);
      XorFits(Low(2 * ws[0], h), carry, h);
      ShiftLeftWords(h, ws[1..], if Bit(ws[0], h - 1) then 1 else 0);
    }
  }

  /** The carry chain adds up: the words of `2 * value + carry`, as far as they fit. */
  lemma {:induction false} ShiftLeftValue(h: nat, ws: seq<nat>, carry: nat)
    requires h >= 1 && AreWords(h, ws) && carry < 2
    ensures Value(h, ShiftLeft(h, ws, carry)) == Low(2 * Value(h, ws) + carry, Width(h, |ws|))
  {
    hide *;
    ShiftLeftUnfold(h, ws, carry);
    if ws != [] {
      var c := if Bit(ws[0], h - 1) then 1 else 0;
      ShiftLeftWords(h, ws, carry);
      AreWordsTail(h, ws);
      ShiftLeftValue(h, ws[1..], c);
      ValueStep(h, ws);
      ValueStep(h, ShiftLeft(h, ws, carry));
      ShiftLeftHead(h, Value(h, ws[1..]), ws[0], carry, Width(h, |ws| - 1));
    }
  }

  lemma ShiftLeftUnfold(h: nat, ws: seq<nat>, carry: nat)
    requires h >= 1
    ensures ws == [] ==> Value(h, ShiftLeft(h, ws, carry)) == 0 == Low(2 * Value(h, ws) + carry, Width(h, |ws|))
    ensures ws != [] ==>
              var s := ShiftLeft(h, ws, carry);
              && s[1..] == ShiftLeft(h, ws[1..], if Bit(ws[0], h - 1) then 1 else 0)
              && s[0] == Xor(Low(2 * ws[0], h), carry)
              && Width(h, |ws|) == h + Width(h, |ws| - 1)
  {
  }

  lemma AreWordsTail(h: nat, ws: seq<nat>)
    requires ws != [] && AreWords(h, ws)
    ensures ws[0] < Pow2(h) && AreWords(h, ws[1..])
  {
  }

  lemma ShiftLeftHead(h: nat, x: nat, l: nat, carry: nat, n: nat)
    requires h >= 1 && l < Pow2(h) && carry < 2
    ensures var c := if Bit(l, h - 1) then 1 else 0;
            Xor(Shl(Low(2 * x + c, n), h), Xor(Low(2 * l, h), carry))
            == Low(2 * Xor(Shl(x, h), l) + carry, h + n)
  {
    hide Xor, Shl, Low;
    var c := if Bit(l, h - 1) then 1 else 0;
    var left := Xor(Shl(Low(2 * x + c, n), h), Xor(Low(2 * l, h), carry));
    var right := Low(2 * Xor(Shl(x, h), l) + carry, h + n);
    LowFits(2 * l, h); Pow2Mono(1, h); XorFits(Low(2 * l, h), carry, h);
    forall i: nat ensures Bit(left, i) == Bit(right, i) {
      PartBit(h, Low(2 * x + c, n), Xor(Low(2 * l, h), carry), i);
      BitLow(2 * x + c, n, if i < h then 0 else i - h);
      BitLow(2 * Xor(Shl(x, h), l) + carry, h + n, i);
      BitXor(Low(2 * l, h), carry, i);
      BitLow(2 * l, h, i);
      AppendBit(2 * l, l, 0, i);
      AppendBit(2 * x + c, x, c, if i < h then 0 else i - h);
      AppendBit(2 * Xor(Shl(x, h), l) + carry, Xor(Shl(x, h), l), carry, i);
      if i > 0 { PartBit(h, x, l, i - 1); }
      CarryBit(carry, i);
    }
    BitExt(left, right);
  }

  lemma AppendBit(y: nat, x: nat, b: nat, i: nat)
    requires b < 2 && y == 2 * x + b
    ensures Bit(y, i) == if i == 0 then b == 1 else Bit(x, i - 1)
  {
  }

  lemma CarryBit(carry: nat, i: nat)
    requires carry < 2
    ensures Bit(carry, i) == (i == 0 && carry == 1)
  {
    if i > 0 { BitZero(i - 1); }
  }

  lemma ShiftLeftDoubles(h: nat, ws: seq<nat>)
    requires h >= 1 && AreWords(h, ws) && 2 * Value(h, ws) < Pow2(Width(h, |ws|))
    ensures AreWords(h, ShiftLeft(h, ws, 0)) && Value(h, ShiftLeft(h, ws, 0)) == 2 * Value(h, ws)
  {
    ShiftLeftWords(h, ws, 0);
    ShiftLeftValue(h, ws, 0);
    LowId(2 * Value(h, ws), Width(h, |ws|));
  }

  lemma {:induction false} ShiftRightValue(h: nat, ws: seq<nat>)
    requires h >= 1 && AreWords(h, ws)
    ensures AreWords(h, ShiftRight(h, ws)) && Value(h, ShiftRight(h, ws)) == Value(h, ws) / 2
  {
    if ws != [] {
      var x := Value(h, ws[1..]);
      ShiftRightValue(h, ws[1..]);
      ValueStep(h, ws);
      assert ShiftRight(h, ws)[1..] == ShiftRight(h, ws[1..]);
      var odd := |ws| > 1 && ws[1] % 2 == 1;
      LowBitOfValue(h, ws[1..]);
      var l := Xor(ws[0] / 2, if odd then Pow2(h - 1) else 0);
      Pow2Mono(h - 1, h);
      XorFits(ws[0] / 2, if odd then Pow2(h - 1) else 0, h);
      ShiftRightHead(h, x, ws[0], odd);
    }
  }

  lemma {:induction false} LowBitOfValue(h: nat, ws: seq<nat>)
    requires h >= 1 && AreWords(h, ws)
    ensures Value(h, ws) % 2 == 1 <==> ws != [] && ws[0] % 2 == 1
  {
    hide Shl, Xor, Pow2;
    if ws != [] {
      ValueStep(h, ws);
      EvenShl(Value(h, ws[1..]), h);
    }
  }

  lemma {:induction false} EvenShl(x: nat, h: nat)
    requires h >= 1
    ensures Shl(x, h) % 2 == 0
  {
    assert Shl(x, h) == 2 * Shl(x, h - 1);
  }

  lemma ShiftRightHead(h: nat, x: nat, l: nat, odd: bool)
    requires h >= 1 && l < Pow2(h) && (odd <==> x % 2 == 1)
    ensures Xor(Shl(x / 2, h), Xor(l / 2, if odd then Pow2(h - 1) else 0)) == Xor(Shl(x, h), l) / 2
  {
    var m := if odd then Pow2(h - 1) else 0;
    var left := Xor(Shl(x / 2, h), Xor(l / 2, m));
    var right := Xor(Shl(x, h), l) / 2;
    Pow2Mono(h - 1, h); XorFits(l / 2, m, h);
    forall i: nat ensures Bit(left, i) == Bit(right, i) {
      PartBit(h, x / 2, Xor(l / 2, m), i);
      PartBit(h, x, l, i + 1);
      assert Bit(right, i) == Bit(Xor(Shl(x, h), l), i + 1);
      BitXor(l / 2, m, i);
      BitPow2(h - 1, i); BitZero(i);
      if i == h - 1 { FitsBit(l / 2, h - 1, i); }
    }
    BitExt(left, right);
  }

  // ----- words of a value

  lemma {:induction false} BitOfWord(h: nat, ws: seq<nat>, k: nat, j: nat)
    requires AreWords(h, ws) && k < |ws| && j < h
    ensures Bit(Value(h, ws), Width(h, k) + j) == Bit(ws[k], j)
  {
    PartBit(h, Value(h, ws[1..]), ws[0], Width(h, k) + j);
    if k > 0 { BitOfWord(h, ws[1..], k - 1, j); }
  }

  /** Splitting after the first `k` words. */
  lemma {:induction false} ValueSplit(h: nat, ws: seq<nat>, k: nat)
    requires AreWords(h, ws) && k <= |ws|
    ensures Value(h, ws) == Xor(Shl(Value(h, ws[k..]), Width(h, k)), Value(h, ws[..k]))
  {
    hide Xor, Shl, Pow2;
    if k == 0 {
      ShlByZero(Value(h, ws));
      assert ws[0..] == ws && ws[..0] == [];
      XorZero(Value(h, ws));
    } else {
      ValueSplit(h, ws[1..], k - 1);
      assert ws[1..][k - 1..] == ws[k..];
      assert ws[1..][..k - 1] == ws[..k][1..];
      var x, y, n := Value(h, ws[k..]), Value(h, ws[1..][..k - 1]), Width(h, k - 1);
      ShlXor(Shl(x, n), y, h);
      ShlAdd(x, n, h);
      XorAssoc(Shl(x, n + h), Shl(y, h), ws[0]);
    }
  }

  lemma ShlByZero(a: nat)
    ensures Shl(a, 0) == a
  {
  }

  lemma {:induction false} ZeroValue(h: nat, ws: seq<nat>)
    requires AreWords(h, ws) && Value(h, ws) == 0
    ensures forall i :: 0 <= i < |ws| ==> ws[i] == 0
  {
    if ws != [] {
      ValueStep(h, ws);
      var x := Value(h, ws[1..]);
      if x > 0 { LenShl(x, h); }
      ZeroValue(h, ws[1..]);
    }
  }

  /** A value that fits in `k` words leaves the words above empty. */
  lemma HighWordsZero(h: nat, ws: seq<nat>, k: nat)
    requires AreWords(h, ws) && k <= |ws| && Value(h, ws) < Pow2(Width(h, k))
    ensures forall i :: k <= i < |ws| ==> ws[i] == 0
    ensures Value(h, ws[..k]) == Value(h, ws)
  {
    ValueSplit(h, ws, k);
    ValueFits(h, ws[..k]);
    var x, n := Value(h, ws[k..]), Width(h, k);
    XorDisjoint(x, Value(h, ws[..k]), n);
    if x > 0 {
      ShlMono(1, x, n); ShlOne(n);
      assert false;
    }
    ZeroValue(h, ws[k..]);
    forall i | k <= i < |ws| ensures ws[i] == 0 { assert ws[i] == ws[k..][i - k]; }
    ShlZero(n);
    XorZero(Value(h, ws[..k]));
  }

  /** Words of zero above change nothing. */
  lemma PadZero(h: nat, ws: seq<nat>)
    requires AreWords(h, ws)
    ensures AreWords(h, ws + [0]) && Value(h, ws + [0]) == Value(h, ws)
  {
    var t := ws + [0];
    assert t[..|ws|] == ws && t[|ws|..] == [0];
    ValueSplit(h, t, |ws|);
    ShlZero(h); XorZero(0);
    assert Value(h, [0]) == 0;
    ShlZero(Width(h, |ws|));
    XorZero(Value(h, ws));
  }

  lemma Widths(h: nat)
    ensures Width(h, 1) == h && Width(h, 2) == 2 * h && Width(h, 3) == 3 * h && Width(h, 4) == 4 * h
  {
    assert Width(h, 2) == h + Width(h, 1);
    assert Width(h, 3) == h + Width(h, 2);
  }

  lemma ValueOne(h: nat, a: nat)
    ensures Value(h, [a]) == a
  {
    ShlZero(h);
    XorZero(a);
    assert [a][1..] == [];
  }

  lemma ValueTwo(h: nat, lo: nat, hi: nat)
    ensures Value(h, [lo, hi]) == Xor(Shl(hi, h), lo)
  {
    assert [lo, hi][1..] == [hi];
    ValueOne(h, hi);
  }

  lemma {:induction false} WidthAdd(k: nat, i: nat, j: nat)
    ensures Width(k, i + j) == Width(k, i) + Width(k, j)
  {
    if j > 0 { WidthAdd(k, i, j - 1); }
  }

  lemma WidthZero(k: nat)
    ensures Width(k, 0) == 0
  {
  }
}
