/**
 Inversion through a bit matrix (`gf_invert_binary_matrix`, `gf_bitmatrix_inverse`):
 Gauss elimination over GF(2) with rows packed into words, updated in place.
 */
module BitMatrix {
  import opened Bits
  import opened Poly

  /** Row combination: the exclusive or of the rows of `m` selected by the bits of `r`. */
  function Combo(r: nat, m: seq<nat>): (s: nat)
  {
    if m == [] then 0 else Xor(if r % 2 == 1 then m[0] else 0, Combo(r / 2, m[1..]))
  }

  /** Scalar product over GF(2). */
  function Dot(a: nat, v: nat): (r: bool)
  {
    if a == 0 then false else (a % 2 == 1 && v % 2 == 1) != Dot(a / 2, v / 2)
  }

  /** `m * v == 0` for the column vector `v`. */
  ghost predicate Kernel(m: seq<nat>, v: nat)
  {
    forall j :: 0 <= j < |m| ==> !Dot(m[j], v)
  }

  /** Square matrix whose rows fit. */
  ghost predicate Square(m: seq<nat>, n: nat)
  {
    |m| == n && forall j :: 0 <= j < n ==> m[j] < Pow2(n)
  }

  ghost predicate Singular(m: seq<nat>, n: nat)
  {
    exists v: nat :: 0 < v < Pow2(n) && Kernel(m, v)
  }

  // ----- linearity

  lemma {:induction false} ComboXor(r: nat, s: nat, m: seq<nat>)
    ensures Combo(Xor(r, s), m) == Xor(Combo(r, m), Combo(s, m))
    decreases |m|
  {
    if m == [] {
      XorSelf(0);
    } else {
      ComboXor(r / 2, s / 2, m[1..]);
      XorHalves(r, s);
      MaskedXor(r, s, m[0]);
      XorSwap(Masked(r, m[0]), Combo(r / 2, m[1..]), Masked(s, m[0]), Combo(s / 2, m[1..]));
    }
  }

  lemma {:induction false} ComboZero(m: seq<nat>)
    ensures Combo(0, m) == 0
  {
    if m != [] { ComboZero(m[1..]); }
  }

  lemma {:induction false} ComboPow2(i: nat, m: seq<nat>)
    requires i < |m|
    ensures Combo(Pow2(i), m) == m[i]
  {
    if i == 0 {
      ComboZero(m[1..]);
      XorZero(m[0]);
    } else {
      ComboPow2(i - 1, m[1..]);
      XorZero(m[i]);
    }
  }

  lemma {:induction false} DotXor(a: nat, b: nat, v: nat)
    ensures Dot(Xor(a, b), v) == (Dot(a, v) != Dot(b, v))
    decreases a + b
  {
    if a != 0 || b != 0 {
      DotXor(a / 2, b / 2, v / 2);
      XorHalves(a, b);
      DotStep(a, v); DotStep(b, v); DotStep(Xor(a, b), v);
    }
  }

  lemma DotStep(a: nat, v: nat)
    ensures Dot(a, v) == ((a % 2 == 1 && v % 2 == 1) != Dot(a / 2, v / 2))
  {
  }

  lemma {:induction false} DotComm(a: nat, v: nat)
    ensures Dot(a, v) == Dot(v, a)
    decreases a + v
  {
    if a != 0 || v != 0 {
      DotComm(a / 2, v / 2);
      DotStep(a, v); DotStep(v, a);
    }
  }

  lemma {:induction false} DotPow2(a: nat, i: nat)
    ensures Dot(a, Pow2(i)) == Bit(a, i) == Dot(Pow2(i), a)
    decreases i
  {
    DotComm(a, Pow2(i));
    DotStep(a, Pow2(i));
    if i == 0 {
      DotComm(a / 2, 0);
    } else {
      DotPow2(a / 2, i - 1);
    }
  }

  lemma {:induction false} DotDisjoint(a: nat, v: nat)
    requires forall i: nat :: Bit(a, i) ==> !Bit(v, i)
    ensures !Dot(a, v)
    decreases a
  {
    if a > 0 {
      assert Bit(a, 0) ==> !Bit(v, 0);
      forall i: nat | Bit(a / 2, i) ensures !Bit(v / 2, i) { assert Bit(a, i + 1) ==> !Bit(v, i + 1); }
      DotDisjoint(a / 2, v / 2);
    }
  }

  lemma {:induction false} DotCombo(r: nat, m: seq<nat>, v: nat)
    requires Kernel(m, v)
    ensures !Dot(Combo(r, m), v)
    decreases |m|
  {
    if m != [] {
      assert forall j :: 0 <= j < |m[1..]| ==> m[1..][j] == m[j + 1];
      DotCombo(r / 2, m[1..], v);
      DotXor(if r % 2 == 1 then m[0] else 0, Combo(r / 2, m[1..]), v);
    }
  }

  // ----- what elimination keeps

  /**
   `inv` records the row operations that led from `m0` to `m`
   (`inv * m0 == m`), and they lose nothing: both matrices have the same kernel.
   */
  ghost predicate Reached(m0: seq<nat>, m: seq<nat>, inv: seq<nat>, n: nat)
  {
    && Square(m, n) && Square(inv, n)
    && (forall j :: 0 <= j < n ==> Combo(inv[j], m0) == m[j])
    && (forall v: nat :: Kernel(m, v) <==> Kernel(m0, v))
  }

  ghost predicate Triangular(m: seq<nat>, i: nat, n: nat)
    requires |m| == n && i <= n
  {
    && (forall c :: 0 <= c < i ==> Bit(m[c], c))
    && (forall c, j :: 0 <= c < i && c < j < n ==> !Bit(m[j], c))
  }

  function Swapped(s: seq<nat>, i: nat, j: nat): seq<nat>
    requires i < |s| && j < |s|
  {
    s[i := s[j]][j := s[i]]
  }

  function Added(s: seq<nat>, i: nat, j: nat): seq<nat>
    requires i < |s| && j < |s|
  {
    s[j := Xor(s[j], s[i])]
  }

  lemma KernelSwap(m: seq<nat>, i: nat, j: nat, v: nat)
    requires i < |m| && j < |m|
    ensures Kernel(Swapped(m, i, j), v) <==> Kernel(m, v)
  {
    var s := Swapped(m, i, j);
    forall k | 0 <= k < |m| ensures m[k] == s[if k == i then j else if k == j then i else k] {}
  }

  lemma KernelAdd(m: seq<nat>, i: nat, j: nat, v: nat)
    requires i < |m| && j < |m| && i != j
    ensures Kernel(Added(m, i, j), v) <==> Kernel(m, v)
  {
    DotXor(m[j], m[i], v);
    var s := Added(m, i, j);
    assert s[i] == m[i] && s[j] == Xor(m[j], m[i]);
    assert forall k :: 0 <= k < |m| && k != j ==> s[k] == m[k];
  }

  lemma ReachedSwap(m0: seq<nat>, m: seq<nat>, inv: seq<nat>, n: nat, i: nat, j: nat)
    requires Reached(m0, m, inv, n) && i < n && j < n
    ensures Reached(m0, Swapped(m, i, j), Swapped(inv, i, j), n)
  {
    forall v: nat { KernelSwap(m, i, j, v); }
  }

  lemma ReachedAdd(m0: seq<nat>, m: seq<nat>, inv: seq<nat>, n: nat, i: nat, j: nat)
    requires Reached(m0, m, inv, n) && i < n && j < n && i != j
    ensures Reached(m0, Added(m, i, j), Added(inv, i, j), n)
  {
    XorFits(m[j], m[i], n); XorFits(inv[j], inv[i], n);
    ComboXor(inv[j], inv[i], m0);
    forall v: nat { KernelAdd(m, i, j, v); }
  }

  // ----- no pivot means singular

  /** Back substitution for a kernel vector with leading bit `i`, rows `c..i` already satisfied. */
  ghost function Solve(m: seq<nat>, i: nat, c: nat): (v: nat)
    requires c <= i <= |m|
    decreases i - c
  {
    if c == i then Pow2(i)
    else
      var v := Solve(m, i, c + 1);
      if Dot(m[c], v) then Xor(v, Pow2(c)) else v
  }

  lemma {:induction false} SolveBits(m: seq<nat>, i: nat, c: nat)
    requires c <= i <= |m|
    ensures Bit(Solve(m, i, c), i)
    ensures forall k: nat :: k < c || k > i ==> !Bit(Solve(m, i, c), k)
    decreases i - c
  {
    BitLaws();
    if c < i { SolveBits(m, i, c + 1); }
  }

  lemma {:induction false} SolveRows(m: seq<nat>, i: nat, c: nat, n: nat)
    requires |m| == n && c <= i <= n && Triangular(m, i, n)
    ensures forall k :: c <= k < i ==> !Dot(m[k], Solve(m, i, c))
    decreases i - c
  {
    if c < i {
      SolveRows(m, i, c + 1, n);
      var v := Solve(m, i, c + 1);
      forall k | c <= k < i ensures !Dot(m[k], Solve(m, i, c)) {
        DotPow2(m[k], c);
        DotComm(m[k], v); DotComm(m[k], Pow2(c)); DotComm(m[k], Xor(v, Pow2(c)));
        DotXor(v, Pow2(c), m[k]);
      }
    }
  }

  lemma NoPivotSingular(m0: seq<nat>, m: seq<nat>, inv: seq<nat>, n: nat, i: nat)
    requires Reached(m0, m, inv, n) && i < n && Triangular(m, i, n)
    requires forall j :: i <= j < n ==> !Bit(m[j], i)
    ensures Singular(m0, n)
  {
    var v := Solve(m, i, 0);
    SolveBits(m, i, 0);
    SolveRows(m, i, 0, n);
    forall j | i <= j < n ensures !Dot(m[j], v) {
      forall k: nat | Bit(m[j], k) ensures !Bit(v, k) {}
      DotDisjoint(m[j], v);
    }
    assert Kernel(m, v);
    assert Kernel(m0, v);
    LenFromBits(v, i);
    FitsLen(v, n);
  }

  lemma InverseNotSingular(m0: seq<nat>, inv: seq<nat>, n: nat)
    requires Square(m0, n) && |inv| == n
    requires forall j :: 0 <= j < n ==> Combo(inv[j], m0) == Pow2(j)
    ensures !Singular(m0, n)
  {
    forall v: nat | v < Pow2(n) && Kernel(m0, v) ensures v == 0 {
      forall i: nat ensures !Bit(v, i) {
        if i < n {
          DotCombo(inv[i], m0, v);
          DotPow2(v, i);
        } else {
          FitsBit(v, n, i);
        }
      }
      BitsFit(v, 0);
    }
  }

  // ----- the routine

  /** First half: make the matrix upper triangular; `ok` is false where the C code exits. */
  method Triangulate(mat: array<nat>, inv: array<nat>, n: nat) returns (ok: bool)
    requires mat != inv && mat.Length == n && inv.Length == n && Square(mat[..], n)
    modifies mat, inv
    ensures ok ==> Reached(old(mat[..]), mat[..], inv[..], n) && Triangular(mat[..], n, n)
    ensures !ok ==> Singular(old(mat[..]), n)
  {
    ghost var m0 := mat[..];
    Identity(inv, n, m0);
    assert mat[..] == m0;
    var i := 0;
    while i < n
      invariant i <= n && Reached(m0, mat[..], inv[..], n) && Triangular(mat[..], i, n)
    {
      if !Bit(mat[i], i) {
        var j := i + 1;
        while j < n && !Bit(mat[j], i)
          invariant i < j <= n && forall k :: i <= k < j ==> !Bit(mat[k], i)
        {
          j := j + 1;
        }
        if j == n {
          NoPivotSingular(m0, mat[..], inv[..], n, i);
          return false;
        }
        ReachedSwap(m0, mat[..], inv[..], n, i, j);
        ghost var m, v := Swapped(mat[..], i, j), Swapped(inv[..], i, j);
        mat[i], mat[j] := mat[j], mat[i];
        inv[i], inv[j] := inv[j], inv[i];
        assert mat[..] == m && inv[..] == v;
      }
      Eliminate(mat, inv, n, i, m0);
      i := i + 1;
    }
    ok := true;
  }

  method Identity(inv: array<nat>, n: nat, ghost m0: seq<nat>)
    requires inv.Length == n && Square(m0, n)
    modifies inv
    ensures Reached(m0, m0, inv[..], n)
  {
    for i := 0 to n
      invariant forall k :: 0 <= k < i ==> inv[k] == Pow2(k)
    {
      ShlOne(i);
      inv[i] := Shl(1, i);
    }
    IdentityReached(m0, inv[..], n);
  }

  lemma IdentityReached(m0: seq<nat>, inv: seq<nat>, n: nat)
    requires Square(m0, n) && |inv| == n && forall k :: 0 <= k < n ==> inv[k] == Pow2(k)
    ensures Reached(m0, m0, inv, n)
  {
    forall j | 0 <= j < n ensures inv[j] < Pow2(n) && Combo(inv[j], m0) == m0[j] {
      Pow2Mono(j, n);
      ComboPow2(j, m0);
    }
  }

  /** Clears column `i` below the pivot. */
  method Eliminate(mat: array<nat>, inv: array<nat>, n: nat, i: nat, ghost m0: seq<nat>)
    requires mat != inv && mat.Length == n && inv.Length == n && i < n
    requires Reached(m0, mat[..], inv[..], n) && Triangular(mat[..], i, n) && Bit(mat[i], i)
    modifies mat, inv
    ensures Reached(m0, mat[..], inv[..], n) && Triangular(mat[..], i + 1, n)
  {
    for j := i + 1 to n
      invariant Reached(m0, mat[..], inv[..], n) && Triangular(mat[..], i, n) && Bit(mat[i], i)
      invariant forall k :: i < k < j ==> !Bit(mat[k], i)
    {
      if Bit(mat[j], i) {
        ReachedAdd(m0, mat[..], inv[..], n, i, j);
        ghost var m, v := Added(mat[..], i, j), Added(inv[..], i, j);
        forall c | 0 <= c <= i ensures Bit(Xor(mat[j], mat[i]), c) == (Bit(mat[j], c) != Bit(mat[i], c)) {
          BitXor(mat[j], mat[i], c);
        }
        mat[j] := Xor(mat[j], mat[i]);
        inv[j] := Xor(inv[j], inv[i]);
        assert mat[..] == m && inv[..] == v;
      }
    }
  }

  /** Row `j` of the matrix the second half would hold had it updated `mat` down to column `i`. */
  function Cleared(row: nat, j: nat, i: nat): nat {
    if j >= i then Pow2(j) else Low(row, i)
  }

  lemma ClearDiagonal(row: nat, j: nat)
    requires Bit(row, j) && forall c: nat :: c < j ==> !Bit(row, c)
    ensures Low(row, j + 1) == Pow2(j)
  {
    BitLaws();
    BitExt(Low(row, j + 1), Pow2(j));
  }

  lemma ClearColumn(row: nat, i: nat)
    ensures Low(row, i) == if Bit(row, i) then Xor(Low(row, i + 1), Pow2(i)) else Low(row, i + 1)
  {
    BitLaws();
    BitExt(Low(row, i), if Bit(row, i) then Xor(Low(row, i + 1), Pow2(i)) else Low(row, i + 1));
  }

  /** Second half: back substitution, which never writes to `mat`. */
  method BackSubstitute(mat: array<nat>, inv: array<nat>, n: nat, ghost m0: seq<nat>)
    requires mat != inv && mat.Length == n && inv.Length == n
    requires Reached(m0, mat[..], inv[..], n) && Triangular(mat[..], n, n)
    modifies inv
    ensures Square(inv[..], n)
    ensures forall j :: 0 <= j < n ==> Combo(inv[j], m0) == Pow2(j)
  {
    forall j | 0 <= j < n ensures Combo(inv[j], m0) == Cleared(mat[j], j, n) { LowId(mat[j], n); }
    var i: nat := n;
    while i > 0
      invariant i <= n && Square(inv[..], n)
      invariant forall j :: 0 <= j < n ==> Combo(inv[j], m0) == Cleared(mat[j], j, i)
    {
      i := i - 1;
      ClearAbove(mat, inv, n, i, m0);
    }
  }

  method ClearAbove(mat: array<nat>, inv: array<nat>, n: nat, i: nat, ghost m0: seq<nat>)
    requires mat != inv && mat.Length == n && inv.Length == n && i < n
    requires Square(inv[..], n) && Triangular(mat[..], n, n)
    requires forall j :: 0 <= j < n ==> Combo(inv[j], m0) == Cleared(mat[j], j, i + 1)
    modifies inv
    ensures Square(inv[..], n)
    ensures forall j :: 0 <= j < n ==> Combo(inv[j], m0) == Cleared(mat[j], j, i)
  {
    ClearDiagonal(mat[i], i);
    for j := 0 to i
      invariant Square(inv[..], n)
      invariant Combo(inv[i], m0) == Pow2(i)
      invariant forall k :: 0 <= k < j ==> Combo(inv[k], m0) == Cleared(mat[k], k, i)
      invariant forall k :: j <= k < n && k != i ==> Combo(inv[k], m0) == Cleared(mat[k], k, i + 1)
    {
      ClearColumn(mat[j], i);
      if Bit(mat[j], i) {
        ComboXor(inv[j], inv[i], m0);
        XorFits(inv[j], inv[i], n);
        inv[j] := Xor(inv[j], inv[i]);
      }
    }
  }

  /**
   The whole inversion. It succeeds exactly on the non-singular matrices, and then
   `inv * mat` is the identity.
   */
  method Invert(mat: array<nat>, inv: array<nat>, n: nat) returns (ok: bool)
    requires mat != inv && mat.Length == n && inv.Length == n && Square(mat[..], n)
    modifies mat, inv
    ensures ok <==> !Singular(old(mat[..]), n)
    ensures ok ==> Square(inv[..], n) && forall j :: 0 <= j < n ==> Combo(inv[j], old(mat[..])) == Pow2(j)
  {
    ghost var m0 := mat[..];
    ok := Triangulate(mat, inv, n);
    if ok {
      BackSubstitute(mat, inv, n, m0);
      InverseNotSingular(m0, inv[..], n);
    }
  }

  // ----- the matrix of a field element

  /** Row `i` of the matrix of `y` is `x^i * y`. */
  ghost predicate IsRow(v: nat, i: nat, y: nat, p: nat)
    requires p > 0
  {
    v == Mul(Pow2(i), y, p)
  }

  ghost predicate MulMatrix(m: seq<nat>, y: nat, p: nat)
    requires p > 0
  {
    forall i :: 0 <= i < |m| ==> IsRow(m[i], i, y, p)
  }

  /** Combining the rows by the bits of `r` multiplies by `r`. */
  lemma {:induction false} ComboIsMul(r: nat, m: seq<nat>, y: nat, p: nat)
    requires p > 0 && r < Pow2(|m|) && MulMatrix(m, y, p)
    ensures Combo(r, m) == Mul(r, y, p)
    decreases |m|
  {
    if m == [] {
      MulZero(y, p);
    } else {
      var t := m[1..];
      forall i | 0 <= i < |t| ensures IsRow(t[i], i, 2 * y, p) {
        assert IsRow(m[i + 1], i + 1, y, p);
        PMulDoubleLeft(Pow2(i), y); PMulDoubleRight(Pow2(i), y);
      }
      ComboIsMul(r / 2, t, 2 * y, p);
      PMulStep(r, y);
      PMulDoubleRight(r / 2, y);
      ModXor(Masked(r, y), 2 * PMul(r / 2, y), p);
      PMulOne(y); ModZero(p);
      assert IsRow(m[0], 0, y, p);
    }
  }

  lemma CoprimeNotSingular(m: seq<nat>, y: nat, w: nat, p: nat)
    requires IsModulus(w, p) && Square(m, w) && MulMatrix(m, y, p)
    ensures PGcd(p, y) == 1 ==> !Singular(m, w)
  {
    if PGcd(p, y) == 1 {
      var z := CoprimeInvertible(y, w, p);
      var inv := seq(w, j requires 0 <= j => Mul(Pow2(j), z, p));
      forall j | 0 <= j < w ensures Combo(inv[j], m) == Pow2(j) {
        MulFits(Pow2(j), z, w, p);
        ComboIsMul(inv[j], m, y, p);
        MulAssoc(Pow2(j), z, y, p); MulComm(z, y, p);
        Pow2Mono(j, w);
        MulOne(Pow2(j), w, p);
      }
      InverseNotSingular(m, inv, w);
    }
  }

  lemma NextRow(y: nat, i: nat, y0: nat, w: nat, pp: nat, p: nat)
    requires IsModulus(w, p) && Low(pp, w) == Low(p, w) && IsRow(y, i, y0, p)
    ensures var y' := if Bit(y, w - 1) then Low(Xor(2 * y, pp), w) else 2 * y;
            IsRow(y', i + 1, y0, p) && y' < Pow2(w)
  {
    MulFits(Pow2(i), y0, w, p);
    MulXTruncated(y, w, p, pp);
    MulXIsMul(y, w, p);
    MulAssoc(2, Pow2(i), y0, p);
    PMulOne(Pow2(i)); PMulDoubleLeft(1, Pow2(i));
    ModMul(2 * Pow2(i), y0, p);
  }

  /** The rows `y, xy, x^2 y, ...` of the matrix. */
  method FillMatrix(mat: array<nat>, y0: nat, w: nat, pp: nat, ghost p: nat)
    requires IsModulus(w, p) && Low(pp, w) == Low(p, w) && y0 < Pow2(w) && mat.Length == w
    modifies mat
    ensures Square(mat[..], w) && MulMatrix(mat[..], y0, p)
  {
    var y: nat := y0;
    MulOne(y0, w, p);
    for i := 0 to w
      invariant y < Pow2(w) && IsRow(y, i, y0, p)
      invariant forall k :: 0 <= k < i ==> mat[k] < Pow2(w) && IsRow(mat[k], k, y0, p)
    {
      mat[i] := y;
      NextRow(y, i, y0, w, pp, p);
      if Bit(y, w - 1) {
        y := Low(Xor(2 * y, pp), w);
      } else {
        y := 2 * y;
      }
    }
  }

  /** `NotInvertible` is where the C code prints "Matrix not invertible" and exits. */
  datatype Result = Inverted(value: nat) | NotInvertible

  /** `pp` may or may not carry the leading bit of the modulus `p`. */
  method Inverse(y: nat, w: nat, pp: nat, ghost p: nat) returns (r: Result)
    requires IsModulus(w, p) && Low(pp, w) == Low(p, w) && y < Pow2(w)
    ensures r.Inverted? <==> PGcd(p, y) == 1
    ensures r.Inverted? ==> r.value < Pow2(w) && Mul(y, r.value, p) == 1
  {
    var mat, inv := new nat[w], new nat[w];
    FillMatrix(mat, y, w, pp, p);
    ghost var m0 := mat[..];
    var ok := Invert(mat, inv, w);
    if !ok {
      CoprimeNotSingular(m0, y, w, p);
      return NotInvertible;
    }
    ComboIsMul(inv[0], m0, y, p);
    MulComm(inv[0], y, p);
    InvertibleCoprime(y, inv[0], w, p);
    r := Inverted(inv[0]);
  }
}
