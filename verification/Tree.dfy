/**
 The directory tree of the metadata stress test (`benchmarks/mstress/mstress_client.cc`).
 A node is named by the child numbers on the way to it. The recursive creator and the
 index decoder of the delete loop must name the same leaves.
 */
module Tree {
  import opened Lists

  /** A path from the base directory: child numbers, topmost first. */
  type Node = seq<nat>

  function Power(n: nat, m: nat): nat {
    if m == 0 then 1 else n * Power(n, m - 1)
  }

  /** `n + n^2 + ... + n^m`, the plan's node count. */
  function Total(n: nat, m: nat): nat {
    if m == 0 then 0 else Total(n, m - 1) + Power(n, m)
  }

  ghost predicate InTree(e: Node, n: nat) {
    forall i :: 0 <= i < |e| ==> e[i] < n
  }

  // ----- names

  function Digit(d: nat): char
    requires d < 10
  {
    '0' + d as char
  }

  function Itoa(n: nat): string {
    if n < 10 then [Digit(n)] else Itoa(n / 10) + [Digit(n % 10)]
  }

  lemma {:induction false} ItoaDigits(n: nat)
    ensures |Itoa(n)| > 0 && '/' !in Itoa(n)
  {
    if n >= 10 { ItoaDigits(n / 10); }
  }

  /** The number a string of decimal digits stands for. */
  function ReadDecimal(s: string): int {
    if |s| == 0 then 0 else 10 * ReadDecimal(s[..|s| - 1]) + (s[|s| - 1] as int - '0' as int)
  }

  /** A name is the number in decimal: digits only, read back as itself, no leading zero. */
  lemma {:induction false} ItoaIsDecimal(n: nat)
    ensures forall c :: c in Itoa(n) ==> '0' <= c <= '9'
    ensures ReadDecimal(Itoa(n)) == n && |Itoa(n)| > 0
    ensures |Itoa(n)| > 1 ==> Itoa(n)[0] != '0'
  {
    if n >= 10 {
      ItoaIsDecimal(n / 10);
      var s := Itoa(n / 10);
      assert Itoa(n)[..|s|] == s;
      if |s| == 1 { assert n / 10 == ReadDecimal(s) == s[0] as int - '0' as int; }
    }
  }

  lemma {:induction false} ItoaInjective(m: nat, n: nat)
    requires Itoa(m) == Itoa(n)
    ensures m == n
  {
    var a, b := Itoa(m), Itoa(n);
    assert a[|a| - 1] == b[|b| - 1];
    assert a[|a| - 1] == Digit(m % 10) && b[|b| - 1] == Digit(n % 10);
    if m >= 10 { ItoaDigits(m / 10); }
    if n >= 10 { ItoaDigits(n / 10); }
    if m >= 10 && n >= 10 {
      assert Itoa(m / 10) == a[..|a| - 1] && Itoa(n / 10) == b[..|b| - 1];
      ItoaInjective(m / 10, n / 10);
    }
  }

  function Name(prefix: string, d: nat): string {
    prefix + Itoa(d)
  }

  /** What a node adds to the base directory's path. */
  function Suffix(prefix: string, e: Node): string {
    if |e| == 0 then "" else "/" + Name(prefix, e[0]) + Suffix(prefix, e[1..])
  }

  lemma {:induction false} SuffixSnoc(prefix: string, e: Node, d: nat)
    ensures Suffix(prefix, e + [d]) == Suffix(prefix, e) + "/" + Name(prefix, d)
  {
    if |e| == 0 {
      assert (e + [d])[1..] == [];
    } else {
      assert (e + [d])[1..] == e[1..] + [d];
      SuffixSnoc(prefix, e[1..], d);
    }
  }

  lemma {:induction false} CutAtSlash(a: string, x: string, b: string, y: string)
    requires a + x == b + y && '/' !in a && '/' !in b
    requires (x == "" || x[0] == '/') && (y == "" || y[0] == '/')
    ensures a == b && x == y
  {
    var s := a + x;
    assert s == b + y;
    assert forall k :: 0 <= k < |a| ==> s[k] == a[k] && a[k] in a;
    assert forall k :: 0 <= k < |b| ==> s[k] == b[k] && b[k] in b;
    assert (|x| > 0 ==> s[|a|] == '/') && (|y| > 0 ==> s[|b|] == '/');
    assert |a| == |b|;
    assert a == s[..|a|] == b;
    assert x == s[|a|..] == y;
  }

  lemma {:induction false} SuffixStep(prefix: string, e: Node)
    ensures |e| == 0 ==> Suffix(prefix, e) == ""
    ensures |e| > 0 ==> Suffix(prefix, e) == "/" + prefix + (Itoa(e[0]) + Suffix(prefix, e[1..]))
    ensures Suffix(prefix, e) == "" || Suffix(prefix, e)[0] == '/'
  {
    hide Itoa;
    if |e| > 0 { Associate("/", prefix, Itoa(e[0]), Suffix(prefix, e[1..])); }
  }

  lemma {:induction false} Associate(a: string, b: string, c: string, d: string)
    ensures a + (b + c) + d == a + b + (c + d)
  {
  }

  lemma {:induction false} Strip(p: string, a: string, b: string)
    requires p + a == p + b
    ensures a == b
  {
    assert a == (p + a)[|p|..];
    assert b == (p + b)[|p|..];
  }

  /** Different nodes have different paths, whatever the prefix is. */
  lemma {:induction false} SuffixInjective(prefix: string, e: Node, f: Node)
    requires Suffix(prefix, e) == Suffix(prefix, f)
    ensures e == f
    decreases |e|
  {
    hide Suffix, Itoa;
    SuffixStep(prefix, e); SuffixStep(prefix, f);
    if |e| > 0 && |f| > 0 {
      var x, y := Suffix(prefix, e[1..]), Suffix(prefix, f[1..]);
      Strip("/" + prefix, Itoa(e[0]) + x, Itoa(f[0]) + y);
      ItoaDigits(e[0]); ItoaDigits(f[0]);
      SuffixStep(prefix, e[1..]); SuffixStep(prefix, f[1..]);
      CutAtSlash(Itoa(e[0]), x, Itoa(f[0]), y);
      ItoaInjective(e[0], f[0]);
      SuffixInjective(prefix, e[1..], f[1..]);
      assert e == [e[0]] + e[1..] && f == [f[0]] + f[1..];
    }
  }

  // ----- what the creator visits

  /** Preorder of everything below `e`, from child `i` on; `levels` is the height of the tree. */
  function Under(e: Node, i: nat, n: nat, levels: nat): seq<Node>
    decreases levels - |e|, n - i
  {
    if i >= n then []
    else [e + [i]] + (if |e| + 1 < levels then Under(e + [i], 0, n, levels) else []) + Under(e, i + 1, n, levels)
  }

  lemma {:induction false} TotalStep(n: nat, m: nat)
    ensures Total(n, m + 1) == n * (1 + Total(n, m))
  {
    if m > 0 {
      TotalStep(n, m - 1);
      calc {
        n * (1 + Total(n, m));
        n * (1 + Total(n, m - 1) + Power(n, m));
        { Distribute(n, 1 + Total(n, m - 1), Power(n, m)); }
        n * (1 + Total(n, m - 1)) + n * Power(n, m);
      }
    } else {
      assert Power(n, 1) == n * Power(n, 0);
    }
  }

  lemma {:induction false} Distribute(a: int, b: int, c: int)
    ensures a * (b + c) == a * b + a * c
  {
  }

  lemma {:induction false} OneMore(k: nat, b: nat)
    ensures (k + 1) * b == b + k * b
  {
  }

  function Inner(e: Node, i: nat, n: nat, levels: nat): seq<Node> {
    if |e| + 1 < levels then Under(e + [i], 0, n, levels) else []
  }

  lemma {:induction false} UnderStep(e: Node, i: nat, n: nat, levels: nat)
    requires i < n
    ensures Under(e, i, n, levels) == [e + [i]] + Inner(e, i, n, levels) + Under(e, i + 1, n, levels)
  {
  }

  lemma {:induction false} UnderEnd(e: Node, n: nat, levels: nat)
    ensures Under(e, n, n, levels) == []
  {
  }

  /** The creator makes `n + n^2 + ... + n^levels` nodes. */
  lemma {:induction false} UnderCount(e: Node, i: nat, n: nat, levels: nat)
    requires |e| < levels && i <= n
    ensures |Under(e, i, n, levels)| == (n - i) * (1 + Total(n, levels - |e| - 1))
    ensures i == 0 ==> |Under(e, i, n, levels)| == Total(n, levels - |e|)
    decreases levels - |e|, n - i
  {
    hide Under;
    var below := Total(n, levels - |e| - 1);
    UnderEnd(e, n, levels);
    TotalStep(n, levels - |e| - 1);
    if i < n {
      UnderCount(e, i + 1, n, levels);
      if |e| + 1 < levels { UnderCount(e + [i], 0, n, levels); }
      UnderStep(e, i, n, levels);
      OneMore(n - i - 1, 1 + below);
    }
  }

  ghost predicate Below(f: Node, e: Node, i: nat, n: nat, levels: nat) {
    && |e| < |f| <= levels && f[..|e|] == e && i <= f[|e|]
    && forall k :: |e| <= k < |f| ==> f[k] < n
  }

  lemma {:induction false} UnderCases(e: Node, i: nat, n: nat, levels: nat, f: Node)
    requires f in Under(e, i, n, levels)
    ensures i < n && (f == e + [i] || f in Inner(e, i, n, levels) || f in Under(e, i + 1, n, levels))
  {
  }

  lemma {:induction false} UnderBelow(e: Node, i: nat, n: nat, levels: nat, f: Node)
    requires |e| < levels && f in Under(e, i, n, levels)
    ensures Below(f, e, i, n, levels)
    decreases levels - |e|, n - i
  {
    hide Under;
    var child := e + [i];
    UnderCases(e, i, n, levels, f);
    if f != child {
      if |e| + 1 < levels && f in Under(child, 0, n, levels) {
        UnderBelow(child, 0, n, levels, f);
        assert f[..|e|] == f[..|child|][..|e|] == e;
        assert f[|e|] == f[..|child|][|e|] == i;
      } else {
        UnderBelow(e, i + 1, n, levels, f);
      }
    }
  }

  lemma {:induction false} BelowUnder(e: Node, i: nat, n: nat, levels: nat, f: Node)
    requires Below(f, e, i, n, levels)
    ensures f in Under(e, i, n, levels)
    decreases levels - |e|, n - i
  {
    hide Under;
    var child := e + [i];
    UnderStep(e, i, n, levels);
    if f[|e|] > i {
      BelowUnder(e, i + 1, n, levels, f);
    } else if |f| == |child| {
      assert f == child;
    } else {
      assert f[..|child|] == child;
      BelowUnder(child, 0, n, levels, f);
      assert f in Inner(e, i, n, levels);
    }
  }

  /** No node is visited twice. */
  lemma {:induction false} UnderDistinct(e: Node, i: nat, n: nat, levels: nat)
    requires |e| < levels
    ensures Distinct(Under(e, i, n, levels))
    decreases levels - |e|, n - i
  {
    if i < n {
      var child := e + [i];
      var inner := if |e| + 1 < levels then Under(child, 0, n, levels) else [];
      var later := Under(e, i + 1, n, levels);
      UnderDistinct(e, i + 1, n, levels);
      if |e| + 1 < levels { UnderDistinct(child, 0, n, levels); }
      forall x | x in [child] ensures x !in inner {
        if x in inner { UnderBelow(child, 0, n, levels, x); }
      }
      DistinctConcat([child], inner);
      forall x | x in [child] + inner ensures x !in later {
        if x in later { UnderBelow(e, i + 1, n, levels, x); }
        if x in inner { UnderBelow(child, 0, n, levels, x); assert x[|e|] == x[..|child|][|e|]; }
      }
      DistinctConcat([child] + inner, later);
    }
  }

  /** Preorder of nodes: a node before what is below it, and siblings by number. */
  predicate Before(a: Node, b: Node) {
    |b| > 0 && (|a| == 0 || a[0] < b[0] || (a[0] == b[0] && Before(a[1..], b[1..])))
  }

  lemma {:induction false} BeforeSame(e: Node, a: Node, b: Node)
    ensures Before(e + a, e + b) == Before(a, b)
    decreases |e|
  {
    if |e| == 0 {
      assert e + a == a && e + b == b;
    } else {
      assert (e + a)[1..] == e[1..] + a && (e + b)[1..] == e[1..] + b;
      BeforeSame(e[1..], a, b);
    }
  }

  ghost predicate Ordered(s: seq<Node>) {
    forall j, k :: 0 <= j < k < |s| ==> Before(s[j], s[k])
  }

  lemma {:induction false} OrderedConcat(a: seq<Node>, b: seq<Node>)
    requires Ordered(a) && Ordered(b) && forall x, y :: x in a && y in b ==> Before(x, y)
    ensures Ordered(a + b)
  {
    forall j, k | 0 <= j < k < |a + b| ensures Before((a + b)[j], (a + b)[k]) {
      if j < |a| <= k { assert a[j] in a && b[k - |a|] in b; }
    }
  }

  /** Nodes are visited in preorder, so each directory before what goes into it. */
  lemma {:induction false} UnderOrdered(e: Node, i: nat, n: nat, levels: nat)
    requires |e| < levels
    ensures Ordered(Under(e, i, n, levels))
    decreases levels - |e|, n - i
  {
    if i < n {
      hide Under, Before;
      var child := e + [i];
      var inner, later := Inner(e, i, n, levels), Under(e, i + 1, n, levels);
      UnderStep(e, i, n, levels);
      UnderOrdered(e, i + 1, n, levels);
      if |e| + 1 < levels { UnderOrdered(child, 0, n, levels); }
      forall x, y | x in [child] && y in inner ensures Before(x, y) {
        UnderBelow(child, 0, n, levels, y);
        AncestorBefore(child, y);
      }
      OrderedConcat([child], inner);
      forall x, y | x in [child] + inner && y in later ensures Before(x, y) {
        UnderBelow(e, i + 1, n, levels, y);
        if x in inner { UnderBelow(child, 0, n, levels, x); assert x[|e|] == x[..|child|][|e|] && x[..|e|] == x[..|child|][..|e|]; }
        SiblingBefore(e, x, y);
      }
      OrderedConcat([child] + inner, later);
    } else {
      assert Under(e, i, n, levels) == [];
    }
  }

  lemma {:induction false} AncestorBefore(a: Node, b: Node)
    requires |a| < |b| && b[..|a|] == a
    ensures Before(a, b)
  {
    assert b == a + b[|a|..] && a == a + [];
    BeforeSame(a, [], b[|a|..]);
  }

  lemma {:induction false} SiblingBefore(e: Node, a: Node, b: Node)
    requires |e| < |a| && |e| < |b| && a[..|e|] == e == b[..|e|] && a[|e|] < b[|e|]
    ensures Before(a, b)
  {
    assert a == e + a[|e|..] && b == e + b[|e|..];
    BeforeSame(e, a[|e|..], b[|e|..]);
  }

  // ----- leaves and their indices

  /** The delete loop's decoding of an index: `m` digits in base `n`, lowest last. */
  function Digits(k: nat, m: nat, n: nat): (e: Node)
    requires n > 0
    ensures |e| == m
    decreases m
  {
    if m == 0 then [] else Digits(k / n, m - 1, n) + [k % n]
  }

  function Index(e: Node, n: nat): nat {
    if |e| == 0 then 0 else n * Index(e[..|e| - 1], n) + e[|e| - 1]
  }

  lemma {:induction false} DivUnique(n: nat, q: nat, r: nat)
    requires r < n
    ensures (n * q + r) / n == q && (n * q + r) % n == r
  {
    var x := n * q + r;
    assert x == n * (x / n) + x % n;
    if x / n < q {
      Distribute(n, x / n, q - x / n); AtLeast(n, q - x / n);
    } else if x / n > q {
      Distribute(n, q, x / n - q); AtLeast(n, x / n - q);
    }
  }

  lemma {:induction false} AtLeast(n: nat, d: nat)
    requires d > 0
    ensures n * d >= n
  {
    Distribute(n, d - 1, 1);
  }

  lemma {:induction false} DigitsInTree(k: nat, m: nat, n: nat)
    requires n > 0
    ensures InTree(Digits(k, m, n), n)
    decreases m
  {
    if m > 0 { DigitsInTree(k / n, m - 1, n); }
  }

  lemma {:induction false} DigitsIndex(k: nat, m: nat, n: nat)
    requires n > 0 && k < Power(n, m)
    ensures Index(Digits(k, m, n), n) == k
    decreases m
  {
    hide Index;
    if m > 0 {
      Quotient(k, n, Power(n, m - 1));
      DigitsIndex(k / n, m - 1, n);
      IndexSnoc(Digits(k / n, m - 1, n), k % n, n);
    } else {
      IndexEmpty(n);
    }
  }

  lemma {:induction false} IndexSnoc(e: Node, d: nat, n: nat)
    ensures Index(e + [d], n) == n * Index(e, n) + d
  {
    assert (e + [d])[..|e|] == e;
  }

  lemma {:induction false} IndexEmpty(n: nat)
    ensures Index([], n) == 0
  {
  }

  lemma {:induction false} Quotient(k: nat, n: nat, c: nat)
    requires n > 0 && k < n * c
    ensures k / n < c
  {
    if k / n >= c {
      Distribute(n, c, k / n - c);
      if k / n > c { AtLeast(n, k / n - c); }
    }
  }

  lemma {:induction false} IndexDigits(e: Node, n: nat)
    requires n > 0 && InTree(e, n)
    ensures Index(e, n) < Power(n, |e|) && Digits(Index(e, n), |e|, n) == e
    decreases |e|
  {
    if |e| > 0 {
      var pre := e[..|e| - 1];
      IndexDigits(pre, n);
      DivUnique(n, Index(pre, n), e[|e| - 1]);
      IndexFits(Index(pre, n), e[|e| - 1], n, Power(n, |pre|));
      assert e == pre + [e[|e| - 1]];
    }
  }

  lemma {:induction false} IndexFits(q: nat, d: nat, n: nat, c: nat)
    requires q < c && d < n
    ensures n * q + d < n * c
  {
    Distribute(n, q, c - q);
    AtLeast(n, c - q);
  }

  /** Filter: the nodes at full depth. */
  function Leaves(s: seq<Node>, levels: nat): seq<Node> {
    if |s| == 0 then []
    else (if |s[0]| == levels then [s[0]] else []) + Leaves(s[1..], levels)
  }

  lemma {:induction false} LeavesConcat(a: seq<Node>, b: seq<Node>, levels: nat)
    ensures Leaves(a + b, levels) == Leaves(a, levels) + Leaves(b, levels)
  {
    if |a| == 0 {
      assert a + b == b;
    } else {
      assert (a + b)[1..] == a[1..] + b;
      LeavesConcat(a[1..], b, levels);
    }
  }

  /** `i * (n*c) + k` divided by `n`, where `k` is `n*q + r`. */
  lemma {:induction false} LowDigit(i: nat, n: nat, c: nat, q: nat, r: nat, x: nat)
    requires r < n && x == i * (n * c) + (n * q + r)
    ensures x / n == i * c + q && x % n == r
  {
    Swap(i, n, c);
    Distribute(n, i * c, q);
    Parts(n, i * c + q, r, x);
  }

  lemma {:induction false} Swap(i: nat, n: nat, c: nat)
    ensures i * (n * c) == n * (i * c)
  {
  }

  lemma {:induction false} Parts(n: nat, q: nat, r: nat, x: nat)
    requires r < n && x == n * q + r
    ensures x / n == q && x % n == r
  {
    DivUnique(n, q, r);
  }

  lemma {:induction false} DigitsShift(i: nat, x: nat, k: nat, m: nat, n: nat)
    requires n > 0 && m > 0 && x % n == k % n && Digits(x / n, m, n) == [i] + Digits(k / n, m - 1, n)
    ensures Digits(x, m + 1, n) == [i] + Digits(k, m, n)
  {
    hide Digits;
    DigitsStep(k, m, n); DigitsStep(x, m + 1, n);
    assert [i] + Digits(k / n, m - 1, n) + [k % n] == [i] + (Digits(k / n, m - 1, n) + [k % n]);
  }

  lemma {:induction false} PowerStep(n: nat, m: nat)
    ensures Power(n, m) == if m == 0 then 1 else n * Power(n, m - 1)
  {
  }

  lemma {:induction false} DigitsStep(k: nat, m: nat, n: nat)
    requires n > 0
    ensures Digits(k, m, n) == if m == 0 then [] else Digits(k / n, m - 1, n) + [k % n]
  {
  }

  lemma {:induction false} TopDigit(i: nat, k: nat, m: nat, n: nat)
    requires i < n && k < Power(n, m)
    ensures Digits(i * Power(n, m) + k, m + 1, n) == [i] + Digits(k, m, n)
    decreases m
  {
    hide Digits, Power;
    PowerStep(n, m);
    if m == 0 {
      DivUnique(n, 0, i);
      DigitsStep(i, 1, n); DigitsStep(i / n, 0, n); DigitsStep(k, 0, n);
    } else {
      Quotient(k, n, Power(n, m - 1));
      var x := i * Power(n, m) + k;
      LowDigit(i, n, Power(n, m - 1), k / n, k % n, x);
      TopDigit(i, k / n, m - 1, n);
      DigitsShift(i, x, k, m, n);
    }
  }

  /** One child: itself if it is a leaf, otherwise all leaves below it. */
  function ChildLeaves(e: Node, i: nat, n: nat, levels: nat): seq<Node> {
    Leaves([e + [i]] + Inner(e, i, n, levels), levels)
  }

  lemma {:induction false} LeavesStep(e: Node, i: nat, n: nat, levels: nat)
    requires i < n
    ensures Leaves(Under(e, i, n, levels), levels) == ChildLeaves(e, i, n, levels) + Leaves(Under(e, i + 1, n, levels), levels)
  {
    UnderStep(e, i, n, levels);
    LeavesConcat([e + [i]] + Inner(e, i, n, levels), Under(e, i + 1, n, levels), levels);
  }

  lemma {:induction false} ChildLeavesAre(e: Node, i: nat, n: nat, levels: nat)
    requires |e| < levels
    ensures |e| + 1 == levels ==> ChildLeaves(e, i, n, levels) == [e + [i]]
    ensures |e| + 1 < levels ==> ChildLeaves(e, i, n, levels) == Leaves(Under(e + [i], 0, n, levels), levels)
  {
    LeavesConcat([e + [i]], Inner(e, i, n, levels), levels);
    assert Leaves([e + [i]], levels) == if |e| + 1 == levels then [e + [i]] else [];
  }

  /** Counted from child `i`, the `k`-th leaf below `e` is the decoding of `i * n^m + k`. */
  lemma {:induction false} LeafOrder(e: Node, i: nat, n: nat, levels: nat)
    requires |e| < levels && i <= n && n > 0
    ensures |Leaves(Under(e, i, n, levels), levels)| == (n - i) * Power(n, levels - |e| - 1)
    ensures forall k :: 0 <= k < |Leaves(Under(e, i, n, levels), levels)| ==>
              Leaves(Under(e, i, n, levels), levels)[k] == e + Digits(i * Power(n, levels - |e| - 1) + k, levels - |e|, n)
    decreases levels - |e|, n - i
  {
    hide Under, Leaves, Digits, Power, ChildLeaves;
    var m: nat := levels - |e| - 1;
    var c := Power(n, m);
    UnderEnd(e, n, levels);
    LeavesNone(levels);
    if i < n {
      var all, first := Leaves(Under(e, i, n, levels), levels), ChildLeaves(e, i, n, levels);
      LeavesStep(e, i, n, levels);
      LeafOrder(e, i + 1, n, levels);
      FirstChild(e, i, n, levels);
      OneMore(n - i - 1, c);
      forall k | 0 <= k < |all| ensures all[k] == e + Digits(i * c + k, m + 1, n) {
        if k < c {
          assert all[k] == first[k];
        } else {
          OneMore(i, c);
          assert all[k] == Leaves(Under(e, i + 1, n, levels), levels)[k - c];
        }
      }
    }
  }

  lemma {:induction false} LeavesNone(levels: nat)
    ensures Leaves([], levels) == []
  {
  }

  lemma {:induction false} FirstChild(e: Node, i: nat, n: nat, levels: nat)
    requires |e| < levels && i < n
    ensures |ChildLeaves(e, i, n, levels)| == Power(n, levels - |e| - 1)
    ensures forall k :: 0 <= k < |ChildLeaves(e, i, n, levels)| ==>
              ChildLeaves(e, i, n, levels)[k] == e + Digits(i * Power(n, levels - |e| - 1) + k, levels - |e|, n)
    decreases levels - |e|, n - i, 0
  {
    hide Under, Leaves, Digits, ChildLeaves;
    var m: nat := levels - |e| - 1;
    ChildLeavesAre(e, i, n, levels);
    if m == 0 {
      TopDigit(i, 0, 0, n);
      NoDigits(n);
    } else {
      LeafOrder(e + [i], 0, n, levels);
      forall k | 0 <= k < Power(n, m) ensures ChildLeaves(e, i, n, levels)[k] == e + Digits(i * Power(n, m) + k, m + 1, n) {
        TopDigit(i, k, m, n);
        assert e + [i] + Digits(k, m, n) == e + ([i] + Digits(k, m, n));
      }
    }
  }

  lemma {:induction false} NoDigits(n: nat)
    requires n > 0
    ensures Digits(0, 0, n) == []
  {
  }

  /** The creator's `k`-th leaf is the one the delete loop decodes from `k`. */
  lemma {:induction false} LeafIsDecoded(n: nat, levels: nat, k: nat)
    requires n > 0 && levels > 0 && k < Power(n, levels)
    ensures var leaves := Leaves(Under([], 0, n, levels), levels);
            |leaves| == Power(n, levels) && leaves[k] == Digits(k, levels, n)
  {
    LeafOrder([], 0, n, levels);
    assert n * Power(n, levels - 1) == Power(n, levels);
    assert [] + Digits(k, levels, n) == Digits(k, levels, n);
  }

  /** The creator visits exactly the nodes of the tree. */
  lemma {:induction false} UnderIsTree(n: nat, levels: nat, e: Node)
    requires levels > 0
    ensures e in Under([], 0, n, levels) <==> 1 <= |e| <= levels && InTree(e, n)
  {
    if e in Under([], 0, n, levels) {
      UnderBelow([], 0, n, levels, e);
    }
    if 1 <= |e| <= levels && InTree(e, n) {
      assert e[..0] == [];
      BelowUnder([], 0, n, levels, e);
    }
  }

  /** Decoding is a bijection between indices and leaves. */
  lemma {:induction false} DecodingIsBijective(n: nat, levels: nat, j: nat, k: nat, e: Node)
    requires n > 0 && j < Power(n, levels) && k < Power(n, levels)
    ensures Digits(j, levels, n) == Digits(k, levels, n) ==> j == k
    ensures |Digits(k, levels, n)| == levels && InTree(Digits(k, levels, n), n)
    ensures |e| == levels && InTree(e, n) ==> Index(e, n) < Power(n, levels) && Digits(Index(e, n), levels, n) == e
  {
    DigitsIndex(j, levels, n);
    DigitsIndex(k, levels, n);
    DigitsInTree(k, levels, n);
    if |e| == levels && InTree(e, n) { IndexDigits(e, n); }
  }
}
