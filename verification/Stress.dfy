/**
 The stress-test client itself: the shared path, the recursive creator and the delete loop
 of `benchmarks/mstress/mstress_client.cc`, against a file system that refuses to create a
 path twice and to remove an absent one or one of the wrong kind.
 */
module Stress {
  import opened Lists
  import opened Tree

  // ----- the shared path, on values

  function Pushed(path: string, leaf: string): string {
    if |leaf| == 0 then path
    else if leaf[0] != '/' then path + "/" + leaf
    else path + leaf
  }

  /** Whether `Pop` accepts; otherwise the program exits. */
  predicate CanPop(path: string, leaf: string) {
    |leaf| < |path| && path[|path| - |leaf| - 1] == '/' && path[|path| - |leaf|..] == leaf
  }

  function Popped(path: string, leaf: string): string
    requires CanPop(path, leaf)
  {
    path[..|path| - |leaf| - 1]
  }

  /** `Pop` accepts exactly the paths that end in a slash and the name, and returns what is before. */
  lemma PopExact(path: string, leaf: string)
    ensures CanPop(path, leaf) <==> exists q: string :: path == q + "/" + leaf
    ensures forall q: string :: path == q + "/" + leaf ==> CanPop(path, leaf) && Popped(path, leaf) == q
  {
    forall q: string | path == q + "/" + leaf ensures CanPop(path, leaf) && Popped(path, leaf) == q {
      assert path[|path| - |leaf|..] == leaf && path[..|path| - |leaf| - 1] == q;
    }
    if CanPop(path, leaf) { assert path == Popped(path, leaf) + "/" + leaf; }
  }

  /** `Pop` undoes `Push` exactly for names that are not empty and do not start with a slash. */
  lemma PopUndoesPush(path: string, leaf: string)
    ensures CanPop(Pushed(path, leaf), leaf) && Popped(Pushed(path, leaf), leaf) == path
            <==> |leaf| > 0 && leaf[0] != '/'
  {
    var p := Pushed(path, leaf);
    if |leaf| > 0 && leaf[0] != '/' {
      assert p[|p| - |leaf|..] == leaf;
      assert p[..|p| - |leaf| - 1] == path;
    }
  }

  /** Distinct numbers below `n`, `n` of them: all of them. */
  lemma {:induction false} AllIndices(ks: seq<nat>, n: nat, k: nat)
    requires Distinct(ks) && |ks| == n && k < n && forall j :: j in ks ==> j < n
    ensures k in ks
  {
    if k !in ks {
      assert forall j :: 0 <= j < |ks| ==> ks[j] in ks;
      Pigeonhole([k] + ks, n);
    }
  }

  lemma {:induction false} Prepend(prefix: string, d: nat, tail: Node, soFar: string)
    requires Suffix(prefix, tail) == if |tail| == 0 then soFar else "/" + soFar
    ensures |Name(prefix, d)| > 0
    ensures Suffix(prefix, [d] + tail) == "/" + if |tail| == 0 then Name(prefix, d) else Name(prefix, d) + "/" + soFar
  {
    hide Itoa;
    ItoaDigits(d);
    assert ([d] + tail)[1..] == tail;
  }

  lemma {:induction false} ChildDistinct(e: Node, i: nat, n: nat, levels: nat)
    requires |e| < levels && i < n
    ensures Distinct([e + [i]] + Inner(e, i, n, levels) + [])
  {
    hide Under, Inner;
    UnderDistinct(e, i, n, levels);
    UnderStep(e, i, n, levels);
    var here, later := [e + [i]] + Inner(e, i, n, levels), Under(e, i + 1, n, levels);
    assert here + [] == here;
    assert forall k :: 0 <= k < |here| ==> here[k] == (here + later)[k];
  }

  lemma InnerIs(e: Node, i: nat, n: nat, levels: nat)
    ensures Inner(e, i, n, levels) == if |e| + 1 < levels then Under(e + [i], 0, n, levels) else []
  {
  }

  lemma {:induction false} NoChildren(levels: nat)
    requires levels > 0
    ensures Power(0, levels) == 0
  {
  }

  /** The directories on the way to `path`, up to its first `i` characters. */
  function DirsUpTo(path: string, i: nat): set<string>
    requires i <= |path|
  {
    set j | 0 < j <= i && (j == |path| || path[j] == '/') :: path[..j]
  }

  function Dirs(path: string): set<string> {
    DirsUpTo(path, |path|)
  }

  /** The directories on the way are the path itself and what is before one of its slashes. */
  lemma DirsExact(path: string, p: string)
    ensures p in Dirs(path) <==> p != "" && (p == path || exists rest: string :: path == p + "/" + rest)
  {
    if p in Dirs(path) {
      var j :| 0 < j <= |path| && (j == |path| || path[j] == '/') && p == path[..j];
      if j < |path| { assert path == p + "/" + path[j + 1..]; } else { assert p == path; }
    }
    if p != "" && p == path { assert path == path[..|path|]; }
    if rest: string :| p != "" && path == p + "/" + rest { assert p == path[..|p|] && path[|p|] == '/'; }
  }

  /** Existing nodes keep their kind, missing ones become directories. */
  function WithDirs(nodes: map<string, bool>, ds: set<string>): map<string, bool> {
    map p | p in nodes.Keys + ds :: if p in nodes then nodes[p] else true
  }

  /** The file system: what exists, and whether it is a directory. */
  class FileSystem {
    var nodes: map<string, bool>

    method Make(path: string, isDir: bool) returns (rc: int)
      modifies this
      ensures path in old(nodes) ==> rc < 0 && nodes == old(nodes)
      ensures path !in old(nodes) ==> rc == 0 && nodes == old(nodes)[path := isDir]
    {
      if path in nodes {
        return -17;
      }
      nodes := nodes[path := isDir];
      return 0;
    }

    /** `Mkdirs`: every missing directory on the way; a file in the way is an error. */
    method Mkdirs(path: string) returns (err: int)
      modifies this
      ensures err == -20 || err == if path in old(nodes) then -17 else 0
      ensures err != -20 <==> forall p :: p in Dirs(path) && p in old(nodes) ==> old(nodes)[p]
      ensures err != -20 ==> nodes == WithDirs(old(nodes), Dirs(path))
      ensures err == -20 ==> exists i :: 0 <= i < |path| && nodes == WithDirs(old(nodes), DirsUpTo(path, i))
                                         && path[..i + 1] in old(nodes) && !old(nodes)[path[..i + 1]]
    {
      ghost var nodes0 := nodes;
      assert nodes == WithDirs(nodes0, DirsUpTo(path, 0));
      err := if path in nodes then -17 else 0;
      for i := 0 to |path|
        invariant err == if path in nodes0 then -17 else 0
        invariant nodes == WithDirs(nodes0, DirsUpTo(path, i))
        invariant forall p :: p in DirsUpTo(path, i) && p in nodes0 ==> nodes0[p]
      {
        var d := path[..i + 1];
        DirsStep(path, i);
        if i + 1 == |path| || path[i + 1] == '/' {
          if d in nodes {
            if !nodes[d] {
              NotYet(nodes0, path, i);
              assert d in Dirs(path);
              return -20;
            }
          } else {
            nodes := nodes[d := true];
          }
        }
        WithDirsStep(nodes0, path, i);
      }
    }

    method Unmake(path: string, isDir: bool) returns (err: int)
      modifies this
      ensures path in old(nodes) && old(nodes)[path] == isDir ==> err == 0 && nodes == old(nodes) - {path}
      ensures !(path in old(nodes) && old(nodes)[path] == isDir) ==> err < 0 && nodes == old(nodes)
    {
      if path !in nodes || nodes[path] != isDir {
        return -2;
      }
      nodes := nodes - {path};
      return 0;
    }
  }

  lemma DirsStep(path: string, i: nat)
    requires i < |path|
    ensures DirsUpTo(path, i + 1)
            == if i + 1 == |path| || path[i + 1] == '/' then DirsUpTo(path, i) + {path[..i + 1]} else DirsUpTo(path, i)
  {
  }

  /** What was added on the way is a directory, so a file in the way was there before. */
  lemma NotYet(nodes: map<string, bool>, path: string, i: nat)
    requires i < |path|
    ensures var d, now := path[..i + 1], WithDirs(nodes, DirsUpTo(path, i));
            d in now && !now[d] ==> d in nodes && !nodes[d]
  {
  }

  lemma WithDirsStep(nodes: map<string, bool>, path: string, i: nat)
    requires i < |path|
    ensures var d, now := path[..i + 1], WithDirs(nodes, DirsUpTo(path, i));
            WithDirs(nodes, DirsUpTo(path, i + 1))
            == if (i + 1 == |path| || path[i + 1] == '/') && d !in now then now[d := true] else now
  {
    DirsStep(path, i);
  }

  /** What the test is configured with. */
  datatype Plan = Plan(base: string, prefix: string, levels: nat, inodes: nat, leafDir: bool) {
    predicate Ok() {
      levels > 0 && |base| > 0 && base[0] == '/' && (|prefix| > 0 ==> prefix[0] != '/')
    }

    function PathOf(e: Node): string {
      base + Suffix(prefix, e)
    }

    function IsDir(e: Node): bool {
      |e| < levels || leafDir
    }

    /** The file system once `es` have been made in it. */
    function Grown(nodes: map<string, bool>, es: seq<Node>): map<string, bool>
      decreases |es|
    {
      if |es| == 0 then nodes
      else Grown(nodes[PathOf(es[0]) := IsDir(es[0])], es[1..])
    }

    lemma {:induction false} GrownConcat(nodes: map<string, bool>, a: seq<Node>, b: seq<Node>)
      ensures Grown(nodes, a + b) == Grown(Grown(nodes, a), b)
      decreases |a|
    {
      if |a| == 0 {
        assert a + b == b;
      } else {
        assert (a + b)[1..] == a[1..] + b;
        GrownConcat(nodes[PathOf(a[0]) := IsDir(a[0])], a[1..], b);
      }
    }

    lemma PathInjective(e: Node, f: Node)
      requires PathOf(e) == PathOf(f)
      ensures e == f
    {
      Strip(base, Suffix(prefix, e), Suffix(prefix, f));
      SuffixInjective(prefix, e, f);
    }

    lemma NextPath(e: Node, i: nat)
      requires Ok()
      ensures var name := Name(prefix, i);
              && Pushed(PathOf(e), name) == PathOf(e + [i])
              && CanPop(PathOf(e + [i]), name) && Popped(PathOf(e + [i]), name) == PathOf(e)
    {
      var name := Name(prefix, i);
      ItoaDigits(i);
      SuffixSnoc(prefix, e, i);
      assert name[0] != '/' by {
        if |prefix| == 0 { assert name == Itoa(i); assert name[0] in Itoa(i); }
      }
      assert PathOf(e) + "/" + name == PathOf(e + [i]);
      PopUndoesPush(PathOf(e), name);
    }

    /** None of `es` exists yet. */
    ghost predicate Clear(nodes: map<string, bool>, es: seq<Node>) {
      forall k :: 0 <= k < |es| ==> PathOf(es[k]) !in nodes
    }

    lemma {:induction false} GrownKeys(nodes: map<string, bool>, es: seq<Node>, p: string)
      ensures p in Grown(nodes, es) <==> p in nodes || exists k :: 0 <= k < |es| && p == PathOf(es[k])
      ensures p in nodes && (forall k :: 0 <= k < |es| ==> p != PathOf(es[k])) ==> Grown(nodes, es)[p] == nodes[p]
      decreases |es|
    {
      if |es| > 0 {
        var next := nodes[PathOf(es[0]) := IsDir(es[0])];
        GrownKeys(next, es[1..], p);
        forall k | 0 <= k < |es| ensures k > 0 ==> es[k] == es[1..][k - 1] {}
        if k :| 0 <= k < |es[1..]| && p == PathOf(es[1..][k]) { assert es[k + 1] == es[1..][k]; }
      }
    }

    lemma GrownNone(nodes: map<string, bool>)
      ensures Grown(nodes, []) == nodes && Clear(nodes, [])
    {
    }

    lemma {:induction false} GrownSingle(nodes: map<string, bool>, e: Node)
      ensures Grown(nodes, [e]) == nodes[PathOf(e) := IsDir(e)]
      ensures Clear(nodes, [e]) <==> PathOf(e) !in nodes
    {
      assert [e][1..] == [];
      GrownNone(nodes[PathOf(e) := IsDir(e)]);
    }

    /**
     Making `es` in `nodes` gave `now` and `rc`: all were made, or the first `made`, with
     `path` at the next one, which was there already.
     */
    ghost predicate Made(nodes: map<string, bool>, es: seq<Node>, made: nat, rc: int, now: map<string, bool>, path: string) {
      && made <= |es| && rc <= 0 && (rc == 0 <==> made == |es|)
      && now == Grown(nodes, es[..made]) && Clear(nodes, es[..made])
      && (rc < 0 ==> path == PathOf(es[made]) && path in nodes)
    }

    /** What was made of `here` after `done` is a part of the whole list. */
    lemma {:induction false} MadeAfter(nodes: map<string, bool>, done: seq<Node>, here: seq<Node>, later: seq<Node>, made: nat, rc: int, now: map<string, bool>, path: string)
      requires Distinct(done + here + later) && Clear(nodes, done) && Made(Grown(nodes, done), here, made, rc, now, path)
      ensures rc <= 0 && (rc == 0 ==> now == Grown(nodes, done + here) && Clear(nodes, done + here) && made == |here|)
      ensures rc < 0 ==> Made(nodes, done + here + later, |done| + made, rc, now, path)
    {
      hide PathOf, Grown;
      var all := done + here + later;
      var part := here[..made];
      assert all[..|done| + made] == done + part;
      GrownConcat(nodes, done, part);
      forall k | 0 <= k < |done + part| ensures PathOf((done + part)[k]) !in nodes {
        if k < |done| {
          assert (done + part)[k] == done[k];
        } else {
          GrownKeys(nodes, done, PathOf(part[k - |done|]));
        }
      }
      if rc < 0 {
        var e := here[made];
        assert all[|done| + made] == e;
        GrownKeys(nodes, done, PathOf(e));
        forall k | 0 <= k < |done| ensures PathOf(e) != PathOf(done[k]) {
          assert all[k] == done[k];
          if PathOf(e) == PathOf(done[k]) { PathInjective(e, done[k]); }
        }
      } else {
        assert part == here;
      }
    }

    lemma {:induction false} MadeNone(nodes: map<string, bool>, e: Node, rest: seq<Node>, rc: int)
      requires PathOf(e) in nodes && rc < 0
      ensures Made(nodes, [e] + rest, 0, rc, nodes, PathOf(e))
    {
      GrownNone(nodes);
    }

    lemma {:induction false} MadeAll(nodes: map<string, bool>, es: seq<Node>, path: string)
      requires Clear(nodes, es)
      ensures Made(nodes, es, |es|, 0, Grown(nodes, es), path)
    {
      assert es[..|es|] == es;
    }

    /** All are made exactly when none was there. */
    lemma {:induction false} MadeIffClear(nodes: map<string, bool>, es: seq<Node>, made: nat, rc: int, now: map<string, bool>, path: string)
      requires Made(nodes, es, made, rc, now, path)
      ensures rc <= 0 && (rc == 0 <==> Clear(nodes, es))
      ensures rc == 0 ==> now == Grown(nodes, es) && made == |es|
    {
      assert es[..|es|] == es;
    }

    /** A list of distinct nodes, once made: each is there, a directory unless it is a leaf file. */
    lemma {:induction false} GrownKinds(nodes: map<string, bool>, es: seq<Node>)
      requires Distinct(es)
      ensures forall e :: e in es ==> PathOf(e) in Grown(nodes, es) && Grown(nodes, es)[PathOf(e)] == (|e| < levels || leafDir)
    {
      hide PathOf, Grown, Distinct;
      forall e | e in es ensures PathOf(e) in Grown(nodes, es) && Grown(nodes, es)[PathOf(e)] == (|e| < levels || leafDir) {
        var k :| 0 <= k < |es| && es[k] == e;
        GrownAt(nodes, es, k);
      }
    }

    lemma {:induction false} GrownAt(nodes: map<string, bool>, es: seq<Node>, k: nat)
      requires Distinct(es) && k < |es|
      ensures PathOf(es[k]) in Grown(nodes, es) && Grown(nodes, es)[PathOf(es[k])] == IsDir(es[k])
      decreases |es|
    {
      hide PathOf;
      var next := nodes[PathOf(es[0]) := IsDir(es[0])];
      if k > 0 {
        GrownAt(next, es[1..], k - 1);
      } else {
        GrownKeys(next, es[1..], PathOf(es[0]));
        forall j | 0 <= j < |es[1..]| ensures PathOf(es[0]) != PathOf(es[1..][j]) {
          if PathOf(es[0]) == PathOf(es[1..][j]) { PathInjective(es[0], es[j + 1]); }
        }
      }
    }

    /** The path the delete loop decodes from an index. */
    function LeafPath(k: nat): string {
      if inodes == 0 then "" else PathOf(Digits(k, levels, inodes))
    }

    function LeafPaths(ks: seq<nat>): set<string> {
      set k | k in ks :: LeafPath(k)
    }

    ghost predicate Indices(ks: seq<nat>) {
      Distinct(ks) && forall k :: k in ks ==> k < Power(inodes, levels)
    }

    lemma {:induction false} LeafPathInjective(j: nat, k: nat)
      requires levels > 0 && j < Power(inodes, levels) && k < Power(inodes, levels) && LeafPath(j) == LeafPath(k)
      ensures j == k
    {
      assert inodes > 0;
      PathInjective(Digits(j, levels, inodes), Digits(k, levels, inodes));
      DecodingIsBijective(inodes, levels, j, k, []);
    }

    lemma {:induction false} NextLeaf(ks: seq<nat>, i: nat)
      requires levels > 0 && Indices(ks) && i < |ks|
      ensures LeafPath(ks[i]) !in LeafPaths(ks[i + 1..])
      ensures LeafPaths(ks[i..]) == LeafPaths(ks[i + 1..]) + {LeafPath(ks[i])}
    {
      hide LeafPath;
      assert ks[i..] == [ks[i]] + ks[i + 1..];
      if LeafPath(ks[i]) in LeafPaths(ks[i + 1..]) {
        var k :| k in ks[i + 1..] && LeafPath(k) == LeafPath(ks[i]);
        assert k in ks && ks[i] in ks;
        LeafPathInjective(k, ks[i]);
      }
    }

    /** Every leaf is there to be removed, and is of the right kind. */
    ghost predicate Present(nodes: map<string, bool>, ks: seq<nat>) {
      forall k :: k in ks ==> LeafPath(k) in nodes && nodes[LeafPath(k)] == leafDir
    }

    lemma {:induction false} CreatedPresent(nodes: map<string, bool>, ks: seq<nat>)
      requires levels > 0 && Indices(ks)
      ensures Present(Grown(nodes, Under([], 0, inodes, levels)), ks)
    {
      hide Grown, PathOf, Under, Digits, Power;
      var all := Under([], 0, inodes, levels);
      forall k | k in ks ensures LeafPath(k) in Grown(nodes, all) && Grown(nodes, all)[LeafPath(k)] == leafDir {
        NoChildren(levels);
        var e := Digits(k, levels, inodes);
        DecodingIsBijective(inodes, levels, k, k, e);
        UnderIsTree(inodes, levels, e);
        UnderDistinct([], 0, inodes, levels);
        var j :| 0 <= j < |all| && all[j] == e;
        GrownAt(nodes, all, j);
      }
    }

    /** Every node of the tree, in the order of creation. */
    function Tree(): seq<Node> {
      Under([], 0, inodes, levels)
    }

    function InnerPaths(): set<string> {
      set e | e in Tree() && |e| < levels :: PathOf(e)
    }

    /** A list of all indices names every leaf. */
    lemma {:induction false} AllLeaves(ks: seq<nat>, e: Node)
      requires levels > 0 && Indices(ks) && |ks| == Power(inodes, levels)
      requires e in Tree() && |e| == levels
      ensures PathOf(e) in LeafPaths(ks)
    {
      hide PathOf, Under, Digits, Power;
      UnderIsTree(inodes, levels, e);
      assert inodes > 0 by { assert e[0] < inodes; }
      IndexDigits(e, inodes);
      AllIndices(ks, Power(inodes, levels), Index(e, inodes));
      assert LeafPath(Index(e, inodes)) == PathOf(e);
    }

    lemma {:induction false} LeafInTree(ks: seq<nat>, p: string) returns (e: Node)
      requires levels > 0 && Indices(ks) && p in LeafPaths(ks)
      ensures e in Tree() && |e| == levels && p == PathOf(e)
    {
      hide PathOf, Under, Digits, Power;
      NoChildren(levels);
      var k :| k in ks && LeafPath(k) == p;
      e := Digits(k, levels, inodes);
      DecodingIsBijective(inodes, levels, k, k, e);
      UnderIsTree(inodes, levels, e);
    }

    lemma {:induction false} OnlyInnerLeft(nodes: map<string, bool>, ks: seq<nat>)
      requires levels > 0 && Clear(nodes, Tree()) && Indices(ks) && |ks| == Power(inodes, levels)
      ensures var left := Grown(nodes, Tree()) - LeafPaths(ks);
              && left.Keys == nodes.Keys + InnerPaths()
              && forall p :: p in left ==> left[p] == if p in nodes then nodes[p] else true
    {
      hide Grown, PathOf, Tree, LeafPaths, Indices, Power;
      var left := Grown(nodes, Tree()) - LeafPaths(ks);
      forall p | p in left ensures p in nodes.Keys + InnerPaths() {
        GrownKeys(nodes, Tree(), p);
        if k :| 0 <= k < |Tree()| && p == PathOf(Tree()[k]) {
          var e := Tree()[k];
          UnderDepth(e);
          if |e| == levels { AllLeaves(ks, e); }
        }
      }
      forall p | p in nodes.Keys + InnerPaths() ensures p in left && left[p] == if p in nodes then nodes[p] else true {
        GrownKeys(nodes, Tree(), p);
        Kept(nodes, ks, p);
        if p !in nodes { InnerIsDir(nodes, p); }
      }
    }

    lemma {:induction false} InnerIsDir(nodes: map<string, bool>, p: string)
      requires levels > 0 && p in InnerPaths()
      ensures p in Grown(nodes, Tree()) && Grown(nodes, Tree())[p]
    {
      hide Grown, PathOf, Distinct, Under;
      UnderDistinct([], 0, inodes, levels);
      GrownKinds(nodes, Tree());
    }

    lemma PresentPart(nodes: map<string, bool>, ks: seq<nat>, i: nat)
      requires Present(nodes, ks) && i <= |ks|
      ensures i > 0 ==> Present(nodes, [ks[i - 1]])
    {
      hide LeafPath;
    }

    lemma {:induction false} UnderDepth(e: Node)
      requires levels > 0 && e in Tree()
      ensures |e| <= levels
    {
      UnderIsTree(inodes, levels, e);
    }

    lemma {:induction false} Kept(nodes: map<string, bool>, ks: seq<nat>, p: string)
      requires levels > 0 && Clear(nodes, Tree()) && Indices(ks)
      requires p in nodes || p in InnerPaths()
      ensures p !in LeafPaths(ks)
      ensures p !in nodes ==> exists k :: 0 <= k < |Tree()| && p == PathOf(Tree()[k])
    {
      hide PathOf, Tree, LeafPaths, Indices;
      if p in InnerPaths() {
        var f :| f in Tree() && |f| < levels && p == PathOf(f);
        var k :| 0 <= k < |Tree()| && Tree()[k] == f;
        if p in LeafPaths(ks) {
          var e := LeafInTree(ks, p);
          PathInjective(e, f);
        }
      } else if p in LeafPaths(ks) {
        var e := LeafInTree(ks, p);
      }
    }

    /** No file stands where the base directory or one above it should be. */
    ghost predicate BaseFree(nodes: map<string, bool>) {
      forall p :: p in Dirs(base) && p in nodes ==> nodes[p]
    }

    /** Making the base directory does not touch the tree below it. */
    lemma ClearOfBase(nodes: map<string, bool>)
      requires levels > 0
      ensures Clear(nodes, Tree()) <==> Clear(WithDirs(nodes, Dirs(base)), Tree())
    {
      hide Tree;
      forall k | 0 <= k < |Tree()| ensures PathOf(Tree()[k]) in nodes <==> PathOf(Tree()[k]) in WithDirs(nodes, Dirs(base)) {
        NodeDepth(Tree()[k]);
        BelowBase(Tree()[k]);
      }
    }

    lemma NodeDepth(e: Node)
      requires levels > 0 && e in Tree()
      ensures |e| > 0
    {
      UnderIsTree(inodes, levels, e);
    }

    lemma BelowBase(e: Node)
      requires |e| > 0
      ensures PathOf(e) !in Dirs(base)
    {
      assert |Suffix(prefix, e)| > 0;
      assert forall p :: p in Dirs(base) ==> |p| <= |base|;
    }
  }

  class Client {
    const plan: Plan
    const fs: FileSystem
    var path: string
    var createdCount: nat

    constructor (plan: Plan, fs: FileSystem)
      ensures this.plan == plan && this.fs == fs && path == "" && createdCount == 0
    {
      this.plan, this.fs, path, createdCount := plan, fs, "", 0;
    }

    method Push(leaf: string)
      modifies this`path
      ensures path == Pushed(old(path), leaf)
    {
      if |leaf| == 0 {
        return;
      }
      if leaf[0] != '/' {
        path := path + "/";
      }
      path := path + leaf;
    }

    method Pop(leaf: string) returns (ok: bool)
      modifies this`path
      ensures ok == CanPop(old(path), leaf)
      ensures path == if ok then Popped(old(path), leaf) else old(path)
    {
      if |leaf| >= |path| || path[|path| - |leaf| - 1] != '/' || path[|path| - |leaf|..] != leaf {
        return false;
      }
      path := path[..|path| - |leaf| - 1];
      return true;
    }

    /**
     The creator makes the nodes below `e` in preorder, counts them and restores the shared
     path; it stops at the first one that is already there, with the path left at that one.
     */
    method CreatePaths(level: nat, ghost e: Node) returns (rc: int, ghost made: nat)
      requires plan.Ok() && |e| == level < plan.levels && path == plan.PathOf(e)
      modifies this, fs
      ensures plan.Made(old(fs.nodes), Under(e, 0, plan.inodes, plan.levels), made, rc, fs.nodes, path)
      ensures createdCount == old(createdCount) + made && (rc == 0 ==> path == old(path))
      decreases plan.levels - level, 1
    {
      hide Under, plan.Grown, plan.PathOf, plan.Clear, plan.Made, Distinct, Inner;
      ghost var all, nodes := Under(e, 0, plan.inodes, plan.levels), fs.nodes;
      ghost var done: seq<Node> := [];
      plan.GrownNone(nodes);
      UnderDistinct(e, 0, plan.inodes, plan.levels);
      for i := 0 to plan.inodes
        invariant path == plan.PathOf(e)
        invariant all == done + Under(e, i, plan.inodes, plan.levels)
        invariant createdCount == old(createdCount) + |done|
        invariant fs.nodes == plan.Grown(nodes, done) && plan.Clear(nodes, done)
      {
        ghost var here := [e + [i]] + Inner(e, i, plan.inodes, plan.levels);
        ghost var later := Under(e, i + 1, plan.inodes, plan.levels);
        UnderStep(e, i, plan.inodes, plan.levels);
        assert all == done + here + later;
        rc, made := CreateChild(level, i, e);
        plan.MadeAfter(nodes, done, here, later, made, rc, fs.nodes, path);
        if rc < 0 {
          made := |done| + made;
          return;
        }
        done := done + here;
      }
      UnderEnd(e, plan.inodes, plan.levels);
      assert done == all;
      plan.MadeAll(nodes, all, path);
      return 0, |all|;
    }

    /** One round of the creator's loop. */
    method CreateChild(level: nat, i: nat, ghost e: Node) returns (rc: int, ghost made: nat)
      requires plan.Ok() && |e| == level < plan.levels && i < plan.inodes && path == plan.PathOf(e)
      modifies this, fs
      ensures plan.Made(old(fs.nodes), [e + [i]] + Inner(e, i, plan.inodes, plan.levels), made, rc, fs.nodes, path)
      ensures createdCount == old(createdCount) + made && (rc == 0 ==> path == old(path))
      decreases plan.levels - level, 0
    {
      hide Under, plan.Grown, plan.PathOf, plan.Clear, plan.Made, Distinct, Name, Popped, CanPop, Pushed, Inner;
      var isLeaf := level + 1 >= plan.levels;
      var isDir := if isLeaf then plan.leafDir else true;
      ghost var child, inner, nodes := e + [i], Inner(e, i, plan.inodes, plan.levels), fs.nodes;
      plan.NextPath(e, i);
      ChildDistinct(e, i, plan.inodes, plan.levels);
      InnerIs(e, i, plan.inodes, plan.levels);
      Push(Name(plan.prefix, i));
      rc := fs.Make(path, isDir);
      if rc < 0 {
        plan.MadeNone(nodes, child, inner, rc);
        return rc, 0;
      }
      plan.GrownSingle(nodes, child);
      createdCount := createdCount + 1;
      if !isLeaf {
        rc, made := CreatePaths(level + 1, child);
        plan.MadeAfter(nodes, [child], inner, [], made, rc, fs.nodes, path);
        made := 1 + made;
        assert [child] + inner + [] == [child] + inner;
        if rc < 0 {
          return;
        }
      } else {
        made := 1;
        assert [child] + inner == [child];
      }
      plan.MadeAll(nodes, [child] + inner, plan.PathOf(e));
      var ok := Pop(Name(plan.prefix, i));
    }

    /** The inner loop of the delete phase: an index, digit by digit, to a path. */
    method DecodePath(index: nat) returns (pathSoFar: string)
      requires plan.levels > 0 && plan.inodes > 0
      ensures plan.base + "/" + pathSoFar == plan.LeafPath(index)
    {
      hide Suffix, Name;
      pathSoFar := "";
      var idx: nat, lev: nat := index, 0;
      ghost var tail: Node := [];
      SuffixStep(plan.prefix, tail);
      while lev < plan.levels
        invariant 0 <= lev <= plan.levels && |tail| == lev
        invariant Digits(index, plan.levels, plan.inodes) == Digits(idx, plan.levels - lev, plan.inodes) + tail
        invariant pathSoFar == "" <==> lev == 0
        invariant Suffix(plan.prefix, tail) == if lev == 0 then pathSoFar else "/" + pathSoFar
      {
        var pos: nat := idx / plan.inodes;
        assert idx - pos * plan.inodes == idx % plan.inodes;
        var delta: nat := idx - pos * plan.inodes;
        Prepend(plan.prefix, delta, tail, pathSoFar);
        tail := [delta] + tail;
        if |pathSoFar| > 0 {
          pathSoFar := Name(plan.prefix, delta) + "/" + pathSoFar;
        } else {
          pathSoFar := Name(plan.prefix, delta);
        }
        idx := pos;
        lev := lev + 1;
      }
      assert Digits(index, plan.levels, plan.inodes) == tail;
    }

    /**
     Delete the leaves with the given indices, last one first. Whatever the order, it ends
     well exactly if all are there and of the right kind; else it stops at the first that is not.
     */
    method RemovePaths(order: seq<nat>) returns (err: int, ghost left: nat)
      requires plan.Ok() && plan.Indices(order)
      modifies fs
      ensures err <= 0 && left <= |order| && fs.nodes == old(fs.nodes) - plan.LeafPaths(order[left..])
      ensures plan.Present(old(fs.nodes), order[left..]) && (err == 0 <==> left == 0)
      ensures err < 0 ==> !plan.Present(old(fs.nodes), [order[left - 1]])
    {
      hide plan.LeafPath, Power, Distinct;
      var rest := order;
      assert order[|order|..] == [];
      while |rest| > 0
        invariant |rest| <= |order| && rest == order[..|rest|]
        invariant fs.nodes == old(fs.nodes) - plan.LeafPaths(order[|rest|..])
        invariant plan.Present(old(fs.nodes), order[|rest|..])
      {
        var i := |rest| - 1;
        var idx := rest[i];
        rest := rest[..i];
        assert idx == order[i] && idx in order;
        NoChildren(plan.levels);
        plan.NextLeaf(order, i);
        var pathSoFar := DecodePath(idx);
        err := fs.Unmake(plan.base + "/" + pathSoFar, plan.leafDir);
        if err != 0 {
          return err, i + 1;
        }
        assert order[i..] == [idx] + order[i + 1..];
      }
      return 0, 0;
    }

    /**
     The whole creation phase: the base directory, which may be there already, and the tree.
     It ends well exactly if no file is in the way of the base and no node of the tree exists.
     */
    method CreateAll() returns (rc: int, ghost made: nat)
      requires plan.Ok()
      modifies this, fs
      ensures rc <= 0 && (rc == 0 <==> plan.BaseFree(old(fs.nodes)) && plan.Clear(old(fs.nodes), plan.Tree()))
      ensures plan.BaseFree(old(fs.nodes)) ==>
                && plan.Made(WithDirs(old(fs.nodes), Dirs(plan.base)), plan.Tree(), made, rc, fs.nodes, path)
                && createdCount == made
      ensures rc == 0 ==>
                && path == plan.base && createdCount == Total(plan.inodes, plan.levels)
                && fs.nodes == plan.Grown(WithDirs(old(fs.nodes), Dirs(plan.base)), plan.Tree())
      ensures rc == 0 ==> forall e :: e in plan.Tree() ==>
                plan.PathOf(e) in fs.nodes && fs.nodes[plan.PathOf(e)] == (|e| < plan.levels || plan.leafDir)
    {
      hide plan.Grown, Under, Total, plan.Clear, plan.Made, WithDirs, Dirs, Distinct;
      ghost var nodes := fs.nodes;
      var err := fs.Mkdirs(plan.base);
      if err != 0 && err != -17 {
        return -1, 0;
      }
      ghost var now := fs.nodes;
      plan.ClearOfBase(nodes);
      createdCount := 0;
      path := "";
      Push(plan.base);
      assert path == plan.base == plan.PathOf([]);
      UnderCount([], 0, plan.inodes, plan.levels);
      UnderDistinct([], 0, plan.inodes, plan.levels);
      rc, made := CreatePaths(0, []);
      plan.MadeIffClear(now, plan.Tree(), made, rc, fs.nodes, path);
      plan.GrownKinds(now, plan.Tree());
    }

    /**
     A whole test over a clean tree: everything is created, then every leaf is deleted in
     any order. No call fails, what was there before is as it was, and all that is new is
     directories: the base and the inner ones.
     */
    method RunTest(order: seq<nat>) returns (rc: int)
      requires plan.Ok() && plan.BaseFree(fs.nodes) && plan.Clear(fs.nodes, plan.Tree())
      requires plan.Indices(order) && |order| == Power(plan.inodes, plan.levels)
      modifies this, fs
      ensures rc == 0 && createdCount == Total(plan.inodes, plan.levels)
      ensures fs.nodes.Keys == old(fs.nodes.Keys) + Dirs(plan.base) + plan.InnerPaths()
      ensures forall p :: p in fs.nodes ==> fs.nodes[p] == if p in old(fs.nodes) then old(fs.nodes)[p] else true
    {
      hide plan.Grown, plan.PathOf, Under, plan.LeafPath, Total, Power, Distinct, plan.Clear, Dirs, plan.BaseFree, plan.LeafPaths, plan.InnerPaths, plan.Made;
      ghost var nodes := WithDirs(fs.nodes, Dirs(plan.base));
      plan.ClearOfBase(fs.nodes);
      ghost var made, left;
      rc, made := CreateAll();
      plan.CreatedPresent(nodes, order);
      ghost var full := fs.nodes;
      rc, left := RemovePaths(order);
      plan.PresentPart(full, order, left);
      plan.OnlyInnerLeft(nodes, order);
      assert order[0..] == order;
    }
  }
}
