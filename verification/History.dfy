/**
 The cascading sample history of the web monitor (`webui/chunks.py`): bounded lists, each
 feeding its oldest sample to the next, coarser one; and the two-level time search that
 picks the pair of samples to compare. Every list is kept newest first.
 */
module History {
  datatype Option<T> = None | Some(value: T)

  /** A sample; `data` stands for the recorded server table, which the history never reads. */
  datatype Sample = Sample(timestamp: real, data: int)

  /** The value of one list. */
  datatype Level = Level(items: seq<Sample>, firstTime: real, lastTime: real, maxLength: int, timespan: real)

  // ----- what the lists do, on values

  function JustAdd(l: Level, x: Sample): Level {
    l.(firstTime := if l.firstTime == 0.0 then x.timestamp else l.firstTime,
       lastTime := x.timestamp,
       items := [x] + l.items)
  }

  /** The list without entry `i`. */
  function Without(l: Level, i: nat): Level
    requires i < |l.items|
  {
    var rest := l.items[..i] + l.items[i + 1..];
    if |l.items| > 1 then l.(items := rest, firstTime := rest[|rest| - 1].timestamp)
    else l.(items := rest, firstTime := 0.0, lastTime := 0.0)
  }

  /**
   Taking out an entry leaves the end times right exactly if the newest entry stays, or
   nothing stays, or the next entry is as new: the last time is not brought up to date.
   */
  lemma {:induction false} WithoutExact(l: Level, i: nat)
    requires i < |l.items| && Ends(l)
    ensures var r := Without(l, i);
            && r.items == l.items[..i] + l.items[i + 1..] && r.maxLength == l.maxLength && r.timespan == l.timespan
            && (Ends(r) <==> i > 0 || |l.items| == 1 || l.items[1].timestamp == l.items[0].timestamp)
            && (|r.items| > 0 ==> r.firstTime == Oldest(r).timestamp)
  {
  }

  predicate CanAdd(l: Level, x: Sample) {
    |l.items| == 0 || x.timestamp - l.items[0].timestamp >= l.timespan
  }

  predicate Full(l: Level) {
    |l.items| >= l.maxLength && |l.items| > 0
  }

  function Oldest(l: Level): Sample
    requires |l.items| > 0
  {
    l.items[|l.items| - 1]
  }

  /** Add to the first list; a full list first offers its oldest sample to the next. */
  function Push(ls: seq<Level>, x: Sample): (r: seq<Level>)
    requires |ls| > 0
    ensures |r| == |ls|
    decreases |ls|, 0
  {
    var l := ls[0];
    if Full(l) then
      [JustAdd(Without(l, |l.items| - 1), x)] + Offer(ls[1..], Oldest(l))
    else
      [JustAdd(l, x)] + ls[1..]
  }

  /** A lower list takes the sample only when far enough from its newest one. */
  function Offer(ls: seq<Level>, x: Sample): (r: seq<Level>)
    ensures |r| == |ls|
    decreases |ls|, 1
  {
    if |ls| == 0 || !CanAdd(ls[0], x) then ls else Push(ls, x)
  }

  function Flat(ls: seq<Level>): seq<Sample> {
    if |ls| == 0 then [] else ls[0].items + Flat(ls[1..])
  }

  // ----- the invariant of every reachable history

  ghost predicate NewestFirst(s: seq<Sample>) {
    forall i, j :: 0 <= i < j < |s| ==> s[i].timestamp >= s[j].timestamp
  }

  ghost predicate Positive(s: seq<Sample>) {
    forall i :: 0 <= i < |s| ==> s[i].timestamp > 0.0
  }

  /** A list holds one sample even when configured for none. */
  function Room(l: Level): nat {
    if l.maxLength < 1 then 1 else l.maxLength
  }

  ghost predicate Spaced(l: Level) {
    forall i {:trigger l.items[i]} :: 0 < i < |l.items| ==> l.items[i - 1].timestamp - l.items[i].timestamp >= l.timespan
  }

  ghost predicate Ends(l: Level) {
    if |l.items| == 0 then l.firstTime == 0.0 && l.lastTime == 0.0
    else l.firstTime == l.items[|l.items| - 1].timestamp && l.lastTime == l.items[0].timestamp
  }

  /** What holds after every run; `spaced` is false for the topmost list only. */
  ghost predicate Good(ls: seq<Level>, spaced: bool) {
    && NewestFirst(Flat(ls)) && Positive(Flat(ls))
    && (forall i :: 0 <= i < |ls| ==> |ls[i].items| <= Room(ls[i]) && Ends(ls[i]))
    && (forall i :: 0 <= i < |ls| && (spaced || i > 0) ==> Spaced(ls[i]))
    && (forall i :: 0 <= i < |ls| - 1 && |ls[i + 1].items| > 0 ==> |ls[i].items| == Room(ls[i]))
  }

  /** `s` without entry `k`; nothing is dropped when `k == |s|`. */
  function Drop(s: seq<Sample>, k: nat): seq<Sample> {
    if k < |s| then s[..k] + s[k + 1..] else s
  }

  /** The first list once it has made room. */
  function Emptied(l: Level): Level {
    if Full(l) then Without(l, |l.items| - 1) else l
  }

  lemma {:induction false} PushStep(ls: seq<Level>, x: Sample)
    requires |ls| > 0
    ensures Push(ls, x)[0] == JustAdd(Emptied(ls[0]), x)
    ensures Push(ls, x)[1..] == if Full(ls[0]) then Offer(ls[1..], Oldest(ls[0])) else ls[1..]
    ensures Flat(Push(ls, x)) == [x] + Emptied(ls[0]).items + Flat(Push(ls, x)[1..])
    ensures Flat(ls) == ls[0].items + Flat(ls[1..])
  {
  }

  lemma {:induction false} PushJoin(l: Level, rest: seq<Level>, x: Sample)
    ensures Push([l] + rest, x) == [JustAdd(Emptied(l), x)] + if Full(l) then Offer(rest, Oldest(l)) else rest
  {
    assert ([l] + rest)[1..] == rest;
  }

  lemma {:induction false} EmptiedItems(l: Level)
    ensures Full(l) ==> |l.items| > 0 && l.items == Emptied(l).items + [Oldest(l)]
    ensures !Full(l) ==> l.items == Emptied(l).items
  {
  }

  /** An addition puts the sample in front and loses at most one old sample; order is kept. */
  lemma {:induction false} PushFlat(ls: seq<Level>, x: Sample) returns (k: nat)
    requires |ls| > 0
    ensures k <= |Flat(ls)| && Flat(Push(ls, x)) == [x] + Drop(Flat(ls), k)
    decreases |ls|
  {
    hide *;
    var l, rest := ls[0], ls[1..];
    PushStep(ls, x);
    EmptiedItems(l);
    var kept := Emptied(l).items;
    if !Full(l) {
      k := |Flat(ls)|;
      DropNone(Flat(ls));
      assert [x] + l.items + Flat(rest) == [x] + (l.items + Flat(rest));
    } else if |rest| > 0 && CanAdd(rest[0], Oldest(l)) {
      Accepted(rest, Oldest(l));
      var j := PushFlat(rest, Oldest(l));
      k := |l.items| + j;
      DropRight(l.items, Flat(rest), j);
      assert [x] + kept + ([Oldest(l)] + Drop(Flat(rest), j)) == [x] + (l.items + Drop(Flat(rest), j));
    } else {
      k := |kept|;
      Refused(rest, Oldest(l));
      DropMiddle(kept, Oldest(l), Flat(rest));
      assert [x] + kept + Flat(rest) == [x] + (kept + Flat(rest));
    }
  }

  /** The items of a list after `x` was put in front and, if there was no room, the oldest was taken out. */
  function Shifted(l: Level, x: Sample): seq<Sample> {
    [x] + if 0 < |l.items| && l.maxLength <= |l.items| then l.items[..|l.items| - 1] else l.items
  }

  /**
   List `i` hands its oldest sample to the next one: it has no room left, and the next list
   is empty or its newest sample at least its timespan older.
   */
  predicate HandsDown(ls: seq<Level>, i: nat)
    requires i + 1 < |ls|
  {
    var l, next := ls[i], ls[i + 1];
    && 0 < |l.items| && l.maxLength <= |l.items|
    && (|next.items| == 0 || Oldest(l).timestamp - next.items[0].timestamp >= next.timespan)
  }

  /**
   What an addition that reaches list `j` makes of all lists: those above `j` hand down and
   `j` does not, each list down to `j` gets the oldest sample of the one above, and the lists
   below are untouched. So a sample is lost only by list `j`, and only if that has no room
   and is the last one, or the next one's newest sample is less than its timespan older.
   */
  ghost predicate Cascade(ls: seq<Level>, x: Sample, r: seq<Level>, j: nat) {
    && |r| == |ls| && j < |ls|
    && (forall i :: 0 <= i < j ==> HandsDown(ls, i)) && (j + 1 < |ls| ==> !HandsDown(ls, j))
    && (forall i :: 0 <= i <= j ==> Received(ls, x, r, i))
    && (forall i :: j < i < |ls| ==> r[i] == ls[i])
  }

  predicate Received(ls: seq<Level>, x: Sample, r: seq<Level>, i: nat)
    requires |r| == |ls| && i < |ls|
  {
    if i == 0 then r[i].items == Shifted(ls[i], x)
    else 0 < |ls[i - 1].items| && r[i].items == Shifted(ls[i], Oldest(ls[i - 1]))
  }

  /** Every addition is such a cascade. */
  lemma {:induction false} PushExact(ls: seq<Level>, x: Sample) returns (j: nat)
    requires |ls| > 0
    ensures Cascade(ls, x, Push(ls, x), j)
    decreases |ls|
  {
    hide *;
    var l, rest, r := ls[0], ls[1..], Push(ls, x);
    PushStep(ls, x);
    EmptiedItems(l);
    if Full(l) && |rest| > 0 && CanAdd(rest[0], Oldest(l)) {
      Accepted(rest, Oldest(l));
      var i := PushExact(rest, Oldest(l));
      j := i + 1;
      CascadeStep(ls, x, r, i);
    } else {
      j := 0;
      if Full(l) { Refused(rest, Oldest(l)); }
      CascadeEnds(ls, x, r);
    }
  }

  lemma {:induction false} CascadeEnds(ls: seq<Level>, x: Sample, r: seq<Level>)
    requires |r| == |ls| > 0 && r[0] == JustAdd(Emptied(ls[0]), x) && r[1..] == ls[1..]
    requires Full(ls[0]) && |ls| > 1 ==> !CanAdd(ls[1], Oldest(ls[0]))
    ensures Cascade(ls, x, r, 0)
  {
    hide Shifted, JustAdd, Emptied, Oldest;
    HeadShifted(ls[0], x);
    assert forall i :: 0 < i < |ls| ==> r[i] == r[1..][i - 1] && ls[i] == ls[1..][i - 1];
  }

  lemma {:induction false} HeadShifted(l: Level, x: Sample)
    ensures JustAdd(Emptied(l), x).items == Shifted(l, x)
  {
  }

  lemma {:induction false} CascadeStep(ls: seq<Level>, x: Sample, r: seq<Level>, j: nat)
    requires |r| == |ls| > 1 && Full(ls[0]) && CanAdd(ls[1], Oldest(ls[0])) && r[0] == JustAdd(Emptied(ls[0]), x)
    requires Cascade(ls[1..], Oldest(ls[0]), r[1..], j)
    ensures Cascade(ls, x, r, j + 1)
  {
    hide HandsDown, Received;
    var rest, q := ls[1..], r[1..];
    CascadeHead(ls, x, r);
    forall i | 0 <= i < j + 1 ensures HandsDown(ls, i) {
      if i > 0 { Below(ls, x, r, i - 1); assert HandsDown(rest, i - 1); }
    }
    Below(ls, x, r, j);
    forall i | 0 <= i <= j + 1 ensures Received(ls, x, r, i) {
      if i > 0 { Below(ls, x, r, i - 1); assert Received(rest, Oldest(ls[0]), q, i - 1); }
    }
    forall i | j + 1 < i < |ls| ensures r[i] == ls[i] {
      assert q[i - 1] == rest[i - 1];
    }
  }

  lemma {:induction false} CascadeHead(ls: seq<Level>, x: Sample, r: seq<Level>)
    requires |r| == |ls| > 1 && Full(ls[0]) && CanAdd(ls[1], Oldest(ls[0])) && r[0] == JustAdd(Emptied(ls[0]), x)
    ensures HandsDown(ls, 0) && Received(ls, x, r, 0)
  {
    hide JustAdd, Emptied, Shifted;
    HeadShifted(ls[0], x);
  }

  /** The same, seen from the second list. */
  lemma {:induction false} Below(ls: seq<Level>, x: Sample, r: seq<Level>, i: nat)
    requires |r| == |ls| && i + 1 < |ls| && Full(ls[0])
    ensures Received(ls[1..], Oldest(ls[0]), r[1..], i) ==> Received(ls, x, r, i + 1)
    ensures i + 2 < |ls| ==> HandsDown(ls[1..], i) == HandsDown(ls, i + 1)
  {
    hide Shifted, Oldest;
    assert ls[1..][i] == ls[i + 1] && r[1..][i] == r[i + 1];
    if i + 2 < |ls| { assert ls[1..][i + 1] == ls[i + 2]; }
  }

  lemma {:induction false} Accepted(ls: seq<Level>, x: Sample)
    requires |ls| > 0 && CanAdd(ls[0], x)
    ensures Offer(ls, x) == Push(ls, x)
  {
  }

  lemma {:induction false} Refused(ls: seq<Level>, x: Sample)
    requires |ls| > 0 ==> !CanAdd(ls[0], x)
    ensures Offer(ls, x) == ls
  {
  }

  lemma {:induction false} DropNone(s: seq<Sample>)
    ensures Drop(s, |s|) == s
  {
  }

  lemma {:induction false} DropRight(a: seq<Sample>, b: seq<Sample>, j: nat)
    ensures Drop(a + b, |a| + j) == a + Drop(b, j)
  {
  }

  lemma {:induction false} DropMiddle(a: seq<Sample>, x: Sample, b: seq<Sample>)
    ensures Drop(a + [x] + b, |a|) == a + b
  {
  }

  lemma {:induction false} DropKeeps(s: seq<Sample>, x: Sample, k: nat)
    requires NewestFirst(s) && Positive(s) && x.timestamp > 0.0 && (|s| > 0 ==> x.timestamp >= s[0].timestamp)
    ensures NewestFirst([x] + Drop(s, k)) && Positive([x] + Drop(s, k))
  {
    var d := Drop(s, k);
    assert forall i :: 0 <= i < |d| ==> d[i] == if i < k then s[i] else s[i + 1];
    forall i | 0 <= i < |d| ensures x.timestamp >= d[i].timestamp {
      assert d[i] == s[if i < k then i else i + 1];
    }
  }

  lemma {:induction false} GoodTail(ls: seq<Level>, spaced: bool)
    requires |ls| > 0 && Good(ls, spaced)
    ensures Good(ls[1..], true)
    ensures |Flat(ls[1..])| > 0 && |ls[0].items| > 0 ==> Oldest(ls[0]).timestamp >= Flat(ls[1..])[0].timestamp
  {
    var f, n := Flat(ls), |ls[0].items|;
    assert Flat(ls[1..]) == f[n..];
    assert forall i :: 0 <= i < n ==> f[i] == ls[0].items[i];
    forall i | 0 <= i < |ls[1..]| - 1 && |ls[1..][i + 1].items| > 0 ensures |ls[1..][i].items| == Room(ls[1..][i]) {
      assert ls[1..][i + 1] == ls[i + 1 + 1];
    }
  }

  lemma {:induction false} HeadKeeps(l: Level, x: Sample, spaced: bool)
    requires Ends(l) && x.timestamp > 0.0 && Positive(l.items) && |l.items| <= Room(l)
    requires spaced ==> Spaced(l) && CanAdd(l, x)
    ensures var r := JustAdd(Emptied(l), x);
            && Ends(r) && |r.items| <= Room(r) && (spaced ==> Spaced(r))
            && (Full(l) ==> |r.items| == Room(r)) && (|l.items| == Room(l) ==> Full(l))
  {
    if spaced { HeadSpaced(l, x); }
  }

  lemma {:induction false} HeadSpaced(l: Level, x: Sample)
    requires Spaced(l) && CanAdd(l, x)
    ensures Spaced(JustAdd(Emptied(l), x))
  {
    var r := JustAdd(Emptied(l), x);
    forall i | 0 < i < |r.items| ensures r.items[i - 1].timestamp - r.items[i].timestamp >= r.timespan {
      assert r.items[i] == l.items[i - 1];
      if i > 1 { assert r.items[i - 1] == l.items[i - 1 - 1]; }
    }
  }

  lemma {:induction false} GoodHead(ls: seq<Level>, spaced: bool)
    requires |ls| > 0 && Good(ls, spaced)
    ensures Ends(ls[0]) && |ls[0].items| <= Room(ls[0]) && (spaced ==> Spaced(ls[0])) && Positive(ls[0].items)
    ensures |ls| > 1 && |ls[1].items| > 0 ==> |ls[0].items| == Room(ls[0])
    ensures NewestFirst(Flat(ls)) && Positive(Flat(ls))
  {
    assert forall i :: 0 <= i < |ls[0].items| ==> Flat(ls)[i] == ls[0].items[i];
    assert |ls| > 1 ==> ls[0 + 1] == ls[1];
  }

  lemma {:induction false} FullPositive(ls: seq<Level>)
    requires |ls| > 0 && |ls[0].items| > 0 && Positive(ls[0].items)
    ensures Oldest(ls[0]).timestamp > 0.0
  {
  }

  /** One addition keeps the invariant, all the way down the lists. */
  lemma {:induction false} PushKeeps(ls: seq<Level>, x: Sample, spaced: bool)
    requires |ls| > 0 && Good(ls, spaced) && x.timestamp > 0.0
    requires |Flat(ls)| > 0 ==> x.timestamp >= Flat(ls)[0].timestamp
    requires spaced ==> CanAdd(ls[0], x)
    ensures Good(Push(ls, x), spaced)
    decreases |ls|
  {
    hide Push, Flat, Good, NewestFirst, Positive, Ends, Spaced, Room, Oldest, Emptied, CanAdd, Drop, JustAdd;
    var l, rest := ls[0], ls[1..];
    var k := PushFlat(ls, x);
    GoodHead(ls, spaced);
    DropKeeps(Flat(ls), x, k);
    GoodTail(ls, spaced);
    PushStep(ls, x);
    HeadKeeps(l, x, spaced);
    if Full(l) {
      FullPositive(ls);
      if |rest| > 0 && CanAdd(rest[0], Oldest(l)) {
        PushKeeps(rest, Oldest(l), true);
      }
    }
    Assemble(Push(ls, x), spaced);
  }

  lemma {:induction false} Assemble(ls: seq<Level>, spaced: bool)
    requires |ls| > 0 && NewestFirst(Flat(ls)) && Positive(Flat(ls))
    requires Good(ls[1..], true)
    requires |ls[0].items| <= Room(ls[0]) && Ends(ls[0]) && (spaced ==> Spaced(ls[0]))
    requires |ls| > 1 && |ls[1].items| > 0 ==> |ls[0].items| == Room(ls[0])
    ensures Good(ls, spaced)
  {
    var rest := ls[1..];
    forall i | 0 <= i < |ls| ensures |ls[i].items| <= Room(ls[i]) && Ends(ls[i]) && (spaced || i > 0 ==> Spaced(ls[i])) {
      if i > 0 { assert ls[i] == rest[i - 1]; }
    }
    forall i | 0 <= i < |ls| - 1 && |ls[i + 1].items| > 0 ensures |ls[i].items| == Room(ls[i]) {
      if i > 0 { assert ls[i] == rest[i - 1] && ls[i + 1] == rest[i - 1 + 1]; }
    }
  }

  // ----- whole runs

  function Replay(ls: seq<Level>, xs: seq<Sample>): (r: seq<Level>)
    requires |ls| > 0
    ensures |r| == |ls|
  {
    if |xs| == 0 then ls else Push(Replay(ls, xs[..|xs| - 1]), xs[|xs| - 1])
  }

  ghost predicate Fresh(ls: seq<Level>) {
    forall i :: 0 <= i < |ls| ==> ls[i].items == [] && ls[i].firstTime == 0.0 && ls[i].lastTime == 0.0
  }

  ghost predicate Clock(xs: seq<Sample>) {
    && (forall i :: 0 <= i < |xs| ==> xs[i].timestamp > 0.0)
    && (forall i, j :: 0 <= i < j < |xs| ==> xs[i].timestamp <= xs[j].timestamp)
  }

  lemma {:induction false} FreshFlat(ls: seq<Level>)
    requires Fresh(ls)
    ensures Flat(ls) == []
  {
    if |ls| > 0 { FreshFlat(ls[1..]); }
  }

  lemma {:induction false} FreshGood(ls: seq<Level>)
    requires Fresh(ls)
    ensures Good(ls, false)
  {
    FreshFlat(ls);
  }

  /** The invariant holds after every run of additions, and the newest sample is in front. */
  lemma {:induction false} RunsKeep(ls: seq<Level>, xs: seq<Sample>)
    requires |ls| > 0 && Fresh(ls) && Clock(xs)
    ensures Good(Replay(ls, xs), false)
    ensures |xs| > 0 ==> |Flat(Replay(ls, xs))| > 0 && Flat(Replay(ls, xs))[0] == xs[|xs| - 1]
    ensures |xs| == 0 ==> Flat(Replay(ls, xs)) == []
    decreases |xs|
  {
    if |xs| == 0 {
      FreshGood(ls);
      FreshFlat(ls);
    } else {
      hide Good, Push, Flat;
      var pre := xs[..|xs| - 1];
      RunsKeep(ls, pre);
      PushKeeps(Replay(ls, pre), xs[|xs| - 1], false);
      var k := PushFlat(Replay(ls, pre), xs[|xs| - 1]);
    }
  }

  function Reversed(xs: seq<Sample>): (r: seq<Sample>)
    ensures |r| == |xs|
  {
    if |xs| == 0 then [] else [xs[|xs| - 1]] + Reversed(xs[..|xs| - 1])
  }

  /** `s` is `t` with some entries left out. */
  ghost predicate Subsequence(s: seq<Sample>, t: seq<Sample>)
    decreases |t|
  {
    if |s| == 0 then true
    else if |t| == 0 then false
    else (s[0] == t[0] && Subsequence(s[1..], t[1..])) || Subsequence(s, t[1..])
  }

  lemma {:induction false} DropSubsequence(s: seq<Sample>, t: seq<Sample>, k: nat)
    requires Subsequence(s, t)
    ensures Subsequence(Drop(s, k), t)
    decreases |t|
  {
    if 0 < |s| && 0 < |t| && k < |s| {
      if s[0] == t[0] && Subsequence(s[1..], t[1..]) {
        if k == 0 {
          assert Drop(s, 0) == s[1..];
          Later(s[1..], t);
        } else {
          DropSubsequence(s[1..], t[1..], k - 1);
          assert Drop(s, k)[1..] == Drop(s[1..], k - 1);
        }
      } else {
        DropSubsequence(s, t[1..], k);
        Later(Drop(s, k), t);
      }
    }
  }

  lemma {:induction false} Later(s: seq<Sample>, t: seq<Sample>)
    requires |t| > 0 && Subsequence(s, t[1..])
    ensures Subsequence(s, t)
  {
  }

  /** After every run the lists, read from the top, are the additions latest first with some left out. */
  lemma {:induction false} RunsSubsequence(ls: seq<Level>, xs: seq<Sample>)
    requires |ls| > 0 && Fresh(ls)
    ensures Subsequence(Flat(Replay(ls, xs)), Reversed(xs))
    decreases |xs|
  {
    if |xs| == 0 {
      FreshFlat(ls);
    } else {
      hide Push, Flat;
      var pre, x := xs[..|xs| - 1], xs[|xs| - 1];
      RunsSubsequence(ls, pre);
      var f := Flat(Replay(ls, pre));
      var k := PushFlat(Replay(ls, pre), x);
      DropSubsequence(f, Reversed(pre), k);
      assert ([x] + Drop(f, k))[1..] == Drop(f, k);
      assert Reversed(xs)[1..] == Reversed(pre);
    }
  }

  /** A sample is never duplicated, and none appears that was not added. */
  lemma {:induction false} RunsRetain(ls: seq<Level>, xs: seq<Sample>)
    requires |ls| > 0 && Fresh(ls)
    ensures multiset(Flat(Replay(ls, xs))) <= multiset(xs)
    decreases |xs|
  {
    if |xs| == 0 {
      FreshFlat(ls);
    } else {
      var pre, x := xs[..|xs| - 1], xs[|xs| - 1];
      RunsRetain(ls, pre);
      var f := Flat(Replay(ls, pre));
      var k := PushFlat(Replay(ls, pre), x);
      DropLess(f, k);
      assert xs == pre + [x];
      assert multiset(xs) == multiset(pre) + multiset{x};
      assert multiset([x] + Drop(f, k)) == multiset{x} + multiset(Drop(f, k));
    }
  }

  lemma {:induction false} DropLess(s: seq<Sample>, k: nat)
    ensures multiset(Drop(s, k)) <= multiset(s)
  {
    if k < |s| { assert s == s[..k] + ([s[k]] + s[k + 1..]); }
  }

  lemma {:induction false} WindowStep(top: Level, r: seq<Sample>, x: Sample)
    requires top.items == r[..if |r| < Room(top) then |r| else Room(top)]
    ensures var now := JustAdd(Emptied(top), x);
            Room(now) == Room(top) && now.timespan == top.timespan && now.items == ([x] + r)[..if |r| + 1 < Room(top) then |r| + 1 else Room(top)]
  {
  }

  /** The topmost list is the window of the latest additions. */
  lemma {:induction false} RunsWindow(ls: seq<Level>, xs: seq<Sample>)
    requires |ls| > 0 && Fresh(ls)
    ensures var top, room := Replay(ls, xs)[0], Room(ls[0]);
            Room(top) == room && top.timespan == ls[0].timespan && top.items == Reversed(xs)[..if |xs| < room then |xs| else room]
    decreases |xs|
  {
    hide Push, JustAdd, Emptied, Room;
    if |xs| > 0 {
      var pre, x := xs[..|xs| - 1], xs[|xs| - 1];
      RunsWindow(ls, pre);
      PushStep(Replay(ls, pre), x);
      WindowStep(Replay(ls, pre)[0], Reversed(pre), x);
    }
  }

  // ----- what every list holds after a run, in closed form

  /** The samples of `s`, oldest first, that a list of this size has given up. */
  function Gone(s: seq<Sample>, room: nat): seq<Sample> {
    if |s| <= room then [] else s[..|s| - room]
  }

  /** The samples of `s`, oldest first, that are at least `span` after the one taken before them. */
  function Thin(s: seq<Sample>, span: real): seq<Sample> {
    if |s| == 0 then []
    else
      var t, x := Thin(s[..|s| - 1], span), s[|s| - 1];
      if |t| == 0 || x.timestamp - t[|t| - 1].timestamp >= span then t + [x] else t
  }

  /** All samples list `j` has ever taken: what the list above has given up, thinned out. */
  function Taken(ls: seq<Level>, xs: seq<Sample>, j: nat): seq<Sample>
    requires j < |ls|
  {
    if j == 0 then xs else Thin(Gone(Taken(ls, xs, j - 1), Room(ls[j - 1])), ls[j].timespan)
  }

  function OfferAll(ls: seq<Level>, ys: seq<Sample>): (r: seq<Level>)
    ensures |r| == |ls|
  {
    if |ys| == 0 then ls else Offer(OfferAll(ls, ys[..|ys| - 1]), ys[|ys| - 1])
  }

  lemma {:induction false} ReversedAt(s: seq<Sample>, i: nat)
    requires i < |s|
    ensures Reversed(s)[i] == s[|s| - 1 - i]
  {
    if i > 0 { ReversedAt(s[..|s| - 1], i - 1); }
  }

  lemma {:induction false} GoneStep(s: seq<Sample>, x: Sample, room: nat)
    ensures Gone(s + [x], room) == if |s| < room then Gone(s, room) else Gone(s, room) + [(s + [x])[|s| - room]]
  {
  }

  /** A window is full exactly when something is to be given up, and what. */
  lemma {:induction false} WindowFull(top: Level, s: seq<Sample>)
    requires top.items == Reversed(s)[..if |s| < Room(top) then |s| else Room(top)]
    ensures Room(top) >= 1 && (Full(top) <==> |s| >= Room(top))
    ensures Full(top) ==> Oldest(top) == s[|s| - Room(top)]
    ensures |top.items| == 0 <==> |s| == 0
    ensures |s| > 0 ==> top.items[0] == s[|s| - 1]
  {
    if |s| > 0 { ReversedAt(s, 0); }
    if |s| >= Room(top) { ReversedAt(s, Room(top) - 1); }
  }

  /** The lower lists are offered exactly what the topmost one gives up. */
  lemma {:induction false} LowerLists(ls: seq<Level>, xs: seq<Sample>)
    requires |ls| > 0 && Fresh(ls)
    ensures Replay(ls, xs)[1..] == OfferAll(ls[1..], Gone(xs, Room(ls[0])))
    decreases |xs|
  {
    hide Push, Offer, Room, Full, Oldest, Reversed;
    if |xs| > 0 {
      var pre, x := xs[..|xs| - 1], xs[|xs| - 1];
      var r := Replay(ls, pre);
      assert xs == pre + [x];
      LowerLists(ls, pre);
      RunsWindow(ls, pre);
      WindowFull(r[0], pre);
      PushStep(r, x);
      GoneStep(pre, x, Room(ls[0]));
      if |pre| >= Room(ls[0]) {
        var g, y := Gone(pre, Room(ls[0])), pre[|pre| - Room(ls[0])];
        assert (g + [y])[..|g|] == g;
      }
    }
  }

  /** Offering a sequence adds its thinned-out part. */
  lemma {:induction false} OffersThin(ls: seq<Level>, ys: seq<Sample>)
    requires |ls| > 0 && Fresh(ls)
    ensures OfferAll(ls, ys) == Replay(ls, Thin(ys, ls[0].timespan))
    decreases |ys|
  {
    hide Push, Room, Full, Oldest, Reversed;
    if |ys| > 0 {
      var pre, y := ys[..|ys| - 1], ys[|ys| - 1];
      var t := Thin(pre, ls[0].timespan);
      OffersThin(ls, pre);
      RunsWindow(ls, t);
      WindowFull(Replay(ls, t)[0], t);
      assert (t + [y])[..|t|] == t;
    }
  }

  /**
   After every run each list holds the latest samples it has taken, newest first, as many as
   it has room for; and it has taken what the list above gave up, thinned to its timespan.
   */
  lemma {:induction false} RunsExact(ls: seq<Level>, xs: seq<Sample>, j: nat)
    requires Fresh(ls) && j < |ls|
    ensures var t, room := Taken(ls, xs, j), Room(ls[j]);
            Replay(ls, xs)[j].items == Reversed(t)[..if |t| < room then |t| else room]
    decreases j
  {
    hide Push, Room, Reversed, Thin, Gone;
    RunsWindow(ls, xs);
    if j > 0 {
      var rest := ls[1..];
      var ys := Thin(Gone(xs, Room(ls[0])), rest[0].timespan);
      LowerLists(ls, xs);
      OffersThin(rest, Gone(xs, Room(ls[0])));
      assert Replay(ls, xs)[j] == Replay(ls, xs)[1..][j - 1];
      RunsExact(rest, ys, j - 1);
      TakenBelow(ls, xs, j);
    }
  }

  lemma {:induction false} TakenBelow(ls: seq<Level>, xs: seq<Sample>, j: nat)
    requires 0 < j < |ls|
    ensures Taken(ls, xs, j) == Taken(ls[1..], Thin(Gone(xs, Room(ls[0])), ls[1].timespan), j - 1)
  {
    hide Thin, Gone, Room;
    if j > 1 { TakenBelow(ls, xs, j - 1); }
  }

  // ----- a cursor over the lists is a position in their concatenation

  function Offset(ls: seq<Level>, i: nat): nat
    requires i <= |ls|
  {
    if i == 0 then 0 else |ls[0].items| + Offset(ls[1..], i - 1)
  }

  lemma {:induction false} OffsetNext(ls: seq<Level>, i: nat)
    requires i < |ls|
    ensures Offset(ls, i + 1) == Offset(ls, i) + |ls[i].items|
  {
    if i > 0 { OffsetNext(ls[1..], i - 1); }
  }

  lemma {:induction false} OffsetZero(ls: seq<Level>)
    ensures Offset(ls, 0) == 0
  {
  }

  lemma {:induction false} FlatAt(ls: seq<Level>, i: nat, j: nat)
    requires i < |ls| && j < |ls[i].items|
    ensures Offset(ls, i) + j < |Flat(ls)| && Flat(ls)[Offset(ls, i) + j] == ls[i].items[j]
  {
    if i > 0 { FlatAt(ls[1..], i - 1, j); }
  }

  /** Empty lists are all at the end. */
  ghost predicate Packed(ls: seq<Level>) {
    forall i, j :: 0 <= i < j < |ls| && |ls[j].items| > 0 ==> |ls[i].items| > 0
  }

  lemma {:induction false} GoodPacked(ls: seq<Level>)
    requires Good(ls, false)
    ensures Packed(ls)
  {
    forall i, j | 0 <= i < j < |ls| && |ls[j].items| > 0 ensures |ls[i].items| > 0 {
      FilledAbove(ls, i, j);
    }
  }

  lemma {:induction false} FilledAbove(ls: seq<Level>, i: nat, j: nat)
    requires Good(ls, false) && i < j < |ls| && |ls[j].items| > 0
    ensures |ls[i].items| > 0
    decreases j - i
  {
    assert |ls[j - 1 + 1].items| > 0;
    if i < j - 1 { FilledAbove(ls, i, j - 1); }
  }

  lemma {:induction false} EmptyTail(ls: seq<Level>, i: nat)
    requires i <= |ls| && Packed(ls) && (i < |ls| ==> |ls[i].items| == 0)
    ensures Offset(ls, i) == |Flat(ls)|
  {
    if i > 0 {
      assert Packed(ls[1..]);
      EmptyTail(ls[1..], i - 1);
    } else {
      assert forall k :: 0 <= k < |ls| ==> |ls[k].items| == 0;
      AllEmpty(ls);
    }
  }

  lemma {:induction false} AllEmpty(ls: seq<Level>)
    requires forall k :: 0 <= k < |ls| ==> |ls[k].items| == 0
    ensures Flat(ls) == []
  {
    if |ls| > 0 { AllEmpty(ls[1..]); }
  }

  /** Linear scan: the first position from `from` on that is not newer than `t`. */
  function Scan(s: seq<Sample>, from: nat, t: real): (r: nat)
    requires from <= |s|
    ensures from <= r <= |s|
    decreases |s| - from
  {
    if from == |s| then |s| else if s[from].timestamp <= t then from else Scan(s, from + 1, t)
  }

  lemma {:induction false} ScanSkip(s: seq<Sample>, a: nat, b: nat, t: real)
    requires a <= b <= |s| && forall i :: a <= i < b ==> s[i].timestamp > t
    ensures Scan(s, a, t) == Scan(s, b, t)
    decreases b - a
  {
    if a < b { ScanSkip(s, a + 1, b, t); }
  }

  /** The scan finds the newest sample at or before `t`, and fails only if there is none. */
  lemma {:induction false} ScanNewest(s: seq<Sample>, from: nat, t: real)
    requires from <= |s|
    ensures forall i :: from <= i < Scan(s, from, t) ==> s[i].timestamp > t
    ensures Scan(s, from, t) < |s| ==> s[Scan(s, from, t)].timestamp <= t
    decreases |s| - from
  {
    if from < |s| && s[from].timestamp > t { ScanNewest(s, from + 1, t); }
  }

  /** A list whose oldest sample is newer than `t` holds nothing the scan could stop at. */
  lemma {:induction false} SkipList(ls: seq<Level>, i: nat, j: nat, t: real)
    requires Good(ls, false) && i < |ls| && j < |ls[i].items| && t < ls[i].firstTime
    ensures Offset(ls, i + 1) <= |Flat(ls)| && Offset(ls, i) + j <= |Flat(ls)|
    ensures Scan(Flat(ls), Offset(ls, i) + j, t) == Scan(Flat(ls), Offset(ls, i + 1), t)
  {
    hide Offset;
    var f, n := Flat(ls), |ls[i].items|;
    OffsetNext(ls, i);
    FlatAt(ls, i, n - 1);
    forall q | Offset(ls, i) + j <= q < Offset(ls, i + 1) ensures f[q].timestamp > t {
      FlatAt(ls, i, q - Offset(ls, i));
    }
    ScanSkip(f, Offset(ls, i) + j, Offset(ls, i + 1), t);
  }

  /** A list whose oldest sample is not newer than `t` makes the scan stop. */
  lemma {:induction false} StopList(ls: seq<Level>, i: nat, j: nat, t: real)
    requires Good(ls, false) && i < |ls| && j < |ls[i].items| && ls[i].firstTime <= t
    ensures Offset(ls, i) + j <= |Flat(ls)| && Scan(Flat(ls), Offset(ls, i) + j, t) < |Flat(ls)|
  {
    hide Offset;
    var n := |ls[i].items|;
    FlatAt(ls, i, n - 1);
    ScanNewest(Flat(ls), Offset(ls, i) + j, t);
  }

  lemma {:induction false} StopNowhere(ls: seq<Level>, from: nat, t: real)
    requires Good(ls, false) && from <= |Flat(ls)| && t < 0.0
    ensures Scan(Flat(ls), from, t) == |Flat(ls)|
  {
    ScanSkip(Flat(ls), from, |Flat(ls)|, t);
  }

  // ----- the pair of samples to compare

  datatype Delta = NoData | One(only: Sample) | Two(newer: Sample, older: Sample)

  /** Where the newer sample of the pair is: the newest, or the newest at least `back` old. */
  function Start(s: seq<Sample>, back: real): (r: nat)
    requires |s| > 0
    ensures r < |s|
  {
    if back <= 0.0 then 0
    else
      var q := Scan(s, 0, s[0].timestamp - back);
      if q < |s| then q else 0
  }

  /** The pair whose newer sample is at `a`, by a linear scan. */
  function PairAt(s: seq<Sample>, a: nat, interval: real): Delta
    requires a < |s|
  {
    if a + 1 < |s| then
      var b := Scan(s, a + 1, s[a].timestamp - interval);
      if b < |s| then Two(s[a], s[b])
      else if s[|s| - 1].timestamp == s[a].timestamp then One(s[a])
      else Two(s[a], s[|s| - 1])
    else if a > 0 then Two(s[a - 1], s[a])
    else One(s[a])
  }

  function LinearDelta(s: seq<Sample>, back: real, interval: real): Delta {
    if |s| == 0 then NoData else PairAt(s, Start(s, back), interval)
  }

  /**
   `s[a]` is the sample a comparison starts from: the first one at least `back` older than
   the newest if a positive `back` is asked for and such a sample exists, else the newest.
   */
  ghost predicate Newer(s: seq<Sample>, back: real, a: nat) {
    && a < |s|
    && if back > 0.0 && exists i :: 0 <= i < |s| && s[i].timestamp <= s[0].timestamp - back then
         s[a].timestamp <= s[0].timestamp - back && forall i :: 0 <= i < a ==> s[i].timestamp > s[0].timestamp - back
       else a == 0
  }

  lemma {:induction false} NewerIsStart(s: seq<Sample>, back: real, a: nat)
    requires |s| > 0
    ensures Newer(s, back, a) <==> a == Start(s, back)
  {
    if back > 0.0 {
      var t := s[0].timestamp - back;
      ScanNewest(s, 0, t);
    }
  }

  /**
   The pair for every history, look-back and interval: from `s[a]`, the first later entry at
   least `interval` older, else the oldest unless it is as new; from the oldest entry, the one
   before it and itself; a single sample alone.
   */
  lemma {:induction false} DeltaExact(s: seq<Sample>, back: real, interval: real, a: nat)
    requires Newer(s, back, a)
    ensures var d, last, t := LinearDelta(s, back, interval), s[|s| - 1], s[a].timestamp - interval;
            && (|s| == 1 ==> d == One(s[0]))
            && (|s| > 1 && a == |s| - 1 ==> d == Two(s[|s| - 2], last))
            && (forall b :: a < b < |s| && s[b].timestamp <= t && (forall i :: a < i < b ==> s[i].timestamp > t) ==> d == Two(s[a], s[b]))
            && (a < |s| - 1 && (forall i :: a < i < |s| ==> s[i].timestamp > t) ==>
                  d == if last.timestamp == s[a].timestamp then One(s[a]) else Two(s[a], last))
  {
    NewerIsStart(s, back, a);
    if a + 1 < |s| {
      var t := s[a].timestamp - interval;
      ScanNewest(s, a + 1, t);
    }
  }

  lemma NoDelta(back: real, interval: real)
    ensures LinearDelta([], back, interval) == NoData
  {
  }

  /** The pair is in time order; strictly unless the newer one is the last but one. */
  lemma {:induction false} DeltaOrdered(s: seq<Sample>, back: real, interval: real, a: nat)
    requires NewestFirst(s) && interval > 0.0 && Newer(s, back, a)
    ensures var d := LinearDelta(s, back, interval);
            d.Two? ==> d.newer.timestamp >= d.older.timestamp
                       && (a + 1 < |s| ==> d.newer.timestamp > d.older.timestamp)
  {
    NewerIsStart(s, back, a);
    if a + 1 < |s| { ScanNewest(s, a + 1, s[a].timestamp - interval); }
  }

  /** With a positive interval it makes no difference where the second scan starts. */
  lemma {:induction false} ScanFromAnywhere(s: seq<Sample>, a: nat, interval: real)
    requires NewestFirst(s) && interval > 0.0 && a < |s|
    ensures Scan(s, a + 1, s[a].timestamp - interval) == Scan(s, 0, s[a].timestamp - interval)
  {
    ScanSkip(s, 0, a + 1, s[a].timestamp - interval);
  }

  /** The older sample: the newest one at least `interval` older, else the oldest of all. */
  lemma {:induction false} DeltaOlder(s: seq<Sample>, back: real, interval: real, a: nat)
    requires NewestFirst(s) && interval > 0.0 && Newer(s, back, a) && a + 1 < |s|
    ensures var d, t := LinearDelta(s, back, interval), s[a].timestamp - interval;
            if exists i :: 0 <= i < |s| && s[i].timestamp <= t then
              d.Two? && d.newer == s[a] && d.older in s && d.older.timestamp <= t
              && forall i :: 0 <= i < |s| && s[i].timestamp <= t ==> s[i].timestamp <= d.older.timestamp
            else if s[|s| - 1].timestamp == s[a].timestamp then d == One(s[a])
            else d == Two(s[a], s[|s| - 1])
  {
    hide Scan, Start, Newer;
    NewerIsStart(s, back, a);
    ScanNewest(s, a + 1, s[a].timestamp - interval);
    ScanFromAnywhere(s, a, interval);
    ScanNewest(s, 0, s[a].timestamp - interval);
  }
}
