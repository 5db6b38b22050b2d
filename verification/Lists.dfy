/** Lists without repetitions. */
module Lists {
  ghost predicate Distinct<T(!new)>(s: seq<T>) {
    forall i, j :: 0 <= i < j < |s| ==> s[i] != s[j]
  }

  lemma {:induction false} DistinctConcat<T(!new)>(a: seq<T>, b: seq<T>)
    requires Distinct(a) && Distinct(b) && forall x :: x in a ==> x !in b
    ensures Distinct(a + b)
  {
    forall i, j | 0 <= i < j < |a + b| ensures (a + b)[i] != (a + b)[j] {
      if i < |a| <= j {
        assert a[i] in a && b[j - |a|] in b;
      }
    }
  }

  ghost predicate Below(s: seq<nat>, m: nat) {
    forall i :: 0 <= i < |s| ==> s[i] < m
  }

  /** Pigeonhole: at most `m` distinct numbers lie below `m`. */
  lemma {:induction false} Pigeonhole(s: seq<nat>, m: nat)
    requires Distinct(s) && Below(s, m)
    ensures |s| <= m
    decreases m
  {
    if s != [] {
      assert s[0] < m;
      if k :| 0 <= k < |s| && s[k] == m - 1 {
        Pigeonhole(s[..k] + s[k + 1..], m - 1);
      } else {
        Pigeonhole(s, m - 1);
      }
    }
  }
}
