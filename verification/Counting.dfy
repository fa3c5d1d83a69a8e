/** Cardinality facts for quorum arguments and bounded tables. */
module Counting {
  lemma {:induction false} DistinctCount<T>(s: seq<T>, bound: set<T>)
    requires forall i, j | 0 <= i < j < |s| :: s[i] != s[j]
    requires forall x | x in s :: x in bound
    ensures |s| <= |bound|
  {
    if s != [] {
      var last := s[|s| - 1];
      DistinctCount(s[..|s| - 1], bound - {last});
    }
  }

  lemma {:induction false} SubsetCount<T>(a: set<T>, b: set<T>)
    requires a <= b
    ensures |a| <= |b|
  {
    if a != {} {
      var x :| x in a;
      SubsetCount(a - {x}, b - {x});
    }
  }

  /** Two majorities of one electorate share a member. */
  lemma MajoritiesMeet<T>(a: set<T>, b: set<T>, all: set<T>)
    requires a <= all && b <= all
    requires 2 * |a| > |all| && 2 * |b| > |all|
    ensures a * b != {}
  {
    if a * b == {} {
      SubsetCount(a + b, all);
    }
  }

  lemma {:induction false} KeysInRange(keys: set<nat>, lo: nat, hi: nat)
    requires lo <= hi && forall k | k in keys :: lo <= k < hi
    ensures |keys| <= hi - lo
    decreases hi - lo
  {
    if lo == hi {
      assert keys == {};
    } else {
      KeysInRange(keys - {hi - 1}, lo, hi - 1);
      assert keys <= (keys - {hi - 1}) + {hi - 1};
    }
  }

  lemma {:induction false} FullRange(keys: set<nat>, n: nat)
    requires forall k | k in keys :: k < n
    ensures |keys| <= n
    ensures |keys| == n <==> forall k: nat | k < n :: k in keys
  {
    if n == 0 {
      assert keys == {};
    } else {
      FullRange(keys - {n - 1}, n - 1);
      assert n - 1 !in keys ==> keys - {n - 1} == keys;
      assert forall k: nat | k < n - 1 :: k in keys <==> k in keys - {n - 1};
    }
  }
}
