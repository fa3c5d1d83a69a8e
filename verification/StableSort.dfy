/**
 * `slice::sort_by` of Rust's standard library: a stable sort by a numeric key.
 * StableSortIsUnique shows that modelling it by insertion loses nothing.
 */
module StableSort {
  ghost predicate SortedBy<T(!new)>(s: seq<T>, key: T -> nat) {
    forall i, j | 0 <= i < j < |s| :: key(s[i]) <= key(s[j])
  }

  function Insert<T>(x: T, s: seq<T>, key: T -> nat): seq<T> {
    if s == [] || key(x) <= key(s[0]) then [x] + s
    else [s[0]] + Insert(x, s[1..], key)
  }

  function Sort<T>(s: seq<T>, key: T -> nat): seq<T> {
    if s == [] then [] else Insert(s[0], Sort(s[1..], key), key)
  }

  /** The elements of one key, in order. */
  function WithKey<T>(s: seq<T>, key: T -> nat, k: nat): seq<T> {
    if s == [] then []
    else (if key(s[0]) == k then [s[0]] else []) + WithKey(s[1..], key, k)
  }

  ghost predicate IsStableSort<T(!new)>(s: seq<T>, r: seq<T>, key: T -> nat) {
    SortedBy(r, key) && forall k :: WithKey(r, key, k) == WithKey(s, key, k)
  }

  lemma {:induction false} InsertAdds<T(!new)>(x: T, s: seq<T>, key: T -> nat)
    ensures multiset(Insert(x, s, key)) == multiset{x} + multiset(s)
  {
    if s != [] && key(x) > key(s[0]) {
      InsertAdds(x, s[1..], key);
      assert s == [s[0]] + s[1..];
    }
  }

  lemma {:induction false} InsertSorts<T(!new)>(x: T, s: seq<T>, key: T -> nat)
    requires SortedBy(s, key)
    ensures SortedBy(Insert(x, s, key), key)
  {
    if s != [] && key(x) > key(s[0]) {
      var rest := Insert(x, s[1..], key);
      InsertSorts(x, s[1..], key);
      InsertAdds(x, s[1..], key);
      forall j | 0 <= j < |rest|
        ensures key(s[0]) <= key(rest[j])
      {
        assert rest[j] in multiset(rest);
        assert rest[j] == x || rest[j] in s[1..];
      }
    }
  }

  lemma WithKeyCons<T(!new)>(h: T, s: seq<T>, key: T -> nat, k: nat)
    ensures WithKey([h] + s, key, k) == (if key(h) == k then [h] else []) + WithKey(s, key, k)
  {
    assert ([h] + s)[1..] == s;
  }

  lemma {:induction false} InsertIsStable<T(!new)>(x: T, s: seq<T>, key: T -> nat, k: nat)
    ensures WithKey(Insert(x, s, key), key, k) == (if key(x) == k then [x] else []) + WithKey(s, key, k)
  {
    hide WithKey;
    if s == [] || key(x) <= key(s[0]) {
      WithKeyCons(x, s, key, k);
    } else {
      assert s == [s[0]] + s[1..];
      InsertIsStable(x, s[1..], key, k);
      WithKeyCons(s[0], s[1..], key, k);
      WithKeyCons(s[0], Insert(x, s[1..], key), key, k);
    }
  }

  lemma {:induction false} SortIsStable<T(!new)>(s: seq<T>, key: T -> nat)
    ensures IsStableSort(s, Sort(s, key), key)
    ensures multiset(Sort(s, key)) == multiset(s)
  {
    if s != [] {
      SortIsStable(s[1..], key);
      InsertAdds(s[0], Sort(s[1..], key), key);
      InsertSorts(s[0], Sort(s[1..], key), key);
      forall k
        ensures WithKey(Sort(s, key), key, k) == WithKey(s, key, k)
      {
        InsertIsStable(s[0], Sort(s[1..], key), key, k);
      }
      assert s == [s[0]] + s[1..];
    }
  }

  lemma SortLength<T(!new)>(s: seq<T>, key: T -> nat)
    ensures |Sort(s, key)| == |s|
  {
    SortIsStable(s, key);
    assert |multiset(Sort(s, key))| == |multiset(s)|;
  }

  lemma {:induction false} KeyOccurs<T(!new)>(s: seq<T>, key: T -> nat, k: nat)
    ensures WithKey(s, key, k) != [] <==> exists i :: 0 <= i < |s| && key(s[i]) == k
  {
    if s != [] {
      KeyOccurs(s[1..], key, k);
      if i :| 0 <= i < |s[1..]| && key(s[1..][i]) == k {
        assert key(s[i + 1]) == k;
      }
    }
  }

  lemma SameHeads<T(!new)>(a: seq<T>, b: seq<T>, key: T -> nat)
    requires a != [] && SortedBy(a, key) && SortedBy(b, key)
    requires forall k :: WithKey(a, key, k) == WithKey(b, key, k)
    ensures b != [] && key(b[0]) <= key(a[0])
  {
    var k := key(a[0]);
    KeyOccurs(a, key, k);
    KeyOccurs(b, key, k);
    assert key(a[0]) == k;
  }

  lemma {:induction false} OneOrder<T(!new)>(a: seq<T>, b: seq<T>, key: T -> nat)
    requires SortedBy(a, key) && SortedBy(b, key)
    requires forall k :: WithKey(a, key, k) == WithKey(b, key, k)
    ensures a == b
  {
    if a != [] {
      SameHeads(a, b, key);
      SameHeads(b, a, key);
      assert WithKey(a, key, key(a[0]))[0] == a[0] && WithKey(b, key, key(b[0]))[0] == b[0];
      forall k
        ensures WithKey(a[1..], key, k) == WithKey(b[1..], key, k)
      {
        var head := if key(a[0]) == k then [a[0]] else [];
        assert WithKey(a, key, k)[|head|..] == WithKey(a[1..], key, k);
        assert WithKey(b, key, k)[|head|..] == WithKey(b[1..], key, k);
      }
      OneOrder(a[1..], b[1..], key);
      assert a == [a[0]] + a[1..] && b == [b[0]] + b[1..];
    } else if b != [] {
      SameHeads(b, a, key);
    }
  }

  /** There is only one stable sort of a list. */
  lemma StableSortIsUnique<T(!new)>(s: seq<T>, r: seq<T>, key: T -> nat)
    requires IsStableSort(s, r, key)
    ensures r == Sort(s, key)
  {
    SortIsStable(s, key);
    OneOrder(r, Sort(s, key), key);
  }

  /** Sorting a sorted list changes nothing. */
  lemma SortedIsFixed<T(!new)>(s: seq<T>, key: T -> nat)
    requires SortedBy(s, key)
    ensures Sort(s, key) == s
  {
    StableSortIsUnique(s, s, key);
  }
}
