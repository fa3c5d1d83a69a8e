/** What the routing table's searches return, over all reachable tables (src/vpn/dht.rs). */
module DhtNearest {
  import opened Identity
  import opened XorMetric
  import opened Dht
  import StableSort

  ghost predicate DistinctIds(s: seq<Contact>) {
    forall i, j | 0 <= i < j < |s| :: s[i].0 != s[j].0
  }

  /** Contacts of buckets i and up: distinct, and each in its own bucket. */
  lemma {:induction false} ContactsOfSuffix(local: NodeId, t: Table, i: nat)
    requires TableInv(local, t) && i <= BUCKET_COUNT
    ensures var s := AllContacts(t[i..]);
      && DistinctIds(s)
      && forall k | 0 <= k < |s| :: s[k].0 != local && BucketIndex(local, s[k].0) >= i
    decreases BUCKET_COUNT - i
  {
    if i < BUCKET_COUNT {
      AllContactsFrom(t, i);
      ContactsOfSuffix(local, t, i + 1);
      assert BucketInv(local, i, t[i]);
      var head, rest, s := Contacts(t[i]), AllContacts(t[i + 1..]), AllContacts(t[i..]);
      assert forall k | 0 <= k < |head| :: head[k].0 == t[i][k].id;
      assert s == head + rest;
    }
  }

  lemma ContactsAreDistinct(local: NodeId, t: Table)
    requires TableInv(local, t)
    ensures DistinctIds(AllContacts(t))
    ensures forall c | c in AllContacts(t) :: c.0 != local
  {
    ContactsOfSuffix(local, t, 0);
    assert t[0..] == t;
  }

  lemma {:induction false} DistinctMultiset(s: seq<Contact>)
    requires DistinctIds(s)
    ensures forall c :: multiset(s)[c] <= 1
  {
    if s != [] {
      DistinctMultiset(s[1..]);
      assert s == [s[0]] + s[1..];
      assert s[0] !in s[1..];
    }
  }

  lemma RepeatCounts(r: seq<Contact>, i: nat, j: nat)
    requires i < j < |r| && r[i] == r[j]
    ensures multiset(r)[r[i]] >= 2
  {
    assert r == r[..i] + [r[i]] + r[i + 1..j] + [r[j]] + r[j + 1..];
  }

  /** A rearrangement of contacts with distinct ids has distinct ids. */
  lemma SameContacts(s: seq<Contact>, r: seq<Contact>)
    requires DistinctIds(s) && multiset(r) == multiset(s)
    ensures DistinctIds(r) && |r| == |s| && forall c :: c in r <==> c in s
  {
    assert |r| == |multiset(r)| && |s| == |multiset(s)|;
    assert forall c :: c in r <==> c in multiset(r);
    assert forall c :: c in s <==> c in multiset(s);
    DistinctMultiset(s);
    forall i, j | 0 <= i < j < |r|
      ensures r[i].0 != r[j].0
    {
      if r[i] == r[j] {
        RepeatCounts(r, i, j);
      } else {
        assert r[i] in s && r[j] in s;
      }
    }
  }

  /** Sorting contacts with distinct ids by distance is strict. */
  lemma SortIsStrict(s: seq<Contact>, target: NodeId)
    requires DistinctIds(s)
    ensures var r := StableSort.Sort(s, DistanceKey(target));
      && |r| == |s| && (forall c :: c in r <==> c in s)
      && forall i, j | 0 <= i < j < |r| :: Distance(target, r[i].0) < Distance(target, r[j].0)
  {
    var key := DistanceKey(target);
    var r := StableSort.Sort(s, key);
    StableSort.SortIsStable(s, key);
    SameContacts(s, r);
    forall i, j | 0 <= i < j < |r|
      ensures Distance(target, r[i].0) < Distance(target, r[j].0)
    {
      assert key(r[i]) <= key(r[j]);
      if Distance(target, r[i].0) == Distance(target, r[j].0) {
        DistanceIsInjective(target, r[i].0, r[j].0);
      }
    }
  }

  /**
   * In every reachable table the search returns min(count, size) known nodes in strictly
   * ascending distance, and everything it leaves out is strictly farther.
   */
  lemma NearestIsExact(local: NodeId, run: seq<Op>, target: NodeId, count: nat)
    ensures var all := AllContacts(Execute(local, EMPTY, run));
      var r := FindNearest(Execute(local, EMPTY, run), target, count);
      && |r| == (if count < |all| then count else |all|)
      && (forall i, j | 0 <= i < j < |r| :: Distance(target, r[i].0) < Distance(target, r[j].0))
      && (forall c | c in r :: c in all)
      && (forall c, d | c in all && c !in r && d in r :: Distance(target, d.0) < Distance(target, c.0))
  {
    EveryRunKeepsTable(local, EMPTY, run);
    TakeNearest(local, Execute(local, EMPTY, run), target, count);
  }

  lemma TakeNearest(local: NodeId, t: Table, target: NodeId, count: nat)
    requires TableInv(local, t)
    ensures var all, r := AllContacts(t), FindNearest(t, target, count);
      && |r| == (if count < |all| then count else |all|)
      && (forall i, j | 0 <= i < j < |r| :: Distance(target, r[i].0) < Distance(target, r[j].0))
      && (forall c | c in r :: c in all)
      && (forall c, d | c in all && c !in r && d in r :: Distance(target, d.0) < Distance(target, c.0))
  {
    hide StableSort.Sort, Distance, AllContacts, TableInv;
    ContactsAreDistinct(local, t);
    SortIsStrict(AllContacts(t), target);
    var sorted := StableSort.Sort(AllContacts(t), DistanceKey(target));
    var r := FindNearest(t, target, count);
    forall c, d | c in AllContacts(t) && c !in r && d in r
      ensures Distance(target, d.0) < Distance(target, c.0)
    {
      assert c in sorted;
      var j :| 0 <= j < |sorted| && sorted[j] == c;
      var i :| 0 <= i < |r| && r[i] == d;
      assert j >= |r| && sorted[i] == d;
    }
  }

  /** In every reachable table earlier buckets hold strictly farther nodes. */
  lemma BucketsAreOrdered(local: NodeId, run: seq<Op>, i: nat, j: nat, a: nat, b: nat)
    requires i < j < BUCKET_COUNT
    requires var t := Execute(local, EMPTY, run); a < |t[i]| && b < |t[j]|
    ensures var t := Execute(local, EMPTY, run);
      Distance(local, t[i][a].id) > Distance(local, t[j][b].id)
  {
    var t := Execute(local, EMPTY, run);
    EveryRunKeepsTable(local, EMPTY, run);
    assert BucketInv(local, i, t[i]) && BucketInv(local, j, t[j]);
    EarlierBucketIsFarther(local, t[i][a].id, t[j][b].id);
  }
}
