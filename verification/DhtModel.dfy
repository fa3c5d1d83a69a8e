/**
 * The routing table against what it stands for (src/vpn/dht.rs): a map from known nodes to
 * address and time, bounded per distance band.
 */
module DhtModel {
  import opened Wrappers
  import opened Identity
  import opened XorMetric
  import opened Dht
  import opened DhtNearest

  type Model = map<NodeId, (string, int)>

  /** The known nodes that share exactly the first i bits with the local one. */
  function Sharing(local: NodeId, m: Model, i: nat): set<NodeId> {
    set id | id in m && BucketIndex(local, id) == i
  }

  /** A node can become known only while its band holds fewer than 20 others. */
  predicate Admits(local: NodeId, m: Model, id: NodeId) {
    id in m || |Sharing(local, m, BucketIndex(local, id))| < 20
  }

  function Learn(local: NodeId, m: Model, op: Op): Model {
    if op.id == local then m
    else match op
      case Insert(id, addr, now) => if Admits(local, m, id) then m[id := (addr, now)] else m
      case Touch(id, now) => if id in m then m[id := (m[id].0, now)] else m
      case Remove(id) => m - {id}
  }

  function LearnAll(local: NodeId, m: Model, run: seq<Op>): Model
    decreases |run|
  {
    if run == [] then m else LearnAll(local, Learn(local, m, run[0]), run[1..])
  }

  /** The table holds an entry, in the bucket of its band, exactly if the map does. */
  ghost predicate Models(local: NodeId, t: Table, m: Model) {
    && local !in m
    && forall e: BucketEntry | e.id != local ::
      e in t[Bucket(local, e.id)] <==> e.id in m && m[e.id] == (e.addr, e.lastSeen)
  }

  ghost predicate NoRepeats(s: seq<BucketEntry>) { forall j, k | 0 <= j < k < |s| :: s[j].id != s[k].id }

  function IdsOf(s: seq<BucketEntry>): set<NodeId> { set e | e in s :: e.id }

  lemma {:induction false} IdCount(s: seq<BucketEntry>)
    requires NoRepeats(s)
    ensures |IdsOf(s)| == |s|
  {
    if s != [] {
      var n := |s| - 1;
      IdCount(s[..n]);
      assert s == s[..n] + [s[n]];
      assert forall e | e in s[..n] :: e.id != s[n].id;
      assert IdsOf(s) == IdsOf(s[..n]) + {s[n].id};
    }
  }

  /** A bucket is as long as its band has known nodes. */
  lemma BandCount(local: NodeId, t: Table, m: Model, i: nat)
    requires TableInv(local, t) && Models(local, t, m) && i < BUCKET_COUNT
    ensures |t[i]| == |Sharing(local, m, i)|
  {
    var s := t[i];
    assert BucketInv(local, i, s);
    IdCount(s);
    forall id | id in Sharing(local, m, i)
      ensures id in IdsOf(s)
    {
      var e := BucketEntry(id, m[id].0, m[id].1);
      assert e in t[Bucket(local, e.id)];
    }
    forall id | id in IdsOf(s)
      ensures id in Sharing(local, m, i)
    {
      var e :| e in s && e.id == id;
      assert e in t[Bucket(local, e.id)];
    }
    assert IdsOf(s) == Sharing(local, m, i);
  }

  // ---------------------------------------------------------------------
  //  One bucket
  // ---------------------------------------------------------------------

  lemma PositionIsKnown(s: seq<BucketEntry>, id: NodeId)
    ensures Position(s, id) < |s| <==> exists e :: e in s && e.id == id
  {
    if e :| e in s && e.id == id {
      var k :| 0 <= k < |s| && s[k] == e;
    }
  }

  lemma InsertEffect(s: seq<BucketEntry>, e: BucketEntry)
    requires NoRepeats(s)
    ensures var (after, r) := Inserted(s, K_BUCKET_SIZE, e);
      && (forall x: BucketEntry | x.id != e.id :: x in after <==> x in s)
      && (forall x: BucketEntry | x.id == e.id :: x in after <==> r.Ok? && x == e)
      && (r.Err? <==> |s| >= K_BUCKET_SIZE && forall x | x in s :: x.id != e.id)
      && (r == Ok(false) <==> exists x :: x in s && x.id == e.id)
      && (r == Ok(true) <==> |s| < K_BUCKET_SIZE && forall x | x in s :: x.id != e.id)
      && (r.Err? ==> r == Err(e))
  {
    var (after, r) := Inserted(s, K_BUCKET_SIZE, e);
    PositionIsKnown(s, e.id);
    var p := Position(s, e.id);
    if p < |s| {
      assert s[p] in s && after[p] == e;
      forall x: BucketEntry | x.id != e.id
        ensures x in after <==> x in s
      {
        if x in s {
          var k :| 0 <= k < |s| && s[k] == x;
          assert after[k] == x;
        }
      }
    }
  }

  /** A bucket without one of its places. */
  lemma CutEffect(s: seq<BucketEntry>, p: nat)
    requires NoRepeats(s) && p < |s|
    ensures forall x :: x in s[..p] + s[p + 1..] <==> x in s && x.id != s[p].id
  {
    var rest := s[..p] + s[p + 1..];
    assert s == s[..p] + [s[p]] + s[p + 1..];
    forall x | x in rest
      ensures x.id != s[p].id
    {
      var k :| 0 <= k < |rest| && rest[k] == x;
      assert x == s[if k < p then k else k + 1];
    }
  }

  lemma TouchEffect(s: seq<BucketEntry>, id: NodeId, now: int)
    requires NoRepeats(s)
    ensures var after := Touched(s, id, now);
      && (forall x: BucketEntry | x.id != id :: x in after <==> x in s)
      && (forall x: BucketEntry | x.id == id ::
        x in after <==> x.lastSeen == now && exists e :: e in s && e.id == id && e.addr == x.addr)
  {
    PositionIsKnown(s, id);
    var p := Position(s, id);
    if p < |s| {
      CutEffect(s, p);
      assert s[p] in s;
      forall e | e in s && e.id == id
        ensures e == s[p]
      {
        var k :| 0 <= k < |s| && s[k] == e;
      }
    }
  }

  lemma RemoveEffect(s: seq<BucketEntry>, id: NodeId)
    requires NoRepeats(s)
    ensures forall x :: x in Removed(s, id) <==> x in s && x.id != id
  {
    PositionIsKnown(s, id);
    var p := Position(s, id);
    if p < |s| {
      CutEffect(s, p);
    }
  }

  // ---------------------------------------------------------------------
  //  The order of a bucket
  // ---------------------------------------------------------------------

  /** The ids of a bucket in order. */
  function Order(s: seq<BucketEntry>): seq<NodeId> { if s == [] then [] else [s[0].id] + Order(s[1..]) }

  function Without(s: seq<NodeId>, id: NodeId): seq<NodeId> {
    if s == [] then [] else (if s[0] == id then [] else [s[0]]) + Without(s[1..], id)
  }

  lemma {:induction false} OrderAppend(a: seq<BucketEntry>, b: seq<BucketEntry>)
    ensures Order(a + b) == Order(a) + Order(b)
  {
    if a == [] {
      assert a + b == b;
    } else {
      assert (a + b)[1..] == a[1..] + b;
      OrderAppend(a[1..], b);
    }
  }

  lemma {:induction false} OrderOfUpdate(s: seq<BucketEntry>, p: nat, e: BucketEntry)
    requires p < |s| && s[p].id == e.id
    ensures Order(s[p := e]) == Order(s)
  {
    assert s == s[..p] + [s[p]] + s[p + 1..] && s[p := e] == s[..p] + [e] + s[p + 1..];
    OrderAppend(s[..p] + [s[p]], s[p + 1..]);
    OrderAppend(s[..p] + [e], s[p + 1..]);
    OrderAppend(s[..p], [s[p]]);
    OrderAppend(s[..p], [e]);
    assert Order([e]) == Order([s[p]]);
  }

  lemma {:induction false} WithoutAbsent(s: seq<BucketEntry>, id: NodeId)
    requires forall k | 0 <= k < |s| :: s[k].id != id
    ensures Without(Order(s), id) == Order(s)
  {
    if s != [] {
      WithoutAbsent(s[1..], id);
    }
  }

  lemma {:induction false} WithoutOne(s: seq<BucketEntry>, p: nat)
    requires NoRepeats(s) && p < |s|
    ensures Without(Order(s), s[p].id) == Order(s[..p] + s[p + 1..])
  {
    if p == 0 {
      assert s[..0] + s[1..] == s[1..];
      WithoutAbsent(s[1..], s[0].id);
    } else {
      WithoutOne(s[1..], p - 1);
      var rest := s[..p] + s[p + 1..];
      assert rest[1..] == s[1..][..p - 1] + s[1..][p..] && rest[0] == s[0];
    }
  }

  lemma OrderAfterInsert(s: seq<BucketEntry>, e: BucketEntry)
    ensures Order(Inserted(s, K_BUCKET_SIZE, e).0) ==
      if Position(s, e.id) < |s| || |s| >= K_BUCKET_SIZE then Order(s) else Order(s) + [e.id]
  {
    if Position(s, e.id) < |s| {
      OrderOfUpdate(s, Position(s, e.id), e);
    } else {
      OrderAppend(s, [e]);
      assert Order([e]) == [e.id];
    }
  }

  lemma OrderAfterCut(s: seq<BucketEntry>, e: BucketEntry)
    requires NoRepeats(s)
    ensures Order(Touched(s, e.id, e.lastSeen)) ==
      if Position(s, e.id) < |s| then Without(Order(s), e.id) + [e.id] else Order(s)
    ensures Order(Removed(s, e.id)) == Without(Order(s), e.id)
  {
    hide NoRepeats, Order, Without;
    var p := Position(s, e.id);
    if p < |s| {
      var last := s[p].(lastSeen := e.lastSeen);
      WithoutOne(s, p);
      OrderAppend(s[..p] + s[p + 1..], [last]);
      OrderOfOne(last);
    } else {
      WithoutAbsent(s, e.id);
    }
  }

  lemma OrderOfOne(e: BucketEntry)
    ensures Order([e]) == [e.id]
  {
  }

  /**
   * A new node goes to the end of its bucket, a known one keeps its place when inserted, goes to
   * the end when touched and leaves when removed; the other nodes keep their order.
   */
  lemma BucketOrder(s: seq<BucketEntry>, e: BucketEntry)
    requires NoRepeats(s)
    ensures var known := exists x :: x in s && x.id == e.id;
      && Order(Inserted(s, K_BUCKET_SIZE, e).0) ==
        (if known || |s| >= K_BUCKET_SIZE then Order(s) else Order(s) + [e.id])
      && Order(Touched(s, e.id, e.lastSeen)) == (if known then Without(Order(s), e.id) + [e.id] else Order(s))
      && Order(Removed(s, e.id)) == Without(Order(s), e.id)
  {
    hide NoRepeats, Order, Without, Inserted, Touched, Removed;
    PositionIsKnown(s, e.id);
    OrderAfterInsert(s, e);
    OrderAfterCut(s, e);
  }

  // ---------------------------------------------------------------------
  //  Runs
  // ---------------------------------------------------------------------

  lemma BucketIsDistinct(local: NodeId, t: Table, i: nat)
    requires TableInv(local, t) && i < BUCKET_COUNT
    ensures NoRepeats(t[i])
  {
    assert BucketInv(local, i, t[i]);
  }

  /** The answer of an insert, from what is known. */
  lemma InsertAnswers(local: NodeId, t: Table, m: Model, e: BucketEntry)
    requires TableInv(local, t) && Models(local, t, m) && e.id != local
    ensures Inserted(t[Bucket(local, e.id)], K_BUCKET_SIZE, e).1 ==
      if e.id in m then Ok(false) else if Admits(local, m, e.id) then Ok(true) else Err(e)
  {
    hide Inserted;
    var i := Bucket(local, e.id);
    BucketIsDistinct(local, t, i);
    InsertEffect(t[i], e);
    BandCount(local, t, m, i);
    KnownIff(local, t, m, e.id);
    var known := exists x :: x in t[i] && x.id == e.id;
    assert known <==> e.id in m;
    assert Admits(local, m, e.id) <==> known || |t[i]| < K_BUCKET_SIZE;
  }

  lemma KnownIff(local: NodeId, t: Table, m: Model, id: NodeId)
    requires Models(local, t, m) && id != local
    ensures id in m <==> exists x :: x in t[Bucket(local, id)] && x.id == id
    ensures forall x | x in t[Bucket(local, id)] && x.id == id :: id in m && m[id] == (x.addr, x.lastSeen)
  {
    if id in m {
      var x := BucketEntry(id, m[id].0, m[id].1);
      assert x in t[Bucket(local, x.id)];
    }
    forall x | x in t[Bucket(local, id)] && x.id == id
      ensures id in m && m[id] == (x.addr, x.lastSeen)
    {
      assert x in t[Bucket(local, x.id)];
    }
  }

  /** Replacing one bucket changes what is known of one node. */
  lemma BucketReplaced(local: NodeId, t: Table, m: Model, id: NodeId, bucket: seq<BucketEntry>, after: Model)
    requires Models(local, t, m) && id != local
    requires forall x: BucketEntry | x.id != id :: x in bucket <==> x in t[Bucket(local, id)]
    requires forall x: BucketEntry | x.id == id :: x in bucket <==> id in after && after[id] == (x.addr, x.lastSeen)
    requires forall x | x != id :: (x in after <==> x in m) && (x in m ==> after[x] == m[x])
    ensures Models(local, t[Bucket(local, id) := bucket], after)
  {
    var table: Table := t[Bucket(local, id) := bucket];
    forall e: BucketEntry | e.id != local
      ensures e in table[Bucket(local, e.id)] <==> e.id in after && after[e.id] == (e.addr, e.lastSeen)
    {
      assert e in t[Bucket(local, e.id)] <==> e.id in m && m[e.id] == (e.addr, e.lastSeen);
    }
  }

  lemma OpRefines(local: NodeId, t: Table, m: Model, op: Op)
    requires TableInv(local, t) && Models(local, t, m)
    ensures Models(local, Apply(local, t, op), Learn(local, m, op))
  {
    hide Inserted, Touched, Removed, TableInv, Models;
    if op.id != local {
      var i, after := Bucket(local, op.id), Learn(local, m, op);
      BucketIsDistinct(local, t, i);
      KnownIff(local, t, m, op.id);
      match op {
        case Insert(id, addr, now) =>
          InsertEffect(t[i], BucketEntry(id, addr, now));
          InsertAnswers(local, t, m, BucketEntry(id, addr, now));
          BucketReplaced(local, t, m, id, Inserted(t[i], K_BUCKET_SIZE, BucketEntry(id, addr, now)).0, after);
        case Touch(id, now) =>
          TouchEffect(t[i], id, now);
          BucketReplaced(local, t, m, id, Touched(t[i], id, now), after);
        case Remove(id) =>
          RemoveEffect(t[i], id);
          BucketReplaced(local, t, m, id, Removed(t[i], id), after);
      }
    }
  }

  /**
   * The 256 buckets are the map: after any run of inserts, touches and removals the table holds
   * exactly the nodes the map knows, each once, with the address and time last given for it.
   */
  lemma {:induction false} TableIsMap(local: NodeId, t: Table, m: Model, run: seq<Op>)
    requires TableInv(local, t) && Models(local, t, m)
    ensures TableInv(local, Execute(local, t, run)) && Models(local, Execute(local, t, run), LearnAll(local, m, run))
    decreases |run|
  {
    hide TableInv, Models, Apply, Learn;
    if run != [] {
      OpRefines(local, t, m, run[0]);
      EveryRunKeepsTable(local, t, [run[0]]);
      OneOp(local, t, run[0]);
      TableIsMap(local, Apply(local, t, run[0]), Learn(local, m, run[0]), run[1..]);
    }
  }

  lemma OneOp(local: NodeId, t: Table, op: Op)
    ensures Execute(local, t, [op]) == Apply(local, t, op)
  {
    assert [op][1..] == [];
    assert Execute(local, t, [op]) == Execute(local, Apply(local, t, op), []);
  }

  lemma NothingKnown(local: NodeId)
    ensures TableInv(local, EMPTY) && Models(local, EMPTY, map[])
  {
  }

  lemma {:induction false} ContactMembers(t: seq<seq<BucketEntry>>)
    ensures forall c :: c in AllContacts(t) <==> exists i, k ::
      0 <= i < |t| && 0 <= k < |t[i]| && (t[i][k].id, t[i][k].addr) == c
  {
    if t != [] {
      var rest, all := t[1..], AllContacts(t);
      ContactMembers(rest);
      assert all == Contacts(t[0]) + AllContacts(rest);
      forall c
        ensures c in all <==> exists i, k ::
          0 <= i < |t| && 0 <= k < |t[i]| && (t[i][k].id, t[i][k].addr) == c
      {
        if c in all {
          if c in Contacts(t[0]) {
            var k :| 0 <= k < |Contacts(t[0])| && Contacts(t[0])[k] == c;
            assert (t[0][k].id, t[0][k].addr) == c;
          } else {
            var i, k :| 0 <= i < |rest| && 0 <= k < |rest[i]| && (rest[i][k].id, rest[i][k].addr) == c;
            assert t[i + 1][k] == rest[i][k];
          }
        }
        if i, k :| 0 <= i < |t| && 0 <= k < |t[i]| && (t[i][k].id, t[i][k].addr) == c {
          if i == 0 {
            assert Contacts(t[0])[k] == c;
          } else {
            assert rest[i - 1][k] == t[i][k];
          }
        }
      }
    }
  }

  /** The contacts of the table are the known nodes with their addresses, each once. */
  lemma ContactsAreKnown(local: NodeId, t: Table, m: Model)
    requires TableInv(local, t) && Models(local, t, m)
    ensures forall c :: c in AllContacts(t) <==> c.0 in m && m[c.0].0 == c.1
    ensures |AllContacts(t)| == |m|
  {
    hide AllContacts;
    ContactMembers(t);
    var all := AllContacts(t);
    forall c
      ensures c in all <==> c.0 in m && m[c.0].0 == c.1
    {
      if c in all {
        var i, k :| 0 <= i < |t| && 0 <= k < |t[i]| && (t[i][k].id, t[i][k].addr) == c;
        assert BucketInv(local, i, t[i]);
        assert t[i][k] in t[Bucket(local, t[i][k].id)];
      }
      if c.0 in m && m[c.0].0 == c.1 {
        var e := BucketEntry(c.0, m[c.0].0, m[c.0].1);
        var i := Bucket(local, e.id);
        assert e in t[i];
        var k :| 0 <= k < |t[i]| && t[i][k] == e;
        assert (t[i][k].id, t[i][k].addr) == c;
      }
    }
    ContactsAreDistinct(local, t);
    ContactCount(all, m);
  }

  lemma {:induction false} DistinctContacts(s: seq<Contact>)
    requires DistinctIds(s)
    ensures |set c | c in s :: c.0| == |s|
  {
    if s != [] {
      var n := |s| - 1;
      DistinctContacts(s[..n]);
      assert s == s[..n] + [s[n]];
      assert forall c | c in s[..n] :: c.0 != s[n].0;
      assert (set c | c in s :: c.0) == (set c | c in s[..n] :: c.0) + {s[n].0};
    }
  }

  lemma ContactCount(all: seq<Contact>, m: Model)
    requires DistinctIds(all) && forall c :: c in all <==> c.0 in m && m[c.0].0 == c.1
    ensures |all| == |m|
  {
    DistinctContacts(all);
    var ids := set c | c in all :: c.0;
    forall id | id in m
      ensures id in ids
    {
      assert (id, m[id].0) in all;
    }
    assert ids == m.Keys && |m| == |m.Keys|;
  }

  /**
   * After any run the search returns the min(count, size) nearest of the known nodes, with the
   * addresses last given for them, in strictly ascending distance.
   */
  lemma NearestOfKnown(local: NodeId, run: seq<Op>, target: NodeId, count: nat)
    ensures var m, r := LearnAll(local, map[], run), FindNearest(Execute(local, EMPTY, run), target, count);
      && |r| == (if count < |m| then count else |m|)
      && (forall i, j | 0 <= i < j < |r| :: Distance(target, r[i].0) < Distance(target, r[j].0))
      && (forall c | c in r :: c.0 in m && m[c.0].0 == c.1)
      && forall id, d | id in m && d in r && (id, m[id].0) !in r :: Distance(target, d.0) < Distance(target, id)
  {
    hide Distance, TableInv, Models, FindNearest, Execute, LearnAll;
    NothingKnown(local);
    TableIsMap(local, EMPTY, map[], run);
    var t, m := Execute(local, EMPTY, run), LearnAll(local, map[], run);
    ContactsAreKnown(local, t, m);
    TakeNearest(local, t, target, count);
  }
}
