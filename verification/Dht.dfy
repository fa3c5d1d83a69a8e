/**
 * The Kademlia routing table (src/vpn/dht.rs): K-buckets, the bucket array and the
 * search for the nearest nodes.  The clock is a parameter.
 */
module Dht {
  import opened Wrappers
  import opened Identity
  import opened XorMetric
  import StableSort

  const K_BUCKET_SIZE: nat := 20

  datatype BucketEntry = BucketEntry(id: NodeId, addr: string, lastSeen: int)

  type Contact = (NodeId, string)

  // ---------------------------------------------------------------------
  //  One bucket
  // ---------------------------------------------------------------------

  /** The first entry with the id, or the length of the bucket. */
  function Position(s: seq<BucketEntry>, id: NodeId): (p: nat)
    ensures p <= |s| && (p < |s| ==> s[p].id == id)
    ensures forall i | 0 <= i < p :: s[i].id != id
  {
    if s == [] then 0 else if s[0].id == id then 0 else 1 + Position(s[1..], id)
  }

  /** A known node is updated where it stands; a full bucket hands back the rejected new entry. */
  function Inserted(s: seq<BucketEntry>, capacity: nat, e: BucketEntry): (seq<BucketEntry>, Result<bool, BucketEntry>) {
    var p := Position(s, e.id);
    if p < |s| then (s[p := e], Ok(false))
    else if |s| < capacity then (s + [e], Ok(true))
    else (s, Err(e))
  }

  function Touched(s: seq<BucketEntry>, id: NodeId, now: int): seq<BucketEntry> {
    var p := Position(s, id);
    if p < |s| then s[..p] + s[p + 1..] + [s[p].(lastSeen := now)] else s
  }

  function Removed(s: seq<BucketEntry>, id: NodeId): seq<BucketEntry> {
    var p := Position(s, id);
    if p < |s| then s[..p] + s[p + 1..] else s
  }

  /**
   * An insert hands something back exactly if the bucket is full of other nodes, and then it
   * is the new entry, which is never one of the bucket's; a known node keeps its place.
   */
  lemma InsertedIff(s: seq<BucketEntry>, capacity: nat, e: BucketEntry)
    ensures var (after, r) := Inserted(s, capacity, e);
      && (r.Err? <==> |s| >= capacity && forall i | 0 <= i < |s| :: s[i].id != e.id)
      && (r.Err? ==> r.error == e && e !in s && after == s)
      && forall i | 0 <= i < |s| :: i < |after| && after[i].id == s[i].id
  {
    if i :| 0 <= i < |s| && s[i].id == e.id {
      assert Position(s, e.id) <= i;
    }
  }

  class KBucket {
    var entries: seq<BucketEntry>
    const capacity: nat

    constructor (capacity: nat)
      ensures entries == [] && this.capacity == capacity
    {
      this.capacity := capacity;
      entries := [];
    }

    method Find(id: NodeId) returns (p: nat)
      ensures p == Position(entries, id)
    {
      p := 0;
      while p < |entries|
        invariant p <= |entries|
        invariant Position(entries, id) == p + Position(entries[p..], id)
      {
        if entries[p].id == id {
          return;
        }
        assert entries[p..][1..] == entries[p + 1..];
        p := p + 1;
      }
    }

    method Insert(id: NodeId, addr: string, now: int) returns (r: Result<bool, BucketEntry>)
      modifies this
      ensures (entries, r) == Inserted(old(entries), capacity, BucketEntry(id, addr, now))
    {
      var p := Find(id);
      if p < |entries| {
        entries := entries[p := entries[p].(lastSeen := now, addr := addr)];
        return Ok(false);
      }
      var entry := BucketEntry(id, addr, now);
      if |entries| < capacity {
        entries := entries + [entry];
        return Ok(true);
      }
      return Err(entry);
    }

    method Touch(id: NodeId, now: int) returns (found: bool)
      modifies this
      ensures entries == Touched(old(entries), id, now)
      ensures found <==> Position(old(entries), id) < |old(entries)|
    {
      var p := Find(id);
      if p < |entries| {
        var e := entries[p].(lastSeen := now);
        entries := entries[..p] + entries[p + 1..];
        entries := entries + [e];
        return true;
      }
      return false;
    }

    method Remove(id: NodeId) returns (r: Option<BucketEntry>)
      modifies this
      ensures entries == Removed(old(entries), id)
      ensures var p := Position(old(entries), id);
        r == if p < |old(entries)| then Some(old(entries)[p]) else None
    {
      var p := Find(id);
      if p < |entries| {
        r := Some(entries[p]);
        entries := entries[..p] + entries[p + 1..];
      } else {
        r := None;
      }
    }
  }

  // ---------------------------------------------------------------------
  //  The table
  // ---------------------------------------------------------------------

  type Table = t: seq<seq<BucketEntry>> | |t| == BUCKET_COUNT witness seq(BUCKET_COUNT, _ => [])

  datatype Op =
    | Insert(id: NodeId, addr: string, now: int)
    | Touch(id: NodeId, now: int)
    | Remove(id: NodeId)

  const EMPTY: Table := seq(BUCKET_COUNT, _ => [])

  lemma {:induction false} BucketInRange(d: seq<byte>)
    requires |d| <= ID_LENGTH
    ensures BucketOf(d) < BUCKET_COUNT
  {
    if d != [] && d[0] == 0 {
      BucketInRange(d[1..]);
    }
  }

  function Bucket(local: NodeId, id: NodeId): (i: nat)
    ensures i == BucketIndex(local, id) < BUCKET_COUNT
  {
    BucketInRange(Xor(local, id));
    BucketIndex(local, id)
  }

  function Apply(local: NodeId, t: Table, op: Op): Table {
    if op.id == local then t
    else
      var i := Bucket(local, op.id);
      match op
      case Insert(id, addr, now) => t[i := Inserted(t[i], K_BUCKET_SIZE, BucketEntry(id, addr, now)).0]
      case Touch(id, now) => t[i := Touched(t[i], id, now)]
      case Remove(id) => t[i := Removed(t[i], id)]
  }

  function Execute(local: NodeId, t: Table, run: seq<Op>): Table
    decreases |run|
  {
    if run == [] then t else Execute(local, Apply(local, t, run[0]), run[1..])
  }

  ghost predicate BucketInv(local: NodeId, i: nat, s: seq<BucketEntry>) {
    && |s| <= K_BUCKET_SIZE
    && (forall k | 0 <= k < |s| :: s[k].id != local && BucketIndex(local, s[k].id) == i)
    && (forall j, k | 0 <= j < k < |s| :: s[j].id != s[k].id)
  }

  ghost predicate TableInv(local: NodeId, t: Table) {
    forall i | 0 <= i < BUCKET_COUNT :: BucketInv(local, i, t[i])
  }

  lemma RemovalKeepsBucket(local: NodeId, i: nat, s: seq<BucketEntry>, p: nat)
    requires BucketInv(local, i, s) && p < |s|
    ensures BucketInv(local, i, s[..p] + s[p + 1..])
    ensures var r := s[..p] + s[p + 1..];
      forall k | 0 <= k < |r| :: r[k].id != s[p].id
  {
    var r := s[..p] + s[p + 1..];
    assert forall k | 0 <= k < |r| :: r[k] == s[if k < p then k else k + 1];
  }

  lemma AdditionKeepsBucket(local: NodeId, i: nat, s: seq<BucketEntry>, e: BucketEntry)
    requires BucketInv(local, i, s) && |s| < K_BUCKET_SIZE && e.id != local && BucketIndex(local, e.id) == i
    requires forall k | 0 <= k < |s| :: s[k].id != e.id
    ensures BucketInv(local, i, s + [e])
  {
  }

  lemma OpKeepsBucket(local: NodeId, s: seq<BucketEntry>, op: Op)
    requires op.id != local && BucketInv(local, Bucket(local, op.id), s)
    ensures match op
      case Insert(id, addr, now) =>
        BucketInv(local, Bucket(local, id), Inserted(s, K_BUCKET_SIZE, BucketEntry(id, addr, now)).0)
      case Touch(id, now) => BucketInv(local, Bucket(local, id), Touched(s, id, now))
      case Remove(id) => BucketInv(local, Bucket(local, id), Removed(s, id))
  {
    var i, p := Bucket(local, op.id), Position(s, op.id);
    if p < |s| {
      RemovalKeepsBucket(local, i, s, p);
      if op.Touch? {
        AdditionKeepsBucket(local, i, s[..p] + s[p + 1..], s[p].(lastSeen := op.now));
      }
    } else if op.Insert? && |s| < K_BUCKET_SIZE {
      AdditionKeepsBucket(local, i, s, BucketEntry(op.id, op.addr, op.now));
    }
  }

  /**
   * In every reachable table each id stands once, in the bucket of its shared prefix with
   * the local id, no bucket exceeds K entries and the local node is absent.
   */
  lemma {:induction false} EveryRunKeepsTable(local: NodeId, t: Table, run: seq<Op>)
    requires TableInv(local, t)
    ensures TableInv(local, Execute(local, t, run))
    decreases |run|
  {
    if run != [] {
      if run[0].id != local {
        OpKeepsBucket(local, t[Bucket(local, run[0].id)], run[0]);
      }
      EveryRunKeepsTable(local, Apply(local, t, run[0]), run[1..]);
    }
  }

  /** The contacts of a table in bucket order, as the searches collect them. */
  function Contacts(s: seq<BucketEntry>): seq<Contact> {
    seq(|s|, i requires 0 <= i < |s| => (s[i].id, s[i].addr))
  }

  function AllContacts(t: seq<seq<BucketEntry>>): seq<Contact> {
    if t == [] then [] else Contacts(t[0]) + AllContacts(t[1..])
  }

  lemma AllContactsFrom(t: seq<seq<BucketEntry>>, i: nat)
    requires i < |t|
    ensures AllContacts(t[i..]) == Contacts(t[i]) + AllContacts(t[i + 1..])
  {
    assert t[i..][1..] == t[i + 1..];
  }

  function DistanceKey(target: NodeId): Contact -> nat {
    (c: Contact) => Distance(target, c.0)
  }

  function Take<T>(s: seq<T>, count: nat): seq<T> {
    if |s| <= count then s else s[..count]
  }

  function FindNearest(t: Table, target: NodeId, count: nat): seq<Contact> {
    Take(StableSort.Sort(AllContacts(t), DistanceKey(target)), count)
  }

  class DhtManager {
    const localId: NodeId
    const buckets: array<KBucket>

    ghost predicate Valid()
      reads this, buckets, buckets[..]
    {
      && buckets.Length == BUCKET_COUNT
      && (forall i | 0 <= i < BUCKET_COUNT :: buckets[i].capacity == K_BUCKET_SIZE)
      && (forall i, j | 0 <= i < j < BUCKET_COUNT :: buckets[i] != buckets[j])
    }

    ghost function State(): Table
      requires Valid()
      reads this, buckets, buckets[..]
    {
      seq(BUCKET_COUNT, i requires 0 <= i < BUCKET_COUNT reads this, buckets, buckets[..] => buckets[i].entries)
    }

    constructor (localId: NodeId)
      ensures Valid() && State() == EMPTY && this.localId == localId
    {
      this.localId := localId;
      var first := new KBucket(K_BUCKET_SIZE);
      buckets := new KBucket[BUCKET_COUNT](_ => first);
      new;
      for i := 0 to BUCKET_COUNT
        invariant fresh(buckets)
        invariant forall k | 0 <= k < BUCKET_COUNT :: fresh(buckets[k])
        invariant forall k | 0 <= k < i ::
          buckets[k] != first && buckets[k].capacity == K_BUCKET_SIZE && buckets[k].entries == []
        invariant forall j, k | 0 <= j < k < i :: buckets[j] != buckets[k]
      {
        buckets[i] := new KBucket(K_BUCKET_SIZE);
      }
    }

    method InsertNode(id: NodeId, addr: string, now: int) returns (r: Result<bool, BucketEntry>)
      requires Valid()
      modifies buckets[..]
      ensures Valid() && State() == Apply(localId, old(State()), Insert(id, addr, now))
      ensures r == if id == localId then Ok(false)
        else Inserted(old(State())[Bucket(localId, id)], K_BUCKET_SIZE, BucketEntry(id, addr, now)).1
    {
      if id == localId {
        return Ok(false);
      }
      var idx := ComputeBucketIndex(localId, id);
      assert idx == Bucket(localId, id);
      r := buckets[idx].Insert(id, addr, now);
    }

    method TouchNode(id: NodeId, now: int) returns (found: bool)
      requires Valid()
      modifies buckets[..]
      ensures Valid() && State() == Apply(localId, old(State()), Touch(id, now))
      ensures var s := old(State())[Bucket(localId, id)];
        found <==> id != localId && Position(s, id) < |s|
    {
      if id == localId {
        return false;
      }
      var idx := ComputeBucketIndex(localId, id);
      assert idx == Bucket(localId, id);
      found := buckets[idx].Touch(id, now);
    }

    method RemoveNode(id: NodeId) returns (r: Option<BucketEntry>)
      requires Valid()
      modifies buckets[..]
      ensures Valid() && State() == Apply(localId, old(State()), Remove(id))
      ensures var s := old(State())[Bucket(localId, id)];
        r == if id != localId && Position(s, id) < |s| then Some(s[Position(s, id)]) else None
    {
      if id == localId {
        return None;
      }
      var idx := ComputeBucketIndex(localId, id);
      assert idx == Bucket(localId, id);
      r := buckets[idx].Remove(id);
    }

    method Collect() returns (all: seq<Contact>)
      requires Valid()
      ensures all == AllContacts(State())
    {
      all := [];
      ghost var t: seq<seq<BucketEntry>> := State();
      for i := 0 to BUCKET_COUNT
        invariant AllContacts(t) == all + AllContacts(t[i..])
      {
        AllContactsFrom(t, i);
        var contacts := CollectBucket(buckets[i].entries);
        all := all + contacts;
      }
    }

    static method CollectBucket(bucket: seq<BucketEntry>) returns (r: seq<Contact>)
      ensures r == Contacts(bucket)
    {
      r := [];
      for k := 0 to |bucket|
        invariant r == Contacts(bucket)[..k]
      {
        r := r + [(bucket[k].id, bucket[k].addr)];
      }
    }

    method Nearest(target: NodeId, count: nat) returns (r: seq<Contact>)
      requires Valid()
      ensures r == FindNearest(State(), target, count)
    {
      var candidates := Collect();
      r := Take(StableSort.Sort(candidates, DistanceKey(target)), count);
    }
  }
}
