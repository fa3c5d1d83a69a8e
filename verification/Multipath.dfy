/**
 * Fragmenting data over several paths and putting the fragments back in order
 * (src/vpn/multipath.rs).  Weights are real numbers; the iteration order of the path table is
 * a parameter; sequence numbers are assumed to stay below 2^64.
 */
module Multipath {
  import opened Wrappers
  import opened Identity
  import opened Slicing

  type Bytes = seq<byte>

  // ---------------------------------------------------------------------
  //  Receiver
  // ---------------------------------------------------------------------

  datatype Reorder = Reorder(buffer: map<nat, Bytes>, expected: nat)

  /** The first number from `start` on that is not buffered. */
  function RunEnd(buffer: map<nat, Bytes>, start: nat): (end: nat)
    ensures start <= end && end !in buffer
    ensures forall k :: start <= k < end ==> k in buffer
    decreases buffer.Keys
  {
    if start in buffer then RunEnd(buffer - {start}, start + 1) else start
  }

  lemma RunEndIsUnique(buffer: map<nat, Bytes>, start: nat, end: nat)
    requires start <= end && end !in buffer
    requires forall k :: start <= k < end ==> k in buffer
    ensures end == RunEnd(buffer, start)
  {
    var r := RunEnd(buffer, start);
    assert r < end ==> r in buffer;
  }

  function Without(buffer: map<nat, Bytes>, lo: nat, hi: nat): map<nat, Bytes> {
    map k | k in buffer && !(lo <= k < hi) :: buffer[k]
  }

  function Slice(buffer: map<nat, Bytes>, lo: nat, hi: nat): seq<Bytes>
    requires lo <= hi && forall k :: lo <= k < hi ==> k in buffer
  {
    seq(hi - lo, i requires 0 <= i < hi - lo => buffer[lo + i])
  }

  /** One arrival: an awaited fragment comes out with everything that now follows it. */
  function Inserted(r: Reorder, maxSize: nat, sn: nat, data: Bytes): (Reorder, Option<seq<Bytes>>) {
    if sn < r.expected then (r, None)
    else if sn == r.expected then
      var end := RunEnd(r.buffer, sn + 1);
      (Reorder(Without(r.buffer, sn + 1, end), end), Some([data] + Slice(r.buffer, sn + 1, end)))
    else if |r.buffer| < maxSize then (r.(buffer := r.buffer[sn := data]), None)
    else (r, None)
  }

  ghost predicate IsMinKey(m: nat, buffer: map<nat, Bytes>) {
    m in buffer && forall k | k in buffer :: m <= k
  }

  /** Skipping moves the awaited number up to the least buffered one, if that is larger. */
  ghost predicate SkipsTo(r: Reorder, after: Reorder, skipped: nat) {
    && after.buffer == r.buffer
    && after.expected == r.expected + skipped
    && (if exists m: nat :: IsMinKey(m, r.buffer) && m > r.expected
        then IsMinKey(after.expected, r.buffer) else skipped == 0)
  }

  class ReorderBuffer {
    var buffer: map<nat, Bytes>
    var expectedSeq: nat
    const maxSize: nat

    ghost function State(): Reorder
      reads this
    {
      Reorder(buffer, expectedSeq)
    }

    constructor (maxSize: nat)
      ensures State() == Reorder(map[], 0) && this.maxSize == maxSize
    {
      buffer, expectedSeq, this.maxSize := map[], 0, maxSize;
    }

    method Insert(sn: nat, data: Bytes) returns (out: Option<seq<Bytes>>)
      modifies this
      ensures (State(), out) == Inserted(old(State()), maxSize, sn, data)
      ensures out.Some? <==> sn == old(expectedSeq)
      ensures out.Some? ==> out.value != [] && out.value[0] == data && expectedSeq == old(expectedSeq) + |out.value|
      ensures out == None ==> expectedSeq == old(expectedSeq)
      ensures out == None ==>
        buffer == if sn > expectedSeq && |old(buffer)| < maxSize then old(buffer)[sn := data] else old(buffer)
    {
      if sn < expectedSeq {
        return None;
      }
      if sn == expectedSeq {
        ghost var start := buffer;
        expectedSeq := expectedSeq + 1;
        var result := [data];
        while expectedSeq in buffer
          invariant sn < expectedSeq
          invariant forall k :: sn < k < expectedSeq ==> k in start
          invariant buffer == Without(start, sn + 1, expectedSeq)
          invariant result == [data] + Slice(start, sn + 1, expectedSeq)
          decreases buffer.Keys
        {
          result := result + [buffer[expectedSeq]];
          buffer := buffer - {expectedSeq};
          expectedSeq := expectedSeq + 1;
        }
        RunEndIsUnique(start, sn + 1, expectedSeq);
        return Some(result);
      } else {
        if |buffer| < maxSize {
          buffer := buffer[sn := data];
        }
        return None;
      }
    }

    method SkipLost() returns (skipped: nat)
      modifies this
      ensures SkipsTo(old(State()), State(), skipped)
    {
      if |buffer| > 0 {
        var minSeq := MinKey();
        if minSeq > expectedSeq {
          skipped := minSeq - expectedSeq;
          expectedSeq := minSeq;
        } else {
          skipped := 0;
        }
      } else {
        skipped := 0;
      }
    }

    method MinKey() returns (m: nat)
      requires |buffer| > 0
      ensures IsMinKey(m, buffer)
    {
      var keys := buffer.Keys;
      assert |keys| == |buffer|;
      m :| m in keys;
      keys := keys - {m};
      while keys != {}
        invariant keys <= buffer.Keys && m in buffer
        invariant forall k | k in buffer && k !in keys :: m <= k
        decreases keys
      {
        var k :| k in keys;
        if k < m {
          m := k;
        }
        keys := keys - {k};
      }
    }

    method Clear()
      modifies this
      ensures State() == Reorder(map[], 0)
    {
      buffer, expectedSeq := map[], 0;
    }
  }

  // ---------------------------------------------------------------------
  //  Sender
  // ---------------------------------------------------------------------

  type PathId = nat

  datatype PathState = Active | Degraded | Dead

  datatype PathInfo = PathInfo(id: PathId, weight: real, state: PathState)

  datatype Fragment = Fragment(sn: nat, streamId: nat, data: Bytes, totalFragments: nat)

  function Weight(paths: seq<PathInfo>, k: nat): real
    requires k <= |paths|
  {
    if k == 0 then 0.0 else Weight(paths, k - 1) + paths[k - 1].weight
  }

  /** The first j + 1 paths together fall short of a number. */
  ghost predicate Short(paths: seq<PathInfo>, sn: nat, j: nat) {
    j < |paths| && Weight(paths, j + 1) < sn as real
  }

  /** The path a number goes to: the first whose cumulated weight reaches it, else the last. */
  ghost predicate Chosen(paths: seq<PathInfo>, sn: nat, k: nat) {
    && k < |paths|
    && (forall j: nat :: j < k ==> Short(paths, sn, j))
    && (k == |paths| - 1 || !Short(paths, sn, k))
  }

  lemma ShortStays(paths: seq<PathInfo>, sn: nat, later: nat, k: nat)
    requires sn <= later && forall j: nat :: j < k ==> Short(paths, sn, j)
    ensures forall j: nat :: j < k ==> Short(paths, later, j)
  {
    assert forall j: nat | j < k :: Short(paths, sn, j) ==> Short(paths, later, j);
  }

  /** A fragment leaves on exactly the path chosen for its number. */
  ghost predicate SentAs(item: (PathId, Fragment), paths: seq<PathInfo>, f: Fragment) {
    && item.1 == f
    && exists k: nat :: Chosen(paths, f.sn, k) && item.0 == paths[k].id
  }

  /** The pieces of one send, numbered from `first` on, each on its path. */
  ghost predicate IsSend(
    result: seq<(PathId, Fragment)>, paths: seq<PathInfo>, first: nat, streamId: nat, pieces: seq<Bytes>) {
    && |result| == |pieces|
    && forall i | 0 <= i < |result| ::
      SentAs(result[i], paths, Fragment(first + i, streamId, pieces[i], |pieces|))
  }

  ghost predicate OnlyLiving(paths: map<PathId, PathInfo>, order: seq<PathId>, r: seq<PathInfo>) {
    forall p | p in r :: p.id in order && p.id in paths && paths[p.id] == p && p.state != Dead
  }

  ghost predicate AllLiving(paths: map<PathId, PathInfo>, order: seq<PathId>, r: seq<PathInfo>) {
    forall id | id in order && id in paths && paths[id].state != Dead :: paths[id] in r
  }

  ghost predicate InOrder(order: seq<PathId>, r: seq<PathInfo>) {
    forall i, j | 0 <= i < j < |r| :: Precedes(order, r[i].id, r[j].id)
  }

  /** Exactly the paths of the table that are not dead, each once, in the order the table yields them. */
  ghost predicate ListsLiving(paths: map<PathId, PathInfo>, order: seq<PathId>, r: seq<PathInfo>) {
    OnlyLiving(paths, order, r) && AllLiving(paths, order, r) && InOrder(order, r)
  }

  ghost predicate Precedes(order: seq<PathId>, a: PathId, b: PathId) {
    exists k, l :: 0 <= k < l < |order| && order[k] == a && order[l] == b
  }

  function Living(paths: map<PathId, PathInfo>, order: seq<PathId>): (r: seq<PathInfo>)
    requires forall id | id in order :: id in paths
    ensures forall p | p in r :: p.state != Dead && exists id :: id in order && paths[id] == p
    ensures r == [] <==> forall id | id in order :: paths[id].state == Dead
  {
    if order == [] then []
    else
      var first := paths[order[0]];
      (if first.state != Dead then [first] else []) + Living(paths, order[1..])
  }

  lemma PrecedesLater(order: seq<PathId>, a: PathId, b: PathId)
    requires order != [] && Precedes(order[1..], a, b)
    ensures Precedes(order, a, b)
  {
    var k, l :| 0 <= k < l < |order[1..]| && order[1..][k] == a && order[1..][l] == b;
    assert order[k + 1] == a && order[l + 1] == b;
  }

  lemma LivingNext(paths: map<PathId, PathInfo>, order: seq<PathId>)
    requires order != [] && forall id | id in order :: id in paths
    ensures Living(paths, order) ==
      (if paths[order[0]].state != Dead then [paths[order[0]]] else []) + Living(paths, order[1..])
  {
  }

  lemma {:induction false} LivingMembers(paths: map<PathId, PathInfo>, order: seq<PathId>)
    requires forall id | id in order :: id in paths && paths[id].id == id
    ensures OnlyLiving(paths, order, Living(paths, order)) && AllLiving(paths, order, Living(paths, order))
  {
    hide Living;
    if order == [] {
      assert Living(paths, order) == [];
    } else {
      LivingNext(paths, order);
      LivingMembers(paths, order[1..]);
      assert forall id :: id in order <==> id == order[0] || id in order[1..];
    }
  }

  lemma {:induction false} LivingOrdered(paths: map<PathId, PathInfo>, order: seq<PathId>)
    requires forall id | id in order :: id in paths && paths[id].id == id
    ensures InOrder(order, Living(paths, order))
  {
    hide Living, Precedes;
    if order == [] {
      assert Living(paths, order) == [];
    } else {
      LivingNext(paths, order);
      LivingOrdered(paths, order[1..]);
      LivingMembers(paths, order[1..]);
      var r, tail := Living(paths, order), Living(paths, order[1..]);
      var skip := |r| - |tail|;
      forall i, j | 0 <= i < j < |r|
        ensures Precedes(order, r[i].id, r[j].id)
      {
        assert r[j] == tail[j - skip];
        if i < skip {
          assert tail[j - skip] in tail;
          FirstPrecedes(order, r[j].id);
        } else {
          assert r[i] == tail[i - skip];
          PrecedesLater(order, r[i].id, r[j].id);
        }
      }
    }
  }

  lemma LivingIsExact(paths: map<PathId, PathInfo>, order: seq<PathId>)
    requires forall id | id in order :: id in paths && paths[id].id == id
    ensures ListsLiving(paths, order, Living(paths, order))
  {
    hide Living, InOrder, OnlyLiving, AllLiving;
    LivingMembers(paths, order);
    LivingOrdered(paths, order);
  }

  lemma FirstPrecedes(order: seq<PathId>, b: PathId)
    requires order != [] && b in order[1..]
    ensures Precedes(order, order[0], b)
  {
    var l :| 0 <= l < |order[1..]| && order[1..][l] == b;
    assert order[l + 1] == b;
  }

  ghost predicate NoRepeats(order: seq<PathId>) { forall i, j | 0 <= i < j < |order| :: order[i] != order[j] }

  /** Two lists in the order of the same keys, with the same members, are the same. */
  lemma {:induction false} OnlyOneListing(order: seq<PathId>, r: seq<PathInfo>, q: seq<PathInfo>)
    requires NoRepeats(order) && InOrder(order, r) && InOrder(order, q)
    requires forall p :: p in r <==> p in q
    ensures r == q
    decreases |r|
  {
    if r != [] {
      assert r[0] in q;
    }
    if q != [] {
      assert q[0] in r;
      SameHead(order, r, q);
      TailInOrder(order, r);
      TailInOrder(order, q);
      hide InOrder, NoRepeats;
      assert r == [r[0]] + r[1..] && q == [q[0]] + q[1..];
      forall p
        ensures p in r[1..] <==> p in q[1..]
      {
        assert p in r <==> p == r[0] || p in r[1..];
        assert p in q <==> p == q[0] || p in q[1..];
      }
      OnlyOneListing(order, r[1..], q[1..]);
    }
  }

  lemma NotBoth(order: seq<PathId>, a: PathId, b: PathId)
    requires NoRepeats(order) && Precedes(order, a, b)
    ensures a != b && !Precedes(order, b, a)
  {
  }

  lemma SameHead(order: seq<PathId>, r: seq<PathInfo>, q: seq<PathInfo>)
    requires NoRepeats(order) && InOrder(order, r) && InOrder(order, q) && r != [] && q != []
    requires forall p :: p in r <==> p in q
    ensures r[0] == q[0]
  {
    hide NoRepeats, Precedes;
    assert r[0] in q && q[0] in r;
    var i :| 0 <= i < |q| && q[i] == r[0];
    var j :| 0 <= j < |r| && r[j] == q[0];
    if i > 0 && j > 0 {
      NotBoth(order, q[0].id, r[0].id);
    }
  }

  lemma TailInOrder(order: seq<PathId>, r: seq<PathInfo>)
    requires NoRepeats(order) && InOrder(order, r) && r != []
    ensures InOrder(order, r[1..]) && r[0] !in r[1..]
  {
    hide Precedes, NoRepeats;
    forall i | 0 <= i < |r[1..]|
      ensures r[1..][i] != r[0]
    {
      assert r[1..][i] == r[i + 1];
      NotBoth(order, r[0].id, r[i + 1].id);
    }
  }

  /** There is only one such list. */
  lemma ListingIsLiving(paths: map<PathId, PathInfo>, order: seq<PathId>, r: seq<PathInfo>)
    requires NoRepeats(order) && ListsLiving(paths, order, r)
    requires forall id | id in order :: id in paths && paths[id].id == id
    ensures r == Living(paths, order)
  {
    hide Living, InOrder, NoRepeats;
    LivingIsExact(paths, order);
    OnlyOneListing(order, r, Living(paths, order));
  }

  /** The listed paths have distinct ids. */
  lemma ListedAreDistinct(paths: map<PathId, PathInfo>, order: seq<PathId>, r: seq<PathInfo>)
    requires ListsLiving(paths, order, r)
    requires NoRepeats(order)
    ensures forall i, j | 0 <= i < j < |r| :: r[i].id != r[j].id
  {
    forall i, j | 0 <= i < j < |r|
      ensures r[i].id != r[j].id
    {
      NotBoth(order, r[i].id, r[j].id);
    }
  }

  lemma SentOnLiving(
    paths: map<PathId, PathInfo>, order: seq<PathId>, live: seq<PathInfo>,
    result: seq<(PathId, Fragment)>, first: nat, streamId: nat, pieces: seq<Bytes>)
    requires ListsLiving(paths, order, live) && IsSend(result, live, first, streamId, pieces)
    ensures forall i | 0 <= i < |result| :: result[i].0 in paths && paths[result[i].0].state != Dead
  {
    hide AllLiving, InOrder;
    forall i | 0 <= i < |result|
      ensures result[i].0 in paths && paths[result[i].0].state != Dead
    {
      assert SentAs(result[i], live, Fragment(first + i, streamId, pieces[i], |pieces|));
      var k: nat :| Chosen(live, first + i, k) && result[i].0 == live[k].id;
      assert live[k] in live;
    }
  }

  class MultiPathManager {
    var paths: map<PathId, PathInfo>
    var nextPathId: PathId
    var nextSeq: nat
    var fragmentSize: nat

    /** Paths are filed under their own id, and weights lie in the range they are cut to. */
    ghost predicate Valid()
      reads this
    {
      forall id | id in paths :: paths[id].id == id < nextPathId && 0.1 <= paths[id].weight <= 1.0
    }

    constructor ()
      ensures Valid() && paths == map[] && nextPathId == 1 && nextSeq == 0 && fragmentSize == 1400
    {
      paths, nextPathId, nextSeq, fragmentSize := map[], 1, 0, 1400;
    }

    method AddPath() returns (id: PathId)
      requires Valid()
      modifies this
      ensures Valid() && id == old(nextPathId) && id !in old(paths) && nextPathId == id + 1
      ensures paths == old(paths)[id := PathInfo(id, 1.0, Active)]
      ensures nextSeq == old(nextSeq) && fragmentSize == old(fragmentSize)
    {
      id := nextPathId;
      nextPathId := nextPathId + 1;
      paths := paths[id := PathInfo(id, 1.0, Active)];
    }

    method SetFragmentSize(size: nat)
      modifies this`fragmentSize
      ensures fragmentSize == size
    {
      fragmentSize := size;
    }

    method FragmentData(data: Bytes) returns (fragments: seq<(nat, Bytes)>)
      requires fragmentSize > 0
      modifies this`nextSeq
      ensures nextSeq == old(nextSeq) + |fragments|
      ensures |fragments| == |Pieces(data, fragmentSize)|
      ensures forall i | 0 <= i < |fragments| ::
        fragments[i] == (old(nextSeq) + i, Pieces(data, fragmentSize)[i])
    {
      fragments := [];
      var offset, sn := 0, nextSeq;
      nextSeq := nextSeq + (|data| + fragmentSize - 1) / fragmentSize;
      ghost var pieces := Pieces(data, fragmentSize);
      PieceCount(data, fragmentSize);
      assert data[0..] == data;
      while offset < |data|
        invariant offset <= |data| && |fragments| <= |pieces|
        invariant sn == old(nextSeq) + |fragments|
        invariant pieces[|fragments|..] == Pieces(data[offset..], fragmentSize)
        invariant forall i | 0 <= i < |fragments| :: fragments[i] == (old(nextSeq) + i, pieces[i])
      {
        var end := if offset + fragmentSize <= |data| then offset + fragmentSize else |data|;
        ghost var rest := data[offset..];
        assert Pieces(rest, fragmentSize)[0] == data[offset..end] by {
          assert rest[..end - offset] == data[offset..end];
        }
        assert Pieces(rest, fragmentSize)[1..] == Pieces(data[end..], fragmentSize) by {
          assert rest[end - offset..] == data[end..];
        }
        assert pieces[|fragments|..][0] == pieces[|fragments|];
        assert pieces[|fragments|..][1..] == pieces[|fragments| + 1..];
        fragments := fragments + [(sn, data[offset..end])];
        sn := sn + 1;
        offset := end;
      }
      assert pieces[|fragments|..] == [];
    }

    /** The order lists the table's keys, in whatever order the table yields them. */
    method SendViaPaths(data: Bytes, streamId: nat, order: seq<PathId>)
      returns (result: seq<(PathId, Fragment)>)
      requires Valid() && fragmentSize > 0
      requires forall id :: id in order <==> id in paths
      requires NoRepeats(order)
      modifies this`nextSeq
      ensures nextSeq == old(nextSeq) + |result|
      ensures ListsLiving(paths, order, Living(paths, order))
      ensures Living(paths, order) == [] ==> result == []
      ensures Living(paths, order) != [] ==>
        IsSend(result, Living(paths, order), old(nextSeq), streamId, Pieces(data, fragmentSize))
      ensures forall i | 0 <= i < |result| ::
        result[i].0 in paths && paths[result[i].0].state != Dead
    {
      hide Living, Pieces, ListsLiving, NoRepeats;
      LivingIsExact(paths, order);
      var activePaths := Living(paths, order);
      result := [];
      if activePaths == [] {
        return;
      }
      var fragments := FragmentData(data);
      var totalFragments := |fragments|;
      var pathIdx := 0;
      var accum := activePaths[0].weight;
      ghost var reached: nat := nextSeq - |fragments|;
      for i := 0 to |fragments|
        invariant nextSeq == old(nextSeq) + |fragments|
        invariant |result| == i && pathIdx < |activePaths|
        invariant accum == Weight(activePaths, pathIdx + 1)
        invariant reached <= old(nextSeq) + i
        invariant forall j: nat :: j < pathIdx ==> Short(activePaths, reached, j)
        invariant forall j | 0 <= j < i ::
          SentAs(result[j], activePaths, Fragment(old(nextSeq) + j, streamId, fragments[j].1, totalFragments))
      {
        var (sn, fragData) := fragments[i];
        ShortStays(activePaths, reached, sn, pathIdx);
        reached := sn;
        while pathIdx < |activePaths| - 1 && accum < sn as real
          invariant pathIdx < |activePaths|
          invariant accum == Weight(activePaths, pathIdx + 1)
          invariant forall j: nat :: j < pathIdx ==> Short(activePaths, sn, j)
        {
          pathIdx := pathIdx + 1;
          accum := accum + activePaths[pathIdx].weight;
        }
        assert Chosen(activePaths, sn, pathIdx);
        var path := activePaths[pathIdx];
        result := result + [(path.id, Fragment(sn, streamId, fragData, totalFragments))];
      }
      SentOnLiving(paths, order, activePaths, result, old(nextSeq), streamId, Pieces(data, fragmentSize));
    }
  }
}
