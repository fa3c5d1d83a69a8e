/**
 * How a send divides its data among the paths, against the promised shares: each path its
 * weight's part of the total (src/vpn/multipath.rs, send_via_paths).
 */
module MultipathShare {
  import opened Slicing
  import opened Multipath

  // ---------------------------------------------------------------------
  //  The path of a number
  // ---------------------------------------------------------------------

  ghost predicate Positive(paths: seq<PathInfo>) { forall p | p in paths :: p.weight > 0.0 }

  lemma {:induction false} WeightGrows(paths: seq<PathInfo>, j: nat, k: nat)
    requires Positive(paths) && j < k <= |paths|
    ensures Weight(paths, j) < Weight(paths, k)
  {
    assert paths[k - 1] in paths;
    if j < k - 1 {
      WeightGrows(paths, j, k - 1);
    }
  }

  lemma {:induction false} EveryNumberHasOnePath(paths: seq<PathInfo>, sn: nat)
    requires paths != []
    ensures exists k: nat :: Chosen(paths, sn, k) && forall l: nat :: Chosen(paths, sn, l) ==> l == k
  {
    var k := 0;
    while k < |paths| - 1 && Weight(paths, k + 1) < sn as real
      invariant k < |paths|
      invariant forall j: nat :: j < k ==> Short(paths, sn, j)
    {
      k := k + 1;
    }
    assert Chosen(paths, sn, k);
    forall l: nat | Chosen(paths, sn, l)
      ensures l == k
    {
    }
  }

  ghost predicate Between(paths: seq<PathInfo>, sn: nat, k: nat)
    requires k < |paths|
  {
    && (k == 0 || Weight(paths, k) < sn as real)
    && (k == |paths| - 1 || sn as real <= Weight(paths, k + 1))
  }

  /** Path k takes exactly the numbers between two cumulated weights; the last path all beyond. */
  lemma ChosenIff(paths: seq<PathInfo>, sn: nat, k: nat)
    requires Positive(paths) && k < |paths|
    ensures Chosen(paths, sn, k) <==> Between(paths, sn, k)
  {
    if k > 0 {
      assert Short(paths, sn, k - 1) <==> Weight(paths, k) < sn as real;
    }
    forall j: nat | j < k && (k == 0 || Weight(paths, k) < sn as real)
      ensures Short(paths, sn, j)
    {
      if j + 1 < k {
        WeightGrows(paths, j + 1, k);
      }
    }
  }

  /** The last path takes a number exactly if it is the only one or the others fall short of it. */
  lemma LastPathIff(paths: seq<PathInfo>, sn: nat)
    requires Positive(paths) && paths != []
    ensures Chosen(paths, sn, |paths| - 1) <==> |paths| == 1 || Weight(paths, |paths| - 1) < sn as real
  {
    ChosenIff(paths, sn, |paths| - 1);
  }

  lemma {:induction false} WeightAtMost(paths: seq<PathInfo>, k: nat)
    requires k <= |paths|
    requires forall p | p in paths :: p.weight <= 1.0
    ensures Weight(paths, k) <= k as real
  {
    if k > 0 {
      WeightAtMost(paths, k - 1);
      assert paths[k - 1] in paths;
    }
  }

  /** Since no weight exceeds one, every number from the count of living paths on takes the last path. */
  lemma LateFragmentsShareOnePath(paths: seq<PathInfo>, sn: nat)
    requires Positive(paths) && paths != [] && forall p | p in paths :: p.weight <= 1.0
    requires sn >= |paths|
    ensures Chosen(paths, sn, |paths| - 1)
  {
    WeightAtMost(paths, |paths| - 1);
    LastPathIff(paths, sn);
  }

  // ---------------------------------------------------------------------
  //  What each path gets of one send
  // ---------------------------------------------------------------------

  ghost predicate DistinctPaths(paths: seq<PathInfo>) {
    forall j, k | 0 <= j < k < |paths| :: paths[j].id != paths[k].id
  }

  function Clamp(x: int, n: nat): nat { if x < 0 then 0 else if x > n then n else x }

  /** How many of n fragments numbered from `first` on the first k paths take. */
  function Cut(paths: seq<PathInfo>, first: nat, n: nat, k: nat): (c: nat)
    requires k <= |paths|
    ensures c <= n
  {
    if k == 0 then 0 else if k == |paths| then n else Clamp(Weight(paths, k).Floor + 1 - first, n)
  }

  lemma ChosenByCut(paths: seq<PathInfo>, first: nat, n: nat, i: nat, k: nat)
    requires Positive(paths) && i < n && k < |paths|
    ensures Chosen(paths, first + i, k) <==> Cut(paths, first, n, k) <= i < Cut(paths, first, n, k + 1)
  {
    ChosenIff(paths, first + i, k);
  }

  lemma CutsGrow(paths: seq<PathInfo>, first: nat, n: nat, k: nat)
    requires Positive(paths) && k < |paths|
    ensures Cut(paths, first, n, k) <= Cut(paths, first, n, k + 1)
  {
    WeightGrows(paths, k, k + 1);
  }

  /** Each path takes one contiguous run of the fragments, in path order. */
  lemma AllocationIsExact(
    result: seq<(PathId, Fragment)>, paths: seq<PathInfo>, first: nat, streamId: nat, pieces: seq<Bytes>,
    i: nat, k: nat)
    requires Positive(paths) && DistinctPaths(paths) && IsSend(result, paths, first, streamId, pieces)
    requires i < |result| && k < |paths|
    ensures result[i].0 == paths[k].id <==> Cut(paths, first, |result|, k) <= i < Cut(paths, first, |result|, k + 1)
  {
    hide Cut;
    ChosenByCut(paths, first, |result|, i, k);
    assert SentAs(result[i], paths, Fragment(first + i, streamId, pieces[i], |pieces|));
    var l: nat :| Chosen(paths, first + i, l) && result[i].0 == paths[l].id;
    OnlyOnePath(paths, first + i, k, l);
  }

  lemma OnlyOnePath(paths: seq<PathInfo>, sn: nat, k: nat, l: nat)
    requires Chosen(paths, sn, l) && k < |paths|
    ensures l < |paths| && (Chosen(paths, sn, k) <==> k == l)
  {
    EveryNumberHasOnePath(paths, sn);
  }

  /** A whole send takes path k exactly if its first and its last number both do. */
  lemma OnePathIff(
    result: seq<(PathId, Fragment)>, paths: seq<PathInfo>, first: nat, streamId: nat, pieces: seq<Bytes>, k: nat)
    requires Positive(paths) && DistinctPaths(paths) && IsSend(result, paths, first, streamId, pieces)
    requires k < |paths| && pieces != []
    ensures (forall i | 0 <= i < |result| :: result[i].0 == paths[k].id) <==>
      && (k == 0 || Weight(paths, k) < first as real)
      && (k == |paths| - 1 || (first + |pieces| - 1) as real <= Weight(paths, k + 1))
  {
    forall i: nat | i < |result|
      ensures result[i].0 == paths[k].id <==> Between(paths, first + i, k)
    {
      OnPathIffBetween(result, paths, first, streamId, pieces, i, k);
    }
    if forall i | 0 <= i < |result| :: result[i].0 == paths[k].id {
      OnPathIffBetween(result, paths, first, streamId, pieces, 0, k);
      OnPathIffBetween(result, paths, first, streamId, pieces, |result| - 1, k);
    }
  }

  lemma OnPathIffBetween(
    result: seq<(PathId, Fragment)>, paths: seq<PathInfo>, first: nat, streamId: nat, pieces: seq<Bytes>,
    i: nat, k: nat)
    requires Positive(paths) && DistinctPaths(paths) && IsSend(result, paths, first, streamId, pieces)
    requires i < |result| && k < |paths|
    ensures result[i].0 == paths[k].id <==> Between(paths, first + i, k)
  {
    hide Chosen, Between, IsSend, DistinctPaths;
    AllocationIsExact(result, paths, first, streamId, pieces, i, k);
    ChosenByCut(paths, first, |result|, i, k);
    ChosenIff(paths, first + i, k);
  }

  // ---------------------------------------------------------------------
  //  Bytes
  // ---------------------------------------------------------------------

  /** The bytes a send puts on a path. */
  function Received(result: seq<(PathId, Fragment)>, id: PathId): nat {
    if result == [] then 0
    else
      var last := result[|result| - 1];
      Received(result[..|result| - 1], id) + (if last.0 == id then |last.1.data| else 0)
  }

  /** The bytes of the first c pieces. */
  function Prefix(length: nat, size: nat, c: nat): nat { if c * size <= length then c * size else length }

  lemma PieceLength(data: Bytes, size: nat, i: nat)
    requires size > 0 && i < |Pieces(data, size)|
    ensures Prefix(|data|, size, i + 1) == Prefix(|data|, size, i) + |Pieces(data, size)[i]|
  {
    PieceAt(data, size, i);
    assert (i + 1) * size == i * size + size;
  }

  lemma {:induction false} ReceivedRun(
    result: seq<(PathId, Fragment)>, id: PathId, lo: nat, hi: nat, length: nat, size: nat)
    requires lo <= hi <= |result|
    requires forall i: nat | i < |result| :: result[i].0 == id <==> lo <= i < hi
    requires forall i: nat | i < |result| ::
      Prefix(length, size, i + 1) == Prefix(length, size, i) + |result[i].1.data|
    ensures Received(result, id) == Prefix(length, size, hi) - Prefix(length, size, lo)
  {
    hide Prefix;
    if result != [] {
      var n := |result| - 1;
      var h, l := if hi > n then n else hi, if lo > n then n else lo;
      assert forall i: nat | i < n :: result[..n][i] == result[i];
      ReceivedRun(result[..n], id, l, h, length, size);
    }
  }

  /** Where the data of path k starts. */
  function Mark(paths: seq<PathInfo>, first: nat, length: nat, size: nat, k: nat): nat
    requires size > 0 && k <= |paths|
  {
    Prefix(length, size, Cut(paths, first, Count(length, size), k))
  }

  lemma ReceivedIsExact(
    result: seq<(PathId, Fragment)>, paths: seq<PathInfo>, first: nat, streamId: nat, data: Bytes, size: nat, k: nat)
    requires size > 0 && Positive(paths) && DistinctPaths(paths)
    requires IsSend(result, paths, first, streamId, Pieces(data, size)) && k < |paths|
    ensures Received(result, paths[k].id) ==
      Mark(paths, first, |data|, size, k + 1) - Mark(paths, first, |data|, size, k)
  {
    hide Cut, Prefix, Positive, DistinctPaths, Pieces;
    var pieces := Pieces(data, size);
    PieceCount(data, size);
    CutsGrow(paths, first, |pieces|, k);
    forall i: nat | i < |result|
      ensures result[i].0 == paths[k].id <==> Cut(paths, first, |pieces|, k) <= i < Cut(paths, first, |pieces|, k + 1)
      ensures Prefix(|data|, size, i + 1) == Prefix(|data|, size, i) + |result[i].1.data|
    {
      AllocationIsExact(result, paths, first, streamId, pieces, i, k);
      PieceLength(data, size, i);
    }
    ReceivedRun(result, paths[k].id, Cut(paths, first, |pieces|, k), Cut(paths, first, |pieces|, k + 1), |data|, size);
  }

  // ---------------------------------------------------------------------
  //  The promised shares
  // ---------------------------------------------------------------------

  function Whole(paths: seq<PathInfo>): real { Weight(paths, |paths|) }

  /** The promise: each path receives total x weight / total weight. */
  ghost predicate SharedByWeight(result: seq<(PathId, Fragment)>, paths: seq<PathInfo>, total: nat) {
    forall k: nat | k < |paths| ::
      Received(result, paths[k].id) as real * Whole(paths) == total as real * paths[k].weight
  }

  /** The first k paths end where their weights say. */
  ghost predicate MarkFits(paths: seq<PathInfo>, first: nat, length: nat, size: nat, k: nat)
    requires size > 0 && k <= |paths|
  {
    Mark(paths, first, length, size, k) as real * Whole(paths) == length as real * Weight(paths, k)
  }

  /** The same, computed from the weights, the counter, the length and the fragment size alone. */
  predicate Fits(paths: seq<PathInfo>, first: nat, length: nat, size: nat, k: nat)
    requires k <= |paths|
  {
    ((Weight(paths, k).Floor + 1 - first) * size) as real * Whole(paths) == length as real * Weight(paths, k)
  }

  lemma RealSum(a: real, b: real, x: real, y: real, w: real, l: real)
    requires a * w == l * x
    ensures (b - a) * w == l * (y - x) <==> b * w == l * y
  {
    assert (b - a) * w == b * w - a * w;
    assert l * (y - x) == l * y - l * x;
  }

  lemma MarkStep(paths: seq<PathInfo>, first: nat, length: nat, size: nat, k: nat)
    requires size > 0 && k < |paths| && MarkFits(paths, first, length, size, k)
    ensures (Mark(paths, first, length, size, k + 1) - Mark(paths, first, length, size, k)) as real * Whole(paths)
        == length as real * paths[k].weight
      <==> MarkFits(paths, first, length, size, k + 1)
  {
    hide Mark, Whole;
    var a: int, b: int := Mark(paths, first, length, size, k), Mark(paths, first, length, size, k + 1);
    RealSum(a as real, b as real, Weight(paths, k), Weight(paths, k + 1), Whole(paths), length as real);
    assert (b - a) as real == b as real - a as real;
  }

  lemma {:induction false} MarksFit(
    result: seq<(PathId, Fragment)>, paths: seq<PathInfo>, first: nat, streamId: nat, data: Bytes, size: nat, n: nat)
    requires size > 0 && Positive(paths) && DistinctPaths(paths)
    requires IsSend(result, paths, first, streamId, Pieces(data, size)) && n <= |paths|
    ensures (forall k: nat | k < n ::
        Received(result, paths[k].id) as real * Whole(paths) == |data| as real * paths[k].weight)
      <==> forall k: nat | k <= n :: MarkFits(paths, first, |data|, size, k)
  {
    hide Received, Mark, Whole, IsSend, Positive, DistinctPaths;
    if n == 0 {
      FirstMark(paths, first, |data|, size);
    } else {
      MarksFit(result, paths, first, streamId, data, size, n - 1);
      ReceivedIsExact(result, paths, first, streamId, data, size, n - 1);
      if MarkFits(paths, first, |data|, size, n - 1) {
        MarkStep(paths, first, |data|, size, n - 1);
      }
    }
  }

  lemma FirstMark(paths: seq<PathInfo>, first: nat, length: nat, size: nat)
    requires size > 0
    ensures MarkFits(paths, first, length, size, 0)
  {
    assert Mark(paths, first, length, size, 0) == 0;
  }

  lemma EnoughPieces(length: nat, size: nat)
    requires size > 0
    ensures Count(length, size) * size >= length
  {
    var q, r := (length + size - 1) / size, (length + size - 1) % size;
    assert length + size - 1 == size * q + r;
  }

  lemma LastMark(paths: seq<PathInfo>, first: nat, length: nat, size: nat)
    requires size > 0 && paths != []
    ensures Mark(paths, first, length, size, |paths|) == length
    ensures MarkFits(paths, first, length, size, |paths|)
  {
    EnoughPieces(length, size);
  }

  /** A clamped prefix is a proper part of the whole only where nothing was clamped. */
  lemma ClampedPrefix(length: nat, size: nat, x: int, n: nat)
    requires size > 0 && length > 0 && n * size >= length
    ensures var mark := Prefix(length, size, Clamp(x, n));
      if x <= 0 then mark == 0 && x * size <= 0
      else if x * size <= length then mark == x * size
      else mark == length
  {
    if x <= 0 {
      assert -x * size >= 0;
    } else if x > n {
      assert x * size == n * size + (x - n) * size;
      assert (x - n - 1) * size >= 0;
    }
  }

  lemma RealOrder(a: real, b: real, w: real)
    requires w > 0.0
    ensures a < b <==> a * w < b * w
    ensures a == b <==> a * w == b * w
  {
    assert (b - a) * w == b * w - a * w;
  }

  /** A proper part fits exactly if its unclamped form does. */
  lemma ProperPart(mark: int, x: int, length: int, part: real, whole: real)
    requires length > 0 && 0.0 < part < whole
    requires (x <= 0 && mark == 0) || (x > length && mark == length) || mark == x
    ensures mark as real * whole == length as real * part <==> x as real * whole == length as real * part
  {
    var l := length as real;
    RealOrder(0.0, l, part);
    RealOrder(part, whole, l);
    assert l * part == part * l && l * whole == whole * l && 0.0 * whole == 0.0 && 0.0 * part == 0.0;
    if x <= 0 {
      RealOrder(x as real, 0.0, whole);
      if mark != x {
        assert mark as real * whole == 0.0;
      }
    } else if x > length {
      RealOrder(l, x as real, whole);
      if mark != x {
        assert mark as real * whole == l * whole;
      }
    }
  }

  lemma InnerMarkFits(paths: seq<PathInfo>, first: nat, length: nat, size: nat, k: nat)
    requires size > 0 && length > 0 && Positive(paths) && 0 < k < |paths|
    ensures MarkFits(paths, first, length, size, k) <==> Fits(paths, first, length, size, k)
  {
    hide Positive, Count, Clamp, Prefix, Weight, Mark, Whole;
    var x := Weight(paths, k).Floor + 1 - first;
    EnoughPieces(length, size);
    ClampedPrefix(length, size, x, Count(length, size));
    MarkIsClamped(paths, first, length, size, k);
    ProperWeight(paths, k);
    ProperPart(Mark(paths, first, length, size, k), x * size, length, Weight(paths, k), Whole(paths));
  }

  lemma MarkIsClamped(paths: seq<PathInfo>, first: nat, length: nat, size: nat, k: nat)
    requires size > 0 && 0 < k < |paths|
    ensures Mark(paths, first, length, size, k) ==
      Prefix(length, size, Clamp(Weight(paths, k).Floor + 1 - first, Count(length, size)))
  {
    hide Prefix, Clamp, Weight, Count;
  }

  lemma ProperWeight(paths: seq<PathInfo>, k: nat)
    requires Positive(paths) && 0 < k < |paths|
    ensures 0.0 < Weight(paths, k) < Whole(paths)
  {
    hide Positive;
    WeightGrows(paths, 0, k);
    WeightGrows(paths, k, |paths|);
  }

  lemma NoWeight(paths: seq<PathInfo>)
    ensures Weight(paths, 0) == 0.0
  {
  }

  /**
   * A send meets the promise exactly if it is empty or, for each proper prefix of the paths,
   * the fragments whose numbers its weights reach are that part of the data.
   */
  lemma SharedByWeightIff(
    result: seq<(PathId, Fragment)>, paths: seq<PathInfo>, first: nat, streamId: nat, data: Bytes, size: nat)
    requires size > 0 && paths != [] && Positive(paths) && DistinctPaths(paths)
    requires IsSend(result, paths, first, streamId, Pieces(data, size))
    ensures SharedByWeight(result, paths, |data|) <==>
      data == [] || forall k: nat | 0 < k < |paths| :: Fits(paths, first, |data|, size, k)
  {
    hide Fits, Mark, Received, Whole;
    var m := |paths|;
    MarksFit(result, paths, first, streamId, data, size, m);
    hide IsSend;
    FirstMark(paths, first, |data|, size);
    LastMark(paths, first, |data|, size);
    forall k: nat | k <= m
      ensures data == [] ==> MarkFits(paths, first, |data|, size, k)
      ensures data != [] && 0 < k < m ==>
        (MarkFits(paths, first, |data|, size, k) <==> Fits(paths, first, |data|, size, k))
    {
      if data == [] {
        EmptyMark(paths, first, size, k);
      } else if 0 < k < m {
        InnerMarkFits(paths, first, |data|, size, k);
      }
    }
  }

  lemma EmptyMark(paths: seq<PathInfo>, first: nat, size: nat, k: nat)
    requires size > 0 && k <= |paths|
    ensures MarkFits(paths, first, 0, size, k)
  {
    var c := Cut(paths, first, Count(0, size), k);
    assert c * size >= 0;
  }

  /** With weights up to one, two or more living paths and any data, no send from number 2 on is shared by weight. */
  lemma LaterSendsAreUnshared(
    result: seq<(PathId, Fragment)>, paths: seq<PathInfo>, first: nat, streamId: nat, data: Bytes, size: nat)
    requires size > 0 && |paths| >= 2 && Positive(paths) && DistinctPaths(paths)
    requires forall p | p in paths :: p.weight <= 1.0
    requires IsSend(result, paths, first, streamId, Pieces(data, size))
    requires data != [] && first >= 2
    ensures !SharedByWeight(result, paths, |data|)
  {
    hide SharedByWeight, IsSend;
    SharedByWeightIff(result, paths, first, streamId, data, size);
    WeightAtMost(paths, 1);
    WeightGrows(paths, 0, 1);
    WeightGrows(paths, 1, |paths|);
    hide Weight, Positive, Pieces, DistinctPaths;
    NoWeight(paths);
    NothingFits(Weight(paths, 1).Floor + 1 - first, size, |data|, Weight(paths, 1), Whole(paths));
    assert !Fits(paths, first, |data|, size, 1);
  }

  lemma NothingFits(x: int, size: nat, length: nat, part: real, whole: real)
    requires x <= 0 && size > 0 && length > 0 && 0.0 < part < whole
    ensures (x * size) as real * whole != length as real * part
  {
    assert -x * size >= 0;
    RealOrder(0.0, length as real, part);
    RealOrder((x * size) as real, 0.0, whole);
  }

  // ---------------------------------------------------------------------
  //  Over the table of paths
  // ---------------------------------------------------------------------

  /**
   * A send over a table: each living path, in the order the table yields them, takes one
   * contiguous run of the numbered fragments and the bytes between its two marks.
   */
  method SendOverTable(manager: MultiPathManager, data: Bytes, streamId: nat, order: seq<PathId>)
    returns (result: seq<(PathId, Fragment)>, ghost live: seq<PathInfo>)
    requires manager.Valid() && manager.fragmentSize > 0
    requires forall id :: id in order <==> id in manager.paths
    requires NoRepeats(order)
    modifies manager`nextSeq
    ensures ListsLiving(manager.paths, order, live)
    ensures forall other | ListsLiving(manager.paths, order, other) :: other == live
    ensures live == [] ==> result == []
    ensures var pieces, first := Pieces(data, manager.fragmentSize), old(manager.nextSeq);
      live != [] ==>
        && |result| == |pieces|
        && (forall i | 0 <= i < |result| :: result[i].1 == Fragment(first + i, streamId, pieces[i], |pieces|))
        && (forall i: nat, k: nat | i < |result| && k < |live| ::
          result[i].0 == live[k].id <==> Cut(live, first, |result|, k) <= i < Cut(live, first, |result|, k + 1))
        && forall k: nat | k < |live| ::
          Received(result, live[k].id) ==
            Mark(live, first, |data|, manager.fragmentSize, k + 1) - Mark(live, first, |data|, manager.fragmentSize, k)
  {
    ghost var first, size := manager.nextSeq, manager.fragmentSize;
    live := Living(manager.paths, order);
    result := manager.SendViaPaths(data, streamId, order);
    ListedArePositive(manager, order, live);
    forall other | ListsLiving(manager.paths, order, other)
      ensures other == live
    {
      ListingIsLiving(manager.paths, order, other);
    }
    if live != [] {
      SentOverList(result, live, first, streamId, data, size);
    }
  }

  lemma ListedArePositive(manager: MultiPathManager, order: seq<PathId>, live: seq<PathInfo>)
    requires manager.Valid() && NoRepeats(order) && ListsLiving(manager.paths, order, live)
    ensures Positive(live) && DistinctPaths(live)
  {
    ListedAreDistinct(manager.paths, order, live);
  }

  lemma SentOverList(
    result: seq<(PathId, Fragment)>, live: seq<PathInfo>, first: nat, streamId: nat, data: Bytes, size: nat)
    requires size > 0 && Positive(live) && DistinctPaths(live)
    requires IsSend(result, live, first, streamId, Pieces(data, size))
    ensures forall i | 0 <= i < |result| ::
      result[i].1 == Fragment(first + i, streamId, Pieces(data, size)[i], |Pieces(data, size)|)
    ensures forall i: nat, k: nat | i < |result| && k < |live| ::
      result[i].0 == live[k].id <==> Cut(live, first, |result|, k) <= i < Cut(live, first, |result|, k + 1)
    ensures forall k: nat | k < |live| ::
      Received(result, live[k].id) == Mark(live, first, |data|, size, k + 1) - Mark(live, first, |data|, size, k)
  {
    hide Cut, Mark, Received, Positive, DistinctPaths, Pieces, Chosen;
    forall i: nat, k: nat | i < |result| && k < |live|
      ensures result[i].0 == live[k].id <==> Cut(live, first, |result|, k) <= i < Cut(live, first, |result|, k + 1)
    {
      AllocationIsExact(result, live, first, streamId, Pieces(data, size), i, k);
    }
    forall k: nat | k < |live|
      ensures Received(result, live[k].id) ==
        Mark(live, first, |data|, size, k + 1) - Mark(live, first, |data|, size, k)
    {
      ReceivedIsExact(result, live, first, streamId, data, size, k);
    }
  }

  /** Two fresh paths of equal weight, ten fragments: two bytes take the first path, eight the second. */
  method EqualWeightsUnequalShares(data: Bytes) returns (result: seq<(PathId, Fragment)>)
    requires |data| == 10
    ensures Received(result, 1) == 2 && Received(result, 2) == 8
    ensures !SharedByWeight(result, [PathInfo(1, 1.0, Active), PathInfo(2, 1.0, Active)], 10)
  {
    var manager := new MultiPathManager();
    var a := manager.AddPath();
    var b := manager.AddPath();
    manager.SetFragmentSize(1);
    result := manager.SendViaPaths(data, 0, [a, b]);
    ghost var paths := [PathInfo(1, 1.0, Active), PathInfo(2, 1.0, Active)];
    assert Living(manager.paths, [a, b]) == paths;
    TwoAndEight(result, paths, data);
  }

  lemma TwoAndEight(result: seq<(PathId, Fragment)>, paths: seq<PathInfo>, data: Bytes)
    requires paths == [PathInfo(1, 1.0, Active), PathInfo(2, 1.0, Active)] && |data| == 10
    requires IsSend(result, paths, 0, 0, Pieces(data, 1))
    ensures Received(result, 1) == 2 && Received(result, 2) == 8
    ensures !SharedByWeight(result, paths, 10)
  {
    hide IsSend;
    ReceivedIsExact(result, paths, 0, 0, data, 1, 0);
    ReceivedIsExact(result, paths, 0, 0, data, 1, 1);
    assert Weight(paths, 0) == 0.0 && Weight(paths, 1) == 1.0 && Weight(paths, 2) == 2.0;
    assert Received(result, paths[0].id) as real * Whole(paths) != 10.0 * paths[0].weight;
  }
}
