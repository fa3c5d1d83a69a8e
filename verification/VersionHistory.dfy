/**
 * Snapshot histories of files (src/storage/version.rs).  The clock is a parameter; the
 * JSON file behind the store and the dirty flag's saving are left out.
 */
module VersionHistory {
  import opened Wrappers
  import opened DecimalFormat
  import opened Timestamp
  import opened Chunk

  const U32_RANGE: nat := 0x1_0000_0000

  datatype VersionEntry = VersionEntry(
    versionId: string, timestamp: string, unixSecs: nat, seqNo: nat, manifest: FileManifest, annotation: string)

  type Files = map<string, seq<VersionEntry>>

  datatype Store = Store(files: Files, counter: nat)

  datatype Op =
    | Create(name: string, manifest: FileManifest, annotation: string, now: nat)
    | Prune(name: string, max: nat)
    | PruneAll(max: nat)
    | RemoveFile(name: string)

  datatype VersionError = NoVersions | NotFound

  function VersionId(now: nat, seqNo: nat): string { FormatTimestamp(now) + "-" + Padded(seqNo, 4) }

  /** The counter is cut to 32 bits in the entry. */
  function EntryOf(counter: nat, manifest: FileManifest, annotation: string, now: nat): VersionEntry {
    VersionEntry(VersionId(now, counter % U32_RANGE), FormatTimestamp(now), now, counter % U32_RANGE,
      manifest, annotation)
  }

  function VersionsOf(files: Files, name: string): seq<VersionEntry> {
    if name in files then files[name] else []
  }

  function Newest(s: seq<VersionEntry>, max: nat): seq<VersionEntry> {
    if |s| <= max then s else s[..max]
  }

  function Apply(s: Store, op: Op): Store {
    match op
    case Create(name, m, a, now) =>
      Store(s.files[name := [EntryOf(s.counter, m, a, now)] + VersionsOf(s.files, name)], s.counter + 1)
    case Prune(name, max) =>
      if name in s.files then s.(files := s.files[name := Newest(s.files[name], max)]) else s
    case PruneAll(max) => s.(files := map name | name in s.files :: Newest(s.files[name], max))
    case RemoveFile(name) => s.(files := s.files - {name})
  }

  /** All version entries of all files, by name and place. */
  function Slots(files: Files): set<(string, nat)> {
    set name, i: nat | name in files && 0 <= i < |files[name]| :: (name, i)
  }

  function Range(name: string, lo: nat, hi: nat): set<(string, nat)> { set i: nat | lo <= i < hi :: (name, i) }

  lemma {:induction false} RangeCount(name: string, lo: nat, hi: nat)
    requires lo <= hi
    ensures |Range(name, lo, hi)| == hi - lo
    decreases hi - lo
  {
    if lo < hi {
      RangeCount(name, lo, hi - 1);
      assert Range(name, lo, hi) == Range(name, lo, hi - 1) + {(name, hi - 1)};
    } else {
      assert Range(name, lo, hi) == {};
    }
  }

  /** Cutting one list takes away exactly its excess entries. */
  lemma SlotsAfterCut(files: Files, name: string, max: nat)
    requires name in files && |files[name]| > max
    ensures |Slots(files[name := files[name][..max]])| == |Slots(files)| - (|files[name]| - max)
  {
    var after := files[name := files[name][..max]];
    var gone := Range(name, max, |files[name]|);
    RangeCount(name, max, |files[name]|);
    assert Slots(files) == Slots(after) + gone;
    assert Slots(after) !! gone;
  }

  function Find(s: seq<VersionEntry>, id: string): Option<VersionEntry> {
    if s == [] then None else if s[0].versionId == id then Some(s[0]) else Find(s[1..], id)
  }

  function Restored(files: Files, name: string, id: string): Result<FileManifest, VersionError> {
    match Find(VersionsOf(files, name), id) case Some(e) => Ok(e.manifest) case None => Err(NotFound)
  }

  class VersionManager {
    var files: Files
    var seqCounter: nat
    var dirty: bool

    ghost function State(): Store
      reads this
    {
      Store(files, seqCounter)
    }

    constructor ()
      ensures State() == Store(map[], 0) && !dirty
    {
      files, seqCounter, dirty := map[], 0, false;
    }

    method CreateSnapshot(name: string, manifest: FileManifest, annotation: string, now: nat) returns (id: string)
      modifies this
      ensures State() == Apply(old(State()), Create(name, manifest, annotation, now)) && dirty
      ensures id == VersionId(now, old(seqCounter) % U32_RANGE)
      ensures name in files && files[name] != [] && files[name][1..] == VersionsOf(old(files), name)
      ensures files[name][0].versionId == id && files[name][0].manifest == manifest
    {
      var timestamp := FormatTimestamp(now);
      var seqNo := seqCounter % U32_RANGE;
      seqCounter := seqCounter + 1;
      id := timestamp + "-" + Padded(seqNo, 4);
      var entry := VersionEntry(id, timestamp, now, seqNo, manifest, annotation);
      if name !in files {
        files := files[name := []];
      }
      files := files[name := [entry] + files[name]];
      dirty := true;
    }

    method RestoreVersion(name: string, id: string) returns (r: Result<FileManifest, VersionError>)
      ensures r == Restored(files, name, id)
    {
      if name !in files {
        return Err(NotFound);
      }
      var versions := files[name];
      for i := 0 to |versions|
        invariant Find(versions, id) == Find(versions[i..], id)
      {
        if versions[i].versionId == id {
          return Ok(versions[i].manifest);
        }
        assert versions[i..][1..] == versions[i + 1..];
      }
      return Err(NotFound);
    }

    method PruneVersions(name: string, max: nat) returns (r: Result<nat, VersionError>)
      modifies this
      ensures State() == Apply(old(State()), Prune(name, max))
      ensures r == if name in old(files) then Ok(|old(files)[name]| - |files[name]|) else Err(NoVersions)
      ensures dirty <==> old(dirty) || (r.Ok? && r.value > 0)
    {
      if name !in files {
        return Err(NoVersions);
      }
      var pruned := 0;
      if |files[name]| > max {
        pruned := |files[name]| - max;
        files := files[name := files[name][..max]];
      }
      if pruned > 0 {
        dirty := true;
      }
      return Ok(pruned);
    }

    method PruneAllVersions(max: nat) returns (pruned: nat)
      modifies this
      ensures State() == Apply(old(State()), PruneAll(max))
      ensures dirty <==> old(dirty) || pruned > 0
      ensures pruned == 0 <==> files == old(files)
      ensures pruned == |Slots(old(files))| - |Slots(files)|
    {
      pruned := 0;
      var names := files.Keys;
      while names != {}
        invariant seqCounter == old(seqCounter) && dirty == old(dirty)
        invariant names <= files.Keys == old(files).Keys
        invariant forall n | n in files ::
          files[n] == if n in names then old(files)[n] else Newest(old(files)[n], max)
        invariant pruned == 0 <==> files == old(files)
        invariant pruned == |Slots(old(files))| - |Slots(files)|
        decreases names
      {
        var name :| name in names;
        if |files[name]| > max {
          SlotsAfterCut(files, name, max);
          pruned := pruned + (|files[name]| - max);
          files := files[name := files[name][..max]];
          assert |files[name]| != |old(files)[name]|;
        }
        names := names - {name};
      }
      if pruned > 0 {
        dirty := true;
      }
    }

    method RemoveFile(name: string) returns (ok: bool)
      modifies this
      ensures State() == Apply(old(State()), Op.RemoveFile(name))
      ensures ok == (name in old(files)) && (dirty <==> old(dirty) || ok)
    {
      ok := name in files;
      files := files - {name};
      if ok {
        dirty := true;
      }
    }
  }

  // ---------------------------------------------------------------------
  //  Runs
  // ---------------------------------------------------------------------

  function Execute(s: Store, run: seq<Op>): Store
    decreases |run|
  {
    if run == [] then s else Execute(Apply(s, run[0]), run[1..])
  }

  function Min(a: nat, b: nat): nat { if a <= b then a else b }

  /** What an operation makes of the number of a file's snapshots. */
  function KeptBy(k: nat, op: Op, name: string): nat {
    match op
    case Create(n, _, _, _) => if n == name then k + 1 else k
    case Prune(n, max) => if n == name then Min(k, max) else k
    case PruneAll(max) => Min(k, max)
    case RemoveFile(n) => if n == name then 0 else k
  }

  /** How many snapshots a file has after a run, read off its operations. */
  function Kept(run: seq<Op>, name: string): nat {
    if run == [] then 0 else KeptBy(Kept(run[..|run| - 1], name), run[|run| - 1], name)
  }

  /** The places in a run where a file's snapshots were taken, newest first. */
  function Snapshots(run: seq<Op>, name: string): seq<nat> {
    if run == [] then []
    else
      var n := |run| - 1;
      (if run[n].Create? && run[n].name == name then [n] else []) + Snapshots(run[..n], name)
  }

  /** How many snapshots a run takes, of any file. */
  function Taken(run: seq<Op>): nat {
    if run == [] then 0 else Taken(run[..|run| - 1]) + (if run[|run| - 1].Create? then 1 else 0)
  }

  /** The id of the snapshot taken at a place in a run: its second, and how many were taken before. */
  function IdAt(run: seq<Op>, i: nat): string
    requires i < |run| && run[i].Create?
  {
    VersionId(run[i].now, Taken(run[..i]) % U32_RANGE)
  }

  /** An entry records the snapshot taken at a place in a run. */
  ghost predicate Records(e: VersionEntry, run: seq<Op>, i: nat) {
    && i < |run| && run[i].Create?
    && e.manifest == run[i].manifest && e.annotation == run[i].annotation && e.unixSecs == run[i].now
    && e.timestamp == FormatTimestamp(run[i].now) && e.seqNo == Taken(run[..i]) % U32_RANGE
    && e.versionId == IdAt(run, i)
  }

  /** A list of versions is the newest snapshots of a file. */
  ghost predicate RecordsNewest(versions: seq<VersionEntry>, run: seq<Op>, name: string) {
    && |versions| == Kept(run, name) <= |Snapshots(run, name)|
    && forall k | 0 <= k < |versions| :: Records(versions[k], run, Snapshots(run, name)[k])
  }

  lemma {:induction false} ExecuteLast(s: Store, run: seq<Op>, op: Op)
    ensures Execute(s, run + [op]) == Apply(Execute(s, run), op)
    decreases |run|
  {
    hide Apply;
    if run == [] {
      assert [] + [op] == [op] && [op][1..] == [];
      assert Execute(s, [op]) == Execute(Apply(s, op), []);
    } else {
      assert (run + [op])[1..] == run[1..] + [op];
      ExecuteLast(Apply(s, run[0]), run[1..], op);
    }
  }

  lemma StillRecords(e: VersionEntry, run: seq<Op>, op: Op, i: nat)
    requires Records(e, run, i)
    ensures Records(e, run + [op], i)
  {
    hide VersionId, FormatTimestamp;
    assert (run + [op])[..i] == run[..i];
  }

  lemma NewlyRecorded(run: seq<Op>, op: Op)
    requires op.Create?
    ensures Records(EntryOf(Taken(run), op.manifest, op.annotation, op.now), run + [op], |run|)
  {
    assert (run + [op])[..|run|] == run;
  }

  lemma OneMoreOp(run: seq<Op>, op: Op)
    ensures var more := run + [op]; more[..|more| - 1] == run && more[|more| - 1] == op
  {
  }

  lemma KeptNext(run: seq<Op>, op: Op, name: string)
    ensures Kept(run + [op], name) == KeptBy(Kept(run, name), op, name)
    ensures Snapshots(run + [op], name) ==
      (if op.Create? && op.name == name then [|run|] else []) + Snapshots(run, name)
  {
    OneMoreOp(run, op);
  }

  lemma OpRecordsNewest(s: Store, run: seq<Op>, op: Op, name: string)
    requires s.counter == Taken(run) && RecordsNewest(VersionsOf(s.files, name), run, name)
    ensures RecordsNewest(VersionsOf(Apply(s, op).files, name), run + [op], name)
  {
    hide EntryOf, Records, VersionId, Kept, Snapshots;
    KeptNext(run, op, name);
    var versions, after := VersionsOf(s.files, name), VersionsOf(Apply(s, op).files, name);
    var places := Snapshots(run, name);
    forall k | 0 <= k < |versions|
      ensures Records(versions[k], run + [op], places[k])
    {
      StillRecords(versions[k], run, op, places[k]);
    }
    if op.Create? && op.name == name {
      NewlyRecorded(run, op);
      assert after == [EntryOf(s.counter, op.manifest, op.annotation, op.now)] + versions;
    } else {
      assert after <= versions;
    }
  }

  /**
   * After any run a file's list is its newest snapshots, newest first, as they were taken: one
   * more for each, cut to the limit by each pruning, none after a removal.
   */
  lemma {:induction false} HistoryIsExact(run: seq<Op>, name: string)
    ensures var s := Execute(Store(map[], 0), run);
      s.counter == Taken(run) && RecordsNewest(VersionsOf(s.files, name), run, name)
  {
    hide Apply, RecordsNewest;
    if run == [] {
      NothingRecorded(name);
    } else {
      var n := |run| - 1;
      HistoryIsExact(run[..n], name);
      assert run == run[..n] + [run[n]];
      ExecuteLast(Store(map[], 0), run[..n], run[n]);
      var s := Execute(Store(map[], 0), run[..n]);
      OpRecordsNewest(s, run[..n], run[n], name);
      CounterCounts(s, run[n]);
    }
  }

  lemma CounterCounts(s: Store, op: Op)
    ensures Apply(s, op).counter == s.counter + (if op.Create? then 1 else 0)
  {
  }

  lemma NothingRecorded(name: string)
    ensures RecordsNewest(VersionsOf(map[], name), [], name)
    ensures Kept([], name) == 0 && Snapshots([], name) == []
  {
  }

  // ---------------------------------------------------------------------
  //  Version ids
  // ---------------------------------------------------------------------

  lemma FirstIsDigit(a: string, x: string)
    requires AllDigits(a) && a != []
    ensures (a + "-" + x)[0] != '-'
  {
    assert a[0] in a;
  }

  lemma {:induction false} SplitAtDash(a: string, x: string, b: string, y: string)
    requires AllDigits(a) && AllDigits(b) && a + "-" + x == b + "-" + y
    ensures a == b && x == y
    decreases |a|
  {
    var s, t := a + "-" + x, b + "-" + y;
    if a == [] || b == [] {
      assert s[0] == t[0];
      assert a == b by {
        if a != [] {
          FirstIsDigit(a, x);
        }
        if b != [] {
          FirstIsDigit(b, y);
        }
      }
      assert x == s[1..] && y == t[1..];
    } else {
      assert s[1..] == a[1..] + "-" + x && t[1..] == b[1..] + "-" + y;
      assert forall c | c in a[1..] :: c in a;
      assert forall c | c in b[1..] :: c in b;
      SplitAtDash(a[1..], x, b[1..], y);
      assert s[0] == t[0] && a == [a[0]] + a[1..] && b == [b[0]] + b[1..];
    }
  }

  /** Two version ids agree exactly when second and cut counter agree. */
  lemma VersionIdsAgreeIff(now1: nat, c1: nat, now2: nat, c2: nat)
    ensures VersionId(now1, c1 % U32_RANGE) == VersionId(now2, c2 % U32_RANGE) <==>
      now1 == now2 && c1 % U32_RANGE == c2 % U32_RANGE
  {
    var a, b := c1 % U32_RANGE, c2 % U32_RANGE;
    if VersionId(now1, a) == VersionId(now2, b) {
      FourteenDigits(now1);
      FourteenDigits(now2);
      SplitAtDash(FormatTimestamp(now1), Padded(a, 4), FormatTimestamp(now2), Padded(b, 4));
      TimestampsAreInjective(now1, now2);
      ParsedPadded(a, 4);
      ParsedPadded(b, 4);
    }
  }

  /** A version id reads as the timestamp of its second, a dash, and the counter in four or more digits. */
  lemma VersionIdReadsBack(now: nat, c: nat)
    ensures var id, t := VersionId(now, c), FormatTimestamp(now);
      && |id| > |t| && id[..|t|] == t && id[|t|] == '-'
      && AllDigits(id[|t| + 1..]) && |id[|t| + 1..]| >= 4 && Parsed(id[|t| + 1..]) == c
  {
    hide FormatTimestamp, Padded;
    var t, p := FormatTimestamp(now), Padded(c, 4);
    ParsedPadded(c, 4);
    assert (t + "-" + p)[|t| + 1..] == p;
  }

  lemma {:induction false} TakenBefore(run: seq<Op>, i: nat, j: nat)
    requires i < j <= |run| && run[i].Create?
    ensures Taken(run[..i]) < Taken(run[..j]) <= Taken(run)
  {
    assert run[..j][..j - 1] == run[..j - 1];
    if i < j - 1 {
      TakenBefore(run, i, j - 1);
    }
    TakenAtMost(run, j);
  }

  lemma {:induction false} TakenAtMost(run: seq<Op>, j: nat)
    requires j <= |run|
    ensures Taken(run[..j]) <= Taken(run)
  {
    if j == |run| {
      assert run[..j] == run;
    } else {
      var n := |run| - 1;
      assert run[..n][..j] == run[..j];
      TakenAtMost(run[..n], j);
    }
  }

  /** With up to 2^32 snapshots all version ids of a run are distinct. */
  lemma IdsAreDistinct(run: seq<Op>, i: nat, j: nat)
    requires i < j < |run| && run[i].Create? && run[j].Create? && Taken(run) <= U32_RANGE
    ensures IdAt(run, i) != IdAt(run, j)
  {
    hide VersionId, Taken;
    TakenBefore(run, i, j);
    TakenBefore(run, j, j + 1);
    TakenAtMost(run, j + 1);
    VersionIdsAgreeIff(run[i].now, Taken(run[..i]), run[j].now, Taken(run[..j]));
  }

  // ---------------------------------------------------------------------
  //  Restoring
  // ---------------------------------------------------------------------

  lemma {:induction false} SnapshotPlaces(run: seq<Op>, name: string)
    ensures forall i: nat :: i in Snapshots(run, name) <==> i < |run| && run[i].Create? && run[i].name == name
  {
    hide Snapshots, Kept;
    if run == [] {
      NothingRecorded(name);
    } else {
      var n := |run| - 1;
      SnapshotPlaces(run[..n], name);
      KeptNext(run[..n], run[n], name);
      assert run == run[..n] + [run[n]];
    }
  }

  ghost predicate FirstWithId(s: seq<VersionEntry>, id: string, k: nat) {
    k < |s| && s[k].versionId == id && forall j: nat | j < k :: s[j].versionId != id
  }

  /** The search finds the first entry with the id, if there is one. */
  lemma {:induction false} FindFirst(s: seq<VersionEntry>, id: string)
    ensures Find(s, id).Some? ==>
      && Find(s, id).value in s && Find(s, id).value.versionId == id
      && exists k: nat :: FirstWithId(s, id, k) && s[k] == Find(s, id).value
    ensures Find(s, id) == None ==> forall e | e in s :: e.versionId != id
  {
    if s != [] {
      FindFirst(s[1..], id);
      if s[0].versionId == id {
        assert FirstWithId(s, id, 0);
      } else if Find(s, id).Some? {
        var k: nat :| FirstWithId(s[1..], id, k) && s[1..][k] == Find(s[1..], id).value;
        assert forall j: nat | 0 < j < k + 1 :: s[j] == s[1..][j - 1];
        assert FirstWithId(s, id, k + 1);
      }
    }
  }

  /** The file still has the snapshot taken at a place in the run. */
  ghost predicate Retained(run: seq<Op>, name: string, i: nat) {
    exists k: nat :: k < Kept(run, name) && k < |Snapshots(run, name)| && Snapshots(run, name)[k] == i
  }

  lemma EntryOfPlace(run: seq<Op>, versions: seq<VersionEntry>, name: string, i: nat, k: nat)
    requires RecordsNewest(versions, run, name) && k < |versions| && Taken(run) <= U32_RANGE
    requires i < |run| && run[i].Create?
    ensures versions[k].versionId == IdAt(run, i) <==> Snapshots(run, name)[k] == i
    ensures Snapshots(run, name)[k] == i ==> versions[k].manifest == run[i].manifest && run[i].name == name
  {
    hide VersionId, Kept, Snapshots, FormatTimestamp;
    var j := Snapshots(run, name)[k];
    SnapshotPlaces(run, name);
    assert Records(versions[k], run, j) && j in Snapshots(run, name);
    if i < j {
      IdsAreDistinct(run, i, j);
    } else if j < i {
      IdsAreDistinct(run, j, i);
    }
  }

  /**
   * After any run of up to 2^32 snapshots, the id handed out for any of them restores, for any
   * file, exactly the manifest it was taken of if the file retains it, and fails otherwise.
   */
  lemma RestoreIsExact(run: seq<Op>, i: nat, name: string)
    requires i < |run| && run[i].Create? && Taken(run) <= U32_RANGE
    ensures Restored(Execute(Store(map[], 0), run).files, name, IdAt(run, i)) ==
      if Retained(run, name, i) then Ok(run[i].manifest) else Err(NotFound)
  {
    hide Execute, VersionId, Find, Kept, Snapshots, Records, FormatTimestamp;
    HistoryIsExact(run, name);
    var versions := VersionsOf(Execute(Store(map[], 0), run).files, name);
    FindFirst(versions, IdAt(run, i));
    forall k: nat | k < |versions|
      ensures versions[k].versionId == IdAt(run, i) <==> Snapshots(run, name)[k] == i
      ensures Snapshots(run, name)[k] == i ==> versions[k].manifest == run[i].manifest
    {
      EntryOfPlace(run, versions, name, i, k);
    }
    if Retained(run, name, i) {
      var k: nat :| k < Kept(run, name) && k < |Snapshots(run, name)| && Snapshots(run, name)[k] == i;
      assert versions[k] in versions;
    }
  }

  lemma {:induction false} KeepsAll(run: seq<Op>, name: string)
    requires forall op | op in run :: op.Create?
    ensures Kept(run, name) == |Snapshots(run, name)|
  {
    hide Kept, Snapshots;
    if run == [] {
      NothingRecorded(name);
    } else {
      var n := |run| - 1;
      assert run[n] in run && forall op | op in run[..n] :: op in run;
      KeepsAll(run[..n], name);
      KeptNext(run[..n], run[n], name);
      assert run == run[..n] + [run[n]];
    }
  }

  /** Without pruning and removal every snapshot ever taken restores its manifest. */
  lemma EverySnapshotRestores(run: seq<Op>, i: nat)
    requires i < |run| && Taken(run) <= U32_RANGE && forall op | op in run :: op.Create?
    ensures Restored(Execute(Store(map[], 0), run).files, run[i].name, IdAt(run, i)) == Ok(run[i].manifest)
  {
    hide Execute, VersionId, Kept, Snapshots;
    KeepsAll(run, run[i].name);
    SnapshotPlaces(run, run[i].name);
    RestoreIsExact(run, i, run[i].name);
  }
}
