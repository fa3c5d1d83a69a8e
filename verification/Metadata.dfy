/**
 * Merging the metadata of two stores, newest first (src/storage/metadata.rs).  The clock and
 * the 64-bit hash that breaks ties are parameters; persistence is left out.
 */
module Metadata {
  import opened Wrappers
  import opened Chunk

  const CONFLICT_WINDOW_SECS: nat := 5

  datatype BlockLocation = BlockLocation(hash: Hash, index: nat, nodes: seq<string>, lastSynced: nat)

  datatype FileMetadata = FileMetadata(
    name: string, fileHash: Hash, fileSize: nat, blocks: seq<BlockLocation>,
    createdAt: nat, updatedAt: nat, sourceNode: string, encrypted: bool)

  datatype MetadataEntry = MetadataEntry(meta: FileMetadata, manifest: Option<FileManifest>)

  type Entries = map<string, MetadataEntry>

  /** The tie-break hash reads a name and a file hash only. */
  type TieBreak = (string, Hash) -> nat

  function HashEntry(tie: TieBreak, e: MetadataEntry): nat { tie(e.meta.name, e.meta.fileHash) }

  /** The conflict rule: clearly newer wins, within the window the larger hash. */
  predicate Beats(tie: TieBreak, remote: MetadataEntry, mine: MetadataEntry) {
    if remote.meta.updatedAt > mine.meta.updatedAt + CONFLICT_WINDOW_SECS then true
    else if mine.meta.updatedAt > remote.meta.updatedAt + CONFLICT_WINDOW_SECS then false
    else HashEntry(tie, remote) > HashEntry(tie, mine)
  }

  predicate ShouldMerge(tie: TieBreak, s: Entries, remote: MetadataEntry) {
    remote.meta.name !in s || Beats(tie, remote, s[remote.meta.name])
  }

  /** What is taken over is stamped with the clock of the merge, not of the writing. */
  function Restamped(e: MetadataEntry, now: nat): MetadataEntry { e.(meta := e.meta.(updatedAt := now)) }

  function Merged(tie: TieBreak, s: Entries, remote: MetadataEntry, now: nat): Entries {
    if ShouldMerge(tie, s, remote) then s[remote.meta.name := Restamped(remote, now)] else s
  }

  function Synced(tie: TieBreak, s: Entries, remotes: seq<MetadataEntry>, now: nat): Entries {
    if remotes == [] then s
    else
      var n := |remotes| - 1;
      Merged(tie, Synced(tie, s, remotes[..n], now), remotes[n], now)
  }

  function MergeCount(tie: TieBreak, s: Entries, remotes: seq<MetadataEntry>, now: nat): nat {
    if remotes == [] then 0
    else
      var n := |remotes| - 1;
      MergeCount(tie, s, remotes[..n], now) +
      (if ShouldMerge(tie, Synced(tie, s, remotes[..n], now), remotes[n]) then 1 else 0)
  }

  ghost predicate ValidEntries(s: Entries) { forall name | name in s :: s[name].meta.name == name }

  ghost predicate DistinctNames(list: seq<MetadataEntry>) {
    forall i, j | 0 <= i < j < |list| :: list[i].meta.name != list[j].meta.name
  }

  /** All entries of a store, each once, in some order. */
  ghost predicate Lists(list: seq<MetadataEntry>, s: Entries) {
    && DistinctNames(list)
    && forall e :: e in list <==> e.meta.name in s && s[e.meta.name] == e
  }

  class MetadataStore {
    const tie: TieBreak
    var entries: Entries
    var dirty: bool

    constructor (tie: TieBreak)
      ensures entries == map[] && !dirty && this.tie == tie
    {
      this.tie := tie;
      entries, dirty := map[], false;
    }

    method SyncFrom(remoteEntries: seq<MetadataEntry>, now: nat) returns (mergedCount: nat)
      modifies this
      ensures entries == Synced(tie, old(entries), remoteEntries, now)
      ensures mergedCount == MergeCount(tie, old(entries), remoteEntries, now)
      ensures dirty <==> old(dirty) || mergedCount > 0
    {
      mergedCount := 0;
      for i := 0 to |remoteEntries|
        invariant entries == Synced(tie, old(entries), remoteEntries[..i], now)
        invariant mergedCount == MergeCount(tie, old(entries), remoteEntries[..i], now)
        invariant dirty == old(dirty)
      {
        assert remoteEntries[..i + 1][..i] == remoteEntries[..i];
        var remote := remoteEntries[i];
        var name := remote.meta.name;
        var shouldMerge := true;
        if name in entries {
          var mine := entries[name];
          var localTime, remoteTime := mine.meta.updatedAt, remote.meta.updatedAt;
          if remoteTime > localTime + CONFLICT_WINDOW_SECS {
            shouldMerge := true;
          } else if localTime > remoteTime + CONFLICT_WINDOW_SECS {
            shouldMerge := false;
          } else {
            shouldMerge := HashEntry(tie, remote) > HashEntry(tie, mine);
          }
        }
        if shouldMerge {
          entries := entries[name := remote.(meta := remote.meta.(updatedAt := now))];
          mergedCount := mergedCount + 1;
        }
      }
      assert remoteEntries[..|remoteEntries|] == remoteEntries;
      if mergedCount > 0 {
        dirty := true;
      }
    }

    method AllEntries() returns (list: seq<MetadataEntry>)
      requires ValidEntries(entries)
      ensures Lists(list, entries)
    {
      list := [];
      var names := entries.Keys;
      while names != {}
        invariant names <= entries.Keys && DistinctNames(list)
        invariant forall e :: e in list <==>
            e.meta.name in entries && e.meta.name !in names && entries[e.meta.name] == e
        decreases names
      {
        var name :| name in names;
        assert forall i | 0 <= i < |list| :: list[i] in list;
        list := list + [entries[name]];
        names := names - {name};
      }
    }
  }

  // ---------------------------------------------------------------------
  //  One synchronisation
  // ---------------------------------------------------------------------

  /** What a store holds under a name after hearing of one entry. */
  ghost predicate Heard(tie: TieBreak, s: Entries, after: Entries, e: MetadataEntry, now: nat) {
    var name := e.meta.name;
    name in after && after[name] == if ShouldMerge(tie, s, e) then Restamped(e, now) else s[name]
  }

  ghost predicate Untouched(s: Entries, after: Entries, name: string) {
    (name in after <==> name in s) && (name in s && name in after ==> after[name] == s[name])
  }

  /** Names a list of entries does not mention. */
  ghost predicate Unmentioned(remotes: seq<MetadataEntry>, name: string) {
    forall e | e in remotes :: e.meta.name != name
  }

  /** Each entry is judged against the store as it was; names not mentioned keep their entry. */
  lemma {:induction false} SyncIsPointwise(tie: TieBreak, s: Entries, remotes: seq<MetadataEntry>, now: nat)
    requires DistinctNames(remotes)
    ensures forall e | e in remotes :: Heard(tie, s, Synced(tie, s, remotes, now), e, now)
    ensures forall name | Unmentioned(remotes, name) :: Untouched(s, Synced(tie, s, remotes, now), name)
  {
    if remotes != [] {
      var n := |remotes| - 1;
      SyncIsPointwise(tie, s, remotes[..n], now);
      assert Unmentioned(remotes[..n], remotes[n].meta.name);
      forall e | e in remotes
        ensures Heard(tie, s, Synced(tie, s, remotes, now), e, now)
      {
        assert e in remotes[..n] || e == remotes[n];
        MergeHears(tie, s, Synced(tie, s, remotes[..n], now), remotes[n], e, now);
      }
      forall name | Unmentioned(remotes, name)
        ensures Untouched(s, Synced(tie, s, remotes, now), name)
      {
        assert Unmentioned(remotes[..n], name) && remotes[n] in remotes;
      }
    }
  }

  /** Merging one more entry hears it, and disturbs nothing heard under other names. */
  lemma MergeHears(tie: TieBreak, s: Entries, before: Entries, last: MetadataEntry, e: MetadataEntry, now: nat)
    requires Untouched(s, before, last.meta.name)
    requires e == last || (e.meta.name != last.meta.name && Heard(tie, s, before, e, now))
    ensures Heard(tie, s, Merged(tie, before, last, now), e, now)
  {
    hide Beats;
  }

  /** The entries of a list that a store takes over. */
  function Winning(tie: TieBreak, s: Entries, remotes: seq<MetadataEntry>): set<MetadataEntry> {
    set e | e in remotes && ShouldMerge(tie, s, e)
  }

  /** The reported count is the number of entries taken over. */
  lemma {:induction false} MergeCountIsExact(tie: TieBreak, s: Entries, remotes: seq<MetadataEntry>, now: nat)
    requires DistinctNames(remotes)
    ensures MergeCount(tie, s, remotes, now) == |Winning(tie, s, remotes)|
  {
    hide ShouldMerge, Synced;
    if remotes != [] {
      var n := |remotes| - 1;
      var init, last := remotes[..n], remotes[n];
      MergeCountIsExact(tie, s, init, now);
      SyncIsPointwise(tie, s, init, now);
      assert Unmentioned(init, last.meta.name);
      SameVerdict(tie, s, Synced(tie, s, init, now), last);
      assert remotes == init + [last] && last !in init;
      if ShouldMerge(tie, s, last) {
        assert Winning(tie, s, remotes) == Winning(tie, s, init) + {last};
      } else {
        assert Winning(tie, s, remotes) == Winning(tie, s, init);
      }
    }
  }

  lemma SameVerdict(tie: TieBreak, s: Entries, t: Entries, e: MetadataEntry)
    requires Untouched(s, t, e.meta.name)
    ensures ShouldMerge(tie, t, e) == ShouldMerge(tie, s, e)
  {
  }

  /** The order in which entries of distinct names arrive does not matter. */
  lemma SyncIgnoresOrder(tie: TieBreak, s: Entries, a: seq<MetadataEntry>, b: seq<MetadataEntry>, now: nat)
    requires DistinctNames(a) && DistinctNames(b) && forall e :: e in a <==> e in b
    ensures Synced(tie, s, a, now) == Synced(tie, s, b, now)
  {
    SyncIsPointwise(tie, s, a, now);
    SyncIsPointwise(tie, s, b, now);
    var x, y := Synced(tie, s, a, now), Synced(tie, s, b, now);
    forall name
      ensures (name in x <==> name in y) && (name in x && name in y ==> x[name] == y[name])
    {
      if e :| e in a && e.meta.name == name {
        assert Heard(tie, s, x, e, now) && Heard(tie, s, y, e, now);
      } else {
        assert Unmentioned(a, name) && Unmentioned(b, name);
      }
    }
  }

  /** A store after hearing all of another store. */
  ghost predicate SyncedWith(tie: TieBreak, s: Entries, other: Entries, now: nat, after: Entries) {
    exists list :: Lists(list, other) && after == Synced(tie, s, list, now)
  }

  /** What a name holds after hearing all of another store. */
  ghost predicate ResolvedAs(tie: TieBreak, s: Entries, other: Entries, now: nat, after: Entries, name: string) {
    && (name in after <==> name in s || name in other)
    && (name in after ==>
      after[name] ==
        if name in other && ShouldMerge(tie, s, other[name]) then Restamped(other[name], now)
        else if name in s then s[name] else after[name])
  }

  lemma SyncResolves(tie: TieBreak, s: Entries, other: Entries, now: nat, after: Entries, name: string)
    requires ValidEntries(s) && ValidEntries(other) && SyncedWith(tie, s, other, now, after)
    ensures ResolvedAs(tie, s, other, now, after, name)
    ensures ValidEntries(after)
  {
    hide Beats, HashEntry;
    var list: seq<MetadataEntry> :| Lists(list, other) && after == Synced(tie, s, list, now);
    SyncIsPointwise(tie, s, list, now);
    forall n
      ensures ResolvedAs(tie, s, other, now, after, n)
    {
      if n in other {
        assert other[n] in list;
        assert Heard(tie, s, after, other[n], now);
      } else {
        assert Unmentioned(list, n);
      }
    }
    forall n | n in after
      ensures after[n].meta.name == n
    {
      assert ResolvedAs(tie, s, other, now, after, n);
    }
  }
}
