/**
 * When replicas exchanging metadata agree, and what the restamping of merged entries does
 * (src/storage/metadata.rs).
 */
module MetadataConvergence {
  import opened Chunk
  import opened Metadata

  ghost predicate SameHashes(a: Entries, b: Entries) {
    a.Keys == b.Keys && forall name | name in a :: a[name].meta.fileHash == b[name].meta.fileHash
  }

  /** Neither of two entries of one name beats the other though their contents differ: the tie-break hash collides. */
  ghost predicate Stalemate(tie: TieBreak, x: MetadataEntry, y: MetadataEntry) {
    && x.meta.updatedAt <= y.meta.updatedAt + CONFLICT_WINDOW_SECS
    && y.meta.updatedAt <= x.meta.updatedAt + CONFLICT_WINDOW_SECS
    && tie(x.meta.name, x.meta.fileHash) == tie(y.meta.name, y.meta.fileHash)
    && x.meta.fileHash != y.meta.fileHash
  }

  /** Newer by more than five seconds, or else not older by more than that and of the larger tie-break hash. */
  predicate Overrides(tie: TieBreak, x: MetadataEntry, y: MetadataEntry) {
    || x.meta.updatedAt > y.meta.updatedAt + 5
    || (y.meta.updatedAt <= x.meta.updatedAt + 5 &&
        tie(x.meta.name, x.meta.fileHash) > tie(y.meta.name, y.meta.fileHash))
  }

  /** The content a pair settles on: the other side's if it overrides one's own. */
  function Winner(tie: TieBreak, a: Entries, b: Entries, name: string): Hash
    requires name in a || name in b
  {
    if name !in a then b[name].meta.fileHash
    else if name in b && Overrides(tie, b[name], a[name]) then b[name].meta.fileHash
    else a[name].meta.fileHash
  }

  ghost predicate Settled(tie: TieBreak, a: Entries, b: Entries, a1: Entries, b1: Entries, name: string) {
    && (name in a1 <==> name in a || name in b)
    && (name in b1 <==> name in a || name in b)
    && (name in a1 ==> a1[name].meta.fileHash == Winner(tie, a, b, name))
    && (name in a1 && name in b1 ==>
      (a1[name].meta.fileHash == b1[name].meta.fileHash <==>
       !(name in a && name in b && Stalemate(tie, a[name], b[name]))))
  }

  lemma NameConverges(
      tie: TieBreak, a: Entries, b: Entries, now1: nat, now2: nat, a1: Entries, b1: Entries, name: string)
    requires ValidEntries(a) && ValidEntries(b)
    requires SyncedWith(tie, a, b, now1, a1) && SyncedWith(tie, b, a1, now2, b1)
    ensures Settled(tie, a, b, a1, b1, name)
  {
    hide SyncedWith;
    SyncResolves(tie, a, b, now1, a1, name);
    SyncResolves(tie, b, a1, now2, b1, name);
  }

  lemma AllSettled(tie: TieBreak, a: Entries, b: Entries, a1: Entries, b1: Entries)
    requires forall name :: Settled(tie, a, b, a1, b1, name)
    ensures a1.Keys == b1.Keys == a.Keys + b.Keys
    ensures forall name | name in a1 :: a1[name].meta.fileHash == Winner(tie, a, b, name)
    ensures SameHashes(a1, b1) <==> forall name | name in a && name in b :: !Stalemate(tie, a[name], b[name])
  {
    hide Stalemate, Winner;
    assert forall name :: Settled(tie, a, b, a1, b1, name) ==> (name in a1 <==> name in a.Keys + b.Keys);
    assert forall name :: Settled(tie, a, b, a1, b1, name) ==> (name in b1 <==> name in a.Keys + b.Keys);
    assert forall name | name in a1 :: Settled(tie, a, b, a1, b1, name);
    if x :| x in a && x in b && Stalemate(tie, a[x], b[x]) {
      assert Settled(tie, a, b, a1, b1, x);
    }
  }

  /**
   * After a hears of b and b of the result, at any clocks, both know the same names, a holds
   * the winners, and they hold the same content exactly if no name was in stalemate.
   */
  lemma PairConverges(tie: TieBreak, a: Entries, b: Entries, now1: nat, now2: nat, a1: Entries, b1: Entries)
    requires ValidEntries(a) && ValidEntries(b)
    requires SyncedWith(tie, a, b, now1, a1) && SyncedWith(tie, b, a1, now2, b1)
    ensures a1.Keys == b1.Keys == a.Keys + b.Keys
    ensures forall name | name in a1 :: a1[name].meta.fileHash == Winner(tie, a, b, name)
    ensures SameHashes(a1, b1) <==> forall name | name in a && name in b :: !Stalemate(tie, a[name], b[name])
  {
    hide *;
    forall name: string
      ensures Settled(tie, a, b, a1, b1, name)
    {
      NameConverges(tie, a, b, now1, now2, a1, b1, name);
    }
    AllSettled(tie, a, b, a1, b1);
  }

  // ---------------------------------------------------------------------
  //  Any number of replicas
  // ---------------------------------------------------------------------

  /** Replica `to` hears of everything replica `from` holds. */
  datatype Exchange = Exchange(to: nat, from: nat, now: nat)

  ghost predicate ExchangeStep(tie: TieBreak, net: seq<Entries>, x: Exchange, after: seq<Entries>) {
    && |after| == |net| && x.to < |net| && x.from < |net|
    && SyncedWith(tie, net[x.to], net[x.from], x.now, after[x.to])
    && forall i: nat | i < |net| && i != x.to :: after[i] == net[i]
  }

  ghost predicate ExchangeRun(tie: TieBreak, states: seq<seq<Entries>>, run: seq<Exchange>) {
    && |states| == |run| + 1
    && forall k: nat | k < |run| :: ExchangeStep(tie, states[k], run[k], states[k + 1])
  }

  /** Every replica holds the contents of one common store. */
  ghost predicate AllHold(net: seq<Entries>, common: Entries) {
    forall i: nat | i < |net| :: ValidEntries(net[i]) && SameHashes(net[i], common)
  }

  lemma ExchangeKeepsAgreement(tie: TieBreak, net: seq<Entries>, x: Exchange, after: seq<Entries>, common: Entries)
    requires AllHold(net, common) && ExchangeStep(tie, net, x, after)
    ensures AllHold(after, common)
  {
    forall name: string
      ensures ValidEntries(after[x.to])
      ensures name in after[x.to] <==> name in common
      ensures name in common ==> after[x.to][name].meta.fileHash == common[name].meta.fileHash
    {
      SyncResolves(tie, net[x.to], net[x.from], x.now, after[x.to], name);
    }
    assert SameHashes(after[x.to], common);
  }

  /** Replicas that agree go on agreeing on the same contents, whatever exchanges follow. */
  lemma {:induction false} AgreementIsStable(
      tie: TieBreak, states: seq<seq<Entries>>, run: seq<Exchange>, common: Entries, k: nat)
    requires ExchangeRun(tie, states, run) && AllHold(states[0], common) && k <= |run|
    ensures AllHold(states[k], common)
  {
    if k > 0 {
      AgreementIsStable(tie, states, run, common, k - 1);
      ExchangeKeepsAgreement(tie, states[k - 1], run[k - 1], states[k], common);
    }
  }

  /** The same entry but for its stamp. */
  predicate SameButStamp(x: MetadataEntry, y: MetadataEntry) {
    && x.meta.name == y.meta.name && x.meta.fileHash == y.meta.fileHash && x.meta.fileSize == y.meta.fileSize
    && x.meta.blocks == y.meta.blocks && x.meta.createdAt == y.meta.createdAt
    && x.meta.sourceNode == y.meta.sourceNode && x.meta.encrypted == y.meta.encrypted && x.manifest == y.manifest
  }

  /** Some replica has the entry, but for its stamp. */
  ghost predicate Known(net: seq<Entries>, e: MetadataEntry) {
    exists i: nat :: i < |net| && e.meta.name in net[i] && SameButStamp(e, net[i][e.meta.name])
  }

  ghost predicate AllKnown(net: seq<Entries>, origin: seq<Entries>) {
    forall i: nat, name | i < |net| && name in net[i] :: net[i][name].meta.name == name && Known(origin, net[i][name])
  }

  lemma ExchangeInventsNothing(
      tie: TieBreak, net: seq<Entries>, x: Exchange, after: seq<Entries>, origin: seq<Entries>)
    requires AllKnown(net, origin) && ExchangeStep(tie, net, x, after)
    ensures AllKnown(after, origin)
  {
    hide Beats, SyncedWith;
    forall name | name in after[x.to]
      ensures after[x.to][name].meta.name == name && Known(origin, after[x.to][name])
    {
      SyncResolves(tie, net[x.to], net[x.from], x.now, after[x.to], name);
      if name in net[x.from] && ShouldMerge(tie, net[x.to], net[x.from][name]) {
        var e := net[x.from][name];
        var i: nat :| i < |origin| && e.meta.name in origin[i] && SameButStamp(e, origin[i][e.meta.name]);
        assert SameButStamp(after[x.to][name], origin[i][name]);
      } else {
        assert after[x.to][name] == net[x.to][name];
      }
    }
  }

  /** Whatever exchanges follow, every entry of every replica is one that some replica began with, but for its stamp. */
  lemma {:induction false} NothingIsInvented(tie: TieBreak, states: seq<seq<Entries>>, run: seq<Exchange>, k: nat)
    requires ExchangeRun(tie, states, run) && k <= |run|
    requires forall i: nat | i < |states[0]| :: ValidEntries(states[0][i])
    ensures AllKnown(states[k], states[0])
  {
    if k > 0 {
      NothingIsInvented(tie, states, run, k - 1);
      hide AllKnown;
      ExchangeInventsNothing(tie, states[k - 1], run[k - 1], states[k], states[0]);
    } else {
      forall i: nat, name | i < |states[0]| && name in states[0][i]
        ensures Known(states[0], states[0][i][name])
      {
        assert ValidEntries(states[0][i]);
        assert SameButStamp(states[0][i][name], states[0][i][name]);
      }
    }
  }

  // ---------------------------------------------------------------------
  //  What restamping costs
  // ---------------------------------------------------------------------

  lemma {:induction false} HearOne(tie: TieBreak, s: Entries, e: MetadataEntry, now: nat)
    ensures Synced(tie, s, [e], now) == Merged(tie, s, e, now)
    ensures MergeCount(tie, s, [e], now) == if ShouldMerge(tie, s, e) then 1 else 0
  {
    assert [e][..0] == [];
    assert Synced(tie, s, [], now) == s;
  }

  /**
   * An entry relayed by a third replica counts as written when it was relayed: content older by
   * any margin replaces newer content exactly if the relay's clock says so.
   */
  lemma RelayedContentWinsIff(
      tie: TieBreak, older: MetadataEntry, newer: MetadataEntry, relayedAt: nat, now: nat)
    requires older.meta.name == newer.meta.name && older.meta.fileHash != newer.meta.fileHash
    requires older.meta.updatedAt < newer.meta.updatedAt
    ensures var name := newer.meta.name;
      var relay := Synced(tie, map[], [older], relayedAt);
      && name in relay
      && var after := Synced(tie, map[name := newer], [relay[name]], now);
      && name in after
      && (after[name].meta.fileHash == older.meta.fileHash <==>
          || relayedAt > newer.meta.updatedAt + CONFLICT_WINDOW_SECS
          || (newer.meta.updatedAt <= relayedAt + CONFLICT_WINDOW_SECS &&
              tie(older.meta.name, older.meta.fileHash) > tie(newer.meta.name, newer.meta.fileHash)))
  {
    var name := newer.meta.name;
    HearOne(tie, map[], older, relayedAt);
    HearOne(tie, map[name := newer], Restamped(older, relayedAt), now);
  }

  /**
   * A run of two exchanges: a replica holding content of second 0 passes it on in second 200,
   * and a replica that wrote newer content in second 100 loses it.
   */
  lemma OlderContentReplacesNewer(tie: TieBreak, older: MetadataEntry, newer: MetadataEntry)
      returns (states: seq<seq<Entries>>, run: seq<Exchange>)
    requires older.meta.name == newer.meta.name && older.meta.fileHash != newer.meta.fileHash
    requires older.meta.updatedAt == 0 && newer.meta.updatedAt == 100
    ensures ExchangeRun(tie, states, run)
    ensures var name := newer.meta.name;
      && states[0] == [map[name := newer], map[], map[name := older]]
      && |states| == 3 && |states[2]| == 3 && name in states[2][0]
      && states[2][0][name].meta.fileHash == older.meta.fileHash
  {
    var name := newer.meta.name;
    var a, b, c := map[name := newer], map[], map[name := older];
    var relayed, late := Restamped(older, 200), Restamped(older, 300);
    HearOne(tie, b, older, 200);
    HearOne(tie, a, relayed, 300);
    run := [Exchange(1, 2, 200), Exchange(0, 1, 300)];
    states := [[a, b, c], [a, map[name := relayed], c], [map[name := late], map[name := relayed], c]];
    assert Lists([older], c) && Lists([relayed], map[name := relayed]);
    assert Synced(tie, b, [older], 200) == map[name := relayed];
    assert Synced(tie, a, [relayed], 300) == map[name := late];
    assert ExchangeStep(tie, states[0], run[0], states[1]);
    assert ExchangeStep(tie, states[1], run[1], states[2]);
  }

  /** Two stores of equal content: hearing again merges again exactly if the other stamp is clearly newer. */
  lemma EqualContentMergesIff(tie: TieBreak, s: Entries, e: MetadataEntry, now: nat)
    requires e.meta.name in s && s[e.meta.name].meta.name == e.meta.name
    requires s[e.meta.name].meta.fileHash == e.meta.fileHash
    ensures MergeCount(tie, s, [e], now) ==
      if e.meta.updatedAt > s[e.meta.name].meta.updatedAt + CONFLICT_WINDOW_SECS then 1 else 0
  {
    HearOne(tie, s, e, now);
  }

  /** Merges made when the two sides take turns hearing of each other, `mine` first. */
  function TurnMerges(tie: TieBreak, mine: MetadataEntry, other: MetadataEntry, clocks: seq<nat>): nat
    decreases |clocks|
  {
    if clocks == [] then 0
    else
      var s := map[mine.meta.name := mine];
      var after := Synced(tie, s, [other], clocks[0]);
      MergeCount(tie, s, [other], clocks[0]) +
      TurnMerges(tie, other, if mine.meta.name in after then after[mine.meta.name] else mine, clocks[1..])
  }

  /** Equal contents never settle: turns more than the window apart merge every single time. */
  lemma {:induction false} TurnsNeverSettle(tie: TieBreak, mine: MetadataEntry, other: MetadataEntry, clocks: seq<nat>)
    requires mine.meta.name == other.meta.name && mine.meta.fileHash == other.meta.fileHash
    requires other.meta.updatedAt > mine.meta.updatedAt + CONFLICT_WINDOW_SECS
    requires clocks != [] ==> clocks[0] > other.meta.updatedAt + CONFLICT_WINDOW_SECS
    requires forall i | 0 < i < |clocks| :: clocks[i] > clocks[i - 1] + CONFLICT_WINDOW_SECS
    ensures TurnMerges(tie, mine, other, clocks) == |clocks|
    decreases |clocks|
  {
    if clocks != [] {
      HearOne(tie, map[mine.meta.name := mine], other, clocks[0]);
      TurnsNeverSettle(tie, other, Restamped(other, clocks[0]), clocks[1..]);
    }
  }
}
