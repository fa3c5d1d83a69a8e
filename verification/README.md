# LL-VPN in Dafny

A Dafny 4.11 model of the stateful and arithmetic cores of LL-VPN, a peer-to-peer VPN with a
registry, a Kademlia table and a backup store, with proofs of what those cores promise.
`dafny verify dfyconfig.toml` checks everything.

## What is modelled

| core | modules |
|---|---|
| Registry election: the multi-node simulation with inboxes and broadcast | `ElectionMessages`, `ElectionNode`, `ElectionSafety`, `ElectionSimulation`, `ElectionProgress`, `ElectionOutcome` |
| Registry election: the production manager, alone and in a group | `ElectionManager`, `ElectionManagerRuns`, `ElectionManagerOutcome`, `ElectionDoubleVote` |
| Kademlia: XOR distance, buckets, k-nearest search, contact-list codec | `ByteXor`, `XorMetric`, `Dht`, `DhtNearest`, `DhtModel`, `NodeListCodec`, `StableSort` |
| Multi-hop routes, discovery, eviction, fail-over when a node goes offline | `Multihop`, `MultihopRuns`, `SelfHeal`, `RouteRuns` |
| Multipath fragmentation and the receiving reorder buffer | `Multipath`, `MultipathShare`, `MultipathRuns` |
| Chunking, block diffs, incremental upload and download | `Slicing`, `Chunk`, `Diff`, `Incremental`, `IncrementalExact` |
| Multi-source downloads: reorder buffer, node loads, task bookkeeping | `Download`, `DownloadRuns` |
| Version history: civil dates, timestamps, snapshots | `Division`, `Calendar`, `DecimalFormat`, `Timestamp`, `VersionHistory` |
| Token-bucket rate limiter | `TokenBucket` |
| Last-writer-wins merge of replica metadata | `Metadata`, `MetadataConvergence` |

Code that changes fields or loops is modelled by classes and methods with loops. Each such
method is proved equal to a function of the old state, or to a stated property; the lemmas
about whole runs are proved about those functions. Clocks are parameters. SHA-256, the
candidate hash and the tie-break hash are function parameters; where a result needs that
compared values do not collide, that is a hypothesis of the lemma. A method that the source
runs under a lock is one step.

## What was found

The code is modelled as it is. Where a promise of the documentation fails, a lemma or method
shows it at a state the code reaches, and another says when the promise holds: exactly, except
for one leader per term of the production manager, whose condition is sufficient.

- The production election manager can elect two leaders in one term, without any invented
  message, if its middle voter prefers both candidates to itself by the candidate hash, which is
  a parameter (`SplitElectsTwo`, `TwoLeadersInOneTerm`; `VotesTwice` is the exact condition on the
  hash): `become_follower` clears the vote even when the term does not rise. The simulated node cannot (`AtMostOneLeaderPerTerm`). Two leaders
  always need a manager that votes in the term, adopts an announcement of that term and votes
  again in it (`TwoLeadersNeedDoubleVote`); terms without an equal-term announcement are safe
  (`AtMostOneLeaderPerCleanTerm`).
- A deposed leader keeps its registry service running unless the new leader is named
  (`DeposedLeaderStillServing`, reached in `ServesAfterOffice`). A simulated cluster of one node
  never elects it (`SoloNeverElected`).
- In the simulation a leader answers a sync request under the request's own type byte; the node
  that reads the answer takes it for a request, finds its fields missing and panics, losing the
  rest of its batch (`SyncAnswerLosesBatch` in four steps of a run, `AskerPanics` over the nodes).
  The production manager returns an error instead.
- Buckets are numbered by shared leading bits, so low numbers are the far ones
  (`BucketIsDistanceBand`); the numbering of the comment at src/vpn/dht.rs:281-282 is right for
  no node (`OtherNumberingNeverFits`). Against src/vpn/dht.rs:156-163, inserting a known node
  leaves it in its place, and an insert into a full bucket returns the rejected new entry, never
  one of the bucket's (`InsertedIff`).
- Self-healing with a DHT can route through the very node that went offline, because the DHT
  still lists it (`RediscoveryPicksOfflineNodeIff`, reached in `OnlyContactComesBack`).
- `skip_lost` moves to a buffered fragment without putting it out; the receiver goes on exactly
  when a second copy of it arrives (`SkippedToIsStuck`). From then on no skip moves: a receiver
  skips once until it is cleared (`SkipsOnlyOnce`, `SkippingIsOverIff`).
- Data is not shared out by weight as src/vpn/multipath.rs:455-458 says: the sequence number,
  which never restarts, is compared with the cumulated weights. Ten fragments over two equal
  paths go two and eight (`EqualWeightsUnequalShares`); `SharedByWeightIff` is the exact
  condition on weights, counter, length and fragment size, and no send from number 2 on meets
  it (`LaterSendsAreUnshared`).
- The memory of past uploads is keyed by file name alone: an upload to a second remote reports
  success and sends nothing (`UploadToSecondRemote`), so over perfect links a fresh second remote
  stays empty (`SecondRemoteStaysEmpty`). `UploadChecked` says exactly when a reported success
  leaves the remote holding the file.
- A file stored in chunks of another size than one's own can be downloaded only by those who have
  no copy of it; any local copy makes the download fail (`OtherChunkSize`).
- A route calls itself direct if its hop count is 1 (src/vpn/multihop.rs:108, 174), and a direct
  route that is switched to a candidate keeps that count: exactly the relayed routes of hop count
  1 lead through another node (`DirectIff`), and only a switch makes one (`MislabelledIff`,
  reached in `DirectThenSwitched`).
- A merged metadata entry is stamped with the clock of the merge: content relayed by a third
  replica replaces newer content (`RelayedContentWinsIff`, reached in
  `OlderContentReplacesNewer`), and two replicas of equal content merge again exactly if the
  stamps differ by more than the window, so turns further apart never settle
  (`EqualContentMergesIff`, `TurnsNeverSettle`).
- Failing a block of a file without sources after completing one divides by zero
  (`PanicsIff`, `ThreeOperationsPanic`). A download fails at the third failed block, where
  src/storage/download.rs:24 says beyond three (`FailsFromThird`, `DocumentedLimitDiffersIff`),
  and stops being failed when one more block arrives (`FailureIsRevokedIff`, reached in
  `FourthBlockRevives`). Blocks the file does not have are refused, yet count as completed, so the
  progress documented as 0.0 to 1.0 (src/storage/download.rs:38, 211) can exceed 1
  (`FractionWithinOneIff`, reached in `StrayBlocksOverflow`). Cancelling, replacing or reassigning leaks load
  (`LoadIsAssignedPlusLeaks`).
- Timestamps sort correctly through the year 9999 and no further (`OrderEndsAtYear10000`).

## Model

| member | source | states |
|---|---|---|
| `ElectionNode.SimNetwork.SendTo` | src/bin/verify_election.rs:93-100 | An envelope is appended to the inbox of a registered address; an unknown address is an error and changes nothing |
| `ElectionNode.SimNetwork.BroadcastMsg` | src/bin/verify_election.rs:102-111 | Every inbox but the sender's gains exactly one envelope |
| `ElectionNode.SimNetwork.Register` | src/bin/verify_election.rs:89-91 | A registered address starts with an empty inbox, replacing any earlier one |
| `ElectionNode.SimNetwork.Take` | src/bin/verify_election.rs:71-73 | An inbox is handed out whole and emptied |
| `ElectionNode.SimNode.Start` | src/bin/verify_election.rs:169-197 | A new election: next term, own vote, one ballot, one request broadcast; at the largest term nothing happens |
| `ElectionNode.SimNode.OnRequest` | src/bin/verify_election.rs:227-285 | Node state and the single reply after a vote request, in all cases of term and earlier vote |
| `ElectionNode.SimNode.OnVote` | src/bin/verify_election.rs:287-324 | A vote counts once, for the own candidacy of this term; the majority of all nodes makes the leader |
| `ElectionNode.SimNode.Win` | src/bin/verify_election.rs:326-353 | The winner names itself registry and announces the result and the change, in that order |
| `ElectionNode.SimNode.OnResult` | src/bin/verify_election.rs:355-374 | A foreign result that is not older is adopted, with its term |
| `ElectionNode.SimNode.OnChange` | src/bin/verify_election.rs:376-397 | A foreign registry change that is not older is adopted, with its address |
| `ElectionNode.SimNode.OnSync` | src/bin/verify_election.rs:399-424 | A leader that hears a sync request of a higher term steps down and keeps its term; otherwise it answers the sender with its id and term; anyone else does nothing |
| `ElectionNode.SimNode.OnMessage` | src/bin/verify_election.rs:199-225 | Each message kind reaches its handler; a leader's data panics its reader before anything is done |
| `ElectionNode.SimNode.ProcessInbox` | src/bin/verify_election.rs:426-431 | The inbox is emptied and its envelopes handled oldest first, up to the first one that panics; the result tells whether there was one |
| `ElectionSafety.VotesAreNeverChanged` | src/bin/verify_election.rs:246-265 | No event changes or removes a vote once cast in a term |
| `ElectionSafety.VictoryNeedsMajority` | src/bin/verify_election.rs:287-324 | A node turns leader only with distinct, really cast votes of more than half of all nodes in its term |
| `ElectionSafety.AtMostOneLeaderPerTerm` | src/bin/verify_election.rs:169-424 | Election safety: in every run over a losing, duplicating, reordering network with invented requests and announcements, one leader per term |
| `ElectionSafety.RegistryAgreement` | src/bin/verify_election.rs:326-397 | If only winners announce, announcements older than their receiver's term aside, registries adopted in one term are equal and were voted for by a majority in it |
| `ElectionSimulation.StartingIsStartElection` | src/bin/verify_election.rs:169-197 | A start step of the simulation leaves node and network as the node's own start does |
| `ElectionSimulation.ProcessingIsHandleAll` | src/bin/verify_election.rs:426-431 | A processing step leaves node and network as the node's own batch processing does |
| `ElectionSimulation.InboxDeliveryIsLegal` | src/bin/verify_election.rs:102-111 | Whatever batch the inboxes hand out was sent: each delivery of it is legal in its turn |
| `ElectionSimulation.NoStepIsStuck` | src/bin/verify_election.rs:169-431 | Every enabled step of the simulation runs to its end |
| `ElectionSimulation.SimulationRunIsLegal` | src/bin/verify_election.rs:605-645 | Every run of start and processing steps over the first-in-first-out inboxes, with messages the program itself sends or broadcasts in between, is a legal run of the cluster, honest if those messages are |
| `ElectionSimulation.SimulationElectsOne` | src/bin/verify_election.rs:78-431 | In every run of the simulation, whatever but granted votes the program sends, one leader per term |
| `ElectionSimulation.SimulationAgrees` | src/bin/verify_election.rs:326-397 | In every run in which the program announces nothing, or only results of terms all nodes have left behind, registries adopted in one term are equal |
| `ElectionSimulation.LeaderAnswers` | src/bin/verify_election.rs:399-424 | A leader that processes a sync request of its own term puts its data in the asker's inbox, and nothing elsewhere |
| `ElectionSimulation.AskerLosesBatch` | src/bin/verify_election.rs:199-225 | A batch that begins with a leader's data is gone and its node is left as it was |
| `ElectionSimulation.SyncAnswerLosesBatch` | src/bin/verify_election.rs:622-645 | A run of four steps from the initial state: a sync request to the appointed leader, its answer, and the asker loses the vote request behind it |
| `ElectionSimulation.AskerPanics` | src/bin/verify_election.rs:199-225 | The same over two nodes and their network: the asker's processing panics, its term is unchanged and its inbox empty |
| `ElectionProgress.MajorityElects` | src/bin/verify_election.rs:169-353 | A candidate that reaches a majority not ahead of its term and gets their votes back becomes leader of the next term; every request and vote is delivered only after it was sent |
| `ElectionProgress.SoloNeverElected` | src/bin/verify_election.rs:287-324 | A cluster of one never elects, because the majority test runs on arriving votes only |
| `ElectionOutcome.ElectionSucceeds` | src/bin/verify_election.rs:169-431 | From any quiet situation: one node starts, all process their inboxes, the candidate its own, all theirs again; then it leads the next term, all others follow it in that term under its address, and no message is left |
| `ElectionOutcome.StartAsksEverybody` | src/bin/verify_election.rs:169-197 | After a start the node is candidate of the next term with its own ballot, and every other registered inbox has gained exactly its request for that term |
| `ElectionOutcome.RequestIsAnswered` | src/bin/verify_election.rs:227-285 | A node behind the requested term answers with its vote in the asker's inbox, follows in that term, and touches nothing else |
| `ElectionOutcome.StatusAfter` | src/bin/verify_election.rs:199-424 | Exactly which events make or unmake a candidate and a leader |
| `ElectionOutcome.TermAfter` | src/bin/verify_election.rs:199-424 | Exactly which events raise a term, and to what |
| `ElectionOutcome.VoteAfter` | src/bin/verify_election.rs:227-324 | First come, first served: exactly when a request is granted, the one answer it gets, and the ballots counted |
| `ElectionOutcome.RegistryAfter` | src/bin/verify_election.rs:326-397 | The registry and address a node knows: its own once elected, else those it last heard |
| `ElectionManager.Elector.Start` | src/registry/election.rs:639-694 | Start of an election: idle for a candidate, an error without known nodes, else the next term (wrapping), own vote and requests to all known nodes |
| `ElectionManager.Elector.Win` | src/registry/election.rs:700-769 | The winner serves, announces the result to all known nodes, and the change only if it finds its own address |
| `ElectionManager.Elector.StepDown` | src/registry/election.rs:771-820 | Stepping down never lowers the term, clears vote and ballots, and stops the service only for a named other registry |
| `ElectionManager.Elector.OnRequest` | src/registry/election.rs:866-900 | The answer to a vote request and the vote it leaves behind |
| `ElectionManager.Elector.OnVote` | src/registry/election.rs:902-944 | A vote counts once and only for the own candidacy; more than half of known + 1 wins |
| `ElectionManager.Elector.OnResult` | src/registry/election.rs:946-970 | A foreign result that is not older makes the manager follow that leader |
| `ElectionManager.Elector.OnChange` | src/registry/election.rs:972-1018 | Registry, name and address are stored before stepping down |
| `ElectionManager.Elector.OnSync` | src/registry/election.rs:1020-1066 | Only a leader answers; a higher term makes it follow the requester |
| `ElectionManager.Elector.OnMessage` | src/registry/election.rs:837-864 | Each message kind reaches its handler and yields its reply |
| `ElectionManager.Elector.BroadcastMsg` | src/registry/election.rs:1138-1164 | The message is handed to the send callback once per known node, in list order |
| `ElectionManager.Elector.FindLocalAddr` | src/registry/election.rs:1218-1229 | The address of the first known node with the own id, if any |
| `ElectionManagerRuns.EveryRunKeepsManagerInv` | src/registry/election.rs:639-1063 | In every run, forged messages included: a candidate or leader voted for itself, a follower holds no ballots, ballots are distinct, a leader holds more than half of known + 1 and serves |
| `ElectionManagerRuns.TermFallsOnlyByWrapping` | src/registry/election.rs:639-694 | The term falls exactly when an election starts at the largest counter value |
| `ElectionManagerRuns.VoteForgottenOnlyByEqualTermAnnouncement` | src/registry/election.rs:771-820 | A vote is lost within its term exactly on a foreign announcement of that same term |
| `ElectionManagerRuns.DeposedLeaderStillServing` | src/registry/election.rs:771-820 | Exactly when a leader loses office and its registry keeps running |
| `ElectionManagerRuns.ServesAfterOffice` | src/registry/election.rs:771-900 | Three inputs after which a follower of term 2 still serves |
| `ElectionManagerRuns.LeaderHoldsGenuineMajority` | src/registry/election.rs:902-944 | In every run of a group a leader holds distinct, really cast votes of more than half of known + 1 |
| `ElectionManagerRuns.AtMostOneLeaderPerCleanTerm` | src/registry/election.rs:639-1063 | A term in which no manager stepped down without a higher term, and no counter wrapped, has at most one leader |
| `ElectionManagerRuns.VotesTwice` | src/registry/election.rs:771-900 | A manager that is asked by one candidate, hears that one's result and is asked by another in the same term votes for both exactly if the hash prefers both to itself |
| `ElectionManagerRuns.SplitElectsTwo` | src/registry/election.rs:771-820 | Seven events that elect two leaders in term 1, each delivered message really sent before, for any three ids of which the middle one's own value is below the hashes of the other two |
| `ElectionManagerRuns.TwoLeadersInOneTerm` | src/registry/election.rs:771-820 | One leader per term is false of the manager: a concrete initial group and run of genuine messages, for any hash that is positive at two ids |
| `ElectionManagerOutcome.MajorityElects` | src/registry/election.rs:639-944 | In a group of any size a starter whom more than half of known + 1, itself included, prefer by the hash wins the next term, over messages that were all sent before |
| `ElectionManagerOutcome.StatusAfter` | src/registry/election.rs:639-1066 | Exactly which inputs make or unmake a candidate and a leader |
| `ElectionManagerOutcome.TermAfter` | src/registry/election.rs:639-820 | Exactly how the term moves: up by one, wrapping, or to that of whoever makes the manager step down |
| `ElectionManagerOutcome.VoteAfter` | src/registry/election.rs:771-944 | The remembered vote and the ballots after any input, and exactly when a request is granted |
| `ElectionManagerOutcome.RegistryAfter` | src/registry/election.rs:700-1018 | Registry id, name and address after any input: its own once elected, else what it last heard |
| `ElectionManagerOutcome.ServiceAfter` | src/registry/election.rs:700-820 | Exactly when the registry service runs and the missed heartbeats count anew |
| `ElectionManagerOutcome.AnswerIs` | src/registry/election.rs:837-1066 | The reply to every message |
| `ElectionManagerOutcome.OutputsAre` | src/registry/election.rs:680-769 | To whom an election and a victory are announced, with which term and address, and that nothing else is sent |
| `ElectionDoubleVote.TwoVotesIff` | src/registry/election.rs:771-1018 | Two candidates hold votes of one manager in one term exactly if it voted, adopted an announcement of that term, and voted again |
| `ElectionDoubleVote.TwoLeadersNeedDoubleVote` | src/registry/election.rs:639-1018 | Two leaders of one term need a manager that voted for one, adopted an announcement of the term, then voted for the other, in this order |
| `ByteXor.ByteXorInjective` | src/vpn/dht.rs:372-378 | Exclusive or with one byte never maps two bytes to one |
| `XorMetric.XorDistance` | src/vpn/dht.rs:372-378 | The loop computes the byte-wise exclusive or of two ids |
| `XorMetric.XorDistanceU128` | src/vpn/multihop.rs:613-620 | The shifting loop computes the number spelled by the first 16 distance bytes, below 2^128 |
| `XorMetric.CmpXor` | src/vpn/dht.rs:837-844 | Byte-wise comparison of distances is comparison of 256-bit numbers |
| `XorMetric.ComputeBucketIndex` | src/vpn/dht.rs:388-402 | The loop finds the number of leading zero bits of the distance, 255 for the local id |
| `XorMetric.XorIsBytewise` | src/vpn/dht.rs:372-378 | Byte i of a distance is the exclusive or of the two bytes i, and twice gives the other id back |
| `XorMetric.DistanceZero` | src/vpn/dht.rs:372-378 | Distance is zero exactly from a node to itself |
| `XorMetric.DistanceIsSymmetric` | src/vpn/dht.rs:372-378 | Distance is symmetric |
| `XorMetric.DistanceIsInjective` | src/vpn/dht.rs:372-378 | No two nodes are equally far from a target |
| `XorMetric.ShortDistanceIsMonotone` | src/vpn/multihop.rs:613-620 | Truncating to 128 bits never reverses the order of distances |
| `XorMetric.BucketIsDistanceBand` | src/vpn/dht.rs:388-402 | Bucket i holds exactly the distances from 2^(255-i) to below 2^(256-i) |
| `XorMetric.EarlierBucketIsFarther` | src/vpn/dht.rs:388-402 | A node in an earlier bucket is strictly farther than any in a later one |
| `XorMetric.OtherNumberingNeverFits` | src/vpn/dht.rs:281-282 | Counting bits from the other end is right for no node |
| `Dht.KBucket.Insert` | src/vpn/dht.rs:164-189 | A known node is updated in place, a new one appended while there is room, else handed back |
| `Dht.InsertedIff` | src/vpn/dht.rs:156-189 | An insert hands back exactly if the bucket is full of others, then the new entry and never one of the bucket's; every entry keeps its place |
| `Dht.KBucket.Touch` | src/vpn/dht.rs:192-202 | A touched entry moves to the tail with a new time; the others keep their order |
| `Dht.KBucket.Remove` | src/vpn/dht.rs:205-211 | The first entry of the id leaves, the others keep their order |
| `Dht.DhtManager.constructor` | src/vpn/dht.rs:318-344 | 256 distinct empty buckets of size K |
| `Dht.DhtManager.InsertNode` | src/vpn/dht.rs:415-428 | Only the bucket of the id changes; the local node is refused |
| `Dht.DhtManager.TouchNode` | src/vpn/dht.rs:431-440 | Only the bucket of the id changes; true exactly if the node stood there |
| `Dht.DhtManager.RemoveNode` | src/vpn/dht.rs:443-449 | Only the bucket of the id changes; the removed entry is returned |
| `Dht.DhtManager.Nearest` | src/vpn/dht.rs:462-485 | All contacts, stably sorted by distance, cut to the count |
| `Dht.EveryRunKeepsTable` | src/vpn/dht.rs:164-449 | In every reachable table each id stands once, in the bucket of its shared prefix, no bucket exceeds K, the local node is absent |
| `DhtModel.TableIsMap` | src/vpn/dht.rs:164-449 | The 256 buckets refine a map: after any run the table holds exactly the nodes the map knows, with the address and time last given, where a new node is refused exactly if 20 of its band are known |
| `DhtModel.InsertAnswers` | src/vpn/dht.rs:164-189 | An insert says updated exactly for a known node, new exactly for an admitted one, and else hands the entry back |
| `DhtModel.BucketOrder` | src/vpn/dht.rs:164-211 | A new node goes to the end of its bucket, a known one keeps its place when inserted and goes to the end when touched; the others keep their order |
| `DhtModel.ContactsAreKnown` | src/vpn/dht.rs:462-485 | The contacts of a table are the known nodes with their addresses, each once |
| `DhtNearest.NearestIsExact` | src/vpn/dht.rs:462-485 | In every reachable table the search returns min(count, size) known nodes in strictly ascending distance, all others strictly farther |
| `DhtNearest.BucketsAreOrdered` | src/vpn/dht.rs:388-485 | In every reachable table earlier buckets hold strictly farther nodes |
| `DhtModel.NearestOfKnown` | src/vpn/dht.rs:462-485 | After any run the search returns the nearest of the known nodes, with the addresses last given for them, in strictly ascending distance |
| `StableSort.SortIsStable` | src/vpn/dht.rs:476-481 | The model of the library sort is an order-keeping sort of the same elements |
| `StableSort.StableSortIsUnique` | src/vpn/dht.rs:476-481 | A list has only one stable sort, so the choice of algorithm does not matter |
| `NodeListCodec.Encode` | src/vpn/dht.rs:770-784 | The loop writes count, then id, address length and address of each contact, cut to 16-bit fields |
| `NodeListCodec.Decode` | src/vpn/dht.rs:787-819 | The offset loop stays inside the data, stops silently at the first contact that does not fit, and reads what the byte-consuming definition reads |
| `NodeListCodec.DecodeByPosition` | src/vpn/dht.rs:787-819 | Decoding by offset and decoding by consuming input agree at every position |
| `NodeListCodec.DecodeOfEncode` | src/vpn/dht.rs:770-819 | Decoding an encoding gives the contacts as far as the 16-bit fields and text validity let them through |
| `NodeListCodec.TruncationGivesPrefix` | src/vpn/dht.rs:787-819 | Any truncation of an encoding decodes to a prefix of the list |
| `NodeListCodec.LosslessExactlyWithinFields` | src/vpn/dht.rs:770-819 | For text addresses the codec is lossless exactly if count and address lengths fit 16 bits |
| `NodeListCodec.WireFormat` | src/vpn/dht.rs:770-784 | The bytes one by one: the count, high byte first, then id, address length and address of every contact at its place, and nothing more |
| `Multihop.MultihopManager.InsertOrEvict` | src/vpn/multihop.rs:562-588 | A full table gives up a least recently active route, and only then |
| `Multihop.MultihopManager.DiscoverRoute` | src/vpn/multihop.rs:262-329 | Outcome and table after a discovery, error cases included |
| `Multihop.MultihopManager.AddDirectRoute` | src/vpn/multihop.rs:332-356 | A one-hop route enters the table, never to the local node |
| `Multihop.MultihopManager.FindRoute` | src/vpn/multihop.rs:359-378 | A route is found exactly while it has not expired |
| `Multihop.MultihopManager.RemoveRoute` | src/vpn/multihop.rs:395-401 | Exactly one route goes, and it is returned |
| `Multihop.MultihopManager.MarkInvalid` | src/vpn/multihop.rs:407-413 | Exactly one route expires |
| `Multihop.MultihopManager.FindAlternative` | src/vpn/multihop.rs:425-459 | The loop switches to the first candidate that is neither the failed hop nor local, or reports none |
| `Multihop.MultihopManager.RoutesByNextHop` | src/vpn/multihop.rs:523-530 | Exactly the targets routed through a hop, each once |
| `Multihop.MultihopManager.CleanupExpired` | src/vpn/multihop.rs:539-552 | At most once a minute exactly the expired routes go, and their number is returned |
| `MultihopRuns.ResortIsIdentity` | src/vpn/multihop.rs:262-329 | Re-sorting the DHT's answer by the truncated distance leaves it unchanged |
| `MultihopRuns.DiscoveryIsExact` | src/vpn/multihop.rs:262-329 | The next hop is the nearest known node in all 256 bits, the route is direct exactly if the target is known, the candidates are the next nearest |
| `MultihopRuns.DiscoveryFailsOnlyOnEmptyTable` | src/vpn/multihop.rs:262-329 | Discovery finds no route exactly when no node is known |
| `SelfHeal.SelfHealManager.Repair` | src/vpn/selfheal.rs:600-640 | One affected route is invalidated, then switched to a candidate or rediscovered |
| `SelfHeal.SelfHealManager.OnNodeOffline` | src/vpn/selfheal.rs:583-648 | The node ends up offline with no failed attempts and the time it was last seen, its route is removed, and every route through it repaired, in place on the shared table |
| `SelfHeal.FailoverIsExact` | src/vpn/selfheal.rs:583-648 | Without a DHT nothing live leads to or through the node, an affected target stays live exactly if it had another candidate, then for 300 seconds through the first such one, other routes are untouched |
| `SelfHeal.RediscoveryPicksOfflineNodeIff` | src/vpn/selfheal.rs:583-648 | With a DHT, exactly when a live route goes through the offline node again |
| `SelfHeal.OnlyContactComesBack` | src/vpn/selfheal.rs:583-648 | With one contact in the DHT, a route discovered through it is rediscovered through it when it goes offline |
| `RouteRuns.HealedKeepsInv` | src/vpn/selfheal.rs:583-648 | The repair of all routes, with and without rediscovery, leads none to or through the local node and adds none |
| `RouteRuns.EveryRunKeepsRoutes` | src/vpn/multihop.rs:262-588 | In every run, nodes going offline included, no route leads to or through the local node, keys are targets, the table stays within its bound |
| `RouteRuns.DirectIff` | src/vpn/multihop.rs:108-176 | In every run a route leads straight to its target exactly if it has hop count 1 over the LAN; hop count 1 and relayed means through another node |
| `RouteRuns.MislabelledIff` | src/vpn/multihop.rs:425-459 | A step of a run makes a route of hop count 1 lead through another node exactly if it switches that route, it is direct and has a spare candidate |
| `RouteRuns.MetricOrders` | src/vpn/multihop.rs:150-160 | In every run a straight route has a better metric than any other, and among the others fewer hops are better |
| `RouteRuns.FreshRouteLives` | src/vpn/multihop.rs:125-166 | A route that is discovered, added or switched is usable for exactly 300 seconds |
| `RouteRuns.DirectThenSwitched` | src/vpn/multihop.rs:262-459 | Discovering a known target and switching its route gives such a route exactly if a second node is known |
| `Multipath.ReorderBuffer.Insert` | src/vpn/multipath.rs:201-230 | An awaited fragment comes out with the whole run buffered behind it; an early one is kept while there is room; a late one is ignored |
| `Multipath.ReorderBuffer.SkipLost` | src/vpn/multipath.rs:267-280 | The awaited number moves up to the least buffered one if that is larger, else nothing changes |
| `Multipath.ReorderBuffer.Clear` | src/vpn/multipath.rs:283-286 | Back to an empty buffer that awaits number 0 |
| `Multipath.MultiPathManager.FragmentData` | src/vpn/multipath.rs:513-530 | The pieces of the data, numbered on from the last send; the counter advances by exactly their number |
| `Multipath.MultiPathManager.SendViaPaths` | src/vpn/multipath.rs:468-510 | Each fragment leaves once, numbered without gap, on the path chosen for its number, never a dead one; without a living path no number is used up |
| `Multipath.MultiPathManager.AddPath` | src/vpn/multipath.rs:373-396 | A fresh id, weight 1 and an active state; other paths stay |
| `Multipath.LivingIsExact` | src/vpn/multipath.rs:470-473 | A send uses exactly the paths of the table that are not dead, each once, in the order the table yields them |
| `Multipath.ListingIsLiving` | src/vpn/multipath.rs:470-473 | There is only one such list |
| `MultipathShare.EveryNumberHasOnePath` | src/vpn/multipath.rs:486-507 | The choice the running index makes is the only one for the number, independent of earlier fragments |
| `MultipathShare.ChosenIff` | src/vpn/multipath.rs:486-507 | Path k takes exactly the numbers above the first k cumulated weights and up to the next; the last path all beyond |
| `MultipathShare.LastPathIff` | src/vpn/multipath.rs:486-507 | The last path takes a number exactly if it is alone or the others' weights fall short |
| `MultipathShare.LateFragmentsShareOnePath` | src/vpn/multipath.rs:486-507 | With weights up to one, every number from the count of living paths on takes the last path |
| `MultipathShare.AllocationIsExact` | src/vpn/multipath.rs:484-507 | Each path takes one contiguous run of a send's fragments, between two bounds computed from the weights |
| `MultipathShare.OnePathIff` | src/vpn/multipath.rs:484-507 | A whole send takes path k exactly if its first and last numbers do |
| `MultipathShare.ReceivedIsExact` | src/vpn/multipath.rs:455-507 | The bytes each path receives of a send |
| `MultipathShare.SendOverTable` | src/vpn/multipath.rs:467-513 | Over a table of paths: each living path, in table order, takes one contiguous run of the numbered fragments and the bytes between its two marks |
| `MultipathShare.SharedByWeightIff` | src/vpn/multipath.rs:455-458 | The promise, total x weight / total weight for each path, is met exactly if the send is empty or the weights' whole parts, the counter and the sizes satisfy one equation per proper prefix of the paths |
| `MultipathShare.LaterSendsAreUnshared` | src/vpn/multipath.rs:455-458 | With two or more living paths of weight up to one, no non-empty send from number 2 on meets the promise |
| `MultipathShare.EqualWeightsUnequalShares` | src/vpn/multipath.rs:468-510 | A send over two fresh paths of equal weight that puts two bytes on one and eight on the other |
| `MultipathRuns.MultipathIsExact` | src/vpn/multipath.rs:201-530 | The numbers of successive sends tile; for any sends and any order and repetition of arrivals the output is the sent data cut at a fragment boundary, and all of it exactly when each fragment has been taken in |
| `MultipathRuns.SmallWindowLosesNothing` | src/vpn/multipath.rs:223-228 | With at most one fragment more than the buffer holds outstanding, capacity refuses nothing new |
| `MultipathRuns.EmissionIsOrdered` | src/vpn/multipath.rs:201-280 | Over every interleaving of arrivals and skips numbers come out strictly increasing, and awaited = put out + skipped |
| `MultipathRuns.BufferedAboveAwaited` | src/vpn/multipath.rs:201-230 | As long as nothing is skipped all buffered numbers exceed the awaited one |
| `MultipathRuns.SkippedToIsStuck` | src/vpn/multipath.rs:201-280 | From an awaited number that is buffered, something comes out or the number moves exactly if that fragment arrives again |
| `MultipathRuns.SkipMovesIff` | src/vpn/multipath.rs:267-280 | A skip moves exactly if something is buffered and all of it lies above the awaited number |
| `MultipathRuns.StaleIff` | src/vpn/multipath.rs:201-280 | A run leaves a buffered number behind exactly if an awaited fragment arrived while a copy was buffered |
| `MultipathRuns.SkippingIsOverIff` | src/vpn/multipath.rs:201-280 | No continuation contains a moving skip exactly if some buffered number is not above the awaited one |
| `MultipathRuns.SkipsOnlyOnce` | src/vpn/multipath.rs:201-280 | In every run from an empty buffer a skip moves exactly if something is buffered and none has moved before |
| `MultipathRuns.StaleNumberEndsSkipping` | src/vpn/multipath.rs:267-280 | A buffered number behind the awaited one stays, and no later skip moves |
| `MultipathRuns.SkippingLeavesStaleNumber` | src/vpn/multipath.rs:201-280 | Three events that produce both situations |
| `Slicing.ConcatOfPieces` | src/storage/chunk.rs:150-170 | Concatenating the pieces gives the data back, for any size |
| `Slicing.PieceCount` | src/storage/chunk.rs:143-147 | There are ceil(length / size) pieces |
| `Slicing.PieceAt` | src/storage/chunk.rs:150-155 | Piece i is the slice computed from its index |
| `Chunk.Chunker.ChunkData` | src/storage/chunk.rs:137-184 | The loop yields the pieces of the data and a manifest of their hashes, indices, offsets and sizes |
| `Chunk.Chunker.Reassemble` | src/storage/chunk.rs:194-232 | Count, sizes and file hash are verified in this order; success returns the concatenation |
| `Chunk.ReassembleOfChunks` | src/storage/chunk.rs:137-232 | Chunking and reassembling gives the file back |
| `Chunk.ReassembleIsSound` | src/storage/chunk.rs:194-232 | Whatever chunks are offered, success returns a file of the manifest's hash and length |
| `Chunk.ManifestDescribesFile` | src/storage/chunk.rs:137-184 | The chunks of a manifest tile the file: index, offset, size and hash are those of the bytes there |
| `Chunk.ReassembleAnswers` | src/storage/chunk.rs:194-232 | Exactly when each error is returned, and for which chunk |
| `Diff.BlockDiffEngine.CompareBlock` | src/storage/diff.rs:186-247 | One index in all four cases of which side has the block, and of equal or differing hashes |
| `Diff.BlockDiffEngine.DiffFiles` | src/storage/diff.rs:158-257 | The index loop computes the list of changed blocks and the count of equal ones, or the two early outcomes |
| `Diff.BlockDiffEngine.GenerateReport` | src/storage/diff.rs:266-296 | Blocks and bytes of everything that is not a deletion; at least one second for any transfer |
| `Diff.ChangesShape` | src/storage/diff.rs:186-247 | Changed indices strictly increase, and an index is listed exactly if its block changed |
| `Diff.AddedAndDeletedExclude` | src/storage/diff.rs:190-247 | A diff never both adds and deletes |
| `Diff.ChangedBlocksAreExact` | src/storage/diff.rs:186-247 | A listed block carries offset, size and both hashes of its two sides, its status says which side has it, and it is listed because they differ |
| `Diff.DiffAccounts` | src/storage/diff.rs:158-296 | Unchanged + changed is the larger chunk count unless the hashes match; the bytes and blocks sent are exactly those of the file that are not kept |
| `Diff.DiffIsPatch` | src/storage/diff.rs:158-257 | Sending the added and modified blocks and dropping the deleted ones turns the old blocks into exactly the new ones |
| `Incremental.IncrementalSync.OwnBlocks` | src/storage/incremental.rs:352-362 | Exactly the local blocks that match the manifest are kept |
| `Incremental.IncrementalSync.MissingBlocks` | src/storage/incremental.rs:363-367 | Exactly the blocks of the manifest that are not kept, ascending |
| `Incremental.IncrementalSync.Fetch` | src/storage/incremental.rs:372-378 | The missing blocks are requested in order and merged in, until a call fails |
| `Incremental.IncrementalSync.Order` | src/storage/incremental.rs:380-391 | The blocks in index order, an error exactly if one is missing |
| `Incremental.IncrementalSync.Restore` | src/storage/incremental.rs:350-400 | Keeping, fetching, ordering and reassembling together, over an unreliable link |
| `Incremental.IncrementalSync.DownloadFile` | src/storage/incremental.rs:328-419 | The outcome over an unreliable link, which blocks were requested, and what is remembered |
| `Incremental.IncrementalSync.SendChanges` | src/storage/incremental.rs:276-295 | Exactly the added and modified blocks reach the remote, in order, until a call fails; over a link that is always up all of them do |
| `Incremental.IncrementalSync.SyncFile` | src/storage/incremental.rs:239-315 | The remote after an upload, the early exit on a remembered hash, that a failure leaves the old manifest, and that over a link that is always up only a diff that cannot be made fails |
| `Incremental.NeededIsExact` | src/storage/incremental.rs:363-367 | A block is requested exactly if the local one is missing or has another hash, in ascending order |
| `IncrementalExact.DownloadIsExact` | src/storage/incremental.rs:328-419 | From a remote that holds the file, with any local copy, the download yields exactly the file and requests exactly the differing blocks |
| `IncrementalExact.DownloadAccounts` | src/storage/incremental.rs:350-419 | The bytes reported as fetched and those the local copy had make up the file |
| `IncrementalExact.DownloadErrors` | src/storage/incremental.rs:328-419 | Exactly when a download over a perfect link comes to which error |
| `IncrementalExact.OtherChunkSize` | src/storage/incremental.rs:328-367 | A file put there in chunks of another size comes back to whoever has no copy of it and is refused to whoever has one |
| `IncrementalExact.DownloadNeverMisleads` | src/storage/incremental.rs:393-400 | Whatever the remote serves, a returned file has the promised hash |
| `IncrementalExact.UploadHoldsIffSkippedBlocksWereRight` | src/storage/incremental.rs:268-300 | After an upload the remote holds the file exactly if each block that was not sent was already right there |
| `IncrementalExact.UploadReplacesFile` | src/storage/incremental.rs:239-315 | Uploading over a held file leaves the remote holding the new one |
| `IncrementalExact.FirstUpload` | src/storage/incremental.rs:239-315 | The first upload leaves the remote holding the file |
| `IncrementalExact.UploadThenDownload` | src/storage/incremental.rs:239-419 | Upload and download, with any local copy, gives the file back |
| `IncrementalExact.UploadAccounts` | src/storage/incremental.rs:276-315 | The bytes reported as sent and those of unchanged blocks make up the file |
| `IncrementalExact.UploadChecked` | src/storage/incremental.rs:239-315 | A reported success leaves the remote holding the file exactly if the hash was remembered and the remote held it already, or was not and each block that was not sent was right there |
| `IncrementalExact.UploadBothVersions` | src/storage/incremental.rs:239-315 | Two versions uploaded one after the other over a perfect link: neither is taken for in sync, and the remote ends up holding the second |
| `IncrementalExact.UploadToSecondRemote` | src/storage/incremental.rs:253-266 | After one successful upload a second remote gets nothing and success is reported |
| `IncrementalExact.SecondRemoteStaysEmpty` | src/storage/incremental.rs:239-315 | Two uploads over perfect links to fresh remotes both succeed and the second remote holds nothing |
| `Download.ReorderBuffer.Push` | src/storage/download.rs:124-136 | Out of range and already buffered are refused, in this order; else the block is stored |
| `Download.ReorderBuffer.DrainOrdered` | src/storage/download.rs:147-154 | The gapless run from the next index comes out and leaves the buffer |
| `Download.DownloadManager.SelectSource` | src/storage/download.rs:348-357 | The first of the least loaded nodes, none for an empty list |
| `Download.DownloadManager.CreateTask` | src/storage/download.rs:313-336 | A fresh task replaces any earlier one of the file; a poisoned table ignores it |
| `Download.DownloadManager.Cancel` | src/storage/download.rs:364-370 | The task goes with its assignments, or an error |
| `Download.DownloadManager.AssignBlock` | src/storage/download.rs:393-414 | A completed block is refused; else the load rises even if the file is unknown |
| `Download.DownloadManager.CompleteBlock` | src/storage/download.rs:418-483 | Load, completion, buffer, progress and status, and what remains when the buffer refuses the block |
| `Download.DownloadManager.Report` | src/storage/download.rs:458-480 | Progress and status after an accepted block: the whole size once all blocks are buffered, an estimate before |
| `Download.DownloadManager.FailBlock` | src/storage/download.rs:487-538 | Load, failed sources, status from three failed blocks on, and the panic |
| `DownloadRuns.DrainsAreExact` | src/storage/download.rs:124-154 | Any interleaving drains 0, 1, 2, … each with its first accepted data, up to the first index never accepted |
| `DownloadRuns.CanAssembleIffAllBuffered` | src/storage/download.rs:139-141 | The count test says yes exactly if every block is buffered |
| `DownloadRuns.TaskAfter` | src/storage/download.rs:313-538 | Each operation changes the one task it names, and that exactly by its own entries: completed, failed sources, assignments, buffer |
| `DownloadRuns.ReportAfter` | src/storage/download.rs:418-538 | The counts, bytes and status shown after a completed or failed block |
| `DownloadRuns.AnswerIs` | src/storage/download.rs:313-538 | The answer of every operation, in the order of its checks |
| `DownloadRuns.OpConservesLoad` | src/storage/download.rs:393-538 | An operation changes a node's load by what it changes in its assignments, plus exactly what it leaks |
| `DownloadRuns.LoadIsAssignedPlusLeaks` | src/storage/download.rs:313-538 | In every run a node's load exceeds its assigned blocks by exactly the sum of the leaks |
| `DownloadRuns.LoadFromStart` | src/storage/download.rs:301-538 | From an empty manager: load = assigned + leaked, so never less, and equal exactly without leaks |
| `DownloadRuns.NoIdleEntries` | src/storage/download.rs:393-538 | In every run a node is in the load table exactly while its load is positive |
| `DownloadRuns.BufferIsCompleted` | src/storage/download.rs:418-483 | In every run a task's buffer holds exactly its completed blocks in range |
| `DownloadRuns.AssemblyIsCompletion` | src/storage/download.rs:467-480 | Full progress is reported exactly if every block is completed |
| `DownloadRuns.PanicsIff` | src/storage/download.rs:487-538 | In reachable states exactly one kind of call panics |
| `DownloadRuns.ThreeOperationsPanic` | src/storage/download.rs:418-538 | Create without sources, complete, fail: the manager is poisoned |
| `DownloadRuns.FractionWithinOneIff` | src/storage/download.rs:209-216 | After an accepted block the counted fraction is at most 1 exactly if fewer blocks the file lacks had been completed than blocks were missing; the reported one also with the last missing block |
| `DownloadRuns.StrayBlocksOverflow` | src/storage/download.rs:418-483 | From an empty manager: a file of two blocks reports progress 1.5 |
| `DownloadRuns.FailureIsRevokedIff` | src/storage/download.rs:467-480 | A failed download is revived exactly by an accepted block |
| `DownloadRuns.FourthBlockRevives` | src/storage/download.rs:313-538 | From an empty manager: three of four blocks fail, the fourth arrives, and the failed download is downloading again |
| `DownloadRuns.FailsFromThird` | src/storage/download.rs:518-526 | A failing block fails the download exactly from the third failed block on |
| `DownloadRuns.DocumentedLimitDiffersIff` | src/storage/download.rs:24-26 | The documented rule, more than three, differs exactly at the third |
| `DownloadRuns.SelectionKeepsBalance` | src/storage/download.rs:348-414 | Selecting and assigning over one node list keeps the loads within one of each other |
| `Calendar.CivilDateIsValid` | src/storage/version.rs:501-514 | Every day number, negative ones included, gives a valid Gregorian date, and the inverse formula returns the number |
| `Calendar.DaysFromCivilIsInverse` | src/storage/version.rs:984-995 | Every valid date is the date of its day number: the maps are inverse bijections |
| `Calendar.CivilDateFollowsCalendar` | src/storage/version.rs:501-514 | The next day number is the calendar successor under the 4/100/400 leap rule |
| `Calendar.EpochDay` | src/storage/version.rs:501-514 | Day 0 is 1 January 1970 |
| `DecimalFormat.ParsedPadded` | src/storage/version.rs:490-496 | Zero-padded decimal formatting is undone by parsing, so it is injective |
| `DecimalFormat.PaddedOrder` | src/storage/version.rs:490-496 | Within the width, larger numbers have lexicographically larger forms |
| `DecimalFormat.PaddedIsShort` | src/storage/version.rs:490-496 | Beyond the width a number takes exactly as many digits as it has |
| `Timestamp.FourteenDigits` | src/storage/version.rs:479-497 | A timestamp is all digits, and 14 of them exactly through the year 9999 |
| `Timestamp.TimestampReadsBack` | src/storage/version.rs:479-514 | Year, month, day, hour, minute and second read back from their places give a valid date and time, and through the inverse calendar formula the second they were made of |
| `Timestamp.TimestampsIncrease` | src/storage/version.rs:479-497 | Through the year 9999 later seconds have greater timestamps |
| `Timestamp.OrderEndsAtYear10000` | src/storage/version.rs:479-497 | The order breaks at the next second |
| `Timestamp.TimestampsAreInjective` | src/storage/version.rs:479-497 | No two seconds share a timestamp |
| `VersionHistory.VersionManager.CreateSnapshot` | src/storage/version.rs:294-327 | The new entry stands first in its file's list, the counter advances, the returned id is the entry's |
| `VersionHistory.VersionManager.RestoreVersion` | src/storage/version.rs:365-380 | The manifest of the first entry with the id, or an error |
| `VersionHistory.VersionManager.PruneVersions` | src/storage/version.rs:383-403 | The newest max entries stay; an unknown file is an error; dirty exactly if something went |
| `VersionHistory.VersionManager.PruneAllVersions` | src/storage/version.rs:406-420 | The newest max entries of every file stay, and the number of entries gone is returned |
| `VersionHistory.VersionManager.RemoveFile` | src/storage/version.rs:426-441 | Exactly one history goes; dirty exactly if there was one |
| `VersionHistory.HistoryIsExact` | src/storage/version.rs:84-117 | After any run a file's list is its newest snapshots as they were taken, as many as its operations leave: one more for each, cut to the limit by each pruning, none after a removal |
| `VersionHistory.VersionIdsAgreeIff` | src/storage/version.rs:300-304 | Two ids agree exactly if second and 32-bit counter agree |
| `VersionHistory.VersionIdReadsBack` | src/storage/version.rs:300-304 | An id reads as timestamp, dash and the counter in at least four digits |
| `VersionHistory.IdsAreDistinct` | src/storage/version.rs:294-327 | With up to 2^32 snapshots all ids of a run are distinct |
| `VersionHistory.RestoreIsExact` | src/storage/version.rs:365-380 | The id of any snapshot ever taken restores, for any file, exactly the manifest it was taken of if the file retains it by its operations, and nothing otherwise |
| `VersionHistory.EverySnapshotRestores` | src/storage/version.rs:294-380 | Without pruning and removal every snapshot ever taken restores its manifest |
| `TokenBucket.RateLimiter.Check` | src/vpn/stats.rs:331-349 | Refill, cap, and take all exactly if the answer is yes |
| `TokenBucket.RateLimiter.Consume` | src/vpn/stats.rs:358-372 | Refill, cap, and take the whole bytes available |
| `TokenBucket.Replay` | src/vpn/stats.rs:331-372 | Any calls on a fresh limiter: check says yes, and consume takes, exactly what every window since creation and the burst limit allow after all that the earlier answers let through; over every window at most capacity + rate x length gets through |
| `TokenBucket.StepIsRuled` | src/vpn/stats.rs:331-372 | One call is answered by the all-windows rule: all or nothing, or the most it allows up to the request |
| `TokenBucket.RuledHistoryIsUnique` | src/vpn/stats.rs:331-372 | The rule leaves no choice: the calls alone determine what gets through |
| `Metadata.MetadataStore.SyncFrom` | src/storage/metadata.rs:457-503 | The loop merges entry after entry by the conflict rule and counts the merges |
| `Metadata.MetadataStore.AllEntries` | src/storage/metadata.rs:506-511 | Every entry once |
| `Metadata.SyncIsPointwise` | src/storage/metadata.rs:457-503 | Each entry is judged against the store as it was; unmentioned names are untouched |
| `Metadata.SyncIgnoresOrder` | src/storage/metadata.rs:457-503 | The order of entries of distinct names does not matter |
| `Metadata.MergeCountIsExact` | src/storage/metadata.rs:457-503 | The reported count is the number of entries taken over |
| `MetadataConvergence.PairConverges` | src/storage/metadata.rs:457-511 | After a hears b and b hears a, at any clocks, both know the same names and hold the same content exactly if no tie-break collision was in the window; a holds the winners |
| `MetadataConvergence.AgreementIsStable` | src/storage/metadata.rs:457-511 | Any number of agreeing replicas keeps agreeing on the same content through any exchanges |
| `MetadataConvergence.NothingIsInvented` | src/storage/metadata.rs:457-511 | Through any exchanges every entry of every replica is, but for its stamp, one that some replica began with |
| `MetadataConvergence.RelayedContentWinsIff` | src/storage/metadata.rs:484-489 | Exactly when older content relayed by a third replica replaces newer content |
| `MetadataConvergence.OlderContentReplacesNewer` | src/storage/metadata.rs:457-511 | Two exchanges among three replicas after which content of second 0 has replaced content of second 100 |
| `MetadataConvergence.EqualContentMergesIff` | src/storage/metadata.rs:468-482 | Equal content is merged again exactly if the other stamp is more than the window newer |
| `MetadataConvergence.TurnsNeverSettle` | src/storage/metadata.rs:484-489 | Replicas of equal content that take turns further apart than the window merge every time |

## Left out

- ElectionManagerRuns.AtMostOneLeaderPerCleanTerm: one direction, because a term with an equal-term announcement, which every announced victory is, mostly still elects one leader; `TwoLeadersNeedDoubleVote` names the three events a second leader needs and `SplitElectsTwo` shows that the hypothesis cannot be dropped.
- ElectionManager.Elector.Start: the addition after `fetch_add` (src/registry/election.rs:660) panics in a checked build at the largest counter value; the manager models the unchecked build, where it wraps, the simulated node the checked one.
- ElectionNode.SimNode.Start: at the largest 64-bit term the call does nothing, because the log line's addition panics in a checked build; the wrap of an unchecked build is not modelled.
- Multipath.MultiPathManager.SendViaPaths: weights are real numbers, the iteration order of the path table is a parameter, and a fragment size of zero, on which the source panics, is excluded.
- TokenBucket.RateLimiter.Check: tokens are real numbers, so floating-point rounding is not modelled; changing the rate, `reset` and the blocking `wait_for` are left out.
- Sequence numbers, block counts, sizes and times are assumed to fit their 32- and 64-bit casts, except the election term, the snapshot counter and the 16-bit codec fields, whose wrap or cut is modelled.
- Sockets, threads, timeouts, background loops, event callbacks and log output (among them node names that only reach log lines).
- JSON, message framing and file input and output; `save_if_dirty` and `load_from_file`, which restarts the snapshot counter.
- Cryptography: SHA-256 and the 64-bit hashes are parameters, with no property but the stated hypotheses.
- Heartbeat counting and when an election is due; `set_status`, `request_sync` and `handle_sync_response`, which no message handler calls.
- A network send that reports success and loses the block: the incremental transfer model takes success as effect, as the code does.
- `MultihopManager::refresh_stale_routes`, `DhtManager::refresh`, the DHT value store and raw `insert_route`.
- Targets, addresses, scores, latency averages, acknowledgements and loss counters of multipath paths, and `has_timeout`; weights only keep their range.
- Registration, block locations and encryption marks of the metadata store; `needs_sync` and the rest of the sync-state queries.
- Time estimates of downloads; the reorder buffer inside a download task is updated as a value.
- Library sorting is modelled by insertion; `StableSortIsUnique` shows that any stable sort gives the same list.
- Each operation reads the clock once; the code sometimes reads it again within one call.
- Session, heartbeat, garbage-collection, address and command modules: set and enum bookkeeping that would only add easy members.
