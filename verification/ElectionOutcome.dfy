/**
 * An undisturbed election from its first request to the last follower, over the nodes' own
 * inboxes (src/bin/verify_election.rs).
 */
module ElectionOutcome {
  import opened Wrappers
  import opened Identity
  import opened ElectionMessages
  import opened ElectionNode
  import opened ElectionSafety
  import opened ElectionSimulation

  // ---------------------------------------------------------------------
  //  The situation
  // ---------------------------------------------------------------------

  /** Everybody else, each once. */
  ghost predicate Others(c: Cluster, n: NodeId, order: seq<NodeId>) {
    && (forall v :: v in order <==> v in c.nodes && v != n)
    && forall i, j | 0 <= i < j < |order| :: order[i] != order[j]
  }

  ghost predicate Connected(s: Simulation) {
    && s.cluster.addrs.Keys == s.cluster.nodes.Keys
    && (forall a | a in s.cluster.nodes :: AddrOf(s.cluster, a) in s.inboxes)
    && forall a, b | a in s.cluster.nodes && b in s.cluster.nodes && a != b ::
         AddrOf(s.cluster, a) != AddrOf(s.cluster, b)
  }

  /** Nodes of distinct registered addresses, nothing under way, nobody ahead of the candidate. */
  ghost predicate Quiet(s: Simulation, n: NodeId, order: seq<NodeId>) {
    && Connected(s) && n in s.cluster.nodes && Others(s.cluster, n, order) && order != []
    && (forall a | a in s.inboxes :: s.inboxes[a] == [])
    && s.cluster.nodes[n].term < U64_MAX
    && forall v | v in s.cluster.nodes :: s.cluster.nodes[v].term <= s.cluster.nodes[n].term
  }

  function BoxOf(s: Simulation, n: NodeId): seq<Envelope>
    requires n in s.cluster.addrs && AddrOf(s.cluster, n) in s.inboxes
  {
    s.inboxes[AddrOf(s.cluster, n)]
  }

  /** The same nodes at the same addresses. */
  ghost predicate SameCast(s: Simulation, d: Simulation) {
    d.cluster.addrs == s.cluster.addrs && d.cluster.nodes.Keys == s.cluster.nodes.Keys
    && d.inboxes.Keys == s.inboxes.Keys
  }

  /** The candidate has asked everybody for votes of term t; the first k have answered. */
  ghost predicate Asked(s: Simulation, n: NodeId, t: nat, order: seq<NodeId>, k: nat)
    requires Connected(s) && n in s.cluster.nodes && Others(s.cluster, n, order)
  {
    var nodes, addr := s.cluster.nodes, AddrOf(s.cluster, n);
    && InboxInv(s, true) && k <= |order|
    && nodes[n].status == Candidate && nodes[n].term == t && nodes[n].votesReceived == [n]
    && |BoxOf(s, n)| == k
    && (forall i | 0 <= i < k ::
      BoxOf(s, n)[i] == Envelope(AddrOf(s.cluster, order[i]), Vote(order[i], n, t, true)))
    && (forall i | 0 <= i < k ::
      nodes[order[i]].status == Follower && nodes[order[i]].term == t && BoxOf(s, order[i]) == [])
    && forall i | k <= i < |order| :: nodes[order[i]].term < t && BoxOf(s, order[i]) == [Envelope(addr, Request(n, t))]
  }

  /** The candidate has won term t and told everybody; the first k have heard. */
  ghost predicate Told(s: Simulation, n: NodeId, t: nat, order: seq<NodeId>, k: nat)
    requires Connected(s) && n in s.cluster.nodes && Others(s.cluster, n, order)
  {
    var nodes, addr := s.cluster.nodes, AddrOf(s.cluster, n);
    && InboxInv(s, true) && k <= |order|
    && nodes[n].status == Leader && nodes[n].term == t && BoxOf(s, n) == []
    && nodes[n].registryId == Some(n) && nodes[n].registryAddr == Some(addr)
    && (forall i | 0 <= i < |order| :: nodes[order[i]].status == Follower && nodes[order[i]].term == t)
    && (forall i | 0 <= i < k ::
      && BoxOf(s, order[i]) == []
      && nodes[order[i]].registryId == Some(n) && nodes[order[i]].registryAddr == Some(addr))
    && forall i | k <= i < |order| :: BoxOf(s, order[i]) ==
         [Envelope(addr, Result(n, t)), Envelope(addr, Change(n, s.cluster.addrs[n].0, addr, t))]
  }

  // ---------------------------------------------------------------------
  //  Asking
  // ---------------------------------------------------------------------

  /** Starting an election asks every other registered address, once, for a vote of the new term. */
  lemma StartAsksEverybody(s: Simulation, n: NodeId) returns (after: Simulation)
    requires InboxInv(s, true) && IsMember(s.cluster, n) && s.cluster.nodes[n].term < U64_MAX
    ensures SimNext(s, StartOne(n), after, true) && InboxInv(after, true) && SameCast(s, after)
    ensures forall v | v in s.cluster.nodes && v != n :: after.cluster.nodes[v] == s.cluster.nodes[v]
    ensures var t, node := s.cluster.nodes[n].term + 1, after.cluster.nodes[n];
      node.status == Candidate && node.term == t && node.votesReceived == [n]
    ensures forall a | a in s.inboxes ::
      after.inboxes[a] ==
        if a == AddrOf(s.cluster, n) then s.inboxes[a]
        else s.inboxes[a] + [Envelope(AddrOf(s.cluster, n), Request(n, s.cluster.nodes[n].term + 1))]
  {
    hide InboxInv;
    StepIsLegal(s, StartOne(n), true);
    after := HappenAll(Prepared(s, StartOne(n)), EventsOf(s, StartOne(n)));
    StartingIsStartElection(s, n, after);
    assert [Start(n)][1..] == [];
    assert after == HappenAll(Happen(s, Start(n)), []);
    var e := StartElection(CfgOf(s.cluster, n), s.cluster.nodes[n]).value;
    assert e.outputs[1..] == [];
    assert after.inboxes == Broadcasted(s.inboxes, Envelope(AddrOf(s.cluster, n), e.outputs[0].msg));
  }

  lemma SameCastConnected(s: Simulation, d: Simulation, n: NodeId, order: seq<NodeId>)
    requires Connected(s) && Others(s.cluster, n, order) && SameCast(s, d)
    ensures Connected(d) && Others(d.cluster, n, order)
  {
  }

  /** Everybody else has the request in an otherwise empty inbox. */
  lemma RequestInBoxes(s: Simulation, d: Simulation, n: NodeId, order: seq<NodeId>, request: Envelope)
    requires Connected(s) && n in s.cluster.nodes && Others(s.cluster, n, order) && SameCast(s, d) && Connected(d)
    requires forall a | a in s.inboxes :: s.inboxes[a] == []
    requires forall a | a in s.inboxes ::
      d.inboxes[a] == if a == AddrOf(s.cluster, n) then s.inboxes[a] else s.inboxes[a] + [request]
    ensures BoxOf(d, n) == []
    ensures forall i | 0 <= i < |order| :: order[i] in d.cluster.nodes && BoxOf(d, order[i]) == [request]
  {
    assert [] + [request] == [request];
    forall i | 0 <= i < |order|
      ensures order[i] in d.cluster.nodes && BoxOf(d, order[i]) == [request]
    {
      assert order[i] in order;
      assert s.inboxes[AddrOf(s.cluster, order[i])] == [];
    }
  }

  lemma AllAsked(s: Simulation, n: NodeId, order: seq<NodeId>) returns (after: Simulation)
    requires Quiet(s, n, order)
    ensures SimNext(s, StartOne(n), after, true) && SameCast(s, after)
    ensures Connected(after) && Others(after.cluster, n, order)
    ensures Asked(after, n, s.cluster.nodes[n].term + 1, order, 0)
  {
    NothingWaits(s);
    hide InboxInv, SimNext;
    after := StartAsksEverybody(s, n);
    SameCastConnected(s, after, n, order);
    RequestInBoxes(s, after, n, order, Envelope(AddrOf(s.cluster, n), Request(n, s.cluster.nodes[n].term + 1)));
    hide Connected;
    forall i | 0 <= i < |order|
      ensures after.cluster.nodes[order[i]] == s.cluster.nodes[order[i]]
    {
      assert order[i] in order;
    }
  }

  lemma NothingWaits(s: Simulation)
    requires Connected(s) && forall a | a in s.inboxes :: s.inboxes[a] == []
    ensures InboxInv(s, true)
  {
  }

  // ---------------------------------------------------------------------
  //  Voting
  // ---------------------------------------------------------------------

  /** A node behind the requested term answers its one request with its vote, and with nothing else. */
  lemma RequestIsAnswered(s: Simulation, v: NodeId, from: string, candidate: NodeId, t: nat) returns (after: Simulation)
    requires InboxInv(s, true) && IsMember(s.cluster, v) && AddrOf(s.cluster, v) in s.inboxes
    requires s.cluster.nodes[v].term < t && from in s.inboxes && from != AddrOf(s.cluster, v)
    requires BoxOf(s, v) == [Envelope(from, Request(candidate, t))]
    ensures SimNext(s, ProcessInbox(v), after, true) && InboxInv(after, true) && SameCast(s, after)
    ensures forall m | m in s.cluster.nodes && m != v :: after.cluster.nodes[m] == s.cluster.nodes[m]
    ensures after.cluster.nodes[v].status == Follower && after.cluster.nodes[v].term == t
    ensures after.inboxes == s.inboxes[AddrOf(s.cluster, v) := []][
      from := s.inboxes[from] + [Envelope(AddrOf(s.cluster, v), Vote(v, candidate, t, true))]]
  {
    hide InboxInv;
    after := ProcessingLeavesOthers(s, v);
    ProcessingIsHandleAll(s, v, after);
    var cfg, node, addr := CfgOf(s.cluster, v), s.cluster.nodes[v], AddrOf(s.cluster, v);
    var box, boxes := s.inboxes[addr], s.inboxes[addr := []];
    var eff := HandleRequest(cfg, node, from, candidate, t);
    assert box[1..] == [] && eff.outputs[1..] == [];
    assert HandleAll(cfg, node, boxes, box) == HandleAll(cfg, eff.node, Performed(boxes, addr, eff.outputs), []);
    assert Performed(boxes, addr, eff.outputs) == Sent(boxes, from, Envelope(addr, Vote(v, candidate, t, true)));
  }

  lemma VoterAnswers(s: Simulation, n: NodeId, t: nat, order: seq<NodeId>, k: nat) returns (after: Simulation)
    requires Connected(s) && n in s.cluster.nodes && Others(s.cluster, n, order)
    requires Asked(s, n, t, order, k) && k < |order|
    ensures SimNext(s, ProcessInbox(order[k]), after, true) && SameCast(s, after)
    ensures Connected(after) && Others(after.cluster, n, order) && Asked(after, n, t, order, k + 1)
  {
    hide InboxInv, SimNext;
    var v, addr := order[k], AddrOf(s.cluster, n);
    assert v in order;
    after := RequestIsAnswered(s, v, addr, n, t);
    forall i | 0 <= i < |order| && i != k
      ensures BoxOf(after, order[i]) == BoxOf(s, order[i]) && after.cluster.nodes[order[i]] == s.cluster.nodes[order[i]]
    {
      assert order[i] in order && order[i] != v;
    }
  }

  // ---------------------------------------------------------------------
  //  Counting
  // ---------------------------------------------------------------------

  ghost predicate Ballots(msgs: seq<Envelope>, voters: seq<NodeId>, n: NodeId, t: nat) {
    |msgs| == |voters| && forall i | 0 <= i < |msgs| :: msgs[i].msg == Vote(voters[i], n, t, true)
  }

  lemma {:induction false} LeaderIgnoresVotes(
      cfg: Config, node: Node, boxes: Inboxes, msgs: seq<Envelope>, voters: seq<NodeId>, t: nat)
    requires node.status == Leader && Ballots(msgs, voters, cfg.id, t)
    ensures HandleAll(cfg, node, boxes, msgs) == (node, boxes)
    decreases |msgs|
  {
    if msgs != [] {
      LeaderIgnoresVotes(cfg, node, boxes, msgs[1..], voters[1..], t);
      assert Performed(boxes, cfg.addr, []) == boxes;
    }
  }

  /** Both announcements in every other inbox, the result first. */
  function Announced(boxes: Inboxes, n: NodeId, name: string, addr: string, t: nat): Inboxes {
    map a | a in boxes ::
      if a == addr then boxes[a]
      else boxes[a] + [Envelope(addr, Result(n, t)), Envelope(addr, Change(n, name, addr, t))]
  }

  lemma BroadcastTwice(boxes: Inboxes, result: Envelope, change: Envelope)
    requires result.from == change.from
    ensures Broadcasted(Broadcasted(boxes, result), change) ==
      map a | a in boxes :: if a == result.from then boxes[a] else boxes[a] + [result, change]
  {
    assert forall a | a in boxes :: (boxes[a] + [result]) + [change] == boxes[a] + [result, change];
  }

  lemma PerformTwo(boxes: Inboxes, from: string, first: Message, second: Message)
    ensures Performed(boxes, from, [Broadcast(first), Broadcast(second)]) ==
      Broadcasted(Broadcasted(boxes, Envelope(from, first)), Envelope(from, second))
  {
    hide Broadcasted;
    var outputs := [Broadcast(first), Broadcast(second)];
    var once := Broadcasted(boxes, Envelope(from, first));
    assert outputs[1..] == [Broadcast(second)] && outputs[1..][1..] == [];
    assert Performed(once, from, [Broadcast(second)]) == Performed(Broadcasted(once, Envelope(from, second)), from, []);
  }

  lemma VictoryIsAnnounced(cfg: Config, node: Node, boxes: Inboxes)
    ensures var e := BecomeLeader(cfg, node);
      && Performed(boxes, cfg.addr, e.outputs) == Announced(boxes, cfg.id, cfg.name, cfg.addr, node.term)
      && e.node.status == Leader && e.node.term == node.term
      && e.node.registryId == Some(cfg.id) && e.node.registryAddr == Some(cfg.addr)
  {
    hide Performed, Broadcasted;
    var result, change := Result(cfg.id, node.term), Change(cfg.id, cfg.name, cfg.addr, node.term);
    PerformTwo(boxes, cfg.addr, result, change);
    BroadcastTwice(boxes, Envelope(cfg.addr, result), Envelope(cfg.addr, change));
  }

  /** Votes of more than half of all nodes, the own one included, make the candidate leader, and it announces once. */
  lemma {:induction false} VotesAreCounted(
      cfg: Config, node: Node, boxes: Inboxes, msgs: seq<Envelope>, voters: seq<NodeId>)
    requires node.status == Candidate && Ballots(msgs, voters, cfg.id, node.term)
    requires forall i, j | 0 <= i < j < |voters| :: voters[i] != voters[j]
    requires forall v | v in voters :: v !in node.votesReceived
    requires 2 * |node.votesReceived| <= cfg.total < 2 * (|node.votesReceived| + |msgs|)
    ensures var (after, sent) := HandleAll(cfg, node, boxes, msgs);
      && after.status == Leader && after.term == node.term
      && after.registryId == Some(cfg.id) && after.registryAddr == Some(cfg.addr)
      && sent == Announced(boxes, cfg.id, cfg.name, cfg.addr, node.term)
    decreases |msgs|
  {
    var v := voters[0];
    assert v in voters;
    var counted := node.(votesReceived := node.votesReceived + [v]);
    var eff := HandleVote(cfg, node, v, cfg.id, node.term, true);
    assert HandleAll(cfg, node, boxes, msgs) ==
      HandleAll(cfg, eff.node, Performed(boxes, cfg.addr, eff.outputs), msgs[1..]);
    if |counted.votesReceived| > cfg.total / 2 {
      VictoryIsAnnounced(cfg, counted, boxes);
      LeaderIgnoresVotes(cfg, eff.node, Announced(boxes, cfg.id, cfg.name, cfg.addr, node.term),
        msgs[1..], voters[1..], node.term);
    } else {
      assert Performed(boxes, cfg.addr, []) == boxes;
      VotesAreCounted(cfg, counted, boxes, msgs[1..], voters[1..]);
    }
  }

  lemma OthersCount(c: Cluster, n: NodeId, order: seq<NodeId>)
    requires n in c.nodes && Others(c, n, order)
    ensures |Members(c)| == |order| + 1
  {
    var rest := Members(c) - {n};
    SetOf(order);
    assert rest == set v | v in order;
  }

  lemma {:induction false} SetOf(s: seq<NodeId>)
    requires forall i, j | 0 <= i < j < |s| :: s[i] != s[j]
    ensures |set v | v in s| == |s|
  {
    if s != [] {
      var m := |s| - 1;
      SetOf(s[..m]);
      assert s == s[..m] + [s[m]];
      assert (set v | v in s) == (set v | v in s[..m]) + {s[m]};
    }
  }

  /** With everybody's vote in its inbox the candidate becomes leader and tells everybody, and nothing else happens. */
  lemma VotesElect(s: Simulation, n: NodeId, t: nat, order: seq<NodeId>) returns (after: Simulation)
    requires Connected(s) && n in s.cluster.nodes && Others(s.cluster, n, order) && order != []
    requires Asked(s, n, t, order, |order|)
    ensures SimNext(s, ProcessInbox(n), after, true) && InboxInv(after, true) && SameCast(s, after)
    ensures forall m | m in s.cluster.nodes && m != n :: after.cluster.nodes[m] == s.cluster.nodes[m]
    ensures var addr, node := AddrOf(s.cluster, n), after.cluster.nodes[n];
      && node.status == Leader && node.term == t
      && node.registryId == Some(n) && node.registryAddr == Some(addr)
      && after.inboxes == Announced(s.inboxes[addr := []], n, s.cluster.addrs[n].0, addr, t)
  {
    hide InboxInv;
    after := ProcessingLeavesOthers(s, n);
    ProcessingIsHandleAll(s, n, after);
    hide SimNext;
    OthersCount(s.cluster, n, order);
    var cfg, node, addr := CfgOf(s.cluster, n), s.cluster.nodes[n], AddrOf(s.cluster, n);
    VotesAreCounted(cfg, node, s.inboxes[addr := []], s.inboxes[addr], order);
  }

  lemma CandidateWins(s: Simulation, n: NodeId, t: nat, order: seq<NodeId>) returns (after: Simulation)
    requires Connected(s) && n in s.cluster.nodes && Others(s.cluster, n, order) && order != []
    requires Asked(s, n, t, order, |order|)
    ensures SimNext(s, ProcessInbox(n), after, true) && SameCast(s, after)
    ensures Connected(after) && Others(after.cluster, n, order) && Told(after, n, t, order, 0)
  {
    hide InboxInv, SimNext;
    after := VotesElect(s, n, t, order);
    var addr := AddrOf(s.cluster, n);
    assert Connected(after);
    hide Announced;
    forall i | 0 <= i < |order|
      ensures BoxOf(after, order[i]) ==
        [Envelope(addr, Result(n, t)), Envelope(addr, Change(n, s.cluster.addrs[n].0, addr, t))]
      ensures after.cluster.nodes[order[i]] == s.cluster.nodes[order[i]]
    {
      assert order[i] in order;
      assert BoxOf(s, order[i]) == [];
      AnnouncedTo(s.inboxes[addr := []], n, s.cluster.addrs[n].0, addr, t, AddrOf(s.cluster, order[i]));
    }
    NotAnnouncedToSelf(s.inboxes[addr := []], n, s.cluster.addrs[n].0, addr, t);
  }

  lemma AnnouncedTo(boxes: Inboxes, n: NodeId, name: string, addr: string, t: nat, a: string)
    requires a in boxes && a != addr && boxes[a] == []
    ensures a in Announced(boxes, n, name, addr, t)
    ensures Announced(boxes, n, name, addr, t)[a] ==
      [Envelope(addr, Result(n, t)), Envelope(addr, Change(n, name, addr, t))]
  {
  }

  lemma NotAnnouncedToSelf(boxes: Inboxes, n: NodeId, name: string, addr: string, t: nat)
    requires addr in boxes
    ensures addr in Announced(boxes, n, name, addr, t) && Announced(boxes, n, name, addr, t)[addr] == boxes[addr]
  {
  }

  // ---------------------------------------------------------------------
  //  Following
  // ---------------------------------------------------------------------

  /** A node that finds both announcements of its own term follows the announced leader. */
  lemma AnnouncementsAreAdopted(s: Simulation, v: NodeId, n: NodeId, name: string, from: string, t: nat)
      returns (after: Simulation)
    requires InboxInv(s, true) && IsMember(s.cluster, v) && AddrOf(s.cluster, v) in s.inboxes
    requires v != n && s.cluster.nodes[v].term == t
    requires BoxOf(s, v) == [Envelope(from, Result(n, t)), Envelope(from, Change(n, name, from, t))]
    ensures SimNext(s, ProcessInbox(v), after, true) && InboxInv(after, true) && SameCast(s, after)
    ensures forall m | m in s.cluster.nodes && m != v :: after.cluster.nodes[m] == s.cluster.nodes[m]
    ensures var node := after.cluster.nodes[v];
      && node.status == Follower && node.term == t
      && node.registryId == Some(n) && node.registryAddr == Some(from)
      && after.inboxes == s.inboxes[AddrOf(s.cluster, v) := []]
  {
    hide InboxInv;
    after := ProcessingLeavesOthers(s, v);
    ProcessingIsHandleAll(s, v, after);
    var addr := AddrOf(s.cluster, v);
    BothAreAdopted(CfgOf(s.cluster, v), s.cluster.nodes[v], s.inboxes[addr := []], n, name, from, t);
  }

  lemma FollowerHears(s: Simulation, n: NodeId, t: nat, order: seq<NodeId>, k: nat) returns (after: Simulation)
    requires Connected(s) && n in s.cluster.nodes && Others(s.cluster, n, order)
    requires Told(s, n, t, order, k) && k < |order|
    ensures SimNext(s, ProcessInbox(order[k]), after, true) && SameCast(s, after)
    ensures Connected(after) && Others(after.cluster, n, order) && Told(after, n, t, order, k + 1)
  {
    hide InboxInv, SimNext;
    var v := order[k];
    assert v in order;
    after := AnnouncementsAreAdopted(s, v, n, s.cluster.addrs[n].0, AddrOf(s.cluster, n), t);
    forall i | 0 <= i < |order| && i != k
      ensures BoxOf(after, order[i]) == BoxOf(s, order[i]) && after.cluster.nodes[order[i]] == s.cluster.nodes[order[i]]
    {
      assert order[i] in order && order[i] != v;
    }
  }

  lemma BothAreAdopted(cfg: Config, node: Node, boxes: Inboxes, n: NodeId, name: string, from: string, t: nat)
    requires n != cfg.id && node.term == t
    ensures var (after, sent) := HandleAll(cfg, node, boxes,
        [Envelope(from, Result(n, t)), Envelope(from, Change(n, name, from, t))]);
      && sent == boxes && after.status == Follower && after.term == t
      && after.registryId == Some(n) && after.registryAddr == Some(from)
  {
    var result, change := Envelope(from, Result(n, t)), Envelope(from, Change(n, name, from, t));
    var box := [result, change];
    var e1 := HandleMessage(cfg, node, from, result.msg);
    var e2 := HandleMessage(cfg, e1.node, from, change.msg);
    assert box[1..] == [change] && [change][1..] == [];
    assert Performed(boxes, cfg.addr, []) == boxes;
    assert HandleAll(cfg, node, boxes, box) == HandleAll(cfg, e1.node, boxes, [change]);
    assert HandleAll(cfg, e1.node, boxes, [change]) == HandleAll(cfg, e2.node, boxes, []);
  }

  // ---------------------------------------------------------------------
  //  The whole election
  // ---------------------------------------------------------------------

  function Processing(order: seq<NodeId>): seq<SimStep> {
    seq(|order|, i requires 0 <= i < |order| => ProcessInbox(order[i]))
  }

  lemma RunGrows(states: seq<Simulation>, steps: seq<SimStep>, step: SimStep, after: Simulation)
    requires SimRun(states, steps, true) && SimNext(states[|steps|], step, after, true)
    ensures SimRun(states + [after], steps + [step], true)
  {
    hide SimNext;
    var longer, more := states + [after], steps + [step];
    forall k: nat | k < |more|
      ensures SimNext(longer[k], more[k], longer[k + 1], true)
    {
      if k < |steps| {
        assert SimNext(states[k], steps[k], states[k + 1], true);
      }
    }
  }

  lemma {:induction false} AllVote(s: Simulation, n: NodeId, order: seq<NodeId>, k: nat)
      returns (states: seq<Simulation>, steps: seq<SimStep>)
    requires Quiet(s, n, order) && k <= |order|
    ensures steps == [StartOne(n)] + Processing(order[..k]) && SimRun(states, steps, true) && states[0] == s
    ensures var d := states[|steps|];
      && SameCast(s, d) && Connected(d) && Others(d.cluster, n, order)
      && Asked(d, n, s.cluster.nodes[n].term + 1, order, k)
  {
    hide SimNext, Asked, Connected, Others;
    if k == 0 {
      var d := AllAsked(s, n, order);
      states, steps := [s, d], [StartOne(n)];
      assert steps == [StartOne(n)] + Processing(order[..0]);
    } else {
      states, steps := AllVote(s, n, order, k - 1);
      var d := VoterAnswers(states[|steps|], n, s.cluster.nodes[n].term + 1, order, k - 1);
      RunGrows(states, steps, ProcessInbox(order[k - 1]), d);
      assert Processing(order[..k]) == Processing(order[..k - 1]) + [ProcessInbox(order[k - 1])];
      states, steps := states + [d], steps + [ProcessInbox(order[k - 1])];
    }
  }

  lemma {:induction false} AllHear(s: Simulation, n: NodeId, order: seq<NodeId>, k: nat)
      returns (states: seq<Simulation>, steps: seq<SimStep>)
    requires Quiet(s, n, order) && k <= |order|
    ensures steps == [StartOne(n)] + Processing(order) + [ProcessInbox(n)] + Processing(order[..k])
    ensures SimRun(states, steps, true) && states[0] == s
    ensures var d := states[|steps|];
      && SameCast(s, d) && Connected(d) && Others(d.cluster, n, order)
      && Told(d, n, s.cluster.nodes[n].term + 1, order, k)
  {
    hide SimNext, Asked, Told, Connected, Others;
    if k == 0 {
      states, steps := AllVote(s, n, order, |order|);
      assert order[..|order|] == order;
      var d := CandidateWins(states[|steps|], n, s.cluster.nodes[n].term + 1, order);
      RunGrows(states, steps, ProcessInbox(n), d);
      states, steps := states + [d], steps + [ProcessInbox(n)];
      assert Processing(order[..0]) == [];
    } else {
      states, steps := AllHear(s, n, order, k - 1);
      var d := FollowerHears(states[|steps|], n, s.cluster.nodes[n].term + 1, order, k - 1);
      RunGrows(states, steps, ProcessInbox(order[k - 1]), d);
      assert Processing(order[..k]) == Processing(order[..k - 1]) + [ProcessInbox(order[k - 1])];
      states, steps := states + [d], steps + [ProcessInbox(order[k - 1])];
    }
  }

  /**
   * From any quiet situation of two or more nodes: the candidate starts, everybody processes its
   * inbox, the candidate its own, everybody theirs again.  Then the candidate leads the next term,
   * all others follow it in that term under its address, and no message is left.
   */
  lemma ElectionSucceeds(s: Simulation, n: NodeId, order: seq<NodeId>)
      returns (states: seq<Simulation>, steps: seq<SimStep>)
    requires Quiet(s, n, order)
    ensures steps == [StartOne(n)] + Processing(order) + [ProcessInbox(n)] + Processing(order)
    ensures SimRun(states, steps, true) && states[0] == s
    ensures var d := states[|steps|];
      && d.cluster.addrs == s.cluster.addrs && d.cluster.nodes.Keys == s.cluster.nodes.Keys
      && forall v | v in d.cluster.nodes ::
           && d.cluster.nodes[v].status == (if v == n then Leader else Follower)
           && d.cluster.nodes[v].term == s.cluster.nodes[n].term + 1
           && d.cluster.nodes[v].registryId == Some(n)
           && d.cluster.nodes[v].registryAddr == Some(AddrOf(s.cluster, n))
           && v in d.cluster.addrs && AddrOf(d.cluster, v) in d.inboxes && d.inboxes[AddrOf(d.cluster, v)] == []
  {
    hide SimNext, InboxInv;
    states, steps := AllHear(s, n, order, |order|);
    assert order[..|order|] == order;
    var d := states[|steps|];
    forall v | v in d.cluster.nodes && v != n
      ensures exists i :: 0 <= i < |order| && order[i] == v
    {
      assert v in order;
    }
  }

  // ---------------------------------------------------------------------
  //  What one event does to each part of a node
  // ---------------------------------------------------------------------

  /** A foreign announcement that is not older than the node's term. */
  predicate HearsLeader(n: Node, e: Event) {
    match e
    case Deliver(id, _, Result(l, t)) => l != id && t >= n.term
    case Deliver(id, _, Change(r, _, _, t)) => r != id && t >= n.term
    case _ => false
  }

  /** What ends a candidacy or an office from outside. */
  predicate Deposes(n: Node, e: Event) {
    || HearsLeader(n, e)
    || (e.Deliver? && e.msg.Request? && e.msg.term > n.term)
    || (e.Deliver? && e.msg.Sync? && n.status == Leader && e.msg.term > n.term)
  }

  /** A new granted vote for this node in this term. */
  predicate Counts(n: Node, e: Event) {
    && e.Deliver? && e.msg.Vote? && e.msg.granted && e.msg.candidate == e.node && e.msg.term == n.term
    && n.status == Candidate && e.msg.voter !in n.votesReceived
  }

  /** Who is candidate, leader or follower after any event: each change has exactly these causes. */
  lemma StatusAfter(c: Cluster, e: Event)
    requires Legal(c, e, false)
    ensures var n, d := c.nodes[e.node], Step(c, e).nodes[e.node];
      var elected := Counts(n, e) && 2 * (|n.votesReceived| + 1) > |c.nodes|;
      && (d.status == Candidate <==> e.Start? || (n.status == Candidate && !elected && !Deposes(n, e)))
      && (d.status == Leader <==> e.Deliver? && (elected || (n.status == Leader && !Deposes(n, e))))
  {
    assert |c.nodes| == |Members(c)|;
  }

  /** A term rises with an own election, and to that of a request or a foreign announcement; nothing else moves it. */
  lemma TermAfter(c: Cluster, e: Event)
    requires Legal(c, e, false)
    ensures var n, d := c.nodes[e.node], Step(c, e).nodes[e.node];
      d.term ==
        if e.Start? then n.term + 1
        else if e.msg.Request? || HearsLeader(n, e) then (if e.msg.term > n.term then e.msg.term else n.term)
        else n.term
  {
  }

  /**
   * First come, first served: a request is granted exactly if its term is new, or current and no
   * vote is remembered.
   */
  lemma VoteAfter(c: Cluster, e: Event)
    requires Legal(c, e, false)
    ensures var n, d := c.nodes[e.node], Step(c, e).nodes[e.node];
      var granted := e.Deliver? && e.msg.Request? &&
        (e.msg.term > n.term || (e.msg.term == n.term && n.votedFor == None));
      && d.votedFor == (if e.Start? then Some(e.node) else if granted then Some(e.msg.candidate) else n.votedFor)
      && d.votesReceived ==
        (if e.Start? then [e.node] else if Counts(n, e) then n.votesReceived + [e.msg.voter] else n.votesReceived)
      && (e.Deliver? && e.msg.Request? ==>
        EffectOf(c, e).outputs == [Send(e.from, Vote(e.node, e.msg.candidate, e.msg.term, granted))])
  {
  }

  /** The registry a node knows is itself once elected, else the last leader it heard. */
  lemma RegistryAfter(c: Cluster, e: Event)
    requires Legal(c, e, false)
    ensures var n, d := c.nodes[e.node], Step(c, e).nodes[e.node];
      var elected := Counts(n, e) && 2 * (|n.votesReceived| + 1) > |c.nodes|;
      && d.registryId ==
        (if elected then Some(e.node)
         else if HearsLeader(n, e) then Some(if e.msg.Result? then e.msg.leader else e.msg.registry)
         else n.registryId)
      && d.registryAddr ==
        (if elected then Some(c.addrs[e.node].1)
         else if HearsLeader(n, e) && e.msg.Change? then Some(e.msg.addr)
         else n.registryAddr)
  {
    assert |c.nodes| == |Members(c)|;
  }
}
