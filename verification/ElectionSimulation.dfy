/**
 * The election simulation as it runs: nodes over their inboxes, first in, first out, and a
 * program that may itself put messages on the network (src/bin/verify_election.rs).  Its runs
 * are runs of ElectionSafety.
 */
module ElectionSimulation {
  import opened Wrappers
  import opened Identity
  import opened ElectionMessages
  import opened ElectionNode
  import opened ElectionSafety

  /** The cluster together with the per-address inboxes of SimNetwork. */
  datatype Simulation = Simulation(cluster: Cluster, inboxes: Inboxes)

  /** A node starts an election or processes its inbox; the program sends or broadcasts a message of its own. */
  datatype SimStep =
    | StartOne(node: NodeId)
    | ProcessInbox(node: NodeId)
    | SendIn(to: string, from: string, msg: Message)
    | BroadcastIn(from: string, msg: Message)

  /** All registered, nothing sent. */
  ghost predicate SimInit(s: Simulation, appointed: Option<NodeId>) {
    Init(s.cluster, appointed) && forall a | a in s.inboxes :: s.inboxes[a] == []
  }

  /** An announcement whose term every node has left behind. */
  predicate OutdatedForAll(c: Cluster, msg: Message) { forall n | n in c.nodes :: Outdated(c.nodes[n], msg) }

  /** What may lie in an inbox: whoever it is delivered to, and whenever, the delivery is legal. */
  predicate Deliverable(c: Cluster, msg: Message, honest: bool) { Genuine(c, msg, honest) || OutdatedForAll(c, msg) }

  ghost predicate Carries(boxes: Inboxes, c: Cluster, honest: bool) {
    forall a, e | a in boxes && e in boxes[a] :: Deliverable(c, e.msg, honest)
  }

  ghost predicate InboxInv(s: Simulation, honest: bool) {
    s.cluster.addrs.Keys == s.cluster.nodes.Keys && Carries(s.inboxes, s.cluster, honest)
  }

  function AddrOf(c: Cluster, n: NodeId): string
    requires n in c.addrs
  {
    c.addrs[n].1
  }

  predicate IsMember(c: Cluster, n: NodeId) { n in c.nodes && n in c.addrs }

  /**
   * The program may send anything but a granted vote; in an honest run no announcement either,
   * unless every node has left its term behind.
   */
  predicate CanStep(s: Simulation, step: SimStep, honest: bool) {
    match step
    case StartOne(n) => IsMember(s.cluster, n) && s.cluster.nodes[n].term < U64_MAX
    case ProcessInbox(n) => IsMember(s.cluster, n) && AddrOf(s.cluster, n) in s.inboxes
    case SendIn(_, _, msg) => MayInvent(s.cluster, msg, honest)
    case BroadcastIn(_, msg) => MayInvent(s.cluster, msg, honest)
  }

  predicate MayInvent(c: Cluster, msg: Message, honest: bool) {
    !(msg.Vote? && msg.granted) && (honest && (msg.Result? || msg.Change?) ==> OutdatedForAll(c, msg))
  }

  /** What a node gets to handle of a batch before a panic. */
  function Readable(msgs: seq<Envelope>): seq<Envelope> {
    if msgs == [] || Panics(msgs[0].msg) then [] else [msgs[0]] + Readable(msgs[1..])
  }

  /** One event of the cluster, and what its node asks of the network. */
  function Happen(s: Simulation, e: Event): Simulation
    requires Legal(s.cluster, e, false)
  {
    Simulation(Step(s.cluster, e), Performed(s.inboxes, AddrOf(s.cluster, e.node), EffectOf(s.cluster, e).outputs))
  }

  function Deliveries(n: NodeId, msgs: seq<Envelope>): seq<Event> {
    if msgs == [] then [] else [Deliver(n, msgs[0].from, msgs[0].msg)] + Deliveries(n, msgs[1..])
  }

  /** The events of one step of the simulation. */
  function EventsOf(s: Simulation, step: SimStep): seq<Event>
    requires CanStep(s, step, false)
  {
    match step
    case StartOne(n) => [Start(n)]
    case ProcessInbox(n) => Deliveries(n, Readable(s.inboxes[AddrOf(s.cluster, n)]))
    case SendIn(_, _, _) => []
    case BroadcastIn(_, _) => []
  }

  /** Events one after the other, the network alongside. */
  function HappenAll(s: Simulation, run: seq<Event>): Simulation
    requires LegalRun(s.cluster, run, false)
    decreases |run|
  {
    if run == [] then s else HappenAll(Happen(s, run[0]), run[1..])
  }

  /** The network as the events find it: processing takes the whole inbox first. */
  function Prepared(s: Simulation, step: SimStep): Simulation
    requires CanStep(s, step, false)
  {
    match step
    case StartOne(_) => s
    case ProcessInbox(n) => s.(inboxes := s.inboxes[AddrOf(s.cluster, n) := []])
    case SendIn(to, from, msg) => s.(inboxes := Sent(s.inboxes, to, Envelope(from, msg)))
    case BroadcastIn(from, msg) => s.(inboxes := Broadcasted(s.inboxes, Envelope(from, msg)))
  }

  ghost predicate SimNext(s: Simulation, step: SimStep, after: Simulation, honest: bool) {
    && CanStep(s, step, honest) && CanStep(s, step, false)
    && LegalRun(s.cluster, EventsOf(s, step), false)
    && after == HappenAll(Prepared(s, step), EventsOf(s, step))
  }

  // ---------------------------------------------------------------------
  //  Each step is what the node's method does
  // ---------------------------------------------------------------------

  lemma {:induction false} HandleReadable(cfg: Config, n: Node, boxes: Inboxes, msgs: seq<Envelope>)
    ensures HandleAll(cfg, n, boxes, msgs) == HandleAll(cfg, n, boxes, Readable(msgs))
    decreases |msgs|
  {
    hide HandleMessage, Performed;
    if msgs != [] && !Panics(msgs[0].msg) {
      var e := HandleMessage(cfg, n, msgs[0].from, msgs[0].msg);
      HandleReadable(cfg, e.node, Performed(boxes, cfg.addr, e.outputs), msgs[1..]);
      assert Readable(msgs)[1..] == Readable(msgs[1..]);
    }
  }

  lemma {:induction false} NoneReadablePanics(msgs: seq<Envelope>)
    ensures forall e | e in Readable(msgs) :: !Panics(e.msg) && e in msgs
  {
    if msgs != [] && !Panics(msgs[0].msg) {
      NoneReadablePanics(msgs[1..]);
    }
  }

  lemma HappenMoves(s: Simulation, n: NodeId, e: Envelope)
    requires Legal(s.cluster, Deliver(n, e.from, e.msg), false)
    ensures var d := Happen(s, Deliver(n, e.from, e.msg));
      var eff := HandleMessage(CfgOf(s.cluster, n), s.cluster.nodes[n], e.from, e.msg);
      && n in d.cluster.nodes && n in d.cluster.addrs
      && d.cluster.nodes[n] == eff.node && d.inboxes == Performed(s.inboxes, AddrOf(s.cluster, n), eff.outputs)
      && d.cluster.addrs == s.cluster.addrs && Members(d.cluster) == Members(s.cluster)
  {
    hide HandleMessage, Performed;
  }

  lemma {:induction false} DeliveriesAreHandleAll(s: Simulation, n: NodeId, msgs: seq<Envelope>)
    requires LegalRun(s.cluster, Deliveries(n, msgs), false) && n in s.cluster.nodes && n in s.cluster.addrs
    requires forall e | e in msgs :: !Panics(e.msg)
    ensures var d := HappenAll(s, Deliveries(n, msgs));
      && n in d.cluster.nodes
      && (d.cluster.nodes[n], d.inboxes) == HandleAll(CfgOf(s.cluster, n), s.cluster.nodes[n], s.inboxes, msgs)
    decreases |msgs|
  {
    hide HandleMessage, Performed, Happen, Step, Legal;
    if msgs != [] {
      var run := Deliveries(n, msgs);
      assert run[0] == Deliver(n, msgs[0].from, msgs[0].msg) && run[1..] == Deliveries(n, msgs[1..]);
      HappenMoves(s, n, msgs[0]);
      var next := Happen(s, run[0]);
      assert next.cluster == Step(s.cluster, run[0]) by {
        HappenSteps(s, run[0]);
      }
      assert CfgOf(next.cluster, n) == CfgOf(s.cluster, n);
      DeliveriesAreHandleAll(next, n, msgs[1..]);
    }
  }

  lemma HappenSteps(s: Simulation, e: Event)
    requires Legal(s.cluster, e, false)
    ensures Happen(s, e).cluster == Step(s.cluster, e)
  {
  }

  /** Processing an inbox leaves node and network as the node's own ProcessInbox does. */
  lemma ProcessingIsHandleAll(s: Simulation, n: NodeId, after: Simulation)
    requires SimNext(s, ProcessInbox(n), after, false)
    ensures var addr := AddrOf(s.cluster, n);
      && n in after.cluster.nodes
      && (after.cluster.nodes[n], after.inboxes) ==
        HandleAll(CfgOf(s.cluster, n), s.cluster.nodes[n], s.inboxes[addr := []], s.inboxes[addr])
  {
    hide HandleAll, HappenAll, LegalRun;
    var addr := AddrOf(s.cluster, n);
    var msgs := s.inboxes[addr];
    NoneReadablePanics(msgs);
    DeliveriesAreHandleAll(Prepared(s, ProcessInbox(n)), n, Readable(msgs));
    HandleReadable(CfgOf(s.cluster, n), s.cluster.nodes[n], s.inboxes[addr := []], msgs);
  }

  /** Starting an election leaves node and network as the node's own Start does. */
  lemma StartingIsStartElection(s: Simulation, n: NodeId, after: Simulation)
    requires SimNext(s, StartOne(n), after, false)
    ensures var e := StartElection(CfgOf(s.cluster, n), s.cluster.nodes[n]);
      && e.Some? && n in after.cluster.nodes
      && after.cluster.nodes[n] == e.value.node
      && after.inboxes == Performed(s.inboxes, AddrOf(s.cluster, n), e.value.outputs)
  {
    hide Performed;
    assert [Start(n)][1..] == [];
    assert after == HappenAll(Happen(s, Start(n)), []);
  }

  // ---------------------------------------------------------------------
  //  Every run of the simulation is a legal run of the cluster
  // ---------------------------------------------------------------------

  /** No event lowers a term. */
  lemma TermsNeverFall(c: Cluster, e: Event)
    requires Legal(c, e, false)
    ensures Members(Step(c, e)) == Members(c) && Step(c, e).addrs == c.addrs
    ensures forall n | n in c.nodes :: n in Step(c, e).nodes && Step(c, e).nodes[n].term >= c.nodes[n].term
  {
  }

  /** What may be delivered may be delivered later. */
  lemma StaysDeliverable(c: Cluster, e: Event, msg: Message, honest: bool)
    requires Legal(c, e, false) && Deliverable(c, msg, honest)
    ensures Deliverable(Step(c, e), msg, honest)
  {
    hide EffectOf, Cast, Wins, Accepts, Legal;
    TermsNeverFall(c, e);
  }

  lemma {:induction false} PerformedCarries(
      boxes: Inboxes, from: string, outputs: seq<Output>, c: Cluster, honest: bool)
    requires forall o | o in outputs :: o.msg in c.sent
    requires Carries(boxes, c, honest)
    ensures Carries(Performed(boxes, from, outputs), c, honest)
    decreases |outputs|
  {
    if outputs != [] {
      var next := match outputs[0]
        case Broadcast(m) => Broadcasted(boxes, Envelope(from, m))
        case Send(to, m) => Sent(boxes, to, Envelope(from, m));
      assert outputs[0] in outputs;
      assert Deliverable(c, outputs[0].msg, honest);
      PerformedCarries(next, from, outputs[1..], c, honest);
    }
  }

  lemma HappenKeepsInv(s: Simulation, e: Event, honest: bool)
    requires InboxInv(s, honest) && Legal(s.cluster, e, false)
    ensures InboxInv(Happen(s, e), honest)
  {
    hide Performed, Deliverable, Legal;
    var c, d := s.cluster, Step(s.cluster, e);
    TermsNeverFall(c, e);
    forall a, x | a in s.inboxes && x in s.inboxes[a]
      ensures Deliverable(d, x.msg, honest)
    {
      StaysDeliverable(c, e, x.msg, honest);
    }
    PerformedCarries(s.inboxes, AddrOf(c, e.node), EffectOf(c, e).outputs, d, honest);
  }

  /** Whatever batch the inboxes hand out, each delivery of it is legal in its turn. */
  lemma {:induction false} InboxDeliveryIsLegal(s: Simulation, n: NodeId, msgs: seq<Envelope>, honest: bool)
    requires InboxInv(s, honest) && IsMember(s.cluster, n)
    requires forall e | e in msgs :: Deliverable(s.cluster, e.msg, honest)
    ensures var run := Deliveries(n, msgs);
      && LegalRun(s.cluster, run, honest) && LegalRun(s.cluster, run, false)
      && InboxInv(HappenAll(s, run), honest) && HappenAll(s, run).cluster == Execute(s.cluster, run)
    decreases |msgs|
  {
    hide Performed, Step, InboxInv, Deliverable, Legal;
    if msgs != [] {
      var run := Deliveries(n, msgs);
      assert msgs[0] in msgs;
      DeliveryIsLegal(s.cluster, n, msgs[0], honest);
      HappenKeepsInv(s, run[0], honest);
      HappenSteps(s, run[0]);
      TermsNeverFall(s.cluster, run[0]);
      var next := Happen(s, run[0]);
      forall e | e in msgs[1..]
        ensures Deliverable(next.cluster, e.msg, honest)
      {
        StaysDeliverable(s.cluster, run[0], e.msg, honest);
      }
      assert run[1..] == Deliveries(n, msgs[1..]);
      InboxDeliveryIsLegal(next, n, msgs[1..], honest);
    }
  }

  lemma DeliveryIsLegal(c: Cluster, n: NodeId, e: Envelope, honest: bool)
    requires IsMember(c, n) && Deliverable(c, e.msg, honest)
    ensures Legal(c, Deliver(n, e.from, e.msg), honest) && Legal(c, Deliver(n, e.from, e.msg), false)
  {
  }

  lemma OneEvent(s: Simulation, e: Event, honest: bool)
    requires InboxInv(s, honest) && Legal(s.cluster, e, honest) && Legal(s.cluster, e, false)
    ensures LegalRun(s.cluster, [e], honest) && LegalRun(s.cluster, [e], false)
    ensures InboxInv(HappenAll(s, [e]), honest) && HappenAll(s, [e]).cluster == Execute(s.cluster, [e])
  {
    hide Performed, Step, Legal, InboxInv;
    HappenKeepsInv(s, e, honest);
    HappenSteps(s, e);
    assert [e][1..] == [];
    assert HappenAll(s, [e]) == HappenAll(Happen(s, e), []);
    assert Execute(s.cluster, [e]) == Execute(Step(s.cluster, e), []);
  }

  lemma PreparedKeepsInv(s: Simulation, step: SimStep, honest: bool)
    requires InboxInv(s, honest) && CanStep(s, step, honest) && CanStep(s, step, false)
    ensures InboxInv(Prepared(s, step), honest) && Prepared(s, step).cluster == s.cluster
  {
    if step.SendIn? || step.BroadcastIn? {
      assert Deliverable(s.cluster, step.msg, honest);
    }
  }

  lemma StepIsLegal(s: Simulation, step: SimStep, honest: bool)
    requires InboxInv(s, honest) && CanStep(s, step, honest)
    ensures CanStep(s, step, false)
    ensures var run := EventsOf(s, step);
      && LegalRun(s.cluster, run, honest) && LegalRun(s.cluster, run, false)
      && var after := HappenAll(Prepared(s, step), run);
      InboxInv(after, honest) && after.cluster == Execute(s.cluster, run)
  {
    hide Legal, Step, Deliverable, Performed;
    PreparedKeepsInv(s, step, honest);
    match step
    case StartOne(n) =>
      StartIsLegal(s.cluster, n, honest);
      OneEvent(s, Start(n), honest);
    case ProcessInbox(n) =>
      var msgs := s.inboxes[AddrOf(s.cluster, n)];
      NoneReadablePanics(msgs);
      InboxDeliveryIsLegal(Prepared(s, step), n, Readable(msgs), honest);
    case SendIn(_, _, _) =>
    case BroadcastIn(_, _) =>
  }

  lemma StartIsLegal(c: Cluster, n: NodeId, honest: bool)
    requires IsMember(c, n) && c.nodes[n].term < U64_MAX
    ensures Legal(c, Start(n), honest) && Legal(c, Start(n), false)
  {
  }

  ghost predicate SimRun(states: seq<Simulation>, steps: seq<SimStep>, honest: bool) {
    && |states| == |steps| + 1
    && forall k: nat | k < |steps| :: SimNext(states[k], steps[k], states[k + 1], honest)
  }

  /** No step that the simulation can take gets stuck inside. */
  lemma NoStepIsStuck(s: Simulation, step: SimStep, honest: bool)
    requires InboxInv(s, honest) && CanStep(s, step, honest)
    ensures exists after :: SimNext(s, step, after, honest)
  {
    StepIsLegal(s, step, honest);
    assert SimNext(s, step, HappenAll(Prepared(s, step), EventsOf(s, step)), honest);
  }

  /** The simulation's cluster after any number of steps is reached by a legal run, honest if its steps are. */
  lemma {:induction false} SimulationRunIsLegal(states: seq<Simulation>, steps: seq<SimStep>, n: nat, honest: bool)
      returns (run: seq<Event>)
    requires SimRun(states, steps, honest) && InboxInv(states[0], honest) && n <= |steps|
    ensures LegalRun(states[0].cluster, run, honest) && LegalRun(states[0].cluster, run, false)
    ensures Execute(states[0].cluster, run) == states[n].cluster && InboxInv(states[n], honest)
  {
    hide InboxInv, EventsOf, HappenAll, Prepared;
    if n == 0 {
      run := [];
    } else {
      var before := SimulationRunIsLegal(states, steps, n - 1, honest);
      assert SimNext(states[n - 1], steps[n - 1], states[n], honest);
      StepIsLegal(states[n - 1], steps[n - 1], honest);
      var more := EventsOf(states[n - 1], steps[n - 1]);
      Chained(states[0].cluster, before, more, honest);
      run := before + more;
    }
  }

  /** In every run of the simulation, whatever the program sends, at most one node is Leader of any term. */
  lemma SimulationElectsOne(states: seq<Simulation>, steps: seq<SimStep>, appointed: Option<NodeId>, n: nat)
    requires SimRun(states, steps, false) && SimInit(states[0], appointed) && n <= |steps|
    ensures var d := states[n].cluster;
      && (forall a, b, t :: (a, t) in d.won && (b, t) in d.won ==> a == b)
      && (forall a, b | a in d.nodes && b in d.nodes
            && d.nodes[a].status == Leader && d.nodes[b].status == Leader
            && d.nodes[a].term == d.nodes[b].term :: a == b)
  {
    var run := SimulationRunIsLegal(states, steps, n, false);
    hide Execute, LegalRun;
    AtMostOneLeaderPerTerm(states[0].cluster, run, appointed);
  }

  /** In every honest run of the simulation registries adopted in one term are equal. */
  lemma SimulationAgrees(
    states: seq<Simulation>, steps: seq<SimStep>, appointed: Option<NodeId>, n: nat, a: NodeId, b: NodeId)
    requires SimRun(states, steps, true) && SimInit(states[0], appointed) && n <= |steps|
    requires var d := states[n].cluster;
      a in d.registryTerm && b in d.registryTerm && d.registryTerm[a] == d.registryTerm[b]
    ensures var d := states[n].cluster;
      && a in d.nodes && b in d.nodes
      && d.nodes[a].registryId == d.nodes[b].registryId && d.nodes[a].registryId.Some?
  {
    var run := SimulationRunIsLegal(states, steps, n, true);
    hide Execute, LegalRun;
    RegistryAgreement(states[0].cluster, run, appointed, a, b);
  }

  // ---------------------------------------------------------------------
  //  Asking a leader for its data
  // ---------------------------------------------------------------------

  /** Processing a single sync request of the own term, a leader answers its sender. */
  lemma LeaderAnswers(s: Simulation, l: NodeId, asker: string, requester: NodeId, after: Simulation)
    requires SimNext(s, ProcessInbox(l), after, true)
    requires s.cluster.nodes[l].status == Leader
    requires s.inboxes[AddrOf(s.cluster, l)] == [Envelope(asker, Sync(requester, s.cluster.nodes[l].term))]
    requires asker in s.inboxes && asker != AddrOf(s.cluster, l)
    ensures after.inboxes == s.inboxes[AddrOf(s.cluster, l) := []][
      asker := s.inboxes[asker] + [Envelope(AddrOf(s.cluster, l), Data(l, s.cluster.nodes[l].term))]]
  {
    ProcessingIsHandleAll(s, l, after);
    var cfg, node, addr := CfgOf(s.cluster, l), s.cluster.nodes[l], AddrOf(s.cluster, l);
    var box, boxes := s.inboxes[addr], s.inboxes[addr := []];
    var eff := HandleSync(cfg, node, asker, node.term);
    assert box[1..] == [];
    assert HandleAll(cfg, node, boxes, box) == HandleAll(cfg, eff.node, Performed(boxes, addr, eff.outputs), []);
    assert eff.outputs[1..] == [];
    assert Performed(boxes, addr, eff.outputs) == Sent(boxes, asker, Envelope(addr, Data(l, node.term)));
  }

  /** A batch that begins with a leader's data is lost whole: its node is left as it was. */
  lemma AskerLosesBatch(s: Simulation, a: NodeId, after: Simulation)
    requires SimNext(s, ProcessInbox(a), after, true)
    requires s.inboxes[AddrOf(s.cluster, a)] != [] && Panics(s.inboxes[AddrOf(s.cluster, a)][0].msg)
    ensures after == s.(inboxes := s.inboxes[AddrOf(s.cluster, a) := []])
  {
  }

  /**
   * A run of four steps that gets there: with an appointed leader, one sync request to it, its
   * answer, a vote request to the asker, and the asker reads the answer first.
   */
  lemma SyncAnswerLosesBatch(s: Simulation, l: NodeId, a: NodeId, candidate: NodeId, from: string)
      returns (states: seq<Simulation>, steps: seq<SimStep>)
    requires SimInit(s, Some(l)) && l in s.cluster.nodes && a in s.cluster.nodes
    requires AddrOf(s.cluster, l) in s.inboxes && AddrOf(s.cluster, a) in s.inboxes
    requires AddrOf(s.cluster, l) != AddrOf(s.cluster, a)
    ensures SimRun(states, steps, true) && |steps| == 4 && states[0] == s && steps[3] == ProcessInbox(a)
    ensures var box := AddrOf(s.cluster, a);
      && box in states[3].inboxes && box in states[4].inboxes
      && states[3].inboxes[box] ==
        [Envelope(AddrOf(s.cluster, l), Data(l, 0)), Envelope(from, Request(candidate, 1))]
      && states[4].inboxes[box] == [] && a in states[4].cluster.nodes
      && states[4].cluster.nodes[a] == s.cluster.nodes[a]
  {
    hide SimNext, InboxInv, Deliverable, HappenAll, LegalRun;
    var la, aa := AddrOf(s.cluster, l), AddrOf(s.cluster, a);
    steps := [SendIn(la, aa, Sync(a, 0)), ProcessInbox(l), SendIn(aa, from, Request(candidate, 1)), ProcessInbox(a)];
    EmptyInboxes(s, Some(l));
    var s1 := SendingIsSent(s, la, aa, Sync(a, 0));
    var s2 := ProcessingLeavesOthers(s1, l);
    LeaderAnswers(s1, l, aa, a, s2);
    var s3 := SendingIsSent(s2, aa, from, Request(candidate, 1));
    var s4 := ProcessingLeavesOthers(s3, a);
    AskerLosesBatch(s3, a, s4);
    states := [s, s1, s2, s3, s4];
  }

  lemma EmptyInboxes(s: Simulation, appointed: Option<NodeId>)
    requires SimInit(s, appointed)
    ensures InboxInv(s, true)
  {
  }

  lemma SendingIsSent(s: Simulation, to: string, from: string, msg: Message) returns (after: Simulation)
    requires InboxInv(s, true) && (msg.Sync? || msg.Request?)
    ensures SimNext(s, SendIn(to, from, msg), after, true) && InboxInv(after, true)
    ensures after == s.(inboxes := Sent(s.inboxes, to, Envelope(from, msg)))
  {
    hide InboxInv, Deliverable;
    StepIsLegal(s, SendIn(to, from, msg), true);
    after := Prepared(s, SendIn(to, from, msg));
    assert HappenAll(after, []) == after;
  }

  lemma ProcessingLeavesOthers(s: Simulation, n: NodeId) returns (after: Simulation)
    requires InboxInv(s, true) && IsMember(s.cluster, n) && AddrOf(s.cluster, n) in s.inboxes
    ensures SimNext(s, ProcessInbox(n), after, true) && InboxInv(after, true)
    ensures after.cluster.addrs == s.cluster.addrs && after.cluster.nodes.Keys == s.cluster.nodes.Keys
    ensures forall m | m in s.cluster.nodes && m != n :: after.cluster.nodes[m] == s.cluster.nodes[m]
  {
    hide InboxInv, Deliverable;
    StepIsLegal(s, ProcessInbox(n), true);
    var prepared, run := Prepared(s, ProcessInbox(n)), EventsOf(s, ProcessInbox(n));
    after := HappenAll(prepared, run);
    DeliveriesLeaveOthers(prepared, n, Readable(s.inboxes[AddrOf(s.cluster, n)]));
  }

  lemma {:induction false} DeliveriesLeaveOthers(s: Simulation, n: NodeId, msgs: seq<Envelope>)
    requires LegalRun(s.cluster, Deliveries(n, msgs), false)
    ensures var after := HappenAll(s, Deliveries(n, msgs));
      && after.cluster.addrs == s.cluster.addrs && after.cluster.nodes.Keys == s.cluster.nodes.Keys
      && forall m | m in s.cluster.nodes && m != n :: after.cluster.nodes[m] == s.cluster.nodes[m]
    decreases |msgs|
  {
    hide Performed, EffectOf, Cast, Wins, Accepts;
    if msgs != [] {
      var run := Deliveries(n, msgs);
      assert run[0] == Deliver(n, msgs[0].from, msgs[0].msg) && run[1..] == Deliveries(n, msgs[1..]);
      DeliveriesLeaveOthers(Happen(s, run[0]), n, msgs[1..]);
    }
  }

  /** The same over the nodes themselves: the asker's processing reports the panic and its vote request is gone. */
  method AskerPanics(leader: NodeId, asker: NodeId) returns (ok: bool, term: nat, left: seq<Envelope>)
    ensures !ok && term == 0 && left == []
  {
    var network := new SimNetwork();
    network.Register("leader");
    network.Register("asker");
    var l := new SimNode(leader, "", "leader", 2, network);
    var a := new SimNode(asker, "", "asker", 2, network);
    l.status := Leader;
    var _ := network.SendTo("leader", "asker", Sync(asker, 0));
    ghost var node, boxes := l.State(), network.inboxes;
    assert boxes["leader"] == [Envelope("asker", Sync(asker, 0))];
    var _ := l.ProcessInbox();
    AnswerOf(l.Cfg(), node, boxes, asker);
    assert network.inboxes["asker"] == [Envelope("leader", Data(leader, 0))];
    var _ := network.SendTo("asker", "candidate", Request(leader, 1));
    assert network.inboxes["asker"][0] == Envelope("leader", Data(leader, 0));
    ok := a.ProcessInbox();
    term := a.term;
    left := network.Take("asker");
  }

  lemma AnswerOf(cfg: Config, n: Node, boxes: Inboxes, asker: NodeId)
    requires cfg.addr == "leader" && n.status == Leader && n.term == 0
    requires boxes == map["leader" := [Envelope("asker", Sync(asker, 0))], "asker" := []]
    ensures HandleAll(cfg, n, boxes["leader" := []], boxes["leader"]) ==
      (n, map["leader" := [], "asker" := [Envelope("leader", Data(cfg.id, 0))]])
  {
    var box, emptied := boxes["leader"], boxes["leader" := []];
    var eff := HandleSync(cfg, n, "asker", 0);
    assert box[1..] == [] && eff.outputs[1..] == [];
    assert HandleAll(cfg, n, emptied, box) ==
      HandleAll(cfg, eff.node, Performed(emptied, "leader", eff.outputs), []);
    assert Performed(emptied, "leader", eff.outputs) == Sent(emptied, "asker", Envelope("leader", Data(cfg.id, 0)));
    assert "leader"[0] != "asker"[0];
    assert emptied == map["leader" := [], "asker" := []] && "asker" in emptied;
    assert emptied["asker"] + [Envelope("leader", Data(cfg.id, 0))] == [Envelope("leader", Data(cfg.id, 0))];
    assert Sent(emptied, "asker", Envelope("leader", Data(cfg.id, 0))) ==
      map["leader" := [], "asker" := [Envelope("leader", Data(cfg.id, 0))]];
  }
}
