/**
 * Runs of the simulated election (src/bin/verify_election.rs).
 *
 * The network may lose, duplicate, reorder and misdeliver: any message ever sent may be
 * handed to any node any number of times, or never.  Requests, refusals and sync messages
 * may moreover be invented; announcements (Result, Change) may be invented too unless the
 * run is `honest`; an honest run may still repeat announcements of terms its receivers have
 * left behind.  Only a granted vote has to have been sent.
 */
module ElectionSafety {
  import opened Wrappers
  import opened Identity
  import opened ElectionMessages
  import opened ElectionNode
  import Counting

  /**
   * `nodes` and `sent` are the system, `addrs` each node's name and address.  The rest only records history:
   * which candidate each node voted for in each term, who won which term, and the term
   * of the announcement (or own victory) a node's `registryId` comes from.
   */
  datatype Cluster = Cluster(
    nodes: map<NodeId, Node>,
    addrs: map<NodeId, (string, string)>,
    sent: set<Message>,
    votes: map<(NodeId, nat), NodeId>,
    won: set<(NodeId, nat)>,
    registryTerm: map<NodeId, nat>)

  datatype Event = Start(node: NodeId) | Deliver(node: NodeId, from: string, msg: Message)

  function Members(c: Cluster): set<NodeId> { c.nodes.Keys }

  function CfgOf(c: Cluster, id: NodeId): Config
    requires id in c.addrs
  {
    Config(id, c.addrs[id].0, c.addrs[id].1, |Members(c)|)
  }

  /** Start-up: all followers in term 0; `run` may appoint one leader by hand. */
  ghost predicate Init(c: Cluster, appointed: Option<NodeId>) {
    && c.addrs.Keys == c.nodes.Keys
    && (forall n | n in c.nodes ::
          && c.nodes[n].term == 0
          && c.nodes[n].votedFor == None
          && c.nodes[n].votesReceived == []
          && c.nodes[n].status == (if appointed == Some(n) then Leader else Follower))
    && c.sent == {} && c.votes == map[] && c.won == {} && c.registryTerm == map[]
  }

  predicate Genuine(c: Cluster, msg: Message, honest: bool) {
    || msg in c.sent
    || msg.Request?
    || msg.Sync?
    || msg.Data?
    || (msg.Vote? && !msg.granted)
    || (!honest && (msg.Result? || msg.Change?))
  }

  /** An announcement of an older term, which its receiver ignores. */
  predicate Outdated(n: Node, msg: Message) { (msg.Result? || msg.Change?) && msg.term < n.term }

  predicate Legal(c: Cluster, e: Event, honest: bool) {
    && e.node in c.nodes
    && e.node in c.addrs
    && match e
       case Start(n) => c.nodes[n].term < U64_MAX
       case Deliver(n, _, msg) => Genuine(c, msg, honest) || Outdated(c.nodes[n], msg)
  }

  function EffectOf(c: Cluster, e: Event): Effect
    requires Legal(c, e, false)
  {
    match e
    case Start(n) => StartElection(CfgOf(c, n), c.nodes[n]).value
    case Deliver(n, from, msg) => HandleMessage(CfgOf(c, n), c.nodes[n], from, msg)
  }

  /** The candidate this event makes its node vote for, if any. */
  function Cast(c: Cluster, e: Event): Option<NodeId>
    requires Legal(c, e, false)
  {
    match e
    case Start(n) => Some(n)
    case Deliver(n, _, Request(candidate, term)) =>
      (match EffectOf(c, e).outputs[0].msg case Vote(_, _, _, true) => Some(candidate) case _ => None)
    case _ => None
  }

  predicate Wins(c: Cluster, e: Event)
    requires Legal(c, e, false)
  {
    EffectOf(c, e).node.status == Leader && c.nodes[e.node].status != Leader
  }

  /** The event is an announcement by someone else that is not older than the node's term. */
  predicate Accepts(c: Cluster, e: Event)
    requires Legal(c, e, false)
  {
    match e
    case Deliver(n, _, Result(l, t)) => l != n && t >= c.nodes[n].term
    case Deliver(n, _, Change(r, _, _, t)) => r != n && t >= c.nodes[n].term
    case _ => false
  }

  function Step(c: Cluster, e: Event): Cluster
    requires Legal(c, e, false)
  {
    var n, eff, cast := e.node, EffectOf(c, e), Cast(c, e);
    c.(nodes := c.nodes[n := eff.node],
       sent := c.sent + (set o | o in eff.outputs :: o.msg),
       votes := if cast.Some? then c.votes[(n, eff.node.term) := cast.value] else c.votes,
       won := if Wins(c, e) then c.won + {(n, eff.node.term)} else c.won,
       registryTerm := if Wins(c, e) || Accepts(c, e) then c.registryTerm[n := eff.node.term] else c.registryTerm)
  }

  predicate LegalRun(c: Cluster, run: seq<Event>, honest: bool)
    decreases |run|
  {
    run == [] || (Legal(c, run[0], honest) && LegalRun(Step(c, run[0]), run[1..], honest))
  }

  function Execute(c: Cluster, run: seq<Event>): Cluster
    requires LegalRun(c, run, false)
    decreases |run|
  {
    if run == [] then c else Execute(Step(c, run[0]), run[1..])
  }

  // ---------------------------------------------------------------------
  //  Invariants
  // ---------------------------------------------------------------------

  ghost function Voters(c: Cluster, candidate: NodeId, term: nat): set<NodeId> {
    set v | v in c.nodes && (v, term) in c.votes && c.votes[(v, term)] == candidate
  }

  /** A vote in the current term is remembered, and no vote lies in the future. */
  ghost predicate LedgerInv(c: Cluster) {
    && c.addrs.Keys == c.nodes.Keys
    && (forall v, t | (v, t) in c.votes ::
          && v in c.nodes
          && t <= c.nodes[v].term
          && (t == c.nodes[v].term ==> c.nodes[v].votedFor == Some(c.votes[(v, t)])))
    && (forall v: NodeId, x: NodeId, t: nat | Vote(v, x, t, true) in c.sent ::
        (v, t) in c.votes && c.votes[(v, t)] == x)
  }

  ghost predicate BallotInv(c: Cluster) {
    forall n | n in c.nodes && c.nodes[n].status == Candidate ::
      && c.nodes[n].term >= 1
      && (forall i, j | 0 <= i < j < |c.nodes[n].votesReceived| ::
          c.nodes[n].votesReceived[i] != c.nodes[n].votesReceived[j])
      && (forall v | v in c.nodes[n].votesReceived :: v in Voters(c, n, c.nodes[n].term))
  }

  ghost predicate QuorumInv(c: Cluster, appointed: Option<NodeId>) {
    && (forall n, t | (n, t) in c.won :: n in c.nodes && t >= 1 && 2 * |Voters(c, n, t)| > |Members(c)|)
    && (forall n | n in c.nodes && c.nodes[n].status == Leader ::
          (n, c.nodes[n].term) in c.won || (appointed == Some(n) && c.nodes[n].term == 0))
  }

  lemma VotesAreNeverChanged(c: Cluster, e: Event)
    requires Legal(c, e, false) && LedgerInv(c)
    ensures forall k | k in c.votes :: k in Step(c, e).votes && Step(c, e).votes[k] == c.votes[k]
    ensures forall x, t :: Voters(c, x, t) <= Voters(Step(c, e), x, t)
  {
  }

  lemma LedgerStep(c: Cluster, e: Event)
    requires Legal(c, e, false) && LedgerInv(c)
    ensures LedgerInv(Step(c, e))
  {
    hide Voters;
    var d := Step(c, e);
    forall v: NodeId, x: NodeId, t: nat | Vote(v, x, t, true) in d.sent
      ensures (v, t) in d.votes && d.votes[(v, t)] == x
    {
      VotesAreNeverChanged(c, e);
    }
  }

  /** A node is Candidate after an event if it has just started, or was one and at most gained a genuine vote. */
  lemma CandidateAfter(c: Cluster, e: Event)
    requires Legal(c, e, false) && EffectOf(c, e).node.status == Candidate
    ensures var n, m := c.nodes[e.node], EffectOf(c, e).node;
      || (e.Start? && m.term == n.term + 1 && m.votesReceived == [e.node] && Cast(c, e) == Some(e.node))
      || (n.status == Candidate && m.term == n.term && m.votesReceived == n.votesReceived)
      || (n.status == Candidate && m.term == n.term && e.Deliver? && e.msg.Vote? && e.msg in c.sent
          && e.msg == Vote(e.msg.voter, e.node, n.term, true) && e.msg.voter !in n.votesReceived
          && m.votesReceived == n.votesReceived + [e.msg.voter])
  {
  }

  lemma BallotStep(c: Cluster, e: Event)
    requires Legal(c, e, false) && LedgerInv(c) && BallotInv(c)
    ensures BallotInv(Step(c, e))
  {
    VotesAreNeverChanged(c, e);
    if EffectOf(c, e).node.status == Candidate {
      CandidateAfter(c, e);
    }
    hide EffectOf, Cast, Wins, Accepts, Legal;
  }

  /** A node turns Leader only on a vote that completes a majority of distinct real votes. */
  lemma VictoryNeedsMajority(c: Cluster, e: Event)
    requires Legal(c, e, false) && LedgerInv(c) && BallotInv(c) && Wins(c, e)
    ensures Step(c, e).nodes[e.node].term >= 1
    ensures 2 * |Voters(Step(c, e), e.node, Step(c, e).nodes[e.node].term)| > |Members(c)|
  {
    var n, d := c.nodes[e.node], Step(c, e);
    assert e.Deliver? && e.msg.Vote? && n.status == Candidate;
    var votes := n.votesReceived + [e.msg.voter];
    assert |votes| > |Members(c)| / 2 && d.nodes[e.node].votesReceived == votes;
    VotesAreNeverChanged(c, e);
    Counting.DistinctCount(votes, Voters(d, e.node, n.term));
  }

  lemma QuorumStep(c: Cluster, e: Event, appointed: Option<NodeId>)
    requires Legal(c, e, false) && LedgerInv(c) && BallotInv(c) && QuorumInv(c, appointed)
    ensures QuorumInv(Step(c, e), appointed)
  {
    var d := Step(c, e);
    assert Members(c) == Members(d);
    forall n: NodeId, t: nat | (n, t) in d.won
      ensures n in d.nodes && t >= 1 && 2 * |Voters(d, n, t)| > |Members(d)|
    {
      if (n, t) in c.won {
        VotesAreNeverChanged(c, e);
        Counting.SubsetCount(Voters(c, n, t), Voters(d, n, t));
      } else {
        VictoryNeedsMajority(c, e);
      }
    }
    LeadersStay(c, e, appointed);
  }

  lemma LeadersStay(c: Cluster, e: Event, appointed: Option<NodeId>)
    requires Legal(c, e, false) && QuorumInv(c, appointed)
    ensures forall n | n in Step(c, e).nodes && Step(c, e).nodes[n].status == Leader ::
      (n, Step(c, e).nodes[n].term) in Step(c, e).won || (appointed == Some(n) && Step(c, e).nodes[n].term == 0)
  {
  }

  // ---------------------------------------------------------------------
  //  Election safety over whole runs
  // ---------------------------------------------------------------------

  lemma {:induction false} RunKeepsInvariants(c: Cluster, run: seq<Event>, appointed: Option<NodeId>)
    requires LedgerInv(c) && BallotInv(c) && QuorumInv(c, appointed)
    requires LegalRun(c, run, false)
    ensures var d := Execute(c, run);
      LedgerInv(d) && BallotInv(d) && QuorumInv(d, appointed) && Members(d) == Members(c) && c.won <= d.won
    decreases |run|
  {
    if run != [] {
      LedgerStep(c, run[0]);
      BallotStep(c, run[0]);
      QuorumStep(c, run[0], appointed);
      RunKeepsInvariants(Step(c, run[0]), run[1..], appointed);
    }
  }

  /** Two majorities of one electorate meet, and the common voter voted once. */
  lemma QuorumsMeet(c: Cluster, a: NodeId, b: NodeId, t: nat)
    requires 2 * |Voters(c, a, t)| > |Members(c)| && 2 * |Voters(c, b, t)| > |Members(c)|
    ensures a == b
  {
    Counting.MajoritiesMeet(Voters(c, a, t), Voters(c, b, t), Members(c));
  }

  /**
   * In every run, whatever is lost, repeated, reordered or announced, no two nodes ever
   * become Leader in one term; and no two nodes are Leader of one term at the same time,
   * counting the leader appointed at start-up for term 0.
   */
  lemma AtMostOneLeaderPerTerm(c: Cluster, run: seq<Event>, appointed: Option<NodeId>)
    requires Init(c, appointed) && LegalRun(c, run, false)
    ensures var d := Execute(c, run);
      && (forall a, b, t :: (a, t) in d.won && (b, t) in d.won ==> a == b)
      && (forall a, b | a in d.nodes && b in d.nodes
            && d.nodes[a].status == Leader && d.nodes[b].status == Leader
            && d.nodes[a].term == d.nodes[b].term :: a == b)
  {
    hide Execute, LegalRun, LedgerInv, BallotInv, Voters, Members;
    RunKeepsInvariants(c, run, appointed);
    var d := Execute(c, run);
    forall a: NodeId, b: NodeId, t: nat | (a, t) in d.won && (b, t) in d.won
      ensures a == b
    {
      QuorumsMeet(d, a, b, t);
    }
  }

  // ---------------------------------------------------------------------
  //  Registry agreement
  // ---------------------------------------------------------------------

  /** Announcements come from winners, and every adopted registry was announced in its term. */
  ghost predicate RegistryInv(c: Cluster) {
    && (forall l: NodeId, t: nat | Result(l, t) in c.sent :: (l, t) in c.won)
    && (forall l: NodeId, m: string, a: string, t: nat | Change(l, m, a, t) in c.sent :: (l, t) in c.won)
    && (forall n | n in c.registryTerm ::
          n in c.nodes && c.nodes[n].registryId.Some? && (c.nodes[n].registryId.value, c.registryTerm[n]) in c.won)
  }

  lemma RegistryStep(c: Cluster, e: Event)
    requires Legal(c, e, true) && RegistryInv(c)
    ensures RegistryInv(Step(c, e))
  {
    var d, eff := Step(c, e), EffectOf(c, e);
    assert eff.outputs != [] && eff.outputs[0].msg.Result? ==> Wins(c, e);
    forall m | m in d.sent && m !in c.sent
      ensures m.Result? ==> (m.leader, m.term) in d.won
      ensures m.Change? ==> (m.registry, m.term) in d.won
    {
      var o :| o in eff.outputs && o.msg == m;
    }
  }

  lemma {:induction false} HonestRunKeepsRegistry(c: Cluster, run: seq<Event>)
    requires RegistryInv(c) && LegalRun(c, run, true) && LegalRun(c, run, false)
    ensures RegistryInv(Execute(c, run))
    decreases |run|
  {
    if run != [] {
      RegistryStep(c, run[0]);
      HonestRunKeepsRegistry(Step(c, run[0]), run[1..]);
    }
  }

  lemma {:induction false} HonestRunIsLegal(c: Cluster, run: seq<Event>)
    requires LegalRun(c, run, true)
    ensures LegalRun(c, run, false)
    decreases |run|
  {
    if run != [] {
      HonestRunIsLegal(Step(c, run[0]), run[1..]);
    }
  }

  /** Runs compose. */
  lemma {:induction false} Chained(c: Cluster, r1: seq<Event>, r2: seq<Event>, honest: bool)
    requires LegalRun(c, r1, honest) && LegalRun(c, r1, false)
    requires LegalRun(Execute(c, r1), r2, honest) && LegalRun(Execute(c, r1), r2, false)
    ensures LegalRun(c, r1 + r2, honest) && LegalRun(c, r1 + r2, false)
    ensures Execute(c, r1 + r2) == Execute(Execute(c, r1), r2)
    decreases |r1|
  {
    hide Step, Legal;
    if r1 == [] {
      assert r1 + r2 == r2;
    } else {
      var run := r1 + r2;
      assert run[0] == r1[0] && run[1..] == r1[1..] + r2;
      Chained(Step(c, r1[0]), r1[1..], r2, honest);
      assert LegalRun(Step(c, r1[0]), run[1..], honest) && LegalRun(Step(c, r1[0]), run[1..], false);
    }
  }

  /**
   * When announcements are only made by winners: two nodes whose registry was adopted
   * (or won) in the same term name the same registry, and a majority voted for it then.
   */
  lemma RegistryAgreement(c: Cluster, run: seq<Event>, appointed: Option<NodeId>, a: NodeId, b: NodeId)
    requires Init(c, appointed) && LegalRun(c, run, true) && LegalRun(c, run, false)
    requires var d := Execute(c, run);
      a in d.registryTerm && b in d.registryTerm && d.registryTerm[a] == d.registryTerm[b]
    ensures var d := Execute(c, run);
      && a in d.nodes && b in d.nodes
      && d.nodes[a].registryId == d.nodes[b].registryId
      && d.nodes[a].registryId.Some?
      && 2 * |Voters(d, d.nodes[a].registryId.value, d.registryTerm[a])| > |Members(d)|
  {
    hide *;
    InitInvariants(c, appointed);
    HonestRunKeepsRegistry(c, run);
    RunKeepsInvariants(c, run, appointed);
    AtMostOneLeaderPerTerm(c, run, appointed);
    AgreedRegistry(Execute(c, run), appointed, a, b);
  }

  lemma InitInvariants(c: Cluster, appointed: Option<NodeId>)
    requires Init(c, appointed)
    ensures RegistryInv(c) && LedgerInv(c) && BallotInv(c) && QuorumInv(c, appointed)
  {
  }

  lemma AgreedRegistry(d: Cluster, appointed: Option<NodeId>, a: NodeId, b: NodeId)
    requires RegistryInv(d) && QuorumInv(d, appointed)
    requires forall x, y, t :: (x, t) in d.won && (y, t) in d.won ==> x == y
    requires a in d.registryTerm && b in d.registryTerm && d.registryTerm[a] == d.registryTerm[b]
    ensures a in d.nodes && b in d.nodes
    ensures d.nodes[a].registryId == d.nodes[b].registryId && d.nodes[a].registryId.Some?
    ensures 2 * |Voters(d, d.nodes[a].registryId.value, d.registryTerm[a])| > |Members(d)|
  {
    hide Voters, Members;
  }
}
