/**
 * Runs of the election manager (src/registry/election.rs): what one manager keeps under
 * arbitrary messages, and what a group of managers with fixed membership guarantees.
 *
 * Unlike the simulated node, stepping down clears the vote even when the term does not
 * rise, so a term can elect two leaders (TwoLeadersInOneTerm).  The terms in which no
 * manager stepped down without a higher term do elect at most one.
 */
module ElectionManagerRuns {
  import opened Wrappers
  import opened Identity
  import opened ElectionMessages
  import opened ElectionManager
  import Counting
  import XorMetric

  // ---------------------------------------------------------------------
  //  One manager
  // ---------------------------------------------------------------------

  datatype Input = Trigger | Incoming(msg: Message)

  function EffectOf(cfg: Config, m: Manager, i: Input): Effect {
    match i
    case Trigger => (match StartElection(cfg, m) case Ok(e) => e case Err(_) => Effect(m, [], Silent))
    case Incoming(msg) => HandleMessage(cfg, m, msg)
  }

  /** The candidate this input makes the manager vote for, if any. */
  function Cast(cfg: Config, m: Manager, i: Input): Option<NodeId> {
    match i
    case Trigger => if m.status == Candidate || cfg.known == [] then None else Some(cfg.id)
    case Incoming(Request(c, t)) =>
      (match HandleRequest(cfg, m, c, t).reply case Answer(Vote(_, _, _, true)) => Some(c) case _ => None)
    case _ => None
  }

  function After(cfg: Config, m: Manager, inputs: seq<Input>): Manager
    decreases |inputs|
  {
    if inputs == [] then m else After(cfg, EffectOf(cfg, m, inputs[0]).mgr, inputs[1..])
  }

  ghost predicate Distinct<T>(s: seq<T>) {
    forall i, j | 0 <= i < j < |s| :: s[i] != s[j]
  }

  ghost predicate ManagerInv(cfg: Config, m: Manager) {
    && (m.status != Follower ==> m.votedFor == Some(cfg.id))
    && (m.status == Follower ==> m.votesReceived == [])
    && Distinct(m.votesReceived)
    && (m.status == Leader ==> 2 * |m.votesReceived| > |cfg.known| + 1)
    && (m.status == Leader ==> m.registryId == Some(cfg.id) && m.serving)
  }

  /** Whatever arrives, forged or not: the state machine's own invariants hold in every run. */
  lemma {:induction false} EveryRunKeepsManagerInv(cfg: Config, m: Manager, inputs: seq<Input>)
    requires ManagerInv(cfg, m)
    ensures ManagerInv(cfg, After(cfg, m, inputs))
    decreases |inputs|
  {
    if inputs != [] {
      EveryRunKeepsManagerInv(cfg, EffectOf(cfg, m, inputs[0]).mgr, inputs[1..]);
    }
  }

  /** The term falls exactly when an election starts with the counter at its largest value. */
  lemma TermFallsOnlyByWrapping(cfg: Config, m: Manager, i: Input)
    requires m.term <= U64_MAX
    ensures EffectOf(cfg, m, i).mgr.term < m.term <==>
      i == Trigger && m.status != Candidate && cfg.known != [] && m.term == U64_MAX
  {
  }

  predicate EqualTermAnnouncement(cfg: Config, m: Manager, i: Input) {
    && i.Incoming?
    && (match i.msg
        case Result(l, t) => l != cfg.id && t == m.term
        case Change(r, _, _, t) => r != cfg.id && t == m.term
        case _ => false)
  }

  /** A cast vote is forgotten within its term exactly on an announcement for that same term. */
  lemma VoteForgottenOnlyByEqualTermAnnouncement(cfg: Config, m: Manager, i: Input)
    requires m.votedFor.Some?
    ensures var n := EffectOf(cfg, m, i).mgr;
      (n.term == m.term && n.votedFor != m.votedFor) <==> EqualTermAnnouncement(cfg, m, i)
  {
  }

  /**
   * A leader that loses office keeps its registry running exactly when it loses it to a
   * higher-term request, to its own new election, or to a sync request in its own name.
   */
  lemma DeposedLeaderStillServing(cfg: Config, m: Manager, i: Input)
    requires ManagerInv(cfg, m) && m.status == Leader
    ensures var n := EffectOf(cfg, m, i).mgr;
      (n.status != Leader && n.serving) <==>
        || (i == Trigger && cfg.known != [])
        || (i.Incoming? && i.msg.Request? && i.msg.term > m.term)
        || (i.Incoming? && i.msg.Sync? && i.msg.term > m.term && i.msg.requester == cfg.id)
  {
  }

  /** Reached in three inputs: elected in term 1, deposed by a request for term 2, still serving. */
  lemma ServesAfterOffice(cfg: Config, voter: NodeId, rival: NodeId)
    requires |cfg.known| == 2 && voter != cfg.id
    ensures var m := After(cfg, INITIAL,
        [Trigger, Incoming(Vote(voter, cfg.id, 1, true)), Incoming(Request(rival, 2))]);
      m.status == Follower && m.term == 2 && m.serving && m.registryId == Some(cfg.id)
  {
    var m1 := EffectOf(cfg, INITIAL, Trigger).mgr;
    var m2 := EffectOf(cfg, m1, Incoming(Vote(voter, cfg.id, 1, true))).mgr;
    var m3 := EffectOf(cfg, m2, Incoming(Request(rival, 2))).mgr;
    var vote, request := Incoming(Vote(voter, cfg.id, 1, true)), Incoming(Request(rival, 2));
    assert [Trigger, vote, request][1..] == [vote, request] && [vote, request][1..] == [request]
      && [request][1..] == [];
    assert m1.votesReceived == [cfg.id] && m2.status == Leader;
    assert After(cfg, INITIAL, [Trigger, vote, request]) == After(cfg, m1, [vote, request]);
    assert After(cfg, m1, [vote, request]) == After(cfg, m2, [request]);
    assert After(cfg, m2, [request]) == After(cfg, m3, []);
  }

  // ---------------------------------------------------------------------
  //  A group of managers
  // ---------------------------------------------------------------------

  /**
   * `mgrs` and `sent` are the system; `sent` holds everything handed to the send callback
   * and every reply.  The rest is history: all votes cast, all victories, the terms in which
   * some manager stepped down without a higher term, and whether a counter ever wrapped.
   */
  datatype Group = Group(
    cfgs: map<NodeId, Config>,
    mgrs: map<NodeId, Manager>,
    sent: set<Message>,
    votes: set<(NodeId, NodeId, nat)>,
    won: set<(NodeId, nat)>,
    relapsed: set<nat>,
    wrapped: bool)

  datatype Event = Event(node: NodeId, input: Input)

  ghost function KnownIds(cfg: Config): set<NodeId> { set k | k in cfg.known :: k.id }

  /** Each manager knows every other member; it may or may not list itself. */
  ghost predicate FixedMembership(g: Group) {
    && g.cfgs.Keys == g.mgrs.Keys
    && forall n | n in g.cfgs ::
         && g.cfgs[n].id == n
         && KnownIds(g.cfgs[n]) + {n} == g.mgrs.Keys
  }

  ghost predicate Init(g: Group) {
    && FixedMembership(g)
    && (forall n | n in g.mgrs :: g.mgrs[n] == INITIAL)
    && g.sent == {} && g.votes == {} && g.won == {} && g.relapsed == {} && !g.wrapped
  }

  /** Only a granted vote has to be real; everything else may be invented. */
  predicate Legal(g: Group, e: Event) {
    && e.node in g.mgrs && e.node in g.cfgs
    && (e.input.Incoming? && e.input.msg.Vote? && e.input.msg.granted ==> e.input.msg in g.sent)
  }

  function Step(g: Group, e: Event): Group
    requires Legal(g, e)
  {
    var n, cfg, m := e.node, g.cfgs[e.node], g.mgrs[e.node];
    var eff, cast := EffectOf(cfg, m, e.input), Cast(cfg, m, e.input);
    g.(mgrs := g.mgrs[n := eff.mgr],
       sent := g.sent + (set o | o in eff.outputs :: o.1) + (if eff.reply.Answer? then {eff.reply.msg} else {}),
       votes := if cast.Some? then g.votes + {(n, cast.value, eff.mgr.term)} else g.votes,
       won := if eff.mgr.status == Leader && m.status != Leader then g.won + {(n, eff.mgr.term)} else g.won,
       relapsed := if EqualTermAnnouncement(cfg, m, e.input) then g.relapsed + {m.term} else g.relapsed,
       wrapped := g.wrapped || eff.mgr.term < m.term)
  }

  predicate LegalRun(g: Group, run: seq<Event>)
    decreases |run|
  {
    run == [] || (Legal(g, run[0]) && LegalRun(Step(g, run[0]), run[1..]))
  }

  /** Every message handled was really sent before, not only the granted votes. */
  predicate GenuineRun(g: Group, run: seq<Event>)
    requires LegalRun(g, run)
    decreases |run|
  {
    run == [] ||
    ((run[0].input.Incoming? ==> run[0].input.msg in g.sent) && GenuineRun(Step(g, run[0]), run[1..]))
  }

  function Execute(g: Group, run: seq<Event>): Group
    requires LegalRun(g, run)
    decreases |run|
  {
    if run == [] then g else Execute(Step(g, run[0]), run[1..])
  }

  ghost function Voters(g: Group, candidate: NodeId, term: nat): set<NodeId> {
    set v | v in g.mgrs && (v, candidate, term) in g.votes
  }

  ghost predicate SentAreCast(g: Group) {
    forall v: NodeId, x: NodeId, t: nat | Vote(v, x, t, true) in g.sent :: (v, x, t) in g.votes
  }

  /** Votes lie in the past; a vote of the current, unrelapsed term is remembered. */
  ghost predicate Remembered(g: Group) {
    forall v, x, t | (v, x, t) in g.votes ::
      && v in g.mgrs
      && t <= g.mgrs[v].term
      && (t == g.mgrs[v].term && t !in g.relapsed ==> g.mgrs[v].votedFor == Some(x))
  }

  ghost predicate OnePerTerm(g: Group) {
    forall v, x, y, t | (v, x, t) in g.votes && (v, y, t) in g.votes && t !in g.relapsed :: x == y
  }

  ghost predicate LedgerInv(g: Group) {
    FixedMembership(g) && SentAreCast(g) && (!g.wrapped ==> Remembered(g) && OnePerTerm(g))
  }

  /** A candidate's and a leader's ballots are real votes of its term. */
  ghost predicate BallotInv(g: Group) {
    forall n | n in g.mgrs && n in g.cfgs ::
      && ManagerInv(g.cfgs[n], g.mgrs[n])
      && (forall v | v in g.mgrs[n].votesReceived :: (v, n, g.mgrs[n].term) in g.votes)
  }

  /** What one event does to the vote of its node. */
  ghost predicate VoteMove(before: Manager, after: Manager, cast: Option<NodeId>, relapsed: set<nat>) {
    && before.term <= after.term
    && (match cast
        case Some(x) => after.votedFor == Some(x) && (before.term < after.term || before.votedFor == None)
        case None => before.term < after.term || after.votedFor == before.votedFor || before.term in relapsed)
  }

  lemma InputMovesVote(cfg: Config, m: Manager, i: Input)
    requires EffectOf(cfg, m, i).mgr.term >= m.term
    ensures VoteMove(m, EffectOf(cfg, m, i).mgr, Cast(cfg, m, i),
                     if EqualTermAnnouncement(cfg, m, i) then {m.term} else {})
  {
  }

  /** Broadcasts never carry votes; a granting reply names the vote the manager just cast. */
  lemma OutputsCarryNoVotes(cfg: Config, m: Manager, i: Input)
    ensures forall o | o in EffectOf(cfg, m, i).outputs :: !o.1.Vote?
  {
    forall msg: Message, o | o in ToKnown(cfg.known, msg)
      ensures o.1 == msg
    {
    }
  }

  lemma GrantingReplyIsCast(cfg: Config, m: Manager, i: Input)
    ensures var eff := EffectOf(cfg, m, i);
      eff.reply.Answer? ==>
        eff.reply.msg.Vote? &&
        (eff.reply.msg.granted ==>
          eff.reply.msg.voter == cfg.id && Cast(cfg, m, i) == Some(eff.reply.msg.candidate)
          && eff.reply.msg.term == eff.mgr.term)
  {
  }

  /** Ballots stay real votes of the manager's term. */
  lemma BallotsMove(cfg: Config, m: Manager, i: Input, votes: set<(NodeId, NodeId, nat)>)
    requires ManagerInv(cfg, m)
    requires forall v | v in m.votesReceived :: (v, cfg.id, m.term) in votes
    requires i.Incoming? && i.msg.Vote? && i.msg.granted ==> (i.msg.voter, i.msg.candidate, i.msg.term) in votes
    ensures var n := EffectOf(cfg, m, i).mgr;
      forall v | v in n.votesReceived ::
        (v, cfg.id, n.term) in votes || (Cast(cfg, m, i) == Some(cfg.id) && v == cfg.id)
  {
  }

  lemma GrantsAreCast(g: Group, e: Event)
    requires Legal(g, e) && g.cfgs[e.node].id == e.node && SentAreCast(g)
    ensures SentAreCast(Step(g, e))
  {
    var cfg, m := g.cfgs[e.node], g.mgrs[e.node];
    var d, eff := Step(g, e), EffectOf(cfg, m, e.input);
    OutputsCarryNoVotes(cfg, m, e.input);
    GrantingReplyIsCast(cfg, m, e.input);
    SentMove(g, d, eff, Cast(cfg, m, e.input), e.node);
  }

  lemma SentMove(g: Group, d: Group, eff: Effect, cast: Option<NodeId>, n: NodeId)
    requires SentAreCast(g) && forall o | o in eff.outputs :: !o.1.Vote?
    requires eff.reply.Answer? && eff.reply.msg.Vote? && eff.reply.msg.granted ==>
      eff.reply.msg.voter == n && cast == Some(eff.reply.msg.candidate) && eff.reply.msg.term == eff.mgr.term
    requires d.sent == g.sent + (set o | o in eff.outputs :: o.1) + (if eff.reply.Answer? then {eff.reply.msg} else {})
    requires d.votes == if cast.Some? then g.votes + {(n, cast.value, eff.mgr.term)} else g.votes
    ensures SentAreCast(d)
  {
  }

  /** One changed manager, at most one new vote: the ledger survives. */
  lemma LedgerMove(g: Group, d: Group, n: NodeId, cast: Option<NodeId>)
    requires Remembered(g) && OnePerTerm(g)
    requires n in g.mgrs && n in d.mgrs && d.mgrs == g.mgrs[n := d.mgrs[n]] && g.relapsed <= d.relapsed
    requires d.votes == if cast.Some? then g.votes + {(n, cast.value, d.mgrs[n].term)} else g.votes
    requires VoteMove(g.mgrs[n], d.mgrs[n], cast, d.relapsed)
    ensures Remembered(d) && OnePerTerm(d)
  {
  }

  lemma LedgerStep(g: Group, e: Event)
    requires Legal(g, e) && LedgerInv(g)
    ensures LedgerInv(Step(g, e))
  {
    GrantsAreCast(g, e);
    var cfg, m, d := g.cfgs[e.node], g.mgrs[e.node], Step(g, e);
    if !d.wrapped {
      InputMovesVote(cfg, m, e.input);
      LedgerMove(g, d, e.node, Cast(cfg, m, e.input));
    }
  }

  lemma BallotStep(g: Group, e: Event)
    requires Legal(g, e) && g.cfgs[e.node].id == e.node && SentAreCast(g) && BallotInv(g)
    ensures BallotInv(Step(g, e))
  {
    var cfg, m, d := g.cfgs[e.node], g.mgrs[e.node], Step(g, e);
    EveryRunKeepsManagerInv(cfg, m, [e.input]);
    assert After(cfg, m, [e.input]) == d.mgrs[e.node];
    BallotsMove(cfg, m, e.input, g.votes);
    assert d.mgrs == g.mgrs[e.node := d.mgrs[e.node]] && g.votes <= d.votes;
  }

  // ---------------------------------------------------------------------
  //  Quorums
  // ---------------------------------------------------------------------

  ghost predicate QuorumInv(g: Group) {
    && (forall n, t | (n, t) in g.won :: 2 * |Voters(g, n, t)| > |g.mgrs.Keys|)
    && (forall n | n in g.mgrs && g.mgrs[n].status == Leader :: (n, g.mgrs[n].term) in g.won)
  }

  lemma {:induction false} KnownBound(known: seq<KnownNode>)
    ensures |set k | k in known :: k.id| <= |known|
  {
    if known != [] {
      KnownBound(known[1..]);
      var rest := set k | k in known[1..] :: k.id;
      assert known == [known[0]] + known[1..];
      assert (set k | k in known :: k.id) == {known[0].id} + rest;
    }
  }

  /** More than half of known + 1 ballots is more than half of the members. */
  lemma BallotsAreMajority(g: Group, n: NodeId)
    requires FixedMembership(g) && n in g.mgrs && BallotInv(g) && Remembered(g)
    requires 2 * |g.mgrs[n].votesReceived| > |g.cfgs[n].known| + 1
    ensures 2 * |Voters(g, n, g.mgrs[n].term)| > |g.mgrs.Keys|
  {
    KnownBound(g.cfgs[n].known);
    Counting.DistinctCount(g.mgrs[n].votesReceived, Voters(g, n, g.mgrs[n].term));
    assert |KnownIds(g.cfgs[n]) + {n}| <= |KnownIds(g.cfgs[n])| + 1;
  }

  lemma QuorumStep(g: Group, e: Event)
    requires Legal(g, e) && LedgerInv(g) && BallotInv(g) && QuorumInv(g) && !Step(g, e).wrapped
    ensures QuorumInv(Step(g, e))
  {
    var d := Step(g, e);
    LedgerStep(g, e);
    BallotStep(g, e);
    assert g.mgrs.Keys == d.mgrs.Keys && g.votes <= d.votes;
    forall n, t | (n, t) in d.won
      ensures 2 * |Voters(d, n, t)| > |d.mgrs.Keys|
    {
      if (n, t) in g.won {
        Counting.SubsetCount(Voters(g, n, t), Voters(d, n, t));
      } else {
        BallotsAreMajority(d, n);
      }
    }
    LeadersAreWinners(g, e);
  }

  lemma LeadersAreWinners(g: Group, e: Event)
    requires Legal(g, e) && QuorumInv(g)
    ensures forall n | n in Step(g, e).mgrs && Step(g, e).mgrs[n].status == Leader ::
      (n, Step(g, e).mgrs[n].term) in Step(g, e).won
  {
    var cfg, m := g.cfgs[e.node], g.mgrs[e.node];
    LeadersKeepTerm(cfg, m, e.input);
  }

  /** A manager that stays leader stays in its term. */
  lemma LeadersKeepTerm(cfg: Config, m: Manager, i: Input)
    ensures m.status == Leader && EffectOf(cfg, m, i).mgr.status == Leader ==> EffectOf(cfg, m, i).mgr.term == m.term
  {
  }

  lemma {:induction false} RunKeepsInvariants(g: Group, run: seq<Event>)
    requires LegalRun(g, run)
    requires LedgerInv(g) && BallotInv(g) && (!g.wrapped ==> QuorumInv(g))
    ensures var d := Execute(g, run);
      LedgerInv(d) && BallotInv(d) && (!d.wrapped ==> QuorumInv(d)) && (g.wrapped ==> d.wrapped)
    decreases |run|
  {
    if run != [] {
      var h := Step(g, run[0]);
      LedgerStep(g, run[0]);
      BallotStep(g, run[0]);
      if !h.wrapped {
        QuorumStep(g, run[0]);
      }
      RunKeepsInvariants(h, run[1..]);
    }
  }

  /** In every run a leader holds distinct, really cast votes from more than half of known + 1. */
  lemma LeaderHoldsGenuineMajority(g: Group, run: seq<Event>, n: NodeId)
    requires Init(g) && LegalRun(g, run)
    requires n in Execute(g, run).mgrs && Execute(g, run).mgrs[n].status == Leader
    ensures var d := Execute(g, run);
      && n in d.cfgs
      && Distinct(d.mgrs[n].votesReceived)
      && 2 * |d.mgrs[n].votesReceived| > |d.cfgs[n].known| + 1
      && (forall v | v in d.mgrs[n].votesReceived :: (v, n, d.mgrs[n].term) in d.votes)
  {
    RunKeepsInvariants(g, run);
  }

  /**
   * With no counter wrapped, a term in which no manager stepped down without a higher
   * term elects at most one leader.
   */
  lemma AtMostOneLeaderPerCleanTerm(g: Group, run: seq<Event>, a: NodeId, b: NodeId, t: nat)
    requires Init(g) && LegalRun(g, run)
    requires var d := Execute(g, run);
      !d.wrapped && t !in d.relapsed && (a, t) in d.won && (b, t) in d.won
    ensures a == b
  {
    RunKeepsInvariants(g, run);
    var d := Execute(g, run);
    Counting.MajoritiesMeet(Voters(d, a, t), Voters(d, b, t), d.mgrs.Keys);
    var v :| v in Voters(d, a, t) * Voters(d, b, t);
  }

  // ---------------------------------------------------------------------
  //  Where the guarantee ends
  // ---------------------------------------------------------------------

  type CandidateHash = (NodeId, nat) -> nat

  function Member(hash: CandidateHash, id: NodeId, x: NodeId, y: NodeId): Config {
    Config(id, "", [KnownNode(x, "", ""), KnownNode(y, "", "")], hash)
  }

  function Trio(hash: CandidateHash, a: NodeId, b: NodeId, c: NodeId): Group {
    Group(
      map[a := Member(hash, a, b, c), b := Member(hash, b, a, c), c := Member(hash, c, a, b)],
      map[a := INITIAL, b := INITIAL, c := INITIAL], {}, {}, {}, {}, false)
  }

  /** The candidate asks, one voter grants, the grant arrives. */
  function Campaign(candidate: NodeId, voter: NodeId): seq<Event> {
    [Event(candidate, Trigger),
     Event(voter, Incoming(Request(candidate, 1))),
     Event(candidate, Incoming(Vote(voter, candidate, 1, true)))]
  }

  /** a wins term 1, b adopts a's announcement and thereby forgets its vote, c wins term 1. */
  function Split(a: NodeId, b: NodeId, c: NodeId): seq<Event> {
    Campaign(a, b) + [Event(b, Incoming(Message.Result(a, 1)))] + Campaign(c, b)
  }

  lemma TrioIsInitial(hash: CandidateHash, a: NodeId, b: NodeId, c: NodeId)
    requires a != b && b != c && a != c
    ensures Init(Trio(hash, a, b, c))
  {
    hide KnownIds, Member;
    MemberKnows(hash, a, b, c);
    MemberKnows(hash, b, a, c);
    MemberKnows(hash, c, a, b);
    var g := Trio(hash, a, b, c);
    assert g.mgrs.Keys == {a, b, c};
  }

  lemma MemberKnows(hash: CandidateHash, id: NodeId, x: NodeId, y: NodeId)
    ensures KnownIds(Member(hash, id, x, y)) == {x, y} && Member(hash, id, x, y).id == id
  {
    var k := Member(hash, id, x, y).known;
    assert k[0] in k && k[1] in k;
    assert forall n | n in k :: n == k[0] || n == k[1];
  }

  /** A candidate elected by one further vote in a group of three. */
  lemma WinsWithOneVote(hash: CandidateHash, id: NodeId, x: NodeId, y: NodeId, voter: NodeId)
    requires id != voter
    ensures var cfg := Member(hash, id, x, y);
      var m := EffectOf(cfg, INITIAL, Trigger).mgr;
      var n := EffectOf(cfg, m, Incoming(Vote(voter, id, 1, true))).mgr;
      m.status == Candidate && m.term == 1 && n.status == Leader && n.term == 1
  {
  }

  /** Its request and its result go out. */
  lemma CampaignIsAnnounced(hash: CandidateHash, id: NodeId, x: NodeId, y: NodeId, voter: NodeId)
    requires id != voter
    ensures var cfg := Member(hash, id, x, y);
      var e1 := EffectOf(cfg, INITIAL, Trigger);
      var e3 := EffectOf(cfg, e1.mgr, Incoming(Vote(voter, id, 1, true)));
      && ("", Request(id, 1)) in e1.outputs && ("", Message.Result(id, 1)) in e3.outputs
  {
    var cfg := Member(hash, id, x, y);
    var e1 := EffectOf(cfg, INITIAL, Trigger);
    var e3 := EffectOf(cfg, e1.mgr, Incoming(Vote(voter, id, 1, true)));
    assert e1.outputs[0] == ("", Request(id, 1));
    assert e3.outputs[0] == ("", Message.Result(id, 1));
  }

  /** Voting, adopting the winner's announcement and voting again in one term: the hash alone decides. */
  lemma VotesTwice(hash: CandidateHash, b: NodeId, first: NodeId, second: NodeId, x: NodeId, y: NodeId)
    requires first != b && second != b
    ensures var cfg := Member(hash, b, x, y);
      var e1 := EffectOf(cfg, INITIAL, Incoming(Request(first, 1)));
      var e2 := EffectOf(cfg, e1.mgr, Incoming(Message.Result(first, 1)));
      var e3 := EffectOf(cfg, e2.mgr, Incoming(Request(second, 1)));
      && (e1.reply == Answer(Vote(b, first, 1, true)) <==> hash(first, 1) > LocalValue(b))
      && (e3.reply == Answer(Vote(b, second, 1, true)) <==> hash(second, 1) > LocalValue(b))
  {
  }

  /** One event, seen from outside: one manager moves, its reply is sent, a new leader is recorded. */
  ghost predicate Moves(g: Group, e: Event, eff: Effect, d: Group) {
    && d.cfgs == g.cfgs && e.node in g.mgrs && d.mgrs == g.mgrs[e.node := eff.mgr]
    && g.sent <= d.sent && g.won <= d.won
    && (forall o | o in eff.outputs :: o.1 in d.sent)
    && (eff.reply.Answer? ==> eff.reply.msg in d.sent)
    && (eff.mgr.status == Leader && g.mgrs[e.node].status != Leader ==> (e.node, eff.mgr.term) in d.won)
  }

  lemma StepMoves(g: Group, e: Event)
    requires Legal(g, e)
    ensures Moves(g, e, EffectOf(g.cfgs[e.node], g.mgrs[e.node], e.input), Step(g, e))
  {
  }

  /** What three such events add up to, whatever the handlers do. */
  lemma CampaignMoves(g: Group, g1: Group, g2: Group, g3: Group, id: NodeId, voter: NodeId,
                      e1: Effect, e2: Effect, e3: Effect, run: seq<Event>)
    requires |run| == 3 && run[0].node == id != voter == run[1].node && run[2].node == id && voter in g.mgrs
    requires Moves(g, run[0], e1, g1) && Moves(g1, run[1], e2, g2) && Moves(g2, run[2], e3, g3)
    requires e1.mgr.status != Leader && e3.mgr.status == Leader && e3.mgr.term == 1
    ensures (id, 1) in g3.won && g.won <= g3.won && g3.cfgs == g.cfgs && g3.mgrs.Keys == g.mgrs.Keys
    ensures g3.mgrs[voter] == e2.mgr && forall n | n in g.mgrs && n != id && n != voter :: g3.mgrs[n] == g.mgrs[n]
  {
  }

  lemma CampaignSucceeds(hash: CandidateHash, g: Group, id: NodeId, voter: NodeId, x: NodeId, y: NodeId)
    requires id != voter && {id, voter} <= g.mgrs.Keys && g.cfgs.Keys == g.mgrs.Keys
    requires g.cfgs[id] == Member(hash, id, x, y) && g.mgrs[id] == INITIAL
    requires EffectOf(g.cfgs[voter], g.mgrs[voter], Incoming(Request(id, 1))).reply == Answer(Vote(voter, id, 1, true))
    ensures LegalRun(g, Campaign(id, voter)) && GenuineRun(g, Campaign(id, voter))
    ensures Message.Result(id, 1) in Execute(g, Campaign(id, voter)).sent
    ensures var d := Execute(g, Campaign(id, voter));
      && (id, 1) in d.won && g.won <= d.won && d.cfgs == g.cfgs && d.mgrs.Keys == g.mgrs.Keys
      && d.mgrs[voter] == EffectOf(g.cfgs[voter], g.mgrs[voter], Incoming(Request(id, 1))).mgr
      && forall n | n in g.mgrs && n != id && n != voter :: d.mgrs[n] == g.mgrs[n]
  {
    var run, cfg := Campaign(id, voter), Member(hash, id, x, y);
    WinsWithOneVote(hash, id, x, y, voter);
    var e1 := EffectOf(cfg, INITIAL, Trigger);
    var e2 := EffectOf(g.cfgs[voter], g.mgrs[voter], run[1].input);
    var e3 := EffectOf(cfg, e1.mgr, run[2].input);
    var g1, g2, g3 := CampaignStates(g, id, voter, run, e1, e2, e3);
    CampaignMoves(g, g1, g2, g3, id, voter, e1, e2, e3, run);
    CampaignIsAnnounced(hash, id, x, y, voter);
    assert ("", Request(id, 1)).1 in g1.sent && ("", Message.Result(id, 1)).1 in g3.sent;
    Unroll([g, g1, g2, g3], run);
  }

  lemma CampaignStates(g: Group, id: NodeId, voter: NodeId, run: seq<Event>, e1: Effect, e2: Effect, e3: Effect)
    returns (g1: Group, g2: Group, g3: Group)
    requires run == Campaign(id, voter) && id != voter && {id, voter} <= g.mgrs.Keys && g.cfgs.Keys == g.mgrs.Keys
    requires e1 == EffectOf(g.cfgs[id], g.mgrs[id], run[0].input)
    requires e2 == EffectOf(g.cfgs[voter], g.mgrs[voter], run[1].input) && e2.reply == Answer(run[2].input.msg)
    requires e3 == EffectOf(g.cfgs[id], e1.mgr, run[2].input)
    ensures Legal(g, run[0]) && g1 == Step(g, run[0]) && Moves(g, run[0], e1, g1)
    ensures Legal(g1, run[1]) && g2 == Step(g1, run[1]) && Moves(g1, run[1], e2, g2)
    ensures Legal(g2, run[2]) && g3 == Step(g2, run[2]) && Moves(g2, run[2], e3, g3)
  {
    StepMoves(g, run[0]);
    g1 := Step(g, run[0]);
    StepMoves(g1, run[1]);
    g2 := Step(g1, run[1]);
    StepMoves(g2, run[2]);
    g3 := Step(g2, run[2]);
  }

  /** The first campaign and its announcement; c's campaign finds b free to vote again. */
  lemma FirstHalf(hash: CandidateHash, a: NodeId, b: NodeId, c: NodeId) returns (g1: Group, g2: Group)
    requires a != b && b != c && a != c && hash(a, 1) > LocalValue(b) && hash(c, 1) > LocalValue(b)
    ensures var g0, announced := Trio(hash, a, b, c), Event(b, Incoming(Message.Result(a, 1)));
      && LegalRun(g0, Campaign(a, b)) && GenuineRun(g0, Campaign(a, b)) && g1 == Execute(g0, Campaign(a, b))
      && LegalRun(g1, [announced]) && GenuineRun(g1, [announced]) && g2 == Execute(g1, [announced])
      && (a, 1) in g2.won && g2.cfgs == g0.cfgs && g2.mgrs.Keys == {a, b, c} && g2.mgrs[c] == INITIAL
      && EffectOf(g2.cfgs[b], g2.mgrs[b], Incoming(Request(c, 1))).reply == Answer(Vote(b, c, 1, true))
  {
    hide EffectOf, Step;
    var g0 := Trio(hash, a, b, c);
    VotesTwice(hash, b, a, c, a, c);
    CampaignSucceeds(hash, g0, a, b, b, c);
    g1 := Execute(g0, Campaign(a, b));
    var announced := Event(b, Incoming(Message.Result(a, 1)));
    StepMoves(g1, announced);
    g2 := Step(g1, announced);
    Unroll([g1, g2], [announced]);
  }

  /** Two leaders in term 1, with no invented message at all, whenever b prefers both candidates by hash. */
  lemma SplitElectsTwo(hash: CandidateHash, a: NodeId, b: NodeId, c: NodeId)
    requires a != b && b != c && a != c && hash(a, 1) > LocalValue(b) && hash(c, 1) > LocalValue(b)
    ensures LegalRun(Trio(hash, a, b, c), Split(a, b, c)) && GenuineRun(Trio(hash, a, b, c), Split(a, b, c))
    ensures var d := Execute(Trio(hash, a, b, c), Split(a, b, c));
      (a, 1) in d.won && (c, 1) in d.won
  {
    hide EffectOf, Step, Legal, LegalRun, Execute, GenuineRun;
    var g0, announced := Trio(hash, a, b, c), Event(b, Incoming(Message.Result(a, 1)));
    var g1, g2 := FirstHalf(hash, a, b, c);
    CampaignSucceeds(hash, g2, c, b, a, b);
    Concatenated(g0, Campaign(a, b), [announced]);
    Concatenated(g0, Campaign(a, b) + [announced], Campaign(c, b));
  }

  lemma {:induction false} Concatenated(g: Group, r1: seq<Event>, r2: seq<Event>)
    requires LegalRun(g, r1) && LegalRun(Execute(g, r1), r2)
    ensures LegalRun(g, r1 + r2) && Execute(g, r1 + r2) == Execute(Execute(g, r1), r2)
    ensures GenuineRun(g, r1) && GenuineRun(Execute(g, r1), r2) ==> GenuineRun(g, r1 + r2)
    decreases |r1|
  {
    hide Step, Legal;
    if r1 == [] {
      assert r1 + r2 == r2;
    } else {
      var run, h := r1 + r2, Step(g, r1[0]);
      assert run[0] == r1[0] && run[1..] == r1[1..] + r2;
      Concatenated(h, r1[1..], r2);
      assert LegalRun(h, run[1..]) && Execute(h, run[1..]) == Execute(Execute(h, r1[1..]), r2);
    }
  }

  lemma {:induction false} Unroll(states: seq<Group>, run: seq<Event>)
    requires |states| == |run| + 1
    requires forall i | 0 <= i < |run| :: Legal(states[i], run[i]) && states[i + 1] == Step(states[i], run[i])
    ensures LegalRun(states[0], run) && Execute(states[0], run) == states[|run|]
    ensures (forall i | 0 <= i < |run| :: run[i].input.Incoming? ==> run[i].input.msg in states[i].sent) ==>
      GenuineRun(states[0], run)
  {
    hide Step, Legal;
    if run != [] {
      Unroll(states[1..], run[1..]);
    }
  }

  function Id(b: byte): NodeId { ZERO_ID[ID_LENGTH - 1 := b] }

  /**
   * At most one leader per term is false of the manager: ids 1, 2 and 3, all at their initial
   * state, under any hash that is not zero for the two candidates.
   */
  lemma TwoLeadersInOneTerm(hash: CandidateHash)
    requires hash(Id(1), 1) > 0 && hash(Id(3), 1) > 0
    ensures var g := Trio(hash, Id(1), Id(2), Id(3));
      && Init(g)
      && exists run, x, y ::
           && LegalRun(g, run) && GenuineRun(g, run) && x != y
           && (x, 1) in Execute(g, run).won && (y, 1) in Execute(g, run).won
  {
    var a, b, c := Id(1), Id(2), Id(3);
    assert a[31] == 1 && b[31] == 2 && c[31] == 3;
    assert b[..8] == [0, 0, 0, 0, 0, 0, 0, 0];
    XorMetric.ZeroNumber(b[..8]);
    TrioIsInitial(hash, a, b, c);
    SplitElectsTwo(hash, a, b, c);
  }
}
