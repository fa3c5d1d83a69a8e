/** When the simulated election does elect somebody (src/bin/verify_election.rs). */
module ElectionProgress {
  import opened Identity
  import opened ElectionMessages
  import opened ElectionSafety
  import Counting

  ghost predicate Distinct(s: seq<NodeId>) { forall i, j | 0 <= i < j < |s| :: s[i] != s[j] }

  /** Voter after voter receives the candidate's request. */
  function Requests(n: NodeId, from: string, t: nat, voters: seq<NodeId>): seq<Event> {
    if voters == [] then []
    else [Deliver(voters[0], from, Request(n, t))] + Requests(n, from, t, voters[1..])
  }

  /** Vote after vote arrives at the candidate. */
  function Votes(n: NodeId, t: nat, voters: seq<NodeId>): seq<Event> {
    if voters == [] then []
    else [Deliver(n, "", Vote(voters[0], n, t, true))] + Votes(n, t, voters[1..])
  }

  /** The candidate starts, its request reaches the voters, their votes reach it. */
  function Campaign(c: Cluster, n: NodeId, voters: seq<NodeId>): seq<Event>
    requires n in c.nodes && n in c.addrs
  {
    var t := c.nodes[n].term + 1;
    [Start(n)] + (Requests(n, c.addrs[n].1, t, voters) + Votes(n, t, voters))
  }

  /** Nothing is delivered in the run that was not sent before. */
  ghost predicate Carried(c: Cluster, run: seq<Event>)
    requires LegalRun(c, run, false)
    decreases |run|
  {
    run == [] || ((run[0].Deliver? ==> run[0].msg in c.sent) && Carried(Step(c, run[0]), run[1..]))
  }

  lemma {:induction false} CarriedOn(c: Cluster, r1: seq<Event>, r2: seq<Event>)
    requires LegalRun(c, r1, false) && LegalRun(Execute(c, r1), r2, false)
    requires Carried(c, r1) && Carried(Execute(c, r1), r2)
    ensures LegalRun(c, r1 + r2, false) && Carried(c, r1 + r2)
    decreases |r1|
  {
    hide Step, Legal;
    if r1 == [] {
      assert r1 + r2 == r2;
    } else {
      var run := r1 + r2;
      assert run[0] == r1[0] && run[1..] == r1[1..] + r2;
      CarriedOn(Step(c, r1[0]), r1[1..], r2);
    }
  }

  /** What an observer needs of one step: one node moves, messages are only added. */
  ghost predicate Moves(c: Cluster, e: Event, d: Cluster) {
    && d.addrs == c.addrs && d.nodes.Keys == c.nodes.Keys && c.sent <= d.sent
    && forall m | m in c.nodes && m != e.node :: d.nodes[m] == c.nodes[m]
  }

  lemma RequestIsGranted(c: Cluster, n: NodeId, from: string, t: nat, v: NodeId)
    requires v in c.nodes && v in c.addrs && v != n && c.nodes[v].term < t
    ensures var e := Deliver(v, from, Request(n, t));
      && Legal(c, e, true) && Legal(c, e, false) && Moves(c, e, Step(c, e))
      && Vote(v, n, t, true) in Step(c, e).sent
  {
    var e := Deliver(v, from, Request(n, t));
    var out := EffectOf(c, e).outputs[0];
    assert out in EffectOf(c, e).outputs && out.msg == Vote(v, n, t, true);
  }

  /** Every voter behind the term grants. */
  lemma {:induction false} AllGrant(c: Cluster, n: NodeId, from: string, t: nat, voters: seq<NodeId>)
    requires c.addrs.Keys == c.nodes.Keys && n in c.nodes && n !in voters && Distinct(voters)
    requires forall v | v in voters :: v in c.nodes && c.nodes[v].term < t
    requires Request(n, t) in c.sent
    ensures var run := Requests(n, from, t, voters);
      && LegalRun(c, run, true) && LegalRun(c, run, false) && Carried(c, run)
      && var d := Execute(c, run);
      && d.addrs == c.addrs && d.nodes.Keys == c.nodes.Keys && c.sent <= d.sent && d.nodes[n] == c.nodes[n]
      && forall v | v in voters :: Vote(v, n, t, true) in d.sent
    decreases |voters|
  {
    hide Step, Legal;
    if voters != [] {
      var run := Requests(n, from, t, voters);
      RequestIsGranted(c, n, from, t, voters[0]);
      var d := Step(c, run[0]);
      assert voters == [voters[0]] + voters[1..];
      AllGrant(d, n, from, t, voters[1..]);
      assert run[1..] == Requests(n, from, t, voters[1..]);
    }
  }

  /** Counting goes on, or the count has been won. */
  ghost predicate Counted(c: Cluster, n: NodeId, t: nat, voters: seq<NodeId>) {
    && n in c.nodes && n in c.addrs && c.nodes[n].term == t
    && (c.nodes[n].status == Leader ||
        (c.nodes[n].status == Candidate
         && 2 * |c.nodes[n].votesReceived| <= |c.nodes|
         && 2 * (|c.nodes[n].votesReceived| + |voters|) > |c.nodes|
         && forall v | v in voters :: v !in c.nodes[n].votesReceived))
  }

  lemma VoteCounts(c: Cluster, n: NodeId, t: nat, voters: seq<NodeId>)
    requires Counted(c, n, t, voters) && voters != [] && Distinct(voters)
    requires Vote(voters[0], n, t, true) in c.sent
    ensures var e := Deliver(n, "", Vote(voters[0], n, t, true));
      && Legal(c, e, true) && Legal(c, e, false) && c.sent <= Step(c, e).sent
      && Counted(Step(c, e), n, t, voters[1..])
  {
    var e := Deliver(n, "", Vote(voters[0], n, t, true));
    assert |c.nodes| == |Members(c)|;
    assert Step(c, e).nodes.Keys == c.nodes.Keys;
    assert |Step(c, e).nodes| == |Step(c, e).nodes.Keys|;
  }

  lemma {:induction false} AllCount(c: Cluster, n: NodeId, t: nat, voters: seq<NodeId>)
    requires Counted(c, n, t, voters) && Distinct(voters)
    requires forall v | v in voters :: Vote(v, n, t, true) in c.sent
    ensures LegalRun(c, Votes(n, t, voters), true) && LegalRun(c, Votes(n, t, voters), false)
    ensures Carried(c, Votes(n, t, voters))
    ensures Counted(Execute(c, Votes(n, t, voters)), n, t, [])
    decreases |voters|
  {
    hide Step, Legal, Counted;
    if voters != [] {
      var run := Votes(n, t, voters);
      VoteCounts(c, n, t, voters);
      assert run[1..] == Votes(n, t, voters[1..]);
      AllCount(Step(c, run[0]), n, t, voters[1..]);
    }
  }

  lemma StartCounts(c: Cluster, n: NodeId, voters: seq<NodeId>)
    requires c.addrs.Keys == c.nodes.Keys && n in c.nodes && c.nodes[n].term < U64_MAX && n !in voters
    requires 2 <= |c.nodes| < 2 * (|voters| + 1)
    ensures Legal(c, Start(n), true) && Legal(c, Start(n), false) && Moves(c, Start(n), Step(c, Start(n)))
    ensures Counted(Step(c, Start(n)), n, c.nodes[n].term + 1, voters)
    ensures Request(n, c.nodes[n].term + 1) in Step(c, Start(n)).sent
  {
    var d, eff := Step(c, Start(n)), EffectOf(c, Start(n));
    assert eff.outputs[0] in eff.outputs && eff.outputs[0].msg == Request(n, c.nodes[n].term + 1);
    assert d.nodes.Keys == c.nodes.Keys && |d.nodes| == |d.nodes.Keys| && |c.nodes| == |c.nodes.Keys|;
  }

  /**
   * In any cluster of two or more, a node whose request reaches, and whose votes come back
   * from, a majority not ahead of its term (itself included) becomes Leader of the next term.
   * Every request and vote of that campaign was sent before it is delivered.
   */
  lemma MajorityElects(c: Cluster, n: NodeId, voters: seq<NodeId>)
    requires c.addrs.Keys == c.nodes.Keys && n in c.nodes && c.nodes[n].term < U64_MAX
    requires Distinct(voters) && n !in voters
    requires forall v | v in voters :: v in c.nodes && c.nodes[v].term <= c.nodes[n].term
    requires 2 <= |c.nodes| < 2 * (|voters| + 1)
    ensures var run := Campaign(c, n, voters);
      && LegalRun(c, run, true) && LegalRun(c, run, false) && Carried(c, run)
      && n in Execute(c, run).nodes
      && Execute(c, run).nodes[n].status == Leader
      && Execute(c, run).nodes[n].term == c.nodes[n].term + 1
  {
    hide Step, Legal;
    var t, from := c.nodes[n].term + 1, c.addrs[n].1;
    var asked, votes := Requests(n, from, t, voters), Votes(n, t, voters);
    StartCounts(c, n, voters);
    var d := Step(c, Start(n));
    AllGrant(d, n, from, t, voters);
    var g := Execute(d, asked);
    assert |g.nodes| == |g.nodes.Keys| && |d.nodes| == |d.nodes.Keys|;
    assert Counted(g, n, t, voters);
    AllCount(g, n, t, voters);
    Chained(d, asked, votes, true);
    CarriedOn(d, asked, votes);
    var run := Campaign(c, n, voters);
    assert run[0] == Start(n) && run[1..] == asked + votes;
  }

  // ---------------------------------------------------------------------
  //  One node alone
  // ---------------------------------------------------------------------

  /** A candidate always counts its own vote. */
  ghost predicate OwnBallot(c: Cluster) {
    forall n | n in c.nodes && c.nodes[n].status == Candidate :: n in c.nodes[n].votesReceived
  }

  lemma OwnBallotStep(c: Cluster, e: Event)
    requires Legal(c, e, false) && OwnBallot(c)
    ensures OwnBallot(Step(c, e))
  {
  }

  lemma SoloStep(c: Cluster, e: Event)
    requires Legal(c, e, false) && LedgerInv(c) && OwnBallot(c) && |c.nodes| == 1
    ensures !Wins(c, e)
  {
    if Wins(c, e) {
      assert e.Deliver? && e.msg.Vote? && e.msg in c.sent;
      assert e.msg.voter in c.nodes;
      Counting.DistinctCount([e.msg.voter, e.node], c.nodes.Keys);
    }
  }

  /** The majority test runs only on an arriving vote, so a node alone never becomes Leader. */
  lemma {:induction false} SoloNeverElected(c: Cluster, run: seq<Event>)
    requires LegalRun(c, run, false) && LedgerInv(c) && OwnBallot(c) && |c.nodes| == 1
    ensures Execute(c, run).won == c.won
    decreases |run|
  {
    if run != [] {
      SoloStep(c, run[0]);
      OwnBallotStep(c, run[0]);
      LedgerStep(c, run[0]);
      var d := Step(c, run[0]);
      assert d.nodes.Keys == c.nodes.Keys && |d.nodes| == |d.nodes.Keys| && |c.nodes| == |c.nodes.Keys|;
      SoloNeverElected(d, run[1..]);
    }
  }
}
