/**
 * What the election manager ends up with: the effect of every input on each part of its state,
 * what it sends and answers, and the election that a majority grants (src/registry/election.rs).
 */
module ElectionManagerOutcome {
  import opened Wrappers
  import opened Identity
  import opened ElectionMessages
  import opened ElectionManager
  import opened ElectionManagerRuns

  // ---------------------------------------------------------------------
  //  One input
  // ---------------------------------------------------------------------

  /** A call that really starts an election. */
  predicate Starts(cfg: Config, m: Manager, i: Input) { i == Trigger && m.status != Candidate && cfg.known != [] }

  /** A foreign announcement that is not older than the manager's term. */
  predicate HearsLeader(cfg: Config, m: Manager, i: Input) {
    match i
    case Incoming(Result(l, t)) => l != cfg.id && t >= m.term
    case Incoming(Change(r, _, _, t)) => r != cfg.id && t >= m.term
    case _ => false
  }

  /** A leader hears a sync request of a higher term. */
  predicate Outranked(m: Manager, i: Input) {
    i.Incoming? && i.msg.Sync? && m.status == Leader && i.msg.term > m.term
  }

  predicate StepsDown(cfg: Config, m: Manager, i: Input) {
    HearsLeader(cfg, m, i) || Outranked(m, i) || (i.Incoming? && i.msg.Request? && i.msg.term > m.term)
  }

  /** A new granted vote for this manager in this term. */
  predicate Counts(cfg: Config, m: Manager, i: Input) {
    && i.Incoming? && i.msg.Vote? && i.msg.granted && i.msg.candidate == cfg.id && i.msg.term == m.term
    && m.status == Candidate && i.msg.voter !in m.votesReceived
  }

  predicate Elected(cfg: Config, m: Manager, i: Input) {
    Counts(cfg, m, i) && 2 * (|m.votesReceived| + 1) > |cfg.known| + 1
  }

  /**
   * A request gets the vote if its term is new, or current and no vote is remembered, and the
   * candidate is this manager or preferred to it by the hash.
   */
  predicate Grants(cfg: Config, m: Manager, i: Input) {
    && i.Incoming? && i.msg.Request?
    && (i.msg.term > m.term || (i.msg.term == m.term && m.votedFor == None))
    && (i.msg.candidate == cfg.id || cfg.hash(i.msg.candidate, i.msg.term) > Number(cfg.id[..8]))
  }

  /** Who is candidate or leader after any input: each change has exactly these causes. */
  lemma StatusAfter(cfg: Config, m: Manager, i: Input)
    ensures var d := EffectOf(cfg, m, i).mgr;
      && (d.status == Candidate <==>
        Starts(cfg, m, i) || (m.status == Candidate && !Elected(cfg, m, i) && !StepsDown(cfg, m, i)))
      && (d.status == Leader <==>
        Elected(cfg, m, i) || (m.status == Leader && !Starts(cfg, m, i) && !StepsDown(cfg, m, i)))
  {
  }

  /** A term counts up, wrapping, with an own election; it rises to that of whoever makes the manager step down. */
  lemma TermAfter(cfg: Config, m: Manager, i: Input)
    ensures EffectOf(cfg, m, i).mgr.term ==
      if Starts(cfg, m, i) then (m.term + 1) % 0x1_0000_0000_0000_0000
      else if StepsDown(cfg, m, i) then i.msg.term
      else m.term
  {
  }

  /** The remembered vote and the ballots: both are gone after stepping down, but for a vote just given. */
  lemma VoteAfter(cfg: Config, m: Manager, i: Input)
    ensures var d := EffectOf(cfg, m, i).mgr;
      && d.votedFor ==
        (if Starts(cfg, m, i) then Some(cfg.id)
         else if Grants(cfg, m, i) then Some(i.msg.candidate)
         else if StepsDown(cfg, m, i) then None
         else m.votedFor)
      && d.votesReceived ==
        (if Starts(cfg, m, i) then [cfg.id]
         else if StepsDown(cfg, m, i) then []
         else if Counts(cfg, m, i) then m.votesReceived + [i.msg.voter]
         else m.votesReceived)
  {
  }

  /** The registry a manager knows: itself once elected, else whoever it last heard of. */
  lemma RegistryAfter(cfg: Config, m: Manager, i: Input)
    ensures var d, change := EffectOf(cfg, m, i).mgr, HearsLeader(cfg, m, i) && i.msg.Change?;
      && d.registryId ==
        (if Elected(cfg, m, i) then Some(cfg.id)
         else if change then Some(i.msg.registry)
         else if HearsLeader(cfg, m, i) then Some(i.msg.leader)
         else if Outranked(m, i) then Some(i.msg.requester)
         else m.registryId)
      && d.registryName ==
        (if Elected(cfg, m, i) then Some(cfg.name) else if change then Some(i.msg.name) else m.registryName)
      && (!Elected(cfg, m, i) ==> d.registryAddr == if change then Some(i.msg.addr) else m.registryAddr)
  {
  }

  /** The registry service runs from an election to the hearing of another leader; missed heartbeats count anew. */
  lemma ServiceAfter(cfg: Config, m: Manager, i: Input)
    ensures var d := EffectOf(cfg, m, i).mgr;
      && d.serving ==
        (if Elected(cfg, m, i) then true
         else m.serving && !HearsLeader(cfg, m, i) && !(Outranked(m, i) && i.msg.requester != cfg.id))
      && d.missedHeartbeats == if StepsDown(cfg, m, i) then 0 else m.missedHeartbeats
  {
  }

  /** Requests are always answered, sync requests by a leader that is not behind, nothing else. */
  lemma AnswerIs(cfg: Config, m: Manager, i: Input)
    ensures EffectOf(cfg, m, i).reply ==
      if i == Trigger then Silent
      else match i.msg
        case Request(c, t) => Answer(Vote(cfg.id, c, t, Grants(cfg, m, i)))
        case Sync(_, t) => if m.status == Leader && t <= m.term then RegistryData(cfg.id, m.term) else Silent
        case Data(_, _) => Unreadable
        case _ => Silent
  {
  }

  /** The same message to every known node, in list order. */
  ghost predicate ToAll(out: seq<(string, Message)>, known: seq<KnownNode>, msg: Message) {
    |out| == |known| && forall k | 0 <= k < |out| :: out[k] == (known[k].addr, msg)
  }

  ghost predicate OwnEntry(cfg: Config, k: int) {
    0 <= k < |cfg.known| && cfg.known[k].id == cfg.id && forall j | 0 <= j < k :: cfg.known[j].id != cfg.id
  }

  lemma {:induction false} FirstOwnEntry(id: NodeId, known: seq<KnownNode>)
    ensures match LocalAddr(id, known)
      case Some(a) => exists k :: 0 <= k < |known| && known[k].id == id && known[k].addr == a
                        && forall j | 0 <= j < k :: known[j].id != id
      case None => forall k | 0 <= k < |known| :: known[k].id != id
  {
    if known != [] && known[0].id != id {
      FirstOwnEntry(id, known[1..]);
      if LocalAddr(id, known).Some? {
        var k :| 0 <= k < |known[1..]| && known[1..][k].id == id && known[1..][k].addr == LocalAddr(id, known).value
          && forall j | 0 <= j < k :: known[1..][j].id != id;
        assert forall j | 0 < j < k + 1 :: known[j] == known[1..][j - 1];
        assert known[k + 1].id == id;
      } else {
        assert forall k | 0 < k < |known| :: known[k] == known[1..][k - 1];
      }
    }
  }

  /**
   * An election asks every known node for its vote in the new term; a victory tells every known
   * node the result and, if the manager finds itself on its list, then the change with the
   * address it is listed under; nothing else is sent.
   */
  lemma OutputsAre(cfg: Config, m: Manager, i: Input)
    ensures var e, n := EffectOf(cfg, m, i), |cfg.known|;
      if Starts(cfg, m, i) then ToAll(e.outputs, cfg.known, Request(cfg.id, e.mgr.term))
      else if !Elected(cfg, m, i) then e.outputs == []
      else
        && |e.outputs| >= n && ToAll(e.outputs[..n], cfg.known, Message.Result(cfg.id, m.term))
        && (if exists k :: OwnEntry(cfg, k)
            then e.mgr.registryAddr.Some?
              && (exists k :: OwnEntry(cfg, k) && e.mgr.registryAddr.value == cfg.known[k].addr)
              && ToAll(e.outputs[n..], cfg.known, Change(cfg.id, cfg.name, e.mgr.registryAddr.value, m.term))
            else e.mgr.registryAddr == None && e.outputs[n..] == [])
  {
    FirstOwnEntry(cfg.id, cfg.known);
    if LocalAddr(cfg.id, cfg.known).Some? {
      var k :| 0 <= k < |cfg.known| && cfg.known[k].id == cfg.id
        && cfg.known[k].addr == LocalAddr(cfg.id, cfg.known).value
        && forall j | 0 <= j < k :: cfg.known[j].id != cfg.id;
      assert OwnEntry(cfg, k);
    }
  }

  // ---------------------------------------------------------------------
  //  A majority elects
  // ---------------------------------------------------------------------

  function Requests(n: NodeId, t: nat, voters: seq<NodeId>): seq<Event> {
    if voters == [] then [] else [Event(voters[0], Incoming(Request(n, t)))] + Requests(n, t, voters[1..])
  }

  function Votes(n: NodeId, t: nat, voters: seq<NodeId>): seq<Event> {
    if voters == [] then [] else [Event(n, Incoming(Vote(voters[0], n, t, true)))] + Votes(n, t, voters[1..])
  }

  /** A manager that may and will vote for n in term t. */
  predicate Willing(g: Group, v: NodeId, n: NodeId, t: nat) {
    && v in g.mgrs && v in g.cfgs && g.cfgs[v].id == v && g.mgrs[v].term < t
    && g.cfgs[v].hash(n, t) > Number(v[..8])
  }

  lemma RequestIsGranted(g: Group, v: NodeId, n: NodeId, t: nat)
    requires Willing(g, v, n, t)
    ensures var e := Event(v, Incoming(Request(n, t)));
      && Legal(g, e)
      && var d := Step(g, e);
      && d.cfgs == g.cfgs && d.mgrs.Keys == g.mgrs.Keys && g.sent <= d.sent && g.won <= d.won
      && Vote(v, n, t, true) in d.sent
      && forall m | m in g.mgrs && m != v :: d.mgrs[m] == g.mgrs[m]
  {
  }

  lemma {:induction false} AllGrant(g: Group, n: NodeId, t: nat, voters: seq<NodeId>)
    requires n in g.mgrs && n !in voters && Distinct(voters) && Request(n, t) in g.sent
    requires forall v | v in voters :: Willing(g, v, n, t)
    ensures LegalRun(g, Requests(n, t, voters)) && GenuineRun(g, Requests(n, t, voters))
    ensures var d := Execute(g, Requests(n, t, voters));
      && d.cfgs == g.cfgs && d.mgrs.Keys == g.mgrs.Keys && d.mgrs[n] == g.mgrs[n]
      && forall v | v in voters :: Vote(v, n, t, true) in d.sent
    ensures g.sent <= Execute(g, Requests(n, t, voters)).sent && g.won <= Execute(g, Requests(n, t, voters)).won
    decreases |voters|
  {
    hide Step, Legal;
    if voters != [] {
      var run := Requests(n, t, voters);
      RequestIsGranted(g, voters[0], n, t);
      assert voters == [voters[0]] + voters[1..];
      assert run[1..] == Requests(n, t, voters[1..]);
      forall v | v in voters[1..]
        ensures v != voters[0] && Willing(Step(g, run[0]), v, n, t)
      {
        var k :| 0 <= k < |voters[1..]| && voters[1..][k] == v;
        assert voters[k + 1] == v && v in voters;
      }
      AllGrant(Step(g, run[0]), n, t, voters[1..]);
    }
  }

  /** Counting goes on, or the count has been won. */
  ghost predicate Counted(g: Group, n: NodeId, t: nat, voters: seq<NodeId>) {
    && n in g.mgrs && n in g.cfgs && g.cfgs[n].id == n
    && ((n, t) in g.won ||
        (g.mgrs[n].term == t && g.mgrs[n].status == Candidate
         && 2 * |g.mgrs[n].votesReceived| <= |g.cfgs[n].known| + 1
         && 2 * (|g.mgrs[n].votesReceived| + |voters|) > |g.cfgs[n].known| + 1
         && forall v | v in voters :: v !in g.mgrs[n].votesReceived))
  }

  lemma VoteCounts(g: Group, n: NodeId, t: nat, voters: seq<NodeId>)
    requires Counted(g, n, t, voters) && voters != [] && Distinct(voters)
    requires Vote(voters[0], n, t, true) in g.sent
    ensures var e := Event(n, Incoming(Vote(voters[0], n, t, true)));
      Legal(g, e) && g.sent <= Step(g, e).sent && Counted(Step(g, e), n, t, voters[1..])
  {
  }

  lemma {:induction false} AllCount(g: Group, n: NodeId, t: nat, voters: seq<NodeId>)
    requires Counted(g, n, t, voters) && Distinct(voters)
    requires forall v | v in voters :: Vote(v, n, t, true) in g.sent
    ensures LegalRun(g, Votes(n, t, voters)) && GenuineRun(g, Votes(n, t, voters))
    ensures (n, t) in Execute(g, Votes(n, t, voters)).won
    decreases |voters|
  {
    hide Step, Legal;
    if voters != [] {
      var run := Votes(n, t, voters);
      VoteCounts(g, n, t, voters);
      assert run[1..] == Votes(n, t, voters[1..]);
      hide Counted;
      AllCount(Step(g, run[0]), n, t, voters[1..]);
    }
  }

  lemma StartCounts(g: Group, n: NodeId, voters: seq<NodeId>)
    requires n in g.mgrs && n in g.cfgs && g.cfgs[n].id == n && n !in voters
    requires g.mgrs[n].status != Candidate && g.mgrs[n].term < U64_MAX
    requires 0 < |g.cfgs[n].known| && |g.cfgs[n].known| + 1 < 2 * (|voters| + 1)
    ensures var e, t := Event(n, Trigger), g.mgrs[n].term + 1;
      && Legal(g, e)
      && var d := Step(g, e);
      && d.cfgs == g.cfgs && d.mgrs.Keys == g.mgrs.Keys && g.sent <= d.sent
      && Request(n, t) in d.sent && Counted(d, n, t, voters)
      && forall m | m in g.mgrs && m != n :: d.mgrs[m] == g.mgrs[m]
  {
    var out := EffectOf(g.cfgs[n], g.mgrs[n], Trigger).outputs;
    assert out[0] in out && out[0].1 == Request(n, g.mgrs[n].term + 1);
  }

  lemma {:induction false} GenuineOn(g: Group, r1: seq<Event>, r2: seq<Event>)
    requires LegalRun(g, r1) && GenuineRun(g, r1)
    requires LegalRun(Execute(g, r1), r2) && GenuineRun(Execute(g, r1), r2)
    ensures LegalRun(g, r1 + r2) && GenuineRun(g, r1 + r2) && Execute(g, r1 + r2) == Execute(Execute(g, r1), r2)
    decreases |r1|
  {
    hide Step, Legal;
    if r1 == [] {
      assert r1 + r2 == r2;
    } else {
      var run := r1 + r2;
      assert run[0] == r1[0] && run[1..] == r1[1..] + r2;
      GenuineOn(Step(g, r1[0]), r1[1..], r2);
    }
  }

  /**
   * In a group of any size: a manager that is no candidate starts an election, its request reaches
   * managers behind the new term that prefer it by the hash, and with the starter they are more
   * than half of known + 1; once their votes are back it has won that term.  Every request and
   * vote was sent before it is delivered.
   */
  lemma MajorityElects(g: Group, n: NodeId, voters: seq<NodeId>)
    requires n in g.mgrs && n in g.cfgs && g.cfgs[n].id == n && n !in voters && Distinct(voters)
    requires g.mgrs[n].status != Candidate && g.mgrs[n].term < U64_MAX
    requires forall v | v in voters :: Willing(g, v, n, g.mgrs[n].term + 1)
    requires 0 < |g.cfgs[n].known| && |g.cfgs[n].known| + 1 < 2 * (|voters| + 1)
    ensures var t := g.mgrs[n].term + 1;
      var run := [Event(n, Trigger)] + (Requests(n, t, voters) + Votes(n, t, voters));
      LegalRun(g, run) && GenuineRun(g, run) && (n, t) in Execute(g, run).won
  {
    hide Step, Legal;
    var t := g.mgrs[n].term + 1;
    var asked, votes := Requests(n, t, voters), Votes(n, t, voters);
    StartCounts(g, n, voters);
    var d := Step(g, Event(n, Trigger));
    AllGrant(d, n, t, voters);
    StillCounted(d, Execute(d, asked), n, t, voters);
    AllCount(Execute(d, asked), n, t, voters);
    GenuineOn(d, asked, votes);
    var run := [Event(n, Trigger)] + (asked + votes);
    assert run[0] == Event(n, Trigger) && run[1..] == asked + votes;
  }

  lemma StillCounted(g: Group, d: Group, n: NodeId, t: nat, voters: seq<NodeId>)
    requires Counted(g, n, t, voters) && n in d.mgrs && d.cfgs == g.cfgs && d.mgrs[n] == g.mgrs[n] && g.won <= d.won
    ensures Counted(d, n, t, voters)
  {
  }
}
