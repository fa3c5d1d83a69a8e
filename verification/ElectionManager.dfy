/**
 * The registry's election manager (src/registry/election.rs).
 *
 * Handlers are functions from the manager's state and a decoded message to the new state,
 * the messages handed to the send callback and the reply; the class is the in-place form.
 * The candidate hash is a parameter.  `serving` is the last command given to the registry
 * control callback.
 */
module ElectionManager {
  import opened Wrappers
  import opened Identity
  import opened ElectionMessages

  datatype KnownNode = KnownNode(id: NodeId, name: string, addr: string)

  datatype Config = Config(id: NodeId, name: string, known: seq<KnownNode>, hash: (NodeId, nat) -> nat)

  datatype Manager = Manager(
    status: Status,
    term: nat,
    votedFor: Option<NodeId>,
    votesReceived: seq<NodeId>,
    registryId: Option<NodeId>,
    registryName: Option<string>,
    registryAddr: Option<string>,
    missedHeartbeats: nat,
    serving: bool)

  /** A leader's data cannot be read as the sync request its type byte announces: an error, nothing done. */
  datatype Reply = Silent | Answer(msg: Message) | RegistryData(leader: NodeId, term: nat) | Unreadable

  datatype Effect = Effect(mgr: Manager, outputs: seq<(string, Message)>, reply: Reply)

  datatype Error = NotEnoughNodes

  const INITIAL: Manager := Manager(Follower, 0, None, [], None, None, None, 0, false)

  function ToKnown(known: seq<KnownNode>, msg: Message): seq<(string, Message)> {
    seq(|known|, i requires 0 <= i < |known| => (known[i].addr, msg))
  }

  function LocalAddr(id: NodeId, known: seq<KnownNode>): Option<string> {
    if known == [] then None
    else if known[0].id == id then Some(known[0].addr)
    else LocalAddr(id, known[1..])
  }

  /** The counter is an atomic u64 whose increment wraps. */
  function NextTerm(term: nat): nat { (term + 1) % (U64_MAX + 1) }

  function StartElection(cfg: Config, m: Manager): Result<Effect, Error> {
    if m.status == Candidate then Ok(Effect(m, [], Silent))
    else if cfg.known == [] then Err(NotEnoughNodes)
    else
      var t := NextTerm(m.term);
      Ok(Effect(
        m.(status := Candidate, term := t, votedFor := Some(cfg.id), votesReceived := [cfg.id]),
        ToKnown(cfg.known, Request(cfg.id, t)), Silent))
  }

  /** The registry change is announced only when the manager finds its own address. */
  function BecomeLeader(cfg: Config, m: Manager): Effect {
    var addr := LocalAddr(cfg.id, cfg.known);
    Effect(
      m.(status := Leader, registryId := Some(cfg.id), registryName := Some(cfg.name), registryAddr := addr,
         serving := true),
      ToKnown(cfg.known, Message.Result(cfg.id, m.term))
      + (if addr.Some? then ToKnown(cfg.known, Change(cfg.id, cfg.name, addr.value, m.term)) else []),
      Silent)
  }

  /** Note that the vote is cleared whether or not the term rises. */
  function BecomeFollower(cfg: Config, m: Manager, newTerm: nat, registry: Option<NodeId>): Manager {
    m.(term := if newTerm > m.term then newTerm else m.term,
       status := Follower, votedFor := None, votesReceived := [],
       registryId := if registry.Some? then registry else m.registryId,
       serving := if registry.Some? && registry.value != cfg.id then false else m.serving,
       missedHeartbeats := 0)
  }

  function LocalValue(id: NodeId): nat { Number(id[..8]) }

  predicate ShouldVoteFor(cfg: Config, m: Manager, candidate: NodeId, term: nat) {
    m.votedFor == None && (candidate == cfg.id || cfg.hash(candidate, term) > LocalValue(cfg.id))
  }

  function HandleRequest(cfg: Config, m: Manager, candidate: NodeId, term: nat): Effect {
    if term < m.term then
      Effect(m, [], Answer(Vote(cfg.id, candidate, term, false)))
    else
      var f := if term > m.term then BecomeFollower(cfg, m, term, None) else m;
      var granted := ShouldVoteFor(cfg, f, candidate, term);
      Effect(if granted then f.(votedFor := Some(candidate)) else f, [], Answer(Vote(cfg.id, candidate, term, granted)))
  }

  function HandleVote(cfg: Config, m: Manager, voter: NodeId, candidate: NodeId, term: nat, granted: bool): Effect {
    if m.status != Candidate || term != m.term || candidate != cfg.id || !granted || voter in m.votesReceived then
      Effect(m, [], Silent)
    else
      var v := m.(votesReceived := m.votesReceived + [voter]);
      if |v.votesReceived| > (|cfg.known| + 1) / 2 then BecomeLeader(cfg, v) else Effect(v, [], Silent)
  }

  function HandleResult(cfg: Config, m: Manager, leader: NodeId, term: nat): Manager {
    if term < m.term || leader == cfg.id then m
    else BecomeFollower(cfg, m, term, Some(leader))
  }

  function HandleChange(cfg: Config, m: Manager, registry: NodeId, name: string, addr: string, term: nat): Manager {
    if term < m.term || registry == cfg.id then m
    else
      BecomeFollower(cfg, m.(registryId := Some(registry), registryName := Some(name), registryAddr := Some(addr)),
                     term, Some(registry))
  }

  function HandleSync(cfg: Config, m: Manager, requester: NodeId, term: nat): Effect {
    if m.status != Leader then Effect(m, [], Silent)
    else if term > m.term then Effect(BecomeFollower(cfg, m, term, Some(requester)), [], Silent)
    else Effect(m, [], RegistryData(cfg.id, m.term))
  }

  function HandleMessage(cfg: Config, m: Manager, msg: Message): Effect {
    match msg
    case Request(c, t) => HandleRequest(cfg, m, c, t)
    case Vote(v, c, t, g) => HandleVote(cfg, m, v, c, t, g)
    case Result(l, t) => Effect(HandleResult(cfg, m, l, t), [], Silent)
    case Change(r, n, a, t) => Effect(HandleChange(cfg, m, r, n, a, t), [], Silent)
    case Sync(r, t) => HandleSync(cfg, m, r, t)
    case Data(_, _) => Effect(m, [], Unreadable)
  }

  // ---------------------------------------------------------------------
  //  The manager, in place
  // ---------------------------------------------------------------------

  class Elector {
    const id: NodeId
    const name: string
    const known: seq<KnownNode>
    const hash: (NodeId, nat) -> nat
    var status: Status
    var term: nat
    var votedFor: Option<NodeId>
    var votesReceived: seq<NodeId>
    var registryId: Option<NodeId>
    var registryName: Option<string>
    var registryAddr: Option<string>
    var missedHeartbeats: nat
    var serving: bool
    /** Everything handed to the send callback, oldest first. */
    var outbox: seq<(string, Message)>

    ghost function Cfg(): Config { Config(id, name, known, hash) }

    ghost function State(): Manager
      reads this
    {
      Manager(status, term, votedFor, votesReceived, registryId, registryName, registryAddr, missedHeartbeats, serving)
    }

    constructor (id: NodeId, name: string, known: seq<KnownNode>, hash: (NodeId, nat) -> nat)
      ensures State() == INITIAL && Cfg() == Config(id, name, known, hash) && outbox == []
    {
      this.id, this.name, this.known, this.hash := id, name, known, hash;
      status, term, votedFor, votesReceived := Follower, 0, None, [];
      registryId, registryName, registryAddr := None, None, None;
      missedHeartbeats, serving, outbox := 0, false, [];
    }

    method BroadcastMsg(msg: Message)
      modifies this`outbox
      ensures outbox == old(outbox) + ToKnown(known, msg)
    {
      for i := 0 to |known|
        invariant outbox == old(outbox) + ToKnown(known, msg)[..i]
      {
        outbox := outbox + [(known[i].addr, msg)];
      }
    }

    method FindLocalAddr() returns (addr: Option<string>)
      ensures addr == LocalAddr(id, known)
    {
      for i := 0 to |known|
        invariant LocalAddr(id, known) == LocalAddr(id, known[i..])
      {
        if known[i].id == id {
          return Some(known[i].addr);
        }
        assert known[i..][1..] == known[i + 1..];
      }
      return None;
    }

    method Start() returns (r: Result<(), Error>)
      modifies this
      ensures match StartElection(Cfg(), old(State()))
        case Ok(e) => r == Ok(()) && State() == e.mgr && outbox == old(outbox) + e.outputs
        case Err(x) => r == Err(x) && State() == old(State()) && outbox == old(outbox)
    {
      if status == Candidate {
        return Ok(());
      }
      if |known| == 0 {
        return Err(NotEnoughNodes);
      }
      status := Candidate;
      term := (term + 1) % (U64_MAX + 1);
      votedFor := Some(id);
      votesReceived := [];
      votesReceived := votesReceived + [id];
      BroadcastMsg(Request(id, term));
      return Ok(());
    }

    method Win()
      modifies this
      ensures var e := BecomeLeader(Cfg(), old(State()));
        State() == e.mgr && outbox == old(outbox) + e.outputs
    {
      status := Leader;
      var addr := FindLocalAddr();
      registryId := Some(id);
      registryName := Some(name);
      registryAddr := addr;
      serving := true;
      BroadcastMsg(Message.Result(id, term));
      if addr.Some? {
        BroadcastMsg(Change(id, name, addr.value, term));
      }
    }

    method StepDown(newTerm: nat, registry: Option<NodeId>)
      modifies this
      ensures State() == BecomeFollower(Cfg(), old(State()), newTerm, registry) && outbox == old(outbox)
    {
      if newTerm > term {
        term := newTerm;
      }
      status := Follower;
      votedFor := None;
      votesReceived := [];
      if registry.Some? {
        registryId := registry;
        if registry.value != id {
          serving := false;
        }
      }
      missedHeartbeats := 0;
    }

    method OnRequest(candidate: NodeId, reqTerm: nat) returns (reply: Reply)
      modifies this
      ensures var e := HandleRequest(Cfg(), old(State()), candidate, reqTerm);
        State() == e.mgr && outbox == old(outbox) && reply == e.reply
    {
      if reqTerm < term {
        return Answer(Vote(id, candidate, reqTerm, false));
      }
      if reqTerm > term {
        StepDown(reqTerm, None);
      }
      var granted := votedFor == None && (candidate == id || hash(candidate, reqTerm) > LocalValue(id));
      if granted {
        votedFor := Some(candidate);
      }
      return Answer(Vote(id, candidate, reqTerm, granted));
    }

    method OnVote(voter: NodeId, candidate: NodeId, voteTerm: nat, granted: bool)
      modifies this
      ensures var e := HandleVote(Cfg(), old(State()), voter, candidate, voteTerm, granted);
        State() == e.mgr && outbox == old(outbox) + e.outputs
    {
      if status != Candidate || voteTerm != term || candidate != id {
        return;
      }
      if granted && voter !in votesReceived {
        votesReceived := votesReceived + [voter];
        var totalNodes := |known| + 1;
        if |votesReceived| > totalNodes / 2 {
          Win();
        }
      }
    }

    method OnResult(leader: NodeId, resTerm: nat)
      modifies this
      ensures State() == HandleResult(Cfg(), old(State()), leader, resTerm) && outbox == old(outbox)
    {
      if resTerm < term || leader == id {
        return;
      }
      StepDown(resTerm, Some(leader));
    }

    method OnChange(registry: NodeId, newName: string, newAddr: string, chTerm: nat)
      modifies this
      ensures State() == HandleChange(Cfg(), old(State()), registry, newName, newAddr, chTerm) && outbox == old(outbox)
    {
      if chTerm < term || registry == id {
        return;
      }
      registryId := Some(registry);
      registryName := Some(newName);
      registryAddr := Some(newAddr);
      if status == Leader {
        serving := false;
      }
      StepDown(chTerm, Some(registry));
    }

    method OnSync(requester: NodeId, syncTerm: nat) returns (reply: Reply)
      modifies this
      ensures var e := HandleSync(Cfg(), old(State()), requester, syncTerm);
        State() == e.mgr && outbox == old(outbox) && reply == e.reply
    {
      if status != Leader {
        return Silent;
      }
      if syncTerm > term {
        StepDown(syncTerm, Some(requester));
        return Silent;
      }
      return RegistryData(id, term);
    }

    method OnMessage(msg: Message) returns (reply: Reply)
      modifies this
      ensures var e := HandleMessage(Cfg(), old(State()), msg);
        State() == e.mgr && outbox == old(outbox) + e.outputs && reply == e.reply
    {
      reply := Silent;
      match msg
      case Request(c, t) => reply := OnRequest(c, t);
      case Vote(v, c, t, g) => OnVote(v, c, t, g);
      case Result(l, t) => OnResult(l, t);
      case Change(r, n, a, t) => OnChange(r, n, a, t);
      case Sync(r, t) => reply := OnSync(r, t);
      case Data(_, _) => reply := Unreadable;
    }
  }
}
