/**
 * One node of the election simulation (src/bin/verify_election.rs).
 *
 * Every handler is a function from the node's state and the message to the new state
 * and the network operations it performs; the class below is the in-place form.
 */
module ElectionNode {
  import opened Wrappers
  import opened Identity
  import opened ElectionMessages

  datatype Envelope = Envelope(from: string, msg: Message)

  /** What a handler asks of the network. */
  datatype Output = Broadcast(msg: Message) | Send(to: string, msg: Message)

  datatype Node = Node(
    status: Status,
    term: nat,
    votedFor: Option<NodeId>,
    votesReceived: seq<NodeId>,
    registryId: Option<NodeId>,
    registryAddr: Option<string>)

  /** The constants of one node: its id, name, address and the size of `all_nodes`. */
  datatype Config = Config(id: NodeId, name: string, addr: string, total: nat)

  datatype Effect = Effect(node: Node, outputs: seq<Output>)

  const INITIAL: Node := Node(Follower, 0, None, [], None, None)

  // ---------------------------------------------------------------------
  //  Handlers
  // ---------------------------------------------------------------------

  /**
   * With the term at the largest u64 the log line's `term + 1` already overflows and
   * the call panics before it writes anything.
   */
  function StartElection(cfg: Config, n: Node): Option<Effect> {
    if n.term == U64_MAX then None
    else
      Some(Effect(
        n.(status := Candidate, term := n.term + 1, votedFor := Some(cfg.id), votesReceived := [cfg.id]),
        [Broadcast(Request(cfg.id, n.term + 1))]))
  }

  function HandleRequest(cfg: Config, n: Node, from: string, candidate: NodeId, term: nat): Effect {
    if term < n.term then
      Effect(n, [Send(from, Vote(cfg.id, candidate, term, false))])
    else
      var m := if term > n.term then n.(term := term, status := Follower, votedFor := None) else n;
      if m.votedFor.Some? then
        Effect(m, [Send(from, Vote(cfg.id, candidate, term, false))])
      else
        Effect(m.(votedFor := Some(candidate)), [Send(from, Vote(cfg.id, candidate, term, true))])
  }

  function BecomeLeader(cfg: Config, n: Node): Effect {
    Effect(
      n.(status := Leader, registryId := Some(cfg.id), registryAddr := Some(cfg.addr)),
      [Broadcast(Result(cfg.id, n.term)), Broadcast(Change(cfg.id, cfg.name, cfg.addr, n.term))])
  }

  function HandleVote(cfg: Config, n: Node, voter: NodeId, candidate: NodeId, term: nat, granted: bool): Effect {
    if n.status != Candidate || term != n.term || candidate != cfg.id || !granted || voter in n.votesReceived then
      Effect(n, [])
    else
      var m := n.(votesReceived := n.votesReceived + [voter]);
      if |m.votesReceived| > cfg.total / 2 then BecomeLeader(cfg, m) else Effect(m, [])
  }

  function HandleResult(cfg: Config, n: Node, leader: NodeId, term: nat): Effect {
    if leader == cfg.id || term < n.term then Effect(n, [])
    else Effect(n.(term := term, status := Follower, registryId := Some(leader)), [])
  }

  function HandleChange(cfg: Config, n: Node, registry: NodeId, addr: string, term: nat): Effect {
    if registry == cfg.id || term < n.term then Effect(n, [])
    else
      Effect(
        n.(term := term, status := Follower, registryId := Some(registry), registryAddr := Some(addr)),
        [])
  }

  function HandleSync(cfg: Config, n: Node, from: string, term: nat): Effect {
    if n.status != Leader then Effect(n, [])
    else if term > n.term then Effect(n.(status := Follower), [])
    else Effect(n, [Send(from, Data(cfg.id, n.term))])
  }

  /**
   * A leader's answer is taken for a sync request, whose fields it lacks: reading it panics
   * before anything is done.
   */
  predicate Panics(msg: Message) { msg.Data? }

  function HandleMessage(cfg: Config, n: Node, from: string, msg: Message): Effect {
    match msg
    case Request(c, t) => HandleRequest(cfg, n, from, c, t)
    case Vote(v, c, t, g) => HandleVote(cfg, n, v, c, t, g)
    case Result(l, t) => HandleResult(cfg, n, l, t)
    case Change(r, _, a, t) => HandleChange(cfg, n, r, a, t)
    case Sync(_, t) => HandleSync(cfg, n, from, t)
    case Data(_, _) => Effect(n, [])
  }

  // ---------------------------------------------------------------------
  //  The network
  // ---------------------------------------------------------------------

  type Inboxes = map<string, seq<Envelope>>

  /** Send to an unregistered address is an error the callers ignore. */
  function Sent(inboxes: Inboxes, to: string, e: Envelope): Inboxes {
    if to in inboxes then inboxes[to := inboxes[to] + [e]] else inboxes
  }

  function Broadcasted(inboxes: Inboxes, e: Envelope): Inboxes {
    map a | a in inboxes :: if a == e.from then inboxes[a] else inboxes[a] + [e]
  }

  function Performed(inboxes: Inboxes, from: string, outputs: seq<Output>): Inboxes
    decreases |outputs|
  {
    if outputs == [] then inboxes
    else
      var next := match outputs[0]
        case Broadcast(m) => Broadcasted(inboxes, Envelope(from, m))
        case Send(to, m) => Sent(inboxes, to, Envelope(from, m));
      Performed(next, from, outputs[1..])
  }

  class SimNetwork {
    var inboxes: Inboxes

    constructor ()
      ensures inboxes == map[]
    {
      inboxes := map[];
    }

    /** Registering an address again replaces the node, and with it the inbox. */
    method Register(addr: string)
      modifies this
      ensures inboxes == old(inboxes)[addr := []]
    {
      inboxes := inboxes[addr := []];
    }

    method SendTo(to: string, from: string, msg: Message) returns (ok: bool)
      modifies this
      ensures ok == (to in old(inboxes))
      ensures inboxes == Sent(old(inboxes), to, Envelope(from, msg))
    {
      ok := to in inboxes;
      if ok {
        inboxes := inboxes[to := inboxes[to] + [Envelope(from, msg)]];
      }
    }

    method BroadcastMsg(from: string, msg: Message)
      modifies this
      ensures inboxes == Broadcasted(old(inboxes), Envelope(from, msg))
    {
      var addrs := inboxes.Keys;
      ghost var before := inboxes;
      while addrs != {}
        invariant addrs <= before.Keys == inboxes.Keys
        invariant forall a | a in inboxes ::
          inboxes[a] == if a in addrs then before[a] else Broadcasted(before, Envelope(from, msg))[a]
        decreases addrs
      {
        var a :| a in addrs;
        if a != from {
          var _ := SendTo(a, from, msg);
        }
        addrs := addrs - {a};
      }
    }

    method Take(addr: string) returns (msgs: seq<Envelope>)
      requires addr in inboxes
      modifies this
      ensures msgs == old(inboxes)[addr] && inboxes == old(inboxes)[addr := []]
    {
      msgs := inboxes[addr];
      inboxes := inboxes[addr := []];
    }
  }

  // ---------------------------------------------------------------------
  //  The node, in place
  // ---------------------------------------------------------------------

  /** Handling a batch of envelopes in order, as process_inbox does; a panic loses the rest of it. */
  function HandleAll(cfg: Config, n: Node, boxes: Inboxes, msgs: seq<Envelope>): (Node, Inboxes)
    decreases |msgs|
  {
    if msgs == [] || Panics(msgs[0].msg) then (n, boxes)
    else
      var e := HandleMessage(cfg, n, msgs[0].from, msgs[0].msg);
      HandleAll(cfg, e.node, Performed(boxes, cfg.addr, e.outputs), msgs[1..])
  }

  class SimNode {
    const id: NodeId
    const name: string
    const addr: string
    const total: nat
    const network: SimNetwork
    var status: Status
    var term: nat
    var votedFor: Option<NodeId>
    var votesReceived: seq<NodeId>
    var registryId: Option<NodeId>
    var registryAddr: Option<string>

    ghost function Cfg(): Config { Config(id, name, addr, total) }

    ghost function State(): Node
      reads this
    {
      Node(status, term, votedFor, votesReceived, registryId, registryAddr)
    }

    constructor (id: NodeId, name: string, addr: string, total: nat, network: SimNetwork)
      ensures State() == INITIAL && Cfg() == Config(id, name, addr, total) && this.network == network
    {
      this.id, this.name, this.addr, this.total, this.network := id, name, addr, total, network;
      status, term, votedFor, votesReceived := Follower, 0, None, [];
      registryId, registryAddr := None, None;
    }

    method Start() returns (ok: bool)
      modifies this, network
      ensures ok == StartElection(Cfg(), old(State())).Some?
      ensures !ok ==> State() == old(State()) && network.inboxes == old(network.inboxes)
      ensures ok ==>
        var e := StartElection(Cfg(), old(State())).value;
        State() == e.node && network.inboxes == Performed(old(network.inboxes), addr, e.outputs)
    {
      if term == U64_MAX {
        return false;
      }
      status := Candidate;
      term := term + 1;
      votedFor := Some(id);
      votesReceived := [];
      votesReceived := votesReceived + [id];
      network.BroadcastMsg(addr, Request(id, term));
      return true;
    }

    method OnRequest(from: string, candidate: NodeId, reqTerm: nat)
      modifies this, network
      ensures var e := HandleRequest(Cfg(), old(State()), from, candidate, reqTerm);
        State() == e.node && network.inboxes == Performed(old(network.inboxes), addr, e.outputs)
    {
      if reqTerm < term {
        var _ := network.SendTo(from, addr, Vote(id, candidate, reqTerm, false));
        return;
      }
      if reqTerm > term {
        term := reqTerm;
        status := Follower;
        votedFor := None;
      }
      var granted := if votedFor.Some? then false else true;
      if granted {
        votedFor := Some(candidate);
      }
      var _ := network.SendTo(from, addr, Vote(id, candidate, reqTerm, granted));
    }

    method OnVote(voter: NodeId, candidate: NodeId, voteTerm: nat, granted: bool)
      modifies this, network
      ensures var e := HandleVote(Cfg(), old(State()), voter, candidate, voteTerm, granted);
        State() == e.node && network.inboxes == Performed(old(network.inboxes), addr, e.outputs)
    {
      if status != Candidate || voteTerm != term || candidate != id {
        return;
      }
      if granted && voter !in votesReceived {
        votesReceived := votesReceived + [voter];
        if |votesReceived| > total / 2 {
          Win();
        }
      }
    }

    method Win()
      modifies this, network
      ensures var e := BecomeLeader(Cfg(), old(State()));
        State() == e.node && network.inboxes == Performed(old(network.inboxes), addr, e.outputs)
    {
      status := Leader;
      registryId := Some(id);
      registryAddr := Some(addr);
      network.BroadcastMsg(addr, Result(id, term));
      network.BroadcastMsg(addr, Change(id, name, addr, term));
      ghost var out := BecomeLeader(Cfg(), old(State())).outputs;
      assert out[1..] == [Broadcast(Change(id, name, addr, term))] && out[1..][1..] == [];
      ghost var first := Broadcasted(old(network.inboxes), Envelope(addr, out[0].msg));
      assert Performed(old(network.inboxes), addr, out) == Performed(first, addr, out[1..]);
      assert Performed(first, addr, out[1..]) == Broadcasted(first, Envelope(addr, out[1].msg));
    }

    method OnResult(leader: NodeId, resTerm: nat)
      modifies this
      ensures State() == HandleResult(Cfg(), old(State()), leader, resTerm).node
    {
      if leader == id || resTerm < term {
        return;
      }
      term := resTerm;
      status := Follower;
      registryId := Some(leader);
    }

    method OnChange(registry: NodeId, newAddr: string, chTerm: nat)
      modifies this
      ensures State() == HandleChange(Cfg(), old(State()), registry, newAddr, chTerm).node
    {
      if registry == id || chTerm < term {
        return;
      }
      term := chTerm;
      status := Follower;
      registryId := Some(registry);
      registryAddr := Some(newAddr);
    }

    method OnSync(from: string, syncTerm: nat)
      modifies this, network
      ensures var e := HandleSync(Cfg(), old(State()), from, syncTerm);
        State() == e.node && network.inboxes == Performed(old(network.inboxes), addr, e.outputs)
    {
      if status != Leader {
        return;
      }
      if syncTerm > term {
        status := Follower;
        return;
      }
      var _ := network.SendTo(from, addr, Data(id, term));
    }

    method OnMessage(from: string, msg: Message) returns (ok: bool)
      modifies this, network
      ensures var e := HandleMessage(Cfg(), old(State()), from, msg);
        State() == e.node && network.inboxes == Performed(old(network.inboxes), addr, e.outputs)
      ensures ok <==> !Panics(msg)
    {
      ok := true;
      match msg
      case Request(c, t) => OnRequest(from, c, t);
      case Vote(v, c, t, g) => OnVote(v, c, t, g);
      case Result(l, t) => OnResult(l, t);
      case Change(r, _, a, t) => OnChange(r, a, t);
      case Sync(_, t) => OnSync(from, t);
      case Data(_, _) => ok := false;
    }

    /** False tells of a panic on the way. */
    method ProcessInbox() returns (ok: bool)
      requires addr in network.inboxes
      modifies this, network
      ensures
        var boxes := old(network.inboxes);
        (State(), network.inboxes) == HandleAll(Cfg(), old(State()), boxes[addr := []], boxes[addr])
      ensures ok <==> forall e | e in old(network.inboxes)[addr] :: !Panics(e.msg)
    {
      var msgs := network.Take(addr);
      ghost var goal := HandleAll(Cfg(), State(), network.inboxes, msgs);
      for i := 0 to |msgs|
        invariant HandleAll(Cfg(), State(), network.inboxes, msgs[i..]) == goal
        invariant forall e | e in msgs[..i] :: !Panics(e.msg)
      {
        var read := OnMessage(msgs[i].from, msgs[i].msg);
        if !read {
          assert msgs[i] in msgs;
          return false;
        }
        assert msgs[i..][1..] == msgs[i + 1..];
      }
      assert msgs[..|msgs|] == msgs;
      return true;
    }
  }
}
