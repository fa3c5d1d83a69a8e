/**
 * Fail-over when a node goes offline (src/vpn/selfheal.rs, on_node_offline) on top of the
 * route table of Multihop.  Event callbacks are left out; the clock is a parameter.
 */
module SelfHeal {
  import opened Wrappers
  import opened Identity
  import opened Dht
  import opened Multihop
  import opened MultihopRuns
  import Counting
  import StableSort

  datatype NodeState = NodeState(lastSeen: nat, failedAttempts: nat, offline: bool, lastAttempt: nat)

  type States = map<NodeId, NodeState>

  function MarkedOffline(states: States, n: NodeId, clock: nat): States {
    var s := if n in states then states[n] else NodeState(clock, 0, false, 0);
    states[n := s.(offline := true, failedAttempts := 0)]
  }

  /**
   * The entry an affected route is left with: switched to a candidate; or, when the healer
   * has a DHT, rediscovered; or invalidated.
   */
  function Repaired(local: NodeId, rediscover: bool, dht: Option<Table>, target: NodeId, r: Route, now: int): Route {
    match Alternative(local, r.nextHop, r.candidates)
    case Some(next) => Switched(r, target, next, now)
    case None =>
      if rediscover then
        match Discovery(local, dht, target, now)
        case Ok(found) => found
        case Err(_) => r.(expiresAt := now - 1)
      else r.(expiresAt := now - 1)
  }

  predicate Affected(routes: Routes, n: NodeId, t: NodeId) {
    t in routes && t != n && routes[t].nextHop == n
  }

  function Healed(local: NodeId, rediscover: bool, dht: Option<Table>, routes: Routes, n: NodeId, now: int): Routes {
    map t | t in routes && t != n ::
      if routes[t].nextHop == n then Repaired(local, rediscover, dht, t, routes[t], now) else routes[t]
  }

  lemma DiscoveredTarget(local: NodeId, dht: Option<Table>, target: NodeId, now: int)
    ensures Discovery(local, dht, target, now).Ok? ==> Discovery(local, dht, target, now).value.target == target
  {
  }

  class SelfHealManager {
    const multihop: MultihopManager?
    const hasDht: bool
    var states: States

    constructor (multihop: MultihopManager?, hasDht: bool)
      ensures this.multihop == multihop && this.hasDht == hasDht && states == map[]
    {
      this.multihop, this.hasDht, states := multihop, hasDht, map[];
    }

    /** Invalidate, try a candidate, else rediscover: one affected target. */
    method Repair(m: MultihopManager, target: NodeId, now: int)
      requires m.Valid() && target in m.routes
      modifies m
      ensures m.Valid() && m.DhtState() == old(m.DhtState())
      ensures m.routes == old(m.routes)[target :=
        Repaired(m.localId, hasDht, m.DhtState(), target, old(m.routes)[target], now)]
    {
      hide Discovery, Metric;
      m.MarkInvalid(target, now);
      var r := m.FindAlternative(target, now);
      if r.Err? && hasDht {
        DiscoveredTarget(m.localId, m.DhtState(), target, now);
        var found := m.DiscoverRoute(target, now);
      }
    }

    method OnNodeOffline(n: NodeId, now: int, clock: nat)
      requires multihop != null ==> multihop.Valid()
      modifies this, multihop
      ensures states == MarkedOffline(old(states), n, clock)
      ensures states.Keys == old(states).Keys + {n} &&
        forall m | m in old(states) && m != n :: states[m] == old(states)[m]
      ensures states[n].offline && states[n].failedAttempts == 0
      ensures states[n].lastSeen == if n in old(states) then old(states)[n].lastSeen else clock
      ensures multihop != null ==>
        && multihop.Valid() && multihop.DhtState() == old(multihop.DhtState())
        && multihop.routes == Healed(multihop.localId, hasDht, multihop.DhtState(), old(multihop.routes), n, now)
    {
      hide Repaired;
      var s := if n in states then states[n] else NodeState(clock, 0, false, 0);
      states := states[n := s.(offline := true, failedAttempts := 0)];
      if multihop != null {
        var m := multihop;
        var removed := m.RemoveRoute(n);
        var targets := m.RoutesByNextHop(n);
        RepairAll(m, targets, now);
      }
    }

    method RepairAll(m: MultihopManager, targets: seq<NodeId>, now: int)
      requires m.Valid() && forall t | t in targets :: t in m.routes
      requires forall i, j | 0 <= i < j < |targets| :: targets[i] != targets[j]
      modifies m
      ensures m.Valid() && m.DhtState() == old(m.DhtState())
      ensures m.routes.Keys == old(m.routes.Keys)
      ensures forall t | t in m.routes ::
        m.routes[t] ==
          if t in targets then Repaired(m.localId, hasDht, m.DhtState(), t, old(m.routes)[t], now) else old(m.routes)[t]
    {
      ghost var before := m.routes;
      for i := 0 to |targets|
        invariant m.Valid() && m.DhtState() == old(m.DhtState())
        invariant m.routes.Keys == before.Keys
        invariant forall t | t in before ::
          m.routes[t] ==
            if t in targets[..i] then Repaired(m.localId, hasDht, m.DhtState(), t, before[t], now) else before[t]
      {
        assert targets[i] !in targets[..i] && targets[..i + 1] == targets[..i] + [targets[i]];
        Repair(m, targets[i], now);
      }
      assert targets[..|targets|] == targets;
    }
  }

  // ---------------------------------------------------------------------
  //  What fail-over achieves
  // ---------------------------------------------------------------------

  ghost predicate Live(routes: Routes, t: NodeId, now: int) {
    t in routes && !Expired(routes[t], now)
  }

  /**
   * Without a DHT in the healer: nothing live leads to n or through n, an affected target
   * stays live exactly when its candidates hold a node other than n and the local one, then for
   * 300 seconds through the first such candidate, and every other route is untouched.
   */
  lemma FailoverIsExact(local: NodeId, max: nat, dht: Option<Table>, routes: Routes, n: NodeId, now: int)
    requires RoutesInv(local, max, routes)
    ensures var after := Healed(local, false, dht, routes, n, now);
      && RoutesInv(local, max, after)
      && (forall t | Live(after, t, now) :: after[t].target != n && after[t].nextHop != n)
      && (forall t | Affected(routes, n, t) :: Live(after, t, now) <==> HasSpare(local, n, routes[t]))
      && (forall t | Affected(routes, n, t) && HasSpare(local, n, routes[t]) ::
        FirstSpare(local, n, routes[t].candidates, after[t].nextHop) && after[t].expiresAt == now + 300)
      && (forall t | t in routes && t != n && routes[t].nextHop != n :: t in after && after[t] == routes[t])
      && n !in after
  {
    var after := Healed(local, false, dht, routes, n, now);
    forall t | Affected(routes, n, t)
      ensures Live(after, t, now) <==> HasSpare(local, n, routes[t])
      ensures after[t].target == t && after[t].nextHop != local
      ensures Live(after, t, now) ==> after[t].nextHop != n
      ensures HasSpare(local, n, routes[t]) ==>
        FirstSpare(local, n, routes[t].candidates, after[t].nextHop) && after[t].expiresAt == now + 300
    {
      AlternativeIsOther(local, n, routes[t].candidates);
    }
    Counting.SubsetCount(after.Keys, routes.Keys);
  }

  /**
   * With a DHT in the healer the offline node can come back as a next hop, because nothing
   * removes it from the DHT: this happens exactly when some affected target without a spare
   * candidate has the offline node as its nearest contact there.
   */
  lemma RediscoveryPicksOfflineNodeIff(local: NodeId, max: nat, dht: Option<Table>, routes: Routes, n: NodeId, now: int)
    requires RoutesInv(local, max, routes)
    requires dht.Some? ==> TableInv(local, dht.value)
    ensures var after := Healed(local, true, dht, routes, n, now);
      (exists t :: Live(after, t, now) && after[t].nextHop == n) <==>
        exists t :: Affected(routes, n, t) && !HasSpare(local, n, routes[t]) && dht.Some?
          && FindNearest(dht.value, t, K_BUCKET_SIZE) != [] && FindNearest(dht.value, t, K_BUCKET_SIZE)[0].0 == n
  {
    var after := Healed(local, true, dht, routes, n, now);
    forall t | t in routes && t != n
      ensures (Live(after, t, now) && after[t].nextHop == n) <==>
        Affected(routes, n, t) && !HasSpare(local, n, routes[t]) && dht.Some?
          && FindNearest(dht.value, t, K_BUCKET_SIZE) != [] && FindNearest(dht.value, t, K_BUCKET_SIZE)[0].0 == n
    {
      if Affected(routes, n, t) {
        AlternativeIsOther(local, n, routes[t].candidates);
        RediscoveredHop(local, dht, t, now);
      }
    }
  }

  /**
   * It happens at once when the offline node is the only contact: a route discovered through
   * it is rediscovered through it.
   */
  lemma OnlyContactComesBack(local: NodeId, n: NodeId, t: NodeId, addr: string, max: nat, now: int)
    requires local != n && local != t && n != t && max > 0
    ensures var dht := Execute(local, EMPTY, [Insert(n, addr, now)]);
      && Discovery(local, Some(dht), t, now).Ok?
      && var r := Discovery(local, Some(dht), t, now).value;
      && r.nextHop == n && r.candidates == []
      && Entered(map[], max, r, map[t := r])
      && var after := Healed(local, true, Some(dht), map[t := r], n, now);
      Live(after, t, now) && after[t].nextHop == n
  {
    hide *;
    var dht := Execute(local, EMPTY, [Insert(n, addr, now)]);
    OneContact(local, n, addr, now);
    OneNearest(dht, n, addr, t);
    DiscoveredThrough(local, dht, n, addr, t, now);
    HealedThrough(local, dht, Discovery(local, Some(dht), t, now).value, n, t, max, now);
  }

  lemma DiscoveredThrough(local: NodeId, dht: Table, n: NodeId, addr: string, t: NodeId, now: int)
    requires local != t && n != t && FindNearest(dht, t, K_BUCKET_SIZE) == [(n, addr)]
    ensures Discovery(local, Some(dht), t, now) == Ok(NewRoute(t, n, 2, Relay, [], now))
  {
    hide FindNearest, Metric;
    var one := [(n, addr)];
    StableSort.SortedIsFixed(one, ShortKey(t));
    assert one[1..] == [];
  }

  lemma HealedThrough(local: NodeId, dht: Table, r: Route, n: NodeId, t: NodeId, max: nat, now: int)
    requires n != t && max > 0 && Discovery(local, Some(dht), t, now) == Ok(r)
    requires r == NewRoute(t, n, 2, Relay, [], now)
    ensures r.nextHop == n && r.candidates == [] && Entered(map[], max, r, map[t := r])
    ensures var after := Healed(local, true, Some(dht), map[t := r], n, now);
      Live(after, t, now) && after[t].nextHop == n
  {
    hide Discovery, Metric;
    assert Alternative(local, n, []) == None;
  }

  lemma OneContact(local: NodeId, n: NodeId, addr: string, now: int)
    requires local != n
    ensures AllContacts(Execute(local, EMPTY, [Insert(n, addr, now)])) == [(n, addr)]
  {
    var i := Bucket(local, n);
    var one := [BucketEntry(n, addr, now)];
    var t := Apply(local, EMPTY, Insert(n, addr, now));
    assert Inserted([], K_BUCKET_SIZE, one[0]).0 == one;
    assert t == EMPTY[i := one];
    assert [Insert(n, addr, now)][1..] == [];
    assert Execute(local, EMPTY, [Insert(n, addr, now)]) == Execute(local, t, []);
    OneFilled(t, i, one);
  }

  lemma {:induction false} OneFilled(t: seq<seq<BucketEntry>>, i: nat, one: seq<BucketEntry>)
    requires i < |t| && t[i] == one && forall j | 0 <= j < |t| && j != i :: t[j] == []
    ensures AllContacts(t) == Contacts(one)
  {
    if i == 0 {
      NoneFilled(t[1..]);
    } else {
      OneFilled(t[1..], i - 1, one);
    }
  }

  lemma {:induction false} NoneFilled(t: seq<seq<BucketEntry>>)
    requires forall j | 0 <= j < |t| :: t[j] == []
    ensures AllContacts(t) == []
  {
    if t != [] {
      NoneFilled(t[1..]);
    }
  }

  lemma OneNearest(t: Table, n: NodeId, addr: string, target: NodeId)
    requires AllContacts(t) == [(n, addr)]
    ensures FindNearest(t, target, K_BUCKET_SIZE) == [(n, addr)]
  {
    var one := [(n, addr)];
    StableSort.SortedIsFixed(one, DistanceKey(target));
  }

  lemma RediscoveredHop(local: NodeId, dht: Option<Table>, t: NodeId, now: int)
    requires t != local && (dht.Some? ==> TableInv(local, dht.value))
    ensures match Discovery(local, dht, t, now)
      case Ok(r) => dht.Some? && !Expired(r, now) && FindNearest(dht.value, t, K_BUCKET_SIZE) != []
                    && r.nextHop == FindNearest(dht.value, t, K_BUCKET_SIZE)[0].0
      case Err(_) => dht.Some? ==> FindNearest(dht.value, t, K_BUCKET_SIZE) == []
  {
    if dht.Some? {
      ResortIsIdentity(local, dht.value, t, K_BUCKET_SIZE);
    }
  }
}
