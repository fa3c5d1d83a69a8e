/**
 * Runs of the route table with nodes going offline (src/vpn/multihop.rs, src/vpn/selfheal.rs):
 * what every run keeps, and what a hop count of 1 means along one.
 */
module RouteRuns {
  import opened Wrappers
  import opened Identity
  import opened Dht
  import opened DhtNearest
  import opened Multihop
  import opened MultihopRuns
  import opened SelfHeal
  import Counting

  /** An operation on the table, or the repair of all routes when a node goes offline. */
  datatype Step =
    | Table(action: Action)
    | Offline(n: NodeId, rediscover: bool, dht: Option<Dht.Table>, now: int)

  ghost predicate Happens(local: NodeId, max: nat, routes: Routes, step: Step, after: Routes) {
    match step
    case Table(a) => OneLocalId(local, a) && Next(local, max, routes, a, after)
    case Offline(n, rediscover, dht, now) =>
      && (dht.Some? ==> TableInv(local, dht.value))
      && after == Healed(local, rediscover, dht, routes, n, now)
  }

  ghost predicate IsRun(local: NodeId, max: nat, states: seq<Routes>, steps: seq<Step>) {
    && |states| == |steps| + 1
    && states[0] == map[]
    && forall i | 0 <= i < |steps| :: Happens(local, max, states[i], steps[i], states[i + 1])
  }

  // ---------------------------------------------------------------------
  //  The table
  // ---------------------------------------------------------------------

  lemma RepairedIsForeign(
      local: NodeId, rediscover: bool, dht: Option<Dht.Table>, target: NodeId, r: Route, now: int)
    requires r.target == target != local && r.nextHop != local && (dht.Some? ==> TableInv(local, dht.value))
    ensures var after := Repaired(local, rediscover, dht, target, r, now);
      after.target == target && after.nextHop != local
  {
    hide Discovery, TableInv;
    AlternativeIsOther(local, r.nextHop, r.candidates);
    if rediscover && Discovery(local, dht, target, now).Ok? {
      DiscoveredIsForeign(local, dht, target, now);
    }
  }

  /** The repair keeps the table's invariant, with and without rediscovery. */
  lemma HealedKeepsInv(
      local: NodeId, max: nat, rediscover: bool, dht: Option<Dht.Table>, routes: Routes, n: NodeId, now: int)
    requires RoutesInv(local, max, routes) && (dht.Some? ==> TableInv(local, dht.value))
    ensures var after := Healed(local, rediscover, dht, routes, n, now);
      RoutesInv(local, max, after) && n !in after
  {
    hide Repaired, TableInv;
    var after := Healed(local, rediscover, dht, routes, n, now);
    forall t | t in after
      ensures after[t].target == t && after[t].nextHop != local
    {
      RepairedIsForeign(local, rediscover, dht, t, routes[t], now);
    }
    Counting.SubsetCount(after.Keys, routes.Keys);
    assert |after| == |after.Keys| && |routes| == |routes.Keys|;
  }

  /**
   * In every run no route leads to the local node or uses it as next hop, each route is filed
   * under its own target and the table stays within its bound.
   */
  lemma {:induction false} EveryRunKeepsRoutes(local: NodeId, max: nat, states: seq<Routes>, steps: seq<Step>, k: nat)
    requires IsRun(local, max, states, steps) && max > 0 && k <= |steps|
    ensures RoutesInv(local, max, states[k])
  {
    hide Next, Healed, RoutesInv, TableInv;
    if k == 0 {
      EmptyTable(local, max);
    } else {
      EveryRunKeepsRoutes(local, max, states, steps, k - 1);
      assert Happens(local, max, states[k - 1], steps[k - 1], states[k]);
      match steps[k - 1]
      case Table(a) => ActionKeepsInv(local, max, states[k - 1], a, states[k]);
      case Offline(n, rediscover, dht, now) => HealedKeepsInv(local, max, rediscover, dht, states[k - 1], n, now);
    }
  }

  lemma EmptyTable(local: NodeId, max: nat)
    ensures RoutesInv(local, max, map[]) && AllShaped(map[])
  {
  }

  // ---------------------------------------------------------------------
  //  Hop counts
  // ---------------------------------------------------------------------

  /** A route that calls itself direct although it leads through another node. */
  predicate Mislabelled(routes: Routes, k: NodeId) {
    k in routes && routes[k].hopCount == 1 && routes[k].nextHop != k
  }

  /**
   * The LAN routes are the ones straight to the target, all others are relayed; the target is
   * not among the candidates, unless it is the next hop and the only candidate.
   */
  ghost predicate Shaped(k: NodeId, r: Route) {
    && (r.connection == Lan || r.connection == Relay)
    && (r.nextHop == k <==> r.connection == Lan)
    && (r.connection == Lan ==> r.hopCount == 1)
    && r.metric == 100 * r.hopCount + (if r.connection == Lan then 10 else 50)
    && ((forall c | c in r.candidates :: c.0 != k) || (r.nextHop == k && forall c | c in r.candidates :: c.0 == k))
  }

  ghost predicate AllShaped(routes: Routes) { forall k | k in routes :: Shaped(k, routes[k]) }

  lemma SwitchedIsShaped(local: NodeId, k: NodeId, r: Route, now: int)
    requires Shaped(k, r) && Alternative(local, r.nextHop, r.candidates).Some?
    ensures var next := Alternative(local, r.nextHop, r.candidates).value;
      next != k && Shaped(k, Switched(r, k, next, now))
  {
    AlternativeIsOther(local, r.nextHop, r.candidates);
  }

  lemma DiscoveredIsShaped(local: NodeId, dht: Option<Dht.Table>, target: NodeId, now: int)
    requires Discovery(local, dht, target, now).Ok? && (dht.Some? ==> TableInv(local, dht.value))
    ensures var r := Discovery(local, dht, target, now).value;
      Shaped(target, r) && (r.hopCount == 1 <==> r.nextHop == target)
  {
    hide TableInv, AllContacts, FindNearest;
    var t, found := dht.value, FindNearest(dht.value, target, K_BUCKET_SIZE);
    DiscoveryFailsOnlyOnEmptyTable(local, t, target, now);
    DiscoveryIsExact(local, t, target, now);
    DiscoveredRoute(local, t, target, now);
    FoundIsDistinct(local, t, target);
    TakeNearest(local, t, target, K_BUCKET_SIZE);
    forall c | c in found[1..]
      ensures c.0 != target
    {
      assert c in found;
    }
  }

  lemma RepairedIsShaped(
      local: NodeId, rediscover: bool, dht: Option<Dht.Table>, k: NodeId, r: Route, now: int)
    requires Shaped(k, r) && (dht.Some? ==> TableInv(local, dht.value))
    ensures var after := Repaired(local, rediscover, dht, k, r, now);
      && Shaped(k, after)
      && (r.nextHop != k && r.hopCount != 1 ==> after.hopCount != 1 || after.nextHop == k)
  {
    hide Discovery, TableInv, Shaped;
    if Alternative(local, r.nextHop, r.candidates).Some? {
      SwitchedIsShaped(local, k, r, now);
    } else if rediscover && Discovery(local, dht, k, now).Ok? {
      DiscoveredIsShaped(local, dht, k, now);
    } else {
      InvalidIsShaped(k, r, now - 1);
    }
  }

  lemma InvalidIsShaped(k: NodeId, r: Route, expiry: int)
    requires Shaped(k, r)
    ensures Shaped(k, r.(expiresAt := expiry))
  {
  }

  lemma DirectIsShaped(target: NodeId, addr: string, now: int)
    ensures Shaped(target, NewRoute(target, target, 1, Lan, [(target, addr)], now))
  {
  }

  /** Routes enter the table well shaped, and a repair or a switch keeps them so. */
  lemma StepKeepsShapes(local: NodeId, max: nat, routes: Routes, step: Step, after: Routes)
    requires AllShaped(routes) && Happens(local, max, routes, step, after)
    ensures AllShaped(after)
    ensures forall k :: Mislabelled(after, k) && !Mislabelled(routes, k) ==> step.Table? && step.action.Switch?
  {
    hide Discovery, Entered, Repaired, SwitchedOver, TableInv, Shaped;
    match step
    case Offline(n, rediscover, dht, now) =>
      forall k | k in after
        ensures Shaped(k, after[k]) && (Mislabelled(after, k) ==> Mislabelled(routes, k))
      {
        RepairedKeepsLabel(local, rediscover, dht, routes, n, k, now);
      }
    case Table(a) =>
      match a {
        case Discover(dht, target, now) =>
          if Discovery(local, dht, target, now).Ok? {
            DiscoveredIsShaped(local, dht, target, now);
            DiscoveredIsForeign(local, dht, target, now);
            EnteredFrom(max, routes, Discovery(local, dht, target, now).value, after);
          }
        case AddDirect(target, addr, now) =>
          if target != local {
            DirectIsShaped(target, addr, now);
            EnteredFrom(max, routes, NewRoute(target, target, 1, Lan, [(target, addr)], now), after);
          }
        case Switch(target, now) => SwitchedOverIsShaped(local, routes, target, now);
        case Invalidate(target, now) =>
          if target in routes {
            InvalidIsShaped(target, routes[target], now - 1);
          }
        case RemoveTarget(_) =>
        case Cleanup(_) =>
      }
  }

  /** A direct route to k leads through k, so only the loss of k affects it, and that removes it. */
  lemma RepairedKeepsLabel(
      local: NodeId, rediscover: bool, dht: Option<Dht.Table>, routes: Routes, n: NodeId, k: NodeId, now: int)
    requires AllShaped(routes) && (dht.Some? ==> TableInv(local, dht.value)) && k in routes && k != n
    ensures var after := Healed(local, rediscover, dht, routes, n, now);
      Shaped(k, after[k]) && (Mislabelled(after, k) ==> Mislabelled(routes, k))
  {
    hide Repaired, TableInv;
    RepairedIsShaped(local, rediscover, dht, k, routes[k], now);
  }

  lemma SwitchedOverIsShaped(local: NodeId, routes: Routes, target: NodeId, now: int)
    requires AllShaped(routes)
    ensures SwitchedOver(local, routes, target, now).Ok? ==> AllShaped(SwitchedOver(local, routes, target, now).value)
  {
    hide Shaped;
    if target in routes && Alternative(local, routes[target].nextHop, routes[target].candidates).Some? {
      SwitchedIsShaped(local, target, routes[target], now);
    }
  }

  /**
   * In every run a route leads straight to its target exactly if it has hop count 1 over the
   * LAN: a relayed route of hop count 1 leads through another node.
   */
  lemma {:induction false} DirectIff(local: NodeId, max: nat, states: seq<Routes>, steps: seq<Step>, i: nat)
    requires IsRun(local, max, states, steps) && i <= |steps|
    ensures AllShaped(states[i])
    ensures forall k | k in states[i] ::
      var r := states[i][k];
      && (r.nextHop == k <==> r.hopCount == 1 && r.connection == Lan)
      && (Mislabelled(states[i], k) <==> r.hopCount == 1 && r.connection == Relay)
  {
    hide Happens;
    if i == 0 {
      EmptyTable(local, max);
    } else {
      hide AllShaped;
      DirectIff(local, max, states, steps, i - 1);
      StepKeepsShapes(local, max, states[i - 1], steps[i - 1], states[i]);
      ShapedIsDirect(states[i]);
    }
  }

  lemma ShapedIsDirect(routes: Routes)
    requires AllShaped(routes)
    ensures forall k | k in routes ::
      var r := routes[k];
      && (r.nextHop == k <==> r.hopCount == 1 && r.connection == Lan)
      && (Mislabelled(routes, k) <==> r.hopCount == 1 && r.connection == Relay)
  {
  }

  /**
   * Along every run a route comes to call itself direct wrongly in one way only: a switch of a
   * direct route that has a spare candidate.  Neither discovery nor the loss of a node does it.
   */
  lemma MislabelledIff(local: NodeId, max: nat, states: seq<Routes>, steps: seq<Step>, i: nat, k: NodeId)
    requires IsRun(local, max, states, steps) && i < |steps| && !Mislabelled(states[i], k)
    ensures Mislabelled(states[i + 1], k) <==>
      && steps[i].Table? && steps[i].action.Switch? && steps[i].action.target == k
      && k in states[i] && states[i][k].hopCount == 1 && HasSpare(local, k, states[i][k])
  {
    hide Next, Healed, HasSpare;
    DirectIff(local, max, states, steps, i);
    assert Happens(local, max, states[i], steps[i], states[i + 1]);
    StepKeepsShapes(local, max, states[i], steps[i], states[i + 1]);
    if steps[i].Table? && steps[i].action.Switch? {
      SwitchMislabels(local, max, states[i], steps[i].action, states[i + 1], k);
    }
  }

  lemma SwitchMislabels(local: NodeId, max: nat, routes: Routes, a: Action, after: Routes, k: NodeId)
    requires a.Switch? && Next(local, max, routes, a, after) && AllShaped(routes) && !Mislabelled(routes, k)
    ensures Mislabelled(after, k) <==>
      a.target == k && k in routes && routes[k].hopCount == 1 && HasSpare(local, k, routes[k])
  {
    if a.target in routes {
      AlternativeIsOther(local, routes[a.target].nextHop, routes[a.target].candidates);
    }
  }

  /**
   * Lower metrics are better: in every run a route straight to its target is strictly better than
   * any other of one or more hops, and among the others fewer hops are.
   */
  lemma MetricOrders(local: NodeId, max: nat, states: seq<Routes>, steps: seq<Step>, i: nat, k: NodeId, l: NodeId)
    requires IsRun(local, max, states, steps) && i <= |steps| && k in states[i] && l in states[i]
    ensures var a, b := states[i][k], states[i][l];
      && (a.nextHop == k && b.nextHop != l && b.hopCount >= 1 ==> a.metric < b.metric)
      && (a.nextHop != k && b.nextHop != l ==> (a.metric < b.metric <==> a.hopCount < b.hopCount))
  {
    hide IsRun;
    DirectIff(local, max, states, steps, i);
  }

  /** A route found, entered by hand or switched at a time is active then and usable for 300 seconds. */
  lemma FreshRouteLives(
      local: NodeId, dht: Option<Dht.Table>, target: NodeId, addr: string, r: Route, hop: NodeId, now: int)
    ensures Discovery(local, dht, target, now).Ok? ==> Fresh(Discovery(local, dht, target, now).value, now)
    ensures Fresh(NewRoute(target, target, 1, Lan, [(target, addr)], now), now)
    ensures Fresh(Switched(r, target, hop, now), now) && Switched(r, target, hop, now).candidates == r.candidates
  {
    hide FindNearest;
  }

  /** Active now, and usable for the 300 seconds from now on. */
  ghost predicate Fresh(r: Route, now: int) {
    r.lastActive == now && forall at :: !Expired(r, at) <==> at < now + 300
  }

  /**
   * It takes two operations: a target that is known together with another node is discovered as
   * direct, and a switch then leads through the other node with hop count 1 still.
   */
  lemma DirectThenSwitched(local: NodeId, t: Dht.Table, target: NodeId, now: int)
    requires TableInv(local, t) && target != local && exists c :: c in AllContacts(t) && c.0 == target
    ensures Discovery(local, Some(t), target, now).Ok?
    ensures var r := Discovery(local, Some(t), target, now).value;
      && r.hopCount == 1 && r.nextHop == target
      && var switched := SwitchedOver(local, map[target := r], target, now);
      && (switched.Ok? <==> |AllContacts(t)| >= 2)
      && (switched.Ok? ==> Mislabelled(switched.value, target))
  {
    hide TableInv, AllContacts, FindNearest;
    DiscoveryIsExact(local, t, target, now);
    DiscoveredRoute(local, t, target, now);
    DiscoveredIsShaped(local, Some(t), target, now);
    var r, found := Discovery(local, Some(t), target, now).value, FindNearest(t, target, K_BUCKET_SIZE);
    FoundIsDistinct(local, t, target);
    TakeNearest(local, t, target, K_BUCKET_SIZE);
    AlternativeIsOther(local, target, r.candidates);
    if |AllContacts(t)| >= 2 {
      assert |found| >= 2 && found[1] in found;
      assert r.candidates[0] == found[1];
      ContactsAreDistinct(local, t);
    }
  }
}
