/**
 * The multi-hop route table (src/vpn/multihop.rs): discovery through the DHT, eviction,
 * invalidation and fail-over to a remembered candidate.  The clock is a parameter.
 */
module Multihop {
  import opened Wrappers
  import opened Identity
  import opened XorMetric
  import opened Dht
  import Counting
  import StableSort

  const ROUTE_TIMEOUT: int := 300
  const CLEANUP_INTERVAL: int := 60
  const MAX_CANDIDATES: nat := 10
  const METRIC_PER_HOP: nat := 100

  datatype Connection = Relay | Lan | Vpn | Unknown

  datatype Route = Route(
    target: NodeId,
    nextHop: NodeId,
    hopCount: nat,
    metric: nat,
    connection: Connection,
    lastActive: int,
    expiresAt: int,
    candidates: seq<Contact>)

  type Routes = map<NodeId, Route>

  datatype RouterError = RouteToSelf | DhtNotBound | NoRoute(target: NodeId)

  function Metric(hops: nat, c: Connection): nat {
    hops * METRIC_PER_HOP + (match c case Relay => 50 case Lan => 10 case Vpn => 10 case Unknown => 999)
  }

  function NewRoute(
    target: NodeId, nextHop: NodeId, hops: nat, c: Connection, candidates: seq<Contact>, now: int): Route {
    Route(target, nextHop, hops, Metric(hops, c), c, now, now + ROUTE_TIMEOUT, candidates)
  }

  predicate Expired(r: Route, now: int) { now >= r.expiresAt }

  // ---------------------------------------------------------------------
  //  Operations on the table
  // ---------------------------------------------------------------------

  function ShortKey(target: NodeId): Contact -> nat {
    (c: Contact) => ShortDistance(c.0, target)
  }

  function Without(s: seq<Contact>, id: NodeId): seq<Contact> {
    if s == [] then [] else (if s[0].0 == id then [] else [s[0]]) + Without(s[1..], id)
  }

  /** The route made of the contacts the DHT returned, if it returned any. */
  function RouteFrom(target: NodeId, found: seq<Contact>, now: int): Option<Route> {
    var sorted := StableSort.Sort(found, ShortKey(target));
    if sorted == [] then None
    else
      var next := sorted[0].0;
      var spare := Take(Without(sorted[1..], next), MAX_CANDIDATES);
      Some(if next == target then NewRoute(target, next, 1, Lan, spare, now)
           else NewRoute(target, next, 2, Relay, spare, now))
  }

  /** The outcome of a discovery with the given DHT table, if one is bound. */
  function Discovery(local: NodeId, dht: Option<Table>, target: NodeId, now: int): Result<Route, RouterError> {
    if target == local then Err(RouteToSelf)
    else if dht == None then Err(DhtNotBound)
    else
      match RouteFrom(target, FindNearest(dht.value, target, K_BUCKET_SIZE), now)
      case Some(r) => Ok(r)
      case None => Err(NoRoute(target))
  }

  /** The first remembered candidate other than the failed hop and the local node. */
  function Alternative(local: NodeId, failed: NodeId, s: seq<Contact>): Option<NodeId> {
    if s == [] then None
    else if s[0].0 != failed && s[0].0 != local then Some(s[0].0)
    else Alternative(local, failed, s[1..])
  }

  function Switched(r: Route, target: NodeId, next: NodeId, now: int): Route {
    Route(target, next, r.hopCount, Metric(r.hopCount, Relay), Relay, now, now + ROUTE_TIMEOUT, r.candidates)
  }

  function MarkedInvalid(routes: Routes, target: NodeId, now: int): Routes {
    if target in routes then routes[target := routes[target].(expiresAt := now - 1)] else routes
  }

  function SwitchedOver(local: NodeId, routes: Routes, target: NodeId, now: int): Result<Routes, RouterError> {
    if target !in routes then Err(NoRoute(target))
    else
      match Alternative(local, routes[target].nextHop, routes[target].candidates)
      case Some(next) => Ok(routes[target := Switched(routes[target], target, next, now)])
      case None => Err(NoRoute(target))
  }

  /** In a full table a least recently active entry makes room; ties are broken arbitrarily. */
  ghost predicate Entered(routes: Routes, maxEntries: nat, r: Route, after: Routes) {
    if r.target in routes || |routes| < maxEntries then after == routes[r.target := r]
    else if routes == map[] then after == map[r.target := r]
    else
      exists oldest :: oldest in routes
        && (forall k | k in routes :: routes[oldest].lastActive <= routes[k].lastActive)
        && after == (routes - {oldest})[r.target := r]
  }

  function Unexpired(routes: Routes, now: int): Routes {
    map k | k in routes && !Expired(routes[k], now) :: routes[k]
  }

  class MultihopManager {
    const localId: NodeId
    const maxEntries: nat
    const dht: DhtManager?
    var routes: Routes
    var lastCleanup: int

    ghost predicate Valid()
      reads this, dht, if dht != null then {dht.buckets} else {}, if dht != null then dht.buckets[..] else []
    {
      dht != null ==> dht.Valid()
    }

    ghost function DhtState(): Option<Table>
      requires Valid()
      reads this, dht, if dht != null then {dht.buckets} else {}, if dht != null then dht.buckets[..] else []
    {
      if dht == null then None else Some(dht.State())
    }

    constructor (localId: NodeId, maxEntries: nat, dht: DhtManager?, now: int)
      requires dht != null ==> dht.Valid()
      ensures Valid() && routes == map[] && this.localId == localId && this.maxEntries == maxEntries && this.dht == dht
    {
      this.localId, this.maxEntries, this.dht, routes, lastCleanup := localId, maxEntries, dht, map[], now;
    }

    method InsertOrEvict(r: Route)
      modifies this`routes
      ensures Entered(old(routes), maxEntries, r, routes)
    {
      if r.target in routes {
        routes := routes[r.target := r];
        return;
      }
      if |routes| < maxEntries {
        routes := routes[r.target := r];
        return;
      }
      if routes != map[] {
        var oldest := FindOldest();
        routes := routes - {oldest};
      }
      routes := routes[r.target := r];
    }

    method FindOldest() returns (oldest: NodeId)
      requires routes != map[]
      ensures oldest in routes && forall k | k in routes :: routes[oldest].lastActive <= routes[k].lastActive
    {
      var rest := routes.Keys;
      oldest :| oldest in rest;
      while rest != {}
        invariant rest <= routes.Keys && oldest in routes
        invariant forall k | k in routes && k !in rest :: routes[oldest].lastActive <= routes[k].lastActive
        decreases rest
      {
        var k :| k in rest;
        if routes[k].lastActive < routes[oldest].lastActive {
          oldest := k;
        }
        rest := rest - {k};
      }
    }

    method DiscoverRoute(target: NodeId, now: int) returns (r: Result<(), RouterError>)
      requires Valid()
      modifies this`routes
      ensures Valid() && DhtState() == old(DhtState())
      ensures match Discovery(localId, DhtState(), target, now)
        case Ok(route) => r == Ok(()) && Entered(old(routes), maxEntries, route, routes)
        case Err(e) => r == Err(e) && routes == old(routes)
      ensures r == Err(RouteToSelf) <==> target == localId
      ensures r == Err(DhtNotBound) <==> target != localId && dht == null
    {
      if target == localId {
        return Err(RouteToSelf);
      }
      if dht == null {
        return Err(DhtNotBound);
      }
      var candidates := dht.Nearest(target, K_BUCKET_SIZE);
      StableSort.SortLength(candidates, ShortKey(target));
      if |candidates| == 0 {
        return Err(NoRoute(target));
      }
      var sorted := StableSort.Sort(candidates, ShortKey(target));
      var next := sorted[0].0;
      var hops, connection := 2, Relay;
      if next == target {
        hops, connection := 1, Lan;
      }
      var spare := Take(Without(sorted[1..], next), MAX_CANDIDATES);
      var route := NewRoute(target, next, hops, connection, spare, now);
      assert Discovery(localId, DhtState(), target, now) == Ok(route);
      InsertOrEvict(route);
      return Ok(());
    }

    method AddDirectRoute(target: NodeId, addr: string, now: int)
      modifies this`routes
      ensures target == localId ==> routes == old(routes)
      ensures target != localId ==>
        Entered(old(routes), maxEntries, NewRoute(target, target, 1, Lan, [(target, addr)], now), routes)
    {
      if target == localId {
        return;
      }
      InsertOrEvict(NewRoute(target, target, 1, Lan, [(target, addr)], now));
    }

    method FindRoute(target: NodeId, now: int) returns (r: Option<Route>)
      ensures r == if target in routes && now < routes[target].expiresAt then Some(routes[target]) else None
    {
      if target in routes && !Expired(routes[target], now) {
        return Some(routes[target]);
      }
      return None;
    }

    method RemoveRoute(target: NodeId) returns (r: Option<Route>)
      modifies this`routes
      ensures routes == old(routes) - {target}
      ensures r == if target in old(routes) then Some(old(routes)[target]) else None
    {
      r := if target in routes then Some(routes[target]) else None;
      routes := routes - {target};
    }

    method MarkInvalid(target: NodeId, now: int)
      modifies this`routes
      ensures routes == MarkedInvalid(old(routes), target, now)
      ensures routes.Keys == old(routes).Keys && forall t | t in routes && t != target :: routes[t] == old(routes)[t]
      ensures target in routes ==>
        now >= routes[target].expiresAt && old(routes)[target].(expiresAt := routes[target].expiresAt) == routes[target]
    {
      if target in routes {
        routes := routes[target := routes[target].(expiresAt := now - 1)];
      }
    }

    method FindAlternative(target: NodeId, now: int) returns (r: Result<(), RouterError>)
      modifies this`routes
      ensures match SwitchedOver(localId, old(routes), target, now)
        case Ok(after) => r == Ok(()) && routes == after
        case Err(e) => r == Err(e) && routes == old(routes)
    {
      if target !in routes {
        return Err(NoRoute(target));
      }
      var entry := routes[target];
      ghost var wanted := Alternative(localId, entry.nextHop, entry.candidates);
      for i := 0 to |entry.candidates|
        invariant wanted == Alternative(localId, entry.nextHop, entry.candidates[i..])
      {
        var id := entry.candidates[i].0;
        if id != entry.nextHop && id != localId {
          routes := routes[target := Switched(entry, target, id, now)];
          return Ok(());
        }
        assert entry.candidates[i..][1..] == entry.candidates[i + 1..];
      }
      return Err(NoRoute(target));
    }

    method RoutesByNextHop(next: NodeId) returns (targets: seq<NodeId>)
      ensures forall t :: t in targets <==> t in routes && routes[t].nextHop == next
      ensures forall i, j | 0 <= i < j < |targets| :: targets[i] != targets[j]
    {
      targets := [];
      var rest := routes.Keys;
      while rest != {}
        invariant rest <= routes.Keys
        invariant forall t :: t in targets <==> t in routes && t !in rest && routes[t].nextHop == next
        invariant forall i, j | 0 <= i < j < |targets| :: targets[i] != targets[j]
        decreases rest
      {
        var t :| t in rest;
        if routes[t].nextHop == next {
          targets := targets + [t];
        }
        rest := rest - {t};
      }
    }

    method CleanupExpired(now: int) returns (removed: nat)
      modifies this`routes, this`lastCleanup
      ensures var due := now - old(lastCleanup) >= CLEANUP_INTERVAL;
        && routes == (if due then Unexpired(old(routes), now) else old(routes))
        && lastCleanup == (if due then now else old(lastCleanup))
        && removed == |old(routes)| - |routes|
        && (forall t :: t in routes <==> t in old(routes) && (due ==> now < old(routes)[t].expiresAt))
        && forall t | t in routes :: routes[t] == old(routes)[t]
    {
      if now - lastCleanup < CLEANUP_INTERVAL {
        return 0;
      }
      lastCleanup := now;
      var kept := map k | k in routes && !Expired(routes[k], now) :: routes[k];
      assert kept.Keys <= routes.Keys;
      UnexpiredCount(routes, now);
      removed := |routes| - |kept|;
      routes := kept;
    }
  }

  lemma UnexpiredCount(routes: Routes, now: int)
    ensures |Unexpired(routes, now)| <= |routes|
  {
    var kept := Unexpired(routes, now);
    Counting.SubsetCount(kept.Keys, routes.Keys);
  }
}
