/** Route discovery is exact, and what every operation on the route table keeps (src/vpn/multihop.rs). */
module MultihopRuns {
  import opened Wrappers
  import opened Identity
  import opened XorMetric
  import opened Dht
  import opened DhtNearest
  import opened Multihop
  import Counting
  import StableSort

  // ---------------------------------------------------------------------
  //  Discovery
  // ---------------------------------------------------------------------

  /** Re-sorting the DHT's answer by truncated distance leaves it as it is. */
  lemma ResortIsIdentity(local: NodeId, t: Table, target: NodeId, count: nat)
    requires TableInv(local, t)
    ensures var found := FindNearest(t, target, count);
      StableSort.Sort(found, ShortKey(target)) == found
  {
    var found := FindNearest(t, target, count);
    TakeNearest(local, t, target, count);
    forall i, j | 0 <= i < j < |found|
      ensures ShortKey(target)(found[i]) <= ShortKey(target)(found[j])
    {
      ShortDistanceIsMonotone(found[i].0, found[j].0, target);
    }
    StableSort.SortedIsFixed(found, ShortKey(target));
  }

  lemma {:induction false} WithoutAbsent(s: seq<Contact>, id: NodeId)
    requires forall c | c in s :: c.0 != id
    ensures Without(s, id) == s
  {
    if s != [] {
      assert s[0] in s;
      WithoutAbsent(s[1..], id);
    }
  }

  /**
   * With any known contact, discovery succeeds: the next hop is a known node, every other
   * known node is strictly farther from the target in all 256 bits, the route is direct
   * exactly when the target itself is known, and the spare candidates are the next nearest.
   */
  lemma DiscoveryIsExact(local: NodeId, t: Table, target: NodeId, now: int)
    requires TableInv(local, t) && target != local && AllContacts(t) != []
    ensures Discovery(local, Some(t), target, now).Ok?
    ensures var r, all := Discovery(local, Some(t), target, now).value, AllContacts(t);
      && r.target == target && r.nextHop != local && !Expired(r, now)
      && (exists c :: c in all && c.0 == r.nextHop)
      && (forall c | c in all && c.0 != r.nextHop :: Distance(target, r.nextHop) < Distance(target, c.0))
      && (r.hopCount == 1 <==> exists c :: c in all && c.0 == target)
      && r.candidates == Take(FindNearest(t, target, K_BUCKET_SIZE)[1..], MAX_CANDIDATES)
  {
    var all, found := AllContacts(t), FindNearest(t, target, K_BUCKET_SIZE);
    TakeNearest(local, t, target, K_BUCKET_SIZE);
    ContactsAreDistinct(local, t);
    DiscoveredRoute(local, t, target, now);
    NextIsNearest(t, target, found);
    assert found[0] in all;
    DistanceZero(target, target);
    DistanceZero(target, found[0].0);
  }

  /** The discovered route, read off the DHT's answer. */
  lemma DiscoveredRoute(local: NodeId, t: Table, target: NodeId, now: int)
    requires TableInv(local, t) && target != local && AllContacts(t) != []
    ensures var found := FindNearest(t, target, K_BUCKET_SIZE);
      && found != []
      && var next := found[0].0;
      Discovery(local, Some(t), target, now) == Ok(NewRoute(
        target, next, if next == target then 1 else 2, if next == target then Lan else Relay,
        Take(found[1..], MAX_CANDIDATES), now))
  {
    hide TableInv, AllContacts, FindNearest, Metric;
    var found := FindNearest(t, target, K_BUCKET_SIZE);
    FoundIsDistinct(local, t, target);
    ResortIsIdentity(local, t, target, K_BUCKET_SIZE);
    WithoutAbsent(found[1..], found[0].0);
  }

  /** The nearest contact is found once. */
  lemma FoundIsDistinct(local: NodeId, t: Table, target: NodeId)
    requires TableInv(local, t) && AllContacts(t) != []
    ensures var found := FindNearest(t, target, K_BUCKET_SIZE);
      found != [] && forall c | c in found[1..] :: c.0 != found[0].0
  {
    hide TableInv, AllContacts, Distance, FindNearest;
    var found := FindNearest(t, target, K_BUCKET_SIZE);
    TakeNearest(local, t, target, K_BUCKET_SIZE);
    forall c | c in found[1..]
      ensures c.0 != found[0].0
    {
      var i :| 0 <= i < |found[1..]| && found[1..][i] == c;
      assert found[i + 1] == c;
    }
  }

  lemma NextIsNearest(t: Table, target: NodeId, found: seq<Contact>)
    requires found != [] && DistinctIds(AllContacts(t)) && found[0] in AllContacts(t)
    requires forall i, j | 0 <= i < j < |found| :: Distance(target, found[i].0) < Distance(target, found[j].0)
    requires forall c, d | c in AllContacts(t) && c !in found && d in found ::
      Distance(target, d.0) < Distance(target, c.0)
    ensures forall c | c in AllContacts(t) && c.0 != found[0].0 :: Distance(target, found[0].0) < Distance(target, c.0)
  {
    forall c | c in AllContacts(t) && c.0 != found[0].0
      ensures Distance(target, found[0].0) < Distance(target, c.0)
    {
      if c in found {
        var j :| 0 <= j < |found| && found[j] == c;
      }
    }
  }

  /** Discovery finds nothing exactly when the table is empty. */
  lemma DiscoveryFailsOnlyOnEmptyTable(local: NodeId, t: Table, target: NodeId, now: int)
    requires TableInv(local, t) && target != local
    ensures Discovery(local, Some(t), target, now) == Err(NoRoute(target)) <==> AllContacts(t) == []
  {
    if AllContacts(t) != [] {
      DiscoveryIsExact(local, t, target, now);
    }
  }

  // ---------------------------------------------------------------------
  //  Operations
  // ---------------------------------------------------------------------

  datatype Action =
    | Discover(dht: Option<Table>, target: NodeId, now: int)
    | AddDirect(target: NodeId, addr: string, now: int)
    | RemoveTarget(target: NodeId)
    | Invalidate(target: NodeId, now: int)
    | Switch(target: NodeId, now: int)
    | Cleanup(now: int)

  ghost predicate Next(local: NodeId, max: nat, routes: Routes, a: Action, after: Routes) {
    match a
    case Discover(dht, target, now) =>
      (match Discovery(local, dht, target, now)
       case Ok(r) => Entered(routes, max, r, after)
       case Err(_) => after == routes)
    case AddDirect(target, addr, now) =>
      if target == local then after == routes
      else Entered(routes, max, NewRoute(target, target, 1, Lan, [(target, addr)], now), after)
    case RemoveTarget(target) => after == routes - {target}
    case Invalidate(target, now) => after == MarkedInvalid(routes, target, now)
    case Switch(target, now) =>
      (match SwitchedOver(local, routes, target, now) case Ok(r) => after == r case Err(_) => after == routes)
    case Cleanup(now) => after == routes || after == Unexpired(routes, now)
  }

  /** The DHT a discovery consults is the table of the same local node. */
  ghost predicate OneLocalId(local: NodeId, a: Action) {
    a.Discover? && a.dht.Some? ==> TableInv(local, a.dht.value)
  }

  ghost predicate RoutesInv(local: NodeId, max: nat, routes: Routes) {
    && (forall k | k in routes :: k != local && routes[k].target == k && routes[k].nextHop != local)
    && |routes| <= max
  }

  lemma PutBound(routes: Routes, r: Route)
    ensures |routes[r.target := r]| <= |routes| + 1
  {
    var after := routes[r.target := r];
    assert after.Keys == routes.Keys + {r.target};
    assert |after| == |after.Keys|;
  }

  lemma EnteredBound(max: nat, routes: Routes, r: Route, after: Routes)
    requires |routes| <= max && max > 0 && Entered(routes, max, r, after)
    ensures |after| <= max
  {
    if r.target in routes {
      assert after.Keys == routes.Keys;
      assert |after| == |after.Keys| && |routes| == |routes.Keys|;
    } else if |routes| < max {
      PutBound(routes, r);
    } else {
      var oldest :| oldest in routes && after == (routes - {oldest})[r.target := r];
      var rest := routes - {oldest};
      assert rest.Keys == routes.Keys - {oldest};
      assert |rest| == |rest.Keys| == |routes.Keys| - 1;
      PutBound(rest, r);
    }
  }

  lemma EnteredKeepsInv(local: NodeId, max: nat, routes: Routes, r: Route, after: Routes)
    requires RoutesInv(local, max, routes) && max > 0 && r.nextHop != local && r.target != local
    requires Entered(routes, max, r, after)
    ensures RoutesInv(local, max, after)
  {
    hide Entered;
    EnteredBound(max, routes, r, after);
    EnteredFrom(max, routes, r, after);
  }

  lemma EnteredFrom(max: nat, routes: Routes, r: Route, after: Routes)
    requires Entered(routes, max, r, after)
    ensures forall k | k in after :: (after[k] == r && k == r.target) || (k in routes && after[k] == routes[k])
  {
  }

  /** A remembered candidate other than a given hop and the local node. */
  ghost predicate HasSpare(local: NodeId, n: NodeId, r: Route) {
    exists c :: c in r.candidates && c.0 != n && c.0 != local
  }

  /** Candidate k is the first that is neither the failed hop nor the local node. */
  ghost predicate SpareAt(local: NodeId, failed: NodeId, s: seq<Contact>, k: nat) {
    && k < |s| && s[k].0 != failed && s[k].0 != local
    && forall j: nat | j < k :: s[j].0 == failed || s[j].0 == local
  }

  ghost predicate FirstSpare(local: NodeId, failed: NodeId, s: seq<Contact>, hop: NodeId) {
    exists k: nat :: SpareAt(local, failed, s, k) && s[k].0 == hop
  }

  lemma {:induction false} AlternativeIsOther(local: NodeId, failed: NodeId, s: seq<Contact>)
    ensures Alternative(local, failed, s).Some? <==> exists c :: c in s && c.0 != failed && c.0 != local
    ensures Alternative(local, failed, s).Some? ==>
      var x := Alternative(local, failed, s).value;
      x != failed && x != local && (exists c :: c in s && c.0 == x) && FirstSpare(local, failed, s, x)
  {
    if s != [] {
      AlternativeIsOther(local, failed, s[1..]);
      assert s == [s[0]] + s[1..];
      if s[0].0 != failed && s[0].0 != local {
        assert SpareAt(local, failed, s, 0);
      } else if Alternative(local, failed, s).Some? {
        var k: nat :| SpareAt(local, failed, s[1..], k) && s[1..][k].0 == Alternative(local, failed, s).value;
        assert forall j: nat | 0 < j < k + 1 :: s[j] == s[1..][j - 1];
        assert SpareAt(local, failed, s, k + 1);
      }
    }
  }

  lemma DiscoveredIsForeign(local: NodeId, dht: Option<Table>, target: NodeId, now: int)
    requires Discovery(local, dht, target, now).Ok? && (dht.Some? ==> TableInv(local, dht.value))
    ensures var r := Discovery(local, dht, target, now).value; r.target == target != local && r.nextHop != local
  {
    DiscoveryFailsOnlyOnEmptyTable(local, dht.value, target, now);
    DiscoveryIsExact(local, dht.value, target, now);
  }

  lemma SwitchKeepsInv(local: NodeId, max: nat, routes: Routes, target: NodeId, now: int)
    requires RoutesInv(local, max, routes)
    ensures SwitchedOver(local, routes, target, now).Ok? ==>
      RoutesInv(local, max, SwitchedOver(local, routes, target, now).value)
  {
    if target in routes {
      AlternativeIsOther(local, routes[target].nextHop, routes[target].candidates);
      if SwitchedOver(local, routes, target, now).Ok? {
        assert SwitchedOver(local, routes, target, now).value.Keys == routes.Keys;
      }
    }
  }

  lemma DiscoverKeepsInv(
      local: NodeId, max: nat, routes: Routes, dht: Option<Table>, target: NodeId, now: int, after: Routes)
    requires RoutesInv(local, max, routes) && max > 0 && OneLocalId(local, Discover(dht, target, now))
    requires Next(local, max, routes, Discover(dht, target, now), after)
    ensures RoutesInv(local, max, after)
  {
    hide Discovery, Entered, TableInv, RoutesInv;
    if Discovery(local, dht, target, now).Ok? {
      DiscoveredIsForeign(local, dht, target, now);
      EnteredKeepsInv(local, max, routes, Discovery(local, dht, target, now).value, after);
    }
  }

  lemma AddDirectKeepsInv(
      local: NodeId, max: nat, routes: Routes, target: NodeId, addr: string, now: int, after: Routes)
    requires RoutesInv(local, max, routes) && max > 0
    requires Next(local, max, routes, AddDirect(target, addr, now), after)
    ensures RoutesInv(local, max, after)
  {
    hide Entered, RoutesInv;
    if target != local {
      EnteredKeepsInv(local, max, routes, NewRoute(target, target, 1, Lan, [(target, addr)], now), after);
    }
  }

  /** Fewer routes, or routes whose targets and hops are the same. */
  lemma KeptRoutes(local: NodeId, max: nat, routes: Routes, after: Routes)
    requires RoutesInv(local, max, routes) && after.Keys <= routes.Keys
    requires forall k | k in after :: after[k].target == routes[k].target && after[k].nextHop == routes[k].nextHop
    ensures RoutesInv(local, max, after)
  {
    Counting.SubsetCount(after.Keys, routes.Keys);
    assert |after| == |after.Keys| && |routes| == |routes.Keys|;
  }

  lemma ActionKeepsInv(local: NodeId, max: nat, routes: Routes, a: Action, after: Routes)
    requires RoutesInv(local, max, routes) && max > 0 && OneLocalId(local, a) && Next(local, max, routes, a, after)
    ensures RoutesInv(local, max, after)
  {
    hide Discovery, Entered, SwitchedOver, TableInv, RoutesInv;
    match a
    case Discover(dht, target, now) =>
      DiscoverKeepsInv(local, max, routes, dht, target, now, after);
    case AddDirect(target, addr, now) =>
      AddDirectKeepsInv(local, max, routes, target, addr, now, after);
    case Switch(target, now) =>
      SwitchKeepsInv(local, max, routes, target, now);
    case Invalidate(_, _) =>
      KeptRoutes(local, max, routes, after);
    case RemoveTarget(_) =>
      KeptRoutes(local, max, routes, after);
    case Cleanup(_) =>
      KeptRoutes(local, max, routes, after);
  }
}
