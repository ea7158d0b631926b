/** The routes to one destination: a table by transport and which of the routes are active. */
module RouteSelector {
  type Transport = nat
  type TransferPath = nat
  type Route = nat

  type Table = map<Transport, seq<Route>>

  function WithRoutes(table: Table, transport: Transport, routes: seq<Route>): Table {
    if routes == [] then table - {transport} else table[transport := routes]
  }

  /** A transport is in the table with its routes, and without any it is not; the others stay as they are. */
  lemma WithRoutesIsExact(table: Table, transport: Transport, routes: seq<Route>)
    ensures var next := WithRoutes(table, transport, routes);
            && (transport in next <==> routes != []) && RoutesOf(next, transport) == routes
            && (forall t | t != transport :: (t in next <==> t in table) && RoutesOf(next, t) == RoutesOf(table, t))
  {
  }

  function RoutesOf(table: Table, transport: Transport): seq<Route> {
    if transport in table then table[transport] else []
  }

  ghost function TableRoutes(table: Table): set<Route> {
    set t, r | t in table && r in table[t] :: r
  }

  /** No route belongs to two transports. */
  ghost predicate Disjoint(table: Table) {
    forall a <- table, b <- table, r: Route | a != b && r in table[a] :: r !in table[b]
  }

  predicate SameAt(before: map<Route, bool>, after: map<Route, bool>, r: Route) {
    (r in after <==> r in before) && (r in after ==> after[r] == before[r])
  }

  /** Routes that are gone are forgotten, new ones are active, the others stay as they are. */
  ghost predicate ActiveAfter(
      before: map<Route, bool>, after: map<Route, bool>, current: seq<Route>, routes: seq<Route>) {
    forall r: Route ::
      && (r in current && r !in routes ==> r !in after)
      && (r !in current && r in routes ==> r in after && after[r])
      && ((r in current <==> r in routes) ==> SameAt(before, after, r))
  }

  /** No route that the transport gives up is a route of another transport. */
  ghost predicate LosesNoneOfOthers(table: Table, transport: Transport, routes: seq<Route>) {
    forall r <- RoutesOf(table, transport) | r !in routes :: r !in TableRoutes(table - {transport})
  }

  /** The known routes stay exactly those of the table if and only if nobody else has what is given up. */
  lemma ActiveKeys(
      before: map<Route, bool>, after: map<Route, bool>, table: Table, transport: Transport, routes: seq<Route>)
    requires before.Keys == TableRoutes(table) && ActiveAfter(before, after, RoutesOf(table, transport), routes)
    ensures after.Keys == TableRoutes(WithRoutes(table, transport, routes))
            <==> LosesNoneOfOthers(table, transport, routes)
  {
    var next, current := WithRoutes(table, transport, routes), RoutesOf(table, transport);
    forall r: Route | r !in current || r in routes ensures r in after <==> r in TableRoutes(next) {
      if r in routes {
        assert r in next[transport];
        assert r in current ==> r in before;
      } else {
        OtherRoutes(table, transport, routes, r);
      }
    }
    forall r | r in current && r !in routes
      ensures r !in after && (r in TableRoutes(next) <==> r in TableRoutes(table - {transport}))
    {
      GivenUp(table, transport, routes, r);
    }
  }

  /** A route that the transport gives up stays in the table only with another transport. */
  lemma GivenUp(table: Table, transport: Transport, routes: seq<Route>, r: Route)
    requires r !in routes
    ensures r in TableRoutes(WithRoutes(table, transport, routes)) <==> r in TableRoutes(table - {transport})
  {
    var next, others := WithRoutes(table, transport, routes), table - {transport};
    if r in TableRoutes(next) {
      var t :| t in next && r in next[t];
      assert t in others && r in others[t];
    }
    if r in TableRoutes(others) {
      var t :| t in others && r in others[t];
      assert t in next && r in next[t];
    }
  }

  /** Disjoint routes are enough. */
  lemma DisjointLosesNone(table: Table, transport: Transport, routes: seq<Route>)
    requires Disjoint(table)
    ensures LosesNoneOfOthers(table, transport, routes)
  {
  }

  lemma OtherRoutes(table: Table, transport: Transport, routes: seq<Route>, r: Route)
    requires r !in routes && r !in RoutesOf(table, transport)
    ensures r in TableRoutes(table) <==> r in TableRoutes(WithRoutes(table, transport, routes))
  {
    var next := WithRoutes(table, transport, routes);
    if r in TableRoutes(table) {
      var t :| t in table && r in table[t];
      assert t in next && r in next[t];
    }
    if r in TableRoutes(next) {
      var t :| t in next && r in next[t];
      assert t in table && r in table[t];
    }
  }

  class MultiRouteSelector {
    const destination: TransferPath
    var transportRoutes: Table
    var routeActive: map<Route, bool>

    /** Exactly the routes of the table are known. */
    ghost predicate ActiveOk()
      reads this
    {
      routeActive.Keys == TableRoutes(transportRoutes)
    }

    constructor (destination: TransferPath)
      ensures this.destination == destination && transportRoutes == map[] && routeActive == map[] && ActiveOk()
    {
      this.destination := destination;
      transportRoutes, routeActive := map[], map[];
    }

    method UpdateTransport(transport: Transport, routes: seq<Route>)
      modifies this
      ensures transportRoutes == WithRoutes(old(transportRoutes), transport, routes)
      ensures ActiveAfter(old(routeActive), routeActive, RoutesOf(old(transportRoutes), transport), routes)
      ensures old(ActiveOk()) ==> (ActiveOk() <==> LosesNoneOfOthers(old(transportRoutes), transport, routes))
    {
      if |routes| == 0 && transport !in transportRoutes {
        assert transportRoutes - {transport} == transportRoutes;
      } else {
        var current := RoutesOf(transportRoutes, transport);
        Forget(current, routes);
        Activate(current, routes);
        transportRoutes := WithRoutes(transportRoutes, transport, routes);
      }
      if old(ActiveOk()) {
        ActiveKeys(old(routeActive), routeActive, old(transportRoutes), transport, routes);
      }
    }

    method Forget(current: seq<Route>, routes: seq<Route>)
      modifies `routeActive
      ensures forall r: Route :: if r in current && r !in routes then r !in routeActive
                else SameAt(old(routeActive), routeActive, r)
    {
      for i := 0 to |current|
        invariant forall r: Route :: if r in current[..i] && r !in routes then r !in routeActive
                    else SameAt(old(routeActive), routeActive, r)
      {
        if current[i] !in routes {
          routeActive := routeActive - {current[i]};
        }
        assert current[..i + 1] == current[..i] + [current[i]];
      }
      assert current[..|current|] == current;
    }

    method Activate(current: seq<Route>, routes: seq<Route>)
      modifies `routeActive
      ensures forall r: Route :: if r in routes && r !in current then r in routeActive && routeActive[r]
                else SameAt(old(routeActive), routeActive, r)
    {
      for i := 0 to |routes|
        invariant forall r: Route :: if r in routes[..i] && r !in current then r in routeActive && routeActive[r]
                    else SameAt(old(routeActive), routeActive, r)
      {
        if routes[i] !in current {
          routeActive := routeActive[routes[i] := true];
        }
        assert routes[..i + 1] == routes[..i] + [routes[i]];
      }
      assert routes[..|routes|] == routes;
    }

    /** A known route gets the state it is told if and only if that is to be inactive. */
    method SetActive(route: Route, active: bool)
      modifies `routeActive
      ensures routeActive.Keys == old(routeActive.Keys)
      ensures route in routeActive ==> (routeActive[route] == active <==> !active)
      ensures forall r: Route | r != route :: SameAt(old(routeActive), routeActive, r)
    {
      if route in routeActive {
        routeActive := routeActive[route := false];
      }
    }
  }

  /** With a route shared by two transports, removing one hides the route of the other. */
  method SharedRouteIsLost(a: Transport, b: Transport, route: Route) returns (s: MultiRouteSelector)
    requires a != b
    ensures s.transportRoutes == map[b := [route]] && route !in s.routeActive
  {
    s := new MultiRouteSelector(0);
    s.UpdateTransport(a, [route]);
    s.UpdateTransport(b, [route]);
    s.UpdateTransport(a, []);
    assert s.transportRoutes == map[b := [route]];
  }
}
