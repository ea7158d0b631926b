/** Which transports serve which destinations: an index of the open selectors and the registered transports. */
module RouteMatch {
  import opened RouteSelector

  class MatchState {
    var transportRoutes: Table
    var destinationMultiRouteSelectors: map<TransferPath, set<MultiRouteSelector>>
    var transportMatchedDestinations: map<Transport, set<TransferPath>>

    /** The selectors that are open. */
    ghost var open: set<MultiRouteSelector>

    /** The selectors of a destination are the open ones with that destination. */
    ghost predicate SelectorsOk()
      reads this
    {
      && (forall s <- open ::
            s.destination in destinationMultiRouteSelectors && s in destinationMultiRouteSelectors[s.destination])
      && (forall d <- destinationMultiRouteSelectors, s <- destinationMultiRouteSelectors[d] ::
            s in open && s.destination == d)
    }

    ghost predicate KeysOk()
      reads this
    {
      && transportMatchedDestinations.Keys == transportRoutes.Keys
      && forall t <- transportRoutes :: transportRoutes[t] != []
    }

    /** What a selector has is registered, with the current routes, and can be found to be removed. */
    ghost predicate SelectorOk(s: MultiRouteSelector)
      reads this, s
    {
      forall t <- s.transportRoutes ::
        && t in transportRoutes && s.transportRoutes[t] == transportRoutes[t]
        && t in transportMatchedDestinations && s.destination in transportMatchedDestinations[t]
    }

    ghost predicate Valid()
      reads this, open
    {
      SelectorsOk() && KeysOk() && forall s <- open :: SelectorOk(s)
    }

    /** The plain definition: a selector has the registered transports that match its destination. */
    ghost predicate ExactFor(s: MultiRouteSelector, matches: (Transport, TransferPath) -> bool)
      reads this, s
    {
      IsExact(s.transportRoutes, transportRoutes, s.destination, matches)
    }

    ghost predicate Exact(matches: (Transport, TransferPath) -> bool)
      reads this, open
    {
      forall s <- open :: ExactFor(s, matches)
    }

    /** Every open selector knows exactly the routes in its table. */
    ghost predicate AllActive()
      reads this, open
    {
      forall s <- open :: s.ActiveOk()
    }

    constructor ()
      ensures Valid() && open == {} && transportRoutes == map[]
    {
      transportRoutes, destinationMultiRouteSelectors, transportMatchedDestinations, open := map[], map[], map[], {};
    }

    method OpenMultiRouteSelector(destination: TransferPath, matches: (Transport, TransferPath) -> bool)
      returns (s: MultiRouteSelector)
      requires Valid()
      modifies this
      ensures Valid() && fresh(s) && s.destination == destination && open == old(open) + {s}
      ensures transportRoutes == old(transportRoutes) && ExactFor(s, matches)
      ensures old(Exact(matches)) ==> Exact(matches)
      ensures old(AllActive()) ==> AllActive()
    {
      s := OpenAndFill(destination, matches);
    }

    method OpenAndFill(destination: TransferPath, matches: (Transport, TransferPath) -> bool)
      returns (s: MultiRouteSelector)
      requires Valid()
      modifies this
      ensures Valid() && fresh(s) && s.destination == destination && open == old(open) + {s}
      ensures transportRoutes == old(transportRoutes) && ExactFor(s, matches)
      ensures s.ActiveOk()
    {
      s := new MultiRouteSelector(destination);
      Register(s);
      Fill(s, matches);
    }

    method Fill(s: MultiRouteSelector, matches: (Transport, TransferPath) -> bool)
      requires Valid() && s in open && s.transportRoutes == map[]
      modifies `transportMatchedDestinations, s
      ensures Valid() && ExactFor(s, matches)
      ensures old(s.ActiveOk()) ==> s.ActiveOk()
    {
      var todo := transportRoutes.Keys;
      ghost var done := {};
      while todo != {}
        invariant done + todo == transportRoutes.Keys && Valid()
        invariant old(s.ActiveOk()) ==> s.ActiveOk()
        invariant s.transportRoutes == Chosen(transportRoutes, done, s.destination, matches)
        decreases |todo|
      {
        var t :| t in todo;
        Consider(t, s, matches, done);
        todo, done := todo - {t}, done + {t};
      }
      assert done == transportRoutes.Keys;
    }

    method Consider(
        t: Transport, s: MultiRouteSelector, matches: (Transport, TransferPath) -> bool, ghost done: set<Transport>)
      requires Valid() && t in transportRoutes && s in open
      requires s.transportRoutes == Chosen(transportRoutes, done, s.destination, matches)
      modifies `transportMatchedDestinations, s
      ensures Valid() && s.transportRoutes == Chosen(transportRoutes, done + {t}, s.destination, matches)
      ensures old(s.ActiveOk()) ==> s.ActiveOk()
    {
      ChosenMore(transportRoutes, done, t, s.destination, matches);
      // never the branch that writes to a nil map: every registered transport has its destinations
      if matches(t, s.destination) {
        Match(t, s);
      }
    }

    method Register(s: MultiRouteSelector)
      requires Valid() && s !in open && s.transportRoutes == map[]
      modifies `destinationMultiRouteSelectors, `open
      ensures Valid() && open == old(open) + {s}
    {
      var d := s.destination;
      var selectors := if d in destinationMultiRouteSelectors then destinationMultiRouteSelectors[d] else {};
      destinationMultiRouteSelectors := destinationMultiRouteSelectors[d := selectors + {s}];
      open := open + {s};
    }

    method Match(t: Transport, s: MultiRouteSelector)
      requires Valid() && t in transportRoutes && s in open
      modifies `transportMatchedDestinations, s
      ensures Valid() && s.transportRoutes == old(s.transportRoutes)[t := transportRoutes[t]]
      ensures old(s.ActiveOk()) ==> s.ActiveOk()
    {
      // what the selector has of the transport are these routes already, so it gives none up
      assert SelectorOk(s);
      transportMatchedDestinations :=
        transportMatchedDestinations[t := transportMatchedDestinations[t] + {s.destination}];
      s.UpdateTransport(t, transportRoutes[t]);
    }

    /** Closing keeps every other selector as it is; the destination is forgotten with its last selector. */
    method CloseMultiRouteSelector(s: MultiRouteSelector)
      requires Valid()
      modifies this
      ensures Valid() && open == old(open) - {s} && transportRoutes == old(transportRoutes)
    {
      var d := s.destination;
      if d !in destinationMultiRouteSelectors {
        assert open - {s} == open;
        return;
      }
      destinationMultiRouteSelectors := destinationMultiRouteSelectors[d := destinationMultiRouteSelectors[d] - {s}];
      open := open - {s};
      if destinationMultiRouteSelectors[d] == {} {
        Unmatch(d);
      }
    }

    method Unmatch(d: TransferPath)
      requires Valid() && forall s <- open :: s.destination != d
      modifies `transportMatchedDestinations
      ensures Valid()
    {
      var todo := transportMatchedDestinations.Keys;
      while todo != {}
        invariant todo <= transportMatchedDestinations.Keys && Valid()
        decreases |todo|
      {
        var t :| t in todo;
        todo := todo - {t};
        transportMatchedDestinations := transportMatchedDestinations[t := transportMatchedDestinations[t] - {d}];
      }
    }

    /** Removes a transport, or sets its routes for the destinations it matches now. */
    method UpdateTransport(t: Transport, routes: seq<Route>, matches: (Transport, TransferPath) -> bool)
      requires Valid()
      modifies this, open
      ensures Valid() && open == old(open) && transportRoutes == WithRoutes(old(transportRoutes), t, routes)
      ensures forall s <- open ::
                s.transportRoutes ==
                WithRoutes(old(s.transportRoutes), t, if matches(t, s.destination) then routes else [])
      ensures forall s <- open :: KeepsActive(s, t, if matches(t, s.destination) then routes else [])
      ensures old(Exact(matches)) ==> Exact(matches)
      ensures old(AllActive()) && Disjoint(old(transportRoutes)) ==> AllActive()
    {
      UpdateSelectorsOf(t, routes, matches);
      forall s | s in open && old(ExactFor(s, matches)) ensures ExactFor(s, matches) {
        ExactAfter(old(s.transportRoutes), old(transportRoutes), s.destination, matches, t, routes);
      }
    }

    method UpdateSelectorsOf(t: Transport, routes: seq<Route>, matches: (Transport, TransferPath) -> bool)
      requires Valid()
      modifies this, open
      ensures Valid() && open == old(open) && transportRoutes == WithRoutes(old(transportRoutes), t, routes)
      ensures forall s <- open ::
                s.transportRoutes ==
                WithRoutes(old(s.transportRoutes), t, if matches(t, s.destination) then routes else [])
      ensures forall s <- open :: KeepsActive(s, t, if matches(t, s.destination) then routes else [])
      ensures old(AllActive()) && Disjoint(old(transportRoutes)) ==> AllActive()
    {
      PartsLoseNone(t);
      if |routes| == 0 {
        Remove(t);
      } else {
        Set(t, routes, matches);
      }
    }

    method Remove(t: Transport)
      requires Valid()
      modifies this, open
      ensures Valid() && open == old(open) && transportRoutes == old(transportRoutes) - {t}
      ensures forall s <- open :: s.transportRoutes == old(s.transportRoutes) - {t} && KeepsActive(s, t, [])
    {
      RemoveFromSelectors(t);
      transportMatchedDestinations := transportMatchedDestinations - {t};
      transportRoutes := transportRoutes - {t};
    }

    method Set(t: Transport, routes: seq<Route>, matches: (Transport, TransferPath) -> bool)
      requires Valid() && routes != []
      modifies this, open
      ensures Valid() && open == old(open) && transportRoutes == old(transportRoutes)[t := routes]
      ensures forall s <- open ::
                && s.transportRoutes ==
                   WithRoutes(old(s.transportRoutes), t, if matches(t, s.destination) then routes else [])
                && KeepsActive(s, t, if matches(t, s.destination) then routes else [])
    {
      var matched := SetInSelectors(t, routes, matches);
      transportMatchedDestinations := transportMatchedDestinations[t := matched];
      transportRoutes := transportRoutes[t := routes];
    }

    /** With disjoint routes no selector loses a route of another transport. */
    lemma PartsLoseNone(t: Transport)
      requires Valid()
      ensures Disjoint(transportRoutes) ==>
                forall s <- open, routes: seq<Route> :: LosesNoneOfOthers(s.transportRoutes, t, routes)
    {
      if Disjoint(transportRoutes) {
        forall s, routes: seq<Route> | s in open ensures LosesNoneOfOthers(s.transportRoutes, t, routes) {
          assert SelectorOk(s);
          PartIsDisjoint(s.transportRoutes, transportRoutes);
          DisjointLosesNone(s.transportRoutes, t, routes);
        }
      }
    }

    method SetInSelectors(t: Transport, routes: seq<Route>, matches: (Transport, TransferPath) -> bool)
      returns (matched: set<TransferPath>)
      requires Valid() && routes != []
      modifies open
      ensures forall s <- open ::
                s.transportRoutes ==
                WithRoutes(old(s.transportRoutes), t, if matches(t, s.destination) then routes else [])
      ensures forall s <- open :: matches(t, s.destination) ==> s.destination in matched
      ensures forall s <- open :: KeepsActive(s, t, if matches(t, s.destination) then routes else [])
    {
      var current := if t in transportMatchedDestinations then transportMatchedDestinations[t] else {};
      NotThere(t, current);
      matched := {};
      var todo := destinationMultiRouteSelectors.Keys;
      while todo != {}
        invariant todo <= destinationMultiRouteSelectors.Keys
        invariant forall s <- open :: s.destination in todo ==> unchanged(s)
        invariant forall s <- open :: s.destination !in todo ==>
                    && s.transportRoutes ==
                       WithRoutes(old(s.transportRoutes), t, if matches(t, s.destination) then routes else [])
                    && (matches(t, s.destination) ==> s.destination in matched)
                    && KeepsActive(s, t, if matches(t, s.destination) then routes else [])
        decreases |todo|
      {
        var d :| d in todo;
        todo := todo - {d};
        if matches(t, d) {
          matched := matched + {d};
          UpdateSelectors(destinationMultiRouteSelectors[d], t, routes);
        } else if d in current {
          UpdateSelectors(destinationMultiRouteSelectors[d], t, []);
        }
      }
    }

    /** A selector has nothing of a transport that its destination is not noted for. */
    lemma NotThere(t: Transport, current: set<TransferPath>)
      requires Valid()
      requires current == if t in transportMatchedDestinations then transportMatchedDestinations[t] else {}
      ensures forall s <- open :: s.destination !in current ==> s.transportRoutes - {t} == s.transportRoutes
    {
      forall s | s in open && s.destination !in current ensures s.transportRoutes - {t} == s.transportRoutes {
        assert SelectorOk(s);
      }
    }

    method RemoveFromSelectors(t: Transport)
      requires Valid()
      modifies open
      ensures forall s <- open :: s.transportRoutes == old(s.transportRoutes) - {t}
      ensures forall s <- open :: KeepsActive(s, t, [])
    {
      if t !in transportMatchedDestinations {
        forall s | s in open ensures s.transportRoutes - {t} == s.transportRoutes {
          assert SelectorOk(s);
        }
        return;
      }
      var todo := transportMatchedDestinations[t];
      while todo != {}
        invariant todo <= transportMatchedDestinations[t]
        invariant forall s <- open ::
                    if s.destination in transportMatchedDestinations[t] && s.destination !in todo
                    then s.transportRoutes == old(s.transportRoutes) - {t} && KeepsActive(s, t, [])
                    else unchanged(s)
        decreases |todo|
      {
        var d :| d in todo;
        todo := todo - {d};
        if d in destinationMultiRouteSelectors {
          UpdateSelectors(destinationMultiRouteSelectors[d], t, []);
        }
      }
    }
  }

  /** The table has the registered transports that match the destination, with their routes. */
  ghost predicate IsExact(
      table: Table, registered: Table, d: TransferPath, matches: (Transport, TransferPath) -> bool) {
    table == map t | t in registered && matches(t, d) :: registered[t]
  }

  /** The matching ones of some registered transports. */
  ghost function Chosen(
      registered: Table, done: set<Transport>, d: TransferPath, matches: (Transport, TransferPath) -> bool): Table {
    map t | t in registered && t in done && matches(t, d) :: registered[t]
  }

  lemma ChosenMore(
      registered: Table, done: set<Transport>, t: Transport, d: TransferPath,
      matches: (Transport, TransferPath) -> bool)
    requires t in registered
    ensures matches(t, d) ==>
              Chosen(registered, done + {t}, d, matches) == Chosen(registered, done, d, matches)[t := registered[t]]
    ensures !matches(t, d) ==> Chosen(registered, done + {t}, d, matches) == Chosen(registered, done, d, matches)
  {
  }

  lemma ExactAfter(
      table: Table, registered: Table, d: TransferPath, matches: (Transport, TransferPath) -> bool,
      t: Transport, routes: seq<Route>)
    requires IsExact(table, registered, d, matches)
    ensures IsExact(WithRoutes(table, t, if matches(t, d) then routes else []),
                    WithRoutes(registered, t, routes), d, matches)
  {
  }

  /** The selector goes on knowing exactly its routes if and only if it loses none of another transport. */
  twostate predicate KeepsActive(s: MultiRouteSelector, t: Transport, routes: seq<Route>)
    reads s
  {
    old(s.ActiveOk()) ==> (s.ActiveOk() <==> LosesNoneOfOthers(old(s.transportRoutes), t, routes))
  }

  /** A part of a disjoint table is disjoint. */
  lemma PartIsDisjoint(part: Table, table: Table)
    requires Disjoint(table) && forall t <- part :: t in table && part[t] == table[t]
    ensures Disjoint(part)
  {
  }

  method UpdateSelectors(selectors: set<MultiRouteSelector>, t: Transport, routes: seq<Route>)
    modifies selectors
    ensures forall s <- selectors :: s.transportRoutes == WithRoutes(old(s.transportRoutes), t, routes)
    ensures forall s <- selectors :: KeepsActive(s, t, routes)
  {
    var todo := selectors;
    while todo != {}
      invariant todo <= selectors
      invariant forall s <- todo :: unchanged(s)
      invariant forall s <- selectors - todo ::
                  s.transportRoutes == WithRoutes(old(s.transportRoutes), t, routes) && KeepsActive(s, t, routes)
      decreases |todo|
    {
      var s :| s in todo;
      todo := todo - {s};
      s.UpdateTransport(t, routes);
    }
  }
}
