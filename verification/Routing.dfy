/** Routes over an abstract host: a route table, a TUN device, and a log of what happened to both. */
module Routing {
  import opened Wire
  import opened Errors

  /** A destination block through one interface. */
  datatype Route = Route(dest: nat, prefix: nat, ifindex: nat)

  datatype HostEvent = Opened | Closed | RouteAdded(route: Route) | RouteDeleted(route: Route)

  /** The operating system's side. Some routes it refuses to add, some it refuses to delete. */
  class Host {
    var table: set<Route>
    var tunOpen: bool
    ghost var log: seq<HostEvent>
    const refuseAdd: set<Route>
    const refuseDelete: set<Route>

    constructor (table: set<Route>, refuseAdd: set<Route>, refuseDelete: set<Route>)
      ensures this.table == table && !tunOpen && log == []
      ensures this.refuseAdd == refuseAdd && this.refuseDelete == refuseDelete
    {
      this.table, tunOpen, log := table, false, [];
      this.refuseAdd, this.refuseDelete := refuseAdd, refuseDelete;
    }

    method OpenTun()
      modifies this
      ensures tunOpen && table == old(table) && log == old(log) + [Opened]
    {
      tunOpen, log := true, log + [Opened];
    }

    method CloseTun()
      modifies this
      ensures !tunOpen && table == old(table) && log == old(log) + [Closed]
    {
      tunOpen, log := false, log + [Closed];
    }

    /** A route that is already there is refused, like any other the system dislikes. */
    method Add(r: Route) returns (ok: bool)
      modifies this
      ensures ok <==> r !in refuseAdd && r !in old(table)
      ensures table == (if ok then old(table) + {r} else old(table)) && tunOpen == old(tunOpen)
      ensures log == if ok then old(log) + [RouteAdded(r)] else old(log)
    {
      ok := r !in refuseAdd && r !in table;
      if ok {
        table, log := table + {r}, log + [RouteAdded(r)];
      }
    }

    method Delete(r: Route) returns (ok: bool)
      modifies this
      ensures ok <==> r !in refuseDelete && r in old(table)
      ensures table == (if ok then old(table) - {r} else old(table)) && tunOpen == old(tunOpen)
      ensures log == if ok then old(log) + [RouteDeleted(r)] else old(log)
    {
      ok := r !in refuseDelete && r in table;
      if ok {
        table, log := table - {r}, log + [RouteDeleted(r)];
      }
    }
  }

  // ---------------------------------------------------------------------------
  // Reading the log
  // ---------------------------------------------------------------------------

  /** The TUN state and our routes after some events, starting closed with none. */
  datatype Standing = Standing(tunOpen: bool, routes: set<Route>)

  function Replay(log: seq<HostEvent>): Standing {
    if log == [] then Standing(false, {})
    else Happen(Replay(log[..|log| - 1]), log[|log| - 1])
  }

  function Happen(s: Standing, e: HostEvent): Standing {
    match e
    case Opened => s.(tunOpen := true)
    case Closed => s.(tunOpen := false)
    case RouteAdded(r) => s.(routes := s.routes + {r})
    case RouteDeleted(r) => s.(routes := s.routes - {r})
  }

  /** At no moment does one of our routes exist while the TUN is closed, bar those the system kept. */
  ghost predicate RoutesNeedTun(log: seq<HostEvent>, kept: set<Route>) {
    forall k :: 0 <= k <= |log| ==>
      !Replay(log[..k]).tunOpen ==> Replay(log[..k]).routes <= kept
  }

  lemma ReplayMore(log: seq<HostEvent>, e: HostEvent)
    ensures Replay(log + [e]) == Happen(Replay(log), e)
  {
    assert (log + [e])[..|log|] == log;
  }

  lemma NeedsTunMore(log: seq<HostEvent>, e: HostEvent, kept: set<Route>)
    requires RoutesNeedTun(log, kept)
    requires Happen(Replay(log), e).tunOpen || Happen(Replay(log), e).routes <= kept
    ensures RoutesNeedTun(log + [e], kept)
  {
    var more := log + [e];
    ReplayMore(log, e);
    forall k | 0 <= k <= |more|
      ensures !Replay(more[..k]).tunOpen ==> Replay(more[..k]).routes <= kept
    {
      if k <= |log| {
        assert more[..k] == log[..k];
      } else {
        assert more[..k] == more;
      }
    }
  }

  // ---------------------------------------------------------------------------
  // The guard
  // ---------------------------------------------------------------------------

  function AsSet(routes: seq<Route>): set<Route> {
    set r | r in routes
  }

  /** The part of `routes` the loop adds before the first refusal. */
  function Installable(table: set<Route>, refused: set<Route>, routes: seq<Route>): (r: seq<Route>)
    ensures |r| <= |routes|
    decreases |routes|
  {
    if routes == [] || routes[0] in refused || routes[0] in table then []
    else [routes[0]] + Installable(table + {routes[0]}, refused, routes[1..])
  }

  /** What is true between two host calls of one tunnel: the log explains the table. */
  ghost predicate Consistent(host: Host, before: set<Route>)
    reads host
  {
    && Replay(host.log) == Standing(host.tunOpen, host.table - before)
    && before <= host.table
    && RoutesNeedTun(host.log, host.refuseDelete)
  }

  class RoutingGuard {
    const host: Host
    var routes: seq<Route>

    constructor (host: Host, routes: seq<Route>)
      ensures this.host == host && this.routes == routes
    {
      this.host, this.routes := host, routes;
    }

    /**
     * Empties the list first, then deletes each route once; a refused delete does
     * not stop it. A second call finds nothing to do and leaves the host alone.
     */
    method RemoveAll(ghost before: set<Route>)
      requires Consistent(host, before) && host.tunOpen && AsSet(routes) !! before
      modifies this, host
      ensures routes == []
      ensures host.table == old(host.table) - (AsSet(old(routes)) - host.refuseDelete)
      ensures old(routes) == [] ==> host.log == old(host.log)
      ensures Consistent(host, before) && host.tunOpen
    {
      var taken := routes;
      routes := [];
      DeleteEach(host, taken, before);
    }
  }

  method DeleteEach(host: Host, routes: seq<Route>, ghost before: set<Route>)
    requires Consistent(host, before) && host.tunOpen && AsSet(routes) !! before
    modifies host
    ensures host.table == old(host.table) - (AsSet(routes) - host.refuseDelete)
    ensures routes == [] ==> host.log == old(host.log)
    ensures Consistent(host, before) && host.tunOpen
  {
    for k := 0 to |routes|
      invariant Consistent(host, before) && host.tunOpen
      invariant host.table == old(host.table) - (AsSet(routes[..k]) - host.refuseDelete)
      invariant k == 0 ==> host.log == old(host.log)
    {
      assert routes[..k + 1] == routes[..k] + [routes[k]];
      assert AsSet(routes[..k + 1]) == AsSet(routes[..k]) + {routes[k]};
      assert routes[k] in AsSet(routes);
      ghost var log := host.log;
      var ok := host.Delete(routes[k]);
      if ok {
        ReplayMore(log, RouteDeleted(routes[k]));
        NeedsTunMore(log, RouteDeleted(routes[k]), host.refuseDelete);
      }
    }
    assert routes[..|routes|] == routes;
  }

  method AddOne(host: Host, r: Route, ghost before: set<Route>) returns (ok: bool)
    requires Consistent(host, before) && host.tunOpen
    modifies host
    ensures Consistent(host, before) && host.tunOpen
    ensures ok <==> r !in host.refuseAdd && r !in old(host.table)
    ensures host.table == if ok then old(host.table) + {r} else old(host.table)
  {
    ghost var log := host.log;
    ok := host.Add(r);
    if ok {
      ReplayMore(log, RouteAdded(r));
      NeedsTunMore(log, RouteAdded(r), host.refuseDelete);
      assert host.table - before == (old(host.table) - before) + {r};
    }
  }

  /** One more of the wanted routes, or the end of what can be installed. */
  lemma {:induction false} InstallableStep(table: set<Route>, refused: set<Route>, wanted: seq<Route>, k: nat)
    requires k < |wanted| && |Installable(table, refused, wanted)| >= k
    requires wanted[..k] == Installable(table, refused, wanted)[..k]
    ensures var installable := Installable(table, refused, wanted);
      var here := table + AsSet(wanted[..k]);
      if wanted[k] in refused || wanted[k] in here then installable == wanted[..k]
      else |installable| > k && wanted[..k + 1] == installable[..k + 1]
    decreases k
  {
    var installable := Installable(table, refused, wanted);
    if k > 0 {
      var first, rest := wanted[0], wanted[1..];
      var later := Installable(table + {first}, refused, rest);
      assert installable == [first] + later;
      PrefixBehindHead(wanted, k);
      PrefixBehindHead(installable, k);
      assert later == installable[1..];
      InstallableStep(table + {first}, refused, rest, k - 1);
      assert rest[k - 1] == wanted[k];
      assert table + {first} + AsSet(rest[..k - 1]) == table + AsSet(wanted[..k]);
      if |installable| > k {
        PrefixBehindHead(wanted, k + 1);
        PrefixBehindHead(installable, k + 1);
      }
    } else {
      assert wanted[..0] == [] && AsSet([]) == {};
      assert table + AsSet(wanted[..0]) == table;
      assert installable != [] ==> wanted[..1] == installable[..1];
    }
  }

  lemma PrefixBehindHead(s: seq<Route>, k: nat)
    requires 0 < k <= |s|
    ensures s[..k] == [s[0]] + s[1..][..k - 1]
    ensures AsSet(s[..k]) == {s[0]} + AsSet(s[1..][..k - 1])
  {
    assert s[..k] == [s[0]] + s[1..][..k - 1];
    forall r
      ensures r in s[..k] <==> r == s[0] || r in s[1..][..k - 1]
    {
    }
  }

  /**
   * Installs every route, or none: at the first refusal the routes added so far
   * are deleted again, and only those the system refuses to delete stay behind.
   */
  method InstallRoutes(host: Host, wanted: seq<Route>, ghost before: set<Route>)
    returns (r: Result<RoutingGuard, VpnError>)
    requires host.tunOpen && host.table == before && Consistent(host, before)
    modifies host
    ensures Consistent(host, before) && host.tunOpen
    ensures var added := Installable(before, host.refuseAdd, wanted);
      if added == wanted
      then r.Ok? && fresh(r.value) && r.value.host == host && r.value.routes == wanted
           && host.table == before + AsSet(wanted) && AsSet(wanted) !! before
      else r == Err(VpnError.Routing) && host.table == before + (AsSet(added) * host.refuseDelete)
  {
    var added: seq<Route> := [];
    ghost var installable := Installable(before, host.refuseAdd, wanted);
    for k := 0 to |wanted|
      invariant added == wanted[..k] && |installable| >= k && added == installable[..k]
      invariant Consistent(host, before) && host.tunOpen
      invariant host.table == before + AsSet(added) && AsSet(added) !! before
    {
      InstallableStep(before, host.refuseAdd, wanted, k);
      var ok := AddOne(host, wanted[k], before);
      if !ok {
        DeleteEach(host, added, before);
        assert added == installable;
        return Err(VpnError.Routing);
      }
      assert wanted[..k + 1] == added + [wanted[k]];
      assert AsSet(added + [wanted[k]]) == AsSet(added) + {wanted[k]};
      added := added + [wanted[k]];
    }
    assert added == wanted && installable == wanted;
    var guard := new RoutingGuard(host, added);
    return Ok(guard);
  }

  /** Closing the TUN is orderly once only routes the system kept are left. */
  method DropTun(host: Host, ghost before: set<Route>)
    requires Consistent(host, before) && host.table - before <= host.refuseDelete
    modifies host
    ensures Consistent(host, before) && !host.tunOpen && host.table == old(host.table)
  {
    ghost var log := host.log;
    host.CloseTun();
    ReplayMore(log, Closed);
    NeedsTunMore(log, Closed, host.refuseDelete);
  }

  /** Installing succeeds exactly when no route is refused, already there, or wanted twice. */
  lemma {:induction false} InstallsExactlyWhen(table: set<Route>, refused: set<Route>, wanted: seq<Route>)
    ensures Installable(table, refused, wanted) == wanted
       <==> && AsSet(wanted) !! (table + refused)
            && forall i, j :: 0 <= i < j < |wanted| ==> wanted[i] != wanted[j]
    decreases |wanted|
  {
    if wanted != [] {
      var first, rest := wanted[0], wanted[1..];
      InstallsExactlyWhen(table + {first}, refused, rest);
      assert wanted == [first] + rest;
      assert AsSet(wanted) == AsSet(rest) + {first};
      assert first in AsSet(rest) <==> exists j :: 0 < j < |wanted| && wanted[j] == first;
      assert (forall i, j :: 0 <= i < j < |wanted| ==> wanted[i] != wanted[j]) <==>
        first !in AsSet(rest) && (forall i, j :: 0 <= i < j < |rest| ==> rest[i] != rest[j]) by {
        if forall i, j :: 0 <= i < j < |wanted| ==> wanted[i] != wanted[j] {
          forall i, j | 0 <= i < j < |rest|
            ensures rest[i] != rest[j]
          {
            assert wanted[i + 1] != wanted[j + 1];
          }
        }
      }
    }
  }
}
