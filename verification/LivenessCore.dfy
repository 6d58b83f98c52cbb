/**
 The liveness core: route allocation, the route index and the waiting callbacks of one peer. Beside its
 fields the core keeps the log of its calls; `Valid` says that the fields are what running the logged calls
 on `RouteLeases`, `RouteIndex` and `LivePending` leaves, so every law of those runs is a law of the core.
 */
module LivenessCores {
  import opened Wrappers
  import opened RouteLeases
  import opened RouteIndex
  import opened LivePending

  class LivenessCore {
    // route allocation
    var leased: bool
    var lease: seq<Block>
    var grants: seq<Block>
    var routeCounter: int
    var mintedHigh: int

    // the route index
    var records: map<Rid, Record>
    var byRoute: map<int, Rid>

    // waiting callbacks
    var pending: Lists
    var held: set<int>
    var flushesDeferred: int
    var deferredFlushes: seq<int>
    var frameCounter: int
    ghost var asked: Lists
    ghost var called: Lists
    ghost var givenUp: Lists
    ghost var dropped: Lists

    // the routes that moved since they were last taken
    var moved: seq<int>
    var movedOverflow: bool
    ghost var noted: seq<int>
    ghost var wiped: bool

    // the calls so far; those on the allocation since it was last cleared, with what each left
    ghost var routeOps: seq<RouteIndex.Op>
    ghost var waitOps: seq<LivePending.Op>
    ghost var leaseOps: seq<RouteLeases.Op>
    ghost var cores: seq<Core>

    ghost function Allocation(): Leases
      reads this`leased, this`lease, this`grants, this`routeCounter, this`mintedHigh
    {
      Leases(leased, lease, grants, routeCounter, mintedHigh)
    }

    ghost function Routes(): Index
      reads this`records, this`byRoute
    {
      Index(records, byRoute)
    }

    ghost function Waiting(): Waits
      reads this`pending, this`held, this`flushesDeferred, this`deferredFlushes, this`frameCounter
      reads this`asked, this`called, this`givenUp, this`dropped
    {
      Waits(pending, held, flushesDeferred, deferredFlushes, frameCounter, asked, called, givenUp, dropped)
    }

    ghost predicate Valid()
      reads this
    {
      && IndexFrom(Index(records, byRoute), routeOps)
      && WaitsFrom(Waits(pending, held, flushesDeferred, deferredFlushes, frameCounter, asked, called, givenUp,
                         dropped), waitOps)
      && AllocationFrom(Core(Leases(leased, lease, grants, routeCounter, mintedHigh), byRoute.Keys), leaseOps, cores)
      && MovedFrom(moved, movedOverflow, noted, wiped)
    }

    // ----- what holds of every core -----

    /** A route names an entity exactly when that entity's record holds the route, and no two entities share one. */
    lemma IndexIsBijective()
      requires Valid()
      ensures Bijective(Routes())
      ensures forall d, e :: d in records && e in records && records[d].route == records[e].route > 0 ==> d == e
    {
      RunIsBijective(routeOps);
    }

    /**
     Every callback asked for waits, was called, was given up on or was dropped, once; no flush is owed
     undeferred.
     */
    lemma EntriesAreAccountedFor()
      requires Valid()
      ensures Accounted(Waiting()) && Settled(Waiting())
    {
      EveryEntryIsAccountedFor(waitOps);
    }

    /** Every route minted, leased or granted since the last `clear` is at or below the counter, or still leased. */
    lemma IssuedIsRemembered(route: int)
      requires Valid() && Issued(leaseOps, cores, route)
      ensures Remembers(Allocation(), route)
    {
      RunRemembers(leaseOps, cores, route);
    }

    /**
     Once the core left its lease and was given no other, what it mints next is above every route it was
     ever minting, leased or granting before, and above every route bound or granted at that moment.
     */
    lemma MintsAbovePromotion(left: nat, known: int)
      requires Valid() && left < |leaseOps| && leaseOps[left].Leave?
      requires forall i :: left < i < |leaseOps| ==> !leaseOps[i].Install?
      requires || Issued(leaseOps[..left], cores[..left + 1], known) || known in cores[left].bound
               || exists k :: 0 <= k < |cores[left].s.grants| && known < cores[left].s.grants[k].end
      ensures !leased && known <= routeCounter && RouteLeases.ReserveRoute(Allocation()).1 > known
    {
      var early, before, floor := leaseOps[..left], cores[..left + 1], leaseOps[left].floor;
      var later, after := leaseOps[left + 1..], cores[left + 1..];
      hide RouteLeases.Apply;
      assert RouteLeases.Run(early, before);
      assert Allowed(cores[left], leaseOps[left]) && cores[left + 1] == RouteLeases.Apply(cores[left], Leave(floor));
      assert RouteLeases.Run(later, after) by {
        forall i | 0 <= i < |later|
          ensures Allowed(after[i], later[i]) && after[i + 1] == RouteLeases.Apply(after[i], later[i])
        {
          var at := left + 1 + i;
          assert Allowed(cores[at], leaseOps[at]) && cores[at + 1] == RouteLeases.Apply(cores[at], leaseOps[at]);
        }
      }
      PromotedAbove(early, before, floor, later, after, known);
    }

    constructor ()
      ensures Valid() && Allocation() == FRESH && Routes() == EMPTY && Waiting() == QUIET
      ensures !wiped && noted == [] && routeOps == [] && waitOps == [] && leaseOps == []
    {
      leased, lease, grants, routeCounter, mintedHigh := false, [], [], 0, 0;
      records, byRoute := map[], map[];
      pending, held, flushesDeferred, deferredFlushes, frameCounter := map[], {}, 0, [], 0;
      moved, movedOverflow := [], false;
      asked, called, givenUp, dropped := map[], map[], map[], map[];
      noted, wiped, routeOps, waitOps, leaseOps, cores := [], false, [], [], [], [BLANK];
    }

    /**
     Everything starts over, but for the depth of the deferrals; what moved reads as overflowed, and every
     handle with a record is given back.
     */
    method Clear() returns (released: set<Rid>)
      requires Valid()
      modifies this
      ensures Valid() && Allocation() == FRESH && Routes() == EMPTY && Waiting() == Cleared(old(Waiting()))
      ensures wiped && noted == [] && routeOps == old(routeOps) + [RouteIndex.Clear] &&
              waitOps == old(waitOps) + [LivePending.Clear]
      ensures leaseOps == [] && released == old(records.Keys)
    {
      hide IndexFrom, WaitsFrom, AllocationFrom, MovedFrom, Cleared;
      released := records.Keys;
      LogClear(Routes(), Waiting());
      ForgetState();
    }

    method ForgetState()
      modifies this`records, this`byRoute, this`moved, this`movedOverflow, this`noted, this`wiped
      modifies this`pending, this`held, this`deferredFlushes, this`frameCounter, this`dropped
      modifies this`lease, this`grants, this`leased, this`routeCounter, this`mintedHigh
      ensures Allocation() == FRESH && Routes() == EMPTY && Waiting() == Cleared(old(Waiting())) && byRoute.Keys == {}
      ensures MovedFrom(moved, movedOverflow, noted, wiped) && noted == [] && wiped
    {
      hide Joined, MovedFrom;
      ForgetRoutes();
      ForgetRest();
      assert byRoute.Keys == {};
    }

    method ForgetRoutes()
      modifies this`records, this`byRoute, this`moved, this`movedOverflow, this`noted, this`wiped
      ensures records == map[] && byRoute == map[]
      ensures MovedFrom(moved, movedOverflow, noted, wiped) && noted == [] && wiped
    {
      records, byRoute := map[], map[];
      moved, movedOverflow := [], true;
      noted, wiped := [], true;
    }

    method ForgetRest()
      modifies this`pending, this`held, this`deferredFlushes, this`frameCounter, this`dropped
      modifies this`lease, this`grants, this`leased, this`routeCounter, this`mintedHigh
      ensures pending == map[] && held == {} && deferredFlushes == [] && frameCounter == 0
      ensures dropped == Joined(old(dropped), old(pending))
      ensures !leased && lease == grants == [] && routeCounter == mintedHigh == 0
    {
      hide Joined;
      DropWaiting();
      ForgetLeases();
    }

    method DropWaiting()
      modifies this`pending, this`held, this`deferredFlushes, this`frameCounter, this`dropped
      ensures pending == map[] && held == {} && deferredFlushes == [] && frameCounter == 0
      ensures dropped == Joined(old(dropped), old(pending))
    {
      hide Joined;
      dropped := Joined(dropped, pending);
      pending, held, deferredFlushes, frameCounter := map[], {}, [], 0;
    }

    method ForgetLeases()
      modifies this`lease, this`grants, this`leased, this`routeCounter, this`mintedHigh
      ensures !leased && lease == grants == [] && routeCounter == mintedHigh == 0
    {
      lease, grants, leased := [], [], false;
      routeCounter, mintedHigh := 0, 0;
    }

    // ----- logging -----

    ghost method LogLease(core: Core, op: RouteLeases.Op)
      requires AllocationFrom(core, leaseOps, cores) && Allowed(core, op)
      modifies this`leaseOps, this`cores
      ensures AllocationFrom(RouteLeases.Apply(core, op), leaseOps, cores) && leaseOps == old(leaseOps) + [op]
      ensures forall route :: Issues(core, op, route) ==> Issued(leaseOps, cores, route)
      ensures old(cores) <= cores && |cores| == |leaseOps| + 1
    {
      LogGrows(leaseOps, cores, op);
      cores := cores + [RouteLeases.Apply(core, op)];
      leaseOps := leaseOps + [op];
    }

    /** A bind releases the route the entity held before, if any, and binds the new one. */
    ghost method LogBound(s: Leases, index: Index, entity: Rid, route: int)
      requires AllocationFrom(Core(s, index.byRoute.Keys), leaseOps, cores) && CanBind(index, entity, route)
      modifies this`leaseOps, this`cores
      ensures AllocationFrom(Core(s, RouteIndex.BindRoute(index, entity, route).byRoute.Keys), leaseOps, cores)
      ensures old(leaseOps) <= leaseOps && old(cores) <= cores
    {
      hide AllocationFrom;
      var before := index.records[entity].route;
      var freed := index.byRoute;
      if before > 0 && before != route && before in freed && freed[before] == entity {
        LogLease(Core(s, freed.Keys), RouteLeases.Unbind(before));
        freed := freed - {before};
      }
      LogLease(Core(s, freed.Keys), RouteLeases.Bind(route));
      assert freed[route := entity].Keys == freed.Keys + {route};
    }

    ghost method LogUnbound(s: Leases, index: Index, entity: Rid)
      requires AllocationFrom(Core(s, index.byRoute.Keys), leaseOps, cores) && CanUnbind(index, entity)
      modifies this`leaseOps, this`cores
      ensures AllocationFrom(Core(s, RouteIndex.UnbindRoute(index, entity).byRoute.Keys), leaseOps, cores)
      ensures old(leaseOps) <= leaseOps && old(cores) <= cores
    {
      hide AllocationFrom;
      var route := index.records[entity].route;
      if route in index.byRoute && index.byRoute[route] == entity {
        LogLease(Core(s, index.byRoute.Keys), RouteLeases.Unbind(route));
      }
    }

    /** A bind on the index and on the allocation. */
    ghost method LogBind(s: Leases, index: Index, entity: Rid, route: int)
      requires IndexFrom(index, routeOps) && AllocationFrom(Core(s, index.byRoute.Keys), leaseOps, cores)
      modifies this`routeOps, this`leaseOps, this`cores
      ensures IndexFrom(RouteIndex.BindRoute(index, entity, route), routeOps)
      ensures routeOps == old(routeOps) + [RouteIndex.Bind(entity, route)]
      ensures Effect(index.records, RouteIndex.BindRoute(index, entity, route).records, RouteIndex.Bind(entity, route))
      ensures AllocationFrom(Core(s, RouteIndex.BindRoute(index, entity, route).byRoute.Keys), leaseOps, cores)
      ensures old(leaseOps) <= leaseOps && old(cores) <= cores
    {
      hide AllocationFrom, IndexFrom, Effect;
      LogRoute(index, RouteIndex.Bind(entity, route));
      if CanBind(index, entity, route) {
        LogBound(s, index, entity, route);
      }
    }

    ghost method LogUnbind(s: Leases, index: Index, entity: Rid)
      requires IndexFrom(index, routeOps) && AllocationFrom(Core(s, index.byRoute.Keys), leaseOps, cores)
      modifies this`routeOps, this`leaseOps, this`cores
      ensures IndexFrom(RouteIndex.UnbindRoute(index, entity), routeOps)
      ensures routeOps == old(routeOps) + [RouteIndex.Unbind(entity)]
      ensures Effect(index.records, RouteIndex.UnbindRoute(index, entity).records, RouteIndex.Unbind(entity))
      ensures AllocationFrom(Core(s, RouteIndex.UnbindRoute(index, entity).byRoute.Keys), leaseOps, cores)
      ensures old(leaseOps) <= leaseOps && old(cores) <= cores
    {
      hide AllocationFrom, IndexFrom, Effect;
      LogRoute(index, RouteIndex.Unbind(entity));
      if CanUnbind(index, entity) {
        LogUnbound(s, index, entity);
      }
    }

    ghost method LogClear(index: Index, waits: Waits)
      requires IndexFrom(index, routeOps) && WaitsFrom(waits, waitOps)
      modifies this`routeOps, this`waitOps, this`leaseOps, this`cores
      ensures IndexFrom(EMPTY, routeOps) && routeOps == old(routeOps) + [RouteIndex.Clear]
      ensures WaitsFrom(Cleared(waits), waitOps) && waitOps == old(waitOps) + [LivePending.Clear]
      ensures AllocationFrom(BLANK, leaseOps, cores) && leaseOps == []
    {
      hide IndexFrom, WaitsFrom;
      LogRoute(index, RouteIndex.Clear);
      LogWait(waits, LivePending.Clear);
      leaseOps, cores := [], [BLANK];
    }

    ghost method LogRoute(index: Index, op: RouteIndex.Op)
      requires IndexFrom(index, routeOps) && Proper(op)
      modifies this`routeOps
      ensures IndexFrom(RouteIndex.Apply(index, op), routeOps) && routeOps == old(routeOps) + [op]
      ensures Effect(index.records, RouteIndex.Apply(index, op).records, op)
    {
      hide RouteIndex.Run, RouteIndex.Apply, Effect, Bijective;
      RunIsBijective(routeOps);
      ApplyMeans(index, op);
      RouteIndex.RunAppend(routeOps, op);
      routeOps := routeOps + [op];
    }

    ghost method LogWait(waits: Waits, op: LivePending.Op)
      requires WaitsFrom(waits, waitOps)
      modifies this`waitOps
      ensures WaitsFrom(LivePending.Apply(waits, op), waitOps) && waitOps == old(waitOps) + [op]
    {
      LivePending.RunAppend(waitOps, op);
      waitOps := waitOps + [op];
    }

    // ----- what moved -----

    /** Notes a route that moved; past the cap the list is given up until it is taken. */
    method NoteMoved(route: int)
      requires MovedFrom(moved, movedOverflow, noted, wiped)
      modifies this`moved, this`movedOverflow, this`noted
      ensures MovedFrom(moved, movedOverflow, noted, wiped)
      ensures noted == if route > 0 then old(noted) + [route] else old(noted)
    {
      if route > 0 {
        noted := noted + [route];
      }
      if route <= 0 || movedOverflow {
        return;
      }
      if |moved| >= MOVED_KEPT {
        moved := [];
        movedOverflow := true;
        return;
      }
      moved := moved + [route];
    }

    /** Takes what moved since the last take: all of it, in order, or word that it was too much. */
    method TakeMoved() returns (routes: seq<int>, overflowed: bool)
      requires Valid()
      modifies this`moved, this`movedOverflow, this`noted, this`wiped
      ensures Valid() && noted == [] && !wiped
      ensures overflowed == (old(wiped) || |old(noted)| > 4096)
      ensures routes == if overflowed then [] else old(noted)
    {
      hide IndexFrom, WaitsFrom, AllocationFrom;
      routes, overflowed := moved, movedOverflow;
      moved, movedOverflow := [], false;
      noted, wiped := [], false;
    }

    // ----- route allocation -----

    method ReserveRoute() returns (route: int)
      requires Valid()
      modifies this`lease, this`routeCounter, this`mintedHigh, this`leaseOps, this`cores
      ensures Valid() && leaseOps == old(leaseOps) + [Reserve]
      ensures (Allocation(), route) == RouteLeases.ReserveRoute(old(Allocation()))
      ensures route != 0 ==> Issued(leaseOps, cores, route)
      ensures old(cores) <= cores
    {
      hide IndexFrom, WaitsFrom, AllocationFrom, MovedFrom, Issued;
      LogLease(Core(Allocation(), byRoute.Keys), Reserve);
      route := MintRoute();
    }

    /** The body of `reserve_route`: exhausted blocks are dropped until one has a route left. */
    method MintRoute() returns (route: int)
      modifies this`lease, this`routeCounter, this`mintedHigh
      ensures (Allocation(), route) == RouteLeases.ReserveRoute(old(Allocation()))
    {
      if !leased {
        routeCounter := routeCounter + 1;
        return routeCounter;
      }
      ghost var minted := MintFrom(lease);
      while lease != []
        invariant MintFrom(lease) == minted
        invariant routeCounter == old(routeCounter) && mintedHigh == old(mintedHigh)
        decreases |lease|
      {
        var block := lease[0];
        if block.next < block.end {
          route := block.next;
          lease := [block.(next := block.next + 1)] + lease[1..];
          mintedHigh := Max(mintedHigh, route);
          assert minted == (lease, route);
          return;
        }
        lease := lease[1..];
      }
      assert minted == (lease, 0);
      return 0;
    }

    /** A block above the counter, for `grant_lease`. */
    method ReserveBlock(count: int) returns (base: int)
      modifies this`routeCounter
      ensures (Allocation(), base) == RouteLeases.ReserveBlock(old(Allocation()), count)
    {
      if count <= 0 {
        return 0;
      }
      base := routeCounter + 1;
      routeCounter := routeCounter + count;
    }

    method InstallLease(base: int, count: int)
      requires Valid()
      modifies this`leased, this`lease, this`leaseOps, this`cores
      ensures Valid() && leaseOps == old(leaseOps) + [Install(base, count)]
      ensures Allocation() == RouteLeases.InstallLease(old(Allocation()), base, count)
      ensures old(cores) <= cores
    {
      hide IndexFrom, WaitsFrom, AllocationFrom, MovedFrom, Issued;
      LogLease(Core(Allocation(), byRoute.Keys), Install(base, count));
      leased := true;
      if base <= 0 || count <= 0 {
        return;
      }
      lease := lease + [Block(0, base, base + count)];
    }

    /** The greatest of `start` and the bound routes. */
    method AboveBound(start: int) returns (floor: int)
      ensures start <= floor && forall r :: r in byRoute.Keys ==> r <= floor
      ensures floor == start || floor in byRoute.Keys
    {
      floor := start;
      var rows := byRoute.Keys;
      while rows != {}
        invariant rows <= byRoute.Keys && start <= floor
        invariant forall r :: r in byRoute.Keys && r !in rows ==> r <= floor
        invariant floor == start || floor in byRoute.Keys
        decreases rows
      {
        var route := Pick(rows);
        floor := Max(floor, route);
        rows := rows - {route};
      }
    }

    method RouteFloor() returns (floor: int)
      ensures IsFloor(Allocation(), byRoute.Keys, floor)
    {
      floor := AboveBound(Max(routeCounter, mintedHigh));
      var lowest := floor;
      for at := 0 to |lease|
        invariant lowest <= floor && forall k :: 0 <= k < at ==> lease[k].end - 1 <= floor
        invariant floor == lowest || exists k :: 0 <= k < at && floor == lease[k].end - 1
      {
        floor := Max(floor, lease[at].end - 1);
      }
      var leasedFloor := floor;
      for at := 0 to |grants|
        invariant leasedFloor <= floor && forall k :: 0 <= k < at ==> grants[k].end - 1 <= floor
        invariant floor == leasedFloor || exists k :: 0 <= k < at && floor == grants[k].end - 1
      {
        floor := Max(floor, grants[at].end - 1);
      }
    }

    /** The new counter is the floor, at or above every route issued since the last `clear`. */
    method LeaveLease()
      requires Valid()
      modifies this`leased, this`lease, this`routeCounter, this`leaseOps, this`cores
      ensures Valid() && leaseOps == old(leaseOps) + [Leave(routeCounter)]
      ensures IsFloor(old(Allocation()), byRoute.Keys, routeCounter)
      ensures Allocation() == RouteLeases.LeaveLease(old(Allocation()), routeCounter)
      ensures forall route :: Issued(old(leaseOps), old(cores), route) ==> route <= routeCounter
      ensures old(cores) <= cores
    {
      hide IndexFrom, WaitsFrom, AllocationFrom, MovedFrom, Issued, IsFloor;
      var floor := RouteFloor();
      FloorIsAbove(leaseOps, cores, Core(Allocation(), byRoute.Keys), floor);
      LogLease(Core(Allocation(), byRoute.Keys), Leave(floor));
      routeCounter := floor;
      leased := false;
      lease := [];
    }

    method LeaseSpans() returns (spans: seq<int>)
      ensures spans == SpansOf(lease)
    {
      spans := [];
      for at := 0 to |lease|
        invariant spans == SpansOf(lease[..at])
      {
        var block := lease[at];
        assert lease[..at + 1][..at] == lease[..at];
        if block.next < block.end {
          spans := spans + [block.next];
          spans := spans + [block.end - block.next];
        }
      }
      assert lease[..|lease|] == lease;
    }

    method MintAbove(floor: int)
      requires Valid()
      modifies this`routeCounter, this`leaseOps, this`cores
      ensures Valid() && leaseOps == old(leaseOps) + [Raise(floor)]
      ensures Allocation() == RouteLeases.MintAbove(old(Allocation()), floor)
      ensures old(cores) <= cores
    {
      hide IndexFrom, WaitsFrom, AllocationFrom, MovedFrom, Issued;
      LogLease(Core(Allocation(), byRoute.Keys), Raise(floor));
      routeCounter := Max(routeCounter, floor);
    }

    method RestoreGrant(peer: int, base: int, count: int)
      requires Valid()
      modifies this`grants, this`leaseOps, this`cores
      ensures Valid() && leaseOps == old(leaseOps) + [Restore(peer, base, count)]
      ensures Allocation() == RouteLeases.RestoreGrant(old(Allocation()), peer, base, count)
      ensures old(cores) <= cores
    {
      hide IndexFrom, WaitsFrom, AllocationFrom, MovedFrom, Issued;
      LogLease(Core(Allocation(), byRoute.Keys), Restore(peer, base, count));
      if base <= 0 || count <= 0 {
        return;
      }
      grants := grants + [Block(peer, base, base + count)];
    }

    method GrantLease(peer: int, count: int) returns (base: int)
      requires Valid()
      modifies this`grants, this`routeCounter, this`leaseOps, this`cores
      ensures Valid() && leaseOps == old(leaseOps) + [Grant(peer, count)]
      ensures (Allocation(), base) == RouteLeases.GrantLease(old(Allocation()), peer, count)
      ensures forall route :: old(routeCounter) < route <= routeCounter ==> Issued(leaseOps, cores, route)
      ensures old(cores) <= cores
    {
      hide IndexFrom, WaitsFrom, AllocationFrom, MovedFrom, Issued;
      LogLease(Core(Allocation(), byRoute.Keys), Grant(peer, count));
      base := ReserveBlock(count);
      if base == 0 {
        return;
      }
      grants := grants + [Block(peer, base, base + count)];
    }

    method LeaseBlockHolding(peer: int, route: int) returns (at: int)
      ensures at == (var found := HoldingAt(grants, peer, route); if found.Some? then found.value else -1)
    {
      at := 0;
      while at < |grants|
        invariant 0 <= at <= |grants|
        invariant forall k :: 0 <= k < at ==> !Holds(grants[k], peer, route)
      {
        if Holds(grants[at], peer, route) {
          return;
        }
        at := at + 1;
      }
      at := -1;
    }

    method SpendLease(peer: int, route: int) returns (spent: bool)
      requires Valid()
      modifies this`grants, this`leaseOps, this`cores
      ensures Valid() && leaseOps == old(leaseOps) + [Spend(peer, route)]
      ensures (Allocation(), spent) == RouteLeases.SpendLease(old(Allocation()), peer, route)
      ensures old(cores) <= cores
    {
      hide HoldingAt, KeptFrom, IndexFrom, WaitsFrom, AllocationFrom, MovedFrom;
      LogLease(Core(Allocation(), byRoute.Keys), Spend(peer, route));
      var found := LeaseBlockHolding(peer, route);
      if found < 0 {
        return false;
      }
      grants := grants[found := grants[found].(next := route + 1)];
      PruneGrants(peer, found);
      return true;
    }

    /** The loop of `spend_lease`: drops the peer's grants before `found` and its exhausted ones. */
    method PruneGrants(peer: int, found: nat)
      modifies this`grants
      ensures grants == KeptFrom(old(grants), peer, found, 0)
    {
      ghost var marked := grants;
      var at := |grants|;
      while at > 0
        invariant 0 <= at <= |marked|
        invariant grants == marked[..at] + KeptFrom(marked, peer, found, at)
      {
        at := at - 1;
        var block := grants[at];
        assert block == marked[at];
        if Drops(block, at, peer, found) {
          grants := grants[..at] + grants[at + 1..];
        }
      }
      assert grants == KeptFrom(marked, peer, found, 0);
    }

    method AbandonLease(peer: int)
      requires Valid()
      modifies this`grants, this`leaseOps, this`cores
      ensures Valid() && leaseOps == old(leaseOps) + [Abandon(peer)]
      ensures Allocation() == RouteLeases.AbandonLease(old(Allocation()), peer)
      ensures old(cores) <= cores
    {
      hide IndexFrom, WaitsFrom, AllocationFrom, MovedFrom, Issued;
      LogLease(Core(Allocation(), byRoute.Keys), Abandon(peer));
      RemoveGrants(peer);
    }

    /** The loop of `abandon_lease`: the peer's grants go, from the back. */
    method RemoveGrants(peer: int)
      modifies this`grants
      ensures grants == Others(old(grants), peer)
    {
      ghost var before := grants;
      var at := |grants|;
      while at > 0
        invariant 0 <= at <= |before|
        invariant grants == before[..at] + Others(before[at..], peer)
      {
        at := at - 1;
        assert before[at..][1..] == before[at + 1..];
        if grants[at].peer == peer {
          grants := grants[..at] + grants[at + 1..];
        }
      }
      assert before[0..] == before && grants == Others(before, peer);
    }

    // ----- the route index -----

    /** The one entity whose record holds the route, or 0 when there is none. */
    function RidOf(route: int): (e: Rid)
      reads this
      requires Valid()
      ensures e == RidFromRoute(Routes(), route)
      ensures 0 !in records && (e != 0 ==> e in records && records[e].route == route > 0)
      ensures forall d :: d in records && records[d].route == route > 0 ==> d == e
    {
      IndexIsBijective();
      if route in byRoute then byRoute[route] else 0
    }

    /** A fresh handle with a new record. */
    method EntityCreate() returns (entity: Rid)
      requires Valid()
      modifies this`records, this`routeOps
      ensures Valid() && routeOps == old(routeOps) + [Create(entity)]
      ensures entity != 0 && entity !in old(records) && Routes() == Ensured(old(Routes()), entity)
      ensures Effect(old(records), records, Create(entity))
    {
      hide IndexFrom, WaitsFrom, AllocationFrom, MovedFrom, Effect;
      FreshHandle(records.Keys);
      entity :| entity != 0 && entity !in records.Keys;
      LogRoute(Routes(), Create(entity));
      records := records[entity := NEW_RECORD];
    }

    /** A handle from elsewhere gets a record if it can be retained, which only a valid one can. */
    method Adopt(entity: Rid, retained: bool) returns (adopted: bool)
      requires Valid() && (retained ==> entity != 0)
      modifies this`records, this`routeOps
      ensures Valid() && adopted == (entity in old(records) || retained)
      ensures Routes() == if adopted then Ensured(old(Routes()), entity) else old(Routes())
      ensures routeOps == if adopted && entity !in old(records) then old(routeOps) + [Create(entity)] else old(routeOps)
    {
      hide IndexFrom, WaitsFrom, AllocationFrom, MovedFrom;
      if entity in records {
        return true;
      }
      if !retained {
        return false;
      }
      LogRoute(Routes(), Create(entity));
      records := records[entity := NEW_RECORD];
      return true;
    }

    method BindRoute(entity: Rid, route: int) returns (bound: bool)
      requires Valid()
      modifies this`records, this`byRoute, this`routeOps, this`leaseOps, this`cores
      modifies this`moved, this`movedOverflow, this`noted
      ensures Valid() && routeOps == old(routeOps) + [RouteIndex.Bind(entity, route)]
      ensures Routes() == RouteIndex.BindRoute(old(Routes()), entity, route)
      ensures bound == CanBind(old(Routes()), entity, route)
      ensures noted == if bound then old(noted) + [route] else old(noted)
      ensures old(leaseOps) <= leaseOps && old(cores) <= cores
      ensures Effect(old(records), records, RouteIndex.Bind(entity, route))
    {
      hide IndexFrom, WaitsFrom, AllocationFrom, MovedFrom, RouteIndex.BindRoute, CanBind, Effect;
      LogBind(Allocation(), Routes(), entity, route);
      bound := Place(entity, route);
    }

    /** The body of `bind_route`. */
    method Place(entity: Rid, route: int) returns (bound: bool)
      requires MovedFrom(moved, movedOverflow, noted, wiped)
      modifies this`records, this`byRoute, this`moved, this`movedOverflow, this`noted
      ensures MovedFrom(moved, movedOverflow, noted, wiped)
      ensures noted == if bound then old(noted) + [route] else old(noted)
      ensures Routes() == RouteIndex.BindRoute(old(Routes()), entity, route)
      ensures bound == CanBind(old(Routes()), entity, route)
    {
      hide MovedFrom;
      if route <= 0 || entity !in records {
        return false;
      }
      var holder := if route in byRoute then byRoute[route] else 0;
      if holder != 0 && holder != entity {
        return false;
      }
      var record := records[entity];
      if record.state == Dead {
        record := record.(epoch := record.epoch + 1, anchor := 1, anchorAuthor := 0);
      }
      if record.route > 0 && record.route != route && record.route in byRoute && byRoute[record.route] == entity {
        byRoute := byRoute - {record.route};
      }
      records := records[entity := record.(route := route, state := Live)];
      byRoute := byRoute[route := entity];
      NoteMoved(route);
      return true;
    }

    method UnbindRoute(entity: Rid) returns (unbound: bool)
      requires Valid()
      modifies this`records, this`byRoute, this`routeOps, this`leaseOps, this`cores
      ensures Valid() && routeOps == old(routeOps) + [RouteIndex.Unbind(entity)]
      ensures Routes() == RouteIndex.UnbindRoute(old(Routes()), entity)
      ensures unbound == CanUnbind(old(Routes()), entity)
      ensures old(leaseOps) <= leaseOps && old(cores) <= cores
      ensures Effect(old(records), records, RouteIndex.Unbind(entity))
    {
      hide IndexFrom, WaitsFrom, AllocationFrom, MovedFrom, RouteIndex.UnbindRoute, CanUnbind, Effect;
      LogUnbind(Allocation(), Routes(), entity);
      unbound := Displace(entity);
    }

    /** The body of `unbind_route`. */
    method Displace(entity: Rid) returns (unbound: bool)
      modifies this`records, this`byRoute
      ensures Routes() == RouteIndex.UnbindRoute(old(Routes()), entity)
      ensures unbound == CanUnbind(old(Routes()), entity)
    {
      if entity !in records || records[entity].route <= 0 {
        return false;
      }
      var route := records[entity].route;
      if route in byRoute && byRoute[route] == entity {
        byRoute := byRoute - {route};
      }
      records := records[entity := records[entity].(route := 0)];
      return true;
    }

    method SetState(entity: Rid, state: State) returns (changed: bool)
      requires Valid()
      modifies this`records, this`routeOps, this`moved, this`movedOverflow, this`noted
      ensures Valid() && routeOps == old(routeOps) + [RouteIndex.Set(entity, state)]
      ensures Routes() == RouteIndex.SetState(old(Routes()), entity, state)
      ensures changed == CanSet(old(Routes()), entity, state)
      ensures noted == if changed && records[entity].route > 0 then old(noted) + [records[entity].route] else old(noted)
      ensures Effect(old(records), records, RouteIndex.Set(entity, state))
    {
      hide IndexFrom, WaitsFrom, AllocationFrom, MovedFrom, RouteIndex.SetState, CanSet, RouteIndex.Apply, Effect;
      RouteIndex.SetIs(Routes(), entity, state);
      LogRoute(Routes(), RouteIndex.Set(entity, state));
      changed := Promote(entity, state);
    }

    /** The body of `set_state`. */
    method Promote(entity: Rid, state: State) returns (changed: bool)
      requires MovedFrom(moved, movedOverflow, noted, wiped)
      modifies this`records, this`moved, this`movedOverflow, this`noted
      ensures MovedFrom(moved, movedOverflow, noted, wiped)
      ensures Routes() == RouteIndex.SetState(old(Routes()), entity, state)
      ensures changed == CanSet(old(Routes()), entity, state) && (changed ==> entity in records)
      ensures noted == if changed && records[entity].route > 0 then old(noted) + [records[entity].route] else old(noted)
    {
      hide MovedFrom;
      if state == Absent || entity !in records {
        return false;
      }
      if RankOf(state) <= RankOf(records[entity].state) {
        return false;
      }
      records := records[entity := records[entity].(state := state)];
      NoteMoved(records[entity].route);
      return true;
    }

    method HideRoute(route: int) returns (hidden: bool)
      requires Valid()
      modifies this`records, this`routeOps, this`moved, this`movedOverflow, this`noted
      ensures Valid() && routeOps == old(routeOps) + [RouteIndex.Hide(route)]
      ensures Routes() == RouteIndex.HideRoute(old(Routes()), route)
      ensures hidden == CanHide(old(Routes()), route)
      ensures noted == if hidden then old(noted) + [route] else old(noted)
      ensures Effect(old(records), records, RouteIndex.Hide(route))
    {
      hide IndexFrom, WaitsFrom, AllocationFrom, MovedFrom, RouteIndex.HideRoute, Effect, CanHide, RouteIndex.Apply,
          Bijective;
      var entity := if route in byRoute then byRoute[route] else 0;
      IndexIsBijective();
      RouteIndex.HideIs(Routes(), route);
      LogRoute(Routes(), RouteIndex.Hide(route));
      hidden := Conceal(entity, route);
      if hidden {
        NoteMoved(route);
      }
    }

    /** The body of `hide_route`, but for the note of what moved. */
    method Conceal(entity: Rid, route: int) returns (hidden: bool)
      requires entity == RidFromRoute(Routes(), route)
      modifies this`records
      ensures Routes() == RouteIndex.HideRoute(old(Routes()), route)
      ensures hidden == CanHide(old(Routes()), route) && (hidden ==> entity in old(records))
    {
      if entity !in records || records[entity].state != Live {
        return false;
      }
      records := records[entity := records[entity].(state := Absent)];
      return true;
    }

    method AdoptEpoch(route: int, epoch: int) returns (adopted: bool)
      requires Valid()
      modifies this`records, this`routeOps
      ensures Valid() && routeOps == old(routeOps) + [RouteIndex.Adopt(route, epoch)]
      ensures Routes() == RouteIndex.AdoptEpoch(old(Routes()), route, epoch)
      ensures adopted == CanAdopt(old(Routes()), route, epoch)
      ensures Effect(old(records), records, RouteIndex.Adopt(route, epoch))
    {
      hide IndexFrom, WaitsFrom, AllocationFrom, MovedFrom, Effect;
      var entity := RidOf(route);
      LogRoute(Routes(), RouteIndex.Adopt(route, epoch));
      if entity !in records || epoch < records[entity].wireEpoch {
        return false;
      }
      records := records[entity := records[entity].(wireEpoch := epoch)];
      return true;
    }

    method RaiseEpochToWire(route: int)
      requires Valid()
      modifies this`records, this`routeOps
      ensures Valid() && routeOps == old(routeOps) + [RaiseToWire(route)]
      ensures Routes() == RouteIndex.RaiseEpochToWire(old(Routes()), route)
      ensures Effect(old(records), records, RaiseToWire(route))
    {
      hide IndexFrom, WaitsFrom, AllocationFrom, MovedFrom, Effect;
      var entity := RidOf(route);
      LogRoute(Routes(), RaiseToWire(route));
      if entity in records && records[entity].wireEpoch > records[entity].epoch {
        records := records[entity := records[entity].(epoch := records[entity].wireEpoch)];
      }
    }

    method FollowWireEpoch(route: int)
      requires Valid()
      modifies this`records, this`routeOps
      ensures Valid() && routeOps == old(routeOps) + [FollowWire(route)]
      ensures Routes() == RouteIndex.FollowWireEpoch(old(Routes()), route)
      ensures Effect(old(records), records, FollowWire(route))
    {
      hide IndexFrom, WaitsFrom, AllocationFrom, MovedFrom, Effect;
      var entity := RidOf(route);
      LogRoute(Routes(), FollowWire(route));
      if entity in records && records[entity].wireEpoch >= 0 {
        records := records[entity := records[entity].(epoch := records[entity].wireEpoch)];
      }
    }

    method SetRouteAnchor(route: int, anchor: nat, author: nat) returns (anchored: bool)
      requires Valid()
      modifies this`records, this`routeOps
      ensures Valid() && routeOps == old(routeOps) + [Anchor(route, anchor, author)]
      ensures Routes() == RouteIndex.SetRouteAnchor(old(Routes()), route, anchor, author)
      ensures anchored == (RidFromRoute(old(Routes()), route) in old(records) && anchor != 0)
      ensures Effect(old(records), records, Anchor(route, anchor, author))
    {
      hide IndexFrom, WaitsFrom, AllocationFrom, MovedFrom, Effect;
      var entity := RidOf(route);
      LogRoute(Routes(), Anchor(route, anchor, author));
      if entity !in records || anchor == 0 {
        return false;
      }
      records := records[entity := records[entity].(anchor := anchor, anchorAuthor := author)];
      return true;
    }

    // ----- waiting callbacks -----

    method WhenLive(route: int, callback: nat, origin: int, timeout: int, onClock: bool)
      requires Valid()
      modifies this`pending, this`asked, this`called, this`waitOps
      ensures Valid()
      ensures var entry := Entry(callback, origin + timeout, timeout, onClock);
              && waitOps == old(waitOps) + [Ask(route, RouteState(Routes(), route) == Live, entry)]
              && Waiting() == LivePending.WhenLive(old(Waiting()), route, RouteState(Routes(), route) == Live, entry)
    {
      hide IndexFrom, WaitsFrom, AllocationFrom, MovedFrom, LivePending.Apply;
      var entry := Entry(callback, origin + timeout, timeout, onClock);
      var entity := RidOf(route);
      var live := entity in records && records[entity].state == Live;
      AskIs(Waiting(), route, live, entry);
      LogWait(Waiting(), Ask(route, live, entry));
      Park(route, live, entry);
    }

    method Park(route: int, live: bool, entry: Entry)
      modifies this`pending, this`asked, this`called
      ensures Waiting() == LivePending.WhenLive(old(Waiting()), route, live, entry)
    {
      asked := Added(asked, route, [entry]);
      if live && route !in deferredFlushes {
        called := Added(called, route, [entry]);
        return;
      }
      pending := Added(pending, route, [entry]);
    }

    method FlushLive(route: int)
      requires Valid()
      modifies this`pending, this`deferredFlushes, this`called, this`waitOps
      ensures Valid() && waitOps == old(waitOps) + [Flush(route)]
      ensures Waiting() == LivePending.FlushLive(old(Waiting()), route)
    {
      hide IndexFrom, WaitsFrom, AllocationFrom, MovedFrom;
      LogWait(Waiting(), Flush(route));
      FlushRoute(route);
    }

    /** The body of `flush_live`, which `resume_flushes` runs for each deferred route. */
    method FlushRoute(route: int)
      modifies this`pending, this`deferredFlushes, this`called
      ensures Waiting() == LivePending.FlushLive(old(Waiting()), route)
    {
      if route !in pending {
        return;
      }
      if flushesDeferred > 0 {
        if route !in deferredFlushes {
          deferredFlushes := deferredFlushes + [route];
        }
        return;
      }
      var waiting := pending[route];
      pending := pending - {route};
      called := Added(called, route, waiting);
    }

    method DeferFlushes()
      requires Valid()
      modifies this`flushesDeferred, this`waitOps
      ensures Valid() && waitOps == old(waitOps) + [Defer]
    {
      hide IndexFrom, WaitsFrom, AllocationFrom, MovedFrom;
      LogWait(Waiting(), Defer);
      flushesDeferred := flushesDeferred + 1;
    }

    method ResumeFlushes()
      requires Valid()
      modifies this`pending, this`deferredFlushes, this`called, this`flushesDeferred, this`waitOps
      ensures Valid() && waitOps == old(waitOps) + [Resume]
      ensures Waiting() == LivePending.ResumeFlushes(old(Waiting()))
    {
      hide IndexFrom, WaitsFrom, AllocationFrom, MovedFrom, Drained;
      LogWait(Waiting(), Resume);
      Drain();
    }

    /** The body of `resume_flushes`. */
    method Drain()
      modifies this`pending, this`deferredFlushes, this`called, this`flushesDeferred
      ensures Waiting() == LivePending.ResumeFlushes(old(Waiting()))
    {
      flushesDeferred := flushesDeferred - 1;
      while flushesDeferred == 0 && deferredFlushes != []
        invariant Drained(Waiting()) == LivePending.ResumeFlushes(old(Waiting()))
        decreases |deferredFlushes|
      {
        var route := deferredFlushes[0];
        deferredFlushes := deferredFlushes[1..];
        FlushRoute(route);
      }
    }

    method FailLive(route: int)
      requires Valid()
      modifies this`pending, this`givenUp, this`waitOps
      ensures Valid() && waitOps == old(waitOps) + [Fail(route)]
      ensures Waiting() == LivePending.FailLive(old(Waiting()), route)
    {
      hide IndexFrom, WaitsFrom, AllocationFrom, MovedFrom;
      LogWait(Waiting(), Fail(route));
      FailRoute(route);
    }

    /** The body of `fail_live`. */
    method FailRoute(route: int)
      modifies this`pending, this`givenUp
      ensures Waiting() == LivePending.FailLive(old(Waiting()), route)
    {
      if route !in pending {
        return;
      }
      var waiting := pending[route];
      pending := pending - {route};
      givenUp := Added(givenUp, route, waiting);
    }

    method Hold(route: int)
      requires Valid()
      modifies this`held, this`waitOps
      ensures Valid() && waitOps == old(waitOps) + [LivePending.Hold(route)]
    {
      hide IndexFrom, WaitsFrom, AllocationFrom, MovedFrom;
      LogWait(Waiting(), LivePending.Hold(route));
      held := held + {route};
    }

    method Release(route: int)
      requires Valid()
      modifies this`held, this`waitOps
      ensures Valid() && waitOps == old(waitOps) + [LivePending.Release(route)]
    {
      hide IndexFrom, WaitsFrom, AllocationFrom, MovedFrom;
      LogWait(Waiting(), LivePending.Release(route));
      held := held - {route};
    }

    /** Sweeps one route's list: what remains, and what expired. */
    method SweepRoute(entries: seq<Entry>, routeHeld: bool, clock: int)
      returns (remaining: seq<Entry>, fired: seq<Entry>)
      ensures remaining == Remaining(entries, routeHeld, frameCounter, clock)
      ensures fired == Expired(entries, routeHeld, frameCounter, clock)
    {
      remaining, fired := [], [];
      for at := 0 to |entries|
        invariant remaining == Remaining(entries[..at], routeHeld, frameCounter, clock)
        invariant fired == Expired(entries[..at], routeHeld, frameCounter, clock)
      {
        var entry := entries[at];
        assert entries[..at + 1][..at] == entries[..at];
        var current := if entry.onClock then clock else frameCounter;
        if routeHeld {
          entry := entry.(deadline := current + entry.span);
        } else if current >= entry.deadline {
          fired := fired + [entry];
          continue;
        }
        remaining := remaining + [entry];
      }
      assert entries[..|entries|] == entries;
    }

    /** Sweeps every route, and lists those left with nothing waiting in ascending order, each once. */
    method SweepPending(clock: int) returns (expired: seq<int>)
      modifies this`pending, this`givenUp
      ensures Swept(old(Waiting()), pending, givenUp, old(pending.Keys), clock)
      ensures forall i, j :: 0 <= i < j < |expired| ==> expired[i] < expired[j]
      ensures forall r :: r in expired <==> r in old(pending) && r !in pending
    {
      hide Swept;
      var rows := pending.Keys;
      var emptied := [];
      ghost var swept: set<int> := {};
      SweptNothing(Waiting(), clock);
      while rows != {}
        invariant rows !! swept && rows + swept == old(pending.Keys)
        invariant forall r :: r in rows ==> r in pending
        invariant forall r :: r in pending ==> r in old(pending)
        invariant Swept(old(Waiting()), pending, givenUp, swept, clock)
        invariant Distinct(emptied) && forall r :: r in emptied <==> r in swept && r !in pending
        decreases rows
      {
        var route := Pick(rows);
        rows := rows - {route};
        ghost var before := pending;
        SweepOne(old(Waiting()), swept, route, clock);
        swept := swept + {route};
        if route !in pending {
          emptied := emptied + [route];
        }
      }
      expired := Sorted(emptied);
    }

    method SweepOne(ghost before: Waits, ghost swept: set<int>, route: int, clock: int)
      requires Swept(before, pending, givenUp, swept, clock) && route in pending && route !in swept
      requires before.held == held && before.frame == frameCounter
      modifies this`pending, this`givenUp
      ensures Swept(before, pending, givenUp, swept + {route}, clock)
      ensures forall r :: r != route ==> (r in pending <==> r in old(pending))
      ensures route in pending ==> route in old(pending)
    {
      hide Remaining, Expired;
      var remaining, fired := SweepRoute(pending[route], route in held, clock);
      givenUp := givenUp[route := At(givenUp, route) + fired];
      if remaining == [] {
        pending := pending - {route};
      } else {
        pending := pending[route := remaining];
      }
    }

    /** One frame on: sweeps, and lists the routes left with nothing waiting in ascending order, each once. */
    method Poll(clock: int) returns (expired: seq<int>)
      requires Valid()
      modifies this`frameCounter, this`pending, this`givenUp, this`waitOps
      ensures Valid() && waitOps == old(waitOps) + [Sweep(clock)]
      ensures Waiting() == LivePending.Poll(old(Waiting()), clock) && Polled(old(Waiting()), Waiting(), clock)
      ensures forall i, j :: 0 <= i < j < |expired| ==> expired[i] < expired[j]
      ensures forall r :: r in expired <==> r in old(pending) && r !in pending
    {
      hide IndexFrom, WaitsFrom, AllocationFrom, MovedFrom, LivePending.Apply, LivePending.Poll, Polled;
      SweepIs(Waiting(), clock);
      PollMeaning(Waiting(), clock);
      LogWait(Waiting(), Sweep(clock));
      expired := NextFrame(clock);
    }

    // ----- rows of data -----

    /**
     Binds every route of a list of data rows: to the entity there, or to a new one where there is none.
     Afterwards each of them is live with nothing waiting on it, unless flushes are deferred, and every
     other route is as it was.
     */
    method BindRoutesData(routes: seq<int>)
      requires Valid()
      modifies this`records, this`byRoute, this`routeOps, this`leaseOps, this`cores
      modifies this`moved, this`movedOverflow, this`noted, this`pending, this`deferredFlushes, this`called, this`waitOps
      ensures Valid() && BoundAll(old(Routes()), old(pending), Routes(), pending, flushesDeferred, routes)
      ensures old(routeOps) <= routeOps && old(waitOps) <= waitOps
      ensures old(leaseOps) <= leaseOps && old(cores) <= cores
      ensures noted == old(noted) + Positive(routes)
    {
      hide IndexFrom, WaitsFrom, AllocationFrom, MovedFrom, BoundAll, Positive, DataBound;
      ghost var first := Data(Routes(), pending, Logs(routeOps, waitOps, leaseOps, cores), noted);
      NoDataBound(first, flushesDeferred);
      for index := 0 to |routes|
        invariant Valid()
        invariant DataBound(first, Data(Routes(), pending, Logs(routeOps, waitOps, leaseOps, cores), noted),
                            flushesDeferred, routes[..index])
      {
        assert routes[..index + 1] == routes[..index] + [routes[index]];
        BindNextData(first, routes[..index], routes[index]);
      }
      assert routes[..|routes|] == routes;
      DataBoundGives(first, Data(Routes(), pending, Logs(routeOps, waitOps, leaseOps, cores), noted),
                     flushesDeferred, routes);
    }

    method BindNextData(ghost first: Data, ghost early: seq<int>, route: int)
      requires Valid()
      requires DataBound(first, Data(Routes(), pending, Logs(routeOps, waitOps, leaseOps, cores), noted),
                         flushesDeferred, early)
      modifies this`records, this`byRoute, this`routeOps, this`leaseOps, this`cores
      modifies this`moved, this`movedOverflow, this`noted, this`pending, this`deferredFlushes, this`called, this`waitOps
      ensures Valid()
      ensures DataBound(first, Data(Routes(), pending, Logs(routeOps, waitOps, leaseOps, cores), noted),
                        flushesDeferred, early + [route])
    {
      hide IndexFrom, WaitsFrom, AllocationFrom, MovedFrom, BoundAll, Positive, DataBound;
      ghost var mid := Data(Routes(), pending, Logs(routeOps, waitOps, leaseOps, cores), noted);
      BindData(route);
      DataBoundStep(first, mid, Data(Routes(), pending, Logs(routeOps, waitOps, leaseOps, cores), noted),
                    flushesDeferred, early, route);
    }

    method BindData(route: int)
      requires Valid()
      modifies this`records, this`byRoute, this`routeOps, this`leaseOps, this`cores
      modifies this`moved, this`movedOverflow, this`noted, this`pending, this`deferredFlushes, this`called, this`waitOps
      ensures Valid() && BoundAll(old(Routes()), old(pending), Routes(), pending, flushesDeferred, [route])
      ensures old(routeOps) <= routeOps && old(waitOps) <= waitOps
      ensures old(leaseOps) <= leaseOps && old(cores) <= cores
      ensures noted == old(noted) + Positive([route])
    {
      hide IndexFrom, WaitsFrom, AllocationFrom, MovedFrom, SameAt, RouteState, BoundAll, LivePending.FlushLive;
      if route <= 0 {
        NoneBound(Routes(), pending, flushesDeferred, route);
        return;
      }
      ghost var before, waits := Routes(), Waiting();
      var bound := PlaceData(route);
      OneBound(before, Routes(), waits, route);
      if bound {
        FlushLive(route);
      }
    }

    method PlaceData(route: int) returns (bound: bool)
      requires Valid() && route > 0
      modifies this`records, this`byRoute, this`routeOps, this`leaseOps, this`cores, this`moved, this`movedOverflow,
               this`noted
      ensures Valid() && bound && RouteState(Routes(), route) == Live
      ensures forall r :: r != route ==> SameAt(old(Routes()), Routes(), r)
      ensures old(routeOps) <= routeOps && old(leaseOps) <= leaseOps && old(cores) <= cores
      ensures noted == old(noted) + [route]
    {
      hide IndexFrom, WaitsFrom, AllocationFrom, MovedFrom, RouteIndex.BindRoute, CanBind, SameAt, RouteState;
      ghost var before := Routes();
      var entity := DataEntity(route);
      IndexIsBijective();
      hide Bijective;
      ghost var mid := Routes();
      PlacesData(before, mid, entity, route);
      bound := BindRoute(entity, route);
    }

    /** The entity to bind at the route: the one there, or a new one. */
    method DataEntity(route: int) returns (entity: Rid)
      requires Valid() && route > 0
      modifies this`records, this`routeOps
      ensures Valid() && entity in records
      ensures forall r :: SameAt(old(Routes()), Routes(), r)
      ensures RidFromRoute(Routes(), route) == entity ||
              (RidFromRoute(Routes(), route) == 0 && records[entity].route <= 0)
      ensures old(routeOps) <= routeOps
    {
      hide IndexFrom, WaitsFrom, AllocationFrom, MovedFrom;
      entity := RidOf(route);
      if entity == 0 {
        IndexIsBijective();
        entity := EntityCreate();
        forall r ensures SameAt(old(Routes()), Routes(), r) {
          CreateKeepsRoutes(old(Routes()), entity, r);
        }
      }
    }

    /** Sets the entity at every route of a list of data rows dead, and changes nothing else. */
    method TombstoneRoutesData(routes: seq<int>)
      requires Valid()
      modifies this`records, this`routeOps, this`moved, this`movedOverflow, this`noted
      ensures Valid() && DeadAll(old(Routes()), Routes(), routes)
      ensures old(routeOps) <= routeOps && noted == old(noted) + Retired(old(Routes()), routes)
    {
      hide IndexFrom, WaitsFrom, AllocationFrom, MovedFrom, DeadAll, Retired, NewlyRetired;
      ghost var before := Routes();
      NothingDead(before);
      for index := 0 to |routes|
        invariant Valid() && DeadAll(before, Routes(), routes[..index])
        invariant old(routeOps) <= routeOps && noted == old(noted) + Retired(before, routes[..index])
      {
        assert routes[..index + 1] == routes[..index] + [routes[index]];
        ghost var mid := Routes();
        TombstoneData(routes[index]);
        RetiredStep(before, mid, routes[..index], routes[index]);
        DeadOneMore(before, mid, Routes(), routes[..index], routes[index]);
      }
      assert routes[..|routes|] == routes;
    }

    method TombstoneData(route: int)
      requires Valid()
      modifies this`records, this`routeOps, this`moved, this`movedOverflow, this`noted
      ensures Valid() && DeadAll(old(Routes()), Routes(), [route])
      ensures old(routeOps) <= routeOps && noted == old(noted) + NewlyRetired(old(Routes()), route)
    {
      hide IndexFrom, WaitsFrom, AllocationFrom, MovedFrom, RouteIndex.SetState, CanSet, DeadAll, NewlyRetired,
          Bijective;
      var entity := if route > 0 then RidOf(route) else 0;
      if entity == 0 {
        NoneDead(Routes(), route);
        return;
      }
      IndexIsBijective();
      SetsDeadOnly(Routes(), entity, route);
      var dead := SetState(entity, Dead);
    }

    /** The body of `poll`. */
    method NextFrame(clock: int) returns (expired: seq<int>)
      modifies this`frameCounter, this`pending, this`givenUp
      ensures Waiting() == LivePending.Poll(old(Waiting()), clock)
      ensures forall i, j :: 0 <= i < j < |expired| ==> expired[i] < expired[j]
      ensures forall r :: r in expired <==> r in old(pending) && r !in pending
    {
      hide Swept;
      frameCounter := frameCounter + 1;
      ghost var before := Waiting();
      expired := SweepPending(clock);
      SweptIsPoll(old(Waiting()), before, pending, givenUp, clock);
    }
  }

  /** Each listed route is live, with nothing waiting unless flushes are deferred; every other is as it was. */
  ghost predicate BoundAll(before: Index, waiting: Lists, after: Index, left: Lists, depth: int, routes: seq<int>) {
    && (forall r :: r in routes && r > 0 ==> RouteState(after, r) == Live && (depth <= 0 ==> r !in left))
    && (forall r ::
          !(r in routes && r > 0) ==>
                SameAt(before, after, r) && (r in left <==> r in waiting) && At(left, r) == At(waiting, r))
  }

  lemma BoundOneMore(before: Index, waiting: Lists, mid: Index, some: Lists, after: Index, left: Lists, depth: int,
                     early: seq<int>, route: int)
    requires BoundAll(before, waiting, mid, some, depth, early) && BoundAll(mid, some, after, left, depth, [route])
    ensures BoundAll(before, waiting, after, left, depth, early + [route])
  {
  }

  lemma NoneBound(index: Index, waiting: Lists, depth: int, route: int)
    requires route <= 0
    ensures BoundAll(index, waiting, index, waiting, depth, [route])
  {
  }

  lemma OneBound(before: Index, after: Index, waits: Waits, route: int)
    requires route > 0 && RouteState(after, route) == Live && forall r :: r != route ==> SameAt(before, after, r)
    ensures BoundAll(before, waits.pending, after, LivePending.FlushLive(waits, route).pending, waits.depth, [route])
  {
    hide SameAt, RouteState;
  }

  lemma PlacesData(before: Index, mid: Index, e: Rid, route: int)
    requires Bijective(mid) && route > 0 && e in mid.records && forall r :: SameAt(before, mid, r)
    requires RidFromRoute(mid, route) == e || (RidFromRoute(mid, route) == 0 && mid.records[e].route <= 0)
    ensures CanBind(mid, e, route) && RouteState(RouteIndex.BindRoute(mid, e, route), route) == Live
    ensures forall r :: r != route ==> SameAt(before, RouteIndex.BindRoute(mid, e, route), r)
  {
    hide RouteIndex.BindRoute;
    BindsThere(mid, e, route, route);
    forall r | r != route
      ensures SameAt(before, RouteIndex.BindRoute(mid, e, route), r)
    {
      assert SameAt(before, mid, r);
      BindsThere(mid, e, route, r);
    }
  }

  /** The positive routes of a list, in order. */
  function Positive(routes: seq<int>): seq<int> {
    if routes == [] then []
    else
      var early, last := Positive(routes[..|routes| - 1]), routes[|routes| - 1];
      if last > 0 then early + [last] else early
  }

  /** The four logs of a core. */
  datatype Logs = Logs(routeOps: seq<RouteIndex.Op>, waitOps: seq<LivePending.Op>, leaseOps: seq<RouteLeases.Op>,
                       cores: seq<Core>)

  /** Each log goes on from where it was. */
  ghost predicate Extends(before: Logs, after: Logs) {
    && before.routeOps <= after.routeOps && before.waitOps <= after.waitOps
    && before.leaseOps <= after.leaseOps && before.cores <= after.cores
  }

  /** What binding rows of data changes. */
  datatype Data = Data(index: Index, pending: Lists, logs: Logs, noted: seq<int>)

  /** These rows are bound, the logs went on, and the positive ones among the rows are noted as moved. */
  ghost predicate DataBound(first: Data, now: Data, depth: int, routes: seq<int>) {
    && BoundAll(first.index, first.pending, now.index, now.pending, depth, routes)
    && Extends(first.logs, now.logs)
    && now.noted == first.noted + Positive(routes)
  }

  lemma NoDataBound(first: Data, depth: int)
    ensures DataBound(first, first, depth, [])
  {
    NothingBound(first.index, first.pending, depth);
  }

  lemma DataBoundGives(first: Data, now: Data, depth: int, routes: seq<int>)
    requires DataBound(first, now, depth, routes)
    ensures BoundAll(first.index, first.pending, now.index, now.pending, depth, routes)
    ensures Extends(first.logs, now.logs) && now.noted == first.noted + Positive(routes)
  {
  }

  lemma DataBoundStep(first: Data, mid: Data, now: Data, depth: int, early: seq<int>, route: int)
    requires DataBound(first, mid, depth, early)
    requires BoundAll(mid.index, mid.pending, now.index, now.pending, depth, [route])
    requires Extends(mid.logs, now.logs) && now.noted == mid.noted + Positive([route])
    ensures DataBound(first, now, depth, early + [route])
  {
    hide BoundAll, Positive;
    BoundOneMore(first.index, first.pending, mid.index, mid.pending, now.index, now.pending, depth, early, route);
    PositiveAppend(early, route);
  }

  lemma PositiveAppend(routes: seq<int>, route: int)
    ensures Positive(routes + [route]) == Positive(routes) + Positive([route])
  {
    assert (routes + [route])[..|routes|] == routes;
    assert [route][..0] == [];
  }

  /** The positive routes of a list that name an entity which is not dead, each at its first place. */
  function Retired(index: Index, routes: seq<int>): seq<int> {
    if routes == [] then []
    else
      var early, last := routes[..|routes| - 1], routes[|routes| - 1];
      if last > 0 && last !in early && RidFromRoute(index, last) != 0 && RouteState(index, last) != Dead
      then Retired(index, early) + [last] else Retired(index, early)
  }

  /** The route, if it is positive and names an entity that is not dead. */
  function NewlyRetired(index: Index, route: int): seq<int> {
    if route > 0 && RidFromRoute(index, route) != 0 && RouteState(index, route) != Dead then [route] else []
  }

  lemma RetiredStep(before: Index, mid: Index, early: seq<int>, route: int)
    requires DeadAll(before, mid, early)
    ensures Retired(before, early + [route]) == Retired(before, early) + NewlyRetired(mid, route)
  {
    assert (early + [route])[..|early|] == early;
  }

  lemma NothingDead(index: Index)
    ensures DeadAll(index, index, []) && Retired(index, []) == []
  {
  }

  lemma NoneDead(index: Index, route: int)
    requires route <= 0 || RidFromRoute(index, route) == 0
    ensures DeadAll(index, index, [route]) && NewlyRetired(index, route) == []
  {
  }

  lemma NothingBound(index: Index, waiting: Lists, depth: int)
    ensures BoundAll(index, waiting, index, waiting, depth, [])
  {
  }

  lemma SetsDeadOnly(index: Index, e: Rid, route: int)
    requires Bijective(index) && RidFromRoute(index, route) == e != 0
    ensures DeadAll(index, RouteIndex.SetState(index, e, Dead), [route])
    ensures CanSet(index, e, Dead) <==> NewlyRetired(index, route) == [route]
    ensures !CanSet(index, e, Dead) <==> NewlyRetired(index, route) == []
    ensures e in RouteIndex.SetState(index, e, Dead).records
    ensures RouteIndex.SetState(index, e, Dead).records[e].route == route > 0
  {
    SetsDead(index, e, route);
    forall other | other != route
      ensures SameAt(index, RouteIndex.SetState(index, e, Dead), other)
    {
      SetKeepsOthers(index, e, Dead, other);
    }
  }

  /** Each listed route that names an entity is dead; every other is as it was, and so is what names what. */
  ghost predicate DeadAll(before: Index, after: Index, routes: seq<int>) {
    && (forall r :: RidFromRoute(after, r) == RidFromRoute(before, r))
    && (forall r :: r in routes && r > 0 && RidFromRoute(before, r) != 0 ==> RouteState(after, r) == Dead)
    && (forall r :: !(r in routes && r > 0) ==> RouteState(after, r) == RouteState(before, r))
  }

  lemma DeadOneMore(before: Index, mid: Index, after: Index, early: seq<int>, route: int)
    requires DeadAll(before, mid, early) && DeadAll(mid, after, [route])
    ensures DeadAll(before, after, early + [route])
  {
  }

  const MOVED_KEPT := 4096

  /** The index is what these calls leave. */
  ghost predicate IndexFrom(index: Index, ops: seq<RouteIndex.Op>) {
    index == RouteIndex.Run(ops) && AllProper(ops)
  }

  /** What waits is what these calls leave. */
  ghost predicate WaitsFrom(waits: Waits, ops: seq<LivePending.Op>) {
    waits == LivePending.Run(ops)
  }

  /** The allocation and the routes bound are what these calls leave, since the last `clear`. */
  ghost predicate AllocationFrom(core: Core, ops: seq<RouteLeases.Op>, cores: seq<Core>) {
    Logged(ops, cores) && cores[|ops|] == core
  }

  /** The moved list is what was noted, unless that grew past the cap or the core was wiped. */
  ghost predicate MovedFrom(moved: seq<int>, overflow: bool, noted: seq<int>, wiped: bool) {
    && overflow == (wiped || |noted| > MOVED_KEPT)
    && moved == if overflow then [] else noted
  }

  /** There is always a handle that is not taken. */
  lemma FreshHandle(taken: set<Rid>)
    ensures exists e: Rid :: e != 0 && e !in taken
  {
    var top := Topmost(taken);
    assert top + 1 !in taken;
  }

  lemma {:induction false} Topmost(taken: set<Rid>) returns (top: Rid)
    ensures forall e :: e in taken ==> e <= top
  {
    top := 0;
    if taken != {} {
      var e :| e in taken;
      var rest := Topmost(taken - {e});
      top := if e > rest then e else rest;
      assert taken == taken - {e} + {e};
    }
  }

  /** After leaving a lease for good the counter stays at or above everything known then. */
  lemma PromotedAbove(early: seq<RouteLeases.Op>, before: seq<Core>, floor: int, later: seq<RouteLeases.Op>,
                      after: seq<Core>,
                      known: int)
    requires RouteLeases.Run(early, before) && IsFloor(before[|early|].s, before[|early|].bound, floor)
    requires RouteLeases.Run(later, after) && Unleased(later) &&
             after[0] == RouteLeases.Apply(before[|early|], Leave(floor))
    requires || Issued(early, before, known) || known in before[|early|].bound
             || exists k :: 0 <= k < |before[|early|].s.grants| && known < before[|early|].s.grants[k].end
    ensures !after[|later|].s.leased && known <= after[|later|].s.counter
  {
    if Issued(early, before, known) {
      FloorCoversIssued(early, before, floor, known);
    }
    CounterOnlyGrows(later, after);
  }

  lemma FloorIsAbove(ops: seq<RouteLeases.Op>, cores: seq<Core>, core: Core, floor: int)
    requires AllocationFrom(core, ops, cores) && IsFloor(core.s, core.bound, floor)
    ensures |cores| == |ops| + 1 && forall route :: Issued(ops, cores, route) ==> route <= floor
  {
    forall route | Issued(ops, cores, route)
      ensures route <= floor
    {
      FloorCoversIssued(ops, cores, floor, route);
    }
  }

  lemma SweptNothing(before: Waits, clock: int)
    ensures Swept(before, before.pending, before.givenUp, {}, clock)
  {
  }

  /** A sweep that has dealt with the routes in `swept` and left the others as they were. */
  ghost predicate Swept(before: Waits, pending: Lists, givenUp: Lists, swept: set<int>, clock: int) {
    && (forall r :: r in pending ==>
          && r in before.pending
          && pending[r] == if r in swept then Remaining(before.pending[r], r in before.held, before.frame, clock)
                           else before.pending[r])
    && (forall r ::
          r in before.pending && r !in pending ==>
                r in swept && Remaining(before.pending[r], r in before.held, before.frame, clock) == [])
    && (forall r :: r in pending && r in swept ==> pending[r] != [])
    && givenUp.Keys == before.givenUp.Keys + swept
    && (forall r :: r in givenUp ==>
          givenUp[r] == if r in swept
                        then At(before.givenUp, r) +
                            Expired(At(before.pending, r), r in before.held, before.frame, clock)
                        else before.givenUp[r])
  }

  lemma SweptIsPoll(start: Waits, before: Waits, pending: Lists, givenUp: Lists, clock: int)
    requires before == start.(frame := start.frame + 1)
    requires Swept(before, pending, givenUp, before.pending.Keys, clock)
    ensures before.(pending := pending, givenUp := givenUp) == LivePending.Poll(start, clock)
  {
    var after := LivePending.Poll(start, clock);
    assert forall held: bool :: Expired([], held, before.frame, clock) == [];
    hide Remaining, Expired;
    forall r
      ensures r in pending <==> r in after.pending
    {
      if r in before.pending {
        assert r in before.pending.Keys;
        assert Remaining(start.pending[r], r in start.held, before.frame, clock) != [] <==> r in pending;
      }
    }
    forall r | r in pending
      ensures pending[r] == after.pending[r]
    {
      assert r in before.pending.Keys;
    }
    assert pending == after.pending;
    forall r | r in givenUp
      ensures givenUp[r] == after.givenUp[r]
    {
      assert r !in before.pending ==> At(before.givenUp, r) + [] == before.givenUp[r];
    }
    assert givenUp == after.givenUp;
  }
}
