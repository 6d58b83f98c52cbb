/**
 Route allocation in the liveness core, on values: minting from the counter or from a lease, granting
 and spending leases, and the floor a promoted peer starts its own counter from.
 */
module RouteLeases {
  import opened Wrappers

  /** Routes `next` up to but not including `end`; `peer` is 0 in a peer's own lease. */
  datatype Block = Block(peer: int, next: int, end: int)

  datatype Leases = Leases(leased: bool, lease: seq<Block>, grants: seq<Block>, counter: int, mintedHigh: int)

  const FRESH := Leases(false, [], [], 0, 0)

  function Max(a: int, b: int): int { if a > b then a else b }

  // ----- minting -----

  /** The leased branch of `reserve_route`: exhausted blocks are dropped until one has a route left. */
  function MintFrom(lease: seq<Block>): (minted: (seq<Block>, int)) {
    if lease == [] then ([], 0)
    else if lease[0].next < lease[0].end then ([lease[0].(next := lease[0].next + 1)] + lease[1..], lease[0].next)
    else MintFrom(lease[1..])
  }

  /** `reserve_route`: 0 stands for "no route left". */
  function ReserveRoute(s: Leases): (Leases, int) {
    if !s.leased then (s.(counter := s.counter + 1), s.counter + 1)
    else
      var (rest, route) := MintFrom(s.lease);
      if rest == [] then (s.(lease := []), 0)
      else (s.(lease := rest, mintedHigh := Max(s.mintedHigh, route)), route)
  }

  function ReserveBlock(s: Leases, count: int): (Leases, int) {
    if count <= 0 then (s, 0) else (s.(counter := s.counter + count), s.counter + 1)
  }

  // ----- leases and grants -----

  function InstallLease(s: Leases, base: int, count: int): Leases {
    if base <= 0 || count <= 0 then s.(leased := true)
    else s.(leased := true, lease := s.lease + [Block(0, base, base + count)])
  }

  function RestoreGrant(s: Leases, peer: int, base: int, count: int): Leases {
    if base <= 0 || count <= 0 then s else s.(grants := s.grants + [Block(peer, base, base + count)])
  }

  function GrantLease(s: Leases, peer: int, count: int): (Leases, int) {
    var (reserved, base) := ReserveBlock(s, count);
    if base == 0 then (reserved, 0)
    else (reserved.(grants := s.grants + [Block(peer, base, base + count)]), base)
  }

  /** `lease_spans`: base and count of every block that has a route left. */
  function SpansOf(lease: seq<Block>): seq<int> {
    if lease == [] then []
    else
      var block := lease[|lease| - 1];
      SpansOf(lease[..|lease| - 1]) + if block.next < block.end then [block.next, block.end - block.next] else []
  }

  function MintAbove(s: Leases, floor: int): Leases {
    s.(counter := Max(s.counter, floor))
  }

  predicate Holds(block: Block, peer: int, route: int) {
    block.peer == peer && block.next <= route < block.end
  }

  /** `lease_block_holding`: the first grant to `peer` with `route` still in it. */
  function HoldingAt(grants: seq<Block>, peer: int, route: int): (at: Option<nat>)
    ensures at.Some? ==> at.value < |grants| && Holds(grants[at.value], peer, route)
    ensures at.Some? ==> forall k :: 0 <= k < at.value ==> !Holds(grants[k], peer, route)
    ensures at.None? ==> forall k :: 0 <= k < |grants| ==> !Holds(grants[k], peer, route)
  {
    if grants == [] then None
    else
      var before := HoldingAt(grants[..|grants| - 1], peer, route);
      if before.Some? then before
      else if Holds(grants[|grants| - 1], peer, route) then Some(|grants| - 1)
      else None
  }

  /** What `spend_lease` drops: the peer's grants before the one it spent from, and its exhausted ones. */
  predicate Drops(block: Block, at: nat, peer: int, found: nat) {
    block.peer == peer && (at < found || block.next >= block.end)
  }

  /** The grants from position `at` on that survive a spend from position `found`. */
  function KeptFrom(grants: seq<Block>, peer: int, found: nat, at: nat): seq<Block>
    requires at <= |grants|
    decreases |grants| - at
  {
    if at == |grants| then []
    else (if Drops(grants[at], at, peer, found) then [] else [grants[at]]) + KeptFrom(grants, peer, found, at + 1)
  }

  function SpendGrants(grants: seq<Block>, peer: int, route: int): (seq<Block>, bool) {
    var found := HoldingAt(grants, peer, route);
    if found.None? then (grants, false)
    else (KeptFrom(grants[found.value := grants[found.value].(next := route + 1)], peer, found.value, 0), true)
  }

  function SpendLease(s: Leases, peer: int, route: int): (Leases, bool) {
    var (grants, spent) := SpendGrants(s.grants, peer, route);
    (s.(grants := grants), spent)
  }

  /** The grants that are not `peer`'s. */
  function Others(grants: seq<Block>, peer: int): seq<Block> {
    if grants == [] then []
    else if grants[0].peer == peer then Others(grants[1..], peer)
    else [grants[0]] + Others(grants[1..], peer)
  }

  /** The grants that are `peer`'s. */
  function Own(grants: seq<Block>, peer: int): seq<Block> {
    if grants == [] then []
    else if grants[0].peer == peer then [grants[0]] + Own(grants[1..], peer)
    else Own(grants[1..], peer)
  }

  function AbandonLease(s: Leases, peer: int): Leases {
    s.(grants := Others(s.grants, peer))
  }

  // ----- what spending does -----

  predicate Granted(grants: seq<Block>, peer: int, route: int) {
    exists k :: 0 <= k < |grants| && Holds(grants[k], peer, route)
  }

  /** Grants to one peer hold ever higher routes, as they do when one counter hands them out. */
  predicate GrantsAscend(grants: seq<Block>, peer: int) {
    forall i, j :: 0 <= i < j < |grants| && grants[i].peer == peer && grants[j].peer == peer ==>
      grants[i].end <= grants[j].next
  }

  lemma {:induction false} KeptHolds(grants: seq<Block>, peer: int, found: nat, at: nat, other: int, route: int)
    requires at <= |grants|
    ensures Granted(KeptFrom(grants, peer, found, at), other, route)
       <==> exists k :: at <= k < |grants| && Holds(grants[k], other, route) && !Drops(grants[k], k, peer, found)
    decreases |grants| - at
  {
    if at < |grants| {
      KeptHolds(grants, peer, found, at + 1, other, route);
      var rest, kept := KeptFrom(grants, peer, found, at + 1), KeptFrom(grants, peer, found, at);
      if !Drops(grants[at], at, peer, found) {
        assert kept[0] == grants[at] && kept[1..] == rest;
        assert forall k :: 0 < k < |kept| ==> kept[k] == rest[k - 1];
        assert forall k :: 0 <= k < |rest| ==> rest[k] == kept[k + 1];
      } else {
        assert kept == rest;
      }
    }
  }

  /** Every surviving grant was there before. */
  lemma {:induction false} KeptSource(grants: seq<Block>, peer: int, found: nat, at: nat, k: nat) returns (m: nat)
    requires at <= |grants| && k < |KeptFrom(grants, peer, found, at)|
    ensures at <= m < |grants| && grants[m] == KeptFrom(grants, peer, found, at)[k]
    decreases |grants| - at
  {
    var rest := KeptFrom(grants, peer, found, at + 1);
    if Drops(grants[at], at, peer, found) {
      m := KeptSource(grants, peer, found, at + 1, k);
    } else if k == 0 {
      m := at;
    } else {
      m := KeptSource(grants, peer, found, at + 1, k - 1);
    }
  }

  lemma PrependAscends(head: Block, rest: seq<Block>, peer: int)
    requires GrantsAscend(rest, peer)
    requires head.peer == peer ==> forall k :: 0 <= k < |rest| && rest[k].peer == peer ==> head.end <= rest[k].next
    ensures GrantsAscend([head] + rest, peer)
  {
  }

  lemma {:induction false} KeptAscends(grants: seq<Block>, peer: int, found: nat, at: nat, other: int)
    requires at <= |grants| && GrantsAscend(grants, other)
    ensures GrantsAscend(KeptFrom(grants, peer, found, at), other)
    decreases |grants| - at
  {
    if at < |grants| {
      KeptAscends(grants, peer, found, at + 1, other);
      var rest := KeptFrom(grants, peer, found, at + 1);
      forall k | 0 <= k < |rest| && rest[k].peer == other && grants[at].peer == other
        ensures grants[at].end <= rest[k].next
      {
        var m := KeptSource(grants, peer, found, at + 1, k);
      }
      PrependAscends(grants[at], rest, other);
    }
  }

  /**
   A spend succeeds exactly when the route is still granted to the peer. Then the peer's higher routes
   stay granted and the spent route and every lower one are gone; without it nothing changes.
   */
  lemma SpendMeaning(grants: seq<Block>, peer: int, route: int, other: int, x: int)
    requires GrantsAscend(grants, peer)
    ensures var (after, spent) := SpendGrants(grants, peer, route);
            && spent == Granted(grants, peer, route)
            && (!spent ==> after == grants)
            && (spent ==> Granted(after, peer, x) == (Granted(grants, peer, x) && x > route))
            && (other != peer ==> Granted(after, other, x) == Granted(grants, other, x))
  {
    var found := HoldingAt(grants, peer, route);
    if found.Some? {
      SpentOwn(grants, peer, route, found.value, x);
      if other != peer {
        SpentOther(grants, peer, route, found.value, other, x);
      }
    }
  }

  /** The grants once `found` is marked spent up to `route`. */
  function Marked(grants: seq<Block>, found: nat, route: int): seq<Block>
    requires found < |grants|
  {
    grants[found := grants[found].(next := route + 1)]
  }

  lemma SpentOwn(grants: seq<Block>, peer: int, route: int, f: nat, x: int)
    requires GrantsAscend(grants, peer) && f < |grants| && Holds(grants[f], peer, route)
    ensures Granted(KeptFrom(Marked(grants, f, route), peer, f, 0), peer, x) == (Granted(grants, peer, x) && x > route)
  {
    hide KeptFrom;
    var marked := Marked(grants, f, route);
    KeptHolds(marked, peer, f, 0, peer, x);
    if Granted(grants, peer, x) && x > route {
      var k :| 0 <= k < |grants| && Holds(grants[k], peer, x);
      assert k >= f;
      assert Holds(marked[k], peer, x) && !Drops(marked[k], k, peer, f);
    }
    if Granted(KeptFrom(marked, peer, f, 0), peer, x) {
      var k :| 0 <= k < |marked| && Holds(marked[k], peer, x) && !Drops(marked[k], k, peer, f);
      assert k >= f && Holds(grants[k], peer, x);
    }
  }

  lemma SpentOther(grants: seq<Block>, peer: int, route: int, f: nat, other: int, x: int)
    requires f < |grants| && grants[f].peer == peer && other != peer
    ensures Granted(KeptFrom(Marked(grants, f, route), peer, f, 0), other, x) == Granted(grants, other, x)
  {
    hide KeptFrom;
    var marked := Marked(grants, f, route);
    KeptHolds(marked, peer, f, 0, other, x);
    if Granted(grants, other, x) {
      var k :| 0 <= k < |grants| && Holds(grants[k], other, x);
      assert Holds(marked[k], other, x) && !Drops(marked[k], k, peer, f);
    }
    if Granted(KeptFrom(marked, peer, f, 0), other, x) {
      var k :| 0 <= k < |marked| && Holds(marked[k], other, x) && !Drops(marked[k], k, peer, f);
      assert Holds(grants[k], other, x);
    }
  }

  lemma {:induction false} KeptOthers(grants: seq<Block>, peer: int, found: nat, at: nat)
    requires at <= |grants|
    ensures Others(KeptFrom(grants, peer, found, at), peer) == Others(grants[at..], peer)
    decreases |grants| - at
  {
    if at < |grants| {
      KeptOthers(grants, peer, found, at + 1);
      var rest, kept := KeptFrom(grants, peer, found, at + 1), KeptFrom(grants, peer, found, at);
      assert grants[at..][1..] == grants[at + 1..];
      if !Drops(grants[at], at, peer, found) {
        assert kept[0] == grants[at] && kept[1..] == rest;
      } else {
        assert kept == rest;
      }
    }
  }

  lemma {:induction false} OthersIgnoreOwn(grants: seq<Block>, peer: int, at: nat, block: Block)
    requires at < |grants| && grants[at].peer == peer && block.peer == peer
    ensures Others(grants[at := block], peer) == Others(grants, peer)
  {
    if at > 0 {
      OthersIgnoreOwn(grants[1..], peer, at - 1, block);
      assert grants[at := block][1..] == grants[1..][at - 1 := block];
    } else {
      assert grants[0 := block][1..] == grants[1..];
    }
  }

  /** A spend leaves every other peer's grants exactly as they were, in order. */
  lemma SpendLeavesOthers(grants: seq<Block>, peer: int, route: int)
    ensures Others(SpendGrants(grants, peer, route).0, peer) == Others(grants, peer)
  {
    var found := HoldingAt(grants, peer, route);
    if found.Some? {
      var f := found.value;
      var marked := grants[f := grants[f].(next := route + 1)];
      KeptOthers(marked, peer, f, 0);
      assert marked[0..] == marked;
      OthersIgnoreOwn(grants, peer, f, marked[f]);
    }
  }

  lemma SpendAscends(grants: seq<Block>, peer: int, route: int, other: int)
    requires GrantsAscend(grants, other)
    ensures GrantsAscend(SpendGrants(grants, peer, route).0, other)
  {
    var found := HoldingAt(grants, peer, route);
    if found.Some? {
      var f := found.value;
      var marked := grants[f := grants[f].(next := route + 1)];
      assert GrantsAscend(marked, other);
      KeptAscends(marked, peer, f, 0, other);
    }
  }

  /** After a spend the peer keeps no block without a route left. */
  lemma SpendDropsExhausted(grants: seq<Block>, peer: int, route: int, k: nat)
    requires var (after, spent) := SpendGrants(grants, peer, route); spent && k < |after| && after[k].peer == peer
    ensures var after := SpendGrants(grants, peer, route).0; after[k].next < after[k].end
  {
    var f := HoldingAt(grants, peer, route).value;
    KeptHasRoutes(grants[f := grants[f].(next := route + 1)], peer, f, 0, k);
  }

  lemma {:induction false} KeptHasRoutes(grants: seq<Block>, peer: int, found: nat, at: nat, k: nat)
    requires at <= |grants| && k < |KeptFrom(grants, peer, found, at)|
    requires KeptFrom(grants, peer, found, at)[k].peer == peer
    ensures var block := KeptFrom(grants, peer, found, at)[k]; block.next < block.end
    decreases |grants| - at
  {
    var rest := KeptFrom(grants, peer, found, at + 1);
    if Drops(grants[at], at, peer, found) {
      assert KeptFrom(grants, peer, found, at) == rest;
      KeptHasRoutes(grants, peer, found, at + 1, k);
    } else if k > 0 {
      assert KeptFrom(grants, peer, found, at)[k] == rest[k - 1];
      KeptHasRoutes(grants, peer, found, at + 1, k - 1);
    }
  }

  // ----- granting and minting -----

  /** A grant hands exactly the next `count` routes of the counter to the peer, and nothing to anyone else. */
  lemma GrantMeaning(s: Leases, peer: int, count: int, other: int, route: int)
    requires s.counter >= 0
    ensures var (after, base) := GrantLease(s, peer, count);
            && after == s.(counter := after.counter, grants := after.grants)
            && after.counter == (if count > 0 then s.counter + count else s.counter)
            && base == (if count > 0 then s.counter + 1 else 0)
            && (Granted(after.grants, other, route) <==>
                  || Granted(s.grants, other, route)
                  || (other == peer && s.counter < route <= s.counter + count))
  {
    if count > 0 {
      var after := s.grants + [Block(peer, s.counter + 1, s.counter + 1 + count)];
      assert forall k :: 0 <= k < |s.grants| ==> after[k] == s.grants[k];
      assert after[|s.grants|] == Block(peer, s.counter + 1, s.counter + 1 + count);
    }
  }

  /** A restored span is granted to the peer again, and nothing else is. */
  lemma RestoreMeaning(s: Leases, peer: int, base: int, count: int, other: int, route: int)
    ensures var after := RestoreGrant(s, peer, base, count);
            && after == s.(grants := after.grants)
            && (Granted(after.grants, other, route) <==>
                  Granted(s.grants, other, route) || (other == peer && 0 < base <= route < base + count))
  {
    if base > 0 && count > 0 {
      var after := s.grants + [Block(peer, base, base + count)];
      assert forall k :: 0 <= k < |s.grants| ==> after[k] == s.grants[k];
      assert after[|s.grants|] == Block(peer, base, base + count);
    }
  }

  /** Abandoning a peer takes back every route granted to it, and none of another's. */
  lemma {:induction false} AbandonMeaning(s: Leases, peer: int, other: int, route: int)
    ensures var after := AbandonLease(s, peer);
            && after == s.(grants := after.grants)
            && (Granted(after.grants, other, route) <==> other != peer && Granted(s.grants, other, route))
  {
    OthersHold(s.grants, peer, other, route);
  }

  lemma {:induction false} OthersHold(grants: seq<Block>, peer: int, other: int, route: int)
    ensures Granted(Others(grants, peer), other, route) <==> other != peer && Granted(grants, other, route)
  {
    if grants != [] {
      OthersHold(grants[1..], peer, other, route);
      GrantedFirst(grants[0], grants[1..], other, route);
      assert grants == [grants[0]] + grants[1..];
      GrantedFirst(grants[0], Others(grants[1..], peer), other, route);
    }
  }

  lemma GrantedFirst(block: Block, grants: seq<Block>, peer: int, route: int)
    ensures Granted([block] + grants, peer, route) <==> Holds(block, peer, route) || Granted(grants, peer, route)
  {
    var all := [block] + grants;
    assert all[0] == block && forall k :: 0 <= k < |grants| ==> all[k + 1] == grants[k];
  }

  /** An unleased core mints the number after the greatest of its counter and every floor it was raised to. */
  lemma MintsNext(s: Leases, floor: int)
    requires !s.leased
    ensures ReserveRoute(s).1 == s.counter + 1 == ReserveRoute(s).0.counter
    ensures ReserveRoute(MintAbove(s, floor)).1 == (if floor > s.counter then floor else s.counter) + 1
    ensures ReserveRoute(LeaveLease(s, floor)).1 == floor + 1 == ReserveRoute(LeaveLease(s, floor)).0.counter
  {
  }

  // ----- the route floor -----

  ghost predicate CoversAll(s: Leases, bound: set<int>, floor: int) {
    && s.counter <= floor && s.mintedHigh <= floor
    && (forall r :: r in bound ==> r <= floor)
    && (forall k :: 0 <= k < |s.lease| ==> s.lease[k].end - 1 <= floor)
    && (forall k :: 0 <= k < |s.grants| ==> s.grants[k].end - 1 <= floor)
  }

  /** `route_floor`: the least number no route this core knows exceeds. */
  ghost predicate IsFloor(s: Leases, bound: set<int>, floor: int) {
    && CoversAll(s, bound, floor)
    && (|| floor == s.counter || floor == s.mintedHigh || floor in bound
        || (exists k :: 0 <= k < |s.lease| && floor == s.lease[k].end - 1)
        || (exists k :: 0 <= k < |s.grants| && floor == s.grants[k].end - 1))
  }

  /** `leave_lease`, given the floor the loop over the books computes. */
  function LeaveLease(s: Leases, floor: int): Leases {
    s.(counter := floor, leased := false, lease := [])
  }

  // ----- a whole run of one core, and its promotion -----

  datatype Op =
    | Reserve
    | Grant(peer: int, count: int)
    | Restore(peer: int, base: int, count: int)
    | Spend(peer: int, route: int)
    | Abandon(peer: int)
    | Install(base: int, count: int)
    | Leave(floor: int)
    | Raise(floor: int)
    | Bind(route: int)
    | Unbind(route: int)

  /** The allocation state and the routes bound in the index. */
  datatype Core = Core(s: Leases, bound: set<int>)

  function Apply(core: Core, op: Op): Core {
    match op
    case Reserve => core.(s := ReserveRoute(core.s).0)
    case Grant(peer, count) => core.(s := GrantLease(core.s, peer, count).0)
    case Restore(peer, base, count) => core.(s := RestoreGrant(core.s, peer, base, count))
    case Spend(peer, route) => core.(s := SpendLease(core.s, peer, route).0)
    case Abandon(peer) => core.(s := AbandonLease(core.s, peer))
    case Install(base, count) => core.(s := InstallLease(core.s, base, count))
    case Leave(floor) => core.(s := LeaveLease(core.s, floor))
    case Raise(floor) => core.(s := MintAbove(core.s, floor))
    case Bind(route) => core.(bound := core.bound + {route})
    case Unbind(route) => core.(bound := core.bound - {route})
  }

  /** The only outside choice is that `leave_lease` uses the floor of that moment. */
  ghost predicate Allowed(core: Core, op: Op) {
    op.Leave? ==> IsFloor(core.s, core.bound, op.floor)
  }

  /** `route` is handed out by `op`: minted, leased to this core, or granted from its counter. */
  predicate Issues(core: Core, op: Op, route: int) {
    match op
    case Reserve => route != 0 && route == ReserveRoute(core.s).1
    case Grant(peer, count) => core.s.counter < route <= core.s.counter + count
    case Install(base, count) => 0 < base <= route < base + count
    case _ => false
  }

  ghost predicate Run(ops: seq<Op>, cores: seq<Core>) {
    && |cores| == |ops| + 1
    && forall i :: 0 <= i < |ops| ==> Allowed(cores[i], ops[i]) && cores[i + 1] == Apply(cores[i], ops[i])
  }

  /** `route` was handed out somewhere in the run. */
  ghost predicate Issued(ops: seq<Op>, cores: seq<Core>, route: int)
    requires |cores| == |ops| + 1
  {
    exists i :: 0 <= i < |ops| && Issues(cores[i], ops[i], route)
  }

  /** A route is accounted for by the counters or is still in the lease. */
  predicate Remembers(s: Leases, route: int) {
    route <= s.counter || route <= s.mintedHigh || exists k ::
          0 <= k < |s.lease| && s.lease[k].next <= route < s.lease[k].end
  }

  lemma {:induction false} MintKeepsRoutes(lease: seq<Block>, route: int)
    requires exists k :: 0 <= k < |lease| && lease[k].next <= route < lease[k].end
    ensures var (rest, minted) := MintFrom(lease);
            rest != [] && (route == minted || exists k :: 0 <= k < |rest| && rest[k].next <= route < rest[k].end)
  {
    var k :| 0 <= k < |lease| && lease[k].next <= route < lease[k].end;
    var rest := MintFrom(lease).0;
    if lease[0].next < lease[0].end {
      assert forall m :: 0 < m < |lease| ==> rest[m] == lease[m];
      assert rest[k].next <= route < rest[k].end || route == lease[0].next;
    } else {
      assert lease[1..][k - 1] == lease[k];
      MintKeepsRoutes(lease[1..], route);
    }
  }

  lemma {:induction false} MintIsHeld(lease: seq<Block>)
    ensures var (rest, minted) := MintFrom(lease);
            rest != [] ==> exists k :: 0 <= k < |lease| && lease[k].next <= minted < lease[k].end
  {
    if lease != [] && lease[0].next >= lease[0].end {
      MintIsHeld(lease[1..]);
      var (rest, minted) := MintFrom(lease);
      if rest != [] {
        var k :| 0 <= k < |lease[1..]| && lease[1..][k].next <= minted < lease[1..][k].end;
        assert lease[k + 1] == lease[1..][k];
      }
    }
  }

  lemma ApplyRemembers(core: Core, op: Op, route: int)
    requires Allowed(core, op) && (Remembers(core.s, route) || Issues(core, op, route))
    ensures Remembers(Apply(core, op).s, route)
  {
    var s, after := core.s, Apply(core, op).s;
    match op {
      case Reserve =>
        if s.leased {
          MintIsHeld(s.lease);
          if exists k :: 0 <= k < |s.lease| && s.lease[k].next <= route < s.lease[k].end {
            MintKeepsRoutes(s.lease, route);
          }
        }
      case Install(base, count) =>
        if Issues(core, op, route) {
          assert after.lease[|s.lease|] == Block(0, base, base + count);
        } else if exists k :: 0 <= k < |s.lease| && s.lease[k].next <= route < s.lease[k].end {
          var k :| 0 <= k < |s.lease| && s.lease[k].next <= route < s.lease[k].end;
          assert after.lease[k] == s.lease[k];
        }
      case _ =>
    }
  }

  /** Nothing handed out in a run is forgotten, not even a lease that was used up and dropped. */
  lemma {:induction false} RunRemembers(ops: seq<Op>, cores: seq<Core>, route: int)
    requires Run(ops, cores) && Issued(ops, cores, route)
    ensures Remembers(cores[|ops|].s, route)
  {
    var n := |ops| - 1;
    if !Issues(cores[n], ops[n], route) {
      RunRemembers(ops[..n], cores[..n + 1], route);
    }
    ApplyRemembers(cores[n], ops[n], route);
  }

  const BLANK := Core(FRESH, {})

  /** The calls made since the last `clear` and what each left. */
  ghost predicate Logged(ops: seq<Op>, cores: seq<Core>) {
    Run(ops, cores) && cores[0] == BLANK
  }

  lemma LogGrows(ops: seq<Op>, cores: seq<Core>, op: Op)
    requires Logged(ops, cores) && Allowed(cores[|ops|], op)
    ensures Logged(ops + [op], cores + [Apply(cores[|ops|], op)])
    ensures forall route ::
              Issues(cores[|ops|], op, route) ==> Issued(ops + [op], cores + [Apply(cores[|ops|], op)], route)
  {
    hide Allowed, Apply;
    var all, through := ops + [op], cores + [Apply(cores[|ops|], op)];
    forall i | 0 <= i < |all|
      ensures Allowed(through[i], all[i]) && through[i + 1] == Apply(through[i], all[i])
    {
      if i < |ops| {
        assert all[i] == ops[i] && through[i] == cores[i] && through[i + 1] == cores[i + 1];
      }
    }
    forall route | Issues(cores[|ops|], op, route)
      ensures Issued(all, through, route)
    {
      assert Issues(through[|ops|], all[|ops|], route);
    }
  }

  /** What a log says was issued, every longer one says too. */
  lemma IssuedStays(ops: seq<Op>, cores: seq<Core>, more: seq<Op>, through: seq<Core>, route: int)
    requires |cores| == |ops| + 1 && |through| == |more| + 1 && ops <= more && cores <= through
    requires Issued(ops, cores, route)
    ensures Issued(more, through, route)
  {
    var i :| 0 <= i < |ops| && Issues(cores[i], ops[i], route);
    assert Issues(through[i], more[i], route);
  }

  /** No call makes a counter negative, which is what a grant of block 0 would take. */
  lemma {:induction false} CounterIsNatural(ops: seq<Op>, cores: seq<Core>)
    requires Logged(ops, cores)
    ensures cores[|ops|].s.counter >= 0
  {
    if ops != [] {
      CounterIsNatural(ops[..|ops| - 1], cores[..|ops|]);
    }
  }

  /** Mints and grants alone, from a core that never left or raised its counter. */
  ghost predicate OwnCounter(ops: seq<Op>) {
    forall i :: 0 <= i < |ops| ==> !ops[i].Install? && !ops[i].Leave? && !ops[i].Raise?
  }

  /** No route is skipped: every one up to the counter was minted or granted. */
  lemma {:induction false} NoRouteSkipped(ops: seq<Op>, cores: seq<Core>, route: int)
    requires Logged(ops, cores) && OwnCounter(ops) && 1 <= route <= cores[|ops|].s.counter
    ensures Issued(ops, cores, route)
  {
    if ops != [] {
      var n := |ops| - 1;
      NotLeased(ops[..n], cores[..n + 1]);
      if route <= cores[n].s.counter {
        NoRouteSkipped(ops[..n], cores[..n + 1], route);
        IssuedStays(ops[..n], cores[..n + 1], ops, cores, route);
      } else {
        assert Issues(cores[n], ops[n], route);
      }
    }
  }

  lemma {:induction false} NotLeased(ops: seq<Op>, cores: seq<Core>)
    requires Logged(ops, cores) && OwnCounter(ops)
    ensures !cores[|ops|].s.leased
  {
    if ops != [] {
      NotLeased(ops[..|ops| - 1], cores[..|ops|]);
    }
  }

  /** The counter `leave_lease` starts from is at or above everything the core ever minted, leased or granted. */
  lemma FloorCoversIssued(ops: seq<Op>, cores: seq<Core>, floor: int, route: int)
    requires Run(ops, cores) && IsFloor(cores[|ops|].s, cores[|ops|].bound, floor) && Issued(ops, cores, route)
    ensures route <= floor
  {
    RunRemembers(ops, cores, route);
  }

  /** No new lease is installed: the core keeps minting from its own counter. */
  ghost predicate Unleased(ops: seq<Op>) {
    forall i :: 0 <= i < |ops| ==> !ops[i].Install?
  }

  lemma {:induction false} CounterOnlyGrows(ops: seq<Op>, cores: seq<Core>)
    requires Run(ops, cores) && Unleased(ops) && !cores[0].s.leased
    ensures !cores[|ops|].s.leased && cores[0].s.counter <= cores[|ops|].s.counter
  {
    if ops != [] {
      var n := |ops| - 1;
      CounterOnlyGrows(ops[..n], cores[..n + 1]);
    }
  }

  /**
   Promotion safety. Take any run of a core, then `leave_lease`, then any run without a new lease. What
   the core mints or grants after that is above every route it had ever minted, been leased or granted
   before leaving, and above every route bound or restored as a grant at that moment.
   */
  lemma PromotionIsSafe(ops: seq<Op>, cores: seq<Core>, floor: int, later: seq<Op>, laterCores: seq<Core>, next: Op,
                        route: int, known: int)
    requires Run(ops, cores) && IsFloor(cores[|ops|].s, cores[|ops|].bound, floor)
    requires Run(later, laterCores) && Unleased(later)
    requires laterCores[0] == Apply(cores[|ops|], Leave(floor))
    requires (next.Reserve? || next.Grant?) && Issues(laterCores[|later|], next, route)
    requires || Issued(ops, cores, known) || known in cores[|ops|].bound
             || exists k :: 0 <= k < |cores[|ops|].s.grants| && known < cores[|ops|].s.grants[k].end
    ensures route > known
  {
    var core := cores[|ops|];
    if Issued(ops, cores, known) {
      RunRemembers(ops, cores, known);
    }
    assert known <= floor;
    CounterOnlyGrows(later, laterCores);
  }

  /** "At that moment" is needed: a route bound and unbound again is not above the floor's reach. */
  lemma UnboundRouteIsForgotten(route: int)
    requires route > 0
    ensures var core := Apply(Apply(Core(FRESH, {}), Bind(route)), Unbind(route));
            IsFloor(core.s, core.bound, 0) && ReserveRoute(Apply(core, Leave(0)).s).1 == 1
  {
  }
}
