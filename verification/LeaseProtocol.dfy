/**
 The lease protocol, both sides: one unleased server, any number of leaseholders, grants travelling to
 them in order, and their mints presented back to the server in order, with any of them lost.
 */
module LeaseProtocol {
  import opened Wrappers
  import opened RouteLeases

  /**
   A leaseholder as the protocol sees it: its allocation state, the grants still on their way to it,
   and the routes it has minted that the server has not seen yet.
   */
  datatype Peer = Peer(core: Leases, inFlight: seq<Block>, claims: seq<int>)

  /** `accepted` is the highest route the server has accepted from each peer; `minted` every mint so far. */
  datatype System = System(server: Leases, peers: map<int, Peer>, accepted: map<int, int>, minted: seq<int>)

  datatype Step =
    | ServerMint
    | ServerRaise(floor: int)
    | Join(peer: int)
    | Offer(peer: int, count: int)
    | Deliver(peer: int)
    | PeerMint(peer: int)
    | Present(peer: int, skip: nat)
    | Depart(peer: int)
    | Promote(peer: int, bound: set<int>, own: int, told: int, reports: seq<int>)

  /** A leaseholder that has joined but not been granted anything. */
  const JOINED := Peer(InstallLease(FRESH, 0, 0), [], [])

  /** No survivor reports twice. */
  predicate Lists(reports: seq<int>, survivors: set<int>) {
    && (forall i :: 0 <= i < |reports| ==> reports[i] in survivors)
    && (forall i, j :: 0 <= i < j < |reports| ==> reports[i] != reports[j])
  }

  /**
   The peers named by a step are there, and a presented route is one of the peer's. A new server leaves
   its lease at the floor of that moment; what it is told and who reports is up to the others.
   */
  ghost predicate Enabled(sys: System, step: Step) {
    match step
    case ServerMint => true
    case ServerRaise(floor) => true
    case Join(p) => p !in sys.peers
    case Offer(p, count) => p in sys.peers
    case Deliver(p) => p in sys.peers && sys.peers[p].inFlight != []
    case PeerMint(p) => p in sys.peers
    case Present(p, skip) => p in sys.peers && skip < |sys.peers[p].claims|
    case Depart(p) => p in sys.peers
    case Promote(p, bound, own, told, reports) =>
      p in sys.peers && IsFloor(sys.peers[p].core, bound, own) && Lists(reports, sys.peers.Keys - {p})
  }

  function AcceptedOf(accepted: map<int, int>, p: int): int {
    if p in accepted then accepted[p] else 0
  }

  /** What the server answers when `p` presents its claim number `skip`, the ones before it being lost. */
  function Presented(sys: System, p: int, skip: nat): (Leases, bool)
    requires p in sys.peers && skip < |sys.peers[p].claims|
  {
    SpendLease(sys.server, p, sys.peers[p].claims[skip])
  }

  function Next(sys: System, step: Step): System
    requires Enabled(sys, step)
  {
    match step
    case ServerMint =>
      var (server, route) := ReserveRoute(sys.server);
      sys.(server := server, minted := sys.minted + [route])
    case ServerRaise(floor) => sys.(server := MintAbove(sys.server, floor))
    case Join(p) => sys.(peers := sys.peers[p := JOINED])
    case Offer(p, count) =>
      var (server, base) := GrantLease(sys.server, p, count);
      var peer := sys.peers[p];
      if base == 0 then sys.(server := server)
      else sys.(server := server,
                peers := sys.peers[p := peer.(inFlight := peer.inFlight + [Block(p, base, base + count)])])
    case Deliver(p) =>
      var peer := sys.peers[p];
      var block := peer.inFlight[0];
      sys.(peers := sys.peers[p := peer.(core := InstallLease(peer.core, block.next, block.end - block.next),
                                         inFlight := peer.inFlight[1..])])
    case PeerMint(p) =>
      var peer := sys.peers[p];
      var (core, route) := ReserveRoute(peer.core);
      if route == 0 then sys.(peers := sys.peers[p := peer.(core := core)])
      else sys.(peers := sys.peers[p := peer.(core := core, claims := peer.claims + [route])],
                minted := sys.minted + [route])
    case Present(p, skip) =>
      var peer := sys.peers[p];
      var (server, spent) := Presented(sys, p, skip);
      sys.(server := server,
           peers := sys.peers[p := peer.(claims := peer.claims[skip + 1..])],
           accepted := if spent then sys.accepted[p := peer.claims[skip]] else sys.accepted)
    case Depart(p) => sys.(server := AbandonLease(sys.server, p), peers := sys.peers - {p})
    case Promote(p, bound, own, told, reports) => Promoted(sys, p, own, told, reports)
  }

  /** `restore_grant` for each span `lease_spans` reports of one survivor's lease. */
  function RestoreSpans(server: Leases, p: int, lease: seq<Block>): (restored: Leases)
    ensures restored == server.(grants := restored.grants)
  {
    if lease == [] then server
    else
      var restored := RestoreSpans(server, p, lease[..|lease| - 1]);
      var block := lease[|lease| - 1];
      if block.next < block.end then RestoreGrant(restored, p, block.next, block.end - block.next) else restored
  }

  /** What a report carries: bases and counts by turns. Each pair is restored as one grant. */
  function RestoreReported(server: Leases, p: int, spans: seq<int>): Leases {
    if |spans| < 2 then server
    else RestoreGrant(RestoreReported(server, p, spans[..|spans| - 2]), p, spans[|spans| - 2], spans[|spans| - 1])
  }

  /** The spans a leaseholder reports are its unspent lease: restoring the report restores the lease. */
  lemma {:induction false} SpansCarryTheLease(server: Leases, p: int, lease: seq<Block>)
    ensures RestoreReported(server, p, SpansOf(lease)) == RestoreSpans(server, p, lease)
  {
    if lease != [] {
      var early, block := lease[..|lease| - 1], lease[|lease| - 1];
      SpansCarryTheLease(server, p, early);
      if block.next < block.end {
        var spans := SpansOf(lease);
        assert spans == SpansOf(early) + [block.next, block.end - block.next];
        assert spans[..|spans| - 2] == SpansOf(early);
      } else {
        assert SpansOf(lease) == SpansOf(early) + [] == SpansOf(early);
      }
    }
  }

  const RESYNC_LEASES_MAX := 127

  /** A report carries no more spans than that. */
  function Capped(spans: seq<int>): seq<int> {
    if |spans| <= 2 * RESYNC_LEASES_MAX then spans else spans[..2 * RESYNC_LEASES_MAX]
  }

  lemma {:induction false} ReportedGrants(server: Leases, p: int, spans: seq<int>)
    requires |spans| % 2 == 0 && forall i :: 0 <= i < |spans| ==> spans[i] > 0
    ensures |RestoreReported(server, p, spans).grants| == |server.grants| + |spans| / 2
  {
    if |spans| >= 2 {
      ReportedGrants(server, p, spans[..|spans| - 2]);
    }
  }

  lemma {:induction false} SpansArePairs(lease: seq<Block>)
    requires forall k :: 0 <= k < |lease| ==> lease[k].next >= 1
    ensures |SpansOf(lease)| % 2 == 0 && forall i :: 0 <= i < |SpansOf(lease)| ==> SpansOf(lease)[i] > 0
  {
    if lease != [] {
      SpansArePairs(lease[..|lease| - 1]);
    }
  }

  /** A capped report restores the whole unspent lease exactly when the lease has at most 127 blocks left. */
  lemma CappedReportCarriesIff(server: Leases, p: int, lease: seq<Block>)
    requires forall k :: 0 <= k < |lease| ==> lease[k].next >= 1
    ensures RestoreReported(server, p, Capped(SpansOf(lease))) == RestoreSpans(server, p, lease) <==>
              |SpansOf(lease)| / 2 <= 127
  {
    hide RestoreReported, RestoreSpans, SpansOf;
    SpansCarryTheLease(server, p, lease);
    SpansArePairs(lease);
    ReportedGrants(server, p, SpansOf(lease));
    ReportedGrants(server, p, Capped(SpansOf(lease)));
  }

  function RestoreAll(server: Leases, peers: map<int, Peer>, reports: seq<int>): Leases
    requires forall i :: 0 <= i < |reports| ==> reports[i] in peers
  {
    if reports == [] then server
    else
      var p := reports[|reports| - 1];
      RestoreSpans(RestoreAll(server, peers, reports[..|reports| - 1]), p, peers[p].core.lease)
  }

  /**
   The server leaves in `p`'s favour. `p` leaves its own lease at its floor `own` and mints above the
   greatest floor it is told. The unspent lease of each survivor that reports is restored as grants; the
   others are dropped when the deadline passes, and whatever was on its way to or from the old server is
   lost.
   */
  function Promoted(sys: System, p: int, own: int, told: int, reports: seq<int>): System
    requires p in sys.peers && Lists(reports, sys.peers.Keys - {p})
  {
    var server := RestoreAll(LeaveLease(sys.peers[p].core, own), sys.peers, reports);
    sys.(server := MintAbove(server, told),
         peers := map q | q in sys.peers && q in reports :: sys.peers[q].(inFlight := [], claims := []))
  }

  // ----- the invariant -----

  function Chain(peer: Peer): seq<Block> {
    peer.core.lease + peer.inFlight
  }

  ghost predicate InChain(chain: seq<Block>, route: int) {
    exists k :: 0 <= k < |chain| && chain[k].next <= route < chain[k].end
  }

  /** The blocks of a chain follow each other upwards within the routes handed out so far. */
  ghost predicate ChainOk(chain: seq<Block>, counter: int) {
    && (forall k :: 0 <= k < |chain| ==> 1 <= chain[k].next <= chain[k].end <= counter + 1)
    && (forall i, j :: 0 <= i < j < |chain| ==> chain[i].end <= chain[j].next)
  }

  /** Every block of the chain starts above `high`. */
  ghost predicate Above(chain: seq<Block>, high: int) {
    forall k :: 0 <= k < |chain| ==> high < chain[k].next
  }

  ghost predicate ClaimsOk(claims: seq<int>, chain: seq<Block>, accepted: int) {
    && (forall i :: 0 <= i < |claims| ==> accepted < claims[i] && Above(chain, claims[i]))
    && (forall i, j :: 0 <= i < j < |claims| ==> claims[i] < claims[j])
    && Above(chain, accepted)
  }

  ghost predicate PeerOk(server: Leases, accepted: int, p: int, peer: Peer) {
    && peer.core.leased && peer.core.grants == []
    && (forall k :: 0 <= k < |peer.inFlight| ==> peer.inFlight[k].next < peer.inFlight[k].end)
    && ChainOk(Chain(peer), server.counter)
    && ClaimsOk(peer.claims, Chain(peer), accepted)
    && (forall r :: r in peer.claims || InChain(Chain(peer), r) ==> Granted(server.grants, p, r))
  }

  ghost predicate ServerOk(server: Leases, accepted: map<int, int>) {
    && !server.leased && 0 <= server.counter
    && (forall k ::
          0 <= k < |server.grants| ==> 1 <= server.grants[k].next && server.grants[k].end <= server.counter + 1)
    && (forall p :: GrantsAscend(server.grants, p))
    && (forall p :: 0 <= AcceptedOf(accepted, p) <= server.counter)
    && (forall p, r :: r <= AcceptedOf(accepted, p) ==> !Granted(server.grants, p, r))
  }

  ghost predicate MintedOk(minted: seq<int>, counter: int, peers: map<int, Peer>) {
    && (forall i :: 0 <= i < |minted| ==> 1 <= minted[i] <= counter)
    && (forall i, j :: 0 <= i < j < |minted| ==> minted[i] != minted[j])
    && (forall p, r :: p in peers && r in minted ==> !InChain(Chain(peers[p]), r))
  }

  ghost predicate Apart(peers: map<int, Peer>) {
    forall p, q, r :: p in peers && q in peers && p != q && InChain(Chain(peers[p]), r) ==> !InChain(Chain(peers[q]), r)
  }

  ghost predicate PeersOk(sys: System) {
    forall p :: p in sys.peers ==> PeerOk(sys.server, AcceptedOf(sys.accepted, p), p, sys.peers[p])
  }

  ghost predicate Inv(sys: System) {
    ServerOk(sys.server, sys.accepted) && MintedOk(sys.minted, sys.server.counter, sys.peers) && Apart(sys.peers) &&
        PeersOk(sys)
  }

  const START := System(FRESH, map[], map[], [])

  lemma StartInv()
    ensures Inv(START)
  {
  }

  // ----- minting from a lease -----

  /** Taking the first route of a chain's first block takes that route and nothing else. */
  lemma TakeFirst(chain: seq<Block>, after: seq<Block>, counter: int)
    requires ChainOk(chain, counter) && chain != [] && chain[0].next < chain[0].end
    requires after == chain[0 := chain[0].(next := chain[0].next + 1)]
    ensures ChainOk(after, counter) && Above(after, chain[0].next) && InChain(chain, chain[0].next)
    ensures forall r :: InChain(after, r) == (InChain(chain, r) && r != chain[0].next)
    ensures forall high :: Above(chain, high) ==> Above(after, high)
  {
    forall r
      ensures InChain(after, r) == (InChain(chain, r) && r != chain[0].next)
    {
      if InChain(after, r) {
        var k :| 0 <= k < |after| && after[k].next <= r < after[k].end;
        assert chain[k].next <= r < chain[k].end;
      }
      if InChain(chain, r) && r != chain[0].next {
        var k :| 0 <= k < |chain| && chain[k].next <= r < chain[k].end;
        assert after[k].next <= r < after[k].end;
      }
    }
  }

  /** Dropping an exhausted first block loses no route. */
  lemma DropFirst(chain: seq<Block>, counter: int)
    requires ChainOk(chain, counter) && chain != [] && chain[0].next >= chain[0].end
    ensures ChainOk(chain[1..], counter)
    ensures forall r :: InChain(chain[1..], r) == InChain(chain, r)
    ensures forall high :: Above(chain, high) ==> Above(chain[1..], high)
  {
    forall r
      ensures InChain(chain[1..], r) == InChain(chain, r)
    {
      if InChain(chain, r) {
        var k :| 0 <= k < |chain| && chain[k].next <= r < chain[k].end;
        assert chain[1..][k - 1] == chain[k];
      }
      if InChain(chain[1..], r) {
        var k :| 0 <= k < |chain[1..]| && chain[1..][k].next <= r < chain[1..][k].end;
        assert chain[1..][k] == chain[k + 1];
      }
    }
  }

  /** What a mint does to the chain it is taken from. */
  ghost predicate Takes(chain: seq<Block>, after: seq<Block>, minted: bool, route: int, counter: int) {
    && ChainOk(after, counter)
    && (forall high :: Above(chain, high) ==> Above(after, high))
    && (!minted ==> route == 0 && forall r :: InChain(after, r) == InChain(chain, r))
    && (minted ==> InChain(chain, route) && Above(after, route)
                   && forall r :: InChain(after, r) == (InChain(chain, r) && r != route))
  }

  /** Minting from a lease takes the lowest route left of the whole chain and nothing else. */
  lemma {:induction false} MintFromChain(lease: seq<Block>, rest: seq<Block>, counter: int)
    requires ChainOk(lease + rest, counter)
    ensures var (left, route) := MintFrom(lease);
            Takes(lease + rest, left + rest, left != [], route, counter)
  {
    var chain := lease + rest;
    var (left, route) := MintFrom(lease);
    if lease == [] {
    } else if lease[0].next < lease[0].end {
      assert left + rest == chain[0 := chain[0].(next := chain[0].next + 1)];
      TakeFirst(chain, left + rest, counter);
    } else {
      assert chain[1..] == lease[1..] + rest;
      DropFirst(chain, counter);
      MintFromChain(lease[1..], rest, counter);
    }
  }

  // ----- each step keeps the invariant -----

  /** A peer the step does not touch stays in order while the server only adds to what it granted it. */
  lemma PeerStays(server: Leases, after: Leases, accepted: int, p: int, peer: Peer)
    requires PeerOk(server, accepted, p, peer) && server.counter <= after.counter
    requires forall r :: Granted(server.grants, p, r) ==> Granted(after.grants, p, r)
    ensures PeerOk(after, accepted, p, peer)
  {
  }

  /** Replacing a peer's chain by one with no new route keeps the chains apart. */
  lemma ChainShrinks(peers: map<int, Peer>, p: int, got: Peer)
    requires Apart(peers)
    requires forall r :: InChain(Chain(got), r) ==> p in peers && InChain(Chain(peers[p]), r)
    ensures Apart(peers[p := got])
  {
  }

  lemma ServerMintKeeps(sys: System)
    requires Inv(sys)
    ensures Inv(Next(sys, ServerMint))
  {
    var after := Next(sys, ServerMint);
    var route := sys.server.counter + 1;
    forall p | p in after.peers
      ensures PeerOk(after.server, AcceptedOf(after.accepted, p), p, after.peers[p])
      ensures !InChain(Chain(after.peers[p]), route)
    {
      PeerStays(sys.server, after.server, AcceptedOf(sys.accepted, p), p, sys.peers[p]);
    }
  }

  lemma ServerRaiseKeeps(sys: System, floor: int)
    requires Inv(sys)
    ensures Inv(Next(sys, ServerRaise(floor)))
  {
    var after := Next(sys, ServerRaise(floor));
    forall p | p in after.peers
      ensures PeerOk(after.server, AcceptedOf(after.accepted, p), p, after.peers[p])
    {
      PeerStays(sys.server, after.server, AcceptedOf(sys.accepted, p), p, sys.peers[p]);
    }
  }

  lemma JoinKeeps(sys: System, p: int)
    requires Inv(sys) && p !in sys.peers
    ensures Inv(Next(sys, Join(p)))
  {
    assert Chain(JOINED) == [];
    ChainShrinks(sys.peers, p, JOINED);
  }

  lemma AppendGrant(grants: seq<Block>, block: Block, p: int, r: int)
    ensures Granted(grants + [block], p, r) == (Granted(grants, p, r) || Holds(block, p, r))
  {
    var after := grants + [block];
    if Granted(grants, p, r) {
      var k :| 0 <= k < |grants| && Holds(grants[k], p, r);
      assert Holds(after[k], p, r);
    }
    if Holds(block, p, r) {
      assert Holds(after[|grants|], p, r);
    }
  }

  lemma AppendChain(chain: seq<Block>, block: Block, r: int)
    ensures InChain(chain + [block], r) == (InChain(chain, r) || block.next <= r < block.end)
  {
    var after := chain + [block];
    if InChain(chain, r) {
      var k :| 0 <= k < |chain| && chain[k].next <= r < chain[k].end;
      assert after[k] == chain[k];
    }
    if block.next <= r < block.end {
      assert after[|chain|] == block;
    }
  }

  lemma OfferKeeps(sys: System, p: int, count: int)
    requires Inv(sys) && p in sys.peers
    ensures Inv(Next(sys, Offer(p, count)))
  {
    if count > 0 {
      var after := Next(sys, Offer(p, count));
      var block := Block(p, sys.server.counter + 1, sys.server.counter + 1 + count);
      OfferServer(sys.server, sys.accepted, p, block);
      OfferPeers(sys, p, block);
      assert after ==
          sys.(server := Granting(sys.server, block), peers := sys.peers[p := Offered(sys.peers[p], block)]);
      assert 0 <= AcceptedOf(sys.accepted, p) <= sys.server.counter;
      hide Next, PeerOk, MintedOk, Apart;
      forall q | q in after.peers
        ensures PeerOk(after.server, AcceptedOf(after.accepted, q), q, after.peers[q])
      {
        if q == p {
          OfferPeer(sys.server, AcceptedOf(sys.accepted, p), p, sys.peers[p], block);
        } else {
          PeerStays(sys.server, after.server, AcceptedOf(sys.accepted, q), q, sys.peers[q]);
        }
      }
    }
  }

  function Granting(server: Leases, block: Block): Leases {
    server.(counter := block.end - 1, grants := server.grants + [block])
  }

  function Offered(peer: Peer, block: Block): Peer {
    peer.(inFlight := peer.inFlight + [block])
  }

  lemma OfferServer(server: Leases, accepted: map<int, int>, p: int, block: Block)
    requires ServerOk(server, accepted) && block.peer == p && block.next == server.counter + 1 < block.end
    ensures ServerOk(Granting(server, block), accepted)
    ensures forall q, r ::
              Granted(Granting(server, block).grants, q, r) == (Granted(server.grants, q, r) || Holds(block, q, r))
  {
    var grants := Granting(server, block).grants;
    forall q, r
      ensures Granted(grants, q, r) == (Granted(server.grants, q, r) || Holds(block, q, r))
    {
      AppendGrant(server.grants, block, q, r);
    }
    forall q
      ensures GrantsAscend(grants, q)
    {
      assert GrantsAscend(server.grants, q);
    }
  }

  lemma OfferPeer(server: Leases, accepted: int, p: int, peer: Peer, block: Block)
    requires PeerOk(server, accepted, p, peer) && block.peer == p && block.next == server.counter + 1 < block.end
    requires forall k :: 0 <= k < |server.grants| ==> server.grants[k].end <= server.counter + 1
    requires 0 <= accepted <= server.counter
    ensures PeerOk(Granting(server, block), accepted, p, Offered(peer, block))
  {
    var got := Offered(peer, block);
    assert Chain(got) == Chain(peer) + [block];
    forall r
      ensures r in peer.claims || InChain(Chain(got), r) ==> Granted(Granting(server, block).grants, p, r)
    {
      AppendChain(Chain(peer), block, r);
      AppendGrant(server.grants, block, p, r);
    }
    forall i | 0 <= i < |peer.claims|
      ensures peer.claims[i] <= server.counter
    {
      assert peer.claims[i] in peer.claims;
      assert Granted(server.grants, p, peer.claims[i]);
    }
  }

  /** A fresh block is apart from every chain and from every mint so far. */
  lemma OfferPeers(sys: System, p: int, block: Block)
    requires Inv(sys) && p in sys.peers && block.next == sys.server.counter + 1
    ensures Apart(sys.peers[p := Offered(sys.peers[p], block)])
    ensures MintedOk(sys.minted, Max(sys.server.counter, block.end - 1), sys.peers[p := Offered(sys.peers[p], block)])
  {
    var peers := sys.peers[p := Offered(sys.peers[p], block)];
    assert Chain(peers[p]) == Chain(sys.peers[p]) + [block];
    forall r
      ensures InChain(Chain(peers[p]), r) == (InChain(Chain(sys.peers[p]), r) || block.next <= r < block.end)
    {
      AppendChain(Chain(sys.peers[p]), block, r);
    }
    forall q, r | q in sys.peers && InChain(Chain(sys.peers[q]), r)
      ensures r <= sys.server.counter
    {
      assert PeerOk(sys.server, AcceptedOf(sys.accepted, q), q, sys.peers[q]);
    }
  }

  /** Two chains with the same spans hold the same routes. */
  lemma SameSpans(chain: seq<Block>, other: seq<Block>)
    requires |chain| == |other| && forall k ::
               0 <= k < |chain| ==> chain[k].next == other[k].next && chain[k].end == other[k].end
    ensures forall r :: InChain(chain, r) == InChain(other, r)
  {
    forall r
      ensures InChain(chain, r) == InChain(other, r)
    {
      if InChain(chain, r) {
        var k :| 0 <= k < |chain| && chain[k].next <= r < chain[k].end;
        assert other[k].next <= r < other[k].end;
      }
      if InChain(other, r) {
        var k :| 0 <= k < |other| && other[k].next <= r < other[k].end;
        assert chain[k].next <= r < chain[k].end;
      }
    }
  }

  lemma DeliverKeeps(sys: System, p: int)
    requires Inv(sys) && p in sys.peers && sys.peers[p].inFlight != []
    ensures Inv(Next(sys, Deliver(p)))
  {
    var after := Next(sys, Deliver(p));
    var peer, got := sys.peers[p], after.peers[p];
    var block := peer.inFlight[0];
    assert PeerOk(sys.server, AcceptedOf(sys.accepted, p), p, peer);
    assert Chain(peer)[|peer.core.lease|] == block;
    assert got.core.lease == peer.core.lease + [Block(0, block.next, block.end)];
    SameSpans(Chain(peer), Chain(got));
    ChainShrinks(sys.peers, p, got);
    assert PeerOk(after.server, AcceptedOf(after.accepted, p), p, got);
  }

  lemma MintPeer(server: Leases, accepted: int, p: int, peer: Peer)
    requires PeerOk(server, accepted, p, peer)
    ensures var (core, route) := ReserveRoute(peer.core);
            && (route == 0 ==> PeerOk(server, accepted, p, peer.(core := core))
                               && forall r :: InChain(Chain(peer.(core := core)), r) ==> InChain(Chain(peer), r))
            && (route != 0 ==> PeerOk(server, accepted, p, peer.(core := core, claims := peer.claims + [route]))
                               && 1 <= route <= server.counter && InChain(Chain(peer), route)
                               && forall r ::
                                  InChain(Chain(peer.(core := core)), r) == (InChain(Chain(peer), r) && r != route))
  {
    var (left, route) := MintFrom(peer.core.lease);
    var core := ReserveRoute(peer.core).0;
    MintFromChain(peer.core.lease, peer.inFlight, server.counter);
    assert Chain(peer.(core := core)) == left + peer.inFlight;
    if left != [] {
      var k :| 0 <= k < |Chain(peer)| && Chain(peer)[k].next <= route < Chain(peer)[k].end;
      forall i | 0 <= i < |peer.claims|
        ensures peer.claims[i] < route
      {
        assert Above(Chain(peer), peer.claims[i]);
      }
      assert Above(Chain(peer), accepted);
      var got := peer.(core := core, claims := peer.claims + [route]);
      assert Chain(got) == left + peer.inFlight;
      forall r | r in got.claims || InChain(Chain(got), r)
        ensures Granted(server.grants, p, r)
      {
        assert r in peer.claims || InChain(Chain(peer), r);
      }
    }
  }

  lemma PeerMintKeeps(sys: System, p: int)
    requires Inv(sys) && p in sys.peers
    ensures Inv(Next(sys, PeerMint(p)))
  {
    hide PeerOk;
    var after := Next(sys, PeerMint(p));
    MintPeer(sys.server, AcceptedOf(sys.accepted, p), p, sys.peers[p]);
    var route := ReserveRoute(sys.peers[p].core).1;
    assert Chain(after.peers[p]) == Chain(sys.peers[p].(core := after.peers[p].core));
    ChainShrinks(sys.peers, p, after.peers[p]);
    if route != 0 {
      assert route !in sys.minted;
      forall q, r | q in after.peers && r in after.minted
        ensures !InChain(Chain(after.peers[q]), r)
      {
        assert r == route || r in sys.minted;
      }
    }
  }

  lemma PresentKeeps(sys: System, p: int, skip: nat)
    requires Inv(sys) && p in sys.peers && skip < |sys.peers[p].claims|
    ensures Inv(Next(sys, Present(p, skip)))
    ensures Presented(sys, p, skip).1
  {
    var after := Next(sys, Present(p, skip));
    var peer := sys.peers[p];
    var route := peer.claims[skip];
    assert PeerOk(sys.server, AcceptedOf(sys.accepted, p), p, peer);
    assert route in peer.claims;
    SpendServer(sys.server, sys.accepted, p, route);
    ChainShrinks(sys.peers, p, after.peers[p]);
    forall q | q in after.peers
      ensures PeerOk(after.server, AcceptedOf(after.accepted, q), q, after.peers[q])
    {
      if q == p {
        SpendPeer(sys.server, AcceptedOf(sys.accepted, p), p, peer, skip);
      } else {
        PeerStays(sys.server, after.server, AcceptedOf(sys.accepted, q), q, sys.peers[q]);
      }
    }
  }

  lemma SpendServer(server: Leases, accepted: map<int, int>, p: int, route: int)
    requires ServerOk(server, accepted) && Granted(server.grants, p, route)
    ensures var (after, spent) := SpendLease(server, p, route);
            && spent && ServerOk(after, accepted[p := route]) && after.counter == server.counter
            && forall q, x :: Granted(after.grants, q, x) == (Granted(server.grants, q, x) && (q != p || x > route))
  {
    var (after, spent) := SpendLease(server, p, route);
    assert GrantsAscend(server.grants, p);
    forall q, x
      ensures spent && Granted(after.grants, q, x) == (Granted(server.grants, q, x) && (q != p || x > route))
    {
      SpendMeaning(server.grants, p, route, q, x);
    }
    forall q
      ensures GrantsAscend(after.grants, q)
    {
      SpendAscends(server.grants, p, route, q);
    }
    var held :| 0 <= held < |server.grants| && Holds(server.grants[held], p, route);
    var noted := accepted[p := route];
    forall q
      ensures 0 <= AcceptedOf(noted, q) <= server.counter
    {
      assert 0 <= AcceptedOf(accepted, q) <= server.counter;
    }
    forall q, r | r <= AcceptedOf(noted, q)
      ensures !Granted(after.grants, q, r)
    {
      assert q != p ==> AcceptedOf(noted, q) == AcceptedOf(accepted, q);
    }
    forall k | 0 <= k < |after.grants|
      ensures 1 <= after.grants[k].next && after.grants[k].end <= server.counter + 1
    {
      SpendBlocks(server.grants, p, route, k);
    }
  }

  /** A surviving grant keeps its end and never moves back. */
  lemma SpendBlocks(grants: seq<Block>, p: int, route: int, k: nat)
    requires k < |SpendGrants(grants, p, route).0|
    ensures exists m :: 0 <= m < |grants| && grants[m].end == SpendGrants(grants, p, route).0[k].end
                        && grants[m].next <= SpendGrants(grants, p, route).0[k].next
  {
    var after, found := SpendGrants(grants, p, route).0, HoldingAt(grants, p, route);
    if found.Some? {
      var f := found.value;
      var marked := grants[f := grants[f].(next := route + 1)];
      var m := KeptSource(marked, p, f, 0, k);
      assert grants[m].end == after[k].end && grants[m].next <= after[k].next;
    } else {
      assert grants[k] == after[k];
    }
  }

  lemma SpendPeer(server: Leases, accepted: int, p: int, peer: Peer, skip: nat)
    requires PeerOk(server, accepted, p, peer) && skip < |peer.claims|
    requires GrantsAscend(server.grants, p)
    ensures var after := SpendLease(server, p, peer.claims[skip]).0;
            PeerOk(after, peer.claims[skip], p, peer.(claims := peer.claims[skip + 1..]))
  {
    var route, rest := peer.claims[skip], peer.claims[skip + 1..];
    var after := SpendLease(server, p, route).0;
    var got := peer.(claims := rest);
    assert Chain(got) == Chain(peer);
    forall i | 0 <= i < |rest|
      ensures rest[i] == peer.claims[skip + 1 + i] && route < rest[i]
    {
    }
    forall r | r in rest || InChain(Chain(got), r)
      ensures Granted(after.grants, p, r)
    {
      SpendMeaning(server.grants, p, route, p, r);
      assert r in peer.claims || InChain(Chain(peer), r);
      if r !in rest {
        assert Above(Chain(peer), route);
      }
    }
  }

  // ----- a peer leaves -----

  lemma {:induction false} OthersGranted(grants: seq<Block>, p: int, q: int, r: int)
    ensures Granted(Others(grants, p), q, r) == (q != p && Granted(grants, q, r))
  {
    if grants != [] {
      OthersGranted(grants[1..], p, q, r);
      var others := Others(grants, p);
      assert grants == [grants[0]] + grants[1..];
      FirstGranted(grants[0], grants[1..], q, r);
      if grants[0].peer != p {
        FirstGranted(grants[0], Others(grants[1..], p), q, r);
      }
    }
  }

  lemma FirstGranted(block: Block, rest: seq<Block>, q: int, r: int)
    ensures Granted([block] + rest, q, r) == (Holds(block, q, r) || Granted(rest, q, r))
  {
    var all := [block] + rest;
    if Granted(rest, q, r) {
      var k :| 0 <= k < |rest| && Holds(rest[k], q, r);
      assert Holds(all[k + 1], q, r);
    }
    if Holds(block, q, r) {
      assert Holds(all[0], q, r);
    }
  }

  lemma {:induction false} OthersSource(grants: seq<Block>, p: int, k: nat) returns (m: nat)
    requires k < |Others(grants, p)|
    ensures m < |grants| && grants[m] == Others(grants, p)[k]
  {
    if grants[0].peer == p {
      var i := OthersSource(grants[1..], p, k);
      m := i + 1;
    } else if k == 0 {
      m := 0;
    } else {
      var i := OthersSource(grants[1..], p, k - 1);
      m := i + 1;
    }
  }

  lemma {:induction false} OthersAscend(grants: seq<Block>, p: int, q: int)
    requires GrantsAscend(grants, q)
    ensures GrantsAscend(Others(grants, p), q)
  {
    if grants != [] {
      OthersAscend(grants[1..], p, q);
      var rest := Others(grants[1..], p);
      forall k | 0 <= k < |rest| && rest[k].peer == q && grants[0].peer == q
        ensures grants[0].end <= rest[k].next
      {
        var m := OthersSource(grants[1..], p, k);
        assert grants[m + 1] == rest[k];
      }
      PrependAscends(grants[0], rest, q);
    }
  }

  lemma DepartKeeps(sys: System, p: int)
    requires Inv(sys) && p in sys.peers
    ensures Inv(Next(sys, Depart(p)))
  {
    var after := Next(sys, Depart(p));
    forall q, r
      ensures Granted(after.server.grants, q, r) == (q != p && Granted(sys.server.grants, q, r))
    {
      OthersGranted(sys.server.grants, p, q, r);
    }
    forall q
      ensures GrantsAscend(after.server.grants, q)
    {
      OthersAscend(sys.server.grants, p, q);
    }
    forall k | 0 <= k < |after.server.grants|
      ensures 1 <= after.server.grants[k].next && after.server.grants[k].end <= sys.server.counter + 1
    {
      var m := OthersSource(sys.server.grants, p, k);
    }
    forall q | q in after.peers
      ensures PeerOk(after.server, AcceptedOf(after.accepted, q), q, after.peers[q])
    {
      PeerStays(sys.server, after.server, AcceptedOf(sys.accepted, q), q, sys.peers[q]);
    }
  }

  // ----- the server hands over -----

  /** The grants that come from restoring one survivor's lease spans. */
  ghost predicate Restored(before: seq<Block>, after: seq<Block>, p: int, lease: seq<Block>, counter: int) {
    && before <= after
    && (forall k :: |before| <= k < |after| ==>
          after[k].peer == p && exists m ::
                0 <= m < |lease| && after[k].end == lease[m].end && after[k].next == lease[m].next)
    && (forall i, j :: |before| <= i < j < |after| ==> after[i].end <= after[j].next)
    && (forall r :: InChain(lease, r) ==> exists k :: |before| <= k < |after| && Holds(after[k], p, r))
  }

  lemma RestoreOneSpan(before: seq<Block>, mid: seq<Block>, p: int, early: seq<Block>, block: Block, counter: int)
    requires Restored(before, mid, p, early, counter) && ChainOk(early + [block], counter)
    ensures Restored(before, mid + if block.next < block.end then [Block(p, block.next, block.end)] else [], p,
                     early + [block], counter)
  {
    var lease := early + [block];
    var after := mid + if block.next < block.end then [Block(p, block.next, block.end)] else [];
    forall k | |before| <= k < |mid|
      ensures mid[k].end <= block.next
      ensures exists m :: 0 <= m < |lease| && mid[k].end == lease[m].end && mid[k].next == lease[m].next
    {
      var m :| 0 <= m < |early| && mid[k].end == early[m].end && mid[k].next == early[m].next;
      assert lease[m] == early[m] && lease[|early|] == block;
    }
    assert lease[|early|] == block;
    forall r | InChain(lease, r)
      ensures exists k :: |before| <= k < |after| && Holds(after[k], p, r)
    {
      AppendChain(early, block, r);
      if InChain(early, r) {
        var k :| |before| <= k < |mid| && Holds(mid[k], p, r);
        assert Holds(after[k], p, r);
      } else {
        assert Holds(after[|mid|], p, r);
      }
    }
  }

  lemma NothingRestored(before: seq<Block>, p: int, counter: int)
    ensures Restored(before, before, p, [], counter)
  {
  }

  lemma RestoreStep(server: Leases, p: int, early: seq<Block>, block: Block)
    requires block.next >= 1
    ensures RestoreSpans(server, p, early + [block]).grants
         == RestoreSpans(server, p, early).grants + if block.next < block.end then [Block(p, block.next, block.end)]
                                                    else []
  {
    assert (early + [block])[..|early|] == early;
  }

  lemma {:induction false} RestoreSpansAppend(server: Leases, p: int, lease: seq<Block>, counter: int)
    requires ChainOk(lease, counter)
    ensures Restored(server.grants, RestoreSpans(server, p, lease).grants, p, lease, counter)
  {
    if lease == [] {
      NothingRestored(server.grants, p, counter);
    } else {
      var n := |lease| - 1;
      var early, block := lease[..n], lease[n];
      assert lease == early + [block] && block.next >= 1;
      assert ChainOk(early, counter);
      hide Restored, ChainOk, RestoreSpans;
      RestoreStep(server, p, early, block);
      RestoreSpansAppend(server, p, early, counter);
      RestoreOneSpan(server.grants, RestoreSpans(server, p, early).grants, p, early, block, counter);
    }
  }

  /** What the restored grants of all survivors are: their leases, and nothing else. */
  ghost predicate RestoredAll(grants: seq<Block>, peers: map<int, Peer>, reports: seq<int>, counter: int)
    requires forall i :: 0 <= i < |reports| ==> reports[i] in peers
  {
    && (forall k ::
          0 <= k < |grants| ==> grants[k].peer in reports && 1 <= grants[k].next && grants[k].end <= counter + 1)
    && (forall p :: GrantsAscend(grants, p))
    && (forall p, r :: Granted(grants, p, r) ==> p in reports && InChain(peers[p].core.lease, r))
    && (forall p, r :: p in reports && InChain(peers[p].core.lease, r) ==> Granted(grants, p, r))
  }

  lemma RestoreOneMore(before: seq<Block>, after: seq<Block>, peers: map<int, Peer>, early: seq<int>, p: int,
                       counter: int)
    requires p in peers && p !in early && forall i :: 0 <= i < |early| ==> early[i] in peers
    requires ChainOk(peers[p].core.lease, counter)
    requires RestoredAll(before, peers, early, counter) && Restored(before, after, p, peers[p].core.lease, counter)
    ensures RestoredAll(after, peers, early + [p], counter)
  {
    var lease := peers[p].core.lease;
    assert forall k :: 0 <= k < |before| ==> after[k] == before[k];
    forall q
      ensures GrantsAscend(after, q)
    {
      assert GrantsAscend(before, q);
      assert q == p ==> forall k :: 0 <= k < |before| ==> before[k].peer != q;
    }
    forall q, r | Granted(after, q, r)
      ensures q in early + [p] && InChain(peers[q].core.lease, r)
    {
      var k :| 0 <= k < |after| && Holds(after[k], q, r);
      if k < |before| {
        assert Holds(before[k], q, r);
        assert Granted(before, q, r);
      }
    }
    forall q, r | q in early + [p] && InChain(peers[q].core.lease, r)
      ensures Granted(after, q, r)
    {
      if q in early {
        var k :| 0 <= k < |before| && Holds(before[k], q, r);
        assert Holds(after[k], q, r);
      } else {
        var k :| |before| <= k < |after| && Holds(after[k], p, r);
      }
    }
  }

  lemma {:induction false} RestoreAllMeaning(server: Leases, peers: map<int, Peer>, reports: seq<int>, counter: int)
    requires server.grants == []
    requires forall i :: 0 <= i < |reports| ==> reports[i] in peers && ChainOk(peers[reports[i]].core.lease, counter)
    requires forall i, j :: 0 <= i < j < |reports| ==> reports[i] != reports[j]
    ensures var after := RestoreAll(server, peers, reports);
            RestoredAll(after.grants, peers, reports, counter) && after == server.(grants := after.grants)
  {
    if reports != [] {
      var n := |reports| - 1;
      var early, p := reports[..n], reports[n];
      RestoreAllMeaning(server, peers, early, counter);
      var before := RestoreAll(server, peers, early);
      RestoreSpansAppend(before, p, peers[p].core.lease, counter);
      RestoreOneMore(before.grants, RestoreAll(server, peers, reports).grants, peers, early, p, counter);
      assert reports == early + [p];
    }
  }

  lemma LeaseOk(peer: Peer, counter: int, accepted: int)
    requires ChainOk(Chain(peer), counter) && Above(Chain(peer), accepted)
    ensures ChainOk(peer.core.lease, counter) && Above(peer.core.lease, accepted)
    ensures forall r :: InChain(peer.core.lease, r) ==> InChain(Chain(peer), r)
  {
    var lease, chain := peer.core.lease, Chain(peer);
    assert forall k :: 0 <= k < |lease| ==> lease[k] == chain[k];
  }

  /** The new counter covers every route minted so far and every lease that is kept. */
  ghost predicate FloorCovers(sys: System, step: Step)
    requires Enabled(sys, step)
  {
    step.Promote? ==>
      && (forall r :: r in sys.minted ==> r <= Max(step.own, step.told))
      && (forall q, k :: q in step.reports && 0 <= k < |sys.peers[q].core.lease| ==>
            sys.peers[q].core.lease[k].end - 1 <= Max(step.own, step.told))
  }

  /** What is minted or taken over is at or below the counter. */
  ghost predicate Covered(sys: System, reports: seq<int>, counter: int)
    requires forall i :: 0 <= i < |reports| ==> reports[i] in sys.peers
  {
    && 0 <= counter
    && (forall r :: r in sys.minted ==> r <= counter)
    && (forall q, k ::
          q in reports && 0 <= k < |sys.peers[q].core.lease| ==> sys.peers[q].core.lease[k].end - 1 <= counter)
  }

  lemma PromoteServer(sys: System, p: int, own: int, told: int, reports: seq<int>)
    requires Inv(sys) && p in sys.peers && Lists(reports, sys.peers.Keys - {p})
    requires Covered(sys, reports, Max(own, told))
    ensures var server := Promoted(sys, p, own, told, reports).server;
            && !server.leased && server.counter == Max(own, told)
            && RestoredAll(server.grants, sys.peers, reports, server.counter)
  {
    assert sys.peers[p].core.grants == [] by {
      assert PeerOk(sys.server, AcceptedOf(sys.accepted, p), p, sys.peers[p]);
    }
    forall i | 0 <= i < |reports|
      ensures ChainOk(sys.peers[reports[i]].core.lease, Max(own, told))
    {
      var q := reports[i];
      assert q in sys.peers.Keys && q in reports;
      LeaseOf(sys, q);
    }
    RestoreAllMeaning(LeaveLease(sys.peers[p].core, own), sys.peers, reports, Max(own, told));
  }

  /** A hand-over whose new counter covers what was minted and what is taken over keeps the invariant. */
  lemma PromoteKeeps(sys: System, step: Step)
    requires Inv(sys) && Recorded(sys) && step.Promote? && Enabled(sys, step) && FloorCovers(sys, step)
    ensures Inv(Next(sys, step))
  {
    var Promote(p, bound, own, told, reports) := step;
    var after := Promoted(sys, p, own, told, reports);
    assert sys.peers[p].core.counter >= 0;
    PromoteServer(sys, p, own, told, reports);
    PromotedPeers(sys, p, own, told, reports);
    hide Promoted, RestoreAll, RestoreSpans;
    PromotedGrants(sys, after.server, reports);
    PromotedLeases(sys, after, reports);
    forall q | q in after.peers
      ensures PeerOk(after.server, AcceptedOf(after.accepted, q), q, after.peers[q])
    {
      assert q in after.peers.Keys;
      PromotedPeer(sys, after.server, q, reports);
    }
  }

  /** What a survivor's lease is known to be: within its chain, and above what was accepted. */
  lemma LeaseOf(sys: System, q: int)
    requires Inv(sys) && q in sys.peers
    ensures ChainOk(sys.peers[q].core.lease, sys.server.counter)
    ensures Above(sys.peers[q].core.lease, AcceptedOf(sys.accepted, q))
    ensures forall r :: InChain(sys.peers[q].core.lease, r) ==> InChain(Chain(sys.peers[q]), r)
  {
    assert PeerOk(sys.server, AcceptedOf(sys.accepted, q), q, sys.peers[q]);
    LeaseOk(sys.peers[q], sys.server.counter, AcceptedOf(sys.accepted, q));
  }

  /** The new server's grants are above what was accepted. */
  lemma PromotedGrants(sys: System, server: Leases, reports: seq<int>)
    requires Inv(sys) && Recorded(sys) && !server.leased
    requires forall i :: 0 <= i < |reports| ==> reports[i] in sys.peers
    requires Covered(sys, reports, server.counter) && RestoredAll(server.grants, sys.peers, reports, server.counter)
    ensures ServerOk(server, sys.accepted)
  {
    forall q, r | r <= AcceptedOf(sys.accepted, q)
      ensures !Granted(server.grants, q, r)
    {
      if Granted(server.grants, q, r) {
        LeaseOf(sys, q);
      }
    }
    forall q
      ensures 0 <= AcceptedOf(sys.accepted, q) <= server.counter
    {
      assert 0 <= AcceptedOf(sys.accepted, q) <= sys.server.counter;
    }
  }

  /** The survivors' leases are still apart from each other and from every route minted. */
  lemma PromotedLeases(sys: System, after: System, reports: seq<int>)
    requires Inv(sys) && after.minted == sys.minted && after.peers.Keys <= sys.peers.Keys
    requires forall i :: 0 <= i < |reports| ==> reports[i] in sys.peers
    requires Covered(sys, reports, after.server.counter)
    requires forall q :: q in after.peers ==> after.peers[q] == sys.peers[q].(inFlight := [], claims := [])
    ensures MintedOk(after.minted, after.server.counter, after.peers) && Apart(after.peers)
  {
    hide ServerOk, PeersOk;
    assert forall i :: 0 <= i < |sys.minted| ==> sys.minted[i] in sys.minted;
    forall q | q in after.peers
      ensures q in sys.peers && Chain(after.peers[q]) == sys.peers[q].core.lease
      ensures forall r :: InChain(Chain(after.peers[q]), r) ==> InChain(Chain(sys.peers[q]), r)
    {
      assert q in after.peers.Keys;
      LeaseOf(sys, q);
      assert Chain(after.peers[q]) == sys.peers[q].core.lease;
    }
  }

  lemma PromotedPeers(sys: System, p: int, own: int, told: int, reports: seq<int>)
    requires p in sys.peers && Lists(reports, sys.peers.Keys - {p})
    ensures var after := Promoted(sys, p, own, told, reports);
            && after.minted == sys.minted && after.accepted == sys.accepted
            && after.peers.Keys <= sys.peers.Keys - {p}
            && (forall q :: q in after.peers.Keys <==> q in reports)
            && forall q :: q in after.peers ==> after.peers[q] == sys.peers[q].(inFlight := [], claims := [])
  {
    assert forall q :: q in reports ==> q in sys.peers.Keys;
  }

  lemma PromotedPeer(sys: System, server: Leases, q: int, reports: seq<int>)
    requires Inv(sys) && q in sys.peers && q in reports
    requires forall i :: 0 <= i < |reports| ==> reports[i] in sys.peers
    requires Covered(sys, reports, server.counter) && RestoredAll(server.grants, sys.peers, reports, server.counter)
    ensures PeerOk(server, AcceptedOf(sys.accepted, q), q, sys.peers[q].(inFlight := [], claims := []))
  {
    var got := sys.peers[q].(inFlight := [], claims := []);
    assert PeerOk(sys.server, AcceptedOf(sys.accepted, q), q, sys.peers[q]);
    LeaseOk(sys.peers[q], sys.server.counter, AcceptedOf(sys.accepted, q));
    assert Chain(got) == sys.peers[q].core.lease;
  }

  // ----- what is known of past mints -----

  /** Past mints are on record: what was presented or accepted, and what used a lease block up. */
  ghost predicate Recorded(sys: System) {
    && (forall q :: q in sys.peers ==> PeerRecorded(sys.minted, sys.peers[q]))
    && (forall q :: q in sys.accepted && sys.accepted[q] != 0 ==> sys.accepted[q] in sys.minted)
  }

  ghost predicate PeerRecorded(minted: seq<int>, peer: Peer) {
    && peer.core.counter >= 0
    && (forall r :: r in peer.claims ==> r in minted)
    && UsedUp(peer.core.lease, minted)
  }

  ghost predicate UsedUp(lease: seq<Block>, minted: seq<int>) {
    forall k :: 0 <= k < |lease| && lease[k].next >= lease[k].end ==> lease[k].end - 1 in minted
  }

  lemma {:induction false} MintUses(lease: seq<Block>, minted: seq<int>)
    requires UsedUp(lease, minted)
    ensures var (rest, route) := MintFrom(lease);
            rest != [] ==> UsedUp(rest, minted + [route])
  {
    if lease != [] && lease[0].next >= lease[0].end {
      MintUses(lease[1..], minted);
    }
  }

  lemma RecordedGrows(minted: seq<int>, route: int, peer: Peer)
    requires PeerRecorded(minted, peer)
    ensures PeerRecorded(minted + [route], peer)
  {
  }

  lemma RecordedKeeps(sys: System, step: Step)
    requires Inv(sys) && Recorded(sys) && Enabled(sys, step)
    ensures Recorded(Next(sys, step))
  {
    hide PeerRecorded, ServerOk, MintedOk, Apart, SpendLease, RestoreAll, GrantLease;
    var after := Next(sys, step);
    forall q | q in after.peers
      ensures PeerRecorded(after.minted, after.peers[q])
    {
      if q in sys.peers {
        assert PeerRecorded(sys.minted, sys.peers[q]);
        PeerRecordedKeeps(sys, step, q);
      } else {
        JoinedRecorded(after.minted);
      }
    }
    if step.Present? {
      var claims := sys.peers[step.peer].claims;
      assert PeerRecorded(sys.minted, sys.peers[step.peer]);
      ClaimRecorded(sys.minted, sys.peers[step.peer], step.skip);
    }
  }

  lemma JoinedRecorded(minted: seq<int>)
    ensures PeerRecorded(minted, JOINED)
  {
  }

  lemma InstallRecorded(minted: seq<int>, peer: Peer, block: Block)
    requires PeerRecorded(minted, peer) && block.next < block.end
    ensures PeerRecorded(minted, peer.(core := InstallLease(peer.core, block.next, block.end - block.next)))
  {
  }

  lemma MintRecorded(minted: seq<int>, peer: Peer)
    requires PeerRecorded(minted, peer) && peer.core.leased
    requires forall k :: 0 <= k < |peer.core.lease| ==> 1 <= peer.core.lease[k].next
    ensures var (core, route) := ReserveRoute(peer.core);
            if route == 0 then PeerRecorded(minted, peer.(core := core))
            else PeerRecorded(minted + [route], peer.(core := core, claims := peer.claims + [route]))
  {
    MintUses(peer.core.lease, minted);
    MintSpends(peer.core.lease);
  }

  lemma ClaimRecorded(minted: seq<int>, peer: Peer, skip: nat)
    requires PeerRecorded(minted, peer) && skip < |peer.claims|
    ensures peer.claims[skip] in minted
  {
    var route := peer.claims[skip];
    assert route in peer.claims;
  }

  lemma PeerRecordedKeeps(sys: System, step: Step, q: int)
    requires Inv(sys) && Enabled(sys, step) && q in sys.peers && PeerRecorded(sys.minted, sys.peers[q])
    requires q in Next(sys, step).peers
    ensures PeerRecorded(Next(sys, step).minted, Next(sys, step).peers[q])
  {
    hide ServerOk, MintedOk, Apart, SpendLease, RestoreAll, Granted, InChain;
    match step
    case ServerMint => RecordedGrows(sys.minted, ReserveRoute(sys.server).1, sys.peers[q]);
    case Deliver(p) =>
      if q == p {
        var peer := sys.peers[p];
        assert PeerOk(sys.server, AcceptedOf(sys.accepted, p), p, peer);
        InstallRecorded(sys.minted, peer, peer.inFlight[0]);
      }
    case PeerMint(p) =>
      RecordedGrows(sys.minted, ReserveRoute(sys.peers[p].core).1, sys.peers[q]);
      if q == p {
        assert PeerOk(sys.server, AcceptedOf(sys.accepted, p), p, sys.peers[p]);
        LeaseOf(sys, p);
        MintRecorded(sys.minted, sys.peers[p]);
      }
    case _ =>
  }

  // ----- whole runs -----

  /** Every step but a hand-over keeps the invariant as it is; a hand-over does when its floor covers. */
  lemma StepKeeps(sys: System, step: Step)
    requires Inv(sys) && Recorded(sys) && Enabled(sys, step) && FloorCovers(sys, step)
    ensures Inv(Next(sys, step)) && Recorded(Next(sys, step))
  {
    RecordedKeeps(sys, step);
    match step
    case ServerMint => ServerMintKeeps(sys);
    case ServerRaise(floor) => ServerRaiseKeeps(sys, floor);
    case Join(p) => JoinKeeps(sys, p);
    case Offer(p, count) => OfferKeeps(sys, p, count);
    case Deliver(p) => DeliverKeeps(sys, p);
    case PeerMint(p) => PeerMintKeeps(sys, p);
    case Present(p, skip) => PresentKeeps(sys, p, skip);
    case Depart(p) => DepartKeeps(sys, p);
    case Promote(p, bound, own, told, reports) => PromoteKeeps(sys, step);
  }

  /** The steps, any enabled ones, lead from `from` through these states. */
  ghost predicate Goes(from: System, steps: seq<Step>, states: seq<System>) {
    && |states| == |steps| + 1 && states[0] == from
    && forall i :: 0 <= i < |steps| ==> Enabled(states[i], steps[i]) && states[i + 1] == Next(states[i], steps[i])
  }

  /** Every hand-over on the way covers what was minted and what it takes over. */
  ghost predicate GoesCovered(from: System, steps: seq<Step>, states: seq<System>) {
    && Goes(from, steps, states)
    && forall i :: 0 <= i < |steps| ==> FloorCovers(states[i], steps[i])
  }

  ghost predicate Run(steps: seq<Step>, states: seq<System>) {
    GoesCovered(START, steps, states)
  }

  ghost predicate NoRepeat(minted: seq<int>) {
    forall i, j :: 0 <= i < j < |minted| ==> minted[i] != minted[j]
  }

  lemma {:induction false} GoingKeeps(from: System, steps: seq<Step>, states: seq<System>)
    requires Inv(from) && Recorded(from) && GoesCovered(from, steps, states)
    ensures Inv(states[|steps|]) && Recorded(states[|steps|])
  {
    hide Inv, Recorded, Next, FloorCovers, Enabled;
    var n := |steps|;
    if n > 0 {
      GoingKeeps(from, steps[..n - 1], states[..n]);
      StepKeeps(states[n - 1], steps[n - 1]);
    }
  }

  lemma RunKeeps(steps: seq<Step>, states: seq<System>)
    requires Run(steps, states)
    ensures Inv(states[|steps|]) && Recorded(states[|steps|])
  {
    StartInv();
    GoingKeeps(START, steps, states);
  }

  /**
   No route is ever minted twice by anyone, whatever is lost and whoever leaves, drops out or takes over,
   while the counter of every new server covers what was minted and the leases it takes over.
   */
  lemma NoRouteMintedTwice(steps: seq<Step>, states: seq<System>)
    requires Run(steps, states)
    ensures NoRepeat(states[|steps|].minted)
  {
    RunKeeps(steps, states);
  }

  // ----- exactly which hand-overs are safe -----

  lemma GoesOn(from: System, step: Step, steps: seq<Step>, states: seq<System>)
    requires Enabled(from, step) && FloorCovers(from, step) && GoesCovered(Next(from, step), steps, states)
    ensures GoesCovered(from, [step] + steps, [from] + states)
    ensures ([from] + states)[|[step] + steps|] == states[|steps|]
  {
    hide Enabled, Next, FloorCovers;
    var all, through := [step] + steps, [from] + states;
    forall i | 0 <= i < |all|
      ensures Enabled(through[i], all[i]) && FloorCovers(through[i], all[i]) &&
              through[i + 1] == Next(through[i], all[i])
    {
      assert through[i + 1] == states[i];
      if i > 0 {
        assert all[i] == steps[i - 1] && through[i] == states[i - 1] &&
            states[i - 1 + 1] == Next(states[i - 1], steps[i - 1]);
      }
    }
  }

  lemma {:induction false} GoesThrough(from: System, steps: seq<Step>, states: seq<System>, more: seq<Step>,
                                       later: seq<System>)
    requires GoesCovered(from, steps, states) && GoesCovered(states[|steps|], more, later)
    ensures GoesCovered(from, steps + more, states[..|steps|] + later)
    ensures (states[..|steps|] + later)[|steps + more|] == later[|more|]
  {
    hide Enabled, Next, FloorCovers;
    var all, through, n := steps + more, states[..|steps|] + later, |steps|;
    forall i | 0 <= i < |all|
      ensures Enabled(through[i], all[i]) && FloorCovers(through[i], all[i]) &&
              through[i + 1] == Next(through[i], all[i])
    {
      if i < n {
        assert through[i] == states[i] && all[i] == steps[i] && through[i + 1] == states[i + 1];
      } else {
        assert through[i] == later[i - n] && all[i] == more[i - n] && through[i + 1] == later[i - n + 1];
      }
    }
  }

  /** An unleased server mints its way up to any route above its counter. */
  lemma {:induction false} CountsUpTo(from: System, route: int) returns (steps: seq<Step>, states: seq<System>)
    requires !from.server.leased && from.server.counter < route
    ensures GoesCovered(from, steps, states)
    ensures var to := states[|steps|];
            && to.peers == from.peers && from.minted < to.minted
            && to.minted[|to.minted| - 1] == route
    decreases route - from.server.counter
  {
    var next := Next(from, ServerMint);
    if from.server.counter + 1 == route {
      steps, states := [], [next];
    } else {
      steps, states := CountsUpTo(next, route);
    }
    GoesOn(from, ServerMint, steps, states);
    steps, states := [ServerMint] + steps, [from] + states;
  }

  function Unspent(lease: seq<Block>): nat {
    if lease == [] then 0
    else (if lease[0].next < lease[0].end then lease[0].end - lease[0].next else 0) + Unspent(lease[1..])
  }

  /** What is left of a lease after a mint is less of it. */
  lemma {:induction false} MintSpends(lease: seq<Block>)
    requires forall k :: 0 <= k < |lease| ==> 1 <= lease[k].next
    ensures var (rest, route) := MintFrom(lease);
            rest != [] ==>
              && Unspent(rest) < Unspent(lease) && 1 <= route
              && forall k :: 0 <= k < |rest| ==> 1 <= rest[k].next
  {
    if lease != [] {
      if lease[0].next < lease[0].end {
        assert MintFrom(lease).0[1..] == lease[1..];
      } else {
        MintSpends(lease[1..]);
      }
    }
  }

  /** A leaseholder mints its way up to any route of its lease. */
  lemma {:induction false} MintsUpTo(from: System, q: int, route: int) returns (steps: seq<Step>, states: seq<System>)
    requires q in from.peers && from.peers[q].core.leased && InChain(from.peers[q].core.lease, route)
    requires forall k :: 0 <= k < |from.peers[q].core.lease| ==> 1 <= from.peers[q].core.lease[k].next
    ensures GoesCovered(from, steps, states)
    ensures var to := states[|steps|];
            from.minted < to.minted && to.minted[|to.minted| - 1] == route
    decreases Unspent(from.peers[q].core.lease)
  {
    var lease := from.peers[q].core.lease;
    MintKeepsRoutes(lease, route);
    MintSpends(lease);
    hide MintFrom, Unspent;
    var next := Next(from, PeerMint(q));
    if MintFrom(lease).1 == route {
      steps, states := [], [next];
    } else {
      steps, states := MintsUpTo(next, q, route);
    }
    GoesOn(from, PeerMint(q), steps, states);
    steps, states := [PeerMint(q)] + steps, [from] + states;
  }

  /** A route minted above the counter is minted again when the server gets there. */
  lemma MintedTwice(from: System, route: int) returns (steps: seq<Step>, states: seq<System>)
    requires !from.server.leased && from.server.counter < route && route in from.minted
    ensures GoesCovered(from, steps, states) && !NoRepeat(states[|steps|].minted)
  {
    hide Enabled, Next, FloorCovers;
    steps, states := CountsUpTo(from, route);
    var i :| 0 <= i < |from.minted| && from.minted[i] == route;
    var last := states[|steps|].minted;
    assert last[i] == route && last[|last| - 1] == route;
  }

  /** A route of a lease above the counter is minted by the server and by the leaseholder. */
  lemma LeasedAndMinted(from: System, q: int, route: int) returns (steps: seq<Step>, states: seq<System>)
    requires !from.server.leased && from.server.counter < route
    requires q in from.peers && from.peers[q].core.leased && InChain(from.peers[q].core.lease, route)
    requires forall k :: 0 <= k < |from.peers[q].core.lease| ==> 1 <= from.peers[q].core.lease[k].next
    ensures GoesCovered(from, steps, states) && !NoRepeat(states[|steps|].minted)
  {
    hide Enabled, Next, FloorCovers;
    steps, states := CountsUpTo(from, route);
    var to := states[|steps|];
    var more, later := MintsUpTo(to, q, route);
    GoesThrough(from, steps, states, more, later);
    var last := later[|more|].minted;
    assert last[|to.minted| - 1] == route && last[|last| - 1] == route;
    steps, states := steps + more, states[..|steps|] + later;
  }

  /** After a hand-over whose floor does not cover, some route can be minted twice. */
  lemma UncoveredMintsTwice(sys: System, step: Step) returns (steps: seq<Step>, states: seq<System>)
    requires Inv(sys) && Recorded(sys) && step.Promote? && Enabled(sys, step) && !FloorCovers(sys, step)
    ensures GoesCovered(Next(sys, step), steps, states) && !NoRepeat(states[|steps|].minted)
  {
    var after, counter := Next(sys, step), Max(step.own, step.told);
    HandedOver(sys, step);
    hide Inv, Recorded, Next, Enabled, GoesCovered, FloorCovers;
    if q, k :| q in step.reports && 0 <= k < |sys.peers[q].core.lease|
               && sys.peers[q].core.lease[k].end - 1 > counter && sys.peers[q].core.lease[k].end - 1 !in sys.minted {
      LeaseLeft(sys, q, k);
      steps, states := LeasedAndMinted(after, q, sys.peers[q].core.lease[k].end - 1);
    } else {
      var route := MintedAbove(sys, step);
      steps, states := MintedTwice(after, route);
    }
  }

  lemma MintedAbove(sys: System, step: Step) returns (route: int)
    requires step.Promote? && Enabled(sys, step) && !FloorCovers(sys, step)
    requires forall q, k :: q in step.reports && 0 <= k < |sys.peers[q].core.lease|
                            && sys.peers[q].core.lease[k].end - 1 > Max(step.own, step.told) ==>
                              sys.peers[q].core.lease[k].end - 1 in sys.minted
    ensures route in sys.minted && route > Max(step.own, step.told)
  {
    if r :| r in sys.minted && r > Max(step.own, step.told) {
      route := r;
    } else {
      assert false;
    }
  }

  /** The state just after a hand-over: the new counter, the same mints, the reporters with their leases. */
  lemma HandedOver(sys: System, step: Step)
    requires step.Promote? && Enabled(sys, step) && Inv(sys)
    ensures var after := Next(sys, step);
            && !after.server.leased && after.server.counter == Max(step.own, step.told) && after.minted == sys.minted
            && (forall q ::
                  q in step.reports ==> q in sys.peers && q in after.peers && after.peers[q].core == sys.peers[q].core)
  {
    var Promote(p, bound, own, told, reports) := step;
    PromotedPeers(sys, p, own, told, reports);
    RestoresGrants(LeaveLease(sys.peers[p].core, own), sys.peers, reports);
    assert forall q :: q in reports ==> q in sys.peers.Keys && q in Promoted(sys, p, own, told, reports).peers.Keys;
  }

  lemma {:induction false} RestoresGrants(server: Leases, peers: map<int, Peer>, reports: seq<int>)
    requires forall i :: 0 <= i < |reports| ==> reports[i] in peers
    ensures RestoreAll(server, peers, reports) == server.(grants := RestoreAll(server, peers, reports).grants)
  {
    if reports != [] {
      RestoresGrants(server, peers, reports[..|reports| - 1]);
    }
  }

  /** A block of a lease whose last route was not minted still has it. */
  lemma LeaseLeft(sys: System, q: int, k: nat)
    requires Inv(sys) && Recorded(sys) && q in sys.peers && k < |sys.peers[q].core.lease|
    requires sys.peers[q].core.lease[k].end - 1 !in sys.minted
    ensures sys.peers[q].core.leased && InChain(sys.peers[q].core.lease, sys.peers[q].core.lease[k].end - 1)
    ensures forall m :: 0 <= m < |sys.peers[q].core.lease| ==> 1 <= sys.peers[q].core.lease[m].next
  {
    assert PeerOk(sys.server, AcceptedOf(sys.accepted, q), q, sys.peers[q]);
    assert PeerRecorded(sys.minted, sys.peers[q]);
    LeaseOf(sys, q);
  }

  /** No continuation whose own hand-overs cover repeats a mint. */
  ghost predicate StaysSafe(from: System) {
    forall steps: seq<Step>, states: seq<System> ::
        GoesCovered(from, steps, states) ==> NoRepeat(states[|steps|].minted)
  }

  /**
   Exactly which hand-overs are safe, from every reachable state: those whose new counter is at or above
   every route minted and every lease taken over. Below that some continuation mints a route twice.
   */
  lemma HandOverIsSafeIff(steps: seq<Step>, states: seq<System>, step: Step)
    requires Run(steps, states) && step.Promote? && Enabled(states[|steps|], step)
    ensures StaysSafe(Next(states[|steps|], step)) <==> FloorCovers(states[|steps|], step)
  {
    var sys := states[|steps|];
    RunKeeps(steps, states);
    hide Inv, Recorded, FloorCovers, Next, Enabled, Run;
    if FloorCovers(sys, step) {
      StepKeeps(sys, step);
      forall more: seq<Step>, later: seq<System> | GoesCovered(Next(sys, step), more, later)
        ensures NoRepeat(later[|more|].minted)
      {
        GoingKeeps(Next(sys, step), more, later);
        MintsApart(later[|more|]);
      }
    } else {
      var more, later := UncoveredMintsTwice(sys, step);
    }
  }

  lemma MintsApart(sys: System)
    requires Inv(sys)
    ensures NoRepeat(sys.minted)
  {
  }

  /** A new server that is told the old one's counter covers everything. */
  lemma ToldTheCounterCovers(sys: System, step: Step)
    requires Inv(sys) && step.Promote? && Enabled(sys, step) && sys.server.counter <= step.told
    ensures FloorCovers(sys, step)
  {
    forall q, k | q in step.reports && 0 <= k < |sys.peers[q].core.lease|
      ensures sys.peers[q].core.lease[k].end - 1 <= step.told
    {
      assert q in sys.peers.Keys;
      LeaseOf(sys, q);
    }
  }

  // ----- hand-overs told what the survivors report -----

  /** The step mints this route. */
  predicate MintsAt(sys: System, step: Step, route: int) {
    match step
    case ServerMint => route == ReserveRoute(sys.server).1
    case PeerMint(p) => p in sys.peers && route != 0 && route == ReserveRoute(sys.peers[p].core).1
    case _ => false
  }

  /** Every route minted was minted by some step. */
  lemma {:induction false} MintedAtSomeStep(steps: seq<Step>, states: seq<System>, route: int) returns (at: nat)
    requires Run(steps, states) && route in states[|steps|].minted
    ensures at < |steps| && MintsAt(states[at], steps[at], route)
  {
    hide Enabled, FloorCovers, Next, MintsAt;
    assert START.minted == [];
    var n := |steps| - 1;
    assert Enabled(states[n], steps[n]) && states[n + 1] == Next(states[n], steps[n]);
    if route in states[n].minted {
      at := MintedAtSomeStep(steps[..n], states[..n + 1], route);
    } else {
      at := n;
      NewMint(states[n], steps[n], route);
    }
  }

  lemma NewMint(sys: System, step: Step, route: int)
    requires Enabled(sys, step) && route in Next(sys, step).minted && route !in sys.minted
    ensures MintsAt(sys, step, route)
  {
    hide ReserveRoute, RestoreAll, SpendLease, GrantLease;
  }

  /** A leaseholder that did not just join was there before, and remembers at least what it did. */
  lemma HighIsKept(sys: System, step: Step, q: int)
    requires Inv(sys) && Enabled(sys, step) && step != Join(q) && q in Next(sys, step).peers
    ensures q in sys.peers && sys.peers[q].core.mintedHigh <= Next(sys, step).peers[q].core.mintedHigh
    ensures forall route :: step == PeerMint(q) && MintsAt(sys, step, route) ==>
                              route <= Next(sys, step).peers[q].core.mintedHigh
  {
    if step.Promote? {
      PromotedPeers(sys, step.peer, step.own, step.told, step.reports);
      assert q in Next(sys, step).peers.Keys;
    } else if step == PeerMint(q) {
      assert PeerOk(sys.server, AcceptedOf(sys.accepted, q), q, sys.peers[q]);
    }
  }

  /** The peer has not joined anew since that step. */
  predicate StayedSince(steps: seq<Step>, at: nat, q: int) {
    forall j :: at < j < |steps| ==> steps[j] != Join(q)
  }

  lemma {:induction false} HighIsRemembered(steps: seq<Step>, states: seq<System>, at: nat, q: int, route: int)
    requires Run(steps, states) && at < |steps| && steps[at] == PeerMint(q) && MintsAt(states[at], steps[at], route)
    requires StayedSince(steps, at, q) && q in states[|steps|].peers
    ensures route <= states[|steps|].peers[q].core.mintedHigh
  {
    hide Enabled, FloorCovers, ReserveRoute, Promoted, Inv, Recorded, Next;
    var n := |steps| - 1;
    RunKeeps(steps[..n], states[..n + 1]);
    assert states[n + 1] == Next(states[n], steps[n]);
    HighIsKept(states[n], steps[n], q);
    if at < n {
      HighIsRemembered(steps[..n], states[..n + 1], at, q, route);
    }
  }

  /** The route was minted by the new server, or by a survivor that reports, since it last joined. */
  ghost predicate Vouched(steps: seq<Step>, states: seq<System>, step: Step, route: int)
    requires |states| == |steps| + 1 && step.Promote?
  {
    exists at :: 0 <= at < |steps| && MintsAt(states[at], steps[at], route) && VouchedAt(steps, at, step)
  }

  predicate VouchedAt(steps: seq<Step>, at: nat, step: Step)
    requires at < |steps| && step.Promote?
  {
    && steps[at].PeerMint? && StayedSince(steps, at, steps[at].peer)
    && (steps[at].peer == step.peer || steps[at].peer in step.reports)
  }

  /** Each survivor that reports tells its floor at the time, and the new server is told the greatest or more. */
  ghost predicate ToldFloors(sys: System, step: Step, bounds: seq<set<int>>, floors: seq<int>)
    requires step.Promote? && Enabled(sys, step)
  {
    && |bounds| == |floors| == |step.reports|
    && forall i :: 0 <= i < |floors| ==>
         floors[i] <= step.told && IsFloor(sys.peers[step.reports[i]].core, bounds[i], floors[i])
  }

  lemma VouchedIsCovered(steps: seq<Step>, states: seq<System>, step: Step, bounds: seq<set<int>>, floors: seq<int>,
                         route: int)
    requires Run(steps, states) && step.Promote? && Enabled(states[|steps|], step)
    requires ToldFloors(states[|steps|], step, bounds, floors) && Vouched(steps, states, step, route)
    ensures route <= Max(step.own, step.told)
  {
    hide MintsAt, Next, FloorCovers;
    var at :| 0 <= at < |steps| && MintsAt(states[at], steps[at], route) && VouchedAt(steps, at, step);
    var q, sys := steps[at].peer, states[|steps|];
    if q == step.peer {
      HighIsRemembered(steps, states, at, q, route);
    } else {
      var i :| 0 <= i < |step.reports| && step.reports[i] == q;
      assert step.reports[i] in sys.peers.Keys - {step.peer};
      HighIsRemembered(steps, states, at, q, route);
    }
  }

  /**
   A hand-over told at least every floor reported, as the source's is, is safe if and only if no route above
   the new counter was minted by the old server, or by a peer that does not report or joined anew since.
   */
  lemma ToldHandOverIsSafeIff(steps: seq<Step>, states: seq<System>, step: Step, bounds: seq<set<int>>,
                              floors: seq<int>)
    requires Run(steps, states) && step.Promote? && Enabled(states[|steps|], step)
    requires ToldFloors(states[|steps|], step, bounds, floors)
    ensures StaysSafe(Next(states[|steps|], step)) <==>
              forall route :: route in states[|steps|].minted && !Vouched(steps, states, step, route) ==>
                                route <= Max(step.own, step.told)
  {
    var sys := states[|steps|];
    HandOverIsSafeIff(steps, states, step);
    ToldLeasesAreCovered(sys, step, bounds, floors);
    hide Run, Next, StaysSafe, Vouched, Enabled;
    forall route | route in sys.minted && Vouched(steps, states, step, route)
      ensures route <= Max(step.own, step.told)
    {
      VouchedIsCovered(steps, states, step, bounds, floors, route);
    }
  }

  lemma ToldLeasesAreCovered(sys: System, step: Step, bounds: seq<set<int>>, floors: seq<int>)
    requires step.Promote? && Enabled(sys, step) && ToldFloors(sys, step, bounds, floors)
    ensures FloorCovers(sys, step) <==> forall route :: route in sys.minted ==> route <= Max(step.own, step.told)
  {
    forall q, k | q in step.reports && 0 <= k < |sys.peers[q].core.lease|
      ensures sys.peers[q].core.lease[k].end - 1 <= Max(step.own, step.told)
    {
      var i :| 0 <= i < |step.reports| && step.reports[i] == q;
      assert CoversAll(sys.peers[q].core, bounds[i], floors[i]);
    }
  }

  /** A server that minted and then stays silent: the next one, told nothing, mints its route again. */
  lemma SilentServerMintsAgain()
    ensures exists steps: seq<Step>, states: seq<System> ::
              Goes(START, steps, states) && states[|steps|].minted == [1, 1]
  {
    var s1 := Next(START, Join(7));
    var s2 := Next(s1, ServerMint);
    var take := Promote(7, {}, 0, 0, []);
    assert s2.peers[7].core == InstallLease(FRESH, 0, 0);
    assert IsFloor(s2.peers[7].core, {}, 0);
    assert s2.minted == [1];
    var s3 := Next(s2, take);
    var s4 := Next(s3, ServerMint);
    var steps, states := [Join(7), ServerMint, take, ServerMint], [START, s1, s2, s3, s4];
    assert s4.minted == [1, 1];
    assert Goes(START, steps, states);
  }

  /**
   The server accepts every in-order subsequence of a peer's mints: however many are lost on the way, the
   next one it sees is accepted, and then that route and every lower one of the peer is refused while
   every other peer's grants are exactly as before.
   */
  lemma ClaimsAreAccepted(steps: seq<Step>, states: seq<System>, p: int, skip: nat, again: int)
    requires Run(steps, states)
    requires var sys := states[|steps|];
             p in sys.peers && skip < |sys.peers[p].claims| && again <= sys.peers[p].claims[skip]
    ensures var sys := states[|steps|];
            var (after, spent) := Presented(sys, p, skip);
            && spent
            && !SpendLease(after, p, again).1
            && Others(after.grants, p) == Others(sys.server.grants, p)
  {
    var sys := states[|steps|];
    RunKeeps(steps, states);
    PresentKeeps(sys, p, skip);
    var route := sys.peers[p].claims[skip];
    SpendLeavesOthers(sys.server.grants, p, route);
    SpendServer(sys.server, sys.accepted, p, route);
    SpendMeaning(Presented(sys, p, skip).0.grants, p, again, p, again);
  }

  /** A repeat or a step backwards is refused for good: at any later time, and by any later server. */
  lemma StepsBackAreRefused(steps: seq<Step>, states: seq<System>, p: int, route: int)
    requires Run(steps, states) && route <= AcceptedOf(states[|steps|].accepted, p)
    ensures SpendLease(states[|steps|].server, p, route) == (states[|steps|].server, false)
  {
    var sys := states[|steps|];
    RunKeeps(steps, states);
    assert GrantsAscend(sys.server.grants, p);
    SpendMeaning(sys.server.grants, p, route, p, route);
  }
}
