/** A sliding-window call limiter that prunes as it goes, proved against the full log of its calls. */
module RateWindows {
  import opened Wrappers

  datatype Call = Call(peer: int, at: int)

  /** The stamps of one peer's calls, in order. */
  function StampsOf(log: seq<Call>, peer: int): seq<int> {
    if log == [] then []
    else
      var early, last := StampsOf(log[..|log| - 1], peer), log[|log| - 1];
      if last.peer == peer then early + [last.at] else early
  }

  /** How many stamps are at or after `start`. */
  function CountFrom(stamps: seq<int>, start: int): nat {
    if stamps == [] then 0
    else CountFrom(stamps[..|stamps| - 1], start) + if stamps[|stamps| - 1] >= start then 1 else 0
  }

  ghost predicate Ascending(stamps: seq<int>) {
    forall i, j :: 0 <= i < j < |stamps| ==> stamps[i] <= stamps[j]
  }

  lemma StampsAppend(log: seq<Call>, call: Call, peer: int)
    ensures StampsOf(log + [call], peer) == StampsOf(log, peer) + if call.peer == peer then [call.at] else []
  {
    assert (log + [call])[..|log|] == log;
  }

  /** What is kept of a peer's stamps: all but a front part older than `start`. */
  ghost predicate Keeps(held: seq<int>, stamps: seq<int>, start: int) {
    && |held| <= |stamps|
    && held == stamps[|stamps| - |held|..]
    && forall i :: 0 <= i < |stamps| - |held| ==> stamps[i] < start
  }

  /** The stamps kept for a peer; a peer without an entry keeps none. */
  function HeldOf(held: map<int, seq<int>>, peer: int): seq<int> {
    if peer in held then held[peer] else []
  }

  ghost predicate AllKept(held: map<int, seq<int>>, log: seq<Call>, start: int) {
    forall peer: int :: Keeps(HeldOf(held, peer), StampsOf(log, peer), start)
  }

  /** The newest of ascending stamps is at or after `start`. */
  predicate LastSince(stamps: seq<int>, start: int) {
    stamps != [] && stamps[|stamps| - 1] >= start
  }

  ghost predicate Ordered(log: seq<Call>, latest: int) {
    && (forall i, j :: 0 <= i < j < |log| ==> log[i].at <= log[j].at)
    && (forall i :: 0 <= i < |log| ==> log[i].at <= latest)
  }

  lemma {:induction false} StampsAscend(log: seq<Call>, latest: int, peer: int)
    requires Ordered(log, latest)
    ensures Ascending(StampsOf(log, peer)) && forall i ::
              0 <= i < |StampsOf(log, peer)| ==> StampsOf(log, peer)[i] <= latest
  {
    if log == [] {
    } else {
      StampsAscend(log[..|log| - 1], log[|log| - 1].at, peer);
    }
  }

  /** Of ascending stamps, those kept from the first one in time on are all the ones in time. */
  lemma {:induction false} CountIsSuffix(stamps: seq<int>, start: int, kept: nat)
    requires kept <= |stamps|
    requires forall i :: 0 <= i < |stamps| - kept ==> stamps[i] < start
    requires forall i :: |stamps| - kept <= i < |stamps| ==> stamps[i] >= start
    ensures CountFrom(stamps, start) == kept
  {
    if stamps == [] {
    } else {
      CountIsSuffix(stamps[..|stamps| - 1], start, if kept == 0 then 0 else kept - 1);
    }
  }

  /** The peer's calls at or after `start`. */
  ghost function CallsSince(log: seq<Call>, peer: int, start: int): set<nat> {
    set i: nat | i < |log| && log[i].peer == peer && log[i].at >= start
  }

  /** Counting a peer's stamps counts its calls. */
  lemma {:induction false} CountIsCalls(log: seq<Call>, peer: int, start: int)
    ensures CountFrom(StampsOf(log, peer), start) == |CallsSince(log, peer, start)|
  {
    if log == [] {
      assert CallsSince(log, peer, start) == {};
    } else {
      hide CountFrom;
      var n := |log| - 1;
      var early, before := log[..n], CallsSince(log[..n], peer, start);
      CountIsCalls(early, peer, start);
      CountAppend(StampsOf(early, peer), log[n].at, start);
      assert CallsSince(log, peer, start) == if log[n].peer == peer && log[n].at >= start then before + {n} else before;
    }
  }

  lemma CountAppend(stamps: seq<int>, at: int, start: int)
    ensures CountFrom(stamps + [at], start) == CountFrom(stamps, start) + if at >= start then 1 else 0
  {
    assert (stamps + [at])[..|stamps|] == stamps;
  }

  class RateWindow {
    const limit: int
    const trackedPeers: int
    const span: int
    const exemptPeer: int
    var ascendingStamps: map<int, seq<int>>
    /** Every counted call, and the latest time any was made. */
    ghost var log: seq<Call>
    ghost var latest: int

    ghost predicate Valid()
      reads this
    {
      Ordered(log, latest) && AllKept(ascendingStamps, log, latest - span)
    }

    constructor (limit: int := 8, trackedPeers: int := 64, span: int := 1000, exemptPeer: int := 1,
                 ghost start: int := 0)
      ensures Valid() && log == [] && latest == start
      ensures this.limit == limit && this.trackedPeers == trackedPeers && this.span == span &&
              this.exemptPeer == exemptPeer
    {
      this.limit, this.trackedPeers, this.span, this.exemptPeer := limit, trackedPeers, span, exemptPeer;
      ascendingStamps, log, latest := map[], [], start;
    }

    /** Drops exactly the peers without a stamp at or after `windowStart`, which loses none of the others. */
    method DropPeersIdleSince(windowStart: int)
      requires AllKept(ascendingStamps, log, windowStart) && Ordered(log, latest)
      modifies `ascendingStamps
      ensures AllKept(ascendingStamps, log, windowStart)
      ensures ascendingStamps == map peer | peer in old(ascendingStamps)
                                           && LastSince(old(ascendingStamps)[peer], windowStart)
                                   :: old(ascendingStamps)[peer]
    {
      hide StampsOf, AllKept, Ordered, LastSince;
      ghost var first := ascendingStamps;
      var stale: seq<int> := [];
      var rest := ascendingStamps.Keys;
      while rest != {}
        invariant rest <= first.Keys && ascendingStamps == first
        invariant forall peer :: peer in stale <==>
                    peer in first && peer !in rest && !LastSince(first[peer], windowStart)
        decreases rest
      {
        var peer := Pick(rest);
        rest := rest - {peer};
        var held := ascendingStamps[peer];
        LastIs(held, windowStart);
        if |held| == 0 || held[|held| - 1] < windowStart {
          stale := stale + [peer];
        }
      }
      assert forall peer :: peer in stale <==> peer in first && !LastSince(first[peer], windowStart);
      for at := 0 to |stale|
        invariant forall peer :: peer in stale ==> peer in first && !LastSince(first[peer], windowStart)
        invariant AllKept(ascendingStamps, log, windowStart)
        invariant ascendingStamps == first - set peer | peer in stale[..at]
      {
        assert stale[at] in stale;
        LastIs(first[stale[at]], windowStart);
        IdleDropped(first, ascendingStamps, log, latest, windowStart, stale[at]);
        ascendingStamps := ascendingStamps - {stale[at]};
      }
      assert stale[..|stale|] == stale;
      DroppedAre(first, stale, windowStart);
    }

    /**
     Records the call and says whether it is over the limit: whether the peer's earlier calls since
     `now - span`, however old and whatever was pruned or swept since, and this one are more than the
     limit. The limit is read as an unsigned word.
     */
    method Exceeded(peer: int, now: int) returns (over: bool)
      requires Valid() && latest <= now
      modifies this
      ensures Valid() && latest == (if peer == exemptPeer then old(latest) else now)
      ensures log == old(log) + if peer == exemptPeer then [] else [Call(peer, now)]
      ensures over ==
              (peer != exemptPeer && |CallsSince(old(log), peer, now - span)| + 1 > limit % 0x1_0000_0000)
      ensures peer != exemptPeer && |old(ascendingStamps)| > trackedPeers % 0x1_0000_0000 ==>
                forall other ::
                    other in ascendingStamps ==> LastSince(ascendingStamps[other], now - span) || other == peer
    {
      hide StampsOf, CountFrom, CallsSince, LastSince, AllKept, Keeps, Ordered, Ascending;
      if peer == exemptPeer {
        return false;
      }
      var windowStart := now - span;
      StartMoves(ascendingStamps, log, latest - span, windowStart);
      if |ascendingStamps| > trackedPeers % 0x1_0000_0000 {
        DropPeersIdleSince(windowStart);
      }
      var held := HeldOf(ascendingStamps, peer);
      ghost var stamps := StampsOf(log, peer);
      KeptOf(ascendingStamps, log, windowStart, peer);
      StampsAscend(log, latest, peer);
      var expired := 0;
      while expired < |held| && held[expired] < windowStart
        invariant 0 <= expired <= |held| && forall i :: 0 <= i < expired ==> held[i] < windowStart
      {
        expired := expired + 1;
      }
      PrunedKeeps(held, stamps, windowStart, expired);
      CountIsCalls(log, peer, windowStart);
      held := held[expired..];
      OneMoreKept(ascendingStamps, log, windowStart, peer, now, held);
      OneMoreOrdered(log, latest, peer, now);
      held := held + [now];
      ascendingStamps := ascendingStamps[peer := held];
      log, latest := log + [Call(peer, now)], now;
      return |held| > limit % 0x1_0000_0000;
    }

    method Clear()
      modifies this
      ensures Valid() && log == [] && latest == old(latest)
    {
      ascendingStamps, log := map[], [];
    }
  }

  /** An idle peer's entry says no more than no entry. */
  lemma IdleKeepsNothing(held: map<int, seq<int>>, log: seq<Call>, latest: int, start: int, peer: int)
    requires AllKept(held, log, start) && Ordered(log, latest) && peer in held
    requires held[peer] == [] || held[peer][|held[peer]| - 1] < start
    ensures Keeps([], StampsOf(log, peer), start)
  {
    hide StampsOf;
    StampsAscend(log, latest, peer);
    assert Keeps(HeldOf(held, peer), StampsOf(log, peer), start);
  }

  lemma IdleDropped(first: map<int, seq<int>>, held: map<int, seq<int>>, log: seq<Call>, latest: int, start: int,
                    peer: int)
    requires AllKept(first, log, start) && AllKept(held, log, start) && Ordered(log, latest) && peer in first
    requires first[peer] == [] || first[peer][|first[peer]| - 1] < start
    ensures AllKept(held - {peer}, log, start)
  {
    hide StampsOf, Keeps;
    IdleKeepsNothing(first, log, latest, start, peer);
    forall other: int ensures Keeps(HeldOf(held - {peer}, other), StampsOf(log, other), start) {
      assert Keeps(HeldOf(held, other), StampsOf(log, other), start);
    }
  }

  lemma DroppedAre(first: map<int, seq<int>>, stale: seq<int>, start: int)
    requires forall peer :: peer in stale <==> peer in first && !LastSince(first[peer], start)
    ensures first - (set peer | peer in stale) ==
              map peer | peer in first && LastSince(first[peer], start) :: first[peer]
  {
    hide LastSince;
    var idle, kept := set peer | peer in stale, map peer | peer in first && LastSince(first[peer], start) ::
          first[peer];
    forall peer: int ensures peer in first - idle <==> peer in kept {
      assert peer in idle <==> peer in stale;
    }
  }

  lemma LastIs(stamps: seq<int>, start: int)
    ensures LastSince(stamps, start) <==> stamps != [] && stamps[|stamps| - 1] >= start
  {
  }

  lemma KeptOf(held: map<int, seq<int>>, log: seq<Call>, start: int, peer: int)
    requires AllKept(held, log, start)
    ensures Keeps(HeldOf(held, peer), StampsOf(log, peer), start)
  {
  }

  lemma StartMoves(held: map<int, seq<int>>, log: seq<Call>, start: int, later: int)
    requires AllKept(held, log, start) && start <= later
    ensures AllKept(held, log, later)
  {
    hide StampsOf;
    forall peer: int ensures Keeps(HeldOf(held, peer), StampsOf(log, peer), later) {
      assert Keeps(HeldOf(held, peer), StampsOf(log, peer), start);
    }
  }

  /** Pruned to the first stamp in time, what is kept is exactly the stamps in time. */
  lemma PrunedKeeps(held: seq<int>, stamps: seq<int>, start: int, expired: nat)
    requires Keeps(held, stamps, start) && Ascending(stamps) && expired <= |held|
    requires forall i :: 0 <= i < expired ==> held[i] < start
    requires expired < |held| ==> held[expired] >= start
    ensures Keeps(held[expired..], stamps, start) && CountFrom(stamps, start) == |held| - expired
  {
    hide CountFrom;
    var front := |stamps| - |held|;
    forall i | front <= i < front + expired ensures stamps[i] < start {
      assert stamps[i] == held[i - front];
    }
    assert expired < |held| ==> stamps[front + expired] == held[expired];
    CountIsSuffix(stamps, start, |held| - expired);
  }

  lemma KeepsOneMore(kept: seq<int>, stamps: seq<int>, start: int, now: int)
    requires Keeps(kept, stamps, start)
    ensures Keeps(kept + [now], stamps + [now], start)
  {
  }

  lemma {:induction false} OneMoreKept(held: map<int, seq<int>>, log: seq<Call>, start: int, peer: int, now: int,
                                       kept: seq<int>)
    requires AllKept(held, log, start) && Keeps(kept, StampsOf(log, peer), start)
    ensures AllKept(held[peer := kept + [now]], log + [Call(peer, now)], start)
  {
    hide StampsOf, Keeps;
    var after, all := held[peer := kept + [now]], log + [Call(peer, now)];
    forall other: int ensures Keeps(HeldOf(after, other), StampsOf(all, other), start) {
      StampsAppend(log, Call(peer, now), other);
      if other == peer {
        KeepsOneMore(kept, StampsOf(log, peer), start, now);
      } else {
        assert StampsOf(all, other) == StampsOf(log, other);
        assert Keeps(HeldOf(held, other), StampsOf(log, other), start);
      }
    }
  }

  lemma OneMoreOrdered(log: seq<Call>, latest: int, peer: int, now: int)
    requires Ordered(log, latest) && latest <= now
    ensures Ordered(log + [Call(peer, now)], now)
  {
  }
}
