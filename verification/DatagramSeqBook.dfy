/** The per-peer sequence books of a session, updated in place, proved against the whole log of their calls. */
module DatagramSeqBooks {
  import opened Wrappers
  import opened Bits
  import opened AckHistory
  import opened RoundTrips

  function Get<T>(held: map<int, T>, peer: int, absent: T): T {
    if peer in held then held[peer] else absent
  }

  function Find<T>(held: map<int, T>, peer: int): Option<T> {
    if peer in held then Some(held[peer]) else None
  }

  // ----- what the logs of a peer's calls say the books hold -----

  /** The inbound numbers of one peer, in order of arrival, that were judged `verdict`. */
  function Judged(arrivals: seq<nat>, verdict: Verdict): nat {
    if arrivals == [] then 0
    else
      var early, last := arrivals[..|arrivals| - 1], arrivals[|arrivals| - 1];
      Judged(early, verdict) + if Judge(AckHistory.Run(early), Seq(last)) == verdict then 1 else 0
  }

  /** Arrival `i` is below the highest before it, by at most 32. */
  ghost predicate Behind(arrivals: seq<nat>, i: nat) {
    0 < i < |arrivals| && 1 <= Highest(arrivals[..i]) - arrivals[i] <= 32
  }

  /** Arrival `i` came before, and was not forgotten since. */
  ghost predicate Seen(arrivals: seq<nat>, i: nat) {
    0 < i < |arrivals| && arrivals[i] in arrivals[..i] && Forgotten(arrivals[..i]) != Some(arrivals[i])
  }

  ghost predicate Late(arrivals: seq<nat>, i: nat) {
    Behind(arrivals, i) && !Seen(arrivals, i)
  }

  ghost predicate Again(arrivals: seq<nat>, i: nat) {
    (Behind(arrivals, i) && Seen(arrivals, i)) || (0 < i < |arrivals| && arrivals[i] == Highest(arrivals[..i]))
  }

  ghost function LateOnes(arrivals: seq<nat>): set<nat> {
    set i: nat | i < |arrivals| && Late(arrivals, i)
  }

  ghost function RepeatedOnes(arrivals: seq<nat>): set<nat> {
    set i: nat | i < |arrivals| && Again(arrivals, i)
  }

  /** The reorders and duplicates counted are those of the unbounded numbers the serials stand for. */
  lemma {:induction false} CountsAre(arrivals: seq<nat>)
    requires Near(arrivals)
    ensures Judged(AckHistory.Wire(arrivals), Reordered) == |LateOnes(arrivals)|
    ensures Judged(AckHistory.Wire(arrivals), Duplicate) == |RepeatedOnes(arrivals)|
  {
    if arrivals == [] {
      assert LateOnes(arrivals) == RepeatedOnes(arrivals) == {};
    } else {
      hide Judge, Judged, Near, LateOnes, RepeatedOnes, Late, Again;
      NearBefore(arrivals);
      CountsAre(arrivals[..|arrivals| - 1]);
      JudgedLast(arrivals, Reordered);
      JudgedLast(arrivals, Duplicate);
      VerdictAt(arrivals);
      OneMorePlace(arrivals);
    }
  }

  lemma OneMorePlace(arrivals: seq<nat>)
    requires arrivals != []
    ensures var n := |arrivals| - 1;
            && |LateOnes(arrivals)| == |LateOnes(arrivals[..n])| + (if Late(arrivals, n) then 1 else 0)
            && |RepeatedOnes(arrivals)| == |RepeatedOnes(arrivals[..n])| + (if Again(arrivals, n) then 1 else 0)
  {
    hide Late, Again;
    var n := |arrivals| - 1;
    forall i: nat | i < n
      ensures Late(arrivals, i) == Late(arrivals[..n], i) && Again(arrivals, i) == Again(arrivals[..n], i)
    {
      LateBefore(arrivals, i);
    }
    var late, repeated := LateOnes(arrivals[..n]), RepeatedOnes(arrivals[..n]);
    assert LateOnes(arrivals) == if Late(arrivals, n) then late + {n} else late;
    assert RepeatedOnes(arrivals) == if Again(arrivals, n) then repeated + {n} else repeated;
  }

  lemma NearBefore(arrivals: seq<nat>)
    requires arrivals != [] && Near(arrivals)
    ensures var n := |arrivals| - 1;
            Near(arrivals[..n]) && (n > 0 ==> -32768 < arrivals[n] - Highest(arrivals[..n]) < 32768)
  {
    hide Highest;
    var early := arrivals[..|arrivals| - 1];
    assert forall i :: 0 <= i <= |early| ==> early[..i] == arrivals[..i];
  }

  lemma LateBefore(arrivals: seq<nat>, i: nat)
    requires i < |arrivals| - 1
    ensures var early := arrivals[..|arrivals| - 1];
            Late(arrivals, i) == Late(early, i) && Again(arrivals, i) == Again(early, i)
  {
    hide Highest, Forgotten;
    assert arrivals[..|arrivals| - 1][..i] == arrivals[..i];
  }

  lemma JudgedLast(arrivals: seq<nat>, verdict: Verdict)
    requires arrivals != []
    ensures var early, last := arrivals[..|arrivals| - 1], arrivals[|arrivals| - 1];
            Judged(AckHistory.Wire(arrivals), verdict) ==
              Judged(AckHistory.Wire(early), verdict) + if Judge(AckHistory.Run(early), Seq(last)) == verdict then 1
                                                        else 0
  {
    hide Judge, Seq;
    var early, last := arrivals[..|arrivals| - 1], arrivals[|arrivals| - 1];
    assert AckHistory.Wire(arrivals)[..|early|] == AckHistory.Wire(early);
    AckHistory.WireRunsAlike(early);
    SeqTwice(last);
  }

  lemma SeqTwice(n: nat)
    ensures Seq(Seq(n)) == Seq(n)
  {
  }

  lemma VerdictAt(arrivals: seq<nat>)
    requires arrivals != [] && Near(arrivals)
    ensures var n := |arrivals| - 1;
            var verdict := Judge(AckHistory.Run(arrivals[..n]), Seq(arrivals[n]));
            (verdict == Reordered <==> Late(arrivals, n)) && (verdict == Duplicate <==> Again(arrivals, n))
  {
    hide Judge, Highest, Forgotten, Near, Seq;
    var n := |arrivals| - 1;
    NearBefore(arrivals);
    if n > 0 {
      VerdictMeaning(arrivals[..n], arrivals[n]);
      HighestIsMaximum(arrivals[..n]);
    } else {
      FirstIsFresh(Seq(arrivals[0]));
      assert arrivals[..0] == [];
    }
  }

  lemma FirstIsFresh(serial: nat)
    ensures Judge(AckHistory.Run([]), serial) == Fresh
  {
  }

  ghost predicate InboundAgrees(freshest: map<int, nat>, history: map<int, nat>, heard: map<int, seq<nat>>) {
    forall peer: int :: HoldsInbound(freshest, history, Get(heard, peer, []), peer)
  }

  ghost predicate HoldsInbound(freshest: map<int, nat>, history: map<int, nat>, arrivals: seq<nat>, peer: int) {
    match AckHistory.Run(arrivals)
    case None => peer !in freshest && peer !in history
    case Some(inbound) => peer in freshest && peer in history && inbound == Inbound(freshest[peer], history[peer])
  }

  ghost predicate CountsAgree(counts: map<int, nat>, heard: map<int, seq<nat>>, verdict: Verdict) {
    forall peer: int :: Get(counts, peer, 0) == Judged(Get(heard, peer, []), verdict)
  }

  ghost predicate SendsAgree(sendSeqs: map<int, nat>, events: map<int, seq<Event>>) {
    forall peer: int :: Get(sendSeqs, peer, 0) == RoundTrips.Run(Get(events, peer, [])).lastSeq
  }

  ghost predicate TripsAgree(trips: map<int, Trip>, events: map<int, seq<Event>>) {
    forall peer: int :: Get(trips, peer, Blank()) == RoundTrips.Run(Get(events, peer, [])).trip
  }

  /** Every peer's estimate is the closed form of its samples alone. */
  ghost predicate EstimatesAgree(trips: map<int, Trip>, events: map<int, seq<Event>>) {
    forall peer: int ::
      Estimates(Get(trips, peer, Blank()), Values(RoundTrips.Run(Get(events, peer, [])).samples))
  }

  lemma TripsEstimate(trips: map<int, Trip>, events: map<int, seq<Event>>)
    requires TripsAgree(trips, events)
    ensures EstimatesAgree(trips, events)
  {
    hide RoundTrips.Run, Estimates, Blank;
    forall peer: int
      ensures Estimates(Get(trips, peer, Blank()), Values(RoundTrips.Run(Get(events, peer, [])).samples))
    {
      EstimateIsOfSamples(Get(events, peer, []));
    }
  }

  ghost predicate AcksAgree(acks: map<int, nat>, histories: map<int, nat>, events: map<int, seq<Event>>) {
    forall peer: int :: HoldsAck(acks, histories, RoundTrips.Run(Get(events, peer, [])), peer)
  }

  ghost predicate HoldsAck(acks: map<int, nat>, histories: map<int, nat>, link: Link, peer: int) {
    Find(acks, peer) == link.peerAck && Get(histories, peer, 0) == link.peerHistory
  }

  /** A log with one more entry under `peer`. */
  function Logged<T>(logs: map<int, seq<T>>, peer: int, entry: T): map<int, seq<T>> {
    logs[peer := Get(logs, peer, []) + [entry]]
  }

  lemma GetLogged<T>(logs: map<int, seq<T>>, peer: int, entry: T)
    ensures forall other: int :: Get(Logged(logs, peer, entry), other, [])
              == if other == peer then Get(logs, peer, []) + [entry] else Get(logs, other, [])
  {
  }

  lemma RunOne(arrivals: seq<nat>, serial: nat)
    ensures AckHistory.Run(arrivals + [serial]) == Some(Note(AckHistory.Run(arrivals), Seq(serial)))
    ensures forall verdict :: Judged(arrivals + [serial], verdict)
              == Judged(arrivals, verdict) + if Judge(AckHistory.Run(arrivals), Seq(serial)) == verdict then 1 else 0
  {
    assert (arrivals + [serial])[..|arrivals|] == arrivals;
  }

  lemma LinkOne(events: seq<Event>, event: Event)
    ensures RoundTrips.Run(events + [event]) == RoundTrips.Next(RoundTrips.Run(events), event)
  {
    assert (events + [event])[..|events|] == events;
  }

  lemma InboundKeeps(freshest: map<int, nat>, history: map<int, nat>, heard: map<int, seq<nat>>, peer: int, serial: nat)
    requires InboundAgrees(freshest, history, heard)
    ensures var held := AckHistory.Run(Get(heard, peer, []));
            var inbound := Note(held, Seq(serial));
            && HoldsInbound(freshest, history, Get(heard, peer, []), peer)
            && InboundAgrees(freshest[peer := inbound.freshest], history[peer := inbound.history],
                             Logged(heard, peer, serial))
  {
    hide AckHistory.Run, Note, Seq;
    var before := Get(heard, peer, []);
    assert HoldsInbound(freshest, history, before, peer);
    RunOne(before, serial);
    GetLogged(heard, peer, serial);
  }

  /** A counter of one verdict after one more arrival. */
  function Counted(counts: map<int, nat>, peer: int, judged: Verdict, verdict: Verdict): map<int, nat> {
    if judged == verdict then counts[peer := Get(counts, peer, 0) + 1] else counts
  }

  lemma {:induction false} CountsKeep(counts: map<int, nat>, heard: map<int, seq<nat>>, verdict: Verdict, peer: int,
                                      serial: nat)
    requires CountsAgree(counts, heard, verdict)
    ensures var judged := Judge(AckHistory.Run(Get(heard, peer, [])), Seq(serial));
            CountsAgree(Counted(counts, peer, judged, verdict), Logged(heard, peer, serial), verdict)
  {
    hide AckHistory.Run, Judge, Seq, Judged;
    RunOne(Get(heard, peer, []), serial);
    GetLogged(heard, peer, serial);
    assert Get(counts, peer, 0) == Judged(Get(heard, peer, []), verdict);
  }

  /** One peer's entry replaced by `value`, or every entry kept. */
  ghost predicate Touched<T>(before: map<int, T>, after: map<int, T>, peer: int, value: T) {
    after == before[peer := value] || after == before
  }

  lemma SendsKeep(before: map<int, nat>, after: map<int, nat>, events: map<int, seq<Event>>, peer: int, event: Event)
    requires SendsAgree(before, events)
    requires var link := RoundTrips.Next(RoundTrips.Run(Get(events, peer, [])), event);
             Touched(before, after, peer, link.lastSeq) && Get(after, peer, 0) == link.lastSeq
    ensures SendsAgree(after, Logged(events, peer, event))
  {
    hide RoundTrips.Run, RoundTrips.Next;
    LinkOne(Get(events, peer, []), event);
    GetLogged(events, peer, event);
  }

  lemma TripsKeep(before: map<int, Trip>, after: map<int, Trip>, events: map<int, seq<Event>>, peer: int, event: Event)
    requires TripsAgree(before, events)
    requires var link := RoundTrips.Next(RoundTrips.Run(Get(events, peer, [])), event);
             Touched(before, after, peer, link.trip) && Get(after, peer, Blank()) == link.trip
    ensures TripsAgree(after, Logged(events, peer, event))
  {
    hide RoundTrips.Run, RoundTrips.Next, Blank;
    LinkOne(Get(events, peer, []), event);
    GetLogged(events, peer, event);
  }

  lemma AcksKeep(acks: map<int, nat>, histories: map<int, nat>, acksNow: map<int, nat>, historiesNow: map<int, nat>,
                 events: map<int, seq<Event>>, peer: int, event: Event)
    requires AcksAgree(acks, histories, events)
    requires var link := RoundTrips.Next(RoundTrips.Run(Get(events, peer, [])), event);
             && HoldsAck(acksNow, historiesNow, link, peer)
             && forall other: int :: other != peer ==>
                  Find(acksNow, other) == Find(acks, other) && Get(historiesNow, other, 0) == Get(histories, other, 0)
    ensures AcksAgree(acksNow, historiesNow, Logged(events, peer, event))
  {
    hide RoundTrips.Run, RoundTrips.Next;
    LinkOne(Get(events, peer, []), event);
    GetLogged(events, peer, event);
  }

  /** What the books hold for one peer. */
  lemma LinkAt(sendSeqs: map<int, nat>, trips: map<int, Trip>, acks: map<int, nat>, histories: map<int, nat>,
               events: map<int, seq<Event>>, peer: int)
    requires SendsAgree(sendSeqs, events) && TripsAgree(trips, events) && AcksAgree(acks, histories, events)
    ensures var link := RoundTrips.Run(Get(events, peer, []));
            && Get(sendSeqs, peer, 0) == link.lastSeq
            && Get(trips, peer, Blank()) == link.trip
            && HoldsAck(acks, histories, link, peer)
  {
    hide RoundTrips.Run, Get, Find;
  }

  lemma CountsSends(events: seq<Event>, now: nat)
    ensures var link := RoundTrips.Run(events);
            Seq(link.lastSeq + 1) == Seq(|link.sends| + 1)
  {
    hide RoundTrips.Run;
    SamplesAreRight(events);
  }

  lemma SmallSeq(serial: nat)
    requires serial < SEQ_COUNT
    ensures Seq(serial) == serial
  {
  }

  lemma NoSample(trip: Trip, ack: nat, now: nat, held: bool)
    requires Sized(trip) && (!held ==> trip == Blank()) && (held ==> !Yields(trip, ack, now))
    ensures Acked(trip, ack, now) == trip
  {
  }

  lemma ForgottenInbound(freshest: map<int, nat>, history: map<int, nat>, heard: map<int, seq<nat>>, peer: int)
    requires InboundAgrees(freshest, history, heard)
    ensures InboundAgrees(freshest - {peer}, history - {peer}, heard - {peer})
  {
    forall other: int ensures HoldsInbound(freshest - {peer}, history - {peer}, Get(heard - {peer}, other, []), other) {
      assert HoldsInbound(freshest, history, Get(heard, other, []), other);
    }
  }

  lemma {:induction false} ForgottenCounts(counts: map<int, nat>, heard: map<int, seq<nat>>, verdict: Verdict,
                                           peer: int)
    requires CountsAgree(counts, heard, verdict)
    ensures CountsAgree(counts - {peer}, heard - {peer}, verdict)
  {
    forall other: int ensures Get(counts - {peer}, other, 0) == Judged(Get(heard - {peer}, other, []), verdict) {
      assert Get(counts, other, 0) == Judged(Get(heard, other, []), verdict);
    }
  }

  lemma ForgottenLink(sendSeqs: map<int, nat>, trips: map<int, Trip>, acks: map<int, nat>, histories: map<int, nat>,
                      events: map<int, seq<Event>>, peer: int)
    requires SendsAgree(sendSeqs, events) && TripsAgree(trips, events) && AcksAgree(acks, histories, events)
    ensures SendsAgree(sendSeqs - {peer}, events - {peer})
    ensures TripsAgree(trips - {peer}, events - {peer})
    ensures AcksAgree(acks - {peer}, histories - {peer}, events - {peer})
  {
    hide Blank;
    forall other: int
      ensures var link := RoundTrips.Run(Get(events - {peer}, other, []));
              && Get(sendSeqs - {peer}, other, 0) == link.lastSeq
              && Get(trips - {peer}, other, Blank()) == link.trip
              && HoldsAck(acks - {peer}, histories - {peer}, link, other)
    {
      LinkAt(sendSeqs, trips, acks, histories, events, other);
    }
  }

  lemma StepPositive(a: nat, b: nat)
    requires IsFresher(a, b) && a < SEQ_COUNT && b < SEQ_COUNT
    ensures Distance(a, b) > 0
  {
  }

  class DatagramSeqBook {
    var sendSeqs: map<int, nat>
    var roundTrips: map<int, Trip>
    var inboundFreshest: map<int, nat>
    var inboundHistory: map<int, nat>
    var peerAcks: map<int, nat>
    var peerAckHistories: map<int, nat>
    var lastEchoed: map<int, nat>
    var reorders: map<int, nat>
    var duplicates: map<int, nat>

    /** The serials heard from each peer, and its sends and peer acks, since it was last forgotten. */
    ghost var heard: map<int, seq<nat>>
    ghost var events: map<int, seq<Event>>

    /** Every book holds what the logs say it should, for every peer. */
    ghost predicate Valid()
      reads this
    {
      && InboundAgrees(inboundFreshest, inboundHistory, heard)
      && CountsAgree(reorders, heard, Reordered)
      && CountsAgree(duplicates, heard, Duplicate)
      && SendsAgree(sendSeqs, events)
      && TripsAgree(roundTrips, events)
      && AcksAgree(peerAcks, peerAckHistories, events)
    }

    constructor ()
      ensures Valid() && heard == map[] && events == map[] && lastEchoed == map[]
    {
      sendSeqs, roundTrips, inboundFreshest, inboundHistory := map[], map[], map[], map[];
      peerAcks, peerAckHistories, lastEchoed, reorders, duplicates := map[], map[], map[], map[], map[];
      heard, events := map[], map[];
    }

    /** After any calls, a peer's estimate is the closed form of its samples alone. */
    lemma EstimatesAreTheSamples(peer: int)
      requires Valid()
      ensures Estimates(Get(roundTrips, peer, Blank()), Values(RoundTrips.Run(Get(events, peer, [])).samples))
    {
      hide InboundAgrees, CountsAgree, SendsAgree, TripsAgree, AcksAgree, Estimates, RoundTrips.Run, Blank;
      TripsEstimate(roundTrips, events);
    }

    /** The next number to `peer`: the count of its sends, wrapped. */
    method NextSendSeq(peer: int, now: nat) returns (next: nat)
      requires Valid()
      modifies `sendSeqs, `roundTrips, `events
      ensures Valid()
      ensures events == Logged(old(events), peer, Send(now))
      ensures next == Seq(|RoundTrips.Run(Get(old(events), peer, [])).sends| + 1)
    {
      hide RoundTrips.Run, InboundAgrees, CountsAgree, SendsAgree, TripsAgree, AcksAgree, Logged, Seq, Stamped, Blank;
      LinkAt(sendSeqs, roundTrips, peerAcks, peerAckHistories, events, peer);
      CountsSends(Get(events, peer, []), now);
      next := Seq((if peer in sendSeqs then sendSeqs[peer] else 0) + 1);
      var trip := if peer in roundTrips then roundTrips[peer] else Blank();
      SendsKeep(sendSeqs, sendSeqs[peer := next], events, peer, Send(now));
      TripsKeep(roundTrips, roundTrips[peer := Stamped(trip, next, now)], events, peer, Send(now));
      AcksKeep(peerAcks, peerAckHistories, peerAcks, peerAckHistories, events, peer, Send(now));
      sendSeqs := sendSeqs[peer := next];
      roundTrips := roundTrips[peer := Stamped(trip, next, now)];
      events := Logged(events, peer, Send(now));
    }

    /** Whether the arrival is above everything heard from `peer`; the counters note the others. */
    method NoteInbound(peer: int, serial: nat) returns (newest: bool)
      requires Valid() && serial < SEQ_COUNT
      modifies `inboundFreshest, `inboundHistory, `duplicates, `reorders, `heard
      ensures Valid()
      ensures heard == Logged(old(heard), peer, serial)
      ensures newest == (Judge(AckHistory.Run(Get(old(heard), peer, [])), serial) == Fresh)
    {
      hide AckHistory.Run, InboundAgrees, CountsAgree, SendsAgree, TripsAgree, AcksAgree;
      hide IsFresher, Distance, Bit, Or, Shl, Pow2, Logged;
      InboundKeeps(inboundFreshest, inboundHistory, heard, peer, serial);
      CountsKeep(reorders, heard, Reordered, peer, serial);
      CountsKeep(duplicates, heard, Duplicate, peer, serial);
      assert Seq(serial) == serial;
      heard := Logged(heard, peer, serial);
      if peer !in inboundFreshest {
        inboundFreshest := inboundFreshest[peer := serial];
        inboundHistory := inboundHistory[peer := 0];
        return true;
      }
      var freshest := inboundFreshest[peer];
      var history := if peer in inboundHistory then inboundHistory[peer] else 0;
      assert inboundFreshest == inboundFreshest[peer := freshest] && inboundHistory == inboundHistory[peer := history];
      if IsFresher(serial, freshest) {
        StepPositive(serial, freshest);
        var step := Distance(serial, freshest);
        history := if step >= 32 then 0 else Or(Shl(history, step, 32), Pow2(step - 1));
        inboundFreshest := inboundFreshest[peer := serial];
        inboundHistory := inboundHistory[peer := history];
        return true;
      }
      var back := Distance(freshest, serial);
      if back == 0 {
        duplicates := duplicates[peer := (if peer in duplicates then duplicates[peer] else 0) + 1];
        return false;
      }
      if 1 <= back <= 32 {
        if Bit(history, back - 1) {
          duplicates := duplicates[peer := (if peer in duplicates then duplicates[peer] else 0) + 1];
        } else {
          reorders := reorders[peer := (if peer in reorders then reorders[peer] else 0) + 1];
          inboundHistory := inboundHistory[peer := Or(history, Pow2(back - 1))];
        }
      }
      return false;
    }

    /**
     Whether the ack advances on the last one accepted from `peer`. An accepted ack replaces the one
     kept, and takes a sample when its send still awaits one.
     */
    method NotePeerAck(peer: int, ack: nat, history: nat, now: nat) returns (accepted: bool)
      requires Valid() && ack < SEQ_COUNT
      modifies `peerAcks, `peerAckHistories, `roundTrips, `events
      ensures Valid()
      ensures events == Logged(old(events), peer, PeerAck(ack, history, now))
      ensures accepted == Accepts(RoundTrips.Run(Get(old(events), peer, [])), ack)
      ensures EstimatesAgree(roundTrips, events)
    {
      hide RoundTrips.Run, InboundAgrees, CountsAgree, SendsAgree, TripsAgree, AcksAgree, Logged, Seq, Blank, Yields,
          Acked, EstimatesAgree;
      SmallSeq(ack);
      ghost var event := PeerAck(ack, history, now);
      LinkAt(sendSeqs, roundTrips, peerAcks, peerAckHistories, events, peer);
      ghost var link := RoundTrips.Run(Get(events, peer, []));
      SendsKeep(sendSeqs, sendSeqs, events, peer, event);
      if peer in peerAcks && !IsFresher(ack, peerAcks[peer]) {
        TripsKeep(roundTrips, roundTrips, events, peer, event);
        AcksKeep(peerAcks, peerAckHistories, peerAcks, peerAckHistories, events, peer, event);
        events := Logged(events, peer, event);
        TripsEstimate(roundTrips, events);
        return false;
      }
      AcksKeep(peerAcks, peerAckHistories, peerAcks[peer := ack], peerAckHistories[peer := history], events, peer,
               event);
      peerAcks := peerAcks[peer := ack];
      peerAckHistories := peerAckHistories[peer := history];
      if peer !in roundTrips || !Yields(roundTrips[peer], ack, now) {
        NoSample(link.trip, ack, now, peer in roundTrips);
        TripsKeep(roundTrips, roundTrips, events, peer, event);
        events := Logged(events, peer, event);
        TripsEstimate(roundTrips, events);
        return true;
      }
      var trip := TakeSample(roundTrips[peer], ack, now);
      TripsKeep(roundTrips, roundTrips[peer := trip], events, peer, event);
      roundTrips := roundTrips[peer := trip];
      events := Logged(events, peer, event);
      TripsEstimate(roundTrips, events);
      return true;
    }

    /** One sample into the estimate; the deviation is taken before the smoothed value moves. */
    static method TakeSample(before: Trip, ack: nat, now: nat) returns (trip: Trip)
      requires Sized(before) && Yields(before, ack, now)
      ensures trip == Acked(before, ack, now)
    {
      var slot := SlotOf(ack);
      trip := before.(stamped := before.stamped[slot := false]);
      var sample := (now - trip.sentUsec[slot]) as real / 1000.0;
      if !trip.measured {
        trip := trip.(smoothed := sample, jitter := sample / 2.0, measured := true);
      } else {
        var deviation := if sample > trip.smoothed then sample - trip.smoothed else trip.smoothed - sample;
        trip := trip.(jitter := trip.jitter + (deviation - trip.jitter) / 4.0);
        trip := trip.(smoothed := trip.smoothed + (sample - trip.smoothed) / 8.0);
      }
    }

    method NoteEchoed(peer: int, serial: nat)
      requires Valid()
      modifies `lastEchoed
      ensures Valid() && lastEchoed == old(lastEchoed)[peer := serial]
    {
      lastEchoed := lastEchoed[peer := serial];
    }

    /** Every peer heard from whose freshest number was not the last one echoed, each once. */
    method PeersOwedEcho() returns (owed: seq<int>)
      requires Valid()
      ensures forall peer :: peer in owed <==>
                var inbound := AckHistory.Run(Get(heard, peer, []));
                inbound.Some? && Find(lastEchoed, peer) != Some(inbound.value.freshest)
      ensures forall i, j :: 0 <= i < j < |owed| ==> owed[i] != owed[j]
    {
      hide AckHistory.Run, CountsAgree, SendsAgree, TripsAgree, AcksAgree;
      owed := [];
      var rest := inboundFreshest.Keys;
      while rest != {}
        invariant rest <= inboundFreshest.Keys
        invariant forall peer :: peer in owed <==>
                    peer in inboundFreshest && peer !in rest && Find(lastEchoed, peer) != Some(inboundFreshest[peer])
        invariant forall i, j :: 0 <= i < j < |owed| ==> owed[i] != owed[j]
        decreases rest
      {
        var peer := Pick(rest);
        rest := rest - {peer};
        if peer in lastEchoed && lastEchoed[peer] == inboundFreshest[peer] {
        } else {
          owed := owed + [peer];
        }
      }
    }

    /** The peer starts over; every other peer's logs are kept. */
    method ForgetPeer(peer: int)
      requires Valid()
      modifies this
      ensures Valid()
      ensures heard == old(heard) - {peer} && events == old(events) - {peer} && lastEchoed == old(lastEchoed) - {peer}
    {
      hide InboundAgrees, CountsAgree, SendsAgree, TripsAgree, AcksAgree;
      ForgottenInbound(inboundFreshest, inboundHistory, heard, peer);
      ForgottenCounts(reorders, heard, Reordered, peer);
      ForgottenCounts(duplicates, heard, Duplicate, peer);
      ForgottenLink(sendSeqs, roundTrips, peerAcks, peerAckHistories, events, peer);
      sendSeqs, roundTrips, inboundFreshest := sendSeqs - {peer}, roundTrips - {peer}, inboundFreshest - {peer};
      inboundHistory, peerAcks, peerAckHistories := inboundHistory - {peer}, peerAcks - {peer},
          peerAckHistories - {peer};
      lastEchoed, reorders, duplicates := lastEchoed - {peer}, reorders - {peer}, duplicates - {peer};
      heard, events := heard - {peer}, events - {peer};
    }
  }
}
