/**
 The send stamps and round-trip estimator kept for one peer, on values, and what a whole run of sends
 and peer acks makes of them. Times are in microseconds, the estimate in milliseconds over the reals.
 */
module RoundTrips {
  import opened Wrappers
  import opened AckHistory
  import opened Reals

  const SENT_WINDOW := 256

  datatype Trip = Trip(seqs: seq<nat>, sentUsec: seq<nat>, stamped: seq<bool>, smoothed: real, jitter: real,
                       measured: bool)

  function Blank(): (trip: Trip)
    ensures Sized(trip) && forall slot :: 0 <= slot < SENT_WINDOW ==> !trip.stamped[slot]
  {
    Trip(seq(SENT_WINDOW, i => 0), seq(SENT_WINDOW, i => 0), seq(SENT_WINDOW, i => false), 0.0, 0.0, false)
  }

  predicate Sized(trip: Trip) {
    |trip.seqs| == |trip.sentUsec| == |trip.stamped| == SENT_WINDOW
  }

  function SlotOf(number: nat): (slot: nat)
    ensures slot < SENT_WINDOW
  {
    number % SENT_WINDOW
  }

  function Stamped(trip: Trip, number: nat, now: nat): Trip
    requires Sized(trip)
  {
    var slot := SlotOf(number);
    trip.(seqs := trip.seqs[slot := number], sentUsec := trip.sentUsec[slot := now],
          stamped := trip.stamped[slot := true])
  }

  /** Whether an accepted ack yields a sample. */
  predicate Yields(trip: Trip, ack: nat, now: nat)
    requires Sized(trip)
  {
    var slot := SlotOf(ack);
    trip.stamped[slot] && trip.seqs[slot] == ack && now >= trip.sentUsec[slot]
  }

  function SampleMs(trip: Trip, ack: nat, now: nat): real
    requires Sized(trip)
  {
    (now - trip.sentUsec[SlotOf(ack)]) as real / 1000.0
  }

  /** The estimate after one more sample: the deviation is taken from the old smoothed value. */
  function Smoothed(trip: Trip, sample: real): Trip {
    if !trip.measured then trip.(smoothed := sample, jitter := sample / 2.0, measured := true)
    else
      var deviation := Abs(sample - trip.smoothed);
      trip.(jitter := trip.jitter + (deviation - trip.jitter) / 4.0,
            smoothed := trip.smoothed + (sample - trip.smoothed) / 8.0)
  }

  function Acked(trip: Trip, ack: nat, now: nat): Trip
    requires Sized(trip)
  {
    if Yields(trip, ack, now)
    then Smoothed(trip.(stamped := trip.stamped[SlotOf(ack) := false]), SampleMs(trip, ack, now))
    else trip
  }

  // ----- a run with one peer -----

  /** A sample: which send it measured, the ack that named it, when, and its value. */
  datatype Sample = Sample(send: nat, ack: nat, at: nat, ms: real)

  /**
   The books for one peer with their history: the stamp of every send so far, send `n` (from 1) being
   number `n`, the unbounded numbers of the accepted acks, and every sample taken.
   */
  datatype Link = Link(lastSeq: nat, trip: Trip, peerAck: Option<nat>, peerHistory: nat, sends: seq<nat>,
                       accepted: seq<nat>, samples: seq<Sample>)

  function Opened(): Link { Link(0, Blank(), None, 0, [], [], []) }

  datatype Event = Send(now: nat) | PeerAck(number: nat, history: nat, now: nat)

  predicate Accepts(link: Link, ack: nat) {
    link.peerAck == None || IsFresher(ack, link.peerAck.value)
  }

  /** The latest send that carried this 16-bit number, or 0. */
  function LatestSend(sends: seq<nat>, ack: nat): (n: nat)
    ensures n <= |sends|
  {
    if sends == [] then 0
    else if Seq(|sends|) == ack then |sends|
    else LatestSend(sends[..|sends| - 1], ack)
  }

  function Next(link: Link, event: Event): Link
    requires Sized(link.trip)
  {
    match event
    case Send(now) =>
      var number := Seq(link.lastSeq + 1);
      link.(lastSeq := number, trip := Stamped(link.trip, number, now), sends := link.sends + [now])
    case PeerAck(u, history, now) =>
      var ack := Seq(u);
      if !Accepts(link, ack) then link
      else
        link.(peerAck := Some(ack), peerHistory := history, accepted := link.accepted + [u],
              trip := Acked(link.trip, ack, now),
              samples := if Yields(link.trip, ack, now)
                         then link.samples +
                             [Sample(LatestSend(link.sends, ack), ack, now, SampleMs(link.trip, ack, now))]
                         else link.samples)
  }

  function Run(events: seq<Event>): (link: Link)
    ensures Sized(link.trip)
  {
    if events == [] then Opened() else Next(Run(events[..|events| - 1]), events[|events| - 1])
  }

  /** The latest send filed under slot `slot`, or 0. */
  function LatestInSlot(sends: seq<nat>, slot: nat): (n: nat)
    ensures n <= |sends| && (n > 0 ==> SlotOf(n) == slot)
    ensures forall m :: n < m <= |sends| ==> SlotOf(m) != slot
  {
    if sends == [] then 0
    else if SlotOf(|sends|) == slot then |sends|
    else LatestInSlot(sends[..|sends| - 1], slot)
  }

  ghost predicate Sampled(samples: seq<Sample>, n: nat) {
    exists i :: 0 <= i < |samples| && samples[i].send == n
  }

  /** Slot `slot` holds send `n`, the latest filed there, and its stamp says whether it awaits a sample. */
  ghost predicate Holds(link: Link, slot: nat, n: nat)
    requires Sized(link.trip) && slot < SENT_WINDOW && n <= |link.sends|
  {
    && (link.trip.stamped[slot] <==> n > 0 && !Sampled(link.samples, n))
    && (n > 0 ==> link.trip.seqs[slot] == Seq(n) && link.trip.sentUsec[slot] == link.sends[n - 1])
  }

  ghost predicate SlotOk(link: Link, slot: nat)
    requires Sized(link.trip) && slot < SENT_WINDOW
  {
    Holds(link, slot, LatestInSlot(link.sends, slot))
  }

  /** What a sample is: the time from the latest send of the acked number to the ack. */
  ghost predicate SampleOk(sends: seq<nat>, sample: Sample) {
    && 1 <= sample.send <= |sends|
    && Seq(sample.send) == sample.ack
    && sends[sample.send - 1] <= sample.at
    && sample.ms == (sample.at - sends[sample.send - 1]) as real / 1000.0
  }

  ghost predicate LinkOk(link: Link) {
    && Sized(link.trip)
    && link.lastSeq == Seq(|link.sends|)
    && (forall slot :: 0 <= slot < SENT_WINDOW ==> SlotOk(link, slot))
    && (forall i :: 0 <= i < |link.samples| ==> SampleOk(link.sends, link.samples[i]))
    && (forall i, j :: 0 <= i < j < |link.samples| ==> link.samples[i].send != link.samples[j].send)
  }

  lemma SlotOfSeq(n: nat)
    ensures SlotOf(Seq(n)) == SlotOf(n)
  {
  }

  /** In its slot, the latest send of a number is the latest send of all, when the slot names that number. */
  lemma {:induction false} LatestAgree(sends: seq<nat>, slot: nat)
    requires slot < SENT_WINDOW && LatestInSlot(sends, slot) > 0
    ensures LatestSend(sends, Seq(LatestInSlot(sends, slot))) == LatestInSlot(sends, slot)
  {
    var n := LatestInSlot(sends, slot);
    if n < |sends| {
      SlotOfSeq(|sends|);
      SlotOfSeq(n);
      assert Seq(|sends|) != Seq(n);
      LatestAgree(sends[..|sends| - 1], slot);
    }
  }

  lemma LatestInSlotAppend(sends: seq<nat>, now: nat, slot: nat)
    requires slot < SENT_WINDOW
    ensures LatestInSlot(sends + [now], slot)
         == (if SlotOf(|sends| + 1) == slot then |sends| + 1 else LatestInSlot(sends, slot))
  {
    assert (sends + [now])[..|sends|] == sends;
  }

  lemma SeqNext(n: nat)
    ensures Seq(Seq(n) + 1) == Seq(n + 1)
  {
    assert n == SEQ_COUNT * (n / SEQ_COUNT) + Seq(n);
    assert (Seq(n) + 1 - (n + 1)) % SEQ_COUNT == 0;
  }

  lemma SendNumber(link: Link, now: nat)
    requires LinkOk(link)
    ensures var after, n := Next(link, Send(now)), |link.sends| + 1;
            after.lastSeq == Seq(n) && SlotOf(after.lastSeq) == SlotOf(n)
  {
    hide SlotOk, SampleOk, Seq, SlotOf;
    SeqNext(|link.sends|);
    SlotOfSeq(|link.sends| + 1);
  }

  /** A send leaves each slot holding the latest send of its own. */
  lemma SendSlot(link: Link, now: nat, slot: nat)
    requires LinkOk(link) && slot < SENT_WINDOW
    ensures SlotOk(Next(link, Send(now)), slot)
  {
    hide LatestInSlot, SlotOf, Seq;
    SendNumber(link, now);
    assert SlotOk(link, slot);
    LatestInSlotAppend(link.sends, now, slot);
  }

  lemma SendKeeps(link: Link, now: nat)
    requires LinkOk(link)
    ensures LinkOk(Next(link, Send(now)))
  {
    hide SlotOk;
    var after := Next(link, Send(now));
    assert forall i :: 0 <= i < |link.samples| ==> SampleOk(link.sends, link.samples[i]);
    forall slot | 0 <= slot < SENT_WINDOW
      ensures SlotOk(after, slot)
    {
      SendSlot(link, now, slot);
    }
  }

  lemma SampledAppend(samples: seq<Sample>, sample: Sample, n: nat)
    ensures Sampled(samples + [sample], n) <==> Sampled(samples, n) || sample.send == n
  {
    var all := samples + [sample];
    if Sampled(samples, n) {
      var i :| 0 <= i < |samples| && samples[i].send == n;
      assert all[i].send == n;
    }
    if sample.send == n {
      assert all[|samples|].send == n;
    }
  }

  lemma {:induction false} AckKeeps(link: Link, u: nat, history: nat, now: nat)
    requires LinkOk(link)
    ensures LinkOk(Next(link, PeerAck(u, history, now)))
  {
    var after, ack := Next(link, PeerAck(u, history, now)), Seq(u);
    if Accepts(link, ack) && Yields(link.trip, ack, now) {
      var slot := SlotOf(ack);
      assert SlotOk(link, slot);
      LatestAgree(link.sends, slot);
      forall other | 0 <= other < SENT_WINDOW
        ensures SlotOk(after, other)
      {
        assert SlotOk(link, other);
        SampledAppend(link.samples, after.samples[|link.samples|], LatestInSlot(link.sends, other));
      }
    } else {
      forall other | 0 <= other < SENT_WINDOW
        ensures SlotOk(after, other)
      {
        assert SlotOk(link, other);
      }
    }
  }

  /**
   Each send is sampled at most once, and every sample is the time from the latest send of the number
   the ack named to that ack.
   */
  lemma {:induction false} SamplesAreRight(events: seq<Event>)
    ensures LinkOk(Run(events))
  {
    if events == [] {
    } else {
      var early, event := events[..|events| - 1], events[|events| - 1];
      SamplesAreRight(early);
      match event
      case Send(now) => SendKeeps(Run(early), now);
      case PeerAck(u, history, now) => AckKeeps(Run(early), u, history, now);
    }
  }

  /**
   When an accepted ack is sampled: it names the latest send of its slot, that send has not been
   sampled, and the clock has not gone back since.
   */
  lemma SampledIff(events: seq<Event>, ack: nat, now: nat)
    requires ack < SEQ_COUNT
    ensures var link, n := Run(events), LatestInSlot(Run(events).sends, SlotOf(ack));
            Yields(link.trip, ack, now) ==
              (n > 0 && Seq(n) == ack && !Sampled(link.samples, n) && link.sends[n - 1] <= now)
  {
    hide Run, LatestInSlot;
    SamplesAreRight(events);
    assert SlotOk(Run(events), SlotOf(ack));
    SlotOfSeq(LatestInSlot(Run(events).sends, SlotOf(ack)));
  }

  /** Said of the sends: the ack names one of the newest 256, not sampled yet and not later than now. */
  lemma SampledIffRecent(events: seq<Event>, ack: nat, now: nat)
    requires ack < SEQ_COUNT
    ensures var link := Run(events);
            Yields(link.trip, ack, now) <==>
              exists n :: 1 <= n <= |link.sends| < n + 256 && Seq(n) == ack && !Sampled(link.samples, n)
                          && link.sends[n - 1] <= now
  {
    hide Run, LatestInSlot, Sampled;
    var link := Run(events);
    var n := LatestInSlot(link.sends, SlotOf(ack));
    SampledIff(events, ack, now);
    if n > 0 && Seq(n) == ack && n + 256 <= |link.sends| {
      assert SlotOf(n + 256) == SlotOf(n);
    }
    forall m | 1 <= m <= |link.sends| < m + 256 && Seq(m) == ack
      ensures m == n
    {
      SlotOfSeq(m);
    }
  }

  // ----- accepted acks -----

  ghost predicate NearLast(accepted: seq<nat>, number: nat) {
    accepted != [] ==> -32768 < number - accepted[|accepted| - 1] < 32768
  }

  /** Each ack is within 32767 of the last one accepted before it. */
  ghost predicate AcksNear(events: seq<Event>) {
    forall i :: 0 <= i < |events| && events[i].PeerAck? ==> NearLast(Run(events[..i]).accepted, events[i].number)
  }

  ghost predicate Increasing(numbers: seq<nat>) {
    forall i, j :: 0 <= i < j < |numbers| ==> numbers[i] < numbers[j]
  }

  /** The acks that are above every ack before them. */
  function Records(events: seq<Event>): seq<nat> {
    if events == [] then []
    else
      var early, event := Records(events[..|events| - 1]), events[|events| - 1];
      if event.PeerAck? && (early == [] || event.number > early[|early| - 1]) then early + [event.number] else early
  }

  lemma AcksNearBefore(events: seq<Event>)
    requires events != [] && AcksNear(events)
    ensures AcksNear(events[..|events| - 1])
  {
    hide Run, NearLast;
    var early := events[..|events| - 1];
    forall i | 0 <= i < |early| && early[i].PeerAck?
      ensures NearLast(Run(early[..i]).accepted, early[i].number)
    {
      assert early[..i] == events[..i];
      assert events[i].PeerAck?;
    }
  }

  lemma RecordsLast(events: seq<Event>)
    requires events != []
    ensures var early, event := Records(events[..|events| - 1]), events[|events| - 1];
            Records(events) == if event.PeerAck? && (early == [] || event.number > early[|early| - 1])
                               then early + [event.number] else early
  {
  }

  ghost predicate KeepsLast(link: Link) {
    link.peerAck == (if link.accepted == [] then None else Some(Seq(link.accepted[|link.accepted| - 1])))
  }

  lemma AcceptedStep(link: Link, event: Event)
    requires Sized(link.trip) && KeepsLast(link) && Increasing(link.accepted)
    requires event.PeerAck? ==> NearLast(link.accepted, event.number)
    ensures var after := Next(link, event);
            && KeepsLast(after) && Increasing(after.accepted)
            && after.accepted ==
               (if event.PeerAck? && (link.accepted == [] || event.number > link.accepted[|link.accepted| - 1])
                                  then link.accepted + [event.number] else link.accepted)
  {
    hide Seq, IsFresher, Stamped, Acked, Yields, SampleMs;
    if event.PeerAck? && link.accepted != [] {
      WrappedOrder(event.number, link.accepted[|link.accepted| - 1]);
    }
  }

  /** The accepted acks are exactly the ones that advance, and the last of them is the one kept. */
  lemma {:induction false} AcceptedAcksAdvance(events: seq<Event>)
    requires AcksNear(events)
    ensures var link := Run(events);
            link.accepted == Records(events) && Increasing(link.accepted) && KeepsLast(link)
  {
    if events == [] {
    } else {
      hide Next, KeepsLast, Increasing, Records;
      var early, event := events[..|events| - 1], events[|events| - 1];
      AcksNearBefore(events);
      AcceptedAcksAdvance(early);
      assert event.PeerAck? ==> NearLast(Run(early).accepted, event.number) by {
        assert events[|events| - 1].PeerAck? ==> NearLast(Run(events[..|events| - 1]).accepted, event.number);
      }
      AcceptedStep(Run(early), event);
      RecordsLast(events);
    }
  }

  // ----- the estimate -----

  /** Every sample lies in `[low, high]`. */
  ghost predicate Within(samples: seq<Sample>, low: real, high: real) {
    forall i :: 0 <= i < |samples| ==> low <= samples[i].ms <= high
  }

  /** The estimate stays between the samples, and its jitter within half the first or their spread. */
  ghost predicate Bounded(trip: Trip, first: real, low: real, high: real) {
    && low <= trip.smoothed <= high
    && 0.0 <= trip.jitter
    && (trip.jitter <= first / 2.0 || trip.jitter <= high - low)
  }

  lemma SmoothedStays(trip: Trip, sample: real, first: real, low: real, high: real)
    requires trip.measured && Bounded(trip, first, low, high) && low <= sample <= high
    ensures Bounded(Smoothed(trip, sample), first, low, high)
  {
    var deviation := Abs(sample - trip.smoothed);
    assert 0.0 <= deviation <= high - low;
  }

  /**
   For any bounds on the samples taken so far, the smoothed value lies within them and the jitter
   within the greater of half the first sample and their distance.
   */
  lemma {:induction false} EstimateIsBounded(events: seq<Event>, low: real, high: real)
    requires Within(Run(events).samples, low, high)
    ensures var link := Run(events);
            && link.trip.measured == (link.samples != [])
            && (link.samples != [] ==> Bounded(link.trip, link.samples[0].ms, low, high))
  {
    if events != [] {
      var early, event := events[..|events| - 1], events[|events| - 1];
      var before, link := Run(early), Run(events);
      assert Within(before.samples, low, high) by {
        forall i | 0 <= i < |before.samples| ensures low <= before.samples[i].ms <= high {
          assert link.samples[i] == before.samples[i];
        }
      }
      EstimateIsBounded(early, low, high);
      if event.PeerAck? && Accepts(before, Seq(event.number)) && Yields(before.trip, Seq(event.number), event.now) {
        var sample := link.samples[|link.samples| - 1];
        assert low <= sample.ms <= high && sample.ms >= 0.0;
        if before.samples != [] {
          var cleared := before.trip.(stamped := before.trip.stamped[SlotOf(Seq(event.number)) := false]);
          SmoothedStays(cleared, sample.ms, before.samples[0].ms, low, high);
        }
      }
    }
  }

  // ----- the estimate, from the samples alone -----

  /** The values in order, weighted `gain` for the last and by `1 - gain` less for each before it. */
  function Fading(gain: real, values: seq<real>): real {
    if values == [] then 0.0
    else gain * Power(1.0 - gain, |values| - 1) * values[0] + Fading(gain, values[1..])
  }

  /** An estimate that starts at `first` and moves by `gain` of its distance towards each later value, added up. */
  function Estimate(gain: real, first: real, later: seq<real>): real {
    Power(1.0 - gain, |later|) * first + Fading(gain, later)
  }

  lemma {:induction false} FadingAppend(gain: real, values: seq<real>, last: real)
    ensures Fading(gain, values + [last]) == (1.0 - gain) * Fading(gain, values) + gain * last
  {
    if values == [] {
    } else {
      assert (values + [last])[1..] == values[1..] + [last];
      FadingAppend(gain, values[1..], last);
      FadesOnce(gain, Power(1.0 - gain, |values| - 1), values[0]);
    }
  }

  lemma FadesOnce(gain: real, weight: real, value: real)
    ensures gain * ((1.0 - gain) * weight) * value == (1.0 - gain) * (gain * weight * value)
  {
  }

  lemma EstimateMoves(gain: real, first: real, later: seq<real>, last: real)
    ensures var before := Estimate(gain, first, later);
            Estimate(gain, first, later + [last]) == before + gain * (last - before)
  {
    hide Fading;
    FadingAppend(gain, later, last);
    var weight := Power(1.0 - gain, |later|);
    assert (1.0 - gain) * weight * first == weight * first - gain * (weight * first);
  }

  function Values(samples: seq<Sample>): (values: seq<real>)
    ensures |values| == |samples|
  {
    seq(|samples|, i requires 0 <= i < |samples| => samples[i].ms)
  }

  /** How far value `i`, not the first, is from the estimate of those before it. */
  function Off(values: seq<real>, i: nat): real
    requires 0 < i < |values|
  {
    Abs(values[i] - Estimate(0.125, values[0], values[1..i]))
  }

  function Offs(values: seq<real>): (offs: seq<real>)
    requires values != []
    ensures |offs| == |values| - 1
  {
    seq(|values| - 1, i requires 0 <= i < |values| - 1 => Off(values, i + 1))
  }

  /**
   The estimate is the samples': (7/8)^(n-1) of the first and 1/8 (7/8)^(n-k) of the k-th, and its jitter is the
   same with 3/4 and 1/4 over half the first sample and each later one's distance from the estimate before it:
   the gains of section 2 of RFC 6298.
   */
  ghost predicate Estimates(trip: Trip, values: seq<real>) {
    && trip.measured == (values != [])
    && (values == [] ==> trip.smoothed == trip.jitter == 0.0)
    && (values != [] ==>
          && trip.smoothed == Estimate(0.125, values[0], values[1..])
          && trip.jitter == Estimate(0.25, values[0] / 2.0, Offs(values)))
  }

  lemma OffsAppend(values: seq<real>, last: real)
    requires values != []
    ensures Offs(values + [last]) == Offs(values) + [Abs(last - Estimate(0.125, values[0], values[1..]))]
  {
    hide Off, Estimate, Abs;
    forall i | 0 < i <= |values| ensures Off(values + [last], i) == if i < |values| then Off(values, i) else
                                           Abs(last - Estimate(0.125, values[0], values[1..]))
    {
      OffOfPrefix(values, last, i);
    }
  }

  lemma OffOfPrefix(values: seq<real>, last: real, i: nat)
    requires 0 < i <= |values|
    ensures Off(values + [last], i) ==
            if i < |values| then Off(values, i) else Abs(last - Estimate(0.125, values[0], values[1..]))
  {
    hide Estimate, Abs;
    assert (values + [last])[1..i] == values[1..i];
    assert values[1..|values|] == values[1..];
  }

  lemma EstimatesNext(trip: Trip, values: seq<real>, sample: real)
    requires Estimates(trip, values)
    ensures Estimates(Smoothed(trip, sample), values + [sample])
  {
    hide Estimate, Offs;
    var all := values + [sample];
    if values == [] {
      EstimateOfOne(0.125, sample);
      EstimateOfOne(0.25, sample / 2.0);
      assert Offs(all) == [] && all[1..] == [];
    } else {
      OffsAppend(values, sample);
      assert all[1..] == values[1..] + [sample];
      EstimateMoves(0.125, values[0], values[1..], sample);
      EstimateMoves(0.25, values[0] / 2.0, Offs(values), Abs(sample - trip.smoothed));
    }
  }

  lemma EstimateOfOne(gain: real, first: real)
    ensures Estimate(gain, first, []) == first
  {
  }

  /** Over every run the estimate kept is the closed form of the samples taken. */
  lemma {:induction false} EstimateIsOfSamples(events: seq<Event>)
    ensures Estimates(Run(events).trip, Values(Run(events).samples))
  {
    if events == [] {
    } else {
      hide Run, Estimates;
      var early, event := events[..|events| - 1], events[|events| - 1];
      EstimateIsOfSamples(early);
      EstimatesStep(Run(early), event);
      RunLast(events);
    }
  }

  lemma EstimatesStep(link: Link, event: Event)
    requires Sized(link.trip) && Estimates(link.trip, Values(link.samples))
    ensures var after := Next(link, event); Estimates(after.trip, Values(after.samples))
  {
    hide Smoothed, Offs, Estimate, Seq, IsFresher, Yields, SampleMs, LatestSend;
    var after := Next(link, event);
    if after.samples != link.samples {
      var slot, sample := SlotOf(Seq(event.number)), after.samples[|link.samples|].ms;
      var cleared := link.trip.(stamped := link.trip.stamped[slot := false]);
      EstimatesNext(cleared, Values(link.samples), sample);
      assert Values(after.samples) == Values(link.samples) + [sample];
    }
  }

  lemma RunLast(events: seq<Event>)
    requires events != []
    ensures Run(events) == Next(Run(events[..|events| - 1]), events[|events| - 1])
  {
  }

  /** The events as the book sees them: acks carry wrapped numbers. */
  function Wired(event: Event): Event {
    if event.PeerAck? then event.(number := Seq(event.number)) else event
  }

  function Wire(events: seq<Event>): seq<Event> {
    seq(|events|, i requires 0 <= i < |events| => Wired(events[i]))
  }

  /** Everything kept but the accepted acks' unbounded numbers. */
  ghost predicate Alike(wired: Link, link: Link) {
    && wired == link.(accepted := wired.accepted)
    && wired.accepted == AckHistory.Wire(link.accepted)
  }

  lemma NextAlike(wired: Link, link: Link, event: Event)
    requires Sized(link.trip) && Alike(wired, link)
    ensures Alike(Next(wired, Wired(event)), Next(link, event))
  {
    hide Stamped, Acked, Yields, SampleMs, IsFresher, LatestSend;
    match event
    case Send(now) =>
    case PeerAck(u, history, now) =>
      assert AckHistory.Wire(link.accepted + [u]) == AckHistory.Wire(link.accepted) + [Seq(u)];
  }

  lemma RunAppend(early: seq<Event>, last: Event)
    ensures Run(early + [last]) == Next(Run(early), last)
  {
    assert (early + [last])[..|early|] == early;
  }

  /** A book that is only told the wrapped acks keeps the same ack, estimate and samples. */
  lemma {:induction false} WireRunsAlike(events: seq<Event>)
    ensures Alike(Run(Wire(events)), Run(events))
  {
    if events == [] {
    } else {
      hide Run, Next, Alike, Wired;
      var early, last := events[..|events| - 1], events[|events| - 1];
      assert events == early + [last];
      assert Wire(events) == Wire(early) + [Wired(last)];
      WireRunsAlike(early);
      RunAppend(early, last);
      RunAppend(Wire(early), Wired(last));
      NextAlike(Run(Wire(early)), Run(early), last);
    }
  }
}
