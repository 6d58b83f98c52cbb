/** What whole runs of frames, pongs and gates keep: the drift shrinks, no time is lost, no credit is made or lost. */
module ClockRuns {
  import opened Reals
  import opened ClockModel

  /** The clock after these frames. */
  function Frames(clock: Clock, deltas: seq<real>, hz: int): (after: Clock)
    requires Runs(clock.config)
    ensures after.config == clock.config
  {
    if deltas == [] then clock else Stepped(Frames(clock, deltas[..|deltas| - 1], hz), deltas[|deltas| - 1], hz)
  }

  lemma FramesLast(clock: Clock, deltas: seq<real>, hz: int)
    requires Runs(clock.config) && deltas != []
    ensures Frames(clock, deltas, hz) == Stepped(Frames(clock, deltas[..|deltas| - 1], hz), deltas[|deltas| - 1], hz)
  {
  }

  /** The frames' total length, in ticks. */
  function Elapsed(config: Config, deltas: seq<real>): real {
    if deltas == [] then 0.0 else Elapsed(config, deltas[..|deltas| - 1]) + Length(config, deltas[|deltas| - 1])
  }

  lemma ElapsedLast(config: Config, deltas: seq<real>)
    requires deltas != []
    ensures Elapsed(config, deltas) == Elapsed(config, deltas[..|deltas| - 1]) + Length(config, deltas[|deltas| - 1])
  {
  }

  ghost predicate NoStall(config: Config, deltas: seq<real>) {
    forall i :: 0 <= i < |deltas| ==> deltas[i] <= config.stallThreshold
  }

  predicate Stretching(clock: Clock) {
    !clock.held && clock.synchronized && clock.config.mode == Stretch
  }

  predicate Plain(clock: Clock) {
    !clock.held && !(clock.synchronized && clock.config.mode == Stretch)
  }

  lemma StepKeepsMode(clock: Clock, delta: real, hz: int)
    requires Runs(clock.config)
    ensures var after := Stepped(clock, delta, hz);
            && after.config == clock.config && after.held == clock.held && after.synchronized == clock.synchronized
            && after.gates == clock.gates
  {
    hide TickTime, StepsPerTick, TickNotices, TicksDue, Snaps, Rounded, Error;
  }

  lemma ProductMonotone(a: real, b: real, factor: real)
    requires a <= b && factor >= 0.0
    ensures factor * a <= factor * b
  {
  }

  lemma AbsProduct(a: real, b: real)
    ensures Abs(a * b) == Abs(a) * Abs(b)
  {
  }

  /** After `n` frames of `total` ticks' length the error is within `|1 - nudge|^n` of the first. */
  predicate Decays(first: Clock, after: Clock, total: real, n: nat)
    requires Runs(first.config)
  {
    && after.config == first.config
    && Stretching(after)
    && after.estimate == first.estimate + total
    && Abs(Error(after)) <= Power(Abs(1.0 - first.config.nudge), n) * Abs(Error(first))
  }

  lemma DecayStep(first: Clock, before: Clock, total: real, n: nat, delta: real, hz: int, after: real)
    requires Runs(first.config) && Decays(first, before, total, n) && delta <= first.config.stallThreshold
    requires after == total + Length(first.config, delta)
    ensures Decays(first, Stepped(before, delta, hz), after, n + 1)
  {
    hide Stepped, Snaps, Error, Power, Abs;
    StepKeepsMode(before, delta, hz);
    StretchedStepContracts(before, delta, hz);
    PowerStep(Abs(1.0 - first.config.nudge), n, Abs(Error(before)), Abs(Error(first)));
    AbsProduct(1.0 - first.config.nudge, Error(before));
    assert Abs(0.0) == 0.0;
  }

  /**
   Between pongs the estimate advances by the frames' total length and the error decays: after `n`
   frames it is at most `|1 - nudge|^n` of what it was.
   */
  lemma {:induction false} DriftShrinks(clock: Clock, deltas: seq<real>, hz: int)
    requires Runs(clock.config) && Stretching(clock) && NoStall(clock.config, deltas)
    ensures Decays(clock, Frames(clock, deltas, hz), Elapsed(clock.config, deltas), |deltas|)
  {
    if deltas == [] {
    } else {
      hide Frames, Stepped, Decays, Elapsed, Length;
      var early, delta := deltas[..|deltas| - 1], deltas[|deltas| - 1];
      DriftShrinks(clock, early, hz);
      FramesLast(clock, deltas, hz);
      ElapsedLast(clock.config, deltas);
      DecayStep(clock, Frames(clock, early, hz), Elapsed(clock.config, early), |early|, delta, hz,
                Elapsed(clock.config, deltas));
    }
  }

  lemma PowerStep(factor: real, n: nat, now: real, first: real)
    requires factor >= 0.0 && 0.0 <= now <= Power(factor, n) * first && first >= 0.0
    ensures 0.0 <= factor * now <= Power(factor, n + 1) * first
  {
    ProductMonotone(now, Power(factor, n) * first, factor);
    assert factor * (Power(factor, n) * first) == Power(factor, n + 1) * first;
  }

  /** After `n` frames the error is `(1 - nudge)^n` of the first, and still within the snap threshold. */
  predicate DecaysExactly(first: Clock, after: Clock, n: nat)
    requires Runs(first.config)
  {
    && after.config == first.config
    && Stretching(after) && after.gates <= 0
    && Error(after) == Power(1.0 - first.config.nudge, n) * Error(first)
    && Abs(Error(after)) <= first.config.panicSnap as real
  }

  lemma {:induction false} ExactStep(first: Clock, before: Clock, n: nat, delta: real, hz: int)
    requires Runs(first.config) && DecaysExactly(first, before, n) && delta <= first.config.stallThreshold
    requires 0.0 <= first.config.nudge <= 1.0
    ensures DecaysExactly(first, Stepped(before, delta, hz), n + 1)
  {
    hide Stepped, Error, Power, Judged;
    var keep := 1.0 - first.config.nudge;
    StepKeepsMode(before, delta, hz);
    StretchedStepContracts(before, delta, hz);
    JudgedKeepsError(before, delta);
    AbsProduct(keep, Error(before));
    AtMostWhole(keep, Abs(Error(before)));
    PowerNext(keep, n, Error(first));
  }

  /** An ungated clock within the snap threshold never snaps: its error is exactly `(1 - nudge)^n` of the first. */
  lemma {:induction false} DriftIsExact(clock: Clock, deltas: seq<real>, hz: int)
    requires Runs(clock.config) && Stretching(clock) && NoStall(clock.config, deltas)
    requires clock.gates <= 0 && 0.0 <= clock.config.nudge <= 1.0 && Abs(Error(clock)) <= clock.config.panicSnap as real
    ensures DecaysExactly(clock, Frames(clock, deltas, hz), |deltas|)
  {
    if deltas == [] {
    } else {
      hide Frames, Stepped, DecaysExactly, Error;
      var early, delta := deltas[..|deltas| - 1], deltas[|deltas| - 1];
      DriftIsExact(clock, early, hz);
      ExactStep(clock, Frames(clock, early, hz), |early|, delta, hz);
      FramesLast(clock, deltas, hz);
    }
  }

  lemma PowerNext(base: real, n: nat, x: real)
    ensures base * (Power(base, n) * x) == Power(base, n + 1) * x
  {
  }

  lemma AtMostWhole(keep: real, x: real)
    requires 0.0 <= keep <= 1.0 && x >= 0.0
    ensures 0.0 <= keep * x <= x
  {
  }

  lemma {:induction false} JudgedKeepsError(clock: Clock, delta: real)
    requires Runs(clock.config) && delta <= clock.config.stallThreshold && clock.gates <= 0
    ensures Snaps(Judged(clock, delta)) == (Abs(Error(clock)) > clock.config.panicSnap as real)
  {
    hide InTicks, TickTime, Length;
    InTicksAdds(clock.config, clock.accumulator, delta);
    InTicksIsRate(clock.config, delta);
    assert Error(Judged(clock, delta)) == Error(clock);
  }

  predicate Keeps(first: Clock, after: Clock, total: real)
    requires Runs(first.config)
  {
    after.config == first.config && Plain(after) && Position(after) == Position(first) + total
  }

  lemma PlainStep(first: Clock, before: Clock, total: real, delta: real, hz: int, after: real)
    requires Runs(first.config) && Keeps(first, before, total) && delta <= first.config.stallThreshold
    requires after == total + Length(first.config, delta)
    ensures Keeps(first, Stepped(before, delta, hz), after)
  {
    hide Stepped, Position;
    StepKeepsMode(before, delta, hz);
    PlainStepAddsItsLength(before, delta, hz);
  }

  /** Without drift correction the clock's time advances by exactly the frames' total length. */
  lemma {:induction false} PlainClockLosesNoTime(clock: Clock, deltas: seq<real>, hz: int)
    requires Runs(clock.config) && Plain(clock) && NoStall(clock.config, deltas)
    ensures Keeps(clock, Frames(clock, deltas, hz), Elapsed(clock.config, deltas))
  {
    if deltas == [] {
    } else {
      hide Frames, Stepped, Keeps, Elapsed, Length;
      var early, delta := deltas[..|deltas| - 1], deltas[|deltas| - 1];
      PlainClockLosesNoTime(clock, early, hz);
      FramesLast(clock, deltas, hz);
      ElapsedLast(clock.config, deltas);
      PlainStep(clock, Frames(clock, early, hz), Elapsed(clock.config, early), delta, hz,
                Elapsed(clock.config, deltas));
    }
  }

  /** A pong sets the clock's time to its target, or leaves it and sets the error to what separates them. */
  lemma PongSetsTime(clock: Clock, target: real)
    requires Runs(clock.config)
    ensures var after := Calibrated(clock, target);
            && after.synchronized
            && (!clock.synchronized || clock.config.mode == Snap ==>
                  Position(after) == target && after.tick == target.Floor)
            && (clock.synchronized && clock.config.mode == Stretch ==>
                  Error(after) == target - Position(clock) && Position(after) == Position(clock))
            && (!clock.synchronized ==> Error(after) == 0.0)
  {
    hide InTicks, TickTime;
    var left := target - target.Floor as real;
    InTicksOfTicks(clock.config, left, Calibrated(clock.(synchronized := false), target).accumulator);
    InTicksOfTicks(clock.config, left, left * TickTime(clock.config));
  }

  /** What the tick loop leaves in a non-negative accumulator: less than a tick, or all past the ceiling. */
  lemma DueLeavesRemainder(accumulator: real, step: real, ceiling: int)
    requires step > 0.0 && accumulator >= 0.0 && ceiling > 0
    ensures var due := TicksDue(accumulator, step, ceiling);
            && due <= ceiling
            && 0.0 <= accumulator - due as real * step
            && (due < ceiling ==> accumulator - due as real * step < step)
  {
    var ratio := accumulator / step;
    var whole, due := ratio.Floor, TicksDue(accumulator, step, ceiling);
    assert ratio * step == accumulator;
    assert ratio >= 0.0 by { Cancel(0.0, ratio, step); }
    assert 0 <= due <= whole;
    ProductMonotone(due as real, ratio, step);
    if due < ceiling {
      RoomLeft(accumulator, step, ratio, due);
    }
  }

  lemma RoomLeft(accumulator: real, step: real, ratio: real, due: nat)
    requires step > 0.0 && ratio * step == accumulator && ratio < due as real + 1.0
    ensures accumulator - due as real * step < step
  {
    var d := due as real;
    ProductStrict(ratio, d + 1.0, step);
    assert step * (d + 1.0) == d * step + step;
  }

  lemma ProductStrict(a: real, b: real, factor: real)
    requires a < b && factor > 0.0
    ensures factor * a < factor * b
  {
  }

  // ----- how many ticks a frame runs -----

  /** What the accumulator holds, in ticks. */
  function Owed(clock: Clock): real {
    clock.accumulator * clock.config.tickrate as real
  }

  lemma OwedTicks(config: Config, seconds: real, n: nat)
    requires Runs(config)
    ensures InTicks(seconds, config) == seconds * config.tickrate as real
    ensures (seconds - n as real * TickTime(config)) * config.tickrate as real ==
              seconds * config.tickrate as real - n as real
  {
    hide TickTime, InTicks;
    InTicksIsRate(config, seconds);
    RateOfTicks(config, n);
  }

  lemma RateOfTicks(config: Config, n: nat)
    requires Runs(config)
    ensures n as real * TickTime(config) * config.tickrate as real == n as real
  {
    assert TickTime(config) * config.tickrate as real == 1.0;
    assert n as real * TickTime(config) * config.tickrate as real ==
        n as real * (TickTime(config) * config.tickrate as real);
  }

  /** The whole ticks owed are run up to a limit: fewer leave less than one, and none is run before it is owed. */
  lemma DueMeaning(config: Config, accumulator: real, limit: int)
    requires Runs(config)
    ensures var due, owed := TicksDue(accumulator, TickTime(config), limit), accumulator * config.tickrate as real;
            && (limit <= 0 ==> due == 0) && (limit > 0 ==> due <= limit)
            && (due < limit ==> owed - due as real < 1.0)
            && (due > 0 ==> owed - due as real >= 0.0)
  {
    OwedTicks(config, accumulator, 0);
    hide TickTime;
    assert accumulator / TickTime(config) == accumulator * config.tickrate as real;
  }

  /** The most ticks a frame may run: one under a gate, and otherwise what is configured. */
  ghost predicate RanWithin(clock: Clock, ran: int, left: real) {
    var limit := if clock.gates > 0 then 1 else clock.config.maxTicksPerFrame;
    && 0 <= ran && (limit <= 0 ==> ran == 0) && (limit > 0 ==> ran <= limit)
    && (ran < limit ==> left < 1.0)
    && (ran > 0 ==> left >= 0.0)
  }

  /** A frame's announcements: the loop begins, each tick is told three times with its number, the loop ends. */
  ghost predicate ToldFrame(before: seq<Notice>, after: seq<Notice>, first: int, ran: nat) {
    var n := |before|;
    && |after| == n + 3 * ran + 2 && before <= after && after[n] == BeforeLoop && after[|after| - 1] == AfterLoop
    && forall i :: 0 <= i < ran ==>
         after[n + 1 + 3 * i] == BeforeTick(first + i) && after[n + 2 + 3 * i] == OnTick(first + i)
         && after[n + 3 + 3 * i] == AfterTick(first + i)
  }

  /**
   An unheld frame runs every tick its accumulator holds, up to one under a gate and the configured number
   otherwise: with fewer run, less than a tick is left, and none is run that is not owed. Each is counted and told.
   */
  lemma FrameRunsWhatIsOwed(clock: Clock, delta: real, hz: int)
    requires Runs(clock.config) && !clock.held
    ensures var after := Stepped(clock, delta, hz);
            var ran := after.ticksRun - clock.ticksRun;
            && RanWithin(clock, ran, Owed(after))
            && ToldFrame(clock.told, after.told, after.tick - ran, ran)
  {
    hide Stepped, Ready, TickTime, TicksDue, TickNotices, ToldFrame;
    var ready := Ready(clock, delta);
    var limit := if clock.gates > 0 then 1 else clock.config.maxTicksPerFrame;
    var ran := TicksDue(ready.accumulator, TickTime(clock.config), limit);
    FrameInFull(clock, delta, hz);
    DueMeaning(clock.config, ready.accumulator, limit);
    OwedTicks(clock.config, ready.accumulator, ran);
    ToldAround(clock.told, ready.tick, ran);
  }

  lemma ToldAround(before: seq<Notice>, first: int, ran: nat)
    ensures ToldFrame(before, before + [BeforeLoop] + TickNotices(first, ran) + [AfterLoop], first, ran)
  {
    hide TickNotices;
    ToldInOrder(before + [BeforeLoop], first, ran);
  }

  /** The clock just before an unheld frame's ticks. */
  function Ready(clock: Clock, delta: real): Clock
    requires Runs(clock.config)
  {
    var start := Unstalled(clock, delta);
    Advanced(start.(told := start.told + [BeforeLoop]), delta)
  }

  lemma FrameInFull(clock: Clock, delta: real, hz: int)
    requires Runs(clock.config) && !clock.held
    ensures var ready, after := Ready(clock, delta), Stepped(clock, delta, hz);
            var limit := if clock.gates > 0 then 1 else clock.config.maxTicksPerFrame;
            var ran := TicksDue(ready.accumulator, TickTime(clock.config), limit);
            && ready.config == clock.config && ready.ticksRun == clock.ticksRun &&
               ready.told == clock.told + [BeforeLoop]
            && after.config == clock.config && after.ticksRun == clock.ticksRun + ran && after.tick == ready.tick + ran
            && after.accumulator == ready.accumulator - ran as real * TickTime(clock.config)
            && after.told == ready.told + TickNotices(ready.tick, ran) + [AfterLoop]
  {
    hide TickTime, TicksDue, Nudged, TickNotices, StepsPerTick, Length;
    var start := Unstalled(clock, delta);
    NudgeKeepsRest(start.(told := start.told + [BeforeLoop]), delta);
  }

  lemma NudgeKeepsRest(clock: Clock, delta: real)
    requires Runs(clock.config)
    ensures var after := Advanced(clock, delta);
            after == clock.(tick := after.tick, accumulator := after.accumulator, estimate := after.estimate)
  {
    hide TickTime, Snaps, Rounded, Error, Length;
  }

  lemma ToldInOrder(before: seq<Notice>, first: int, ran: nat)
    ensures var after := before + TickNotices(first, ran);
            && |after| == |before| + 3 * ran
            && forall i :: 0 <= i < ran ==>
                 after[|before| + 3 * i] == BeforeTick(first + i) && after[|before| + 1 + 3 * i] == OnTick(first + i)
                 && after[|before| + 2 + 3 * i] == AfterTick(first + i)
  {
    hide TickNotices;
    forall i | 0 <= i < ran
      ensures var after := before + TickNotices(first, ran);
              after[|before| + 3 * i] == BeforeTick(first + i) && after[|before| + 1 + 3 * i] == OnTick(first + i)
              && after[|before| + 2 + 3 * i] == AfterTick(first + i)
    {
      TicksAreToldInOrder(first, ran, i);
    }
  }

  /** A clock with less than a tick in its accumulator has its own time's whole part as its tick. */
  lemma TickIsFloor(clock: Clock)
    requires Runs(clock.config) && 0.0 <= Owed(clock) < 1.0
    ensures clock.tick == Position(clock).Floor
  {
    OwedTicks(clock.config, clock.accumulator, 0);
    hide InTicks;
  }

  /** A frame that runs fewer ticks than it may, and leaves nothing negative, ends on time. */
  lemma FrameEndsOnTime(clock: Clock, delta: real, hz: int)
    requires Runs(clock.config) && !clock.held
    ensures var after := Stepped(clock, delta, hz);
            var ran, limit := after.ticksRun - clock.ticksRun,
                if clock.gates > 0 then 1 else clock.config.maxTicksPerFrame;
            ran < limit && after.accumulator >= 0.0 ==> after.tick == Position(after).Floor
  {
    hide Stepped, Position, TickTime;
    FrameRunsWhatIsOwed(clock, delta, hz);
    StepKeepsMode(clock, delta, hz);
    var after := Stepped(clock, delta, hz);
    if after.accumulator >= 0.0 && Owed(after) < 1.0 {
      ProductMonotone(0.0, after.accumulator, after.config.tickrate as real);
      TickIsFloor(after);
    }
  }

  /** The clock is on time: less than a tick is owed, and the tick is the whole part of its time. */
  predicate OnTime(clock: Clock)
    requires Runs(clock.config)
  {
    0.0 <= Owed(clock) < 1.0 && clock.tick == Position(clock).Floor
  }

  /** Frames within what one may run: forward, no longer than the ticks allowed, and not stalled. */
  ghost predicate KeepsUp(config: Config, deltas: seq<real>) {
    forall i :: 0 <= i < |deltas| ==> Fits(config, deltas[i])
  }

  predicate Fits(config: Config, delta: real) {
    0.0 <= delta <= config.stallThreshold && delta * config.tickrate as real <= config.maxTicksPerFrame as real
  }

  lemma PlainFrameOwes(clock: Clock, delta: real, hz: int)
    requires Runs(clock.config) && Plain(clock) && clock.gates <= 0 && delta <= clock.config.stallThreshold
    ensures var after := Stepped(clock, delta, hz);
            && Owed(after) ==
               Owed(clock) + delta * clock.config.tickrate as real - (after.ticksRun - clock.ticksRun) as real
            && after.tick - clock.tick == after.ticksRun - clock.ticksRun
  {
    hide TickTime, TicksDue, TickNotices, StepsPerTick;
    var ran := TicksDue(clock.accumulator + delta, TickTime(clock.config), Ceiling(clock));
    OwedTicks(clock.config, clock.accumulator + delta, ran);
  }

  lemma PlainStepOnTime(clock: Clock, delta: real, hz: int)
    requires Runs(clock.config) && Plain(clock) && clock.gates <= 0 && OnTime(clock) && Fits(clock.config, delta)
    ensures var after := Stepped(clock, delta, hz);
            OnTime(after) && after.tick - clock.tick == after.ticksRun - clock.ticksRun
  {
    hide Stepped, Position, Owed;
    FrameRunsWhatIsOwed(clock, delta, hz);
    StepKeepsMode(clock, delta, hz);
    PlainFrameOwes(clock, delta, hz);
    ProductMonotone(0.0, delta, clock.config.tickrate as real);
    var after := Stepped(clock, delta, hz);
    NoneLeftOver(Owed(clock), delta * clock.config.tickrate as real, after.ticksRun - clock.ticksRun,
                 clock.config.maxTicksPerFrame);
    TickIsFloor(after);
  }

  lemma NoneLeftOver(owed: real, more: real, ran: int, limit: int)
    requires 0.0 <= owed < 1.0 && 0.0 <= more <= limit as real && 0 <= ran
    requires if limit <= 0 then ran == 0 else ran <= limit
    requires (ran < limit ==> owed + more - ran as real < 1.0) && (ran > 0 ==> owed + more - ran as real >= 0.0)
    ensures 0.0 <= owed + more - ran as real < 1.0
  {
  }

  /** A plain ungated clock is on time, and has run exactly as many ticks as it moved on since the first. */
  predicate RanOnTime(first: Clock, after: Clock)
    requires Runs(first.config)
  {
    && after.config == first.config && Plain(after) && after.gates <= 0 && OnTime(after)
    && after.tick - first.tick == after.ticksRun - first.ticksRun
  }

  lemma RanOnTimeStep(first: Clock, before: Clock, delta: real, hz: int)
    requires Runs(first.config) && RanOnTime(first, before) && Fits(first.config, delta)
    ensures RanOnTime(first, Stepped(before, delta, hz))
  {
    hide Stepped, OnTime, Plain, Fits;
    PlainStepOnTime(before, delta, hz);
    StaysPlain(before, delta, hz);
  }

  /** While no frame is longer than the ticks it may run, a plain ungated clock is on time after each. */
  lemma {:induction false} PlainClockIsOnTime(clock: Clock, deltas: seq<real>, hz: int)
    requires Runs(clock.config) && RanOnTime(clock, clock) && KeepsUp(clock.config, deltas)
    ensures RanOnTime(clock, Frames(clock, deltas, hz))
  {
    if deltas == [] {
    } else {
      hide Frames, Stepped, RanOnTime, KeepsUp, Fits;
      var early, delta := deltas[..|deltas| - 1], deltas[|deltas| - 1];
      KeepsUpLast(clock.config, deltas);
      PlainClockIsOnTime(clock, early, hz);
      FramesLast(clock, deltas, hz);
      RanOnTimeStep(clock, Frames(clock, early, hz), delta, hz);
    }
  }

  lemma KeepsUpLast(config: Config, deltas: seq<real>)
    requires deltas != [] && KeepsUp(config, deltas)
    ensures var n := |deltas| - 1;
            KeepsUp(config, deltas[..n]) && Fits(config, deltas[n])
  {
    hide Fits;
  }

  lemma StaysPlain(clock: Clock, delta: real, hz: int)
    requires Runs(clock.config) && Plain(clock)
    ensures var after := Stepped(clock, delta, hz);
            Plain(after) && after.config == clock.config && after.gates == clock.gates
  {
    hide Stepped;
    StepKeepsMode(clock, delta, hz);
  }

  /** The gate's part of a frame: without a gate it simulates and has no credit; under one it counts being behind. */
  lemma FrameSimulates(clock: Clock, delta: real, hz: int)
    requires Runs(clock.config)
    ensures var after := Stepped(clock, delta, hz);
            var ran := after.ticksRun - clock.ticksRun;
            var credit := (if delta > clock.config.stallThreshold then 0 else clock.credit)
                            + ran * StepsPerTick(clock.config, hz);
            && (clock.gates <= 0 ==> after.simulating && after.credit == 0 && after.behind == clock.behind)
            && (clock.gates > 0 ==>
                  && (after.simulating <==> credit > 0)
                  && after.credit == (if credit > 0 then credit - 1 else credit)
                  && after.behind == clock.behind + if Owed(after) >= 1.0 then 1 else 0)
  {
    hide TickTime, TicksDue, TickNotices, StepsPerTick, Nudged, Length;
    var start := Unstalled(clock, delta);
    var after := Stepped(clock, delta, hz);
    TickOwed(clock.config, after.accumulator);
    if clock.held {
      TickOwed(clock.config, 0.0);
    } else {
      NudgeKeepsRest(start.(told := start.told + [BeforeLoop]), delta);
    }
  }

  lemma TickOwed(config: Config, seconds: real)
    requires Runs(config)
    ensures seconds >= TickTime(config) <==> seconds * config.tickrate as real >= 1.0
  {
    var step, rate := TickTime(config), config.tickrate as real;
    assert step * rate == 1.0;
    assert (seconds - step) * rate == seconds * rate - 1.0;
    if seconds >= step {
      ProductMonotone(0.0, seconds - step, rate);
    } else {
      ProductStrict(seconds - step, 0.0, rate);
    }
  }

  /**
   Drift correction in full: the error, with what a stall drops added, is left out by the nudge's part, or whole
   when it exceeds the snap threshold or a gated clock owes more ticks than a frame may run; a clock that snaps
   counts its ticks from the one nearest to the estimate.
   */
  lemma FrameCorrects(clock: Clock, delta: real, hz: int)
    requires Runs(clock.config) && !clock.held && clock.synchronized && clock.config.mode == Stretch
    ensures var after, length := Stepped(clock, delta, hz), delta * clock.config.tickrate as real;
            var dropped := if delta > clock.config.stallThreshold then Owed(clock) else 0.0;
            var error := clock.estimate - Position(clock) + dropped;
            var snaps := || error > clock.config.panicSnap as real || -error > clock.config.panicSnap as real
                         || (clock.gates > 0
                             && Owed(clock) - dropped + length > clock.config.maxTicksPerFrame as real);
            && after.estimate == clock.estimate + length
            && after.estimate - Position(after) == (if snaps then 0.0 else (1.0 - clock.config.nudge) * error)
            && (snaps ==> -0.5 <= after.estimate - (after.tick - (after.ticksRun - clock.ticksRun)) as real <= 0.5)
  {
    hide Stepped, Advanced, Position, Snaps, Nudged, Judged, TickTime, TicksDue;
    StretchedStepContracts(clock, delta, hz);
    FrameInFull(clock, delta, hz);
    JudgedIsAdvanced(clock, delta);
    SnapMeaning(clock, delta);
  }

  lemma SnapMeaning(clock: Clock, delta: real)
    requires Runs(clock.config)
    ensures Dropped(clock, delta) == if delta > clock.config.stallThreshold then Owed(clock) else 0.0
    ensures var judged, dropped := Judged(clock, delta), Dropped(clock, delta);
            && judged.config == clock.config &&
               judged.estimate == clock.estimate + delta * clock.config.tickrate as real
            && (Snaps(judged) <==>
                  || Error(clock) + dropped > clock.config.panicSnap as real
                  || -(Error(clock) + dropped) > clock.config.panicSnap as real
                  || (clock.gates > 0 && Owed(clock) - dropped + delta * clock.config.tickrate as real
                                           > clock.config.maxTicksPerFrame as real))
            && (Snaps(judged) ==> -0.5 <= judged.estimate - Nudged(judged).tick as real <= 0.5)
  {
    hide InTicks, TickTime, Error, Rounded;
    var judged, rate := Judged(clock, delta), clock.config.tickrate as real;
    JudgedError(clock, delta);
    InTicksIsRate(clock.config, clock.accumulator);
    MoreThanTicks(clock.config, judged.accumulator, clock.config.maxTicksPerFrame);
  }

  lemma MoreThanTicks(config: Config, seconds: real, ticks: int)
    requires Runs(config)
    ensures seconds > ticks as real * TickTime(config) <==> seconds * config.tickrate as real > ticks as real
  {
    var step, rate := ticks as real * TickTime(config), config.tickrate as real;
    assert TickTime(config) * rate == 1.0;
    assert step * rate == ticks as real * (TickTime(config) * rate);
    assert (seconds - step) * rate == seconds * rate - step * rate;
    if seconds > step {
      ProductStrict(0.0, seconds - step, rate);
    } else {
      ProductMonotone(seconds - step, 0.0, rate);
    }
  }

  /** A held frame runs no tick, tells nothing and empties the accumulator. */
  lemma HeldFrameRunsNothing(clock: Clock, delta: real, hz: int)
    requires Runs(clock.config) && clock.held
    ensures var after := Stepped(clock, delta, hz);
            && after.ticksRun == clock.ticksRun && after.tick == clock.tick && after.told == clock.told
            && after.accumulator == 0.0 && after.estimate == clock.estimate
  {
    hide StepsPerTick, TickTime;
  }

  /** Forced ticks run and are told whatever the accumulator holds, which they leave alone; a held clock runs none. */
  lemma ForcedRuns(clock: Clock, count: int, hz: int)
    requires Runs(clock.config)
    ensures var after, ran := Forced(clock, count, hz), if clock.held || count < 0 then 0 else count;
            && after.tick == clock.tick + ran && after.ticksRun == clock.ticksRun + ran
            && after.accumulator == clock.accumulator && after.estimate == clock.estimate
            && |after.told| == |clock.told| + 3 * ran
            && forall i :: 0 <= i < ran ==>
                 after.told[|clock.told| + 3 * i] == BeforeTick(clock.tick + i)
                 && after.told[|clock.told| + 1 + 3 * i] == OnTick(clock.tick + i)
                 && after.told[|clock.told| + 2 + 3 * i] == AfterTick(clock.tick + i)
  {
    hide StepsPerTick, TickTime, TickNotices;
    ToldInOrder(clock.told, clock.tick, if clock.held || count < 0 then 0 else count);
  }

  // ----- what a pong does -----

  /** The newest samples, as many as the window keeps and at least one, their mean and their mean deviation. */
  lemma StatsMeaning(stats: Stats, sample: real, threshold: real, window: int)
    ensures var after, all := Recorded(stats, sample, threshold, window), stats.samples + [sample];
            var keep := if window > 1 then window else 1;
            && after.rtt == sample
            && after.samples == (if |all| <= keep then all else all[|all| - keep..])
            && after.avg * |after.samples| as real == Sum(after.samples)
            && (exists off: seq<real> ::
                  && |off| == |after.samples| && after.jitter * |off| as real == Sum(off)
                  && forall i :: 0 <= i < |off| ==>
                       off[i] == if after.samples[i] < after.avg then after.avg - after.samples[i]
                                 else after.samples[i] - after.avg)
            && (after.stable <==> after.jitter < threshold)
  {
    hide Sum;
    var after := Recorded(stats, sample, threshold, window);
    var off := Deviations(after.samples, after.avg);
    MeanTimesCount(Sum(after.samples), |after.samples|);
    MeanTimesCount(Sum(off), |off|);
  }

  lemma MeanTimesCount(total: real, n: nat)
    requires n > 0
    ensures total / n as real * n as real == total
  {
  }

  /** A sum is its first and the sum of the rest, from either end. */
  lemma {:induction false} SumIsOfAll(values: seq<real>)
    ensures values == [] ==> Sum(values) == 0.0
    ensures values != [] ==> Sum(values) == values[0] + Sum(values[1..])
  {
    if |values| == 1 {
      assert values[..0] == [] && values[1..] == [];
    } else if |values| > 1 {
      var early := values[..|values| - 1];
      SumIsOfAll(early);
      assert early[1..] == values[1..][..|values| - 2];
    }
  }

  /**
   A pong takes the server's tick and phase and, when asked to lead, half the mean round trip in ticks and the
   configured lead: as its own time when it snaps or first synchronises, and otherwise as its estimate. What it
   reports is how far, in whole ticks, that was from the tick before.
   */
  ghost predicate TakesTarget(before: Clock, after: Clock, serverTick: int, phase: real, applyLead: bool, diff: int) {
    var config := before.config;
    var lead := if applyLead then after.stats.avg * 0.5 * config.tickrate as real + config.leadTicks else 0.0;
    var target := serverTick as real + phase + lead;
    && after.config == config && Runs(config) && after.synchronized
    && (!before.synchronized || config.mode == Snap ==> Position(after) == target && after.tick == target.Floor)
    && (!before.synchronized || config.mode == Stretch ==> after.estimate == target)
    && (before.synchronized && config.mode == Snap ==> after.estimate == before.estimate)
    && (before.synchronized && config.mode == Stretch ==>
          after.tick == before.tick && after.accumulator == before.accumulator)
    && -0.5 <= (diff + before.tick) as real - target <= 0.5
  }

  lemma PongMeaning(clock: Clock, sample: real, serverTick: int, phase: real, applyLead: bool)
    requires Runs(clock.config)
    ensures var after, config := Ponged(clock, sample, serverTick, phase, applyLead), clock.config;
            var metrics := Measured(clock, after, sample, Target(after.stats, config, serverTick, phase, applyLead));
            && after.stats == Recorded(clock.stats, sample, config.jitterThreshold, config.jitterWindow)
            && TakesTarget(clock, after, serverTick, phase, applyLead, metrics.diff)
            && after.told == clock.told
                 + (if after.stats.stable != clock.stats.stable then [StabilityChanged(after.stats.stable)] else [])
                 + (if clock.synchronized then [] else [Synchronized])
  {
    hide Recorded, InTicks, TickTime, RecommendedOffset, Rounded, Calibrated, Position, Target;
    var stats := Recorded(clock.stats, sample, clock.config.jitterThreshold, clock.config.jitterWindow);
    var told := if stats.stable != clock.stats.stable then clock.told + [StabilityChanged(stats.stable)]
                else clock.told;
    var noted, target := clock.(stats := stats, told := told),
        Target(stats, clock.config, serverTick, phase, applyLead);
    TargetMeaning(stats, clock.config, serverTick, phase, applyLead);
    CalibratedInFull(noted, target);
  }

  lemma TargetMeaning(stats: Stats, config: Config, serverTick: int, phase: real, applyLead: bool)
    requires Runs(config)
    ensures var lead := if applyLead then stats.avg * 0.5 * config.tickrate as real + config.leadTicks else 0.0;
            Target(stats, config, serverTick, phase, applyLead) == serverTick as real + phase + lead
  {
    InTicksIsRate(config, stats.avg * 0.5);
    hide InTicks, TickTime;
  }

  lemma CalibratedInFull(clock: Clock, target: real)
    requires Runs(clock.config)
    ensures var after := Calibrated(clock, target);
            && after.config == clock.config && after.stats == clock.stats && after.synchronized
            && after.told == clock.told + (if clock.synchronized then [] else [Synchronized])
            && (!clock.synchronized || clock.config.mode == Snap ==>
                  Position(after) == target && after.tick == target.Floor)
            && (!clock.synchronized || clock.config.mode == Stretch ==> after.estimate == target)
            && (clock.synchronized && clock.config.mode == Snap ==> after.estimate == clock.estimate)
            && (clock.synchronized && clock.config.mode == Stretch ==>
                  after.tick == clock.tick && after.accumulator == clock.accumulator)
  {
    hide InTicks, TickTime, Position, Error;
    PongSetsTime(clock, target);
  }

  // ----- the simulation credit -----

  datatype Input =
    | Step(delta: real, hz: int)
    | Force(count: int, hz: int)
    | Pong(sample: real, serverTick: int, phase: real, applyLead: bool)
    | Arm
    | Release
    | SetHeld(held: bool)

  function Next(clock: Clock, input: Input): Clock
    requires Runs(clock.config)
  {
    match input
    case Step(delta, hz) => Stepped(clock, delta, hz)
    case Force(count, hz) => Forced(clock, count, hz)
    case Pong(sample, serverTick, phase, applyLead) => Ponged(clock, sample, serverTick, phase, applyLead)
    case Arm => clock.(gates := clock.gates + 1)
    case Release => Released(clock)
    case SetHeld(held) => HeldTo(clock, held)
  }

  /** A run with its books: the credit that frames spent, that was dropped, and that ticks brought. */
  datatype Ledger = Ledger(clock: Clock, spent: int, dropped: int, bought: int)

  predicate Resolves(input: Input) {
    input.Step? || input.Force?
  }

  /** Credit is dropped by a stall, by the last gate's release, and by any frame without a gate. */
  function CreditDropped(clock: Clock, input: Input): int {
    if (input.Step? && input.delta > clock.config.stallThreshold)
       || (Resolves(input) && clock.gates <= 0)
       || (input.Release? && clock.gates <= 1)
    then clock.credit
    else 0
  }

  /** A tick on a gated clock brings as much credit as it has physics steps. */
  function CreditBought(clock: Clock, input: Input): int
    requires Runs(clock.config)
  {
    if Resolves(input) && clock.gates > 0
    then (Next(clock, input).ticksRun - clock.ticksRun) * StepsPerTick(clock.config, input.hz) else 0
  }

  function CreditSpent(clock: Clock, input: Input): int
    requires Runs(clock.config)
  {
    if Resolves(input) && clock.gates > 0 && Next(clock, input).simulating then 1 else 0
  }

  function Booked(ledger: Ledger, input: Input): Ledger
    requires Runs(ledger.clock.config)
  {
    var clock := ledger.clock;
    Ledger(Next(clock, input), ledger.spent + CreditSpent(clock, input), ledger.dropped + CreditDropped(clock, input),
           ledger.bought + CreditBought(clock, input))
  }

  function Run(clock: Clock, inputs: seq<Input>): (ledger: Ledger)
    requires Runs(clock.config)
    ensures ledger.clock.config == clock.config
  {
    if inputs == [] then Ledger(clock, 0, 0, 0)
    else
      var early := Run(clock, inputs[..|inputs| - 1]);
      NextKeepsConfig(early.clock, inputs[|inputs| - 1]);
      Booked(early, inputs[|inputs| - 1])
  }

  lemma RunLast(clock: Clock, inputs: seq<Input>)
    requires Runs(clock.config) && inputs != []
    ensures Run(clock, inputs) == Booked(Run(clock, inputs[..|inputs| - 1]), inputs[|inputs| - 1])
  {
  }

  lemma RunAppend(clock: Clock, inputs: seq<Input>, input: Input)
    requires Runs(clock.config)
    ensures Run(clock, inputs + [input]).clock == Next(Run(clock, inputs).clock, input)
  {
    assert (inputs + [input])[..|inputs|] == inputs;
  }

  lemma NextKeepsConfig(clock: Clock, input: Input)
    requires Runs(clock.config)
    ensures Next(clock, input).config == clock.config
  {
    hide TickTime, StepsPerTick, TickNotices, TicksDue, Snaps, Rounded, Error, Recorded;
  }

  /** Only forcing a negative count on a gated clock that is not held charges credit that no tick brought. */
  predicate Fair(clock: Clock, input: Input) {
    input.Force? && !clock.held && clock.gates > 0 ==> input.count >= 0
  }

  /** Credit spent, dropped and left after the input are the credit before it and what its ticks brought. */
  predicate Conserves(clock: Clock, input: Input)
    requires Runs(clock.config)
  {
    CreditSpent(clock, input) + CreditDropped(clock, input) + Next(clock, input).credit ==
        clock.credit + CreditBought(clock, input)
  }

  /** One input conserves credit exactly when it is fair, and a fair one leaves none owed. */
  lemma {:induction false} CreditOfOne(clock: Clock, input: Input)
    requires Runs(clock.config)
    ensures Conserves(clock, input) <==> Fair(clock, input)
    ensures clock.credit >= 0 && Fair(clock, input) ==> Next(clock, input).credit >= 0
    ensures input.Step? && clock.gates > 0 ==> clock.ticksRun <= Next(clock, input).ticksRun <= clock.ticksRun + 1
  {
    hide TickTime, StepsPerTick, TickNotices, Snaps, Rounded, Error, Recorded, InTicks;
    match input
    case Step(delta, hz) => CreditOfStep(clock, delta, hz);
    case Force(count, hz) => CreditOfForce(clock, count, hz);
    case _ =>
  }

  lemma CreditOfForce(clock: Clock, count: int, hz: int)
    requires Runs(clock.config)
    ensures var input := Force(count, hz);
            && (Conserves(clock, input) <==> Fair(clock, input))
            && (clock.credit >= 0 && Fair(clock, input) ==> Next(clock, input).credit >= 0)
  {
    hide StepsPerTick, Forced;
    ForcedCredit(clock, count, hz);
    var steps := StepsPerTick(clock.config, hz);
    assert count >= 0 ==> count * steps >= 0;
    assert count < 0 ==> count * steps < 0;
  }

  lemma ForcedCredit(clock: Clock, count: int, hz: int)
    requires Runs(clock.config)
    ensures var after, ran := Forced(clock, count, hz), if clock.held then 0 else count;
            && after.ticksRun - clock.ticksRun == (if ran > 0 then ran else 0)
            && (clock.gates <= 0 ==> after.credit == 0)
            && (clock.gates > 0 ==>
                  var credit := clock.credit + ran * StepsPerTick(clock.config, hz);
                  after.simulating == (credit > 0) && after.credit == if credit > 0 then credit - 1 else credit)
  {
    hide TickTime, StepsPerTick, TickNotices;
  }

  lemma CreditOfStep(clock: Clock, delta: real, hz: int)
    requires Runs(clock.config)
    ensures var after := Stepped(clock, delta, hz);
            && (clock.credit >= 0 ==> after.credit >= 0)
            && (clock.gates > 0 ==>
                  && clock.ticksRun <= after.ticksRun <= clock.ticksRun + 1
                  && (if after.simulating then 1 else 0) +
                     (if delta > clock.config.stallThreshold then clock.credit else 0) + after.credit
                       == clock.credit + (after.ticksRun - clock.ticksRun) * StepsPerTick(clock.config, hz))
            && (clock.gates <= 0 ==> after.credit == 0)
  {
    hide TickTime, StepsPerTick, TickNotices, Snaps, Rounded, Error, InTicks;
    var start := Unstalled(clock, delta);
    if !start.held {
      var ready := Advanced(start.(told := start.told + [BeforeLoop]), delta);
      assert ready.gates == clock.gates && ready.config == clock.config && ready.ticksRun == clock.ticksRun &&
          ready.credit == start.credit;
      var ticks := TicksDue(ready.accumulator, TickTime(ready.config), Ceiling(ready));
      assert clock.gates > 0 ==> ticks == 0 || ticks == 1;
      hide TicksDue, Advanced;
    }
  }

  /** Credit spent, dropped and left add up to the first credit and what ticks brought. */
  predicate Balanced(first: Clock, ledger: Ledger) {
    ledger.spent + ledger.dropped + ledger.clock.credit == first.credit + ledger.bought
  }

  /** The balance after every one of the inputs. */
  ghost predicate AlwaysBalanced(first: Clock, inputs: seq<Input>)
    requires Runs(first.config)
  {
    forall n :: 0 <= n <= |inputs| ==> Balanced(first, Run(first, inputs[..n]))
  }

  ghost predicate AllFair(first: Clock, inputs: seq<Input>)
    requires Runs(first.config)
  {
    forall n :: 0 <= n < |inputs| ==> Fair(Run(first, inputs[..n]).clock, inputs[n])
  }

  lemma PrefixBalance(first: Clock, inputs: seq<Input>)
    requires Runs(first.config) && inputs != []
    ensures var early, n := inputs[..|inputs| - 1], |inputs| - 1;
            && (AlwaysBalanced(first, inputs) <==> AlwaysBalanced(first, early) && Balanced(first, Run(first, inputs)))
            && (AllFair(first, inputs) <==> AllFair(first, early) && Fair(Run(first, early).clock, inputs[n]))
  {
    hide Run, Balanced, Fair;
    var early, n := inputs[..|inputs| - 1], |inputs| - 1;
    assert inputs[..n + 1] == inputs && early[..n] == early == inputs[..n];
    assert forall m :: 0 <= m <= n ==> early[..m] == inputs[..m];
    if AlwaysBalanced(first, inputs) {
      forall m | 0 <= m <= n ensures Balanced(first, Run(first, early[..m])) {
        assert Balanced(first, Run(first, inputs[..m]));
      }
      assert Balanced(first, Run(first, inputs[..n + 1]));
    }
    if AllFair(first, inputs) {
      forall m | 0 <= m < n ensures Fair(Run(first, early[..m]).clock, early[m]) {
        assert Fair(Run(first, inputs[..m]).clock, inputs[m]);
      }
      assert Fair(Run(first, inputs[..n]).clock, inputs[n]);
    }
    if AllFair(first, early) && Fair(Run(first, early).clock, inputs[n]) {
      forall m | 0 <= m <= n ensures Fair(Run(first, inputs[..m]).clock, inputs[m]) {
        if m < n {
          assert Fair(Run(first, early[..m]).clock, early[m]);
        }
      }
    }
    if AlwaysBalanced(first, early) && Balanced(first, Run(first, inputs)) {
      forall m | 0 <= m <= n + 1 ensures Balanced(first, Run(first, inputs[..m])) {
        if m <= n {
          assert Balanced(first, Run(first, early[..m]));
        }
      }
    }
  }

  /**
   Over every run of frames, forced ticks, pongs, gates and holds, credit is conserved at every point
   exactly when no negative count is forced on a gated clock that is not held.
   */
  lemma {:induction false} CreditIsConservedIff(first: Clock, inputs: seq<Input>)
    requires Runs(first.config)
    ensures AlwaysBalanced(first, inputs) <==> AllFair(first, inputs)
    ensures first.credit >= 0 && AllFair(first, inputs) ==> Run(first, inputs).clock.credit >= 0
  {
    if inputs == [] {
      NothingBooked(first);
    } else {
      hide Run, AlwaysBalanced, AllFair, Next, Fair, CreditSpent, CreditBought, CreditDropped;
      var early, input := inputs[..|inputs| - 1], inputs[|inputs| - 1];
      CreditIsConservedIff(first, early);
      PrefixBalance(first, inputs);
      RunLast(first, inputs);
      BalancedNow(first, early);
      CreditOfOne(Run(first, early).clock, input);
    }
  }

  /** The physics rate of every frame and forced tick is `hz`, and no gate is released. */
  ghost predicate GatedAt(inputs: seq<Input>, hz: int) {
    forall i :: 0 <= i < |inputs| ==> !inputs[i].Release? && (Resolves(inputs[i]) ==> inputs[i].hz == hz)
  }

  /** The ledger's clock is gated, and the ticks since the first brought their number times the steps of one. */
  predicate BoughtAt(first: Clock, ledger: Ledger, hz: int)
    requires Runs(first.config)
  {
    && ledger.clock.config == first.config && ledger.clock.gates > 0
    && ledger.bought == (ledger.clock.ticksRun - first.ticksRun) * StepsPerTick(first.config, hz)
  }

  /** While a clock is gated and the physics rate stays, what ticks brought is their number times the steps of one. */
  lemma {:induction false} BoughtByTicks(first: Clock, inputs: seq<Input>, hz: int)
    requires Runs(first.config) && first.gates > 0 && GatedAt(inputs, hz)
    ensures BoughtAt(first, Run(first, inputs), hz)
  {
    if inputs == [] {
    } else {
      hide Run, Booked, BoughtAt;
      var early, input := inputs[..|inputs| - 1], inputs[|inputs| - 1];
      assert GatedAt(early, hz);
      BoughtByTicks(first, early, hz);
      RunLast(first, inputs);
      BoughtStep(first, Run(first, early), input, hz);
    }
  }

  lemma BoughtStep(first: Clock, ledger: Ledger, input: Input, hz: int)
    requires Runs(first.config) && BoughtAt(first, ledger, hz)
    requires !input.Release? && (Resolves(input) ==> input.hz == hz)
    ensures BoughtAt(first, Booked(ledger, input), hz)
  {
    hide Next, StepsPerTick;
    var before, after, steps := ledger.clock, Next(ledger.clock, input), StepsPerTick(first.config, hz);
    NextKeepsConfig(before, input);
    NextGated(before, input);
    Distributes(before.ticksRun - first.ticksRun, after.ticksRun - before.ticksRun, steps);
  }

  lemma Distributes(a: int, b: int, factor: int)
    ensures a * factor + b * factor == (a + b) * factor
  {
  }

  lemma NextGated(clock: Clock, input: Input)
    requires Runs(clock.config) && clock.gates > 0 && !input.Release?
    ensures Next(clock, input).gates > 0 && (!Resolves(input) ==> Next(clock, input).ticksRun == clock.ticksRun)
  {
    hide TickTime, StepsPerTick, TickNotices, TicksDue, Snaps, Rounded, Error, Recorded;
  }

  lemma BalancedNow(first: Clock, inputs: seq<Input>)
    requires Runs(first.config)
    ensures AlwaysBalanced(first, inputs) ==> Balanced(first, Run(first, inputs))
  {
    hide Run, Balanced;
    assert inputs[..|inputs|] == inputs;
  }

  lemma NothingBooked(first: Clock)
    requires Runs(first.config)
    ensures AlwaysBalanced(first, []) && AllFair(first, []) && Run(first, []).clock == first
  {
    var none: seq<Input> := [];
    assert none[..0] == none;
  }

  /** Forcing -1 on a gated clock without credit leaves it owing what a tick would have brought. */
  lemma NegativeForceOwes(clock: Clock, hz: int)
    requires Runs(clock.config) && clock.gates > 0 && !clock.held && clock.credit == 0
    ensures Next(clock, Force(-1, hz)).credit == -StepsPerTick(clock.config, hz) < 0
    ensures !Conserves(clock, Force(-1, hz))
  {
    CreditOfOne(clock, Force(-1, hz));
    hide StepsPerTick, TickTime, TickNotices, Conserves, Rounded;
    var steps := StepsPerTick(clock.config, hz);
    assert -1 * steps == -steps;
  }

  /** At 60 physics steps a second the default clock, gated and forced by -1, ends two credits in debt. */
  lemma NegativeForceUnbalances()
    ensures var clock := Blank(DEFAULTS, 0, []).(gates := 1);
            Next(clock, Force(-1, 60)).credit == -2 && !Conserves(clock, Force(-1, 60))
  {
    hide Next, Conserves;
    var clock := Blank(DEFAULTS, 0, []).(gates := 1);
    NegativeForceOwes(clock, 60);
    assert StepsPerTick(DEFAULTS, 60) == 2;
  }

  // ----- frames as inputs -----

  function Steps(deltas: seq<real>, hz: int): (inputs: seq<Input>)
    ensures |inputs| == |deltas|
    ensures forall i :: 0 <= i < |deltas| ==> inputs[i] == Step(deltas[i], hz)
  {
    seq(|deltas|, i requires 0 <= i < |deltas| => Step(deltas[i], hz))
  }

  lemma StepsLast(inputs: seq<Input>, deltas: seq<real>, hz: int)
    requires deltas != []
    ensures var n := |deltas| - 1;
            inputs + Steps(deltas, hz) == inputs + Steps(deltas[..n], hz) + [Step(deltas[n], hz)]
  {
  }

  lemma NextStep(clock: Clock, delta: real, hz: int)
    requires Runs(clock.config)
    ensures Next(clock, Step(delta, hz)) == Stepped(clock, delta, hz)
  {
  }

  /** A run that ends in frames is the frames' run from where the rest left the clock. */
  lemma {:induction false} FramesAreInputs(first: Clock, inputs: seq<Input>, deltas: seq<real>, hz: int)
    requires Runs(first.config)
    ensures Run(first, inputs + Steps(deltas, hz)).clock == Frames(Run(first, inputs).clock, deltas, hz)
  {
    if deltas == [] {
      assert inputs + Steps(deltas, hz) == inputs;
    } else {
      hide Run, Frames, Stepped, Next, Steps;
      var early, delta := deltas[..|deltas| - 1], deltas[|deltas| - 1];
      FramesAreInputs(first, inputs, early, hz);
      StepsLast(inputs, deltas, hz);
      RunAppend(first, inputs + Steps(early, hz), Step(delta, hz));
      NextStep(Frames(Run(first, inputs).clock, early, hz), delta, hz);
      FramesLast(Run(first, inputs).clock, deltas, hz);
    }
  }
}
