/**
 The tick clock on values, over the reals: what one frame, one pong and one gate do to it, and what
 whole runs of them keep. Times are in seconds, the position and the estimate in ticks.
 */
module ClockModel {
  import opened Reals

  // ----- rounding and means -----

  /** `std::lround`: the nearest integer, halves away from zero. */
  function Rounded(x: real): (n: int)
    ensures -0.5 <= n as real - x <= 0.5
    ensures n as real - x == 0.5 ==> x > 0.0
    ensures x - n as real == 0.5 ==> x < 0.0
  {
    if x >= 0.0 then (x + 0.5).Floor else -((-x + 0.5).Floor)
  }

  function Sum(values: seq<real>): real {
    if values == [] then 0.0 else Sum(values[..|values| - 1]) + values[|values| - 1]
  }

  // ----- the round-trip statistics -----

  datatype Stats = Stats(rtt: real, avg: real, jitter: real, stable: bool, samples: seq<real>)

  function Deviations(samples: seq<real>, mean: real): seq<real> {
    seq(|samples|, i requires 0 <= i < |samples| => Abs(samples[i] - mean))
  }

  /** The newest `keep` entries. */
  function Newest<T>(values: seq<T>, keep: nat): (kept: seq<T>)
    ensures |kept| == if |values| <= keep then |values| else keep
  {
    if |values| <= keep then values else values[|values| - keep..]
  }

  function KeepOf(window: int): nat {
    if window > 1 then window else 1
  }

  function Recorded(stats: Stats, sample: real, threshold: real, window: int): Stats {
    var samples := Newest(stats.samples + [sample], KeepOf(window));
    var avg := Sum(samples) / |samples| as real;
    var jitter := Sum(Deviations(samples, avg)) / |samples| as real;
    Stats(sample, avg, jitter, jitter < threshold, samples)
  }

  ghost predicate AllWithin(values: seq<real>, low: real, high: real) {
    forall i :: 0 <= i < |values| ==> low <= values[i] <= high
  }

  lemma OneMoreWithin(low: real, high: real, total: real, last: real, n: real, m: real)
    requires m == n + 1.0 && low * n <= total <= high * n && low <= last <= high
    ensures low * m <= total + last <= high * m
  {
    assert low * m == low * n + low;
    assert high * m == high * n + high;
  }

  lemma {:induction false} SumWithin(values: seq<real>, low: real, high: real)
    requires AllWithin(values, low, high)
    ensures low * |values| as real <= Sum(values) <= high * |values| as real
  {
    if values == [] {
    } else {
      var early := values[..|values| - 1];
      SumWithin(early, low, high);
      OneMoreWithin(low, high, Sum(early), values[|values| - 1], |early| as real, |values| as real);
    }
  }

  lemma Cancel(a: real, b: real, n: real)
    requires n > 0.0 && a * n <= b * n
    ensures a <= b
  {
  }

  lemma CancelStrictly(a: real, b: real, n: real)
    requires n > 0.0 && a * n < b * n
    ensures a < b
  {
  }

  lemma MeanWithin(total: real, n: nat, low: real, high: real)
    requires n > 0 && low * n as real <= total <= high * n as real
    ensures low <= total / n as real <= high
  {
    var mean := total / n as real;
    assert mean * n as real == total;
    Cancel(low, mean, n as real);
    Cancel(mean, high, n as real);
  }

  /** The mean lies between the samples kept and the jitter is at most their spread. */
  lemma MeanAndJitterAreBounded(stats: Stats, sample: real, threshold: real, window: int, low: real, high: real)
    requires AllWithin(Recorded(stats, sample, threshold, window).samples, low, high)
    ensures var after := Recorded(stats, sample, threshold, window);
            low <= after.avg <= high && 0.0 <= after.jitter <= high - low
  {
    hide Sum, Newest;
    var after := Recorded(stats, sample, threshold, window);
    var n := |after.samples|;
    SumWithin(after.samples, low, high);
    MeanWithin(Sum(after.samples), n, low, high);
    assert AllWithin(Deviations(after.samples, after.avg), 0.0, high - low);
    SumWithin(Deviations(after.samples, after.avg), 0.0, high - low);
    MeanWithin(Sum(Deviations(after.samples, after.avg)), n, 0.0, high - low);
  }

  // ----- the clock -----

  datatype SyncMode = Snap | Stretch

  datatype Config = Config(tickrate: int, maxTicksPerFrame: int, stallThreshold: real, mode: SyncMode, panicSnap: int,
                           nudge: real, leadTicks: real, jitterWindow: int, jitterThreshold: real,
                           displayOffset: int, jitterMultiplier: real)

  const DEFAULTS := Config(30, 8, 1.0, Stretch, 20, 0.05, 1.0, 16, 0.05, 2, 2.0)

  /** What listeners are told, in order. */
  datatype Notice = BeforeTick(tick: int) | OnTick(tick: int) | AfterTick(tick: int)
                  | BeforeLoop | AfterLoop | Synchronized | StabilityChanged(stable: bool)

  datatype Clock = Clock(config: Config, tick: int, accumulator: real, estimate: real, synchronized: bool,
                         simulating: bool, held: bool, behind: int, gates: int, credit: int, ticksRun: int,
                         stats: Stats, told: seq<Notice>)

  predicate Runs(config: Config) {
    config.tickrate > 0
  }

  function TickTime(config: Config): (step: real)
    requires Runs(config)
    ensures step > 0.0
  {
    1.0 / config.tickrate as real
  }

  function InTicks(seconds: real, config: Config): real
    requires Runs(config)
  {
    seconds / TickTime(config)
  }

  /** A frame's length, in ticks. */
  function Length(config: Config, delta: real): real {
    delta * config.tickrate as real
  }

  /** The clock's own time, in ticks. */
  function Position(clock: Clock): real
    requires Runs(clock.config)
  {
    clock.tick as real + InTicks(clock.accumulator, clock.config)
  }

  /** How far the estimate is ahead of the clock. */
  function Error(clock: Clock): real
    requires Runs(clock.config)
  {
    clock.estimate - Position(clock)
  }

  function StepsPerTick(config: Config, hz: int): (steps: int)
    requires Runs(config)
    ensures steps >= 1
    ensures var ratio := hz as real / config.tickrate as real;
            if ratio >= 1.0 then -0.5 <= steps as real - ratio <= 0.5 else steps == 1
  {
    var steps := Rounded(hz as real / config.tickrate as real);
    if steps > 1 then steps else 1
  }

  // ----- ticks -----

  /** What `n` ticks from `tick` on tell: each tick its three notices, in order. */
  function TickNotices(tick: int, n: nat): (told: seq<Notice>)
    ensures |told| == 3 * n
  {
    if n == 0 then []
    else TickNotices(tick, n - 1) + [BeforeTick(tick + n - 1), OnTick(tick + n - 1), AfterTick(tick + n - 1)]
  }

  /** Tick number `i` of a frame is announced before, on and after with its own number, after the ticks before it. */
  lemma {:induction false} TicksAreToldInOrder(tick: int, n: nat, i: nat)
    requires i < n
    ensures var told := TickNotices(tick, n);
            told[3 * i] == BeforeTick(tick + i) && told[3 * i + 1] == OnTick(tick + i) &&
                told[3 * i + 2] == AfterTick(tick + i)
  {
    if i < n - 1 {
      TicksAreToldInOrder(tick, n - 1, i);
    }
  }

  /** `n` ticks on the same frame. */
  function Ticked(clock: Clock, n: nat): Clock
    requires Runs(clock.config)
  {
    clock.(tick := clock.tick + n, ticksRun := clock.ticksRun + n,
           accumulator := clock.accumulator - n as real * TickTime(clock.config),
           told := clock.told + TickNotices(clock.tick, n))
  }

  function Ceiling(clock: Clock): int {
    if clock.gates > 0 then 1 else clock.config.maxTicksPerFrame
  }

  /** The whole ticks the accumulator holds, up to the ceiling. */
  function TicksDue(accumulator: real, step: real, ceiling: int): nat
    requires step > 0.0
  {
    var whole := (accumulator / step).Floor;
    if whole <= 0 || ceiling <= 0 then 0 else if whole < ceiling then whole else ceiling
  }

  lemma WholeTicks(accumulator: real, step: real, n: int)
    requires step > 0.0 && n as real * step <= accumulator < (n + 1) as real * step
    ensures (accumulator / step).Floor == n
  {
    var ratio := accumulator / step;
    assert ratio * step == accumulator;
    Cancel(n as real, ratio, step);
    CancelStrictly(ratio, (n + 1) as real, step);
  }

  lemma AtLeastTicks(accumulator: real, step: real, n: int)
    requires step > 0.0 && n as real * step <= accumulator
    ensures (accumulator / step).Floor >= n
  {
    assert accumulator / step * step == accumulator;
    Cancel(n as real, accumulator / step, step);
  }

  // ----- drift correction -----

  /** Whether a nudge gives up on stretching: too far off, or a gate left more owed than a frame can catch up. */
  predicate Snaps(clock: Clock)
    requires Runs(clock.config)
  {
    || Abs(Error(clock)) > clock.config.panicSnap as real
    || (clock.gates > 0 && clock.accumulator > clock.config.maxTicksPerFrame as real * TickTime(clock.config))
  }

  function Nudged(clock: Clock): Clock
    requires Runs(clock.config)
  {
    var step := TickTime(clock.config);
    if Snaps(clock) then
      var tick := Rounded(clock.estimate);
      clock.(tick := tick, accumulator := (clock.estimate - tick as real) * step)
    else
      clock.(accumulator := clock.accumulator + Error(clock) * step * clock.config.nudge)
  }

  // ----- the simulation gate -----

  function Resolved(clock: Clock, ticks: int, hz: int): Clock
    requires Runs(clock.config)
  {
    if clock.gates <= 0 then clock.(simulating := true, credit := 0)
    else
      var behind := if clock.accumulator >= TickTime(clock.config) then clock.behind + 1 else clock.behind;
      var credit := clock.credit + ticks * StepsPerTick(clock.config, hz);
      clock.(behind := behind, simulating := credit > 0, credit := if credit > 0 then credit - 1 else credit)
  }

  // ----- one frame -----

  /** A frame longer than the stall threshold drops what was accumulated and owed before it. */
  function Unstalled(clock: Clock, delta: real): Clock {
    if delta > clock.config.stallThreshold then clock.(accumulator := 0.0, credit := 0) else clock
  }

  /** The clock once the frame's time is added and the drift corrected, before its ticks. */
  function Advanced(clock: Clock, delta: real): Clock
    requires Runs(clock.config)
  {
    var later := clock.(accumulator := clock.accumulator + delta);
    if later.synchronized && later.config.mode == Stretch
    then Nudged(later.(estimate := later.estimate + Length(later.config, delta)))
    else later
  }

  function Stepped(clock: Clock, delta: real, hz: int): Clock
    requires Runs(clock.config)
  {
    var start := Unstalled(clock, delta);
    if start.held then Resolved(start.(accumulator := 0.0), 0, hz)
    else
      var ready := Advanced(start.(told := start.told + [BeforeLoop]), delta);
      var ticks := TicksDue(ready.accumulator, TickTime(ready.config), Ceiling(ready));
      var after := Resolved(Ticked(ready, ticks), ticks, hz);
      after.(told := after.told + [AfterLoop])
  }

  /** `count` ticks outside the frame loop; the accumulator is not spent. */
  function Forced(clock: Clock, count: int, hz: int): Clock
    requires Runs(clock.config)
  {
    if clock.held then Resolved(clock, 0, hz)
    else Resolved(Ticked(clock, if count > 0 then count else 0).(accumulator := clock.accumulator), count, hz)
  }

  // ----- pongs -----

  function Calibrated(clock: Clock, target: real): Clock
    requires Runs(clock.config)
  {
    var whole := target.Floor;
    var placed := clock.(tick := whole, accumulator := (target - whole as real) * TickTime(clock.config));
    if !clock.synchronized then placed.(estimate := target, synchronized := true, told := clock.told + [Synchronized])
    else if clock.config.mode == Snap then placed
    else clock.(estimate := target)
  }

  function Target(stats: Stats, config: Config, serverTick: int, phase: real, applyLead: bool): real
    requires Runs(config)
  {
    serverTick as real + phase + if applyLead then InTicks(stats.avg * 0.5, config) + config.leadTicks else 0.0
  }

  function Ponged(clock: Clock, sample: real, serverTick: int, phase: real, applyLead: bool): Clock
    requires Runs(clock.config)
  {
    var stats := Recorded(clock.stats, sample, clock.config.jitterThreshold, clock.config.jitterWindow);
    var told := if stats.stable != clock.stats.stable then clock.told + [StabilityChanged(stats.stable)]
                else clock.told;
    Calibrated(clock.(stats := stats, told := told), Target(stats, clock.config, serverTick, phase, applyLead))
  }

  /** `ceil` */
  function Ceil(x: real): (n: int)
    ensures n as real - 1.0 < x <= n as real
  {
    -(-x).Floor
  }

  /** How far behind to display: enough to cover the one-way latency and the jitter, in whole ticks. */
  function RecommendedOffset(clock: Clock): (offset: int)
    ensures !clock.synchronized ==> offset == clock.config.displayOffset
    ensures clock.synchronized ==>
              var seconds := clock.stats.avg * 0.5 + clock.stats.jitter * clock.config.jitterMultiplier;
              offset as real - 1.0 < seconds * clock.config.tickrate as real <= offset as real
  {
    if !clock.synchronized then clock.config.displayOffset
    else Ceil(Length(clock.config, clock.stats.avg * 0.5 + clock.stats.jitter * clock.config.jitterMultiplier))
  }

  /** What a pong reports; `diff` is how far its target was from the tick before it. */
  datatype Metrics = Metrics(raw: real, avg: real, jitter: real, diff: int, tick: int, displayOffset: int,
                             recommended: int, stable: bool, synchronized: bool)

  function Measured(before: Clock, after: Clock, sample: real, target: real): Metrics {
    Metrics(sample, after.stats.avg, after.stats.jitter, Rounded(target) - before.tick, after.tick,
            after.config.displayOffset, RecommendedOffset(after), after.stats.stable, after.synchronized)
  }

  // ----- gates, holds and starting over -----

  function Released(clock: Clock): Clock {
    if clock.gates > 1 then clock.(gates := clock.gates - 1) else clock.(gates := 0, simulating := true, credit := 0)
  }

  function HeldTo(clock: Clock, held: bool): Clock {
    clock.(held := held, accumulator := 0.0)
  }

  /** `clear`: what was configured, the ticks ever run and what was told stay. */
  function Blank(config: Config, ticksRun: int, told: seq<Notice>): Clock {
    Clock(config, 0, 0.0, 0.0, false, true, false, 0, 0, 0, ticksRun, Stats(0.0, 0.0, 0.0, true, []), told)
  }

  // ----- time laws of one frame -----

  lemma InTicksOfNothing(config: Config)
    requires Runs(config)
    ensures InTicks(0.0, config) == 0.0
  {
  }

  lemma InTicksAdds(config: Config, a: real, b: real)
    requires Runs(config)
    ensures InTicks(a + b, config) == InTicks(a, config) + InTicks(b, config)
  {
  }

  lemma InTicksOfTicks(config: Config, ticks: real, seconds: real)
    requires Runs(config) && seconds == ticks * TickTime(config)
    ensures InTicks(seconds, config) == ticks
  {
  }

  lemma InTicksIsRate(config: Config, seconds: real)
    requires Runs(config)
    ensures InTicks(seconds, config) == Length(config, seconds)
  {
    var rate, ratio := config.tickrate as real, InTicks(seconds, config);
    assert TickTime(config) * rate == 1.0;
    assert ratio * TickTime(config) == seconds;
    assert ratio * (TickTime(config) * rate) == ratio * TickTime(config) * rate;
  }

  /** Ticks move time from the accumulator to the tick count and lose none of it. */
  lemma TicksKeepPosition(clock: Clock, n: nat)
    requires Runs(clock.config)
    ensures Position(Ticked(clock, n)) == Position(clock)
  {
    hide InTicks, TickTime, TickNotices;
    var spent := -(n as real) * TickTime(clock.config);
    InTicksAdds(clock.config, clock.accumulator, spent);
    InTicksOfTicks(clock.config, -(n as real), spent);
    assert Ticked(clock, n).accumulator == clock.accumulator + spent;
  }

  /** A nudge leaves exactly `1 - nudge` of the error, or none of it on a snap. */
  lemma NudgeContracts(clock: Clock)
    requires Runs(clock.config)
    ensures Error(Nudged(clock)) == if Snaps(clock) then 0.0 else (1.0 - clock.config.nudge) * Error(clock)
  {
    hide InTicks, TickTime, Snaps;
    var step, pull := TickTime(clock.config), Error(clock) * clock.config.nudge;
    if Snaps(clock) {
      var left := clock.estimate - Rounded(clock.estimate) as real;
      InTicksOfTicks(clock.config, left, Nudged(clock).accumulator);
    } else {
      assert Error(clock) * step * clock.config.nudge == pull * step;
      var added := Nudged(clock).accumulator - clock.accumulator;
      InTicksAdds(clock.config, clock.accumulator, added);
      InTicksOfTicks(clock.config, pull, added);
      assert (1.0 - clock.config.nudge) * Error(clock) == Error(clock) - pull;
    }
  }

  /** What the accumulator held that a stalled frame drops, in ticks. */
  function Dropped(clock: Clock, delta: real): real
    requires Runs(clock.config)
  {
    if delta > clock.config.stallThreshold then InTicks(clock.accumulator, clock.config) else 0.0
  }

  /** The clock a frame judges its drift on: time added to both sides. */
  function Judged(clock: Clock, delta: real): Clock {
    var start := Unstalled(clock, delta);
    start.(accumulator := start.accumulator + delta, estimate := start.estimate + Length(start.config, delta),
           told := start.told + [BeforeLoop])
  }

  /** Adding a frame's time to both sides changes the error only by what a stall drops. */
  lemma JudgedError(clock: Clock, delta: real)
    requires Runs(clock.config)
    ensures Judged(clock, delta).config == clock.config
    ensures Error(Judged(clock, delta)) == Error(clock) + Dropped(clock, delta)
  {
    hide InTicks, TickTime, Length;
    InTicksAdds(clock.config, Unstalled(clock, delta).accumulator, delta);
    InTicksIsRate(clock.config, delta);
    InTicksOfNothing(clock.config);
  }

  lemma JudgedIsAdvanced(clock: Clock, delta: real)
    requires Runs(clock.config) && clock.synchronized && clock.config.mode == Stretch
    ensures var start := Unstalled(clock, delta);
            Nudged(Judged(clock, delta)) == Advanced(start.(told := start.told + [BeforeLoop]), delta)
    ensures Nudged(Judged(clock, delta)).config == clock.config
    ensures Nudged(Judged(clock, delta)).estimate == clock.estimate + Length(clock.config, delta)
  {
    hide Snaps, TickTime, Rounded, Error, Length;
  }

  /**
   Without drift correction a frame adds exactly its own length to the clock's time, whatever number
   of ticks it runs, less what a stall drops.
   */
  lemma {:induction false} PlainStepAddsItsLength(clock: Clock, delta: real, hz: int)
    requires Runs(clock.config) && !clock.held && !(clock.synchronized && clock.config.mode == Stretch)
    ensures Position(Stepped(clock, delta, hz)) == Position(clock) - Dropped(clock, delta) + Length(clock.config, delta)
  {
    hide InTicks, TickTime, TickNotices, TicksDue, Nudged, StepsPerTick, Length;
    var start := Unstalled(clock, delta);
    var ready := Advanced(start.(told := start.told + [BeforeLoop]), delta);
    InTicksAdds(clock.config, start.accumulator, delta);
    InTicksIsRate(clock.config, delta);
    InTicksOfNothing(clock.config);
    TicksKeepPosition(ready, TicksDue(ready.accumulator, TickTime(ready.config), Ceiling(ready)));
  }

  /**
   With drift correction a frame multiplies the error, with whatever a stall dropped added to it, by
   exactly `1 - nudge`, or makes it zero on a snap, however many ticks it runs; and the estimate moves
   on by the frame's length.
   */
  lemma {:induction false} StretchedStepContracts(clock: Clock, delta: real, hz: int)
    requires Runs(clock.config) && !clock.held && clock.synchronized && clock.config.mode == Stretch
    ensures var after := Stepped(clock, delta, hz);
            && after.estimate == clock.estimate + Length(clock.config, delta)
            && Error(after) == if Snaps(Judged(clock, delta)) then 0.0
                               else (1.0 - clock.config.nudge) * (Error(clock) + Dropped(clock, delta))
  {
    hide InTicks, TickTime, TickNotices, TicksDue, Snaps, StepsPerTick, Length, Nudged, Advanced, Judged;
    var judged := Judged(clock, delta);
    var start := Unstalled(clock, delta);
    InTicksAdds(clock.config, start.accumulator, delta);
    InTicksIsRate(clock.config, delta);
    InTicksOfNothing(clock.config);
    JudgedError(clock, delta);
    NudgeContracts(judged);
    var ready := Nudged(judged);
    JudgedIsAdvanced(clock, delta);
    TicksKeepPosition(ready, TicksDue(ready.accumulator, TickTime(ready.config), Ceiling(ready)));
  }
}
