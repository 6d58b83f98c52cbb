/**
 The clock engine, updated in place. Beside its fields the engine keeps the log of its inputs since it was
 last configured or cleared; `Valid` says that the fields are what that run leaves, so the laws of runs are
 laws of the engine.
 */
module ClockEngines {
  import opened Reals
  import opened ClockModel
  import opened ClockRuns

  /** The statistics after one more sample: the window is cut from its old end, then averaged twice over. */
  method Record(stats: Stats, sample: real, threshold: real, window: int) returns (after: Stats)
    ensures after == Recorded(stats, sample, threshold, window)
  {
    hide Newest, Sum, Deviations;
    var samples := Trim(stats.samples + [sample], if window > 1 then window else 1);
    var sum := SumOf(samples);
    var avg := sum / |samples| as real;
    var deviation := DeviationOf(samples, avg);
    var jitter := deviation / |samples| as real;
    after := Stats(sample, avg, jitter, jitter < threshold, samples);
  }

  method Trim(all: seq<real>, keep: nat) returns (samples: seq<real>)
    ensures samples == Newest(all, keep)
  {
    samples := all;
    var cut := 0;
    while |samples| > keep
      invariant 0 <= cut <= |all| && samples == all[cut..]
      invariant cut > 0 ==> |samples| >= keep
    {
      samples := samples[1..];
      cut := cut + 1;
    }
  }

  method DeviationOf(samples: seq<real>, mean: real) returns (deviation: real)
    ensures deviation == Sum(Deviations(samples, mean))
  {
    hide Abs;
    ghost var all := Deviations(samples, mean);
    deviation := 0.0;
    for i := 0 to |samples|
      invariant deviation == Sum(all[..i])
    {
      deviation := deviation + Abs(samples[i] - mean);
      assert all[..i + 1][..i] == all[..i];
    }
    assert all[..|samples|] == all;
  }

  method SumOf(values: seq<real>) returns (sum: real)
    ensures sum == Sum(values)
  {
    sum := 0.0;
    for i := 0 to |values|
      invariant sum == Sum(values[..i])
    {
      sum := sum + values[i];
      assert values[..i + 1][..i] == values[..i];
    }
    assert values[..|values|] == values;
  }

  class ClockEngine {
    var config: Config
    var tick: int
    var accumulator: real
    var estimate: real
    var synchronized: bool
    var simulating: bool
    var held: bool
    var behind: int
    var gates: int
    var credit: int
    var ticksRun: int
    var stats: Stats
    var told: seq<Notice>

    /** The clock when the log began, and every input since. */
    ghost var first: Clock
    ghost var inputs: seq<Input>

    ghost predicate Valid()
      reads this
    {
      Runs(config) && LeftBy(first, inputs, State())
    }

    function State(): Clock
      reads this`config, this`tick, this`accumulator, this`estimate, this`synchronized, this`simulating, this`held
      reads this`behind, this`gates, this`credit, this`ticksRun, this`stats, this`told
    {
      Clock(config, tick, accumulator, estimate, synchronized, simulating, held, behind, gates, credit, ticksRun,
            stats, told)
    }

    constructor ()
      ensures Valid() && inputs == [] && first == State() == Blank(DEFAULTS, 0, [])
    {
      config := DEFAULTS;
      tick, accumulator, estimate, synchronized, simulating, held := 0, 0.0, 0.0, false, true, false;
      behind, gates, credit, ticksRun := 0, 0, 0, 0;
      stats, told := Stats(0.0, 0.0, 0.0, true, []), [];
      first, inputs := Blank(DEFAULTS, 0, []), [];
    }

    // ----- what holds of every engine -----

    /** No credit is made or lost, whatever the inputs, unless a negative count was forced on the gated clock. */
    lemma CreditIsKept()
      requires Valid() && Runs(first.config) && first.credit >= 0 && AllFair(first, inputs)
      ensures credit >= 0 &&
              credit == first.credit + Run(first, inputs).bought - Run(first, inputs).spent - Run(first, inputs).dropped
    {
      CreditIsConservedIff(first, inputs);
      BalancedNow(first, inputs);
    }

    /** Since the input before the last frames, the estimate moved on by their length and the error decayed. */
    lemma DriftHasShrunk(n: nat, deltas: seq<real>, hz: int)
      requires Valid() && n <= |inputs| && inputs[n..] == Steps(deltas, hz)
      requires Runs(first.config) && Stretching(Run(first, inputs[..n]).clock) && NoStall(first.config, deltas)
      ensures Decays(Run(first, inputs[..n]).clock, State(), Elapsed(first.config, deltas), |deltas|)
    {
      hide Run, Frames, Decays, Stretching, Elapsed, Steps;
      FramesSince(first, inputs, n, deltas, hz, State());
      DriftShrinks(Run(first, inputs[..n]).clock, deltas, hz);
    }

    /** Since then, without drift correction, the clock's time advanced by exactly the frames' length. */
    lemma NoTimeWasLost(n: nat, deltas: seq<real>, hz: int)
      requires Valid() && n <= |inputs| && inputs[n..] == Steps(deltas, hz)
      requires Runs(first.config) && Plain(Run(first, inputs[..n]).clock) && NoStall(first.config, deltas)
      ensures Keeps(Run(first, inputs[..n]).clock, State(), Elapsed(first.config, deltas))
    {
      hide Run, Frames, Keeps, Plain, Elapsed, Steps;
      FramesSince(first, inputs, n, deltas, hz, State());
      PlainClockLosesNoTime(Run(first, inputs[..n]).clock, deltas, hz);
    }

    ghost method Log(clock: Clock, input: Input)
      requires LeftBy(first, inputs, clock)
      modifies this`inputs
      ensures Runs(clock.config) && LeftBy(first, inputs, Next(clock, input)) && inputs == old(inputs) + [input]
    {
      hide LeftBy, Next;
      LeftAfter(first, inputs, clock, input);
      inputs := inputs + [input];
    }

    /** New settings; the log starts over. */
    method Configure(settings: Config)
      requires Valid() && Runs(settings)
      modifies this`config, this`first, this`inputs
      ensures Valid() && inputs == [] && first == State() == old(State()).(config := settings)
    {
      config := settings;
      first, inputs := State(), [];
    }

    /** Starts over with the same settings; the count of ticks ever run stays. */
    method Clear()
      requires Valid()
      modifies this`tick, this`accumulator, this`estimate, this`synchronized, this`simulating, this`held
      modifies this`behind, this`gates, this`credit, this`stats, this`first, this`inputs
      ensures Valid() && inputs == [] && first == State() == Blank(config, ticksRun, told)
    {
      ResetTime();
      ResetGate();
      stats := Stats(0.0, 0.0, 0.0, true, []);
      first, inputs := State(), [];
    }

    method ResetTime()
      modifies this`tick, this`accumulator, this`estimate, this`synchronized
      ensures tick == 0 && accumulator == estimate == 0.0 && !synchronized
    {
      tick, accumulator, estimate, synchronized := 0, 0.0, 0.0, false;
    }

    method ResetGate()
      modifies this`simulating, this`held, this`behind, this`gates, this`credit
      ensures simulating && !held && behind == gates == credit == 0
    {
      simulating, held, behind, gates, credit := true, false, 0, 0, 0;
    }

    method EmitTick()
      modifies `tick, `ticksRun, `told
      ensures tick == old(tick) + 1 && ticksRun == old(ticksRun) + 1
      ensures told == old(told) + [BeforeTick(old(tick)), OnTick(old(tick)), AfterTick(old(tick))]
    {
      told := told + [BeforeTick(tick)];
      told := told + [OnTick(tick)];
      told := told + [AfterTick(tick)];
      tick := tick + 1;
      ticksRun := ticksRun + 1;
    }

    /** Runs the ticks the accumulator holds, up to the ceiling. */
    method RunTicks(ceiling: int) returns (ticks: nat)
      requires Runs(config)
      modifies `tick, `ticksRun, `told, `accumulator
      ensures ticks == TicksDue(old(accumulator), TickTime(config), ceiling)
      ensures State() == Ticked(old(State()), ticks)
    {
      hide TickTime, TicksDue, Ticked;
      ghost var ready := State();
      NoTicks(ready);
      var step := TickTime(config);
      ticks := 0;
      while accumulator >= step && ticks < ceiling
        invariant State() == Ticked(ready, ticks)
        invariant accumulator == ready.accumulator - ticks as real * step
        invariant ticks > 0 ==> ticks <= ceiling && ticks as real * step <= ready.accumulator
        decreases ceiling - ticks
      {
        OneMoreTick(ready, ticks);
        accumulator := accumulator - step;
        EmitTick();
        ticks := ticks + 1;
      }
      DueIsReached(ready.accumulator, step, ceiling, ticks);
    }

    method NudgeTowardEstimate()
      requires Runs(config)
      modifies `tick, `accumulator
      ensures State() == Nudged(old(State()))
    {
      hide TickTime, Abs, Rounded;
      ghost var first := State();
      var step := TickTime(config);
      var current := tick as real + accumulator / step;
      assert current == Position(first);
      hide InTicks, Position;
      var divergence := estimate - current;
      assert divergence == Error(first);
      hide Error;
      var owesPastCatchUp := gates > 0 && accumulator > config.maxTicksPerFrame as real * step;
      assert Snaps(first) == (Abs(divergence) > config.panicSnap as real || owesPastCatchUp);
      hide Snaps;
      if Abs(divergence) > config.panicSnap as real || owesPastCatchUp {
        tick := Rounded(estimate);
        accumulator := (estimate - tick as real) * step;
        return;
      }
      accumulator := accumulator + divergence * step * config.nudge;
    }

    method ResolveSimulationGate(ticks: int, hz: int)
      requires Runs(config)
      modifies `simulating, `credit, `behind
      ensures State() == Resolved(old(State()), ticks, hz)
    {
      if gates <= 0 {
        simulating := true;
        credit := 0;
        return;
      }
      if accumulator >= TickTime(config) {
        behind := behind + 1;
      }
      credit := credit + ticks * StepsPerTick(config, hz);
      simulating := credit > 0;
      if simulating {
        credit := credit - 1;
      }
    }

    /** Adds a frame's time to the accumulator, and to the estimate when the drift is corrected. */
    method Advance(delta: real)
      requires Runs(config)
      modifies `tick, `accumulator, `estimate
      ensures State() == Advanced(old(State()), delta)
    {
      hide Nudged;
      accumulator := accumulator + delta;
      if synchronized && config.mode == Stretch {
        estimate := estimate + delta * config.tickrate as real;
        assert estimate == old(estimate) + Length(config, delta);
        hide Length;
        NudgeTowardEstimate();
      }
    }

    method PhysicsStep(delta: real, hz: int)
      requires Valid()
      modifies this`tick, this`accumulator, this`estimate, this`ticksRun, this`told, this`simulating, this`credit,
               this`behind
      modifies this`inputs
      ensures Valid() && inputs == old(inputs) + [Step(delta, hz)]
      ensures State() == Stepped(old(State()), delta, hz)
      ensures !held ==> RanWithin(old(State()), ticksRun - old(ticksRun), Owed(State()))
      ensures !held ==> ToldFrame(old(told), told, tick - (ticksRun - old(ticksRun)), ticksRun - old(ticksRun))
      ensures held ==> ticksRun == old(ticksRun) && told == old(told) && accumulator == 0.0
    {
      hide Stepped, LeftBy, RanWithin, ToldFrame, Owed;
      Log(State(), Step(delta, hz));
      ghost var before := State();
      Frame(delta, hz);
      if held {
        HeldFrameRunsNothing(before, delta, hz);
      } else {
        FrameRunsWhatIsOwed(before, delta, hz);
      }
    }

    /** The body of `physics_step`. */
    method Frame(delta: real, hz: int)
      requires Runs(config)
      modifies this`tick, this`accumulator, this`estimate, this`ticksRun, this`told, this`simulating, this`credit,
               this`behind
      ensures State() == Stepped(old(State()), delta, hz)
    {
      hide TickTime, TicksDue, Ticked, Resolved, Advanced;
      ghost var start := Unstalled(State(), delta);
      if delta > config.stallThreshold {
        accumulator := 0.0;
        credit := 0;
      }
      assert State() == start;
      if held {
        accumulator := 0.0;
        ResolveSimulationGate(0, hz);
        return;
      }
      told := told + [BeforeLoop];
      Advance(delta);
      var ceiling := if gates > 0 then 1 else config.maxTicksPerFrame;
      var ticks := RunTicks(ceiling);
      ResolveSimulationGate(ticks, hz);
      told := told + [AfterLoop];
    }

    method ForceStep(count: int, hz: int)
      requires Valid()
      modifies `tick, `ticksRun, `told, `simulating, `credit, `behind, `inputs
      ensures Valid() && inputs == old(inputs) + [Force(count, hz)]
      ensures State() == Forced(old(State()), count, hz)
    {
      hide Forced, LeftBy;
      Log(State(), Force(count, hz));
      RunForced(count, hz);
    }

    /** The body of `force_step`. */
    method RunForced(count: int, hz: int)
      requires Runs(config)
      modifies `tick, `ticksRun, `told, `simulating, `credit, `behind
      ensures State() == Forced(old(State()), count, hz)
    {
      hide TickTime, Resolved;
      if held {
        ResolveSimulationGate(0, hz);
        return;
      }
      ghost var first := State();
      var index := 0;
      while index < count
        invariant 0 <= index && (index > 0 ==> index <= count)
        invariant State() == Ticked(first, index).(accumulator := first.accumulator)
      {
        EmitTick();
        index := index + 1;
      }
      ResolveSimulationGate(count, hz);
    }

    method Calibrate(target: real)
      requires Runs(config)
      modifies `tick, `accumulator, `estimate, `synchronized, `told
      ensures State() == Calibrated(old(State()), target)
    {
      var whole := target.Floor;
      if !synchronized {
        tick := whole;
        accumulator := (target - whole as real) * TickTime(config);
        estimate := target;
        synchronized := true;
        told := told + [Synchronized];
        return;
      }
      if config.mode == Snap {
        tick := whole;
        accumulator := (target - whole as real) * TickTime(config);
      } else {
        estimate := target;
      }
    }

    method HandlePong(sample: real, serverTick: int, phase: real, applyLead: bool) returns (metrics: Metrics)
      requires Valid()
      modifies `tick, `accumulator, `estimate, `synchronized, `told, `stats, `inputs
      ensures Valid() && inputs == old(inputs) + [Pong(sample, serverTick, phase, applyLead)]
      ensures State() == Ponged(old(State()), sample, serverTick, phase, applyLead)
      ensures metrics == Measured(old(State()), State(), sample, Target(stats, config, serverTick, phase, applyLead))
      ensures TakesTarget(old(State()), State(), serverTick, phase, applyLead, metrics.diff)
    {
      hide Ponged, LeftBy, Recorded, Measured, TakesTarget, Target;
      Log(State(), Pong(sample, serverTick, phase, applyLead));
      ghost var before := State();
      metrics := TakePong(sample, serverTick, phase, applyLead);
      PongMeaning(before, sample, serverTick, phase, applyLead);
    }

    /** The body of `handle_pong`. */
    method TakePong(sample: real, serverTick: int, phase: real, applyLead: bool) returns (metrics: Metrics)
      requires Runs(config)
      modifies `tick, `accumulator, `estimate, `synchronized, `told, `stats
      ensures State() == Ponged(old(State()), sample, serverTick, phase, applyLead)
      ensures metrics == Measured(old(State()), State(), sample, Target(stats, config, serverTick, phase, applyLead))
    {
      hide Recorded, RecommendedOffset, Rounded;
      var wasStable := stats.stable;
      stats := Record(stats, sample, config.jitterThreshold, config.jitterWindow);
      if stats.stable != wasStable {
        told := told + [StabilityChanged(stats.stable)];
      }
      var lead := if applyLead then stats.avg * 0.5 / TickTime(config) + config.leadTicks else 0.0;
      var target := serverTick as real + phase + lead;
      var diff := Rounded(target) - tick;
      Calibrate(target);
      metrics := Metrics(sample, stats.avg, stats.jitter, diff, tick, config.displayOffset, RecommendedOffset(State()),
                         stats.stable, synchronized);
    }

    method ArmGate()
      requires Valid()
      modifies `gates, `inputs
      ensures Valid() && inputs == old(inputs) + [Arm]
      ensures State() == old(State()).(gates := old(gates) + 1)
    {
      hide LeftBy;
      Log(State(), Arm);
      gates := gates + 1;
    }

    /** The last gate released lets every frame simulate and drops the credit. */
    method ReleaseGate()
      requires Valid()
      modifies `gates, `simulating, `credit, `inputs
      ensures Valid() && inputs == old(inputs) + [Release]
      ensures State() == Released(old(State()))
      ensures gates == (if old(gates) > 1 then old(gates) - 1 else 0)
      ensures if gates == 0 then simulating && credit == 0 else simulating == old(simulating) && credit == old(credit)
    {
      hide LeftBy;
      Log(State(), Release);
      gates := if gates > 1 then gates - 1 else 0;
      if gates == 0 {
        simulating := true;
        credit := 0;
      }
    }

    method SetHeld(value: bool)
      requires Valid()
      modifies `held, `accumulator, `inputs
      ensures Valid() && inputs == old(inputs) + [Input.SetHeld(value)]
      ensures State() == HeldTo(old(State()), value) == old(State()).(held := value, accumulator := 0.0)
    {
      hide LeftBy;
      Log(State(), Input.SetHeld(value));
      held := value;
      accumulator := 0.0;
    }
  }

  /** Running these inputs from the first clock leaves this one. */
  ghost predicate LeftBy(first: Clock, inputs: seq<Input>, clock: Clock) {
    Runs(first.config) && Run(first, inputs).clock == clock
  }

  lemma FramesSince(first: Clock, inputs: seq<Input>, n: nat, deltas: seq<real>, hz: int, clock: Clock)
    requires LeftBy(first, inputs, clock) && n <= |inputs| && inputs[n..] == Steps(deltas, hz)
    ensures clock == Frames(Run(first, inputs[..n]).clock, deltas, hz)
  {
    hide Run, Frames, Steps;
    assert inputs == inputs[..n] + Steps(deltas, hz);
    FramesAreInputs(first, inputs[..n], deltas, hz);
  }

  lemma LeftAfter(first: Clock, inputs: seq<Input>, clock: Clock, input: Input)
    requires LeftBy(first, inputs, clock)
    ensures Runs(clock.config) && LeftBy(first, inputs + [input], Next(clock, input))
  {
    hide Next, Run;
    RunAppend(first, inputs, input);
  }

  lemma NoTicks(clock: Clock)
    requires Runs(clock.config)
    ensures Ticked(clock, 0) == clock
  {
  }

  lemma OneMoreTick(clock: Clock, n: nat)
    requires Runs(clock.config)
    ensures Ticked(clock, n + 1) ==
              var before := Ticked(clock, n);
              before.(tick := before.tick + 1, ticksRun := before.ticksRun + 1,
                      accumulator := before.accumulator - TickTime(clock.config),
                      told := before.told + [BeforeTick(before.tick), OnTick(before.tick), AfterTick(before.tick)])
    ensures (n + 1) as real * TickTime(clock.config) == n as real * TickTime(clock.config) + TickTime(clock.config)
  {
    hide TickTime;
    assert (n + 1) as real * TickTime(clock.config) == n as real * TickTime(clock.config) + TickTime(clock.config);
  }

  lemma DueIsReached(accumulator: real, step: real, ceiling: int, ticks: nat)
    requires step > 0.0
    requires ticks > 0 ==> ticks <= ceiling && ticks as real * step <= accumulator
    requires accumulator - ticks as real * step < step || ticks >= ceiling
    ensures ticks == TicksDue(accumulator, step, ceiling)
  {
    if ticks == 0 {
      if 0 < ceiling {
        assert accumulator / step * step == accumulator;
        CancelStrictly(accumulator / step, 1.0, step);
      }
    } else {
      AtLeastTicks(accumulator, step, ticks);
      if ticks < ceiling {
        assert (ticks + 1) as real * step == ticks as real * step + step;
        WholeTicks(accumulator, step, ticks);
      }
    }
  }
}
