/** What a cycle asks of the station: which state it reports, how the loops move the request away from the command, and
    how the station's limits and ramps hold it. */
module ControlLoops {
  import opened Results
  import Integers
  import opened Reals
  import opened PowerLimits
  import opened ControllerTypes
  import opened ControlLaw
  import opened ControllerRuns

  /** Nothing forbids to run the converters. */
  predicate Safe(input: CycleInput) {
    input.inputHealthy && input.remoteEnable && !input.emergencyStop && !input.fireAlarm
  }

  /** The cycle follows the dispatch command: there is one, issued at most a second ahead and not longer ago than its
      timeout. */
  predicate Controls(cfg: Config, input: CycleInput) {
    && cfg.enabled && Safe(input) && !input.priorityBlocked
    && input.command.sequence > 0 && input.command.issuedAtMs > 0
    && input.command.issuedAtMs - 1000 <= input.nowMs <= input.command.issuedAtMs + cfg.commandTimeoutMs
  }

  /** What the cycle asked of the fleet: what it got and what it did not get. */
  function Requested(output: CycleOutput): Power {
    Add(output.effectiveTarget, output.unserved)
  }

  function Targets(assignments: seq<Assignment>): (r: seq<Power>) {
    seq(|assignments|, i requires 0 <= i < |assignments| => assignments[i].target)
  }

  /** Which state a cycle reports, and that its total is that of its targets: unsafe inputs come before a pause, a pause
      before a command that is not fresh. A controlling cycle is degraded exactly when too much is unserved. */
  lemma StateOfCycle(cfg: Config, libm: Libm, memory: Memory, input: CycleInput)
    requires |memory.pcs| == |cfg.pcs|
    ensures var (after, output) := Cycle(cfg, libm, memory, input);
            && (output.state == Disabled <==> !cfg.enabled)
            && (output.state == Failsafe <==> cfg.enabled && !Safe(input))
            && (output.state == PausedByPriority <==> cfg.enabled && Safe(input) && input.priorityBlocked)
            && (output.state in {Active, Degraded} <==> Controls(cfg, input))
            && (output.state == Degraded <==>
                  Controls(cfg, input) && (Abs(output.unserved.p) > Max(0.1, cfg.agc.deadbandKw)
                                           || Abs(output.unserved.q) > Max(0.1, cfg.avc.deadbandKvar)))
            && (output.state == RampToZero ==>
                  Abs(output.effectiveTarget.p) > 0.000001 || Abs(output.effectiveTarget.q) > 0.000001)
            && (output.state == Standby ==>
                  Abs(output.effectiveTarget.p) <= 0.000001 && Abs(output.effectiveTarget.q) <= 0.000001)
            && output.effectiveTarget == Total(Targets(output.pcs))
            && (output.pcs != [] ==> after.previous == output.effectiveTarget)
  {
    hide PcsTarget, RunActiveLoop, RunReactiveLoop, StationRequest, Sum, Shares, MeasuredTotal, Zeroed, Total,
      PcsCapability;
    var output := Cycle(cfg, libm, memory, input).1;
    var dtSec := CycleSeconds(cfg, memory.lastCycleMs, input.nowMs);
    NoTotal();
    if Controls(cfg, input) {
      ControlTotal(cfg, libm, memory, input, dtSec);
    } else if cfg.enabled && (Unsafe(input) || !input.priorityBlocked) {
      ZeroingTotal(cfg, memory, input, dtSec, Unsafe(input));
    }
  }

  /** A cycle that does not control clears the integrals and keeps what the reactive loop holds; one that pauses
      remembers what is measured, and puts nothing out. */
  lemma IntegralsAreCleared(cfg: Config, libm: Libm, memory: Memory, input: CycleInput)
    requires |memory.pcs| == |cfg.pcs| && cfg.enabled && !Controls(cfg, input)
    ensures var (after, output) := Cycle(cfg, libm, memory, input);
            && after.integralP == 0.0 && after.integralQ == 0.0 && after.integralV == 0.0
            && after.heldRawQkvar == memory.heldRawQkvar && after.lastAvcCalculationMs == memory.lastAvcCalculationMs
            && (Safe(input) && input.priorityBlocked ==>
                  && output.pcs == []
                  && forall i :: 0 <= i < |cfg.pcs| ==>
                       after.pcs[i] == if i < |input.pcs| && input.pcs[i].inputHealthy
                                       then Power(input.pcs[i].actualPkw, input.pcs[i].actualQkvar) else memory.pcs[i])
  {
    hide Zeroed, Total, MeasuredTotal, CycleSeconds;
  }

  lemma NoTotal()
    ensures Total([]) == ZERO && Targets([]) == []
  {
  }

  lemma ControlTotal(cfg: Config, libm: Libm, memory: Memory, input: CycleInput, dtSec: real)
    requires |memory.pcs| == |cfg.pcs|
    ensures var (after, output) := ControlCycle(cfg, libm, memory, input, dtSec);
            Targets(output.pcs) == after.pcs && output.effectiveTarget == Total(after.pcs)
  {
    hide PcsTarget, RunActiveLoop, RunReactiveLoop, StationRequest, Sum, Shares, Total, PcsCapability;
    var (after, output) := ControlCycle(cfg, libm, memory, input, dtSec);
    assert Targets(output.pcs) == after.pcs;
  }

  lemma ZeroingTotal(cfg: Config, memory: Memory, input: CycleInput, dtSec: real, immediate: bool)
    requires |memory.pcs| == |cfg.pcs|
    ensures var (after, output) := ZeroingCycle(cfg, memory, input, dtSec, immediate);
            Targets(output.pcs) == after.pcs && output.effectiveTarget == Total(after.pcs)
  {
    hide Zeroed, Total;
    var (after, output) := ZeroingCycle(cfg, memory, input, dtSec, immediate);
    assert Targets(output.pcs) == after.pcs;
  }

  // ----- the active loop -----

  /** An amount has no direction other than that of `d`. */
  predicate Along(d: real, x: real) {
    (d >= 0.0 ==> x >= 0.0) && (d <= 0.0 ==> x <= 0.0)
  }

  lemma Gain(k: real, d: real)
    requires k >= 0.0
    ensures Along(d, Gained(k, d))
  {
    if d >= 0.0 {
      assert k * d >= 0.0;
    }
    if d <= 0.0 {
      assert k * -d >= 0.0;
      assert k * -d == -(k * d);
    }
  }

  /** The error counts only outside the deadband. */
  predicate IsError(target: real, measured: real, deadband: real, error: real) {
    if -Max(0.0, deadband) <= target - measured <= Max(0.0, deadband) then error == 0.0 else error == target - measured
  }

  /** An integral follows the error and stays between its bounds. */
  predicate Integrates(before: real, after: real, error: real, dtSec: real, low: real, high: real) {
    && Min(low, high) <= after <= Max(low, high)
    && (Min(low, high) <= before + RampOver(error, dtSec) <= Max(low, high) ==>
          after == before + RampOver(error, dtSec))
  }

  /** The integral moves along the error from where it was within the bounds. */
  lemma IntegralMoves(before: real, after: real, error: real, dtSec: real, low: real, high: real)
    requires dtSec > 0.0 && low <= before <= high
    requires after == ClampValue(before + RampOver(error, dtSec), low, high)
    ensures Integrates(before, after, error, dtSec, low, high) && Along(error, after - before)
  {
    var step := RampOver(error, dtSec);
    assert Along(error, step) by {
      Gain(dtSec, error);
    }
    hide RampOver;
  }

  /** A controlling cycle reports what its loops ask for. */
  lemma LoopsAreReported(cfg: Config, libm: Libm, memory: Memory, input: CycleInput)
    requires |memory.pcs| == |cfg.pcs| && Controls(cfg, input)
    ensures var (after, output) := Cycle(cfg, libm, memory, input);
            var agc := RunActiveLoop(cfg, memory, input, CycleSeconds(cfg, memory.lastCycleMs, input.nowMs));
            var avc := RunReactiveLoop(cfg, libm, memory, input);
            && output.rawTarget == Power(agc.requestedP, avc.requestedQ)
            && output.agcErrorKw == agc.error && output.avcError == avc.error && after.integralP == agc.integralP
            && after.integralQ == avc.memory.integralQ && after.integralV == avc.memory.integralV
            && after.heldRawQkvar == avc.memory.heldRawQkvar && after.lastAvcError == avc.memory.lastAvcError
            && after.lastAvcCalculationMs == avc.memory.lastAvcCalculationMs
  {
    hide PcsTarget, RunActiveLoop, RunReactiveLoop, StationRequest, Sum, Shares, Total, PcsCapability, CycleSeconds,
      Short;
  }

  /** What proportional and integral parts add to a request: nothing for no error and no integral, and otherwise an
      amount along the error, beyond the proportional part. */
  predicate Corrects(kp: real, ki: real, error: real, integral: real, moved: real) {
    && (error == 0.0 && integral == 0.0 ==> moved == 0.0)
    && (kp >= 0.0 && ki >= 0.0 && Along(error, integral) ==>
          && Along(error, moved) && Along(error, moved - Gained(kp, error))
          && (kp > 0.0 && error != 0.0 ==> moved != 0.0))
  }

  lemma PartsCorrect(kp: real, ki: real, error: real, before: real, after: real)
    requires Along(error, after - before)
    ensures Corrects(kp, ki, error, before, Gained(kp, error) + Gained(ki, after))
  {
    if error == 0.0 {
      NoGain(kp);
      NoGain(ki);
    }
    if kp >= 0.0 {
      Gain(kp, error);
      if error != 0.0 && kp > 0.0 {
        NoZeroGain(kp, error);
      }
    }
    if ki >= 0.0 {
      Gain(ki, after);
    }
    hide Gained;
  }

  lemma NoGain(k: real)
    ensures Gained(k, 0.0) == 0.0
  {
  }

  lemma NoZeroGain(k: real, d: real)
    requires k > 0.0 && d != 0.0
    ensures Gained(k, d) != 0.0
  {
  }

  /** The raw request of the active loop without droop: on the command when the power at the connection point is within
      the deadband and nothing is integrated, and otherwise moved away from it in the direction of the error, by at
      least the proportional part. */
  lemma RequestFollowsError(cfg: Config, libm: Libm, memory: Memory, input: CycleInput)
    requires |memory.pcs| == |cfg.pcs| && Controls(cfg, input) && cfg.agc.enabled
    requires !cfg.agc.frequencyDroopEnabled || input.frequencyHz.None?
    requires cfg.agc.integralMinKw <= memory.integralP <= cfg.agc.integralMaxKw
    ensures var (after, output) := Cycle(cfg, libm, memory, input);
            var e, dtSec := output.agcErrorKw, CycleSeconds(cfg, memory.lastCycleMs, input.nowMs);
            && IsError(input.command.targetPkw, input.pccActivePowerKw, cfg.agc.deadbandKw, e)
            && Integrates(memory.integralP, after.integralP, e, dtSec, cfg.agc.integralMinKw, cfg.agc.integralMaxKw)
            && Along(e, after.integralP - memory.integralP)
            && Corrects(cfg.agc.kp, cfg.agc.ki, e, memory.integralP, output.rawTarget.p - input.command.targetPkw)
  {
    hide Cycle, RunReactiveLoop, ClampValue, Integrates, CycleSeconds, Gained, RampOver, Corrects;
    LoopsAreReported(cfg, libm, memory, input);
    var dtSec := CycleSeconds(cfg, memory.lastCycleMs, input.nowMs);
    var loop := RunActiveLoop(cfg, memory, input, dtSec);
    IntegralMoves(memory.integralP, loop.integralP, loop.error, dtSec, cfg.agc.integralMinKw, cfg.agc.integralMaxKw);
    PartsCorrect(cfg.agc.kp, cfg.agc.ki, loop.error, memory.integralP, loop.integralP);
  }

  /** A disabled active loop asks for nothing. */
  lemma DisabledLoopAsksNothing(cfg: Config, libm: Libm, memory: Memory, input: CycleInput)
    requires |memory.pcs| == |cfg.pcs| && Controls(cfg, input)
    ensures var (after, output) := Cycle(cfg, libm, memory, input);
            && (!cfg.agc.enabled ==> output.rawTarget.p == 0.0 && after.integralP == memory.integralP)
            && (!cfg.avc.enabled ==> output.rawTarget.q == 0.0 && after.heldRawQkvar == 0.0)
  {
    hide Cycle, CycleSeconds;
    LoopsAreReported(cfg, libm, memory, input);
  }

  /** The droop asks for more power below the nominal frequency and for less above it: in proportion to the deviation
      within its limit, and the limit beyond. */
  lemma DroopSupportsFrequency(cfg: Config, libm: Libm, memory: Memory, input: CycleInput)
    requires |memory.pcs| == |cfg.pcs| && Controls(cfg, input) && cfg.agc.enabled
    requires cfg.agc.frequencyDroopEnabled && input.frequencyHz.Some? && cfg.agc.kwPerHz >= 0.0
    ensures var without := Cycle(cfg, libm, memory, input.(frequencyHz := None)).1.rawTarget.p;
            var added := Cycle(cfg, libm, memory, input).1.rawTarget.p - without;
            var deviation := cfg.agc.nominalHz - input.frequencyHz.value;
            var limit := Abs(cfg.agc.droopLimitKw);
            && Along(deviation, added) && -limit <= added <= limit
            && (-limit <= Gained(cfg.agc.kwPerHz, deviation) <= limit ==>
                  added == Gained(cfg.agc.kwPerHz, deviation))
            && (Gained(cfg.agc.kwPerHz, deviation) > limit ==> added == limit)
            && (Gained(cfg.agc.kwPerHz, deviation) < -limit ==> added == -limit)
  {
    hide Cycle, RunReactiveLoop, CycleSeconds, Controls, RunActiveLoop, Gained;
    var unknown := input.(frequencyHz := None);
    assert Controls(cfg, unknown) by {
      SameControl(cfg, input, unknown);
    }
    LoopsAreReported(cfg, libm, memory, input);
    LoopsAreReported(cfg, libm, memory, unknown);
    Gain(cfg.agc.kwPerHz, cfg.agc.nominalHz - input.frequencyHz.value);
    DroopIsAdded(cfg, memory, input, CycleSeconds(cfg, memory.lastCycleMs, input.nowMs));
  }

  lemma SameControl(cfg: Config, input: CycleInput, other: CycleInput)
    requires other == input.(frequencyHz := other.frequencyHz)
    ensures Controls(cfg, input) == Controls(cfg, other)
  {
  }

  lemma DroopIsAdded(cfg: Config, memory: Memory, input: CycleInput, dtSec: real)
    requires cfg.agc.enabled && cfg.agc.frequencyDroopEnabled && input.frequencyHz.Some?
    ensures var droop := Gained(cfg.agc.kwPerHz, cfg.agc.nominalHz - input.frequencyHz.value);
            RunActiveLoop(cfg, memory, input, dtSec).requestedP
            == RunActiveLoop(cfg, memory, input.(frequencyHz := None), dtSec).requestedP
              + ClampValue(droop, -Abs(cfg.agc.droopLimitKw), Abs(cfg.agc.droopLimitKw))
  {
    hide Gained, ClampValue;
  }

  // ----- the reactive loop -----

  /** The reactive loop calculates anew: for the first time, or when its own cycle is over. */
  predicate Calculates(cfg: Config, memory: Memory, input: CycleInput) {
    && cfg.avc.enabled
    && (memory.lastAvcCalculationMs <= 0
        || (input.nowMs - memory.lastAvcCalculationMs >= cfg.cycleMs
            && input.nowMs - memory.lastAvcCalculationMs >= cfg.avcCycleMs))
  }

  /** Between its calculations the reactive loop holds the last request; what it calculates is what it holds next. */
  lemma ReactiveRequestIsHeld(cfg: Config, libm: Libm, memory: Memory, input: CycleInput)
    requires |memory.pcs| == |cfg.pcs| && Controls(cfg, input) && cfg.avc.enabled
    ensures var (after, output) := Cycle(cfg, libm, memory, input);
            && after.heldRawQkvar == output.rawTarget.q && after.lastAvcError == output.avcError
            && (if Calculates(cfg, memory, input) then after.lastAvcCalculationMs == input.nowMs
                else output.rawTarget.q == memory.heldRawQkvar && output.avcError == memory.lastAvcError
                     && after.lastAvcCalculationMs == memory.lastAvcCalculationMs
                     && after.integralQ == memory.integralQ && after.integralV == memory.integralV)
  {
    hide Cycle, CalculateReactive;
    LoopsAreReported(cfg, libm, memory, input);
  }

  /** When it calculates for reactive power, it corrects the commanded amount by the measured one. */
  lemma ReactiveFollowsError(cfg: Config, libm: Libm, memory: Memory, input: CycleInput)
    requires |memory.pcs| == |cfg.pcs| && Controls(cfg, input) && Calculates(cfg, memory, input) && cfg.cycleMs > 0
    requires AvcMode(cfg, input) !in ["voltage", "powerFactor"]
    requires cfg.avc.integralMinKvar <= memory.integralQ <= cfg.avc.integralMaxKvar
    ensures var (after, output) := Cycle(cfg, libm, memory, input);
            var e, dtSec := output.avcError, AvcSeconds(cfg, memory.lastAvcCalculationMs, input.nowMs);
            && IsError(input.command.targetQkvar, input.pccReactivePowerKvar, cfg.avc.deadbandKvar, e)
            && Integrates(memory.integralQ, after.integralQ, e, dtSec, cfg.avc.integralMinKvar, cfg.avc.integralMaxKvar)
            && Along(e, after.integralQ - memory.integralQ) && after.integralV == memory.integralV
            && Corrects(cfg.avc.kpQ, cfg.avc.kiQ, e, memory.integralQ, output.rawTarget.q - input.command.targetQkvar)
  {
    hide Cycle, ClampValue, Integrates, AvcSeconds, Gained, RampOver, Corrects, RunActiveLoop, AvcMode;
    LoopsAreReported(cfg, libm, memory, input);
    AvcClock(cfg, memory, input);
    var dtSec := AvcSeconds(cfg, memory.lastAvcCalculationMs, input.nowMs);
    var loop := RunReactiveLoop(cfg, libm, memory, input);
    var integral := loop.memory.integralQ;
    IntegralMoves(memory.integralQ, integral, loop.error, dtSec, cfg.avc.integralMinKvar, cfg.avc.integralMaxKvar);
    PartsCorrect(cfg.avc.kpQ, cfg.avc.kiQ, loop.error, memory.integralQ, integral);
  }

  /** When it calculates for voltage, it corrects the station's last reactive power by the measured voltage. */
  lemma VoltageFollowsError(cfg: Config, libm: Libm, memory: Memory, input: CycleInput)
    requires |memory.pcs| == |cfg.pcs| && Controls(cfg, input) && Calculates(cfg, memory, input) && cfg.cycleMs > 0
    requires AvcMode(cfg, input) == "voltage"
    requires cfg.avc.integralMinKvar <= memory.integralV <= cfg.avc.integralMaxKvar
    ensures var (after, output) := Cycle(cfg, libm, memory, input);
            var e, dtSec := output.avcError, AvcSeconds(cfg, memory.lastAvcCalculationMs, input.nowMs);
            && IsError(input.command.targetVoltageV, input.pccVoltageV, cfg.avc.voltageDeadbandV, e)
            && Integrates(memory.integralV, after.integralV, e, dtSec, cfg.avc.integralMinKvar, cfg.avc.integralMaxKvar)
            && Along(e, after.integralV - memory.integralV) && after.integralQ == memory.integralQ
            && Corrects(cfg.avc.kpV, cfg.avc.kiV, e, memory.integralV, output.rawTarget.q - memory.previous.q)
  {
    hide Cycle, ClampValue, Integrates, AvcSeconds, Gained, RampOver, Corrects, RunActiveLoop, AvcMode;
    LoopsAreReported(cfg, libm, memory, input);
    AvcClock(cfg, memory, input);
    var dtSec := AvcSeconds(cfg, memory.lastAvcCalculationMs, input.nowMs);
    var loop := RunReactiveLoop(cfg, libm, memory, input);
    var integral := loop.memory.integralV;
    IntegralMoves(memory.integralV, integral, loop.error, dtSec, cfg.avc.integralMinKvar, cfg.avc.integralMaxKvar);
    PartsCorrect(cfg.avc.kpV, cfg.avc.kiV, loop.error, memory.integralV, integral);
  }

  /** When it calculates for a power factor, the request is the measured active power times the tangent of the factor's
      angle, with the factor's sign; no integral moves. */
  lemma PowerFactorRequest(cfg: Config, libm: Libm, memory: Memory, input: CycleInput) returns (pf: real)
    requires |memory.pcs| == |cfg.pcs| && Controls(cfg, input) && Calculates(cfg, memory, input)
    requires AvcMode(cfg, input) == "powerFactor"
    ensures var (after, output) := Cycle(cfg, libm, memory, input);
            var target := input.command.targetPowerFactor;
            && 0.01 <= pf <= 1.0 && (0.01 <= Abs(target) <= 1.0 ==> pf == Abs(target))
            && Abs(output.rawTarget.q) == Abs(Gained(Abs(input.pccActivePowerKw), libm.tanAcos(pf)))
            && (if target < 0.0 then output.rawTarget.q <= 0.0 else output.rawTarget.q >= 0.0)
            && output.avcError == target - input.pccPowerFactor
            && after.integralQ == memory.integralQ && after.integralV == memory.integralV
  {
    hide Cycle, Gained, RunActiveLoop, AvcMode;
    LoopsAreReported(cfg, libm, memory, input);
    pf := ClampValue(Abs(input.command.targetPowerFactor), 0.01, 1.0);
  }

  lemma AvcClock(cfg: Config, memory: Memory, input: CycleInput)
    requires cfg.cycleMs > 0
    ensures AvcSeconds(cfg, memory.lastAvcCalculationMs, input.nowMs) > 0.0
  {
  }
}
