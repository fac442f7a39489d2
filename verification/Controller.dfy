/** The controller object: its methods update the memory in place, cycle by cycle. */
module Controller {
  import opened Results
  import opened Reals
  import opened PowerLimits
  import opened ControllerTypes
  import opened Allocation
  import opened MinimumPower
  import opened ControlLaw

  class AgcAvcController {
    const cfg: Config
    const libm: Libm
    var lastCycleMs: int
    var lastAvcCalculationMs: int
    var integralP: real
    var integralQ: real
    var integralV: real
    var previous: Power
    var heldRawQkvar: real
    var lastAvcError: real
    var previousPcs: seq<Power>

    ghost predicate Valid()
      reads this
    {
      |previousPcs| == |cfg.pcs|
    }

    function State(): Memory
      reads this
    {
      Memory(lastCycleMs, lastAvcCalculationMs, integralP, integralQ, integralV, previous, heldRawQkvar,
             lastAvcError, previousPcs)
    }

    constructor (cfg: Config, libm: Libm)
      ensures this.cfg == cfg && this.libm == libm
      ensures Valid() && State() == Initial(cfg)
    {
      this.cfg, this.libm := cfg, libm;
      lastCycleMs, lastAvcCalculationMs := 0, 0;
      integralP, integralQ, integralV := 0.0, 0.0, 0.0;
      previous, heldRawQkvar, lastAvcError := ZERO, 0.0, 0.0;
      previousPcs := seq(|cfg.pcs|, i => ZERO);
    }

    method Reset()
      modifies this
      ensures Valid() && State() == Initial(cfg)
    {
      lastCycleMs, lastAvcCalculationMs := 0, 0;
      integralP, integralQ, integralV := 0.0, 0.0, 0.0;
      previous, heldRawQkvar, lastAvcError := ZERO, 0.0, 0.0;
      previousPcs := seq(|cfg.pcs|, i => ZERO);
    }

    /** Every cycle does to the memory, and answers, what the control law says. */
    method Step(input: CycleInput) returns (output: CycleOutput)
      requires Valid()
      modifies this
      ensures Valid()
      ensures (State(), output) == Cycle(cfg, libm, old(State()), input)
    {
      hide ZeroingCycle, PausedCycle, ControlCycle;
      var dtSec := CycleSeconds(cfg, lastCycleMs, input.nowMs);
      if !cfg.enabled {
        Reset();
        lastCycleMs := input.nowMs;
        return Blank(input, Disabled);
      }
      if !input.inputHealthy || input.emergencyStop || input.fireAlarm || !input.remoteEnable {
        output := SetZeroAssignments(input, dtSec, true);
        return;
      }
      if input.priorityBlocked {
        output := FollowMeasurements(input);
        return;
      }
      if !CommandFresh(cfg, input) {
        output := SetZeroAssignments(input, dtSec, false);
        return;
      }
      output := FollowCommand(input, dtSec);
    }

    method SetZeroAssignments(input: CycleInput, dtSec: real, immediate: bool) returns (output: CycleOutput)
      requires Valid()
      modifies this
      ensures Valid()
      ensures (State(), output) == ZeroingCycle(cfg, old(State()), input, dtSec, immediate)
    {
      hide ZeroedAll, ZeroAssignments, Total;
      lastCycleMs := input.nowMs;
      integralP, integralQ, integralV := 0.0, 0.0, 0.0;
      var assignments, total := ZeroTargets(dtSec, immediate);
      previous := total;
      var state :=
        if immediate then Failsafe
        else if Abs(total.p) > 0.000001 || Abs(total.q) > 0.000001 then RampToZero else Standby;
      output := Blank(input, state).(effectiveTarget := total, pcs := assignments);
    }

    method ZeroTargets(dtSec: real, immediate: bool) returns (assignments: seq<Assignment>, total: Power)
      requires Valid()
      modifies `previousPcs
      ensures Valid()
      ensures previousPcs == ZeroedAll(cfg, old(previousPcs), dtSec, immediate)
      ensures total == Total(previousPcs) && assignments == ZeroAssignments(cfg, previousPcs)
    {
      hide Total, RateLimit;
      ghost var targets := ZeroedAll(cfg, previousPcs, dtSec, immediate);
      assignments, total := [], ZERO;
      TotalEmpty(targets);
      for i := 0 to |cfg.pcs|
        invariant |previousPcs| == |cfg.pcs| && |assignments| == i
        invariant total == Total(targets[..i])
        invariant forall j :: 0 <= j < i ==> previousPcs[j] == targets[j]
        invariant forall j :: i <= j < |cfg.pcs| ==> previousPcs[j] == old(previousPcs)[j]
        invariant forall j :: 0 <= j < i ==> assignments[j] == ZeroAssignments(cfg, targets)[j]
      {
        var pcs := cfg.pcs[i];
        var target :=
          if immediate then ZERO
          else Power(RateLimit(previousPcs[i].p, 0.0, pcs.riseKwPerSec, pcs.fallKwPerSec, dtSec),
                     RateLimit(previousPcs[i].q, 0.0, pcs.riseKvarPerSec, pcs.fallKvarPerSec, dtSec));
        previousPcs := previousPcs[i := target];
        TotalStep(targets, i);
        total := Power(total.p + target.p, total.q + target.q);
        assignments := assignments + [Assignment(pcs.meterCode, pcs.enabled, target, 0.0, 0.0, 0.0)];
      }
      assert targets == previousPcs;
    }

    method FollowMeasurements(input: CycleInput) returns (output: CycleOutput)
      requires Valid()
      modifies this
      ensures Valid()
      ensures (State(), output) == PausedCycle(cfg, old(State()), input)
    {
      lastCycleMs := input.nowMs;
      integralP, integralQ, integralV := 0.0, 0.0, 0.0;
      var actual := ZERO;
      for i := 0 to |cfg.pcs|
        modifies `previousPcs
        invariant |previousPcs| == |cfg.pcs|
        invariant actual == MeasuredTotal(input, i)
        invariant forall j :: 0 <= j < i ==> previousPcs[j] == Followed(input, old(previousPcs))[j]
        invariant forall j :: i <= j < |cfg.pcs| ==> previousPcs[j] == old(previousPcs)[j]
      {
        if i < |input.pcs| && input.pcs[i].inputHealthy {
          previousPcs := previousPcs[i := Power(input.pcs[i].actualPkw, input.pcs[i].actualQkvar)];
          actual := Power(actual.p + input.pcs[i].actualPkw, actual.q + input.pcs[i].actualQkvar);
        }
      }
      assert previousPcs == Followed(input, old(previousPcs));
      previous := actual;
      output := Blank(input, PausedByPriority);
    }

    method FollowCommand(input: CycleInput, dtSec: real) returns (output: CycleOutput)
      requires Valid()
      modifies this
      ensures Valid()
      ensures (State(), output) == ControlCycle(cfg, libm, old(State()), input, dtSec)
    {
      hide RunActiveLoop, RunReactiveLoop, StationRequest, Capabilities, Targets, Assignments, Shares, Sum, Total,
        PCapacities, QCapacities, Blank, Short;
      var agc := RunActiveLoop(cfg, State(), input, dtSec);
      var avc := RunReactiveLoop(cfg, libm, State(), input);
      integralP := agc.integralP;
      integralQ, integralV := avc.memory.integralQ, avc.memory.integralV;
      heldRawQkvar, lastAvcError := avc.memory.heldRawQkvar, avc.memory.lastAvcError;
      lastAvcCalculationMs := avc.memory.lastAvcCalculationMs;
      lastCycleMs := input.nowMs;

      var raw := Power(agc.requestedP, avc.requestedQ);
      var requested := StationRequest(cfg, libm, previous, raw, dtSec);
      var c, available := CollectCapabilities(input, requested.p);
      var shares := ShareOut(c, requested);
      var assignments, delivered := ApplyTargets(c, shares, dtSec);
      previous := delivered;
      var unserved := Power(requested.p - delivered.p, requested.q - delivered.q);
      output := Blank(input, if Short(cfg, unserved) then Degraded else Active).(
        rawTarget := raw, effectiveTarget := delivered, agcErrorKw := agc.error, avcError := avc.error,
        available := available, unserved := unserved, pcs := assignments);
    }

    method CollectCapabilities(input: CycleInput, requestedP: real) returns (c: seq<Capability>, available: Power)
      ensures |c| == |cfg.pcs| && c == Capabilities(cfg, input, requestedP)
      ensures available == Power(Sum(PCapacities(c)), Sum(QCapacities(c)))
    {
      hide PcsCapability, Sum;
      ghost var all := Capabilities(cfg, input, requestedP);
      ghost var p, q := PCapacities(all), QCapacities(all);
      c, available := [], ZERO;
      SumZeros(p[..0]);
      SumZeros(q[..0]);
      for i := 0 to |cfg.pcs|
        invariant c == all[..i]
        invariant available == Power(Sum(p[..i]), Sum(q[..i]))
      {
        var runtime := if i < |input.pcs| then Some(input.pcs[i]) else None;
        var capability := PcsCapability(cfg.pcs[i], runtime, requestedP);
        c := c + [capability];
        SumStep(p, i);
        SumStep(q, i);
        available := Power(available.p + capability.pCapacity, available.q + capability.qCapacity);
      }
      assert c == all && p[..|cfg.pcs|] == p && q[..|cfg.pcs|] == q;
    }

    /** Active power first, with the minimum stable power; reactive power in the room that is left. */
    method ShareOut(c: seq<Capability>, requested: Power) returns (shares: seq<Power>)
      ensures shares == Shares(libm, c, requested)
    {
      hide AllocatedWithMinimum, Allocated, Square;
      var weights := Weights(c);
      var p := AllocateWithMinimum(requested.p, PCapacities(c), PMinimums(c), weights);
      var qAfterP: seq<real> := [];
      for i := 0 to |c|
        invariant |qAfterP| == i
        invariant forall j :: 0 <= j < i ==> qAfterP[j] == QAfterP(libm, c, p)[j]
      {
        var room := libm.sqrt(Max(0.0, Square(c[i].ratedApparent) - Square(p[i])));
        qAfterP := qAfterP + [Min(c[i].qCapacity, room)];
      }
      assert qAfterP == QAfterP(libm, c, p);
      var q := AllocateByCapacity(requested.q, qAfterP, weights);
      shares := seq(|c|, i requires 0 <= i < |c| => Power(p[i], q[i]));
    }

    method ApplyTargets(c: seq<Capability>, shares: seq<Power>, dtSec: real)
      returns (assignments: seq<Assignment>, delivered: Power)
      requires Valid() && |c| == |shares| == |cfg.pcs|
      modifies `previousPcs
      ensures Valid()
      ensures previousPcs == Targets(cfg, libm, c, old(previousPcs), shares, dtSec)
      ensures delivered == Total(previousPcs) && assignments == Assignments(cfg, c, previousPcs)
    {
      hide Total, RateLimit, ApplyPqEnvelope;
      ghost var targets := Targets(cfg, libm, c, previousPcs, shares, dtSec);
      assignments, delivered := [], ZERO;
      TotalEmpty(targets);
      for i := 0 to |cfg.pcs|
        invariant |previousPcs| == |cfg.pcs| && |assignments| == i
        invariant delivered == Total(targets[..i])
        invariant forall j :: 0 <= j < i ==> previousPcs[j] == targets[j]
        invariant forall j :: i <= j < |cfg.pcs| ==> previousPcs[j] == old(previousPcs)[j]
        invariant forall j :: 0 <= j < i ==> assignments[j] == Assignments(cfg, c, targets)[j]
      {
        var pcs := cfg.pcs[i];
        TotalStep(targets, i);
        var target := ZERO;
        if c[i].available {
          var ramped := Power(
            RateLimit(previousPcs[i].p, shares[i].p, pcs.riseKwPerSec, pcs.fallKwPerSec, dtSec),
            RateLimit(previousPcs[i].q, shares[i].q, pcs.riseKvarPerSec, pcs.fallKvarPerSec, dtSec));
          target := ApplyPqEnvelope(libm, ramped, c[i].ratedApparent, cfg.pqPriority);
          delivered := Power(delivered.p + target.p, delivered.q + target.q);
        }
        previousPcs := previousPcs[i := target];
        assignments := assignments + [
          Assignment(pcs.meterCode, c[i].available, target, c[i].charge, c[i].discharge, c[i].reactive)];
      }
      assert targets == previousPcs;
    }
  }
}
