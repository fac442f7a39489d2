/** What holds over every run of controller cycles. */
module ControllerRuns {
  import opened Results
  import opened Reals
  import opened PowerLimits
  import opened ControllerTypes
  import opened ControlLaw

  /** The memory after a run of cycles. */
  function After(cfg: Config, libm: Libm, memory: Memory, inputs: seq<CycleInput>): (r: Memory)
    requires |memory.pcs| == |cfg.pcs|
    ensures |r.pcs| == |cfg.pcs|
  {
    if inputs == [] then memory
    else Cycle(cfg, libm, After(cfg, libm, memory, inputs[..|inputs| - 1]), inputs[|inputs| - 1]).0
  }

  // ----- the apparent-power disc -----

  /** A rating that bounds the converter whatever a device reports. */
  predicate Bounding(config: CapabilityConfig) {
    config.commissionedLimit > 0.0 && (!config.hasSourcePoint || config.combinePolicy != "source")
  }

  /** The rating in force stays within the commissioned one for every reported value exactly when the
      configuration is bounding. */
  lemma RatingWithinCommissioned(config: CapabilityConfig)
    ensures Bounding(config) <==>
      forall collected: Option<real> ::
        0.0 < RatedPower(config, collected) <= config.commissionedLimit
  {
    if !Bounding(config) {
      var reported := Some(Max(0.0, config.commissionedLimit) + 1.0);
      assert !(0.0 < RatedPower(config, reported) <= config.commissionedLimit)
          || !(0.0 < RatedPower(config, None) <= config.commissionedLimit);
    }
  }

  predicate FleetBounding(cfg: Config) {
    forall i :: 0 <= i < |cfg.pcs| ==> Bounding(cfg.pcs[i].ratedApparentPowerKva)
  }

  function Radius(cfg: Config, i: nat): real
    requires i < |cfg.pcs|
  {
    cfg.pcs[i].ratedApparentPowerKva.commissionedLimit
  }

  predicate FleetInDisc(cfg: Config, powers: seq<Power>) {
    && |powers| <= |cfg.pcs|
    && forall i :: 0 <= i < |powers| ==> InDisc(powers[i], Radius(cfg, i))
  }

  predicate EmittedInDisc(cfg: Config, output: CycleOutput) {
    && |output.pcs| <= |cfg.pcs|
    && forall i :: 0 <= i < |output.pcs| ==> InDisc(output.pcs[i].target, Radius(cfg, i))
  }

  /** The cycle pauses for another controller; a disabled or unsafe one does not get that far. */
  predicate Pauses(cfg: Config, input: CycleInput) {
    cfg.enabled && !Unsafe(input) && input.priorityBlocked
  }

  /** In a cycle that pauses the measured power lies in the disc. */
  predicate MeasuredInDisc(cfg: Config, input: CycleInput) {
    Pauses(cfg, input) ==>
      forall i :: 0 <= i < |cfg.pcs| && MeasuredAt(input, i) ==> InDisc(Measured(input, i), Radius(cfg, i))
  }

  lemma OriginInDisc(s: real)
    ensures InDisc(ZERO, s)
  {
  }

  lemma TargetInDisc(cfg: Config, libm: Libm, i: nat, input: CycleInput, requestedP: real, previous: Power,
                     share: Power, dtSec: real)
    requires libm.Valid() && FleetBounding(cfg) && i < |cfg.pcs|
    ensures var c := PcsCapability(cfg.pcs[i], RuntimeOf(input, i), requestedP);
            InDisc(PcsTarget(cfg, libm, cfg.pcs[i], c, previous, share, dtSec), Radius(cfg, i))
  {
    hide Square, RateLimit, ApplyPqEnvelope;
    var pcs := cfg.pcs[i];
    var c := PcsCapability(pcs, RuntimeOf(input, i), requestedP);
    OriginInDisc(Radius(cfg, i));
    if c.available {
      RatingWithinCommissioned(pcs.ratedApparentPowerKva);
      var ramped := Power(
        RateLimit(previous.p, share.p, pcs.riseKwPerSec, pcs.fallKwPerSec, dtSec),
        RateLimit(previous.q, share.q, pcs.riseKvarPerSec, pcs.fallKvarPerSec, dtSec));
      EnvelopeShrinksIntoDisc(libm, ramped, c.ratedApparent, cfg.pqPriority);
      var r := ApplyPqEnvelope(libm, ramped, c.ratedApparent, cfg.pqPriority);
      DiscMonotone(r, r, c.ratedApparent, Radius(cfg, i));
    }
  }

  lemma ZeroedInDisc(pcs: PcsConfig, previous: Power, dtSec: real, immediate: bool, s: real)
    requires InDisc(previous, s) && 0.0 <= s
    ensures InDisc(Zeroed(pcs, previous, dtSec, immediate), s)
  {
    DiscMonotone(previous, Zeroed(pcs, previous, dtSec, immediate), s, s);
  }

  /** Every cycle, in every state, keeps remembered and emitted power in the commissioned disc. */
  lemma CycleStaysInDisc(cfg: Config, libm: Libm, memory: Memory, input: CycleInput)
    requires libm.Valid() && FleetBounding(cfg) && MeasuredInDisc(cfg, input)
    requires |memory.pcs| == |cfg.pcs| && FleetInDisc(cfg, memory.pcs)
    ensures FleetInDisc(cfg, Cycle(cfg, libm, memory, input).0.pcs)
    ensures EmittedInDisc(cfg, Cycle(cfg, libm, memory, input).1)
  {
    hide Square, PcsCapability, PcsTarget, Zeroed, RunActiveLoop, RunReactiveLoop, StationRequest, Total, Sum, Shares,
      MeasuredTotal;
    var dtSec := CycleSeconds(cfg, memory.lastCycleMs, input.nowMs);
    forall i | 0 <= i < |cfg.pcs|
      ensures InDisc(Cycle(cfg, libm, memory, input).0.pcs[i], Radius(cfg, i))
    {
      assert Bounding(cfg.pcs[i].ratedApparentPowerKva);
      OriginInDisc(Radius(cfg, i));
      if cfg.enabled && (Unsafe(input) || !input.priorityBlocked) {
        if Unsafe(input) || !CommandFresh(cfg, input) {
          ZeroedInDisc(cfg.pcs[i], memory.pcs[i], dtSec, Unsafe(input), Radius(cfg, i));
        } else {
          ControlledInDisc(cfg, libm, memory, input, dtSec, i);
        }
      }
    }
    EmitsRemembered(cfg, libm, memory, input);
  }

  /** And nothing less will do: a pause with measured power outside the disc leaves it. */
  lemma MeasuredMustBeInDisc(cfg: Config, libm: Libm, memory: Memory, input: CycleInput)
    requires |memory.pcs| == |cfg.pcs| && FleetInDisc(cfg, Cycle(cfg, libm, memory, input).0.pcs)
    ensures MeasuredInDisc(cfg, input)
  {
    hide InDisc, ControlCycle, ZeroingCycle, MeasuredTotal;
    if Pauses(cfg, input) {
      var after := Cycle(cfg, libm, memory, input).0.pcs;
      forall i | 0 <= i < |cfg.pcs| && MeasuredAt(input, i)
        ensures InDisc(Measured(input, i), Radius(cfg, i))
      {
        assert after[i] == Measured(input, i);
      }
    }
  }

  lemma ControlledInDisc(cfg: Config, libm: Libm, memory: Memory, input: CycleInput, dtSec: real, i: nat)
    requires libm.Valid() && FleetBounding(cfg) && |memory.pcs| == |cfg.pcs| && i < |cfg.pcs|
    ensures InDisc(ControlCycle(cfg, libm, memory, input, dtSec).0.pcs[i], Radius(cfg, i))
  {
    hide Square, PcsCapability, PcsTarget, RunActiveLoop, RunReactiveLoop, StationRequest, Total, Sum, Shares;
    var raw := Power(RunActiveLoop(cfg, memory, input, dtSec).requestedP,
                     RunReactiveLoop(cfg, libm, memory, input).requestedQ);
    var requested := StationRequest(cfg, libm, memory.previous, raw, dtSec);
    var c := Capabilities(cfg, input, requested.p);
    var shares := Shares(libm, c, requested);
    TargetInDisc(cfg, libm, i, input, requested.p, memory.pcs[i], shares[i], dtSec);
  }

  /** What a cycle emits for a PCS is what it remembers for it. */
  lemma EmitsRemembered(cfg: Config, libm: Libm, memory: Memory, input: CycleInput)
    requires |memory.pcs| == |cfg.pcs|
    ensures var (after, output) := Cycle(cfg, libm, memory, input);
            output.pcs == [] ||
              (|output.pcs| == |cfg.pcs|
               && forall i :: 0 <= i < |cfg.pcs| ==> output.pcs[i].target == after.pcs[i])
  {
    hide PcsCapability, PcsTarget, Zeroed, RunActiveLoop, RunReactiveLoop, StationRequest, Total, Sum, Shares,
      MeasuredTotal;
  }

  /** What the last cycle of a run emits. */
  function Emitted(cfg: Config, libm: Libm, memory: Memory, inputs: seq<CycleInput>): (r: CycleOutput)
    requires |memory.pcs| == |cfg.pcs| && inputs != []
  {
    Cycle(cfg, libm, After(cfg, libm, memory, inputs[..|inputs| - 1]), inputs[|inputs| - 1]).1
  }

  /** Over every run from start-up (so at the end of every prefix of a run too), the remembered and
      the emitted power of every PCS lies in its commissioned apparent-power disc. */
  lemma {:induction false} RunStaysInDisc(cfg: Config, libm: Libm, inputs: seq<CycleInput>)
    requires libm.Valid() && FleetBounding(cfg)
    requires forall k :: 0 <= k < |inputs| ==> MeasuredInDisc(cfg, inputs[k])
    ensures FleetInDisc(cfg, After(cfg, libm, Initial(cfg), inputs).pcs)
    ensures inputs != [] ==> EmittedInDisc(cfg, Emitted(cfg, libm, Initial(cfg), inputs))
  {
    hide Cycle, InDisc;
    if inputs == [] {
      forall i | 0 <= i < |cfg.pcs| {
        OriginInDisc(Radius(cfg, i));
      }
    } else {
      var n := |inputs| - 1;
      RunStaysInDisc(cfg, libm, inputs[..n]);
      CycleStaysInDisc(cfg, libm, After(cfg, libm, Initial(cfg), inputs[..n]), inputs[n]);
    }
  }

  // ----- loss of dispatch -----

  /** A cycle that neither follows a command nor pauses for another controller. */
  predicate Undirected(cfg: Config, input: CycleInput) {
    !cfg.enabled || Unsafe(input) || (!input.priorityBlocked && !CommandFresh(cfg, input))
  }

  /** No ramp of the PCS is slower than `rate`. */
  predicate RampsAtLeast(pcs: PcsConfig, rate: real) {
    rate <= pcs.riseKwPerSec && rate <= pcs.fallKwPerSec && rate <= pcs.riseKvarPerSec && rate <= pcs.fallKvarPerSec
  }

  /** `r` is `x` brought towards zero by at least `amount`, or all the way. */
  predicate RampedDown(x: real, r: real, amount: real) {
    Shrunk(x, r) && (r == 0.0 || Abs(r) <= Abs(x) - amount)
  }

  lemma UndirectedCycle(cfg: Config, libm: Libm, memory: Memory, input: CycleInput, i: nat, rate: real)
    requires |memory.pcs| == |cfg.pcs| && i < |cfg.pcs|
    requires Undirected(cfg, input) && RampsAtLeast(cfg.pcs[i], rate)
    ensures var amount := RampOver(rate, CycleSeconds(cfg, memory.lastCycleMs, input.nowMs));
            var before, after := memory.pcs[i], Cycle(cfg, libm, memory, input).0.pcs[i];
            RampedDown(before.p, after.p, amount) && RampedDown(before.q, after.q, amount)
  {
    hide RateLimit, Total, RampOver, CycleSeconds;
    var dtSec := CycleSeconds(cfg, memory.lastCycleMs, input.nowMs);
    var pcs := cfg.pcs[i];
    RateLimitToZero(memory.pcs[i].p, pcs.riseKwPerSec, pcs.fallKwPerSec, dtSec, rate);
    RateLimitToZero(memory.pcs[i].q, pcs.riseKvarPerSec, pcs.fallKvarPerSec, dtSec, rate);
  }

  /** The time the controller's own clock measures over a run. */
  function Elapsed(cfg: Config, lastCycleMs: int, inputs: seq<CycleInput>): (t: real)
    ensures t >= 0.0
  {
    if inputs == [] then 0.0
    else
      var n := |inputs| - 1;
      var last := if n == 0 then lastCycleMs else inputs[n - 1].nowMs;
      Elapsed(cfg, lastCycleMs, inputs[..n]) + CycleSeconds(cfg, last, inputs[n].nowMs)
  }

  /** With increasing cycle times, the measured time is the wall-clock time. */
  lemma {:induction false} ElapsedIsWallClock(cfg: Config, lastCycleMs: int, inputs: seq<CycleInput>)
    requires inputs != [] && 0 < lastCycleMs < inputs[0].nowMs
    requires forall k :: 0 < k < |inputs| ==> inputs[k - 1].nowMs < inputs[k].nowMs
    ensures inputs[|inputs| - 1].nowMs > lastCycleMs
    ensures Elapsed(cfg, lastCycleMs, inputs) == (inputs[|inputs| - 1].nowMs - lastCycleMs) as real / 1000.0
  {
    var n := |inputs| - 1;
    if n > 0 {
      ElapsedIsWallClock(cfg, lastCycleMs, inputs[..n]);
    }
  }

  lemma {:induction false} RunClock(cfg: Config, libm: Libm, memory: Memory, inputs: seq<CycleInput>)
    requires |memory.pcs| == |cfg.pcs| && inputs != []
    ensures After(cfg, libm, memory, inputs).lastCycleMs == inputs[|inputs| - 1].nowMs
  {
    hide Cycle;
  }

  lemma RampedFurther(x: real, y: real, z: real, a: real, b: real)
    requires RampedDown(x, y, a) && RampedDown(y, z, b)
    ensures RampedDown(x, z, a + b)
  {
  }

  /** Loss of dispatch: over every run of undirected cycles, from any memory, each PCS's |P| and |Q|
      never grow and never change sign, fall at least by the slowest ramp times the elapsed time, and
      so are exactly zero once that covers the start value; started from zero they stay zero. */
  lemma {:induction false} UndirectedRunRampsToZero(cfg: Config, libm: Libm, memory: Memory, inputs: seq<CycleInput>,
                                                    i: nat, rate: real)
    requires |memory.pcs| == |cfg.pcs| && i < |cfg.pcs| && RampsAtLeast(cfg.pcs[i], rate)
    requires forall k :: 0 <= k < |inputs| ==> Undirected(cfg, inputs[k])
    ensures var covered := RampOver(rate, Elapsed(cfg, memory.lastCycleMs, inputs));
            var before, after := memory.pcs[i], After(cfg, libm, memory, inputs).pcs[i];
            && RampedDown(before.p, after.p, covered) && RampedDown(before.q, after.q, covered)
            && (Abs(before.p) <= covered ==> after.p == 0.0)
            && (Abs(before.q) <= covered ==> after.q == 0.0)
  {
    hide Cycle, CycleSeconds, Undirected, RampOver;
    if inputs == [] {
      RampOverSum(rate, 0.0, 0.0);
    } else {
      var n := |inputs| - 1;
      var middle := After(cfg, libm, memory, inputs[..n]);
      UndirectedRunRampsToZero(cfg, libm, memory, inputs[..n], i, rate);
      if n > 0 {
        RunClock(cfg, libm, memory, inputs[..n]);
      }
      UndirectedCycle(cfg, libm, middle, inputs[n], i, rate);
      var elapsed := Elapsed(cfg, memory.lastCycleMs, inputs[..n]);
      var seconds := CycleSeconds(cfg, middle.lastCycleMs, inputs[n].nowMs);
      RampOverSum(rate, elapsed, seconds);
      var after := After(cfg, libm, memory, inputs).pcs[i];
      RampedFurther(memory.pcs[i].p, middle.pcs[i].p, after.p, RampOver(rate, elapsed), RampOver(rate, seconds));
      RampedFurther(memory.pcs[i].q, middle.pcs[i].q, after.q, RampOver(rate, elapsed), RampOver(rate, seconds));
    }
  }
}
