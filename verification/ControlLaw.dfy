/** The control law of one cycle: the functions that the controller evaluates, and the specification
    of a whole cycle as a function of configuration, memory and input. */
module ControlLaw {
  import opened Results
  import Integers
  import opened Reals
  import opened PowerLimits
  import opened ControllerTypes
  import opened Allocation
  import opened MinimumPower

  const ZERO := Power(0.0, 0.0)

  function Add(x: Power, y: Power): Power {
    Power(x.p + y.p, x.q + y.q)
  }

  function Total(s: seq<Power>): Power {
    if s == [] then ZERO else Add(Total(s[..|s| - 1]), s[|s| - 1])
  }

  lemma TotalStep(s: seq<Power>, i: nat)
    requires i < |s|
    ensures Total(s[..i + 1]) == Add(Total(s[..i]), s[i])
  {
    assert s[..i + 1][..i] == s[..i];
  }

  lemma TotalEmpty(s: seq<Power>)
    ensures Total(s[..0]) == ZERO && s[..|s|] == s
  {
  }

  function Initial(cfg: Config): (m: Memory) {
    Memory(0, 0, 0.0, 0.0, 0.0, ZERO, 0.0, 0.0, seq(|cfg.pcs|, i => ZERO))
  }

  function CycleSeconds(cfg: Config, lastCycleMs: int, nowMs: int): (dt: real)
    ensures dt > 0.0
  {
    if lastCycleMs > 0 && nowMs > lastCycleMs then (nowMs - lastCycleMs) as real / 1000.0
    else Integers.Max(1, cfg.cycleMs) as real / 1000.0
  }

  function CommandAgeMs(input: CycleInput): Option<int> {
    if input.command.issuedAtMs > 0 then Some(input.nowMs - input.command.issuedAtMs) else None
  }

  predicate CommandFresh(cfg: Config, input: CycleInput) {
    && input.command.sequence > 0
    && input.command.issuedAtMs > 0
    && -1000 <= input.nowMs - input.command.issuedAtMs <= cfg.commandTimeoutMs
  }

  // ----- zeroing -----

  /** One PCS's target when the controller lets power go: at once, or along its ramps. */
  function Zeroed(pcs: PcsConfig, previous: Power, dtSec: real, immediate: bool): Power {
    if immediate then ZERO
    else Power(RateLimit(previous.p, 0.0, pcs.riseKwPerSec, pcs.fallKwPerSec, dtSec),
               RateLimit(previous.q, 0.0, pcs.riseKvarPerSec, pcs.fallKvarPerSec, dtSec))
  }

  function ZeroedAll(cfg: Config, previous: seq<Power>, dtSec: real, immediate: bool): (r: seq<Power>)
    requires |previous| == |cfg.pcs|
  {
    seq(|cfg.pcs|, i requires 0 <= i < |cfg.pcs| => Zeroed(cfg.pcs[i], previous[i], dtSec, immediate))
  }

  function ZeroAssignments(cfg: Config, targets: seq<Power>): (r: seq<Assignment>)
    requires |targets| == |cfg.pcs|
  {
    seq(|cfg.pcs|, i requires 0 <= i < |cfg.pcs| =>
      Assignment(cfg.pcs[i].meterCode, cfg.pcs[i].enabled, targets[i], 0.0, 0.0, 0.0))
  }

  // ----- station request -----

  function Deadband(error: real, band: real): real {
    if Abs(error) <= Max(0.0, band) then 0.0 else error
  }

  function Gained(gain: real, x: real): real {
    gain * x
  }

  /** The power added or taken for the deviation of the frequency. */
  function Droop(agc: AgcLoop, frequencyHz: Option<real>): real {
    if agc.frequencyDroopEnabled && frequencyHz.Some?
    then ClampValue(Gained(agc.kwPerHz, agc.nominalHz - frequencyHz.value),
                    -Abs(agc.droopLimitKw), Abs(agc.droopLimitKw))
    else 0.0
  }

  datatype ActiveLoop = ActiveLoop(integralP: real, requestedP: real, error: real)

  function RunActiveLoop(cfg: Config, memory: Memory, input: CycleInput, dtSec: real): ActiveLoop {
    var agc := cfg.agc;
    if !agc.enabled then ActiveLoop(memory.integralP, 0.0, 0.0)
    else
      var error := Deadband(input.command.targetPkw - input.pccActivePowerKw, agc.deadbandKw);
      var integral := ClampValue(memory.integralP + RampOver(error, dtSec), agc.integralMinKw, agc.integralMaxKw);
      var requested := input.command.targetPkw + Gained(agc.kp, error) + Gained(agc.ki, integral);
      ActiveLoop(integral, requested + Droop(agc, input.frequencyHz), error)
  }

  /** The reactive loop's result: the memory with its own fields updated, the request and the error. */
  datatype ReactiveLoop = ReactiveLoop(memory: Memory, requestedQ: real, error: real)

  predicate AvcDue(cfg: Config, memory: Memory, nowMs: int) {
    || memory.lastAvcCalculationMs <= 0
    || nowMs - memory.lastAvcCalculationMs >= Integers.Max(cfg.cycleMs, cfg.avcCycleMs)
  }

  function RunReactiveLoop(cfg: Config, libm: Libm, memory: Memory, input: CycleInput): (r: ReactiveLoop)
    ensures r.memory.pcs == memory.pcs && r.memory.lastCycleMs == memory.lastCycleMs
    ensures r.memory.previous == memory.previous && r.memory.integralP == memory.integralP
  {
    var avc := cfg.avc;
    if !avc.enabled then ReactiveLoop(memory.(heldRawQkvar := 0.0, lastAvcError := 0.0), 0.0, 0.0)
    else if !AvcDue(cfg, memory, input.nowMs) then
      ReactiveLoop(memory, memory.heldRawQkvar, memory.lastAvcError)
    else
      var calculated := CalculateReactive(cfg, libm, memory, input);
      ReactiveLoop(
        calculated.memory.(heldRawQkvar := calculated.requestedQ, lastAvcError := calculated.error,
                           lastAvcCalculationMs := input.nowMs),
        calculated.requestedQ, calculated.error)
  }

  function AvcSeconds(cfg: Config, lastAvcCalculationMs: int, nowMs: int): real {
    if lastAvcCalculationMs > 0 && nowMs > lastAvcCalculationMs then (nowMs - lastAvcCalculationMs) as real / 1000.0
    else Integers.Max(cfg.cycleMs, cfg.avcCycleMs) as real / 1000.0
  }

  function AvcMode(cfg: Config, input: CycleInput): string {
    if input.command.avcMode == "" then cfg.avc.defaultMode else input.command.avcMode
  }

  function CalculateReactive(cfg: Config, libm: Libm, memory: Memory, input: CycleInput): (r: ReactiveLoop)
    ensures r.memory.(integralQ := memory.integralQ, integralV := memory.integralV) == memory
  {
    var avc := cfg.avc;
    var dtSec := AvcSeconds(cfg, memory.lastAvcCalculationMs, input.nowMs);
    var mode := AvcMode(cfg, input);
    if mode == "voltage" then
      var error := Deadband(input.command.targetVoltageV - input.pccVoltageV, avc.voltageDeadbandV);
      var integral := ClampValue(memory.integralV + RampOver(error, dtSec), avc.integralMinKvar, avc.integralMaxKvar);
      ReactiveLoop(memory.(integralV := integral),
                   memory.previous.q + Gained(avc.kpV, error) + Gained(avc.kiV, integral), error)
    else if mode == "powerFactor" then
      var pf := ClampValue(Abs(input.command.targetPowerFactor), 0.01, 1.0);
      var magnitude := Gained(Abs(input.pccActivePowerKw), libm.tanAcos(pf));
      ReactiveLoop(memory, CopySign(magnitude, input.command.targetPowerFactor),
                   input.command.targetPowerFactor - input.pccPowerFactor)
    else
      var error := Deadband(input.command.targetQkvar - input.pccReactivePowerKvar, avc.deadbandKvar);
      var integral := ClampValue(memory.integralQ + RampOver(error, dtSec), avc.integralMinKvar, avc.integralMaxKvar);
      ReactiveLoop(memory.(integralQ := integral),
                   input.command.targetQkvar + Gained(avc.kpQ, error) + Gained(avc.kiQ, integral), error)
  }

  function ApparentLimit(limits: StationLimits): real {
    var value := PositiveLimit(limits.ratedApparentPowerKva, limits.ratedActivePowerKw);
    if limits.transformerRatedKva > 0.0
    then (if value > 0.0 then Min(value, limits.transformerRatedKva) else limits.transformerRatedKva)
    else value
  }

  /** Station limits, station envelope, then the station ramps. */
  function StationRequest(cfg: Config, libm: Libm, previous: Power, raw: Power, dtSec: real): Power {
    var limits := cfg.stationLimits;
    var maxExport := PositiveLimit(limits.maxExportPowerKw, PositiveLimit(cfg.agc.maxKw, limits.ratedActivePowerKw));
    var maxImport := PositiveLimit(limits.maxImportPowerKw, PositiveLimit(-cfg.agc.minKw, limits.ratedActivePowerKw));
    var p := ClampValue(ClampValue(raw.p, -maxImport, maxExport), cfg.agc.minKw, cfg.agc.maxKw);
    var stationQ := PositiveLimit(limits.maxReactivePowerKvar, Max(Abs(cfg.avc.minKvar), Abs(cfg.avc.maxKvar)));
    var q := ClampValue(ClampValue(raw.q, -stationQ, stationQ), cfg.avc.minKvar, cfg.avc.maxKvar);
    var limited := ApplyPqEnvelope(libm, Power(p, q), ApparentLimit(limits), cfg.pqPriority);
    Power(RateLimit(previous.p, limited.p, cfg.agc.riseKwPerSec, cfg.agc.fallKwPerSec, dtSec),
          RateLimit(previous.q, limited.q, cfg.avc.riseKvarPerSec, cfg.avc.fallKvarPerSec, dtSec))
  }

  // ----- PCS capability -----

  datatype Capability = Capability(
    available: bool, charge: real, discharge: real, reactive: real,
    pCapacity: real, pMinimum: real, qCapacity: real, weight: real, ratedApparent: real)

  const UNAVAILABLE := Capability(false, 0.0, 0.0, 0.0, 0.0, 0.0, 0.0, 0.0, 0.0)

  predicate Available(pcs: PcsConfig, runtime: PcsInput) {
    pcs.enabled && runtime.inputHealthy && runtime.online && runtime.ready
  }

  function RatedPower(config: CapabilityConfig, collected: Option<real>): (r: real)
    ensures 0.0 <= r
  {
    EffectiveCapability(config, if collected.Some? then collected.value else 0.0, collected.Some?)
  }

  /** The static limit narrowed by the reported one, by permission and by the state of charge. */
  function SideLimit(pcs: PcsConfig, rated: real, maximum: real, reported: Option<real>, allowed: bool,
                     socFactor: real): real
  {
    var limit := Min(rated, PositiveLimit(maximum, rated));
    var narrowed :=
      if reported.Some? then Min(limit, Max(0.0, reported.value))
      else if !pcs.fallbackToStaticLimit && pcs.deviceType != "gridTieInverter" then 0.0
      else limit;
    (if allowed then narrowed else 0.0) * (if pcs.deviceType != "gridTieInverter" then socFactor else 1.0)
  }

  function EnvironmentalFactor(pcs: PcsConfig, runtime: PcsInput): (r: real)
    ensures 0.0 <= r <= 1.0
  {
    var thermal :=
      if runtime.temperatureC.Some?
      then Min(1.0, FallingDerateFactor(runtime.temperatureC.value, pcs.temperatureDerateStartC, pcs.temperatureStopC))
      else 1.0;
    if runtime.maxAcCurrentA.Some? && pcs.ratedAcCurrentA > 0.0 && pcs.currentDerateStartPercent > 0.0
       && pcs.currentStopPercent > 0.0
    then
      var percent := runtime.maxAcCurrentA.value * 100.0 / pcs.ratedAcCurrentA;
      Min(thermal, FallingDerateFactor(percent, pcs.currentDerateStartPercent, pcs.currentStopPercent))
    else thermal
  }

  function PcsCapability(pcs: PcsConfig, runtime: Option<PcsInput>, requestedP: real): (c: Capability)
    ensures c.available ==> runtime.Some? && Available(pcs, runtime.value)
    ensures c.available ==>
              c.ratedApparent == RatedPower(pcs.ratedApparentPowerKva, runtime.value.collectedRatedApparentKva)
    ensures !c.available ==> c == UNAVAILABLE
  {
    if runtime.None? || !Available(pcs, runtime.value) then UNAVAILABLE
    else
      var input := runtime.value;
      var ratedP := RatedPower(pcs.ratedActivePowerKw, input.collectedRatedActiveKw);
      var ratedS := RatedPower(pcs.ratedApparentPowerKva, input.collectedRatedApparentKva);
      var factor := EnvironmentalFactor(pcs, input);
      var discharge := factor * SideLimit(pcs, ratedP, pcs.maxDischargePowerKw, input.availableDischargeKw,
        input.dischargeAllowed,
        RisingDerateFactor(input.soc, pcs.socDischargeStopPercent, pcs.socDischargeDeratePercent));
      var charge := factor * SideLimit(pcs, ratedP, pcs.maxChargePowerKw, input.availableChargeKw,
        input.chargeAllowed,
        FallingDerateFactor(input.soc, pcs.socChargeDeratePercent, pcs.socChargeStopPercent));
      var rated := PositiveLimit(pcs.ratedReactivePowerKvar, ratedS);
      var reactive := factor * (if input.availableReactiveKvar.Some?
                                then Min(rated, Max(0.0, input.availableReactiveKvar.value)) else rated);
      var selectedP := if requestedP >= 0.0 then discharge else charge;
      Capability(true, charge, discharge, reactive, selectedP,
        if requestedP >= 0.0 then pcs.minStableDischargePowerKw else pcs.minStableChargePowerKw,
        Min(reactive, ratedS), Max(0.0, pcs.weight) * Max(selectedP, 1.0), ratedS)
  }

  function RuntimeOf(input: CycleInput, i: nat): Option<PcsInput> {
    if i < |input.pcs| then Some(input.pcs[i]) else None
  }

  function Capabilities(cfg: Config, input: CycleInput, requestedP: real): (r: seq<Capability>) {
    seq(|cfg.pcs|, i requires 0 <= i < |cfg.pcs| => PcsCapability(cfg.pcs[i], RuntimeOf(input, i), requestedP))
  }

  // ----- allocation to the fleet -----

  function PCapacities(c: seq<Capability>): (r: seq<real>) {
    seq(|c|, i requires 0 <= i < |c| => c[i].pCapacity)
  }

  function PMinimums(c: seq<Capability>): (r: seq<real>) {
    seq(|c|, i requires 0 <= i < |c| => c[i].pMinimum)
  }

  function Weights(c: seq<Capability>): (r: seq<real>) {
    seq(|c|, i requires 0 <= i < |c| => c[i].weight)
  }

  /** The reactive room that each PCS's active share leaves. */
  function QAfterP(libm: Libm, c: seq<Capability>, pAllocated: seq<real>): (r: seq<real>)
    requires |pAllocated| == |c|
  {
    seq(|c|, i requires 0 <= i < |c| =>
      Min(c[i].qCapacity, libm.sqrt(Max(0.0, Square(c[i].ratedApparent) - Square(pAllocated[i])))))
  }

  /** The fleet's shares of the station request. */
  function Shares(libm: Libm, c: seq<Capability>, requested: Power): (r: seq<Power>)
    ensures |r| == |c|
  {
    var p := AllocatedWithMinimum(requested.p, PCapacities(c), PMinimums(c), Weights(c));
    var q := Allocated(requested.q, QAfterP(libm, c, p), Weights(c));
    seq(|c|, i requires 0 <= i < |c| => Power(p[i], q[i]))
  }

  /** One PCS's target: its share, along its ramps, then inside its envelope. */
  function PcsTarget(cfg: Config, libm: Libm, pcs: PcsConfig, c: Capability, previous: Power, share: Power,
                     dtSec: real): Power
  {
    if !c.available then ZERO
    else
      var ramped := Power(
        RateLimit(previous.p, share.p, pcs.riseKwPerSec, pcs.fallKwPerSec, dtSec),
        RateLimit(previous.q, share.q, pcs.riseKvarPerSec, pcs.fallKvarPerSec, dtSec));
      ApplyPqEnvelope(libm, ramped, c.ratedApparent, cfg.pqPriority)
  }

  function Targets(cfg: Config, libm: Libm, c: seq<Capability>, previous: seq<Power>, shares: seq<Power>, dtSec: real)
    : (r: seq<Power>)
    requires |c| == |previous| == |shares| == |cfg.pcs|
  {
    seq(|c|, i requires 0 <= i < |c| => PcsTarget(cfg, libm, cfg.pcs[i], c[i], previous[i], shares[i], dtSec))
  }

  function Assignments(cfg: Config, c: seq<Capability>, targets: seq<Power>): (r: seq<Assignment>)
    requires |c| == |targets| == |cfg.pcs|
  {
    seq(|c|, i requires 0 <= i < |c| =>
      Assignment(cfg.pcs[i].meterCode, c[i].available, targets[i], c[i].charge, c[i].discharge, c[i].reactive))
  }

  // ----- one cycle -----

  function Blank(input: CycleInput, state: RuntimeState): CycleOutput {
    CycleOutput(state, input.command.sequence, CommandAgeMs(input), ZERO, ZERO, 0.0, 0.0, ZERO, ZERO, [])
  }

  /** Letting go of power: at once or along the ramps; the integrals are cleared. */
  function ZeroingCycle(cfg: Config, memory: Memory, input: CycleInput, dtSec: real, immediate: bool)
    : (r: (Memory, CycleOutput))
    requires |memory.pcs| == |cfg.pcs|
  {
    var targets := ZeroedAll(cfg, memory.pcs, dtSec, immediate);
    var total := Total(targets);
    var state :=
      if immediate then Failsafe
      else if Abs(total.p) > 0.000001 || Abs(total.q) > 0.000001 then RampToZero else Standby;
    (memory.(lastCycleMs := input.nowMs, integralP := 0.0, integralQ := 0.0, integralV := 0.0,
             previous := total, pcs := targets),
     Blank(input, state).(effectiveTarget := total, pcs := ZeroAssignments(cfg, targets)))
  }

  predicate MeasuredAt(input: CycleInput, i: nat) {
    i < |input.pcs| && input.pcs[i].inputHealthy
  }

  function Measured(input: CycleInput, i: nat): Power
    requires MeasuredAt(input, i)
  {
    Power(input.pcs[i].actualPkw, input.pcs[i].actualQkvar)
  }

  /** While another controller has priority, the memory follows the measured power. */
  function Followed(input: CycleInput, previous: seq<Power>): (r: seq<Power>) {
    seq(|previous|, i requires 0 <= i < |previous| => if MeasuredAt(input, i) then Measured(input, i) else previous[i])
  }

  function MeasuredTotal(input: CycleInput, n: nat): Power {
    if n == 0 then ZERO
    else if MeasuredAt(input, n - 1) then Add(MeasuredTotal(input, n - 1), Measured(input, n - 1))
    else MeasuredTotal(input, n - 1)
  }

  function PausedCycle(cfg: Config, memory: Memory, input: CycleInput): (r: (Memory, CycleOutput)) {
    (memory.(lastCycleMs := input.nowMs, integralP := 0.0, integralQ := 0.0, integralV := 0.0,
             previous := MeasuredTotal(input, |cfg.pcs|), pcs := Followed(input, memory.pcs)),
     Blank(input, PausedByPriority))
  }

  predicate Short(cfg: Config, unserved: Power) {
    || Abs(unserved.p) > Max(0.1, cfg.agc.deadbandKw)
    || Abs(unserved.q) > Max(0.1, cfg.avc.deadbandKvar)
  }

  /** Following the dispatch command. */
  function ControlCycle(cfg: Config, libm: Libm, memory: Memory, input: CycleInput, dtSec: real)
    : (r: (Memory, CycleOutput))
    requires |memory.pcs| == |cfg.pcs|
  {
    var agc := RunActiveLoop(cfg, memory, input, dtSec);
    var avc := RunReactiveLoop(cfg, libm, memory, input);
    var raw := Power(agc.requestedP, avc.requestedQ);
    var requested := StationRequest(cfg, libm, memory.previous, raw, dtSec);
    var c := Capabilities(cfg, input, requested.p);
    var targets := Targets(cfg, libm, c, memory.pcs, Shares(libm, c, requested), dtSec);
    var delivered := Total(targets);
    var unserved := Power(requested.p - delivered.p, requested.q - delivered.q);
    (avc.memory.(lastCycleMs := input.nowMs, integralP := agc.integralP, previous := delivered, pcs := targets),
     Blank(input, if Short(cfg, unserved) then Degraded else Active).(
       rawTarget := raw, effectiveTarget := delivered, agcErrorKw := agc.error, avcError := avc.error,
       available := Power(Sum(PCapacities(c)), Sum(QCapacities(c))), unserved := unserved,
       pcs := Assignments(cfg, c, targets)))
  }

  function QCapacities(c: seq<Capability>): (r: seq<real>) {
    seq(|c|, i requires 0 <= i < |c| => c[i].qCapacity)
  }

  predicate Unsafe(input: CycleInput) {
    !input.inputHealthy || input.emergencyStop || input.fireAlarm || !input.remoteEnable
  }

  function Cycle(cfg: Config, libm: Libm, memory: Memory, input: CycleInput): (r: (Memory, CycleOutput))
    requires |memory.pcs| == |cfg.pcs|
    ensures |r.0.pcs| == |cfg.pcs| && r.0.lastCycleMs == input.nowMs
  {
    var dtSec := CycleSeconds(cfg, memory.lastCycleMs, input.nowMs);
    if !cfg.enabled then (Initial(cfg).(lastCycleMs := input.nowMs), Blank(input, Disabled))
    else if Unsafe(input) then ZeroingCycle(cfg, memory, input, dtSec, true)
    else if input.priorityBlocked then PausedCycle(cfg, memory, input)
    else if !CommandFresh(cfg, input) then ZeroingCycle(cfg, memory, input, dtSec, false)
    else ControlCycle(cfg, libm, memory, input, dtSec)
  }
}
