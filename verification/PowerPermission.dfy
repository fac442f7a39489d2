/** What a converter may be asked to do: its power grows only in a direction that is permitted, and within every limit
    that applies; and what it is reported to be capable of. */
module PowerPermission {
  import opened Results
  import opened Reals
  import opened PowerLimits
  import opened ControllerTypes
  import opened ControlLaw
  import opened Allocation
  import opened MinimumPower
  import opened ControllerRuns

  predicate IsBattery(pcs: PcsConfig) {
    pcs.deviceType != "gridTieInverter"
  }

  /** The converter is there and ready. */
  predicate Ready(cfg: Config, input: CycleInput, i: nat)
    requires i < |cfg.pcs|
  {
    && i < |input.pcs| && cfg.pcs[i].enabled
    && input.pcs[i].inputHealthy && input.pcs[i].online && input.pcs[i].ready
  }

  /** It is neither too hot nor overloaded. */
  predicate NotStopped(pcs: PcsConfig, r: PcsInput) {
    && (r.temperatureC.Some? && pcs.temperatureDerateStartC < pcs.temperatureStopC ==>
          r.temperatureC.value < pcs.temperatureStopC)
    && (r.maxAcCurrentA.Some? && pcs.ratedAcCurrentA > 0.0
        && 0.0 < pcs.currentDerateStartPercent < pcs.currentStopPercent ==>
          r.maxAcCurrentA.value * 100.0 / pcs.ratedAcCurrentA < pcs.currentStopPercent)
  }

  /** Nothing of the static limit is taken away by temperature or current. */
  predicate NotDerated(pcs: PcsConfig, r: PcsInput) {
    && (r.temperatureC.Some? ==> r.temperatureC.value <= pcs.temperatureDerateStartC)
    && (r.maxAcCurrentA.Some? && pcs.ratedAcCurrentA > 0.0 ==>
          r.maxAcCurrentA.value * 100.0 / pcs.ratedAcCurrentA <= pcs.currentDerateStartPercent)
  }

  /** An amount of power within what is configured, commissioned and reported for one side. */
  predicate WithinLimits(pcs: PcsConfig, maximum: real, reported: Option<real>, amount: real) {
    && (maximum > 0.0 ==> amount <= maximum)
    && (pcs.ratedActivePowerKw.commissionedLimit > 0.0 && pcs.ratedActivePowerKw.combinePolicy != "source" ==>
          amount <= pcs.ratedActivePowerKw.commissionedLimit)
    && (reported.Some? ==> amount <= reported.value)
    && (reported.None? ==> pcs.fallbackToStaticLimit || !IsBattery(pcs))
  }

  predicate MayDischarge(pcs: PcsConfig, r: PcsInput, amount: real) {
    && r.dischargeAllowed && NotStopped(pcs, r)
    && WithinLimits(pcs, pcs.maxDischargePowerKw, r.availableDischargeKw, amount)
    && (IsBattery(pcs) && pcs.socDischargeStopPercent < pcs.socDischargeDeratePercent ==>
          r.soc > pcs.socDischargeStopPercent)
  }

  predicate MayCharge(pcs: PcsConfig, r: PcsInput, amount: real) {
    && r.chargeAllowed && NotStopped(pcs, r)
    && WithinLimits(pcs, pcs.maxChargePowerKw, r.availableChargeKw, amount)
    && (IsBattery(pcs) && pcs.socChargeDeratePercent < pcs.socChargeStopPercent ==>
          r.soc < pcs.socChargeStopPercent)
  }

  /** An amount of reactive power, of either sign, within what is configured, commissioned and reported. */
  predicate MayReact(pcs: PcsConfig, r: PcsInput, amount: real) {
    && NotStopped(pcs, r)
    && (pcs.ratedReactivePowerKvar > 0.0 ==> amount <= pcs.ratedReactivePowerKvar)
    && (r.availableReactiveKvar.Some? ==> amount <= r.availableReactiveKvar.value)
    && (pcs.ratedApparentPowerKva.commissionedLimit > 0.0 && pcs.ratedApparentPowerKva.combinePolicy != "source" ==>
          amount <= pcs.ratedApparentPowerKva.commissionedLimit)
  }

  // ----- capability -----

  lemma FactorAtMost(factor: real, x: real, product: real)
    requires 0.0 <= factor <= 1.0 && product == factor * x && product > 0.0
    ensures factor > 0.0 && 0.0 < product <= x
  {
    assert factor != 0.0 && x > 0.0;
    var slack := (1.0 - factor) * x;
    assert slack == x - product;
  }

  lemma FactorsAtMost(f: real, x: real, g: real, amount: real)
    requires 0.0 <= f <= 1.0 && 0.0 <= g <= 1.0 && amount == f * (x * g) && amount > 0.0
    ensures f > 0.0 && g > 0.0 && x > 0.0 && amount <= x
  {
    var y := x * g;
    FactorAtMost(f, y, amount);
    FactorAtMost(g, x, y);
  }

  lemma EnvironmentStops(pcs: PcsConfig, r: PcsInput)
    ensures EnvironmentalFactor(pcs, r) > 0.0 ==> NotStopped(pcs, r)
  {
    hide FallingDerateFactor;
  }

  lemma EnvironmentFree(pcs: PcsConfig, r: PcsInput)
    requires NotDerated(pcs, r)
    ensures EnvironmentalFactor(pcs, r) == 1.0
  {
    hide FallingDerateFactor;
  }

  /** One side's limit, derated: if there is anything of it, every condition for it is met. */
  lemma SideIsPermitted(pcs: PcsConfig, collected: Option<real>, maximum: real, reported: Option<real>, allowed: bool,
                        socFactor: real, factor: real, amount: real)
    requires 0.0 <= factor <= 1.0 && 0.0 <= socFactor <= 1.0 && amount > 0.0
    requires amount == factor * SideLimit(pcs, RatedPower(pcs.ratedActivePowerKw, collected), maximum, reported,
                                          allowed, socFactor)
    ensures factor > 0.0 && allowed && (IsBattery(pcs) ==> socFactor > 0.0)
    ensures WithinLimits(pcs, maximum, reported, amount)
  {
    hide WithinLimits, RatedPower;
    var rated := RatedPower(pcs.ratedActivePowerKw, collected);
    var permitted := if allowed then Narrowed(pcs, rated, maximum, reported) else 0.0;
    var g := if IsBattery(pcs) then socFactor else 1.0;
    FactorsAtMost(factor, permitted, g, amount);
    NarrowedIsWithin(pcs, collected, maximum, reported, amount);
  }

  /** The static limit, narrowed by the reported one. */
  function Narrowed(pcs: PcsConfig, rated: real, maximum: real, reported: Option<real>): real {
    var limit := Min(rated, PositiveLimit(maximum, rated));
    if reported.Some? then Min(limit, Max(0.0, reported.value))
    else if !pcs.fallbackToStaticLimit && IsBattery(pcs) then 0.0
    else limit
  }

  lemma NarrowedIsWithin(pcs: PcsConfig, collected: Option<real>, maximum: real, reported: Option<real>, amount: real)
    requires 0.0 < amount <= Narrowed(pcs, RatedPower(pcs.ratedActivePowerKw, collected), maximum, reported)
    ensures WithinLimits(pcs, maximum, reported, amount)
  {
  }

  lemma DischargeIsPermitted(pcs: PcsConfig, r: PcsInput, requestedP: real)
    requires PcsCapability(pcs, Some(r), requestedP).discharge > 0.0
    ensures MayDischarge(pcs, r, PcsCapability(pcs, Some(r), requestedP).discharge)
  {
    hide SideLimit, RatedPower, EnvironmentalFactor, RisingDerateFactor, FallingDerateFactor, NotStopped, WithinLimits,
      PositiveLimit;
    EnvironmentStops(pcs, r);
    SideIsPermitted(pcs, r.collectedRatedActiveKw, pcs.maxDischargePowerKw, r.availableDischargeKw, r.dischargeAllowed,
                    RisingDerateFactor(r.soc, pcs.socDischargeStopPercent, pcs.socDischargeDeratePercent),
                    EnvironmentalFactor(pcs, r), PcsCapability(pcs, Some(r), requestedP).discharge);
  }

  lemma ChargeIsPermitted(pcs: PcsConfig, r: PcsInput, requestedP: real)
    requires PcsCapability(pcs, Some(r), requestedP).charge > 0.0
    ensures MayCharge(pcs, r, PcsCapability(pcs, Some(r), requestedP).charge)
  {
    hide SideLimit, RatedPower, EnvironmentalFactor, RisingDerateFactor, FallingDerateFactor, NotStopped, WithinLimits,
      PositiveLimit;
    EnvironmentStops(pcs, r);
    SideIsPermitted(pcs, r.collectedRatedActiveKw, pcs.maxChargePowerKw, r.availableChargeKw, r.chargeAllowed,
                    FallingDerateFactor(r.soc, pcs.socChargeDeratePercent, pcs.socChargeStopPercent),
                    EnvironmentalFactor(pcs, r), PcsCapability(pcs, Some(r), requestedP).charge);
  }

  lemma ReactiveIsPermitted(pcs: PcsConfig, r: PcsInput, requestedP: real, amount: real)
    requires 0.0 < amount <= PcsCapability(pcs, Some(r), requestedP).qCapacity
    ensures MayReact(pcs, r, amount)
  {
    hide SideLimit, EffectiveCapability, EnvironmentalFactor, RisingDerateFactor, FallingDerateFactor, NotStopped;
    EnvironmentStops(pcs, r);
    var ratedS := RatedPower(pcs.ratedApparentPowerKva, r.collectedRatedApparentKva);
    var rated := PositiveLimit(pcs.ratedReactivePowerKvar, ratedS);
    var room := if r.availableReactiveKvar.Some? then Min(rated, Max(0.0, r.availableReactiveKvar.value)) else rated;
    var factor := EnvironmentalFactor(pcs, r);
    var reactive := PcsCapability(pcs, Some(r), requestedP).reactive;
    assert reactive == factor * room;
    FactorAtMost(factor, room, reactive);
  }

  /** Anything within the limits of an unhindered side is on offer. */
  lemma SideIsWhole(pcs: PcsConfig, rated: real, maximum: real, reported: Option<real>, socFactor: real, amount: real)
    requires 0.0 <= amount <= rated && (maximum > 0.0 ==> amount <= maximum) && (IsBattery(pcs) ==> socFactor == 1.0)
    requires reported.Some? ==> amount <= reported.value
    requires reported.None? ==> pcs.fallbackToStaticLimit || !IsBattery(pcs)
    ensures SideLimit(pcs, rated, maximum, reported, true, socFactor) >= amount
  {
  }

  /** A converter offers all that the limits of its side leave, if nothing derates it. */
  lemma CapabilityIsWhole(pcs: PcsConfig, r: PcsInput, requestedP: real, amount: real)
    requires Available(pcs, r) && NotDerated(pcs, r)
    requires 0.0 <= amount <= RatedPower(pcs.ratedActivePowerKw, r.collectedRatedActiveKw)
    ensures r.dischargeAllowed && WithinLimits(pcs, pcs.maxDischargePowerKw, r.availableDischargeKw, amount)
            && (IsBattery(pcs) ==> r.soc >= pcs.socDischargeDeratePercent) ==>
              PcsCapability(pcs, Some(r), requestedP).discharge >= amount
    ensures r.chargeAllowed && WithinLimits(pcs, pcs.maxChargePowerKw, r.availableChargeKw, amount)
            && (IsBattery(pcs) ==> r.soc <= pcs.socChargeDeratePercent) ==>
              PcsCapability(pcs, Some(r), requestedP).charge >= amount
  {
    hide RatedPower, EnvironmentalFactor, RisingDerateFactor, FallingDerateFactor, NotDerated, SideLimit;
    EnvironmentFree(pcs, r);
    var rated := RatedPower(pcs.ratedActivePowerKw, r.collectedRatedActiveKw);
    if r.dischargeAllowed && WithinLimits(pcs, pcs.maxDischargePowerKw, r.availableDischargeKw, amount)
       && (IsBattery(pcs) ==> r.soc >= pcs.socDischargeDeratePercent) {
      var soc := RisingDerateFactor(r.soc, pcs.socDischargeStopPercent, pcs.socDischargeDeratePercent);
      SideIsWhole(pcs, rated, pcs.maxDischargePowerKw, r.availableDischargeKw, soc, amount);
    }
    if r.chargeAllowed && WithinLimits(pcs, pcs.maxChargePowerKw, r.availableChargeKw, amount)
       && (IsBattery(pcs) ==> r.soc <= pcs.socChargeDeratePercent) {
      var soc := FallingDerateFactor(r.soc, pcs.socChargeDeratePercent, pcs.socChargeStopPercent);
      SideIsWhole(pcs, rated, pcs.maxChargePowerKw, r.availableChargeKw, soc, amount);
    }
  }

  // ----- growth of power -----

  /** A step away from zero is within the ramps. */
  predicate RampedOut(before: real, after: real, risePerSec: real, fallPerSec: real, dtSec: real) {
    && (after > Max(0.0, before) ==> after <= before + RampOver(Max(0.0, risePerSec), dtSec))
    && (after < Min(0.0, before) ==> after >= before - RampOver(Max(0.0, fallPerSec), dtSec))
  }

  /** A converter's target goes no further than its share and its ramps. */
  lemma TargetGrowth(cfg: Config, libm: Libm, pcs: PcsConfig, c: Capability, previous: Power, share: Power, dtSec: real)
    requires libm.Valid() && dtSec > 0.0
    ensures var t := PcsTarget(cfg, libm, pcs, c, previous, share, dtSec);
            && (t.p > Max(0.0, previous.p) ==> c.available && t.p <= share.p)
            && (t.p < Min(0.0, previous.p) ==> c.available && share.p <= t.p)
            && (t.q > Max(0.0, previous.q) ==> c.available && t.q <= share.q)
            && (t.q < Min(0.0, previous.q) ==> c.available && share.q <= t.q)
            && RampedOut(previous.p, t.p, pcs.riseKwPerSec, pcs.fallKwPerSec, dtSec)
            && RampedOut(previous.q, t.q, pcs.riseKvarPerSec, pcs.fallKvarPerSec, dtSec)
  {
    hide RateLimit, ApplyPqEnvelope, Libm.Valid, InDisc, RampOver;
    if c.available {
      var ramped := Power(
        RateLimit(previous.p, share.p, pcs.riseKwPerSec, pcs.fallKwPerSec, dtSec),
        RateLimit(previous.q, share.q, pcs.riseKvarPerSec, pcs.fallKvarPerSec, dtSec));
      EnvelopeShrinksIntoDisc(libm, ramped, c.ratedApparent, cfg.pqPriority);
    }
  }

  /** A share has the direction of the request and is within the capacity. */
  lemma ShareSide(libm: Libm, c: seq<Capability>, requested: Power, i: nat)
    requires i < |c|
    ensures var share := Shares(libm, c, requested)[i];
            && (share.p > 0.0 ==> requested.p >= 0.0 && share.p <= c[i].pCapacity)
            && (share.p < 0.0 ==> requested.p < 0.0 && -share.p <= c[i].pCapacity)
            && (share.q != 0.0 ==> Abs(share.q) <= c[i].qCapacity)
            && (share.q > 0.0 ==> requested.q >= 0.0) && (share.q < 0.0 ==> requested.q < 0.0)
  {
    hide AllocatedWithMinimum, Allocated, EndsAfter, SomeTakenOut;
    var p := AllocatedWithMinimum(requested.p, PCapacities(c), PMinimums(c), Weights(c));
    var _, _ := MinimumsRespected(requested.p, PCapacities(c), PMinimums(c), Weights(c));
    ShareWithinCapacity(requested.q, QAfterP(libm, c, p), Weights(c));
  }

  lemma LessIsPermitted(pcs: PcsConfig, r: PcsInput, more: real, less: real)
    requires less <= more
    ensures MayDischarge(pcs, r, more) ==> MayDischarge(pcs, r, less)
    ensures MayCharge(pcs, r, more) ==> MayCharge(pcs, r, less)
  {
    hide NotStopped;
  }

  lemma ControlledGrowth(cfg: Config, libm: Libm, memory: Memory, input: CycleInput, dtSec: real, i: nat)
    requires libm.Valid() && dtSec > 0.0 && |memory.pcs| == |cfg.pcs| && i < |cfg.pcs|
    ensures Grown(cfg, input, i, memory.pcs[i], ControlCycle(cfg, libm, memory, input, dtSec).0.pcs[i], dtSec)
  {
    hide Libm.Valid, PcsTarget, RunActiveLoop, RunReactiveLoop, StationRequest, Shares, Total, Sum, Short,
      MayDischarge, MayCharge, MayReact, Assignments;
    var raw := Power(RunActiveLoop(cfg, memory, input, dtSec).requestedP,
                     RunReactiveLoop(cfg, libm, memory, input).requestedQ);
    var requested := StationRequest(cfg, libm, memory.previous, raw, dtSec);
    var c := Capabilities(cfg, input, requested.p);
    var share := Shares(libm, c, requested)[i];
    var after := ControlCycle(cfg, libm, memory, input, dtSec).0.pcs[i];
    ShareSide(libm, c, requested, i);
    TargetGrowth(cfg, libm, cfg.pcs[i], c[i], memory.pcs[i], share, dtSec);
    ShareIsPermitted(cfg, input, requested.p, i, share, after);
  }

  lemma ShareIsPermitted(cfg: Config, input: CycleInput, requestedP: real, i: nat, share: Power, amount: Power)
    requires i < |cfg.pcs|
    ensures var c := PcsCapability(cfg.pcs[i], RuntimeOf(input, i), requestedP);
            && (c.available ==> Ready(cfg, input, i))
            && (c.available && 0.0 < amount.p <= share.p <= c.pCapacity && requestedP >= 0.0 ==>
                  MayDischarge(cfg.pcs[i], input.pcs[i], amount.p))
            && (c.available && 0.0 < -amount.p <= -share.p <= c.pCapacity && requestedP < 0.0 ==>
                  MayCharge(cfg.pcs[i], input.pcs[i], -amount.p))
            && (c.available && 0.0 < Abs(amount.q) <= Abs(share.q) <= c.qCapacity ==>
                  MayReact(cfg.pcs[i], input.pcs[i], Abs(amount.q)))
  {
    hide MayDischarge, MayCharge, MayReact, SideLimit, RatedPower, EnvironmentalFactor, RisingDerateFactor,
      FallingDerateFactor;
    var pcs, c := cfg.pcs[i], PcsCapability(cfg.pcs[i], RuntimeOf(input, i), requestedP);
    if c.available {
      var r := input.pcs[i];
      if 0.0 < amount.p <= share.p <= c.pCapacity && requestedP >= 0.0 {
        DischargeIsPermitted(pcs, r, requestedP);
        LessIsPermitted(pcs, r, c.discharge, amount.p);
      } else if 0.0 < -amount.p <= -share.p <= c.pCapacity && requestedP < 0.0 {
        ChargeIsPermitted(pcs, r, requestedP);
        LessIsPermitted(pcs, r, c.charge, -amount.p);
      }
      if 0.0 < Abs(amount.q) <= Abs(share.q) <= c.qCapacity {
        ReactiveIsPermitted(pcs, r, requestedP, Abs(amount.q));
      }
    }
  }

  /** Where a converter's power has grown beyond zero and beyond what it was, it is permitted and within its ramps. */
  predicate Grown(cfg: Config, input: CycleInput, i: nat, before: Power, after: Power, dtSec: real)
    requires i < |cfg.pcs|
  {
    var pcs := cfg.pcs[i];
    && RampedOut(before.p, after.p, pcs.riseKwPerSec, pcs.fallKwPerSec, dtSec)
    && RampedOut(before.q, after.q, pcs.riseKvarPerSec, pcs.fallKvarPerSec, dtSec)
    && (after.p > Max(0.0, before.p) ==> Ready(cfg, input, i) && MayDischarge(cfg.pcs[i], input.pcs[i], after.p))
    && (after.p < Min(0.0, before.p) ==> Ready(cfg, input, i) && MayCharge(cfg.pcs[i], input.pcs[i], -after.p))
    && (after.q > Max(0.0, before.q) || after.q < Min(0.0, before.q) ==>
          Ready(cfg, input, i) && MayReact(cfg.pcs[i], input.pcs[i], Abs(after.q)))
  }

  /** In every cycle, of whatever kind, that does not pause for another controller: a converter's power grows beyond
      zero and beyond what it was only in a direction that its device permits, that its state of charge and its
      temperature leave open, within what is configured, commissioned and reported, and by no more than its ramps. */
  lemma PowerGrowsWithPermission(cfg: Config, libm: Libm, memory: Memory, input: CycleInput, i: nat)
    requires libm.Valid() && |memory.pcs| == |cfg.pcs| && i < |cfg.pcs| && !Pauses(cfg, input)
    ensures Grown(cfg, input, i, memory.pcs[i], Cycle(cfg, libm, memory, input).0.pcs[i],
                  CycleSeconds(cfg, memory.lastCycleMs, input.nowMs))
  {
    hide Libm.Valid, ControlCycle, MayDischarge, MayCharge, MayReact, Ready, Total, RateLimit, CycleSeconds, RampOver;
    ControlledGrowth(cfg, libm, memory, input, CycleSeconds(cfg, memory.lastCycleMs, input.nowMs), i);
  }
}
