/** Whether the command arrives: the station's request stays within limits and ramps, and with enough capability the
    fleet delivers it, so that the delivered power is the commanded one. */
module CommandTracking {
  import opened Results
  import opened Reals
  import opened PowerLimits
  import opened ControllerTypes
  import opened ControlLaw
  import opened ControllerRuns
  import opened ControlLoops
  import opened PowerPermission
  import opened Allocation
  import opened MinimumPower
  import WaterFilling

  // ----- the station's request -----

  /** The request is held between these bounds in the direction away from zero. */
  predicate Held(before: real, requested: real, raw: real, low: real, high: real, maxDown: real, maxUp: real) {
    && (requested > Max(0.0, before) ==>
          requested <= raw && requested <= high && (maxUp > 0.0 ==> requested <= maxUp))
    && (requested < Min(0.0, before) ==>
          requested >= raw && requested >= low && (maxDown > 0.0 ==> -requested <= maxDown))
  }

  predicate Ramped(before: real, requested: real, risePerSec: real, fallPerSec: real, dtSec: real) {
    before - RampOver(Max(0.0, fallPerSec), dtSec) <= requested <= before + RampOver(Max(0.0, risePerSec), dtSec)
  }

  /** Clamped twice: to the station's side limits, and to the loop's range. */
  lemma ClampedTwice(raw: real, low: real, high: real, down: real, up: real)
    requires low <= 0.0 <= high && 0.0 <= down && 0.0 <= up
    ensures var r := ClampValue(ClampValue(raw, -down, up), low, high);
            && low <= r <= high && -down <= r <= up && Shrunk(raw, r)
            && (low <= raw <= high && -down <= raw <= up ==> r == raw)
  {
  }

  lemma LimitedIsHeld(before: real, requested: real, limited: real, clamped: real, raw: real, low: real, high: real,
                      down: real, up: real)
    requires Min(before, limited) <= requested <= Max(before, limited)
    requires Shrunk(clamped, limited) && low <= clamped <= high && -down <= clamped <= up && Shrunk(raw, clamped)
    ensures Held(before, requested, raw, low, high, down, up)
  {
  }

  /** The static reactive limit of the station. */
  function StationQ(cfg: Config): (r: real)
    ensures r >= 0.0
  {
    PositiveLimit(cfg.stationLimits.maxReactivePowerKvar, Max(Abs(cfg.avc.minKvar), Abs(cfg.avc.maxKvar)))
  }

  function StationExport(cfg: Config): (r: real)
    ensures r >= 0.0
    ensures cfg.stationLimits.maxExportPowerKw > 0.0 ==> r == cfg.stationLimits.maxExportPowerKw
    ensures cfg.stationLimits.maxExportPowerKw <= 0.0 && cfg.agc.maxKw > 0.0 ==> r == cfg.agc.maxKw
  {
    var limits := cfg.stationLimits;
    PositiveLimit(limits.maxExportPowerKw, PositiveLimit(cfg.agc.maxKw, limits.ratedActivePowerKw))
  }

  function StationImport(cfg: Config): (r: real)
    ensures r >= 0.0
    ensures cfg.stationLimits.maxImportPowerKw > 0.0 ==> r == cfg.stationLimits.maxImportPowerKw
    ensures cfg.stationLimits.maxImportPowerKw <= 0.0 && cfg.agc.minKw < 0.0 ==> r == -cfg.agc.minKw
  {
    var limits := cfg.stationLimits;
    PositiveLimit(limits.maxImportPowerKw, PositiveLimit(-cfg.agc.minKw, limits.ratedActivePowerKw))
  }

  /** The ranges of both loops contain zero. */
  predicate RangesHaveZero(cfg: Config) {
    cfg.agc.minKw <= 0.0 <= cfg.agc.maxKw && cfg.avc.minKvar <= 0.0 <= cfg.avc.maxKvar
  }

  ghost predicate RequestHeld(cfg: Config, previous: Power, requested: Power, raw: Power, dtSec: real) {
    && Held(previous.p, requested.p, raw.p, cfg.agc.minKw, cfg.agc.maxKw, cfg.stationLimits.maxImportPowerKw,
            cfg.stationLimits.maxExportPowerKw)
    && Held(previous.q, requested.q, raw.q, cfg.avc.minKvar, cfg.avc.maxKvar, cfg.stationLimits.maxReactivePowerKvar,
            cfg.stationLimits.maxReactivePowerKvar)
    && Ramped(previous.p, requested.p, cfg.agc.riseKwPerSec, cfg.agc.fallKwPerSec, dtSec)
    && Ramped(previous.q, requested.q, cfg.avc.riseKvarPerSec, cfg.avc.fallKvarPerSec, dtSec)
  }

  lemma StationHolds(cfg: Config, libm: Libm, previous: Power, raw: Power, dtSec: real)
    requires libm.Valid() && dtSec > 0.0 && RangesHaveZero(cfg)
    ensures RequestHeld(cfg, previous, StationRequest(cfg, libm, previous, raw, dtSec), raw, dtSec)
  {
    hide Libm.Valid, ApplyPqEnvelope, RateLimit, ClampValue, PositiveLimit, InDisc, Square, ApparentLimit, RampOver;
    var limits := cfg.stationLimits;
    var p := ClampValue(ClampValue(raw.p, -StationImport(cfg), StationExport(cfg)), cfg.agc.minKw, cfg.agc.maxKw);
    var q := ClampValue(ClampValue(raw.q, -StationQ(cfg), StationQ(cfg)), cfg.avc.minKvar, cfg.avc.maxKvar);
    ClampedTwice(raw.p, cfg.agc.minKw, cfg.agc.maxKw, StationImport(cfg), StationExport(cfg));
    ClampedTwice(raw.q, cfg.avc.minKvar, cfg.avc.maxKvar, StationQ(cfg), StationQ(cfg));
    EnvelopeShrinksIntoDisc(libm, Power(p, q), ApparentLimit(limits), cfg.pqPriority);
    var limited := ApplyPqEnvelope(libm, Power(p, q), ApparentLimit(limits), cfg.pqPriority);
    var requested := StationRequest(cfg, libm, previous, raw, dtSec);
    LimitedIsHeld(previous.p, requested.p, limited.p, p, raw.p, cfg.agc.minKw, cfg.agc.maxKw, StationImport(cfg),
                  StationExport(cfg));
    LimitedIsHeld(previous.q, requested.q, limited.q, q, raw.q, cfg.avc.minKvar, cfg.avc.maxKvar, StationQ(cfg),
                  StationQ(cfg));
    StationQIs(cfg);
  }

  lemma StationQIs(cfg: Config)
    ensures cfg.stationLimits.maxReactivePowerKvar > 0.0 ==> StationQ(cfg) == cfg.stationLimits.maxReactivePowerKvar
  {
  }

  /** What a controlling cycle asks of the fleet moves from what was delivered last at the station's ramps, and grows
      only towards the raw request and within the ranges of the loops and the limits of the station. */
  lemma RequestStaysInStation(cfg: Config, libm: Libm, memory: Memory, input: CycleInput)
    requires libm.Valid() && |memory.pcs| == |cfg.pcs| && Controls(cfg, input) && RangesHaveZero(cfg)
    ensures var output := Cycle(cfg, libm, memory, input).1;
            RequestHeld(cfg, memory.previous, Requested(output), output.rawTarget,
                        CycleSeconds(cfg, memory.lastCycleMs, input.nowMs))
  {
    hide Libm.Valid, Cycle, RequestHeld, RangesHaveZero;
    var dtSec := CycleSeconds(cfg, memory.lastCycleMs, input.nowMs);
    RequestIs(cfg, libm, memory, input);
    StationHolds(cfg, libm, memory.previous, Cycle(cfg, libm, memory, input).1.rawTarget, dtSec);
  }

  lemma RequestIs(cfg: Config, libm: Libm, memory: Memory, input: CycleInput)
    requires |memory.pcs| == |cfg.pcs| && Controls(cfg, input)
    ensures var output := Cycle(cfg, libm, memory, input).1;
            Requested(output) == StationRequest(cfg, libm, memory.previous, output.rawTarget,
                                                CycleSeconds(cfg, memory.lastCycleMs, input.nowMs))
  {
    hide PcsTarget, RunActiveLoop, RunReactiveLoop, StationRequest, Sum, Shares, Total, PcsCapability, CycleSeconds,
      Short, Capabilities, ControlLaw.Targets, Assignments;
  }

  /** Where the ramps take the request: to a power in the station's disc, at once if they reach. */
  lemma StationGoal(cfg: Config, libm: Libm, previous: Power, raw: Power, dtSec: real) returns (goal: Power)
    requires libm.Valid() && dtSec > 0.0
    ensures cfg.stationLimits.ratedApparentPowerKva > 0.0 ==> InDisc(goal, cfg.stationLimits.ratedApparentPowerKva)
    ensures cfg.stationLimits.transformerRatedKva > 0.0 ==> InDisc(goal, cfg.stationLimits.transformerRatedKva)
    ensures var r, agc, avc := StationRequest(cfg, libm, previous, raw, dtSec), cfg.agc, cfg.avc;
            && Min(previous.p, goal.p) <= r.p <= Max(previous.p, goal.p)
            && Min(previous.q, goal.q) <= r.q <= Max(previous.q, goal.q)
            && (Reachable(previous.p, goal.p, agc.riseKwPerSec, agc.fallKwPerSec, dtSec) ==> r.p == goal.p)
            && (Reachable(previous.q, goal.q, avc.riseKvarPerSec, avc.fallKvarPerSec, dtSec) ==> r.q == goal.q)
    ensures StationAllows(cfg, raw.p) && ActiveFirst(cfg) ==> goal.p == raw.p
  {
    hide Libm.Valid, RateLimit, PositiveLimit, InDisc, Square, RampOver, ClampValue, Reachable, StationAllows,
      ApplyPqEnvelope, ActiveFirst;
    var p := ClampValue(ClampValue(raw.p, -StationImport(cfg), StationExport(cfg)), cfg.agc.minKw, cfg.agc.maxKw);
    var q := ClampValue(ClampValue(raw.q, -StationQ(cfg), StationQ(cfg)), cfg.avc.minKvar, cfg.avc.maxKvar);
    var s := ApparentLimit(cfg.stationLimits);
    goal := ApplyPqEnvelope(libm, Power(p, q), s, cfg.pqPriority);
    EnvelopeShrinksIntoDisc(libm, Power(p, q), s, cfg.pqPriority);
    ApparentBounds(cfg.stationLimits);
    if cfg.stationLimits.ratedApparentPowerKva > 0.0 {
      DiscMonotone(goal, goal, s, cfg.stationLimits.ratedApparentPowerKva);
    }
    if cfg.stationLimits.transformerRatedKva > 0.0 {
      DiscMonotone(goal, goal, s, cfg.stationLimits.transformerRatedKva);
    }
    if StationAllows(cfg, raw.p) && ActiveFirst(cfg) {
      AllowedIsKept(cfg, raw.p);
      ActiveIsKept(cfg, libm, Power(p, q), s);
    }
  }

  lemma ApparentBounds(limits: StationLimits)
    ensures var s := ApparentLimit(limits);
            && (limits.ratedApparentPowerKva > 0.0 ==> 0.0 < s <= limits.ratedApparentPowerKva)
            && (limits.transformerRatedKva > 0.0 ==> 0.0 < s <= limits.transformerRatedKva)
  {
  }

  /** Neither reactive power nor the proportion has priority. */
  predicate ActiveFirst(cfg: Config) {
    cfg.pqPriority != "reactivePowerFirst" && cfg.pqPriority != "proportional"
  }

  /** The power lies within every limit of the station that is set. */
  predicate StationAllows(cfg: Config, x: real) {
    var limits := cfg.stationLimits;
    && cfg.agc.minKw <= x <= cfg.agc.maxKw
    && (limits.maxExportPowerKw > 0.0 ==> x <= limits.maxExportPowerKw)
    && (limits.maxImportPowerKw > 0.0 ==> -x <= limits.maxImportPowerKw)
    && (limits.transformerRatedKva > 0.0 ==> Abs(x) <= limits.transformerRatedKva)
    && (limits.ratedApparentPowerKva > 0.0 ==> Abs(x) <= limits.ratedApparentPowerKva)
    && (limits.ratedApparentPowerKva <= 0.0 && limits.ratedActivePowerKw > 0.0 ==> Abs(x) <= limits.ratedActivePowerKw)
  }

  lemma AllowedIsKept(cfg: Config, x: real)
    requires StationAllows(cfg, x)
    ensures ClampValue(ClampValue(x, -StationImport(cfg), StationExport(cfg)), cfg.agc.minKw, cfg.agc.maxKw) == x
    ensures ApparentLimit(cfg.stationLimits) > 0.0 ==> Abs(x) <= ApparentLimit(cfg.stationLimits)
  {
  }

  /** With active power first the envelope keeps what is within the rating. */
  lemma ActiveIsKept(cfg: Config, libm: Libm, power: Power, s: real)
    requires ActiveFirst(cfg) && (s > 0.0 ==> Abs(power.p) <= s)
    ensures ApplyPqEnvelope(libm, power, s, cfg.pqPriority).p == power.p
  {
    hide InDisc, CopySign;
  }

  // ----- the fleet -----

  lemma {:induction false} TotalIsSum(s: seq<Power>, p: seq<real>)
    requires |s| == |p| && forall i :: 0 <= i < |s| ==> s[i].p == p[i]
    ensures Total(s).p == Sum(p)
  {
    if s != [] {
      var n := |s| - 1;
      TotalIsSum(s[..n], p[..n]);
    }
  }

  /** Without minimums nothing is taken out. */
  lemma NoMinimums(total: real, capacities: seq<real>, minimums: seq<real>, weights: seq<real>)
    requires |capacities| <= |weights| && forall i :: 0 <= i < |minimums| ==> minimums[i] <= 0.0
    ensures AllocatedWithMinimum(total, capacities, minimums, weights) == Allocated(total, capacities, weights)
  {
    hide Allocated;
    var result := Allocated(total, capacities, weights);
    assert SmallestBelow(result, minimums, |result|) == None by {
      assert forall i :: 0 <= i < |result| ==> !Below(result, minimums, i);
    }
  }

  lemma {:induction false} SumShort(magnitudes: seq<real>, capacities: seq<real>)
    requires |magnitudes| == |capacities|
    requires forall i :: 0 <= i < |capacities| ==> magnitudes[i] >= capacities[i] - TOLERANCE
    ensures Sum(magnitudes) >= Sum(capacities) - RampOver(TOLERANCE, |capacities| as real)
  {
    if capacities != [] {
      var n := |capacities| - 1;
      SumShort(magnitudes[..n], capacities[..n]);
    }
  }

  /** With enough capacity the allocation is the request, up to the tolerance for each device and one. */
  lemma EnoughIsAllocated(total: real, capacities: seq<real>, weights: seq<real>)
    requires |capacities| <= |weights| && Sum(capacities) >= Abs(total)
    requires forall i :: 0 <= i < |capacities| ==> weights[i] > WEIGHT_FLOOR || capacities[i] <= 0.0
    requires forall i :: 0 <= i < |capacities| && weights[i] > 0.0 ==> weights[i] > WEIGHT_FLOOR
    ensures Abs(total - Sum(Allocated(total, capacities, weights))) <= RampOver(TOLERANCE, (|capacities| + 1) as real)
  {
    hide Allocated, Sum, RampOver, Final;
    var r := Allocated(total, capacities, weights);
    var level, unserved := WaterFilling.AllocationIsWaterFilling(total, capacities, weights);
    WaterFilling.UnservedMeansFull(total, capacities, weights);
    Tolerances(|capacities|);
    var sign := WaterFilling.Sign(total);
    var magnitudes := seq(|r|, i requires 0 <= i < |r| => sign * r[i]);
    SumScale(r, sign, magnitudes);
    SumMonotone(seq(|r|, i => 0.0), magnitudes);
    SumZeros(seq(|r|, i => 0.0));
    if Abs(total) - Abs(Sum(r)) > TOLERANCE {
      forall i | 0 <= i < |r|
        ensures magnitudes[i] >= capacities[i] - TOLERANCE
      {
        assert Eligible(capacities, weights, i) ==> Abs(r[i]) >= capacities[i] - TOLERANCE;
      }
      SumShort(magnitudes, capacities);
    }
  }

  lemma Tolerances(n: nat)
    ensures RampOver(TOLERANCE, (n + 1) as real) == RampOver(TOLERANCE, n as real) + TOLERANCE
    ensures RampOver(TOLERANCE, n as real) >= 0.0
  {
  }

  /** What a converter offers on the side of the request. */
  function SideOf(a: Assignment, x: real): real {
    if x >= 0.0 then a.availableDischargeKw else a.availableChargeKw
  }

  function Sides(assignments: seq<Assignment>, x: real): (r: seq<real>) {
    seq(|assignments|, i requires 0 <= i < |assignments| => SideOf(assignments[i], x))
  }

  /** The ramps reach anything between zero and `side` in the direction of `x`. */
  predicate Swings(rise: real, fall: real, before: real, side: real, x: real, dtSec: real) {
    var low := before - RampOver(Max(0.0, fall), dtSec);
    var high := before + RampOver(Max(0.0, rise), dtSec);
    if x >= 0.0 then low <= 0.0 && Max(0.0, side) <= high else low <= -Max(0.0, side) && 0.0 <= high
  }

  /** Nothing but its capability holds the converter back: it has a weight, no minimum, a rating for what it offers, and
      ramps that reach it. */
  predicate Follows(pcs: PcsConfig, input: CycleInput, i: nat, before: real, side: real, x: real, dtSec: real) {
    && pcs.weight > WEIGHT_FLOOR && i < |input.pcs|
    && (if x >= 0.0 then pcs.minStableDischargePowerKw else pcs.minStableChargePowerKw) <= 0.0
    && (var rating := RatedPower(pcs.ratedApparentPowerKva, input.pcs[i].collectedRatedApparentKva);
        rating > 0.0 ==> side <= rating)
    && Swings(pcs.riseKwPerSec, pcs.fallKwPerSec, before, side, x, dtSec)
  }

  lemma WeightIsThere(weight: real, side: real)
    requires weight > WEIGHT_FLOOR
    ensures Max(0.0, weight) * Max(side, 1.0) > WEIGHT_FLOOR
  {
    var more := Max(side, 1.0) - 1.0;
    assert weight * more >= 0.0;
    assert weight * (1.0 + more) == weight + weight * more;
  }

  /** A converter that nothing holds back takes its share. */
  lemma ShareIsTaken(cfg: Config, libm: Libm, pcs: PcsConfig, c: Capability, before: Power, share: Power, x: real,
                     dtSec: real)
    requires libm.Valid() && ActiveFirst(cfg) && dtSec > 0.0 && c.available
    requires Swings(pcs.riseKwPerSec, pcs.fallKwPerSec, before.p, c.pCapacity, x, dtSec)
    requires c.ratedApparent > 0.0 ==> c.pCapacity <= c.ratedApparent
    requires share.p > 0.0 ==> x >= 0.0 && share.p <= c.pCapacity
    requires share.p < 0.0 ==> x < 0.0 && -share.p <= c.pCapacity
    ensures PcsTarget(cfg, libm, pcs, c, before, share, dtSec).p == share.p
  {
    hide Libm.Valid, ApplyPqEnvelope, RateLimit, RampOver, ActiveFirst;
    var ramped := Power(RateLimit(before.p, share.p, pcs.riseKwPerSec, pcs.fallKwPerSec, dtSec),
                        RateLimit(before.q, share.q, pcs.riseKvarPerSec, pcs.fallKvarPerSec, dtSec));
    assert Reachable(before.p, share.p, pcs.riseKwPerSec, pcs.fallKwPerSec, dtSec);
    ActiveIsKept(cfg, libm, ramped, c.ratedApparent);
  }

  lemma CapabilityFollows(pcs: PcsConfig, input: CycleInput, i: nat, x: real, before: real, dtSec: real)
    ensures var c := PcsCapability(pcs, RuntimeOf(input, i), x);
            && c.pCapacity == (if x >= 0.0 then c.discharge else c.charge)
            && (!c.available ==> c.pCapacity == 0.0 && c.pMinimum == 0.0 && c.weight == 0.0)
            && (c.available && Follows(pcs, input, i, before, c.pCapacity, x, dtSec) ==>
                  && c.pMinimum <= 0.0 && c.weight > WEIGHT_FLOOR
                  && (c.ratedApparent > 0.0 ==> c.pCapacity <= c.ratedApparent)
                  && Swings(pcs.riseKwPerSec, pcs.fallKwPerSec, before, c.pCapacity, x, dtSec))
  {
    hide SideLimit, RatedPower, EnvironmentalFactor, RisingDerateFactor, FallingDerateFactor, RampOver, Swings;
    var c := PcsCapability(pcs, RuntimeOf(input, i), x);
    if c.available && pcs.weight > WEIGHT_FLOOR {
      WeightIsThere(pcs.weight, c.pCapacity);
    }
  }

  /** The shares of a fleet that nothing holds back add up to the request, and are taken. */
  lemma FleetTakesRequest(cfg: Config, libm: Libm, input: CycleInput, previous: seq<Power>, x: Power, dtSec: real)
    requires libm.Valid() && ActiveFirst(cfg) && dtSec > 0.0 && |previous| == |cfg.pcs|
    requires var c := Capabilities(cfg, input, x.p);
             && Sum(PCapacities(c)) >= Abs(x.p)
             && forall i :: 0 <= i < |c| && c[i].available ==>
                  Follows(cfg.pcs[i], input, i, previous[i].p, c[i].pCapacity, x.p, dtSec)
    ensures var c := Capabilities(cfg, input, x.p);
            var shares := Shares(libm, c, x);
            var targets := ControlLaw.Targets(cfg, libm, c, previous, shares, dtSec);
            && Abs(x.p - Total(targets).p) <= RampOver(TOLERANCE, (|cfg.pcs| + 1) as real)
            && forall i :: 0 <= i < |c| ==> targets[i].p == shares[i].p
  {
    hide Libm.Valid, Sum, Total, RampOver, PcsTarget, Shares, Allocated, AllocatedWithMinimum, PcsCapability, Follows,
      Swings, ActiveFirst;
    var c := Capabilities(cfg, input, x.p);
    var shares := Shares(libm, c, x);
    var targets := ControlLaw.Targets(cfg, libm, c, previous, shares, dtSec);
    var p := Allocated(x.p, PCapacities(c), Weights(c));
    forall i | 0 <= i < |c|
      ensures c[i].pMinimum <= 0.0 && (c[i].weight > WEIGHT_FLOOR || (c[i].weight == 0.0 && c[i].pCapacity <= 0.0))
      ensures targets[i].p == shares[i].p
    {
      CapabilityFollows(cfg.pcs[i], input, i, x.p, previous[i].p, dtSec);
      ShareSide(libm, c, x, i);
      if c[i].available {
        ShareIsTaken(cfg, libm, cfg.pcs[i], c[i], previous[i], shares[i], x.p, dtSec);
      } else {
        NothingIsTaken(cfg, libm, cfg.pcs[i], c[i], previous[i], shares[i], dtSec);
      }
    }
    SharesAreAllocated(libm, c, x);
    EnoughIsAllocated(x.p, PCapacities(c), Weights(c));
    TotalIsSum(targets, p);
  }

  lemma NothingIsTaken(cfg: Config, libm: Libm, pcs: PcsConfig, c: Capability, before: Power, share: Power, dtSec: real)
    requires !c.available && c.pCapacity == 0.0
    requires share.p > 0.0 ==> share.p <= c.pCapacity
    requires share.p < 0.0 ==> -share.p <= c.pCapacity
    ensures PcsTarget(cfg, libm, pcs, c, before, share, dtSec).p == share.p
    ensures (share.q != 0.0 ==> Abs(share.q) <= 0.0) ==> PcsTarget(cfg, libm, pcs, c, before, share, dtSec) == share
  {
  }

  lemma SharesAreAllocated(libm: Libm, c: seq<Capability>, x: Power)
    requires forall i :: 0 <= i < |c| ==> c[i].pMinimum <= 0.0
    ensures forall i :: 0 <= i < |c| ==>
              Shares(libm, c, x)[i].p == Allocated(x.p, PCapacities(c), Weights(c))[i]
  {
    hide Allocated, AllocatedWithMinimum;
    NoMinimums(x.p, PCapacities(c), PMinimums(c), Weights(c));
  }

  // ----- reactive power -----

  /** The reactive room that a converter's active power leaves it. */
  function RoomOf(libm: Libm, reactive: real, rating: real, p: real): real {
    Min(Min(reactive, rating), libm.sqrt(Max(0.0, Square(rating) - Square(p))))
  }

  /** Shares within the rating and the room are taken whole, whichever power has priority. */
  lemma WholeShareIsTaken(cfg: Config, libm: Libm, pcs: PcsConfig, c: Capability, before: Power, share: Power, x: Power,
                          dtSec: real)
    requires libm.Valid() && dtSec > 0.0 && c.available && c.qCapacity <= c.ratedApparent
    requires Swings(pcs.riseKwPerSec, pcs.fallKwPerSec, before.p, c.pCapacity, x.p, dtSec)
    requires var room := Min(c.qCapacity, libm.sqrt(Max(0.0, Square(c.ratedApparent) - Square(share.p))));
             && Swings(pcs.riseKvarPerSec, pcs.fallKvarPerSec, before.q, room, x.q, dtSec)
             && (share.q > 0.0 ==> x.q >= 0.0 && share.q <= room) && (share.q < 0.0 ==> x.q < 0.0 && -share.q <= room)
    requires c.ratedApparent > 0.0 ==> c.pCapacity <= c.ratedApparent
    requires share.p > 0.0 ==> x.p >= 0.0 && share.p <= c.pCapacity
    requires share.p < 0.0 ==> x.p < 0.0 && -share.p <= c.pCapacity
    ensures PcsTarget(cfg, libm, pcs, c, before, share, dtSec) == share
  {
    hide Libm.Valid, ApplyPqEnvelope, RateLimit, RampOver, InDisc, Square;
    assert Reachable(before.p, share.p, pcs.riseKwPerSec, pcs.fallKwPerSec, dtSec);
    assert Reachable(before.q, share.q, pcs.riseKvarPerSec, pcs.fallKvarPerSec, dtSec);
    if c.ratedApparent > 0.0 {
      InsideDisc(libm, share, c.ratedApparent);
    }
    KeptInside(libm, share, c.ratedApparent, cfg.pqPriority);
  }

  lemma InsideDisc(libm: Libm, power: Power, s: real)
    requires libm.Valid() && s > 0.0 && Abs(power.p) <= s
    requires power.q != 0.0 ==> Abs(power.q) <= libm.sqrt(Max(0.0, Square(s) - Square(power.p)))
    ensures InDisc(power, s)
  {
    hide Square;
    SquareMonotone(power.p, s);
    var rest := Square(s) - Square(power.p);
    var root := libm.sqrt(rest);
    assert IsRoot(root, rest);
    SquareMonotone(power.q, root);
  }

  lemma KeptInside(libm: Libm, power: Power, s: real, priority: string)
    requires s > 0.0 ==> InDisc(power, s)
    ensures ApplyPqEnvelope(libm, power, s, priority) == power
  {
    hide InDisc;
  }

  /** What the active shares of a fleet leave of its reactive power. */
  function Rooms(libm: Libm, c: seq<Capability>, shares: seq<Power>): (r: seq<real>)
    requires |c| == |shares|
  {
    seq(|c|, i requires 0 <= i < |c| =>
      Min(c[i].qCapacity, libm.sqrt(Max(0.0, Square(c[i].ratedApparent) - Square(shares[i].p)))))
  }

  lemma RoomsAreLeft(libm: Libm, c: seq<Capability>, x: Power)
    ensures var shares := Shares(libm, c, x);
            && (forall i :: 0 <= i < |c| ==> shares[i].q == Allocated(x.q, Rooms(libm, c, shares), Weights(c))[i])
            && (forall i :: 0 <= i < |c| ==>
                  && (shares[i].q > 0.0 ==> x.q >= 0.0 && shares[i].q <= Rooms(libm, c, shares)[i])
                  && (shares[i].q < 0.0 ==> x.q < 0.0 && -shares[i].q <= Rooms(libm, c, shares)[i]))
  {
    hide Allocated, AllocatedWithMinimum, Square;
    var shares := Shares(libm, c, x);
    var p := AllocatedWithMinimum(x.p, PCapacities(c), PMinimums(c), Weights(c));
    assert Rooms(libm, c, shares) == QAfterP(libm, c, p);
    ShareWithinCapacity(x.q, QAfterP(libm, c, p), Weights(c));
  }

  lemma {:induction false} TotalQIsSum(s: seq<Power>, q: seq<real>)
    requires |s| == |q| && forall i :: 0 <= i < |s| ==> s[i].q == q[i]
    ensures Total(s).q == Sum(q)
  {
    if s != [] {
      var n := |s| - 1;
      TotalQIsSum(s[..n], q[..n]);
    }
  }

  lemma ReactiveCapability(pcs: PcsConfig, input: CycleInput, i: nat, x: real)
    ensures var c := PcsCapability(pcs, RuntimeOf(input, i), x);
            && (c.available ==>
                  c.qCapacity == Min(c.reactive, c.ratedApparent) && i < |input.pcs|
                  && c.ratedApparent == RatedPower(pcs.ratedApparentPowerKva, input.pcs[i].collectedRatedApparentKva))
            && (!c.available ==> c.qCapacity == 0.0 && c.reactive == 0.0 && c.ratedApparent == 0.0 && c.weight == 0.0)
  {
    hide SideLimit, EnvironmentalFactor, RisingDerateFactor, FallingDerateFactor, EffectiveCapability;
  }

  /** A fleet that nothing holds back takes the reactive request too. */
  lemma FleetTakesReactive(cfg: Config, libm: Libm, input: CycleInput, previous: seq<Power>, x: Power, dtSec: real)
    requires libm.Valid() && dtSec > 0.0 && |previous| == |cfg.pcs|
    requires var c := Capabilities(cfg, input, x.p);
             var shares := Shares(libm, c, x);
             var rooms := Rooms(libm, c, shares);
             && Sum(PCapacities(c)) >= Abs(x.p) && Sum(rooms) >= Abs(x.q)
             && forall i :: 0 <= i < |c| && c[i].available ==>
                  && Follows(cfg.pcs[i], input, i, previous[i].p, c[i].pCapacity, x.p, dtSec)
                  && Swings(cfg.pcs[i].riseKvarPerSec, cfg.pcs[i].fallKvarPerSec, previous[i].q, rooms[i], x.q, dtSec)
    ensures var c := Capabilities(cfg, input, x.p);
            var total := Total(ControlLaw.Targets(cfg, libm, c, previous, Shares(libm, c, x), dtSec));
            && Abs(x.p - total.p) <= RampOver(TOLERANCE, (|cfg.pcs| + 1) as real)
            && Abs(x.q - total.q) <= RampOver(TOLERANCE, (|cfg.pcs| + 1) as real)
  {
    hide Libm.Valid, Sum, Total, RampOver, PcsTarget, Shares, Allocated, AllocatedWithMinimum, PcsCapability, Follows,
      Swings, Square;
    var c := Capabilities(cfg, input, x.p);
    var shares := Shares(libm, c, x);
    var rooms := Rooms(libm, c, shares);
    var targets := ControlLaw.Targets(cfg, libm, c, previous, shares, dtSec);
    RoomsAreLeft(libm, c, x);
    forall i | 0 <= i < |c|
      ensures c[i].pMinimum <= 0.0
      ensures c[i].weight > WEIGHT_FLOOR || (c[i].weight == 0.0 && c[i].pCapacity <= 0.0 && rooms[i] <= 0.0)
      ensures targets[i] == shares[i]
    {
      CapabilityFollows(cfg.pcs[i], input, i, x.p, previous[i].p, dtSec);
      ReactiveCapability(cfg.pcs[i], input, i, x.p);
      ShareSide(libm, c, x, i);
      if c[i].available {
        WholeShareIsTaken(cfg, libm, cfg.pcs[i], c[i], previous[i], shares[i], x, dtSec);
      } else {
        NothingIsTaken(cfg, libm, cfg.pcs[i], c[i], previous[i], shares[i], dtSec);
      }
    }
    SharesAreAllocated(libm, c, x);
    EnoughIsAllocated(x.p, PCapacities(c), Weights(c));
    EnoughIsAllocated(x.q, rooms, Weights(c));
    TotalIsSum(targets, Allocated(x.p, PCapacities(c), Weights(c)));
    TotalQIsSum(targets, Allocated(x.q, rooms, Weights(c)));
  }

  // ----- tracking -----

  /** All converters of the fleet follow the request, and together they offer enough for it. */
  ghost predicate FleetFollows(cfg: Config, memory: Memory, input: CycleInput, output: CycleOutput, x: real)
    requires |memory.pcs| == |cfg.pcs|
  {
    && |output.pcs| == |cfg.pcs| && Sum(Sides(output.pcs, x)) >= Abs(x)
    && forall i :: 0 <= i < |cfg.pcs| && output.pcs[i].available ==>
         Follows(cfg.pcs[i], input, i, memory.pcs[i].p, SideOf(output.pcs[i], x), x,
                 CycleSeconds(cfg, memory.lastCycleMs, input.nowMs))
  }

  /** With enough capability on the side of the request, slack ramps, no minimums and active power first, a controlling
      cycle delivers the active power it asks for. */
  lemma RequestIsDelivered(cfg: Config, libm: Libm, memory: Memory, input: CycleInput)
    requires libm.Valid() && |memory.pcs| == |cfg.pcs| && Controls(cfg, input) && ActiveFirst(cfg)
    requires var output := Cycle(cfg, libm, memory, input).1;
             FleetFollows(cfg, memory, input, output, Requested(output).p)
    ensures var output := Cycle(cfg, libm, memory, input).1;
            Abs(output.unserved.p) <= RampOver(TOLERANCE, (|cfg.pcs| + 1) as real)
  {
    hide Libm.Valid, Sum, Total, RampOver, PcsTarget, Shares, PcsCapability, Follows, ActiveFirst, StationRequest,
      RunActiveLoop, RunReactiveLoop, Short, CycleSeconds;
    var output := Cycle(cfg, libm, memory, input).1;
    var dtSec := CycleSeconds(cfg, memory.lastCycleMs, input.nowMs);
    var raw := Power(RunActiveLoop(cfg, memory, input, dtSec).requestedP,
                     RunReactiveLoop(cfg, libm, memory, input).requestedQ);
    var x := StationRequest(cfg, libm, memory.previous, raw, dtSec);
    assert Requested(output) == x;
    var c := Capabilities(cfg, input, x.p);
    forall i | 0 <= i < |c|
      ensures SideOf(output.pcs[i], x.p) == c[i].pCapacity
    {
      CapabilityFollows(cfg.pcs[i], input, i, x.p, memory.pcs[i].p, dtSec);
    }
    assert Sides(output.pcs, x.p) == PCapacities(c);
    FleetTakesRequest(cfg, libm, input, memory.pcs, x, dtSec);
  }

  /** The reactive room of every converter, from what the cycle puts out. */
  function RoomsOf(cfg: Config, libm: Libm, input: CycleInput, assignments: seq<Assignment>): (r: seq<real>)
    requires |assignments| <= |cfg.pcs|
  {
    seq(|assignments|, i requires 0 <= i < |assignments| =>
      RoomOf(libm, assignments[i].availableReactiveKvar, RatingOf(cfg.pcs[i], input, i, assignments[i].available),
             assignments[i].target.p))
  }

  function RatingOf(pcs: PcsConfig, input: CycleInput, i: nat, available: bool): real {
    if available && i < |input.pcs|
    then RatedPower(pcs.ratedApparentPowerKva, input.pcs[i].collectedRatedApparentKva) else 0.0
  }

  ghost predicate ReactiveFollows(cfg: Config, libm: Libm, memory: Memory, input: CycleInput, output: CycleOutput,
                                  x: real)
    requires |memory.pcs| == |cfg.pcs| && |output.pcs| == |cfg.pcs|
  {
    var rooms := RoomsOf(cfg, libm, input, output.pcs);
    && Sum(rooms) >= Abs(x)
    && forall i :: 0 <= i < |cfg.pcs| && output.pcs[i].available ==>
         Swings(cfg.pcs[i].riseKvarPerSec, cfg.pcs[i].fallKvarPerSec, memory.pcs[i].q, rooms[i], x,
                CycleSeconds(cfg, memory.lastCycleMs, input.nowMs))
  }

  /** With enough reactive room beside the active power that the converters deliver, and slack ramps for it, the cycle
      delivers the reactive power it asks for as well. */
  lemma ReactiveRequestIsDelivered(cfg: Config, libm: Libm, memory: Memory, input: CycleInput)
    requires libm.Valid() && |memory.pcs| == |cfg.pcs| && Controls(cfg, input) && ActiveFirst(cfg)
    requires var output := Cycle(cfg, libm, memory, input).1;
             && FleetFollows(cfg, memory, input, output, Requested(output).p)
             && ReactiveFollows(cfg, libm, memory, input, output, Requested(output).q)
    ensures var output := Cycle(cfg, libm, memory, input).1;
            && Abs(output.unserved.p) <= RampOver(TOLERANCE, (|cfg.pcs| + 1) as real)
            && Abs(output.unserved.q) <= RampOver(TOLERANCE, (|cfg.pcs| + 1) as real)
  {
    hide Libm.Valid, Sum, Total, RampOver, PcsTarget, Shares, PcsCapability, Follows, Swings, ActiveFirst,
      StationRequest, RunActiveLoop, RunReactiveLoop, Short, CycleSeconds, Square;
    var output := Cycle(cfg, libm, memory, input).1;
    var dtSec := CycleSeconds(cfg, memory.lastCycleMs, input.nowMs);
    var raw := Power(RunActiveLoop(cfg, memory, input, dtSec).requestedP,
                     RunReactiveLoop(cfg, libm, memory, input).requestedQ);
    var x := StationRequest(cfg, libm, memory.previous, raw, dtSec);
    assert Requested(output) == x;
    var c := Capabilities(cfg, input, x.p);
    forall i | 0 <= i < |c|
      ensures SideOf(output.pcs[i], x.p) == c[i].pCapacity
    {
      CapabilityFollows(cfg.pcs[i], input, i, x.p, memory.pcs[i].p, dtSec);
    }
    assert Sides(output.pcs, x.p) == PCapacities(c);
    FleetTakesRequest(cfg, libm, input, memory.pcs, x, dtSec);
    var rooms := Rooms(libm, c, Shares(libm, c, x));
    forall i | 0 <= i < |c|
      ensures RoomsOf(cfg, libm, input, output.pcs)[i] == rooms[i]
    {
      ReactiveCapability(cfg.pcs[i], input, i, x.p);
    }
    assert RoomsOf(cfg, libm, input, output.pcs) == rooms;
    FleetTakesReactive(cfg, libm, input, memory.pcs, x, dtSec);
  }

  /** The loop has nothing to correct. */
  predicate OnTarget(cfg: Config, memory: Memory, input: CycleInput) {
    && cfg.agc.enabled && (!cfg.agc.frequencyDroopEnabled || input.frequencyHz.None?)
    && Abs(input.command.targetPkw - input.pccActivePowerKw) <= Max(0.0, cfg.agc.deadbandKw)
    && memory.integralP == 0.0 && cfg.agc.integralMinKw <= 0.0 <= cfg.agc.integralMaxKw
  }

  /** When the loop has nothing to correct and the station allows the command and its ramps reach it, what the fleet is
      asked for is exactly the command. */
  lemma RequestIsCommand(cfg: Config, libm: Libm, memory: Memory, input: CycleInput)
    requires libm.Valid() && |memory.pcs| == |cfg.pcs| && Controls(cfg, input) && ActiveFirst(cfg)
    requires OnTarget(cfg, memory, input) && StationAllows(cfg, input.command.targetPkw)
    requires Reachable(memory.previous.p, input.command.targetPkw, cfg.agc.riseKwPerSec, cfg.agc.fallKwPerSec,
                       CycleSeconds(cfg, memory.lastCycleMs, input.nowMs))
    ensures Requested(Cycle(cfg, libm, memory, input).1).p == input.command.targetPkw
  {
    hide Libm.Valid, Cycle, Reachable, StationAllows, ActiveFirst, Controls, CycleSeconds, Integrates, StationRequest;
    RequestFollowsError(cfg, libm, memory, input);
    RequestIs(cfg, libm, memory, input);
    var raw := Cycle(cfg, libm, memory, input).1.rawTarget;
    var _ := StationGoal(cfg, libm, memory.previous, raw, CycleSeconds(cfg, memory.lastCycleMs, input.nowMs));
  }

  /** And then, with a fleet that follows it, the delivered power is the commanded power. */
  lemma CommandIsDelivered(cfg: Config, libm: Libm, memory: Memory, input: CycleInput)
    requires libm.Valid() && |memory.pcs| == |cfg.pcs| && Controls(cfg, input) && ActiveFirst(cfg)
    requires OnTarget(cfg, memory, input) && StationAllows(cfg, input.command.targetPkw)
    requires Reachable(memory.previous.p, input.command.targetPkw, cfg.agc.riseKwPerSec, cfg.agc.fallKwPerSec,
                       CycleSeconds(cfg, memory.lastCycleMs, input.nowMs))
    requires FleetFollows(cfg, memory, input, Cycle(cfg, libm, memory, input).1, input.command.targetPkw)
    ensures Abs(input.command.targetPkw - Cycle(cfg, libm, memory, input).1.effectiveTarget.p)
         <= RampOver(TOLERANCE, (|cfg.pcs| + 1) as real)
  {
    hide Libm.Valid, Cycle, Reachable, StationAllows, ActiveFirst, Controls, CycleSeconds, OnTarget, FleetFollows,
      RampOver;
    RequestIsCommand(cfg, libm, memory, input);
    RequestIsDelivered(cfg, libm, memory, input);
  }
}
