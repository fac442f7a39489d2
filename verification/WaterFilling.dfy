/** What the allocators compute: capped water-filling at one level, within the code's tolerance. */
module WaterFilling {
  import opened Reals
  import opened Allocation

  /** Device `i` as the level describes it: an active device holds exactly its weighted share of the
      level and has room left; a retired one is within the tolerance of its capacity; a device that
      never took part holds nothing. */
  ghost predicate AtLevel(capacities: seq<real>, weights: seq<real>, fill: Fill, level: real, i: nat)
    requires FillFits(capacities, weights, fill) && i < |capacities|
  {
    if !Eligible(capacities, weights, i) then !fill.active[i] && fill.result[i] == 0.0
    else if fill.active[i] then
      fill.result[i] == level * weights[i] && capacities[i] - fill.result[i] > TOLERANCE
    else
      capacities[i] - TOLERANCE <= fill.result[i] <= Min(capacities[i], level * weights[i])
  }

  ghost predicate Filled(capacities: seq<real>, weights: seq<real>, amount: real, fill: Fill, level: real) {
    && FillFits(capacities, weights, fill)
    && level >= 0.0
    && fill.remaining >= 0.0
    && Sum(fill.result) + fill.remaining == amount
    && forall i :: 0 <= i < |capacities| ==> AtLevel(capacities, weights, fill, level, i)
  }

  function ActiveCount(active: seq<bool>): (n: nat)
    ensures n <= |active|
  {
    if active == [] then 0
    else ActiveCount(active[..|active| - 1]) + if active[|active| - 1] then 1 else 0
  }

  lemma {:induction false} FewerActive(before: seq<bool>, after: seq<bool>)
    requires |before| == |after|
    requires forall i :: 0 <= i < |before| && after[i] ==> before[i]
    ensures ActiveCount(after) <= ActiveCount(before)
    ensures before != after ==> ActiveCount(after) < ActiveCount(before)
  {
    if before != [] {
      var n := |before| - 1;
      FewerActive(before[..n], after[..n]);
      assert before == before[..n] + [before[n]] && after == after[..n] + [after[n]];
    }
  }

  lemma ShareIsLevelStep(remaining: real, weight: real, weightSum: real)
    requires weightSum > 0.0
    ensures Share(remaining, weight, weightSum) == (remaining / weightSum) * weight
  {
  }

  /** One pass raises the level by remaining / weight and keeps the description. */
  lemma PassDevice(capacities: seq<real>, weights: seq<real>, fill: Fill, weightSum: real, level: real, i: nat)
    requires FillFits(capacities, weights, fill) && i < |capacities| && weightSum > 0.0
    requires fill.remaining >= 0.0
    requires AtLevel(capacities, weights, fill, level, i)
    ensures AtLevel(capacities, weights, Pass(capacities, weights, fill, weightSum),
                    level + fill.remaining / weightSum, i)
    ensures 0.0 <= Applied(capacities, weights, fill, weightSum, i)
    ensures Applied(capacities, weights, fill, weightSum, i)
         <= (fill.remaining / weightSum) * (if fill.active[i] then weights[i] else 0.0)
    ensures fill.active[i] ==>
              || Applied(capacities, weights, fill, weightSum, i) == (fill.remaining / weightSum) * weights[i]
              || (!StaysActive(capacities, weights, fill, weightSum, i)
                  && Applied(capacities, weights, fill, weightSum, i) > TOLERANCE)
  {
    var k := fill.remaining / weightSum;
    ShareIsLevelStep(fill.remaining, weights[i], weightSum);
    assert (level + k) * weights[i] == level * weights[i] + k * weights[i];
    if Eligible(capacities, weights, i) {
      assert k >= 0.0;
      assert k * weights[i] >= 0.0;
    }
  }

  /** The amounts a pass would add if no capacity bound it. */
  ghost function Shares(weights: seq<real>, fill: Fill, k: real): (r: seq<real>)
    requires |fill.active| <= |weights|
  {
    var w := ActiveWeights(weights, fill.active);
    seq(|w|, i requires 0 <= i < |w| => k * w[i])
  }

  /** What one pass does to device `i`, with the quotient remaining / weight named `k`. */
  ghost predicate PassedDevice(capacities: seq<real>, weights: seq<real>, fill: Fill, next: Fill,
                               applied: seq<real>, shares: seq<real>, level: real, i: nat)
    requires FillFits(capacities, weights, fill) && FillFits(capacities, weights, next)
    requires |applied| == |shares| == |capacities| && i < |capacities|
  {
    && AtLevel(capacities, weights, next, level, i)
    && next.result[i] == fill.result[i] + applied[i]
    && (next.active[i] ==> fill.active[i])
    && 0.0 <= applied[i] <= shares[i]
    && (applied[i] == shares[i] || (applied[i] > TOLERANCE && fill.active[i] && !next.active[i]))
  }

  lemma PassDevices(capacities: seq<real>, weights: seq<real>, fill: Fill, weightSum: real, level: real, k: real,
                    raised: real)
    requires FillFits(capacities, weights, fill) && weightSum > 0.0 && fill.remaining >= 0.0
    requires k == fill.remaining / weightSum && raised == level + k
    requires forall i :: 0 <= i < |capacities| ==> AtLevel(capacities, weights, fill, level, i)
    ensures forall i :: 0 <= i < |capacities| ==>
              PassedDevice(capacities, weights, fill, Pass(capacities, weights, fill, weightSum),
                           AppliedAll(capacities, weights, fill, weightSum), Shares(weights, fill, k), raised, i)
  {
    forall i | 0 <= i < |capacities|
      ensures PassedDevice(capacities, weights, fill, Pass(capacities, weights, fill, weightSum),
                           AppliedAll(capacities, weights, fill, weightSum), Shares(weights, fill, k), raised, i)
    {
      PassDevice(capacities, weights, fill, weightSum, level, i);
    }
  }

  /** What a pass distributes is at most what remained; it is all of it, or more than the tolerance. */
  lemma PassDistributes(remaining: real, applied: seq<real>, shares: seq<real>)
    requires |applied| == |shares| && Sum(shares) == remaining && remaining > TOLERANCE
    requires forall i :: 0 <= i < |applied| ==>
               0.0 <= applied[i] <= shares[i] && (applied[i] == shares[i] || applied[i] > TOLERANCE)
    ensures TOLERANCE < Sum(applied) <= remaining
    ensures Sum(applied) < remaining ==> exists i :: 0 <= i < |applied| && applied[i] != shares[i]
  {
    SumMonotone(applied, shares);
    if applied != shares {
      var i :| 0 <= i < |applied| && applied[i] != shares[i];
      SumAtLeast(applied, i);
    }
  }

  lemma SharesSum(weights: seq<real>, fill: Fill)
    requires |fill.active| <= |weights| && Sum(ActiveWeights(weights, fill.active)) > 0.0
    ensures Sum(Shares(weights, fill, fill.remaining / Sum(ActiveWeights(weights, fill.active)))) == fill.remaining
  {
    var w := ActiveWeights(weights, fill.active);
    var k := fill.remaining / Sum(w);
    SumScale(w, k, Shares(weights, fill, k));
  }

  /** A pass keeps the description at a higher level, distributes more than the tolerance, and when
      it leaves something, it has retired some device. */
  lemma PassFilled(capacities: seq<real>, weights: seq<real>, amount: real, fill: Fill, level: real)
    requires Filled(capacities, weights, amount, fill, level) && fill.remaining > TOLERANCE
    requires Sum(ActiveWeights(weights, fill.active)) > WEIGHT_FLOOR
    ensures var weightSum := Sum(ActiveWeights(weights, fill.active));
            var next := Pass(capacities, weights, fill, weightSum);
            && Filled(capacities, weights, amount, next, level + fill.remaining / weightSum)
            && fill.remaining - next.remaining > TOLERANCE
            && (next.remaining > 0.0 ==> ActiveCount(next.active) < ActiveCount(fill.active))
  {
    hide Sum, AtLevel, Applied, StaysActive;
    var weightSum := Sum(ActiveWeights(weights, fill.active));
    var k := fill.remaining / weightSum;
    SharesSum(weights, fill);
    PassDevices(capacities, weights, fill, weightSum, level, k, level + k);
    PassTotals(capacities, weights, amount, fill, Pass(capacities, weights, fill, weightSum),
               AppliedAll(capacities, weights, fill, weightSum), Shares(weights, fill, k), level + k);
  }

  lemma PassTotals(capacities: seq<real>, weights: seq<real>, amount: real, fill: Fill, next: Fill,
                   applied: seq<real>, shares: seq<real>, level: real)
    requires FillFits(capacities, weights, fill) && FillFits(capacities, weights, next)
    requires |applied| == |shares| == |capacities| && level >= 0.0
    requires forall i :: 0 <= i < |capacities| ==>
               PassedDevice(capacities, weights, fill, next, applied, shares, level, i)
    requires next.remaining == fill.remaining - Sum(applied) && Sum(shares) == fill.remaining
    requires Sum(fill.result) + fill.remaining == amount && fill.remaining > TOLERANCE
    ensures Filled(capacities, weights, amount, next, level)
    ensures fill.remaining - next.remaining > TOLERANCE
    ensures next.remaining > 0.0 ==> ActiveCount(next.active) < ActiveCount(fill.active)
  {
    forall i | 0 <= i < |capacities|
      ensures 0.0 <= applied[i] <= shares[i] && (applied[i] == shares[i] || applied[i] > TOLERANCE)
      ensures next.active[i] ==> fill.active[i]
      ensures next.result[i] == fill.result[i] + applied[i]
      ensures AtLevel(capacities, weights, next, level, i)
    {
      assert PassedDevice(capacities, weights, fill, next, applied, shares, level, i);
    }
    PassDistributes(fill.remaining, applied, shares);
    SumAdd(fill.result, applied, next.result);
    FewerActive(fill.active, next.active);
    if next.remaining > 0.0 {
      var i :| 0 <= i < |applied| && applied[i] != shares[i];
      assert PassedDevice(capacities, weights, fill, next, applied, shares, level, i);
    }
  }

  /** Every run of the pass loop keeps the description; with as many passes as active devices plus
      one it stops because everything is served or because the active weight is used up. */
  lemma {:induction false} PassesFilled(capacities: seq<real>, weights: seq<real>, amount: real, fill: Fill,
                                        level: real, passes: nat)
    returns (finalLevel: real)
    requires Filled(capacities, weights, amount, fill, level)
    ensures Filled(capacities, weights, amount, Passes(capacities, weights, fill, passes), finalLevel)
    ensures ActiveCount(fill.active) < passes ==>
              var end := Passes(capacities, weights, fill, passes);
              end.remaining <= TOLERANCE || Sum(ActiveWeights(weights, end.active)) <= WEIGHT_FLOOR
    decreases passes
  {
    hide Pass, Sum;
    var weightSum := Sum(ActiveWeights(weights, fill.active));
    if passes == 0 || fill.remaining <= TOLERANCE || weightSum <= WEIGHT_FLOOR {
      finalLevel := level;
    } else {
      PassFilled(capacities, weights, amount, fill, level);
      var next := Pass(capacities, weights, fill, weightSum);
      finalLevel := PassesFilled(capacities, weights, amount, next, level + fill.remaining / weightSum, passes - 1);
    }
  }

  /** Device `i`'s share in the ideal water-filling at a level. */
  function IdealShare(capacities: seq<real>, weights: seq<real>, level: real, i: nat): real
    requires i < |capacities| <= |weights|
  {
    if Eligible(capacities, weights, i) then Min(capacities[i], level * weights[i]) else 0.0
  }

  /** The pass loop as a whole: it ends at some level, with the amount conserved. */
  lemma FinalFilled(total: real, capacities: seq<real>, weights: seq<real>) returns (level: real)
    requires |capacities| <= |weights|
    ensures Filled(capacities, weights, Abs(total), Final(total, capacities, weights), level)
    ensures var end := Final(total, capacities, weights);
            end.remaining <= TOLERANCE || Sum(ActiveWeights(weights, end.active)) <= WEIGHT_FLOOR
  {
    var start := Start(total, capacities, weights);
    SumZeros(start.result);
    level := PassesFilled(capacities, weights, Abs(total), start, 0.0, |capacities| + 1);
  }

  lemma DeviceShare(capacities: seq<real>, weights: seq<real>, fill: Fill, level: real, i: nat)
    requires FillFits(capacities, weights, fill) && i < |capacities|
    requires AtLevel(capacities, weights, fill, level, i) && level >= 0.0
    ensures IdealShare(capacities, weights, level, i) - TOLERANCE <= fill.result[i]
         <= IdealShare(capacities, weights, level, i)
    ensures 0.0 <= fill.result[i]
  {
    if Eligible(capacities, weights, i) {
      assert level * weights[i] >= 0.0;
    }
  }

  /** The allocation is the ideal water-filling at some level, short by at most the tolerance per
      device; it conserves the total; and the n+1 passes stop only when at most the tolerance is
      unserved or the devices that still have room weigh nothing. */
  lemma AllocationIsWaterFilling(total: real, capacities: seq<real>, weights: seq<real>)
    returns (level: real, unserved: real)
    requires |capacities| <= |weights|
    ensures level >= 0.0 && unserved >= 0.0
    ensures forall i :: 0 <= i < |capacities| ==>
              var magnitude := Sign(total) * Allocated(total, capacities, weights)[i];
              var ideal := IdealShare(capacities, weights, level, i);
              ideal - TOLERANCE <= magnitude <= ideal && 0.0 <= magnitude
    ensures Sum(Allocated(total, capacities, weights)) == Sign(total) * (Abs(total) - unserved)
    ensures unserved <= TOLERANCE
         || Sum(ActiveWeights(weights, Final(total, capacities, weights).active)) <= WEIGHT_FLOOR
  {
    hide Final, Sum;
    level := FinalFilled(total, capacities, weights);
    var end := Final(total, capacities, weights);
    unserved := end.remaining;
    forall i | 0 <= i < |capacities|
      ensures var ideal := IdealShare(capacities, weights, level, i);
              ideal - TOLERANCE <= end.result[i] <= ideal && 0.0 <= end.result[i]
    {
      DeviceShare(capacities, weights, end, level, i);
    }
    SumScale(end.result, Sign(total), Allocated(total, capacities, weights));
  }

  function Sign(total: real): real {
    if total < 0.0 then -1.0 else 1.0
  }

  /** With weights that are not vanishing, an unserved amount means that every eligible device is at
      its capacity. */
  lemma UnservedMeansFull(total: real, capacities: seq<real>, weights: seq<real>)
    requires |capacities| <= |weights|
    requires forall i :: 0 <= i < |capacities| && weights[i] > 0.0 ==> weights[i] > WEIGHT_FLOOR
    ensures var r := Allocated(total, capacities, weights);
            && |r| == |capacities|
            && (Abs(total) - Abs(Sum(r)) <= TOLERANCE
                || forall i :: 0 <= i < |capacities| && Eligible(capacities, weights, i) ==>
                     Abs(r[i]) >= capacities[i] - TOLERANCE)
  {
    var level := FinalFilled(total, capacities, weights);
    var end := Final(total, capacities, weights);
    var r := Allocated(total, capacities, weights);
    SumScale(end.result, Sign(total), r);
    var w := ActiveWeights(weights, end.active);
    forall i | 0 <= i < |capacities|
      ensures w[i] >= 0.0 && end.result[i] >= 0.0
      ensures !end.active[i] && Eligible(capacities, weights, i) ==> end.result[i] >= capacities[i] - TOLERANCE
    {
      DeviceShare(capacities, weights, end, level, i);
    }
    if end.remaining > TOLERANCE {
      forall i | 0 <= i < |capacities| && Eligible(capacities, weights, i)
        ensures !end.active[i]
      {
        SumAtLeast(w, i);
      }
    }
  }

  /** The pass loop with the distributed-amount test left out. */
  function PassesWithoutEarlyExit(capacities: seq<real>, weights: seq<real>, fill: Fill, passes: nat): (r: Fill)
    requires FillFits(capacities, weights, fill)
    decreases passes
  {
    hide Pass, Sum;
    var weightSum := Sum(ActiveWeights(weights, fill.active));
    if passes == 0 || fill.remaining <= TOLERANCE || weightSum <= WEIGHT_FLOOR then fill
    else PassesWithoutEarlyExit(capacities, weights, Pass(capacities, weights, fill, weightSum), passes - 1)
  }

  lemma {:induction false} NoEarlyExit(capacities: seq<real>, weights: seq<real>, amount: real, fill: Fill,
                                       level: real, passes: nat)
    requires Filled(capacities, weights, amount, fill, level)
    ensures Passes(capacities, weights, fill, passes) == PassesWithoutEarlyExit(capacities, weights, fill, passes)
    decreases passes
  {
    hide Pass, Sum;
    var weightSum := Sum(ActiveWeights(weights, fill.active));
    if passes != 0 && fill.remaining > TOLERANCE && weightSum > WEIGHT_FLOOR {
      PassFilled(capacities, weights, amount, fill, level);
      NoEarlyExit(capacities, weights, amount, Pass(capacities, weights, fill, weightSum),
                  level + fill.remaining / weightSum, passes - 1);
    }
  }

  /** The exit on a pass that distributes nothing is never taken. */
  lemma EarlyExitUnreachable(total: real, capacities: seq<real>, weights: seq<real>)
    requires |capacities| <= |weights|
    ensures Final(total, capacities, weights)
         == PassesWithoutEarlyExit(capacities, weights, Start(total, capacities, weights), |capacities| + 1)
  {
    var start := Start(total, capacities, weights);
    SumZeros(start.result);
    NoEarlyExit(capacities, weights, Abs(total), start, 0.0, |capacities| + 1);
  }
}
