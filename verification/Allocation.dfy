/** The capacity allocators of the power controller: weighted water-filling in repeated passes,
    and the elimination of shares that fall below a converter's minimum stable power. */
module Allocation {
  import opened Reals

  const WEIGHT_FLOOR: real := 0.000000000001

  /** What the allocation loop carries from pass to pass. */
  datatype Fill = Fill(result: seq<real>, active: seq<bool>, remaining: real)

  ghost predicate FillFits(capacities: seq<real>, weights: seq<real>, fill: Fill) {
    && |capacities| <= |weights|
    && |fill.result| == |fill.active| == |capacities|
  }

  function ActiveWeights(weights: seq<real>, active: seq<bool>): (r: seq<real>)
    requires |active| <= |weights|
  {
    seq(|active|, i requires 0 <= i < |active| => if active[i] then weights[i] else 0.0)
  }

  function Share(roundRemaining: real, weight: real, weightSum: real): real
    requires weightSum > 0.0
  {
    roundRemaining * weight / weightSum
  }

  /** The amount one pass adds to device `i`. */
  function Applied(capacities: seq<real>, weights: seq<real>, fill: Fill, weightSum: real, i: nat): real
    requires FillFits(capacities, weights, fill) && i < |capacities| && weightSum > 0.0
  {
    if fill.active[i]
    then Min(Max(0.0, capacities[i] - fill.result[i]), Share(fill.remaining, weights[i], weightSum))
    else 0.0
  }

  function AppliedAll(capacities: seq<real>, weights: seq<real>, fill: Fill, weightSum: real): (r: seq<real>)
    requires FillFits(capacities, weights, fill) && weightSum > 0.0
  {
    seq(|capacities|, i requires 0 <= i < |capacities| => Applied(capacities, weights, fill, weightSum, i))
  }

  predicate StaysActive(capacities: seq<real>, weights: seq<real>, fill: Fill, weightSum: real, i: nat)
    requires FillFits(capacities, weights, fill) && i < |capacities| && weightSum > 0.0
  {
    && fill.active[i]
    && Max(0.0, capacities[i] - fill.result[i]) - Applied(capacities, weights, fill, weightSum, i) > TOLERANCE
  }

  /** One pass over all devices, with the remaining amount reduced by what was distributed. */
  function Pass(capacities: seq<real>, weights: seq<real>, fill: Fill, weightSum: real): (r: Fill)
    requires FillFits(capacities, weights, fill) && weightSum > 0.0
    ensures FillFits(capacities, weights, r)
  {
    var applied := AppliedAll(capacities, weights, fill, weightSum);
    Fill(
      seq(|capacities|, i requires 0 <= i < |capacities| => fill.result[i] + applied[i]),
      seq(|capacities|, i requires 0 <= i < |capacities| => StaysActive(capacities, weights, fill, weightSum, i)),
      fill.remaining - Sum(applied))
  }

  /** The pass loop, with its three exits: nothing left, no weight left, nothing distributed. */
  function Passes(capacities: seq<real>, weights: seq<real>, fill: Fill, passes: nat): (r: Fill)
    requires FillFits(capacities, weights, fill)
    ensures FillFits(capacities, weights, r)
    decreases passes
  {
    var weightSum := Sum(ActiveWeights(weights, fill.active));
    if passes == 0 || fill.remaining <= TOLERANCE || weightSum <= WEIGHT_FLOOR then fill
    else
      var next := Pass(capacities, weights, fill, weightSum);
      if fill.remaining - next.remaining <= TOLERANCE then next.(remaining := fill.remaining)
      else Passes(capacities, weights, next, passes - 1)
  }

  function Start(total: real, capacities: seq<real>, weights: seq<real>): (r: Fill)
    requires |capacities| <= |weights|
  {
    Fill(
      seq(|capacities|, i => 0.0),
      seq(|capacities|, i requires 0 <= i < |capacities| => Eligible(capacities, weights, i)),
      Abs(total))
  }

  predicate Eligible(capacities: seq<real>, weights: seq<real>, i: nat)
    requires i < |capacities| <= |weights|
  {
    capacities[i] > TOLERANCE && weights[i] > 0.0
  }

  /** The state in which the pass loop stops. */
  function Final(total: real, capacities: seq<real>, weights: seq<real>): (r: Fill)
    requires |capacities| <= |weights|
    ensures FillFits(capacities, weights, r)
  {
    Passes(capacities, weights, Start(total, capacities, weights), |capacities| + 1)
  }

  function Allocated(total: real, capacities: seq<real>, weights: seq<real>): (r: seq<real>)
    requires |capacities| <= |weights|
    ensures |r| == |capacities|
  {
    var result := Final(total, capacities, weights).result;
    if total < 0.0 then seq(|result|, i requires 0 <= i < |result| => -result[i]) else result
  }

  method AllocateByCapacity(total: real, capacities: seq<real>, weights: seq<real>) returns (result: seq<real>)
    requires |capacities| <= |weights|
    ensures result == Allocated(total, capacities, weights)
  {
    hide Pass, Sum;
    var n := |capacities|;
    result := seq(n, i => 0.0);
    var remaining := Abs(total);
    ghost var start := Start(total, capacities, weights);
    if remaining <= TOLERANCE || n == 0 {
      assert Passes(capacities, weights, start, n + 1) == start by {
        if n == 0 {
          assert ActiveWeights(weights, start.active) == [];
          SumZeros([]);
        }
      }
      assert total < 0.0 ==> Allocated(total, capacities, weights) == result;
      return;
    }
    var active := seq(n, i => false);
    for i := 0 to n
      invariant |active| == n
      invariant forall j :: 0 <= j < i ==> active[j] == Eligible(capacities, weights, j)
    {
      active := active[i := capacities[i] > TOLERANCE && weights[i] > 0.0];
    }
    assert active == start.active;

    var pass := 0;
    while pass < n + 1 && remaining > TOLERANCE
      invariant 0 <= pass <= n + 1
      invariant FillFits(capacities, weights, Fill(result, active, remaining))
      invariant Passes(capacities, weights, Fill(result, active, remaining), n + 1 - pass)
             == Passes(capacities, weights, start, n + 1)
    {
      var weightSum := WeightOf(weights, active);
      if weightSum <= WEIGHT_FLOOR {
        break;
      }
      ghost var before := Fill(result, active, remaining);
      ghost var next := Pass(capacities, weights, before, weightSum);
      var distributed;
      result, active, distributed := RunPass(capacities, weights, result, active, remaining, weightSum);
      if distributed <= TOLERANCE {
        assert Fill(result, active, remaining) == next.(remaining := before.remaining);
        assert Passes(capacities, weights, start, n + 1).result == result;
        break;
      }
      remaining := remaining - distributed;
      assert Fill(result, active, remaining) == next;
      pass := pass + 1;
    }
    if total < 0.0 {
      ghost var magnitudes := result;
      for i := 0 to n
        invariant |result| == n
        invariant forall j :: 0 <= j < i ==> result[j] == -magnitudes[j]
        invariant forall j :: i <= j < n ==> result[j] == magnitudes[j]
      {
        result := result[i := -result[i]];
      }
    }
  }

  method WeightOf(weights: seq<real>, active: seq<bool>) returns (weightSum: real)
    requires |active| <= |weights|
    ensures weightSum == Sum(ActiveWeights(weights, active))
  {
    weightSum := 0.0;
    ghost var w := ActiveWeights(weights, active);
    for i := 0 to |active|
      invariant weightSum == Sum(w[..i])
    {
      SumStep(w, i);
      if active[i] {
        weightSum := weightSum + weights[i];
      }
    }
    assert w[..|active|] == w;
  }

  lemma PassParts(capacities: seq<real>, weights: seq<real>, fill: Fill, weightSum: real)
    requires FillFits(capacities, weights, fill) && weightSum > 0.0
    ensures var all, r := AppliedAll(capacities, weights, fill, weightSum), Pass(capacities, weights, fill, weightSum);
            && |all| == |r.result| == |r.active| == |capacities| && r.remaining == fill.remaining - Sum(all)
            && (forall i :: 0 <= i < |capacities| ==> r.result[i] == fill.result[i] + all[i])
            && (forall i :: 0 <= i < |capacities| ==>
              r.active[i] == StaysActive(capacities, weights, fill, weightSum, i))
    ensures Sum([]) == 0.0
  {
    hide Applied, StaysActive;
  }

  lemma PassAt(capacities: seq<real>, weights: seq<real>, fill: Fill, weightSum: real, i: nat)
    requires FillFits(capacities, weights, fill) && weightSum > 0.0 && i < |capacities|
    ensures |AppliedAll(capacities, weights, fill, weightSum)| == |capacities|
    ensures var room := Max(0.0, capacities[i] - fill.result[i]);
            var applied := AppliedAll(capacities, weights, fill, weightSum)[i];
            && applied == (if fill.active[i] then Min(room, Share(fill.remaining, weights[i], weightSum)) else 0.0)
            && (StaysActive(capacities, weights, fill, weightSum, i) <==>
              fill.active[i] && !(room - applied <= TOLERANCE))
  {
    hide Share, Min, Max;
  }

  /** The inner loop over the devices: results and the active flags change in place. */
  method RunPass(capacities: seq<real>, weights: seq<real>, result0: seq<real>, active0: seq<bool>,
                 roundRemaining: real, weightSum: real)
    returns (result: seq<real>, active: seq<bool>, distributed: real)
    requires FillFits(capacities, weights, Fill(result0, active0, roundRemaining)) && weightSum > 0.0
    ensures Fill(result, active, roundRemaining - distributed)
         == Pass(capacities, weights, Fill(result0, active0, roundRemaining), weightSum)
  {
    hide Share, Applied, AppliedAll, StaysActive, Sum, Min, Max, Pass;
    ghost var fill := Fill(result0, active0, roundRemaining);
    ghost var all := AppliedAll(capacities, weights, fill, weightSum);
    PassParts(capacities, weights, fill, weightSum);
    result, active, distributed := result0, active0, 0.0;
    var n := |active0|;
    for i := 0 to n
      invariant |result| == |active| == n
      invariant distributed == Sum(all[..i])
      invariant forall j :: 0 <= j < i ==> result[j] == result0[j] + all[j]
      invariant forall j :: 0 <= j < i ==> active[j] == StaysActive(capacities, weights, fill, weightSum, j)
      invariant forall j :: i <= j < n ==> result[j] == result0[j] && active[j] == active0[j]
    {
      SumStep(all, i);
      PassAt(capacities, weights, fill, weightSum, i);
      if !active[i] {
        continue;
      }
      var room := Max(0.0, capacities[i] - result[i]);
      var share := Share(roundRemaining, weights[i], weightSum);
      var applied := Min(room, share);
      assert applied == all[i];
      result := result[i := result[i] + applied];
      distributed := distributed + applied;
      if room - applied <= TOLERANCE {
        active := active[i := false];
      }
    }
    assert all[..n] == all;
  }
}
