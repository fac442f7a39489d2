/** The allocation that respects a minimum stable power: converters whose share falls below their
    minimum are taken out one at a time, the smallest share first. */
module MinimumPower {
  import opened Results
  import opened Reals
  import opened Allocation
  import WaterFilling

  function MinimumOf(minimums: seq<real>, i: nat): real {
    if i < |minimums| then Max(0.0, minimums[i]) else 0.0
  }

  /** Device `i` runs, but below its minimum. */
  predicate Below(result: seq<real>, minimums: seq<real>, i: nat)
    requires i < |result|
  {
    && Abs(result[i]) > TOLERANCE
    && Abs(result[i]) + TOLERANCE < MinimumOf(minimums, i)
  }

  /** The first of the smallest shares below their minimum, among the first `n` devices. */
  function SmallestBelow(result: seq<real>, minimums: seq<real>, n: nat): (r: Option<nat>)
    requires n <= |result|
    ensures r == None ==> forall j :: 0 <= j < n ==> !Below(result, minimums, j)
    ensures r.Some? ==>
              && r.value < n && Below(result, minimums, r.value)
              && (forall j :: 0 <= j < n && Below(result, minimums, j) ==> Abs(result[r.value]) <= Abs(result[j]))
              && (forall j :: 0 <= j < r.value && Below(result, minimums, j) ==> Abs(result[r.value]) < Abs(result[j]))
  {
    if n == 0 then None
    else
      var best := SmallestBelow(result, minimums, n - 1);
      if Below(result, minimums, n - 1) && (best.Some? ==> Abs(result[n - 1]) < Abs(result[best.value]))
      then Some(n - 1) else best
  }

  /** The elimination loop with `rounds` iterations left; running out of iterations gives all zeros. */
  function Eliminate(total: real, capacities: seq<real>, minimums: seq<real>, weights: seq<real>, rounds: nat)
    : (r: seq<real>)
    requires |capacities| <= |weights|
    ensures |r| == |capacities|
    decreases rounds
  {
    if rounds == 0 then seq(|capacities|, i => 0.0)
    else
      var result := Allocated(total, capacities, weights);
      match SmallestBelow(result, minimums, |result|)
      case None => result
      case Some(b) => Eliminate(total, capacities[b := 0.0], minimums, weights, rounds - 1)
  }

  function AllocatedWithMinimum(total: real, capacities: seq<real>, minimums: seq<real>, weights: seq<real>)
    : (r: seq<real>)
    requires |capacities| <= |weights|
    ensures |r| == |capacities|
  {
    Eliminate(total, capacities, minimums, weights, |capacities| + 1)
  }

  /** The scan for the smallest share below its minimum; `|result|` when there is none. */
  method FindBelowMinimum(result: seq<real>, minimums: seq<real>) returns (belowMinimum: nat)
    ensures match SmallestBelow(result, minimums, |result|)
            case None => belowMinimum == |result|
            case Some(b) => belowMinimum == b
  {
    belowMinimum := |result|;
    // The C++ code starts the running minimum at infinity; "no candidate yet" says the same.
    var smallestAllocation := 0.0;
    for i := 0 to |result|
      invariant 0 <= belowMinimum <= |result|
      invariant belowMinimum == |result| ==> SmallestBelow(result, minimums, i) == None
      invariant belowMinimum != |result| ==> SmallestBelow(result, minimums, i) == Some(belowMinimum)
      invariant belowMinimum != |result| ==> smallestAllocation == Abs(result[belowMinimum])
    {
      var magnitude := Abs(result[i]);
      var minimum := if i < |minimums| then Max(0.0, minimums[i]) else 0.0;
      if magnitude > TOLERANCE && magnitude + TOLERANCE < minimum
         && (belowMinimum == |result| || magnitude < smallestAllocation) {
        belowMinimum := i;
        smallestAllocation := magnitude;
      }
    }
  }

  /** The elimination ends by itself after taking out `k` devices, each the smallest below its minimum when it was
      taken out, and leaves the capacities `effective`. */
  ghost predicate EndsAfter(total: real, capacities: seq<real>, minimums: seq<real>, weights: seq<real>, k: nat,
                            effective: seq<real>)
    requires |capacities| <= |weights|
    decreases k
  {
    var result := Allocated(total, capacities, weights);
    match SmallestBelow(result, minimums, |result|)
    case None => k == 0 && effective == capacities
    case Some(b) => k > 0 && EndsAfter(total, capacities[b := 0.0], minimums, weights, k - 1, effective)
  }

  /** The all-zero fallback behind the loop is never reached. */
  method AllocateWithMinimum(total: real, capacities: seq<real>, minimums: seq<real>, weights: seq<real>)
    returns (result: seq<real>)
    requires |capacities| <= |weights|
    ensures result == AllocatedWithMinimum(total, capacities, minimums, weights)
  {
    hide Allocated;
    var n := |capacities|;
    var effective := capacities;
    ghost var k, last := EliminationFinishes(total, capacities, minimums, weights);
    for pass := 0 to n + 1
      invariant |effective| == n && pass <= k
      invariant EndsAfter(total, effective, minimums, weights, k - pass, last)
      invariant Eliminate(total, effective, minimums, weights, n + 1 - pass)
             == AllocatedWithMinimum(total, capacities, minimums, weights)
    {
      result := AllocateByCapacity(total, effective, weights);
      var belowMinimum := FindBelowMinimum(result, minimums);
      if belowMinimum == |result| {
        return;
      }
      effective := effective[belowMinimum := 0.0];
    }
    assert false;
  }

  function PositiveCount(capacities: seq<real>): (n: nat)
    ensures n <= |capacities|
  {
    if capacities == [] then 0
    else PositiveCount(capacities[..|capacities| - 1]) + if capacities[|capacities| - 1] > TOLERANCE then 1 else 0
  }

  lemma {:induction false} RemovingOneCapacity(capacities: seq<real>, b: nat)
    requires b < |capacities| && capacities[b] > TOLERANCE
    ensures PositiveCount(capacities[b := 0.0]) == PositiveCount(capacities) - 1
  {
    var n := |capacities| - 1;
    var after := capacities[b := 0.0];
    if b == n {
      assert after[..n] == capacities[..n];
    } else {
      RemovingOneCapacity(capacities[..n], b);
      assert after[..n] == capacities[..n][b := 0.0];
    }
  }

  /** Capacities with some devices taken out. */
  ghost predicate SomeTakenOut(capacities: seq<real>, effective: seq<real>) {
    && |effective| == |capacities|
    && forall i :: 0 <= i < |capacities| ==> effective[i] == capacities[i] || effective[i] == 0.0
  }

  lemma ShareWithinCapacity(total: real, capacities: seq<real>, weights: seq<real>)
    requires |capacities| <= |weights|
    ensures forall i :: 0 <= i < |capacities| ==>
              Abs(Allocated(total, capacities, weights)[i]) <= Max(0.0, capacities[i])
    ensures forall i :: 0 <= i < |capacities| && Abs(Allocated(total, capacities, weights)[i]) > TOLERANCE ==>
              capacities[i] > TOLERANCE
    ensures forall i :: 0 <= i < |capacities| ==>
              if total < 0.0 then Allocated(total, capacities, weights)[i] <= 0.0
              else Allocated(total, capacities, weights)[i] >= 0.0
  {
    var level, unserved := WaterFilling.AllocationIsWaterFilling(total, capacities, weights);
    var r := Allocated(total, capacities, weights);
    forall i | 0 <= i < |capacities|
      ensures 0.0 <= WaterFilling.Sign(total) * r[i] <= Max(0.0, capacities[i])
      ensures Abs(r[i]) > TOLERANCE ==> capacities[i] > TOLERANCE
    {
      var ideal := WaterFilling.IdealShare(capacities, weights, level, i);
      assert WaterFilling.Sign(total) * r[i] <= ideal;
    }
  }

  /** The elimination ends by itself: each re-allocation takes one positive capacity out, so it ends after at most as
      many as there are. With more rounds than it needs the loop gives the allocation over what is left, in which
      nothing is below its minimum; only with fewer would it run into the fallback. */
  lemma {:induction false} EliminationFinishes(total: real, capacities: seq<real>, minimums: seq<real>,
                                               weights: seq<real>)
    returns (k: nat, effective: seq<real>)
    requires |capacities| <= |weights|
    ensures k <= PositiveCount(capacities) && EndsAfter(total, capacities, minimums, weights, k, effective)
    ensures SomeTakenOut(capacities, effective)
    ensures forall rounds: nat ::
              Eliminate(total, capacities, minimums, weights, rounds)
              == if rounds > k then Allocated(total, effective, weights) else seq(|capacities|, i => 0.0)
    ensures forall i :: 0 <= i < |capacities| ==> !Below(Allocated(total, effective, weights), minimums, i)
    decreases PositiveCount(capacities)
  {
    hide Allocated, Below;
    var result := Allocated(total, capacities, weights);
    match SmallestBelow(result, minimums, |result|)
    case None =>
      k, effective := 0, capacities;
    case Some(b) =>
      SharePositive(total, capacities, minimums, weights, b);
      RemovingOneCapacity(capacities, b);
      k, effective := EliminationFinishes(total, capacities[b := 0.0], minimums, weights);
      k := k + 1;
  }

  /** A device below its minimum has a positive capacity. */
  lemma SharePositive(total: real, capacities: seq<real>, minimums: seq<real>, weights: seq<real>, b: nat)
    requires |capacities| <= |weights| && b < |capacities|
    requires Below(Allocated(total, capacities, weights), minimums, b)
    ensures capacities[b] > TOLERANCE
  {
    hide Allocated;
    ShareWithinCapacity(total, capacities, weights);
  }

  /** The result is the water-filling over the devices that the elimination keeps, and it takes out none but the
      smallest below its minimum, one at a time. Every magnitude is at most the tolerance or at least the device's
      minimum less the tolerance, never above the original capacity, and has the sign of the total. */
  lemma MinimumsRespected(total: real, capacities: seq<real>, minimums: seq<real>, weights: seq<real>)
    returns (k: nat, effective: seq<real>)
    requires |capacities| <= |weights|
    ensures k <= PositiveCount(capacities) && EndsAfter(total, capacities, minimums, weights, k, effective)
    ensures SomeTakenOut(capacities, effective)
    ensures AllocatedWithMinimum(total, capacities, minimums, weights) == Allocated(total, effective, weights)
    ensures forall i :: 0 <= i < |capacities| ==>
              var r := AllocatedWithMinimum(total, capacities, minimums, weights)[i];
              && (Abs(r) <= TOLERANCE || Abs(r) >= MinimumOf(minimums, i) - TOLERANCE)
              && Abs(r) <= Max(0.0, capacities[i])
              && (if total < 0.0 then r <= 0.0 else r >= 0.0)
  {
    hide Allocated, Eliminate, EndsAfter;
    k, effective := EliminationFinishes(total, capacities, minimums, weights);
    ShareWithinCapacity(total, effective, weights);
    var result := Allocated(total, effective, weights);
    forall i | 0 <= i < |capacities|
      ensures Abs(result[i]) <= TOLERANCE || Abs(result[i]) >= MinimumOf(minimums, i) - TOLERANCE
      ensures Abs(result[i]) <= Max(0.0, capacities[i])
    {
      assert !Below(result, minimums, i);
    }
  }
}
