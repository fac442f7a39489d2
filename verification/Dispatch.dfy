/** The latch for dispatch commands, and what the controller is fed from it. */
module Dispatch {
  import opened Results
  import opened Reals
  import opened PowerLimits
  import opened ControllerTypes
  import opened ControlLaw
  import opened ControllerRuns
  import opened WriteBook

  /** What the service meets in one tick: the inputs it has read, the second reading of the command
      sequence when it was usable, whether the power ownership would be granted, and the point bus. */
  datatype Tick = Tick(observed: CycleInput, confirmed: Option<int>, granted: bool, bus: Bus)

  predicate Stable(tick: Tick) {
    tick.confirmed == Some(tick.observed.command.sequence)
  }

  /** A confirmed command with a positive sequence that is newer than the latched one. */
  predicate Supersedes(latched: Option<Command>, tick: Tick) {
    && Stable(tick)
    && tick.observed.command.sequence > 0
    && (latched.None? || tick.observed.command.sequence > latched.value.sequence)
  }

  function Latch(latched: Option<Command>, tick: Tick): Option<Command> {
    if Supersedes(latched, tick) then Some(tick.observed.command) else latched
  }

  function ControllerInput(latched: Option<Command>, tick: Tick, writesFailed: bool): CycleInput {
    tick.observed.(
      command := if latched.Some? then latched.value else tick.observed.command,
      inputHealthy := tick.observed.inputHealthy && Stable(tick) && !writesFailed)
  }

  /** What the controller is fed is unsafe when the service's reading is, when it is not stable, or when writes fail;
      and the command is the latched one, not the one just read. */
  lemma UnstableIsUnsafe(latched: Option<Command>, tick: Tick, writesFailed: bool)
    ensures var input, seen := ControllerInput(latched, tick, writesFailed), tick.observed;
            && (Unsafe(input) <==> Unsafe(seen) || writesFailed || tick.confirmed != Some(seen.command.sequence))
            && (latched.Some? ==> input.command == latched.value)
            && input == seen.(command := input.command, inputHealthy := input.inputHealthy)
  {
  }

  /** The latch after a run of ticks. */
  function LatchAfter(latched: Option<Command>, ticks: seq<Tick>): Option<Command> {
    if ticks == [] then latched
    else Latch(LatchAfter(latched, ticks[..|ticks| - 1]), ticks[|ticks| - 1])
  }

  /** Over every run the latched sequence never decreases; a different command is held only when some
      tick confirmed it with a strictly larger sequence; and no confirmed larger one is missed. */
  lemma {:induction false} LatchIsMonotone(latched: Option<Command>, ticks: seq<Tick>)
    ensures var after := LatchAfter(latched, ticks);
            && (latched.Some? ==> after.Some? && latched.value.sequence <= after.value.sequence)
            && (after != latched ==>
                  && after.Some?
                  && (latched.Some? ==> latched.value.sequence < after.value.sequence)
                  && exists k :: 0 <= k < |ticks| && Stable(ticks[k]) && ticks[k].observed.command == after.value)
            && (forall k :: 0 <= k < |ticks| && Stable(ticks[k]) && ticks[k].observed.command.sequence > 0 ==>
                  after.Some? && ticks[k].observed.command.sequence <= after.value.sequence)
  {
    if ticks != [] {
      var n := |ticks| - 1;
      LatchIsMonotone(latched, ticks[..n]);
      var before, after := LatchAfter(latched, ticks[..n]), LatchAfter(latched, ticks);
      if after != latched {
        if after == before {
          var k :| 0 <= k < n && Stable(ticks[..n][k]) && ticks[..n][k].observed.command == after.value;
          assert Stable(ticks[k]) && ticks[k].observed.command == after.value;
        } else {
          assert Stable(ticks[n]) && ticks[n].observed.command == after.value;
        }
      }
      forall k | 0 <= k < |ticks| && Stable(ticks[k]) && ticks[k].observed.command.sequence > 0
        ensures after.Some? && ticks[k].observed.command.sequence <= after.value.sequence
      {
        if k < n {
          assert ticks[..n][k] == ticks[k];
        }
      }
    }
  }

  /** The controller's inputs over a run; `failed[k]` says that tick `k` found the write failures at
      their limit. */
  function InputsOf(latched: Option<Command>, ticks: seq<Tick>, failed: seq<bool>): (r: seq<CycleInput>)
    requires |failed| == |ticks|
    ensures |r| == |ticks|
  {
    if ticks == [] then []
    else
      var n := |ticks| - 1;
      InputsOf(latched, ticks[..n], failed[..n]) + [ControllerInput(LatchAfter(latched, ticks), ticks[n], failed[n])]
  }

  /** Nothing newer than the latched command is confirmed. */
  predicate NoNewCommand(latched: Option<Command>, ticks: seq<Tick>) {
    forall k :: 0 <= k < |ticks| ==> !Supersedes(latched, ticks[k])
  }

  lemma {:induction false} LatchHolds(latched: Option<Command>, ticks: seq<Tick>)
    requires NoNewCommand(latched, ticks)
    ensures LatchAfter(latched, ticks) == latched
  {
    if ticks != [] {
      LatchHolds(latched, ticks[..|ticks| - 1]);
    }
  }

  /** The latched command, if any, is past its timeout. */
  predicate Expired(cfg: Config, latched: Option<Command>, nowMs: int) {
    latched.Some? ==> nowMs - latched.value.issuedAtMs > cfg.commandTimeoutMs
  }

  lemma ExpiredIsUndirected(cfg: Config, latched: Option<Command>, tick: Tick, writesFailed: bool)
    requires Expired(cfg, latched, tick.observed.nowMs) && !Supersedes(latched, tick) && !tick.observed.priorityBlocked
    ensures Undirected(cfg, ControllerInput(latched, tick, writesFailed))
  {
  }

  /** The clock of a run does not go back. */
  predicate ClockForward(ticks: seq<Tick>) {
    forall k :: 0 < k < |ticks| ==> ticks[k - 1].observed.nowMs <= ticks[k].observed.nowMs
  }

  /** A command that has expired at the start of a run stays expired. */
  lemma {:induction false} ExpiredThroughout(cfg: Config, latched: Option<Command>, ticks: seq<Tick>, k: nat)
    requires k < |ticks| && ClockForward(ticks) && Expired(cfg, latched, ticks[0].observed.nowMs)
    ensures Expired(cfg, latched, ticks[k].observed.nowMs)
    decreases k
  {
    if k > 0 {
      ExpiredThroughout(cfg, latched, ticks, k - 1);
      assert ticks[k - 1].observed.nowMs <= ticks[k].observed.nowMs;
    }
  }

  lemma {:induction false} LostDispatchIsUndirected(cfg: Config, latched: Option<Command>, ticks: seq<Tick>,
                                                    failed: seq<bool>)
    requires |failed| == |ticks| && NoNewCommand(latched, ticks)
    requires forall k :: 0 <= k < |ticks| ==>
               Expired(cfg, latched, ticks[k].observed.nowMs) && !ticks[k].observed.priorityBlocked
    ensures forall k :: 0 <= k < |ticks| ==> Undirected(cfg, InputsOf(latched, ticks, failed)[k])
  {
    hide Undirected, Supersedes;
    if ticks != [] {
      var n := |ticks| - 1;
      LostDispatchIsUndirected(cfg, latched, ticks[..n], failed[..n]);
      LatchHolds(latched, ticks);
      assert !Supersedes(latched, ticks[n]);
      ExpiredIsUndirected(cfg, latched, ticks[n], failed[n]);
    }
  }

  /** Loss of dispatch drives power to zero: once the latched command has expired, in every run with a clock that
      does not go back, in which nothing newer is confirmed and no priority pause occurs, whatever else the inputs are,
      each PCS's |P| and |Q| only shrink, by at least its slowest ramp times the elapsed time, and are
      exactly zero once that covers where they started. */
  lemma LostDispatchRampsToZero(cfg: Config, libm: Libm, memory: Memory, latched: Option<Command>, ticks: seq<Tick>,
                                failed: seq<bool>, i: nat, rate: real)
    requires |memory.pcs| == |cfg.pcs| && i < |cfg.pcs| && RampsAtLeast(cfg.pcs[i], rate)
    requires |failed| == |ticks| && NoNewCommand(latched, ticks) && ClockForward(ticks)
    requires ticks != [] ==> Expired(cfg, latched, ticks[0].observed.nowMs)
    requires forall k :: 0 <= k < |ticks| ==> !ticks[k].observed.priorityBlocked
    ensures var inputs := InputsOf(latched, ticks, failed);
            var covered := RampOver(rate, Elapsed(cfg, memory.lastCycleMs, inputs));
            var before, after := memory.pcs[i], After(cfg, libm, memory, inputs).pcs[i];
            && RampedDown(before.p, after.p, covered) && RampedDown(before.q, after.q, covered)
            && (Abs(before.p) <= covered ==> after.p == 0.0)
            && (Abs(before.q) <= covered ==> after.q == 0.0)
  {
    hide Cycle, RampedDown, RampOver, Expired, RampsAtLeast, ClockForward;
    forall k | 0 <= k < |ticks|
      ensures Expired(cfg, latched, ticks[k].observed.nowMs)
    {
      ExpiredThroughout(cfg, latched, ticks, k);
    }
    LostDispatchIsUndirected(cfg, latched, ticks, failed);
    UndirectedRunRampsToZero(cfg, libm, memory, InputsOf(latched, ticks, failed), i, rate);
  }
}
