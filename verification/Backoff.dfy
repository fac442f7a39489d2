/** Backoff of failing block reads: capped exponential waiting, keyed by the exact register range, and
    cleared by any successful read that covers the range. */
module Backoff {
  import opened Bits
  import opened Integers
  import opened Decimal
  import opened ReadTasks

  datatype CollectConfig = CollectConfig(
    cycleBackoffEnabled: bool, taskFailureBackoffThreshold: int,
    taskFailureBackoffCycles: int, taskFailureBackoffMaxCycles: int,
    realtimeTaskFailureBackoffCycles: int, realtimeTaskFailureBackoffMaxCycles: int,
    taskFailureBackoffMs: int, taskFailureBackoffMaxMs: int,
    realtimeTaskFailureBackoffMs: int, realtimeTaskFailureBackoffMaxMs: int,
    adaptiveSplitOnFailure: bool, adaptiveSplitMaxRegisters: int, adaptiveSplitMaxDepth: int)

  datatype FailureState = FailureState(
    consecutiveFailures: int, lastFailureMs: int, noResponse: bool, nextAttemptCycle: int, backoffUntilMs: int)

  type Failures = map<string, FailureState>

  /** When a read is considered: the cycle number, the time, and whether real-time points have focus. */
  datatype Moment = Moment(cycle: int, nowMs: int, realtime: bool)

  /** Doubling per extra failure, up to the larger of base and cap. */
  function CappedDoubling(base: int, cap: int, extraFailures: nat): (r: int) {
    var start := Max(0, base);
    Min(Max(start, cap), start * Pow2(extraFailures))
  }

  lemma {:induction false} DoublingGrows(start: nat, i: nat, j: nat)
    requires i <= j
    ensures start * Pow2(i) <= start * Pow2(j)
    decreases j
  {
    if i < j {
      DoublingGrows(start, i, j - 1);
      assert start * Pow2(j) == 2 * (start * Pow2(j - 1));
    }
  }

  method DoubleUpToCap(base: int, cap: int, extraFailures: nat) returns (wait: int)
    ensures wait == CappedDoubling(base, cap, extraFailures)
  {
    var start := Max(0, base);
    var limit := Max(start, cap);
    wait := start;
    var i := 0;
    while i < extraFailures && wait < limit
      invariant 0 <= i <= extraFailures
      invariant wait == Min(limit, start * Pow2(i))
    {
      assert start * Pow2(i + 1) == 2 * (start * Pow2(i));
      wait := Min(limit, wait * 2);
      i := i + 1;
    }
    DoublingGrows(start, i, extraFailures);
  }

  function Threshold(cfg: CollectConfig): (r: int)
    ensures r >= 1
  {
    Max(1, cfg.taskFailureBackoffThreshold)
  }

  function BackoffCycles(cfg: CollectConfig, failures: int, realtime: bool): (r: int)
    ensures r >= 0
  {
    var extra := Max(0, failures - Threshold(cfg));
    if realtime
    then CappedDoubling(cfg.realtimeTaskFailureBackoffCycles, cfg.realtimeTaskFailureBackoffMaxCycles, extra)
    else CappedDoubling(cfg.taskFailureBackoffCycles, cfg.taskFailureBackoffMaxCycles, extra)
  }

  function BackoffMs(cfg: CollectConfig, failures: int, realtime: bool): (r: int)
    ensures r >= 0
  {
    var extra := Max(0, failures - Threshold(cfg));
    if realtime
    then CappedDoubling(cfg.realtimeTaskFailureBackoffMs, cfg.realtimeTaskFailureBackoffMaxMs, extra)
    else CappedDoubling(cfg.taskFailureBackoffMs, cfg.taskFailureBackoffMaxMs, extra)
  }

  predicate ShouldSkip(cfg: CollectConfig, failures: Failures, task: ReadTask, at: Moment) {
    var key := KeyOf(task);
    if key !in failures then false
    else if cfg.cycleBackoffEnabled then failures[key].nextAttemptCycle > at.cycle
    else if !at.realtime then failures[key].backoffUntilMs > at.nowMs
    else
      var wait := Max(0, cfg.realtimeTaskFailureBackoffMs);
      wait > 0 && failures[key].lastFailureMs > 0 && at.nowMs - failures[key].lastFailureMs < wait
  }

  function StateOf(failures: Failures, key: string): FailureState {
    if key in failures then failures[key] else FailureState(0, 0, false, 0, 0)
  }

  function NoteFailure(cfg: CollectConfig, failures: Failures, task: ReadTask, at: Moment, noResponse: bool): Failures {
    var state := StateOf(failures, KeyOf(task));
    var count := state.consecutiveFailures + 1;
    var noted := state.(consecutiveFailures := count, lastFailureMs := at.nowMs, noResponse := noResponse);
    failures[KeyOf(task) :=
      if count < Threshold(cfg) then noted
      else if cfg.cycleBackoffEnabled
      then noted.(nextAttemptCycle := at.cycle + BackoffCycles(cfg, count, at.realtime) + 1)
      else noted.(backoffUntilMs := at.nowMs + BackoffMs(cfg, count, at.realtime))]
  }

  predicate ClearedBy(task: ReadTask, key: string) {
    var parsed := ParseKey(key);
    && parsed.Some? && parsed.value.code == task.code
    && RangeCovers(task.start, task.count, parsed.value.start, parsed.value.count)
  }

  function NoteSuccess(failures: Failures, task: ReadTask): Failures {
    map key | key in failures && !ClearedBy(task, key) :: failures[key]
  }

  /** A successful read clears exactly the entries of the ranges it covers. */
  lemma ClearsExactlyCovered(failures: Failures, task: ReadTask, code: int, start: int, count: int)
    requires IsInt32(code) && IsInt32(start) && IsInt32(count)
    requires Key(code, start, count) in failures
    ensures Key(code, start, count) !in NoteSuccess(failures, task)
       <==> count > 0 && code == task.code && RangeCovers(task.start, task.count, start, count)
  {
    ParsePrintedKey(code, start, count);
  }

  // ----- the wait -----

  /** The wait after `n` failures and the next one: it starts at its base, doubles with each failure beyond the
      threshold, and stops growing at its cap. */
  predicate Doubles(n: int, wait: int, next: int, base: int, cap: int, threshold: int) {
    && (n <= threshold ==> wait == base) && (n >= threshold ==> next == Min(cap, 2 * wait)) && base <= wait <= cap
  }

  /** The waits double from the threshold on, in cycles and in time, with bases and caps of their own for tasks read in
      real time. */
  lemma WaitDoubles(cfg: CollectConfig, n: int, realtime: bool)
    ensures var base := Max(0, if realtime then cfg.realtimeTaskFailureBackoffCycles else cfg.taskFailureBackoffCycles);
            var cap := if realtime then cfg.realtimeTaskFailureBackoffMaxCycles else cfg.taskFailureBackoffMaxCycles;
            Doubles(n, BackoffCycles(cfg, n, realtime), BackoffCycles(cfg, n + 1, realtime), base, Max(base, cap),
                    Max(1, cfg.taskFailureBackoffThreshold))
    ensures var base := Max(0, if realtime then cfg.realtimeTaskFailureBackoffMs else cfg.taskFailureBackoffMs);
            var cap := if realtime then cfg.realtimeTaskFailureBackoffMaxMs else cfg.taskFailureBackoffMaxMs;
            Doubles(n, BackoffMs(cfg, n, realtime), BackoffMs(cfg, n + 1, realtime), base, Max(base, cap),
                    Max(1, cfg.taskFailureBackoffThreshold))
  {
    hide CappedDoubling;
    var extra := Max(0, n - Threshold(cfg));
    if realtime {
      DoublingStep(cfg.realtimeTaskFailureBackoffCycles, cfg.realtimeTaskFailureBackoffMaxCycles, extra);
      DoublingStep(cfg.realtimeTaskFailureBackoffMs, cfg.realtimeTaskFailureBackoffMaxMs, extra);
    } else {
      DoublingStep(cfg.taskFailureBackoffCycles, cfg.taskFailureBackoffMaxCycles, extra);
      DoublingStep(cfg.taskFailureBackoffMs, cfg.taskFailureBackoffMaxMs, extra);
    }
  }

  lemma DoublingStep(base: int, cap: int, extra: nat)
    ensures CappedDoubling(base, cap, 0) == Max(0, base)
    ensures Max(0, base) <= CappedDoubling(base, cap, extra) <= Max(Max(0, base), cap)
    ensures CappedDoubling(base, cap, extra + 1) == Min(Max(Max(0, base), cap), 2 * CappedDoubling(base, cap, extra))
  {
    var start := Max(0, base);
    DoublingGrows(start, 0, extra);
    assert start * Pow2(0) == start;
    assert start * Pow2(extra + 1) == 2 * (start * Pow2(extra));
  }

  /** Backoff by time: from its threshold on, a failure holds the range back exactly for its wait, seen from reads that
      are not in real time; reads in real time wait the base time from any failure. Other ranges are not touched. */
  lemma FailureHoldsForTime(cfg: CollectConfig, failures: Failures, task: ReadTask, at: Moment, noResponse: bool,
                            later: Moment, other: ReadTask)
    requires !cfg.cycleBackoffEnabled
    ensures var after := NoteFailure(cfg, failures, task, at, noResponse);
            var count := StateOf(failures, KeyOf(task)).consecutiveFailures + 1;
            && (later.realtime ==>
                  (ShouldSkip(cfg, after, task, later)
                   <==> at.nowMs > 0 && later.nowMs < at.nowMs + cfg.realtimeTaskFailureBackoffMs
                        && cfg.realtimeTaskFailureBackoffMs > 0))
            && (!later.realtime && count >= Max(1, cfg.taskFailureBackoffThreshold) ==>
                  (ShouldSkip(cfg, after, task, later)
                   <==> later.nowMs < at.nowMs + BackoffMs(cfg, count, at.realtime)))
            && (KeyOf(other) != KeyOf(task) ==>
                  (ShouldSkip(cfg, after, other, later) <==> ShouldSkip(cfg, failures, other, later)))
  {
    hide KeyOf, BackoffMs;
  }

  // ----- runs -----

  datatype Scheduler = Scheduler(cycle: int, failures: Failures)

  /** The next cycle begins, or a block read is attempted and answered. */
  datatype Step =
    | NextCycle
    | Attempt(task: ReadTask, nowMs: int, realtime: bool, ok: bool, noResponse: bool)

  predicate Legal(cfg: CollectConfig, s: Scheduler, step: Step) {
    step.Attempt? ==> !ShouldSkip(cfg, s.failures, step.task, Moment(s.cycle, step.nowMs, step.realtime))
  }

  function Take(cfg: CollectConfig, s: Scheduler, step: Step): Scheduler {
    match step
    case NextCycle => s.(cycle := s.cycle + 1)
    case Attempt(task, nowMs, realtime, ok, noResponse) =>
      if ok then s.(failures := NoteSuccess(s.failures, task))
      else s.(failures := NoteFailure(cfg, s.failures, task, Moment(s.cycle, nowMs, realtime), noResponse))
  }

  function Run(cfg: CollectConfig, s: Scheduler, steps: seq<Step>): Scheduler {
    if steps == [] then s else Take(cfg, Run(cfg, s, steps[..|steps| - 1]), steps[|steps| - 1])
  }

  predicate LegalRun(cfg: CollectConfig, s: Scheduler, steps: seq<Step>) {
    forall k :: 0 <= k < |steps| ==> Legal(cfg, Run(cfg, s, steps[..k]), steps[k])
  }

  /** No successful read in the run covers the task's range. */
  predicate NeverCovered(steps: seq<Step>, task: ReadTask) {
    forall k :: 0 <= k < |steps| && steps[k].Attempt? && steps[k].ok ==> !ClearedBy(steps[k].task, KeyOf(task))
  }

  lemma {:induction false} CycleNeverFalls(cfg: CollectConfig, s: Scheduler, steps: seq<Step>)
    ensures s.cycle <= Run(cfg, s, steps).cycle
  {
    if steps != [] {
      CycleNeverFalls(cfg, s, steps[..|steps| - 1]);
    }
  }

  /** While the waiting lasts, the entry stays as it is. */
  lemma {:induction false} EntryStays(cfg: CollectConfig, s: Scheduler, steps: seq<Step>, task: ReadTask)
    requires cfg.cycleBackoffEnabled && KeyOf(task) in s.failures
    requires LegalRun(cfg, s, steps) && NeverCovered(steps, task)
    requires steps != [] ==>
               Run(cfg, s, steps[..|steps| - 1]).cycle < s.failures[KeyOf(task)].nextAttemptCycle
    ensures var after := Run(cfg, s, steps).failures;
            KeyOf(task) in after && after[KeyOf(task)] == s.failures[KeyOf(task)]
  {
    hide ClearedBy, KeyOf;
    if steps != [] {
      var n := |steps| - 1;
      assert forall k :: 0 <= k < n ==> steps[..n][..k] == steps[..k];
      if n > 0 {
        assert Run(cfg, s, steps[..n][..n - 1]).cycle <= Run(cfg, s, steps[..n]).cycle by {
          CycleNeverFalls(cfg, Run(cfg, s, steps[..n - 1]), [steps[n - 1]]);
          assert steps[..n][..n - 1] == steps[..n - 1];
        }
      }
      EntryStays(cfg, s, steps[..n], task);
      assert Legal(cfg, Run(cfg, s, steps[..n]), steps[n]);
    }
  }

  lemma HeldBack(cfg: CollectConfig, s: Scheduler, steps: seq<Step>, task: ReadTask, k: nat)
    requires cfg.cycleBackoffEnabled && KeyOf(task) in s.failures && k < |steps|
    requires LegalRun(cfg, s, steps) && NeverCovered(steps[..k], task)
    requires steps[k].Attempt? && KeyOf(steps[k].task) == KeyOf(task)
    ensures Run(cfg, s, steps[..k]).cycle >= s.failures[KeyOf(task)].nextAttemptCycle
  {
    hide ClearedBy, KeyOf;
    assert Legal(cfg, Run(cfg, s, steps[..k]), steps[k]);
    if Run(cfg, s, steps[..k]).cycle < s.failures[KeyOf(task)].nextAttemptCycle {
      var prefix := steps[..k];
      assert forall j :: 0 <= j < k ==> prefix[..j] == steps[..j] && prefix[j] == steps[j];
      if k > 0 {
        CycleNeverFalls(cfg, Run(cfg, s, prefix[..k - 1]), [prefix[k - 1]]);
      }
      EntryStays(cfg, s, prefix, task);
    }
  }

  /** `s` is the state right after a failure that brought the range's count to `count`, at or above
      the threshold. */
  ghost predicate JustFailed(cfg: CollectConfig, before: Scheduler, s: Scheduler, task: ReadTask, realtime: bool,
                             count: int) {
    && count == StateOf(before.failures, KeyOf(task)).consecutiveFailures + 1 >= Threshold(cfg)
    && exists nowMs, noResponse :: s == Take(cfg, before, Attempt(task, nowMs, realtime, false, noResponse))
  }

  lemma FailureSetsWait(cfg: CollectConfig, before: Scheduler, s: Scheduler, task: ReadTask, realtime: bool, count: int)
    requires cfg.cycleBackoffEnabled && JustFailed(cfg, before, s, task, realtime, count)
    ensures KeyOf(task) in s.failures
    ensures s.failures[KeyOf(task)].nextAttemptCycle == before.cycle + BackoffCycles(cfg, count, realtime) + 1
  {
    hide KeyOf, BackoffCycles;
  }

  /** A legal run that ends by reading the range again has outlasted the wait, unless a covering read succeeded. */
  lemma ReadAgain(cfg: CollectConfig, before: Scheduler, s: Scheduler, task: ReadTask, realtime: bool, count: int,
                  steps: seq<Step>)
    requires cfg.cycleBackoffEnabled && JustFailed(cfg, before, s, task, realtime, count) && LegalRun(cfg, s, steps)
    requires steps != [] && steps[|steps| - 1].Attempt? && KeyOf(steps[|steps| - 1].task) == KeyOf(task)
    requires NeverCovered(steps[..|steps| - 1], task)
    ensures Run(cfg, s, steps[..|steps| - 1]).cycle > before.cycle + BackoffCycles(cfg, count, realtime)
  {
    hide KeyOf, BackoffCycles, JustFailed, LegalRun, NeverCovered, Run;
    FailureSetsWait(cfg, before, s, task, realtime, count);
    HeldBack(cfg, s, steps, task, |steps| - 1);
  }

  /** No failing read of the task's exact range in the run. */
  predicate NeverFails(steps: seq<Step>, task: ReadTask) {
    forall k :: 0 <= k < |steps| && steps[k].Attempt? && !steps[k].ok ==> KeyOf(steps[k].task) != KeyOf(task)
  }

  /** Without a further failure of the range, its entry is unchanged until a covering read clears it. */
  lemma {:induction false} EntryKeptOrCleared(cfg: CollectConfig, s: Scheduler, steps: seq<Step>, task: ReadTask)
    requires KeyOf(task) in s.failures && NeverFails(steps, task)
    ensures var after := Run(cfg, s, steps).failures;
            && (KeyOf(task) in after ==> after[KeyOf(task)] == s.failures[KeyOf(task)])
            && (KeyOf(task) in after <==> NeverCovered(steps, task))
  {
    hide ClearedBy, KeyOf;
    if steps != [] {
      var n := |steps| - 1;
      EntryKeptOrCleared(cfg, s, steps[..n], task);
      assert steps == steps[..n] + [steps[n]];
      assert NeverCovered(steps, task) <==> NeverCovered(steps[..n], task) && NeverCovered([steps[n]], task) by {
        CoveredInParts(steps[..n], [steps[n]], task);
      }
    }
  }

  lemma CoveredInParts(a: seq<Step>, b: seq<Step>, task: ReadTask)
    ensures NeverCovered(a + b, task) <==> NeverCovered(a, task) && NeverCovered(b, task)
  {
    hide ClearedBy, KeyOf;
    var all := a + b;
    if NeverCovered(all, task) {
      forall k | 0 <= k < |a| && a[k].Attempt? && a[k].ok
        ensures !ClearedBy(a[k].task, KeyOf(task))
      {
        assert all[k] == a[k];
      }
      forall k | 0 <= k < |b| && b[k].Attempt? && b[k].ok
        ensures !ClearedBy(b[k].task, KeyOf(task))
      {
        assert all[|a| + k] == b[k];
      }
    }
  }

  /** At every later moment, until the range fails again, it is held back exactly while the wait lasts and no
      covering read has succeeded. */
  lemma HeldExactlyWhileWaiting(cfg: CollectConfig, before: Scheduler, s: Scheduler, task: ReadTask, realtime: bool,
                                count: int, steps: seq<Step>, at: Moment)
    requires cfg.cycleBackoffEnabled && JustFailed(cfg, before, s, task, realtime, count) && NeverFails(steps, task)
    ensures ShouldSkip(cfg, Run(cfg, s, steps).failures, task, at)
       <==> at.cycle <= before.cycle + BackoffCycles(cfg, count, realtime) && NeverCovered(steps, task)
  {
    hide KeyOf, BackoffCycles, JustFailed, NeverCovered, NeverFails, Run;
    FailureSetsWait(cfg, before, s, task, realtime, count);
    EntryKeptOrCleared(cfg, s, steps, task);
  }

  // ----- putting runs together -----

  lemma {:induction false} RunTwo(cfg: CollectConfig, s: Scheduler, a: seq<Step>, b: seq<Step>)
    ensures Run(cfg, s, a + b) == Run(cfg, Run(cfg, s, a), b)
  {
    hide Take;
    if b == [] {
      assert a + b == a;
    } else {
      var n := |b| - 1;
      RunTwo(cfg, s, a, b[..n]);
      assert (a + b)[..|a + b| - 1] == a + b[..n];
    }
  }

  lemma LegalTwo(cfg: CollectConfig, s: Scheduler, a: seq<Step>, b: seq<Step>)
    ensures LegalRun(cfg, s, a + b) <==> LegalRun(cfg, s, a) && LegalRun(cfg, Run(cfg, s, a), b)
  {
    hide Legal, Run;
    var all := a + b;
    forall k | 0 <= k < |a|
      ensures all[..k] == a[..k] && all[k] == a[k]
    {
    }
    forall k | 0 <= k < |b|
      ensures Run(cfg, s, all[..|a| + k]) == Run(cfg, Run(cfg, s, a), b[..k]) && all[|a| + k] == b[k]
    {
      assert all[..|a| + k] == a + b[..k];
      RunTwo(cfg, s, a, b[..k]);
    }
    if LegalRun(cfg, s, all) {
      forall k | 0 <= k < |a|
        ensures Legal(cfg, Run(cfg, s, a[..k]), a[k])
      {
        assert Legal(cfg, Run(cfg, s, all[..k]), all[k]);
      }
      forall k | 0 <= k < |b|
        ensures Legal(cfg, Run(cfg, Run(cfg, s, a), b[..k]), b[k])
      {
        assert Legal(cfg, Run(cfg, s, all[..|a| + k]), all[|a| + k]);
      }
    }
    if LegalRun(cfg, s, a) && LegalRun(cfg, Run(cfg, s, a), b) {
      forall k | 0 <= k < |all|
        ensures Legal(cfg, Run(cfg, s, all[..k]), all[k])
      {
        if k < |a| {
          assert Legal(cfg, Run(cfg, s, a[..k]), a[k]);
        } else {
          var j := k - |a|;
          assert Legal(cfg, Run(cfg, Run(cfg, s, a), b[..j]), b[j]);
          assert all[..|a| + j] == all[..k];
        }
      }
    }
  }
}
