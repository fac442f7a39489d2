/** Backoff over every run of collection cycles, for any devices: what adaptive reading does to the failure
    entries is a legal run of the backoff rules. */
module BackoffRuns {
  import opened ReadTasks
  import opened Backoff
  import opened AdaptiveReading

  // ----- the attempts of adaptive reading -----

  /** The read succeeded: a block of at least the task's registers. */
  predicate Served(answer: Answer, task: ReadTask) {
    answer.Block? && task.count <= |answer.registers|
  }

  /** The `k`-th wire read of a cycle, with the device's answer. */
  function AttemptAt(ctx: Setting, executed: seq<ReadTask>, k: nat): (r: Step)
    requires k < |executed|
    ensures r.Attempt?
  {
    var answer := ctx.device.read(k, executed[k]);
    Attempt(executed[k], ctx.at.nowMs, ctx.at.realtime, Served(answer, executed[k]), answer.NoResponse?)
  }

  function Attempts(ctx: Setting, executed: seq<ReadTask>, from: nat): (r: seq<Step>)
    requires from <= |executed|
    ensures |r| == |executed| - from
  {
    seq(|executed| - from, i requires 0 <= i < |executed| - from => AttemptAt(ctx, executed, from + i))
  }

  /** From `a` to `b` the tasks added to `executed` were legal attempts, and the failure entries changed by
      them and by nothing else. */
  ghost predicate Legitimate(ctx: Setting, a: Progress, b: Progress) {
    && a.executed <= b.executed
    && var start, steps := Scheduler(ctx.at.cycle, a.failures), Attempts(ctx, b.executed, |a.executed|);
       LegalRun(ctx.cfg, start, steps) && Run(ctx.cfg, start, steps) == Scheduler(ctx.at.cycle, b.failures)
  }

  lemma NothingRead(ctx: Setting, a: Progress, b: Progress)
    requires b.executed == a.executed && b.failures == a.failures
    ensures Legitimate(ctx, a, b)
  {
  }

  lemma OneRead(ctx: Setting, a: Progress, b: Progress, task: ReadTask)
    requires !ShouldSkip(ctx.cfg, a.failures, task, ctx.at) && b.executed == a.executed + [task]
    requires var answer := ctx.device.read(|a.executed|, task);
             b.failures == if Served(answer, task) then NoteSuccess(a.failures, task)
                           else NoteFailure(ctx.cfg, a.failures, task, ctx.at, answer.NoResponse?)
    ensures Legitimate(ctx, a, b)
  {
    hide ShouldSkip, NoteSuccess, NoteFailure;
    var start, steps := Scheduler(ctx.at.cycle, a.failures), Attempts(ctx, b.executed, |a.executed|);
    assert steps == [AttemptAt(ctx, b.executed, |a.executed|)];
    assert steps[..0] == [];
    assert Run(ctx.cfg, start, steps[..0]) == start;
    assert Moment(ctx.at.cycle, ctx.at.nowMs, ctx.at.realtime) == ctx.at;
  }

  lemma SameAttempt(ctx: Setting, b: seq<ReadTask>, c: seq<ReadTask>, k: nat)
    requires b <= c && k < |b|
    ensures AttemptAt(ctx, b, k) == AttemptAt(ctx, c, k)
  {
    assert b[k] == c[k];
  }

  lemma AttemptsSplit(ctx: Setting, a: seq<ReadTask>, b: seq<ReadTask>, c: seq<ReadTask>)
    requires a <= b <= c
    ensures Attempts(ctx, c, |a|) == Attempts(ctx, b, |a|) + Attempts(ctx, c, |b|)
  {
    hide AttemptAt;
    var first, second, both := Attempts(ctx, b, |a|), Attempts(ctx, c, |b|), Attempts(ctx, c, |a|);
    forall i | 0 <= i < |first|
      ensures both[i] == first[i]
    {
      SameAttempt(ctx, b, c, |a| + i);
    }
    forall i | |first| <= i < |both|
      ensures both[i] == second[i - |first|]
    {
    }
    assert both == first + second;
  }

  lemma ReadThenRead(ctx: Setting, a: Progress, b: Progress, c: Progress)
    requires Legitimate(ctx, a, b) && Legitimate(ctx, b, c)
    ensures Legitimate(ctx, a, c)
  {
    hide LegalRun, Run, Attempts;
    var start := Scheduler(ctx.at.cycle, a.failures);
    var first, second := Attempts(ctx, b.executed, |a.executed|), Attempts(ctx, c.executed, |b.executed|);
    AttemptsSplit(ctx, a.executed, b.executed, c.executed);
    RunTwo(ctx.cfg, start, first, second);
    LegalTwo(ctx.cfg, start, first, second);
  }

  lemma {:induction false} DecodingReadsNothing(ctx: Setting, st: Progress, task: ReadTask, registers: seq<int>, n: nat)
    requires WellPlaced(task) && task.count <= |registers| && n <= |task.points|
    ensures var r := DecodeBlock(ctx, st, task, registers, n); r.executed == st.executed && r.failures == st.failures
  {
    hide WellPlaced, Slice;
    if n != 0 {
      DecodingReadsNothing(ctx, st, task, registers, n - 1);
    }
  }

  lemma {:induction false} RecordingReadsNothing(ctx: Setting, st: Progress, points: seq<TaskPoint>, n: nat)
    requires n <= |points|
    ensures var r := RecordFailures(ctx, st, points, n); r.executed == st.executed && r.failures == st.failures
  {
    if n != 0 {
      RecordingReadsNothing(ctx, st, points, n - 1);
    }
  }

  /** Reading a block adaptively, for any device, is a legal run: nothing is read while it is held back, every
      read is followed by its note, and nothing else touches the entries. */
  lemma {:induction false} ExecuteIsLegal(ctx: Setting, st: Progress, task: ReadTask, depth: int)
    requires WellPlaced(task)
    ensures Legitimate(ctx, st, Execute(ctx, st, task, depth))
    decreases |task.points|, 1, 0
  {
    hide Legitimate, ExecuteParts, ReadFailed, DecodeBlock, RecordFailures, Split, ShouldSkip, NoteSuccess,
      NoteFailure, WellPlaced;
    var r := Execute(ctx, st, task, depth);
    if ShouldSkip(ctx.cfg, st.failures, task, ctx.at) {
      if !ctx.cfg.cycleBackoffEnabled && CanSplit(ctx.cfg, task, depth)
         && !StateOf(st.failures, KeyOf(task)).noResponse && |Split(task, ctx.cfg.adaptiveSplitMaxRegisters)| > 1 {
        PartsAreLegal(ctx, st, task, depth);
      } else {
        NothingRead(ctx, st, r);
      }
    } else {
      var sent := st.(executed := st.executed + [task]);
      var answer := ctx.device.read(|st.executed|, task);
      if Served(answer, task) {
        var cleared := sent.(failures := NoteSuccess(st.failures, task));
        OneRead(ctx, st, cleared, task);
        DecodingReadsNothing(ctx, cleared, task, answer.registers, |task.points|);
        NothingRead(ctx, cleared, r);
        ReadThenRead(ctx, st, cleared, r);
      } else {
        var noted := sent.(failures := NoteFailure(ctx.cfg, st.failures, task, ctx.at, answer.NoResponse?));
        OneRead(ctx, st, noted, task);
        FailureIsLegal(ctx, sent, task, depth, answer.NoResponse?);
        ReadThenRead(ctx, st, noted, r);
      }
    }
  }

  lemma {:induction false} FailureIsLegal(ctx: Setting, st: Progress, task: ReadTask, depth: int, noResponse: bool)
    requires WellPlaced(task)
    ensures var noted := st.(failures := NoteFailure(ctx.cfg, st.failures, task, ctx.at, noResponse));
            Legitimate(ctx, noted, ReadFailed(ctx, st, task, depth, noResponse))
    decreases |task.points|, 0, 1
  {
    hide Legitimate, ExecuteParts, RecordFailures, Split, NoteFailure, WellPlaced;
    var noted := st.(failures := NoteFailure(ctx.cfg, st.failures, task, ctx.at, noResponse));
    if !noResponse && CanSplit(ctx.cfg, task, depth) && |Split(task, ctx.cfg.adaptiveSplitMaxRegisters)| > 1 {
      PartsAreLegal(ctx, noted, task, depth);
    } else {
      RecordingReadsNothing(ctx, noted, task.points, |task.points|);
      NothingRead(ctx, noted, ReadFailed(ctx, st, task, depth, noResponse));
    }
  }

  lemma {:induction false} PartsAreLegal(ctx: Setting, st: Progress, task: ReadTask, depth: int)
    requires WellPlaced(task) && |Split(task, ctx.cfg.adaptiveSplitMaxRegisters)| > 1
    ensures Legitimate(ctx, st, ExecuteParts(ctx, st, task, depth))
    decreases |task.points|, 0, 0
  {
    hide Legitimate, ExecuteAll, Split, LimitLeafProbes, WellPlaced, Flatten;
    var parts := Split(task, ctx.cfg.adaptiveSplitMaxRegisters);
    var limited := LimitLeafProbes(ctx, st, parts);
    SplitIsSplitting(task, ctx.cfg.adaptiveSplitMaxRegisters);
    SplitShrinks(task, ctx.cfg.adaptiveSplitMaxRegisters);
    var charged := ChargeProbes(ctx, st, parts);
    NothingRead(ctx, st, charged);
    assert |parts[0].points| < |task.points|;
    AllAreLegal(ctx, charged, limited, |limited|, depth + 1, |task.points| - 1);
    ReadThenRead(ctx, st, charged, ExecuteParts(ctx, st, task, depth));
  }

  lemma {:induction false} AllAreLegal(ctx: Setting, st: Progress, tasks: seq<ReadTask>, n: nat, depth: int, bound: nat)
    requires n <= |tasks|
    requires forall k :: 0 <= k < |tasks| ==> WellPlaced(tasks[k]) && |tasks[k].points| <= bound
    ensures Legitimate(ctx, st, ExecuteAll(ctx, st, tasks, n, depth, bound))
    decreases bound, 2, n
  {
    hide Legitimate, Execute, WellPlaced;
    if n == 0 {
      NothingRead(ctx, st, st);
    } else {
      AllAreLegal(ctx, st, tasks, n - 1, depth, bound);
      var middle := ExecuteAll(ctx, st, tasks, n - 1, depth, bound);
      ExecuteIsLegal(ctx, middle, tasks[n - 1], depth);
      ReadThenRead(ctx, st, middle, ExecuteAll(ctx, st, tasks, n, depth, bound));
    }
  }

  // ----- runs of cycles -----

  /** One call of the collector: its device, its moment, the tasks planned and the probe budget. */
  datatype Plan = Plan(device: Device, at: Moment, planned: seq<ReadTask>, leafProbeBudget: int)

  /** The plans of consecutive calls after cycle `start`; a call that reads nothing has no tasks. */
  ghost predicate Consecutive(plans: seq<Plan>, start: int, bound: nat) {
    forall i :: 0 <= i < |plans| ==>
      && plans[i].at.cycle == start + 1 + i
      && forall k :: 0 <= k < |plans[i].planned| ==>
        WellPlaced(plans[i].planned[k]) && |plans[i].planned[k].points| <= bound
  }

  /** The collector's state after the calls. */
  ghost function After(cfg: CollectConfig, st: Progress, plans: seq<Plan>, start: int, bound: nat): Progress
    requires Consecutive(plans, start, bound)
  {
    if plans == [] then st
    else
      var n := |plans| - 1;
      Collected(Setting(cfg, plans[n].device, plans[n].at), After(cfg, st, plans[..n], start, bound), plans[n].planned,
                plans[n].leafProbeBudget, bound)
  }

  /** All that the calls do to the backoff: each begins a cycle and makes the attempts that it executed. */
  ghost function Trace(cfg: CollectConfig, st: Progress, plans: seq<Plan>, start: int, bound: nat): seq<Step>
    requires Consecutive(plans, start, bound)
  {
    if plans == [] then []
    else
      var n := |plans| - 1;
      var after := After(cfg, st, plans, start, bound);
      Trace(cfg, st, plans[..n], start, bound) + [NextCycle]
        + Attempts(Setting(cfg, plans[n].device, plans[n].at), after.executed, 0)
  }

  /** Every run of the collector, for any devices, is a legal run of the backoff rules. */
  lemma {:induction false} CyclesAreLegal(cfg: CollectConfig, st: Progress, plans: seq<Plan>, start: int, bound: nat)
    requires Consecutive(plans, start, bound)
    ensures var s, trace := Scheduler(start, st.failures), Trace(cfg, st, plans, start, bound);
            && LegalRun(cfg, s, trace)
            && Run(cfg, s, trace) == Scheduler(start + |plans|, After(cfg, st, plans, start, bound).failures)
  {
    hide LegalRun, Run, ExecuteAll, WellPlaced;
    var s := Scheduler(start, st.failures);
    if plans == [] {
      NoSteps(cfg, s);
    } else {
      var n := |plans| - 1;
      CyclesAreLegal(cfg, st, plans[..n], start, bound);
      var before, after := After(cfg, st, plans[..n], start, bound), After(cfg, st, plans, start, bound);
      var ctx, front := Setting(cfg, plans[n].device, plans[n].at), Trace(cfg, st, plans[..n], start, bound);
      NextIsLegal(cfg, Run(cfg, s, front));
      RunTwo(cfg, s, front, [NextCycle]);
      LegalTwo(cfg, s, front, [NextCycle]);
      AllAreLegal(ctx, Fresh(before, plans[n].leafProbeBudget), plans[n].planned, |plans[n].planned|, 0, bound);
      RunTwo(cfg, s, front + [NextCycle], Attempts(ctx, after.executed, 0));
      LegalTwo(cfg, s, front + [NextCycle], Attempts(ctx, after.executed, 0));
    }
  }

  lemma NoSteps(cfg: CollectConfig, s: Scheduler)
    ensures LegalRun(cfg, s, []) && Run(cfg, s, []) == s
  {
  }

  lemma NextIsLegal(cfg: CollectConfig, s: Scheduler)
    ensures LegalRun(cfg, s, [NextCycle]) && Run(cfg, s, [NextCycle]) == s.(cycle := s.cycle + 1)
  {
    assert [NextCycle][..0] == [];
  }

  // ----- waiting and release -----

  /** Step `j` of the trace is a failing read of the task's range that brings its count to `count`, at or above
      the threshold, in cycle `cycle`. */
  ghost predicate FailsAt(cfg: CollectConfig, s: Scheduler, trace: seq<Step>, j: nat, task: ReadTask, count: int,
                          cycle: int) {
    && j < |trace| && trace[j].Attempt? && !trace[j].ok && trace[j].task == task
    && cycle == Run(cfg, s, trace[..j]).cycle
    && count == StateOf(Run(cfg, s, trace[..j]).failures, KeyOf(task)).consecutiveFailures + 1 >= Threshold(cfg)
  }

  lemma FailureSplits(cfg: CollectConfig, s: Scheduler, trace: seq<Step>, j: nat, task: ReadTask, count: int,
                      cycle: int)
    requires FailsAt(cfg, s, trace, j, task, count, cycle)
    ensures JustFailed(cfg, Run(cfg, s, trace[..j]), Run(cfg, s, trace[..j + 1]), task, trace[j].realtime, count)
  {
    hide KeyOf, Threshold;
    assert trace[..j + 1][..j] == trace[..j];
    var e := trace[j];
    assert Run(cfg, s, trace[..j + 1])
        == Take(cfg, Run(cfg, s, trace[..j]), Attempt(task, e.nowMs, e.realtime, false, e.noResponse));
  }

  /** In every run of the collector, for any devices: after the failure that brings a range's count to
      `count`, the exact range is not read in the next min(max(base, cap), base * 2^(count - threshold))
      cycles, unless a read that covers it succeeds in between. */
  lemma NotReadWhileWaiting(cfg: CollectConfig, st: Progress, plans: seq<Plan>, start: int, bound: nat,
                            j: nat, m: nat, task: ReadTask, count: int, cycle: int)
    requires Consecutive(plans, start, bound) && cfg.cycleBackoffEnabled
    requires var trace := Trace(cfg, st, plans, start, bound);
             && FailsAt(cfg, Scheduler(start, st.failures), trace, j, task, count, cycle)
             && j < m < |trace| && trace[m].Attempt? && KeyOf(trace[m].task) == KeyOf(task)
             && NeverCovered(trace[j + 1..m], task)
    ensures var trace := Trace(cfg, st, plans, start, bound);
            Run(cfg, Scheduler(start, st.failures), trace[..m]).cycle
            > cycle + BackoffCycles(cfg, count, trace[j].realtime)
  {
    hide KeyOf, BackoffCycles, JustFailed, LegalRun, NeverCovered, Run, Trace, After;
    var s, trace := Scheduler(start, st.failures), Trace(cfg, st, plans, start, bound);
    CyclesAreLegal(cfg, st, plans, start, bound);
    FailureSplits(cfg, s, trace, j, task, count, cycle);
    var rest := trace[j + 1..m + 1];
    assert trace == trace[..j + 1] + trace[j + 1..];
    LegalTwo(cfg, s, trace[..j + 1], trace[j + 1..]);
    assert trace[j + 1..] == rest + trace[m + 1..];
    LegalTwo(cfg, Run(cfg, s, trace[..j + 1]), rest, trace[m + 1..]);
    assert rest[..m - j - 1] == trace[j + 1..m];
    assert trace[..m] == trace[..j + 1] + trace[j + 1..m];
    RunTwo(cfg, s, trace[..j + 1], trace[j + 1..m]);
    ReadAgain(cfg, Run(cfg, s, trace[..j]), Run(cfg, s, trace[..j + 1]), task, trace[j].realtime, count, rest);
  }

  /** And it is held back exactly so long: in every later state of the run, until the range fails again, a read
      at any moment is skipped if and only if that moment's cycle is within the wait and no covering read has
      succeeded since. */
  lemma ReleasedAfterWait(cfg: CollectConfig, st: Progress, plans: seq<Plan>, start: int, bound: nat,
                          j: nat, m: nat, task: ReadTask, count: int, cycle: int, at: Moment)
    requires Consecutive(plans, start, bound) && cfg.cycleBackoffEnabled
    requires var trace := Trace(cfg, st, plans, start, bound);
             && FailsAt(cfg, Scheduler(start, st.failures), trace, j, task, count, cycle)
             && j < m <= |trace| && NeverFails(trace[j + 1..m], task)
    ensures var trace := Trace(cfg, st, plans, start, bound);
            ShouldSkip(cfg, Run(cfg, Scheduler(start, st.failures), trace[..m]).failures, task, at)
            <==> at.cycle <= cycle + BackoffCycles(cfg, count, trace[j].realtime) && NeverCovered(trace[j + 1..m], task)
  {
    hide KeyOf, BackoffCycles, JustFailed, NeverCovered, NeverFails, Run, ShouldSkip, Trace;
    var s, trace := Scheduler(start, st.failures), Trace(cfg, st, plans, start, bound);
    FailureSplits(cfg, s, trace, j, task, count, cycle);
    assert trace[..m] == trace[..j + 1] + trace[j + 1..m];
    RunTwo(cfg, s, trace[..j + 1], trace[j + 1..m]);
    HeldExactlyWhileWaiting(cfg, Run(cfg, s, trace[..j]), Run(cfg, s, trace[..j + 1]), task, trace[j].realtime, count,
                            trace[j + 1..m], at);
  }
}
