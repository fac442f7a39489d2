/** The collector object: backoff states, value times and the progress of the current cycle are
    updated in place while block reads are executed, split and recorded. */
module Collector {
  import opened ReadTasks
  import opened Integers
  import opened Backoff
  import opened TaskBudget
  import opened AdaptiveReading

  class ModbusCollector {
    const cfg: CollectConfig
    var taskFailureStates: Failures
    var lastValueUpdateMs: Updates
    var executedTasks: seq<ReadTask>
    var outcomes: seq<Outcome>
    var skippedTasks: nat
    var leafProbeBudgetRemaining: int
    /** The single-point probes of the cycle; the model's own count. */
    var probes: nat

    function State(): Progress
      reads this
    {
      Progress(taskFailureStates, lastValueUpdateMs, executedTasks, outcomes, skippedTasks, leafProbeBudgetRemaining,
               probes)
    }

    constructor (cfg: CollectConfig)
      ensures this.cfg == cfg && State() == Progress(map[], map[], [], [], 0, 0, 0)
    {
      this.cfg := cfg;
      taskFailureStates, lastValueUpdateMs, executedTasks, outcomes := map[], map[], [], [];
      skippedTasks, leafProbeBudgetRemaining, probes := 0, 0, 0;
    }

    method NoteTaskReadFailure(task: ReadTask, at: Moment, noResponse: bool)
      modifies `taskFailureStates
      ensures taskFailureStates == NoteFailure(cfg, old(taskFailureStates), task, at, noResponse)
    {
      hide CappedDoubling;
      var key := KeyOf(task);
      var state := if key in taskFailureStates then taskFailureStates[key] else FailureState(0, 0, false, 0, 0);
      state := state.(consecutiveFailures := state.consecutiveFailures + 1, lastFailureMs := at.nowMs,
                      noResponse := noResponse);
      if state.consecutiveFailures >= Threshold(cfg) {
        var extra := Max(0, state.consecutiveFailures - Threshold(cfg));
        if cfg.cycleBackoffEnabled {
          var skip;
          if at.realtime {
            skip := DoubleUpToCap(cfg.realtimeTaskFailureBackoffCycles, cfg.realtimeTaskFailureBackoffMaxCycles, extra);
          } else {
            skip := DoubleUpToCap(cfg.taskFailureBackoffCycles, cfg.taskFailureBackoffMaxCycles, extra);
          }
          state := state.(nextAttemptCycle := at.cycle + skip + 1);
        } else {
          var wait;
          if at.realtime {
            wait := DoubleUpToCap(cfg.realtimeTaskFailureBackoffMs, cfg.realtimeTaskFailureBackoffMaxMs, extra);
          } else {
            wait := DoubleUpToCap(cfg.taskFailureBackoffMs, cfg.taskFailureBackoffMaxMs, extra);
          }
          state := state.(backoffUntilMs := at.nowMs + wait);
        }
      }
      taskFailureStates := taskFailureStates[key := state];
    }

    /** Entries are visited in arbitrary order; those the read covers are erased. */
    method ClearOverlappingTaskFailures(task: ReadTask)
      modifies `taskFailureStates
      ensures taskFailureStates == NoteSuccess(old(taskFailureStates), task)
    {
      hide ClearedBy;
      var unvisited := taskFailureStates.Keys;
      while unvisited != {}
        invariant unvisited <= taskFailureStates.Keys <= old(taskFailureStates).Keys
        invariant forall key :: key in taskFailureStates ==> taskFailureStates[key] == old(taskFailureStates)[key]
        invariant forall key :: key in old(taskFailureStates) && key !in unvisited ==>
                    (key in taskFailureStates <==> !ClearedBy(task, key))
        decreases unvisited
      {
        var key :| key in unvisited;
        unvisited := unvisited - {key};
        if ClearedBy(task, key) {
          taskFailureStates := taskFailureStates - {key};
        }
      }
      assert taskFailureStates.Keys == NoteSuccess(old(taskFailureStates), task).Keys;
    }

    method SplitReadTask(task: ReadTask) returns (tasks: seq<ReadTask>)
      ensures tasks == SplitPrefix(task, Max(1, cfg.adaptiveSplitMaxRegisters), |task.points|)
    {
      var maxRegisters := Max(1, cfg.adaptiveSplitMaxRegisters);
      tasks := [];
      for i := 0 to |task.points|
        invariant tasks == SplitPrefix(task, maxRegisters, i)
      {
        var point := task.points[i].definition;
        if tasks != [] {
          var current := tasks[|tasks| - 1];
          var nextEnd := Max(current.start + current.count, point.address + point.length);
          if current.code == task.code && point.address >= current.start && nextEnd - current.start <= maxRegisters {
            tasks := tasks[|tasks| - 1 := ReadTask(current.code, current.start, nextEnd - current.start,
              current.points + [TaskPoint(point, point.address - current.start)])];
            continue;
          }
        }
        tasks := tasks + [ReadTask(task.code, point.address, point.length, [TaskPoint(point, 0)])];
      }
    }

    method SplitOrByPoint(task: ReadTask) returns (parts: seq<ReadTask>)
      ensures parts == Split(task, cfg.adaptiveSplitMaxRegisters)
    {
      hide SplitPrefix;
      parts := SplitReadTask(task);
      if |parts| == 1 && parts[0].start == task.start && parts[0].count == task.count
         && |parts[0].points| == |task.points| {
        parts := [];
        for i := 0 to |task.points|
          invariant parts == SplitByPoint(task)[..i]
        {
          var point := task.points[i].definition;
          parts := parts + [ReadTask(task.code, point.address, point.length, [TaskPoint(point, 0)])];
        }
        assert SplitByPoint(task)[..|task.points|] == SplitByPoint(task);
      }
    }

    method LimitAdaptiveSplitLeafProbeTasks(device: Device, at: Moment, tasks: seq<ReadTask>)
      returns (limited: seq<ReadTask>)
      modifies `leafProbeBudgetRemaining, `probes
      ensures limited == LimitLeafProbes(Setting(cfg, device, at), old(State()), tasks)
      ensures State() == ChargeProbes(Setting(cfg, device, at), old(State()), tasks)
    {
      hide Order, ShouldSkip, OldestUpdate;
      if tasks == [] || leafProbeBudgetRemaining <= 0 {
        return [];
      }
      if !AllLeaves(tasks) {
        return tasks;
      }
      var probeCount := Min(leafProbeBudgetRemaining, |tasks|);
      var ranks := LeafRanks(Setting(cfg, device, at), State(), tasks);
      leafProbeBudgetRemaining, probes := leafProbeBudgetRemaining - probeCount, probes + probeCount;
      if probeCount >= |tasks| {
        return tasks;
      }
      var order := Order(ranks, |tasks|);
      limited := [];
      for i := 0 to probeCount
        invariant |limited| == i
        invariant forall k :: 0 <= k < i ==> order[k] in order && limited[k] == tasks[order[k]]
      {
        assert order[i] in order;
        limited := limited + [tasks[order[i]]];
      }
    }

    method RecordPointFailure(device: Device, at: Moment, point: Point)
      modifies `outcomes, `lastValueUpdateMs
      ensures State() == RecordFailure(Setting(cfg, device, at), old(State()), point)
    {
      if device.failureUpdates(|outcomes|, point) {
        lastValueUpdateMs := lastValueUpdateMs[point.index := at.nowMs];
      }
      outcomes := outcomes + [Unreadable(point)];
    }

    method DecodeSuccessfulBlock(device: Device, at: Moment, task: ReadTask, block: seq<int>)
      requires WellPlaced(task) && task.count <= |block|
      modifies `outcomes, `lastValueUpdateMs
      ensures State() == DecodeBlock(Setting(cfg, device, at), old(State()), task, block, |task.points|)
    {
      hide RecordFailure;
      for i := 0 to |task.points|
        invariant State() == DecodeBlock(Setting(cfg, device, at), old(State()), task, block, i)
      {
        var p := task.points[i];
        var slice := block[p.offset..p.offset + p.definition.length];
        if device.decodes(p.definition, slice) {
          lastValueUpdateMs := lastValueUpdateMs[p.definition.index := at.nowMs];
          outcomes := outcomes + [Decoded(p.definition, slice)];
        } else {
          RecordPointFailure(device, at, p.definition);
        }
      }
    }

    /** The recursive closure that reads, splits and records. */
    method ExecuteAdaptiveTask(device: Device, at: Moment, task: ReadTask, depth: int)
      requires WellPlaced(task)
      modifies this
      ensures State() == Execute(Setting(cfg, device, at), old(State()), task, depth)
      decreases |task.points|, 1, 0
    {
      hide ExecuteParts, ReadFailed, DecodeBlock, Split, ShouldSkip, NoteSuccess, CanSplit;
      if ShouldSkip(cfg, taskFailureStates, task, at) {
        if cfg.cycleBackoffEnabled {
          skippedTasks := skippedTasks + 1;
          return;
        }
        if CanSplit(cfg, task, depth) && !StateOf(taskFailureStates, KeyOf(task)).noResponse {
          var parts := SplitOrByPoint(task);
          if |parts| > 1 {
            ExecuteSplit(device, at, task, parts, depth);
            return;
          }
        }
        skippedTasks := skippedTasks + 1;
        return;
      }
      var answer := device.read(|executedTasks|, task);
      executedTasks := executedTasks + [task];
      match answer
      case Block(registers) =>
        if task.count <= |registers| {
          ClearOverlappingTaskFailures(task);
          DecodeSuccessfulBlock(device, at, task, registers);
        } else {
          HandleReadFailure(device, at, task, depth, false);
        }
      case NoResponse => HandleReadFailure(device, at, task, depth, true);
      case ReadError => HandleReadFailure(device, at, task, depth, false);
    }

    method HandleReadFailure(device: Device, at: Moment, task: ReadTask, depth: int, noResponse: bool)
      requires WellPlaced(task)
      modifies this
      ensures State() == ReadFailed(Setting(cfg, device, at), old(State()), task, depth, noResponse)
      decreases |task.points|, 0, 2
    {
      hide ExecuteParts, Split, NoteFailure, CanSplit, RecordFailure;
      NoteTaskReadFailure(task, at, noResponse);
      if !noResponse && CanSplit(cfg, task, depth) {
        var parts := SplitOrByPoint(task);
        if |parts| > 1 {
          ExecuteSplit(device, at, task, parts, depth);
          return;
        }
      }
      ghost var noted := State();
      for i := 0 to |task.points|
        invariant State() == RecordFailures(Setting(cfg, device, at), noted, task.points, i)
      {
        RecordPointFailure(device, at, task.points[i].definition);
      }
    }

    method ExecuteSplit(device: Device, at: Moment, task: ReadTask, parts: seq<ReadTask>, depth: int)
      requires WellPlaced(task) && parts == Split(task, cfg.adaptiveSplitMaxRegisters) && |parts| > 1
      modifies this
      ensures State() == ExecuteParts(Setting(cfg, device, at), old(State()), task, depth)
      decreases |task.points|, 0, 1
    {
      hide Split, LimitLeafProbes, ChargeProbes, WellPlaced, Flatten, Definitions, ExecuteAll;
      SplitIsSplitting(task, cfg.adaptiveSplitMaxRegisters);
      SplitShrinks(task, cfg.adaptiveSplitMaxRegisters);
      assert |parts[0].points| < |task.points|;
      var limited := LimitAdaptiveSplitLeafProbeTasks(device, at, parts);
      RunTasks(device, at, limited, depth + 1, |task.points| - 1);
    }

    /** Blocks one after the other. */
    method RunTasks(device: Device, at: Moment, tasks: seq<ReadTask>, depth: int, ghost bound: nat)
      requires forall k :: 0 <= k < |tasks| ==> WellPlaced(tasks[k]) && |tasks[k].points| <= bound
      modifies this
      ensures State() == ExecuteAll(Setting(cfg, device, at), old(State()), tasks, |tasks|, depth, bound)
      decreases bound, 2, 0
    {
      hide Execute, WellPlaced;
      for i := 0 to |tasks|
        invariant State() == ExecuteAll(Setting(cfg, device, at), old(State()), tasks, i, depth, bound)
      {
        ExecuteAdaptiveTask(device, at, tasks[i], depth);
      }
    }

    /** The candidates of a cycle within the meter's budget. */
    method LimitToMeterTaskBudget(tasks: seq<ReadTask>, at: Moment, maxTasksPerCycle: int)
      returns (limited: seq<ReadTask>)
      ensures limited == LimitToBudget(cfg, taskFailureStates, lastValueUpdateMs, tasks, at, maxTasksPerCycle)
    {
      hide Order, ShouldSkip, OldestUpdate, TaskPriority;
      if tasks == [] || maxTasksPerCycle <= 0 {
        return [];
      }
      var budget := Min(maxTasksPerCycle, |tasks|);
      if budget >= |tasks| {
        return tasks;
      }
      var order := Order(Ranks(cfg, taskFailureStates, lastValueUpdateMs, tasks, at), |tasks|);
      limited := [];
      for i := 0 to |order|
        invariant |limited| == Min(i, budget)
        invariant forall k :: 0 <= k < |limited| ==> order[k] in order && limited[k] == tasks[order[k]]
      {
        if |limited| >= budget {
          break;
        }
        assert order[i] in order;
        limited := limited + [tasks[order[i]]];
      }
    }

    /** One cycle over planned tasks, with a fresh account and a fresh probe budget. */
    method CollectPlanned(device: Device, at: Moment, planned: seq<ReadTask>, leafProbeBudget: int, ghost bound: nat)
      requires forall k :: 0 <= k < |planned| ==> WellPlaced(planned[k]) && |planned[k].points| <= bound
      modifies this
      ensures State() == Collected(Setting(cfg, device, at), old(State()), planned, leafProbeBudget, bound)
    {
      hide ExecuteAll, WellPlaced;
      executedTasks, outcomes, skippedTasks, probes := [], [], 0, 0;
      leafProbeBudgetRemaining := Max(0, leafProbeBudget);
      RunTasks(device, at, planned, 0, bound);
    }
  }
}
