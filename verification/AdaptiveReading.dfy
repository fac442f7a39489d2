/** Adaptive execution of block reads: a block that fails is split and its parts are read, down to
    single points, within a shared budget for single-point probes. The device's answers are arbitrary. */
module AdaptiveReading {
  import opened ReadTasks
  import opened Integers
  import opened Backoff
  import opened TaskBudget

  datatype Answer = Block(registers: seq<int>) | NoResponse | ReadError

  /** The world of one cycle: the answer to the n-th wire read, whether a register slice decodes, and
      whether the n-th recorded failure overwrites the stored value. */
  datatype Device = Device(
    read: (nat, ReadTask) -> Answer, decodes: (Point, seq<int>) -> bool, failureUpdates: (nat, Point) -> bool)

  datatype Outcome = Decoded(point: Point, slice: seq<int>) | Unreadable(point: Point)

  /** What a cycle has done so far; `probes` counts the blocks taken from all-single-point splits. */
  datatype Progress = Progress(
    failures: Failures, updates: Updates, executed: seq<ReadTask>, outcomes: seq<Outcome>, skipped: nat,
    leafBudget: int, probes: nat)

  datatype Setting = Setting(cfg: CollectConfig, device: Device, at: Moment)

  /** The registers of a point, as the block holds them. */
  function Slice(registers: seq<int>, p: TaskPoint): (r: seq<int>)
    requires 0 <= p.offset && p.offset + p.definition.length <= |registers|
  {
    registers[p.offset..p.offset + p.definition.length]
  }

  function RecordFailure(ctx: Setting, st: Progress, point: Point): Progress {
    st.(outcomes := st.outcomes + [Unreadable(point)],
        updates := if ctx.device.failureUpdates(|st.outcomes|, point)
                   then st.updates[point.index := ctx.at.nowMs] else st.updates)
  }

  function RecordFailures(ctx: Setting, st: Progress, points: seq<TaskPoint>, n: nat): Progress
    requires n <= |points|
  {
    if n == 0 then st else RecordFailure(ctx, RecordFailures(ctx, st, points, n - 1), points[n - 1].definition)
  }

  function DecodePoint(ctx: Setting, st: Progress, p: TaskPoint, registers: seq<int>): Progress
    requires 0 <= p.offset && p.offset + p.definition.length <= |registers|
  {
    var slice := Slice(registers, p);
    if ctx.device.decodes(p.definition, slice) then
      st.(outcomes := st.outcomes + [Decoded(p.definition, slice)],
          updates := st.updates[p.definition.index := ctx.at.nowMs])
    else RecordFailure(ctx, st, p.definition)
  }

  function DecodeBlock(ctx: Setting, st: Progress, task: ReadTask, registers: seq<int>, n: nat): Progress
    requires WellPlaced(task) && task.count <= |registers| && n <= |task.points|
  {
    if n == 0 then st
    else DecodePoint(ctx, DecodeBlock(ctx, st, task, registers, n - 1), task.points[n - 1], registers)
  }

  predicate CanSplit(cfg: CollectConfig, task: ReadTask, depth: int) {
    cfg.adaptiveSplitOnFailure && task.count > 1 && |task.points| > 1 && depth < cfg.adaptiveSplitMaxDepth
  }

  predicate AllLeaves(tasks: seq<ReadTask>) {
    forall k :: 0 <= k < |tasks| ==> |tasks[k].points| == 1
  }

  /** The parts that may be read: all of a mixed split, but only as many single points as the budget
      allows; without any budget left, none. The order uses the non-real-time backoff test. */
  function LimitLeafProbes(ctx: Setting, st: Progress, tasks: seq<ReadTask>): (r: seq<ReadTask>)
    ensures |r| <= |tasks|
    ensures forall k :: 0 <= k < |r| ==> r[k] in tasks
    ensures AllLeaves(tasks) ==> |r| == if st.leafBudget <= 0 then 0 else Min(st.leafBudget, |tasks|)
    ensures st.leafBudget > 0 && (!AllLeaves(tasks) || |tasks| <= st.leafBudget) ==> r == tasks
    ensures st.leafBudget <= 0 ==> r == []
  {
    if tasks == [] || st.leafBudget <= 0 then []
    else if !AllLeaves(tasks) || st.leafBudget >= |tasks| then tasks
    else
      var ranks := LeafRanks(ctx, st, tasks);
      var order := Order(ranks, |tasks|);
      seq(st.leafBudget, k requires 0 <= k < st.leafBudget => assert order[k] in order; tasks[order[k]])
  }

  function LeafRanks(ctx: Setting, st: Progress, tasks: seq<ReadTask>): (r: seq<Rank>)
    ensures |r| == |tasks|
  {
    seq(|tasks|, i requires 0 <= i < |tasks| =>
      Rank(ShouldSkip(ctx.cfg, st.failures, tasks[i], ctx.at.(realtime := false)), 0,
           OldestUpdate(st.updates, tasks[i])))
  }

  /** When the budget cuts an all-single-point split, the best ranked points are kept: those not held back first,
      then the ones whose values are oldest, ties in the order of the split. */
  lemma BestLeavesAreProbed(ctx: Setting, st: Progress, tasks: seq<ReadTask>) returns (chosen: seq<nat>)
    requires AllLeaves(tasks) && st.leafBudget < |tasks|
    ensures TakesBest(LeafRanks(ctx, st, tasks), tasks, LimitLeafProbes(ctx, st, tasks), chosen)
    ensures |chosen| == Max(0, st.leafBudget)
  {
    hide LeafRanks, Ahead, Order;
    chosen := FrontIsBest(LeafRanks(ctx, st, tasks), tasks, LimitLeafProbes(ctx, st, tasks));
  }

  /** What that means: no point held back is probed while one that is not is left out, and of the others none that was
      updated later than one left out. */
  lemma OldestLeavesAreProbed(ctx: Setting, st: Progress, tasks: seq<ReadTask>) returns (chosen: seq<nat>)
    requires AllLeaves(tasks) && st.leafBudget < |tasks|
    ensures |chosen| == Max(0, st.leafBudget) && forall k :: 0 <= k < |chosen| ==> chosen[k] < |tasks|
    ensures forall k :: 0 <= k < |chosen| ==> LimitLeafProbes(ctx, st, tasks)[k] == tasks[chosen[k]]
    ensures forall i, k :: 0 <= i < |tasks| && i !in chosen && 0 <= k < |chosen| ==>
              var taken, left, at := tasks[chosen[k]], tasks[i], ctx.at.(realtime := false);
              var takenHeld := ShouldSkip(ctx.cfg, st.failures, taken, at);
              var leftHeld := ShouldSkip(ctx.cfg, st.failures, left, at);
              && (takenHeld ==> leftHeld)
              && (takenHeld == leftHeld ==> OldestUpdate(st.updates, taken) <= OldestUpdate(st.updates, left))
  {
    hide ShouldSkip, OldestUpdate, Order, LimitLeafProbes;
    chosen := BestLeavesAreProbed(ctx, st, tasks);
    var ranks := LeafRanks(ctx, st, tasks);
    forall i, k | 0 <= i < |tasks| && i !in chosen && 0 <= k < |chosen|
      ensures Ahead(ranks, chosen[k], i)
    {
      assert TakesBest(ranks, tasks, LimitLeafProbes(ctx, st, tasks), chosen);
    }
  }

  /** The budget is charged for the probes of an all-single-point split. */
  function ChargeProbes(ctx: Setting, st: Progress, tasks: seq<ReadTask>): Progress {
    if AllLeaves(tasks) then
      var n := |LimitLeafProbes(ctx, st, tasks)|;
      st.(leafBudget := st.leafBudget - n, probes := st.probes + n)
    else st
  }

  /** Reading one block adaptively. */
  function Execute(ctx: Setting, st: Progress, task: ReadTask, depth: int): (r: Progress)
    requires WellPlaced(task)
    decreases |task.points|, 1, 0
  {
    var cfg := ctx.cfg;
    var parts := Split(task, cfg.adaptiveSplitMaxRegisters);
    if ShouldSkip(cfg, st.failures, task, ctx.at) then
      if !cfg.cycleBackoffEnabled && CanSplit(cfg, task, depth) && !StateOf(st.failures, KeyOf(task)).noResponse
         && |parts| > 1
      then ExecuteParts(ctx, st, task, depth)
      else st.(skipped := st.skipped + 1)
    else
      var sent := st.(executed := st.executed + [task]);
      match ctx.device.read(|st.executed|, task)
      case Block(registers) =>
        if task.count <= |registers| then
          DecodeBlock(ctx, sent.(failures := NoteSuccess(st.failures, task)), task, registers, |task.points|)
        else ReadFailed(ctx, sent, task, depth, false)
      case NoResponse => ReadFailed(ctx, sent, task, depth, true)
      case ReadError => ReadFailed(ctx, sent, task, depth, false)
  }

  /** A failed read is noted; then the block is split, or its points are recorded as failed. */
  function ReadFailed(ctx: Setting, st: Progress, task: ReadTask, depth: int, noResponse: bool): (r: Progress)
    requires WellPlaced(task)
    decreases |task.points|, 0, 1
  {
    var noted := st.(failures := NoteFailure(ctx.cfg, st.failures, task, ctx.at, noResponse));
    if !noResponse && CanSplit(ctx.cfg, task, depth) && |Split(task, ctx.cfg.adaptiveSplitMaxRegisters)| > 1
    then ExecuteParts(ctx, noted, task, depth)
    else RecordFailures(ctx, noted, task.points, |task.points|)
  }

  function ExecuteParts(ctx: Setting, st: Progress, task: ReadTask, depth: int): (r: Progress)
    requires WellPlaced(task) && |Split(task, ctx.cfg.adaptiveSplitMaxRegisters)| > 1
    decreases |task.points|, 0, 0
  {
    var parts := Split(task, ctx.cfg.adaptiveSplitMaxRegisters);
    var limited := LimitLeafProbes(ctx, st, parts);
    SplitIsSplitting(task, ctx.cfg.adaptiveSplitMaxRegisters);
    SplitShrinks(task, ctx.cfg.adaptiveSplitMaxRegisters);
    ExecuteAll(ctx, ChargeProbes(ctx, st, parts), limited, |limited|, depth + 1, |task.points| - 1)
  }

  /** The first `n` of some blocks, one after the other; `bound` bounds their points. */
  function ExecuteAll(ctx: Setting, st: Progress, tasks: seq<ReadTask>, n: nat, depth: int, bound: nat): (r: Progress)
    requires n <= |tasks|
    requires forall k :: 0 <= k < |tasks| ==> WellPlaced(tasks[k]) && |tasks[k].points| <= bound
    decreases bound, 2, n
  {
    if n == 0 then st
    else Execute(ctx, ExecuteAll(ctx, st, tasks, n - 1, depth, bound), tasks[n - 1], depth)
  }

  // ----- a cycle -----

  /** The state in which a cycle starts: nothing done yet, and a fresh probe budget. */
  function Fresh(st: Progress, leafProbeBudget: int): Progress {
    st.(executed := [], outcomes := [], skipped := 0, leafBudget := Max(0, leafProbeBudget), probes := 0)
  }

  /** One cycle over planned tasks. */
  function Collected(ctx: Setting, st: Progress, planned: seq<ReadTask>, leafProbeBudget: int, bound: nat): Progress
    requires forall k :: 0 <= k < |planned| ==> WellPlaced(planned[k]) && |planned[k].points| <= bound
  {
    ExecuteAll(ctx, Fresh(st, leafProbeBudget), planned, |planned|, 0, bound)
  }
}
