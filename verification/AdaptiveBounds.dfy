/** What adaptive reading keeps, for every device: bounded wire reads, at most one outcome per point, the
    probe budget, and the meaning of every decoded point. */
module AdaptiveBounds {
  import opened ReadTasks
  import opened Backoff
  import opened TaskBudget
  import opened AdaptiveReading

  /** A register image: the value at each address, for each read function. */
  type Image = (int, int) -> int

  /** Whenever the device answers a block, the block shows the image. */
  ghost predicate Honest(device: Device, image: Image) {
    forall n: nat, task: ReadTask :: device.read(n, task).Block? ==>
      forall i :: 0 <= i < |device.read(n, task).registers| ==>
        device.read(n, task).registers[i] == image(task.code, task.start + i)
  }

  ghost function ImageSlice(image: Image, p: Point): seq<int> {
    seq(p.length, j requires 0 <= j < p.length => image(p.code, p.address + j))
  }

  ghost function PointsOf(outcomes: seq<Outcome>): multiset<Point> {
    if outcomes == [] then multiset{}
    else PointsOf(outcomes[..|outcomes| - 1]) + multiset{outcomes[|outcomes| - 1].point}
  }

  lemma PointsOfOne(outcomes: seq<Outcome>, o: Outcome)
    ensures PointsOf(outcomes + [o]) == PointsOf(outcomes) + multiset{o.point}
  {
    assert (outcomes + [o])[..|outcomes|] == outcomes;
  }

  /** The wire reads that `m` points may cost: 2m - 1. */
  function ReadBound(m: nat): nat {
    if m == 0 then 1 else 2 * m - 1
  }

  /** The account of a piece of work over `points`: it only appends; it costs at most `cost` wire
      reads, all of them well placed; it gives each point at most one
      outcome; probes are paid from the budget; and, from an honest device, decoded slices show the image. */
  ghost predicate Accounted(honest: bool, image: Image, st: Progress, r: Progress, points: multiset<Point>, cost: int) {
    && st.executed <= r.executed && |r.executed| - |st.executed| <= cost
    && (forall k :: |st.executed| <= k < |r.executed| ==> WellPlaced(r.executed[k]))
    && st.outcomes <= r.outcomes && PointsOf(r.outcomes) <= PointsOf(st.outcomes) + points
    && (forall k :: |st.outcomes| <= k < |r.outcomes| && r.outcomes[k].Decoded? && honest ==>
          r.outcomes[k].slice == ImageSlice(image, r.outcomes[k].point))
    && r.probes - st.probes == st.leafBudget - r.leafBudget
    && (st.leafBudget >= 0 ==> r.leafBudget >= 0)
  }

  lemma Then(honest: bool, image: Image, a: Progress, b: Progress, c: Progress,
             points: multiset<Point>, more: multiset<Point>, cost: int, extra: int)
    requires Accounted(honest, image, a, b, points, cost) && Accounted(honest, image, b, c, more, extra)
    ensures Accounted(honest, image, a, c, points + more, cost + extra)
  {
  }

  lemma Relax(honest: bool, image: Image, a: Progress, b: Progress, points: multiset<Point>, more: multiset<Point>,
              cost: int, extra: int)
    requires Accounted(honest, image, a, b, points, cost) && points <= more && cost <= extra
    ensures Accounted(honest, image, a, b, more, extra)
  {
  }

  lemma RecordFailureAccounted(honest: bool, image: Image, ctx: Setting, st: Progress, point: Point)
    ensures Accounted(honest, image, st, RecordFailure(ctx, st, point), multiset{point}, 0)
  {
    PointsOfOne(st.outcomes, Unreadable(point));
  }

  lemma DefinitionsStep(points: seq<TaskPoint>, n: nat)
    requires n < |points|
    ensures multiset(Definitions(points)[..n + 1])
            == multiset(Definitions(points)[..n]) + multiset{points[n].definition}
  {
    var d := Definitions(points);
    assert d[..n + 1] == d[..n] + [d[n]];
  }

  lemma {:induction false} RecordFailuresAccounted(honest: bool, image: Image, ctx: Setting, st: Progress,
                                                   points: seq<TaskPoint>, n: nat)
    requires n <= |points|
    ensures Accounted(honest, image, st, RecordFailures(ctx, st, points, n), multiset(Definitions(points)[..n]), 0)
  {
    hide Accounted, RecordFailure;
    if n == 0 {
      Nothing(honest, image, st);
    } else {
      RecordFailuresAccounted(honest, image, ctx, st, points, n - 1);
      var middle := RecordFailures(ctx, st, points, n - 1);
      RecordFailureAccounted(honest, image, ctx, middle, points[n - 1].definition);
      DefinitionsStep(points, n - 1);
      Then(honest, image, st, middle, RecordFailures(ctx, st, points, n), multiset(Definitions(points)[..n - 1]),
           multiset{points[n - 1].definition}, 0, 0);
    }
  }

  lemma Nothing(honest: bool, image: Image, st: Progress)
    ensures Accounted(honest, image, st, st, multiset{}, 0)
  {
  }

  /** The registers of a point in a block that shows the image do not depend on the block. */
  lemma SliceIsImageSlice(image: Image, task: ReadTask, registers: seq<int>, p: TaskPoint)
    requires p.definition.code == task.code && p.offset == p.definition.address - task.start
    requires 0 <= p.offset && p.offset + p.definition.length <= |registers|
    requires forall i :: 0 <= i < |registers| ==> registers[i] == image(task.code, task.start + i)
    ensures Slice(registers, p) == ImageSlice(image, p.definition)
  {
    forall j | 0 <= j < p.definition.length
      ensures Slice(registers, p)[j] == ImageSlice(image, p.definition)[j]
    {
      assert registers[p.offset + j] == image(task.code, task.start + (p.offset + j));
    }
  }

  lemma {:induction false} DecodeBlockAccounted(honest: bool, image: Image, ctx: Setting, st: Progress, task: ReadTask,
                                                registers: seq<int>, n: nat)
    requires WellPlaced(task) && task.count <= |registers| && n <= |task.points|
    requires honest ==> forall i :: 0 <= i < |registers| ==> registers[i] == image(task.code, task.start + i)
    ensures Accounted(honest, image, st, DecodeBlock(ctx, st, task, registers, n),
                      multiset(Definitions(task.points)[..n]), 0)
  {
    hide Accounted, DecodePoint;
    if n == 0 {
      Nothing(honest, image, st);
    } else {
      DecodeBlockAccounted(honest, image, ctx, st, task, registers, n - 1);
      var middle, p := DecodeBlock(ctx, st, task, registers, n - 1), task.points[n - 1];
      DecodePointAccounted(honest, image, ctx, middle, task, p, registers);
      DefinitionsStep(task.points, n - 1);
      Then(honest, image, st, middle, DecodeBlock(ctx, st, task, registers, n),
           multiset(Definitions(task.points)[..n - 1]), multiset{p.definition}, 0, 0);
    }
  }

  lemma DecodePointAccounted(honest: bool, image: Image, ctx: Setting, st: Progress, task: ReadTask, p: TaskPoint,
                             registers: seq<int>)
    requires p.definition.code == task.code && p.offset == p.definition.address - task.start
    requires 0 <= p.offset && p.offset + p.definition.length <= |registers|
    requires honest ==> forall i :: 0 <= i < |registers| ==> registers[i] == image(task.code, task.start + i)
    ensures Accounted(honest, image, st, DecodePoint(ctx, st, p, registers), multiset{p.definition}, 0)
  {
    hide Slice, ImageSlice, Accounted, RecordFailure;
    if honest {
      SliceIsImageSlice(image, task, registers, p);
    }
    var slice := Slice(registers, p);
    OutcomeAccounted(honest, image, st, DecodePoint(ctx, st, p, registers), p.definition, slice);
    RecordFailureAccounted(honest, image, ctx, st, p.definition);
  }

  /** A decoded outcome, appended alone. */
  lemma OutcomeAccounted(honest: bool, image: Image, st: Progress, r: Progress, point: Point, slice: seq<int>)
    requires honest ==> slice == ImageSlice(image, point)
    ensures r == st.(outcomes := st.outcomes + [Decoded(point, slice)], updates := r.updates) ==>
              Accounted(honest, image, st, r, multiset{point}, 0)
  {
    hide ImageSlice;
    PointsOfOne(st.outcomes, Decoded(point, slice));
  }

  // ----- the parts that are read -----

  ghost function PointsIn(tasks: seq<ReadTask>): multiset<Point> {
    multiset(Flatten(tasks))
  }

  /** The candidates in sorted order. */
  ghost function Picked(tasks: seq<ReadTask>, order: seq<nat>): seq<ReadTask>
    requires forall k :: 0 <= k < |order| ==> order[k] < |tasks|
  {
    seq(|order|, k requires 0 <= k < |order| => tasks[order[k]])
  }

  lemma FlattenStep(tasks: seq<ReadTask>, task: ReadTask)
    ensures Flatten(tasks + [task]) == Flatten(tasks) + Definitions(task.points)
  {
    assert (tasks + [task])[..|tasks|] == tasks;
  }

  lemma PickedStep(tasks: seq<ReadTask>, order: seq<nat>, i: nat)
    requires i < |tasks| && forall k :: 0 <= k < |order| ==> order[k] < |tasks|
    ensures PointsIn(Picked(tasks, order + [i]))
            == PointsIn(Picked(tasks, order)) + multiset(Definitions(tasks[i].points))
  {
    hide Flatten, Definitions;
    assert Picked(tasks, order + [i]) == Picked(tasks, order) + [tasks[i]];
    FlattenStep(Picked(tasks, order), tasks[i]);
  }

  lemma {:induction false} InsertPicks(ranks: seq<Rank>, order: seq<nat>, i: nat, tasks: seq<ReadTask>)
    requires Sorted(ranks, order) && i < |ranks| && i !in order && |tasks| == |ranks|
    ensures PointsIn(Picked(tasks, Insert(ranks, order, i)))
         == PointsIn(Picked(tasks, order)) + multiset(Definitions(tasks[i].points))
  {
    hide Ahead, PointsIn, Picked, Definitions;
    var r := Insert(ranks, order, i);
    if order == [] {
      PickedStep(tasks, [], i);
      assert r == [] + [i];
    } else {
      var n := |order| - 1;
      PickedStep(tasks, order[..n], order[n]);
      assert order == order[..n] + [order[n]];
      if Ahead(ranks, order[n], i) {
        PickedStep(tasks, order, i);
      } else {
        InsertPicks(ranks, order[..n], i, tasks);
        PickedStep(tasks, Insert(ranks, order[..n], i), order[n]);
      }
    }
  }

  lemma {:induction false} OrderPicks(ranks: seq<Rank>, n: nat, tasks: seq<ReadTask>)
    requires n <= |ranks| == |tasks|
    ensures PointsIn(Picked(tasks, Order(ranks, n))) == PointsIn(tasks[..n])
  {
    hide Ahead, Definitions, Insert;
    if n != 0 {
      OrderPicks(ranks, n - 1, tasks);
      InsertPicks(ranks, Order(ranks, n - 1), n - 1, tasks);
      assert tasks[..n] == tasks[..n - 1] + [tasks[n - 1]];
      FlattenStep(tasks[..n - 1], tasks[n - 1]);
    }
  }

  lemma {:induction false} PrefixPoints(tasks: seq<ReadTask>, n: nat)
    requires n <= |tasks|
    ensures PointsIn(tasks[..n]) <= PointsIn(tasks)
    ensures |Flatten(tasks[..n])| <= |Flatten(tasks)|
    decreases |tasks|
  {
    if n < |tasks| {
      PrefixPoints(tasks[..|tasks| - 1], n);
      assert tasks[..|tasks| - 1][..n] == tasks[..n];
    } else {
      assert tasks[..n] == tasks;
    }
  }

  lemma LimitedPoints(ctx: Setting, st: Progress, tasks: seq<ReadTask>)
    ensures PointsIn(LimitLeafProbes(ctx, st, tasks)) <= PointsIn(tasks)
  {
    hide Order;
    var limited := LimitLeafProbes(ctx, st, tasks);
    if limited != [] && limited != tasks {
      var ranks := LeafRanks(ctx, st, tasks);
      var order := Order(ranks, |tasks|);
      var picked := Picked(tasks, order);
      assert limited == picked[..st.leafBudget];
      PrefixPoints(picked, st.leafBudget);
      OrderPicks(ranks, |tasks|, tasks);
      assert tasks[..|tasks|] == tasks;
    }
  }

  /** Wire cost the blocks may cost together. */
  ghost function ReadBounds(tasks: seq<ReadTask>): int {
    if tasks == [] then 0 else ReadBounds(tasks[..|tasks| - 1]) + ReadBound(|tasks[|tasks| - 1].points|)
  }

  lemma {:induction false} ReadBoundsValue(tasks: seq<ReadTask>)
    requires forall k :: 0 <= k < |tasks| ==> tasks[k].points != []
    ensures ReadBounds(tasks) == 2 * |Flatten(tasks)| - |tasks|
    ensures |Flatten(tasks)| >= |tasks|
  {
    if tasks != [] {
      ReadBoundsValue(tasks[..|tasks| - 1]);
    }
  }

  /** The parts of a split cost less than twice the points, by two at least. */
  lemma PartsCost(ctx: Setting, st: Progress, task: ReadTask)
    requires WellPlaced(task) && |Split(task, ctx.cfg.adaptiveSplitMaxRegisters)| > 1
    ensures var parts := Split(task, ctx.cfg.adaptiveSplitMaxRegisters);
            ReadBounds(LimitLeafProbes(ctx, st, parts)) <= 2 * |task.points| - 2
  {
    hide Split, LimitLeafProbes;
    var parts := Split(task, ctx.cfg.adaptiveSplitMaxRegisters);
    SplitIsSplitting(task, ctx.cfg.adaptiveSplitMaxRegisters);
    var limited := LimitLeafProbes(ctx, st, parts);
    ReadBoundsValue(parts);
    LimitedCost(ctx, st, parts);
  }

  lemma PartsPoints(ctx: Setting, st: Progress, task: ReadTask)
    requires WellPlaced(task)
    ensures var parts := Split(task, ctx.cfg.adaptiveSplitMaxRegisters);
            PointsIn(LimitLeafProbes(ctx, st, parts)) <= multiset(Definitions(task.points))
  {
    hide Split, LimitLeafProbes, WellPlaced, Flatten, Definitions;
    SplitIsSplitting(task, ctx.cfg.adaptiveSplitMaxRegisters);
    LimitedPoints(ctx, st, Split(task, ctx.cfg.adaptiveSplitMaxRegisters));
  }

  lemma LimitedCost(ctx: Setting, st: Progress, tasks: seq<ReadTask>)
    requires forall k :: 0 <= k < |tasks| ==> tasks[k].points != []
    requires |tasks| > 1
    ensures ReadBounds(LimitLeafProbes(ctx, st, tasks)) <= 2 * |Flatten(tasks)| - 2
  {
    var limited := LimitLeafProbes(ctx, st, tasks);
    assert forall k :: 0 <= k < |limited| ==> limited[k].points != [];
    ReadBoundsValue(tasks);
    ReadBoundsValue(limited);
    if limited != [] && limited != tasks {
      assert AllLeaves(tasks);
      LeavesFlat(tasks);
      LeavesFlat(limited);
    }
  }

  lemma {:induction false} LeavesFlat(tasks: seq<ReadTask>)
    requires AllLeaves(tasks)
    ensures |Flatten(tasks)| == |tasks|
  {
    if tasks != [] {
      LeavesFlat(tasks[..|tasks| - 1]);
    }
  }

  // ----- the recursion -----

  /** Reading one block adaptively, for any device: a task of m points costs at most 2m - 1 wire reads,
      gives each of its points at most one outcome, pays every single-point probe from the budget, and
      decodes every point from the registers that the undivided block would have shown. */
  lemma {:induction false} ExecuteAccounted(honest: bool, image: Image, ctx: Setting, st: Progress, task: ReadTask,
                                            depth: int)
    requires WellPlaced(task) && (honest ==> Honest(ctx.device, image))
    ensures Accounted(honest, image, st, Execute(ctx, st, task, depth), multiset(Definitions(task.points)),
                      ReadBound(|task.points|))
    decreases |task.points|, 1, 0
  {
    hide Accounted, ExecuteParts, ReadFailed, DecodeBlock, Split, ShouldSkip, NoteSuccess, WellPlaced;
    var points := multiset(Definitions(task.points));
    assert multiset{} + points == points;
    var cost := ReadBound(|task.points|);
    if ShouldSkip(ctx.cfg, st.failures, task, ctx.at) {
      if !ctx.cfg.cycleBackoffEnabled && CanSplit(ctx.cfg, task, depth)
         && !StateOf(st.failures, KeyOf(task)).noResponse && |Split(task, ctx.cfg.adaptiveSplitMaxRegisters)| > 1 {
        ExecutePartsAccounted(honest, image, ctx, st, task, depth);
        Relax(honest, image, st, Execute(ctx, st, task, depth), points, points, 2 * |task.points| - 2, cost);
      } else {
        Skipping(honest, image, st, points, cost);
      }
    } else {
      var sent := st.(executed := st.executed + [task]);
      var answer := ctx.device.read(|st.executed|, task);
      if answer.Block? && task.count <= |answer.registers| {
        var cleared := sent.(failures := NoteSuccess(st.failures, task));
        Sending(honest, image, st, cleared, task);
        assert Definitions(task.points)[..|task.points|] == Definitions(task.points);
        DecodeBlockAccounted(honest, image, ctx, cleared, task, answer.registers, |task.points|);
        var done := DecodeBlock(ctx, cleared, task, answer.registers, |task.points|);
        Then(honest, image, st, cleared, done, multiset{}, points, 1, 0);
        Relax(honest, image, st, done, points, points, 1, cost);
      } else {
        Sending(honest, image, st, sent, task);
        ReadFailedAccounted(honest, image, ctx, sent, task, depth, answer.NoResponse?);
        var done := ReadFailed(ctx, sent, task, depth, answer.NoResponse?);
        Then(honest, image, st, sent, done, multiset{}, points, 1, ReadBound(|task.points|) - 1);
      }
    }
  }

  lemma Skipping(honest: bool, image: Image, st: Progress, points: multiset<Point>, cost: nat)
    ensures Accounted(honest, image, st, st.(skipped := st.skipped + 1), points, cost)
  {
  }

  lemma Sending(honest: bool, image: Image, st: Progress, sent: Progress, task: ReadTask)
    requires WellPlaced(task)
    requires sent == st.(executed := st.executed + [task], failures := sent.failures)
    ensures Accounted(honest, image, st, sent, multiset{}, 1)
  {
  }

  lemma {:induction false} ReadFailedAccounted(honest: bool, image: Image, ctx: Setting, st: Progress, task: ReadTask,
                                               depth: int, noResponse: bool)
    requires WellPlaced(task) && (honest ==> Honest(ctx.device, image))
    ensures Accounted(honest, image, st, ReadFailed(ctx, st, task, depth, noResponse),
                      multiset(Definitions(task.points)), ReadBound(|task.points|) - 1)
    decreases |task.points|, 0, 1
  {
    hide Accounted, ExecuteParts, RecordFailures, Split, NoteFailure, WellPlaced;
    var points := multiset(Definitions(task.points));
    assert multiset{} + points == points;
    var noted := st.(failures := NoteFailure(ctx.cfg, st.failures, task, ctx.at, noResponse));
    var done := ReadFailed(ctx, st, task, depth, noResponse);
    Noting(honest, image, st, noted);
    if !noResponse && CanSplit(ctx.cfg, task, depth) && |Split(task, ctx.cfg.adaptiveSplitMaxRegisters)| > 1 {
      ExecutePartsAccounted(honest, image, ctx, noted, task, depth);
      Then(honest, image, st, noted, done, multiset{}, points, 0, 2 * |task.points| - 2);
    } else {
      RecordFailuresAccounted(honest, image, ctx, noted, task.points, |task.points|);
      assert Definitions(task.points)[..|task.points|] == Definitions(task.points);
      Then(honest, image, st, noted, done, multiset{}, points, 0, 0);
      Relax(honest, image, st, done, points, points, 0, ReadBound(|task.points|) - 1);
    }
  }

  lemma Noting(honest: bool, image: Image, st: Progress, noted: Progress)
    requires noted == st.(failures := noted.failures)
    ensures Accounted(honest, image, st, noted, multiset{}, 0)
  {
  }

  lemma Charging(honest: bool, image: Image, ctx: Setting, st: Progress, tasks: seq<ReadTask>)
    ensures Accounted(honest, image, st, ChargeProbes(ctx, st, tasks), multiset{}, 0)
  {
  }

  lemma {:induction false} ExecutePartsAccounted(honest: bool, image: Image, ctx: Setting, st: Progress, task: ReadTask,
                                                 depth: int)
    requires WellPlaced(task) && (honest ==> Honest(ctx.device, image))
    requires |Split(task, ctx.cfg.adaptiveSplitMaxRegisters)| > 1
    ensures Accounted(honest, image, st, ExecuteParts(ctx, st, task, depth), multiset(Definitions(task.points)),
                      2 * |task.points| - 2)
    decreases |task.points|, 0, 0
  {
    hide Accounted, ExecuteAll, Split, LimitLeafProbes, ChargeProbes, WellPlaced, ReadBounds, Honest, PointsIn,
      Flatten, Definitions;
    var points := multiset(Definitions(task.points));
    var parts := Split(task, ctx.cfg.adaptiveSplitMaxRegisters);
    var limited := LimitLeafProbes(ctx, st, parts);
    SplitIsSplitting(task, ctx.cfg.adaptiveSplitMaxRegisters);
    SplitShrinks(task, ctx.cfg.adaptiveSplitMaxRegisters);
    var charged := ChargeProbes(ctx, st, parts);
    Charging(honest, image, ctx, st, parts);
    assert |parts[0].points| < |task.points|;
    ExecuteAllAccounted(honest, image, ctx, charged, limited, |limited|, depth + 1, |task.points| - 1);
    assert limited[..|limited|] == limited;
    PartsPoints(ctx, st, task);
    PartsCost(ctx, st, task);
    assert multiset{} + PointsIn(limited) == PointsIn(limited);
    var done := ExecuteParts(ctx, st, task, depth);
    Then(honest, image, st, charged, done, multiset{}, PointsIn(limited), 0, ReadBounds(limited));
    Relax(honest, image, st, done, multiset{} + PointsIn(limited), points, ReadBounds(limited), 2 * |task.points| - 2);
  }

  lemma {:induction false} ExecuteAllAccounted(honest: bool, image: Image, ctx: Setting, st: Progress,
                                               tasks: seq<ReadTask>, n: nat, depth: int, bound: nat)
    requires n <= |tasks| && (honest ==> Honest(ctx.device, image))
    requires forall k :: 0 <= k < |tasks| ==>
               WellPlaced(tasks[k]) && |tasks[k].points| <= bound
    ensures Accounted(honest, image, st, ExecuteAll(ctx, st, tasks, n, depth, bound), PointsIn(tasks[..n]),
                      ReadBounds(tasks[..n]))
    decreases bound, 2, n
  {
    hide Accounted, Execute, WellPlaced, Honest, PointsIn, ReadBounds, ReadBound, Definitions;
    if n == 0 {
      Nothing(honest, image, st);
      NoTasks(tasks);
    } else {
      ExecuteAllAccounted(honest, image, ctx, st, tasks, n - 1, depth, bound);
      var middle, task := ExecuteAll(ctx, st, tasks, n - 1, depth, bound), tasks[n - 1];
      ExecuteAccounted(honest, image, ctx, middle, task, depth);
      OneMoreTask(tasks, n);
      Then(honest, image, st, middle, ExecuteAll(ctx, st, tasks, n, depth, bound), PointsIn(tasks[..n - 1]),
           multiset(Definitions(task.points)), ReadBounds(tasks[..n - 1]), ReadBound(|task.points|));
    }
  }

  lemma NoTasks(tasks: seq<ReadTask>)
    ensures PointsIn(tasks[..0]) == multiset{} && ReadBounds(tasks[..0]) == 0
  {
  }

  lemma OneMoreTask(tasks: seq<ReadTask>, n: nat)
    requires 0 < n <= |tasks|
    ensures PointsIn(tasks[..n]) == PointsIn(tasks[..n - 1]) + multiset(Definitions(tasks[n - 1].points))
    ensures ReadBounds(tasks[..n]) == ReadBounds(tasks[..n - 1]) + ReadBound(|tasks[n - 1].points|)
  {
    hide Definitions, ReadBound;
    assert tasks[..n] == tasks[..n - 1] + [tasks[n - 1]];
    assert tasks[..n][..n - 1] == tasks[..n - 1];
    FlattenStep(tasks[..n - 1], tasks[n - 1]);
  }

  /** A whole cycle of planned tasks, for any device whatsoever: together the single-point probes use
      at most the cycle's probe budget, the wire reads are bounded by the planned points, and no
      planned point has more than one outcome. */
  lemma CycleAccounted(honest: bool, image: Image, ctx: Setting, st: Progress, tasks: seq<ReadTask>, bound: nat)
    requires honest ==> Honest(ctx.device, image)
    requires forall k :: 0 <= k < |tasks| ==>
               WellPlaced(tasks[k]) && |tasks[k].points| <= bound
    requires st.leafBudget >= 0 && st.executed == [] && st.outcomes == [] && st.probes == 0
    ensures var done := ExecuteAll(ctx, st, tasks, |tasks|, 0, bound);
            && done.probes <= st.leafBudget
            && |done.executed| <= ReadBounds(tasks)
            && PointsOf(done.outcomes) <= PointsIn(tasks)
            && (honest ==> forall k :: 0 <= k < |done.outcomes| && done.outcomes[k].Decoded? ==>
                  done.outcomes[k].slice == ImageSlice(image, done.outcomes[k].point))
  {
    hide ExecuteAll, WellPlaced, ImageSlice;
    ExecuteAllAccounted(honest, image, ctx, st, tasks, |tasks|, 0, bound);
    assert tasks[..|tasks|] == tasks;
  }
}
