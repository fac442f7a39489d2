/** What adaptive reading leaves out: nothing, unless a block is held back or the probe budget is short. */
module AdaptiveCoverage {
  import opened ReadTasks
  import opened Integers
  import opened Backoff
  import opened TaskBudget
  import opened AdaptiveReading

  /** The points of some outcomes, in order. */
  function PointList(outcomes: seq<Outcome>): (r: seq<Point>)
    ensures |r| == |outcomes|
  {
    seq(|outcomes|, k requires 0 <= k < |outcomes| => outcomes[k].point)
  }

  lemma OneMorePoint(outcomes: seq<Outcome>, o: Outcome)
    ensures PointList(outcomes + [o]) == PointList(outcomes) + [o.point]
  {
  }

  /** The probes that reading a block can use: all its points, if it has several. */
  function ProbeNeed(m: nat): nat {
    if m <= 1 then 0 else m
  }

  ghost function ProbeNeeds(tasks: seq<ReadTask>): nat {
    if tasks == [] then 0 else ProbeNeeds(tasks[..|tasks| - 1]) + ProbeNeed(|tasks[|tasks| - 1].points|)
  }

  lemma {:induction false} NeedsAtMostPoints(tasks: seq<ReadTask>)
    ensures ProbeNeeds(tasks) <= |Flatten(tasks)|
    ensures AllLeaves(tasks) ==> ProbeNeeds(tasks) == 0
  {
    if tasks != [] {
      NeedsAtMostPoints(tasks[..|tasks| - 1]);
    }
  }

  /** A piece of work uses at most `need` probes, and each of the points has its outcome, in order, unless a block was
      skipped. */
  ghost predicate Covers(st: Progress, r: Progress, points: seq<Point>, need: int) {
    && st.skipped <= r.skipped && st.leafBudget - r.leafBudget <= need
    && (r.skipped == st.skipped ==> PointList(r.outcomes) == PointList(st.outcomes) + points)
  }

  lemma CoversThen(a: Progress, b: Progress, c: Progress, points: seq<Point>, more: seq<Point>, need: int, extra: int)
    requires Covers(a, b, points, need) && Covers(b, c, more, extra)
    ensures Covers(a, c, points + more, need + extra)
  {
    if c.skipped == a.skipped {
      assert PointList(a.outcomes) + points + more == PointList(a.outcomes) + (points + more);
    }
  }

  lemma CoversNothing(st: Progress, r: Progress)
    requires r.skipped == st.skipped && r.outcomes == st.outcomes && st.leafBudget - r.leafBudget <= 0
    ensures Covers(st, r, [], 0)
  {
  }

  lemma {:induction false} RecordFailuresCovers(ctx: Setting, st: Progress, points: seq<TaskPoint>, n: nat)
    requires n <= |points|
    ensures Covers(st, RecordFailures(ctx, st, points, n), Definitions(points)[..n], 0)
  {
    hide Covers;
    if n == 0 {
      CoversNothing(st, st);
    } else {
      RecordFailuresCovers(ctx, st, points, n - 1);
      var middle, p := RecordFailures(ctx, st, points, n - 1), points[n - 1].definition;
      FailureCovers(ctx, middle, p);
      assert Definitions(points)[..n] == Definitions(points)[..n - 1] + [p];
      CoversThen(st, middle, RecordFailures(ctx, st, points, n), Definitions(points)[..n - 1], [p], 0, 0);
    }
  }

  lemma FailureCovers(ctx: Setting, st: Progress, p: Point)
    ensures Covers(st, RecordFailure(ctx, st, p), [p], 0)
  {
    OneMorePoint(st.outcomes, Unreadable(p));
  }

  lemma PointCovers(ctx: Setting, st: Progress, p: TaskPoint, registers: seq<int>)
    requires 0 <= p.offset && p.offset + p.definition.length <= |registers|
    ensures Covers(st, DecodePoint(ctx, st, p, registers), [p.definition], 0)
  {
    hide Slice;
    FailureCovers(ctx, st, p.definition);
    OneMorePoint(st.outcomes, Decoded(p.definition, Slice(registers, p)));
  }

  lemma {:induction false} DecodeBlockCovers(ctx: Setting, st: Progress, task: ReadTask, registers: seq<int>, n: nat)
    requires WellPlaced(task) && task.count <= |registers| && n <= |task.points|
    ensures Covers(st, DecodeBlock(ctx, st, task, registers, n), Definitions(task.points)[..n], 0)
  {
    hide Covers, DecodePoint;
    if n == 0 {
      CoversNothing(st, st);
    } else {
      DecodeBlockCovers(ctx, st, task, registers, n - 1);
      var middle, p := DecodeBlock(ctx, st, task, registers, n - 1), task.points[n - 1];
      PointCovers(ctx, middle, p, registers);
      assert Definitions(task.points)[..n] == Definitions(task.points)[..n - 1] + [p.definition];
      CoversThen(st, middle, DecodeBlock(ctx, st, task, registers, n), Definitions(task.points)[..n - 1],
                 [p.definition], 0, 0);
    }
  }

  // ----- the recursion -----

  /** Reading one block adaptively, for any device, with probes enough for its points: in order, each of them gets
      exactly one outcome, unless a block was skipped. */
  lemma {:induction false} ExecuteCovers(ctx: Setting, st: Progress, task: ReadTask, depth: int)
    requires WellPlaced(task) && st.leafBudget >= ProbeNeed(|task.points|)
    ensures Covers(st, Execute(ctx, st, task, depth), Definitions(task.points), ProbeNeed(|task.points|))
    decreases |task.points|, 1, 0
  {
    hide Covers, ExecuteParts, ReadFailed, DecodeBlock, Split, ShouldSkip, NoteSuccess, WellPlaced;
    var points := Definitions(task.points);
    if ShouldSkip(ctx.cfg, st.failures, task, ctx.at) {
      if !ctx.cfg.cycleBackoffEnabled && CanSplit(ctx.cfg, task, depth)
         && !StateOf(st.failures, KeyOf(task)).noResponse && |Split(task, ctx.cfg.adaptiveSplitMaxRegisters)| > 1 {
        ExecutePartsCovers(ctx, st, task, depth);
      } else {
        SkippingCovers(st, points, ProbeNeed(|task.points|));
      }
    } else {
      var sent := st.(executed := st.executed + [task]);
      var answer := ctx.device.read(|st.executed|, task);
      if answer.Block? && task.count <= |answer.registers| {
        var cleared := sent.(failures := NoteSuccess(st.failures, task));
        DecodeBlockCovers(ctx, cleared, task, answer.registers, |task.points|);
        assert points[..|task.points|] == points;
        SameAccount(st, cleared, DecodeBlock(ctx, cleared, task, answer.registers, |task.points|), points, 0,
                    ProbeNeed(|task.points|));
      } else {
        ReadFailedCovers(ctx, sent, task, depth, answer.NoResponse?);
        SameAccount(st, sent, ReadFailed(ctx, sent, task, depth, answer.NoResponse?), points,
                    ProbeNeed(|task.points|), ProbeNeed(|task.points|));
      }
    }
  }

  /** Another state with the same account. */
  lemma SameAccount(st: Progress, sent: Progress, r: Progress, points: seq<Point>, need: int, more: int)
    requires Covers(sent, r, points, need) && need <= more
    requires sent == st.(executed := sent.executed, failures := sent.failures)
    ensures Covers(st, r, points, more)
  {
  }

  lemma SkippingCovers(st: Progress, points: seq<Point>, need: nat)
    ensures Covers(st, st.(skipped := st.skipped + 1), points, need)
  {
  }

  lemma {:induction false} ReadFailedCovers(ctx: Setting, st: Progress, task: ReadTask, depth: int, noResponse: bool)
    requires WellPlaced(task) && st.leafBudget >= ProbeNeed(|task.points|)
    ensures Covers(st, ReadFailed(ctx, st, task, depth, noResponse), Definitions(task.points),
                   ProbeNeed(|task.points|))
    decreases |task.points|, 0, 1
  {
    hide Covers, ExecuteParts, RecordFailures, Split, NoteFailure, WellPlaced;
    var points := Definitions(task.points);
    var noted := st.(failures := NoteFailure(ctx.cfg, st.failures, task, ctx.at, noResponse));
    var done := ReadFailed(ctx, st, task, depth, noResponse);
    if !noResponse && CanSplit(ctx.cfg, task, depth) && |Split(task, ctx.cfg.adaptiveSplitMaxRegisters)| > 1 {
      ExecutePartsCovers(ctx, noted, task, depth);
      SameAccount(st, noted, done, points, ProbeNeed(|task.points|), ProbeNeed(|task.points|));
    } else {
      RecordFailuresCovers(ctx, noted, task.points, |task.points|);
      assert points[..|task.points|] == points;
      SameAccount(st, noted, done, points, 0, ProbeNeed(|task.points|));
    }
  }

  lemma {:induction false} ExecutePartsCovers(ctx: Setting, st: Progress, task: ReadTask, depth: int)
    requires WellPlaced(task) && st.leafBudget >= ProbeNeed(|task.points|)
    requires |Split(task, ctx.cfg.adaptiveSplitMaxRegisters)| > 1
    ensures Covers(st, ExecuteParts(ctx, st, task, depth), Definitions(task.points), ProbeNeed(|task.points|))
    decreases |task.points|, 0, 0
  {
    hide Covers, ExecuteAll, Split, LimitLeafProbes, WellPlaced, ProbeNeeds, Flatten;
    var parts := Split(task, ctx.cfg.adaptiveSplitMaxRegisters);
    SplitIsSplitting(task, ctx.cfg.adaptiveSplitMaxRegisters);
    SplitShrinks(task, ctx.cfg.adaptiveSplitMaxRegisters);
    NeedsAtMostPoints(parts);
    LeavesOrMore(parts, |task.points|);
    assert |parts[0].points| < |task.points|;
    assert LimitLeafProbes(ctx, st, parts) == parts;
    var charged := ChargeProbes(ctx, st, parts);
    var charge := if AllLeaves(parts) then |parts| else 0;
    assert parts[..|parts|] == parts;
    ExecuteAllCovers(ctx, charged, parts, |parts|, depth + 1, |task.points| - 1);
    ChargedCovers(st, charged, charge);
    var done := ExecuteParts(ctx, st, task, depth);
    CoversThen(st, charged, done, [], Definitions(task.points), charge, ProbeNeeds(parts));
    assert [] + Definitions(task.points) == Definitions(task.points);
    CoversMore(st, done, Definitions(task.points), charge + ProbeNeeds(parts), ProbeNeed(|task.points|));
  }

  lemma ChargedCovers(st: Progress, charged: Progress, charge: nat)
    requires charged == st.(leafBudget := st.leafBudget - charge, probes := charged.probes)
    ensures Covers(st, charged, [], charge)
  {
  }

  lemma CoversMore(st: Progress, r: Progress, points: seq<Point>, need: int, more: int)
    requires Covers(st, r, points, need) && need <= more
    ensures Covers(st, r, points, more)
  {
  }

  /** A split into several parts has several points, and as many parts if all are single points. */
  lemma LeavesOrMore(parts: seq<ReadTask>, m: nat)
    requires |parts| > 1 && |Flatten(parts)| == m && forall k :: 0 <= k < |parts| ==> parts[k].points != []
    ensures m >= |parts| && (AllLeaves(parts) ==> m == |parts|)
  {
    FlattenedLength(parts, 0);
    if AllLeaves(parts) {
      Leaves(parts);
    }
  }

  lemma {:induction false} Leaves(tasks: seq<ReadTask>)
    requires AllLeaves(tasks)
    ensures |Flatten(tasks)| == |tasks|
  {
    if tasks != [] {
      Leaves(tasks[..|tasks| - 1]);
    }
  }

  lemma {:induction false} ExecuteAllCovers(ctx: Setting, st: Progress, tasks: seq<ReadTask>, n: nat, depth: int,
                                            bound: nat)
    requires n <= |tasks| && forall k :: 0 <= k < |tasks| ==> WellPlaced(tasks[k]) && |tasks[k].points| <= bound
    requires st.leafBudget >= ProbeNeeds(tasks[..n])
    ensures Covers(st, ExecuteAll(ctx, st, tasks, n, depth, bound), Flatten(tasks[..n]), ProbeNeeds(tasks[..n]))
    decreases bound, 2, n
  {
    hide Covers, Execute, WellPlaced, ProbeNeed, Definitions;
    if n == 0 {
      CoversNothing(st, st);
    } else {
      var task := tasks[n - 1];
      assert tasks[..n][..n - 1] == tasks[..n - 1];
      ExecuteAllCovers(ctx, st, tasks, n - 1, depth, bound);
      var middle := ExecuteAll(ctx, st, tasks, n - 1, depth, bound);
      LeftOver(st, middle, Flatten(tasks[..n - 1]), ProbeNeeds(tasks[..n - 1]));
      ExecuteCovers(ctx, middle, task, depth);
      CoversThen(st, middle, ExecuteAll(ctx, st, tasks, n, depth, bound), Flatten(tasks[..n - 1]),
                 Definitions(task.points), ProbeNeeds(tasks[..n - 1]), ProbeNeed(|task.points|));
    }
  }

  lemma LeftOver(st: Progress, r: Progress, points: seq<Point>, need: int)
    requires Covers(st, r, points, need)
    ensures st.leafBudget - r.leafBudget <= need
  {
  }

  /** A whole cycle, for any device, that skips no block and has probes for all points that can need one: every planned
      point gets exactly one outcome, in the planned order. */
  lemma EveryPointIsDecided(ctx: Setting, st: Progress, planned: seq<ReadTask>, leafProbeBudget: int, bound: nat)
    requires forall k :: 0 <= k < |planned| ==> WellPlaced(planned[k]) && |planned[k].points| <= bound
    requires leafProbeBudget >= ProbeNeeds(planned)
    ensures var done := Collected(ctx, st, planned, leafProbeBudget, bound);
            done.skipped == 0 ==> PointList(done.outcomes) == Flatten(planned)
  {
    hide ExecuteAll, WellPlaced, Flatten, ProbeNeeds;
    assert planned[..|planned|] == planned;
    ExecuteAllCovers(ctx, Fresh(st, leafProbeBudget), planned, |planned|, 0, bound);
    assert PointList([]) + Flatten(planned) == Flatten(planned);
  }

  // ----- the depth -----

  lemma {:induction false} RecordingReadsNothing(ctx: Setting, st: Progress, points: seq<TaskPoint>, n: nat)
    requires n <= |points|
    ensures RecordFailures(ctx, st, points, n).executed == st.executed
  {
    if n > 0 {
      RecordingReadsNothing(ctx, st, points, n - 1);
    }
  }

  lemma {:induction false} DecodingReadsNothing(ctx: Setting, st: Progress, task: ReadTask, registers: seq<int>, n: nat)
    requires WellPlaced(task) && task.count <= |registers| && n <= |task.points|
    ensures DecodeBlock(ctx, st, task, registers, n).executed == st.executed
  {
    hide Slice;
    if n > 0 {
      DecodingReadsNothing(ctx, st, task, registers, n - 1);
    }
  }

  /** Where splitting is switched off or its depth is used up, a block costs one read, or none if it is held back. */
  lemma DepthStops(ctx: Setting, st: Progress, task: ReadTask, depth: int)
    requires WellPlaced(task)
    requires !ctx.cfg.adaptiveSplitOnFailure || depth >= ctx.cfg.adaptiveSplitMaxDepth
    ensures Execute(ctx, st, task, depth).executed
         == if ShouldSkip(ctx.cfg, st.failures, task, ctx.at) then st.executed else st.executed + [task]
  {
    hide ShouldSkip, NoteFailure, NoteSuccess, Split, ExecuteParts;
    var sent := st.(executed := st.executed + [task]);
    var answer := ctx.device.read(|st.executed|, task);
    if answer.Block? && task.count <= |answer.registers| {
      var cleared := sent.(failures := NoteSuccess(st.failures, task));
      DecodingReadsNothing(ctx, cleared, task, answer.registers, |task.points|);
    } else {
      var noted := sent.(failures := NoteFailure(ctx.cfg, sent.failures, task, ctx.at, answer.NoResponse?));
      RecordingReadsNothing(ctx, noted, task.points, |task.points|);
    }
  }

  /** In a block that was read each point is decoded from its own registers, and unreadable exactly if those do not
      decode; a decoded point is up to date. */
  lemma {:induction false} DecodedExactly(ctx: Setting, st: Progress, task: ReadTask, registers: seq<int>, n: nat,
                                          i: nat)
    requires WellPlaced(task) && task.count <= |registers| && i < n <= |task.points|
    ensures var r, p := DecodeBlock(ctx, st, task, registers, n), task.points[i];
            var own := registers[p.offset..p.offset + p.definition.length];
            && |r.outcomes| == |st.outcomes| + n
            && r.outcomes[|st.outcomes| + i]
               == (if ctx.device.decodes(p.definition, own) then Decoded(p.definition, own)
                   else Unreadable(p.definition))
            && (ctx.device.decodes(p.definition, own) ==>
                  p.definition.index in r.updates && r.updates[p.definition.index] == ctx.at.nowMs)
  {
    if i < n - 1 {
      DecodedExactly(ctx, st, task, registers, n - 1, i);
    } else if n > 1 {
      DecodedExactly(ctx, st, task, registers, n - 1, 0);
    }
  }
}
