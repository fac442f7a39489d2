/** No starvation under the task budget. */
module Fairness {
  import opened ReadTasks
  import opened Backoff
  import opened TaskBudget
  import opened AdaptiveReading

  function Indices(task: ReadTask): set<nat> {
    set i | 0 <= i < |task.points| :: task.points[i].definition.index
  }

  function IndicesOf(tasks: seq<ReadTask>): set<nat> {
    if tasks == [] then {} else IndicesOf(tasks[..|tasks| - 1]) + Indices(tasks[|tasks| - 1])
  }

  /** The points in `touched` now carry the time `nowMs`. */
  function Touch(updates: Updates, touched: set<nat>, nowMs: int): Updates {
    map p | p in updates.Keys + touched :: if p in touched then nowMs else updates[p]
  }

  // ----- what successful reads do -----

  /** Entries may have been cleared; those that are left are unchanged. */
  predicate OnlyCleared(before: Failures, after: Failures) {
    forall key :: key in after ==> key in before && after[key] == before[key]
  }

  /** Clearing entries holds nothing back that was not held back before. */
  lemma StillNotSkipped(cfg: CollectConfig, before: Failures, after: Failures, task: ReadTask, at: Moment)
    requires OnlyCleared(before, after) && !ShouldSkip(cfg, before, task, at)
    ensures !ShouldSkip(cfg, after, task, at)
  {
    hide KeyOf;
  }

  /** Every read is answered with a full block and every point decodes. */
  ghost predicate Succeeds(device: Device) {
    && (forall n: nat, task: ReadTask :: device.read(n, task).Block? && task.count <= |device.read(n, task).registers|)
    && (forall p: Point, slice: seq<int> :: device.decodes(p, slice))
  }

  lemma {:induction false} DecodeTouches(ctx: Setting, st: Progress, task: ReadTask, registers: seq<int>, n: nat)
    requires WellPlaced(task) && task.count <= |registers| && n <= |task.points| && Succeeds(ctx.device)
    ensures var r := DecodeBlock(ctx, st, task, registers, n);
            r.updates == Touch(st.updates, Indices(task.(points := task.points[..n])), ctx.at.nowMs)
            && r.failures == st.failures
  {
    hide Slice, WellPlaced, Touch;
    if n == 0 {
      assert Touch(st.updates, {}, ctx.at.nowMs) == st.updates by {
        TouchNothing(st.updates, ctx.at.nowMs);
      }
      assert Indices(task.(points := task.points[..0])) == {};
    } else {
      DecodeTouches(ctx, st, task, registers, n - 1);
      var index := task.points[n - 1].definition.index;
      var before, after := Indices(task.(points := task.points[..n - 1])), Indices(task.(points := task.points[..n]));
      assert after == before + {index};
      var middle := DecodeBlock(ctx, st, task, registers, n - 1);
      TouchOne(middle.updates, index, ctx.at.nowMs);
      TouchTwice(st.updates, before, {index}, ctx.at.nowMs);
    }
  }

  lemma TouchNothing(updates: Updates, nowMs: int)
    ensures Touch(updates, {}, nowMs) == updates
  {
  }

  lemma TouchOne(updates: Updates, index: nat, nowMs: int)
    ensures Touch(updates, {index}, nowMs) == updates[index := nowMs]
  {
  }

  /** A read that is not held back stamps its points and adds no failure. */
  lemma ExecuteTouches(ctx: Setting, st: Progress, task: ReadTask, depth: int)
    requires WellPlaced(task) && Succeeds(ctx.device) && !ShouldSkip(ctx.cfg, st.failures, task, ctx.at)
    ensures var r := Execute(ctx, st, task, depth);
            && r.updates == Touch(st.updates, Indices(task), ctx.at.nowMs)
            && OnlyCleared(st.failures, r.failures)
            && r.executed == st.executed + [task]
  {
    hide DecodeBlock, Touch, Indices, KeyOf, ShouldSkip, ClearedBy;
    var sent := st.(executed := st.executed + [task]);
    var registers := ctx.device.read(|st.executed|, task).registers;
    var cleared := sent.(failures := NoteSuccess(st.failures, task));
    assert task.points[..|task.points|] == task.points;
    DecodeTouches(ctx, cleared, task, registers, |task.points|);
    DecodeKeepsExecuted(ctx, cleared, task, registers, |task.points|);
  }

  lemma {:induction false} DecodeKeepsExecuted(ctx: Setting, st: Progress, task: ReadTask, registers: seq<int>, n: nat)
    requires WellPlaced(task) && task.count <= |registers| && n <= |task.points|
    ensures DecodeBlock(ctx, st, task, registers, n).executed == st.executed
  {
    if n != 0 {
      DecodeKeepsExecuted(ctx, st, task, registers, n - 1);
    }
  }

  lemma TouchTwice(updates: Updates, s: set<nat>, t: set<nat>, nowMs: int)
    ensures Touch(Touch(updates, s, nowMs), t, nowMs) == Touch(updates, s + t, nowMs)
  {
  }

  lemma {:induction false} ExecuteAllTouches(ctx: Setting, st: Progress, tasks: seq<ReadTask>, n: nat, depth: int,
                                             bound: nat)
    requires n <= |tasks| && Succeeds(ctx.device)
    requires forall k :: 0 <= k < |tasks| ==>
               WellPlaced(tasks[k]) && |tasks[k].points| <= bound && !ShouldSkip(ctx.cfg, st.failures, tasks[k], ctx.at)
    ensures var r := ExecuteAll(ctx, st, tasks, n, depth, bound);
            && r.updates == Touch(st.updates, IndicesOf(tasks[..n]), ctx.at.nowMs)
            && OnlyCleared(st.failures, r.failures)
            && r.executed == st.executed + tasks[..n]
  {
    hide Execute, ShouldSkip, WellPlaced, Indices, Succeeds;
    if n == 0 {
      assert Touch(st.updates, {}, ctx.at.nowMs) == st.updates;
    } else {
      ExecuteAllTouches(ctx, st, tasks, n - 1, depth, bound);
      var middle := ExecuteAll(ctx, st, tasks, n - 1, depth, bound);
      StillNotSkipped(ctx.cfg, st.failures, middle.failures, tasks[n - 1], ctx.at);
      ExecuteTouches(ctx, middle, tasks[n - 1], depth);
      assert tasks[..n][..n - 1] == tasks[..n - 1];
      TouchTwice(st.updates, IndicesOf(tasks[..n - 1]), Indices(tasks[n - 1]), ctx.at.nowMs);
      assert tasks[..n] == tasks[..n - 1] + [tasks[n - 1]];
    }
  }

  // ----- ages -----

  lemma {:induction false} MinUpdateTouched(updates: Updates, touched: set<nat>, nowMs: int, points: seq<TaskPoint>)
    requires points != [] && nowMs < INT64_MAX
    requires forall i :: 0 <= i < |points| ==> points[i].definition.index in touched
    ensures AllUpdated(Touch(updates, touched, nowMs), points)
    ensures MinUpdate(Touch(updates, touched, nowMs), points) == nowMs
  {
    var n := |points| - 1;
    if n > 0 {
      MinUpdateTouched(updates, touched, nowMs, points[..n]);
    } else {
      assert points[..0] == [];
    }
  }

  lemma {:induction false} MinUpdateUntouched(updates: Updates, touched: set<nat>, nowMs: int, points: seq<TaskPoint>)
    requires forall i :: 0 <= i < |points| ==> points[i].definition.index !in touched
    ensures AllUpdated(Touch(updates, touched, nowMs), points) <==> AllUpdated(updates, points)
    ensures AllUpdated(updates, points) ==>
              MinUpdate(Touch(updates, touched, nowMs), points) == MinUpdate(updates, points)
  {
    if points != [] {
      MinUpdateUntouched(updates, touched, nowMs, points[..|points| - 1]);
    }
  }

  lemma {:induction false} MinUpdateBelow(updates: Updates, points: seq<TaskPoint>, nowMs: int)
    requires AllUpdated(updates, points) && points != []
    requires forall p :: p in updates ==> updates[p] < nowMs
    ensures MinUpdate(updates, points) < nowMs
  {
  }

  /** Candidates of equal priority over pairwise different points. */
  ghost predicate Candidates(tasks: seq<ReadTask>) {
    && (forall i :: 0 <= i < |tasks| ==> WellPlaced(tasks[i]) && tasks[i].points != [])
    && (forall i, j :: 0 <= i < |tasks| && 0 <= j < |tasks| ==> TaskPriority(tasks[i]) == TaskPriority(tasks[j]))
    && (forall i, j :: 0 <= i < j < |tasks| ==> Indices(tasks[i]) !! Indices(tasks[j]))
  }

  lemma AgeAfter(updates: Updates, touched: set<nat>, nowMs: int, task: ReadTask)
    requires task.points != [] && INT64_MIN < nowMs < INT64_MAX
    requires forall p :: p in updates ==> updates[p] < nowMs
    ensures OldestUpdate(updates, task) < nowMs
    ensures Indices(task) <= touched ==> OldestUpdate(Touch(updates, touched, nowMs), task) == nowMs
    ensures Indices(task) !! touched ==>
            OldestUpdate(Touch(updates, touched, nowMs), task) == OldestUpdate(updates, task)
  {
    hide Touch, MinUpdate;
    assert forall i :: 0 <= i < |task.points| ==> task.points[i].definition.index in Indices(task);
    if AllUpdated(updates, task.points) {
      MinUpdateBelow(updates, task.points, nowMs);
    }
    if Indices(task) <= touched {
      MinUpdateTouched(updates, touched, nowMs, task.points);
    }
    if Indices(task) !! touched {
      MinUpdateUntouched(updates, touched, nowMs, task.points);
    }
  }

  // ----- the rank of a candidate -----

  /** The candidates that go before candidate `t`. */
  function AheadOf(ranks: seq<Rank>, t: nat): set<nat>
    requires t < |ranks|
  {
    set i: nat | i < |ranks| && Ahead(ranks, i, t)
  }

  ghost function UpTo(n: nat): (s: set<nat>)
    ensures |s| == n && forall i :: i in s <==> 0 <= i < n
  {
    if n == 0 then {} else UpTo(n - 1) + {n - 1}
  }

  lemma RankBelowCount(ranks: seq<Rank>, t: nat)
    requires t < |ranks|
    ensures |AheadOf(ranks, t)| < |ranks|
  {
    SubsetSize(AheadOf(ranks, t), UpTo(|ranks|) - {t});
  }

  lemma {:induction false} SubsetSize(s: set<nat>, t: set<nat>)
    requires s <= t
    ensures |s| <= |t|
  {
    if s != {} {
      var x :| x in s;
      SubsetSize(s - {x}, t - {x});
    }
  }

  /** The first `b` of a sorted order, as a set, has `b` members. */
  ghost function Front(order: seq<nat>, b: nat): set<nat>
    requires b <= |order|
  {
    set k | 0 <= k < b :: order[k]
  }

  lemma {:induction false} FrontSize(ranks: seq<Rank>, order: seq<nat>, b: nat)
    requires Sorted(ranks, order) && b <= |order|
    ensures |Front(order, b)| == b
  {
    if b != 0 {
      FrontSize(ranks, order, b - 1);
      assert Front(order, b) == Front(order, b - 1) + {order[b - 1]};
      assert order[b - 1] !in Front(order, b - 1) by {
        forall k | 0 <= k < b - 1 ensures order[k] != order[b - 1] {
          assert Ahead(ranks, order[k], order[b - 1]);
        }
      }
    }
  }

  /** A candidate that is not taken is behind all that are. */
  lemma NotTakenIsBehind(ranks: seq<Rank>, t: nat, b: nat)
    requires t < |ranks| && b <= |ranks| && t !in Front(Order(ranks, |ranks|), b)
    ensures Front(Order(ranks, |ranks|), b) <= AheadOf(ranks, t)
  {
    hide Order, Ahead;
    var order := Order(ranks, |ranks|);
    assert t in order;
    var at :| 0 <= at < |order| && order[at] == t;
    forall k | 0 <= k < b
      ensures order[k] in AheadOf(ranks, t)
    {
      assert at >= b;
      assert Ahead(ranks, order[k], order[at]);
    }
  }

  /** `later` are the ranks after the candidates in `taken` have been stamped with a new time. */
  ghost predicate Restamped(ranks: seq<Rank>, later: seq<Rank>, taken: set<nat>, nowMs: int) {
    && |later| == |ranks|
    && (forall i :: 0 <= i < |ranks| ==> ranks[i].oldest < nowMs)
    && (forall i :: 0 <= i < |ranks| ==>
          later[i] == if i in taken then ranks[i].(oldest := nowMs) else ranks[i])
    && (forall i, j :: 0 <= i < |ranks| && 0 <= j < |ranks| ==>
          ranks[i].priority == ranks[j].priority && !ranks[i].backedOff)
  }

  /** Being passed over moves a candidate up by the whole budget. */
  lemma PassedOverMovesUp(ranks: seq<Rank>, later: seq<Rank>, t: nat, b: nat, nowMs: int)
    requires t < |ranks| && b <= |ranks|
    requires t !in Front(Order(ranks, |ranks|), b)
    requires Restamped(ranks, later, Front(Order(ranks, |ranks|), b), nowMs)
    ensures |AheadOf(later, t)| + b == |AheadOf(ranks, t)|
  {
    hide Order, Front, Ahead, Restamped;
    var taken := Front(Order(ranks, |ranks|), b);
    NotTakenIsBehind(ranks, t, b);
    FrontSize(ranks, Order(ranks, |ranks|), b);
    RestampedAhead(ranks, later, taken, t, nowMs);
    assert AheadOf(later, t) == AheadOf(ranks, t) - taken;
  }

  /** Behind a candidate that was passed over are now those that were taken, and those that were behind it. */
  lemma RestampedAhead(ranks: seq<Rank>, later: seq<Rank>, taken: set<nat>, t: nat, nowMs: int)
    requires Restamped(ranks, later, taken, nowMs) && t < |ranks| && t !in taken
    ensures |later| == |ranks|
    ensures forall i :: 0 <= i < |ranks| ==> (Ahead(later, i, t) <==> Ahead(ranks, i, t) && i !in taken)
  {
  }

  // ----- the run -----

  predicate Fits(tasks: seq<ReadTask>, bound: nat) {
    forall k :: 0 <= k < |tasks| ==> WellPlaced(tasks[k]) && |tasks[k].points| <= bound
  }

  /** One cycle: the budget picks candidates and they are read. */
  function BudgetCycle(ctx: Setting, st: Progress, tasks: seq<ReadTask>, budget: int, bound: nat): Progress
    requires Fits(tasks, bound)
  {
    var taken := LimitToBudget(ctx.cfg, st.failures, st.updates, tasks, ctx.at, budget);
    ExecuteAll(ctx, st, taken, |taken|, 0, bound)
  }

  function BudgetCycles(cfg: CollectConfig, device: Device, st: Progress, tasks: seq<ReadTask>, moments: seq<Moment>,
                        budget: int, bound: nat): Progress
    requires Fits(tasks, bound)
    decreases |moments|
  {
    if moments == [] then st
    else BudgetCycles(cfg, device, BudgetCycle(Setting(cfg, device, moments[0]), st, tasks, budget, bound), tasks,
                      moments[1..], budget, bound)
  }

  /** The stored times lie before the next cycle, and the cycles' times increase. */
  ghost predicate Timely(updates: Updates, moments: seq<Moment>) {
    && (forall k :: 0 <= k < |moments| ==> INT64_MIN < moments[k].nowMs < INT64_MAX)
    && (forall k :: 0 < k < |moments| ==> moments[k - 1].nowMs < moments[k].nowMs)
    && (moments != [] ==> forall p :: p in updates ==> updates[p] < moments[0].nowMs)
  }

  /** No candidate is held back at the moment; it may well have a failure entry. */
  ghost predicate NoneHeldBack(cfg: CollectConfig, failures: Failures, tasks: seq<ReadTask>, at: Moment) {
    forall i :: 0 <= i < |tasks| ==> !ShouldSkip(cfg, failures, tasks[i], at)
  }

  /** All candidates are due at every one of the moments. */
  ghost predicate AlwaysDue(cfg: CollectConfig, failures: Failures, tasks: seq<ReadTask>, moments: seq<Moment>) {
    forall k :: 0 <= k < |moments| ==> NoneHeldBack(cfg, failures, tasks, moments[k])
  }

  lemma StillDue(cfg: CollectConfig, before: Failures, after: Failures, tasks: seq<ReadTask>, at: Moment)
    requires OnlyCleared(before, after) && NoneHeldBack(cfg, before, tasks, at)
    ensures NoneHeldBack(cfg, after, tasks, at)
  {
    hide ShouldSkip, OnlyCleared;
    forall i | 0 <= i < |tasks|
      ensures !ShouldSkip(cfg, after, tasks[i], at)
    {
      StillNotSkipped(cfg, before, after, tasks[i], at);
    }
  }

  lemma StillAlwaysDue(cfg: CollectConfig, before: Failures, after: Failures, tasks: seq<ReadTask>,
                       moments: seq<Moment>)
    requires OnlyCleared(before, after) && AlwaysDue(cfg, before, tasks, moments)
    ensures moments != [] ==> AlwaysDue(cfg, after, tasks, moments[1..])
  {
    hide OnlyCleared, NoneHeldBack;
    forall k | 0 < k < |moments|
      ensures NoneHeldBack(cfg, after, tasks, moments[k])
    {
      StillDue(cfg, before, after, tasks, moments[k]);
    }
  }

  /** What one cycle does: the picked candidates are read and stamped. */
  lemma CycleEffect(ctx: Setting, st: Progress, tasks: seq<ReadTask>, budget: int, bound: nat)
    requires Fits(tasks, bound) && Succeeds(ctx.device) && NoneHeldBack(ctx.cfg, st.failures, tasks, ctx.at)
    ensures var taken := LimitToBudget(ctx.cfg, st.failures, st.updates, tasks, ctx.at, budget);
            var r := BudgetCycle(ctx, st, tasks, budget, bound);
            && r.updates == Touch(st.updates, IndicesOf(taken), ctx.at.nowMs)
            && r.executed == st.executed + taken
            && OnlyCleared(st.failures, r.failures)
  {
    hide LimitToBudget, WellPlaced, ShouldSkip, ExecuteAll, OnlyCleared;
    var taken := LimitToBudget(ctx.cfg, st.failures, st.updates, tasks, ctx.at, budget);
    ExecuteAllTouches(ctx, st, taken, |taken|, 0, bound);
    assert taken[..|taken|] == taken;
  }

  lemma {:induction false} IndicesOfPicked(tasks: seq<ReadTask>, chosen: seq<nat>, picked: seq<ReadTask>)
    requires |picked| == |chosen| && forall k :: 0 <= k < |chosen| ==>
            chosen[k] < |tasks| && picked[k] == tasks[chosen[k]]
    requires Candidates(tasks)
    ensures forall i :: 0 <= i < |tasks| ==>
              if i in chosen then Indices(tasks[i]) <= IndicesOf(picked) else Indices(tasks[i]) !! IndicesOf(picked)
  {
    hide Indices, WellPlaced, TaskPriority;
    if picked != [] {
      var n := |picked| - 1;
      IndicesOfPicked(tasks, chosen[..n], picked[..n]);
      LastOrFront(chosen);
    }
  }

  lemma PickedByRank(cfg: CollectConfig, failures: Failures, updates: Updates, tasks: seq<ReadTask>, at: Moment,
                     budget: nat)
    requires 0 < budget < |tasks|
    ensures var taken := LimitToBudget(cfg, failures, updates, tasks, at, budget);
            var order := Order(Ranks(cfg, failures, updates, tasks, at), |tasks|);
            && |order| == |tasks| && |taken| == budget
            && var chosen := order[..budget];
               |chosen| == budget && forall k :: 0 <= k < |chosen| ==>
                 chosen[k] < |tasks| && taken[k] == tasks[chosen[k]]
  {
    hide Order, Ranks, Sorted;
    var order := Order(Ranks(cfg, failures, updates, tasks, at), |tasks|);
    assert forall k :: 0 <= k < |order| ==> order[k] in order;
  }

  lemma FrontIsPrefix(order: seq<nat>, b: nat, i: nat)
    requires b <= |order|
    ensures i in Front(order, b) <==> i in order[..b]
  {
  }

  /** The ages after a cycle: the time of the cycle for the picked ones, unchanged for the others. */
  lemma AgesAfter(ctx: Setting, st: Progress, tasks: seq<ReadTask>, budget: nat, i: nat)
    requires Candidates(tasks) && 0 < budget < |tasks| && INT64_MIN < ctx.at.nowMs < INT64_MAX && i < |tasks|
    requires forall p :: p in st.updates ==> st.updates[p] < ctx.at.nowMs
    ensures var order := Order(Ranks(ctx.cfg, st.failures, st.updates, tasks, ctx.at), |tasks|);
            var taken := LimitToBudget(ctx.cfg, st.failures, st.updates, tasks, ctx.at, budget);
            && OldestUpdate(st.updates, tasks[i]) < ctx.at.nowMs
            && OldestUpdate(Touch(st.updates, IndicesOf(taken), ctx.at.nowMs), tasks[i])
               == if i in Front(order, budget) then ctx.at.nowMs else OldestUpdate(st.updates, tasks[i])
  {
    hide Order, Touch, Indices, WellPlaced, TaskPriority, OldestUpdate, LimitToBudget, Ranks, Front, IndicesOf, Sorted;
    var order := Order(Ranks(ctx.cfg, st.failures, st.updates, tasks, ctx.at), |tasks|);
    var taken := LimitToBudget(ctx.cfg, st.failures, st.updates, tasks, ctx.at, budget);
    PickedByRank(ctx.cfg, st.failures, st.updates, tasks, ctx.at, budget);
    IndicesOfPicked(tasks, order[..budget], taken);
    FrontIsPrefix(order, budget, i);
    AgeAfter(st.updates, IndicesOf(taken), ctx.at.nowMs, tasks[i]);
  }

  lemma PlainRank(cfg: CollectConfig, failures: Failures, updates: Updates, tasks: seq<ReadTask>, at: Moment, i: nat)
    requires i < |tasks| && NoneHeldBack(cfg, failures, tasks, at)
    ensures Ranks(cfg, failures, updates, tasks, at)[i]
         == Rank(false, TaskPriority(tasks[i]), OldestUpdate(updates, tasks[i]))
  {
    hide OldestUpdate, TaskPriority, ShouldSkip;
  }

  /** After a cycle that picks by rank, the ranks are those before with the picked ones restamped. */
  lemma RanksAfter(ctx: Setting, st: Progress, tasks: seq<ReadTask>, budget: nat, bound: nat, later: Moment)
    requires Fits(tasks, bound) && Candidates(tasks) && Succeeds(ctx.device)
    requires NoneHeldBack(ctx.cfg, st.failures, tasks, ctx.at) && NoneHeldBack(ctx.cfg, st.failures, tasks, later)
    requires 0 < budget < |tasks| && INT64_MIN < ctx.at.nowMs < INT64_MAX
    requires forall p :: p in st.updates ==> st.updates[p] < ctx.at.nowMs
    ensures var ranks := Ranks(ctx.cfg, st.failures, st.updates, tasks, ctx.at);
            var r := BudgetCycle(ctx, st, tasks, budget, bound);
            Restamped(ranks, Ranks(ctx.cfg, r.failures, r.updates, tasks, later), Front(Order(ranks, |tasks|), budget),
                      ctx.at.nowMs)
  {
    hide Order, Touch, Indices, KeyOf, WellPlaced, TaskPriority, OldestUpdate, BudgetCycle, LimitToBudget, Front,
      IndicesOf, Sorted, NoneHeldBack, OnlyCleared, Ranks, Fits, Succeeds;
    var ranks := Ranks(ctx.cfg, st.failures, st.updates, tasks, ctx.at);
    var taken := Front(Order(ranks, |tasks|), budget);
    CycleEffect(ctx, st, tasks, budget, bound);
    var r := BudgetCycle(ctx, st, tasks, budget, bound);
    StillDue(ctx.cfg, st.failures, r.failures, tasks, later);
    var after := Ranks(ctx.cfg, r.failures, r.updates, tasks, later);
    forall i | 0 <= i < |tasks|
      ensures ranks[i].oldest < ctx.at.nowMs && !ranks[i].backedOff && ranks[i].priority == TaskPriority(tasks[i])
      ensures after[i] == if i in taken then ranks[i].(oldest := ctx.at.nowMs) else ranks[i]
    {
      AgesAfter(ctx, st, tasks, budget, i);
      PlainRank(ctx.cfg, st.failures, st.updates, tasks, ctx.at, i);
      PlainRank(ctx.cfg, r.failures, r.updates, tasks, later, i);
    }
  }

  lemma {:induction false} RunOnlyAppends(cfg: CollectConfig, device: Device, st: Progress, tasks: seq<ReadTask>,
                                          moments: seq<Moment>, budget: int, bound: nat)
    requires Fits(tasks, bound) && Succeeds(device) && AlwaysDue(cfg, st.failures, tasks, moments)
    ensures st.executed <= BudgetCycles(cfg, device, st, tasks, moments, budget, bound).executed
    decreases |moments|
  {
    hide BudgetCycle, Fits, NoneHeldBack, OnlyCleared, Succeeds;
    if moments != [] {
      var ctx := Setting(cfg, device, moments[0]);
      CycleEffect(ctx, st, tasks, budget, bound);
      StillAlwaysDue(cfg, st.failures, BudgetCycle(ctx, st, tasks, budget, bound).failures, tasks, moments);
      RunOnlyAppends(cfg, device, BudgetCycle(ctx, st, tasks, budget, bound), tasks, moments[1..], budget, bound);
    }
  }

  /** A candidate with fewer than cycles * budget others ahead of it is read within the cycles. */
  lemma {:induction false} ReadWithinRank(cfg: CollectConfig, device: Device, st: Progress, tasks: seq<ReadTask>,
                                          moments: seq<Moment>, budget: nat, bound: nat, t: nat)
    requires Fits(tasks, bound) && Candidates(tasks) && Succeeds(device) && AlwaysDue(cfg, st.failures, tasks, moments)
    requires budget > 0 && t < |tasks| && Timely(st.updates, moments) && moments != []
    requires |AheadOf(Ranks(cfg, st.failures, st.updates, tasks, moments[0]), t)| < |moments| * budget
    ensures var r := BudgetCycles(cfg, device, st, tasks, moments, budget, bound);
            st.executed <= r.executed && tasks[t] in r.executed[|st.executed|..]
    decreases |moments|
  {
    hide BudgetCycle, Fits, NoneHeldBack, OnlyCleared, Succeeds, Candidates, Order, AheadOf, Ahead, Touch;
    var ctx := Setting(cfg, device, moments[0]);
    var ranks := Ranks(cfg, st.failures, st.updates, tasks, moments[0]);
    var taken := LimitToBudget(cfg, st.failures, st.updates, tasks, moments[0], budget);
    var next := BudgetCycle(ctx, st, tasks, budget, bound);
    CycleEffect(ctx, st, tasks, budget, bound);
    StillAlwaysDue(cfg, st.failures, next.failures, tasks, moments);
    RunOnlyAppends(cfg, device, next, tasks, moments[1..], budget, bound);
    var r := BudgetCycles(cfg, device, st, tasks, moments, budget, bound);
    assert r == BudgetCycles(cfg, device, next, tasks, moments[1..], budget, bound);
    if tasks[t] in taken {
      TakenIsExecuted(st.executed, taken, r.executed, tasks[t]);
    } else {
      NotTakenMoves(ctx, st, tasks, budget, bound, t, moments);
      assert r.executed[|st.executed|..] == taken + r.executed[|next.executed|..];
      ReadWithinRank(cfg, device, next, tasks, moments[1..], budget, bound, t);
    }
  }

  lemma TakenIsExecuted(before: seq<ReadTask>, taken: seq<ReadTask>, after: seq<ReadTask>, task: ReadTask)
    requires before + taken <= after && task in taken
    ensures before <= after && task in after[|before|..]
  {
    var k :| 0 <= k < |taken| && taken[k] == task;
    assert after[|before|..][k] == (before + taken)[|before| + k];
  }

  /** Not being picked: there is a next cycle, its times are in order, and the rank has dropped. */
  lemma NotTakenMoves(ctx: Setting, st: Progress, tasks: seq<ReadTask>, budget: nat, bound: nat, t: nat,
                      moments: seq<Moment>)
    requires Fits(tasks, bound) && Candidates(tasks) && Succeeds(ctx.device)
    requires AlwaysDue(ctx.cfg, st.failures, tasks, moments)
    requires budget > 0 && t < |tasks| && Timely(st.updates, moments) && moments != [] && ctx.at == moments[0]
    requires |AheadOf(Ranks(ctx.cfg, st.failures, st.updates, tasks, ctx.at), t)| < |moments| * budget
    requires tasks[t] !in LimitToBudget(ctx.cfg, st.failures, st.updates, tasks, ctx.at, budget)
    ensures |moments| > 1
    ensures var next := BudgetCycle(ctx, st, tasks, budget, bound);
            && Timely(next.updates, moments[1..])
            && |AheadOf(Ranks(ctx.cfg, next.failures, next.updates, tasks, moments[1]), t)| < (|moments| - 1) * budget
  {
    hide BudgetCycle, Order, Ahead, Candidates, Ranks, LimitToBudget, Front, Succeeds, Fits, NoneHeldBack, OnlyCleared,
      Touch, IndicesOf, Restamped, AheadOf, Sorted;
    var ranks := Ranks(ctx.cfg, st.failures, st.updates, tasks, ctx.at);
    NotPicked(ctx.cfg, st.failures, st.updates, tasks, ctx.at, budget, t);
    var later := if |moments| > 1 then moments[1] else moments[0];
    RanksAfter(ctx, st, tasks, budget, bound, later);
    var next := BudgetCycle(ctx, st, tasks, budget, bound);
    assert |ranks| == |tasks|;
    PassedOverMovesUp(ranks, Ranks(ctx.cfg, next.failures, next.updates, tasks, later), t, budget, ctx.at.nowMs);
    assert (|moments| - 1) * budget == |moments| * budget - budget;
    CycleEffect(ctx, st, tasks, budget, bound);
    StillTimely(ctx, st, tasks, budget, bound, moments);
  }

  lemma NotPicked(cfg: CollectConfig, failures: Failures, updates: Updates, tasks: seq<ReadTask>, at: Moment,
                  budget: nat, t: nat)
    requires budget > 0 && t < |tasks| && tasks[t] !in LimitToBudget(cfg, failures, updates, tasks, at, budget)
    ensures budget < |tasks| == |Ranks(cfg, failures, updates, tasks, at)|
    ensures t !in Front(Order(Ranks(cfg, failures, updates, tasks, at), |tasks|), budget)
  {
    hide Order, Sorted, TaskPriority, OldestUpdate, ShouldSkip;
    if budget < |tasks| {
      PickedByRank(cfg, failures, updates, tasks, at, budget);
    }
  }

  lemma StillTimely(ctx: Setting, st: Progress, tasks: seq<ReadTask>, budget: nat, bound: nat, moments: seq<Moment>)
    requires Fits(tasks, bound) && Succeeds(ctx.device) && NoneHeldBack(ctx.cfg, st.failures, tasks, ctx.at)
    requires Timely(st.updates, moments) && moments != [] && ctx.at == moments[0]
    ensures Timely(BudgetCycle(ctx, st, tasks, budget, bound).updates, moments[1..])
  {
    hide BudgetCycle, LimitToBudget, IndicesOf, Succeeds, Fits, NoneHeldBack, OnlyCleared;
    CycleEffect(ctx, st, tasks, budget, bound);
  }

  /** No starvation: with n equal-priority candidates due every cycle (with or without failure entries), a budget
      b >= 1, strictly increasing cycle times and successful reads, every candidate is read at least once in any run of
      cycles whose number times b is at least n, that is in any ceil(n/b) consecutive cycles. */
  lemma NoStarvation(cfg: CollectConfig, device: Device, st: Progress, tasks: seq<ReadTask>, moments: seq<Moment>,
                     budget: nat, bound: nat, t: nat)
    requires Fits(tasks, bound) && Candidates(tasks) && Succeeds(device) && AlwaysDue(cfg, st.failures, tasks, moments)
    requires budget > 0 && t < |tasks| && Timely(st.updates, moments)
    requires |tasks| <= |moments| * budget
    ensures var r := BudgetCycles(cfg, device, st, tasks, moments, budget, bound);
            st.executed <= r.executed && tasks[t] in r.executed[|st.executed|..]
  {
    hide BudgetCycles, Candidates, Fits, Succeeds, AheadOf, BudgetCycle;
    RankBelowCount(Ranks(cfg, st.failures, st.updates, tasks, moments[0]), t);
    ReadWithinRank(cfg, device, st, tasks, moments, budget, bound, t);
  }
}
