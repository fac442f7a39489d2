/** Which candidate reads a cycle takes when its budget is short: the ones not backed off first, then by
    priority, then the one whose values are oldest. */
module TaskBudget {
  import opened ReadTasks
  import opened Integers
  import opened Backoff

  const INT64_MIN := -0x8000_0000_0000_0000
  const INT64_MAX := 0x7FFF_FFFF_FFFF_FFFF

  /** The time of the last value update, by point index. */
  type Updates = map<nat, int>

  function PointPriority(point: Point): int {
    Max(0, point.priority)
  }

  function MinPriority(points: seq<TaskPoint>): (r: int) {
    if points == [] then INT_LIMIT
    else Min(MinPriority(points[..|points| - 1]), PointPriority(points[|points| - 1].definition))
  }

  const INT_LIMIT := 0x7FFF_FFFF

  function TaskPriority(task: ReadTask): int {
    var priority := MinPriority(task.points);
    if priority == INT_LIMIT then 0 else priority
  }

  predicate AllUpdated(updates: Updates, points: seq<TaskPoint>) {
    forall i :: 0 <= i < |points| ==> points[i].definition.index in updates
  }

  function MinUpdate(updates: Updates, points: seq<TaskPoint>): (r: int)
    requires AllUpdated(updates, points)
    ensures r <= INT64_MAX
  {
    if points == [] then INT64_MAX
    else Min(MinUpdate(updates, points[..|points| - 1]), updates[points[|points| - 1].definition.index])
  }

  /** The oldest value of a block; a block with a point never read counts as oldest of all. */
  function OldestUpdate(updates: Updates, task: ReadTask): int {
    if !AllUpdated(updates, task.points) || MinUpdate(updates, task.points) == INT64_MAX then INT64_MIN
    else MinUpdate(updates, task.points)
  }

  method TaskOldestValueUpdateMs(updates: Updates, task: ReadTask) returns (oldest: int)
    ensures oldest == OldestUpdate(updates, task)
  {
    oldest := INT64_MAX;
    for i := 0 to |task.points|
      invariant AllUpdated(updates, task.points[..i])
      invariant oldest == MinUpdate(updates, task.points[..i])
    {
      var index := task.points[i].definition.index;
      if index !in updates {
        return INT64_MIN;
      }
      assert task.points[..i + 1][..i] == task.points[..i];
      oldest := Min(oldest, updates[index]);
    }
    assert task.points[..|task.points|] == task.points;
    if oldest == INT64_MAX {
      oldest := INT64_MIN;
    }
  }

  // ----- the order -----

  datatype Rank = Rank(backedOff: bool, priority: int, oldest: int)

  /** Candidate `i` goes before candidate `j`; ties keep their order, as a stable sort does. */
  predicate Ahead(ranks: seq<Rank>, i: nat, j: nat)
    requires i < |ranks| && j < |ranks|
  {
    var a, b := ranks[i], ranks[j];
    if a.backedOff != b.backedOff then !a.backedOff
    else if a.priority != b.priority then a.priority < b.priority
    else if a.oldest != b.oldest then a.oldest < b.oldest
    else i < j
  }

  ghost predicate Sorted(ranks: seq<Rank>, order: seq<nat>) {
    && (forall k :: 0 <= k < |order| ==> order[k] < |ranks|)
    && (forall j, k :: 0 <= j < k < |order| ==> Ahead(ranks, order[j], order[k]))
  }

  lemma LastOrFront(order: seq<nat>)
    requires order != []
    ensures var n := |order| - 1; forall j :: j in order <==> j in order[..n] || j == order[n]
  {
    var n := |order| - 1;
    assert order == order[..n] + [order[n]];
  }

  /** What an insertion into the front leaves is all ahead of the last. */
  lemma AllAhead(ranks: seq<Rank>, order: seq<nat>, i: nat, inner: seq<nat>)
    requires Sorted(ranks, order) && order != [] && i < |ranks| && i !in order && !Ahead(ranks, order[|order| - 1], i)
    requires Sorted(ranks, inner) && forall j :: j in inner ==> j == i || j in order[..|order| - 1]
    ensures Sorted(ranks, inner + [order[|order| - 1]])
  {
    var n := |order| - 1;
    assert order[n] in order;
    assert Ahead(ranks, i, order[n]);
    hide Ahead;
    forall k | 0 <= k < |inner|
      ensures Ahead(ranks, inner[k], order[n])
    {
      assert inner[k] in inner;
    }
  }

  function Insert(ranks: seq<Rank>, order: seq<nat>, i: nat): (r: seq<nat>)
    requires Sorted(ranks, order) && i < |ranks| && i !in order
    ensures Sorted(ranks, r) && |r| == |order| + 1
    ensures forall j :: j in r <==> j == i || j in order
  {
    if order == [] then [i]
    else
      var n := |order| - 1;
      if Ahead(ranks, order[n], i) then order + [i]
      else
        var inner := Insert(ranks, order[..n], i);
        LastOrFront(order);
        AllAhead(ranks, order, i, inner);
        inner + [order[n]]
  }

  /** The first `n` candidates, sorted. */
  function Order(ranks: seq<Rank>, n: nat): (r: seq<nat>)
    requires n <= |ranks|
    ensures Sorted(ranks, r) && |r| == n
    ensures forall j :: j in r <==> 0 <= j < n
  {
    if n == 0 then [] else Insert(ranks, Order(ranks, n - 1), n - 1)
  }

  function Ranks(cfg: CollectConfig, failures: Failures, updates: Updates, tasks: seq<ReadTask>, at: Moment)
    : (r: seq<Rank>)
    ensures |r| == |tasks|
  {
    seq(|tasks|, i requires 0 <= i < |tasks| =>
      Rank(ShouldSkip(cfg, failures, tasks[i], at), TaskPriority(tasks[i]), OldestUpdate(updates, tasks[i])))
  }

  /** The candidates a cycle takes: all of them if the budget allows, else the first by rank. */
  function LimitToBudget(cfg: CollectConfig, failures: Failures, updates: Updates, tasks: seq<ReadTask>, at: Moment,
                         budget: int): (r: seq<ReadTask>)
    ensures |r| == if budget <= 0 then 0 else Min(budget, |tasks|)
    ensures forall k :: 0 <= k < |r| ==> r[k] in tasks
  {
    if tasks == [] || budget <= 0 then []
    else if budget >= |tasks| then tasks
    else
      var order := Order(Ranks(cfg, failures, updates, tasks, at), |tasks|);
      seq(budget, k requires 0 <= k < budget => assert order[k] in order; tasks[order[k]])
  }

  /** The taken tasks are those at the positions `chosen`, in order of rank, and every candidate that is not taken
      ranks behind all of them. */
  ghost predicate TakesBest(ranks: seq<Rank>, tasks: seq<ReadTask>, taken: seq<ReadTask>, chosen: seq<nat>) {
    && |ranks| == |tasks| && |chosen| == |taken| && Sorted(ranks, chosen)
    && (forall k :: 0 <= k < |chosen| ==> chosen[k] < |tasks| && taken[k] == tasks[chosen[k]])
    && (forall i, k :: 0 <= i < |tasks| && i !in chosen && 0 <= k < |chosen| ==>
      chosen[k] < |ranks| && Ahead(ranks, chosen[k], i))
  }

  /** The front of the order is the best ranked. */
  lemma FrontIsBest(ranks: seq<Rank>, tasks: seq<ReadTask>, taken: seq<ReadTask>) returns (chosen: seq<nat>)
    requires |ranks| == |tasks| && |taken| <= |tasks|
    requires var order := Order(ranks, |tasks|);
             forall k :: 0 <= k < |taken| ==> order[k] < |tasks| && taken[k] == tasks[order[k]]
    ensures TakesBest(ranks, tasks, taken, chosen)
  {
    hide Ahead, Order;
    var order, n := Order(ranks, |tasks|), |taken|;
    chosen := order[..n];
    forall i, k | 0 <= i < |tasks| && i !in chosen && 0 <= k < n
      ensures Ahead(ranks, chosen[k], i)
    {
      assert i in order;
      var j :| 0 <= j < |order| && order[j] == i;
      assert j >= n by {
        assert forall m :: 0 <= m < n ==> order[m] == chosen[m] && chosen[m] in chosen;
      }
      assert Ahead(ranks, order[k], order[j]);
    }
  }

  /** A budget that does not cover all candidates takes the best ranked. */
  lemma BestAreTaken(cfg: CollectConfig, failures: Failures, updates: Updates, tasks: seq<ReadTask>, at: Moment,
                     budget: int)
    returns (chosen: seq<nat>)
    requires budget < |tasks|
    ensures TakesBest(Ranks(cfg, failures, updates, tasks, at), tasks,
            LimitToBudget(cfg, failures, updates, tasks, at, budget), chosen)
    ensures |chosen| == Max(0, budget)
  {
    hide Ranks, Ahead, Order;
    chosen := FrontIsBest(Ranks(cfg, failures, updates, tasks, at), tasks,
      LimitToBudget(cfg, failures, updates, tasks, at, budget));
  }

  /** What that means for the tasks: nothing held back is taken while something not held back is left out; of the rest
      nothing less urgent is taken while something more urgent is left out, and of equally urgent ones none that was
      updated later. A smaller number is more urgent. */
  lemma MostUrgentAreTaken(cfg: CollectConfig, failures: Failures, updates: Updates, tasks: seq<ReadTask>, at: Moment,
                           budget: int)
    returns (chosen: seq<nat>)
    requires budget < |tasks|
    ensures |chosen| == Max(0, budget) && forall k :: 0 <= k < |chosen| ==> chosen[k] < |tasks|
    ensures forall k :: 0 <= k < |chosen| ==>
              LimitToBudget(cfg, failures, updates, tasks, at, budget)[k] == tasks[chosen[k]]
    ensures forall i, k :: 0 <= i < |tasks| && i !in chosen && 0 <= k < |chosen| ==>
              var taken, left := tasks[chosen[k]], tasks[i];
              var takenHeld, leftHeld := ShouldSkip(cfg, failures, taken, at), ShouldSkip(cfg, failures, left, at);
              && (takenHeld ==> leftHeld)
              && (takenHeld == leftHeld ==> TaskPriority(taken) <= TaskPriority(left))
              && (takenHeld == leftHeld && TaskPriority(taken) == TaskPriority(left) ==>
                    OldestUpdate(updates, taken) <= OldestUpdate(updates, left))
  {
    hide ShouldSkip, TaskPriority, OldestUpdate, Order, LimitToBudget;
    chosen := BestAreTaken(cfg, failures, updates, tasks, at, budget);
    var ranks := Ranks(cfg, failures, updates, tasks, at);
    forall i, k | 0 <= i < |tasks| && i !in chosen && 0 <= k < |chosen|
      ensures Ahead(ranks, chosen[k], i)
    {
      assert TakesBest(ranks, tasks, LimitToBudget(cfg, failures, updates, tasks, at, budget), chosen);
    }
  }

  /** A task is as urgent as its most urgent point; negative priorities count as zero. */
  lemma {:induction false} MostUrgentPoint(points: seq<TaskPoint>)
    ensures forall i :: 0 <= i < |points| ==> MinPriority(points) <= Max(0, points[i].definition.priority)
    ensures MinPriority(points) == INT_LIMIT
         || exists i :: 0 <= i < |points| && MinPriority(points) == Max(0, points[i].definition.priority)
  {
    if points != [] {
      var n := |points| - 1;
      MostUrgentPoint(points[..n]);
    }
  }

  lemma TaskIsAsUrgentAsItsPoints(task: ReadTask, i: nat)
    requires i < |task.points| && task.points[i].definition.priority < INT_LIMIT
    ensures TaskPriority(task) <= Max(0, task.points[i].definition.priority)
    ensures exists j :: 0 <= j < |task.points| && TaskPriority(task) == Max(0, task.points[j].definition.priority)
  {
    MostUrgentPoint(task.points);
  }

  /** A task is as old as its oldest point, and older than any other if a point was never updated. */
  lemma {:induction false} OldestPoint(updates: Updates, points: seq<TaskPoint>)
    requires AllUpdated(updates, points)
    ensures forall i :: 0 <= i < |points| ==> MinUpdate(updates, points) <= updates[points[i].definition.index]
    ensures MinUpdate(updates, points) == INT64_MAX
         || exists i :: 0 <= i < |points| && MinUpdate(updates, points) == updates[points[i].definition.index]
  {
    if points != [] {
      var n := |points| - 1;
      OldestPoint(updates, points[..n]);
    }
  }

  lemma TaskIsAsOldAsItsPoints(updates: Updates, task: ReadTask)
    requires task.points != []
    requires forall i :: 0 <= i < |task.points| && task.points[i].definition.index in updates ==>
               INT64_MIN <= updates[task.points[i].definition.index] < INT64_MAX
    ensures var oldest := OldestUpdate(updates, task);
            if forall i :: 0 <= i < |task.points| ==> task.points[i].definition.index in updates
            then (forall i :: 0 <= i < |task.points| ==> oldest <= updates[task.points[i].definition.index])
                 && exists i :: 0 <= i < |task.points| && oldest == updates[task.points[i].definition.index]
            else oldest == INT64_MIN
  {
    hide MinUpdate;
    if AllUpdated(updates, task.points) {
      OldestPoint(updates, task.points);
      assert MinUpdate(updates, task.points) <= updates[task.points[0].definition.index];
    }
  }
}
