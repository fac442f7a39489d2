/** What a round of write results means: every write in flight is settled by its result or its timeout, every watch by
    the measured power or its deadline, and the failure count counts what failed since the last clean success. */
module WriteResults {
  import opened Results
  import opened Reals
  import opened ControllerTypes
  import opened WriteBook

  // ----- writes in flight -----

  /** What is known of a write in flight at a moment. */
  datatype Standing = Succeeded | Refuted | TimedOut | Open

  function StandingOf(cfg: Config, pending: Pending, bus: Bus, nowMs: int): Standing {
    var result := bus.results(pending);
    if result.Some? then (if result.value.success then Succeeded else Refuted)
    else if nowMs - pending.submittedAtMs >= cfg.writeResultTimeoutMs then TimedOut
    else Open
  }

  function HowMany(order: seq<nat>, chosen: set<nat>): nat {
    if order == [] then 0
    else HowMany(order[..|order| - 1], chosen) + if order[|order| - 1] in chosen then 1 else 0
  }

  /** The writes in flight with a standing. */
  function With(cfg: Config, pending: map<nat, Pending>, bus: Bus, nowMs: int, standing: Standing): set<nat> {
    set index | index in pending && StandingOf(cfg, pending[index], bus, nowMs) == standing
  }

  /** The writes are listed each once. */
  ghost predicate Lists(order: seq<nat>, pending: map<nat, Pending>) {
    && (forall k :: 0 <= k < |order| ==> order[k] in pending)
    && (forall j, k :: 0 <= j < k < |order| ==> order[j] != order[k])
  }

  lemma OneWrite(cfg: Config, book: Book, index: nat, bus: Bus, nowMs: int)
    requires index in book.pending
    ensures var (after, success) := ProcessWrite(cfg, book, index, bus.results(book.pending[index]), nowMs);
            var standing := StandingOf(cfg, book.pending[index], bus, nowMs);
            && success == standing.Succeeded?
            && after.pending == (if standing.Open? then book.pending else book.pending - {index})
            && after.failures == book.failures + (if standing.Refuted? || standing.TimedOut? then 1 else 0)
            && (after.writeStatus == if standing.Refuted? || standing.TimedOut? then -1 else book.writeStatus)
            && (if standing.Refuted? || standing.TimedOut?
                then (index != 0 ==> index !in after.lastValue && index !in after.lastAt)
                else after.lastValue == book.lastValue && after.lastAt == book.lastAt)
            && (forall other :: other != index ==>
                  && (other in after.lastValue <==> other in book.lastValue)
                  && (other in after.lastAt <==> other in book.lastAt)
                  && (other in book.lastValue ==> after.lastValue[other] == book.lastValue[other])
                  && (other in book.lastAt ==> after.lastAt[other] == book.lastAt[other]))
  {
  }

  /** A write that failed or timed out is forgotten, so that its value can be sent again at once. */
  lemma {:induction false} FailedIsForgotten(cfg: Config, book: Book, order: seq<nat>, bus: Bus, nowMs: int, index: nat)
    requires Lists(order, book.pending) && index in order && index != 0
    requires StandingOf(cfg, book.pending[index], bus, nowMs) in {Refuted, TimedOut}
    ensures var after := ProcessWrites(cfg, book, order, bus, nowMs).0;
            index !in after.lastValue && index !in after.lastAt && index !in after.pending
  {
    hide ProcessWrite, StandingOf;
    var n := |order| - 1;
    var front, last := order[..n], order[n];
    assert order == front + [last];
    WritesSettled(cfg, book, front, bus, nowMs);
    var before := ProcessWrites(cfg, book, front, bus, nowMs).0;
    assert last !in front && last in before.pending && before.pending[last] == book.pending[last];
    OneWrite(cfg, before, last, bus, nowMs);
    if index != last {
      FailedIsForgotten(cfg, book, front, bus, nowMs, index);
    }
  }

  /** After the writes in a list have been looked at: exactly the open ones among them are left in flight, a success was
      seen if there is one, and each failure and timeout is counted. */
  lemma {:induction false} WritesSettled(cfg: Config, book: Book, order: seq<nat>, bus: Bus, nowMs: int)
    requires Lists(order, book.pending)
    ensures var (after, seen) := ProcessWrites(cfg, book, order, bus, nowMs);
            && (forall index :: index in after.pending <==>
                  index in book.pending
                  && (index in order ==> StandingOf(cfg, book.pending[index], bus, nowMs) == Open))
            && (forall index :: index in after.pending ==> after.pending[index] == book.pending[index])
            && (seen <==> exists k :: 0 <= k < |order|
                            && StandingOf(cfg, book.pending[order[k]], bus, nowMs) == Succeeded)
            && after.failures == book.failures + HowMany(order, With(cfg, book.pending, bus, nowMs, Refuted))
                                 + HowMany(order, With(cfg, book.pending, bus, nowMs, TimedOut))
  {
    hide ProcessWrite, StandingOf;
    if order != [] {
      var n := |order| - 1;
      var front, last := order[..n], order[n];
      assert order == front + [last];
      WritesSettled(cfg, book, front, bus, nowMs);
      var before := ProcessWrites(cfg, book, front, bus, nowMs).0;
      assert last !in front && last in before.pending && before.pending[last] == book.pending[last];
      OneWrite(cfg, before, last, bus, nowMs);
      assert forall k :: 0 <= k < n ==> order[k] == front[k];
    }
  }

  // ----- watches -----

  predicate IsKnown(cfg: Config, input: CycleInput, item: Feedback) {
    item.pcsIndex < |input.pcs| && item.pcsIndex < |cfg.pcs|
  }

  /** The measured power of a healthy converter is within the tolerance of what was written. */
  predicate IsMet(cfg: Config, input: CycleInput, item: Feedback) {
    && IsKnown(cfg, input, item) && input.pcs[item.pcsIndex].inputHealthy
    && (var r, pcs := input.pcs[item.pcsIndex], cfg.pcs[item.pcsIndex];
        if item.reactive then -pcs.feedbackToleranceKvar <= r.actualQkvar - item.target <= pcs.feedbackToleranceKvar
        else -pcs.feedbackToleranceKw <= r.actualPkw - item.target <= pcs.feedbackToleranceKw)
  }

  predicate IsOverdue(cfg: Config, input: CycleInput, item: Feedback, nowMs: int) {
    && IsKnown(cfg, input, item) && !IsMet(cfg, input, item)
    && nowMs - item.startedAtMs >= cfg.pcs[item.pcsIndex].feedbackTimeoutMs
  }

  /** The watches that go on. */
  function StillWatched(cfg: Config, input: CycleInput, items: seq<Feedback>, nowMs: int): seq<Feedback> {
    if items == [] then []
    else
      var n := |items| - 1;
      StillWatched(cfg, input, items[..n], nowMs)
      + if IsKnown(cfg, input, items[n]) && !IsMet(cfg, input, items[n]) && !IsOverdue(cfg, input, items[n], nowMs)
        then [items[n]] else []
  }

  function Overdue(cfg: Config, input: CycleInput, items: seq<Feedback>, nowMs: int): nat {
    if items == [] then 0
    else
      var n := |items| - 1;
      Overdue(cfg, input, items[..n], nowMs) + if IsOverdue(cfg, input, items[n], nowMs) then 1 else 0
  }

  lemma Judged(cfg: Config, input: CycleInput, item: Feedback, nowMs: int)
    ensures Judge(cfg, input, item, nowMs).Reached? <==> IsMet(cfg, input, item)
    ensures Judge(cfg, input, item, nowMs).Missed? <==> IsOverdue(cfg, input, item, nowMs)
    ensures Judge(cfg, input, item, nowMs).Stale? <==> !IsKnown(cfg, input, item)
  {
  }

  lemma {:induction false} WatchesSettled(cfg: Config, book: Book, items: seq<Feedback>, input: CycleInput, nowMs: int)
    ensures var (after, kept, seen) := ProcessFeedback(cfg, book, items, input, nowMs);
            && kept == StillWatched(cfg, input, items, nowMs) && after.pending == book.pending
            && after.failures == book.failures + Overdue(cfg, input, items, nowMs)
            && (seen <==> exists k :: 0 <= k < |items| && IsMet(cfg, input, items[k]))
  {
    hide Judge, IsMet, IsOverdue, IsKnown;
    if items != [] {
      var n := |items| - 1;
      WatchesSettled(cfg, book, items[..n], input, nowMs);
      Judged(cfg, input, items[n], nowMs);
      assert forall k :: 0 <= k < n ==> items[..n][k] == items[k];
    }
  }

  // ----- a round -----

  /** A round of results: what failed is counted, and a success, of a write or of a watch, in a round without a failure
      clears the count. Exactly the writes without a result and within their timeout stay in flight. */
  lemma RoundSettled(cfg: Config, book: Book, order: seq<nat>, bus: Bus, input: CycleInput, nowMs: int)
    requires Lists(order, book.pending) && forall index :: index in book.pending ==> index in order
    ensures var done := ProcessResults(cfg, book, order, bus, input, nowMs);
            var watched := ProcessWrites(cfg, book, order, bus, nowMs).0.feedback;
            var failed := HowMany(order, With(cfg, book.pending, bus, nowMs, Refuted))
                          + HowMany(order, With(cfg, book.pending, bus, nowMs, TimedOut))
                          + Overdue(cfg, input, watched, nowMs);
            var succeeded := With(cfg, book.pending, bus, nowMs, Succeeded) != {}
                             || exists k :: 0 <= k < |watched| && IsMet(cfg, input, watched[k]);
            && done.failures == (if failed == 0 && succeeded then 0 else book.failures + failed)
            && done.pending.Keys == With(cfg, book.pending, bus, nowMs, Open)
            && done.feedback == StillWatched(cfg, input, watched, nowMs)
            && (failed == 0 && succeeded ==> done.writeStatus == 1)
  {
    hide ProcessWrites, ProcessFeedback, StandingOf, IsMet;
    WritesSettled(cfg, book, order, bus, nowMs);
    var written := ProcessWrites(cfg, book, order, bus, nowMs).0;
    WatchesSettled(cfg, written, written.feedback, input, nowMs);
    var succeeded := With(cfg, book.pending, bus, nowMs, Succeeded);
    assert succeeded != {} <==> exists k :: 0 <= k < |order| && order[k] in succeeded by {
      if succeeded != {} {
        var index :| index in succeeded;
        assert index in order;
      }
    }
  }

  /** A write that succeeds is watched from its completion on for the whole target that it belongs to. */
  lemma SuccessIsWatched(cfg: Config, book: Book, index: nat, bus: Bus, nowMs: int)
    requires index in book.pending && StandingOf(cfg, book.pending[index], bus, nowMs) == Succeeded
    requires book.pending[index].pcsIndex < |cfg.pcs| && cfg.pcs[book.pending[index].pcsIndex].feedbackTimeoutMs > 0
    ensures var after := ProcessWrite(cfg, book, index, bus.results(book.pending[index]), nowMs).0;
            var p, completed := book.pending[index], bus.results(book.pending[index]).value.completedAtMs;
            && Feedback(p.pcsIndex, p.reactive, p.target, if completed > 0 then completed else nowMs) in after.feedback
            && forall f :: f in after.feedback && f.pcsIndex == p.pcsIndex && f.reactive == p.reactive ==>
                 f.target == p.target
  {
  }
}
