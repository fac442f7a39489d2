/** The promises of the write pipeline, over every history of events. */
module WriteDiscipline {
  import opened Results
  import opened ControllerTypes
  import opened WriteBook

  /** The submissions of an index that are not resolved. */
  ghost function Open(log: seq<Event>, index: nat): int {
    if log == [] then 0
    else
      var e := log[|log| - 1];
      Open(log[..|log| - 1], index)
      + if e.index != index then 0 else if e.Submitted? then 1 else if e.Resolved? then -1 else 0
  }

  /** The time of the last accepted submission of an index since its last failure. */
  ghost function LastSubmit(log: seq<Event>, index: nat): Option<int> {
    if log == [] then None
    else
      var e := log[|log| - 1];
      if e.index == index && e.Submitted? then Some(e.atMs)
      else if e.index == index && e.Failure? then None
      else LastSubmit(log[..|log| - 1], index)
  }

  /** An event may follow a history: a submission only with ownership, with nothing in flight for the
      index, and after its minimum interval; a resolution only of something in flight. */
  ghost predicate MayFollow(log: seq<Event>, e: Event) {
    match e
    case Submitted(index, _, atMs, minIntervalMs, acquired) =>
      && acquired
      && Open(log, index) == 0
      && (LastSubmit(log, index).Some? ==> atMs - LastSubmit(log, index).value >= minIntervalMs)
    case Resolved(index) => Open(log, index) == 1
    case _ => true
  }

  ghost predicate Disciplined(log: seq<Event>) {
    log != [] ==> Disciplined(log[..|log| - 1]) && MayFollow(log[..|log| - 1], log[|log| - 1])
  }

  ghost function Lookup(m: map<nat, int>, index: nat): Option<int> {
    if index in m then Some(m[index]) else None
  }

  /** The book agrees with its history, and the history is disciplined. */
  ghost predicate Kept(book: Book) {
    && Disciplined(book.log)
    && (forall i: nat :: Open(book.log, i) == if i in book.pending then 1 else 0)
    && (forall i: nat :: Lookup(book.lastAt, i) == LastSubmit(book.log, i))
    && 0 !in book.lastAt
    && NoTwins(book.feedback)
  }

  lemma Extend(log: seq<Event>, e: Event)
    requires Disciplined(log) && MayFollow(log, e)
    ensures Disciplined(log + [e])
    ensures forall i: nat :: Open(log + [e], i) ==
              Open(log, i) + if e.index != i then 0 else if e.Submitted? then 1 else if e.Resolved? then -1 else 0
    ensures forall i: nat :: LastSubmit(log + [e], i) ==
              if e.index == i && e.Submitted? then Some(e.atMs)
              else if e.index == i && e.Failure? then None else LastSubmit(log, i)
  {
    assert (log + [e])[..|log|] == log;
  }

  lemma FailureKept(book: Book, index: nat)
    requires Kept(book)
    ensures Kept(RegisterFailure(book, index))
    ensures RegisterFailure(book, index).pending == book.pending
    ensures RegisterFailure(book, index).feedback == book.feedback
  {
    Extend(book.log, Failure(index));
  }

  lemma ResolveKept(book: Book, index: nat)
    requires Kept(book) && index in book.pending
    ensures Kept(Resolve(book, index))
  {
    Extend(book.log, Resolved(index));
  }

  lemma ProcessWriteKept(cfg: Config, book: Book, index: nat, result: Option<WriteResult>, nowMs: int)
    requires Kept(book) && index in book.pending
    ensures Kept(ProcessWrite(cfg, book, index, result, nowMs).0)
  {
    hide Kept, RegisterFailure, Resolve, WatchFeedback;
    FailureKept(book, index);
    ResolveKept(RegisterFailure(book, index), index);
    match result
    case Some(WriteResult(true, completedAtMs)) =>
      var startedAtMs := if completedAtMs > 0 then completedAtMs else nowMs;
      WatchKept(cfg, book, book.pending[index], startedAtMs);
      ResolveKept(WatchFeedback(cfg, book, book.pending[index], startedAtMs), index);
    case _ =>
  }

  lemma WatchKept(cfg: Config, book: Book, pending: Pending, startedAtMs: int)
    requires Kept(book)
    ensures Kept(WatchFeedback(cfg, book, pending, startedAtMs))
    ensures WatchFeedback(cfg, book, pending, startedAtMs).pending == book.pending
  {
  }

  lemma {:induction false} ProcessWritesKept(cfg: Config, book: Book, order: seq<nat>, bus: Bus, nowMs: int)
    requires Kept(book)
    ensures Kept(ProcessWrites(cfg, book, order, bus, nowMs).0)
  {
    hide Kept, ProcessWrite;
    if order != [] {
      var n := |order| - 1;
      ProcessWritesKept(cfg, book, order[..n], bus, nowMs);
      var before := ProcessWrites(cfg, book, order[..n], bus, nowMs).0;
      if order[n] in before.pending {
        ProcessWriteKept(cfg, before, order[n], bus.results(before.pending[order[n]]), nowMs);
      }
    }
  }

  lemma {:induction false} ProcessFeedbackKept(cfg: Config, book: Book, items: seq<Feedback>, input: CycleInput,
                                               nowMs: int)
    requires Kept(book) && NoTwins(items)
    ensures var (after, kept, _) := ProcessFeedback(cfg, book, items, input, nowMs);
            && Kept(after) && NoTwins(kept)
            && forall k :: 0 <= k < |kept| ==> kept[k] in items
  {
    hide Kept, Judge, RegisterFailure;
    if items != [] {
      var n := |items| - 1;
      ProcessFeedbackKept(cfg, book, items[..n], input, nowMs);
      var (before, kept, _) := ProcessFeedback(cfg, book, items[..n], input, nowMs);
      match Judge(cfg, input, items[n], nowMs)
      case Missed(index) => FailureKept(before, index);
      case _ =>
    }
  }

  /** A round of results keeps the discipline, in whatever order the writes are listed. */
  lemma ProcessResultsKept(cfg: Config, book: Book, order: seq<nat>, bus: Bus, input: CycleInput, nowMs: int)
    requires Kept(book)
    ensures Kept(ProcessResults(cfg, book, order, bus, input, nowMs))
  {
    ProcessWritesKept(cfg, book, order, bus, nowMs);
    var written := ProcessWrites(cfg, book, order, bus, nowMs).0;
    ProcessFeedbackKept(cfg, written, written.feedback, input, nowMs);
  }

  lemma SubmitTargetKept(book: Book, s: Setpoint, index: nat, sequence: int, nowMs: int, bus: Bus)
    requires Kept(book)
    ensures Kept(SubmitTarget(book, s, index, sequence, nowMs, bus, true))
  {
    hide SetpointValue;
    if !Suppressed(book, s, index, nowMs) {
      var value := SetpointValue(s);
      var submitted := Submitted(index, value, nowMs, s.minIntervalMs, true);
      assert Open(book.log, index) == 0;
      assert Lookup(book.lastAt, index) == LastSubmit(book.log, index);
      Extend(book.log, submitted);
      Extend(book.log, Refused(index));
    }
  }

  lemma {:induction false} SubmitTargetsKept(book: Book, s: Setpoint, n: nat, sequence: int, nowMs: int, bus: Bus)
    requires Kept(book) && n <= |s.targets|
    ensures Kept(SubmitTargets(book, s, n, sequence, nowMs, bus, true))
  {
    hide Kept, SubmitTarget;
    if n != 0 {
      SubmitTargetsKept(book, s, n - 1, sequence, nowMs, bus);
      SubmitTargetKept(SubmitTargets(book, s, n - 1, sequence, nowMs, bus, true), s, s.targets[n - 1], sequence, nowMs,
                       bus);
    }
  }

  lemma {:induction false} SubmitAssignmentsKept(cfg: Config, book: Book, output: CycleOutput, n: nat, nowMs: int,
                                                 bus: Bus)
    requires Kept(book) && n <= |output.pcs| && n <= |cfg.pcs|
    ensures Kept(SubmitAssignments(cfg, book, output, n, nowMs, bus, true))
  {
    hide Kept, SubmitTargets;
    if n != 0 {
      SubmitAssignmentsKept(cfg, book, output, n - 1, nowMs, bus);
      var before := SubmitAssignments(cfg, book, output, n - 1, nowMs, bus, true);
      var assignment, pcs := output.pcs[n - 1], cfg.pcs[n - 1];
      var p, q := ActiveSetpoint(pcs, n - 1, assignment), ReactiveSetpoint(pcs, n - 1, assignment);
      SubmitTargetsKept(before, p, |p.targets|, output.commandSequence, nowMs, bus);
      SubmitTargetsKept(SubmitTargets(before, p, |p.targets|, output.commandSequence, nowMs, bus, true), q, |q.targets|,
                        output.commandSequence, nowMs, bus);
    }
  }

  // ----- what discipline means for pairs of events -----

  lemma {:induction false} PrefixDisciplined(log: seq<Event>, k: nat)
    requires Disciplined(log) && k < |log|
    ensures Disciplined(log[..k]) && MayFollow(log[..k], log[k])
  {
    var n := |log| - 1;
    if k < n {
      PrefixDisciplined(log[..n], k);
      assert log[..n][..k] == log[..k] && log[..n][k] == log[k];
    }
  }

  /** The last submission's time, when no failure and no submission of the index comes after it. */
  lemma {:induction false} LastSubmitIs(log: seq<Event>, j: nat, index: nat)
    requires j < |log| && log[j].Submitted? && log[j].index == index
    requires forall m :: j < m < |log| && log[m].index == index ==> !log[m].Failure? && !log[m].Submitted?
    ensures LastSubmit(log, index) == Some(log[j].atMs)
  {
    var n := |log| - 1;
    if j < n {
      LastSubmitIs(log[..n], j, index);
    }
  }

  /** Two accepted submissions of one index, with no failure of that index between them, are at least
      the second one's minimum interval apart: for neighbouring submissions always, and for any two
      when the intervals are not negative. */
  lemma {:induction false} SubmissionsSpaced(log: seq<Event>, j: nat, k: nat)
    requires Disciplined(log) && j < k < |log|
    requires log[j].Submitted? && log[k].Submitted? && log[j].index == log[k].index
    requires forall m :: j < m < k && log[m].index == log[k].index ==> !log[m].Failure?
    requires forall m :: j < m < k && log[m].index == log[k].index && log[m].Submitted? ==> log[m].minIntervalMs >= 0
    ensures log[k].atMs - log[j].atMs >= log[k].minIntervalMs
    decreases k - j
  {
    var index := log[k].index;
    PrefixDisciplined(log, k);
    if exists m :: j < m < k && log[m].index == index && log[m].Submitted? {
      var m :| j < m < k && log[m].index == index && log[m].Submitted?;
      SubmissionsSpaced(log, j, m);
      SubmissionsSpaced(log, m, k);
    } else {
      LastSubmitIs(log[..k], j, index);
    }
  }

  /** Between two submissions of one index the first one was resolved: never two in flight. */
  lemma {:induction false} ResolvedBetween(log: seq<Event>, j: nat, k: nat)
    requires Disciplined(log) && j < k < |log|
    requires log[j].Submitted? && log[k].Submitted? && log[j].index == log[k].index
    ensures exists m :: j < m < k && log[m] == Resolved(log[k].index)
  {
    PrefixDisciplined(log, k);
    if forall m :: j < m < k ==> log[m] != Resolved(log[k].index) {
      StillOpen(log, j, k);
      assert false;
    }
  }

  lemma {:induction false} StillOpen(log: seq<Event>, j: nat, k: nat)
    requires Disciplined(log) && j < k <= |log| && log[j].Submitted?
    requires forall m :: j < m < k ==> log[m] != Resolved(log[j].index)
    ensures Open(log[..k], log[j].index) >= 1
    decreases k
  {
    assert log[..k][..k - 1] == log[..k - 1];
    if k - 1 == j {
      PrefixDisciplined(log, j);
    } else {
      StillOpen(log, j, k - 1);
    }
  }

  /** At every moment of a history an index has no command in flight or one. */
  lemma {:induction false} AtMostOneInFlight(log: seq<Event>, k: nat, index: nat)
    requires Disciplined(log) && k <= |log|
    ensures 0 <= Open(log[..k], index) <= 1
    decreases k
  {
    if k > 0 {
      AtMostOneInFlight(log, k - 1, index);
      PrefixDisciplined(log, k - 1);
      assert log[..k][..k - 1] == log[..k - 1];
    }
  }

  /** Every submission was made with ownership acquired, outside shadow mode. */
  lemma SubmittedWithOwnership(log: seq<Event>, k: nat)
    requires Disciplined(log) && k < |log| && log[k].Submitted?
    ensures log[k].acquired
  {
    PrefixDisciplined(log, k);
  }
}
