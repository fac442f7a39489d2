/** The setpoint write pipeline of the AGC/AVC service: submitted values, writes in flight, feedback
    watches and failures, with the history of events that the pipeline's promises are stated over. */
module WriteBook {
  import opened Results
  import opened Reals
  import opened ControllerTypes

  datatype CommandId = CommandId(sequence: int, atMs: int, index: nat)

  datatype WriteCommand = WriteCommand(id: CommandId, value: real)

  /** A write in flight: for which PCS, which of P and Q, and the whole target it belongs to. */
  datatype Pending = Pending(id: CommandId, pcsIndex: nat, reactive: bool, target: real, submittedAtMs: int)

  datatype Feedback = Feedback(pcsIndex: nat, reactive: bool, target: real, startedAtMs: int)

  datatype WriteResult = WriteResult(success: bool, completedAtMs: int)

  /** `acquired`: the tick had acquired the ownership of the power targets, outside shadow mode. */
  datatype Event =
    | Submitted(index: nat, value: real, atMs: int, minIntervalMs: int, acquired: bool)
    | Refused(index: nat)
    | Resolved(index: nat)
    | Failure(index: nat)

  datatype Book = Book(
    lastValue: map<nat, real>, lastAt: map<nat, int>, pending: map<nat, Pending>, feedback: seq<Feedback>,
    failures: int, writeStatus: int, log: seq<Event>)

  /** The point bus in one tick: the write results it holds, and which submission it accepts. The
      first argument of `accepts` numbers the attempts, so that every answer may differ. */
  datatype Bus = Bus(results: Pending -> Option<WriteResult>, accepts: (nat, WriteCommand) -> bool)

  const EMPTY := Book(map[], map[], map[], [], 0, 0, [])

  // ----- failures and results -----

  function RegisterFailure(book: Book, index: nat): (r: Book) {
    var counted := book.(writeStatus := -1, failures := book.failures + 1, log := book.log + [Failure(index)]);
    if index != 0 then counted.(lastValue := book.lastValue - {index}, lastAt := book.lastAt - {index}) else counted
  }

  predicate SameWatch(f: Feedback, pcsIndex: nat, reactive: bool) {
    f.pcsIndex == pcsIndex && f.reactive == reactive
  }

  function WithoutWatch(feedback: seq<Feedback>, pcsIndex: nat, reactive: bool): (r: seq<Feedback>)
    ensures forall k :: 0 <= k < |r| ==> r[k] in feedback && !SameWatch(r[k], pcsIndex, reactive)
    ensures NoTwins(feedback) ==> NoTwins(r)
  {
    if feedback == [] then []
    else
      var rest := WithoutWatch(feedback[..|feedback| - 1], pcsIndex, reactive);
      var last := feedback[|feedback| - 1];
      if SameWatch(last, pcsIndex, reactive) then rest else rest + [last]
  }

  /** At most one watch per PCS and quantity. */
  ghost predicate NoTwins(feedback: seq<Feedback>) {
    forall j, k :: 0 <= j < k < |feedback| ==> !SameWatch(feedback[j], feedback[k].pcsIndex, feedback[k].reactive)
  }

  /** A successful write starts the watch for its effect, replacing an older watch. */
  function WatchFeedback(cfg: Config, book: Book, pending: Pending, startedAtMs: int): (r: Book) {
    if pending.pcsIndex < |cfg.pcs| && cfg.pcs[pending.pcsIndex].feedbackTimeoutMs > 0 then
      book.(feedback := WithoutWatch(book.feedback, pending.pcsIndex, pending.reactive)
                        + [Feedback(pending.pcsIndex, pending.reactive, pending.target, startedAtMs)])
    else book
  }

  function Resolve(book: Book, index: nat): Book {
    book.(pending := book.pending - {index}, log := book.log + [Resolved(index)])
  }

  /** One write in flight is looked at; the flag says that a success was seen. */
  function ProcessWrite(cfg: Config, book: Book, index: nat, result: Option<WriteResult>, nowMs: int): (r: (Book, bool))
    requires index in book.pending
  {
    var pending := book.pending[index];
    match result
    case Some(WriteResult(true, completedAtMs)) =>
      (Resolve(WatchFeedback(cfg, book, pending, if completedAtMs > 0 then completedAtMs else nowMs), index), true)
    case Some(WriteResult(false, _)) => (Resolve(RegisterFailure(book, index), index), false)
    case None =>
      if nowMs - pending.submittedAtMs >= cfg.writeResultTimeoutMs
      then (Resolve(RegisterFailure(book, index), index), false)
      else (book, false)
  }

  /** All writes in flight, in the order in which the hash map happens to list them. */
  function ProcessWrites(cfg: Config, book: Book, order: seq<nat>, bus: Bus, nowMs: int): (r: (Book, bool)) {
    if order == [] then (book, false)
    else
      var n := |order| - 1;
      var (before, seen) := ProcessWrites(cfg, book, order[..n], bus, nowMs);
      if order[n] in before.pending then
        var (after, success) := ProcessWrite(cfg, before, order[n], bus.results(before.pending[order[n]]), nowMs);
        (after, seen || success)
      else (before, seen)
  }

  datatype Verdict = Stale | Reached | Missed(index: nat) | Waiting

  /** What becomes of one feedback watch. */
  function Judge(cfg: Config, input: CycleInput, item: Feedback, nowMs: int): Verdict {
    if item.pcsIndex >= |input.pcs| || item.pcsIndex >= |cfg.pcs| then Stale
    else
      var runtime, pcs := input.pcs[item.pcsIndex], cfg.pcs[item.pcsIndex];
      var actual := if item.reactive then runtime.actualQkvar else runtime.actualPkw;
      var tolerance := if item.reactive then pcs.feedbackToleranceKvar else pcs.feedbackToleranceKw;
      var targets := if item.reactive then pcs.reactiveTargets else pcs.activeTargets;
      if runtime.inputHealthy && Abs(actual - item.target) <= tolerance then Reached
      else if nowMs - item.startedAtMs >= pcs.feedbackTimeoutMs
      then Missed(if targets == [] then 0 else targets[0])
      else Waiting
  }

  /** The watches in order; those that still wait are kept. */
  function ProcessFeedback(cfg: Config, book: Book, items: seq<Feedback>, input: CycleInput, nowMs: int)
    : (r: (Book, seq<Feedback>, bool))
  {
    if items == [] then (book, [], false)
    else
      var n := |items| - 1;
      var (before, kept, seen) := ProcessFeedback(cfg, book, items[..n], input, nowMs);
      match Judge(cfg, input, items[n], nowMs)
      case Stale => (before, kept, seen)
      case Reached => (before, kept, true)
      case Missed(index) => (RegisterFailure(before, index), kept, seen)
      case Waiting => (before, kept + [items[n]], seen)
  }

  /** A round of results: a success without any new failure clears the failure count. */
  function ProcessResults(cfg: Config, book: Book, order: seq<nat>, bus: Bus, input: CycleInput,
                          nowMs: int): (r: Book) {
    var (written, seenWrite) := ProcessWrites(cfg, book, order, bus, nowMs);
    var (judged, kept, seenFeedback) := ProcessFeedback(cfg, written, written.feedback, input, nowMs);
    var done := judged.(feedback := kept);
    if (seenWrite || seenFeedback) && done.failures == book.failures
    then done.(failures := 0, writeStatus := 1) else done
  }

  // ----- submissions -----

  /** A setpoint to spread over the target points of one PCS. */
  datatype Setpoint = Setpoint(
    pcsIndex: nat, reactive: bool, targets: seq<nat>, total: real, deadband: real, rated: real,
    percent: bool, minIntervalMs: int)

  function SetpointValue(s: Setpoint): real {
    if s.percent then (if s.rated > 0.0 then s.total * 100.0 / s.rated else 0.0)
    else if |s.targets| > 1 then s.total / |s.targets| as real
    else s.total
  }

  predicate Suppressed(book: Book, s: Setpoint, index: nat, nowMs: int) {
    || index == 0
    || index in book.pending
    || (index in book.lastValue && Abs(book.lastValue[index] - SetpointValue(s)) < s.deadband)
    || (index in book.lastAt && nowMs - book.lastAt[index] < s.minIntervalMs)
  }

  function SubmitTarget(book: Book, s: Setpoint, index: nat, sequence: int, nowMs: int, bus: Bus, acquired: bool)
    : (r: Book)
  {
    if Suppressed(book, s, index, nowMs) then book
    else
      var value := SetpointValue(s);
      var command := WriteCommand(CommandId(sequence, nowMs, index), value);
      if bus.accepts(|book.log|, command) then
        book.(lastValue := book.lastValue[index := value], lastAt := book.lastAt[index := nowMs],
              pending := book.pending[index := Pending(command.id, s.pcsIndex, s.reactive, s.total, nowMs)],
              log := book.log + [Submitted(index, value, nowMs, s.minIntervalMs, acquired)])
      else book.(log := book.log + [Refused(index)])
  }

  function SubmitTargets(book: Book, s: Setpoint, n: nat, sequence: int, nowMs: int, bus: Bus,
                         acquired: bool): (r: Book)
    requires n <= |s.targets|
  {
    if n == 0 then book
    else SubmitTarget(SubmitTargets(book, s, n - 1, sequence, nowMs, bus, acquired), s, s.targets[n - 1], sequence,
                      nowMs, bus, acquired)
  }

  function ActiveSetpoint(pcs: PcsConfig, i: nat, assignment: Assignment): Setpoint {
    Setpoint(i, false, pcs.activeTargets, assignment.target.p, Max(0.0, pcs.writeDeadbandKw),
             pcs.ratedActivePowerKw.commissionedLimit, pcs.setpointType == "ratedPercent", pcs.minWriteIntervalMs)
  }

  function ReactiveSetpoint(pcs: PcsConfig, i: nat, assignment: Assignment): Setpoint {
    Setpoint(i, true, pcs.reactiveTargets, assignment.target.q, Max(0.0, pcs.writeDeadbandKvar),
             pcs.ratedApparentPowerKva.commissionedLimit, pcs.setpointType == "ratedPercent", pcs.minWriteIntervalMs)
  }

  /** The first `n` assignments of a cycle, P before Q for each available PCS. */
  function SubmitAssignments(cfg: Config, book: Book, output: CycleOutput, n: nat, nowMs: int, bus: Bus, acquired: bool)
    : (r: Book)
    requires n <= |output.pcs| && n <= |cfg.pcs|
  {
    if n == 0 then book
    else
      var before := SubmitAssignments(cfg, book, output, n - 1, nowMs, bus, acquired);
      var assignment, pcs := output.pcs[n - 1], cfg.pcs[n - 1];
      if !assignment.available then before
      else
        var p, q := ActiveSetpoint(pcs, n - 1, assignment), ReactiveSetpoint(pcs, n - 1, assignment);
        var after := SubmitTargets(before, p, |p.targets|, output.commandSequence, nowMs, bus, acquired);
        SubmitTargets(after, q, |q.targets|, output.commandSequence, nowMs, bus, acquired)
  }
}
