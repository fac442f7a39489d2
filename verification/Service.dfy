/** The AGC/AVC service object: one tick latches the dispatch command, settles write results, runs a
    controller cycle, takes or gives back the ownership of the power targets, and submits setpoints. */
module Service {
  import opened Results
  import opened Reals
  import opened PowerLimits
  import opened ControllerTypes
  import opened ControlLaw
  import opened Controller
  import opened WriteBook
  import opened Dispatch
  import WriteDiscipline

  predicate ActiveControl(state: RuntimeState) {
    state == Active || state == Degraded
  }

  predicate ZeroingControl(state: RuntimeState) {
    state == RampToZero || state == Standby || state == Failsafe
  }

  predicate HasNonZeroSubmitted(book: Book) {
    exists index :: index in book.lastValue && Abs(book.lastValue[index]) > TOLERANCE
  }

  predicate NeedsOwnership(cfg: Config, book: Book, state: RuntimeState, held: bool) {
    && cfg.submitWrites && !cfg.shadowMode
    && (ActiveControl(state)
        || (held && ZeroingControl(state) && (HasNonZeroSubmitted(book) || book.pending != map[])))
  }

  /** The first assignments that have both an output and a configuration. */
  function Submittable(cfg: Config, output: CycleOutput): nat {
    if |output.pcs| < |cfg.pcs| then |output.pcs| else |cfg.pcs|
  }

  ghost predicate Enumerates(order: seq<nat>, keys: set<nat>) {
    multiset(order) == multiset(keys)
  }

  class AgcAvcService {
    const cfg: Config
    const controller: AgcAvcController
    var ownershipHeld: bool
    var latched: Option<Command>
    var lastWriteStatus: int
    var consecutiveWriteFailures: int
    var lastSubmittedValue: map<nat, real>
    var lastSubmittedAtMs: map<nat, int>
    var pendingWrites: map<nat, Pending>
    var pendingFeedback: seq<Feedback>
    /** The history of pipeline events; the model's own, the C++ code does not keep it. */
    var log: seq<Event>

    function Pipeline(): Book
      reads this
    {
      Book(lastSubmittedValue, lastSubmittedAtMs, pendingWrites, pendingFeedback, consecutiveWriteFailures,
           lastWriteStatus, log)
    }

    /** The write pipeline has kept its promises so far. */
    ghost predicate Valid()
      reads this, controller
    {
      controller.cfg == cfg && controller.Valid() && WriteDiscipline.Kept(Pipeline())
    }

    constructor (cfg: Config, libm: Libm)
      ensures this.cfg == cfg && Valid() && fresh(controller)
      ensures Pipeline() == EMPTY && latched == None && !ownershipHeld
      ensures controller.libm == libm && controller.State() == Initial(cfg)
    {
      this.cfg := cfg;
      controller := new AgcAvcController(cfg, libm);
      ownershipHeld, latched, lastWriteStatus, consecutiveWriteFailures := false, None, 0, 0;
      lastSubmittedValue, lastSubmittedAtMs, pendingWrites, pendingFeedback, log := map[], map[], map[], [], [];
    }

    method RegisterWriteFailure(index: nat)
      modifies `lastWriteStatus, `consecutiveWriteFailures, `lastSubmittedValue, `lastSubmittedAtMs, `log
      ensures Pipeline() == RegisterFailure(old(Pipeline()), index)
    {
      lastWriteStatus := -1;
      consecutiveWriteFailures := consecutiveWriteFailures + 1;
      log := log + [Failure(index)];
      if index != 0 {
        lastSubmittedValue := lastSubmittedValue - {index};
        lastSubmittedAtMs := lastSubmittedAtMs - {index};
      }
    }

    /** The writes in flight, visited in an arbitrary order. */
    method SettleWrites(nowMs: int, bus: Bus) returns (successObserved: bool, ghost order: seq<nat>)
      modifies `lastWriteStatus, `consecutiveWriteFailures, `lastSubmittedValue, `lastSubmittedAtMs, `pendingWrites,
        `pendingFeedback, `log
      ensures Enumerates(order, old(pendingWrites).Keys)
      ensures (Pipeline(), successObserved) == ProcessWrites(cfg, old(Pipeline()), order, bus, nowMs)
    {
      hide ProcessWrite;
      successObserved, order := false, [];
      var unvisited := pendingWrites.Keys;
      while unvisited != {}
        invariant unvisited <= pendingWrites.Keys
        invariant multiset(order) + multiset(unvisited) == multiset(old(pendingWrites).Keys)
        invariant (Pipeline(), successObserved) == ProcessWrites(cfg, old(Pipeline()), order, bus, nowMs)
        decreases unvisited
      {
        var index :| index in unvisited;
        unvisited := unvisited - {index};
        var success := SettleWrite(index, bus.results(pendingWrites[index]), nowMs);
        assert (order + [index])[..|order|] == order;
        order := order + [index];
        successObserved := successObserved || success;
      }
    }

    method SettleWrite(index: nat, result: Option<WriteResult>, nowMs: int) returns (success: bool)
      requires index in pendingWrites
      modifies `lastWriteStatus, `consecutiveWriteFailures, `lastSubmittedValue, `lastSubmittedAtMs, `pendingWrites,
        `pendingFeedback, `log
      ensures (Pipeline(), success) == ProcessWrite(cfg, old(Pipeline()), index, result, nowMs)
      ensures old(pendingWrites).Keys - {index} <= pendingWrites.Keys
    {
      hide RegisterFailure, WatchFeedback;
      success := false;
      var pending := pendingWrites[index];
      if result.Some? {
        if result.value.success {
          success := true;
          StartWatch(pending, if result.value.completedAtMs > 0 then result.value.completedAtMs else nowMs);
        } else {
          RegisterWriteFailure(index);
        }
        pendingWrites := pendingWrites - {index};
        log := log + [Resolved(index)];
      } else if nowMs - pending.submittedAtMs >= cfg.writeResultTimeoutMs {
        RegisterWriteFailure(index);
        pendingWrites := pendingWrites - {index};
        log := log + [Resolved(index)];
      }
    }

    method StartWatch(pending: Pending, startedAtMs: int)
      modifies `pendingFeedback
      ensures Pipeline() == WatchFeedback(cfg, old(Pipeline()), pending, startedAtMs)
    {
      if pending.pcsIndex < |cfg.pcs| && cfg.pcs[pending.pcsIndex].feedbackTimeoutMs > 0 {
        pendingFeedback := WithoutWatch(pendingFeedback, pending.pcsIndex, pending.reactive)
          + [Feedback(pending.pcsIndex, pending.reactive, pending.target, startedAtMs)];
      }
    }

    method SettleFeedback(nowMs: int, input: CycleInput) returns (successObserved: bool)
      modifies `lastWriteStatus, `consecutiveWriteFailures, `lastSubmittedValue, `lastSubmittedAtMs, `pendingFeedback,
        `log
      ensures var (book, kept, seen) := ProcessFeedback(cfg, old(Pipeline()), old(pendingFeedback), input, nowMs);
              Pipeline() == book.(feedback := kept) && successObserved == seen
    {
      hide RegisterFailure;
      successObserved := false;
      var items := pendingFeedback;
      var kept: seq<Feedback> := [];
      for k := 0 to |items|
        invariant pendingFeedback == items
        invariant ProcessFeedback(cfg, old(Pipeline()), items[..k], input, nowMs) == (Pipeline(), kept, successObserved)
      {
        assert items[..k + 1][..k] == items[..k];
        match Judge(cfg, input, items[k], nowMs)
        case Stale =>
        case Reached => successObserved := true;
        case Missed(index) => RegisterWriteFailure(index);
        case Waiting => kept := kept + [items[k]];
      }
      assert items[..|items|] == items;
      pendingFeedback := kept;
    }

    method ProcessWriteResults(nowMs: int, input: CycleInput, bus: Bus) returns (ghost order: seq<nat>)
      modifies `lastWriteStatus, `consecutiveWriteFailures, `lastSubmittedValue, `lastSubmittedAtMs, `pendingWrites,
        `pendingFeedback, `log
      ensures Enumerates(order, old(pendingWrites).Keys)
      ensures Pipeline() == ProcessResults(cfg, old(Pipeline()), order, bus, input, nowMs)
    {
      hide ProcessWrites, ProcessFeedback;
      var failuresBefore := consecutiveWriteFailures;
      var seenWrite;
      seenWrite, order := SettleWrites(nowMs, bus);
      var seenFeedback := SettleFeedback(nowMs, input);
      if (seenWrite || seenFeedback) && consecutiveWriteFailures == failuresBefore {
        consecutiveWriteFailures := 0;
        lastWriteStatus := 1;
      }
    }

    method SubmitTargetsOf(s: Setpoint, sequence: int, nowMs: int, bus: Bus, acquired: bool)
      modifies `lastSubmittedValue, `lastSubmittedAtMs, `pendingWrites, `log
      ensures Pipeline() == SubmitTargets(old(Pipeline()), s, |s.targets|, sequence, nowMs, bus, acquired)
    {
      for k := 0 to |s.targets|
        invariant Pipeline() == SubmitTargets(old(Pipeline()), s, k, sequence, nowMs, bus, acquired)
      {
        var index := s.targets[k];
        if index == 0 || index in pendingWrites {
          continue;
        }
        var value := SetpointValue(s);
        if index in lastSubmittedValue && Abs(lastSubmittedValue[index] - value) < s.deadband {
          continue;
        }
        if index in lastSubmittedAtMs && nowMs - lastSubmittedAtMs[index] < s.minIntervalMs {
          continue;
        }
        var command := WriteCommand(CommandId(sequence, nowMs, index), value);
        if bus.accepts(|log|, command) {
          lastSubmittedValue := lastSubmittedValue[index := value];
          lastSubmittedAtMs := lastSubmittedAtMs[index := nowMs];
          pendingWrites := pendingWrites[index := Pending(command.id, s.pcsIndex, s.reactive, s.total, nowMs)];
          log := log + [Submitted(index, value, nowMs, s.minIntervalMs, acquired)];
        } else {
          log := log + [Refused(index)];
        }
      }
    }

    method SubmitAll(output: CycleOutput, nowMs: int, bus: Bus, acquired: bool)
      modifies `lastSubmittedValue, `lastSubmittedAtMs, `pendingWrites, `log
      ensures Pipeline() == SubmitAssignments(cfg, old(Pipeline()), output, Submittable(cfg, output), nowMs, bus,
                                              acquired)
    {
      hide SubmitTargets;
      for i := 0 to Submittable(cfg, output)
        invariant Pipeline() == SubmitAssignments(cfg, old(Pipeline()), output, i, nowMs, bus, acquired)
      {
        var assignment := output.pcs[i];
        if !assignment.available {
          continue;
        }
        SubmitTargetsOf(ActiveSetpoint(cfg.pcs[i], i, assignment), output.commandSequence, nowMs, bus, acquired);
        SubmitTargetsOf(ReactiveSetpoint(cfg.pcs[i], i, assignment), output.commandSequence, nowMs, bus, acquired);
      }
    }

    /** Ownership is acquired while it is needed and given back otherwise. */
    method UpdateOwnership(state: RuntimeState, granted: bool) returns (needed: bool)
      modifies `ownershipHeld
      ensures needed == NeedsOwnership(cfg, Pipeline(), state, old(ownershipHeld))
      ensures needed ==> cfg.submitWrites && !cfg.shadowMode
      ensures ownershipHeld == (needed && granted)
      ensures Pipeline() == old(Pipeline())
    {
      needed := NeedsOwnership(cfg, Pipeline(), state, ownershipHeld);
      if needed {
        ownershipHeld := granted;
      } else if ownershipHeld {
        ownershipHeld := false;
      }
    }

    /** One tick. Beside the new state in full: the pipeline's promises are kept, and with the failure
        count at its limit an enabled controller emits only zero targets. */
    method RunTick(tick: Tick) returns (output: CycleOutput, ghost order: seq<nat>)
      requires Valid()
      modifies this, controller
      ensures Valid()
      ensures latched == Latch(old(latched), tick)
      ensures Enumerates(order, old(pendingWrites).Keys)
      ensures
        var settled := ProcessResults(cfg, old(Pipeline()), order, tick.bus, tick.observed, tick.observed.nowMs);
        var writesFailed := settled.failures >= cfg.maxConsecutiveWriteFailures;
        var (memory, cycle) :=
          Cycle(cfg, controller.libm, old(controller.State()), ControllerInput(latched, tick, writesFailed));
        var needed := NeedsOwnership(cfg, settled, cycle.state, old(ownershipHeld));
        && controller.State() == memory
        && ownershipHeld == (needed && tick.granted)
        && output == (if needed && !tick.granted then cycle.(state := PausedByPriority) else cycle)
        && Pipeline() == (if ownershipHeld && output.state != PausedByPriority
                          then SubmitAssignments(cfg, settled, output, Submittable(cfg, output), tick.observed.nowMs,
                                                 tick.bus, true)
                          else settled)
        && (cfg.enabled && writesFailed ==> forall i :: 0 <= i < |output.pcs| ==> output.pcs[i].target == ZERO)
    {
      hide Cycle, ProcessResults, SubmitAssignments, WriteDiscipline.Kept, NeedsOwnership, Latch;
      var nowMs := tick.observed.nowMs;
      latched := Latch(latched, tick);
      order := ProcessWriteResults(nowMs, tick.observed, tick.bus);
      ghost var settled := Pipeline();
      WriteDiscipline.ProcessResultsKept(cfg, old(Pipeline()), order, tick.bus, tick.observed, nowMs);
      var writesFailed := consecutiveWriteFailures >= cfg.maxConsecutiveWriteFailures;
      var input := ControllerInput(latched, tick, writesFailed);
      output := controller.Step(input);
      if cfg.enabled && writesFailed {
        FailsafeEmitsZero(cfg, controller.libm, old(controller.State()), input);
      }
      var needed := UpdateOwnership(output.state, tick.granted);
      if needed && !ownershipHeld {
        output := output.(state := PausedByPriority);
      }
      if cfg.submitWrites && !cfg.shadowMode && ownershipHeld && output.state != PausedByPriority {
        WriteDiscipline.SubmitAssignmentsKept(cfg, settled, output, Submittable(cfg, output), nowMs, tick.bus);
        SubmitAll(output, nowMs, tick.bus, needed && tick.granted && !cfg.shadowMode);
      }
    }
  }

  /** Ownership is needed while the controller follows a command, and, once held, while power is let go until nothing
      is in flight and what was last sent to every point is zero; never in shadow mode or without writes. */
  lemma OwnershipUntilZero(cfg: Config, book: Book, state: RuntimeState, held: bool)
    ensures NeedsOwnership(cfg, book, state, held) ==> cfg.submitWrites && !cfg.shadowMode
    ensures cfg.submitWrites && !cfg.shadowMode && state in {Active, Degraded} ==>
              NeedsOwnership(cfg, book, state, held)
    ensures state in {Disabled, PausedByPriority} || (!held && state !in {Active, Degraded}) ==>
              !NeedsOwnership(cfg, book, state, held)
    ensures cfg.submitWrites && !cfg.shadowMode && held && state in {RampToZero, Standby, Failsafe} ==>
              (NeedsOwnership(cfg, book, state, held) <==>
               (exists i :: i in book.pending)
               || exists i :: i in book.lastValue && !(-TOLERANCE <= book.lastValue[i] <= TOLERANCE))
  {
    assert book.pending != map[] <==> exists i :: i in book.pending;
  }

  /** With inputs marked unhealthy, an enabled controller emits exactly zero for every PCS. */
  lemma FailsafeEmitsZero(cfg: Config, libm: Libm, memory: Memory, input: CycleInput)
    requires |memory.pcs| == |cfg.pcs| && cfg.enabled && Unsafe(input)
    ensures var (after, output) := Cycle(cfg, libm, memory, input);
            && output.state == Failsafe && |output.pcs| == |cfg.pcs|
            && forall i :: 0 <= i < |cfg.pcs| ==> output.pcs[i].target == ZERO && after.pcs[i] == ZERO
  {
    hide Total;
  }
}
