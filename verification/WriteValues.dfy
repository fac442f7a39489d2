/** What the write pipeline sends: every value it submits is the share of a PCS's target that belongs to the point, and
    no point is passed over without a reason. */
module WriteValues {
  import opened Reals
  import opened PowerLimits
  import opened ControllerTypes
  import opened WriteBook

  // ----- the share of a point -----

  function PointsOf(pcs: PcsConfig, reactive: bool): seq<nat> {
    if reactive then pcs.reactiveTargets else pcs.activeTargets
  }

  function RatingOf(pcs: PcsConfig, reactive: bool): real {
    if reactive then pcs.ratedApparentPowerKva.commissionedLimit else pcs.ratedActivePowerKw.commissionedLimit
  }

  function DeadbandOf(pcs: PcsConfig, reactive: bool): real {
    Max(0.0, if reactive then pcs.writeDeadbandKvar else pcs.writeDeadbandKw)
  }

  function Asked(assignment: Assignment, reactive: bool): real {
    if reactive then assignment.target.q else assignment.target.p
  }

  /** The points of a PCS share what is asked of it equally; in percent each carries all of it, relative to the rating,
      or nothing without one. */
  predicate IsShare(pcs: PcsConfig, reactive: bool, asked: real, value: real) {
    if pcs.setpointType != "ratedPercent" then value * |PointsOf(pcs, reactive)| as real == asked
    else if RatingOf(pcs, reactive) > 0.0 then value * RatingOf(pcs, reactive) == 100.0 * asked
    else value == 0.0
  }

  function SetpointOf(pcs: PcsConfig, i: nat, assignment: Assignment, reactive: bool): Setpoint {
    if reactive then ReactiveSetpoint(pcs, i, assignment) else ActiveSetpoint(pcs, i, assignment)
  }

  lemma ValueIsShare(pcs: PcsConfig, i: nat, assignment: Assignment, reactive: bool)
    requires PointsOf(pcs, reactive) != []
    ensures var s := SetpointOf(pcs, i, assignment, reactive);
            IsShare(pcs, reactive, Asked(assignment, reactive), SetpointValue(s))
  {
    var s := SetpointOf(pcs, i, assignment, reactive);
    EqualShare(s.total, |s.targets|);
    if s.rated > 0.0 {
      Quotients(s.total * 100.0, s.rated);
    }
  }

  lemma EqualShare(total: real, n: nat)
    requires n > 0
    ensures (if n > 1 then total / n as real else total) * n as real == total
  {
    if n > 1 {
      Quotients(total, n as real);
    }
  }

  lemma Quotients(x: real, y: real)
    requires y > 0.0
    ensures x / y * y == x
  {
  }

  /** As many shares as there are points make up the whole. */
  lemma SharesAddUp(pcs: PcsConfig, reactive: bool, asked: real, values: seq<real>)
    requires pcs.setpointType != "ratedPercent" && |values| == |PointsOf(pcs, reactive)| > 0
    requires forall k :: 0 <= k < |values| ==> IsShare(pcs, reactive, asked, values[k])
    ensures Sum(values) == asked
  {
    hide IsShare, Sum;
    forall k | 0 <= k < |values|
      ensures values[k] == values[0]
    {
      SharesAlike(pcs, reactive, asked, values[k], values[0]);
    }
    SumEqual(values, values[0]);
    SharesAlike(pcs, reactive, asked, values[0], values[0]);
  }

  lemma SharesAlike(pcs: PcsConfig, reactive: bool, asked: real, x: real, y: real)
    requires pcs.setpointType != "ratedPercent" && PointsOf(pcs, reactive) != []
    requires IsShare(pcs, reactive, asked, x) && IsShare(pcs, reactive, asked, y)
    ensures x == y && x * |PointsOf(pcs, reactive)| as real == asked
  {
    SameFactor(x, y, |PointsOf(pcs, reactive)| as real);
  }

  lemma SameFactor(x: real, y: real, n: real)
    requires n > 0.0 && x * n == y * n
    ensures x == y
  {
    assert (x - y) * n == 0.0;
  }

  lemma {:induction false} SumEqual(values: seq<real>, x: real)
    requires forall k :: 0 <= k < |values| ==> values[k] == x
    ensures Sum(values) == x * |values| as real
  {
    if values != [] {
      var n := |values| - 1;
      SumEqual(values[..n], x);
      assert x * (n + 1) as real == x * n as real + x;
    }
  }

  // ----- what is submitted -----

  /** The event is the submission of a share of a PCS's target to one of its points. */
  predicate IsFor(cfg: Config, output: CycleOutput, nowMs: int, e: Event, i: nat, reactive: bool) {
    && e.Submitted? && i < |cfg.pcs| && i < |output.pcs| && output.pcs[i].available
    && e.index in PointsOf(cfg.pcs[i], reactive) && e.index != 0 && e.atMs == nowMs
    && e.minIntervalMs == cfg.pcs[i].minWriteIntervalMs
    && IsShare(cfg.pcs[i], reactive, Asked(output.pcs[i], reactive), e.value)
  }

  /** The value is new to the point by at least the deadband, and nothing is in flight to it. */
  predicate IsNews(cfg: Config, before: Book, e: Event, i: nat, reactive: bool) {
    && e.Submitted? && i < |cfg.pcs| && e.index !in before.pending
    && (e.index in before.lastValue ==> Abs(before.lastValue[e.index] - e.value) >= DeadbandOf(cfg.pcs[i], reactive))
  }

  ghost predicate Meant(cfg: Config, output: CycleOutput, nowMs: int, before: Book, e: Event) {
    exists i: nat, reactive: bool ::
      IsFor(cfg, output, nowMs, e, i, reactive) && IsNews(cfg, before, e, i, reactive)
  }

  /** The write in flight to a point carries the whole target that its share belongs to. */
  predicate CarriesFor(cfg: Config, output: CycleOutput, nowMs: int, index: nat, p: Pending, i: nat, reactive: bool) {
    && i < |cfg.pcs| && i < |output.pcs| && output.pcs[i].available && index in PointsOf(cfg.pcs[i], reactive)
    && p == Pending(CommandId(output.commandSequence, nowMs, index), i, reactive, Asked(output.pcs[i], reactive), nowMs)
  }

  ghost predicate Carries(cfg: Config, output: CycleOutput, nowMs: int, index: nat, p: Pending) {
    exists i: nat, reactive: bool :: CarriesFor(cfg, output, nowMs, index, p, i, reactive)
  }

  /** The later history goes on from the earlier one, every submission in between is meant, and what is newly in flight
      carries a target of this cycle. */
  ghost predicate GoesOn(cfg: Config, output: CycleOutput, nowMs: int, before: Book, after: Book) {
    && Extends(before, after)
    && (forall k :: |before.log| <= k < |after.log| && after.log[k].Submitted? ==>
          Meant(cfg, output, nowMs, before, after.log[k]))
    && (forall index :: index in after.pending ==>
          (index in before.pending && after.pending[index] == before.pending[index])
          || Carries(cfg, output, nowMs, index, after.pending[index]))
  }

  /** What one point's turn adds to the history. */
  lemma TargetGoesOn(cfg: Config, output: CycleOutput, book: Book, i: nat, reactive: bool, j: nat, nowMs: int, bus: Bus,
                     acquired: bool)
    requires i < |cfg.pcs| && i < |output.pcs| && output.pcs[i].available && j < |PointsOf(cfg.pcs[i], reactive)|
    ensures var s := SetpointOf(cfg.pcs[i], i, output.pcs[i], reactive);
            GoesOn(cfg, output, nowMs, book,
                   SubmitTarget(book, s, s.targets[j], output.commandSequence, nowMs, bus, acquired))
  {
    hide SetpointValue, IsShare;
    var s := SetpointOf(cfg.pcs[i], i, output.pcs[i], reactive);
    ValueIsShare(cfg.pcs[i], i, output.pcs[i], reactive);
    TargetExtends(book, s, s.targets[j], output.commandSequence, nowMs, bus, acquired);
    if !Suppressed(book, s, s.targets[j], nowMs) {
      var e := Submitted(s.targets[j], SetpointValue(s), nowMs, s.minIntervalMs, acquired);
      assert IsFor(cfg, output, nowMs, e, i, reactive) && IsNews(cfg, book, e, i, reactive);
      var p := Pending(CommandId(output.commandSequence, nowMs, s.targets[j]), i, reactive, s.total, nowMs);
      assert CarriesFor(cfg, output, nowMs, s.targets[j], p, i, reactive);
    }
  }

  lemma GoesOnTwice(cfg: Config, output: CycleOutput, nowMs: int, a: Book, b: Book, c: Book)
    requires GoesOn(cfg, output, nowMs, a, b) && GoesOn(cfg, output, nowMs, b, c)
    ensures GoesOn(cfg, output, nowMs, a, c)
  {
    hide Meant, Carries, Extends;
    ExtendsTwice(a, b, c);
    ExtendsLog(a, b);
    ExtendsLog(b, c);
    forall k | |a.log| <= k < |c.log| && c.log[k].Submitted?
      ensures Meant(cfg, output, nowMs, a, c.log[k])
    {
      if k < |b.log| {
        assert b.log[k] == c.log[k];
      } else {
        MeantEarlier(cfg, output, nowMs, a, b, c.log[k]);
      }
    }
  }

  lemma MeantEarlier(cfg: Config, output: CycleOutput, nowMs: int, a: Book, b: Book, e: Event)
    requires Extends(a, b) && Meant(cfg, output, nowMs, b, e)
    ensures Meant(cfg, output, nowMs, a, e)
  {
    hide IsFor;
    var i: nat, reactive: bool :| IsFor(cfg, output, nowMs, e, i, reactive) && IsNews(cfg, b, e, i, reactive);
    assert IsNews(cfg, a, e, i, reactive);
  }

  lemma {:induction false} TargetsGoOn(cfg: Config, output: CycleOutput, book: Book, i: nat, reactive: bool, n: nat,
                                       nowMs: int, bus: Bus, acquired: bool)
    requires i < |cfg.pcs| && i < |output.pcs| && output.pcs[i].available && n <= |PointsOf(cfg.pcs[i], reactive)|
    ensures var s := SetpointOf(cfg.pcs[i], i, output.pcs[i], reactive);
            GoesOn(cfg, output, nowMs, book,
                   SubmitTargets(book, s, n, output.commandSequence, nowMs, bus, acquired))
  {
    hide GoesOn, SubmitTarget;
    if n == 0 {
      NothingAdded(cfg, output, nowMs, book);
    } else {
      var s := SetpointOf(cfg.pcs[i], i, output.pcs[i], reactive);
      var before := SubmitTargets(book, s, n - 1, output.commandSequence, nowMs, bus, acquired);
      TargetsGoOn(cfg, output, book, i, reactive, n - 1, nowMs, bus, acquired);
      TargetGoesOn(cfg, output, before, i, reactive, n - 1, nowMs, bus, acquired);
      GoesOnTwice(cfg, output, nowMs, book, before,
                  SubmitTargets(book, s, n, output.commandSequence, nowMs, bus, acquired));
    }
  }

  lemma NothingAdded(cfg: Config, output: CycleOutput, nowMs: int, book: Book)
    ensures GoesOn(cfg, output, nowMs, book, book)
  {
  }

  /** The turn of one PCS: P, then Q. */
  function Turn(cfg: Config, book: Book, output: CycleOutput, i: nat, nowMs: int, bus: Bus, acquired: bool): Book
    requires i < |cfg.pcs| && i < |output.pcs|
  {
    var p, q := SetpointOf(cfg.pcs[i], i, output.pcs[i], false), SetpointOf(cfg.pcs[i], i, output.pcs[i], true);
    var after := SubmitTargets(book, p, |p.targets|, output.commandSequence, nowMs, bus, acquired);
    SubmitTargets(after, q, |q.targets|, output.commandSequence, nowMs, bus, acquired)
  }

  /** Whatever the bus answers: a tick adds to the history, and everything it submits is the share of a target of this
      cycle, sent to one of the points of that PCS and quantity. */
  lemma {:induction false} SubmittedAreShares(cfg: Config, book: Book, output: CycleOutput, n: nat, nowMs: int,
                                              bus: Bus, acquired: bool)
    requires n <= |output.pcs| && n <= |cfg.pcs|
    ensures GoesOn(cfg, output, nowMs, book, SubmitAssignments(cfg, book, output, n, nowMs, bus, acquired))
  {
    hide GoesOn, SubmitTargets;
    NothingAdded(cfg, output, nowMs, book);
    if n != 0 {
      var i := n - 1;
      var before := SubmitAssignments(cfg, book, output, i, nowMs, bus, acquired);
      SubmittedAreShares(cfg, book, output, i, nowMs, bus, acquired);
      if output.pcs[i].available {
        var p := SetpointOf(cfg.pcs[i], i, output.pcs[i], false);
        var middle := SubmitTargets(before, p, |p.targets|, output.commandSequence, nowMs, bus, acquired);
        var after := Turn(cfg, before, output, i, nowMs, bus, acquired);
        TargetsGoOn(cfg, output, before, i, false, |p.targets|, nowMs, bus, acquired);
        TargetsGoOn(cfg, output, middle, i, true, |PointsOf(cfg.pcs[i], true)|, nowMs, bus, acquired);
        GoesOnTwice(cfg, output, nowMs, book, before, middle);
        GoesOnTwice(cfg, output, nowMs, book, middle, after);
      }
    }
  }

  // ----- the whole target -----

  function Values(events: seq<Event>): (r: seq<real>)
    requires forall k :: 0 <= k < |events| ==> events[k].Submitted?
    ensures |r| == |events|
  {
    seq(|events|, k requires 0 <= k < |events| => events[k].value)
  }

  lemma {:induction false} SameValues(book: Book, s: Setpoint, n: nat, sequence: int, nowMs: int, bus: Bus,
                                      acquired: bool)
    requires n <= |s.targets|
    ensures var after := SubmitTargets(book, s, n, sequence, nowMs, bus, acquired).log;
            && book.log <= after
            && forall k :: |book.log| <= k < |after| && after[k].Submitted? ==> after[k].value == SetpointValue(s)
  {
    hide SetpointValue, Suppressed;
    if n != 0 {
      SameValues(book, s, n - 1, sequence, nowMs, bus, acquired);
    }
  }

  /** When every point of a PCS and quantity is submitted to, the values add up to exactly the target. */
  lemma WholeTargetSubmitted(pcs: PcsConfig, i: nat, assignment: Assignment, reactive: bool, book: Book, sequence: int,
                             nowMs: int, bus: Bus, acquired: bool, added: seq<Event>)
    requires pcs.setpointType != "ratedPercent" && |added| == |PointsOf(pcs, reactive)| > 0
    requires forall k :: 0 <= k < |added| ==> added[k].Submitted?
    requires SubmitTargets(book, SetpointOf(pcs, i, assignment, reactive), |PointsOf(pcs, reactive)|, sequence, nowMs,
                           bus, acquired).log == book.log + added
    ensures Sum(Values(added)) == Asked(assignment, reactive)
  {
    hide SetpointValue, SubmitTargets, Sum, IsShare;
    var s := SetpointOf(pcs, i, assignment, reactive);
    SameValues(book, s, |s.targets|, sequence, nowMs, bus, acquired);
    ValueIsShare(pcs, i, assignment, reactive);
    var log := book.log + added;
    forall k | 0 <= k < |added|
      ensures Values(added)[k] == SetpointValue(s)
    {
      assert log[|book.log| + k] == added[k];
    }
    SharesAddUp(pcs, reactive, Asked(assignment, reactive), Values(added));
  }

  // ----- no point is passed over -----

  predicate WasRefused(before: seq<Event>, after: seq<Event>, index: nat) {
    |before| <= |after| && Refused(index) in after[|before|..]
  }

  /** Why nothing new may be on its way to a point: it is none, a write is in flight, the bus refused, what was last
      sent is within the deadband of the share, or it was sent less than the minimum interval ago. */
  ghost predicate Settled(pcs: PcsConfig, reactive: bool, asked: real, index: nat, before: seq<Event>, after: Book,
                          nowMs: int)
  {
    || index == 0 || index in after.pending || WasRefused(before, after.log, index)
    || (index in after.lastValue
        && exists v :: IsShare(pcs, reactive, asked, v) && Abs(after.lastValue[index] - v) < DeadbandOf(pcs, reactive))
    || (index in after.lastAt && nowMs - after.lastAt[index] < pcs.minWriteIntervalMs)
  }

  /** Submissions only add: to the history, and to what is in flight; other points keep what was last sent. */
  predicate Extends(a: Book, b: Book) {
    && a.log <= b.log && a.pending.Keys <= b.pending.Keys
    && (forall x :: x in a.lastValue && x !in b.pending ==> x in b.lastValue && b.lastValue[x] == a.lastValue[x])
    && (forall x :: x in a.lastAt && x !in b.pending ==> x in b.lastAt && b.lastAt[x] == a.lastAt[x])
  }

  lemma ExtendsTwice(a: Book, b: Book, c: Book)
    requires Extends(a, b) && Extends(b, c)
    ensures Extends(a, c)
  {
  }

  lemma {:induction false} TargetsExtend(book: Book, s: Setpoint, n: nat, sequence: int, nowMs: int, bus: Bus,
                                         acquired: bool)
    requires n <= |s.targets|
    ensures Extends(book, SubmitTargets(book, s, n, sequence, nowMs, bus, acquired))
  {
    hide SetpointValue, Suppressed, SubmitTarget, Extends;
    if n == 0 {
      NothingExtended(book);
    } else {
      var before := SubmitTargets(book, s, n - 1, sequence, nowMs, bus, acquired);
      TargetsExtend(book, s, n - 1, sequence, nowMs, bus, acquired);
      TargetExtends(before, s, s.targets[n - 1], sequence, nowMs, bus, acquired);
      ExtendsTwice(book, before, SubmitTargets(book, s, n, sequence, nowMs, bus, acquired));
    }
  }

  lemma NothingExtended(book: Book)
    ensures Extends(book, book)
  {
  }

  lemma TargetExtends(book: Book, s: Setpoint, index: nat, sequence: int, nowMs: int, bus: Bus, acquired: bool)
    ensures Extends(book, SubmitTarget(book, s, index, sequence, nowMs, bus, acquired))
  {
    hide SetpointValue, Suppressed;
  }

  lemma SettledStays(pcs: PcsConfig, reactive: bool, asked: real, index: nat, before: seq<Event>, a: Book, b: Book,
                     nowMs: int)
    requires Settled(pcs, reactive, asked, index, before, a, nowMs) && Extends(a, b)
    ensures Settled(pcs, reactive, asked, index, before, b, nowMs)
  {
    hide IsShare;
    if WasRefused(before, a.log, index) {
      var k :| |before| <= k < |a.log| && a.log[k] == Refused(index);
      assert b.log[|before|..][k - |before|] == Refused(index);
    }
  }

  /** A point's own turn settles it. */
  lemma TurnSettles(pcs: PcsConfig, i: nat, assignment: Assignment, reactive: bool, j: nat, before: seq<Event>,
                    book: Book, sequence: int, nowMs: int, bus: Bus, acquired: bool)
    requires j < |PointsOf(pcs, reactive)| && before <= book.log
    ensures var s := SetpointOf(pcs, i, assignment, reactive);
            Settled(pcs, reactive, Asked(assignment, reactive), s.targets[j], before,
                    SubmitTarget(book, s, s.targets[j], sequence, nowMs, bus, acquired), nowMs)
  {
    hide SetpointValue, IsShare;
    var s := SetpointOf(pcs, i, assignment, reactive);
    var index := s.targets[j];
    ValueIsShare(pcs, i, assignment, reactive);
    var after := SubmitTarget(book, s, index, sequence, nowMs, bus, acquired);
    if !Suppressed(book, s, index, nowMs) && index !in after.pending {
      assert after.log[|before|..][|book.log| - |before|] == Refused(index);
    }
  }

  lemma {:induction false} TargetsSettle(pcs: PcsConfig, i: nat, assignment: Assignment, reactive: bool, n: nat, j: nat,
                                         before: seq<Event>, book: Book, sequence: int, nowMs: int, bus: Bus,
                                         acquired: bool)
    requires j < n <= |PointsOf(pcs, reactive)| && before <= book.log
    ensures var s := SetpointOf(pcs, i, assignment, reactive);
            Settled(pcs, reactive, Asked(assignment, reactive), s.targets[j], before,
                    SubmitTargets(book, s, n, sequence, nowMs, bus, acquired), nowMs)
  {
    hide Settled, SubmitTarget, Extends;
    var s := SetpointOf(pcs, i, assignment, reactive);
    var last := SubmitTargets(book, s, n - 1, sequence, nowMs, bus, acquired);
    TargetsExtend(book, s, n - 1, sequence, nowMs, bus, acquired);
    ExtendsLog(book, last);
    if j == n - 1 {
      TurnSettles(pcs, i, assignment, reactive, j, before, last, sequence, nowMs, bus, acquired);
    } else {
      TargetsSettle(pcs, i, assignment, reactive, n - 1, j, before, book, sequence, nowMs, bus, acquired);
      TargetExtends(last, s, s.targets[n - 1], sequence, nowMs, bus, acquired);
      SettledStays(pcs, reactive, Asked(assignment, reactive), s.targets[j], before, last,
                   SubmitTargets(book, s, n, sequence, nowMs, bus, acquired), nowMs);
    }
  }

  lemma ExtendsLog(a: Book, b: Book)
    requires Extends(a, b)
    ensures a.log <= b.log
  {
  }

  lemma TurnExtends(cfg: Config, book: Book, output: CycleOutput, i: nat, nowMs: int, bus: Bus, acquired: bool)
    requires i < |cfg.pcs| && i < |output.pcs|
    ensures Extends(book, Turn(cfg, book, output, i, nowMs, bus, acquired))
  {
    hide Extends, SubmitTargets;
    var p, q := SetpointOf(cfg.pcs[i], i, output.pcs[i], false), SetpointOf(cfg.pcs[i], i, output.pcs[i], true);
    var middle := SubmitTargets(book, p, |p.targets|, output.commandSequence, nowMs, bus, acquired);
    TargetsExtend(book, p, |p.targets|, output.commandSequence, nowMs, bus, acquired);
    TargetsExtend(middle, q, |q.targets|, output.commandSequence, nowMs, bus, acquired);
    ExtendsTwice(book, middle, Turn(cfg, book, output, i, nowMs, bus, acquired));
  }

  lemma PcsSettles(cfg: Config, book: Book, output: CycleOutput, i: nat, reactive: bool, j: nat, before: seq<Event>,
                   nowMs: int, bus: Bus, acquired: bool)
    requires i < |cfg.pcs| && i < |output.pcs| && j < |PointsOf(cfg.pcs[i], reactive)| && before <= book.log
    ensures Settled(cfg.pcs[i], reactive, Asked(output.pcs[i], reactive), PointsOf(cfg.pcs[i], reactive)[j], before,
                    Turn(cfg, book, output, i, nowMs, bus, acquired), nowMs)
  {
    hide Settled, SubmitTargets, Extends;
    var pcs, assignment := cfg.pcs[i], output.pcs[i];
    var p, q := SetpointOf(pcs, i, assignment, false), SetpointOf(pcs, i, assignment, true);
    var middle := SubmitTargets(book, p, |p.targets|, output.commandSequence, nowMs, bus, acquired);
    TargetsExtend(book, p, |p.targets|, output.commandSequence, nowMs, bus, acquired);
    ExtendsLog(book, middle);
    if reactive {
      TargetsSettle(pcs, i, assignment, true, |q.targets|, j, before, middle, output.commandSequence, nowMs, bus,
                    acquired);
    } else {
      TargetsSettle(pcs, i, assignment, false, |p.targets|, j, before, book, output.commandSequence, nowMs, bus,
                    acquired);
      TargetsExtend(middle, q, |q.targets|, output.commandSequence, nowMs, bus, acquired);
      SettledStays(pcs, false, Asked(assignment, false), p.targets[j], before, middle,
                   Turn(cfg, book, output, i, nowMs, bus, acquired), nowMs);
    }
  }

  /** Whatever the bus answers: behind a tick's submissions no point of an available PCS is left without a write in
      flight unless there is a reason. */
  lemma {:induction false} NoPointPassedOver(cfg: Config, book: Book, output: CycleOutput, n: nat, nowMs: int, bus: Bus,
                                             acquired: bool, i: nat, reactive: bool, j: nat)
    requires i < n <= |output.pcs| && n <= |cfg.pcs| && output.pcs[i].available
    requires j < |PointsOf(cfg.pcs[i], reactive)|
    ensures Settled(cfg.pcs[i], reactive, Asked(output.pcs[i], reactive), PointsOf(cfg.pcs[i], reactive)[j], book.log,
                    SubmitAssignments(cfg, book, output, n, nowMs, bus, acquired), nowMs)
  {
    hide Settled, SubmitTargets, Extends, GoesOn;
    var before := SubmitAssignments(cfg, book, output, n - 1, nowMs, bus, acquired);
    SubmittedAreShares(cfg, book, output, n - 1, nowMs, bus, acquired);
    GoneOn(cfg, output, nowMs, book, before);
    var after := SubmitAssignments(cfg, book, output, n, nowMs, bus, acquired);
    if i == n - 1 {
      PcsSettles(cfg, before, output, i, reactive, j, book.log, nowMs, bus, acquired);
    } else {
      NoPointPassedOver(cfg, book, output, n - 1, nowMs, bus, acquired, i, reactive, j);
      if output.pcs[n - 1].available {
        TurnExtends(cfg, before, output, n - 1, nowMs, bus, acquired);
        SettledStays(cfg.pcs[i], reactive, Asked(output.pcs[i], reactive), PointsOf(cfg.pcs[i], reactive)[j], book.log,
                     before, after, nowMs);
      }
    }
  }

  lemma GoneOn(cfg: Config, output: CycleOutput, nowMs: int, a: Book, b: Book)
    requires GoesOn(cfg, output, nowMs, a, b)
    ensures a.log <= b.log
  {
  }
}
