/** The offline queue of the MQTT publisher: messages wait in memory, overflow into a file, and are replayed
    from the file first. The file system's faults and the broker's answers are arbitrary. */
module OfflineQueue {
  import opened Results
  import opened Integers
  import opened Sequences
  import opened OfflineLines

  datatype Config = Config(enabled: bool, maxMemory: nat, flushBatch: nat, flushIntervalMs: int,
                           replayBatch: nat, maxDiskBytes: nat)

  /** What can go wrong with the file: the lock, opening, a write that stops short, and replacing or removing. */
  datatype Faults = Faults(lockFails: bool, openFails: bool, writeStops: Option<nat>, trimFails: bool,
                           replaceFails: bool)

  const NO_FAULTS := Faults(false, false, None, false, false)

  /** The clock and the file system as one flush finds them. */
  datatype Moment = Moment(now: int, faults: Faults)

  datatype State = State(memory: seq<Message>, file: Option<string>, lastFlushMs: int)

  function AtLeastOne(n: nat): nat {
    if n == 0 then 1 else n
  }

  function Text(file: Option<string>): string {
    if file.None? then "" else file.value
  }

  /** What reaches the file of a text being appended. */
  function Reaching(text: string, faults: Faults): string {
    if faults.writeStops.None? then text else text[..Min(faults.writeStops.value, |text|)]
  }

  function TrimmedFile(text: string, maxBytes: nat, faults: Faults): string {
    if faults.trimFails then text else Trimmed(text, maxBytes)
  }

  /** It is not yet time for an unforced flush. */
  predicate NotDue(cfg: Config, s: State, force: bool, now: int) {
    !force && |s.memory| < AtLeastOne(cfg.flushBatch) && now - s.lastFlushMs < cfg.flushIntervalMs
  }

  function FlushCount(cfg: Config, s: State, force: bool): (n: nat)
    ensures n <= |s.memory|
  {
    if force then |s.memory| else Min(AtLeastOne(cfg.flushBatch), |s.memory|)
  }

  function Flush(cfg: Config, s: State, force: bool, m: Moment): (r: State)
    ensures |r.memory| <= |s.memory|
  {
    if !cfg.enabled || s.memory == [] || NotDue(cfg, s, force, m.now) || m.faults.lockFails || m.faults.openFails then s
    else
      var count := FlushCount(cfg, s, force);
      var text := Text(s.file) + Reaching(TextOf(s.memory[..count]), m.faults);
      State(s.memory[count..], Some(TrimmedFile(text, cfg.maxDiskBytes, m.faults)), m.now)
  }

  // ----- enqueueing -----

  predicate Crowded(cfg: Config, s: State) {
    |s.memory| > cfg.maxMemory && |s.memory| > cfg.flushBatch
  }

  /** Forced flushes, and the oldest message dropped where they do not help. */
  function Relieved(cfg: Config, s: State, moments: nat -> Moment, i: nat): (State, nat)
    decreases |s.memory|
  {
    if !Crowded(cfg, s) then (s, i)
    else
      var flushed := Flush(cfg, s, true, moments(i));
      if |flushed.memory| <= cfg.maxMemory then (flushed, i + 1)
      else Relieved(cfg, flushed.(memory := flushed.memory[1..]), moments, i + 1)
  }

  function Enqueued(cfg: Config, s: State, msg: Message, moments: nat -> Moment): State {
    if !cfg.enabled then s
    else
      var (relieved, i) := Relieved(cfg, s.(memory := s.memory + [msg]), moments, 0);
      Flush(cfg, relieved, false, moments(i))
  }

  lemma {:induction false} RelievedBounded(cfg: Config, s: State, moments: nat -> Moment, i: nat)
    ensures !Crowded(cfg, Relieved(cfg, s, moments, i).0)
    decreases |s.memory|
  {
    hide Flush;
    if Crowded(cfg, s) {
      var flushed := Flush(cfg, s, true, moments(i));
      if |flushed.memory| > cfg.maxMemory {
        RelievedBounded(cfg, flushed.(memory := flushed.memory[1..]), moments, i + 1);
      }
    }
  }

  /** After any enqueue the memory holds at most the larger of its cap and the flush batch, whatever the file
      system does. */
  lemma EnqueuedBounded(cfg: Config, s: State, msg: Message, moments: nat -> Moment)
    requires cfg.enabled
    ensures var n := |Enqueued(cfg, s, msg, moments).memory|; n <= cfg.maxMemory || n <= cfg.flushBatch
  {
    hide Flush, Relieved;
    RelievedBounded(cfg, s.(memory := s.memory + [msg]), moments, 0);
  }

  // ----- replaying -----

  /** The replay's pass over the file: the messages sent, the lines written back, a failure, lines skipped. */
  datatype Scan = Scan(sent: seq<Message>, kept: seq<string>, failed: bool, skipped: nat)

  /** `broker(i)` is whether the `i`-th send of a replay succeeds. */
  function ScanLine(cfg: Config, broker: nat -> bool, scan: Scan, line: string): Scan {
    if |scan.sent| >= AtLeastOne(cfg.replayBatch) || scan.failed then scan.(kept := scan.kept + [line])
    else
      match MessageOf(line)
      case Failed => scan.(skipped := scan.skipped + 1)
      case Ok(m) =>
        if broker(|scan.sent|) then scan.(sent := scan.sent + [m])
        else scan.(kept := scan.kept + [line], failed := true)
  }

  function Scanned(cfg: Config, broker: nat -> bool, lines: seq<string>): Scan {
    if lines == [] then Scan([], [], false, 0)
    else ScanLine(cfg, broker, Scanned(cfg, broker, lines[..|lines| - 1]), lines[|lines| - 1])
  }

  /** How many of the first `limit` messages are sent before the broker refuses one. */
  function SendRun(limit: nat, broker: nat -> bool, start: nat): (n: nat)
    ensures n <= limit
    ensures forall i :: start <= i < start + n ==> broker(i)
    ensures n < limit ==> !broker(start + n)
    decreases limit
  {
    if limit == 0 || !broker(start) then 0 else 1 + SendRun(limit - 1, broker, start + 1)
  }

  datatype Replay = Replay(state: State, sent: seq<Message>)

  function ReplayMemory(cfg: Config, s: State, broker: nat -> bool, sent: seq<Message>): Replay {
    var n := SendRun(Min(|s.memory|, AtLeastOne(cfg.replayBatch)), broker, |sent|);
    Replay(s.(memory := s.memory[n..]), sent + s.memory[..n])
  }

  /** The file after a pass. */
  function Rewritten(file: Option<string>, scan: Scan, faults: Faults): Option<string> {
    if (scan.sent == [] && scan.skipped == 0) || faults.replaceFails then file
    else if scan.kept != [] then Some(Unlines(scan.kept))
    else None
  }

  function Replayed(cfg: Config, s: State, broker: nat -> bool, faults: Faults): Replay {
    if !cfg.enabled || faults.lockFails then Replay(s, [])
    else if s.file.None? then ReplayMemory(cfg, s, broker, [])
    else if faults.openFails then Replay(s, [])
    else
      var scan := Scanned(cfg, broker, LinesOf(s.file.value));
      if faults.writeStops.Some? then Replay(s, scan.sent)
      else
        var rewritten := s.(file := Rewritten(s.file, scan, faults));
        if scan.failed || scan.kept != [] then Replay(rewritten, scan.sent)
        else ReplayMemory(cfg, rewritten, broker, scan.sent)
  }

  // ----- the queue as a list of messages -----

  /** The file holds exactly these messages, and all topics can be read back. */
  ghost predicate Stores(s: State, disk: seq<Message>) {
    Text(s.file) == TextOf(disk) && ValidTopics(disk) && ValidTopics(s.memory)
  }

  predicate ValidTopics(messages: seq<Message>) {
    forall i :: 0 <= i < |messages| ==> ValidTopic(messages[i].topic)
  }

  /** The flush takes the file over its size. */
  predicate Overflows(cfg: Config, s: State, force: bool, now: int) {
    && s.memory != [] && !NotDue(cfg, s, force, now)
    && 0 < cfg.maxDiskBytes < |Text(s.file)| + |TextOf(s.memory[..FlushCount(cfg, s, force)])|
  }

  /** Without faults a flush moves the oldest messages from memory to disk; an overflow drops from the front
      of the disk, and nothing else does. */
  lemma FlushMoves(cfg: Config, s: State, force: bool, now: int, disk: seq<Message>)
    returns (after: seq<Message>, k: nat)
    requires cfg.enabled && Stores(s, disk)
    ensures var r := Flush(cfg, s, force, Moment(now, NO_FAULTS));
            Stores(r, after) && k <= |disk + s.memory| && after + r.memory == (disk + s.memory)[k..]
    ensures k > 0 <==> Overflows(cfg, s, force, now)
  {
    hide TextOf, Trimmed, ValidTopic;
    var r := Flush(cfg, s, force, Moment(now, NO_FAULTS));
    if s.memory == [] || NotDue(cfg, s, force, now) {
      after, k := disk, 0;
      assert (disk + s.memory)[0..] == disk + s.memory;
    } else {
      var count := FlushCount(cfg, s, force);
      var moved := s.memory[..count];
      TextOfTwo(disk, moved);
      k := TrimmedMessages(disk + moved, cfg.maxDiskBytes);
      after := (disk + moved)[k..];
      assert disk + s.memory == disk + moved + s.memory[count..];
      assert |TextOf(disk + moved)| == |Text(s.file)| + |TextOf(moved)|;
      assert Reaching(TextOf(moved), NO_FAULTS) == TextOf(moved);
      assert r.memory == s.memory[count..];
      assert Text(r.file) == TextOf(after);
    }
  }

  /** The forced or unforced flush that an enqueue comes to when there are no faults. */
  lemma EnqueueIsOneFlush(cfg: Config, s: State, msg: Message, now: int)
    requires cfg.enabled
    ensures var more := s.(memory := s.memory + [msg]);
            Enqueued(cfg, s, msg, i => Moment(now, NO_FAULTS))
              == Flush(cfg, more, Crowded(cfg, more), Moment(now, NO_FAULTS))
  {
    hide TextOf, Trimmed, ValidTopic;
    var more := s.(memory := s.memory + [msg]);
    var moments := (i: nat) => Moment(now, NO_FAULTS);
    if Crowded(cfg, more) {
      var flushed := Flush(cfg, more, true, moments(0));
      assert flushed.memory == [];
      assert Relieved(cfg, more, moments, 0) == (flushed, 1);
      assert Flush(cfg, flushed, false, moments(1)) == flushed;
    } else {
      assert Relieved(cfg, more, moments, 0) == (more, 0);
    }
  }

  /** Scanning valid lines sends a run of messages from the front and keeps the rest. */
  ghost predicate ScansAs(cfg: Config, scan: Scan, disk: seq<Message>, n: nat) {
    && n <= |disk| && scan.sent == disk[..n] && scan.kept == LinesOfMessages(disk[n..]) && scan.skipped == 0
    && (scan.failed ==> n < |disk|) && (n < |disk| ==> scan.failed || n == AtLeastOne(cfg.replayBatch))
    && n <= AtLeastOne(cfg.replayBatch)
  }

  lemma ScanStep(cfg: Config, broker: nat -> bool, scan: Scan, front: seq<Message>, n: nat, m: Message) returns (k: nat)
    requires ScansAs(cfg, scan, front, n) && ValidTopic(m.topic)
    ensures ScansAs(cfg, ScanLine(cfg, broker, scan, LineOf(m)), front + [m], k)
  {
    hide LineOf, MessageOf, ValidTopic, AtLeastOne;
    MessageOfLine(m);
    var disk := front + [m];
    if n < |front| || n == AtLeastOne(cfg.replayBatch) || !broker(n) {
      k := n;
      assert disk[..n] == front[..n] && disk[n..] == front[n..] + [m];
      assert LinesOfMessages(disk[n..]) == LinesOfMessages(front[n..]) + [LineOf(m)];
    } else {
      k := n + 1;
      assert disk[..k] == front[..n] + [m] && disk[k..] == [];
    }
  }

  lemma {:induction false} ScannedMessages(cfg: Config, broker: nat -> bool, disk: seq<Message>) returns (n: nat)
    requires ValidTopics(disk)
    ensures ScansAs(cfg, Scanned(cfg, broker, LinesOfMessages(disk)), disk, n)
  {
    hide LineOf, MessageOf, ValidTopic, ScanLine, ScansAs;
    if disk == [] {
      n := 0;
      NothingScanned(cfg);
    } else {
      var last := |disk| - 1;
      var front := disk[..last];
      var k := ScannedMessages(cfg, broker, front);
      assert LinesOfMessages(disk)[..last] == LinesOfMessages(front);
      n := ScanStep(cfg, broker, Scanned(cfg, broker, LinesOfMessages(front)), front, k, disk[last]);
      assert front + [disk[last]] == disk;
    }
  }

  lemma NothingScanned(cfg: Config)
    ensures ScansAs(cfg, Scan([], [], false, 0), [], 0)
  {
  }

  /** Without faults a replay sends from the front and keeps the rest, in order. */
  lemma ReplayMoves(cfg: Config, s: State, broker: nat -> bool, disk: seq<Message>) returns (after: seq<Message>)
    requires cfg.enabled && Stores(s, disk)
    ensures var r := Replayed(cfg, s, broker, NO_FAULTS);
            Stores(r.state, after) && r.sent + (after + r.state.memory) == disk + s.memory
  {
    hide TextOf, ValidTopics, Unlines, Scanned, ReplayMemory, LinesOf;
    var r := Replayed(cfg, s, broker, NO_FAULTS);
    if s.file.None? {
      NoText(disk);
      after := [];
      MemoryMoves(cfg, s, broker, []);
    } else {
      MessagesRead(disk);
      var n := ScannedMessages(cfg, broker, disk);
      var scan := Scanned(cfg, broker, LinesOfMessages(disk));
      after := disk[n..];
      FilePart(s, disk, scan, n);
      ValidParts(disk, n);
      var rewritten := s.(file := Rewritten(s.file, scan, NO_FAULTS));
      MemoryMoves(cfg, rewritten, broker, scan.sent);
      if scan.kept == [] {
        assert after == [] && scan.sent == disk;
      } else {
        assert scan.sent + after == disk;
      }
    }
  }

  /** The file after the pass holds the messages that were not sent. */
  lemma FilePart(s: State, disk: seq<Message>, scan: Scan, n: nat)
    requires s.file.Some? && Text(s.file) == TextOf(disk) && n <= |disk|
    requires scan.sent == disk[..n] && scan.kept == LinesOfMessages(disk[n..]) && scan.skipped == 0
    ensures Text(Rewritten(s.file, scan, NO_FAULTS)) == TextOf(disk[n..])
  {
    hide TextOf, Unlines;
    TextUnfolds(disk[n..]);
    NothingText(disk[n..]);
    if n == 0 {
      assert disk[n..] == disk;
    }
  }

  lemma ValidParts(messages: seq<Message>, n: nat)
    requires n <= |messages| && ValidTopics(messages)
    ensures ValidTopics(messages[n..])
  {
  }

  /** Sending from memory keeps what was sent and what remains in order. */
  lemma MemoryMoves(cfg: Config, s: State, broker: nat -> bool, sent: seq<Message>)
    ensures var r := ReplayMemory(cfg, s, broker, sent);
            r.sent + r.state.memory == sent + s.memory && r.state.file == s.file
            && (ValidTopics(s.memory) ==> ValidTopics(r.state.memory))
  {
    hide SendRun, ValidTopic;
  }

  lemma TextUnfolds(messages: seq<Message>)
    ensures TextOf(messages) == Unlines(LinesOfMessages(messages))
  {
  }

  lemma NothingText(messages: seq<Message>)
    ensures messages == [] ==> TextOf(messages) == ""
  {
  }

  lemma NoText(messages: seq<Message>)
    requires TextOf(messages) == ""
    ensures messages == []
  {
  }

  lemma MessagesRead(messages: seq<Message>)
    ensures LinesOf(TextOf(messages)) == LinesOfMessages(messages)
  {
    hide LineOf, Unlines, LinesOf;
    MessagesUnbroken(messages);
    LinesOfUnlines(LinesOfMessages(messages));
  }

  // ----- runs -----

  datatype Op = Enqueue(msg: Message, now: int) | FlushOp(force: bool, now: int) | ReplayOp(broker: nat -> bool)

  /** A run's state with the messages enqueued and sent so far, and whether any flush overflowed. */
  datatype History = History(state: State, enqueued: seq<Message>, sent: seq<Message>, overflowed: bool)

  ghost function Step(cfg: Config, h: History, op: Op): History {
    match op
    case Enqueue(msg, now) =>
      var more := h.state.(memory := h.state.memory + [msg]);
      History(Enqueued(cfg, h.state, msg, i => Moment(now, NO_FAULTS)), h.enqueued + [msg], h.sent,
              h.overflowed || Overflows(cfg, more, Crowded(cfg, more), now))
    case FlushOp(force, now) =>
      h.(state := Flush(cfg, h.state, force, Moment(now, NO_FAULTS)),
         overflowed := h.overflowed || Overflows(cfg, h.state, force, now))
    case ReplayOp(broker) =>
      var r := Replayed(cfg, h.state, broker, NO_FAULTS);
      h.(state := r.state, sent := h.sent + r.sent)
  }

  /** A run that starts with `initial`, which holds the messages `already` from earlier. */
  ghost function Run(cfg: Config, initial: State, already: seq<Message>, ops: seq<Op>): History {
    if ops == [] then History(initial, already, [], false)
    else Step(cfg, Run(cfg, initial, already, ops[..|ops| - 1]), ops[|ops| - 1])
  }

  /** `part` is `whole` with some elements left out; `at` says where each element stands. */
  ghost predicate Embeds(part: seq<Message>, whole: seq<Message>, at: seq<nat>) {
    && |at| == |part|
    && (forall i, j :: 0 <= i < j < |at| ==> at[i] < at[j])
    && (forall i :: 0 <= i < |at| ==> at[i] < |whole| && part[i] == whole[at[i]])
  }

  lemma {:induction false} IncreasingAtLeast(at: seq<nat>, i: nat)
    requires i < |at| && forall i, j :: 0 <= i < j < |at| ==> at[i] < at[j]
    ensures i <= at[i]
    decreases i
  {
    if i > 0 {
      IncreasingAtLeast(at, i - 1);
    }
  }

  lemma IncreasingAtMost(at: seq<nat>, bound: nat, i: nat)
    requires i < |at| && forall i, j :: 0 <= i < j < |at| ==> at[i] < at[j]
    requires at[|at| - 1] < bound
    ensures at[i] <= bound - (|at| - i)
    decreases |at| - i
  {
    if i < |at| - 1 {
      IncreasingAtMost(at, bound, i + 1);
    }
  }

  lemma EmbedsWhole(part: seq<Message>, whole: seq<Message>, at: seq<nat>)
    requires Embeds(part, whole, at)
    ensures |part| <= |whole|
    ensures |part| == |whole| ==> part == whole
  {
    if part != [] {
      IncreasingAtLeast(at, |at| - 1);
      if |part| == |whole| {
        forall i | 0 <= i < |part|
          ensures part[i] == whole[i]
        {
          IncreasingAtLeast(at, i);
          IncreasingAtMost(at, |whole|, i);
        }
      }
    }
  }

  lemma EmbedsMore(part: seq<Message>, whole: seq<Message>, at: seq<nat>, m: Message)
    requires Embeds(part, whole, at)
    ensures Embeds(part + [m], whole + [m], at + [|whole|])
  {
  }

  /** Leaving out `k` more elements after the first `n`. */
  lemma EmbedsCut(part: seq<Message>, whole: seq<Message>, at: seq<nat>, n: nat, k: nat)
    requires Embeds(part, whole, at) && n + k <= |part|
    ensures Embeds(part[..n] + part[n + k..], whole, at[..n] + at[n + k..])
  {
  }

  /** What was sent, then what is on disk, then what is in memory. */
  ghost function Contents(h: History, disk: seq<Message>): seq<Message> {
    h.sent + (disk + h.state.memory)
  }

  /** The list without the `k` elements behind the first `n`. */
  ghost function Cut(s: seq<Message>, n: nat, k: nat): seq<Message>
    requires n + k <= |s|
  {
    s[..n] + s[n + k..]
  }

  lemma CutBehind(front: seq<Message>, back: seq<Message>, k: nat)
    requires k <= |back|
    ensures Cut(front + back, |front|, k) == front + back[k..]
  {
  }

  lemma EnqueueKeepsOrder(cfg: Config, h: History, msg: Message, now: int, disk: seq<Message>)
    returns (after: seq<Message>, k: nat)
    requires cfg.enabled && Stores(h.state, disk) && ValidTopic(msg.topic)
    ensures var r := Step(cfg, h, Enqueue(msg, now));
            && Stores(r.state, after) && |h.sent| + k <= |Contents(h, disk)| + 1
            && Contents(r, after) == Cut(Contents(h, disk) + [msg], |h.sent|, k)
            && (r.overflowed <==> h.overflowed || k > 0)
  {
    hide Flush, Enqueued, TextOf, ValidTopic, Overflows, Cut;
    var more := h.state.(memory := h.state.memory + [msg]);
    assert Stores(more, disk);
    EnqueueIsOneFlush(cfg, h.state, msg, now);
    after, k := FlushMoves(cfg, more, Crowded(cfg, more), now, disk);
    assert Contents(h, disk) + [msg] == h.sent + (disk + more.memory);
    CutBehind(h.sent, disk + more.memory, k);
  }

  lemma FlushKeepsOrder(cfg: Config, h: History, force: bool, now: int, disk: seq<Message>)
    returns (after: seq<Message>, k: nat)
    requires cfg.enabled && Stores(h.state, disk)
    ensures var r := Step(cfg, h, FlushOp(force, now));
            && Stores(r.state, after) && |h.sent| + k <= |Contents(h, disk)|
            && Contents(r, after) == Cut(Contents(h, disk), |h.sent|, k)
            && (r.overflowed <==> h.overflowed || k > 0)
  {
    hide Flush, TextOf, ValidTopic, Overflows, Cut;
    after, k := FlushMoves(cfg, h.state, force, now, disk);
    CutBehind(h.sent, disk + h.state.memory, k);
  }

  lemma ReplayKeepsOrder(cfg: Config, h: History, broker: nat -> bool, disk: seq<Message>) returns (after: seq<Message>)
    requires cfg.enabled && Stores(h.state, disk)
    ensures var r := Step(cfg, h, ReplayOp(broker));
            Stores(r.state, after) && Contents(r, after) == Contents(h, disk) && r.overflowed == h.overflowed
  {
    hide Replayed, TextOf, ValidTopic;
    after := ReplayMoves(cfg, h.state, broker, disk);
    var r := Replayed(cfg, h.state, broker, NO_FAULTS);
    Associate(h.sent, r.sent, after + r.state.memory);
  }

  /** The contents embed into what was enqueued, and are all of it unless a flush overflowed. */
  ghost predicate Fifo(h: History, disk: seq<Message>, at: seq<nat>) {
    && Embeds(Contents(h, disk), h.enqueued, at)
    && (Contents(h, disk) == h.enqueued <==> !h.overflowed)
  }

  lemma {:induction false} FifoAppend(part: seq<Message>, whole: seq<Message>, at: seq<nat>, more: seq<Message>)
    returns (spots: seq<nat>)
    requires Embeds(part, whole, at) && |more| <= 1
    ensures Embeds(part + more, whole + more, spots)
    ensures part + more == whole + more <==> part == whole
  {
    hide Embeds;
    if more != [] {
      assert more == [more[0]];
      EmbedsMore(part, whole, at, more[0]);
      spots := at + [|whole|];
    } else {
      assert part + more == part && whole + more == whole;
      spots := at;
    }
    AppendedEqual(part, whole, more);
  }

  lemma FifoCut(part: seq<Message>, whole: seq<Message>, at: seq<nat>, n: nat, k: nat) returns (spots: seq<nat>)
    requires Embeds(part, whole, at) && n + k <= |part|
    ensures Embeds(Cut(part, n, k), whole, spots)
    ensures Cut(part, n, k) == whole <==> part == whole && k == 0
  {
    hide Embeds;
    EmbedsLength(part, whole, at);
    EmbedsWhole(part, whole, at);
    EmbedsCut(part, whole, at, n, k);
    spots := at[..n] + at[n + k..];
    if k == 0 {
      assert Cut(part, n, 0) == part;
    }
  }

  /** A step that appends the same to both and then cuts `k` out keeps that. */
  lemma FifoStep(h: History, disk: seq<Message>, at: seq<nat>, more: seq<Message>, k: nat, r: History,
                 after: seq<Message>)
    returns (spots: seq<nat>)
    requires Fifo(h, disk, at) && |more| <= 1 && |h.sent| + k <= |Contents(h, disk) + more|
    requires Contents(r, after) == Cut(Contents(h, disk) + more, |h.sent|, k) && r.enqueued == h.enqueued + more
    requires r.overflowed <==> h.overflowed || k > 0
    ensures Fifo(r, after, spots)
  {
    hide Contents, Embeds, Cut;
    spots := FifoAppend(Contents(h, disk), h.enqueued, at, more);
    spots := FifoCut(Contents(h, disk) + more, r.enqueued, spots, |h.sent|, k);
  }

  lemma AppendedEqual(a: seq<Message>, b: seq<Message>, c: seq<Message>)
    ensures a + c == b + c <==> a == b
  {
    if a + c == b + c {
      assert |a| == |b|;
      assert a == (a + c)[..|a|] && b == (b + c)[..|b|];
    }
  }

  lemma EmbedsLength(part: seq<Message>, whole: seq<Message>, at: seq<nat>)
    requires Embeds(part, whole, at)
    ensures |at| == |part|
  {
  }

  /** Every list embeds into itself. */
  lemma FifoStart(initial: State, disk: seq<Message>)
    ensures Fifo(History(initial, disk + initial.memory, [], false), disk, seq(|disk + initial.memory|, i => i))
  {
    assert [] + (disk + initial.memory) == disk + initial.memory;
  }

  /** First in, first out, over every run, starting with whatever the file and the memory hold: what was sent,
      then what is on disk, then what is in memory are the messages that were there and those enqueued, in
      their order, all of them exactly when no flush overflowed the file. */
  lemma {:induction false} RunIsFifo(cfg: Config, initial: State, there: seq<Message>, ops: seq<Op>)
    returns (disk: seq<Message>, at: seq<nat>)
    requires cfg.enabled && Stores(initial, there)
    requires forall i :: 0 <= i < |ops| && ops[i].Enqueue? ==> ValidTopic(ops[i].msg.topic)
    ensures var h := Run(cfg, initial, there + initial.memory, ops); Stores(h.state, disk) && Fifo(h, disk, at)
  {
    hide Step, Stores, Fifo, Contents, ValidTopic;
    var already := there + initial.memory;
    if ops == [] {
      disk, at := there, seq(|already|, i => i);
      FifoStart(initial, there);
    } else {
      var last := |ops| - 1;
      var h, op, r := Run(cfg, initial, already, ops[..last]), ops[last], Run(cfg, initial, already, ops);
      var before, spots := RunIsFifo(cfg, initial, there, ops[..last]);
      var k := 0;
      match op
      case Enqueue(msg, now) =>
        disk, k := EnqueueKeepsOrder(cfg, h, msg, now, before);
        StepEnqueues(cfg, h, op);
        at := FifoStep(h, before, spots, [msg], k, r, disk);
      case FlushOp(force, now) =>
        disk, k := FlushKeepsOrder(cfg, h, force, now, before);
        StepEnqueues(cfg, h, op);
        at := FifoStep(h, before, spots, [], k, r, disk);
      case ReplayOp(broker) =>
        disk := ReplayKeepsOrder(cfg, h, broker, before);
        StepEnqueues(cfg, h, op);
        at := FifoStep(h, before, spots, [], 0, r, disk);
    }
  }

  lemma StepEnqueues(cfg: Config, h: History, op: Op)
    ensures Step(cfg, h, op).enqueued == h.enqueued + if op.Enqueue? then [op.msg] else []
    ensures forall disk :: |h.sent| <= |Contents(h, disk)| && Contents(h, disk) + [] == Contents(h, disk)
  {
    hide Enqueued, Flush, Replayed, Overflows;
  }

  // ----- progress -----

  /** The messages of a pass were accepted, and a failure is a refusal. */
  lemma {:induction false} ScanAsks(cfg: Config, broker: nat -> bool, lines: seq<string>)
    ensures var scan := Scanned(cfg, broker, lines);
            && (forall i :: 0 <= i < |scan.sent| ==> broker(i)) && (scan.failed ==> !broker(|scan.sent|))
  {
    hide MessageOf;
    if lines != [] {
      ScanAsks(cfg, broker, lines[..|lines| - 1]);
    }
  }

  /** Without faults a replay goes on until the broker refuses a message, nothing is left, or a batch is sent. So with a
      broker that accepts and anything waiting it sends at least one. */
  lemma ReplayProgresses(cfg: Config, s: State, broker: nat -> bool, disk: seq<Message>)
    requires cfg.enabled && Stores(s, disk)
    ensures var n := |Replayed(cfg, s, broker, NO_FAULTS).sent|;
            && n <= |disk| + |s.memory| && (forall i :: 0 <= i < n ==> broker(i))
            && (n < |disk| + |s.memory| ==> !broker(n) || n >= AtLeastOne(cfg.replayBatch))
            && n <= 2 * AtLeastOne(cfg.replayBatch)
            && (disk + s.memory != [] && broker(0) ==> n > 0)
  {
    hide TextOf, ValidTopics, Unlines, Scanned, LinesOf, Rewritten;
    if s.file.None? {
      NoText(disk);
    } else {
      MessagesRead(disk);
      var _ := ScannedMessages(cfg, broker, disk);
      ScanAsks(cfg, broker, LinesOfMessages(disk));
    }
  }

  /** A flush that is enabled, due and not hindered takes the whole memory if forced and a batch otherwise; one that is
      not due changes nothing. */
  lemma FlushProgresses(cfg: Config, s: State, force: bool, m: Moment)
    requires cfg.enabled && !m.faults.lockFails && !m.faults.openFails
    ensures var r := Flush(cfg, s, force, m);
            var waited := m.now - s.lastFlushMs >= cfg.flushIntervalMs;
            var due := force || |s.memory| >= AtLeastOne(cfg.flushBatch) || waited;
            && (!due ==> r == s)
            && (due && force ==> r.memory == [])
            && (due && !force && |s.memory| <= AtLeastOne(cfg.flushBatch) ==> r.memory == [])
            && (due && !force && |s.memory| > AtLeastOne(cfg.flushBatch) ==>
                  r.memory == s.memory[AtLeastOne(cfg.flushBatch)..])
            && (due && s.memory != [] ==> r.lastFlushMs == m.now)
  {
    hide TextOf, Reaching, TrimmedFile;
  }
}
