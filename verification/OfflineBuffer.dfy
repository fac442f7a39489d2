/** The publisher's offline buffer: a queue in memory and a file, changed in place. */
module OfflineBuffer {
  import opened Results
  import opened Integers
  import opened Sequences
  import opened Bytes
  import opened Hexadecimal
  import opened OfflineLines
  import opened OfflineQueue

  /** Every line written back with its newline. */
  method WriteLines(lines: seq<string>) returns (out: string)
    ensures out == Unlines(lines)
  {
    out := "";
    for i := 0 to |lines|
      invariant out == Unlines(lines[..i])
    {
      UnlinesStep(lines, i);
      out := out + lines[i] + "\n";
    }
    assert lines[..|lines|] == lines;
  }

  /** A file of `text` cut to its most recent lines. */
  method TrimFileToMaxBytes(text: string, maxBytes: nat, fails: bool) returns (trimmed: string)
    ensures trimmed == if fails then text else Trimmed(text, maxBytes)
  {
    hide LinesOf, Unlines, Find;
    if maxBytes == 0 {
      return text;
    }
    if |text| <= maxBytes || fails {
      return text;
    }
    var rest := text[|text| - maxBytes..];
    var newline := Find(rest, '\n', 0);
    rest := if newline == |rest| then "" else rest[newline + 1..];
    trimmed := WriteLines(LinesOf(rest));
  }

  class MqttOfflineBuffer {
    const config: Config
    var offlineMessages: seq<Message>
    var file: Option<string>
    var lastOfflineFlushMs: int

    ghost function Queue(): State
      reads this
    {
      State(offlineMessages, file, lastOfflineFlushMs)
    }

    constructor (config: Config, file: Option<string>)
      ensures Queue() == State([], file, 0) && this.config == config
    {
      this.config := config;
      this.file := file;
      offlineMessages := [];
      lastOfflineFlushMs := 0;
    }

    /** The lines of the first `count` messages. */
    method Lines(count: nat) returns (text: string)
      requires count <= |offlineMessages|
      ensures text == TextOf(offlineMessages[..count])
    {
      hide Unlines, Hex;
      text := "";
      NothingText([]);
      ghost var lines := LinesOfMessages(offlineMessages[..count]);
      assert Unlines(lines[..0]) == "" by {
        assert lines[..0] == LinesOfMessages([]);
      }
      for i := 0 to count
        invariant text == Unlines(lines[..i])
      {
        var topic := HexEncode(offlineMessages[i].topic);
        var payload := HexEncode(offlineMessages[i].payload);
        UnlinesStep(lines, i);
        assert lines[i] == topic + "\t" + payload;
        text := text + (topic + "\t" + payload) + "\n";
      }
      assert lines[..count] == lines;
    }

    method FlushOfflineBuffer(force: bool, moment: Moment)
      modifies this
      ensures Queue() == Flush(config, old(Queue()), force, moment)
    {
      hide TextOf, Trimmed;
      if !config.enabled || offlineMessages == [] {
        return;
      }
      var flushBatch := AtLeastOne(config.flushBatch);
      if !force && |offlineMessages| < flushBatch && moment.now - lastOfflineFlushMs < config.flushIntervalMs {
        return;
      }
      if moment.faults.lockFails || moment.faults.openFails {
        return;
      }
      var count := if force then |offlineMessages| else Min(flushBatch, |offlineMessages|);
      var text := Lines(count);
      text := Text(file) + Reaching(text, moment.faults);
      offlineMessages := offlineMessages[count..];
      lastOfflineFlushMs := moment.now;
      if config.maxDiskBytes > 0 {
        text := TrimFileToMaxBytes(text, config.maxDiskBytes, moment.faults.trimFails);
      } else {
        NoTrim(text);
      }
      file := Some(text);
    }

    /** `moments(i)` is what the `i`-th flush of this call finds. */
    method EnqueueOffline(topic: bytes, payload: bytes, moments: nat -> Moment)
      modifies this
      ensures Queue() == Enqueued(config, old(Queue()), Message(topic, payload), moments)
      ensures config.enabled ==> |offlineMessages| <= config.maxMemory || |offlineMessages| <= config.flushBatch
    {
      hide Flush;
      if !config.enabled {
        return;
      }
      EnqueuedBounded(config, Queue(), Message(topic, payload), moments);
      offlineMessages := offlineMessages + [Message(topic, payload)];
      ghost var start := Queue();
      var i := 0;
      var relieved := false;
      while !relieved && |offlineMessages| > config.maxMemory && |offlineMessages| > config.flushBatch
        invariant if relieved then Relieved(config, start, moments, 0) == (Queue(), i)
                  else Relieved(config, start, moments, 0) == Relieved(config, Queue(), moments, i)
        decreases !relieved, |offlineMessages|
      {
        FlushOfflineBuffer(true, moments(i));
        i := i + 1;
        if |offlineMessages| <= config.maxMemory {
          relieved := true;
        } else {
          offlineMessages := offlineMessages[1..];
        }
      }
      FlushOfflineBuffer(false, moments(i));
    }

    /** The pass over the file's lines. */
    method ReplayLines(lines: seq<string>, broker: nat -> bool) returns (scan: Scan)
      ensures scan == Scanned(config, broker, lines)
    {
      hide MessageOf;
      var replayBatch := AtLeastOne(config.replayBatch);
      scan := Scan([], [], false, 0);
      for i := 0 to |lines|
        invariant scan == Scanned(config, broker, lines[..i])
      {
        var line := lines[i];
        assert lines[..i + 1][..i] == lines[..i];
        if |scan.sent| >= replayBatch || scan.failed {
          scan := scan.(kept := scan.kept + [line]);
        } else {
          var message := ReadLine(line);
          if message.Failed? {
            scan := scan.(skipped := scan.skipped + 1);
          } else if broker(|scan.sent|) {
            scan := scan.(sent := scan.sent + [message.value]);
          } else {
            scan := scan.(kept := scan.kept + [line], failed := true);
          }
        }
      }
      assert lines[..|lines|] == lines;
    }

    method ReadLine(line: string) returns (r: Result<Message>)
      ensures r == MessageOf(line)
    {
      hide Unhex, Find, ValidTopic;
      var tab := Find(line, '\t', 0);
      if tab == |line| {
        return Failed;
      }
      var topic := HexDecode(line[..tab]);
      var payload := HexDecode(line[tab + 1..]);
      if topic.Failed? || payload.Failed? || !ValidTopic(topic.value) {
        return Failed;
      }
      r := Ok(Message(topic.value, payload.value));
    }

    method ReplayOfflineBuffer(broker: nat -> bool, faults: Faults) returns (sent: seq<Message>)
      modifies this
      ensures Replay(Queue(), sent) == Replayed(config, old(Queue()), broker, faults)
    {
      hide Scanned, LinesOf, Unlines, SendRun;
      sent := [];
      if !config.enabled || faults.lockFails {
        return;
      }
      if file.Some? {
        if faults.openFails {
          return;
        }
        var scan := ReplayLines(LinesOf(file.value), broker);
        sent := scan.sent;
        if faults.writeStops.Some? {
          return;
        }
        if |scan.sent| > 0 || scan.skipped > 0 {
          if scan.kept != [] {
            if faults.replaceFails {
              return;
            }
            var remaining := WriteLines(scan.kept);
            file := Some(remaining);
          } else if !faults.replaceFails {
            file := None;
          }
        }
        if scan.failed || scan.kept != [] {
          return;
        }
      }
      var count := SendMemory(broker, |sent|);
      sent := sent + offlineMessages[..count];
      offlineMessages := offlineMessages[count..];
    }

    /** How many messages from memory the broker takes. */
    method SendMemory(broker: nat -> bool, start: nat) returns (sentMemory: nat)
      ensures sentMemory == SendRun(Min(|offlineMessages|, AtLeastOne(config.replayBatch)), broker, start)
    {
      var replayBatch := AtLeastOne(config.replayBatch);
      ghost var limit := Min(|offlineMessages|, replayBatch);
      sentMemory := 0;
      while sentMemory < |offlineMessages| && sentMemory < replayBatch
        invariant sentMemory <= limit
        invariant SendRun(limit, broker, start) == sentMemory + SendRun(limit - sentMemory, broker, start + sentMemory)
      {
        if !broker(start + sentMemory) {
          break;
        }
        sentMemory := sentMemory + 1;
      }
    }
  }

  lemma NoTrim(text: string)
    ensures Trimmed(text, 0) == text
  {
  }
}
