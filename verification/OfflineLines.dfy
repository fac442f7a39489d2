/** The text of the offline queue file: one line per message, topic and payload in hexadecimal. */
module OfflineLines {
  import opened Results
  import opened Sequences
  import opened Bytes
  import opened Hexadecimal

  datatype Message = Message(topic: bytes, payload: bytes)

  // ----- lines -----

  /** The lines that successive `getline` calls return. */
  function LinesOf(text: string): seq<string> {
    if text == "" then []
    else
      var n := Find(text, '\n', 0);
      if n == |text| then [text] else [text[..n]] + LinesOf(text[n + 1..])
  }

  /** Every line followed by a newline. */
  function Unlines(lines: seq<string>): string {
    if lines == [] then "" else lines[0] + "\n" + Unlines(lines[1..])
  }

  lemma UnlinesCons(line: string, lines: seq<string>)
    ensures Unlines([line] + lines) == line + "\n" + Unlines(lines)
  {
    assert ([line] + lines)[1..] == lines;
  }

  lemma {:induction false} UnlinesTwo(a: seq<string>, b: seq<string>)
    ensures Unlines(a + b) == Unlines(a) + Unlines(b)
  {
    hide Unlines;
    if a == [] {
      assert a + b == b;
      NoLines();
    } else {
      var line, rest := a[0], a[1..];
      assert a == [line] + rest && a + b == [line] + (rest + b);
      UnlinesCons(line, rest);
      UnlinesCons(line, rest + b);
      UnlinesTwo(rest, b);
      Associate(line + "\n", Unlines(rest), Unlines(b));
    }
  }

  lemma NoLines()
    ensures Unlines([]) == ""
  {
  }

  lemma UnlinesStep(lines: seq<string>, i: nat)
    requires i < |lines|
    ensures Unlines(lines[..i + 1]) == Unlines(lines[..i]) + lines[i] + "\n"
  {
    assert lines[..i + 1] == lines[..i] + [lines[i]];
    UnlinesTwo(lines[..i], [lines[i]]);
    assert [lines[i]][1..] == [];
  }

  predicate Unbroken(lines: seq<string>) {
    forall i :: 0 <= i < |lines| ==> '\n' !in lines[i]
  }

  /** Reading lines back. */
  lemma {:induction false} LinesOfUnlines(lines: seq<string>)
    requires Unbroken(lines)
    ensures LinesOf(Unlines(lines)) == lines
  {
    if lines != [] {
      var text, rest := Unlines(lines), Unlines(lines[1..]);
      LinesOfUnlines(lines[1..]);
      assert text == lines[0] + ['\n'] + rest;
      FindAfter(lines[0], '\n', rest, 0);
      assert text[..|lines[0]|] == lines[0] && text[|lines[0]| + 1..] == rest;
    }
  }

  // ----- messages as lines -----

  function LineOf(m: Message): string {
    Hex(m.topic) + "\t" + Hex(m.payload)
  }

  function LinesOfMessages(messages: seq<Message>): (r: seq<string>)
    ensures |r| == |messages|
  {
    seq(|messages|, i requires 0 <= i < |messages| => LineOf(messages[i]))
  }

  function TextOf(messages: seq<Message>): string {
    Unlines(LinesOfMessages(messages))
  }

  predicate ValidTopic(topic: bytes) {
    topic != [] && forall i :: 0 <= i < |topic| ==> topic[i] >= 0x20 && topic[i] != 0x7F
  }

  /** The message of a line; `Failed` for the lines the replay skips. */
  function MessageOf(line: string): Result<Message> {
    var tab := Find(line, '\t', 0);
    if tab == |line| then Failed
    else
      var topic, payload := Unhex(line[..tab]), Unhex(line[tab + 1..]);
      if topic.Failed? || payload.Failed? || !ValidTopic(topic.value) then Failed
      else Ok(Message(topic.value, payload.value))
  }

  /** A message is read back from its line exactly when its topic is valid. */
  lemma MessageOfLine(m: Message)
    ensures '\n' !in LineOf(m)
    ensures MessageOf(LineOf(m)) == if ValidTopic(m.topic) then Ok(m) else Failed
  {
    hide Hex, Unhex, ValidTopic;
    var line := LineOf(m);
    UnhexHex(m.topic);
    UnhexHex(m.payload);
    FindAfter(Hex(m.topic), '\t', Hex(m.payload), 0);
    assert line == Hex(m.topic) + ['\t'] + Hex(m.payload);
    assert line[..|Hex(m.topic)|] == Hex(m.topic) && line[|Hex(m.topic)| + 1..] == Hex(m.payload);
  }

  lemma MessagesUnbroken(messages: seq<Message>)
    ensures Unbroken(LinesOfMessages(messages))
  {
    hide LineOf;
    forall i | 0 <= i < |messages|
      ensures '\n' !in LinesOfMessages(messages)[i]
    {
      MessageOfLine(messages[i]);
    }
  }

  lemma TextOfTwo(a: seq<Message>, b: seq<Message>)
    ensures TextOf(a + b) == TextOf(a) + TextOf(b)
  {
    hide LineOf, Unlines;
    assert LinesOfMessages(a + b) == LinesOfMessages(a) + LinesOfMessages(b);
    UnlinesTwo(LinesOfMessages(a), LinesOfMessages(b));
  }

  // ----- trimming -----

  /** What follows the first newline. */
  function AfterLine(text: string): string {
    var n := Find(text, '\n', 0);
    if n == |text| then "" else text[n + 1..]
  }

  /** The text cut to the lines that start inside its last `maxBytes` bytes. */
  function Trimmed(text: string, maxBytes: nat): string {
    if maxBytes == 0 || |text| <= maxBytes then text
    else Unlines(LinesOf(AfterLine(text[|text| - maxBytes..])))
  }

  /** How many lines have begun before or at position `start`. */
  function LinesBegun(lines: seq<string>, start: nat): (k: nat)
    ensures k <= |lines|
  {
    if lines == [] then 0
    else if start <= |lines[0]| then 1
    else 1 + LinesBegun(lines[1..], start - |lines[0]| - 1)
  }

  lemma {:induction false} AfterLineOfUnlines(lines: seq<string>, start: nat)
    requires Unbroken(lines) && start < |Unlines(lines)|
    ensures var k := LinesBegun(lines, start);
            && k > 0
            && AfterLine(Unlines(lines)[start..]) == Unlines(lines[k..])
            && |Unlines(lines[k..])| < |Unlines(lines)| - start <= |Unlines(lines[k - 1..])|
  {
    hide AfterLine, Unlines;
    UnlinesFirst(lines);
    var rest, n := Unlines(lines[1..]), |lines[0]|;
    if start <= n {
      InsideLine(lines[0], rest, start);
      assert lines[0..] == lines;
    } else {
      var k := LinesBegun(lines[1..], start - n - 1);
      AfterLineOfUnlines(lines[1..], start - n - 1);
      BehindLine(lines[0] + ['\n'], rest, start);
      assert lines[1..][k..] == lines[k + 1..] && lines[1..][k - 1..] == lines[k..];
    }
  }

  lemma UnlinesFirst(lines: seq<string>)
    requires Unlines(lines) != ""
    ensures lines != [] && Unlines(lines) == lines[0] + ['\n'] + Unlines(lines[1..])
  {
  }

  lemma InsideLine(line: string, rest: string, start: nat)
    requires start <= |line| && '\n' !in line
    ensures AfterLine((line + ['\n'] + rest)[start..]) == rest
  {
    var front := line[start..];
    assert (line + ['\n'] + rest)[start..] == front + ['\n'] + rest;
    FindAfter(front, '\n', rest, 0);
  }

  lemma BehindLine(line: string, rest: string, start: nat)
    requires |line| <= start <= |line + rest|
    ensures (line + rest)[start..] == rest[start - |line|..]
  {
  }

  /** Trimming a file of whole lines keeps the most recent messages: as many as stay below `maxBytes`. */
  lemma TrimmedMessages(messages: seq<Message>, maxBytes: nat) returns (k: nat)
    ensures k <= |messages| && Trimmed(TextOf(messages), maxBytes) == TextOf(messages[k..])
    ensures k > 0 <==> 0 < maxBytes < |TextOf(messages)|
    ensures k > 0 ==> |TextOf(messages[k..])| < maxBytes <= |TextOf(messages[k - 1..])|
  {
    hide LineOf, Unlines, LinesOf, AfterLine, LinesBegun;
    var lines, text := LinesOfMessages(messages), TextOf(messages);
    if maxBytes == 0 || |text| <= maxBytes {
      k := 0;
      assert messages[0..] == messages;
    } else {
      k := LinesBegun(lines, |text| - maxBytes);
      MessagesUnbroken(messages);
      AfterLineOfUnlines(lines, |text| - maxBytes);
      assert LinesOfMessages(messages[k..]) == lines[k..];
      assert LinesOfMessages(messages[k - 1..]) == lines[k - 1..];
      MessagesUnbroken(messages[k..]);
      LinesOfUnlines(lines[k..]);
    }
  }
}
