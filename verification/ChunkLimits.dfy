/** When the text of a chunk exceeds the payload limit. The running count takes one digit for the chunk's index
    and one for the number of chunks; a message of ten chunks or more needs more. */
module ChunkLimits {
  import opened Decimal
  import opened Sequences
  import opened ChunkJson
  import opened ChunkPacking
  import opened ChunkEncoder

  function ExtraDigits(n: nat): nat {
    |PrintNat(n)| - 1
  }

  /** The text that is sent for chunk `i`. */
  function Payload(h: Header, limit: nat, values: seq<Item>, i: nat): string
    requires i < |Chunks(h, limit, values)|
  {
    Serialised(h, i + 1, |Chunks(h, limit, values)|, Chunks(h, limit, values)[i])
  }

  /** A payload exceeds the limit exactly when its counted size leaves no room for the extra digits. */
  lemma ExceedsExactly(h: Header, limit: nat, values: seq<Item>, i: nat)
    requires i < |Chunks(h, limit, values)|
    ensures |Payload(h, limit, values, i)| > limit
       <==> Size(h, Chunks(h, limit, values)[i]) + ExtraDigits(i + 1) + ExtraDigits(|Chunks(h, limit, values)|) > limit
  {
    hide Serialised, Chunks, Size;
    SerialisedLength(h, i + 1, |Chunks(h, limit, values)|, Chunks(h, limit, values)[i]);
  }

  predicate Several(chunk: Chunk) {
    |EntriesOfChunk(chunk)| > 1
  }

  /** A chunk of several values whose text exceeds the limit. */
  predicate Overflows(h: Header, limit: nat, values: seq<Item>, i: nat)
    requires i < |Chunks(h, limit, values)|
  {
    Several(Chunks(h, limit, values)[i]) && |Payload(h, limit, values, i)| > limit
  }

  ghost predicate SomeOverflows(h: Header, limit: nat, values: seq<Item>) {
    exists i :: 0 <= i < |Chunks(h, limit, values)| && Overflows(h, limit, values, i)
  }

  // ----- up to ten values -----

  lemma OneDigit(n: nat)
    requires n < 10
    ensures ExtraDigits(n) == 0
  {
  }

  /** A chunk of several values is within the counted limit. */
  lemma SeveralCounted(h: Header, limit: nat, values: seq<Item>, i: nat)
    requires i < |Chunks(h, limit, values)| && Several(Chunks(h, limit, values)[i])
    ensures WellPacked(h, limit, Chunks(h, limit, values)[i]) && Size(h, Chunks(h, limit, values)[i]) <= limit
  {
    hide Chunks, Size, Grouped;
    ChunksWellPacked(h, limit, values);
    var chunk := Chunks(h, limit, values)[i];
    if Grouped(values) == [] {
      NoEntries();
    } else {
      assert WellPacked(h, limit, chunk);
      if |chunk| == 1 {
        OneMeterEntries(chunk);
      }
    }
  }

  lemma OneMeterEntries(chunk: Chunk)
    requires |chunk| == 1
    ensures |EntriesOfChunk(chunk)| == |chunk[0].values|
  {
    assert chunk[..0] == [];
    assert EntriesOfChunk([]) == [];
  }

  /** With fewer than ten chunks every payload of several values fits. */
  lemma FewChunksFit(h: Header, limit: nat, values: seq<Item>)
    requires |Chunks(h, limit, values)| < 10
    ensures !SomeOverflows(h, limit, values)
  {
    hide Chunks, Payload, Size, ExtraDigits, Several;
    var n := |Chunks(h, limit, values)|;
    forall i | 0 <= i < n && Several(Chunks(h, limit, values)[i])
      ensures !Overflows(h, limit, values, i)
    {
      SeveralCounted(h, limit, values, i);
      ExceedsExactly(h, limit, values, i);
      OneDigit(i + 1);
      OneDigit(n);
    }
  }

  /** Every chunk holds a value, and one of several values holds two. */
  lemma {:induction false} ChunksCounted(h: Header, limit: nat, chunks: seq<Chunk>)
    requires forall i :: 0 <= i < |chunks| ==> WellPacked(h, limit, chunks[i])
    ensures |EntriesOf(chunks)| >= |chunks|
    ensures (exists i :: 0 <= i < |chunks| && Several(chunks[i])) ==> |EntriesOf(chunks)| > |chunks|
  {
    hide WellPacked, EntriesOfChunk;
    if chunks != [] {
      var n := |chunks| - 1;
      ChunksCounted(h, limit, chunks[..n]);
      ChunkCounted(h, limit, chunks[n]);
      if i :| 0 <= i < |chunks| && Several(chunks[i]) {
        if i < n {
          assert chunks[..n][i] == chunks[i];
        }
      }
    }
  }

  lemma ChunkCounted(h: Header, limit: nat, chunk: Chunk)
    requires WellPacked(h, limit, chunk)
    ensures |EntriesOfChunk(chunk)| >= 1
  {
    hide Size;
    MetersCounted(chunk);
  }

  lemma {:induction false} MetersCounted(chunk: Chunk)
    requires NoEmptyMeter(chunk)
    ensures |EntriesOfChunk(chunk)| >= |chunk|
  {
    if chunk != [] {
      MetersCounted(chunk[..|chunk| - 1]);
    }
  }

  /** Up to ten values with a meter code never overflow a chunk of several values. */
  lemma TenValuesFit(h: Header, limit: nat, values: seq<Item>)
    requires Coded(values) <= 10
    ensures !SomeOverflows(h, limit, values)
  {
    GroupedCount(values);
    hide Coded, Chunks, Grouped, EntriesOf, Payload, Several, WellPacked;
    if Grouped(values) != [] {
      ChunksWellPacked(h, limit, values);
      ChunksConserve(h, limit, values);
      ChunksCounted(h, limit, Chunks(h, limit, values));
    } else {
      ChunksWellPacked(h, limit, values);
    }
    if |Chunks(h, limit, values)| < 10 {
      FewChunksFit(h, limit, values);
    }
  }

  // ----- rendered values -----

  ghost predicate IsPointJson(format: Format, text: string) {
    exists p: PointValue :: p.value != "" && PointJson(format, p) == text
  }

  /** The texts of the values are those that the code renders. */
  ghost predicate Rendered(format: Format, values: seq<Item>) {
    forall i :: 0 <= i < |values| ==> IsPointJson(format, values[i].json)
  }

  /** A value with zeros for its numbers. */
  function Text(format: Format, index: nat, pointCode: string): string {
    PointJson(format, PointValue(index, pointCode, "0", 0, 0, 0, true))
  }

  lemma TextIsRendered(format: Format, index: nat, pointCode: string)
    ensures IsPointJson(format, Text(format, index, pointCode))
  {
    hide PointJson;
    var p := PointValue(index, pointCode, "0", 0, 0, 0, true);
    assert p.value != "";
  }

  /** The length of the shortest text. */
  function Shortest(format: Format): nat {
    |Text(format, 1, "")|
  }

  lemma {:induction false} ZerosEscaped(k: nat)
    ensures Escaped(Repeat('0', k)) == Repeat('0', k)
  {
    if k > 0 {
      assert Repeat('0', k)[1..] == Repeat('0', k - 1);
      ZerosEscaped(k - 1);
      assert Repeat('0', k) == ['0'] + Repeat('0', k - 1);
    }
  }

  /** A code of `k` zeros makes the text `k` longer. */
  lemma TextLength(format: Format, index: nat, k: nat)
    ensures |Text(format, index, Repeat('0', k))| == Shortest(format) + |PrintNat(index)| - 1 + k
  {
    hide PointJson, PrintNat, Print;
    PointJsonLength(format, PointValue(index, Repeat('0', k), "0", 0, 0, 0, true));
    PointJsonLength(format, PointValue(1, "", "0", 0, 0, 0, true));
    ZerosEscaped(k);
    OneDigit(1);
  }

  lemma RenderedAtLeast(format: Format, text: string)
    requires IsPointJson(format, text)
    ensures |text| >= Shortest(format)
  {
    hide PointJson, Escaped;
    var p: PointValue :| p.value != "" && PointJson(format, p) == text;
    PointJsonLength(format, p);
    PointJsonLength(format, PointValue(1, "", "0", 0, 0, 0, true));
    NothingEscaped("");
    assert ""[..0] == "";
    OneDigit(1);
    assert |Print(0)| == 1;
  }

  // ----- the smallest chunk of several values -----

  const METER := "m"

  /** The smallest chunk of two rendered values is within the limit. */
  predicate HasRoom(format: Format, h: Header, limit: nat) {
    Size(h, [Meter(METER, [Text(format, 1, ""), Text(format, 2, "")])]) <= limit
  }

  /** The meters have codes and rendered values. */
  ghost predicate Genuine(format: Format, chunk: Chunk) {
    forall i :: 0 <= i < |chunk| ==> GenuineMeter(format, chunk[i])
  }

  ghost predicate GenuineMeter(format: Format, m: Meter) {
    m.code != "" && m.values != [] && forall v :: 0 <= v < |m.values| ==> IsPointJson(format, m.values[v])
  }

  lemma {:induction false} JoinedAtLeast(format: Format, values: seq<string>)
    requires values != [] && forall v :: 0 <= v < |values| ==> IsPointJson(format, values[v])
    ensures |Joined(values)| >= Shortest(format)
    ensures |values| > 1 ==> |Joined(values)| >= 2 * Shortest(format) + 1
  {
    hide IsPointJson, Shortest;
    var n := |values| - 1;
    RenderedAtLeast(format, values[n]);
    if n > 0 {
      JoinedAtLeast(format, values[..n]);
    }
  }

  lemma MeterAtLeast(m: Meter)
    requires m.code != ""
    ensures MeterWrapperBytes(m.code) >= MeterWrapperBytes(METER)
  {
    assert METER[1..] == "";
    assert |Escaped(METER)| == 1;
  }

  lemma {:induction false} SizeAtLeast(format: Format, h: Header, chunk: Chunk)
    requires Genuine(format, chunk) && chunk != []
    ensures Size(h, chunk) >= Size(h, []) + MeterWrapperBytes(METER) + Shortest(format)
    ensures Several(chunk) ==> Size(h, chunk) >= Size(h, []) + MeterWrapperBytes(METER) + 2 * Shortest(format) + 1
  {
    hide Size, MeterWrapperBytes, Joined, Shortest, IsPointJson, EntriesOfChunk;
    var n := |chunk| - 1;
    var front: Chunk := chunk[..n];
    assert chunk == front + [chunk[n]];
    assert GenuineMeter(format, chunk[n]);
    SizeWithMeter(h, front, chunk[n]);
    MeterAtLeast(chunk[n]);
    JoinedAtLeast(format, chunk[n].values);
    if n > 0 {
      SizeAtLeast(format, h, front);
    } else {
      assert front == [];
      OneMeterEntries(chunk);
    }
  }

  lemma SmallestSize(format: Format, h: Header)
    ensures Size(h, [Meter(METER, [Text(format, 1, ""), Text(format, 2, "")])])
         == Size(h, []) + MeterWrapperBytes(METER) + 2 * Shortest(format) + 1
  {
    hide Size, MeterWrapperBytes, Text, Joined;
    var a, b := Text(format, 1, ""), Text(format, 2, "");
    var none: Chunk := [];
    SizeWithMeter(h, none, Meter(METER, [a, b]));
    assert none + [Meter(METER, [a, b])] == [Meter(METER, [a, b])];
    JoinedPush([a], b);
    assert [a] + [b] == [a, b];
    JoinedOne(a);
    assert Repeat('0', 0) == "";
    TextLength(format, 2, 0);
    OneDigit(2);
  }

  lemma JoinedOne(text: string)
    ensures Joined([text]) == text
  {
  }

  lemma SeveralNeedsRoom(format: Format, h: Header, limit: nat, chunk: Chunk)
    requires Genuine(format, chunk) && Several(chunk) && Size(h, chunk) <= limit
    ensures HasRoom(format, h, limit)
  {
    hide Size, MeterWrapperBytes, Genuine, Text, Shortest;
    if chunk == [] {
      NoEntries();
    } else {
      SmallestSize(format, h);
      SizeAtLeast(format, h, chunk);
    }
  }

  // ----- the values of a chunk are values of the message -----

  lemma {:induction false} ChunkHasValue(chunk: Chunk, i: nat, v: nat)
    requires i < |chunk| && v < |chunk[i].values|
    ensures Entry(chunk[i].code, chunk[i].values[v]) in EntriesOfChunk(chunk)
  {
    var n := |chunk| - 1;
    if i < n {
      ChunkHasValue(chunk[..n], i, v);
    } else {
      assert EntriesOfMeter(chunk[n])[v] == Entry(chunk[i].code, chunk[i].values[v]);
    }
  }

  lemma {:induction false} MessageHasEntry(chunks: seq<Chunk>, i: nat, e: Entry)
    requires i < |chunks| && e in EntriesOfChunk(chunks[i])
    ensures e in EntriesOf(chunks)
  {
    hide EntriesOfChunk;
    var n := |chunks| - 1;
    if i < n {
      MessageHasEntry(chunks[..n], i, e);
    }
  }

  lemma {:induction false} EntryOfMeterIsValue(items: seq<Item>, code: string, e: Entry)
    requires e in Of(items, code)
    ensures exists j :: 0 <= j < |items| && EntryOf(items[j]) == e
  {
    var n := |items| - 1;
    if e in Of(items[..n], code) {
      EntryOfMeterIsValue(items[..n], code, e);
      var j :| 0 <= j < n && EntryOf(items[..n][j]) == e;
      assert EntryOf(items[j]) == e;
    } else {
      assert EntryOf(items[n]) == e;
    }
  }

  lemma {:induction false} EntryIsValue(items: seq<Item>, codes: seq<string>, e: Entry)
    requires e in OfAll(items, codes)
    ensures exists j :: 0 <= j < |items| && EntryOf(items[j]) == e
  {
    hide Of, EntryOf;
    var n := |codes| - 1;
    if e in Of(items, codes[n]) {
      EntryOfMeterIsValue(items, codes[n], e);
    } else {
      EntryIsValue(items, codes[..n], e);
    }
  }

  /** Of rendered values every chunk is genuine. */
  lemma ChunksGenuine(format: Format, h: Header, limit: nat, values: seq<Item>, i: nat)
    requires Rendered(format, values) && i < |Chunks(h, limit, values)| && NoEmptyMeter(Chunks(h, limit, values)[i])
    ensures Genuine(format, Chunks(h, limit, values)[i])
  {
    hide Chunks, EntriesOf, EntriesOfChunk, MeterCodes, OfAll, Contiguous, IsPointJson, Of;
    var chunks := Chunks(h, limit, values);
    var chunk: Chunk := chunks[i];
    ChunksConserve(h, limit, values);
    MeterCodesDistinct(values);
    GroupedContiguous(values, MeterCodes(values));
    forall j, v | 0 <= j < |chunk| && 0 <= v < |chunk[j].values|
      ensures chunk[j].code != "" && IsPointJson(format, chunk[j].values[v])
    {
      var e := Entry(chunk[j].code, chunk[j].values[v]);
      ChunkHasValue(chunk, j, v);
      MessageHasEntry(chunks, i, e);
      EntryIsValue(values, MeterCodes(values), e);
    }
    forall j | 0 <= j < |chunk|
      ensures GenuineMeter(format, chunk[j])
    {
      assert chunk[j].values != [];
      assert IsPointJson(format, chunk[j].values[0]) && chunk[j].code != "";
    }
  }

  // ----- more than ten values -----

  /** The value that fills a chunk with another one exactly to the limit. */
  function Filling(format: Format, h: Header, limit: nat): string
    requires HasRoom(format, h, limit)
  {
    var room := limit - Size(h, [Meter(METER, [Text(format, 1, ""), Text(format, 2, "")])]);
    Text(format, 2, Repeat('0', room))
  }

  /** A value that is longer than the limit. */
  function TooLong(format: Format, limit: nat, index: nat): string {
    Text(format, index, Repeat('0', limit + 1))
  }

  /** A full chunk of two values, then values that are longer than the limit. */
  function Awkward(format: Format, h: Header, limit: nat, n: nat): (r: seq<Item>)
    requires HasRoom(format, h, limit) && n >= 2
    ensures |r| == n
  {
    seq(n, i requires 0 <= i < n =>
      Item("", METER, if i == 0 then Text(format, 1, "") else if i == 1 then Filling(format, h, limit)
                      else TooLong(format, limit, i + 1)))
  }

  lemma AwkwardIsRendered(format: Format, h: Header, limit: nat, n: nat)
    requires HasRoom(format, h, limit) && n >= 2
    ensures Rendered(format, Awkward(format, h, limit, n))
  {
    hide Text, IsPointJson, HasRoom, Filling;
    var values := Awkward(format, h, limit, n);
    forall i | 0 <= i < n
      ensures IsPointJson(format, values[i].json)
    {
      TextIsRendered(format, 1, "");
      FillingIsRendered(format, h, limit);
      TextIsRendered(format, i + 1, Repeat('0', limit + 1));
    }
  }

  lemma FillingIsRendered(format: Format, h: Header, limit: nat)
    requires HasRoom(format, h, limit)
    ensures IsPointJson(format, Filling(format, h, limit))
  {
    hide Text, IsPointJson, Size;
    TextIsRendered(format, 2, Repeat('0', limit - Size(h, [Meter(METER, [Text(format, 1, ""), Text(format, 2, "")])])));
  }

  /** None of them names a machine, so that the header's is the given one. */
  lemma {:induction false} NoMachineNamed(values: seq<Item>, fallback: string)
    requires forall i :: 0 <= i < |values| ==> values[i].machineCode == ""
    ensures FirstMachineCode(values, fallback) == fallback
  {
    if values != [] {
      NoMachineNamed(values[1..], fallback);
    }
  }

  function EntryOf(item: Item): Entry {
    Entry(item.meterCode, item.json)
  }

  function EntriesOfItems(items: seq<Item>): (r: seq<Entry>)
    ensures |r| == |items|
  {
    seq(|items|, i requires 0 <= i < |items| => EntryOf(items[i]))
  }

  /** Values of one meter are grouped as they are. */
  lemma {:induction false} OneMeterCode(items: seq<Item>, code: string)
    requires code != "" && items != [] && forall i :: 0 <= i < |items| ==> items[i].meterCode == code
    ensures MeterCodes(items) == [code]
  {
    var n := |items| - 1;
    if n > 0 {
      OneMeterCode(items[..n], code);
    } else {
      assert items[..0] == [];
    }
  }

  lemma {:induction false} OneMeterEntriesInOrder(items: seq<Item>, code: string)
    requires forall i :: 0 <= i < |items| ==> items[i].meterCode == code
    ensures Of(items, code) == EntriesOfItems(items)
  {
    if items != [] {
      var n := |items| - 1;
      OneMeterEntriesInOrder(items[..n], code);
      assert EntriesOfItems(items) == EntriesOfItems(items[..n]) + [Entry(code, items[n].json)];
    }
  }

  lemma OneMeterIsGrouped(items: seq<Item>, code: string)
    requires code != "" && items != [] && forall i :: 0 <= i < |items| ==> items[i].meterCode == code
    ensures Grouped(items) == EntriesOfItems(items)
  {
    hide MeterCodes, Of;
    OneMeterCode(items, code);
    OneMeterEntriesInOrder(items, code);
    assert [code][..0] == [];
    assert OfAll(items, []) == [];
    assert OfAll(items, [code]) == [] + Of(items, code);
  }

  function Full(format: Format, h: Header, limit: nat): Chunk
    requires HasRoom(format, h, limit)
  {
    [Meter(METER, [Text(format, 1, ""), Filling(format, h, limit)])]
  }

  function Alones(format: Format, limit: nat, n: nat): (r: seq<Chunk>)
    ensures |r| == n
  {
    seq(n, i requires 0 <= i < n => Alone(format, limit, i + 3))
  }

  function Alone(format: Format, limit: nat, index: nat): Chunk {
    [Meter(METER, [TooLong(format, limit, index)])]
  }

  lemma SizeOfTwo(h: Header, a: string, b: string)
    ensures Size(h, [Meter(METER, [a, b])]) == Size(h, [Meter(METER, [a])]) + 1 + |b|
    ensures Size(h, [Meter(METER, [a])]) >= |a|
  {
    hide Size;
    OneMeterPushed(h, [], a);
    OneMeterPushed(h, [a], b);
    assert [] + [a] == [a] && [a] + [b] == [a, b];
  }

  lemma OneMeterPushed(h: Header, values: seq<string>, json: string)
    ensures Size(h, [Meter(METER, values + [json])])
            == Size(h, [Meter(METER, values)]) + (if values == [] then 0 else 1) + |json|
  {
    hide Size;
    var chunk := [Meter(METER, values)];
    PushedSize(h, chunk, json);
    assert chunk[..0] == [];
    assert Pushed(chunk, json) == [Meter(METER, values + [json])];
  }

  lemma FillingSize(format: Format, h: Header, limit: nat)
    requires HasRoom(format, h, limit)
    ensures Size(h, Full(format, h, limit)) == limit
  {
    hide Size, Text;
    var a, b := Text(format, 1, ""), Text(format, 2, "");
    var room := limit - Size(h, [Meter(METER, [a, b])]);
    SizeOfTwo(h, a, b);
    SizeOfTwo(h, a, Filling(format, h, limit));
    TextLength(format, 2, room);
    TextLength(format, 2, 0);
    assert Repeat('0', 0) == "";
  }

  lemma FullIsFull(format: Format, h: Header, limit: nat)
    requires HasRoom(format, h, limit)
    ensures Size(h, Full(format, h, limit)) == limit && Full(format, h, limit) != []
    ensures |EntriesOfChunk(Full(format, h, limit))| == 2 && Several(Full(format, h, limit))
  {
    hide Size, Text, EntriesOfChunk, Filling, HasRoom;
    FillingSize(format, h, limit);
    OneMeterEntries(Full(format, h, limit));
  }

  /** A value that is longer than the limit does not fit behind anything. */
  lemma NoRoomBehind(format: Format, h: Header, limit: nat, values: seq<string>, index: nat)
    requires index > 0
    ensures Size(h, Extended([Meter(METER, values)], Entry(METER, TooLong(format, limit, index)))) > limit
  {
    hide Size, Text;
    var e := Entry(METER, TooLong(format, limit, index));
    var chunk: Chunk := [Meter(METER, values)];
    TextLength(format, index, limit + 1);
    PushedSize(h, chunk, e.json);
    PushedIsExtended(chunk, e);
  }

  /** Packing the awkward values: the full chunk, then one chunk for each of the others. */
  lemma {:induction false} AwkwardPacked(format: Format, h: Header, limit: nat, n: nat)
    requires HasRoom(format, h, limit) && n >= 2
    ensures var p := Pack(h, limit, EntriesOfItems(Awkward(format, h, limit, n)));
            if n == 2 then p == Packing([], Full(format, h, limit))
            else p == Packing([Full(format, h, limit)] + Alones(format, limit, n - 3), Alone(format, limit, n))
  {
    hide Size, HasRoom, Pack, Full, Alone, Extended, Filling, TooLong, Text;
    if n == 2 {
      FirstTwo(format, h, limit);
    } else {
      var entries := EntriesOfItems(Awkward(format, h, limit, n));
      AwkwardPacked(format, h, limit, n - 1);
      assert entries[..n - 1] == EntriesOfItems(Awkward(format, h, limit, n - 1));
      assert entries[n - 1] == Entry(METER, TooLong(format, limit, n));
      PackLast(h, limit, entries);
      NeverBehind(format, h, limit, n);
      if n > 3 {
        OneMoreAlone(format, limit, Full(format, h, limit), n);
      } else {
        assert [] + [Full(format, h, limit)] == [Full(format, h, limit)] + Alones(format, limit, 0);
      }
    }
  }

  /** The `n`-th value starts a chunk of its own. */
  lemma NeverBehind(format: Format, h: Header, limit: nat, n: nat)
    requires HasRoom(format, h, limit) && n > 2
    ensures var e := Entry(METER, TooLong(format, limit, n));
            && Size(h, Extended(Full(format, h, limit), e)) > limit && Full(format, h, limit) != []
            && Size(h, Extended(Alone(format, limit, n - 1), e)) > limit && Alone(format, limit, n - 1) != []
            && Extended([], e) == Alone(format, limit, n)
  {
    hide Size, HasRoom, Filling, TooLong, Text;
    NoRoomBehind(format, h, limit, [Text(format, 1, ""), Filling(format, h, limit)], n);
    NoRoomBehind(format, h, limit, [TooLong(format, limit, n - 1)], n);
  }

  lemma PackLast(h: Header, limit: nat, entries: seq<Entry>)
    requires entries != []
    ensures var n := |entries| - 1; Pack(h, limit, entries) == Add(h, limit, Pack(h, limit, entries[..n]), entries[n])
  {
    hide Add;
  }

  lemma OneMoreAlone(format: Format, limit: nat, first: Chunk, n: nat)
    requires n > 3
    ensures [first] + Alones(format, limit, n - 4) + [Alone(format, limit, n - 1)]
         == [first] + Alones(format, limit, n - 3)
  {
    hide Alone;
  }

  lemma FirstTwo(format: Format, h: Header, limit: nat)
    requires HasRoom(format, h, limit)
    ensures Pack(h, limit, EntriesOfItems(Awkward(format, h, limit, 2))) == Packing([], Full(format, h, limit))
  {
    hide Size, HasRoom, Pack, Extended, Filling, TooLong, Text;
    var first, second := Entry(METER, Text(format, 1, "")), Entry(METER, Filling(format, h, limit));
    assert EntriesOfItems(Awkward(format, h, limit, 2)) == [first, second];
    PackedTwo(h, limit, first, second);
    TwoInOneMeter(first.json, second.json);
    FullIsFull(format, h, limit);
  }

  lemma TwoInOneMeter(a: string, b: string)
    ensures Extended(Extended([], Entry(METER, a)), Entry(METER, b)) == [Meter(METER, [a, b])]
  {
    assert [a] + [b] == [a, b];
    assert [Meter(METER, [a])][..0] == [];
  }

  lemma PackedTwo(h: Header, limit: nat, a: Entry, b: Entry)
    ensures Pack(h, limit, [a, b]) == Add(h, limit, Packing([], Extended([], a)), b)
  {
    hide Size, Extended;
    assert [a, b][..1] == [a] && [a][..0] == [];
    assert Pack(h, limit, []) == Packing([], []);
    assert Pack(h, limit, [a]) == Packing([], Extended([], a));
  }

  lemma TwoDigits(n: nat)
    requires n >= 10
    ensures ExtraDigits(n) >= 1
  {
  }

  /** Every number of values above ten has a message of rendered values whose first chunk holds two of them and is
      sent in a text that exceeds the limit. Each of the others has a chunk of its own. */
  lemma MoreValuesOverflow(format: Format, h: Header, limit: nat, n: nat)
    requires HasRoom(format, h, limit) && n > 10
    ensures var values := Awkward(format, h, limit, n);
            && Rendered(format, values) && FirstMachineCode(values, h.machineCode) == h.machineCode
            && Coded(values) == n && SomeOverflows(h, limit, values)
            && |Chunks(h, limit, values)| == n - 1 && Overflows(h, limit, values, 0)
            && |EntriesOfChunk(Chunks(h, limit, values)[0])| == 2
  {
    hide HasRoom, Pack, Grouped, Size, Full, ExtraDigits, Serialised, Several, Rendered, Filling, TooLong, Text,
      EntriesOfChunk;
    var values := Awkward(format, h, limit, n);
    AwkwardIsRendered(format, h, limit, n);
    NoMachineNamed(values, h.machineCode);
    OneMeterIsGrouped(values, METER);
    GroupedCount(values);
    AwkwardPacked(format, h, limit, n);
    var chunks := Chunks(h, limit, values);
    assert |chunks| == n - 1 && chunks[0] == Full(format, h, limit);
    FullIsFull(format, h, limit);
    ExceedsExactly(h, limit, values, 0);
    TwoDigits(|chunks|);
    assert Overflows(h, limit, values, 0);
  }

  /** A message of `n` values with a meter code, rendered by the code. */
  ghost predicate Message(format: Format, h: Header, n: nat, values: seq<Item>) {
    Rendered(format, values) && FirstMachineCode(values, h.machineCode) == h.machineCode && Coded(values) == n
  }

  /** The guard for a caller: some message of `n` values with a meter code overflows a chunk of several values
      if and only if `n` is above ten and the header leaves room for two values. */
  lemma OverflowPossible(format: Format, h: Header, limit: nat, n: nat)
    ensures (exists values :: Message(format, h, n, values) && SomeOverflows(h, limit, values))
       <==> n > 10 && HasRoom(format, h, limit)
  {
    hide HasRoom, Coded, SomeOverflows, Awkward, Rendered, FirstMachineCode;
    if n > 10 && HasRoom(format, h, limit) {
      MoreValuesOverflow(format, h, limit, n);
    } else {
      forall values | Message(format, h, n, values)
        ensures !SomeOverflows(h, limit, values)
      {
        if n <= 10 {
          TenValuesFit(h, limit, values);
        } else {
          NoRoomNoOverflow(format, h, limit, values);
        }
      }
    }
  }

  lemma NoRoomNoOverflow(format: Format, h: Header, limit: nat, values: seq<Item>)
    requires Rendered(format, values) && !HasRoom(format, h, limit)
    ensures !SomeOverflows(h, limit, values)
  {
    hide Chunks, Payload, Size, HasRoom, Several, Rendered, Genuine;
    forall i | 0 <= i < |Chunks(h, limit, values)| && Several(Chunks(h, limit, values)[i])
      ensures false
    {
      SeveralCounted(h, limit, values, i);
      ChunksGenuine(format, h, limit, values, i);
      SeveralNeedsRoom(format, h, limit, Chunks(h, limit, values)[i]);
    }
  }
}
