/** Packing values into chunks of bounded size: the running byte count of the code refines a packer that
    serialises each candidate chunk and measures it. */
module ChunkPacking {
  import opened ChunkJson

  /** A stored value: its meter and its JSON in the configured format. */
  datatype Item = Item(machineCode: string, meterCode: string, json: string)

  /** A value as it appears in a chunk. */
  datatype Entry = Entry(code: string, json: string)

  type Chunk = seq<Meter>

  /** Finished chunks and the one being filled. */
  datatype Packing = Packing(chunks: seq<Chunk>, current: Chunk)

  /** The chunk with one more value: under its last meter if that is the value's, else under a new one. */
  function Extended(chunk: Chunk, e: Entry): Chunk {
    if chunk != [] && chunk[|chunk| - 1].code == e.code then
      var last := chunk[|chunk| - 1];
      chunk[..|chunk| - 1] + [Meter(last.code, last.values + [e.json])]
    else chunk + [Meter(e.code, [e.json])]
  }

  /** Start a new chunk only when the value would take the current one over the limit. */
  function Add(h: Header, limit: nat, p: Packing, e: Entry): Packing {
    if p.current != [] && Size(h, Extended(p.current, e)) > limit
    then Packing(p.chunks + [p.current], Extended([], e))
    else Packing(p.chunks, Extended(p.current, e))
  }

  function Pack(h: Header, limit: nat, entries: seq<Entry>): Packing {
    if entries == [] then Packing([], [])
    else Add(h, limit, Pack(h, limit, entries[..|entries| - 1]), entries[|entries| - 1])
  }

  function Flushed(p: Packing): seq<Chunk> {
    if p.current == [] then p.chunks else p.chunks + [p.current]
  }

  // ----- grouping by meter -----

  /** The non-empty meter codes, in order of first appearance. */
  function MeterCodes(items: seq<Item>): seq<string> {
    if items == [] then []
    else
      var codes, code := MeterCodes(items[..|items| - 1]), items[|items| - 1].meterCode;
      if code == "" || code in codes then codes else codes + [code]
  }

  function Of(items: seq<Item>, code: string): seq<Entry> {
    if items == [] then []
    else
      var front, last := Of(items[..|items| - 1], code), items[|items| - 1];
      if last.meterCode == code then front + [Entry(code, last.json)] else front
  }

  /** The values of the given meters, meter by meter. */
  function OfAll(items: seq<Item>, codes: seq<string>): seq<Entry> {
    if codes == [] then [] else OfAll(items, codes[..|codes| - 1]) + Of(items, codes[|codes| - 1])
  }

  function Grouped(items: seq<Item>): seq<Entry> {
    OfAll(items, MeterCodes(items))
  }

  lemma {:induction false} MeterCodesDistinct(items: seq<Item>)
    ensures "" !in MeterCodes(items)
    ensures forall i, j :: 0 <= i < j < |MeterCodes(items)| ==> MeterCodes(items)[i] != MeterCodes(items)[j]
    ensures forall k :: 0 <= k < |items| && items[k].meterCode != "" ==> items[k].meterCode in MeterCodes(items)
  {
    if items != [] {
      var n := |items| - 1;
      MeterCodesDistinct(items[..n]);
      forall k | 0 <= k < |items| && items[k].meterCode != ""
        ensures items[k].meterCode in MeterCodes(items)
      {
        if k < n {
          assert items[..n][k] == items[k];
        }
      }
    }
  }

  lemma {:induction false} OfHasCode(items: seq<Item>, code: string)
    ensures forall k :: 0 <= k < |Of(items, code)| ==> Of(items, code)[k].code == code
  {
    if items != [] {
      OfHasCode(items[..|items| - 1], code);
    }
  }

  /** The entries of a list that belong to a meter. */
  function Select(entries: seq<Entry>, code: string): seq<Entry> {
    if entries == [] then []
    else
      var front, last := Select(entries[..|entries| - 1], code), entries[|entries| - 1];
      if last.code == code then front + [last] else front
  }

  lemma SelectNothing(code: string)
    ensures Select([], code) == []
  {
  }

  lemma {:induction false} SelectTwo(a: seq<Entry>, b: seq<Entry>, code: string)
    ensures Select(a + b, code) == Select(a, code) + Select(b, code)
  {
    if b == [] {
      assert a + b == a;
    } else {
      SelectTwo(a, b[..|b| - 1], code);
      assert (a + b)[..|a + b| - 1] == a + b[..|b| - 1];
    }
  }

  lemma {:induction false} SelectUniform(entries: seq<Entry>, own: string, code: string)
    requires forall k :: 0 <= k < |entries| ==> entries[k].code == own
    ensures Select(entries, code) == if code == own then entries else []
  {
    if entries != [] {
      SelectUniform(entries[..|entries| - 1], own, code);
    }
  }

  lemma {:induction false} SelectOfAll(items: seq<Item>, codes: seq<string>, code: string)
    requires forall i, j :: 0 <= i < j < |codes| ==> codes[i] != codes[j]
    ensures Select(OfAll(items, codes), code) == if code in codes then Of(items, code) else []
  {
    hide Of, Select;
    if codes == [] {
      SelectNothing(code);
    } else {
      var n := |codes| - 1;
      assert codes == codes[..n] + [codes[n]];
      SelectOfAll(items, codes[..n], code);
      SelectTwo(OfAll(items, codes[..n]), Of(items, codes[n]), code);
      OfHasCode(items, codes[n]);
      SelectUniform(Of(items, codes[n]), codes[n], code);
    }
  }

  /** Grouping keeps, for every meter, exactly its values in their order. */
  lemma GroupedConserves(items: seq<Item>, code: string)
    ensures Select(Grouped(items), code) == if code == "" then [] else Of(items, code)
  {
    hide MeterCodes, Of, OfAll, Select;
    MeterCodesDistinct(items);
    SelectOfAll(items, MeterCodes(items), code);
    if code !in MeterCodes(items) && code != "" {
      OfNobody(items, code);
    }
  }

  lemma {:induction false} OfNobody(items: seq<Item>, code: string)
    requires forall k :: 0 <= k < |items| ==> items[k].meterCode != code
    ensures Of(items, code) == []
  {
    if items != [] {
      OfNobody(items[..|items| - 1], code);
    }
  }

  /** The number of values with a meter code. */
  function Coded(items: seq<Item>): nat {
    if items == [] then 0 else Coded(items[..|items| - 1]) + if items[|items| - 1].meterCode == "" then 0 else 1
  }

  lemma {:induction false} OneMoreOfAll(items: seq<Item>, codes: seq<string>)
    requires items != [] && forall i, j :: 0 <= i < j < |codes| ==> codes[i] != codes[j]
    ensures var n := |items| - 1;
            |OfAll(items, codes)| == |OfAll(items[..n], codes)| + if items[n].meterCode in codes then 1 else 0
  {
    if codes != [] {
      var n := |codes| - 1;
      OneMoreOfAll(items, codes[..n]);
      assert codes == codes[..n] + [codes[n]];
    }
  }

  /** Grouping has one entry for each of them. */
  lemma {:induction false} GroupedCount(items: seq<Item>)
    ensures |Grouped(items)| == Coded(items)
  {
    hide Of;
    if items != [] {
      var n := |items| - 1;
      var front, code := items[..n], items[n].meterCode;
      GroupedCount(front);
      MeterCodesDistinct(items);
      MeterCodesDistinct(front);
      OneMoreOfAll(items, MeterCodes(items));
      if code != "" && code !in MeterCodes(front) {
        OfNobody(front, code);
        assert MeterCodes(items)[..|MeterCodes(front)|] == MeterCodes(front);
      }
    }
  }

  /** Once another meter's value has come, a meter does not come again. */
  ghost predicate Contiguous(entries: seq<Entry>) {
    forall i, k :: 0 <= i < k < |entries| && entries[i].code == entries[k].code ==> PredecessorHasCode(entries, k)
  }

  predicate PredecessorHasCode(entries: seq<Entry>, k: nat)
    requires 0 < k < |entries|
  {
    entries[k - 1].code == entries[k].code
  }

  lemma {:induction false} GroupedContiguous(items: seq<Item>, codes: seq<string>)
    requires forall i, j :: 0 <= i < j < |codes| ==> codes[i] != codes[j]
    ensures Contiguous(OfAll(items, codes))
    ensures forall k :: 0 <= k < |OfAll(items, codes)| ==> OfAll(items, codes)[k].code in codes
  {
    hide Of;
    if codes != [] {
      var n := |codes| - 1;
      var front, last := OfAll(items, codes[..n]), Of(items, codes[n]);
      GroupedContiguous(items, codes[..n]);
      OfHasCode(items, codes[n]);
      var all := front + last;
      forall i, k | 0 <= i < k < |all| && all[i].code == all[k].code
        ensures PredecessorHasCode(all, k)
      {
        if k < |front| {
          assert PredecessorHasCode(front, k);
        }
      }
    }
  }

  // ----- what packing guarantees -----

  function EntriesOfMeter(m: Meter): (r: seq<Entry>)
    ensures |r| == |m.values|
  {
    seq(|m.values|, i requires 0 <= i < |m.values| => Entry(m.code, m.values[i]))
  }

  function EntriesOfChunk(chunk: Chunk): seq<Entry> {
    if chunk == [] then [] else EntriesOfChunk(chunk[..|chunk| - 1]) + EntriesOfMeter(chunk[|chunk| - 1])
  }

  function EntriesOf(chunks: seq<Chunk>): seq<Entry> {
    if chunks == [] then [] else EntriesOf(chunks[..|chunks| - 1]) + EntriesOfChunk(chunks[|chunks| - 1])
  }

  lemma ExtendedEntries(chunk: Chunk, e: Entry)
    ensures EntriesOfChunk(Extended(chunk, e)) == EntriesOfChunk(chunk) + [e]
  {
    var n := |chunk|;
    var r := Extended(chunk, e);
    if n > 0 && chunk[n - 1].code == e.code {
      assert r[..n - 1] == chunk[..n - 1];
      assert EntriesOfMeter(r[n - 1]) == EntriesOfMeter(chunk[n - 1]) + [e];
    } else {
      assert r[..n] == chunk;
      assert EntriesOfMeter(r[n]) == [e];
    }
  }

  lemma EntriesOfMore(chunks: seq<Chunk>, chunk: Chunk)
    ensures EntriesOf(chunks + [chunk]) == EntriesOf(chunks) + EntriesOfChunk(chunk)
  {
    assert (chunks + [chunk])[..|chunks|] == chunks;
  }

  /** Every entry is packed, once and in order. */
  lemma {:induction false} PackConserves(h: Header, limit: nat, entries: seq<Entry>)
    ensures var p := Pack(h, limit, entries); EntriesOf(p.chunks) + EntriesOfChunk(p.current) == entries
  {
    hide EntriesOf, EntriesOfChunk, Extended, Size;
    if entries == [] {
      NoEntries();
    } else {
      var n := |entries| - 1;
      var p, e := Pack(h, limit, entries[..n]), entries[n];
      PackConserves(h, limit, entries[..n]);
      EntriesOfMore(p.chunks, p.current);
      ExtendedEntries(p.current, e);
      ExtendedEntries([], e);
      NoEntries();
      assert entries[..n] + [e] == entries;
    }
  }

  lemma NoEntries()
    ensures EntriesOf([]) == [] && EntriesOfChunk([]) == []
  {
  }

  predicate NoEmptyMeter(chunk: Chunk) {
    forall i :: 0 <= i < |chunk| ==> chunk[i].values != []
  }

  predicate NoRepeatedMeter(chunk: Chunk) {
    forall i, j :: 0 <= i < j < |chunk| ==> chunk[i].code != chunk[j].code
  }

  predicate SingleValue(chunk: Chunk) {
    |chunk| == 1 && |chunk[0].values| == 1
  }

  /** A chunk that packing may produce. */
  predicate WellPacked(h: Header, limit: nat, chunk: Chunk) {
    && chunk != [] && NoEmptyMeter(chunk) && NoRepeatedMeter(chunk)
    && (Size(h, chunk) <= limit || SingleValue(chunk))
  }

  /** The first value of the chunk. */
  function FirstEntry(chunk: Chunk): Entry
    requires chunk != [] && NoEmptyMeter(chunk)
  {
    Entry(chunk[0].code, chunk[0].values[0])
  }

  /** The break between two chunks was needed: the next value did not fit. */
  predicate ForcedBreak(h: Header, limit: nat, chunk: Chunk, next: Chunk) {
    next != [] && NoEmptyMeter(next) && Size(h, Extended(chunk, FirstEntry(next))) > limit
  }

  ghost predicate WellPackedAll(h: Header, limit: nat, chunks: seq<Chunk>) {
    && (forall i :: 0 <= i < |chunks| ==> WellPacked(h, limit, chunks[i]))
    && (forall i :: 0 < i < |chunks| ==> ForcedBreak(h, limit, chunks[i - 1], chunks[i]))
  }

  lemma ExtendedShape(h: Header, chunk: Chunk, e: Entry)
    requires NoEmptyMeter(chunk) && NoRepeatedMeter(chunk)
    requires chunk != [] && chunk[|chunk| - 1].code != e.code ==>
               forall i :: 0 <= i < |chunk| ==> chunk[i].code != e.code
    ensures var r := Extended(chunk, e);
            r != [] && NoEmptyMeter(r) && NoRepeatedMeter(r)
            && r[|r| - 1].code == e.code
            && (forall i :: 0 <= i < |r| ==>
              r[i].code == e.code || exists j :: 0 <= j < |chunk| && chunk[j].code == r[i].code)
            && FirstEntry(r) == if chunk == [] then e else FirstEntry(chunk)
  {
    hide Size;
    var r := Extended(chunk, e);
    forall i | 0 <= i < |r| && r[i].code != e.code
      ensures exists j :: 0 <= j < |chunk| && chunk[j].code == r[i].code
    {
      assert chunk[i].code == r[i].code;
    }
  }

  /** Packing contiguous entries yields well-packed chunks, broken only where needed. */
  lemma {:induction false} PackShape(h: Header, limit: nat, entries: seq<Entry>)
    requires Contiguous(entries)
    ensures var p := Pack(h, limit, entries);
            && WellPackedAll(h, limit, Flushed(p))
            && (p.current == [] <==> entries == [])
            && (entries != [] ==> p.current[|p.current| - 1].code == entries[|entries| - 1].code)
            && (forall i :: 0 <= i < |p.current| ==> HasCode(entries, p.current[i].code))
  {
    hide Size, Extended;
    if entries != [] {
      var n := |entries| - 1;
      var front, e := entries[..n], entries[n];
      ContiguousFront(entries);
      PackShape(h, limit, front);
      var p := Pack(h, limit, front);
      CurrentAccepts(entries, p.current);
      AddShape(h, limit, p, e);
      var q := Pack(h, limit, entries);
      forall i | 0 <= i < |q.current|
        ensures HasCode(entries, q.current[i].code)
      {
        if q.current[i].code == e.code {
          assert entries[n].code == e.code;
        } else {
          var j :| 0 <= j < |p.current| && p.current[j].code == q.current[i].code;
          assert HasCode(front, p.current[j].code);
          var k :| 0 <= k < |front| && front[k].code == p.current[j].code;
          assert entries[k].code == q.current[i].code;
        }
      }
    }
  }

  ghost predicate HasCode(entries: seq<Entry>, code: string) {
    exists k :: 0 <= k < |entries| && entries[k].code == code
  }

  lemma ContiguousFront(entries: seq<Entry>)
    requires entries != [] && Contiguous(entries)
    ensures Contiguous(entries[..|entries| - 1])
  {
    var front := entries[..|entries| - 1];
    forall i, k | 0 <= i < k < |front| && front[i].code == front[k].code
      ensures PredecessorHasCode(front, k)
    {
      assert PredecessorHasCode(entries, k);
    }
  }

  /** If the next entry is not for the current meter, its meter is not in the current chunk. */
  lemma CurrentAccepts(entries: seq<Entry>, current: Chunk)
    requires entries != [] && Contiguous(entries)
    requires forall i :: 0 <= i < |current| ==> HasCode(entries[..|entries| - 1], current[i].code)
    requires |entries| > 1 ==> current != [] && current[|current| - 1].code == entries[|entries| - 2].code
    ensures var e := entries[|entries| - 1];
            current != [] && current[|current| - 1].code != e.code ==>
              forall i :: 0 <= i < |current| ==> current[i].code != e.code
  {
    var n := |entries| - 1;
    forall i | 0 <= i < |current| && current[i].code == entries[n].code
      ensures current[|current| - 1].code == entries[n].code
    {
      var k :| 0 <= k < n && entries[..n][k].code == current[i].code;
      assert PredecessorHasCode(entries, n);
    }
  }

  lemma AddShape(h: Header, limit: nat, p: Packing, e: Entry)
    requires WellPackedAll(h, limit, Flushed(p)) && (p.current == [] ==> p.chunks == [])
    requires p.current != [] && p.current[|p.current| - 1].code != e.code ==>
               forall i :: 0 <= i < |p.current| ==> p.current[i].code != e.code
    ensures var q := Add(h, limit, p, e);
            && WellPackedAll(h, limit, Flushed(q)) && q.current != []
            && q.current[|q.current| - 1].code == e.code
            && (forall i :: 0 <= i < |q.current| ==>
                  || q.current[i].code == e.code
                  || exists j :: 0 <= j < |p.current| && p.current[j].code == q.current[i].code)
  {
    hide Size, Extended;
    if p.current != [] {
      assert Flushed(p)[|p.chunks|] == p.current;
      assert WellPacked(h, limit, p.current);
    }
    ExtendedShape(h, p.current, e);
    ExtendedShape(h, [], e);
    JustOne(e);
    var q := Add(h, limit, p, e);
    var was, now := Flushed(p), Flushed(q);
    if p.current != [] && Size(h, Extended(p.current, e)) > limit {
      assert now == was + [q.current];
      assert ForcedBreak(h, limit, p.current, q.current);
      Appended(h, limit, was, q.current);
    } else if p.current == [] {
      assert now == [q.current];
    } else {
      LastReplaced(h, limit, p, q.current);
    }
  }

  lemma JustOne(e: Entry)
    ensures SingleValue(Extended([], e))
  {
  }

  lemma Appended(h: Header, limit: nat, chunks: seq<Chunk>, next: Chunk)
    requires chunks != [] && WellPackedAll(h, limit, chunks) && WellPacked(h, limit, next)
    requires ForcedBreak(h, limit, chunks[|chunks| - 1], next)
    ensures WellPackedAll(h, limit, chunks + [next])
  {
    hide WellPacked, ForcedBreak;
    var now := chunks + [next];
    forall i | 0 < i < |now|
      ensures ForcedBreak(h, limit, now[i - 1], now[i])
    {
      if i < |chunks| {
        assert ForcedBreak(h, limit, chunks[i - 1], chunks[i]);
      }
    }
  }

  lemma LastReplaced(h: Header, limit: nat, p: Packing, chunk: Chunk)
    requires p.current != [] && WellPackedAll(h, limit, p.chunks + [p.current])
    requires WellPacked(h, limit, chunk) && WellPacked(h, limit, p.current)
    requires FirstEntry(chunk) == FirstEntry(p.current)
    ensures WellPackedAll(h, limit, p.chunks + [chunk])
  {
    hide Size, Extended, WellPacked;
    var was, now := p.chunks + [p.current], p.chunks + [chunk];
    forall i | 0 <= i < |now|
      ensures WellPacked(h, limit, now[i])
    {
      if i < |p.chunks| {
        assert now[i] == was[i];
      }
    }
    Opened(h, limit, chunk);
    forall i | 0 < i < |now|
      ensures ForcedBreak(h, limit, now[i - 1], now[i])
    {
      assert ForcedBreak(h, limit, was[i - 1], was[i]);
    }
  }

  lemma Opened(h: Header, limit: nat, chunk: Chunk)
    requires WellPacked(h, limit, chunk)
    ensures chunk != [] && NoEmptyMeter(chunk)
  {
  }
}
