/** The chunk encoder: groups values by meter, packs them with a running byte count and serialises the chunks. */
module ChunkEncoder {
  import opened Decimal
  import opened ChunkJson
  import opened ChunkPacking

  /** The chunks being built and the count of bytes the current one will take. */
  class Packer {
    const header: Header
    const limit: nat
    const baseBytes: nat
    var chunks: seq<Chunk>
    var currentMeters: Chunk
    var currentBytes: nat

    /** The running count is the length of the current chunk's text. */
    ghost predicate Counted()
      reads this
    {
      baseBytes == Size(header, []) && currentBytes == Size(header, currentMeters)
    }

    ghost predicate Valid()
      reads this
    {
      Counted() && NoEmptyMeter(currentMeters)
    }

    ghost function Packed(): Packing
      reads this
    {
      Packing(chunks, currentMeters)
    }

    constructor (header: Header, limit: nat)
      ensures Valid() && Packed() == Packing([], [])
      ensures this.header == header && this.limit == limit
    {
      this.header := header;
      this.limit := limit;
      var empty := BuildRealtimeChunkJson(header, 1, 1, []);
      baseBytes := |empty|;
      chunks := [];
      currentMeters := [];
      currentBytes := |empty|;
    }

    method FlushCurrent()
      requires Counted()
      modifies this
      ensures Counted()
      ensures chunks == Flushed(old(Packed())) && currentMeters == []
    {
      if currentMeters != [] {
        chunks := chunks + [currentMeters];
        currentMeters := [];
        currentBytes := baseBytes;
      }
    }

    method AppendMeter(meterCode: string)
      requires Counted()
      modifies this`currentMeters, this`currentBytes
      ensures Counted() && currentMeters == old(currentMeters) + [Meter(meterCode, [])]
    {
      hide Size, MeterWrapperBytes;
      var separatorBytes := if currentMeters == [] then 0 else 1;
      SizeWithMeter(header, currentMeters, Meter(meterCode, []));
      currentMeters := currentMeters + [Meter(meterCode, [])];
      currentBytes := currentBytes + separatorBytes + MeterWrapperBytes(meterCode);
    }

    /** Taking back a meter that has no value yet. */
    method DropMeter(meterCode: string, ghost front: Chunk)
      requires Counted() && front != [] && currentMeters == front + [Meter(meterCode, [])]
      modifies this`currentMeters, this`currentBytes
      ensures Counted() && currentMeters == front
    {
      hide Size, MeterWrapperBytes;
      SizeWithMeter(header, front, Meter(meterCode, []));
      currentBytes := currentBytes - (1 + MeterWrapperBytes(meterCode));
      currentMeters := currentMeters[..|currentMeters| - 1];
    }

    /** A value under the last meter. */
    method PushValue(json: string)
      requires Counted() && currentMeters != []
      modifies this`currentMeters, this`currentBytes
      ensures Counted() && currentMeters == Pushed(old(currentMeters), json)
    {
      hide Size;
      var last := currentMeters[|currentMeters| - 1];
      var separatorBytes := if last.values == [] then 0 else 1;
      PushedSize(header, currentMeters, json);
      currentMeters := Pushed(currentMeters, json);
      currentBytes := currentBytes + separatorBytes + |json|;
    }

    /** One turn of the packing loop decides as if it had serialised the chunk with the value added. */
    method AddValue(meterCode: string, itemPayload: string)
      requires Valid()
      modifies this
      ensures Valid() && Packed() == Add(header, limit, old(Packed()), Entry(meterCode, itemPayload))
    {
      hide Size, Extended, Pushed;
      ghost var before, e := currentMeters, Entry(meterCode, itemPayload);
      ghost var alone := [Meter(meterCode, [])];
      PushedIsExtended([], e);
      PushedIsExtended(before, e);
      if currentMeters == [] || currentMeters[|currentMeters| - 1].code != meterCode {
        AppendMeter(meterCode);
      }
      var meter := currentMeters[|currentMeters| - 1];
      var addedBytes := (if meter.values == [] then 0 else 1) + |itemPayload|;
      PushedSize(header, currentMeters, itemPayload);
      if meter.values == [] && |currentMeters| > 1 && currentBytes + addedBytes > limit {
        DropMeter(meterCode, before);
        FlushCurrent();
        AppendMeter(meterCode);
        assert currentMeters == alone;
      }
      var target := currentMeters[|currentMeters| - 1];
      var targetAddedBytes := (if target.values == [] then 0 else 1) + |itemPayload|;
      if currentBytes + targetAddedBytes <= limit || target.values == [] {
        PushValue(itemPayload);
      } else {
        FlushCurrent();
        AppendMeter(meterCode);
        assert currentMeters == alone;
        PushValue(itemPayload);
      }
    }
  }

  /** The chunk with a value added under its last meter. */
  function Pushed(chunk: Chunk, json: string): Chunk
    requires chunk != []
  {
    var last := chunk[|chunk| - 1];
    chunk[..|chunk| - 1] + [Meter(last.code, last.values + [json])]
  }

  /** Opening a meter where needed and pushing the value extends the chunk. */
  lemma PushedIsExtended(chunk: Chunk, e: Entry)
    ensures var widened :=
              if chunk == [] || chunk[|chunk| - 1].code != e.code then chunk + [Meter(e.code, [])] else chunk;
            Pushed(widened, e.json) == Extended(chunk, e)
    ensures NoEmptyMeter(chunk) ==> NoEmptyMeter(Extended(chunk, e))
  {
    if chunk == [] || chunk[|chunk| - 1].code != e.code {
      var widened := chunk + [Meter(e.code, [])];
      assert widened[..|chunk|] == chunk;
      assert [] + [e.json] == [e.json];
    }
  }

  lemma PushedSize(h: Header, chunk: Chunk, json: string)
    requires chunk != []
    ensures Size(h, Pushed(chunk, json))
         == Size(h, chunk) + (if chunk[|chunk| - 1].values == [] then 0 else 1) + |json|
  {
    hide Size, Joined, MeterWrapperBytes;
    var front, last := chunk[..|chunk| - 1], chunk[|chunk| - 1];
    assert chunk == front + [last];
    SizeWithMeter(h, front, last);
    SizeWithMeter(h, front, Meter(last.code, last.values + [json]));
    JoinedPush(last.values, json);
  }

  // ----- grouping -----

  /** The values of one meter, in their order. */
  datatype Group = Group(code: string, entries: seq<Entry>)

  /** Group `i` holds the values of the `i`-th meter code, and the index finds it. */
  ghost predicate GroupedBy(items: seq<Item>, groups: seq<Group>, index: map<string, nat>) {
    && |groups| == |MeterCodes(items)|
    && (forall i :: 0 <= i < |groups| ==>
      groups[i].code == MeterCodes(items)[i] && groups[i].entries == Of(items, groups[i].code))
    && (forall code :: code in index <==> code in MeterCodes(items))
    && (forall code :: code in index ==> index[code] < |groups| && groups[index[code]].code == code)
  }

  method GroupValues(values: seq<Item>) returns (groups: seq<Group>)
    ensures |groups| == |MeterCodes(values)|
    ensures forall i :: 0 <= i < |groups| ==>
            groups[i].code == MeterCodes(values)[i] && groups[i].entries == Of(values, groups[i].code)
  {
    hide GroupedBy;
    groups := [];
    var index: map<string, nat> := map[];
    NothingGrouped(values);
    for k := 0 to |values|
      invariant GroupedBy(values[..k], groups, index)
    {
      var item := values[k];
      if item.meterCode == "" {
        NoGroupStep(values, k, groups, index);
      } else {
        if item.meterCode !in index {
          NewGroupStep(values, k, groups, index);
          index := index[item.meterCode := |groups|];
          groups := groups + [Group(item.meterCode, [])];
        } else {
          OldGroupStep(values, k, groups, index);
        }
        var g := groups[index[item.meterCode]];
        groups := groups[index[item.meterCode] := Group(g.code, g.entries + [Entry(item.meterCode, item.json)])];
      }
    }
    assert values[..|values|] == values;
    Read(values, groups, index);
  }

  lemma Read(items: seq<Item>, groups: seq<Group>, index: map<string, nat>)
    requires GroupedBy(items, groups, index)
    ensures |groups| == |MeterCodes(items)|
    ensures forall i :: 0 <= i < |groups| ==>
            groups[i].code == MeterCodes(items)[i] && groups[i].entries == Of(items, groups[i].code)
  {
  }

  lemma NothingGrouped(values: seq<Item>)
    ensures GroupedBy(values[..0], [], map[])
  {
  }

  /** The grouping after one more value: without a meter, of a new meter, of a known one. */
  lemma NoGroupStep(values: seq<Item>, k: nat, groups: seq<Group>, index: map<string, nat>)
    requires k < |values| && GroupedBy(values[..k], groups, index) && values[k].meterCode == ""
    ensures GroupedBy(values[..k + 1], groups, index)
  {
    hide Of, MeterCodes;
    CodesUnfold(values, k);
    MeterCodesDistinct(values[..k]);
    OfUnfolds(values, k);
  }

  lemma NewGroupStep(values: seq<Item>, k: nat, groups: seq<Group>, index: map<string, nat>)
    requires k < |values| && GroupedBy(values[..k], groups, index)
    requires values[k].meterCode != "" && values[k].meterCode !in index
    ensures var code := values[k].meterCode;
            var more := groups + [Group(code, [])];
            GroupedBy(values[..k + 1], more[|groups| := Group(code, [] + [Entry(code, values[k].json)])],
                      index[code := |groups|])
  {
    hide Of, MeterCodes;
    CodesUnfold(values, k);
    MeterCodesDistinct(values[..k]);
    OfUnfolds(values, k);
    OfNobody(values[..k], values[k].meterCode);
  }

  lemma OldGroupStep(values: seq<Item>, k: nat, groups: seq<Group>, index: map<string, nat>)
    requires k < |values| && GroupedBy(values[..k], groups, index) && values[k].meterCode in index
    ensures var code := values[k].meterCode;
            && index[code] < |groups|
            && var g := groups[index[code]];
               GroupedBy(values[..k + 1],
                         groups[index[code] := Group(g.code, g.entries + [Entry(code, values[k].json)])], index)
  {
    hide Of, MeterCodes;
    CodesUnfold(values, k);
    MeterCodesDistinct(values[..k]);
    OfUnfolds(values, k);
  }

  lemma CodesUnfold(values: seq<Item>, k: nat)
    requires k < |values|
    ensures var codes, code := MeterCodes(values[..k]), values[k].meterCode;
            MeterCodes(values[..k + 1]) == if code == "" || code in codes then codes else codes + [code]
  {
    assert values[..k + 1][..k] == values[..k];
  }

  lemma OfUnfolds(values: seq<Item>, k: nat)
    requires k < |values|
    ensures forall code :: Of(values[..k + 1], code)
                        == if values[k].meterCode == code
                          then Of(values[..k], code) + [Entry(code, values[k].json)] else Of(values[..k], code)
  {
    assert values[..k + 1][..k] == values[..k];
  }

  // ----- the encoder -----

  function FirstMachineCode(values: seq<Item>, fallback: string): string {
    if values == [] then fallback
    else if values[0].machineCode != "" then values[0].machineCode
    else FirstMachineCode(values[1..], fallback)
  }

  function Limit(maxPayloadBytes: nat): nat {
    if maxPayloadBytes < 4096 then 4096 else maxPayloadBytes
  }

  /** The chunks of a list of values; no value at all makes one empty chunk. */
  function Chunks(h: Header, limit: nat, values: seq<Item>): (r: seq<Chunk>) {
    var packed := Flushed(Pack(h, limit, Grouped(values)));
    if packed == [] then [[]] else packed
  }

  method EncodeRealtimeChunks(kind: string, values: seq<Item>, maxPayloadBytes: nat, fallback: string, chunkId: string)
    returns (payloads: seq<string>)
    ensures var h := Header(kind, FirstMachineCode(values, fallback), chunkId);
            var chunks := Chunks(h, Limit(maxPayloadBytes), values);
            && |payloads| == |chunks|
            && forall i :: 0 <= i < |payloads| ==> payloads[i] == Serialised(h, i + 1, |chunks|, chunks[i])
  {
    hide Serialised, Add, Of, MeterCodes, FirstMachineCode;
    var h := Header(kind, FirstMachineCode(values, fallback), chunkId);
    var packer := new Packer(h, Limit(maxPayloadBytes));
    var groups := GroupValues(values);
    PackAllGroups(packer, values, groups);
    packer.FlushCurrent();
    var chunks := packer.chunks;
    if chunks == [] {
      chunks := [[]];
    }
    payloads := [];
    for i := 0 to |chunks|
      invariant |payloads| == i
      invariant forall j :: 0 <= j < i ==> payloads[j] == Serialised(h, j + 1, |chunks|, chunks[j])
    {
      var payload := BuildRealtimeChunkJson(h, i + 1, |chunks|, chunks[i]);
      payloads := payloads + [payload];
    }
  }

  method PackAllGroups(packer: Packer, ghost values: seq<Item>, groups: seq<Group>)
    requires packer.Valid() && packer.Packed() == Packing([], [])
    requires |groups| == |MeterCodes(values)|
    requires forall i :: 0 <= i < |groups| ==>
            groups[i].code == MeterCodes(values)[i] && groups[i].entries == Of(values, groups[i].code)
    modifies packer
    ensures packer.Valid() && packer.Packed() == Pack(packer.header, packer.limit, Grouped(values))
  {
    hide Add, Of, MeterCodes, OfAll, Pack, Size;
    ghost var h, limit, codes := packer.header, packer.limit, MeterCodes(values);
    NothingPacked(h, limit, values, codes);
    for g := 0 to |groups|
      invariant packer.Valid() && packer.Packed() == Pack(h, limit, OfAll(values, codes[..g]))
    {
      OfAllStep(values, codes, g);
      ghost var done := OfAll(values, codes[..g]);
      var entries := groups[g].entries;
      assert done + entries[..0] == done;
      for i := 0 to |entries|
        invariant packer.Valid() && packer.Packed() == Pack(h, limit, done + entries[..i])
      {
        OfHasCode(values, groups[g].code);
        PackStep(h, limit, done, entries, i);
        packer.AddValue(groups[g].code, entries[i].json);
      }
      assert entries[..|entries|] == entries;
    }
    assert codes[..|groups|] == codes;
  }

  lemma NothingPacked(h: Header, limit: nat, values: seq<Item>, codes: seq<string>)
    ensures Pack(h, limit, OfAll(values, codes[..0])) == Packing([], [])
  {
  }

  lemma OfAllStep(values: seq<Item>, codes: seq<string>, g: nat)
    requires g < |codes|
    ensures OfAll(values, codes[..g + 1]) == OfAll(values, codes[..g]) + Of(values, codes[g])
  {
    assert codes[..g + 1][..g] == codes[..g];
  }

  lemma PackStep(h: Header, limit: nat, done: seq<Entry>, entries: seq<Entry>, i: nat)
    requires i < |entries|
    ensures Pack(h, limit, done + entries[..i + 1]) == Add(h, limit, Pack(h, limit, done + entries[..i]), entries[i])
  {
    hide Add;
    var all := done + entries[..i + 1];
    assert all[..|all| - 1] == done + entries[..i] && all[|all| - 1] == entries[i];
  }

  // ----- what the encoder guarantees -----

  /** Every value with a meter code is in exactly one place of one chunk, meter by meter in the order the
      meters first came, and within a meter in the order the values came. */
  lemma ChunksConserve(h: Header, limit: nat, values: seq<Item>)
    ensures EntriesOf(Chunks(h, limit, values)) == Grouped(values)
    ensures forall code :: Select(EntriesOf(Chunks(h, limit, values)), code)
                           == if code == "" then [] else Of(values, code)
  {
    hide EntriesOf, EntriesOfChunk, Pack, Select, Of, Grouped, MeterCodes;
    var p := Pack(h, limit, Grouped(values));
    PackConserves(h, limit, Grouped(values));
    EntriesOfMore(p.chunks, p.current);
    NoEntries();
    var none: seq<Chunk> := [];
    EntriesOfMore(none, []);
    assert none + [[]] == [[]];
    forall code {
      GroupedConserves(values, code);
    }
  }

  /** No chunk repeats a meter or holds an empty one, only a single value may exceed the limit, and no two
      neighbouring chunks could have shared the value between them. */
  lemma ChunksWellPacked(h: Header, limit: nat, values: seq<Item>)
    ensures Grouped(values) != [] ==> WellPackedAll(h, limit, Chunks(h, limit, values))
    ensures Grouped(values) == [] ==> Chunks(h, limit, values) == [[]]
  {
    hide WellPackedAll, OfAll, MeterCodes;
    MeterCodesDistinct(values);
    GroupedContiguous(values, MeterCodes(values));
    PackShape(h, limit, Grouped(values));
  }

  /** The text of a chunk of several values exceeds the limit at most by the extra digits of the chunk's
      number and of the number of chunks. */
  lemma PayloadBounded(h: Header, limit: nat, values: seq<Item>, i: nat)
    requires Grouped(values) != [] && i < |Chunks(h, limit, values)|
    ensures var chunks := Chunks(h, limit, values);
            |Serialised(h, i + 1, |chunks|, chunks[i])| <= limit + (|PrintNat(i + 1)| - 1) + (|PrintNat(|chunks|)| - 1)
            || SingleValue(chunks[i])
  {
    hide Grouped, Pack, Serialised;
    ChunksWellPacked(h, limit, values);
    var chunks := Chunks(h, limit, values);
    SerialisedLength(h, i + 1, |chunks|, chunks[i]);
    assert WellPacked(h, limit, chunks[i]);
  }
}
