/** The JSON text of one chunk of realtime values, and its length. */
module ChunkJson {
  import opened Decimal

  /** The values of one meter in a chunk, each already rendered as JSON. */
  datatype Meter = Meter(code: string, values: seq<string>)

  /** What all chunks of one message share. */
  datatype Header = Header(kind: string, machineCode: string, chunkId: string)

  // ----- escaping -----

  function EscapeChar(c: char): (s: string)
    ensures s != []
  {
    if c == '\\' then "\\\\"
    else if c == '"' then "\\\""
    else if c == '\n' then "\\n"
    else if c == '\r' then "\\r"
    else if c == '\t' then "\\t"
    else [c]
  }

  function Escaped(s: string): string {
    if s == [] then [] else EscapeChar(s[0]) + Escaped(s[1..])
  }

  method EscapeJson(value: string) returns (out: string)
    ensures out == Escaped(value)
  {
    hide Escaped, EscapeChar;
    out := "";
    NothingEscaped(value);
    for i := 0 to |value|
      invariant out == Escaped(value[..i])
    {
      EscapedStep(value, i);
      out := out + EscapeChar(value[i]);
    }
    assert value[..|value|] == value;
  }

  lemma NothingEscaped(value: string)
    ensures Escaped(value[..0]) == ""
  {
  }

  lemma EscapedStep(value: string, i: nat)
    requires i < |value|
    ensures Escaped(value[..i + 1]) == Escaped(value[..i]) + EscapeChar(value[i])
  {
    hide Escaped;
    assert value[..i + 1] == value[..i] + [value[i]];
    EscapedPush(value[..i], value[i]);
  }

  lemma {:induction false} EscapedPush(s: string, c: char)
    ensures Escaped(s + [c]) == Escaped(s) + EscapeChar(c)
  {
    hide EscapeChar;
    if s == "" {
      assert [c][1..] == "" && s + [c] == [c];
    } else {
      EscapedPush(s[1..], c);
      assert (s + [c])[1..] == s[1..] + [c];
    }
  }

  lemma EscapePrefixFree(a: char, b: char, x: string, y: string)
    requires EscapeChar(a) + x == EscapeChar(b) + y
    ensures a == b && x == y
  {
    var s, t := EscapeChar(a) + x, EscapeChar(b) + y;
    assert s[0] == t[0];
    if s[0] == '\\' {
      assert s[1] == t[1];
    }
    assert x == s[|EscapeChar(a)|..] && y == t[|EscapeChar(b)|..];
  }

  /** Different texts stay different when escaped. */
  lemma {:induction false} EscapedInjective(s: string, t: string)
    requires Escaped(s) == Escaped(t)
    ensures s == t
    decreases |s|
  {
    if s != [] && t != [] {
      EscapePrefixFree(s[0], t[0], Escaped(s[1..]), Escaped(t[1..]));
      EscapedInjective(s[1..], t[1..]);
    }
  }

  // ----- values -----

  datatype Format = CompactArray | Object

  /** A stored value as it is rendered; `value` is the text of its double. */
  datatype PointValue = PointValue(index: nat, pointCode: string, value: string, quality: int, ts: int, expireAt: int,
                                   stale: bool)

  function Truth(b: bool): string {
    if b then "true" else "false"
  }

  function PointJson(format: Format, p: PointValue): string {
    match format
    case CompactArray =>
      "[" + PrintNat(p.index) + ",\"" + Escaped(p.pointCode) + "\"," + p.value + "," + Print(p.quality)
      + "," + Print(p.ts) + "," + Print(p.expireAt) + "," + Truth(p.stale) + "]"
    case Object =>
      "{\"index\":" + PrintNat(p.index) + ",\"pointCode\":\"" + Escaped(p.pointCode) + "\",\"value\":" + p.value
      + ",\"quality\":" + Print(p.quality) + ",\"ts\":" + Print(p.ts) + ",\"expireAt\":" + Print(p.expireAt)
      + ",\"stale\":" + Truth(p.stale) + "}"
  }

  /** The length of a rendered value, by its parts. */
  lemma PointJsonLength(format: Format, p: PointValue)
    ensures |PointJson(format, p)|
         == (if format.CompactArray? then 10 else 72) + |PrintNat(p.index)| + |Escaped(p.pointCode)| + |p.value|
            + |Print(p.quality)| + |Print(p.ts)| + |Print(p.expireAt)| + (if p.stale then 4 else 5)
  {
    hide Escaped, Print, PrintNat;
  }

  // ----- serialisation -----

  /** The parts with commas between them. */
  function Joined(parts: seq<string>): string {
    if |parts| == 0 then ""
    else if |parts| == 1 then parts[0]
    else Joined(parts[..|parts| - 1]) + "," + parts[|parts| - 1]
  }

  function MeterJson(m: Meter): string {
    "{\"meterCode\":\"" + Escaped(m.code) + "\",\"values\":[" + Joined(m.values) + "]}"
  }

  function MeterJsons(meters: seq<Meter>): (r: seq<string>)
    ensures |r| == |meters|
  {
    seq(|meters|, i requires 0 <= i < |meters| => MeterJson(meters[i]))
  }

  function Preamble(h: Header, index: nat, count: nat): string {
    "{\"type\":\"" + Escaped(h.kind) + "\"" + ",\"machineCode\":\"" + Escaped(h.machineCode) + "\""
    + ",\"chunked\":true" + ",\"chunkId\":\"" + Escaped(h.chunkId) + "\""
    + ",\"chunkIndex\":" + PrintNat(index) + ",\"chunkCount\":" + PrintNat(count) + ",\"meters\":["
  }

  function Serialised(h: Header, index: nat, count: nat, meters: seq<Meter>): string {
    Preamble(h, index, count) + Joined(MeterJsons(meters)) + "]}"
  }

  lemma JoinedStep(parts: seq<string>, i: nat)
    requires i < |parts|
    ensures Joined(parts[..i + 1]) == Joined(parts[..i]) + (if i > 0 then "," else "") + parts[i]
  {
    assert parts[..i + 1][..i] == parts[..i];
  }

  method BuildRealtimeChunkJson(h: Header, chunkIndex: nat, chunkCount: nat, meters: seq<Meter>) returns (out: string)
    ensures out == Serialised(h, chunkIndex, chunkCount, meters)
  {
    hide Joined, Preamble, MeterJson;
    out := Preamble(h, chunkIndex, chunkCount);
    ghost var parts := MeterJsons(meters);
    JoinedNone(parts);
    for i := 0 to |meters|
      invariant out == Preamble(h, chunkIndex, chunkCount) + Joined(parts[..i])
    {
      JoinedStep(parts, i);
      if i > 0 {
        out := out + ",";
      }
      out := AppendMeterJson(out, meters[i]);
      assert out == Preamble(h, chunkIndex, chunkCount) + Joined(parts[..i + 1]);
    }
    assert parts[..|meters|] == parts;
    out := out + "]}";
  }

  lemma JoinedNone(parts: seq<string>)
    ensures Joined(parts[..0]) == ""
  {
  }

  method AppendMeterJson(start: string, m: Meter) returns (out: string)
    ensures out == start + MeterJson(m)
  {
    hide Joined, Escaped;
    var code := EscapeJson(m.code);
    out := start + ("{\"meterCode\":\"" + code + "\",\"values\":[");
    out := AppendValues(out, m.values);
    out := out + "]}";
  }

  method AppendValues(start: string, values: seq<string>) returns (out: string)
    ensures out == start + Joined(values)
  {
    hide Joined;
    out := start;
    JoinedNone(values);
    for j := 0 to |values|
      invariant out == start + Joined(values[..j])
    {
      JoinedStep(values, j);
      if j > 0 {
        out := out + ",";
      }
      out := out + values[j];
    }
    assert values[..|values|] == values;
  }

  // ----- lengths -----

  /** The length of a chunk whose index and count are single digits. */
  function Size(h: Header, meters: seq<Meter>): nat {
    |Serialised(h, 1, 1, meters)|
  }

  /** Any other index and count lengthen the chunk by their extra digits. */
  lemma SerialisedLength(h: Header, index: nat, count: nat, meters: seq<Meter>)
    ensures |Serialised(h, index, count, meters)| == Size(h, meters) + (|PrintNat(index)| - 1) + (|PrintNat(count)| - 1)
  {
    hide Joined, Escaped, MeterJsons;
    assert |PrintNat(1)| == 1;
  }

  function MeterWrapperBytes(code: string): nat {
    |"{\"meterCode\":\"\",\"values\":[]}"| + |Escaped(code)|
  }

  lemma MeterLength(m: Meter)
    ensures |MeterJson(m)| == MeterWrapperBytes(m.code) + |Joined(m.values)|
  {
    hide Joined, Escaped;
  }

  lemma JoinedPush(parts: seq<string>, x: string)
    ensures |Joined(parts + [x])| == |Joined(parts)| + (if parts == [] then 0 else 1) + |x|
  {
    assert (parts + [x])[..|parts|] == parts;
  }

  /** Adding a meter adds its wrapper, its values and a comma if it is not the first. */
  lemma SizeWithMeter(h: Header, meters: seq<Meter>, m: Meter)
    ensures Size(h, meters + [m])
         == Size(h, meters) + (if meters == [] then 0 else 1) + MeterWrapperBytes(m.code) + |Joined(m.values)|
  {
    hide Joined, Escaped, Preamble, MeterJson, MeterWrapperBytes;
    assert MeterJsons(meters + [m]) == MeterJsons(meters) + [MeterJson(m)];
    JoinedPush(MeterJsons(meters), MeterJson(m));
    MeterLength(m);
  }
}
