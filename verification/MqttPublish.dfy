/** PUBLISH packets (section 3.3 of MQTT 3.1.1 and of MQTT 5.0): building and parsing. */
module MqttPublish {
  import opened Results
  import opened Bytes
  import opened MqttLength

  datatype IncomingType =
    | CommandRequest | OtaRequest | RealtimeRequest | SystemMonitorRequest | DiagRequest | ConfigPullRequest
    | ConfigApplyRequest | ConfigDeleteRequest | ConfigRestoreRequest | RecordingRequest | RecordingAck

  /** The request topics, each with the type of its messages, in the order they are compared. */
  datatype Config = Config(mqtt5: bool, maxPayloadBytes: nat, machineCode: bytes, topics: seq<(IncomingType, bytes)>)

  const SLASH: byte := 0x2F

  type uint16 = x: int | 0 <= x < 0x1_0000

  const SIZE_MODULUS := 0x1_0000_0000_0000_0000

  function ScopedTopic(topic: bytes, machineCode: bytes): bytes {
    if topic == [] || machineCode == [] then topic
    else
      var suffix := [SLASH] + machineCode;
      if |topic| >= |suffix| && topic[|topic| - |suffix|..] == suffix then topic else topic + suffix
  }

  /** Scoping adds the machine code behind a slash, once: a topic that ends with it stays as it is. */
  lemma ScopedOnce(topic: bytes, machineCode: bytes)
    requires topic != [] && machineCode != []
    ensures var scoped, suffix := ScopedTopic(topic, machineCode), [SLASH] + machineCode;
            && topic <= scoped && |scoped| >= |suffix| && scoped[|scoped| - |suffix|..] == suffix
            && (scoped == topic || scoped == topic + suffix) && ScopedTopic(scoped, machineCode) == scoped
  {
  }

  function IncomingPacketLimit(cfg: Config): nat {
    if cfg.maxPayloadBytes < 512 * 1024 then 512 * 1024 else cfg.maxPayloadBytes
  }

  // ----- building -----

  function TwoBytes(n: uint16): (r: bytes)
    ensures |r| == 2
  {
    [n / 256, n % 256]
  }

  lemma HighByteFirst(n: uint16)
    ensures n == TwoBytes(n)[0] as int * 256 + TwoBytes(n)[1]
  {
  }

  function Word(high: byte, low: byte): uint16 {
    high as int * 256 + low as int
  }

  function ClampedQos(qos: int): int {
    if qos < 0 then 0 else if qos > 2 then 2 else qos
  }

  /** What follows the fixed header of a PUBLISH packet, before the payload. */
  function VariableHeader(cfg: Config, topic: bytes, packetId: uint16, qos: int): bytes
    requires |topic| <= 0xFFFF
  {
    TwoBytes(|topic|) + topic + IdAndProperties(cfg, packetId, qos)
  }

  /** The packet identifier above QoS 0, and no properties. */
  function IdAndProperties(cfg: Config, packetId: uint16, qos: int): bytes {
    (if ClampedQos(qos) > 0 then TwoBytes(packetId) else []) + (if cfg.mqtt5 then Varint(0) else [])
  }

  function FirstByte(qos: int): byte {
    if ClampedQos(qos) == 0 then 0x30 else if ClampedQos(qos) == 1 then 0x32 else 0x34
  }

  /** Topics of more than 65535 bytes cannot be sent. */
  method BuildPublishPacket(cfg: Config, topic: bytes, payload: bytes, packetId: uint16, qos: int)
    returns (r: Result<bytes>)
    ensures r.Ok? <==> |topic| <= 0xFFFF
    ensures r.Ok? ==>
              var header := VariableHeader(cfg, topic, packetId, qos);
              r.value == [FirstByte(qos)] + Varint(|header| + |payload|) + (header + payload)
  {
    hide Varint;
    if |topic| > 0xFFFF {
      return Failed;
    }
    var level := ClampedQos(qos);
    var variableHeader: bytes := TwoBytes(|topic|) + topic;
    if level > 0 {
      variableHeader := variableHeader + TwoBytes(packetId);
    }
    if cfg.mqtt5 {
      variableHeader := AppendRemainingLength(variableHeader, 0);
    }
    assert variableHeader == VariableHeader(cfg, topic, packetId, qos);
    var packet: bytes := [if level == 0 then 0x30 else if level == 1 then 0x32 else 0x34];
    packet := AppendRemainingLength(packet, |variableHeader| + |payload|);
    packet := packet + variableHeader;
    packet := packet + payload;
    r := Ok(packet);
  }

  // ----- parsing -----

  /** `NotPublish`: another packet type. `Unknown`: a topic that nobody asked for. */
  datatype Parsed =
    | NotPublish
    | Unknown(packetId: uint16)
    | Publish(kind: IncomingType, topic: bytes, payload: bytes, packetId: uint16)

  /** Request topic `j` is the first from position `i` on that equals the topic. */
  predicate FirstEqual(cfg: Config, topic: bytes, i: nat, j: nat) {
    && i <= j < |cfg.topics| && topic == ScopedTopic(cfg.topics[j].1, cfg.machineCode)
    && forall k :: i <= k < j ==> topic != ScopedTopic(cfg.topics[k].1, cfg.machineCode)
  }

  /** The type of the first request topic that equals `topic`, from position `i`. */
  function KindFrom(cfg: Config, topic: bytes, i: nat): (r: Option<IncomingType>)
    ensures r.Some? <==> exists j :: i <= j < |cfg.topics| && topic == ScopedTopic(cfg.topics[j].1, cfg.machineCode)
    ensures r.Some? ==> exists j :: i <= j < |cfg.topics| && FirstEqual(cfg, topic, i, j) && r.value == cfg.topics[j].0
    decreases |cfg.topics| - i
  {
    if i >= |cfg.topics| then None
    else if topic == ScopedTopic(cfg.topics[i].1, cfg.machineCode) then
      assert FirstEqual(cfg, topic, i, i);
      Some(cfg.topics[i].0)
    else
      var later := KindFrom(cfg, topic, i + 1);
      assert forall j :: FirstEqual(cfg, topic, i + 1, j) ==> FirstEqual(cfg, topic, i, j);
      later
  }

  function Classified(cfg: Config, topic: bytes, payload: bytes, packetId: uint16): Parsed {
    match KindFrom(cfg, topic, 0)
    case None => Unknown(packetId)
    case Some(kind) => Publish(kind, topic, payload, packetId)
  }

  /** The property length: as many bytes as announce another, in 64-bit arithmetic. */
  function PropertiesFrom(packet: bytes, cursor: nat, multiplier: nat, value: nat): Result<Length>
    decreases |packet| - cursor
  {
    if cursor >= |packet| then Failed
    else
      var sum := (value + packet[cursor] % 128 * multiplier) % SIZE_MODULUS;
      if packet[cursor] >= 128 then PropertiesFrom(packet, cursor + 1, multiplier * 128 % SIZE_MODULUS, sum)
      else Ok(Length(sum, cursor + 1))
  }

  /** The position behind the properties. */
  function AfterProperties(cfg: Config, packet: bytes, cursor: nat): (r: Result<nat>)
    requires cursor <= |packet|
    ensures r.Ok? ==> r.value <= |packet|
  {
    if !cfg.mqtt5 then Ok(cursor)
    else
      var length := PropertiesFrom(packet, cursor, 1, 0);
      if length.Failed? then Failed
      else
        var next := (length.value.next + length.value.value) % SIZE_MODULUS;
        if next > |packet| then Failed else Ok(next)
  }

  /** The packet behind its topic, which ends at `cursor`. */
  function ParseRest(cfg: Config, packet: bytes, topic: bytes, cursor: nat): Result<Parsed>
    requires packet != [] && cursor <= |packet|
  {
    var qos := packet[0] / 2 % 4;
    if qos > 0 && cursor + 2 > |packet| then Failed
    else
      var packetId: uint16 := if qos > 0 then Word(packet[cursor], packet[cursor + 1]) else 0;
      var after := AfterProperties(cfg, packet, if qos > 0 then cursor + 2 else cursor);
      if after.Failed? then Failed else Ok(Classified(cfg, topic, packet[after.value..], packetId))
  }

  function Parse(cfg: Config, packet: bytes): Result<Parsed> {
    if packet == [] || packet[0] / 16 != 3 then Ok(NotPublish)
    else
      var length := LengthFrom(packet, 1, 1, 0);
      if length.Failed? then Failed
      else
        var headerSize := length.value.next;
        if length.value.value > IncomingPacketLimit(cfg) || |packet| > headerSize + IncomingPacketLimit(cfg) then Failed
        else if headerSize + 2 > |packet| then Failed
        else
          var topicLength := Word(packet[headerSize], packet[headerSize + 1]);
          var cursor := headerSize + 2;
          if cursor + topicLength > |packet| then Failed
          else ParseRest(cfg, packet, packet[cursor..cursor + topicLength], cursor + topicLength)
  }

  method ParsePublishPacket(cfg: Config, packet: bytes) returns (r: Result<Parsed>)
    ensures r == Parse(cfg, packet)
  {
    hide LengthFrom, Classified, PropertiesFrom;
    if packet == [] || packet[0] / 16 != 3 {
      return Ok(NotPublish);
    }
    var length := DecodeRemainingLength(packet);
    if length.Failed? {
      return Failed;
    }
    var limit := IncomingPacketLimit(cfg);
    var cursor := length.value.next;
    if length.value.value > limit || |packet| > cursor + limit {
      return Failed;
    }
    if cursor + 2 > |packet| {
      return Failed;
    }
    var topicLength := Word(packet[cursor], packet[cursor + 1]);
    cursor := cursor + 2;
    if cursor + topicLength > |packet| {
      return Failed;
    }
    var topic := packet[cursor..cursor + topicLength];
    cursor := cursor + topicLength;
    var packetId: uint16 := 0;
    if packet[0] / 2 % 4 > 0 {
      if cursor + 2 > |packet| {
        return Failed;
      }
      packetId := Word(packet[cursor], packet[cursor + 1]);
      cursor := cursor + 2;
    }
    if cfg.mqtt5 {
      var properties := DecodeProperties(packet, cursor);
      if properties.Failed? {
        return Failed;
      }
      cursor := (properties.value.next + properties.value.value) % SIZE_MODULUS;
      if cursor > |packet| {
        return Failed;
      }
    }
    r := Ok(Classified(cfg, topic, packet[cursor..], packetId));
  }

  method DecodeProperties(packet: bytes, start: nat) returns (r: Result<Length>)
    ensures r == PropertiesFrom(packet, start, 1, 0)
  {
    var multiplier: nat, value: nat, cursor: nat := 1, 0, start;
    var more := true;
    while more
      invariant more ==> PropertiesFrom(packet, start, 1, 0) == PropertiesFrom(packet, cursor, multiplier, value)
      invariant !more ==> PropertiesFrom(packet, start, 1, 0) == Ok(Length(value, cursor))
      decreases more, |packet| - cursor
    {
      if cursor >= |packet| {
        return Failed;
      }
      var encoded := packet[cursor];
      cursor := cursor + 1;
      value := (value + encoded % 128 * multiplier) % SIZE_MODULUS;
      multiplier := multiplier * 128 % SIZE_MODULUS;
      more := encoded >= 128;
    }
    r := Ok(Length(value, cursor));
  }

  // ----- the round trip -----

  /** Parsing behind the topic of a built packet. */
  lemma RestRoundTrip(cfg: Config, before: bytes, topic: bytes, payload: bytes, packetId: uint16, qos: int)
    requires before != [] && before[0] == FirstByte(qos)
    requires |before + IdAndProperties(cfg, packetId, qos) + payload| < SIZE_MODULUS
    ensures ParseRest(cfg, before + IdAndProperties(cfg, packetId, qos) + payload, topic, |before|)
         == Ok(Classified(cfg, topic, payload, if ClampedQos(qos) > 0 then packetId else 0))
  {
    hide Classified, AfterProperties;
    var packet := before + IdAndProperties(cfg, packetId, qos) + payload;
    assert packet[0] == before[0];
    FirstByteQos(qos);
    var id: bytes := if ClampedQos(qos) > 0 then TwoBytes(packetId) else [];
    if id != [] {
      assert packet[|before|] == id[0] && packet[|before| + 1] == id[1];
    }
    assert packet == before + id + (if cfg.mqtt5 then Varint(0) else []) + payload;
    PropertiesSkipped(cfg, before + id, payload);
  }

  lemma FirstByteQos(qos: int)
    ensures FirstByte(qos) / 2 % 4 == ClampedQos(qos)
  {
  }

  /** No properties, and the payload behind them. */
  lemma PropertiesSkipped(cfg: Config, before: bytes, payload: bytes)
    requires |before + (if cfg.mqtt5 then Varint(0) else []) + payload| < SIZE_MODULUS
    ensures var packet := before + (if cfg.mqtt5 then Varint(0) else []) + payload;
            var r := AfterProperties(cfg, packet, |before|);
            r.Ok? && packet[r.value..] == payload
  {
    var packet := before + (if cfg.mqtt5 then Varint(0) else []) + payload;
    if cfg.mqtt5 {
      assert packet[|before|] == 0;
      assert packet[|before| + 1..] == payload;
    } else {
      assert packet[|before|..] == payload;
    }
  }

  /** Parsing a built packet gives back the topic, the payload and, above QoS 0, the packet identifier, exactly
      when the packet is within the receiver's limit and the largest length MQTT can express. */
  lemma PublishRoundTrip(cfg: Config, topic: bytes, payload: bytes, packetId: uint16, qos: int, packet: bytes)
    requires |topic| <= 0xFFFF
    requires var header := VariableHeader(cfg, topic, packetId, qos);
             packet == [FirstByte(qos)] + Varint(|header| + |payload|) + (header + payload)
    requires |packet| < SIZE_MODULUS
    ensures var remaining := |VariableHeader(cfg, topic, packetId, qos)| + |payload|;
            Parse(cfg, packet)
            == if remaining <= MAX_REMAINING_LENGTH && remaining <= IncomingPacketLimit(cfg)
               then Ok(Classified(cfg, topic, payload, if ClampedQos(qos) > 0 then packetId else 0))
               else Failed
  {
    hide Varint, LengthFrom, Classified, ParseRest, IdAndProperties, Parse, FirstByte;
    var header := VariableHeader(cfg, topic, packetId, qos);
    var rest := IdAndProperties(cfg, packetId, qos) + payload;
    var remaining := |header| + |payload|;
    LengthRoundTrip(FirstByte(qos), remaining, header + payload);
    FirstByteIsPublish(qos);
    var front := [FirstByte(qos)] + Varint(remaining);
    assert header + payload == TwoBytes(|topic|) + topic + rest;
    assert packet == front + (TwoBytes(|topic|) + topic + rest);
    ParseBuilt(cfg, packet, front, topic, rest, remaining);
    if remaining <= MAX_REMAINING_LENGTH && remaining <= IncomingPacketLimit(cfg) {
      var before := front + TwoBytes(|topic|) + topic;
      assert packet == before + IdAndProperties(cfg, packetId, qos) + payload;
      RestRoundTrip(cfg, before, topic, payload, packetId, qos);
    }
  }

  lemma FirstByteIsPublish(qos: int)
    ensures FirstByte(qos) / 16 == 3
  {
  }

  /** Parsing a packet whose fixed header and topic are in place. */
  lemma ParseBuilt(cfg: Config, packet: bytes, front: bytes, topic: bytes, rest: bytes, remaining: nat)
    requires front != [] && front[0] / 16 == 3 && |topic| <= 0xFFFF
    requires packet == front + (TwoBytes(|topic|) + topic + rest) && remaining == 2 + |topic| + |rest|
    requires LengthFrom(packet, 1, 1, 0) == if remaining <= MAX_REMAINING_LENGTH
            then Ok(Length(remaining, |front|)) else Failed
    ensures Parse(cfg, packet)
            == if remaining <= MAX_REMAINING_LENGTH && remaining <= IncomingPacketLimit(cfg)
               then ParseRest(cfg, packet, topic, |front| + 2 + |topic|) else Failed
  {
    hide LengthFrom, ParseRest;
    var size := |front|;
    assert packet[size] == |topic| / 256 && packet[size + 1] == |topic| % 256;
    assert packet[size + 2..size + 2 + |topic|] == topic;
  }

  // ----- properties -----

  /** Where a length of four bytes is read, the 64-bit loop reads the same. */
  lemma {:induction false} PropertiesAgree(packet: bytes, offset: nat, multiplier: nat, value: nat)
    requires LengthFrom(packet, offset, multiplier, value).Ok?
    requires LengthFrom(packet, offset, multiplier, value).value.value < SIZE_MODULUS
    ensures value <= LengthFrom(packet, offset, multiplier, value).value.value
    ensures PropertiesFrom(packet, offset, multiplier, value) == LengthFrom(packet, offset, multiplier, value)
    decreases |packet| - offset
  {
    var sum := value + packet[offset] % 128 * multiplier;
    assert multiplier <= LAST_MULTIPLIER;
    hide LengthFrom, PropertiesFrom;
    OneLengthByte(packet, offset, multiplier, value, sum);
    if packet[offset] >= 128 {
      PropertiesAgree(packet, offset + 1, multiplier * 128, sum);
    }
    Below(sum);
    Below(multiplier * 128);
  }

  lemma Below(x: nat)
    requires x < SIZE_MODULUS
    ensures x % SIZE_MODULUS == x
  {
  }

  /** One byte of either loop. */
  lemma OneLengthByte(packet: bytes, offset: nat, multiplier: nat, value: nat, sum: nat)
    requires offset < |packet| && multiplier <= LAST_MULTIPLIER && sum == value + packet[offset] % 128 * multiplier
    ensures LengthFrom(packet, offset, multiplier, value)
         == if packet[offset] >= 128 then LengthFrom(packet, offset + 1, multiplier * 128, sum)
            else Ok(Length(sum, offset + 1))
    ensures PropertiesFrom(packet, offset, multiplier, value)
         == if packet[offset] >= 128
            then PropertiesFrom(packet, offset + 1, multiplier * 128 % SIZE_MODULUS, sum % SIZE_MODULUS)
            else Ok(Length(sum % SIZE_MODULUS, offset + 1))
  {
  }

  /** Whatever properties a packet has, the payload stands behind them. */
  lemma PayloadBehindProperties(cfg: Config, before: bytes, properties: bytes, payload: bytes)
    requires cfg.mqtt5 && |properties| <= MAX_REMAINING_LENGTH
    requires |before + Varint(|properties|) + (properties + payload)| < SIZE_MODULUS
    ensures var packet := before + Varint(|properties|) + (properties + payload);
            var r := AfterProperties(cfg, packet, |before|);
            r.Ok? && packet[r.value..] == payload
  {
    hide Varint, LengthFrom, PropertiesFrom;
    var packet := before + Varint(|properties|) + (properties + payload);
    MaxIsPow();
    DecodeVarint(before, |properties|, properties + payload, 0, 0);
    PropertiesAgree(packet, |before|, 1, 0);
    assert packet[|before + Varint(|properties|)| + |properties|..] == payload;
  }

  /** A PUBLISH packet of MQTT 5.0 with any properties is parsed to its topic, its payload and its identifier. */
  lemma PublishWithProperties(cfg: Config, topic: bytes, properties: bytes, payload: bytes, packetId: uint16, qos: int,
                              packet: bytes)
    requires cfg.mqtt5 && |topic| <= 0xFFFF && |properties| <= MAX_REMAINING_LENGTH && |packet| < SIZE_MODULUS
    requires var id: bytes := if ClampedQos(qos) > 0 then TwoBytes(packetId) else [];
             var rest := id + (Varint(|properties|) + (properties + payload));
             && 2 + |topic| + |rest| <= MAX_REMAINING_LENGTH && 2 + |topic| + |rest| <= IncomingPacketLimit(cfg)
             && packet == [FirstByte(qos)] + Varint(2 + |topic| + |rest|) + (TwoBytes(|topic|) + topic + rest)
    ensures Parse(cfg, packet)
         == Ok(Classified(cfg, topic, payload, if ClampedQos(qos) > 0 then packetId else 0))
  {
    hide Varint, LengthFrom, Classified, ParseRest, Parse, FirstByte, TwoBytes;
    var id: bytes := if ClampedQos(qos) > 0 then TwoBytes(packetId) else [];
    var rest := id + (Varint(|properties|) + (properties + payload));
    var remaining := 2 + |topic| + |rest|;
    LengthRoundTrip(FirstByte(qos), remaining, TwoBytes(|topic|) + topic + rest);
    FirstByteIsPublish(qos);
    var front := [FirstByte(qos)] + Varint(remaining);
    ParseBuilt(cfg, packet, front, topic, rest, remaining);
    var before := front + TwoBytes(|topic|) + topic;
    assert packet == before + rest;
    RestWithProperties(cfg, before, topic, properties, payload, packetId, qos);
  }

  lemma RestWithProperties(cfg: Config, before: bytes, topic: bytes, properties: bytes, payload: bytes,
                           packetId: uint16, qos: int)
    requires cfg.mqtt5 && |properties| <= MAX_REMAINING_LENGTH && before != [] && before[0] == FirstByte(qos)
    requires var id: bytes := if ClampedQos(qos) > 0 then TwoBytes(packetId) else [];
             |before + (id + (Varint(|properties|) + (properties + payload)))| < SIZE_MODULUS
    ensures var id: bytes := if ClampedQos(qos) > 0 then TwoBytes(packetId) else [];
            ParseRest(cfg, before + (id + (Varint(|properties|) + (properties + payload))), topic, |before|)
            == Ok(Classified(cfg, topic, payload, if ClampedQos(qos) > 0 then packetId else 0))
  {
    hide Classified, AfterProperties, Varint;
    var id: bytes := if ClampedQos(qos) > 0 then TwoBytes(packetId) else [];
    var packet := before + (id + (Varint(|properties|) + (properties + payload)));
    FirstByteQos(qos);
    assert packet[0] == before[0];
    if id != [] {
      assert packet[|before|] == id[0] && packet[|before| + 1] == id[1];
    }
    assert packet == before + id + Varint(|properties|) + (properties + payload);
    PayloadBehindProperties(cfg, before + id, properties, payload);
  }
}
