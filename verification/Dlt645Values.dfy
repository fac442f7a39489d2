/** The values DL/T 645 frames carry: BCD and binary numbers, low byte first, scaled. */
module Dlt645Values {
  import opened Results
  import opened Integers
  import opened Sequences
  import opened Reals
  import opened Decimal
  import opened Bytes
  import opened Bits
  import opened Hexadecimal
  import opened Rounding
  import opened Dlt645Frames

  // ----- numbers as bytes -----

  /** The value of the bytes to base 256, low byte first. */
  function LittleEndian(s: bytes): nat {
    if s == [] then 0 else s[0] + 256 * LittleEndian(s[1..])
  }

  /** The value of the bytes as pairs of decimal digits, low pair first. */
  function BcdMagnitude(s: bytes): Result<nat> {
    if s == [] then Ok(0)
    else
      var rest := BcdMagnitude(s[1..]);
      if s[0] / 16 > 9 || s[0] % 16 > 9 || rest.Failed? then Failed
      else Ok(s[0] / 16 * 10 + s[0] % 16 + 100 * rest.value)
  }

  /** A top digit of ten or more is no digit: ten and eleven are a minus sign, the others nothing. */
  function BcdNumber(s: bytes): Result<int> {
    if s != [] && s[|s| - 1] / 16 >= 10 then
      var top := s[|s| - 1];
      match BcdMagnitude(s[|s| - 1 := top % 16])
      case Failed => Failed
      case Ok(n) => Ok(if top / 16 <= 11 then 0 - n as int else n)
    else
      match BcdMagnitude(s)
      case Failed => Failed
      case Ok(n) => Ok(n)
  }

  /** A meter address travels as the BCD form of its number. */
  lemma {:induction false} AddressIsBcd(text: string)
    requires |text| % 2 == 0 && AllDigits(text)
    ensures BcdMagnitude(AddressBytes(text)) == Ok(NatValue(text))
    decreases |text|
  {
    hide BcdMagnitude, NatValue, DigitValue;
    if text == "" {
      BcdNothing([]);
    } else {
      var n := |text| - 2;
      AddressIsBcd(text[..n]);
      LastTwoDigits(text);
      BcdPair(DigitValue(text[n]), DigitValue(text[n + 1]), AddressBytes(text[..n]));
    }
  }

  lemma LastTwoDigits(text: string)
    requires |text| >= 2 && AllDigits(text)
    ensures var n := |text| - 2;
            NatValue(text) == 100 * NatValue(text[..n]) + 10 * DigitValue(text[n]) + DigitValue(text[n + 1])
  {
    var n := |text| - 2;
    assert text[..n + 1][..n] == text[..n];
  }

  lemma BcdPair(high: nat, low: nat, rest: bytes)
    requires high < 10 && low < 10 && BcdMagnitude(rest).Ok?
    ensures BcdMagnitude([high * 16 + low] + rest) == Ok(100 * BcdMagnitude(rest).value + 10 * high + low)
  {
    var s := [high * 16 + low] + rest;
    assert s[0] / 16 == high && s[0] % 16 == low;
    assert s[1..] == rest;
  }

  /** Padding an address with zeros does not change its number. */
  lemma {:induction false} PaddingKeepsNumber(n: nat, digits: string)
    requires AllDigits(digits)
    ensures NatValue(Repeat('0', n) + digits) == NatValue(digits)
    decreases n
  {
    if n == 0 {
      assert Repeat('0', 0) + digits == digits;
    } else {
      assert (Repeat('0', n) + digits)[1..] == Repeat('0', n - 1) + digits;
      LeadingZero(Repeat('0', n) + digits);
      PaddingKeepsNumber(n - 1, digits);
    }
  }

  // ----- decoding -----

  lemma LittleEndianStep(s: bytes, i: nat)
    requires i < |s|
    ensures LittleEndian(s[..i + 1]) == LittleEndian(s[..i]) + s[i] * Power(256, i)
  {
    assert s[..i + 1] == s[..i] + [s[i]];
    LittleEndianPush(s[..i], s[i]);
  }

  lemma {:induction false} LittleEndianPush(s: bytes, b: byte)
    ensures LittleEndian(s + [b]) == LittleEndian(s) + b * Power(256, |s|)
  {
    if s == [] {
      assert [b][1..] == [];
    } else {
      LittleEndianPush(s[1..], b);
      assert (s + [b])[1..] == s[1..] + [b];
      var p := Power(256, |s| - 1);
      assert b * Power(256, |s|) == 256 * (b * p);
    }
  }

  method DecodeUnsignedLittleEndian(s: bytes) returns (r: Result<nat>)
    ensures r == if |s| > 8 then Failed else Ok(LittleEndian(s))
  {
    hide LittleEndian;
    if |s| > 8 {
      return Failed;
    }
    var value: nat := 0;
    LittleEndianNothing(s);
    for i := 0 to |s|
      invariant value == LittleEndian(s[..i])
    {
      LittleEndianStep(s, i);
      value := value + s[i] * Power(256, i);
    }
    assert s[..|s|] == s;
    r := Ok(value);
  }

  lemma LittleEndianNothing(s: bytes)
    ensures LittleEndian(s[..0]) == 0
  {
  }

  /** The text's value is the magnitude of the bytes read so far, from the top. */
  lemma DigitsPush(digits: string, high: nat, low: nat)
    requires AllDigits(digits) && high < 10 && low < 10
    ensures AllDigits(digits + [DigitChar(high), DigitChar(low)])
    ensures NatValue(digits + [DigitChar(high), DigitChar(low)]) == 100 * NatValue(digits) + 10 * high + low
  {
    var one := digits + [DigitChar(high)];
    assert digits + [DigitChar(high), DigitChar(low)] == one + [DigitChar(low)];
    assert one[..|digits|] == digits;
    assert (one + [DigitChar(low)])[..|one|] == one;
  }

  lemma {:induction false} LeadingZero(digits: string)
    requires AllDigits(digits) && digits != "" && digits[0] == '0'
    ensures NatValue(digits) == NatValue(digits[1..])
  {
    var n := |digits| - 1;
    if n > 0 {
      LeadingZero(digits[..n]);
      assert digits[..n][1..] == digits[1..][..n - 1];
    }
  }

  method ReadDigits(s: bytes) returns (r: Result<nat>)
    ensures r == BcdMagnitude(s)
  {
    hide BcdMagnitude, NatValue;
    var digits := "";
    BcdNothing(s);
    for i := |s| downto 0
      invariant AllDigits(digits) && BcdMagnitude(s[i..]) == Ok(NatValue(digits))
    {
      BcdStep(s, i);
      if s[i] / 16 > 9 || s[i] % 16 > 9 {
        BcdFails(s, i);
        return Failed;
      }
      DigitsPush(digits, s[i] / 16, s[i] % 16);
      digits := digits + [DigitChar(s[i] / 16), DigitChar(s[i] % 16)];
    }
    assert s[0..] == s;
    ghost var all := NatValue(digits);
    while digits != "" && digits[0] == '0'
      invariant AllDigits(digits) && NatValue(digits) == all
      decreases |digits|
    {
      LeadingZero(digits);
      digits := digits[1..];
    }
    NatValueZero();
    if digits == "" {
      digits := "0";
    }
    r := Ok(NatValue(digits));
  }

  lemma NatValueZero()
    ensures NatValue("") == 0 && NatValue("0") == 0
  {
    assert "0"[..0] == "";
  }

  lemma BcdNothing(s: bytes)
    ensures BcdMagnitude(s[|s|..]) == Ok(0) && NatValue("") == 0
  {
  }

  lemma BcdStep(s: bytes, i: nat)
    requires i < |s|
    ensures BcdMagnitude(s[i..])
         == if s[i] / 16 > 9 || s[i] % 16 > 9 || BcdMagnitude(s[i + 1..]).Failed? then Failed
            else Ok(s[i] / 16 * 10 + s[i] % 16 + 100 * BcdMagnitude(s[i + 1..]).value)
  {
    assert s[i..][1..] == s[i + 1..];
  }

  lemma {:induction false} BcdFails(s: bytes, i: nat)
    requires i < |s| && (s[i] / 16 > 9 || s[i] % 16 > 9)
    ensures BcdMagnitude(s).Failed?
  {
    if i > 0 {
      BcdFails(s[1..], i - 1);
    }
  }

  /** A raw number scaled. */
  function Times(n: int, scale: real): real {
    n as real * scale
  }

  method DecodeBcdLittleEndian(s: bytes, scale: real) returns (r: Result<real>)
    ensures r == match BcdNumber(s) case Failed => Failed case Ok(n) => Ok(Times(n, scale))
  {
    hide BcdMagnitude, Times;
    var negative := false;
    var digits := s;
    if s != [] && s[|s| - 1] / 16 >= 10 {
      var top := s[|s| - 1];
      negative := top / 16 == 10 || top / 16 == 11;
      digits := s[|s| - 1 := top % 16];
    }
    var magnitude := ReadDigits(digits);
    if magnitude.Failed? {
      return Failed;
    }
    var value := Times(magnitude.value, scale);
    if negative {
      Negated(magnitude.value, scale);
    }
    r := Ok(if negative then -value else value);
  }

  lemma Negated(n: int, scale: real)
    ensures -Times(n, scale) == Times(-n, scale)
  {
    assert (-n) as real == -(n as real);
  }

  // ----- encoding -----

  /** What a write specification says about the value. */
  datatype WriteSpec = WriteSpec(dataType: string, pointDataType: string, byteCount: int, unit: int,
                                 fixedDataHex: string, scale: real, offset: real)

  function TypeOf(spec: WriteSpec): string {
    if spec.dataType == "" then spec.pointDataType else spec.dataType
  }

  /** The tolerance for a value that should be whole. */
  const WHOLE: real := 0.000000001

  function ScaledInteger(value: real, spec: WriteSpec): (r: Result<nat>)
    ensures r.Ok? ==> Abs(spec.scale) >= SMALLEST_SCALE
  {
    if Abs(spec.scale) < SMALLEST_SCALE then Failed
    else
      var raw := Quotient(value, spec.scale, spec.offset);
      if raw < 0.0 || Abs(raw - Llround(raw) as real) > WHOLE then Failed
      else Ok(ToUint64(Llround(raw)))
  }

  function EncodeBcdByte(value: int): (r: Result<byte>)
    ensures r.Ok? <==> 0 <= value <= 99
    ensures r.Ok? ==> BcdMagnitude([r.value]) == Ok(value)
  {
    if value < 0 || value > 99 then Failed
    else
      var b: byte := value / 10 * 16 + value % 10;
      assert [b][1..] == [];
      assert b / 16 == value / 10 && b % 16 == value % 10;
      Ok(b)
  }

  /** Low bytes first; refused exactly when the number needs more bytes. */
  method EncodeUnsigned(n: nat, byteCount: nat) returns (r: Result<bytes>)
    ensures r.Ok? <==> n < Power(256, byteCount)
    ensures r.Ok? ==> |r.value| == byteCount && LittleEndian(r.value) == n
  {
    hide LittleEndian, Power, Carried;
    NothingCarried(n);
    var payload: bytes, raw := [], n;
    LittleEndianNothing([]);
    PowerStep(256, 0);
    for i := 0 to byteCount
      invariant |payload| == i
      invariant Carried(n, LittleEndian(payload), raw, Power(256, i))
    {
      PowerStep(256, i);
      LittleEndianPush(payload, raw % 256);
      Carry(n, LittleEndian(payload), raw, Power(256, i), 256);
      payload := payload + [raw % 256];
      raw := raw / 256;
    }
    Leftover(n, LittleEndian(payload), raw, Power(256, byteCount));
    r := if raw != 0 then Failed else Ok(payload);
  }

  /** `done` has been written in bytes worth `p` in all; `raw` is left. */
  predicate Carried(n: nat, done: nat, raw: nat, p: nat) {
    n == done + raw * p && done < p
  }

  /** Moving one digit of the rest over to the digits already written. */
  lemma Carry(n: nat, done: nat, raw: nat, p: nat, base: nat)
    requires base > 0 && Carried(n, done, raw, p)
    ensures Carried(n, done + raw % base * p, raw / base, base * p)
  {
    var q, d := raw / base, raw % base;
    assert raw == base * q + d;
    Distribute(base, q, d, p);
    TimesMonotone(d + 1, base, p);
    assert (d + 1) * p == d * p + p;
  }

  lemma Distribute(base: nat, q: nat, d: nat, p: nat)
    ensures (base * q + d) * p == q * (base * p) + d * p
  {
    assert (base * q + d) * p == (base * q) * p + d * p;
    assert (base * q) * p == q * (base * p);
  }

  lemma TimesMonotone(a: nat, b: nat, p: nat)
    requires a <= b
    ensures a * p <= b * p
  {
    assert (b - a) * p >= 0;
  }

  /** Nothing is left exactly when the number fits. */
  lemma Leftover(n: nat, done: nat, raw: nat, p: nat)
    requires Carried(n, done, raw, p)
    ensures n < p <==> raw == 0
    ensures raw == 0 ==> n == done
  {
    if raw > 0 {
      AtLeastOnce(raw, p);
    }
  }

  lemma NothingCarried(n: nat)
    ensures Carried(n, 0, n, 1)
  {
  }

  lemma {:induction false} BcdPush(s: bytes, b: byte)
    requires BcdMagnitude(s).Ok? && b / 16 <= 9 && b % 16 <= 9
    ensures BcdMagnitude(s + [b]) == Ok(BcdMagnitude(s).value + (b / 16 * 10 + b % 16) * Power(100, |s|))
  {
    if s == [] {
      assert [b][1..] == [];
    } else {
      BcdPush(s[1..], b);
      assert (s + [b])[1..] == s[1..] + [b];
      var p, d := Power(100, |s| - 1), b / 16 * 10 + b % 16;
      Hundredfold(d, p);
    }
  }

  lemma Hundredfold(d: int, p: int)
    ensures d * (100 * p) == 100 * (d * p)
  {
  }

  /** Decimal digit pairs, low pair first; refused exactly when the number needs more bytes. */
  method EncodeBcd(n: nat, byteCount: nat) returns (r: Result<bytes>)
    ensures r.Ok? <==> n < Power(100, byteCount)
    ensures r.Ok? ==> |r.value| == byteCount && BcdMagnitude(r.value) == Ok(n)
  {
    hide BcdMagnitude, Power, EncodeBcdByte, Carried;
    NothingCarried(n);
    var payload: bytes, raw := [], n;
    BcdNothing([]);
    PowerStep(100, 0);
    for i := 0 to byteCount
      invariant |payload| == i && BcdMagnitude(payload).Ok?
      invariant Carried(n, BcdMagnitude(payload).value, raw, Power(100, i))
    {
      var b := EncodeBcdByte(raw % 100).value;
      PowerStep(100, i);
      BcdOneByte(b);
      BcdPush(payload, b);
      Carry(n, BcdMagnitude(payload).value, raw, Power(100, i), 100);
      payload := payload + [b];
      raw := raw / 100;
    }
    Leftover(n, BcdMagnitude(payload).value, raw, Power(100, byteCount));
    r := if raw != 0 then Failed else Ok(payload);
  }

  lemma BcdOneByte(b: byte)
    ensures BcdMagnitude([b]) == if b / 16 > 9 || b % 16 > 9 then Failed else Ok(b / 16 * 10 + b % 16)
  {
    assert [b][1..] == [];
  }

  /** The characters people put between hexadecimal bytes. */
  predicate IsSeparator(c: char) {
    IsSpace(c) || c == '-' || c == ':'
  }

  function WithoutSeparators(s: string): string {
    if s == "" then ""
    else WithoutSeparators(s[..|s| - 1]) + (if IsSeparator(s[|s| - 1]) then "" else [s[|s| - 1]])
  }

  method ParseHexBytes(text: string, expectedBytes: nat) returns (r: Result<bytes>)
    ensures r.Ok? <==> |WithoutSeparators(text)| == 2 * expectedBytes && Unhex(WithoutSeparators(text)).Ok?
    ensures r.Ok? ==> |r.value| == expectedBytes && r == Unhex(WithoutSeparators(text))
  {
    hide Unhex;
    var hex := "";
    for i := 0 to |text|
      invariant hex == WithoutSeparators(text[..i])
    {
      assert text[..i + 1][..i] == text[..i];
      if !IsSeparator(text[i]) {
        hex := hex + [text[i]];
      }
    }
    assert text[..|text|] == text;
    if |hex| != expectedBytes * 2 {
      return Failed;
    }
    UnhexLength(hex);
    r := HexDecode(hex);
  }

  predicate ScheduleAllowed(value: real, unit: int) {
    0.0 <= value <= 99.0 && Abs(value - Llround(value) as real) <= WHOLE && unit in {2, 3}
  }

  predicate Numeric(spec: WriteSpec) {
    TypeOf(spec) in ["dlt645_uint_le", "dlt645_bcd"]
  }

  /** The base of the bytes of a numeric type. */
  function Base(spec: WriteSpec): nat {
    if TypeOf(spec) == "dlt645_uint_le" then 256 else 100
  }

  function NumberOf(spec: WriteSpec, payload: bytes): Result<nat> {
    if TypeOf(spec) == "dlt645_uint_le" then Ok(LittleEndian(payload)) else BcdMagnitude(payload)
  }

  predicate Special(spec: WriteSpec) {
    TypeOf(spec) in ["dlt645_none", "dlt645_scheduled_control", "dlt645_fixed_hex"]
  }

  method EncodeWritePayload(value: real, spec: WriteSpec) returns (r: Result<bytes>)
    ensures !Special(spec) ==>
              (r.Ok? <==> Numeric(spec) && 1 <= spec.byteCount <= 8 && ScaledInteger(value, spec).Ok?
                          && ScaledInteger(value, spec).value < Power(Base(spec), spec.byteCount))
    ensures Numeric(spec) && r.Ok? ==>
            |r.value| == spec.byteCount && NumberOf(spec, r.value) == ScaledInteger(value, spec)
    ensures TypeOf(spec) == "dlt645_none" ==> r == Ok([])
    ensures TypeOf(spec) == "dlt645_scheduled_control" ==>
              (r.Ok? <==> ScheduleAllowed(value, spec.unit))
              && (r.Ok? ==>
                    |r.value| == 2 && BcdMagnitude(r.value[..1]) == Ok(Llround(value)) && r.value[1] == spec.unit)
    ensures TypeOf(spec) == "dlt645_fixed_hex" ==>
              var hex := WithoutSeparators(spec.fixedDataHex);
              && (r.Ok? <==> spec.byteCount >= 0 && |hex| == 2 * spec.byteCount && Unhex(hex).Ok?)
              && (r.Ok? ==> |r.value| == spec.byteCount && r == Unhex(hex))
  {
    hide ScaledInteger, BcdMagnitude, LittleEndian, Power, Llround, Unhex, WithoutSeparators;
    var dataType := TypeOf(spec);
    if dataType == "dlt645_none" {
      return Ok([]);
    }
    if dataType == "dlt645_scheduled_control" {
      r := EncodeSchedule(value, spec.unit);
      return;
    }
    if dataType == "dlt645_fixed_hex" {
      if spec.byteCount < 0 {
        return Failed;
      }
      r := ParseHexBytes(spec.fixedDataHex, spec.byteCount);
      return;
    }
    if spec.byteCount <= 0 || spec.byteCount > 8 {
      return Failed;
    }
    var raw := ScaledInteger(value, spec);
    if raw.Failed? {
      return Failed;
    }
    if dataType == "dlt645_uint_le" {
      r := EncodeUnsigned(raw.value, spec.byteCount);
    } else if dataType == "dlt645_bcd" {
      r := EncodeBcd(raw.value, spec.byteCount);
    } else {
      r := Failed;
    }
  }

  method EncodeSchedule(value: real, unit: int) returns (r: Result<bytes>)
    ensures r.Ok? <==> ScheduleAllowed(value, unit)
    ensures r.Ok? ==> |r.value| == 2 && BcdMagnitude(r.value[..1]) == Ok(Llround(value)) && r.value[1] == unit
  {
    hide BcdMagnitude, Llround;
    if value < 0.0 || value > 99.0 || Abs(value - Llround(value) as real) > WHOLE {
      return Failed;
    }
    if unit != 2 && unit != 3 {
      return Failed;
    }
    RoundedInRange(value);
    var delay, code := EncodeBcdByte(Llround(value)).value, EncodeBcdByte(unit).value;
    assert [delay, code][..1] == [delay];
    r := Ok([delay, code]);
  }

  lemma RoundedInRange(value: real)
    requires 0.0 <= value <= 99.0
    ensures 0 <= Llround(value) <= 99
  {
  }

  // ----- reading a response back -----

  /** The parts of a point definition that reading uses. */
  datatype Point = Point(dataId: string, byteCount: int, dataType: string, bit: int, scale: real, offset: real)

  function TextTypes(): seq<string> {
    ["dlt645_ascii", "dlt645_datetime", "dlt645_hex"]
  }

  /** The numeric value of a payload; texts have the value zero. */
  function ReadValue(payload: bytes, p: Point): Result<real> {
    if p.byteCount > 0 && |payload| < p.byteCount then Failed
    else
      var s := if p.byteCount > 0 then payload[..p.byteCount] else payload;
      if p.dataType in TextTypes() then Ok(0.0)
      else if p.dataType in ["dlt645_uint_le", "dlt645_bitfield_le"] then
        if p.bit >= 0 then
          if p.bit / 8 >= |s| then Failed else Ok(if Bit(s[p.bit / 8], p.bit % 8) then 1.0 else 0.0)
        else if |s| > 8 then Failed
        else Ok(Times(LittleEndian(s), p.scale) + p.offset)
      else
        match BcdNumber(s)
        case Failed => Failed
        case Ok(n) => Ok(Times(n, p.scale) + p.offset)
  }

  method DecodeReadResponse(frame: bytes, p: Point) returns (r: Result<real>)
    ensures r.Ok? ==>
              && DataId(p.dataId).Ok?
              && exists payload :: IsResponse(frame, DataId(p.dataId).value, payload) && ReadValue(payload, p) == r
    ensures r.Failed? && DataId(p.dataId).Ok? ==>
              forall payload :: IsResponse(frame, DataId(p.dataId).value, payload) ==> ReadValue(payload, p).Failed?
  {
    hide DataId, IsResponse, ReadValue;
    var expectedDataId := ParseDataId(p.dataId);
    if expectedDataId.Failed? {
      return Failed;
    }
    var payload := DecodeFrameData(frame, expectedDataId.value);
    if payload.Failed? {
      return Failed;
    }
    r := ValueOf(payload.value, p);
    if r.Failed? {
      forall other | IsResponse(frame, expectedDataId.value, other)
        ensures other == payload.value
      {
        SamePayload(frame, expectedDataId.value, other, payload.value);
      }
    }
  }

  lemma SamePayload(frame: bytes, id: bytes, a: bytes, b: bytes)
    requires |id| == 4 && IsResponse(frame, id, a) && IsResponse(frame, id, b)
    ensures a == b
  {
    hide IsResponse, Unshifted;
    ResponsePayload(frame, id, a);
    ResponsePayload(frame, id, b);
    assert (id + a)[4..] == a && (id + b)[4..] == b;
  }

  method ValueOf(payload: bytes, p: Point) returns (r: Result<real>)
    ensures r == ReadValue(payload, p)
  {
    hide LittleEndian, BcdNumber, Bit, Times;
    if p.byteCount > 0 && |payload| < p.byteCount {
      return Failed;
    }
    var valueBytes := if p.byteCount > 0 then payload[..p.byteCount] else payload;
    if p.dataType in TextTypes() {
      return Ok(0.0);
    }
    if p.dataType == "dlt645_uint_le" || p.dataType == "dlt645_bitfield_le" {
      if p.bit >= 0 {
        var byteIndex := p.bit / 8;
        if byteIndex >= |valueBytes| {
          return Failed;
        }
        return Ok(if Bit(valueBytes[byteIndex], p.bit % 8) then 1.0 else 0.0);
      }
      var raw := DecodeUnsignedLittleEndian(valueBytes);
      if raw.Failed? {
        return Failed;
      }
      return Ok(Times(raw.value, p.scale) + p.offset);
    }
    var scaled := DecodeBcdLittleEndian(valueBytes, p.scale);
    if scaled.Failed? {
      return Failed;
    }
    r := Ok(scaled.value + p.offset);
  }

  // ----- the round trip -----

  /** The point that reads what a specification writes. */
  function Reading(spec: WriteSpec, dataId: string): Point {
    Point(dataId, spec.byteCount, TypeOf(spec), -1, spec.scale, spec.offset)
  }

  /** Scaling the integer back gives the written value, up to the tolerance for whole values. */
  lemma ScaledBack(value: real, spec: WriteSpec)
    requires ScaledInteger(value, spec).Ok?
    requires FitsInt64(Llround(Quotient(value, spec.scale, spec.offset)))
    ensures Abs(Times(ScaledInteger(value, spec).value, spec.scale) + spec.offset - value) <= WHOLE * Abs(spec.scale)
  {
    hide Llround, Pow2, Abs, Times, Quotient;
    var raw := Quotient(value, spec.scale, spec.offset);
    var n := Llround(raw);
    NotNegative(raw);
    Halves(64);
    DivisionUnique(n, Pow2(64), 0, n);
    StepError(n, raw, value, spec);
    AbsSymmetric(raw - n as real, n as real - raw);
    ErrorScaled(n as real - raw, spec.scale, Times(n, spec.scale) + spec.offset - value);
  }

  lemma AbsSymmetric(x: real, y: real)
    requires x == -y
    ensures Abs(x) == Abs(y)
  {
  }

  lemma StepError(n: int, raw: real, value: real, spec: WriteSpec)
    requires Abs(spec.scale) >= SMALLEST_SCALE && raw == Quotient(value, spec.scale, spec.offset)
    ensures Times(n, spec.scale) + spec.offset - value == (n as real - raw) * spec.scale
  {
    assert raw * spec.scale == value - spec.offset;
    assert (n as real - raw) * spec.scale == n as real * spec.scale - raw * spec.scale;
  }

  lemma NotNegative(raw: real)
    requires raw >= 0.0
    ensures Llround(raw) >= 0
  {
  }

  lemma NonNegativeProduct(x: real, y: real)
    requires x >= 0.0 && y >= 0.0
    ensures x * y >= 0.0
  {
  }

  lemma ErrorScaled(d: real, scale: real, e: real)
    requires Abs(d) <= WHOLE && e == d * scale
    ensures Abs(e) <= WHOLE * Abs(scale)
  {
    var size := Abs(scale);
    NonNegativeProduct(WHOLE - d, size);
    NonNegativeProduct(WHOLE + d, size);
    assert (WHOLE - d) * size == WHOLE * size - d * size && (WHOLE + d) * size == WHOLE * size + d * size;
    assert scale < 0.0 ==> d * size == -e;
  }

  lemma {:induction false} MagnitudeDigits(s: bytes)
    requires s != [] && BcdMagnitude(s).Ok?
    ensures s[|s| - 1] / 16 <= 9
  {
    if |s| > 1 {
      MagnitudeDigits(s[1..]);
    }
  }

  /** A payload that carries the scaled integer, with anything behind it, reads back as the written value. */
  lemma PayloadRoundTrip(value: real, spec: WriteSpec, payload: bytes, behind: bytes, dataId: string)
    requires Numeric(spec) && 1 <= spec.byteCount <= 8 && ScaledInteger(value, spec).Ok?
    requires FitsInt64(Llround(Quotient(value, spec.scale, spec.offset)))
    requires |payload| == spec.byteCount && NumberOf(spec, payload) == ScaledInteger(value, spec)
    ensures var r := ReadValue(payload + behind, Reading(spec, dataId));
            r.Ok? && Abs(r.value - value) <= WHOLE * Abs(spec.scale)
  {
    hide LittleEndian, BcdMagnitude, ScaledInteger, Abs, Llround, FitsInt64, Times, Quotient;
    ScaledBack(value, spec);
    assert (payload + behind)[..spec.byteCount] == payload;
    if TypeOf(spec) == "dlt645_bcd" {
      MagnitudeDigits(payload);
    }
  }
}
