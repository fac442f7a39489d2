/** DL/T 645-2007 frames (section 5.2): addresses, data identifiers, the 0x33 offset and the checksum. */
module Dlt645Frames {
  import opened Results
  import opened Sequences
  import opened Decimal
  import opened Bytes
  import opened Hexadecimal

  function Reversed(s: bytes): (r: bytes)
    ensures |r| == |s|
  {
    if s == [] then [] else Reversed(s[1..]) + [s[0]]
  }

  lemma {:induction false} ReversedTwice(s: bytes)
    ensures Reversed(Reversed(s)) == s
  {
    if s != [] {
      ReversedTwice(s[1..]);
      ReversedPush(Reversed(s[1..]), s[0]);
    }
  }

  lemma {:induction false} ReversedPush(s: bytes, b: byte)
    ensures Reversed(s + [b]) == [b] + Reversed(s)
  {
    if s == [] {
      assert [b][1..] == [];
    } else {
      assert (s + [b])[1..] == s[1..] + [b];
      ReversedPush(s[1..], b);
    }
  }

  // ----- addresses and data identifiers -----

  function DigitsOf(s: string): (r: string)
    ensures AllDigits(r)
  {
    if s == "" then "" else DigitsOf(s[..|s| - 1]) + (if IsDigit(s[|s| - 1]) then [s[|s| - 1]] else "")
  }

  function AddressText(meterAddress: string): (r: Result<string>)
    ensures r.Ok? ==> |r.value| == 12 && AllDigits(r.value)
  {
    var digits := DigitsOf(meterAddress);
    if digits == "" || |digits| > 12 then Failed else Ok(Repeat('0', 12 - |digits|) + digits)
  }

  method NormalizeAddress(meterAddress: string) returns (r: Result<string>)
    ensures r == AddressText(meterAddress)
  {
    var digits := "";
    for i := 0 to |meterAddress|
      invariant digits == DigitsOf(meterAddress[..i])
    {
      assert meterAddress[..i + 1][..i] == meterAddress[..i];
      if IsDigit(meterAddress[i]) {
        digits := digits + [meterAddress[i]];
      }
    }
    assert meterAddress[..|meterAddress|] == meterAddress;
    if digits == "" || |digits| > 12 {
      return Failed;
    }
    ghost var own := digits;
    while |digits| < 12
      invariant |own| <= |digits| <= 12
      invariant digits == Repeat('0', |digits| - |own|) + own
    {
      digits := ['0'] + digits;
    }
    r := Ok(digits);
  }

  function WithoutSpace(s: string): string {
    if s == "" then "" else WithoutSpace(s[..|s| - 1]) + (if IsSpace(s[|s| - 1]) then "" else [s[|s| - 1]])
  }

  /** A data identifier is written high byte first and sent low byte first. */
  function DataId(text: string): (r: Result<bytes>)
    ensures r.Ok? ==> |r.value| == 4
  {
    var hex := WithoutSpace(text);
    if |hex| != 8 || Unhex(hex).Failed? then Failed
    else
      UnhexLength(hex);
      Ok(Reversed(Unhex(hex).value))
  }

  lemma {:induction false} UnhexLength(text: string)
    ensures Unhex(text).Ok? ==> 2 * |Unhex(text).value| == |text|
    decreases |text|
  {
    if |text| > 1 {
      UnhexLength(text[2..]);
    }
  }

  method ParseDataId(text: string) returns (r: Result<bytes>)
    ensures r == DataId(text)
  {
    hide Unhex;
    var hex := "";
    for i := 0 to |text|
      invariant hex == WithoutSpace(text[..i])
    {
      assert text[..i + 1][..i] == text[..i];
      if !IsSpace(text[i]) {
        hex := hex + [text[i]];
      }
    }
    assert text[..|text|] == text;
    if |hex| != 8 {
      return Failed;
    }
    var parsed := HexDecode(hex);
    if parsed.Failed? {
      return Failed;
    }
    r := Ok(Reversed(parsed.value));
  }

  lemma {:induction false} NoSpaceInHex(value: bytes)
    ensures WithoutSpace(Hex(value)) == Hex(value)
    decreases |value|
  {
    forall i | 0 <= i < |Hex(value)|
      ensures !IsSpace(Hex(value)[i])
    {
      HexHasNoSpace(value, i);
    }
    NoSpaceKept(Hex(value));
  }

  lemma {:induction false} HexHasNoSpace(value: bytes, i: nat)
    requires i < |Hex(value)|
    ensures !IsSpace(Hex(value)[i])
  {
    if i >= 2 {
      HexHasNoSpace(value[1..], i - 2);
    }
  }

  lemma {:induction false} NoSpaceKept(s: string)
    requires forall i :: 0 <= i < |s| ==> !IsSpace(s[i])
    ensures WithoutSpace(s) == s
  {
    if s != "" {
      NoSpaceKept(s[..|s| - 1]);
    }
  }

  lemma {:induction false} HexLength(value: bytes)
    ensures |Hex(value)| == 2 * |value|
  {
    if value != [] {
      HexLength(value[1..]);
    }
  }

  /** Every four bytes have a written form that parses back to them. */
  lemma DataIdRoundTrip(id: bytes)
    requires |id| == 4
    ensures DataId(Hex(Reversed(id))) == Ok(id)
  {
    hide Hex, Unhex, WithoutSpace, Reversed;
    NoSpaceInHex(Reversed(id));
    HexLength(Reversed(id));
    UnhexHex(Reversed(id));
    ReversedTwice(id);
  }

  /** The address on the wire: digit pairs, the last pair first. */
  function AddressBytes(text: string): (r: bytes)
    requires |text| % 2 == 0 && AllDigits(text)
    ensures |r| == |text| / 2
    decreases |text|
  {
    if text == "" then []
    else
      var n := |text| - 2;
      [DigitValue(text[n]) * 16 + DigitValue(text[n + 1])] + AddressBytes(text[..n])
  }

  lemma AddressPair(text: string, i: nat)
    requires |text| % 2 == 0 && i % 2 == 0 && i + 2 <= |text| && AllDigits(text)
    ensures AddressBytes(text[..i + 2])
            == [DigitValue(text[i]) * 16 + DigitValue(text[i + 1])] + AddressBytes(text[..i])
  {
    assert text[..i + 2][..i] == text[..i];
  }

  method EncodeAddress(normalizedAddress: string) returns (result: bytes)
    requires |normalizedAddress| % 2 == 0 && AllDigits(normalizedAddress)
    ensures result == AddressBytes(normalizedAddress)
  {
    hide AddressBytes, DigitValue;
    result := [];
    var i := |normalizedAddress| - 2;
    assert normalizedAddress[..i + 2] == normalizedAddress;
    while i >= 0
      invariant -2 <= i <= |normalizedAddress| - 2 && i % 2 == 0
      invariant result + AddressBytes(normalizedAddress[..i + 2]) == AddressBytes(normalizedAddress)
    {
      AddressPair(normalizedAddress, i);
      result := result + [DigitValue(normalizedAddress[i]) * 16 + DigitValue(normalizedAddress[i + 1])];
      i := i - 2;
    }
    assert normalizedAddress[..0] == "";
    assert AddressBytes("") == [];
  }

  // ----- frames -----

  function Offset(b: byte): byte {
    (b as int + 0x33) % 256
  }

  function Unoffset(b: byte): byte {
    (b as int - 0x33) % 256
  }

  function Shifted(data: bytes): (r: bytes)
    ensures |r| == |data|
  {
    seq(|data|, i requires 0 <= i < |data| => Offset(data[i]))
  }

  function Unshifted(data: bytes): (r: bytes)
    ensures |r| == |data|
  {
    seq(|data|, i requires 0 <= i < |data| => Unoffset(data[i]))
  }

  lemma OffsetInverse(b: byte)
    ensures Unoffset(Offset(b)) == b && Offset(Unoffset(b)) == b
  {
    hide Offset, Unoffset;
    OffsetWraps(b);
    OffsetWraps(Offset(b));
    OffsetWraps(Unoffset(b));
  }

  lemma OffsetWraps(b: byte)
    ensures Offset(b) as int == if b < 205 then b as int + 51 else b as int - 205
    ensures Unoffset(b) as int == if b < 51 then b as int + 205 else b as int - 51
  {
  }

  lemma ShiftInverse(data: bytes)
    ensures Unshifted(Shifted(data)) == data && Shifted(Unshifted(data)) == data
  {
    hide Offset, Unoffset;
    forall i | 0 <= i < |data|
      ensures Unshifted(Shifted(data))[i] == data[i] && Shifted(Unshifted(data))[i] == data[i]
    {
      OffsetInverse(data[i]);
    }
  }

  function Body(address: bytes, control: byte, data: bytes): bytes
    requires |data| < 256
  {
    [0x68] + address + [0x68, control, |data|] + Shifted(data)
  }

  function FrameOf(address: bytes, control: byte, data: bytes): bytes
    requires |data| < 256
  {
    Body(address, control, data) + [Checksum(Body(address, control, data)), 0x16]
  }

  method ComputeChecksum(s: bytes) returns (c: byte)
    ensures c == Checksum(s)
  {
    var sum: nat := 0;
    for i := 0 to |s|
      invariant sum % 256 == Checksum(s[..i])
    {
      assert s[..i + 1][..i] == s[..i];
      sum := sum + s[i];
    }
    assert s[..|s|] == s;
    c := sum % 256;
  }

  /** The read request for a meter and a data identifier. */
  method BuildReadFrame(meterAddress: string, dataIdHex: string) returns (r: Result<bytes>)
    ensures r.Ok? <==> AddressText(meterAddress).Ok? && DataId(dataIdHex).Ok?
    ensures r.Ok? ==> r.value == FrameOf(AddressBytes(AddressText(meterAddress).value), 0x11, DataId(dataIdHex).value)
  {
    hide AddressText, DataId, AddressBytes, Checksum;
    var normalizedAddress := NormalizeAddress(meterAddress);
    if normalizedAddress.Failed? {
      return Failed;
    }
    var dataId := ParseDataId(dataIdHex);
    if dataId.Failed? {
      return Failed;
    }
    var address := EncodeAddress(normalizedAddress.value);
    var frame: bytes := [0x68] + address + [0x68, 0x11, 0x04];
    ghost var front, shifted := frame, Shifted(dataId.value);
    for i := 0 to |dataId.value|
      invariant frame == front + shifted[..i]
    {
      frame := frame + [Offset(dataId.value[i])];
    }
    assert frame == Body(address, 0x11, dataId.value);
    var sum := ComputeChecksum(frame);
    frame := frame + [sum];
    frame := frame + [0x16];
    r := Ok(frame);
  }

  /** A response with this data identifier and payload. */
  ghost predicate IsResponse(frame: bytes, id: bytes, payload: bytes) {
    exists address: bytes, control: byte ::
      |address| == 6 && control >= 0x80 && |id + payload| < 256 && frame == FrameOf(address, control, id + payload)
  }

  /** Where the parts of a frame lie. */
  lemma FrameParts(address: bytes, control: byte, data: bytes)
    requires |address| == 6 && |data| < 256
    ensures var f := FrameOf(address, control, data);
            && |f| == |data| + 12 && f[0] == 0x68 && f[1..7] == address && f[7] == 0x68 && f[8] == control
            && f[9] == |data|
            && f[10..10 + |data|] == Shifted(data)
            && f[..|f| - 2] == Body(address, control, data) && f[|f| - 2] == Checksum(Body(address, control, data))
            && f[|f| - 1] == 0x16
  {
    hide Checksum;
    var f, body := FrameOf(address, control, data), Body(address, control, data);
    assert f[1..7] == address;
    assert f[10..10 + |data|] == Shifted(data);
    assert f[..|f| - 2] == body;
  }

  /** A frame with the right markers, length and checksum is the frame of its parts. */
  lemma PartsMakeFrame(frame: bytes)
    requires |frame| >= 12 && frame[9] as int + 12 == |frame|
    requires frame[0] == 0x68 && frame[7] == 0x68 && frame[|frame| - 1] == 0x16
    requires Checksum(frame[..|frame| - 2]) == frame[|frame| - 2]
    ensures frame == FrameOf(frame[1..7], frame[8], Unshifted(frame[10..10 + frame[9]]))
  {
    hide Checksum;
    var data := Unshifted(frame[10..10 + frame[9]]);
    ShiftInverse(frame[10..10 + frame[9]]);
    assert frame[..|frame| - 2] == Body(frame[1..7], frame[8], data);
  }

  /** The payload of a response is unique. */
  lemma ResponsePayload(frame: bytes, id: bytes, payload: bytes)
    requires |id| == 4 && IsResponse(frame, id, payload)
    ensures |frame| >= 16 && frame[9] as int + 12 == |frame|
    ensures frame[0] == 0x68 && frame[7] == 0x68 && frame[|frame| - 1] == 0x16
    ensures frame[8] >= 0x80 && Checksum(frame[..|frame| - 2]) == frame[|frame| - 2]
    ensures Unshifted(frame[10..10 + frame[9]]) == id + payload
  {
    hide Checksum, FrameOf, Body, Shifted, Unshifted;
    var address: bytes, control: byte :|
      |address| == 6 && control >= 0x80 && |id + payload| < 256 && frame == FrameOf(address, control, id + payload);
    FrameParts(address, control, id + payload);
    ShiftInverse(id + payload);
  }

  /** Decoding accepts exactly the responses with the expected identifier and returns their payload. */
  method DecodeFrameData(frame: bytes, expectedDataId: bytes) returns (r: Result<bytes>)
    requires |expectedDataId| == 4
    ensures r.Ok? ==> IsResponse(frame, expectedDataId, r.value)
    ensures r.Failed? ==> forall payload :: !IsResponse(frame, expectedDataId, payload)
  {
    hide Checksum, FrameOf, IsResponse, Unshifted;
    forall payload | IsResponse(frame, expectedDataId, payload) {
      ResponsePayload(frame, expectedDataId, payload);
    }
    if |frame| < 16 {
      return Failed;
    }
    if frame[0] != 0x68 || frame[7] != 0x68 || frame[|frame| - 1] != 0x16 {
      return Failed;
    }
    var sum := ComputeChecksum(frame[..|frame| - 2]);
    if sum != frame[|frame| - 2] {
      return Failed;
    }
    var control := frame[8];
    if control < 0x80 {
      return Failed;
    }
    var len: nat := frame[9];
    if |frame| != len + 12 || len < 4 {
      return Failed;
    }
    var data := Unshift(frame[10..10 + len]);
    if data[..4] != expectedDataId {
      forall payload {
        IdInFront(expectedDataId, payload);
      }
      return Failed;
    }
    PartsMakeFrame(frame);
    Witness(frame, frame[1..7], control, data, expectedDataId);
    r := Ok(data[4..]);
  }

  lemma IdInFront(id: bytes, payload: bytes)
    requires |id| == 4
    ensures (id + payload)[..4] == id
  {
  }

  lemma Witness(frame: bytes, address: bytes, control: byte, data: bytes, id: bytes)
    requires |address| == 6 && control >= 0x80 && 4 <= |data| < 256 && data[..4] == id
    requires frame == FrameOf(address, control, data)
    ensures IsResponse(frame, id, data[4..])
  {
    hide FrameOf;
    assert id + data[4..] == data;
  }

  method Unshift(data: bytes) returns (r: bytes)
    ensures r == Unshifted(data)
  {
    r := data;
    for i := 0 to |data|
      invariant |r| == |data|
      invariant forall j :: 0 <= j < |data| ==> r[j] == if j < i then Unoffset(data[j]) else data[j]
    {
      r := r[i := Unoffset(r[i])];
    }
  }
}
